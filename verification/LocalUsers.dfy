/** protocol/users/LocalUsers.cpp: the user table, its cache, and the session tokens. */
module LocalUsers {
  import opened Text

  /** A row of the Users table; how `hash` is computed is not part of this model. */
  datatype Row = Row(isAdmin: bool, email: string, joinTs: int, hash: string)
  datatype User = User(username: string, isAdmin: bool, email: string, joinTs: int)
  datatype Session = Session(user: User, expiration: int)

  /** `users` is the database; `cache` and `tokens` are guarded by the lock. */
  datatype State = State(users: map<string, Row>, cache: map<string, User>, tokens: map<string, Session>)

  const SESSION_LIFETIME: int := 60 * 60 * 24 * 14

  predicate IsExpired(s: Session, now: int) {
    now > s.expiration
  }

  function UserOf(username: string, row: Row): User {
    User(username, row.isAdmin, row.email, row.joinTs)
  }

  // ----- Operations, each as one step -----

  function Lookup(s: State, username: string): Option<User> {
    if username in s.cache then Some(s.cache[username])
    else if username in s.users then Some(UserOf(username, s.users[username]))
    else None
  }

  /** `get_user` also fills the cache on a miss. */
  function Fetched(s: State, username: string): State {
    if username !in s.cache && username in s.users then Filled(s, UserOf(username, s.users[username])) else s
  }

  function Filled(s: State, u: User): State {
    s.(cache := s.cache[u.username := u])
  }

  function Issued(s: State, u: User, token: string, now: int): State {
    s.(tokens := s.tokens[token := Session(u, now + SESSION_LIFETIME)])
  }

  /** `add_user` writes the database only; a taken username is an error of the database. */
  function UserAdded(s: State, username: string, row: Row): State {
    if username in s.users then s else s.(users := s.users[username := row])
  }

  predicate CanLogin(s: State, username: string, passwordOk: bool) {
    Lookup(s, username).Some? && (username in s.users ==> passwordOk)
  }

  function LoggedIn(s: State, username: string, passwordOk: bool, token: string, now: int): State {
    var s' := Fetched(s, username);
    if CanLogin(s, username, passwordOk) then Issued(s', Lookup(s, username).value, token, now) else s'
  }

  function Deauthed(s: State, token: string): State {
    s.(tokens := s.tokens - {token})
  }

  function Cleaned(s: State, now: int): State {
    s.(tokens := map k | k in s.tokens && !IsExpired(s.tokens[k], now) :: s.tokens[k])
  }

  predicate IsOf(u: User, found: User, username: string) {
    u == found || u.username == username
  }

  function UserDeleted(s: State, username: string): State {
    if Lookup(s, username).None? then s
    else
      State(s.users - {username}, s.cache - {username},
            map k | k in s.tokens && !IsOf(s.tokens[k].user, Lookup(s, username).value, username) :: s.tokens[k])
  }

  /** `auth_user` by token. */
  function Auth(s: State, token: string): Option<User> {
    if token in s.tokens then Some(s.tokens[token].user) else None
  }

  // ----- What holds in every reachable state -----

  ghost predicate Known(s: State, u: User) {
    u.username in s.users && u == UserOf(u.username, s.users[u.username])
  }

  ghost predicate CacheAgrees(s: State) {
    forall k | k in s.cache :: s.cache[k].username == k && Known(s, s.cache[k])
  }

  ghost predicate TokensLive(s: State) {
    forall k | k in s.tokens :: Known(s, s.tokens[k].user)
  }

  ghost predicate Inv(s: State) {
    CacheAgrees(s) && TokensLive(s)
  }

  datatype Op =
    | AddUserOp(username: string, row: Row)
    | GetUserOp(username: string)
    | LoginOp(username: string, passwordOk: bool, token: string, now: int)
    | DeauthOp(token: string)
    | CronOp(now: int)
    | DeleteUserOp(username: string)

  /** `authorize_user` draws until the token is not in use. */
  predicate Legal(s: State, op: Op) {
    op.LoginOp? ==> op.token !in s.tokens
  }

  function Step(s: State, op: Op): State {
    match op
    case AddUserOp(username, row) => UserAdded(s, username, row)
    case GetUserOp(username) => Fetched(s, username)
    case LoginOp(username, passwordOk, token, now) => LoggedIn(s, username, passwordOk, token, now)
    case DeauthOp(token) => Deauthed(s, token)
    case CronOp(now) => Cleaned(s, now)
    case DeleteUserOp(username) => UserDeleted(s, username)
  }

  function Run(ops: seq<Op>): Option<State> {
    if ops == [] then Some(State(map[], map[], map[]))
    else
      var s := Run(ops[..|ops| - 1]);
      if s.Some? && Legal(s.value, ops[|ops| - 1]) then Some(Step(s.value, ops[|ops| - 1])) else None
  }

  lemma StepInv(s: State, op: Op)
    requires Inv(s)
    ensures Inv(Step(s, op))
  {
  }

  /** In every reachable state the cache agrees with the database and every token names a user
      that exists. */
  lemma {:induction false} EveryRun(ops: seq<Op>)
    requires Run(ops).Some?
    ensures Inv(Run(ops).value)
  {
    if ops != [] {
      EveryRun(ops[..|ops| - 1]);
      StepInv(Run(ops[..|ops| - 1]).value, ops[|ops| - 1]);
    }
  }

  /** The fields of a user are those of the row, in every state that keeps the invariant. */
  lemma LookupIsRow(s: State, username: string)
    requires Inv(s)
    ensures match Lookup(s, username)
            case Some(u) =>
              && username in s.users && u.username == username && u.isAdmin == s.users[username].isAdmin
              && u.email == s.users[username].email && u.joinTs == s.users[username].joinTs
            case None => username !in s.users
  {
  }

  lemma TokenIsRow(s: State, token: string)
    requires Inv(s) && Auth(s, token).Some?
    ensures var u := Auth(s, token).value;
            && u.username in s.users && u.isAdmin == s.users[u.username].isAdmin
            && u.email == s.users[u.username].email && u.joinTs == s.users[u.username].joinTs
  {
  }

  /** So, in every reachable state, for the users `get_user` returns and tokens authenticate. */
  lemma {:induction false} UsersAreRows(ops: seq<Op>, username: string, token: string)
    requires Run(ops).Some?
    ensures var s := Run(ops).value;
            && (match Lookup(s, username)
                case Some(u) =>
                  && username in s.users && u.username == username && u.isAdmin == s.users[username].isAdmin
                  && u.email == s.users[username].email && u.joinTs == s.users[username].joinTs
                case None => username !in s.users)
            && (match Auth(s, token)
                case Some(u) =>
                  && u.username in s.users && u.isAdmin == s.users[u.username].isAdmin
                  && u.email == s.users[u.username].email && u.joinTs == s.users[u.username].joinTs
                case None => true)
  {
    EveryRun(ops);
    LookupIsRow(Run(ops).value, username);
    if Auth(Run(ops).value, token).Some? {
      TokenIsRow(Run(ops).value, token);
    }
  }

  /** What each operation does to the rows, the cache and the tokens it does not speak of. */
  lemma OperationsAreExact(s: State, op: Op, name: string, token: string)
    requires Inv(s) && Legal(s, op)
    ensures var s' := Step(s, op);
            && (if op.AddUserOp? && op.username == name && name !in s.users
                then name in s'.users && s'.users[name] == op.row
                else if op.DeleteUserOp? && op.username == name then name !in s'.users
                else (name in s'.users <==> name in s.users) && (name in s.users ==> s'.users[name] == s.users[name]))
            && (name in s'.cache <==>
                  || (name in s.cache && !(op.DeleteUserOp? && op.username == name))
                  || ((op.GetUserOp? || op.LoginOp?) && op.username == name && name in s.users))
            && (token in s'.tokens <==>
                  || (op.LoginOp? && op.token == token && op.username in s.users && op.passwordOk)
                  || (token in s.tokens
                      && op != DeauthOp(token)
                      && !(op.DeleteUserOp? && op.username == s.tokens[token].user.username)
                      && !(op.CronOp? && op.now > s.tokens[token].expiration)))
  {
  }

  // ----- The lifetime of a session -----

  /** A session lasts two weeks: a cleanup ends it only after that many seconds. */
  lemma TwoWeeks(s: State, op: Op, now: int)
    requires Inv(s) && Legal(s, op) && op.LoginOp? && op.username in s.users && op.passwordOk
    ensures op.token in Step(Step(s, op), CronOp(now)).tokens <==> now <= op.now + 1209600
  {
  }

  /** The three ways a session ends. */
  predicate Kills(op: Op, token: string, session: Session) {
    match op
    case DeauthOp(k) => k == token
    case DeleteUserOp(username) => username == session.user.username
    case CronOp(now) => IsExpired(session, now)
    case _ => false
  }

  lemma SessionStep(s: State, op: Op, token: string)
    requires Inv(s) && Legal(s, op) && token in s.tokens
    ensures var s' := Step(s, op);
            if Kills(op, token, s.tokens[token]) then token !in s'.tokens
            else token in s'.tokens && s'.tokens[token] == s.tokens[token]
  {
  }

  lemma NoNewSession(s: State, op: Op, token: string)
    requires token !in s.tokens && !(op.LoginOp? && op.token == token)
    ensures token !in Step(s, op).tokens
  {
  }

  /** From its login on, a token authenticates its user exactly until the first logout with it,
      deletion of the user, or cleanup after its expiry. */
  lemma {:induction false} SessionLifetime(ops: seq<Op>, i: nat, j: nat)
    requires i < j <= |ops| && Run(ops).Some?
    requires ops[i].LoginOp? && Run(ops[..i]).Some?
    requires CanLogin(Run(ops[..i]).value, ops[i].username, ops[i].passwordOk)
    requires forall k | i < k < j && ops[k].LoginOp? :: ops[k].token != ops[i].token
    ensures Run(ops[..j]).Some?
    ensures var token, user := ops[i].token, Lookup(Run(ops[..i]).value, ops[i].username).value;
            var session := Session(user, ops[i].now + SESSION_LIFETIME);
            var s := Run(ops[..j]).value;
            if exists k | i < k < j :: Kills(ops[k], token, session)
            then token !in s.tokens && Auth(s, token) == None
            else token in s.tokens && s.tokens[token] == session && Auth(s, token) == Some(user)
    decreases j
  {
    hide Step, Kills, CanLogin;
    PrefixRuns(ops, j);
    assert ops[..j][..j - 1] == ops[..j - 1];
    var s := Run(ops[..j - 1]).value;
    if j == i + 1 {
      IssuedNow(s, ops[i]);
    } else {
      SessionLifetime(ops, i, j - 1);
      EveryRun(ops[..j - 1]);
      var token := ops[i].token;
      if token in s.tokens {
        SessionStep(s, ops[j - 1], token);
      } else {
        NoNewSession(s, ops[j - 1], token);
      }
    }
  }

  lemma IssuedNow(s: State, op: Op)
    requires op.LoginOp? && CanLogin(s, op.username, op.passwordOk)
    ensures var user := Lookup(s, op.username).value;
            op.token in Step(s, op).tokens
            && Step(s, op).tokens[op.token] == Session(user, op.now + SESSION_LIFETIME)
  {
  }

  lemma {:induction false} PrefixRuns(ops: seq<Op>, j: nat)
    requires j <= |ops| && Run(ops).Some?
    ensures Run(ops[..j]).Some?
    ensures j > 0 ==> Run(ops[..j - 1]).Some? && Legal(Run(ops[..j - 1]).value, ops[j - 1])
                      && Run(ops[..j]).value == Step(Run(ops[..j - 1]).value, ops[j - 1])
    decreases |ops|
  {
    hide Step;
    if j < |ops| {
      PrefixRuns(ops[..|ops| - 1], j);
      assert ops[..|ops| - 1][..j] == ops[..j];
      if j > 0 { assert ops[..|ops| - 1][..j - 1] == ops[..j - 1]; }
    } else {
      assert ops[..j] == ops;
    }
  }

  /** In every reachable state a login succeeds exactly for a user of the database whose password
      matches. */
  lemma {:induction false} LoginExactly(ops: seq<Op>, username: string, passwordOk: bool)
    requires Run(ops).Some?
    ensures var s := Run(ops).value;
            CanLogin(s, username, passwordOk) <==> username in s.users && passwordOk
  {
    EveryRun(ops);
  }

  // ----- Interleavings: `get_user`, `login_user` and `delete_user` take the lock more than once -----

  /** The parts of all calls in the order they happen: a look in the cache under the lock, a query of
      the database, the password query, and what is done later with the user found.  `read` and
      `check` are the positions of the parts in which the same call found its user and checked the
      password; `matches` says whether it is the one in the row, should there be a row. */
  datatype Event =
    | Add(username: string, row: Row)
    | Peek(username: string)
    | Query(username: string)
    | Fill(read: nat)
    | Check(username: string, matches: bool)
    | Issue(read: nat, check: nat, token: string, now: int)
    | Erase(read: nat)
    | Deauth(token: string)
    | Cron(now: int)

  /** The state after all events. */
  function History(es: seq<Event>): State
    decreases |es|, 0
  {
    if es == [] then State(map[], map[], map[])
    else Happened(es[..|es| - 1], History(es[..|es| - 1]), es[|es| - 1])
  }

  /** One event in state `s`, which `es` has led to. */
  function Happened(es: seq<Event>, s: State, e: Event): State
    decreases |es|, 3
  {
    match e
    case Add(username, row) => UserAdded(s, username, row)
    case Peek(_) => s
    case Query(_) => s
    case Fill(read) => if Seen(es, read).Some? && es[read].Query? then Filled(s, Seen(es, read).value) else s
    case Check(_, _) => s
    case Issue(read, check, token, now) =>
      if LetIn(es, read, check) then Issued(s, Seen(es, read).value, token, now) else s
    case Erase(read) => if Seen(es, read).Some? then Erased(s, Seen(es, read).value, es[read].username) else s
    case Deauth(token) => Deauthed(s, token)
    case Cron(now) => Cleaned(s, now)
  }

  /** The user found by the part at that position. */
  function Seen(es: seq<Event>, read: nat): (u: Option<User>)
    ensures u.Some? ==> read < |es| && (es[read].Peek? || es[read].Query?)
    decreases |es|, 1
  {
    if read >= |es| then None
    else
      match es[read]
      case Peek(name) => Cached(History(es[..read]), name)
      case Query(name) => Stored(History(es[..read]), name)
      case _ => None
  }

  /** Does the login go through: a user found, and a password query that did not refuse?  It does not
      refuse when there is no row. */
  predicate LetIn(es: seq<Event>, read: nat, check: nat)
    decreases |es|, 2
  {
    && Seen(es, read).Some? && read < check < |es|
    && es[check].Check? && es[check].username == es[read].username
    && (es[check].username in History(es[..check]).users ==> es[check].matches)
  }

  function Cached(s: State, username: string): Option<User> {
    if username in s.cache then Some(s.cache[username]) else None
  }

  function Stored(s: State, username: string): Option<User> {
    if username in s.users then Some(UserOf(username, s.users[username])) else None
  }

  /** The locked part of `delete_user`. */
  function Erased(s: State, found: User, username: string): State {
    State(s.users - {username}, s.cache - {username},
          map k | k in s.tokens && !IsOf(s.tokens[k].user, found, username) :: s.tokens[k])
  }

  /** The parts of `get_user`: no query if the cache has the user. */
  function Get(es: seq<Event>, username: string): seq<Event> {
    if username in History(es).cache then es + [Peek(username)]
    else es + [Peek(username)] + [Query(username)] + [Fill(|es| + 1)]
  }

  /** Operations that nothing interrupts are the steps of the previous sections. */
  lemma OneAtATime(es: seq<Event>, username: string, passwordOk: bool, token: string, now: int)
    ensures var s, get := History(es), Get(es, username);
            var read := if username in s.cache then |es| else |es| + 1;
            && Seen(get, read) == Lookup(s, username) && History(get) == Fetched(s, username)
            && History(get + [Check(username, passwordOk)] + [Issue(read, |get|, token, now)])
               == LoggedIn(s, username, passwordOk, token, now)
            && (Inv(s) && Lookup(s, username).Some? ==> History(get + [Erase(read)]) == UserDeleted(s, username))
  {
    hide History, Fetched, Erased, UserDeleted, Inv, Seen, Get;
    var s, get := History(es), Get(es, username);
    var read := if username in s.cache then |es| else |es| + 1;
    GetAtOnce(es, username);
    LoginAtOnce(get, read, username, passwordOk, token, now);
    FetchedUsers(s, username);
    Latest(get, Erase(read));
    if Inv(s) && Lookup(s, username).Some? { ErasedIs(s, username); }
  }

  lemma GetAtOnce(es: seq<Event>, username: string)
    ensures var s, get := History(es), Get(es, username);
            var read := if username in s.cache then |es| else |es| + 1;
            && read < |get| && get[read] == (if username in s.cache then Peek(username) else Query(username))
            && Seen(get, read) == Lookup(s, username) && History(get) == Fetched(s, username)
  {
    hide History;
    var a := es + [Peek(username)];
    var b := a + [Query(username)];
    var c := b + [Fill(|es| + 1)];
    Latest(es, Peek(username));
    Latest(a, Query(username));
    Latest(b, Fill(|es| + 1));
    assert a[..|es|] == es && b[..|es| + 1] == a && c[..|es| + 1] == a;
    assert b[|es| + 1] == c[|es| + 1] == Query(username);
  }

  lemma LoginAtOnce(get: seq<Event>, read: nat, username: string, passwordOk: bool, token: string, now: int)
    requires read < |get| && (get[read] == Peek(username) || get[read] == Query(username))
    ensures var s := History(get);
            History(get + [Check(username, passwordOk)] + [Issue(read, |get|, token, now)]) ==
              if Seen(get, read).Some? && (username in s.users ==> passwordOk)
              then Issued(s, Seen(get, read).value, token, now) else s
  {
    hide History, Cached, Stored;
    var a := get + [Check(username, passwordOk)];
    Latest(get, Check(username, passwordOk));
    Latest(a, Issue(read, |get|, token, now));
    assert a[..|get|] == get && a[..read] == get[..read] && a[read] == get[read];
    LetInIs(a, read, |get|);
  }

  lemma LetInIs(es: seq<Event>, read: nat, check: nat)
    ensures LetIn(es, read, check) <==>
              && Seen(es, read).Some? && read < check < |es|
              && es[check].Check? && es[check].username == es[read].username
              && (es[check].username in History(es[..check]).users ==> es[check].matches)
  {
  }

  lemma FetchedUsers(s: State, username: string)
    ensures Fetched(s, username).users == s.users
  {
  }

  /** One more event. */
  lemma Latest(es: seq<Event>, e: Event)
    ensures History(es + [e]) == Happened(es, History(es), e)
  {
    hide Happened;
    assert (es + [e])[..|es|] == es;
  }

  lemma ErasedIs(s: State, username: string)
    requires Inv(s) && Lookup(s, username).Some?
    ensures Erased(Fetched(s, username), Lookup(s, username).value, username) == UserDeleted(s, username)
  {
    assert Fetched(s, username).cache - {username} == s.cache - {username};
  }

  /** Does the part at `k` delete that user from the database? */
  predicate Erases(es: seq<Event>, k: nat, username: string)
    requires k < |es|
  {
    es[k].Erase? && Seen(es[..k], es[k].read).Some? && es[es[k].read].username == username
  }

  /** The last deletion of the user among the events from `i` to before `j`. */
  function LastErase(es: seq<Event>, username: string, i: nat, j: nat): (k: Option<nat>)
    requires j <= |es|
    ensures match k
            case Some(k) => i <= k < j && Erases(es, k, username) && forall m | k < m < j :: !Erases(es, m, username)
            case None => forall m | i <= m < j :: !Erases(es, m, username)
  {
    if j <= i then None
    else if Erases(es, j - 1, username) then Some(j - 1)
    else LastErase(es, username, i, j - 1)
  }

  predicate Adds(e: Event, username: string) {
    e.Add? && e.username == username
  }

  /** The first attempt to add the user among the events from `i` to before `j`. */
  function FirstAdd(es: seq<Event>, username: string, i: nat, j: nat): (a: Option<nat>)
    requires j <= |es|
    ensures match a
            case Some(a) => i <= a < j && Adds(es[a], username) && forall m | i <= m < a :: !Adds(es[m], username)
            case None => forall m | i <= m < j :: !Adds(es[m], username)
  {
    if j <= i then None
    else if FirstAdd(es, username, i, j - 1).Some? then FirstAdd(es, username, i, j - 1)
    else if Adds(es[j - 1], username) then Some(j - 1)
    else None
  }

  /** Between `i` and `j` the user was not deleted, or after the last deletion was first added back
      with the same data. */
  predicate StillThere(es: seq<Event>, u: User, i: nat, j: nat)
    requires j <= |es|
  {
    match LastErase(es, u.username, i, j)
    case None => true
    case Some(k) =>
      match FirstAdd(es, u.username, k + 1, j)
      case None => false
      case Some(a) => UserOf(u.username, es[a].row) == u
  }

  /** Does the part at `j` write a user to the cache or a session that was looked up before? */
  predicate Late(es: seq<Event>, j: nat)
    requires j < |es|
  {
    || (es[j].Fill? && Seen(es[..j], es[j].read).Some? && es[es[j].read].Query?)
    || (es[j].Issue? && LetIn(es[..j], es[j].read, es[j].check))
  }

  /** ... and one who is not there any more? */
  predicate Stale(es: seq<Event>, j: nat)
    requires j < |es|
  {
    Late(es, j) && !StillThere(es, Seen(es[..j], es[j].read).value, es[j].read, j)
  }

  lemma HistoryStep(es: seq<Event>, j: nat)
    requires j < |es|
    ensures es[..j + 1][..j] == es[..j] && es[..j + 1][j] == es[j]
  {
  }

  lemma UsersStep(es: seq<Event>, j: nat, username: string)
    requires j < |es|
    ensures var users, users' := History(es[..j]).users, History(es[..j + 1]).users;
            if Erases(es, j, username) then username !in users'
            else if Adds(es[j], username) && username !in users then
              username in users' && users'[username] == es[j].row
            else (username in users' <==> username in users)
                 && (username in users ==> users'[username] == users[username])
  {
    hide Lookup, Seen;
    HistoryStep(es, j);
  }

  /** The row of a user, told from the history alone. */
  lemma {:induction false} RowAfter(es: seq<Event>, username: string, i: nat, j: nat)
    requires i <= j <= |es| && username in History(es[..i]).users
    ensures var users := History(es[..j]).users;
            match LastErase(es, username, i, j)
            case None => username in users && users[username] == History(es[..i]).users[username]
            case Some(k) =>
              match FirstAdd(es, username, k + 1, j)
              case None => username !in users
              case Some(a) => username in users && users[username] == es[a].row
    decreases j
  {
    hide History, Erases, Adds;
    if j > i {
      RowAfter(es, username, i, j - 1);
      UsersStep(es, j - 1, username);
    }
  }

  /** A late write keeps the invariant exactly when the user is still there by the history. */
  lemma LateStep(es: seq<Event>, j: nat)
    requires j < |es| && Late(es, j) && Inv(History(es[..j])) && Inv(History(es[..es[j].read]))
    ensures Inv(History(es[..j + 1])) <==> !Stale(es, j)
  {
    hide History, Seen, LetIn, Inv, Known, StillThere, Filled, Issued;
    var i := es[j].read;
    LetInIs(es[..j], i, if es[j].Issue? then es[j].check else 0);
    var u := Seen(es[..j], i).value;
    assert es[..j][..i] == es[..i];
    SeenKnown(es[..j], i);
    ThereByHistory(es, u, i, j);
    LateWrites(es, j);
    LateFill(History(es[..j]), u);
    LateIssue(History(es[..j]), u, if es[j].Issue? then es[j].token else "", if es[j].Issue? then es[j].now else 0);
  }

  lemma ThereByHistory(es: seq<Event>, u: User, i: nat, j: nat)
    requires i <= j <= |es| && Known(History(es[..i]), u)
    ensures Known(History(es[..j]), u) <==> StillThere(es, u, i, j)
  {
    hide History, LastErase, FirstAdd;
    RowAfter(es, u.username, i, j);
  }

  lemma LateWrites(es: seq<Event>, j: nat)
    requires j < |es| && Late(es, j)
    ensures var s, s', u := History(es[..j]), History(es[..j + 1]), Seen(es[..j], es[j].read).value;
            s' == if es[j].Fill? then Filled(s, u) else Issued(s, u, es[j].token, es[j].now)
  {
    hide Seen, LetIn, Filled, Issued;
    HistoryStep(es, j);
  }

  lemma SeenKnown(es: seq<Event>, read: nat)
    requires Seen(es, read).Some? && Inv(History(es[..read]))
    ensures Seen(es, read).value.username == es[read].username && Known(History(es[..read]), Seen(es, read).value)
  {
    hide History;
  }

  /** A query finds the row's own fields, and so does a look in the cache while the invariant holds. */
  lemma SeenIsRow(es: seq<Event>, read: nat)
    requires Seen(es, read).Some? && (es[read].Peek? ==> Inv(History(es[..read])))
    ensures var u, name, users := Seen(es, read).value, es[read].username, History(es[..read]).users;
            && name in users && u.username == name && u.isAdmin == users[name].isAdmin
            && u.email == users[name].email && u.joinTs == users[name].joinTs
  {
    hide History;
  }

  lemma PromptStep(es: seq<Event>, j: nat)
    requires j < |es| && !Late(es, j) && Inv(History(es[..j]))
    ensures Inv(History(es[..j + 1]))
  {
    hide Lookup, Seen;
    HistoryStep(es, j);
  }

  /** The theorem about interleavings: the cache agrees with the database and every token names a user
      that exists, at every moment, exactly when no call writes a stale user: one who by the history
      was deleted since the look-up and not first added back with the same data. */
  lemma EveryInterleaving(es: seq<Event>)
    ensures (forall j | 0 <= j <= |es| :: Inv(History(es[..j]))) <==> (forall j | 0 <= j < |es| :: !Stale(es, j))
  {
    hide Inv, History, Stale;
    if forall j | 0 <= j <= |es| :: Inv(History(es[..j])) {
      forall j | 0 <= j < |es| ensures !Stale(es, j) {
        if Stale(es, j) {
          StaleReads(es, j);
          LateStep(es, j);
        }
      }
    }
    if forall j | 0 <= j < |es| :: !Stale(es, j) {
      InvUpTo(es, |es|);
    }
  }

  lemma StaleReads(es: seq<Event>, j: nat)
    requires j < |es| && (Stale(es, j) || Late(es, j))
    ensures Late(es, j) && (es[j].Fill? || es[j].Issue?) && es[j].read < j
  {
    hide Lookup, History;
  }

  lemma {:induction false} InvUpTo(es: seq<Event>, n: nat)
    requires n <= |es| && forall j | 0 <= j < |es| :: !Stale(es, j)
    ensures forall j | 0 <= j <= n :: Inv(History(es[..j]))
    decreases n
  {
    hide Inv, History, Late, Stale;
    if n == 0 {
      EmptyHistory(es);
    } else {
      InvUpTo(es, n - 1);
      if Late(es, n - 1) {
        StaleReads(es, n - 1);
        LateStep(es, n - 1);
      } else {
        PromptStep(es, n - 1);
      }
    }
  }

  lemma EmptyHistory(es: seq<Event>)
    ensures Inv(History(es[..0]))
  {
  }

  /** The late half of `get_user`, in one state. */
  lemma LateFill(s: State, u: User)
    requires Inv(s)
    ensures Inv(Filled(s, u)) <==> Known(s, u)
  {
    assert Filled(s, u).cache[u.username] == u;
  }

  /** The late half of `login_user`, in one state. */
  lemma LateIssue(s: State, u: User, token: string, now: int)
    requires Inv(s)
    ensures Inv(Issued(s, u, token, now)) <==> Known(s, u)
  {
    assert Issued(s, u, token, now).tokens[token].user == u;
  }

  /** The parts of calls that end a session. */
  predicate Ends(es: seq<Event>, k: nat, token: string, session: Session)
    requires k < |es|
  {
    || es[k] == Deauth(token)
    || Erases(es, k, session.user.username)
    || (es[k].Cron? && IsExpired(session, es[k].now))
  }

  /** The cache is keyed by user name, whatever the interleaving. */
  lemma {:induction false} CacheKeyed(es: seq<Event>)
    ensures forall k | k in History(es).cache :: History(es).cache[k].username == k
    decreases |es|
  {
    if es != [] {
      CacheKeyed(es[..|es| - 1]);
    }
  }

  lemma SessionEvent(es: seq<Event>, j: nat, token: string)
    requires j < |es| && token in History(es[..j]).tokens && !(es[j].Issue? && es[j].token == token)
    ensures var before, after := History(es[..j]).tokens, History(es[..j + 1]).tokens;
            if Ends(es, j, token, before[token]) then token !in after
            else token in after && after[token] == before[token]
  {
    hide Lookup;
    HistoryStep(es, j);
    if es[j].Erase? && Seen(es[..j], es[j].read).Some? {
      SeenName(es[..j], es[j].read);
      hide Seen;
    }
  }

  lemma SeenName(es: seq<Event>, read: nat)
    requires Seen(es, read).Some?
    ensures Seen(es, read).value.username == es[read].username
  {
    hide History;
    CacheKeyed(es[..read]);
  }

  /** Whatever is interleaved with it, a session lasts from its issue exactly to the first logout
      with its token, deletion of its user, or cleanup after its expiry. */
  lemma {:induction false} SessionInterleaved(es: seq<Event>, i: nat, j: nat)
    requires i < j <= |es| && es[i].Issue? && LetIn(es[..i], es[i].read, es[i].check)
    requires forall k | i < k < j && es[k].Issue? :: es[k].token != es[i].token
    ensures var token, session := es[i].token, Session(Seen(es[..i], es[i].read).value, es[i].now + SESSION_LIFETIME);
            var tokens := History(es[..j]).tokens;
            if exists k | i < k < j :: Ends(es, k, token, session) then token !in tokens
            else token in tokens && tokens[token] == session
    decreases j
  {
    hide Seen, Ends, History;
    if j == i + 1 {
      IssuedThen(es, i);
    } else {
      SessionInterleaved(es, i, j - 1);
      var token := es[i].token;
      if token in History(es[..j - 1]).tokens {
        SessionEvent(es, j - 1, token);
      } else {
        NoSessionEvent(es, j - 1, token);
      }
    }
  }

  lemma IssuedThen(es: seq<Event>, i: nat)
    requires i < |es| && es[i].Issue? && LetIn(es[..i], es[i].read, es[i].check)
    ensures var tokens := History(es[..i + 1]).tokens;
            es[i].token in tokens
            && tokens[es[i].token] == Session(Seen(es[..i], es[i].read).value, es[i].now + SESSION_LIFETIME)
  {
    hide Seen;
    HistoryStep(es, i);
  }

  lemma NoSessionEvent(es: seq<Event>, j: nat, token: string)
    requires j < |es| && token !in History(es[..j]).tokens && !(es[j].Issue? && es[j].token == token)
    ensures token !in History(es[..j + 1]).tokens
  {
    hide Seen;
    HistoryStep(es, j);
  }

  /** A login, whatever is interleaved with it: a session is issued exactly if a user was found and, at
      the password query, the password matched or the row was missing. */
  lemma IssuedExactlyWhen(es: seq<Event>, j: nat)
    requires j < |es| && es[j].Issue? && es[j].token !in History(es[..j]).tokens
    requires es[j].read < es[j].check < j && es[es[j].check].Check?
    requires (es[es[j].read].Peek? || es[es[j].read].Query?) && es[es[j].check].username == es[es[j].read].username
    ensures var check := es[j].check;
            es[j].token in History(es[..j + 1]).tokens <==>
              && Seen(es[..j], es[j].read).Some?
              && (es[check].username !in History(es[..check]).users || es[check].matches)
  {
    hide Seen;
    HistoryStep(es, j);
    assert es[..j][..es[j].check] == es[..es[j].check];
    LetInIs(es[..j], es[j].read, es[j].check);
  }

  /** By the history, with a row found at `read`: the wrong password is let in exactly when the user was
      deleted before the password query and not added back before it. */
  lemma WrongPasswordExactlyWhen(es: seq<Event>, read: nat, check: nat)
    requires check < |es| && read < check && es[read].Query? && Seen(es, read).Some?
    requires es[check] == Check(es[read].username, false)
    ensures LetIn(es, read, check) <==>
              match LastErase(es, es[read].username, read, check)
              case None => false
              case Some(k) => FirstAdd(es, es[read].username, k + 1, check).None?
  {
    hide History, LastErase, FirstAdd;
    RowAfter(es, es[read].username, read, check);
  }

  /** Such a schedule, with nothing stale in the cache: the row is found, the user deleted, the password
      not checked. */
  lemma WrongPasswordLogin(row: Row, token: string, now: int)
    ensures var es := [Add("ada", row), Query("ada"), Query("ada"), Erase(2), Check("ada", false)];
            var s := History(es + [Issue(1, 4, token, now)]);
            && History(es).cache == map[] && "ada" !in s.users && Auth(s, token) == Some(UserOf("ada", row))
  {
    hide Erased;
    var e0: seq<Event> := [];
    var e1 := e0 + [Add("ada", row)];
    var e2 := e1 + [Query("ada")];
    var e3 := e2 + [Query("ada")];
    var e4 := e3 + [Erase(2)];
    var e5 := e4 + [Check("ada", false)];
    assert e5 == [Add("ada", row), Query("ada"), Query("ada"), Erase(2), Check("ada", false)];
    assert e5[..1] == e1 && e5[..4] == e4 && e3[..2] == e2;
    AddedThenErased(row);
    Latest(e0, Add("ada", row));
    Latest(e1, Query("ada"));
    Latest(e2, Query("ada"));
    Latest(e3, Erase(2));
    Latest(e4, Check("ada", false));
    LetInIs(e5, 1, 4);
    Latest(e5, Issue(1, 4, token, now));
  }

  lemma AddedThenErased(row: Row)
    ensures var s := UserAdded(State(map[], map[], map[]), "ada", row);
            Erased(s, UserOf("ada", row), "ada") == State(map[], map[], map[])
  {
    var s := UserAdded(State(map[], map[], map[]), "ada", row);
    assert s.users - {"ada"} == map[];
  }

  /** The smallest interleaving that breaks it: a row is read, its user deleted, and the cache filled.
      The user who is no longer there can then log in with any password. */
  lemma StaleFill(row: Row)
    ensures var u := UserOf("ada", row);
            var s := UserDeleted(UserAdded(State(map[], map[], map[]), "ada", row), "ada");
            && Inv(s) && !CacheAgrees(Filled(s, u)) && Lookup(Filled(s, u), "ada") == Some(u)
            && "ada" !in Filled(s, u).users && CanLogin(Filled(s, u), "ada", false)
  {
    var u, s0 := UserOf("ada", row), UserAdded(State(map[], map[], map[]), "ada", row);
    StepInv(s0, DeleteUserOp("ada"));
    LateFill(UserDeleted(s0, "ada"), u);
  }

  // ----- The implementation -----

  class LocalUsers {
    var users: map<string, Row>
    var usernameCache: map<string, User>
    var tokenCache: map<string, Session>

    ghost function View(): State
      reads this
    {
      State(users, usernameCache, tokenCache)
    }

    constructor ()
      ensures View() == State(map[], map[], map[])
    {
      users, usernameCache, tokenCache := map[], map[], map[];
    }

    method AddUser(username: string, row: Row) returns (added: bool)
      modifies this
      ensures added <==> username !in old(users)
      ensures View() == UserAdded(old(View()), username, row)
    {
      if username in users {
        return false;
      }
      users := users[username := row];
      return true;
    }

    method GetUser(username: string) returns (u: Option<User>)
      modifies this
      ensures u == Lookup(old(View()), username)
      ensures View() == Fetched(old(View()), username)
    {
      if username in usernameCache {
        return Some(usernameCache[username]);
      }
      if username !in users {
        return None;
      }
      var row := users[username];
      var user := User(username, row.isAdmin, row.email, row.joinTs);
      usernameCache := usernameCache[username := user];
      return Some(user);
    }

    /** 0 on success, 1 on a wrong password, -1 if the query fails; a missing user is reported as 0.
        `matches` stands for the password hash check. */
    method AuthUser(username: string, password: string, matches: (string, string) -> bool, fails: bool)
      returns (r: int)
      ensures r == if fails then -1
                   else if username in users && !matches(password, users[username].hash) then 1 else 0
    {
      if fails {
        return -1;
      }
      if username !in users {
        return 0;
      }
      return if matches(password, users[username].hash) then 0 else 1;
    }

    method AuthToken(token: string) returns (u: Option<User>)
      ensures u == Auth(View(), token)
    {
      if token !in tokenCache {
        return None;
      }
      return Some(tokenCache[token].user);
    }

    method Cron(now: int)
      modifies this
      ensures View() == Cleaned(old(View()), now)
    {
      tokenCache := map k | k in tokenCache && !IsExpired(tokenCache[k], now) :: tokenCache[k];
    }

    method DeauthToken(token: string)
      modifies this
      ensures View() == Deauthed(old(View()), token)
    {
      tokenCache := tokenCache - {token};
    }

    /** `candidates`: the random tokens drawn in turn.  None stands for drawing on forever. */
    method AuthorizeUser(user: User, candidates: seq<string>, now: int) returns (token: Option<string>)
      modifies this
      ensures token.Some? ==> token.value !in old(tokenCache) && token.value in candidates
                              && View() == Issued(old(View()), user, token.value, now)
      ensures token.None? <==> forall k | k in candidates :: k in old(tokenCache)
      ensures token.None? ==> View() == old(View())
    {
      var i := 0;
      while i < |candidates| && candidates[i] in tokenCache
        invariant i <= |candidates| && forall j | 0 <= j < i :: candidates[j] in tokenCache
      {
        i := i + 1;
      }
      if i == |candidates| {
        return None;
      }
      tokenCache := tokenCache[candidates[i] := Session(user, now + SESSION_LIFETIME)];
      return Some(candidates[i]);
    }

    method LoginUser(username: string, password: string, matches: (string, string) -> bool,
                     candidates: seq<string>, now: int, fails: bool)
      returns (token: Option<string>)
      requires exists k | k in candidates :: k !in tokenCache
      modifies this
      ensures var s := old(View());
              var ok := username in s.users && matches(password, s.users[username].hash);
              && (token.Some? <==> !fails && CanLogin(s, username, ok))
              && (token.Some? ==> token.value !in s.tokens && View() == LoggedIn(s, username, ok, token.value, now))
              && (token.None? ==> View() == Fetched(s, username))
    {
      var user := GetUser(username);
      if user.None? {
        return None;
      }
      var r := AuthUser(username, password, matches, fails);
      if r != 0 {
        return None;
      }
      token := AuthorizeUser(user.value, candidates, now);
    }

    method DeleteUser(username: string)
      modifies this
      ensures View() == UserDeleted(old(View()), username)
    {
      var user := GetUser(username);
      if user.None? {
        return;
      }
      tokenCache := map k | k in tokenCache && !IsOf(tokenCache[k].user, user.value, username) :: tokenCache[k];
      usernameCache := usernameCache - {username};
      users := users - {username};
    }
  }
}
