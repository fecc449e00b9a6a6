/** protocol/peers/Peers.cpp: the two peer indexes, by domain and by the token a peer presents. */
module Peers {
  import opened Text

  /** A peer's identity does not change while it is indexed. */
  class Peer {
    const domain: string
    const token: string   // bearer_token_we_accept
    const linkTs: int

    constructor (domain: string, token: string, linkTs: int)
      ensures this.domain == domain && this.token == token && this.linkTs == linkTs
    {
      this.domain, this.token, this.linkTs := domain, token, linkTs;
    }
  }

  const SESSION_LIFETIME: int := 60 * 60 * 24 * 7

  predicate IsExpired(p: Peer, now: int) {
    now > p.linkTs + SESSION_LIFETIME
  }

  /** `byToken` maps a reserved token to null. */
  datatype Tables = Tables(byDomain: map<string, Peer>, byToken: map<string, Peer?>)

  predicate CanAdd(t: Tables, domain: string, p: Peer) {
    domain !in t.byDomain && p.token !in t.byToken
  }

  function Added(t: Tables, domain: string, p: Peer): Tables {
    if CanAdd(t, domain, p) then Tables(t.byDomain[domain := p], t.byToken[p.token := p]) else t
  }

  function Reserved(t: Tables, token: string): Tables {
    t.(byToken := t.byToken[token := null])
  }

  function Removed(t: Tables, domain: string): Tables {
    if domain in t.byDomain then Tables(t.byDomain - {domain}, t.byToken - {t.byDomain[domain].token}) else t
  }

  function ExpiredTokens(t: Tables, now: int): set<string> {
    set k | k in t.byToken && t.byToken[k] != null && IsExpired(t.byToken[k], now)
  }

  function DomainsOf(t: Tables, tokens: set<string>): set<string> {
    set k | k in tokens && k in t.byToken && t.byToken[k] != null :: t.byToken[k].domain
  }

  function Pruned(t: Tables, now: int): Tables {
    var dead := ExpiredTokens(t, now);
    Tables(t.byDomain - DomainsOf(t, dead), t.byToken - dead)
  }

  function ByDomain(t: Tables, domain: string): Peer? {
    if domain in t.byDomain then t.byDomain[domain] else null
  }

  function ByToken(t: Tables, token: string): Peer? {
    if token in t.byToken then t.byToken[token] else null
  }

  /** The two lookups are inverse to each other: a peer found under one key is found under its
      other key, and nowhere else. */
  ghost predicate Bijection(t: Tables) {
    && (forall d | d in t.byDomain :: t.byDomain[d].domain == d && ByToken(t, t.byDomain[d].token) == t.byDomain[d])
    && (forall k | k in t.byToken && t.byToken[k] != null ::
          t.byToken[k].token == k && ByDomain(t, t.byToken[k].domain) == t.byToken[k])
  }

  /** Adding keeps the bijection exactly when it fails or is told the peer's own domain. */
  lemma AddKeepsBijection(t: Tables, domain: string, p: Peer)
    requires Bijection(t)
    ensures Bijection(Added(t, domain, p)) <==> (CanAdd(t, domain, p) ==> domain == p.domain)
  {
    var t' := Added(t, domain, p);
    if CanAdd(t, domain, p) {
      assert t'.byDomain[domain] == p;
      forall d | d in t.byDomain
        ensures t'.byDomain[d].domain == d && ByToken(t', t'.byDomain[d].token) == t'.byDomain[d]
      {
        assert ByToken(t, t.byDomain[d].token) == t.byDomain[d];
      }
      forall k | k in t.byToken && t.byToken[k] != null && domain == p.domain
        ensures ByDomain(t', t'.byToken[k].domain) == t'.byToken[k]
      {
        assert ByDomain(t, t.byToken[k].domain) == t.byToken[k];
      }
    }
  }

  /** What adding does to both lookups: nothing unless domain and token are unused, a reserved token
      counting as used. */
  lemma AddIsExact(t: Tables, domain: string, p: Peer, d: string, k: string)
    ensures var free, t' := domain !in t.byDomain && p.token !in t.byToken, Added(t, domain, p);
            && ByDomain(t', d) == (if free && d == domain then p else ByDomain(t, d))
            && ByToken(t', k) == (if free && k == p.token then p else ByToken(t, k))
            && (d in t'.byDomain <==> d in t.byDomain || (free && d == domain))
            && (k in t'.byToken <==> k in t.byToken || (free && k == p.token))
  {
  }

  /** What removing does to both lookups. */
  lemma RemoveIsExact(t: Tables, domain: string, d: string, k: string)
    requires Bijection(t)
    ensures var t' := Removed(t, domain);
            && ByDomain(t', d) == (if d == domain then null else ByDomain(t, d))
            && (k in t'.byToken <==> k in t.byToken && (t.byToken[k] == null || t.byToken[k].domain != domain))
            && (k in t'.byToken ==> t'.byToken[k] == t.byToken[k])
  {
    if domain in t.byDomain {
      assert ByToken(t, t.byDomain[domain].token) == t.byDomain[domain];
    }
    if k in t.byToken && t.byToken[k] != null {
      assert ByDomain(t, t.byToken[k].domain) == t.byToken[k];
    }
  }

  /** Reserving a token changes no lookup by domain, and only that entry. */
  lemma ReserveIsExact(t: Tables, token: string, k: string)
    ensures var t' := Reserved(t, token);
            && t'.byDomain == t.byDomain && token in t'.byToken && t'.byToken[token] == null
            && (k != token ==> (k in t'.byToken <==> k in t.byToken) && ByToken(t', k) == ByToken(t, k))
  {
  }

  lemma RemoveKeepsBijection(t: Tables, domain: string)
    requires Bijection(t)
    ensures Bijection(Removed(t, domain)) && ByDomain(Removed(t, domain), domain) == null
    ensures forall k | k in t.byToken && t.byToken[k] == null :: k in Removed(t, domain).byToken
  {
  }

  /** After `prune` neither lookup reaches an expired peer, and nobody else is lost. */
  lemma PruneIsExact(t: Tables, now: int)
    requires Bijection(t)
    ensures Bijection(Pruned(t, now))
    ensures forall d :: ByDomain(Pruned(t, now), d)
              == (if ByDomain(t, d) != null && now > ByDomain(t, d).linkTs + 604800 then null else ByDomain(t, d))
    ensures forall k :: ByToken(Pruned(t, now), k)
              == (if ByToken(t, k) != null && now > ByToken(t, k).linkTs + 604800 then null else ByToken(t, k))
    ensures forall k | k in t.byToken && t.byToken[k] == null :: k in Pruned(t, now).byToken
  {
    var t', dead := Pruned(t, now), ExpiredTokens(t, now);
    forall d | d in t.byDomain
      ensures d in t'.byDomain <==> !IsExpired(t.byDomain[d], now)
    {
      var p := t.byDomain[d];
      assert ByToken(t, p.token) == p;
      if IsExpired(p, now) { assert p.token in dead; }
    }
    forall d | d in t'.byDomain
      ensures ByToken(t', t'.byDomain[d].token) == t'.byDomain[d]
    {
      assert ByToken(t, t.byDomain[d].token) == t.byDomain[d];
    }
  }

  // ----- Whole runs -----

  datatype Op = StubOp(token: string) | AddOp(domain: string, peer: Peer) | RemoveOp(domain: string) | PruneOp(now: int)

  /** A stub is only made for a token not in the index (the loop in `new_token_stub`). */
  predicate Legal(t: Tables, op: Op) {
    match op
    case StubOp(token) => token !in t.byToken
    case AddOp(domain, peer) => domain == peer.domain
    case _ => true
  }

  function Step(t: Tables, op: Op): Tables {
    match op
    case StubOp(token) => Reserved(t, token)
    case AddOp(domain, peer) => Added(t, domain, peer)
    case RemoveOp(domain) => Removed(t, domain)
    case PruneOp(now) => Pruned(t, now)
  }

  function Run(t: Tables, ops: seq<Op>): Option<Tables> {
    if ops == [] then Some(t)
    else
      var s := Run(t, ops[..|ops| - 1]);
      if s.Some? && Legal(s.value, ops[|ops| - 1]) then Some(Step(s.value, ops[|ops| - 1])) else None
  }

  predicate IsStub(t: Tables, token: string) {
    token in t.byToken && t.byToken[token] == null
  }

  lemma StepFacts(t: Tables, op: Op)
    requires Bijection(t) && Legal(t, op)
    ensures Bijection(Step(t, op))
    ensures forall token | IsStub(t, token) :: IsStub(Step(t, op), token)
  {
    match op
    case AddOp(domain, peer) => AddKeepsBijection(t, domain, peer);
    case RemoveOp(domain) => RemoveKeepsBijection(t, domain);
    case PruneOp(now) => PruneIsExact(t, now);
    case StubOp(token) =>
      var t' := Reserved(t, token);
      forall d | d in t.byDomain ensures ByToken(t', t'.byDomain[d].token) == t'.byDomain[d] {
        assert ByToken(t, t.byDomain[d].token) == t.byDomain[d];
      }
      forall k | k in t.byToken && t.byToken[k] != null ensures ByDomain(t', t'.byToken[k].domain) == t'.byToken[k] {
        assert ByDomain(t, t.byToken[k].domain) == t.byToken[k];
      }
  }

  /** Over every run the two tables stay mutually inverse, and a reserved token is never given to
      a peer nor pruned. */
  lemma {:induction false} EveryRun(t: Tables, ops: seq<Op>)
    requires Bijection(t) && Run(t, ops).Some?
    ensures Bijection(Run(t, ops).value)
    ensures forall token | IsStub(t, token) :: IsStub(Run(t, ops).value, token)
  {
    if ops != [] {
      EveryRun(t, ops[..|ops| - 1]);
      StepFacts(Run(t, ops[..|ops| - 1]).value, ops[|ops| - 1]);
    }
  }

  /** No peer is ever found under two tokens or two domains. */
  lemma LookupsAgree(ops: seq<Op>, token: string, domain: string)
    requires Run(Tables(map[], map[]), ops).Some?
    ensures var t := Run(Tables(map[], map[]), ops).value;
            var p := ByToken(t, token);
            && (p != null ==> p.token == token && ByDomain(t, p.domain) == p)
            && (p != null && ByDomain(t, domain) == p ==> domain == p.domain)
            && (ByDomain(t, domain) != null ==> ByToken(t, ByDomain(t, domain).token) == ByDomain(t, domain))
  {
    EveryRun(Tables(map[], map[]), ops);
  }

  // ----- The implementation -----

  lemma NothingVisited(t: Tables, now: int)
    ensures ExpiredTokens(t, now) - t.byToken.Keys == {} && DomainsOf(t, {}) == {}
    ensures t.byDomain - {} == t.byDomain
    ensures ExpiredTokens(t, now) - {} == ExpiredTokens(t, now)
  {
  }

  lemma VisitOne(t: Tables, now: int, todo: set<string>, dead: set<string>, token: string)
    requires token in t.byToken && token in todo && dead == ExpiredTokens(t, now) - todo
    ensures var peer, rest := t.byToken[token], todo - {token};
            if peer != null && IsExpired(peer, now) then
              && dead + {token} == ExpiredTokens(t, now) - rest
              && t.byDomain - DomainsOf(t, dead) - {peer.domain} == t.byDomain - DomainsOf(t, dead + {token})
            else dead == ExpiredTokens(t, now) - rest
  {
  }

  class Peers {
    var peersOut: map<string, Peer>
    var peersIn: map<string, Peer?>

    ghost function View(): Tables
      reads this
    {
      Tables(peersOut, peersIn)
    }

    constructor ()
      ensures View() == Tables(map[], map[])
    {
      peersOut, peersIn := map[], map[];
    }

    method AddPeer(domain: string, p: Peer) returns (added: bool)
      modifies this
      ensures added <==> CanAdd(old(View()), domain, p)
      ensures View() == Added(old(View()), domain, p)
    {
      if domain in peersOut {
        return false;
      }
      ghost var before := peersOut;
      peersOut := peersOut[domain := p];
      if p.token in peersIn {
        peersOut := peersOut - {domain};
        assert peersOut == before;
        return false;
      }
      peersIn := peersIn[p.token := p];
      return true;
    }

    /** `candidates`: the random tokens drawn in turn.  None stands for drawing on forever. */
    method NewTokenStub(candidates: seq<string>) returns (token: Option<string>)
      modifies this
      ensures token.Some? ==> token.value !in old(peersIn) && View() == Reserved(old(View()), token.value)
      ensures token.Some? ==>
                exists k :: 0 <= k < |candidates| && token.value == candidates[k]
                            && forall j | 0 <= j < k :: candidates[j] in old(peersIn)
      ensures token.None? <==> forall j | 0 <= j < |candidates| :: candidates[j] in old(peersIn)
      ensures token.None? ==> View() == old(View())
    {
      var k := 0;
      while k < |candidates| && candidates[k] in peersIn
        invariant k <= |candidates| && forall j | 0 <= j < k :: candidates[j] in peersIn
      {
        k := k + 1;
      }
      if k == |candidates| {
        return None;
      }
      peersIn := peersIn[candidates[k] := null];
      return Some(candidates[k]);
    }

    method RemovePeer(domain: string) returns (removed: bool)
      modifies this
      ensures removed <==> domain in old(peersOut)
      ensures View() == Removed(old(View()), domain)
    {
      if domain !in peersOut {
        return false;
      }
      peersIn := peersIn - {peersOut[domain].token};
      peersOut := peersOut - {domain};
      return true;
    }

    method GetPeerForDomain(domain: string) returns (p: Peer?)
      ensures p == ByDomain(View(), domain)
    {
      if domain in peersOut {
        return peersOut[domain];
      }
      return null;
    }

    method GetPeerFromToken(token: string) returns (p: Peer?)
      ensures p == ByToken(View(), token)
    {
      if token in peersIn {
        return peersIn[token];
      }
      return null;
    }

    /** `erase_if` visits the entries in no particular order. */
    method Prune(now: int)
      modifies this
      ensures View() == Pruned(old(View()), now)
    {
      hide IsExpired, ExpiredTokens, DomainsOf;
      ghost var t := View();
      NothingVisited(t, now);
      var todo, dead := peersIn.Keys, {};
      while todo != {}
        invariant todo <= t.byToken.Keys && peersIn == t.byToken
        invariant dead == ExpiredTokens(t, now) - todo
        invariant peersOut == t.byDomain - DomainsOf(t, dead)
        decreases todo
      {
        var token :| token in todo;
        var peer := peersIn[token];
        VisitOne(t, now, todo, dead, token);
        todo := todo - {token};
        if peer != null && IsExpired(peer, now) {
          peersOut := peersOut - {peer.domain};
          dead := dead + {token};
        }
      }
      peersIn := peersIn - dead;
    }
  }
}
