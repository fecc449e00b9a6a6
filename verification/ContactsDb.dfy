/** mods/contacts/src/DB.cpp: contact cards and their shared properties, in five tables. */
module ContactsDb {
  import opened Text

  // ----- Tables (mods/contacts/db.sql) -----

  datatype Card = Card(owner: string, user: Option<string>, updateTs: int)
  datatype Property = Property(name: string, params: string, value: string)
  datatype Link = Link(cardId: int, propertyId: int)
  datatype ProfileLink = ProfileLink(cardId: int, propertyId: int, visibility: int)
  datatype Share = Share(cardId: int, sendingUser: string, acceptUser: string)

  /** `lastCardId` is what AUTOINCREMENT remembers: card ids are never used again. */
  datatype Tables = Tables(cards: map<int, Card>, properties: map<int, Property>, links: set<Link>,
                           profileLinks: set<ProfileLink>, shares: set<Share>, lastCardId: int)

  /** A property of the card being saved, and that card. */
  datatype Prop = Prop(name: string, params: string, value: string, visibility: int)
  datatype VC = VC(id: int, owner: string, user: string, props: seq<Prop>)

  datatype Result = Success | Unauthorized | Error

  predicate IsProfile(c: Card) {
    c.user == Some(c.owner)
  }

  /** An empty user is stored as NULL. */
  function Stored(user: string): Option<string> {
    if user == "" then None else Some(user)
  }

  /** The rowid SQLite gives a new row: one more than the largest in use. */
  function NextId<T>(m: map<int, T>): (id: int)
    ensures forall k | k in m :: k < id
  {
    if m.Keys == {} then 1
    else
      HasMax(m.Keys);
      var max :| max in m.Keys && forall k | k in m.Keys :: k <= max;
      max + 1
  }

  lemma HasMax(s: set<int>)
    requires s != {}
    ensures exists max :: max in s && forall k | k in s :: k <= max
  {
    var max := MaxOf(s);
  }

  lemma {:induction false} MaxOf(s: set<int>) returns (max: int)
    requires s != {}
    ensures max in s && forall k | k in s :: k <= max
    decreases |s|
  {
    var x := Pick(s);
    max := x;
    var rest := s - {x};
    if rest != {} {
      var m := MaxOf(rest);
      if m > max { max := m; }
    }
    forall k | k in s ensures k <= max {
      if k != x { assert k in rest; }
    }
  }

  lemma Pick<T>(s: set<T>) returns (x: T)
    requires s != {}
    ensures x in s
  {
    x :| x in s;
  }

  // ----- What the statements do -----

  function Linked(t: Tables): set<int> {
    (set l | l in t.links :: l.propertyId) + (set l | l in t.profileLinks :: l.propertyId)
  }

  /** `prune_properties`. */
  function Pruned(t: Tables): Tables {
    t.(properties := map k | k in t.properties && k in Linked(t) :: t.properties[k])
  }

  function Unlinked(t: Tables, ids: set<int>): Tables {
    t.(links := (set l | l in t.links && l.cardId !in ids),
       profileLinks := (set l | l in t.profileLinks && l.cardId !in ids))
  }

  function Row(p: Prop): Property {
    Property(p.name, p.params, p.value)
  }

  /** One property row and its link row (`last_insert_rowid()` is the new property). */
  function PropAdded(t: Tables, cardId: int, p: Prop, profile: bool): Tables {
    var id := NextId(t.properties);
    var t' := t.(properties := t.properties[id := Row(p)]);
    if profile then t'.(profileLinks := t'.profileLinks + {ProfileLink(cardId, id, p.visibility)})
    else t'.(links := t'.links + {Link(cardId, id)})
  }

  function PropsAdded(t: Tables, cardId: int, props: seq<Prop>, profile: bool): Tables {
    if props == [] then t
    else PropAdded(PropsAdded(t, cardId, props[..|props| - 1], profile), cardId, props[|props| - 1], profile)
  }

  function CardInserted(t: Tables, c: VC, now: int): Tables {
    var id := t.lastCardId + 1;
    t.(cards := t.cards[id := Card(c.owner, Stored(c.user), now)], lastCardId := id)
  }

  function Created(t: Tables, c: VC, now: int): Tables {
    PropsAdded(CardInserted(t, c, now), t.lastCardId + 1, c.props, c.owner == c.user)
  }

  predicate Owns(t: Tables, c: VC) {
    c.id in t.cards && t.cards[c.id].owner == c.owner
  }

  /** The card row rewritten and its old properties gone. */
  function Stripped(t: Tables, c: VC, now: int): Tables {
    Pruned(Unlinked(t.(cards := t.cards[c.id := Card(c.owner, Stored(c.user), now)]), {c.id}))
  }

  function Updated(t: Tables, c: VC, now: int): Tables {
    PropsAdded(Stripped(t, c, now), c.id, c.props, c.owner == c.user)
  }

  function CardsOf(t: Tables, user: string): set<int> {
    set k | k in t.cards && t.cards[k].owner == user
  }

  /** The first `n` of the five statements of `delete_user`, which has no transaction. */
  function DeletedUpTo(t: Tables, user: string, n: nat): Tables {
    var t1 := t.(links := set l | l in t.links && l.cardId !in CardsOf(t, user));
    var t2 := t1.(profileLinks := set l | l in t.profileLinks && l.cardId !in CardsOf(t, user));
    var t3 := t2.(cards := map k | k in t.cards && t.cards[k].owner != user :: t.cards[k]);
    match n
    case 0 => t
    case 1 => t1
    case 2 => t2
    case 3 => t3
    case 4 => Pruned(t3)
    case _ => Pruned(t3).(shares := set s | s in t.shares && s.sendingUser != user && s.acceptUser != user)
  }

  function UserDeleted(t: Tables, user: string): Tables {
    DeletedUpTo(t, user, 5)
  }

  // ----- The invariant -----

  ghost predicate LinksResolve(t: Tables) {
    && (forall l | l in t.links :: l.cardId in t.cards && l.propertyId in t.properties)
    && (forall l | l in t.profileLinks :: l.cardId in t.cards && l.propertyId in t.properties)
  }

  ghost predicate NoOrphans(t: Tables) {
    forall k | k in t.properties :: k in Linked(t)
  }

  /** Profile cards are linked through the profile table only, other cards through the plain one. */
  ghost predicate Separated(t: Tables) {
    && (forall l | l in t.links && l.cardId in t.cards :: !IsProfile(t.cards[l.cardId]))
    && (forall l | l in t.profileLinks && l.cardId in t.cards :: IsProfile(t.cards[l.cardId]))
  }

  /** No property row is linked twice, in or across the two link tables. */
  ghost predicate OneLink(t: Tables) {
    && (forall l, m | l in t.links && m in t.links && l.propertyId == m.propertyId :: l == m)
    && (forall l, m | l in t.profileLinks && m in t.profileLinks && l.propertyId == m.propertyId :: l == m)
    && (forall l, m | l in t.links && m in t.profileLinks :: l.propertyId != m.propertyId)
  }

  /** Every link names a property there is and a card there is or once was. */
  ghost predicate Rooted(t: Tables) {
    && (forall l | l in t.links :: l.cardId <= t.lastCardId && l.propertyId in t.properties)
    && (forall l | l in t.profileLinks :: l.cardId <= t.lastCardId && l.propertyId in t.properties)
    && 0 <= t.lastCardId && forall k | k in t.cards :: k <= t.lastCardId
  }

  /** What holds whatever happens between the statements of a deletion ... */
  ghost predicate Sound(t: Tables) {
    Rooted(t) && Separated(t)
  }

  /** ... and what holds when nothing does. */
  ghost predicate Inv(t: Tables) {
    Sound(t) && LinksResolve(t) && NoOrphans(t)
  }

  /** The one input on which the C++ comparison of owner and user and the stored row disagree. */
  predicate Ownerless(c: VC) {
    c.owner == "" && c.user == "" && c.props != []
  }

  // ----- What a save leaves behind -----

  /** `t'` is `t` with the properties added as consecutive fresh rows from `base`, each linked to
      the card through one table, and nothing else. */
  ghost predicate Filled(t: Tables, t': Tables, base: int, cardId: int, props: seq<Prop>, profile: bool) {
    && t'.cards == t.cards && t'.shares == t.shares && t'.lastCardId == t.lastCardId
    && (forall k | k in t.properties :: k in t'.properties && t'.properties[k] == t.properties[k])
    && (forall k | k in t'.properties :: k in t.properties || base <= k < base + |props|)
    && (forall i | 0 <= i < |props| :: RowAt(t', base + i, props[i]))
    && t.links <= t'.links && t.profileLinks <= t'.profileLinks
    && (forall l | l in t'.links - t.links ::
          !profile && l.cardId == cardId && base <= l.propertyId < base + |props|)
    && (forall l | l in t'.profileLinks - t.profileLinks ::
          profile && l.cardId == cardId && base <= l.propertyId < base + |props|
          && l.visibility == props[l.propertyId - base].visibility)
    && (forall i | 0 <= i < |props| :: LinkAt(t', cardId, base + i, props[i], profile))
  }

  ghost predicate RowAt(t: Tables, id: int, p: Prop) {
    id in t.properties && t.properties[id] == Row(p)
  }

  ghost predicate LinkAt(t: Tables, cardId: int, id: int, p: Prop, profile: bool) {
    if profile then ProfileLink(cardId, id, p.visibility) in t.profileLinks else Link(cardId, id) in t.links
  }

  lemma NextIdIs<T>(m: map<int, T>, max: int)
    requires max in m && forall k | k in m :: k <= max
    ensures NextId(m) == max + 1
  {
    HasMax(m.Keys);
    assert NextId(m) - 1 in m.Keys;
  }

  lemma {:induction false} PropsAddedFilled(t: Tables, cardId: int, props: seq<Prop>, profile: bool)
    ensures Filled(t, PropsAdded(t, cardId, props, profile), NextId(t.properties), cardId, props, profile)
    ensures NextId(PropsAdded(t, cardId, props, profile).properties) == NextId(t.properties) + |props|
  {
    hide NextId, Filled, PropAdded;
    if props == [] {
      FilledNothing(t, NextId(t.properties), cardId, profile);
    } else {
      var init, p := props[..|props| - 1], props[|props| - 1];
      PropsAddedFilled(t, cardId, init, profile);
      assert props == init + [p];
      FilledSnoc(t, PropsAdded(t, cardId, init, profile), NextId(t.properties), cardId, init, p, profile);
    }
  }

  lemma FilledNothing(t: Tables, base: int, cardId: int, profile: bool)
    ensures Filled(t, t, base, cardId, [], profile)
  {
  }

  lemma FilledSnoc(t: Tables, s: Tables, base: int, cardId: int, props: seq<Prop>, p: Prop, profile: bool)
    requires Filled(t, s, base, cardId, props, profile)
    requires NextId(s.properties) == base + |props|
    ensures Filled(t, PropAdded(s, cardId, p, profile), base, cardId, props + [p], profile)
    ensures NextId(PropAdded(s, cardId, p, profile).properties) == base + |props| + 1
  {
    hide NextId;
    var t', all, n := PropAdded(s, cardId, p, profile), props + [p], |props|;
    NextIdIs(t'.properties, base + n);
    forall i | 0 <= i <= n
      ensures RowAt(t', base + i, all[i]) && LinkAt(t', cardId, base + i, all[i], profile)
    {
      if i < n { assert RowAt(s, base + i, props[i]) && LinkAt(s, cardId, base + i, props[i], profile); }
    }
    forall l | l in t'.profileLinks - t.profileLinks
      ensures profile && l.cardId == cardId && base <= l.propertyId <= base + n
           && l.visibility == all[l.propertyId - base].visibility
    {
      if l in s.profileLinks { assert l in s.profileLinks - t.profileLinks; }
    }
    forall l | l in t'.links - t.links
      ensures !profile && l.cardId == cardId && base <= l.propertyId <= base + n
    {
      if l in s.links { assert l in s.links - t.links; }
    }
  }

  /** The card shows property row `id`, with a visibility when it is linked as a profile. */
  ghost predicate Shows(t: Tables, cardId: int, id: int, p: Property, vis: Option<int>) {
    && id in t.properties && t.properties[id] == p
    && match vis
       case None => Link(cardId, id) in t.links
       case Some(v) => ProfileLink(cardId, id, v) in t.profileLinks
  }

  ghost predicate SameContents(t: Tables, t': Tables, cardId: int) {
    forall id, p, vis :: Shows(t', cardId, id, p, vis) <==> Shows(t, cardId, id, p, vis)
  }

  function Vis(p: Prop, profile: bool): Option<int> {
    if profile then Some(p.visibility) else None
  }

  /** Exactly the given properties, in order, under consecutive ids from `base`. */
  ghost predicate ShowsExactly(t: Tables, cardId: int, base: int, props: seq<Prop>, profile: bool) {
    && (forall i | 0 <= i < |props| ::
          Shows(t, cardId, base + i, Property(props[i].name, props[i].params, props[i].value),
                if profile then Some(props[i].visibility) else None))
    && (forall id, p, vis | Shows(t, cardId, id, p, vis) ::
          && base <= id < base + |props|
          && p == Property(props[id - base].name, props[id - base].params, props[id - base].value)
          && vis == if profile then Some(props[id - base].visibility) else None)
  }

  ghost predicate NotLinked(t: Tables, cardId: int) {
    (forall l | l in t.links :: l.cardId != cardId) && (forall l | l in t.profileLinks :: l.cardId != cardId)
  }

  lemma FilledContents(t: Tables, t': Tables, base: int, cardId: int, props: seq<Prop>, profile: bool)
    requires Rooted(t) && NotLinked(t, cardId) && Filled(t, t', base, cardId, props, profile)
    ensures forall k | k != cardId :: SameContents(t, t', k)
    ensures ShowsExactly(t', cardId, base, props, profile)
  {
    forall i | 0 <= i < |props|
      ensures Shows(t', cardId, base + i, Row(props[i]), Vis(props[i], profile))
    {
      assert RowAt(t', base + i, props[i]) && LinkAt(t', cardId, base + i, props[i], profile);
    }
    forall id, p, vis | Shows(t', cardId, id, p, vis)
      ensures base <= id < base + |props| && p == Row(props[id - base]) && vis == Vis(props[id - base], profile)
    {
      if vis.None? { assert Link(cardId, id) in t'.links - t.links; }
      else { assert ProfileLink(cardId, id, vis.value) in t'.profileLinks - t.profileLinks; }
      assert RowAt(t', base + (id - base), props[id - base]);
    }
    forall k, id, p, vis | k != cardId
      ensures Shows(t', k, id, p, vis) <==> Shows(t, k, id, p, vis)
    {
      if vis.None? { assert Link(k, id) in t'.links <==> Link(k, id) in t.links; }
      else {
        var l := ProfileLink(k, id, vis.value);
        assert l in t'.profileLinks <==> l in t.profileLinks;
      }
    }
  }

  /** Unlinking one card and pruning change no other card's contents. */
  lemma StrippedFrame(t: Tables, c: VC, now: int)
    requires Rooted(t) && Owns(t, c)
    ensures var s := Stripped(t, c, now);
            && Rooted(s) && (LinksResolve(s) <==> LinksResolve(t)) && NoOrphans(s) && NotLinked(s, c.id)
            && s.cards == t.cards[c.id := Card(c.owner, Stored(c.user), now)]
            && s.lastCardId == t.lastCardId && s.shares == t.shares
            && forall k | k != c.id :: SameContents(t, s, k)
  {
    var s := Stripped(t, c, now);
    assert forall l | l in s.links :: l.propertyId in Linked(s);
    assert forall l | l in s.profileLinks :: l.propertyId in Linked(s);
    forall k, id, p, vis | k != c.id
      ensures Shows(s, k, id, p, vis) <==> Shows(t, k, id, p, vis)
    {
      if vis.None? { assert Link(k, id) in s.links <==> Link(k, id) in t.links; }
      else {
        var l := ProfileLink(k, id, vis.value);
        assert l in s.profileLinks <==> l in t.profileLinks;
      }
    }
  }

  /** An update leaves its card with exactly the given properties, and every other card, even one
      that shares properties with it, exactly as it was. */
  lemma UpdateIsExactAndFramed(t: Tables, c: VC, now: int)
    requires Rooted(t) && Owns(t, c)
    ensures var t' := Updated(t, c, now);
            && ShowsExactly(t', c.id, NextId(Stripped(t, c, now).properties), c.props, c.owner == c.user)
            && t'.cards == t.cards[c.id := Card(c.owner, if c.user == "" then None else Some(c.user), now)]
            && t'.shares == t.shares && t'.lastCardId == t.lastCardId
            && forall k | k != c.id :: SameContents(t, t', k)
  {
    hide NextId, Stripped, PropsAdded;
    var s := Stripped(t, c, now);
    StrippedFrame(t, c, now);
    PropsAddedFilled(s, c.id, c.props, c.owner == c.user);
    FilledContents(s, Updated(t, c, now), NextId(s.properties), c.id, c.props, c.owner == c.user);
    forall k | k != c.id ensures SameContents(t, Updated(t, c, now), k) {
      assert SameContents(t, s, k) && SameContents(s, Updated(t, c, now), k);
    }
  }

  /** A new card gets an id no card ever had and exactly the given properties; the rest stays. */
  lemma CreateIsExactAndFramed(t: Tables, c: VC, now: int)
    requires Rooted(t)
    ensures var t', id := Created(t, c, now), t.lastCardId + 1;
            && id !in t.cards
            && ShowsExactly(t', id, NextId(t.properties), c.props, c.owner == c.user)
            && t'.cards == t.cards[id := Card(c.owner, if c.user == "" then None else Some(c.user), now)]
            && t'.shares == t.shares && t'.lastCardId == id
            && forall k | k != id :: SameContents(t, t', k)
  {
    hide NextId, PropsAdded;
    var s, id := CardInserted(t, c, now), t.lastCardId + 1;
    PropsAddedFilled(s, id, c.props, c.owner == c.user);
    FilledContents(s, Created(t, c, now), NextId(s.properties), id, c.props, c.owner == c.user);
    assert forall k :: SameContents(t, s, k);
  }

  // ----- The invariant over whole runs -----

  /** Filling a card that is there keeps the links whole; it keeps the two link tables apart exactly
      when the table chosen is the one the stored card row calls for. */
  lemma FilledInv(t: Tables, t': Tables, base: int, cardId: int, props: seq<Prop>, profile: bool)
    requires Filled(t, t', base, cardId, props, profile)
    requires Rooted(t) && cardId in t.cards
    ensures Rooted(t') && (LinksResolve(t') <==> LinksResolve(t)) && (NoOrphans(t) ==> NoOrphans(t'))
    ensures Separated(t) ==>
              (Separated(t') <==> (props != [] ==> (profile <==> IsProfile(t.cards[cardId]))))
  {
    forall l | l in t'.links
      ensures l.cardId <= t'.lastCardId && l.propertyId in t'.properties && (l in t.links || l.cardId in t.cards)
    {
      if l !in t.links { RowInside(t', base, props, l.propertyId); }
    }
    forall l | l in t'.profileLinks
      ensures l.cardId <= t'.lastCardId && l.propertyId in t'.properties && (l in t.profileLinks || l.cardId in t.cards)
    {
      if l !in t.profileLinks { RowInside(t', base, props, l.propertyId); }
    }
    forall k | k in t'.properties && NoOrphans(t) ensures k in Linked(t') {
      if k !in t.properties {
        assert LinkAt(t', cardId, base + (k - base), props[k - base], profile);
        if profile { assert ProfileLink(cardId, k, props[k - base].visibility) in t'.profileLinks; }
        else { assert Link(cardId, k) in t'.links; }
      } else {
        assert k in Linked(t);
      }
    }
    if props != [] {
      assert LinkAt(t', cardId, base + 0, props[0], profile);
      assert if profile then ProfileLink(cardId, base, props[0].visibility) in t'.profileLinks
             else Link(cardId, base) in t'.links;
    }
    if Separated(t) && (props != [] ==> (profile <==> IsProfile(t.cards[cardId]))) {
      forall l | l in t'.links && l.cardId in t'.cards ensures !IsProfile(t'.cards[l.cardId]) {
        if l !in t.links { assert l in t'.links - t.links; }
      }
      forall l | l in t'.profileLinks && l.cardId in t'.cards ensures IsProfile(t'.cards[l.cardId]) {
        if l !in t.profileLinks { assert l in t'.profileLinks - t.profileLinks; }
      }
    }
  }

  lemma RowInside(t: Tables, base: int, props: seq<Prop>, id: int)
    requires base <= id < base + |props| && forall i | 0 <= i < |props| :: RowAt(t, base + i, props[i])
    ensures id in t.properties
  {
    assert RowAt(t, base + (id - base), props[id - base]);
  }

  /** The C++ comparison of owner and user picks the table the stored row calls for. */
  lemma ProfileAgrees(c: VC, now: int)
    ensures (c.props != [] ==> (c.owner == c.user <==> IsProfile(Card(c.owner, Stored(c.user), now))))
            <==> !Ownerless(c)
  {
  }

  /** A successful create keeps the link tables apart exactly when the card is not ownerless, and does
      no other harm. */
  lemma CreatedInv(t: Tables, c: VC, now: int)
    requires Rooted(t)
    ensures var t' := Created(t, c, now);
            && Rooted(t') && (LinksResolve(t') <==> LinksResolve(t)) && (NoOrphans(t) ==> NoOrphans(t'))
            && (Separated(t) ==> (Separated(t') <==> !Ownerless(c)))
  {
    hide NextId, PropsAdded;
    var s, id := CardInserted(t, c, now), t.lastCardId + 1;
    PropsAddedFilled(s, id, c.props, c.owner == c.user);
    InsertedInv(t, c, now);
    hide Linked, CardInserted, LinksResolve, NoOrphans, Separated;
    FilledInv(s, Created(t, c, now), NextId(s.properties), id, c.props, c.owner == c.user);
    ProfileAgrees(c, now);
  }

  lemma InsertedInv(t: Tables, c: VC, now: int)
    requires Rooted(t)
    ensures var s := CardInserted(t, c, now);
            && Rooted(s) && (LinksResolve(s) <==> LinksResolve(t)) && (NoOrphans(t) ==> NoOrphans(s))
            && (Separated(t) ==> Separated(s)) && NotLinked(s, t.lastCardId + 1)
  {
    assert Linked(CardInserted(t, c, now)) == Linked(t);
  }

  /** Likewise an update, which also removes any orphans left over. */
  lemma UpdatedInv(t: Tables, c: VC, now: int)
    requires Rooted(t) && Owns(t, c)
    ensures var t' := Updated(t, c, now);
            && Rooted(t') && (LinksResolve(t') <==> LinksResolve(t)) && NoOrphans(t')
            && (Separated(t) ==> (Separated(t') <==> !Ownerless(c)))
  {
    hide NextId, PropsAdded;
    var s := Stripped(t, c, now);
    StrippedFrame(t, c, now);
    assert Separated(t) ==> Separated(s);
    PropsAddedFilled(s, c.id, c.props, c.owner == c.user);
    FilledInv(s, Updated(t, c, now), NextId(s.properties), c.id, c.props, c.owner == c.user);
    ProfileAgrees(c, now);
  }

  /** Deleting a user without interruption removes their cards, links and shares and nothing else that
      is in use; orphans left over go too. */
  lemma UserDeletedInv(t: Tables, user: string)
    requires Sound(t)
    ensures var t' := UserDeleted(t, user);
            && Sound(t') && NoOrphans(t') && (LinksResolve(t) ==> LinksResolve(t'))
            && (forall k :: k in t'.cards <==> k in t.cards && t.cards[k].owner != user)
            && (forall k | k in t'.cards :: t'.cards[k] == t.cards[k] && SameContents(t, t', k))
            && (forall s :: s in t'.shares <==> s in t.shares && s.sendingUser != user && s.acceptUser != user)
  {
    var t' := UserDeleted(t, user);
    assert forall l | l in t'.links :: l.propertyId in Linked(t');
    assert forall l | l in t'.profileLinks :: l.propertyId in Linked(t');
    assert forall k | k in t'.properties :: k in Linked(t');
    forall k, id, p, vis | k in t'.cards
      ensures Shows(t', k, id, p, vis) <==> Shows(t, k, id, p, vis)
    {
      if vis.None? { assert Link(k, id) in t'.links <==> Link(k, id) in t.links; }
      else {
        var l := ProfileLink(k, id, vis.value);
        assert l in t'.profileLinks <==> l in t.profileLinks;
      }
    }
  }

  /** Does stopping after `n` statements leave orphans?  Only between the first and the pruning, and
      only if the user has a card with properties of a kind already unlinked. */
  ghost predicate LeavesOrphans(t: Tables, user: string, n: nat) {
    || (1 <= n <= 3 && exists l | l in t.links :: l.cardId in CardsOf(t, user))
    || (2 <= n <= 3 && exists l | l in t.profileLinks :: l.cardId in CardsOf(t, user))
  }

  /** A deletion that stops midway keeps everything but the absence of orphans, and that exactly when
      nothing was unlinked without being pruned. */
  lemma DeletedUpToInv(t: Tables, user: string, n: nat)
    requires Inv(t) && OneLink(t)
    ensures var t' := DeletedUpTo(t, user, n);
            Sound(t') && LinksResolve(t') && OneLink(t') && (NoOrphans(t') <==> !LeavesOrphans(t, user, n))
  {
    var t' := DeletedUpTo(t, user, n);
    DeletedUpToSound(t, user, n);
    FewerLinks(t, t');
    if 1 <= n <= 3 {
      forall k | k in t'.properties && !LeavesOrphans(t, user, n) ensures k in Linked(t') {
        StillLinked(t, user, n, k);
      }
      if LeavesOrphans(t, user, n) {
        Orphaned(t, user, n);
      }
    } else if n == 4 {
      assert forall k | k in t'.properties :: k in Linked(t');
    } else if n >= 5 {
      UserDeletedInv(t, user);
    }
  }

  lemma StillLinked(t: Tables, user: string, n: nat, k: int)
    requires NoOrphans(t) && 1 <= n <= 3 && !LeavesOrphans(t, user, n) && k in t.properties
    ensures k in Linked(DeletedUpTo(t, user, n))
  {
    var t' := DeletedUpTo(t, user, n);
    assert k in Linked(t);
    if l :| l in t.links && l.propertyId == k { assert l in t'.links; }
    else {
      var m :| m in t.profileLinks && m.propertyId == k;
      assert m in t'.profileLinks;
    }
  }

  lemma Orphaned(t: Tables, user: string, n: nat)
    requires LinksResolve(t) && OneLink(t) && 1 <= n <= 3 && LeavesOrphans(t, user, n)
    ensures !NoOrphans(DeletedUpTo(t, user, n))
  {
    var t' := DeletedUpTo(t, user, n);
    if l :| l in t.links && l.cardId in CardsOf(t, user) {
      assert l.propertyId in t'.properties && l.propertyId !in Linked(t');
    } else {
      var m :| m in t.profileLinks && m.cardId in CardsOf(t, user);
      assert m.propertyId in t'.properties && m.propertyId !in Linked(t');
    }
  }

  lemma DeletedUpToSound(t: Tables, user: string, n: nat)
    requires Sound(t) && LinksResolve(t)
    ensures Sound(DeletedUpTo(t, user, n)) && LinksResolve(DeletedUpTo(t, user, n))
  {
    var t' := DeletedUpTo(t, user, n);
    if n >= 5 {
      UserDeletedInv(t, user);
    } else if n == 4 {
      assert forall l | l in t'.links :: l.propertyId in Linked(t');
      assert forall l | l in t'.profileLinks :: l.propertyId in Linked(t');
    }
  }

  // ----- Runs: saves are transactions, the statements of `delete_user` come one by one -----

  /** What is atomic.  `failed`: some statement of the transaction failed and it was rolled back. */
  datatype Op =
    | Create(card: VC, now: int, failed: bool)
    | Update(card: VC, now: int, failed: bool)
    | UnlinkPlain(user: string)
    | UnlinkProfile(user: string)
    | DeleteCards(user: string)
    | Prune
    | DropShares(user: string)

  function Step(t: Tables, op: Op): Tables {
    match op
    case Create(c, now, failed) => if failed then t else Created(t, c, now)
    case Update(c, now, failed) => if failed || !Owns(t, c) then t else Updated(t, c, now)
    case UnlinkPlain(user) => t.(links := set l | l in t.links && l.cardId !in CardsOf(t, user))
    case UnlinkProfile(user) => t.(profileLinks := set l | l in t.profileLinks && l.cardId !in CardsOf(t, user))
    case DeleteCards(user) => t.(cards := map k | k in t.cards && t.cards[k].owner != user :: t.cards[k])
    case Prune => Pruned(t)
    case DropShares(user) => t.(shares := set s | s in t.shares && s.sendingUser != user && s.acceptUser != user)
  }

  function Run(ops: seq<Op>): Tables {
    if ops == [] then Tables(map[], map[], {}, {}, {}, 0)
    else Step(Run(ops[..|ops| - 1]), ops[|ops| - 1])
  }

  function DeleteStatements(user: string): seq<Op> {
    [UnlinkPlain(user), UnlinkProfile(user), DeleteCards(user), Prune, DropShares(user)]
  }

  lemma RunSnoc(ops: seq<Op>, op: Op)
    ensures Run(ops + [op]) == Step(Run(ops), op)
  {
    assert (ops + [op])[..|ops|] == ops;
  }

  /** What a save does in every reachable state: nothing if it fails, or if it updates a card that is not there or
      somebody else's; else the card row is written and the card has exactly the given properties, in
      order, and all other cards and the shares are as before. */
  lemma SavesAreExact(ops: seq<Op>, op: Op) returns (base: int)
    requires op.Create? || op.Update?
    ensures var t, t', c, profile := Run(ops), Run(ops + [op]), op.card, op.card.owner == op.card.user;
            var id := if op.Create? then t.lastCardId + 1 else c.id;
            if op.failed || (op.Update? && !(c.id in t.cards && t.cards[c.id].owner == c.owner)) then t' == t
            else
              && (op.Create? ==> id !in t.cards)
              && t'.cards == t.cards[id := Card(c.owner, if c.user == "" then None else Some(c.user), op.now)]
              && t'.shares == t.shares
              && (forall i | 0 <= i < |c.props| ::
                    Shows(t', id, base + i, Property(c.props[i].name, c.props[i].params, c.props[i].value),
                          if profile then Some(c.props[i].visibility) else None))
              && (forall k, p, vis | Shows(t', id, k, p, vis) ::
                    && base <= k < base + |c.props|
                    && p == Property(c.props[k - base].name, c.props[k - base].params, c.props[k - base].value)
                    && vis == if profile then Some(c.props[k - base].visibility) else None)
              && (forall j, k, p, vis | j != id :: Shows(t', j, k, p, vis) <==> Shows(t, j, k, p, vis))
  {
    hide Run, Rooted, Stripped, Created, Updated, Shows, NextId;
    var t, c := Run(ops), op.card;
    EveryRun(ops);
    RunSnoc(ops, op);
    base := 0;
    if op.Create? {
      CreateIsExactAndFramed(t, c, op.now);
      base := NextId(t.properties);
      OthersSame(t, Created(t, c, op.now), t.lastCardId + 1);
    } else if Owns(t, c) {
      UpdateIsExactAndFramed(t, c, op.now);
      base := NextId(Stripped(t, c, op.now).properties);
      OthersSame(t, Updated(t, c, op.now), c.id);
    }
  }

  lemma OthersSame(t: Tables, t': Tables, id: int)
    requires forall j | j != id :: SameContents(t, t', j)
    ensures forall j, k, p, vis | j != id :: Shows(t', j, k, p, vis) <==> Shows(t, j, k, p, vis)
  {
    hide Shows;
    forall j, k, p, vis | j != id ensures Shows(t', j, k, p, vis) <==> Shows(t, j, k, p, vis) {
      assert SameContents(t, t', j);
    }
  }

  /** A deletion that nothing interrupts, up to any statement, is the one described above. */
  lemma {:induction false} DeletionAtOnce(ops: seq<Op>, user: string, n: nat)
    requires n <= 5
    ensures Run(ops + DeleteStatements(user)[..n]) == DeletedUpTo(Run(ops), user, n)
    decreases n
  {
    hide Run;
    if n == 0 {
      assert ops + DeleteStatements(user)[..0] == ops;
    } else {
      DeletionAtOnce(ops, user, n - 1);
      var before := ops + DeleteStatements(user)[..n - 1];
      RunSnoc(before, DeleteStatements(user)[n - 1]);
      assert ops + DeleteStatements(user)[..n] == before + [DeleteStatements(user)[n - 1]];
      NextStatement(Run(ops), user, n);
    }
  }

  lemma NextStatement(t: Tables, user: string, n: nat)
    requires 1 <= n <= 5
    ensures Step(DeletedUpTo(t, user, n - 1), DeleteStatements(user)[n - 1]) == DeletedUpTo(t, user, n)
  {
    if n == 2 {
      assert CardsOf(DeletedUpTo(t, user, 1), user) == CardsOf(t, user);
    }
  }

  lemma FewerLinks(t: Tables, t': Tables)
    requires OneLink(t) && t'.links <= t.links && t'.profileLinks <= t.profileLinks
    ensures OneLink(t')
  {
  }

  lemma FilledOneLink(t: Tables, t': Tables, base: int, cardId: int, props: seq<Prop>, profile: bool)
    requires Filled(t, t', base, cardId, props, profile) && Rooted(t) && OneLink(t)
    requires forall k | k in t.properties :: k < base
    ensures OneLink(t')
  {
    assert forall l | l in t.links :: l.propertyId < base;
    assert forall l | l in t.profileLinks :: l.propertyId < base;
    assert forall l | l in t'.links && l !in t.links :: l in t'.links - t.links && l.propertyId >= base;
    assert forall l | l in t'.profileLinks && l !in t.profileLinks ::
        l in t'.profileLinks - t.profileLinks && l.propertyId >= base;
  }

  lemma StrippedLinks(t: Tables, c: VC, now: int)
    ensures Stripped(t, c, now).links <= t.links && Stripped(t, c, now).profileLinks <= t.profileLinks
  {
  }

  lemma SavedOneLink(t: Tables, op: Op)
    requires Rooted(t) && OneLink(t) && (op.Create? || op.Update?)
    ensures OneLink(Step(t, op))
  {
    hide NextId, PropsAdded, Filled, OneLink, Stripped, CardInserted;
    var c := op.card;
    if op.Create? {
      var s := CardInserted(t, c, op.now);
      InsertedInv(t, c, op.now);
      InsertedLinks(t, c, op.now);
      FewerLinks(t, s);
      PropsAddedFilled(s, t.lastCardId + 1, c.props, c.owner == c.user);
      FilledOneLink(s, Created(t, c, op.now), NextId(s.properties), t.lastCardId + 1, c.props, c.owner == c.user);
    } else if Owns(t, c) {
      var s := Stripped(t, c, op.now);
      StrippedFrame(t, c, op.now);
      StrippedLinks(t, c, op.now);
      FewerLinks(t, s);
      PropsAddedFilled(s, c.id, c.props, c.owner == c.user);
      FilledOneLink(s, Updated(t, c, op.now), NextId(s.properties), c.id, c.props, c.owner == c.user);
    }
  }

  lemma InsertedLinks(t: Tables, c: VC, now: int)
    ensures var s := CardInserted(t, c, now);
            s.links == t.links && s.profileLinks == t.profileLinks && s.properties == t.properties
  {
  }

  /** What the single statements keep. */
  lemma StatementKeeps(t: Tables, op: Op)
    requires Rooted(t) && !op.Create? && !op.Update?
    ensures var t' := Step(t, op);
            && Rooted(t') && t'.links <= t.links && t'.profileLinks <= t.profileLinks
            && (Separated(t) ==> Separated(t'))
  {
    var t' := Step(t, op);
    if op.Prune? {
      assert forall l | l in t'.links :: l.propertyId in Linked(t');
      assert forall l | l in t'.profileLinks :: l.propertyId in Linked(t');
    }
  }

  /** In every reachable state, whatever fails and whatever falls between the statements of a deletion:
      every link names a property there is and a card there is or was, and no property row is linked
      twice; and without ownerless cards the two link tables stay apart. */
  lemma {:induction false} EveryRun(ops: seq<Op>)
    ensures Rooted(Run(ops)) && OneLink(Run(ops))
    ensures (forall i | 0 <= i < |ops| && (ops[i].Create? || ops[i].Update?) :: !Ownerless(ops[i].card)) ==>
              Separated(Run(ops))
  {
    hide Rooted, OneLink, Separated, Created, Updated, Owns, Pruned;
    if ops == [] {
      EmptyTables();
    } else {
      EveryRun(ops[..|ops| - 1]);
      var t, op := Run(ops[..|ops| - 1]), ops[|ops| - 1];
      if op.Create? || op.Update? {
        SavedOneLink(t, op);
        if op.Create? {
          CreatedInv(t, op.card, op.now);
        } else if Owns(t, op.card) {
          UpdatedInv(t, op.card, op.now);
        }
      } else {
        StatementKeeps(t, op);
        FewerLinks(t, Step(t, op));
      }
    }
  }

  lemma EmptyTables()
    ensures Inv(Run([])) && OneLink(Run([]))
  {
  }

  // ----- Dangling links -----

  ghost predicate HasLink(t: Tables, k: int, profile: bool) {
    if profile then exists l | l in t.profileLinks :: l.cardId == k else exists l | l in t.links :: l.cardId == k
  }

  /** Does the statement delete cards that are still linked? */
  ghost predicate Dangles(t: Tables, op: Op) {
    op.DeleteCards? && exists k | k in CardsOf(t, op.user) :: HasLink(t, k, false) || HasLink(t, k, true)
  }

  /** Links stop resolving only there, and then for good: card ids are never used again. */
  lemma DanglesStep(t: Tables, op: Op)
    requires Rooted(t)
    ensures LinksResolve(Step(t, op)) <==> LinksResolve(t) && !Dangles(t, op)
  {
    match op
    case Create(c, now, failed) => if !failed { CreatedInv(t, c, now); }
    case Update(c, now, failed) => if !failed && Owns(t, c) { UpdatedInv(t, c, now); }
    case DeleteCards(user) => CardsLost(t, user);
    case UnlinkPlain(user) => StatementKeeps(t, op);
    case UnlinkProfile(user) => StatementKeeps(t, op);
    case Prune => StatementKeeps(t, op);
    case DropShares(user) =>
  }

  lemma CardsLost(t: Tables, user: string)
    requires Rooted(t)
    ensures LinksResolve(Step(t, DeleteCards(user))) <==> LinksResolve(t) && !Dangles(t, DeleteCards(user))
  {
    var t' := Step(t, DeleteCards(user));
    if LinksResolve(t) && !Dangles(t, DeleteCards(user)) {
      forall l | l in t'.links ensures l.cardId in t'.cards {
        assert HasLink(t, l.cardId, false);
      }
      forall l | l in t'.profileLinks ensures l.cardId in t'.cards {
        assert HasLink(t, l.cardId, true);
      }
    }
  }

  /** The card an operation saves, if it does. */
  function Saved(t: Tables, op: Op): Option<int> {
    match op
    case Create(_, _, failed) => if failed then None else Some(t.lastCardId + 1)
    case Update(c, _, failed) => if failed || !Owns(t, c) then None else Some(c.id)
    case _ => None
  }

  predicate Unlinks(op: Op, owner: string, profile: bool) {
    op == if profile then UnlinkProfile(owner) else UnlinkPlain(owner)
  }

  /** Does the save put properties into that link table? */
  predicate Fills(op: Op, owner: string, profile: bool) {
    && (op.Create? || op.Update?) && op.card.owner == owner
    && op.card.props != [] && (op.card.owner == op.card.user <==> profile)
  }

  lemma SavedLinks(t: Tables, op: Op)
    requires Rooted(t) && Saved(t, op).Some?
    ensures var t', k := Step(t, op), Saved(t, op).value;
            && k in t'.cards && t'.cards[k].owner == op.card.owner
            && (forall profile :: HasLink(t', k, profile) <==> Fills(op, op.card.owner, profile))
            && (forall j | j != k && j in t'.cards :: j in t.cards && t'.cards[j] == t.cards[j])
            && (forall j, profile | j != k :: HasLink(t', j, profile) <==> HasLink(t, j, profile))
  {
    hide NextId, PropsAdded, Filled, Rooted, HasLink, CardInserted, Stripped;
    var c, k := op.card, Saved(t, op).value;
    if op.Create? {
      var s := CardInserted(t, c, op.now);
      InsertedInv(t, c, op.now);
      InsertedLinks(t, c, op.now);
      InsertedCards(t, c, op.now);
      PropsAddedFilled(s, k, c.props, c.owner == c.user);
      FilledLinks(s, Step(t, op), NextId(s.properties), k, c.props, c.owner == c.user);
      SameLinks(t, s, k);
    } else {
      var s := Stripped(t, c, op.now);
      StrippedFrame(t, c, op.now);
      StrippedHas(t, c, op.now);
      PropsAddedFilled(s, k, c.props, c.owner == c.user);
      FilledLinks(s, Step(t, op), NextId(s.properties), k, c.props, c.owner == c.user);
    }
  }

  lemma InsertedCards(t: Tables, c: VC, now: int)
    ensures CardInserted(t, c, now).cards == t.cards[t.lastCardId + 1 := Card(c.owner, Stored(c.user), now)]
  {
  }

  lemma SameLinks(t: Tables, s: Tables, k: int)
    requires s.links == t.links && s.profileLinks == t.profileLinks
    ensures forall j, profile :: HasLink(s, j, profile) <==> HasLink(t, j, profile)
  {
  }

  lemma StrippedHas(t: Tables, c: VC, now: int)
    ensures forall j, profile | j != c.id :: HasLink(Stripped(t, c, now), j, profile) <==> HasLink(t, j, profile)
  {
    var s := Stripped(t, c, now);
    assert forall l: Link | l.cardId != c.id :: l in s.links <==> l in t.links;
    assert forall l: ProfileLink | l.cardId != c.id :: l in s.profileLinks <==> l in t.profileLinks;
  }

  lemma FilledLinks(s: Tables, t': Tables, base: int, k: int, props: seq<Prop>, profile: bool)
    requires Filled(s, t', base, k, props, profile) && NotLinked(s, k)
    ensures t'.cards == s.cards
    ensures forall which :: HasLink(t', k, which) <==> props != [] && which == profile
    ensures forall j, which | j != k :: HasLink(t', j, which) <==> HasLink(s, j, which)
  {
    if props != [] {
      assert LinkAt(t', k, base + 0, props[0], profile);
      assert HasLink(t', k, profile);
    }
    assert forall l | l in t'.links && l !in s.links :: l in t'.links - s.links;
    assert forall l | l in t'.profileLinks && l !in s.profileLinks :: l in t'.profileLinks - s.profileLinks;
  }

  /** Who has links after a step, told from before. */
  lemma LinkStep(t: Tables, op: Op, k: int, profile: bool)
    requires Rooted(t) && k in Step(t, op).cards
    ensures var t' := Step(t, op);
            if Saved(t, op) == Some(k) then
              t'.cards[k].owner == op.card.owner && (HasLink(t', k, profile) <==> Fills(op, t'.cards[k].owner, profile))
            else
              && k in t.cards && t'.cards[k].owner == t.cards[k].owner
              && (HasLink(t', k, profile) <==> HasLink(t, k, profile) && !Unlinks(op, t.cards[k].owner, profile))
  {
    if Saved(t, op).Some? {
      SavedLinks(t, op);
    } else {
      hide Created, Updated, Rooted;
      UnlinkStep(t, op, k, profile);
    }
  }

  lemma UnlinkStep(t: Tables, op: Op, k: int, profile: bool)
    requires Saved(t, op).None? && k in t.cards
    ensures HasLink(Step(t, op), k, profile) <==> HasLink(t, k, profile) && !Unlinks(op, t.cards[k].owner, profile)
  {
    hide Created, Updated;
    var t' := Step(t, op);
    if profile {
      assert op != UnlinkProfile(t.cards[k].owner) ==>
          forall l: ProfileLink | l.cardId == k :: l in t'.profileLinks <==> l in t.profileLinks;
    } else {
      assert op != UnlinkPlain(t.cards[k].owner) ==> forall l: Link | l.cardId == k :: l in t'.links <==> l in t.links;
    }
  }

  /** By the history card `k` of `owner` has links in that table: it was last saved with properties
      there, and its owner's links there were not removed since. */
  predicate LinkedSince(ops: seq<Op>, k: int, owner: string, profile: bool) {
    exists m | 0 <= m < |ops| :: FilledAt(ops, m, k, owner, profile) && StaysFrom(ops, m + 1, k, owner, profile)
  }

  predicate FilledAt(ops: seq<Op>, m: nat, k: int, owner: string, profile: bool)
    requires m < |ops|
  {
    Saved(Run(ops[..m]), ops[m]) == Some(k) && Fills(ops[m], owner, profile)
  }

  predicate StaysFrom(ops: seq<Op>, from: nat, k: int, owner: string, profile: bool) {
    forall q | from <= q < |ops| :: Saved(Run(ops[..q]), ops[q]) != Some(k) && !Unlinks(ops[q], owner, profile)
  }

  lemma {:induction false} LinkHistory(ops: seq<Op>, k: int, profile: bool)
    requires k in Run(ops).cards
    ensures HasLink(Run(ops), k, profile) <==> LinkedSince(ops, k, Run(ops).cards[k].owner, profile)
    decreases |ops|
  {
    hide Rooted, Step, Saved, HasLink, Fills, Unlinks, FilledAt, StaysFrom;
    if ops == [] {
      EmptyRun();
    } else {
      var n := |ops| - 1;
      var init, op := ops[..n], ops[n];
      var t, owner := Run(init), Run(ops).cards[k].owner;
      EveryRun(init);
      LinkStep(t, op, k, profile);
      SinceSnoc(ops, k, owner, profile);
      if Saved(t, op) != Some(k) {
        LinkHistory(init, k, profile);
      }
    }
  }

  lemma EmptyRun()
    ensures Run([]).cards == map[]
  {
  }

  lemma SinceSnoc(ops: seq<Op>, k: int, owner: string, profile: bool)
    requires ops != []
    ensures var init, op := ops[..|ops| - 1], ops[|ops| - 1];
            LinkedSince(ops, k, owner, profile) <==>
              if Saved(Run(init), op) == Some(k) then Fills(op, owner, profile)
              else LinkedSince(init, k, owner, profile) && !Unlinks(op, owner, profile)
  {
    hide Run, Saved, Fills, Unlinks;
    var n := |ops| - 1;
    var init, op := ops[..n], ops[n];
    assert forall m: nat | m < n :: init[..m] == ops[..m] && init[m] == ops[m];
    assert forall m: nat | m < n :: FilledAt(init, m, k, owner, profile) == FilledAt(ops, m, k, owner, profile);
    forall m: nat | m <= n
      ensures StaysFrom(ops, m, k, owner, profile)
         <==> StaysFrom(init, m, k, owner, profile) && Saved(Run(init), op) != Some(k) && !Unlinks(op, owner, profile)
    {
      assert ops[..n] == init;
    }
    assert StaysFrom(ops, n + 1, k, owner, profile);
    assert FilledAt(ops, n, k, owner, profile) <==> Saved(Run(init), op) == Some(k) && Fills(op, owner, profile);
    assert StaysFrom(init, n, k, owner, profile);
  }

  /** Does event `j` delete a card that by the history has links? */
  ghost predicate Hasty(ops: seq<Op>, j: nat)
    requires j < |ops|
  {
    ops[j].DeleteCards? && exists k, profile | k in CardsOf(Run(ops[..j]), ops[j].user) ::
      LinkedSince(ops[..j], k, ops[j].user, profile)
  }

  /** In every reachable state: links name existing cards exactly when no statement ever deleted a card
      that was saved with properties after its owner's links of that kind were last removed. */
  lemma {:induction false} LinksResolveExactlyWhen(ops: seq<Op>)
    ensures LinksResolve(Run(ops)) <==> forall j | 0 <= j < |ops| :: !Hasty(ops, j)
    decreases |ops|
  {
    hide LinksResolve, Hasty, Rooted, Step, OneLink;
    if ops == [] {
      EmptyTables();
    } else {
      var n := |ops| - 1;
      var init := ops[..n];
      LinksResolveExactlyWhen(init);
      EveryRun(init);
      DanglesStep(Run(init), ops[n]);
      HastyDangles(ops, n);
      assert ops[..n] == init;
      forall j: nat | j < n ensures Hasty(init, j) == Hasty(ops, j) {
        SameHasty(ops, j);
      }
    }
  }

  lemma SameHasty(ops: seq<Op>, j: nat)
    requires j < |ops| - 1
    ensures Hasty(ops[..|ops| - 1], j) == Hasty(ops, j)
  {
    assert ops[..|ops| - 1][..j] == ops[..j];
  }

  lemma HastyDangles(ops: seq<Op>, j: nat)
    requires j < |ops|
    ensures Hasty(ops, j) <==> Dangles(Run(ops[..j]), ops[j])
  {
    hide Run, HasLink, LinkedSince;
    var t := Run(ops[..j]);
    if ops[j].DeleteCards? {
      forall k, profile | k in CardsOf(t, ops[j].user)
        ensures HasLink(t, k, profile) <==> LinkedSince(ops[..j], k, ops[j].user, profile)
      {
        LinkHistory(ops[..j], k, profile);
      }
    }
  }

  /** Before `j` both kinds of the user's links were removed, and nothing of theirs was saved since. */
  predicate Orderly(ops: seq<Op>, j: nat)
    requires j < |ops| && ops[j].DeleteCards?
  {
    RemovedSince(ops, j, ops[j].user, false) && RemovedSince(ops, j, ops[j].user, true)
  }

  predicate RemovedSince(ops: seq<Op>, j: nat, user: string, profile: bool)
    requires j <= |ops|
  {
    exists p | 0 <= p < j :: Unlinks(ops[p], user, profile) && forall m | p < m < j :: !Fills(ops[m], user, profile)
  }

  /** So links always resolve if every call of `delete_user` finds no save with properties of such a card
      between its own statements. */
  lemma OrderlyRunsResolve(ops: seq<Op>)
    requires forall j | 0 <= j < |ops| && ops[j].DeleteCards? :: Orderly(ops, j)
    ensures LinksResolve(Run(ops))
  {
    hide LinksResolve, Run, LinkedSince, RemovedSince;
    LinksResolveExactlyWhen(ops);
    forall j | 0 <= j < |ops| ensures !Hasty(ops, j) {
      if ops[j].DeleteCards? {
        assert Orderly(ops, j);
        forall k, profile ensures !LinkedSince(ops[..j], k, ops[j].user, profile) {
          RemovedNotLinked(ops, j, k, ops[j].user, profile);
        }
      }
    }
  }

  lemma RemovedNotLinked(ops: seq<Op>, j: nat, k: int, user: string, profile: bool)
    requires j <= |ops| && RemovedSince(ops, j, user, profile)
    ensures !LinkedSince(ops[..j], k, user, profile)
  {
    hide Run, Saved, Unlinks, Fills;
    var p :| 0 <= p < j && Unlinks(ops[p], user, profile) && forall q | p < q < j :: !Fills(ops[q], user, profile);
    assert forall m: nat | m < j :: ops[..j][m] == ops[m];
    DifferentOps(ops[p], user, profile);
    forall m: nat | m < j
      ensures !(FilledAt(ops[..j], m, k, user, profile) && StaysFrom(ops[..j], m + 1, k, user, profile))
    {
      assert m < p ==> Unlinks(ops[..j][p], user, profile);
    }
  }

  lemma DifferentOps(op: Op, owner: string, profile: bool)
    ensures !(Fills(op, owner, profile) && Unlinks(op, owner, profile))
  {
  }

  /** The smallest schedule that breaks it, from any state: a card is saved between the unlinking and
      the deletion of the cards. */
  lemma SaveWhileDeleting(ops: seq<Op>, c: VC, now: int)
    requires Owns(Run(ops), c) && c.props != []
    ensures var run := ops + [UnlinkPlain(c.owner)] + [UnlinkProfile(c.owner)] + [Update(c, now, false)];
            !LinksResolve(Run(run + [DeleteCards(c.owner)]))
            && !LinksResolve(Run(run + [DeleteCards(c.owner)] + [Prune]))
  {
    hide Run, Rooted, LinksResolve, HasLink, Updated;
    var a := ops + [UnlinkPlain(c.owner)];
    var b := a + [UnlinkProfile(c.owner)];
    var d := b + [Update(c, now, false)];
    var e := d + [DeleteCards(c.owner)];
    RunSnoc(ops, UnlinkPlain(c.owner));
    RunSnoc(a, UnlinkProfile(c.owner));
    RunSnoc(b, Update(c, now, false));
    RunSnoc(d, DeleteCards(c.owner));
    RunSnoc(e, Prune);
    EveryRun(b);
    EveryRun(d);
    EveryRun(e);
    SavedLinks(Run(b), Update(c, now, false));
    assert HasLink(Run(d), c.id, c.owner == c.user);
    DanglesStep(Run(d), DeleteCards(c.owner));
    DanglesStep(Run(e), Prune);
  }

  // ----- Orphans -----

  /** Does the statement unlink something? */
  ghost predicate Loosens(t: Tables, op: Op) {
    || (op.UnlinkPlain? && exists l | l in t.links :: l.cardId in CardsOf(t, op.user))
    || (op.UnlinkProfile? && exists l | l in t.profileLinks :: l.cardId in CardsOf(t, op.user))
  }

  predicate Cleans(t: Tables, op: Op) {
    op.Prune? || (op.Update? && Saved(t, op).Some?)
  }

  lemma OrphanStep(t: Tables, op: Op)
    requires Rooted(t) && OneLink(t)
    ensures NoOrphans(Step(t, op)) <==> Cleans(t, op) || (NoOrphans(t) && !Loosens(t, op))
  {
    match op
    case Create(c, now, failed) => if !failed { CreatedOrphans(t, c, now); }
    case Update(c, now, failed) => if !failed && Owns(t, c) { UpdatedInv(t, c, now); }
    case Prune => assert forall k | k in Pruned(t).properties :: k in Linked(Pruned(t));
    case UnlinkPlain(user) => LoosenStep(t, op);
    case UnlinkProfile(user) => LoosenStep(t, op);
    case DeleteCards(user) => assert Linked(Step(t, op)) == Linked(t);
    case DropShares(user) => assert Linked(Step(t, op)) == Linked(t);
  }

  lemma CreatedOrphans(t: Tables, c: VC, now: int)
    requires Rooted(t)
    ensures NoOrphans(Created(t, c, now)) <==> NoOrphans(t)
  {
    hide NextId, PropsAdded, Rooted;
    var s, t' := CardInserted(t, c, now), Created(t, c, now);
    CreatedInv(t, c, now);
    PropsAddedFilled(s, t.lastCardId + 1, c.props, c.owner == c.user);
    if k :| k in t.properties && k !in Linked(t) {
      assert k < NextId(s.properties);
      assert forall l | l in t'.links && l !in s.links :: l in t'.links - s.links;
      assert forall l | l in t'.profileLinks && l !in s.profileLinks :: l in t'.profileLinks - s.profileLinks;
      assert k in t'.properties && k !in Linked(t');
    }
  }

  lemma LoosenStep(t: Tables, op: Op)
    requires Rooted(t) && OneLink(t) && (op.UnlinkPlain? || op.UnlinkProfile?)
    ensures NoOrphans(Step(t, op)) <==> NoOrphans(t) && !Loosens(t, op)
  {
    var t' := Step(t, op);
    if Loosens(t, op) {
      if op.UnlinkPlain? {
        var l :| l in t.links && l.cardId in CardsOf(t, op.user);
        assert l.propertyId in t'.properties && l.propertyId !in Linked(t');
      } else {
        var l :| l in t.profileLinks && l.cardId in CardsOf(t, op.user);
        assert l.propertyId in t'.properties && l.propertyId !in Linked(t');
      }
    } else {
      assert t'.links == t.links && t'.profileLinks == t.profileLinks;
    }
  }

  ghost predicate LoosensAt(ops: seq<Op>, j: nat)
    requires j < |ops|
  {
    Loosens(Run(ops[..j]), ops[j])
  }

  predicate CleansFrom(ops: seq<Op>, from: nat) {
    exists q | from <= q < |ops| :: Cleans(Run(ops[..q]), ops[q])
  }

  /** In every reachable state no property is an orphan exactly when after every statement that unlinked
      something there was a pruning, or an update, which prunes. */
  lemma {:induction false} NoOrphansExactlyWhen(ops: seq<Op>)
    ensures NoOrphans(Run(ops)) <==> forall j | 0 <= j < |ops| && LoosensAt(ops, j) :: CleansFrom(ops, j + 1)
    decreases |ops|
  {
    hide NoOrphans, Rooted, OneLink, Step, Loosens, Cleans, CleansFrom, LoosensAt;
    if ops == [] {
      EmptyTables();
    } else {
      var n := |ops| - 1;
      var init := ops[..n];
      NoOrphansExactlyWhen(init);
      EveryRun(init);
      OrphanStep(Run(init), ops[n]);
      OrphanSnoc(ops);
    }
  }

  lemma OrphanSnoc(ops: seq<Op>)
    requires ops != []
    ensures var init, n := ops[..|ops| - 1], |ops| - 1;
            && (forall j: nat | j < n :: LoosensAt(init, j) == LoosensAt(ops, j))
            && (forall j: nat | j <= n :: CleansFrom(ops, j) <==> CleansFrom(init, j) || Cleans(Run(init), ops[n]))
            && !CleansFrom(ops, n + 1) && !CleansFrom(init, n)
            && LoosensAt(ops, n) == Loosens(Run(init), ops[n])
            && !(Loosens(Run(init), ops[n]) && Cleans(Run(init), ops[n]))
  {
    hide Run, Saved;
    var n := |ops| - 1;
    var init := ops[..n];
    assert forall m: nat | m < n :: init[..m] == ops[..m] && init[m] == ops[m];
    forall j: nat | j <= n
      ensures CleansFrom(ops, j) <==> CleansFrom(init, j) || Cleans(Run(init), ops[n])
    {
      assert ops[..n] == init;
    }
  }

  // ----- Profiles -----

  /** `visibility`: how far the requester is from the user. */
  function TrustLevel(user: string, reqUser: Option<string>, reqDomain: Option<string>): int {
    if reqUser.None? then 3
    else if reqDomain.None? then (if user != reqUser.value then 1 else 0)
    else 2
  }

  /** The card `SELECT id FROM Cards WHERE owner = user AND user = ?` meets first. */
  predicate ProfileCard(t: Tables, user: string, k: int) {
    && k in t.cards && IsProfile(t.cards[k]) && t.cards[k].owner == user
    && forall j | j in t.cards && IsProfile(t.cards[j]) && t.cards[j].owner == user :: k <= j
  }

  predicate HasProfile(t: Tables, user: string) {
    exists k | k in t.cards :: IsProfile(t.cards[k]) && t.cards[k].owner == user
  }

  /** Does `get_profile_base` find or make a card?  `known`: the host knows the user, and the insert of
      a missing profile gets as far as an id. */
  predicate Admits(t: Tables, user: string, known: bool) {
    '@' !in user && (HasProfile(t, user) || known)
  }

  /** The property rows the queries of `get_profile` select. */
  predicate Selected(t: Tables, user: string, reqUser: Option<string>, reqDomain: Option<string>, id: int) {
    var level := TrustLevel(user, reqUser, reqDomain);
    && id in t.properties
    && ( || (exists l | l in t.profileLinks ::
               l.propertyId == id && ProfileCard(t, user, l.cardId) && l.visibility >= level)
         || ((level == 0 || level == 1) && exists l | l in t.links ::
               l.propertyId == id && l.cardId in t.cards
               && t.cards[l.cardId].owner == reqUser.value && t.cards[l.cardId].user == Some(user)))
  }

  /** The property rows `get_profile` lists for a requester. */
  predicate InProfile(t: Tables, user: string, reqUser: Option<string>, reqDomain: Option<string>, known: bool,
                      id: int) {
    Admits(t, user, known) && Selected(t, user, reqUser, reqDomain, id)
  }

  /** Who sees a row, in every reachable state: one linked to a profile card is shown exactly for that
      user and to those its visibility reaches; one linked to a contact card exactly to the local
      user who owns the card, about the user it is for, if that user has a profile or the host knows
      them; any other to nobody; and names with an '@' show nothing. */
  lemma ProfileIsExact(ops: seq<Op>, user: string, reqUser: Option<string>, reqDomain: Option<string>, known: bool,
                       id: int)
    ensures var t, level := Run(ops), TrustLevel(user, reqUser, reqDomain);
            && (forall l | l in t.profileLinks && l.propertyId == id ::
                  InProfile(t, user, reqUser, reqDomain, known, id)
                  <==> '@' !in user && ProfileCard(t, user, l.cardId) && l.visibility >= level)
            && (forall l | l in t.links && l.propertyId == id ::
                  InProfile(t, user, reqUser, reqDomain, known, id)
                  <==> reqUser.Some? && reqDomain.None? && l.cardId in t.cards
                       && t.cards[l.cardId].owner == reqUser.value && t.cards[l.cardId].user == Some(user)
                       && '@' !in user && (HasProfile(t, user) || known))
            && (id !in Linked(t) ==> !InProfile(t, user, reqUser, reqDomain, known, id))
  {
    EveryRun(ops);
    hide Run;
  }

  /** The rows of the user's profile, level by level: anybody without a name sees those of visibility 3,
      a user of another server those of 2 and above, another local user those of 1 and above, and
      the user those of 0 and above. */
  lemma WhoSeesWhat(ops: seq<Op>, user: string, other: string, domain: string, known: bool, l: ProfileLink)
    requires var t := Run(ops);
             && l in t.profileLinks && l.cardId in t.cards && '@' !in user && other != user
             && t.cards[l.cardId].owner == user && t.cards[l.cardId].user == Some(user)
             && forall j | j in t.cards && t.cards[j].owner == user && t.cards[j].user == Some(user) :: l.cardId <= j
    ensures var t, id := Run(ops), l.propertyId;
            && (InProfile(t, user, None, None, known, id) <==> l.visibility >= 3)
            && (InProfile(t, user, None, Some(domain), known, id) <==> l.visibility >= 3)
            && (InProfile(t, user, Some(other), Some(domain), known, id) <==> l.visibility >= 2)
            && (InProfile(t, user, Some(user), Some(domain), known, id) <==> l.visibility >= 2)
            && (InProfile(t, user, Some(other), None, known, id) <==> l.visibility >= 1)
            && (InProfile(t, user, Some(user), None, known, id) <==> l.visibility >= 0)
  {
    hide Run, InProfile;
    var id := l.propertyId;
    ProfileIsExact(ops, user, None, None, known, id);
    ProfileIsExact(ops, user, None, Some(domain), known, id);
    ProfileIsExact(ops, user, Some(other), Some(domain), known, id);
    ProfileIsExact(ops, user, Some(user), Some(domain), known, id);
    ProfileIsExact(ops, user, Some(other), None, known, id);
    ProfileIsExact(ops, user, Some(user), None, known, id);
  }

  /** Rows of any other card of that kind are shown to nobody as part of the profile. */
  lemma OneProfileCard(ops: seq<Op>, user: string, reqUser: Option<string>, reqDomain: Option<string>, known: bool,
                       l: ProfileLink)
    requires var t := Run(ops);
             && l in t.profileLinks
             && (l.cardId in t.cards && t.cards[l.cardId].owner == user && t.cards[l.cardId].user == Some(user) ==>
                   exists j | j in t.cards :: t.cards[j].owner == user && t.cards[j].user == Some(user) && j < l.cardId)
    ensures !InProfile(Run(ops), user, reqUser, reqDomain, known, l.propertyId)
  {
    hide Run, InProfile;
    ProfileIsExact(ops, user, reqUser, reqDomain, known, l.propertyId);
  }

  /** The rows of contact cards: shown to the card's owner, asking about the user it is for, if that user has a
      profile or the host knows them. */
  lemma WhoSeesContacts(ops: seq<Op>, user: string, reqUser: Option<string>, reqDomain: Option<string>, known: bool,
                        l: Link)
    requires l in Run(ops).links
    ensures var t := Run(ops);
            InProfile(t, user, reqUser, reqDomain, known, l.propertyId) <==>
              && l.cardId in t.cards && reqUser == Some(t.cards[l.cardId].owner) && reqDomain == None
              && t.cards[l.cardId].user == Some(user) && '@' !in user
              && (known || exists k | k in t.cards :: t.cards[k].owner == user && t.cards[k].user == Some(user))
  {
    hide Run, InProfile;
    ProfileIsExact(ops, user, reqUser, reqDomain, known, l.propertyId);
  }

  /** A contact card for somebody the host does not know: its owner is shown nothing. */
  lemma GhostContact(id: int)
    ensures var t := Run([Create(VC(-1, "alice", "ghost", [Prop("TEL", "", "1", 0)]), 0, false)]);
            && (exists l | l in t.links :: t.cards[l.cardId] == Card("alice", Some("ghost"), 0))
            && !InProfile(t, "ghost", Some("alice"), None, false, id)
            && (id in t.properties ==> InProfile(t, "ghost", Some("alice"), None, true, id))
  {
    var c := VC(-1, "alice", "ghost", [Prop("TEL", "", "1", 0)]);
    var ops := [Create(c, 0, false)];
    var t := Run(ops);
    RunSnoc([], ops[0]);
    assert [] + ops == ops && Run([]).cards == map[] && Run([]).properties == map[];
    var s := CardInserted(Run([]), c, 0);
    assert c.props[..0] == [];
    assert t == PropAdded(s, 1, c.props[0], false);
    assert Link(1, NextId(s.properties)) in t.links;
    assert t.cards == map[1 := Card("alice", Some("ghost"), 0)];
  }

  /** So a row of a profile below the requester's trust level is never shown to them, though
      their own contact cards are searched as well; and what the public sees, everybody sees. */
  lemma ProfileRespectsVisibility(ops: seq<Op>, user: string, reqUser: Option<string>, reqDomain: Option<string>,
                                  known: bool)
    ensures var t := Run(ops);
            && (forall l | l in t.profileLinks && l.visibility < TrustLevel(user, reqUser, reqDomain) ::
                  !InProfile(t, user, reqUser, reqDomain, known, l.propertyId))
            && (forall id | InProfile(t, user, None, None, known, id) ::
                  InProfile(t, user, reqUser, reqDomain, known, id))
  {
    var t := Run(ops);
    hide InProfile, Run;
    forall l | l in t.profileLinks && l.visibility < TrustLevel(user, reqUser, reqDomain)
      ensures !InProfile(t, user, reqUser, reqDomain, known, l.propertyId)
    {
      ProfileIsExact(ops, user, reqUser, reqDomain, known, l.propertyId);
    }
    forall id | InProfile(t, user, None, None, known, id)
      ensures InProfile(t, user, reqUser, reqDomain, known, id)
    {
      PublicRow(t, user, reqUser, reqDomain, known, id);
    }
  }

  lemma PublicRow(t: Tables, user: string, reqUser: Option<string>, reqDomain: Option<string>, known: bool, id: int)
    requires InProfile(t, user, None, None, known, id)
    ensures InProfile(t, user, reqUser, reqDomain, known, id)
  {
    var l :| l in t.profileLinks && l.propertyId == id && ProfileCard(t, user, l.cardId) && l.visibility >= 3;
    assert l.visibility >= TrustLevel(user, reqUser, reqDomain);
  }

  /** A profile made on the way has nothing to show. */
  lemma NewProfileIsEmpty(t: Tables, user: string, reqUser: Option<string>, reqDomain: Option<string>, now: int,
                          id: int)
    requires Rooted(t) && !HasProfile(t, user)
    ensures var t' := Created(t, VC(-1, user, user, []), now);
            Selected(t', user, reqUser, reqDomain, id) <==> Selected(t, user, reqUser, reqDomain, id)
  {
  }

  // ----- The implementation, statement by statement -----

  /** An open database: its tables, and the copy a rollback returns to. */
  class Database {
    var tables: Tables
    var saved: Tables

    constructor ()
      ensures tables == Run([])
    {
      tables, saved := Run([]), Run([]);
    }

    method Begin()
      modifies this`saved
      ensures saved == tables
    {
      saved := tables;
    }

    method Rollback()
      modifies this`tables
      ensures tables == saved
    {
      tables := saved;
    }

    /** `fails` numbers the statements of the transaction that SQLite reports an error for,
        counting from 0; the commit comes last. */
    method CreateNewContact(card: VC, now: int, fails: set<nat>) returns (r: Result)
      modifies this
      ensures r == if exists k | k in fails :: k <= 1 + 2 * |card.props| then Error else Success
      ensures tables == if r == Success then Created(old(tables), card, now) else old(tables)
    {
      Begin();
      if 0 in fails {
        Rollback();
        return Error;
      }
      var id := tables.lastCardId + 1;
      tables := tables.(cards := tables.cards[id := Card(card.owner, Stored(card.user), now)], lastCardId := id);
      var ok := InsertProps(id, card.props, card.owner == card.user, 1, fails);
      if !ok || 1 + 2 * |card.props| in fails {
        Rollback();
        return Error;
      }
      return Success;
    }

    /** The insert loop shared by create and update; stops at the first failing statement. */
    method InsertProps(cardId: int, props: seq<Prop>, profile: bool, from: nat, fails: set<nat>) returns (ok: bool)
      modifies this`tables
      ensures ok <==> forall k | k in fails :: k < from || k >= from + 2 * |props|
      ensures ok ==> tables == PropsAdded(old(tables), cardId, props, profile)
    {
      for i := 0 to |props|
        invariant forall k | k in fails :: k < from || k >= from + 2 * i
        invariant tables == PropsAdded(old(tables), cardId, props[..i], profile)
      {
        assert props[..i + 1][..i] == props[..i];
        var p := props[i];
        if from + 2 * i in fails {
          return false;
        }
        var id := NextId(tables.properties);
        tables := tables.(properties := tables.properties[id := Property(p.name, p.params, p.value)]);
        if from + 2 * i + 1 in fails {
          return false;
        }
        if profile {
          tables := tables.(profileLinks := tables.profileLinks + {ProfileLink(cardId, id, p.visibility)});
        } else {
          tables := tables.(links := tables.links + {Link(cardId, id)});
        }
      }
      assert props[..|props|] == props;
      return true;
    }

    method PruneProperties()
      modifies this`tables
      ensures tables == Pruned(old(tables))
    {
      var used := Linked(tables);
      tables := tables.(properties := map k | k in tables.properties && k in used :: tables.properties[k]);
    }

    /** All or nothing: either the whole update, or the tables exactly as before. */
    method UpdateContact(card: VC, now: int, fails: set<nat>) returns (r: Result)
      modifies this
      ensures r == if 0 in fails then Error
                   else if !(card.id in old(tables).cards && old(tables).cards[card.id].owner == card.owner)
                   then Unauthorized
                   else if exists k | k in fails :: k <= 4 + 2 * |card.props| then Error else Success
      ensures tables == if r == Success then Updated(old(tables), card, now) else old(tables)
    {
      Begin();
      if 0 in fails {
        Rollback();
        return Error;
      }
      if !(card.id in tables.cards && tables.cards[card.id].owner == card.owner) {
        Rollback();
        return Unauthorized;
      }
      tables := tables.(cards := tables.cards[card.id := Card(card.owner, Stored(card.user), now)]);
      if 1 in fails {
        Rollback();
        return Error;
      }
      tables := tables.(links := set l | l in tables.links && l.cardId != card.id);
      if 2 in fails {
        Rollback();
        return Error;
      }
      tables := tables.(profileLinks := set l | l in tables.profileLinks && l.cardId != card.id);
      if 3 in fails {
        Rollback();
        return Error;
      }
      PruneProperties();
      ghost var stripped := Stripped(old(tables), card, now);
      assert tables.links == stripped.links && tables.profileLinks == stripped.profileLinks;
      assert Linked(tables) == Linked(stripped) && tables.properties == stripped.properties;
      var ok := InsertProps(card.id, card.props, card.owner == card.user, 4, fails);
      if !ok || 4 + 2 * |card.props| in fails {
        Rollback();
        return Error;
      }
      return Success;
    }

    /** `get_profile`: a missing profile of a known user is created first. */
    method GetProfile(user: string, reqUser: Option<string>, reqDomain: Option<string>, known: bool, now: int,
                      fails: set<nat>)
      returns (ids: set<int>)
      requires Rooted(tables)
      modifies this
      ensures forall id :: id in ids <==> InProfile(old(tables), user, reqUser, reqDomain, known && 0 !in fails, id)
      ensures tables ==
                if '@' !in user && !HasProfile(old(tables), user) && known && 0 !in fails && 1 !in fails
                then Created(old(tables), VC(-1, user, user, []), now) else old(tables)
    {
      ids := {};
      if '@' in user {
        return;
      }
      if !HasProfile(tables, user) {
        if !known {
          return;
        }
        forall id {
          NewProfileIsEmpty(tables, user, reqUser, reqDomain, now, id);
        }
        var _ := CreateNewContact(VC(-1, user, user, []), now, fails);
        if 0 in fails {
          return;
        }
      }
      hide Created;
      ids := set id | id in tables.properties && Selected(tables, user, reqUser, reqDomain, id);
    }

    /** The statement numbered `failAt` throws, none if it is 5 or more; there is no transaction. */
    method DeleteUser(user: string, failAt: nat) returns (threw: bool)
      modifies this`tables
      ensures threw <==> failAt < 5
      ensures tables == DeletedUpTo(old(tables), user, failAt)
    {
      if failAt == 0 {
        return true;
      }
      tables := tables.(links := set l | l in tables.links && l.cardId !in CardsOf(tables, user));
      assert CardsOf(tables, user) == CardsOf(old(tables), user);
      if failAt == 1 {
        return true;
      }
      tables := tables.(profileLinks := set l | l in tables.profileLinks && l.cardId !in CardsOf(tables, user));
      assert tables == DeletedUpTo(old(tables), user, 2);
      if failAt == 2 {
        return true;
      }
      tables := tables.(cards := map k | k in tables.cards && tables.cards[k].owner != user :: tables.cards[k]);
      assert tables == DeletedUpTo(old(tables), user, 3);
      if failAt == 3 {
        return true;
      }
      PruneProperties();
      if failAt == 4 {
        return true;
      }
      tables := tables.(shares := set s | s in tables.shares && s.sendingUser != user && s.acceptUser != user);
      return false;
    }
  }
}
