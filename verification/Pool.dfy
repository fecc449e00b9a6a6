/** util/Pool.hpp: a slot allocator whose free list is threaded through the dead slots. */
module Pool {
  import opened Text

  // ----- The abstract pool -----

  /** `cells`: the slots in store order, None when dead; `free`: the free list as slot numbers;
      `built` and `destroyed`: every value ever constructed and every destructor ever run. */
  datatype State<T> = State(cells: seq<Option<T>>, free: seq<nat>, built: multiset<T>, destroyed: multiset<T>)

  ghost function Emplaced<T>(s: State<T>, v: T): State<T>
    requires s.free != [] ==> s.free[0] < |s.cells|
  {
    if s.free == [] then State(s.cells + [Some(v)], [], s.built + multiset{v}, s.destroyed)
    else State(s.cells[s.free[0] := Some(v)], s.free[1..], s.built + multiset{v}, s.destroyed)
  }

  /** The slot `emplace` hands out. */
  ghost function Target<T>(s: State<T>): nat {
    if s.free == [] then |s.cells| else s.free[0]
  }

  ghost predicate IsLive<T>(s: State<T>, i: int) {
    0 <= i < |s.cells| && s.cells[i].Some?
  }

  ghost function Removed<T>(s: State<T>, i: nat): State<T>
    requires IsLive(s, i)
  {
    State(s.cells[i := None], [i] + s.free, s.built, s.destroyed + multiset{s.cells[i].value})
  }

  ghost function Content<T>(c: Option<T>): multiset<T> {
    if c.Some? then multiset{c.value} else multiset{}
  }

  /** The live values, each as often as it is stored. */
  ghost function LiveValues<T>(cells: seq<Option<T>>): multiset<T> {
    if cells == [] then multiset{} else LiveValues(cells[..|cells| - 1]) + Content(cells[|cells| - 1])
  }

  ghost function Cleared<T>(s: State<T>): State<T> {
    State([], [], s.built, s.destroyed + LiveValues(s.cells))
  }

  ghost predicate Distinct<T>(s: seq<T>) {
    forall i, j | 0 <= i < j < |s| :: s[i] != s[j]
  }

  /** The free list is acyclic and holds exactly the dead slots. */
  ghost predicate FreeListExact<T>(cells: seq<Option<T>>, free: seq<nat>) {
    && Distinct(free)
    && (forall j | 0 <= j < |free| :: free[j] < |cells| && cells[free[j]].None?)
    && (forall i | 0 <= i < |cells| && cells[i].None? :: i in free)
  }

  /** ... and every value built is either live in one slot or has been destroyed once. */
  ghost predicate Inv<T>(s: State<T>) {
    FreeListExact(s.cells, s.free) && s.built == s.destroyed + LiveValues(s.cells)
  }

  lemma LiveValuesSnoc<T>(cells: seq<Option<T>>, c: Option<T>)
    ensures LiveValues(cells + [c]) == LiveValues(cells) + Content(c)
  {
    assert (cells + [c])[..|cells|] == cells;
  }

  lemma {:induction false} LiveValuesUpdate<T>(cells: seq<Option<T>>, i: nat, c: Option<T>)
    requires i < |cells|
    ensures LiveValues(cells[i := c]) + Content(cells[i]) == LiveValues(cells) + Content(c)
  {
    hide Content;
    var n := |cells| - 1;
    var before, last := cells[..n], cells[n];
    assert cells == before + [last];
    LiveValuesSnoc(before, last);
    if i < n {
      LiveValuesUpdate(before, i, c);
      assert cells[i := c] == before[i := c] + [last];
      LiveValuesSnoc(before[i := c], last);
      Exchange(LiveValues(before[i := c]), Content(cells[i]), LiveValues(before), Content(c), Content(last));
    } else {
      assert cells[i := c] == before + [c];
      LiveValuesSnoc(before, c);
    }
  }

  lemma Exchange<T>(a: multiset<T>, b: multiset<T>, c: multiset<T>, d: multiset<T>, e: multiset<T>)
    requires a + b == c + d
    ensures a + e + b == c + e + d
  {
    assert a + e + b == (a + b) + e;
  }

  /** No slot in use is ever handed out, and no other slot changes. */
  lemma EmplacedInv<T>(s: State<T>, v: T)
    requires Inv(s)
    ensures s.free != [] ==> s.free[0] < |s.cells|
    ensures !IsLive(s, Target(s)) && Inv(Emplaced(s, v)) && IsLive(Emplaced(s, v), Target(s))
    ensures forall i | IsLive(s, i) :: IsLive(Emplaced(s, v), i) && Emplaced(s, v).cells[i] == s.cells[i]
    ensures Emplaced(s, v).cells[Target(s)] == Some(v) && Emplaced(s, v).built == s.built + multiset{v}
    ensures Emplaced(s, v).destroyed == s.destroyed
    ensures |Emplaced(s, v).cells| == |s.cells| + if exists i :: 0 <= i < |s.cells| && !IsLive(s, i) then 0 else 1
  {
    hide LiveValues;
    if s.free == [] {
      LiveValuesSnoc(s.cells, Some(v));
    } else {
      var cells := s.cells[s.free[0] := Some(v)];
      LiveValuesUpdate(s.cells, s.free[0], Some(v));
      assert LiveValues(cells) == LiveValues(cells) + multiset{};
      assert s.free == [s.free[0]] + s.free[1..];
      forall j | 0 <= j < |s.free| - 1 ensures s.free[1..][j] != s.free[0] && s.free[1..][j] == s.free[j + 1] {
      }
      assert FreeListExact(cells, s.free[1..]);
    }
  }

  lemma RemovedInv<T>(s: State<T>, i: nat)
    requires Inv(s) && IsLive(s, i)
    ensures Inv(Removed(s, i)) && !IsLive(Removed(s, i), i)
    ensures forall j | j != i && IsLive(s, j) :: IsLive(Removed(s, i), j) && Removed(s, i).cells[j] == s.cells[j]
    ensures |Removed(s, i).cells| == |s.cells| && Removed(s, i).built == s.built
    ensures Removed(s, i).destroyed == s.destroyed + multiset{s.cells[i].value}
    ensures Target(Removed(s, i)) == i
  {
    hide LiveValues;
    var cells := s.cells[i := None];
    LiveValuesUpdate(s.cells, i, None);
    assert LiveValues(cells) + multiset{s.cells[i].value} == LiveValues(s.cells) + multiset{} == LiveValues(s.cells);
    assert FreeListExact(cells, [i] + s.free);
  }

  lemma ClearedInv<T>(s: State<T>)
    requires Inv(s)
    ensures Inv(Cleared(s)) && Cleared(s).destroyed == s.built == Cleared(s).built && Cleared(s).cells == []
  {
  }

  datatype Op<T> = EmplaceOp(value: T) | RemoveOp(slot: nat) | ClearOp

  /** What callers must respect: only live entities are removed. */
  ghost predicate Legal<T>(s: State<T>, op: Op<T>) {
    op.RemoveOp? ==> IsLive(s, op.slot)
  }

  ghost function Step<T>(s: State<T>, op: Op<T>): State<T>
    requires Inv(s) && Legal(s, op)
    ensures Inv(Step(s, op))
  {
    match op
    case EmplaceOp(v) => EmplacedInv(s, v); Emplaced(s, v)
    case RemoveOp(i) => RemovedInv(s, i); Removed(s, i)
    case ClearOp => ClearedInv(s); Cleared(s)
  }

  /** The state after `ops`, as long as callers remove only live entities. */
  ghost function Run<T>(ops: seq<Op<T>>): Option<State<T>>
    ensures Run(ops).Some? ==> Inv(Run(ops).value)
  {
    if ops == [] then Some(State([], [], multiset{}, multiset{}))
    else
      var s := Run(ops[..|ops| - 1]);
      if s.Some? && Legal(s.value, ops[|ops| - 1]) then Some(Step(s.value, ops[|ops| - 1])) else None
  }

  /** After every run: the dead slots are exactly those on the free list, the next `emplace`
      takes a slot that is not live, and `clear` would leave every value built destroyed once. */
  lemma RunsAreSafe<T>(ops: seq<Op<T>>)
    requires Run(ops).Some?
    ensures var s := Run(ops).value;
            && (forall i :: i in s.free <==> 0 <= i < |s.cells| && !IsLive(s, i))
            && Distinct(s.free) && !IsLive(s, Target(s))
            && Cleared(s).destroyed == s.built
  {
    ClearedInv(Run(ops).value);
  }

  // ----- The implementation -----

  /** A slot is either a live value or a link of the free list (a union in the original). */
  datatype Slot<T> = Live(value: T) | Free(next: Node?<T>)

  class Node<T> {
    var slot: Slot<T>

    constructor (value: T)
      ensures slot == Live(value)
    {
      slot := Live(value);
    }
  }

  /** The node behind the `j`-th entry of a list of slot numbers; null past its end. */
  ghost function At<T>(store: seq<Node<T>>, list: seq<nat>, j: nat): Node?<T> {
    if j < |list| && list[j] < |store| then store[list[j]] else null
  }

  lemma AtRest<T>(store: seq<Node<T>>, list: seq<nat>)
    requires list != [] && forall i | 0 <= i < |list| :: list[i] < |store|
    ensures forall j: nat :: At(store, list[1..], j) == At(store, list, j + 1)
  {
  }

  lemma AtCons<T>(store: seq<Node<T>>, i: nat, list: seq<nat>)
    requires i < |store|
    ensures At(store, [i] + list, 0) == store[i]
    ensures forall j: nat :: At(store, [i] + list, j + 1) == At(store, list, j)
  {
  }

  /** `first` starts a chain of dead slots that visits exactly `list`, in order. */
  ghost predicate Chain<T>(store: seq<Node<T>>, first: Node?<T>, list: seq<nat>)
    reads store
  {
    if list == [] then first == null
    else
      && list[0] < |store| && first == store[list[0]]
      && store[list[0]].slot.Free? && Chain(store, store[list[0]].slot.next, list[1..])
  }

  /** The maximal free prefix and the maximal free suffix of the store. */
  ghost predicate Trimmed<T>(cells: seq<Option<T>>, i: int) {
    || (forall j | 0 <= j <= i && j < |cells| :: cells[j].None?)
    || (forall j | i <= j < |cells| && 0 <= j :: cells[j].None?)
  }

  /** The free list without the trimmed slots, order kept. */
  ghost function Kept<T>(cells: seq<Option<T>>, free: seq<nat>): seq<nat> {
    if free == [] then []
    else if Trimmed(cells, free[0]) then Kept(cells, free[1..])
    else [free[0]] + Kept(cells, free[1..])
  }

  /** A slot is trimmed exactly when no live slot stands before it or none behind it. */
  lemma TrimmedExactlyWhen<T>(cells: seq<Option<T>>, i: nat)
    requires i < |cells|
    ensures Trimmed(cells, i) <==>
              !((exists j | 0 <= j <= i :: cells[j].Some?) && (exists j | i <= j < |cells| :: cells[j].Some?))
  {
  }

  /** What is kept are the entries not trimmed ... */
  lemma {:induction false} KeptMembers<T>(cells: seq<Option<T>>, free: seq<nat>)
    ensures forall x :: x in Kept(cells, free) <==> x in free && !Trimmed(cells, x)
    ensures |free| == 1 ==> Kept(cells, free) == if Trimmed(cells, free[0]) then [] else free
  {
    hide Trimmed;
    if free != [] {
      KeptMembers(cells, free[1..]);
    }
  }

  /** ... in their order. */
  lemma {:induction false} KeptConcat<T>(cells: seq<Option<T>>, a: seq<nat>, b: seq<nat>)
    ensures Kept(cells, a + b) == Kept(cells, a) + Kept(cells, b)
  {
    hide Trimmed;
    if a == [] {
      assert a + b == b;
    } else {
      KeptConcat(cells, a[1..], b);
      assert (a + b)[1..] == a[1..] + b;
    }
  }

  /** Where the next entry to keep is, from `j` on. */
  ghost function NextKept<T>(cells: seq<Option<T>>, free: seq<nat>, j: nat): (k: nat)
    requires j <= |free|
    ensures j <= k <= |free|
    decreases |free| - j
  {
    if j == |free| || !Trimmed(cells, free[j]) then j else NextKept(cells, free, j + 1)
  }

  lemma {:induction false} NextKeptSkips<T>(cells: seq<Option<T>>, free: seq<nat>, j: nat)
    requires j <= |free|
    ensures var k := NextKept(cells, free, j);
            && (k < |free| ==> !Trimmed(cells, free[k]))
            && forall i | j <= i < k :: Trimmed(cells, free[i])
    ensures j < |free| && Trimmed(cells, free[j]) ==> NextKept(cells, free, j) == NextKept(cells, free, j + 1)
    decreases |free| - j
  {
    hide Trimmed;
    if j < |free| && Trimmed(cells, free[j]) {
      NextKeptSkips(cells, free, j + 1);
    }
  }

  lemma OtherNodes<T>(store: seq<Node<T>>, cells: seq<Option<T>>, free: seq<nat>, p: nat)
    requires |cells| == |store| && Distinct(store) && FreeListExact(cells, free) && p < |free|
    ensures forall j | 0 <= j < |free| && j != p :: store[free[j]] != store[free[p]]
    ensures forall i | 0 <= i < |store| && cells[i].Some? :: store[i] != store[free[p]]
  {
  }

  lemma AtEntry<T>(store: seq<Node<T>>, free: seq<nat>, j: nat)
    requires j < |free| ==> free[j] < |store|
    ensures At(store, free, j) == if j < |free| then store[free[j]] else null
  {
  }

  /** Links that skip what was trimmed make a chain of what was kept. */
  lemma {:induction false} SkippingChain<T>(store: seq<Node<T>>, cells: seq<Option<T>>, free: seq<nat>, j: nat)
    requires j <= |free| && forall i | 0 <= i < |free| :: free[i] < |store|
    requires forall i | 0 <= i < |free| && !Trimmed(cells, free[i]) ::
               store[free[i]].slot == Free(At(store, free, NextKept(cells, free, i + 1)))
    ensures Chain(store, At(store, free, NextKept(cells, free, j)), Kept(cells, free[j..]))
    decreases |free| - j
  {
    hide Trimmed;
    if j < |free| {
      SkippingChain(store, cells, free, j + 1);
      assert free[j..][1..] == free[j + 1..];
      var kept := Kept(cells, free[j..]);
      if !Trimmed(cells, free[j]) {
        assert kept[0] == free[j] && kept[1..] == Kept(cells, free[j + 1..]);
      }
    }
  }

  lemma WithoutEntry<T>(s: seq<T>, i: nat)
    requires i < |s| && Distinct(s)
    ensures var t := s[..i] + s[i + 1..];
            Distinct(t) && forall x :: x in t <==> x in s && x != s[i]
  {
    var t := s[..i] + s[i + 1..];
    assert forall j | 0 <= j < |t| :: t[j] == s[if j < i then j else j + 1];
    forall x ensures x in t <==> x in s && x != s[i] {
      if x in s && x != s[i] {
        var j :| 0 <= j < |s| && s[j] == x;
        assert t[if j < i then j else j - 1] == x;
      }
    }
  }

  lemma {:induction false} DistinctSize(s: seq<nat>, n: nat)
    requires Distinct(s) && forall i | 0 <= i < |s| :: s[i] < n
    ensures |s| <= n
    ensures |s| == n ==> forall k | 0 <= k < n :: k in s
  {
    assert s == [] || s[0] < n;
    if n > 0 {
      if n - 1 in s {
        var i :| 0 <= i < |s| && s[i] == n - 1;
        var t := s[..i] + s[i + 1..];
        WithoutEntry(s, i);
        hide Distinct;
        DistinctSize(t, n - 1);
      } else {
        DistinctSize(s, n - 1);
      }
    }
  }

  lemma {:induction false} AllListed(s: seq<nat>, n: nat)
    requires forall k | 0 <= k < n :: k in s
    ensures |s| >= n
  {
    if n > 0 {
      assert n - 1 in s;
      var i :| 0 <= i < |s| && s[i] == n - 1;
      var t := s[..i] + s[i + 1..];
      forall k | 0 <= k < n - 1 ensures k in t {
        assert k in s;
        var j :| 0 <= j < |s| && s[j] == k;
        assert if j < i then t[j] == k else t[j - 1] == k;
      }
      AllListed(t, n - 1);
    }
  }

  /** Comparing the two sizes is asking whether every slot is dead. */
  lemma AllFree<T>(cells: seq<Option<T>>, free: seq<nat>)
    requires FreeListExact(cells, free)
    ensures |free| == |cells| <==> forall i | 0 <= i < |cells| :: cells[i].None?
  {
    DistinctSize(free, |cells|);
    if |free| == |cells| {
      forall i | 0 <= i < |cells| ensures cells[i].None? {
        assert i in free;
      }
    }
    if forall i | 0 <= i < |cells| :: cells[i].None? {
      AllListed(free, |cells|);
    }
  }

  /** The nodes of the first `k` entries of the free list. */
  ghost predicate Collected<T>(nodes: set<Node<T>>, store: seq<Node<T>>, free: seq<nat>, k: nat)
    requires k <= |free|
  {
    |nodes| == k && forall i | 0 <= i < |store| :: store[i] in nodes <==> i in free[..k]
  }

  lemma NothingCollected<T>(store: seq<Node<T>>, free: seq<nat>)
    ensures Collected({}, store, free, 0)
  {
  }

  lemma CollectedStep<T>(nodes: set<Node<T>>, store: seq<Node<T>>, free: seq<nat>, k: nat)
    requires Distinct(store) && Distinct(free) && k < |free| && free[k] < |store|
    requires Collected(nodes, store, free, k)
    ensures Collected(nodes + {store[free[k]]}, store, free, k + 1)
  {
    assert free[..k + 1] == free[..k] + [free[k]];
    assert free[k] !in free[..k];
  }

  lemma AllCollected<T>(nodes: set<Node<T>>, store: seq<Node<T>>, cells: seq<Option<T>>, free: seq<nat>)
    requires FreeListExact(cells, free) && |cells| == |store| && Collected(nodes, store, free, |free|)
    ensures |nodes| == |free| && forall i | 0 <= i < |store| :: store[i] in nodes <==> cells[i].None?
  {
    assert free[..|free|] == free;
  }

  class Pool<T> {
    var store: seq<Node<T>>
    var firstFree: Node?<T>
    ghost var view: State<T>

    ghost predicate Valid()
      reads this, store
    {
      && Inv(view)
      && |view.cells| == |store| && Distinct(store)
      && firstFree == At(store, view.free, 0)
      && (forall i | 0 <= i < |store| && view.cells[i].Some? :: store[i].slot == Live(view.cells[i].value))
      && (forall j | 0 <= j < |view.free| :: store[view.free[j]].slot == Free(At(store, view.free, j + 1)))
    }

    constructor ()
      ensures Valid() && view == State([], [], multiset{}, multiset{}) && store == []
    {
      store, firstFree, view := [], null, State([], [], multiset{}, multiset{});
    }

    method Emplace(value: T) returns (p: Node<T>)
      requires Valid()
      modifies this, store
      ensures Valid() && old(view.free != [] ==> view.free[0] < |view.cells|)
      ensures view == Emplaced(old(view), value)
      ensures Target(old(view)) < |store| && p == store[Target(old(view))] && p.slot == Live(value)
      ensures store == if old(view).free == [] then old(store) + [p] else old(store)
      ensures old(view).free == [] ==> fresh(p)
    {
      hide Inv, LiveValues, At;
      EmplacedInv(view, value);
      InvFreeList(view);
      AtEntry(store, view.free, 0);
      if firstFree == null {
        p := new Node(value);
        store := store + [p];
        AtEntry(store, [], 0);
      } else {
        p := firstFree;
        AtRest(store, view.free);
        assert forall j | 1 <= j < |view.free| :: store[view.free[j]] != p;
        firstFree := p.slot.next;
        p.slot := Live(value);
      }
      view := Emplaced(view, value);
    }

    /** `i` names the entity's slot in the ghost view only. */
    method Remove(n: Node<T>, ghost i: nat)
      requires Valid() && IsLive(view, i) && n == store[i]
      modifies this, n
      ensures Valid() && view == Removed(old(view), i) && store == old(store)
    {
      hide Inv, LiveValues, At;
      RemovedInv(view, i);
      InvFreeList(view);
      AtCons(store, i, view.free);
      assert forall j | 0 <= j < |store| && j != i :: store[j] != n;
      hide Distinct;
      n.slot := Free(firstFree);
      firstFree := n;
      view := Removed(view, i);
    }

    /** `clear`: learn which slots are dead by walking the free list, destroy the rest. */
    method Clear()
      requires Valid()
      modifies this
      ensures Valid() && view == Cleared(old(view)) && store == [] && firstFree == null
    {
      hide LiveValues;
      ClearedInv(view);
      var freeNodes := CollectFree();
      firstFree := null;
      ghost var destroyed := view.destroyed;
      for i := 0 to |store|
        invariant view == old(view) && store == old(store) && firstFree == null
        invariant destroyed == view.destroyed + LiveValues(view.cells[..i])
      {
        LiveValuesSnoc(view.cells[..i], view.cells[i]);
        assert view.cells[..i + 1] == view.cells[..i] + [view.cells[i]];
        if store[i] !in freeNodes {
          destroyed := destroyed + multiset{store[i].slot.value};
        }
      }
      assert view.cells[..|store|] == view.cells;
      store := [];
      view := State([], [], view.built, destroyed);
    }

    /** The walk `clear` and `squeeze` start with. */
    method CollectFree() returns (freeNodes: set<Node<T>>)
      requires Valid()
      ensures forall i | 0 <= i < |store| :: store[i] in freeNodes <==> view.cells[i].None?
      ensures |freeNodes| == |view.free|
    {
      hide Inv, LiveValues, Distinct, Collected, At;
      InvFreeList(view);
      freeNodes := {};
      var n := firstFree;
      ghost var k: nat := 0;
      NothingCollected(store, view.free);
      while n != null
        invariant k <= |view.free| && n == At(store, view.free, k) && Collected(freeNodes, store, view.free, k)
        decreases |view.free| - k
      {
        AtEntry(store, view.free, k);
        CollectedStep(freeNodes, store, view.free, k);
        freeNodes := freeNodes + {n};
        n := n.slot.next;
        k := k + 1;
      }
      AtEntry(store, view.free, k);
      AllCollected(freeNodes, store, view.cells, view.free);
    }

    /** The scans of `squeeze` from both ends, for a store with some slot in use. */
    method TrimEnds(freeNodes: set<Node<T>>) returns (removed: seq<Node<T>>)
      requires Valid() && exists i :: IsLive(view, i)
      requires forall i | 0 <= i < |store| :: store[i] in freeNodes <==> view.cells[i].None?
      ensures forall i | 0 <= i < |store| :: store[i] in removed <==> Trimmed(view.cells, i)
    {
      hide Inv, LiveValues, FreeListExact;
      removed := [];
      var firstInUse := 0;
      while firstInUse < |store| && store[firstInUse] in freeNodes
        invariant firstInUse <= |store|
        invariant forall i | 0 <= i < firstInUse :: view.cells[i].None?
        invariant forall i | 0 <= i < |store| :: store[i] in removed <==> i < firstInUse
      {
        removed := removed + [store[firstInUse]];
        firstInUse := firstInUse + 1;
      }
      var lastInUse := |store| - 1;
      while lastInUse > firstInUse && store[lastInUse] in freeNodes
        invariant firstInUse <= lastInUse < |store|
        invariant forall i | lastInUse < i < |store| :: view.cells[i].None?
        invariant forall i | 0 <= i < |store| :: store[i] in removed <==> i < firstInUse || i > lastInUse
      {
        removed := removed + [store[lastInUse]];
        lastInUse := lastInUse - 1;
      }
      assert view.cells[firstInUse].Some? && view.cells[lastInUse].Some?;
    }

    /** Links from entry `p` of the free list on are still the original ones. */
    ghost predicate Untouched(p: nat)
      reads this, store
    {
      forall j | p <= j < |view.free| ::
        view.free[j] < |store| && store[view.free[j]].slot == Free(At(store, view.free, j + 1))
    }

    /** `next_usable`: follow the links past everything removed.  `node` is entry `p`. */
    method NextUsable(node: Node<T>, removed: seq<Node<T>>, ghost p: nat) returns (r: Node?<T>)
      requires p < |view.free| && node == At(store, view.free, p) && Untouched(p)
      requires forall i | 0 <= i < |store| :: store[i] in removed <==> Trimmed(view.cells, i)
      ensures r == At(store, view.free, NextKept(view.cells, view.free, p + 1))
    {
      hide Trimmed, At;
      AtEntry(store, view.free, p);
      AtEntry(store, view.free, p + 1);
      r := node.slot.next;
      ghost var k := p + 1;
      while r != null && r in removed
        invariant p < k <= |view.free| && r == At(store, view.free, k)
        invariant NextKept(view.cells, view.free, p + 1) == NextKept(view.cells, view.free, k)
        decreases |view.free| - k
      {
        AtEntry(store, view.free, k);
        r := r.slot.next;
        k := k + 1;
      }
      AtEntry(store, view.free, k);
    }

    /** How far the repair has got: entries before `p` skip what was removed, the others and the
        live slots are as they were. */
    ghost predicate Relinked(p: nat)
      reads this, store
    {
      && |view.cells| == |store| && Distinct(store) && FreeListExact(view.cells, view.free)
      && Untouched(p)
      && (forall j | 0 <= j < p && j < |view.free| && !Trimmed(view.cells, view.free[j]) ::
            store[view.free[j]].slot == Free(At(store, view.free, NextKept(view.cells, view.free, j + 1))))
      && (forall i | 0 <= i < |store| && view.cells[i].Some? :: store[i].slot == Live(view.cells[i].value))
    }

    /** One round of the repair loop, at entry `p`. */
    method RelinkOne(n: Node<T>, removed: seq<Node<T>>, ghost p: nat) returns (next: Node?<T>)
      requires Relinked(p) && p < |view.free| && n == store[view.free[p]]
      requires forall i | 0 <= i < |store| :: store[i] in removed <==> Trimmed(view.cells, i)
      modifies n
      ensures next == At(store, view.free, NextKept(view.cells, view.free, p + 1))
      ensures Relinked(NextKept(view.cells, view.free, p + 1))
    {
      hide Trimmed, NextKept, Distinct, At;
      OtherNodes(store, view.cells, view.free, p);
      AtEntry(store, view.free, p + 1);
      NextKeptSkips(view.cells, view.free, p + 1);
      if n.slot.next in removed {
        next := NextUsable(n.slot.next, removed, p + 1);
        n.slot := Free(next);
      }
      next := n.slot.next;
    }

    /** The repair of `squeeze`: unlink the removed nodes from the free list in place. */
    method Relink(removed: seq<Node<T>>)
      requires Valid() && view.free != []
      requires forall i | 0 <= i < |store| :: store[i] in removed <==> Trimmed(view.cells, i)
      modifies this`firstFree, store
      ensures Chain(store, firstFree, Kept(view.cells, view.free))
      ensures forall i | 0 <= i < |store| && view.cells[i].Some? :: store[i].slot == Live(view.cells[i].value)
    {
      hide Inv, LiveValues, Trimmed, NextKept, Kept, Chain, Distinct, At, FreeListExact;
      InvFreeList(view);
      ghost var cells, free := view.cells, view.free;
      ghost var p := NextKept(cells, free, 0);
      NextKeptSkips(cells, free, 0);
      AtEntry(store, free, 0);
      assert Relinked(p);
      if firstFree in removed {
        firstFree := NextUsable(firstFree, removed, 0);
      }
      var n := firstFree;
      while n != null
        invariant p <= |free| && n == At(store, free, p)
        invariant firstFree == At(store, free, NextKept(cells, free, 0))
        invariant Relinked(p)
        decreases |free| - p
      {
        AtEntry(store, free, p);
        NextKeptSkips(cells, free, p + 1);
        n := RelinkOne(n, removed, p);
        p := NextKept(cells, free, p + 1);
      }
      AtEntry(store, free, p);
      SkippingChain(store, cells, free, 0);
      assert free[0..] == free;
    }

    /** `squeeze` up to the repaired free list. */
    method Squeeze()
      requires Valid()
      modifies this, store
      ensures old(view.free) == [] ==> Valid() && view == old(view) && store == old(store)
      ensures old(view.free) != [] && (forall i :: !old(IsLive(view, i))) ==>
                Valid() && store == [] && firstFree == null
      ensures old(view.free) != [] && (exists i :: old(IsLive(view, i))) ==>
                && store == old(store) && view == old(view)
                && Chain(store, firstFree, Kept(view.cells, view.free))
                && forall i | IsLive(view, i) && i < |store| :: store[i].slot == Live(view.cells[i].value)
    {
      hide Inv, LiveValues, At;
      InvFreeList(view);
      AllFree(view.cells, view.free);
      AtEntry(store, view.free, 0);
      if firstFree == null {
        return;
      }
      var freeNodes := CollectFree();
      if |freeNodes| == |store| {
        store, firstFree := [], null;
        Emptied(view);
        view := State([], [], view.built, view.destroyed);
        AtEntry(store, [], 0);
        return;
      }
      ghost var i :| 0 <= i < |view.cells| && view.cells[i].Some?;
      assert IsLive(view, i);
      var removed := TrimEnds(freeNodes);
      Relink(removed);
    }
  }

  lemma InvFreeList<T>(s: State<T>)
    requires Inv(s)
    ensures FreeListExact(s.cells, s.free)
  {
  }

  lemma {:induction false} NothingLive<T>(cells: seq<Option<T>>)
    requires forall i | 0 <= i < |cells| :: cells[i].None?
    ensures LiveValues(cells) == multiset{}
  {
    if cells != [] {
      NothingLive(cells[..|cells| - 1]);
    }
  }

  lemma Emptied<T>(s: State<T>)
    requires Inv(s) && forall i | 0 <= i < |s.cells| :: s.cells[i].None?
    ensures Inv(State([], [], s.built, s.destroyed))
  {
    NothingLive(s.cells);
  }
}
