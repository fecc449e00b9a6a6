/** util/LRUCache.hpp: a hash of list positions kept in step with a recency list. */
module LRUCache {
  import opened Text

  // ----- The abstract cache: entries in order of recency, most recent first -----

  function Lookup<K(==), V>(s: seq<(K, V)>, k: K): Option<V> {
    if s == [] then None else if s[0].0 == k then Some(s[0].1) else Lookup(s[1..], k)
  }

  function Without<K(==), V>(s: seq<(K, V)>, k: K): seq<(K, V)> {
    if s == [] then [] else if s[0].0 == k then Without(s[1..], k) else [s[0]] + Without(s[1..], k)
  }

  /** `get`: a hit moves to the front. */
  function Touched<K(==), V>(s: seq<(K, V)>, k: K): seq<(K, V)> {
    match Lookup(s, k)
    case Some(v) => [(k, v)] + Without(s, k)
    case None => s
  }

  /** `set`: to the front; a new key in a full cache evicts the entry at the back. */
  function Put<K(==), V>(s: seq<(K, V)>, k: K, v: V, cap: nat): seq<(K, V)> {
    if Lookup(s, k).Some? then [(k, v)] + Without(s, k)
    else if |s| + 1 > cap then ([(k, v)] + s)[..|s|]
    else [(k, v)] + s
  }

  ghost predicate DistinctKeys<K, V>(s: seq<(K, V)>) {
    s == [] || (Lookup(s[1..], s[0].0).None? && DistinctKeys(s[1..]))
  }

  lemma {:induction false} LookupMember<K, V>(s: seq<(K, V)>, x: (K, V))
    requires x in s && DistinctKeys(s)
    ensures Lookup(s, x.0) == Some(x.1)
  {
    if s[0] != x {
      LookupMember(s[1..], x);
    }
  }

  lemma {:induction false} LookupFound<K, V>(s: seq<(K, V)>, k: K)
    ensures Lookup(s, k).Some? ==> (k, Lookup(s, k).value) in s
    ensures Lookup(s, k).None? ==> Without(s, k) == s && forall x | x in s :: x.0 != k
  {
    if s != [] {
      LookupFound(s[1..], k);
    }
  }

  lemma {:induction false} WithoutFacts<K, V>(s: seq<(K, V)>, k: K)
    ensures forall x | x in Without(s, k) :: x in s && x.0 != k
    ensures Lookup(Without(s, k), k).None?
    ensures forall j | j != k :: Lookup(Without(s, k), j) == Lookup(s, j)
    ensures DistinctKeys(s) ==> DistinctKeys(Without(s, k))
    ensures DistinctKeys(s) ==> |Without(s, k)| == |s| - if Lookup(s, k).Some? then 1 else 0
  {
    if s != [] {
      WithoutFacts(s[1..], k);
      LookupFound(s[1..], k);
      if s[0].0 != k {
        assert ([s[0]] + Without(s[1..], k))[1..] == Without(s[1..], k);
      }
    }
  }

  // ----- The implementation -----

  /** A list node; a pointer to it is what the hash stores (a `std::list` iterator). */
  class Cell<K, V> {
    const key: K
    const value: V

    constructor (key: K, value: V)
      ensures this.key == key && this.value == value
    {
      this.key, this.value := key, value;
    }
  }

  function Entries<K, V>(list: seq<Cell<K, V>>): (s: seq<(K, V)>)
    ensures |s| == |list|
  {
    if list == [] then [] else [(list[0].key, list[0].value)] + Entries(list[1..])
  }

  /** `std::list::erase`: unlink one node. */
  function Erased<K, V>(list: seq<Cell<K, V>>, c: Cell<K, V>): seq<Cell<K, V>> {
    if list == [] then [] else if list[0] == c then list[1..] else [list[0]] + Erased(list[1..], c)
  }

  ghost predicate Unique<T>(list: seq<T>) {
    list == [] || (list[0] !in list[1..] && Unique(list[1..]))
  }

  /** Unlinking a key's only node is removing the key. */
  lemma {:induction false} ErasedEntries<K, V>(list: seq<Cell<K, V>>, c: Cell<K, V>)
    requires Unique(list) && c in list && forall d | d in list && d.key == c.key :: d == c
    ensures Entries(Erased(list, c)) == Without(Entries(list), c.key)
    ensures forall d :: d in Erased(list, c) <==> d in list && d != c
    ensures Unique(Erased(list, c)) && |Erased(list, c)| == |list| - 1
  {
    assert list == [list[0]] + list[1..];
    if list[0] == c {
      NoKey(list[1..], c.key);
    } else {
      ErasedEntries(list[1..], c);
      Front(list[0], Erased(list[1..], c));
    }
  }

  lemma {:induction false} NoKey<K, V>(list: seq<Cell<K, V>>, k: K)
    requires forall d | d in list :: d.key != k
    ensures Lookup(Entries(list), k).None? && Without(Entries(list), k) == Entries(list)
  {
    if list != [] {
      NoKey(list[1..], k);
    }
  }

  lemma {:induction false} EntriesMember<K, V>(list: seq<Cell<K, V>>, c: Cell<K, V>)
    requires c in list && forall d | d in list && d.key == c.key :: d == c
    ensures Lookup(Entries(list), c.key) == Some(c.value)
  {
    if list[0] != c {
      EntriesMember(list[1..], c);
    }
  }

  lemma Front<K, V>(c: Cell<K, V>, list: seq<Cell<K, V>>)
    ensures Entries([c] + list) == [(c.key, c.value)] + Entries(list)
    ensures c !in list && Unique(list) ==> Unique([c] + list)
  {
    assert ([c] + list)[1..] == list;
  }

  lemma {:induction false} Back<K, V>(list: seq<Cell<K, V>>)
    requires list != [] && Unique(list)
    ensures var init := list[..|list| - 1];
            Entries(init) == Entries(list)[..|list| - 1] && Unique(init)
            && list[|list| - 1] !in init && forall c | c in list :: c == list[|list| - 1] || c in init
  {
    var init := list[..|list| - 1];
    assert list == init + [list[|list| - 1]];
    if |list| > 1 {
      Back(list[1..]);
      assert init[1..] == list[1..][..|list| - 2] && init == [list[0]] + init[1..];
      Front(list[0], init[1..]);
    }
  }

  lemma {:induction false} EntriesDistinct<K, V>(list: seq<Cell<K, V>>)
    requires Unique(list) && forall c, d | c in list && d in list && c.key == d.key :: c == d
    ensures DistinctKeys(Entries(list))
  {
    if list != [] {
      assert list[0] !in list[1..];
      assert forall c | c in list[1..] :: c in list;
      EntriesDistinct(list[1..]);
      NoKey(list[1..], list[0].key);
    }
  }

  class LRUCache<K(==,!new), V> {
    var hash: map<K, Cell<K, V>>
    var list: seq<Cell<K, V>>
    const maxSize: nat

    ghost predicate Valid()
      reads this
    {
      && 1 <= maxSize && |list| <= maxSize
      && Unique(list)
      && (forall k | k in hash :: hash[k] in list && hash[k].key == k)
      && (forall c | c in list :: c.key in hash && hash[c.key] == c)
    }

    ghost function Contents(): seq<(K, V)>
      reads this
    {
      Entries(list)
    }

    constructor (maxSize: nat)
      requires 1 <= maxSize
      ensures Valid() && Contents() == [] && this.maxSize == maxSize
    {
      hash, list := map[], [];
      this.maxSize := maxSize;
    }

    /** The hash holds exactly the abstract cache's keys, each at its own node. */
    lemma HashIsLookup(key: K)
      requires Valid()
      ensures key in hash <==> Lookup(Contents(), key).Some?
      ensures key in hash ==> Lookup(Contents(), key) == Some(hash[key].value)
    {
      if key in hash {
        EntriesMember(list, hash[key]);
      } else {
        NoKey(list, key);
      }
    }

    lemma EntriesAreDistinct()
      requires Valid()
      ensures DistinctKeys(Contents())
    {
      EntriesDistinct(list);
    }

    /** Both `get` overloads: None stands for the exception of one, the default of the other. */
    method Get(key: K) returns (r: Option<V>)
      requires Valid()
      modifies this
      ensures Valid()
      ensures Contents() == Touched(old(Contents()), key)
      ensures r == Lookup(old(Contents()), key)
      ensures |Contents()| == |old(Contents())| && (r.Some? ==> Contents()[0] == (key, r.value))
      ensures forall j :: Lookup(Contents(), j) == Lookup(old(Contents()), j)
    {
      HashIsLookup(key);
      EntriesAreDistinct();
      GetKeepsAll(Contents(), key);
      hide Lookup, Touched, Without, DistinctKeys;
      if key !in hash {
        return None;
      }
      var it := hash[key];
      ErasedEntries(list, it);
      Front(it, Erased(list, it));
      list := [it] + Erased(list, it);
      return Some(it.value);
    }

    method GetOr(key: K, default: V) returns (r: V)
      requires Valid()
      modifies this
      ensures Valid()
      ensures Contents() == Touched(old(Contents()), key)
      ensures r == if Lookup(old(Contents()), key).Some? then Lookup(old(Contents()), key).value else default
    {
      var hit := Get(key);
      return if hit.Some? then hit.value else default;
    }

    method Set(key: K, value: V)
      requires Valid()
      modifies this
      ensures Valid()
      ensures Contents() == Put(old(Contents()), key, value, maxSize)
      ensures var s, isNew := old(Contents()), Lookup(old(Contents()), key).None?;
              && |Contents()| == |s| + (if isNew && |s| < maxSize then 1 else 0)
              && |Contents()| > 0 && Contents()[0] == (key, value)
              && (forall j :: Lookup(Contents(), j) ==
                    if j == key then Some(value)
                    else if isNew && |s| == maxSize && j == s[|s| - 1].0 then None
                    else Lookup(s, j))
    {
      hide Without, Erased, DistinctKeys, Unique, Entries, Lookup;
      HashIsLookup(key);
      EntriesAreDistinct();
      SetKeepsOthers(Contents(), key, value, maxSize);
      var begin := new Cell(key, value);
      ghost var before := list;
      Front(begin, before);
      list := [begin] + list;
      if key !in hash {
        if |list| > maxSize {
          Back(list);
          var last := list[|list| - 1];
          hash := hash - {last.key};
          list := list[..|list| - 1];
        }
        hash := hash[key := begin];
      } else {
        var it := hash[key];
        ErasedEntries(before, it);
        Front(begin, Erased(before, it));
        list := [begin] + Erased(list[1..], it);
        hash := hash[key := begin];
      }
    }

    method Drop(key: K)
      requires Valid()
      modifies this
      ensures Valid()
      ensures Contents() == Without(old(Contents()), key)
      ensures forall j :: Lookup(Contents(), j) == if j == key then None else Lookup(old(Contents()), j)
    {
      HashIsLookup(key);
      WithoutFacts(Contents(), key);
      if key !in hash {
        NoKey(list, key);
        return;
      }
      ErasedEntries(list, hash[key]);
      list := Erased(list, hash[key]);
      hash := hash - {key};
    }

    method Size() returns (n: nat)
      requires Valid()
      ensures n == |Contents()| <= maxSize
    {
      return |list|;
    }

    method Exists(key: K) returns (b: bool)
      requires Valid()
      ensures b <==> Lookup(Contents(), key).Some?
    {
      HashIsLookup(key);
      return key in hash;
    }
  }

  // ----- Whole runs -----

  datatype Op<K, V> = GetOp(key: K) | SetOp(key: K, value: V) | DropOp(key: K)

  function Step<K(==), V>(s: seq<(K, V)>, op: Op<K, V>, cap: nat): seq<(K, V)> {
    match op
    case GetOp(k) => Touched(s, k)
    case SetOp(k, v) => Put(s, k, v, cap)
    case DropOp(k) => Without(s, k)
  }

  function Run<K(==), V>(ops: seq<Op<K, V>>, cap: nat): seq<(K, V)> {
    if ops == [] then [] else Step(Run(ops[..|ops| - 1], cap), ops[|ops| - 1], cap)
  }

  // ----- What each operation does to every key -----

  /** `set` maps the key to the value and moves it to the front; every other key keeps its value, except
      that a new key in a full cache pushes out the last one. */
  lemma SetKeepsOthers<K, V>(s: seq<(K, V)>, k: K, v: V, cap: nat)
    requires 1 <= cap && DistinctKeys(s) && |s| <= cap
    ensures var s', isNew := Put(s, k, v, cap), Lookup(s, k).None?;
            && |s'| == |s| + (if isNew && |s| < cap then 1 else 0)
            && |s'| > 0 && s'[0] == (k, v)
            && (forall j :: Lookup(s', j) ==
                  if j == k then Some(v)
                  else if isNew && |s| == cap && j == s[|s| - 1].0 then None
                  else Lookup(s, j))
  {
    hide Without;
    WithoutFacts(s, k);
    LookupFound(s, k);
    ConsLookup((k, v), s);
    ConsLookup((k, v), Without(s, k));
    if Lookup(s, k).None? && |s| == cap {
      var init := s[..|s| - 1];
      assert Put(s, k, v, cap) == [(k, v)] + init;
      forall j ensures Lookup([(k, v)] + init, j) ==
          if j == k then Some(v) else if j == s[|s| - 1].0 then None else Lookup(s, j)
      {
        WithoutLast(s, j);
      }
      ConsLookup((k, v), s[..|s| - 1]);
    }
  }

  lemma ConsLookup<K, V>(x: (K, V), s: seq<(K, V)>)
    ensures forall j :: Lookup([x] + s, j) == if j == x.0 then Some(x.1) else Lookup(s, j)
  {
    assert ([x] + s)[1..] == s;
  }

  lemma {:induction false} WithoutLast<K, V>(s: seq<(K, V)>, j: K)
    requires s != [] && DistinctKeys(s)
    ensures Lookup(s[..|s| - 1], j) == if j == s[|s| - 1].0 then None else Lookup(s, j)
  {
    var init := s[..|s| - 1];
    if |s| > 1 {
      WithoutLast(s[1..], j);
      assert s[1..][..|s| - 2] == init[1..] && s[1..][|s| - 2] == s[|s| - 1];
      assert s[|s| - 1] in s[1..];
      LookupMember(s[1..], s[|s| - 1]);
    } else {
      assert init == [] && s[1..] == [];
    }
  }

  /** `get` changes no key's value and nothing but the order. */
  lemma GetKeepsAll<K, V>(s: seq<(K, V)>, k: K)
    requires DistinctKeys(s)
    ensures |Touched(s, k)| == |s|
    ensures forall j :: Lookup(Touched(s, k), j) == Lookup(s, j)
    ensures Lookup(s, k).Some? ==> Touched(s, k)[0] == (k, Lookup(s, k).value)
  {
    hide Without;
    WithoutFacts(s, k);
    if Lookup(s, k).Some? {
      ConsLookup((k, Lookup(s, k).value), Without(s, k));
    }
  }

  /** The three operations on every reachable state, key by key. */
  lemma EveryKeyAfter<K, V>(ops: seq<Op<K, V>>, op: Op<K, V>, cap: nat, j: K)
    requires 1 <= cap
    ensures var s, s', k := Run(ops, cap), Run(ops + [op], cap), op.key;
            Lookup(s', j) ==
              if op.SetOp? && j == k then Some(op.value)
              else if op.DropOp? && j == k then None
              else if op.SetOp? && Lookup(s, k).None? && |s| == cap && j == s[cap - 1].0 then None
              else Lookup(s, j)
  {
    hide Put, Touched, Without;
    var s := Run(ops, cap);
    assert (ops + [op])[..|ops|] == ops;
    RunWellFormed(ops, cap);
    match op
    case GetOp(k) => GetKeepsAll(s, k);
    case SetOp(k, v) => SetKeepsOthers(s, k, v, cap);
    case DropOp(k) => WithoutFacts(s, k);
  }

  // ----- How long a key stays -----

  /** The other keys set or asked for from `from` on. */
  function Others<K(==), V>(ops: seq<Op<K, V>>, from: nat, k: K): set<K> {
    set q | from <= q < |ops| && !ops[q].DropOp? && ops[q].key != k :: ops[q].key
  }

  /** `k` is in the list, and what stands before it is in `ahead`. */
  predicate Behind<K(==), V>(s: seq<(K, V)>, k: K, ahead: set<K>) {
    s != [] && (s[0].0 == k || (s[0].0 in ahead && Behind(s[1..], k, ahead)))
  }

  lemma {:induction false} BehindFacts<K, V>(s: seq<(K, V)>, k: K, ahead: set<K>, more: set<K>, j: K)
    requires Behind(s, k, ahead)
    ensures Lookup(s, k).Some? && Behind(s, k, ahead + more)
    ensures j != k ==> Behind(Without(s, j), k, ahead)
    ensures Lookup(s, j).None? ==> Behind(s, k, ahead - {j})
  {
    if s[0].0 != k {
      BehindFacts(s[1..], k, ahead, more, j);
    }
  }

  lemma {:induction false} BehindInit<K, V>(s: seq<(K, V)>, k: K, ahead: set<K>)
    requires Behind(s, k, ahead) && DistinctKeys(s) && |ahead| < |s| - 1
    ensures Behind(s[..|s| - 1], k, ahead)
  {
    if s[0].0 != k {
      var x := s[0].0;
      BehindFacts(s[1..], k, ahead, {}, x);
      BehindInit(s[1..], k, ahead - {x});
      assert s[1..][..|s| - 2] == s[..|s| - 1][1..];
      BehindFacts(s[1..][..|s| - 2], k, ahead - {x}, {x}, x);
      assert ahead - {x} + {x} == ahead;
    }
  }

  /** A key that was set, or found, and not dropped since is still there with its value while fewer other
      keys than the cache holds have been set or asked for. */
  lemma {:induction false} StaysWhile<K, V>(ops: seq<Op<K, V>>, i: nat, k: K, cap: nat)
    requires 1 <= cap && i < |ops| && ops[i].key == k
    requires ops[i].SetOp? || (ops[i].GetOp? && Lookup(Run(ops[..i], cap), k).Some?)
    requires forall q | i < q < |ops| && ops[q].DropOp? :: ops[q].key != k
    requires |Others(ops, i + 1, k)| < cap
    ensures Lookup(Run(ops, cap), k).Some? && Lookup(Run(ops, cap), k) == LastSet(ops, k)
  {
    BehindOthers(ops, i, k, cap);
    BehindFacts(Run(ops, cap), k, Others(ops, i + 1, k), {}, k);
    ValuesAreLastSet(ops, cap, k);
  }

  lemma {:induction false} BehindOthers<K, V>(ops: seq<Op<K, V>>, i: nat, k: K, cap: nat)
    requires 1 <= cap && i < |ops| && ops[i].key == k
    requires ops[i].SetOp? || (ops[i].GetOp? && Lookup(Run(ops[..i], cap), k).Some?)
    requires forall q | i < q < |ops| && ops[q].DropOp? :: ops[q].key != k
    requires |Others(ops, i + 1, k)| < cap
    ensures Behind(Run(ops, cap), k, Others(ops, i + 1, k))
    decreases |ops|
  {
    hide Others, Put, Touched, Without, Behind;
    var n := |ops| - 1;
    var init, op := ops[..n], ops[n];
    var s := Run(init, cap);
    RunWellFormed(init, cap);
    OthersSnoc(ops, i + 1, k);
    if n == i {
      FrontAfter(s, op, cap);
      BehindFront(Run(ops, cap), k, Others(ops, i + 1, k));
    } else {
      assert init[..i] == ops[..i];
      BehindOthers(init, i, k, cap);
      BehindFacts(s, k, Others(init, i + 1, k), Others(ops, i + 1, k), k);
      assert Others(init, i + 1, k) + Others(ops, i + 1, k) == Others(ops, i + 1, k);
      BehindStep(s, op, k, Others(ops, i + 1, k), cap);
    }
  }

  lemma OthersSnoc<K, V>(ops: seq<Op<K, V>>, from: nat, k: K)
    requires ops != []
    ensures var init, op := ops[..|ops| - 1], ops[|ops| - 1];
            && Others(init, from, k) <= Others(ops, from, k) && |Others(init, from, k)| <= |Others(ops, from, k)|
            && (from < |ops| && !op.DropOp? && op.key != k ==> op.key in Others(ops, from, k))
  {
    var init := ops[..|ops| - 1];
    assert forall x | x in Others(init, from, k) :: x in Others(ops, from, k);
    FewerKeys(Others(init, from, k), Others(ops, from, k));
  }

  lemma FewerKeys<T>(a: set<T>, b: set<T>)
    requires a <= b
    ensures |a| <= |b|
  {
    assert a + (b - a) == b;
  }

  lemma FrontAfter<K, V>(s: seq<(K, V)>, op: Op<K, V>, cap: nat)
    requires 1 <= cap && DistinctKeys(s) && |s| <= cap
    requires op.SetOp? || (op.GetOp? && Lookup(s, op.key).Some?)
    ensures Step(s, op, cap) != [] && Step(s, op, cap)[0].0 == op.key
  {
    hide Put, Touched;
    if op.SetOp? {
      SetKeepsOthers(s, op.key, op.value, cap);
    } else {
      GetKeepsAll(s, op.key);
      LookupFound(s, op.key);
    }
  }

  lemma BehindFront<K, V>(s: seq<(K, V)>, k: K, ahead: set<K>)
    requires s != [] && (s[0].0 == k || (s[0].0 in ahead && Behind(s[1..], k, ahead)))
    ensures Behind(s, k, ahead)
  {
  }

  lemma BehindStep<K, V>(s: seq<(K, V)>, op: Op<K, V>, k: K, ahead: set<K>, cap: nat)
    requires 1 <= cap && DistinctKeys(s) && |s| <= cap && Behind(s, k, ahead) && |ahead| < cap
    requires op.key == k ==> !op.DropOp?
    requires op.key != k && !op.DropOp? ==> op.key in ahead
    ensures Behind(Step(s, op, cap), k, ahead)
  {
    hide Without, Behind, DistinctKeys, Lookup;
    BehindFacts(s, k, ahead, {}, op.key);
    if op.DropOp? {
    } else if op.key == k {
      FrontAfter(s, op, cap);
      BehindFront(Step(s, op, cap), k, ahead);
    } else {
      var j := op.key;
      if Lookup(s, j).Some? {
        var x := if op.SetOp? then (j, op.value) else (j, Lookup(s, j).value);
        assert ([x] + Without(s, j))[1..] == Without(s, j);
        BehindFront([x] + Without(s, j), k, ahead);
      } else if op.SetOp? {
        var all := [(j, op.value)] + s;
        assert all[1..] == s;
        BehindFront(all, k, ahead);
        if |s| == cap {
          ConsDistinct(s, (j, op.value));
          BehindInit(all, k, ahead);
        }
      }
    }
  }

  lemma ConsDistinct<K, V>(s: seq<(K, V)>, x: (K, V))
    requires DistinctKeys(s) && Lookup(s, x.0).None?
    ensures DistinctKeys([x] + s)
  {
    assert ([x] + s)[1..] == s;
  }

  predicate Subsequence<T(==)>(a: seq<T>, b: seq<T>) {
    a == [] || (b != [] && ((a[0] == b[0] && Subsequence(a[1..], b[1..])) || Subsequence(a, b[1..])))
  }

  lemma {:induction false} SubsequenceFacts<K, V>(a: seq<(K, V)>, b: seq<(K, V)>, k: K)
    requires Subsequence(a, b)
    ensures |a| <= |b|
    ensures Subsequence(Without(a, k), Without(b, k))
    ensures Lookup(a, k).Some? ==> Lookup(b, k).Some?
    ensures forall x | x in a :: x in b
    decreases |b|
  {
    if a != [] {
      if a[0] == b[0] && Subsequence(a[1..], b[1..]) {
        SubsequenceFacts(a[1..], b[1..], k);
        assert a == [a[0]] + a[1..] && b == [b[0]] + b[1..];
        Grow(Without(a[1..], k), Without(b[1..], k), a[0]);
      } else {
        SubsequenceFacts(a, b[1..], k);
        assert b == [b[0]] + b[1..];
        Grow(Without(a, k), Without(b[1..], k), b[0]);
      }
    }
  }

  lemma Grow<T>(a: seq<T>, b: seq<T>, x: T)
    requires Subsequence(a, b)
    ensures Subsequence([x] + a, [x] + b) && Subsequence(a, [x] + b)
  {
    assert ([x] + a)[1..] == a && ([x] + b)[1..] == b;
  }

  /** Dropping the last element of the smaller, or of both, keeps the inclusion. */
  lemma {:induction false} Truncate<T>(a: seq<T>, b: seq<T>)
    requires Subsequence(a, b) && a != []
    ensures Subsequence(a[..|a| - 1], b) && b != [] && Subsequence(a[..|a| - 1], b[..|b| - 1])
    decreases |b|
  {
    var a', b' := a[..|a| - 1], b[..|b| - 1];
    if a[0] == b[0] && Subsequence(a[1..], b[1..]) {
      if |a| > 1 {
        Truncate(a[1..], b[1..]);
        assert a'[1..] == a[1..][..|a| - 2] && b'[1..] == b[1..][..|b| - 2];
      }
    } else {
      Truncate(a, b[1..]);
      assert b'[1..] == b[1..][..|b| - 2];
    }
  }

  /** The caches of two sizes after the same operations. */
  ghost predicate Nested<K, V>(a: seq<(K, V)>, b: seq<(K, V)>, small: nat, big: nat) {
    && 1 <= small <= big && |a| <= small && |b| <= big
    && DistinctKeys(a) && DistinctKeys(b)
    && Subsequence(a, b) && |b| - |a| <= big - small
  }

  lemma NestedGet<K, V>(a: seq<(K, V)>, b: seq<(K, V)>, k: K, small: nat, big: nat)
    requires Nested(a, b, small, big)
    ensures var a', b' := Touched(a, k), Touched(b, k);
            Subsequence(a', b') && |b'| - |a'| <= big - small
  {
    hide DistinctKeys, Subsequence, Lookup, Without;
    SubsequenceFacts(a, b, k);
    WithoutFacts(a, k);
    WithoutFacts(b, k);
    LookupFound(a, k);
    if Lookup(a, k).Some? {
      SameValue(a, b, k);
      Grow(Without(a, k), Without(b, k), (k, Lookup(a, k).value));
    } else if Lookup(b, k).Some? {
      Grow(a, Without(b, k), (k, Lookup(b, k).value));
    }
  }

  lemma NestedSet<K, V>(a: seq<(K, V)>, b: seq<(K, V)>, k: K, v: V, small: nat, big: nat)
    requires Nested(a, b, small, big)
    ensures var a', b' := Put(a, k, v, small), Put(b, k, v, big);
            Subsequence(a', b') && |b'| - |a'| <= big - small
  {
    hide DistinctKeys, Subsequence, Lookup, Without;
    SubsequenceFacts(a, b, k);
    WithoutFacts(a, k);
    WithoutFacts(b, k);
    LookupFound(a, k);
    LookupFound(b, k);
    Grow(Without(a, k), Without(b, k), (k, v));
    if Lookup(a, k).None? {
      Truncate([(k, v)] + a, [(k, v)] + Without(b, k));
    }
  }

  lemma NestedDrop<K, V>(a: seq<(K, V)>, b: seq<(K, V)>, k: K, small: nat, big: nat)
    requires Nested(a, b, small, big)
    ensures var a', b' := Without(a, k), Without(b, k);
            Subsequence(a', b') && |b'| - |a'| <= big - small
  {
    hide DistinctKeys, Subsequence, Lookup, Without;
    SubsequenceFacts(a, b, k);
    WithoutFacts(a, k);
    WithoutFacts(b, k);
  }

  /** One operation applied to a smaller and a larger cache keeps them nested. */
  lemma InclusionStep<K, V>(a: seq<(K, V)>, b: seq<(K, V)>, op: Op<K, V>, small: nat, big: nat)
    requires 1 <= small <= big && |a| <= small && |b| <= big
    requires DistinctKeys(a) && DistinctKeys(b)
    requires Subsequence(a, b) && |b| - |a| <= big - small
    ensures var a', b' := Step(a, op, small), Step(b, op, big);
            Subsequence(a', b') && |b'| - |a'| <= big - small
  {
    hide DistinctKeys, Subsequence, Touched, Put, Without;
    match op
    case GetOp(k) => NestedGet(a, b, k, small, big);
    case SetOp(k, v) => NestedSet(a, b, k, v, small, big);
    case DropOp(k) => NestedDrop(a, b, k, small, big);
  }

  lemma SameValue<K, V>(a: seq<(K, V)>, b: seq<(K, V)>, k: K)
    requires Subsequence(a, b) && DistinctKeys(b) && Lookup(a, k).Some?
    ensures Lookup(b, k) == Lookup(a, k)
  {
    LookupFound(a, k);
    SubsequenceFacts(a, b, k);
    LookupMember(b, (k, Lookup(a, k).value));
  }

  lemma {:induction false} RunWellFormed<K, V>(ops: seq<Op<K, V>>, cap: nat)
    requires 1 <= cap
    ensures DistinctKeys(Run(ops, cap)) && |Run(ops, cap)| <= cap
  {
    if ops != [] {
      var s, op := Run(ops[..|ops| - 1], cap), ops[|ops| - 1];
      RunWellFormed(ops[..|ops| - 1], cap);
      RunStep(s, op, cap);
    }
  }

  lemma RunStep<K, V>(s: seq<(K, V)>, op: Op<K, V>, cap: nat)
    requires 1 <= cap && DistinctKeys(s) && |s| <= cap
    ensures DistinctKeys(Step(s, op, cap)) && |Step(s, op, cap)| <= cap
  {
    hide Without;
    var k := op.key;
    WithoutFacts(s, k);
    LookupFound(s, k);
    if op.SetOp? || (op.GetOp? && Lookup(s, k).Some?) {
      var s' := [(k, if op.SetOp? then op.value else Lookup(s, k).value)] + Without(s, k);
      assert s'[1..] == Without(s, k);
      DistinctInit(s');
    }
  }

  lemma {:induction false} DistinctInit<K, V>(s: seq<(K, V)>)
    requires s != [] && DistinctKeys(s)
    ensures DistinctKeys(s[..|s| - 1])
  {
    if |s| > 1 {
      DistinctInit(s[1..]);
      LookupInit(s[1..], s[0].0);
      assert s[..|s| - 1][1..] == s[1..][..|s| - 2];
    }
  }

  /** The inclusion theorem: the smaller cache always holds a subsequence of the larger one. */
  lemma {:induction false} Inclusion<K, V>(ops: seq<Op<K, V>>, small: nat, big: nat)
    requires 1 <= small <= big
    ensures Subsequence(Run(ops, small), Run(ops, big))
    ensures |Run(ops, big)| - |Run(ops, small)| <= big - small
  {
    if ops != [] {
      var init := ops[..|ops| - 1];
      Inclusion(init, small, big);
      RunWellFormed(init, small);
      RunWellFormed(init, big);
      InclusionStep(Run(init, small), Run(init, big), ops[|ops| - 1], small, big);
    }
  }

  /** Every hit of the smaller cache is a hit of the larger one, with the same value. */
  lemma HitsAreHits<K, V>(ops: seq<Op<K, V>>, small: nat, big: nat, k: K)
    requires 1 <= small <= big && Lookup(Run(ops, small), k).Some?
    ensures Lookup(Run(ops, big), k) == Lookup(Run(ops, small), k)
  {
    Inclusion(ops, small, big);
    RunWellFormed(ops, small);
    RunWellFormed(ops, big);
    SameValue(Run(ops, small), Run(ops, big), k);
  }

  // ----- What recency means: the history of a run -----

  /** When `k` was last touched: set, or read while present; -1 if never. */
  function LastTouch<K(==), V>(ops: seq<Op<K, V>>, k: K, cap: nat): (t: int)
    ensures -1 <= t < |ops|
  {
    if ops == [] then -1
    else
      var init, op := ops[..|ops| - 1], ops[|ops| - 1];
      if op.key == k && (op.SetOp? || (op.GetOp? && Lookup(Run(init, cap), k).Some?)) then |ops| - 1
      else LastTouch(init, k, cap)
  }

  /** The value `k` was last set to, unless dropped since. */
  function LastSet<K(==), V>(ops: seq<Op<K, V>>, k: K): Option<V> {
    if ops == [] then None
    else
      var init, op := ops[..|ops| - 1], ops[|ops| - 1];
      if op.key != k || op.GetOp? then LastSet(init, k)
      else if op.SetOp? then Some(op.value) else None
  }

  ghost predicate ByRecency<K, V>(s: seq<(K, V)>, ops: seq<Op<K, V>>, cap: nat) {
    s == [] ||
    ( && (forall x | x in s[1..] :: LastTouch(ops, s[0].0, cap) > LastTouch(ops, x.0, cap))
      && ByRecency(s[1..], ops, cap))
  }

  lemma {:induction false} WithoutByRecency<K, V>(s: seq<(K, V)>, k: K, ops: seq<Op<K, V>>, cap: nat)
    requires ByRecency(s, ops, cap)
    ensures ByRecency(Without(s, k), ops, cap)
  {
    hide LastTouch;
    if s != [] {
      WithoutByRecency(s[1..], k, ops, cap);
      WithoutFacts(s[1..], k);
      assert ([s[0]] + Without(s[1..], k))[1..] == Without(s[1..], k);
    }
  }

  /** An operation on `k` moves no other key in the history. */
  lemma {:induction false} StillByRecency<K, V>(s: seq<(K, V)>, ops: seq<Op<K, V>>, op: Op<K, V>, cap: nat)
    requires ByRecency(s, ops, cap) && forall x | x in s :: x.0 != op.key
    ensures ByRecency(s, ops + [op], cap)
  {
    assert (ops + [op])[..|ops|] == ops;
    if s != [] {
      StillByRecency(s[1..], ops, op, cap);
    }
  }

  lemma {:induction false} DropLast<K, V>(s: seq<(K, V)>, ops: seq<Op<K, V>>, cap: nat)
    requires ByRecency(s, ops, cap) && s != []
    ensures ByRecency(s[..|s| - 1], ops, cap)
    ensures forall x | x in s[..|s| - 1] :: LastTouch(ops, x.0, cap) > LastTouch(ops, s[|s| - 1].0, cap)
  {
    hide LastTouch;
    if |s| > 1 {
      var init := s[..|s| - 1];
      DropLast(s[1..], ops, cap);
      assert init == [s[0]] + s[1..][..|s| - 2] && init[1..] == s[1..][..|s| - 2];
    }
  }

  /** The list is in strictly decreasing order of last touch, so the entry at the back, the one
      `set` evicts, is the least recently touched. */
  lemma {:induction false} RecencyOrder<K, V>(ops: seq<Op<K, V>>, cap: nat)
    requires 1 <= cap
    ensures ByRecency(Run(ops, cap), ops, cap)
  {
    if ops != [] {
      var init, op := ops[..|ops| - 1], ops[|ops| - 1];
      RecencyOrder(init, cap);
      assert ops == init + [op];
      RecencyStep(Run(init, cap), init, op, cap);
    }
  }

  /** A `set` of a new key in a full cache evicts exactly the least recently touched entry. */
  lemma EvictsLeastRecent<K, V>(ops: seq<Op<K, V>>, k: K, v: V, cap: nat)
    requires 1 <= cap && |Run(ops, cap)| == cap && Lookup(Run(ops, cap), k).None?
    ensures var s := Run(ops, cap);
            && Run(ops + [SetOp(k, v)], cap) == [(k, v)] + s[..cap - 1]
            && forall x | x in s[..cap - 1] :: LastTouch(ops, x.0, cap) > LastTouch(ops, s[cap - 1].0, cap)
  {
    hide LastTouch;
    var s := Run(ops, cap);
    RecencyOrder(ops, cap);
    DropLast(s, ops, cap);
    assert (ops + [SetOp(k, v)])[..|ops|] == ops;
    assert ([(k, v)] + s)[..cap] == [(k, v)] + s[..cap - 1];
  }

  lemma RecencyStep<K, V>(s: seq<(K, V)>, ops: seq<Op<K, V>>, op: Op<K, V>, cap: nat)
    requires 1 <= cap && s == Run(ops, cap) && ByRecency(s, ops, cap)
    ensures ByRecency(Step(s, op, cap), ops + [op], cap)
  {
    hide Run, Without;
    var k := op.key;
    assert (ops + [op])[..|ops|] == ops;
    WithoutFacts(s, k);
    LookupFound(s, k);
    WithoutByRecency(s, k, ops, cap);
    StillByRecency(Without(s, k), ops, op, cap);
    if op.SetOp? || (op.GetOp? && Lookup(s, k).Some?) {
      var v := if op.SetOp? then op.value else Lookup(s, k).value;
      NewestFirst(Without(s, k), (k, v), ops, op, cap);
      DropLast([(k, v)] + Without(s, k), ops + [op], cap);
    }
  }

  lemma NewestFirst<K, V>(s: seq<(K, V)>, x: (K, V), ops: seq<Op<K, V>>, op: Op<K, V>, cap: nat)
    requires ByRecency(s, ops + [op], cap) && (forall y | y in s :: y.0 != op.key) && x.0 == op.key
    requires op.SetOp? || (op.GetOp? && Lookup(Run(ops, cap), op.key).Some?)
    ensures ByRecency([x] + s, ops + [op], cap)
  {
    hide Run;
    assert (ops + [op])[..|ops|] == ops;
    assert ([x] + s)[1..] == s;
  }

  /** Each cached value is the one its key was last set to. */
  lemma {:induction false} ValuesAreLastSet<K, V>(ops: seq<Op<K, V>>, cap: nat, k: K)
    requires 1 <= cap
    ensures Lookup(Run(ops, cap), k).Some? ==> LastSet(ops, k) == Lookup(Run(ops, cap), k)
  {
    if ops != [] {
      var init, op := ops[..|ops| - 1], ops[|ops| - 1];
      var s := Run(init, cap);
      ValuesAreLastSet(init, cap, k);
      WithoutFacts(s, op.key);
      if op.SetOp? {
        LookupInit([(op.key, op.value)] + s, k);
      }
    }
  }

  lemma {:induction false} LookupInit<K, V>(s: seq<(K, V)>, k: K)
    requires s != []
    ensures Lookup(s[..|s| - 1], k).Some? ==> Lookup(s, k) == Lookup(s[..|s| - 1], k)
  {
    if |s| > 1 {
      LookupInit(s[1..], k);
      assert s[..|s| - 1][1..] == s[1..][..|s| - 2];
    }
  }
}
