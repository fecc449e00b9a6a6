/** Byte strings and the standard-library string search the other modules rely on. */
module Text {

  datatype Option<+T> = None | Some(value: T)

  predicate OccursAt(s: string, pat: string, i: nat) {
    i + |pat| <= |s| && s[i..i + |pat|] == pat
  }

  /** `std::string::find(pat, from)`: the first occurrence at or after `from`; None is npos. */
  function Find(s: string, pat: string, from: nat): (r: Option<nat>)
    ensures r.Some? ==> from <= r.value && r.value + |pat| <= |s|
    decreases |s| - from
  {
    if from + |pat| > |s| then None
    else if OccursAt(s, pat, from) then Some(from)
    else Find(s, pat, from + 1)
  }

  lemma {:induction false} FindIsFirst(s: string, pat: string, from: nat)
    ensures var r := Find(s, pat, from);
            match r
            case Some(i) => OccursAt(s, pat, i) && forall j | from <= j < i :: !OccursAt(s, pat, j)
            case None => forall j | from <= j :: !OccursAt(s, pat, j)
    decreases |s| - from
  {
    if from + |pat| <= |s| && !OccursAt(s, pat, from) {
      FindIsFirst(s, pat, from + 1);
    }
  }

  /** The first occurrence is the one that has none before it. */
  lemma FindThere(s: string, pat: string, from: nat, i: nat)
    requires from <= i && OccursAt(s, pat, i) && forall j | from <= j < i :: !OccursAt(s, pat, j)
    ensures Find(s, pat, from) == Some(i)
  {
    FindIsFirst(s, pat, from);
  }

  predicate Absent(s: string, pat: string, from: nat) {
    forall j | from <= j < |s| :: !OccursAt(s, pat, j)
  }

  lemma FindNone(s: string, pat: string, from: nat)
    requires pat != "" && Absent(s, pat, from)
    ensures Find(s, pat, from) == None
  {
    FindIsFirst(s, pat, from);
  }

  /** Is `lit`, followed by `mark`, the text up to the first `mark`? */
  predicate UpTo(lit: string, mark: string) {
    forall j | 0 <= j < |lit| :: !OccursAt(lit + mark, mark, j)
  }

  lemma PairAt(lit: string, x: char, i: nat)
    requires i < |lit|
    ensures OccursAt(lit + [x, x], [x, x], i) <==> lit[i] == x && (i == |lit| - 1 || lit[i + 1] == x)
  {
    var s := lit + [x, x];
    assert s[i..i + 2] == [s[i], s[i + 1]];
    assert s[i] == lit[i] && s[i + 1] == if i == |lit| - 1 then x else lit[i + 1];
  }

  /** For a mark of two equal characters: the text neither holds it nor ends in that character. */
  lemma UpToPair(lit: string, x: char)
    ensures UpTo(lit, [x, x]) <==>
              && (forall i | 0 <= i < |lit| - 1 :: !(lit[i] == x && lit[i + 1] == x))
              && (lit == "" || lit[|lit| - 1] != x)
  {
    hide OccursAt;
    if UpTo(lit, [x, x]) {
      forall i | 0 <= i < |lit| - 1 ensures !(lit[i] == x && lit[i + 1] == x) {
        PairAt(lit, x, i);
      }
      if lit != "" {
        PairAt(lit, x, |lit| - 1);
      }
    } else {
      var j :| 0 <= j < |lit| && OccursAt(lit + [x, x], [x, x], j);
      PairAt(lit, x, j);
    }
  }

  lemma UpToFirst(pre: string, lit: string, mark: string, rest: string)
    requires UpTo(lit, mark)
    ensures Find(pre + lit + mark + rest, mark, |pre|) == Some(|pre| + |lit|)
  {
    hide Find;
    var s, u, o := pre + lit + mark + rest, lit + mark, |pre|;
    forall j | o <= j < o + |lit| ensures !OccursAt(s, mark, j) {
      assert !OccursAt(u, mark, j - o);
      assert s[j..j + |mark|] == u[j - o..j - o + |mark|];
    }
    FindThere(s, mark, o, o + |lit|);
  }

  lemma SliceOfSuffix<T>(s: seq<T>, i: nat, a: nat, b: nat)
    requires i <= a <= b <= |s|
    ensures s[a..b] == s[i..][a - i..b - i]
    ensures s[b..] == s[i..][b - i..]
  {
  }

  /** Equal suffixes have equal slices. */
  lemma SameSlice<T>(s: seq<T>, i: nat, u: seq<T>, j: nat, a: nat, b: nat)
    requires i <= a <= b <= |s| && j <= |u| && s[i..] == u[j..]
    ensures b - i + j <= |u| && s[a..b] == u[a - i + j..b - i + j]
    ensures s[b..] == u[b - i + j..]
  {
    assert |s[i..]| == |u[j..]|;
    SliceOfSuffix(s, i, a, b);
    SliceOfSuffix(u, j, a - i + j, b - i + j);
  }

  /** A search sees nothing but the suffix it starts at. */
  lemma {:induction false} FindShift(s: string, i: nat, u: string, j: nat, pat: string)
    requires i <= |s| && j <= |u| && s[i..] == u[j..]
    ensures Find(s, pat, i).Some? <==> Find(u, pat, j).Some?
    ensures Find(s, pat, i).Some? ==> Find(s, pat, i).value - i == Find(u, pat, j).value - j
    decreases |s| - i
  {
    assert |s| - i == |s[i..]| == |u[j..]| == |u| - j;
    if i + |pat| <= |s| {
      SameSlice(s, i, u, j, i, i + |pat|);
      if i < |s| && !OccursAt(s, pat, i) {
        SameSlice(s, i, u, j, i, i + 1);
        FindShift(s, i + 1, u, j + 1, pat);
      }
    }
  }

  lemma Assoc(a: string, b: string, c: string)
    ensures a + b + c == a + (b + c)
  {
  }

  lemma Reassociate(a: string, b: string, c: string, d: string)
    ensures a + b + c + d == a + (b + c + d)
    ensures "" + d == d && b + "" == b
  {
  }

  /** The length of the prefix of `s` starting at `from` that avoids `c`, as an index. */
  function IndexOf(s: string, c: char, from: nat): (r: nat)
    requires from <= |s|
    ensures from <= r <= |s|
    ensures forall j | from <= j < r :: s[j] != c
    ensures r < |s| ==> s[r] == c
    decreases |s| - from
  {
    if from == |s| || s[from] == c then from else IndexOf(s, c, from + 1)
  }

  /** Reading up to a delimiter: `part` does not hold it, and it follows or the text ends. */
  lemma ReadUntil(s: string, from: nat, part: string, c: char, rest: string)
    requires from <= |s| && s[from..] == part + rest
    requires c !in part && (rest == "" || rest[0] == c)
    ensures var r := from + |part|;
            r <= |s| && IndexOf(s, c, from) == r && s[from..r] == part && s[r..] == rest
  {
    hide IndexOf;
    var r := from + |part|;
    assert |s[from..]| == |part| + |rest|;
    SliceOfSuffix(s, from, from, r);
    assert forall j | from <= j < r :: s[j] == s[from..r][j - from];
    assert rest != "" ==> s[r..][0] == c;
  }

  /** `std::string_view` comparison: lexicographic on the bytes. */
  predicate Less(a: string, b: string) {
    b != [] && (a == [] || a[0] < b[0] || (a[0] == b[0] && Less(a[1..], b[1..])))
  }

  /** One string is less than another exactly when it is a proper prefix of it, or has the smaller
      character where they first differ. */
  lemma {:induction false} LessExactlyWhen(a: string, b: string)
    ensures Less(a, b) <==>
              (|a| < |b| && b[..|a|] == a)
              || exists i | 0 <= i < |a| && i < |b| :: a[..i] == b[..i] && a[i] < b[i]
  {
    if a == [] || b == [] {
    } else if a[0] != b[0] {
      assert a[..0] == b[..0];
      if |a| < |b| { assert b[..|a|][0] == b[0]; }
      forall i | 0 < i < |a| && i < |b| ensures a[..i] != b[..i] {
        assert a[..i][0] == a[0] && b[..i][0] == b[0];
      }
    } else {
      var x, y := a[1..], b[1..];
      LessExactlyWhen(x, y);
      assert a == [a[0]] + x && b == [b[0]] + y;
      assert |a| < |b| ==> b[..|a|] == [b[0]] + y[..|x|];
      assert |a| < |b| ==> (b[..|a|] == a <==> y[..|x|] == x) by {
        if |a| < |b| { HeadTail(b[..|a|], a); }
      }
      forall i | 0 <= i < |x| && i < |y| ensures a[..i + 1] == b[..i + 1] <==> x[..i] == y[..i] {
        assert a[..i + 1] == [a[0]] + x[..i] && b[..i + 1] == [b[0]] + y[..i];
        HeadTail(a[..i + 1], b[..i + 1]);
      }
      if i: nat :| i < |a| && i < |b| && a[..i] == b[..i] && a[i] < b[i] {
        assert a[..i - 1 + 1] == b[..i - 1 + 1] && x[i - 1] < y[i - 1];
      }
      if i: nat :| i < |x| && i < |y| && x[..i] == y[..i] && x[i] < y[i] {
        assert a[..i + 1] == b[..i + 1] && a[i + 1] < b[i + 1];
      }
    }
  }

  lemma HeadTail(a: string, b: string)
    requires a != "" && b != ""
    ensures a == b <==> a[0] == b[0] && a[1..] == b[1..]
  {
    assert a == [a[0]] + a[1..] && b == [b[0]] + b[1..];
  }

  lemma {:induction false} LessTotal(a: string, b: string)
    ensures !Less(a, a)
    ensures !Less(a, b) && !Less(b, a) ==> a == b
  {
    if a != [] {
      LessTotal(a[1..], if b == [] then [] else b[1..]);
      if b != [] && a[0] == b[0] && a[1..] == b[1..] {
        assert a == [a[0]] + a[1..] == b;
      }
    }
  }

  lemma {:induction false} LessTrans(a: string, b: string, c: string)
    ensures !Less(b, a) && Less(b, c) ==> Less(a, c)
    ensures !Less(b, a) && !Less(c, b) ==> !Less(c, a)
  {
    if a != [] && b != [] && c != [] {
      LessTrans(a[1..], b[1..], c[1..]);
    }
  }

  /** `isspace` in the C locale. */
  predicate IsSpace(c: char) {
    c == ' ' || '\t' <= c <= '\r'
  }

  /** The characters both parsers trim. */
  predicate IsBlank(c: char) {
    c in " \t\r\n"
  }

  function TrimStart(s: string): string {
    if s != "" && IsBlank(s[0]) then TrimStart(s[1..]) else s
  }

  function TrimEnd(s: string): string {
    if s != "" && IsBlank(s[|s| - 1]) then TrimEnd(s[..|s| - 1]) else s
  }

  function Trim(s: string): string {
    TrimEnd(TrimStart(s))
  }

  lemma SpaceTable(c: char)
    ensures IsSpace(c) <==> c as int in [32, 9, 10, 11, 12, 13]
    ensures IsBlank(c) <==> c as int in [32, 9, 13, 10]
  {
  }

  /** Trimming takes all the blanks at both ends and nothing else. */
  lemma TrimIsExact(a: string, s: string, b: string)
    requires (forall i | 0 <= i < |a| :: IsBlank(a[i])) && (forall i | 0 <= i < |b| :: IsBlank(b[i]))
    requires s != "" ==> !IsBlank(s[0]) && !IsBlank(s[|s| - 1])
    ensures Trim(a + s + b) == s
  {
    Assoc(a, s, b);
    hide IsBlank;
    TrimStartSkips(a, s + b);
    if s == "" {
      assert s + b == b;
      TrimStartSkips(b, "");
      assert b + "" == b;
    } else {
      assert (s + b)[0] == s[0];
      TrimEndSkips(s, b);
    }
  }

  lemma {:induction false} TrimStartSkips(a: string, t: string)
    requires forall i | 0 <= i < |a| :: IsBlank(a[i])
    ensures TrimStart(a + t) == TrimStart(t)
  {
    hide IsBlank;
    if a == "" {
      assert a + t == t;
    } else {
      TrimStartSkips(a[1..], t);
      assert (a + t)[1..] == a[1..] + t;
    }
  }

  lemma {:induction false} TrimEndSkips(s: string, b: string)
    requires forall i | 0 <= i < |b| :: IsBlank(b[i])
    requires s != "" && !IsBlank(s[|s| - 1])
    ensures TrimEnd(s + b) == s
    decreases |b|
  {
    hide IsBlank;
    if b == "" {
      assert s + b == s;
    } else {
      var init := b[..|b| - 1];
      TrimEndSkips(s, init);
      assert (s + b)[..|s + b| - 1] == s + init && (s + b)[|s + b| - 1] == b[|b| - 1];
    }
  }

  /** `std::map::emplace`: an existing key keeps its value. */
  function Emplace(m: map<string, string>, k: string, v: string): map<string, string> {
    if k in m then m else m[k := v]
  }
}
