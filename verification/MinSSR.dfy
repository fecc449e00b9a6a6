/** util/MinSSR.hpp: the `{{tag}}` template engine, rendered directly or compiled once. */
module MinSSR {
  import opened Text

  // ----- What a template means -----

  /** A template: literal text, a tag name, and the rest.  The final text may hold unclosed braces. */
  datatype Template = End(text: string) | Hole(lit: string, name: string, rest: Template)

  /** Tags are found left to right; each runs from `{{` to the first `}}` behind it. */
  function Parse(t: string, i: nat): Template
    requires i <= |t|
    decreases |t| - i
  {
    match Find(t, "{{", i)
    case None => End(t[i..])
    case Some(o) =>
      match Find(t, "}}", o + 2)
      case None => End(t[i..])
      case Some(c) => Hole(t[i..o], t[o + 2..c], Parse(t, c + 2))
  }

  /** What one round of a scanning loop learns about the text from `i` on. */
  lemma ParseStep(t: string, i: nat)
    requires i <= |t|
    ensures Find(t, "{{", i).None? ==> Parse(t, i) == End(t[i..])
    ensures Find(t, "{{", i).Some? ==>
              var o := Find(t, "{{", i).value;
              match Find(t, "}}", o + 2)
              case None => Parse(t, i) == End(t[i..])
              case Some(c) => Parse(t, i) == Hole(t[i..o], t[o + 2..c], Parse(t, c + 2))
  {
    hide Find;
  }

  function Source(a: Template): string {
    match a
    case End(text) => text
    case Hole(lit, name, rest) => lit + Braced(name) + Source(rest)
  }

  function Braced(name: string): (r: string)
    ensures |r| == |name| + 4
  {
    "{{" + name + "}}"
  }

  /** Nothing of the text is lost. */
  lemma {:induction false} ParseSource(t: string, i: nat)
    requires i <= |t|
    ensures Source(Parse(t, i)) == t[i..]
    decreases |t| - i
  {
    hide Find, OccursAt, Parse, Braced;
    ParseStep(t, i);
    FindIsFirst(t, "{{", i);
    if Find(t, "{{", i).Some? {
      var o := Find(t, "{{", i).value;
      FindIsFirst(t, "}}", o + 2);
      if Find(t, "}}", o + 2).Some? {
        var c := Find(t, "}}", o + 2).value;
        ParseSource(t, c + 2);
        TagSlices(t, i, o, c);
      }
    }
  }

  lemma TagSlices(t: string, i: nat, o: nat, c: nat)
    requires i <= o && o + 2 <= c && OccursAt(t, "{{", o) && OccursAt(t, "}}", c)
    ensures t[i..] == t[i..o] + Braced(t[o + 2..c]) + t[c + 2..]
  {
    assert t[o..c + 2] == t[o..o + 2] + t[o + 2..c] + t[c..c + 2] == Braced(t[o + 2..c]);
  }

  /** Only the text ahead matters, wherever in whatever string it sits. */
  lemma {:induction false} ParseShift(t: string, i: nat, u: string, j: nat)
    requires i <= |t| && j <= |u| && t[i..] == u[j..]
    ensures Parse(t, i) == Parse(u, j)
    decreases |t| - i
  {
    hide Find, Parse;
    ParseStep(t, i);
    ParseStep(u, j);
    FindShift(t, i, u, j, "{{");
    if Find(t, "{{", i).Some? {
      var o := Find(t, "{{", i).value;
      var p := o - i + j;
      SameSlice(t, i, u, j, i, o);
      SameSlice(t, i, u, j, o, o + 2);
      FindShift(t, o + 2, u, p + 2, "}}");
      if Find(t, "}}", o + 2).Some? {
        var c := Find(t, "}}", o + 2).value;
        SameSlice(t, i, u, j, o + 2, c);
        SameSlice(t, i, u, j, c, c + 2);
        ParseShift(t, c + 2, u, c + 2 - i + j);
      }
    }
  }

  /** Values for the known tags, and what to put for the others (None: leave them as they are). */
  datatype Env = Env(known: map<string, string>, unknown: Option<string>)

  function Value(env: Env, name: string): string {
    if name in env.known then env.known[name]
    else if env.unknown.Some? then env.unknown.value
    else Braced(name)
  }

  function Render(a: Template, env: Env): string {
    match a
    case End(text) => text
    case Hole(lit, name, rest) => lit + Value(env, name) + Render(rest, env)
  }

  // ----- Rendering, one tag at a time -----

  /** Where the first tag of such a text is. */
  lemma FirstTag(lit: string, name: string, rest: string)
    requires UpTo(lit, "{{") && UpTo(name, "}}")
    ensures var t, end := lit + "{{" + name + "}}" + rest, |lit| + |name| + 4;
            |t| >= end && Parse(t, 0) == Hole(lit, name, Parse(t, end)) && Parse(t, end) == Parse(rest, 0)
  {
    hide Find, Parse;
    var t := lit + "{{" + name + "}}" + rest;
    var o, c := |lit|, |lit| + 2 + |name|;
    assert t == "" + lit + "{{" + (name + "}}" + rest);
    UpToFirst("", lit, "{{", name + "}}" + rest);
    assert t == (lit + "{{") + name + "}}" + rest;
    UpToFirst(lit + "{{", name, "}}", rest);
    ParseStep(t, 0);
    assert t[0..o] == lit && t[o + 2..c] == name && t[c + 2..] == rest[0..];
    ParseShift(t, c + 2, rest, 0);
  }

  /** The text before a tag is kept, the tag replaced by its value if it has one, by the default if there is
      one, and else left alone, and the text behind it rendered in the same way. */
  lemma RenderedTag(lit: string, name: string, rest: string, env: Env)
    requires UpTo(lit, "{{") && UpTo(name, "}}")
    ensures Render(Parse(lit + "{{" + name + "}}" + rest, 0), env) ==
              lit + (if name in env.known then env.known[name]
                     else match env.unknown case Some(text) => text case None => "{{" + name + "}}")
              + Render(Parse(rest, 0), env)
  {
    hide Parse;
    FirstTag(lit, name, rest);
  }

  /** A text in which no tag is opened, or the first one opened is not closed, stays as it is. */
  lemma RenderedPlain(lit: string, rest: string, env: Env)
    ensures Absent(lit, "{{", 0) ==> Render(Parse(lit, 0), env) == lit
    ensures UpTo(lit, "{{") && Absent(rest, "}}", 0) ==>
              Render(Parse(lit + "{{" + rest, 0), env) == lit + "{{" + rest
  {
    hide Find;
    assert lit[0..] == lit;
    if Absent(lit, "{{", 0) {
      FindNone(lit, "{{", 0);
    }
    if UpTo(lit, "{{") && Absent(rest, "}}", 0) {
      Unclosed(lit, rest);
    }
  }

  lemma Unclosed(lit: string, rest: string)
    requires UpTo(lit, "{{") && Absent(rest, "}}", 0)
    ensures Parse(lit + "{{" + rest, 0) == End(lit + "{{" + rest)
    ensures Find(lit + "{{" + rest, "{{", 0).Some?
  {
    hide Find;
    var t := lit + "{{" + rest;
    assert t == "" + lit + "{{" + rest && t[0..] == t && t[|lit| + 2..] == rest[0..];
    UpToFirst("", lit, "{{", rest);
    FindNone(rest, "}}", 0);
    FindShift(t, |lit| + 2, rest, 0, "}}");
  }

  // ----- Sorted tags -----

  ghost predicate Sorted(tags: seq<string>) {
    forall i, j | 0 <= i < j < |tags| :: !Less(tags[j], tags[i])
  }

  /** First position of `tag`, or |tags| when it is absent. */
  function Slot(tags: seq<string>, tag: string): (r: nat)
    ensures r <= |tags|
    ensures r < |tags| ==> tags[r] == tag
  {
    if tags == [] || tags[0] == tag then 0 else 1 + Slot(tags[1..], tag)
  }

  lemma {:induction false} SlotIsFirst(tags: seq<string>, tag: string)
    ensures forall k | 0 <= k < Slot(tags, tag) :: tags[k] != tag
    ensures tag in tags <==> Slot(tags, tag) < |tags|
  {
    if tags != [] && tags[0] != tag {
      SlotIsFirst(tags[1..], tag);
      forall k | 0 <= k < Slot(tags, tag) ensures tags[k] != tag {
        if k > 0 { assert tags[k] == tags[1..][k - 1]; }
      }
      assert tags == [tags[0]] + tags[1..];
    }
  }

  /** `index`: a lower-bound search by halving, then one equality test. */
  method Index(sortedTags: seq<string>, tag: string) returns (r: nat)
    requires Sorted(sortedTags)
    ensures r == Slot(sortedTags, tag)
  {
    var first, len := 0, |sortedTags|;
    while len > 0
      invariant 0 <= first <= first + len <= |sortedTags|
      invariant forall k | 0 <= k < first :: Less(sortedTags[k], tag)
      invariant forall k | first + len <= k < |sortedTags| :: !Less(sortedTags[k], tag)
    {
      var half := len / 2;
      var middle := first + half;
      forall k | 0 <= k < |sortedTags|
        ensures k <= middle && Less(sortedTags[middle], tag) ==> Less(sortedTags[k], tag)
        ensures middle <= k && !Less(sortedTags[middle], tag) ==> !Less(sortedTags[k], tag)
      {
        if k < middle { LessTrans(sortedTags[k], sortedTags[middle], tag); }
        if middle < k { LessTrans(tag, sortedTags[middle], sortedTags[k]); }
      }
      if Less(sortedTags[middle], tag) {
        first, len := middle + 1, len - half - 1;
      } else {
        len := half;
      }
    }
    LowerBoundIsSlot(sortedTags, tag, first);
    if first == |sortedTags| || sortedTags[first] != tag {
      return |sortedTags|;
    }
    return first;
  }

  lemma LowerBoundIsSlot(tags: seq<string>, tag: string, first: nat)
    requires Sorted(tags) && first <= |tags|
    requires forall k | 0 <= k < first :: Less(tags[k], tag)
    requires forall k | first <= k < |tags| :: !Less(tags[k], tag)
    ensures Slot(tags, tag) == if first < |tags| && tags[first] == tag then first else |tags|
  {
    var s := Slot(tags, tag);
    SlotIsFirst(tags, tag);
    LessTotal(tag, tag);
    if s < |tags| && s > first {
      LessTotal(tag, tags[first]);
    }
  }

  /** The environment a tag array and a substitution array stand for.  A substitution array
      longer than the tag array answers unknown tags with its last entry; a shorter one leaves
      the tags it does not reach alone. */
  function EnvOf(tags: seq<string>, subs: seq<string>): Env {
    Env(map k | k in tags && Slot(tags, k) < |subs| :: subs[Slot(tags, k)],
        if |subs| > |tags| then Some(subs[|subs| - 1]) else None)
  }

  /** Entry `i` of the substitutions is the value of tag `i`, and of no other name. */
  lemma EnvIs(tags: seq<string>, subs: seq<string>, name: string, i: nat)
    requires i <= |tags| && forall j | 0 <= j < i :: tags[j] != name
    ensures var env := EnvOf(tags, subs);
            && (i < |tags| && tags[i] == name ==>
                  (name in env.known <==> i < |subs|) && (i < |subs| ==> env.known[name] == subs[i]))
            && (i == |tags| ==> name !in env.known)
            && env.unknown == if |subs| > |tags| then Some(subs[|subs| - 1]) else None
  {
    SlotIsFirst(tags, name);
  }

  /** The text rendering puts for `name`, by its slot. */
  function Picked(tags: seq<string>, subs: seq<string>, name: string): string {
    var idx := Slot(tags, name);
    if idx >= |subs| then Braced(name)
    else if idx < |tags| then subs[idx] else subs[|subs| - 1]
  }

  function RenderBySlot(a: Template, tags: seq<string>, subs: seq<string>): string {
    match a
    case End(text) => text
    case Hole(lit, name, rest) => lit + Picked(tags, subs, name) + RenderBySlot(rest, tags, subs)
  }

  lemma {:induction false} RenderBySlotIsRender(a: Template, tags: seq<string>, subs: seq<string>)
    ensures RenderBySlot(a, tags, subs) == Render(a, EnvOf(tags, subs))
  {
    if a.Hole? {
      PickedIsValue(tags, subs, a.name);
      RenderBySlotIsRender(a.rest, tags, subs);
    }
  }

  lemma PickedIsValue(tags: seq<string>, subs: seq<string>, name: string)
    ensures Picked(tags, subs, name) == Value(EnvOf(tags, subs), name)
  {
    SlotIsFirst(tags, name);
  }

  // ----- Direct rendering -----

  type Point = (nat, int)

  /** What the first pass of `mustache` records, in template coordinates (`i`: where `a` starts).
      A negative entry is an unknown tag and encodes the length of its name. */
  function Replacements(a: Template, i: nat, tags: seq<string>, n: nat): seq<Point> {
    match a
    case End(_) => []
    case Hole(lit, name, rest) =>
      var idx, next := Slot(tags, name), i + |lit| + 4 + |name|;
      if idx < n then
        [(i + |lit|, if idx == |tags| then -|name| - 1 else idx)] + Replacements(rest, next, tags, n)
      else Replacements(rest, next, tags, n)
  }

  function Chosen(p: Point, subs: seq<string>): string
    requires subs != [] && p.1 < |subs|
  {
    if p.1 < 0 then subs[|subs| - 1] else subs[p.1]
  }

  /** How many template bytes the tag behind a recorded point takes. */
  function Span(p: Point, tags: seq<string>): (n: nat)
    requires p.1 < |tags|
    ensures n >= 4
  {
    4 + if p.1 < 0 then -p.1 - 1 else |tags[p.1]|
  }

  lemma Regroup(p: string, q: string, x: string, y: string, z: string)
    ensures p + q + (x + y + z) == (p + q + x) + y + z
  {
  }

  lemma SplitAt(t: string, i: nat, lit: string, tag: string, rest: string)
    requires i <= |t| && t[i..] == lit + tag + rest
    ensures i + |lit| + |tag| <= |t|
    ensures t[i..i + |lit|] == lit && t[i + |lit| + |tag|..] == rest
  {
    assert |t[i..]| == |lit| + |tag| + |rest|;
    SliceOfSuffix(t, i, i, i + |lit|);
    SliceOfSuffix(t, i, i, i + |lit| + |tag|);
  }

  /** One step of the second pass consumes exactly the text up to and with the next replaced tag. */
  lemma {:induction false} NextReplacement(a: Template, i: nat, tags: seq<string>, subs: seq<string>)
    returns (lit: string, tag: string, rest: Template)
    ensures var r := Replacements(a, i, tags, |subs|);
            if r == [] then RenderBySlot(a, tags, subs) == Source(a) else
            && r[0].1 < |tags| && r[0].1 < |subs| && subs != []
            && r[0].0 == i + |lit| && Span(r[0], tags) == |tag|
            && Source(a) == lit + tag + Source(rest)
            && RenderBySlot(a, tags, subs) == lit + Chosen(r[0], subs) + RenderBySlot(rest, tags, subs)
            && r[1..] == Replacements(rest, r[0].0 + |tag|, tags, |subs|)
  {
    hide Slot, Braced;
    lit, tag, rest := "", "", a;
    if a.Hole? {
      lit, tag, rest := a.lit, Braced(a.name), a.rest;
      if Slot(tags, a.name) >= |subs| {
        var next := i + |a.lit| + 4 + |a.name|;
        lit, tag, rest := NextReplacement(a.rest, next, tags, subs);
        var r := Replacements(a.rest, next, tags, |subs|);
        if r != [] {
          Regroup(a.lit, Braced(a.name), lit, tag, Source(rest));
          Regroup(a.lit, Braced(a.name), lit, Chosen(r[0], subs), RenderBySlot(rest, tags, subs));
          lit := a.lit + Braced(a.name) + lit;
        }
      }
    }
  }

  /** The output length as the first pass adds it up. */
  function Planned(a: Template, tags: seq<string>, subs: seq<string>): nat {
    match a
    case End(text) => |text|
    case Hole(lit, name, rest) =>
      var idx := Slot(tags, name);
      |lit| + (if idx < |subs| then |subs[idx]| else 4 + |name|) + Planned(rest, tags, subs)
  }

  function Unknowns(a: Template, tags: seq<string>): nat {
    match a
    case End(_) => 0
    case Hole(_, name, rest) => (if Slot(tags, name) < |tags| then 0 else 1) + Unknowns(rest, tags)
  }

  /** The planned length is exact for the two supported array sizes; for longer substitution
      arrays the plan charges each unknown tag `extra` bytes too many (or too few). */
  lemma {:induction false} PlannedLength(a: Template, tags: seq<string>, subs: seq<string>, extra: int)
    requires |subs| > |tags| ==> extra == |subs[|tags|]| - |subs[|subs| - 1]|
    ensures |subs| <= |tags| ==> Planned(a, tags, subs) == |RenderBySlot(a, tags, subs)|
    ensures |subs| > |tags| ==>
              Planned(a, tags, subs) - |RenderBySlot(a, tags, subs)| == Unknowns(a, tags) * extra
  {
    if a.Hole? {
      PlannedLength(a.rest, tags, subs, extra);
      var n := Unknowns(a.rest, tags);
      assert (1 + n) * extra == extra + n * extra;
      assert (0 + n) * extra == n * extra;
    }
  }

  /** `mustache`: collect the replacements and the output length, then copy. `reserved` is the
      capacity asked for; that every subtraction stays a `nat` is the absence of wrap-around. */
  method Mustache(t: string, tags: seq<string>, subs: seq<string>) returns (ret: string, reserved: nat)
    requires Sorted(tags)
    ensures ret == Render(Parse(t, 0), EnvOf(tags, subs))
    ensures |subs| <= |tags| + 1 ==> reserved == |ret|
    ensures |subs| > |tags| ==>
              reserved - |ret| == Unknowns(Parse(t, 0), tags) * (|subs[|tags|]| - |subs[|subs| - 1]|)
  {
    hide Parse, Slot, Braced, Replacements, RenderBySlot, Render, EnvOf, Source, Planned, Unknowns;
    ghost var whole := Parse(t, 0);
    ParseSource(t, 0);
    var replacements: seq<Point>;
    replacements, reserved := FindReplacements(t, tags, subs);
    PlannedLength(whole, tags, subs, if |subs| > |tags| then |subs[|tags|]| - |subs[|subs| - 1]| else 0);
    RenderBySlotIsRender(whole, tags, subs);

    ret := "";
    var i: nat := 0;
    ghost var rest := whole;
    for k := 0 to |replacements|
      invariant i <= |t| && t[i..] == Source(rest)
      invariant replacements[k..] == Replacements(rest, i, tags, |subs|)
      invariant ret + RenderBySlot(rest, tags, subs) == RenderBySlot(whole, tags, subs)
    {
      var p := replacements[k];
      assert p == replacements[k..][0] && replacements[k + 1..] == replacements[k..][1..];
      ghost var lit, tag, next := NextReplacement(rest, i, tags, subs);
      SplitAt(t, i, lit, tag, Source(next));
      Reassociate(ret, lit, Chosen(p, subs), RenderBySlot(next, tags, subs));
      var l := p.0 - i;
      ret := ret + t[i..i + l];
      if p.1 < 0 {
        ret := ret + subs[|subs| - 1];
      } else {
        ret := ret + subs[p.1];
      }
      i := i + l;
      i := i + 4;
      if p.1 < 0 {
        i := i - (p.1 + 1);
      } else {
        i := i + |tags[p.1]|;
      }
      rest := next;
    }
    ghost var _, _, _ := NextReplacement(rest, i, tags, subs);
    ret := ret + t[i..];
  }

  lemma Snoc<T>(a: seq<T>, x: T, b: seq<T>)
    ensures a + ([x] + b) == (a + [x]) + b
  {
  }

  lemma PlanStep(a: Template, i: nat, tags: seq<string>, subs: seq<string>)
    ensures match a
            case End(text) => Replacements(a, i, tags, |subs|) == [] && Planned(a, tags, subs) == |text|
            case Hole(lit, name, rest) =>
              var idx := Slot(tags, name);
              var next := i + |lit| + 4 + |name|;
              var more := Replacements(rest, next, tags, |subs|);
              if idx < |subs| then
                && Replacements(a, i, tags, |subs|)
                == [(i + |lit|, if idx == |tags| then -|name| - 1 else idx)] + more
                && Planned(a, tags, subs) == |lit| + |subs[idx]| + Planned(rest, tags, subs)
              else
                && Replacements(a, i, tags, |subs|) == more
                && Planned(a, tags, subs) == |lit| + 4 + |name| + Planned(rest, tags, subs)
  {
    hide Slot;
  }

  /** The first pass of `mustache`. */
  method FindReplacements(t: string, tags: seq<string>, subs: seq<string>)
    returns (replacements: seq<Point>, len: nat)
    requires Sorted(tags)
    ensures replacements == Replacements(Parse(t, 0), 0, tags, |subs|)
    ensures len == Planned(Parse(t, 0), tags, subs)
  {
    hide Find, Slot, Parse, Sorted, Less, Replacements, Planned;
    replacements := [];
    len := |t|;
    var i: nat := 0;
    ghost var written: nat := 0;
    while true
      invariant i <= |t|
      invariant len == written + |t| - i
      invariant replacements + Replacements(Parse(t, i), i, tags, |subs|)
             == Replacements(Parse(t, 0), 0, tags, |subs|)
      invariant written + Planned(Parse(t, i), tags, subs) == Planned(Parse(t, 0), tags, subs)
      decreases |t| - i
    {
      ParseStep(t, i);
      PlanStep(Parse(t, i), i, tags, subs);
      var found := Find(t, "{{", i);
      if found.None? {
        break;
      }
      var start := found.value + 2;
      var end := Find(t, "}}", start);
      if end.None? {
        break;
      }
      var tag := t[start..end.value];
      var idx := Index(tags, tag);
      ghost var a := Parse(t, i);
      if idx < |subs| {
        var p := (found.value, if idx == |tags| then -|tag| - 1 else idx);
        Snoc(replacements, p, Replacements(a.rest, end.value + 2, tags, |subs|));
        replacements := replacements + [p];
        len := len - 4;
        len := len - |tag|;
        len := len + |subs[idx]|;
        written := written + |a.lit| + |subs[idx]|;
      } else {
        written := written + |a.lit| + 4 + |tag|;
      }
      i := end.value + 2;
    }
  }

  // ----- Compile once, render many -----

  /** The points a parse records, in stripped-text coordinates (`off`: stripped bytes so far). */
  function Points(a: Template, off: nat, tags: seq<string>, leave: bool): seq<Point> {
    match a
    case End(_) => []
    case Hole(lit, name, rest) =>
      var idx, at := Slot(tags, name), off + |lit|;
      if idx < |tags| then [(at, idx)] + Points(rest, at, tags, leave)
      else if leave then Points(rest, at + 4 + |name|, tags, leave)
      else [(at, -1 - |name|)] + Points(rest, at, tags, leave)
  }

  /** The template without the tags that will be replaced. */
  function Stripped(a: Template, tags: seq<string>, leave: bool): string {
    match a
    case End(text) => text
    case Hole(lit, name, rest) =>
      if leave && Slot(tags, name) == |tags| then lit + Braced(name) + Stripped(rest, tags, leave)
      else lit + Stripped(rest, tags, leave)
  }

  /** What `process` assembles from the stripped text and the points, from `prev` on. */
  ghost predicate Fillable(stripped: string, points: seq<Point>, prev: nat, subs: seq<string>) {
    if points == [] then prev <= |stripped|
    else prev <= points[0].0 <= |stripped| && subs != [] && points[0].1 < |subs|
         && Fillable(stripped, points[1..], points[0].0, subs)
  }

  ghost function Fill(stripped: string, points: seq<Point>, prev: nat, subs: seq<string>): string
    requires Fillable(stripped, points, prev, subs)
  {
    if points == [] then stripped[prev..]
    else stripped[prev..points[0].0] + Chosen(points[0], subs) + Fill(stripped, points[1..], points[0].0, subs)
  }

  /** One round of a loop over the points. */
  lemma FillCons(stripped: string, points: seq<Point>, k: nat, prev: nat, subs: seq<string>)
    requires k < |points| && Fillable(stripped, points[k..], prev, subs)
    ensures var p := points[k];
            && prev <= p.0 <= |stripped| && subs != [] && p.1 < |subs|
            && Fillable(stripped, points[k + 1..], p.0, subs)
            && Fill(stripped, points[k..], prev, subs)
            == stripped[prev..p.0] + Chosen(p, subs) + Fill(stripped, points[k + 1..], p.0, subs)
  {
    assert points[k..][0] == points[k] && points[k..][1..] == points[k + 1..];
  }

  /** One round of the joining loop. */
  lemma FillRound(ret: string, stripped: string, points: seq<Point>, k: nat, prev: nat, subs: seq<string>)
    requires k < |points| && Fillable(stripped, points[k..], prev, subs)
    ensures var p := points[k];
            && prev <= p.0 <= |stripped| && subs != [] && p.1 < |subs|
            && Fillable(stripped, points[k + 1..], p.0, subs)
            && ret + Fill(stripped, points[k..], prev, subs)
            == ret + stripped[prev..p.0] + (if p.1 < 0 then subs[|subs| - 1] else subs[p.1])
               + Fill(stripped, points[k + 1..], p.0, subs)
  {
    hide Fill, Fillable;
    FillCons(stripped, points, k, prev, subs);
    var p := points[k];
    Reassociate(ret, stripped[prev..p.0], Chosen(p, subs), Fill(stripped, points[k + 1..], p.0, subs));
  }

  lemma FillStart(stripped: string, points: seq<Point>, subs: seq<string>)
    requires Fillable(stripped, points, 0, subs)
    ensures points[0..] == points && "" + Fill(stripped, points, 0, subs) == Fill(stripped, points, 0, subs)
  {
  }

  lemma FillEnd(stripped: string, points: seq<Point>, prev: nat, subs: seq<string>)
    requires Fillable(stripped, points[|points|..], prev, subs)
    ensures prev <= |stripped| && Fill(stripped, points[|points|..], prev, subs) == stripped[prev..]
  {
  }

  /** One step of the stripping pass: from a recorded point back to template coordinates. */
  lemma {:induction false} NextPoint(a: Template, off: nat, tags: seq<string>, leave: bool)
    returns (lit: string, tag: string, rest: Template)
    ensures var r := Points(a, off, tags, leave);
            if r == [] then Stripped(a, tags, leave) == Source(a) else
            && r[0].0 == off + |lit| && r[0].1 < |tags| && Span(r[0], tags) == |tag|
            && Source(a) == lit + tag + Source(rest)
            && Stripped(a, tags, leave) == lit + Stripped(rest, tags, leave)
            && r[1..] == Points(rest, r[0].0, tags, leave)
  {
    hide Slot, Braced;
    lit, tag, rest := "", "", a;
    if a.Hole? {
      lit, tag, rest := a.lit, Braced(a.name), a.rest;
      if leave && Slot(tags, a.name) == |tags| {
        var at := off + |a.lit| + 4 + |a.name|;
        lit, tag, rest := NextPoint(a.rest, at, tags, leave);
        if Points(a.rest, at, tags, leave) != [] {
          Regroup(a.lit, Braced(a.name), lit, tag, Source(rest));
          Regroup(a.lit, Braced(a.name), lit, "", Stripped(rest, tags, leave));
          lit := a.lit + Braced(a.name) + lit;
        }
      }
    }
  }

  /** The compiler is correct: filling the compiled form from `prev` on, where `lit` and then the
      stripped template follow, yields `lit` and then the meaning of the template. */
  lemma {:induction false} FillIsRender(a: Template, s: string, prev: nat, lit: string, tags: seq<string>,
                                        leave: bool, subs: seq<string>)
    requires |subs| == |tags| + if leave then 0 else 1
    requires prev <= |s| && s[prev..] == lit + Stripped(a, tags, leave)
    ensures var r := Points(a, prev + |lit|, tags, leave);
            && Fillable(s, r, prev, subs)
            && Fill(s, r, prev, subs) == lit + RenderBySlot(a, tags, subs)
  {
    hide Slot, Braced, Points, Stripped, RenderBySlot, Fill, Fillable;
    if a.End? {
      FillLast(a, s, prev, lit, tags, leave, subs);
    } else {
      HoleSteps(a, prev + |lit|, tags, leave, subs);
      var stripped, rendered := Stripped(a.rest, tags, leave), RenderBySlot(a.rest, tags, subs);
      if leave && Slot(tags, a.name) == |tags| {
        var tag := Braced(a.name);
        Reassociate(lit, a.lit, tag, stripped);
        Reassociate(lit, a.lit, tag, rendered);
        FillIsRender(a.rest, s, prev, lit + a.lit + tag, tags, leave, subs);
      } else {
        Reassociate(lit, a.lit, "", stripped);
        SplitAt(s, prev, lit + a.lit, "", stripped);
        FillIsRender(a.rest, s, prev + |lit| + |a.lit|, "", tags, leave, subs);
        FillStep(a, s, prev, lit, tags, leave, subs);
      }
    }
  }

  lemma FillLast(a: Template, s: string, prev: nat, lit: string, tags: seq<string>, leave: bool, subs: seq<string>)
    requires a.End? && prev <= |s| && s[prev..] == lit + Stripped(a, tags, leave)
    ensures var r := Points(a, prev + |lit|, tags, leave);
            && Fillable(s, r, prev, subs)
            && Fill(s, r, prev, subs) == lit + RenderBySlot(a, tags, subs)
  {
  }

  /** What a tag contributes to the points, the stripped text and the rendered text. */
  lemma HoleSteps(a: Template, off: nat, tags: seq<string>, leave: bool, subs: seq<string>)
    requires a.Hole? && |subs| == |tags| + if leave then 0 else 1
    ensures if leave && Slot(tags, a.name) == |tags| then
              && Points(a, off, tags, leave) == Points(a.rest, off + |a.lit| + 4 + |a.name|, tags, leave)
              && Stripped(a, tags, leave) == a.lit + Braced(a.name) + Stripped(a.rest, tags, leave)
              && RenderBySlot(a, tags, subs) == a.lit + Braced(a.name) + RenderBySlot(a.rest, tags, subs)
            else Stripped(a, tags, leave) == a.lit + Stripped(a.rest, tags, leave)
  {
    hide Slot, Braced;
    assert "" + Stripped(a.rest, tags, leave) == Stripped(a.rest, tags, leave);
    assert a.lit + "" == a.lit;
  }

  /** The step at a tag that is replaced. */
  lemma FillStep(a: Template, s: string, prev: nat, lit: string, tags: seq<string>, leave: bool, subs: seq<string>)
    requires |subs| == |tags| + if leave then 0 else 1
    requires a.Hole? && !(leave && Slot(tags, a.name) == |tags|)
    requires prev + |lit| + |a.lit| <= |s| && s[prev..prev + |lit| + |a.lit|] == lit + a.lit
    requires var at := prev + |lit| + |a.lit|;
             && Fillable(s, Points(a.rest, at, tags, leave), at, subs)
             && Fill(s, Points(a.rest, at, tags, leave), at, subs) == "" + RenderBySlot(a.rest, tags, subs)
    ensures var r := Points(a, prev + |lit|, tags, leave);
            && Fillable(s, r, prev, subs)
            && Fill(s, r, prev, subs) == lit + RenderBySlot(a, tags, subs)
  {
    hide Slot, Braced;
    var at := prev + |lit| + |a.lit|;
    var r := Points(a, prev + |lit|, tags, leave);
    assert r[0].0 == at && r[1..] == Points(a.rest, at, tags, leave);
    assert Chosen(r[0], subs) == Picked(tags, subs, a.name);
    Reassociate(lit, a.lit, Picked(tags, subs, a.name), RenderBySlot(a.rest, tags, subs));
  }

  class ParsedTemplate {
    var strippedTemplate: string
    var substitutionPoints: seq<Point>

    constructor (t: string, tags: seq<string>, leaveUnknown: bool := true)
      requires Sorted(tags)
      ensures strippedTemplate == Stripped(Parse(t, 0), tags, leaveUnknown)
      ensures substitutionPoints == Points(Parse(t, 0), 0, tags, leaveUnknown)
    {
      hide Parse, Slot, Braced, Points, Stripped, Source;
      var points := FindPoints(t, tags, leaveUnknown);
      var stripped := "";
      var i: nat := 0;
      var indexOffset: nat := 0;
      ghost var rest := Parse(t, 0);
      ParseSource(t, 0);
      for k := 0 to |points|
        invariant i <= |t| && t[i..] == Source(rest)
        invariant points[k..] == Points(rest, indexOffset, tags, leaveUnknown)
        invariant stripped + Stripped(rest, tags, leaveUnknown) == Stripped(Parse(t, 0), tags, leaveUnknown)
      {
        var p := points[k];
        assert p == points[k..][0] && points[k + 1..] == points[k..][1..];
        ghost var lit, tag, next := NextPoint(rest, indexOffset, tags, leaveUnknown);
        SplitAt(t, i, lit, tag, Source(next));
        Assoc(stripped, lit, Stripped(next, tags, leaveUnknown));
        var l := p.0 - indexOffset;
        stripped := stripped + t[i..i + l];
        indexOffset := indexOffset + l;
        i := i + l;
        i := i + 4;
        i := i + if p.1 < 0 then -p.1 - 1 else |tags[p.1]|;
        rest := next;
      }
      ghost var _, _, _ := NextPoint(rest, indexOffset, tags, leaveUnknown);
      if i < |t| {
        stripped := stripped + t[i..];
      }
      strippedTemplate := stripped;
      substitutionPoints := points;
    }

    /** `process`: the size is added up first, then the pieces are joined. */
    method Process(subs: seq<string>) returns (ret: string, reserved: nat)
      requires Fillable(strippedTemplate, substitutionPoints, 0, subs)
      ensures ret == Fill(strippedTemplate, substitutionPoints, 0, subs)
      ensures reserved == |ret|
    {
      hide Fill, Fillable, Chosen;
      reserved := OutputSize(subs);
      ret := "";
      var prev: nat := 0;
      FillStart(strippedTemplate, substitutionPoints, subs);
      ghost var whole := Fill(strippedTemplate, substitutionPoints, 0, subs);
      for k := 0 to |substitutionPoints|
        invariant Fillable(strippedTemplate, substitutionPoints[k..], prev, subs)
        invariant ret + Fill(strippedTemplate, substitutionPoints[k..], prev, subs) == whole
      {
        var p := substitutionPoints[k];
        FillRound(ret, strippedTemplate, substitutionPoints, k, prev, subs);
        var l := p.0 - prev;
        ret := ret + strippedTemplate[prev..prev + l];
        if p.1 < 0 {
          ret := ret + subs[|subs| - 1];
        } else {
          ret := ret + subs[p.1];
        }
        prev := p.0;
      }
      FillEnd(strippedTemplate, substitutionPoints, prev, subs);
      ret := ret + strippedTemplate[prev..];
    }

    /** The sizing loop of `process`. */
    method OutputSize(subs: seq<string>) returns (len: nat)
      requires Fillable(strippedTemplate, substitutionPoints, 0, subs)
      ensures len == |Fill(strippedTemplate, substitutionPoints, 0, subs)|
    {
      hide Fill, Fillable;
      len := |strippedTemplate|;
      ghost var from: nat := 0;
      for k := 0 to |substitutionPoints|
        invariant from <= |strippedTemplate|
        invariant Fillable(strippedTemplate, substitutionPoints[k..], from, subs)
        invariant len + |Fill(strippedTemplate, substitutionPoints[k..], from, subs)|
               == |Fill(strippedTemplate, substitutionPoints, 0, subs)| + |strippedTemplate| - from
      {
        var p := substitutionPoints[k];
        FillCons(strippedTemplate, substitutionPoints, k, from, subs);
        if p.1 < 0 {
          len := len + |subs[|subs| - 1]|;
        } else {
          len := len + |subs[p.1]|;
        }
        from := p.0;
      }
      FillEnd(strippedTemplate, substitutionPoints, from, subs);
    }
  }

  lemma PointsStep(a: Template, off: nat, tags: seq<string>, leave: bool)
    ensures Points(a, off, tags, leave) ==
              match a
              case End(_) => []
              case Hole(lit, name, rest) =>
                var idx, at := Slot(tags, name), off + |lit|;
                if idx < |tags| then [(at, idx)] + Points(rest, at, tags, leave)
                else if leave then Points(rest, at + 4 + |name|, tags, leave)
                else [(at, -1 - |name|)] + Points(rest, at, tags, leave)
  {
  }

  /** The first pass of the ParsedTemplate constructor. */
  method FindPoints(t: string, tags: seq<string>, leaveUnknown: bool) returns (points: seq<Point>)
    requires Sorted(tags)
    ensures points == Points(Parse(t, 0), 0, tags, leaveUnknown)
  {
    hide Find, Slot, Parse, Sorted, Less, Points;
    points := [];
    var prev: nat := 0;
    var indexOffset: nat := 0;
    while true
      invariant prev <= |t|
      invariant points + Points(Parse(t, prev), indexOffset, tags, leaveUnknown)
             == Points(Parse(t, 0), 0, tags, leaveUnknown)
      decreases |t| - prev
    {
      ParseStep(t, prev);
      PointsStep(Parse(t, prev), indexOffset, tags, leaveUnknown);
      var found := Find(t, "{{", prev);
      if found.None? {
        break;
      }
      var i := found.value;
      ghost var a, off := Parse(t, prev), indexOffset;
      indexOffset := indexOffset + (i - prev);
      var start := i + 2;
      var end := Find(t, "}}", start);
      if end.None? {
        indexOffset := indexOffset + (|t| - i);
        break;
      }
      var l := end.value - start;
      var tag := t[start..start + l];
      var idx := Index(tags, tag);
      if idx == |tags| {
        if leaveUnknown {
          indexOffset := indexOffset + (l + 4);
        } else {
          Snoc(points, (indexOffset, -1 - l), Points(a.rest, indexOffset, tags, false));
          points := points + [(indexOffset, -1 - l)];
        }
      } else {
        Snoc(points, (indexOffset, idx), Points(a.rest, indexOffset, tags, leaveUnknown));
        points := points + [(indexOffset, idx)];
      }
      prev := end.value + 2;
    }
  }

  /** Compiling and filling a template is rendering it directly, whatever the template. */
  lemma CompiledMeaning(t: string, tags: seq<string>, subs: seq<string>, leave: bool)
    requires |subs| == |tags| + if leave then 0 else 1
    ensures var s, r := Stripped(Parse(t, 0), tags, leave), Points(Parse(t, 0), 0, tags, leave);
            Fillable(s, r, 0, subs) && Fill(s, r, 0, subs) == Render(Parse(t, 0), EnvOf(tags, subs))
  {
    hide Parse, Points, RenderBySlot, Render, EnvOf, Stripped, Fill, Fillable;
    var a := Parse(t, 0);
    var s := Stripped(a, tags, leave);
    assert s[0..] == "" + s;
    FillIsRender(a, s, 0, "", tags, leave, subs);
    RenderBySlotIsRender(a, tags, subs);
    assert "" + RenderBySlot(a, tags, subs) == RenderBySlot(a, tags, subs);
  }

  /** Compile-once equals direct rendering, for every template and every sorted tag array. */
  method CompileOnceEqualsDirect(t: string, tags: seq<string>, subs: seq<string>, leave: bool)
    returns (compiled: string, direct: string)
    requires Sorted(tags)
    requires |subs| == |tags| + if leave then 0 else 1
    ensures compiled == direct == Render(Parse(t, 0), EnvOf(tags, subs))
  {
    CompiledMeaning(t, tags, subs, leave);
    var tp := new ParsedTemplate(t, tags, leave);
    var size: nat;
    compiled, size := tp.Process(subs);
    direct, size := Mustache(t, tags, subs);
  }

  // ----- The rule macros: sort the keys, scatter the values, render -----

  type Rule = (string, string)

  function Keys(rules: seq<Rule>): (ks: seq<string>)
    ensures |ks| == |rules|
    ensures forall i | 0 <= i < |rules| :: ks[i] == rules[i].0
  {
    seq(|rules|, i requires 0 <= i < |rules| => rules[i].0)
  }

  /** The value of each key: a later rule for the same key overwrites an earlier one. */
  function LastWins(rules: seq<Rule>): (m: map<string, string>)
    ensures forall k :: k in m <==> k in Keys(rules)
  {
    if rules == [] then map[]
    else
      var init, r := rules[..|rules| - 1], rules[|rules| - 1];
      assert Keys(rules) == Keys(init) + [r.0];
      LastWins(init)[r.0 := r.1]
  }

  /** `replacements[index(tags, k)] = v` for every rule, into default-constructed strings. */
  method Scatter(rules: seq<Rule>, tags: seq<string>, unknown: Option<string>) returns (replacements: array<string>)
    requires Sorted(tags) && multiset(tags) == multiset(Keys(rules))
    ensures fresh(replacements)
    ensures replacements.Length == |tags| + if unknown.Some? then 1 else 0
    ensures EnvOf(tags, replacements[..]) == Env(LastWins(rules), unknown)
  {
    hide Slot;
    replacements := new string[|tags| + if unknown.Some? then 1 else 0](_ => "");
    for k := 0 to |rules|
      invariant Scattered(LastWins(rules[..k]), tags, replacements[..])
    {
      var key := rules[k].0;
      KeyHasSlot(rules, tags, key, k);
      LastWinsSnoc(rules, k);
      var at := Index(tags, key);
      replacements[at] := rules[k].1;
    }
    assert rules[..|rules|] == rules;
    if unknown.Some? {
      replacements[|tags|] := unknown.value;
    }
    ScatteredEnv(rules, tags, replacements[..]);
  }

  /** Every key's value sits in the slot rendering looks the key up in. */
  ghost predicate Scattered(m: map<string, string>, tags: seq<string>, replacements: seq<string>) {
    && |replacements| >= |tags|
    && forall key | key in m ::
         Slot(tags, key) < |tags| && replacements[Slot(tags, key)] == m[key]
  }

  lemma LastWinsSnoc(rules: seq<Rule>, k: nat)
    requires k < |rules|
    ensures LastWins(rules[..k + 1]) == LastWins(rules[..k])[rules[k].0 := rules[k].1]
  {
    assert rules[..k + 1][..k] == rules[..k];
  }

  /** The value of a key is that of the last rule for it. */
  lemma {:induction false} LastWinsIs(rules: seq<Rule>, i: nat)
    requires i < |rules| && forall j | i < j < |rules| :: rules[j].0 != rules[i].0
    ensures rules[i].0 in LastWins(rules) && LastWins(rules)[rules[i].0] == rules[i].1
    decreases |rules|
  {
    var n := |rules| - 1;
    LastWinsSnoc(rules, n);
    assert rules[..n + 1] == rules;
    if i < n {
      LastWinsIs(rules[..n], i);
    }
  }

  lemma KeyHasSlot(rules: seq<Rule>, tags: seq<string>, key: string, k: nat)
    requires multiset(tags) == multiset(Keys(rules))
    requires k < |rules| && key == rules[k].0
    ensures Slot(tags, key) < |tags|
  {
    SameMembers(tags, Keys(rules));
    assert Keys(rules)[k] == key;
    SlotIsFirst(tags, key);
  }

  lemma ScatteredEnv(rules: seq<Rule>, tags: seq<string>, replacements: seq<string>)
    requires multiset(tags) == multiset(Keys(rules))
    requires Scattered(LastWins(rules), tags, replacements)
    ensures EnvOf(tags, replacements).known == LastWins(rules)
  {
    SameMembers(tags, Keys(rules));
    var known := EnvOf(tags, replacements).known;
    forall key ensures key in known <==> key in LastWins(rules) {
      SlotIsFirst(tags, key);
    }
  }

  lemma SameMembers(a: seq<string>, b: seq<string>)
    requires multiset(a) == multiset(b)
    ensures forall s :: s in a <==> s in b
  {
    forall s ensures s in a <==> s in b {
      assert s in a <==> s in multiset(a);
      assert s in b <==> s in multiset(b);
    }
  }

  /** MIN_SSR_MUSTACHE and MIN_SSR_MUSTACHE_WITH_DEFAULT: the constant-template macros. */
  method MustacheConstant(t: string, rules: seq<Rule>, tags: seq<string>, unknown: Option<string>)
    returns (ret: string)
    requires Sorted(tags) && multiset(tags) == multiset(Keys(rules))
    ensures ret == Render(Parse(t, 0), Env(LastWins(rules), unknown))
  {
    var tp := new ParsedTemplate(t, tags, unknown.None?);
    var replacements := Scatter(rules, tags, unknown);
    CompiledMeaning(t, tags, replacements[..], unknown.None?);
    var size: nat;
    ret, size := tp.Process(replacements[..]);
  }

  /** The two VARIABLE_TEMPLATE macros. */
  method MustacheVariable(t: string, rules: seq<Rule>, tags: seq<string>, unknown: Option<string>)
    returns (ret: string)
    requires Sorted(tags) && multiset(tags) == multiset(Keys(rules))
    ensures ret == Render(Parse(t, 0), Env(LastWins(rules), unknown))
  {
    var replacements := Scatter(rules, tags, unknown);
    var size: nat;
    ret, size := Mustache(t, tags, replacements[..]);
  }
}
