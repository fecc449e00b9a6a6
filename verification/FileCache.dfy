/** util/FileCache.hpp: the in-place template renderer, in-place replacement, HTML escaping. */
module FileCache {
  import opened Text
  import opened SSR = MinSSR

  // ----- The in-place renderer -----

  /** Every `{{` the scan meets is closed. */
  ghost predicate Closed(a: Template) {
    match a
    case End(text) => Find(text, "{{", 0).None?
    case Hole(_, _, rest) => Closed(rest)
  }

  /** The value of each key when the first matching rule is taken. */
  function FirstWins(rules: seq<Rule>): map<string, string> {
    if rules == [] then map[] else FirstWins(rules[1..])[rules[0].0 := rules[0].1]
  }

  lemma {:induction false} FirstMatch(rules: seq<Rule>, tag: string, k: nat)
    requires k <= |rules| && forall j | 0 <= j < k :: rules[j].0 != tag
    ensures k < |rules| && rules[k].0 == tag ==> tag in FirstWins(rules) && FirstWins(rules)[tag] == rules[k].1
    ensures k == |rules| ==> tag !in FirstWins(rules)
  {
    if k > 0 {
      FirstMatch(rules[1..], tag, k - 1);
    }
  }

  /** A template is closed exactly when each tag opened is closed, from left to right. */
  lemma ClosedIs(lit: string, name: string, rest: string)
    requires UpTo(lit, "{{")
    ensures UpTo(name, "}}") ==> (Closed(Parse(lit + "{{" + name + "}}" + rest, 0)) <==> Closed(Parse(rest, 0)))
    ensures Absent(rest, "{{", 0) ==> Closed(Parse(rest, 0))
    ensures Absent(rest, "}}", 0) ==> !Closed(Parse(lit + "{{" + rest, 0))
  {
    hide Find, Parse;
    if UpTo(name, "}}") {
      FirstTag(lit, name, rest);
    }
    if Absent(rest, "{{", 0) {
      FindNone(rest, "{{", 0);
      ParseStep(rest, 0);
      assert rest[0..] == rest;
    }
    if Absent(rest, "}}", 0) {
      Unclosed(lit, rest);
    }
  }

  /** On a closed template, an opening brace pair is always the start of a tag. */
  lemma ClosedStep(s: string, i: nat)
    requires i <= |s| && Closed(Parse(s, i)) && Find(s, "{{", i).Some?
    ensures Find(s, "}}", Find(s, "{{", i).value + 2).Some?
  {
    hide Find;
    ParseStep(s, i);
    FindShift(s, i, s[i..], 0, "{{");
  }

  /** Editing a tag in place leaves the text behind it where the scan will look for it. */
  lemma Edited(s: string, o: nat, c: nat, v: string)
    requires o + 2 <= c && c + 2 <= |s|
    ensures var s' := s[..o] + v + s[c + 2..];
            s'[..o + |v|] == s[..o] + v && s'[o + |v|..] == s[c + 2..]
  {
  }

  lemma Kept(s: string, i: nat, o: nat, c: nat)
    requires i <= o && OccursAt(s, "{{", o) && o + 2 <= c && OccursAt(s, "}}", c)
    ensures s[..c + 2] == s[..i] + s[i..o] + Braced(s[o + 2..c])
  {
    assert s[o..c + 2] == s[o..o + 2] + s[o + 2..c] + s[c..c + 2] == Braced(s[o + 2..c]);
  }

  lemma RenderStep(a: Template, env: Env)
    ensures a.End? ==> Render(a, env) == a.text
    ensures a.Hole? ==> Render(a, env) == a.lit + Value(env, a.name) + Render(a.rest, env)
    ensures a.Hole? && Closed(a) ==> Closed(a.rest)
  {
    hide Find, Value;
  }

  method Mustache(templateString: string, rules: seq<Rule>) returns (s: string)
    requires Closed(Parse(templateString, 0))
    ensures s == Render(Parse(templateString, 0), Env(FirstWins(rules), None))
  {
    hide Find, Parse, FirstWins, Braced, OccursAt, Render, Closed;
    s := templateString;
    var i: nat := 0;
    ghost var env, rest := Env(FirstWins(rules), None), Parse(s, 0);
    ghost var whole := Render(rest, env);
    while true
      invariant i <= |s| && rest == Parse(s, i) && Closed(rest)
      invariant s[..i] + Render(rest, env) == whole
      decreases |s| - i
    {
      ParseStep(s, i);
      RenderStep(rest, env);
      var found := Find(s, "{{", i);
      if found.None? {
        break;
      }
      ClosedStep(s, i);
      var o := found.value;
      var end := Find(s, "}}", o + 2).value;
      var tag := s[o + 2..end];
      var k := 0;
      while k < |rules| && rules[k].0 != tag
        invariant k <= |rules| && forall j | 0 <= j < k :: rules[j].0 != tag
      {
        k := k + 1;
      }
      FirstMatch(rules, tag, k);
      Reassociate(s[..i], s[i..o], Value(env, tag), Render(rest.rest, env));
      if k < |rules| {
        var (needle, replacement) := rules[k];
        ghost var before := s;
        Edited(s, o, end, replacement);
        s := s[..o] + replacement + s[o + |needle| + 4..];
        ParseShift(before, end + 2, s, o + |replacement|);
        assert before[..o] == before[..i] + before[i..o];
        i := o + |replacement|;
      } else {
        FindIsFirst(s, "{{", i);
        FindIsFirst(s, "}}", o + 2);
        Kept(s, i, o, end);
        i := end + 2;
      }
      rest := rest.rest;
    }
    assert s == s[..i] + s[i..];
  }

  // ----- When the in-place renderer and the compiled one agree -----

  lemma {:induction false} DistinctKeysAgree(rules: seq<Rule>)
    requires forall i, j | 0 <= i < j < |rules| :: rules[i].0 != rules[j].0
    ensures FirstWins(rules) == LastWins(rules)
    decreases |rules|
  {
    if rules != [] {
      var init, r := rules[..|rules| - 1], rules[|rules| - 1];
      DistinctKeysAgree(init);
      FirstMatch(init, r.0, |init|);
      FirstWinsSnoc(init, r);
      assert rules == init + [r];
    }
  }

  lemma {:induction false} FirstWinsSnoc(rules: seq<Rule>, r: Rule)
    ensures FirstWins(rules + [r]) ==
            if r.0 in FirstWins(rules) then FirstWins(rules) else FirstWins(rules)[r.0 := r.1]
  {
    if rules != [] {
      assert (rules + [r])[1..] == rules[1..] + [r];
      FirstWinsSnoc(rules[1..], r);
    } else {
      assert rules + [r] == [r];
    }
  }

  /** Can `k` be the name of a tag at all?  Not if `}}` shows up before its own closing braces. */
  predicate TagName(k: string) {
    Find(k + "}}", "}}", 0) == Some(|k|)
  }

  ghost predicate RenderAlike(first: Env, last: Env) {
    forall t: string | Closed(Parse(t, 0)) :: Render(Parse(t, 0), first) == Render(Parse(t, 0), last)
  }

  /** With repeated keys the two renderers differ exactly when some key that a template can
      name has a first and a last value that differ. */
  lemma AgreeExactlyWhen(rules: seq<Rule>)
    ensures RenderAlike(Env(FirstWins(rules), None), Env(LastWins(rules), None))
       <==> forall k | k in FirstWins(rules) && k in LastWins(rules) && TagName(k) ::
              FirstWins(rules)[k] == LastWins(rules)[k]
  {
    hide TagName, Parse, Closed, FirstWins, LastWins;
    SameKeys(rules);
    var first, last := Env(FirstWins(rules), None), Env(LastWins(rules), None);
    if RenderAlike(first, last) {
      forall k | k in first.known && k in last.known && TagName(k)
        ensures first.known[k] == last.known[k]
      {
        ParseBraced(k);
        RenderBraced(k, first);
        RenderBraced(k, last);
      }
    } else {
      var t: string :| Closed(Parse(t, 0)) && Render(Parse(t, 0), first) != Render(Parse(t, 0), last);
      if forall k | TagName(k) :: Value(first, k) == Value(last, k) {
        SameValuesRenderSame(t, 0, first, last);
      }
    }
  }

  lemma RenderBraced(k: string, env: Env)
    ensures Render(Hole("", k, End("")), env) == Value(env, k)
  {
    var v := Value(env, k);
    assert "" + v + "" == v;
  }

  lemma {:induction false} SameKeys(rules: seq<Rule>)
    ensures FirstWins(rules).Keys == LastWins(rules).Keys
  {
    if rules != [] {
      var init, r := rules[..|rules| - 1], rules[|rules| - 1];
      SameKeys(init);
      FirstWinsSnoc(init, r);
      assert rules == init + [r];
    }
  }

  lemma {:induction false} SameValuesRenderSame(t: string, i: nat, f: Env, l: Env)
    requires i <= |t|
    requires forall k | TagName(k) :: Value(f, k) == Value(l, k)
    ensures Render(Parse(t, i), f) == Render(Parse(t, i), l)
    decreases |t| - i
  {
    hide Find, Value, TagName;
    ParseStep(t, i);
    if Parse(t, i).Hole? {
      var o := Find(t, "{{", i).value;
      var c := Find(t, "}}", o + 2).value;
      NamesAreTagNames(t, o + 2, c);
      SameValuesRenderSame(t, c + 2, f, l);
    }
  }

  lemma NamesAreTagNames(t: string, start: nat, c: nat)
    requires start <= c && Find(t, "}}", start) == Some(c)
    ensures TagName(t[start..c])
  {
    hide Find;
    FindIsFirst(t, "}}", start);
    var k := t[start..c];
    var u := k + "}}";
    FindIsFirst(u, "}}", 0);
    assert u[|k|..|k| + 2] == "}}" && t[c..c + 2] == "}}";
    assert u == t[start..c + 2];
    assert OccursAt(u, "}}", |k|);
    forall j: nat | j < |k| ensures !OccursAt(u, "}}", j) {
      SliceOfSlice(t, start, c + 2, j);
      assert !OccursAt(t, "}}", start + j);
    }
  }

  lemma SliceOfSlice(t: string, start: nat, end: nat, j: nat)
    requires start + j + 2 <= end <= |t|
    ensures t[start..end][j..j + 2] == t[start + j..start + j + 2]
  {
    var u := t[start..end];
    assert u[j..j + 2] == [u[j], u[j + 1]] && t[start + j..start + j + 2] == [t[start + j], t[start + j + 1]];
  }

  lemma ParseBraced(k: string)
    requires TagName(k)
    ensures Parse(Braced(k), 0) == Hole("", k, End("")) && Closed(Parse(Braced(k), 0))
  {
    hide Find, Parse, OccursAt;
    var t := Braced(k);
    assert t == "{{" + (k + "}}");
    assert t[2..] == (k + "}}")[0..] && t[0..2] == "{{" && t[0..0] == "";
    FindShift(t, 2, k + "}}", 0, "}}");
    FindHere(t, "{{", 0);
    ParseStep(t, 0);
    assert t[2..|k| + 2] == k && t[|t|..] == "";
    FindPast(t, "{{", |t|);
    FindPast("", "{{", 0);
    ParseStep(t, |t|);
  }

  lemma FindHere(s: string, pat: string, i: nat)
    requires i + |pat| <= |s| && s[i..i + |pat|] == pat
    ensures Find(s, pat, i) == Some(i)
  {
  }

  lemma FindPast(s: string, pat: string, i: nat)
    requires i + |pat| > |s|
    ensures Find(s, pat, i) == None
  {
  }

  /** All three renderers of a closed template with distinct keys produce the same text. */
  method RenderThreeWays(t: string, rules: seq<Rule>, tags: seq<string>)
    returns (inPlace: string, compiled: string, direct: string)
    requires Sorted(tags) && multiset(tags) == multiset(Keys(rules))
    requires Closed(Parse(t, 0)) && forall i, j | 0 <= i < j < |rules| :: rules[i].0 != rules[j].0
    ensures inPlace == compiled == direct
  {
    DistinctKeysAgree(rules);
    inPlace := Mustache(t, rules);
    compiled := MustacheConstant(t, rules, tags, None);
    direct := MustacheVariable(t, rules, tags, None);
  }

  // ----- replace_all -----

  /** The pieces of `h` from `i` on between the occurrences of `needle`. */
  function Split(h: string, i: nat, needle: string): (parts: seq<string>)
    requires needle != "" && i <= |h|
    ensures parts != []
    decreases |h| - i
  {
    match Find(h, needle, i)
    case None => [h[i..]]
    case Some(o) => [h[i..o]] + Split(h, o + |needle|, needle)
  }

  function Join(parts: seq<string>, sep: string): string {
    if parts == [] then ""
    else if |parts| == 1 then parts[0]
    else parts[0] + sep + Join(parts[1..], sep)
  }

  lemma {:induction false} JoinSplit(h: string, i: nat, needle: string)
    requires needle != "" && i <= |h|
    ensures Join(Split(h, i, needle), needle) == h[i..]
    decreases |h| - i
  {
    hide Find;
    FindIsFirst(h, needle, i);
    if Find(h, needle, i).Some? {
      var o := Find(h, needle, i).value;
      JoinSplit(h, o + |needle|, needle);
      JoinStep(h, i, needle, needle);
      assert h[i..] == h[i..o] + h[o..o + |needle|] + h[o + |needle|..];
    }
  }

  lemma JoinStep(h: string, j: nat, needle: string, sep: string)
    requires needle != "" && j <= |h| && Find(h, needle, j).Some?
    ensures var o := Find(h, needle, j).value;
            Join(Split(h, j, needle), sep) == h[j..o] + sep + Join(Split(h, o + |needle|, needle), sep)
  {
    hide Find;
    var o := Find(h, needle, j).value;
    assert Split(h, j, needle)[1..] == Split(h, o + |needle|, needle);
  }

  lemma JoinEnd(h: string, j: nat, needle: string, sep: string)
    requires needle != "" && j <= |h| && Find(h, needle, j).None?
    ensures Join(Split(h, j, needle), sep) == h[j..]
  {
  }

  lemma {:induction false} SplitShift(h: string, i: nat, u: string, j: nat, needle: string)
    requires needle != "" && i <= |h| && j <= |u| && h[i..] == u[j..]
    ensures Split(h, i, needle) == Split(u, j, needle)
    decreases |h| - i
  {
    hide Find;
    FindShift(h, i, u, j, needle);
    if Find(h, needle, i).Some? {
      var o := Find(h, needle, i).value;
      SameSlice(h, i, u, j, i, o);
      SameSlice(h, i, u, j, i, o + |needle|);
      SplitShift(h, o + |needle|, u, o + |needle| - i + j, needle);
    }
  }

  /** The first occurrence is replaced, the text before it kept, and the text behind it treated in the same
      way; a text without the needle stays. */
  lemma ReplacedIs(lit: string, needle: string, rest: string, replacement: string)
    requires needle != "" && UpTo(lit, needle)
    ensures Join(Split(lit + needle + rest, 0, needle), replacement) ==
              lit + replacement + Join(Split(rest, 0, needle), replacement)
    ensures Absent(rest, needle, 0) ==> Join(Split(rest, 0, needle), replacement) == rest
  {
    hide Find, Split, Join;
    var h, o := lit + needle + rest, |lit|;
    assert "" + lit == lit;
    UpToFirst("", lit, needle, rest);
    JoinStep(h, 0, needle, replacement);
    assert h[0..o] == lit && h[o + |needle|..] == rest[0..];
    SplitShift(h, o + |needle|, rest, 0, needle);
    if Absent(rest, needle, 0) {
      FindNone(rest, needle, 0);
      JoinEnd(rest, 0, needle, replacement);
      assert rest[0..] == rest;
    }
  }

  method ReplaceAll(haystack: string, needle: string, replacement: string) returns (s: string)
    requires needle != ""
    ensures s == Join(Split(haystack, 0, needle), replacement)
  {
    hide Find, OccursAt, Join, Split;
    s := haystack;
    var i: nat := 0;
    ghost var j: nat := 0;
    ghost var whole := Join(Split(haystack, 0, needle), replacement);
    while true
      invariant i <= |s| && j <= |haystack| && s[i..] == haystack[j..]
      invariant s[..i] + Join(Split(haystack, j, needle), replacement) == whole
      decreases |haystack| - j
    {
      FindShift(s, i, haystack, j, needle);
      var found := Find(s, needle, i);
      if found.None? {
        break;
      }
      ghost var o := found.value - i + j;
      SameSlice(s, i, haystack, j, i, found.value);
      SameSlice(s, i, haystack, j, i, found.value + |needle|);
      ghost var tail := Join(Split(haystack, o + |needle|, needle), replacement);
      JoinStep(haystack, j, needle, replacement);
      Reassociate(s[..i], haystack[j..o], replacement, tail);
      assert s[..found.value] == s[..i] + s[i..found.value];
      s := s[..found.value] + replacement + s[found.value + |needle|..];
      i := found.value + |replacement|;
      j := o + |needle|;
    }
    assert s == s[..i] + s[i..];
    JoinEnd(haystack, j, needle, replacement);
  }

  // ----- escape_html -----

  function Entity(c: char): string {
    match c
    case '<' => "&lt;"
    case '&' => "&amp;"
    case '>' => "&gt;"
    case '\'' => "&apos;"
    case '\"' => "&quot;"
    case _ => [c]
  }

  function Escaped(s: string): string {
    if s == "" then "" else Entity(s[0]) + Escaped(s[1..])
  }

  method EscapeHtml(nonHtml: string) returns (ret: string)
    ensures ret == Escaped(nonHtml)
  {
    ret := "";
    for i := 0 to |nonHtml|
      invariant ret + Escaped(nonHtml[i..]) == Escaped(nonHtml)
    {
      var c := nonHtml[i];
      assert nonHtml[i..][1..] == nonHtml[i + 1..];
      Assoc(ret, Entity(c), Escaped(nonHtml[i + 1..]));
      match c
      case '<' => ret := ret + "&lt;";
      case '&' => ret := ret + "&amp;";
      case '>' => ret := ret + "&gt;";
      case '\'' => ret := ret + "&apos;";
      case '\"' => ret := ret + "&quot;";
      case _ => ret := ret + [c];
    }
  }

  /** A reader that replaces the five entities by their characters. */
  function Unescaped(s: string): string {
    if s == "" then ""
    else if "&lt;" <= s then "<" + Unescaped(s[4..])
    else if "&amp;" <= s then "&" + Unescaped(s[5..])
    else if "&gt;" <= s then ">" + Unescaped(s[4..])
    else if "&apos;" <= s then "'" + Unescaped(s[6..])
    else if "&quot;" <= s then "\"" + Unescaped(s[6..])
    else [s[0]] + Unescaped(s[1..])
  }

  /** The entities are those that HTML defines for the five characters. */
  lemma EntityTable(c: char)
    ensures Entity(c) ==
              if c as int == 60 then "&lt;"
              else if c as int == 62 then "&gt;"
              else if c as int == 38 then "&amp;"
              else if c as int == 39 then "&apos;"
              else if c as int == 34 then "&quot;"
              else [c]
  {
  }

  /** Escaping loses nothing, and leaves no character that HTML treats as markup. */
  lemma {:induction false} UnescapedEscaped(s: string)
    ensures Unescaped(Escaped(s)) == s
    ensures forall c | c in Escaped(s) :: c !in "<>'\""
  {
    if s != "" {
      UnescapedEscaped(s[1..]);
      UnescapedEntity(s[0], Escaped(s[1..]));
      assert s == [s[0]] + s[1..];
    }
  }

  lemma UnescapedEntity(c: char, rest: string)
    ensures Unescaped(Entity(c) + rest) == [c] + Unescaped(rest)
    ensures forall d | d in Entity(c) :: d !in "<>'\""
  {
    if c in "<>&'\"" {
      UnescapedSpecial(c, rest);
    } else {
      var s := [c] + rest;
      assert s[0] == c && s[1..] == rest;
    }
  }

  lemma UnescapedSpecial(c: char, rest: string)
    requires c in "<>&'\""
    ensures Unescaped(Entity(c) + rest) == [c] + Unescaped(rest)
  {
    var s := Entity(c) + rest;
    assert s[|Entity(c)|..] == rest;
    assert s[1] == Entity(c)[1] && s[2] == Entity(c)[2];
  }
}
