/** Request headers as text: printed in protocol/mods/ModConnectorDll.cpp, looked up in
    modlib/fiymod.hpp. */
module Headers {
  import opened Text

  type Field = (string, string)

  function Lower(s: string): string {
    seq(|s|, i requires 0 <= i < |s| => if 'A' <= s[i] <= 'Z' then (s[i] as int + 32) as char else s[i])
  }

  /** Two names are the same, case ignored, exactly when each character is the same or the other case of
      the same Latin letter. */
  lemma LowerExactlyWhen(a: string, b: string)
    ensures Lower(a) == Lower(b) <==>
              |a| == |b| && forall i | 0 <= i < |a| ::
                || a[i] == b[i]
                || ('A' <= a[i] <= 'Z' && b[i] as int == a[i] as int + 32)
                || ('A' <= b[i] <= 'Z' && a[i] as int == b[i] as int + 32)
    ensures |Lower(a)| == |a|
    ensures (forall i | 0 <= i < |a| :: !('A' <= a[i] <= 'Z')) ==> Lower(a) == a
  {
    if Lower(a) == Lower(b) {
      forall i | 0 <= i < |a|
        ensures || a[i] == b[i]
                || ('A' <= a[i] <= 'Z' && b[i] as int == a[i] as int + 32)
                || ('A' <= b[i] <= 'Z' && a[i] as int == b[i] as int + 32)
      {
        assert |Lower(a)| == |a| == |Lower(b)| == |b| && Lower(a)[i] == Lower(b)[i];
      }
    }
  }

  // ----- Printing -----

  function FieldText(f: Field): string {
    f.0 + ": " + f.1
  }

  /** Fields with a CRLF between them. */
  function Joined(fs: seq<Field>): string {
    if fs == [] then "" else if |fs| == 1 then FieldText(fs[0]) else FieldText(fs[0]) + "\r\n" + Joined(fs[1..])
  }

  /** The first field is printed twice; no fields give a null pointer. */
  function Printed(fs: seq<Field>): Option<string> {
    if fs == [] then None else Some(Joined([fs[0]] + fs))
  }

  /** The printed block, field by field: the first one twice, a CRLF before each further one. */
  lemma {:induction false} PrintedIs(fs: seq<Field>, f: Field)
    ensures Printed([]) == None
    ensures Printed([f]) == Some(f.0 + ": " + f.1 + "\r\n" + f.0 + ": " + f.1)
    ensures fs != [] ==> Printed(fs + [f]) == Some(Printed(fs).value + "\r\n" + f.0 + ": " + f.1)
  {
    hide FieldText;
    FieldTextIs(f);
    assert Joined([f] + [f]) == FieldText(f) + "\r\n" + FieldText(f) by {
      assert ([f] + [f])[1..] == [f];
    }
    Regrouped(FieldText(f), f);
    if fs != [] {
      assert [fs[0]] + (fs + [f]) == [fs[0]] + fs + [f];
      JoinedSnoc([fs[0]] + fs, f);
      Regrouped(Joined([fs[0]] + fs), f);
    }
  }

  lemma FieldTextIs(f: Field)
    ensures FieldText(f) == f.0 + ": " + f.1
  {
  }

  lemma Regrouped(a: string, f: Field)
    ensures a + "\r\n" + FieldText(f) == a + "\r\n" + f.0 + ": " + f.1
  {
  }

  /** What a reader of the pointer sees: everything before the first NUL. */
  function CString(s: string): string {
    s[..IndexOf(s, '\0', 0)]
  }

  // ----- Looking up -----

  function SkipSpace(s: string, i: nat): (r: nat)
    requires i <= |s|
    ensures i <= r <= |s|
    decreases |s| - i
  {
    if i < |s| && IsSpace(s[i]) then SkipSpace(s, i + 1) else i
  }

  function LineEnd(s: string, i: nat): (r: nat)
    requires i <= |s|
    ensures i <= r <= |s|
    decreases |s| - i
  {
    if i < |s| && s[i] != '\r' && s[i] != '\n' then LineEnd(s, i + 1) else i
  }

  /** `find_header` from `start` on. */
  function Found(s: string, start: nat, key: string): string
    decreases |s| - start
  {
    if start >= |s| then ""
    else
      var end := IndexOf(s, ':', start);
      if end == |s| then ""
      else if Lower(s[start..end]) == Lower(key) then
        var v := SkipSpace(s, end + 1);
        s[v..LineEnd(s, v)]
      else Found(s, IndexOf(s, '\n', end) + 1, key)
  }

  /** One round of `find_header`. */
  lemma FoundStep(s: string, start: nat, key: string)
    requires start < |s| && IndexOf(s, ':', start) < |s|
    ensures var end := IndexOf(s, ':', start);
            Found(s, start, key) ==
              if Lower(s[start..end]) == Lower(key) then
                s[SkipSpace(s, end + 1)..LineEnd(s, SkipSpace(s, end + 1))]
              else Found(s, IndexOf(s, '\n', end) + 1, key)
  {
    hide IndexOf, Lower, SkipSpace, LineEnd;
  }

  /** One value as `headers_map` cuts it: one blank after the colon, a CR before the LF. */
  function MapValue(s: string, colon: nat, end: nat): string
    requires colon < end <= |s|
  {
    var from := if colon + 1 < end && s[colon + 1] == ' ' then colon + 2 else colon + 1;
    var v := s[from..end];
    if v != "" && v[|v| - 1] == '\r' then v[..|v| - 1] else v
  }

  /** `headers_map` from `start` on. */
  function Mapped(s: string, start: nat, m: map<string, string>): map<string, string>
    decreases |s| - start
  {
    if start > |s| then m
    else
      var colon := IndexOf(s, ':', start);
      if colon == |s| then m
      else
        var end := IndexOf(s, '\n', colon);
        Mapped(s, end + 1, Emplace(m, Lower(s[start..colon]), MapValue(s, colon, end)))
  }

  /** One round of `headers_map`. */
  lemma MappedStep(s: string, start: nat, m: map<string, string>)
    requires start <= |s| && IndexOf(s, ':', start) < |s|
    ensures var colon := IndexOf(s, ':', start);
            var end := IndexOf(s, '\n', colon);
            Mapped(s, start, m) ==
              Mapped(s, end + 1, Emplace(m, Lower(s[start..colon]), MapValue(s, colon, end)))
  {
    hide IndexOf, Lower, MapValue, Emplace;
  }

  // ----- Agreement -----

  /** What a parsed request can hold: no colon or newline in a name, no line break in a value, and
      no NUL.  Values may be empty or blank. */
  predicate GoodField(f: Field) {
    && ':' !in f.0 && '\n' !in f.0 && '\0' !in f.0
    && '\r' !in f.1 && '\n' !in f.1 && '\0' !in f.1
  }

  predicate GoodFields(fs: seq<Field>) {
    forall i | 0 <= i < |fs| :: GoodField(fs[i])
  }

  /** The first field with that name, case ignored; the number of fields when there is none. */
  function FirstAt(fs: seq<Field>, key: string): (k: nat)
    ensures k <= |fs|
  {
    if fs == [] || Lower(fs[0].0) == Lower(key) then 0 else 1 + FirstAt(fs[1..], key)
  }

  lemma {:induction false} FirstAtIsFirst(fs: seq<Field>, key: string)
    ensures var k := FirstAt(fs, key);
            && (k < |fs| ==> Lower(fs[k].0) == Lower(key))
            && forall j | 0 <= j < k :: Lower(fs[j].0) != Lower(key)
    decreases |fs|
  {
    hide Lower;
    if fs != [] && Lower(fs[0].0) != Lower(key) {
      FirstAtIsFirst(fs[1..], key);
      forall j | 0 <= j < FirstAt(fs, key) ensures Lower(fs[j].0) != Lower(key) {
        if j > 0 { assert fs[j] == fs[1..][j - 1]; }
      }
    }
  }

  predicate Blank(v: string) {
    forall i | 0 <= i < |v| :: IsSpace(v[i])
  }

  function Stripped(v: string): string {
    v[SkipSpace(v, 0)..]
  }

  /** What `find_header` makes of the text behind a colon: blanks skipped, cut at a line break. */
  function Shown(text: string): string {
    text[SkipSpace(text, 0)..LineEnd(text, SkipSpace(text, 0))]
  }

  /** The value `find_header` finds in the printed text of `fs`: the blanks before a value are
      skipped, and when there is nothing else, the line breaks and the blanks behind them too. */
  function Answer(fs: seq<Field>, key: string): string {
    var k := FirstAt(fs, key);
    if k == |fs| then ""
    else if !Blank(fs[k].1) then Stripped(fs[k].1)
    else if k + 1 < |fs| then Shown(FieldText(fs[k + 1]))
    else ""
  }

  lemma {:induction false} SkipSpaceShift(s: string, i: nat, v: string, j: nat, tail: string)
    requires i <= |s| && j <= |v| && s[i..] == v[j..] + tail && !Blank(v[j..])
    ensures s[SkipSpace(s, i)..] == v[SkipSpace(v, j)..] + tail
    decreases |v| - j
  {
    hide IsSpace;
    assert j < |v| && |s[i..]| > 0 && s[i..][0] == v[j];
    if IsSpace(v[j]) {
      assert s[i + 1..] == s[i..][1..] == v[j + 1..] + tail;
      var k :| 0 <= k < |v[j..]| && !IsSpace(v[j..][k]);
      assert v[j + 1..][k - 1] == v[j..][k];
      SkipSpaceShift(s, i + 1, v, j + 1, tail);
    }
  }

  lemma {:induction false} LineEndShift(s: string, i: nat, v: string, j: nat, tail: string)
    requires i <= |s| && j <= |v| && s[i..] == v[j..] + tail && (tail == "" || tail[0] == '\r')
    ensures s[i..LineEnd(s, i)] == v[j..LineEnd(v, j)]
    decreases |v| - j
  {
    assert |s[i..]| == |v| - j + |tail|;
    if j < |v| {
      assert s[i] == s[i..][0] == v[j..][0] == v[j];
      assert s[i + 1..] == s[i..][1..] == v[j + 1..] + tail;
      LineEndShift(s, i + 1, v, j + 1, tail);
      if v[j] != '\r' && v[j] != '\n' {
        SplitHead(s, i, LineEnd(s, i));
        SplitHead(v, j, LineEnd(v, j));
      }
    } else if tail != "" {
      assert s[i] == s[i..][0] == tail[0];
    }
  }

  lemma SplitHead(s: string, i: nat, end: nat)
    requires i < end <= |s|
    ensures s[i..end] == [s[i]] + s[i + 1..end]
  {
  }

  /** Leading blanks make no difference. */
  lemma {:induction false} SkipOver(s: string, i: nat, blank: string, rest: string)
    requires i <= |s| && s[i..] == blank + rest && Blank(blank)
    ensures s[SkipSpace(s, i)..] == rest[SkipSpace(rest, 0)..]
    decreases |blank|
  {
    hide IsSpace, SkipSpace;
    if blank == "" {
      assert s[i..] == rest[0..];
      SkipSame(s, i, rest, 0);
    } else {
      assert |s[i..]| > 0 && s[i] == s[i..][0] == blank[0];
      assert s[i + 1..] == s[i..][1..] == blank[1..] + rest;
      SkipStep(s, i);
      SkipOver(s, i + 1, blank[1..], rest);
    }
  }

  lemma SkipStep(s: string, i: nat)
    requires i < |s| && IsSpace(s[i])
    ensures SkipSpace(s, i) == SkipSpace(s, i + 1)
  {
  }

  lemma {:induction false} SkipSame(s: string, i: nat, u: string, j: nat)
    requires i <= |s| && j <= |u| && s[i..] == u[j..]
    ensures s[SkipSpace(s, i)..] == u[SkipSpace(u, j)..]
    decreases |s| - i
  {
    hide IsSpace;
    assert |s[i..]| == |u[j..]|;
    if i < |s| {
      assert s[i] == s[i..][0] == u[j..][0] == u[j];
      assert s[i + 1..] == s[i..][1..] == u[j..][1..] == u[j + 1..];
      SkipSame(s, i + 1, u, j + 1);
    }
  }

  lemma ShownSkips(blank: string, rest: string)
    requires Blank(blank)
    ensures Shown(blank + rest) == Shown(rest)
  {
    hide IsSpace, SkipSpace, LineEnd;
    var s := blank + rest;
    assert s[0..] == s;
    SkipOver(s, 0, blank, rest);
    var a, b := SkipSpace(s, 0), SkipSpace(rest, 0);
    assert s[a..] == rest[b..] + "";
    LineEndShift(s, a, rest, b, "");
  }

  predicate Tail(tail: string) {
    tail == "" || (|tail| >= 2 && tail[0] == '\r' && tail[1] == '\n')
  }

  /** A text that holds more than blanks is shown alike wherever it stands at the end of a line. */
  lemma ShownThere(s: string, i: nat, text: string, tail: string)
    requires i <= |s| && s[i..] == text + tail && Tail(tail) && !Blank(text)
    ensures var from := SkipSpace(s, i); s[from..LineEnd(s, from)] == Shown(text)
  {
    hide IsSpace, SkipSpace, LineEnd, Blank;
    assert text[0..] == text;
    SkipSpaceShift(s, i, text, 0, tail);
    LineEndShift(s, SkipSpace(s, i), text, SkipSpace(text, 0), tail);
  }

  /** A value without line breaks is shown without its leading blanks, or not at all. */
  lemma ShownValue(v: string)
    requires '\r' !in v && '\n' !in v
    ensures Shown(v) == Stripped(v)
    ensures Blank(v) ==> Shown(v) == ""
  {
    hide IsSpace, SkipSpace;
    NoBreak(v, SkipSpace(v, 0));
    if Blank(v) {
      assert v[0..] == v + "";
      SkipOver(v, 0, v, "");
    }
  }

  lemma {:induction false} NoBreak(v: string, i: nat)
    requires i <= |v| && '\r' !in v && '\n' !in v
    ensures LineEnd(v, i) == |v|
    decreases |v| - i
  {
    if i < |v| {
      NoBreak(v, i + 1);
    }
  }

  /** Text with something in it is shown as something that does not begin with a blank. */
  lemma ShownHead(text: string)
    requires !Blank(text)
    ensures Shown(text) != "" && !IsSpace(Shown(text)[0])
  {
    SkipStops(text, 0);
    var from := SkipSpace(text, 0);
    assert LineEnd(text, from) >= from + 1;
  }

  lemma {:induction false} SkipStops(text: string, i: nat)
    requires i <= |text|
    ensures var from := SkipSpace(text, i);
            && (forall k | i <= k < from :: IsSpace(text[k]))
            && (from < |text| ==> !IsSpace(text[from]))
    decreases |text| - i
  {
    hide IsSpace;
    if i < |text| && IsSpace(text[i]) {
      SkipStops(text, i + 1);
    }
  }

  lemma FieldNotBlank(f: Field)
    ensures !Blank(FieldText(f))
  {
    assert FieldText(f)[|f.0|] == ':';
  }

  /** Where the colon of the next field is. */
  lemma ColonAt(s: string, start: nat, f: Field, tail: string)
    requires start <= |s| && s[start..] == FieldText(f) + tail && ':' !in f.0
    ensures var colon := start + |f.0|;
            && IndexOf(s, ':', start) == colon < |s| && s[start..colon] == f.0
            && s[colon..] == ": " + f.1 + tail && s[colon + 1..] == " " + f.1 + tail
  {
    hide IndexOf;
    var colon, rest := start + |f.0|, ": " + f.1 + tail;
    assert FieldText(f) + tail == f.0 + rest;
    ReadUntil(s, start, f.0, ':', rest);
    assert |s[colon..]| > 0 && rest[1..] == " " + f.1 + tail;
    SliceOfSuffix(s, colon, colon + 1, colon + 1);
  }

  /** Where its line ends, and what stands there. */
  lemma EolAt(s: string, colon: nat, value: string, tail: string)
    requires colon <= |s| && s[colon..] == ": " + value + tail && '\n' !in value && Tail(tail)
    ensures var eol := if tail == "" then |s| else colon + 3 + |value|;
            && IndexOf(s, '\n', colon) == eol && colon + 2 + |value| <= eol <= |s|
            && s[colon..eol] == ": " + value + (if tail == "" then "" else "\r")
            && (tail != "" ==> eol < |s| && s[eol + 1..] == tail[2..])
  {
    hide IndexOf;
    var text, rest := ": " + value + (if tail == "" then "" else "\r"), if tail == "" then "" else tail[1..];
    assert text + rest == ": " + value + tail;
    ReadUntil(s, colon, text, '\n', rest);
    if tail != "" {
      var eol := colon + |text|;
      assert s[eol + 1..] == s[eol..][1..] == tail[2..];
    }
  }

  function Eol(s: string, start: nat, f: Field, tail: string): nat {
    if tail == "" then |s| else start + |f.0| + 3 + |f.1|
  }

  /** Everything the two readers look at in one field, whatever its value. */
  lemma Places(s: string, start: nat, f: Field, tail: string)
    requires start <= |s| && s[start..] == FieldText(f) + tail && GoodField(f) && Tail(tail)
    ensures var colon, eol := start + |f.0|, Eol(s, start, f, tail);
            && IndexOf(s, ':', start) == colon < |s| && s[start..colon] == f.0
            && s[colon + 1..] == " " + f.1 + tail
            && IndexOf(s, '\n', colon) == eol <= |s| && colon < eol && MapValue(s, colon, eol) == f.1
            && (if tail == "" then eol == |s| else eol < |s| && s[eol + 1..] == tail[2..])
  {
    hide IndexOf, FieldText, MapValue;
    var colon := start + |f.0|;
    ColonAt(s, start, f, tail);
    EolAt(s, colon, f.1, tail);
    CutValue(s, colon, Eol(s, start, f, tail), f.1, if tail == "" then "" else "\r");
  }

  lemma CutValue(s: string, colon: nat, eol: nat, v: string, cr: string)
    requires colon < eol <= |s| && s[colon..eol] == ": " + v + cr && (cr == "" || cr == "\r")
    requires '\r' !in v
    ensures MapValue(s, colon, eol) == v
  {
    var line := s[colon..eol];
    assert s[colon + 1] == line[1] && s[colon + 2..eol] == line[2..] == v + cr;
    assert (v + cr)[..|v|] == v;
  }

  /** The text of a list of fields, seen as its first field and the rest. */
  function After(fs: seq<Field>): string
    requires fs != []
  {
    if |fs| == 1 then "" else "\r\n" + Joined(fs[1..])
  }

  lemma JoinedStep(fs: seq<Field>)
    requires fs != []
    ensures Joined(fs) == FieldText(fs[0]) + After(fs) && Tail(After(fs))
    ensures if |fs| == 1 then After(fs) == "" && fs[1..] == []
            else After(fs) != "" && After(fs)[2..] == Joined(fs[1..])
  {
    hide FieldText;
    if |fs| == 1 {
      assert FieldText(fs[0]) + "" == FieldText(fs[0]);
    } else {
      Assoc(FieldText(fs[0]), "\r\n", Joined(fs[1..]));
      BreakFirst(Joined(fs[1..]));
    }
  }

  lemma BreakFirst(rest: string)
    ensures var t := "\r\n" + rest; |t| >= 2 && t[0] == '\r' && t[1] == '\n' && t[2..] == rest
  {
  }

  /** What `find_header` reads behind the colon of the first of `fs`. */
  lemma ValueAt(s: string, i: nat, fs: seq<Field>)
    requires fs != [] && GoodField(fs[0]) && i <= |s| && s[i..] == " " + fs[0].1 + After(fs)
    ensures var from := SkipSpace(s, i);
            s[from..LineEnd(s, from)] ==
              if !Blank(fs[0].1) then Stripped(fs[0].1)
              else if |fs| > 1 then Shown(FieldText(fs[1])) else ""
  {
    hide IsSpace, SkipSpace, LineEnd, FieldText, Stripped, Shown, Joined, Tail;
    var v := fs[0].1;
    BlankConcat(" ", v);
    JoinedStep(fs);
    if !Blank(v) {
      ShownThere(s, i, " " + v, After(fs));
      OneBlank();
      ShownSkips(" ", v);
      ShownValue(v);
    } else {
      BlankEnd(s, i, v, fs);
    }
  }

  lemma OneBlank()
    ensures Blank(" ") && Blank("\r\n")
  {
  }

  lemma BlankEnd(s: string, i: nat, v: string, fs: seq<Field>)
    requires fs != [] && i <= |s| && s[i..] == " " + v + After(fs) && Blank(v)
    ensures var from := SkipSpace(s, i);
            s[from..LineEnd(s, from)] == if |fs| > 1 then Shown(FieldText(fs[1])) else ""
  {
    hide IsSpace, SkipSpace, LineEnd, FieldText, Shown, Joined, Blank, After, Tail;
    OneBlank();
    BlankConcat(" ", v);
    JoinedStep(fs);
    if |fs| == 1 {
      SkipOver(s, i, " " + v, "");
    } else {
      var blank, text := " " + v + "\r\n", FieldText(fs[1]);
      BlankConcat(" " + v, "\r\n");
      FieldNotBlank(fs[1]);
      BlankConcat(blank, text);
      JoinedStep(fs[1..]);
      Reassociate(" " + v, "\r\n", text, After(fs[1..]));
      NextLine(fs);
      ShownThere(s, i, blank + text, After(fs[1..]));
      ShownSkips(blank, text);
    }
  }

  lemma NextLine(fs: seq<Field>)
    requires |fs| > 1
    ensures After(fs) == "\r\n" + FieldText(fs[1]) + After(fs[1..])
  {
    hide FieldText;
    JoinedStep(fs[1..]);
  }

  lemma BlankConcat(a: string, b: string)
    ensures Blank(a + b) <==> Blank(a) && Blank(b)
  {
    hide IsSpace;
    assert forall k | 0 <= k < |a| :: (a + b)[k] == a[k];
    assert forall k | 0 <= k < |b| :: (a + b)[|a| + k] == b[k];
  }

  lemma FoundHere(s: string, start: nat, fs: seq<Field>, key: string)
    requires fs != [] && start <= |s| && s[start..] == Joined(fs) && GoodField(fs[0])
    ensures var v := fs[0].1;
            Found(s, start, key) ==
              if Lower(fs[0].0) != Lower(key) then Found(s, Eol(s, start, fs[0], After(fs)) + 1, key)
              else if !Blank(v) then Stripped(v)
              else if |fs| > 1 then Shown(FieldText(fs[1])) else ""
  {
    hide Found, IndexOf, Lower, SkipSpace, LineEnd, FieldText, Stripped, GoodField, MapValue, Tail, Shown, Blank, After;
    hide Joined;
    JoinedStep(fs);
    Places(s, start, fs[0], After(fs));
    FoundStep(s, start, key);
    ValueAt(s, start + |fs[0].0| + 1, fs);
  }

  lemma {:induction false} FoundIsAnswer(s: string, start: nat, fs: seq<Field>, key: string)
    requires fs != [] && GoodFields(fs) && start <= |s| && s[start..] == Joined(fs)
    ensures Found(s, start, key) == Answer(fs, key)
    decreases |fs|
  {
    hide Found, Lower, Stripped, Joined, FieldText, MapValue, IndexOf, After, Eol, Tail, Blank, Shown;
    hide GoodField, SkipSpace, LineEnd;
    FoundHere(s, start, fs, key);
    if Lower(fs[0].0) != Lower(key) {
      JoinedStep(fs);
      Places(s, start, fs[0], After(fs));
      if |fs| == 1 {
        NothingFound(s, |s| + 1, key);
      } else {
        FoundIsAnswer(s, Eol(s, start, fs[0], After(fs)) + 1, fs[1..], key);
      }
    }
  }

  lemma NothingFound(s: string, start: nat, key: string)
    ensures start >= |s| || IndexOf(s, ':', start) == |s| ==> Found(s, start, key) == ""
  {
  }

  lemma MappedHere(s: string, start: nat, f: Field, tail: string, m: map<string, string>)
    requires start <= |s| && s[start..] == FieldText(f) + tail && GoodField(f) && Tail(tail)
    ensures Mapped(s, start, m) == Mapped(s, Eol(s, start, f, tail) + 1, Emplace(m, Lower(f.0), f.1))
  {
    hide Mapped, IndexOf, Lower, FieldText, GoodField, MapValue, Emplace, Tail;
    Places(s, start, f, tail);
    MappedStep(s, start, m);
  }

  /** The map after the fields: the first of each lower-cased name. */
  function FirstOfEach(fs: seq<Field>, m: map<string, string>): map<string, string> {
    if fs == [] then m else FirstOfEach(fs[1..], Emplace(m, Lower(fs[0].0), fs[0].1))
  }

  lemma {:induction false} MappedIsFirstOfEach(s: string, start: nat, fs: seq<Field>, m: map<string, string>)
    requires fs != [] && GoodFields(fs) && start <= |s| && s[start..] == Joined(fs)
    ensures Mapped(s, start, m) == FirstOfEach(fs, m)
    decreases |fs|
  {
    hide Mapped, Lower, GoodField, Joined, FieldText, MapValue, IndexOf, Emplace, After, Eol, Tail;
    JoinedStep(fs);
    Places(s, start, fs[0], After(fs));
    var f := fs[0];
    MappedHere(s, start, f, After(fs), m);
    var m' := Emplace(m, Lower(f.0), f.1);
    if |fs| == 1 {
      NothingMapped(s, |s| + 1, m');
    } else {
      MappedIsFirstOfEach(s, Eol(s, start, f, After(fs)) + 1, fs[1..], m');
    }
  }

  lemma NothingMapped(s: string, start: nat, m: map<string, string>)
    ensures start > |s| || IndexOf(s, ':', start) == |s| ==> Mapped(s, start, m) == m
  {
  }

  lemma {:induction false} FirstOfEachLookup(fs: seq<Field>, m: map<string, string>, key: string)
    ensures var k, r, at := Lower(key), FirstOfEach(fs, m), FirstAt(fs, key);
            if k in m then k in r && r[k] == m[k]
            else if at < |fs| then k in r && r[k] == fs[at].1 else k !in r
    decreases |fs|
  {
    hide Lower;
    if fs != [] {
      FirstOfEachLookup(fs[1..], Emplace(m, Lower(fs[0].0), fs[0].1), key);
    }
  }

  lemma {:induction false} NoNul(fs: seq<Field>)
    requires GoodFields(fs)
    ensures '\0' !in Joined(fs)
    decreases |fs|
  {
    if fs != [] {
      assert GoodField(fs[0]);
      assert '\0' !in FieldText(fs[0]);
      NoNul(fs[1..]);
    }
  }

  /** The first field is printed twice, so a match on it is followed by its own second copy. */
  function Next(fs: seq<Field>, k: nat): Option<Field>
    requires k < |fs|
  {
    if k == 0 then Some(fs[0]) else if k + 1 < |fs| then Some(fs[k + 1]) else None
  }

  lemma PrintedFirstAt(fs: seq<Field>, key: string)
    requires fs != []
    ensures var k, all := FirstAt(fs, key), [fs[0]] + fs;
            if k == |fs| then FirstAt(all, key) == |all|
            else var n := FirstAt(all, key);
                 n < |all| && all[n] == fs[k]
                 && (if n + 1 < |all| then Next(fs, k) == Some(all[n + 1]) else Next(fs, k) == None)
  {
    hide Lower;
    var all := [fs[0]] + fs;
    assert all[1..] == fs;
  }

  /** What the two lookups make of printed headers, for every list of fields and every key: both
      take the first field of that name; `headers_map` has its value, `find_header` strips the
      blanks before it, and for a blank value goes on to the line printed next. */
  lemma PrintAndLookup(fs: seq<Field>, key: string)
    requires fs != [] && GoodFields(fs)
    ensures var s, k := CString(Printed(fs).value), FirstAt(fs, key);
            var m := Mapped(s, 0, map[]);
            if k == |fs| then Found(s, 0, key) == "" && Lower(key) !in m
            else
              && Lower(key) in m && m[Lower(key)] == fs[k].1
              && Found(s, 0, key) ==
                   if !Blank(fs[k].1) then Stripped(fs[k].1)
                   else match Next(fs, k) case Some(f) => Shown(FieldText(f)) case None => ""
  {
    hide Found, Mapped, Lower, GoodField, Stripped, Shown, FieldText, Blank, Next, FirstAt, FirstOfEach;
    var all := [fs[0]] + fs;
    var s := Joined(all);
    assert all[1..] == fs && GoodFields(all);
    NoNul(all);
    assert s[..|s|] == s && s[0..] == s && CString(s) == s;
    PrintedFirstAt(fs, key);
    FoundIsAnswer(s, 0, all, key);
    MappedIsFirstOfEach(s, 0, all, map[]);
    FirstOfEachLookup(all, map[], key);
  }

  /** So they agree on a key that is present exactly when its first value begins with something, or
      is empty at the very end of the block; the latter is where the original asks an empty view for
      its last character. */
  lemma LookupsAgreeExactlyWhen(fs: seq<Field>, key: string)
    requires fs != [] && GoodFields(fs) && FirstAt(fs, key) < |fs|
    ensures var s, k := CString(Printed(fs).value), FirstAt(fs, key);
            var m, v := Mapped(s, 0, map[]), fs[k].1;
            Lower(key) in m
            && (Found(s, 0, key) == m[Lower(key)]
                <==> (v != "" && !IsSpace(v[0])) || (v == "" && 0 < k == |fs| - 1))
  {
    hide Found, Mapped, Lower, Printed, FirstAt, CString, IsSpace, SkipSpace, FieldText, LineEnd;
    PrintAndLookup(fs, key);
    var k := FirstAt(fs, key);
    var v := fs[k].1;
    assert GoodField(fs[k]);
    if !Blank(v) {
      StripsNothing(v);
    } else if Next(fs, k).Some? {
      FieldNotBlank(Next(fs, k).value);
      ShownHead(FieldText(Next(fs, k).value));
    }
  }

  lemma StripsNothing(v: string)
    requires v != ""
    ensures Stripped(v) == v <==> !IsSpace(v[0])
  {
    if IsSpace(v[0]) {
      assert |Stripped(v)| < |v|;
    } else {
      assert v[0..] == v;
    }
  }

  /** With names that are tokens, what `find_header` returns for a blank value is the whole of the
      next printed line, name and all. */
  lemma BlankValueYieldsNextLine(fs: seq<Field>, key: string)
    requires fs != [] && GoodFields(fs) && FirstAt(fs, key) < |fs| && Blank(fs[FirstAt(fs, key)].1)
    requires forall i | 0 <= i < |fs| :: fs[i].0 != "" && !IsSpace(fs[i].0[0]) && '\r' !in fs[i].0
    ensures Found(CString(Printed(fs).value), 0, key)
         == match Next(fs, FirstAt(fs, key)) case Some(f) => FieldText(f) case None => ""
  {
    hide Found, Printed, FirstAt, CString, IsSpace, SkipSpace, LineEnd, Blank;
    PrintAndLookup(fs, key);
    var next := Next(fs, FirstAt(fs, key));
    if next.Some? {
      var f := next.value;
      assert f in fs && GoodField(f);
      ShownValue(FieldText(f));
      assert FieldText(f)[0] == f.0[0];
      StripsNothing(FieldText(f));
    }
  }

  // ----- The implementation -----

  class Request {
    var strHeaders: string
    var headers: Option<string>

    constructor ()
      ensures headers == None
    {
      strHeaders, headers := "", None;
    }

    method SetThisHeaders(f: seq<Field>)
      modifies this
      ensures headers == Printed(f)
      ensures f == [] ==> strHeaders == old(strHeaders)
    {
      if f == [] {
        headers := None;
        return;
      }
      strHeaders := "";
      var it := 0;
      strHeaders := strHeaders + f[it].0;
      strHeaders := strHeaders + ": ";
      strHeaders := strHeaders + f[it].1;
      JoinedOne(f[0]);
      assert strHeaders == Joined([f[0]]) && [f[0]] + f[..0] == [f[0]];
      while it < |f|
        invariant it <= |f|
        invariant strHeaders == Joined([f[0]] + f[..it])
      {
        JoinedSnoc([f[0]] + f[..it], f[it]);
        ghost var before := strHeaders;
        strHeaders := strHeaders + "\r\n";
        strHeaders := strHeaders + f[it].0;
        strHeaders := strHeaders + ": ";
        strHeaders := strHeaders + f[it].1;
        assert strHeaders == before + "\r\n" + FieldText(f[it]);
        assert [f[0]] + f[..it] + [f[it]] == [f[0]] + f[..it + 1];
        it := it + 1;
      }
      assert f[..it] == f;
      headers := Some(strHeaders);
    }

    method FindHeader(key: string) returns (r: string)
      ensures r == if headers.None? then "" else Found(CString(headers.value), 0, key)
    {
      hide IndexOf, Lower, SkipSpace, LineEnd, Found;
      if headers.None? {
        return "";
      }
      var fields := CString(headers.value);
      var start: nat := 0;
      while start < |fields|
        invariant Found(fields, start, key) == Found(fields, 0, key)
        decreases |fields| - start
      {
        var end := IndexOf(fields, ':', start);
        if end == |fields| {
          NothingFound(fields, start, key);
          return "";
        }
        FoundStep(fields, start, key);
        if Lower(fields[start..end]) == Lower(key) {
          end := end + 1;
          end := SkipSpace(fields, end);
          var endl := LineEnd(fields, end);
          return fields[end..endl];
        }
        start := IndexOf(fields, '\n', end);
        if start == |fields| {
          NothingFound(fields, start + 1, key);
          return "";
        }
        start := start + 1;
      }
      NothingFound(fields, start, key);
      return "";
    }

    method HeadersMap() returns (ret: map<string, string>)
      ensures ret == if headers.None? then map[] else Mapped(CString(headers.value), 0, map[])
    {
      hide IndexOf, Lower, MapValue, Emplace, Mapped;
      ret := map[];
      if headers.None? {
        return;
      }
      var fields := CString(headers.value);
      var start: nat := 0;
      while start <= |fields|
        invariant Mapped(fields, start, ret) == Mapped(fields, 0, map[])
        decreases |fields| + 1 - start
      {
        var end := IndexOf(fields, ':', start);
        if end == |fields| {
          NothingMapped(fields, start, ret);
          return;
        }
        MappedStep(fields, start, ret);
        var key := Lower(fields[start..end]);
        start := IndexOf(fields, '\n', end);
        var v := CutLine(fields, end, start);
        ret := Emplace(ret, key, v);
        start := start + 1;
      }
      NothingMapped(fields, start, ret);
    }
  }

  /** The value of one line in `headers_map`. */
  method CutLine(fields: string, colon: nat, eol: nat) returns (v: string)
    requires colon < eol <= |fields| && (eol < |fields| ==> fields[eol] == '\n')
    ensures v == MapValue(fields, colon, eol)
  {
    var end := colon + 1;
    if end < |fields| && fields[end] == ' ' {
      end := end + 1;
    }
    v := fields[end..eol];
    if v != "" && v[|v| - 1] == '\r' {
      v := v[..|v| - 1];
    }
  }

  lemma JoinedOne(f: Field)
    ensures Joined([f]) == FieldText(f)
  {
  }

  lemma {:induction false} JoinedSnoc(fs: seq<Field>, f: Field)
    requires fs != []
    ensures Joined(fs + [f]) == Joined(fs) + "\r\n" + FieldText(f)
    decreases |fs|
  {
    hide FieldText;
    assert (fs + [f])[1..] == fs[1..] + [f];
    if |fs| > 1 {
      JoinedSnoc(fs[1..], f);
      assert FieldText(fs[0]) + "\r\n" + (Joined(fs[1..]) + "\r\n" + FieldText(f))
          == FieldText(fs[0]) + "\r\n" + Joined(fs[1..]) + "\r\n" + FieldText(f);
    } else {
      assert fs[1..] + [f] == [f];
    }
  }
}
