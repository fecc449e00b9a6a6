/** mods/contacts/src/Contact.cpp: vCard text (RFC 6350, sections 3.2 and 3.3), printed and parsed. */
module VCard {
  import opened Text

  datatype Prop = Prop(id: int, name: string, params: string, value: string, visibility: int)

  /** The calendar form of `updateTs` is a parameter of printing, like its reader in `Host`. */
  datatype Card = Card(id: int, owner: string, user: string, updateTs: int, props: seq<Prop>)

  datatype Host = Host(baseUri: string, domain: string, readRev: string -> int)

  const INT64_MAX: int := 0x7FFF_FFFF_FFFF_FFFF
  const INT64_MIN: int := -0x8000_0000_0000_0000

  // ----- Numbers as text -----

  function Digit(d: nat): char
    requires d < 10
  {
    (d + 48) as char
  }

  predicate IsDigit(c: char) {
    '0' <= c <= '9'
  }

  /** `std::to_string` of a non-negative number. */
  function Dec(n: nat): string {
    if n < 10 then [Digit(n)] else Dec(n / 10) + [Digit(n % 10)]
  }

  function Value(digits: string): int {
    if digits == "" then 0
    else Value(digits[..|digits| - 1]) * 10 + (digits[|digits| - 1] as int - 48)
  }

  function DigitPrefix(s: string): string {
    if s == "" || !IsDigit(s[0]) then "" else [s[0]] + DigitPrefix(s[1..])
  }

  function SkipSpace(s: string): string {
    if s == "" || !IsSpace(s[0]) then s else SkipSpace(s[1..])
  }

  /** The number `strtol` and `stoll` read: blanks, a sign, digits; None when there is no digit. */
  function ReadInt(s: string): Option<int> {
    var t := SkipSpace(s);
    var signed := t != "" && (t[0] == '-' || t[0] == '+');
    var digits := DigitPrefix(if signed then t[1..] else t);
    if digits == "" then None
    else Some(if signed && t[0] == '-' then -Value(digits) else Value(digits))
  }

  /** `strtol` clamps, `stoll` throws. */
  function Strtol(s: string): Option<int> {
    match ReadInt(s)
    case None => None
    case Some(n) => Some(if n > INT64_MAX then INT64_MAX else if n < INT64_MIN then INT64_MIN else n)
  }

  function Stoll(s: string): Option<int> {
    match ReadInt(s)
    case None => None
    case Some(n) => if INT64_MIN <= n <= INT64_MAX then Some(n) else None
  }

  lemma {:induction false} DecDigits(n: nat)
    ensures Value(Dec(n)) == n && DigitPrefix(Dec(n)) == Dec(n) && Dec(n) != ""
    ensures forall c | c in Dec(n) :: IsDigit(c)
  {
    if n >= 10 {
      DecDigits(n / 10);
      assert Dec(n)[..|Dec(n)| - 1] == Dec(n / 10);
      AllDigits(Dec(n));
    }
  }

  lemma {:induction false} AllDigits(s: string)
    requires forall c | c in s :: IsDigit(c)
    ensures DigitPrefix(s) == s
  {
    if s != "" {
      AllDigits(s[1..]);
      assert s == [s[0]] + s[1..];
    }
  }

  lemma ReadDec(n: nat)
    requires n <= INT64_MAX
    ensures Strtol(Dec(n)) == Some(n) && Stoll(Dec(n)) == Some(n)
  {
    DecDigits(n);
    assert IsDigit(Dec(n)[0]);
  }

  // ----- Printing -----

  predicate Invalid(c: Card) {
    c.id == -1 && c.updateTs == 0
  }

  function Address(user: string, h: Host): string {
    user + "@" + h.domain
  }

  /** `ret += '0' + visibility`: an int appended as one char. */
  function VisChar(v: int): char {
    ((48 + v) % 256) as char
  }

  /** The parameters of a property as printed, each with its leading semicolon. */
  function ParamText(c: Card, p: Prop): string
  {
    (if p.params != "" then ";" + p.params else "")
    + (if p.visibility != 0 || c.user == c.owner then ";" + ("X-FIY-VISIBILITY=" + [VisChar(p.visibility)]) else "")
    + (if p.id >= 0 then ";" + ("X-FIY-ID=" + Dec(p.id)) else "")
  }

  function Line(name: string, params: string, value: string): string {
    name + params + ":" + value
  }

  function PropLine(c: Card, p: Prop): string
  {
    Line(p.name, ParamText(c, p), p.value)
  }

  predicate HasName(props: seq<Prop>) {
    exists i | 0 <= i < |props| :: props[i].name == "N" || props[i].name == "FN"
  }

  function PropLines(c: Card, props: seq<Prop>): seq<string>
  {
    if props == [] then [] else [PropLine(c, props[0])] + PropLines(c, props[1..])
  }

  function HeadLines(c: Card, h: Host, rev: string): seq<string> {
    [Line("BEGIN", "", "VCARD"), Line("VERSION", "", "4.0")]
    + (if c.id >= 0 then [Line("SOURCE", "", h.baseUri + "/id/" + Dec(c.id)), Line("UID", "", Dec(c.id))] else [])
    + (if c.user != "" && c.owner == c.user then [Line("X-FIY-PROFILE", "", Address(c.user, h))] else [])
    + (if c.user != "" then [Line("X-SOCIALPROFILE", ";TYPE=fiy", Address(c.user, h))] else [])
    + (if c.updateTs != 0 then [Line("REV", "", rev)] else [])
  }

  /** A card without a name gets one. */
  function AllProps(c: Card): seq<Prop> {
    if HasName(c.props) then c.props else c.props + [Prop(-1, "FN", "", c.user, 0)]
  }

  function Lines(c: Card, h: Host, rev: string): seq<string>
  {
    HeadLines(c, h, rev) + PropLines(c, c.props)
    + (if HasName(c.props) then [] else [Line("FN", "", c.user)])
    + [Line("END", "", "VCARD")]
  }

  /** Lines with a CRLF between them. */
  function Joined(lines: seq<string>): string {
    if lines == [] then "" else if |lines| == 1 then lines[0] else lines[0] + "\r\n" + Joined(lines[1..])
  }

  function Printed(c: Card, h: Host, rev: string): string
  {
    if Invalid(c) then "" else Joined(Lines(c, h, rev))
  }

  // ----- Parsing -----

  /** `std::regex_replace(vc, "\n\s", "")`: undo line folding. */
  function Unfolded(s: string): string {
    if s == "" then ""
    else if |s| >= 2 && s[0] == '\n' && IsSpace(s[1]) then Unfolded(s[2..])
    else [s[0]] + Unfolded(s[1..])
  }

  /** The length of a line break at the head of `s`: only one followed by a non-blank counts. */
  function Break(s: string): (n: nat)
    ensures n <= |s|
  {
    if |s| >= 3 && s[0] == '\r' && s[1] == '\n' && !IsSpace(s[2]) then 2
    else if |s| >= 2 && (s[0] == '\r' || s[0] == '\n') && !IsSpace(s[1]) then 1
    else 0
  }

  function Onto(prefix: string, parts: seq<string>): (r: seq<string>)
    requires parts != []
    ensures r != []
  {
    [prefix + parts[0]] + parts[1..]
  }

  /** The token iterator over the text between line breaks. */
  function SplitLines(s: string): (lines: seq<string>)
    ensures lines != []
    decreases |s|
  {
    if s == "" then [""]
    else if Break(s) > 0 then [""] + SplitLines(s[Break(s)..])
    else Onto([s[0]], SplitLines(s[1..]))
  }

  /** The pieces of `s` between semicolons. */
  function Pieces(s: string): (ps: seq<string>)
    ensures ps != []
  {
    if s == "" then [""]
    else if s[0] == ';' then [""] + Pieces(s[1..])
    else Onto([s[0]], Pieces(s[1..]))
  }

  /** `Host::split_user_str`, as used here: the user part, and whether the user is local. */
  function SplitUser(user: string, h: Host): (string, string) {
    if user == "" then ("", "")
    else
      var at := IndexOf(user, '@', 0);
      if at >= |user| - 1 || user[at + 1..] == h.domain then (user[..at], "")
      else (user[..at], user[at + 1..])
  }

  function UserOf(value: string, h: Host): string {
    var (u, domain) := SplitUser(value, h);
    if domain == "" then u else value
  }

  predicate Ignored(name: string) {
    || name == "BEGIN" || name == "END"
    || name == "AGENT" || name == "CLASS" || name == "MAILER" || name == "PROFILE" || name == "SORT-STRING"
    || name == "CLIENTPIDMAP" || name == "VERSION"
  }

  /** `int8_t(p[17] - '0')`, where reading past the end gives NUL, then capped at 3. */
  function VisibilityOf(p: string): int {
    var c := if |p| > 17 then p[17] as int else 0;
    var v := (if c % 256 >= 128 then c % 256 - 256 else c % 256) - 48;
    var v8 := if v < -128 then v + 256 else v;
    if v8 > 3 then 3 else v8
  }

  datatype Params = Params(visibility: int, id: int, text: string) | SocialProfile

  function AfterParam(q: Params, p: string, name: string): Params {
    if q.SocialProfile? || p == "" then q
    else if "X-FIY-VISIBILITY=" <= p then q.(visibility := VisibilityOf(p))
    else if "X-FIY-ID=" <= p then
      var n := Strtol(p[9..]);
      q.(id := if n.Some? then n.value else -1)
    else if "TYPE=fiy" <= p && name == "X-SOCIALPROFILE" then SocialProfile
    else q.(text := q.text + ";" + p)
  }

  function AfterParams(q: Params, pieces: seq<string>, name: string): Params
    decreases |pieces|
  {
    if pieces == [] then q else AfterParams(AfterParam(q, pieces[0], name), pieces[1..], name)
  }

  function DropSemicolon(s: string): string {
    if s != "" && s[0] == ';' then s[1..] else s
  }

  /** One line; None is the parse failure of a line without a colon. */
  function AfterLine(c: Card, line: string, h: Host): Option<Card> {
    var colon := IndexOf(line, ':', 0);
    if colon == |line| then None
    else
      var semi := IndexOf(line[..colon], ';', 0);
      Some(AfterField(c, line[..semi], line[semi..colon], line[colon + 1..], h))
  }

  function AfterField(c: Card, name: string, rawParams: string, value: string, h: Host): Card {
    if Ignored(name) then c
    else if name == "UID" then (if Stoll(value).Some? then c.(id := Stoll(value).value) else c)
    else if name == "X-FIY-PROFILE" then c.(user := UserOf(value, h))
    else if name == "REV" then c.(updateTs := h.readRev(value))
    else if name == "SOURCE" then c
    else
      match AfterParams(Params(0, -1, ""), Pieces(rawParams), name)
      case SocialProfile => c.(user := UserOf(value, h))
      case Params(visibility, id, text) =>
        c.(props := c.props + [Prop(id, name, DropSemicolon(DropSemicolon(text)), value, visibility)])
  }

  /** The card after the lines, and whether all of them could be parsed. */
  function AfterLines(c: Card, lines: seq<string>, h: Host): (Card, bool)
    decreases |lines|
  {
    if lines == [] then (c, true)
    else
      match AfterLine(c, lines[0], h)
      case None => (c, false)
      case Some(c') => AfterLines(c', lines[1..], h)
  }

  function Parsed(c: Card, text: string, h: Host): (Card, bool) {
    var vc := Trim(text);
    if !("BEGIN:VCARD" <= vc) then (c, false) else AfterLines(c, SplitLines(Unfolded(vc)), h)
  }

  // ----- The round trip -----

  predicate OneLine(s: string) {
    '\r' !in s && '\n' !in s
  }

  predicate Reserved(name: string) {
    Ignored(name) || name == "UID" || name == "X-FIY-PROFILE" || name == "REV" || name == "SOURCE"
  }

  /** A parameter the parser keeps as text. */
  predicate Ordinary(p: string, name: string) {
    && p != "" && !("X-FIY-VISIBILITY=" <= p) && !("X-FIY-ID=" <= p)
    && !("TYPE=fiy" <= p && name == "X-SOCIALPROFILE")
  }

  /** A property whose parts can stand on a line of their own. */
  predicate Printable(p: Prop) {
    && p.name != "" && !IsSpace(p.name[0]) && ':' !in p.name && ';' !in p.name && !Reserved(p.name)
    && OneLine(p.name) && OneLine(p.params) && OneLine(p.value)
    && -1 <= p.id <= INT64_MAX && 0 <= p.visibility <= 3
  }

  /** Parameters the parser neither cuts at a colon, quoted or not, nor takes for its own. */
  predicate PlainParams(p: Prop) {
    ':' !in p.params && (p.params != "" ==> forall q | q in Pieces(p.params) :: Ordinary(q, p.name))
  }

  predicate WellFormed(p: Prop) {
    Printable(p) && PlainParams(p)
  }

  predicate AllPlain(props: seq<Prop>) {
    forall i | 0 <= i < |props| :: PlainParams(props[i])
  }

  predicate PrintableCard(c: Card) {
    && (forall i | 0 <= i < |c.props| :: Printable(c.props[i]))
    && '@' !in c.user && OneLine(c.user) && -1 <= c.id <= INT64_MAX
  }

  predicate WellFormedHost(h: Host, rev: string) {
    OneLine(h.baseUri) && OneLine(h.domain) && OneLine(rev)
  }

  // Lines survive unfolding and splitting.

  predicate GoodLine(s: string) {
    s != "" && !IsSpace(s[0]) && OneLine(s)
  }

  lemma {:induction false} UnfoldLine(line: string, rest: string)
    requires OneLine(line)
    ensures Unfolded(line + rest) == line + Unfolded(rest)
  {
    hide IsSpace;
    if line == "" {
      assert line + rest == rest;
    } else {
      UnfoldLine(line[1..], rest);
      assert (line + rest)[1..] == line[1..] + rest;
      assert line == [line[0]] + line[1..];
    }
  }

  lemma OntoFacts(a: string, b: string, parts: seq<string>, more: seq<string>)
    requires parts != []
    ensures Onto(a, Onto(b, parts)) == Onto(a + b, parts)
    ensures Onto(a, parts + more) == Onto(a, parts) + more
    ensures Onto("", parts) == parts
  {
    assert a + (b + parts[0]) == a + b + parts[0] && "" + parts[0] == parts[0];
    assert Onto(b, parts)[1..] == parts[1..];
  }

  lemma {:induction false} SplitLine(line: string, rest: string)
    requires OneLine(line)
    ensures SplitLines(line + rest) == Onto(line, SplitLines(rest))
  {
    if line == "" {
      assert line + rest == rest;
      OntoFacts("", "", SplitLines(rest), []);
    } else {
      SplitLine(line[1..], rest);
      assert (line + rest)[1..] == line[1..] + rest;
      assert line == [line[0]] + line[1..];
      OntoFacts([line[0]], line[1..], SplitLines(rest), []);
      hide Onto;
    }
  }

  lemma BreakAt(rest: string)
    requires rest != "" && !IsSpace(rest[0])
    ensures Unfolded("\r\n" + rest) == "\r\n" + Unfolded(rest)
    ensures SplitLines("\r\n" + rest) == [""] + SplitLines(rest)
  {
    var s := "\r\n" + rest;
    assert s[1..] == "\n" + rest && s[2..] == rest;
    assert ("\n" + rest)[1..] == rest;
    assert Unfolded("\n" + rest) == "\n" + Unfolded(rest);
  }

  /** A line folded in two with a blank, as section 3.2 of RFC 6350 has it: a bare LF is undone, but a
      CRLF leaves its CR behind, which mostly splits the line. */
  lemma FoldedLine(a: string, crlf: bool, blank: char, b: string)
    requires GoodLine(a) && OneLine(b) && (blank == ' ' || blank == '\t')
    ensures SplitLines(Unfolded(a + (if crlf then "\r\n" else "\n") + ([blank] + b))) ==
              if !crlf then [a + b]
              else if b != "" && !IsSpace(b[0]) then [a, b]
              else [a + "\r" + b]
  {
    hide Unfolded, SplitLines;
    var fold := if crlf then "\r\n" else "\n";
    Assoc(a, fold, [blank] + b);
    UnfoldLine(a, fold + ([blank] + b));
    UnfoldFold(blank, b);
    EmptyText();
    if crlf {
      SplitLine(a, "\r" + b);
      SplitLoneCr(b);
      assert a + "" == a && a + ("\r" + b) == a + "\r" + b;
    } else {
      SplitLine(a + b, "");
      assert a + b + "" == a + b;
    }
  }

  lemma UnfoldFold(blank: char, b: string)
    requires OneLine(b) && (blank == ' ' || blank == '\t')
    ensures Unfolded("\n" + ([blank] + b)) == b && Unfolded("\r\n" + ([blank] + b)) == "\r" + b
  {
    UnfoldLine(b, "");
    assert b + "" == b && Unfolded("") == "";
    var s, t := "\n" + ([blank] + b), "\r\n" + ([blank] + b);
    assert s[2..] == b && t[1..] == s;
  }

  lemma SplitLoneCr(b: string)
    requires OneLine(b)
    ensures SplitLines("\r" + b) == if b != "" && !IsSpace(b[0]) then ["", b] else ["\r" + b]
  {
    SplitLine(b, "");
    assert b + "" == b && SplitLines("") == [""];
    assert ("\r" + b)[1..] == b;
  }

  /** So a folded line reads back exactly when the break is a bare LF. */
  lemma FoldReadsBackExactlyWhen(a: string, crlf: bool, blank: char, b: string)
    requires GoodLine(a) && OneLine(b) && (blank == ' ' || blank == '\t')
    ensures SplitLines(Unfolded(a + (if crlf then "\r\n" else "\n") + ([blank] + b))) == [a + b] <==> !crlf
  {
    hide Unfolded, SplitLines, IsSpace;
    FoldedLine(a, crlf, blank, b);
    assert |a + "\r" + b| == |a + b| + 1;
  }

  lemma {:induction false} JoinedSplits(lines: seq<string>)
    requires lines != [] && forall i | 0 <= i < |lines| :: GoodLine(lines[i])
    ensures Unfolded(Joined(lines)) == Joined(lines) && SplitLines(Joined(lines)) == lines
    ensures Joined(lines) != "" && !IsSpace(Joined(lines)[0])
  {
    hide Unfolded, SplitLines, IsSpace;
    var line := lines[0];
    if |lines| == 1 {
      UnfoldLine(line, "");
      SplitLine(line, "");
      EmptyText();
      assert line + "" == line && lines == [line];
    } else {
      var rest := Joined(lines[1..]);
      JoinedSplits(lines[1..]);
      BreakAt(rest);
      UnfoldLine(line, "\r\n" + rest);
      SplitLine(line, "\r\n" + rest);
      assert line + ("\r\n" + rest) == Joined(lines);
      assert line + "" == line && lines == [line] + lines[1..];
    }
  }

  lemma EmptyText()
    ensures Unfolded("") == "" && SplitLines("") == [""]
  {
  }

  // Parameters survive.

  lemma {:induction false} PiecesConcat(a: string, b: string)
    ensures Pieces(a + ";" + b) == Pieces(a) + Pieces(b)
  {
    var s := a + ";" + b;
    if a == "" {
      assert s[1..] == b;
    } else {
      PiecesConcat(a[1..], b);
      OntoFacts([a[0]], "", Pieces(a[1..]), Pieces(b));
      hide Onto;
      assert s[1..] == a[1..] + ";" + b;
    }
  }

  lemma {:induction false} OnePiece(s: string)
    requires ';' !in s
    ensures Pieces(s) == [s]
  {
    if s != "" {
      OnePiece(s[1..]);
      assert s == [s[0]] + s[1..];
    }
  }

  function Prefixed(pieces: seq<string>): string {
    if pieces == [] then "" else ";" + pieces[0] + Prefixed(pieces[1..])
  }

  lemma {:induction false} PrefixedPieces(s: string)
    ensures Prefixed(Pieces(s)) == ";" + s
  {
    if s != "" {
      PrefixedPieces(s[1..]);
      assert s == [s[0]] + s[1..];
      if s[0] == ';' {
        assert Pieces(s)[1..] == Pieces(s[1..]);
      } else {
        PrefixedOnto([s[0]], Pieces(s[1..]), s[1..]);
      }
    }
  }

  lemma PrefixedOnto(x: string, pieces: seq<string>, t: string)
    requires pieces != [] && Prefixed(pieces) == ";" + t
    ensures Prefixed(Onto(x, pieces)) == ";" + (x + t)
  {
    assert Onto(x, pieces)[1..] == pieces[1..];
    var tail := Prefixed(pieces[1..]);
    assert (";" + pieces[0] + tail)[1..] == pieces[0] + tail;
    assert (";" + t)[1..] == t;
    assert x + pieces[0] + tail == x + (pieces[0] + tail);
  }

  lemma {:induction false} AfterParamsConcat(q: Params, a: seq<string>, b: seq<string>, name: string)
    ensures AfterParams(q, a + b, name) == AfterParams(AfterParams(q, a, name), b, name)
    decreases |a|
  {
    hide AfterParam;
    if a == [] {
      assert a + b == b;
    } else {
      AfterParamsConcat(AfterParam(q, a[0], name), a[1..], b, name);
      assert (a + b)[1..] == a[1..] + b;
    }
  }

  lemma {:induction false} OrdinaryParams(q: Params, pieces: seq<string>, name: string)
    requires q.Params? && forall p | p in pieces :: Ordinary(p, name)
    ensures AfterParams(q, pieces, name) == q.(text := q.text + Prefixed(pieces))
    decreases |pieces|
  {
    if pieces == [] {
      assert q.text + "" == q.text;
    } else {
      OrdinaryParam(q, pieces[0], name);
      hide AfterParam, Ordinary;
      var q' := AfterParam(q, pieces[0], name);
      OrdinaryParams(q', pieces[1..], name);
      assert q'.text + Prefixed(pieces[1..]) == q.text + (";" + pieces[0] + Prefixed(pieces[1..]));
    }
  }

  lemma OrdinaryParam(q: Params, p: string, name: string)
    requires q.Params? && Ordinary(p, name)
    ensures AfterParam(q, p, name) == q.(text := q.text + ";" + p)
  {
  }

  /** The parameters of a printed property read back: visibility, id and text. */
  lemma ParamsReadBack(c: Card, p: Prop)
    requires WellFormed(p)
    ensures var q := AfterParams(Params(0, -1, ""), Pieces(ParamText(c, p)), p.name);
            q == Params(p.visibility, p.id, if p.params == "" then "" else ";" + p.params)
  {
    hide AfterParam, Pieces;
    var a := if p.params != "" then ";" + p.params else "";
    var vis := ";" + ("X-FIY-VISIBILITY=" + [VisChar(p.visibility)]);
    var b := if p.visibility != 0 || c.user == c.owner then vis else "";
    var d := if p.id >= 0 then ";" + ("X-FIY-ID=" + Dec(p.id)) else "";
    var q1 := Params(0, -1, a);
    assert AfterParams(Params(0, -1, ""), Pieces(a), p.name) == q1 by {
      ReadText(p);
    }
    var q2 := q1.(visibility := p.visibility);
    assert AfterParams(Params(0, -1, ""), Pieces(a + b), p.name) == q2 by {
      VisibilityPiece(q1, p.visibility, p.name);
      if b != "" { ReadOne(Params(0, -1, ""), a, "X-FIY-VISIBILITY=" + [VisChar(p.visibility)], p.name); }
      else { assert a + b == a; }
    }
    assert AfterParams(Params(0, -1, ""), Pieces(a + b + d), p.name) == q2.(id := p.id) by {
      if d != "" {
        IdPiece(q2, p.id, p.name);
        ReadOne(Params(0, -1, ""), a + b, "X-FIY-ID=" + Dec(p.id), p.name);
      } else {
        assert a + b + d == a + b;
      }
    }
  }

  lemma ReadText(p: Prop)
    requires WellFormed(p)
    ensures AfterParams(Params(0, -1, ""), Pieces(if p.params != "" then ";" + p.params else ""), p.name)
         == Params(0, -1, if p.params != "" then ";" + p.params else "")
  {
    hide Ordinary;
    var q := Params(0, -1, "");
    EmptyPiece(q, p.name);
    if p.params != "" {
      assert "" + ";" + p.params == ";" + p.params;
      PiecesConcat("", p.params);
      AfterParamsConcat(q, Pieces(""), Pieces(p.params), p.name);
      OrdinaryParams(q, Pieces(p.params), p.name);
      PrefixedPieces(p.params);
      assert "" + (";" + p.params) == ";" + p.params;
    }
  }

  lemma EmptyPiece(q: Params, name: string)
    ensures Pieces("") == [""] && AfterParams(q, Pieces(""), name) == q
  {
  }

  /** A parameter printed last is read last. */
  lemma ReadOne(q: Params, before: string, piece: string, name: string)
    requires ';' !in piece
    ensures AfterParams(q, Pieces(before + (";" + piece)), name)
         == AfterParam(AfterParams(q, Pieces(before), name), piece, name)
  {
    hide AfterParam, Pieces;
    assert before + (";" + piece) == before + ";" + piece;
    PiecesConcat(before, piece);
    OnePiece(piece);
    AfterParamsConcat(q, Pieces(before), [piece], name);
    var q' := AfterParams(q, Pieces(before), name);
    assert AfterParams(q', [piece], name) == AfterParam(q', piece, name);
  }

  lemma VisibilityPiece(q: Params, v: nat, name: string)
    requires q.Params? && v <= 3
    ensures AfterParam(q, "X-FIY-VISIBILITY=" + [VisChar(v)], name) == q.(visibility := v)
    ensures ';' !in "X-FIY-VISIBILITY=" + [VisChar(v)]
  {
    var p := "X-FIY-VISIBILITY=" + [VisChar(v)];
    assert "X-FIY-VISIBILITY=" <= p;
    VisCharIsDigit(v);
    assert p[17] == VisChar(v);
  }

  lemma IdPiece(q: Params, id: nat, name: string)
    requires q.Params? && id <= INT64_MAX
    ensures AfterParam(q, "X-FIY-ID=" + Dec(id), name) == q.(id := id)
    ensures ';' !in "X-FIY-ID=" + Dec(id)
  {
    var p := "X-FIY-ID=" + Dec(id);
    assert p[9..] == Dec(id) && p[2] == 'F' && p[6] == 'I';
    assert "X-FIY-VISIBILITY="[6] == 'V';
    DecDigits(id);
    ReadDec(id);
  }

  // Lines are read back.

  lemma LineParts(c: Card, name: string, params: string, value: string, h: Host)
    requires ':' !in name && ';' !in name && ':' !in params && (params == "" || params[0] == ';')
    ensures AfterLine(c, Line(name, params, value), h) == Some(AfterField(c, name, params, value, h))
  {
    var line, n, k := Line(name, params, value), |name|, |name| + |params|;
    assert line[k] == ':' && line[..k] == name + params && line[k + 1..] == value;
    assert forall j | 0 <= j < k :: line[j] == (name + params)[j];
    assert forall j | 0 <= j < n :: line[..k][j] == name[j];
    assert params != "" ==> line[..k][n] == params[0];
    assert IndexOf(line, ':', 0) == k;
    assert IndexOf(line[..k], ';', 0) == n;
    assert line[..n] == name && line[n..k] == params;
  }

  lemma PropField(c0: Card, c: Card, p: Prop, h: Host)
    requires WellFormed(p)
    ensures AfterField(c0, p.name, ParamText(c, p), p.value, h) == c0.(props := c0.props + [p])
  {
    ParamsReadBack(c, p);
    NoLeadingSemicolon(p);
    hide AfterParams, Pieces, ParamText;
    assert DropSemicolon(if p.params == "" then "" else ";" + p.params) == p.params;
  }

  lemma NoLeadingSemicolon(p: Prop)
    requires WellFormed(p)
    ensures p.params != "" ==> p.params[0] != ';'
  {
    if p.params != "" {
      assert Ordinary(Pieces(p.params)[0], p.name);
    }
  }

  /** Text that can stand between a property name and its colon. */
  predicate ParamShape(t: string) {
    ':' !in t && OneLine(t) && (t == "" || t[0] == ';')
  }

  lemma ParamTextShape(c: Card, p: Prop)
    requires Printable(p) && ':' !in p.params
    ensures ParamShape(ParamText(c, p))
  {
    var vis, id := "X-FIY-VISIBILITY=" + [VisChar(p.visibility)], if p.id >= 0 then "X-FIY-ID=" + Dec(p.id) else "";
    ValueShapes(p);
    SemicolonShape(p.params);
    SemicolonShape(vis);
    SemicolonShape(id);
    hide VisChar, Dec, Pieces, ParamShape, Printable, OneLine;
    ShapeConcat(if p.params != "" then ";" + p.params else "",
                if p.visibility != 0 || c.user == c.owner then ";" + vis else "",
                if p.id >= 0 then ";" + id else "");
  }

  lemma ValueShapes(p: Prop)
    requires 0 <= p.visibility <= 3
    ensures var vis := "X-FIY-VISIBILITY=" + [VisChar(p.visibility)]; ':' !in vis && OneLine(vis)
    ensures p.id >= 0 ==> var id := "X-FIY-ID=" + Dec(p.id); ':' !in id && OneLine(id)
  {
    VisCharIsDigit(p.visibility);
    if p.id >= 0 { DecDigits(p.id); }
    hide VisChar, Dec;
  }

  lemma SemicolonShape(s: string)
    requires ':' !in s && OneLine(s)
    ensures ParamShape(";" + s) && ParamShape("")
  {
  }

  lemma VisCharIsDigit(v: int)
    requires 0 <= v <= 3
    ensures VisChar(v) as int == 48 + v
  {
  }

  lemma ShapeConcat(a: string, b: string, c: string)
    requires ParamShape(a) && ParamShape(b) && ParamShape(c)
    ensures ParamShape(a + b + c)
  {
  }

  /** Each property line yields at most one property; all of them come back exactly when their
      parameters are plain, and then nothing else of the card changes. */
  lemma {:induction false} PropLinesRead(c0: Card, c: Card, props: seq<Prop>, h: Host)
    returns (c1: Card, ps: seq<Prop>)
    requires forall i | 0 <= i < |props| :: Printable(props[i])
    ensures Reads(c0, PropLines(c, props), c1, h)
    ensures c1.props == c0.props + ps && |ps| <= |props|
    ensures ps == props <==> AllPlain(props)
    ensures AllPlain(props) ==> c1 == c0.(props := c0.props + props)
    decreases |props|
  {
    hide Printable, PlainParams, Reads, PropLine;
    if props == [] {
      NothingReads(c0, h);
      c1, ps := c0, [];
    } else {
      var p, rest := props[0], props[1..];
      var c2, first, more;
      c2, first := PropLineReads(c0, c, p, h);
      c1, more := PropLinesRead(c2, c, rest, h);
      ps := first + more;
      assert c0.props + first + more == c0.props + ps;
      ReadsConcat(c0, [PropLine(c, p)], c2, PropLines(c, rest), c1, h);
      FirstAndRest(first, more, p, rest);
      assert props == [p] + rest;
      assert AllPlain(props) <==> PlainParams(p) && AllPlain(rest) by {
        assert forall i | 0 < i < |props| :: props[i] == rest[i - 1];
      }
    }
  }

  lemma FirstAndRest(first: seq<Prop>, more: seq<Prop>, p: Prop, rest: seq<Prop>)
    requires |first| <= 1 && |more| <= |rest|
    ensures first + more == [p] + rest <==> first == [p] && more == rest
  {
    if first + more == [p] + rest {
      assert |first + more| == |[p] + rest|;
      assert first == (first + more)[..1] && more == (first + more)[1..];
    }
  }

  lemma NothingReads(c0: Card, h: Host)
    ensures Reads(c0, [], c0, h)
  {
  }

  /** What one printed property reads as: itself if its parameters are plain, else something else
      or nothing. */
  lemma PropLineReads(c0: Card, c: Card, p: Prop, h: Host) returns (c1: Card, ps: seq<Prop>)
    requires Printable(p)
    ensures Reads(c0, [PropLine(c, p)], c1, h)
    ensures c1.props == c0.props + ps && |ps| <= 1
    ensures ps == [p] <==> PlainParams(p)
    ensures PlainParams(p) ==> c1 == c0.(props := c0.props + [p])
  {
    hide ParamText, AfterField, Pieces, Reads, Ordinary, AfterParams, Reserved, IsSpace, OneLine, Line, ParamShape;
    if ':' in p.params {
      var x, value := CutParams(c, p);
      OneLineReads(c0, p.name, ";" + x, value, h);
      c1 := AfterField(c0, p.name, ";" + x, value, h);
      ps := FieldYields(c0, p.name, ";" + x, value, h);
    } else {
      ParamTextShape(c, p);
      OneLineReads(c0, p.name, ParamText(c, p), p.value, h);
      c1 := AfterField(c0, p.name, ParamText(c, p), p.value, h);
      ps := FieldYields(c0, p.name, ParamText(c, p), p.value, h);
      if PlainParams(p) {
        PropField(c0, c, p, h);
        assert ps == (c0.props + ps)[|c0.props|..] == (c0.props + [p])[|c0.props|..] == [p];
      } else {
        ParamsLost(c, p);
      }
    }
  }

  lemma FieldYields(c0: Card, name: string, rawParams: string, value: string, h: Host) returns (ps: seq<Prop>)
    requires !Reserved(name)
    ensures AfterField(c0, name, rawParams, value, h).props == c0.props + ps
    ensures var q := AfterParams(Params(0, -1, ""), Pieces(rawParams), name);
            ps == match q
                  case SocialProfile => []
                  case Params(visibility, id, text) =>
                    [Prop(id, name, DropSemicolon(DropSemicolon(text)), value, visibility)]
  {
    hide AfterParams, Pieces, DropSemicolon, UserOf;
    var q := AfterParams(Params(0, -1, ""), Pieces(rawParams), name);
    ps := match q
          case SocialProfile => []
          case Params(visibility, id, text) =>
            [Prop(id, name, DropSemicolon(DropSemicolon(text)), value, visibility)];
  }

  /** The parameters `to_vcard` adds of its own. */
  function OwnParams(c: Card, p: Prop): string {
    (if p.visibility != 0 || c.user == c.owner then ";" + ("X-FIY-VISIBILITY=" + [VisChar(p.visibility)]) else "")
    + (if p.id >= 0 then ";" + ("X-FIY-ID=" + Dec(p.id)) else "")
  }

  lemma ParamTextSplit(c: Card, p: Prop)
    requires Printable(p)
    ensures ParamText(c, p) == (if p.params != "" then ";" + p.params else "") + OwnParams(c, p)
    ensures OneLine(OwnParams(c, p))
  {
    ValueShapes(p);
    hide Printable, VisChar, Dec;
    Assoc(if p.params != "" then ";" + p.params else "",
          if p.visibility != 0 || c.user == c.owner then ";" + ("X-FIY-VISIBILITY=" + [VisChar(p.visibility)]) else "",
          if p.id >= 0 then ";" + ("X-FIY-ID=" + Dec(p.id)) else "");
  }

  /** A colon among the parameters, even a quoted one, ends them: the rest goes to the value. */
  lemma CutParams(c: Card, p: Prop) returns (x: string, value: string)
    requires Printable(p) && ':' in p.params
    ensures PropLine(c, p) == Line(p.name, ";" + x, value)
    ensures |value| > |p.value| && ParamShape(";" + x) && OneLine(value)
  {
    ParamTextSplit(c, p);
    hide ParamText, OwnParams, Reserved, IsSpace;
    var k := IndexOf(p.params, ':', 0);
    assert k < |p.params| by {
      var j :| 0 <= j < |p.params| && p.params[j] == ':';
    }
    x := p.params[..k];
    var y := p.params[k + 1..];
    value := y + OwnParams(c, p) + ":" + p.value;
    assert p.params == x + ":" + y;
    SameLine(p.name, x, y, OwnParams(c, p), p.value);
  }

  lemma SameLine(name: string, x: string, y: string, own: string, value: string)
    ensures Line(name, ";" + (x + ":" + y) + own, value) == Line(name, ";" + x, y + own + ":" + value)
  {
  }

  /** The example: a quoted colon in a parameter, which section 3.3 of RFC 6350 allows, prints like
      a shorter parameter and a longer value, and is read as those. */
  lemma QuotedColonIsLost(c0: Card, c: Card, h: Host)
    requires c.user != c.owner
    ensures var p, read := Prop(-1, "TEL", "X=\"a:b\"", "1", 0), Prop(-1, "TEL", "X=\"a", "b\":1", 0);
            && PropLine(c, p) == PropLine(c, read)
            && AfterLine(c0, PropLine(c, p), h) == Some(c0.(props := c0.props + [read]))
  {
    hide Pieces, Ordinary, IsSpace, AfterField, IndexOf, Dec, VisChar;
    var p, read := Prop(-1, "TEL", "X=\"a:b\"", "1", 0), Prop(-1, "TEL", "X=\"a", "b\":1", 0);
    SameLine("TEL", "X=\"a", "b\"", "", "1");
    assert "X=\"a:b\"" == "X=\"a" + ":" + "b\"";
    assert PropLine(c, p) == Line("TEL", ";" + "X=\"a:b\"" + "", "1");
    assert PropLine(c, read) == Line("TEL", ";" + "X=\"a", "b\":1");
    assert "b\"" + "" + ":" + "1" == "b\":1";
    ExampleIsPlain(read);
    PropField(c0, c, read, h);
    ParamTextShape(c, read);
    LineParts(c0, "TEL", ParamText(c, read), "b\":1", h);
  }

  lemma ExampleIsPlain(p: Prop)
    requires p == Prop(-1, "TEL", "X=\"a", "b\":1", 0)
    ensures WellFormed(p)
  {
    OnePiece(p.params);
    assert p.params[1] == '=' && "X-FIY-VISIBILITY="[1] == '-' && "X-FIY-ID="[1] == '-';
    assert Ordinary(p.params, p.name) by {
      assert "TYPE=fiy"[0] == 'T';
    }
    assert Printable(p) by {
      assert |p.name| == 3 && |"UID"| == 3 && p.name[0] == 'T';
    }
  }

  /** Parameters without a colon that the parser drops or takes for its own do not come back. */
  lemma ParamsLost(c: Card, p: Prop)
    requires Printable(p) && ':' !in p.params && !PlainParams(p)
    ensures var q := AfterParams(Params(0, -1, ""), Pieces(ParamText(c, p)), p.name);
            q.SocialProfile? || DropSemicolon(DropSemicolon(q.text)) != p.params
  {
    hide AfterParam, Pieces, Ordinary, ParamText;
    var q0 := Params(0, -1, "");
    var a := ";" + p.params;
    OwnText(c, p);
    PiecesConcat("", p.params);
    assert "" + ";" + p.params == a;
    EmptyPiece(q0, p.name);
    AfterParamsConcat(q0, Pieces(""), Pieces(p.params), p.name);
    NoSemicolons(p.params);
    KeptText(q0, Pieces(p.params), p.name);
    PrefixedPieces(p.params);
  }

  /** The program's own parameters do not add to the text. */
  lemma OwnText(c: Card, p: Prop)
    requires Printable(p) && p.params != ""
    ensures var q1 := AfterParams(Params(0, -1, ""), Pieces(";" + p.params), p.name);
            var q := AfterParams(Params(0, -1, ""), Pieces(ParamText(c, p)), p.name);
            if q1.SocialProfile? then q.SocialProfile? else q.Params? && q.text == q1.text
  {
    hide AfterParam, Pieces, Reserved, IsSpace, OneLine;
    var q0 := Params(0, -1, "");
    var vis, id := "X-FIY-VISIBILITY=" + [VisChar(p.visibility)], if p.id >= 0 then "X-FIY-ID=" + Dec(p.id) else "";
    var a := ";" + p.params;
    var b := if p.visibility != 0 || c.user == c.owner then ";" + vis else "";
    var d := if p.id >= 0 then ";" + id else "";
    var q1, q2 := AfterParams(q0, Pieces(a), p.name), AfterParams(q0, Pieces(a + b), p.name);
    AfterSocial(vis, p.name);
    AfterSocial(id, p.name);
    VisibilityPiece(q0, p.visibility, p.name);
    if q1.Params? { VisibilityPiece(q1, p.visibility, p.name); }
    if b != "" { ReadOne(q0, a, vis, p.name); } else { assert a + b == a; }
    if p.id >= 0 {
      IdPiece(q0, p.id, p.name);
      if q2.Params? { IdPiece(q2, p.id, p.name); }
      ReadOne(q0, a + b, id, p.name);
    } else {
      assert a + b + d == a + b;
    }
  }

  lemma AfterSocial(piece: string, name: string)
    ensures AfterParam(SocialProfile, piece, name) == SocialProfile
  {
  }

  lemma {:induction false} NoSemicolons(s: string)
    ensures forall q | q in Pieces(s) :: ';' !in q
  {
    if s != "" {
      NoSemicolons(s[1..]);
    }
  }

  predicate TextShape(t: string) {
    t == "" || (|t| >= 2 && t[0] == ';' && t[1] != ';')
  }

  /** How much of the parameters is kept as text: all of it exactly when every piece is ordinary. */
  lemma {:induction false} KeptText(q: Params, pieces: seq<string>, name: string)
    requires q.Params? && TextShape(q.text) && forall p | p in pieces :: ';' !in p
    ensures var r := AfterParams(q, pieces, name);
            var all := forall p | p in pieces :: Ordinary(p, name);
            && (r.SocialProfile? ==> !all)
            && (r.Params? ==> TextShape(r.text) && |r.text| <= |q.text| + |Prefixed(pieces)|
                              && (|r.text| == |q.text| + |Prefixed(pieces)| <==> all))
    decreases |pieces|
  {
    if pieces != [] {
      var p, rest := pieces[0], pieces[1..];
      KeptPiece(q, p, name);
      hide AfterParam, Ordinary, TextShape;
      var q' := AfterParam(q, p, name);
      assert forall x | x in pieces :: x == p || x in rest;
      if q'.SocialProfile? {
        SocialStays(rest, name);
      } else {
        KeptText(q', rest, name);
      }
    }
  }

  lemma KeptPiece(q: Params, p: string, name: string)
    requires q.Params? && TextShape(q.text) && ';' !in p
    ensures var r := AfterParam(q, p, name);
            if Ordinary(p, name) then r.Params? && r.text == q.text + ";" + p && TextShape(r.text)
            else r.SocialProfile? || r.text == q.text
  {
  }

  lemma {:induction false} SocialStays(pieces: seq<string>, name: string)
    ensures AfterParams(SocialProfile, pieces, name) == SocialProfile
  {
    if pieces != [] {
      AfterSocial(pieces[0], name);
      hide AfterParam;
      SocialStays(pieces[1..], name);
    }
  }

  lemma {:induction false} AfterLinesConcat(c: Card, a: seq<string>, b: seq<string>, h: Host)
    requires AfterLines(c, a, h).1
    ensures AfterLines(c, a + b, h) == AfterLines(AfterLines(c, a, h).0, b, h)
    decreases |a|
  {
    hide AfterLine;
    if a == [] {
      assert a + b == b;
    } else {
      AfterLinesConcat(AfterLine(c, a[0], h).value, a[1..], b, h);
      assert (a + b)[1..] == a[1..] + b;
    }
  }

  /** `lines` are good and read as one step from `c0` to `c1`. */
  ghost predicate Reads(c0: Card, lines: seq<string>, c1: Card, h: Host) {
    AfterLines(c0, lines, h) == (c1, true) && forall i | 0 <= i < |lines| :: GoodLine(lines[i])
  }

  lemma ReadsConcat(c0: Card, a: seq<string>, c1: Card, b: seq<string>, c2: Card, h: Host)
    requires Reads(c0, a, c1, h) && Reads(c1, b, c2, h)
    ensures Reads(c0, a + b, c2, h)
  {
    AfterLinesConcat(c0, a, b, h);
  }

  predicate PlainName(name: string) {
    name != "" && !IsSpace(name[0]) && ':' !in name && ';' !in name && OneLine(name)
  }

  lemma OneLineReads(c0: Card, name: string, params: string, value: string, h: Host)
    requires PlainName(name) && OneLine(value) && ParamShape(params)
    ensures Reads(c0, [Line(name, params, value)], AfterField(c0, name, params, value, h), h)
  {
    hide AfterField, AfterLine, IsSpace;
    LineParts(c0, name, params, value, h);
    var line := Line(name, params, value);
    assert OneLine(line) && line[0] == name[0];
    SingleLine(c0, line, AfterField(c0, name, params, value, h), h);
  }

  lemma SingleLine(c0: Card, line: string, c1: Card, h: Host)
    requires AfterLine(c0, line, h) == Some(c1)
    ensures AfterLines(c0, [line], h) == (c1, true)
  {
    hide AfterLine;
    var rest := [line][1..];
    assert rest == [];
  }

  /** What the parser does with the lines that are not properties. */
  lemma SkippedField(c0: Card, name: string, value: string, h: Host)
    requires Ignored(name) || name == "SOURCE"
    ensures AfterField(c0, name, "", value, h) == c0
  {
    hide AfterParams, Pieces;
  }

  lemma RevField(c0: Card, value: string, h: Host)
    ensures AfterField(c0, "REV", "", value, h) == c0.(updateTs := h.readRev(value))
  {
    hide AfterParams, Pieces;
    assert !Ignored("REV");
  }

  /** The update time that comes back. */
  function ReadTs(c: Card, h: Host, rev: string): int {
    if c.updateTs != 0 then h.readRev(rev) else 0
  }

  lemma IdAndUserFields(c0: Card, value: string, h: Host)
    ensures AfterField(c0, "UID", "", value, h) == if Stoll(value).Some? then c0.(id := Stoll(value).value) else c0
    ensures AfterField(c0, "X-FIY-PROFILE", "", value, h) == c0.(user := UserOf(value, h))
  {
    hide AfterParams, Pieces, Stoll, UserOf;
    assert !Ignored("UID") && !Ignored("X-FIY-PROFILE");
  }

  lemma SocialField(c0: Card, value: string, h: Host)
    ensures AfterField(c0, "X-SOCIALPROFILE", ";TYPE=fiy", value, h) == c0.(user := UserOf(value, h))
  {
    var q, name := Params(0, -1, ""), "X-SOCIALPROFILE";
    SocialParam(q);
    NotReserved();
    hide AfterParams, Pieces, UserOf, AfterParam;
    assert ";TYPE=fiy" == "" + (";" + "TYPE=fiy");
    ReadOne(q, "", "TYPE=fiy", name);
    EmptyPiece(q, name);
  }

  lemma SocialParam(q: Params)
    requires q.Params?
    ensures AfterParam(q, "TYPE=fiy", "X-SOCIALPROFILE") == SocialProfile
  {
    assert "TYPE=fiy"[0] == 'T' && "X-FIY-VISIBILITY="[0] == 'X' && "X-FIY-ID="[0] == 'X';
  }

  lemma NameField(c0: Card, value: string, h: Host)
    ensures AfterField(c0, "FN", "", value, h) == c0.(props := c0.props + [Prop(-1, "FN", "", value, 0)])
  {
    EmptyPiece(Params(0, -1, ""), "FN");
    NotReserved();
    hide AfterParams, Pieces;
  }

  lemma NotReserved()
    ensures !Reserved("X-SOCIALPROFILE") && !Reserved("FN")
  {
    assert "FN" != "UID" && |"X-SOCIALPROFILE"| == 15;
  }

  lemma PlainNames()
    ensures PlainName("BEGIN") && PlainName("VERSION") && PlainName("SOURCE") && PlainName("UID")
    ensures PlainName("REV") && PlainName("FN") && PlainName("END")
  {
  }

  lemma PlainUserNames()
    ensures PlainName("X-FIY-PROFILE") && PlainName("X-SOCIALPROFILE")
  {
  }

  lemma UserReadBack(user: string, h: Host)
    requires user != "" && '@' !in user
    ensures UserOf(Address(user, h), h) == user
  {
    var s := Address(user, h);
    assert s[|user|] == '@' && s[..|user|] == user && s[|user| + 1..] == h.domain;
    assert forall j | 0 <= j < |user| :: s[j] == user[j];
    assert IndexOf(s, '@', 0) == |user|;
  }

  // Whole cards.

  /** A card object as `parse` starts from it, with only the owner filled in. */
  function Blank(owner: string): Card {
    Card(-1, owner, "", 0, [])
  }

  function IdLines(c: Card, h: Host): seq<string> {
    if c.id >= 0 then [Line("SOURCE", "", h.baseUri + "/id/" + Dec(c.id)), Line("UID", "", Dec(c.id))] else []
  }

  lemma IdLinesRead(c0: Card, c: Card, h: Host)
    requires OneLine(h.baseUri) && -1 <= c.id <= INT64_MAX
    ensures Reads(c0, IdLines(c, h), c0.(id := if c.id >= 0 then c.id else c0.id), h)
  {
    hide Reads, AfterField;
    PlainNames();
    if c.id >= 0 {
      var source := h.baseUri + "/id/" + Dec(c.id);
      DecDigits(c.id);
      ReadDec(c.id);
      SkippedField(c0, "SOURCE", source, h);
      OneLineReads(c0, "SOURCE", "", source, h);
      IdAndUserFields(c0, Dec(c.id), h);
      OneLineReads(c0, "UID", "", Dec(c.id), h);
      ReadsConcat(c0, [Line("SOURCE", "", source)], c0, [Line("UID", "", Dec(c.id))], c0.(id := c.id), h);
      assert IdLines(c, h) == [Line("SOURCE", "", source)] + [Line("UID", "", Dec(c.id))];
    } else {
      NothingReads(c0, h);
    }
  }

  function UserLines(c: Card, h: Host): seq<string> {
    (if c.user != "" && c.owner == c.user then [Line("X-FIY-PROFILE", "", Address(c.user, h))] else [])
    + (if c.user != "" then [Line("X-SOCIALPROFILE", ";TYPE=fiy", Address(c.user, h))] else [])
  }

  lemma UserLinesRead(c0: Card, c: Card, h: Host)
    requires OneLine(h.domain) && OneLine(c.user) && '@' !in c.user
    ensures Reads(c0, UserLines(c, h), c0.(user := if c.user != "" then c.user else c0.user), h)
  {
    hide Reads, AfterField;
    NothingReads(c0, h);
    if c.user != "" {
      PlainUserNames();
      UserReadBack(c.user, h);
      var c1, value := c0.(user := c.user), Address(c.user, h);
      IdAndUserFields(c0, value, h);
      OneLineReads(c0, "X-FIY-PROFILE", "", value, h);
      SocialField(c0, value, h);
      OneLineReads(c0, "X-SOCIALPROFILE", ";TYPE=fiy", value, h);
      SocialField(c1, value, h);
      OneLineReads(c1, "X-SOCIALPROFILE", ";TYPE=fiy", value, h);
      var social := [Line("X-SOCIALPROFILE", ";TYPE=fiy", value)];
      if c.owner == c.user {
        ReadsConcat(c0, [Line("X-FIY-PROFILE", "", value)], c1, social, c1, h);
      } else {
        assert UserLines(c, h) == social;
      }
    } else {
      assert UserLines(c, h) == [];
    }
  }

  lemma HeadLinesRead(c: Card, h: Host, rev: string, owner: string)
    requires PrintableCard(c) && WellFormedHost(h, rev)
    ensures Reads(Blank(owner), HeadLines(c, h, rev), Card(c.id, owner, c.user, ReadTs(c, h, rev), []), h)
  {
    hide Reads, AfterField, IdLines, UserLines, Line;
    PlainNames();
    var c0 := Blank(owner);
    var c1 := c0.(id := if c.id >= 0 then c.id else -1);
    var c2 := Card(c.id, owner, c.user, 0, []);
    SkippedField(c0, "BEGIN", "VCARD", h);
    OneLineReads(c0, "BEGIN", "", "VCARD", h);
    SkippedField(c0, "VERSION", "4.0", h);
    OneLineReads(c0, "VERSION", "", "4.0", h);
    var start := [Line("BEGIN", "", "VCARD")] + [Line("VERSION", "", "4.0")];
    ReadsConcat(c0, [Line("BEGIN", "", "VCARD")], c0, [Line("VERSION", "", "4.0")], c0, h);
    IdLinesRead(c0, c, h);
    ReadsConcat(c0, start, c0, IdLines(c, h), c1, h);
    UserLinesRead(c1, c, h);
    ReadsConcat(c0, start + IdLines(c, h), c1, UserLines(c, h), c2, h);
    var last := if c.updateTs != 0 then [Line("REV", "", rev)] else [];
    var c3 := c2.(updateTs := ReadTs(c, h, rev));
    RevField(c2, rev, h);
    OneLineReads(c2, "REV", "", rev, h);
    NothingReads(c2, h);
    ReadsConcat(c0, start + IdLines(c, h) + UserLines(c, h), c2, last, c3, h);
    HeadLinesParts(c, h, rev);
  }

  lemma HeadLinesParts(c: Card, h: Host, rev: string)
    ensures HeadLines(c, h, rev)
         == [Line("BEGIN", "", "VCARD")] + [Line("VERSION", "", "4.0")] + IdLines(c, h) + UserLines(c, h)
            + if c.updateTs != 0 then [Line("REV", "", rev)] else []
  {
    hide Line;
    var a, b := Line("BEGIN", "", "VCARD"), Line("VERSION", "", "4.0");
    assert [a, b] == [a] + [b];
    var x := if c.user != "" && c.owner == c.user then [Line("X-FIY-PROFILE", "", Address(c.user, h))] else [];
    var y := if c.user != "" then [Line("X-SOCIALPROFILE", ";TYPE=fiy", Address(c.user, h))] else [];
    assert [a, b] + IdLines(c, h) + x + y == [a, b] + IdLines(c, h) + (x + y);
  }

  /** All the lines of a card are read; the properties come back exactly when their parameters are
      plain. */
  lemma LinesRead(c: Card, h: Host, rev: string, owner: string) returns (d: Card, ps: seq<Prop>)
    requires PrintableCard(c) && WellFormedHost(h, rev)
    ensures Reads(Blank(owner), Lines(c, h, rev), d, h)
    ensures d.props == ps + (if HasName(c.props) then [] else [Prop(-1, "FN", "", c.user, 0)])
    ensures ps == c.props <==> AllPlain(c.props)
    ensures AllPlain(c.props) ==> d == Card(c.id, owner, c.user, ReadTs(c, h, rev), AllProps(c))
  {
    hide Reads, AfterField, HeadLines, PropLines, HasName, Printable, AllPlain, Line;
    PlainNames();
    var c0, c1 := Blank(owner), Card(c.id, owner, c.user, ReadTs(c, h, rev), []);
    HeadLinesRead(c, h, rev, owner);
    var c2;
    c2, ps := PropLinesRead(c1, c, c.props, h);
    assert [] + ps == ps;
    ReadsConcat(c0, HeadLines(c, h, rev), c1, PropLines(c, c.props), c2, h);
    var named := if HasName(c.props) then [] else [Line("FN", "", c.user)];
    d := if HasName(c.props) then c2 else c2.(props := c2.props + [Prop(-1, "FN", "", c.user, 0)]);
    NothingReads(c2, h);
    NameField(c2, c.user, h);
    OneLineReads(c2, "FN", "", c.user, h);
    ReadsConcat(c0, HeadLines(c, h, rev) + PropLines(c, c.props), c2, named, d, h);
    SkippedField(d, "END", "VCARD", h);
    OneLineReads(d, "END", "", "VCARD", h);
    ReadsConcat(c0, HeadLines(c, h, rev) + PropLines(c, c.props) + named, d, [Line("END", "", "VCARD")], d, h);
  }

  lemma {:induction false} JoinedEnds(lines: seq<string>)
    requires lines != [] && lines[|lines| - 1] != ""
    ensures lines[0] <= Joined(lines) && Joined(lines) != ""
    ensures Joined(lines)[|Joined(lines)| - 1] == lines[|lines| - 1][|lines[|lines| - 1]| - 1]
  {
    if |lines| > 1 {
      JoinedEnds(lines[1..]);
      assert lines[1..][|lines| - 2] == lines[|lines| - 1];
      assert lines[0] + "\r\n" + Joined(lines[1..]) == lines[0] + ("\r\n" + Joined(lines[1..]));
    }
  }

  lemma PrintedFrame(c: Card, h: Host, rev: string)
    requires !Invalid(c)
    ensures Trim(Printed(c, h, rev)) == Printed(c, h, rev) && "BEGIN:VCARD" <= Printed(c, h, rev)
  {
    var lines := Lines(c, h, rev);
    var text := Joined(lines);
    assert lines[|lines| - 1] == Line("END", "", "VCARD");
    assert lines[0] == Line("BEGIN", "", "VCARD");
    assert Line("BEGIN", "", "VCARD") == "BEGIN:VCARD" && Line("END", "", "VCARD") == "END:VCARD";
    JoinedEnds(lines);
    hide Joined, Lines;
    assert "BEGIN:VCARD"[0] == 'B' && "END:VCARD"[8] == 'D';
    assert text[0] == 'B' && text[|text| - 1] == 'D';
  }

  /** The round trip: parsing a printed card of a local user always succeeds; every property comes
      back in order, with its parameters, id and visibility, exactly when the parameters of each are
      plain, and then so do the id, the user and the update time. */
  lemma RoundTrip(c: Card, h: Host, rev: string, owner: string)
    requires PrintableCard(c) && WellFormedHost(h, rev) && !Invalid(c)
    ensures var (d, ok) := Parsed(Blank(owner), Printed(c, h, rev), h);
            && ok
            && (d.props == AllProps(c) <==> AllPlain(c.props))
            && (AllPlain(c.props) ==> d == Card(c.id, owner, c.user, ReadTs(c, h, rev), AllProps(c)))
  {
    hide PrintableCard, WellFormedHost, Lines, Joined, Trim, Unfolded, SplitLines, AfterLines, IsSpace, AllPlain;
    hide HasName;
    var d, ps := LinesRead(c, h, rev, owner);
    PrintedFrame(c, h, rev);
    LinesNonempty(c, h, rev);
    JoinedSplits(Lines(c, h, rev));
    SameEnd(ps, c.props, Prop(-1, "FN", "", c.user, 0));
  }

  lemma SameEnd(a: seq<Prop>, b: seq<Prop>, x: Prop)
    ensures a + [x] == b + [x] <==> a == b
    ensures a + [] == a
  {
    if a + [x] == b + [x] {
      assert |a + [x]| == |b + [x]|;
      assert a == (a + [x])[..|a|] && b == (b + [x])[..|b|];
    }
  }

  lemma LinesNonempty(c: Card, h: Host, rev: string)
    ensures Lines(c, h, rev) != []
  {
    hide HeadLines, PropLines, Line;
  }

  /** ... so exactly the given properties come back if and only if their parameters are plain and one
      of them is a name. */
  lemma RoundTripExactly(c: Card, h: Host, rev: string, owner: string)
    requires PrintableCard(c) && WellFormedHost(h, rev) && !Invalid(c)
    ensures Parsed(Blank(owner), Printed(c, h, rev), h).0.props == c.props
       <==> AllPlain(c.props) && HasName(c.props)
  {
    hide PrintableCard, WellFormedHost, Lines, Joined, Trim, Unfolded, SplitLines, AfterLines, IsSpace, AllPlain;
    var d, ps := LinesRead(c, h, rev, owner);
    PrintedFrame(c, h, rev);
    LinesNonempty(c, h, rev);
    JoinedSplits(Lines(c, h, rev));
    if !HasName(c.props) {
      var n := |ps|;
      assert d.props[n].name == "FN" && n < |d.props|;
      assert d.props != c.props;
    } else {
      assert ps + [] == ps;
    }
  }

  // ----- The implementation -----

  /** Lines each closed by a CRLF, as `to_vcard` accumulates them. */
  function Closed(lines: seq<string>): string {
    if lines == [] then "" else Closed(lines[..|lines| - 1]) + (lines[|lines| - 1] + "\r\n")
  }

  lemma {:induction false} ClosedJoined(lines: seq<string>, last: string)
    ensures Joined(lines + [last]) == Closed(lines) + last
    decreases |lines|
  {
    if lines == [] {
      assert [] + [last] == [last];
    } else {
      var n := |lines| - 1;
      var init, line := lines[..n], lines[n];
      ClosedJoined(init, line);
      assert lines == init + [line];
      JoinedSnoc(init, line, last);
    }
  }

  lemma {:induction false} JoinedSnoc(lines: seq<string>, line: string, last: string)
    ensures Joined(lines + [line] + [last]) == Joined(lines + [line]) + "\r\n" + last
  {
    var s, t := lines + [line], lines + [line] + [last];
    if lines == [] {
      assert s == [line] && t == [line, last] && t[1..] == [last];
    } else {
      JoinedSnoc(lines[1..], line, last);
      assert s[1..] == lines[1..] + [line] && t[1..] == lines[1..] + [line] + [last];
    }
  }

  lemma ClosedSnoc(lines: seq<string>, line: string)
    ensures Closed(lines + [line]) == Closed(lines) + (line + "\r\n")
  {
    assert (lines + [line])[..|lines|] == lines;
  }

  class VC {
    var id: int
    var owner: string
    var user: string
    var updateTs: int
    var props: seq<Prop>

    ghost function View(): Card
      reads this
    {
      Card(id, owner, user, updateTs, props)
    }

    constructor (owner: string)
      ensures View() == Blank(owner)
    {
      id, this.owner, user, updateTs, props := -1, owner, "", 0, [];
    }

    /** The text of one property, as the loop of `to_vcard` appends it. */
    method PrintProp(item: Prop) returns (line: string)
      ensures line == PropLine(View(), item)
    {
      hide Dec, VisChar;
      line := item.name;
      ghost var a, b := "", "";
      if item.params != "" {
        a := ";" + item.params;
        line := line + (";" + item.params);
      }
      if item.visibility != 0 || user == owner {
        b := ";" + ("X-FIY-VISIBILITY=" + [VisChar(item.visibility)]);
        line := line + (";" + ("X-FIY-VISIBILITY=" + [VisChar(item.visibility)]));
      }
      assert line == item.name + (a + b);
      if item.id >= 0 {
        ghost var d := ";" + ("X-FIY-ID=" + Dec(item.id));
        Assoc(item.name, a + b, d);
        line := line + (";" + ("X-FIY-ID=" + Dec(item.id)));
      }
      assert line == item.name + ParamText(View(), item);
      line := line + ":" + item.value;
    }

    /** The property loop of `to_vcard`. */
    method PrintProps(ret0: string, ghost head: seq<string>) returns (ret: string, hasName: bool)
      requires ret0 == Closed(head)
      ensures ret == Closed(head + PropLines(View(), props)) && hasName == HasName(props)
    {
      hide Closed, PropLine, HasName;
      ret, hasName := ret0, false;
      NoProps(View(), head);
      for i := 0 to |props|
        invariant hasName == HasName(props[..i])
        invariant ret == Closed(head + PropLines(View(), props[..i]))
      {
        var item := props[i];
        NameSoFar(props, i);
        PropLinesSnoc(View(), props, i);
        ghost var lines := head + PropLines(View(), props[..i]);
        if item.name == "N" || item.name == "FN" {
          hasName := true;
        }
        var line := PrintProp(item);
        ret := ret + (line + "\r\n");
        ClosedSnoc(lines, line);
        assert lines + [line] == head + PropLines(View(), props[..i + 1]);
      }
      assert props[..|props|] == props;
    }

    method ToVCard(h: Host, rev: string) returns (ret: string)
      ensures ret == Printed(View(), h, rev)
    {
      if id == -1 && updateTs == 0 {
        return "";
      }
      ghost var head;
      ret, head := PrintHead(h, rev);
      hide Closed, Joined, HasName, PropLines, HeadLines;
      var hasName: bool;
      ret, hasName := PrintProps(ret, head);
      ghost var lines := head + PropLines(View(), props);
      if !hasName {
        ClosedSnoc(lines, Line("FN", "", user));
        lines := lines + [Line("FN", "", user)];
        ret := ret + (Line("FN", "", user) + "\r\n");
      }
      ClosedJoined(lines, Line("END", "", "VCARD"));
      assert Lines(View(), h, rev) == lines + [Line("END", "", "VCARD")];
      ret := ret + Line("END", "", "VCARD");
    }

    /** The part of `to_vcard` before the properties. */
    method PrintHead(h: Host, rev: string) returns (ret: string, ghost head: seq<string>)
      ensures ret == Closed(HeadLines(View(), h, rev)) && head == HeadLines(View(), h, rev)
    {
      var begin, version := Line("BEGIN", "", "VCARD"), Line("VERSION", "", "4.0");
      head := [begin, version];
      ClosedTwo(begin, version);
      hide Closed, Line, Dec;
      ret := begin + "\r\n" + (version + "\r\n");
      if id >= 0 {
        var source, uid := Line("SOURCE", "", h.baseUri + "/id/" + Dec(id)), Line("UID", "", Dec(id));
        ClosedSnoc(head, source);
        ClosedSnoc(head + [source], uid);
        ret := ret + (source + "\r\n");
        ret := ret + (uid + "\r\n");
        assert head + [source] + [uid] == head + [source, uid];
        head := head + [source, uid];
      } else {
        assert head + [] == head;
        head := head + [];
      }
      if user != "" && owner == user {
        var profile := Line("X-FIY-PROFILE", "", Address(user, h));
        ClosedSnoc(head, profile);
        ret := ret + (profile + "\r\n");
        head := head + [profile];
      } else {
        assert head + [] == head;
        head := head + [];
      }
      if user != "" {
        var social := Line("X-SOCIALPROFILE", ";TYPE=fiy", Address(user, h));
        ClosedSnoc(head, social);
        ret := ret + (social + "\r\n");
        head := head + [social];
      } else {
        assert head + [] == head;
        head := head + [];
      }
      if updateTs != 0 {
        var revision := Line("REV", "", rev);
        ClosedSnoc(head, revision);
        ret := ret + (revision + "\r\n");
        head := head + [revision];
      } else {
        assert head + [] == head;
        head := head + [];
      }
    }

    /** `parse`: the fields follow the lines; a line without a colon stops with false. */
    method Parse(text: string, h: Host) returns (ok: bool)
      modifies this
      ensures (View(), ok) == Parsed(old(View()), text, h)
    {
      hide Trim, Unfolded, SplitLines, AfterLine, View;
      var vc := Trim(text);
      if !("BEGIN:VCARD" <= vc) {
        return false;
      }
      vc := Unfolded(vc);
      var lines := SplitLines(vc);
      ghost var result := AfterLines(View(), lines, h);
      for i := 0 to |lines|
        invariant AfterLines(View(), lines[i..], h) == result
      {
        assert lines[i..][1..] == lines[i + 1..];
        ok := ParseLine(lines[i], h);
        if !ok {
          return;
        }
      }
      return true;
    }

    /** One round of the loop of `parse`. */
    method ParseLine(line: string, h: Host) returns (ok: bool)
      modifies this
      ensures match AfterLine(old(View()), line, h)
              case None => !ok && View() == old(View())
              case Some(c) => ok && View() == c
    {
      hide IndexOf, Ignored, AfterParams, Pieces, UserOf, Stoll;
      var colonIdx := IndexOf(line, ':', 0);
      if colonIdx == |line| {
        return false;
      }
      var value := line[colonIdx + 1..];
      var firstSemiIdx := IndexOf(line[..colonIdx], ';', 0);
      var name := line[..firstSemiIdx];
      ok := true;
      if Ignored(name) {
        return;
      }
      if name == "UID" {
        var n := Stoll(value);
        if n.Some? {
          id := n.value;
        }
        return;
      }
      if name == "X-FIY-PROFILE" {
        user := UserOf(value, h);
        return;
      }
      if name == "REV" {
        updateTs := h.readRev(value);
        return;
      }
      if name == "SOURCE" {
        return;
      }
      var q := ParseParams(line[firstSemiIdx..colonIdx], name);
      if q.SocialProfile? {
        user := UserOf(value, h);
      } else {
        var params := DropSemicolon(DropSemicolon(q.text));
        props := props + [Prop(q.id, name, params, value, q.visibility)];
      }
    }
  }

  /** The parameter loop of `parse`. */
  method ParseParams(rawParams: string, name: string) returns (q: Params)
    ensures q == AfterParams(Params(0, -1, ""), Pieces(rawParams), name)
  {
    hide Pieces, AfterParam;
    var pieces := Pieces(rawParams);
    q := Params(0, -1, "");
    for i := 0 to |pieces|
      invariant AfterParams(q, pieces[i..], name) == AfterParams(Params(0, -1, ""), pieces, name)
    {
      assert pieces[i..][1..] == pieces[i + 1..];
      q := AfterParam(q, pieces[i], name);
    }
  }

  lemma ClosedTwo(a: string, b: string)
    ensures Closed([a, b]) == a + "\r\n" + (b + "\r\n")
  {
    EmptyClosed();
    ClosedSnoc([], a);
    ClosedSnoc([a], b);
    hide Closed;
    assert [a, b] == [a] + [b] && [a] == [] + [a];
    assert "" + (a + "\r\n") == a + "\r\n";
  }

  lemma NoProps(c: Card, head: seq<string>)
    ensures head + PropLines(c, []) == head && !HasName([])
  {
  }

  lemma EmptyClosed()
    ensures Closed([]) == ""
  {
  }

  lemma NameSoFar(props: seq<Prop>, i: nat)
    requires i < |props|
    ensures HasName(props[..i + 1]) == (HasName(props[..i]) || props[i].name == "N" || props[i].name == "FN")
  {
    var a, b := props[..i], props[..i + 1];
    assert b == a + [props[i]];
    if HasName(a) {
      var k :| 0 <= k < |a| && (a[k].name == "N" || a[k].name == "FN");
      assert b[k] == a[k];
    }
    assert b[i] == props[i];
    assert forall k | 0 <= k < i :: b[k] == a[k];
  }

  lemma {:induction false} PropLinesSnoc(c: Card, props: seq<Prop>, i: nat)
    requires i < |props|
    ensures PropLines(c, props[..i + 1]) == PropLines(c, props[..i]) + [PropLine(c, props[i])]
  {
    hide PropLine;
    if i > 0 {
      PropLinesSnoc(c, props[1..], i - 1);
      assert props[..i + 1][1..] == props[1..][..i] && props[..i][1..] == props[1..][..i - 1];
    } else {
      assert props[..1] == [props[0]];
    }
  }
}
