/** mods/contacts/src/Contact.cpp: what `parse` makes of each kind of line, and the text `to_vcard`
    writes, spelled out. */
module VCardReading {
  import opened Text
  import opened VCard

  // ----- Numbers -----

  function Pow10(n: nat): nat {
    if n == 0 then 1 else 10 * Pow10(n - 1)
  }

  /** Digits denote numbers by position. */
  lemma {:induction false} DecimalIs(a: string, b: string, c: char)
    ensures Value(a + b) == Value(a) * Pow10(|b|) + Value(b)
    ensures Value([c]) == c as int - 48
    decreases |b|
  {
    assert [c][..0] == "";
    if b == "" {
      assert a + b == a;
    } else {
      var n := |b| - 1;
      DecimalIs(a, b[..n], c);
      assert (a + b)[..|a + b| - 1] == a + b[..n];
      assert Value(a) * Pow10(|b|) == Value(a) * Pow10(n) * 10;
    }
  }

  /** Blanks, a sign and all the digits there are: `strtol` clamps to 64 bits, `stoll` refuses what does not
      fit them, and without a digit neither reads anything. */
  lemma NumberIs(blanks: string, sign: string, digits: string, junk: string)
    requires forall i | 0 <= i < |blanks| :: IsSpace(blanks[i])
    requires sign in ["", "+", "-"]
    requires forall i | 0 <= i < |digits| :: '0' <= digits[i] <= '9'
    requires junk == "" || !('0' <= junk[0] <= '9')
    requires digits != "" || sign != "" || junk == "" || (!IsSpace(junk[0]) && junk[0] != '+' && junk[0] != '-')
    ensures var s, n := blanks + (sign + (digits + junk)), if sign == "-" then -Value(digits) else Value(digits);
            if digits == "" then Strtol(s) == None && Stoll(s) == None
            else
              && Strtol(s) == Some(if n > 0x7FFF_FFFF_FFFF_FFFF then 0x7FFF_FFFF_FFFF_FFFF
                                   else if n < -0x8000_0000_0000_0000 then -0x8000_0000_0000_0000 else n)
              && Stoll(s) == if -0x8000_0000_0000_0000 <= n <= 0x7FFF_FFFF_FFFF_FFFF then Some(n) else None
  {
    hide Value;
    var t := sign + (digits + junk);
    SpaceSkipped(blanks, t);
    DigitsTaken(digits, junk);
    if sign == "" {
      assert t == digits + junk;
    } else {
      assert t[0] == sign[0] && t[1..] == digits + junk;
    }
  }

  lemma {:induction false} SpaceSkipped(blanks: string, t: string)
    requires forall i | 0 <= i < |blanks| :: IsSpace(blanks[i])
    requires t == "" || !IsSpace(t[0])
    ensures SkipSpace(blanks + t) == t
  {
    if blanks == "" {
      assert blanks + t == t;
    } else {
      SpaceSkipped(blanks[1..], t);
      assert (blanks + t)[1..] == blanks[1..] + t;
    }
  }

  lemma {:induction false} DigitsTaken(digits: string, junk: string)
    requires forall i | 0 <= i < |digits| :: '0' <= digits[i] <= '9'
    requires junk == "" || !('0' <= junk[0] <= '9')
    ensures DigitPrefix(digits + junk) == digits
  {
    if digits == "" {
      assert digits + junk == junk;
    } else {
      DigitsTaken(digits[1..], junk);
      assert (digits + junk)[1..] == digits[1..] + junk;
      assert digits == [digits[0]] + digits[1..];
    }
  }

  // ----- Lines -----

  predicate IsName(name: string) {
    ':' !in name && ';' !in name
  }

  predicate IsParams(params: string) {
    ':' !in params && (params == "" || params[0] == ';')
  }

  /** A line without a colon is refused. */
  lemma NoColon(c: Card, line: string, h: Host)
    requires ':' !in line
    ensures AfterLine(c, line, h) == None
  {
  }

  predicate IsDropped(name: string) {
    name in ["BEGIN", "END", "AGENT", "CLASS", "MAILER", "PROFILE", "SORT-STRING", "CLIENTPIDMAP", "VERSION",
             "SOURCE"]
  }

  /** What each of the names with a meaning of its own does, whatever the parameters. */
  lemma ReservedLine(c: Card, name: string, params: string, value: string, h: Host)
    requires IsName(name) && IsParams(params)
    ensures var after := AfterLine(c, name + params + ":" + value, h);
            && (IsDropped(name) ==> after == Some(c))
            && (name == "UID" ==> after == Some(match Stoll(value) case Some(n) => c.(id := n) case None => c))
            && (name == "REV" ==> after == Some(c.(updateTs := h.readRev(value))))
  {
    hide AfterParams, Pieces, UserOf, Stoll;
    LineParts(c, name, params, value, h);
  }

  /** A profile line of either kind sets the user: to the whole value for a user of another host, and
      to the part before the '@' for a local one. */
  lemma ProfileLine(c: Card, params: string, u: string, d: string, h: Host)
    requires IsParams(params) && '@' !in u
    ensures var head := "X-FIY-PROFILE" + params + ":";
            && AfterLine(c, head + u, h) == Some(c.(user := u))
            && AfterLine(c, head + (u + "@" + d), h)
               == Some(c.(user := if d == "" || d == h.domain then u else u + "@" + d))
    ensures var head := "X-SOCIALPROFILE;TYPE=fiy:";
            && AfterLine(c, head + u, h) == Some(c.(user := u))
            && AfterLine(c, head + (u + "@" + d), h)
               == Some(c.(user := if d == "" || d == h.domain then u else u + "@" + d))
  {
    UserIs(u, d, h);
    TwoKinds(c, params, u, h);
    TwoKinds(c, params, u + "@" + d, h);
    hide AfterField, UserOf, AfterLine;
  }

  lemma TwoKinds(c: Card, params: string, value: string, h: Host)
    requires IsParams(params)
    ensures AfterLine(c, "X-FIY-PROFILE" + params + ":" + value, h) == Some(c.(user := UserOf(value, h)))
    ensures AfterLine(c, "X-SOCIALPROFILE;TYPE=fiy:" + value, h) == Some(c.(user := UserOf(value, h)))
  {
    hide AfterField, UserOf, AfterLine;
    LineParts(c, "X-FIY-PROFILE", params, value, h);
    LineParts(c, "X-SOCIALPROFILE", ";TYPE=fiy", value, h);
    SocialField(c, value, h);
    ProfileField(c, params, value, h);
    assert "X-SOCIALPROFILE" + ";TYPE=fiy" + ":" == "X-SOCIALPROFILE;TYPE=fiy:";
  }

  lemma ProfileField(c: Card, params: string, value: string, h: Host)
    ensures AfterField(c, "X-FIY-PROFILE", params, value, h) == c.(user := UserOf(value, h))
  {
    hide AfterParams, Pieces, UserOf;
  }

  lemma UserIs(u: string, d: string, h: Host)
    requires '@' !in u
    ensures UserOf(u, h) == u
    ensures UserOf(u + "@" + d, h) == if d == "" || d == h.domain then u else u + "@" + d
  {
    var s, n := u + "@" + d, |u|;
    assert s[n] == '@' && s[..n] == u && s[n + 1..] == d;
    assert forall j | 0 <= j < n :: s[j] == u[j];
    assert IndexOf(s, '@', 0) == n;
    assert IndexOf(u, '@', 0) == n && u[..n] == u;
  }

  /** Every other name becomes a property, ... */
  predicate OtherName(name: string) {
    !IsDropped(name) && name !in ["UID", "REV", "X-FIY-PROFILE"]
  }

  /** ... without parameters a public one with no id; ... */
  lemma BareLine(c: Card, name: string, value: string, h: Host)
    requires IsName(name) && OtherName(name)
    ensures AfterLine(c, name + ":" + value, h) == Some(c.(props := c.props + [Prop(-1, name, "", value, 0)]))
  {
    hide AfterParams, Pieces;
    assert name + ":" + value == Line(name, "", value);
    LineParts(c, name, "", value, h);
    EmptyPiece(Params(0, -1, ""), name);
  }

  /** ... and one more parameter at the end changes just this: an empty one nothing; a visibility or an id
      that of the property; `TYPE=fiy` turns a social profile into a profile line, and what follows
      then nothing; any other is added to the property's parameters. */
  lemma ParamAdded(c: Card, name: string, params: string, piece: string, value: string, h: Host)
    requires IsName(name) && OtherName(name) && IsParams(params) && IsName(piece)
    ensures var before := AfterLine(c, name + params + ":" + value, h);
            var after := AfterLine(c, name + params + ";" + piece + ":" + value, h);
            && before.Some? && after.Some?
            && (|before.value.props| == |c.props| ==> after == before)
            && (|before.value.props| != |c.props| ==>
                  && |before.value.props| == |c.props| + 1
                  && before.value == c.(props := c.props + [before.value.props[|c.props|]])
                  && var p := before.value.props[|c.props|];
                     if name == "X-SOCIALPROFILE" && "TYPE=fiy" <= piece then
                       after == AfterLine(c, "X-FIY-PROFILE:" + value, h)
                     else after == Some(c.(props := c.props + [WithParam(p, piece)])))
  {
    hide AfterParams, Pieces, AfterParam, UserOf, DropSemicolon, WithParam, AfterLine, OtherName, TextShape;
    var q0 := Params(0, -1, "");
    var q := AfterParams(q0, Pieces(params), name);
    OtherLine(c, name, params, value, h);
    assert name + params + ";" + piece == name + (params + (";" + piece));
    OtherLine(c, name, params + (";" + piece), value, h);
    ProfileAlone(c, value, h);
    ReadOne(q0, params, piece, name);
    if q.SocialProfile? {
      AfterSocial(piece, name);
    } else {
      NoSemicolons(params);
      ShapeOfNothing();
      KeptText(q0, Pieces(params), name);
      PieceIs(q, piece, name, value);
    }
  }

  lemma OtherLine(c: Card, name: string, params: string, value: string, h: Host)
    requires IsName(name) && OtherName(name) && IsParams(params)
    ensures var q := AfterParams(Params(0, -1, ""), Pieces(params), name);
            AfterLine(c, name + params + ":" + value, h) ==
              if q.SocialProfile? then Some(c.(user := UserOf(value, h)))
              else Some(c.(props := c.props + [PropOf(q, name, value)]))
  {
    hide AfterParams, Pieces, UserOf, DropSemicolon;
    LineParts(c, name, params, value, h);
  }

  function PropOf(q: Params, name: string, value: string): Prop
    requires q.Params?
  {
    Prop(q.id, name, DropSemicolon(DropSemicolon(q.text)), value, q.visibility)
  }

  lemma ProfileAlone(c: Card, value: string, h: Host)
    ensures AfterLine(c, "X-FIY-PROFILE:" + value, h) == Some(c.(user := UserOf(value, h)))
  {
    hide UserOf, AfterField;
    assert "X-FIY-PROFILE:" + value == Line("X-FIY-PROFILE", "", value);
    LineParts(c, "X-FIY-PROFILE", "", value, h);
    ProfileField(c, "", value, h);
  }

  lemma ShapeOfNothing()
    ensures TextShape("")
  {
  }

  /** The property with one more parameter, one that does not make it a profile line. */
  function WithParam(p: Prop, piece: string): Prop {
    if piece == "" then p
    else if "X-FIY-VISIBILITY=" <= piece then
      p.(visibility := if |piece| == 17 then -48 else CappedDigit(piece[17] as int % 256))
    else if "X-FIY-ID=" <= piece then
      p.(id := match Strtol(piece[9..]) case Some(n) => n case None => -1)
    else p.(params := if p.params == "" then piece else p.params + ";" + piece)
  }

  /** A byte less '0' as a signed byte, at most 3. */
  function CappedDigit(b: int): int {
    if b <= 51 then b - 48 else if b < 176 then 3 else b - 304
  }

  lemma PieceIs(q: Params, piece: string, name: string, value: string)
    requires q.Params? && TextShape(q.text) && ';' !in piece && OtherName(name)
    ensures var q' := AfterParam(q, piece, name);
            if name == "X-SOCIALPROFILE" && "TYPE=fiy" <= piece then q' == SocialProfile
            else q'.Params? && PropOf(q', name, value) == WithParam(PropOf(q, name, value), piece)
  {
    hide OtherName;
    if "TYPE=fiy" <= piece {
      assert piece[0] == 'T' && "X-FIY-VISIBILITY="[0] == 'X' && "X-FIY-ID="[0] == 'X';
    }
    if Ordinary(piece, name) {
      TextAdded(q.text, piece);
    }
  }

  lemma TextAdded(text: string, piece: string)
    requires TextShape(text) && piece != "" && ';' !in piece
    ensures var kept := DropSemicolon(DropSemicolon(text));
            DropSemicolon(DropSemicolon(text + ";" + piece)) == if kept == "" then piece else kept + ";" + piece
  {
    var t := text + ";" + piece;
    if text == "" {
      assert t[1..] == piece;
    } else {
      assert t[1..] == text[1..] + ";" + piece;
    }
  }

  // ----- Texts -----

  predicate IsBreak(s: string) {
    s == "\r\n" || s == "\r" || s == "\n"
  }

  /** Lines with line breaks between them, each of any of the three kinds. */
  function Woven(lines: seq<string>, breaks: seq<string>): string
    requires |lines| == |breaks| + 1
  {
    if breaks == [] then lines[0] else lines[0] + (breaks[0] + Woven(lines[1..], breaks[1..]))
  }

  /** `line` is the whole text or followed by a line break. */
  predicate BeginsWith(t: string, line: string) {
    line <= t && (|t| > |line| ==> !OneLine([t[|line|]]))
  }

  lemma {:induction false} WovenSplits(lines: seq<string>, breaks: seq<string>)
    requires |lines| == |breaks| + 1
    requires forall i | 0 <= i < |lines| :: GoodLine(lines[i])
    requires forall i | 0 <= i < |breaks| :: IsBreak(breaks[i])
    ensures Unfolded(Woven(lines, breaks)) == Woven(lines, breaks) && SplitLines(Woven(lines, breaks)) == lines
    ensures var t := Woven(lines, breaks); GoodLine(lines[0]) && t != "" && t[0] == lines[0][0] && !IsSpace(t[0])
    ensures var t, last := Woven(lines, breaks), lines[|breaks|];
            GoodLine(last) && t[|t| - 1] == last[|last| - 1]
    ensures BeginsWith(Woven(lines, breaks), lines[0])
    decreases |lines|
  {
    hide Unfolded, SplitLines, IsSpace;
    var line := lines[0];
    assert GoodLine(line);
    if breaks == [] {
      UnfoldLine(line, "");
      SplitLine(line, "");
      EmptyText();
      assert line + "" == line && lines == [line];
    } else {
      var rest, brk := Woven(lines[1..], breaks[1..]), breaks[0];
      WovenSplits(lines[1..], breaks[1..]);
      BreakOf(brk, rest);
      UnfoldLine(line, brk + rest);
      SplitLine(line, brk + rest);
      assert line + "" == line && lines == [line] + lines[1..];
      assert lines[1..][|breaks| - 1] == lines[|breaks|];
      var t := line + (brk + rest);
      assert t[|t| - 1] == rest[|rest| - 1] && t[|line|] == brk[0];
    }
  }

  lemma BreakOf(brk: string, rest: string)
    requires IsBreak(brk) && rest != "" && !IsSpace(rest[0])
    ensures Unfolded(brk + rest) == brk + Unfolded(rest)
    ensures SplitLines(brk + rest) == [""] + SplitLines(rest)
  {
    if brk == "\r\n" {
      BreakAt(rest);
    } else {
      var s := brk + rest;
      assert s[1..] == rest && s[0] == brk[0];
    }
  }

  /** A whole text: blanks around it are dropped, one that does not begin with BEGIN:VCARD is refused and changes
      nothing, and otherwise the lines are taken in order, up to the first without a colon, which makes
      it fail. */
  lemma TextIs(cards: seq<Card>, lines: seq<string>, breaks: seq<string>, a: string, b: string, h: Host)
    requires |lines| == |breaks| + 1 && 1 <= |cards| <= |lines| + 1
    requires forall i | 0 <= i < |lines| :: GoodLine(lines[i])
    requires forall i | 0 <= i < |breaks| :: IsBreak(breaks[i])
    requires (forall i | 0 <= i < |a| :: IsBlank(a[i])) && (forall i | 0 <= i < |b| :: IsBlank(b[i]))
    requires var last := lines[|breaks|]; GoodLine(last) && !IsBlank(last[|last| - 1])
    requires forall i | 0 <= i < |cards| - 1 :: AfterLine(cards[i], lines[i], h) == Some(cards[i + 1])
    requires |cards| <= |lines| ==> ':' !in lines[|cards| - 1]
    ensures Parsed(cards[0], a + Woven(lines, breaks) + b, h) ==
              if "BEGIN:VCARD" <= lines[0] then (cards[|cards| - 1], |cards| == |lines| + 1) else (cards[0], false)
  {
    hide Unfolded, SplitLines, AfterLine, Trim, IsSpace, IsBlank;
    WovenSplits(lines, breaks);
    var t := Woven(lines, breaks);
    assert !IsBlank(t[0]) by { NotBlank(t[0]); }
    TrimIsExact(a, t, b);
    Starts(t, lines[0], "BEGIN:VCARD");
    LinesAre(cards, lines, h);
  }

  lemma NotBlank(c: char)
    requires !IsSpace(c)
    ensures !IsBlank(c)
  {
  }

  lemma Starts(t: string, line: string, head: string)
    requires BeginsWith(t, line) && OneLine(head)
    ensures head <= t <==> head <= line
  {
    if |head| <= |line| {
      assert line[..|head|] == t[..|head|];
    } else if |t| > |line| {
      assert head[|line|] != t[|line|];
    }
  }

  lemma {:induction false} LinesAre(cards: seq<Card>, lines: seq<string>, h: Host)
    requires 1 <= |cards| <= |lines| + 1
    requires forall i | 0 <= i < |cards| - 1 :: AfterLine(cards[i], lines[i], h) == Some(cards[i + 1])
    requires |cards| <= |lines| ==> ':' !in lines[|cards| - 1]
    ensures AfterLines(cards[0], lines, h) == (cards[|cards| - 1], |cards| == |lines| + 1)
    decreases |lines|
  {
    hide AfterLine;
    if lines != [] {
      if |cards| == 1 {
        NoColon(cards[0], lines[0], h);
      } else {
        var more, rest := cards[1..], lines[1..];
        forall i | 0 <= i < |more| - 1 ensures AfterLine(more[i], rest[i], h) == Some(more[i + 1]) {
          assert more[i] == cards[i + 1] && rest[i] == lines[i + 1];
        }
        LinesAre(more, rest, h);
      }
    }
  }

  // ----- Printed text -----

  function Flat(parts: seq<string>): string {
    if parts == [] then "" else parts[0] + Flat(parts[1..])
  }

  /** The printed text of a property. */
  lemma PropTextIs(c: Card, p: Prop)
    ensures PropLine(c, p) ==
              p.name + ((if p.params == "" then "" else ";" + p.params)
                        + (if p.visibility == 0 && c.user != c.owner then ""
                           else ";" + ("X-FIY-VISIBILITY=" + [((48 + p.visibility) % 256) as char]))
                        + (if p.id < 0 then "" else ";" + ("X-FIY-ID=" + Dec(p.id))))
              + ":" + p.value
  {
    hide Dec;
  }

  /** The whole text: the fixed lines, those for the id, the user and the update time where there are
      any, the properties in order, a name if none of them is one, and the end. */
  lemma TextOf(c: Card, h: Host, rev: string) returns (texts: seq<string>)
    ensures |texts| == |c.props| && forall i | 0 <= i < |texts| :: texts[i] == PropLine(c, c.props[i]) + "\r\n"
    ensures Printed(c, h, rev) ==
              if c.id == -1 && c.updateTs == 0 then ""
              else "BEGIN:VCARD\r\nVERSION:4.0\r\n"
                   + (if c.id < 0 then ""
                      else "SOURCE:" + (h.baseUri + "/id/" + Dec(c.id)) + "\r\n" + ("UID:" + Dec(c.id) + "\r\n"))
                   + (if c.user == "" || c.owner != c.user then ""
                      else "X-FIY-PROFILE:" + (c.user + "@" + h.domain) + "\r\n")
                   + (if c.user == "" then ""
                      else "X-SOCIALPROFILE;TYPE=fiy:" + (c.user + "@" + h.domain) + "\r\n")
                   + (if c.updateTs == 0 then "" else "REV:" + rev + "\r\n")
                   + Flat(texts)
                   + (if exists p | p in c.props :: p.name == "N" || p.name == "FN" then ""
                      else "FN:" + c.user + "\r\n")
                   + "END:VCARD"
  {
    hide Dec, HasName, HeadLines, PropLine, Lines, Joined;
    texts := PropTexts(c, c.props);
    var head, props := HeadLines(c, h, rev), PropLines(c, c.props);
    var named := if HasName(c.props) then [] else [Line("FN", "", c.user)];
    NameExists(c.props);
    HeadText(c, h, rev);
    ClosedJoined(head + props + named, Line("END", "", "VCARD"));
    assert Lines(c, h, rev) == head + props + named + [Line("END", "", "VCARD")] by { LinesAppend(c, h, rev); }
    ClosedConcat(head + props, named);
    ClosedConcat(head, props);
    ClosedOne("FN", "", c.user);
    assert "FN" + "" + ":" == "FN:" && Line("END", "", "VCARD") == "END:VCARD";
    assert Closed([]) == "";
  }

  lemma LinesAppend(c: Card, h: Host, rev: string)
    ensures Lines(c, h, rev) ==
              HeadLines(c, h, rev) + PropLines(c, c.props)
              + (if HasName(c.props) then [] else [Line("FN", "", c.user)])
              + [Line("END", "", "VCARD")]
  {
    hide HeadLines, PropLines, HasName, Line;
  }

  lemma NameExists(props: seq<Prop>)
    ensures HasName(props) <==> exists p | p in props :: p.name == "N" || p.name == "FN"
  {
    if p :| p in props && (p.name == "N" || p.name == "FN") {
      var i :| 0 <= i < |props| && props[i] == p;
      assert props[i].name == "N" || props[i].name == "FN";
    }
  }

  lemma {:induction false} PropTexts(c: Card, props: seq<Prop>) returns (texts: seq<string>)
    ensures |texts| == |props| && forall i | 0 <= i < |texts| :: texts[i] == PropLine(c, props[i]) + "\r\n"
    ensures Closed(PropLines(c, props)) == Flat(texts)
    decreases |props|
  {
    hide PropLine;
    if props == [] {
      texts := [];
    } else {
      var more := PropTexts(c, props[1..]);
      texts := [PropLine(c, props[0]) + "\r\n"] + more;
      ClosedConcat([PropLine(c, props[0])], PropLines(c, props[1..]));
      ClosedSnoc([], PropLine(c, props[0]));
      assert texts[1..] == more && [] + [PropLine(c, props[0])] == [PropLine(c, props[0])];
      assert Closed([]) == "" && "" + (PropLine(c, props[0]) + "\r\n") == PropLine(c, props[0]) + "\r\n";
    }
  }

  lemma {:induction false} ClosedConcat(a: seq<string>, b: seq<string>)
    ensures Closed(a + b) == Closed(a) + Closed(b)
    decreases |b|
  {
    if b == [] {
      assert a + b == a && Closed(a) + "" == Closed(a);
    } else {
      var n := |b| - 1;
      ClosedConcat(a, b[..n]);
      ClosedSnoc(a + b[..n], b[n]);
      assert a + b == a + b[..n] + [b[n]];
      Assoc(Closed(a), Closed(b[..n]), b[n] + "\r\n");
    }
  }

  lemma ClosedOne(name: string, params: string, value: string)
    ensures Closed([Line(name, params, value)]) == name + params + ":" + value + "\r\n"
  {
    ClosedSnoc([], Line(name, params, value));
    EmptyClosed();
    hide Closed;
    assert [] + [Line(name, params, value)] == [Line(name, params, value)];
    assert "" + (Line(name, params, value) + "\r\n") == Line(name, params, value) + "\r\n";
  }

  lemma HeadText(c: Card, h: Host, rev: string)
    ensures Closed(HeadLines(c, h, rev)) ==
              "BEGIN:VCARD\r\nVERSION:4.0\r\n"
              + (if c.id < 0 then ""
                 else "SOURCE:" + (h.baseUri + "/id/" + Dec(c.id)) + "\r\n" + ("UID:" + Dec(c.id) + "\r\n"))
              + (if c.user == "" || c.owner != c.user then ""
                 else "X-FIY-PROFILE:" + (c.user + "@" + h.domain) + "\r\n")
              + (if c.user == "" then ""
                 else "X-SOCIALPROFILE;TYPE=fiy:" + (c.user + "@" + h.domain) + "\r\n")
              + (if c.updateTs == 0 then "" else "REV:" + rev + "\r\n")
  {
    hide Dec, Closed, Line;
    var begin, version := Line("BEGIN", "", "VCARD"), Line("VERSION", "", "4.0");
    var ids := if c.id >= 0
               then [Line("SOURCE", "", h.baseUri + "/id/" + Dec(c.id)), Line("UID", "", Dec(c.id))] else [];
    var profile := if c.user != "" && c.owner == c.user then [Line("X-FIY-PROFILE", "", Address(c.user, h))] else [];
    var social := if c.user != "" then [Line("X-SOCIALPROFILE", ";TYPE=fiy", Address(c.user, h))] else [];
    var last := if c.updateTs != 0 then [Line("REV", "", rev)] else [];
    EmptyClosed();
    FixedText();
    if c.id >= 0 { IdText(c.id, h); }
    ClosedOne("X-FIY-PROFILE", "", Address(c.user, h));
    ClosedOne("X-SOCIALPROFILE", ";TYPE=fiy", Address(c.user, h));
    ClosedOne("REV", "", rev);
    assert "X-FIY-PROFILE" + "" + ":" == "X-FIY-PROFILE:" && "REV" + "" + ":" == "REV:";
    assert "X-SOCIALPROFILE" + ";TYPE=fiy" + ":" == "X-SOCIALPROFILE;TYPE=fiy:";
    ClosedConcat([begin, version] + ids + profile + social, last);
    ClosedConcat([begin, version] + ids + profile, social);
    ClosedConcat([begin, version] + ids, profile);
    ClosedConcat([begin, version], ids);
  }

  lemma FixedText()
    ensures Closed([Line("BEGIN", "", "VCARD"), Line("VERSION", "", "4.0")]) == "BEGIN:VCARD\r\nVERSION:4.0\r\n"
  {
    ClosedTwo(Line("BEGIN", "", "VCARD"), Line("VERSION", "", "4.0"));
    hide Closed;
    assert Line("BEGIN", "", "VCARD") + "\r\n" == "BEGIN:VCARD\r\n";
    assert Line("VERSION", "", "4.0") + "\r\n" == "VERSION:4.0\r\n";
  }

  lemma IdText(id: int, h: Host)
    requires id >= 0
    ensures Closed([Line("SOURCE", "", h.baseUri + "/id/" + Dec(id)), Line("UID", "", Dec(id))]) ==
              "SOURCE:" + (h.baseUri + "/id/" + Dec(id)) + "\r\n" + ("UID:" + Dec(id) + "\r\n")
  {
    hide Closed, Dec;
    ClosedTwo(Line("SOURCE", "", h.baseUri + "/id/" + Dec(id)), Line("UID", "", Dec(id)));
    assert "SOURCE" + "" + ":" == "SOURCE:" && "UID" + "" + ":" == "UID:";
  }
}
