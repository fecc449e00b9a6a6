/** util/WebUtils.cpp: URI components, urlencoded forms, cookies. */
module WebUtils {
  import opened Text

  /** One byte of a `std::string`. */
  type byte = c: char | c as int < 256 witness 'a'

  // ----- URI components -----

  /** The characters `uri_encode` copies. */
  predicate Plain(c: char) {
    'A' <= c <= 'Z' || 'a' <= c <= 'z' || '0' <= c <= '9' || c in "-_.!~*()"
  }

  function HexDigit(d: nat): char
    requires d < 16
  {
    (d + if d > 9 then 55 else 48) as char
  }

  /** `charToHex`: high nibble first, upper case. */
  function Hex(c: byte): string {
    [HexDigit(c as int / 16), HexDigit(c as int % 16)]
  }

  function EncodedByte(c: byte): string {
    if c == ' ' then "+" else if Plain(c) then [c] else "%" + Hex(c)
  }

  function Encoded(s: seq<byte>): string {
    if s == [] then "" else EncodedByte(s[0]) + Encoded(s[1..])
  }

  predicate IsXDigit(c: char) {
    '0' <= c <= '9' || 'a' <= c <= 'f' || 'A' <= c <= 'F'
  }

  function XValue(c: char): (v: nat)
    requires IsXDigit(c)
    ensures v < 16
  {
    if c <= '9' then c as int - 48 else if c >= 'a' then c as int - 87 else c as int - 55
  }

  function Decoded(s: string): string {
    if s == "" then ""
    else if s[0] == '+' then " " + Decoded(s[1..])
    else if s[0] == '%' && |s| > 2 && IsXDigit(s[1]) && IsXDigit(s[2]) then
      [(XValue(s[1]) * 16 + XValue(s[2])) as char] + Decoded(s[3..])
    else [s[0]] + Decoded(s[1..])
  }

  lemma DecodedStep(c: byte, rest: string)
    ensures Decoded(EncodedByte(c) + rest) == [c] + Decoded(rest)
  {
    var s := EncodedByte(c) + rest;
    assert s[|EncodedByte(c)|..] == rest;
    if c != ' ' && !Plain(c) {
      var hi, lo := HexDigit(c as int / 16), HexDigit(c as int % 16);
      assert s[1] == hi && s[2] == lo;
      assert XValue(hi) == c as int / 16 && XValue(lo) == c as int % 16;
    }
  }

  /** Letters, digits and eight marks are copied, a blank becomes a plus sign, and every other byte a
      percent sign with two hex digits, letters in upper case. */
  lemma EncodedByteTable(c: byte, hi: nat, lo: nat)
    requires hi < 16 && lo < 16 && c as int == 16 * hi + lo
    ensures var digits := "0123456789ABCDEF";
            var copied := c in "-_.!~*()" || '0' <= c <= '9' || 'A' <= c <= 'Z' || 'a' <= c <= 'z';
            EncodedByte(c) == if c == ' ' then "+" else if copied then [c] else ['%', digits[hi], digits[lo]]
  {
    assert c as int / 16 == hi && c as int % 16 == lo;
  }

  /** Hex digits of either case and their values. */
  lemma XValueTable(c: char)
    ensures IsXDigit(c) <==> c in "0123456789abcdefABCDEF"
  {
  }

  lemma XValueIs(c: char, d: nat)
    requires d < 16 && (c == "0123456789abcdef"[d] || c == "0123456789ABCDEF"[d])
    ensures IsXDigit(c) && XValue(c) == d
  {
  }

  /** Decoding, one escape or character at a time: escapes with digits of either case ... */
  lemma DecodedEscape(rest: string, x: char, y: char, hi: nat, lo: nat)
    requires hi < 16 && (x == "0123456789abcdef"[hi] || x == "0123456789ABCDEF"[hi])
    requires lo < 16 && (y == "0123456789abcdef"[lo] || y == "0123456789ABCDEF"[lo])
    ensures Decoded(['%', x, y] + rest) == [(16 * hi + lo) as char] + Decoded(rest)
  {
    XValueIs(x, hi);
    XValueIs(y, lo);
    hide IsXDigit, XValue;
    var s := ['%', x, y] + rest;
    assert s[1] == x && s[2] == y && s[3..] == rest;
  }

  /** ... a percent sign without two digits behind it stands for itself, a plus sign for a blank, and any
      other character for itself. */
  lemma DecodedOther(rest: string, c: char)
    ensures var digits := "0123456789abcdefABCDEF";
            (c == '%' && |rest| >= 2 && rest[0] in digits && rest[1] in digits)
            || Decoded([c] + rest) == (if c == '+' then " " else [c]) + Decoded(rest)
  {
    var s := [c] + rest;
    assert s[1..] == rest;
    if |rest| >= 2 {
      XValueTable(rest[0]);
      XValueTable(rest[1]);
      hide IsXDigit;
      assert s[1] == rest[0] && s[2] == rest[1];
    }
  }

  /** Decoding an encoded byte string gives it back, whatever the bytes. */
  lemma {:induction false} DecodeEncode(s: seq<byte>)
    ensures Decoded(Encoded(s)) == s
  {
    if s != [] {
      DecodedStep(s[0], Encoded(s[1..]));
      DecodeEncode(s[1..]);
      assert s == [s[0]] + s[1..];
    }
  }

  /** What encoded text is made of: nothing a form or a cookie header uses as punctuation. */
  predicate Safe(c: char) {
    Plain(c) || c == '+' || c == '%'
  }

  lemma {:induction false} EncodedIsSafe(s: seq<byte>)
    ensures forall c | c in Encoded(s) :: Safe(c)
    ensures Encoded(s) == "" <==> s == []
  {
    if s != [] {
      EncodedIsSafe(s[1..]);
      assert forall c | c in EncodedByte(s[0]) :: Safe(c);
    }
  }

  method UriEncode(src: seq<byte>) returns (result: string)
    ensures result == Encoded(src)
  {
    hide EncodedByte;
    result := "";
    for i := 0 to |src|
      invariant result + Encoded(src[i..]) == Encoded(src)
    {
      assert src[i..][1..] == src[i + 1..];
      Assoc(result, EncodedByte(src[i]), Encoded(src[i + 1..]));
      result := result + EncodedByte(src[i]);
    }
  }

  lemma DecodedAt(data: string, i: nat)
    requires i < |data|
    ensures Decoded(data[i..]) ==
            if data[i] == '+' then " " + Decoded(data[i + 1..])
            else if data[i] == '%' && i + 2 < |data| && IsXDigit(data[i + 1]) && IsXDigit(data[i + 2]) then
              [(XValue(data[i + 1]) * 16 + XValue(data[i + 2])) as char] + Decoded(data[i + 3..])
            else [data[i]] + Decoded(data[i + 1..])
  {
    var s := data[i..];
    assert s[1..] == data[i + 1..];
    if i + 2 < |data| { assert s[3..] == data[i + 3..]; }
  }

  method UriDecode(data: string) returns (result: string)
    ensures result == Decoded(data)
  {
    hide Decoded;
    result := "";
    var i: nat := 0;
    assert data[0..] == data && "" + Decoded(data) == Decoded(data);
    while i < |data|
      invariant i <= |data|
      invariant result + Decoded(data[i..]) == Decoded(data)
    {
      DecodedAt(data, i);
      ghost var before := result;
      if data[i] == '+' {
        result := result + " ";
      } else if data[i] == '%' && i + 2 < |data| && IsXDigit(data[i + 1]) && IsXDigit(data[i + 2]) {
        result := result + [(XValue(data[i + 1]) * 16 + XValue(data[i + 2])) as char];
        i := i + 2;
      } else {
        result := result + [data[i]];
      }
      i := i + 1;
      Assoc(before, [result[|before|]], Decoded(data[i..]));
    }
    NothingLeft(data);
  }

  lemma NothingLeft(data: string)
    ensures Decoded(data[|data|..]) == ""
  {
  }

  // ----- application/x-www-form-urlencoded -----

  type Pair = (string, string)

  /** Parsing from `i` on: success, and the pairs before the first malformed one. */
  function Form(s: string, i: nat): (bool, seq<Pair>)
    requires i <= |s|
    decreases |s| - i
  {
    var eq := IndexOf(s, '=', i);
    if eq == |s| then (false, [])
    else
      var key := Decoded(s[i..eq]);
      if key == "" then (false, [])
      else
        var amp := IndexOf(s, '&', eq + 1);
        var value := Decoded(s[eq + 1..amp]);
        if value == "" then (false, [])
        else if amp + 1 >= |s| then (true, [(key, value)])
        else var (ok, rest) := Form(s, amp + 1); (ok, [(key, value)] + rest)
  }

  method ParseFormUrlEncoded(s: string) returns (ok: bool, ret: seq<Pair>)
    ensures (ok, ret) == Form(s, 0)
  {
    hide Decoded, IndexOf;
    var i: nat := 0;
    ret := [];
    ghost var f := Form(s, 0);
    assert [] + f.1 == f.1;
    while true
      invariant i <= |s|
      invariant f.0 == Form(s, i).0 && f.1 == ret + Form(s, i).1
      decreases |s| - i
    {
      var start := i;
      i := IndexOf(s, '=', i);
      if i == |s| {
        assert ret + [] == ret;
        return false, ret;
      }
      var first := Decoded(s[start..i]);
      if first == "" {
        assert ret + [] == ret;
        return false, ret;
      }
      i := i + 1;
      var mid := i;
      i := IndexOf(s, '&', i);
      var second := Decoded(s[mid..i]);
      if second == "" {
        assert ret + [] == ret;
        return false, ret;
      }
      ghost var before := ret;
      ret := ret + [(first, second)];
      i := i + 1;
      if i >= |s| {
        return true, ret;
      }
      assert before + ([(first, second)] + Form(s, i).1) == ret + Form(s, i).1;
    }
  }

  type Field = (seq<byte>, seq<byte>)

  function FormText(fields: seq<Field>): string {
    if fields == [] then ""
    else
      Encoded(fields[0].0) + "=" + Encoded(fields[0].1)
      + if |fields| == 1 then "" else "&" + FormText(fields[1..])
  }

  predicate Filled(f: Field) {
    f.0 != [] && f.1 != []
  }

  /** The pairs before the first one with an empty part. */
  function FilledPrefix(fields: seq<Field>): seq<Pair> {
    if fields == [] || !Filled(fields[0]) then []
    else [fields[0]] + FilledPrefix(fields[1..])
  }

  lemma FormField(s: string, i: nat, k: string, v: string, tail: string)
    requires i <= |s| && s[i..] == k + "=" + v + tail
    requires '=' !in k && '&' !in v && (tail == "" || tail[0] == '&')
    ensures var eq := i + |k|; var amp := eq + 1 + |v|;
            && IndexOf(s, '=', i) == eq && eq < |s| && IndexOf(s, '&', eq + 1) == amp && amp + |tail| == |s|
            && s[i..eq] == k && s[eq + 1..amp] == v && s[amp..] == tail
  {
    hide IndexOf;
    var eq := i + |k|;
    Reassociate(k, "=", v, tail);
    ReadUntil(s, i, k, '=', "=" + v + tail);
    AfterFirst(s, eq, '=', v, tail);
    ReadUntil(s, eq + 1, v, '&', tail);
  }

  lemma AfterFirst(s: string, i: nat, c: char, v: string, tail: string)
    requires i <= |s| && s[i..] == [c] + v + tail
    ensures i < |s| && s[i + 1..] == v + tail
  {
    assert |s[i..]| > 0;
    assert s[i..][1..] == v + tail;
    SliceOfSuffix(s, i, i, i + 1);
  }

  /** One round of the parser on a field whose text is known. */
  lemma FormStep(s: string, i: nat, k: string, v: string, tail: string)
    requires i <= |s| && s[i..] == k + "=" + v + tail
    requires '=' !in k && '&' !in v && (tail == "" || tail[0] == '&')
    ensures i + |k| + 1 + |v| + |tail| == |s| && s[i + |k| + 1 + |v|..] == tail
    ensures var key, value, next := Decoded(k), Decoded(v), i + |k| + 1 + |v| + 1;
            Form(s, i) ==
              if key == "" || value == "" then (false, [])
              else if next >= |s| then (true, [(key, value)])
              else (Form(s, next).0, [(key, value)] + Form(s, next).1)
  {
    hide IndexOf, Decoded;
    FormField(s, i, k, v, tail);
  }

  /** Without an equals sign there is no pair. */
  lemma NoPair(s: string, i: nat)
    requires i <= |s| && '=' !in s[i..]
    ensures Form(s, i) == (false, [])
  {
    hide Decoded;
    var eq := IndexOf(s, '=', i);
    assert forall j | i <= j < |s| :: s[j] == s[i..][j - i];
  }

  predicate AllFilled(fields: seq<Field>) {
    fields == [] || (Filled(fields[0]) && AllFilled(fields[1..]))
  }

  /** Parsing the encoded pairs of a non-empty list succeeds exactly when no part is empty, and
      then gives the pairs back. */
  lemma {:induction false} FormRoundTrip(s: string, i: nat, fields: seq<Field>)
    requires fields != [] && i <= |s| && s[i..] == FormText(fields)
    ensures Form(s, i) == (AllFilled(fields), FilledPrefix(fields))
    ensures AllFilled(fields) ==> FilledPrefix(fields) == fields
    decreases |fields|
  {
    hide Encoded, Decoded, Form, FormText;
    FormTextStep(fields);
    var f, rest := fields[0], fields[1..];
    assert fields == [f] + rest;
    var tail := if |fields| == 1 then "" else "&" + FormText(rest);
    EncodedHasNo(f.0);
    EncodedHasNo(f.1);
    DecodeEncode(f.0);
    DecodeEncode(f.1);
    FormStep(s, i, Encoded(f.0), Encoded(f.1), tail);
    if |fields| > 1 {
      var amp := i + |Encoded(f.0)| + 1 + |Encoded(f.1)|;
      FormTextNonempty(rest);
      assert s[amp..] == "&" + FormText(rest) == "&" + FormText(rest) + "";
      AfterFirst(s, amp, '&', FormText(rest), "");
      assert FormText(rest) + "" == FormText(rest);
      FormRoundTrip(s, amp + 1, rest);
    } else {
      var none: seq<Pair> := [];
      assert rest == [] && FilledPrefix(rest) == none && [f] + none == [f];
    }
  }

  lemma EncodedHasNo(s: seq<byte>)
    ensures '=' !in Encoded(s) && '&' !in Encoded(s) && ';' !in Encoded(s) && '\"' !in Encoded(s)
    ensures forall c | c in " \t\r\n" :: c !in Encoded(s)
    ensures Encoded(s) == "" <==> s == []
  {
    EncodedIsSafe(s);
  }

  lemma FormTextStep(fields: seq<Field>)
    requires fields != []
    ensures FormText(fields) == Encoded(fields[0].0) + "=" + Encoded(fields[0].1)
                                + if |fields| == 1 then "" else "&" + FormText(fields[1..])
  {
  }

  lemma FormTextNonempty(fields: seq<Field>)
    requires fields != []
    ensures FormText(fields) != ""
  {
  }

  // ----- Cookies -----

  function Unquote(s: string): string {
    if |s| >= 2 && s[0] == '\"' && s[|s| - 1] == '\"' then s[1..|s| - 1] else s
  }

  function CookieAdded(m: map<string, string>, pair: string): map<string, string> {
    var eq := IndexOf(pair, '=', 0);
    if eq == |pair| then m
    else
      var key, value := Trim(pair[..eq]), Unquote(Trim(pair[eq + 1..]));
      if key == "" then m else Emplace(m, key, value)
  }

  /** `parse_cookies` from `start` on. */
  function Cookies(header: string, start: nat, m: map<string, string>): map<string, string>
    decreases |header| - start
  {
    if start >= |header| then m
    else
      var end := IndexOf(header, ';', start);
      Cookies(header, end + 1, CookieAdded(m, header[start..end]))
  }

  method ParseCookies(header: string) returns (cookies: map<string, string>)
    ensures cookies == Cookies(header, 0, map[])
  {
    hide IndexOf, Trim, Unquote;
    cookies := map[];
    var start: nat := 0;
    while start < |header|
      invariant Cookies(header, start, cookies) == Cookies(header, 0, map[])
      decreases |header| - start
    {
      var end := IndexOf(header, ';', start);
      var pair := header[start..end];
      var eqPos := IndexOf(pair, '=', 0);
      if eqPos != |pair| {
        var key := Trim(pair[..eqPos]);
        var value := Trim(pair[eqPos + 1..]);
        value := Unquote(value);
        if key != "" {
          cookies := Emplace(cookies, key, value);
        }
      }
      start := end + 1;
    }
  }

  /** `cookie_name_regex`. */
  predicate CookieName(name: string) {
    name != "" && forall c | c in name :: '!' <= c <= '~' && c != ';' && c != '='
  }

  /** Two-argument `serialize_cookie`: an invalid name gives nothing. */
  function Serialized(name: string, value: seq<byte>): string {
    if CookieName(name) then name + "=" + Encoded(value) else ""
  }

  /** The names allowed are those of visible ASCII characters other than `;` and `=`. */
  lemma SerializedIs(name: string, value: seq<byte>)
    ensures Serialized(name, value) ==
              if name != "" && forall i | 0 <= i < |name| :: 33 <= name[i] as int <= 126 && name[i] !in ";="
              then name + "=" + Encoded(value) else ""
  {
    hide Encoded;
    assert forall i | 0 <= i < |name| :: name[i] in name;
    if forall i | 0 <= i < |name| :: 33 <= name[i] as int <= 126 && name[i] !in ";=" {
      forall c | c in name ensures '!' <= c <= '~' && c != ';' && c != '=' {
        var i :| 0 <= i < |name| && name[i] == c;
      }
    }
  }

  type Cookie = (string, seq<byte>)

  /** Serialized cookies joined by `; `. */
  function CookieHeader(cs: seq<Cookie>): string {
    if cs == [] then ""
    else Serialized(cs[0].0, cs[0].1) + if |cs| == 1 then "" else "; " + CookieHeader(cs[1..])
  }

  /** What parsing such a header adds: the first cookie of each name, still encoded. */
  function FirstOfEach(cs: seq<Cookie>, m: map<string, string>): map<string, string> {
    if cs == [] then m else FirstOfEach(cs[1..], Emplace(m, cs[0].0, Encoded(cs[0].1)))
  }

  lemma Clean(s: string)
    requires forall c | c in s :: !IsBlank(c)
    ensures Trim(s) == s && (s != "" ==> Trim(" " + s) == s)
  {
    assert (" " + s)[1..] == s;
  }

  lemma PairRead(m: map<string, string>, a: string, b: string)
    requires '=' !in a
    ensures CookieAdded(m, a + ("=" + b))
         == if Trim(a) == "" then m else Emplace(m, Trim(a), Unquote(Trim(b)))
  {
    hide IndexOf, Trim, Unquote;
    var pair := a + ("=" + b);
    assert pair[0..] == pair;
    ReadUntil(pair, 0, a, '=', "=" + b);
    assert pair[|a| + 1..] == pair[|a|..][1..] == b;
  }

  /** One cookie: blanks around name and value do not count, nor one pair of quotes around the value; an
      earlier cookie of the name stays, and one without a name or an equals sign adds nothing. */
  lemma CookieIsRead(m: map<string, string>, key: string, value: string, a: string, b: string, c: string, d: string)
    requires '=' !in key && forall x | x in a + b + c + d :: x in " \t\r\n"
    requires key != "" ==> key[0] !in " \t\r\n" && key[|key| - 1] !in " \t\r\n"
    requires value != "" ==> value[0] !in " \t\r\n" && value[|value| - 1] !in " \t\r\n"
    ensures CookieAdded(m, a + key + b + ("=" + (c + value + d))) ==
              if key == "" || key in m then m
              else if |value| >= 2 && value[0] == '\"' && value[|value| - 1] == '\"'
              then m[key := value[1..|value| - 1]] else m[key := value]
    ensures CookieAdded(m, key) == m
  {
    hide IndexOf, CookieAdded, Trim;
    assert forall i | 0 <= i < |a| :: a[i] in a + b + c + d;
    assert forall i | 0 <= i < |b| :: b[i] in a + b + c + d;
    assert forall i | 0 <= i < |c| :: c[i] in a + b + c + d;
    assert forall i | 0 <= i < |d| :: d[i] in a + b + c + d;
    TrimIsExact(a, key, b);
    TrimIsExact(c, value, d);
    PairRead(m, a + key + b, c + value + d);
    NoEquals(m, key);
  }

  lemma NoEquals(m: map<string, string>, pair: string)
    requires '=' !in pair
    ensures CookieAdded(m, pair) == m
  {
    hide IndexOf;
    assert pair[0..] == pair + "";
    ReadUntil(pair, 0, pair, '=', "");
  }

  lemma NameFacts(space: string, name: string)
    requires CookieName(name) && (space == "" || space == " ")
    ensures '=' !in space + name && Trim(space + name) == name && name != ""
  {
    Clean(name);
    assert "" + name == name;
  }

  lemma EncodedFacts(value: seq<byte>)
    ensures Unquote(Trim(Encoded(value))) == Encoded(value)
  {
    hide Encoded;
    EncodedHasNo(value);
    Clean(Encoded(value));
  }

  lemma CookieRead(m: map<string, string>, space: string, name: string, value: seq<byte>)
    requires CookieName(name) && (space == "" || space == " ")
    ensures CookieAdded(m, space + Serialized(name, value)) == Emplace(m, name, Encoded(value))
  {
    hide IndexOf, Trim, Encoded, Unquote, CookieAdded;
    NameFacts(space, name);
    EncodedFacts(value);
    PairRead(m, space + name, Encoded(value));
    assert space + (name + "=" + Encoded(value)) == space + name + ("=" + Encoded(value));
  }

  lemma CookieHeaderStep(cs: seq<Cookie>)
    requires cs != []
    ensures CookieHeader(cs) == Serialized(cs[0].0, cs[0].1)
                                + if |cs| == 1 then "" else "; " + CookieHeader(cs[1..])
  {
  }

  lemma CookiesStep(h: string, start: nat, part: string, tail: string, m: map<string, string>)
    requires start <= |h| && h[start..] == part + tail && part != ""
    requires ';' !in part && (tail == "" || tail[0] == ';')
    ensures Cookies(h, start, m) == Cookies(h, start + |part| + 1, CookieAdded(m, part))
    ensures start + |part| <= |h| && h[start + |part|..] == tail
  {
    hide IndexOf, CookieAdded;
    ReadUntil(h, start, part, ';', tail);
  }

  lemma {:induction false} CookiesRead(h: string, start: nat, space: string, cs: seq<Cookie>, m: map<string, string>)
    requires start <= |h| && h[start..] == space + CookieHeader(cs)
    requires cs != [] && (space == "" || space == " ") && forall i | 0 <= i < |cs| :: CookieName(cs[i].0)
    ensures Cookies(h, start, m) == FirstOfEach(cs, m)
    decreases |cs|
  {
    hide IndexOf, CookieAdded, CookieName, Encoded, Serialized, CookieHeader;
    hide Cookies;
    CookieHeaderStep(cs);
    var c, rest := cs[0], cs[1..];
    var text := space + Serialized(c.0, c.1);
    var tail := if |cs| == 1 then "" else "; " + CookieHeader(rest);
    SerializedShape(c);
    Assoc(space, Serialized(c.0, c.1), tail);
    CookiesStep(h, start, text, tail, m);
    CookieRead(m, space, c.0, c.1);
    var end, m' := start + |text|, Emplace(m, c.0, Encoded(c.1));
    if |cs| == 1 {
      assert rest == [];
      PastTheEnd(h, end + 1, m');
    } else {
      assert "; " + CookieHeader(rest) == ";" + " " + CookieHeader(rest);
      AfterFirst(h, end, ';', " ", CookieHeader(rest));
      CookiesRead(h, end + 1, " ", rest, m');
    }
  }

  lemma PastTheEnd(h: string, start: nat, m: map<string, string>)
    requires start >= |h|
    ensures Cookies(h, start, m) == m
  {
  }

  lemma SerializedShape(c: Cookie)
    requires CookieName(c.0)
    ensures Serialized(c.0, c.1) != "" && ';' !in Serialized(c.0, c.1)
  {
    EncodedHasNo(c.1);
  }

  lemma {:induction false} FirstOfEachValue(cs: seq<Cookie>, m: map<string, string>, k: string)
    ensures var r := FirstOfEach(cs, m);
            && (k in r <==> k in m || exists i | 0 <= i < |cs| :: cs[i].0 == k)
            && (k in m ==> r[k] == m[k])
    decreases |cs|
  {
    hide Encoded;
    if cs != [] {
      var m' := Emplace(m, cs[0].0, Encoded(cs[0].1));
      FirstOfEachValue(cs[1..], m', k);
      if i :| 0 <= i < |cs| && cs[i].0 == k && i > 0 { assert cs[1..][i - 1].0 == k; }
      if i :| 0 <= i < |cs[1..]| && cs[1..][i].0 == k { assert cs[i + 1].0 == k; }
    }
  }

  lemma {:induction false} FirstOfEachIs(cs: seq<Cookie>, m: map<string, string>, i: nat)
    requires i < |cs| && cs[i].0 !in m && forall j | 0 <= j < i :: cs[j].0 != cs[i].0
    ensures var r := FirstOfEach(cs, m); cs[i].0 in r && r[cs[i].0] == Encoded(cs[i].1)
    decreases |cs|
  {
    hide Encoded;
    var m' := Emplace(m, cs[0].0, Encoded(cs[0].1));
    if i == 0 {
      FirstOfEachValue(cs[1..], m', cs[0].0);
    } else {
      FirstOfEachIs(cs[1..], m', i - 1);
    }
  }

  /** The cookie round trip: every name sent comes back, and nothing else; the first cookie of
      each name decodes to the value serialized. */
  lemma CookieRoundTrip(cs: seq<Cookie>)
    requires forall i | 0 <= i < |cs| :: CookieName(cs[i].0)
    ensures var r := Cookies(CookieHeader(cs), 0, map[]);
            && (forall k :: k in r <==> exists i | 0 <= i < |cs| :: cs[i].0 == k)
            && (forall i | 0 <= i < |cs| && (forall j | 0 <= j < i :: cs[j].0 != cs[i].0) ::
                  cs[i].0 in r && Decoded(r[cs[i].0]) == cs[i].1)
  {
    hide Encoded, Decoded, CookieName, Cookies, FirstOfEach;
    var h := CookieHeader(cs);
    if cs == [] {
      NoCookies();
    } else {
      assert h[0..] == "" + h;
      CookiesRead(h, 0, "", cs, map[]);
      var r := FirstOfEach(cs, map[]);
      forall k ensures k in r <==> exists i | 0 <= i < |cs| :: cs[i].0 == k {
        FirstOfEachValue(cs, map[], k);
      }
      forall i | 0 <= i < |cs| && (forall j | 0 <= j < i :: cs[j].0 != cs[i].0)
        ensures cs[i].0 in r && Decoded(r[cs[i].0]) == cs[i].1
      {
        FirstOfEachIs(cs, map[], i);
        DecodeEncode(cs[i].1);
      }
    }
  }

  lemma NoCookies()
    ensures Cookies("", 0, map[]) == map[]
  {
  }

  method SerializeCookie(name: string, value: seq<byte>) returns (str: string)
    ensures str == Serialized(name, value)
  {
    if !CookieName(name) {
      return "";
    }
    var encoded := UriEncode(value);
    return name + "=" + encoded;
  }
}
