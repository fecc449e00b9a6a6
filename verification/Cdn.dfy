/** Asset files of the CDN module, mods/storage/cdn/main.cpp: reversed-hex names, paths and the
    purge of unused assets. */
module Cdn {
  import opened Text

  const HEX_DIGITS := "0123456789ABCDEF"
  const UINT8 := 0x100
  const UINT32 := 0x1_0000_0000

  // ----- Reversed hex -----

  function Rhex(v: nat): string {
    [HEX_DIGITS[v % 16]] + if v / 16 == 0 then "" else Rhex(v / 16)
  }

  /** What a character stands for; 16 for anything that is not an upper-case hex digit. */
  function Digit(c: char): nat {
    if '0' <= c <= '9' then c as int - '0' as int
    else if 'A' <= c <= 'F' then c as int - 'A' as int + 10
    else 16
  }

  /** The number a text denotes, least significant digit first. */
  function Value(s: string): nat {
    if s == "" then 0 else Digit(s[0]) + 16 * Value(s[1..])
  }

  /** Digits only, at least one, and no idle zero at the most significant end. */
  predicate Numeral(s: string) {
    && s != ""
    && (forall i | 0 <= i < |s| :: Digit(s[i]) < 16)
    && (|s| > 1 ==> s[|s| - 1] != '0')
  }

  function Pow16(n: nat): (r: nat)
    ensures r > 0
  {
    if n == 0 then 1 else 16 * Pow16(n - 1)
  }

  lemma DigitOfHex(d: nat)
    requires d < 16
    ensures Digit(HEX_DIGITS[d]) == d && HEX_DIGITS[d] != '\0'
  {
  }

  lemma HexOfDigit(c: char)
    requires Digit(c) < 16
    ensures HEX_DIGITS[Digit(c)] == c
    ensures Digit(c) == 0 <==> c == '0'
  {
  }

  lemma RhexCons(d: nat, v: nat)
    requires d < 16
    ensures Rhex(d + 16 * v) == [HEX_DIGITS[d]] + if v == 0 then "" else Rhex(v)
  {
    assert (d + 16 * v) % 16 == d && (d + 16 * v) / 16 == v;
  }

  /** Every number is named by a numeral that denotes it. */
  lemma {:induction false} RhexDenotes(v: nat)
    ensures Numeral(Rhex(v)) && Value(Rhex(v)) == v
    ensures v == 0 <==> Rhex(v) == "0"
  {
    DigitOfHex(v % 16);
    var more := if v / 16 == 0 then "" else Rhex(v / 16);
    assert Rhex(v)[1..] == more;
    if v / 16 != 0 {
      RhexDenotes(v / 16);
    }
  }

  /** And no other numeral denotes it. */
  lemma {:induction false} RhexUnique(s: string)
    requires Numeral(s)
    ensures Rhex(Value(s)) == s
    ensures Value(s) == 0 <==> s == "0"
  {
    hide Digit, Rhex;
    HexOfDigit(s[0]);
    RhexCons(Digit(s[0]), Value(s[1..]));
    assert s == [s[0]] + s[1..];
    if |s| > 1 {
      assert s[1..][|s| - 2] != '0';
      RhexUnique(s[1..]);
    }
  }

  /** Its length: n digits are enough exactly below 16 to the n. */
  lemma {:induction false} RhexLength(v: nat, n: nat)
    requires n > 0
    ensures |Rhex(v)| <= n <==> v < Pow16(n)
    decreases n
  {
    if n == 1 {
      assert v / 16 == 0 <==> v < 16;
      assert Pow16(1) == 16 * Pow16(0);
    } else {
      RhexLength(v / 16, n - 1);
      assert v / 16 < Pow16(n - 1) <==> v < 16 * Pow16(n - 1);
    }
  }

  /** `to_rhex` for a type of `digits` hex digits, signed or not, into a buffer with room for them
      and the NUL. */
  method ToRhex(n: int, digits: nat, ret: array<char>)
    requires digits > 0 && ret.Length >= digits + 1
    modifies ret
    ensures var text := Rhex(n % Pow16(digits));
            && |text| <= digits
            && ret[..|text| + 1] == text + "\0"
            && ret[|text| + 1..] == old(ret[|text| + 1..])
  {
    hide Rhex, Pow16;
    var v: nat := n % Pow16(digits);
    ghost var text := Rhex(v);
    RhexLength(v, digits);
    var i := 0;
    // the first turn of the do-while loop
    RhexSplit(v);
    ret[i] := HEX_DIGITS[v % 16];
    i := i + 1;
    v := v / 16;
    while v != 0
      invariant 0 < i <= |text| <= digits
      invariant forall j | 0 <= j < i :: ret[j] == text[j]
      invariant forall j | i <= j < ret.Length :: ret[j] == old(ret[j])
      invariant if v == 0 then i == |text| else i < |text| && text[i..] == Rhex(v)
      decreases v
    {
      RhexSplit(v);
      SplitAgain(text, i);
      ret[i] := HEX_DIGITS[v % 16];
      i := i + 1;
      v := v / 16;
    }
    ret[i] := '\0';
    assert ret[..i] == text;
    assert ret[..i + 1] == ret[..i] + [ret[i]];
  }

  lemma RhexSplit(v: nat)
    ensures Rhex(v) != "" && Rhex(v)[0] == HEX_DIGITS[v % 16]
    ensures if v / 16 == 0 then |Rhex(v)| == 1 else |Rhex(v)| > 1 && Rhex(v)[1..] == Rhex(v / 16)
  {
  }

  lemma SplitAgain(text: string, i: nat)
    requires i < |text|
    ensures text[i..][0] == text[i] && text[i..][1..] == text[i + 1..]
    ensures text[..i + 1] == text[..i] + [text[i]]
  {
  }

  /** Two values of one integer type get the same text only if they are the same value. */
  lemma RhexTellsApart(n: int, m: int, digits: nat)
    requires digits > 0 && n - m < Pow16(digits) && m - n < Pow16(digits)
    ensures Rhex(n % Pow16(digits)) == Rhex(m % Pow16(digits)) <==> n == m
  {
    hide Rhex, Pow16, Value;
    var w := Pow16(digits);
    RhexDenotes(n % w);
    RhexDenotes(m % w);
    if n % w == m % w {
      NoMultipleBetween(n / w - m / w, w, n - m);
    }
  }

  lemma NoMultipleBetween(q: int, w: nat, d: int)
    requires d == q * w && d < w && -d < w
    ensures d == 0
  {
    assert q >= 1 ==> q * w >= w;
    assert q <= -1 ==> (-q) * w >= w;
  }

  // ----- Paths -----

  /** The path of an asset; the arguments are cut to 8 and 32 bits on the way in. */
  function Path(dataDir: string, bucket: int, id: int): string {
    dataDir + "/" + [HEX_DIGITS[bucket % UINT8 % 16], HEX_DIGITS[bucket % UINT8 / 16]] + "/" + Rhex(id % UINT32)
  }

  method GetAssetPath(dataDir: string, bucket: int, id: int) returns (ret: string)
    ensures ret == Path(dataDir, bucket, id)
  {
    hide Rhex, Pow16, Numeral, Value;
    var b, assetId := bucket % UINT8, id % UINT32;
    var bucketStr := new char[2];
    bucketStr[0] := HEX_DIGITS[b % 16];
    bucketStr[1] := HEX_DIGITS[b / 16 % 16];
    ret := dataDir + "/";
    ret := ret + bucketStr[..2];
    ret := ret + "/";
    var assetIdStr := new char[65];
    Pow16Of8();
    ToRhex(assetId, 8, assetIdStr);
    SmallMod(assetId);
    RhexDenotes(assetId);
    var len := Terminator(assetIdStr, Rhex(assetId));
    ret := ret + assetIdStr[..len];
  }

  lemma Pow16Of8()
    ensures Pow16(8) == UINT32
  {
    assert Pow16(2) == 0x100;
    assert Pow16(4) == 0x100 * Pow16(2);
    assert Pow16(6) == 0x100 * Pow16(4);
    assert Pow16(8) == 0x100 * Pow16(6);
  }

  /** Where a reader of the buffer stops. */
  method Terminator(s: array<char>, ghost text: string) returns (len: nat)
    requires |text| < s.Length && s[..|text| + 1] == text + "\0" && Numeral(text)
    ensures len == |text| && s[..len] == text
  {
    assert forall i | 0 <= i < |text| :: s[i] == s[..|text| + 1][i] == text[i] && Digit(text[i]) < 16;
    assert s[|text|] == s[..|text| + 1][|text|] == '\0';
    len := 0;
    while s[len] != '\0'
      invariant len <= |text|
      decreases |text| - len
    {
      len := len + 1;
    }
    assert s[..len] == s[..|text| + 1][..|text|] == text;
  }

  /** Two assets share a path exactly when their buckets agree in 8 bits and their ids in 32. */
  lemma PathInjective(dataDir: string, b1: int, i1: int, b2: int, i2: int)
    ensures Path(dataDir, b1, i1) == Path(dataDir, b2, i2)
       <==> b1 % UINT8 == b2 % UINT8 && i1 % UINT32 == i2 % UINT32
  {
    hide Rhex, Value;
    RhexDenotes(i1 % UINT32);
    RhexDenotes(i2 % UINT32);
    var p1, p2, n := Path(dataDir, b1, i1), Path(dataDir, b2, i2), |dataDir| + 1;
    if p1 == p2 {
      assert p1[n + 3..] == Rhex(i1 % UINT32) && p2[n + 3..] == Rhex(i2 % UINT32);
      DigitOfHex(b1 % UINT8 % 16);
      DigitOfHex(b1 % UINT8 / 16);
      DigitOfHex(b2 % UINT8 % 16);
      DigitOfHex(b2 % UINT8 / 16);
      assert p1[n] == HEX_DIGITS[b1 % UINT8 % 16] && p1[n + 1] == HEX_DIGITS[b1 % UINT8 / 16];
      assert p2[n] == HEX_DIGITS[b2 % UINT8 % 16] && p2[n + 1] == HEX_DIGITS[b2 % UINT8 / 16];
    }
  }

  /** What a path says: the low and the high digit of the bucket as a directory, then the numeral of the
      id, least significant digit first. */
  lemma PathIs(dataDir: string, bucket: int, id: int)
    ensures var p, n := Path(dataDir, bucket, id), |dataDir|;
            && |p| > n + 4 && p[..n] == dataDir && p[n] == '/' && p[n + 3] == '/'
            && Digit(p[n + 1]) == bucket % 256 % 16 && Digit(p[n + 2]) == bucket % 256 / 16
            && Numeral(p[n + 4..]) && Value(p[n + 4..]) == id % 0x1_0000_0000
  {
    hide Rhex, Value, Numeral;
    RhexDenotes(id % UINT32);
    DigitOfHex(bucket % UINT8 % 16);
    DigitOfHex(bucket % UINT8 / 16);
    var p, n := Path(dataDir, bucket, id), |dataDir|;
    assert Rhex(id % UINT32) != "" by { RhexSplit(id % UINT32); }
    assert p[n + 4..] == Rhex(id % UINT32) && p[..n] == dataDir;
  }

  // ----- Purging -----

  /** A row of Assets. */
  datatype Row = Row(id: int, bucket: int, createTs: Option<int>)

  /** `id NOT IN (SELECT assetId FROM Tokens)`: a NULL among the tokens makes it unknown. */
  predicate NotIn(id: int, tokens: seq<Option<int>>) {
    forall i | 0 <= i < |tokens| :: tokens[i].Some? && tokens[i].value != id
  }

  const CREATION_DELAY := 60 * 5

  predicate Unused(r: Row, tokens: seq<Option<int>>, now: int) {
    r.createTs.Some? && r.createTs.value < now - CREATION_DELAY && NotIn(r.id, tokens)
  }

  function UnusedRows(rows: seq<Row>, tokens: seq<Option<int>>, now: int): seq<Row> {
    if rows == [] then []
    else (if Unused(rows[0], tokens, now) then [rows[0]] else []) + UnusedRows(rows[1..], tokens, now)
  }

  function UsedRows(rows: seq<Row>, tokens: seq<Option<int>>, now: int): seq<Row> {
    if rows == [] then []
    else (if Unused(rows[0], tokens, now) then [] else [rows[0]]) + UsedRows(rows[1..], tokens, now)
  }

  /** The rows part in two, order aside. */
  lemma {:induction false} RowsPart(rows: seq<Row>, tokens: seq<Option<int>>, now: int)
    ensures forall r :: r in UnusedRows(rows, tokens, now) <==> r in rows && Unused(r, tokens, now)
    ensures forall r :: r in UsedRows(rows, tokens, now) <==> r in rows && !Unused(r, tokens, now)
    ensures |UnusedRows(rows, tokens, now)| + |UsedRows(rows, tokens, now)| == |rows|
  {
    hide Unused;
    if rows != [] {
      RowsPart(rows[1..], tokens, now);
    }
  }

  /** A token without an asset makes every membership unknown, so nothing at all is unused. */
  lemma {:induction false} NullTokenKeepsAll(rows: seq<Row>, tokens: seq<Option<int>>, now: int)
    requires None in tokens
    ensures UnusedRows(rows, tokens, now) == [] && UsedRows(rows, tokens, now) == rows
  {
    if rows != [] {
      NullTokenKeepsAll(rows[1..], tokens, now);
      var i :| 0 <= i < |tokens| && tokens[i] == None;
      assert !NotIn(rows[0].id, tokens);
    }
  }

  lemma UnusedCons(r: Row, rows: seq<Row>, tokens: seq<Option<int>>, now: int)
    ensures UnusedRows([r] + rows, tokens, now)
         == (if Unused(r, tokens, now) then [r] else []) + UnusedRows(rows, tokens, now)
    ensures UsedRows([r] + rows, tokens, now)
         == (if Unused(r, tokens, now) then [] else [r]) + UsedRows(rows, tokens, now)
  {
    hide Unused;
    assert ([r] + rows)[1..] == rows;
  }

  lemma {:induction false} UnusedSnoc(rows: seq<Row>, r: Row, tokens: seq<Option<int>>, now: int)
    ensures UnusedRows(rows + [r], tokens, now)
         == UnusedRows(rows, tokens, now) + if Unused(r, tokens, now) then [r] else []
    ensures UsedRows(rows + [r], tokens, now)
         == UsedRows(rows, tokens, now) + if Unused(r, tokens, now) then [] else [r]
  {
    hide Unused;
    if rows == [] {
      assert rows + [r] == [r];
    } else {
      UnusedSnoc(rows[1..], r, tokens, now);
      hide UnusedRows, UsedRows;
      UnusedCons(rows[0], rows[1..], tokens, now);
      UnusedCons(rows[0], rows[1..] + [r], tokens, now);
      assert [rows[0]] + (rows[1..] + [r]) == rows + [r] && [rows[0]] + rows[1..] == rows;
    }
  }

  /** A purge deletes the rows more than five minutes old that no token names, provided that every token
      names something, and no others. */
  lemma PurgedExactlyWhen(dataDir: string, s: State, now: int, r: Row)
    requires r in s.assets
    ensures r !in Purged(dataDir, s, now).assets <==>
              && r.createTs != None && r.createTs.value + 300 < now
              && None !in s.tokens && Some(r.id) !in s.tokens
    ensures Purged(dataDir, s, now).tokens == s.tokens
  {
    hide Path;
    RowsPart(s.assets, s.tokens, now);
    if NotIn(r.id, s.tokens) {
      assert None !in s.tokens && Some(r.id) !in s.tokens;
    } else {
      var i :| 0 <= i < |s.tokens| && !(s.tokens[i].Some? && s.tokens[i].value != r.id);
      assert s.tokens[i] in s.tokens && (s.tokens[i] == None || s.tokens[i] == Some(r.id));
    }
  }

  function PathsOf(dataDir: string, rows: seq<Row>): set<string> {
    set i | 0 <= i < |rows| :: Path(dataDir, rows[i].bucket, rows[i].id)
  }

  datatype State = State(assets: seq<Row>, tokens: seq<Option<int>>, files: set<string>)

  /** A purge in which no statement fails. */
  function Purged(dataDir: string, s: State, now: int): State {
    State(UsedRows(s.assets, s.tokens, now), s.tokens,
          s.files - PathsOf(dataDir, UnusedRows(s.assets, s.tokens, now)))
  }

  class Store {
    const dataDir: string
    var assets: seq<Row>
    var tokens: seq<Option<int>>
    var files: set<string>

    constructor (dataDir: string)
      ensures this.dataDir == dataDir && Contents() == State([], [], {})
    {
      this.dataDir := dataDir;
      assets, tokens, files := [], [], {};
    }

    function Contents(): State
      reads this
    {
      State(assets, tokens, files)
    }

    /** `purge`; the BEGIN, the SELECT or the DELETE fails if `failAt` is 0, 1 or 2. A failure rolls
        back and ends in an exception from the ROLLBACK or the COMMIT, before any file is touched. */
    method Purge(now: int, failAt: nat) returns (threw: bool)
      modifies this
      ensures threw <==> failAt < 3
      ensures Contents() == if threw then old(Contents()) else Purged(dataDir, old(Contents()), now)
    {
      hide Unused, UnusedRows, UsedRows, Path;
      if failAt == 0 {
        return true;
      }
      var begin := assets;
      if failAt == 1 {
        assets := begin;
        return true;
      }
      var toDelete := UnusedAssets(now);
      if failAt == 2 {
        assets := begin;
        return true;
      }
      DeleteUnused(now);
      RemoveFiles(toDelete, UnusedRows(begin, tokens, now));
      return false;
    }

    method UnusedAssets(now: int) returns (toDelete: seq<(int, int)>)
      ensures Listed(toDelete, UnusedRows(assets, tokens, now))
    {
      toDelete := [];
      var row := 0;
      assert assets[..row] == [];
      while row < |assets|
        invariant row <= |assets|
        invariant Listed(toDelete, UnusedRows(assets[..row], tokens, now))
      {
        assert assets[..row + 1] == assets[..row] + [assets[row]];
        UnusedSnoc(assets[..row], assets[row], tokens, now);
        if Unused(assets[row], tokens, now) {
          toDelete := toDelete + [(assets[row].bucket % UINT32, assets[row].id % UINT32)];
        }
        row := row + 1;
      }
      assert assets[..row] == assets;
    }

    method DeleteUnused(now: int)
      modifies this`assets
      ensures assets == UsedRows(old(assets), tokens, now)
    {
      assets := UsedRows(assets, tokens, now);
    }

    method RemoveFiles(toDelete: seq<(int, int)>, ghost rows: seq<Row>)
      requires Listed(toDelete, rows)
      modifies this`files
      ensures files == old(files) - PathsOf(dataDir, rows)
    {
      hide Path;
      assert PathsOf(dataDir, rows[..0]) == {};
      var k := 0;
      while k < |toDelete|
        invariant k <= |toDelete|
        invariant files == old(files) - PathsOf(dataDir, rows[..k])
      {
        var path := GetAssetPath(dataDir, toDelete[k].0, toDelete[k].1);
        CutTwice(dataDir, rows[k].bucket, rows[k].id);
        PathsSnoc(dataDir, rows, k);
        files := files - {path};
        k := k + 1;
      }
      assert rows[..k] == rows;
    }
  }

  /** The pairs read for these rows, each cut to 32 bits. */
  ghost predicate Listed(toDelete: seq<(int, int)>, rows: seq<Row>) {
    |toDelete| == |rows| && forall i | 0 <= i < |rows| ::
      toDelete[i] == (rows[i].bucket % UINT32, rows[i].id % UINT32)
  }

  lemma CutTwice(dataDir: string, bucket: int, id: int)
    ensures Path(dataDir, bucket % UINT32, id % UINT32) == Path(dataDir, bucket, id)
  {
    hide Rhex;
    ModMod(bucket);
    ModMod(id);
  }

  lemma ModMod(n: int)
    ensures n % UINT32 % UINT8 == n % UINT8 && n % UINT32 % UINT32 == n % UINT32
  {
    var q, r: nat := n / 0x1_0000_0000, n % 0x1_0000_0000;
    CutLow(n, 0x100_0000 * q, r);
    SmallMod(r);
  }

  lemma CutLow(n: int, k: int, r: int)
    requires n == 0x100 * k + r
    ensures r % 0x100 == n % 0x100
  {
  }

  lemma SmallMod(n: int)
    requires 0 <= n < UINT32
    ensures n % UINT32 == n
  {
  }

  lemma PathsSnoc(dataDir: string, rows: seq<Row>, k: nat)
    requires k < |rows|
    ensures PathsOf(dataDir, rows[..k + 1]) == PathsOf(dataDir, rows[..k]) + {Path(dataDir, rows[k].bucket, rows[k].id)}
  {
    hide Path;
    var a, b := rows[..k + 1], rows[..k];
    forall p | p in PathsOf(dataDir, a)
      ensures p in PathsOf(dataDir, b) + {Path(dataDir, rows[k].bucket, rows[k].id)}
    {
      var i :| 0 <= i < |a| && p == Path(dataDir, a[i].bucket, a[i].id);
      assert i < k ==> b[i] == a[i];
    }
    forall p | p in PathsOf(dataDir, b)
      ensures p in PathsOf(dataDir, a)
    {
      var i :| 0 <= i < |b| && p == Path(dataDir, b[i].bucket, b[i].id);
      assert a[i] == b[i];
    }
    assert a[k] == rows[k];
  }

  predicate SamePlace(r: Row, t: Row) {
    r.bucket % UINT8 == t.bucket % UINT8 && r.id % UINT32 == t.id % UINT32
  }

  /** What a purge does to one file: it goes exactly when it belongs to a deleted row. */
  lemma FileGoesExactlyWhen(dataDir: string, s: State, now: int, r: Row)
    requires Path(dataDir, r.bucket, r.id) in s.files
    ensures Path(dataDir, r.bucket, r.id) !in Purged(dataDir, s, now).files
       <==> exists t :: t in s.assets && Unused(t, s.tokens, now) && SamePlace(r, t)
  {
    hide Path, Unused;
    var gone := UnusedRows(s.assets, s.tokens, now);
    RowsPart(s.assets, s.tokens, now);
    var p := Path(dataDir, r.bucket, r.id);
    if p in PathsOf(dataDir, gone) {
      var i :| 0 <= i < |gone| && p == Path(dataDir, gone[i].bucket, gone[i].id);
      PathInjective(dataDir, r.bucket, r.id, gone[i].bucket, gone[i].id);
      assert gone[i] in gone && SamePlace(r, gone[i]);
    }
    if t :| t in s.assets && Unused(t, s.tokens, now) && SamePlace(r, t) {
      assert t in gone;
      PathInjective(dataDir, r.bucket, r.id, t.bucket, t.id);
    }
  }

  /** Ids are a primary key, and those handed to clients fit 32 bits. */
  predicate Keyed(rows: seq<Row>) {
    && (forall i | 0 <= i < |rows| :: 0 <= rows[i].id < UINT32)
    && (forall i, j | 0 <= i < j < |rows| :: rows[i].id != rows[j].id)
  }

  lemma KeyedApart(dataDir: string, s: State, now: int, r: Row, t: Row)
    requires Keyed(s.assets) && r in Purged(dataDir, s, now).assets && t in s.assets && Unused(t, s.tokens, now)
    ensures !SamePlace(r, t)
  {
    hide Path, Unused, SamePlace, UsedRows, UnusedRows, PathsOf;
    KeyedSurvivorsApart(dataDir, s, now, r, t);
  }

  lemma KeyedPlaces(rows: seq<Row>, r: Row, t: Row)
    requires Keyed(rows) && r in rows && t in rows && SamePlace(r, t)
    ensures r == t
  {
    SmallMod(r.id);
    SmallMod(t.id);
  }

  /** No survivor of a purge loses its file exactly when none that has one shares its place with a
      deleted row. */
  lemma SurvivorsKeepFiles(dataDir: string, s: State, now: int)
    ensures var s' := Purged(dataDir, s, now);
            (forall r | r in s'.assets && Path(dataDir, r.bucket, r.id) in s.files ::
               Path(dataDir, r.bucket, r.id) in s'.files)
            <==> (forall r, t | r in s'.assets && Path(dataDir, r.bucket, r.id) in s.files
                                && t in s.assets && Unused(t, s.tokens, now) :: !SamePlace(r, t))
  {
    hide Path, Unused, SamePlace, Purged;
    var s' := Purged(dataDir, s, now);
    forall r: Row | Path(dataDir, r.bucket, r.id) in s.files
      ensures Path(dataDir, r.bucket, r.id) !in s'.files
         <==> exists t :: t in s.assets && Unused(t, s.tokens, now) && SamePlace(r, t)
    {
      FileGoesExactlyWhen(dataDir, s, now, r);
    }
  }

  /** ... as it always is with distinct 32-bit ids. */
  lemma KeyedSurvivorsApart(dataDir: string, s: State, now: int, r: Row, t: Row)
    requires forall i | 0 <= i < |s.assets| :: 0 <= s.assets[i].id < 0x1_0000_0000
    requires forall i, j | 0 <= i < j < |s.assets| :: s.assets[i].id != s.assets[j].id
    requires r in Purged(dataDir, s, now).assets && t in s.assets && Unused(t, s.tokens, now)
    ensures !SamePlace(r, t)
  {
    hide Path, Unused, SamePlace, UsedRows, UnusedRows, PathsOf;
    RowsPart(s.assets, s.tokens, now);
    if SamePlace(r, t) {
      KeyedPlaces(s.assets, r, t);
    }
  }

  // ----- Runs -----

  /** The store and the paths that purges under way still have to remove: the files go one by one
      after the commit. */
  datatype World = World(store: State, doomed: multiset<string>)

  /** What happens to the store.  An upload inserts its row and then, if the transfer succeeds, writes
      the file. */
  datatype Op =
    | Upload(row: Row, written: bool)
    | Grant(assetId: int)
    | DeleteToken(k: nat)
    | Delete(id: int)
    | PurgeRows(now: int)
    | RemoveFile(path: string)

  function WithoutId(rows: seq<Row>, id: int): seq<Row> {
    if rows == [] then []
    else (if rows[0].id == id then [] else [rows[0]]) + WithoutId(rows[1..], id)
  }

  function Revoked(tokens: seq<Option<int>>, id: int): seq<Option<int>> {
    if tokens == [] then []
    else (if tokens[0] == Some(id) then [] else [tokens[0]]) + Revoked(tokens[1..], id)
  }

  /** Deleting an asset takes its row and its tokens and nothing else. */
  lemma {:induction false} DeleteIsExact(rows: seq<Row>, tokens: seq<Option<int>>, id: int)
    ensures forall r :: r in WithoutId(rows, id) <==> r in rows && r.id != id
    ensures forall t :: t in Revoked(tokens, id) <==> t in tokens && t != Some(id)
  {
    if rows != [] {
      DeleteIsExact(rows[1..], tokens, id);
    } else if tokens != [] {
      DeleteIsExact(rows, tokens[1..], id);
    }
  }

  /** The list a purge draws up. */
  function PathList(dataDir: string, rows: seq<Row>): seq<string> {
    seq(|rows|, i requires 0 <= i < |rows| => Path(dataDir, rows[i].bucket, rows[i].id))
  }

  function Step(dataDir: string, w: World, op: Op): World {
    var s := w.store;
    match op
    case Upload(row, written) =>
      w.(store := s.(assets := s.assets + [row],
                     files := if written then s.files + {Path(dataDir, row.bucket, row.id)} else s.files))
    case Grant(assetId) => w.(store := s.(tokens := s.tokens + [Some(assetId % UINT32)]))
    case DeleteToken(k) =>
      if k < |s.tokens| then w.(store := s.(tokens := s.tokens[..k] + s.tokens[k + 1..])) else w
    case Delete(id) =>
      w.(store := s.(tokens := Revoked(s.tokens, id % UINT32), assets := WithoutId(s.assets, id % UINT32)))
    case PurgeRows(now) =>
      World(s.(assets := UsedRows(s.assets, s.tokens, now)),
            w.doomed + multiset(PathList(dataDir, UnusedRows(s.assets, s.tokens, now))))
    case RemoveFile(path) =>
      if path in w.doomed then World(s.(files := s.files - {path}), w.doomed - multiset{path}) else w
  }

  function Run(dataDir: string, w: World, ops: seq<Op>): World
    decreases |ops|
  {
    if ops == [] then w else Step(dataDir, Run(dataDir, w, ops[..|ops| - 1]), ops[|ops| - 1])
  }

  /** A purge that nothing interrupts. */
  function WholePurge(dataDir: string, s: State, now: int): seq<Op> {
    var paths := PathList(dataDir, UnusedRows(s.assets, s.tokens, now));
    [PurgeRows(now)] + seq(|paths|, i requires 0 <= i < |paths| => RemoveFile(paths[i]))
  }

  lemma PurgeAtOnce(dataDir: string, w: World, now: int)
    ensures Run(dataDir, w, WholePurge(dataDir, w.store, now)) == World(Purged(dataDir, w.store, now), w.doomed)
  {
    hide Path, UnusedRows, UsedRows, Run;
    var s, ops := w.store, WholePurge(dataDir, w.store, now);
    var gone := UnusedRows(s.assets, s.tokens, now);
    RemovedUpTo(dataDir, w, now, |gone|);
    assert ops[..1 + |gone|] == ops && gone[..|gone|] == gone && gone[|gone|..] == [];
    assert PathList(dataDir, gone[|gone|..]) == [];
  }

  /** Half-way: the first `n` of the files are gone. */
  function PurgedUpTo(dataDir: string, w: World, now: int, n: nat): World {
    var s := w.store;
    var gone := UnusedRows(s.assets, s.tokens, now);
    if n > |gone| then w
    else World(State(UsedRows(s.assets, s.tokens, now), s.tokens, s.files - PathsOf(dataDir, gone[..n])),
               w.doomed + multiset(PathList(dataDir, gone[n..])))
  }

  lemma {:induction false} RemovedUpTo(dataDir: string, w: World, now: int, n: nat)
    requires n <= |UnusedRows(w.store.assets, w.store.tokens, now)|
    ensures Run(dataDir, w, WholePurge(dataDir, w.store, now)[..1 + n]) == PurgedUpTo(dataDir, w, now, n)
    decreases n
  {
    hide Path, UnusedRows, UsedRows, Step, PurgedUpTo, PathList;
    var ops := WholePurge(dataDir, w.store, now);
    var gone := UnusedRows(w.store.assets, w.store.tokens, now);
    PathsAre(dataDir, gone);
    if n == 0 {
      assert ops[..1] == [PurgeRows(now)] && ops[..1][..0] == [];
      FirstRemoval(dataDir, w, now);
    } else {
      RemovedUpTo(dataDir, w, now, n - 1);
      assert ops[..1 + n][..n] == ops[..n];
      NextRemoval(dataDir, w, now, n);
    }
  }

  lemma PathsAre(dataDir: string, rows: seq<Row>)
    ensures |PathList(dataDir, rows)| == |rows|
    ensures forall i | 0 <= i < |rows| :: PathList(dataDir, rows)[i] == Path(dataDir, rows[i].bucket, rows[i].id)
  {
    hide Path;
  }

  lemma FirstRemoval(dataDir: string, w: World, now: int)
    ensures Step(dataDir, w, PurgeRows(now)) == PurgedUpTo(dataDir, w, now, 0)
  {
    hide Path, UnusedRows, UsedRows;
    var gone := UnusedRows(w.store.assets, w.store.tokens, now);
    assert gone[0..] == gone && PathsOf(dataDir, gone[..0]) == {};
  }

  lemma NextRemoval(dataDir: string, w: World, now: int, n: nat)
    requires 1 <= n <= |UnusedRows(w.store.assets, w.store.tokens, now)|
    ensures var r := UnusedRows(w.store.assets, w.store.tokens, now)[n - 1];
            Step(dataDir, PurgedUpTo(dataDir, w, now, n - 1), RemoveFile(Path(dataDir, r.bucket, r.id)))
            == PurgedUpTo(dataDir, w, now, n)
  {
    hide Path, UnusedRows, UsedRows, PathsOf;
    var gone := UnusedRows(w.store.assets, w.store.tokens, now);
    var path := Path(dataDir, gone[n - 1].bucket, gone[n - 1].id);
    PathsSnoc(dataDir, gone, n - 1);
    assert PathList(dataDir, gone[n - 1..]) == [path] + PathList(dataDir, gone[n..]);
    var a, b := PurgedUpTo(dataDir, w, now, n - 1), PurgedUpTo(dataDir, w, now, n);
    assert a.doomed - multiset{path} == b.doomed;
    assert a.store.files - {path} == b.store.files;
  }

  /** Does the step remove the file in the place of `r`? */
  predicate Strikes(dataDir: string, w: World, op: Op, r: Row) {
    op == RemoveFile(Path(dataDir, r.bucket, r.id)) && op.path in w.doomed
  }

  predicate StrikesAt(dataDir: string, w: World, ops: seq<Op>, k: nat, r: Row)
    requires k < |ops|
  {
    Strikes(dataDir, Run(dataDir, w, ops[..k]), ops[k], r)
  }

  /** No step from `m` on does. */
  predicate QuietFrom(dataDir: string, w: World, ops: seq<Op>, m: nat, r: Row) {
    forall k | m <= k < |ops| :: !StrikesAt(dataDir, w, ops, k, r)
  }

  /** Does the step write a file in the place of `r`? */
  predicate Writes(op: Op, r: Row) {
    op.Upload? && op.written && SamePlace(r, op.row)
  }

  lemma FileStep(dataDir: string, w: World, op: Op, r: Row)
    ensures var p := Path(dataDir, r.bucket, r.id);
            p in Step(dataDir, w, op).store.files <==>
              (p in w.store.files && !Strikes(dataDir, w, op, r)) || Writes(op, r)
  {
    hide Path, UsedRows, UnusedRows, SamePlace;
    if op.Upload? {
      SamePaths(dataDir, r, op.row);
    }
  }

  lemma SamePaths(dataDir: string, r: Row, t: Row)
    ensures SamePlace(r, t) <==> Path(dataDir, r.bucket, r.id) == Path(dataDir, t.bucket, t.id)
  {
    hide Path;
    PathInjective(dataDir, r.bucket, r.id, t.bucket, t.id);
  }

  /** Over every run of uploads, grants, deletions and purges, files removed one by one: a place holds
      a file exactly if it did or was written to, and no purge has removed it since. */
  lemma {:induction false} FileOverRuns(dataDir: string, w: World, ops: seq<Op>, r: Row)
    ensures Path(dataDir, r.bucket, r.id) in Run(dataDir, w, ops).store.files
       <==> || (Path(dataDir, r.bucket, r.id) in w.store.files && QuietFrom(dataDir, w, ops, 0, r))
            || (exists m | 0 <= m < |ops| :: Writes(ops[m], r) && QuietFrom(dataDir, w, ops, m + 1, r))
    decreases |ops|
  {
    hide Path, Strikes, Writes, Step, QuietFrom, StrikesAt;
    if ops != [] {
      var n := |ops| - 1;
      var init := ops[..n];
      FileOverRuns(dataDir, w, init, r);
      FileStep(dataDir, Run(dataDir, w, init), ops[n], r);
      forall m: nat | m <= n
        ensures QuietFrom(dataDir, w, ops, m, r)
           <==> QuietFrom(dataDir, w, init, m, r) && !Strikes(dataDir, Run(dataDir, w, init), ops[n], r)
      {
        QuietSnoc(dataDir, w, ops, m, r);
      }
      assert QuietFrom(dataDir, w, ops, n + 1, r) by { QuietAtEnd(dataDir, w, ops, r); }
      assert forall m: nat | m < n :: init[m] == ops[m];
    } else {
      QuietAtEnd(dataDir, w, ops, r);
    }
  }

  lemma QuietSnoc(dataDir: string, w: World, ops: seq<Op>, m: nat, r: Row)
    requires m < |ops|
    ensures var init, last := ops[..|ops| - 1], ops[|ops| - 1];
            QuietFrom(dataDir, w, ops, m, r)
            <==> QuietFrom(dataDir, w, init, m, r) && !Strikes(dataDir, Run(dataDir, w, init), last, r)
  {
    hide Strikes, Run;
    var init, n := ops[..|ops| - 1], |ops| - 1;
    forall k: nat | k < n ensures StrikesAt(dataDir, w, ops, k, r) == StrikesAt(dataDir, w, init, k, r) {
      assert init[..k] == ops[..k];
    }
    assert StrikesAt(dataDir, w, ops, n, r) == Strikes(dataDir, Run(dataDir, w, init), ops[n], r);
  }

  lemma QuietAtEnd(dataDir: string, w: World, ops: seq<Op>, r: Row)
    ensures QuietFrom(dataDir, w, ops, |ops|, r)
  {
  }

  /** Does the step put the place of `r` on a list of removals? */
  ghost predicate Dooms(w: World, op: Op, r: Row) {
    op.PurgeRows? && exists t :: t in w.store.assets && Unused(t, w.store.tokens, op.now) && SamePlace(r, t)
  }

  lemma DoomedStep(dataDir: string, w: World, op: Op, r: Row)
    ensures Path(dataDir, r.bucket, r.id) in Step(dataDir, w, op).doomed ==>
              Path(dataDir, r.bucket, r.id) in w.doomed || Dooms(w, op, r)
  {
    hide Path, Unused, UsedRows, UnusedRows, SamePlace;
    if op.PurgeRows? {
      var gone := UnusedRows(w.store.assets, w.store.tokens, op.now);
      RowsPart(w.store.assets, w.store.tokens, op.now);
      var list := PathList(dataDir, gone);
      if Path(dataDir, r.bucket, r.id) in list {
        var i :| 0 <= i < |list| && list[i] == Path(dataDir, r.bucket, r.id);
        SamePaths(dataDir, r, gone[i]);
        assert gone[i] in gone;
      }
    }
  }

  /** A new row leaves the ids distinct and within 32 bits. */
  predicate Enabled(w: World, op: Op) {
    op.Upload? ==> Keyed(w.store.assets + [op.row])
  }

  lemma {:induction false} UsedKeyed(rows: seq<Row>, tokens: seq<Option<int>>, now: int)
    requires Keyed(rows)
    ensures Keyed(UsedRows(rows, tokens, now))
  {
    hide Unused, Keyed, UsedRows;
    if rows == [] {
      UsedNothing(tokens, now);
    } else {
      UsedFirst(rows, tokens, now);
      KeyedRest(rows);
      RowsPart(rows[1..], tokens, now);
      UsedKeyed(rows[1..], tokens, now);
      KeyedCons(rows, UsedRows(rows[1..], tokens, now));
    }
  }

  lemma UsedNothing(tokens: seq<Option<int>>, now: int)
    ensures UsedRows([], tokens, now) == [] && Keyed([])
  {
  }

  lemma UsedFirst(rows: seq<Row>, tokens: seq<Option<int>>, now: int)
    requires rows != []
    ensures var more := UsedRows(rows[1..], tokens, now);
            UsedRows(rows, tokens, now) == more || UsedRows(rows, tokens, now) == [rows[0]] + more
  {
    hide Unused;
  }

  lemma KeyedRest(rows: seq<Row>)
    requires rows != [] && Keyed(rows)
    ensures Keyed(rows[1..])
  {
  }

  /** The first row may be put back before any of the others. */
  lemma KeyedCons(rows: seq<Row>, more: seq<Row>)
    requires rows != [] && Keyed(rows) && Keyed(more) && forall r | r in more :: r in rows[1..]
    ensures Keyed([rows[0]] + more)
  {
    var all := [rows[0]] + more;
    forall i | 0 < i < |all| ensures all[i].id != rows[0].id {
      assert all[i] == more[i - 1] && more[i - 1] in rows[1..];
    }
  }

  lemma {:induction false} WithoutIdKeyed(rows: seq<Row>, id: int)
    requires Keyed(rows)
    ensures Keyed(WithoutId(rows, id))
    ensures forall r :: r in WithoutId(rows, id) <==> r in rows && r.id != id
  {
    hide Keyed;
    if rows == [] {
      UsedNothing([], 0);
    } else {
      KeyedRest(rows);
      WithoutIdKeyed(rows[1..], id);
      KeyedCons(rows, WithoutId(rows[1..], id));
      assert [] + WithoutId(rows[1..], id) == WithoutId(rows[1..], id);
    }
  }

  lemma StepKeyed(dataDir: string, w: World, op: Op)
    requires Keyed(w.store.assets) && Enabled(w, op)
    ensures Keyed(Step(dataDir, w, op).store.assets)
  {
    hide Path, UsedRows, WithoutId, Keyed;
    match op
    case Delete(id) => WithoutIdKeyed(w.store.assets, id % UINT32);
    case PurgeRows(now) => UsedKeyed(w.store.assets, w.store.tokens, now);
    case _ =>
  }

  /** Ids stay distinct, and a place whose row stays is put on no list. */
  lemma {:induction false} RunKeyed(dataDir: string, w: World, ops: seq<Op>, r: Row)
    requires Keyed(w.store.assets) && forall k | 0 <= k < |ops| :: Enabled(Run(dataDir, w, ops[..k]), ops[k])
    requires forall k | 0 <= k <= |ops| :: r in Run(dataDir, w, ops[..k]).store.assets
    ensures Keyed(Run(dataDir, w, ops).store.assets)
    ensures Path(dataDir, r.bucket, r.id) in Run(dataDir, w, ops).doomed ==> Path(dataDir, r.bucket, r.id) in w.doomed
    decreases |ops|
  {
    hide Keyed, Enabled, Step, Path, Dooms;
    if ops != [] {
      var init, n := ops[..|ops| - 1], |ops| - 1;
      forall k | 0 <= k < n ensures Enabled(Run(dataDir, w, init[..k]), init[k]) {
        assert init[..k] == ops[..k];
      }
      forall k | 0 <= k <= n ensures r in Run(dataDir, w, init[..k]).store.assets {
        assert init[..k] == ops[..k];
      }
      RunKeyed(dataDir, w, init, r);
      StepKeyed(dataDir, Run(dataDir, w, init), ops[n]);
      DoomedStep(dataDir, Run(dataDir, w, init), ops[n], r);
      assert ops[..n + 1] == ops;
      KeptNotDoomed(dataDir, Run(dataDir, w, init), ops[n], r);
    }
  }

  lemma KeptNotDoomed(dataDir: string, w: World, op: Op, r: Row)
    requires Keyed(w.store.assets) && r in Step(dataDir, w, op).store.assets
    ensures !Dooms(w, op, r)
  {
    hide Path, Keyed, Unused, SamePlace, UsedRows, UnusedRows;
    if Dooms(w, op, r) {
      var t :| t in w.store.assets && Unused(t, w.store.tokens, op.now) && SamePlace(r, t);
      KeyedApart(dataDir, w.store, op.now, r, t);
    }
  }

  /** With distinct 32-bit ids, over every run: an asset that has a file, whose place no purge under way
      is about to clear, and that keeps its row, keeps its file. */
  lemma FilesOutliveRuns(dataDir: string, w: World, ops: seq<Op>, r: Row)
    requires Keyed(w.store.assets) && forall k | 0 <= k < |ops| :: Enabled(Run(dataDir, w, ops[..k]), ops[k])
    requires forall k | 0 <= k <= |ops| :: r in Run(dataDir, w, ops[..k]).store.assets
    requires Path(dataDir, r.bucket, r.id) in w.store.files && Path(dataDir, r.bucket, r.id) !in w.doomed
    ensures Path(dataDir, r.bucket, r.id) in Run(dataDir, w, ops).store.files
  {
    hide Path, Keyed, Enabled, Run;
    FileOverRuns(dataDir, w, ops, r);
    forall k | 0 <= k < |ops| ensures !StrikesAt(dataDir, w, ops, k, r) {
      forall j | 0 <= j < k ensures Enabled(Run(dataDir, w, ops[..k][..j]), ops[..k][j]) {
        assert ops[..k][..j] == ops[..j];
      }
      forall j | 0 <= j <= k ensures r in Run(dataDir, w, ops[..k][..j]).store.assets {
        assert ops[..k][..j] == ops[..j];
      }
      RunKeyed(dataDir, w, ops[..k], r);
    }
  }

  /** Why the place must not be about to be cleared: an upload that takes over the id of a purged row
      before its file is removed loses its own. */
  lemma ReusedIdLosesFile(dataDir: string, w: World, r: Row)
    requires Path(dataDir, r.bucket, r.id) in w.doomed && Keyed(w.store.assets + [r])
    ensures var w' := Run(dataDir, w, [Upload(r, true)] + [RemoveFile(Path(dataDir, r.bucket, r.id))]);
            && r in w'.store.assets && Keyed(w'.store.assets)
            && Path(dataDir, r.bucket, r.id) !in w'.store.files
  {
    hide Path, Keyed;
    var a := [Upload(r, true)];
    var b := a + [RemoveFile(Path(dataDir, r.bucket, r.id))];
    assert a[..0] == [] && b[..1] == a;
    assert Run(dataDir, w, a) == Step(dataDir, w, Upload(r, true));
  }
}
