/**
 * cJSON.c from end to end: what is printed is read back, and where the lengths counted in an int are too
 * long for one.
 */
module JsonLimits {
  import opened Bytes
  import opened CWords
  import opened Json
  import opened JsonParse
  import JsonPrint
  import JsonRead
  import JsonRoundTrip

  // ---------------------------------------------------------------- what is printed is read

  lemma {:induction false} ScannedLess(s: Text)
    ensures Scanned(s) <= |EscapeAll(s)|
  {
    if s != [] {
      ScannedLess(s[1..]);
    }
  }

  /** A value that can be printed can be read: the parser's scan counts no more than the printer did. */
  lemma {:induction false} FitsReads(v: Value, depth: nat, fmt: bool)
    requires JsonPrint.Fits(v, depth, fmt)
    ensures Readable(v)
    decreases v, 0
  {
    match v
    case String(s) => ScannedLess(s);
    case Array(items) => if items != [] { ItemsRead(items, depth + 1, fmt); }
    case Object(members) => if members != [] { MembersRead(members, depth + 1, fmt); }
    case _ =>
  }

  lemma {:induction false} ItemsRead(items: seq<Value>, depth: nat, fmt: bool)
    requires JsonPrint.ItemsFit(items, depth, fmt)
    ensures AllReadable(items)
    decreases items, 1
  {
    if items != [] {
      FitsReads(items[0], depth, fmt);
      ItemsRead(items[1..], depth, fmt);
    }
  }

  lemma {:induction false} MembersRead(members: seq<Member>, depth: nat, fmt: bool)
    requires JsonPrint.MembersFit(members, depth, fmt)
    ensures MembersReadable(members)
    decreases members, 1
  {
    if members != [] {
      ScannedLess(members[0].name);
      FitsReads(members[0].value, depth, fmt);
      MembersRead(members[1..], depth, fmt);
    }
  }

  /** cJSON_Print or cJSON_PrintUnformatted, then cJSON_Parse: the value comes back if and only if all
      lengths counted for it are in the range of an int; otherwise nothing is printed. */
  method PrintThenParse(v: Value, fmt: bool) returns (r: Parsed<Value>)
    requires Printable(v)
    ensures r == Got(v, []) <==> JsonPrint.Fits(v, 0, fmt)
    ensures r.Got? ==> r == Got(v, [])
  {
    hide JsonPrint.Fits, ValueText, ParseValue, Printable, Readable;
    var printed;
    if fmt {
      printed := JsonPrint.Print(v);
    } else {
      printed := JsonPrint.PrintUnformatted(v);
    }
    if printed.Failed? {
      return Refused;
    }
    FitsReads(v, 0, fmt);
    JsonRoundTrip.RoundTrip(v, fmt);
    var n := JsonPrint.StrLen(printed.out, ValueText(v, 0, fmt));
    r := JsonRead.Parse(printed.out[..n]);
  }

  // ---------------------------------------------------------------- where it fails

  lemma {:induction false} CountedOnes(n: nat, m: nat)
    ensures JsonPrint.Counted(Repeat(1, n), Int32(6 * m)) == Int32(6 * (m + n))
    decreases n
  {
    Int32Add(6 * m, 1);
    Int32Add(6 * m + 1, 5);
    NeverZero(m);
    hide Int32;
    if n > 0 {
      assert Repeat(1, n)[1..] == Repeat(1, n - 1);
      CountedOnes(n - 1, m + 1);
    }
  }

  /** The count of six for each byte steps over 0. */
  lemma NeverZero(m: nat)
    ensures Int32(6 * m + 1) != 0
  {
    var q := (6 * m + 1 + TWO31) / (2 * TWO31);
    assert Int32(6 * m + 1) == 2 * (3 * m - TWO31 * q) + 1;
  }

  lemma {:induction false} EscapedOnes(n: nat)
    ensures |EscapeAll(Repeat(1, n))| == 6 * n
  {
    if n > 0 {
      assert Repeat(1, n)[1..] == Repeat(1, n - 1);
      EscapedOnes(n - 1);
    }
  }

  /** A string of 715827883 bytes 1: five bytes are allocated for a text of more than 2^32. */
  lemma TooManyEscapes()
    ensures var s := Repeat(1, 715827883);
            && JsonPrint.StringSize(s) == 5 && |StringText(s)| + 1 == 4294967301
            && JsonPrint.FateOf(JsonPrint.StringSize(s)) == JsonPrint.Beyond
            && !JsonPrint.Fits(String(s), 0, false)
  {
    CountedOnes(715827883, 0);
    EscapedOnes(715827883);
    hide EscapeAll, JsonPrint.Counted, Repeat;
  }

  lemma {:induction false} PlainLetters(n: nat)
    ensures |EscapeAll(Repeat(0x78, n))| == n
  {
    if n > 0 {
      assert Repeat(0x78, n)[1..] == Repeat(0x78, n - 1);
      PlainLetters(n - 1);
    }
  }

  /** An array of five strings of 900 million letters: each of them fits, but 205032729 bytes are allocated
      for the array, and 4500000017 written. */
  lemma FiveLongStrings()
    ensures var v := String(Repeat(0x78, 900_000_000));
            var items := [v, v, v, v, v];
            && JsonPrint.Fits(v, 1, false) && !JsonPrint.Fits(Array(items), 0, false)
            && Int32(5 + JsonPrint.ItemsCount(items, 1, false)) == 205032729
            && |ValueText(Array(items), 0, false)| + 1 == 4500000017
  {
    PlainLetters(900_000_000);
    var v := String(Repeat(0x78, 900_000_000));
    var text := ValueText(v, 1, false);
    assert |text| == 900_000_002;
    var items := [v, v, v, v, v];
    assert items[1..] == [v, v, v, v] && items[1..][1..] == [v, v, v] && items[1..][1..][1..] == [v, v];
    assert items[1..][1..][1..][1..] == [v] && items[1..][1..][1..][1..][1..] == [];
    hide EscapeAll;
    var count := 900_000_004;
    assert JsonPrint.ItemsCount([v], 1, false) == count;
    assert JsonPrint.ItemsCount([v, v], 1, false) == 2 * count;
    assert JsonPrint.ItemsCount([v, v, v], 1, false) == 3 * count;
    assert JsonPrint.ItemsCount([v, v, v, v], 1, false) == 4 * count;
    assert JsonPrint.ItemsCount(items, 1, false) == 5 * count;
    JsonPrint.ItemsSlack(items, 1, false);
  }

  lemma {:induction false} PlainChars(n: nat)
    ensures Chars(Repeat(0x78, n) + [QUOTE]) == Got(Repeat(0x78, n), [])
    ensures ScanEnds(Repeat(0x78, n) + [QUOTE]) && ScanLength(Repeat(0x78, n) + [QUOTE]) == n
  {
    var s := Repeat(0x78, n) + [QUOTE];
    if n > 0 {
      assert s[1..] == Repeat(0x78, n - 1) + [QUOTE];
      PlainChars(n - 1);
    }
  }

  /** A string of 2^31 - 1 letters is well formed, and refused. */
  lemma TooLongToScan()
    ensures var n := 0x7fff_ffff;
            Chars(Repeat(0x78, n) + [QUOTE]) == Got(Repeat(0x78, n), [])
            && ParseString([QUOTE] + (Repeat(0x78, n) + [QUOTE])) == Refused
  {
    var s := Repeat(0x78, 0x7fff_ffff) + [QUOTE];
    PlainChars(0x7fff_ffff);
    SizedIff(s);
    assert ([QUOTE] + s)[1..] == s;
  }
}
