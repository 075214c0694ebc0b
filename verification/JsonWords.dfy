/** The texts of cJSON.c in letters: the words and signs of JSON, and how values are put together. */
module JsonWords {
  import opened Bytes
  import opened Json

  lemma Words()
    ensures NULL_TEXT == Ascii("null") && FALSE_TEXT == Ascii("false") && TRUE_TEXT == Ascii("true")
  {}

  lemma Signs()
    ensures [OPEN_BRACE, CLOSE_BRACE, OPEN_BRACKET, CLOSE_BRACKET] == Ascii("{}[]")
    ensures [QUOTE, BACKSLASH, COMMA, COLON, MINUS, TAB, NEWLINE] == Ascii("\"\\,:-\t\n")
  {}

  lemma {:induction false} DecimalDigits(n: nat)
    ensures forall i :: 0 <= i < |Decimal(n)| ==> Decimal(n)[i] in Ascii("0123456789")
    ensures n > 0 ==> Decimal(n)[0] != '0' as int
  {
    assert Ascii("0123456789") == [0x30, 0x31, 0x32, 0x33, 0x34, 0x35, 0x36, 0x37, 0x38, 0x39];
    if n >= 10 {
      DecimalDigits(n / 10);
    }
  }

  lemma Small(v: Value, depth: nat, fmt: bool)
    ensures v == Null ==> ValueText(v, depth, fmt) == Ascii("null")
    ensures v == True ==> ValueText(v, depth, fmt) == Ascii("true")
    ensures v == False ==> ValueText(v, depth, fmt) == Ascii("false")
  {
    Words();
  }

  lemma MinusTwelve(depth: nat, fmt: bool)
    ensures ValueText(Number(-12.0), depth, fmt) == Ascii("-12")
  {
    assert IntOf(-12.0) == -12;
    assert Decimal(12) == Decimal(1) + [0x32] && Decimal(1) == [0x31];
  }

  /** An array of two, unformatted and formatted. */
  lemma ArrayText(a: Value, b: Value, depth: nat, fmt: bool)
    ensures ValueText(Array([a, b]), depth, fmt)
            == Ascii("[") + ValueText(a, depth + 1, fmt) + Ascii(if fmt then ", " else ",")
             + ValueText(b, depth + 1, fmt) + Ascii("]")
  {
    ItemsTwo(a, b, depth + 1, fmt);
    assert Ascii("[") == [OPEN_BRACKET] && Ascii("]") == [CLOSE_BRACKET];
    ListOf([a, b], depth, fmt);
    hide Ascii, ItemsText, ValueText;
    Regroup([OPEN_BRACKET], ValueText(a, depth + 1, fmt), Ascii(if fmt then ", " else ","),
            ValueText(b, depth + 1, fmt), [CLOSE_BRACKET]);
  }

  lemma ListOf(items: seq<Value>, depth: nat, fmt: bool)
    ensures ValueText(Array(items), depth, fmt)
            == [OPEN_BRACKET] + ItemsText(items, depth + 1, fmt) + [CLOSE_BRACKET]
  {}

  lemma ItemsTwo(a: Value, b: Value, depth: nat, fmt: bool)
    ensures ItemsText([a, b], depth, fmt)
            == ValueText(a, depth, fmt) + (Ascii(if fmt then ", " else ",") + ValueText(b, depth, fmt))
  {
    assert [a, b][1..] == [b];
    assert Ascii(if fmt then ", " else ",") == if fmt then [COMMA, 0x20] else [COMMA];
    hide ValueText, Ascii;
    assert ItemsText([b], depth, fmt) == ValueText(b, depth, fmt) + [];
  }

  lemma Regroup(a: Text, x: Text, s: Text, y: Text, b: Text)
    ensures a + (x + (s + y)) + b == a + x + s + y + b
  {}

  /** A member: its name in quotes, a colon, its value, and a comma unless it is the last. */
  lemma MemberIs(m: Member, fmt: bool, last: bool)
    ensures MemberText(m, 1, fmt, last)
            == Ascii(if fmt then "\t" else "") + StringText(m.name) + Ascii(if fmt then ":\t" else ":")
             + ValueText(m.value, 1, fmt) + Ascii(if last then "" else ",") + Ascii(if fmt then "\n" else "")
  {
    assert Ascii(if fmt then "\t" else "") == if fmt then Tabs(1) else [] by { TabsOne(); }
    assert Ascii(if fmt then ":\t" else ":") == if fmt then [COLON, TAB] else [COLON];
    assert Ascii(if last then "" else ",") == if last then [] else [COMMA];
    assert Ascii(if fmt then "\n" else "") == if fmt then [NEWLINE] else [];
    hide Ascii, Tabs;
  }

  lemma TabsOne()
    ensures Tabs(1) == [TAB] && Tabs(0) == []
  {
    assert Tabs(1) == [TAB] + Tabs(0);
  }

  /** An object of two members, unformatted and formatted. */
  lemma ObjectText(a: Member, b: Member, fmt: bool)
    ensures ValueText(Object([a, b]), 0, fmt)
            == Ascii(if fmt then "{\n" else "{") + MemberText(a, 1, fmt, false) + MemberText(b, 1, fmt, true)
             + Ascii("}")
  {
    var x, y := MemberText(a, 1, fmt, false), MemberText(b, 1, fmt, true);
    MembersTwo(a, b, fmt);
    ObjectOf([a, b], fmt);
    assert Ascii(if fmt then "{\n" else "{") == (if fmt then [OPEN_BRACE] + [NEWLINE] else [OPEN_BRACE]);
    assert Ascii("}") == [CLOSE_BRACE];
    hide *;
    var front := if fmt then [NEWLINE] else [];
    RegroupTwo([OPEN_BRACE], front, x, y, [CLOSE_BRACE]);
    assert !fmt ==> [OPEN_BRACE] + front == [OPEN_BRACE];
  }

  lemma MembersTwo(a: Member, b: Member, fmt: bool)
    ensures MembersText([a, b], 1, fmt) == MemberText(a, 1, fmt, false) + MemberText(b, 1, fmt, true)
  {
    assert [a, b][1..] == [b] && [b][1..] == [];
    hide MemberText;
    assert MembersText([b], 1, fmt) == MemberText(b, 1, fmt, true) + [];
  }

  lemma ObjectOf(members: seq<Member>, fmt: bool)
    requires members != []
    ensures ValueText(Object(members), 0, fmt)
            == [OPEN_BRACE] + (if fmt then [NEWLINE] else []) + MembersText(members, 1, fmt) + [] + [CLOSE_BRACE]
  {
    TabsOne();
    hide MembersText, Tabs;
  }

  lemma RegroupTwo(a: Text, f: Text, x: Text, y: Text, b: Text)
    ensures a + f + (x + y) + [] + b == (a + f) + x + y + b
  {}

  /** A string: its bytes escaped, in quotes. */
  lemma StringIs(s: Text)
    ensures StringText(s) == Ascii("\"") + EscapeAll(s) + Ascii("\"")
  {
    assert Ascii("\"") == [QUOTE];
  }
}
