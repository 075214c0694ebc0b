/** Reading back what the printer writes: every printable value, formatted or not, at any depth. */
module JsonRoundTrip {
  import opened Bytes
  import opened CWords
  import opened Json
  import opened JsonParse

  lemma SkipNone(s: Text)
    requires s == [] || s[0] > 32
    ensures Skip(s) == s
  {}

  /** What may follow a number without being taken into it. */
  predicate Stops(s: Text) {
    !IsDigit(At(s, 0)) && At(s, 0) != 0x2e && At(s, 0) != 0x65 && At(s, 0) != 0x45
  }

  // ---------------------------------------------------------------- numbers

  lemma {:induction false} DigitsDecimal(n: nat, t: Text)
    ensures Digits(Decimal(n) + t, 0) == Digits(t, n)
  {
    if n < 10 {
      assert ([0x30 + n] + t)[1..] == t;
    } else {
      var d: Text := [0x30 + n % 10];
      assert Decimal(n) + t == Decimal(n / 10) + (d + t);
      DigitsDecimal(n / 10, d + t);
      assert (d + t)[1..] == t;
    }
  }

  lemma {:induction false} DecimalHead(n: nat)
    ensures IsDigit(Decimal(n)[0]) && (n > 0 ==> Decimal(n)[0] != 0x30)
  {
    if n >= 10 {
      DecimalHead(n / 10);
    }
  }

  lemma NumberBack(n: int, rest: Text)
    requires Stops(rest)
    ensures ParseNumber(IntText(n) + rest) == (n as real, rest)
  {
    var k: nat := if n < 0 then -n else n;
    var s := IntText(n) + rest;
    var s1 := Decimal(k) + rest;
    DecimalHead(k);
    if n < 0 {
      assert s == [MINUS] + s1 && s[1..] == s1;
    }
    DigitsDecimal(k, rest);
    assert Digits(rest, k) == (k, rest);
    if k == 0 {
      assert s1[1..] == rest;
    }
    assert Pow10(0) == 1.0;
  }

  // ---------------------------------------------------------------- strings

  lemma HexBack(n: nat)
    requires n < 16
    ensures HexOf(HexDigit(n)) == n && HexDigit(n) != QUOTE && HexDigit(n) != BACKSLASH
  {}

  /** One escaped byte reads back as itself. */
  lemma CharBack(c: Byte, t: Text)
    requires c != 0
    ensures Chars(Escape(c) + t) == match Chars(t) { case Got(cs, q) => Got([c] + cs, q) case other => other }
  {
    var s := Escape(c) + t;
    if c > 31 && c != QUOTE && c != BACKSLASH {
      assert s[1..] == t;
    } else if c in {8, 9, 10, 12, 13} || c == QUOTE || c == BACKSLASH {
      assert s[1..][1..] == t;
    } else {
      HexBack(c / 16);
      HexBack(c % 16);
      assert s[1..][5..] == t;
      assert Unescape(s[1..]) == Got([c], t);
    }
  }

  lemma {:induction false} CharsBack(s: Text, rest: Text)
    requires NulFree(s)
    ensures Chars(EscapeAll(s) + [QUOTE] + rest) == Got(s, rest)
    decreases |s|
  {
    if s == [] {
      assert ([] + [QUOTE] + rest)[1..] == rest;
    } else {
      CharsBack(s[1..], rest);
      CharBack(s[0], EscapeAll(s[1..]) + [QUOTE] + rest);
      assert EscapeAll(s) + [QUOTE] + rest == Escape(s[0]) + (EscapeAll(s[1..]) + [QUOTE] + rest);
      assert [s[0]] + s[1..] == s;
    }
  }

  /** The scan of one escaped byte. */
  lemma CharScan(c: Byte, t: Text)
    requires c != 0 && ScanEnds(t)
    ensures ScanEnds(Escape(c) + t) && ScanLength(Escape(c) + t) == (if |Escape(c)| == 6 then 5 else 1) + ScanLength(t)
  {
    var s := Escape(c) + t;
    if c > 31 && c != QUOTE && c != BACKSLASH {
      assert s[1..] == t;
    } else if |Escape(c)| == 2 {
      assert s[2..] == t;
    } else {
      HexBack(c / 16);
      HexBack(c % 16);
      assert s[2..][4..] == t;
      ScanFour(s[2..], 4);
    }
  }

  lemma {:induction false} CharsScan(s: Text, rest: Text)
    requires NulFree(s)
    ensures ScanEnds(EscapeAll(s) + [QUOTE] + rest) && ScanLength(EscapeAll(s) + [QUOTE] + rest) == Scanned(s)
    decreases |s|
  {
    if s != [] {
      CharsScan(s[1..], rest);
      CharScan(s[0], EscapeAll(s[1..]) + [QUOTE] + rest);
      assert EscapeAll(s) + [QUOTE] + rest == Escape(s[0]) + (EscapeAll(s[1..]) + [QUOTE] + rest);
    }
  }

  /** What was printed reads back if it is readable, and does not read at all if it is not. */
  ghost predicate Back<T>(r: Parsed<T>, v: T, rest: Text, readable: bool) {
    if readable then r == Got(v, rest) else !r.Got?
  }

  lemma StringBack(s: Text, rest: Text)
    requires NulFree(s)
    ensures Back(ParseString(StringText(s) + rest), s, rest, Scanned(s) + 1 < TWO31)
  {
    hide Chars, ScanEnds, ScanLength, ScanSize, Escape;
    CharsBack(s, rest);
    CharsScan(s, rest);
    var body := EscapeAll(s) + [QUOTE] + rest;
    SizedIff(body);
    assert (StringText(s) + rest)[1..] == body;
  }

  // ---------------------------------------------------------------- values

  /** The first byte of a value's text says what kind it is. */
  lemma FirstByte(v: Value, depth: nat, fmt: bool)
    ensures var s := ValueText(v, depth, fmt);
            && |s| > 0 && s[0] > 32 && s[0] != CLOSE_BRACKET
            && (v.Number? ==> s[0] == MINUS || IsDigit(s[0]))
            && (v.String? ==> s[0] == QUOTE) && (v.Array? ==> s[0] == OPEN_BRACKET)
            && (v.Object? ==> s[0] == OPEN_BRACE)
  {
    if v.Number? {
      DecimalHead(if IntOf(v.n) < 0 then -IntOf(v.n) else IntOf(v.n));
    }
  }

  lemma {:induction false} SkipTabs(n: int, t: Text)
    ensures Skip(Tabs(n) + t) == Skip(t)
    decreases if n < 0 then 0 else n
  {
    if n > 0 {
      assert (Tabs(n) + t)[1..] == Tabs(n - 1) + t;
      SkipTabs(n - 1, t);
    } else {
      assert [] + t == t;
    }
  }

  lemma SkipOne(c: Byte, t: Text)
    requires 0 < c <= 32
    ensures Skip([c] + t) == Skip(t)
  {
    assert ([c] + t)[1..] == t;
  }

  lemma ItemsSkip(c: Byte, t: Text)
    requires 0 < c <= 32
    ensures ParseItems([c] + t) == ParseItems(t)
  {
    SkipOne(c, t);
  }

  lemma MembersSkip(c: Byte, t: Text)
    requires 0 < c <= 32
    ensures ParseMembers([c] + t) == ParseMembers(t)
  {
    SkipOne(c, t);
  }

  /** A value reads back, whatever follows that cannot be part of a number. */
  lemma {:induction false} ValueBack(v: Value, depth: nat, fmt: bool, rest: Text)
    requires Printable(v) && Stops(rest)
    ensures Back(ParseValue(ValueText(v, depth, fmt) + rest), v, rest, Readable(v))
    decreases v, 0
  {
    var s := ValueText(v, depth, fmt) + rest;
    FirstByte(v, depth, fmt);
    match v
    case Null => assert s[4..] == rest;
    case False => assert s[5..] == rest;
    case True => assert s[4..] == rest;
    case Number(n) => NumberBack(IntOf(n), rest);
    case String(t) => StringBack(t, rest);
    case Array(items) => ArrayBack(v, depth, fmt, rest);
    case Object(members) => ObjectBack(v, depth, fmt, rest);
  }

  lemma {:induction false} ArrayBack(v: Value, depth: nat, fmt: bool, rest: Text)
    requires v.Array? && Printable(v)
    ensures Back(ParseValue(ValueText(v, depth, fmt) + rest), v, rest, Readable(v))
    decreases v.items, 2
  {
    var s := ValueText(v, depth, fmt) + rest;
    var inner := ItemsText(v.items, depth + 1, fmt) + [CLOSE_BRACKET] + rest;
    assert s[0] == OPEN_BRACKET && s[1..] == inner;
    if v.items == [] {
      SkipNone(inner);
      assert inner[1..] == rest;
    } else {
      FirstByte(v.items[0], depth + 1, fmt);
      assert inner[0] == ValueText(v.items[0], depth + 1, fmt)[0];
      SkipNone(inner);
      ItemsBack(v.items, depth + 1, fmt, rest);
    }
  }

  /** How the items go on after the first one. */
  lemma ParseItemsIs(s: Text, v: Value, x: Text)
    requires s != [] && s[0] > 32 && ParseValue(s) == Got(v, x) && x != [] && x[0] > 32
    ensures ParseItems(s)
         == if x[0] == CLOSE_BRACKET then Got([v], x[1..])
            else if x[0] != COMMA then Refused
            else match ParseItems(x[1..]) { case Got(vs, q) => Got([v] + vs, q) case other => other }
  {
    hide ParseValue;
    SkipNone(s);
    SkipNone(x);
  }

  lemma ParseItemsNot(s: Text)
    requires s != [] && s[0] > 32 && !ParseValue(s).Got?
    ensures !ParseItems(s).Got?
  {
    hide ParseValue;
    SkipNone(s);
  }

  /** What follows the first item of an array. */
  function AfterItem(more: seq<Value>, depth: nat, fmt: bool, rest: Text): Text {
    if more == [] then [CLOSE_BRACKET] + rest
    else [COMMA] + ((if fmt then [0x20] else []) + (ItemsText(more, depth, fmt) + [CLOSE_BRACKET] + rest))
  }

  lemma ItemsTextIs(items: seq<Value>, depth: nat, fmt: bool, rest: Text)
    requires items != []
    ensures ItemsText(items, depth, fmt) + [CLOSE_BRACKET] + rest
         == ValueText(items[0], depth, fmt) + AfterItem(items[1..], depth, fmt, rest)
  {
    var first, more := ValueText(items[0], depth, fmt), items[1..];
    if more == [] {
      assert ItemsText(items, depth, fmt) == first + [];
      JoinLast(first, [CLOSE_BRACKET], rest);
    } else {
      var text := ItemsText(more, depth, fmt);
      var gap: Text := if fmt then [COMMA, 0x20] else [COMMA];
      assert ItemsText(items, depth, fmt) == first + (gap + text);
      hide ItemsText, ValueText;
      JoinMore(first, gap, [COMMA], if fmt then [0x20] else [], text, [CLOSE_BRACKET], rest);
    }
  }

  lemma JoinLast(a: Text, b: Text, c: Text)
    ensures a + [] + b + c == a + (b + c)
  {}

  lemma JoinMore(a: Text, gap: Text, comma: Text, blank: Text, b: Text, c: Text, d: Text)
    requires gap == comma + blank
    ensures a + (gap + b) + c + d == a + (comma + (blank + (b + c + d)))
  {}

  lemma AfterItemMore(more: seq<Value>, depth: nat, fmt: bool, rest: Text)
    requires more != []
    ensures ParseItems(AfterItem(more, depth, fmt, rest)[1..])
         == ParseItems(ItemsText(more, depth, fmt) + [CLOSE_BRACKET] + rest)
  {
    hide ParseItems, ItemsText;
    var next := ItemsText(more, depth, fmt) + [CLOSE_BRACKET] + rest;
    assert AfterItem(more, depth, fmt, rest)[1..] == if fmt then [0x20] + next else next;
    ItemsSkip(0x20, next);
  }

  lemma {:induction false} ItemsBack(items: seq<Value>, depth: nat, fmt: bool, rest: Text)
    requires items != [] && AllPrintable(items)
    ensures Back(ParseItems(ItemsText(items, depth, fmt) + [CLOSE_BRACKET] + rest), items, rest, AllReadable(items))
    decreases items, 1
  {
    var v, more := items[0], items[1..];
    var after := AfterItem(more, depth, fmt, rest);
    FirstByte(v, depth, fmt);
    ValueBack(v, depth, fmt, after);
    if more != [] {
      ItemsBack(more, depth, fmt, rest);
      AfterItemMore(more, depth, fmt, rest);
    }
    hide ParseValue, ParseItems, ValueText, ItemsText, AllPrintable, Readable;
    ItemsTextIs(items, depth, fmt, rest);
    if !Readable(v) {
      ParseItemsNot(ValueText(v, depth, fmt) + after);
      return;
    }
    ParseItemsIs(ValueText(v, depth, fmt) + after, v, after);
    assert [v] + more == items;
    assert more == [] ==> after[1..] == rest && items == [v];
  }

  lemma {:induction false} ObjectBack(v: Value, depth: nat, fmt: bool, rest: Text)
    requires v.Object? && Printable(v)
    ensures Back(ParseValue(ValueText(v, depth, fmt) + rest), v, rest, Readable(v))
    decreases v.members, 3
  {
    var ms := v.members;
    if ms == [] {
      var close := [CLOSE_BRACE] + rest;
      var inner := if fmt then [NEWLINE] + (Tabs(depth - 1) + close) else close;
      assert ValueText(v, depth, fmt) + rest == [OPEN_BRACE] + inner;
      hide ParseValue, ParseMembers, ValueText;
      SkipNone(close);
      SkipOne(NEWLINE, Tabs(depth - 1) + close);
      SkipTabs(depth - 1, close);
      assert close[1..] == rest;
      ParseObject(inner);
    } else {
      var close := Closing(depth, fmt, rest);
      var body := MembersText(ms, depth + 1, fmt) + close;
      var inner := if fmt then [NEWLINE] + body else body;
      assert ValueText(v, depth, fmt) + rest == [OPEN_BRACE] + inner by {
        hide MembersText, Tabs;
      }
      MembersBack(ms, depth + 1, fmt, rest);
      hide ParseValue, ParseMembers, ValueText, MembersText;
      SkipOne(NEWLINE, body);
      MemberFirst(ms, depth + 1, fmt, close);
      MembersOfSkip(body);
      ParseObject(inner);
    }
  }

  /** parse_object. */
  lemma ParseObject(s: Text)
    ensures ParseValue([OPEN_BRACE] + s)
         == if At(Skip(s), 0) == CLOSE_BRACE then Got(Object([]), Skip(s)[1..])
            else match ParseMembers(Skip(s)) { case Got(ms, q) => Got(Object(ms), q) case Refused => Refused
                case Undefined => Undefined }
  {
    assert ([OPEN_BRACE] + s)[1..] == s;
  }

  /** Whitespace in front of a member makes no difference, and a member does not begin with a brace. */
  lemma MembersOfSkip(s: Text)
    ensures ParseMembers(Skip(s)) == ParseMembers(s)
  {
    SkipSkip(s);
  }

  lemma {:induction false} SkipSkip(s: Text)
    ensures Skip(Skip(s)) == Skip(s)
  {
    if s != [] && 0 < s[0] <= 32 {
      SkipSkip(s[1..]);
    }
  }

  lemma MemberFirst(ms: seq<Member>, depth: nat, fmt: bool, close: Text)
    requires ms != []
    ensures At(Skip(MembersText(ms, depth, fmt) + close), 0) == QUOTE
  {
    var more := MembersText(ms[1..], depth, fmt) + close;
    MembersTextIs(ms, depth, fmt, close);
    MemberTextIs(ms[0], depth, fmt, |ms| == 1, more);
    hide Tabs, ValueText, MembersText, MemberText, Skip;
    var named := StringText(ms[0].name) + ([COLON] + ((if fmt then [TAB] else [])
                 + (ValueText(ms[0].value, depth, fmt)
                     + ((if |ms| == 1 then [] else [COMMA]) + (if fmt then [NEWLINE] else []) + more))));
    SkipTabs(depth, named);
    SkipNone(named);
    assert [] + named == named;
  }

  /** What a member's text is, followed by `z`. */
  lemma MemberTextIs(m: Member, depth: nat, fmt: bool, last: bool, z: Text)
    ensures MemberText(m, depth, fmt, last) + z
         == (if fmt then Tabs(depth) else [])
            + (StringText(m.name) + ([COLON] + ((if fmt then [TAB] else [])
               + (ValueText(m.value, depth, fmt)
                   + ((if last then [] else [COMMA]) + (if fmt then [NEWLINE] else []) + z)))))
  {
    hide Tabs, StringText, ValueText;
  }

  lemma ParseMemberIs(s: Text, name: Text, x: Text)
    requires ParseString(Skip(s)) == Got(name, [COLON] + x)
    ensures ParseMember(s) == match ParseValue(Skip(x)) { case Got(v, q) => Got(Member(name, v), q)
            case Refused => Refused case Undefined => Undefined }
  {
    hide ParseValue, ParseString;
    SkipNone([COLON] + x);
    assert ([COLON] + x)[1..] == x;
  }

  lemma ParseMemberNot(s: Text)
    requires !ParseString(Skip(s)).Got?
    ensures !ParseMember(s).Got?
  {
    hide ParseString;
  }

  lemma {:induction false} MemberBack(m: Member, depth: nat, fmt: bool, last: bool, z: Text)
    requires NulFree(m.name) && Printable(m.value) && (last && !fmt ==> Stops(z))
    ensures Back(ParseMember(MemberText(m, depth, fmt, last) + z), m,
                 (if last then [] else [COMMA]) + (if fmt then [NEWLINE] else []) + z, MemberReadable(m))
    decreases m, 1
  {
    var y := (if last then [] else [COMMA]) + (if fmt then [NEWLINE] else []) + z;
    assert Stops(y);
    var value := ValueText(m.value, depth, fmt) + y;
    FirstByte(m.value, depth, fmt);
    ValueBack(m.value, depth, fmt, y);
    hide ParseValue, ParseString, ParseMember, ValueText, MemberText, Stops;
    SkipNone(value);
    SkipOne(TAB, value);
    var x := (if fmt then [TAB] else []) + value;
    assert [] + value == value;
    MemberTextIs(m, depth, fmt, last, z);
    var named := StringText(m.name) + ([COLON] + x);
    SkipTabs(depth, named);
    SkipNone(named);
    assert [] + named == named;
    StringBack(m.name, [COLON] + x);
    if Scanned(m.name) + 1 < TWO31 {
      ParseMemberIs((if fmt then Tabs(depth) else []) + named, m.name, x);
    } else {
      ParseMemberNot((if fmt then Tabs(depth) else []) + named);
    }
  }

  ghost predicate MemberReadable(m: Member) { Scanned(m.name) + 1 < TWO31 && Readable(m.value) }

  /** How the members go on after the first one. */
  lemma ParseMembersIs(s: Text, m: Member, x: Text)
    requires ParseMember(s) == Got(m, x)
    ensures ParseMembers(s)
         == if At(Skip(x), 0) == CLOSE_BRACE then Got([m], Skip(x)[1..])
            else if At(Skip(x), 0) != COMMA then Refused
            else match ParseMembers(Skip(x)[1..]) { case Got(ms, q) => Got([m] + ms, q) case other => other }
  {
    hide ParseMember;
  }

  lemma ParseMembersNot(s: Text)
    requires !ParseMember(s).Got?
    ensures !ParseMembers(s).Got?
  {
    hide ParseMember;
  }

  function After(fmt: bool, last: bool, z: Text): Text {
    (if last then [] else [COMMA]) + (if fmt then [NEWLINE] else []) + z
  }

  lemma AfterLast(fmt: bool, depth: nat, close: Text)
    requires close != [] && close[0] == CLOSE_BRACE
    ensures Skip(After(fmt, true, (if fmt then Tabs(depth) else []) + close)) == close
  {
    var z := (if fmt then Tabs(depth) else []) + close;
    SkipNone(close);
    SkipTabs(depth, close);
    SkipOne(NEWLINE, z);
    assert After(fmt, true, z) == if fmt then [NEWLINE] + z else z;
    assert [] + close == close;
  }

  lemma AfterMore(fmt: bool, z: Text)
    ensures var s := Skip(After(fmt, false, z));
            s != [] && s[0] == COMMA && s[1..] == (if fmt then [NEWLINE] + z else z)
                && ParseMembers(s[1..]) == ParseMembers(z)
  {
    hide ParseMembers;
    SkipNone(After(fmt, false, z));
    assert After(fmt, false, z)[1..] == if fmt then [NEWLINE] + z else z;
    MembersSkip(NEWLINE, z);
  }

  lemma MembersTextIs(ms: seq<Member>, depth: nat, fmt: bool, close: Text)
    requires ms != []
    ensures MembersText(ms, depth, fmt) + close
         == MemberText(ms[0], depth, fmt, |ms| == 1) + (MembersText(ms[1..], depth, fmt) + close)
  {
    hide MemberText;
  }

  lemma {:induction false} MembersBack(ms: seq<Member>, depth: nat, fmt: bool, rest: Text)
    requires ms != [] && MembersPrintable(ms) && depth > 0
    ensures Back(ParseMembers(MembersText(ms, depth, fmt) + Closing(depth - 1, fmt, rest)), ms, rest,
            MembersReadable(ms))
    decreases ms, 2
  {
    var m, more, last := ms[0], ms[1..], |ms| == 1;
    var close := Closing(depth - 1, fmt, rest);
    var z := MembersText(more, depth, fmt) + close;
    assert last && !fmt ==> Stops(z);
    MemberBack(m, depth, fmt, last, z);
    MembersTextIs(ms, depth, fmt, close);
    if !MemberReadable(m) {
      ParseMembersNot(MemberText(m, depth, fmt, last) + z);
      return;
    }
    if !last {
      MembersBack(more, depth, fmt, rest);
    }
    MembersGoOn(ms, depth, fmt, rest);
  }

  /** The text that closes an object: its tabs and brace, and what follows. */
  function Closing(depth: nat, fmt: bool, rest: Text): Text {
    (if fmt then Tabs(depth) else []) + ([CLOSE_BRACE] + rest)
  }

  lemma MembersGoOn(ms: seq<Member>, depth: nat, fmt: bool, rest: Text)
    requires ms != [] && depth > 0
    requires var z := MembersText(ms[1..], depth, fmt) + Closing(depth - 1, fmt, rest);
             ParseMember(MemberText(ms[0], depth, fmt, |ms| == 1) + z) == Got(ms[0], After(fmt, |ms| == 1, z))
    requires MemberReadable(ms[0])
    requires |ms| > 1 ==> Back(ParseMembers(MembersText(ms[1..], depth, fmt) + Closing(depth - 1, fmt, rest)), ms[1..],
             rest,
                               MembersReadable(ms[1..]))
    ensures Back(ParseMembers(MembersText(ms, depth, fmt) + Closing(depth - 1, fmt, rest)), ms, rest,
            MembersReadable(ms))
  {
    hide ParseMembers, ParseMember, MemberText, Tabs, Skip;
    var m, more, last := ms[0], ms[1..], |ms| == 1;
    var close := Closing(depth - 1, fmt, rest);
    var z := MembersText(more, depth, fmt) + close;
    MembersTextIs(ms, depth, fmt, close);
    ParseMembersIs(MemberText(m, depth, fmt, last) + z, m, After(fmt, last, z));
    assert [m] + more == ms;
    if last {
      assert z == close && ms == [m];
      AfterLast(fmt, depth - 1, [CLOSE_BRACE] + rest);
      assert ([CLOSE_BRACE] + rest)[1..] == rest;
    } else {
      AfterMore(fmt, z);
    }
  }

  /** cJSON_Parse of the text of cJSON_Print, or of cJSON_PrintUnformatted: the same value, nothing left over,
      if and only if every string in it is short enough to be scanned. */
  lemma RoundTrip(v: Value, fmt: bool)
    requires Printable(v)
    ensures ParseValue(Skip(ValueText(v, 0, fmt))) == Got(v, []) <==> Readable(v)
  {
    FirstByte(v, 0, fmt);
    SkipNone(ValueText(v, 0, fmt));
    ValueBack(v, 0, fmt, []);
    assert ValueText(v, 0, fmt) + [] == ValueText(v, 0, fmt);
  }
}
