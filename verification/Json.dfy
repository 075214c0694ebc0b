/** JSON values and their text (cJSON.c): what the printer writes, as functions of the value. */
module Json {
  import opened Bytes
  import opened CWords

  datatype Value =
    | Null | False | True
    | Number(n: real)
    | String(s: Text)
    | Array(items: seq<Value>)
    | Object(members: seq<Member>)

  datatype Member = Member(name: Text, value: Value)

  const QUOTE: Byte := 0x22
  const BACKSLASH: Byte := 0x5c
  const COMMA: Byte := 0x2c
  const COLON: Byte := 0x3a
  const TAB: Byte := 0x09
  const NEWLINE: Byte := 0x0a
  const OPEN_BRACKET: Byte := 0x5b
  const CLOSE_BRACKET: Byte := 0x5d
  const OPEN_BRACE: Byte := 0x7b
  const CLOSE_BRACE: Byte := 0x7d
  const MINUS: Byte := 0x2d
  const NULL_TEXT: Text := [0x6e, 0x75, 0x6c, 0x6c]
  const FALSE_TEXT: Text := [0x66, 0x61, 0x6c, 0x73, 0x65]
  const TRUE_TEXT: Text := [0x74, 0x72, 0x75, 0x65]

  predicate NulFree(s: Text) { forall i :: 0 <= i < |s| ==> s[i] != 0 }

  /** A number that fits a C int. */
  function IntOf(r: real): int { r.Floor }

  predicate IsInt(r: real) { r == IntOf(r) as real && -0x8000_0000 <= IntOf(r) < 0x8000_0000 }

  /** A value the printer writes exactly: its numbers are C ints and its strings hold no NUL. */
  ghost predicate Printable(v: Value)
    decreases v, 0
  {
    match v
    case Number(n) => IsInt(n)
    case String(s) => NulFree(s)
    case Array(items) => AllPrintable(items)
    case Object(members) => MembersPrintable(members)
    case _ => true
  }

  ghost predicate AllPrintable(items: seq<Value>)
    decreases items, 1
  {
    items == [] || (Printable(items[0]) && AllPrintable(items[1..]))
  }

  ghost predicate MembersPrintable(members: seq<Member>)
    decreases members, 1
  {
    members == [] || (NulFree(members[0].name) && Printable(members[0].value) && MembersPrintable(members[1..]))
  }

  // ---------------------------------------------------------------- text

  function Decimal(n: nat): (s: Text)
    ensures |s| > 0
  {
    if n < 10 then [0x30 + n] else Decimal(n / 10) + [0x30 + n % 10]
  }

  function IntText(n: int): Text {
    if n < 0 then [MINUS] + Decimal(-n) else Decimal(n)
  }

  function HexDigit(n: nat): Byte
    requires n < 16
  {
    if n < 10 then 0x30 + n else 0x61 + (n - 10)
  }

  /** One byte of a string, as print_string_ptr writes it. */
  function Escape(c: Byte): (s: Text)
    ensures |s| > 0
  {
    if c > 31 && c != QUOTE && c != BACKSLASH then [c]
    else if c == BACKSLASH then [BACKSLASH, BACKSLASH]
    else if c == QUOTE then [BACKSLASH, QUOTE]
    else if c == 8 then [BACKSLASH, 0x62]
    else if c == 12 then [BACKSLASH, 0x66]
    else if c == 10 then [BACKSLASH, 0x6e]
    else if c == 13 then [BACKSLASH, 0x72]
    else if c == 9 then [BACKSLASH, 0x74]
    else [BACKSLASH, 0x75, 0x30, 0x30, HexDigit(c / 16), HexDigit(c % 16)]
  }

  function EscapeAll(s: Text): Text {
    if s == [] then [] else Escape(s[0]) + EscapeAll(s[1..])
  }

  /** What parse_string's scan of the escaped string passes: an escape is one, but a \u escape five. */
  function Scanned(s: Text): nat {
    if s == [] then 0 else (if |Escape(s[0])| == 6 then 5 else 1) + Scanned(s[1..])
  }

  /** A value whose strings are all short enough for that scan to count them in an int. */
  ghost predicate Readable(v: Value)
    decreases v, 0
  {
    match v
    case String(s) => Scanned(s) + 1 < TWO31
    case Array(items) => AllReadable(items)
    case Object(members) => MembersReadable(members)
    case _ => true
  }

  ghost predicate AllReadable(items: seq<Value>)
    decreases items, 1
  {
    items == [] || (Readable(items[0]) && AllReadable(items[1..]))
  }

  ghost predicate MembersReadable(members: seq<Member>)
    decreases members, 1
  {
    members == []
    || (Scanned(members[0].name) + 1 < TWO31 && Readable(members[0].value) && MembersReadable(members[1..]))
  }

  function StringText(s: Text): Text { [QUOTE] + EscapeAll(s) + [QUOTE] }

  function Tabs(n: int): (s: Text)
    ensures |s| == if n < 0 then 0 else n
    decreases if n < 0 then 0 else n
  {
    if n <= 0 then [] else [TAB] + Tabs(n - 1)
  }

  function ValueText(v: Value, depth: nat, fmt: bool): Text
    decreases v, 0
  {
    match v
    case Null => NULL_TEXT
    case False => FALSE_TEXT
    case True => TRUE_TEXT
    case Number(n) => IntText(IntOf(n))
    case String(s) => StringText(s)
    case Array(items) => [OPEN_BRACKET] + ItemsText(items, depth + 1, fmt) + [CLOSE_BRACKET]
    case Object(members) =>
      if members == [] then
        [OPEN_BRACE] + (if fmt then [NEWLINE] + Tabs(depth - 1) else []) + [CLOSE_BRACE]
      else
        [OPEN_BRACE] + (if fmt then [NEWLINE] else []) + MembersText(members, depth + 1, fmt)
        + (if fmt then Tabs(depth) else []) + [CLOSE_BRACE]
  }

  function ItemsText(items: seq<Value>, depth: nat, fmt: bool): Text
    decreases items, 1
  {
    if items == [] then []
    else ValueText(items[0], depth, fmt)
         + (if |items| == 1 then [] else (if fmt then [COMMA, 0x20] else [COMMA]) + ItemsText(items[1..], depth, fmt))
  }

  function MemberText(m: Member, depth: nat, fmt: bool, last: bool): Text
    decreases m, 1
  {
    (if fmt then Tabs(depth) else []) + StringText(m.name) + (if fmt then [COLON, TAB] else [COLON])
    + ValueText(m.value, depth, fmt) + (if last then [] else [COMMA]) + (if fmt then [NEWLINE] else [])
  }

  function MembersText(members: seq<Member>, depth: nat, fmt: bool): Text
    decreases members, 2
  {
    if members == [] then []
    else MemberText(members[0], depth, fmt, |members| == 1) + MembersText(members[1..], depth, fmt)
  }
}
