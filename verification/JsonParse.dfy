/** The parser of cJSON.c, specified on text: a position in the text is what is left of it from there. */
module JsonParse {
  import opened Bytes
  import opened CWords
  import opened Json

  /** A value and the text after it, a refusal, or input on which the C code reads or writes outside
      its buffers: an escape cut short by the end of the text or by a quote. */
  datatype Parsed<T> = Got(value: T, rest: Text) | Refused | Undefined

  /** The byte at the front, or the terminating NUL. */
  function At(s: Text, i: nat): Byte { if i < |s| then s[i] else 0 }

  /** skip: past whitespace. */
  function Skip(s: Text): (r: Text)
    ensures |r| <= |s|
  {
    if s != [] && 0 < s[0] <= 32 then Skip(s[1..]) else s
  }

  /** It passes blanks and other control characters, up to the first byte that is neither, or to the end. */
  lemma {:induction false} SkipStops(s: Text) returns (k: nat)
    ensures k <= |s| && Skip(s) == s[k..] && (k < |s| ==> s[k] == 0 || s[k] > ' ' as int)
    ensures forall i :: 0 <= i < k ==> 0 < s[i] <= ' ' as int
  {
    k := 0;
    if s != [] && 0 < s[0] <= 32 {
      var j := SkipStops(s[1..]);
      k := j + 1;
      assert s[1..][j..] == s[k..];
      forall i | 0 <= i < k ensures 0 < s[i] <= ' ' as int {
        assert i > 0 ==> s[i] == s[1..][i - 1];
      }
    }
  }

  predicate IsDigit(c: Byte) { 0x30 <= c <= 0x39 }

  // ---------------------------------------------------------------- numbers

  /** The digits in front, taken into a number, and how many there are. */
  function Digits(s: Text, n: nat): (r: (nat, Text))
    ensures |r.1| <= |s|
    decreases |s|
  {
    if s != [] && IsDigit(s[0]) then Digits(s[1..], 10 * n + (s[0] - 0x30)) else (n, s)
  }

  function Pow10(e: int): real
    decreases if e < 0 then -e else e
  {
    if e == 0 then 1.0 else if e > 0 then 10.0 * Pow10(e - 1) else Pow10(e + 1) / 10.0
  }

  function Scaled(neg: bool, m: nat, e: int): real {
    (if neg then -1.0 else 1.0) * (m as real) * Pow10(e)
  }

  /** parse_number, over exact numbers instead of doubles. */
  function ParseNumber(s: Text): (r: (real, Text))
    ensures |r.1| <= |s|
    ensures s != [] && (s[0] == MINUS || IsDigit(s[0])) ==> |r.1| < |s|
  {
    var neg := At(s, 0) == MINUS;
    var s1 := if neg then s[1..] else s;
    var s2 := if At(s1, 0) == 0x30 then s1[1..] else s1;
    var (n, s3) := if IsDigit(At(s2, 0)) && At(s2, 0) != 0x30 then Digits(s2, 0) else (0, s2);
    var (m, s4) := if At(s3, 0) == 0x2e && IsDigit(At(s3, 1)) then Digits(s3[1..], n) else (n, s3);
    var scale := if At(s3, 0) == 0x2e && IsDigit(At(s3, 1)) then -(|s3| - 1 - |s4|) else 0;
    var (e, s5) := if At(s4, 0) == 0x65 || At(s4, 0) == 0x45 then ParseExponent(s4[1..]) else (0, s4);
    (Scaled(neg, m, scale + e), s5)
  }

  function ParseExponent(s: Text): (r: (int, Text))
    ensures |r.1| <= |s|
  {
    var neg := At(s, 0) == MINUS;
    var (n, rest) := Digits(if At(s, 0) == 0x2b || neg then s[1..] else s, 0);
    var e: int := n;
    (if neg then -e else e, rest)
  }

  // ---------------------------------------------------------------- strings

  /** parse_hex4: 0 unless all four are hexadecimal digits. */
  function Hex4(a: Byte, b: Byte, c: Byte, d: Byte): (n: nat)
    ensures n < 65536
  {
    if HexOf(a) < 0 || HexOf(b) < 0 || HexOf(c) < 0 || HexOf(d) < 0 then 0
    else HexOf(a) * 4096 + HexOf(b) * 256 + HexOf(c) * 16 + HexOf(d)
  }

  function Utf8(uc: nat): (s: Text)
    requires uc < 0x11_0000
    ensures 1 <= |s| <= 4 && (uc < 0x1_0000 ==> |s| <= 3)
  {
    if uc < 0x80 then [uc]
    else if uc < 0x800 then [0xc0 + uc / 64, 0x80 + uc % 64]
    else if uc < 0x1_0000 then [0xe0 + uc / 4096, 0x80 + uc / 64 % 64, 0x80 + uc % 64]
    else [0xf0 + uc / 262144, 0x80 + uc / 4096 % 64, 0x80 + uc / 64 % 64, 0x80 + uc % 64]
  }

  /** Four bytes at `i` that the scan for the closing quote passes one at a time. */
  predicate FourAt(s: Text, i: nat) {
    i + 4 <= |s| && forall k :: i <= k < i + 4 ==> s[k] != QUOTE && s[k] != BACKSLASH
  }

  /** What an escape after its backslash stands for, and how long it is. */
  function Unescape(s: Text): (r: Parsed<Text>)
    ensures r.Got? ==> |r.rest| < |s|
  {
    if s == [] then Undefined
    else if s[0] == 0x62 then Got([8], s[1..])
    else if s[0] == 0x66 then Got([12], s[1..])
    else if s[0] == 0x6e then Got([10], s[1..])
    else if s[0] == 0x72 then Got([13], s[1..])
    else if s[0] == 0x74 then Got([9], s[1..])
    else if s[0] != 0x75 then Got([s[0]], s[1..])
    else if !FourAt(s, 1) then Undefined
    else
      var uc := Hex4(s[1], s[2], s[3], s[4]);
      if 0xdc00 <= uc <= 0xdfff || uc == 0 then Got([], s[5..])
      else if !(0xd800 <= uc <= 0xdbff) then Got(Utf8(uc), s[5..])
      else if At(s, 5) != BACKSLASH || At(s, 6) != 0x75 then Got([], s[5..])
      else if !FourAt(s, 7) then Undefined
      else
        var uc2 := Hex4(s[7], s[8], s[9], s[10]);
        if 0xdc00 <= uc2 <= 0xdfff then Got(Utf8(0x1_0000 + (uc % 1024) * 1024 + uc2 % 1024), s[11..])
        else Got([], s[11..])
  }

  /** The bytes of a string up to its closing quote, or to the end of the text. */
  function Chars(s: Text): (r: Parsed<Text>)
    ensures r.Got? ==> |r.rest| <= |s|
    decreases |s|
  {
    if s == [] then Got([], [])
    else if s[0] == QUOTE then Got([], s[1..])
    else
      var head := if s[0] == BACKSLASH then Unescape(s[1..]) else Got([s[0]], s[1..]);
      match head
      case Got(c, rest) => (match Chars(rest) case Got(cs, q) => Got(c + cs, q) case other => other)
      case other => other
  }

  /** The first scan of parse_string stays inside the text. */
  predicate ScanEnds(s: Text) {
    s == [] || s[0] == QUOTE
    || if s[0] == BACKSLASH then |s| > 1 && ScanEnds(s[2..]) else ScanEnds(s[1..])
  }

  /** What that scan passes: each byte or escaped byte is one. */
  function ScanLength(s: Text): (n: nat)
    requires ScanEnds(s)
  {
    if s == [] || s[0] == QUOTE then 0
    else if s[0] == BACKSLASH then 1 + ScanLength(s[2..]) else 1 + ScanLength(s[1..])
  }

  /** Its count is an int, and the scan stops where that comes round to 0. */
  function ScanCount(n: nat): int { if n < 2 * TWO31 then Int32(n) else 0 }

  /** What parse_string allocates, again an int: for a negative size there is no memory. */
  function ScanSize(n: nat): int { Int32(ScanCount(n) + 1) }

  /** parse_string behind the opening quote. It is undefined where the string, with its NUL, does not fit
      what was allocated. */
  function Sized(s: Text): (r: Parsed<Text>)
    ensures r.Got? ==> |r.rest| <= |s|
  {
    if Chars(s).Undefined? || !ScanEnds(s) then Undefined
    else if ScanSize(ScanLength(s)) < 0 then Refused
    else if Chars(s).Got? && |Chars(s).value| >= ScanSize(ScanLength(s)) then Undefined
    else Chars(s)
  }

  /** parse_string. */
  function ParseString(s: Text): (r: Parsed<Text>)
    ensures r.Got? ==> |r.rest| < |s|
  {
    if s == [] || s[0] != QUOTE then Refused else Sized(s[1..])
  }

  // ---------------------------------------------------------------- when the string is read

  lemma {:induction false} ScanFour(s: Text, k: nat)
    requires |s| >= k && (forall i :: 0 <= i < k ==> s[i] != QUOTE && s[i] != BACKSLASH) && ScanEnds(s[k..])
    ensures ScanEnds(s) && ScanLength(s) == k + ScanLength(s[k..])
  {
    if k > 0 {
      assert s[1..][k - 1..] == s[k..];
      ScanFour(s[1..], k - 1);
    } else {
      assert s[0..] == s;
    }
  }

  /** One escape: the scan passes over it too, and counts at least the bytes it stands for. */
  lemma ScanEscape(s: Text)
    requires Unescape(s).Got? && ScanEnds(Unescape(s).rest)
    ensures ScanEnds([BACKSLASH] + s)
    ensures ScanLength([BACKSLASH] + s) >= |Unescape(s).value| + ScanLength(Unescape(s).rest)
  {
    hide Hex4, Utf8;
    var all, head := [BACKSLASH] + s, Unescape(s);
    assert all[2..] == s[1..];
    if s[0] == 0x75 {
      var uc := Hex4(s[1], s[2], s[3], s[4]);
      assert s[1..][4..] == s[5..];
      if head.rest == s[5..] {
        ScanFour(s[1..], 4);
      } else {
        assert s[7..][4..] == s[11..] && s[5..][2..] == s[7..];
        ScanFour(s[7..], 4);
        ScanFour(s[1..], 4);
      }
    }
  }

  /** The scan passes at least as much as the string it is for is long, wherever that can be read. */
  lemma {:induction false} ScanEnough(s: Text)
    requires !Chars(s).Undefined?
    ensures ScanEnds(s) && Chars(s).Got? && |Chars(s).value| <= ScanLength(s)
    decreases |s|
  {
    if s != [] && s[0] != QUOTE {
      if s[0] == BACKSLASH {
        assert [BACKSLASH] + s[1..] == s;
        ScanEnough(Unescape(s[1..]).rest);
        ScanEscape(s[1..]);
      } else {
        ScanEnough(s[1..]);
      }
    }
  }

  /** A string is read if and only if what its scan passes, and one more, is below 2^31, or the string is
      empty however long its text is. Below 2^32 it is refused for want of memory. */
  lemma SizedIff(s: Text)
    requires Chars(s).Got?
    ensures ScanEnds(s)
    ensures Sized(s) == Chars(s) <==> ScanLength(s) + 1 < TWO31 || (ScanLength(s) >= 2 * TWO31 && Chars(s).value == [])
    ensures Sized(s) == Refused <==> TWO31 <= ScanLength(s) + 1 < 2 * TWO31
  {
    ScanEnough(s);
    hide Chars, ScanLength, ScanEnds;
    ScanSizeIs(ScanLength(s));
    hide ScanSize;
  }

  lemma ScanSizeIs(n: nat)
    ensures n + 1 < TWO31 ==> ScanSize(n) == n + 1
    ensures TWO31 <= n + 1 < 2 * TWO31 ==> ScanSize(n) < 0
    ensures n + 1 >= 2 * TWO31 ==> ScanSize(n) == if n + 1 == 2 * TWO31 then 0 else 1
  {}

  // ---------------------------------------------------------------- values

  /** parse_value. */
  function ParseValue(s: Text): (r: Parsed<Value>)
    ensures r.Got? ==> |r.rest| < |s|
    decreases |s|, 0
  {
    if NULL_TEXT <= s then Got(Null, s[4..])
    else if FALSE_TEXT <= s then Got(False, s[5..])
    else if TRUE_TEXT <= s then Got(True, s[4..])
    else if s == [] then Refused
    else if s[0] == QUOTE then
      match ParseString(s) { case Got(t, rest) => Got(String(t), rest) case Refused => Refused
          case Undefined => Undefined }
    else if s[0] == MINUS || IsDigit(s[0]) then
      var (n, rest) := ParseNumber(s); Got(Number(n), rest)
    else if s[0] == OPEN_BRACKET then
      var s1 := Skip(s[1..]);
      if At(s1, 0) == CLOSE_BRACKET then Got(Array([]), s1[1..])
      else match ParseItems(s1) { case Got(items, rest) => Got(Array(items), rest) case Refused => Refused
          case Undefined => Undefined }
    else if s[0] == OPEN_BRACE then
      var s1 := Skip(s[1..]);
      if At(s1, 0) == CLOSE_BRACE then Got(Object([]), s1[1..])
      else match ParseMembers(s1) { case Got(ms, rest) => Got(Object(ms), rest) case Refused => Refused
          case Undefined => Undefined }
    else Refused
  }

  /** The items of an array from one of them on, through the closing bracket. */
  function ParseItems(s: Text): (r: Parsed<seq<Value>>)
    ensures r.Got? ==> |r.rest| < |s|
    decreases |s|, 1
  {
    match ParseValue(Skip(s))
    case Refused => Refused
    case Undefined => Undefined
    case Got(v, rest) =>
      var s1 := Skip(rest);
      if At(s1, 0) == CLOSE_BRACKET then Got([v], s1[1..])
      else if At(s1, 0) != COMMA then Refused
      else match ParseItems(s1[1..]) { case Got(vs, q) => Got([v] + vs, q) case other => other }
  }

  /** One member of an object: name, colon, value. */
  function ParseMember(s: Text): (r: Parsed<Member>)
    ensures r.Got? ==> |r.rest| < |s|
    decreases |s|, 1
  {
    match ParseString(Skip(s))
    case Refused => Refused
    case Undefined => Undefined
    case Got(name, rest) =>
      var s1 := Skip(rest);
      if At(s1, 0) != COLON then Refused
      else
        match ParseValue(Skip(s1[1..]))
        case Got(v, q) => Got(Member(name, v), q)
        case Refused => Refused
        case Undefined => Undefined
  }

  /** The members of an object from one of them on, through the closing brace. */
  function ParseMembers(s: Text): (r: Parsed<seq<Member>>)
    ensures r.Got? ==> |r.rest| < |s|
    decreases |s|, 2
  {
    match ParseMember(s)
    case Refused => Refused
    case Undefined => Undefined
    case Got(m, rest) =>
      var s1 := Skip(rest);
      if At(s1, 0) == CLOSE_BRACE then Got([m], s1[1..])
      else if At(s1, 0) != COMMA then Refused
      else match ParseMembers(s1[1..]) { case Got(ms, q) => Got([m] + ms, q) case other => other }
  }
}
