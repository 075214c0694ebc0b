/**
 * The parser of cJSON.c as it runs: loops over a pointer into the text, a string buffer sized by a
 * first scan. A pointer is what is left of the text from there; the text ends in the only NUL.
 */
module JsonRead {
  import opened Bytes
  import opened CWords
  import opened Json
  import opened JsonParse

  method SkipBlanks(s: Text) returns (r: Text)
    requires NulFree(s)
    ensures r == Skip(s) && NulFree(r)
  {
    r := s;
    while At(r, 0) != 0 && At(r, 0) <= 32
      invariant NulFree(r) && Skip(r) == Skip(s)
      decreases |r|
    {
      r := r[1..];
    }
  }

  // ---------------------------------------------------------------- numbers

  method ReadDigits(s: Text, n0: nat) returns (n: nat, r: Text)
    ensures (n, r) == Digits(s, n0)
  {
    n, r := n0, s;
    while IsDigit(At(r, 0))
      invariant Digits(r, n) == Digits(s, n0)
      decreases |r|
    {
      n, r := 10 * n + (r[0] - 0x30), r[1..];
    }
  }

  lemma {:induction false} DigitsNulFree(s: Text, n: nat)
    requires NulFree(s)
    ensures NulFree(Digits(s, n).1)
    decreases |s|
  {
    if s != [] && IsDigit(s[0]) {
      DigitsNulFree(s[1..], 10 * n + (s[0] - 0x30));
    }
  }

  /** The text after a number holds no NUL if the text before it holds none. */
  lemma NumberNulFree(s: Text)
    requires NulFree(s)
    ensures NulFree(ParseNumber(s).1)
  {
    hide Digits;
    forall t: Text, n: nat | NulFree(t) ensures NulFree(Digits(t, n).1) {
      DigitsNulFree(t, n);
    }
  }

  /** parse_number. */
  method ReadNumber(s: Text) returns (n: real, r: Text)
    ensures (n, r) == ParseNumber(s)
  {
    hide Digits, Scaled, ParseExponent;
    var neg, scale, m := false, 0, 0;
    r := s;
    if At(r, 0) == MINUS {
      neg, r := true, r[1..];
    }
    if At(r, 0) == 0x30 {
      r := r[1..];
    }
    if 0x31 <= At(r, 0) <= 0x39 {
      m, r := ReadDigits(r, 0);
    }
    if At(r, 0) == 0x2e && IsDigit(At(r, 1)) {
      var before := r[1..];
      m, r := ReadDigits(before, m);
      scale := |r| - |before|;
    }
    var e := 0;
    if At(r, 0) == 0x65 || At(r, 0) == 0x45 {
      e, r := ReadExponent(r[1..]);
    }
    n := Scaled(neg, m, scale + e);
  }

  /** The part of parse_number behind an exponent's letter. */
  method ReadExponent(s: Text) returns (e: int, r: Text)
    ensures (e, r) == ParseExponent(s)
  {
    hide Digits;
    var negScale := false;
    r := s;
    if At(r, 0) == 0x2b {
      r := r[1..];
    } else if At(r, 0) == MINUS {
      negScale, r := true, r[1..];
    }
    var subscale;
    subscale, r := ReadDigits(r, 0);
    var size: int := subscale;
    e := if negScale then -size else size;
  }

  // ---------------------------------------------------------------- strings

  /** The first scan: it ends at the quote, at the end of the text, or where the count comes round to 0. */
  method ScanString(s: Text) returns (len: int)
    requires NulFree(s) && ScanEnds(s)
    ensures len == ScanCount(ScanLength(s))
  {
    var p := s;
    ghost var n: nat := 0;
    len := 0;
    while At(p, 0) != QUOTE && At(p, 0) != 0
      invariant NulFree(p) && ScanEnds(p) && n + ScanLength(p) == ScanLength(s) && n < 2 * TWO31 && len == Int32(n)
      decreases |p|
    {
      len, n := Int32(len + 1), n + 1;
      if len == 0 {
        return;
      }
      p := if p[0] == BACKSLASH then p[2..] else p[1..];
    }
  }

  lemma Sixes(uc: nat)
    ensures uc / 64 / 64 == uc / 4096 && uc / 64 / 64 / 64 == uc / 262144
  {}

  /** A code point as UTF-8, its last byte first. */
  method PutUtf8(out: array<Byte>, q0: nat, code: nat) returns (q: nat)
    requires 0 < code < 0x11_0000 && q0 + |Utf8(code)| <= out.Length
    modifies out
    ensures q == q0 + |Utf8(code)| && out[..q] == old(out[..q0]) + Utf8(code)
  {
    Sixes(code);
    var uc := code;
    var len := if uc < 0x80 then 1 else if uc < 0x800 then 2 else if uc < 0x1_0000 then 3 else 4;
    q := q0 + len;
    if len == 4 {
      out[q0 + 3] := 0x80 + uc % 64;
      uc := uc / 64;
    }
    if len >= 3 {
      out[q0 + 2] := 0x80 + uc % 64;
      uc := uc / 64;
    }
    if len >= 2 {
      out[q0 + 1] := 0x80 + uc % 64;
      uc := uc / 64;
    }
    out[q0] := (if len == 1 then 0 else if len == 2 then 0xc0 else if len == 3 then 0xe0 else 0xf0) + uc;
    assert out[q0..q] == Utf8(code);
    assert out[..q] == out[..q0] + out[q0..q];
  }

  /** The escape after a backslash. */
  method ReadEscape(out: array<Byte>, q0: nat, s: Text) returns (q: nat, r: Text)
    requires Unescape(s).Got? && q0 + |Unescape(s).value| <= out.Length
    modifies out
    ensures q == q0 + |Unescape(s).value| && out[..q] == old(out[..q0]) + Unescape(s).value && r == Unescape(s).rest
  {
    q, r := q0, s[1..];
    if s[0] == 0x62 {
      q := PutByte(out, q, 8);
    } else if s[0] == 0x66 {
      q := PutByte(out, q, 12);
    } else if s[0] == 0x6e {
      q := PutByte(out, q, 10);
    } else if s[0] == 0x72 {
      q := PutByte(out, q, 13);
    } else if s[0] == 0x74 {
      q := PutByte(out, q, 9);
    } else if s[0] != 0x75 {
      q := PutByte(out, q, s[0]);
    } else {
      q, r := ReadUnicode(out, q0, s);
    }
  }

  method PutByte(out: array<Byte>, q0: nat, c: Byte) returns (q: nat)
    requires q0 < out.Length
    modifies out
    ensures q == q0 + 1 && out[..q] == old(out[..q0]) + [c]
  {
    out[q0] := c;
    q := q0 + 1;
  }

  method ReadUnicode(out: array<Byte>, q0: nat, s: Text) returns (q: nat, r: Text)
    requires s != [] && s[0] == 0x75 && Unescape(s).Got? && q0 + |Unescape(s).value| <= out.Length
    modifies out
    ensures q == q0 + |Unescape(s).value| && out[..q] == old(out[..q0]) + Unescape(s).value && r == Unescape(s).rest
  {
    var uc := Hex4(s[1], s[2], s[3], s[4]);
    q, r := q0, s[5..];
    var valid := !(0xdc00 <= uc <= 0xdfff || uc == 0);
    if valid && 0xd800 <= uc <= 0xdbff {
      if At(s, 5) != BACKSLASH || At(s, 6) != 0x75 {
        valid := false;
      } else {
        var uc2 := Hex4(s[7], s[8], s[9], s[10]);
        r := s[11..];
        if uc2 < 0xdc00 || uc2 > 0xdfff {
          valid := false;
        } else {
          uc := 0x1_0000 + (uc % 1024) * 1024 + uc2 % 1024;
        }
      }
    }
    if valid {
      q := PutUtf8(out, q0, uc);
    }
  }

  /** The bytes the next turn of the copying loop writes, and where it leaves the pointer. */
  ghost function Turn(s: Text): Parsed<Text>
    requires s != []
  {
    if s[0] == BACKSLASH then Unescape(s[1..]) else Got([s[0]], s[1..])
  }

  lemma CharsStep(s: Text)
    requires s != [] && s[0] != QUOTE && Chars(s).Got?
    ensures Turn(s).Got? && Chars(Turn(s).rest).Got?
    ensures Chars(s) == Got(Turn(s).value + Chars(Turn(s).rest).value, Chars(Turn(s).rest).rest)
    ensures |Turn(s).rest| < |s| && (NulFree(s) ==> NulFree(Turn(s).rest))
  {
    if s[0] == BACKSLASH {
      UnescapeRest(s[1..]);
    }
    hide Unescape;
  }

  lemma UnescapeRest(s: Text)
    ensures Unescape(s).Got? && NulFree(s) ==> NulFree(Unescape(s).rest)
  {
    hide Hex4, Utf8;
  }

  lemma Onward(front: Text, turn: Text, others: Text)
    ensures front + (turn + others) == (front + turn) + others
  {}

  /** One turn of the copying loop. */
  method CopyTurn(out: array<Byte>, q0: nat, s: Text) returns (q: nat, p: Text)
    requires s != [] && s[0] != QUOTE && Turn(s).Got? && q0 + |Turn(s).value| <= out.Length
    modifies out
    ensures q == q0 + |Turn(s).value| && p == Turn(s).rest && out[..q] == old(out[..q0]) + Turn(s).value
  {
    hide Unescape;
    if s[0] != BACKSLASH {
      q := PutByte(out, q0, s[0]);
      p := s[1..];
    } else {
      q, p := ReadEscape(out, q0, s[1..]);
    }
  }

  /** The copying loop of parse_string. */
  method CopyString(out: array<Byte>, s: Text) returns (q: nat, p: Text)
    requires NulFree(s) && Chars(s).Got? && |Chars(s).value| < out.Length
    modifies out
    ensures NulFree(p) && q < out.Length && (At(p, 0) == QUOTE || p == [])
    ensures Chars(s) == Got(out[..q], if p == [] then [] else p[1..])
  {
    q, p := 0, s;
    assert out[..0] + Chars(s).value == Chars(s).value;
    while At(p, 0) != QUOTE && At(p, 0) != 0
      invariant NulFree(p) && Chars(p).Got? && q + |Chars(p).value| < out.Length
      invariant Chars(s) == Got(out[..q] + Chars(p).value, Chars(p).rest)
      decreases |p|
    {
      hide Chars, Turn;
      CharsStep(p);
      Onward(out[..q], Turn(p).value, Chars(Turn(p).rest).value);
      q, p := CopyTurn(out, q, p);
    }
    assert out[..q] + [] == out[..q];
  }

  /** parse_string: nothing it writes falls outside the buffer it allocated. */
  method ReadString(s: Text) returns (r: Parsed<Text>)
    requires NulFree(s) && !ParseString(s).Undefined?
    ensures r == ParseString(s) && (r.Got? ==> NulFree(r.rest))
  {
    if At(s, 0) != QUOTE {
      return Refused;
    }
    ScanEnough(s[1..]);
    hide Chars, ScanEnds, ScanLength;
    var len := ScanString(s[1..]);
    var size := Int32(len + 1);
    if size < 0 {
      return Refused;
    }
    var out := new Byte[size];
    var q, p := CopyString(out, s[1..]);
    out[q] := 0;
    r := Got(out[..q], if At(p, 0) == QUOTE then p[1..] else p);
  }

  // ---------------------------------------------------------------- values

  /** What has been read, in front of what is read from here on. */
  ghost function Prepend<T>(front: seq<T>, r: Parsed<seq<T>>): Parsed<seq<T>> {
    match r case Got(v, rest) => Got(front + v, rest) case other => other
  }

  lemma PrependNone<T>(r: Parsed<seq<T>>)
    ensures Prepend([], r) == r
  {
    if r.Got? {
      assert [] + r.value == r.value;
    }
  }

  lemma PrependTwice<T>(a: seq<T>, b: seq<T>, r: Parsed<seq<T>>)
    ensures Prepend(a, Prepend(b, r)) == Prepend(a + b, r)
  {
    if r.Got? {
      assert a + (b + r.value) == a + b + r.value;
    }
  }

  /** parse_value. */
  method ReadValue(s: Text) returns (r: Parsed<Value>)
    requires NulFree(s) && !ParseValue(s).Undefined?
    ensures r == ParseValue(s) && (r.Got? ==> NulFree(r.rest))
    decreases |s|, 1
  {
    if NULL_TEXT <= s {
      r := Got(Null, s[4..]);
    } else if FALSE_TEXT <= s {
      r := Got(False, s[5..]);
    } else if TRUE_TEXT <= s {
      r := Got(True, s[4..]);
    } else if At(s, 0) == QUOTE {
      var t := ReadString(s);
      r := if t.Got? then Got(String(t.value), t.rest) else Refused;
    } else if At(s, 0) == MINUS || IsDigit(At(s, 0)) {
      var n, rest := ReadNumber(s);
      NumberNulFree(s);
      r := Got(Number(n), rest);
    } else if At(s, 0) == OPEN_BRACKET {
      r := ReadArray(s);
    } else if At(s, 0) == OPEN_BRACE {
      r := ReadObject(s);
    } else {
      r := Refused;
    }
  }

  // ---------------------------------------------------------------- arrays

  /** What the loop of parse_array makes of the text after an item. */
  ghost function AfterItem(p: Text): Parsed<seq<Value>> {
    if At(p, 0) == CLOSE_BRACKET then Got([], p[1..]) else if At(p, 0) != COMMA then Refused else ParseItems(p[1..])
  }

  lemma ItemsFrom(s: Text)
    ensures ParseValue(Skip(s)).Undefined? ==> ParseItems(s).Undefined?
    ensures ParseValue(Skip(s)).Refused? ==> ParseItems(s) == Refused
    ensures ParseValue(Skip(s)).Got? ==>
            ParseItems(s)
            == Prepend([ParseValue(Skip(s)).value], AfterItem(Skip(ParseValue(Skip(s)).rest)))
  {
    hide ParseValue, Skip;
    if ParseValue(Skip(s)).Got? {
      assert [ParseValue(Skip(s)).value] + [] == [ParseValue(Skip(s)).value];
    }
  }

  lemma ArrayFrom(s: Text)
    requires At(s, 0) == OPEN_BRACKET
    ensures ParseValue(s) == if At(Skip(s[1..]), 0) == CLOSE_BRACKET then Got(Array([]), Skip(s[1..])[1..])
                             else match ParseItems(Skip(s[1..])) case Got(items, rest) => Got(Array(items), rest)
                                                                 case Refused => Refused case Undefined => Undefined
  {
    hide Skip, ParseItems;
  }

  /** parse_array. */
  method ReadArray(s: Text) returns (r: Parsed<Value>)
    requires NulFree(s) && At(s, 0) == OPEN_BRACKET && !ParseValue(s).Undefined?
    ensures r == ParseValue(s) && (r.Got? ==> NulFree(r.rest))
    decreases |s|, 0
  {
    hide ParseValue, ParseItems, Skip;
    ArrayFrom(s);
    var start := SkipBlanks(s[1..]);
    if At(start, 0) == CLOSE_BRACKET {
      return Got(Array([]), start[1..]);
    }
    PrependNone(ParseItems(start));
    var items: seq<Value>, p := [], start;
    var more := true;
    while more
      invariant NulFree(p) && |p| < |s|
      invariant ParseItems(start) == Prepend(items, if more then ParseItems(p) else AfterItem(p))
      invariant !more ==> At(p, 0) != COMMA
      decreases |p|, more
    {
      ItemsFrom(p);
      var first := SkipBlanks(p);
      var v := ReadValue(first);
      if !v.Got? {
        return Refused;
      }
      p := SkipBlanks(v.rest);
      PrependTwice(items, [v.value], AfterItem(p));
      items := items + [v.value];
      more := At(p, 0) == COMMA;
      if more {
        p := p[1..];
      }
    }
    if At(p, 0) == CLOSE_BRACKET {
      assert items + [] == items;
      r := Got(Array(items), p[1..]);
    } else {
      r := Refused;
    }
  }

  // ---------------------------------------------------------------- objects

  ghost function AfterMember(p: Text): Parsed<seq<Member>> {
    if At(p, 0) == CLOSE_BRACE then Got([], p[1..]) else if At(p, 0) != COMMA then Refused else ParseMembers(p[1..])
  }

  lemma MembersFrom(s: Text)
    ensures ParseMember(s).Undefined? ==> ParseMembers(s).Undefined?
    ensures ParseMember(s).Refused? ==> ParseMembers(s) == Refused
    ensures ParseMember(s).Got? ==>
            ParseMembers(s)
            == Prepend([ParseMember(s).value], AfterMember(Skip(ParseMember(s).rest)))
  {
    hide ParseMember, Skip;
    if ParseMember(s).Got? {
      assert [ParseMember(s).value] + [] == [ParseMember(s).value];
    }
  }

  lemma ObjectFrom(s: Text)
    requires At(s, 0) == OPEN_BRACE
    ensures ParseValue(s) == if At(Skip(s[1..]), 0) == CLOSE_BRACE then Got(Object([]), Skip(s[1..])[1..])
                             else match ParseMembers(Skip(s[1..])) case Got(ms, rest) => Got(Object(ms), rest)
                                                                   case Refused => Refused case Undefined => Undefined
  {
    hide Skip, ParseMembers;
  }

  /** One member of parse_object: its name, the colon, its value. */
  method ReadMember(s: Text) returns (r: Parsed<Member>)
    requires NulFree(s) && !ParseMember(s).Undefined?
    ensures r == ParseMember(s) && (r.Got? ==> NulFree(r.rest))
    decreases |s|, 2
  {
    hide ParseString, ParseValue, Skip;
    var p := SkipBlanks(s);
    var name := ReadString(p);
    if !name.Got? {
      return Refused;
    }
    p := SkipBlanks(name.rest);
    if At(p, 0) != COLON {
      return Refused;
    }
    p := SkipBlanks(p[1..]);
    var v := ReadValue(p);
    r := if v.Got? then Got(Member(name.value, v.value), v.rest) else Refused;
  }

  /** parse_object. */
  method ReadObject(s: Text) returns (r: Parsed<Value>)
    requires NulFree(s) && At(s, 0) == OPEN_BRACE && !ParseValue(s).Undefined?
    ensures r == ParseValue(s) && (r.Got? ==> NulFree(r.rest))
    decreases |s|, 0
  {
    hide ParseValue, ParseMembers, ParseMember, Skip;
    ObjectFrom(s);
    var start := SkipBlanks(s[1..]);
    if At(start, 0) == CLOSE_BRACE {
      return Got(Object([]), start[1..]);
    }
    PrependNone(ParseMembers(start));
    var members: seq<Member>, p := [], start;
    var more := true;
    while more
      invariant NulFree(p) && |p| < |s|
      invariant ParseMembers(start) == Prepend(members, if more then ParseMembers(p) else AfterMember(p))
      invariant !more ==> At(p, 0) != COMMA
      decreases |p|, more
    {
      MembersFrom(p);
      var m := ReadMember(p);
      if !m.Got? {
        return Refused;
      }
      p := SkipBlanks(m.rest);
      PrependTwice(members, [m.value], AfterMember(p));
      members := members + [m.value];
      more := At(p, 0) == COMMA;
      if more {
        p := p[1..];
      }
    }
    if At(p, 0) == CLOSE_BRACE {
      assert members + [] == members;
      r := Got(Object(members), p[1..]);
    } else {
      r := Refused;
    }
  }

  /** cJSON_Parse. */
  method Parse(s: Text) returns (r: Parsed<Value>)
    requires NulFree(s) && !ParseValue(Skip(s)).Undefined?
    ensures r == ParseValue(Skip(s))
  {
    var p := SkipBlanks(s);
    r := ReadValue(p);
  }
}
