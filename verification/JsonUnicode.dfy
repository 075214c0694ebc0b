/** The escapes of JSON strings (section 7 of RFC 8259) and the UTF-8 they are read as (section 3 of RFC 3629). */
module JsonUnicode {
  import opened Bytes
  import opened Json
  import opened JsonParse

  // ---------------------------------------------------------------- UTF-8

  /** The length that a first byte announces, or 0. */
  function LeadLength(lead: Byte): nat {
    if lead < 128 then 1
    else if 192 <= lead < 224 then 2
    else if 224 <= lead < 240 then 3
    else if 240 <= lead < 248 then 4
    else 0
  }

  /** What the first byte carries of the code point, and then each of the others six bits. */
  function LeadBits(lead: Byte): nat {
    if lead < 128 then lead else if lead < 224 then lead % 32 else if lead < 240 then lead % 16 else lead % 8
  }

  function CodePoint(s: Text): nat {
    if s == [] then 0 else if |s| == 1 then LeadBits(s[0]) else CodePoint(s[..|s| - 1]) * 64 + s[|s| - 1] % 64
  }

  /** The least code point that takes so many bytes. */
  function Least(length: nat): nat {
    if length <= 1 then 0 else if length == 2 then 128 else if length == 3 then 2048 else 65536
  }

  /** These bytes, and no fewer, stand for the code point. */
  ghost predicate StandsFor(s: Text, uc: nat) {
    && s != [] && |s| == LeadLength(s[0]) && (forall i :: 1 <= i < |s| ==> 128 <= s[i] < 192)
    && CodePoint(s) == uc && uc >= Least(|s|)
  }

  lemma CodePointOne(s: Text)
    requires |s| == 1
    ensures CodePoint(s) == LeadBits(s[0])
  {}

  lemma CodePointNext(s: Text, b: Byte)
    requires s != []
    ensures CodePoint(s + [b]) == CodePoint(s) * 64 + b % 64
  {
    assert (s + [b])[..|s|] == s;
  }

  lemma CodePoints(a: Byte, b: Byte, c: Byte, d: Byte)
    ensures CodePoint([a]) == LeadBits(a) && CodePoint([a, b]) == LeadBits(a) * 64 + b % 64
    ensures CodePoint([a, b, c]) == (LeadBits(a) * 64 + b % 64) * 64 + c % 64
    ensures CodePoint([a, b, c, d]) == ((LeadBits(a) * 64 + b % 64) * 64 + c % 64) * 64 + d % 64
  {
    CodePointOne([a]);
    hide CodePoint, LeadBits;
    CodePointNext([a], b);
    assert [a] + [b] == [a, b];
    CodePointNext([a, b], c);
    assert [a, b] + [c] == [a, b, c];
    CodePointNext([a, b, c], d);
    assert [a, b, c] + [d] == [a, b, c, d];
  }

  lemma Six(q: nat, r: nat)
    requires r < 64
    ensures (q * 64 + r) / 64 == q && (q * 64 + r) % 64 == r
  {}

  lemma Sixes(uc: nat)
    ensures uc / 64 / 64 == uc / 4096 && uc / 64 / 64 / 64 == uc / 262144
  {}

  /** A byte that carries six bits, and the first bytes. */
  lemma Carried(x: nat)
    ensures x < 64 ==> (0x80 + x) % 64 == x
    ensures x < 32 ==> LeadBits(0xc0 + x) == x
    ensures x < 16 ==> LeadBits(0xe0 + x) == x
    ensures x < 8 ==> LeadBits(0xf0 + x) == x
  {}

  /** The encoding stands for its code point. */
  lemma Utf8Stands(uc: nat)
    requires uc < 0x11_0000
    ensures StandsFor(Utf8(uc), uc)
  {
    var q1, q2, q3 := uc / 64, uc / 4096, uc / 262144;
    Sixes(uc);
    assert uc == q1 * 64 + uc % 64 && q1 == q2 * 64 + q1 % 64 && q2 == q3 * 64 + q2 % 64;
    hide CodePoint, StandsFor, LeadBits;
    if uc < 0x80 {
      OneStands(uc);
    } else if uc < 0x800 {
      TwoStand(q1, uc % 64);
    } else if uc < 0x1_0000 {
      ThreeStand(q2, q1 % 64, uc % 64);
    } else {
      FourStand(q3, q2 % 64, q1 % 64, uc % 64);
    }
  }

  lemma OneStands(a: nat)
    requires a < 128
    ensures StandsFor([a], a)
  {
    CodePoints(a, 0, 0, 0);
  }

  lemma TwoStand(a: nat, b: nat)
    requires 2 <= a < 32 && b < 64
    ensures StandsFor([0xc0 + a, 0x80 + b], a * 64 + b)
  {
    CodePoints(0xc0 + a, 0x80 + b, 0, 0);
    Carried(a);
    Carried(b);
    hide CodePoint, LeadBits;
  }

  lemma ThreeStand(a: nat, b: nat, c: nat)
    requires a < 16 && b < 64 && c < 64 && (a * 64 + b) * 64 + c >= 2048
    ensures StandsFor([0xe0 + a, 0x80 + b, 0x80 + c], (a * 64 + b) * 64 + c)
  {
    CodePoints(0xe0 + a, 0x80 + b, 0x80 + c, 0);
    Carried(a);
    Carried(b);
    Carried(c);
    hide CodePoint, LeadBits;
  }

  lemma FourStand(a: nat, b: nat, c: nat, d: nat)
    requires a < 8 && b < 64 && c < 64 && d < 64 && ((a * 64 + b) * 64 + c) * 64 + d >= 65536
    ensures StandsFor([0xf0 + a, 0x80 + b, 0x80 + c, 0x80 + d], ((a * 64 + b) * 64 + c) * 64 + d)
  {
    CodePoints(0xf0 + a, 0x80 + b, 0x80 + c, 0x80 + d);
    Carried(a);
    Carried(b);
    Carried(c);
    Carried(d);
    hide CodePoint, LeadBits;
  }

  lemma TwoIs(a: Byte, b: Byte)
    requires StandsFor([a, b], CodePoint([a, b]))
    ensures CodePoint([a, b]) < 0x800 && Utf8(CodePoint([a, b])) == [a, b]
  {
    CodePoints(a, b, 0, 0);
    assert [a, b][1] == b;
    Carried(a - 192);
    Carried(b - 128);
    Six(a - 192, b - 128);
    hide CodePoint, LeadBits;
  }

  lemma ThreeIs(a: Byte, b: Byte, c: Byte)
    requires StandsFor([a, b, c], CodePoint([a, b, c]))
    ensures CodePoint([a, b, c]) < 0x1_0000 && Utf8(CodePoint([a, b, c])) == [a, b, c]
  {
    CodePoints(a, b, c, 0);
    assert [a, b, c][1] == b && [a, b, c][2] == c;
    Carried(a - 224);
    Carried(b - 128);
    Carried(c - 128);
    hide CodePoint, LeadBits;
    Sixes(CodePoint([a, b, c]));
    Six(a - 224, b - 128);
    Six((a - 224) * 64 + (b - 128), c - 128);
  }

  lemma FourIs(a: Byte, b: Byte, c: Byte, d: Byte)
    requires StandsFor([a, b, c, d], CodePoint([a, b, c, d])) && CodePoint([a, b, c, d]) < 0x11_0000
    ensures Utf8(CodePoint([a, b, c, d])) == [a, b, c, d]
  {
    FourRanges(a, b, c, d);
    CodePoints(a, b, c, d);
    Carried(a - 240);
    Carried(b - 128);
    Carried(c - 128);
    Carried(d - 128);
    hide CodePoint, LeadBits, StandsFor;
    FourBits(a - 240, b - 128, c - 128, d - 128);
  }

  lemma FourBits(a: nat, b: nat, c: nat, d: nat)
    requires b < 64 && c < 64 && d < 64
    ensures var uc := ((a * 64 + b) * 64 + c) * 64 + d;
            uc / 262144 == a && uc / 4096 % 64 == b && uc / 64 % 64 == c && uc % 64 == d
  {
    Sixes(((a * 64 + b) * 64 + c) * 64 + d);
    Six(a, b);
    Six(a * 64 + b, c);
    Six((a * 64 + b) * 64 + c, d);
  }

  lemma FourRanges(a: Byte, b: Byte, c: Byte, d: Byte)
    requires StandsFor([a, b, c, d], CodePoint([a, b, c, d]))
    ensures 240 <= a < 248 && 128 <= b < 192 && 128 <= c < 192 && 128 <= d < 192 && CodePoint([a, b, c, d]) >= 65536
  {
    hide CodePoint;
    assert [a, b, c, d][1] == b && [a, b, c, d][2] == c && [a, b, c, d][3] == d;
  }

  /** The encoding stands for its code point, and is the only text that does. */
  lemma Utf8Is(uc: nat, s: Text)
    requires uc < 0x11_0000
    ensures s == Utf8(uc) <==> StandsFor(s, uc)
  {
    Utf8Stands(uc);
    if StandsFor(s, uc) {
      if |s| == 1 {
        CodePointOne(s);
        assert s == [s[0]];
      } else if |s| == 2 {
        assert s == [s[0], s[1]];
        TwoIs(s[0], s[1]);
      } else if |s| == 3 {
        assert s == [s[0], s[1], s[2]];
        ThreeIs(s[0], s[1], s[2]);
      } else {
        assert s == [s[0], s[1], s[2], s[3]];
        FourIs(s[0], s[1], s[2], s[3]);
      }
    }
  }

  // ---------------------------------------------------------------- escapes

  function Digit(n: nat, upper: bool): Byte
    requires n < 16
  {
    (if upper then "0123456789ABCDEF"[n] else "0123456789abcdef"[n]) as int
  }

  lemma DigitIs(n: nat, upper: bool)
    requires n < 16
    ensures HexOf(Digit(n, upper)) == n && Digit(n, upper) != QUOTE && Digit(n, upper) != BACKSLASH
  {
    HexOfIs(n);
  }

  /** Four hexadecimal digits, each in either case. */
  function Four(n: nat, upper: seq<bool>): (s: Text)
    requires n < 65536 && |upper| == 4
    ensures |s| == 4
  {
    [Digit(n / 4096, upper[0]), Digit(n / 256 % 16, upper[1]), Digit(n / 16 % 16, upper[2]), Digit(n % 16, upper[3])]
  }

  lemma FourIsHex(n: nat, upper: seq<bool>)
    requires n < 65536 && |upper| == 4
    ensures var s := Four(n, upper); Hex4(s[0], s[1], s[2], s[3]) == n
    ensures forall i :: 0 <= i < 4 ==> Four(n, upper)[i] != QUOTE && Four(n, upper)[i] != BACKSLASH
  {
    DigitIs(n / 4096, upper[0]);
    DigitIs(n / 256 % 16, upper[1]);
    DigitIs(n / 16 % 16, upper[2]);
    DigitIs(n % 16, upper[3]);
    Nibbles(n);
    hide Digit, HexOf;
  }

  lemma Nibbles(n: nat)
    requires n < 65536
    ensures n / 4096 * 4096 + n / 256 % 16 * 256 + n / 16 % 16 * 16 + n % 16 == n
  {
    assert n / 16 / 16 == n / 256 && n / 16 / 16 / 16 == n / 4096;
  }

  predicate Surrogate(uc: nat) { 0xd800 <= uc < 0xe000 }

  /** A \u escape, behind its backslash, reads as the UTF-8 of the code point it names. */
  lemma EscapeReads(uc: nat, upper: seq<bool>, rest: Text)
    requires 0 < uc < 0x1_0000 && !Surrogate(uc) && |upper| == 4
    ensures var r := Unescape(Ascii("u") + Four(uc, upper) + rest);
            r.Got? && r.rest == rest && StandsFor(r.value, uc)
  {
    var s := Ascii("u") + Four(uc, upper) + rest;
    FourIsHex(uc, upper);
    Utf8Is(uc, Utf8(uc));
    hide Four, Hex4, Utf8, StandsFor;
    assert s[0] == 0x75 && s[1..5] == Four(uc, upper) && s[5..] == rest;
    assert s[1] == s[1..5][0] && s[2] == s[1..5][1] && s[3] == s[1..5][2] && s[4] == s[1..5][3];
  }

  /** The two halves of a surrogate pair. */
  function High(uc: nat): (h: nat)
    requires 0x1_0000 <= uc < 0x11_0000
    ensures h < 65536
  {
    0xd800 + (uc - 0x1_0000) / 1024
  }

  function Low(uc: nat): (l: nat)
    requires 0x1_0000 <= uc < 0x11_0000
    ensures l < 65536
  {
    0xdc00 + (uc - 0x1_0000) % 1024
  }

  /** Two escapes, without the first backslash. */
  function PairText(a: Text, b: Text): Text { Ascii("u") + a + Ascii("\\u") + b }

  /** So does a surrogate pair. */
  lemma PairReads(uc: nat, upper1: seq<bool>, upper2: seq<bool>, rest: Text)
    requires 0x1_0000 <= uc < 0x11_0000 && |upper1| == |upper2| == 4
    ensures var r := Unescape(PairText(Four(High(uc), upper1), Four(Low(uc), upper2)) + rest);
            r.Got? && r.rest == rest && StandsFor(r.value, uc)
  {
    hide *;
    var a, b := Four(High(uc), upper1), Four(Low(uc), upper2);
    FourIsHex(High(uc), upper1);
    FourIsHex(Low(uc), upper2);
    PairBits(uc);
    TwoEscapes(a, b, rest, High(uc), Low(uc));
    Utf8Is(uc, Utf8(uc));
  }

  lemma PairBits(uc: nat)
    requires 0x1_0000 <= uc < 0x11_0000
    ensures 0xd800 <= High(uc) < 0xdc00 <= Low(uc) < 0xe000
    ensures 0x1_0000 + (High(uc) % 1024) * 1024 + Low(uc) % 1024 == uc
  {}

  lemma TwoEscapes(a: Text, b: Text, rest: Text, high: nat, low: nat)
    requires |a| == |b| == 4 && Hex4(a[0], a[1], a[2], a[3]) == high && Hex4(b[0], b[1], b[2], b[3]) == low
    requires forall i :: 0 <= i < 4 ==> a[i] != QUOTE && a[i] != BACKSLASH && b[i] != QUOTE && b[i] != BACKSLASH
    requires 0xd800 <= high < 0xdc00 <= low < 0xe000
    ensures Unescape(PairText(a, b) + rest)
            == Got(Utf8(0x1_0000 + (high % 1024) * 1024 + low % 1024), rest)
  {
    TwoPlaces(a, b, rest);
    hide Hex4, Utf8, PairText;
  }

  lemma TwoPlaces(a: Text, b: Text, rest: Text)
    requires |a| == |b| == 4
    ensures var s := PairText(a, b) + rest;
            && |s| == 11 + |rest| && s[0] == 0x75 && s[5] == BACKSLASH && s[6] == 0x75 && s[11..] == rest
            && (forall i :: 1 <= i < 5 ==> s[i] == a[i - 1]) && forall i :: 7 <= i < 11 ==> s[i] == b[i - 7]
  {}

  /** NUL, and half of a surrogate pair that comes last or alone, read as nothing. */
  lemma NothingReads(uc: nat, upper: seq<bool>, rest: Text)
    requires |upper| == 4 && (uc == 0 || 0xdc00 <= uc < 0xe000 || (0xd800 <= uc < 0xdc00 && !(Ascii("\\u") <= rest)))
    ensures Unescape(Ascii("u") + Four(uc, upper) + rest) == Got([], rest)
  {
    var s := Ascii("u") + Four(uc, upper) + rest;
    FourIsHex(uc, upper);
    hide Four, Hex4, Utf8;
    assert s[0] == 0x75 && s[1..5] == Four(uc, upper) && s[5..] == rest;
    assert s[1] == s[1..5][0] && s[2] == s[1..5][1] && s[3] == s[1..5][2] && s[4] == s[1..5][3];
    assert |rest| > 0 ==> s[5] == rest[0];
    assert |rest| > 1 ==> s[6] == rest[1];
  }

  lemma LetterIs(c: Byte, rest: Text)
    ensures Unescape([c] + rest)
            == if c == 0x62 then Got([8], rest) else if c == 0x74 then Got([9], rest)
               else if c == 0x6e then Got([10], rest) else if c == 0x66 then Got([12], rest)
               else if c == 0x72 then Got([13], rest) else if c == 0x75 then Unescape([c] + rest)
               else Got([c], rest)
  {
    assert ([c] + rest)[0] == c && ([c] + rest)[1..] == rest;
    hide Hex4, Utf8, FourAt;
  }

  /** The escapes of one letter, and every other character, which stands for itself. */
  lemma LetterReads(rest: Text)
    ensures Unescape(Ascii("b") + rest) == Got([8], rest) && Unescape(Ascii("t") + rest) == Got([9], rest)
    ensures Unescape(Ascii("n") + rest) == Got([10], rest) && Unescape(Ascii("f") + rest) == Got([12], rest)
    ensures Unescape(Ascii("r") + rest) == Got([13], rest)
    ensures forall c: Byte :: c !in Ascii("btnfru") ==> Unescape([c] + rest) == Got([c], rest)
  {
    assert Ascii("b") == [0x62] && Ascii("t") == [0x74] && Ascii("n") == [0x6e] && Ascii("f") == [0x66]
           && Ascii("r") == [0x72];
    assert Ascii("btnfru") == [0x62, 0x74, 0x6e, 0x66, 0x72, 0x75];
    hide Unescape, Ascii;
    forall c: Byte ensures c !in Ascii("btnfru") ==> Unescape([c] + rest) == Got([c], rest) {
      LetterIs(c, rest);
    }
    LetterIs(0x62, rest);
    LetterIs(0x74, rest);
    LetterIs(0x6e, rest);
    LetterIs(0x66, rest);
    LetterIs(0x72, rest);
  }

  // ---------------------------------------------------------------- what is printed

  /** Every byte of a string, as it is printed: itself, or one of these escapes. */
  lemma EscapeIs(c: Byte)
    ensures Escape(c) ==
            if c == '"' as int then Ascii("\\\"")
            else if c == '\\' as int then Ascii("\\\\")
            else if c == 8 then Ascii("\\b") else if c == 9 then Ascii("\\t") else if c == 10 then Ascii("\\n")
            else if c == 12 then Ascii("\\f") else if c == 13 then Ascii("\\r")
            else if c < 32 then Ascii("\\u") + Four(c, [false, false, false, false])
            else [c]
  {
    if c < 32 && c !in {8, 9, 10, 12, 13} {
      ControlIs(c);
    }
    hide Four;
  }

  lemma ControlIs(c: Byte)
    requires c < 32 && c !in {8, 9, 10, 12, 13}
    ensures Escape(c) == Ascii("\\u") + Four(c, [false, false, false, false])
  {}
}
