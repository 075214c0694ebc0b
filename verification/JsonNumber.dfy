/** What parse_number reads: the decimal number that its text writes (section 6 of RFC 8259), over exact numbers. */
module JsonNumber {
  import opened Bytes
  import opened Json
  import opened JsonParse

  type Numeral = ds: seq<nat> | forall i :: 0 <= i < |ds| ==> ds[i] < 10

  function DigitText(ds: Numeral): (s: Text)
    ensures |s| == |ds|
  {
    seq(|ds|, i requires 0 <= i < |ds| => "0123456789"[ds[i]] as int)
  }

  /** Ten to the power `k`. */
  function Ten(k: nat): (p: real)
    ensures p >= 1.0
  {
    if k == 0 then 1.0 else Ten(k - 1) * 10.0
  }

  /** The whole number that digits write, and the fraction they write behind a point. */
  function Whole(ds: Numeral): nat {
    if ds == [] then 0 else Whole(ds[..|ds| - 1]) * 10 + ds[|ds| - 1]
  }

  function Fraction(ds: Numeral): real {
    if ds == [] then 0.0 else (ds[0] as real + Fraction(ds[1..])) / 10.0
  }

  datatype Exponent = NoExponent | Exponent(upper: bool, sign: string, digits: Numeral) {
    predicate Valid() { Exponent? ==> sign in {"", "+", "-"} && digits != [] }

    function Text(): Text
      requires Valid()
    {
      match this
      case NoExponent => []
      case Exponent(upper, sign, digits) => Ascii(if upper then "E" else "e") + Ascii(sign) + DigitText(digits)
    }
  }

  function SignText(neg: bool): Text { Ascii(if neg then "-" else "") }

  /** A number as section 6 of RFC 8259 has it. */
  datatype Written = Written(neg: bool, whole: Numeral, fraction: Numeral, exponent: Exponent) {
    predicate Valid() { whole != [] && (whole[0] == 0 ==> |whole| == 1) && exponent.Valid() }

    function Text(): Text
      requires Valid()
    {
      SignText(neg) + DigitText(whole)
      + (if fraction == [] then [] else Ascii(".") + DigitText(fraction)) + exponent.Text()
    }

    function Magnitude(): real { Whole(whole) as real + Fraction(fraction) }

    function Value(): real
      requires Valid()
    {
      var m := if neg then -Magnitude() else Magnitude();
      match exponent
      case NoExponent => m
      case Exponent(_, sign, digits) => if sign == "-" then m / Ten(Whole(digits)) else m * Ten(Whole(digits))
    }
  }

  /** What ends a number: nothing that could belong to it. */
  predicate Ends(rest: Text) {
    rest == [] || !(IsDigit(rest[0]) || rest[0] == '.' as int || rest[0] == 'e' as int || rest[0] == 'E' as int)
  }

  // ---------------------------------------------------------------- powers of ten

  lemma PowerUp(e: int)
    ensures Pow10(e + 1) == Pow10(e) * 10.0
  {}

  lemma {:induction false} PowerNat(k: nat)
    ensures Pow10(k) == Ten(k)
  {
    if k > 0 {
      PowerNat(k - 1);
    }
  }

  lemma {:induction false} PowerShift(e: int, k: nat)
    ensures Pow10(e - k) * Ten(k) == Pow10(e)
  {
    if k > 0 {
      PowerShift(e, k - 1);
      PowerUp(e - k);
      hide Pow10;
      Regroup(Pow10(e - k), Ten(k - 1));
    }
  }

  lemma Regroup(a: real, b: real)
    ensures a * (b * 10.0) == (a * 10.0) * b
  {}

  // ---------------------------------------------------------------- digits

  /** The digits taken one by one into a number. */
  function Into(n: nat, ds: Numeral): nat
    decreases |ds|
  {
    if ds == [] then n else Into(10 * n + ds[0], ds[1..])
  }

  lemma DigitIs(d: nat)
    requires d < 10
    ensures "0123456789"[d] as int == 0x30 + d
  {}

  lemma {:induction false} DigitsRead(n: nat, ds: Numeral, rest: Text)
    requires rest == [] || !IsDigit(rest[0])
    ensures Digits(DigitText(ds) + rest, n) == (Into(n, ds), rest)
    decreases |ds|
  {
    var s := DigitText(ds) + rest;
    if ds == [] {
      assert s == rest;
    } else {
      DigitIs(ds[0]);
      assert s[1..] == DigitText(ds[1..]) + rest;
      assert s[0] == 0x30 + ds[0];
      DigitsRead(10 * n + ds[0], ds[1..], rest);
    }
  }

  lemma {:induction false} IntoNext(n: nat, ds: Numeral, d: nat)
    requires d < 10
    ensures Into(n, ds + [d]) == 10 * Into(n, ds) + d
    decreases |ds|
  {
    if ds == [] {
      assert ([] + [d])[1..] == [];
    } else {
      assert (ds + [d])[1..] == ds[1..] + [d];
      IntoNext(10 * n + ds[0], ds[1..], d);
    }
  }

  lemma {:induction false} IntoWhole(ds: Numeral)
    ensures Into(0, ds) == Whole(ds)
  {
    if ds != [] {
      var n := |ds| - 1;
      IntoWhole(ds[..n]);
      IntoNext(0, ds[..n], ds[n]);
      assert ds == ds[..n] + [ds[n]];
    }
  }

  lemma {:induction false} IntoFraction(n: nat, ds: Numeral)
    ensures Into(n, ds) as real == (n as real + Fraction(ds)) * Ten(|ds|)
    decreases |ds|
  {
    if ds != [] {
      IntoFraction(10 * n + ds[0], ds[1..]);
      Shifted(n as real, ds[0] as real, Fraction(ds[1..]), Ten(|ds| - 1));
    }
  }

  lemma Shifted(n: real, d: real, f: real, t: real)
    ensures (10.0 * n + d + f) * t == (n + (d + f) / 10.0) * (t * 10.0)
  {
    assert (n + (d + f) / 10.0) * 10.0 == 10.0 * n + d + f;
    Regroup(n + (d + f) / 10.0, t);
  }

  // ---------------------------------------------------------------- the parts of a number

  function WholePart(s: Text): (nat, Text) {
    var s2 := if At(s, 0) == 0x30 then s[1..] else s;
    if IsDigit(At(s2, 0)) && At(s2, 0) != 0x30 then Digits(s2, 0) else (0, s2)
  }

  lemma WholeRead(whole: Numeral, t: Text)
    requires whole != [] && (whole[0] == 0 ==> |whole| == 1) && (t == [] || !IsDigit(t[0]))
    ensures WholePart(DigitText(whole) + t) == (Whole(whole), t)
  {
    var s := DigitText(whole) + t;
    DigitHead(whole, t);
    if whole[0] == 0 {
      assert s[1..] == t;
      assert Whole(whole) == 0 by { assert whole[..0] == []; }
      hide Whole, Digits;
    } else {
      DigitsRead(0, whole, t);
      IntoWhole(whole);
      hide Whole, Into, Digits, DigitText;
    }
  }

  function FractionPart(n: nat, s: Text): (nat, Text) {
    if At(s, 0) == 0x2e && IsDigit(At(s, 1)) then Digits(s[1..], n) else (n, s)
  }

  function FractionText(fraction: Numeral): Text {
    if fraction == [] then [] else Ascii(".") + DigitText(fraction)
  }

  lemma FractionRead(n: nat, fraction: Numeral, t: Text)
    requires t == [] || !(IsDigit(t[0]) || t[0] == '.' as int)
    ensures var s := FractionText(fraction) + t;
            && FractionPart(n, s) == (Into(n, fraction), t)
            && Scale(s, t) == 0 - |fraction|
  {
    var s := FractionText(fraction) + t;
    if fraction == [] {
      assert s == t;
    } else {
      FractionHead(fraction, t);
      DigitsRead(n, fraction, t);
      hide Digits, DigitText, Into, FractionText, Ascii;
    }
  }

  lemma DigitHead(ds: Numeral, t: Text)
    requires ds != []
    ensures var s := DigitText(ds) + t; s != [] && s[0] == 0x30 + ds[0] && IsDigit(s[0])
  {
    DigitIs(ds[0]);
  }

  lemma FractionHead(fraction: Numeral, t: Text)
    requires fraction != []
    ensures var s := FractionText(fraction) + t;
            && |s| == 1 + |fraction| + |t| && s[0] == 0x2e && s[1..] == DigitText(fraction) + t && IsDigit(At(s, 1))
  {
    var s := FractionText(fraction) + t;
    DigitHead(fraction, t);
    hide DigitText;
    assert s[1..] == DigitText(fraction) + t;
    assert At(s, 1) == s[1..][0];
  }

  function ExponentPart(s: Text): (int, Text) {
    if At(s, 0) == 0x65 || At(s, 0) == 0x45 then ParseExponent(s[1..]) else (0, s)
  }

  function Power(e: Exponent): int {
    if e.NoExponent? then 0
    else
      var k: int := Whole(e.digits);
      if e.sign == "-" then -k else k
  }

  lemma ExponentRead(e: Exponent, rest: Text)
    requires e.Valid() && Ends(rest)
    ensures ExponentPart(e.Text() + rest) == (Power(e), rest)
  {
    if e.Exponent? {
      ExponentHead(e, rest);
      SignedRead(e.sign, e.digits, rest);
      hide ParseExponent, DigitText, Whole, Ascii, Exponent.Text;
    } else {
      assert e.Text() + rest == rest;
    }
  }

  lemma ExponentHead(e: Exponent, rest: Text)
    requires e.Valid() && e.Exponent?
    ensures var s := e.Text() + rest;
            s != [] && s[0] in {0x45, 0x65} && s[1..] == Ascii(e.sign) + (DigitText(e.digits) + rest)
  {
    var s, lead := e.Text() + rest, Ascii(if e.upper then "E" else "e");
    assert e.Text() == lead + Ascii(e.sign) + DigitText(e.digits);
    hide DigitText, Ascii, Exponent.Text;
    LeadFirst(lead, Ascii(e.sign), DigitText(e.digits), rest);
    assert lead[0] == (if e.upper then "E" else "e")[0] as int;
  }

  lemma LeadFirst(lead: Text, a: Text, b: Text, rest: Text)
    requires |lead| == 1
    ensures var s := lead + a + b + rest; s != [] && s[0] == lead[0] && s[1..] == a + (b + rest)
  {}

  lemma SignedRead(sign: string, digits: Numeral, rest: Text)
    requires sign in {"", "+", "-"} && digits != [] && Ends(rest)
    ensures ParseExponent(Ascii(sign) + (DigitText(digits) + rest)) == (Power(Exponent(false, sign, digits)), rest)
  {
    hide *;
    var t := DigitText(digits) + rest;
    DigitHead(digits, rest);
    EndsDigits(rest);
    DigitsRead(0, digits, rest);
    IntoWhole(digits);
    SignCut(sign, t);
    ExponentIs(Ascii(sign) + t, t, Whole(digits), rest);
    PowerIs(sign, digits);
  }

  lemma EndsDigits(rest: Text)
    requires Ends(rest)
    ensures rest == [] || !IsDigit(rest[0])
  {}

  lemma PowerIs(sign: string, digits: Numeral)
    ensures Power(Exponent(false, sign, digits)) == if sign == "-" then 0 - Whole(digits) else Whole(digits)
  {}

  lemma ExponentIs(s: Text, t: Text, n: nat, rest: Text)
    requires s != [] && (if At(s, 0) == 0x2b || At(s, 0) == MINUS then s[1..] else s) == t && Digits(t, 0) == (n, rest)
    ensures ParseExponent(s) == (if At(s, 0) == MINUS then 0 - n else n, rest)
  {
    hide Digits;
  }

  lemma SignCut(sign: string, t: Text)
    requires sign in {"", "+", "-"} && t != [] && IsDigit(t[0])
    ensures var s := Ascii(sign) + t;
            && s != [] && (if At(s, 0) == 0x2b || At(s, 0) == MINUS then s[1..] else s) == t
            && (At(s, 0) == MINUS <==> sign == "-")
  {
    var s := Ascii(sign) + t;
    if sign == "" {
      assert s == t;
    } else {
      assert s[1..] == t && s[0] == sign[0] as int;
    }
  }

  lemma SignRead(neg: bool, t: Text)
    requires t != [] && IsDigit(t[0])
    ensures var s := SignText(neg) + t;
            && s != [] && (At(s, 0) == MINUS <==> neg) && (if neg then s[1..] else s) == t
  {
    if neg {
      assert SignText(neg) == Ascii("-") && (Ascii("-") + t)[1..] == t;
    } else {
      assert SignText(neg) + t == t;
    }
  }

  /** Where the whole digits end, no digit follows, and where the fraction ends, no digit or point. */
  lemma Stops(w: Written, rest: Text)
    requires w.Valid() && Ends(rest)
    ensures var t := w.exponent.Text() + rest;
            && (t == [] || !(IsDigit(t[0]) || t[0] == '.' as int))
            && (FractionText(w.fraction) + t == [] || !IsDigit((FractionText(w.fraction) + t)[0]))
  {
    var t := w.exponent.Text() + rest;
    assert w.exponent.NoExponent? ==> t == rest;
    assert w.fraction == [] ==> FractionText(w.fraction) + t == t;
  }

  function Scale(s3: Text, s4: Text): int {
    if At(s3, 0) == 0x2e && IsDigit(At(s3, 1)) then -(|s3| - 1 - |s4|) else 0
  }

  lemma Parts(neg: bool, s: Text, s1: Text, n: nat, s3: Text, m: nat, s4: Text, e: int, s5: Text)
    requires s != [] && (At(s, 0) == MINUS <==> neg) && s1 == (if neg then s[1..] else s) && WholePart(s1) == (n, s3)
    requires FractionPart(n, s3) == (m, s4) && ExponentPart(s4) == (e, s5)
    ensures ParseNumber(s) == (Scaled(neg, m, Scale(s3, s4) + e), s5)
  {
    hide Digits, ParseExponent, Scaled;
  }

  /** What parse_number multiplies is the magnitude and the power of ten. */
  lemma ScaledIs(neg: bool, n: nat, fraction: Numeral, e: int)
    ensures var a := n as real + Fraction(fraction);
            Scaled(neg, Into(n, fraction), e - |fraction|) == (if neg then -a else a) * Pow10(e)
  {
    var k, a := |fraction|, n as real + Fraction(fraction);
    hide *;
    ScaledUnfold(neg, Into(n, fraction), e - k);
    IntoFraction(n, fraction);
    PowerShift(e, k);
    Cancel(a, Ten(k), Pow10(e - k), Pow10(e));
    Signed(neg, Into(n, fraction) as real, Pow10(e - k), a, Pow10(e));
  }

  lemma ScaledUnfold(neg: bool, m: nat, e: int)
    ensures Scaled(neg, m, e) == (if neg then -1.0 else 1.0) * (m as real) * Pow10(e)
  {}

  lemma Signed(neg: bool, m: real, p: real, a: real, q: real)
    requires m * p == a * q
    ensures (if neg then -1.0 else 1.0) * m * p == (if neg then -a else a) * q
  {
    assert (-1.0) * m * p == -(m * p) && (-a) * q == -(a * q);
  }

  lemma ValueIs(w: Written)
    requires w.Valid()
    ensures Scaled(w.neg, Into(Whole(w.whole), w.fraction), Power(w.exponent) - |w.fraction|) == w.Value()
  {
    ScaledIs(w.neg, Whole(w.whole), w.fraction, Power(w.exponent));
    hide Scaled, Into, Fraction, Whole;
    var m := if w.neg then -w.Magnitude() else w.Magnitude();
    match w.exponent
    case NoExponent =>
    case Exponent(_, sign, digits) =>
      var k: int := Whole(digits);
      PowerNat(k);
      PowerShift(0, k);
      hide Pow10, Ten;
      assert Pow10(0) == 1.0 by { PowerNone(); }
      Inverse(m, Pow10(-k), Ten(k));
  }

  lemma PowerNone()
    ensures Pow10(0) == 1.0
  {}

  lemma Cancel(a: real, t: real, p: real, q: real)
    requires p * t == q
    ensures a * t * p == a * q
  {}

  lemma Inverse(a: real, p: real, t: real)
    requires p * t == 1.0 && t >= 1.0
    ensures a * p == a / t
  {
    assert (a * p) * t == a * (p * t);
  }

  lemma NumberParts(w: Written, rest: Text)
    requires w.Valid() && Ends(rest)
    ensures ParseNumber(SignText(w.neg)
                        + (DigitText(w.whole) + (FractionText(w.fraction) + (w.exponent.Text() + rest))))
            == (Scaled(w.neg, Into(Whole(w.whole), w.fraction), Power(w.exponent) - |w.fraction|), rest)
  {
    ValidParts(w);
    hide *;
    var t4 := w.exponent.Text() + rest;
    var t3 := FractionText(w.fraction) + t4;
    var t1 := DigitText(w.whole) + t3;
    Stops(w, rest);
    DigitHead(w.whole, t3);
    SignRead(w.neg, t1);
    WholeRead(w.whole, t3);
    FractionRead(Whole(w.whole), w.fraction, t4);
    ExponentRead(w.exponent, rest);
    Parts(w.neg, SignText(w.neg) + t1, t1, Whole(w.whole), t3, Into(Whole(w.whole), w.fraction), t4,
          Power(w.exponent), rest);
  }

  /** Every number written as section 6 of RFC 8259 has it is read as its value, up to what does not belong to it. */
  lemma NumberReads(w: Written, rest: Text)
    requires w.Valid() && Ends(rest)
    ensures ParseNumber(w.Text() + rest) == (w.Value(), rest)
  {
    NumberParts(w, rest);
    Grouped(w, rest);
    ValueIs(w);
    hide *;
  }

  lemma ValidParts(w: Written)
    requires w.Valid()
    ensures w.whole != [] && (w.whole[0] == 0 ==> |w.whole| == 1) && w.exponent.Valid()
  {}

  lemma Grouped(w: Written, rest: Text)
    requires w.Valid()
    ensures w.Text() + rest == SignText(w.neg)
        + (DigitText(w.whole) + (FractionText(w.fraction) + (w.exponent.Text() + rest)))
  {
    hide DigitText, Ascii;
  }
}
