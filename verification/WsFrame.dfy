/** The frame format of section 5.2 of RFC 6455: headers, lengths and masking. */
module WsFrame {

  import opened CWords

  // ---------------------------------------------------------------- bytes and numbers

  function Byte(n: nat): bv8
    requires n < 256
  {
    n as bv8
  }

  function Num(b: bv8): (n: nat)
    ensures n < 256
  {
    b as nat
  }

  lemma NextByte(b: bv8)
    requires b != 255
    ensures (b + 1) as nat == b as nat + 1
  {}

  lemma {:induction false} ByteFor(n: nat) returns (b: bv8)
    requires n < 256
    ensures b as nat == n
  {
    if n == 0 {
      b := 0;
    } else {
      var a := ByteFor(n - 1);
      NextByte(a);
      b := a + 1;
    }
  }

  lemma CastCast(b: bv8)
    ensures (b as nat) as bv8 == b
  {}

  lemma NumByte(n: nat)
    requires n < 256
    ensures Num(Byte(n)) == n
  {
    var b := ByteFor(n);
    CastCast(b);
  }

  /** Digit `k` of `n` in base 256. */
  function Digit(n: nat, k: nat): (d: nat)
    ensures d < 256
  {
    n / Power256(k) % 256
  }

  /** `n` in `k` bytes, the most significant first. */
  function BigEndian(n: nat, k: nat): (s: seq<bv8>)
    ensures |s| == k
  {
    seq(k, i requires 0 <= i < k => Byte(Digit(n, k - 1 - i)))
  }

  /** Adding the next lower digit back. */
  lemma AddDigit(n: nat, k: nat)
    ensures n - n % Power256(k + 1) + Digit(n, k) * Power256(k) == n - n % Power256(k)
  {
    var p := Power256(k);
    var d, e := n / p % 256, n / p / 256;
    Distribute(e, d, p);
    assert n == (256 * e + d) * p + n % p;
    DivIs(n, 256 * p, e, d * p + n % p);
  }

  lemma Distribute(e: nat, d: nat, p: nat)
    requires d < 256
    ensures (256 * e + d) * p == e * (256 * p) + d * p
    ensures d * p <= 255 * p
  {}

  lemma DivIs(n: nat, m: nat, q: nat, r: nat)
    requires m > 0 && n == q * m + r && r < m
    ensures n / m == q && n % m == r
  {
    var d := n / m;
    TimesLess(d, q, m);
    TimesLess(q, d, m);
    assert n == d * m + n % m;
  }

  lemma {:induction false} TimesLess(a: nat, b: nat, m: nat)
    ensures a < b ==> a * m + m <= b * m
  {
    if a < b {
      assert b * m == (b - 1) * m + m;
      TimesLess(a, b - 1, m);
    }
  }

  // ---------------------------------------------------------------- masking

  function Xor8(a: bv8, b: bv8): bv8 { a ^ b }

  lemma Xor8Twice(a: bv8, b: bv8)
    ensures Xor8(Xor8(a, b), b) == a
    ensures Xor8(a, 0) == a
    ensures Xor8(a, b) == a ==> b == 0
  {}

  /** `s` with its first `k` bytes exclusive-ored with the nonce, which repeats. */
  function MaskFirst(s: seq<bv8>, nonce: seq<bv8>, k: nat): (m: seq<bv8>)
    requires |nonce| == 4
    ensures |m| == |s|
  {
    seq(|s|, i requires 0 <= i < |s| => if i < k then Xor8(s[i], nonce[i % 4]) else s[i])
  }

  function Mask(s: seq<bv8>, nonce: seq<bv8>): (m: seq<bv8>)
    requires |nonce| == 4
    ensures |m| == |s|
  {
    MaskFirst(s, nonce, |s|)
  }

  // ---------------------------------------------------------------- frames

  /** How the payload length is written: in seven bits, in sixteen, or in sixty-three. */
  datatype LengthForm = Len7 | Len16 | Len64

  datatype Frame = Frame(opcode: bv8, fin: bool, payload: seq<bv8>, mask: seq<bv8>) {
    /** A frame that can be on the wire: a four-bit opcode, a nonce of four bytes or none. */
    ghost predicate Valid() {
      opcode < 16 && (mask == [] || |mask| == 4) && |payload| < TWO63
    }  }

  ghost predicate Fits(n: nat, form: LengthForm) {
    match form
    case Len7 => n < 126
    case Len16 => n < 65536
    case Len64 => n < TWO63
  }

  /** The shortest form, the only one RFC 6455 lets a sender use. */
  function Minimal(n: nat): LengthForm {
    if n < 126 then Len7 else if n < 65536 then Len16 else Len64
  }

  function FirstByte(opcode: bv8, fin: bool): bv8 { opcode | (if fin then 0x80 else 0) }
  function LengthByte(n: nat, masked: bool): bv8
    requires n < 128
  {
    Byte(n) | (if masked then 0x80 else 0)
  }

  /** The second byte of a header and the extended length after it. */
  function LengthBytes(n: nat, form: LengthForm, masked: bool): seq<bv8>
    requires Fits(n, form)
  {
    match form
    case Len7 => [LengthByte(n, masked)]
    case Len16 => [LengthByte(126, masked)] + BigEndian(n, 2)
    case Len64 => [LengthByte(127, masked)] + BigEndian(n, 8)
  }

  /** A frame on the wire with its length written in the given form. */
  function EncodeAs(f: Frame, form: LengthForm): seq<bv8>
    requires f.Valid() && Fits(|f.payload|, form)
  {
    [FirstByte(f.opcode, f.fin)] + LengthBytes(|f.payload|, form, f.mask != []) + f.mask
    + (if f.mask == [] then f.payload else Mask(f.payload, f.mask))
  }

  function Encode(f: Frame): seq<bv8>
    requires f.Valid()
  {
    EncodeAs(f, Minimal(|f.payload|))
  }

  // ---------------------------------------------------------------- header bits

  function Opcode(c: bv8): bv8 { c & 0xf }
  predicate Fin(c: bv8) { (c >> 7) & 1 == 1 }
  predicate MaskBit(c: bv8) { c & 0x80 != 0 }
  function Length7(c: bv8): (n: nat)
    ensures n < 256
  {
    (c & 0x7f) as nat
  }

  lemma FirstByteBits(opcode: bv8, fin: bool)
    requires opcode < 16
    ensures Opcode(FirstByte(opcode, fin)) == opcode
    ensures Fin(FirstByte(opcode, fin)) == fin
  {}

  lemma SevenBits(b: bv8, masked: bool)
    requires b < 0x80
    ensures (b | (if masked then 0x80 else 0)) & 0x7f == b
    ensures MaskBit(b | (if masked then 0x80 else 0)) == masked
  {}

  lemma LengthByteBits(n: nat, masked: bool)
    requires n < 128
    ensures Length7(LengthByte(n, masked)) == n && MaskBit(LengthByte(n, masked)) == masked
  {
    assert Byte(n) < 0x80;
    SevenBits(Byte(n), masked);
    NumByte(n);
  }

  /** The top bit of a 64-bit length is clear. */
  lemma TopBitClear(n: nat)
    requires n < TWO63
    ensures n % Power256(8) == n && Digit(n, 7) < 128
    ensures !MaskBit(Byte(Digit(n, 7)))
  {
    assert Power256(7) == 0x100_0000_0000_0000;
    assert n / Power256(7) < 128;
    assert Byte(Digit(n, 7)) < 0x80;
  }
}
