/** CRC-32 of zlib (crc32.c): the table builder, the three byte-consuming loops, and the
    GF(2)-matrix combination of two checksums.  Everything is proved against `Register`, the
    bit-at-a-time shift register of section 8 of RFC 1952. */
module Crc32 {

  // ---------------------------------------------------------------- words
  // Exclusive-or and the shifts are named so that proofs can treat them as algebra.

  function Xor(a: bv32, b: bv32): bv32 { a ^ b }
  function Not(a: bv32): bv32 { a ^ 0xffff_ffff }
  function Shr1(a: bv32): bv32 { a >> 1 }
  function Shr8(a: bv32): bv32 { a >> 8 }
  function Low8(a: bv32): bv32 { a & 0xff }
  function Word(b: bv8): bv32 { b as bv32 }

  /** REV: the bytes of a word in the opposite order. */
  function Rev(w: bv32): bv32 {
    ((w >> 24) & 0xff) + ((w >> 8) & 0xff00) + ((w & 0xff00) << 8) + ((w & 0xff) << 24)
  }

  lemma XorComm(a: bv32, b: bv32)
    ensures Xor(a, b) == Xor(b, a)
  {}

  lemma XorAssoc(a: bv32, b: bv32, c: bv32)
    ensures Xor(Xor(a, b), c) == Xor(a, Xor(b, c))
  {}

  lemma XorSelf(a: bv32)
    ensures Xor(a, a) == 0 && Xor(a, 0) == a && Xor(0, a) == a
  {}

  lemma XorSwap(a: bv32, b: bv32, c: bv32, d: bv32)
    ensures Xor(Xor(a, b), Xor(c, d)) == Xor(Xor(a, c), Xor(b, d))
  {
    XorAssoc(a, b, Xor(c, d));
    XorAssoc(b, c, d);
    XorComm(b, c);
    XorAssoc(c, b, d);
    XorAssoc(a, c, Xor(b, d));
  }

  // ---------------------------------------------------------------- the shift register

  const POLY: bv32 := 0xedb8_8320

  /** Multiplication by x modulo the CRC polynomial. */
  function Shift(c: bv32): bv32 {
    Xor(Shr1(c), if c & 1 == 1 then POLY else 0)
  }

  function ShiftBits(c: bv32, n: nat): bv32
    decreases n
  {
    if n == 0 then c else ShiftBits(Shift(c), n - 1)
  }

  /** The register after the `n` low bits of `b` have come in, least significant first. */
  function FeedBits(c: bv32, b: bv8, n: nat): bv32
    decreases n
  {
    if n == 0 then c else FeedBits(Shift(Xor(c, Word(b & 1))), b >> 1, n - 1)
  }

  /** The register after the bytes of `s` have come in. */
  function Register(c: bv32, s: seq<bv8>): bv32 {
    if s == [] then c else FeedBits(Register(c, s[..|s| - 1]), s[|s| - 1], 8)
  }

  /** The CRC-32 of `s` continuing from the CRC-32 `crc` (0 to start). */
  function Crc(crc: bv32, s: seq<bv8>): bv32 {
    Not(Register(Not(crc), s))
  }

  // ---------------------------------------------------------------- linearity

  lemma ShiftLinear(a: bv32, b: bv32)
    ensures Shift(Xor(a, b)) == Xor(Shift(a), Shift(b))
  {
    assert Shr1(Xor(a, b)) == Xor(Shr1(a), Shr1(b));
    assert (a ^ b) & 1 == (a & 1) ^ (b & 1);
    assert a & 1 == 0 || a & 1 == 1;
    assert b & 1 == 0 || b & 1 == 1;
    var pa := if a & 1 == 1 then POLY else 0;
    var pb := if b & 1 == 1 then POLY else 0;
    XorSwap(Shr1(a), pa, Shr1(b), pb);
  }

  lemma {:induction false} ShiftBitsLinear(a: bv32, b: bv32, n: nat)
    ensures ShiftBits(Xor(a, b), n) == Xor(ShiftBits(a, n), ShiftBits(b, n))
    decreases n
  {
    if n > 0 {
      ShiftLinear(a, b);
      ShiftBitsLinear(Shift(a), Shift(b), n - 1);
    }
  }

  lemma {:induction false} ShiftBitsAdd(c: bv32, m: nat, n: nat)
    ensures ShiftBits(c, m + n) == ShiftBits(ShiftBits(c, m), n)
    decreases m
  {
    if m > 0 {
      ShiftBitsAdd(Shift(c), m - 1, n);
    }
  }

  // ---------------------------------------------------------------- bytes

  function Drop(b: bv8, n: nat): bv8
    decreases n
  {
    if n == 0 then b else Drop(b >> 1, n - 1)
  }

  lemma DropAll(b: bv8)
    ensures Drop(b, 8) == 0
  {}

  lemma ShiftEven(v: bv32)
    requires v & 1 == 0
    ensures Shift(v) == Shr1(v)
  {}

  lemma LowBit(b: bv8)
    ensures Word(b) == Xor(Word(b & 1), Word(b & 0xfe))
  {}

  lemma OtherBits(b: bv8)
    ensures Word(b & 0xfe) & 1 == 0 && Shr1(Word(b & 0xfe)) == Word(b >> 1)
  {}

  /** One bit of byte `b` : take it in and move on, or exclusive-or the whole byte in and take out the rest. */
  lemma ShiftOneOf(c: bv32, b: bv8)
    ensures Shift(Xor(c, Word(b & 1))) == Xor(Shift(Xor(c, Word(b))), Word(b >> 1))
  {
    var c1, w := Xor(c, Word(b & 1)), Word(b & 0xfe);
    LowBit(b);
    OtherBits(b);
    ShiftEven(w);
    hide Shift, Word, Xor, Shr1;
    XorAssoc(c, Word(b & 1), w);
    ShiftLinear(c1, w);
    XorAssoc(Shift(c1), Shift(w), Shift(w));
    XorSelf(Shift(w));
    XorSelf(Shift(c1));
  }

  lemma {:induction false} FeedIsShift(c: bv32, b: bv8, n: nat)
    ensures FeedBits(c, b, n) == Xor(ShiftBits(Xor(c, Word(b)), n), Word(Drop(b, n)))
    decreases n
  {
    if n == 0 {
      XorAssoc(c, Word(b), Word(b));
      XorSelf(Word(b));
      XorSelf(c);
    } else {
      var c1 := Shift(Xor(c, Word(b & 1)));
      ShiftOneOf(c, b);
      FeedIsShift(c1, b >> 1, n - 1);
      XorAssoc(Shift(Xor(c, Word(b))), Word(b >> 1), Word(b >> 1));
      XorSelf(Word(b >> 1));
      XorSelf(Shift(Xor(c, Word(b))));
    }
  }

  /** Feeding a byte is eight shifts of the register exclusive-ored with it. */
  lemma FeedByte(c: bv32, b: bv8)
    ensures FeedBits(c, b, 8) == ShiftBits(Xor(c, Word(b)), 8)
  {
    DropAll(b);
    FeedIsShift(c, b, 8);
    XorSelf(ShiftBits(Xor(c, Word(b)), 8));
  }

  /** Eight zero bits at the bottom just move out. */
  lemma ShiftZeros(v: bv32)
    requires Low8(v) == 0
    ensures ShiftBits(v, 8) == Shr8(v)
  {}

  function High24(x: bv32): bv32 { x & 0xffff_ff00 }

  lemma Halves(x: bv32)
    ensures Low8(High24(x)) == 0 && Shr8(High24(x)) == Shr8(x) && x == Xor(Low8(x), High24(x))
  {}

  /** The first eight of `n` shifts: one table entry, and the other bytes moved down. */
  lemma SplitByte(x: bv32, n: nat)
    requires n >= 8
    ensures ShiftBits(x, n) == Xor(ShiftBits(Low8(x), n), ShiftBits(Shr8(x), n - 8))
  {
    var high := High24(x);
    Halves(x);
    ShiftBitsLinear(Low8(x), high, n);
    ShiftBitsAdd(high, 8, n - 8);
    ShiftZeros(high);
  }

  lemma {:induction false} ShiftBitsZero(n: nat)
    ensures ShiftBits(0, n) == 0
    decreases n
  {
    if n > 0 {
      assert Shift(0) == 0;
      ShiftBitsZero(n - 1);
    }
  }

  lemma ShiftNone(c: bv32)
    ensures ShiftBits(c, 0) == c
  {}

  function Byte1(x: bv32): bv32 { (x >> 8) & 0xff }
  function Byte2(x: bv32): bv32 { (x >> 16) & 0xff }
  function Byte3(x: bv32): bv32 { x >> 24 }

  lemma BytesAsShifts(x: bv32)
    ensures Byte1(x) == Low8(Shr8(x))
    ensures Byte2(x) == Low8(Shr8(Shr8(x)))
    ensures Byte3(x) == Low8(Shr8(Shr8(Shr8(x))))
    ensures Shr8(Shr8(Shr8(Shr8(x)))) == 0
  {}

  /** Four exclusive-ors do thirty-two shifts. */
  lemma SplitWord(x: bv32)
    ensures ShiftBits(x, 32) == Xor(Xor(Xor(ShiftBits(Low8(x), 32), ShiftBits(Byte1(x), 24)),
                                        ShiftBits(Byte2(x), 16)), ShiftBits(Byte3(x), 8))
  {
    hide Xor, Shr8, Low8, Byte1, Byte2, Byte3, ShiftBits;
    var x1 := Shr8(x);
    var x2 := Shr8(x1);
    var x3 := Shr8(x2);
    BytesAsShifts(x);
    SplitByte(x, 32);
    SplitByte(x1, 24);
    SplitByte(x2, 16);
    SplitByte(x3, 8);
    var t3, t2, t1, t0 := ShiftBits(Low8(x), 32), ShiftBits(Byte1(x), 24), ShiftBits(Byte2(x), 16),
        ShiftBits(Byte3(x), 8);
    assert ShiftBits(x, 32) == Xor(t3, Xor(t2, Xor(t1, Xor(t0, ShiftBits(Shr8(x3), 0)))));
    ShiftNone(Shr8(x3));
    XorSelf(t0);
    XorAssoc(t3, t2, Xor(t1, t0));
    XorAssoc(Xor(t3, t2), t1, t0);
  }

  function Up(b: bv8, k: nat): bv32
    requires k <= 24
  {
    Word(b) << k
  }

  lemma UpLow(b: bv8)
    ensures Low8(Up(b, 8)) == 0 && Shr8(Up(b, 8)) == Word(b)
    ensures Low8(Up(b, 16)) == 0 && Shr8(Up(b, 16)) == Up(b, 8)
    ensures Low8(Up(b, 24)) == 0 && Shr8(Up(b, 24)) == Up(b, 16)
  {}

  /** A 32-bit load from a little-endian memory. */
  function LoadLittle(b0: bv8, b1: bv8, b2: bv8, b3: bv8): bv32 {
    Xor(Xor(Xor(Word(b0), Up(b1, 8)), Up(b2, 16)), Up(b3, 24))
  }

  /** A 32-bit load from a big-endian memory. */
  function LoadBig(b0: bv8, b1: bv8, b2: bv8, b3: bv8): bv32 {
    LoadLittle(b3, b2, b1, b0)
  }

  lemma ByteUp(b: bv8)
    ensures ShiftBits(Up(b, 8), 8) == Word(b)
    ensures ShiftBits(Up(b, 16), 16) == Word(b)
    ensures ShiftBits(Up(b, 24), 24) == Word(b)
  {
    var w1, w2, w3 := Up(b, 8), Up(b, 16), Up(b, 24);
    UpLow(b);
    ShiftZeros(w1);
    ShiftZeros(w2);
    ShiftZeros(w3);
    ShiftBitsAdd(w2, 8, 8);
    ShiftBitsAdd(w3, 8, 16);
  }

  /** Taking in one more byte when `k` bits of the word have been shifted already. */
  lemma FeedNext(y: bv32, b: bv8, up: bv32, k: nat)
    requires ShiftBits(up, k) == Word(b)
    ensures FeedBits(ShiftBits(y, k), b, 8) == ShiftBits(Xor(y, up), k + 8)
  {
    FeedByte(ShiftBits(y, k), b);
    ShiftBitsLinear(y, up, k);
    ShiftBitsAdd(Xor(y, up), k, 8);
  }

  lemma {:induction false} RegisterAppend(c: bv32, s: seq<bv8>, t: seq<bv8>)
    ensures Register(c, s + t) == Register(Register(c, s), t)
    decreases |t|
  {
    if t == [] {
      assert s + t == s;
    } else {
      assert (s + t)[..|s + t| - 1] == s + t[..|t| - 1];
      RegisterAppend(c, s, t[..|t| - 1]);
    }
  }

  lemma RegisterOne(c: bv32, b: bv8)
    ensures Register(c, [b]) == FeedBits(c, b, 8)
  {}

  lemma RegisterLast(c: bv32, s: seq<bv8>, b: bv8)
    ensures Register(c, s + [b]) == FeedBits(Register(c, s), b, 8)
  {
    hide FeedBits;
    assert (s + [b])[..|s|] == s;
  }

  lemma RegisterFour(c: bv32, b0: bv8, b1: bv8, b2: bv8, b3: bv8)
    ensures Register(c, [b0, b1, b2, b3]) == FeedBits(FeedBits(FeedBits(FeedBits(c, b0, 8), b1, 8), b2, 8), b3, 8)
  {
    RegisterOne(c, b0);
    hide Register, FeedBits;
    RegisterLast(c, [b0], b1);
    RegisterLast(c, [b0, b1], b2);
    RegisterLast(c, [b0, b1, b2], b3);
    assert [b0] + [b1] == [b0, b1];
    assert [b0, b1] + [b2] == [b0, b1, b2];
    assert [b0, b1, b2] + [b3] == [b0, b1, b2, b3];
  }

  /** Four bytes of the stream are thirty-two shifts of the register exclusive-ored with their word. */
  lemma RegisterWord(c: bv32, b0: bv8, b1: bv8, b2: bv8, b3: bv8)
    ensures Register(c, [b0, b1, b2, b3]) == ShiftBits(Xor(c, LoadLittle(b0, b1, b2, b3)), 32)
  {
    RegisterFour(c, b0, b1, b2, b3);
    hide Xor, Word, Up, ShiftBits, FeedBits, Register;
    var w0, w1, w2, w3 := Word(b0), Up(b1, 8), Up(b2, 16), Up(b3, 24);
    ByteUp(b1); ByteUp(b2); ByteUp(b3);
    FeedByte(c, b0);
    FeedNext(Xor(c, w0), b1, w1, 8);
    FeedNext(Xor(Xor(c, w0), w1), b2, w2, 16);
    FeedNext(Xor(Xor(Xor(c, w0), w1), w2), b3, w3, 24);
    XorAssoc(c, w0, w1);
    XorAssoc(c, Xor(w0, w1), w2);
    XorAssoc(c, Xor(Xor(w0, w1), w2), w3);
  }

  // ---------------------------------------------------------------- byte-reversed registers

  lemma RevLinear(a: bv32, b: bv32)
    ensures Rev(Xor(a, b)) == Xor(Rev(a), Rev(b))
  {}

  lemma RevRev(a: bv32)
    ensures Rev(Rev(a)) == a
  {}

  const ONES: bv32 := 0xffff_ffff

  lemma NotIs(a: bv32)
    ensures Not(a) == Xor(a, ONES)
  {}

  lemma RevOnes()
    ensures Rev(ONES) == ONES
  {}

  function Shl8(a: bv32): bv32 { a << 8 }

  lemma RevShift(c: bv32)
    ensures Shl8(Rev(c)) == Rev(Shr8(c))
  {
    var x, y := Shl8(Rev(c)), Rev(Shr8(c));
    RevBytes(c);
    RevBytes(Shr8(c));
    BytesOfShifts(c);
    BytesOfShifts(Rev(c));
    hide *;
    SameBytes(x, y);
  }

  lemma BytesOfShifts(c: bv32)
    ensures Low8(Shl8(c)) == 0 && Byte1(Shl8(c)) == Low8(c) && Byte2(Shl8(c)) == Byte1(c) && Byte3(Shl8(c)) == Byte2(c)
    ensures Low8(Shr8(c)) == Byte1(c) && Byte1(Shr8(c)) == Byte2(c) && Byte2(Shr8(c)) == Byte3(c) && Byte3(Shr8(c)) == 0
  {}

  lemma SameBytes(x: bv32, y: bv32)
    requires Low8(x) == Low8(y) && Byte1(x) == Byte1(y) && Byte2(x) == Byte2(y) && Byte3(x) == Byte3(y)
    ensures x == y
  {}

  lemma LowOfXor(c: bv32, b: bv8)
    ensures Low8(Xor(c, Word(b))) == Xor(Low8(c), Word(b))
    ensures Shr8(Xor(c, Word(b))) == Shr8(c)
  {}

  lemma RevBytes(x: bv32)
    ensures Low8(Rev(x)) == Byte3(x) && Byte1(Rev(x)) == Byte2(x)
    ensures Byte2(Rev(x)) == Byte1(x) && Byte3(Rev(x)) == Low8(x)
  {}

  lemma RevUp(b: bv8)
    ensures Rev(Word(b)) == Up(b, 24) && Rev(Up(b, 24)) == Word(b)
    ensures Rev(Up(b, 8)) == Up(b, 16) && Rev(Up(b, 16)) == Up(b, 8)
  {}

  lemma RevLoad(b0: bv8, b1: bv8, b2: bv8, b3: bv8)
    ensures LoadBig(b0, b1, b2, b3) == Rev(LoadLittle(b0, b1, b2, b3))
  {
    hide Xor, Word, Up, Rev;
    var w0, w1, w2, w3 := Word(b0), Up(b1, 8), Up(b2, 16), Up(b3, 24);
    RevUp(b0); RevUp(b1); RevUp(b2); RevUp(b3);
    RevLinear(w0, w1);
    RevLinear(Xor(w0, w1), w2);
    RevLinear(Xor(Xor(w0, w1), w2), w3);
    XorReverse(Rev(w0), Rev(w1), Rev(w2), Rev(w3));
  }

  lemma XorReverse(a: bv32, b: bv32, c: bv32, d: bv32)
    ensures Xor(Xor(Xor(a, b), c), d) == Xor(Xor(Xor(d, c), b), a)
  {
    hide Xor;
    XorComm(a, b);
    XorComm(Xor(b, a), c);
    XorAssoc(c, b, a);
    XorComm(Xor(c, Xor(b, a)), d);
    XorAssoc(d, c, Xor(b, a));
    XorAssoc(Xor(d, c), b, a);
  }

  // ---------------------------------------------------------------- the tables

  /** What table `k` holds for the byte value `n`. */
  function Entry(k: nat, n: nat): bv32
    requires n < 256
  {
    ShiftBits(n as bv32, 8 * k + 8)
  }

  ghost predicate TablesOk(t: array2<bv32>)
    reads t
  {
    && t.Length0 == 8 && t.Length1 == 256
    && forall k, n :: 0 <= k < 4 && 0 <= n < 256 ==> t[k, n] == Entry(k, n) && t[k + 4, n] == Rev(Entry(k, n))
  }

  /** A byte-sized word as a table index. */
  function Index(x: bv32): (i: nat)
    requires x < 256
    ensures i < 256
  {
    x as nat
  }

  lemma EntryOf(x: bv32, k: nat)
    requires x < 256
    ensures Entry(k, Index(x)) == ShiftBits(x, 8 * k + 8)
  {
    assert (x as nat) as bv32 == x;
  }

  lemma Sizes(x: bv32)
    ensures Low8(x) < 256 && Byte1(x) < 256 && Byte2(x) < 256 && Byte3(x) < 256
  {}

  /** The next table up: one more zero byte after the value. */
  lemma NextEntry(k: nat, n: nat)
    requires n < 256
    ensures Low8(Entry(k, n)) < 256
    ensures Entry(k + 1, n) == Xor(Entry(0, Index(Low8(Entry(k, n)))), Shr8(Entry(k, n)))
  {
    var c := Entry(k, n);
    Sizes(c);
    ShiftBitsAdd(n as bv32, 8 * k + 8, 8);
    SplitByte(c, 8);
    ShiftNone(Shr8(c));
    EntryOf(Low8(c), 0);
  }

  const TERMS: seq<nat> := [0, 1, 2, 4, 5, 7, 8, 10, 11, 12, 16, 22, 23, 26]

  function Bit(i: nat): bv32
    requires i < 32
  {
    1 << i
  }

  /** The exclusive-or pattern made of the first `n` terms of the polynomial. */
  function Pattern(n: nat): bv32
    requires n <= 14
  {
    if n == 0 then 0 else Pattern(n - 1) | Bit(31 - TERMS[n - 1])
  }

  lemma PatternHalf()
    ensures Pattern(7) == 0xed80_0000
  {
    assert Pattern(0) == 0;
    hide Pattern;
    PatternStep(1, 0x8000_0000);
    PatternStep(2, 0xc000_0000);
    PatternStep(3, 0xe000_0000);
    PatternStep(4, 0xe800_0000);
    PatternStep(5, 0xec00_0000);
    PatternStep(6, 0xed00_0000);
    PatternStep(7, 0xed80_0000);
  }

  lemma PatternIsPoly()
    ensures Pattern(14) == POLY
  {
    hide Pattern;
    PatternHalf();
    PatternStep(8, 0xeda0_0000);
    PatternStep(9, 0xedb0_0000);
    PatternStep(10, 0xedb8_0000);
    PatternStep(11, 0xedb8_8000);
    PatternStep(12, 0xedb8_8200);
    PatternStep(13, 0xedb8_8300);
    PatternStep(14, POLY);
  }

  lemma PatternStep(n: nat, w: bv32)
    requires 1 <= n <= 14 && w == Pattern(n - 1) | Bit(31 - TERMS[n - 1])
    ensures Pattern(n) == w
  {}

  /** make_crc_table, part 1: the exclusive-or pattern from the list of the polynomial's terms. */
  method MakePolynomial() returns (poly: bv32)
    ensures poly == POLY
  {
    hide Bit;
    poly := 0;
    for n := 0 to 14
      invariant poly == Pattern(n)
    {
      poly := poly | Bit(31 - TERMS[n]);
    }
    PatternIsPoly();
  }

  /** make_crc_table, part 2: the CRC of one byte value. */
  method MakeEntry(n: nat) returns (c: bv32)
    requires n < 256
    ensures c == Entry(0, n)
  {
    var poly := MakePolynomial();
    c := n as bv32;
    for k := 0 to 8
      invariant ShiftBits(c, 8 - k) == Entry(0, n)
    {
      assert ShiftBits(c, 8 - k) == ShiftBits(Shift(c), 8 - k - 1);
      XorComm(poly, Shr1(c));
      XorSelf(Shr1(c));
      c := if c & 1 == 1 then Xor(poly, Shr1(c)) else Shr1(c);
    }
  }

  /** make_crc_table, part 3: one byte value in tables 1 to 3 and, byte-reversed, 4 to 7. */
  method MakeColumn(t: array2<bv32>, n: nat)
    requires t.Length0 == 8 && t.Length1 == 256 && n < 256
    requires forall m :: 0 <= m < 256 ==> t[0, m] == Entry(0, m)
    modifies t
    ensures forall k :: 0 <= k < 4 ==> t[k, n] == Entry(k, n) && t[k + 4, n] == Rev(Entry(k, n))
    ensures forall k, m :: 0 <= k < 8 && 0 <= m < 256 && m != n ==> t[k, m] == old(t[k, m])
  {
    hide Xor, Rev, Entry, Shr8, Low8;
    var c := t[0, n];
    t[4, n] := Rev(c);
    for k := 1 to 4
      invariant c == Entry(k - 1, n)
      invariant forall j :: 0 <= j < k ==> t[j, n] == Entry(j, n) && t[j + 4, n] == Rev(Entry(j, n))
      invariant forall j, m :: 0 <= j < 8 && 0 <= m < 256 && m != n ==> t[j, m] == old(t[j, m])
    {
      c := MakeSlot(t, k, n, c);
    }
  }

  /** One later entry of a column, plain and byte-reversed, from the one before it. */
  method MakeSlot(t: array2<bv32>, k: nat, n: nat, c0: bv32) returns (c: bv32)
    requires t.Length0 == 8 && t.Length1 == 256 && n < 256 && 1 <= k < 4 && c0 == Entry(k - 1, n)
    requires forall m :: 0 <= m < 256 ==> t[0, m] == Entry(0, m)
    modifies t
    ensures c == Entry(k, n) && t[k, n] == c && t[k + 4, n] == Rev(c)
    ensures forall j, m :: 0 <= j < 8 && 0 <= m < 256 && !(m == n && j in {k, k + 4}) ==> t[j, m] == old(t[j, m])
  {
    hide Xor, Rev, Entry, Shr8, Low8;
    NextEntry(k - 1, n);
    c := Xor(t[0, Index(Low8(c0))], Shr8(c0));
    t[k, n] := c;
    t[k + 4, n] := Rev(c);
  }

  /** make_crc_table. */
  method MakeCrcTable(t: array2<bv32>)
    requires t.Length0 == 8 && t.Length1 == 256
    modifies t
    ensures TablesOk(t)
  {
    hide Rev, Entry;
    for n := 0 to 256
      invariant forall m :: 0 <= m < n ==> t[0, m] == Entry(0, m)
    {
      t[0, n] := MakeEntry(n);
    }
    for n := 0 to 256
      invariant forall m :: 0 <= m < 256 ==> t[0, m] == Entry(0, m)
      invariant forall k, m :: 0 <= k < 4 && 0 <= m < n ==> t[k, m] == Entry(k, m) && t[k + 4, m] == Rev(Entry(k, m))
    {
      MakeColumn(t, n);
    }
  }

  // ---------------------------------------------------------------- one byte and one word by table

  lemma TableByte(c: bv32, b: bv8)
    ensures Low8(Xor(c, Word(b))) < 256
    ensures Xor(Entry(0, Index(Low8(Xor(c, Word(b))))), Shr8(c)) == FeedBits(c, b, 8)
  {
    var x := Xor(c, Word(b));
    Sizes(x);
    FeedByte(c, b);
    SplitByte(x, 8);
    ShiftNone(Shr8(x));
    LowOfXor(c, b);
    EntryOf(Low8(x), 0);
  }

  lemma TableByteRev(c: bv32, b: bv8)
    ensures Xor(Byte3(Rev(c)), Word(b)) < 256
    ensures Xor(Rev(Entry(0, Index(Xor(Byte3(Rev(c)), Word(b))))), Shl8(Rev(c))) == Rev(FeedBits(c, b, 8))
  {
    var i := Low8(Xor(c, Word(b)));
    TableByte(c, b);
    LowOfXor(c, b);
    RevBytes(c);
    RevShift(c);
    RevLinear(Entry(0, Index(i)), Shr8(c));
  }

  lemma TableWord(x: bv32)
    ensures Low8(x) < 256 && Byte1(x) < 256 && Byte2(x) < 256 && Byte3(x) < 256
    ensures Xor(Xor(Xor(Entry(3, Index(Low8(x))), Entry(2, Index(Byte1(x)))), Entry(1, Index(Byte2(x)))),
                Entry(0, Index(Byte3(x)))) == ShiftBits(x, 32)
  {
    hide Xor, ShiftBits, Entry, Low8, Byte1, Byte2, Byte3;
    Sizes(x);
    SplitWord(x);
    EntryOf(Low8(x), 3); EntryOf(Byte1(x), 2); EntryOf(Byte2(x), 1); EntryOf(Byte3(x), 0);
  }

  lemma TableWordRev(x: bv32)
    ensures var y := Rev(x);
            && Low8(y) < 256 && Byte1(y) < 256 && Byte2(y) < 256 && Byte3(y) < 256
            && Xor(Xor(Xor(Rev(Entry(0, Index(Low8(y)))), Rev(Entry(1, Index(Byte1(y))))),
            Rev(Entry(2, Index(Byte2(y))))),
                   Rev(Entry(3, Index(Byte3(y))))) == Rev(ShiftBits(x, 32))
  {
    hide Xor, Rev, ShiftBits, Entry, Low8, Byte1, Byte2, Byte3;
    TableWord(x);
    RevBytes(x);
    var t3, t2, t1, t0 := Entry(3, Index(Low8(x))), Entry(2, Index(Byte1(x))), Entry(1, Index(Byte2(x))),
        Entry(0, Index(Byte3(x)));
    RevLinear(t3, t2);
    RevLinear(Xor(t3, t2), t1);
    RevLinear(Xor(Xor(t3, t2), t1), t0);
    XorReverse(Rev(t3), Rev(t2), Rev(t1), Rev(t0));
  }

  // ---------------------------------------------------------------- the loops

  lemma RegisterNone(c: bv32, s: seq<bv8>)
    ensures Register(c, s[..0]) == c
  {}

  lemma RegisterSnoc(c: bv32, s: seq<bv8>, pos: nat)
    requires pos < |s|
    ensures Register(c, s[..pos + 1]) == FeedBits(Register(c, s[..pos]), s[pos], 8)
  {
    assert s[..pos + 1][..pos] == s[..pos];
  }

  lemma RegisterMore(c: bv32, s: seq<bv8>, pos: nat, n: nat)
    requires pos + n <= |s|
    ensures Register(c, s[..pos + n]) == Register(Register(c, s[..pos]), s[pos..pos + n])
  {
    assert s[..pos + n] == s[..pos] + s[pos..pos + n];
    RegisterAppend(c, s[..pos], s[pos..pos + n]);
  }

  /** DOLIT4. */
  method DoLit4(t: array2<bv32>, c0: bv32, buf: seq<bv8>, pos: nat) returns (c: bv32)
    requires TablesOk(t) && pos + 4 <= |buf|
    ensures c == Register(c0, buf[pos..pos + 4])
  {
    hide Xor, ShiftBits, Entry, Low8, Byte1, Byte2, Byte3;
    var x := Xor(c0, LoadLittle(buf[pos], buf[pos + 1], buf[pos + 2], buf[pos + 3]));
    TableWord(x);
    c := Xor(Xor(Xor(t[3, Index(Low8(x))], t[2, Index(Byte1(x))]), t[1, Index(Byte2(x))]), t[0, Index(Byte3(x))]);
    RegisterWord(c0, buf[pos], buf[pos + 1], buf[pos + 2], buf[pos + 3]);
    assert buf[pos..pos + 4] == [buf[pos], buf[pos + 1], buf[pos + 2], buf[pos + 3]];
  }

  /** DOLIT32: eight words. */
  method DoLit32(t: array2<bv32>, c0: bv32, buf: seq<bv8>, pos: nat) returns (c: bv32)
    requires TablesOk(t) && pos + 32 <= |buf|
    ensures c == Register(c0, buf[pos..pos + 32])
  {
    hide Xor, Entry, TablesOk, FeedBits;
    c := c0;
    for k := 0 to 8
      invariant c == Register(c0, buf[pos..pos + 4 * k])
    {
      var n := 4 * k;
      c := DoLit4(t, c, buf, pos + n);
      assert buf[pos..pos + n + 4] == buf[pos..pos + n] + buf[pos + n..pos + n + 4];
      RegisterAppend(c0, buf[pos..pos + n], buf[pos + n..pos + n + 4]);
    }
  }

  /** The byte step of crc32_little. */
  method ByteLittle(t: array2<bv32>, c0: bv32, b: bv8) returns (c: bv32)
    requires TablesOk(t)
    ensures c == FeedBits(c0, b, 8)
  {
    hide Xor, Low8, Shr8, FeedBits, Entry;
    TableByte(c0, b);
    c := Xor(t[0, Index(Low8(Xor(c0, Word(b))))], Shr8(c0));
  }

  /** crc32_little.  `addr` is the address of `buf`, which decides how long the byte prologue is. */
  method Crc32Little(t: array2<bv32>, crc: bv32, buf: seq<bv8>, addr: nat) returns (r: bv32)
    requires TablesOk(t)
    ensures r == Crc(crc, buf)
  {
    hide Not, FeedBits, Entry, Rev, Register, TablesOk;
    var c0 := Not(crc);
    var c, pos := c0, 0;
    RegisterNone(c0, buf);
    while pos < |buf| && (addr + pos) % 4 != 0
      invariant pos <= |buf| && c == Register(c0, buf[..pos])
    {
      RegisterSnoc(c0, buf, pos);
      c := ByteLittle(t, c, buf[pos]);
      pos := pos + 1;
    }
    while |buf| - pos >= 32
      invariant pos <= |buf| && c == Register(c0, buf[..pos])
    {
      RegisterMore(c0, buf, pos, 32);
      c := DoLit32(t, c, buf, pos);
      pos := pos + 32;
    }
    while |buf| - pos >= 4
      invariant pos <= |buf| && c == Register(c0, buf[..pos])
    {
      RegisterMore(c0, buf, pos, 4);
      c := DoLit4(t, c, buf, pos);
      pos := pos + 4;
    }
    while pos < |buf|
      invariant pos <= |buf| && c == Register(c0, buf[..pos])
    {
      RegisterSnoc(c0, buf, pos);
      c := ByteLittle(t, c, buf[pos]);
      pos := pos + 1;
    }
    assert buf[..pos] == buf;
    r := Not(c);
  }

  // ---------------------------------------------------------------- the big-endian loop

  /** The byte step of crc32_big, on a byte-reversed register. */
  method ByteBig(t: array2<bv32>, d0: bv32, b: bv8) returns (d: bv32)
    requires TablesOk(t)
    ensures Rev(d) == FeedBits(Rev(d0), b, 8)
  {
    hide Xor, Rev, Shl8, Byte3, FeedBits, Entry;
    RevRev(d0);
    TableByteRev(Rev(d0), b);
    d := Xor(t[4, Index(Xor(Byte3(d0), Word(b)))], Shl8(d0));
    RevRev(FeedBits(Rev(d0), b, 8));
  }

  /** DOBIG4. */
  method DoBig4(t: array2<bv32>, d0: bv32, buf: seq<bv8>, pos: nat) returns (d: bv32)
    requires TablesOk(t) && pos + 4 <= |buf|
    ensures Rev(d) == Register(Rev(d0), buf[pos..pos + 4])
  {
    hide Xor, Rev, ShiftBits, Entry, Low8, Byte1, Byte2, Byte3, LoadLittle, LoadBig, Register;
    ghost var w := LoadLittle(buf[pos], buf[pos + 1], buf[pos + 2], buf[pos + 3]);
    ghost var x := Xor(Rev(d0), w);
    var y := Xor(d0, LoadBig(buf[pos], buf[pos + 1], buf[pos + 2], buf[pos + 3]));
    RevLoad(buf[pos], buf[pos + 1], buf[pos + 2], buf[pos + 3]);
    RevLinear(Rev(d0), w);
    RevRev(d0);
    TableWordRev(x);
    d := Xor(Xor(Xor(t[4, Index(Low8(y))], t[5, Index(Byte1(y))]), t[6, Index(Byte2(y))]), t[7, Index(Byte3(y))]);
    RevRev(ShiftBits(x, 32));
    RegisterWord(Rev(d0), buf[pos], buf[pos + 1], buf[pos + 2], buf[pos + 3]);
    assert buf[pos..pos + 4] == [buf[pos], buf[pos + 1], buf[pos + 2], buf[pos + 3]];
  }

  /** DOBIG32: eight words. */
  method DoBig32(t: array2<bv32>, d0: bv32, buf: seq<bv8>, pos: nat) returns (d: bv32)
    requires TablesOk(t) && pos + 32 <= |buf|
    ensures Rev(d) == Register(Rev(d0), buf[pos..pos + 32])
  {
    hide Xor, Rev, Entry, TablesOk, FeedBits;
    d := d0;
    for k := 0 to 8
      invariant Rev(d) == Register(Rev(d0), buf[pos..pos + 4 * k])
    {
      var n := 4 * k;
      d := DoBig4(t, d, buf, pos + n);
      assert buf[pos..pos + n + 4] == buf[pos..pos + n] + buf[pos + n..pos + n + 4];
      RegisterAppend(Rev(d0), buf[pos..pos + n], buf[pos + n..pos + n + 4]);
    }
  }

  /** crc32_big. */
  method Crc32Big(t: array2<bv32>, crc: bv32, buf: seq<bv8>, addr: nat) returns (r: bv32)
    requires TablesOk(t)
    ensures r == Crc(crc, buf)
  {
    hide Not, Xor, FeedBits, Entry, Rev, Register, TablesOk;
    ghost var c0 := Not(crc);
    var d, pos := Not(Rev(crc)), 0;
    RegisterNone(c0, buf);
    RevOnes();
    NotIs(Rev(crc));
    NotIs(crc);
    RevLinear(Rev(crc), ONES);
    RevRev(crc);
    while pos < |buf| && (addr + pos) % 4 != 0
      invariant pos <= |buf| && Rev(d) == Register(c0, buf[..pos])
    {
      RegisterSnoc(c0, buf, pos);
      d := ByteBig(t, d, buf[pos]);
      pos := pos + 1;
    }
    while |buf| - pos >= 32
      invariant pos <= |buf| && Rev(d) == Register(c0, buf[..pos])
    {
      RegisterMore(c0, buf, pos, 32);
      d := DoBig32(t, d, buf, pos);
      pos := pos + 32;
    }
    while |buf| - pos >= 4
      invariant pos <= |buf| && Rev(d) == Register(c0, buf[..pos])
    {
      RegisterMore(c0, buf, pos, 4);
      d := DoBig4(t, d, buf, pos);
      pos := pos + 4;
    }
    while pos < |buf|
      invariant pos <= |buf| && Rev(d) == Register(c0, buf[..pos])
    {
      RegisterSnoc(c0, buf, pos);
      d := ByteBig(t, d, buf[pos]);
      pos := pos + 1;
    }
    assert buf[..pos] == buf;
    NotIs(d);
    NotIs(Rev(d));
    RevLinear(d, ONES);
    r := Rev(Not(d));
  }

  /** The form of crc32 without four-byte words: eight byte steps a turn, then single ones. */
  method Crc32Bytes(t: array2<bv32>, crc: bv32, buf: seq<bv8>) returns (r: bv32)
    requires TablesOk(t)
    ensures r == Crc(crc, buf)
  {
    hide Not, FeedBits, Entry, Rev, Register, TablesOk;
    var c0 := Not(crc);
    var c, pos := c0, 0;
    RegisterNone(c0, buf);
    while |buf| - pos >= 8
      invariant pos <= |buf| && c == Register(c0, buf[..pos])
    {
      for k := 0 to 8
        invariant c == Register(c0, buf[..pos + k])
      {
        RegisterSnoc(c0, buf, pos + k);
        c := ByteLittle(t, c, buf[pos + k]);
      }
      pos := pos + 8;
    }
    while pos < |buf|
      invariant pos <= |buf| && c == Register(c0, buf[..pos])
    {
      RegisterSnoc(c0, buf, pos);
      c := ByteLittle(t, c, buf[pos]);
      pos := pos + 1;
    }
    assert buf[..pos] == buf;
    r := Not(c);
  }

  datatype Machine = LittleEndian | BigEndian | NoFourByteType

  /** crc32: a null buffer gives 0, otherwise the form for this machine runs. */
  method Crc32(t: array2<bv32>, machine: Machine, crc: bv32, buf: array?<bv8>, len: nat, addr: nat) returns (r: bv32)
    requires TablesOk(t)
    requires buf != null ==> len <= buf.Length
    ensures r == if buf == null then 0 else Crc(crc, buf[..len])
  {
    if buf == null {
      return 0;
    }
    match machine
    case LittleEndian => r := Crc32Little(t, crc, buf[..len], addr);
    case BigEndian => r := Crc32Big(t, crc, buf[..len], addr);
    case NoFourByteType => r := Crc32Bytes(t, crc, buf[..len]);
  }

  // ---------------------------------------------------------------- the polynomial and a check value

  /** A word with its bits in the opposite order. */
  function Mirrored(w: bv32): bv32 {
    var a := ((w >> 1) & 0x5555_5555) | ((w & 0x5555_5555) << 1);
    var b := ((a >> 2) & 0x3333_3333) | ((a & 0x3333_3333) << 2);
    var c := ((b >> 4) & 0x0f0f_0f0f) | ((b & 0x0f0f_0f0f) << 4);
    var d := ((c >> 8) & 0x00ff_00ff) | ((c & 0x00ff_00ff) << 8);
    (d >> 16) | (d << 16)
  }

  /** The polynomial of IEEE 802.3, the coefficient of x^31 being its lowest bit here. */
  lemma Polynomial()
    ensures Mirrored(POLY) == 0x04c1_1db7
  {}

  lemma Bits(c: bv32, b: bv8, n: nat, c': bv32)
    requires n > 0 && c' == Shift(Xor(c, Word(b & 1)))
    ensures FeedBits(c, b, n) == FeedBits(c', b >> 1, n - 1)
  {
    hide Shift, Xor, Word;
  }

  /** The CRC-32 of the letter a. */
  lemma CheckValue()
    ensures Crc(0, [0x61]) == 0xe8b7_be43
  {
    assert [0x61][..0] == [];
    Bits(0xffff_ffff, 0x61, 8, 0x7fff_ffff);
    Bits(0x7fff_ffff, 0x30, 7, 0xd247_7cdf);
    Bits(0xd247_7cdf, 0x18, 6, 0x849b_3d4f);
    Bits(0x849b_3d4f, 0x0c, 5, 0xaff5_1d87);
    Bits(0xaff5_1d87, 0x06, 4, 0xba42_0de3);
    Bits(0xba42_0de3, 0x03, 3, 0x5d21_06f1);
    Bits(0x5d21_06f1, 0x01, 2, 0x2e90_8378);
    Bits(0x2e90_8378, 0x00, 1, 0x1748_41bc);
  }
}
