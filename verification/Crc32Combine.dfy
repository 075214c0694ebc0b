/** crc32_combine_ (crc32.c): the checksum of a concatenation from the two checksums and a length,
    by repeatedly squaring a 32 by 32 matrix over GF(2). */
module Crc32Combine {
  import opened Crc32

  // ---------------------------------------------------------------- matrices

  /** The product of a matrix, given by its columns, and a vector, given by its bits from the lowest. */
  function Apply(mat: seq<bv32>, v: bv32): bv32 {
    if mat == [] then 0 else Xor(if v & 1 == 1 then mat[0] else 0, Apply(mat[1..], Shr1(v)))
  }

  lemma XorShr1(a: bv32, b: bv32)
    ensures Shr1(Xor(a, b)) == Xor(Shr1(a), Shr1(b))
    ensures Xor(a, b) & 1 == (a & 1) ^ (b & 1)
  {}

  lemma PickLinear(m: bv32, a: bv32, b: bv32)
    ensures (if Xor(a, b) & 1 == 1 then m else 0) == Xor(if a & 1 == 1 then m else 0, if b & 1 == 1 then m else 0)
  {
    XorShr1(a, b);
    assert a & 1 == 0 || a & 1 == 1;
    assert b & 1 == 0 || b & 1 == 1;
    XorSelf(m);
  }

  lemma {:induction false} ApplyLinear(mat: seq<bv32>, a: bv32, b: bv32)
    ensures Apply(mat, Xor(a, b)) == Xor(Apply(mat, a), Apply(mat, b))
  {
    if mat != [] {
      XorShr1(a, b);
      PickLinear(mat[0], a, b);
      ApplyLinear(mat[1..], Shr1(a), Shr1(b));
      hide Xor;
      XorSwap(if a & 1 == 1 then mat[0] else 0, if b & 1 == 1 then mat[0] else 0,
              Apply(mat[1..], Shr1(a)), Apply(mat[1..], Shr1(b)));
    } else {
      XorSelf(0);
    }
  }

  lemma {:induction false} ApplyZero(mat: seq<bv32>)
    ensures Apply(mat, 0) == 0
  {
    if mat != [] {
      assert Shr1(0) == 0;
      ApplyZero(mat[1..]);
      XorSelf(0);
    }
  }

  /** Replacing every column by its image multiplies the operators. */
  lemma {:induction false} ApplyProduct(mat: seq<bv32>, cols: seq<bv32>, images: seq<bv32>, v: bv32)
    requires |images| == |cols|
    requires forall i :: 0 <= i < |cols| ==> images[i] == Apply(mat, cols[i])
    ensures Apply(images, v) == Apply(mat, Apply(cols, v))
  {
    ApplyZero(mat);
    if cols != [] {
      hide Xor, Shr1;
      ApplyProduct(mat, cols[1..], images[1..], Shr1(v));
      ApplyLinear(mat, if v & 1 == 1 then cols[0] else 0, Apply(cols[1..], Shr1(v)));
    }
  }

  /** `mat` is the operator that shifts in `n` zero bits. */
  ghost predicate ShiftsBy(mat: seq<bv32>, n: nat) {
    |mat| == 32 && forall v :: Apply(mat, v) == ShiftBits(v, n)
  }

  lemma SquareShifts(mat: seq<bv32>, square: seq<bv32>, n: nat)
    requires ShiftsBy(mat, n) && |square| == 32
    requires forall v :: Apply(square, v) == Apply(mat, Apply(mat, v))
    ensures ShiftsBy(square, 2 * n)
  {
    forall v ensures Apply(square, v) == ShiftBits(v, 2 * n) {
      ShiftBitsAdd(v, n, n);
    }
  }

  /** The bits of `v` fit in the `k` lowest places. */
  ghost predicate Fits(v: bv32, k: nat)
    decreases k
  {
    if k == 0 then v == 0 else Fits(Shr1(v), k - 1)
  }

  lemma {:induction false} FitsLess(v: bv32, k: nat)
    requires Fits(Shr8(v), k)
    ensures Fits(v, k + 8)
  {
    var v2 := Shr1(Shr1(v));
    var v4 := Shr1(Shr1(v2));
    var v6 := Shr1(Shr1(v4));
    assert Shr8(v) == Shr1(Shr1(v6));
    assert Fits(v6, k + 2);
    assert Fits(v4, k + 4);
    assert Fits(v2, k + 6);
  }

  lemma FitsAll(v: bv32)
    ensures Fits(v, 32)
  {
    hide Shr8;
    BytesAsShifts(v);
    assert Fits(0, 0);
    FitsLess(Shr8(Shr8(Shr8(v))), 0);
    FitsLess(Shr8(Shr8(v)), 8);
    FitsLess(Shr8(v), 16);
    FitsLess(v, 24);
  }

  /** gf2_matrix_times. */
  method Gf2MatrixTimes(mat: array<bv32>, vec: bv32) returns (sum: bv32)
    requires mat.Length == 32
    ensures sum == Apply(mat[..], vec)
  {
    hide Xor, Shr1;
    sum := 0;
    var v, i := vec, 0;
    FitsAll(vec);
    XorSelf(Apply(mat[..], vec));
    assert mat[0..] == mat[..];
    while v != 0
      invariant 0 <= i <= 32 && Fits(v, 32 - i)
      invariant Xor(sum, Apply(mat[i..], v)) == Apply(mat[..], vec)
      decreases 32 - i
    {
      ghost var m := mat[i..];
      assert m[1..] == mat[i + 1..];
      ghost var picked := if v & 1 == 1 then mat[i] else 0;
      XorAssoc(sum, picked, Apply(m[1..], Shr1(v)));
      XorSelf(sum);
      if v & 1 == 1 {
        sum := Xor(sum, mat[i]);
      }
      v := Shr1(v);
      i := i + 1;
    }
    ApplyZero(mat[i..]);
    XorSelf(sum);
  }

  /** gf2_matrix_square: the square of a matrix applies it twice. */
  method Gf2MatrixSquare(square: array<bv32>, mat: array<bv32>)
    requires square != mat && square.Length == 32 && mat.Length == 32
    modifies square
    ensures forall v :: Apply(square[..], v) == Apply(mat[..], Apply(mat[..], v))
  {
    for n := 0 to 32
      invariant forall k :: 0 <= k < n ==> square[k] == Apply(mat[..], mat[k])
    {
      square[n] := Gf2MatrixTimes(mat, mat[n]);
    }
    forall v ensures Apply(square[..], v) == Apply(mat[..], Apply(mat[..], v)) {
      ApplyProduct(mat[..], mat[..], square[..], v);
    }
  }

  // ---------------------------------------------------------------- the operator for one zero bit

  function Shl1(a: bv32): bv32 { a << 1 }

  /** `n` columns, each the one before it shifted up. */
  function Doubling(row: bv32, n: nat): (cols: seq<bv32>)
    ensures |cols| == n
    decreases n
  {
    if n == 0 then [] else [row] + Doubling(Shl1(row), n - 1)
  }

  lemma {:induction false} ApplyDoubled(row: bv32, n: nat, v: bv32)
    ensures Apply(Doubling(Shl1(row), n), v) == Shl1(Apply(Doubling(row, n), v))
    decreases n
  {
    if n > 0 {
      ApplyDoubled(Shl1(row), n - 1, Shr1(v));
      XorShl1(if v & 1 == 1 then row else 0, Apply(Doubling(Shl1(row), n - 1), Shr1(v)));
    }
  }

  lemma XorShl1(a: bv32, b: bv32)
    ensures Shl1(Xor(a, b)) == Xor(Shl1(a), Shl1(b))
    ensures Shl1(0) == 0
  {}

  lemma LowAndRest(v: bv32)
    ensures Xor(if v & 1 == 1 then 1 else 0, Shl1(Shr1(v))) == v
  {}

  /** The columns 1, 2, 4, ... make the identity on the vectors that fit. */
  lemma {:induction false} ApplyIdentity(n: nat, v: bv32)
    requires Fits(v, n)
    ensures Apply(Doubling(1, n), v) == v
    decreases n
  {
    if n > 0 {
      ApplyIdentity(n - 1, Shr1(v));
      ApplyDoubled(1, n - 1, Shr1(v));
      LowAndRest(v);
    }
  }

  lemma OneBit(mat: seq<bv32>)
    requires mat == [POLY] + Doubling(1, 31)
    ensures ShiftsBy(mat, 1)
  {
    forall v ensures Apply(mat, v) == ShiftBits(v, 1) {
      FitsAll(v);
      ApplyIdentity(31, Shr1(v));
      assert mat[1..] == Doubling(1, 31);
      XorComm(if v & 1 == 1 then POLY else 0, Shr1(v));
      assert ShiftBits(v, 1) == ShiftBits(Shift(v), 0) == Shift(v);
    }
  }

  /** crc32_combine_, its first part: the operator for one zero bit. */
  method MakeOneBit(odd: array<bv32>)
    requires odd.Length == 32
    modifies odd
    ensures ShiftsBy(odd[..], 1)
  {
    hide Shl1, ShiftsBy;
    odd[0] := POLY;
    var row: bv32 := 1;
    for n := 1 to 32
      invariant odd[..n] + Doubling(row, 32 - n) == [POLY] + Doubling(1, 31)
    {
      ghost var rest := Doubling(Shl1(row), 31 - n);
      ghost var before := odd[..n];
      odd[n] := row;
      assert odd[..n + 1] == before + [row];
      assert before + [row] + rest == before + ([row] + rest);
      row := Shl1(row);
    }
    assert odd[..] == odd[..32] + Doubling(row, 0);
    OneBit(odd[..]);
  }

  // ---------------------------------------------------------------- combination

  /** What crc32_combine_ computes: `len2` zero bytes shifted into `crc1`, exclusive-ored with `crc2`. */
  function Combined(crc1: bv32, crc2: bv32, len2: int): bv32 {
    if len2 <= 0 then crc1 else Xor(ShiftBits(crc1, 8 * len2), crc2)
  }

  /** Using one binary digit of the length. */
  lemma TakeDigit(c: bv32, m: nat, len: nat)
    ensures ShiftBits(c, m * len) == ShiftBits(if len % 2 == 1 then ShiftBits(c, m) else c, 2 * m * (len / 2))
  {
    var q := len / 2;
    if len % 2 == 1 {
      assert m * len == m + 2 * m * q by { assert len == 2 * q + 1; }
      ShiftBitsAdd(c, m, 2 * m * q);
    } else {
      assert m * len == 2 * m * q by { assert len == 2 * q; }
    }
  }

  method Crc32Combine(crc1: bv32, crc2: bv32, len2: int) returns (r: bv32)
    ensures r == Combined(crc1, crc2, len2)
  {
    hide Xor, ShiftsBy, Apply;
    if len2 <= 0 {
      return crc1;
    }
    var even, odd := new bv32[32], new bv32[32];
    MakeOneBit(odd);
    Gf2MatrixSquare(even, odd);
    SquareShifts(odd[..], even[..], 1);
    Gf2MatrixSquare(odd, even);
    SquareShifts(even[..], odd[..], 2);
    var c, len := crc1, len2;
    ghost var p := 4;
    while true
      invariant len > 0 && p > 0 && ShiftsBy(odd[..], p)
      invariant ShiftBits(c, 2 * p * len) == ShiftBits(crc1, 8 * len2)
      decreases len
    {
      Gf2MatrixSquare(even, odd);
      SquareShifts(odd[..], even[..], p);
      TakeDigit(c, 2 * p, len);
      if len % 2 == 1 {
        c := Times(even, c, 2 * p);
      }
      len := len / 2;
      if len == 0 {
        ShiftNone(c);
        break;
      }
      Gf2MatrixSquare(odd, even);
      SquareShifts(even[..], odd[..], 2 * p);
      TakeDigit(c, 4 * p, len);
      if len % 2 == 1 {
        c := Times(odd, c, 4 * p);
      }
      len := len / 2;
      p := 4 * p;
      if len == 0 {
        ShiftNone(c);
        break;
      }
    }
    r := Xor(c, crc2);
  }

  method Times(mat: array<bv32>, c: bv32, ghost n: nat) returns (r: bv32)
    requires mat.Length == 32 && ShiftsBy(mat[..], n)
    ensures r == ShiftBits(c, n)
  {
    r := Gf2MatrixTimes(mat, c);
  }

  // ---------------------------------------------------------------- what it means

  /** The register is affine in its starting value. */
  lemma {:induction false} RegisterAffine(c: bv32, s: seq<bv8>)
    ensures Register(c, s) == Xor(Register(0, s), ShiftBits(c, 8 * |s|))
  {
    if s == [] {
      XorSelf(c);
    } else {
      hide Xor, Word, FeedBits;
      var t, b := s[..|s| - 1], s[|s| - 1];
      var r0, z := Register(0, t), ShiftBits(c, 8 * |t|);
      RegisterAffine(c, t);
      FeedByte(Xor(r0, z), b);
      FeedByte(r0, b);
      XorAssoc(r0, z, Word(b));
      XorComm(z, Word(b));
      XorAssoc(r0, Word(b), z);
      ShiftBitsLinear(Xor(r0, Word(b)), z, 8);
      ShiftBitsAdd(c, 8 * |t|, 8);
    }
  }

  lemma NotIsXor(a: bv32)
    ensures Not(a) == Xor(a, 0xffff_ffff)
  {}

  /** Continuing a checksum over more data is the checksum of all of it. */
  lemma CrcContinues(crc: bv32, a: seq<bv8>, b: seq<bv8>)
    ensures Crc(Crc(crc, a), b) == Crc(crc, a + b)
  {
    RegisterAppend(Not(crc), a, b);
    assert forall w :: Not(Not(w)) == w;
  }

  /** The checksums of two strings combine to the checksum of their concatenation. */
  lemma CombineConcat(crc: bv32, a: seq<bv8>, b: seq<bv8>)
    ensures Combined(Crc(crc, a), Crc(0, b), |b|) == Crc(crc, a + b)
  {
    if b == [] {
      assert a + b == a;
    } else {
      hide Xor, Not, Register, ShiftBits;
      var ones: bv32 := 0xffff_ffff;
      var n := 8 * |b|;
      var ra, rb := Register(Not(crc), a), Register(0, b);
      RegisterAppend(Not(crc), a, b);
      RegisterAffine(ra, b);
      RegisterAffine(Not(0), b);
      NotIsXor(0); NotIsXor(ra); NotIsXor(Register(ra, b)); NotIsXor(Register(ones, b));
      XorSelf(ones);
      var za, zo := ShiftBits(ra, n), ShiftBits(ones, n);
      ShiftBitsLinear(ra, ones, n);
      XorAssoc(rb, zo, ones); XorComm(rb, Xor(zo, ones)); XorAssoc(zo, ones, rb);
      // (za ^ zo) ^ (zo ^ (ones ^ rb)) cancels zo
      XorAssoc(za, zo, Xor(zo, Xor(ones, rb)));
      XorAssoc(zo, zo, Xor(ones, rb));
      XorSelf(zo); XorSelf(Xor(ones, rb));
      XorComm(ones, rb); XorComm(za, Xor(rb, ones)); XorAssoc(rb, ones, za);
      XorComm(ones, za); XorAssoc(rb, za, ones);
    }
  }
}
