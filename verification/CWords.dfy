/** The machine words of the C code: what its fixed widths make of a number. */
module CWords {

  const TWO31: int := 0x8000_0000
  const TWO63: nat := 0x8000_0000_0000_0000
  const TWO64: nat := 0x1_0000_0000_0000_0000

  /** Arithmetic of a 64-bit size_t, and conversion to one. */
  function Wrap64(n: int): (w: nat)
    ensures w < TWO64
    ensures 0 <= n < TWO64 ==> w == n
  {
    n % TWO64
  }

  /** Conversion to a 32-bit int. */
  function Int32(n: int): (i: int)
    ensures -TWO31 <= i < TWO31
    ensures -TWO31 <= n < TWO31 ==> i == n
  {
    (n + TWO31) % (2 * TWO31) - TWO31
  }

  /** Wrapping once or at every step is the same. */
  lemma Int32Add(a: int, b: int)
    ensures Int32(Int32(a) + b) == Int32(a + b)
  {
    var q := (a + TWO31) / (2 * TWO31);
    assert Int32(a) == a - 2 * TWO31 * q;
    Int32Shift(a + b, -q);
  }

  lemma {:induction false} Int32Shift(n: int, q: int)
    ensures Int32(n + 2 * TWO31 * q) == Int32(n)
    decreases if q < 0 then -q else q
  {
    if q > 0 {
      Int32Shift(n, q - 1);
    } else if q < 0 {
      Int32Shift(n, q + 1);
    }
  }

  /** A length past the range of an int becomes a negative one, or one that is too small by 2^32 at least. */
  lemma Int32Past(n: int)
    requires n >= TWO31
    ensures Int32(n) < 0 || Int32(n) <= n - 2 * TWO31
  {}

  /** 256 to the power `k`. */
  function Power256(k: nat): (p: nat)
    ensures p > 0
  {
    if k == 0 then 1 else 256 * Power256(k - 1)
  }
}
