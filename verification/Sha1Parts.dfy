/** The constants and functions of FIPS 180-1 by what they are: roots, counted bytes, bits chosen. */
module Sha1Parts {
  import opened Sha1
  import opened CWords

  const ONE60: nat := 0x1000_0000_0000_0000

  /** The greatest whole number whose square is no more than `n`. */
  ghost predicate Root(r: nat, n: nat) {
    r * r <= n < (r + 1) * (r + 1)
  }

  /** The four constants are 2^30 times the square roots of 2, 3, 5 and 10, cut to whole numbers. */
  lemma Constants()
    ensures |K| == 4
    ensures Root(K[0] as nat, 2 * ONE60) && Root(K[1] as nat, 3 * ONE60)
    ensures Root(K[2] as nat, 5 * ONE60) && Root(K[3] as nat, 10 * ONE60)
  {
    assert K[0] as nat == 0x5a82_7999 && K[1] as nat == 0x6ed9_eba1;
    assert K[2] as nat == 0x8f1b_bcdc && K[3] as nat == 0xca62_c1d6;
  }

  /** The initial values are nibbles counted up and down, their bytes the least significant first. */
  lemma Initial()
    ensures IV.a == LittleWord(0x01, 0x23, 0x45, 0x67) && IV.b == LittleWord(0x89, 0xab, 0xcd, 0xef)
    ensures IV.c == LittleWord(0xfe, 0xdc, 0xba, 0x98) && IV.d == LittleWord(0x76, 0x54, 0x32, 0x10)
    ensures IV.e == LittleWord(0xf0, 0xe1, 0xd2, 0xc3)
  {}

  /** The first twenty rounds choose bits of `c` where `b` has ones and of `d` where it has none. */
  lemma Chooses(t: nat, b: bv32, c: bv32, d: bv32)
    requires t < 20
    ensures F(t, b, c, d) & b == c & b && F(t, b, c, d) & !b == d & !b
  {}

  /** The third twenty take the bit that two of the three have. */
  lemma Majority(t: nat, b: bv32, c: bv32, d: bv32)
    requires 40 <= t < 60
    ensures F(t, b, c, d) & !(b ^ c) == b & !(b ^ c)
    ensures F(t, b, c, d) & !(b ^ d) == b & !(b ^ d)
    ensures F(t, b, c, d) & !(c ^ d) == c & !(c ^ d)
  {}

  /** The others take the parity of the three: where `b` has ones, whether the other two agree, and where it has none,
      whether they differ. */
  predicate IsParity(x: bv32, b: bv32, c: bv32, d: bv32) {
    x & b == !(c ^ d) & b && x & !b == (c ^ d) & !b
  }

  lemma Parity(t: nat, b: bv32, c: bv32, d: bv32)
    requires 20 <= t < 40 || 60 <= t < 80
    ensures IsParity(F(t, b, c, d), b, c, d)
  {
    AllThree(b, c, d);
    hide F0, F1, F2, F3, IsParity, ExclusiveOr;
    AreParity(b, c, d);
  }

  function ExclusiveOr(b: bv32, c: bv32, d: bv32): bv32 { (b ^ c) ^ d }

  lemma AllThree(b: bv32, c: bv32, d: bv32)
    ensures IsParity(ExclusiveOr(b, c, d), b, c, d)
  {}

  lemma AreParity(b: bv32, c: bv32, d: bv32)
    ensures F1(b, c, d) == F3(b, c, d) == ExclusiveOr(b, c, d)
  {}

  /** Rotation by one brings the top bit round. */
  lemma RotateOne(x: bv32)
    ensures Rotl(x, 1) & 1 == x >> 31 && Rotl(x, 1) >> 1 == x & 0x7fff_ffff
  {}

  /** The other rotations are that, repeated. */
  lemma RotateFive(x: bv32)
    ensures Rotl(x, 5) == Rotl(Rotl(Rotl(Rotl(Rotl(x, 1), 1), 1), 1), 1)
  {}

  lemma RotateThirty(x: bv32)
    ensures Rotl(Rotl(Rotl(x, 30), 1), 1) == x
  {}

  /** A word's bytes, the most significant first, make it again; and that they are so ordered. */
  lemma WordBytes(w: bv32)
    ensures var s := BytesOf(w); |s| == 4 && BigWord(s[0], s[1], s[2], s[3]) == w
    ensures BytesOf(0x0102_0304) == [1, 2, 3, 4]
  {}

  /** The bit count of "abc" is 24, and 258 that of a message whose count takes two bytes. */
  lemma CountBytes()
    ensures BigEndian8(24) == [0, 0, 0, 0, 0, 0, 0, 24]
    ensures BigEndian8(258) == [0, 0, 0, 0, 0, 0, 1, 2]
  {}
}
