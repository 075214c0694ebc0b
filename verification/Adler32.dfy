/** Adler-32 of zlib (adler32.c): the deferred-modulo loops and the combination of two checksums,
    proved against the two sums of section 8.2 of RFC 1950.  Every variable of the C code is a
    `u32`, so the absence of wrap-around inside a block is part of what is verified. */
module Adler32 {

  newtype u32 = x: int | 0 <= x < 0x1_0000_0000

  const BASE: u32 := 65521
  const NMAX: nat := 5552

  // ---------------------------------------------------------------- the two sums

  /** `a` plus the bytes of `s`. */
  function SumA(a: nat, s: seq<bv8>): nat {
    if s == [] then a else SumA(a, s[..|s| - 1]) + s[|s| - 1] as nat
  }

  /** `b` plus every intermediate value of the first sum. */
  function SumB(a: nat, b: nat, s: seq<bv8>): nat {
    if s == [] then b else SumB(a, b, s[..|s| - 1]) + SumA(a, s)
  }

  function Pack(a: u32, b: u32): u32
    requires a < 65536 && b < 65536
  {
    a + 65536 * b
  }

  function Low(adler: u32): u32 { adler % 65536 }
  function High(adler: u32): u32 { adler / 65536 }

  lemma PackUnpack(a: u32, b: u32)
    requires a < 65536 && b < 65536
    ensures Low(Pack(a, b)) == a && High(Pack(a, b)) == b
  {}

  function ModBase(n: int): (r: u32)
    ensures r as int == n % 65521
  {
    (n % 65521) as u32
  }

  /** The checksum of `s` continuing from the sums packed in `adler`. */
  function Checksum(adler: u32, s: seq<bv8>): u32 {
    PackSums(SumA(Low(adler) as nat, s), SumB(Low(adler) as nat, High(adler) as nat, s))
  }

  /** The checksum of "abc": 1 + 97 + 98 + 99 = 0x127, and 98 + 196 + 295 = 0x24d in front of it. */
  lemma ChecksumOfAbc()
    ensures Checksum(1, [97, 98, 99]) == 0x024d_0127
  {
    SumsOfAbc();
    PackedAbc();
    hide SumA, SumB, PackSums;
    assert Low(1) == 1 && High(1) == 0;
  }

  lemma PackedAbc()
    ensures PackSums(295, 589) == 0x024d_0127
  {}

  lemma SumsOfAbc()
    ensures SumA(1, [97, 98, 99]) == 295 && SumB(1, 0, [97, 98, 99]) == 589
  {
    NextSum([], 97);
    NextSum([97], 98);
    NextSum([97, 98], 99);
    assert [] + [97 as bv8] == [97] && [97 as bv8] + [98] == [97, 98] && [97 as bv8, 98] + [99] == [97, 98, 99];
    assert SumA(1, []) == 1 && SumB(1, 0, []) == 0;
    hide SumA, SumB;
  }

  lemma NextSum(s: seq<bv8>, c: bv8)
    ensures SumA(1, s + [c]) == SumA(1, s) + c as nat && SumB(1, 0, s + [c]) == SumB(1, 0, s) + SumA(1, s + [c])
  {
    assert (s + [c])[..|s|] == s;
  }

  /** Two sums, reduced and packed. */
  function PackSums(x: int, y: int): u32 {
    Pack(ModBase(x), ModBase(y))
  }

  lemma {:induction false} SumAppend(a: nat, b: nat, s: seq<bv8>, t: seq<bv8>)
    ensures SumA(a, s + t) == SumA(SumA(a, s), t)
    ensures SumB(a, b, s + t) == SumB(SumA(a, s), SumB(a, b, s), t)
    decreases |t|
  {
    if t == [] {
      assert s + t == s;
    } else {
      assert (s + t)[..|s + t| - 1] == s + t[..|t| - 1];
      SumAppend(a, b, s, t[..|t| - 1]);
    }
  }

  /** Both sums depend on their starting values only modulo the base. */
  lemma {:induction false} SumModBase(a: nat, a': nat, b: nat, b': nat, s: seq<bv8>)
    requires a % 65521 == a' % 65521 && b % 65521 == b' % 65521
    ensures SumA(a, s) % 65521 == SumA(a', s) % 65521
    ensures SumB(a, b, s) % 65521 == SumB(a', b', s) % 65521
  {
    if s != [] {
      var front, c := s[..|s| - 1], s[|s| - 1] as nat;
      SumModBase(a, a', b, b', front);
      ModAdd(SumA(a, front), SumA(a', front), c, c);
      ModAdd(SumB(a, b, front), SumB(a', b', front), SumA(a, s), SumA(a', s));
    }
  }

  lemma ModAdd(x: int, x': int, y: int, y': int)
    requires x % 65521 == x' % 65521 && y % 65521 == y' % 65521
    ensures (x + y) % 65521 == (x' + y') % 65521
  {}

  /** NMAX is small enough: the second sum of a block fits in 32 bits, whatever it starts from. */
  lemma {:induction false} SumBounds(a: nat, b: nat, s: seq<bv8>)
    ensures SumA(a, s) <= a + 255 * |s|
    ensures 2 * SumB(a, b, s) <= 2 * b + 2 * |s| * a + 255 * |s| * (|s| + 1)
  {
    if s != [] {
      SumBounds(a, b, s[..|s| - 1]);
      var n := |s| - 1;
      assert 255 * (n + 1) * (n + 2) == 255 * n * (n + 1) + 510 * (n + 1);
      assert 2 * (n + 1) * a == 2 * n * a + 2 * a;
    }
  }

  lemma BlockFits(a: nat, b: nat, s: seq<bv8>)
    requires a < 65536 && b < 65536 && |s| <= NMAX
    ensures SumA(a, s) < 0x1_0000_0000 && SumB(a, b, s) < 0x1_0000_0000
    ensures |s| < 16 ==> SumA(a, s) < 2 * 65521 && SumB(a, b, s) < 32 * 65521
  {
    hide SumA, SumB;
    SumBounds(a, b, s);
    var n := |s|;
    Product(n, a, 65535);
    Product(n, n + 1, 5553);
    if n < 16 {
      Product(n, n + 1, 16);
    }
  }

  lemma Product(k: nat, x: nat, y: nat)
    requires x <= y
    ensures k * x <= k * y && 2 * k * x == 2 * (k * x) && 255 * k * x == 255 * (k * x)
  {}

  // ---------------------------------------------------------------- modulo by subtraction

  /** One line of the MOD macros: take `m` away if it is there. */
  function Take(a: u32, m: u32): (r: u32)
    requires m > 0 && m % BASE == 0
    ensures r % BASE == a % BASE
    ensures a as int < 2 * m as int ==> r < m
  {
    if a >= m then a - m else a
  }

  /** MOD without division. */
  method ModSubtract(a0: u32) returns (a: u32)
    ensures a == a0 % BASE
  {
    a := Take(a0, BASE * 65536);
    a := Take(a, BASE * 32768);
    a := Take(a, BASE * 16384);
    a := Take(a, BASE * 8192);
    a := Take(a, BASE * 4096);
    a := Take(a, BASE * 2048);
    a := Take(a, BASE * 1024);
    a := Take(a, BASE * 512);
    a := Take(a, BASE * 256);
    a := Take(a, BASE * 128);
    a := Take(a, BASE * 64);
    a := Take(a, BASE * 32);
    a := Mod4Subtract(a);
  }

  /** MOD4 without division: only for values that had few multiples of the base added. */
  method Mod4Subtract(a0: u32) returns (a: u32)
    ensures a0 < 32 * BASE ==> a == a0 % BASE
  {
    a := Take(a0, BASE * 16);
    a := Take(a, BASE * 8);
    a := Take(a, BASE * 4);
    a := Take(a, BASE * 2);
    a := Take(a, BASE);
  }

  method Mod(a0: u32, noDivide: bool) returns (a: u32)
    ensures a == a0 % BASE
  {
    if noDivide {
      a := ModSubtract(a0);
    } else {
      a := a0 % BASE;
    }
  }

  method Mod4(a0: u32, noDivide: bool) returns (a: u32)
    requires a0 < 32 * BASE
    ensures a == a0 % BASE
  {
    if noDivide {
      a := Mod4Subtract(a0);
    } else {
      a := a0 % BASE;
    }
  }

  // ---------------------------------------------------------------- the loops

  /** DO1 over the next `n` bytes.  No step wraps around as long as the block stays within NMAX bytes. */
  method DoBytes(a0: nat, b0: nat, block: seq<bv8>, adler: u32, sum2: u32, from: nat, n: nat) returns (x: u32, y: u32)
    requires a0 < 65536 && b0 < 65536 && |block| <= NMAX && from + n <= |block|
    requires adler as int == SumA(a0, block[..from]) && sum2 as int == SumB(a0, b0, block[..from])
    ensures x as int == SumA(a0, block[..from + n]) && y as int == SumB(a0, b0, block[..from + n])
  {
    x, y := adler, sum2;
    for i := from to from + n
      invariant x as int == SumA(a0, block[..i]) && y as int == SumB(a0, b0, block[..i])
    {
      assert block[..i + 1][..i] == block[..i];
      BlockFits(a0, b0, block[..i + 1]);
      x := x + block[i] as u32;
      y := y + x;
    }
  }

  /** `adler` and `sum2` stand for the sums over `s` from `a` and `b`, modulo the base. */
  ghost predicate Stands(a: nat, b: nat, s: seq<bv8>, adler: u32, sum2: u32) {
    && adler < 65536 && sum2 < 65536
    && adler as int % 65521 == SumA(a, s) % 65521
    && sum2 as int % 65521 == SumB(a, b, s) % 65521
  }

  /** Ending a block: what was summed from the stand-ins, reduced, stands for the longer string. */
  lemma Advance(a: nat, b: nat, s: seq<bv8>, t: seq<bv8>, adler: u32, sum2: u32)
    requires Stands(a, b, s, adler, sum2)
    ensures Stands(a, b, s + t, ModBase(SumA(adler as nat, t)), ModBase(SumB(adler as nat, sum2 as nat, t)))
  {
    SumAppend(a, b, s, t);
    SumModBase(adler as nat, SumA(a, s), sum2 as nat, SumB(a, b, s), t);
  }

  /** Sixteen bytes at a time over a block, then the bytes left over, then the two reductions. */
  method SumBlock(block: seq<bv8>, adler: u32, sum2: u32, noDivide: bool) returns (x: u32, y: u32)
    requires adler < 65536 && sum2 < 65536 && |block| <= NMAX
    ensures x == ModBase(SumA(adler as nat, block))
    ensures y == ModBase(SumB(adler as nat, sum2 as nat, block))
  {
    var a, b := adler as nat, sum2 as nat;
    x, y := adler, sum2;
    var p := 0;
    while |block| - p >= 16
      invariant p <= |block|
      invariant x as int == SumA(a, block[..p]) && y as int == SumB(a, b, block[..p])
    {
      x, y := DoBytes(a, b, block, x, y, p, 16);
      p := p + 16;
    }
    x, y := DoBytes(a, b, block, x, y, p, |block| - p);
    assert block[..|block|] == block;
    x := Mod(x, noDivide);
    y := Mod(y, noDivide);
  }

  /** adler32 on one byte: two conditional subtractions instead of two reductions. */
  method AdlerOne(a: u32, b: u32, c: bv8) returns (x: u32, y: u32)
    requires a < 65536 && b < 65536
    ensures x == ModBase(SumA(a as nat, [c]))
    ensures y < 65536 && (y == ModBase(SumB(a as nat, b as nat, [c])) <==> b + (a + c as u32) % BASE < 2 * BASE)
  {
    assert [c][..0] == [];
    assert SumA(a as nat, [c]) == a as nat + c as nat;
    x, y := a + c as u32, b;
    if x >= BASE {
      x := x - BASE;
    }
    y := y + x;
    if y >= BASE {
      y := y - BASE;
    }
  }

  /** adler32 on fewer than sixteen bytes: one conditional subtraction and a short modulo. */
  method AdlerShort(a: u32, b: u32, s: seq<bv8>, noDivide: bool) returns (x: u32, y: u32)
    requires a < 65536 && b < 65536 && |s| < 16
    ensures x == ModBase(SumA(a as nat, s)) && y == ModBase(SumB(a as nat, b as nat, s))
  {
    x, y := DoBytes(a as nat, b as nat, s, a, b, 0, |s|);
    assert s[..|s|] == s;
    BlockFits(a as nat, b as nat, s);
    if x >= BASE {
      x := x - BASE;
    }
    y := Mod4(y, noDivide);
  }

  lemma NoBytes(a: nat, b: nat)
    ensures SumA(a, []) == a && SumB(a, b, []) == b
  {}

  /** adler32 on sixteen bytes or more: whole NMAX blocks, then the rest. */
  method AdlerLong(a: u32, b: u32, s: seq<bv8>, noDivide: bool) returns (x: u32, y: u32)
    requires a < 65536 && b < 65536 && |s| >= 16
    ensures x == ModBase(SumA(a as nat, s)) && y == ModBase(SumB(a as nat, b as nat, s))
  {
    hide SumA, SumB;
    x, y := a, b;
    var p := 0;
    assert Stands(a as nat, b as nat, s[..0], a, b) by {
      NoBytes(a as nat, b as nat);
    }
    while |s| - p >= NMAX
      invariant p <= |s| && Stands(a as nat, b as nat, s[..p], x, y)
      invariant p > 0 ==> x < BASE && y < BASE
    {
      var block := s[p..p + NMAX];
      Advance(a as nat, b as nat, s[..p], block, x, y);
      assert s[..p] + block == s[..p + NMAX];
      x, y := SumBlock(block, x, y, noDivide);
      p := p + NMAX;
    }
    if p < |s| {
      var block := s[p..];
      Advance(a as nat, b as nat, s[..p], block, x, y);
      assert s[..p] + block == s;
      x, y := SumBlock(block, x, y, noDivide);
    } else {
      assert s[..p] == s;
    }
  }

  /** adler32.  The source reads `buf[0]` before it looks for a null buffer, so a null buffer
      may not come with length 1.  The one-byte form is exact just when the starting second sum
      is small enough for a single subtraction, as every reduced sum is. */
  method Adler32(adler0: u32, buf: array?<bv8>, len: nat, noDivide: bool) returns (r: u32)
    requires if buf == null then len != 1 else len <= buf.Length
    ensures buf == null ==> r == 1
    ensures buf != null ==>
      (r == Checksum(adler0, buf[..len])
       <==> !(len == 1 && High(adler0) + (Low(adler0) + buf[0] as u32) % BASE >= 2 * BASE))
  {
    var x, y := Low(adler0), High(adler0);
    if len == 1 {
      assert buf[..len] == [buf[0]];
      x, y := AdlerOne(x, y, buf[0]);
      return Pack(x, y);
    }
    if buf == null {
      return 1;
    }
    if len < 16 {
      x, y := AdlerShort(x, y, buf[..len], noDivide);
    } else {
      x, y := AdlerLong(x, y, buf[..len], noDivide);
    }
    r := Pack(x, y);
  }

  /** A zero byte after two sums as large as they can be: the second one is not reduced. */
  method NotReduced() returns (r: u32)
    ensures r != Checksum(Pack(65520, 65535), [0])
  {
    PackUnpack(65520, 65535);
    var buf := new bv8[1](i => 0);
    assert buf[..1] == [0] && buf[0] as u32 == 0;
    hide Checksum, Pack, Low, High;
    r := Adler32(Pack(65520, 65535), buf, 1, false);
  }

  // ---------------------------------------------------------------- combination

  /** The second sum grows by the starting value once per byte. */
  lemma {:induction false} SumBSplit(a: nat, b: nat, s: seq<bv8>)
    ensures SumA(a, s) == a + SumA(0, s)
    ensures SumB(a, b, s) == b + |s| * a + SumB(0, 0, s)
  {
    if s != [] {
      SumBSplit(a, b, s[..|s| - 1]);
      assert |s| * a == (|s| - 1) * a + a;
    }
  }

  /** adler32_combine_, its conditional subtractions: `product` is the reduced product of `rem` and `a1`. They
      reduce the first sum unless it is three times the base or more, and the second unless it is four times. */
  method CombineSums(a1: u32, b1: u32, a2: u32, b2: u32, rem: u32, product: u32) returns (sum1: u32, sum2: u32)
    requires a1 < 65536 && b1 < 65536 && a2 < 65536 && b2 < 65536 && rem < BASE && product < BASE
    ensures sum1 as int == (a1 as int + a2 as int - 1) % 65521 <==> a1 + a2 <= 2 * BASE
    ensures sum2 as int == (product as int + b1 as int + b2 as int - rem as int) % 65521
            <==> product + b1 + b2 + BASE - rem < 4 * BASE
  {
    sum1 := a1 + a2 + BASE - 1;
    sum2 := product + b1 + b2 + BASE - rem;
    if sum1 >= BASE {
      sum1 := sum1 - BASE;
    }
    if sum1 >= BASE {
      sum1 := sum1 - BASE;
    }
    if sum2 >= BASE * 2 {
      sum2 := sum2 - BASE * 2;
    }
    if sum2 >= BASE {
      sum2 := sum2 - BASE;
    }
  }

  /** Checksums that are not reduced, the second one of one byte, which makes the remainder 1 and the product 65520:
      the sums should be 12 and 26, and neither is. */
  method NotCombined() returns (sum1: u32, sum2: u32)
    ensures (65520 + 65535 - 1) % 65521 == 12 && sum1 != 12
    ensures (65520 + 65535 + 65535 - 1) % 65521 == 26 && sum2 != 26
  {
    sum1, sum2 := CombineSums(65520, 65535, 65535, 65535, 1, 65520);
  }

  /** The conditional subtractions are enough for these checksums: see CombineSums. They are for all reduced ones. */
  predicate Combinable(adler1: u32, adler2: u32, len2: nat) {
    && Low(adler1) + Low(adler2) <= 2 * BASE
    && ModBase((len2 % 65521) * Low(adler1) as int) + High(adler1) + High(adler2) + BASE - ModBase(len2) < 4 * BASE
  }

  lemma ReducedCombinable(adler1: u32, adler2: u32, len2: nat)
    requires Low(adler1) < BASE && High(adler1) < BASE && Low(adler2) < BASE && High(adler2) < BASE
    ensures Combinable(adler1, adler2, len2)
  {}

  /** adler32_combine_, in 32-bit variables. */
  method Adler32Combine(adler1: u32, adler2: u32, len2: nat, noDivide: bool) returns (r: u32)
    requires Combinable(adler1, adler2, len2)
    ensures r == Combined(adler1, adler2, len2)
  {
    var rem := ModBase(len2);
    var sum1 := Low(adler1);
    Product(rem as nat, sum1 as nat, 65535);
    var sum2 := Mod(rem * sum1, noDivide);
    var product := sum2;
    sum1, sum2 := CombineSums(sum1, High(adler1), Low(adler2), High(adler2), rem, product);
    CombineSecond(len2, Low(adler1) as int, High(adler1) as int + High(adler2) as int);
    TimesIs(len2, Low(adler1) as int - 1);
    r := Pack(sum1, sum2);
  }

  lemma CombineSecond(n: nat, a: int, b: int)
    ensures (n * (a - 1) + b) % 65521 == (((n % 65521) * a) % 65521 + b - n % 65521) % 65521
  {
    var r := n % 65521;
    ModProduct(n, a - 1);
    ProductLess(r, a);
    ModAdd(n * (a - 1), (r * a) % 65521 - r, b, b);
  }

  lemma ProductLess(n: int, k: int)
    ensures n * (k - 1) == n * k - n
    ensures (n * (k - 1)) % 65521 == ((n * k) % 65521 - n) % 65521
  {
    ModMinus(n * k, n);
    assert n * (k - 1) == n * k - n;
  }

  lemma ModMinus(p: int, n: int)
    ensures (p - n) % 65521 == (p % 65521 - n) % 65521
  {}

  /** Both sums of a concatenation from the sums of its parts, the second part having started from 1. */
  function Combined(adler1: u32, adler2: u32, len2: nat): u32 {
    PackSums(Low(adler1) as int + Low(adler2) as int - 1,
             Times(len2, Low(adler1) as int - 1) + (High(adler1) as int + High(adler2) as int))
  }

  lemma ModProduct(n: nat, k: int)
    ensures (n * k) % 65521 == ((n % 65521) * k) % 65521
  {
    var q, r := n / 65521, n % 65521;
    Distribute(q, r, k);
    AddMultiple(n * k, r * k, q * k);
  }

  lemma Distribute(q: int, r: int, k: int)
    ensures (65521 * q + r) * k == r * k + 65521 * (q * k)
  {}

  lemma AddMultiple(z: int, x: int, t: int)
    requires z == x + 65521 * t
    ensures z % 65521 == x % 65521
  {}

  /** `x` modulo the base; the lemmas about it are all that the proofs below use. */
  function Reduced(x: int): int { x % 65521 }

  /** The product, as a sum. */
  function Times(n: nat, k: int): int { if n == 0 then 0 else Times(n - 1, k) + k }

  lemma {:induction false} TimesIs(n: nat, k: int)
    ensures Times(n, k) == n * k
  {
    if n > 0 {
      TimesIs(n - 1, k);
      assert n * k == (n - 1) * k + k;
    }
  }

  lemma ReducedSum(x: int, x': int, y: int, y': int)
    requires Reduced(x) == Reduced(x') && Reduced(y) == Reduced(y')
    ensures Reduced(x + y) == Reduced(x' + y')
  {}

  lemma ReducedTwice(x: int)
    ensures Reduced(Reduced(x)) == Reduced(x)
  {}

  /** The reduced sums of two parts, and those of the whole. */
  lemma SumsCombine(a: nat, b: nat, s: seq<bv8>, t: seq<bv8>, m: int, k: int, p: int, q: int)
    requires m == Reduced(SumA(a, s)) && k == Reduced(SumB(a, b, s)) && p == Reduced(SumA(1, t))
             && q == Reduced(SumB(1, 0, t))
    ensures Reduced(m + p - 1) == Reduced(SumA(a, s + t))
    ensures Reduced(Times(|t|, m) - |t| + (k + q)) == Reduced(SumB(a, b, s + t))
  {
    hide SumA, SumB, Reduced, Times;
    SumAppend(a, b, s, t);
    FromReduced(SumA(a, s), SumB(a, b, s), m, k, t);
    SplitByTimes(m, k, t);
    SplitByTimes(1, 0, t);
    TimesOne(|t|);
    JoinSums(m, k, p, q, |t|, SumA(0, t), SumB(0, 0, t));
  }

  lemma TimesOne(n: nat)
    ensures Times(n, 1) == n
  {
    TimesIs(n, 1);
  }

  /** Starting from the reduced sums changes nothing after reduction. */
  lemma FromReduced(x: nat, y: nat, m: int, k: int, t: seq<bv8>)
    requires m == Reduced(x) && k == Reduced(y)
    ensures m >= 0 && k >= 0 && Reduced(SumA(x, t)) == Reduced(SumA(m, t))
            && Reduced(SumB(x, y, t)) == Reduced(SumB(m, k, t))
  {
    ReducedTwice(x);
    ReducedTwice(y);
    SumModBase(x, m, y, k, t);
  }

  lemma JoinSums(m: int, k: int, p: int, q: int, n: nat, y: int, z: int)
    requires p == Reduced(1 + y) && q == Reduced(n + z)
    ensures Reduced(m + p - 1) == Reduced(m + y) && Reduced(Times(n, m) - n + (k + q)) == Reduced(k + Times(n, m) + z)
  {
    hide *;
    ReducedTwice(1 + y);
    ReducedTwice(n + z);
    ReducedSum(m - 1, m - 1, p, 1 + y);
    ReducedSum(Times(n, m) - n + k, Times(n, m) - n + k, q, n + z);
  }

  lemma SplitByTimes(a: nat, b: nat, s: seq<bv8>)
    ensures SumA(a, s) == a + SumA(0, s) && SumB(a, b, s) == b + Times(|s|, a) + SumB(0, 0, s)
  {
    SumBSplit(a, b, s);
    TimesIs(|s|, a);
  }

  lemma SamePack(x: int, y: int, x': int, y': int)
    requires Reduced(x) == Reduced(x') && Reduced(y) == Reduced(y')
    ensures PackSums(x, y) == PackSums(x', y')
  {}

  lemma CombinedIs(x1: u32, x2: u32, n: nat, m: int, k: int, p: int, q: int)
    requires Low(x1) as int == m && High(x1) as int == k && Low(x2) as int == p && High(x2) as int == q
    ensures Combined(x1, x2, n) == PackSums(m + p - 1, Times(n, m) - n + (k + q))
  {
    hide PackSums, Low, High, Times;
    TimesIs(n, m - 1);
    TimesIs(n, m);
    assert n * (m - 1) == n * m - n;
  }

  lemma ChecksumIs(adler: u32, s: seq<bv8>)
    ensures Checksum(adler, s) == PackSums(SumA(Low(adler) as nat, s), SumB(Low(adler) as nat, High(adler) as nat, s))
  {
    hide PackSums, Low, High, SumA, SumB;
  }

  lemma LowHighOne()
    ensures Low(1) == 1 && High(1) == 0
  {}

  /** The checksums of two strings combine to the checksum of their concatenation. */
  lemma CombineConcat(adler0: u32, s: seq<bv8>, t: seq<bv8>)
    ensures Combined(Checksum(adler0, s), Checksum(1, t), |t|) == Checksum(adler0, s + t)
  {
    hide *;
    LowHighOne();
    var a, b, n := Low(adler0) as nat, High(adler0) as nat, |t|;
    var m, k, p, q := Reduced(SumA(a, s)), Reduced(SumB(a, b, s)), Reduced(SumA(1, t)), Reduced(SumB(1, 0, t));
    ChecksumParts(adler0, s);
    ChecksumParts(1, t);
    ChecksumIs(adler0, s + t);
    CombinedIs(Checksum(adler0, s), Checksum(1, t), n, m, k, p, q);
    SumsCombine(a, b, s, t, m, k, p, q);
    SamePack(m + p - 1, Times(n, m) - n + (k + q), SumA(a, s + t), SumB(a, b, s + t));
  }

  lemma ChecksumParts(adler: u32, s: seq<bv8>)
    ensures Low(Checksum(adler, s)) as int == Reduced(SumA(Low(adler) as nat, s))
    ensures High(Checksum(adler, s)) as int == Reduced(SumB(Low(adler) as nat, High(adler) as nat, s))
  {
    PackUnpack(ModBase(SumA(Low(adler) as nat, s)), ModBase(SumB(Low(adler) as nat, High(adler) as nat, s)));
  }
}
