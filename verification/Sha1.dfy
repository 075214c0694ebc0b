/** SHA-1 (sha-1.c): the sixteen-word circular schedule, streaming input and padding, proved against
    sections 4, 5 and 7 of FIPS 180-1. */
module Sha1 {
  import opened Memory
  import opened CWords

  // ---------------------------------------------------------------- FIPS 180-1

  type Words = seq<bv32>

  /** The circular left shift S^n. */
  function Rotl(x: bv32, n: nat): bv32
    requires n <= 32
  {
    (x << n) | (x >> (32 - n))
  }

  function F0(b: bv32, c: bv32, d: bv32): bv32 { (b & c) | (!b & d) }
  function F1(b: bv32, c: bv32, d: bv32): bv32 { (b ^ c) ^ d }
  function F2(b: bv32, c: bv32, d: bv32): bv32 { (b & c) | (b & d) | (c & d) }
  function F3(b: bv32, c: bv32, d: bv32): bv32 { (b ^ c) ^ d }
  function Xor4(a: bv32, b: bv32, c: bv32, d: bv32): bv32 { a ^ b ^ c ^ d }
  function Add(a: bv32, b: bv32): bv32 { a + b }

  const K: seq<bv32> := [0x5a82_7999, 0x6ed9_eba1, 0x8f1b_bcdc, 0xca62_c1d6]

  function F(t: nat, b: bv32, c: bv32, d: bv32): bv32 {
    if t < 20 then F0(b, c, d) else if t < 40 then F1(b, c, d) else if t < 60 then F2(b, c, d) else F3(b, c, d)
  }

  /** Word `t` of the eighty-word expansion of a block of sixteen. */
  function W(block: Words, t: nat): bv32
    requires |block| == 16
  {
    if t < 16 then block[t]
    else Rotl(Xor4(W(block, t - 3), W(block, t - 8), W(block, t - 14), W(block, t - 16)), 1)
  }

  datatype Vars = Vars(a: bv32, b: bv32, c: bv32, d: bv32, e: bv32)

  function Round(v: Vars, t: nat, w: bv32): Vars
    requires t < 80
  {
    var temp := Add(Add(Add(Add(Rotl(v.a, 5), F(t, v.b, v.c, v.d)), v.e), w), K[t / 20]);
    Vars(temp, v.a, Rotl(v.b, 30), v.c, v.d)
  }

  /** The variables after `n` rounds over a block. */
  function Rounds(h: Vars, block: Words, n: nat): Vars
    requires |block| == 16 && n <= 80
  {
    if n == 0 then h else Round(Rounds(h, block, n - 1), n - 1, W(block, n - 1))
  }

  function Compress(h: Vars, block: Words): Vars
    requires |block| == 16
  {
    var v := Rounds(h, block, 80);
    Vars(Add(h.a, v.a), Add(h.b, v.b), Add(h.c, v.c), Add(h.d, v.d), Add(h.e, v.e))
  }

  /** A word stored least significant byte first. */
  function LittleWord(b0: bv8, b1: bv8, b2: bv8, b3: bv8): bv32 {
    (b0 as bv32) | ((b1 as bv32) << 8) | ((b2 as bv32) << 16) | ((b3 as bv32) << 24)
  }

  /** A word stored most significant byte first. */
  function BigWord(b0: bv8, b1: bv8, b2: bv8, b3: bv8): bv32 {
    LittleWord(b3, b2, b1, b0)
  }

  function WordsOf(bytes: seq<bv8>): (w: Words)
    requires |bytes| == 64
    ensures |w| == 16
  {
    seq(16, i requires 0 <= i < 16 => BigWord(bytes[4 * i], bytes[4 * i + 1], bytes[4 * i + 2], bytes[4 * i + 3]))
  }

  const IV := Vars(0x6745_2301, 0xefcd_ab89, 0x98ba_dcfe, 0x1032_5476, 0xc3d2_e1f0)

  /** The chaining value after the first `n` blocks of a message. */
  function Blocks(h: Vars, s: seq<bv8>, n: nat): Vars
    requires 64 * n <= |s|
  {
    if n == 0 then h else Compress(Blocks(h, s, n - 1), WordsOf(s[64 * (n - 1)..64 * n]))
  }

  /** The 64-bit number `n`, most significant byte first. */
  function BigEndian8(n: nat): (s: seq<bv8>)
    requires n < TWO64
    ensures |s| == 8
  {
    [(n / 0x100_0000_0000_0000) as bv8, (n / 0x1_0000_0000_0000 % 256) as bv8, (n / 0x100_0000_0000 % 256) as bv8,
     (n / 0x1_0000_0000 % 256) as bv8, (n / 0x100_0000 % 256) as bv8, (n / 0x1_0000 % 256) as bv8,
     (n / 256 % 256) as bv8, (n % 256) as bv8]
  }

  lemma WrapAdd(a: nat, b: nat)
    ensures Wrap64(Wrap64(a) + b) == Wrap64(a + b)
    ensures a < TWO64 ==> Wrap64(a) == a
  {}

  /** The number of zero bytes of the padding: the least that completes a block. */
  function PadZeros(n: nat): nat { if n % 64 < 56 then 55 - n % 64 else 119 - n % 64 }

  /** The padding of a message of `n` bytes whose bit count is given as `bits`. */
  function Padding(n: nat, bits: nat): seq<bv8>
    requires bits < TWO64
  {
    [0x80] + Zeros(PadZeros(n)) + BigEndian8(bits)
  }

  function BytesOf(w: bv32): seq<bv8> {
    [((w >> 24) & 0xff) as bv8, ((w >> 16) & 0xff) as bv8, ((w >> 8) & 0xff) as bv8, (w & 0xff) as bv8]
  }

  function Output(h: Vars): (s: seq<bv8>)
    ensures |s| == 20
  {
    BytesOf(h.a) + BytesOf(h.b) + BytesOf(h.c) + BytesOf(h.d) + BytesOf(h.e)
  }

  /** The message digest. */
  function Digest(msg: seq<bv8>): seq<bv8>
    requires 8 * |msg| < TWO64
  {
    var padded := msg + Padding(|msg|, 8 * |msg|);
    Output(Blocks(IV, padded, |padded| / 64))
  }

  // ---------------------------------------------------------------- one byte at a time

  /** The context without its bit counter: chaining value, block being filled, bytes in it. */
  datatype Core = Core(h: Vars, m: seq<bv8>, count: nat) {
    ghost predicate Valid() { |m| == 64 && count < 64 }
  }

  function Put(c: Core, x: bv8): (r: Core)
    requires c.Valid()
    ensures r.Valid()
  {
    var m := c.m[c.count := x];
    if c.count + 1 < 64 then Core(c.h, m, c.count + 1) else Core(Compress(c.h, WordsOf(m)), Zeros(64), 0)
  }

  function Pour(c: Core, s: seq<bv8>): (r: Core)
    requires c.Valid()
    ensures r.Valid()
  {
    if s == [] then c else Put(Pour(c, s[..|s| - 1]), s[|s| - 1])
  }

  /** Input may be divided anywhere. */
  lemma {:induction false} PourSplit(c: Core, s: seq<bv8>, t: seq<bv8>)
    requires c.Valid()
    ensures Pour(c, s + t) == Pour(Pour(c, s), t)
    decreases |t|
  {
    if t == [] {
      assert s + t == s;
    } else {
      assert (s + t)[..|s + t| - 1] == s + t[..|t| - 1];
      PourSplit(c, s, t[..|t| - 1]);
    }
  }

  /** A piece that fits in the block is copied into it; a block that becomes full is compressed. */
  lemma {:induction false} PourPiece(c: Core, s: seq<bv8>)
    requires c.Valid() && c.count + |s| <= 64
    ensures var m := Splice(c.m, c.count, s);
            Pour(c, s) == if c.count + |s| < 64 then Core(c.h, m, c.count + |s|)
                          else Core(Compress(c.h, WordsOf(m)), Zeros(64), 0)
  {
    hide Compress;
    var m := Splice(c.m, c.count, s);
    if s == [] {
      assert m == c.m;
    } else {
      var t := s[..|s| - 1];
      PourPiece(c, t);
      assert m == Splice(c.m, c.count, t)[c.count + |t| := s[|s| - 1]];
    }
  }

  /** The context with `rest` in its block, the block not full. */
  function Holding(h: Vars, rest: seq<bv8>): (c: Core)
    requires |rest| < 64
    ensures c.Valid()
  {
    Core(h, rest + Zeros(64 - |rest|), |rest|)
  }

  lemma PutRest(h: Vars, rest: seq<bv8>, x: bv8)
    requires |rest| < 64
    ensures Put(Holding(h, rest), x)
         == if |rest| < 63 then Holding(h, rest + [x]) else Holding(Compress(h, WordsOf(rest + [x])), [])
  {
    hide Compress, WordsOf;
    var m := (rest + Zeros(64 - |rest|))[|rest| := x];
    assert [] + Zeros(64) == Zeros(64);
    if |rest| < 63 {
      assert m == rest + [x] + Zeros(63 - |rest|);
    } else {
      assert m == rest + [x];
    }
  }

  lemma NextPoured(h: Vars, t: seq<bv8>, x: bv8, k: nat)
    requires 64 * k <= |t| < 64 * k + 63
    requires Pour(Core(h, Zeros(64), 0), t) == Holding(Blocks(h, t, k), t[64 * k..])
    ensures Pour(Core(h, Zeros(64), 0), t + [x]) == Holding(Blocks(h, t + [x], k), (t + [x])[64 * k..])
  {
    hide Put, Holding, Blocks, Pour;
    BlocksPrefix(h, t, t + [x], k);
    PourOneMore(Core(h, Zeros(64), 0), t, x);
    PutRest(Blocks(h, t, k), t[64 * k..], x);
    assert (t + [x])[64 * k..] == t[64 * k..] + [x];
  }

  lemma BlockPoured(h: Vars, t: seq<bv8>, x: bv8, k: nat)
    requires |t| == 64 * k + 63
    requires Pour(Core(h, Zeros(64), 0), t) == Holding(Blocks(h, t, k), t[64 * k..])
    ensures Pour(Core(h, Zeros(64), 0), t + [x]) == Holding(Blocks(h, t + [x], k + 1), [])
  {
    hide Put, Holding, Compress, WordsOf, Pour;
    BlocksPrefix(h, t, t + [x], k);
    PourOneMore(Core(h, Zeros(64), 0), t, x);
    PutRest(Blocks(h, t, k), t[64 * k..], x);
    assert (t + [x])[64 * k..64 * (k + 1)] == t[64 * k..] + [x];
  }

  lemma NothingPoured(h: Vars)
    ensures Pour(Core(h, Zeros(64), 0), []) == Holding(h, []) && Blocks(h, [], 0) == h
  {
    hide Compress, Put;
    assert [] + Zeros(64) == Zeros(64);
  }

  lemma PourOneMore(c: Core, t: seq<bv8>, x: bv8)
    requires c.Valid()
    ensures Pour(c, t + [x]) == Put(Pour(c, t), x)
  {
    assert (t + [x])[..|t|] == t;
  }

  /** From a fresh context, the bytes poured in are exactly the compressed blocks and the rest. */
  lemma {:induction false} PourBlocks(h: Vars, s: seq<bv8>, n: nat)
    requires 64 * n <= |s| < 64 * n + 64
    ensures Pour(Core(h, Zeros(64), 0), s) == Holding(Blocks(h, s, n), s[64 * n..])
    decreases |s|
  {
    hide Pour, Holding, Blocks;
    if s == [] {
      NothingPoured(h);
      assert s[64 * n..] == [];
    } else {
      var t, x := s[..|s| - 1], s[|s| - 1];
      assert t + [x] == s;
      if |t| >= 64 * n {
        PourBlocks(h, t, n);
        NextPoured(h, t, x, n);
      } else {
        PourBlocks(h, t, n - 1);
        BlockPoured(h, t, x, n - 1);
        assert s[64 * n..] == [];
      }
    }
  }

  lemma {:induction false} BlocksPrefix(h: Vars, s: seq<bv8>, t: seq<bv8>, n: nat)
    requires s <= t && 64 * n <= |s|
    ensures Blocks(h, s, n) == Blocks(h, t, n)
  {
    hide Compress, WordsOf;
    if n > 0 {
      BlocksPrefix(h, s, t, n - 1);
      assert s[64 * (n - 1)..64 * n] == t[64 * (n - 1)..64 * n];
    }
  }

  // ---------------------------------------------------------------- sha1_step

  /** The sixteen words hold the latest sixteen of the expansion, each at its index modulo 16. */
  ghost predicate Circular(w: seq<bv32>, block: Words, t: nat) {
    && |w| == 16 && |block| == 16
    && forall j {:trigger W(block, j)} :: 0 <= j && t - 16 <= j && (j < t || j < 16) ==> w[j % 16] == W(block, j)
  }

  lemma CircularAt(w: seq<bv32>, block: Words, t: nat, j: nat)
    requires Circular(w, block, t) && t - 16 <= j && (j < t || j < 16)
    ensures w[j % 16] == W(block, j)
  {}

  function NextWord(w: seq<bv32>, t: nat): bv32
    requires |w| == 16
  {
    var s := t % 16;
    if t < 16 then w[s] else Rotl(Xor4(w[(s + 13) % 16], w[(s + 8) % 16], w[(s + 2) % 16], w[s]), 1)
  }

  lemma Around(t: nat)
    requires t >= 16
    ensures (t % 16 + 13) % 16 == (t - 3) % 16 && (t % 16 + 8) % 16 == (t - 8) % 16
    ensures (t % 16 + 2) % 16 == (t - 14) % 16 && t % 16 == (t - 16) % 16
  {
    var q, r := t / 16 - 1, t % 16;
    TurnsOf16(r + 13, q);
    TurnsOf16(r + 8, q);
    TurnsOf16(r + 2, q);
    TurnsOf16(r, q);
  }

  lemma TurnsOf16(x: int, q: int)
    ensures (x + 16 * q) % 16 == x % 16
  {}

  lemma CircularNext(w: seq<bv32>, block: Words, t: nat)
    requires Circular(w, block, t)
    ensures NextWord(w, t) == W(block, t)
    ensures Circular(w[t % 16 := NextWord(w, t)], block, t + 1)
  {
    hide Rotl, Xor4, Circular;
    assert |w| == 16 by { CircularLength(w, block, t); }
    if t >= 16 {
      CircularAt(w, block, t, t - 3);
      CircularAt(w, block, t, t - 8);
      CircularAt(w, block, t, t - 14);
      CircularAt(w, block, t, t - 16);
      Around(t);
    } else {
      CircularAt(w, block, t, t);
    }
    CircularKeep(w, block, t);
  }

  lemma CircularLength(w: seq<bv32>, block: Words, t: nat)
    requires Circular(w, block, t)
    ensures |w| == 16 && |block| == 16
  {}

  lemma CircularKeep(w: seq<bv32>, block: Words, t: nat)
    requires Circular(w, block, t)
    ensures Circular(w[t % 16 := W(block, t)], block, t + 1)
  {
    hide W;
    var w' := w[t % 16 := W(block, t)];
    forall j | 0 <= j && t - 15 <= j && (j < t + 1 || j < 16) ensures w'[j % 16] == W(block, j) {
      if j != t {
        CircularAt(w, block, t, j);
        assert j % 16 != t % 16;
      }
    }
  }

  /** One turn: the next word of the schedule in place of the oldest, and one round with it. */
  method Turn(w: array<bv32>, t: nat, v0: Vars, f: bv32, ghost block: Words) returns (v: Vars)
    requires w.Length == 16 && t < 80 && Circular(w[..], block, t)
    requires f == F(t, v0.b, v0.c, v0.d)
    modifies w
    ensures Circular(w[..], block, t + 1) && v == Round(v0, t, W(block, t))
  {
    hide Rotl, Xor4, Add, F, W, Circular;
    var s := t % 16;
    CircularNext(w[..], block, t);
    ghost var before := w[..];
    if t >= 16 {
      w[s] := Rotl(Xor4(w[(s + 13) % 16], w[(s + 8) % 16], w[(s + 2) % 16], w[s]), 1);
    }
    assert w[..] == before[s := NextWord(before, t)];
    var tmp := Add(Add(Add(Add(Rotl(v0.a, 5), f), v0.e), w[s]), K[t / 20]);
    v := Vars(tmp, v0.a, Rotl(v0.b, 30), v0.c, v0.d);
  }

  lemma FirstRound(v: Vars, block: Words)
    requires |block| == 16
    ensures Rounds(v, block, 0) == v && Circular(block, block, 0)
  {}

  lemma NextRound(v: Vars, block: Words, t: nat)
    requires |block| == 16 && t < 80
    ensures Rounds(v, block, t + 1) == Round(Rounds(v, block, t), t, W(block, t))
  {
    hide Round, W;
  }

  // The four groups of twenty rounds, each with its own function of three words.

  method Group0(w: array<bv32>, v1: Vars, ghost v0: Vars, ghost block: Words) returns (v: Vars)
    requires w.Length == 16 == |block| && Circular(w[..], block, 0) && v1 == Rounds(v0, block, 0)
    modifies w
    ensures Circular(w[..], block, 20) && v == Rounds(v0, block, 20)
  {
    hide Round, F0, W, Rounds, Circular;
    v := v1;
    for t := 0 to 20
      invariant Circular(w[..], block, t) && v == Rounds(v0, block, t)
    {
      NextRound(v0, block, t);
      v := Turn(w, t, v, F0(v.b, v.c, v.d), block);
    }
  }

  method Group1(w: array<bv32>, v1: Vars, ghost v0: Vars, ghost block: Words) returns (v: Vars)
    requires w.Length == 16 == |block| && Circular(w[..], block, 20) && v1 == Rounds(v0, block, 20)
    modifies w
    ensures Circular(w[..], block, 40) && v == Rounds(v0, block, 40)
  {
    hide Round, F1, W, Rounds, Circular;
    v := v1;
    for t := 20 to 40
      invariant Circular(w[..], block, t) && v == Rounds(v0, block, t)
    {
      NextRound(v0, block, t);
      v := Turn(w, t, v, F1(v.b, v.c, v.d), block);
    }
  }

  method Group2(w: array<bv32>, v1: Vars, ghost v0: Vars, ghost block: Words) returns (v: Vars)
    requires w.Length == 16 == |block| && Circular(w[..], block, 40) && v1 == Rounds(v0, block, 40)
    modifies w
    ensures Circular(w[..], block, 60) && v == Rounds(v0, block, 60)
  {
    hide Round, F2, W, Rounds, Circular;
    v := v1;
    for t := 40 to 60
      invariant Circular(w[..], block, t) && v == Rounds(v0, block, t)
    {
      NextRound(v0, block, t);
      v := Turn(w, t, v, F2(v.b, v.c, v.d), block);
    }
  }

  method Group3(w: array<bv32>, v1: Vars, ghost v0: Vars, ghost block: Words) returns (v: Vars)
    requires w.Length == 16 == |block| && Circular(w[..], block, 60) && v1 == Rounds(v0, block, 60)
    modifies w
    ensures Circular(w[..], block, 80) && v == Rounds(v0, block, 80)
  {
    hide Round, F3, W, Rounds, Circular;
    v := v1;
    for t := 60 to 80
      invariant Circular(w[..], block, t) && v == Rounds(v0, block, t)
    {
      NextRound(v0, block, t);
      v := Turn(w, t, v, F3(v.b, v.c, v.d), block);
    }
  }

  /** The rounds of a block. */
  method RunRounds(w: array<bv32>, v0: Vars) returns (v: Vars)
    requires w.Length == 16
    modifies w
    ensures v == Rounds(v0, old(w[..]), 80)
  {
    hide Round, W, Rounds, Circular;
    ghost var block := w[..];
    FirstRound(v0, block);
    v := Group0(w, v0, v0, block);
    v := Group1(w, v, v0, block);
    v := Group2(w, v, v0, block);
    v := Group3(w, v, v0, block);
  }

  class Sha1Ctxt {
    const h: array<bv32>
    const m: array<bv8>
    var count: nat  // an unsigned char that never exceeds 127
    var bits: nat   // the 64-bit counter c

    ghost predicate Valid()
      reads this
    {
      h.Length == 5 && m.Length == 64 && count < 64 && bits < TWO64
    }

    ghost function State(): (c: Core)
      requires Valid()
      reads this, h, m
      ensures c.Valid()
    {
      Core(Vars(h[0], h[1], h[2], h[3], h[4]), m[..], count)
    }

    /** sha1_init. */
    constructor ()
      ensures Valid() && fresh(h) && fresh(m)
      ensures State() == Core(IV, Zeros(64), 0) && bits == 0
    {
      h := new bv32[5];
      m := new bv8[64](i => 0);
      count, bits := 0, 0;
      new;
      h[0], h[1], h[2], h[3], h[4] := IV.a, IV.b, IV.c, IV.d, IV.e;
      assert m[..] == Zeros(64);
    }

    /** The words of the block, as a little-endian machine reads them after swapping the bytes in place. */
    method LoadWords() returns (w: array<bv32>)
      requires m.Length == 64
      modifies m
      ensures fresh(w) && w[..] == WordsOf(old(m[..]))
    {
      var t := m[..];
      forall i | 0 <= i < 64 {
        m[i] := t[i / 4 * 4 + 3 - i % 4];
      }
      w := new bv32[16];
      for i := 0 to 16
        invariant forall k :: 0 <= k < 64 ==> m[k] == t[k / 4 * 4 + 3 - k % 4]
        invariant forall k :: 0 <= k < i ==> w[k] == WordsOf(t)[k]
      {
        w[i] := LittleWord(m[4 * i], m[4 * i + 1], m[4 * i + 2], m[4 * i + 3]);
      }
    }

    /** sha1_step: compresses the block and clears it. */
    method Step()
      requires Valid()
      modifies h, m
      ensures State() == Core(Compress(old(State()).h, WordsOf(old(m[..]))), Zeros(64), count)
    {
      ghost var block := WordsOf(m[..]);
      var w := LoadWords();
      var v := Vars(h[0], h[1], h[2], h[3], h[4]);
      v := RunRounds(w, v);
      hide Rounds, Add;
      h[0], h[1], h[2], h[3], h[4] := Add(h[0], v.a), Add(h[1], v.b), Add(h[2], v.c), Add(h[3], v.d), Add(h[4], v.e);
      Bzero(m, 0, 64);
      assert m[..] == Zeros(64);
    }

    /** The body of sha1_loop: copies a piece that fits in the block, compressing it once full. */
    method CopyPiece(piece: seq<bv8>)
      requires Valid() && count + |piece| <= 64 && piece != []
      modifies this`count, this`bits, h, m
      ensures Valid() && State() == Pour(old(State()), piece)
      ensures bits == Wrap64(old(bits) + 8 * |piece|)
    {
      hide Compress, WordsOf, Zeros, Splice, Pour, Wrap64;
      ghost var c := State();
      var start := count % 64;
      Memcpy(m, start, piece);
      PourPiece(c, piece);
      count := (count + |piece|) % 64;
      bits := Wrap64(bits + 8 * |piece|);
      if count % 64 == 0 {
        Step();
      }
    }

    /** sha1_loop: takes the input in pieces that end where the block or the input does. */
    method Loop(input: seq<bv8>)
      requires Valid()
      modifies this`count, this`bits, h, m
      ensures Valid()
      ensures State() == Pour(old(State()), input)
      ensures bits == Wrap64(old(bits) + 8 * |input|)
    {
      hide Put, Zeros, Wrap64;
      ghost var c := State();
      WrapAdd(bits, 0);
      var off := 0;
      while off < |input|
        invariant Valid() && off <= |input|
        invariant State() == Pour(c, input[..off])
        invariant bits == Wrap64(old(bits) + 8 * off)
      {
        var gaplen := 64 - count % 64;
        var copysiz := if gaplen < |input| - off then gaplen else |input| - off;
        var piece := input[off..off + copysiz];
        PourSplit(c, input[..off], piece);
        WrapAdd(old(bits) + 8 * off, 8 * copysiz);
        assert input[..off + copysiz] == input[..off] + piece;
        CopyPiece(piece);
        off := off + copysiz;
      }
      assert input[..off] == input;
    }

    /** The PUTPAD macro. */
    method PutPad(x: bv8)
      requires Valid()
      modifies this`count, h, m
      ensures Valid() && State() == Put(old(State()), x) && count == (old(count) + 1) % 64
    {
      hide Compress, WordsOf, Zeros;
      m[count % 64] := x;
      assert m[..] == old(m[..])[old(count) := x];
      count := (count + 1) % 64;
      if count % 64 == 0 {
        Step();
      }
    }

    /** Clears the next `n` bytes of the block and counts them. */
    method ClearBytes(n: nat)
      requires Valid() && count + n < 64
      modifies this`count, m
      ensures Valid() && State() == Pour(old(State()), Zeros(n))
    {
      hide Compress, WordsOf, Splice;
      var start := count % 64;
      ghost var c := State();
      Bzero(m, start, n);
      PourPiece(c, Zeros(n));
      count := (count + n) % 64;
    }

    /** Clears the rest of the block and compresses it. */
    method ClearRest()
      requires Valid()
      modifies this`count, h, m
      ensures Valid() && count == 0 && State() == Pour(old(State()), Zeros(64 - old(count)))
    {
      hide Compress, WordsOf, Splice;
      var start := count % 64;
      ghost var c := State();
      Bzero(m, start, 64 - start);
      PourPiece(c, Zeros(64 - start));
      count := 0;
      Step();
    }

    /** sha1_pad: pours in the padding for the bytes and bits counted so far. */
    method Pad()
      requires Valid()
      modifies this`count, h, m
      ensures Valid() && State() == Pour(old(State()), Padding(old(count), bits))
    {
      hide Put, Zeros, BigEndian8, Pour;
      ghost var c, n := State(), count;
      PutPad(0x80);
      PourOne(c, 0x80);
      assert [0x80] + Zeros(0) == [0x80] by { ZerosAdd(0, 0); }
      ghost var z := 0;
      var padlen := 64 - count % 64;
      if padlen < 8 {
        ClearRest();
        PourZeros(c, z, padlen);
        z, padlen := padlen, 64;
      }
      ClearBytes(padlen - 8);
      PourZeros(c, z, padlen - 8);
      PourSplit(c, [0x80] + Zeros(PadZeros(n)), BigEndian8(bits));
      PutBytes(BigEndian8(bits));
    }

    /** The eight PUTPADs of the bit count. */
    method PutBytes(s: seq<bv8>)
      requires Valid()
      modifies this`count, h, m
      ensures Valid() && State() == Pour(old(State()), s)
    {
      hide Put;
      ghost var c := State();
      for i := 0 to |s|
        invariant Valid() && State() == Pour(c, s[..i])
      {
        assert s[..i + 1][..i] == s[..i];
        PutPad(s[i]);
      }
      assert s[..|s|] == s;
    }

    /** sha1_result. */
    method Result() returns (digest: seq<bv8>)
      requires Valid()
      modifies this`count, h, m
      ensures digest == Output(Pour(old(State()), Padding(old(count), old(bits))).h)
    {
      Pad();
      digest := BytesOf(h[0]) + BytesOf(h[1]) + BytesOf(h[2]) + BytesOf(h[3]) + BytesOf(h[4]);
    }
  }

  lemma ZerosAdd(k: nat, n: nat)
    ensures Zeros(k) + Zeros(n) == Zeros(k + n)
    ensures Zeros(0) == []
  {}

  lemma PourZeros(c: Core, k: nat, n: nat)
    requires c.Valid()
    ensures Pour(Pour(c, [0x80] + Zeros(k)), Zeros(n)) == Pour(c, [0x80] + Zeros(k + n))
  {
    PourSplit(c, [0x80] + Zeros(k), Zeros(n));
    ZerosAdd(k, n);
    assert [0x80] + Zeros(k) + Zeros(n) == [0x80] + (Zeros(k) + Zeros(n));
  }

  /** SHA1: the digest of any message whose bit count fits in 64 bits. */
  method SHA1(d: seq<bv8>) returns (md: seq<bv8>)
    ensures |md| == 20
    ensures 8 * |d| < TWO64 ==> md == Digest(d)
  {
    hide Pour, Padding, Digest, Output, Wrap64;
    var ctx := new Sha1Ctxt();
    ctx.Loop(d);
    md := ctx.Result();
    WrapAdd(8 * |d|, 0);
    if 8 * |d| < TWO64 {
      DigestByPouring(d);
    }
  }

  lemma PaddingFits(n: nat, bits: nat)
    requires bits < TWO64
    ensures (n + |Padding(n, bits)|) % 64 == 0
    ensures Padding(n % 64, bits) == Padding(n, bits)
  {}

  /** Pouring a message and its padding into a fresh context gives its digest. */
  lemma DigestByPouring(msg: seq<bv8>)
    requires 8 * |msg| < TWO64
    ensures var c := Pour(Core(IV, Zeros(64), 0), msg);
            && c.count == |msg| % 64
            && Output(Pour(c, Padding(c.count, 8 * |msg|)).h) == Digest(msg)
  {
    hide Blocks, Pour, Output, Padding;
    var padding := Padding(|msg|, 8 * |msg|);
    PourBlocks(IV, msg, |msg| / 64);
    PourSplit(Core(IV, Zeros(64), 0), msg, padding);
    PaddingFits(|msg|, 8 * |msg|);
    PourBlocks(IV, msg + padding, |msg + padding| / 64);
  }

  lemma PourOne(c: Core, x: bv8)
    requires c.Valid()
    ensures Pour(c, [x]) == Put(c, x)
  {
    assert [x][..0] == [];
  }
}
