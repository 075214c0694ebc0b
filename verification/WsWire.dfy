/** A frame byte by byte, in the numbers of section 5.2 of RFC 6455. */
module WsWire {
  import opened CWords
  import opened WsFrame

  /** The number whose bytes these are, the most significant first. */
  function Value(s: seq<bv8>): nat {
    if s == [] then 0 else s[0] as nat * Power256(|s| - 1) + Value(s[1..])
  }

  lemma {:induction false} BigEndianValue(n: nat, k: nat)
    ensures Value(BigEndian(n, k)) == n % Power256(k)
    decreases k
  {
    hide Power256, Byte, Digit;
    if k == 0 {
      assert Power256(0) == 1 by { PowerNone(); }
    } else {
      var s := BigEndian(n, k);
      assert s[1..] == BigEndian(n, k - 1);
      BigEndianValue(n, k - 1);
      AddDigit(n, k - 1);
      NumByte(Digit(n, k - 1));
      assert s[0] as nat == Digit(n, k - 1);
    }
  }

  lemma PowerNone()
    ensures Power256(0) == 1
  {}

  /** Setting the top bit adds 128. */
  lemma TopBit(b: bv8, on: bool)
    requires b < 0x80
    ensures (b | (if on then 0x80 else 0)) as nat == b as nat + if on then 128 else 0
  {
    assert b | 0x80 == b + 0x80;
  }

  lemma FirstIs(opcode: bv8, fin: bool)
    requires opcode < 16
    ensures FirstByte(opcode, fin) as nat == opcode as nat + if fin then 128 else 0
  {
    TopBit(opcode, fin);
  }

  lemma SecondIs(n: nat, masked: bool)
    requires n < 128
    ensures LengthByte(n, masked) as nat == n + if masked then 128 else 0
  {
    NumByte(n);
    SmallByte(n);
    TopBit(Byte(n), masked);
  }

  lemma SmallByte(n: nat)
    requires n < 128
    ensures Byte(n) < 0x80
  {}

  /** How many bytes a length takes behind the second byte. */
  function Extended(n: nat): nat {
    if n < 126 then 0 else if n < 65536 then 2 else 8
  }

  /** The second byte of a header and the length behind it. */
  lemma LengthIs(n: nat, masked: bool)
    requires n < TWO63
    ensures var s := LengthBytes(n, Minimal(n), masked);
            && |s| == 1 + Extended(n) && (Extended(n) > 0 ==> Value(s[1..]) == n)
            && s[0] as nat == (if n < 126 then n else if n < 65536 then 126 else 127) + (if masked then 128 else 0)
  {
    SecondIs(if n < 126 then n else if n < 65536 then 126 else 127, masked);
    BigEndianValue(n, Extended(n));
    PowerTwo(n);
    hide LengthByte, BigEndian, Value, Power256;
    var b := BigEndian(n, Extended(n));
    assert forall c :: ([c] + b)[1..] == b && ([c] + b)[0] == c;
  }

  lemma PowerTwo(n: nat)
    ensures n < 65536 ==> n % Power256(2) == n
    ensures n < TWO63 ==> n % Power256(8) == n
  {
    assert Power256(2) == 0x10000 && Power256(8) == TWO64;
  }

  lemma Parts(a: bv8, length: seq<bv8>, key: seq<bv8>, body: seq<bv8>)
    requires length != []
    ensures var s, k := [a] + length + key + body, |length| - 1;
            && |s| == 2 + k + |key| + |body| && s[0] == a && s[1] == length[0] && s[2..2 + k] == length[1..]
            && s[2 + k..2 + k + |key|] == key && s[2 + k + |key|..] == body
  {}

  lemma BodyIs(f: Frame, i: nat)
    requires f.Valid() && f.mask != [] && i < |f.payload|
    ensures Mask(f.payload, f.mask)[i] == f.payload[i] ^ f.mask[i % 4]
  {}

  /** What is on the wire for a frame: FIN and opcode, mask bit and length, the length again if it is more than 125, the
      key, and the payload, exclusive-ored with the key if there is one. */
  lemma Wire(f: Frame)
    requires f.Valid()
    ensures var s, n, k := Encode(f), |f.payload|, Extended(|f.payload|);
            && |s| == 2 + k + |f.mask| + n
            && s[0] as nat == f.opcode as nat + (if f.fin then 128 else 0)
            && s[1] as nat == (if n < 126 then n else if n < 65536 then 126 else 127)
                            + (if f.mask != [] then 128 else 0)
            && (k > 0 ==> Value(s[2..2 + k]) == n) && s[2 + k..2 + k + |f.mask|] == f.mask
    ensures var start := 2 + Extended(|f.payload|) + |f.mask|;
            forall i :: 0 <= i < |f.payload| ==>
              Encode(f)[start..][i] == if f.mask == [] then f.payload[i] else f.payload[i] ^ f.mask[i % 4]
  {
    var n, length := |f.payload|, LengthBytes(|f.payload|, Minimal(|f.payload|), f.mask != []);
    var body := if f.mask == [] then f.payload else Mask(f.payload, f.mask);
    FirstIs(f.opcode, f.fin);
    LengthIs(n, f.mask != []);
    hide FirstByte, LengthBytes, Value, Mask;
    Parts(FirstByte(f.opcode, f.fin), length, f.mask, body);
    assert Encode(f) == [FirstByte(f.opcode, f.fin)] + length + f.mask + body;
    hide Encode, Extended;
    forall i | 0 <= i < n
      ensures body[i] == if f.mask == [] then f.payload[i] else f.payload[i] ^ f.mask[i % 4]
    {
      if f.mask != [] {
        BodyIs(f, i);
      }
    }
  }
}
