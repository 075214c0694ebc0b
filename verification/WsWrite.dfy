/** The frame encoder of libwebsocket_write (output.c): it writes the header into the space before the
    caller's payload and, on a client, masks the payload in place. */
module WsWrite {
  import opened Memory
  import opened WsFrame
  import opened WsWire
  import opened CWords
  import opened WsReceive
  import opened WsParser

  datatype Kind = Text | Binary | Continuation | Http | Close | Ping | Pong

  /** What a call comes to: nothing to send, an error, bytes for lws_issue_raw, or lws_issue_raw called with a
      length of 2^63 or more. */
  datatype Written = Nothing | Refused | Submit(bytes: seq<bv8>) | Beyond

  /** What a call reads of its connection: the role and state, the two bytes of close_reason, the high one
      first, and the random mask a client's frame gets. */
  datatype Wsi = Wsi(role: Role, established: bool, closeReason: seq<bv8>, nonce: seq<bv8>) {
    ghost predicate Valid() {
      |closeReason| == 2 && |nonce| == 4
    }
  }

  function OpcodeOf(kind: Kind): (opcode: bv8)
    requires kind != Http
    ensures opcode < 16
  {
    match kind
    case Text => TEXT
    case Binary => BINARY
    case Continuation => CONTINUATION
    case Close => CLOSE
    case Ping => PING
    case Pong => PONG
  }

  /** The opcodes of section 5.2 of RFC 6455. */
  lemma OpcodeNumbers()
    ensures OpcodeOf(Continuation) == 0 && OpcodeOf(Text) == 1 && OpcodeOf(Binary) == 2
    ensures OpcodeOf(Close) == 8 && OpcodeOf(Ping) == 9 && OpcodeOf(Pong) == 10
  {}

  /** How many bytes the masking loop reaches: it counts an int from 4 up to `(int)len + 4`. */
  function MaskedCount(len: int): nat {
    var top := Int32(Int32(len) + 4);
    if top > 4 then top - 4 else 0
  }

  lemma MaskedCountRange(len: int)
    ensures -TWO31 <= len ==> MaskedCount(len) <= if len < 0 then 0 else len
    ensures 0 <= len ==> if len < TWO31 - 4 then MaskedCount(len) == len else MaskedCount(len) + 4 <= len
  {}

  // ---------------------------------------------------------------- the encoder

  /** Bytes of header before the key or payload. */
  function HeaderLength(len: nat): nat {
    if len < 126 then 2 else if len < 65536 then 4 else 10
  }

  lemma BigEndianAt(n: nat, k: nat, i: nat)
    requires i < k
    ensures BigEndian(n, k)[i] == Byte(Digit(n, k - 1 - i))
  {
    hide Byte, Digit;
  }

  lemma BigEndianEight(n: nat)
    requires n < TWO63
    ensures BigEndian(n, 8) == [Byte(Digit(n, 7) % 128), Byte(Digit(n, 6)), Byte(Digit(n, 5)), Byte(Digit(n, 4))]
                             + [Byte(Digit(n, 3)), Byte(Digit(n, 2)), Byte(Digit(n, 1)), Byte(Digit(n, 0))]
  {
    TopBitClear(n);
    hide Byte, Digit, BigEndian;
    forall i | 0 <= i < 8 ensures BigEndian(n, 8)[i] == Byte(Digit(n, 7 - i)) {
      BigEndianAt(n, 8, i);
    }
    EightBytes(BigEndian(n, 8));
  }

  lemma EightBytes(s: seq<bv8>)
    requires |s| == 8
    ensures s == [s[0], s[1], s[2], s[3]] + [s[4], s[5], s[6], s[7]]
  {}

  /** The eight bytes of a long length, the top bit forced clear. */
  method PutLength8(buf: array<bv8>, h: nat, len: nat)
    requires len < TWO63 && h + 8 <= buf.Length
    modifies buf
    ensures buf[..] == Splice(old(buf[..]), h, BigEndian(len, 8))
  {
    BigEndianEight(len);
    hide Byte, Digit, BigEndian, Splice;
    SpliceTwice(buf[..], h, [Byte(Digit(len, 7) % 128), Byte(Digit(len, 6)), Byte(Digit(len, 5)), Byte(Digit(len, 4))],
                [Byte(Digit(len, 3)), Byte(Digit(len, 2)), Byte(Digit(len, 1)), Byte(Digit(len, 0))]);
    PutFour(buf, h, Byte(Digit(len, 7) % 128), Byte(Digit(len, 6)), Byte(Digit(len, 5)), Byte(Digit(len, 4)));
    PutFour(buf, h + 4, Byte(Digit(len, 3)), Byte(Digit(len, 2)), Byte(Digit(len, 1)), Byte(Digit(len, 0)));
  }

  method PutFour(buf: array<bv8>, h: nat, a: bv8, b: bv8, c: bv8, d: bv8)
    requires h + 4 <= buf.Length
    modifies buf
    ensures buf[..] == Splice(old(buf[..]), h, [a, b, c, d])
  {
    buf[h] := a;
    buf[h + 1] := b;
    buf[h + 2] := c;
    buf[h + 3] := d;
  }

  method PutPair(buf: array<bv8>, h: nat, a: bv8, b: bv8)
    requires h + 2 <= buf.Length
    modifies buf
    ensures buf[..] == Splice(old(buf[..]), h, [a, b])
  {
    buf[h] := a;
    buf[h + 1] := b;
  }

  /** Writes a header at `h`. */
  method PutHeader(buf: array<bv8>, h: nat, first: bv8, len: nat, masked: bool)
    requires len < TWO63 && h + HeaderLength(len) <= buf.Length
    modifies buf
    ensures |LengthBytes(len, Minimal(len), masked)| == HeaderLength(len) - 1
    ensures buf[..] == Splice(old(buf[..]), h, [first] + LengthBytes(len, Minimal(len), masked))
  {
    ghost var before := buf[..];
    hide LengthByte, BigEndian, Splice, Byte, Digit;
    if len < 126 {
      PutPair(buf, h, first, LengthByte(len, masked));
      assert [first] + [LengthByte(len, masked)] == [first, LengthByte(len, masked)];
    } else if len < 65536 {
      PutPair(buf, h, first, LengthByte(126, masked));
      Len16Digits(len);
      PutPair(buf, h + 2, Byte(Digit(len, 1)), Byte(Digit(len, 0)));
      SpliceTwice(before, h, [first, LengthByte(126, masked)], BigEndian(len, 2));
      FirstThen(first, LengthByte(126, masked), BigEndian(len, 2));
    } else {
      PutPair(buf, h, first, LengthByte(127, masked));
      PutLength8(buf, h + 2, len);
      SpliceTwice(before, h, [first, LengthByte(127, masked)], BigEndian(len, 8));
      FirstThen(first, LengthByte(127, masked), BigEndian(len, 8));
    }
  }

  lemma FirstThen(a: bv8, b: bv8, s: seq<bv8>)
    ensures [a, b] + s == [a] + ([b] + s)
  {}

  /** Two adjacent pieces written one after the other. */
  lemma SpliceTwice(m: seq<bv8>, h: nat, s: seq<bv8>, t: seq<bv8>)
    requires h + |s| + |t| <= |m|
    ensures Splice(Splice(m, h, s), h + |s|, t) == Splice(m, h, s + t)
    ensures Splice(Splice(m, h + |s|, t), h, s) == Splice(m, h, s + t)
  {}

  /** The masking loop, for a length of `len`, from `p`. */
  method MaskInPlace(buf: array<bv8>, p: nat, len: int, nonce: seq<bv8>)
    requires |nonce| == 4 && p + MaskedCount(len) <= buf.Length
    modifies buf
    ensures buf[..] == old(buf[..p] + MaskFirst(buf[p..], nonce, MaskedCount(len)))
  {
    ghost var before := buf[..];
    ghost var count := MaskedCount(len);
    var top := Int32(Int32(len) + 4);
    assert if top > 4 then count == top - 4 else count == 0;
    hide MaskedCount, Int32, Xor8, MaskFirst;
    var maskIndex := 0;
    var n := 4;
    while n < top
      invariant 4 <= n <= count + 4 && maskIndex == (n - 4) % 256
      invariant forall i :: 0 <= i < buf.Length ==>
        buf[i] == if p <= i < p + n - 4 then Xor8(before[i], nonce[(i - p) % 4]) else before[i]
    {
      NextIndex(n - 4);
      buf[p - 4 + n] := Xor8(buf[p - 4 + n], nonce[maskIndex % 4]);
      maskIndex := (maskIndex + 1) % 256;
      n := n + 1;
    }
    MaskedIs(before, buf[..], p, nonce, count);
  }

  lemma MaskedIs(before: seq<bv8>, after: seq<bv8>, p: nat, nonce: seq<bv8>, count: nat)
    requires |nonce| == 4 && p + count <= |before| == |after|
    requires forall i :: 0 <= i < |before| ==>
      after[i] == if p <= i < p + count then Xor8(before[i], nonce[(i - p) % 4]) else before[i]
    ensures after == before[..p] + MaskFirst(before[p..], nonce, count)
  {
    hide Xor8;
    assert after[..p] == before[..p];
    forall i | 0 <= i < |before| - p ensures after[p..][i] == MaskFirst(before[p..], nonce, count)[i] {
      assert after[p..][i] == after[p + i];
    }
    assert after == after[..p] + after[p..];
  }

  /** Wrapping the mask index at 256 is harmless. */
  lemma NextIndex(k: nat)
    ensures k % 256 % 4 == k % 4 && (k % 256 + 1) % 256 == (k + 1) % 256
  {
    var q, m := k / 256, k % 256;
    assert k == 256 * q + m == 4 * (64 * q) + m;
    assert k + 1 == if m == 255 then 256 * (q + 1) else 256 * q + (m + 1);
  }

  lemma Grouped(a: seq<bv8>, b: seq<bv8>, c: seq<bv8>)
    ensures a + b + c == a + (b + c)
  {}

  /** The masked part of a memory ends where the payload does, or in the padding. */
  lemma MaskedParts(s: seq<bv8>, nonce: seq<bv8>, count: nat, len: nat, end: nat)
    requires |nonce| == 4 && len <= end <= |s| && count <= end
    ensures MaskFirst(s, nonce, count)[..len] == MaskFirst(s[..len], nonce, count)
    ensures MaskFirst(s, nonce, count)[end..] == s[end..]
  {
    hide Xor8;
  }

  // ---------------------------------------------------------------- a call

  /** Whether lws_issue_raw is called at once, and not by lws_issue_raw_ext_access. */
  predicate Direct(kind: Kind, noFin: bool) {
    kind in {Close, Ping, Pong} && !noFin
  }

  /** The reason put in front of the payload. */
  function Reason(kind: Kind, wsi: Wsi): (r: seq<bv8>)
    requires wsi.Valid()
    ensures |r| == if kind == Close && wsi.closeReason != [0, 0] then 2 else 0
  {
    if kind == Close && wsi.closeReason != [0, 0] then wsi.closeReason else []
  }

  function KeyLength(role: Role): nat {
    if role.Client? then 4 else 0
  }

  /** The length that a header states: a negative one is a size_t, whose top bit the header leaves out. */
  function Stated(s: int): (n: nat)
    requires -TWO31 <= s < TWO63
    ensures n < TWO63 && (s >= 0 ==> n == s) && (s < 0 ==> n >= 65536)
  {
    if s < 0 then s + TWO63 else s
  }

  function Header(opcode: bv8, fin: bool, s: int, masked: bool): (h: seq<bv8>)
    requires -TWO31 <= s < TWO63
    ensures |h| == HeaderLength(Stated(s))
  {
    [FirstByte(opcode, fin)] + LengthBytes(Stated(s), Minimal(Stated(s)), masked)
  }

  /** What is behind the header: on a client the key goes where it belongs without a reason, so that a
      reason is lost and two bytes stay before the key that were there. */
  function Behind(payload: seq<bv8>, s: int, reason: seq<bv8>, wsi: Wsi, stale: seq<bv8>): (b: seq<bv8>)
    requires wsi.Valid() && |stale| == |reason|
    ensures |b| == KeyLength(wsi.role) + |reason| + |payload|
  {
    if wsi.role.Server? then reason + payload
    else stale + wsi.nonce + MaskFirst(payload, wsi.nonce, MaskedCount(s))
  }

  /** The length of a payload with its reason, once it has been an int. */
  function Cut(payload: seq<bv8>, kind: Kind, wsi: Wsi): (s: int)
    requires wsi.Valid()
    ensures -TWO31 <= s <= TWO31 + 1 && s <= |Reason(kind, wsi)| + |payload|
  {
    Int32(|payload|) + |Reason(kind, wsi)|
  }

  /** What a call sends, from the payload and the two bytes that were six bytes before it. */
  function Outgoing(payload: seq<bv8>, kind: Kind, noFin: bool, wsi: Wsi, stale: seq<bv8>): Written
    requires wsi.Valid() && |stale| == 2
  {
    if payload == [] && !Direct(kind, noFin) then Nothing
    else if kind == Http && !noFin then Submit(payload)
    else if !wsi.established || kind == Http then Refused
    else
      var s, reason := Cut(payload, kind, wsi), Reason(kind, wsi);
      var header := Header(OpcodeOf(kind), !noFin, s, wsi.role.Client?);
      var n := |header| + KeyLength(wsi.role) + s;
      if n < 0 || (n >= TWO31 && !Direct(kind, noFin)) then Beyond
      else Submit((header + Behind(payload, s, reason, wsi, stale[..|reason|]))[..n])
  }

  /** The reason in front of `p` and the header at `h`. */
  method Head(buf: array<bv8>, h: nat, p: nat, s: int, opcode: bv8, fin: bool, masked: bool, reason: seq<bv8>)
    requires -TWO31 <= s < TWO63 && h + HeaderLength(Stated(s)) + |reason| <= p <= buf.Length
    modifies buf
    ensures buf[..] == old(buf[..h]) + Header(opcode, fin, s, masked)
        + old(buf[h + HeaderLength(Stated(s))..p - |reason|]) + reason + old(buf[p..])
  {
    hide LengthBytes, FirstByte, Splice;
    ghost var before := buf[..];
    Memcpy(buf, p - |reason|, reason);
    PutHeader(buf, h, FirstByte(opcode, fin), Stated(s), masked);
    TwoPieces(before, h, Header(opcode, fin, s, masked), p - |reason|, reason);
  }

  lemma TwoPieces(m: seq<bv8>, h: nat, s: seq<bv8>, k: nat, t: seq<bv8>)
    requires h + |s| <= k && k + |t| <= |m|
    ensures Splice(Splice(m, k, t), h, s) == m[..h] + s + m[h + |s|..k] + t + m[k + |t|..]
  {}

  /** The frame around the payload at `p`, on a server: reason and header. */
  method BuildPlain(buf: array<bv8>, p: nat, len: nat, s: int, opcode: bv8, fin: bool, reason: seq<bv8>)
          returns (h: nat)
    requires PRE_PADDING <= p && p + len <= buf.Length && -TWO31 <= s < TWO63 && |reason| <= 2
    modifies buf
    ensures h == p - |reason| - HeaderLength(Stated(s))
    ensures buf[..] == old(buf[..h]) + Header(opcode, fin, s, false) + reason + old(buf[p..])
  {
    hide Header;
    h := p - |reason| - HeaderLength(Stated(s));
    Head(buf, h, p, s, opcode, fin, false, reason);
  }

  /** The frame around the payload at `p`, on a client: reason, header, masking loop, key. */
  method BuildMasked(buf: array<bv8>, p: nat, s: int, opcode: bv8, fin: bool, reason: seq<bv8>, nonce: seq<bv8>)
      returns (h: nat)
    requires PRE_PADDING <= p && p + MaskedCount(s) <= buf.Length && |nonce| == 4
    requires |reason| <= 2 && -TWO31 <= s < TWO63
    modifies buf
    ensures h == p - 4 - |reason| - HeaderLength(Stated(s))
    ensures buf[..] == old(buf[..h]) + Header(opcode, fin, s, true) + old(buf[p - 4 - |reason|..p - 4])
        + nonce + MaskFirst(old(buf[p..]), nonce, MaskedCount(s))
  {
    ghost var before, header := buf[..], Header(opcode, fin, s, true);
    hide Header, MaskedCount, MaskFirst, Splice;
    h := p - 4 - |reason| - HeaderLength(Stated(s));
    Head(buf, h, p, s, opcode, fin, true, reason);
    hide HeaderLength, Stated;
    KeyPlace(before, h, header, p, reason, nonce);
    MaskInPlace(buf, p, s, nonce);
    KeyIn(before[..h] + header + before[p - 4 - |reason|..p - |reason|] + reason, nonce,
          MaskFirst(before[p..], nonce, MaskedCount(s)));
    Memcpy(buf, p - 4, nonce);
  }

  /** Where the key goes: on the last four bytes in front of the payload, the reason's among them. */
  lemma KeyPlace(m: seq<bv8>, h: nat, header: seq<bv8>, p: nat, reason: seq<bv8>, key: seq<bv8>)
    requires h + |header| + 4 + |reason| == p <= |m| && |reason| <= 4 && |key| == 4
    ensures var front := m[..h] + header + m[p - 4 - |reason|..p - |reason|] + reason;
            && |front| == p && (front + m[p..])[..p] == front && (front + m[p..])[p..] == m[p..]
            && front[..p - 4] == m[..h] + header + m[p - 4 - |reason|..p - 4]
  {
    var gap := m[p - 4 - |reason|..p - |reason|];
    assert gap[..|reason|] == m[p - 4 - |reason|..p - 4];
    assert (m[..h] + header + gap + reason)[..p - 4] == m[..h] + header + gap[..|reason|];
  }

  lemma KeyIn(front: seq<bv8>, key: seq<bv8>, rest: seq<bv8>)
    requires |front| >= 4 && |key| == 4
    ensures Splice(front + rest, |front| - 4, key) == front[..|front| - 4] + key + rest
  {}

  /** The frame around the payload at `p`, on either side, and what is around it. */
  method Build(buf: array<bv8>, p: nat, len: nat, s: int, opcode: bv8, fin: bool, reason: seq<bv8>, wsi: Wsi)
      returns (h: nat)
    requires PRE_PADDING <= p && p + len + POST_PADDING <= buf.Length && wsi.Valid()
    requires |reason| in {0, 2} && -TWO31 <= s <= |reason| + len && s < TWO63
    modifies buf
    ensures h == p - |reason| - KeyLength(wsi.role) - HeaderLength(Stated(s))
    ensures p - PRE_PADDING <= h && buf[..p - PRE_PADDING] == old(buf[..p - PRE_PADDING])
    ensures buf[p + len + POST_PADDING..] == old(buf[p + len + POST_PADDING..])
    ensures buf[h..p + len] == Header(opcode, fin, s, wsi.role.Client?)
        + Behind(old(buf[p..p + len]), s, reason, wsi, old(buf[p - 6..p - 4])[..|reason|])
  {
    ghost var before, header := buf[..], Header(opcode, fin, s, wsi.role.Client?);
    ghost var stale := buf[p - 6..p - 4][..|reason|];
    assert before[p - 4 - |reason|..p - 4] == stale;
    MaskedCountRange(s);
    hide Header, MaskedCount, MaskFirst;
    if wsi.role.Client? {
      h := BuildMasked(buf, p, s, opcode, fin, reason, wsi.nonce);
      MaskedAround(before, h, header, stale, wsi.nonce, p, len, MaskedCount(s));
    } else {
      h := BuildPlain(buf, p, len, s, opcode, fin, reason);
      PlainAround(before, h, header, reason, p, len);
    }
    assert p - PRE_PADDING <= h;
    hide HeaderLength, Stated, Behind;
    ghost var after := buf[..];
    assert buf[..p - PRE_PADDING] == after[..h][..p - PRE_PADDING] == before[..h][..p - PRE_PADDING];
    assert buf[h..p + len] == after[h..p + len];
    assert buf[p + len + POST_PADDING..] == after[p + len + POST_PADDING..];
  }

  /** A memory with a frame in it. */
  lemma Around(front: seq<bv8>, header: seq<bv8>, pre: seq<bv8>, rest: seq<bv8>, len: nat, end: nat)
    requires len <= end <= |rest|
    ensures var m, h, p := front + header + pre + rest, |front|, |front| + |header| + |pre|;
            m[..h] == front && m[h..p + len] == header + (pre + rest[..len]) && m[p + end..] == rest[end..]
  {}

  lemma PlainAround(before: seq<bv8>, h: nat, header: seq<bv8>, reason: seq<bv8>, p: nat, len: nat)
    requires h + |header| + |reason| == p && p + len + POST_PADDING <= |before|
    ensures var after := before[..h] + header + reason + before[p..];
            && after[..h] == before[..h] && after[h..p + len] == header + (reason + before[p..p + len])
            && after[p + len + POST_PADDING..] == before[p + len + POST_PADDING..]
  {
    Around(before[..h], header, reason, before[p..], len, len + POST_PADDING);
  }

  lemma MaskedAround(before: seq<bv8>, h: nat, header: seq<bv8>, stale: seq<bv8>, nonce: seq<bv8>, p: nat, len: nat,
                     count: nat)
    requires h + |header| + |stale| + 4 == p && p + len + POST_PADDING <= |before| && |nonce| == 4
    requires count <= len + POST_PADDING
    ensures var after := before[..h] + header + stale + nonce + MaskFirst(before[p..], nonce, count);
            && after[..h] == before[..h]
            && after[h..p + len] == header + (stale + nonce + MaskFirst(before[p..p + len], nonce, count))
            && after[p + len + POST_PADDING..] == before[p + len + POST_PADDING..]
  {
    MaskedParts(before[p..], nonce, count, len, len + POST_PADDING);
    assert before[p..][..len] == before[p..p + len];
    hide MaskFirst;
    var masked := MaskFirst(before[p..], nonce, count);
    Around(before[..h], header, stale + nonce, masked, len, len + POST_PADDING);
    assert before[..h] + header + stale + nonce + masked == before[..h] + header + (stale + nonce) + masked;
  }

  /** What the conversions to int and size_t make of a frame's length. */
  lemma Totals(n: int)
    requires -TWO31 <= n < TWO31 + 65536
    ensures Wrap64(n) == if n < 0 then n + TWO64 else n
    ensures Wrap64(Int32(Wrap64(n))) == if n >= TWO31 then n - 2 * TWO31 + TWO64 else Wrap64(n)
  {}

  /** libwebsocket_write, for a connection that buffers what it cannot send and has no extensions, outside of a
      frame.  The frame is built around the payload, which is at `p` in `buf`. */
  method Write(buf: array<bv8>, p: nat, len: nat, kind: Kind, noFin: bool, wsi: Wsi) returns (r: Written)
    requires PRE_PADDING <= p && p + len + POST_PADDING <= buf.Length && len < TWO63 && wsi.Valid()
    modifies buf
    ensures r == Outgoing(old(buf[p..p + len]), kind, noFin, wsi, old(buf[p - 6..p - 4]))
    ensures buf[..p - PRE_PADDING] == old(buf[..p - PRE_PADDING])
    ensures buf[p + len + POST_PADDING..] == old(buf[p + len + POST_PADDING..])
  {
    hide Header, Behind, Cut, Reason;
    if len == 0 && !Direct(kind, noFin) {
      return Nothing;
    }
    if kind == Http && !noFin {
      return Submit(buf[p..p + len]);
    }
    if !wsi.established || kind == Http {
      return Refused;
    }
    hide Outgoing;
    r := WriteFrame(buf, p, len, kind, noFin, wsi);
  }

  /** The rest of it, when there is a frame to send. */
  method WriteFrame(buf: array<bv8>, p: nat, len: nat, kind: Kind, noFin: bool, wsi: Wsi) returns (r: Written)
    requires PRE_PADDING <= p && p + len + POST_PADDING <= buf.Length && len < TWO63 && wsi.Valid()
    requires wsi.established && kind != Http && (len > 0 || Direct(kind, noFin))
    modifies buf
    ensures r == Outgoing(old(buf[p..p + len]), kind, noFin, wsi, old(buf[p - 6..p - 4]))
    ensures buf[..p - PRE_PADDING] == old(buf[..p - PRE_PADDING])
    ensures buf[p + len + POST_PADDING..] == old(buf[p + len + POST_PADDING..])
  {
    ghost var payload := buf[p..p + len];
    var reason := Reason(kind, wsi);
    var s := Int32(len) + |reason|;
    assert s == Cut(payload, kind, wsi);
    hide Header, Int32, Cut, Reason, Behind, Direct;
    var h := Build(buf, p, len, s, OpcodeOf(kind), !noFin, reason, wsi);
    hide HeaderLength, Stated;
    r := Issue(buf, p, len, h, s, Direct(kind, noFin), wsi.role);
  }

  /** The frame that starts at `h` handed to lws_issue_raw, its length a size_t, or first an int. */
  method Issue(buf: array<bv8>, p: nat, len: nat, h: nat, s: int, direct: bool, role: Role) returns (r: Written)
    requires -TWO31 <= s <= TWO31 + 1 && h + HeaderLength(Stated(s)) + KeyLength(role) + s <= p + len <= buf.Length
    requires h <= p
    ensures var n := HeaderLength(Stated(s)) + KeyLength(role) + s;
            r == if n < 0 || (n >= TWO31 && !direct) then Beyond else Submit(buf[h..p + len][..n])
  {
    ghost var n := HeaderLength(Stated(s)) + KeyLength(role) + s;
    Totals(n);
    var total := Wrap64(s + HeaderLength(Stated(s)) + KeyLength(role));
    if !direct {
      total := Wrap64(Int32(total));
    }
    hide Wrap64, Int32;
    if total >= TWO63 {
      return Beyond;
    }
    r := Submit(buf[h..h + total]);
  }

  // ---------------------------------------------------------------- round trips

  function FrameLength(n: nat, role: Role): nat {
    HeaderLength(n) + KeyLength(role) + n
  }

  /** What a caller can check before a call: an empty message is not sent, a control frame holds less than 126
      bytes, and the whole frame less than 2^31. */
  predicate Sendable(payload: seq<bv8>, kind: Kind, noFin: bool, wsi: Wsi)
    requires wsi.Valid() && kind != Http
  {
    var n := |Reason(kind, wsi)| + |payload|;
    && (payload == [] ==> Direct(kind, noFin))
    && (Control(OpcodeOf(kind)) ==> n < 126)
    && FrameLength(n, wsi.role) < TWO31
  }

  /** The payload with the bytes that the masking loop did not reach masked once. */
  function Garbled(payload: seq<bv8>, nonce: seq<bv8>): (g: seq<bv8>)
    requires |nonce| == 4
    ensures |g| == |payload|
  {
    seq(|payload|, i requires 0 <= i < |payload| =>
      if i < MaskedCount(|payload|) then payload[i] else Xor8(payload[i], nonce[i % 4]))
  }

  /** Four bytes in a row meet every nonce byte. */
  lemma Meet(k: nat, j: nat) returns (i: nat)
    requires j < 4
    ensures k <= i < k + 4 && i % 4 == j
  {
    i := k + (j + 4 - k % 4) % 4;
  }

  /** The masking loop reaches the whole payload, or misses enough of it to meet every nonce byte. */
  lemma GarbledIs(payload: seq<bv8>, nonce: seq<bv8>)
    requires |nonce| == 4
    ensures Garbled(payload, nonce) == payload <==> |payload| < TWO31 - 4 || nonce == [0, 0, 0, 0]
  {
    var n, k, g := |payload|, MaskedCount(|payload|), Garbled(payload, nonce);
    MaskedCountRange(n);
    hide MaskedCount, Xor8;
    if nonce == [0, 0, 0, 0] {
      forall i | 0 <= i < n ensures g[i] == payload[i] {
        Xor8Twice(payload[i], 0);
      }
    } else if n >= TWO31 - 4 && g == payload {
      forall j | 0 <= j < 4 ensures nonce[j] == 0 {
        var i := Meet(k, j);
        assert g[i] == Xor8(payload[i], nonce[j]);
        Xor8Twice(payload[i], nonce[j]);
      }
    }
  }

  /** Unmasking what the masking loop made of a payload. */
  lemma MaskMasked(payload: seq<bv8>, nonce: seq<bv8>)
    requires |nonce| == 4
    ensures Mask(MaskFirst(payload, nonce, MaskedCount(|payload|)), nonce) == Garbled(payload, nonce)
  {
    var k := MaskedCount(|payload|);
    hide MaskedCount, Xor8;
    forall i | 0 <= i < |payload|
      ensures Mask(MaskFirst(payload, nonce, k), nonce)[i] == Garbled(payload, nonce)[i]
    {
      Xor8Twice(payload[i], nonce[i % 4]);
    }
  }

  /** What a reader gets from what is behind a header. */
  function Unmasked(behind: seq<bv8>, masked: bool): (content: seq<bv8>)
    requires masked ==> |behind| >= 4
    ensures |content| == |behind| - if masked then 4 else 0
  {
    if masked then Mask(behind[4..], behind[..4]) else behind
  }

  /** A header and what is behind it are a frame. */
  lemma WholeFrame(opcode: bv8, fin: bool, behind: seq<bv8>, masked: bool)
    requires opcode < 16 && (masked ==> |behind| >= 4) && |Unmasked(behind, masked)| < TWO63
    ensures var content := Unmasked(behind, masked);
            && Header(opcode, fin, |content|, masked) + behind
               == Encode(Frame(opcode, fin, content, if masked then behind[..4] else []))
  {
    var content := Unmasked(behind, masked);
    var header := Header(opcode, fin, |content|, masked);
    hide FirstByte, LengthBytes;
    if masked {
      var key, body := behind[..4], behind[4..];
      assert header + behind == header + key + body;
      assert Mask(content, key) == body by { hide *; MaskTwice(body, key); }
    } else {
      assert header + [] + content == header + behind;
    }
  }

  lemma MaskTwice(body: seq<bv8>, key: seq<bv8>)
    requires |key| == 4
    ensures Mask(Mask(body, key), key) == body
  {
    hide Xor8;
    forall i | 0 <= i < |body| ensures Mask(Mask(body, key), key)[i] == body[i] {
      Xor8Twice(body[i], key[i % 4]);
    }
  }

  /** The first spill of a frame tells its length. */
  lemma OneLength(o: Outcome, opcode: bv8, fin: bool, a: seq<bv8>, b: seq<bv8>, size: nat)
    requires size > 0 && Delivers(o, opcode, fin, a, size) && Delivers(o, opcode, fin, b, size)
    ensures |a| == |b|
  {
    var sa, sb := Spills(opcode, fin, a, size), Spills(opcode, fin, b, size);
    assert sa[..1][0] == sa[0] && sb[..1][0] == sb[0];
    assert sa[0] == sb[0];
  }

  lemma NothingSpilled(o: Outcome, opcode: bv8, fin: bool, content: seq<bv8>, size: nat)
    requires size > 0 && o.spills == []
    ensures !Delivers(o, opcode, fin, content, size)
  {
    assert |Spills(opcode, fin, content, size)[..1]| == 1;
  }

  /** How many bytes of header are still to come, at least. */
  function Ahead(rx: Rx): nat
    requires rx.Valid()
  {
    match rx.phase
    case Len64_(k) => k + (if rx.masked then 4 else 0)
    case Key(k) => 5 - k
    case _ => 0
  }

  lemma {:induction false} InsideHeader(role: Role, size: nat, rx: Rx, s: seq<bv8>)
    requires rx.Valid() && |s| < Ahead(rx)
    ensures Feed(role, size, rx, s).spills == []
    decreases |s|
  {
    if s != [] {
      HeaderStep(role, size, rx, s[0]);
      hide Step;
      var o := Step(role, size, rx, s[0]);
      if o.Alive? {
        InsideHeader(role, size, o.rx, s[1..]);
      }
    }
  }

  lemma HeaderStep(role: Role, size: nat, rx: Rx, c: bv8)
    requires rx.Valid() && Ahead(rx) > 1
    ensures var o := Step(role, size, rx, c); o.spills == [] && (o.Alive? ==> Ahead(o.rx) == Ahead(rx) - 1)
  {
    hide MaskBit, Top64, Add64;
  }

  /** A header cut short: its reader is still inside it, or has given up. */
  lemma HeaderCut(role: Role, size: nat, rx: Rx, s: seq<bv8>)
    requires Ready(rx)
    requires |s| >= 2 ==> Length7(s[1]) == 127 && |s| < if MaskBit(s[1]) then 14 else 10
    ensures Feed(role, size, rx, s).spills == []
  {
    hide MaskBit, Length7, Opcode, Control, Fin;
    if s != [] {
      var rx1 := AtNew(role, rx, s[0]).rx;
      assert s == [s[0]] + s[1..];
      FeedOne(role, size, rx, s[0], s[1..]);
      if |s| > 1 {
        assert s[1..] == [s[1]] + s[2..];
        FeedOne(role, size, rx1, s[1], s[2..]);
        var o := AtHdrLen(role, rx1, s[1]);
        if o.Alive? {
          InsideHeader(role, size, o.rx, s[2..]);
        }
      }
    }
  }

  /** As many bytes of a frame as come to `s` bytes of content. */
  function FrameBytes(opcode: bv8, fin: bool, s: int, behind: seq<bv8>, masked: bool): (bytes: seq<bv8>)
    requires -TWO31 <= s < TWO63 && s + (if masked then 4 else 0) <= |behind|
    requires HeaderLength(Stated(s)) + (if masked then 4 else 0) + s >= 0
  {
    var header := Header(opcode, fin, s, masked);
    (header + behind)[..|header| + (if masked then 4 else 0) + s]
  }

  lemma FrameCut(role: Role, size: nat, rx: Rx, opcode: bv8, fin: bool, s: int, behind: seq<bv8>)
    requires Ready(rx) && -TWO31 <= s < 0 && s + (if role == Server then 4 else 0) <= |behind|
    requires HeaderLength(Stated(s)) + (if role == Server then 4 else 0) + s >= 0
    ensures Feed(role, size, rx, FrameBytes(opcode, fin, s, behind, role == Server)).spills == []
  {
    var masked := role == Server;
    var bytes := FrameBytes(opcode, fin, s, behind, masked);
    LengthByteBits(127, masked);
    assert |bytes| >= 2 ==> bytes[1] == Header(opcode, fin, s, masked)[1] == LengthByte(127, masked);
    hide FrameBytes, Header, Feed, LengthByte;
    HeaderCut(role, size, rx, bytes);
  }

  lemma FrameWhole(opcode: bv8, fin: bool, s: int, behind: seq<bv8>, masked: bool)
    requires opcode < 16 && 0 <= s < TWO63 && s + (if masked then 4 else 0) <= |behind|
    ensures var cut := behind[..(if masked then 4 else 0) + s];
            |Unmasked(cut, masked)| == s && FrameBytes(opcode, fin, s, behind, masked)
                == Encode(Frame(opcode, fin, Unmasked(cut, masked), if masked then cut[..4] else []))
  {
    var cut := behind[..(if masked then 4 else 0) + s];
    WholeFrame(opcode, fin, cut, masked);
    hide Header, Encode, Unmasked;
    assert FrameBytes(opcode, fin, s, behind, masked) == Header(opcode, fin, s, masked) + cut;
  }

  /** A frame whose header states `s`, with as many bytes behind it as that comes to, of a content at least that
      long: it delivers the content if it states its length and is not a control frame too long to be one, and
      otherwise nothing of that length. */
  lemma FrameRead(role: Role, size: nat, rx: Rx, opcode: bv8, fin: bool, s: int, behind: seq<bv8>, any: seq<bv8>)
    requires Ready(rx) && size > 0 && opcode < 16 && (role == Server ==> |behind| >= 4)
    requires |any| == |Unmasked(behind, role == Server)| < TWO63 && -TWO31 <= s <= |any|
    requires HeaderLength(Stated(s)) + (if role == Server then 4 else 0) + s >= 0
    ensures var o := Feed(role, size, rx, FrameBytes(opcode, fin, s, behind, role == Server));
            var whole := s == |any| && !(Control(opcode) && s >= 126);
            && (whole ==> Delivers(o, opcode, fin, Unmasked(behind, role == Server), size))
            && (!whole ==> !Delivers(o, opcode, fin, any, size))
  {
    var masked := role == Server;
    hide Feed, Delivers, Control, FrameBytes, Encode;
    if s < 0 {
      FrameCut(role, size, rx, opcode, fin, s, behind);
      NothingSpilled(Feed(role, size, rx, FrameBytes(opcode, fin, s, behind, masked)), opcode, fin, any, size);
    } else {
      var cut := behind[..(if masked then 4 else 0) + s];
      FrameWhole(opcode, fin, s, behind, masked);
      assert s == |any| ==> cut == behind;
      StatedRead(role, size, rx, Frame(opcode, fin, Unmasked(cut, masked), if masked then cut[..4] else []), any);
    }
  }

  /** A frame delivers its payload, unless it is a control frame too long to be one, and nothing of another length. */
  lemma StatedRead(role: Role, size: nat, rx: Rx, f: Frame, any: seq<bv8>)
    requires Ready(rx) && size > 0 && f.Valid() && (role == Server <==> f.mask != [])
    ensures var o := Feed(role, size, rx, Encode(f));
            && (Delivers(o, f.opcode, f.fin, f.payload, size) <==> !(Control(f.opcode) && |f.payload| >= 126))
            && (Delivers(o, f.opcode, f.fin, any, size) ==>
                  |any| == |f.payload| && !(Control(f.opcode) && |f.payload| >= 126))
  {
    FeedFrame(role, size, rx, f, Minimal(|f.payload|));
    var o := Feed(role, size, rx, Encode(f));
    if Control(f.opcode) && |f.payload| >= 126 {
      FeedHeader(role, size, rx, f, Minimal(|f.payload|));
      hide Feed, Then, Control;
      DeadDeliversNothing(f.opcode, f.fin, any, size);
    } else if |any| != |f.payload| && Delivers(o, f.opcode, f.fin, any, size) {
      hide Feed, Control, Delivers, Encode;
      OneLength(o, f.opcode, f.fin, any, f.payload, size);
    }
  }

  lemma ControlOpcodes()
    ensures Control(CLOSE) && Control(PING) && Control(PONG)
    ensures !Control(CONTINUATION) && !Control(TEXT) && !Control(BINARY)
  {}

  /** What is behind the header of a whole frame. */
  function Following(payload: seq<bv8>, kind: Kind, wsi: Wsi, stale: seq<bv8>): (b: seq<bv8>)
    requires wsi.Valid() && |stale| == 2
    ensures |b| == KeyLength(wsi.role) + |Reason(kind, wsi)| + |payload|
  {
    var reason := Reason(kind, wsi);
    Behind(payload, |reason| + |payload|, reason, wsi, stale[..|reason|])
  }

  /** What a reader gets of a whole frame. */
  function Arriving(payload: seq<bv8>, kind: Kind, wsi: Wsi, stale: seq<bv8>): (content: seq<bv8>)
    requires wsi.Valid() && |stale| == 2
    ensures |content| == |Reason(kind, wsi)| + |payload|
  {
    Unmasked(Following(payload, kind, wsi, stale), wsi.role.Client?)
  }

  function Peer(role: Role): Role {
    if role.Server? then Client else Server
  }

  /** Whether what a call submits delivers this content to the other end. */
  ghost predicate Comes(size: nat, rx: Rx, w: Written, opcode: bv8, fin: bool, reader: Role, content: seq<bv8>)
    requires rx.Valid() && size > 0
  {
    w.Submit? && Delivers(Feed(reader, size, rx, w.bytes), opcode, fin, content, size)
  }

  lemma SendableIs(payload: seq<bv8>, kind: Kind, noFin: bool, wsi: Wsi, stale: seq<bv8>)
    requires kind != Http && wsi.Valid() && wsi.established && |stale| == 2
    ensures var n := |Reason(kind, wsi)| + |payload|;
            Sendable(payload, kind, noFin, wsi)
            <==> (Outgoing(payload, kind, noFin, wsi, stale).Submit? && Cut(payload, kind, wsi) == n
                  && !(Control(OpcodeOf(kind)) && n >= 126))
  {
    ControlOpcodes();
    hide Header, Behind, Control;
  }

  lemma SubmitIs(payload: seq<bv8>, kind: Kind, noFin: bool, wsi: Wsi, stale: seq<bv8>)
    requires kind != Http && wsi.Valid() && |stale| == 2
    ensures var w, s, reason := Outgoing(payload, kind, noFin, wsi, stale), Cut(payload, kind, wsi), Reason(kind, wsi);
            var header := Header(OpcodeOf(kind), !noFin, s, wsi.role.Client?);
            var behind := Behind(payload, s, reason, wsi, stale[..|reason|]);
            w.Submit? ==>
                |header| + KeyLength(wsi.role) + s >= 0
                && w.bytes == FrameBytes(OpcodeOf(kind), !noFin, s, behind, wsi.role.Client?)
  {
    hide Header, Behind, Cut, Reason;
  }

  /** A sendable message arrives; of any other, nothing of its length does. */
  lemma SendableArrives(size: nat, rx: Rx, payload: seq<bv8>, kind: Kind, noFin: bool, wsi: Wsi, stale: seq<bv8>,
                        any: seq<bv8>)
    requires Ready(rx) && size > 0 && kind != Http && wsi.Valid() && wsi.established && |stale| == 2
    requires |payload| < TWO63 - 2 && |any| == |Reason(kind, wsi)| + |payload|
    ensures var w := Outgoing(payload, kind, noFin, wsi, stale);
            if Sendable(payload, kind, noFin, wsi)
            then Comes(size, rx, w, OpcodeOf(kind), !noFin, Peer(wsi.role), Arriving(payload, kind, wsi, stale))
            else !Comes(size, rx, w, OpcodeOf(kind), !noFin, Peer(wsi.role), any)
  {
    var reason, s := Reason(kind, wsi), Cut(payload, kind, wsi);
    var behind := Behind(payload, s, reason, wsi, stale[..|reason|]);
    SendableIs(payload, kind, noFin, wsi, stale);
    SubmitIs(payload, kind, noFin, wsi, stale);
    assert s == |any| ==> Arriving(payload, kind, wsi, stale) == Unmasked(behind, wsi.role.Client?);
    hide Outgoing, Sendable, Header, Behind, Arriving, Reason, OpcodeOf, Cut, Unmasked, Control, Feed, Delivers,
         MaskedCount, FrameBytes;
    if Outgoing(payload, kind, noFin, wsi, stale).Submit? {
      FrameRead(Peer(wsi.role), size, rx, OpcodeOf(kind), !noFin, s, behind, any);
    }
  }

  lemma SentPlain(payload: seq<bv8>, kind: Kind, wsi: Wsi, stale: seq<bv8>)
    requires wsi.Valid() && wsi.role.Server? && |stale| == 2
    ensures Arriving(payload, kind, wsi, stale) == Reason(kind, wsi) + payload
  {}

  lemma SentMasked(payload: seq<bv8>, kind: Kind, wsi: Wsi, stale: seq<bv8>)
    requires wsi.Valid() && wsi.role.Client? && |stale| == 2 && Reason(kind, wsi) == []
    ensures Arriving(payload, kind, wsi, stale) == Garbled(payload, wsi.nonce)
    ensures Following(payload, kind, wsi, stale)[..4] == wsi.nonce
  {
    var m := MaskFirst(payload, wsi.nonce, MaskedCount(|payload|));
    MaskMasked(payload, wsi.nonce);
    hide MaskFirst, MaskedCount, Mask, Garbled;
    assert stale[..0] == [] && [] + wsi.nonce + m == wsi.nonce + m;
    assert (wsi.nonce + m)[4..] == m && (wsi.nonce + m)[..4] == wsi.nonce;
  }

  /** What a server sends, a client reads back, behind the reason if there is one: exactly the opcode, FIN and
      payload, if and only if the message is sendable. */
  lemma ServerRoundTrip(size: nat, rx: Rx, payload: seq<bv8>, kind: Kind, noFin: bool, wsi: Wsi, stale: seq<bv8>)
    requires Ready(rx) && size > 0 && kind != Http && wsi.Valid() && wsi.established && |stale| == 2
    requires wsi.role.Server? && |payload| < TWO63 - 2
    ensures var opcode: bv8 := if kind == Continuation then 0 else if kind == Text then 1 else if kind == Binary then 2
                               else if kind == Close then 8 else if kind == Ping then 9 else 10;
            Comes(size, rx, Outgoing(payload, kind, noFin, wsi, stale), opcode, !noFin, Client,
                Reason(kind, wsi) + payload)
            <==> Sendable(payload, kind, noFin, wsi)
  {
    OpcodeNumbers();
    SentPlain(payload, kind, wsi, stale);
    hide Outgoing, Comes, Sendable, Reason, Arriving, OpcodeOf;
    SendableArrives(size, rx, payload, kind, noFin, wsi, stale, Reason(kind, wsi) + payload);
  }

  /** What a client sends without a reason, a server reads back, whatever the key, if and only if the message is
      sendable. */
  lemma ClientRoundTrip(size: nat, rx: Rx, payload: seq<bv8>, kind: Kind, noFin: bool, wsi: Wsi, stale: seq<bv8>)
    requires Ready(rx) && size > 0 && kind != Http && wsi.Valid() && wsi.established && |stale| == 2
    requires wsi.role.Client? && |payload| < TWO63 - 2 && Reason(kind, wsi) == []
    ensures var opcode: bv8 := if kind == Continuation then 0 else if kind == Text then 1 else if kind == Binary then 2
                               else if kind == Close then 8 else if kind == Ping then 9 else 10;
            Comes(size, rx, Outgoing(payload, kind, noFin, wsi, stale), opcode, !noFin, Server, payload)
            <==> Sendable(payload, kind, noFin, wsi)
  {
    OpcodeNumbers();
    SentMasked(payload, kind, wsi, stale);
    GarbledIs(payload, wsi.nonce);
    assert Sendable(payload, kind, noFin, wsi) ==> |payload| < TWO31 - 4 by { hide Reason; }
    hide Outgoing, Comes, Sendable, Reason, Arriving, Garbled, OpcodeOf;
    SendableArrives(size, rx, payload, kind, noFin, wsi, stale, payload);
  }

  lemma Cancels(a: bv8, b: bv8, c: bv8)
    ensures Xor8(Xor8(a, b), c) == a <==> b == c
  {
    Xor8Twice(a, b);
    assert b == c ==> Xor8(Xor8(a, b), c) == a;
    assert Xor8(Xor8(a, b), c) == a ==> b ^ c == 0;
  }

  /** A client's close frame with a reason: something of the right length arrives. */
  lemma ClientReason(size: nat, rx: Rx, payload: seq<bv8>, noFin: bool, wsi: Wsi, stale: seq<bv8>)
    requires Ready(rx) && size > 0 && wsi.Valid() && wsi.established && |stale| == 2
    requires wsi.role.Client? && wsi.closeReason != [0, 0] && |payload| < 124 && (payload == [] ==> !noFin)
    ensures Comes(size, rx, Outgoing(payload, Close, noFin, wsi, stale), 8, !noFin, Server,
                Arriving(payload, Close, wsi, stale))
  {
    SendableArrives(size, rx, payload, Close, noFin, wsi, stale, Arriving(payload, Close, wsi, stale));
  }

  /** What arrives of a client's close frame with a reason: two bytes of the key exclusive-ored with the stale bytes
      in place of the reason, and behind them the payload exactly if it does not go on to meet a difference
      between the two. */
  lemma ReasonIs(payload: seq<bv8>, wsi: Wsi, stale: seq<bv8>)
    requires wsi.Valid() && wsi.role.Client? && wsi.closeReason != [0, 0] && |stale| == 2 && |payload| < 124
    ensures var arriving, key := Arriving(payload, Close, wsi, stale), wsi.nonce;
            && arriving[0] == Xor8(key[2], stale[0]) && arriving[1] == Xor8(key[3], stale[1])
            && (arriving[2..] == payload
                <==> (|payload| > 2 ==> key[2] == stale[0]) && (|payload| > 3 ==> key[3] == stale[1]))
  {
    ArrivingBytes(payload, wsi, stale);
    hide Arriving, Xor8;
    TwoKeys(Arriving(payload, Close, wsi, stale), payload, stale, wsi.nonce);
  }

  /** Of stale bytes, key and masked payload, the first four bytes are taken for the key. */
  lemma Shifted(stale: seq<bv8>, key: seq<bv8>, m: seq<bv8>)
    requires |stale| == 2 && |key| == 4
    ensures (stale + key + m)[..4] == stale + key[..2]
    ensures (stale + key + m)[4..] == key[2..] + m
  {}

  lemma ArrivingBytes(payload: seq<bv8>, wsi: Wsi, stale: seq<bv8>)
    requires wsi.Valid() && wsi.role.Client? && wsi.closeReason != [0, 0] && |stale| == 2 && |payload| < 124
    ensures var arriving, key, wrong := Arriving(payload, Close, wsi, stale), wsi.nonce, stale + wsi.nonce[..2];
            && arriving[0] == Xor8(key[2], stale[0]) && arriving[1] == Xor8(key[3], stale[1])
            && forall i :: 0 <= i < |payload| ==>
                 arriving[2 + i] == Xor8(Xor8(payload[i], key[i % 4]), wrong[(2 + i) % 4])
  {
    var m := MaskFirst(payload, wsi.nonce, MaskedCount(2 + |payload|));
    FullyMasked(payload, wsi.nonce, 2 + |payload|);
    WrongKey(payload, stale, wsi.nonce, m);
    assert stale[..2] == stale;
    hide MaskFirst, MaskedCount, Xor8, Unmasked;
    assert Arriving(payload, Close, wsi, stale) == Unmasked(stale + wsi.nonce + m, true);
  }

  lemma MaskAt(s: seq<bv8>, key: seq<bv8>)
    requires |key| == 4
    ensures forall i :: 0 <= i < |s| ==> Mask(s, key)[i] == Xor8(s[i], key[i % 4])
  {
    hide Xor8;
  }

  lemma WrongKey(payload: seq<bv8>, stale: seq<bv8>, key: seq<bv8>, m: seq<bv8>)
    requires |stale| == 2 && |key| == 4 && |m| == |payload|
    requires forall i :: 0 <= i < |payload| ==> m[i] == Xor8(payload[i], key[i % 4])
    ensures var arriving, wrong := Unmasked(stale + key + m, true), stale + key[..2];
            && arriving[0] == Xor8(key[2], stale[0]) && arriving[1] == Xor8(key[3], stale[1])
            && forall i :: 0 <= i < |payload| ==>
                 arriving[2 + i] == Xor8(Xor8(payload[i], key[i % 4]), wrong[(2 + i) % 4])
  {
    hide Xor8;
    Shifted(stale, key, m);
    var arriving, body, wrong := Unmasked(stale + key + m, true), key[2..] + m, stale + key[..2];
    MaskAt(body, wrong);
    hide Mask;
    assert arriving == Mask(body, wrong);
    hide Unmasked;
    assert body[0] == key[2] && body[1] == key[3] && wrong[0] == stale[0] && wrong[1] == stale[1];
    forall i | 0 <= i < |payload|
      ensures arriving[2 + i] == Xor8(Xor8(payload[i], key[i % 4]), wrong[(2 + i) % 4])
    {
      assert body[2 + i] == m[i];
    }
  }

  lemma FullyMasked(payload: seq<bv8>, key: seq<bv8>, len: nat)
    requires |key| == 4 && |payload| <= len < TWO31 - 4
    ensures var m := MaskFirst(payload, key, MaskedCount(len));
            forall i :: 0 <= i < |payload| ==> m[i] == Xor8(payload[i], key[i % 4])
  {
    MaskedCountRange(len);
    hide MaskedCount, Xor8;
  }

  /** Masked with one key, and unmasked with one that is two places behind in half of its bytes. */
  lemma TwoKeys(arriving: seq<bv8>, payload: seq<bv8>, stale: seq<bv8>, key: seq<bv8>)
    requires |arriving| == 2 + |payload| && |key| == 4 && |stale| == 2
    requires forall i :: 0 <= i < |payload| ==>
      arriving[2 + i] == Xor8(Xor8(payload[i], key[i % 4]), (stale + key[..2])[(2 + i) % 4])
    ensures arriving[2..] == payload
            <==> (|payload| > 2 ==> key[2] == stale[0]) && (|payload| > 3 ==> key[3] == stale[1])
  {
    hide Xor8;
    var rest, wrong := arriving[2..], stale + key[..2];
    forall i | 0 <= i < |payload| ensures rest[i] == payload[i] <==> key[i % 4] == wrong[(2 + i) % 4] {
      assert rest[i] == arriving[2 + i];
      Cancels(payload[i], key[i % 4], wrong[(2 + i) % 4]);
    }
    assert wrong[0] == stale[0] && wrong[1] == stale[1] && wrong[2] == key[0] && wrong[3] == key[1];
    if (|payload| > 2 ==> key[2] == stale[0]) && (|payload| > 3 ==> key[3] == stale[1]) {
      forall i | 0 <= i < |payload| ensures rest[i] == payload[i] {
        TwoBehind(i);
      }
    } else if |payload| > 2 && key[2] != stale[0] {
      assert rest[2] != payload[2];
    } else {
      assert rest[3] != payload[3];
    }
  }

  lemma TwoBehind(i: nat)
    ensures (2 + i) % 4 == if i % 4 < 2 then i % 4 + 2 else i % 4 - 2
    ensures i % 4 == 2 ==> i >= 2
    ensures i % 4 == 3 ==> i >= 3
  {}

  /** Another reason than the one given: 1000 goes out, 772 comes in. */
  lemma ReasonLost(size: nat, rx: Rx)
    requires Ready(rx) && size > 1
    ensures var w := Outgoing([], Close, false, Wsi(Client, true, [0x03, 0xe8], [1, 2, 3, 4]), [0, 0]);
            Comes(size, rx, w, 8, true, Server, [3, 4]) && !Comes(size, rx, w, 8, true, Server, [0x03, 0xe8])
  {
    var wsi := Wsi(Client, true, [0x03, 0xe8], [1, 2, 3, 4]);
    ClientReason(size, rx, [], false, wsi, [0, 0]);
    ReasonIs([], wsi, [0, 0]);
    var arriving := Arriving([], Close, wsi, [0, 0]);
    assert arriving == [3, 4];
    hide Outgoing, Arriving, Feed;
    assert Spills(CLOSE, true, [3, 4], size)[..1][0].data != Spills(CLOSE, true, [0x03, 0xe8], size)[..1][0].data;
  }

  /** A ping of 126 bytes is written by a server, and not read by a client. */
  lemma LongPing(size: nat, rx: Rx, nonce: seq<bv8>)
    requires Ready(rx) && size > 0 && |nonce| == 4
    ensures var w := Outgoing(Zeros(126), Ping, false, Wsi(Server, true, [0, 0], nonce), [0, 0]);
            w.Submit? && !Comes(size, rx, w, 9, true, Client, Zeros(126))
  {
    ControlOpcodes();
    assert [] + Zeros(126) == Zeros(126);
    ServerRoundTrip(size, rx, Zeros(126), Ping, false, Wsi(Server, true, [0, 0], nonce), [0, 0]);
  }

  /** The shortest message of either end whose frame is too long, and one byte less. */
  lemma LongMessage(wsi: Wsi)
    requires wsi.Valid() && wsi.established
    ensures var n := TWO31 - 10 - KeyLength(wsi.role);
            && Outgoing(Zeros(n), Binary, false, wsi, [0, 0]) == Beyond
            && Sendable(Zeros(n - 1), Binary, false, wsi)
  {
    ControlOpcodes();
  }

  /** Of a message of 2^32 + 1 bytes, a server sends one. */
  lemma OneByteOfMany(wsi: Wsi)
    requires wsi.Valid() && wsi.established && wsi.role.Server?
    ensures Outgoing(Zeros(2 * TWO31 + 1), Binary, false, wsi, [0, 0])
            == Submit(Encode(Frame(BINARY, true, [0], [])))
  {
    var payload := Zeros(2 * TWO31 + 1);
    assert Cut(payload, Binary, wsi) == 1;
    var header := Header(BINARY, true, 1, false);
    WholeFrame(BINARY, true, [0], false);
    hide Header, Encode;
    assert [] + payload == payload && (header + payload)[..|header| + 1] == header + [0];
  }

  // ---------------------------------------------------------------- the bytes of a sendable message

  /** The first byte of whatever is submitted for a frame: FIN, and the opcode of section 5.2 of RFC 6455. */
  lemma FirstSent(payload: seq<bv8>, kind: Kind, noFin: bool, wsi: Wsi, stale: seq<bv8>)
    requires kind != Http && wsi.Valid() && |stale| == 2
    ensures var w := Outgoing(payload, kind, noFin, wsi, stale);
            w.Submit? && w.bytes != [] ==>
              && w.bytes[0] as nat % 16
                 == (match kind
                     case Continuation => 0 case Text => 1 case Binary => 2 case Close => 8 case Ping => 9 case _ => 10)
              && w.bytes[0] as nat / 16 == if noFin then 0 else 8
  {
    var w := Outgoing(payload, kind, noFin, wsi, stale);
    OpcodeNumbers();
    FirstIs(OpcodeOf(kind), !noFin);
    SubmitIs(payload, kind, noFin, wsi, stale);
    FirstOf(OpcodeOf(kind), !noFin, Cut(payload, kind, wsi), wsi.role.Client?);
    hide Outgoing, Header, Behind, Cut, Reason, FirstByte;
    if w.Submit? && w.bytes != [] {
      assert w.bytes[0] == FirstByte(OpcodeOf(kind), !noFin);
    }
  }

  lemma FirstOf(opcode: bv8, fin: bool, s: int, masked: bool)
    requires -TWO31 <= s < TWO63
    ensures |Header(opcode, fin, s, masked)| >= 2 && Header(opcode, fin, s, masked)[0] == FirstByte(opcode, fin)
  {}

  /** What a server submits of a sendable message is a minimal unmasked frame of it. */
  lemma ServerEncodes(payload: seq<bv8>, kind: Kind, noFin: bool, wsi: Wsi, stale: seq<bv8>)
    requires kind != Http && wsi.Valid() && wsi.established && |stale| == 2 && wsi.role.Server?
    requires Sendable(payload, kind, noFin, wsi)
    ensures Outgoing(payload, kind, noFin, wsi, stale)
            == Submit(Encode(Frame(OpcodeOf(kind), !noFin, Reason(kind, wsi) + payload, [])))
  {
    SentPlain(payload, kind, wsi, stale);
    hide Outgoing, Encode, Arriving, Sendable, Following, Reason;
    Submitted(payload, kind, noFin, wsi, stale);
  }

  /** What a client submits of a sendable message without a reason is a minimal masked frame of it. */
  lemma ClientEncodes(payload: seq<bv8>, kind: Kind, noFin: bool, wsi: Wsi, stale: seq<bv8>)
    requires kind != Http && wsi.Valid() && wsi.established && |stale| == 2 && wsi.role.Client?
    requires Sendable(payload, kind, noFin, wsi) && Reason(kind, wsi) == []
    ensures Outgoing(payload, kind, noFin, wsi, stale)
            == Submit(Encode(Frame(OpcodeOf(kind), !noFin, payload, wsi.nonce)))
  {
    assert |payload| < TWO31 - 4;
    SentMasked(payload, kind, wsi, stale);
    GarbledIs(payload, wsi.nonce);
    hide Outgoing, Encode, Arriving, Sendable, Following, Reason, Garbled;
    Submitted(payload, kind, noFin, wsi, stale);
  }

  lemma Submitted(payload: seq<bv8>, kind: Kind, noFin: bool, wsi: Wsi, stale: seq<bv8>)
    requires kind != Http && wsi.Valid() && wsi.established && |stale| == 2 && Sendable(payload, kind, noFin, wsi)
    ensures Outgoing(payload, kind, noFin, wsi, stale)
            == Submit(Encode(Frame(OpcodeOf(kind), !noFin, Arriving(payload, kind, wsi, stale),
                                   if wsi.role.Client? then Following(payload, kind, wsi, stale)[..4] else [])))
  {
    var s, behind := |Reason(kind, wsi)| + |payload|, Following(payload, kind, wsi, stale);
    assert s < TWO63;
    hide Sendable;
    SendableIs(payload, kind, noFin, wsi, stale);
    SubmitIs(payload, kind, noFin, wsi, stale);
    assert Outgoing(payload, kind, noFin, wsi, stale)
        == Submit(FrameBytes(OpcodeOf(kind), !noFin, s, behind, wsi.role.Client?)) by {
      hide Outgoing, Header, Behind, Cut, Control, OpcodeOf, Reason, FrameBytes;
    }
    assert behind[..|behind|] == behind;
    hide Outgoing, Following, Encode, Unmasked, OpcodeOf, Reason, FrameBytes, HeaderLength, Stated;
    FrameWhole(OpcodeOf(kind), !noFin, s, behind, wsi.role.Client?);
  }
}
