/**
 * The tunnel's message format: server.js makes messages and reads their headers, http_client.c reads
 * them in pieces. What a reader makes of any pieces, and that whole messages come through.
 */
module TunnelCode {
  import opened Bytes
  import opened CWords
  import BufPool

  const MAGIC: nat := 0x10293874
  const VERSION: Byte := 1
  const HEADER_LEN: nat := 16
  const HTTP_IN_MAX: nat := 20480

  datatype Message = Message(kind: Byte, number: nat, payload: Text)

  // ---------------------------------------------------------------- numbers in network order

  function BigEndian(n: nat, size: nat): (s: Text)
    ensures |s| == size
  {
    if size == 0 then [] else BigEndian(n / 256, size - 1) + [n % 256]
  }

  function NumberOf(s: Text): nat {
    if s == [] then 0 else 256 * NumberOf(s[..|s| - 1]) + s[|s| - 1]
  }

  lemma {:induction false} NumberBack(n: nat, size: nat)
    requires n < Power256(size)
    ensures NumberOf(BigEndian(n, size)) == n
  {
    if size > 0 {
      var s := BigEndian(n, size);
      assert s[..|s| - 1] == BigEndian(n / 256, size - 1);
      NumberBack(n / 256, size - 1);
    }
  }

  lemma Powers()
    ensures Power256(2) == 0x1_0000 && Power256(4) == 0x1_0000_0000
  {
    assert Power256(1) == 256;
    assert Power256(3) == 256 * Power256(2);
  }

  // ---------------------------------------------------------------- making a message

  function HeaderText(kind: Byte, number: nat, total: nat): (h: Text)
    ensures |h| == HEADER_LEN
  {
    BigEndian(MAGIC, 4) + [VERSION, kind] + BigEndian(number, 2) + BigEndian(total, 4) + BigEndian(0, 4)
  }

  /** The header byte by byte, every number the most significant byte first. */
  lemma HeaderBytes(kind: Byte, number: nat, total: nat)
    requires number < 0x1_0000 && total < 0x1_0000_0000
    ensures HeaderText(kind, number, total)
            == [0x10, 0x29, 0x38, 0x74, 1, kind, number / 0x100, number % 0x100, total / 0x100_0000,
                total / 0x1_0000 % 0x100, total / 0x100 % 0x100, total % 0x100, 0, 0, 0, 0]
  {
    FourBytes(MAGIC);
    FourBytes(total);
    FourBytes(0);
    TwoBytes(number);
    hide BigEndian;
    Joined(BigEndian(MAGIC, 4), kind, BigEndian(number, 2), BigEndian(total, 4), BigEndian(0, 4));
  }

  lemma Joined(a: Text, kind: Byte, b: Text, c: Text, d: Text)
    requires |a| == |c| == |d| == 4 && |b| == 2
    ensures a + [VERSION, kind] + b + c + d
            == [a[0], a[1], a[2], a[3], VERSION, kind, b[0], b[1], c[0], c[1], c[2], c[3], d[0], d[1], d[2], d[3]]
  {}

  lemma TwoBytes(n: nat)
    ensures BigEndian(n, 2) == [n / 0x100 % 0x100, n % 0x100]
  {
    assert BigEndian(n / 256, 1) == [] + [n / 256 % 256];
  }

  lemma FourBytes(n: nat)
    ensures BigEndian(n, 4)
            == [n / 0x100_0000 % 0x100, n / 0x1_0000 % 0x100, n / 0x100 % 0x100, n % 0x100]
  {
    TwoBytes(n / 0x1_0000);
    assert n / 256 / 256 == n / 0x1_0000 && n / 0x1_0000 / 0x100 == n / 0x100_0000;
    assert BigEndian(n / 256, 3) == BigEndian(n / 256 / 256, 2) + [n / 256 % 256];
  }

  function Encode(m: Message): Text { HeaderText(m.kind, m.number, HEADER_LEN + |m.payload|) + m.payload }

  function Concat(bufs: seq<Text>): Text { if bufs == [] then [] else bufs[0] + Concat(bufs[1..]) }

  lemma {:induction false} ConcatSnoc(bufs: seq<Text>, b: Text)
    ensures Concat(bufs + [b]) == Concat(bufs) + b
  {
    if bufs == [] {
      assert [b][1..] == [];
    } else {
      assert (bufs + [b])[1..] == bufs[1..] + [b];
      ConcatSnoc(bufs[1..], b);
      assert bufs[0] + (Concat(bufs[1..]) + b) == bufs[0] + Concat(bufs[1..]) + b;
    }
  }

  /** A message, or the exception of a Buffer write whose number does not fit its field. */
  datatype Made = Made(bytes: Text) | Thrown

  method WriteBE(buffer: array<Byte>, n: int, at: nat, size: nat) returns (ok: bool)
    requires at + size <= buffer.Length
    modifies buffer
    ensures ok == (0 <= n < Power256(size))
    ensures ok ==> buffer[..] == old(buffer[..at]) + BigEndian(n, size) + old(buffer[at + size..])
    ensures !ok ==> buffer[..] == old(buffer[..])
  {
    ok := 0 <= n < Power256(size);
    if ok {
      var value := BigEndian(n, size);
      forall k | 0 <= k < size {
        buffer[at + k] := value[k];
      }
    }
  }

  /** createReq: throws exactly when the type, the sequence number or the total does not fit its field. */
  method CreateReq(bufs: seq<Text>, kind: int, number: int) returns (r: Made)
    ensures r == if 0 <= kind < 256 && 0 <= number < 0x1_0000 && HEADER_LEN + |Concat(bufs)| < 0x1_0000_0000
                 then Made(Encode(Message(kind, number, Concat(bufs)))) else Thrown
  {
    Powers();
    var total := HEADER_LEN;
    var payload: Text := [];
    for i := 0 to |bufs|
      invariant payload == Concat(bufs[..i]) && total == HEADER_LEN + |payload|
    {
      assert bufs[..i + 1] == bufs[..i] + [bufs[i]];
      ConcatSnoc(bufs[..i], bufs[i]);
      total := total + |bufs[i]|;
      payload := payload + bufs[i];
    }
    assert bufs[..|bufs|] == bufs;
    var buffer := new Byte[16];
    var ok := WriteBE(buffer, MAGIC, 0, 4);
    buffer[4] := VERSION;
    if !(0 <= kind < 256) {
      return Thrown;
    }
    buffer[5] := kind;
    assert buffer[..6] == BigEndian(MAGIC, 4) + [VERSION, kind];
    ok := WriteBE(buffer, number, 6, 2);
    if !ok {
      return Thrown;
    }
    assert buffer[..8] == BigEndian(MAGIC, 4) + [VERSION, kind] + BigEndian(number, 2);
    ok := WriteBE(buffer, total, 8, 4);
    if !ok {
      return Thrown;
    }
    assert buffer[..12] == BigEndian(MAGIC, 4) + [VERSION, kind] + BigEndian(number, 2) + BigEndian(total, 4);
    ok := WriteBE(buffer, 0, 12, 4);
    assert buffer[..16] == HeaderText(kind, number, total);
    r := Made(buffer[..] + payload);
  }

  // ---------------------------------------------------------------- reading a header

  datatype Header = Header(magic: nat, version: Byte, kind: Byte, number: nat, length: nat)

  /** The fields both readers take from the first bytes of a message. */
  function HeaderOf(s: Text): Header
    requires |s| >= HEADER_LEN
  {
    Header(NumberOf(s[0..4]), s[4], s[5], NumberOf(s[6..8]), NumberOf(s[8..12]))
  }

  lemma HeaderBack(kind: Byte, number: nat, total: nat, more: Text)
    requires number < 0x1_0000 && total < 0x1_0000_0000
    ensures HeaderOf(HeaderText(kind, number, total) + more) == Header(MAGIC, VERSION, kind, number, total)
  {
    hide BigEndian, NumberOf;
    Powers();
    hide Power256;
    var s := HeaderText(kind, number, total) + more;
    assert s[0..4] == BigEndian(MAGIC, 4);
    assert s[6..8] == BigEndian(number, 2);
    assert s[8..12] == BigEndian(total, 4);
    NumberBack(MAGIC, 4);
    NumberBack(number, 2);
    NumberBack(total, 4);
  }

  // ---------------------------------------------------------------- reading in pieces

  /** Between messages, or inside one with so much of its payload. */
  datatype Reader = Idle | Reading(kind: Byte, number: nat, total: int, got: Text)

  /** What one piece does: a return code and perhaps a message, or a header whose length the C code would
      turn into a negative one. */
  datatype Taken = Taken(reader: Reader, rc: int, messages: seq<Message>) | Undefined

  /** http_mgmt_prepare, as long as there are buffers. */
  function Take(r: Reader, piece: Text): Taken {
    if r.Reading? then TakeMore(r, piece)
    else if |piece| < HEADER_LEN then Taken(Idle, 10, [])
    else
      var h := HeaderOf(piece);
      if h.magic != MAGIC || h.version != VERSION then Taken(Idle, 11, [])
      else if h.length > HTTP_IN_MAX then Taken(Idle, 12, [])
      else TakeMore(Reading(h.kind, h.number, h.length - HEADER_LEN, []), piece[HEADER_LEN..])
  }

  function TakeMore(r: Reader, piece: Text): Taken
    requires r.Reading?
  {
    var got := r.got + piece;
    if piece == [] then Taken(r, 0, [])
    else if |got| < r.total then Taken(r.(got := got), 0, [])
    else if r.total < 0 then Undefined
    else Taken(Idle, 0, [Message(r.kind, r.number, got[..r.total])])
  }

  /** A run of pieces, to its end or to where it goes wrong. */
  function TakeAll(r: Reader, pieces: seq<Text>): Taken
    decreases |pieces|
  {
    if pieces == [] then Taken(r, 0, [])
    else
      match Take(r, pieces[0])
      case Undefined => Undefined
      case Taken(r1, rc, ms) => if rc != 0 then Taken(r1, rc, ms) else
        match TakeAll(r1, pieces[1..])
        case Undefined => Undefined
        case Taken(r2, rc2, ms2) => Taken(r2, rc2, ms + ms2)
  }

  /** The piece with the header, taken apart. */
  lemma HeaderTaken(m: Message, piece: Text)
    requires m.number < 0x1_0000 && HEADER_LEN + |m.payload| <= HTTP_IN_MAX
    requires HEADER_LEN <= |piece| && piece <= Encode(m)
    ensures Take(Idle, piece) == TakeMore(Reading(m.kind, m.number, |m.payload|, []), piece[HEADER_LEN..])
  {
    hide HeaderOf, TakeMore, HeaderText;
    var total := HEADER_LEN + |m.payload|;
    assert piece == Encode(m)[..|piece|];
    assert piece == HeaderText(m.kind, m.number, total) + piece[HEADER_LEN..];
    HeaderBack(m.kind, m.number, total, piece[HEADER_LEN..]);
  }

  /** A message with no payload is not delivered: the reader is left inside it, and takes whatever comes
      next for its end. */
  lemma EmptyMessage(m: Message, next: Text)
    requires m.number < 0x1_0000 && m.payload == [] && next != []
    ensures Take(Idle, Encode(m)) == Taken(Reading(m.kind, m.number, 0, []), 0, [])
    ensures Take(Reading(m.kind, m.number, 0, []), next) == Taken(Idle, 0, [m])
  {
    HeaderTaken(m, Encode(m));
    assert Encode(m)[HEADER_LEN..] == [];
  }

  /** A message that comes in one piece, which has to be smaller than a buffer, is delivered if and only if its
      payload is not empty. */
  lemma DeliveredIff(m: Message)
    requires m.number < 0x1_0000 && |Encode(m)| < BufPool.HTTP_BUF_SIZE
    ensures Take(Idle, Encode(m)) == Taken(Idle, 0, [m]) <==> m.payload != []
  {
    if m.payload != [] {
      assert Concat([Encode(m)]) == Encode(m) + Concat([]);
      HeaderTaken(m, Encode(m));
      assert Encode(m)[HEADER_LEN..] == m.payload && [] + m.payload == m.payload;
      assert m.payload[..|m.payload|] == m.payload;
    } else {
      EmptyMessage(m, [0]);
    }
  }

  // ---------------------------------------------------------------- a message, piece by piece

  /** A message whose pieces meet what the reader asks of them. */
  ghost predicate Delivery(m: Message, pieces: seq<Text>) {
    && m.number < 0x1_0000 && m.payload != [] && HEADER_LEN + |m.payload| <= HTTP_IN_MAX
    && pieces != [] && |pieces[0]| >= HEADER_LEN && Concat(pieces) == Encode(m)
    && forall i :: 0 <= i < |pieces| ==> pieces[i] != []
  }

  /** The reader after so many of the pieces. */
  ghost function After(m: Message, pieces: seq<Text>, i: nat): Reader
    requires i <= |pieces|
  {
    if i == 0 || i == |pieces| || |Concat(pieces[..i])| < HEADER_LEN then Idle
    else Reading(m.kind, m.number, |m.payload|, Concat(pieces[..i])[HEADER_LEN..])
  }

  lemma {:induction false} ConcatSplit(a: seq<Text>, b: seq<Text>)
    ensures Concat(a + b) == Concat(a) + Concat(b)
    decreases |a|
  {
    if a == [] {
      assert a + b == b;
    } else {
      assert (a + b)[1..] == a[1..] + b;
      ConcatSplit(a[1..], b);
    }
  }

  /** So far, the next piece, and what is still to come. */
  lemma ConcatAt(pieces: seq<Text>, i: nat)
    requires i < |pieces|
    ensures Concat(pieces) == Concat(pieces[..i]) + pieces[i] + Concat(pieces[i + 1..])
    ensures Concat(pieces[..i + 1]) == Concat(pieces[..i]) + pieces[i]
  {
    hide Concat;
    SplitAt(pieces, i);
    ConcatSnoc(pieces[..i], pieces[i]);
    ConcatSplit(pieces[..i + 1], pieces[i + 1..]);
  }

  lemma SplitAt(pieces: seq<Text>, i: nat)
    requires i < |pieces|
    ensures pieces[..i + 1] == pieces[..i] + [pieces[i]] && pieces == pieces[..i + 1] + pieces[i + 1..]
  {}

  /** Nothing but the last piece ends with the message. */
  lemma MoreToCome(m: Message, pieces: seq<Text>, i: nat)
    requires Delivery(m, pieces) && 0 < i <= |pieces|
    ensures HEADER_LEN <= |Concat(pieces[..i])| <= |Encode(m)|
            && (|Concat(pieces[..i])| < |Encode(m)| <==> i < |pieces|)
    ensures Concat(pieces[..i]) == Encode(m)[..|Concat(pieces[..i])|]
  {
    hide Encode;
    assert pieces == pieces[..i] + pieces[i..];
    ConcatSplit(pieces[..i], pieces[i..]);
    ConcatAt(pieces, 0);
    assert pieces[..i][0] == pieces[0];
    if i < |pieces| {
      assert pieces[i..][0] == pieces[i];
    }
  }

  lemma FirstTaken(m: Message, pieces: seq<Text>)
    requires Delivery(m, pieces)
    ensures Take(Idle, pieces[0]) == Taken(After(m, pieces, 1), 0, if 1 < |pieces| then [] else [m])
  {
    hide Encode, TakeMore, HeaderOf;
    MoreToCome(m, pieces, 1);
    ConcatAt(pieces, 0);
    var piece, body := pieces[0], pieces[0][HEADER_LEN..];
    assert Concat(pieces[..1]) == piece;
    HeaderTaken(m, piece);
    if body == [] {
      HeaderOnly(m);
    } else {
      assert [] + body == body;
      Placed(m, body, piece, [], body);
    }
  }

  lemma HeaderOnly(m: Message)
    requires m.payload != []
    ensures |Encode(m)| > HEADER_LEN
    ensures TakeMore(Reading(m.kind, m.number, |m.payload|, []), [])
            == Taken(Reading(m.kind, m.number, |m.payload|, []), 0, [])
  {}

  /** Each piece but the last leaves the reader inside the message; the last one delivers it. */
  lemma StepTaken(m: Message, pieces: seq<Text>, i: nat)
    requires Delivery(m, pieces) && i < |pieces|
    ensures Take(After(m, pieces, i), pieces[i])
         == Taken(After(m, pieces, i + 1), 0, if i + 1 < |pieces| then [] else [m])
  {
    hide Encode, TakeMore, HeaderOf;
    if i == 0 {
      FirstTaken(m, pieces);
    } else {
      MoreToCome(m, pieces, i);
      MoreToCome(m, pieces, i + 1);
      ConcatAt(pieces, i);
      var now, got, piece := Concat(pieces[..i + 1]), Concat(pieces[..i])[HEADER_LEN..], pieces[i];
      assert now[HEADER_LEN..] == got + piece;
      Placed(m, got + piece, now, got, piece);
    }
  }

  lemma Placed(m: Message, all: Text, now: Text, got: Text, piece: Text)
    requires HEADER_LEN <= |now| <= |Encode(m)| && now == Encode(m)[..|now|] && all == now[HEADER_LEN..] == got + piece
    requires piece != []
    ensures TakeMore(Reading(m.kind, m.number, |m.payload|, got), piece)
         == if |now| < |Encode(m)| then Taken(Reading(m.kind, m.number, |m.payload|, all), 0, [])
             else Taken(Idle, 0, [m])
  {
    assert |now| == |Encode(m)| ==> all[..|m.payload|] == m.payload;
  }

  lemma {:induction false} OthersTaken(m: Message, pieces: seq<Text>, i: nat)
    requires Delivery(m, pieces) && i < |pieces|
    ensures TakeAll(After(m, pieces, i), pieces[i..]) == Taken(Idle, 0, [m])
    decreases |pieces| - i
  {
    hide Take, Delivery;
    StepTaken(m, pieces, i);
    assert pieces[i..][1..] == pieces[i + 1..];
    if i + 1 < |pieces| {
      OthersTaken(m, pieces, i + 1);
      assert [] + [m] == [m];
    } else {
      assert TakeAll(Idle, pieces[i + 1..]) == Taken(Idle, 0, []);
      assert [m] + [] == [m];
    }
  }

  /**
   * A message whose payload is not empty and which is not too long, cut into pieces of which the first
   * holds the whole header, is delivered once, with the kind, number and payload sent.
   */
  lemma MessageTaken(m: Message, pieces: seq<Text>)
    requires Delivery(m, pieces)
    ensures TakeAll(Idle, pieces) == Taken(Idle, 0, [m])
  {
    OthersTaken(m, pieces, 0);
    assert pieces[0..] == pieces;
  }
}
