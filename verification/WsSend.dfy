/** Partial sends of a connection that buffers what it cannot send (clean_buffer = 0, no extensions):
    lws_issue_raw (output.c) and the resend of lws_handle_POLLOUT_event (libwebsockets.c). */
module WsSend {
  import opened WsFrame
  import opened CWords
  import opened WsReceive
  import opened WsWrite

  const TWO32: nat := 0x1_0000_0000

  /** What the socket does with a send: takes some bytes, has no room, or fails. */
  datatype Sending = Took(n: nat) | Again | Failed

  class Sender {
    var truncated: array?<bv8>    // truncated_send_malloc
    var offset: nat               // truncated_send_offset
    var len: nat                  // truncated_send_len, an unsigned int
    ghost var wire: seq<bv8>      // every byte the socket took
    ghost var submitted: seq<bv8> // every buffer accepted for sending

    ghost predicate Valid()
      reads this, truncated
    {
      truncated != null ==> offset + len <= truncated.Length
    }

    /** The bytes still to be sent. */
    ghost function Tail(): seq<bv8>
      requires Valid()
      reads this, truncated
    {
      if truncated == null then [] else truncated[offset..offset + len]
    }

    ghost predicate Conserved()
      requires Valid()
      reads this, truncated
    {
      wire + Tail() == submitted
    }

    constructor ()
      ensures Valid() && Conserved() && truncated == null && wire == []
    {
      truncated, offset, len := null, 0, 0;
      wire, submitted := [], [];
    }

    /** lws_issue_raw on a new buffer, nothing being pending.  Everything submitted stays accounted
        for exactly when the remainder fits the unsigned int that counts it.  The length is returned in an int. */
    method IssueNew(buf: seq<bv8>, sending: Sending) returns (r: int)
      requires Valid() && Conserved() && truncated == null
      requires sending.Took? ==> sending.n <= |buf|
      modifies this
      ensures Valid() && r == if sending.Failed? then -1 else Int32(|buf|)
      ensures submitted == if sending.Failed? then old(submitted) else old(submitted) + buf
      ensures wire == old(wire) + (if sending.Took? then buf[..sending.n] else [])
      ensures var rest := |buf| - (if sending.Took? then sending.n else 0);
              && (Conserved() <==> sending.Failed? || rest < TWO32)
              && (Conserved() ==> (truncated == null <==> Tail() == []))
      ensures truncated == null || fresh(truncated)
    {
      if sending.Failed? {
        assert wire + [] == wire;
        return -1;
      }
      var n := if sending.Took? then sending.n else 0;
      Accounted(wire, buf, n, if n < |buf| then (|buf| - n) % TWO32 else 0);
      wire := wire + buf[..n];
      submitted := submitted + buf;
      if n < |buf| {
        KeepRest(buf[n..]);
      }
      return Int32(|buf|);
    }

    /** A copy of what was not sent, counted in an unsigned int. */
    method KeepRest(rest: seq<bv8>)
      modifies `truncated, `offset, `len
      ensures truncated != null && fresh(truncated) && offset == 0 && len == |rest| % TWO32 <= truncated.Length
      ensures Valid() && Tail() == rest[..|rest| % TWO32]
    {
      truncated := new bv8[|rest|](i requires 0 <= i < |rest| => rest[i]);
      offset, len := 0, |rest| % TWO32;
      assert truncated[..] == rest;
    }

    /** lws_issue_raw on the pending remainder, when the socket is writable. */
    method Resend(sending: Sending) returns (ok: bool)
      requires Valid() && Conserved() && truncated != null
      requires sending.Took? ==> sending.n <= len
      modifies this
      ensures Valid() && Conserved()
      ensures ok ==> (truncated == null <==> Tail() == [])
      ensures ok == !sending.Failed? && submitted == old(submitted)
      ensures wire == old(wire) + (if sending.Took? then old(Tail())[..sending.n] else [])
      ensures truncated == null || truncated == old(truncated)
    {
      if sending.Failed? {
        return false;
      }
      var n := if sending.Took? then sending.n else 0;
      MoveOn(wire, Tail(), n);
      wire := wire + Tail()[..n];
      Advance(n);
      return true;
    }

    /** The pending remainder without its first `n` bytes, freed when none is left. */
    method Advance(n: nat)
      requires Valid() && truncated != null && n <= len
      modifies `truncated, `offset, `len
      ensures Valid() && Tail() == old(Tail())[n..] && (truncated == null || truncated == old(truncated))
      ensures truncated == null <==> Tail() == []
    {
      TailFrom(truncated, offset, len, n);
      offset, len := offset + n, len - n;
      if len == 0 {
        truncated := null;
      }
    }
  }

  lemma MoveOn(wire: seq<bv8>, tail: seq<bv8>, n: nat)
    requires n <= |tail|
    ensures wire + tail[..n] + tail[n..] == wire + tail
  {}

  lemma TailFrom(a: array<bv8>, offset: nat, len: nat, n: nat)
    requires offset + len <= a.Length && n <= len
    ensures a[offset + n..offset + len] == a[offset..offset + len][n..]
  {}

  /** What is on the wire and the first `k` bytes behind it are all that was submitted if and only if those are all. */
  lemma Accounted(wire: seq<bv8>, buf: seq<bv8>, n: nat, k: nat)
    requires n <= |buf| && k <= |buf| - n
    ensures wire + buf[..n] + buf[n..][..k] == wire + buf <==> k == |buf| - n
    ensures n == |buf| ==> wire + buf[..n] + [] == wire + buf
  {
    if k == |buf| - n {
      assert buf[n..][..k] == buf[n..] && buf[..n] + buf[n..] == buf;
    } else {
      assert |wire + buf[..n] + buf[n..][..k]| != |wire + buf|;
    }
  }

  /** A buffer of 2^32 bytes, when the socket has no room at all: none of it is kept. */
  method RemainderLost() returns (s: Sender)
    ensures s.Valid() && !s.Conserved()
  {
    s := new Sender();
    var r := s.IssueNew(seq(TWO32, i => 0), Again);
  }

  // ---------------------------------------------------------------- from one end to the other

  datatype Message = Message(kind: Kind, noFin: bool, payload: seq<bv8>, nonce: seq<bv8>) {
    /** The connection it is written to, for a reader in that role. */
    function On(reader: Role): Wsi {
      Wsi(Peer(reader), true, [0, 0], nonce)
    }

    /** A message that is not the last one, and that `Write` turns into a frame the reader can read: see
        ClientRoundTrip and ServerRoundTrip. */
    ghost predicate Good(reader: Role) {
      kind != Http && kind != Close && |nonce| == 4 && Sendable(payload, kind, noFin, On(reader))
    }

    /** What is submitted for a reader in that role. */
    function Bytes(reader: Role): seq<bv8>
      requires Good(reader)
    {
      var w := Outgoing(payload, kind, noFin, On(reader), [0, 0]);
      if w.Submit? then w.bytes else []
    }

    ghost function AsSent(reader: Role): Sent
      requires Good(reader)
    {
      Sent(Frame(OpcodeOf(kind), !noFin, payload, if reader == Server then nonce else []), Minimal(|payload|))
    }
  }

  ghost predicate AllGoodMessages(reader: Role, ms: seq<Message>) {
    forall i :: 0 <= i < |ms| ==> ms[i].Good(reader)
  }

  function MessageBytes(reader: Role, ms: seq<Message>): seq<bv8>
    requires AllGoodMessages(reader, ms)
  {
    if ms == [] then [] else ms[0].Bytes(reader) + MessageBytes(reader, ms[1..])
  }

  function MessageSpills(ms: seq<Message>, size: nat): seq<Spill>
    requires size > 0 && forall i :: 0 <= i < |ms| ==> ms[i].kind != Http
  {
    if ms == [] then []
    else Spills(OpcodeOf(ms[0].kind), !ms[0].noFin, ms[0].payload, size) + MessageSpills(ms[1..], size)
  }

  /** What is submitted of a good message is a frame that the reader can read. */
  lemma MessageIsFrame(reader: Role, m: Message)
    requires m.Good(reader)
    ensures m.AsSent(reader).Good(reader)
    ensures Outgoing(m.payload, m.kind, m.noFin, m.On(reader), [0, 0]) == Submit(m.Bytes(reader))
    ensures 0 < |m.Bytes(reader)| < TWO31
    ensures m.Bytes(reader) == EncodeAs(m.AsSent(reader).frame, m.AsSent(reader).form)
  {
    ControlOpcodes();
    assert [] + m.payload == m.payload;
    if reader == Server {
      ClientEncodes(m.payload, m.kind, m.noFin, m.On(reader), [0, 0]);
    } else {
      ServerEncodes(m.payload, m.kind, m.noFin, m.On(reader), [0, 0]);
    }
    EncodedLength(m.AsSent(reader).frame);
    hide Outgoing, EncodeAs, FirstByte, LengthBytes;
  }

  lemma EncodedLength(f: Frame)
    requires f.Valid()
    ensures |Encode(f)| == HeaderLength(|f.payload|) + |f.mask| + |f.payload|
  {}

  lemma {:induction false} MessagesAreStream(reader: Role, ms: seq<Message>, size: nat) returns (sent: seq<Sent>)
    requires AllGoodMessages(reader, ms) && size > 0
    ensures AllGood(reader, sent) && Stream(reader, sent) == MessageBytes(reader, ms)
    ensures StreamSpills(sent, size) == MessageSpills(ms, size)
  {
    hide Spills, EncodeAs, Outgoing;
    if ms == [] {
      sent := [];
    } else {
      var rest := MessagesAreStream(reader, ms[1..], size);
      MessageIsFrame(reader, ms[0]);
      sent := [ms[0].AsSent(reader)] + rest;
      assert sent[1..] == rest;
    }
  }

  /** In either direction, whatever the socket took when, and however the reader divides what arrives
      into reads: what the reader has delivered is an initial part of the messages' spills, and once
      nothing is pending it is all of them, with the parser between frames. */
  lemma EndToEnd(reader: Role, s: Sender, ms: seq<Message>, size: nat, rx: Rx, pieces: seq<seq<bv8>>)
    requires s.Valid() && s.Conserved() && AllGoodMessages(reader, ms) && s.submitted == MessageBytes(reader, ms)
    requires Ready(rx) && size > 0 && Join(pieces) == s.wire
    ensures var o := FeedPieces(reader, size, Alive(rx, []), pieces);
            && o.Alive? && o.spills <= MessageSpills(ms, size)
            && (s.Tail() == [] ==> Ready(o.rx) && o.spills == MessageSpills(ms, size))
  {
    AnyDivision(reader, size, Alive(rx, []), pieces);
    ThenQuiet(reader, size, rx, s.wire);
    var sent := MessagesAreStream(reader, ms, size);
    FeedStream(reader, size, rx, sent);
    FeedAppend(reader, size, rx, s.wire, s.Tail());
    hide Feed, MessageBytes, MessageSpills;
    assert s.Tail() == [] ==> s.wire + s.Tail() == s.wire;
  }
}
