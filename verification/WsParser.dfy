/** The connection object that the frame parsers update (struct _lws_websocket_related), and the two
    parsers as methods over it.  Each method does to the fields exactly what `Step` says. */
module WsParser {
  import opened WsFrame
  import opened CWords
  import opened WsReceive

  const PRE_PADDING: nat := 18
  const POST_PADDING: nat := 4
  const MAX_SOCKET_IO_BUF: nat := 4096

  class Parser {
    const protocolSize: nat  // the protocol's rx_buffer_size, 0 for the default
    var phase: Phase
    var opcode: bv8
    var fin: bool
    var binary: bool
    var masked: bool
    var length: nat          // rx_packet_length, a 64-bit size_t
    const nonce: array<bv8>  // frame_masking_nonce_04
    var maskIndex: nat       // frame_mask_index, an unsigned char
    var allZero: bool
    const buffer: array<bv8> // rx_user_buffer
    var head: nat            // rx_user_buffer_head

    function Size(): (n: nat)
      ensures n > 0
    {
      if protocolSize == 0 then MAX_SOCKET_IO_BUF else protocolSize
    }

    ghost predicate Valid()
      reads this, nonce, buffer
    {
      && nonce.Length == 4 && buffer.Length == PRE_PADDING + Size() + POST_PADDING && nonce != buffer
      && head <= Size() && State().Valid() && Room(Size(), State())
    }

    ghost function State(): Rx
      requires nonce.Length == 4 && PRE_PADDING + head <= buffer.Length
      reads this, nonce, buffer
    {
      Rx(phase, opcode, fin, binary, masked, length, nonce[..], maskIndex, allZero,
         buffer[PRE_PADDING..PRE_PADDING + head])
    }

    /** The state after the handshake: everything cleared. */
    constructor (protocolSize: nat)
      ensures Valid() && Ready(State()) && this.protocolSize == protocolSize
      ensures fresh(nonce) && fresh(buffer)
    {
      this.protocolSize := protocolSize;
      phase, opcode, fin, binary, masked := New, 0, false, false, false;
      length, maskIndex, allZero, head := 0, 0, false, 0;
      nonce := new bv8[4](i => 0);
      var size := if protocolSize == 0 then MAX_SOCKET_IO_BUF else protocolSize;
      buffer := new bv8[PRE_PADDING + size + POST_PADDING];
    }

    /** The fields are now as the outcome says. */
    ghost predicate Became(o: Outcome, alive: bool, spills: seq<Spill>)
      requires nonce.Length == 4 && PRE_PADDING + head <= buffer.Length
      reads this, nonce, buffer
    {
      alive == o.Alive? && spills == o.spills && (alive ==> State() == o.rx)
    }

    /** The code at the label `spill`, as far as the parser's own fields go. */
    method SpillBuffer() returns (alive: bool, spills: seq<Spill>)
      requires nonce.Length == 4 && PRE_PADDING + head <= buffer.Length
      modifies this`head
      ensures PRE_PADDING + head <= buffer.Length && Became(SpillNow(old(State())), alive, spills)
    {
      spills := [Spill(opcode, fin, buffer[PRE_PADDING..PRE_PADDING + head], length)];
      alive := opcode != CLOSE;
      if alive {
        head := 0;
      }
    }

    method BeginPayload() returns (alive: bool, spills: seq<Spill>)
      requires nonce.Length == 4 && PRE_PADDING + head <= buffer.Length
      modifies this`head, this`phase
      ensures PRE_PADDING + head <= buffer.Length && Became(Begin(old(State())), alive, spills)
    {
      if length == 0 {
        phase := New;
        alive, spills := SpillBuffer();
      } else {
        phase := Payload;
        alive, spills := true, [];
      }
    }

    method EndLength(role: Role, extended: bool) returns (alive: bool, spills: seq<Spill>)
      requires nonce.Length == 4 && PRE_PADDING + head <= buffer.Length
      modifies this`head, this`phase
      ensures PRE_PADDING + head <= buffer.Length && Became(AfterLength(role, old(State()), extended), alive, spills)
    {
      if masked {
        phase := Key(1);
        alive, spills := true, [];
      } else if extended && role.Server? {
        phase := Payload;
        alive, spills := true, [];
      } else {
        alive, spills := BeginPayload();
      }
    }

    /** LWS_RXPS_NEW, going on at `handle_first`. */
    method RxNew(role: Role, c: bv8)
      requires Valid() && phase == New
      modifies this
      ensures head == old(head) && Became(AtNew(role, old(State()), c), true, [])
    {
      if role.Server? {
        allZero := true;
      }
      opcode := Opcode(c);
      fin := Fin(c);
      if opcode == TEXT || opcode == BINARY {
        binary := opcode == BINARY;
      }
      phase := HdrLen;
    }

    /** LWS_RXPS_04_FRAME_HDR_LEN. */
    method RxHdrLen(role: Role, c: bv8) returns (alive: bool, spills: seq<Spill>)
      requires Valid() && phase == HdrLen
      modifies this
      ensures PRE_PADDING + head <= buffer.Length && Became(AtHdrLen(role, old(State()), c), alive, spills)
    {
      masked := MaskBit(c);
      var n := Length7(c);
      if n == 126 || n == 127 {
        if Control(opcode) {
          return false, [];
        }
        phase := if n == 126 then Len16_2 else Len64_(8);
        return true, [];
      }
      length := if role.Server? then n else Num(c);
      alive, spills := EndLength(role, false);
    }

    /** LWS_RXPS_04_FRAME_HDR_LEN64_8 down to LEN64_1. */
    method RxLen64(role: Role, c: bv8) returns (alive: bool, spills: seq<Spill>)
      requires Valid() && phase.Len64_?
      modifies this
      ensures PRE_PADDING + head <= buffer.Length && Became(AtLen64(role, old(State()), old(phase).k, c), alive, spills)
    {
      hide Power256, Wrap64, Num, MaskBit, AfterLength, SpillNow, Begin;
      var k := phase.k;
      if k == 8 {
        if MaskBit(c) {
          return false, [];
        }
        length := Wrap64(Num(c) * Power256(7));
        phase := Len64_(7);
        return true, [];
      }
      length := Wrap64(length + Num(c) * Power256(k - 1));
      if k > 1 {
        phase := Len64_(k - 1);
        return true, [];
      }
      alive, spills := EndLength(role, true);
    }

    /** LWS_RXPS_07_COLLECT_FRAME_KEY_1 to KEY_4. */
    method RxKey(role: Role, c: bv8) returns (alive: bool, spills: seq<Spill>)
      requires Valid() && phase.Key?
      modifies this, nonce
      ensures PRE_PADDING + head <= buffer.Length && Became(AtKey(role, old(State()), old(phase).k, c), alive, spills)
    {
      var k := phase.k;
      nonce[k - 1] := c;
      if c != 0 {
        allZero := false;
      }
      if k < 4 {
        phase := Key(k + 1);
        return true, [];
      }
      if role.Server? {
        maskIndex := 0;
      }
      alive, spills := BeginPayload();
    }

    /** The first part of LWS_RXPS_PAYLOAD_UNTIL_LENGTH_EXHAUSTED: the byte is stored. */
    method StorePayload(role: Role, c: bv8)
      requires Valid() && phase == Payload
      modifies `head, `maskIndex, `length, buffer
      ensures PRE_PADDING + head <= buffer.Length && State() == Stored(role, old(State()), c)
    {
      hide Xor8, Wrap64;
      ghost var before := buffer[PRE_PADDING..PRE_PADDING + head];
      if allZero || (role.Client? && !masked) {
        buffer[PRE_PADDING + head] := c;
      } else {
        buffer[PRE_PADDING + head] := Xor8(c, nonce[maskIndex % 4]);
        maskIndex := (maskIndex + 1) % 256;
      }
      head := head + 1;
      assert buffer[PRE_PADDING..PRE_PADDING + head] == before + [buffer[PRE_PADDING + head - 1]];
      length := Wrap64(length + TWO64 - 1);
    }

    /** LWS_RXPS_PAYLOAD_UNTIL_LENGTH_EXHAUSTED. */
    method RxPayload(role: Role, c: bv8) returns (alive: bool, spills: seq<Spill>)
      requires Valid() && phase == Payload
      modifies this, buffer
      ensures PRE_PADDING + head <= buffer.Length && Became(AtPayload(role, Size(), old(State()), c), alive, spills)
    {
      hide Stored;
      StorePayload(role, c);
      if length == 0 {
        phase := New;
        alive, spills := SpillBuffer();
      } else if head != Size() {
        alive, spills := true, [];
      } else {
        alive, spills := SpillBuffer();
      }
    }

    /** libwebsocket_rx_sm for the server role, libwebsocket_client_rx_sm for the client role: one byte. */
    method RxSm(role: Role, c: bv8) returns (alive: bool, spills: seq<Spill>)
      requires Valid()
      modifies this, nonce, buffer
      ensures PRE_PADDING + head <= buffer.Length
      ensures Became(Step(role, Size(), old(State()), c), alive, spills)
      ensures alive ==> Valid()
    {
      StepKeepsRoom(role, Size(), State(), c);
      hide Step;
      alive, spills := Switch(role, c);
    }

    /** The switch on the parser's state. */
    method Switch(role: Role, c: bv8) returns (alive: bool, spills: seq<Spill>)
      requires Valid()
      modifies this, nonce, buffer
      ensures PRE_PADDING + head <= buffer.Length && Became(Step(role, Size(), old(State()), c), alive, spills)
    {
      hide AtNew, AtHdrLen, AtLen64, AtKey, AtPayload, AfterLength, Room, Num, Wrap64;
      match phase
      case New =>
        RxNew(role, c);
        alive, spills := true, [];
      case HdrLen =>
        alive, spills := RxHdrLen(role, c);
      case Len16_2 =>
        length := Num(c) * 256;
        phase := Len16_1;
        alive, spills := true, [];
      case Len16_1 =>
        length := Wrap64(length + Num(c));
        alive, spills := EndLength(role, true);
      case Len64_(k) =>
        alive, spills := RxLen64(role, c);
      case Key(k) =>
        alive, spills := RxKey(role, c);
      case Payload =>
        alive, spills := RxPayload(role, c);
    }
  }
}
