/** Receive flow control of a server connection: libwebsocket_interpret_incoming_packet (parsers.c)
    with its stash of unread bytes, and the calls around it in libwebsockets.c.  User callbacks
    return 0 and may throttle or release their own connection, as the caller of the model says; anyone may
    release it. */
module WsFlow {
  import opened WsReceive
  import opened WsParser

  /** The switch after the calls of libwebsocket_rx_flow_control that one callback makes. */
  function After(allow: bool, calls: seq<bool>): bool {
    if calls == [] then allow else calls[|calls| - 1]
  }

  /** Whether a byte with this outcome completes a spill for the user's receive callback. */
  predicate CallsBack(o: Outcome): (b: bool)
    ensures b ==> o.Alive?
  {
    o.Alive? && o.spills != [] && ActionOf(Server, o.spills[0]).Receive?
  }

  /** Where a connection stops in a string of bytes, its switch there, and whether it is still open. */
  datatype Halt = Halt(at: nat, allow: bool, open: bool)

  /** How far a connection gets in `buf`, from place `n`: to the end, unless the callback of a byte before it, whose
      calls are `calls` of that byte, leaves it throttled, or a byte closes it. */
  function Reach(size: nat, rx: Rx, allow: bool, buf: seq<bv8>, calls: nat -> seq<bool>, n: nat): (halt: Halt)
    requires rx.Valid() && n <= |buf|
    ensures n <= halt.at <= |buf| && (halt.at < |buf| && halt.open ==> !halt.allow)
    decreases |buf| - n
  {
    if n == |buf| || !allow then Halt(n, allow, true)
    else
      var o := Step(Server, size, rx, buf[n]);
      if o.Dead? then Halt(n + 1, allow, false)
      else Reach(size, o.rx, if CallsBack(o) then After(allow, calls(n)) else allow, buf, calls, n + 1)
  }

  class Connection {
    const parser: Parser
    var allow: bool              // LWS_RXFLOW_ALLOW of rxflow_change_to
    var pending: bool            // LWS_RXFLOW_PENDING_CHANGE of rxflow_change_to
    var stash: array?<bv8>       // rxflow_buffer
    var stashLen: nat            // rxflow_len
    var stashPos: nat            // rxflow_pos
    var pollin: bool             // POLLIN and POLLOUT in this connection's poll entry
    var pollout: bool
    var open: bool
    ghost const start: Rx        // the parser's state at the beginning
    ghost var received: seq<bv8> // every byte read from the socket
    ghost var parsed: seq<bv8>   // every byte given to the parser
    ghost var log: seq<Spill>    // every spill

    /** The bytes still to be parsed. */
    ghost function Stashed(): seq<bv8>
      requires stash != null ==> stashPos <= stashLen <= stash.Length
      reads `stash, `stashLen, `stashPos, stash
    {
      if stash == null then [] else stash[stashPos..stashLen]
    }

    ghost predicate Shape()
      reads `stash, `stashLen, `stashPos, parser, parser.nonce, parser.buffer, stash
    {
      && parser.Valid() && start.Valid()
      && (stash != null ==> stashPos <= stashLen <= stash.Length && stash != parser.nonce && stash != parser.buffer)
    }

    /** The parser has had exactly `parsed`. */
    ghost predicate Parsed()
      requires parser.Valid() && start.Valid()
      reads `parsed, `log, parser, parser.nonce, parser.buffer
    {
      Feed(Server, parser.Size(), start, parsed) == Alive(parser.State(), log)
    }

    /** The switches agree: while bytes are stashed nothing more is read, a stash that may be drained
        has its rearming pending, and otherwise POLLIN is as the last applied change left it. */
    ghost predicate Switches()
      reads `stash, `pollin, `allow, `pending
    {
      && (stash != null ==> !pollin && (allow ==> pending))
      && (stash == null ==> (!allow ==> !pollin) && (!pending ==> pollin == allow))
    }

    /** Between service calls. */
    ghost predicate Valid()
      reads this, parser, parser.nonce, parser.buffer, stash
    {
      open ==>
          Shape() && Parsed() && Switches() && parsed + Stashed() == received
          && (stash != null ==> stashPos < stashLen)
    }

    constructor (protocolSize: nat)
      ensures Valid() && open && received == [] && log == [] && Ready(start) && allow && pollin && !pollout
      ensures parser.State() == start
      ensures fresh(parser) && fresh(parser.nonce) && fresh(parser.buffer) && stash == null
    {
      var p := new Parser(protocolSize);
      parser := p;
      allow, pending, pollin, pollout, open := true, false, true, false, true;
      stash, stashLen, stashPos := null, 0, 0;
      start := p.State();
      received, parsed, log := [], [], [];
    }

    /** libwebsocket_rx_flow_control. */
    method RxFlowControl(enable: bool)
      modifies this`allow, this`pending
      ensures allow == enable && pending == (old(pending) || old(allow) != enable)
    {
      if enable == allow {
        return;
      }
      allow, pending := enable, true;
    }

    /** Whether poll can report anything to serve this connection for. */
    predicate Due()
      reads `pollin, `pollout
    {
      pollin || pollout
    }

    /** libwebsocket_callback_on_writable. */
    method CallbackOnWritable()
      modifies this`pollout
      ensures pollout
    {
      pollout := true;
    }

    /** _libwebsocket_rx_flow_control: applies a pending change; while bytes are stashed it asks to be called
        back instead. */
    method ApplyRxFlow()
      modifies this`pending, this`pollin, this`pollout
      ensures old(pending) && stash == null ==> !pending && pollin == allow
      ensures !(old(pending) && stash == null) ==> pending == old(pending) && pollin == old(pollin)
      ensures pollout == (old(pollout) || (old(pending) && stash != null))
    {
      if !pending {
        return;
      }
      if stash != null {
        CallbackOnWritable();
        return;
      }
      pending := false;
      pollin := allow;
    }

    /** user_callback_handle_rxflow: a callback of this connection, which makes these calls of
        libwebsocket_rx_flow_control. */
    method UserCallback(calls: seq<bool>)
      requires Switches()
      modifies this`allow, this`pending, this`pollin, this`pollout
      ensures Switches() && allow == After(old(allow), calls) && (stash != null && allow ==> pollout)
      ensures stash == null ==> pollout == old(pollout)
    {
      for i := 0 to |calls|
        invariant pollin == old(pollin) && pollout == old(pollout) && (old(pending) ==> pending)
        invariant allow == After(old(allow), calls[..i]) && (allow != old(allow) ==> pending)
      {
        RxFlowControl(calls[i]);
        assert calls[..i + 1][i] == calls[i];
      }
      assert calls[..|calls|] == calls;
      ApplyRxFlow();
    }

    /** Another connection's callback releases this one (libwebsocket_rx_flow_allow_all_protocol). Nothing asks
        for a service call: bytes stashed are drained only if one was due before, else they stay. */
    method ReleaseFromOutside()
      requires Valid()
      modifies this`allow, this`pending
      ensures Valid() && allow
      ensures open && stash != null ==> (Due() <==> old(pollout))
    {
      hide Feed;
      RxFlowControl(true);
    }

    /** libwebsocket_rx_sm on one byte: whether the user's receive callback is due. */
    method Parse(c: bv8) returns (due: bool)
      requires open && Shape() && Parsed()
      modifies this`open, this`parsed, this`log
      modifies parser, parser.nonce, parser.buffer
      ensures parsed == old(parsed) + [c]
      ensures var o := Step(Server, parser.Size(), old(parser.State()), c); open == o.Alive? && due == CallsBack(o)
      ensures open ==> Shape() && Parsed()
      ensures open ==> parser.State() == Step(Server, parser.Size(), old(parser.State()), c).rx
    {
      hide Step, Room;
      FeedAppend(Server, parser.Size(), start, parsed, [c]);
      FeedOne(Server, parser.Size(), parser.State(), c, []);
      assert [c] + [] == [c];
      hide Feed;
      var alive, spills := parser.RxSm(Server, c);
      parsed := parsed + [c];
      log := log + spills;
      open := alive;
      assert spills + [] == spills;
      due := alive && spills != [] && ActionOf(Server, spills[0]).Receive?;
    }

    /** libwebsocket_rx_sm on one byte, with the user's receive callback, which makes these calls, if the byte
        completes a spill for it. */
    method RxByte(c: bv8, calls: seq<bool>)
      requires open && Shape() && Parsed() && Switches()
      modifies this`allow, this`pending, this`pollin, this`pollout, this`open, this`parsed, this`log
      modifies parser, parser.nonce, parser.buffer
      ensures parsed == old(parsed) + [c]
      ensures var o := Step(Server, parser.Size(), old(parser.State()), c);
              open == o.Alive? && allow == if CallsBack(o) then After(old(allow), calls) else old(allow)
      ensures open ==>
          Shape() && Parsed() && Switches()
          && parser.State() == Step(Server, parser.Size(), old(parser.State()), c).rx
      ensures stash != null ==> stash[..] == old(stash[..])
      ensures stash == null ==> pollout == old(pollout)
    {
      hide Parsed, Switches, Step;
      var due := Parse(c);
      if due {
        UserCallback(calls);
      }
    }

    /** The bytes not parsed are copied aside. */
    method StashRest(rest: seq<bv8>)
      requires Shape() && Parsed() && Switches() && stash == null && !allow && rest != []
      modifies this`stash, this`stashLen, this`stashPos
      ensures Shape() && Parsed() && Switches() && stash != null && fresh(stash) && stashPos < stashLen
              && Stashed() == rest
    {
      hide Feed, Room, Parsed;
      stash := new bv8[|rest|](i requires 0 <= i < |rest| => rest[i]);
      stashLen, stashPos := |rest|, 0;
      assert stash[..] == rest;
    }

    /** libwebsocket_interpret_incoming_packet on bytes just read, none being stashed.  `calls` of a place in
        `buf` are those of the callback that its byte leads to. */
    method Interpret(buf: seq<bv8>, calls: nat -> seq<bool>)
      requires open && Shape() && Parsed() && Switches() && stash == null
      modifies this`allow, this`pending, this`pollin, this`pollout, this`open, this`parsed, this`log, this`stash,
               this`stashLen, this`stashPos
      modifies parser, parser.nonce, parser.buffer
      ensures open ==> Shape() && Parsed() && Switches()
      ensures var halt := Reach(parser.Size(), old(parser.State()), old(allow), buf, calls, 0);
              && parsed == old(parsed) + buf[..halt.at] && allow == halt.allow && open == halt.open
              && (open ==> Stashed() == buf[halt.at..] && (stash != null <==> halt.at < |buf|))
      ensures open && stash != null ==> fresh(stash) && stashPos < stashLen && !allow
      ensures pollout == old(pollout)
    {
      hide Feed, Room, Parsed, Step, CallsBack;
      ghost var end := Reach(parser.Size(), parser.State(), allow, buf, calls, 0);
      var n := 0;
      while n < |buf|
        invariant n <= |buf| && Shape() && Parsed() && Switches() && stash == null && open
        invariant parsed == old(parsed) + buf[..n] && pollout == old(pollout)
        invariant Reach(parser.Size(), parser.State(), allow, buf, calls, n) == end
      {
        if !allow {
          StashRest(buf[n..]);
          return;
        }
        assert buf[..n + 1] == buf[..n] + [buf[n]];
        RxByte(buf[n], calls(n));
        n := n + 1;
        if !open {
          return;
        }
      }
      assert buf[..n] == buf;
    }

    /** One byte of the stash. */
    method DrainByte(calls: seq<bool>)
      requires open && Shape() && Parsed() && Switches() && stash != null && stashPos < stashLen
      modifies this`allow, this`pending, this`pollin, this`pollout, this`open, this`parsed, this`log, this`stashPos
      modifies parser, parser.nonce, parser.buffer
      ensures stashPos <= stashLen <= stash.Length && Stashed() == old(Stashed())[1..]
      ensures parsed == old(parsed) + [old(Stashed())[0]]
      ensures var o := Step(Server, parser.Size(), old(parser.State()), old(Stashed())[0]);
              && open == o.Alive? && allow == (if CallsBack(o) then After(old(allow), calls) else old(allow))
              && (open ==> Shape() && Parsed() && Switches() && parser.State() == o.rx)
    {
      hide Feed, Room, Parsed, Switches, Step, CallsBack;
      ghost var all := stash[..];
      assert Stashed() == all[stashPos..stashLen];
      stashPos := stashPos + 1;
      RxByte(stash[stashPos - 1], calls);
      assert stash[..] == all && Stashed() == all[stashPos..stashLen];
    }

    /** libwebsocket_interpret_incoming_packet on the stash itself. */
    method InterpretStash(calls: nat -> seq<bool>)
      requires open && Shape() && Parsed() && Switches() && stash != null
      modifies this`allow, this`pending, this`pollin, this`pollout, this`open, this`parsed, this`log, this`stashPos
      modifies parser, parser.nonce, parser.buffer
      ensures open ==> Shape() && Parsed() && Switches()
      ensures stashPos <= stashLen <= stash.Length
      ensures var rest := old(Stashed());
              var halt := Reach(parser.Size(), old(parser.State()), old(allow), rest, calls, 0);
              && parsed == old(parsed) + rest[..halt.at] && allow == halt.allow && open == halt.open
              && (open ==> Stashed() == rest[halt.at..])
    {
      hide Feed, Room, Parsed, Switches, Step, CallsBack;
      ghost var rest := Stashed();
      ghost var end := Reach(parser.Size(), parser.State(), allow, rest, calls, 0);
      var n := 0;
      while stashPos < stashLen
        invariant open && Shape() && Parsed() && Switches()
        invariant n <= |rest| && Stashed() == rest[n..] && parsed == old(parsed) + rest[..n]
        invariant Reach(parser.Size(), parser.State(), allow, rest, calls, n) == end
      {
        if !allow {
          return;
        }
        assert rest[n..][1..] == rest[n + 1..] && rest[..n + 1] == rest[..n] + [rest[n]];
        DrainByte(calls(n));
        n := n + 1;
        if !open {
          return;
        }
      }
      assert rest[..n] == rest && rest[n..] == [];
    }

    /** Draining the stash, and the freeing of it once drained. */
    method Drain(calls: nat -> seq<bool>)
      requires open && Shape() && Parsed() && Switches() && stash != null && allow
      modifies this`allow, this`pending, this`pollin, this`pollout, this`open, this`parsed, this`log, this`stash,
               this`stashPos
      modifies parser, parser.nonce, parser.buffer
      ensures open ==> Shape() && Parsed() && Switches()
      ensures var rest := old(Stashed());
              var halt := Reach(parser.Size(), old(parser.State()), true, rest, calls, 0);
              && parsed == old(parsed) + rest[..halt.at] && allow == halt.allow && open == halt.open
              && (open ==> Stashed() == rest[halt.at..] && (stash != null <==> halt.at < |rest|))
      ensures open && stash != null ==> stash == old(stash) && stashPos < stashLen && !allow
    {
      hide Feed, Room, Parsed, Reach;
      InterpretStash(calls);
      if open && stashPos == stashLen {
        stash := null;
        ApplyRxFlow();
      }
    }

    /** Draining what is stashed, if it may be, or reading `chunk`. */
    method Take(chunk: seq<bv8>, calls: nat -> seq<bool>)
      requires Valid() && open && (chunk != [] ==> stash == null)
      modifies this`allow, this`pending, this`pollin, this`pollout, this`open, this`parsed, this`log
      modifies this`stash, this`stashLen, this`stashPos, this`received
      modifies parser, parser.nonce, parser.buffer
      ensures Valid() && (open && stash != null ==> !allow) && received == old(received) + chunk
      ensures var bytes := old(Stashed()) + chunk;
              var halt := Reach(parser.Size(), old(parser.State()), old(allow), bytes, calls, 0);
              && parsed == old(parsed) + bytes[..halt.at] && allow == halt.allow && open == halt.open
              && (open ==> Stashed() == bytes[halt.at..])
      ensures old(stash == null) ==> pollout == old(pollout)
    {
      hide Feed, Room, Parsed, Step, CallsBack, Reach, Connection.Switches;
      ghost var bytes := Stashed() + chunk;
      Divided(parsed, bytes, Reach(parser.Size(), parser.State(), allow, bytes, calls, 0).at);
      ReachNothing(parser.Size(), parser.State(), allow, bytes, calls);
      assert parsed + bytes == received + chunk;
      received := received + chunk;
      if stash != null && allow {
        assert bytes == Stashed();
        Drain(calls);
      } else if chunk != [] {
        assert bytes == chunk;
        Interpret(chunk, calls);
      }
    }

    /** The part of libwebsocket_service_fd that serves a frame connection.  `writable` and `chunk` are what
        the poll reported, of what was armed; `unsent` says that a truncated send has to go out first;
        `onWritable` are the calls of the writable callback, and `calls` those of the callbacks of the bytes
        parsed. What was stashed and what is read are taken in as far as the callbacks let them be, and a service
        call leaves no bytes stashed that may be drained. */
    method Service(writable: bool, unsent: bool, chunk: seq<bv8>, onWritable: seq<bool>, calls: nat -> seq<bool>)
      requires Valid() && open && Due() && (chunk != [] ==> pollin) && (writable ==> pollout)
      modifies this`allow, this`pending, this`pollin, this`pollout, this`open, this`parsed, this`log
      modifies this`stash, this`stashLen, this`stashPos, this`received
      modifies parser, parser.nonce, parser.buffer
      ensures Valid() && (open && stash != null ==> !allow) && received == old(received) + chunk
      ensures var bytes := old(Stashed()) + chunk;
              var allowed := if writable && !unsent then After(old(allow), onWritable) else old(allow);
              var halt := Reach(parser.Size(), old(parser.State()), allowed, bytes, calls, 0);
              && parsed == old(parsed) + bytes[..halt.at] && allow == halt.allow && open == halt.open
              && (open ==> Stashed() == bytes[halt.at..])
      ensures old(stash == null) && !writable ==> pollout == old(pollout)
    {
      hide Feed, Room, Parsed, Step, CallsBack, Reach;
      if writable && !unsent {
        pollout := false;
        UserCallback(onWritable);
      }
      Take(chunk, calls);
    }
  }

  lemma ReachNothing(size: nat, rx: Rx, allow: bool, buf: seq<bv8>, calls: nat -> seq<bool>)
    requires rx.Valid()
    ensures buf == [] || !allow ==> Reach(size, rx, allow, buf, calls, 0) == Halt(0, allow, true)
  {}

  lemma Divided(before: seq<bv8>, s: seq<bv8>, n: nat)
    requires n <= |s|
    ensures before + s[..n] + s[n..] == before + s
  {}

  /** The frame of a text of one letter, its key all zero. */
  const LETTER: seq<bv8> := [0x81, 0x81, 0, 0, 0, 0, 0x61]

  lemma ReachNext(size: nat, rx: Rx, buf: seq<bv8>, calls: nat -> seq<bool>, n: nat, rx': Rx)
    requires rx.Valid() && n < |buf| && Step(Server, size, rx, buf[n]) == Alive(rx', [])
    ensures rx'.Valid() && Reach(size, rx, true, buf, calls, n) == Reach(size, rx', true, buf, calls, n + 1)
  {
    assert Ok(Step(Server, size, rx, buf[n]));
    hide Step;
  }

  /** A callback that throttles its connection is made at the last byte of a letter. */
  lemma LetterReach(size: nat, rx: Rx, more: seq<bv8>, calls: nat -> seq<bool>)
    requires Ready(rx) && size > 0 && calls(6) == [false]
    ensures Reach(size, rx, true, LETTER + more, calls, 0) == Halt(7, false, true)
  {
    var buf := LETTER + more;
    var rx1 := rx.(phase := HdrLen, opcode := TEXT, fin := true, binary := false, allZero := true);
    var rx2 := rx1.(phase := Key(1), masked := true, length := 1);
    var rx3 := rx2.(phase := Key(2), nonce := rx2.nonce[0 := 0]);
    var rx4 := rx3.(phase := Key(3), nonce := rx3.nonce[1 := 0]);
    var rx5 := rx4.(phase := Key(4), nonce := rx4.nonce[2 := 0]);
    var rx6 := rx5.(phase := Payload, nonce := rx5.nonce[3 := 0], maskIndex := 0);
    ReachNext(size, rx, buf, calls, 0, rx1);
    ReachNext(size, rx1, buf, calls, 1, rx2);
    ReachNext(size, rx2, buf, calls, 2, rx3);
    ReachNext(size, rx3, buf, calls, 3, rx4);
    ReachNext(size, rx4, buf, calls, 4, rx5);
    ReachNext(size, rx5, buf, calls, 5, rx6);
    LastByte(size, rx6, 0x61);
    hide Step;
  }

  lemma LastByte(size: nat, rx: Rx, c: bv8)
    requires rx.Valid() && rx.phase == Payload && rx.opcode == TEXT && rx.length == 1 && rx.allZero
    ensures CallsBack(Step(Server, size, rx, c))
  {
    var rx' := Stored(Server, rx, c);
    assert rx'.length == 0 && rx'.buffer == rx.buffer + [c];
  }

  /** The stall: a callback throttles its connection in the middle of a chunk, the rest of which is stashed; another
      connection releases it; poll has nothing to report any more, and the stash stays. */
  method Stall() returns (c: Connection)
    ensures c.Valid() && c.open && c.stash != null && c.allow && !c.Due()
  {
    hide Feed, Reach, Step, Room;
    c := new Connection(0);
    var calls: nat -> seq<bool> := _ => [false];
    LetterReach(c.parser.Size(), c.start, LETTER, calls);
    assert c.Stashed() + (LETTER + LETTER) == LETTER + LETTER;
    c.Service(false, false, LETTER + LETTER, [], calls);
    c.ReleaseFromOutside();
  }

  /** In every state between service calls of an open connection, whatever was throttled when: the
      callbacks so far are exactly those of the bytes received less the stash, so nothing is lost,
      repeated or reordered. */
  lemma NothingLost(c: Connection)
    requires c.Valid() && c.open
    ensures var taken := c.received[..|c.received| - |c.Stashed()|];
            && c.received == taken + c.Stashed()
            && Feed(Server, c.parser.Size(), c.start, taken) == Alive(c.parser.State(), c.log)
  {
    assert (c.parsed + c.Stashed())[..|c.parsed|] == c.parsed;
  }

  /** Once the stash is empty, the log is that of everything received: for a stream of frames, each
      frame's spills in turn. */
  lemma AllDelivered(c: Connection, sent: seq<Sent>)
    requires c.Valid() && c.open && c.stash == null && Ready(c.start) && AllGood(Server, sent)
    requires c.received == Stream(Server, sent)
    ensures c.log == StreamSpills(sent, c.parser.Size())
  {
    NothingLost(c);
    FeedStream(Server, c.parser.Size(), c.start, sent);
    assert c.received[..|c.received| - |c.Stashed()|] == c.received;
  }
}
