/**
 * What a turn of simpleproxy.py's loop, and a run of it, do to each connection: every selected socket is
 * served, and only those.
 */
module ProxyRun {
  import opened Bytes
  import opened Proxy

  datatype Found<T> = Nothing | Just(value: T)

  /** What recv on `s` meets in the first `n` reads. */
  function Heard(r: seq<Readable>, n: nat, s: Sock): Found<Incoming>
    requires n <= |r|
  {
    if n == 0 then Nothing
    else if r[n - 1].Reads? && r[n - 1].s == s then Just(r[n - 1].incoming)
    else Heard(r, n - 1, s)
  }

  /** What send on `s` does in the first `n` writes. */
  function Asked(ws: seq<Writable>, n: nat, s: Sock): Found<Outgoing>
    requires n <= |ws|
  {
    if n == 0 then Nothing else if ws[n - 1].s == s then Just(ws[n - 1].outgoing) else Asked(ws, n - 1, s)
  }

  predicate Ended(heard: Found<Incoming>) {
    heard.Just? && (heard.value.Raises? || heard.value.bytes == [])
  }

  /** The bytes read into a buffer that holds `held`: those that there are, up to 1024 with those held. */
  function Data(heard: Found<Incoming>, held: nat): (data: Text)
    ensures held <= 1024 ==> held + |data| <= 1024
  {
    if heard.Nothing? || heard.value.Raises? then []
    else if held + |heard.value.bytes| <= 1024 then heard.value.bytes
    else if held <= 1024 then heard.value.bytes[..1024 - held] else []
  }

  /** How many bytes of a buffer that holds `held` are sent. */
  function Amount(asked: Found<Outgoing>, held: nat): (n: nat)
    ensures n <= held
  {
    if asked.Just? && asked.value.Takes? then (if asked.value.n < held then asked.value.n else held) else 0
  }

  /** A pipe into which these bytes came, and one from which so many went out. */
  ghost predicate Got(p: Pipe, data: Text, p': Pipe) {
    p'.received == p.received + data && p'.buffered == p.buffered + data && p'.sent == p.sent
  }

  ghost predicate Gave(p: Pipe, n: nat, p': Pipe)
    requires n <= |p.buffered|
  {
    p'.received == p.received && p'.sent == p.sent + p.buffered[..n] && p'.buffered == p.buffered[n..]
  }

  /** A connection made before. */
  ghost predicate Known(w: World, t: Sock) {
    && t in w.flows && w.flows[t].cli == t < w.next && w.flows[t].serv < w.next && t != w.flows[t].serv
  }

  lemma HeardOnce(r: seq<Readable>, n: nat, m: nat)
    requires n < m <= |r| && r[n].Reads?
    requires forall i, j :: 0 <= i < j < m && r[i].Reads? && r[j].Reads? ==> r[i].s != r[j].s
    ensures Heard(r, n, r[n].s) == Nothing
  {
    NotHeard(r, n, r[n].s);
  }

  lemma {:induction false} NotHeard(r: seq<Readable>, n: nat, s: Sock)
    requires n <= |r| && forall i :: 0 <= i < n && r[i].Reads? ==> r[i].s != s
    ensures Heard(r, n, s) == Nothing
  {
    if n > 0 {
      NotHeard(r, n - 1, s);
    }
  }

  lemma {:induction false} NotAsked(ws: seq<Writable>, n: nat, s: Sock)
    requires n <= |ws| && forall i :: 0 <= i < n ==> ws[i].s != s
    ensures Asked(ws, n, s) == Nothing
  {
    if n > 0 {
      NotAsked(ws, n - 1, s);
    }
  }

  // ---------------------------------------------------------------- the reads of a turn

  lemma OneRead(w: World, event: Readable, t: Sock)
    requires Known(w, t)
    ensures w.next <= AfterRead(w, event).next
    ensures match event
            case Accepts => Known(AfterRead(w, event), t) && AfterRead(w, event).flows[t] == w.flows[t]
            case Reads(s, incoming) =>
              && (t in AfterRead(w, event).flows <==> !w.flows[t].ClosedBy(s, incoming))
              && (t in AfterRead(w, event).flows ==>
                    AfterRead(w, event).flows[t] == w.flows[t].Take(s, incoming))
  {}

  /** One event for one connection. */
  lemma OneTake(f: Flow, s: Sock, incoming: Incoming)
    requires f.cli != f.serv && !f.ClosedBy(s, incoming)
    ensures var f' := f.Take(s, incoming);
            && f'.cli == f.cli && f'.serv == f.serv && f'.connected == (f.connected || s == f.serv)
            && Got(f.up, if s == f.cli then Data(Just(incoming), |f.up.buffered|) else [], f'.up)
            && Got(f.down, if s == f.serv && f.connected then Data(Just(incoming), |f.down.buffered|) else [], f'.down)
  {
    assert f.up.received + [] == f.up.received && f.up.buffered + [] == f.up.buffered;
    assert f.down.received + [] == f.down.received && f.down.buffered + [] == f.down.buffered;
    if f.Has(s) && incoming.Waiting? {
      var all := incoming.bytes;
      assert all[..|all|] == all;
    }
  }

  /** The connection as it is after so many reads. */
  ghost predicate ReadTo(f: Flow, f': Flow, up: Found<Incoming>, down: Found<Incoming>) {
    && f'.cli == f.cli && f'.serv == f.serv && f'.connected == (f.connected || down.Just?)
    && Got(f.up, Data(up, |f.up.buffered|), f'.up)
    && Got(f.down, if f.connected then Data(down, |f.down.buffered|) else [], f'.down)
  }

  /** The reads of a turn, for one connection: it stays open unless recv on one of its sockets comes to an end, the
      first turn of the server's socket aside, and each direction gets what recv returns. */
  lemma {:induction false} ReadStage(w: World, r: seq<Readable>, n: nat, t: Sock)
    requires n <= |r| && Known(w, t)
    requires forall i, j :: 0 <= i < j < n && r[i].Reads? && r[j].Reads? ==> r[i].s != r[j].s
    ensures var w', f := AfterReads(w, r, n), w.flows[t];
            var up, down := Heard(r, n, t), Heard(r, n, f.serv);
            && w.next <= w'.next
            && (t in w'.flows <==> !Ended(up) && !(f.connected && Ended(down)))
            && (t in w'.flows ==> Known(w', t) && ReadTo(f, w'.flows[t], up, down))
  {
    var f := w.flows[t];
    if n == 0 {
      assert f.up.received + [] == f.up.received && f.up.buffered + [] == f.up.buffered;
      assert f.down.received + [] == f.down.received && f.down.buffered + [] == f.down.buffered;
    } else {
      ReadStage(w, r, n - 1, t);
      var w1, event := AfterReads(w, r, n - 1), r[n - 1];
      if event.Reads? {
        HeardOnce(r, n - 1, n);
      }
      if t in w1.flows {
        OneRead(w1, event, t);
        if event.Reads? {
          ReadMore(f, w1.flows[t], Heard(r, n - 1, t), Heard(r, n - 1, f.serv), event.s, event.incoming);
        }
      } else {
        StaysGone(w1, event, t);
      }
    }
  }

  lemma StaysGone(w: World, event: Readable, t: Sock)
    requires t !in w.flows && t < w.next
    ensures t !in AfterRead(w, event).flows
  {}

  lemma ReadMore(f: Flow, f1: Flow, up: Found<Incoming>, down: Found<Incoming>, s: Sock, incoming: Incoming)
    requires ReadTo(f, f1, up, down) && f.cli != f.serv
    requires (s == f.cli ==> up.Nothing?) && (s == f.serv ==> down.Nothing?)
    ensures f1.ClosedBy(s, incoming)
            <==> (s == f.cli && Ended(Just(incoming))) || (s == f.serv && f.connected && Ended(Just(incoming)))
    ensures !f1.ClosedBy(s, incoming) ==>
            ReadTo(f, f1.Take(s, incoming), if s == f.cli then Just(incoming) else up,
                   if s == f.serv then Just(incoming) else down)
  {
    if !f1.ClosedBy(s, incoming) {
      OneTake(f1, s, incoming);
    }
  }

  // ---------------------------------------------------------------- the writes and errors of a turn

  /** How the connection is after so many writes. */
  ghost predicate WrittenTo(f: Flow, f': Flow, up: Found<Outgoing>, down: Found<Outgoing>) {
    && f'.cli == f.cli && f'.serv == f.serv && f'.connected == f.connected
    && Gave(f.up, Amount(up, |f.up.buffered|), f'.up) && Gave(f.down, Amount(down, |f.down.buffered|), f'.down)
  }

  lemma NoneWritten(f: Flow)
    ensures WrittenTo(f, f, Nothing, Nothing)
  {
    assert f.up.sent + f.up.buffered[..0] == f.up.sent && f.up.buffered[0..] == f.up.buffered;
    assert f.down.sent + f.down.buffered[..0] == f.down.sent && f.down.buffered[0..] == f.down.buffered;
  }

  lemma WriteMore(f: Flow, f1: Flow, up: Found<Outgoing>, down: Found<Outgoing>, s: Sock, n: nat)
    requires WrittenTo(f, f1, up, down) && f.cli != f.serv
    requires (s == f.serv ==> up.Nothing?) && (s == f.cli ==> down.Nothing?)
    ensures WrittenTo(f, f1.Give(s, n), if s == f.serv then Just(Takes(n)) else up,
                      if s == f.cli then Just(Takes(n)) else down)
  {
    assert f.up.sent + f.up.buffered[..0] == f.up.sent && f.up.buffered[0..] == f.up.buffered;
    assert f.down.sent + f.down.buffered[..0] == f.down.sent && f.down.buffered[0..] == f.down.buffered;
  }

  /** The writes of a turn, none of which raises an exception: each direction gives what send takes. */
  lemma {:induction false} WriteStage(w: World, ws: seq<Writable>, n: nat, t: Sock)
    requires n <= |ws| && Known(w, t) && !AfterWrites(w, ws, n).thrown
    requires forall i, j :: 0 <= i < j < n ==> ws[i].s != ws[j].s
    ensures var w', f := AfterWrites(w, ws, n).world, w.flows[t];
            w'.next == w.next && Known(w', t) && WrittenTo(f, w'.flows[t], Asked(ws, n, f.serv), Asked(ws, n, t))
  {
    var f := w.flows[t];
    if n == 0 {
      NoneWritten(f);
    } else {
      WriteStage(w, ws, n - 1, t);
      var w1, s := AfterWrites(w, ws, n - 1).world, ws[n - 1].s;
      NotAsked(ws, n - 1, s);
      match ws[n - 1].outgoing
      case Takes(k) => WriteMore(f, w1.flows[t], Asked(ws, n - 1, f.serv), Asked(ws, n - 1, t), s, k);
      case Throws =>
        assert !w1.flows[t].Has(s);
    }
  }

  lemma {:induction false} WritesKeep(w: World, ws: seq<Writable>, n: nat, t: Sock)
    requires n <= |ws|
    ensures t in AfterWrites(w, ws, n).world.flows <==> t in w.flows
  {
    if n > 0 {
      WritesKeep(w, ws, n - 1, t);
    }
  }

  /** The errors of a turn close their connections, and nothing else changes. */
  lemma {:induction false} ErrorStage(w: World, e: seq<Sock>, n: nat, t: Sock)
    requires n <= |e|
    ensures var w' := AfterErrors(w, e, n);
            && w'.next == w.next
            && (t in w'.flows <==> t in w.flows && !exists i :: 0 <= i < n && w.flows[t].Has(e[i]))
            && (t in w'.flows ==> w'.flows[t] == w.flows[t])
  {
    if n > 0 {
      ErrorStage(w, e, n - 1, t);
      var w1 := AfterErrors(w, e, n - 1);
      if t in w1.flows && w1.flows[t].Has(e[n - 1]) {
        assert w.flows[t].Has(e[n - 1]);
      }
    }
  }

  // ---------------------------------------------------------------- a turn

  /** A connection that a turn leaves open. */
  ghost predicate Stays(f: Flow, sel: Selected) {
    && !Ended(Heard(sel.r, |sel.r|, f.cli)) && !(f.connected && Ended(Heard(sel.r, |sel.r|, f.serv)))
    && f.cli !in sel.e && f.serv !in sel.e
  }

  function Way(f: Flow, up: bool): Pipe { if up then f.up else f.down }

  /** What comes in for one direction in a turn: what recv returns. */
  function Arriving(f: Flow, sel: Selected, up: bool): Text {
    if up then Data(Heard(sel.r, |sel.r|, f.cli), |f.up.buffered|)
    else if f.connected then Data(Heard(sel.r, |sel.r|, f.serv), |f.down.buffered|)
    else []
  }

  /** What goes out: of what was buffered and what comes in, as much as send takes. */
  function Leaving(f: Flow, sel: Selected, up: bool): Text {
    var held := Way(f, up).buffered + Arriving(f, sel, up);
    held[..Amount(Asked(sel.w, |sel.w|, if up then f.serv else f.cli), |held|)]
  }

  /** Over a turn, whatever the other sockets do: a connection stays open exactly unless it came to the end of a
      stream or one of its sockets is in error, and in both directions it received and sent what the calls on its
      selected sockets took. */
  lemma TurnServes(w: World, sel: Selected, t: Sock, up: bool)
    requires Known(w, t) && EachOnce(sel) && !AfterTurn(w, sel).thrown
    ensures var w', f := AfterTurn(w, sel).world, w.flows[t];
            && w.next <= w'.next && (t in w'.flows <==> Stays(f, sel))
            && (t in w'.flows ==>
                  && Known(w', t) && w'.flows[t].serv == f.serv
                  && w'.flows[t].connected == (f.connected || Heard(sel.r, |sel.r|, f.serv).Just?)
                  && Way(w'.flows[t], up).received == Way(f, up).received + Arriving(f, sel, up)
                  && Way(w'.flows[t], up).sent == Way(f, up).sent + Leaving(f, sel, up))
  {
    var f := w.flows[t];
    var w1 := AfterReads(w, sel.r, |sel.r|);
    var w2 := AfterWrites(w1, sel.w, |sel.w|).world;
    hide AfterReads, AfterWrites, AfterErrors, Heard, Asked, Data;
    ReadStage(w, sel.r, |sel.r|, t);
    WritesKeep(w1, sel.w, |sel.w|, t);
    WritesNext(w1, sel.w, |sel.w|);
    ErrorStage(w2, sel.e, |sel.e|, t);
    if t in w1.flows {
      WriteStage(w1, sel.w, |sel.w|, t);
      assert w2.flows[t].cli == t && w2.flows[t].serv == f.serv;
      if t in sel.e || f.serv in sel.e {
        var i :| 0 <= i < |sel.e| && (sel.e[i] == t || sel.e[i] == f.serv);
        assert w2.flows[t].Has(sel.e[i]);
      }
    }
  }

  function Accepts(r: seq<Readable>, n: nat): nat
    requires n <= |r|
  {
    if n == 0 then 0 else Accepts(r, n - 1) + if r[n - 1].Accepts? then 1 else 0
  }

  /** A connection just accepted. */
  function New(c: Sock): Flow { Flow(c, c + 1, false, Pipe([], [], []), Pipe([], [], [])) }

  /** Every accept of a turn opens one connection, with nothing received, buffered or sent, and nothing else opens
      one. */
  lemma {:induction false} AcceptStage(w: World, r: seq<Readable>, n: nat, c: Sock)
    requires n <= |r| && c >= w.next && c !in w.flows
    requires forall i :: 0 <= i < n && r[i].Reads? ==> r[i].s < w.next
    ensures var w' := AfterReads(w, r, n);
            && w'.next == w.next + 2 * Accepts(r, n)
            && (c in w'.flows <==> c < w'.next && (c - w.next) % 2 == 0)
            && (c in w'.flows ==> w'.flows[c] == New(c))
  {
    if n > 0 {
      AcceptStage(w, r, n - 1, c);
    }
  }

  lemma {:induction false} NextGrows(w: World, r: seq<Readable>, n: nat, t: Sock)
    requires n <= |r| && t !in w.flows && t < w.next
    ensures t !in AfterReads(w, r, n).flows && w.next <= AfterReads(w, r, n).next
  {
    if n > 0 {
      NextGrows(w, r, n - 1, t);
      StaysGone(AfterReads(w, r, n - 1), r[n - 1], t);
    }
  }

  lemma {:induction false} WritesNext(w: World, ws: seq<Writable>, n: nat)
    requires n <= |ws|
    ensures AfterWrites(w, ws, n).world.next == w.next
  {
    if n > 0 {
      WritesNext(w, ws, n - 1);
    }
  }

  /** What is closed stays closed. */
  lemma TurnGone(w: World, sel: Selected, t: Sock)
    requires t !in w.flows && t < w.next
    ensures t !in AfterTurn(w, sel).world.flows && t < AfterTurn(w, sel).world.next
  {
    var w1 := AfterReads(w, sel.r, |sel.r|);
    var w2 := AfterWrites(w1, sel.w, |sel.w|).world;
    hide AfterReads, AfterWrites, AfterErrors;
    NextGrows(w, sel.r, |sel.r|, t);
    WritesKeep(w1, sel.w, |sel.w|, t);
    WritesNext(w1, sel.w, |sel.w|);
    ErrorStage(w2, sel.e, |sel.e|, t);
  }

  // ---------------------------------------------------------------- a run

  /** What comes in, and what goes out, for one direction of `t` in the turns from `k` to `n`. */
  ghost function AllArriving(w: World, listensock: Sock, turns: seq<Selected>, k: nat, n: nat, t: Sock, up: bool): Text
    requires n <= |turns|
  {
    if n <= k then []
    else
      var now := AfterTurns(w, listensock, turns, n - 1).world;
      AllArriving(w, listensock, turns, k, n - 1, t, up)
      + if t in now.flows && PossibleIn(now, listensock, turns[n - 1]) then Arriving(now.flows[t], turns[n - 1], up)
        else []
  }

  ghost function AllLeaving(w: World, listensock: Sock, turns: seq<Selected>, k: nat, n: nat, t: Sock, up: bool): Text
    requires n <= |turns|
  {
    if n <= k then []
    else
      var now := AfterTurns(w, listensock, turns, n - 1).world;
      AllLeaving(w, listensock, turns, k, n - 1, t, up)
      + if t in now.flows && PossibleIn(now, listensock, turns[n - 1]) then Leaving(now.flows[t], turns[n - 1], up)
        else []
  }

  /** Over any run, and any part of one: a connection still open received and sent what the calls on its sockets took,
      turn after turn. */
  lemma {:induction false} RunServes(w: World, listensock: Sock, turns: seq<Selected>, k: nat, n: nat, t: Sock,
                                     up: bool)
    requires k <= n <= |turns| && !AfterTurns(w, listensock, turns, n).thrown
    requires Known(AfterTurns(w, listensock, turns, k).world, t)
    ensures var w0, w' := AfterTurns(w, listensock, turns, k).world, AfterTurns(w, listensock, turns, n).world;
            && t < w'.next
            && (t in w'.flows ==>
                  && Known(w', t)
                  && Way(w'.flows[t], up).received
                     == Way(w0.flows[t], up).received + AllArriving(w, listensock, turns, k, n, t, up)
                  && Way(w'.flows[t], up).sent
                     == Way(w0.flows[t], up).sent + AllLeaving(w, listensock, turns, k, n, t, up))
  {
    hide AfterTurn, PossibleIn, Arriving, Leaving;
    if k < n {
      RunServes(w, listensock, turns, k, n - 1, t, up);
      var now, sel := AfterTurns(w, listensock, turns, n - 1).world, turns[n - 1];
      if PossibleIn(now, listensock, sel) {
        if t in now.flows {
          PossibleOnce(now, listensock, sel);
          TurnServes(now, sel, t, up);
        } else {
          TurnGone(now, sel, t);
        }
      }
    }
  }

  /** Every open connection of a server is one of those meant here, by the socket of its client. */
  lemma ShownKnown(server: ProxyServer, w: World, c: ProxyConnection)
    requires server.Valid() && server.Shows(w) && c in server.conns
    ensures Known(w, c.clisock) && w.flows[c.clisock] == c.AsFlow()
  {
    assert Linked(server.connections, c);
  }

  lemma PossibleOnce(w: World, listensock: Sock, sel: Selected)
    requires PossibleIn(w, listensock, sel)
    ensures EachOnce(sel)
  {}
}
