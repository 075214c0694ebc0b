/**
 * simpleproxy.py: a forwarder between pairs of sockets, driven by lists of the sockets to read from and
 * to write to. The network is what the calls are given: what a socket has to read, how much it takes.
 */
module Proxy {
  import opened Bytes

  type Sock = nat

  const MAX_BUFFER_SIZE: nat := 1024

  // ---------------------------------------------------------------- lists of sockets

  ghost predicate Once(list: seq<Sock>) { forall i, j :: 0 <= i < j < |list| ==> list[i] != list[j] }

  /** list.append of a socket that is not yet there. */
  function With(list: seq<Sock>, s: Sock): seq<Sock> { if s in list then list else list + [s] }

  lemma WithIs(list: seq<Sock>, s: Sock)
    ensures forall x :: x in With(list, s) <==> x in list || x == s
    ensures Once(list) ==> Once(With(list, s))
  {}

  /** list.remove of a socket that may be there. */
  function Without(list: seq<Sock>, s: Sock): seq<Sock> {
    if list == [] then [] else if list[0] == s then list[1..] else [list[0]] + Without(list[1..], s)
  }

  lemma {:induction false} WithoutIs(list: seq<Sock>, s: Sock)
    requires Once(list)
    ensures Once(Without(list, s)) && forall x :: x in Without(list, s) <==> x in list && x != s
  {
    if list != [] {
      FirstOnce(list);
      WithoutIs(list[1..], s);
    }
  }

  lemma FirstOnce(list: seq<Sock>)
    requires list != [] && Once(list)
    ensures Once(list[1..]) && list[0] !in list[1..]
    ensures forall x :: x in list <==> x == list[0] || x in list[1..]
  {
    assert list == [list[0]] + list[1..];
  }

  // ---------------------------------------------------------------- the network

  /** What recv meets: an exception, or bytes waiting, none of them at the end of the stream. */
  datatype Incoming = Raises | Waiting(bytes: Text) {
    predicate Ends() { Raises? || bytes == [] }
  }

  /** recv: no more than it is asked for, so nothing when asked for nothing. */
  function Recv(incoming: Incoming, capacity: nat): (data: Text)
    requires incoming.Waiting?
    ensures |data| <= capacity && data <= incoming.bytes && (|data| < capacity ==> data == incoming.bytes)
  {
    if |incoming.bytes| <= capacity then incoming.bytes else incoming.bytes[..capacity]
  }

  /** What send does: an exception, or it takes so many of the bytes. */
  datatype Outgoing = Throws | Takes(n: nat)

  // ---------------------------------------------------------------- what the proxy does, on values

  /** One direction of a connection: what came in, what of it is buffered, and what went out. */
  datatype Pipe = Pipe(received: Text, buffered: Text, sent: Text) {
    function In(data: Text): Pipe { Pipe(received + data, buffered + data, sent) }

    function Out(n: nat): Pipe {
      var k := Least(n, |buffered|);
      Pipe(received, buffered[k..], sent + buffered[..k])
    }
  }

  /** An open connection, from the client up and from the server down. */
  datatype Flow = Flow(cli: Sock, serv: Sock, connected: bool, up: Pipe, down: Pipe) {
    predicate Has(s: Sock) { s == cli || s == serv }

    /** The direction that is read from `s`, and the one that is written to it. */
    function From(s: Sock): Pipe { if s == cli then up else down }
    function To(s: Sock): Pipe { if s == cli then down else up }

    /** The first turn of the server's socket is not read from: it says that the connection is there. */
    predicate Notice(s: Sock) { s == serv && !connected }

    predicate ClosedBy(s: Sock, incoming: Incoming) { Has(s) && !Notice(s) && incoming.Ends() }

    function Take(s: Sock, incoming: Incoming): Flow {
      if !Has(s) || ClosedBy(s, incoming) then this
      else if Notice(s) then this.(connected := true)
      else
        var data := Recv(incoming, Room(From(s).buffered));
        if s == cli then this.(up := up.In(data)) else this.(down := down.In(data))
    }

    function Give(s: Sock, n: nat): Flow {
      if s == cli then this.(down := down.Out(n)) else if s == serv then this.(up := up.Out(n)) else this
    }
  }

  function Least(a: nat, b: nat): nat { if a < b then a else b }

  function Room(buffer: Text): nat { if |buffer| < MAX_BUFFER_SIZE then MAX_BUFFER_SIZE - |buffer| else 0 }

  /** The open connections by the socket of their client, and the next socket. */
  datatype World = World(next: Sock, flows: map<Sock, Flow>) {
    function Accept(): World {
      var none := Pipe([], [], []);
      World(next + 2, flows[next := Flow(next, next + 1, false, none, none)])
    }

    function Read(s: Sock, incoming: Incoming): (w: World)
      ensures w.next == next
    {
      this.(flows := map t | t in flows && !flows[t].ClosedBy(s, incoming) :: flows[t].Take(s, incoming))
    }

    function Write(s: Sock, n: nat): (w: World)
      ensures w.next == next
    {
      this.(flows := map t | t in flows :: flows[t].Give(s, n))
    }

    function Close(s: Sock): World { this.(flows := map t | t in flows && !flows[t].Has(s) :: flows[t]) }

    /** Whether there is a connection that `s` is to be read from, or written to, for. */
    ghost predicate Reading(s: Sock) {
      exists t :: t in flows && flows[t].Has(s) && |flows[t].From(s).buffered| < MAX_BUFFER_SIZE
    }

    ghost predicate Writing(s: Sock) {
      exists t :: t in flows && flows[t].Has(s) && flows[t].To(s).buffered != []
    }

    ghost predicate Open(s: Sock) { exists t :: t in flows && flows[t].Has(s) }

    /** No socket is in two connections. */
    ghost predicate Apart() {
      && (forall t :: t in flows ==> flows[t].cli == t)
      && forall t, u, s :: t in flows && u in flows && flows[t].Has(s) && flows[u].Has(s) ==> t == u
    }
  }

  /** A world, unless send raised an exception on the way. */
  datatype Reached = Reached(world: World, thrown: bool)

  function AfterRead(w: World, event: Readable): World {
    match event
    case Accepts => w.Accept()
    case Reads(s, incoming) => w.Read(s, incoming)
  }

  function AfterReads(w: World, r: seq<Readable>, n: nat): World
    requires n <= |r|
  {
    if n == 0 then w else AfterRead(AfterReads(w, r, n - 1), r[n - 1])
  }

  ghost function AfterWrite(w: World, event: Writable): Reached {
    match event.outgoing
    case Throws => Reached(w, w.Open(event.s))
    case Takes(n) => Reached(w.Write(event.s, n), false)
  }

  ghost function AfterWrites(w: World, ws: seq<Writable>, n: nat): Reached
    requires n <= |ws|
  {
    if n == 0 then Reached(w, false)
    else
      var before := AfterWrites(w, ws, n - 1);
      if before.thrown then before else AfterWrite(before.world, ws[n - 1])
  }

  function AfterErrors(w: World, e: seq<Sock>, n: nat): World
    requires n <= |e|
  {
    if n == 0 then w else AfterErrors(w, e, n - 1).Close(e[n - 1])
  }

  /** One turn: the reads, the writes, and the errors unless a write raised an exception. */
  ghost function AfterTurn(w: World, sel: Selected): Reached {
    var written := AfterWrites(AfterReads(w, sel.r, |sel.r|), sel.w, |sel.w|);
    if written.thrown then written else Reached(AfterErrors(written.world, sel.e, |sel.e|), false)
  }

  /** What select may return: sockets it was asked about, each at most once in a list. */
  ghost predicate PossibleIn(w: World, listensock: Sock, sel: Selected) {
    && EachOnce(sel)
    && (forall i :: 0 <= i < |sel.r| && sel.r[i].Reads? ==> w.Reading(sel.r[i].s))
    && (forall i :: 0 <= i < |sel.w| ==> w.Writing(sel.w[i].s))
    && (forall i :: 0 <= i < |sel.e| ==> sel.e[i] == listensock || w.Open(sel.e[i]))
  }

  /** The first `n` turns, without those that select cannot have returned. */
  ghost function AfterTurns(w: World, listensock: Sock, turns: seq<Selected>, n: nat): Reached
    requires n <= |turns|
  {
    if n == 0 then Reached(w, false)
    else
      var before := AfterTurns(w, listensock, turns, n - 1);
      if before.thrown || !PossibleIn(before.world, listensock, turns[n - 1]) then before
      else AfterTurn(before.world, turns[n - 1])
  }

  lemma {:induction false} ThrownStays(w: World, ws: seq<Writable>, k: nat, n: nat)
    requires k <= n <= |ws| && AfterWrites(w, ws, k).thrown
    ensures AfterWrites(w, ws, n) == AfterWrites(w, ws, k)
  {
    if k < n {
      ThrownStays(w, ws, k, n - 1);
    }
  }

  lemma {:induction false} TurnsStay(w: World, listensock: Sock, turns: seq<Selected>, k: nat, n: nat)
    requires k <= n <= |turns| && AfterTurns(w, listensock, turns, k).thrown
    ensures AfterTurns(w, listensock, turns, n) == AfterTurns(w, listensock, turns, k)
  {
    if k < n {
      TurnsStay(w, listensock, turns, k, n - 1);
    }
  }

  // ---------------------------------------------------------------- one connection

  class ProxyConnection {
    const clisock: Sock
    const servsock: Sock
    var buffers: map<Sock, Text>
    var connected: bool
    ghost var received: map<Sock, Text> // all that recv returned, by socket
    ghost var sent: map<Sock, Text>     // all that send took, by socket

    constructor (clisock: Sock, servsock: Sock)
      requires clisock != servsock
      ensures this.clisock == clisock && this.servsock == servsock && !connected
      ensures Empty()
    {
      this.clisock, this.servsock := clisock, servsock;
      buffers, connected := map[clisock := [], servsock := []], false;
      received, sent := map[clisock := [], servsock := []], map[clisock := [], servsock := []];
    }

    /** Nothing received, sent or buffered yet. */
    ghost predicate Empty()
      reads `buffers, `received, `sent
    {
      buffers == received == sent == map[clisock := [], servsock := []]
    }

    ghost predicate Mine(s: Sock) { s == clisock || s == servsock }

    function Other(s: Sock): Sock { if s == clisock then servsock else clisock }

    ghost function AsFlow(): Flow
      reads this
    {
      FlowFrom(clisock, servsock, connected, buffers, received, sent)
    }

    /** From `s` to `o`: the buffer is bounded, and what was sent and what is buffered is what was received. */
    ghost predicate Forwards(s: Sock, o: Sock)
      reads `buffers, `received, `sent
    {
      && s in buffers && s in received && o in sent
      && |buffers[s]| <= MAX_BUFFER_SIZE && received[s] == sent[o] + buffers[s]
    }
  }

  function FlowFrom(c: Sock, v: Sock, connected: bool, buffers: map<Sock, Text>, received: map<Sock, Text>,
                    sent: map<Sock, Text>): Flow {
    Flow(c, v, connected, Pipe(At(received, c), At(buffers, c), At(sent, v)),
         Pipe(At(received, v), At(buffers, v), At(sent, c)))
  }

  function At(log: map<Sock, Text>, s: Sock): Text { if s in log then log[s] else [] }

  /** The sockets are on the lists that the buffer calls for. */
  ghost predicate Listed(buffer: Text, s: Sock, o: Sock, toRead: seq<Sock>, toWrite: seq<Sock>) {
    (o in toWrite <==> buffer != []) && (s in toRead <==> |buffer| < MAX_BUFFER_SIZE)
  }

  // ---------------------------------------------------------------- all connections

  type Connections = map<Sock, ProxyConnection>

  /** The world is that of the open connections. */
  ghost predicate Mirrors(w: World, m: Connections, conns: set<ProxyConnection>)
    reads conns
  {
    && (forall t :: t in w.flows ==> t in m && m[t].clisock == t && m[t] in conns)
    && forall c :: c in conns ==> c.clisock in w.flows && w.flows[c.clisock] == c.AsFlow()
  }

  /** The same of all connections but one. */
  ghost predicate MirrorsBut(w: World, m: Connections, conns: set<ProxyConnection>, c: ProxyConnection)
    reads conns - {c}
  {
    && (forall t :: t in w.flows <==> t in m && m[t].clisock == t) && (forall t :: t in m ==> m[t] in conns)
    && (forall d :: d in conns ==> d.clisock in w.flows && (d.clisock == c.clisock ==> d == c))
    && forall d :: d in conns && d != c ==> w.flows[d.clisock] == d.AsFlow()
  }

  lemma MirrorsAllBut(w: World, m: Connections, conns: set<ProxyConnection>, all: seq<Sock>, listensock: Sock,
                      next: Sock, c: ProxyConnection)
    requires Mapped(m, conns, all, listensock, next) && Mirrors(w, m, conns) && c in conns
    ensures MirrorsBut(w, m, conns, c) && w.flows[c.clisock] == c.AsFlow() && c.clisock in w.flows
  {
    assert Linked(m, c);
    forall d | d in conns ensures d.clisock == c.clisock ==> d == c {
      assert Linked(m, d);
    }
  }

  lemma MirrorsChanged(w: World, m: Connections, conns: set<ProxyConnection>, c: ProxyConnection)
    requires MirrorsBut(w, m, conns, c) && c in conns
    ensures Mirrors(w.(flows := w.flows[c.clisock := c.AsFlow()]), m, conns)
  {}

  lemma MirrorsClosed(w: World, m: Connections, conns: set<ProxyConnection>, c: ProxyConnection)
    requires MirrorsBut(w, m, conns, c) && Linked(m, c)
    ensures Mirrors(w.(flows := w.flows - {c.clisock}), m - {c.clisock} - {c.servsock}, conns - {c})
  {}

  lemma MirrorsOpened(w: World, m: Connections, conns: set<ProxyConnection>, all: seq<Sock>, listensock: Sock,
                      next: Sock, c: ProxyConnection)
    requires Mapped(m, conns, all, listensock, next) && Mirrors(w, m, conns)
    requires w.next == c.clisock == next && c.servsock == next + 1 && c.Empty() && !c.connected
    ensures Mirrors(w.Accept(), m[c.clisock := c][c.servsock := c], conns + {c})
  {
    forall d | d in conns ensures d.clisock != next {
      assert Linked(m, d);
    }
  }

  lemma MirrorsApart(w: World, m: Connections, conns: set<ProxyConnection>, all: seq<Sock>, listensock: Sock,
                     next: Sock)
    requires Mapped(m, conns, all, listensock, next) && Mirrors(w, m, conns)
    ensures w.Apart() && forall s :: w.Open(s) <==> s in m
  {
    hide Once;
    forall t, s | t in w.flows && w.flows[t].Has(s) ensures s in m && m[s] == m[t] && w.flows[t].cli == t {
      assert Linked(m, m[t]);
    }
    forall s | s in m ensures w.Open(s) {
      InFlow(w, m, conns, m[s], s);
    }
    forall t | t in w.flows ensures w.flows[t].cli == t {
      assert w.flows[t].Has(w.flows[t].cli);
    }
  }

  lemma InFlow(w: World, m: Connections, conns: set<ProxyConnection>, c: ProxyConnection, s: Sock)
    requires Mirrors(w, m, conns) && c in conns && c.Mine(s)
    ensures w.Open(s)
  {
    assert w.flows[c.clisock].Has(s);
  }

  /** What a notice, bytes read and bytes written are to the connection concerned. */
  lemma NoticeIs(c: Sock, v: Sock, buffers: map<Sock, Text>, buffers': map<Sock, Text>, received: map<Sock, Text>,
                 received': map<Sock, Text>, sent: map<Sock, Text>, s: Sock, incoming: Incoming)
    requires c != v && s == v && Grew(buffers, buffers', s, []) && Grew(received, received', s, [])
    ensures FlowFrom(c, v, true, buffers', received', sent)
            == FlowFrom(c, v, false, buffers, received, sent).Take(s, incoming)
  {
    GrewNothing(buffers, buffers', s);
    GrewNothing(received, received', s);
  }

  lemma ReadIs(c: Sock, v: Sock, connected: bool, buffers: map<Sock, Text>, buffers': map<Sock, Text>,
               received: map<Sock, Text>, received': map<Sock, Text>, sent: map<Sock, Text>, s: Sock,
               incoming: Incoming, data: Text)
    requires c != v && (s == c || (s == v && connected)) && Returned(incoming, buffers, s, data) && data != []
    requires Grew(buffers, buffers', s, data) && Grew(received, received', s, data)
    ensures FlowFrom(c, v, connected, buffers', received', sent)
            == FlowFrom(c, v, connected, buffers, received, sent).Take(s, incoming)
  {}

  lemma WriteIs(c: Sock, v: Sock, connected: bool, buffers: map<Sock, Text>, buffers': map<Sock, Text>,
                received: map<Sock, Text>, sent: map<Sock, Text>, sent': map<Sock, Text>, s: Sock, n: nat, taken: Text)
    requires c != v && (s == c || s == v) && Drained(buffers, buffers', if s == c then v else c, n, taken)
    requires Grew(sent, sent', s, taken)
    ensures FlowFrom(c, v, connected, buffers', received, sent')
            == FlowFrom(c, v, connected, buffers, received, sent).Give(s, n)
  {}

  /** An event on a socket of one connection is one for that connection only. */
  lemma ReadOne(w: World, t: Sock, s: Sock, incoming: Incoming)
    requires w.Apart() && t in w.flows && w.flows[t].Has(s)
    ensures w.Read(s, incoming) == World(w.next, if w.flows[t].ClosedBy(s, incoming) then w.flows - {t}
                                                 else w.flows[t := w.flows[t].Take(s, incoming)])
  {}

  lemma WriteOne(w: World, t: Sock, s: Sock, n: nat)
    requires w.Apart() && t in w.flows && w.flows[t].Has(s)
    ensures w.Write(s, n) == World(w.next, w.flows[t := w.flows[t].Give(s, n)])
  {}

  lemma CloseOne(w: World, t: Sock, s: Sock)
    requires w.Apart() && t in w.flows && w.flows[t].Has(s)
    ensures w.Close(s) == World(w.next, w.flows - {t})
  {}

  /** What the calls leave of a connection is what the world has of it. */
  ghost predicate Before(w: World, m: Connections, conns: set<ProxyConnection>, c: ProxyConnection, s: Sock, f: Flow)
    reads conns - {c}
  {
    && w.Apart() && MirrorsBut(w, m, conns, c) && c in conns && Linked(m, c) && c.Mine(s)
    && c.clisock in w.flows && w.flows[c.clisock] == f && f.Has(s)
  }

  lemma TakeShown(w: World, m: Connections, conns: set<ProxyConnection>, c: ProxyConnection, s: Sock,
                  incoming: Incoming, f: Flow)
    requires Before(w, m, conns, c, s, f) && !f.ClosedBy(s, incoming) && c.AsFlow() == f.Take(s, incoming)
    ensures Mirrors(w.Read(s, incoming), m, conns)
  {
    hide MirrorsBut, Mirrors, World.Apart, World.Read, Flow.Take, Linked;
    ReadOne(w, c.clisock, s, incoming);
    MirrorsChanged(w, m, conns, c);
  }

  lemma NoticeShown(w: World, m: Connections, conns: set<ProxyConnection>, c: ProxyConnection, s: Sock,
                    incoming: Incoming, buffers: map<Sock, Text>, received: map<Sock, Text>)
    requires Before(w, m, conns, c, s, FlowFrom(c.clisock, c.servsock, false, buffers, received, c.sent))
    requires s == c.servsock && c.connected && Grew(buffers, c.buffers, s, []) && Grew(received, c.received, s, [])
    ensures Mirrors(w.Read(s, incoming), m, conns)
  {
    var f := FlowFrom(c.clisock, c.servsock, false, buffers, received, c.sent);
    assert f.Notice(s) && c.clisock != c.servsock;
    hide Before, Grew, Flow.Take, Mirrors, World.Read, FlowFrom;
    NoticeIs(c.clisock, c.servsock, buffers, c.buffers, received, c.received, c.sent, s, incoming);
    TakeShown(w, m, conns, c, s, incoming, f);
  }

  lemma ReadShown(w: World, m: Connections, conns: set<ProxyConnection>, c: ProxyConnection, s: Sock,
                  incoming: Incoming, buffers: map<Sock, Text>, received: map<Sock, Text>, data: Text)
    requires Before(w, m, conns, c, s, FlowFrom(c.clisock, c.servsock, c.connected, buffers, received, c.sent))
    requires (s == c.servsock ==> c.connected) && Returned(incoming, buffers, s, data) && data != []
    requires Grew(buffers, c.buffers, s, data) && Grew(received, c.received, s, data)
    ensures Mirrors(w.Read(s, incoming), m, conns)
  {
    var f := FlowFrom(c.clisock, c.servsock, c.connected, buffers, received, c.sent);
    assert !f.ClosedBy(s, incoming) && c.clisock != c.servsock && c.Mine(s);
    hide Before, Grew, Flow.Take, Mirrors, World.Read, FlowFrom, Returned;
    ReadIs(c.clisock, c.servsock, c.connected, buffers, c.buffers, received, c.received, c.sent, s, incoming, data);
    TakeShown(w, m, conns, c, s, incoming, f);
  }

  lemma CloseShown(w: World, m: Connections, conns: set<ProxyConnection>, c: ProxyConnection, s: Sock,
                   incoming: Incoming, f: Flow)
    requires Before(w, m, conns, c, s, f) && f.ClosedBy(s, incoming)
    ensures Mirrors(w.Read(s, incoming), m - {c.clisock} - {c.servsock}, conns - {c})
  {
    hide MirrorsBut, Mirrors, World.Apart, World.Read, Flow.Take, Linked;
    ReadOne(w, c.clisock, s, incoming);
    MirrorsClosed(w, m, conns, c);
  }

  lemma EndShown(w: World, m: Connections, conns: set<ProxyConnection>, c: ProxyConnection, s: Sock, f: Flow)
    requires Before(w, m, conns, c, s, f)
    ensures Mirrors(w.Close(s), m - {c.clisock} - {c.servsock}, conns - {c}) && w.Close(s).next == w.next
  {
    hide MirrorsBut, Mirrors, World.Apart, Linked;
    CloseOne(w, c.clisock, s);
    MirrorsClosed(w, m, conns, c);
  }

  lemma GiveShown(w: World, m: Connections, conns: set<ProxyConnection>, c: ProxyConnection, s: Sock, n: nat,
                  buffers: map<Sock, Text>, sent: map<Sock, Text>, taken: Text)
    requires Before(w, m, conns, c, s, FlowFrom(c.clisock, c.servsock, c.connected, buffers, c.received, sent))
    requires Drained(buffers, c.buffers, c.Other(s), n, taken) && Grew(sent, c.sent, s, taken)
    ensures Mirrors(w.Write(s, n), m, conns)
  {
    assert c.clisock != c.servsock && c.Mine(s);
    hide MirrorsBut, Mirrors, World.Apart, World.Write, Flow.Give, Linked, FlowFrom, Drained, Grew;
    WriteIs(c.clisock, c.servsock, c.connected, buffers, c.buffers, c.received, sent, c.sent, s, n, taken);
    WriteOne(w, c.clisock, s, n);
    MirrorsChanged(w, m, conns, c);
  }

  lemma NoneShown(w: World, m: Connections, conns: set<ProxyConnection>, c: ProxyConnection, s: Sock,
                  sent: map<Sock, Text>)
    requires Before(w, m, conns, c, s, FlowFrom(c.clisock, c.servsock, c.connected, c.buffers, c.received, sent))
    requires Grew(sent, c.sent, s, [])
    ensures Mirrors(w, m, conns)
  {
    hide MirrorsBut, Mirrors, World.Apart, Linked, FlowFrom, Grew;
    GrewNothing(sent, c.sent, s);
    assert w.flows[c.clisock := c.AsFlow()] == w.flows;
    MirrorsChanged(w, m, conns, c);
  }

  /** An event on a socket that is closed is none. */
  lemma EventOnNone(w: World, s: Sock, incoming: Incoming, n: nat)
    requires !w.Open(s)
    ensures w.Read(s, incoming) == w.Write(s, n) == w.Close(s) == w
  {}

  /** The map leads from both sockets of a connection to it. */
  ghost predicate Linked(m: Connections, c: ProxyConnection) {
    && c.clisock != c.servsock && c.clisock in m && c.servsock in m && m[c.clisock] == c && m[c.servsock] == c
  }

  /** The map is that of the open connections, and the list of all sockets is theirs and the one listened on. */
  ghost predicate Mapped(m: Connections, conns: set<ProxyConnection>, all: seq<Sock>, listensock: Sock, next: Sock) {
    && (forall c :: c in conns ==> Linked(m, c))
    && (forall s :: s in m ==> m[s] in conns && m[s].Mine(s) && s < next && s != listensock)
    && Once(all) && (forall s :: s in all <==> s == listensock || s in m) && listensock < next
  }

  /** A list to select from: each socket once, and only open ones. */
  ghost predicate Tidy(m: Connections, list: seq<Sock>) {
    Once(list) && forall s :: s in list ==> s in m
  }

  /** Both directions of a connection are in order. */
  ghost predicate Settled(c: ProxyConnection, toRead: seq<Sock>, toWrite: seq<Sock>)
    reads c`buffers, c`received, c`sent
  {
    && c.Forwards(c.clisock, c.servsock) && c.Forwards(c.servsock, c.clisock)
    && Listed(c.buffers[c.clisock], c.clisock, c.servsock, toRead, toWrite)
    && Listed(c.buffers[c.servsock], c.servsock, c.clisock, toRead, toWrite)
  }

  /** The same as far as `s` is concerned. */
  ghost predicate Same(s: Sock, list: seq<Sock>, list': seq<Sock>) { s in list' <==> s in list }

  lemma SettledStill(c: ProxyConnection, toRead: seq<Sock>, toWrite: seq<Sock>, toRead': seq<Sock>, toWrite': seq<Sock>)
    requires Settled(c, toRead, toWrite)
    requires Same(c.clisock, toRead, toRead') && Same(c.servsock, toRead, toRead')
    requires Same(c.clisock, toWrite, toWrite') && Same(c.servsock, toWrite, toWrite')
    ensures Settled(c, toRead', toWrite')
  {}

  lemma OnceMore(list: seq<Sock>, a: Sock, b: Sock)
    requires Once(list) && a !in list && b !in list && a != b
    ensures Once(list + [a] + [b]) && forall x :: x in list + [a] + [b] <==> x in list || x == a || x == b
  {}

  lemma OpenMapped(m: Connections, conns: set<ProxyConnection>, all: seq<Sock>, listensock: Sock, next: Sock,
          c: ProxyConnection)
    requires Mapped(m, conns, all, listensock, next) && c.clisock == next && c.servsock == next + 1
    ensures Mapped(m[c.clisock := c][c.servsock := c], conns + {c}, all + [c.clisock] + [c.servsock], listensock,
            next + 2)
    ensures |m[c.clisock := c][c.servsock := c]| == |m| + 2
  {
    hide Once;
    assert next !in m && next + 1 !in m && next !in all && next + 1 !in all;
    OnceMore(all, c.clisock, c.servsock);
  }

  /** Two fresh sockets on the list to read from, with nothing buffered. */
  lemma OpenTidy(m: Connections, conns: set<ProxyConnection>, all: seq<Sock>, listensock: Sock, next: Sock,
                 toRead: seq<Sock>, toWrite: seq<Sock>, c: ProxyConnection)
    requires Mapped(m, conns, all, listensock, next) && c.clisock == next && c.servsock == next + 1
    requires Tidy(m, toRead) && Tidy(m, toWrite) && c.Empty()
    ensures var m', toRead' := m[c.clisock := c][c.servsock := c], With(With(toRead, c.clisock), c.servsock);
            Tidy(m', toRead') && Tidy(m', toWrite) && Settled(c, toRead', toWrite)
            && forall s: Sock :: s < next ==> Same(s, toRead, toRead')
  {
    assert next !in m && next + 1 !in m && next !in toWrite && next + 1 !in toWrite;
    WithIs(toRead, c.clisock);
    WithIs(With(toRead, c.clisock), c.servsock);
  }

  lemma OldSockets(m: Connections, conns: set<ProxyConnection>, all: seq<Sock>, listensock: Sock, next: Sock,
          c: ProxyConnection)
    requires Mapped(m, conns, all, listensock, next) && c in conns
    ensures c.clisock < next && c.servsock < next
  {
    assert Linked(m, c);
  }

  lemma NotYet(m: Connections, conns: set<ProxyConnection>, all: seq<Sock>, listensock: Sock, next: Sock)
    requires Mapped(m, conns, all, listensock, next)
    ensures next + 1 !in m
  {}

  lemma IsLinked(m: Connections, conns: set<ProxyConnection>, all: seq<Sock>, listensock: Sock, next: Sock,
          c: ProxyConnection)
    requires Mapped(m, conns, all, listensock, next) && c in conns
    ensures Linked(m, c)
  {}

  /** Two connections share no socket. */
  lemma Others(m: Connections, conns: set<ProxyConnection>, all: seq<Sock>, listensock: Sock, next: Sock,
          c: ProxyConnection, d: ProxyConnection)
    requires Mapped(m, conns, all, listensock, next) && c in conns && d in conns && c != d
    ensures !c.Mine(d.clisock) && !c.Mine(d.servsock)
  {
    assert Linked(m, c) && Linked(m, d);
  }

  lemma CloseMapped(m: Connections, conns: set<ProxyConnection>, all: seq<Sock>, listensock: Sock, next: Sock,
          c: ProxyConnection)
    requires Mapped(m, conns, all, listensock, next) && c in conns
    ensures Mapped(m - {c.clisock} - {c.servsock}, conns - {c}, Without(Without(all, c.clisock), c.servsock),
            listensock, next)
  {
    hide Without, Once;
    WithoutIs(all, c.clisock);
    WithoutIs(Without(all, c.clisock), c.servsock);
    var m' := m - {c.clisock} - {c.servsock};
    forall d | d in conns - {c} ensures Linked(m', d) {
      Others(m, conns, all, listensock, next, c, d);
    }
    forall s | s in m' ensures m'[s] in conns - {c} && m'[s].Mine(s) && s < next && s != listensock {
      IsLinked(m, conns, all, listensock, next, m[s]);
    }
  }

  /** Closing one connection leaves the others as they are. */
  lemma CloseSettled(m: Connections, conns: set<ProxyConnection>, all: seq<Sock>, listensock: Sock, next: Sock,
                     toRead: seq<Sock>, toWrite: seq<Sock>, c: ProxyConnection)
    requires Mapped(m, conns, all, listensock, next) && c in conns && Tidy(m, toRead) && Tidy(m, toWrite)
    requires forall d :: d in conns ==> Settled(d, toRead, toWrite)
    ensures forall d :: d in conns - {c} ==> Settled(d, Without(Without(toRead, c.clisock), c.servsock),
            Without(Without(toWrite, c.clisock), c.servsock))
  {
    hide Mapped, Settled, Without, Same, Tidy;
    CloseTidy(m, toRead, c);
    CloseTidy(m, toWrite, c);
    forall d | d in conns - {c}
      ensures Settled(d, Without(Without(toRead, c.clisock), c.servsock),
              Without(Without(toWrite, c.clisock), c.servsock))
    {
      Others(m, conns, all, listensock, next, c, d);
      SettledStill(d, toRead, toWrite, Without(Without(toRead, c.clisock), c.servsock),
          Without(Without(toWrite, c.clisock), c.servsock));
    }
  }

  lemma OpenSettled(m: Connections, conns: set<ProxyConnection>, all: seq<Sock>, listensock: Sock, next: Sock,
                    toRead: seq<Sock>, toWrite: seq<Sock>, toRead': seq<Sock>)
    requires Mapped(m, conns, all, listensock, next) && forall s: Sock :: s < next ==> Same(s, toRead, toRead')
    requires forall d :: d in conns ==> Settled(d, toRead, toWrite)
    ensures forall d :: d in conns ==> Settled(d, toRead', toWrite)
  {
    hide Mapped, Settled, Same;
    forall d | d in conns ensures Settled(d, toRead', toWrite) {
      OldSockets(m, conns, all, listensock, next, d);
      SameAsItself(d.clisock, toWrite);
      SameAsItself(d.servsock, toWrite);
      SettledStill(d, toRead, toWrite, toRead', toWrite);
    }
  }

  /** Opening a connection, altogether. */
  lemma OpenKeeps(m: Connections, conns: set<ProxyConnection>, all: seq<Sock>, listensock: Sock, next: Sock,
                  toRead: seq<Sock>, toWrite: seq<Sock>, c: ProxyConnection, m': Connections, toRead': seq<Sock>)
    requires Mapped(m, conns, all, listensock, next) && c.clisock == next && c.servsock == next + 1
    requires Tidy(m, toRead) && Tidy(m, toWrite) && c.Empty()
    requires forall d :: d in conns ==> Settled(d, toRead, toWrite)
    requires m' == m[c.clisock := c][c.servsock := c] && toRead' == With(With(toRead, c.clisock), c.servsock)
    ensures Mapped(m', conns + {c}, all + [c.clisock] + [c.servsock], listensock, next + 2) && |m'| == |m| + 2
    ensures Tidy(m', toRead') && Tidy(m', toWrite) && forall d :: d in conns + {c} ==> Settled(d, toRead', toWrite)
  {
    hide Mapped, Tidy, Settled, With, Same;
    OpenMapped(m, conns, all, listensock, next, c);
    OpenTidy(m, conns, all, listensock, next, toRead, toWrite, c);
    OpenSettled(m, conns, all, listensock, next, toRead, toWrite, toRead');
  }

  /** What changes for the sockets of one connection only leaves the others as they are. */
  lemma OthersSettled(m: Connections, conns: set<ProxyConnection>, all: seq<Sock>, listensock: Sock, next: Sock,
          c: ProxyConnection,
                      toRead: seq<Sock>, toWrite: seq<Sock>, toRead': seq<Sock>, toWrite': seq<Sock>)
    requires Mapped(m, conns, all, listensock, next) && c in conns
    requires forall y :: !c.Mine(y) ==> Same(y, toRead, toRead') && Same(y, toWrite, toWrite')
    requires forall d :: d in conns ==> Settled(d, toRead, toWrite)
    ensures forall d :: d in conns - {c} ==> Settled(d, toRead', toWrite')
  {
    hide Mapped, Settled, Same;
    forall d | d in conns - {c} ensures Settled(d, toRead', toWrite') {
      Others(m, conns, all, listensock, next, c, d);
      SettledStill(d, toRead, toWrite, toRead', toWrite');
    }
  }

  lemma Activate(m: Connections, list: seq<Sock>, x: Sock)
    requires Tidy(m, list) && x in m
    ensures Tidy(m, With(list, x)) && x in With(list, x) && forall y :: y != x ==> Same(y, list, With(list, x))
    ensures forall y :: Kept(y, m, list, With(list, x))
  {
    WithIs(list, x);
  }

  lemma Deactivate(m: Connections, list: seq<Sock>, x: Sock)
    requires Tidy(m, list)
    ensures Tidy(m, Without(list, x)) && x !in Without(list, x)
            && forall y :: y != x ==>
                  Same(y, list, Without(list, x))
    ensures Kept(x, m, list, Without(list, x))
  {
    WithoutIs(list, x);
  }

  /** A direction in order, with these buffer and logs. */
  ghost predicate Direction(buffer: Text, received: Text, sent: Text, s: Sock, o: Sock, toRead: seq<Sock>,
      toWrite: seq<Sock>) {
    |buffer| <= MAX_BUFFER_SIZE && received == sent + buffer && Listed(buffer, s, o, toRead, toWrite)
  }

  lemma SettledIs(c: ProxyConnection, toRead: seq<Sock>, toWrite: seq<Sock>)
    ensures Settled(c, toRead, toWrite) <==>
            && c.clisock in c.buffers && c.clisock in c.received && c.clisock in c.sent
            && c.servsock in c.buffers && c.servsock in c.received && c.servsock in c.sent
            && Direction(c.buffers[c.clisock], c.received[c.clisock], c.sent[c.servsock], c.clisock, c.servsock, toRead,
            toWrite)
            && Direction(c.buffers[c.servsock], c.received[c.servsock], c.sent[c.clisock], c.servsock, c.clisock,
            toRead, toWrite)
  {}

  /** Bytes received from `s` go to its buffer: the other socket is written to, and `s` read from while there
      is room. */
  lemma ReadDirection(buffer: Text, received: Text, sent: Text, data: Text, s: Sock, o: Sock,
                      toRead: seq<Sock>, toWrite: seq<Sock>, toRead': seq<Sock>, toWrite': seq<Sock>)
    requires Direction(buffer, received, sent, s, o, toRead, toWrite) && 0 < |data| <= MAX_BUFFER_SIZE - |buffer|
    requires o in toWrite' && if |buffer + data| >= MAX_BUFFER_SIZE then s !in toRead' else Same(s, toRead, toRead')
    ensures Direction(buffer + data, received + data, sent, s, o, toRead', toWrite')
  {
    assert sent + buffer + data == sent + (buffer + data);
  }

  /** Bytes of the buffer sent: `o` is written to while there are more, and `s` is read from if there was room made. */
  lemma WriteDirection(buffer: Text, received: Text, sent: Text, n: nat, s: Sock, o: Sock,
                       toRead: seq<Sock>, toWrite: seq<Sock>, toRead': seq<Sock>, toWrite': seq<Sock>)
    requires Direction(buffer, received, sent, s, o, toRead, toWrite) && buffer != [] && n <= |buffer|
    requires if n == |buffer| then o !in toWrite' else Same(o, toWrite, toWrite')
    requires if n > 0 then s in toRead' else Same(s, toRead, toRead')
    ensures Direction(buffer[n..], received, sent + buffer[..n], s, o, toRead', toWrite')
  {
    assert buffer == buffer[..n] + buffer[n..];
    assert sent + buffer[..n] + buffer[n..] == sent + (buffer[..n] + buffer[n..]);
  }

  /** The other direction of the same connection. */
  lemma OtherDirection(buffer: Text, received: Text, sent: Text, s: Sock, o: Sock,
                       toRead: seq<Sock>, toWrite: seq<Sock>, toRead': seq<Sock>, toWrite': seq<Sock>)
    requires Direction(buffer, received, sent, s, o, toRead, toWrite) && Same(s, toRead, toRead')
             && Same(o, toWrite, toWrite')
    ensures Direction(buffer, received, sent, s, o, toRead', toWrite')
  {}

  /** A log with `more` at the end of the entry of `s`. */
  ghost predicate Grew(before: map<Sock, Text>, after: map<Sock, Text>, s: Sock, more: Text) {
    s in before && after == before[s := before[s] + more]
  }

  /** Buffers that the first `n` bytes of the entry of `o` have left, or all of them. */
  ghost predicate Drained(before: map<Sock, Text>, after: map<Sock, Text>, o: Sock, n: nat, taken: Text) {
    && o in before && taken == before[o][..Least(n, |before[o]|)]
    && after == before[o := before[o][Least(n, |before[o]|)..]]
  }

  /** The bytes that recv returns to one who asks for as many as the buffer has room for. */
  ghost predicate Returned(incoming: Incoming, buffers: map<Sock, Text>, s: Sock, data: Text) {
    && incoming.Waiting? && s in buffers && |buffers[s]| < MAX_BUFFER_SIZE
    && data == Recv(incoming, MAX_BUFFER_SIZE - |buffers[s]|)
  }

  lemma GrewNothing(log: map<Sock, Text>, log': map<Sock, Text>, s: Sock)
    requires Grew(log, log', s, [])
    ensures log' == log
  {
    assert log[s] + [] == log[s];
  }

  lemma GrewNone(log: map<Sock, Text>, s: Sock)
    requires s in log
    ensures Grew(log, log, s, [])
  {
    assert log[s] + [] == log[s];
  }

  /** The sockets that are still open and were on the list are on it, but perhaps for `s`. */
  ghost predicate Kept(s: Sock, m: Connections, list: seq<Sock>, list': seq<Sock>) {
    forall x :: x in m && x != s && x in list ==> x in list'
  }

  lemma KeptWith(m: Connections, list: seq<Sock>, a: Sock, b: Sock)
    ensures forall y :: Kept(y, m, list, With(With(list, a), b))
  {
    WithIs(list, a);
    WithIs(With(list, a), b);
  }

  /** A socket selected before, if its connection is still open, is still on its list. */
  ghost predicate PendingIn(m: Connections, toRead: seq<Sock>, toWrite: seq<Sock>,
                            r: seq<Readable>, i: nat, w: seq<Writable>, k: nat, next: Sock) {
    && (forall j :: i <= j < |r| && r[j].Reads? ==> r[j].s < next && (r[j].s in m ==> r[j].s in toRead))
    && (forall j :: k <= j < |w| ==> w[j].s < next && (w[j].s in m ==> w[j].s in toWrite))
  }

  lemma Distinct(m: Connections, c: ProxyConnection)
    requires Linked(m, c)
    ensures c.clisock != c.servsock
  {}

  lemma InConns(m: Connections, conns: set<ProxyConnection>, all: seq<Sock>, listensock: Sock, next: Sock, s: Sock)
    requires Mapped(m, conns, all, listensock, next) && s in m
    ensures m[s] in conns && m[s].Mine(s) && m[s].clisock != m[s].servsock
  {}

  /** A socket to read from has room in its buffer, a socket to write to has something in the other's. */
  lemma ReadRoom(c: ProxyConnection, s: Sock, toRead: seq<Sock>, toWrite: seq<Sock>)
    requires Settled(c, toRead, toWrite) && c.Mine(s) && c.clisock != c.servsock
    ensures s in c.buffers && s in c.received && s in c.sent && c.Other(s) in c.buffers
    ensures s in toRead ==> |c.buffers[s]| < MAX_BUFFER_SIZE
    ensures s in toWrite ==> c.buffers[c.Other(s)] != []
  {}

  lemma SameAsItself(s: Sock, list: seq<Sock>)
    ensures Same(s, list, list)
  {}

  lemma CloseTidy(m: Connections, list: seq<Sock>, c: ProxyConnection)
    requires Tidy(m, list)
    ensures Tidy(m - {c.clisock} - {c.servsock}, Without(Without(list, c.clisock), c.servsock))
    ensures forall s :: !c.Mine(s) ==> Same(s, list, Without(Without(list, c.clisock), c.servsock))
    ensures forall s :: Kept(s, m - {c.clisock} - {c.servsock}, list, Without(Without(list, c.clisock), c.servsock))
  {
    hide Without, Once;
    WithoutIs(list, c.clisock);
    WithoutIs(Without(list, c.clisock), c.servsock);
  }

  ghost function Joined(cs: set<ProxyConnection>): set<ProxyConnection>
    reads cs`connected
  {
    set c | c in cs && c.connected
  }

  /** The count of active connections: those open and connected, less those closed before they were. */
  ghost predicate Counted(count: int, open: set<ProxyConnection>, gone: set<ProxyConnection>)
    reads open`connected, gone`connected
  {
    open !! gone && count == |Joined(open)| - |gone - Joined(gone)|
  }

  lemma CountedOpen(count: int, open: set<ProxyConnection>, gone: set<ProxyConnection>, c: ProxyConnection)
    requires Counted(count, open, gone) && !c.connected && c !in open && c !in gone
    ensures Counted(count, open + {c}, gone)
  {
    assert Joined(open + {c}) == Joined(open);
  }

  lemma CountedClose(count: int, open: set<ProxyConnection>, gone: set<ProxyConnection>, c: ProxyConnection)
    requires Counted(count, open, gone) && c in open
    ensures Counted(count - 1, open - {c}, gone + {c})
  {
    if c.connected {
      assert Joined(open - {c}) == Joined(open) - {c};
      assert (gone + {c}) - Joined(gone + {c}) == gone - Joined(gone);
    } else {
      assert Joined(open - {c}) == Joined(open);
      assert (gone + {c}) - Joined(gone + {c}) == gone - Joined(gone) + {c};
    }
  }

  /** What select returns, with what the calls on its sockets will meet. */
  datatype Readable = Accepts | Reads(s: Sock, incoming: Incoming)
  datatype Writable = Writes(s: Sock, outgoing: Outgoing)
  datatype Selected = Selected(r: seq<Readable>, w: seq<Writable>, e: seq<Sock>)

  predicate EachOnce(sel: Selected) {
    && (forall i, j :: 0 <= i < j < |sel.r| && sel.r[i].Reads? && sel.r[j].Reads? ==> sel.r[i].s != sel.r[j].s)
    && (forall i, j :: 0 <= i < j < |sel.w| ==> sel.w[i].s != sel.w[j].s)
  }

  // ---------------------------------------------------------------- the server

  class ProxyServer {
    const listensock: Sock
    var connections: Connections
    var readsockets: seq<Sock>
    var writesockets: seq<Sock>
    var allsockets: seq<Sock>
    var connectionCount: int
    var nextSock: Sock                    // the next socket the system makes is one there never was
    ghost var conns: set<ProxyConnection> // the open connections
    ghost var gone: set<ProxyConnection>  // those closed

    constructor (listensock: Sock)
      ensures Valid() && this.listensock == listensock && conns == gone == {}
      ensures Shows(World(listensock + 1, map[])) && nextSock == listensock + 1
    {
      this.listensock := listensock;
      connections, readsockets, writesockets, allsockets, connectionCount := map[], [], [], [listensock], 0;
      nextSock, conns, gone := listensock + 1, {}, {};
    }

    ghost predicate Valid()
      reads this, conns, gone`connected
    {
      && Mapped(connections, conns, allsockets, listensock, nextSock)
      && Tidy(connections, readsockets) && Tidy(connections, writesockets) && Counted(connectionCount, conns, gone)
      && forall c :: c in conns ==> Settled(c, readsockets, writesockets)
    }

    ghost predicate Shows(w: World)
      reads this, conns
    {
      w.next == nextSock && Mirrors(w, connections, conns)
    }

    // -------------------------------------------------------------- the lists

    method ActivateRead(s: Sock)
      modifies `readsockets
      ensures readsockets == With(old(readsockets), s)
    {
      if s !in readsockets {
        readsockets := readsockets + [s];
      }
    }

    method DeactivateRead(s: Sock)
      modifies `readsockets
      ensures readsockets == Without(old(readsockets), s)
    {
      readsockets := Without(readsockets, s);
    }

    method ActivateWrite(s: Sock)
      modifies `writesockets
      ensures writesockets == With(old(writesockets), s)
    {
      if s !in writesockets {
        writesockets := writesockets + [s];
      }
    }

    method DeactivateWrite(s: Sock)
      modifies `writesockets
      ensures writesockets == Without(old(writesockets), s)
    {
      writesockets := Without(writesockets, s);
    }

    // -------------------------------------------------------------- opening and closing

    /** open, with the rest of the constructor of the connection; what connect meets comes later. */
    method Open() returns (ghost c: ProxyConnection)
      requires Valid()
      modifies this
      ensures Valid() && nextSock == old(nextSock) + 2 && gone == old(gone)
      ensures c.clisock == old(nextSock) && c.servsock == old(nextSock) + 1 && !c.connected && c.clisock in readsockets
      ensures fresh(c) && conns == old(conns) + {c}
              && connections == old(connections)[old(nextSock) := c][old(nextSock) + 1 := c]
      ensures forall y ::
              Kept(y, connections, old(readsockets), readsockets)
              && Kept(y, connections, old(writesockets), writesockets)
      ensures c.Empty()
    {
      hide Mapped, Tidy, Settled, With, Same, Counted;
      var made := new ProxyConnection(nextSock, nextSock + 1);
      c := made;
      Register(made);
      KeptWith(connections, old(readsockets), c.clisock, c.servsock);
      WithIs(old(readsockets), c.clisock);
      WithIs(With(old(readsockets), c.clisock), c.servsock);
    }

    /** Both sockets registered, and read from. */
    method Register(c: ProxyConnection)
      requires Valid() && c.clisock == nextSock && c.servsock == nextSock + 1
      requires c.Empty() && !c.connected && c !in conns && c !in gone
      modifies this
      ensures Valid() && nextSock == old(nextSock) + 2 && gone == old(gone)
      ensures conns == old(conns) + {c} && connections == old(connections)[c.clisock := c][c.servsock := c]
      ensures readsockets == With(With(old(readsockets), c.clisock), c.servsock) && writesockets == old(writesockets)
    {
      hide Mapped, Tidy, Settled, With, Same, ProxyConnection.Empty, Linked, Counted;
      OpenKeeps(connections, conns, allsockets, listensock, nextSock, readsockets, writesockets, c,
                connections[c.clisock := c][c.servsock := c], With(With(readsockets, c.clisock), c.servsock));
      CountedOpen(connectionCount, conns, gone, c);
      RegisterBoth(c);
      nextSock, conns := nextSock + 2, conns + {c};
    }

    method RegisterBoth(c: ProxyConnection)
      modifies `connections, `allsockets, `readsockets
      ensures connections == old(connections)[c.clisock := c][c.servsock := c]
      ensures allsockets == old(allsockets) + [c.clisock] + [c.servsock]
      ensures readsockets == With(With(old(readsockets), c.clisock), c.servsock)
    {
      RegisterSocket(c.clisock, c);
      RegisterSocket(c.servsock, c);
      ActivateRead(c.clisock);
      ActivateRead(c.servsock);
    }

    method RegisterSocket(s: Sock, c: ProxyConnection)
      modifies `connections, `allsockets
      ensures connections == old(connections)[s := c] && allsockets == old(allsockets) + [s]
    {
      connections := connections[s := c];
      allsockets := allsockets + [s];
    }

    method UnregisterSocket(s: Sock)
      requires s in connections
      modifies `connections, `allsockets
      ensures connections == old(connections) - {s} && allsockets == Without(old(allsockets), s)
    {
      connections := connections - {s};
      allsockets := Without(allsockets, s);
    }

    /** ProxyConnection.close. */
    method Close(c: ProxyConnection)
      requires Valid() && c in conns
      modifies this
      ensures Valid() && connections == old(connections) - {c.clisock} - {c.servsock}
      ensures forall y ::
              Kept(y, connections, old(readsockets), readsockets)
              && Kept(y, connections, old(writesockets), writesockets)
      ensures nextSock == old(nextSock) && gone == old(gone) + {c} && conns == old(conns) - {c}
    {
      hide Mapped, Tidy, Settled, Without, Same, Counted;
      IsLinked(connections, conns, allsockets, listensock, nextSock, c);
      CountedClose(connectionCount, conns, gone, c);
      CloseMapped(connections, conns, allsockets, listensock, nextSock, c);
      CloseTidy(connections, readsockets, c);
      CloseTidy(connections, writesockets, c);
      CloseSettled(connections, conns, allsockets, listensock, nextSock, readsockets, writesockets, c);
      CloseSocket(c.clisock);
      CloseSocket(c.servsock);
      connectionCount := connectionCount - 1;
      gone, conns := gone + {c}, conns - {c};
    }

    method CloseSocket(s: Sock)
      requires s in connections
      modifies `readsockets, `writesockets, `connections, `allsockets
      ensures readsockets == Without(old(readsockets), s) && writesockets == Without(old(writesockets), s)
      ensures connections == old(connections) - {s} && allsockets == Without(old(allsockets), s)
    {
      DeactivateRead(s);
      DeactivateWrite(s);
      UnregisterSocket(s);
    }

    // -------------------------------------------------------------- reading

    /** The end of readfrom: the bytes read are buffered. */
    method Buffer(c: ProxyConnection, s: Sock, data: Text)
      requires Valid() && c in conns && c.Mine(s) && s in c.buffers && s in c.received
      requires 0 < |data| <= MAX_BUFFER_SIZE - |c.buffers[s]|
      modifies `readsockets, `writesockets, c`buffers, c`received
      ensures Valid() && Grew(old(c.received), c.received, s, data) && c.sent == old(c.sent)
      ensures c.buffers == old(c.buffers)[s := old(c.buffers[s]) + data] && c.connected == old(c.connected)
      ensures Kept(s, connections, old(readsockets), readsockets)
              && Kept(listensock, connections, old(writesockets), writesockets)
    {
      hide Mapped, Tidy, With, Without, Same, Counted, Settled, Direction;
      IsLinked(connections, conns, allsockets, listensock, nextSock, c);
      var o, full := c.Other(s), |c.buffers[s]| + |data| >= MAX_BUFFER_SIZE;
      ghost var toRead, toWrite := readsockets, writesockets;
      ghost var toRead', toWrite' := if full then Without(toRead, s) else toRead, With(toWrite, o);
      Activate(connections, toWrite, o);
      Deactivate(connections, toRead, s);
      SameAsItself(s, toRead);
      SameAsItself(o, toRead);
      forall y | !c.Mine(y) ensures Same(y, toRead, toRead') && Same(y, toWrite, toWrite') {
        SameAsItself(y, toRead);
      }
      OthersSettled(connections, conns, allsockets, listensock, nextSock, c, toRead, toWrite, toRead', toWrite');
      SettledIs(c, toRead, toWrite);
      ReadDirection(c.buffers[s], c.received[s], c.sent[o], data, s, o, toRead, toWrite, toRead', toWrite');
      OtherDirection(c.buffers[o], c.received[o], c.sent[s], o, s, toRead, toWrite, toRead', toWrite');
      var capacity := MAX_BUFFER_SIZE - |c.buffers[s]|;
      c.buffers := c.buffers[s := c.buffers[s] + data];
      c.received := c.received[s := c.received[s] + data];
      ActivateWrite(o);
      capacity := capacity - |data|;
      if capacity <= 0 {
        DeactivateRead(s);
      }
      SettledIs(c, toRead', toWrite');
    }

    /** The first turn of the server's socket is not read from: it says that the connection is there. */
    ghost predicate Notice(c: ProxyConnection, s: Sock)
      reads c`connected
    {
      s == c.servsock && !c.connected
    }

    /** readfrom, of a socket select found readable: recv is asked for at least a byte, so that it gives none
        only at the end of the stream. */
    method ReadFrom(c: ProxyConnection, s: Sock, incoming: Incoming) returns (ghost data: Text)
      requires Valid() && c in conns && c.Mine(s) && s in readsockets
      modifies this, c
      ensures Valid() && nextSock == old(nextSock) && conns <= old(conns)
      ensures connections.Keys <= old(connections).Keys
      ensures old(Notice(c, s)) ==> data == [] && c.connected && connections == old(connections)
      ensures !old(Notice(c, s)) ==> (data == [] <==> incoming.Ends()) && c.connected == old(c.connected)
      ensures !old(Notice(c, s)) && data == [] ==> connections == old(connections) - {c.clisock} - {c.servsock}
      ensures if old(Notice(c, s)) || data != [] then conns == old(conns) && gone == old(gone)
              else conns == old(conns) - {c} && gone == old(gone) + {c}
      ensures data != [] ==> connections == old(connections) && Returned(incoming, old(c.buffers), s, data)
      ensures Grew(old(c.received), c.received, s, data) && Grew(old(c.buffers), c.buffers, s, data)
      ensures c.sent == old(c.sent)
      ensures Kept(s, connections, old(readsockets), readsockets)
              && Kept(listensock, connections, old(writesockets), writesockets)
    {
      hide Mapped, Tidy, With, Without, Same, Counted, Direction, Kept, Linked, Settled;
      data := [];
      IsLinked(connections, conns, allsockets, listensock, nextSock, c);
      Distinct(connections, c);
      ReadRoom(c, s, readsockets, writesockets);
      GrewNone(c.received, s);
      GrewNone(c.buffers, s);
      if s == c.servsock && !c.connected {
        Connected(c);
        KeptAll();
        return;
      }
      var capacity := MAX_BUFFER_SIZE - |c.buffers[s]|;
      var bytes := match incoming case Raises => [] case Waiting(_) => Recv(incoming, capacity);
      data := bytes;
      if |bytes| == 0 {
        Close(c);
      } else {
        Buffer(c, s, bytes);
      }
    }

    method Connected(c: ProxyConnection)
      requires Valid() && c in conns && !c.connected
      modifies `connectionCount, c`connected
      ensures Valid() && c.connected
    {
      hide Mapped, Tidy, Settled;
      ghost var before := Joined(conns);
      connectionCount := connectionCount + 1;
      c.connected := true;
      assert Joined(conns) == before + {c};
    }

    lemma KeptAll()
      ensures forall y ::
              Kept(y, connections, readsockets, readsockets)
              && Kept(y, connections, writesockets, writesockets)
    {}

    // -------------------------------------------------------------- writing

    /** writeto, of a socket select found writable: there is something to send. An exception from send leaves
        run altogether. */
    method WriteTo(c: ProxyConnection, s: Sock, outgoing: Outgoing) returns (thrown: bool, ghost taken: Text)
      requires Valid() && c in conns && c.Mine(s) && s in writesockets
      modifies `readsockets, `writesockets, c
      ensures Valid() && thrown == outgoing.Throws?
      ensures c.received == old(c.received) && c.connected == old(c.connected)
      ensures Grew(old(c.sent), c.sent, s, taken)
      ensures if thrown then taken == [] && c.buffers == old(c.buffers)
              else (outgoing.n > 0 ==> taken != []) && Drained(old(c.buffers), c.buffers, c.Other(s), outgoing.n, taken)
      ensures Kept(s, connections, old(writesockets), writesockets)
    {
      hide Mapped, Tidy, With, Without, Same, Counted, Direction, Kept, Linked, Settled;
      taken := [];
      IsLinked(connections, conns, allsockets, listensock, nextSock, c);
      Distinct(connections, c);
      ReadRoom(c, s, readsockets, writesockets);
      var buf := c.buffers[c.Other(s)];
      thrown := outgoing.Throws?;
      if thrown {
        KeptAll();
        GrewNone(c.sent, s);
      } else {
        var written := if outgoing.n < |buf| then outgoing.n else |buf|;
        taken := buf[..written];
        Unbuffer(c, s, written);
      }
    }

    /** The rest of writeto: what was sent leaves the buffer. */
    method Unbuffer(c: ProxyConnection, s: Sock, written: nat)
      requires Valid() && c in conns && c.Mine(s) && c.Other(s) in c.buffers && s in c.sent
      requires written <= |c.buffers[c.Other(s)]| && c.buffers[c.Other(s)] != []
      modifies `readsockets, `writesockets, c`buffers, c`sent
      ensures Valid() && c.received == old(c.received) && c.connected == old(c.connected)
      ensures Grew(old(c.sent), c.sent, s, old(c.buffers[c.Other(s)])[..written])
      ensures c.buffers == old(c.buffers)[c.Other(s) := old(c.buffers[c.Other(s)])[written..]]
      ensures Kept(s, connections, old(writesockets), writesockets)
    {
      hide Mapped, Tidy, With, Without, Same, Counted, Settled, Direction;
      IsLinked(connections, conns, allsockets, listensock, nextSock, c);
      var o, buf := c.Other(s), c.buffers[c.Other(s)];
      ghost var toRead, toWrite := readsockets, writesockets;
      ghost var toRead' := if written > 0 then With(toRead, o) else toRead;
      ghost var toWrite' := if written == |buf| then Without(toWrite, s) else toWrite;
      Activate(connections, toRead, o);
      Deactivate(connections, toWrite, s);
      forall y ensures Same(y, toRead, toRead) && Same(y, toWrite, toWrite) {
        SameAsItself(y, toRead);
        SameAsItself(y, toWrite);
      }
      OthersSettled(connections, conns, allsockets, listensock, nextSock, c, toRead, toWrite, toRead', toWrite');
      SettledIs(c, toRead, toWrite);
      WriteDirection(c.buffers[o], c.received[o], c.sent[s], written, o, s, toRead, toWrite, toRead', toWrite');
      OtherDirection(c.buffers[s], c.received[s], c.sent[o], s, o, toRead, toWrite, toRead', toWrite');
      c.sent := c.sent[s := c.sent[s] + buf[..written]];
      buf := buf[written..];
      c.buffers := c.buffers[o := buf];
      if |buf| == 0 {
        DeactivateWrite(s);
      }
      if written != 0 {
        ActivateRead(o);
      }
      SettledIs(c, toRead', toWrite');
    }

    // -------------------------------------------------------------- the loop

    /** The same three, in terms of all that is open. */
    method Accept(ghost world: World) returns (ghost c: ProxyConnection)
      requires Valid() && Shows(world)
      modifies this
      ensures Valid() && Shows(world.Accept()) && nextSock == old(nextSock) + 2
      ensures fresh(c) && conns == old(conns) + {c}
      ensures connections == old(connections)[old(nextSock) := c][old(nextSock) + 1 := c]
      ensures forall y ::
              Kept(y, connections, old(readsockets), readsockets)
              && Kept(y, connections, old(writesockets), writesockets)
    {
      hide Kept, Mapped, Settled, Tidy, Counted, Linked, Mirrors, ProxyConnection.Empty;
      ghost var m, open, all := connections, conns, allsockets;
      c := Open();
      hide Valid;
      MirrorsOpened(world, m, open, all, listensock, nextSock - 2, c);
    }

    method ServeRead(c: ProxyConnection, s: Sock, incoming: Incoming, ghost world: World)
      requires Valid() && c in conns && c.Mine(s) && s in readsockets && Shows(world)
      modifies this, c
      ensures Valid() && Shows(world.Read(s, incoming)) && nextSock == old(nextSock) && conns <= old(conns)
      ensures connections.Keys <= old(connections).Keys
      ensures Kept(s, connections, old(readsockets), readsockets)
              && Kept(listensock, connections, old(writesockets), writesockets)
    {
      hide *;
      ghost var m, open := connections, conns;
      ghost var connected, buffers, received := c.connected, c.buffers, c.received;
      Ahead(c, s, world);
      ghost var data := ReadInto(c, s, incoming);
      ReadCases(world, m, open, c, s, incoming, connected, buffers, received, data);
      Showing(world.Read(s, incoming));
    }

    /** What reading has come to. */
    ghost predicate CameTo(m: Connections, open: set<ProxyConnection>, c: ProxyConnection, s: Sock, incoming: Incoming,
                           connected: bool, buffers: map<Sock, Text>, received: map<Sock, Text>, data: Text)
      reads `connections, `conns, c
    {
      && Grew(received, c.received, s, data) && Grew(buffers, c.buffers, s, data)
      && (s == c.servsock && !connected ==> data == [] && c.connected && connections == m && conns == open)
      && (!(s == c.servsock && !connected) ==> (data == [] <==> incoming.Ends()) && c.connected == connected)
      && (!(s == c.servsock && !connected) && data == [] ==>
            connections == m - {c.clisock} - {c.servsock} && conns == open - {c})
      && (data != [] ==> connections == m && conns == open && Returned(incoming, buffers, s, data))
    }

    method ReadInto(c: ProxyConnection, s: Sock, incoming: Incoming) returns (ghost data: Text)
      requires Valid() && c in conns && c.Mine(s) && s in readsockets
      modifies this, c
      ensures Valid() && nextSock == old(nextSock) && conns <= old(conns) && c.sent == old(c.sent)
      ensures connections.Keys <= old(connections).Keys
      ensures CameTo(old(connections), old(conns), c, s, incoming, old(c.connected), old(c.buffers), old(c.received),
                  data)
      ensures Kept(s, connections, old(readsockets), readsockets)
              && Kept(listensock, connections, old(writesockets), writesockets)
    {
      hide Valid, Kept, Grew, Returned;
      data := ReadFrom(c, s, incoming);
    }

    /** The three things that reading can come to. */
    lemma ReadCases(w: World, m: Connections, open: set<ProxyConnection>, c: ProxyConnection, s: Sock,
                    incoming: Incoming, connected: bool, buffers: map<Sock, Text>, received: map<Sock, Text>,
                    data: Text)
      requires Before(w, m, open, c, s, FlowFrom(c.clisock, c.servsock, connected, buffers, received, c.sent))
      requires CameTo(m, open, c, s, incoming, connected, buffers, received, data)
      ensures Mirrors(w.Read(s, incoming), connections, conns)
    {
      var f := FlowFrom(c.clisock, c.servsock, connected, buffers, received, c.sent);
      assert f.Notice(s) <==> s == c.servsock && !connected;
      hide Before, Grew, Flow.Take, Mirrors, World.Read, FlowFrom, Returned;
      if s == c.servsock && !connected {
        NoticeShown(w, m, open, c, s, incoming, buffers, received);
      } else if data == [] {
        HasOne(w, m, open, c, s, f);
        CloseShown(w, m, open, c, s, incoming, f);
      } else {
        ReadShown(w, m, open, c, s, incoming, buffers, received, data);
      }
    }

    lemma HasOne(w: World, m: Connections, open: set<ProxyConnection>, c: ProxyConnection, s: Sock, f: Flow)
      requires Before(w, m, open, c, s, f)
      ensures f.Has(s)
    {}

    lemma Showing(world: World)
      requires world.next == nextSock && Mirrors(world, connections, conns)
      ensures Shows(world)
    {}

    /** What is known of a socket about to be served. */
    lemma Ahead(c: ProxyConnection, s: Sock, world: World)
      requires Valid() && Shows(world) && c in conns && c.Mine(s)
      ensures world.next == nextSock && Before(world, connections, conns, c, s,
                  FlowFrom(c.clisock, c.servsock, c.connected, c.buffers, c.received, c.sent))
    {
      hide Mapped, Tidy, Counted, Settled, Mirrors, MirrorsBut, World.Apart, World.Open, Linked;
      MirrorsApart(world, connections, conns, allsockets, listensock, nextSock);
      IsLinked(connections, conns, allsockets, listensock, nextSock, c);
      Distinct(connections, c);
      MirrorsAllBut(world, connections, conns, allsockets, listensock, nextSock, c);
    }

    method ServeWrite(c: ProxyConnection, s: Sock, outgoing: Outgoing, ghost world: World) returns (thrown: bool)
      requires Valid() && c in conns && c.Mine(s) && s in writesockets && Shows(world)
      modifies `readsockets, `writesockets, c
      ensures Valid() && thrown == outgoing.Throws?
      ensures Shows(match outgoing case Throws => world case Takes(n) => world.Write(s, n))
      ensures Kept(s, connections, old(writesockets), writesockets)
    {
      hide *;
      ghost var buffers, sent := c.buffers, c.sent;
      Ahead(c, s, world);
      ghost var taken;
      thrown, taken := WriteTo(c, s, outgoing);
      if !thrown {
        GiveShown(world, connections, conns, c, s, outgoing.n, buffers, sent, taken);
        Showing(world.Write(s, outgoing.n));
      } else {
        NoneShown(world, connections, conns, c, s, sent);
        Showing(world);
      }
    }

    /** What select may return: sockets it was asked about, each at most once in a list. */
    predicate Possible(sel: Selected)
      reads this
    {
      && EachOnce(sel)
      && (forall i :: 0 <= i < |sel.r| && sel.r[i].Reads? ==> sel.r[i].s in readsockets)
      && (forall i :: 0 <= i < |sel.w| ==> sel.w[i].s in writesockets)
      && (forall i :: 0 <= i < |sel.e| ==> sel.e[i] in allsockets)
    }

    ghost predicate Pending(r: seq<Readable>, i: nat, w: seq<Writable>, k: nat, next: Sock)
      reads `connections, `readsockets, `writesockets
    {
      PendingIn(connections, readsockets, writesockets, r, i, w, k, next)
      && (forall j :: i <= j < |r| && r[j].Reads? ==> r[j].s != listensock)
      && (forall j :: k <= j < |w| ==> w[j].s != listensock)
    }

    /** Opening a connection, or closing one, leaves every other selected socket where it was. */
    lemma StillPending(m: Connections, toRead: seq<Sock>, toWrite: seq<Sock>, x: Sock, y: Sock,
                       r: seq<Readable>, i: nat, w: seq<Writable>, k: nat, next: Sock)
      requires PendingIn(m, toRead, toWrite, r, i, w, k, next)
      requires forall s :: s < next && s in connections ==> s in m
      requires (i < |r| ==> Kept(x, connections, toRead, readsockets)) && Kept(y, connections, toWrite, writesockets)
      requires forall j :: i <= j < |r| && r[j].Reads? ==> r[j].s != x
      requires forall j :: k <= j < |w| ==> w[j].s != y
      ensures PendingIn(connections, readsockets, writesockets, r, i, w, k, next)
    {}

    /** One socket that select found readable. */
    method OneRead(r: seq<Readable>, i: nat, ghost w: seq<Writable>, ghost next: Sock, ghost world: World)
      requires Valid() && i < |r| && Pending(r, i, w, 0, next) && next <= nextSock && Shows(world)
      requires forall j :: i < j < |r| && r[i].Reads? && r[j].Reads? ==> r[i].s != r[j].s
      modifies this, conns
      ensures Valid() && Pending(r, i + 1, w, 0, next) && next <= nextSock && fresh(conns - old(conns))
      ensures Shows(AfterRead(world, r[i]))
    {
      hide Mapped, Tidy, With, Without, Same, Counted, Direction, Linked, Settled, Kept, Shows;
      ghost var m, toRead, toWrite := connections, readsockets, writesockets;
      match r[i] {
        case Accepts =>
          ghost var c := Accept(world);
          StillPending(m, toRead, toWrite, listensock, listensock, r, i + 1, w, 0, next);
        case Reads(s, incoming) =>
          if s in connections {
            InConns(connections, conns, allsockets, listensock, nextSock, s);
            ServeRead(connections[s], s, incoming, world);
            StillPending(m, toRead, toWrite, s, listensock, r, i + 1, w, 0, next);
          } else {
            NotOpen(world, s, incoming, 0);
          }
      }
    }

    /** What comes of a socket that is not open, which is nothing. */
    lemma NotOpen(world: World, s: Sock, incoming: Incoming, n: nat)
      requires Valid() && Shows(world)
      ensures world.Open(s) <==> s in connections
      ensures s !in connections ==> world.Read(s, incoming) == world.Write(s, n) == world.Close(s) == world
    {
      hide Mapped, Tidy, Counted, Settled, Mirrors, World.Read, World.Write, World.Close, World.Apart, World.Open;
      MirrorsApart(world, connections, conns, allsockets, listensock, nextSock);
      if s !in connections {
        EventOnNone(world, s, incoming, n);
      }
    }

    /** One socket that select found writable. */
    method OneWrite(w: seq<Writable>, k: nat, ghost next: Sock, ghost world: World) returns (thrown: bool)
      requires Valid() && k < |w| && Pending([], 0, w, k, next) && next <= nextSock && Shows(world)
      requires forall j :: k < j < |w| ==> w[k].s != w[j].s
      modifies this, conns
      ensures Valid() && Pending([], 0, w, k + 1, next) && nextSock == old(nextSock) && conns == old(conns)
      ensures thrown ==> w[k].outgoing.Throws?
      ensures thrown == AfterWrite(world, w[k]).thrown && Shows(AfterWrite(world, w[k]).world)
    {
      hide Mapped, Tidy, With, Without, Same, Counted, Direction, Linked, Settled, Kept, Shows;
      ghost var m, toRead, toWrite := connections, readsockets, writesockets;
      thrown := false;
      var s := w[k].s;
      NotOpen(world, s, Raises, if w[k].outgoing.Takes? then w[k].outgoing.n else 0);
      if s in connections {
        InConns(connections, conns, allsockets, listensock, nextSock, s);
        thrown := ServeWrite(connections[s], s, w[k].outgoing, world);
        StillPending(m, toRead, toWrite, listensock, s, [], 0, w, k + 1, next);
      }
    }

    /** One socket in error: its connection is closed. */
    method OneError(s: Sock, ghost world: World)
      requires Valid() && Shows(world)
      modifies this
      ensures Valid() && conns <= old(conns) && Shows(world.Close(s)) && nextSock == old(nextSock)
    {
      hide Mapped, Tidy, Counted, Settled, Mirrors, MirrorsBut, World.Close;
      NotOpen(world, s, Raises, 0);
      if s in connections {
        InConns(connections, conns, allsockets, listensock, nextSock, s);
        var c := connections[s];
        ghost var m, open := connections, conns;
        Ahead(c, s, world);
        Close(c);
        EndShown(world, m, open, c, s, FlowFrom(c.clisock, c.servsock, c.connected, c.buffers, c.received, c.sent));
      }
    }

    /** The reads of one turn. */
    method AllReads(sel: Selected, ghost next: Sock, ghost world: World)
      requires Valid() && EachOnce(sel) && Pending(sel.r, 0, sel.w, 0, next) && next <= nextSock && Shows(world)
      modifies this, conns
      ensures Valid() && Pending([], 0, sel.w, 0, next) && next <= nextSock && fresh(conns - old(conns))
      ensures Shows(AfterReads(world, sel.r, |sel.r|))
    {
      hide Pending, Valid, Shows;
      for i := 0 to |sel.r|
        invariant Valid() && Pending(sel.r, i, sel.w, 0, next) && next <= nextSock && fresh(conns - old(conns))
        invariant Shows(AfterReads(world, sel.r, i))
      {
        OneRead(sel.r, i, sel.w, next, AfterReads(world, sel.r, i));
      }
      ReadsDone(sel, next);
    }

    /** The writes of one turn; an exception ends them. */
    method AllWrites(sel: Selected, ghost next: Sock, ghost world: World) returns (thrown: bool)
      requires Valid() && EachOnce(sel) && Pending([], 0, sel.w, 0, next) && next <= nextSock && Shows(world)
      modifies this, conns
      ensures Valid() && conns == old(conns)
      ensures thrown ==> exists i :: 0 <= i < |sel.w| && sel.w[i].outgoing.Throws?
      ensures var after := AfterWrites(world, sel.w, |sel.w|); thrown == after.thrown && Shows(after.world)
    {
      hide Pending, Valid, Shows, AfterWrite;
      for k := 0 to |sel.w|
        invariant Valid() && Pending([], 0, sel.w, k, next) && next <= nextSock && conns == old(conns)
        invariant !AfterWrites(world, sel.w, k).thrown && Shows(AfterWrites(world, sel.w, k).world)
      {
        thrown := OneWrite(sel.w, k, next, AfterWrites(world, sel.w, k).world);
        if thrown {
          ThrownStays(world, sel.w, k + 1, |sel.w|);
          return;
        }
      }
      thrown := false;
    }

    /** One turn of run's loop: it stops only where send raises an exception. */
    method Round(sel: Selected, ghost world: World) returns (thrown: bool)
      requires Valid() && Possible(sel) && Shows(world)
      modifies this, conns
      ensures Valid() && fresh(conns - old(conns))
      ensures thrown ==> exists i :: 0 <= i < |sel.w| && sel.w[i].outgoing.Throws?
      ensures thrown == AfterTurn(world, sel).thrown && Shows(AfterTurn(world, sel).world)
    {
      SelectedNow(sel);
      hide Pending, Valid, Shows, AfterReads, AfterWrites;
      ghost var next := nextSock;
      AllReads(sel, next, world);
      ghost var read := AfterReads(world, sel.r, |sel.r|);
      thrown := AllWrites(sel, next, read);
      if thrown {
        return;
      }
      AllErrors(sel.e, AfterWrites(read, sel.w, |sel.w|).world);
    }

    /** The errors of one turn. */
    method AllErrors(e: seq<Sock>, ghost world: World)
      requires Valid() && Shows(world)
      modifies this
      ensures Valid() && conns <= old(conns) && Shows(AfterErrors(world, e, |e|))
    {
      hide Valid, Shows;
      for i := 0 to |e|
        invariant Valid() && conns <= old(conns) && Shows(AfterErrors(world, e, i))
      {
        OneError(e[i], AfterErrors(world, e, i));
      }
    }

    lemma SelectedNow(sel: Selected)
      requires Valid() && Possible(sel)
      ensures Pending(sel.r, 0, sel.w, 0, nextSock)
    {}

    lemma ReadsDone(sel: Selected, next: Sock)
      requires Pending(sel.r, |sel.r|, sel.w, 0, next)
      ensures Pending([], 0, sel.w, 0, next)
    {}

    /** run: whatever select returns and the calls on the sockets meet, turn after turn. */
    method Run(turns: seq<Selected>, ghost world: World) returns (thrown: bool)
      requires Valid() && Shows(world)
      modifies this, conns
      ensures Valid()
      ensures var after := AfterTurns(world, listensock, turns, |turns|); thrown == after.thrown && Shows(after.world)
    {
      thrown := false;
      hide Valid, Shows, Possible, PossibleIn, AfterTurn;
      for i := 0 to |turns|
        invariant Valid() && fresh(conns - old(conns)) && !thrown && !AfterTurns(world, listensock, turns, i).thrown
        invariant Shows(AfterTurns(world, listensock, turns, i).world)
      {
        ghost var now := AfterTurns(world, listensock, turns, i).world;
        PossibleShown(now, turns[i]);
        if Possible(turns[i]) {
          thrown := Round(turns[i], now);
          if thrown {
            TurnsStay(world, listensock, turns, i + 1, |turns|);
            return;
          }
        }
      }
    }

    /** The sockets read from are those with room in their buffer, the sockets written to those for which something is
        buffered, and all sockets are those of the open connections and the one listened on. */
    lemma Lists(world: World, s: Sock)
      requires Valid() && Shows(world)
      ensures s in readsockets <==> world.Reading(s)
      ensures s in writesockets <==> world.Writing(s)
      ensures s in allsockets <==> s == listensock || world.Open(s)
    {
      hide Counted, World.Apart, Once, Settled;
      MirrorsApart(world, connections, conns, allsockets, listensock, nextSock);
      if s in connections {
        var c := connections[s];
        IsLinked(connections, conns, allsockets, listensock, nextSock, c);
        ListedIs(c, s, readsockets, writesockets);
        OnlyFlow(world, c.clisock, s);
      }
    }

    lemma OnlyFlow(world: World, t: Sock, s: Sock)
      requires world.Apart() && t in world.flows && world.flows[t].Has(s)
      ensures world.Reading(s) <==> |world.flows[t].From(s).buffered| < MAX_BUFFER_SIZE
      ensures world.Writing(s) <==> world.flows[t].To(s).buffered != []
    {}

    lemma ListedIs(c: ProxyConnection, s: Sock, toRead: seq<Sock>, toWrite: seq<Sock>)
      requires Settled(c, toRead, toWrite) && c.Mine(s) && c.clisock != c.servsock
      ensures s in toRead <==> |c.AsFlow().From(s).buffered| < MAX_BUFFER_SIZE
      ensures s in toWrite <==> c.AsFlow().To(s).buffered != []
    {}

    /** What select may return, said of the connections. */
    lemma PossibleShown(world: World, sel: Selected)
      requires Valid() && Shows(world)
      ensures Possible(sel) <==> PossibleIn(world, listensock, sel)
    {
      hide Valid, Shows, EachOnce, World.Reading, World.Writing, World.Open;
      forall i | 0 <= i < |sel.r| && sel.r[i].Reads?
        ensures sel.r[i].s in readsockets <==> world.Reading(sel.r[i].s)
      {
        Lists(world, sel.r[i].s);
      }
      forall i | 0 <= i < |sel.w| ensures sel.w[i].s in writesockets <==> world.Writing(sel.w[i].s) {
        Lists(world, sel.w[i].s);
      }
      forall i | 0 <= i < |sel.e|
        ensures sel.e[i] in allsockets <==> sel.e[i] == listensock || world.Open(sel.e[i])
      {
        Lists(world, sel.e[i]);
      }
    }

    // -------------------------------------------------------------- what holds all the time

    /** In every state of every run: each direction of each open connection is in order. */
    lemma AlwaysInOrder(c: ProxyConnection, s: Sock)
      requires Valid() && c in conns && c.Mine(s)
      ensures var o := c.Other(s);
              && s in c.buffers && s in c.received && o in c.sent
              && c.received[s] == c.sent[o] + c.buffers[s] && |c.buffers[s]| <= MAX_BUFFER_SIZE
              && (o in writesockets <==> c.buffers[s] != []) && (s in readsockets <==> |c.buffers[s]| < MAX_BUFFER_SIZE)
    {
      assert Linked(connections, c);
    }

    /** In every state of every run: the count of active connections is that of the open connections that
        are connected if and only if no connection was closed before it was connected. */
    lemma CountRight()
      requires Valid()
      ensures connectionCount == |Joined(conns)| <==> forall c :: c in gone ==> c.connected
    {
      if connectionCount == |Joined(conns)| {
        assert gone - Joined(gone) == {};
        forall c | c in gone ensures c.connected {
          assert c !in gone - Joined(gone);
        }
      } else {
        assert exists c :: c in gone - Joined(gone);
      }
    }

    /** How far it is off. */
    lemma CountOff()
      requires Valid()
      ensures connectionCount == |Joined(conns)| - |set c | c in gone && !c.connected|
    {
      assert (set c | c in gone && !c.connected) == gone - Joined(gone);
    }
  }

  /** A client that goes away before the connection to the server is there: the count is -1 with nothing open. */
  method CountBelowZero(listensock: Sock) returns (server: ProxyServer)
    ensures server.Valid() && server.conns == {} && server.connectionCount == -1
  {
    server := new ProxyServer(listensock);
    ghost var c := server.Open();
    var s := server.nextSock - 2;
    hide Mapped, Tidy, Settled, Kept;
    ghost var data := server.ReadFrom(server.connections[s], s, Waiting([]));
    assert data == [] && server.gone == {c} && server.conns == {};
    server.CountOff();
    assert (set x | x in server.gone && !x.connected) == {c};
  }
}
