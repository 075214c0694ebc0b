/** The byte-at-a-time frame parsers: libwebsocket_rx_sm (parsers.c), which serves connections from
    clients, and libwebsocket_client_rx_sm (client-parser.c).  `Step` specifies one byte of either. */
module WsReceive {
  import opened WsFrame
  import opened CWords

  datatype Role = Server | Client

  /** lws_rx_parse_state.  `Len64(k)` and `Key(k)` are the states in which `k` bytes of the length,
      or byte `k` of the key, come next. */
  datatype Phase = New | HdrLen | Len16_2 | Len16_1 | Len64_(k: nat) | Key(k: nat) | Payload

  /** What reaches the label `spill`: the frame's opcode and FIN, the buffered data, and
      rx_packet_length at that moment. */
  datatype Spill = Spill(opcode: bv8, fin: bool, data: seq<bv8>, remaining: nat)

  datatype Rx = Rx(phase: Phase, opcode: bv8, fin: bool, binary: bool, masked: bool, length: nat,
                   nonce: seq<bv8>, maskIndex: nat, allZero: bool, buffer: seq<bv8>) {
    ghost predicate Valid() {
      && |nonce| == 4 && maskIndex < 256 && length < TWO64
      && (phase.Len64_? ==> 1 <= phase.k <= 8)
      && (phase.Key? ==> 1 <= phase.k <= 4)
    }
  }

  datatype Outcome = Alive(rx: Rx, spills: seq<Spill>) | Dead(spills: seq<Spill>)

  const CONTINUATION: bv8 := 0
  const TEXT: bv8 := 1
  const BINARY: bv8 := 2
  const CLOSE: bv8 := 8
  const PING: bv8 := 9
  const PONG: bv8 := 10

  /** What a spill leads to. */
  datatype Action =
    | Receive(data: seq<bv8>, remaining: nat)  // the user's receive callback
    | ReceivePong(data: seq<bv8>)              // the user's pong callback, on a client
    | WritePong(data: seq<bv8>)
    | WriteClose(data: seq<bv8>)
    | Ignore

  function ActionOf(role: Role, s: Spill): Action {
    if s.opcode == CLOSE then WriteClose(s.data)
    else if s.opcode == PING then WritePong(s.data)
    else if s.opcode == PONG then (if role.Client? then ReceivePong(s.data) else Ignore)
    else if s.opcode > BINARY || s.data == [] then Ignore
    else Receive(s.data, s.remaining)
  }

  predicate Control(opcode: bv8) { opcode & 8 != 0 }

  ghost predicate Ok(o: Outcome) { o.Alive? ==> o.rx.Valid() }

  ghost predicate Empty(o: Outcome) { o.Alive? ==> o.rx.buffer == [] }

  /** The code at the label `spill`.  Only a close frame ends the connection. */
  function SpillNow(rx: Rx): (o: Outcome)
    ensures rx.Valid() ==> Ok(o)
    ensures rx.buffer == [] ==> Empty(o)
  {
    var s := Spill(rx.opcode, rx.fin, rx.buffer, rx.length);
    if rx.opcode == CLOSE then Dead([s]) else Alive(rx.(buffer := []), [s])
  }

  /** After the last byte of a length or key: on to the payload, if there is one. */
  function Begin(rx: Rx): (o: Outcome)
    ensures rx.Valid() ==> Ok(o)
    ensures rx.buffer == [] ==> Empty(o)
  {
    if rx.length == 0 then SpillNow(rx.(phase := New)) else Alive(rx.(phase := Payload), [])
  }

  /** After the length: on to the key, or to the payload.  The server does not look for an empty
      payload after an extended length. */
  function AfterLength(role: Role, rx: Rx, extended: bool): (o: Outcome)
    ensures rx.Valid() ==> Ok(o)
    ensures rx.buffer == [] ==> Empty(o)
  {
    if rx.masked then Alive(rx.(phase := Key(1)), [])
    else if extended && role.Server? then Alive(rx.(phase := Payload), [])
    else Begin(rx)
  }

  function AtNew(role: Role, rx: Rx, c: bv8): (o: Outcome)
    requires rx.Valid()
    ensures Ok(o) && (rx.buffer == [] ==> Empty(o))
  {
    var op := Opcode(c);
    Alive(rx.(phase := HdrLen, opcode := op, fin := Fin(c),
              binary := if op == TEXT || op == BINARY then op == BINARY else rx.binary,
              allZero := role.Server? || rx.allZero), [])
  }

  function AtHdrLen(role: Role, rx: Rx, c: bv8): (o: Outcome)
    requires rx.Valid()
    ensures Ok(o) && (rx.buffer == [] ==> Empty(o))
  {
    var n := Length7(c);
    var rx' := rx.(masked := MaskBit(c));
    if n == 126 then
      if Control(rx.opcode) then Dead([]) else Alive(rx'.(phase := Len16_2), [])
    else if n == 127 then
      if Control(rx.opcode) then Dead([]) else Alive(rx'.(phase := Len64_(8)), [])
    else
      AfterLength(role, rx'.(length := if role.Server? then n else Num(c)), false)
  }

  /** The first byte of a 64-bit length. */
  function Top64(c: bv8): (w: nat)
    ensures w < TWO64
  {
    Wrap64(Num(c) * Power256(7))
  }

  /** The byte of a 64-bit length that stands `k - 1` bytes from its end. */
  function Add64(length: nat, k: nat, c: bv8): (w: nat)
    requires k > 0
    ensures w < TWO64
  {
    Wrap64(length + Num(c) * Power256(k - 1))
  }

  function AtLen64(role: Role, rx: Rx, k: nat, c: bv8): (o: Outcome)
    requires rx.Valid() && 1 <= k <= 8
    ensures Ok(o) && (rx.buffer == [] ==> Empty(o))
  {
    if k == 8 then
      if MaskBit(c) then Dead([]) else Alive(rx.(phase := Len64_(7), length := Top64(c)), [])
    else
      var rx' := rx.(length := Add64(rx.length, k, c));
      if k > 1 then Alive(rx'.(phase := Len64_(k - 1)), []) else AfterLength(role, rx', true)
  }

  function AtKey(role: Role, rx: Rx, k: nat, c: bv8): (o: Outcome)
    requires rx.Valid() && 1 <= k <= 4
    ensures Ok(o) && (rx.buffer == [] ==> Empty(o))
  {
    var rx' := rx.(nonce := rx.nonce[k - 1 := c], allZero := rx.allZero && c == 0);
    if k < 4 then Alive(rx'.(phase := Key(k + 1)), [])
    else Begin(if role.Server? then rx'.(maskIndex := 0) else rx')
  }

  /** A payload byte, unmasked if it is masked, in the receive buffer. */
  function Stored(role: Role, rx: Rx, c: bv8): (rx': Rx)
    requires rx.Valid()
    ensures rx'.Valid() && |rx'.buffer| == |rx.buffer| + 1
  {
    var plain := rx.allZero || (role.Client? && !rx.masked);
    var x := if plain then c else Xor8(c, rx.nonce[rx.maskIndex % 4]);
    rx.(buffer := rx.buffer + [x], length := Wrap64(rx.length + TWO64 - 1),
        maskIndex := if plain then rx.maskIndex else (rx.maskIndex + 1) % 256)
  }

  function AtPayload(role: Role, size: nat, rx: Rx, c: bv8): (o: Outcome)
    requires rx.Valid()
    ensures Ok(o)
  {
    var rx' := Stored(role, rx, c);
    if rx'.length == 0 then SpillNow(rx'.(phase := New))
    else if |rx'.buffer| == size then SpillNow(rx')
    else Alive(rx', [])
  }

  /** One byte in; `size` is the protocol's receive buffer size. */
  function Step(role: Role, size: nat, rx: Rx, c: bv8): (o: Outcome)
    requires rx.Valid()
    ensures Ok(o)
  {
    match rx.phase
    case New => AtNew(role, rx, c)
    case HdrLen => AtHdrLen(role, rx, c)
    case Len16_2 => Alive(rx.(phase := Len16_1, length := Num(c) * 256), [])
    case Len16_1 => AfterLength(role, rx.(length := Wrap64(rx.length + Num(c))), true)
    case Len64_(k) => AtLen64(role, rx, k, c)
    case Key(k) => AtKey(role, rx, k, c)
    case Payload => AtPayload(role, size, rx, c)
  }

  // ---------------------------------------------------------------- runs

  /** The outcome of a string of bytes, up to the one that ends the connection if one does. */
  function Feed(role: Role, size: nat, rx: Rx, s: seq<bv8>): (o: Outcome)
    requires rx.Valid()
    ensures Ok(o)
    decreases |s|, 0
  {
    if s == [] then Alive(rx, [])
    else Then(role, size, Step(role, size, rx, s[0]), s[1..])
  }

  /** Going on from an outcome. */
  function Then(role: Role, size: nat, o: Outcome, s: seq<bv8>): (o': Outcome)
    requires Ok(o)
    ensures Ok(o')
    decreases |s|, 1
  {
    match o
    case Dead(_) => o
    case Alive(rx, before) =>
      match Feed(role, size, rx, s)
      case Dead(after) => Dead(before + after)
      case Alive(rx', after) => Alive(rx', before + after)
  }

  lemma {:induction false} FeedAppend(role: Role, size: nat, rx: Rx, s: seq<bv8>, t: seq<bv8>)
    requires rx.Valid()
    ensures Feed(role, size, rx, s + t) == Then(role, size, Feed(role, size, rx, s), t)
    decreases |s|
  {
    hide Step;
    if s == [] {
      assert s + t == t;
    } else {
      assert (s + t)[1..] == s[1..] + t;
      var o := Step(role, size, rx, s[0]);
      if o.Alive? {
        FeedAppend(role, size, o.rx, s[1..], t);
      }
    }
  }

  lemma FeedOne(role: Role, size: nat, rx: Rx, c: bv8, rest: seq<bv8>)
    requires rx.Valid()
    ensures Feed(role, size, rx, [c] + rest) == Then(role, size, Step(role, size, rx, c), rest)
  {
    assert ([c] + rest)[1..] == rest;
  }

  lemma ThenQuiet(role: Role, size: nat, rx: Rx, rest: seq<bv8>)
    requires rx.Valid()
    ensures Then(role, size, Alive(rx, []), rest) == Feed(role, size, rx, rest)
  {
    var o := Feed(role, size, rx, rest);
    assert [] + o.spills == o.spills;
  }

  // ---------------------------------------------------------------- headers

  lemma BigEndianCons(n: nat, k: nat)
    requires k > 0
    ensures BigEndian(n, k) == [Byte(Digit(n, k - 1))] + BigEndian(n, k - 1)
  {}

  /** The next byte of a 64-bit length, added to those before it. */
  lemma AddByte(n: nat, k: nat)
    requires n < TWO63 && k > 0
    ensures n >= n % Power256(k) && Add64(n - n % Power256(k), k, Byte(Digit(n, k - 1))) == n - n % Power256(k - 1)
  {
    NumByte(Digit(n, k - 1));
    AddDigit(n, k - 1);
    ModLess(n, Power256(k));
    ModLess(n, Power256(k - 1));
    hide Byte, Digit, Num, Power256, Wrap64;
    var high, rest := n - n % Power256(k), n - n % Power256(k - 1);
    assert high + Num(Byte(Digit(n, k - 1))) * Power256(k - 1) == rest;
    assert Wrap64(rest) == rest;
  }

  lemma ModLess(n: nat, m: nat)
    requires m > 0
    ensures n % m <= n
  {
    if n < m {
      assert n % m == n;
    }
  }

  /** The bytes of a 64-bit length after the first. */
  lemma {:induction false} FeedLen64(role: Role, size: nat, rx: Rx, n: nat, rest: seq<bv8>)
    requires rx.Valid() && rx.phase.Len64_? && rx.phase.k <= 7
    requires n < TWO63 && rx.length == n - n % Power256(rx.phase.k)
    ensures Feed(role, size, rx, BigEndian(n, rx.phase.k) + rest)
         == Then(role, size, AfterLength(role, rx.(length := n), true), rest)
    decreases rx.phase.k
  {
    hide Digit, Byte, Num, Power256, Feed, Then, AfterLength, BigEndian, Add64;
    var k := rx.phase.k;
    AddByte(n, k);
    var c := Byte(Digit(n, k - 1));
    BigEndianCons(n, k);
    assert [c] + BigEndian(n, k - 1) + rest == [c] + (BigEndian(n, k - 1) + rest);
    FeedOne(role, size, rx, c, BigEndian(n, k - 1) + rest);
    var rx' := rx.(length := n - n % Power256(k - 1));
    if k > 1 {
      ThenQuiet(role, size, rx'.(phase := Len64_(k - 1)), BigEndian(n, k - 1) + rest);
      FeedLen64(role, size, rx'.(phase := Len64_(k - 1)), n, rest);
      AfterLengthPhase(role, rx.(length := n), Len64_(k - 1));
    } else {
      ModOne(n);
      BigEndianNone(n);
      assert [] + rest == rest;
    }
  }

  lemma ModOne(n: nat)
    ensures n % Power256(0) == 0
  {}

  lemma BigEndianNone(n: nat)
    ensures BigEndian(n, 0) == []
  {}

  lemma AfterLengthPhase(role: Role, rx: Rx, p: Phase)
    ensures AfterLength(role, rx.(phase := p), true) == AfterLength(role, rx, true)
  {}

  /** The state once a length of `n` has come in. */
  function WithLength(rx: Rx, n: nat, masked: bool): Rx {
    rx.(length := n, masked := masked)
  }

  /** Control frames may have a short length only. */
  lemma FeedLength(role: Role, size: nat, rx: Rx, n: nat, form: LengthForm, masked: bool, rest: seq<bv8>)
    requires rx.Valid() && rx.phase == HdrLen && Fits(n, form) && (role.Client? ==> !masked)
    ensures Feed(role, size, rx, LengthBytes(n, form, masked) + rest)
         == if Control(rx.opcode) && form != Len7 then Dead([])
            else Then(role, size, AfterLength(role, WithLength(rx, n, masked), form != Len7), rest)
  {
    match form
    case Len7 =>
      LengthByteBits(n, masked);
      FeedOne(role, size, rx, LengthByte(n, masked), rest);
      if role.Client? {
        NumByte(n);
        assert LengthByte(n, false) == Byte(n);
      }
    case Len16 =>
      var c, d0 := LengthByte(126, masked), BigEndian(n, 2);
      LengthByteBits(126, masked);
      hide Byte, Digit, Feed, Then, LengthByte, BigEndian, AfterLength;
      assert [c] + d0 + rest == [c] + (d0 + rest);
      FeedOne(role, size, rx, c, d0 + rest);
      var rx' := rx.(masked := masked, phase := Len16_2);
      ThenQuiet(role, size, rx', d0 + rest);
      FeedLen16(role, size, rx', n, rest);
      AfterLengthPhase(role, WithLength(rx, n, masked), Len16_2);
    case Len64 =>
      var c, d0 := LengthByte(127, masked), BigEndian(n, 8);
      LengthByteBits(127, masked);
      hide Byte, Digit, Feed, Then, LengthByte, BigEndian, AfterLength, Power256, MaskBit, Num;
      assert [c] + d0 + rest == [c] + (d0 + rest);
      FeedOne(role, size, rx, c, d0 + rest);
      var rx' := rx.(masked := masked, phase := Len64_(8));
      ThenQuiet(role, size, rx', d0 + rest);
      FeedTop64(role, size, rx', n, rest);
      AfterLengthPhase(role, WithLength(rx, n, masked), Len64_(8));
  }

  lemma FeedLen16(role: Role, size: nat, rx: Rx, n: nat, rest: seq<bv8>)
    requires rx.Valid() && rx.phase == Len16_2 && n < 65536
    ensures Feed(role, size, rx, BigEndian(n, 2) + rest)
            == Then(role, size, AfterLength(role, rx.(length := n), true), rest)
  {
    hide Byte, Digit, Num, Power256, Feed, Then, AfterLength, BigEndian, Step;
    var c1, c0 := Byte(Digit(n, 1)), Byte(Digit(n, 0));
    NumByte(Digit(n, 1));
    NumByte(Digit(n, 0));
    Len16Digits(n);
    assert [c1, c0] + rest == [c1] + ([c0] + rest);
    FeedHigh(role, size, rx, c1, [c0] + rest);
    FeedLow(role, size, rx.(phase := Len16_1, length := Num(c1) * 256), c0, rest);
    AfterLengthPhase(role, rx.(length := n), Len16_1);
  }

  lemma FeedHigh(role: Role, size: nat, rx: Rx, c: bv8, rest: seq<bv8>)
    requires rx.Valid() && rx.phase == Len16_2
    ensures Feed(role, size, rx, [c] + rest) == Feed(role, size, rx.(phase := Len16_1, length := Num(c) * 256), rest)
  {
    hide Num, Feed, Then;
    FeedOne(role, size, rx, c, rest);
    ThenQuiet(role, size, rx.(phase := Len16_1, length := Num(c) * 256), rest);
  }

  lemma FeedLow(role: Role, size: nat, rx: Rx, c: bv8, rest: seq<bv8>)
    requires rx.Valid() && rx.phase == Len16_1 && rx.length + Num(c) < 65536
    ensures Feed(role, size, rx, [c] + rest) == Then(role, size,
            AfterLength(role, rx.(length := rx.length + Num(c)), true), rest)
  {
    hide Num, Feed, Then, AfterLength;
    FeedOne(role, size, rx, c, rest);
  }

  lemma Len16Digits(n: nat)
    requires n < 65536
    ensures BigEndian(n, 2) == [Byte(Digit(n, 1)), Byte(Digit(n, 0))]
    ensures Digit(n, 1) * 256 + Digit(n, 0) == n
  {
    assert Power256(1) == 256 && Power256(0) == 1;
  }

  lemma FeedTop64(role: Role, size: nat, rx: Rx, n: nat, rest: seq<bv8>)
    requires rx.Valid() && rx.phase == Len64_(8) && n < TWO63
    ensures Feed(role, size, rx, BigEndian(n, 8) + rest)
            == Then(role, size, AfterLength(role, rx.(length := n), true), rest)
  {
    hide Byte, Digit, Num, Power256, MaskBit, Feed, Then, AfterLength, BigEndian;
    var c := Byte(Digit(n, 7));
    BigEndianCons(n, 8);
    assert [c] + BigEndian(n, 7) + rest == [c] + (BigEndian(n, 7) + rest);
    FeedOne(role, size, rx, c, BigEndian(n, 7) + rest);
    NumByte(Digit(n, 7));
    TopBitClear(n);
    AddDigit(n, 7);
    var rx' := rx.(phase := Len64_(7), length := n - n % Power256(7));
    ThenQuiet(role, size, rx', BigEndian(n, 7) + rest);
    FeedLen64(role, size, rx', n, rest);
    AfterLengthPhase(role, rx.(length := n), Len64_(7));
  }

  function KeyByte(rx: Rx, k: nat, c: bv8): Rx
    requires rx.Valid() && 1 <= k <= 4
  {
    rx.(nonce := rx.nonce[k - 1 := c], allZero := rx.allZero && c == 0)
  }

  lemma FeedKeyByte(size: nat, rx: Rx, c: bv8, rest: seq<bv8>)
    requires rx.Valid() && rx.phase.Key? && rx.phase.k < 4
    ensures var rx' := KeyByte(rx, rx.phase.k, c).(phase := Key(rx.phase.k + 1));
            rx'.Valid() && Feed(Server, size, rx, [c] + rest) == Feed(Server, size, rx', rest)
  {
    var rx' := KeyByte(rx, rx.phase.k, c).(phase := Key(rx.phase.k + 1));
    hide Feed, Then;
    FeedOne(Server, size, rx, c, rest);
    ThenQuiet(Server, size, rx', rest);
  }

  /** The four bytes of a key, on a server. */
  lemma FeedKey(size: nat, rx: Rx, key: seq<bv8>, rest: seq<bv8>)
    requires rx.Valid() && rx.phase == Key(1) && |key| == 4
    ensures Feed(Server, size, rx, key + rest)
         == Then(Server, size, Begin(rx.(nonce := key, maskIndex := 0, allZero := rx.allZero && key == [0, 0, 0, 0])),
             rest)
  {
    hide Feed, Then, Begin, Step;
    var k1, k2, k3, k4 := key[0], key[1], key[2], key[3];
    var r1 := KeyByte(rx, 1, k1).(phase := Key(2));
    var r2 := KeyByte(r1, 2, k2).(phase := Key(3));
    var r3 := KeyByte(r2, 3, k3).(phase := Key(4));
    assert key == [k1, k2, k3, k4];
    assert key + rest == [k1] + ([k2] + ([k3] + ([k4] + rest)));
    FeedKeyByte(size, rx, k1, [k2] + ([k3] + ([k4] + rest)));
    FeedKeyByte(size, r1, k2, [k3] + ([k4] + rest));
    FeedKeyByte(size, r2, k3, [k4] + rest);
    FeedOne(Server, size, r3, k4, rest);
    LastKeyByte(size, r3, k4);
    var r4 := KeyByte(r3, 4, k4).(maskIndex := 0);
    BeginPhase(r4, Key(1));
    assert r4.nonce == key;
  }

  lemma LastKeyByte(size: nat, rx: Rx, c: bv8)
    requires rx.Valid() && rx.phase == Key(4)
    ensures Step(Server, size, rx, c) == Begin(KeyByte(rx, 4, c).(maskIndex := 0))
  {}

  lemma BeginPhase(rx: Rx, p: Phase)
    ensures Begin(rx.(phase := p)) == Begin(rx)
  {}

  // ---------------------------------------------------------------- payloads

  /** The spills of a frame: pieces of the buffer size, then what is left.  Only the last one sees
      nothing remaining. */
  function Spills(opcode: bv8, fin: bool, data: seq<bv8>, size: nat): (log: seq<Spill>)
    requires size > 0
    ensures |log| > 0
    decreases |data|
  {
    if |data| <= size then [Spill(opcode, fin, data, 0)]
    else [Spill(opcode, fin, data[..size], |data| - size)] + Spills(opcode, fin, data[size..], size)
  }

  predicate Plain(role: Role, rx: Rx) { rx.allZero || (role.Client? && !rx.masked) }

  /** What the payload bytes `enc` decode to from here. */
  function Decoded(role: Role, rx: Rx, enc: seq<bv8>): (data: seq<bv8>)
    requires rx.Valid()
    ensures |data| == |enc|
  {
    if Plain(role, rx) then enc
    else seq(|enc|, i requires 0 <= i < |enc| => Xor8(enc[i], rx.nonce[(rx.maskIndex + i) % 4]))
  }

  /** Between frames. */
  ghost predicate Ready(rx: Rx) { rx.Valid() && rx.phase == New && rx.buffer == [] }

  /** The outcome has exactly the spills of a frame with this content, and is ready for the next
      frame unless this one closed the connection. */
  ghost predicate Delivers(o: Outcome, opcode: bv8, fin: bool, data: seq<bv8>, size: nat)
    requires size > 0
  {
    if opcode == CLOSE then o == Dead(Spills(opcode, fin, data, size)[..1])
    else o.Alive? && Ready(o.rx) && o.spills == Spills(opcode, fin, data, size)
  }

  function AfterByte(role: Role, rx: Rx, c: bv8, d: bv8): Rx
    requires rx.length > 0
  {
    rx.(buffer := rx.buffer + [d], length := rx.length - 1,
        maskIndex := if Plain(role, rx) then rx.maskIndex else (rx.maskIndex + 1) % 256)
  }

  /** What follows a payload byte that left the state `rx`. */
  function AfterPayload(size: nat, rx: Rx): Outcome {
    if rx.length == 0 then SpillNow(rx.(phase := New))
    else if |rx.buffer| == size then SpillNow(rx)
    else Alive(rx, [])
  }

  /** The state after the first of some payload bytes. */
  function Next(role: Role, rx: Rx, enc: seq<bv8>): Rx
    requires rx.Valid() && rx.phase == Payload && rx.length == |enc| > 0
  {
    AfterByte(role, rx, enc[0], Decoded(role, rx, enc)[0])
  }

  lemma NextState(role: Role, size: nat, rx: Rx, enc: seq<bv8>)
    requires rx.Valid() && rx.phase == Payload && rx.length == |enc| > 0
    ensures var rx1 := Next(role, rx, enc);
            && rx1.Valid() && rx1.phase == Payload && rx1.length == |enc[1..]| && rx1.opcode == rx.opcode
            && rx1.fin == rx.fin
            && |rx1.buffer| == |rx.buffer| + 1
            && rx.buffer + Decoded(role, rx, enc) == rx1.buffer + Decoded(role, rx1, enc[1..])
            && Decoded(role, rx1, enc[1..]) == Decoded(role, rx1.(buffer := []), enc[1..])
  {
    DecodedTail(role, rx, enc);
    hide Decoded, Plain;
    OneOver(rx.buffer, Decoded(role, rx, enc));
  }

  lemma OneOver(a: seq<bv8>, s: seq<bv8>)
    requires s != []
    ensures a + s == a + [s[0]] + s[1..]
  {}

  lemma FeedPayloadByte(role: Role, size: nat, rx: Rx, enc: seq<bv8>)
    requires rx.Valid() && rx.phase == Payload && rx.length == |enc| > 0
    requires Ok(AfterPayload(size, Next(role, rx, enc)))
    ensures Feed(role, size, rx, enc) == Then(role, size, AfterPayload(size, Next(role, rx, enc)), enc[1..])
  {
    hide Step, Decoded, Feed, Then, Plain, Xor8, AfterByte, AfterPayload;
    DecodedTail(role, rx, enc);
    PayloadByte(role, size, rx, enc[0], Decoded(role, rx, enc)[0]);
    assert enc == [enc[0]] + enc[1..];
    FeedOne(role, size, rx, enc[0], enc[1..]);
  }

  /** The bytes of a payload are buffered up to the buffer size and spilled. */
  lemma {:induction false} FeedPayload(role: Role, size: nat, rx: Rx, enc: seq<bv8>)
    requires rx.Valid() && rx.phase == Payload && rx.length == |enc| > 0 && |rx.buffer| < size
    ensures Delivers(Feed(role, size, rx, enc), rx.opcode, rx.fin, rx.buffer + Decoded(role, rx, enc), size)
    decreases |enc|
  {
    var rx1 := Next(role, rx, enc);
    NextState(role, size, rx, enc);
    var rest := Decoded(role, rx1, enc[1..]);
    hide Next, Decoded, Feed, Then;
    FeedPayloadByte(role, size, rx, enc);
    if |enc| == 1 {
      assert rest == [] && rx1.buffer + rest == rx1.buffer;
      SpillsLast(rx.opcode, rx.fin, rx1.buffer, size);
      ThenNothing(role, size, AfterPayload(size, rx1));
      assert enc[1..] == [];
    } else if |rx1.buffer| < size {
      ThenQuiet(role, size, rx1, enc[1..]);
      FeedPayload(role, size, rx1, enc[1..]);
    } else if rx.opcode == CLOSE {
      SpillsMore(rx.opcode, rx.fin, rx1.buffer, rest, size);
      ThenDead(role, size, AfterPayload(size, rx1), enc[1..]);
    } else {
      var rx2 := rx1.(buffer := []);
      FeedPayload(role, size, rx2, enc[1..]);
      assert [] + rest == rest;
      ThenDelivers(role, size, rx2, rx1.buffer, enc[1..], rest);
    }
  }

  lemma ThenNothing(role: Role, size: nat, o: Outcome)
    requires Ok(o)
    ensures Then(role, size, o, []) == o
  {}

  lemma ThenDead(role: Role, size: nat, o: Outcome, rest: seq<bv8>)
    requires o.Dead?
    ensures Then(role, size, o, rest) == o
  {}

  /** A full buffer spilled, then the rest of the payload. */
  lemma ThenDelivers(role: Role, size: nat, rx: Rx, first: seq<bv8>, enc: seq<bv8>, data: seq<bv8>)
    requires rx.Valid() && |first| == size > 0 && rx.opcode != CLOSE && data != []
    requires Delivers(Feed(role, size, rx, enc), rx.opcode, rx.fin, data, size)
    ensures Delivers(Then(role, size, Alive(rx, [Spill(rx.opcode, rx.fin, first, |data|)]), enc), rx.opcode, rx.fin,
            first + data, size)
  {
    hide Feed, Spills;
    SpillsMore(rx.opcode, rx.fin, first, data, size);
  }

  lemma PayloadByte(role: Role, size: nat, rx: Rx, c: bv8, d: bv8)
    requires rx.Valid() && rx.phase == Payload && rx.length > 0 && [d] == Decoded(role, rx, [c])
    ensures var rx1 := AfterByte(role, rx, c, d);
            rx1.Valid() &&
            Step(role, size, rx, c) == AfterPayload(size, rx1)
  {
    assert (rx.length + TWO64 - 1) % TWO64 == rx.length - 1;
    assert Decoded(role, rx, [c])[0] == if Plain(role, rx) then c else Xor8(c, rx.nonce[rx.maskIndex % 4]);
  }

  lemma DecodedTail(role: Role, rx: Rx, enc: seq<bv8>)
    requires rx.Valid() && enc != [] && rx.length > 0
    ensures var dec, rx1 := Decoded(role, rx, enc), AfterByte(role, rx, enc[0], Decoded(role, rx, enc)[0]);
            && [dec[0]] == Decoded(role, rx, [enc[0]])
            && dec[1..] == Decoded(role, rx1, enc[1..]) == Decoded(role, rx1.(buffer := []), enc[1..])
  {
    var dec, rx1 := Decoded(role, rx, enc), AfterByte(role, rx, enc[0], Decoded(role, rx, enc)[0]);
    forall i | 0 <= i < |enc| - 1 ensures dec[1..][i] == Decoded(role, rx1, enc[1..])[i] {
      assert (rx.maskIndex + 1) % 256 % 4 == (rx.maskIndex + 1) % 4;
      assert ((rx.maskIndex + 1) % 256 + i) % 4 == (rx.maskIndex + (i + 1)) % 4;
    }
  }

  lemma SpillsLast(opcode: bv8, fin: bool, data: seq<bv8>, size: nat)
    requires 0 < |data| <= size
    ensures Spills(opcode, fin, data, size) == [Spill(opcode, fin, data, 0)]
  {}

  lemma SpillsMore(opcode: bv8, fin: bool, first: seq<bv8>, rest: seq<bv8>, size: nat)
    requires |first| == size > 0 && rest != []
    ensures Spills(opcode, fin, first + rest, size)
            == [Spill(opcode, fin, first, |rest|)] + Spills(opcode, fin, rest, size)
  {
    assert (first + rest)[..size] == first && (first + rest)[size..] == rest;
  }

  // ---------------------------------------------------------------- frames

  lemma DecodedMask(rx: Rx, payload: seq<bv8>)
    requires rx.Valid() && rx.maskIndex == 0 && rx.allZero == (rx.nonce == [0, 0, 0, 0])
    ensures Decoded(Server, rx, Mask(payload, rx.nonce)) == payload
  {
    var enc := Mask(payload, rx.nonce);
    forall i | 0 <= i < |payload| ensures Decoded(Server, rx, enc)[i] == payload[i] {
      Xor8Twice(payload[i], rx.nonce[i % 4]);
    }
  }

  /** The frames a parser takes in completely.  A control frame with an extended length is refused,
      and an empty unmasked frame whose length is not in seven bits leaves the server counting down
      from zero. */
  predicate Readable(role: Role, f: Frame, form: LengthForm) {
    && (Control(f.opcode) ==> form == Len7)
    && (role == Server && f.mask == [] && f.payload == [] ==> form == Len7)
  }

  /** The payload part of a frame, once its length and key are known. */
  lemma FeedBody(role: Role, size: nat, rx: Rx, body: seq<bv8>, payload: seq<bv8>)
    requires rx.Valid() && rx.buffer == [] && rx.length == |body| && size > 0
    requires payload == Decoded(role, rx, body)
    ensures Delivers(Then(role, size, Begin(rx), body), rx.opcode, rx.fin, payload, size)
    ensures Delivers(Then(role, size, Alive(rx.(phase := Payload), []), body), rx.opcode, rx.fin, payload, size)
            <==> body != []
  {
    hide Decoded;
    ThenQuiet(role, size, rx.(phase := Payload), body);
    DecodedPhase(role, rx, body);
    if body == [] {
      ThenNothing(role, size, Begin(rx));
    } else {
      FeedPayload(role, size, rx.(phase := Payload), body);
      assert [] + payload == payload;
    }
  }

  lemma DecodedPhase(role: Role, rx: Rx, body: seq<bv8>)
    requires rx.Valid()
    ensures rx.(phase := Payload).Valid() && Decoded(role, rx.(phase := Payload), body) == Decoded(role, rx, body)
  {}

  /** After the length, on a connection whose frames are masked. */
  lemma FeedMasked(size: nat, rx: Rx, key: seq<bv8>, payload: seq<bv8>)
    requires rx.Valid() && rx.buffer == [] && rx.masked && rx.allZero && rx.length == |payload| && |key| == 4
             && size > 0
    ensures Delivers(Feed(Server, size, rx.(phase := Key(1)), key + Mask(payload, key)), rx.opcode, rx.fin, payload,
            size)
  {
    var rx1 := rx.(phase := Key(1));
    var rx2 := rx1.(nonce := key, maskIndex := 0, allZero := key == [0, 0, 0, 0]);
    DecodedMask(rx2, payload);
    hide Decoded, Feed, Then, Mask, Begin, Delivers;
    FeedKey(size, rx1, key, Mask(payload, key));
    FeedBody(Server, size, rx2, Mask(payload, key), payload);
  }

  /** After the length, on a connection whose frames are not masked. */
  lemma FeedUnmasked(role: Role, size: nat, rx: Rx, extended: bool, payload: seq<bv8>)
    requires rx.Valid() && rx.buffer == [] && !rx.masked && (role == Server ==> rx.allZero) && rx.length == |payload|
             && size > 0
    ensures Delivers(Then(role, size, AfterLength(role, rx, extended), payload), rx.opcode, rx.fin, payload, size)
            <==> !(role == Server && extended && payload == [])
  {
    hide Feed, Then, Delivers;
    FeedBody(role, size, rx, payload, payload);
  }

  /** The state after the header of a frame, short of its key. */
  function Headed(role: Role, rx: Rx, f: Frame): Rx {
    rx.(opcode := f.opcode, fin := f.fin, length := |f.payload|, masked := f.mask != [], phase := HdrLen,
        binary := if f.opcode == TEXT || f.opcode == BINARY then f.opcode == BINARY else rx.binary,
        allZero := role.Server? || rx.allZero)
  }

  function Body(f: Frame): seq<bv8>
    requires f.mask == [] || |f.mask| == 4
  {
    if f.mask == [] then f.payload else Mask(f.payload, f.mask)
  }

  lemma FeedNew(role: Role, size: nat, rx: Rx, rx1: Rx, c: bv8, rest: seq<bv8>)
    requires Ready(rx) && AtNew(role, rx, c) == Alive(rx1, [])
    ensures rx1.Valid() && Feed(role, size, rx, [c] + rest) == Feed(role, size, rx1, rest)
  {
    hide Feed, Then, AtNew;
    assert Ok(AtNew(role, rx, c));
    FeedOne(role, size, rx, c, rest);
    ThenQuiet(role, size, rx1, rest);
  }

  lemma Reassociate(a: bv8, b: seq<bv8>, c: seq<bv8>, d: seq<bv8>)
    ensures [a] + b + c + d == [a] + (b + (c + d))
  {}

  lemma FirstByteOut(role: Role, rx: Rx, f: Frame)
    requires Ready(rx) && f.Valid()
    ensures var rx1 := Headed(role, rx, f).(length := rx.length, masked := rx.masked);
            rx1.Valid() && AtNew(role, rx, FirstByte(f.opcode, f.fin)) == Alive(rx1, [])
  {
    FirstByteBits(f.opcode, f.fin);
  }

  lemma FeedHeader(role: Role, size: nat, rx: Rx, f: Frame, form: LengthForm)
    requires Ready(rx) && f.Valid() && Fits(|f.payload|, form) && (role == Client ==> f.mask == [])
    ensures Headed(role, rx, f).Valid()
    ensures Feed(role, size, rx, EncodeAs(f, form))
         == if Control(f.opcode) && form != Len7 then Dead([])
            else Then(role, size, AfterLength(role, Headed(role, rx, f), form != Len7), f.mask + Body(f))
  {
    var n, masked := |f.payload|, f.mask != [];
    var rest := f.mask + Body(f);
    var rx1 := Headed(role, rx, f).(length := rx.length, masked := rx.masked);
    FirstByteOut(role, rx, f);
    EncodeIs(f, form);
    assert WithLength(rx1, n, masked) == Headed(role, rx, f);
    assert rx1.phase == HdrLen && rx1.opcode == f.opcode && (role.Client? ==> !masked);
    hide Feed, Then, Step, FirstByte, Mask, LengthBytes, Control, AfterLength, Body, Headed, Ready, EncodeAs,
         WithLength, AtNew;
    FeedNew(role, size, rx, rx1, FirstByte(f.opcode, f.fin), LengthBytes(n, form, masked) + rest);
    FeedLength(role, size, rx1, n, form, masked, rest);
  }

  lemma EncodeIs(f: Frame, form: LengthForm)
    requires f.Valid() && Fits(|f.payload|, form)
    ensures EncodeAs(f, form)
         == [FirstByte(f.opcode, f.fin)] + (LengthBytes(|f.payload|, form, f.mask != []) + (f.mask + Body(f)))
  {
    hide FirstByte, LengthBytes, Mask;
    Reassociate(FirstByte(f.opcode, f.fin), LengthBytes(|f.payload|, form, f.mask != []), f.mask, Body(f));
  }

  /** One frame, from between frames: exactly its content is delivered, unless it is of the two
      kinds that cannot be read. */
  lemma FeedFrame(role: Role, size: nat, rx: Rx, f: Frame, form: LengthForm)
    requires Ready(rx) && size > 0 && f.Valid() && Fits(|f.payload|, form) && (role == Client ==> f.mask == [])
    ensures Delivers(Feed(role, size, rx, EncodeAs(f, form)), f.opcode, f.fin, f.payload, size)
            <==> Readable(role, f, form)
  {
    FeedHeader(role, size, rx, f, form);
    var rx2 := Headed(role, rx, f);
    hide Feed, Then, Mask, EncodeAs, Control, Delivers, AfterLength;
    if Control(f.opcode) && form != Len7 {
      DeadDeliversNothing(f.opcode, f.fin, f.payload, size);
    } else if f.mask != [] {
      AfterLengthMasked(role, rx2, form != Len7);
      ThenQuiet(role, size, rx2.(phase := Key(1)), f.mask + Body(f));
      FeedMasked(size, rx2, f.mask, f.payload);
    } else {
      assert f.mask + Body(f) == f.payload;
      FeedUnmasked(role, size, rx2, form != Len7, f.payload);
    }
  }

  /** An empty text frame without a mask, its length in sixteen bits, is not delivered to a server. */
  lemma EmptyNotSeen(size: nat, rx: Rx)
    requires Ready(rx) && size > 0
    ensures !Delivers(Feed(Server, size, rx, EncodeAs(Frame(TEXT, true, [], []), Len16)), TEXT, true, [], size)
  {
    FeedFrame(Server, size, rx, Frame(TEXT, true, [], []), Len16);
  }

  lemma AfterLengthMasked(role: Role, rx: Rx, extended: bool)
    requires rx.masked
    ensures AfterLength(role, rx, extended) == Alive(rx.(phase := Key(1)), [])
  {}

  lemma DeadDeliversNothing(opcode: bv8, fin: bool, data: seq<bv8>, size: nat)
    requires size > 0
    ensures !Delivers(Dead([]), opcode, fin, data, size)
  {
    assert |Spills(opcode, fin, data, size)[..1]| == 1;
  }

  // ---------------------------------------------------------------- what the spills of a frame are

  function Contents(log: seq<Spill>): seq<bv8> {
    if log == [] then [] else log[0].data + Contents(log[1..])
  }

  /** The spills of a frame make up its payload. */
  lemma {:induction false} SpillsContents(opcode: bv8, fin: bool, data: seq<bv8>, size: nat)
    requires size > 0
    ensures Contents(Spills(opcode, fin, data, size)) == data
    decreases |data|
  {
    if |data| <= size {
      assert data + Contents([]) == data;
    } else {
      SpillsContents(opcode, fin, data[size..], size);
      assert Spills(opcode, fin, data, size)[1..] == Spills(opcode, fin, data[size..], size);
    }
  }

  /** What a run of spills hands to the user's receive callback. */
  function Handed(role: Role, log: seq<Spill>): seq<bv8> {
    if log == [] then []
    else (match ActionOf(role, log[0]) case Receive(data, _) => data case _ => []) + Handed(role, log[1..])
  }

  /** The user of either side gets the whole payload of a continuation, text or binary frame, and of no other. */
  lemma {:induction false} DataHanded(role: Role, opcode: bv8, fin: bool, data: seq<bv8>, size: nat)
    requires size > 0
    ensures Handed(role, Spills(opcode, fin, data, size))
            == if opcode as nat == 0 || opcode as nat == 1 || opcode as nat == 2 then data else []
    decreases |data|
  {
    if |data| <= size {
      assert data + Handed(role, []) == data;
    } else {
      DataHanded(role, opcode, fin, data[size..], size);
      assert Spills(opcode, fin, data, size)[1..] == Spills(opcode, fin, data[size..], size);
    }
  }

  /** A ping that fits the buffer is answered with its payload, a close with its own, and a pong is shown to the user of
      a client. */
  lemma ControlAnswered(role: Role, fin: bool, data: seq<bv8>, size: nat)
    requires size > 0 && |data| <= size
    ensures ActionOf(role, Spills(8, fin, data, size)[0]) == WriteClose(data)
    ensures ActionOf(role, Spills(9, fin, data, size)[0]) == WritePong(data)
    ensures ActionOf(role, Spills(10, fin, data, size)[0]) == if role.Client? then ReceivePong(data) else Ignore
  {}

  /** Every spill but the last is a full buffer with more to come; the last is what is left, and
      only it sees nothing remaining. */
  lemma {:induction false} SpillsShape(opcode: bv8, fin: bool, data: seq<bv8>, size: nat, i: nat)
    requires size > 0 && i < |Spills(opcode, fin, data, size)|
    ensures var log := Spills(opcode, fin, data, size);
            && log[i].opcode == opcode && log[i].fin == fin && |log[i].data| <= size
            && (if i < |log| - 1 then |log[i].data| == size && log[i].remaining > 0 else log[i].remaining == 0)
    decreases |data|
  {
    if |data| > size && i > 0 {
      SpillsShape(opcode, fin, data[size..], size, i - 1);
    }
  }

  /** Data is buffered only inside a payload, and never fills the buffer between bytes. */
  ghost predicate Room(size: nat, rx: Rx) {
    |rx.buffer| < size && (rx.phase != Payload ==> rx.buffer == [])
  }

  lemma StepKeepsRoom(role: Role, size: nat, rx: Rx, c: bv8)
    requires rx.Valid() && Room(size, rx)
    ensures var o := Step(role, size, rx, c); o.Alive? ==> Room(size, o.rx)
  {
    hide AtNew, AtHdrLen, AtLen64, AtKey, AtPayload, AfterLength, Num, Wrap64;
    if rx.phase == Payload {
      PayloadKeepsRoom(role, size, rx, c);
    }
  }

  lemma PayloadKeepsRoom(role: Role, size: nat, rx: Rx, c: bv8)
    requires rx.Valid() && |rx.buffer| < size && rx.phase == Payload
    ensures var o := AtPayload(role, size, rx, c); o.Alive? ==> Room(size, o.rx)
  {
    StoredPhase(role, rx, c);
    hide Stored;
  }

  lemma StoredPhase(role: Role, rx: Rx, c: bv8)
    requires rx.Valid()
    ensures Stored(role, rx, c).phase == rx.phase
  {}

  /** The head of the receive buffer stays below its size over every run. */
  lemma {:induction false} FeedKeepsRoom(role: Role, size: nat, rx: Rx, s: seq<bv8>)
    requires rx.Valid() && Room(size, rx)
    ensures var o := Feed(role, size, rx, s); o.Alive? ==> Room(size, o.rx)
    decreases |s|
  {
    hide Step, Room;
    if s != [] {
      StepKeepsRoom(role, size, rx, s[0]);
      var o := Step(role, size, rx, s[0]);
      if o.Alive? {
        FeedKeepsRoom(role, size, o.rx, s[1..]);
      }
    }
  }

  // ---------------------------------------------------------------- streams

  datatype Sent = Sent(frame: Frame, form: LengthForm) {
    ghost predicate Good(role: Role) {
      && frame.Valid() && Fits(|frame.payload|, form) && Readable(role, frame, form)
      && frame.opcode != CLOSE && (role == Client ==> frame.mask == [])
    }
  }

  ghost predicate AllGood(role: Role, sent: seq<Sent>) {
    forall i :: 0 <= i < |sent| ==> sent[i].Good(role)
  }

  function Stream(role: Role, sent: seq<Sent>): seq<bv8>
    requires AllGood(role, sent)
  {
    if sent == [] then [] else EncodeAs(sent[0].frame, sent[0].form) + Stream(role, sent[1..])
  }

  function StreamSpills(sent: seq<Sent>, size: nat): seq<Spill>
    requires size > 0
  {
    if sent == [] then []
    else Spills(sent[0].frame.opcode, sent[0].frame.fin, sent[0].frame.payload, size) + StreamSpills(sent[1..], size)
  }

  /** A stream of frames delivers each frame in turn. */
  lemma {:induction false} FeedStream(role: Role, size: nat, rx: Rx, sent: seq<Sent>)
    requires Ready(rx) && size > 0 && AllGood(role, sent)
    ensures var o := Feed(role, size, rx, Stream(role, sent));
            o.Alive? && Ready(o.rx) && o.spills == StreamSpills(sent, size)
    decreases |sent|
  {
    hide Spills, EncodeAs, Readable;
    if sent != [] {
      var f, form := sent[0].frame, sent[0].form;
      assert sent[0].Good(role);
      FeedFrame(role, size, rx, f, form);
      var o := Feed(role, size, rx, EncodeAs(f, form));
      FeedAppend(role, size, rx, EncodeAs(f, form), Stream(role, sent[1..]));
      FeedStream(role, size, o.rx, sent[1..]);
    }
  }

  function Join(pieces: seq<seq<bv8>>): seq<bv8> {
    if pieces == [] then [] else pieces[0] + Join(pieces[1..])
  }

  /** Taking in pieces one after the other. */
  function FeedPieces(role: Role, size: nat, o: Outcome, pieces: seq<seq<bv8>>): (o': Outcome)
    requires Ok(o)
    ensures Ok(o')
    decreases |pieces|
  {
    if pieces == [] then o else FeedPieces(role, size, Then(role, size, o, pieces[0]), pieces[1..])
  }

  /** How the bytes are divided among calls makes no difference. */
  lemma {:induction false} AnyDivision(role: Role, size: nat, o: Outcome, pieces: seq<seq<bv8>>)
    requires Ok(o)
    ensures FeedPieces(role, size, o, pieces) == Then(role, size, o, Join(pieces))
    decreases |pieces|
  {
    if pieces == [] {
      ThenNothing(role, size, o);
    } else {
      AnyDivision(role, size, Then(role, size, o, pieces[0]), pieces[1..]);
      ThenAppend(role, size, o, pieces[0], Join(pieces[1..]));
    }
  }

  lemma ThenAppend(role: Role, size: nat, o: Outcome, s: seq<bv8>, t: seq<bv8>)
    requires Ok(o)
    ensures Then(role, size, Then(role, size, o, s), t) == Then(role, size, o, s + t)
  {
    if o.Alive? {
      FeedAppend(role, size, o.rx, s, t);
      var o1 := Feed(role, size, o.rx, s);
      hide Feed;
      if o1.Alive? {
        var o2 := Feed(role, size, o1.rx, t);
        assert o.spills + o1.spills + o2.spills == o.spills + (o1.spills + o2.spills);
      }
    }
  }
}
