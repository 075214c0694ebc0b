/**
 * http_parse of http_client.c: takes a chunked response apart in place, over a list of pooled buffers.
 * What it writes never overtakes what it has yet to read, and it never runs out of buffers.
 */
module Dechunk {
  import opened Bytes
  import opened BufPool
  import opened ChunkCode

  // ---------------------------------------------------------------- finding the header

  const HEADER_END: Text := [0x0d, 0x0a, 0x0d, 0x0a]
  const TRANSFER: Text := [0x74, 0x72, 0x61, 0x6e, 0x73, 0x66, 0x65, 0x72, 0x2d, 0x65, 0x6e, 0x63, 0x6f, 0x64, 0x69,
      0x6e, 0x67, 0x3a]
  const CHUNKED: Text := [0x63, 0x68, 0x75, 0x6e, 0x6b, 0x65, 0x64]

  /** The C string in front of a buffer. */
  function CStr(s: Text): (t: Text)
    ensures |t| <= |s| && t == s[..|t|] && 0 !in t && (|t| < |s| ==> s[|t|] == 0)
  {
    if s == [] || s[0] == 0 then [] else [s[0]] + CStr(s[1..])
  }

  /** strstr: where `t` first occurs, or -1. */
  function Find(s: Text, t: Text): (r: int)
    ensures -1 <= r && (r >= 0 ==> r + |t| <= |s|)
  {
    if |s| < |t| then -1
    else if s[..|t|] == t then 0
    else
      var r := Find(s[1..], t);
      if r < 0 then -1 else r + 1
  }

  function Lower(s: Text): (t: Text)
    ensures |t| == |s|
  {
    if s == [] then [] else [if 0x41 <= s[0] <= 0x5a then s[0] + 0x20 else s[0]] + Lower(s[1..])
  }

  /** The length of the header, to the empty line's end, or 0. */
  function HeaderLength(content: Text): (n: nat)
    ensures n <= |CStr(content)|
  {
    var p := Find(CStr(content), HEADER_END);
    if p < 0 then 0 else p + |HEADER_END|
  }

  predicate SaysChunked(header: Text) {
    var p := Find(Lower(header), TRANSFER);
    p >= 0 && Find(Lower(header)[p..], CHUNKED) >= 0
  }

  /** The C string is the same whether cut off by the buffer's end or by a NUL written there. */
  lemma CStrUnique(s: Text, t: Text)
    requires |t| <= |s| && t == s[..|t|] && 0 !in t && (|t| < |s| ==> s[|t|] == 0)
    ensures CStr(s) == t
  {}

  // ---------------------------------------------------------------- where the buffers are

  /** The buffers one call is answerable for, counted: the free ones, those on the two lists, the one
      being filled, and the one being read if that is another. */
  ghost function CountOf(free: seq<nat>, todo: seq<nat>, list: seq<nat>, last: nat, cur: nat): multiset<nat> {
    multiset(free) + multiset(todo) + multiset(list) + multiset{last}
        + (if cur != last then multiset{cur} else multiset{})
  }

  /** Counted at most once each, the buffer being filled is on no list, nor is the one being read. */
  lemma Separate(free: seq<nat>, todo: seq<nat>, list: seq<nat>, last: nat, cur: nat)
    requires Apart(CountOf(free, todo, list, last, cur))
    ensures last !in todo && last !in list && last !in free && cur !in todo && cur !in list
  {
    var all := CountOf(free, todo, list, last, cur);
    assert all[last] <= 1 && all[cur] <= 1;
    Member(todo, last);
    Member(list, last);
    Member(free, last);
    Member(todo, cur);
    Member(list, cur);
  }

  lemma Member(list: seq<nat>, b: nat)
    ensures b in list <==> multiset(list)[b] > 0
  {}

  /** Taking the next buffer off the list, the one read before it freed or still being filled. */
  lemma CountNext(free: seq<nat>, todo: seq<nat>, list: seq<nat>, last: nat, cur: nat)
    requires todo != [] && Apart(CountOf(free, todo, list, last, cur))
    ensures todo[0] != last
    ensures CountOf(Freed(free, last, cur), todo[1..], list, last, todo[0]) == CountOf(free, todo, list, last, cur)
  {
    Separate(free, todo, list, last, cur);
    HeadTail(todo);
  }

  function Freed(free: seq<nat>, last: nat, cur: nat): seq<nat> { if cur != last then [cur] + free else free }

  /** Putting the filled buffer on the list and filling the first free one. */
  lemma CountSave(free: seq<nat>, todo: seq<nat>, list: seq<nat>, last: nat, cur: nat)
    requires free != [] && cur != last && Apart(CountOf(free, todo, list, last, cur))
    ensures free[0] != cur && free[0] !in todo && free[0] !in list && free[0] != last
    ensures CountOf(free[1..], todo, list + [last], free[0], cur) == CountOf(free, todo, list, last, cur)
  {
    var all := CountOf(free, todo, list, last, cur);
    HeadTail(free);
    assert all[free[0]] <= 1;
    Member(todo, free[0]);
    Member(list, free[0]);
  }

  // ---------------------------------------------------------------- the run

  datatype State = CHUNK_BEGIN | CHUNK_LRLN | CHUNK_GET_SIZE

  /** What http_parse makes of a response, given its first buffer and the rest: no buffer at all, none
      left to look at the header with, not chunked, or a chunked body behind its header. */
  datatype Verdict = NoInput | NoRoom | Plain | Chunked(whole: Decoded)

  function Judge(poolEmpty: bool, first: Text, rest: Text): Verdict {
    var h := HeaderLength(first);
    if h > 0 && poolEmpty then NoRoom
    else if h == 0 || !SaysChunked(first[..h]) then Plain
    else Chunked(Over(first[..h], Run(Begin([]), first[h..] + rest)))
  }

  /** A return value, or an input on which the C code is undefined. */
  datatype Outcome = Returned(rc: int) | Undefined

  function OutcomeOf(v: Verdict): Outcome {
    match v
    case NoInput => Returned(-1)
    case NoRoom => Returned(-1)
    case Plain => Returned(0)
    case Chunked(Whole(body)) => Returned(0)
    case Chunked(Broken) => Returned(-1)
    case Chunked(Outside) => Undefined
  }

  /** How a turn of the loop ends: rc positive, zero or negative, or the C code is undefined from here. */
  datatype Turn = More | Parsed | Failed | Lost

  ghost function WrittenOf(mem: seq<Buf>, list: seq<nat>, last: nat, lastI: nat): Text
    requires AllValid(mem) && InRange(mem, list) && last < |mem| && lastI <= ROOM
  {
    Join(mem, list) + mem[last].text[..lastI]
  }

  ghost function RemainingOf(mem: seq<Buf>, todo: seq<nat>, cur: nat, offset: nat): Text
    requires AllValid(mem) && InRange(mem, todo) && cur < |mem| && offset <= mem[cur].len
  {
    mem[cur].text[offset..mem[cur].len] + Join(mem, todo)
  }

  lemma RemainingNext(mem: seq<Buf>, todo: seq<nat>, cur: nat)
    requires AllValid(mem) && InRange(mem, todo) && cur < |mem| && todo != []
    ensures InRange(mem, todo[1..])
    ensures RemainingOf(mem, todo, cur, mem[cur].len) == RemainingOf(mem, todo[1..], todo[0], 0)
  {
    assert todo[0] < |mem|;
    var b := mem[todo[0]];
    assert b.text[0..b.len] == b.text[..b.len];
  }

  lemma RemainingStep(mem: seq<Buf>, todo: seq<nat>, cur: nat, offset: nat)
    requires AllValid(mem) && InRange(mem, todo) && cur < |mem| && offset < mem[cur].len
    ensures RemainingOf(mem, todo, cur, offset) != [] && RemainingOf(mem, todo, cur, offset)[0] == mem[cur].text[offset]
    ensures RemainingOf(mem, todo, cur, offset)[1..] == RemainingOf(mem, todo, cur, offset + 1)
  {
    var b := mem[cur];
    assert b.text[offset..b.len][1..] == b.text[offset + 1..b.len];
  }

  /** Writing a byte to the buffer being filled, behind whatever is still to be read of it. */
  lemma WriteKeeps(mem: seq<Buf>, list: seq<nat>, todo: seq<nat>, last: nat, cur: nat, lastI: nat, offset: nat, c: Byte)
    requires AllValid(mem) && InRange(mem, list) && InRange(mem, todo) && last < |mem| && cur < |mem|
    requires lastI < ROOM && offset < mem[cur].len && (cur == last ==> lastI <= offset)
    requires last !in list && last !in todo
    ensures var mem' := mem[last := mem[last].(text := mem[last].text[lastI := c])];
            AllValid(mem') && WrittenOf(mem', list, last, lastI + 1) == WrittenOf(mem, list, last, lastI) + [c]
            && RemainingOf(mem', todo, cur, offset + 1) == RemainingOf(mem, todo, cur, offset + 1)
  {
    var text' := mem[last].text[lastI := c];
    var mem' := mem[last := mem[last].(text := text')];
    JoinSame(mem, mem', list);
    JoinSame(mem, mem', todo);
    assert text'[..lastI + 1] == mem[last].text[..lastI] + [c];
    assert mem'[cur].text[offset + 1..mem[cur].len] == mem[cur].text[offset + 1..mem[cur].len];
  }

  /** A full buffer goes on the list, another is taken to be filled: what has been written is the same. */
  lemma SaveKeeps(mem: seq<Buf>, list: seq<nat>, todo: seq<nat>, last: nat, lastI: nat, cur: nat, offset: nat, b: nat)
    requires AllValid(mem) && InRange(mem, list) && InRange(mem, todo) && last < |mem| && cur < |mem| && b < |mem|
    requires lastI <= ROOM && offset <= mem[cur].len && last !in list && last !in todo && cur != last
    requires b != last && b != cur && b !in list && b !in todo
    ensures var mem1 := mem[last := mem[last].(start := 0, len := lastI, total := 0)];
            var mem2 := mem1[b := mem1[b].(start := 0, len := 0, total := 0)];
            AllValid(mem2) && InRange(mem2, list + [last])
            && WrittenOf(mem2, list + [last], b, 0) == WrittenOf(mem, list, last, lastI)
            && RemainingOf(mem2, todo, cur, offset) == RemainingOf(mem, todo, cur, offset)
  {
    var mem1 := mem[last := mem[last].(start := 0, len := lastI, total := 0)];
    var mem2 := mem1[b := mem1[b].(start := 0, len := 0, total := 0)];
    assert last !in list + [] && mem2[last] == mem1[last];
    JoinSame(mem, mem2, list);
    JoinSame(mem, mem2, todo);
    JoinOne(mem2, last);
    JoinAppend(mem2, list, [last]);
  }

  /** How the buffers are filled behind a header of `head` bytes: full ones hold HTTP_BUF_SIZE bytes each, but
      the first one holds one more when the header left no room in it. */
  ghost predicate FilledOf(mem: seq<Buf>, list: seq<nat>, head: nat, lastI: nat, total: nat)
    requires InRange(mem, list)
  {
    && (forall i :: 0 <= i < |list| ==> mem[list[i]].len == FullSize(head, i))
    && head <= total && (if list == [] then lastI == total else head == HTTP_BUF_SIZE ==> total > head)
  }

  function FullSize(head: nat, i: nat): nat {
    if i == 0 && head == HTTP_BUF_SIZE then HTTP_BUF_SIZE + 1 else HTTP_BUF_SIZE
  }

  ghost predicate SomeLong(mem: seq<Buf>, list: seq<nat>)
    requires InRange(mem, list)
  {
    exists i :: 0 <= i < |list| && mem[list[i]].len > HTTP_BUF_SIZE
  }

  lemma FilledWrite(mem: seq<Buf>, mem': seq<Buf>, list: seq<nat>, head: nat, lastI: nat, total: nat)
    requires InRange(mem, list) && FilledOf(mem, list, head, lastI, total) && |mem'| == |mem|
    requires forall b :: 0 <= b < |mem| ==> mem'[b].len == mem[b].len
    requires lastI < HTTP_BUF_SIZE || (list == [] && lastI == head == HTTP_BUF_SIZE)
    ensures InRange(mem', list) && FilledOf(mem', list, head, lastI + 1, total + 1) && total + 1 > head
    ensures lastI + 1 == FullSize(head, |list|) || lastI + 1 < HTTP_BUF_SIZE
  {
    forall i | 0 <= i < |list| ensures mem'[list[i]].len == FullSize(head, i) {
      assert mem[list[i]].len == FullSize(head, i);
    }
  }

  lemma FilledSave(mem: seq<Buf>, list: seq<nat>, head: nat, lastI: nat, total: nat, last: nat, b: nat)
    requires InRange(mem, list) && FilledOf(mem, list, head, lastI, total) && last < |mem| && b < |mem|
    requires last !in list && b !in list && b != last && total > head && lastI == FullSize(head, |list|)
    ensures var mem1 := mem[last := mem[last].(start := 0, len := lastI, total := 0)];
            var mem2 := mem1[b := mem1[b].(start := 0, len := 0, total := 0)];
            InRange(mem2, list + [last]) && FilledOf(mem2, list + [last], head, 0, total)
  {
    var mem1 := mem[last := mem[last].(start := 0, len := lastI, total := 0)];
    var mem2 := mem1[b := mem1[b].(start := 0, len := 0, total := 0)];
    var all := list + [last];
    forall i | 0 <= i < |all| ensures mem2[all[i]].len == FullSize(head, i) {
      if i < |list| {
        assert list[i] in list && mem[list[i]].len == FullSize(head, i);
      }
    }
  }

  /** Some buffer of the result is one byte too long if and only if the header filled the first one and data follows. */
  lemma FilledDone(mem: seq<Buf>, list: seq<nat>, head: nat, lastI: nat, total: nat, last: nat)
    requires InRange(mem, list) && FilledOf(mem, list, head, lastI, total) && last < |mem| && last !in list
    requires lastI <= HTTP_BUF_SIZE
    ensures var mem' := mem[last := mem[last].(len := lastI, total := lastI)];
            InRange(mem', list + [last]) && (SomeLong(mem', list + [last]) <==> head == HTTP_BUF_SIZE && total > head)
    ensures SomeLong(mem, list) <==> head == HTTP_BUF_SIZE && total > head
  {
    var mem' := mem[last := mem[last].(len := lastI, total := lastI)];
    var all := list + [last];
    forall i | 0 <= i < |list| ensures mem'[all[i]].len == mem[list[i]].len == FullSize(head, i) {
      assert list[i] in list;
    }
    if list != [] && head == HTTP_BUF_SIZE {
      assert mem'[all[0]].len > HTTP_BUF_SIZE && mem[list[0]].len > HTTP_BUF_SIZE;
    }
  }

  /** sscanf of the size line. */
  method Sscanf(chunkStr: array<Byte>, ghost line: Text) returns (size: Size)
    requires |line| < chunkStr.Length && chunkStr[..|line|] == line && chunkStr[|line|] == 0 && line != []
    ensures size == ScanHex(line)
  {
    assert forall k :: 0 <= k < |line| ==> chunkStr[k] == line[k];
    if HexOf(chunkStr[0]) < 0 || (chunkStr[0] == 0x30 && chunkStr[1] in {0x58, 0x78}) {
      return Unknown;
    }
    var n: nat, i := 0, 0;
    assert line[0..] == line;
    while HexOf(chunkStr[i]) >= 0
      invariant i <= |line| && LeadHex(line, 0) == LeadHex(line[i..], n)
      decreases |line| - i
    {
      assert i < |line| && line[i..][1..] == line[i + 1..];
      n := 16 * n + HexOf(chunkStr[i]);
      i := i + 1;
    }
    size := if n >= 0x8000_0000 then Unknown else Known(n);
  }

  /** One call of http_parse on a context: what it reads of the context, and its local variables. */
  class Parse {
    const pool: Pool
    var todo: seq<nat>       // buf_read.list_todo
    var readLen: nat         // buf_read.len
    var isChunk: bool        // cleared with the rest of a new context
    var list: seq<nat>
    var cur: nat             // buf_info
    var last: nat            // last_buf
    var lastI: nat
    var newTotal: nat
    var offset: nat
    var state: State
    var j: nat
    var chunkSize: nat
    const chunkStr: array<Byte>
    ghost var line: Text     // the size line that chunkStr holds
    ghost var done: nat      // how many buffers have been read to their end
    ghost var head: nat      // the length of the header

    constructor (pool: Pool, todo: seq<nat>)
      ensures this.pool == pool && this.todo == todo && !isChunk && fresh(chunkStr) && chunkStr.Length == CHUNK_MAX + 1
    {
      this.pool, this.todo, isChunk := pool, todo, false;
      readLen, list, cur, last, lastI, newTotal := 0, [], 0, 0, 0, 0;
      offset, state, j, chunkSize, line, done, head := 0, CHUNK_BEGIN, 0, 0, [], 0, 0;
      chunkStr := new Byte[CHUNK_MAX + 1];
    }

    ghost function Count(): multiset<nat>
      reads this, pool
    {
      CountOf(pool.free, todo, list, last, cur)
    }

    ghost predicate Sound()
      reads this, pool, pool.bufs
    {
      && pool.Valid() && chunkStr.Length == CHUNK_MAX + 1
      && InRange(pool.bufs[..], todo) && InRange(pool.bufs[..], list) && cur < pool.bufs.Length
      && last < pool.bufs.Length
      && Apart(Count()) && (forall i :: 0 <= i < |todo| ==> 0 < pool.bufs[todo[i]].len <= HTTP_BUF_SIZE)
      && lastI <= HTTP_BUF_SIZE + 1 && offset <= pool.bufs[cur].len <= HTTP_BUF_SIZE
    }

    /** Bytes read so far that were not written back: at least the first size line. */
    ghost function Slack(): nat
      reads this`state
    {
      if state == CHUNK_BEGIN then 0 else 1
    }

    /** Where reading and writing stand. The first buffer is written to while it is read, and what is
        written stays behind. Every buffer read to its end but the first is back in the pool, and
        every buffer filled was taken from it. */
    ghost predicate Balanced()
      reads `cur, `last, `done, `list, `lastI, `offset, `state, pool`free
    {
      && (cur == last <==> done == 0) && (done == 0 ==> list == [] && lastI + Slack() <= offset)
      && HTTP_BUF_SIZE * |list| + lastI + Slack() <= HTTP_BUF_SIZE * done + offset
      && |pool.free| + |list| >= (if done == 0 then 1 else done)
    }

    /** What the size line holds so far. */
    ghost predicate LineKept()
      requires chunkStr.Length == CHUNK_MAX + 1
      reads `state, `j, `line, `chunkSize, chunkStr
    {
      match state
      case CHUNK_BEGIN => j < CHUNK_MAX
      case CHUNK_LRLN => j == 0 && |line| < CHUNK_MAX && chunkStr[..|line|] == line && chunkStr[|line|] == 0
      case CHUNK_GET_SIZE => j <= chunkSize
    }

    ghost predicate Steady()
      reads this, pool, pool.bufs, chunkStr
    {
      Sound() && Balanced() && LineKept() && newTotal == |Written()|
    }

    /** Between turns. A header that fills its buffer leaves no room in it, yet it is only saved, one byte
        over, after the next write. */
    ghost predicate Valid()
      reads this, pool, pool.bufs, chunkStr
    {
      Steady() && Filled() && (lastI < HTTP_BUF_SIZE || (list == [] && lastI == head == HTTP_BUF_SIZE))
    }

    ghost predicate Filled()
      reads `list, `head, `lastI, `newTotal, pool.bufs
    {
      InRange(pool.bufs[..], list) && FilledOf(pool.bufs[..], list, head, lastI, newTotal)
    }

    /** What has been written: full buffers, and the one being filled. */
    ghost function Written(): Text
      requires Sound()
      reads this, pool, pool.bufs
    {
      WrittenOf(pool.bufs[..], list, last, lastI)
    }

    /** What is left to read. */
    ghost function Remaining(): Text
      requires Sound()
      reads this, pool, pool.bufs
    {
      RemainingOf(pool.bufs[..], todo, cur, offset)
    }

    ghost function Now(): St
      requires chunkStr.Length == CHUNK_MAX + 1 && LineKept()
      reads `state, `j, `line, `chunkSize, chunkStr
    {
      match state
      case CHUNK_BEGIN => Begin(chunkStr[..j])
      case CHUNK_LRLN => Lf(line)
      case CHUNK_GET_SIZE => Data(chunkSize - j)
    }

    /** What will have been written when all is read. */
    ghost function Goal(): Decoded
      requires Steady()
      reads this, pool, pool.bufs, chunkStr
    {
      Over(Written(), Run(Now(), Remaining()))
    }

    /** The context's list holds `whole`, its length is right, and some buffer is one byte too long if
        and only if the header filled the first one and data follows. */
    ghost predicate Holds(whole: Decoded)
      reads this, pool.bufs
    {
      && AllValid(pool.bufs[..]) && InRange(pool.bufs[..], todo)
      && whole == Whole(Join(pool.bufs[..], todo)) && readLen == |Join(pool.bufs[..], todo)|
      && (SomeLong(pool.bufs[..], todo) <==> head == HTTP_BUF_SIZE && readLen > head)
    }

    // -------------------------------------------------------------- moving to the next buffer

    /** The buffer read to its end is freed, unless it is being written to; the next one is taken off the list. */
    method NextBuf()
      requires Valid() && offset == pool.bufs[cur].len && todo != []
      modifies this`todo, this`cur, this`offset, this`done, pool`free
      ensures Valid() && Count() == old(Count()) && todo == old(todo[1..])
      ensures Now() == old(Now()) && Written() == old(Written()) && Remaining() == old(Remaining())
              && Goal() == old(Goal())
      ensures offset == 0 < pool.bufs[cur].len <= HTTP_BUF_SIZE
    {
      hide CountOf, Join, Apart, LineKept, WrittenOf, RemainingOf;
      CountNext(pool.free, todo, list, last, cur);
      RemainingNext(pool.bufs[..], todo, cur);
      if cur != last {
        pool.FreeBuf(cur);
      }
      cur, offset, done := todo[0], 0, done + 1;
      todo := todo[1..];
    }

    lemma AtEnd()
      requires Valid() && offset == pool.bufs[cur].len && todo == []
      ensures Goal() == if state == CHUNK_GET_SIZE then Outside else Broken
    {
      assert Remaining() == [];
    }

    // -------------------------------------------------------------- failing

    /** The end of http_parse when rc is negative and buf_info is not NULL. */
    method Fail()
      requires Sound()
      modifies pool`free, this`list
      ensures pool.Valid() && list == [] && multiset(pool.free) + multiset(todo) == old(Count())
    {
      pool.FreeBuf(last);
      if cur != last {
        pool.FreeBuf(cur);
      }
      pool.free := list + pool.free;
      list := [];
    }

    /** The same when the buffers ran out: the one read to its end was freed before. */
    method FailAtEnd()
      requires Sound()
      modifies pool`free, this`list
      ensures pool.Valid() && list == [] && multiset(pool.free) + multiset(todo) == old(Count())
    {
      if cur != last {
        pool.FreeBuf(cur);
      }
      pool.FreeBuf(last);
      pool.free := list + pool.free;
      list := [];
    }

    // -------------------------------------------------------------- CHUNK_BEGIN

    /** One byte of the size line; the one that leaves no room for the NUL makes the loop stop. */
    method TakeByte()
      requires Valid() && state == CHUNK_BEGIN && offset < pool.bufs[cur].len && pool.bufs[cur].text[offset] != CR
      modifies this`j, this`offset, chunkStr
      ensures Sound() && j == old(j) + 1 <= CHUNK_MAX && offset == old(offset) + 1 && Count() == old(Count())
      ensures if j == CHUNK_MAX then old(Goal()) == Broken else Valid() && Goal() == old(Goal())
    {
      hide CountOf, Apart, Join;
      RemainingStep(pool.bufs[..], todo, cur, offset);
      ghost var before := chunkStr[..j];
      chunkStr[j] := pool.bufs[cur].text[offset];
      j := j + 1;
      offset := offset + 1;
      assert chunkStr[..j] == before + [chunkStr[j - 1]];
    }

    method CarriageReturn()
      requires Valid() && state == CHUNK_BEGIN && offset < pool.bufs[cur].len && pool.bufs[cur].text[offset] == CR
      modifies this`j, this`offset, this`state, this`line, chunkStr
      ensures Valid() && Goal() == old(Goal()) && Count() == old(Count()) && offset == old(offset) + 1
    {
      hide CountOf, Apart, Join;
      RemainingStep(pool.bufs[..], todo, cur, offset);
      line := chunkStr[..j];
      chunkStr[j] := 0;
      assert chunkStr[..|line|] == line;
      offset := offset + 1;
      state := CHUNK_LRLN;
      j := 0;
    }

    method SizeLine() returns (turn: Turn)
      requires Valid() && state == CHUNK_BEGIN
      modifies this, pool`free, chunkStr
      ensures head == old(head) && pool.bufs[..] == old(pool.bufs[..]) && (turn.More? || turn.Failed?)
      ensures turn.More? ==> Valid() && Goal() == old(Goal()) && Count() == old(Count())
      ensures turn.More? ==> |todo| < old(|todo|) || (todo == old(todo) && offset > old(offset))
      ensures turn.Failed? ==>
              old(Goal()) == Broken && pool.Valid()
              && multiset(pool.free) + multiset(todo) == old(Count())
    {
      hide CountOf, Apart, Join, Goal, Count, Balanced, Written;
      while offset < pool.bufs[cur].len && j < CHUNK_MAX && pool.bufs[cur].text[offset] != CR
        invariant head == old(head) && Sound() && state == CHUNK_BEGIN && Count() == old(Count()) && todo == old(todo)
                  && j <= CHUNK_MAX
        invariant if j == CHUNK_MAX then old(Goal()) == Broken else Valid() && Goal() == old(Goal())
        invariant offset >= old(offset)
        decreases HTTP_BUF_SIZE - offset
      {
        TakeByte();
      }
      if j == CHUNK_MAX {
        Fail();
        turn := Failed;
      } else if offset < pool.bufs[cur].len {
        CarriageReturn();
        turn := More;
      } else if todo == [] {
        AtEnd();
        FailAtEnd();
        turn := Failed;
      } else {
        NextBuf();
        turn := More;
      }
    }

    // -------------------------------------------------------------- CHUNK_GET_SIZE

    /** The full buffer is saved and another allocated: there is one. */
    method SaveLast()
      requires Steady() && Filled() && state == CHUNK_GET_SIZE && newTotal > head && lastI == FullSize(head, |list|)
      modifies this`last, this`lastI, this`list, pool`free, pool.bufs
      ensures Valid() && Goal() == old(Goal()) && Count() == old(Count())
      ensures pool.bufs[cur].len == old(pool.bufs[cur].len)
    {
      hide CountOf, Apart, Join, WrittenOf, RemainingOf, LineKept, Run, FilledOf, Balanced;
      TakeOther();
    }

    method TakeOther()
      requires Sound() && Balanced() && Filled() && state == CHUNK_GET_SIZE && newTotal > head
               && lastI == FullSize(head, |list|)
      modifies this`last, this`lastI, this`list, pool`free, pool.bufs
      ensures Sound() && Balanced() && Filled() && lastI == 0 && Count() == old(Count())
      ensures Written() == old(Written()) && Remaining() == old(Remaining())
      ensures pool.bufs[cur].len == old(pool.bufs[cur].len)
    {
      hide CountOf, Apart, Join, WrittenOf, RemainingOf, Run, FilledOf;
      assert AllValid(pool.bufs[..]) && pool.bufs[..][cur].Valid();
      Separate(pool.free, todo, list, last, cur);
      CountSave(pool.free, todo, list, last, cur);
      SaveKeeps(pool.bufs[..], list, todo, last, lastI, cur, offset, pool.free[0]);
      FilledSave(pool.bufs[..], list, head, lastI, newTotal, last, pool.free[0]);
      pool.bufs[last] := pool.bufs[last].(start := 0, len := lastI, total := 0);
      list := list + [last];
      var ok, b := pool.AllocBuf();
      last, lastI := b, 0;
    }

    /** One byte of the data, copied to where the writing stands. */
    method CopyByte()
      requires Valid() && state == CHUNK_GET_SIZE && j < chunkSize && offset < pool.bufs[cur].len
      modifies this`last, this`lastI, this`newTotal, this`list, this`offset, this`j, pool`free, pool.bufs
      ensures Valid() && Goal() == old(Goal()) && Count() == old(Count())
      ensures offset == old(offset) + 1 && j == old(j) + 1 && pool.bufs[cur].len == old(pool.bufs[cur].len)
    {
      hide CountOf, Apart, Join, WrittenOf, RemainingOf, Count, Goal, Balanced, LineKept, Written;
      WriteByte();
      if lastI >= HTTP_BUF_SIZE {
        SaveLast();
      }
    }

    method WriteByte()
      requires Valid() && state == CHUNK_GET_SIZE && j < chunkSize && offset < pool.bufs[cur].len
      modifies this`lastI, this`newTotal, this`offset, this`j, pool.bufs
      ensures Steady() && Filled() && newTotal > head
      ensures lastI == FullSize(head, |list|) || lastI < HTTP_BUF_SIZE
      ensures Goal() == old(Goal()) && Count() == old(Count())
      ensures offset == old(offset) + 1 && j == old(j) + 1 && pool.bufs[cur].len == old(pool.bufs[cur].len)
    {
      hide CountOf, Apart, Join, WrittenOf, RemainingOf, FilledOf;
      RemainingStep(pool.bufs[..], todo, cur, offset);
      var c := pool.bufs[cur].text[offset];
      OverTwice(Written(), [c], Run(Data(chunkSize - j - 1), Remaining()[1..]));
      Put(c);
      offset, j := offset + 1, j + 1;
    }

    /** A byte behind what is written. */
    method Put(c: Byte)
      requires Valid() && offset < pool.bufs[cur].len
      modifies this`lastI, this`newTotal, pool.bufs
      ensures Sound() && Filled() && lastI == old(lastI) + 1 && newTotal == old(newTotal) + 1 > head
      ensures lastI == FullSize(head, |list|) || lastI < HTTP_BUF_SIZE
      ensures Written() == old(Written()) + [c] && pool.bufs[cur].len == old(pool.bufs[cur].len)
      ensures RemainingOf(pool.bufs[..], todo, cur, offset + 1)
              == old(RemainingOf(pool.bufs[..], todo, cur, offset + 1))
    {
      hide CountOf, Apart, Join, WrittenOf, RemainingOf, FilledOf;
      Separate(pool.free, todo, list, last, cur);
      ghost var mem := pool.bufs[..];
      WriteKeeps(mem, list, todo, last, cur, lastI, offset, c);
      pool.bufs[last] := pool.bufs[last].(text := pool.bufs[last].text[lastI := c]);
      FilledWrite(mem, pool.bufs[..], list, head, lastI, newTotal);
      lastI, newTotal := lastI + 1, newTotal + 1;
    }

    method ChunkData() returns (turn: Turn)
      requires Valid() && state == CHUNK_GET_SIZE
      modifies this`todo, this`list, this`cur, this`last, this`lastI, this`newTotal, this`offset, this`state, this`j,
               this`done,
               pool`free, pool.bufs
      ensures turn.More? || turn.Lost?
      ensures turn.More? ==> Valid() && Goal() == old(Goal()) && Count() == old(Count())
      ensures turn.More? ==>
              |todo| < old(|todo|)
              || (todo == old(todo) && offset >= old(offset) && state == CHUNK_BEGIN)
      ensures turn.Lost? ==> old(Goal()) == Outside
    {
      hide CountOf, Apart, Join, Goal, Count, Balanced, Written;
      while offset < pool.bufs[cur].len && j < chunkSize
        invariant Valid() && Goal() == old(Goal()) && Count() == old(Count())
        invariant todo == old(todo) && state == CHUNK_GET_SIZE && cur == old(cur) && old(offset) <= offset
        decreases HTTP_BUF_SIZE - offset
      {
        CopyByte();
      }
      if offset == pool.bufs[cur].len {
        if todo == [] {
          AtEnd();
          turn := Lost;
        } else {
          NextBuf();
          turn := More;
        }
      } else {
        EndChunk();
        turn := More;
      }
    }

    method EndChunk()
      requires Valid() && state == CHUNK_GET_SIZE && j == chunkSize && offset < pool.bufs[cur].len
      modifies this`state, this`j
      ensures Valid() && Goal() == old(Goal()) && Count() == old(Count()) && state == CHUNK_BEGIN
    {
      hide CountOf, Apart, Join, WrittenOf, RemainingOf;
      RemainingStep(pool.bufs[..], todo, cur, offset);
      state := CHUNK_BEGIN;
      j := 0;
      assert chunkStr[..0] == [];
    }

    // -------------------------------------------------------------- CHUNK_LRLN

    /** All chunks are read: the result goes on the list of the context, everything else back to the pool. */
    method Finish()
      requires Sound() && newTotal == |Written()| && Filled() && lastI <= HTTP_BUF_SIZE
      modifies this`list, this`todo, this`readLen, pool`free, pool.bufs
      ensures pool.Valid() && InRange(pool.bufs[..], todo) && Join(pool.bufs[..], todo) == old(Written())
      ensures SomeLong(pool.bufs[..], todo) <==> head == HTTP_BUF_SIZE && readLen > head
      ensures readLen == |old(Written())| && multiset(pool.free) + multiset(todo) == old(Count())
    {
      hide CountOf, Apart, SomeLong, FilledOf, Join, WrittenOf, AllValid;
      Separate(pool.free, todo, list, last, cur);
      FilledDone(pool.bufs[..], list, head, lastI, newTotal, last);
      CountDone(pool.free, todo, list, last, cur, lastI > 0);
      FinishKeeps(pool.bufs[..], list, last, lastI);
      if cur != last {
        pool.FreeBuf(cur);
      }
      if lastI > 0 {
        pool.bufs[last] := pool.bufs[last].(len := lastI, total := lastI);
        list := list + [last];
      } else {
        pool.FreeBuf(last);
      }
      pool.free := todo + pool.free;
      todo := list;
      readLen := newTotal;
    }

    method LineFeed() returns (turn: Turn)
      requires Valid() && state == CHUNK_LRLN && offset < pool.bufs[cur].len
      modifies this`list, this`todo, this`readLen, this`offset, this`j, this`state, this`chunkSize, pool`free, pool.bufs
      ensures turn.More? ==> Valid() && Goal() == old(Goal()) && Count() == old(Count())
      ensures turn.More? ==> todo == old(todo) && offset > old(offset)
      ensures turn.Lost? ==> old(Goal()) == Outside
      ensures turn.Failed? ==> old(Goal()) == Broken
      ensures turn.Failed? || turn.Parsed? ==> pool.Valid() && multiset(pool.free) + multiset(todo) == old(Count())
      ensures turn.Parsed? ==> Holds(old(Goal()))
    {
      hide CountOf, Apart, Join, WrittenOf, RemainingOf, Balanced;
      RemainingStep(pool.bufs[..], todo, cur, offset);
      if pool.bufs[cur].text[offset] != LF {
        Fail();
        return Failed;
      }
      if chunkStr[0] == 0 {
        IgnoreLine();
        return More;
      }
      var size := Sscanf(chunkStr, line);
      if size.Unknown? {
        turn := Lost;
      } else if size.n == 0 {
        assert old(Goal()) == Over(Written(), Whole([]));
        assert Written() + [] == Written();
        Finish();
        turn := Parsed;
      } else {
        StartData(size.n);
        turn := More;
      }
    }

    method LineEnd() returns (turn: Turn)
      requires Valid() && state == CHUNK_LRLN
      modifies this, pool`free, pool.bufs
      ensures head == old(head)
      ensures turn.More? ==> Valid() && Goal() == old(Goal()) && Count() == old(Count())
      ensures turn.More? ==> |todo| < old(|todo|) || (todo == old(todo) && offset > old(offset))
      ensures turn.Lost? ==> old(Goal()) == Outside
      ensures turn.Failed? ==> old(Goal()) == Broken
      ensures turn.Failed? || turn.Parsed? ==> pool.Valid() && multiset(pool.free) + multiset(todo) == old(Count())
      ensures turn.Parsed? ==> Holds(old(Goal()))
    {
      hide CountOf, Apart, Join, Goal, Count, Balanced, Written, Holds;
      if offset == pool.bufs[cur].len {
        if todo == [] {
          AtEnd();
          FailAtEnd();
          return Failed;
        }
        NextBuf();
      }
      turn := LineFeed();
    }

    method IgnoreLine()
      requires Valid() && state == CHUNK_LRLN && offset < pool.bufs[cur].len && pool.bufs[cur].text[offset] == LF
      requires chunkStr[0] == 0
      modifies this`offset, this`j, this`state
      ensures Valid() && Goal() == old(Goal()) && Count() == old(Count()) && offset == old(offset) + 1
    {
      hide CountOf, Apart, Join, WrittenOf, RemainingOf;
      RemainingStep(pool.bufs[..], todo, cur, offset);
      assert line != [] ==> line[0] == chunkStr[0];
      offset, j, state := offset + 1, 0, CHUNK_BEGIN;
      assert chunkStr[..0] == [];
    }

    method StartData(n: nat)
      requires Valid() && state == CHUNK_LRLN && offset < pool.bufs[cur].len && pool.bufs[cur].text[offset] == LF
      requires chunkStr[0] != 0 && ScanHex(line) == Known(n) && n > 0
      modifies this`offset, this`j, this`state, this`chunkSize
      ensures Valid() && Goal() == old(Goal()) && Count() == old(Count()) && offset == old(offset) + 1
    {
      hide CountOf, Apart, Join, WrittenOf, RemainingOf;
      RemainingStep(pool.bufs[..], todo, cur, offset);
      assert line != [] && line[0] == chunkStr[0];
      offset, j, state, chunkSize := offset + 1, 0, CHUNK_GET_SIZE, n;
    }

    // -------------------------------------------------------------- http_parse

    /** The loop: every turn keeps what will have been written, and the buffers are all accounted for. */
    method Loop() returns (turn: Turn)
      requires Valid()
      modifies this, pool`free, pool.bufs, chunkStr
      ensures !turn.More? && head == old(head)
      ensures turn.Lost? ==> old(Goal()) == Outside
      ensures turn.Failed? ==> old(Goal()) == Broken
      ensures turn.Failed? || turn.Parsed? ==> pool.Valid() && multiset(pool.free) + multiset(todo) == old(Count())
      ensures turn.Parsed? ==> Holds(old(Goal()))
    {
      hide CountOf, Apart, Join, Goal, Count, Balanced, Written, Holds, LineKept;
      turn := More;
      while turn.More?
        invariant head == old(head)
        invariant turn.More? ==> Valid() && Goal() == old(Goal()) && Count() == old(Count())
        invariant turn.Lost? ==> old(Goal()) == Outside
        invariant turn.Failed? ==> old(Goal()) == Broken
        invariant turn.Failed? || turn.Parsed? ==> pool.Valid() && multiset(pool.free) + multiset(todo) == old(Count())
        invariant turn.Parsed? ==> Holds(old(Goal()))
        decreases turn.More?, |todo|, HTTP_BUF_SIZE - offset, state == CHUNK_GET_SIZE
      {
        match state {
          case CHUNK_BEGIN => turn := SizeLine();
          case CHUNK_LRLN => turn := LineEnd();
          case CHUNK_GET_SIZE => turn := ChunkData();
        }
      }
    }

    /** The buffers of a context about to be parsed, and the free ones. */
    ghost predicate Ready()
      reads this, pool, pool.bufs
    {
      && pool.Valid() && InRange(pool.bufs[..], todo) && Apart(multiset(pool.free) + multiset(todo))
      && (forall i :: 0 <= i < |todo| ==> 0 < pool.bufs[todo[i]].len <= HTTP_BUF_SIZE)
    }

    /** The header copied to the buffer `tmp`, ended by a NUL, and searched there. */
    method SearchCopy(first: nat, h: nat, tmp: nat) returns (found: bool)
      requires AllValid(pool.bufs[..]) && first < pool.bufs.Length && tmp < pool.bufs.Length
      requires h <= |CStr(pool.bufs[first].Content())| && h < ROOM
      modifies pool.bufs
      ensures AllValid(pool.bufs[..])
              && forall b :: 0 <= b < pool.bufs.Length && b != tmp ==>
                    pool.bufs[b] == old(pool.bufs[b])
      ensures found == SaysChunked(old(pool.bufs[first].Content())[..h])
    {
      ghost var content := pool.bufs[first].Content();
      var source := pool.bufs[first].text;
      var text := (source[..h] + pool.bufs[tmp].text[h..])[h := 0];
      pool.bufs[tmp] := pool.bufs[tmp].(text := text);
      assert source[..h] == content[..h];
      HeaderCopied(content, h, text);
      var copy := CStr(text);
      var q := Find(Lower(copy), TRANSFER);
      found := q >= 0 && Find(Lower(copy)[q..], CHUNKED) >= 0;
    }

    /** The rest of http_chunk_check: a free buffer is taken for the copy, and given back. */
    method LookAtHeader(first: nat, h: nat) returns (ok: bool)
      requires Ready() && todo != [] && first == todo[0] && h <= |CStr(pool.bufs[first].Content())|
      modifies this`isChunk, pool`free, pool.bufs
      ensures Ready() && pool.free == old(pool.free) && ok == (pool.free != [])
      ensures forall i :: 0 <= i < |todo| ==> pool.bufs[todo[i]] == old(pool.bufs[todo[i]])
      ensures isChunk == (old(isChunk) || (ok && SaysChunked(old(pool.bufs[first].Content())[..h])))
    {
      hide SaysChunked, CStr, Apart;
      if pool.free != [] {
        FreeNotListed(pool.free, todo);
      }
      var tmp;
      ok, tmp := pool.AllocBuf();
      if ok {
        assert tmp !in todo && pool.bufs[first] == old(pool.bufs[first]);
        var found := SearchCopy(first, h, tmp);
        if found {
          isChunk := true;
        }
        pool.FreeBuf(tmp);
      }
    }

    /** http_chunk_check: whether the header is all in the first buffer, and says chunked. */
    method ChunkCheck() returns (ok: bool, h: nat)
      requires Ready() && todo != []
      modifies this`isChunk, pool`free, pool.bufs
      ensures Ready() && pool.free == old(pool.free)
      ensures forall i :: 0 <= i < |todo| ==> pool.bufs[todo[i]].Content() == old(pool.bufs[todo[i]].Content())
      ensures var first := old(pool.bufs[todo[0]].Content());
              && ok == (HeaderLength(first) == 0 || pool.free != [])
              && h == HeaderLength(first) && (ok ==> isChunk == (old(isChunk) || (h > 0 && SaysChunked(first[..h]))))
    {
      var first := todo[0];
      ghost var content := pool.bufs[first].Content();
      pool.bufs[first] := pool.bufs[first].(text := pool.bufs[first].text[pool.bufs[first].len := 0]);
      var text := pool.bufs[first].text;
      assert pool.bufs[first].Content() == content;
      assert CStr(text) == CStr(content) by {
        assert text[..|CStr(content)|] == content[..|CStr(content)|];
        CStrUnique(text, CStr(content));
      }
      var p := Find(CStr(text), HEADER_END);
      ok, h := true, 0;
      if p >= 0 {
        h := p + |HEADER_END|;
        ok := LookAtHeader(first, h);
      }
    }

    ghost function Expected(): Verdict
      requires Ready()
      reads this, pool, pool.bufs
    {
      if todo == [] then NoInput
      else
        var first := pool.bufs[..][todo[0]].Content();
        Judge(pool.free == [], first, Join(pool.bufs[..], todo[1..]))
    }

    /** The context's own buffers and the free ones, counted. */
    ghost function Ours(): multiset<nat>
      reads this`todo, pool`free
    {
      multiset(pool.free) + multiset(todo)
    }

    lemma Begun()
      requires Sound() && state == CHUNK_BEGIN && j == 0 && done == 0 && cur == last && list == [] && pool.free != []
      requires lastI == newTotal == head == offset && |Written()| == head
      ensures Valid() && Now() == Begin([])
    {
      hide CountOf, Apart, Join, WrittenOf, InRange, AllValid;
      assert chunkStr[..0] == [];
    }

    /** The first buffer is taken off the list: it is read behind its header, and written to there. */
    method Start(h: nat)
      requires Ready() && todo != [] && pool.free != [] && chunkStr.Length == CHUNK_MAX + 1
      requires h <= pool.bufs[todo[0]].len
      modifies this
      ensures Valid() && Count() == old(Ours())
      ensures var first := old(pool.bufs[todo[0]].Content());
              Goal() == Over(first[..h], Run(Begin([]), first[h..] + old(Join(pool.bufs[..], todo[1..]))))
      ensures head == h
    {
      hide Apart, Run, Join, WrittenOf, RemainingOf, CountOf, FilledOf, LineKept, Balanced;
      StartSame(pool.bufs[..], pool.free, todo, h);
      cur, last := todo[0], todo[0];
      offset, lastI, newTotal, j, done, head := h, h, h, 0, 0, h;
      list, state := [], CHUNK_BEGIN;
      todo := todo[1..];
      Begun();
    }

    /** The parse of a chunked body behind its header. */
    method Body(h: nat, ghost first: Text, ghost rest: Text) returns (outcome: Outcome)
      requires Ready() && todo != [] && pool.free != [] && chunkStr.Length == CHUNK_MAX + 1
      requires h <= pool.bufs[todo[0]].len && first == pool.bufs[todo[0]].Content()
               && rest == Join(pool.bufs[..], todo[1..])
      modifies this, pool`free, pool.bufs, chunkStr
      ensures var whole := Over(first[..h], Run(Begin([]), first[h..] + rest));
              && outcome == OutcomeOf(Chunked(whole)) && (outcome == Returned(0) ==> Holds(whole) && head == h)
      ensures outcome.Returned? ==> pool.Valid() && Ours() == old(Ours())
    {
      hide Apart, Join, Run, Goal, Count, Over, Valid, Ready, SomeLong;
      Start(h);
      var turn := Loop();
      outcome := match turn case Parsed => Returned(0) case Lost => Undefined case _ => Returned(-1);
    }

    /** http_parse. */
    method HttpParse() returns (outcome: Outcome, ghost v: Verdict)
      requires Ready() && !isChunk && chunkStr.Length == CHUNK_MAX + 1
      modifies this, pool`free, pool.bufs, chunkStr
      ensures v == old(Expected()) && outcome == OutcomeOf(v)
      ensures outcome.Returned? ==> pool.Valid() && Ours() == old(Ours())
      ensures v.Chunked? && outcome == Returned(0) ==>
                Holds(v.whole) && head == HeaderLength(old(pool.bufs[..][todo[0]].Content()))
      ensures v.Plain? ==> todo == old(todo) && Ready() && Join(pool.bufs[..], todo) == old(Join(pool.bufs[..], todo))
    {
      hide SaysChunked, HeaderLength, Apart, Join, Run, Over, Holds;
      v := Expected();
      if todo == [] {
        return Returned(-1), v;
      }
      ghost var first, rest := pool.bufs[..][todo[0]].Content(), Join(pool.bufs[..], todo[1..]);
      var ok, h := Checked();
      if !ok {
        outcome := Returned(-1);
      } else if !isChunk {
        outcome := Returned(0);
      } else {
        outcome := Body(h, first, rest);
      }
    }

    /** http_chunk_check again: it changes nothing the context holds. */
    method Checked() returns (ok: bool, h: nat)
      requires Ready() && todo != []
      modifies this`isChunk, pool`free, pool.bufs
      ensures Ready() && pool.free == old(pool.free) && Join(pool.bufs[..], todo) == old(Join(pool.bufs[..], todo))
      ensures pool.bufs[..][todo[0]].Content() == old(pool.bufs[..][todo[0]].Content())
      ensures Join(pool.bufs[..], todo[1..]) == old(Join(pool.bufs[..], todo[1..]))
      ensures var first := old(pool.bufs[..][todo[0]].Content());
              && ok == (HeaderLength(first) == 0 || pool.free != [])
              && h == HeaderLength(first) && (ok ==> isChunk == (old(isChunk) || (h > 0 && SaysChunked(first[..h]))))
    {
      hide SaysChunked, Apart, Join;
      ghost var mem := pool.bufs[..];
      ok, h := ChunkCheck();
      JoinSame(mem, pool.bufs[..], todo);
      JoinSame(mem, pool.bufs[..], todo[1..]);
    }

    /** http_parse of a well-formed chunked response, split over the buffers anywhere behind its header:
        the context is left with the header and the data, and no buffer is lost or in two places. */
    method ParseResponse(ghost header: Text, ghost chunks: seq<Chunk>, ghost final: Chunk, ghost trailer: Text)
      returns (outcome: Outcome)
      requires Ready() && !isChunk && chunkStr.Length == CHUNK_MAX + 1 && todo != [] && pool.free != []
      requires IsHeader(header) && SaysChunked(header) && |header| <= pool.bufs[..][todo[0]].len
      requires WellFormed(chunks, final) && Join(pool.bufs[..], todo) == header + BodyText(chunks, final, trailer)
      modifies this, pool`free, pool.bufs, chunkStr
      ensures outcome == Returned(0) && pool.Valid() && InRange(pool.bufs[..], todo)
      ensures Join(pool.bufs[..], todo) == header + DataOf(chunks) && readLen == |header + DataOf(chunks)|
      ensures SomeLong(pool.bufs[..], todo) <==> |header| == HTTP_BUF_SIZE && DataOf(chunks) != []
      ensures Ours() == old(Ours())
    {
      hide SaysChunked, IsHeader, WellFormed, Apart, BodyText, DataOf;
      ResponseDecodes(header, chunks, final, trailer, pool.bufs[..][todo[0]].Content(), Join(pool.bufs[..], todo[1..]));
      ghost var v;
      outcome, v := HttpParse();
    }
  }

  /** Before the loop: the header is written, the rest is to be read, and no buffer is lost. */
  lemma StartSame(mem: seq<Buf>, free: seq<nat>, todo: seq<nat>, h: nat)
    requires AllValid(mem) && InRange(mem, todo) && todo != [] && h <= mem[todo[0]].len
    ensures InRange(mem, todo[1..]) && WrittenOf(mem, [], todo[0], h) == mem[todo[0]].Content()[..h]
    ensures RemainingOf(mem, todo[1..], todo[0], h) == mem[todo[0]].Content()[h..] + Join(mem, todo[1..])
    ensures CountOf(free, todo[1..], [], todo[0], todo[0]) == multiset(free) + multiset(todo)
    ensures FilledOf(mem, [], h, h, h) && |WrittenOf(mem, [], todo[0], h)| == h && mem[todo[0]].text[..0] == []
  {
    HeadTail(todo);
    assert WrittenOf(mem, [], todo[0], h) == [] + mem[todo[0]].text[..h];
  }

  lemma FreeNotListed(free: seq<nat>, todo: seq<nat>)
    requires free != [] && Apart(multiset(free) + multiset(todo))
    ensures free[0] !in todo
  {
    var all := multiset(free) + multiset(todo);
    assert all[free[0]] <= 1;
    HeadTail(free);
    Member(todo, free[0]);
  }

  /** The copy of a header with a NUL after it reads back as the header. */
  lemma HeaderCopied(source: Text, h: nat, copy: Text)
    requires h <= |CStr(source)| && h < |copy| && copy[..h] == source[..h] && copy[h] == 0
    ensures CStr(copy) == source[..h]
  {
    assert source[..h] == CStr(source)[..h];
    CStrUnique(copy, source[..h]);
  }

  lemma FinishKeeps(mem: seq<Buf>, list: seq<nat>, last: nat, lastI: nat)
    requires AllValid(mem) && InRange(mem, list) && last < |mem| && lastI <= ROOM && last !in list
    ensures var mem' := mem[last := mem[last].(len := lastI, total := lastI)];
            AllValid(mem') && InRange(mem', list + [last])
                && Join(mem', list + [last]) == WrittenOf(mem, list, last, lastI)
    ensures lastI == 0 ==> Join(mem, list) == WrittenOf(mem, list, last, lastI)
  {
    var mem' := mem[last := mem[last].(len := lastI, total := lastI)];
    JoinSame(mem, mem', list);
    JoinOne(mem', last);
    JoinAppend(mem', list, [last]);
  }

  /** At the end every buffer is in the result or in the pool. */
  lemma CountDone(free: seq<nat>, todo: seq<nat>, list: seq<nat>, last: nat, cur: nat, keep: bool)
    ensures var free' := Freed(free, last, cur);
            multiset(todo + (if keep then free' else [last] + free')) + multiset(if keep then list + [last] else list)
            == CountOf(free, todo, list, last, cur)
  {}

  // ---------------------------------------------------------------- well-formed responses

  /** A header: no NUL in it, and the empty line only at its end. */
  ghost predicate IsHeader(header: Text) {
    0 !in header && |header| >= 4 && Find(header, HEADER_END) == |header| - 4
  }

  lemma {:induction false} FindEarlier(s: Text, t: Text, pattern: Text)
    requires Find(s, pattern) >= 0
    ensures Find(s + t, pattern) == Find(s, pattern)
    decreases |s|
  {
    var n := |pattern|;
    assert (s + t)[..n] == s[..n];
    if s[..n] != pattern {
      assert (s + t)[1..] == s[1..] + t;
      FindEarlier(s[1..], t, pattern);
    }
  }

  lemma HeaderFound(header: Text, more: Text)
    requires IsHeader(header)
    ensures HeaderLength(header + more) == |header| > 0
  {
    var content := header + more;
    CStrUnique(content, header + CStr(more));
    FindEarlier(header, CStr(more), HEADER_END);
  }

  ghost predicate WellFormed(chunks: seq<Chunk>, final: Chunk) {
    (forall i :: 0 <= i < |chunks| ==> chunks[i].Valid() && chunks[i].data != []) && final.Valid() && final.data == []
  }

  /** Any well-formed chunked response, its header whole in the first buffer, comes out as header and data. */
  lemma ResponseDecodes(header: Text, chunks: seq<Chunk>, final: Chunk, trailer: Text, first: Text, rest: Text)
    requires IsHeader(header) && SaysChunked(header) && WellFormed(chunks, final)
    requires |header| <= |first| && first + rest == header + BodyText(chunks, final, trailer)
    ensures Judge(false, first, rest) == Chunked(Whole(header + DataOf(chunks)))
    ensures HeaderLength(first) == |header|
  {
    hide SaysChunked, Run, BodyText, DataOf, HeaderLength, IsHeader, Find;
    var h, body := |header|, BodyText(chunks, final, trailer);
    SplitAfter(header, body, first, rest);
    HeaderFound(header, first[h..]);
    Decodes(chunks, final, trailer);
  }

  lemma SplitAfter(header: Text, body: Text, first: Text, rest: Text)
    requires |header| <= |first| && first + rest == header + body
    ensures first[..|header|] == header && first == header + first[|header|..] && first[|header|..] + rest == body
  {
    var h := |header|;
    assert (first + rest)[..h] == first[..h] && (header + body)[..h] == header;
    assert (first + rest)[h..] == first[h..] + rest && (header + body)[h..] == body;
  }

  // ---------------------------------------------------------------- a header that fills its buffer

  lemma {:induction false} FindThere(s: Text, k: nat, pattern: Text)
    requires k + |pattern| <= |s| && s[k..k + |pattern|] == pattern
    ensures 0 <= Find(s, pattern) <= k
  {
    if k > 0 && s[..|pattern|] != pattern {
      assert s[1..][k - 1..k - 1 + |pattern|] == s[k..k + |pattern|];
      FindThere(s[1..], k - 1, pattern);
    }
  }

  lemma {:induction false} FindLast(s: Text, pattern: Text)
    requires pattern != [] && pattern[0] !in s
    ensures Find(s + pattern, pattern) == |s|
  {
    if s == [] {
      assert s + pattern == pattern && pattern[..|pattern|] == pattern;
    } else {
      FindLast(s[1..], pattern);
      assert (s + pattern)[1..] == s[1..] + pattern;
      assert (s + pattern)[..|pattern|][0] == s[0];
    }
  }

  lemma {:induction false} LowerSame(s: Text)
    requires forall i :: 0 <= i < |s| ==> !(0x41 <= s[i] <= 0x5a)
    ensures Lower(s) == s
  {
    if s != [] {
      LowerSame(s[1..]);
    }
  }

  ghost predicate LowerLetters(s: Text) { forall i :: 0 <= i < |s| ==> 0x20 < s[i] && !(0x41 <= s[i] <= 0x5a) }

  lemma FindBoth(a: Text, filler: Text, b: Text, end: Text)
    requires LowerLetters(a) && LowerLetters(filler) && LowerLetters(b)
    requires end != [] && end[0] == 0x0d && forall i :: 0 <= i < |end| ==> 0 < end[i] < 0x20
    ensures var header := a + filler + b + end;
            && Find(header, end) == |header| - |end| && 0 !in header && Lower(header) == header
            && Find(header, a) == 0 && Find(header, b) >= 0
  {
    var front := a + filler + b;
    var header := front + end;
    hide Find, Lower;
    FindLast(front, end);
    LowerSame(header);
    assert header[0..0 + |a|] == a;
    FindThere(header, 0, a);
    var k := |a| + |filler|;
    assert header[k..k + |b|] == b;
    FindThere(header, k, b);
  }

  /** There is a chunked header of HTTP_BUF_SIZE bytes. */
  lemma FillingHeader() returns (header: Text)
    ensures IsHeader(header) && SaysChunked(header) && |header| == HTTP_BUF_SIZE
  {
    var filler := Repeat(0x78, HTTP_BUF_SIZE - |TRANSFER| - |CHUNKED| - |HEADER_END|);
    assert LowerLetters(TRANSFER) && LowerLetters(CHUNKED);
    hide Find, Lower, LowerLetters;
    assert LowerLetters(filler) by { RepeatLetters(0x78, |filler|); }
    FindBoth(TRANSFER, filler, CHUNKED, HEADER_END);
    header := TRANSFER + filler + CHUNKED + HEADER_END;
    assert header[0..] == header;
  }

  lemma RepeatLetters(c: Byte, n: nat)
    requires 0x61 <= c
    ensures LowerLetters(Repeat(c, n))
  {}
}
