/**
 * http_mgmt_prepare of http_client.c: puts the pieces of a tunnel message back together in buffers from
 * the pool. It does what `Take` says, loses no buffer, and nineteen buffers are always enough.
 */
module Tunnel {
  import opened Bytes
  import opened BufPool
  import opened TunnelCode

  // ---------------------------------------------------------------- the buffers of a message

  /** The lengths of the buffers on a list. */
  ghost function Sizes(mem: seq<Buf>, list: seq<nat>): seq<nat>
    requires InRange(mem, list)
  {
    if list == [] then [] else [mem[list[0]].len] + Sizes(mem, list[1..])
  }

  lemma {:induction false} SizesJoin(mem: seq<Buf>, list: seq<nat>)
    requires AllValid(mem) && InRange(mem, list)
    ensures |Sizes(mem, list)| == |list| && Sum(Sizes(mem, list)) == |Join(mem, list)|
  {
    if list != [] {
      SizesJoin(mem, list[1..]);
      assert Sizes(mem, list)[1..] == Sizes(mem, list[1..]);
    }
  }

  lemma {:induction false} SizesSame(mem: seq<Buf>, mem': seq<Buf>, list: seq<nat>)
    requires |mem| == |mem'| && InRange(mem, list)
    requires forall i :: 0 <= i < |list| ==> mem[list[i]].len == mem'[list[i]].len
    ensures Sizes(mem', list) == Sizes(mem, list)
  {
    if list != [] {
      SizesSame(mem, mem', list[1..]);
    }
  }

  lemma {:induction false} SizesSnoc(mem: seq<Buf>, list: seq<nat>, b: nat)
    requires InRange(mem, list) && b < |mem|
    ensures InRange(mem, list + [b]) && Sizes(mem, list + [b]) == Sizes(mem, list) + [mem[b].len]
  {
    if list == [] {
      assert [b][1..] == [] && [] + [b] == [b];
    } else {
      assert (list + [b])[1..] == list[1..] + [b];
      SizesSnoc(mem, list[1..], b);
    }
  }

  function Sum(sizes: seq<nat>): nat { if sizes == [] then 0 else sizes[0] + Sum(sizes[1..]) }

  lemma {:induction false} SumSnoc(sizes: seq<nat>, n: nat)
    ensures Sum(sizes + [n]) == Sum(sizes) + n
  {
    if sizes == [] {
      assert [] + [n] == [n] && [n][1..] == [];
    } else {
      assert (sizes + [n])[1..] == sizes[1..] + [n];
      SumSnoc(sizes[1..], n);
    }
  }

  /** No two neighbours would fit in one buffer. */
  ghost predicate Tight(sizes: seq<nat>) {
    forall i :: 0 < i < |sizes| ==> sizes[i - 1] + sizes[i] > HTTP_BUF_SIZE
  }

  lemma {:induction false} TightSum(sizes: seq<nat>)
    requires Tight(sizes)
    ensures Sum(sizes) >= (HTTP_BUF_SIZE + 1) * (|sizes| / 2)
    decreases |sizes|
  {
    if |sizes| >= 2 {
      var others := sizes[2..];
      assert sizes[1..][1..] == others;
      assert sizes[1 - 1] + sizes[1] > HTTP_BUF_SIZE;
      assert Tight(others) by {
        forall i | 0 < i < |others| ensures others[i - 1] + others[i] > HTTP_BUF_SIZE {
          assert sizes[i + 2 - 1] + sizes[i + 2] > HTTP_BUF_SIZE;
        }
      }
      TightSum(others);
    }
  }

  /** Buffers enough for any message. */
  const ENOUGH: nat := 19

  lemma FewHeld(sizes: seq<nat>)
    requires Tight(sizes) && Sum(sizes) <= HTTP_IN_MAX - HEADER_LEN
    ensures |sizes| <= ENOUGH
  {
    TightSum(sizes);
  }

  /** A piece copied behind what the current buffer holds. */
  lemma AppendKeeps(mem: seq<Buf>, todo: seq<nat>, curr: nat, piece: Text)
    requires AllValid(mem) && InRange(mem, todo) && curr < |mem| && curr !in todo
    requires mem[curr].start + |piece| <= HTTP_BUF_SIZE
    ensures var at := mem[curr].start;
            var mem' := mem[curr := mem[curr].(text := mem[curr].text[..at] + piece + mem[curr].text[at + |piece|..],
                start := at + |piece|)];
            && AllValid(mem') && Join(mem', todo) == Join(mem, todo) && Sizes(mem', todo) == Sizes(mem, todo)
            && Collected(mem', todo, true, curr) == Collected(mem, todo, true, curr) + piece
  {
    var at := mem[curr].start;
    var text' := mem[curr].text[..at] + piece + mem[curr].text[at + |piece|..];
    var mem' := mem[curr := mem[curr].(text := text', start := at + |piece|)];
    JoinSame(mem, mem', todo);
    SizesSame(mem, mem', todo);
    assert text'[..at + |piece|] == mem[curr].text[..at] + piece;
  }

  /** What has been collected: the saved buffers, and the current one as far as it is filled. */
  ghost function Collected(mem: seq<Buf>, todo: seq<nat>, have: bool, curr: nat): Text
    requires AllValid(mem) && InRange(mem, todo) && (have ==> curr < |mem|)
    ensures !have ==> Collected(mem, todo, have, curr) == Join(mem, todo)
  {
    Join(mem, todo) + (if have then mem[curr].text[..mem[curr].start] else [])
  }

  /** save_prepare: the current buffer goes on the list with what it holds. */
  lemma SaveKeeps(mem: seq<Buf>, todo: seq<nat>, curr: nat)
    requires AllValid(mem) && InRange(mem, todo) && curr < |mem| && curr !in todo
    ensures var at := mem[curr].start;
            var mem' := mem[curr := mem[curr].(len := at, total := at, start := 0)];
            && AllValid(mem') && InRange(mem', todo + [curr])
            && Join(mem', todo + [curr]) == Collected(mem, todo, true, curr)
            && Sizes(mem', todo + [curr]) == Sizes(mem, todo) + [at]
  {
    var at := mem[curr].start;
    var mem' := mem[curr := mem[curr].(len := at, total := at, start := 0)];
    JoinSame(mem, mem', todo);
    SizesSame(mem, mem', todo);
    SizesSnoc(mem', todo, curr);
    JoinOne(mem', curr);
    JoinAppend(mem', todo, [curr]);
  }

  // ---------------------------------------------------------------- the object

  datatype Outcome = Returned(rc: int) | Beyond // what the C code would do is undefined

  /** A message passed on by prepare_process, its payload in a list of buffers. */
  datatype Handed = Nothing | Handed(kind: Byte, number: nat, list: seq<nat>)

  function ListOf(h: Handed): seq<nat> { if h.Handed? then h.list else [] }

  /** The piece fits behind what the buffer holds, and does not make up what was announced. */
  predicate Swallowed(start: nat, piece: Text, total: int) {
    start + |piece| <= HTTP_BUF_SIZE && start + |piece| < total
  }

  /** A header that is accepted, with something behind it. */
  predicate BeginsMessage(buf: Text) { Accepted(buf) && |buf| > HEADER_LEN }

  /** The header of a message that is not too long. */
  predicate Accepted(buf: Text) {
    |buf| >= HEADER_LEN && HeaderOf(buf).magic == MAGIC && HeaderOf(buf).version == VERSION
        && HeaderOf(buf).length <= HTTP_IN_MAX
  }

  class Mgmt {
    const pool: Pool
    var todo: seq<nat>    // buf_prepare.list_todo
    var haveCurr: bool    // buf_prepare.curr is not NULL
    var curr: nat
    var len: nat
    var totalLen: int
    var kind: Byte
    var number: nat
    var sync: bool        // sync_prepare

    constructor (pool: Pool)
      requires pool.Valid() && Apart(multiset(pool.free))
      ensures Coherent() && Abs() == Idle && this.pool == pool && Count() == multiset(pool.free)
    {
      this.pool := pool;
      todo, haveCurr, curr, len, totalLen, kind, number, sync := [], false, 0, 0, 0, 0, 0, false;
    }

    ghost function Count(): multiset<nat>
      reads `todo, `haveCurr, `curr, pool`free
    {
      multiset(pool.free) + multiset(todo) + (if haveCurr then multiset{curr} else multiset{})
    }

    /** How many buffers are free or ours. */
    ghost function Supply(): nat
      reads `todo, `haveCurr, pool`free
    {
      |pool.free| + |todo| + (if haveCurr then 1 else 0)
    }

    ghost predicate Sound()
      reads this, pool, pool.bufs
    {
      && pool.Valid() && InRange(pool.bufs[..], todo)
      && (haveCurr ==> curr < pool.bufs.Length && pool.bufs[curr].start <= HTTP_BUF_SIZE)
    }

    ghost function Got(): Text
      requires Sound()
      reads this, pool, pool.bufs
    {
      Collected(pool.bufs[..], todo, haveCurr, curr)
    }

    /** The sizes on the list, and the size of the current buffer with `n` more bytes. */
    ghost function SizesWith(n: nat): seq<nat>
      requires Sound()
      reads this, pool, pool.bufs
    {
      Sizes(pool.bufs[..], todo) + (if haveCurr then [pool.bufs[curr].start + n] else [n])
    }

    /** Each buffer in one place, and inside a message as much is collected as was received. */
    ghost predicate Coherent()
      reads this, pool, pool.bufs
    {
      Orderly() && (haveCurr ==> sync)
    }

    /** The same, but for the part of a message that a timeout has left behind. */
    ghost predicate Stale()
      reads this, pool, pool.bufs
    {
      Orderly() && haveCurr && !sync
    }

    ghost predicate Orderly()
      reads this, pool, pool.bufs
    {
      && Sound() && Apart(Count()) && (todo != [] ==> haveCurr)
      && len == |Join(pool.bufs[..], todo)|
      && (haveCurr ==> |Got()| < totalLen && Tight(SizesWith(0)))
    }

    ghost function Abs(): Reader
      requires Sound()
      reads this, pool, pool.bufs
    {
      if sync then Reading(kind, number, totalLen, Got()) else Idle
    }

    /** release_prepare. */
    method ReleasePrepare()
      requires Sound()
      modifies this`todo, this`haveCurr, this`len, this`totalLen, this`kind, pool`free
      ensures Sound() && todo == [] && !haveCurr && len == 0 && totalLen == 0 && kind == 0
      ensures Count() == old(Count()) && Supply() == old(Supply()) && (old(haveCurr) ==> curr in pool.free)
    {
      ghost var free := if haveCurr then [curr] + pool.free else pool.free;
      Released(pool.free, todo, haveCurr, curr);
      if haveCurr {
        pool.FreeBuf(curr);
      }
      haveCurr, len, totalLen, kind := false, 0, 0, 0;
      pool.free := todo + pool.free;
      todo := [];
      assert pool.free == old(todo) + free;
    }

    /** save_prepare. */
    method SavePrepare(b: nat)
      requires Sound() && b < pool.bufs.Length
      modifies this`todo, this`haveCurr, this`len, pool.bufs
      ensures Sound() && !haveCurr && todo == old(todo) + [b] && len == old(len) + old(pool.bufs[b].start)
      ensures var at := old(pool.bufs[b].start);
              pool.bufs[..] == old(pool.bufs[..])[b := old(pool.bufs[b]).(len := at, total := at, start := 0)]
    {
      var at := pool.bufs[b].start;
      pool.bufs[b] := pool.bufs[b].(len := at, total := at, start := 0);
      len := len + at;
      todo := todo + [b];
      haveCurr := false;
    }

    /** prepare_process, as far as the buffers go: the list is handed on with the message. */
    method PrepareProcess() returns (h: Handed)
      modifies this`todo, this`len, this`totalLen, this`kind, this`sync
      ensures h == Handed(old(kind), old(number), old(todo)) && todo == [] && len == 0 && !sync
    {
      h := Handed(kind, number, todo);
      todo, len, totalLen, kind, sync := [], 0, 0, 0, false;
    }

    // -------------------------------------------------------------- placing a piece

    /** Inside a message, with `got` collected and `piece` to place: neither can share a buffer with its
        neighbour unless it is put there. */
    ghost predicate Placing(got: Text, piece: Text)
      reads this, pool, pool.bufs
    {
      && Sound() && Apart(Count()) && sync && len == |Join(pool.bufs[..], todo)| && Got() == got
      && (|got| < totalLen || got == []) && Tight(SizesWith(if haveCurr then 0 else |piece|))
    }

    /** The same, with room for the piece in the current buffer. */
    ghost predicate Fitting(got: Text, piece: Text)
      reads this, pool, pool.bufs
    {
      && Sound() && Apart(Count()) && sync && haveCurr && len == |Join(pool.bufs[..], todo)| && Got() == got
      && (|got| < totalLen || got == []) && pool.bufs[curr].start + |piece| <= HTTP_BUF_SIZE
      && Tight(SizesWith(|piece|))
    }

    /** A buffer taken from the pool to be the current one. `good` says that all is coherent. */
    method NewCurr(ghost good: bool, ghost got: Text, ghost piece: Text) returns (ok: bool)
      requires Sound() && |piece| <= HTTP_BUF_SIZE && (good ==> Placing(got, piece) && !haveCurr)
      modifies this`haveCurr, this`curr, pool`free, pool.bufs
      ensures Sound() && ok == (old(pool.free) != [])
      ensures ok ==> haveCurr && pool.bufs[curr].start == 0
      ensures !old(haveCurr) ==> Count() == old(Count()) && Supply() == old(Supply())
      ensures good && ok ==> Fitting(got, piece)
      ensures good && !ok ==> Placing(got, piece) && !haveCurr
      ensures (!ok ==> pool.free == []) && (good ==> Abs() == old(Abs()))
    {
      hide Collected, Join, Sizes, Tight;
      ghost var mem, free := pool.bufs[..], pool.free;
      if good && free != [] {
        assert Count() == multiset(free) + multiset(todo);
        NewKeeps(mem, free, todo);
      }
      hide Count;
      ok := TakeBuf();
      if ok {
        CollectedNew(pool.bufs[..], todo, curr);
      }
    }

    method TakeBuf() returns (ok: bool)
      requires Sound()
      modifies this`haveCurr, this`curr, pool`free, pool.bufs
      ensures Sound() && ok == (old(pool.free) != [])
      ensures !old(haveCurr) ==> Count() == old(Count()) && Supply() == old(Supply())
      ensures ok ==> haveCurr && old(pool.free) == [curr] + pool.free
      ensures ok ==> pool.bufs[..] == old(pool.bufs[..])[curr := old(pool.bufs[..])[curr].(start := 0, len := 0,
              total := 0)]
      ensures !ok ==>
              haveCurr == old(haveCurr) && curr == old(curr) && pool.free == []
              && pool.bufs[..] == old(pool.bufs[..])
    {
      var b;
      ghost var free := pool.free;
      ok, b := pool.AllocBuf();
      if ok {
        HeadTail(free);
        haveCurr, curr := true, b;
      }
    }

    /** The piece copied behind what buffer `b` holds. */
    method Append(b: nat, piece: Text, ghost good: bool, ghost got: Text)
      requires Sound() && b < pool.bufs.Length && pool.bufs[b].start + |piece| <= HTTP_BUF_SIZE
      requires good ==> Fitting(got, piece) && b == curr
      modifies pool.bufs
      ensures Sound() && pool.bufs[b].start == old(pool.bufs[b].start) + |piece| <= HTTP_BUF_SIZE
      ensures good ==>
              Apart(Count()) && len == |Join(pool.bufs[..], todo)| && Got() == got + piece
              && Tight(SizesWith(0))
    {
      hide Collected, Join, Sizes, Tight;
      if good {
        CurrNotListed(pool.free, todo, curr);
        AppendKeeps(pool.bufs[..], todo, curr, piece);
      }
      var at := pool.bufs[b].start;
      pool.bufs[b] := pool.bufs[b].(text := pool.bufs[b].text[..at] + piece + pool.bufs[b].text[at + |piece|..],
                                    start := at + |piece|);
    }

    /** The current buffer goes on the list with what it holds, when the next piece does not fit in it. */
    method SaveFull(b: nat, piece: Text, ghost good: bool, ghost got: Text)
      requires Sound() && b < pool.bufs.Length && pool.bufs[b].start + |piece| > HTTP_BUF_SIZE
      requires good ==> Placing(got, piece) && haveCurr && b == curr
      modifies this`todo, this`haveCurr, this`len, pool.bufs
      ensures Sound() && !haveCurr && (!old(haveCurr) ==> Count() == old(Count()) + multiset{b})
      ensures good ==>
              Placing(got, piece) && Count() == old(Count()) && Supply() == old(Supply())
              && Abs() == old(Abs())
    {
      hide Collected, Join, Sizes, Tight;
      if good {
        CurrNotListed(pool.free, todo, curr);
        SaveKeeps(pool.bufs[..], todo, curr);
        TightNext(Sizes(pool.bufs[..], todo), pool.bufs[curr].start, |piece|);
        CollectedLength(pool.bufs[..], todo, curr);
      }
      SavePrepare(b);
      if good {
        assert Count() == old(Count());
      }
    }

    /** All that was announced has come: what is too much is dropped, and the message is passed on. */
    method Complete(b: nat, ghost good: bool, ghost got: Text, ghost piece: Text) returns (h: Handed)
      requires Sound() && b < pool.bufs.Length && pool.bufs[b].start + len >= totalLen >= 0
      requires totalLen - len >= 0
      requires good ==>
               Apart(Count()) && len == |Join(pool.bufs[..], todo)| && haveCurr && b == curr
               && Got() == got + piece
      modifies this`todo, this`haveCurr, this`len, this`totalLen, this`kind, this`sync, pool.bufs
      ensures old(haveCurr) && b == curr ==> Count() + multiset(ListOf(h)) == old(Count())
      ensures !old(haveCurr) ==> Count() + multiset(ListOf(h)) == old(Count()) + multiset{b}
      ensures Sound() && InRange(pool.bufs[..], ListOf(h)) && h.Handed? && h.kind == old(kind)
              && h.number == old(number)
      ensures good ==> Coherent() && Abs() == Idle
      ensures good ==>
              0 <= old(totalLen) <= |got + piece|
              && Join(pool.bufs[..], ListOf(h)) == (got + piece)[..old(totalLen)]
    {
      hide Collected, Join, Sizes, Tight;
      if good {
        CurrNotListed(pool.free, todo, curr);
        CollectedLength(pool.bufs[..], todo, curr);
        CutKeeps(pool.bufs[..], todo, curr, totalLen - len);
      }
      var tmpLen := pool.bufs[b].start + len;
      pool.bufs[b] := pool.bufs[b].(start := pool.bufs[b].start - (tmpLen - totalLen));
      if good {
        SaveKeeps(pool.bufs[..], todo, curr);
      }
      h := HandOn(b);
      if good {
        ApartPart(Count(), multiset(h.list));
      }
    }

    /** The last buffer saved, and the list passed on. */
    method HandOn(b: nat) returns (h: Handed)
      requires Sound() && b < pool.bufs.Length
      modifies this`todo, this`haveCurr, this`len, this`totalLen, this`kind, this`sync, pool.bufs
      ensures old(haveCurr) && b == curr ==> Count() + multiset(ListOf(h)) == old(Count())
      ensures !old(haveCurr) ==> Count() + multiset(ListOf(h)) == old(Count()) + multiset{b}
      ensures h == Handed(old(kind), old(number), old(todo) + [b])
      ensures Sound() && todo == [] && !haveCurr && len == 0 && !sync && Join(pool.bufs[..], todo) == []
      ensures var at := old(pool.bufs[b].start);
              pool.bufs[..] == old(pool.bufs[..])[b := old(pool.bufs[b]).(len := at, total := at, start := 0)]
    {
      hide Join;
      SavePrepare(b);
      h := PrepareProcess();
      JoinNone(pool.bufs[..]);
    }

    /** The call ended as `t` says: with its return code, in its state, and with its message if it has one. */
    ghost predicate Did(t: Taken, outcome: Outcome, h: Handed)
      requires Sound() && InRange(pool.bufs[..], ListOf(h))
      reads this, pool, pool.bufs
    {
      Answered(t, outcome, h) && (t.Taken? ==> Coherent())
    }

    ghost predicate Answered(t: Taken, outcome: Outcome, h: Handed)
      requires Sound() && InRange(pool.bufs[..], ListOf(h))
      reads this, pool, pool.bufs
    {
      match t
      case Undefined => outcome == Beyond && h == Nothing
      case Taken(reader, rc, messages) =>
        && outcome == Returned(rc) && Orderly() && Abs() == reader
        && messages == if h == Nothing then [] else [Message(h.kind, h.number, Join(pool.bufs[..], h.list))]
    }

    /** Where the piece fits in the current buffer, putting it there keeps the list tight. */
    lemma StillFits(got: Text, piece: Text)
      requires Placing(got, piece) && haveCurr
      ensures pool.bufs[curr].start + |piece| <= HTTP_BUF_SIZE ==> Fitting(got, piece)
    {
      var sizes, n := Sizes(pool.bufs[..], todo), pool.bufs[curr].start;
      TightMore(sizes, n, n + |piece|);
      assert sizes + [n] == SizesWith(0);
    }

    /** With no free buffer left, more than any message needs would be on the list. */
    lemma SupplyEnough(got: Text, piece: Text)
      requires Placing(got, piece) && !haveCurr && pool.free == []
      ensures |got + piece| <= HTTP_IN_MAX - HEADER_LEN ==> Supply() < ENOUGH
    {
      var sizes := Sizes(pool.bufs[..], todo);
      SizesJoin(pool.bufs[..], todo);
      SumSnoc(sizes, |piece|);
      if |got + piece| <= HTTP_IN_MAX - HEADER_LEN {
        FewHeld(sizes + [|piece|]);
      }
    }

    /** The piece goes into buffer `b`, where it fits; if that completes the message, it is passed on. */
    method Fill(b: nat, piece: Text, ghost good: bool, ghost got: Text) returns (outcome: Outcome, h: Handed)
      requires Sound() && piece != [] && b < pool.bufs.Length && pool.bufs[b].start + |piece| <= HTTP_BUF_SIZE
      requires good ==> Fitting(got, piece) && b == curr
      modifies this`todo, this`haveCurr, this`len, this`totalLen, this`kind, this`sync, pool.bufs
      ensures Sound() && InRange(pool.bufs[..], ListOf(h)) && outcome != Returned(4)
      ensures old(haveCurr) && b == curr ==> Count() + multiset(ListOf(h)) == old(Count())
      ensures good ==> Did(TakeMore(old(Abs()), piece), outcome, h)
      ensures !old(haveCurr) && h.Handed? ==> Count() + multiset(ListOf(h)) == old(Count()) + multiset{b}
      ensures if old(pool.bufs[b].start) + |piece| + old(len) < old(totalLen) then outcome == Returned(0)
              && h == Nothing
              else outcome == Beyond || h.Handed?
      ensures h == Nothing ==> todo == old(todo) && haveCurr == old(haveCurr) && sync == old(sync)
    {
      hide Collected, Join, Sizes, Tight, Apart;
      outcome, h := Returned(0), Nothing;
      ghost var r := Abs();
      Append(b, piece, good, got);
      if good {
        CollectedLength(pool.bufs[..], todo, curr);
      }
      if pool.bufs[b].start + len >= totalLen {
        if totalLen < len {
          outcome := Beyond;
        } else {
          h := Complete(b, good, got, piece);
        }
      }
    }

    /** Out of buffers: everything goes back. That takes more than a message's worth of them. */
    method GiveUp(ghost good: bool, ghost got: Text, ghost piece: Text)
      requires Sound() && pool.free == [] && (good ==> Placing(got, piece) && !haveCurr)
      modifies this`todo, this`haveCurr, this`len, this`totalLen, this`kind, pool`free
      ensures Sound() && Count() == old(Count()) && (good ==> Coherent())
      ensures good && |got + piece| <= HTTP_IN_MAX - HEADER_LEN ==> old(Supply()) < ENOUGH
    {
      if good {
        SupplyEnough(got, piece);
      }
      ReleasePrepare();
      JoinNone(pool.bufs[..]);
    }

    /** The reader after a header, when the buffer at hand before it, `info`, was a timed-out message's: it is
        free now. */
    ghost predicate Restarted(info: nat)
      reads this, pool, pool.bufs
    {
      Sound() && sync && !haveCurr && todo == [] && len == 0 && info in pool.free
    }

    twostate predicate Untouched()
      reads this, pool, pool.bufs
    {
      && todo == old(todo) && haveCurr == old(haveCurr) && curr == old(curr) && sync == old(sync) && len == old(len)
      && totalLen == old(totalLen)
      && pool.free == old(pool.free) && pool.bufs[..] == old(pool.bufs[..])
    }

    /** The loop of http_mgmt_prepare: the piece goes into the buffer at hand, or into the next one. */
    method Place(piece: Text, have0: bool, info0: nat, ghost good: bool, ghost got: Text)
            returns (outcome: Outcome, h: Handed)
      requires Sound() && 0 < |piece| < HTTP_BUF_SIZE
               && (have0 ==> info0 < pool.bufs.Length && pool.bufs[info0].start <= HTTP_BUF_SIZE)
      requires if good then Placing(got, piece) && have0 == haveCurr && (have0 ==> info0 == curr)
               else have0 && Restarted(info0)
      modifies this, pool`free, pool.bufs
      ensures Sound() && InRange(pool.bufs[..], ListOf(h))
      ensures good ==> Count() + multiset(ListOf(h)) == old(Count())
      ensures good && outcome == Returned(4) ==> Coherent()
      ensures good && old(Supply()) >= ENOUGH && |got + piece| <= HTTP_IN_MAX - HEADER_LEN ==> outcome != Returned(4)
      ensures good && outcome != Returned(4) ==> Did(TakeMore(old(Abs()), piece), outcome, h)
      ensures !good ==> if Swallowed(old(pool.bufs[info0].start), piece, old(totalLen))
                        then outcome == Returned(0) && h == Nothing && sync && !haveCurr && todo == []
                        else outcome == Beyond || Count() + multiset(ListOf(h)) == old(Count()) + multiset{info0}
    {
      hide Apart, Did, Placing, Fitting, Coherent, Orderly, Got, Count, Supply;
      var have, info: nat := have0, info0;
      outcome, h := Returned(0), Nothing;
      while true
        invariant Sound() && (have ==> info < pool.bufs.Length && pool.bufs[info].start <= HTTP_BUF_SIZE)
        invariant good ==> Placing(got, piece) && have == haveCurr && (have ==> info == curr)
        invariant good ==> Count() == old(Count()) && Supply() == old(Supply())
        invariant good ==> Abs() == old(Abs())
        invariant !good && have ==> info == info0 && Untouched()
        invariant !good && !have ==>
                  !haveCurr && pool.free == old(pool.free)
                  && Count() == old(Count()) + multiset{info0}
        invariant !good && !have ==> old(pool.bufs[info0].start) + |piece| > HTTP_BUF_SIZE
        decreases have
      {
        if !have {
          var ok := NewCurr(good, got, piece);
          if !ok {
            GiveUp(good, got, piece);
            return Returned(4), Nothing;
          }
          have, info := true, curr;
        } else if good {
          StillFits(got, piece);
        }
        if pool.bufs[info].start + |piece| > HTTP_BUF_SIZE {
          SaveFull(info, piece, good, got);
          have := haveCurr;
          continue;
        }
        outcome, h := Fill(info, piece, good, got);
        return;
      }
    }

    /** The first part of http_mgmt_prepare: the header of a new message, or what is wrong with it. */
    method ReadHeader(buf: Text, ghost good: bool) returns (rc: int)
      requires Sound() && !sync && (good ==> Orderly())
      modifies this`todo, this`haveCurr, this`len, this`totalLen, this`kind, this`number, this`sync, pool`free
      ensures Sound() && Supply() == old(Supply()) && Count() == old(Count()) && rc in {0, 10, 11, 12}
      ensures rc == 0 ==>
              |buf| >= HEADER_LEN && sync && !haveCurr && len == 0
              && totalLen == HeaderOf(buf).length - HEADER_LEN
      ensures rc == 0 <==> Accepted(buf)
      ensures rc == 0 && old(haveCurr) ==> Restarted(curr)
      ensures good ==> Orderly() && (rc in {0, 12} || !old(haveCurr) ==> !haveCurr)
      ensures good ==> if rc == 0 then Take(Idle, buf) == TakeMore(Abs(), buf[HEADER_LEN..]) && Got() == []
                                     else Take(Idle, buf) == Taken(Idle, rc, []) && Abs() == Idle
    {
      hide Apart, HeaderOf, TakeMore;
      if |buf| < HEADER_LEN {
        return 10;
      }
      var h := HeaderOf(buf);
      if h.magic != MAGIC || h.version != VERSION {
        return 11;
      }
      ReleasePrepare();
      JoinNone(pool.bufs[..]);
      if h.length > HTTP_IN_MAX {
        return 12;
      }
      sync, totalLen, kind, number := true, h.length - HEADER_LEN, h.kind, h.number;
      rc := 0;
    }

    lemma ReadyToPlace(piece: Text)
      requires Coherent() && sync
      ensures Placing(Got(), piece)
    {
      if !haveCurr {
        JoinNone(pool.bufs[..]);
      }
    }

    /**
     * http_mgmt_prepare. The buffer at hand is read from `curr` first: when a message begins while a
     * timed-out one is unfinished, it is the buffer just released that is written to.
     */
    method Prepare(buf: Text) returns (outcome: Outcome, h: Handed)
      requires Orderly() && |buf| < HTTP_BUF_SIZE
      modifies this, pool`free, pool.bufs
      ensures Sound() && InRange(pool.bufs[..], ListOf(h))
      ensures old(Coherent()) ==> Count() + multiset(ListOf(h)) == old(Count())
      ensures old(Coherent()) && outcome == Returned(4) ==> Coherent()
      ensures old(Coherent()) && outcome != Returned(4) ==> Did(Take(old(Abs()), buf), outcome, h)
      ensures old(Coherent()) && old(Supply()) >= ENOUGH
              && old(|Got()|) + |buf| <= HTTP_IN_MAX - (if old(sync) then HEADER_LEN else 0)
              ==> outcome != Returned(4)
      // after a timeout: what begins a message is lost, or a buffer is in two places
      ensures old(Stale()) && BeginsMessage(buf) ==>
              if Swallowed(old(pool.bufs[curr].start), buf[HEADER_LEN..], HeaderOf(buf).length - HEADER_LEN)
              then outcome == Returned(0) && h == Nothing && Got() == []
              else outcome == Beyond || Count() + multiset(ListOf(h)) == old(Count()) + multiset{old(curr)}
      // and only then
      ensures old(Stale()) ==>
              (outcome.Returned? && Count() + multiset(ListOf(h)) == old(Count())
                  && Answered(Take(Idle, buf), outcome, h)
               <==> !BeginsMessage(buf))
    {
      hide Collected, Join, Sizes, Tight, Apart, HeaderOf, TakeMore, Placing, Count, Supply;
      ghost var good := Coherent();
      var have, info, piece := haveCurr, curr, buf;
      outcome, h := Returned(0), Nothing;
      if !sync {
        var rc := ReadHeader(buf, true);
        if rc != 0 {
          return Returned(rc), Nothing;
        }
        piece := buf[HEADER_LEN..];
      }
      if piece == [] {
        NothingTaken();
        return;
      }
      ghost var r := Abs();
      if good {
        ReadyToPlace(piece);
      }
      ghost var swallowed := !good && Swallowed(pool.bufs[info].start, piece, totalLen);
      outcome, h := Place(piece, have, info, good, if good then Got() else []);
      if swallowed {
        NotAnswered(r, piece, outcome, h);
      }
    }

    /** Bytes that are not collected show in the reader's state. */
    lemma NotAnswered(r: Reader, piece: Text, outcome: Outcome, h: Handed)
      requires Sound() && InRange(pool.bufs[..], ListOf(h)) && r.Reading? && r.got == [] && piece != []
      requires |piece| < r.total && !haveCurr && todo == []
      ensures Got() == [] && !Answered(TakeMore(r, piece), outcome, h)
    {
      JoinNone(pool.bufs[..]);
    }

    lemma NothingTaken()
      requires Sound() && sync
      ensures TakeMore(Abs(), []) == Taken(Abs(), 0, [])
    {}

    /** The timeout in http_mgmt_run: what is collected is not released. */
    method ResetSync()
      requires Coherent()
      modifies this`sync
      ensures if haveCurr then Stale() else Coherent()
      ensures Abs() == Idle && Got() == old(Got()) && Count() == old(Count())
    {
      sync := false;
    }

    /** A message received in any pieces: passed on once, with the last of them, and every buffer in one place. */
    method Receive(pieces: seq<Text>, ghost m: Message) returns (h: Handed)
      requires Coherent() && !sync && Supply() >= ENOUGH && Delivery(m, pieces)
      requires forall i :: 0 <= i < |pieces| ==> |pieces[i]| < HTTP_BUF_SIZE
      modifies this, pool`free, pool.bufs
      ensures h.Handed? && h.kind == m.kind && h.number == m.number
      ensures Coherent() && Abs() == Idle && InRange(pool.bufs[..], h.list) && Join(pool.bufs[..], h.list) == m.payload
      ensures Count() + multiset(h.list) == old(Count())
    {
      assert pieces != [];
      hide Join, Collected, Sizes, Tight, Apart, Take, Encode, Delivery;
      h := Nothing;
      SupplyCount();
      for i := 0 to |pieces|
        invariant h == Nothing ==> Supply() >= ENOUGH
        invariant Coherent() && Abs() == After(m, pieces, i) && Count() + multiset(ListOf(h)) == old(Count())
        invariant InRange(pool.bufs[..], ListOf(h)) && (h == Nothing <==> i < |pieces|)
        invariant h.Handed? ==> h.kind == m.kind && h.number == m.number && Join(pool.bufs[..], h.list) == m.payload
      {
        StepTaken(m, pieces, i);
        RoomLeft(m, pieces, i);
        IdleEmpty();
        var outcome;
        outcome, h := Prepare(pieces[i]);
        SupplyCount();
      }
    }

    lemma IdleEmpty()
      requires Coherent()
      ensures !sync ==> Got() == []
    {
      JoinNone(pool.bufs[..]);
    }

    /** What is collected, if it is not nothing, is in the buffer at hand and those on the list. */
    lemma HaveOne()
      requires Coherent()
      ensures Got() != [] ==> haveCurr && pool.bufs[curr].start <= |Got()|
    {
      JoinNone(pool.bufs[..]);
    }

    lemma SupplyCount()
      ensures Supply() == |Count()|
    {}
  }

  /** No more is collected at any time than the message is long. */
  lemma RoomLeft(m: Message, pieces: seq<Text>, i: nat)
    requires Delivery(m, pieces) && i < |pieces|
    ensures match After(m, pieces, i)
            case Idle => |pieces[i]| <= HTTP_IN_MAX
            case Reading(_, _, _, got) => |got| + |pieces[i]| <= HTTP_IN_MAX - HEADER_LEN
  {
    MoreToCome(m, pieces, i + 1);
    ConcatAt(pieces, i);
  }

  lemma TightMore(sizes: seq<nat>, n: nat, more: nat)
    requires Tight(sizes + [n]) && n <= more
    ensures Tight(sizes + [more])
  {
    forall i | 0 < i < |sizes| + 1 ensures (sizes + [more])[i - 1] + (sizes + [more])[i] > HTTP_BUF_SIZE {
      assert (sizes + [n])[i - 1] + (sizes + [n])[i] > HTTP_BUF_SIZE;
    }
  }

  lemma ApartPart(a: multiset<nat>, b: multiset<nat>)
    requires Apart(a + b)
    ensures Apart(a)
  {
    forall k: nat ensures a[k] <= 1 {
      assert (a + b)[k] <= 1;
    }
  }

  lemma CollectedLength(mem: seq<Buf>, todo: seq<nat>, curr: nat)
    requires AllValid(mem) && InRange(mem, todo) && curr < |mem|
    ensures |Collected(mem, todo, true, curr)| == |Join(mem, todo)| + mem[curr].start
  {}

  lemma CutKeeps(mem: seq<Buf>, todo: seq<nat>, curr: nat, n: nat)
    requires AllValid(mem) && InRange(mem, todo) && curr < |mem| && curr !in todo && n <= mem[curr].start
    ensures var mem' := mem[curr := mem[curr].(start := n)];
            AllValid(mem') && Join(mem', todo) == Join(mem, todo)
            && Collected(mem', todo, true, curr) == Collected(mem, todo, true, curr)[..|Join(mem, todo)| + n]
  {
    var mem' := mem[curr := mem[curr].(start := n)];
    JoinSame(mem, mem', todo);
    assert mem[curr].text[..mem[curr].start][..n] == mem[curr].text[..n];
  }

  /** A piece that does not fit behind the last one makes the list tight with it. */
  lemma TightNext(sizes: seq<nat>, start: nat, n: nat)
    requires Tight(sizes + [start + 0]) && start + n > HTTP_BUF_SIZE
    ensures Tight(sizes + [start] + [n])
  {
    var s := sizes + [start];
    assert s == sizes + [start + 0];
    forall i | 0 < i < |s| + 1 ensures (s + [n])[i - 1] + (s + [n])[i] > HTTP_BUF_SIZE {
      if i < |s| {
        assert s[i - 1] + s[i] > HTTP_BUF_SIZE;
      }
    }
  }

  lemma Released(free: seq<nat>, todo: seq<nat>, have: bool, curr: nat)
    ensures var free' := if have then [curr] + free else free;
            && multiset(todo + free') == multiset(free) + multiset(todo) + (if have then multiset{curr} else multiset{})
            && (have ==> (todo + free')[|todo|] == curr)
  {}

  lemma CurrNotListed(free: seq<nat>, todo: seq<nat>, curr: nat)
    requires Apart(multiset(free) + multiset(todo) + multiset{curr})
    ensures curr !in todo
  {
    var all := multiset(free) + multiset(todo) + multiset{curr};
    assert all[curr] <= 1;
    assert curr in todo <==> multiset(todo)[curr] > 0;
  }

  /** Taking a free buffer changes nothing on the list. */
  lemma NewKeeps(mem: seq<Buf>, free: seq<nat>, todo: seq<nat>)
    requires AllValid(mem) && InRange(mem, todo) && InRange(mem, free) && free != []
    requires Apart(multiset(free) + multiset(todo))
    ensures var b := free[0];
            var mem' := mem[b := mem[b].(start := 0, len := 0, total := 0)];
            AllValid(mem') && Join(mem', todo) == Join(mem, todo) && Sizes(mem', todo) == Sizes(mem, todo)
  {
    var b := free[0];
    var mem' := mem[b := mem[b].(start := 0, len := 0, total := 0)];
    HeadTail(free);
    var all := multiset(free) + multiset(todo);
    assert all[b] <= 1;
    assert b in todo <==> multiset(todo)[b] > 0;
    JoinSame(mem, mem', todo);
    SizesSame(mem, mem', todo);
  }

  lemma CollectedNew(mem: seq<Buf>, todo: seq<nat>, b: nat)
    requires AllValid(mem) && InRange(mem, todo) && b < |mem| && mem[b].start == 0
    ensures Collected(mem, todo, true, b) == Collected(mem, todo, false, 0) == Join(mem, todo)
  {}

  /** The first piece of a message of three bytes: its header and a byte. */
  function FirstPiece(): Text { Encode(Message(1, 2, [3, 4, 5]))[..HEADER_LEN + 1] }

  lemma FirstPieceTaken()
    ensures var buf := FirstPiece();
            && |buf| == HEADER_LEN + 1 && BeginsMessage(buf) && HeaderOf(buf).length == HEADER_LEN + 3
            && Take(Idle, buf) == Taken(Reading(1, 2, 3, [3]), 0, [])
  {
    var m, buf := Message(1, 2, [3, 4, 5]), FirstPiece();
    hide HeaderText, HeaderOf;
    assert buf == HeaderText(1, 2, HEADER_LEN + 3) + [3];
    HeaderBack(1, 2, HEADER_LEN + 3, [3]);
    HeaderTaken(m, buf);
    assert buf[HEADER_LEN..] == [3] && [] + [3] == [3];
  }

  /** A message broken off after its first byte, a timeout, and the same piece again: that byte is lost. */
  method LostAfterTimeout(pool: Pool) returns (m: Mgmt, outcome: Outcome, h: Handed)
    requires pool.Valid() && Apart(multiset(pool.free)) && |pool.free| >= ENOUGH
    modifies pool`free, pool.bufs
    ensures m.Sound() && outcome == Returned(0) && h == Nothing && m.Got() == []
    ensures InRange(m.pool.bufs[..], ListOf(h)) && !m.Answered(Take(Idle, FirstPiece()), outcome, h)
  {
    FirstPieceTaken();
    var buf := FirstPiece();
    hide Take, FirstPiece, BeginsMessage, HeaderOf, Join, Sizes, Tight, Apart, Collected;
    m := BrokenOff(pool);
    assert Swallowed(pool.bufs[m.curr].start, buf[HEADER_LEN..], HeaderOf(buf).length - HEADER_LEN);
    hide Swallowed, Mgmt.Answered, Mgmt.Count, Mgmt.Supply;
    outcome, h := m.Prepare(buf);
  }

  method BrokenOff(pool: Pool) returns (m: Mgmt)
    requires pool.Valid() && Apart(multiset(pool.free)) && |pool.free| >= ENOUGH
    modifies pool`free, pool.bufs
    ensures m.pool == pool && fresh(m) && m.Stale() && pool.bufs[m.curr].start <= 1
  {
    FirstPieceTaken();
    hide Take, FirstPiece, BeginsMessage, HeaderOf, Join, Sizes, Tight, Apart, Collected;
    m := new Mgmt(pool);
    m.SupplyCount();
    m.IdleEmpty();
    var outcome, h := m.Prepare(FirstPiece());
    m.HaveOne();
    m.ResetSync();
  }
}
