/**
 * The buffer pool of http_client.c: the array of buffers allocated at start, the list of free ones, and
 * the lists that borrow from it. A buffer is its place in the array, a list is the places on it.
 */
module BufPool {
  import opened Bytes

  const HTTP_BUF_SIZE: nat := 2048
  const ROOM: nat := HTTP_BUF_SIZE + 4 // with the padding after it

  datatype Buf = Buf(text: Text, start: nat, len: nat, total: nat) {
    predicate Valid() { |text| == ROOM && start <= ROOM && len <= ROOM }

    function Content(): Text
      requires Valid()
    {
      text[..len]
    }
  }

  ghost predicate AllValid(mem: seq<Buf>) { forall b :: 0 <= b < |mem| ==> mem[b].Valid() }

  ghost predicate InRange(mem: seq<Buf>, list: seq<nat>) { forall i :: 0 <= i < |list| ==> list[i] < |mem| }

  /** What the buffers of a list hold, one after the other. */
  ghost function Join(mem: seq<Buf>, list: seq<nat>): Text
    requires AllValid(mem) && InRange(mem, list)
  {
    if list == [] then [] else mem[list[0]].Content() + Join(mem, list[1..])
  }

  lemma {:induction false} JoinAppend(mem: seq<Buf>, a: seq<nat>, b: seq<nat>)
    requires AllValid(mem) && InRange(mem, a) && InRange(mem, b)
    ensures InRange(mem, a + b) && Join(mem, a + b) == Join(mem, a) + Join(mem, b)
  {
    if a == [] {
      assert a + b == b;
    } else {
      assert (a + b)[1..] == a[1..] + b;
      JoinAppend(mem, a[1..], b);
    }
  }

  lemma JoinNone(mem: seq<Buf>)
    requires AllValid(mem)
    ensures Join(mem, []) == []
  {}

  lemma JoinOne(mem: seq<Buf>, b: nat)
    requires AllValid(mem) && b < |mem|
    ensures InRange(mem, [b]) && Join(mem, [b]) == mem[b].Content()
  {
    assert Join(mem, [b][1..]) == [];
  }

  /** Changing nothing in the contents of a list's buffers leaves what the list holds alone. */
  lemma {:induction false} JoinSame(mem: seq<Buf>, mem': seq<Buf>, list: seq<nat>)
    requires AllValid(mem) && AllValid(mem') && |mem| == |mem'| && InRange(mem, list)
    requires forall i :: 0 <= i < |list| ==> mem[list[i]].Content() == mem'[list[i]].Content()
    ensures Join(mem', list) == Join(mem, list)
  {
    if list != [] {
      JoinSame(mem, mem', list[1..]);
    }
  }

  /** The buffers of some lists, counted: at most once each means no buffer is in two places. */
  ghost predicate Apart(count: multiset<nat>) { forall b :: count[b] <= 1 }

  lemma HeadTail(list: seq<nat>)
    requires list != []
    ensures multiset(list) == multiset{list[0]} + multiset(list[1..])
  {
    assert list == [list[0]] + list[1..];
  }

  class Pool {
    const bufs: array<Buf>
    var free: seq<nat> // http_buf_caches

    ghost predicate Valid()
      reads this, bufs
    {
      AllValid(bufs[..]) && InRange(bufs[..], free)
    }

    /** alloc_buf. */
    method AllocBuf() returns (ok: bool, b: nat)
      requires Valid()
      modifies this`free, bufs
      ensures Valid() && ok == (old(free) != [])
      ensures !ok ==> free == [] && bufs[..] == old(bufs[..])
      ensures ok ==> old(free) == [b] + free && b < bufs.Length
      ensures ok ==> bufs[..] == old(bufs[..])[b := old(bufs[b]).(start := 0, len := 0, total := 0)]
    {
      ok, b := free != [], 0;
      if ok {
        assert free[0] < |bufs[..]|;
        b := free[0];
        free := free[1..];
        bufs[b] := bufs[b].(start := 0, len := 0, total := 0);
      }
    }

    /** free_buf. */
    method FreeBuf(b: nat)
      requires Valid() && b < bufs.Length
      modifies this`free
      ensures Valid() && free == [b] + old(free)
    {
      free := [b] + free;
    }

    constructor (caches: nat)
      ensures Valid() && fresh(bufs) && bufs.Length == caches && Apart(multiset(free)) && |free| == caches
    {
      bufs := new Buf[caches](i => Buf(seq(ROOM, k => 0), 0, 0, 0));
      free := UpTo(caches);
      new;
      UpToApart(caches);
    }
  }

  function UpTo(n: nat): (list: seq<nat>)
    ensures |list| == n && forall i :: 0 <= i < n ==> list[i] == i
  {
    if n == 0 then [] else UpTo(n - 1) + [n - 1]
  }

  lemma {:induction false} UpToApart(n: nat)
    ensures Apart(multiset(UpTo(n)))
  {
    if n > 0 {
      UpToApart(n - 1);
      assert n - 1 !in UpTo(n - 1);
    }
  }
}
