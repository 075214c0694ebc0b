/** The C library's block operations on byte arrays. */
module Memory {

  function Zeros(n: nat): (s: seq<bv8>)
    ensures |s| == n
  {
    seq(n, i => 0)
  }

  /** `m` with `piece` written over it at `start`. */
  function Splice(m: seq<bv8>, start: nat, piece: seq<bv8>): (s: seq<bv8>)
    requires start + |piece| <= |m|
    ensures |s| == |m|
  {
    m[..start] + piece + m[start + |piece|..]
  }

  /** memcpy of `piece` to `m` + `start`. */
  method Memcpy(m: array<bv8>, start: nat, piece: seq<bv8>)
    requires start + |piece| <= m.Length
    modifies m
    ensures m[..] == Splice(old(m[..]), start, piece)
  {
    forall k | 0 <= k < |piece| {
      m[start + k] := piece[k];
    }
  }

  /** bzero of `n` bytes at `m` + `start`. */
  method Bzero(m: array<bv8>, start: nat, n: nat)
    requires start + n <= m.Length
    modifies m
    ensures m[..] == Splice(old(m[..]), start, Zeros(n))
  {
    forall k | start <= k < start + n {
      m[k] := 0;
    }
  }
}
