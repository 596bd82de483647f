/** The fixed C buffers of the demo (macos-demo/pq1-demo.c): bounded, filled in place. */
module Buffers {
  import opened Bytes

  const CAP: nat := 16384

  /** memcpy: `src` over `dst` from index `at` on. */
  method CopyIn(dst: array<Byte>, at: nat, src: Bytes)
    requires at + |src| <= dst.Length
    modifies dst
    ensures dst[..at] == old(dst[..at])
    ensures dst[at..at + |src|] == src
    ensures dst[at + |src|..] == old(dst[at + |src|..])
    ensures dst[..at + |src|] == old(dst[..at]) + src
  {
    forall k | 0 <= k < |src| {
      dst[at + k] := src[k];
    }
    assert dst[..at + |src|] == dst[..at] + dst[at..at + |src|];
  }

  /** memset(a, 0, sizeof a). */
  method Clear(a: array<Byte>)
    modifies a
    ensures a[..] == Zeros(a.Length)
  {
    forall k | 0 <= k < a.Length {
      a[k] := 0;
    }
  }

  /** `Buf`: at most CAP bytes; writing past the end is fatal, so callers keep inside. */
  class Buf {
    var n: nat
    var b: array<Byte>
    ghost var Contents: Bytes

    ghost predicate Valid()
      reads this, b
    {
      b.Length == CAP && n <= CAP && Contents == b[..n]
    }

    constructor ()
      ensures Valid() && fresh(b) && Contents == []
    {
      n, b, Contents := 0, new Byte[CAP](_ => 0), [];
    }

    /** `b.n = 0`. */
    method Reset()
      requires Valid()
      modifies this
      ensures Valid() && b == old(b) && Contents == [] && n == 0
    {
      n, Contents := 0, [];
    }

    method Put(p: Bytes)
      requires Valid() && |p| <= CAP - n
      modifies this, b
      ensures Valid() && b == old(b)
      ensures Contents == old(Contents) + p && n == old(n) + |p|
    {
      CopyIn(b, n, p);
      n, Contents := n + |p|, Contents + p;
    }
  }
}
