/**
 `sha256` of the demo (macos-demo/pq1-demo.c): which blocks it feeds to the compression function. The
 compression is a parameter; the padding is that of section 5.1.1 of FIPS 180-4.
 */
module Sha256Blocks {
  import opened Bytes
  import Buffers

  const BLOCK: nat := 64

  /** The zeros between the 0x80 and the length: the fewest that fill the last block. */
  function ZeroCount(n: nat): (k: nat)
    ensures k < BLOCK && (n + 1 + k + 8) % BLOCK == 0
  {
    (119 - n % 64) % 64
  }

  /** `rest` padded as the end of a message of `n` bytes; the length field holds 64 bits. */
  function Tail(rest: Bytes, n: nat): (t: Bytes) {
    rest + [0x80] + Zeros(ZeroCount(|rest|)) + FixedBE(8 * n, 8)
  }

  function Padded(message: Bytes): Bytes {
    Tail(message, |message|)
  }

  /** The compression function over whole blocks, in order. */
  function Fold<S>(compress: (S, Bytes) -> S, h: S, blocks: Bytes): S
    decreases |blocks|
  {
    if |blocks| < BLOCK then h else Fold(compress, compress(h, blocks[..BLOCK]), blocks[BLOCK..])
  }

  lemma TailStep<S>(compress: (S, Bytes) -> S, h: S, rest: Bytes, n: nat)
    requires |rest| >= BLOCK
    ensures Fold(compress, h, Tail(rest, n)) == Fold(compress, compress(h, rest[..BLOCK]), Tail(rest[BLOCK..], n))
  {
    TailIsTail(rest, n);
    FirstBlock(rest[..BLOCK], Tail(rest[BLOCK..], n));
  }

  lemma SameZeros(n: nat)
    requires n >= BLOCK
    ensures ZeroCount(n) == ZeroCount(n - BLOCK)
  {
    assert n % 64 == (n - 64) % 64;
  }

  /** Whole blocks stand before the padding. */
  lemma TailIsTail(rest: Bytes, n: nat)
    requires |rest| >= BLOCK
    ensures Tail(rest, n) == rest[..BLOCK] + Tail(rest[BLOCK..], n)
  {
    SameZeros(|rest|);
    assert rest == rest[..BLOCK] + rest[BLOCK..];
    Regroup(rest[..BLOCK], rest[BLOCK..], [0x80], Zeros(ZeroCount(|rest|)), FixedBE(8 * n, 8));
  }

  lemma Regroup(a: Bytes, b: Bytes, c: Bytes, d: Bytes, e: Bytes)
    ensures a + b + c + d + e == a + (b + c + d + e)
  {
  }

  lemma FirstBlock(a: Bytes, b: Bytes)
    ensures (a + b)[..|a|] == a && (a + b)[|a|..] == b
  {
  }

  /** What is left of the message takes one block or two. */
  lemma TailLength(rest: Bytes, n: nat)
    requires |rest| < BLOCK
    ensures |Tail(rest, n)| == if |rest| + 9 <= BLOCK then BLOCK else 2 * BLOCK
  {
  }

  lemma TailFolds<S>(compress: (S, Bytes) -> S, h: S, t: Bytes)
    ensures |t| == BLOCK ==> Fold(compress, h, t) == compress(h, t)
    ensures |t| == 2 * BLOCK ==> Fold(compress, h, t) == compress(compress(h, t[..BLOCK]), t[BLOCK..])
    decreases |t|
  {
    if |t| == BLOCK {
      assert t[..BLOCK] == t && |t[BLOCK..]| == 0;
    } else if |t| == 2 * BLOCK {
      TailFolds(compress, compress(h, t[..BLOCK]), t[BLOCK..]);
    }
  }

  // ---------------------------------------------------------------- the code

  /** `(uint8_t)(v >> 8 * i)`. */
  function ByteAt(v: nat, i: nat): Byte
    decreases i
  {
    if i == 0 then v % 256 else ByteAt(v / 256, i - 1)
  }

  lemma {:induction false} FixedBEAt(v: nat, len: nat, i: nat)
    requires i < len
    ensures FixedBE(v, len)[len - 1 - i] == ByteAt(v, i)
    decreases len
  {
    if i > 0 {
      FixedBEAt(v / 256, len - 1, i - 1);
    }
  }

  /** `set_be`: the low bytes of `v`, most significant first. */
  method SetBe(p: array<Byte>, at: nat, v: nat, len: nat)
    requires at + len <= p.Length
    modifies p
    ensures p[at..at + len] == FixedBE(v, len)
    ensures p[..at] == old(p[..at]) && p[at + len..] == old(p[at + len..])
  {
    for i := 0 to len
      invariant forall j :: 0 <= j < i ==> p[at + len - 1 - j] == ByteAt(v, j)
      invariant p[..at] == old(p[..at]) && p[at + len..] == old(p[at + len..])
    {
      p[at + len - 1 - i] := ByteAt(v, i);
    }
    forall k | 0 <= k < len
      ensures p[at..at + len][k] == FixedBE(v, len)[k]
    {
      FixedBEAt(v, len, len - 1 - k);
    }
  }

  /** The last one or two blocks, in a buffer that was zero. */
  method FillLast(rest: Bytes, n: nat, last: array<Byte>) returns (len: nat)
    requires |rest| < BLOCK && last.Length == 2 * BLOCK && last[..] == Zeros(2 * BLOCK)
    modifies last
    ensures len == |Tail(rest, n)| <= 2 * BLOCK && last[..len] == Tail(rest, n)
  {
    var r := |rest|;
    len := if r + 9 <= BLOCK then BLOCK else 2 * BLOCK;
    TailLength(rest, n);
    MarkEnd(rest, last);
    ghost var head := rest + [0x80] + Zeros(ZeroCount(r));
    assert last[..len - 8] == head;
    SetBe(last, len - 8, 8 * n, 8);
    assert last[..len] == last[..len - 8] + last[len - 8..len];
  }

  method MarkEnd(rest: Bytes, last: array<Byte>)
    requires |rest| < last.Length && last[..] == Zeros(last.Length)
    modifies last
    ensures last[..] == rest + [0x80] + Zeros(last.Length - |rest| - 1)
  {
    var r := |rest|;
    assert last[r + 1..] == Zeros(last.Length - r - 1);
    Buffers.CopyIn(last, 0, rest);
    assert last[..r] == rest;
    assert last[r + 1..] == last[0 + |rest|..][1..] == Zeros(last.Length - r - 1);
    last[r] := 0x80;
    assert last[..] == last[..r] + [last[r]] + last[r + 1..];
  }

  method Sha256<S>(compress: (S, Bytes) -> S, iv: S, m: Bytes) returns (h: S)
    ensures h == Fold(compress, iv, Padded(m))
  {
    h := iv;
    var n := |m|;
    var last := new Byte[2 * BLOCK](_ => 0);
    var i := 0;
    assert m[0..] == m && last[..] == Zeros(2 * BLOCK);
    while i + BLOCK <= n
      invariant i <= n && last[..] == Zeros(2 * BLOCK)
      invariant Fold(compress, h, Tail(m[i..], n)) == Fold(compress, iv, Padded(m))
    {
      TailStep(compress, h, m[i..], n);
      assert m[i..][..BLOCK] == m[i..i + BLOCK] && m[i..][BLOCK..] == m[i + BLOCK..];
      h := compress(h, m[i..i + BLOCK]);
      i := i + BLOCK;
    }
    var len := FillLast(m[i..], n, last);
    TailLength(m[i..], n);
    TailFolds(compress, h, Tail(m[i..], n));
    ghost var t := last[..len];
    assert last[..BLOCK] == t[..BLOCK];
    h := compress(h, last[..BLOCK]);
    if len == 2 * BLOCK {
      assert last[BLOCK..] == t[BLOCK..];
      h := compress(h, last[BLOCK..]);
    }
  }

  // ---------------------------------------------------------------- the padding says what it should

  /** Whole blocks; the message comes first; the length field holds the bit length exactly below 2^61 bytes. */
  lemma PaddingIsSound(message: Bytes)
    ensures |Padded(message)| % BLOCK == 0 && message <= Padded(message)
    ensures FromBE(Padded(message)[|Padded(message)| - 8..]) == 8 * |message| <==> |message| < 0x2000_0000_0000_0000
  {
    var p, f := Padded(message), FixedBE(8 * |message|, 8);
    assert p[|p| - 8..] == f;
    TwoTo64();
    FromBEBound(f);
  }

  /** After the message 0x80, then zeros up to the last eight bytes, fewer than a block of them. */
  lemma PaddingIsMarked(message: Bytes)
    ensures var p := Padded(message);
      && |message| + 9 <= |p| < |message| + 9 + 64 && |p| % 64 == 0 && p[|message|] == 0x80
      && forall i :: |message| < i < |p| - 8 ==> p[i] == 0
  {
  }

  /** One block is one compression, and blocks are compressed in their order. */
  lemma {:induction false} FoldJoins<S>(compress: (S, Bytes) -> S, h: S, block: Bytes, more: Bytes)
    requires |block| == 64
    ensures Fold(compress, h, block + more) == Fold(compress, compress(h, block), more)
    ensures Fold(compress, h, []) == h
  {
    FirstBlock(block, more);
  }

  lemma TwoTo64()
    ensures Pow256(8) == 0x1_0000_0000_0000_0000
  {
  }

  /** Messages below that length have different paddings. */
  lemma PaddingIsInjective(a: Bytes, b: Bytes)
    requires Padded(a) == Padded(b) && |a| < 0x2000_0000_0000_0000 && |b| < 0x2000_0000_0000_0000
    ensures a == b
  {
    PaddingIsSound(a);
    PaddingIsSound(b);
  }
}
