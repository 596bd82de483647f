/** Bytes, byte strings and their big-endian reading: the vocabulary shared by the wire formats. */
module Bytes {

  type Byte = b: int | 0 <= b < 256

  type Bytes = seq<Byte>

  datatype Option<+T> = None | Some(value: T)

  function Pow256(k: nat): (p: nat)
    ensures p >= 1
  {
    if k == 0 then 1 else 256 * Pow256(k - 1)
  }

  /** The number a byte string denotes, most significant byte first. */
  function FromBE(s: Bytes): (n: nat)
  {
    if s == [] then 0 else FromBE(s[..|s| - 1]) * 256 + s[|s| - 1]
  }

  /** The shortest big-endian form; zero is the empty string. */
  function ToBE(n: nat): (s: Bytes)
    ensures FromBE(s) == n
    ensures s != [] ==> s[0] != 0
  {
    if n == 0 then [] else
    var hi := ToBE(n / 256);
    assert (hi + [n % 256])[..|hi|] == hi;
    hi + [n % 256]
  }

  /** Exactly `len` big-endian bytes: the low `len` bytes of `n`, as a truncating cast leaves them. */
  function FixedBE(n: nat, len: nat): (s: Bytes)
    ensures |s| == len
    ensures n < Pow256(len) ==> FromBE(s) == n
  {
    if len == 0 then [] else
    var hi := FixedBE(n / 256, len - 1);
    assert (hi + [n % 256])[..len - 1] == hi;
    hi + [n % 256]
  }

  function Zeros(n: nat): (z: Bytes)
    ensures |z| == n && forall i :: 0 <= i < n ==> z[i] == 0
  {
    seq(n, _ => 0)
  }

  lemma {:induction false} FromBEBound(s: Bytes)
    ensures FromBE(s) < Pow256(|s|)
  {
    if s != [] {
      FromBEBound(s[..|s| - 1]);
    }
  }

  lemma {:induction false} Pow256Monotone(a: nat, b: nat)
    requires a <= b
    ensures Pow256(a) <= Pow256(b)
    decreases b
  {
    if a < b {
      Pow256Monotone(a, b - 1);
    }
  }

  /** A first byte that is not zero is worth at least its place. */
  lemma {:induction false} FromBELowerBound(s: Bytes)
    requires s != [] && s[0] != 0
    ensures FromBE(s) >= Pow256(|s| - 1)
  {
    if |s| > 1 {
      FromBELowerBound(s[..|s| - 1]);
    } else {
      assert s[..0] == [];
    }
  }

  /** The shortest form is unique: reading and writing back changes nothing. */
  lemma {:induction false} ToBEFromBE(s: Bytes)
    requires s != [] ==> s[0] != 0
    ensures ToBE(FromBE(s)) == s
  {
    if s != [] {
      var hi := s[..|s| - 1];
      ToBEFromBE(hi);
      FromBELowerBound(s);
      assert FromBE(s) / 256 == FromBE(hi) && FromBE(s) % 256 == s[|s| - 1];
      assert s == hi + [s[|s| - 1]];
    }
  }

  /** The shortest form of `n` has at most `k` bytes exactly when `n` fits `k` bytes. */
  lemma ToBELength(n: nat, k: nat)
    ensures |ToBE(n)| <= k <==> n < Pow256(k)
  {
    var s := ToBE(n);
    if |s| <= k {
      FromBEBound(s);
      Pow256Monotone(|s|, k);
    } else {
      FromBELowerBound(s);
      Pow256Monotone(k, |s| - 1);
    }
  }

  lemma {:induction false} FixedBEFromBE(s: Bytes)
    ensures FixedBE(FromBE(s), |s|) == s
  {
    if s != [] {
      var hi := s[..|s| - 1];
      FixedBEFromBE(hi);
      assert FromBE(s) / 256 == FromBE(hi) && FromBE(s) % 256 == s[|s| - 1];
      assert s == hi + [s[|s| - 1]];
    }
  }

  lemma Associative(a: Bytes, b: Bytes, c: Bytes)
    ensures (a + b) + c == a + (b + c)
  {
  }

  // ---------------------------------------------------------------- concatenation

  function Concat(parts: seq<Bytes>): Bytes
    decreases |parts|
  {
    if parts == [] then [] else Concat(parts[..|parts| - 1]) + parts[|parts| - 1]
  }

  lemma ConcatNext(parts: seq<Bytes>, k: nat)
    requires k < |parts|
    ensures Concat(parts[..k + 1]) == Concat(parts[..k]) + parts[k]
  {
    assert parts[..k + 1][..k] == parts[..k];
  }

  /** Appending the next part to what has been written. */
  lemma AppendNext(before: Bytes, parts: seq<Bytes>, k: nat)
    requires k < |parts|
    ensures before + Concat(parts[..k + 1]) == before + Concat(parts[..k]) + parts[k]
  {
    ConcatNext(parts, k);
    Associative(before, Concat(parts[..k]), parts[k]);
  }

  lemma AppendEnds(before: Bytes, parts: seq<Bytes>)
    ensures before + Concat(parts[..0]) == before && parts[..|parts|] == parts
  {
    assert parts[..0] == [] && before + [] == before;
  }

  lemma {:induction false} ConcatPrefix(parts: seq<Bytes>, k: nat)
    requires k <= |parts|
    ensures Concat(parts[..k]) <= Concat(parts)
    decreases |parts| - k
  {
    if k == |parts| {
      assert parts[..k] == parts;
    } else {
      ConcatNext(parts, k);
      ConcatPrefix(parts, k + 1);
    }
  }

  /** Part `k` lies behind the parts before it. */
  lemma ConcatAt(parts: seq<Bytes>, k: nat)
    requires k < |parts|
    ensures |Concat(parts[..k])| + |parts[k]| <= |Concat(parts)|
    ensures Concat(parts)[|Concat(parts[..k])|..|Concat(parts[..k])| + |parts[k]|] == parts[k]
  {
    ConcatNext(parts, k);
    ConcatPrefix(parts, k + 1);
    var n := |Concat(parts[..k])|;
    assert Concat(parts)[..n + |parts[k]|] == Concat(parts[..k]) + parts[k];
  }

  lemma {:induction false} ConcatWidth(parts: seq<Bytes>, w: nat)
    requires forall k :: 0 <= k < |parts| ==> |parts[k]| == w
    ensures |Concat(parts)| == |parts| * w
    decreases |parts|
  {
    if parts != [] {
      ConcatWidth(parts[..|parts| - 1], w);
      OneMoreWidth(|parts|, w);
    }
  }

  lemma OneMoreWidth(n: nat, w: nat)
    requires n > 0
    ensures (n - 1) * w + w == n * w
  {
  }

  lemma Inside(a: Bytes, b: Bytes, c: Bytes, from: nat, to: nat)
    requires from <= to <= |b|
    ensures (a + b + c)[|a| + from..|a| + to] == b[from..to]
  {
    assert (a + b + c)[|a| + from..|a| + to] == b[from..to];
  }
}
