/**
 The Merkle trees of the descriptor catalogues: the builder (dbgen/src/merkle.rs) and the verifier
 of the device (tx/src/erc20/merkle.rs). The hash is a parameter; where security needs it to be
 free of collisions, the theorems hand out the colliding pair instead of assuming there is none.
 */
module Merkle {
  import opened Bytes

  type Digest = d: Bytes | |d| == 32 witness Zeros(32)

  type Hash = Bytes -> Digest

  function LeafHash(hash: Hash, canonical: Bytes): Digest {
    hash([0x00] + canonical)
  }

  function NodeHash(hash: Hash, left: Digest, right: Digest): Digest {
    hash(NodeInput(left, right))
  }

  function NodeInput(left: Digest, right: Digest): Bytes {
    [0x01] + left + right
  }

  /** Two byte strings that a collision-free hash would tell apart. */
  datatype Collision = Collision(a: Bytes, b: Bytes)

  ghost predicate Collides(hash: Hash, c: Collision) {
    c.a != c.b && hash(c.a) == hash(c.b)
  }

  // ---------------------------------------------------------------- the tree, level by level

  function Pow2(d: nat): (p: nat)
    ensures p >= 1
    decreases d
  {
    if d == 0 then 1 else 2 * Pow2(d - 1)
  }

  /** The smallest depth whose width is at least `n`. */
  function DepthFor(n: nat, d: nat): (depth: nat)
    ensures Pow2(depth) >= n && depth >= d
    ensures depth > d ==> Pow2(depth - 1) < n
    decreases n - Pow2(d)
  {
    if Pow2(d) >= n then d else DepthFor(n, d + 1)
  }

  /** Padded to a power of two by repeating the last leaf. */
  function Padded(leaves: seq<Digest>): (p: seq<Digest>)
    requires leaves != []
    ensures |p| == Pow2(DepthFor(|leaves|, 0)) && leaves <= p
    ensures forall k :: |leaves| <= k < |p| ==> p[k] == leaves[|leaves| - 1]
  {
    leaves + seq(Pow2(DepthFor(|leaves|, 0)) - |leaves|, _ => leaves[|leaves| - 1])
  }

  /** The level above: one node for each pair. */
  function Up(hash: Hash, level: seq<Digest>): (up: seq<Digest>)
    ensures 2 * |up| <= |level| < 2 * |up| + 2
    decreases |level|
  {
    if |level| < 2 then [] else [NodeHash(hash, level[0], level[1])] + Up(hash, level[2..])
  }

  lemma {:induction false} UpAt(hash: Hash, level: seq<Digest>, k: nat)
    requires k < |Up(hash, level)|
    ensures Up(hash, level)[k] == NodeHash(hash, level[2 * k], level[2 * k + 1])
    decreases k
  {
    if k > 0 {
      UpAt(hash, level[2..], k - 1);
    }
  }

  /** The root over a level of width 2^d. */
  function Root(hash: Hash, level: seq<Digest>, d: nat): Digest
    requires |level| == Pow2(d)
    decreases d
  {
    if d == 0 then level[0] else Root(hash, Up(hash, level), d - 1)
  }

  function Levels(hash: Hash, level: seq<Digest>, d: nat): (levels: seq<seq<Digest>>)
    requires |level| == Pow2(d)
    ensures |levels| == d + 1 && levels[0] == level
    decreases d
  {
    if d == 0 then [level] else [level] + Levels(hash, Up(hash, level), d - 1)
  }

  /** `index ^ 1`. */
  function Sibling(index: nat): nat {
    if index % 2 == 0 then index + 1 else index - 1
  }

  /** The siblings on the way up from a leaf. */
  function Proof(hash: Hash, level: seq<Digest>, d: nat, index: nat): (proof: seq<Digest>)
    requires |level| == Pow2(d) && index < |level|
    ensures |proof| == d
    decreases d
  {
    if d == 0 then [] else [level[Sibling(index)]] + Proof(hash, Up(hash, level), d - 1, index / 2)
  }

  /** What the verifier hashes on its way up one level. */
  function StepInput(h: Digest, idx: nat, sib: Digest): Bytes {
    if idx % 2 == 0 then NodeInput(h, sib) else NodeInput(sib, h)
  }

  function Step(hash: Hash, h: Digest, idx: nat, sib: Digest): Digest {
    hash(StepInput(h, idx, sib))
  }

  /** A node's parent is hashed from it and its sibling. */
  lemma ParentOf(hash: Hash, level: seq<Digest>, d: nat, index: nat)
    requires |level| == Pow2(d) && d > 0 && index < |level|
    ensures |Up(hash, level)| == Pow2(d - 1) && index / 2 < Pow2(d - 1) && Sibling(index) < |level|
    ensures Up(hash, level)[index / 2] == Step(hash, level[index], index, level[Sibling(index)])
  {
    UpAt(hash, level, index / 2);
  }

  // ---------------------------------------------------------------- the builder

  /** Leaves pushed until their number is a power of two; `next_power_of_two` gives the target. */
  method Pad(leaves: seq<Digest>) returns (padded: seq<Digest>)
    requires leaves != []
    ensures padded == Padded(leaves)
  {
    var target := Pow2(DepthFor(|leaves|, 0));
    padded := leaves;
    while |padded| < target
      invariant |leaves| <= |padded| <= target && leaves <= padded
      invariant forall k :: |leaves| <= k < |padded| ==> padded[k] == leaves[|leaves| - 1]
    {
      var last := padded[|padded| - 1];
      padded := padded + [last];
    }
  }

  /** `chunks(2)`. */
  method Pair(hash: Hash, cur: seq<Digest>) returns (next: seq<Digest>)
    requires |cur| % 2 == 0
    ensures next == Up(hash, cur)
  {
    next := [];
    ghost var up := Up(hash, cur);
    for k := 0 to |cur| / 2
      invariant |next| == k && forall j :: 0 <= j < k ==> next[j] == up[j]
    {
      UpAt(hash, cur, k);
      next := next + [NodeHash(hash, cur[2 * k], cur[2 * k + 1])];
    }
  }

  lemma NextLevel(hash: Hash, all: seq<seq<Digest>>, k: nat, level: seq<Digest>, d: nat)
    requires |level| == Pow2(d) && d > 0 && k <= |all| && all[k..] == Levels(hash, level, d)
    ensures |Up(hash, level)| == Pow2(d - 1) && k + 1 <= |all|
    ensures all[k] == level && all[k + 1..] == Levels(hash, Up(hash, level), d - 1)
  {
    assert all[k..][0] == all[k] && all[k..][1..] == all[k + 1..];
  }

  /** The levels built so far: the last is `cur`, and what is missing is above it. */
  ghost predicate BuiltTo(hash: Hash, levels: seq<seq<Digest>>, all: seq<seq<Digest>>, cur: seq<Digest>, d: nat) {
    && levels != [] && |cur| == Pow2(d) && |all| == |levels| + d
    && (forall k :: 0 <= k < |levels| ==> levels[k] == all[k])
    && all[|levels| - 1..] == Levels(hash, cur, d)
  }

  lemma BuiltNext(hash: Hash, levels: seq<seq<Digest>>, all: seq<seq<Digest>>, cur: seq<Digest>, d: nat)
    requires BuiltTo(hash, levels, all, cur, d) && d > 0
    ensures BuiltTo(hash, levels + [Up(hash, cur)], all, Up(hash, cur), d - 1)
  {
    NextLevel(hash, all, |levels| - 1, cur, d);
    assert all[|levels|..][0] == all[|levels|];
  }

  lemma {:induction false} BuiltStart(hash: Hash, cur: seq<Digest>, d: nat)
    requires |cur| == Pow2(d)
    ensures BuiltTo(hash, [cur], Levels(hash, cur, d), cur, d)
  {
    assert Levels(hash, cur, d)[0..] == Levels(hash, cur, d);
  }

  lemma {:induction false} BuiltEnd(hash: Hash, levels: seq<seq<Digest>>, all: seq<seq<Digest>>,
                                    cur: seq<Digest>, d: nat)
    requires BuiltTo(hash, levels, all, cur, d) && |cur| <= 1
    ensures levels == all
  {
    assert d == 0 && |levels| == |all|;
  }

  method BuildOn(hash: Hash, leaves: seq<Digest>, ghost depth: nat) returns (levels: seq<seq<Digest>>)
    requires |leaves| == Pow2(depth)
    ensures levels == Levels(hash, leaves, depth)
  {
    var cur := leaves;
    ghost var d: nat := depth;
    ghost var all := Levels(hash, cur, d);
    levels := [cur];
    BuiltStart(hash, cur, d);
    while |cur| > 1
      invariant BuiltTo(hash, levels, all, cur, d)
      decreases d
    {
      BuiltNext(hash, levels, all, cur, d);
      var next := Pair(hash, cur);
      levels := levels + [next];
      cur, d := next, d - 1;
    }
    BuiltEnd(hash, levels, all, cur, d);
  }

  /** The whole tree over some leaves. */
  function TreeOf(hash: Hash, leaves: seq<Digest>): (levels: seq<seq<Digest>>)
    requires leaves != []
    ensures |levels| == DepthFor(|leaves|, 0) + 1 && levels[0] == Padded(leaves)
  {
    Levels(hash, Padded(leaves), DepthFor(|leaves|, 0))
  }

  method Build(hash: Hash, leaves: seq<Digest>) returns (levels: seq<seq<Digest>>)
    requires leaves != []
    ensures levels == TreeOf(hash, leaves)
  {
    var padded := Pad(leaves);
    levels := BuildOn(hash, padded, DepthFor(|leaves|, 0));
  }

  /** How far the walk over the levels has come: level `k` is `l`, and the siblings from there on. */
  ghost predicate AtLevel(hash: Hash, levels: seq<seq<Digest>>, all: seq<Digest>, k: nat, l: seq<Digest>, d: nat,
                          index: nat) {
    && k <= |levels| && k <= |all| && |l| == Pow2(d) && index < |l|
    && levels[k..] == Levels(hash, l, d) && all[k..] == Proof(hash, l, d, index)
  }

  lemma LevelUp(hash: Hash, levels: seq<seq<Digest>>, all: seq<Digest>, k: nat, l: seq<Digest>, d: nat, index: nat)
    requires AtLevel(hash, levels, all, k, l, d, index) && d > 0
    ensures k < |levels| && k < |all| && levels[k] == l && Sibling(index) < |l| && all[k] == l[Sibling(index)]
    ensures AtLevel(hash, levels, all, k + 1, Up(hash, l), d - 1, index / 2)
  {
    NextLevel(hash, levels, k, l, d);
    NextSibling(hash, all, k, l, d, index);
  }

  /** `proof`: one sibling from every level but the last. */
  method ProofOf(hash: Hash, levels: seq<seq<Digest>>, i: nat, ghost level: seq<Digest>, ghost depth: nat)
    returns (out: seq<Digest>)
    requires |level| == Pow2(depth) && levels == Levels(hash, level, depth) && i < |level|
    ensures out == Proof(hash, level, depth, i)
  {
    out := [];
    var index: nat := i;
    ghost var l: seq<Digest>, d: nat := level, depth;
    ghost var all := Proof(hash, level, depth, i);
    assert levels[0..] == levels && all[0..] == all;
    for k := 0 to |levels| - 1
      invariant d == depth - k && AtLevel(hash, levels, all, k, l, d, index)
      invariant |out| == k && forall j :: 0 <= j < k ==> out[j] == all[j]
    {
      LevelUp(hash, levels, all, k, l, d, index);
      out := out + [levels[k][Sibling(index)]];
      index := index / 2;
      l, d := Up(hash, l), d - 1;
    }
    assert out == all;
  }

  lemma NextSibling(hash: Hash, all: seq<Digest>, k: nat, level: seq<Digest>, d: nat, index: nat)
    requires |level| == Pow2(d) && d > 0 && index < |level| && k <= |all| && all[k..] == Proof(hash, level, d, index)
    ensures k < |all| && Sibling(index) < |level| && index / 2 < |Up(hash, level)| == Pow2(d - 1)
    ensures all[k] == level[Sibling(index)] && all[k + 1..] == Proof(hash, Up(hash, level), d - 1, index / 2)
  {
    assert all[k..][0] == all[k] && all[k..][1..] == all[k + 1..];
  }

  // ---------------------------------------------------------------- the verifier

  /** The node after the walk, and what is left of the index. */
  function Climb(hash: Hash, h: Digest, idx: nat, proof: seq<Digest>): (Digest, nat)
    decreases |proof|
  {
    if proof == [] then (h, idx)
    else Climb(hash, Step(hash, h, idx, proof[0]), idx / 2, proof[1..])
  }

  /** The flat proof as digests. */
  function Siblings(proof: Bytes): (sibs: seq<Digest>)
    ensures |sibs| == |proof| / 32
    decreases |proof|
  {
    if |proof| < 32 then [] else [proof[..32]] + Siblings(proof[32..])
  }

  function Flat(sibs: seq<Digest>): (proof: Bytes)
    ensures |proof| == 32 * |sibs|
    decreases |sibs|
  {
    if sibs == [] then [] else sibs[0] + Flat(sibs[1..])
  }

  lemma {:induction false} SiblingsOfFlat(sibs: seq<Digest>)
    ensures Siblings(Flat(sibs)) == sibs
    decreases |sibs|
  {
    if sibs != [] {
      SiblingsOfFlat(sibs[1..]);
      var p := Flat(sibs);
      assert p[..32] == sibs[0] && p[32..] == Flat(sibs[1..]);
    }
  }

  predicate Verifies(hash: Hash, canonical: Bytes, leafIndex: nat, proof: Bytes, depth: nat, root: Digest) {
    |proof| == 32 * depth && Climb(hash, LeafHash(hash, canonical), leafIndex, Siblings(proof)) == (root, 0)
  }

  method VerifyProof(hash: Hash, canonical: Bytes, leafIndex: nat, proof: Bytes, depth: nat, root: Digest)
      returns (ok: bool)
    ensures ok == Verifies(hash, canonical, leafIndex, proof, depth, root)
  {
    if |proof| != 32 * depth {
      return false;
    }
    var h := LeafHash(hash, canonical);
    var idx: nat := leafIndex;
    assert proof[0..] == proof;
    for level := 0 to depth
      invariant Climb(hash, h, idx, Siblings(proof[32 * level..])) ==
          Climb(hash, LeafHash(hash, canonical), leafIndex, Siblings(proof))
    {
      ghost var rest := proof[32 * level..];
      var sib: Digest := proof[32 * level..32 * level + 32];
      assert rest[..32] == sib && rest[32..] == proof[32 * (level + 1)..];
      if idx % 2 == 0 {
        h := NodeHash(hash, h, sib);
      } else {
        h := NodeHash(hash, sib, h);
      }
      idx := idx / 2;
    }
    ok := idx == 0 && h == root;
  }

  // ---------------------------------------------------------------- completeness

  /** The proof of a leaf climbs to the root. */
  lemma {:induction false} ProofClimbs(hash: Hash, level: seq<Digest>, d: nat, index: nat)
    requires |level| == Pow2(d) && index < |level|
    ensures Climb(hash, level[index], index, Proof(hash, level, d, index)) == (Root(hash, level, d), 0)
    decreases d
  {
    if d > 0 {
      ParentOf(hash, level, d, index);
      ProofClimbs(hash, Up(hash, level), d - 1, index / 2);
      ProofTail(hash, level, d, index);
    }
  }

  lemma ProofTail(hash: Hash, level: seq<Digest>, d: nat, index: nat)
    requires |level| == Pow2(d) && d > 0 && index < |level|
    ensures |Up(hash, level)| == Pow2(d - 1) && index / 2 < Pow2(d - 1) && Sibling(index) < |level|
    ensures Proof(hash, level, d, index)[0] == level[Sibling(index)]
    ensures Proof(hash, level, d, index)[1..] == Proof(hash, Up(hash, level), d - 1, index / 2)
  {
    ParentOf(hash, level, d, index);
  }

  function LeafHashes(hash: Hash, data: seq<Bytes>): (leaves: seq<Digest>)
    ensures |leaves| == |data| && forall k :: 0 <= k < |data| ==> leaves[k] == LeafHash(hash, data[k])
  {
    seq(|data|, k requires 0 <= k < |data| => LeafHash(hash, data[k]))
  }

  function Depth(data: seq<Bytes>): nat {
    DepthFor(|data|, 0)
  }

  function RootOf(hash: Hash, data: seq<Bytes>): Digest
    requires data != []
  {
    Root(hash, Padded(LeafHashes(hash, data)), Depth(data))
  }

  function ProofFor(hash: Hash, data: seq<Bytes>, i: nat): (proof: seq<Digest>)
    requires i < |data|
    ensures |proof| == Depth(data)
  {
    Proof(hash, Padded(LeafHashes(hash, data)), Depth(data), i)
  }

  /** Every entry verifies against the root with the proof that the builder makes for it. */
  lemma ProofVerifies(hash: Hash, data: seq<Bytes>, i: nat)
    requires i < |data|
    ensures Verifies(hash, data[i], i, Flat(ProofFor(hash, data, i)), Depth(data), RootOf(hash, data))
  {
    ProofClimbs(hash, Padded(LeafHashes(hash, data)), Depth(data), i);
    SiblingsOfFlat(ProofFor(hash, data, i));
  }

  // ---------------------------------------------------------------- soundness

  /** A node that the verifier hashes on the walk. */
  ghost predicate OnWalk(hash: Hash, h: Digest, idx: nat, proof: seq<Digest>, x: Bytes)
    decreases |proof|
  {
    proof != []
    && (x == StepInput(h, idx, proof[0]) || OnWalk(hash, Step(hash, h, idx, proof[0]), idx / 2, proof[1..], x))
  }

  /** A node that the builder hashes over a level. */
  ghost predicate InTree(hash: Hash, level: seq<Digest>, d: nat, y: Bytes)
    requires |level| == Pow2(d)
    decreases d
  {
    d > 0
    && ((exists k: nat :: k < |Up(hash, level)| && y == NodeInput(level[2 * k], level[2 * k + 1]))
        || InTree(hash, Up(hash, level), d - 1, y))
  }

  lemma PairIsHashed(hash: Hash, level: seq<Digest>, d: nat, k: nat)
    requires |level| == Pow2(d) && d > 0 && k < |Up(hash, level)|
    ensures Up(hash, level)[k] == NodeHash(hash, level[2 * k], level[2 * k + 1])
    ensures InTree(hash, level, d, NodeInput(level[2 * k], level[2 * k + 1]))
  {
    UpAt(hash, level, k);
  }

  /** Equal node inputs have equal children. */
  lemma InputsAgree(a: Digest, b: Digest, c: Digest, d: Digest)
    requires NodeInput(a, b) == NodeInput(c, d)
    ensures a == c && b == d
  {
    var x, y := NodeInput(a, b), NodeInput(c, d);
    assert x[1..33] == a && y[1..33] == c && x[33..] == b && y[33..] == d;
  }

  /** A parent's hash names its children, or the two inputs collide. */
  lemma ChildrenOf(hash: Hash, level: seq<Digest>, d: nat, h: Digest, idx: nat, sib: Digest) returns (clash: Collision)
    requires |level| == Pow2(d) && d > 0 && idx / 2 < |Up(hash, level)|
    requires Up(hash, level)[idx / 2] == Step(hash, h, idx, sib)
    ensures idx < |level| && Sibling(idx) < |level|
    ensures clash.a == StepInput(h, idx, sib) && InTree(hash, level, d, clash.b)
    ensures Collides(hash, clash) || (level[idx] == h && level[Sibling(idx)] == sib)
  {
    var k := idx / 2;
    assert idx == 2 * k || idx == 2 * k + 1;
    PairIsHashed(hash, level, d, k);
    clash := Collision(StepInput(h, idx, sib), NodeInput(level[2 * k], level[2 * k + 1]));
    if clash.a == clash.b {
      if idx % 2 == 0 {
        InputsAgree(h, sib, level[2 * k], level[2 * k + 1]);
      } else {
        InputsAgree(sib, h, level[2 * k], level[2 * k + 1]);
      }
    }
  }

  /** The pair is hashed on the walk and in the tree. */
  ghost predicate Meets(hash: Hash, level: seq<Digest>, d: nat, h: Digest, idx: nat, proof: seq<Digest>, c: Collision)
    requires |level| == Pow2(d)
  {
    Collides(hash, c) && OnWalk(hash, h, idx, proof, c.a) && InTree(hash, level, d, c.b)
  }

  lemma MeetsBelow(hash: Hash, level: seq<Digest>, d: nat, h: Digest, idx: nat, proof: seq<Digest>, c: Collision)
    requires |level| == Pow2(d) && d > 0 && proof != [] && |Up(hash, level)| == Pow2(d - 1)
    requires Meets(hash, Up(hash, level), d - 1, Step(hash, h, idx, proof[0]), idx / 2, proof[1..], c)
    ensures Meets(hash, level, d, h, idx, proof, c)
  {
  }

  /** If the rest of the walk follows the path above, so does its first step, or the step meets a collision. */
  lemma FirstStep(hash: Hash, level: seq<Digest>, d: nat, h: Digest, idx: nat, proof: seq<Digest>)
      returns (clash: Collision)
    requires |level| == Pow2(d) && d > 0 && proof != [] && |Up(hash, level)| == Pow2(d - 1)
    requires idx / 2 < |Up(hash, level)| && Up(hash, level)[idx / 2] == Step(hash, h, idx, proof[0])
    requires proof[1..] == Proof(hash, Up(hash, level), d - 1, idx / 2)
    ensures Meets(hash, level, d, h, idx, proof, clash)
         || (idx < |level| && level[idx] == h && proof == Proof(hash, level, d, idx))
  {
    clash := ChildrenOf(hash, level, d, h, idx, proof[0]);
    ProofTail(hash, level, d, idx);
    assert proof == [proof[0]] + proof[1..];
  }

  /** A walk as long as the tree is deep that ends at the root started at the leaf it names, with its proof. */
  lemma {:induction false} WalkIsPath(hash: Hash, level: seq<Digest>, d: nat, h: Digest, idx: nat, proof: seq<Digest>)
    returns (clash: Collision)
    requires |level| == Pow2(d) && |proof| == d && Climb(hash, h, idx, proof) == (Root(hash, level, d), 0)
    ensures Meets(hash, level, d, h, idx, proof, clash)
         || (idx < |level| && level[idx] == h && proof == Proof(hash, level, d, idx))
    decreases d
  {
    if d == 0 {
      clash := Collision([], []);
    } else {
      var up, next := Up(hash, level), Step(hash, h, idx, proof[0]);
      HalfLevel(hash, level, d);
      clash := WalkIsPath(hash, up, d - 1, next, idx / 2, proof[1..]);
      if Meets(hash, up, d - 1, next, idx / 2, proof[1..], clash) {
        MeetsBelow(hash, level, d, h, idx, proof, clash);
      } else {
        clash := FirstStep(hash, level, d, h, idx, proof);
      }
    }
  }

  lemma HalfLevel(hash: Hash, level: seq<Digest>, d: nat)
    requires |level| == Pow2(d) && d > 0
    ensures |Up(hash, level)| == Pow2(d - 1)
  {
  }

  // ---------------------------------------------------------------- proofs of another length

  /** The level `n` steps above. */
  function Above(hash: Hash, level: seq<Digest>, n: nat): seq<Digest>
    decreases n
  {
    if n == 0 then level else Above(hash, Up(hash, level), n - 1)
  }

  lemma {:induction false} WidthAbove(hash: Hash, level: seq<Digest>, m: nat, n: nat)
    requires |level| == Pow2(m + n)
    ensures |Above(hash, level, n)| == Pow2(m)
    decreases n
  {
    if n > 0 {
      HalfLevel(hash, level, m + n);
      WidthAbove(hash, Up(hash, level), m, n - 1);
    }
  }

  lemma RootUp(hash: Hash, level: seq<Digest>, d: nat)
    requires |level| == Pow2(d) && d > 0
    ensures |Up(hash, level)| == Pow2(d - 1) && Root(hash, level, d) == Root(hash, Up(hash, level), d - 1)
  {
  }

  lemma {:induction false} RootAbove(hash: Hash, level: seq<Digest>, m: nat, n: nat)
    requires |level| == Pow2(m + n) && |Above(hash, level, n)| == Pow2(m)
    ensures Root(hash, Above(hash, level, n), m) == Root(hash, level, m + n)
    decreases n
  {
    if n > 0 {
      RootUp(hash, level, m + n);
      RootAbove(hash, Up(hash, level), m, n - 1);
    }
  }

  lemma InTreeUp(hash: Hash, level: seq<Digest>, d: nat, y: Bytes)
    requires |level| == Pow2(d) && d > 0 && |Up(hash, level)| == Pow2(d - 1) && InTree(hash, Up(hash, level), d - 1, y)
    ensures InTree(hash, level, d, y)
  {
  }

  lemma {:induction false} InTreeAbove(hash: Hash, level: seq<Digest>, m: nat, n: nat, y: Bytes)
    requires |level| == Pow2(m + n) && |Above(hash, level, n)| == Pow2(m) && InTree(hash, Above(hash, level, n), m, y)
    ensures InTree(hash, level, m + n, y)
    decreases n
  {
    if n > 0 {
      HalfLevel(hash, level, m + n);
      InTreeAbove(hash, Up(hash, level), m, n - 1, y);
      InTreeUp(hash, level, m + n, y);
    }
  }

  /** Everything above the leaves is a node hash. */
  lemma {:induction false} AboveIsNodes(hash: Hash, level: seq<Digest>, m: nat, n: nat, k: nat)
      returns (a: Digest, b: Digest)
    requires |level| == Pow2(m + n) && n > 0 && k < |Above(hash, level, n)|
    ensures Above(hash, level, n)[k] == NodeHash(hash, a, b) && InTree(hash, level, m + n, NodeInput(a, b))
    decreases n
  {
    HalfLevel(hash, level, m + n);
    if n == 1 {
      assert Above(hash, level, 1) == Up(hash, level);
      PairIsHashed(hash, level, m + n, k);
      a, b := level[2 * k], level[2 * k + 1];
    } else {
      a, b := AboveIsNodes(hash, Up(hash, level), m, n - 1, k);
      InTreeUp(hash, level, m + n, NodeInput(a, b));
    }
  }

  lemma {:induction false} ClimbInTwo(hash: Hash, h: Digest, idx: nat, proof: seq<Digest>, n: nat)
    requires n <= |proof|
    ensures var (g, k) := Climb(hash, h, idx, proof[..n]);
      Climb(hash, h, idx, proof) == Climb(hash, g, k, proof[n..])
    decreases |proof|
  {
    if n == 0 {
      assert proof[0..] == proof;
    } else {
      ClimbInTwo(hash, Step(hash, h, idx, proof[0]), idx / 2, proof[1..], n - 1);
      assert proof[..n][1..] == proof[1..][..n - 1] && proof[1..][n - 1..] == proof[n..];
    }
  }

  lemma {:induction false} WalkInTwo(hash: Hash, h: Digest, idx: nat, proof: seq<Digest>, n: nat, x: Bytes)
    requires n <= |proof|
    requires OnWalk(hash, h, idx, proof[..n], x)
          || var (g, k) := Climb(hash, h, idx, proof[..n]); OnWalk(hash, g, k, proof[n..], x)
    ensures OnWalk(hash, h, idx, proof, x)
    decreases |proof|
  {
    if n == 0 {
      assert proof[0..] == proof;
    } else if x != StepInput(h, idx, proof[0]) {
      assert proof[..n][1..] == proof[1..][..n - 1] && proof[1..][n - 1..] == proof[n..];
      WalkInTwo(hash, Step(hash, h, idx, proof[0]), idx / 2, proof[1..], n - 1, x);
    }
  }

  /** After a step the walk stands on a node hash. */
  lemma {:induction false} ClimbIsNode(hash: Hash, h: Digest, idx: nat, proof: seq<Digest>)
      returns (a: Digest, b: Digest)
    requires proof != []
    ensures Climb(hash, h, idx, proof).0 == NodeHash(hash, a, b) && OnWalk(hash, h, idx, proof, NodeInput(a, b))
    decreases |proof|
  {
    if |proof| == 1 {
      if idx % 2 == 0 {
        a, b := h, proof[0];
      } else {
        a, b := proof[0], h;
      }
    } else {
      a, b := ClimbIsNode(hash, Step(hash, h, idx, proof[0]), idx / 2, proof[1..]);
    }
  }

  /** What the verifier hashes for a bundle. */
  ghost predicate WalkHashes(hash: Hash, canonical: Bytes, idx: nat, proof: seq<Digest>, x: Bytes) {
    x == [0x00] + canonical || OnWalk(hash, LeafHash(hash, canonical), idx, proof, x)
  }

  /** What the builder hashes for a catalogue. */
  ghost predicate TreeHashes(hash: Hash, data: seq<Bytes>, y: Bytes)
    requires data != []
  {
    (exists k: nat :: k < |data| && y == [0x00] + data[k])
    || InTree(hash, Padded(LeafHashes(hash, data)), Depth(data), y)
  }

  /** A collision between the bundle and the catalogue. */
  ghost predicate Forged(hash: Hash, data: seq<Bytes>, canonical: Bytes, idx: nat, proof: seq<Digest>)
    requires data != []
  {
    exists x, y :: WalkHashes(hash, canonical, idx, proof, x) && TreeHashes(hash, data, y)
      && Collides(hash, Collision(x, y))
  }

  lemma LeafIsNoNode(canonical: Bytes, a: Digest, b: Digest)
    ensures [0x00] + canonical != NodeInput(a, b)
  {
    assert ([0x00] + canonical)[0] == 0x00 && NodeInput(a, b)[0] == 0x01;
  }

  lemma Raised(hash: Hash, level: seq<Digest>, m: nat, n: nat) returns (mid: seq<Digest>)
    requires |level| == Pow2(m + n)
    ensures mid == Above(hash, level, n) && |mid| == Pow2(m) && Root(hash, mid, m) == Root(hash, level, m + n)
  {
    mid := Above(hash, level, n);
    WidthAbove(hash, level, m, n);
    RootAbove(hash, level, m, n);
  }

  /** A proof shorter than the tree is deep would take a node for a leaf. */
  lemma ShortProof(hash: Hash, level: seq<Digest>, m: nat, n: nat, canonical: Bytes, idx: nat, proof: seq<Digest>)
    returns (clash: Collision)
    requires n > 0 && |proof| == m && |level| == Pow2(m + n)
    requires Climb(hash, LeafHash(hash, canonical), idx, proof) == (Root(hash, level, m + n), 0)
    ensures Collides(hash, clash) && WalkHashes(hash, canonical, idx, proof, clash.a)
        && InTree(hash, level, m + n, clash.b)
  {
    var mid := Raised(hash, level, m, n);
    clash := WalkIsPath(hash, mid, m, LeafHash(hash, canonical), idx, proof);
    if Meets(hash, mid, m, LeafHash(hash, canonical), idx, proof, clash) {
      InTreeAbove(hash, level, m, n, clash.b);
    } else {
      var a, b := AboveIsNodes(hash, level, m, n, idx);
      LeafIsNoNode(canonical, a, b);
      clash := Collision([0x00] + canonical, NodeInput(a, b));
    }
  }

  lemma PaddedIsLeaf(hash: Hash, data: seq<Bytes>, k: nat) returns (leaf: Bytes)
    requires data != [] && k < |Padded(LeafHashes(hash, data))|
    ensures leaf == data[if k < |data| then k else |data| - 1] && TreeHashes(hash, data, [0x00] + leaf)
    ensures Padded(LeafHashes(hash, data))[k] == LeafHash(hash, leaf)
  {
    var i := if k < |data| then k else |data| - 1;
    leaf := data[i];
    var leaves := LeafHashes(hash, data);
    if k < |data| {
      assert leaves <= Padded(leaves);
    }
  }

  lemma LeafForNode(hash: Hash, data: seq<Bytes>, canonical: Bytes, idx: nat, proof: seq<Digest>, n: nat, k: nat)
    requires data != [] && 0 < n <= |proof| && k < |Padded(LeafHashes(hash, data))|
    requires Climb(hash, LeafHash(hash, canonical), idx, proof[..n]).0 == Padded(LeafHashes(hash, data))[k]
    ensures Forged(hash, data, canonical, idx, proof)
  {
    var h := LeafHash(hash, canonical);
    var a, b := ClimbIsNode(hash, h, idx, proof[..n]);
    WalkInTwo(hash, h, idx, proof, n, NodeInput(a, b));
    var leaf := PaddedIsLeaf(hash, data, k);
    LeafIsNoNode(leaf, a, b);
    var clash := Collision(NodeInput(a, b), [0x00] + leaf);
    assert WalkHashes(hash, canonical, idx, proof, clash.a) && TreeHashes(hash, data, clash.b);
  }

  /** A longer one would take a leaf for a node. */
  lemma LongProof(hash: Hash, data: seq<Bytes>, canonical: Bytes, idx: nat, proof: seq<Digest>)
    requires data != [] && |proof| > Depth(data)
    requires Climb(hash, LeafHash(hash, canonical), idx, proof) == (RootOf(hash, data), 0)
    ensures Forged(hash, data, canonical, idx, proof)
  {
    var level, d, h := Padded(LeafHashes(hash, data)), Depth(data), LeafHash(hash, canonical);
    var n := |proof| - d;
    var (g, k) := Climb(hash, h, idx, proof[..n]);
    ClimbInTwo(hash, h, idx, proof, n);
    var clash := WalkIsPath(hash, level, d, g, k, proof[n..]);
    if Meets(hash, level, d, g, k, proof[n..], clash) {
      WalkInTwo(hash, h, idx, proof, n, clash.a);
      assert WalkHashes(hash, canonical, idx, proof, clash.a) && TreeHashes(hash, data, clash.b);
    } else {
      LeafForNode(hash, data, canonical, idx, proof, n, k);
    }
  }

  /** A proof as long as the tree is deep. */
  lemma ExactProof(hash: Hash, data: seq<Bytes>, canonical: Bytes, idx: nat, proof: seq<Digest>)
    requires data != [] && |proof| == Depth(data)
    requires Climb(hash, LeafHash(hash, canonical), idx, proof) == (RootOf(hash, data), 0)
    ensures Forged(hash, data, canonical, idx, proof)
         || (idx < Pow2(Depth(data)) && canonical == data[if idx < |data| then idx else |data| - 1]
             && (idx < |data| ==> proof == ProofFor(hash, data, idx)))
  {
    var level, d, h := Padded(LeafHashes(hash, data)), Depth(data), LeafHash(hash, canonical);
    var clash := WalkIsPath(hash, level, d, h, idx, proof);
    if Meets(hash, level, d, h, idx, proof, clash) {
      assert WalkHashes(hash, canonical, idx, proof, clash.a) && TreeHashes(hash, data, clash.b);
    } else {
      var leaf := PaddedIsLeaf(hash, data, idx);
      var x, y := [0x00] + canonical, [0x00] + leaf;
      if x == y {
        assert canonical == x[1..] && leaf == y[1..];
      } else {
        assert WalkHashes(hash, canonical, idx, proof, x) && Collides(hash, Collision(x, y));
      }
    }
  }

  /**
   Whatever index, depth and proof bytes come with it, data that verifies against the root of a
   catalogue is the entry at that index (or the last one, repeated as padding), with the one proof of
   that index; anything else shows two different inputs of one hash, one hashed for the bundle and
   one for the catalogue.
   */
  lemma VerifiedIsAnEntry(hash: Hash, data: seq<Bytes>, canonical: Bytes, idx: nat, proof: Bytes, depth: nat)
    requires data != [] && Verifies(hash, canonical, idx, proof, depth, RootOf(hash, data))
    ensures Forged(hash, data, canonical, idx, Siblings(proof))
         || (depth == Depth(data) && idx < Pow2(depth) && canonical == data[if idx < |data| then idx else |data| - 1]
             && (idx < |data| ==> Siblings(proof) == ProofFor(hash, data, idx)))
  {
    var d, sibs := Depth(data), Siblings(proof);
    if |sibs| < d {
      var clash := ShortProof(hash, Padded(LeafHashes(hash, data)), |sibs|, d - |sibs|, canonical, idx, sibs);
      assert WalkHashes(hash, canonical, idx, sibs, clash.a) && TreeHashes(hash, data, clash.b);
    } else if |sibs| > d {
      LongProof(hash, data, canonical, idx, sibs);
    } else {
      ExactProof(hash, data, canonical, idx, sibs);
    }
  }
}
