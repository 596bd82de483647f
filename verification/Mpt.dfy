/**
 The Merkle-Patricia proof walker of the ENS proof checker (tools/ens_proof_check.py).

 `Get` is `mpt_get` as a function of its inputs, with Python's own exceptions as errors; `MptGet`
 is the loop the source runs, with the counters it keeps. `Trie` is what a proof is a proof of:
 the tree itself, with plain lookup. The hash is any function to 32 bytes.

 `AcceptsExactly` is the main result: against the root of a trie the walker accepts one proof and
 no other, and what it then answers is what lookup answers. `SoundOrCollision` states the same
 with no assumption on the hash at all.
 */
module Mpt {
  import opened Bytes
  import opened Rlp

  type Nibble = n: int | 0 <= n < 16

  type Path = seq<Nibble>

  type Hash = Bytes -> Bytes

  ghost predicate Digests32(h: Hash) {
    forall b: Bytes :: |h(b)| == 32
  }

  // ---------------------------------------------------------------- nibbles and hex-prefix

  function Nibbles(b: Bytes): (ns: Path)
    ensures |ns| == 2 * |b|
  {
    if b == [] then [] else [b[0] / 16, b[0] % 16] + Nibbles(b[1..])
  }

  function Pack(ns: Path): Bytes
    requires |ns| % 2 == 0
  {
    if ns == [] then [] else [ns[0] as int * 16 + ns[1] as int] + Pack(ns[2..])
  }

  lemma {:induction false} NibblesPack(ns: Path)
    requires |ns| % 2 == 0
    ensures Nibbles(Pack(ns)) == ns
  {
    if ns != [] {
      NibblesPack(ns[2..]);
      assert ns == [ns[0], ns[1]] + ns[2..];
    }
  }

  method NibblesOf(b: Bytes) returns (out: Path)
    ensures out == Nibbles(b)
  {
    out := [];
    for i := 0 to |b|
      invariant out + Nibbles(b[i..]) == Nibbles(b)
    {
      out := out + [b[i] / 16, b[i] % 16];
      assert b[i..][1..] == b[i + 1..];
    }
    assert b[|b|..] == [];
  }

  /** The hex-prefix form of a path segment. */
  function HexPrefix(seg: Path, leaf: bool): Bytes {
    var kind: Nibble := if leaf then 2 else 0;
    if |seg| % 2 == 1 then Pack([kind + 1] + seg) else Pack([kind, 0] + seg)
  }

  // ---------------------------------------------------------------- the walker

  datatype Refusal =
    | BadReference | EndsEarly | HashMismatch | BadRlp(rlp: Rlp.Error) | EndsAtBranch | BadFlag
    | LeafPathLength | BadNode | Unused | NotCanonicalWord
    | TypeError | IndexError  // what Python raises where the source does not look

  datatype Outcome<+T> = Accept(value: T) | Refuse(error: Refusal)

  datatype Step =
    | Descend(ref: Item, path: Path)
    | Done(answer: Option<Item>)
    | Stop(error: Refusal)

  /** What one node says about a path: the body of the loop once the node is known. */
  function NodeStep(node: Item, path: Path): (s: Step)
    ensures s.Descend? ==> node.List? && exists i :: 0 <= i < |node.xs| && node.xs[i] == s.ref
  {
    match node
    case Str(b) =>
      if |b| == 17 then if path == [] then Stop(EndsAtBranch) else Stop(TypeError)
      else if |b| == 2 then Stop(TypeError)
      else Stop(BadNode)
    case List(xs) =>
      if |xs| == 17 then BranchStep(xs, path)
      else if |xs| == 2 then SegmentStep(xs, path)
      else Stop(BadNode)
  }

  function BranchStep(xs: seq<Item>, path: Path): (s: Step)
    requires |xs| == 17
    ensures s.Descend? ==> path != [] && s.ref == xs[path[0]]
  {
    if path == [] then Stop(EndsAtBranch)
    else if xs[path[0]] == Str([]) then Done(None)
    else Descend(xs[path[0]], path[1..])
  }

  function SegmentStep(xs: seq<Item>, path: Path): (s: Step)
    requires |xs| == 2
    ensures s.Descend? ==> s.ref == xs[1]
  {
    if xs[0].List? then Stop(if xs[0].xs == [] then IndexError else TypeError)
    else if xs[0].b == [] then Stop(IndexError)
    else
      var hp := Nibbles(xs[0].b);
      var flag := hp[0];
      var seg := if flag % 2 == 1 then hp[1..] else hp[2..];
      if flag > 3 then Stop(BadFlag)
      else if !(seg <= path) then Done(None)
      else if flag >= 2 then if |seg| != |path| then Stop(LeafPathLength) else Done(Some(xs[1]))
      else Descend(xs[1], path[|seg|..])
  }

  /** From a reference: an embedded node is taken as it is, a hash opens the next proof node. */
  function Walk(h: Hash, ref: Item, path: Path, proof: seq<Bytes>, used: nat): Outcome<Option<Item>>
    requires used <= |proof|
    decreases |proof| - used, ref, 1
  {
    match ref
    case List(_) => Visit(h, ref, path, proof, used)
    case Str(digest) =>
      if |digest| != 32 then Refuse(BadReference)
      else if used >= |proof| then Refuse(EndsEarly)
      else if h(proof[used]) != digest then Refuse(HashMismatch)
      else match Rlp.Decode(proof[used])
        case Err(e) => Refuse(BadRlp(e))
        case Ok(node) => Visit(h, node, path, proof, used + 1)
  }

  function Visit(h: Hash, node: Item, path: Path, proof: seq<Bytes>, used: nat): Outcome<Option<Item>>
    requires used <= |proof|
    decreases |proof| - used, node, 0
  {
    match NodeStep(node, path)
    case Stop(e) => Refuse(e)
    case Done(answer) => if used != |proof| then Refuse(Unused) else Accept(answer)
    case Descend(ref, rest) => Walk(h, ref, rest, proof, used)
  }

  /** `mpt_get`. */
  function Get(h: Hash, root: Bytes, key: Bytes, proof: seq<Bytes>): Outcome<Option<Item>> {
    Walk(h, Str(root), Nibbles(h(key)), proof, 0)
  }

  // ---------------------------------------------------------------- the loop as it runs

  /** The counters a caller hands to `mpt_get`. */
  class Stats {
    var nodes: nat
    var bytes: nat
    var unique: map<Bytes, nat>

    constructor ()
      ensures nodes == 0 && bytes == 0 && unique == map[]
    {
      nodes, bytes, unique := 0, 0, map[];
    }
  }

  function TotalLength(proof: seq<Bytes>): nat {
    if proof == [] then 0 else TotalLength(proof[..|proof| - 1]) + |proof[|proof| - 1]|
  }

  /** The distinct nodes of a proof, by digest. */
  function Distinct(h: Hash, proof: seq<Bytes>): map<Bytes, nat> {
    if proof == [] then map[]
    else Distinct(h, proof[..|proof| - 1])[h(proof[|proof| - 1]) := |proof[|proof| - 1]|]
  }

  /** The bytes of all nodes, and one entry for each digest among them. */
  lemma {:induction false} CountsAre(h: Hash, proof: seq<Bytes>)
    ensures TotalLength(proof) == |Concat(proof)|
    ensures var d := Distinct(h, proof);
      && (forall k :: 0 <= k < |proof| ==> h(proof[k]) in d)
      && forall key :: key in d ==> exists k :: 0 <= k < |proof| && h(proof[k]) == key && d[key] == |proof[k]|
    decreases |proof|
  {
    if proof != [] {
      var n := |proof| - 1;
      CountsAre(h, proof[..n]);
      assert proof == proof[..n] + [proof[n]];
      forall key | key in Distinct(h, proof)
        ensures exists k :: 0 <= k < |proof| && h(proof[k]) == key && Distinct(h, proof)[key] == |proof[k]|
      {
        if key == h(proof[n]) {
          assert Distinct(h, proof)[key] == |proof[n]|;
        } else {
          var k :| 0 <= k < n && h(proof[..n][k]) == key && Distinct(h, proof[..n])[key] == |proof[..n][k]|;
          assert proof[..n][k] == proof[k];
        }
      }
      forall k | 0 <= k < |proof|
        ensures h(proof[k]) in Distinct(h, proof)
      {
        assert k < n ==> proof[..n][k] == proof[k];
      }
    }
  }

  lemma DistinctStep(h: Hash, base: map<Bytes, nat>, proof: seq<Bytes>, used: nat)
    requires used < |proof|
    ensures base + Distinct(h, proof[..used + 1]) ==
            (base + Distinct(h, proof[..used]))[h(proof[used]) := |proof[used]|]
    ensures TotalLength(proof[..used + 1]) == TotalLength(proof[..used]) + |proof[used]|
  {
    assert proof[..used + 1][..used] == proof[..used];
  }

  /**
   The answer is `Get`'s, and an accepted proof has been counted exactly once, node by node: its
   length, its bytes, and its distinct digests.
   */
  method MptGet(h: Hash, root: Bytes, key: Bytes, proof: seq<Bytes>, stats: Stats)
    returns (r: Outcome<Option<Item>>)
    modifies stats
    ensures r == Get(h, root, key, proof)
    ensures r.Accept? ==> stats.nodes == old(stats.nodes) + |proof|
    ensures r.Accept? ==> stats.bytes == old(stats.bytes) + TotalLength(proof)
    ensures r.Accept? ==> stats.unique == old(stats.unique) + Distinct(h, proof)
  {
    var path := NibblesOf(h(key));
    var ref, used := Str(root), 0;
    while true
      invariant used <= |proof|
      invariant Get(h, root, key, proof) == Walk(h, ref, path, proof, used)
      invariant stats.nodes == old(stats.nodes) + used
      invariant stats.bytes == old(stats.bytes) + TotalLength(proof[..used])
      invariant stats.unique == old(stats.unique) + Distinct(h, proof[..used])
      decreases |proof| - used, ref
    {
      var node := ref;
      if ref.Str? {
        if |ref.b| != 32 {
          return Refuse(BadReference);
        }
        if used >= |proof| {
          return Refuse(EndsEarly);
        }
        var raw := proof[used];
        if h(raw) != ref.b {
          return Refuse(HashMismatch);
        }
        DistinctStep(h, old(stats.unique), proof, used);
        used := used + 1;
        stats.nodes := stats.nodes + 1;
        stats.bytes := stats.bytes + |raw|;
        stats.unique := stats.unique[ref.b := |raw|];
        var decoded := Rlp.RlpDecode(raw);
        if decoded.Err? {
          return Refuse(BadRlp(decoded.error));
        }
        node := decoded.value;
      }
      match NodeStep(node, path) {
        case Stop(e) =>
          return Refuse(e);
        case Done(answer) =>
          if used != |proof| {
            return Refuse(Unused);
          }
          assert proof[..used] == proof;
          return Accept(answer);
        case Descend(next, rest) =>
          ref, path := next, rest;
      }
    }
  }

  // ---------------------------------------------------------------- tries

  /** A trie over paths of one fixed length; `Empty` stands only under a branch, or alone. */
  datatype Trie =
    | Empty
    | Leaf(seg: Path, value: Bytes)
    | Ext(seg: Path, child: Trie)
    | Branch(children: seq<Trie>)

  function Lookup(t: Trie, path: Path): Option<Bytes> {
    match t
    case Empty => None
    case Leaf(seg, value) => if seg == path then Some(value) else None
    case Ext(seg, child) => if seg <= path then Lookup(child, path[|seg|..]) else None
    case Branch(children) =>
      if path != [] && path[0] < |children| then Lookup(children[path[0]], path[1..]) else None
  }

  /** The node a trie hashes as. */
  function NodeItem(h: Hash, t: Trie): Item
    decreases t, 0
  {
    match t
    case Empty => Str([])
    case Leaf(seg, value) => List([Str(HexPrefix(seg, true)), Str(value)])
    case Ext(seg, child) => List([Str(HexPrefix(seg, false)), Ref(h, child)])
    case Branch(children) => List(Refs(h, children) + [Str([])])
  }

  /** How a parent names a child: nothing, the node itself below 32 bytes, otherwise its digest. */
  function Ref(h: Hash, t: Trie): Item
    decreases t, 2
  {
    if t.Empty? then Str([])
    else if |Raw(h, t)| < 32 then NodeItem(h, t)
    else Str(h(Raw(h, t)))
  }

  function Raw(h: Hash, t: Trie): Bytes
    decreases t, 1
  {
    match Rlp.Encode(NodeItem(h, t))
    case None => []
    case Some(e) => e
  }

  function Refs(h: Hash, ts: seq<Trie>): (rs: seq<Item>)
    ensures |rs| == |ts|
    ensures forall i :: 0 <= i < |ts| ==> rs[i] == Ref(h, ts[i])
    decreases ts, 0
  {
    if ts == [] then [] else [Ref(h, ts[0])] + Refs(h, ts[1..])
  }

  /** Every path through `t` has `n` nibbles left, and every node can be encoded. */
  ghost predicate WellFormed(h: Hash, t: Trie, n: nat) {
    && Rlp.Encode(NodeItem(h, t)).Some?
    && (t.Leaf? ==> |t.seg| == n)
    && (t.Ext? ==> |t.seg| <= n && !t.child.Empty? && WellFormed(h, t.child, n - |t.seg|))
    && (t.Branch? ==>
          n > 0 && |t.children| == 16
          && forall i :: 0 <= i < 16 ==> WellFormed(h, t.children[i], n - 1))
  }

  /** The hashed nodes strictly below `t` on the way along `path`. */
  function Below(h: Hash, t: Trie, path: Path): seq<Bytes>
    decreases t, 0
  {
    match t
    case Empty => []
    case Leaf(_, _) => []
    case Ext(seg, child) => if seg <= path then FromRef(h, child, path[|seg|..]) else []
    case Branch(children) =>
      if path != [] && path[0] < |children| then FromRef(h, children[path[0]], path[1..]) else []
  }

  function FromRef(h: Hash, t: Trie, path: Path): seq<Bytes>
    decreases t, 1
  {
    if t.Empty? then []
    else if |Raw(h, t)| < 32 then Below(h, t, path)
    else [Raw(h, t)] + Below(h, t, path)
  }

  /** The one proof of `key`: the root node, then the hashed nodes below it. */
  function ProofFor(h: Hash, t: Trie, key: Bytes): seq<Bytes> {
    [Raw(h, t)] + Below(h, t, Nibbles(h(key)))
  }

  function AsItem(v: Option<Bytes>): Option<Item> {
    match v
    case None => None
    case Some(b) => Some(Str(b))
  }

  /** No proof node collides with a node it would have to stand for. */
  ghost predicate NoCollision(h: Hash, proof: seq<Bytes>, nodes: seq<Bytes>) {
    forall a, b :: a in proof && b in nodes && h(a) == h(b) ==> a == b
  }

  // ---------------------------------------------------------------- acceptance is exact

  lemma HexPrefixReadsBack(seg: Path, leaf: bool)
    ensures var hp := Nibbles(HexPrefix(seg, leaf));
            HexPrefix(seg, leaf) != [] && |hp| >= 2
            && hp[0] == (if leaf then 2 else 0) + |seg| % 2
            && (if hp[0] % 2 == 1 then hp[1..] else hp[2..]) == seg
  {
    var kind: Nibble := if leaf then 2 else 0;
    if |seg| % 2 == 1 {
      NibblesPack([kind + 1] + seg);
    } else {
      NibblesPack([kind, 0] + seg);
    }
  }

  /** What the trie itself does with a path. */
  function TrieStep(h: Hash, t: Trie, path: Path): Step {
    match t
    case Empty => Done(None)
    case Leaf(seg, value) => Done(AsItem(Lookup(t, path)))
    case Ext(seg, child) =>
      if seg <= path then Descend(Ref(h, child), path[|seg|..]) else Done(None)
    case Branch(children) =>
      if path == [] || path[0] >= |children| then Stop(EndsAtBranch)
      else if children[path[0]].Empty? then Done(None)
      else Descend(Ref(h, children[path[0]]), path[1..])
  }

  /** A node says about a path what its trie does. */
  lemma NodeStepIsTrieStep(h: Hash, t: Trie, path: Path)
    requires Digests32(h) && WellFormed(h, t, |path|) && !t.Empty?
    ensures NodeStep(NodeItem(h, t), path) == TrieStep(h, t, path)
  {
    match t
    case Leaf(seg, value) =>
      HexPrefixReadsBack(seg, true);
    case Ext(seg, child) =>
      HexPrefixReadsBack(seg, false);
    case Branch(children) =>
      RefIsEmptyOnlyForEmpty(h, children[path[0]], |path| - 1);
  }

  lemma RefIsEmptyOnlyForEmpty(h: Hash, t: Trie, n: nat)
    requires Digests32(h) && WellFormed(h, t, n)
    ensures Ref(h, t) == Str([]) <==> t.Empty?
  {
  }

  lemma {:induction false} VisitExact(h: Hash, t: Trie, path: Path, proof: seq<Bytes>, used: nat)
    requires Digests32(h) && WellFormed(h, t, |path|) && !t.Empty?
    requires used <= |proof| && NoCollision(h, proof, Below(h, t, path))
    ensures var r := Visit(h, NodeItem(h, t), path, proof, used);
            && (r.Accept? <==> proof[used..] == Below(h, t, path))
            && (r.Accept? ==> r.value == AsItem(Lookup(t, path)))
    decreases t, 0
  {
    NodeStepIsTrieStep(h, t, path);
    match t
    case Leaf(seg, value) =>
    case Ext(seg, child) =>
      if seg <= path {
        WalkExact(h, child, path[|seg|..], proof, used);
      }
    case Branch(children) =>
      if !children[path[0]].Empty? {
        WalkExact(h, children[path[0]], path[1..], proof, used);
      }
  }

  lemma {:induction false} WalkExact(h: Hash, t: Trie, path: Path, proof: seq<Bytes>, used: nat)
    requires Digests32(h) && WellFormed(h, t, |path|) && !t.Empty?
    requires used <= |proof| && NoCollision(h, proof, FromRef(h, t, path))
    ensures var r := Walk(h, Ref(h, t), path, proof, used);
            && (r.Accept? <==> proof[used..] == FromRef(h, t, path))
            && (r.Accept? ==> r.value == AsItem(Lookup(t, path)))
    decreases t, 2
  {
    if |Raw(h, t)| < 32 {
      VisitExact(h, t, path, proof, used);
    } else {
      OpenExact(h, t, path, proof, used);
    }
  }

  /** From a digest: only the node it is the digest of opens it. */
  lemma {:induction false} OpenExact(h: Hash, t: Trie, path: Path, proof: seq<Bytes>, used: nat)
    requires Digests32(h) && WellFormed(h, t, |path|) && !t.Empty?
    requires used <= |proof| && NoCollision(h, proof, [Raw(h, t)] + Below(h, t, path))
    ensures var r := Walk(h, Str(h(Raw(h, t))), path, proof, used);
            && (r.Accept? <==> proof[used..] == [Raw(h, t)] + Below(h, t, path))
            && (r.Accept? ==> r.value == AsItem(Lookup(t, path)))
    decreases t, 1
  {
    var raw, below := Raw(h, t), Below(h, t, path);
    assert raw in [raw] + below;
    assert forall b :: b in below ==> b in [raw] + below;
    if used < |proof| {
      assert proof[used] in proof;
      assert proof[used..] == [proof[used]] + proof[used + 1..];
      if h(proof[used]) == h(raw) {
        Rlp.RoundTrip(NodeItem(h, t), raw);
        VisitExact(h, t, path, proof, used + 1);
        assert proof[used..] == [raw] + below <==> proof[used + 1..] == below;
      }
    }
  }

  /**
   Soundness, completeness and uniqueness in one: against the root of a non-empty trie, `mpt_get`
   accepts `ProofFor` and no other list of byte strings, and its answer is the trie's.
   */
  lemma AcceptsExactly(h: Hash, t: Trie, key: Bytes, proof: seq<Bytes>)
    requires Digests32(h) && WellFormed(h, t, 64) && !t.Empty?
    requires NoCollision(h, proof, ProofFor(h, t, key))
    ensures var r := Get(h, h(Raw(h, t)), key, proof);
            && (r.Accept? <==> proof == ProofFor(h, t, key))
            && (r.Accept? ==> r.value == AsItem(Lookup(t, Nibbles(h(key)))))
  {
    OpenExact(h, t, Nibbles(h(key)), proof, 0);
    assert proof[0..] == proof;
  }

  /** With no assumption on the hash: a wrong answer hands over a collision. */
  lemma SoundOrCollision(h: Hash, t: Trie, key: Bytes, proof: seq<Bytes>) returns (a: Bytes, b: Bytes)
    requires Digests32(h) && WellFormed(h, t, 64) && !t.Empty?
    ensures var r := Get(h, h(Raw(h, t)), key, proof);
            r.Accept? ==>
              || (r.value == AsItem(Lookup(t, Nibbles(h(key)))) && proof == ProofFor(h, t, key))
              || (a != b && h(a) == h(b) && a in proof && b in ProofFor(h, t, key))
  {
    if NoCollision(h, proof, ProofFor(h, t, key)) {
      AcceptsExactly(h, t, key, proof);
      a, b := [], [];
    } else {
      a, b :| a in proof && b in ProofFor(h, t, key) && h(a) == h(b) && a != b;
    }
  }

  // ---------------------------------------------------------------- completeness needs nothing of the hash

  lemma {:induction false} VisitComplete(h: Hash, t: Trie, path: Path, proof: seq<Bytes>, used: nat)
    requires Digests32(h) && WellFormed(h, t, |path|) && !t.Empty?
    requires used <= |proof| && proof[used..] == Below(h, t, path)
    ensures Visit(h, NodeItem(h, t), path, proof, used) == Accept(AsItem(Lookup(t, path)))
    decreases t, 0
  {
    NodeStepIsTrieStep(h, t, path);
    match t
    case Leaf(seg, value) =>
    case Ext(seg, child) =>
      if seg <= path {
        WalkComplete(h, child, path[|seg|..], proof, used);
      }
    case Branch(children) =>
      if !children[path[0]].Empty? {
        WalkComplete(h, children[path[0]], path[1..], proof, used);
      }
  }

  lemma {:induction false} WalkComplete(h: Hash, t: Trie, path: Path, proof: seq<Bytes>, used: nat)
    requires Digests32(h) && WellFormed(h, t, |path|) && !t.Empty?
    requires used <= |proof| && proof[used..] == FromRef(h, t, path)
    ensures Walk(h, Ref(h, t), path, proof, used) == Accept(AsItem(Lookup(t, path)))
    decreases t, 2
  {
    if |Raw(h, t)| < 32 {
      VisitComplete(h, t, path, proof, used);
    } else {
      OpenComplete(h, t, path, proof, used);
    }
  }

  lemma {:induction false} OpenComplete(h: Hash, t: Trie, path: Path, proof: seq<Bytes>, used: nat)
    requires Digests32(h) && WellFormed(h, t, |path|) && !t.Empty?
    requires used <= |proof| && proof[used..] == [Raw(h, t)] + Below(h, t, path)
    ensures Walk(h, Str(h(Raw(h, t))), path, proof, used) == Accept(AsItem(Lookup(t, path)))
    decreases t, 1
  {
    assert proof[used] == proof[used..][0] && proof[used + 1..] == proof[used..][1..];
    Rlp.RoundTrip(NodeItem(h, t), Raw(h, t));
    VisitComplete(h, t, path, proof, used + 1);
  }

  /** Every key of every non-empty trie has its proof, whatever the hash. */
  lemma ProofIsAccepted(h: Hash, t: Trie, key: Bytes)
    requires Digests32(h) && WellFormed(h, t, 64) && !t.Empty?
    ensures Get(h, h(Raw(h, t)), key, ProofFor(h, t, key)) == Accept(AsItem(Lookup(t, Nibbles(h(key)))))
  {
    var proof := ProofFor(h, t, key);
    assert proof[0..] == proof;
    OpenComplete(h, t, Nibbles(h(key)), proof, 0);
  }

  /** Absence from a trie with nothing in it has no proof: every list is refused. */
  lemma EmptyTrieHasNoProof(h: Hash, key: Bytes, proof: seq<Bytes>)
    requires NoCollision(h, proof, [Raw(h, Empty)])
    ensures Get(h, h(Raw(h, Empty)), key, proof).Refuse?
  {
    var raw, path := Raw(h, Empty), Nibbles(h(key));
    assert raw == [0x80];
    var r := Walk(h, Str(h(raw)), path, proof, 0);
    if |h(raw)| == 32 && proof != [] && h(proof[0]) == h(raw) {
      assert proof[0] in proof && raw in [raw];
      Rlp.RoundTrip(Str([]), raw);
      assert r == Visit(h, Str([]), path, proof, 1);
    } else {
      assert r.Refuse?;
    }
  }

  // ---------------------------------------------------------------- storage words

  /** `storage_word`. */
  function StorageWord(h: Hash, root: Bytes, slot: Bytes, proof: seq<Bytes>): Outcome<nat> {
    match Get(h, root, slot, proof)
    case Refuse(e) => Refuse(e)
    case Accept(None) => Accept(0)
    case Accept(Some(List(_))) => Refuse(TypeError)
    case Accept(Some(Str(raw))) =>
      match Rlp.Decode(raw)
      case Err(e) => Refuse(BadRlp(e))
      case Ok(List(_)) => Refuse(NotCanonicalWord)
      case Ok(Str(v)) => if v != [] && v[0] == 0 then Refuse(NotCanonicalWord) else Accept(FromBE(v))
  }

  /** A storage trie keeps the shortest form of each word that is not zero. */
  function StoredForm(n: nat): Option<Bytes> {
    if n == 0 then None else Rlp.Encode(Str(ToBE(n)))
  }

  /** The shortest form is read back. */
  lemma {:induction false} StoredReads(n: nat)
    requires 0 < n < Pow256(32)
    ensures StoredForm(n).Some? && Rlp.Decode(StoredForm(n).value) == Rlp.Ok(Str(ToBE(n)))
  {
    ToBELength(n, 32);
    assert |ToBE(n)| <= 32;
    Rlp.RoundTrip(Str(ToBE(n)), StoredForm(n).value);
  }

  /** A look-up that answers with the stored form of `n` reads as `n`. */
  lemma {:induction false} StorageReads(h: Hash, root: Bytes, slot: Bytes, proof: seq<Bytes>, n: nat)
    requires n < Pow256(32) && Get(h, root, slot, proof) == Accept(AsItem(StoredForm(n)))
    ensures StorageWord(h, root, slot, proof) == Accept(n)
  {
    if n > 0 {
      StoredReads(n);
    }
  }

  /** A slot holding `n` is read as `n`, from its one proof and from nothing else. */
  lemma {:induction false} StorageWordExact(h: Hash, t: Trie, slot: Bytes, proof: seq<Bytes>, n: nat)
    requires Digests32(h) && WellFormed(h, t, 64) && !t.Empty?
    requires NoCollision(h, proof, ProofFor(h, t, slot))
    requires n < Pow256(32) && Lookup(t, Nibbles(h(slot))) == StoredForm(n)
    ensures var r := StorageWord(h, h(Raw(h, t)), slot, proof);
            && (r.Accept? <==> proof == ProofFor(h, t, slot))
            && (r.Accept? ==> r.value == n)
  {
    AcceptsExactly(h, t, slot, proof);
    if proof == ProofFor(h, t, slot) {
      StorageReads(h, h(Raw(h, t)), slot, proof, n);
    }
  }
}
