/** The catalogue blob as the descriptor compiler lays it out (dbgen/src/erc7730.rs), and what a look-up finds in it. */
module CatalogueWriter {
  import opened Bytes
  import opened Catalogue
  import opened Merkle

  /** An emitted descriptor. */
  datatype Record = Record(chain: nat, contract: Bytes, typeHash: Bytes, kind: Byte, ir: Bytes)

  /** `u64`, `[u8; 20]` and `[u8; 32]`. */
  predicate Typed(r: Record) {
    r.chain < Pow256(8) && |r.contract| == 20 && |r.typeHash| == 32
  }

  const U32: nat := 0x1_0000_0000

  // ---------------------------------------------------------------- the blob

  function Irs(records: seq<Record>): (irs: seq<Bytes>)
    ensures |irs| == |records| && forall k :: 0 <= k < |irs| ==> irs[k] == records[k].ir
  {
    seq(|records|, k requires 0 <= k < |records| => records[k].ir)
  }

  /** Where the IR of record `k` starts in the pool. */
  function IrOff(records: seq<Record>, k: nat): nat
    requires k <= |records|
  {
    |Concat(Irs(records)[..k])|
  }

  /** What the 72 bytes of a row say. */
  ghost predicate IsRow(row: Bytes, r: Record, irOff: nat) {
    && |row| == ENTRY_LEN
    && FromLE(row[0..8]) == r.chain && row[8..28] == r.contract && row[28..60] == r.typeHash
    && row[60] == r.kind && row[61..64] == Zeros(3)
    && FromLE(row[64..68]) == irOff && FromLE(row[68..72]) == |r.ir|
  }

  ghost predicate AllTyped(records: seq<Record>) {
    forall k :: 0 <= k < |records| ==> Typed(records[k])
  }

  ghost predicate AreRows(rows: seq<Bytes>, records: seq<Record>) {
    |rows| == |records| && forall k :: 0 <= k < |rows| ==> IsRow(rows[k], records[k], IrOff(records, k))
  }

  function ProofsOf(hash: Hash, irs: seq<Bytes>): (proofs: seq<Bytes>)
    ensures |proofs| == |irs| && forall k :: 0 <= k < |irs| ==> proofs[k] == Flat(ProofFor(hash, irs, k))
  {
    seq(|irs|, k requires 0 <= k < |irs| => Flat(ProofFor(hash, irs, k)))
  }

  function PoolOff(records: seq<Record>): nat {
    HEADER_LEN + |records| * ENTRY_LEN
  }

  function ProofsOff(records: seq<Record>): nat {
    PoolOff(records) + |Concat(Irs(records))|
  }

  /** What the 32 bytes of the header say. */
  ghost predicate IsHeader(h: Bytes, count: nat, poolOff: nat, poolSize: nat, depth: nat, proofsOff: nat) {
    && |h| == 32 && h[..4] == [0x50, 0x37, 0x33, 0x30] && FromLE(h[4..8]) == 1 && FromLE(h[8..12]) == 0
    && FromLE(h[12..16]) == count && FromLE(h[16..20]) == poolOff && FromLE(h[20..24]) == poolSize
    && FromLE(h[24..28]) == depth && FromLE(h[28..32]) == proofsOff
  }

  datatype Layout = Layout(header: Bytes, rows: seq<Bytes>)

  ghost predicate LaysOut(l: Layout, records: seq<Record>) {
    && IsHeader(l.header, |records|, PoolOff(records), |Concat(Irs(records))|, Depth(Irs(records)), ProofsOff(records))
    && AreRows(l.rows, records)
  }

  /** Header, rows, pool, proofs. */
  function Blob(hash: Hash, irs: seq<Bytes>, l: Layout): Bytes {
    l.header + Concat(l.rows) + Concat(irs) + Concat(ProofsOf(hash, irs))
  }

  // ---------------------------------------------------------------- the writer

  function LE32(n: nat): (s: Bytes)
    requires n < U32
    ensures |s| == 4 && FromLE(s) == n
  {
    U32Is();
    LittleEndianRoundTrip(n, 4);
    ToLE(n, 4)
  }

  lemma U32Is()
    ensures Pow256(4) == U32
  {
  }

  lemma HeaderFields(a: Bytes, b: Bytes, c: Bytes, d: Bytes, e: Bytes, f: Bytes, g: Bytes)
    requires |a| == |b| == |c| == |d| == |e| == |f| == |g| == 4
    ensures var h := MAGIC + a + b + c + d + e + f + g;
      && |h| == HEADER_LEN && h[..4] == MAGIC && h[4..8] == a && h[8..12] == b && h[12..16] == c && h[16..20] == d
      && h[20..24] == e && h[24..28] == f && h[28..32] == g
  {
  }

  method WriteHeader(count: nat, poolOff: nat, poolSize: nat, depth: nat, proofsOff: nat) returns (h: Bytes)
    requires count < U32 && poolOff < U32 && poolSize < U32 && depth < U32 && proofsOff < U32
    ensures IsHeader(h, count, poolOff, poolSize, depth, proofsOff)
  {
    var a, b, c, d, e, f, g := LE32(1), LE32(0), LE32(count), LE32(poolOff), LE32(poolSize), LE32(depth),
        LE32(proofsOff);
    h := MAGIC + a + b + c + d + e + f + g;
    HeaderFields(a, b, c, d, e, f, g);
  }

  lemma RowFields(a: Bytes, r: Record, z: Bytes, b: Bytes, c: Bytes)
    requires |a| == 8 && Typed(r) && z == Zeros(3) && |b| == |c| == 4
    ensures var row := a + r.contract + r.typeHash + [r.kind] + z + b + c;
      && |row| == ENTRY_LEN && row[0..8] == a && row[8..28] == r.contract && row[28..60] == r.typeHash
      && row[60] == r.kind && row[61..64] == z && row[64..68] == b && row[68..72] == c
  {
  }

  method WriteRow(r: Record, irOff: nat) returns (row: Bytes)
    requires Typed(r) && irOff < U32 && |r.ir| < U32
    ensures IsRow(row, r, irOff)
  {
    var a, z, b, c := ToLE(r.chain, 8), Zeros(3), LE32(irOff), LE32(|r.ir|);
    LittleEndianRoundTrip(r.chain, 8);
    row := a + r.contract + r.typeHash + [r.kind] + z + b + c;
    RowFields(a, r, z, b, c);
  }

  lemma IrOffNext(records: seq<Record>, k: nat)
    requires k < |records|
    ensures IrOff(records, 0) == 0 && IrOff(records, k + 1) == IrOff(records, k) + |records[k].ir|
  {
    ConcatNext(Irs(records), k);
    assert Irs(records)[..0] == [];
  }

  lemma OffsetsFit(records: seq<Record>, k: nat)
    requires k < |records|
    ensures IrOff(records, k) + |records[k].ir| <= |Concat(Irs(records))|
  {
    ConcatAt(Irs(records), k);
  }

  /** Row `k`, written with the running offset. */
  method NextRow(records: seq<Record>, k: nat, irOff: nat) returns (row: Bytes)
    requires AllTyped(records) && |Concat(Irs(records))| < U32 && k < |records| && irOff == IrOff(records, k)
    ensures IsRow(row, records[k], IrOff(records, k))
  {
    OffsetsFit(records, k);
    row := WriteRow(records[k], irOff);
  }

  /** The rows written so far. */
  ghost predicate FirstRows(rows: seq<Bytes>, records: seq<Record>) {
    |rows| <= |records| && forall k :: 0 <= k < |rows| ==> IsRow(rows[k], records[k], IrOff(records, k))
  }

  lemma OneMoreRow(rows: seq<Bytes>, records: seq<Record>, row: Bytes)
    requires FirstRows(rows, records) && |rows| < |records|
    requires IsRow(row, records[|rows|], IrOff(records, |rows|))
    ensures FirstRows(rows + [row], records)
  {
    forall k | 0 <= k < |rows| + 1
      ensures IsRow((rows + [row])[k], records[k], IrOff(records, k))
    {
      if k < |rows| {
        assert (rows + [row])[k] == rows[k];
      }
    }
  }

  method WriteRows(records: seq<Record>) returns (rows: seq<Bytes>)
    requires AllTyped(records) && |Concat(Irs(records))| < U32
    ensures AreRows(rows, records)
  {
    rows := [];
    var currentIrOff := 0;
    for k := 0 to |records|
      invariant |rows| == k && (k < |records| ==> currentIrOff == IrOff(records, k))
      invariant FirstRows(rows, records)
    {
      IrOffNext(records, k);
      var row := NextRow(records, k, currentIrOff);
      OneMoreRow(rows, records, row);
      rows := rows + [row];
      currentIrOff := currentIrOff + |records[k].ir|;
    }
  }

  /** Parts appended one by one. */
  method AppendAll(irs: seq<Bytes>, before: Bytes) returns (blob: Bytes)
    ensures blob == before + Concat(irs)
  {
    blob := before;
    AppendEnds(before, irs);
    for k := 0 to |irs|
      invariant blob == before + Concat(irs[..k])
    {
      AppendNext(before, irs, k);
      blob := blob + irs[k];
    }
  }

  method WriteProof(proof: seq<Digest>, before: Bytes) returns (blob: Bytes)
    ensures blob == before + Flat(proof)
  {
    blob := before;
    assert proof[0..] == proof;
    for j := 0 to |proof|
      invariant blob + Flat(proof[j..]) == before + Flat(proof)
    {
      assert proof[j..][1..] == proof[j + 1..];
      Associative(blob, proof[j], Flat(proof[j + 1..]));
      blob := blob + proof[j];
    }
  }

  ghost predicate IsTree(hash: Hash, irs: seq<Bytes>, levels: seq<seq<Digest>>) {
    irs != [] && levels == Levels(hash, Padded(LeafHashes(hash, irs)), Depth(irs))
  }

  /** The proof of entry `k`, appended. */
  method AppendProof(hash: Hash, irs: seq<Bytes>, levels: seq<seq<Digest>>, k: nat, before: Bytes) returns (blob: Bytes)
    requires k < |irs| && IsTree(hash, irs, levels)
    ensures blob == before + ProofsOf(hash, irs)[k]
  {
    var proof := ProofIn(hash, irs, levels, k);
    blob := WriteProof(proof, before);
  }

  method WriteProofs(hash: Hash, irs: seq<Bytes>, levels: seq<seq<Digest>>, before: Bytes) returns (blob: Bytes)
    requires IsTree(hash, irs, levels)
    ensures blob == before + Concat(ProofsOf(hash, irs))
  {
    blob := before;
    ghost var proofs := ProofsOf(hash, irs);
    AppendEnds(before, proofs);
    for k := 0 to |irs|
      invariant blob == before + Concat(proofs[..k])
    {
      AppendNext(before, proofs, k);
      blob := AppendProof(hash, irs, levels, k, blob);
    }
  }

  method ProofIn(hash: Hash, irs: seq<Bytes>, levels: seq<seq<Digest>>, k: nat) returns (proof: seq<Digest>)
    requires k < |irs| && IsTree(hash, irs, levels)
    ensures proof == ProofFor(hash, irs, k)
  {
    proof := ProofOf(hash, levels, k, Padded(LeafHashes(hash, irs)), Depth(irs));
  }

  method TreeFor(hash: Hash, irs: seq<Bytes>) returns (levels: seq<seq<Digest>>, root: Digest)
    requires irs != []
    ensures IsTree(hash, irs, levels) && |levels| == Depth(irs) + 1
    ensures root == RootOf(hash, irs)
  {
    var leaves := LeafHashes(hash, irs);
    levels := Build(hash, leaves);
    TopIsRoot(hash, Padded(leaves), Depth(irs));
    root := levels[|levels| - 1][0];
  }

  method WriteParts(hash: Hash, irs: seq<Bytes>, levels: seq<seq<Digest>>, l: Layout) returns (blob: Bytes)
    requires IsTree(hash, irs, levels)
    ensures blob == Blob(hash, irs, l)
  {
    blob := AppendAll(l.rows, l.header);
    blob := AppendAll(irs, blob);
    blob := WriteProofs(hash, irs, levels, blob);
  }

  method WriteHead(records: seq<Record>, poolOff: nat, poolSize: nat, depth: nat, proofsOff: nat) returns (l: Layout)
    requires AllTyped(records) && |records| < U32 && depth < U32 && depth == Depth(Irs(records))
    requires poolOff == PoolOff(records) && poolSize == |Concat(Irs(records))| && proofsOff == ProofsOff(records) < U32
    ensures LaysOut(l, records)
  {
    var header := WriteHeader(|records|, poolOff, poolSize, depth, proofsOff);
    var rows := WriteRows(records);
    l := Layout(header, rows);
  }

  /**
   The blob, or None when a count or an offset does not fit 32 bits; there must be a record to hash.
   The rows are shown before they are appended, so that the contract can say what each of them reads.
   */
  method Emit(hash: Hash, records: seq<Record>) returns (blob: Option<Bytes>, root: Digest, l: Layout)
    requires AllTyped(records) && records != []
    ensures blob.Some? <==> ProofsOff(records) < U32
    ensures blob.Some? ==> LaysOut(l, records) && blob.value == Blob(hash, Irs(records), l)
    ensures root == RootOf(hash, Irs(records))
  {
    var irs := Irs(records);
    var levels;
    levels, root := TreeFor(hash, irs);
    l := Layout([], []);
    var poolOff := HEADER_LEN + |records| * ENTRY_LEN;
    var poolSize := PoolSize(irs);
    var proofsOff := poolOff + poolSize;
    DepthIsSmall(|records|);
    if |records| >= U32 || poolOff >= U32 || poolSize >= U32 || |levels| - 1 >= U32 || proofsOff >= U32 {
      return None, root, l;
    }
    l := WriteHead(records, poolOff, poolSize, |levels| - 1, proofsOff);
    var out := WriteParts(hash, irs, levels, l);
    blob := Some(out);
  }

  method PoolSize(irs: seq<Bytes>) returns (size: nat)
    ensures size == |Concat(irs)|
  {
    size := 0;
    AppendEnds([], irs);
    for k := 0 to |irs|
      invariant size == |Concat(irs[..k])|
    {
      ConcatNext(irs, k);
      size := size + |irs[k]|;
    }
  }

  lemma {:induction false} TopIsRoot(hash: Hash, level: seq<Digest>, d: nat)
    requires |level| == Pow2(d)
    ensures |Levels(hash, level, d)[d]| == 1 && Levels(hash, level, d)[d][0] == Root(hash, level, d)
    decreases d
  {
    if d > 0 {
      TopIsRoot(hash, Up(hash, level), d - 1);
      assert Levels(hash, level, d)[d] == Levels(hash, Up(hash, level), d - 1)[d - 1];
    }
  }

  lemma {:induction false} Pow2Monotone(a: nat, b: nat)
    requires a <= b
    ensures Pow2(a) <= Pow2(b)
    decreases b
  {
    if a < b {
      Pow2Monotone(a, b - 1);
    }
  }

  /** A tree has no more levels than leaves, and at most 33 over a count that fits 32 bits. */
  lemma DepthIsSmall(n: nat)
    ensures DepthFor(n, 0) <= n
    ensures n <= Pow2(32) ==> DepthFor(n, 0) <= 32
  {
    var d := DepthFor(n, 0);
    if d > 32 {
      Pow2Monotone(32, d - 1);
    }
    if d > 0 {
      LinearBelowPow2(d - 1);
    }
  }

  lemma {:induction false} LinearBelowPow2(d: nat)
    ensures d < Pow2(d)
    decreases d
  {
    if d > 0 {
      LinearBelowPow2(d - 1);
    }
  }

  // ---------------------------------------------------------------- what is found in it

  function HeaderRead(records: seq<Record>): Header {
    Header(|records|, PoolOff(records), Depth(Irs(records)), ProofsOff(records))
  }

  lemma HeaderIsRead(h: Bytes, rest: Bytes, count: nat, poolOff: nat, poolSize: nat, depth: nat, proofsOff: nat)
    requires IsHeader(h, count, poolOff, poolSize, depth, proofsOff)
    requires HEADER_LEN + count * ENTRY_LEN <= poolOff <= proofsOff && HEADER_LEN + count * ENTRY_LEN <= |h + rest|
    ensures ReadHeader(h + rest) == Ok(Header(count, poolOff, depth, proofsOff))
  {
    var blob := h + rest;
    assert blob[..4] == h[..4] && blob[12..16] == h[12..16] && blob[16..20] == h[16..20];
    assert blob[24..28] == h[24..28] && blob[28..32] == h[28..32];
  }

  lemma RowIsRead(head: Bytes, rows: seq<Bytes>, tail: Bytes, h: Header, k: nat)
    requires |head| == HEADER_LEN && h.count == |rows| && k < |rows|
    requires forall j :: 0 <= j < |rows| ==> |rows[j]| == ENTRY_LEN
    requires Fits(head + Concat(rows) + tail, h)
    ensures Row(head + Concat(rows) + tail, h, k) == rows[k]
  {
    ConcatWidth(rows[..k], ENTRY_LEN);
    ConcatAt(rows, k);
    Inside(head, Concat(rows), tail, k * ENTRY_LEN, k * ENTRY_LEN + ENTRY_LEN);
  }

  lemma IrIsRead(before: Bytes, irs: seq<Bytes>, after: Bytes, h: Header, row: Bytes, k: nat)
    requires k < |irs| && |row| == ENTRY_LEN && |irs[k]| >= IR_HEADER_LEN
    requires h.poolOff == |before| && h.proofsOff == |before| + |Concat(irs)|
    requires FromLE(row[64..68]) == |Concat(irs[..k])| && FromLE(row[68..72]) == |irs[k]|
    ensures ReadIR(before + Concat(irs) + after, h, row) == Ok(irs[k])
  {
    ConcatAt(irs, k);
    var n := |Concat(irs[..k])|;
    Inside(before, Concat(irs), after, n, n + |irs[k]|);
  }

  lemma ProofIsRead(before: Bytes, proofs: seq<Bytes>, h: Header, k: nat)
    requires k < |proofs| && h.proofsOff == |before| && |before + Concat(proofs)| < USIZE
    requires forall j :: 0 <= j < |proofs| ==> |proofs[j]| == h.depth * 32
    ensures ReadProof(before + Concat(proofs), h, k) == Ok(proofs[k])
  {
    var stride := h.depth * 32;
    ConcatAt(proofs, k);
    ConcatWidth(proofs[..k], stride);
    var n := k * stride;
    assert before + Concat(proofs) + [] == before + Concat(proofs);
    Inside(before, Concat(proofs), [], n, n + stride);
  }

  /** The proofs of a catalogue that fits 32-bit offsets take less than 2^43 bytes. */
  lemma ProofsFit(hash: Hash, irs: seq<Bytes>)
    requires |irs| < U32
    ensures |Concat(ProofsOf(hash, irs))| <= U32 * 1024
  {
    var w := Depth(irs) * 32;
    ConcatWidth(ProofsOf(hash, irs), w);
    Pow2Of32();
    DepthIsSmall(|irs|);
    Bounded(|irs|, U32, w, 1024);
  }

  lemma Bounded(a: nat, b: nat, c: nat, d: nat)
    requires a <= b && c <= d
    ensures a * c <= b * d
  {
    assert a * c <= b * c;
    assert b * c <= b * d;
  }

  lemma Pow2Of32()
    ensures Pow2(32) == U32
  {
    Product(8, 8);
    Product(16, 16);
    assert Pow2(8) == 256;
  }

  lemma {:induction false} Product(a: nat, b: nat)
    ensures Pow2(a + b) == Pow2(a) * Pow2(b)
    decreases a
  {
    if a > 0 {
      Product(a - 1, b);
    }
  }

  lemma FourParts(a: Bytes, b: Bytes, c: Bytes, d: Bytes)
    ensures a + b + c + d == a + (b + c + d)
    ensures a + b + c + d == a + b + (c + d)
  {
  }

  lemma HeaderReads(hash: Hash, records: seq<Record>, l: Layout)
    requires LaysOut(l, records) && ProofsOff(records) < U32
    ensures ReadHeader(Blob(hash, Irs(records), l)) == Ok(HeaderRead(records))
  {
    var irs := Irs(records);
    var rest := Concat(l.rows) + Concat(irs) + Concat(ProofsOf(hash, irs));
    ConcatWidth(l.rows, ENTRY_LEN);
    FourParts(l.header, Concat(l.rows), Concat(irs), Concat(ProofsOf(hash, irs)));
    HeaderIsRead(l.header, rest, |records|, PoolOff(records), |Concat(irs)|, Depth(irs), ProofsOff(records));
  }

  lemma RowReads(hash: Hash, records: seq<Record>, l: Layout, k: nat)
    requires LaysOut(l, records) && ProofsOff(records) < U32 && k < |records|
    ensures Fits(Blob(hash, Irs(records), l), HeaderRead(records))
    ensures Row(Blob(hash, Irs(records), l), HeaderRead(records), k) == l.rows[k]
  {
    var irs := Irs(records);
    HeaderReads(hash, records, l);
    var tail := Concat(irs) + Concat(ProofsOf(hash, irs));
    FourParts(l.header, Concat(l.rows), Concat(irs), Concat(ProofsOf(hash, irs)));
    RowIsRead(l.header, l.rows, tail, HeaderRead(records), k);
  }

  lemma IrReads(hash: Hash, records: seq<Record>, l: Layout, k: nat)
    requires LaysOut(l, records) && ProofsOff(records) < U32 && k < |records| && |records[k].ir| >= IR_HEADER_LEN
    ensures ReadIR(Blob(hash, Irs(records), l), HeaderRead(records), l.rows[k]) == Ok(records[k].ir)
  {
    var irs := Irs(records);
    ConcatWidth(l.rows, ENTRY_LEN);
    assert IsRow(l.rows[k], records[k], IrOff(records, k));
    IrIsRead(l.header + Concat(l.rows), irs, Concat(ProofsOf(hash, irs)), HeaderRead(records), l.rows[k], k);
  }

  lemma ProofsAreWide(hash: Hash, irs: seq<Bytes>)
    ensures forall j :: 0 <= j < |irs| ==> |ProofsOf(hash, irs)[j]| == Depth(irs) * 32
  {
  }

  lemma LengthBefore(records: seq<Record>, l: Layout)
    requires LaysOut(l, records)
    ensures |l.header + Concat(l.rows) + Concat(Irs(records))| == ProofsOff(records)
  {
    ConcatWidth(l.rows, ENTRY_LEN);
  }

  lemma ProofReads(hash: Hash, records: seq<Record>, l: Layout, k: nat)
    requires LaysOut(l, records) && ProofsOff(records) < U32 && k < |records|
    ensures ReadProof(Blob(hash, Irs(records), l), HeaderRead(records), k) == Ok(Flat(ProofFor(hash, Irs(records), k)))
  {
    var irs := Irs(records);
    var proofs := ProofsOf(hash, irs);
    LengthBefore(records, l);
    ProofsAreWide(hash, irs);
    ProofsFit(hash, irs);
    ProofIsRead(l.header + Concat(l.rows) + Concat(irs), proofs, HeaderRead(records), k);
  }

  // ---------------------------------------------------------------- the look-up of a written catalogue

  ghost predicate Names(r: Record, chain: nat, contract: Bytes) {
    r.chain == chain && r.contract == contract
  }

  /** The IR says for which deployment it is, and of which kind; the device rejects it otherwise. */
  predicate Consistent(r: Record) {
    |r.ir| >= IR_HEADER_LEN && Binds(r.ir, r.chain, r.contract) && r.ir[1] == r.kind
  }

  function EntryOf(hash: Hash, records: seq<Record>, k: nat): Entry
    requires k < |records| && |records[k].ir| >= IR_HEADER_LEN
  {
    var r, irs := records[k], Irs(records);
    Entry(Trailer(r.ir, k, Depth(irs), Flat(ProofFor(hash, irs, k))), r.kind, r.ir[62..94], r.typeHash)
  }

  lemma GoodRow(hash: Hash, records: seq<Record>, l: Layout, k: nat)
    requires LaysOut(l, records) && ProofsOff(records) < U32 && k < |records| && Consistent(records[k])
    ensures Fits(Blob(hash, Irs(records), l), HeaderRead(records))
    ensures ReadRow(Blob(hash, Irs(records), l), HeaderRead(records), k, records[k].chain, records[k].contract)
         == Ok(EntryOf(hash, records, k))
  {
    RowReads(hash, records, l, k);
    IrReads(hash, records, l, k);
    ProofReads(hash, records, l, k);
    assert IsRow(l.rows[k], records[k], IrOff(records, k));
  }

  /**
   In a written catalogue a deployment with one consistent record is found, with that record's IR,
   index and proof.
   */
  lemma FindsTheRecord(hash: Hash, records: seq<Record>, l: Layout, k: nat)
    requires LaysOut(l, records) && ProofsOff(records) < U32 && k < |records| && Consistent(records[k])
    requires forall j :: 0 <= j < |records| && j != k ==> !Names(records[j], records[k].chain, records[k].contract)
    ensures LookUp(Blob(hash, Irs(records), l), records[k].chain, records[k].contract) == Ok(EntryOf(hash, records, k))
  {
    var blob, h, chain, contract := Blob(hash, Irs(records), l), HeaderRead(records), records[k].chain,
        records[k].contract;
    HeaderReads(hash, records, l);
    GoodRow(hash, records, l, k);
    forall j | 0 <= j < |records|
      ensures Matches(blob, h, chain, contract, j) <==> j == k
    {
      RowReads(hash, records, l, j);
      assert IsRow(l.rows[j], records[j], IrOff(records, j));
      assert Matches(blob, h, chain, contract, j) <==> Names(records[j], chain, contract);
    }
    assert OnlyMatch(blob, h, 0, chain, contract, k);
    assert OneGoodRow(blob, h, 0, chain, contract, EntryOf(hash, records, k));
    FindsOne(blob, chain, contract, EntryOf(hash, records, k));
  }
}
