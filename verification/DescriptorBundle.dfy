/**
 What the device makes of a descriptor trailer (pqsigner-erc7730/src/bundle.rs and proof_set.rs), and
 that it reads back what the build script packed (nonsecure/build.rs).
 */
module DescriptorBundle {
  import opened Bytes
  import opened Merkle
  import C = Catalogue
  import W = CatalogueWriter

  const MAX_IR_LEN: nat := 4096
  const MAX_PROOF_DEPTH: nat := 32
  const MAX_BUNDLE_LEN: nat := 2 + MAX_IR_LEN + 4 + 4 + 32 * 32

  datatype BundleError = Truncated | TrailingBytes | BadIR | Merkle | DepthCap | IrLenCap | LeafIndexCap

  datatype Result<T, E> = Ok(value: T) | Err(error: E)

  /** The fields of a bundle. */
  datatype Fields = Fields(ir: Bytes, index: nat, depth: nat, proof: Bytes)

  /** The IR parser is a parameter: which byte strings it takes. */
  type IrParser = Bytes -> bool

  // ---------------------------------------------------------------- one bundle

  /** Everything but the Merkle walk. */
  function Parse(bundle: Bytes, parses: IrParser, leafCount: Option<nat>): (r: Result<Fields, BundleError>)
    ensures r.Ok? ==> |r.value.ir| <= MAX_IR_LEN && r.value.depth <= MAX_PROOF_DEPTH
    ensures r.Ok? ==> |r.value.proof| == 32 * r.value.depth
  {
    if |bundle| < 2 then Err(Truncated)
    else
      var irLen := FromBE(bundle[..2]);
      if irLen > MAX_IR_LEN then Err(IrLenCap)
      else if |bundle| < 2 + irLen + 4 + 4 then Err(Truncated)
      else
        var ir, off := bundle[2..2 + irLen], 2 + irLen;
        var index, depth := FromBE(bundle[off..off + 4]), FromBE(bundle[off + 4..off + 8]);
        if !parses(ir) then Err(BadIR)
        else if leafCount.Some? && index >= leafCount.value then Err(LeafIndexCap)
        else if depth > MAX_PROOF_DEPTH then Err(DepthCap)
        else if off + 8 + depth * 32 > |bundle| then Err(Truncated)
        else if off + 8 + depth * 32 != |bundle| then Err(TrailingBytes)
        else Ok(Fields(ir, index, depth, bundle[off + 8..off + 8 + depth * 32]))
  }

  function Verified(hash: Hash, bundle: Bytes, parses: IrParser, root: Digest, leafCount: Option<nat>)
      : Result<Bytes, BundleError>
  {
    match Parse(bundle, parses, leafCount)
    case Err(e) => Err(e)
    case Ok(f) => if Verifies(hash, f.ir, f.index, f.proof, f.depth, root) then Ok(f.ir) else Err(Merkle)
  }

  method VerifyBundle(hash: Hash, bundle: Bytes, parses: IrParser, root: Digest, leafCount: Option<nat>)
    returns (r: Result<Bytes, BundleError>)
    ensures r == Verified(hash, bundle, parses, root, leafCount)
  {
    if |bundle| < 2 {
      return Err(Truncated);
    }
    var irLen := FromBE(bundle[..2]);
    if irLen > MAX_IR_LEN {
      return Err(IrLenCap);
    }
    if |bundle| < 2 + irLen + 4 + 4 {
      return Err(Truncated);
    }
    var ir := bundle[2..2 + irLen];
    if !parses(ir) {
      return Err(BadIR);
    }
    var off := 2 + irLen;
    var leafIndex := FromBE(bundle[off..off + 4]);
    off := off + 4;
    if leafCount.Some? && leafIndex >= leafCount.value {
      return Err(LeafIndexCap);
    }
    var proofDepth := FromBE(bundle[off..off + 4]);
    off := off + 4;
    if proofDepth > MAX_PROOF_DEPTH {
      return Err(DepthCap);
    }
    var proofSize := proofDepth * 32;
    if off + proofSize > |bundle| {
      return Err(Truncated);
    }
    if off + proofSize != |bundle| {
      return Err(TrailingBytes);
    }
    var proof := bundle[off..off + proofSize];
    var good := VerifyProof(hash, ir, leafIndex, proof, proofDepth, root);
    r := if good then Ok(ir) else Err(Merkle);
  }

  // ---------------------------------------------------------------- a trailer reads back

  lemma U16Is()
    ensures Pow256(2) == 0x1_0000
  {
  }

  lemma U32Is()
    ensures Pow256(4) == 0x1_0000_0000
  {
  }

  lemma TrailerSlices(a: Bytes, ir: Bytes, b: Bytes, c: Bytes, proof: Bytes)
    requires |a| == 2 && |b| == 4 && |c| == 4
    ensures var t := a + ir + b + c + proof;
      && |t| == 10 + |ir| + |proof| && t[..2] == a && t[2..2 + |ir|] == ir
      && t[2 + |ir|..2 + |ir| + 4] == b && t[2 + |ir| + 4..2 + |ir| + 8] == c && t[2 + |ir| + 8..] == proof
  {
  }

  /** The number written at a width it fits. */
  lemma BigEndianReads(n: nat, len: nat)
    requires n < Pow256(len)
    ensures |FixedBE(n, len)| == len && FromBE(FixedBE(n, len)) == n
  {
  }

  /** A trailer taken apart, with no limit on its parts. */
  function Unpacked(t: Bytes): (f: Option<Fields>)
    ensures f.Some? ==> |t| == 10 + |f.value.ir| + |f.value.proof| && |f.value.proof| == 32 * f.value.depth
  {
    if |t| < 10 || |t| < 10 + FromBE(t[..2]) then None
    else
      var off := 2 + FromBE(t[..2]);
      var depth := FromBE(t[off + 4..off + 8]);
      if |t| != off + 8 + 32 * depth then None
      else Some(Fields(t[2..off], FromBE(t[off..off + 4]), depth, t[off + 8..]))
  }

  /** The device's parser takes a bundle apart the same way, and adds its limits. */
  lemma ParsesExactly(bundle: Bytes, f: Fields, parses: IrParser, leafCount: Option<nat>)
    ensures Parse(bundle, parses, leafCount) == Ok(f)
       <==> Unpacked(bundle) == Some(f) && |f.ir| <= 4096 && f.depth <= 32
            && parses(f.ir) && (leafCount.Some? ==> f.index < leafCount.value)
  {
    if |bundle| >= 10 && |bundle| >= 10 + FromBE(bundle[..2]) {
      var off := 2 + FromBE(bundle[..2]);
      assert bundle[off + 4..off + 8] == bundle[off + 4..off + 4 + 4];
      if |bundle| == off + 8 + 32 * FromBE(bundle[off + 4..off + 8]) {
        assert bundle[off + 8..] == bundle[off + 8..|bundle|];
      }
    }
  }

  lemma PartsUnpack(a: Bytes, b: Bytes, c: Bytes, f: Fields)
    requires |a| == 2 && |b| == 4 && |c| == 4 && |f.proof| == 32 * f.depth
    requires FromBE(a) == |f.ir| && FromBE(b) == f.index && FromBE(c) == f.depth
    ensures Unpacked(a + f.ir + b + c + f.proof) == Some(f)
  {
    TrailerSlices(a, f.ir, b, c, f.proof);
  }

  /** Every trailer whose IR length fits 16 bits is taken apart into the parts it was made of. */
  lemma TrailerUnpacks(ir: Bytes, index: nat, depth: nat, proof: Bytes)
    requires |ir| < 0x1_0000 && index < Pow256(4) && depth < Pow256(4) && |proof| == 32 * depth
    ensures Unpacked(C.Trailer(ir, index, depth, proof)) == Some(Fields(ir, index, depth, proof))
  {
    U16Is();
    BigEndianReads(|ir|, 2);
    BigEndianReads(index, 4);
    BigEndianReads(depth, 4);
    PartsUnpack(FixedBE(|ir|, 2), FixedBE(index, 4), FixedBE(depth, 4), Fields(ir, index, depth, proof));
  }

  /** A trailer within the device's limits is taken apart into the parts it was made of. */
  lemma TrailerReadsBack(ir: Bytes, index: nat, depth: nat, proof: Bytes, parses: IrParser, leafCount: Option<nat>)
    requires |ir| <= MAX_IR_LEN && parses(ir) && depth <= MAX_PROOF_DEPTH && |proof| == 32 * depth
    requires index < 0x1_0000_0000 && (leafCount.Some? ==> index < leafCount.value)
    ensures Parse(C.Trailer(ir, index, depth, proof), parses, leafCount) == Ok(Fields(ir, index, depth, proof))
  {
    U32Is();
    TrailerUnpacks(ir, index, depth, proof);
    ParsesExactly(C.Trailer(ir, index, depth, proof), Fields(ir, index, depth, proof), parses, leafCount);
  }

  /**
   Taken apart, `t` is the slice of the blob that row `k` names as its IR, the row's index, the depth
   of the header and the row's slice of the proofs.
   */
  ghost predicate IsTrailerOf(blob: Bytes, h: C.Header, k: nat, t: Bytes)
    requires C.Fits(blob, h) && k < h.count
  {
    && C.IrLies(blob, h, k) && C.ProofLies(blob, h, k)
    && var ir := C.NamedIr(blob, h, k);
       |ir| < 0x1_0000 ==> Unpacked(t) == Some(Fields(ir, k, h.depth, C.NamedProof(blob, h, k)))
  }

  lemma RowUnpacks(blob: Bytes, h: C.Header, k: nat, chain: nat, contract: Bytes, e: C.Entry)
    requires C.Fits(blob, h) && k < h.count < Pow256(4) && h.depth < Pow256(4)
    requires C.RowYields(blob, h, k, chain, contract, e)
    ensures IsTrailerOf(blob, h, k, e.trailer)
  {
    var ir := C.NamedIr(blob, h, k);
    if |ir| < 0x1_0000 {
      TrailerUnpacks(ir, k, h.depth, C.NamedProof(blob, h, k));
    }
  }

  /** For every blob: a trailer that comes out is that of the one row matching chain and contract. */
  lemma TrailerIsOfItsRow(blob: Bytes, chain: nat, contract: Bytes, e: C.Entry) returns (h: C.Header, k: nat)
    requires C.LookUp(blob, chain, contract) == C.Ok(e)
    ensures C.ReadHeader(blob) == C.Ok(h) && k < h.count && C.OnlyMatch(blob, h, 0, chain, contract, k)
    ensures IsTrailerOf(blob, h, k, e.trailer)
  {
    C.BuildsExactly(blob, chain, contract, e);
    h := C.ReadHeader(blob).value;
    k :| C.OnlyRowYields(blob, h, k, chain, contract, e);
    C.HeaderNumbers(blob);
    RowUnpacks(blob, h, k, chain, contract, e);
  }

  /** The length of an IR of 64 KiB or more is cut when it is packed, so that it reads as another. */
  lemma LongIrIsCut(ir: Bytes, index: nat, depth: nat, proof: Bytes)
    ensures FromBE(C.Trailer(ir, index, depth, proof)[..2]) == |ir| <==> |ir| < 0x1_0000
  {
    U16Is();
    TrailerSlices(FixedBE(|ir|, 2), ir, FixedBE(index, 4), FixedBE(depth, 4), proof);
    FromBEBound(FixedBE(|ir|, 2));
  }

  // ---------------------------------------------------------------- from the catalogue to the device

  /**
   Every deployment of a written catalogue can be looked up, and the device takes the trailer for that
   record's IR.
   */
  lemma TrailersVerify(hash: Hash, records: seq<W.Record>, l: W.Layout, k: nat, parses: IrParser)
    requires W.LaysOut(l, records) && W.ProofsOff(records) < W.U32 && k < |records| && W.Consistent(records[k])
    requires forall j :: 0 <= j < |records| && j != k ==> !W.Names(records[j], records[k].chain, records[k].contract)
    requires |records[k].ir| <= MAX_IR_LEN && parses(records[k].ir)
    ensures var e := C.LookUp(W.Blob(hash, W.Irs(records), l), records[k].chain, records[k].contract);
      && e.Ok?
      && Verified(hash, e.value.trailer, parses, RootOf(hash, W.Irs(records)), Some(|records|)) == Ok(records[k].ir)
  {
    var irs := W.Irs(records);
    W.FindsTheRecord(hash, records, l, k);
    W.Pow2Of32();
    W.DepthIsSmall(|records|);
    var proof := Flat(ProofFor(hash, irs, k));
    TrailerReadsBack(records[k].ir, k, Depth(irs), proof, parses, Some(|records|));
    ProofVerifies(hash, irs, k);
  }

  /**
   The device accepts nothing else: an accepted bundle carries the IR of the catalogue entry that its
   index names, or shows a collision of the hash with the catalogue.
   */
  lemma AcceptedIsCatalogued(hash: Hash, irs: seq<Bytes>, bundle: Bytes, parses: IrParser)
    requires irs != [] && Verified(hash, bundle, parses, RootOf(hash, irs), Some(|irs|)).Ok?
    ensures var f := Parse(bundle, parses, Some(|irs|)).value;
      && Verified(hash, bundle, parses, RootOf(hash, irs), Some(|irs|)) == Ok(f.ir) && f.index < |irs|
      && (Forged(hash, irs, f.ir, f.index, Siblings(f.proof))
          || (f.ir == irs[f.index] && Siblings(f.proof) == ProofFor(hash, irs, f.index)))
  {
    var f := Parse(bundle, parses, Some(|irs|)).value;
    VerifiedIsAnEntry(hash, irs, f.ir, f.index, f.proof, f.depth);
  }

  // ---------------------------------------------------------------- two bundles

  const SET_HEADER_LEN: nat := 4
  const MAX_SET_LEN: nat := SET_HEADER_LEN + 2 * (2 + MAX_BUNDLE_LEN)
  const SET_MAGIC: Bytes := [0xe7, 0x73]

  datatype SetError =
    | TooLong | SetTruncated | SetTrailingBytes | Version | Count | BundleLenCap(index: nat) | DuplicateDescriptor
    | InBundle(index: nat, error: BundleError)

  datatype SetProblem = LookUpFailed(problem: C.Problem) | NotContracts | BundleTooLong

  function Envelope(outer: Bytes, child: Bytes): Bytes {
    SET_MAGIC + [1] + [2] + FixedBE(|outer|, 2) + outer + FixedBE(|child|, 2) + child
  }

  /** `build_erc7730_proof_set`. */
  function ProofSet(blob: Bytes, chain: nat, outer: Bytes, child: Bytes): Result<Bytes, SetProblem> {
    match C.LookUp(blob, chain, outer)
    case Err(e) => Err(LookUpFailed(e))
    case Ok(o) =>
      match C.LookUp(blob, chain, child)
      case Err(e) => Err(LookUpFailed(e))
      case Ok(c) =>
        if o.kind != 0x01 || c.kind != 0x01 then Err(NotContracts)
        else if |o.trailer| > 0xFFFF || |c.trailer| > 0xFFFF then Err(BundleTooLong)
        else Ok(Envelope(o.trailer, c.trailer))
  }

  method BuildProofSet(blob: Bytes, chain: nat, outerContract: Bytes, childContract: Bytes)
      returns (r: Result<Bytes, SetProblem>)
    ensures r == ProofSet(blob, chain, outerContract, childContract)
  {
    var outer := C.BuildEntry(blob, chain, outerContract);
    if outer.Err? {
      return Err(LookUpFailed(outer.problem));
    }
    var child := C.BuildEntry(blob, chain, childContract);
    if child.Err? {
      return Err(LookUpFailed(child.problem));
    }
    if outer.value.kind != 0x01 || child.value.kind != 0x01 {
      return Err(NotContracts);
    }
    var proofSet := SET_MAGIC + [1] + [2];
    var bundles := [outer.value.trailer, child.value.trailer];
    if |bundles[0]| > 0xFFFF {
      return Err(BundleTooLong);
    }
    proofSet := proofSet + FixedBE(|bundles[0]|, 2);
    proofSet := proofSet + bundles[0];
    if |bundles[1]| > 0xFFFF {
      return Err(BundleTooLong);
    }
    proofSet := proofSet + FixedBE(|bundles[1]|, 2);
    proofSet := proofSet + bundles[1];
    r := Ok(proofSet);
  }

  /** `take_bundle`: the bundle at the cursor and the cursor behind it. */
  function TakeBundle(payload: Bytes, cursor: nat, index: nat): (r: Result<(Bytes, nat), SetError>)
    ensures r.Ok? ==> r.value.1 <= |payload|
  {
    if cursor + 2 > |payload| then Err(SetTruncated)
    else
      var len := FromBE(payload[cursor..cursor + 2]);
      if len > MAX_BUNDLE_LEN then Err(BundleLenCap(index))
      else if cursor + 2 + len > |payload| then Err(SetTruncated)
      else Ok((payload[cursor + 2..cursor + 2 + len], cursor + 2 + len))
  }

  /** The IRs behind an accepted payload. */
  datatype Descriptors = Descriptors(outer: Bytes, child: Option<Bytes>)

  method VerifyProofSet(hash: Hash, payload: Bytes, parses: IrParser, root: Digest, leafCount: Option<nat>)
    returns (r: Result<Descriptors, SetError>)
    ensures r == VerifiedSet(hash, payload, parses, root, leafCount)
  {
    if |payload| > MAX_SET_LEN {
      return Err(TooLong);
    }
    var wrapped := |payload| >= 2 && payload[..2] == SET_MAGIC;
    if !wrapped {
      if |payload| > MAX_BUNDLE_LEN {
        return Err(TooLong);
      }
      var one := VerifyBundle(hash, payload, parses, root, leafCount);
      if one.Err? {
        return Err(InBundle(0, one.error));
      }
      return Ok(Descriptors(one.value, None));
    }
    if |payload| < SET_HEADER_LEN {
      return Err(SetTruncated);
    }
    if payload[2] != 1 {
      return Err(Version);
    }
    if payload[3] != 2 {
      return Err(Count);
    }
    var first := TakeBundle(payload, SET_HEADER_LEN, 0);
    if first.Err? {
      return Err(first.error);
    }
    var second := TakeBundle(payload, first.value.1, 1);
    if second.Err? {
      return Err(second.error);
    }
    if second.value.1 != |payload| {
      return Err(SetTrailingBytes);
    }
    var outer := VerifyBundle(hash, first.value.0, parses, root, leafCount);
    if outer.Err? {
      return Err(InBundle(0, outer.error));
    }
    var child := VerifyBundle(hash, second.value.0, parses, root, leafCount);
    if child.Err? {
      return Err(InBundle(1, child.error));
    }
    if LeafHash(hash, outer.value) == LeafHash(hash, child.value) {
      return Err(DuplicateDescriptor);
    }
    r := Ok(Descriptors(outer.value, Some(child.value)));
  }

  function VerifiedPair(hash: Hash, outer: Bytes, child: Bytes, parses: IrParser, root: Digest, leafCount: Option<nat>)
      : (r: Result<Descriptors, SetError>)
    ensures r.Ok? ==> r.value.child.Some?
  {
    match Verified(hash, outer, parses, root, leafCount)
    case Err(e) => Err(InBundle(0, e))
    case Ok(a) =>
      match Verified(hash, child, parses, root, leafCount)
      case Err(e) => Err(InBundle(1, e))
      case Ok(b) => if LeafHash(hash, a) == LeafHash(hash, b)
          then Err(DuplicateDescriptor) else Ok(Descriptors(a, Some(b)))
  }

  function VerifiedSet(hash: Hash, payload: Bytes, parses: IrParser, root: Digest, leafCount: Option<nat>):
    Result<Descriptors, SetError>
  {
    if |payload| > MAX_SET_LEN then Err(TooLong)
    else if |payload| < 2 || payload[..2] != SET_MAGIC then
      if |payload| > MAX_BUNDLE_LEN then Err(TooLong)
      else
        match Verified(hash, payload, parses, root, leafCount)
        case Err(e) => Err(InBundle(0, e))
        case Ok(ir) => Ok(Descriptors(ir, None))
    else if |payload| < SET_HEADER_LEN then Err(SetTruncated)
    else if payload[2] != 1 then Err(Version)
    else if payload[3] != 2 then Err(Count)
    else
      match TakeBundle(payload, SET_HEADER_LEN, 0)
      case Err(e) => Err(e)
      case Ok(first) =>
        match TakeBundle(payload, first.1, 1)
        case Err(e) => Err(e)
        case Ok(second) =>
          if second.1 != |payload| then Err(SetTrailingBytes)
          else VerifiedPair(hash, first.0, second.0, parses, root, leafCount)
  }

  lemma EnvelopeSlices(a: Bytes, outer: Bytes, b: Bytes, child: Bytes)
    requires |a| == 2 && |b| == 2
    ensures var p, n := SET_MAGIC + [1] + [2] + a + outer + b + child, |outer|;
      && |p| == 8 + n + |child| && p[..2] == SET_MAGIC && p[2] == 1 && p[3] == 2
      && p[4..6] == a && p[6..6 + n] == outer && p[6 + n..8 + n] == b && p[8 + n..8 + n + |child|] == child
  {
  }

  /** An envelope taken apart, with no limit but the two length fields: the bundles, and nothing left over. */
  function Opened(p: Bytes): (bundles: Option<(Bytes, Bytes)>)
    ensures bundles.Some? ==> |p| == 8 + |bundles.value.0| + |bundles.value.1|
  {
    if |p| < 8 || p[..2] != SET_MAGIC || p[2] != 1 || p[3] != 2 then None
    else
      var n := FromBE(p[4..6]);
      if 8 + n > |p| || 8 + n + FromBE(p[6 + n..8 + n]) != |p| then None
      else Some((p[6..6 + n], p[8 + n..]))
  }

  lemma EnvelopeOpens(outer: Bytes, child: Bytes)
    requires |outer| < 0x1_0000 && |child| < 0x1_0000
    ensures Opened(Envelope(outer, child)) == Some((outer, child))
  {
    U16Is();
    BigEndianReads(|outer|, 2);
    BigEndianReads(|child|, 2);
    EnvelopeSlices(FixedBE(|outer|, 2), outer, FixedBE(|child|, 2), child);
  }

  lemma OpenedIsEnvelope(p: Bytes)
    requires Opened(p).Some?
    ensures var (outer, child) := Opened(p).value;
      |outer| < 0x1_0000 && |child| < 0x1_0000 && p == Envelope(outer, child)
  {
    var n := FromBE(p[4..6]);
    U16Is();
    FromBEBound(p[4..6]);
    FromBEBound(p[6 + n..8 + n]);
    FixedBEFromBE(p[4..6]);
    FixedBEFromBE(p[6 + n..8 + n]);
    EnvelopeJoins(p, n);
  }

  lemma EnvelopeJoins(p: Bytes, n: nat)
    requires 8 + n <= |p| && p[..2] == SET_MAGIC && p[2] == 1 && p[3] == 2
    ensures p == SET_MAGIC + [1] + [2] + p[4..6] + p[6..6 + n] + p[6 + n..8 + n] + p[8 + n..]
  {
    assert p == p[..2] + [p[2]] + [p[3]] + p[4..6] + p[6..6 + n] + p[6 + n..8 + n] + p[8 + n..];
  }

  /** A payload opens as two bundles exactly when it is their envelope and their lengths fit 16 bits. */
  lemma OpensExactly(p: Bytes, outer: Bytes, child: Bytes)
    ensures Opened(p) == Some((outer, child))
       <==> |outer| < 0x1_0000 && |child| < 0x1_0000 && p == Envelope(outer, child)
  {
    if Opened(p).Some? {
      OpenedIsEnvelope(p);
    }
    if |outer| < 0x1_0000 && |child| < 0x1_0000 {
      EnvelopeOpens(outer, child);
    }
  }

  /**
   For every blob: a proof set comes out exactly when both look-ups find contracts, and it is what opens
   as their trailers.
   */
  lemma ProofSetOpens(blob: Bytes, chain: nat, outer: Bytes, child: Bytes, p: Bytes)
    ensures ProofSet(blob, chain, outer, child) == Ok(p)
       <==> (var o, c := C.LookUp(blob, chain, outer), C.LookUp(blob, chain, child);
             && o.Ok? && c.Ok? && o.value.kind == 0x01 && c.value.kind == 0x01
             && Opened(p) == Some((o.value.trailer, c.value.trailer)))
  {
    var o, c := C.LookUp(blob, chain, outer), C.LookUp(blob, chain, child);
    if o.Ok? && c.Ok? {
      OpensExactly(p, o.value.trailer, c.value.trailer);
    }
  }

  lemma BundleTaken(p: Bytes, cursor: nat, bundle: Bytes, index: nat)
    requires cursor + 2 + |bundle| <= |p| && |bundle| <= 5130
    requires FromBE(p[cursor..cursor + 2]) == |bundle| && p[cursor + 2..cursor + 2 + |bundle|] == bundle
    ensures TakeBundle(p, cursor, index) == Ok((bundle, cursor + 2 + |bundle|))
  {
  }

  /** The envelope splits into its two bundles, in order and with nothing left over. */
  lemma EnvelopeSplits(outer: Bytes, child: Bytes)
    requires |outer| <= 5130 && |child| <= 5130
    ensures var p := Envelope(outer, child);
      && |p| <= MAX_SET_LEN == 10268 && p[..2] == SET_MAGIC == [0xe7, 0x73] && p[2] == 1 && p[3] == 2
      && TakeBundle(p, SET_HEADER_LEN, 0) == Ok((outer, 6 + |outer|))
      && TakeBundle(p, 6 + |outer|, 1) == Ok((child, |p|))
  {
    U16Is();
    BigEndianReads(|outer|, 2);
    BigEndianReads(|child|, 2);
    EnvelopeSlices(FixedBE(|outer|, 2), outer, FixedBE(|child|, 2), child);
    BundleTaken(Envelope(outer, child), SET_HEADER_LEN, outer, 0);
    BundleTaken(Envelope(outer, child), 6 + |outer|, child, 1);
  }

  /** A lone bundle is never taken for an envelope: the magic is no IR length. */
  lemma LoneBundleIsNoEnvelope(bundle: Bytes, parses: IrParser, leafCount: Option<nat>)
    requires Parse(bundle, parses, leafCount).Ok?
    ensures bundle[..2] != SET_MAGIC
  {
    MagicIsLarge();
  }

  lemma MagicIsLarge()
    ensures FromBE(SET_MAGIC) == 0xe773
  {
    assert SET_MAGIC[..1] == [0xe7] && [0xe7][..0] == [];
    assert FromBE([0xe7]) == 0xe7;
  }

  /** What an envelope comes to: the first refusal of its bundles, named by its place, or their descriptors. */
  lemma {:induction false} EnvelopeComesTo(hash: Hash, outer: Bytes, child: Bytes, parses: IrParser, root: Digest,
                                           leafCount: Option<nat>)
    requires |outer| <= 5130 && |child| <= 5130
    ensures var r := VerifiedSet(hash, Envelope(outer, child), parses, root, leafCount);
            var a, b := Verified(hash, outer, parses, root, leafCount), Verified(hash, child, parses, root, leafCount);
            if a.Err? then r == Err(InBundle(0, a.error))
            else if b.Err? then r == Err(InBundle(1, b.error))
            else if hash([0x00] + a.value) == hash([0x00] + b.value) then r == Err(DuplicateDescriptor)
            else r == Ok(Descriptors(a.value, Some(b.value)))
  {
    EnvelopeSplits(outer, child);
    assert VerifiedSet(hash, Envelope(outer, child), parses, root, leafCount)
        == VerifiedPair(hash, outer, child, parses, root, leafCount);
  }

  /** An envelope of two accepted bundles with different descriptors is accepted. */
  lemma EnvelopeVerifies(hash: Hash, outer: Bytes, child: Bytes, a: Bytes, b: Bytes, parses: IrParser, root: Digest,
                         leafCount: Option<nat>)
    requires |outer| <= MAX_BUNDLE_LEN && |child| <= MAX_BUNDLE_LEN
    requires Verified(hash, outer, parses, root, leafCount) == Ok(a)
        && Verified(hash, child, parses, root, leafCount) == Ok(b)
    requires LeafHash(hash, a) != LeafHash(hash, b)
    ensures VerifiedSet(hash, Envelope(outer, child), parses, root, leafCount) == Ok(Descriptors(a, Some(b)))
  {
    EnvelopeSplits(outer, child);
    assert VerifiedPair(hash, outer, child, parses, root, leafCount) == Ok(Descriptors(a, Some(b)));
  }

  lemma VerifiedIsShort(hash: Hash, bundle: Bytes, parses: IrParser, root: Digest, leafCount: Option<nat>)
    requires Verified(hash, bundle, parses, root, leafCount).Ok?
    ensures |bundle| <= MAX_BUNDLE_LEN
  {
    var f := Parse(bundle, parses, leafCount).value;
    ParsesExactly(bundle, f, parses, leafCount);
  }

  /** Two bundles that `take_bundle` takes one after the other, to the end, are those the payload opens as. */
  lemma TakenIsOpened(p: Bytes)
    requires |p| >= SET_HEADER_LEN && p[..2] == SET_MAGIC && p[2] == 1 && p[3] == 2
    requires TakeBundle(p, SET_HEADER_LEN, 0).Ok?
    requires TakeBundle(p, TakeBundle(p, SET_HEADER_LEN, 0).value.1, 1).Ok?
    requires TakeBundle(p, TakeBundle(p, SET_HEADER_LEN, 0).value.1, 1).value.1 == |p|
    ensures var first := TakeBundle(p, SET_HEADER_LEN, 0).value;
      Opened(p) == Some((first.0, TakeBundle(p, first.1, 1).value.0))
  {
    var n := FromBE(p[4..6]);
    assert SET_HEADER_LEN + 2 == 6 && p[SET_HEADER_LEN..SET_HEADER_LEN + 2] == p[4..6];
    assert p[6 + n..6 + n + 2] == p[6 + n..8 + n];
    assert p[8 + n..|p|] == p[8 + n..];
  }

  /**
   Exactly what the device accepts as two descriptors: the envelope of two bundles that it accepts
   one by one, with different leaf hashes.
   */
  lemma AcceptsPairsExactly(hash: Hash, payload: Bytes, a: Bytes, b: Bytes, parses: IrParser, root: Digest,
                            leafCount: Option<nat>)
    ensures VerifiedSet(hash, payload, parses, root, leafCount) == Ok(Descriptors(a, Some(b)))
       <==> (exists outer, child :: PairOf(hash, payload, outer, child, a, b, parses, root, leafCount))
  {
    if VerifiedSet(hash, payload, parses, root, leafCount) == Ok(Descriptors(a, Some(b))) {
      TakenIsOpened(payload);
      OpenedIsEnvelope(payload);
      var (outer, child) := Opened(payload).value;
      assert PairOf(hash, payload, outer, child, a, b, parses, root, leafCount);
    }
    if outer, child :| PairOf(hash, payload, outer, child, a, b, parses, root, leafCount) {
      VerifiedIsShort(hash, outer, parses, root, leafCount);
      VerifiedIsShort(hash, child, parses, root, leafCount);
      EnvelopeVerifies(hash, outer, child, a, b, parses, root, leafCount);
    }
  }

  ghost predicate PairOf(hash: Hash, payload: Bytes, outer: Bytes, child: Bytes, a: Bytes, b: Bytes,
                         parses: IrParser, root: Digest, leafCount: Option<nat>) {
    && payload == Envelope(outer, child)
    && Verified(hash, outer, parses, root, leafCount) == Ok(a)
    && Verified(hash, child, parses, root, leafCount) == Ok(b)
    && LeafHash(hash, a) != LeafHash(hash, b)
  }

  /** And as one: a bundle it accepts, alone. */
  lemma AcceptsLoneExactly(hash: Hash, payload: Bytes, ir: Bytes, parses: IrParser, root: Digest,
                           leafCount: Option<nat>)
    ensures VerifiedSet(hash, payload, parses, root, leafCount) == Ok(Descriptors(ir, None))
       <==> Verified(hash, payload, parses, root, leafCount) == Ok(ir)
  {
    if Verified(hash, payload, parses, root, leafCount) == Ok(ir) {
      VerifiedIsShort(hash, payload, parses, root, leafCount);
      LoneBundleIsNoEnvelope(payload, parses, leafCount);
    }
  }

  /** What the build script packs for two deployments the device unpacks to their two IRs, outer first. */
  lemma ProofSetVerifies(hash: Hash, records: seq<W.Record>, l: W.Layout, j: nat, k: nat, parses: IrParser)
    requires W.LaysOut(l, records) && W.ProofsOff(records) < W.U32 && j < |records| && k < |records|
    requires W.Consistent(records[j]) && W.Consistent(records[k]) && records[j].chain == records[k].chain
    requires forall i :: 0 <= i < |records| && i != j ==> !W.Names(records[i], records[j].chain, records[j].contract)
    requires forall i :: 0 <= i < |records| && i != k ==> !W.Names(records[i], records[k].chain, records[k].contract)
    requires |records[j].ir| <= MAX_IR_LEN && parses(records[j].ir) && records[j].kind == 0x01
    requires |records[k].ir| <= MAX_IR_LEN && parses(records[k].ir) && records[k].kind == 0x01
    requires LeafHash(hash, records[j].ir) != LeafHash(hash, records[k].ir)
    ensures var proofSet := ProofSet(W.Blob(hash, W.Irs(records), l), records[j].chain, records[j].contract,
            records[k].contract);
      && proofSet.Ok?
      && VerifiedSet(hash, proofSet.value, parses, RootOf(hash, W.Irs(records)), Some(|records|))
         == Ok(Descriptors(records[j].ir, Some(records[k].ir)))
  {
    TrailersVerify(hash, records, l, j, parses);
    TrailersVerify(hash, records, l, k, parses);
    TrailerIsShort(hash, records, l, j);
    TrailerIsShort(hash, records, l, k);
    var outer := C.LookUp(W.Blob(hash, W.Irs(records), l), records[j].chain, records[j].contract).value.trailer;
    var child := C.LookUp(W.Blob(hash, W.Irs(records), l), records[k].chain, records[k].contract).value.trailer;
    EnvelopeVerifies(hash, outer, child, records[j].ir, records[k].ir, parses, RootOf(hash, W.Irs(records)),
        Some(|records|));
  }

  lemma TrailerIsShort(hash: Hash, records: seq<W.Record>, l: W.Layout, k: nat)
    requires W.LaysOut(l, records) && W.ProofsOff(records) < W.U32 && k < |records| && W.Consistent(records[k])
    requires forall i :: 0 <= i < |records| && i != k ==> !W.Names(records[i], records[k].chain, records[k].contract)
    requires |records[k].ir| <= MAX_IR_LEN
    ensures var e := C.LookUp(W.Blob(hash, W.Irs(records), l), records[k].chain, records[k].contract);
      e.Ok? && |e.value.trailer| <= MAX_BUNDLE_LEN && e.value.kind == records[k].kind
  {
    W.FindsTheRecord(hash, records, l, k);
    W.Pow2Of32();
    W.DepthIsSmall(|records|);
  }
}
