/**
 The descriptor catalogue: the blob the compiler writes (dbgen/src/erc7730.rs) and the look-up that
 turns one of its rows into a signing trailer (nonsecure/build.rs).
 */
module Catalogue {
  import opened Bytes

  // ---------------------------------------------------------------- little-endian numbers

  function FromLE(s: Bytes): (n: nat)
    decreases |s|
  {
    if s == [] then 0 else s[0] as int + 256 * FromLE(s[1..])
  }

  function ToLE(n: nat, len: nat): (s: Bytes)
    ensures |s| == len
    decreases len
  {
    if len == 0 then [] else [n % 256] + ToLE(n / 256, len - 1)
  }

  lemma {:induction false} LittleEndianRoundTrip(n: nat, len: nat)
    requires n < Pow256(len)
    ensures FromLE(ToLE(n, len)) == n
    decreases len
  {
    if len > 0 {
      LittleEndianRoundTrip(n / 256, len - 1);
      assert ToLE(n, len)[1..] == ToLE(n / 256, len - 1);
    }
  }

  // ---------------------------------------------------------------- the look-up

  const HEADER_LEN: nat := 32
  const ENTRY_LEN: nat := 72
  const IR_HEADER_LEN: nat := 134

  /** One past the largest `usize` of the 64-bit build host. */
  const USIZE: nat := 0x1_0000_0000_0000_0000

  const MAGIC: Bytes := [0x50, 0x37, 0x33, 0x30]

  datatype Problem =
    | TooShort | BadMagic | BadOffsets | Ambiguous | BadIR | BindingMismatch | Overflow | ProofTruncated
    | KindMismatch | NoEntry

  datatype Result<T> = Ok(value: T) | Err(problem: Problem)

  datatype Header = Header(count: nat, poolOff: nat, depth: nat, proofsOff: nat)

  datatype Entry = Entry(trailer: Bytes, kind: Byte, domainSeparator: Bytes, primaryTypeHash: Bytes)

  /** The header fields agree with the length of the blob. */
  predicate Fits(blob: Bytes, h: Header) {
    HEADER_LEN + h.count * ENTRY_LEN <= |blob| && HEADER_LEN + h.count * ENTRY_LEN <= h.poolOff <= h.proofsOff
  }

  function ReadHeader(blob: Bytes): (r: Result<Header>)
    ensures r.Ok? ==> Fits(blob, r.value)
  {
    if |blob| < HEADER_LEN then Err(TooShort)
    else if blob[..4] != MAGIC then Err(BadMagic)
    else
      var h := Header(FromLE(blob[12..16]), FromLE(blob[16..20]), FromLE(blob[24..28]), FromLE(blob[28..32]));
      if HEADER_LEN + h.count * ENTRY_LEN > |blob| || h.poolOff < HEADER_LEN + h.count * ENTRY_LEN
          || h.proofsOff < h.poolOff
      then Err(BadOffsets)
      else Ok(h)
  }

  /** The 72 bytes of a row. */
  function Row(blob: Bytes, h: Header, i: nat): (row: Bytes)
    requires Fits(blob, h) && i < h.count
    ensures |row| == ENTRY_LEN
  {
    RowEnds(blob, h, i);
    blob[HEADER_LEN + i * ENTRY_LEN..HEADER_LEN + i * ENTRY_LEN + ENTRY_LEN]
  }

  lemma RowEnds(blob: Bytes, h: Header, i: nat)
    requires Fits(blob, h) && i < h.count
    ensures HEADER_LEN + i * ENTRY_LEN + ENTRY_LEN <= |blob|
  {
  }

  predicate Hit(row: Bytes, chain: nat, contract: Bytes)
    requires |row| == ENTRY_LEN
  {
    FromLE(row[0..8]) == chain && row[8..28] == contract
  }

  /** `ir_len | ir | index | depth | proof`; the length is cut to 16 bits. */
  function Trailer(ir: Bytes, index: nat, depth: nat, proof: Bytes): Bytes {
    FixedBE(|ir|, 2) + ir + FixedBE(index, 4) + FixedBE(depth, 4) + proof
  }

  /** Where the IR of a row lies. */
  function IrStart(h: Header, row: Bytes): nat
    requires |row| == ENTRY_LEN
  {
    h.poolOff + FromLE(row[64..68])
  }

  function IrLen(row: Bytes): nat
    requires |row| == ENTRY_LEN
  {
    FromLE(row[68..72])
  }

  function ReadIR(blob: Bytes, h: Header, row: Bytes): (r: Result<Bytes>)
    requires |row| == ENTRY_LEN
    ensures r.Ok? ==> |r.value| >= IR_HEADER_LEN
  {
    var start, end := IrStart(h, row), IrStart(h, row) + IrLen(row);
    if IrLen(row) < IR_HEADER_LEN || end > h.proofsOff || end > |blob| then Err(BadIR) else Ok(blob[start..end])
  }

  predicate Binds(ir: Bytes, chain: nat, contract: Bytes)
    requires |ir| >= IR_HEADER_LEN
  {
    ir[2..10] == FixedBE(chain, 8) && ir[10..30] == contract
  }

  function ReadProof(blob: Bytes, h: Header, i: nat): Result<Bytes> {
    var stride := h.depth * 32;
    if i * stride >= USIZE || h.proofsOff + i * stride >= USIZE || h.proofsOff + i * stride + stride >= USIZE
        then Err(Overflow)
    else if h.proofsOff + i * stride + stride > |blob| then Err(ProofTruncated)
    else Ok(blob[h.proofsOff + i * stride..h.proofsOff + i * stride + stride])
  }

  /** What the loop makes of a row that matches. */
  function ReadRow(blob: Bytes, h: Header, i: nat, chain: nat, contract: Bytes): Result<Entry>
    requires Fits(blob, h) && i < h.count
  {
    var row := Row(blob, h, i);
    match ReadIR(blob, h, row)
    case Err(e) => Err(e)
    case Ok(ir) =>
      if !Binds(ir, chain, contract) then Err(BindingMismatch)
      else
        match ReadProof(blob, h, i)
        case Err(e) => Err(e)
        case Ok(proof) =>
          if ir[1] != row[60] then Err(KindMismatch)
          else Ok(Entry(Trailer(ir, i, h.depth, proof), row[60], ir[62..94], row[28..60]))
  }

  function Scan(blob: Bytes, h: Header, i: nat, chain: nat, contract: Bytes, matched: Option<Entry>): Result<Entry>
    requires Fits(blob, h) && i <= h.count
    decreases h.count - i
  {
    if i == h.count then
      match matched
      case None => Err(NoEntry)
      case Some(e) => Ok(e)
    else if !Hit(Row(blob, h, i), chain, contract) then Scan(blob, h, i + 1, chain, contract, matched)
    else if matched.Some? then Err(Ambiguous)
    else
      match ReadRow(blob, h, i, chain, contract)
      case Err(e) => Err(e)
      case Ok(e) => Scan(blob, h, i + 1, chain, contract, Some(e))
  }

  function LookUp(blob: Bytes, chain: nat, contract: Bytes): Result<Entry> {
    match ReadHeader(blob)
    case Err(e) => Err(e)
    case Ok(h) => Scan(blob, h, 0, chain, contract, None)
  }

  lemma SubSlice(s: Bytes, base: nat, width: nat, from: nat, to: nat)
    requires base + width <= |s| && from <= to <= width
    ensures s[base..base + width][from..to] == s[base + from..base + to]
  {
    var l, r := s[base..base + width][from..to], s[base + from..base + to];
    assert |l| == |r|;
    forall k | 0 <= k < |l|
      ensures l[k] == r[k]
    {
      assert l[k] == s[base..base + width][from + k] == s[base + from + k];
    }
  }

  /** `blob[base + from..base + to]`: a field of row `i`. */
  function Field(blob: Bytes, h: Header, i: nat, from: nat, to: nat): (f: Bytes)
    requires Fits(blob, h) && i < h.count && from <= to <= ENTRY_LEN
    ensures f == Row(blob, h, i)[from..to]
  {
    RowEnds(blob, h, i);
    SubSlice(blob, HEADER_LEN + i * ENTRY_LEN, ENTRY_LEN, from, to);
    blob[HEADER_LEN + i * ENTRY_LEN + from..HEADER_LEN + i * ENTRY_LEN + to]
  }

  method SliceIR(blob: Bytes, h: Header, i: nat) returns (r: Result<Bytes>)
    requires Fits(blob, h) && i < h.count
    ensures r == ReadIR(blob, h, Row(blob, h, i))
  {
    var irOff, irLen := FromLE(Field(blob, h, i, 64, 68)), FromLE(Field(blob, h, i, 68, 72));
    var irStart := h.poolOff + irOff;
    var irEnd := irStart + irLen;
    if irLen < IR_HEADER_LEN || irEnd > h.proofsOff || irEnd > |blob| {
      return Err(BadIR);
    }
    r := Ok(blob[irStart..irEnd]);
  }

  method SliceProof(blob: Bytes, h: Header, i: nat) returns (r: Result<Bytes>)
    ensures r == ReadProof(blob, h, i)
  {
    var proofStride := h.depth * 32;
    if i * proofStride >= USIZE {
      return Err(Overflow);
    }
    var proofBase := h.proofsOff + i * proofStride;
    if proofBase >= USIZE || proofBase + proofStride >= USIZE {
      return Err(Overflow);
    }
    if proofBase + proofStride > |blob| {
      return Err(ProofTruncated);
    }
    r := Ok(blob[proofBase..proofBase + proofStride]);
  }

  method BuildRow(blob: Bytes, h: Header, i: nat, chain: nat, contract: Bytes) returns (r: Result<Entry>)
    requires Fits(blob, h) && i < h.count
    ensures r == ReadRow(blob, h, i, chain, contract)
  {
    var sliced := SliceIR(blob, h, i);
    if sliced.Err? {
      return Err(sliced.problem);
    }
    var ir := sliced.value;
    if ir[2..10] != FixedBE(chain, 8) || ir[10..30] != contract {
      return Err(BindingMismatch);
    }
    var proven := SliceProof(blob, h, i);
    if proven.Err? {
      return Err(proven.problem);
    }
    var out := FixedBE(|ir|, 2);
    out := out + ir;
    out := out + FixedBE(i, 4);
    out := out + FixedBE(h.depth, 4);
    out := out + proven.value;
    var kind := Field(blob, h, i, 60, 61)[0];
    if ir[1] != kind {
      return Err(KindMismatch);
    }
    r := Ok(Entry(out, kind, ir[62..94], Field(blob, h, i, 28, 60)));
  }

  method BuildEntry(blob: Bytes, chain: nat, contract: Bytes) returns (r: Result<Entry>)
    ensures r == LookUp(blob, chain, contract)
  {
    var header := ReadHeader(blob);
    if header.Err? {
      return Err(header.problem);
    }
    var h := header.value;
    var matched: Option<Entry> := None;
    for i := 0 to h.count
      invariant Scan(blob, h, i, chain, contract, matched) == Scan(blob, h, 0, chain, contract, None)
    {
      if FromLE(Field(blob, h, i, 0, 8)) != chain || Field(blob, h, i, 8, 28) != contract {
        continue;
      }
      if matched.Some? {
        return Err(Ambiguous);
      }
      var entry := BuildRow(blob, h, i, chain, contract);
      if entry.Err? {
        return Err(entry.problem);
      }
      matched := Some(entry.value);
    }
    r := if matched.Some? then Ok(matched.value) else Err(NoEntry);
  }

  // ---------------------------------------------------------------- one row, or none

  ghost predicate Matches(blob: Bytes, h: Header, chain: nat, contract: Bytes, i: nat) {
    Fits(blob, h) && i < h.count && Hit(Row(blob, h, i), chain, contract)
  }

  ghost predicate OnlyMatch(blob: Bytes, h: Header, from: nat, chain: nat, contract: Bytes, k: nat) {
    Matches(blob, h, chain, contract, k)
    && forall j :: from <= j < h.count && j != k ==> !Matches(blob, h, chain, contract, j)
  }

  lemma {:induction false} ScanKeeps(blob: Bytes, h: Header, i: nat, chain: nat, contract: Bytes, e: Entry)
    requires Fits(blob, h) && i <= h.count
    ensures Scan(blob, h, i, chain, contract, Some(e)).Ok?
       <==> forall j :: i <= j < h.count ==> !Matches(blob, h, chain, contract, j)
    ensures Scan(blob, h, i, chain, contract, Some(e)).Ok? ==> Scan(blob, h, i, chain, contract, Some(e)) == Ok(e)
    decreases h.count - i
  {
    if i < h.count {
      ScanKeeps(blob, h, i + 1, chain, contract, e);
      assert Matches(blob, h, chain, contract, i) <==> Hit(Row(blob, h, i), chain, contract);
    }
  }

  /**
   Row `k` yields `e`, byte by byte of the blob: the IR it names lies before the proofs and binds the
   chain and the contract, its proof lies inside, and `e` is packed from these two slices.
   */
  ghost predicate RowYields(blob: Bytes, h: Header, k: nat, chain: nat, contract: Bytes, e: Entry)
    requires Fits(blob, h) && k < h.count
  {
    && IrLies(blob, h, k) && ProofLies(blob, h, k)
    && var row, ir := RowAt(k), NamedIr(blob, h, k);
       RowEnds(blob, h, k);
       && ir[2..10] == FixedBE(chain, 8) && ir[10..30] == contract && ir[1] == blob[row + 60]
       && e == Entry(Trailer(ir, k, h.depth, NamedProof(blob, h, k)),
                     blob[row + 60], ir[62..94], blob[row + 28..row + 60])
  }

  function RowAt(k: nat): nat {
    32 + k * 72
  }

  /** Where the IR that row `k` names begins, and how long it is. */
  function IrAt(blob: Bytes, h: Header, k: nat): (start: nat)
    requires Fits(blob, h) && k < h.count
    ensures start >= h.poolOff
  {
    RowEnds(blob, h, k);
    h.poolOff + FromLE(blob[RowAt(k) + 64..RowAt(k) + 68])
  }

  function IrLength(blob: Bytes, h: Header, k: nat): nat
    requires Fits(blob, h) && k < h.count
  {
    RowEnds(blob, h, k);
    FromLE(blob[RowAt(k) + 68..RowAt(k) + 72])
  }

  function ProofAt(h: Header, k: nat): nat {
    h.proofsOff + k * (h.depth * 32)
  }

  /** The IR has a whole header and ends before the proofs and inside the blob. */
  predicate IrLies(blob: Bytes, h: Header, k: nat)
    requires Fits(blob, h) && k < h.count
  {
    134 <= IrLength(blob, h, k) && IrAt(blob, h, k) + IrLength(blob, h, k) <= h.proofsOff
    && IrAt(blob, h, k) + IrLength(blob, h, k) <= |blob|
  }

  predicate ProofLies(blob: Bytes, h: Header, k: nat) {
    ProofAt(h, k) + 32 * h.depth <= |blob| && ProofAt(h, k) + 32 * h.depth < 0x1_0000_0000_0000_0000
  }

  /** The slice of the blob that row `k` names as its IR. */
  function NamedIr(blob: Bytes, h: Header, k: nat): (ir: Bytes)
    requires Fits(blob, h) && k < h.count && IrLies(blob, h, k)
    ensures |ir| >= IR_HEADER_LEN
  {
    blob[IrAt(blob, h, k)..IrAt(blob, h, k) + IrLength(blob, h, k)]
  }

  /** And the row's slice of the proofs. */
  function NamedProof(blob: Bytes, h: Header, k: nat): (proof: Bytes)
    requires ProofLies(blob, h, k)
    ensures |proof| == 32 * h.depth
  {
    blob[ProofAt(h, k)..ProofAt(h, k) + 32 * h.depth]
  }

  lemma ProofInside(blob: Bytes, h: Header, k: nat)
    ensures ReadProof(blob, h, k).Ok? <==> ProofLies(blob, h, k)
    ensures ProofLies(blob, h, k) ==> ReadProof(blob, h, k) == Ok(NamedProof(blob, h, k))
  {
  }

  lemma IrInside(blob: Bytes, h: Header, k: nat)
    requires Fits(blob, h) && k < h.count
    ensures ReadIR(blob, h, Row(blob, h, k)).Ok? <==> IrLies(blob, h, k)
    ensures IrLies(blob, h, k) ==> ReadIR(blob, h, Row(blob, h, k)) == Ok(NamedIr(blob, h, k))
  {
    var row := Row(blob, h, k);
    assert row[64..68] == Field(blob, h, k, 64, 68) && row[68..72] == Field(blob, h, k, 68, 72);
  }

  /** A row is read exactly when it yields an entry, and as that entry. */
  lemma RowYieldsExactly(blob: Bytes, h: Header, k: nat, chain: nat, contract: Bytes, e: Entry)
    requires Fits(blob, h) && k < h.count
    ensures ReadRow(blob, h, k, chain, contract) == Ok(e) <==> RowYields(blob, h, k, chain, contract, e)
  {
    var row := Row(blob, h, k);
    RowEnds(blob, h, k);
    IrInside(blob, h, k);
    ProofInside(blob, h, k);
    RowFields(blob, h, k);
  }

  lemma RowFields(blob: Bytes, h: Header, k: nat)
    requires Fits(blob, h) && k < h.count && RowAt(k) + ENTRY_LEN <= |blob|
    ensures Row(blob, h, k)[60] == blob[RowAt(k) + 60]
    ensures Row(blob, h, k)[28..60] == blob[RowAt(k) + 28..RowAt(k) + 60]
  {
    SubSlice(blob, RowAt(k), ENTRY_LEN, 28, 60);
  }

  /** From row `i` on exactly one row matches, and it reads as `e`. */
  ghost predicate OneGoodRow(blob: Bytes, h: Header, i: nat, chain: nat, contract: Bytes, e: Entry)
    requires Fits(blob, h)
  {
    exists k :: i <= k < h.count && OnlyMatch(blob, h, i, chain, contract, k)
        && ReadRow(blob, h, k, chain, contract) == Ok(e)
  }

  lemma OnlyMatchHere(blob: Bytes, h: Header, i: nat, chain: nat, contract: Bytes, e: Entry)
    requires Fits(blob, h) && Matches(blob, h, chain, contract, i)
    ensures OneGoodRow(blob, h, i, chain, contract, e)
       <==> (ReadRow(blob, h, i, chain, contract) == Ok(e)
             && forall j :: i < j < h.count ==> !Matches(blob, h, chain, contract, j))
  {
    if ReadRow(blob, h, i, chain, contract) == Ok(e)
        && forall j :: i < j < h.count ==> !Matches(blob, h, chain, contract, j) {
      assert OnlyMatch(blob, h, i, chain, contract, i);
    }
  }

  lemma OnlyMatchLater(blob: Bytes, h: Header, i: nat, chain: nat, contract: Bytes, e: Entry)
    requires Fits(blob, h) && !Matches(blob, h, chain, contract, i)
    ensures OneGoodRow(blob, h, i, chain, contract, e) <==> OneGoodRow(blob, h, i + 1, chain, contract, e)
  {
    forall k | i < k < h.count
      ensures OnlyMatch(blob, h, i, chain, contract, k) <==> OnlyMatch(blob, h, i + 1, chain, contract, k)
    {
    }
  }

  /** A scan that stands on a match yields it when no other follows. */
  lemma ScanFindsFirst(blob: Bytes, h: Header, i: nat, chain: nat, contract: Bytes, e: Entry)
    requires Fits(blob, h) && Matches(blob, h, chain, contract, i)
    ensures Scan(blob, h, i, chain, contract, None) == Ok(e)
       <==> (ReadRow(blob, h, i, chain, contract) == Ok(e)
             && forall j :: i < j < h.count ==> !Matches(blob, h, chain, contract, j))
  {
    var first := ReadRow(blob, h, i, chain, contract);
    if first.Ok? {
      ScanKeeps(blob, h, i + 1, chain, contract, first.value);
    }
  }

  lemma {:induction false} ScanFindsOne(blob: Bytes, h: Header, i: nat, chain: nat, contract: Bytes, e: Entry)
    requires Fits(blob, h) && i <= h.count
    ensures Scan(blob, h, i, chain, contract, None) == Ok(e) <==> OneGoodRow(blob, h, i, chain, contract, e)
    decreases h.count - i
  {
    if i < h.count {
      if Matches(blob, h, chain, contract, i) {
        ScanFindsFirst(blob, h, i, chain, contract, e);
        OnlyMatchHere(blob, h, i, chain, contract, e);
      } else {
        OnlyMatchLater(blob, h, i, chain, contract, e);
        ScanFindsOne(blob, h, i + 1, chain, contract, e);
      }
    }
  }

  lemma FindsOne(blob: Bytes, chain: nat, contract: Bytes, e: Entry)
    ensures LookUp(blob, chain, contract) == Ok(e)
       <==> ReadHeader(blob).Ok? && OneGoodRow(blob, ReadHeader(blob).value, 0, chain, contract, e)
  {
    var r := ReadHeader(blob);
    if r.Ok? {
      ScanFindsOne(blob, r.value, 0, chain, contract, e);
    }
  }

  /** One row of the blob matches, it is row `k`, and it yields `e`. */
  ghost predicate OnlyRowYields(blob: Bytes, h: Header, k: nat, chain: nat, contract: Bytes, e: Entry)
    requires Fits(blob, h)
  {
    k < h.count && OnlyMatch(blob, h, 0, chain, contract, k) && RowYields(blob, h, k, chain, contract, e)
  }

  /** A trailer comes out exactly when one row of the catalogue matches, and it is what that row yields. */
  lemma BuildsExactly(blob: Bytes, chain: nat, contract: Bytes, e: Entry)
    ensures LookUp(blob, chain, contract) == Ok(e)
       <==> ReadHeader(blob).Ok? && exists k :: OnlyRowYields(blob, ReadHeader(blob).value, k, chain, contract, e)
  {
    var r := ReadHeader(blob);
    FindsOne(blob, chain, contract, e);
    if r.Ok? {
      var h := r.value;
      forall k: nat | k < h.count
        ensures ReadRow(blob, h, k, chain, contract) == Ok(e) <==> RowYields(blob, h, k, chain, contract, e)
      {
        RowYieldsExactly(blob, h, k, chain, contract, e);
      }
      if OneGoodRow(blob, h, 0, chain, contract, e) {
        var k :| 0 <= k < h.count && OnlyMatch(blob, h, 0, chain, contract, k)
            && ReadRow(blob, h, k, chain, contract) == Ok(e);
        assert OnlyRowYields(blob, h, k, chain, contract, e);
      }
      if k :| OnlyRowYields(blob, h, k, chain, contract, e) {
        assert ReadRow(blob, h, k, chain, contract) == Ok(e);
      }
    }
  }

  /** The numbers of a header fit 32 bits, so a row's index does. */
  lemma HeaderNumbers(blob: Bytes)
    requires ReadHeader(blob).Ok?
    ensures ReadHeader(blob).value.count < Pow256(4) && ReadHeader(blob).value.depth < Pow256(4)
  {
    FromLEBound(blob[12..16]);
    FromLEBound(blob[24..28]);
  }

  lemma {:induction false} FromLEBound(s: Bytes)
    ensures FromLE(s) < Pow256(|s|)
    decreases |s|
  {
    if s != [] {
      FromLEBound(s[1..]);
    }
  }
}
