/**
 Safe calldata: what the demo and the test tool build (macos-demo/pq1-demo.c, tools/demo_px_flows.py)
 and what the device reads from it (tx/src/multisend.rs, tx/src/safe_tx.rs).
 */
module SafeCalldata {
  import opened Bytes
  import opened Buffers

  const U32: nat := 0x1_0000_0000
  const MULTI_SEND: Bytes := [0x8d, 0x80, 0xff, 0x0a]
  const EXEC_TRANSACTION: Bytes := [0x6a, 0x76, 0x12, 0x02]

  datatype Result<T, E> = Ok(value: T) | Err(error: E)

  // ---------------------------------------------------------------- words

  /** `put_word`, and `u256` of a number that fits 64 bits. */
  function Word(n: nat): (w: Bytes)
    ensures |w| == 32
  {
    Zeros(24) + FixedBE(n, 8)
  }

  /** `read_u32_word` and `read_offset_word_off`: None when a bit above the low 32 is set. */
  function ReadWord(w: Bytes): (n: Option<nat>)
    requires |w| == 32
  {
    if w[..28] != Zeros(28) then None else Some(FromBE(w[28..]))
  }

  lemma {:induction false} LeadingZeros(n: nat, len: nat, more: nat)
    requires n < Pow256(len)
    ensures FixedBE(n, more + len) == Zeros(more) + FixedBE(n, len)
    decreases len
  {
    if len == 0 {
      AllZeros(more);
    } else {
      LeadingZeros(n / 256, len - 1, more);
      Associative(Zeros(more), FixedBE(n / 256, len - 1), [n % 256]);
      FixedBELast(n, more + len);
      FixedBELast(n, len);
    }
  }

  lemma FixedBELast(n: nat, len: nat)
    requires len > 0
    ensures FixedBE(n, len) == FixedBE(n / 256, len - 1) + [n % 256]
  {
  }

  lemma {:induction false} AllZeros(k: nat)
    ensures FixedBE(0, k) == Zeros(k)
    decreases k
  {
    if k > 0 {
      AllZeros(k - 1);
    }
  }

  lemma U32Is()
    ensures Pow256(4) == U32
  {
  }

  lemma WordShape(n: nat)
    requires n < U32
    ensures Word(n) == Zeros(28) + FixedBE(n, 4)
  {
    U32Is();
    LeadingZeros(n, 4, 4);
    assert Zeros(24) + Zeros(4) == Zeros(28);
    Associative(Zeros(24), Zeros(4), FixedBE(n, 4));
  }

  /** A word reads as `n` exactly when it is the word of `n`. */
  lemma WordReadsExactly(w: Bytes, n: nat)
    requires |w| == 32
    ensures ReadWord(w) == Some(n) <==> n < U32 && w == Word(n)
  {
    U32Is();
    if n < U32 {
      WordShape(n);
      var z, f := Zeros(28), FixedBE(n, 4);
      assert (z + f)[..28] == z && (z + f)[28..] == f;
    }
    if ReadWord(w) == Some(n) {
      FromBEBound(w[28..]);
      FixedBEFromBE(w[28..]);
      assert w == w[..28] + w[28..];
    }
  }

  // ---------------------------------------------------------------- the frame of multiSend(bytes)

  function PadLen(n: nat): (k: nat)
    ensures k < 32 && (n + k) % 32 == 0
  {
    (32 - n % 32) % 32
  }

  function MultiSendBytes(packed: Bytes): Bytes {
    MULTI_SEND + Word(0x20) + Word(|packed|) + packed + Zeros(PadLen(|packed|))
  }

  datatype MsError =
    | ShortInput | WrongSelector | BadOffset | BadLength | BadPadding | TruncatedRecord | BadRecordDataLen
    | RecordOpNotCall | RecordToZero | BadRecordCount

  lemma AppendFive(s: Bytes, a: Bytes, b: Bytes, c: Bytes, d: Bytes, e: Bytes)
    ensures s + a + b + c + d + e == s + (a + b + c + d + e)
  {
  }

  /** Five parts appended to a bounded buffer. */
  method PutFive(o: Buf, a: Bytes, b: Bytes, c: Bytes, d: Bytes, e: Bytes)
    requires o.Valid() && o.n + |a| + |b| + |c| + |d| + |e| <= CAP
    modifies o, o.b
    ensures o.Valid() && o.b == old(o.b) && o.Contents == old(o.Contents) + (a + b + c + d + e)
  {
    AppendFive(o.Contents, a, b, c, d, e);
    o.Put(a);
    o.Put(b);
    o.Put(c);
    o.Put(d);
    o.Put(e);
  }

  /** `multisend` of the demo, into a bounded buffer. */
  method MultiSend(o: Buf, packed: Bytes)
    requires o.Valid() && o.n + |MultiSendBytes(packed)| <= CAP
    modifies o, o.b
    ensures o.Valid() && o.b == old(o.b)
    ensures o.Contents == old(o.Contents) + MultiSendBytes(packed)
  {
    PutFive(o, MULTI_SEND, Word(0x20), Word(|packed|), packed, Zeros(PadLen(|packed|)));
  }

  /** `decode_multisend`. */
  function Decoded(data: Bytes): Result<Bytes, MsError> {
    if |data| < 4 + 64 then Err(ShortInput)
    else if data[..4] != MULTI_SEND then Err(WrongSelector)
    else
      var head := data[4..];
      if ReadWord(head[0..32]) != Some(32) then Err(BadOffset)
      else
        match ReadWord(head[32..64])
        case None => Err(BadLength)
        case Some(len) =>
          if 64 + len > |head| then Err(BadLength)
          else if |head| != (64 + len + 31) / 32 * 32 then Err(BadPadding)
          else if head[64 + len..] != Zeros(|head| - (64 + len)) then Err(BadPadding)
          else Ok(head[64..64 + len])
  }

  lemma PaddedEnd(len: nat)
    ensures (64 + len + 31) / 32 * 32 == 64 + len + PadLen(len)
  {
  }

  lemma FrameSlices(a: Bytes, b: Bytes, packed: Bytes, z: Bytes)
    requires |a| == 32 && |b| == 32
    ensures var data := MULTI_SEND + a + b + packed + z;
      && |data| == 68 + |packed| + |z| && data[..4] == MULTI_SEND
      && data[4..][0..32] == a && data[4..][32..64] == b
      && data[4..][64..64 + |packed|] == packed && data[4..][64 + |packed|..] == z
  {
    assert MULTI_SEND + a + b + packed + z == MULTI_SEND + (a + b + packed + z);
    var head := a + b + packed + z;
    assert (MULTI_SEND + head)[4..] == head;
  }

  lemma FrameJoins(data: Bytes, n: nat)
    requires 68 + n <= |data|
    ensures var head := data[4..];
      data == data[..4] + head[0..32] + head[32..64] + head[64..64 + n] + head[64 + n..]
  {
  }

  /** The frame that is built is read back. */
  lemma FrameReadsBack(packed: Bytes)
    requires |packed| < U32
    ensures Decoded(MultiSendBytes(packed)) == Ok(packed)
  {
    var z := Zeros(PadLen(|packed|));
    FrameSlices(Word(0x20), Word(|packed|), packed, z);
    WordReadsExactly(Word(0x20), 0x20);
    WordReadsExactly(Word(|packed|), |packed|);
    PaddedEnd(|packed|);
  }

  /** And nothing else is accepted: calldata that decodes is the one canonical frame of its payload. */
  lemma AcceptedIsCanonical(data: Bytes)
    requires Decoded(data).Ok?
    ensures |Decoded(data).value| < U32 && data == MultiSendBytes(Decoded(data).value)
  {
    var head := data[4..];
    var len := ReadWord(head[32..64]).value;
    WordReadsExactly(head[0..32], 32);
    WordReadsExactly(head[32..64], len);
    PaddedEnd(len);
    FrameJoins(data, len);
  }

  lemma DecodesExactly(data: Bytes, packed: Bytes)
    ensures Decoded(data) == Ok(packed) <==> |packed| < U32 && data == MultiSendBytes(packed)
  {
    if Decoded(data) == Ok(packed) {
      AcceptedIsCanonical(data);
    }
    if |packed| < U32 && data == MultiSendBytes(packed) {
      FrameReadsBack(packed);
    }
  }

  lemma FramePositions(a: Bytes, b: Bytes, packed: Bytes, z: Bytes)
    requires |a| == 32 && |b| == 32
    ensures var data, n := MULTI_SEND + a + b + packed + z, |packed|;
      && |data| == 68 + n + |z| && data[..4] == MULTI_SEND && data[4..36] == a && data[36..68] == b
      && data[68..68 + n] == packed && data[68 + n..] == z
  {
  }

  lemma PaddedLength(n: nat)
    ensures PadLen(n) < 32 && (68 + n + PadLen(n)) % 32 == 4
  {
  }

  /** Selector, the offset 32, the length, the payload, and zeros up to a multiple of 32 bytes. */
  lemma MultiSendIs(packed: Bytes)
    ensures var data, n := MultiSendBytes(packed), |packed|;
      && |data| % 32 == 4 && 68 + n <= |data| < 68 + n + 32 && data[..4] == [0x8d, 0x80, 0xff, 0x0a]
      && data[4..36] == Word(32) && data[36..68] == Word(n) && data[68..68 + n] == packed
      && data[68 + n..] == Zeros(|data| - 68 - n)
  {
    var z := Zeros(PadLen(|packed|));
    FramePositions(Word(32), Word(|packed|), packed, z);
    PaddedLength(|packed|);
  }

  // ---------------------------------------------------------------- the packed records

  const RECORD_HEADER_LEN: nat := 85

  datatype Record = Record(operation: Byte, to: Bytes, value: Bytes, data: Bytes)

  /** `[u8; 20]`, `[u8; 32]` and a length that fits its word. */
  predicate Typed(r: Record) {
    |r.to| == 20 && |r.value| == 32 && |r.data| < U32
  }

  function RecordBytes(r: Record): Bytes {
    [r.operation] + r.to + r.value + Word(|r.data|) + r.data
  }

  function Packed(records: seq<Record>): Bytes
    decreases |records|
  {
    if records == [] then [] else RecordBytes(records[0]) + Packed(records[1..])
  }

  /** `ms_record` of the demo: a call of `to` with no value. */
  method MsRecord(o: Buf, to: Bytes, data: Bytes)
    requires o.Valid() && |to| == 20 && o.n + RECORD_HEADER_LEN + |data| <= CAP
    modifies o, o.b
    ensures o.Valid() && o.b == old(o.b)
    ensures o.Contents == old(o.Contents) + RecordBytes(Record(0, to, Zeros(32), data))
  {
    WordOfZero();
    PutFive(o, [0], to, Word(0), Word(|data|), data);
  }

  lemma WordOfZero()
    ensures Word(0) == Zeros(32)
  {
    AllZeros(8);
    assert Zeros(24) + Zeros(8) == Zeros(32);
  }

  /** One step of the record iterator on what is left: the record and its length. */
  function NextRecord(rest: Bytes): (r: Result<(Record, nat), MsError>)
    ensures r.Ok? ==> RECORD_HEADER_LEN <= r.value.1 <= |rest|
  {
    if |rest| < RECORD_HEADER_LEN then Err(TruncatedRecord)
    else
      match ReadWord(rest[53..85])
      case None => Err(BadRecordDataLen)
      case Some(len) =>
        if RECORD_HEADER_LEN + len > |rest| then Err(TruncatedRecord)
        else Ok((Record(rest[0], rest[1..21], rest[21..53], rest[85..85 + len]), RECORD_HEADER_LEN + len))
  }

  /** The whole walk: every record, or the first error. */
  function Walked(packed: Bytes): Result<seq<Record>, MsError>
    decreases |packed|
  {
    if packed == [] then Ok([])
    else
      match NextRecord(packed)
      case Err(e) => Err(e)
      case Ok(next) =>
        match Walked(packed[next.1..])
        case Err(e) => Err(e)
        case Ok(more) => Ok([next.0] + more)
  }

  lemma RecordSlices(a: Bytes, to: Bytes, value: Bytes, w: Bytes, data: Bytes, rest: Bytes)
    requires |a| == 1 && |to| == 20 && |value| == 32 && |w| == 32
    ensures var t := a + to + value + w + data + rest;
      && |t| == 85 + |data| + |rest| && t[0] == a[0] && t[1..21] == to && t[21..53] == value && t[53..85] == w
      && t[85..85 + |data|] == data && t[85 + |data|..] == rest
  {
  }

  lemma RecordJoins(t: Bytes, len: nat)
    requires RECORD_HEADER_LEN + len <= |t|
    ensures t == [t[0]] + t[1..21] + t[21..53] + t[53..85] + t[85..85 + len] + t[85 + len..]
  {
  }

  lemma NextReadsBack(r: Record, rest: Bytes)
    requires Typed(r)
    ensures var t := RecordBytes(r) + rest;
      NextRecord(t) == Ok((r, RECORD_HEADER_LEN + |r.data|)) && t[RECORD_HEADER_LEN + |r.data|..] == rest
  {
    RecordSlices([r.operation], r.to, r.value, Word(|r.data|), r.data, rest);
    WordReadsExactly(Word(|r.data|), |r.data|);
  }

  lemma NextIsRecord(t: Bytes)
    requires NextRecord(t).Ok?
    ensures var (r, n) := NextRecord(t).value; Typed(r) && t == RecordBytes(r) + t[n..]
  {
    var len := ReadWord(t[53..85]).value;
    WordReadsExactly(t[53..85], len);
    RecordJoins(t, len);
  }

  lemma {:induction false} WalkReadsBack(records: seq<Record>)
    requires forall k :: 0 <= k < |records| ==> Typed(records[k])
    ensures Walked(Packed(records)) == Ok(records)
    decreases |records|
  {
    if records != [] {
      NextReadsBack(records[0], Packed(records[1..]));
      WalkReadsBack(records[1..]);
      assert records == [records[0]] + records[1..];
    }
  }

  lemma {:induction false} WalkPartitions(packed: Bytes)
    requires Walked(packed).Ok?
    ensures packed == Packed(Walked(packed).value)
    ensures forall k :: 0 <= k < |Walked(packed).value| ==> Typed(Walked(packed).value[k])
    decreases |packed|
  {
    if packed != [] {
      var next := NextRecord(packed).value;
      NextIsRecord(packed);
      WalkPartitions(packed[next.1..]);
      var records := Walked(packed).value;
      assert records[1..] == Walked(packed[next.1..]).value;
    }
  }

  /**
   The walk finds these records exactly when the payload is their concatenation: no byte is left out or
   read twice.
   */
  lemma WalksExactly(packed: Bytes, records: seq<Record>)
    ensures Walked(packed) == Ok(records)
       <==> packed == Packed(records) && forall k :: 0 <= k < |records| ==> Typed(records[k])
  {
    if Walked(packed) == Ok(records) {
      WalkPartitions(packed);
    }
    if packed == Packed(records) && forall k :: 0 <= k < |records| ==> Typed(records[k]) {
      WalkReadsBack(records);
    }
  }

  // ---------------------------------------------------------------- the gate before rendering

  const MAX_RECORDS: nat := 6

  /** A batch that may be shown: one to six plain calls, none to the zero address. */
  predicate Acceptable(records: seq<Record>) {
    && 1 <= |records| <= 6
    && forall k :: 0 <= k < |records| ==> records[k].operation == 0 && records[k].to != Zeros(20)
  }

  /** `MsSummary`: how many records, how many claim to be a presignature, and the last that does. */
  datatype Summary = Summary(count: nat, claims: nat, index: nat)

  function Claims(records: seq<Record>, claim: Record -> bool): nat
    decreases |records|
  {
    if records == [] then 0
    else Claims(records[..|records| - 1], claim) + (if claim(records[|records| - 1]) then 1 else 0)
  }

  /** `claims` and `index` are the count and the last position of the claims among these records. */
  ghost predicate Tallied(records: seq<Record>, claim: Record -> bool, claims: nat, index: nat) {
    && claims == Claims(records, claim)
    && (claims > 0 ==> index < |records| && claim(records[index]))
    && (forall k :: 0 <= k < |records| && claim(records[k]) ==> claims > 0 && k <= index)
  }

  lemma {:induction false} ClaimsAreCounted(records: seq<Record>, claim: Record -> bool)
    ensures Claims(records, claim) == |set k | 0 <= k < |records| && claim(records[k])|
    decreases |records|
  {
    if records != [] {
      var n := |records| - 1;
      ClaimsAreCounted(records[..n], claim);
      var before := set k | 0 <= k < n && claim(records[..n][k]);
      assert before == set k | 0 <= k < n && claim(records[k]);
      assert (set k | 0 <= k < |records| && claim(records[k])) == before + if claim(records[n]) then {n} else {};
    }
  }

  lemma TallyNext(records: seq<Record>, claim: Record -> bool, claims: nat, index: nat, rec: Record)
    requires Tallied(records, claim, claims, index)
    ensures claim(rec) ==> Tallied(records + [rec], claim, claims + 1, |records|)
    ensures !claim(rec) ==> Tallied(records + [rec], claim, claims, index)
  {
    assert (records + [rec])[..|records|] == records;
  }

  /** The records before the cursor have been walked. */
  ghost predicate Follows(packed: Bytes, seen: seq<Record>, cursor: nat) {
    && cursor <= |packed|
    && (Walked(packed).Ok? <==> Walked(packed[cursor..]).Ok?)
    && (Walked(packed).Ok? ==> Walked(packed).value == seen + Walked(packed[cursor..]).value)
  }

  lemma FollowsNext(packed: Bytes, seen: seq<Record>, cursor: nat)
    requires cursor < |packed| && Follows(packed, seen, cursor)
    ensures NextRecord(packed[cursor..]).Err? ==> Walked(packed).Err?
    ensures NextRecord(packed[cursor..]).Ok? ==>
      var (rec, n) := NextRecord(packed[cursor..]).value;
      && Follows(packed, seen + [rec], cursor + n)
      && (Walked(packed).Ok? ==> |Walked(packed).value| > |seen| && Walked(packed).value[|seen|] == rec)
  {
    if NextRecord(packed[cursor..]).Ok? {
      var (rec, n) := NextRecord(packed[cursor..]).value;
      assert packed[cursor..][n..] == packed[cursor + n..];
      if Walked(packed).Ok? {
        var more := Walked(packed[cursor + n..]).value;
        assert seen + ([rec] + more) == seen + [rec] + more;
      }
    }
  }

  lemma FollowsEnds(packed: Bytes, seen: seq<Record>)
    ensures Follows(packed, [], 0)
    ensures Follows(packed, seen, |packed|) ==> Walked(packed) == Ok(seen)
  {
    assert packed[0..] == packed && packed[|packed|..] == [];
    assert seen + [] == seen;
    if Walked(packed).Ok? {
      assert [] + Walked(packed).value == Walked(packed).value;
    }
  }

  /** `summarize_packed`; which record claims to be a presignature is a parameter. */
  method SummarizePacked(packed: Bytes, claim: Record -> bool) returns (r: Result<Summary, MsError>)
    ensures r.Ok? <==> Walked(packed).Ok? && Acceptable(Walked(packed).value)
    ensures r.Ok? ==> r.value.count == |Walked(packed).value|
    ensures r.Ok? ==> Tallied(Walked(packed).value, claim, r.value.claims, r.value.index)
  {
    var cursor := 0;
    var count, claims, index := 0, 0, 0;
    ghost var seen: seq<Record> := [];
    FollowsEnds(packed, seen);
    while cursor < |packed|
      invariant cursor <= |packed| && count == |seen| <= MAX_RECORDS
      invariant Follows(packed, seen, cursor)
      invariant forall k :: 0 <= k < |seen| ==> seen[k].operation == 0 && seen[k].to != Zeros(20)
      invariant Tallied(seen, claim, claims, index)
    {
      var next := NextRecord(packed[cursor..]);
      FollowsNext(packed, seen, cursor);
      if next.Err? {
        return Err(next.error);
      }
      var rec := next.value.0;
      if rec.operation != 0 {
        return Err(RecordOpNotCall);
      }
      if rec.to == Zeros(20) {
        return Err(RecordToZero);
      }
      if count == MAX_RECORDS {
        return Err(BadRecordCount);
      }
      TallyNext(seen, claim, claims, index, rec);
      seen := seen + [rec];
      if claim(rec) {
        claims := claims + 1;
        index := count;
      }
      count := count + 1;
      cursor := cursor + next.value.1;
    }
    FollowsEnds(packed, seen);
    if count == 0 {
      return Err(BadRecordCount);
    }
    r := Ok(Summary(count, claims, index));
  }

  /** From records to calldata and back: what the demo batches the device shows, record by record. */
  lemma BatchReadsBack(records: seq<Record>)
    requires (forall k :: 0 <= k < |records| ==> Typed(records[k])) && |Packed(records)| < U32
    ensures Decoded(MultiSendBytes(Packed(records))) == Ok(Packed(records)) && Walked(Packed(records)) == Ok(records)
  {
    FrameReadsBack(Packed(records));
    WalkReadsBack(records);
  }
}
