/** `execTransaction` calldata: built by tools/demo_px_flows.py, read by the device (tx/src/safe_tx.rs). */
module SafeExec {
  import opened Bytes
  import opened SafeCalldata

  const MIN_LEN: nat := 4 + 10 * 32 + 2 * 32

  datatype ExecError = ShortExec | WrongExecSelector | NonCanonicalAddress | OffsetOverflow | EnumOutOfRange |
      TruncatedDynamic

  datatype Exec = Exec(
    to: Bytes, value: Bytes, operation: Byte, safeTxGas: Bytes, baseGas: Bytes, gasPrice: Bytes,
    gasToken: Bytes, refundReceiver: Bytes, data: Bytes, signatures: Bytes)

  // ---------------------------------------------------------------- building

  /** `u256`: 32 bytes, for a number that has no more. */
  function U256(n: nat): (w: Bytes)
    ensures |w| == 32
  {
    FixedBE(n, 32)
  }

  /** `word_addr`. */
  function AddressWord(a: Bytes): Bytes {
    Zeros(12) + a
  }

  /** `pad32`. */
  function Pad32(b: Bytes): (p: Bytes)
    ensures |p| == |b| + PadLen(|b|)
  {
    b + Zeros(PadLen(|b|))
  }

  const DATA_OFF: nat := 10 * 32

  function SigsOff(data: Bytes): nat {
    DATA_OFF + 32 + |Pad32(data)|
  }

  /** The ten words of the head; `zero` and `nobody` are the fields that are not set. */
  function HeadWords(to: Bytes, value: Bytes, dataOff: Bytes, zero: Bytes, nobody: Bytes,
                     sigsOff: Bytes): (ws: seq<Bytes>)
    ensures |ws| == 10
  {
    [to, value, dataOff, zero, zero, zero, zero, nobody, nobody, sigsOff]
  }

  function Head(to: Bytes, value: nat, data: Bytes): (ws: seq<Bytes>)
    ensures |ws| == 10
  {
    HeadWords(AddressWord(to), U256(value), U256(DATA_OFF), U256(0), AddressWord(Zeros(20)), U256(SigsOff(data)))
  }

  /** `safe_exec_calldata`: no operation, gas, token or receiver is set. */
  function ExecBytes(to: Bytes, value: nat, data: Bytes, signatures: Bytes): Bytes {
    EXEC_TRANSACTION + Concat(Head(to, value, data))
    + (U256(|data|) + Pad32(data) + (U256(|signatures|) + Pad32(signatures)))
  }

  // ---------------------------------------------------------------- reading

  function WordAt(head: Bytes, k: nat): (w: Bytes)
    requires k < 10 && |head| >= 320
    ensures |w| == 32
  {
    head[32 * k..32 * k + 32]
  }

  function ReadAddress(w: Bytes): Option<Bytes>
    requires |w| == 32
  {
    if w[..12] != Zeros(12) then None else Some(w[12..])
  }

  /** `read_dynamic_bytes`. */
  function Dynamic(head: Bytes, offset: nat): Result<Bytes, ExecError> {
    if offset < 10 * 32 then Err(OffsetOverflow)
    else if offset + 32 > |head| then Err(TruncatedDynamic)
    else
      match ReadWord(head[offset..offset + 32])
      case None => Err(OffsetOverflow)
      case Some(len) =>
        if offset + 32 + len > |head| then Err(TruncatedDynamic)
        else Ok(head[offset + 32..offset + 32 + len])
  }

  /** `decode_exec_transaction`. */
  function DecodedExec(cd: Bytes): Result<Exec, ExecError> {
    if |cd| < MIN_LEN then Err(ShortExec)
    else if cd[..4] != EXEC_TRANSACTION then Err(WrongExecSelector)
    else
      var head := cd[4..];
      var to, token, refund := ReadAddress(WordAt(head, 0)), ReadAddress(WordAt(head, 7)), ReadAddress(WordAt(head, 8));
      if to == None || token == None || refund == None then Err(NonCanonicalAddress)
      else if WordAt(head, 3)[..31] != Zeros(31) || WordAt(head, 3)[31] > 1 then Err(EnumOutOfRange)
      else
        var dataOff, sigsOff := ReadWord(WordAt(head, 2)), ReadWord(WordAt(head, 9));
        if dataOff == None || sigsOff == None then Err(OffsetOverflow)
        else
          match Dynamic(head, dataOff.value)
          case Err(e) => Err(e)
          case Ok(data) =>
            match Dynamic(head, sigsOff.value)
            case Err(e) => Err(e)
            case Ok(signatures) =>
              Ok(Exec(to.value, WordAt(head, 1), WordAt(head, 3)[31], WordAt(head, 4), WordAt(head, 5), WordAt(head, 6),
                      token.value, refund.value, data, signatures))
  }

  // ---------------------------------------------------------------- what is built is read back

  lemma SmallU256(n: nat)
    requires n < U32
    ensures ReadWord(U256(n)) == Some(n)
  {
    U32Is();
    LeadingZeros(n, 4, 28);
    var z, f := Zeros(28), FixedBE(n, 4);
    assert (z + f)[..28] == z && (z + f)[28..] == f;
  }

  lemma ZeroU256()
    ensures U256(0) == Zeros(32)
  {
    AllZeros(32);
  }

  lemma AddressReads(a: Bytes)
    requires |a| == 20
    ensures |AddressWord(a)| == 32 && ReadAddress(AddressWord(a)) == Some(a)
  {
    var z := Zeros(12);
    assert (z + a)[..12] == z && (z + a)[12..] == a;
  }

  lemma HeadIsRead(words: seq<Bytes>, tail: Bytes, k: nat)
    requires |words| == 10 && k < 10 && forall j :: 0 <= j < 10 ==> |words[j]| == 32
    ensures |Concat(words)| == 320 && WordAt(Concat(words) + tail, k) == words[k]
  {
    ConcatWidth(words, 32);
    ConcatWidth(words[..k], 32);
    ConcatAt(words, k);
    assert (Concat(words) + tail)[32 * k..32 * k + 32] == Concat(words)[32 * k..32 * k + 32];
  }

  lemma TailSlices(before: Bytes, w: Bytes, b: Bytes, z: Bytes, after: Bytes)
    requires |w| == 32
    ensures var head, n := before + (w + (b + z) + after), |before|;
      |head| == n + 32 + |b| + |z| + |after| && head[n..n + 32] == w && head[n + 32..n + 32 + |b|] == b
  {
  }

  /** A length word, bytes and padding behind `before`. */
  lemma TailWithWord(before: Bytes, w: Bytes, b: Bytes, z: Bytes, after: Bytes)
    requires |before| >= 320 && |w| == 32 && ReadWord(w) == Some(|b|)
    ensures Dynamic(before + (w + (b + z) + after), |before|) == Ok(b)
  {
    TailSlices(before, w, b, z, after);
  }

  lemma TailIsRead(before: Bytes, b: Bytes, after: Bytes)
    requires |before| >= 320 && |b| < U32
    ensures Dynamic(before + (U256(|b|) + Pad32(b) + after), |before|) == Ok(b)
  {
    SmallU256(|b|);
    TailWithWord(before, U256(|b|), b, Zeros(PadLen(|b|)), after);
  }

  lemma Tails(before: Bytes, data: Bytes, signatures: Bytes)
    requires |before| == 320 && |data| < U32 && |signatures| < U32
    ensures var head := before + (U256(|data|) + Pad32(data) + (U256(|signatures|) + Pad32(signatures)));
      Dynamic(head, DATA_OFF) == Ok(data) && Dynamic(head, SigsOff(data)) == Ok(signatures)
  {
    var last := U256(|signatures|) + Pad32(signatures);
    TailIsRead(before, data, last);
    var mid := before + (U256(|data|) + Pad32(data));
    TailIsRead(mid, signatures, []);
    assert last + [] == last;
    Associative(before, U256(|data|) + Pad32(data), last);
  }

  lemma WordsRead(words: seq<Bytes>, tail: Bytes)
    requires |words| == 10 && forall j :: 0 <= j < 10 ==> |words[j]| == 32
    ensures |Concat(words)| == 320 && forall k :: 0 <= k < 10 ==> WordAt(Concat(words) + tail, k) == words[k]
  {
    ConcatWidth(words, 32);
    forall k | 0 <= k < 10
      ensures WordAt(Concat(words) + tail, k) == words[k]
    {
      HeadIsRead(words, tail, k);
    }
  }

  lemma SelectorAndHead(selector: Bytes, words: Bytes, tail: Bytes)
    requires |selector| == 4
    ensures (selector + words + tail)[..4] == selector && (selector + words + tail)[4..] == words + tail
  {
    Associative(selector, words, tail);
    var head := words + tail;
    assert (selector + head)[..4] == selector && (selector + head)[4..] == head;
  }

  /** Ten words and what follows, taken apart. */
  lemma FieldsRead(words: seq<Bytes>, tail: Bytes, e: Exec, dataOff: nat, sigsOff: nat)
    requires |words| == 10 && |tail| >= 64 && forall j :: 0 <= j < 10 ==> |words[j]| == 32
    requires ReadAddress(words[0]) == Some(e.to) && words[1] == e.value
    requires ReadWord(words[2]) == Some(dataOff) && ReadWord(words[9]) == Some(sigsOff)
    requires words[3][..31] == Zeros(31) && words[3][31] == e.operation <= 1
    requires words[4] == e.safeTxGas && words[5] == e.baseGas && words[6] == e.gasPrice
    requires ReadAddress(words[7]) == Some(e.gasToken) && ReadAddress(words[8]) == Some(e.refundReceiver)
    requires Dynamic(Concat(words) + tail, dataOff) == Ok(e.data)
        && Dynamic(Concat(words) + tail, sigsOff) == Ok(e.signatures)
    ensures DecodedExec(EXEC_TRANSACTION + Concat(words) + tail) == Ok(e)
  {
    WordsRead(words, tail);
    SelectorAndHead(EXEC_TRANSACTION, Concat(words), tail);
  }

  /** A head and two tails, taken apart. */
  lemma WholeReads(a: Bytes, v: Bytes, d: Bytes, z: Bytes, n: Bytes, s: Bytes, tail: Bytes, e: Exec, dataOff: nat,
                   sigsOff: nat)
    requires |a| == |v| == |d| == |z| == |n| == |s| == 32 && |tail| >= 64
    requires ReadAddress(a) == Some(e.to) && v == e.value && ReadWord(d) == Some(dataOff)
        && ReadWord(s) == Some(sigsOff)
    requires z == Zeros(32) && e.operation == 0 && e.safeTxGas == e.baseGas == e.gasPrice == z
    requires ReadAddress(n) == Some(e.gasToken) && e.refundReceiver == e.gasToken
    requires var head := Concat(HeadWords(a, v, d, z, n, s)) + tail;
      Dynamic(head, dataOff) == Ok(e.data) && Dynamic(head, sigsOff) == Ok(e.signatures)
    ensures DecodedExec(EXEC_TRANSACTION + Concat(HeadWords(a, v, d, z, n, s)) + tail) == Ok(e)
  {
    assert z[..31] == Zeros(31) && z[31] == 0;
    FieldsRead(HeadWords(a, v, d, z, n, s), tail, e, dataOff, sigsOff);
  }

  lemma HeadLength(a: Bytes, v: Bytes, d: Bytes, z: Bytes, n: Bytes, s: Bytes)
    requires |a| == |v| == |d| == |z| == |n| == |s| == 32
    ensures |Concat(HeadWords(a, v, d, z, n, s))| == 320
  {
    ConcatWidth(HeadWords(a, v, d, z, n, s), 32);
  }

  /**
   Following the two offsets and lengths of what is built recovers the data and the signatures; every
   other field is as given.
   */
  lemma ExecReadsBack(to: Bytes, value: nat, data: Bytes, signatures: Bytes)
    requires |to| == 20 && SigsOff(data) < U32 && |signatures| < U32
    ensures ExecBytes(to, value, data, signatures)[..4] == [0x6a, 0x76, 0x12, 0x02]
    ensures DecodedExec(ExecBytes(to, value, data, signatures))
         == Ok(Exec(to, U256(value), 0, Zeros(32), Zeros(32), Zeros(32), Zeros(20), Zeros(20), data, signatures))
  {
    AddressReads(to);
    AddressReads(Zeros(20));
    ZeroU256();
    SmallU256(DATA_OFF);
    SmallU256(SigsOff(data));
    HeadLength(AddressWord(to), U256(value), U256(DATA_OFF), U256(0), AddressWord(Zeros(20)), U256(SigsOff(data)));
    Tails(Concat(Head(to, value, data)), data, signatures);
    WholeReads(AddressWord(to), U256(value), U256(DATA_OFF), U256(0), AddressWord(Zeros(20)), U256(SigsOff(data)),
               U256(|data|) + Pad32(data) + (U256(|signatures|) + Pad32(signatures)),
               Exec(to, U256(value), 0, Zeros(32), Zeros(32), Zeros(32), Zeros(20), Zeros(20), data, signatures),
               DATA_OFF, SigsOff(data));
  }
}
