/**
 The strict RLP codec of the ENS proof checker (tools/ens_proof_check.py).

 `Encode` and `DecodeItem` are the codec; `RlpItem` and `RlpList` are the decoder as the source
 runs it, one index moving through one buffer. The theorems say that the two are inverse to each
 other: every encoding decodes to what was encoded, and nothing else decodes at all.
 */
module Rlp {
  import opened Bytes

  datatype Item = Str(b: Bytes) | List(xs: seq<Item>)

  datatype Error =
    | Truncated | NonCanonicalByte | LeadingZero | LongForShort
    | TruncatedList | Overrun | Trailing

  datatype Result<+T> = Ok(value: T) | Err(error: Error)

  // ---------------------------------------------------------------- encoding

  /** `_rlp_len`: None is the ValueError of a prefix that is not a byte. */
  function Header(n: nat, offset: nat): Option<Bytes>
  {
    if n < 56 then
      if offset + n < 256 then Some([offset + n]) else None
    else
      var nb := ToBE(n);
      if offset + 55 + |nb| < 256 then Some([offset + 55 + |nb|] + nb) else None
  }

  function WithHeader(payload: Bytes, offset: nat): Option<Bytes>
  {
    match Header(|payload|, offset)
    case None => None
    case Some(h) => Some(h + payload)
  }

  function Encode(x: Item): Option<Bytes>
  {
    match x
    case Str(b) => if |b| == 1 && b[0] < 0x80 then Some(b) else WithHeader(b, 0x80)
    case List(xs) =>
      match EncodeAll(xs)
      case None => None
      case Some(payload) => WithHeader(payload, 0xC0)
  }

  function EncodeAll(xs: seq<Item>): Option<Bytes>
  {
    if xs == [] then Some([]) else
    match Encode(xs[0])
    case None => None
    case Some(e) =>
      match EncodeAll(xs[1..])
      case None => None
      case Some(es) => Some(e + es)
  }

  // ---------------------------------------------------------------- decoding

  function Take(d: Bytes, i: nat, n: nat): (r: Result<Bytes>)
    ensures r.Ok? <==> i + n <= |d|
    ensures r.Ok? ==> |r.value| == n
  {
    if i + n > |d| then Err(Truncated) else Ok(d[i..i + n])
  }

  function LongLen(d: Bytes, i: nat, ll: nat): (r: Result<nat>)
    requires ll >= 1
    ensures r.Ok? ==> i + ll <= |d| && r.value >= 56
  {
    match Take(d, i, ll)
    case Err(e) => Err(e)
    case Ok(raw) =>
      if raw[0] == 0 then Err(LeadingZero)
      else if FromBE(raw) < 56 then Err(LongForShort)
      else Ok(FromBE(raw))
  }

  /** One item at `i`, with the index after it. */
  function DecodeItem(d: Bytes, i: nat): (r: Result<(Item, nat)>)
    ensures r.Ok? ==> i < r.value.1 <= |d|
    decreases |d| - i, 0
  {
    if i >= |d| then Err(Truncated) else
    var p := d[i];
    if p < 0xC0 then DecodeScalar(d, i)
    else if p < 0xF8 then DecodeList(d, i + 1, p - 0xC0)
    else
      var ll := p - 0xF7;
      match LongLen(d, i + 1, ll)
      case Err(e) => Err(e)
      case Ok(n) => DecodeList(d, i + 1 + ll, n)
  }

  /** The branches of `_rlp_item` that yield a byte string. */
  function DecodeScalar(d: Bytes, i: nat): (r: Result<(Item, nat)>)
    requires i < |d| && d[i] < 0xC0
    ensures r.Ok? ==> r.value.0.Str? && i < r.value.1 <= |d|
  {
    var p := d[i];
    if p < 0x80 then Ok((Str(d[i..i + 1]), i + 1))
    else if p < 0xB8 then
      var n := p - 0x80;
      if n == 1 && i + 1 < |d| && d[i + 1] < 0x80 then Err(NonCanonicalByte)
      else DecodeString(d, i + 1, n)
    else
      var ll := p - 0xB7;
      match LongLen(d, i + 1, ll)
      case Err(e) => Err(e)
      case Ok(n) => DecodeString(d, i + 1 + ll, n)
  }

  function DecodeString(d: Bytes, i: nat, n: nat): (r: Result<(Item, nat)>)
    ensures r.Ok? ==> r.value.0.Str? && r.value.1 == i + n <= |d|
  {
    match Take(d, i, n)
    case Err(e) => Err(e)
    case Ok(b) => Ok((Str(b), i + n))
  }

  function DecodeList(d: Bytes, i: nat, n: nat): (r: Result<(Item, nat)>)
    ensures r.Ok? ==> r.value.1 == i + n <= |d|
    decreases if i <= |d| then |d| - i else 0, 2
  {
    if i + n > |d| then Err(TruncatedList) else
    match DecodeItems(d, i, i + n)
    case Err(e) => Err(e)
    case Ok(xs) => Ok((List(xs), i + n))
  }

  /** The items from `i` on, which must end exactly at `end`. */
  function DecodeItems(d: Bytes, i: nat, end: nat): Result<seq<Item>>
    requires end <= |d|
    decreases if i <= |d| then |d| - i else 0, 1
  {
    if i < end then
      match DecodeItem(d, i)
      case Err(e) => Err(e)
      case Ok((x, j)) =>
        match DecodeItems(d, j, end)
        case Err(e) => Err(e)
        case Ok(xs) => Ok([x] + xs)
    else if i == end then Ok([])
    else Err(Overrun)
  }

  function Decode(d: Bytes): Result<Item>
  {
    match DecodeItem(d, 0)
    case Err(e) => Err(e)
    case Ok((x, end)) => if end != |d| then Err(Trailing) else Ok(x)
  }

  // ---------------------------------------------------------------- the decoder as it runs

  method RlpItem(d: Bytes, i: nat) returns (r: Result<(Item, nat)>)
    ensures r == DecodeItem(d, i)
    decreases |d| - i, 0
  {
    if i >= |d| {
      return Err(Truncated);
    }
    var p := d[i];
    if p < 0x80 {
      return Ok((Str(d[i..i + 1]), i + 1));
    }
    if p < 0xB8 {
      var n := p - 0x80;
      if n == 1 && i + 1 < |d| && d[i + 1] < 0x80 {
        return Err(NonCanonicalByte);
      }
      return DecodeString(d, i + 1, n);
    }
    if p < 0xC0 {
      var len := LongLen(d, i + 1, p - 0xB7);
      if len.Err? {
        return Err(len.error);
      }
      return DecodeString(d, i + 1 + (p - 0xB7), len.value);
    }
    if p < 0xF8 {
      r := RlpList(d, i + 1, p - 0xC0);
      return;
    }
    var len := LongLen(d, i + 1, p - 0xF7);
    if len.Err? {
      return Err(len.error);
    }
    r := RlpList(d, i + 1 + (p - 0xF7), len.value);
  }

  method RlpList(d: Bytes, start: nat, n: nat) returns (r: Result<(Item, nat)>)
    ensures r == DecodeList(d, start, n)
    decreases if start <= |d| then |d| - start else 0, 1
  {
    var i, end := start, start + n;
    if end > |d| {
      return Err(TruncatedList);
    }
    var out: seq<Item> := [];
    ghost var all := DecodeItems(d, start, end);
    assert all.Ok? ==> [] + all.value == all.value;
    while i < end
      invariant start <= i <= |d|
      invariant all == Appended(out, DecodeItems(d, i, end))
      decreases |d| - i
    {
      var item := RlpItem(d, i);
      if item.Err? {
        return Err(item.error);
      }
      AppendedStep(out, item.value.0, DecodeItems(d, item.value.1, end));
      out, i := out + [item.value.0], item.value.1;
    }
    if i != end {
      return Err(Overrun);
    }
    assert out + [] == out;
    return Ok((List(out), end));
  }

  /** What the loop of `_rlp_list` has collected, followed by what is still to be read. */
  ghost function Appended(out: seq<Item>, rest: Result<seq<Item>>): Result<seq<Item>> {
    if rest.Ok? then Ok(out + rest.value) else rest
  }

  lemma AppendedStep(out: seq<Item>, x: Item, rest: Result<seq<Item>>)
    ensures Appended(out + [x], rest) == Appended(out, if rest.Ok? then Ok([x] + rest.value) else rest)
  {
    if rest.Ok? {
      assert out + [x] + rest.value == out + ([x] + rest.value);
    }
  }

  method RlpDecode(d: Bytes) returns (r: Result<Item>)
    ensures r == Decode(d)
  {
    var item := RlpItem(d, 0);
    if item.Err? {
      return Err(item.error);
    }
    r := if item.value.1 != |d| then Err(Trailing) else Ok(item.value.0);
  }

  // ---------------------------------------------------------------- decode(encode(x)) == x

  const LIMIT: nat := 0x1_0000_0000_0000_0000

  lemma LimitIsEightBytes()
    ensures Pow256(8) == LIMIT
  {
    assert Pow256(4) == 0x1_0000_0000 by { assert Pow256(2) == 0x1_0000; }
    assert Pow256(6) == 256 * (256 * Pow256(4));
    assert Pow256(8) == 256 * (256 * Pow256(6));
  }

  /** What an encoded payload of `n` bytes costs is its prefix: the length prefix reads back as `n`. */
  lemma LongHeaderReadsBack(n: nat, d: Bytes, i: nat)
    requires 56 <= n
    requires i + |ToBE(n)| <= |d| && d[i..i + |ToBE(n)|] == ToBE(n)
    ensures ToBE(n) != [] && LongLen(d, i, |ToBE(n)|) == Ok(n)
  {
  }

  /** A prefix, then its payload: where the two lie inside `d`. */
  lemma SplitAtHeader(h: Bytes, payload: Bytes, d: Bytes, i: nat)
    requires h != []
    requires i + |h| + |payload| <= |d| && d[i..i + |h| + |payload|] == h + payload
    ensures d[i] == h[0]
    ensures d[i + 1..i + |h|] == h[1..]
    ensures d[i + |h|..i + |h| + |payload|] == payload
  {
    var e := h + payload;
    assert forall k :: 0 <= k < |e| ==> d[i + k] == e[k];
    assert forall k :: 1 <= k < |h| ==> d[i + k] == h[k];
    assert forall k :: 0 <= k < |payload| ==> d[i + |h| + k] == e[|h| + k] == payload[k];
  }

  lemma StringIsTaken(d: Bytes, i: nat, b: Bytes)
    requires i + |b| <= |d| && d[i..i + |b|] == b
    ensures DecodeString(d, i, |b|) == Ok((Str(b), i + |b|))
  {
  }

  lemma ScalarIsItem(d: Bytes, i: nat)
    requires i < |d| && d[i] < 0xC0
    ensures DecodeItem(d, i) == DecodeScalar(d, i)
  {
  }

  lemma OneByteString(b: Bytes, d: Bytes, i: nat)
    requires |b| == 1 && b[0] < 0x80 && i + 1 <= |d| && d[i..i + 1] == b
    ensures DecodeItem(d, i) == Ok((Str(b), i + 1))
  {
    assert d[i] == b[0];
    ScalarIsItem(d, i);
  }

  lemma DecodeShortString(b: Bytes, d: Bytes, i: nat)
    requires |b| < 56 && (|b| == 1 ==> b[0] >= 0x80)
    requires i + 1 + |b| <= |d| && d[i] == 0x80 + |b| && d[i + 1..i + 1 + |b|] == b
    ensures DecodeItem(d, i) == Ok((Str(b), i + 1 + |b|))
  {
    assert |b| == 1 ==> d[i + 1..i + 1 + |b|][0] == d[i + 1];
    ScalarIsItem(d, i);
    StringIsTaken(d, i + 1, b);
  }

  lemma LongScalarLength(d: Bytes, i: nat, ll: nat, n: nat)
    requires 1 <= ll <= 8 && i < |d| && d[i] == 0xB7 + ll && LongLen(d, i + 1, ll) == Ok(n)
    ensures DecodeScalar(d, i) == DecodeString(d, i + 1 + ll, n)
  {
  }

  lemma DecodeLongString(b: Bytes, d: Bytes, i: nat, ll: nat)
    requires 1 <= ll <= 8 && i < |d| && d[i] == 0xB7 + ll && LongLen(d, i + 1, ll) == Ok(|b|)
    requires i + 1 + ll + |b| <= |d| && d[i + 1 + ll..i + 1 + ll + |b|] == b
    ensures DecodeItem(d, i) == Ok((Str(b), i + 1 + ll + |b|))
  {
    ScalarIsItem(d, i);
    LongScalarLength(d, i, ll, |b|);
    StringIsTaken(d, i + 1 + ll, b);
  }

  lemma LongListLength(d: Bytes, i: nat, ll: nat, n: nat)
    requires 1 <= ll <= 8 && i < |d| && d[i] == 0xF7 + ll && LongLen(d, i + 1, ll) == Ok(n)
    ensures DecodeItem(d, i) == DecodeList(d, i + 1 + ll, n)
  {
  }

  lemma ShortListLength(d: Bytes, i: nat, n: nat)
    requires n < 56 && i < |d| && d[i] == 0xC0 + n
    ensures DecodeItem(d, i) == DecodeList(d, i + 1, n)
  {
  }

  /** The prefix of a payload of 56 bytes or more. */
  lemma LongHeader(n: nat, offset: nat)
    requires 56 <= n && offset <= 0xC0 && Header(n, offset).Some?
    ensures var nb := ToBE(n);
      nb != [] && Header(n, offset).value == [offset + 55 + |nb|] + nb && (n < LIMIT <==> |nb| <= 8)
  {
    LimitIsEightBytes();
    ToBELength(n, 8);
  }

  /** Header and payload of a short string. */
  lemma {:induction false} ShortStringItem(b: Bytes, d: Bytes, i: nat)
    requires |b| < 56 && (|b| == 1 ==> b[0] >= 0x80)
    requires i + 1 + |b| <= |d| && d[i..i + 1 + |b|] == [0x80 + |b|] + b
    ensures DecodeItem(d, i) == Ok((Str(b), i + 1 + |b|))
  {
    SplitAtHeader([0x80 + |b|], b, d, i);
    DecodeShortString(b, d, i);
  }

  /** And of a long one. */
  lemma {:induction false} LongStringItem(b: Bytes, nb: Bytes, d: Bytes, i: nat)
    requires |b| >= 56 && nb == ToBE(|b|) && 1 <= |nb| <= 8
    requires i + 1 + |nb| + |b| <= |d| && d[i..i + 1 + |nb| + |b|] == [0x80 + 55 + |nb|] + nb + b
    ensures DecodeItem(d, i) == Ok((Str(b), i + 1 + |nb| + |b|))
  {
    var h: Bytes := [0x80 + 55 + |nb|] + nb;
    SplitAtHeader(h, b, d, i);
    assert h[1..] == nb;
    LongHeaderReadsBack(|b|, d, i + 1);
    DecodeLongString(b, d, i, |nb|);
  }

  lemma {:induction false} DecodeEncodeString(b: Bytes, e: Bytes, d: Bytes, i: nat)
    requires Encode(Str(b)) == Some(e) && |b| < LIMIT
    requires i + |e| <= |d| && d[i..i + |e|] == e
    ensures e != [] && DecodeItem(d, i) == Ok((Str(b), i + |e|))
  {
    if |b| == 1 && b[0] < 0x80 {
      OneByteString(b, d, i);
    } else if |b| < 56 {
      assert e == [0x80 + |b|] + b;
      ShortStringItem(b, d, i);
    } else {
      var nb := ToBE(|b|);
      LongHeader(|b|, 0x80);
      assert e == [0x80 + 55 + |nb|] + nb + b;
      LongStringItem(b, nb, d, i);
    }
  }

  lemma SmallLimit()
    ensures 56 <= LIMIT
  {
  }

  /** A list prefix leads to its payload. */
  lemma {:induction false} DecodeListHeader(payload: Bytes, d: Bytes, i: nat)
    requires Header(|payload|, 0xC0).Some?
    requires var h := Header(|payload|, 0xC0).value;
             i + |h| + |payload| <= |d| && d[i..i + |h| + |payload|] == h + payload
    ensures var h := Header(|payload|, 0xC0).value;
            |payload| < LIMIT && DecodeItem(d, i) == DecodeList(d, i + |h|, |payload|)
  {
    var h := Header(|payload|, 0xC0).value;
    SplitAtHeader(h, payload, d, i);
    if |payload| >= 56 {
      LongHeader(|payload|, 0xC0);
      LongHeaderReadsBack(|payload|, d, i + 1);
      LongListLength(d, i, |h| - 1, |payload|);
    } else {
      ShortListLength(d, i, |payload|);
      SmallLimit();
    }
  }

  lemma {:induction false} DecodeEncode(x: Item, e: Bytes, d: Bytes, i: nat)
    requires Encode(x) == Some(e)
    requires x.Str? ==> |x.b| < LIMIT
    requires i + |e| <= |d| && d[i..i + |e|] == e
    ensures e != [] && DecodeItem(d, i) == Ok((x, i + |e|))
    decreases x, 0
  {
    match x
    case Str(b) => DecodeEncodeString(b, e, d, i);
    case List(xs) =>
      var payload := EncodeAll(xs).value;
      var h := Header(|payload|, 0xC0).value;
      assert e == h + payload && |e| == |h| + |payload|;
      assert |payload| < LIMIT && DecodeItem(d, i) == DecodeList(d, i + |h|, |payload|) by {
        DecodeListHeader(payload, d, i);
      }
      SplitAtHeader(h, payload, d, i);
      DecodeEncodeAll(xs, payload, d, i + |h|);
  }

  lemma {:induction false} DecodeEncodeAll(xs: seq<Item>, es: Bytes, d: Bytes, i: nat)
    requires EncodeAll(xs) == Some(es) && |es| < LIMIT
    requires i + |es| <= |d| && d[i..i + |es|] == es
    ensures DecodeItems(d, i, i + |es|) == Ok(xs)
    decreases xs, 1
  {
    if xs != [] {
      var e := Encode(xs[0]).value;
      var rest := EncodeAll(xs[1..]).value;
      assert es == e + rest;
      FrontAndBack(d, i, e, rest);
      EncodingIsNoShorter(xs[0], e);
      DecodeEncode(xs[0], e, d, i);
      DecodeEncodeAll(xs[1..], rest, d, i + |e|);
      assert [xs[0]] + xs[1..] == xs;
    }
  }

  lemma FrontAndBack(d: Bytes, i: nat, e: Bytes, rest: Bytes)
    requires i + |e| + |rest| <= |d| && d[i..i + |e + rest|] == e + rest
    ensures d[i..i + |e|] == e && d[i + |e|..i + |e| + |rest|] == rest
  {
    var w := d[i..i + |e + rest|];
    assert d[i..i + |e|] == w[..|e|] && d[i + |e|..i + |e| + |rest|] == w[|e|..];
  }

  lemma EncodingIsNoShorter(x: Item, e: Bytes)
    requires Encode(x) == Some(e)
    ensures x.Str? ==> |x.b| <= |e|
  {
  }

  /**
   Round trip with its exact condition. Where `rlp_encode` returns at all, decoding its output
   gives the item back if and only if the item is not a string of 2^64 bytes or more (a list that
   long is never encoded, a string that long gets a list's prefix byte).
   */
  lemma RoundTrip(x: Item, e: Bytes)
    requires Encode(x) == Some(e)
    ensures Decode(e) == Ok(x) <==> (x.Str? ==> |x.b| < LIMIT)
  {
    if x.Str? && |x.b| >= LIMIT {
      LimitIsEightBytes();
      ToBELength(|x.b|, 8);
      assert e[0] >= 0xC0;
    } else {
      assert e[0..0 + |e|] == e;
      DecodeEncode(x, e, e, 0);
    }
  }

  // ---------------------------------------------------------------- encode(decode(b)) == b

  lemma {:induction false} EncodeDecode(d: Bytes, i: nat)
    ensures var r := DecodeItem(d, i);
            r.Ok? ==> Encode(r.value.0) == Some(d[i..r.value.1])
    decreases |d| - i, 0
  {
    if i < |d| {
      var p := d[i];
      if p < 0xC0 {
        EncodeDecodeString(d, i);
      } else if p < 0xF8 {
        assert d[i..i + 1] == [p];
        EncodeDecodeList(d, i, i + 1, p - 0xC0);
      } else if LongLen(d, i + 1, p - 0xF7).Ok? {
        LongPrefixInPlace(d, i, 0xC0);
        EncodeDecodeList(d, i, i + 1 + (p - 0xF7), LongLen(d, i + 1, p - 0xF7).value);
      }
    }
  }

  lemma EncodeDecodeString(d: Bytes, i: nat)
    requires i < |d| && d[i] < 0xC0
    ensures var r := DecodeScalar(d, i);
            r.Ok? ==> Encode(r.value.0) == Some(d[i..r.value.1])
  {
    var r := DecodeScalar(d, i);
    if r.Ok? && d[i] >= 0x80 {
      if d[i] < 0xB8 {
        assert d[i..i + 1] == [d[i]];
        HeaderInPlace(d, i, i + 1, r.value.0.b);
      } else {
        LongPrefixInPlace(d, i, 0x80);
        HeaderInPlace(d, i, i + 1 + (d[i] - 0xB7), r.value.0.b);
      }
    }
  }

  lemma {:induction false} EncodeDecodeList(d: Bytes, i: nat, start: nat, n: nat)
    requires i < start <= |d| && Header(n, 0xC0) == Some(d[i..start])
    ensures var r := DecodeList(d, start, n);
            r.Ok? ==> Encode(r.value.0) == Some(d[i..start + n])
    decreases |d| - start, 2
  {
    if DecodeList(d, start, n).Ok? {
      EncodeDecodeItems(d, start, start + n);
      assert d[i..start + n] == d[i..start] + d[start..start + n];
    }
  }

  /** A string's canonical prefix, found in front of it. */
  lemma HeaderInPlace(d: Bytes, i: nat, start: nat, b: Bytes)
    requires i <= start && start + |b| <= |d|
    requires Header(|b|, 0x80) == Some(d[i..start]) && d[start..start + |b|] == b
    requires !(|b| == 1 && b[0] < 0x80)
    ensures Encode(Str(b)) == Some(d[i..start + |b|])
  {
    assert d[i..start + |b|] == d[i..start] + b;
  }

  /** An accepted length of length, with the bytes it announces, is the canonical prefix. */
  lemma LongPrefixInPlace(d: Bytes, i: nat, offset: nat)
    requires i < |d| && 1 <= d[i] - (offset + 55)
    requires LongLen(d, i + 1, d[i] - (offset + 55)).Ok?
    ensures var ll := d[i] - (offset + 55);
            Header(LongLen(d, i + 1, ll).value, offset) == Some(d[i..i + 1 + ll])
  {
    var ll := d[i] - (offset + 55);
    var nb := d[i + 1..i + 1 + ll];
    ToBEFromBE(nb);
    assert d[i..i + 1 + ll] == [d[i]] + nb;
  }

  lemma {:induction false} EncodeDecodeItems(d: Bytes, i: nat, end: nat)
    requires end <= |d|
    ensures var r := DecodeItems(d, i, end);
            r.Ok? ==> i <= end && EncodeAll(r.value) == Some(d[i..end])
    decreases if i <= |d| then |d| - i else 0, 1
  {
    var r := DecodeItems(d, i, end);
    if r.Ok? && i < end {
      EncodeDecode(d, i);
      var (x, j) := DecodeItem(d, i).value;
      EncodeDecodeItems(d, j, end);
      assert r.value[1..] == DecodeItems(d, j, end).value;
      assert d[i..end] == d[i..j] + d[j..end];
    }
  }

  /** Whatever the decoder accepts is the encoding of what it returns ... */
  lemma AcceptedIsCanonical(b: Bytes)
    requires Decode(b).Ok?
    ensures Encode(Decode(b).value) == Some(b)
  {
    EncodeDecode(b, 0);
    assert b[0..|b|] == b;
  }

  /** ... so an item has exactly one accepted byte string: there is nothing to malleate. */
  lemma OneEncodingPerItem(b: Bytes, c: Bytes)
    requires Decode(b).Ok? && Decode(b) == Decode(c)
    ensures b == c
  {
    AcceptedIsCanonical(b);
    AcceptedIsCanonical(c);
  }
}
