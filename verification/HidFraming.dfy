/**
 64-byte HID framing, the sending half: how the host (macos-demo/pq1-demo.c, `frames`) and the
 firmware (nonsecure/src/usb/transport.rs, `poll_tx`) cut a message into reports.
 */
module HidFraming {
  import opened Bytes
  import opened Buffers

  const REPORT: nat := 64
  const TAG_PING: Byte := 0x02
  const TAG_APDU: Byte := 0x05
  const CHANNEL: nat := 1
  const FIRST_DATA: nat := REPORT - 7
  const CONT_DATA: nat := REPORT - 5
  const MAX_APDU: nat := 4096

  type Frame = Bytes

  function Min(a: nat, b: nat): nat {
    if a < b then a else b
  }

  /** Header and data at the front of a frame, zeros behind them. */
  function Fill(head: Bytes, data: Bytes): (f: Frame)
    requires |head| + |data| <= REPORT
    ensures |f| == REPORT
  {
    head + data + Zeros(REPORT - |head| - |data|)
  }

  /** The two bytes of a 16-bit field: `(uint8_t)(n >> 8)` and `(uint8_t)n`. */
  function Hi(n: nat): Byte { n / 256 % 256 }

  function Lo(n: nat): Byte { n % 256 }

  /** The field those two bytes are read back as. */
  function U16(hi: Byte, lo: Byte): nat { (hi as int) * 256 + lo as int }

  lemma U16ReadsBack(n: nat)
    requires n < 0x10000
    ensures U16(Hi(n), Lo(n)) == n
  {
  }

  function FirstHead(channel: nat, n: nat): Bytes {
    [Hi(channel), Lo(channel), TAG_APDU, 0, 0, Hi(n), Lo(n)]
  }

  function ContHead(channel: nat, sequence: nat): Bytes {
    [Hi(channel), Lo(channel), TAG_APDU, Hi(sequence), Lo(sequence)]
  }

  /** The frames that carry `m` from `off` on, numbered from `sequence`. */
  function ContFrames(channel: nat, m: Bytes, off: nat, sequence: nat): seq<Frame>
    decreases |m| - off
  {
    if off >= |m| then [] else
    var k := Min(|m| - off, CONT_DATA);
    [Fill(ContHead(channel, sequence), m[off..off + k])]
    + ContFrames(channel, m, off + k, sequence + 1)
  }

  /** A message as frames. */
  function FramesOf(channel: nat, m: Bytes): seq<Frame> {
    var k := Min(|m|, FIRST_DATA);
    [Fill(FirstHead(channel, |m|), m[..k])] + ContFrames(channel, m, k, 1)
  }

  /** The bytes `write_apdu` cuts at every 64th byte. */
  function Chunks(w: Bytes): seq<Frame> {
    if |w| < REPORT then [] else [w[..REPORT]] + Chunks(w[REPORT..])
  }

  function ContWire(channel: nat, m: Bytes, off: nat, sequence: nat): Bytes
    decreases |m| - off
  {
    if off >= |m| then [] else
    var k := Min(|m| - off, CONT_DATA);
    Fill(ContHead(channel, sequence), m[off..off + k]) + ContWire(channel, m, off + k, sequence + 1)
  }

  function Wire(channel: nat, m: Bytes): Bytes {
    var k := Min(|m|, FIRST_DATA);
    Fill(FirstHead(channel, |m|), m[..k]) + ContWire(channel, m, k, 1)
  }

  lemma {:induction false} ChunksOfContWire(channel: nat, m: Bytes, off: nat, sequence: nat)
    ensures Chunks(ContWire(channel, m, off, sequence)) == ContFrames(channel, m, off, sequence)
    decreases |m| - off
  {
    if off < |m| {
      var k := Min(|m| - off, CONT_DATA);
      var f := Fill(ContHead(channel, sequence), m[off..off + k]);
      var rest := ContWire(channel, m, off + k, sequence + 1);
      ChunksOfContWire(channel, m, off + k, sequence + 1);
      assert (f + rest)[..REPORT] == f && (f + rest)[REPORT..] == rest;
    }
  }

  /** The wire form is the frames, end to end. */
  lemma ChunksOfWire(channel: nat, m: Bytes)
    ensures Chunks(Wire(channel, m)) == FramesOf(channel, m)
  {
    var k := Min(|m|, FIRST_DATA);
    var f, rest := Fill(FirstHead(channel, |m|), m[..k]), ContWire(channel, m, k, 1);
    ChunksOfContWire(channel, m, k, 1);
    assert (f + rest)[..REPORT] == f && (f + rest)[REPORT..] == rest;
  }

  // ---------------------------------------------------------------- the host cuts

  method FillIn(f: array<Byte>, head: Bytes, data: Bytes)
    requires f.Length == REPORT && |head| + |data| <= REPORT
    modifies f
    ensures f[..] == Fill(head, data)
  {
    Clear(f);
    CopyIn(f, 0, head);
    assert f[|head|..] == Zeros(REPORT - |head|);
    CopyIn(f, |head|, data);
    var k := |head| + |data|;
    assert f[k..] == Zeros(REPORT - k);
    assert f[..] == f[..k] + f[k..];
  }

  /** The scratch frame is filled and appended. */
  method PutFrame(f: array<Byte>, head: Bytes, data: Bytes, out: Buf)
    requires f.Length == REPORT && |head| + |data| <= REPORT
    requires out.Valid() && f != out.b && REPORT <= CAP - out.n
    modifies f, out, out.b
    ensures out.Valid() && out.b == old(out.b)
    ensures out.Contents == old(out.Contents) + Fill(head, data)
  {
    FillIn(f, head, data);
    out.Put(f[..]);
  }

  /** `frames`: one 64-byte scratch frame, rewritten for every report. */
  method Frames(apdu: Bytes, out: Buf)
    requires out.Valid() && |Wire(CHANNEL, apdu)| <= CAP - out.n
    modifies out, out.b
    ensures out.Valid() && out.b == old(out.b)
    ensures out.Contents == old(out.Contents) + Wire(CHANNEL, apdu)
  {
    var f := new Byte[REPORT](_ => 0);
    var k := if |apdu| < FIRST_DATA then |apdu| else FIRST_DATA;
    ghost var base := out.Contents;
    ghost var all := base + Wire(CHANNEL, apdu);
    Associative(base, Fill(FirstHead(CHANNEL, |apdu|), apdu[..k]), ContWire(CHANNEL, apdu, k, 1));
    PutFrame(f, FirstHead(CHANNEL, |apdu|), apdu[..k], out);
    var off, sequence := k, 1;
    while off < |apdu|
      invariant off <= |apdu|
      invariant out.Valid() && out.b == old(out.b)
      invariant out.Contents + ContWire(CHANNEL, apdu, off, sequence) == all
    {
      k := if |apdu| - off < CONT_DATA then |apdu| - off else CONT_DATA;
      ghost var data := apdu[off..off + k];
      ghost var frame := Fill(ContHead(CHANNEL, sequence), data);
      Associative(out.Contents, frame, ContWire(CHANNEL, apdu, off + k, sequence + 1));
      PutFrame(f, ContHead(CHANNEL, sequence), apdu[off..off + k], out);
      off, sequence := off + k, sequence + 1;
    }
    assert out.Contents + [] == out.Contents;
  }

  /** `write_apdu` without its errors: the reports handed to the OS, in order. */
  method WriteApdu(apdu: Bytes) returns (reports: seq<Frame>)
    requires |Wire(CHANNEL, apdu)| <= CAP
    ensures reports == FramesOf(CHANNEL, apdu)
  {
    var fr := new Buf();
    Frames(apdu, fr);
    assert fr.Contents == Wire(CHANNEL, apdu);
    ChunksOfWire(CHANNEL, apdu);
    var w, i := fr.b[..fr.n], 0;
    reports := [];
    while i + REPORT <= |w|
      invariant i <= |w|
      invariant reports + Chunks(w[i..]) == FramesOf(CHANNEL, apdu)
    {
      assert w[i..][..REPORT] == w[i..i + REPORT];
      assert w[i..][REPORT..] == w[i + REPORT..];
      reports, i := reports + [w[i..i + REPORT]], i + REPORT;
    }
  }

  // ---------------------------------------------------------------- the firmware cuts

  const TX_BUF: nat := 256

  /** The transmit state of the firmware's transport. */
  datatype Tx = Tx(channel: nat, buf: Bytes, pos: nat, sequence: nat, active: bool)

  /** `queue_response`: a response longer than the buffer is cut off. */
  function QueueResponse(channel: nat, response: Bytes): Tx {
    Tx(channel, response[..Min(|response|, TX_BUF)], 0, 0, true)
  }

  /** `poll_tx`: the next report of the response, if one is still owed. */
  function PollTx(tx: Tx): (Tx, Option<Frame>)
    requires tx.pos <= |tx.buf|
  {
    if !tx.active then (tx, None) else
    var chunk := Min(|tx.buf| - tx.pos, if tx.sequence == 0 then FIRST_DATA else CONT_DATA);
    var head := if tx.sequence == 0 then FirstHead(tx.channel, |tx.buf|)
                else ContHead(tx.channel, tx.sequence);
    var pos := tx.pos + chunk;
    (tx.(pos := pos, sequence := tx.sequence + 1, active := pos < |tx.buf|),
     Some(Fill(head, tx.buf[tx.pos..pos])))
  }

  /** Every report still owed. */
  function Transmit(tx: Tx): seq<Frame>
    requires tx.pos <= |tx.buf|
    decreases |tx.buf| - tx.pos, tx.active
  {
    if !tx.active then [] else
    var (next, report) := PollTx(tx);
    [report.value] + Transmit(next)
  }

  lemma {:induction false} TransmitRest(tx: Tx)
    requires tx.pos <= |tx.buf| && tx.sequence > 0 && tx.active == (tx.pos < |tx.buf|)
    ensures Transmit(tx) == ContFrames(tx.channel, tx.buf, tx.pos, tx.sequence)
    decreases |tx.buf| - tx.pos
  {
    if tx.active {
      TransmitRest(PollTx(tx).0);
    }
  }

  /** The firmware's state machine cuts a response exactly as the host's loop would. */
  lemma TransmitIsFramesOf(channel: nat, response: Bytes)
    ensures Transmit(QueueResponse(channel, response)) ==
            FramesOf(channel, response[..Min(|response|, 256)])
  {
    TransmitRest(PollTx(QueueResponse(channel, response)).0);
  }
}
