/**
 64-byte HID framing, the receiving half: the host's `read_reply` (macos-demo/pq1-demo.c) and the
 firmware's `HidFrameAssembler` (shared/src/apdu_framing.rs).

 Either end gets the message the other end cut up, whatever else the link carries in between.
 */
module HidReassembly {
  import opened Bytes
  import opened Buffers
  import opened HidFraming

  /** A report as `hid_read` returns it. */
  type Report = f: Bytes | |f| == REPORT witness seq(64, _ => 0)

  function Sequence(f: Report): nat { U16(f[3], f[4]) }

  function Length(f: Report): nat { U16(f[5], f[6]) }

  // ---------------------------------------------------------------- the host puts together

  datatype IoErr = IoTimeout | IoGone | IoCancelled | IoProto

  datatype ReadResult = Replied(sw: nat, data: Bytes) | Failed(error: IoErr)

  /** One turn of the waiting loop: the hook cancels, the deadline passes, or `hid_read` returns. */
  datatype Event = Cancel | Deadline | Gone | Idle | Got(f: Report)

  /** `seq`, `expected` and `acc[..got]` between two turns. */
  datatype Reading = Reading(sequence: nat, expected: nat, acc: Bytes)

  const START := Reading(0, 0, [])

  /** Not this reply's: another tag, or the tail of a stale reply before the first frame. */
  predicate Skipped(sequence: nat, f: Report) {
    f[2] != TAG_APDU || (sequence == 0 && Sequence(f) != 0)
  }

  /** The state after a frame of this reply, or None when the frame breaks the protocol. */
  function Accept(st: Reading, f: Report): (r: Option<Reading>)
    requires |st.acc| <= st.expected <= MAX_APDU
    ensures r.Some? ==> |r.value.acc| <= r.value.expected <= MAX_APDU && r.value.sequence > 0
  {
    if Sequence(f) != st.sequence then None
    else if st.sequence == 0 then
      if Length(f) > MAX_APDU then None
      else Some(Reading(1, Length(f), f[7..7 + Min(Length(f), FIRST_DATA)]))
    else
      Some(Reading(st.sequence + 1, st.expected,
                   st.acc + f[5..5 + Min(st.expected - |st.acc|, CONT_DATA)]))
  }

  function Finish(acc: Bytes): ReadResult {
    if |acc| < 2 then Failed(IoProto)
    else Replied(U16(acc[|acc| - 2], acc[|acc| - 1]), acc[..|acc| - 2])
  }

  /** `read_reply` from a given state: its result, and the events it leaves. */
  function Read(evs: seq<Event>, st: Reading): (ReadResult, seq<Event>)
    requires |st.acc| <= st.expected <= MAX_APDU
  {
    if evs == [] then (Failed(IoTimeout), []) else
    match evs[0]
    case Cancel => (Failed(IoCancelled), evs[1..])
    case Deadline => (Failed(IoTimeout), evs[1..])
    case Gone => (Failed(IoGone), evs[1..])
    case Idle => Read(evs[1..], st)
    case Got(f) =>
      if Skipped(st.sequence, f) then Read(evs[1..], st) else
      match Accept(st, f)
      case None => (Failed(IoProto), evs[1..])
      case Some(next) =>
        if |next.acc| >= next.expected then (Finish(next.acc), evs[1..])
        else Read(evs[1..], next)
  }

  /** The part of the loop that checks a frame of this reply and copies its data behind `acc[..got]`. */
  method CopyFrame(f: Report, sequence: nat, expected: nat, got: nat, acc: array<Byte>)
    returns (ok: bool, expected': nat, got': nat)
    requires acc.Length == MAX_APDU + REPORT && got <= expected <= MAX_APDU
    requires sequence == 0 ==> got == 0
    modifies acc
    ensures Accept(Reading(sequence, expected, old(acc[..got])), f) ==
            if ok && got' <= acc.Length then Some(Reading(sequence + 1, expected', acc[..got'])) else None
    ensures ok ==> got' <= expected' <= MAX_APDU
  {
    expected', got' := expected, got;
    if U16(f[3], f[4]) != sequence {
      return false, expected', got';
    }
    var off, chunk;
    if sequence == 0 {
      expected' := U16(f[5], f[6]);
      if expected' > MAX_APDU {
        return false, expected', got';
      }
      off := 7;
      chunk := if expected' < FIRST_DATA then expected' else FIRST_DATA;
    } else {
      off := 5;
      chunk := if expected - got < CONT_DATA then expected - got else CONT_DATA;
    }
    assert off + chunk <= REPORT && got + chunk <= expected';
    CopyIn(acc, got, f[off..off + chunk]);
    return true, expected', got + chunk;
  }

  /**
   `read_reply`: the loop over the static buffer. On any stream at all `got <= expected <= 4096`
   holds, and each copy stays inside its 64-byte frame and inside the buffer.
   */
  method ReadReply(evs: seq<Event>, acc: array<Byte>) returns (r: ReadResult, left: seq<Event>)
    requires acc.Length == MAX_APDU + REPORT
    modifies acc
    ensures Read(evs, START) == (r, left)
  {
    var got: nat, expected: nat, sequence: nat := 0, 0, 0;
    left := evs;
    assert acc[..got] == [];
    while left != []
      invariant got <= expected <= MAX_APDU
      invariant sequence == 0 ==> got == 0
      invariant Read(evs, START) == Read(left, Reading(sequence, expected, acc[..got]))
      decreases |left|
    {
      var ev := left[0];
      left := left[1..];
      match ev {
        case Cancel => return Failed(IoCancelled), left;
        case Deadline => return Failed(IoTimeout), left;
        case Gone => return Failed(IoGone), left;
        case Idle =>
        case Got(f) =>
          if f[2] == TAG_APDU && (sequence != 0 || U16(f[3], f[4]) == 0) {
            var ok;
            ok, expected, got := CopyFrame(f, sequence, expected, got, acc);
            if !ok {
              return Failed(IoProto), left;
            }
            sequence := sequence + 1;
            if got >= expected {
              r := LastFrame(acc, expected);
              return;
            }
          }
      }
    }
    return Failed(IoTimeout), [];
  }

  method LastFrame(acc: array<Byte>, expected: nat) returns (r: ReadResult)
    requires expected <= acc.Length
    ensures r == Finish(acc[..expected])
  {
    if expected < 2 {
      return Failed(IoProto);
    }
    assert acc[..expected][..expected - 2] == acc[..expected - 2];
    return Replied(U16(acc[expected - 2], acc[expected - 1]), acc[..expected - 2]);
  }

  // ---------------------------------------------------------------- the host hears the message

  /** Before the first frame: another tag than 0x05, or another number than 0. After it: another tag. */
  predicate NotOurs(sequence: nat, f: Report) {
    f[2] != 0x05 || (sequence == 0 && (f[3] != 0 || f[4] != 0))
  }

  lemma NotOursIsSkipped(sequence: nat, f: Report)
    ensures NotOurs(sequence, f) <==> Skipped(sequence, f)
  {
  }

  /** Events that carry frames `fs` in order among such reports and idle turns, the last at the end. */
  ghost predicate Carries(evs: seq<Event>, fs: seq<Frame>, sequence: nat) {
    if fs == [] then evs == []
    else
      && evs != []
      && ((evs[0].Idle? && Carries(evs[1..], fs, sequence))
          || (evs[0].Got? && NotOurs(sequence, evs[0].f) && Carries(evs[1..], fs, sequence))
          || (evs[0].Got? && evs[0].f == fs[0] && Carries(evs[1..], fs[1..], sequence + 1)))
  }

  lemma FillReadsBack(head: Bytes, data: Bytes)
    requires |head| + |data| <= REPORT
    ensures var f := Fill(head, data);
            f[..|head|] == head && f[|head|..|head| + |data|] == data
  {
  }

  /** The next frame of a message, as its receiver finds it. */
  lemma NextContFrame(channel: nat, m: Bytes, off: nat, sequence: nat)
    requires channel < 0x10000 && sequence < 0x10000 && off < |m|
    ensures var fs, k := ContFrames(channel, m, off, sequence), Min(|m| - off, CONT_DATA);
            && fs != [] && |fs[0]| == REPORT && fs[0][2] == TAG_APDU
            && Sequence(fs[0]) == sequence && U16(fs[0][0], fs[0][1]) == channel
            && m[..off] + fs[0][5..5 + k] == m[..off + k]
            && fs[1..] == ContFrames(channel, m, off + k, sequence + 1)
  {
    var fs, k := ContFrames(channel, m, off, sequence), Min(|m| - off, CONT_DATA);
    var head := ContHead(channel, sequence);
    FillReadsBack(head, m[off..off + k]);
    assert fs[0][..5] == head;
    U16ReadsBack(channel);
    U16ReadsBack(sequence);
    assert m[..off] + m[off..off + k] == m[..off + k];
  }

  lemma FirstFrame(channel: nat, m: Bytes)
    requires channel < 0x10000 && |m| < 0x10000
    ensures var fs, k := FramesOf(channel, m), Min(|m|, FIRST_DATA);
            && fs != [] && |fs[0]| == REPORT && fs[0][2] == TAG_APDU
            && Sequence(fs[0]) == 0 && Length(fs[0]) == |m| && U16(fs[0][0], fs[0][1]) == channel
            && fs[0][7..7 + k] == m[..k]
            && fs[1..] == ContFrames(channel, m, k, 1)
  {
    var k := Min(|m|, FIRST_DATA);
    FirstHeadReadsBack(channel, |m|, m[..k]);
  }

  lemma FirstHeadReadsBack(channel: nat, n: nat, data: Bytes)
    requires channel < 0x10000 && n < 0x10000 && |data| <= FIRST_DATA
    ensures var f := Fill(FirstHead(channel, n), data);
            && f[2] == TAG_APDU && Sequence(f) == 0
            && Length(f) == n && U16(f[0], f[1]) == channel && f[7..7 + |data|] == data
  {
    var head := FirstHead(channel, n);
    var f := Fill(head, data);
    FillReadsBack(head, data);
    assert f[..7] == head;
    U16ReadsBack(channel);
    U16ReadsBack(n);
  }

  /** One turn of the loop. */
  lemma ReadTurn(evs: seq<Event>, rest: seq<Event>, st: Reading)
    requires evs != [] && |st.acc| <= st.expected <= MAX_APDU
    ensures evs[0].Idle? ==> Read(evs + rest, st) == Read(evs[1..] + rest, st)
    ensures evs[0].Got? && Skipped(st.sequence, evs[0].f) ==>
              Read(evs + rest, st) == Read(evs[1..] + rest, st)
    ensures evs[0].Got? && !Skipped(st.sequence, evs[0].f) && Accept(st, evs[0].f).Some? ==>
              var next := Accept(st, evs[0].f).value;
              Read(evs + rest, st) == if |next.acc| >= next.expected then (Finish(next.acc), evs[1..] + rest)
                                      else Read(evs[1..] + rest, next)
  {
    assert (evs + rest)[1..] == evs[1..] + rest;
  }

  /** Continuation frames in their receiver's terms: numbered on, and together the rest of `m`. */
  ghost predicate Continues(channel: nat, m: Bytes, off: nat, sequence: nat, fs: seq<Frame>)
    decreases |m| - off
  {
    if off >= |m| then fs == [] else
    var k := Min(|m| - off, CONT_DATA);
    && fs != [] && |fs[0]| == REPORT && fs[0][2] == TAG_APDU
    && Sequence(fs[0]) == sequence && U16(fs[0][0], fs[0][1]) == channel
    && m[..off] + fs[0][5..5 + k] == m[..off + k]
    && Continues(channel, m, off + k, sequence + 1, fs[1..])
  }

  lemma {:induction false} ContFramesContinue(channel: nat, m: Bytes, off: nat, sequence: nat)
    requires channel < 0x10000 && |m| <= MAX_APDU && sequence <= off + 1
    ensures Continues(channel, m, off, sequence, ContFrames(channel, m, off, sequence))
    decreases |m| - off
  {
    if off < |m| {
      NextContFrame(channel, m, off, sequence);
      ContFramesContinue(channel, m, off + Min(|m| - off, CONT_DATA), sequence + 1);
    }
  }

  /** In the middle of a reply: the rest of the frames complete it. */
  lemma {:induction false} ReadCompletes(channel: nat, m: Bytes, off: nat, sequence: nat,
                                         fs: seq<Frame>, evs: seq<Event>, rest: seq<Event>)
    requires 2 <= |m| <= MAX_APDU && off < |m| && sequence > 0
    requires Continues(channel, m, off, sequence, fs) && Carries(evs, fs, sequence)
    ensures Read(evs + rest, Reading(sequence, |m|, m[..off])) == (Finish(m), rest)
    decreases |evs|
  {
    var st := Reading(sequence, |m|, m[..off]);
    ReadTurn(evs, rest, st);
    if (evs[0].Idle? || (evs[0].Got? && NotOurs(sequence, evs[0].f))) && Carries(evs[1..], fs, sequence) {
      ReadCompletes(channel, m, off, sequence, fs, evs[1..], rest);
    } else {
      var k := Min(|m| - off, CONT_DATA);
      assert Accept(st, evs[0].f) == Some(Reading(sequence + 1, |m|, m[..off + k]));
      if off + k < |m| {
        ReadCompletes(channel, m, off + k, sequence + 1, fs[1..], evs[1..], rest);
      } else {
        assert m[..off + k] == m && evs[1..] + rest == rest;
      }
    }
  }

  /** All frames of a message in their receiver's terms. */
  ghost predicate Begins(channel: nat, m: Bytes, fs: seq<Frame>) {
    var k := Min(|m|, FIRST_DATA);
    && fs != [] && |fs[0]| == REPORT && fs[0][2] == TAG_APDU
    && Sequence(fs[0]) == 0 && Length(fs[0]) == |m| && U16(fs[0][0], fs[0][1]) == channel
    && fs[0][7..7 + k] == m[..k]
    && Continues(channel, m, k, 1, fs[1..])
  }

  lemma FramesBegin(channel: nat, m: Bytes)
    requires channel < 0x10000 && |m| <= MAX_APDU
    ensures Begins(channel, m, FramesOf(channel, m))
  {
    FirstFrame(channel, m);
    ContFramesContinue(channel, m, Min(|m|, FIRST_DATA), 1);
  }

  /**
   The reply comes through the noise: after any idle turns, foreign tags and stale tails, with idle
   turns and foreign tags between its frames, `read_reply` returns the message that was framed and
   leaves everything behind it unread.
   */
  lemma ReadsTheMessage(channel: nat, m: Bytes, fs: seq<Frame>, evs: seq<Event>, rest: seq<Event>)
    requires channel < 0x10000 && 2 <= |m| <= MAX_APDU && fs == FramesOf(channel, m)
    requires Carries(evs, fs, 0)
    ensures Read(evs + rest, START) == (Replied(U16(m[|m| - 2], m[|m| - 1]), m[..|m| - 2]), rest)
  {
    FramesBegin(channel, m);
    FinishOf(m);
    ReadStarts(channel, m, fs, evs, rest);
  }

  /** The last two bytes are the status word. */
  lemma FinishOf(m: Bytes)
    requires 2 <= |m|
    ensures Finish(m) == Replied(U16(m[|m| - 2], m[|m| - 1]), m[..|m| - 2])
  {
  }

  lemma {:induction false} ReadStarts(channel: nat, m: Bytes, fs: seq<Frame>, evs: seq<Event>, rest: seq<Event>)
    requires 2 <= |m| <= MAX_APDU && Begins(channel, m, fs)
    requires Carries(evs, fs, 0)
    ensures Read(evs + rest, START) == (Finish(m), rest)
    decreases |evs|
  {
    ReadTurn(evs, rest, START);
    if (evs[0].Idle? || (evs[0].Got? && NotOurs(0, evs[0].f))) && Carries(evs[1..], fs, 0) {
      ReadStarts(channel, m, fs, evs[1..], rest);
    } else {
      var k := Min(|m|, FIRST_DATA);
      assert Accept(START, evs[0].f) == Some(Reading(1, |m|, m[..k]));
      if k < |m| {
        ReadCompletes(channel, m, k, 1, fs[1..], evs[1..], rest);
      } else {
        assert m[..k] == m && evs[1..] + rest == rest;
      }
    }
  }

  // ---------------------------------------------------------------- and nothing else

  /** Two bytes, the high one first. */
  function Two(s: Bytes, i: nat): nat
    requires i + 2 <= |s|
  {
    s[i] as int * 256 + s[i + 1] as int
  }

  /** Frames with tag 0x05, numbered from 0. */
  predicate Numbered(fs: seq<Report>) {
    forall j :: 0 <= j < |fs| ==> fs[j][2] == 0x05 && Two(fs[j], 3) == j
  }

  /** What frames carry: the first from byte 7 on, the others from byte 5 on. */
  function Payload(fs: seq<Report>): (m: Bytes)
    ensures |m| == if fs == [] then 0 else 57 + 59 * (|fs| - 1)
  {
    if fs == [] then []
    else if |fs| == 1 then fs[0][7..]
    else Payload(fs[..|fs| - 1]) + fs[|fs| - 1][5..]
  }

  /** All the frames of `m` and no more: bytes 5 and 6 of the first hold its length. */
  predicate Whole(fs: seq<Report>, m: Bytes) {
    && fs != [] && Numbered(fs) && |m| == Two(fs[0], 5) <= 4096
    && m <= Payload(fs) && (|fs| > 1 ==> |Payload(fs[..|fs| - 1])| < |m|)
  }

  /** In the middle of a message, `fs` are the frames read so far. */
  ghost predicate Midway(fs: seq<Report>, st: Reading) {
    && fs != [] && Numbered(fs) && st == Reading(|fs|, Two(fs[0], 5), Payload(fs))
    && |st.acc| < st.expected <= MAX_APDU
  }

  /** A frame that is accepted is the next one, and completes the message or not. */
  lemma {:induction false} NextFrame(fs: seq<Report>, st: Reading, f: Report)
    requires if fs == [] then st == START else Midway(fs, st)
    ensures Accept(st, f).Some? && f[2] == 0x05 ==>
              var next := Accept(st, f).value;
              if |next.acc| >= next.expected then Whole(fs + [f], next.acc) else Midway(fs + [f], next)
    ensures Accept(st, f).Some? <==>
              Two(f, 3) == |fs| && (fs == [] ==> Two(f, 5) <= 4096)
  {
    var all := fs + [f];
    assert all[..|all| - 1] == fs && all[|all| - 1] == f;
    if Accept(st, f).Some? && f[2] == 0x05 {
      var next := Accept(st, f).value;
      if fs == [] {
        assert Payload(all) == f[7..];
      } else {
        assert Payload(all) == Payload(fs) + f[5..];
      }
      assert next.acc <= Payload(all);
      assert |next.acc| < next.expected ==> next.acc == Payload(all);
    }
  }

  /** The events `used` carry the rest of a message whose frames so far are `fs`. */
  ghost predicate Completes(used: seq<Event>, fs: seq<Report>, more: seq<Report>, m: Bytes) {
    Carries(used, more, |fs|) && Whole(fs + more, m)
  }

  /** A reply is made of the frames of one whole message, in their order, with nothing but noise between. */
  lemma {:induction false} ReadIsWhole(evs: seq<Event>, fs: seq<Report>, st: Reading)
      returns (used: seq<Event>, more: seq<Report>, m: Bytes)
    requires if fs == [] then st == START else Midway(fs, st)
    requires Read(evs, st).0.Replied?
    ensures evs == used + Read(evs, st).1 && Completes(used, fs, more, m) && Read(evs, st).0 == Finish(m)
    decreases |evs|, 1
  {
    ReadHead(evs, st);
    if evs[0].Idle? || Skipped(st.sequence, evs[0].f) {
      used, more, m := ReadIsWhole(evs[1..], fs, st);
      OnePassedOver(evs[0], used, more, |fs|);
      used := [evs[0]] + used;
    } else {
      used, more, m := FrameIsNext(evs, fs, st);
    }
  }

  lemma {:induction false} FrameIsNext(evs: seq<Event>, fs: seq<Report>, st: Reading)
      returns (used: seq<Event>, more: seq<Report>, m: Bytes)
    requires if fs == [] then st == START else Midway(fs, st)
    requires Read(evs, st).0.Replied? && evs[0].Got? && !Skipped(st.sequence, evs[0].f)
    ensures evs == used + Read(evs, st).1 && Completes(used, fs, more, m) && Read(evs, st).0 == Finish(m)
    decreases |evs|, 0
  {
    ReadHead(evs, st);
    var f := evs[0].f;
    var next := Accept(st, f).value;
    NextFrame(fs, st, f);
    if |next.acc| >= next.expected {
      used, more, m := [evs[0]], [f], next.acc;
      LastTaken(f, fs, m);
    } else {
      used, more, m := ReadIsWhole(evs[1..], fs + [f], next);
      OneTaken(f, used, fs, more, m);
      used, more := [evs[0]] + used, [f] + more;
    }
  }

  /** A reply is not read at a turn that fails, and after a turn that passes it is the same. */
  lemma {:induction false} ReadHead(evs: seq<Event>, st: Reading)
    requires |st.acc| <= st.expected <= MAX_APDU && Read(evs, st).0.Replied?
    ensures evs != [] && (evs[0].Idle? || evs[0].Got?)
    ensures if evs[0].Idle? || Skipped(st.sequence, evs[0].f) then Read(evs, st) == Read(evs[1..], st)
            else
              && Accept(st, evs[0].f).Some?
              && var next := Accept(st, evs[0].f).value;
                 Read(evs, st) == if |next.acc| >= next.expected then (Finish(next.acc), evs[1..])
                                  else Read(evs[1..], next)
  {
  }

  lemma {:induction false} OnePassedOver(ev: Event, used: seq<Event>, more: seq<Report>, n: nat)
    requires Carries(used, more, n) && more != [] && (ev.Idle? || (ev.Got? && Skipped(n, ev.f)))
    ensures Carries([ev] + used, more, n)
  {
    assert ([ev] + used)[1..] == used;
    if ev.Got? {
      NotOursIsSkipped(n, ev.f);
    }
  }

  lemma {:induction false} LastTaken(f: Report, fs: seq<Report>, m: Bytes)
    requires Whole(fs + [f], m)
    ensures Completes([Got(f)], fs, [f], m)
  {
    assert [Got(f)][1..] == [] && [f][1..] == [];
  }

  lemma {:induction false} OneTaken(f: Report, used: seq<Event>, fs: seq<Report>, more: seq<Report>, m: Bytes)
    requires Completes(used, fs + [f], more, m)
    ensures Completes([Got(f)] + used, fs, [f] + more, m)
  {
    assert ([Got(f)] + used)[1..] == used && ([f] + more)[1..] == more;
    assert fs + [f] + more == fs + ([f] + more);
  }

  /** And such frames are read. */
  lemma {:induction false} WholeIsRead(used: seq<Event>, rest: seq<Event>, fs: seq<Report>, more: seq<Report>,
                                       st: Reading, m: Bytes)
    requires if fs == [] then st == START else Midway(fs, st)
    requires more != [] && Completes(used, fs, more, m)
    ensures Read(used + rest, st) == (Finish(m), rest)
    decreases |used|
  {
    ReadTurn(used, rest, st);
    if used[0].Got? {
      NotOursIsSkipped(|fs|, used[0].f);
    }
    if (used[0].Idle? || (used[0].Got? && NotOurs(|fs|, used[0].f))) && Carries(used[1..], more, |fs|) {
      WholeIsRead(used[1..], rest, fs, more, st, m);
    } else {
      FrameOfWhole(fs, more, st, m);
      assert used[0].f == more[0] && Carries(used[1..], more[1..], |fs| + 1);
      if |more| > 1 {
        NextFrame(fs, st, more[0]);
        assert fs + [more[0]] + more[1..] == fs + more;
        WholeIsRead(used[1..], rest, fs + [more[0]], more[1..], Accept(st, more[0]).value, m);
      } else {
        NothingMore(used[1..], more[1..], |fs| + 1, rest);
      }
    }
  }

  lemma NothingMore(used: seq<Event>, more: seq<Report>, n: nat, rest: seq<Event>)
    requires Carries(used, more, n) && |more| == 0
    ensures used + rest == rest
  {
    assert used == [];
  }

  /** The first of the frames still to come is accepted, and completes the message if it is the only one. */
  lemma {:induction false} FrameOfWhole(fs: seq<Report>, more: seq<Report>, st: Reading, m: Bytes)
    requires if fs == [] then st == START else Midway(fs, st)
    requires more != [] && Whole(fs + more, m)
    ensures !NotOurs(|fs|, more[0]) && Accept(st, more[0]).Some?
    ensures var next := Accept(st, more[0]).value;
            if |more| == 1 then next.acc == m && |m| == next.expected else |next.acc| < next.expected
  {
    var all, f := fs + more, more[0];
    assert all[|fs|] == f;
    NextFrame(fs, st, f);
    var next := Accept(st, f).value;
    assert all[0] == (fs + [f])[0];
    PayloadPrefix(all, |fs| + 1);
    assert all[..|fs| + 1] == fs + [f];
    if |more| == 1 {
      assert all == fs + [f];
    }
  }

  lemma {:induction false} PayloadPrefix(fs: seq<Report>, n: nat)
    requires n <= |fs|
    ensures Payload(fs[..n]) <= Payload(fs)
    decreases |fs|
  {
    if n < |fs| {
      PayloadPrefix(fs[..|fs| - 1], n);
      assert fs[..|fs| - 1][..n] == fs[..n];
    } else {
      assert fs[..n] == fs;
    }
  }

  /** The events start with a whole message among noise, whose last two bytes are the status word. */
  ghost predicate AnsweredBy(evs: seq<Event>, left: seq<Event>, sw: nat, data: Bytes,
                             used: seq<Event>, fs: seq<Report>, m: Bytes) {
    && evs == used + left && Carries(used, fs, 0) && Whole(fs, m)
    && |m| >= 2 && data == m[..|m| - 2] && sw == Two(m, |m| - 2)
  }

  ghost predicate Answered(evs: seq<Event>, left: seq<Event>, sw: nat, data: Bytes) {
    exists used, fs, m :: AnsweredBy(evs, left, sw, data, used, fs, m)
  }

  lemma {:induction false} ReplyIsAnswer(evs: seq<Event>, left: seq<Event>, sw: nat, data: Bytes)
    requires Read(evs, START) == (Replied(sw, data), left)
    ensures Answered(evs, left, sw, data)
  {
    var used, fs, m := ReadIsWhole(evs, [], START);
    assert [] + fs == fs;
    assert AnsweredBy(evs, left, sw, data, used, fs, m);
  }

  lemma {:induction false} AnswerIsReply(evs: seq<Event>, left: seq<Event>, sw: nat, data: Bytes,
                                         used: seq<Event>, fs: seq<Report>, m: Bytes)
    requires AnsweredBy(evs, left, sw, data, used, fs, m)
    ensures Read(evs, START) == (Replied(sw, data), left)
  {
    assert [] + fs == fs;
    WholeIsRead(used, left, [], fs, START, m);
  }

  /** `read_reply` answers exactly when it hears a whole message, and with that message. */
  lemma {:induction false} RepliesExactly(evs: seq<Event>, left: seq<Event>, sw: nat, data: Bytes)
    ensures Read(evs, START) == (Replied(sw, data), left) <==> Answered(evs, left, sw, data)
  {
    if Read(evs, START) == (Replied(sw, data), left) {
      ReplyIsAnswer(evs, left, sw, data);
    }
    if Answered(evs, left, sw, data) {
      var used, fs, m :| AnsweredBy(evs, left, sw, data, used, fs, m);
      AnswerIsReply(evs, left, sw, data, used, fs, m);
    }
  }

  // ---------------------------------------------------------------- the firmware puts together

  /** The assembler: `buf` is the part of the receive buffer already filled. */
  datatype Rx = Rx(channel: nat, expected: nat, sequence: nat, buf: Bytes)

  datatype FrameOutcome = ApduComplete(apdu: Bytes) | NeedMore | PingEcho | Dropped

  function ResetRx(rx: Rx): Rx {
    Rx(rx.channel, 0, 0, [])
  }

  /** A frame absorbed: done, or more to come. */
  function Absorbed(rx: Rx): (Rx, FrameOutcome) {
    if |rx.buf| >= rx.expected then (ResetRx(rx), ApduComplete(rx.buf)) else (rx, NeedMore)
  }

  /** `process_frame` on a full report, with a receive buffer of MAX_APDU bytes. */
  function ProcessFrame(rx: Rx, f: Report): (r: (Rx, FrameOutcome))
    requires |rx.buf| <= rx.expected <= MAX_APDU
    ensures |r.0.buf| <= r.0.expected <= MAX_APDU
  {
    var channel := U16(f[0], f[1]);
    if f[2] == TAG_PING then (rx, PingEcho)
    else if f[2] != TAG_APDU then (rx, Dropped)
    else if Sequence(f) == 0 then
      if rx.expected != 0 then
        if channel != rx.channel then (rx, Dropped) else (ResetRx(rx), Dropped)
      else if Length(f) == 0 || Length(f) > MAX_APDU then (Rx(channel, 0, 0, []), Dropped)
      else Absorbed(Rx(channel, Length(f), 1, f[7..7 + Min(FIRST_DATA, Length(f))]))
    else if channel != rx.channel then (rx, Dropped)
    else if Sequence(f) != rx.sequence then (ResetRx(rx), Dropped)
    else
      var take := Min(CONT_DATA, rx.expected - |rx.buf|);
      Absorbed(rx.(sequence := Min(rx.sequence + 1, 0xFFFF), buf := rx.buf + f[5..5 + take]))
  }

  /** The APDUs completed by a run of reports. */
  function Assemble(rx: Rx, fs: seq<Report>): (r: (Rx, seq<Bytes>))
    requires |rx.buf| <= rx.expected <= MAX_APDU
    ensures |r.0.buf| <= r.0.expected <= MAX_APDU
    decreases fs
  {
    if fs == [] then (rx, []) else
    var (next, outcome) := ProcessFrame(rx, fs[0]);
    var (last, apdus) := Assemble(next, fs[1..]);
    (last, if outcome.ApduComplete? then [outcome.apdu] + apdus else apdus)
  }

  /** Reports the owner's stream survives: PINGs and unknown tags, and another channel's frames mid-stream. */
  predicate Foreign(channel: nat, started: bool, f: Report) {
    f[2] != 0x05 || (started && Two(f, 0) != channel)
  }

  ghost predicate Delivers(channel: nat, started: bool, fs: seq<Report>, own: seq<Frame>)
    decreases fs
  {
    if own == [] then fs == []
    else
      && fs != []
      && ((Foreign(channel, started, fs[0]) && Delivers(channel, started, fs[1..], own))
          || (fs[0] == own[0] && Delivers(channel, true, fs[1..], own[1..])))
  }

  lemma {:induction false} AssembleCompletes(channel: nat, m: Bytes, off: nat, sequence: nat,
                                             own: seq<Frame>, fs: seq<Report>)
    requires |m| <= MAX_APDU && off < |m| && 1 <= sequence <= off + 1
    requires Continues(channel, m, off, sequence, own) && Delivers(channel, true, fs, own)
    ensures Assemble(Rx(channel, |m|, sequence, m[..off]), fs) == (Rx(channel, 0, 0, []), [m])
    decreases |fs|
  {
    var rx := Rx(channel, |m|, sequence, m[..off]);
    if Foreign(channel, true, fs[0]) && Delivers(channel, true, fs[1..], own) {
      assert ProcessFrame(rx, fs[0]).0 == rx;
      AssembleCompletes(channel, m, off, sequence, own, fs[1..]);
    } else {
      var k := Min(|m| - off, CONT_DATA);
      var next := Rx(channel, |m|, sequence + 1, m[..off + k]);
      assert ProcessFrame(rx, fs[0]) == Absorbed(next);
      if off + k < |m| {
        AssembleCompletes(channel, m, off + k, sequence + 1, own[1..], fs[1..]);
      } else {
        assert m[..off + k] == m && fs[1..] == [];
        assert Assemble(ResetRx(next), fs[1..]) == (ResetRx(next), []);
        assert [m] + [] == [m];
      }
    }
  }

  /** The request arrives: an idle assembler turns its frames into that one APDU and is idle again. */
  lemma AssemblesTheMessage(rx: Rx, channel: nat, m: Bytes, own: seq<Frame>, fs: seq<Report>)
    requires rx.expected == 0 && rx.buf == [] && channel < 0x10000 && 1 <= |m| <= MAX_APDU
    requires own == FramesOf(channel, m) && Delivers(channel, false, fs, own)
    ensures Assemble(rx, fs) == (Rx(channel, 0, 0, []), [m])
  {
    FramesBegin(channel, m);
    AssembleStarts(rx, channel, m, own, fs);
  }

  lemma {:induction false} AssembleStarts(rx: Rx, channel: nat, m: Bytes, own: seq<Frame>, fs: seq<Report>)
    requires rx.expected == 0 && rx.buf == [] && 1 <= |m| <= MAX_APDU
    requires Begins(channel, m, own)
    requires Delivers(channel, false, fs, own)
    ensures Assemble(rx, fs) == (Rx(channel, 0, 0, []), [m])
    decreases |fs|
  {
    if Foreign(channel, false, fs[0]) && Delivers(channel, false, fs[1..], own) {
      assert ProcessFrame(rx, fs[0]).0 == rx;
      AssembleStarts(rx, channel, m, own, fs[1..]);
    } else {
      var k := Min(|m|, FIRST_DATA);
      var next := Rx(channel, |m|, 1, m[..k]);
      assert ProcessFrame(rx, fs[0]) == Absorbed(next);
      if k < |m| {
        AssembleCompletes(channel, m, k, 1, own[1..], fs[1..]);
      } else {
        assert m[..k] == m && fs[1..] == [];
        assert Assemble(ResetRx(next), fs[1..]) == (ResetRx(next), []);
        assert [m] + [] == [m];
      }
    }
  }

  // ---------------------------------------------------------------- and nothing else, here as well

  ghost predicate IdleRx(rx: Rx) {
    rx.expected == 0 && rx.sequence == 0 && rx.buf == []
  }

  predicate OnChannel(fs: seq<Report>, channel: nat) {
    forall j :: 0 <= j < |fs| ==> Two(fs[j], 0) == channel
  }

  /** In the middle of a message, `own` are its frames so far. */
  ghost predicate Receiving(rx: Rx, own: seq<Report>) {
    && own != [] && Numbered(own) && OnChannel(own, rx.channel)
    && rx == Rx(rx.channel, Two(own[0], 5), |own|, Payload(own)) && |rx.buf| < rx.expected <= MAX_APDU
  }

  /** Reports that hold the frames `own`, in this order, and otherwise only what is foreign to them. */
  ghost predicate Gathers(channel: nat, part: seq<Report>, own: seq<Report>)
    decreases |part|
  {
    if part == [] then own == []
    else
      var n := |part| - 1;
      || (Foreign(channel, own != [], part[n]) && Gathers(channel, part[..n], own))
      || (own != [] && part[n] == own[|own| - 1] && Gathers(channel, part[..n], own[..|own| - 1]))
  }

  /** A frame is the next one of the message, or foreign, or it ends the message. */
  lemma {:induction false} ReceiveStep(rx: Rx, own: seq<Report>, f: Report)
    requires if own == [] then IdleRx(rx) else Receiving(rx, own)
    ensures var (next, outcome) := ProcessFrame(rx, f);
            match outcome
            case ApduComplete(m) => IdleRx(next) && Whole(own + [f], m) && OnChannel(own + [f], next.channel)
            case NeedMore => Receiving(next, own + [f])
            case _ => IdleRx(next) || (next == rx && Foreign(rx.channel, true, f))
    ensures own != [] && (ProcessFrame(rx, f).1.ApduComplete? || ProcessFrame(rx, f).1.NeedMore?) ==>
              ProcessFrame(rx, f).0.channel == rx.channel
  {
    var all := own + [f];
    assert all[..|all| - 1] == own && all[|all| - 1] == f;
    if own == [] {
      assert Payload(all) == f[7..];
    } else {
      assert Payload(all) == Payload(own) + f[5..];
    }
    var (next, outcome) := ProcessFrame(rx, f);
    if outcome.NeedMore? {
      assert next.buf <= Payload(all) && |next.buf| == |Payload(all)|;
    }
  }

  lemma {:induction false} AssembleMore(rx: Rx, fs: seq<Report>, f: Report)
    requires |rx.buf| <= rx.expected <= MAX_APDU
    ensures Assemble(rx, fs + [f]).0 == ProcessFrame(Assemble(rx, fs).0, f).0
    decreases fs
  {
    if fs == [] {
      assert (fs + [f])[1..] == [];
    } else {
      assert (fs + [f])[1..] == fs[1..] + [f];
      AssembleMore(ProcessFrame(rx, fs[0]).0, fs[1..], f);
    }
  }

  /** After any reports the assembler is idle, or has the frames of one message that began at some report. */
  ghost predicate Tracked(rx: Rx, fs: seq<Report>, start: nat, own: seq<Report>) {
    if own == [] then IdleRx(rx)
    else start <= |fs| && Receiving(rx, own) && Gathers(rx.channel, fs[start..], own)
  }

  lemma {:induction false} TracksOn(rx: Rx, fs: seq<Report>, start: nat, own: seq<Report>, f: Report)
      returns (start': nat, own': seq<Report>)
    requires Tracked(rx, fs, start, own)
    ensures Tracked(ProcessFrame(rx, f).0, fs + [f], start', own')
  {
    ReceiveStep(rx, own, f);
    var (next, outcome) := ProcessFrame(rx, f);
    if outcome.NeedMore? {
      start', own' := Gathering(rx, next.channel, fs, start, own, f);
      assert (fs + [f])[start'..] == fs[start'..] + [f];
    } else if IdleRx(next) {
      start', own' := 0, [];
    } else {
      start', own' := start, own;
      ForeignBehind(rx.channel, fs, start, own, f);
    }
  }

  lemma {:induction false} ForeignBehind(channel: nat, fs: seq<Report>, start: nat, own: seq<Report>, f: Report)
    requires start <= |fs| && own != [] && Gathers(channel, fs[start..], own) && Foreign(channel, true, f)
    ensures Gathers(channel, (fs + [f])[start..], own)
  {
    var part := (fs + [f])[start..];
    assert part[..|part| - 1] == fs[start..] && part[|part| - 1] == f;
  }

  lemma {:induction false} Gathering(rx: Rx, channel: nat, fs: seq<Report>, start: nat, own: seq<Report>, f: Report)
      returns (start': nat, own': seq<Report>)
    requires Tracked(rx, fs, start, own) && (own != [] ==> channel == rx.channel)
    ensures own' == own + [f] && start' <= |fs| && Gathers(channel, fs[start'..] + [f], own')
  {
    start', own' := if own == [] then |fs| else start, own + [f];
    assert own == [] ==> fs[start'..] == [];
    GathersOne(channel, fs[start'..], own, f);
  }

  lemma {:induction false} GathersOne(channel: nat, part: seq<Report>, own: seq<Report>, f: Report)
    requires Gathers(channel, part, own)
    ensures Gathers(channel, part + [f], own + [f])
  {
    assert (part + [f])[..|part|] == part && (own + [f])[..|own|] == own;
  }

  lemma {:induction false} Tracks(rx: Rx, fs: seq<Report>) returns (start: nat, own: seq<Report>)
    requires IdleRx(rx)
    ensures Tracked(Assemble(rx, fs).0, fs, start, own)
    decreases |fs|
  {
    if fs == [] {
      start, own := 0, [];
    } else {
      var n := |fs| - 1;
      start, own := Tracks(rx, fs[..n]);
      AssembleMore(rx, fs[..n], fs[n]);
      start, own := TracksOn(Assemble(rx, fs[..n]).0, fs[..n], start, own, fs[n]);
      assert fs[..n] + [fs[n]] == fs;
    }
  }

  /**
   Whatever the stream: an APDU that the firmware acts on was sent as a whole, its frames in order on one
   channel with only foreign reports between them.
   */
  lemma {:induction false} CompletedIsWhole(rx: Rx, fs: seq<Report>, f: Report, m: Bytes)
      returns (channel: nat, start: nat, own: seq<Report>)
    requires IdleRx(rx) && ProcessFrame(Assemble(rx, fs).0, f).1 == ApduComplete(m)
    ensures Whole(own, m) && OnChannel(own, channel) && own[|own| - 1] == f
    ensures start <= |fs| && Gathers(channel, fs[start..] + [f], own)
  {
    var last := Assemble(rx, fs).0;
    start, own := Tracks(rx, fs);
    ReceiveStep(last, own, f);
    channel := ProcessFrame(last, f).0.channel;
    start, own := Gathering(last, channel, fs, start, own, f);
  }
}
