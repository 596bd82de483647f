/**
 The exchange that follows a PING barrier (macos-demo/pq1-demo.c, `sync_link` and then an exchange):
 two in-order queues, the firmware's assembler and router at their far end, and any schedule of the
 two sides. Whatever state the assembler was left in, the host takes its own answer and nothing else.
 */
module SyncedExchange {
  import opened Bytes
  import opened HidFraming
  import opened HidReassembly
  import opened ChainedExchange
  import opened LinkedExchange
  import P = PingBarrier

  /** The far end of the link. */
  datatype Firm = Firm(rx: Assembler, dev: Device)

  // ---------------------------------------------------------------- the firmware, report by report

  /** `try_receive` on one report, and what the firmware then sends. */
  function Reacts(c: Commands, d: Firm, f: Report): (Firm, seq<Report>) {
    var (rx, outcome) := ProcessFrame(d.rx, f);
    match outcome
    case ApduComplete(apdu) =>
      var (dev, resp) := Dispatch(c, d.dev, apdu);
      (Firm(rx, dev), Plain(Transmit(QueueResponse(rx.channel, resp))))
    case PingEcho => (Firm(rx, d.dev), [f])
    case _ => (Firm(rx, d.dev), [])
  }

  /** And on a run of reports. */
  function Serve(c: Commands, d: Firm, fs: seq<Report>): (Firm, seq<Report>)
    decreases fs
  {
    if fs == [] then (d, []) else
    var (next, replies) := Reacts(c, d, fs[0]);
    var (last, more) := Serve(c, next, fs[1..]);
    (last, replies + more)
  }

  lemma {:induction false} ContFramesAreApdus(channel: nat, m: Bytes, off: nat, sequence: nat)
    ensures forall f :: f in ContFrames(channel, m, off, sequence) ==> |f| == REPORT && f[2] == TAG_APDU
    decreases |m| - off
  {
    if off < |m| {
      ContFramesAreApdus(channel, m, off + Min(|m| - off, CONT_DATA), sequence + 1);
    }
  }

  lemma FramesAreApdus(channel: nat, m: Bytes)
    ensures forall f :: f in FramesOf(channel, m) ==> |f| == REPORT && f[2] == TAG_APDU
  {
    ContFramesAreApdus(channel, m, Min(|m|, FIRST_DATA), 1);
  }

  lemma {:induction false} PlainIs(fs: seq<Frame>)
    requires AreReports(fs)
    ensures Plain(fs) == fs
    decreases fs
  {
    if fs != [] {
      assert fs[0] in fs;
      PlainIs(fs[1..]);
    }
  }

  /** A response as its reports. */
  lemma ResponseReports(channel: nat, resp: Bytes)
    ensures Plain(Transmit(QueueResponse(channel, resp))) == FramesOf(channel, resp[..Min(|resp|, TX_BUF)])
  {
    TransmitIsFramesOf(channel, resp);
    FramesAreReports(channel, resp[..Min(|resp|, TX_BUF)]);
    PlainIs(Transmit(QueueResponse(channel, resp)));
  }

  /** The firmware's answer; the echo of a PING is lost when the endpoint is busy. */
  ghost predicate MayAnswer(c: Commands, d: Firm, f: Report, replies: seq<Report>) {
    replies == Reacts(c, d, f).1 || (P.IsPing(f) && replies == [])
  }

  /** The firmware is a device such as the PING barrier relies on. */
  lemma FirmwareAnswers(c: Commands, d: Firm, f: Report, replies: seq<Report>)
    requires MayAnswer(c, d, f, replies)
    ensures P.Answers(f, replies)
  {
    var (rx, outcome) := ProcessFrame(d.rx, f);
    if outcome.ApduComplete? {
      var resp := Dispatch(c, d.dev, outcome.apdu).1;
      ResponseReports(rx.channel, resp);
      FramesAreApdus(rx.channel, resp[..Min(|resp|, TX_BUF)]);
    }
  }

  // ---------------------------------------------------------------- both queues, any schedule

  /** `rs` is what a run of reports draws, but perhaps for some echoes. */
  ghost predicate Serves(c: Commands, d: Firm, fs: seq<Report>, rs: seq<Report>)
    decreases fs
  {
    if fs == [] then rs == []
    else
      var (next, replies) := Reacts(c, d, fs[0]);
      || (replies <= rs && Serves(c, next, fs[1..], rs[|replies|..]))
      || (P.IsPing(fs[0]) && Serves(c, next, fs[1..], rs))
  }

  lemma {:induction false} ServesWithoutPings(c: Commands, d: Firm, fs: seq<Report>, rs: seq<Report>)
    requires Serves(c, d, fs, rs) && forall f :: f in fs ==> !P.IsPing(f)
    ensures rs == Serve(c, d, fs).1
    decreases fs
  {
    if fs != [] {
      assert fs[0] in fs;
      var (next, replies) := Reacts(c, d, fs[0]);
      ServesWithoutPings(c, next, fs[1..], rs[|replies|..]);
      assert rs == replies + rs[|replies|..];
    }
  }

  /** Every answer of the run is the firmware's. */
  ghost predicate Faithful(c: Commands, s: P.LinkState, d: Firm, run: seq<P.Action>)
    decreases run
  {
    run != [] ==>
      && P.Enabled(s, run[0])
      && (run[0].Answer? ==> MayAnswer(c, d, s.outQ[0].f, run[0].replies))
      && Faithful(c, P.Apply(s, run[0]), Next(c, s, d, run[0]), run[1..])
  }

  function Next(c: Commands, s: P.LinkState, d: Firm, a: P.Action): Firm
    requires P.Enabled(s, a)
  {
    if a.Answer? then Reacts(c, d, s.outQ[0].f).0 else d
  }

  ghost function Ends(c: Commands, s: P.LinkState, d: Firm, run: seq<P.Action>): (P.LinkState, Firm)
    requires Faithful(c, s, d, run)
    decreases run
  {
    if run == [] then (s, d) else Ends(c, P.Apply(s, run[0]), Next(c, s, d, run[0]), run[1..])
  }

  function Written(run: seq<P.Action>): seq<Report>
    decreases run
  {
    if run == [] then [] else (if run[0].Write? then [run[0].f] else []) + Written(run[1..])
  }

  /** The reports the host takes, in order. */
  ghost function Taken(c: Commands, s: P.LinkState, d: Firm, run: seq<P.Action>): seq<Report>
    requires Faithful(c, s, d, run)
    decreases run
  {
    if run == [] then []
    else (if run[0].Take? then [s.inQ[0].f] else []) + Taken(c, P.Apply(s, run[0]), Next(c, s, d, run[0]), run[1..])
  }

  /** The reports the firmware sends. */
  function Sends(run: seq<P.Action>): seq<Report>
    decreases run
  {
    if run == [] then [] else (if run[0].Answer? then run[0].replies else []) + Sends(run[1..])
  }

  /** How many reports the firmware has worked through. */
  function Worked(run: seq<P.Action>): nat
    decreases run
  {
    if run == [] then 0 else (if run[0].Answer? then 1 else 0) + Worked(run[1..])
  }

  function Queued(q: seq<P.Entry>): (fs: seq<Report>)
    ensures |fs| == |q| && forall i :: 0 <= i < |q| ==> fs[i] == q[i].f
  {
    seq(|q|, i requires 0 <= i < |q| => q[i].f)
  }

  /** What the host has taken and what waits for it are together what the firmware sent for what it worked through. */
  ghost predicate Accounted(c: Commands, s: P.LinkState, d: Firm, run: seq<P.Action>)
    requires Faithful(c, s, d, run)
  {
    var (s', d') := Ends(c, s, d, run);
    var all, n := Queued(s.outQ) + Written(run), Worked(run);
    && n <= |all| && Queued(s'.outQ) == all[n..]
    && d' == Serve(c, d, all[..n]).0 && Serves(c, d, all[..n], Sends(run))
    && Taken(c, s, d, run) + Queued(s'.inQ) == Queued(s.inQ) + Sends(run)
  }

  /**
   Over every schedule the firmware works through what was queued in order, and but for echoes nothing
   is lost or made up.
   */
  lemma {:induction false} InOrder(c: Commands, s: P.LinkState, d: Firm, run: seq<P.Action>)
    requires Faithful(c, s, d, run)
    ensures Accounted(c, s, d, run)
    decreases run
  {
    if run == [] {
      assert Queued(s.outQ) + [] == Queued(s.outQ);
    } else {
      InOrder(c, P.Apply(s, run[0]), Next(c, s, d, run[0]), run[1..]);
      match run[0]
      case Write(_) => WriteAccounted(c, s, d, run);
      case Answer(_) => AnswerAccounted(c, s, d, run);
      case Take => TakeAccounted(c, s, d, run);
    }
  }

  lemma {:induction false} WriteAccounted(c: Commands, s: P.LinkState, d: Firm, run: seq<P.Action>)
    requires run != [] && run[0].Write? && Faithful(c, s, d, run)
    requires Accounted(c, P.Apply(s, run[0]), d, run[1..])
    ensures Accounted(c, s, d, run)
  {
    var next, rest := P.Apply(s, run[0]), Written(run[1..]);
    assert Queued(next.outQ) == Queued(s.outQ) + [run[0].f];
    Regroup(Queued(s.outQ), [run[0].f], rest);
    EmptyFront(Taken(c, next, d, run[1..]));
    EmptyFront(Sends(run[1..]));
  }

  lemma {:induction false} AnswerAccounted(c: Commands, s: P.LinkState, d: Firm, run: seq<P.Action>)
    requires run != [] && run[0].Answer? && Faithful(c, s, d, run)
    requires Accounted(c, P.Apply(s, run[0]), Next(c, s, d, run[0]), run[1..])
    ensures Accounted(c, s, d, run)
  {
    var next, d1, rest := P.Apply(s, run[0]), Next(c, s, d, run[0]), Written(run[1..]);
    var f, n, all := s.outQ[0].f, Worked(run[1..]), Queued(next.outQ) + rest;
    var (s', taken) := (Ends(c, s, d, run).0, Taken(c, next, d1, run[1..]));
    AnswerMoves(s, run[0].replies);
    assert Queued(s.outQ) + Written(run) == [f] + all by {
      Regroup([f], Queued(next.outQ), rest);
      EmptyFront(rest);
    }
    ServeMore(c, d, f, all, n, run[0].replies, Sends(run[1..]));
    assert Taken(c, s, d, run) == taken by {
      EmptyFront(taken);
    }
    assert taken + Queued(s'.inQ) == Queued(s.inQ) + Sends(run) by {
      Regroup(Queued(s.inQ), run[0].replies, Sends(run[1..]));
    }
  }

  lemma AnswerMoves(s: P.LinkState, replies: seq<Report>)
    requires P.Enabled(s, P.Answer(replies))
    ensures var next := P.Apply(s, P.Answer(replies));
            Queued(s.outQ) == [s.outQ[0].f] + Queued(next.outQ) && Queued(next.inQ) == Queued(s.inQ) + replies
  {
  }

  lemma {:induction false} TakeAccounted(c: Commands, s: P.LinkState, d: Firm, run: seq<P.Action>)
    requires run != [] && run[0].Take? && Faithful(c, s, d, run)
    requires Accounted(c, P.Apply(s, run[0]), d, run[1..])
    ensures Accounted(c, s, d, run)
  {
    var next, f := P.Apply(s, run[0]), s.inQ[0].f;
    var s' := Ends(c, s, d, run).0;
    assert Queued(s.inQ) == [f] + Queued(next.inQ);
    EmptyFront(Written(run[1..]));
    EmptyFront(Sends(run[1..]));
    Regroup([f], Taken(c, next, d, run[1..]), Queued(s'.inQ));
    Regroup([f], Queued(next.inQ), Sends(run[1..]));
  }

  lemma {:induction false} ServeMore(c: Commands, d: Firm, f: Report, all: seq<Report>, n: nat,
                                     replies: seq<Report>, rs: seq<Report>)
    requires n <= |all| && MayAnswer(c, d, f, replies) && Serves(c, Reacts(c, d, f).0, all[..n], rs)
    ensures ([f] + all)[n + 1..] == all[n..]
    ensures Serve(c, d, ([f] + all)[..n + 1]).0 == Serve(c, Reacts(c, d, f).0, all[..n]).0
    ensures Serves(c, d, ([f] + all)[..n + 1], replies + rs)
  {
    var fs := ([f] + all)[..n + 1];
    assert fs[0] == f && fs[1..] == all[..n];
    AnswerThenRest(c, d, fs, replies, rs);
  }

  lemma {:induction false} AnswerThenRest(c: Commands, d: Firm, fs: seq<Report>, replies: seq<Report>, rs: seq<Report>)
    requires fs != [] && MayAnswer(c, d, fs[0], replies) && Serves(c, Reacts(c, d, fs[0]).0, fs[1..], rs)
    ensures Serves(c, d, fs, replies + rs)
  {
    if replies == Reacts(c, d, fs[0]).1 {
      assert (replies + rs)[|replies|..] == rs;
    } else {
      EmptyFront(rs);
    }
  }

  lemma Regroup(a: seq<Report>, b: seq<Report>, c: seq<Report>)
    ensures a + b + c == a + (b + c)
  {
  }

  // ---------------------------------------------------------------- one request

  /** The reports a whole request draws from an assembler that is idle; one that is not loses it. */
  function Reply(c: Commands, d: Firm, apdu: Bytes): seq<Report> {
    if d.rx.expected == 0 then Plain(Transmit(QueueResponse(CHANNEL, Dispatch(c, d.dev, apdu).1))) else []
  }

  /** A report that draws nothing, in front of others. */
  lemma {:induction false} ServeSilent(c: Commands, d: Firm, next: Firm, own: seq<Report>, n: nat)
    requires 0 < n <= |own| && Reacts(c, d, own[0]) == (next, [])
    ensures Serve(c, d, own[..n]) == Serve(c, next, own[1..][..n - 1])
  {
    assert own[..n][0] == own[0] && own[..n][1..] == own[1..][..n - 1];
    EmptyFront(Serve(c, next, own[1..][..n - 1]).1);
  }

  lemma {:induction false} ServeOne(c: Commands, d: Firm, f: Report)
    ensures Serve(c, d, [f]) == Reacts(c, d, f)
  {
    EmptyBack(Reacts(c, d, f).1);
  }

  /** In the middle of a message: only its last frame draws anything. */
  lemma {:induction false} ServeRest(c: Commands, dev: Device, channel: nat, m: Bytes, off: nat, sequence: nat,
                                     own: seq<Report>, n: nat)
    requires |m| <= MAX_APDU && off < |m| && 1 <= sequence <= off + 1
    requires Continues(channel, m, off, sequence, own) && n <= |own|
    ensures var (dev', resp) := Dispatch(c, dev, m);
            var (d', replies) := Serve(c, Firm(Rx(channel, |m|, sequence, m[..off]), dev), own[..n]);
            if n < |own| then d'.dev == dev && replies == []
            else d' == Firm(Rx(channel, 0, 0, []), dev') && replies == Plain(Transmit(QueueResponse(channel, resp)))
    decreases |own|
  {
    if n > 0 {
      var rx, k := Rx(channel, |m|, sequence, m[..off]), Min(|m| - off, CONT_DATA);
      var next := Rx(channel, |m|, sequence + 1, m[..off + k]);
      assert ProcessFrame(rx, own[0]) == Absorbed(next);
      if off + k < |m| {
        ServeSilent(c, Firm(rx, dev), Firm(next, dev), own, n);
        ServeRest(c, dev, channel, m, off + k, sequence + 1, own[1..], n - 1);
      } else {
        assert m[..off + k] == m && own[..n] == [own[0]];
        ServeOne(c, Firm(rx, dev), own[0]);
      }
    }
  }

  lemma EmptyFront(rs: seq<Report>)
    ensures [] + rs == rs
  {
  }

  lemma EmptyBack(rs: seq<Report>)
    ensures rs + [] == rs
  {
  }

  /** Continuations of a message whose first frame was dropped are dropped as well. */
  lemma {:induction false} ServeDropped(c: Commands, d: Firm, channel: nat, m: Bytes, off: nat, sequence: nat,
                                        own: seq<Report>, n: nat)
    requires |m| <= MAX_APDU && 1 <= sequence && n <= |own|
    requires Continues(channel, m, off, sequence, own)
    requires d.rx.channel != channel || d.rx.sequence == 0
    ensures var (d', replies) := Serve(c, d, own[..n]); d'.dev == d.dev && replies == []
    decreases |own|
  {
    if n > 0 {
      var rx := ProcessFrame(d.rx, own[0]).0;
      ServeSilent(c, d, Firm(rx, d.dev), own, n);
      ServeDropped(c, Firm(rx, d.dev), channel, m, off + Min(|m| - off, CONT_DATA), sequence + 1, own[1..], n - 1);
    }
  }

  /** An assembler in the middle of something else drops the first frame, and so the request. */
  lemma {:induction false} ServeLost(c: Commands, d: Firm, channel: nat, m: Bytes, own: seq<Report>, n: nat)
    requires |m| <= MAX_APDU && Begins(channel, m, own) && n <= |own| && d.rx.expected != 0
    ensures var (d', replies) := Serve(c, d, own[..n]); d'.dev == d.dev && replies == []
  {
    if n > 0 {
      var rx := ProcessFrame(d.rx, own[0]).0;
      ServeSilent(c, d, Firm(rx, d.dev), own, n);
      ServeDropped(c, Firm(rx, d.dev), channel, m, Min(|m|, FIRST_DATA), 1, own[1..], n - 1);
    }
  }

  /** An idle one makes a message of all the frames, and of fewer nothing. */
  lemma {:induction false} ServeWhole(c: Commands, d: Firm, channel: nat, m: Bytes, own: seq<Report>, n: nat)
    requires 1 <= |m| <= MAX_APDU && Begins(channel, m, own) && n <= |own| && d.rx.expected == 0
    ensures var (dev', resp) := Dispatch(c, d.dev, m);
            var (d', replies) := Serve(c, d, own[..n]);
            if n < |own| then d'.dev == d.dev && replies == []
            else d' == Firm(Rx(channel, 0, 0, []), dev') && replies == Plain(Transmit(QueueResponse(channel, resp)))
  {
    if n > 0 {
      var k := Min(|m|, FIRST_DATA);
      var next := Rx(channel, |m|, 1, m[..k]);
      assert ProcessFrame(d.rx, own[0]) == Absorbed(next);
      if k < |m| {
        ServeSilent(c, d, Firm(next, d.dev), own, n);
        ServeRest(c, d.dev, channel, m, k, 1, own[1..], n - 1);
      } else {
        assert m[..k] == m && own[..n] == [own[0]];
        ServeOne(c, d, own[0]);
      }
    }
  }

  /** A first part of a request draws nothing; the whole draws its reply. */
  lemma {:induction false} ServeRequest(c: Commands, d: Firm, apdu: Bytes, own: seq<Report>, n: nat)
    requires 1 <= |apdu| <= MAX_APDU && own == FramesOf(CHANNEL, apdu) && n <= |own|
    ensures var (d', replies) := Serve(c, d, own[..n]);
      && (n < |own| ==> replies == [] && d'.dev == d.dev)
      && (n == |own| ==> replies == Reply(c, d, apdu))
      && (n == |own| && d.rx.expected == 0 ==> d' == Firm(Rx(CHANNEL, 0, 0, []), Dispatch(c, d.dev, apdu).0))
      && (d.rx.expected != 0 ==> d'.dev == d.dev)
  {
    FramesBegin(CHANNEL, apdu);
    if d.rx.expected == 0 {
      ServeWhole(c, d, CHANNEL, apdu, own, n);
    } else {
      ServeLost(c, d, CHANNEL, apdu, own, n);
    }
  }

  // ---------------------------------------------------------------- what the host takes

  /** Either nothing has come of the request yet, or it was dispatched and its reply is on its way. */
  lemma {:induction false} Progress(c: Commands, s: P.LinkState, d: Firm, apdu: Bytes, run: seq<P.Action>)
    requires s.outQ == [] && s.inQ == [] && 1 <= |apdu| <= MAX_APDU
    requires Faithful(c, s, d, run) && Written(run) <= FramesOf(CHANNEL, apdu)
    ensures var (s', d') := Ends(c, s, d, run);
            var replies := Taken(c, s, d, run) + Queued(s'.inQ);
      || (replies == [] && d'.dev == d.dev)
      || (replies == Reply(c, d, apdu) && s'.outQ == [] && Written(run) == FramesOf(CHANNEL, apdu) &&
          if d.rx.expected == 0 then d' == Firm(Rx(CHANNEL, 0, 0, []), Dispatch(c, d.dev, apdu).0) else d'.dev == d.dev)
  {
    FramesAreApdus(CHANNEL, apdu);
    var own: seq<Report>, n, written := FramesOf(CHANNEL, apdu), Worked(run), Written(run);
    FromEmpty(c, s, d, run, own);
    assert written[..n] == own[..n];
    ServeRequest(c, d, apdu, own, n);
    if n == |own| {
      assert written == own;
      assert Ends(c, s, d, run).0.outQ == [];
    }
  }

  /**
   From empty queues, over every schedule: however much of one request has been written, what the host
   takes is a first part of its reply. Once it is all of it, both queues are empty again and the
   firmware has dispatched that request, once; until then it has dispatched it once or not at all.
   */
  lemma {:induction false} TakesItsReply(c: Commands, s: P.LinkState, d: Firm, apdu: Bytes, run: seq<P.Action>)
    requires s.outQ == [] && s.inQ == [] && 1 <= |apdu| <= MAX_APDU
    requires Faithful(c, s, d, run) && Written(run) <= FramesOf(CHANNEL, apdu)
    ensures Taken(c, s, d, run) <= Reply(c, d, apdu)
    ensures Taken(c, s, d, run) == Reply(c, d, apdu) != [] ==> Settled(c, s, d, apdu, run)
    ensures OnceOrNot(c, d.dev, apdu, Ends(c, s, d, run).1.dev)
  {
    Progress(c, s, d, apdu, run);
    var waiting := Queued(Ends(c, s, d, run).0.inQ);
    AllOrPart(Taken(c, s, d, run), waiting, Taken(c, s, d, run) + waiting, Reply(c, d, apdu));
  }

  /** What is taken of a reply that is there or not yet. */
  lemma AllOrPart(taken: seq<Report>, waiting: seq<Report>, served: seq<Report>, reply: seq<Report>)
    requires taken + waiting == served && (served == [] || served == reply)
    ensures taken <= reply && (taken == reply != [] ==> waiting == [] && served == reply)
  {
    assert served == [] ==> taken == [];
    assert taken == reply && served == reply ==> |waiting| == 0;
  }

  /** The account of a run from empty queues. */
  lemma {:induction false} FromEmpty(c: Commands, s: P.LinkState, d: Firm, run: seq<P.Action>, own: seq<Report>)
    requires s.outQ == [] && s.inQ == [] && Faithful(c, s, d, run)
    requires Written(run) <= own && forall f :: f in own ==> !P.IsPing(f)
    ensures var (s', d') := Ends(c, s, d, run);
            var n := Worked(run);
            && n <= |Written(run)| && Queued(s'.outQ) == Written(run)[n..]
            && d' == Serve(c, d, Written(run)[..n]).0
            && Taken(c, s, d, run) + Queued(s'.inQ) == Serve(c, d, Written(run)[..n]).1
  {
    InOrder(c, s, d, run);
    assert Queued(s.outQ) == [] && Queued(s.inQ) == [];
    EmptyFront(Written(run));
    EmptyFront(Sends(run));
    forall f | f in Written(run)[..Worked(run)]
      ensures !P.IsPing(f)
    {
      assert f in own;
    }
    ServesWithoutPings(c, d, Written(run)[..Worked(run)], Sends(run));
  }

  /** The APDU was dispatched once, or it was not. */
  predicate OnceOrNot(c: Commands, dev: Device, apdu: Bytes, dev': Device) {
    dev' == dev || dev' == Dispatch(c, dev, apdu).0
  }

  /** Nothing is on its way any more, and the request was dispatched. */
  ghost predicate Settled(c: Commands, s: P.LinkState, d: Firm, apdu: Bytes, run: seq<P.Action>)
    requires Faithful(c, s, d, run)
  {
    var (s', d') := Ends(c, s, d, run);
    && s'.outQ == [] && s'.inQ == [] && Written(run) == FramesOf(CHANNEL, apdu)
    && d' == Firm(Rx(CHANNEL, 0, 0, []), Dispatch(c, d.dev, apdu).0)
  }

  // ---------------------------------------------------------------- and what it reads from that

  /** Turns of the waiting loop in which nothing went wrong. */
  predicate Waits(evs: seq<Event>) {
    forall e :: e in evs ==> e.Idle? || e.Got?
  }

  /** What ends a wait without a reply: the deadline, a disconnect, the user. */
  type Stop = e: Event | !e.Idle? && !e.Got? witness Deadline

  function GivesUp(stop: Stop): ReadResult {
    match stop
    case Deadline => Failed(IoTimeout)
    case Gone => Failed(IoGone)
    case Cancel => Failed(IoCancelled)
  }

  /** `read_reply` until a reply is whole or something ends the wait. */
  function ReadsTo(evs: seq<Event>, stop: Stop): ReadResult {
    Read(evs + [stop], START).0
  }

  function Reported(evs: seq<Event>): seq<Report>
    decreases evs
  {
    if evs == [] then [] else (if evs[0].Got? then [evs[0].f] else []) + Reported(evs[1..])
  }

  /** In the middle of a reply: the whole rest is the reply, with less of it the wait ends without. */
  lemma {:induction false} ReadsRest(channel: nat, m: Bytes, off: nat, sequence: nat, fs: seq<Frame>,
                                     evs: seq<Event>, stop: Stop)
    requires 2 <= |m| <= MAX_APDU && off < |m| && sequence > 0
    requires Continues(channel, m, off, sequence, fs) && Waits(evs) && Reported(evs) <= fs
    ensures Read(evs + [stop], Reading(sequence, |m|, m[..off])).0
         == if Reported(evs) == fs then Finish(m) else GivesUp(stop)
    decreases |evs|
  {
    var st := Reading(sequence, |m|, m[..off]);
    if evs == [] {
      assert evs + [stop] == [stop];
    } else {
      assert evs[0] in evs;
      ReadTurn(evs, [stop], st);
      if evs[0].Idle? {
        assert Reported(evs) == Reported(evs[1..]);
        ReadsRest(channel, m, off, sequence, fs, evs[1..], stop);
      } else {
        var k := Min(|m| - off, CONT_DATA);
        assert Reported(evs)[0] == evs[0].f == fs[0] && Reported(evs)[1..] == Reported(evs[1..]);
        assert fs == [fs[0]] + fs[1..];
        assert Accept(st, evs[0].f) == Some(Reading(sequence + 1, |m|, m[..off + k]));
        if off + k < |m| {
          ReadsRest(channel, m, off + k, sequence + 1, fs[1..], evs[1..], stop);
        } else {
          assert m[..off + k] == m;
        }
      }
    }
  }

  /** From the start: exactly all frames of a reply are the reply, and with fewer the wait ends without. */
  lemma {:induction false} ReadsAll(channel: nat, m: Bytes, fs: seq<Frame>, evs: seq<Event>, stop: Stop)
    requires 2 <= |m| <= MAX_APDU && Begins(channel, m, fs) && Waits(evs) && Reported(evs) <= fs
    ensures ReadsTo(evs, stop) == if Reported(evs) == fs then Finish(m) else GivesUp(stop)
    decreases |evs|
  {
    if evs == [] {
      assert evs + [stop] == [stop];
    } else {
      assert evs[0] in evs;
      ReadTurn(evs, [stop], START);
      if evs[0].Idle? {
        assert Reported(evs) == Reported(evs[1..]);
        ReadsAll(channel, m, fs, evs[1..], stop);
      } else {
        var k := Min(|m|, FIRST_DATA);
        assert Reported(evs)[0] == evs[0].f == fs[0] && Reported(evs)[1..] == Reported(evs[1..]);
        assert fs == [fs[0]] + fs[1..];
        assert Accept(START, evs[0].f) == Some(Reading(1, |m|, m[..k]));
        if k < |m| {
          ReadsRest(channel, m, k, 1, fs[1..], evs[1..], stop);
        } else {
          assert m[..k] == m;
        }
      }
    }
  }

  lemma {:induction false} NothingIsRead(evs: seq<Event>, stop: Stop)
    requires Waits(evs) && Reported(evs) == []
    ensures ReadsTo(evs, stop) == GivesUp(stop)
    decreases |evs|
  {
    if evs == [] {
      assert evs + [stop] == [stop];
    } else {
      assert evs[0] in evs;
      ReadTurn(evs, [stop], START);
      NothingIsRead(evs[1..], stop);
    }
  }

  lemma {:induction false} ResponseBegins(channel: nat, resp: Bytes)
    requires channel < 0x10000 && 2 <= |resp| <= APDU_MAX_RESP + 2
    ensures var reply := Plain(Transmit(QueueResponse(channel, resp))); Begins(channel, resp, reply) && reply != []
  {
    ResponseReports(channel, resp);
    assert resp[..|resp|] == resp;
    FramesBegin(channel, resp);
  }

  /** Of a response's reports, all are the response and with fewer the wait ends without. */
  lemma {:induction false} ReadsResponse(channel: nat, resp: Bytes, reply: seq<Report>, evs: seq<Event>, stop: Stop)
    requires channel < 0x10000 && 2 <= |resp| <= APDU_MAX_RESP + 2
    requires reply == Plain(Transmit(QueueResponse(channel, resp))) && Waits(evs) && Reported(evs) <= reply
    ensures ReadsTo(evs, stop) == if Reported(evs) == reply then Finish(resp) else GivesUp(stop)
    ensures reply != [] && Finish(resp).Replied?
  {
    ResponseBegins(channel, resp);
    ReadsAll(channel, resp, reply, evs, stop);
  }

  // ---------------------------------------------------------------- after the barrier

  /** The host waits for the reply to `apdu`, of which `run` wrote some first part, and hears what it takes. */
  ghost predicate Hears(c: Commands, s: P.LinkState, d: Firm, apdu: Bytes, run: seq<P.Action>, evs: seq<Event>) {
    && Faithful(c, s, d, run) && Written(run) <= FramesOf(CHANNEL, apdu)
    && Waits(evs) && Reported(evs) == Taken(c, s, d, run)
  }

  /**
   It reads the answer to this very request, when all of it came, and otherwise gives up for what ended
   the wait; then the request was dispatched once or not at all.
   */
  ghost predicate ItsAnswer(c: Commands, s: P.LinkState, d: Firm, apdu: Bytes, run: seq<P.Action>, evs: seq<Event>,
                            stop: Stop)
    requires Faithful(c, s, d, run)
  {
    var r := ReadsTo(evs, stop);
    if d.rx.expected == 0 && Reported(evs) == Reply(c, d, apdu)
    then r == Finish(Dispatch(c, d.dev, apdu).1) && r.Replied? && Settled(c, s, d, apdu, run)
    else r == GivesUp(stop) && OnceOrNot(c, d.dev, apdu, Ends(c, s, d, run).1.dev)
  }

  /**
   From empty queues, whatever state the assembler and the router were left in, over every schedule:
   the exchange ends with exactly its own answer or without any, never with another's.
   */
  lemma {:induction false} ItsAnswerOrNone(c: Commands, s: P.LinkState, d: Firm, apdu: Bytes,
                                           run: seq<P.Action>, evs: seq<Event>, stop: Stop)
    requires s.outQ == [] && s.inQ == [] && FramedApdu(apdu)
    requires Hears(c, s, d, apdu, run, evs)
    ensures ItsAnswer(c, s, d, apdu, run, evs, stop)
  {
    TakesItsReply(c, s, d, apdu, run);
    if d.rx.expected == 0 {
      var resp := Dispatch(c, d.dev, apdu).1;
      ResponseFits(c, d.dev, apdu);
      ReadsResponse(CHANNEL, resp, Reply(c, d, apdu), evs, stop);
    } else {
      NothingIsRead(evs, stop);
    }
  }

  const INS_GET_STATUS: Byte := 0x02

  /** The request that the demo sends after every barrier. */
  const GET_STATUS: Bytes := Apdu(INS_GET_STATUS, P1_LAST, [])

  /** The status that is read is the status the firmware had to give, or none is read. */
  lemma {:induction false} StatusOrNone(c: Commands, s: P.LinkState, d: Firm, run: seq<P.Action>,
                                        evs: seq<Event>, stop: Stop)
    requires s.outQ == [] && s.inQ == [] && INS_GET_STATUS in c.direct
    requires Hears(c, s, d, GET_STATUS, run, evs)
    ensures ReadsTo(evs, stop) == GivesUp(stop)
         || ReadsTo(evs, stop) == Finish(Respond(c.execute(d.dev.executed, INS_GET_STATUS, [])).0)
  {
    ItsAnswerOrNone(c, s, d, GET_STATUS, run, evs, stop);
    StatusDispatched(c, d.dev);
  }

  lemma StatusDispatched(c: Commands, dev: Device)
    requires INS_GET_STATUS in c.direct
    ensures Dispatch(c, dev, GET_STATUS).1 == Respond(c.execute(dev.executed, INS_GET_STATUS, [])).0
    ensures GET_STATUS == [0xF0, 0x02, 0x00, 0x00, 0x00]
  {
    assert GET_STATUS[5..5] == [];
  }

  /** No request on this link can end with another's answer. */
  ghost predicate OnlyItsAnswer(c: Commands, s: P.LinkState, d: Firm, apdu: Bytes) {
    forall run, evs, stop: Stop :: Hears(c, s, d, apdu, run, evs) ==> ItsAnswer(c, s, d, apdu, run, evs, stop)
  }

  /** `sync_link`, and what it is for: whatever was queued before, the next request gets its own answer or none. */
  method SyncFirst(link: P.Link, os: P.OsWrite, slices: seq<P.Slice>) returns (r: P.IoStatus, ghost b: P.Sync)
    requires link.Valid() && link.seed + link.pings + 1 < P.NONCES
    modifies link
    ensures link.Valid() && r == P.Verdict(b, P.PingFrame(link.nonce))
    ensures P.Happened(old(link.s), link.s, b, P.PingFrame(link.nonce))
    ensures P.Waited(b, P.PingFrame(link.nonce), |slices|)
    ensures b.written == P.WriteStatus(os) && P.AsUnplugged(b.heard, slices)
    ensures r.IoOk? ==> forall c, d, apdu :: FramedApdu(apdu) ==> OnlyItsAnswer(c, link.s, d, apdu)
  {
    r, b := link.SyncLink(os, slices);
    if r.IoOk? {
      forall c, d, apdu | FramedApdu(apdu)
        ensures OnlyItsAnswer(c, link.s, d, apdu)
      {
        forall run, evs, stop: Stop | Hears(c, link.s, d, apdu, run, evs)
          ensures ItsAnswer(c, link.s, d, apdu, run, evs, stop)
        {
          ItsAnswerOrNone(c, link.s, d, apdu, run, evs, stop);
        }
      }
    }
  }
}
