/**
 The PING barrier of the demo's link (macos-demo/pq1-demo.c, `sync_link`).

 The link is two queues and a device that takes requests in order. A PING is echoed as it is;
 anything else may draw any number of reports, none of them a PING. Writes the host gave up on may
 or may not be in the queue. Every entry remembers which write it is, or which write caused it, so
 that "left over from before" is a statement about the state.
 */
module PingBarrier {
  import opened Bytes
  import opened HidFraming
  import opened HidReassembly

  /** A queued report and the number of the write it is, or answers. */
  datatype Entry = Entry(f: Report, id: nat)

  datatype LinkState = LinkState(outQ: seq<Entry>, inQ: seq<Entry>, written: nat)

  datatype Action =
    | Write(f: Report)                 // a report reaches the queue, whatever the writer was told
    | Answer(replies: seq<Report>)     // the device takes the next request
    | Take                             // the host reads a report

  predicate IsPing(f: Report) { f[2] == TAG_PING }

  function Nonce(f: Report): Bytes { f[3..11] }

  function PingFrame(nonce: nat): (f: Report)
    ensures IsPing(f) && Nonce(f) == FixedBE(nonce, 8)
  {
    Fill([Hi(CHANNEL), Lo(CHANNEL), TAG_PING], FixedBE(nonce, 8))
  }

  /** What the device may do with a request. */
  predicate Answers(f: Report, replies: seq<Report>) {
    if IsPing(f) then replies == [f] || replies == []
    else forall r :: r in replies ==> !IsPing(r)
  }

  function Entries(fs: seq<Report>, id: nat): (es: seq<Entry>)
    ensures |es| == |fs| && forall i :: 0 <= i < |fs| ==> es[i] == Entry(fs[i], id)
  {
    seq(|fs|, i requires 0 <= i < |fs| => Entry(fs[i], id))
  }

  predicate Enabled(s: LinkState, a: Action) {
    match a
    case Write(_) => true
    case Answer(replies) => s.outQ != [] && Answers(s.outQ[0].f, replies)
    case Take => s.inQ != []
  }

  function Apply(s: LinkState, a: Action): LinkState
    requires Enabled(s, a)
  {
    match a
    case Write(f) => s.(outQ := s.outQ + [Entry(f, s.written)], written := s.written + 1)
    case Answer(replies) => s.(outQ := s.outQ[1..], inQ := s.inQ + Entries(replies, s.outQ[0].id))
    case Take => s.(inQ := s.inQ[1..])
  }

  predicate Possible(s: LinkState, run: seq<Action>)
    decreases run
  {
    run != [] ==> Enabled(s, run[0]) && Possible(Apply(s, run[0]), run[1..])
  }

  function Run(s: LinkState, run: seq<Action>): LinkState
    requires Possible(s, run)
    decreases run
  {
    if run == [] then s else Run(Apply(s, run[0]), run[1..])
  }

  /** The reports the host takes, in order. */
  function TakenIn(s: LinkState, run: seq<Action>): seq<Report>
    requires Possible(s, run)
    decreases run
  {
    if run == [] then []
    else (if run[0].Take? then [s.inQ[0].f] else []) + TakenIn(Apply(s, run[0]), run[1..])
  }

  lemma {:induction false} RunsJoin(s: LinkState, a: seq<Action>, b: seq<Action>)
    requires Possible(s, a) && Possible(Run(s, a), b)
    ensures Possible(s, a + b) && Run(s, a + b) == Run(Run(s, a), b)
    ensures TakenIn(s, a + b) == TakenIn(s, a) + TakenIn(Run(s, a), b)
    decreases a
  {
    if a == [] {
      assert a + b == b;
    } else {
      RunsJoin(Apply(s, a[0]), a[1..], b);
      assert (a + b)[1..] == a[1..] + b;
    }
  }

  // ---------------------------------------------------------------- what every action keeps

  /** Both queues are in the order of the writes, and answers are older than what waits. */
  ghost predicate Ordered(s: LinkState) {
    && (forall i :: 0 <= i < |s.outQ| ==> s.outQ[i].id < s.written)
    && (forall i, j :: 0 <= i < j < |s.outQ| ==> s.outQ[i].id < s.outQ[j].id)
    && (forall i, j :: 0 <= i < j < |s.inQ| ==> s.inQ[i].id <= s.inQ[j].id)
    && (forall i :: 0 <= i < |s.inQ| ==> s.inQ[i].id < s.written)
    && (forall i, j :: 0 <= i < |s.inQ| && 0 <= j < |s.outQ| ==> s.inQ[i].id < s.outQ[j].id)
  }

  /** A PING with these nonce bytes. */
  predicate Carries8(e: Entry, nonce: Bytes) {
    IsPing(e.f) && Nonce(e.f) == nonce
  }

  /**
   Write `k` is the only PING with its nonce in the link, it draws at most one report, and that
   report is its echo.
   */
  ghost predicate Awaits(s: LinkState, k: nat, nonce: Bytes) {
    && k < s.written
    && (forall e :: e in s.outQ ==> (Carries8(e, nonce) <==> e.id == k))
    && (forall e :: e in s.inQ ==> (Carries8(e, nonce) <==> e.id == k))
    && (forall i, j :: 0 <= i < j < |s.inQ| ==> !(s.inQ[i].id == k && s.inQ[j].id == k))
  }

  lemma OrderedKept(s: LinkState, a: Action)
    requires Ordered(s) && Enabled(s, a)
    ensures Ordered(Apply(s, a))
  {
    if a.Answer? {
      OrderedAnswer(s, a.replies);
    }
  }

  lemma OrderedAnswer(s: LinkState, replies: seq<Report>)
    requires Ordered(s) && Enabled(s, Answer(replies))
    ensures Ordered(Apply(s, Answer(replies)))
  {
    var head, es := s.outQ[0], Entries(replies, s.outQ[0].id);
    var s' := Apply(s, Answer(replies));
    forall i | 0 <= i < |s'.inQ|
      ensures s'.inQ[i].id <= head.id && (i >= |s.inQ| ==> s'.inQ[i].id == head.id)
    {
      if i >= |s.inQ| {
        assert s'.inQ[i] == es[i - |s.inQ|];
      }
    }
    forall j | 0 <= j < |s'.outQ|
      ensures s'.outQ[j] == s.outQ[j + 1] && head.id < s'.outQ[j].id
    {
    }
  }

  lemma AwaitsKept(s: LinkState, a: Action, k: nat, nonce: Bytes)
    requires Ordered(s) && Awaits(s, k, nonce) && Enabled(s, a)
    requires a.Write? ==> !(IsPing(a.f) && Nonce(a.f) == nonce)
    ensures Awaits(Apply(s, a), k, nonce)
  {
    var s' := Apply(s, a);
    match a
    case Write(f) =>
    case Answer(replies) =>
      var head := s.outQ[0];
      assert head in s.outQ;
      var es := Entries(replies, head.id);
      forall e | e in s'.inQ
        ensures Carries8(e, nonce) <==> e.id == k
      {
        if e !in s.inQ {
          assert e in es;
        }
      }
      assert forall e :: e in s'.outQ ==> e in s.outQ;
      forall i, j | 0 <= i < j < |s'.inQ|
        ensures !(s'.inQ[i].id == k && s'.inQ[j].id == k)
      {
        if i >= |s.inQ| {
          assert s'.inQ[i] == es[i - |s.inQ|] && s'.inQ[j] == es[j - |s.inQ|];
        } else if j >= |s.inQ| {
          assert s'.inQ[j] == es[j - |s.inQ|];
        }
      }
    case Take =>
      assert forall e :: e in s'.inQ ==> e in s.inQ;
  }

  /** Others may go on writing, as long as they do not forge this PING. */
  predicate NotForging(run: seq<Action>, nonce: Bytes) {
    forall a :: a in run ==> a.Write? ==> !(IsPing(a.f) && Nonce(a.f) == nonce)
  }

  lemma {:induction false} RunKeeps(s: LinkState, run: seq<Action>, k: nat, nonce: Bytes)
    requires Possible(s, run) && Ordered(s) && Awaits(s, k, nonce) && NotForging(run, nonce)
    ensures Ordered(Run(s, run)) && Awaits(Run(s, run), k, nonce)
    decreases run
  {
    if run != [] {
      OrderedKept(s, run[0]);
      AwaitsKept(s, run[0], k, nonce);
      RunKeeps(Apply(s, run[0]), run[1..], k, nonce);
    }
  }

  /** Nothing in the link stems from write `k` or from anything before it. */
  ghost predicate OnlyAfter(s: LinkState, k: nat) {
    (forall e :: e in s.outQ ==> e.id > k) && (forall e :: e in s.inQ ==> e.id > k)
  }

  lemma EchoEmptiesThePast(s: LinkState, k: nat, nonce: Bytes)
    requires Ordered(s) && Awaits(s, k, nonce)
    requires s.inQ != [] && Carries8(s.inQ[0], nonce)
    ensures OnlyAfter(Apply(s, Take), k)
  {
    assert s.inQ[0] in s.inQ;
    var s' := Apply(s, Take);
    forall e | e in s'.inQ
      ensures e.id > k
    {
      var i :| 0 <= i < |s'.inQ| && s'.inQ[i] == e;
      assert s.inQ[i + 1] == e;
    }
  }

  /** No entry of the link is a PING with this nonce. */
  ghost predicate FreshNonce(s: LinkState, nonce: Bytes) {
    (forall e :: e in s.outQ ==> !Carries8(e, nonce)) && (forall e :: e in s.inQ ==> !Carries8(e, nonce))
  }

  lemma PingAwaited(s: LinkState, ping: Report)
    requires Ordered(s) && IsPing(ping) && FreshNonce(s, Nonce(ping))
    ensures var s' := Apply(s, Write(ping));
            Ordered(s') && Awaits(s', s.written, Nonce(ping))
  {
  }

  /**
   The barrier, over every run: whatever was in the link before, and whatever the device, the host
   and other writers did since the PING went out, when its echo is read nothing that was written
   before the PING, and nothing such a write caused, is left on either queue.
   */
  lemma Barrier(s: LinkState, ping: Report, run: seq<Action>)
    requires Ordered(s) && IsPing(ping) && FreshNonce(s, Nonce(ping))
    requires Possible(Apply(s, Write(ping)), run) && NotForging(run, Nonce(ping))
    requires var t := Run(Apply(s, Write(ping)), run);
             t.inQ != [] && Carries8(t.inQ[0], Nonce(ping))
    ensures OnlyAfter(Apply(Run(Apply(s, Write(ping)), run), Take), s.written)
  {
    var s' := Apply(s, Write(ping));
    PingAwaited(s, ping);
    RunKeeps(s', run, s.written, Nonce(ping));
    EchoEmptiesThePast(Run(s', run), s.written, Nonce(ping));
  }

  // ---------------------------------------------------------------- the host

  datatype IoStatus = IoOk | IoErr(error: HidReassembly.IoErr)

  const NONCES: nat := 0x1_0000_0000_0000_0000

  /** The nonce bytes of the process's `i`-th PING. */
  function OwnNonce(seed: nat, i: nat): Bytes {
    FixedBE(seed + i, 8)
  }

  /** No PING in the link, whoever wrote it, carries a nonce this process has yet to use. */
  ghost predicate SpentPings(s: LinkState, seed: nat, pings: nat) {
    && (forall e :: e in s.outQ && IsPing(e.f) ==> Spent(e.f, seed, pings))
    && (forall e :: e in s.inQ && IsPing(e.f) ==> Spent(e.f, seed, pings))
  }

  ghost predicate Spent(f: Report, seed: nat, pings: nat) {
    forall j :: pings < j && seed + j < NONCES ==> Nonce(f) != OwnNonce(seed, j)
  }

  /** Until the 64-bit counter runs out it never repeats a nonce. */
  lemma OwnNoncesDiffer(seed: nat, i: nat, j: nat)
    requires i < j && seed + j < NONCES
    ensures OwnNonce(seed, i) != OwnNonce(seed, j)
  {
    assert Pow256(8) == NONCES by {
      assert Pow256(4) == 256 * (256 * Pow256(2));
      assert Pow256(6) == 256 * (256 * Pow256(4));
      assert Pow256(8) == 256 * (256 * Pow256(6));
    }
    assert FromBE(OwnNonce(seed, i)) == seed + i && FromBE(OwnNonce(seed, j)) == seed + j;
  }

  lemma NextNonceIsFresh(s: LinkState, seed: nat, pings: nat)
    requires SpentPings(s, seed, pings) && seed + pings + 1 < NONCES
    ensures FreshNonce(s, OwnNonce(seed, pings + 1))
  {
    var nonce := OwnNonce(seed, pings + 1);
    forall e | (e in s.outQ || e in s.inQ) && IsPing(e.f)
      ensures Nonce(e.f) != nonce
    {
      assert Spent(e.f, seed, pings);
    }
  }

  /** A nonce is spent once it is used. */
  lemma NonceIsSpent(f: Report, seed: nat, i: nat)
    requires Nonce(f) == OwnNonce(seed, i)
    ensures Spent(f, seed, i)
  {
    forall j | i < j && seed + j < NONCES
      ensures Nonce(f) != OwnNonce(seed, j)
    {
      OwnNoncesDiffer(seed, i, j);
    }
  }

  lemma NextPing(s: LinkState, seed: nat, pings: nat, f: Report)
    requires Ordered(s) && SpentPings(s, seed, pings) && seed + pings + 1 < NONCES
    requires IsPing(f) && Nonce(f) == OwnNonce(seed, pings + 1)
    ensures SpentPings(s, seed, pings + 1) && Spent(f, seed, pings + 1)
    ensures Awaits(Apply(s, Write(f)), s.written, Nonce(f))
  {
    NextNonceIsFresh(s, seed, pings);
    PingAwaited(s, f);
    NonceIsSpent(f, seed, pings + 1);
  }

  lemma SpentPingsKept(s: LinkState, a: Action, seed: nat, pings: nat)
    requires SpentPings(s, seed, pings) && Enabled(s, a)
    requires a.Write? && IsPing(a.f) ==> Spent(a.f, seed, pings)
    ensures SpentPings(Apply(s, a), seed, pings)
  {
    if a.Answer? {
      assert s.outQ[0] in s.outQ;
      forall e | e in Apply(s, a).inQ && IsPing(e.f)
        ensures Spent(e.f, seed, pings)
      {
        if e !in s.inQ {
          assert e in Entries(a.replies, s.outQ[0].id);
        }
      }
    }
  }

  /** The device works; nobody writes or reads. */
  predicate DeviceOnly(run: seq<Action>) {
    forall a :: a in run ==> a.Answer?
  }

  lemma {:induction false} DeviceKeeps(s: LinkState, run: seq<Action>, seed: nat, pings: nat)
    requires Possible(s, run) && DeviceOnly(run) && Ordered(s) && SpentPings(s, seed, pings)
    ensures var t := Run(s, run);
            Ordered(t) && SpentPings(t, seed, pings) && t.written == s.written
    decreases run
  {
    if run != [] {
      assert run[0] in run;
      OrderedKept(s, run[0]);
      SpentPingsKept(s, run[0], seed, pings);
      DeviceKeeps(Apply(s, run[0]), run[1..], seed, pings);
    }
  }

  datatype ReadOutcome = Nothing | Closed | Took(f: Report)

  /** What the operating system makes of a write; when it fails the report may be queued all the same. */
  datatype OsWrite = Unplugged | Written | Unanswered(queued: bool) | Broken(queued: bool)

  function WriteStatus(os: OsWrite): IoStatus {
    match os
    case Written => IoOk
    case Unanswered(_) => IoErr(IoTimeout)
    case _ => IoErr(IoGone)
  }

  predicate Queues(os: OsWrite) {
    os.Written? || (os.Unanswered? && os.queued) || (os.Broken? && os.queued)
  }

  /** The time of one read: what the device works through, and whether it is unplugged. */
  datatype Slice = Slice(work: seq<Action>, unplugged: bool)

  /** That much of a plan as is possible: all of it or nothing. */
  function Worked(s: LinkState, work: seq<Action>): seq<Action> {
    if DeviceOnly(work) && Possible(s, work) then work else []
  }

  /** What happened during a `sync_link`: to the write, at each read, and on the link. */
  datatype Sync = Sync(written: IoStatus, heard: seq<ReadOutcome>, run: seq<Action>)

  /** Byte 2 is the PING tag, bytes 3 to 10 are the nonce. */
  predicate Echoes(read: ReadOutcome, ping: Report) {
    read.Took? && read.f[2] == 0x02 && read.f[3..11] == ping[3..11]
  }

  /** Success is the echo, read last; a disconnect is a read that found the device closed. */
  function Verdict(b: Sync, ping: Report): IoStatus {
    if b.written.IoErr? then b.written
    else if b.heard == [] then IoErr(IoTimeout)
    else
      match b.heard[|b.heard| - 1]
      case Closed => IoErr(IoGone)
      case Nothing => IoErr(IoTimeout)
      case Took(f) => if f[2] == 0x02 && f[3..11] == ping[3..11] then IoOk else IoErr(IoTimeout)
  }

  /** None of these ends the wait. */
  predicate WaitsOn(heard: seq<ReadOutcome>, ping: Report) {
    forall i :: 0 <= i < |heard| ==> !heard[i].Closed? && !Echoes(heard[i], ping)
  }

  /** Nothing before the last read ends the wait, and it is given up only after `turns` of them. */
  predicate Waited(b: Sync, ping: Report, turns: nat) {
    && (b.heard != [] ==> WaitsOn(b.heard[..|b.heard| - 1], ping))
    && (b.written.IoErr? ==> b.heard == [])
    && |b.heard| <= turns && (b.written.IoOk? && Verdict(b, ping) == IoErr(IoTimeout) ==> |b.heard| == turns)
  }

  /** A read finds the device closed, or nothing, as it is unplugged or not. */
  predicate AsUnplugged(heard: seq<ReadOutcome>, slices: seq<Slice>) {
    |heard| <= |slices| && forall i :: 0 <= i < |heard| ==>
      (heard[i].Closed? ==> slices[i].unplugged) && (heard[i].Nothing? ==> !slices[i].unplugged)
  }

  /** A read that ends the wait, or does not. */
  lemma {:induction false} WaitEnds(before: Sync, b: Sync, ping: Report, report: ReadOutcome, turns: nat)
    requires before.written.IoOk? && b.written.IoOk? && WaitsOn(before.heard, ping)
    requires b.heard == before.heard + [report] && |b.heard| <= turns
    ensures if report.Closed? then Waited(b, ping, turns) && Verdict(b, ping) == IoErr(IoGone)
            else if Echoes(report, ping) then Waited(b, ping, turns) && Verdict(b, ping) == IoOk
            else WaitsOn(b.heard, ping)
  {
    assert b.heard[..|b.heard| - 1] == before.heard;
  }

  lemma {:induction false} WaitRunsOut(b: Sync, ping: Report, turns: nat)
    requires b.written.IoOk? && WaitsOn(b.heard, ping) && |b.heard| == turns
    ensures Waited(b, ping, turns) && Verdict(b, ping) == IoErr(IoTimeout)
  {
    if turns > 0 {
      assert WaitsOn(b.heard[..turns - 1], ping);
      assert !Echoes(b.heard[turns - 1], ping);
    }
  }

  function TookIn(heard: seq<ReadOutcome>): seq<Report> {
    if heard == [] then []
    else TookIn(heard[..|heard| - 1]) + TookOne(heard[|heard| - 1])
  }

  /** The PING went first if it went at all, nothing else was written, and the reads are what was taken. */
  ghost predicate Happened(s: LinkState, s': LinkState, b: Sync, ping: Report) {
    && Possible(s, b.run) && s' == Run(s, b.run) && TakenIn(s, b.run) == TookIn(b.heard)
    && (if b.run == [] then b.written.IoErr? else b.run[0] == Write(ping))
    && forall i :: 1 <= i < |b.run| ==> !b.run[i].Write?
  }

  lemma {:induction false} OnlyWritten(s: LinkState, s': LinkState, written: IoStatus, ping: Report)
    requires s' == Apply(s, Write(ping)) || (s' == s && written.IoErr?)
    ensures Happened(s, s', Sync(written, [], if s'.written == s.written then [] else [Write(ping)]), ping)
  {
    var run := [Write(ping)];
    assert run[1..] == [] && Possible(s, run) && Run(s, run) == Apply(s, Write(ping)) && TakenIn(s, run) == [];
  }

  ghost function AndRead(b: Sync, report: ReadOutcome, run: seq<Action>): Sync {
    Sync(b.written, b.heard + [report], b.run + (run + TakeOne(report)))
  }

  /** The reports that a read takes. */
  function TookOne(report: ReadOutcome): seq<Report> {
    match report
    case Took(f) => [f]
    case _ => []
  }

  function TakeOne(report: ReadOutcome): seq<Action> {
    if report.Took? then [Take] else []
  }

  /** `report` is what a read after `run` finds. */
  ghost predicate ReadAfter(s: LinkState, s': LinkState, report: ReadOutcome, run: seq<Action>) {
    && Possible(s, run) && DeviceOnly(run)
    && var t := Run(s, run);
       if t.inQ != [] then report == Took(t.inQ[0].f) && s' == Apply(t, Take) else !report.Took? && s' == t
  }

  lemma {:induction false} ReadIsRun(s: LinkState, s': LinkState, report: ReadOutcome, run: seq<Action>)
    requires ReadAfter(s, s', report, run)
    ensures var all := run + TakeOne(report);
            Possible(s, all) && Run(s, all) == s' && TakenIn(s, all) == TookOne(report)
  {
    TakesNothing(s, run);
    TakesOne(Run(s, run), s', report);
    RunsJoin(s, run, TakeOne(report));
  }

  lemma TakesOne(t: LinkState, s': LinkState, report: ReadOutcome)
    requires if t.inQ != [] then report == Took(t.inQ[0].f) && s' == Apply(t, Take) else !report.Took? && s' == t
    ensures Possible(t, TakeOne(report)) && Run(t, TakeOne(report)) == s'
    ensures TakenIn(t, TakeOne(report)) == TookOne(report)
  {
    assert [Take][1..] == [];
  }

  lemma TookMore(heard: seq<ReadOutcome>, report: ReadOutcome)
    ensures TookIn(heard + [report]) == TookIn(heard) + TookOne(report)
  {
    assert (heard + [report])[..|heard|] == heard;
  }

  lemma {:induction false} OneMoreRead(s: LinkState, s': LinkState, s'': LinkState, b: Sync, ping: Report,
                                       report: ReadOutcome, run: seq<Action>)
    requires Happened(s, s', b, ping) && b.run != [] && ReadAfter(s', s'', report, run)
    ensures Happened(s, s'', AndRead(b, report, run), ping)
  {
    ReadIsRun(s', s'', report, run);
    RunsJoin(s, b.run, run + TakeOne(report));
    TookMore(b.heard, report);
    NoMoreWrites(b.run, run, TakeOne(report));
  }

  lemma {:induction false} NoMoreWrites(first: seq<Action>, run: seq<Action>, last: seq<Action>)
    requires first != [] && DeviceOnly(run) && (last == [] || last == [Take])
    requires forall i :: 1 <= i < |first| ==> !first[i].Write?
    ensures forall i :: 1 <= i < |first + (run + last)| ==> !(first + (run + last))[i].Write?
  {
    forall i | 1 <= i < |first + (run + last)|
      ensures !(first + (run + last))[i].Write?
    {
      if |first| <= i < |first| + |run| {
        assert run[i - |first|] in run;
      }
    }
  }

  lemma {:induction false} TakesNothing(s: LinkState, run: seq<Action>)
    requires Possible(s, run) && DeviceOnly(run)
    ensures TakenIn(s, run) == []
    decreases run
  {
    if run != [] {
      assert run[0] in run;
      TakesNothing(Apply(s, run[0]), run[1..]);
    }
  }

  /** A read of that long: the oldest report if there is one then, and otherwise what the plug says. */
  ghost predicate ReadDuring(s: LinkState, s': LinkState, r: ReadOutcome, slice: Slice) {
    var t := Run(s, Worked(s, slice.work));
    if t.inQ != [] then r == Took(t.inQ[0].f) && s' == Apply(t, Take)
    else r == (if slice.unplugged then Closed else Nothing) && s' == t
  }

  /** What one more read adds to the account of a wait. */
  lemma {:induction false} ReadAccount(s0: LinkState, s: LinkState, s': LinkState, b: Sync, k: nat, ping: Report,
                                       report: ReadOutcome, slices: seq<Slice>, turn: nat)
    requires Ordered(s) && Awaits(s, k, Nonce(ping)) && s.written == k + 1 && IsPing(ping)
    requires Happened(s0, s, b, ping) && b.written.IoOk?
    requires AsUnplugged(b.heard, slices) && |b.heard| == turn < |slices| && ReadDuring(s, s', report, slices[turn])
    ensures var b' := AndRead(b, report, Worked(s, slices[turn].work));
            Happened(s0, s', b', ping) && AsUnplugged(b'.heard, slices)
    ensures s'.written == k + 1
    ensures if Echoes(report, ping) then s'.outQ == [] && s'.inQ == [] else Awaits(s', k, Nonce(ping))
  {
    var run := Worked(s, slices[turn].work);
    BarrierTurn(s, run, k, Nonce(ping));
    OneMoreRead(s0, s, s', b, ping, report, run);
  }

  /** The process's end of the link, with its static nonce: 0, then the seed and the PINGs since. */
  class Link {
    var s: LinkState
    var nonce: nat
    const seed: nat
    ghost var pings: nat

    ghost predicate Valid()
      reads this
    {
      Ordered(s) && SpentPings(s, seed, pings) && nonce == if pings == 0 then 0 else seed + pings
    }

    constructor (s0: LinkState, seed: nat)
      requires Ordered(s0)
      requires SpentPings(s0, seed, 0)
      ensures Valid() && s == s0 && pings == 0
    {
      s, this.seed, nonce, pings := s0, seed, 0, 0;
    }

    /** `hid_write`: success is a report queued; after an error it may be queued all the same. */
    method HidWrite(f: Report, os: OsWrite) returns (r: IoStatus)
      requires Valid() && (IsPing(f) ==> Spent(f, seed, pings))
      modifies this`s
      ensures Valid() && s == if Queues(os) then Apply(old(s), Write(f)) else old(s)
      ensures r == WriteStatus(os)
    {
      if Queues(os) {
        OrderedKept(s, Write(f));
        SpentPingsKept(s, Write(f), seed, pings);
        s := Apply(s, Write(f));
      }
      match os {
        case Unplugged => return IoErr(IoGone);
        case Unanswered(_) => return IoErr(IoTimeout);
        case Broken(_) => return IoErr(IoGone);
        case Written => return IoOk;
      }
    }

    /** Time passes: the device works through part of what waits. */
    method Pump(work: seq<Action>)
      requires Valid()
      modifies this`s
      ensures Valid() && s == Run(old(s), Worked(old(s), work)) && s.written == old(s).written
    {
      if DeviceOnly(work) && Possible(s, work) {
        DeviceKeeps(s, work, seed, pings);
        s := Run(s, work);
      }
    }

    /** `hid_read`: a report, or nothing within the time slice, or the device is gone. */
    method HidRead(slice: Slice) returns (r: ReadOutcome)
      requires Valid()
      modifies this`s
      ensures Valid() && s.written == old(s).written && ReadDuring(old(s), s, r, slice)
    {
      Pump(slice.work);
      if s.inQ != [] {
        r := Took(s.inQ[0].f);
        OrderedKept(s, Take);
        SpentPingsKept(s, Take, seed, pings);
        s := Apply(s, Take);
      } else if slice.unplugged {
        r := Closed;
      } else {
        r := Nothing;
      }
    }

    /**
     `sync_link`, with a read for each slice until the deadline: what became of the write, and what the
     reads returned, decide its result. Once it returns IoOk the link is empty in both directions:
     nothing earlier can be taken for the next answer.
     */
    method SyncLink(os: OsWrite, slices: seq<Slice>) returns (r: IoStatus, ghost b: Sync)
      requires Valid() && seed + pings + 1 < NONCES
      modifies this
      ensures Valid() && pings == old(pings) + 1
      ensures nonce == (if old(nonce) == 0 then seed else old(nonce)) + 1
      ensures Happened(old(s), s, b, PingFrame(nonce)) && Waited(b, PingFrame(nonce), |slices|)
      ensures r == Verdict(b, PingFrame(nonce)) && b.written == WriteStatus(os) && AsUnplugged(b.heard, slices)
      ensures r.IoOk? ==> s.outQ == [] && s.inQ == []
    {
      ghost var k := s.written;
      var f;
      r, f := SendPing(os);
      b := Sync(r, [], if s.written == old(s).written then [] else [Write(f)]);
      OnlyWritten(old(s), s, r, f);
      if r.IoErr? {
        return;
      }
      r, b := AwaitEcho(old(s), b, k, f, slices);
    }

    /** Its loop: everything is dropped up to the echo. */
    method AwaitEcho(ghost s0: LinkState, ghost b: Sync, ghost k: nat, f: Report, slices: seq<Slice>)
        returns (r: IoStatus, ghost b': Sync)
      requires Valid() && Happened(s0, s, b, f) && b.written.IoOk? && b.heard == []
      requires Awaits(s, k, Nonce(f)) && s.written == k + 1 && IsPing(f)
      modifies this`s
      ensures Valid() && Happened(s0, s, b', f) && Waited(b', f, |slices|) && r == Verdict(b', f)
      ensures b'.written == b.written && AsUnplugged(b'.heard, slices)
      ensures r.IoOk? ==> s.outQ == [] && s.inQ == []
    {
      b' := b;
      for turn := 0 to |slices|
        invariant Valid() && Awaits(s, k, Nonce(f)) && s.written == k + 1
        invariant Happened(s0, s, b', f) && b'.written.IoOk? && |b'.heard| == turn && WaitsOn(b'.heard, f)
        invariant AsUnplugged(b'.heard, slices)
      {
        var report;
        ghost var before := b';
        report, b' := ReadOnce(s0, b', k, f, slices, turn);
        WaitEnds(before, b', f, report, |slices|);
        if report.Closed? {
          return IoErr(IoGone), b';
        }
        if report.Took? && report.f[2] == TAG_PING && report.f[3..11] == f[3..11] {
          return IoOk, b';
        }
      }
      WaitRunsOut(b', f, |slices|);
      return IoErr(IoTimeout), b';
    }

    /** One read of the waiting loop. */
    method ReadOnce(ghost s0: LinkState, ghost b: Sync, ghost k: nat, f: Report, slices: seq<Slice>, turn: nat)
        returns (report: ReadOutcome, ghost b': Sync)
      requires Valid() && Happened(s0, s, b, f) && b.written.IoOk?
      requires Awaits(s, k, Nonce(f)) && s.written == k + 1 && IsPing(f)
      requires AsUnplugged(b.heard, slices) && |b.heard| == turn < |slices|
      modifies this`s
      ensures Valid() && Happened(s0, s, b', f) && b'.written == b.written && b'.heard == b.heard + [report]
      ensures s.written == k + 1 && AsUnplugged(b'.heard, slices)
      ensures if Echoes(report, f) then s.outQ == [] && s.inQ == [] else Awaits(s, k, Nonce(f))
    {
      ghost var before := s;
      report := HidRead(slices[turn]);
      ReadAccount(s0, before, s, b, k, f, report, slices, turn);
      b' := AndRead(b, report, Worked(before, slices[turn].work));
    }

    /** The first half of `sync_link`: a PING with the next nonce. */
    method SendPing(os: OsWrite) returns (r: IoStatus, f: Report)
      requires Valid() && seed + pings + 1 < NONCES
      modifies this
      ensures Valid() && pings == old(pings) + 1 && f == PingFrame(nonce)
      ensures nonce == (if old(nonce) == 0 then seed else old(nonce)) + 1
      ensures r == WriteStatus(os) && s == if Queues(os) then Apply(old(s), Write(f)) else old(s)
      ensures r.IoOk? ==> Awaits(s, old(s).written, Nonce(f)) && s.written == old(s).written + 1
    {
      if nonce == 0 {
        nonce := seed;
      }
      nonce := nonce + 1;
      f := PingFrame(nonce);
      NextPing(s, seed, pings, f);
      pings := pings + 1;
      r := HidWrite(f, os);
    }
  }

  /** One read while a PING is awaited: its echo ends with an empty link, anything else waits on. */
  lemma BarrierTurn(s: LinkState, run: seq<Action>, k: nat, nonce: Bytes)
    requires Possible(s, run) && DeviceOnly(run)
    requires Ordered(s) && Awaits(s, k, nonce) && s.written == k + 1
    ensures var t := Run(s, run);
            && Awaits(t, k, nonce) && t.written == k + 1
            && (t.inQ != [] && Carries8(t.inQ[0], nonce) ==> Apply(t, Take).outQ == [] && Apply(t, Take).inQ == [])
            && (t.inQ != [] && !Carries8(t.inQ[0], nonce) ==> Awaits(Apply(t, Take), k, nonce))
  {
    RunKeeps(s, run, k, nonce);
    DeviceWritesNothing(s, run);
    var t := Run(s, run);
    if t.inQ != [] {
      OrderedKept(t, Take);
      if Carries8(t.inQ[0], nonce) {
        EchoEmptiesThePast(t, k, nonce);
        NothingAfterTheLast(Apply(t, Take), k);
      } else {
        AwaitsKept(t, Take, k, nonce);
      }
    }
  }

  lemma {:induction false} DeviceWritesNothing(s: LinkState, run: seq<Action>)
    requires Possible(s, run) && DeviceOnly(run)
    ensures Run(s, run).written == s.written
    decreases run
  {
    if run != [] {
      assert run[0] in run;
      DeviceWritesNothing(Apply(s, run[0]), run[1..]);
    }
  }

  lemma NothingAfterTheLast(s: LinkState, k: nat)
    requires Ordered(s) && OnlyAfter(s, k) && s.written == k + 1
    ensures s.outQ == [] && s.inQ == []
  {
    if s.outQ != [] {
      OldestIsQueued(s.outQ);
      assert false;
    }
    if s.inQ != [] {
      OldestIsQueued(s.inQ);
      assert false;
    }
  }

  lemma OldestIsQueued(q: seq<Entry>)
    requires q != []
    ensures q[0] in q
  {
  }
}
