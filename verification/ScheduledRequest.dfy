/**
 A whole chained request over the two queues, for every schedule: how far the host writes, what the
 firmware works through, what the host hears of it and when it gives up may differ from exchange to
 exchange. It comes to what it comes to by calls, or the host gives up and it was executed once or not
 at all.
 */
module ScheduledRequest {
  import opened Bytes
  import opened Buffers
  import opened HidFraming
  import opened HidReassembly
  import opened ChainedExchange
  import opened LinkedExchange
  import opened SyncedExchange
  import P = PingBarrier

  /** The two queues and the firmware behind them. */
  datatype Live = Live(s: P.LinkState, d: Firm)

  /** An exchange: the run of the queues, what the host hears, and what ends its wait if no reply does. */
  type Schedule = (Live, Bytes) -> (seq<P.Action>, seq<Event>, Stop)

  predicate Empty(l: Live) {
    l.s.outQ == [] && l.s.inQ == []
  }

  /** `exchange` under a schedule; one that is not possible is silence. */
  ghost function Scheduled(c: Commands, choose: Schedule): Peer<Live> {
    (l: Live, apdu: Bytes) =>
      var (run, evs, stop) := choose(l, apdu);
      if Hears(c, l.s, l.d, apdu, run, evs)
      then (Live(Ends(c, l.s, l.d, run).0, Ends(c, l.s, l.d, run).1), ReadsTo(evs, stop))
      else (l, Failed(IoTimeout))
  }

  // ---------------------------------------------------------------- one exchange

  ghost predicate Settles(c: Commands, l: Live, apdu: Bytes, l': Live, r: ReadResult) {
    Empty(l') && l'.d.dev == Dispatch(c, l.d.dev, apdu).0 && r == Finish(Dispatch(c, l.d.dev, apdu).1)
  }

  /** The host gave up; a reply that breaks the protocol is none of these. */
  predicate NoReply(r: ReadResult) {
    r.Failed? && r.error != IoProto
  }

  ghost predicate Lost(c: Commands, l: Live, apdu: Bytes, l': Live, r: ReadResult) {
    NoReply(r) && OnceOrNot(c, l.d.dev, apdu, l'.d.dev)
  }

  lemma {:induction false} SettlesOrIsLost(c: Commands, choose: Schedule, l: Live, apdu: Bytes)
    requires Empty(l) && FramedApdu(apdu)
    ensures var (l', r) := Scheduled(c, choose)(l, apdu); Settles(c, l, apdu, l', r) || Lost(c, l, apdu, l', r)
  {
    var (run, evs, stop) := choose(l, apdu);
    if Hears(c, l.s, l.d, apdu, run, evs) {
      ItsAnswerOrNone(c, l.s, l.d, apdu, run, evs, stop);
    }
  }

  // ---------------------------------------------------------------- drain, exchange, send

  /** The same as by calls, or no reply, over a firmware that executed one thing or the other. */
  ghost predicate SameOrLost(left: (Live, ReadResult), right: (Device, ReadResult),
                             e: seq<(Byte, Bytes)>, f: seq<(Byte, Bytes)>) {
    || (Empty(left.0) && left.0.d.dev == right.0 && left.1 == right.1)
    || (NoReply(left.1) && (left.0.d.dev.executed == e || left.0.d.dev.executed == f))
  }

  lemma {:induction false} DrainsOrIsLost(c: Commands, choose: Schedule, l: Live, sw: nat, data: Bytes, rounds: nat)
    requires Empty(l) && rounds <= DRAIN_ROUNDS
    ensures SameOrLost(Drain(Scheduled(c, choose), l, sw, data, rounds), Drain(Firmware(c), l.d.dev, sw, data, rounds),
                       l.d.dev.executed, l.d.dev.executed)
    decreases DRAIN_ROUNDS - rounds
  {
    if MoreData(sw) && rounds < DRAIN_ROUNDS {
      SettlesOrIsLost(c, choose, l, GET_RESPONSE);
      DrainExecutesNothing(c, l.d.dev);
      var (l', reply) := Scheduled(c, choose)(l, GET_RESPONSE);
      if Settles(c, l, GET_RESPONSE, l', reply) && reply.Replied? && |data| + |reply.data| <= CAP {
        DrainsOrIsLost(c, choose, l', reply.sw, data + reply.data, rounds + 1);
      }
    }
  }

  lemma DrainExecutesNothing(c: Commands, dev: Device)
    ensures Dispatch(c, dev, GET_RESPONSE).0.executed == dev.executed
  {
  }

  lemma {:induction false} ExchangesOrIsLost(c: Commands, choose: Schedule, l: Live, apdu: Bytes)
    requires Empty(l) && FramedApdu(apdu)
    ensures SameOrLost(Exchange(Scheduled(c, choose), l, apdu), Exchange(Firmware(c), l.d.dev, apdu),
                       l.d.dev.executed, Dispatch(c, l.d.dev, apdu).0.executed)
  {
    SettlesOrIsLost(c, choose, l, apdu);
    var (l', reply) := Scheduled(c, choose)(l, apdu);
    if Settles(c, l, apdu, l', reply) && reply.Replied? {
      DrainsOrIsLost(c, choose, l', reply.sw, reply.data, 0);
    }
  }

  /** A block executes nothing, or, when it is the last, the whole request. */
  lemma {:induction false} BlockExecutes(c: Commands, dev: Device, ins: Byte, whole: Bytes, off: nat)
    requires Chained(c, ins) && Holds(dev, ins, whole, off)
    ensures var e := Dispatch(c, dev, BlockAt(ins, whole, off)).0.executed;
            e == dev.executed || e == dev.executed + [(ins, whole)]
  {
    BlockReachesTheChain(c, dev, ins, whole, off);
    var n := Min(|whole| - off, BLOCK);
    assert (if dev.ins == 0 then [] else dev.chain) + whole[off..off + n] == whole[..off + n];
    assert whole[..|whole|] == whole;
  }

  lemma SameBlock(ins: Byte, q: Bytes, p: Bytes, off: nat)
    requires off <= |p|
    ensures BlockAt(ins, q + p, |q| + off) == BlockAt(ins, p, off)
  {
    var n := Min(|p| - off, BLOCK);
    assert (q + p)[|q| + off..|q| + off + n] == p[off..off + n];
  }

  lemma Wider(left: (Live, ReadResult), right: (Device, ReadResult), e: seq<(Byte, Bytes)>, f: seq<(Byte, Bytes)>,
              g: seq<(Byte, Bytes)>)
    requires SameOrLost(left, right, e, f) && (f == e || f == g)
    ensures SameOrLost(left, right, e, g)
  {
  }

  /** One block of a request. */
  lemma {:induction false} BlockOrIsLost(c: Commands, choose: Schedule, l: Live, ins: Byte, whole: Bytes, at: nat,
                                         block: Bytes)
    requires Empty(l) && Chained(c, ins) && Holds(l.d.dev, ins, whole, at) && block == BlockAt(ins, whole, at)
    ensures SameOrLost(Exchange(Scheduled(c, choose), l, block), Exchange(Firmware(c), l.d.dev, block),
                       l.d.dev.executed, l.d.dev.executed + [(ins, whole)])
  {
    var f := Dispatch(c, l.d.dev, block).0.executed;
    BlockExecutes(c, l.d.dev, ins, whole, at);
    ExchangesOrIsLost(c, choose, l, block);
    Wider(Exchange(Scheduled(c, choose), l, block), Exchange(Firmware(c), l.d.dev, block),
          l.d.dev.executed, f, l.d.dev.executed + [(ins, whole)]);
  }

  /** A block that is answered with 0x9000 before the end is in the chain. */
  lemma {:induction false} BlockPasses(c: Commands, dev: Device, ins: Byte, whole: Bytes, at: nat, block: Bytes,
                                       dev': Device, r: ReadResult)
    requires Chained(c, ins) && Holds(dev, ins, whole, at) && |whole| - at > BLOCK
    requires block == BlockAt(ins, whole, at) && Exchange(Firmware(c), dev, block) == (dev', r)
    requires r.Replied? && r.sw == SW_OK
    ensures dev'.executed == dev.executed && Holds(dev', ins, whole, at + BLOCK)
  {
    BlockAppended(c, dev, ins, whole, at);
  }

  /** Sending from one block on, when that comes to the same or is lost and so does the rest. */
  lemma {:induction false} SendsBlock(c: Commands, choose: Schedule, l: Live, ins: Byte, p: Bytes, off: nat,
                                      e: seq<(Byte, Bytes)>, f: seq<(Byte, Bytes)>)
    requires off <= |p|
    requires var left := Exchange(Scheduled(c, choose), l, BlockAt(ins, p, off));
             var right := Exchange(Firmware(c), l.d.dev, BlockAt(ins, p, off));
      && SameOrLost(left, right, e, f)
      && (|p| - off > BLOCK && left.1.Replied? && left.1.sw == SW_OK ==>
            SameOrLost(Send(Scheduled(c, choose), left.0, ins, p, off + BLOCK),
                       Send(Firmware(c), right.0, ins, p, off + BLOCK), e, f))
    ensures SameOrLost(Send(Scheduled(c, choose), l, ins, p, off), Send(Firmware(c), l.d.dev, ins, p, off), e, f)
  {
    SendStep(Scheduled(c, choose), l, ins, p, off);
    SendStep(Firmware(c), l.d.dev, ins, p, off);
  }

  lemma {:induction false} OneBlock(c: Commands, choose: Schedule, l: Live, ins: Byte, q: Bytes, p: Bytes, off: nat)
    requires Empty(l) && Chained(c, ins) && off <= |p| && Holds(l.d.dev, ins, q + p, |q| + off)
    ensures var left := Exchange(Scheduled(c, choose), l, BlockAt(ins, p, off));
            var right := Exchange(Firmware(c), l.d.dev, BlockAt(ins, p, off));
      && SameOrLost(left, right, l.d.dev.executed, l.d.dev.executed + [(ins, q + p)])
      && (|p| - off > BLOCK && left.1.Replied? && left.1.sw == SW_OK ==>
            && Empty(left.0) && left.0.d.dev == right.0 && right.0.executed == l.d.dev.executed
            && Holds(right.0, ins, q + p, |q| + (off + BLOCK)))
  {
    var block := BlockAt(ins, p, off);
    var left, right := Exchange(Scheduled(c, choose), l, block), Exchange(Firmware(c), l.d.dev, block);
    SameBlock(ins, q, p, off);
    BlockOrIsLost(c, choose, l, ins, q + p, |q| + off, block);
    if |p| - off > BLOCK && left.1.Replied? && left.1.sw == SW_OK {
      BlockPasses(c, l.d.dev, ins, q + p, |q| + off, block, right.0, right.1);
    }
  }

  /** With `q` and the blocks before `off` in the chain. */
  lemma {:induction false} SendsOrIsLost(c: Commands, choose: Schedule, l: Live, ins: Byte,
                                         q: Bytes, p: Bytes, off: nat)
    requires Empty(l) && Chained(c, ins) && off <= |p| && Holds(l.d.dev, ins, q + p, |q| + off)
    ensures SameOrLost(Send(Scheduled(c, choose), l, ins, p, off), Send(Firmware(c), l.d.dev, ins, p, off),
                       l.d.dev.executed, l.d.dev.executed + [(ins, q + p)])
    decreases |p| - off
  {
    var e, f := l.d.dev.executed, l.d.dev.executed + [(ins, q + p)];
    var left := Exchange(Scheduled(c, choose), l, BlockAt(ins, p, off));
    OneBlock(c, choose, l, ins, q, p, off);
    if |p| - off > BLOCK && left.1.Replied? && left.1.sw == SW_OK {
      SendsOrIsLost(c, choose, left.0, ins, q, p, off + BLOCK);
    }
    SendsBlock(c, choose, l, ins, p, off, e, f);
  }

  // ---------------------------------------------------------------- the whole request

  /** `send_chained` of a whole payload under a schedule. */
  ghost function LiveRequest(c: Commands, choose: Schedule, l: Live, ins: Byte, p: Bytes): (Live, ReadResult) {
    Send(Scheduled(c, choose), l, ins, p, 0)
  }

  lemma {:induction false} RefusedOrIsLost(c: Commands, choose: Schedule, l: Live, ins: Byte, p: Bytes)
    requires Empty(l) && Chained(c, ins) && OtherChain(l.d.dev, ins)
    ensures SameOrLost(LiveRequest(c, choose, l, ins, p), Request(c, l.d.dev, ins, p),
                       l.d.dev.executed, l.d.dev.executed)
  {
    var dev, block := l.d.dev, BlockAt(ins, p, 0);
    BlockReachesTheChain(c, dev, ins, p, 0);
    ExchangesOrIsLost(c, choose, l, block);
    SendStep(Scheduled(c, choose), l, ins, p, 0);
    SendStep(Firmware(c), dev, ins, p, 0);
    AnsweredByStatus(c, dev, block, Device(0, [], None, dev.executed), SW_CONDITIONS_NOT_SATISFIED);
  }

  /** Executed once, behind what an abandoned request left in the chain, or not at all. */
  predicate ExecutedAtMostOnce(dev: Device, ins: Byte, p: Bytes, dev': Device) {
    || dev'.executed == dev.executed
    || (!OtherChain(dev, ins) && dev'.executed == dev.executed + [(ins, LeftOver(dev, ins) + p)])
  }

  /** The outcome by calls, over queues that are empty again; or no reply, after one execution or none. */
  ghost predicate OutcomeOrNone(c: Commands, choose: Schedule, l: Live, ins: Byte, p: Bytes) {
    var (l', r) := LiveRequest(c, choose, l, ins, p);
    || (Empty(l') && ComesTo(c, l.d.dev, ins, p, l'.d.dev, r))
    || (NoReply(r) && ExecutedAtMostOnce(l.d.dev, ins, p, l'.d.dev))
  }

  /** Executed behind what an abandoned request left, this one is not answered by a bare "more data". */
  predicate Drainable(c: Commands, dev: Device, ins: Byte, p: Bytes) {
    AnswersDrained(c.execute(dev.executed, ins, LeftOver(dev, ins) + p))
  }

  /**
   From empty queues, as the barrier leaves them, and whatever state the assembler and the router were
   left in: under every schedule the request comes to what it comes to by calls, with both queues
   empty again, or the host gives up, and then it was executed once or not at all.
   */
  lemma {:induction false} ItsOutcomeOrNone(c: Commands, choose: Schedule, l: Live, ins: Byte, p: Bytes)
    requires Empty(l) && Chained(c, ins) && Drainable(c, l.d.dev, ins, p)
    ensures OutcomeOrNone(c, choose, l, ins, p)
  {
    EndToEnd(c, l.d.dev, ins, p);
    if OtherChain(l.d.dev, ins) {
      RefusedOrIsLost(c, choose, l, ins, p);
    } else {
      var q := LeftOver(l.d.dev, ins);
      assert (q + p)[..|q|] == q;
      SendsOrIsLost(c, choose, l, ins, q, p, 0);
    }
  }

  /** Barrier and request: whatever was queued before, and whatever state the firmware was left in. */
  method SyncThenRequest(link: P.Link, os: P.OsWrite, slices: seq<P.Slice>) returns (r: P.IoStatus, ghost b: P.Sync)
    requires link.Valid() && link.seed + link.pings + 1 < P.NONCES
    modifies link
    ensures link.Valid() && r == P.Verdict(b, P.PingFrame(link.nonce))
    ensures P.Happened(old(link.s), link.s, b, P.PingFrame(link.nonce))
    ensures P.Waited(b, P.PingFrame(link.nonce), |slices|)
    ensures b.written == P.WriteStatus(os) && P.AsUnplugged(b.heard, slices)
    ensures r.IoOk? ==>
      forall c, choose, d: Firm, ins, p :: Chained(c, ins) && Drainable(c, d.dev, ins, p) ==>
        OutcomeOrNone(c, choose, Live(link.s, d), ins, p)
  {
    r, b := link.SyncLink(os, slices);
    if r.IoOk? {
      forall c, choose, d: Firm, ins, p | Chained(c, ins) && Drainable(c, d.dev, ins, p)
        ensures OutcomeOrNone(c, choose, Live(link.s, d), ins, p)
      {
        ItsOutcomeOrNone(c, choose, Live(link.s, d), ins, p);
      }
    }
  }

  // ---------------------------------------------------------------- when everything is heard

  /** From every settled state the host hears the whole reply. */
  ghost predicate Complete(c: Commands, choose: Schedule) {
    forall l: Live, apdu: Bytes :: Empty(l) && l.d.rx.expected == 0 && FramedApdu(apdu) ==>
      HearsAll(c, l, apdu, choose(l, apdu).0, choose(l, apdu).1)
  }

  ghost predicate HearsAll(c: Commands, l: Live, apdu: Bytes, run: seq<P.Action>, evs: seq<Event>) {
    Hears(c, l.s, l.d, apdu, run, evs) && Reported(evs) == Reply(c, l.d, apdu)
  }

  /** Then the request comes to what it comes to by calls. */
  lemma {:induction false} ItsOutcome(c: Commands, choose: Schedule, l: Live, ins: Byte, p: Bytes)
    requires Complete(c, choose) && Empty(l) && l.d.rx.expected == 0
    requires Chained(c, ins) && Drainable(c, l.d.dev, ins, p)
    ensures var (l', r) := LiveRequest(c, choose, l, ins, p);
            Empty(l') && ComesTo(c, l.d.dev, ins, p, l'.d.dev, r)
  {
    var alike := (l: Live, dev: Device) => Empty(l) && l.d.rx.expected == 0 && l.d.dev == dev;
    var sent := (apdu: Bytes) => FramedApdu(apdu);
    forall l: Live, dev: Device, apdu: Bytes | alike(l, dev) && sent(apdu)
      ensures alike(Scheduled(c, choose)(l, apdu).0, Firmware(c)(dev, apdu).0)
      ensures Scheduled(c, choose)(l, apdu).1 == Firmware(c)(dev, apdu).1
    {
      assert HearsAll(c, l, apdu, choose(l, apdu).0, choose(l, apdu).1);
      ItsAnswerOrNone(c, l.s, l.d, apdu, choose(l, apdu).0, choose(l, apdu).1, choose(l, apdu).2);
    }
    SendsAlike(Scheduled(c, choose), Firmware(c), alike, sent, l, l.d.dev, ins, p, 0);
    EndToEnd(c, l.d.dev, ins, p);
  }

  // ---------------------------------------------------------------- and it can be

  function Writes(fs: seq<Report>): seq<P.Action>
    decreases fs
  {
    if fs == [] then [] else [P.Write(fs[0])] + Writes(fs[1..])
  }

  function Answers(c: Commands, d: Firm, fs: seq<Report>): seq<P.Action>
    decreases fs
  {
    if fs == [] then [] else [P.Answer(Reacts(c, d, fs[0]).1)] + Answers(c, Reacts(c, d, fs[0]).0, fs[1..])
  }

  function Takes(n: nat): seq<P.Action>
    decreases n
  {
    if n == 0 then [] else [P.Take] + Takes(n - 1)
  }

  /** All is written, then all is answered, then all is taken. */
  function Prompt(c: Commands, d: Firm, fs: seq<Report>): seq<P.Action> {
    Writes(fs) + (Answers(c, d, fs) + Takes(|Serve(c, d, fs).1|))
  }

  lemma {:induction false} TakesAreFaithful(c: Commands, s: P.LinkState, d: Firm)
    ensures Faithful(c, s, d, Takes(|s.inQ|)) && Written(Takes(|s.inQ|)) == []
    ensures Taken(c, s, d, Takes(|s.inQ|)) == Queued(s.inQ)
    decreases |s.inQ|
  {
    if s.inQ != [] {
      var next := P.Apply(s, P.Take);
      TakesAreFaithful(c, next, d);
      assert Takes(|s.inQ|)[1..] == Takes(|next.inQ|);
      assert Queued(s.inQ) == [s.inQ[0].f] + Queued(next.inQ);
    }
  }

  /** A faithful run without writes in which the host takes what waits for it and then `rs`. */
  ghost predicate TakesAll(c: Commands, s: P.LinkState, d: Firm, run: seq<P.Action>, rs: seq<Report>) {
    Faithful(c, s, d, run) && Written(run) == [] && Taken(c, s, d, run) == Queued(s.inQ) + rs
  }

  lemma {:induction false} AnswerInFront(c: Commands, s: P.LinkState, d: Firm, run: seq<P.Action>, rs: seq<Report>)
    requires s.outQ != []
    requires var (d1, replies) := Reacts(c, d, s.outQ[0].f);
             P.Answers(s.outQ[0].f, replies) && TakesAll(c, P.Apply(s, P.Answer(replies)), d1, run, rs)
    ensures var replies := Reacts(c, d, s.outQ[0].f).1; TakesAll(c, s, d, [P.Answer(replies)] + run, replies + rs)
  {
    var (d1, replies) := Reacts(c, d, s.outQ[0].f);
    var next, all := P.Apply(s, P.Answer(replies)), [P.Answer(replies)] + run;
    assert all[0] == P.Answer(replies) && all[1..] == run;
    AnswerMoves(s, replies);
    EmptyFront(Taken(c, next, d1, run));
    Regroup(Queued(s.inQ), replies, rs);
  }

  lemma {:induction false} AnswersInFront(c: Commands, d: Firm, fs: seq<Report>, more: seq<P.Action>)
    requires fs != []
    ensures var (d1, replies) := Reacts(c, d, fs[0]);
            Answers(c, d, fs) + more == [P.Answer(replies)] + (Answers(c, d1, fs[1..]) + more)
  {
  }

  /** The first of the queued reports, with `more` after all answers. */
  lemma {:induction false} FirstAnswer(c: Commands, s: P.LinkState, d: Firm, fs: seq<Report>, more: seq<P.Action>)
    requires fs != [] && Queued(s.outQ) == fs
    ensures var (d1, replies) := Reacts(c, d, fs[0]);
      && P.Enabled(s, P.Answer(replies))
      && var next := P.Apply(s, P.Answer(replies));
      && Queued(next.outQ) == fs[1..] && |next.inQ| == |s.inQ| + |replies|
      && (TakesAll(c, next, d1, Answers(c, d1, fs[1..]) + more, Serve(c, d1, fs[1..]).1) ==>
            TakesAll(c, s, d, Answers(c, d, fs) + more, Serve(c, d, fs).1))
  {
    var (d1, replies) := Reacts(c, d, fs[0]);
    FirmwareAnswers(c, d, fs[0], replies);
    AnswerMoves(s, replies);
    var next, rest, rs := P.Apply(s, P.Answer(replies)), Answers(c, d1, fs[1..]) + more, Serve(c, d1, fs[1..]).1;
    if TakesAll(c, next, d1, rest, rs) {
      AnswerInFront(c, s, d, rest, rs);
      AnswersInFront(c, d, fs, more);
    }
  }

  lemma {:induction false} AnswersAreFaithful(c: Commands, s: P.LinkState, d: Firm, fs: seq<Report>, n: nat)
    requires Queued(s.outQ) == fs && n == |s.inQ| + |Serve(c, d, fs).1|
    ensures TakesAll(c, s, d, Answers(c, d, fs) + Takes(n), Serve(c, d, fs).1)
    decreases fs
  {
    if fs == [] {
      TakesAreFaithful(c, s, d);
      assert Answers(c, d, fs) + Takes(n) == Takes(n);
      EmptyBack(Queued(s.inQ));
    } else {
      FirstAnswer(c, s, d, fs, Takes(n));
      var (d1, replies) := Reacts(c, d, fs[0]);
      AnswersAreFaithful(c, P.Apply(s, P.Answer(replies)), d1, fs[1..], n);
    }
  }

  /** A faithful run that writes `fs` and in which the host takes `rs`. */
  ghost predicate WritesAndTakes(c: Commands, s: P.LinkState, d: Firm, run: seq<P.Action>,
                                 fs: seq<Report>, rs: seq<Report>) {
    Faithful(c, s, d, run) && Written(run) == fs && Taken(c, s, d, run) == rs
  }

  lemma {:induction false} WriteInFront(c: Commands, s: P.LinkState, d: Firm, f: Report, run: seq<P.Action>,
                                        fs: seq<Report>, rs: seq<Report>)
    requires WritesAndTakes(c, P.Apply(s, P.Write(f)), d, run, fs, rs)
    ensures WritesAndTakes(c, s, d, [P.Write(f)] + run, [f] + fs, rs)
  {
    var all := [P.Write(f)] + run;
    assert all[0] == P.Write(f) && all[1..] == run;
    EmptyFront(Taken(c, P.Apply(s, P.Write(f)), d, run));
  }

  lemma {:induction false} NothingToWrite(c: Commands, s: P.LinkState, d: Firm, rest: seq<P.Action>, all: seq<Report>)
    requires s.inQ == [] && Queued(s.outQ) == all && rest == Answers(c, d, all) + Takes(|Serve(c, d, all).1|)
    ensures WritesAndTakes(c, s, d, rest, [], Serve(c, d, all).1)
  {
    AnswersAreFaithful(c, s, d, all, |Serve(c, d, all).1|);
    EmptyFront(Serve(c, d, all).1);
  }

  lemma {:induction false} WritesAreFaithful(c: Commands, s: P.LinkState, d: Firm, fs: seq<Report>,
                                             rest: seq<P.Action>, all: seq<Report>)
    requires s.inQ == [] && Queued(s.outQ) + fs == all
    requires rest == Answers(c, d, all) + Takes(|Serve(c, d, all).1|)
    ensures WritesAndTakes(c, s, d, Writes(fs) + rest, fs, Serve(c, d, all).1)
    decreases fs
  {
    if fs == [] {
      EmptyBack(Queued(s.outQ));
      NothingToWrite(c, s, d, rest, all);
      assert Writes(fs) + rest == rest;
    } else {
      var next := P.Apply(s, P.Write(fs[0]));
      assert Queued(next.outQ) + fs[1..] == all by {
        assert Queued(next.outQ) == Queued(s.outQ) + [fs[0]];
        Regroup(Queued(s.outQ), [fs[0]], fs[1..]);
        assert [fs[0]] + fs[1..] == fs;
      }
      WritesAreFaithful(c, next, d, fs[1..], rest, all);
      WriteInFront(c, s, d, fs[0], Writes(fs[1..]) + rest, fs[1..], Serve(c, d, all).1);
      assert Writes(fs) + rest == [P.Write(fs[0])] + (Writes(fs[1..]) + rest) && [fs[0]] + fs[1..] == fs;
    }
  }

  lemma {:induction false} HeardIsReported(fs: seq<Report>)
    ensures Waits(Heard(fs)) && Reported(Heard(fs)) == fs
    decreases fs
  {
    if fs != [] {
      HeardIsReported(fs[1..]);
      assert Heard(fs) == [Got(fs[0])] + Heard(fs[1..]);
    }
  }

  function PromptSchedule(c: Commands): Schedule {
    (l: Live, apdu: Bytes) => (Prompt(c, l.d, Plain(FramesOf(CHANNEL, apdu))), Heard(Reply(c, l.d, apdu)), Deadline)
  }

  /** There is such a schedule: everything is written, answered and taken in turn. */
  lemma {:induction false} PromptIsComplete(c: Commands)
    ensures Complete(c, PromptSchedule(c))
  {
    forall l: Live, apdu: Bytes | Empty(l) && l.d.rx.expected == 0 && FramedApdu(apdu)
      ensures HearsAll(c, l, apdu, PromptSchedule(c)(l, apdu).0, PromptSchedule(c)(l, apdu).1)
    {
      PromptHearsAll(c, l, apdu);
    }
  }

  lemma {:induction false} PromptHearsAll(c: Commands, l: Live, apdu: Bytes)
    requires Empty(l) && l.d.rx.expected == 0 && FramedApdu(apdu)
    ensures HearsAll(c, l, apdu, Prompt(c, l.d, Plain(FramesOf(CHANNEL, apdu))), Heard(Reply(c, l.d, apdu)))
  {
    FramesAreReports(CHANNEL, apdu);
    PlainIs(FramesOf(CHANNEL, apdu));
    var own := Plain(FramesOf(CHANNEL, apdu));
    EmptyFront(own);
    assert Queued(l.s.outQ) == [];
    WritesAreFaithful(c, l.s, l.d, own, Answers(c, l.d, own) + Takes(|Serve(c, l.d, own).1|), own);
    assert Serve(c, l.d, own).1 == Reply(c, l.d, apdu) by {
      assert own[..|own|] == own;
      ServeRequest(c, l.d, apdu, own, |own|);
    }
    HeardIsReported(Reply(c, l.d, apdu));
  }
}
