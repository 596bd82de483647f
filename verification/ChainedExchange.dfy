/**
 One request over the link: the host's `drain` and `send_chained` (macos-demo/pq1-demo.c) against
 any peer, and against the firmware's APDU router (nonsecure/src/usb/commands.rs with the chain
 state machine of shared/src/apdu_framing.rs).

 `OnlyWholeRequests` is what the host guarantees against any peer at all. `EndToEnd` is the whole
 path: the firmware executes exactly the payload, once, and the host holds exactly its answer.
 */
module ChainedExchange {
  import opened Bytes
  import opened Buffers
  import opened HidFraming
  import opened HidReassembly

  const CLA: Byte := 0xF0
  const INS_GET_RESPONSE: Byte := 0xC0
  const P1_MORE: Byte := 0x80
  const P1_LAST: Byte := 0x00
  const SW_OK: nat := 0x9000
  const SW_MORE_DATA: Byte := 0x61
  const BLOCK: nat := 255
  const DRAIN_ROUNDS: nat := 200

  /** `exchange` as its caller sees it: the far side's next state, and the reply or the failure. */
  type Peer<!S> = (S, Bytes) -> (S, ReadResult)

  /** `read_reply` never returns more than an APDU's worth of data. */
  ghost predicate RepliesFit<S(!new)>(peer: Peer<S>) {
    forall s: S, a: Bytes :: peer(s, a).1.Replied? ==> |peer(s, a).1.data| <= MAX_APDU
  }

  function Apdu(ins: Byte, p1: Byte, data: Bytes): Bytes
    requires |data| <= BLOCK
  {
    [CLA, ins, p1, 0, |data|] + data
  }

  const GET_RESPONSE: Bytes := [CLA, INS_GET_RESPONSE, 0, 0, 0]

  // ---------------------------------------------------------------- the host

  /** SW 61xx: the reply goes on. */
  predicate MoreData(sw: nat) {
    sw / 256 == SW_MORE_DATA as int
  }

  /** `drain` of a reply already read. */
  function Drain<S>(peer: Peer<S>, s: S, sw: nat, data: Bytes, rounds: nat): (S, ReadResult)
    requires rounds <= DRAIN_ROUNDS
    decreases DRAIN_ROUNDS - rounds
  {
    if !MoreData(sw) then (s, Replied(sw, data))
    else if rounds + 1 > DRAIN_ROUNDS then (s, Failed(IoProto))
    else
      var (s', reply) := peer(s, GET_RESPONSE);
      match reply
      case Failed(_) => (s', reply)
      case Replied(sw', next) =>
        if |data| + |next| > CAP then (s', Failed(IoProto))
        else Drain(peer, s', sw', data + next, rounds + 1)
  }

  /** `exchange` followed by `drain`. */
  function Exchange<S>(peer: Peer<S>, s: S, apdu: Bytes): (S, ReadResult) {
    var (s', reply) := peer(s, apdu);
    match reply
    case Failed(_) => (s', reply)
    case Replied(sw, data) => Drain(peer, s', sw, data, 0)
  }

  function BlockAt(ins: Byte, p: Bytes, off: nat): Bytes
    requires off <= |p|
  {
    var n := Min(|p| - off, BLOCK);
    Apdu(ins, if off + n == |p| then P1_LAST else P1_MORE, p[off..off + n])
  }

  /** `send_chained` from offset `off` on. */
  function Send<S>(peer: Peer<S>, s: S, ins: Byte, p: Bytes, off: nat): (S, ReadResult)
    requires off <= |p|
    decreases |p| - off
  {
    var (s', r) := Exchange(peer, s, BlockAt(ins, p, off));
    if |p| - off <= BLOCK || r.Failed? || r.sw != SW_OK then (s', r)
    else Send(peer, s', ins, p, off + BLOCK)
  }

  /** The blocks of a request, in order. */
  function Blocks(ins: Byte, p: Bytes, off: nat): (bs: seq<Bytes>)
    requires off <= |p|
    ensures bs != []
    decreases |p| - off
  {
    [BlockAt(ins, p, off)] + if |p| - off <= BLOCK then [] else Blocks(ins, p, off + BLOCK)
  }

  /** `drain` over the reply buffer; `error` is None when the whole reply is in `d`. */
  method DrainReply<S(!new)>(peer: Peer<S>, s0: S, sw0: nat, d: Buf) returns (s: S, error: Option<IoErr>, sw: nat)
    requires d.Valid() && RepliesFit(peer)
    modifies d, d.b
    ensures d.Valid() && d.b == old(d.b)
    ensures Drain(peer, s0, sw0, old(d.Contents), 0) ==
            (s, if error.Some? then Failed(error.value) else Replied(sw, d.Contents))
  {
    s, sw, error := s0, sw0, None;
    var rounds := 0;
    while MoreData(sw)
      invariant d.Valid() && d.b == old(d.b) && rounds <= DRAIN_ROUNDS
      invariant Drain(peer, s0, sw0, old(d.Contents), 0) == Drain(peer, s, sw, d.Contents, rounds)
      decreases DRAIN_ROUNDS - rounds
    {
      if rounds + 1 > DRAIN_ROUNDS {
        return s, Some(IoProto), sw;
      }
      var (s', next) := peer(s, GET_RESPONSE);
      s := s';
      if next.Failed? {
        return s, Some(next.error), sw;
      }
      if |next.data| > CAP - d.n {
        return s, Some(IoProto), sw;
      }
      d.Put(next.data);
      rounds, sw := rounds + 1, next.sw;
    }
  }

  /** `exchange` into the reply buffer, drained. */
  method ExchangeAndDrain<S(!new)>(peer: Peer<S>, s0: S, apdu: Bytes, d: Buf)
    returns (s: S, error: Option<IoErr>, sw: nat)
    requires d.Valid() && RepliesFit(peer)
    modifies d, d.b
    ensures d.Valid() && d.b == old(d.b)
    ensures Exchange(peer, s0, apdu) ==
            (s, if error.Some? then Failed(error.value) else Replied(sw, d.Contents))
  {
    var (s', first) := peer(s0, apdu);
    if first.Failed? {
      return s', Some(first.error), 0;
    }
    d.Reset();
    d.Put(first.data);
    assert d.Contents == first.data;
    s, error, sw := DrainReply(peer, s', first.sw, d);
  }

  /** `send_chained`: the loop over the payload. */
  method SendChained<S(!new)>(peer: Peer<S>, s0: S, ins: Byte, p: Bytes, d: Buf)
    returns (s: S, error: Option<IoErr>, sw: nat)
    requires d.Valid() && RepliesFit(peer)
    modifies d, d.b
    ensures d.Valid() && d.b == old(d.b)
    ensures Send(peer, s0, ins, p, 0) ==
            (s, if error.Some? then Failed(error.value) else Replied(sw, d.Contents))
  {
    var off: nat := 0;
    s := s0;
    while true
      invariant d.Valid() && d.b == old(d.b) && off <= |p|
      invariant Send(peer, s0, ins, p, 0) == Send(peer, s, ins, p, off)
      decreases |p| - off
    {
      var n := if |p| - off < BLOCK then |p| - off else BLOCK;
      var last := off + n == |p|;
      var apdu := Apdu(ins, if last then P1_LAST else P1_MORE, p[off..off + n]);
      s, error, sw := ExchangeAndDrain(peer, s, apdu, d);
      if last || error.Some? || sw != SW_OK {
        return;
      }
      off := off + n;
    }
  }

  // ---------------------------------------------------------------- what any peer sees

  datatype Sent = Sent(apdu: Bytes, reply: ReadResult)

  /** A peer that also keeps the record of what passed. */
  function Recorded<S>(peer: Peer<S>): Peer<(S, seq<Sent>)> {
    (s: (S, seq<Sent>), a: Bytes) =>
      var (s', r) := peer(s.0, a);
      ((s', s.1 + [Sent(a, r)]), r)
  }

  predicate IsBlock(e: Sent) {
    e.apdu != GET_RESPONSE
  }

  /** The request blocks among what was sent. */
  function BlocksIn(log: seq<Sent>): seq<Bytes> {
    if log == [] then []
    else BlocksIn(log[..|log| - 1]) + if IsBlock(log[|log| - 1]) then [log[|log| - 1].apdu] else []
  }

  /** Every block but the first went out on a drained 0x9000. */
  ghost predicate EachBlockAfterOk(log: seq<Sent>, from: nat) {
    forall i :: from < i < |log| && IsBlock(log[i]) ==>
      log[i - 1].reply.Replied? && log[i - 1].reply.sw == SW_OK
  }

  /** What a drain adds to the record: GET_RESPONSE only, and it ends on the reply it reports. */
  ghost predicate DrainAdds(log: seq<Sent>, log': seq<Sent>, r: ReadResult) {
    && 0 < |log| <= |log'| <= |log| + DRAIN_ROUNDS && log <= log'
    && (forall i :: |log| <= i < |log'| ==> !IsBlock(log'[i]))
    && BlocksIn(log') == BlocksIn(log)
    && (r.Replied? ==> log'[|log'| - 1].reply.Replied? && log'[|log'| - 1].reply.sw == r.sw)
  }

  lemma {:induction false} DrainSends<S>(peer: Peer<S>, s: S, log: seq<Sent>, sw: nat, data: Bytes, rounds: nat)
    requires rounds <= DRAIN_ROUNDS && log != []
    requires log[|log| - 1].reply.Replied? && log[|log| - 1].reply.sw == sw
    ensures var out := Drain(Recorded(peer), (s, log), sw, data, rounds);
            && DrainAdds(log, out.0.1, out.1)
            && |out.0.1| <= |log| + (DRAIN_ROUNDS - rounds)
            && (out.1.Replied? && |data| <= CAP ==> |out.1.data| <= CAP)
    decreases DRAIN_ROUNDS - rounds
  {
    if MoreData(sw) && rounds < DRAIN_ROUNDS {
      var (s', reply) := peer(s, GET_RESPONSE);
      var next := log + [Sent(GET_RESPONSE, reply)];
      assert Recorded(peer)((s, log), GET_RESPONSE) == ((s', next), reply);
      if reply.Replied? && |data| + |reply.data| <= CAP {
        DrainSends(peer, s', next, reply.sw, data + reply.data, rounds + 1);
      }
    }
  }

  predicate NoBlocks(log: seq<Sent>, i: nat, j: nat)
    requires i <= j <= |log|
  {
    forall k :: i <= k < j ==> !IsBlock(log[k])
  }

  /** From `from` on at most 200 GET_RESPONSEs go out in a row. */
  ghost predicate ShortRuns(log: seq<Sent>, from: nat) {
    forall i: nat, j: nat :: from <= i <= j <= |log| && NoBlocks(log, i, j) ==> j - i <= DRAIN_ROUNDS
  }

  /** What one block adds: itself, then its drain. */
  ghost predicate ExchangeAdds(log: seq<Sent>, log': seq<Sent>, block: Bytes, r: ReadResult) {
    && |log| < |log'| <= |log| + DRAIN_ROUNDS + 1 && log <= log'
    && log'[|log|].apdu == block
    && (forall i :: |log| < i < |log'| ==> !IsBlock(log'[i]))
    && BlocksIn(log') == BlocksIn(log) + [block]
    && (r.Replied? ==> log'[|log'| - 1].reply.Replied? && log'[|log'| - 1].reply.sw == r.sw)
  }

  lemma ExchangeSends<S>(peer: Peer<S>, s: S, log: seq<Sent>, block: Bytes)
    requires block != GET_RESPONSE
    ensures var out := Exchange(Recorded(peer), (s, log), block);
            ExchangeAdds(log, out.0.1, block, out.1)
  {
    var (s', reply) := peer(s, block);
    var next := log + [Sent(block, reply)];
    assert Recorded(peer)((s, log), block) == ((s', next), reply);
    assert next[..|next| - 1] == log;
    if reply.Replied? {
      DrainSends(peer, s', next, reply.sw, reply.data, 0);
      var log' := Drain(Recorded(peer), (s', next), reply.sw, reply.data, 0).0.1;
      assert log'[|log|] == next[|log|];
    }
  }

  /** What a request of blocks `bs` adds to the record when the last ones, `unsent`, stay behind. */
  ghost predicate RequestAdds(bs: seq<Bytes>, log: seq<Sent>, log': seq<Sent>, r: ReadResult, unsent: seq<Bytes>) {
    && BlocksIn(log') + unsent == BlocksIn(log) + bs && |unsent| < |bs|
    && (unsent != [] ==> r.Failed? || r.sw != SW_OK)
    && |log| < |log'| && log <= log' && IsBlock(log'[|log|]) && ShortRuns(log', |log|)
    && EachBlockAfterOk(log', |log|)
  }

  /**
   Against any peer: the host sends a prefix of the request's blocks, at least one, each but the
   first on a drained 0x9000; only a failure or another status word stops it before the last, and
   at most 200 GET_RESPONSEs follow each block.
   */
  lemma {:induction false} OnlyWholeRequests<S>(peer: Peer<S>, s: S, log: seq<Sent>, ins: Byte, p: Bytes, off: nat)
    returns (unsent: seq<Bytes>)
    requires ins != INS_GET_RESPONSE && off <= |p|
    ensures var out := Send(Recorded(peer), (s, log), ins, p, off);
            RequestAdds(Blocks(ins, p, off), log, out.0.1, out.1, unsent)
    decreases |p| - off
  {
    var block := BlockAt(ins, p, off);
    var first := Exchange(Recorded(peer), (s, log), block);
    assert block[1] == ins;
    ExchangeSends(peer, s, log, block);
    unsent := if |p| - off <= BLOCK then [] else Blocks(ins, p, off + BLOCK);
    if unsent == [] || first.1.Failed? || first.1.sw != SW_OK {
      FirstBlockAdds(log, first.0.1, first.1, block, unsent);
    } else {
      var rest, out := unsent, Send(Recorded(peer), first.0, ins, p, off + BLOCK);
      unsent := OnlyWholeRequests(peer, first.0.0, first.0.1, ins, p, off + BLOCK);
      MoreBlocksAdd(log, first.0.1, first.1, block, rest, out.0.1, out.1, unsent);
    }
  }

  lemma FirstBlockAdds(log: seq<Sent>, log': seq<Sent>, r: ReadResult, block: Bytes, unsent: seq<Bytes>)
    requires ExchangeAdds(log, log', block, r) && block != GET_RESPONSE
    requires unsent != [] ==> r.Failed? || r.sw != SW_OK
    ensures RequestAdds([block] + unsent, log, log', r, unsent)
  {
    OneShortRun(log, log');
    BlocksCompose(BlocksIn(log), block, unsent);
  }

  lemma MoreBlocksAdd(log: seq<Sent>, mid: seq<Sent>, r: ReadResult, block: Bytes,
                      rest: seq<Bytes>, log': seq<Sent>, r': ReadResult, unsent: seq<Bytes>)
    requires ExchangeAdds(log, mid, block, r) && block != GET_RESPONSE && r.Replied? && r.sw == SW_OK
    requires RequestAdds(rest, mid, log', r', unsent)
    ensures RequestAdds([block] + rest, log, log', r', unsent)
  {
    OneShortRun(log, mid);
    RunsCompose(log, mid, log');
    assert log'[|log|] == mid[|log|];
    BlocksCompose(BlocksIn(log), block, rest);
    RuleComposes(log, mid, log');
  }

  /** A block and its drain. */
  lemma OneShortRun(log: seq<Sent>, log': seq<Sent>)
    requires |log| < |log'| <= |log| + DRAIN_ROUNDS + 1 && IsBlock(log'[|log|])
    ensures ShortRuns(log', |log|)
  {
  }

  /** A run of GET_RESPONSEs does not reach across a block. */
  lemma RunsCompose(log: seq<Sent>, mid: seq<Sent>, log': seq<Sent>)
    requires |log| < |mid| < |log'| && mid <= log' && ShortRuns(mid, |log|)
    requires ShortRuns(log', |mid|) && IsBlock(log'[|mid|])
    ensures ShortRuns(log', |log|)
  {
    forall i: nat, j: nat | |log| <= i <= j <= |log'| && NoBlocks(log', i, j)
      ensures j - i <= DRAIN_ROUNDS
    {
      if j <= |mid| {
        assert forall k :: i <= k < j ==> mid[k] == log'[k];
        assert NoBlocks(mid, i, j);
      } else if i < |mid| {
        assert false;
      }
    }
  }

  lemma BlocksCompose(sent: seq<Bytes>, block: Bytes, rest: seq<Bytes>)
    ensures (sent + [block]) + rest == sent + ([block] + rest)
  {
  }

  lemma RuleComposes(log: seq<Sent>, mid: seq<Sent>, log': seq<Sent>)
    requires |log| < |mid| && mid <= log' && EachBlockAfterOk(log', |mid|)
    requires forall i :: |log| < i < |mid| ==> !IsBlock(mid[i])
    requires mid[|mid| - 1].reply.Replied? && mid[|mid| - 1].reply.sw == SW_OK
    ensures EachBlockAfterOk(log', |log|)
  {
    forall i | |log| < i < |log'| && IsBlock(log'[i])
      ensures log'[i - 1].reply.Replied? && log'[i - 1].reply.sw == SW_OK
    {
      assert i >= |mid|;
      assert log'[|mid| - 1] == mid[|mid| - 1];
    }
  }

  function Payload(bs: seq<Bytes>): Bytes {
    if bs == [] then [] else (if |bs[0]| >= 5 then bs[0][5..] else []) + Payload(bs[1..])
  }

  /** The blocks carry the request's bytes ... */
  lemma {:induction false} BlocksCarryThePayload(ins: Byte, p: Bytes, off: nat)
    requires off <= |p|
    ensures Payload(Blocks(ins, p, off)) == p[off..]
    decreases |p| - off
  {
    var n := Min(|p| - off, BLOCK);
    assert BlockAt(ins, p, off)[5..] == p[off..off + n];
    if |p| - off > BLOCK {
      BlocksCarryThePayload(ins, p, off + BLOCK);
      assert p[off..] == p[off..off + BLOCK] + p[off + BLOCK..];
    } else {
      assert p[off..] + [] == p[off..];
    }
  }

  /** ... and only the last of them is marked last. */
  lemma {:induction false} OnlyTheLastIsMarked(ins: Byte, p: Bytes, off: nat, i: nat)
    requires off <= |p| && i < |Blocks(ins, p, off)|
    ensures var bs := Blocks(ins, p, off);
            5 <= |bs[i]| <= 260 && bs[i][4] == |bs[i]| - 5 && bs[i][0] == 0xF0 && bs[i][1] == ins && bs[i][3] == 0
            && (if i == |bs| - 1 then bs[i][2] == 0x00 else bs[i][2] == 0x80 && |bs[i]| == 260)
    decreases |p| - off
  {
    if i > 0 {
      OnlyTheLastIsMarked(ins, p, off + BLOCK, i - 1);
    }
  }

  /** A far side that never comes to an end, and how often it was asked to go on. */
  function Endless(): Peer<nat> {
    (asked: nat, apdu: Bytes) =>
      if apdu == [0xF0, 0xC0, 0x00, 0x00, 0x00] then (asked + 1, Replied(0x6100, [])) else (asked, Failed(IoGone))
  }

  /** It is asked 200 times before the drain is given up. */
  lemma {:induction false} DrainGivesUp(rounds: nat)
    requires rounds <= 200
    ensures Drain(Endless(), rounds, 0x6100, [], rounds) == (200, Failed(IoProto))
    decreases 200 - rounds
  {
    if rounds < 200 {
      DrainGivesUp(rounds + 1);
    }
  }

  // ---------------------------------------------------------------- the firmware

  const SW_CONDITIONS_NOT_SATISFIED: nat := 0x6985
  const SW_WRONG_LENGTH: nat := 0x6700
  const SW_INS_NOT_SUPPORTED: nat := 0x6D00
  const SW_CLA_NOT_SUPPORTED: nat := 0x6E00
  const APDU_MAX_RESP: nat := 253

  /** What executing a command yields: a bare status word, or data for the chunker. */
  datatype Answer = Status(sw: nat) | Data(d: Bytes)

  /**
   The part of the firmware the router calls into: the instructions executed from one APDU, the
   chained ones with their bounds, and what either answers, which may depend on everything executed
   before.
   */
  datatype Commands = Commands(
    direct: set<Byte>,
    chained: set<Byte>,
    bound: Byte -> nat,
    execute: (seq<(Byte, Bytes)>, Byte, Bytes) -> Answer)

  /** The router's state: an open chain (`ins` 0 is none), a reply being drained, and what was executed. */
  datatype Device = Device(ins: Byte, chain: Bytes, pending: Option<Bytes>, executed: seq<(Byte, Bytes)>)

  function StatusBytes(sw: nat): Bytes {
    [Hi(sw), Lo(sw)]
  }

  lemma FinishStatus(sw: nat)
    requires sw < 0x10000
    ensures Finish(StatusBytes(sw)) == Replied(sw, [])
  {
  }

  lemma NotMoreData()
    ensures !MoreData(SW_OK) && !MoreData(SW_WRONG_LENGTH)
  {
  }

  /** At most APDU_MAX_RESP bytes and their status word; the rest stays pending. */
  function Chunk(d: Bytes): (Bytes, Option<Bytes>) {
    if |d| <= APDU_MAX_RESP then (d + StatusBytes(SW_OK), None)
    else
      var left := |d| - APDU_MAX_RESP;
      (d[..APDU_MAX_RESP] + [SW_MORE_DATA, if left > 255 then 0xFF else left], Some(d[APDU_MAX_RESP..]))
  }

  /** The response to an answer, and what stays pending. */
  function Respond(a: Answer): (r: (Bytes, Option<Bytes>))
    ensures 2 <= |r.0| <= APDU_MAX_RESP + 2
  {
    match a
    case Status(sw) => (StatusBytes(sw), None)
    case Data(d) => Chunk(d)
  }

  /** `execute_chain` and the response it leaves. */
  function Execute(c: Commands, dev: Device, ins: Byte, payload: Bytes): (Device, Bytes) {
    var (resp, pending) := Respond(c.execute(dev.executed, ins, payload));
    (Device(0, [], pending, dev.executed + [(ins, payload)]), resp)
  }

  /** An instruction that is executed from its one APDU; an open chain stays open. */
  function ExecuteDirect(c: Commands, dev: Device, ins: Byte, data: Bytes): (Device, Bytes) {
    var (resp, pending) := Respond(c.execute(dev.executed, ins, data));
    (dev.(pending := pending, executed := dev.executed + [(ins, data)]), resp)
  }

  /** `ChainState::step` and what the router does with its outcome. */
  function ChainStep(c: Commands, dev: Device, ins: Byte, p1: Byte, data: Bytes): (Device, Bytes) {
    var idle := dev.(ins := 0, chain := []);
    if dev.ins != 0 && ins != dev.ins then (idle, StatusBytes(SW_CONDITIONS_NOT_SATISFIED))
    else
      var chain := (if dev.ins == 0 then [] else dev.chain) + data;
      if |chain| > c.bound(ins) then (idle, StatusBytes(SW_WRONG_LENGTH))
      else if p1 >= 0x80 then (dev.(ins := ins, chain := chain), StatusBytes(SW_OK))
      else Execute(c, dev, ins, chain)
  }

  function GetResponse(dev: Device): (Device, Bytes) {
    if dev.pending == None || dev.pending.value == [] then (dev, StatusBytes(SW_CONDITIONS_NOT_SATISFIED))
    else
      var (resp, pending) := Chunk(dev.pending.value);
      (dev.(pending := pending), resp)
  }

  /** `dispatch_inner`. */
  function Dispatch(c: Commands, dev: Device, apdu: Bytes): (Device, Bytes) {
    if |apdu| < 4 then (dev, StatusBytes(SW_WRONG_LENGTH))
    else
      var lc: nat := if |apdu| > 4 then apdu[4] else 0;
      if |apdu| > 4 && 5 + lc > |apdu| then (dev, StatusBytes(SW_WRONG_LENGTH))
      else
        var data := if |apdu| > 4 then apdu[5..5 + lc] else [];
        var ins := apdu[1];
        if ins == INS_GET_RESPONSE then GetResponse(dev)
        else
          var dev' := dev.(pending := None);
          if apdu[0] != CLA then (dev', StatusBytes(SW_CLA_NOT_SUPPORTED))
          else if ins in c.direct then ExecuteDirect(c, dev', ins, data)
          else if ins !in c.chained then (dev', StatusBytes(SW_INS_NOT_SUPPORTED))
          else ChainStep(c, dev', ins, apdu[2], data)
  }

  /** The firmware as the host's peer, one APDU each way. */
  function Firmware(c: Commands): Peer<Device> {
    (dev: Device, apdu: Bytes) => var (dev', resp) := Dispatch(c, dev, apdu); (dev', Finish(resp))
  }

  /**
   Why an APDU each way is enough: a request cut into frames reaches the idle assembler as itself,
   and the response the firmware frames reaches the host as itself, past PINGs, idle turns, foreign
   tags and stale tails.
   */
  lemma FramesCarryTheExchange(rx: Rx, apdu: Bytes, request: seq<Frame>, arriving: seq<Report>,
                               resp: Bytes, reply: seq<Frame>, evs: seq<Event>, rest: seq<Event>)
    requires rx.expected == 0 && rx.buf == [] && 1 <= |apdu| <= 5 + BLOCK
    requires request == FramesOf(CHANNEL, apdu) && Delivers(CHANNEL, false, arriving, request)
    requires 2 <= |resp| <= APDU_MAX_RESP + 2
    requires reply == Transmit(QueueResponse(CHANNEL, resp)) && Carries(evs, reply, 0)
    ensures Assemble(rx, arriving) == (Rx(CHANNEL, 0, 0, []), [apdu])
    ensures Read(evs + rest, START) == (Finish(resp), rest)
  {
    AssemblesTheMessage(rx, CHANNEL, apdu, request, arriving);
    ReplyArrives(CHANNEL, resp, reply, evs, rest);
  }

  lemma ReplyArrives(channel: nat, resp: Bytes, reply: seq<Frame>, evs: seq<Event>, rest: seq<Event>)
    requires channel < 0x10000 && 2 <= |resp| <= APDU_MAX_RESP + 2
    requires reply == Transmit(QueueResponse(channel, resp)) && Carries(evs, reply, 0)
    ensures Read(evs + rest, START) == (Finish(resp), rest)
  {
    TransmitIsFramesOf(channel, resp);
    assert resp[..|resp|] == resp;
    ReadsTheMessage(channel, resp, reply, evs, rest);
  }

  // ---------------------------------------------------------------- end to end

  lemma FinishChunk(d: Bytes)
    ensures var (resp, pending) := Chunk(d);
            Finish(resp) == if pending == None then Replied(SW_OK, d)
                            else Replied(0x6100 + Min(|pending.value|, 255), d[..APDU_MAX_RESP])
    ensures Chunk(d).1.Some? <==> |d| > 253
    ensures Chunk(d).1.Some? ==> Chunk(d).1.value != [] && d == d[..APDU_MAX_RESP] + Chunk(d).1.value
    ensures MoreData(Finish(Chunk(d).0).sw) == Chunk(d).1.Some?
  {
  }

  /** Draining a pending reply yields all of it, unless it outgrows the host's buffer. */
  lemma {:induction false} DrainsAll(c: Commands, dev: Device, q: Bytes, sw: nat, acc: Bytes, rounds: nat)
    requires dev.pending == Some(q) && q != [] && MoreData(sw)
    requires |acc| <= CAP && APDU_MAX_RESP * rounds <= |acc|
    ensures var out := Drain(Firmware(c), dev, sw, acc, rounds);
            && (|acc| + |q| <= CAP ==> out == (dev.(pending := None), Replied(SW_OK, acc + q)))
            && (|acc| + |q| > CAP ==> out.1 == Failed(IoProto))
            && out.0.executed == dev.executed && out.0.ins == dev.ins && out.0.chain == dev.chain
    decreases |q|
  {
    FinishChunk(q);
    var (resp, pending) := Chunk(q);
    var dev' := dev.(pending := pending);
    assert Firmware(c)(dev, GET_RESPONSE) == (dev', Finish(resp));
    if pending != None && |acc| + APDU_MAX_RESP <= CAP {
      DrainsAll(c, dev', pending.value, Finish(resp).sw, acc + q[..APDU_MAX_RESP], rounds + 1);
      assert acc + q[..APDU_MAX_RESP] + pending.value == acc + q;
    }
  }

  /** What the host ends up with when the firmware executes a command. */
  function Outcome(a: Answer): ReadResult {
    match a
    case Status(sw) => Replied(sw, [])
    case Data(d) => if |d| <= 16384 then Replied(0x9000, d) else Failed(IoProto)
  }

  /** A bare status word is never the "more data" the chunker speaks. */
  predicate AnswersDrained(a: Answer) {
    a.Status? ==> a.sw < 0x10000 && !MoreData(a.sw)
  }

  lemma ExecutedAndDrained(c: Commands, dev: Device, ins: Byte, p: Bytes)
    requires AnswersDrained(c.execute(dev.executed, ins, p))
    ensures var (dev', resp) := Execute(c, dev, ins, p);
            var first := Finish(resp);
            var out := Drain(Firmware(c), dev', first.sw, first.data, 0);
            && first.Replied? && out.1 == Outcome(c.execute(dev.executed, ins, p))
            && out.0.executed == dev.executed + [(ins, p)] && out.0.ins == 0
            && (out.1.Replied? ==> out.0.pending == None)
  {
    var a := c.execute(dev.executed, ins, p);
    NotMoreData();
    if a.Status? {
      FinishStatus(a.sw);
    } else {
      FinishChunk(a.d);
      if |a.d| > APDU_MAX_RESP {
        var (dev', resp) := Execute(c, dev, ins, p);
        DrainsAll(c, dev', a.d[APDU_MAX_RESP..], Finish(resp).sw, a.d[..APDU_MAX_RESP], 0);
      }
    }
  }

  /**
   An instruction that is answered from its one APDU is executed on the data of that APDU, whatever
   waits to be drained, and leaves an open chain as it is.
   */
  lemma {:induction false} DirectEndToEnd(c: Commands, dev: Device, ins: Byte, data: Bytes)
    requires ins in c.direct && ins != 0xC0 && |data| <= 255
    requires AnswersDrained(c.execute(dev.executed, ins, data))
    ensures var (dev', r) := Exchange(Firmware(c), dev, Apdu(ins, P1_LAST, data));
      && dev'.executed == dev.executed + [(ins, data)] && dev'.ins == dev.ins && dev'.chain == dev.chain
      && r == Outcome(c.execute(dev.executed, ins, data)) && (r.Replied? ==> dev'.pending == None)
  {
    var a, apdu := c.execute(dev.executed, ins, data), Apdu(ins, P1_LAST, data);
    assert apdu[5..5 + |data|] == data;
    var (dev', resp) := Dispatch(c, dev, apdu);
    assert (dev', resp) == ExecuteDirect(c, dev.(pending := None), ins, data);
    NotMoreData();
    if a.Status? {
      FinishStatus(a.sw);
    } else {
      FinishChunk(a.d);
      if |a.d| > APDU_MAX_RESP {
        DrainsAll(c, dev', a.d[APDU_MAX_RESP..], Finish(resp).sw, a.d[..APDU_MAX_RESP], 0);
      }
    }
  }

  /** The header is cut off, or announces more data than there is. */
  predicate Truncated(apdu: Bytes) {
    |apdu| < 4 || (|apdu| > 4 && 5 + apdu[4] as int > |apdu|)
  }

  /**
   What the router refuses, and that nothing is executed then; a reply that waits to be drained is
   dropped by every other instruction, and is no part of what that one is answered.
   */
  lemma {:induction false} RouterRefuses(c: Commands, dev: Device, apdu: Bytes)
    ensures Truncated(apdu) ==> Dispatch(c, dev, apdu) == (dev, [0x67, 0x00])
    ensures !Truncated(apdu) && apdu[1] == 0xC0 ==>
              Dispatch(c, dev, apdu).0 == dev.(pending := Dispatch(c, dev, apdu).0.pending)
              && (dev.pending == None || dev.pending == Some([]) ==> Dispatch(c, dev, apdu) == (dev, [0x69, 0x85]))
    ensures !Truncated(apdu) && apdu[1] != 0xC0 ==>
              && Dispatch(c, dev, apdu) == Dispatch(c, dev.(pending := None), apdu)
              && (apdu[0] != 0xF0 ==> Dispatch(c, dev, apdu) == (dev.(pending := None), [0x6E, 0x00]))
              && (apdu[0] == 0xF0 && apdu[1] !in c.direct + c.chained ==>
                    Dispatch(c, dev, apdu) == (dev.(pending := None), [0x6D, 0x00]))
  {
  }

  /** The router in the middle of a request: `p[..off]` is in the chain buffer. */
  ghost predicate Holds(dev: Device, ins: Byte, p: Bytes, off: nat) {
    off <= |p| && if dev.ins == 0 then off == 0 else dev.ins == ins && dev.chain == p[..off]
  }

  predicate Chained(c: Commands, ins: Byte) {
    ins != 0 && ins != INS_GET_RESPONSE && ins in c.chained && ins !in c.direct
  }

  /** A block reaches the chain state machine as it was cut. */
  lemma BlockReachesTheChain(c: Commands, dev: Device, ins: Byte, p: Bytes, off: nat)
    requires Chained(c, ins) && off <= |p|
    ensures var n := Min(|p| - off, BLOCK);
            Dispatch(c, dev, BlockAt(ins, p, off)) ==
            ChainStep(c, dev.(pending := None), ins, if off + n == |p| then P1_LAST else P1_MORE, p[off..off + n])
  {
    var n := Min(|p| - off, BLOCK);
    assert BlockAt(ins, p, off)[5..5 + n] == p[off..off + n];
  }

  /** A block answered by a bare status word is not drained. */
  lemma AnsweredByStatus(c: Commands, dev: Device, apdu: Bytes, dev': Device, sw: nat)
    requires Dispatch(c, dev, apdu) == (dev', StatusBytes(sw))
    requires sw < 0x10000 && !MoreData(sw)
    ensures Exchange(Firmware(c), dev, apdu) == (dev', Replied(sw, []))
  {
    FinishStatus(sw);
  }

  /** A block before the end: appended, or refused beyond the bound. */
  lemma BlockAppended(c: Commands, dev: Device, ins: Byte, p: Bytes, off: nat)
    requires Chained(c, ins) && Holds(dev, ins, p, off) && |p| - off > BLOCK
    ensures Exchange(Firmware(c), dev, BlockAt(ins, p, off)) ==
            if off + BLOCK > c.bound(ins) then (Device(0, [], None, dev.executed), Replied(SW_WRONG_LENGTH, []))
            else (Device(ins, p[..off + BLOCK], None, dev.executed), Replied(SW_OK, []))
  {
    assert (if dev.ins == 0 then [] else dev.chain) + p[off..off + BLOCK] == p[..off + BLOCK];
    BlockReachesTheChain(c, dev, ins, p, off);
    NotMoreData();
    var (dev', resp) := Dispatch(c, dev, BlockAt(ins, p, off));
    AnsweredByStatus(c, dev, BlockAt(ins, p, off), dev',
                     if off + BLOCK > c.bound(ins) then SW_WRONG_LENGTH else SW_OK);
  }

  /** A block answered by executing is drained to the command's answer. */
  lemma AnsweredByExecuting(c: Commands, dev: Device, apdu: Bytes, at: Device, ins: Byte, p: Bytes)
    requires Dispatch(c, dev, apdu) == Execute(c, at, ins, p)
    requires AnswersDrained(c.execute(at.executed, ins, p))
    ensures var out := Exchange(Firmware(c), dev, apdu);
            out.0.ins == 0 && out.0.executed == at.executed + [(ins, p)]
            && out.1 == Outcome(c.execute(at.executed, ins, p))
  {
    ExecutedAndDrained(c, at, ins, p);
  }

  /** The last block: the whole payload is executed, or refused beyond the bound. */
  lemma LastBlockExecuted(c: Commands, dev: Device, ins: Byte, p: Bytes, off: nat)
    requires Chained(c, ins) && Holds(dev, ins, p, off) && |p| - off <= BLOCK
    requires AnswersDrained(c.execute(dev.executed, ins, p))
    ensures var out := Exchange(Firmware(c), dev, BlockAt(ins, p, off));
            if |p| > c.bound(ins) then out == (Device(0, [], None, dev.executed), Replied(SW_WRONG_LENGTH, []))
            else
              out.0.ins == 0 && out.0.executed == dev.executed + [(ins, p)]
              && out.1 == Outcome(c.execute(dev.executed, ins, p))
  {
    var block, at := BlockAt(ins, p, off), dev.(pending := None);
    assert (if dev.ins == 0 then [] else dev.chain) + p[off..|p|] == p;
    BlockReachesTheChain(c, dev, ins, p, off);
    assert Dispatch(c, dev, block) == ChainStep(c, at, ins, P1_LAST, p[off..|p|]);
    if |p| > c.bound(ins) {
      NotMoreData();
      AnsweredByStatus(c, dev, block, Device(0, [], None, dev.executed), SW_WRONG_LENGTH);
    } else {
      assert Dispatch(c, dev, block) == Execute(c, at, ins, p);
      AnsweredByExecuting(c, dev, block, at, ins, p);
    }
  }

  /** One block, and the rest when it was answered with 0x9000. */
  lemma {:induction false} SendStep<S>(peer: Peer<S>, s: S, ins: Byte, p: Bytes, off: nat)
    requires off <= |p|
    ensures var (s', r) := Exchange(peer, s, BlockAt(ins, p, off));
            Send(peer, s, ins, p, off) ==
            if |p| - off <= BLOCK || r.Failed? || r.sw != SW_OK then (s', r) else Send(peer, s', ins, p, off + BLOCK)
  {
  }

  lemma {:induction false} SendExecutes(c: Commands, dev: Device, ins: Byte, p: Bytes, off: nat)
    requires Chained(c, ins) && Holds(dev, ins, p, off)
    requires AnswersDrained(c.execute(dev.executed, ins, p))
    ensures var out := Send(Firmware(c), dev, ins, p, off);
            out.0.ins == 0
            && out.0.executed == dev.executed + (if |p| <= c.bound(ins) then [(ins, p)] else [])
            && out.1 == if |p| <= c.bound(ins) then Outcome(c.execute(dev.executed, ins, p))
                        else Replied(SW_WRONG_LENGTH, [])
    decreases |p| - off
  {
    assert dev.executed + [] == dev.executed;
    SendStep(Firmware(c), dev, ins, p, off);
    if |p| - off <= BLOCK {
      LastBlockExecuted(c, dev, ins, p, off);
    } else {
      BlockAppended(c, dev, ins, p, off);
      if off + BLOCK <= c.bound(ins) {
        SendExecutes(c, Device(ins, p[..off + BLOCK], None, dev.executed), ins, p, off + BLOCK);
      }
    }
  }

  // ---------------------------------------------------------------- whatever state the router is in

  /** A whole payload, sent to the firmware. */
  function Request(c: Commands, dev: Device, ins: Byte, p: Bytes): (Device, ReadResult) {
    Send(Firmware(c), dev, ins, p, 0)
  }

  /** The bytes of an abandoned request that the next one with this instruction finds in the chain. */
  function LeftOver(dev: Device, ins: Byte): Bytes {
    if dev.ins == ins then dev.chain else []
  }

  /** A chain of another instruction is open. */
  predicate OtherChain(dev: Device, ins: Byte) {
    dev.ins != 0 && dev.ins != ins
  }

  /** To the peer the blocks of a payload are those of a longer one from there on. */
  lemma {:induction false} SendFromOffset<S>(peer: Peer<S>, s: S, ins: Byte, q: Bytes, p: Bytes, off: nat)
    requires off <= |p|
    ensures Send(peer, s, ins, q + p, |q| + off) == Send(peer, s, ins, p, off)
    decreases |p| - off
  {
    var n := Min(|p| - off, BLOCK);
    assert (q + p)[|q| + off..|q| + off + n] == p[off..off + n];
    assert BlockAt(ins, q + p, |q| + off) == BlockAt(ins, p, off);
    if |p| - off > BLOCK {
      SendFromOffset(peer, Exchange(peer, s, BlockAt(ins, p, off)).0, ins, q, p, off + BLOCK);
    }
  }

  /** The first block closes a chain of another instruction, and is refused. */
  lemma {:induction false} OtherChainCloses(c: Commands, dev: Device, ins: Byte, p: Bytes)
    requires Chained(c, ins) && OtherChain(dev, ins)
    ensures Request(c, dev, ins, p) == (Device(0, [], None, dev.executed), Replied(SW_CONDITIONS_NOT_SATISFIED, []))
  {
    BlockReachesTheChain(c, dev, ins, p, 0);
    AnsweredByStatus(c, dev, BlockAt(ins, p, 0), Device(0, [], None, dev.executed), SW_CONDITIONS_NOT_SATISFIED);
  }

  /** The payload joins what an abandoned request left of the same instruction. */
  lemma {:induction false} LeftOverJoins(c: Commands, dev: Device, ins: Byte, p: Bytes)
    requires Chained(c, ins) && !OtherChain(dev, ins)
    requires AnswersDrained(c.execute(dev.executed, ins, LeftOver(dev, ins) + p))
    ensures var (dev', r) := Request(c, dev, ins, p);
            var whole := LeftOver(dev, ins) + p;
            && dev'.ins == 0
            && dev'.executed == dev.executed + (if |whole| <= c.bound(ins) then [(ins, whole)] else [])
            && r == if |whole| <= c.bound(ins) then Outcome(c.execute(dev.executed, ins, whole))
                    else Replied(SW_WRONG_LENGTH, [])
  {
    var q := LeftOver(dev, ins);
    SendFromOffset(Firmware(c), dev, ins, q, p, 0);
    assert (q + p)[..|q|] == q;
    SendExecutes(c, dev, ins, q + p, |q|);
  }

  /** What a request comes to, for every state of the router. */
  ghost predicate ComesTo(c: Commands, dev: Device, ins: Byte, p: Bytes, dev': Device, r: ReadResult) {
    var whole := LeftOver(dev, ins) + p;
    && dev'.ins == 0
    && (OtherChain(dev, ins) ==> dev'.executed == dev.executed && r == Replied(0x6985, []))
    && (!OtherChain(dev, ins) && |whole| > c.bound(ins) ==>
          dev'.executed == dev.executed && r == Replied(0x6700, []))
    && (!OtherChain(dev, ins) && |whole| <= c.bound(ins) ==>
          dev'.executed == dev.executed + [(ins, whole)] && r == Outcome(c.execute(dev.executed, ins, whole)))
  }

  /** No bytes of an abandoned request wait in the chain. */
  predicate NothingLeft(dev: Device, ins: Byte) {
    dev.ins == 0 || (dev.ins == ins && dev.chain == [])
  }

  /**
   End to end, for every payload and every state of the router. Within the instruction's bound the
   firmware executes once, on the payload behind whatever an abandoned request with the same
   instruction left in the chain, and the host holds exactly the answer (a status word, or all the
   data when it fits the host's buffer; otherwise an error). Beyond the bound, or with a chain of another
   instruction open, nothing is executed and the host holds the firmware's refusal. No chain is left
   open. So it is exactly the payload that is executed if and only if it is within the bound and
   nothing is left of an abandoned request.
   */
  lemma {:induction false} EndToEnd(c: Commands, dev: Device, ins: Byte, p: Bytes)
    requires Chained(c, ins) && AnswersDrained(c.execute(dev.executed, ins, LeftOver(dev, ins) + p))
    ensures var (dev', r) := Request(c, dev, ins, p);
            && ComesTo(c, dev, ins, p, dev', r)
            && (dev'.executed == dev.executed + [(ins, p)] <==> |p| <= c.bound(ins) && NothingLeft(dev, ins))
  {
    if OtherChain(dev, ins) {
      OtherChainCloses(c, dev, ins, p);
    } else {
      LeftOverJoins(c, dev, ins, p);
    }
    OneMoreExecuted(dev.executed, ins, p, LeftOver(dev, ins) + p);
    assert LeftOver(dev, ins) == [] ==> LeftOver(dev, ins) + p == p;
  }

  lemma OneMoreExecuted(executed: seq<(Byte, Bytes)>, ins: Byte, p: Bytes, whole: Bytes)
    ensures executed + [(ins, p)] == executed + [(ins, whole)] <==> p == whole
    ensures executed + [(ins, p)] != executed
  {
    assert (executed + [(ins, p)])[|executed|] == (ins, p) && (executed + [(ins, whole)])[|executed|] == (ins, whole);
    assert |executed + [(ins, p)]| != |executed|;
  }
}
