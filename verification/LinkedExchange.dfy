/**
 A chained request over the frames themselves: the host cuts each APDU into reports
 (macos-demo/pq1-demo.c), the firmware assembles, dispatches and frames its response
 (nonsecure/src/usb/transport.rs), and the host reads it back. Between the two, the link may slip in
 PINGs, unknown tags, stale tails, other channels' frames and idle turns wherever the receivers pass
 over them.
 */
module LinkedExchange {
  import opened Bytes
  import opened Buffers
  import opened HidFraming
  import opened HidReassembly
  import opened ChainedExchange

  /** What becomes of a request's frames and of a reply's frames on the way, exchange by exchange. */
  datatype Noise = Noise(request: (nat, seq<Frame>) -> seq<Report>, reply: (nat, seq<Frame>) -> seq<Event>)

  /** Frames may be delayed and interspersed, but they arrive, in order and intact. */
  ghost predicate Passable(noise: Noise) {
    && (forall k: nat, fs: seq<Frame> :: AreReports(fs) ==> Delivers(CHANNEL, false, noise.request(k, fs), fs))
    && (forall k: nat, fs: seq<Frame> :: AreReports(fs) ==> Carries(noise.reply(k, fs), fs, 0))
  }

  predicate AreReports(fs: seq<Frame>) {
    forall f :: f in fs ==> |f| == REPORT
  }

  type Assembler = rx: Rx | |rx.buf| <= rx.expected <= MAX_APDU witness Rx(0, 0, 0, [])

  /** Both ends: the router, its assembler, and how many exchanges there were. */
  datatype Linked = Linked(dev: Device, rx: Assembler, exchanges: nat)

  /** Every APDU that was completed is dispatched, and its response framed. */
  function Served(c: Commands, dev: Device, apdus: seq<Bytes>): (Device, seq<Frame>)
    decreases apdus
  {
    if apdus == [] then (dev, []) else
    var (next, resp) := Dispatch(c, dev, apdus[0]);
    var (last, frames) := Served(c, next, apdus[1..]);
    (last, Transmit(QueueResponse(CHANNEL, resp)) + frames)
  }

  /** `exchange` over the link: `write_apdu`, the firmware's turn, `read_reply`. */
  function OverFrames(c: Commands, noise: Noise): Peer<Linked> {
    (s: Linked, apdu: Bytes) =>
      var (rx, apdus) := Assemble(s.rx, noise.request(s.exchanges, FramesOf(CHANNEL, apdu)));
      var (dev, frames) := Served(c, s.dev, apdus);
      (Linked(dev, rx, s.exchanges + 1), Read(noise.reply(s.exchanges, frames), START).0)
  }

  /** No APDU is half assembled. */
  predicate Quiet(s: Linked) {
    s.rx.expected == 0 && s.rx.buf == []
  }

  /** The same to the host and to the router. */
  ghost predicate Alike(linked: (Linked, ReadResult), called: (Device, ReadResult)) {
    Quiet(linked.0) && linked.0.dev == called.0 && linked.1 == called.1
  }

  /** What the firmware's assembler has room for. */
  predicate FramedApdu(apdu: Bytes) {
    1 <= |apdu| <= MAX_APDU
  }

  // ---------------------------------------------------------------- one exchange

  /** Every response fits the transmitter's buffer. */
  lemma ResponseFits(c: Commands, dev: Device, apdu: Bytes)
    ensures 2 <= |Dispatch(c, dev, apdu).1| <= APDU_MAX_RESP + 2
  {
  }

  lemma OneServed(c: Commands, dev: Device, apdu: Bytes)
    ensures var (next, resp) := Dispatch(c, dev, apdu);
            Served(c, dev, [apdu]) == (next, Transmit(QueueResponse(CHANNEL, resp)))
  {
    var (next, resp) := Dispatch(c, dev, apdu);
    assert Served(c, next, []) == (next, []);
    assert Transmit(QueueResponse(CHANNEL, resp)) + [] == Transmit(QueueResponse(CHANNEL, resp));
  }

  lemma {:induction false} ContFramesAreReports(channel: nat, m: Bytes, off: nat, sequence: nat)
    requires off <= |m|
    ensures AreReports(ContFrames(channel, m, off, sequence))
    decreases |m| - off
  {
    if off < |m| {
      ContFramesAreReports(channel, m, off + Min(|m| - off, CONT_DATA), sequence + 1);
    }
  }

  lemma FramesAreReports(channel: nat, m: Bytes)
    ensures AreReports(FramesOf(channel, m))
  {
    ContFramesAreReports(channel, m, Min(|m|, FIRST_DATA), 1);
  }

  lemma CallIsExchange(c: Commands, noise: Noise, s: Linked, apdu: Bytes)
    requires Passable(noise) && Quiet(s) && FramedApdu(apdu)
    ensures Alike(OverFrames(c, noise)(s, apdu), Firmware(c)(s.dev, apdu))
  {
    var request := FramesOf(CHANNEL, apdu);
    FramesAreReports(CHANNEL, apdu);
    AssemblesTheMessage(s.rx, CHANNEL, apdu, request, noise.request(s.exchanges, request));
    OneServed(c, s.dev, apdu);
    var resp := Dispatch(c, s.dev, apdu).1;
    ResponseFits(c, s.dev, apdu);
    var reply := Transmit(QueueResponse(CHANNEL, resp));
    TransmitIsFramesOf(CHANNEL, resp);
    FramesAreReports(CHANNEL, resp[..Min(|resp|, TX_BUF)]);
    var evs := noise.reply(s.exchanges, reply);
    ReplyArrives(CHANNEL, resp, reply, evs, []);
    assert evs + [] == evs;
  }

  lemma {:induction false} PlainLink(fs: seq<Frame>, started: bool, sequence: nat)
    requires AreReports(fs)
    ensures Delivers(CHANNEL, started, Plain(fs), fs) && Carries(Heard(fs), fs, sequence)
    decreases fs
  {
    if fs != [] {
      assert fs[0] in fs;
      PlainLink(fs[1..], true, sequence + 1);
    }
  }

  function Plain(fs: seq<Frame>): (rs: seq<Report>)
    decreases fs
  {
    if fs == [] || |fs[0]| != REPORT then [] else [fs[0]] + Plain(fs[1..])
  }

  function Heard(fs: seq<Frame>): seq<Event>
    decreases fs
  {
    if fs == [] || |fs[0]| != REPORT then [] else [Got(fs[0])] + Heard(fs[1..])
  }

  const PLAIN: Noise := Noise((k, fs) => Plain(fs), (k, fs) => Heard(fs))

  /** A link that adds nothing is one such link. */
  lemma PlainIsPassable()
    ensures Passable(PLAIN)
  {
    forall fs: seq<Frame> | AreReports(fs)
      ensures Delivers(CHANNEL, false, Plain(fs), fs) && Carries(Heard(fs), fs, 0)
    {
      PlainLink(fs, false, 0);
    }
  }

  // ---------------------------------------------------------------- a whole request

  /** Two peers in states alike answer what is sent alike, and stay alike. */
  ghost predicate AnswerAlike<S(!new), T(!new)>(a: Peer<S>, b: Peer<T>, alike: (S, T) -> bool, sent: Bytes -> bool) {
    forall s: S, t: T, apdu: Bytes :: alike(s, t) && sent(apdu) ==>
      alike(a(s, apdu).0, b(t, apdu).0) && a(s, apdu).1 == b(t, apdu).1
  }

  lemma {:induction false} DrainsAlike<S(!new), T(!new)>(a: Peer<S>, b: Peer<T>, alike: (S, T) -> bool,
      sent: Bytes -> bool, s: S, t: T, sw: nat, data: Bytes, rounds: nat)
    requires AnswerAlike(a, b, alike, sent) && alike(s, t) && sent(GET_RESPONSE) && rounds <= DRAIN_ROUNDS
    ensures var (left, right) := (Drain(a, s, sw, data, rounds), Drain(b, t, sw, data, rounds));
            alike(left.0, right.0) && left.1 == right.1
    decreases DRAIN_ROUNDS - rounds
  {
    if MoreData(sw) && rounds < DRAIN_ROUNDS {
      var (s', reply) := a(s, GET_RESPONSE);
      if reply.Replied? && |data| + |reply.data| <= CAP {
        DrainsAlike(a, b, alike, sent, s', b(t, GET_RESPONSE).0, reply.sw, data + reply.data, rounds + 1);
      }
    }
  }

  lemma {:induction false} ExchangesAlike<S(!new), T(!new)>(a: Peer<S>, b: Peer<T>, alike: (S, T) -> bool,
      sent: Bytes -> bool, s: S, t: T, apdu: Bytes)
    requires AnswerAlike(a, b, alike, sent) && alike(s, t) && sent(GET_RESPONSE) && sent(apdu)
    ensures var (left, right) := (Exchange(a, s, apdu), Exchange(b, t, apdu));
            alike(left.0, right.0) && left.1 == right.1
  {
    var (s', reply) := a(s, apdu);
    if reply.Replied? {
      DrainsAlike(a, b, alike, sent, s', b(t, apdu).0, reply.sw, reply.data, 0);
    }
  }

  /** A chained request comes to the same with both. */
  lemma {:induction false} SendsAlike<S(!new), T(!new)>(a: Peer<S>, b: Peer<T>, alike: (S, T) -> bool,
      sent: Bytes -> bool, s: S, t: T, ins: Byte, p: Bytes, off: nat)
    requires AnswerAlike(a, b, alike, sent) && alike(s, t) && sent(GET_RESPONSE) && off <= |p|
    requires forall o: nat :: o <= |p| ==> sent(BlockAt(ins, p, o))
    ensures var (left, right) := (Send(a, s, ins, p, off), Send(b, t, ins, p, off));
            alike(left.0, right.0) && left.1 == right.1
    decreases |p| - off
  {
    var block := BlockAt(ins, p, off);
    ExchangesAlike(a, b, alike, sent, s, t, block);
    var (s', r) := Exchange(a, s, block);
    if |p| - off > BLOCK && r.Replied? && r.sw == SW_OK {
      SendsAlike(a, b, alike, sent, s', Exchange(b, t, block).0, ins, p, off + BLOCK);
    }
  }

  /** `send_chained` of a whole payload over the link. */
  function LinkedRequest(c: Commands, noise: Noise, s: Linked, ins: Byte, p: Bytes): (Linked, ReadResult) {
    Send(OverFrames(c, noise), s, ins, p, 0)
  }

  /** To host and router a request over the link is the request made by calls. */
  lemma {:induction false} LinkedIsCalled(c: Commands, noise: Noise, s: Linked, ins: Byte, p: Bytes)
    requires Passable(noise) && Quiet(s)
    ensures Alike(LinkedRequest(c, noise, s, ins, p), Request(c, s.dev, ins, p))
  {
    var alike := (s: Linked, dev: Device) => Quiet(s) && s.dev == dev;
    var sent := (apdu: Bytes) => FramedApdu(apdu);
    forall s: Linked, dev: Device, apdu: Bytes | alike(s, dev) && sent(apdu)
      ensures alike(OverFrames(c, noise)(s, apdu).0, Firmware(c)(dev, apdu).0)
      ensures OverFrames(c, noise)(s, apdu).1 == Firmware(c)(dev, apdu).1
    {
      CallIsExchange(c, noise, s, apdu);
    }
    SendsAlike(OverFrames(c, noise), Firmware(c), alike, sent, s, s.dev, ins, p, 0);
  }

  /**
   End to end over the frames, whatever the link slips in and whatever chain the router was left with:
   the request comes to what it comes to by calls. It is exactly the payload that is executed, once,
   if and only if it is within the bound and nothing is left of an abandoned request. No chain stays
   open and no APDU half assembled.
   */
  lemma EndToEndOverFrames(c: Commands, noise: Noise, s: Linked, ins: Byte, p: Bytes)
    requires Passable(noise) && Quiet(s) && Chained(c, ins)
    requires AnswersDrained(c.execute(s.dev.executed, ins, LeftOver(s.dev, ins) + p))
    ensures var (s', r) := LinkedRequest(c, noise, s, ins, p);
            && Quiet(s') && ComesTo(c, s.dev, ins, p, s'.dev, r)
            && (s'.dev.executed == s.dev.executed + [(ins, p)] <==>
                |p| <= c.bound(ins) && NothingLeft(s.dev, ins))
  {
    LinkedIsCalled(c, noise, s, ins, p);
    EndToEnd(c, s.dev, ins, p);
  }
}
