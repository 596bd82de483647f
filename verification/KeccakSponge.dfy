/**
 Keccak-256: the sponge of section 4 of FIPS 202 over Keccak-f[1600], with rate 1088 bits, padded
 by 1 0* 1 with no domain bits, which on whole bytes is 0x01 00* 0x80.
 */
module KeccakSponge {
  import opened KeccakSpec
  import opened KeccakMap

  type Octet = bv8

  const RATE: nat := 136

  /**
   An implementation of the lanes: their arithmetic, the round constants, and how a lane is read from
   bytes (`push` appends a low byte) and written to bytes (`byteOf` takes byte j, lowest first).
   */
  datatype Machine<!W> =
    Machine(words: Words<W>, rcs: seq<W>, push: (W, Octet) -> W, byteOf: (W, nat) -> Octet)

  /** The little-endian value of some bytes. */
  function Load<W>(m: Machine<W>, bytes: seq<Octet>): W
    decreases |bytes|
  {
    if bytes == [] then m.words.zero else m.push(Load(m, bytes[1..]), bytes[0])
  }

  /** The eight little-endian bytes of a lane. */
  function Store<W>(m: Machine<W>, w: W): (bytes: seq<Octet>)
    ensures |bytes| == 8 && forall j :: 0 <= j < 8 ==> bytes[j] == m.byteOf(w, j)
  {
    seq(8, j requires 0 <= j < 8 => m.byteOf(w, j))
  }

  function PadTail(q: nat): (t: seq<Octet>)
    requires 1 <= q
    ensures |t| == q
  {
    if q == 1 then [0x81] else [0x01] + seq(q - 2, _ => 0x00) + [0x80]
  }

  function Pad(message: seq<Octet>): (p: seq<Octet>) {
    message + PadTail(RATE - |message| % RATE)
  }

  function XorBlock<W>(m: Machine<W>, a: seq<W>, block: seq<Octet>): (b: seq<W>)
    requires |a| == 25 && |block| == RATE
    ensures |b| == 25
  {
    seq(25, i requires 0 <= i < 25 => if i < 17 then m.words.xor(a[i], Load(m, block[8 * i..8 * i + 8])) else a[i])
  }

  /** The block XORed into the first `n` lanes only. */
  function XorUpTo<W>(m: Machine<W>, a: seq<W>, block: seq<Octet>, n: nat): (b: seq<W>)
    requires |a| == 25 && |block| == RATE && n <= 17
    ensures |b| == 25
    ensures forall k :: n <= k < 25 ==> b[k] == a[k]
    decreases n
  {
    if n == 0 then a
    else XorUpTo(m, a, block, n - 1)[n - 1 := m.words.xor(a[n - 1], Load(m, block[8 * (n - 1)..8 * (n - 1) + 8]))]
  }

  lemma {:induction false} XorUpToIs<W>(m: Machine<W>, a: seq<W>, block: seq<Octet>, n: nat)
    requires |a| == 25 && |block| == RATE && n <= 17
    ensures forall k :: 0 <= k < n ==> XorUpTo(m, a, block, n)[k] == XorBlock(m, a, block)[k]
    decreases n
  {
    if n > 0 {
      XorUpToIs(m, a, block, n - 1);
    }
  }

  function Permute<W>(m: Machine<W>, a: seq<W>): (b: seq<W>)
    requires |a| == 25
    ensures |b| == 25
  {
    Rounds(m.words, a, m.rcs)
  }

  function Absorb<W>(m: Machine<W>, a: seq<W>, padded: seq<Octet>): (b: seq<W>)
    requires |a| == 25
    ensures |b| == 25
    decreases |padded|
  {
    if |padded| < RATE then a
    else Absorb(m, Permute(m, XorBlock(m, a, padded[..RATE])), padded[RATE..])
  }

  /** The bytes of the first `n` lanes. */
  function Emitted<W>(m: Machine<W>, a: seq<W>, n: nat): (bytes: seq<Octet>)
    requires n <= |a|
    decreases n
  {
    if n == 0 then [] else Emitted(m, a, n - 1) + Store(m, a[n - 1])
  }

  function Squeeze<W>(m: Machine<W>, a: seq<W>): (digest: seq<Octet>)
    requires |a| == 25
  {
    Emitted(m, a, 4)
  }

  function Blank<W>(m: Machine<W>): (a: seq<W>)
    ensures |a| == 25
  {
    seq(25, _ => m.words.zero)
  }

  function Digest<W>(m: Machine<W>, message: seq<Octet>): (digest: seq<Octet>) {
    Squeeze(m, Absorb(m, Blank(m), Pad(message)))
  }

  // ---------------------------------------------------------------- padding, block by block

  lemma PadStep(message: seq<Octet>)
    requires |message| >= RATE
    ensures Pad(message) == message[..RATE] + Pad(message[RATE..])
  {
    assert |message[RATE..]| % RATE == |message| % RATE;
    assert message == message[..RATE] + message[RATE..];
  }

  lemma PadLast(message: seq<Octet>)
    requires |message| < RATE
    ensures Pad(message) == message + PadTail(RATE - |message|) && |Pad(message)| == RATE
  {
    assert |message| % 136 == |message|;
  }

  /** The padding fills whole blocks and is never empty. */
  lemma PadIsWholeBlocks(message: seq<Octet>) returns (blocks: nat)
    ensures |Pad(message)| == RATE * blocks && |Pad(message)| > |message|
  {
    blocks := |message| / RATE + 1;
  }

  lemma PadIs(message: seq<Octet>, padded: seq<Octet>)
    requires message <= padded
    requires padded[|message|..] == PadTail(RATE - |message| % RATE)
    ensures padded == Pad(message)
  {
    assert padded == message + padded[|message|..];
  }

  lemma AbsorbStep<W>(m: Machine<W>, a: seq<W>, message: seq<Octet>)
    requires |a| == 25 && |message| >= RATE
    ensures Absorb(m, a, Pad(message))
         == Absorb(m, Permute(m, XorBlock(m, a, message[..RATE])), Pad(message[RATE..]))
  {
    PadStep(message);
    var p := Pad(message);
    assert p[..RATE] == message[..RATE] && p[RATE..] == Pad(message[RATE..]);
  }

  lemma AbsorbLast<W>(m: Machine<W>, a: seq<W>, message: seq<Octet>)
    requires |a| == 25 && |message| < RATE
    ensures |Pad(message)| == RATE
    ensures Absorb(m, a, Pad(message)) == Permute(m, XorBlock(m, a, Pad(message)))
  {
    PadLast(message);
    var p := Pad(message);
    assert p[..RATE] == p && |p[RATE..]| == 0;
  }

  /** One turn over input that is padded already. */
  lemma AbsorbTurn<W>(m: Machine<W>, a: seq<W>, padded: seq<Octet>, off: nat)
    requires |a| == 25 && off + RATE <= |padded|
    ensures Absorb(m, a, padded[off..])
         == Absorb(m, Permute(m, XorBlock(m, a, padded[off..off + RATE])), padded[off + RATE..])
  {
    var rest := padded[off..];
    assert rest[..RATE] == padded[off..off + RATE] && rest[RATE..] == padded[off + RATE..];
  }

  // ---------------------------------------------------------------- machines that agree

  /** `h` turns the lanes of one machine into those of the other and no byte in or out is changed. */
  ghost predicate Simulates<V(!new), W>(m: Machine<V>, w: Machine<W>, h: V -> W) {
    && Respects(m.words, w.words, h)
    && w.rcs == Mapped(h, m.rcs)
    && (forall block :: |block| == 8 ==> Load(w, block) == h(Load(m, block)))
    && (forall v, j: nat :: j < 8 ==> w.byteOf(h(v), j) == m.byteOf(v, j))
  }

  lemma XorBlockMaps<V(!new), W>(m: Machine<V>, w: Machine<W>, h: V -> W, a: seq<V>, block: seq<Octet>)
    requires Simulates(m, w, h) && |a| == 25 && |block| == RATE
    ensures XorBlock(w, Mapped(h, a), block) == Mapped(h, XorBlock(m, a, block))
  {
    forall i | 0 <= i < 25
      ensures XorBlock(w, Mapped(h, a), block)[i] == Mapped(h, XorBlock(m, a, block))[i]
    {
      if i < 17 {
        assert |block[8 * i..8 * i + 8]| == 8;
      }
    }
  }

  lemma {:induction false} AbsorbMaps<V(!new), W>(m: Machine<V>, w: Machine<W>, h: V -> W, a: seq<V>,
                                        padded: seq<Octet>)
    requires Simulates(m, w, h) && |a| == 25
    ensures Absorb(w, Mapped(h, a), padded) == Mapped(h, Absorb(m, a, padded))
    decreases |padded|
  {
    if |padded| >= RATE {
      var b := XorBlock(m, a, padded[..RATE]);
      XorBlockMaps(m, w, h, a, padded[..RATE]);
      RoundsMap(m.words, w.words, h, b, m.rcs);
      AbsorbMaps(m, w, h, Permute(m, b), padded[RATE..]);
    }
  }

  lemma BlankMaps<V(!new), W>(m: Machine<V>, w: Machine<W>, h: V -> W)
    requires Simulates(m, w, h)
    ensures Blank(w) == Mapped(h, Blank(m))
  {
  }

  /** Machines that simulate one another hash alike. */
  lemma DigestMaps<V(!new), W>(m: Machine<V>, w: Machine<W>, h: V -> W, message: seq<Octet>)
    requires Simulates(m, w, h)
    ensures Digest(w, message) == Digest(m, message)
  {
    BlankMaps(m, w, h);
    AbsorbMaps(m, w, h, Blank(m), Pad(message));
    var a := Absorb(m, Blank(m), Pad(message));
    EmittedMaps(m, w, h, a, 4);
  }

  lemma {:induction false} EmittedMaps<V(!new), W>(m: Machine<V>, w: Machine<W>, h: V -> W, a: seq<V>, n: nat)
    requires Simulates(m, w, h) && n <= |a|
    ensures Emitted(w, Mapped(h, a), n) == Emitted(m, a, n)
  {
    if n > 0 {
      EmittedMaps(m, w, h, a, n - 1);
      StoreMaps(m, w, h, a[n - 1]);
    }
  }

  lemma StoreMaps<V(!new), W>(m: Machine<V>, w: Machine<W>, h: V -> W, v: V)
    requires Simulates(m, w, h)
    ensures Store(w, h(v)) == Store(m, v)
  {
  }

  /** Emitting every lane and keeping 32 bytes is emitting four. */
  lemma EmitAllKeepFour<W>(m: Machine<W>, a: seq<W>)
    requires |a| == 25
    ensures |Emitted(m, a, 25)| >= 32 && Emitted(m, a, 25)[..32] == Squeeze(m, a)
  {
    EmittedLength(m, a, 4);
    EmittedPrefix(m, a, 4, 25);
  }

  lemma {:induction false} EmittedLength<W>(m: Machine<W>, a: seq<W>, n: nat)
    requires n <= |a|
    ensures |Emitted(m, a, n)| == 8 * n
  {
    if n > 0 {
      EmittedLength(m, a, n - 1);
    }
  }

  lemma {:induction false} EmittedPrefix<W>(m: Machine<W>, a: seq<W>, n: nat, k: nat)
    requires n <= k <= |a|
    ensures Emitted(m, a, n) <= Emitted(m, a, k)
    decreases k
  {
    if n < k {
      EmittedPrefix(m, a, n, k - 1);
    }
  }
}
