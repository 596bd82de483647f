/**
 The three `keccak256` of the repository, each over its own state layout and padding code. The lane
 arithmetic is a parameter here; KeccakAgreement supplies the three that the sources use.
 */
module KeccakHash {
  import opened KeccakSpec
  import opened KeccakSponge
  import KeccakC
  import KeccakNested
  import KeccakFlat

  // ---------------------------------------------------------------- C, macos-demo/pq1-demo.c

  /** The inner loop that assembles a lane from its last byte down. */
  method LoadLane<W>(m: Machine<W>, blk: seq<Octet>, i: nat) returns (w: W)
    requires 8 * i + 8 <= |blk|
    ensures w == Load(m, blk[8 * i..8 * i + 8])
  {
    ghost var lane := blk[8 * i..8 * i + 8];
    w := m.words.zero;
    var j := 8;
    while j > 0
      invariant 0 <= j <= 8
      invariant w == Load(m, lane[j..])
    {
      j := j - 1;
      assert lane[j..][1..] == lane[j + 1..];
      w := m.push(w, blk[8 * i + j]);
    }
    assert lane[0..] == lane;
  }

  method XorLanes<W>(m: Machine<W>, s: array<W>, blk: seq<Octet>)
    requires s.Length == 25 && |blk| == RATE
    modifies s
    ensures s[..] == XorBlock(m, old(s[..]), blk)
  {
    ghost var goal := XorBlock(m, s[..], blk);
    for i := 0 to 17
      invariant forall k :: 0 <= k < i ==> s[k] == goal[k]
      invariant forall k :: i <= k < 25 ==> s[k] == old(s[k])
    {
      var w := LoadLane(m, blk, i);
      s[i] := m.words.xor(s[i], w);
    }
  }

  /** The final block: what is left of the message, in a zeroed buffer, with 0x01 ... 0x80 padding. */
  method LastBlock(rest: seq<Octet>, last: array<Octet>)
    requires |rest| < RATE == last.Length
    modifies last
    ensures last[..] == Pad(rest)
  {
    var n := |rest|;
    forall i | 0 <= i < RATE {
      last[i] := 0;
    }
    forall i | 0 <= i < n {
      last[i] := rest[i];
    }
    last[n] := last[n] ^ 0x01;
    last[RATE - 1] := last[RATE - 1] ^ 0x80;
    PadLast(rest);
  }

  method EmitLane<W>(m: Machine<W>, w: W, out: array<Octet>, i: nat)
    requires 8 * i + 8 <= out.Length
    modifies out
    ensures out[..8 * i + 8] == old(out[..8 * i]) + Store(m, w)
  {
    for j := 0 to 8
      invariant out[..8 * i] == old(out[..8 * i])
      invariant forall k :: 0 <= k < j ==> out[8 * i + k] == m.byteOf(w, k)
    {
      out[8 * i + j] := m.byteOf(w, j);
    }
  }

  method Emit<W>(m: Machine<W>, a: seq<W>, out: array<Octet>)
    requires |a| == 25 && out.Length == 32
    modifies out
    ensures out[..] == Squeeze(m, a)
  {
    for i := 0 to 4
      invariant out[..8 * i] == Emitted(m, a, i)
    {
      EmitLane(m, a[i], out, i);
    }
    assert out[..32] == out[..];
  }

  /** One turn of the loop: a whole block, or the padded rest. */
  method AbsorbBlock<W>(m: Machine<W>, input: seq<Octet>, p: nat, s: array<W>, last: array<Octet>) returns (final: bool)
    requires p <= |input| && s.Length == 25 && last.Length == RATE
    modifies s, last
    ensures final == (|input| - p < RATE)
    ensures Absorb(m, old(s[..]), Pad(input[p..]))
         == if final then s[..] else Absorb(m, s[..], Pad(input[p + RATE..]))
  {
    var blk;
    ghost var rest := input[p..];
    final := |input| - p < RATE;
    if final {
      LastBlock(input[p..], last);
      blk := last[..];
      AbsorbLast(m, s[..], rest);
    } else {
      blk := input[p..p + RATE];
      AbsorbStep(m, s[..], rest);
      assert rest[..RATE] == blk && rest[RATE..] == input[p + RATE..];
    }
    XorLanes(m, s, blk);
    KeccakC.KeccakFC(m.words, m.rcs, s);
  }

  method Keccak256C<W>(m: Machine<W>, input: seq<Octet>, out: array<Octet>)
    requires out.Length == 32
    modifies out
    ensures out[..] == Digest(m, input)
  {
    var s := new W[25](_ => m.words.zero);
    var last := new Octet[RATE](_ => 0);
    var p := 0;
    ghost var goal := Absorb(m, Blank(m), Pad(input));
    assert s[..] == Blank(m);
    assert input[0..] == input;
    var final := false;
    while !final
      invariant p <= |input|
      invariant goal == if final then s[..] else Absorb(m, s[..], Pad(input[p..]))
      decreases !final, |input| - p
    {
      final := AbsorbBlock(m, input, p, s, last);
      if !final {
        p := p + RATE;
      }
    }
    Emit(m, s[..], out);
  }

  // ---------------------------------------------------------------- tools/build_erc20_db.py

  method PadNested(data: seq<Octet>) returns (padded: array<Octet>)
    ensures fresh(padded) && padded[..] == Pad(data)
  {
    var n := |data|;
    var q := RATE - n % RATE;
    padded := new Octet[n + q](i requires 0 <= i < n + q => if i < n then data[i] else 0);
    padded[n] := 0x01;
    padded[n + q - 1] := padded[n + q - 1] | 0x80;
    PadIs(data, padded[..]);
  }

  method XorLaneNested<W>(m: Machine<W>, state: array2<W>, i: nat, lane: W)
    requires KeccakNested.Square(state) && i < 17
    modifies state
    ensures KeccakNested.Lanes(state)
         == old(KeccakNested.Lanes(state))[i := m.words.xor(old(KeccakNested.Lanes(state))[i], lane)]
  {
    ghost var a := KeccakNested.Lanes(state);
    var x, y := Mod5(i), Div5(i);
    state[x, y] := m.words.xor(state[x, y], lane);
    PutAt(a, x, y, m.words.xor(At(a, x, y), lane));
    SameState(KeccakNested.Lanes(state), a[i := m.words.xor(a[i], lane)]);
  }

  /** One lane of the block, loaded and XORed in. */
  method XorNextNested<W>(m: Machine<W>, state: array2<W>, blk: seq<Octet>, i: nat, ghost a: seq<W>)
    requires KeccakNested.Square(state) && |blk| == RATE && i < 17 && |a| == 25
    requires KeccakNested.Lanes(state) == XorUpTo(m, a, blk, i)
    modifies state
    ensures KeccakNested.Lanes(state) == XorUpTo(m, a, blk, i + 1)
  {
    var lane := Load(m, blk[8 * i..8 * i + 8]);
    XorLaneNested(m, state, i, lane);
  }

  method XorLanesNested<W>(m: Machine<W>, state: array2<W>, blk: seq<Octet>)
    requires KeccakNested.Square(state) && |blk| == RATE
    modifies state
    ensures KeccakNested.Lanes(state) == XorBlock(m, old(KeccakNested.Lanes(state)), blk)
  {
    ghost var a := KeccakNested.Lanes(state);
    for i := 0 to 17
      invariant KeccakNested.Lanes(state) == XorUpTo(m, a, blk, i)
    {
      XorNextNested(m, state, blk, i, a);
    }
    XorUpToIs(m, a, blk, 17);
    assert XorUpTo(m, a, blk, 17) == XorBlock(m, a, blk);
  }

  method AbsorbNested<W>(m: Machine<W>, state: array2<W>, blk: seq<Octet>)
    requires KeccakNested.Square(state) && |blk| == RATE
    modifies state
    ensures KeccakNested.Lanes(state) == Permute(m, XorBlock(m, old(KeccakNested.Lanes(state)), blk))
  {
    XorLanesNested(m, state, blk);
    KeccakNested.KeccakFNested(m.words, m.rcs, state);
  }

  /** One turn of the loop over the blocks. */
  method AbsorbTurnNested<W>(m: Machine<W>, state: array2<W>, padded: seq<Octet>, off: nat)
    requires KeccakNested.Square(state) && off + RATE <= |padded|
    modifies state
    ensures Absorb(m, old(KeccakNested.Lanes(state)), padded[off..])
         == Absorb(m, KeccakNested.Lanes(state), padded[off + RATE..])
  {
    AbsorbTurn(m, KeccakNested.Lanes(state), padded, off);
    AbsorbNested(m, state, padded[off..off + RATE]);
  }

  method AbsorbAllNested<W>(m: Machine<W>, state: array2<W>, padded: seq<Octet>, ghost blocks: nat)
    requires KeccakNested.Square(state) && |padded| == RATE * blocks
    modifies state
    ensures KeccakNested.Lanes(state) == Absorb(m, old(KeccakNested.Lanes(state)), padded)
  {
    ghost var goal := Absorb(m, KeccakNested.Lanes(state), padded);
    ghost var left := blocks;
    var off := 0;
    while off < |padded|
      invariant off + RATE * left == |padded|
      invariant goal == Absorb(m, KeccakNested.Lanes(state), padded[off..])
      decreases left
    {
      AbsorbTurnNested(m, state, padded, off);
      off, left := off + RATE, left - 1;
    }
  }

  method EmitNested<W>(m: Machine<W>, state: array2<W>) returns (digest: seq<Octet>)
    requires KeccakNested.Square(state)
    ensures digest == Squeeze(m, KeccakNested.Lanes(state))
  {
    digest := [];
    for i := 0 to 4
      invariant digest == Emitted(m, KeccakNested.Lanes(state), i)
    {
      digest := digest + Store(m, state[Mod5(i), Div5(i)]);
    }
  }

  method Keccak256Nested<W>(m: Machine<W>, data: seq<Octet>) returns (digest: seq<Octet>)
    ensures digest == Digest(m, data)
  {
    var state := new W[5, 5]((_, _) => m.words.zero);
    var padded := PadNested(data);
    SameState(KeccakNested.Lanes(state), Blank(m));
    ghost var blocks := PadIsWholeBlocks(data);
    AbsorbAllNested(m, state, padded[..], blocks);
    digest := EmitNested(m, state);
  }

  // ---------------------------------------------------------------- tools/erc7730_proxy_drift.py

  method PadFlat(data: seq<Octet>) returns (padded: seq<Octet>)
    ensures padded == Pad(data)
  {
    padded := data + [0x01];
    var zeros := (RATE - |padded| % RATE) % RATE;
    padded := padded + seq(zeros, _ => 0x00);
    var end := |padded| - 1;
    padded := padded[end := padded[end] | 0x80];
    assert zeros + 1 == RATE - |data| % RATE;
    PadIs(data, padded);
  }

  method XorLanesFlat<W>(m: Machine<W>, state: array<W>, blk: seq<Octet>)
    requires state.Length == 25 && |blk| == RATE
    modifies state
    ensures state[..] == XorBlock(m, old(state[..]), blk)
  {
    ghost var goal := XorBlock(m, state[..], blk);
    for lane := 0 to 17
      invariant forall k :: 0 <= k < lane ==> state[k] == goal[k]
      invariant forall k :: lane <= k < 25 ==> state[k] == old(state[k])
    {
      var start := lane * 8;
      state[lane] := m.words.xor(state[lane], Load(m, blk[start..start + 8]));
    }
  }

  /** Every lane is written out and the first 32 bytes are kept. */
  method Joined<W>(m: Machine<W>, a: seq<W>) returns (bytes: seq<Octet>)
    ensures bytes == Emitted(m, a, |a|)
  {
    bytes := [];
    for i := 0 to |a|
      invariant bytes == Emitted(m, a, i)
    {
      bytes := bytes + Store(m, a[i]);
    }
  }

  /** One turn of the loop over the blocks. */
  method AbsorbTurnFlat<W>(m: Machine<W>, state: array<W>, padded: seq<Octet>, offset: nat)
    requires state.Length == 25 && offset + RATE <= |padded|
    modifies state
    ensures Absorb(m, old(state[..]), padded[offset..]) == Absorb(m, state[..], padded[offset + RATE..])
  {
    AbsorbTurn(m, state[..], padded, offset);
    XorLanesFlat(m, state, padded[offset..offset + RATE]);
    KeccakFlat.KeccakFFlat(m.words, m.rcs, state);
  }

  method AbsorbAllFlat<W>(m: Machine<W>, state: array<W>, padded: seq<Octet>, ghost blocks: nat)
    requires state.Length == 25 && |padded| == RATE * blocks
    modifies state
    ensures state[..] == Absorb(m, old(state[..]), padded)
  {
    ghost var goal := Absorb(m, state[..], padded);
    ghost var left := blocks;
    var offset := 0;
    while offset < |padded|
      invariant offset + RATE * left == |padded|
      invariant goal == Absorb(m, state[..], padded[offset..])
      decreases left
    {
      AbsorbTurnFlat(m, state, padded, offset);
      offset, left := offset + RATE, left - 1;
    }
  }

  method Keccak256Flat<W>(m: Machine<W>, data: seq<Octet>) returns (digest: seq<Octet>)
    ensures digest == Digest(m, data)
  {
    var padded := PadFlat(data);
    var state := new W[25](_ => m.words.zero);
    assert state[..] == Blank(m);
    ghost var blocks := PadIsWholeBlocks(data);
    AbsorbAllFlat(m, state, padded, blocks);
    var bytes := Joined(m, state[..]);
    EmitAllKeepFour(m, state[..]);
    digest := bytes[..32];
  }
}
