/** `_keccak_f1600` of the drift checker (tools/erc7730_proxy_drift.py): a flat list, row by row. */
module KeccakFlat {
  import opened KeccakSpec
  import opened KeccakNested

  /** The comprehension for the columns. */
  method Columns<W>(o: Words<W>, state: seq<W>) returns (columns: seq<W>)
    requires |state| == 25
    ensures |columns| == 5 && forall x: Coord :: columns[x] == Column(o, state, x)
  {
    columns := seq(5, x requires 0 <= x < 5 =>
      o.xor(o.xor(o.xor(o.xor(state[x], state[x + 5]), state[x + 10]), state[x + 15]), state[x + 20]));
  }

  method ThetaFlat<W>(o: Words<W>, state: array<W>)
    requires state.Length == 25
    modifies state
    ensures IsTheta(o, old(state[..]), state[..])
  {
    ghost var a := state[..];
    var columns := Columns(o, state[..]);
    var deltas := KeccakNested.Deltas(o, a, columns);
    for y := 0 to 5
      invariant forall i: Coord, j: Coord ::
        At(state[..], i, j) == if j < y then o.xor(At(a, i, j), Delta(o, a, i)) else At(a, i, j)
    {
      XorRow(o, state, y, deltas);
    }
  }

  /** The inner loop of theta. */
  method XorRow<W>(o: Words<W>, state: array<W>, y: Coord, deltas: seq<W>)
    requires state.Length == 25 && |deltas| == 5
    modifies state
    ensures forall i: Coord, j: Coord ::
      At(state[..], i, j) == if j == y then o.xor(At(old(state[..]), i, j), deltas[i]) else At(old(state[..]), i, j)
  {
    ghost var a := state[..];
    for x := 0 to 5
      invariant forall i: Coord, j: Coord ::
        At(state[..], i, j) == if j == y && i < x then o.xor(At(a, i, j), deltas[i]) else At(a, i, j)
    {
      state[x + 5 * y] := o.xor(state[x + 5 * y], deltas[x]);
    }
  }

  method RhoPiFlat<W>(o: Words<W>, state: array<W>, moved: array<W>)
    requires state.Length == 25 && moved.Length == 25 && state != moved
    modifies moved
    ensures IsRhoPi(o, state[..], moved[..])
  {
    ghost var a := state[..];
    for y := 0 to 5
      invariant state[..] == a
      invariant forall p: Coord, q: Coord :: q < y ==> Arrived(o, a, moved[..], p, q)
    {
      for x := 0 to 5
        invariant state[..] == a
        invariant forall p: Coord, q: Coord :: q < y || (q == y && p < x) ==> Arrived(o, a, moved[..], p, q)
      {
        ghost var before := moved[..];
        OffsetsAgree(x, y);
        moved[y + 5 * Mod5(2 * x + 3 * y)] := o.rol(state[x + 5 * y], NESTED_OFFSETS[x][y]);
        assert moved[..] == before[y + 5 * To(x, y) := o.rol(At(a, x, y), At(OFFSETS, x, y))];
        forall p: Coord, q: Coord | q < y || (q == y && p <= x)
          ensures Arrived(o, a, moved[..], p, q)
        {
          ArrivedKept(o, a, before, x, y, p, q);
        }
      }
    }
    AllArrived(o, a, moved[..]);
  }

  method ChiFlat<W>(o: Words<W>, moved: array<W>, state: array<W>)
    requires state.Length == 25 && moved.Length == 25 && state != moved
    modifies state
    ensures IsChi(o, moved[..], state[..])
  {
    ghost var b := moved[..];
    for y := 0 to 5
      invariant moved[..] == b
      invariant forall i: Coord, j: Coord :: j < y ==> At(state[..], i, j) == ChiLane(o, b, i, j)
    {
      var row := moved[5 * y..5 * y + 5];
      assert forall x: Coord :: row[x] == At(b, x, y);
      for x := 0 to 5
        invariant moved[..] == b
        invariant forall i: Coord, j: Coord :: j < y || (j == y && i < x) ==> At(state[..], i, j) == ChiLane(o, b, i, j)
      {
        state[x + 5 * y] := o.chi(row[x], row[Mod5(x + 1)], row[Mod5(x + 2)]);
      }
    }
  }

  /** theta, rho, pi and chi; `t` and `b` are the states between them. */
  method StepsFlat<W>(o: Words<W>, state: array<W>) returns (ghost t: seq<W>, ghost b: seq<W>)
    requires state.Length == 25
    modifies state
    ensures IsTheta(o, old(state[..]), t) && IsRhoPi(o, t, b) && IsChi(o, b, state[..])
  {
    ThetaFlat(o, state);
    t := state[..];
    var moved := new W[25](_ => o.zero);
    RhoPiFlat(o, state, moved);
    b := moved[..];
    ChiFlat(o, moved, state);
  }

  method RoundFlat<W>(o: Words<W>, rc: W, state: array<W>)
    requires state.Length == 25
    modifies state
    ensures state[..] == Round(o, old(state[..]), rc)
  {
    ghost var a := state[..];
    ghost var t, b := StepsFlat(o, state);
    RoundIsSteps(o, a, t, b, state[..], rc);
    state[0] := o.xor(state[0], rc);
  }

  method KeccakFFlat<W>(o: Words<W>, rcs: seq<W>, state: array<W>)
    requires state.Length == 25
    modifies state
    ensures state[..] == Rounds(o, old(state[..]), rcs)
  {
    ghost var a := state[..];
    for round := 0 to |rcs|
      invariant state[..] == Rounds(o, a, rcs[..round])
    {
      RoundsStep(o, a, rcs, round);
      RoundFlat(o, rcs[round], state);
    }
    assert rcs[..|rcs|] == rcs;
  }
}
