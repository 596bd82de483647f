/** `keccak_f` and `keccak256` of the demo (macos-demo/pq1-demo.c): 25 lanes in one array, in place. */
module KeccakC {
  import opened KeccakSpec

  method ColumnsC<W>(o: Words<W>, s: array<W>, c: array<W>)
    requires s.Length == 25 && c.Length == 5 && s != c
    modifies c
    ensures forall k: Coord :: c[k] == Column(o, s[..], k)
  {
    for x := 0 to 5
      invariant forall k: Coord :: k < x ==> c[k] == Column(o, s[..], k)
    {
      c[x] := o.xor(o.xor(o.xor(o.xor(s[x], s[x + 5]), s[x + 10]), s[x + 15]), s[x + 20]);
    }
  }

  method ThetaC<W>(o: Words<W>, s: array<W>)
    requires s.Length == 25
    modifies s
    ensures IsTheta(o, old(s[..]), s[..])
  {
    ghost var a := s[..];
    var c := new W[5](_ => o.zero);
    ColumnsC(o, s, c);
    for x := 0 to 5
      invariant forall k: Coord :: c[k] == Column(o, a, k)
      invariant forall i: Coord, j: Coord ::
        At(s[..], i, j) == if i < x then o.xor(At(a, i, j), Delta(o, a, i)) else At(a, i, j)
    {
      var d := o.xor(c[Mod5(x + 4)], o.rol(c[Mod5(x + 1)], 1));
      XorColumn(o, s, x, d);
    }
  }

  /** The inner loop of theta. */
  method XorColumn<W>(o: Words<W>, s: array<W>, x: Coord, d: W)
    requires s.Length == 25
    modifies s
    ensures forall i: Coord, j: Coord ::
      At(s[..], i, j) == if i == x then o.xor(At(old(s[..]), i, j), d) else At(old(s[..]), i, j)
  {
    ghost var a := s[..];
    for y := 0 to 5
      invariant forall i: Coord, j: Coord ::
        At(s[..], i, j) == if i == x && j < y then o.xor(At(a, i, j), d) else At(a, i, j)
    {
      s[x + 5 * y] := o.xor(s[x + 5 * y], d);
    }
  }

  /** rho and pi in one loop: every lane rotated, to its new place in `b`. */
  method RhoPiC<W>(o: Words<W>, s: array<W>, b: array<W>)
    requires s.Length == 25 && b.Length == 25 && s != b
    modifies b
    ensures IsRhoPi(o, s[..], b[..])
  {
    ghost var a := s[..];
    for x := 0 to 5
      invariant s[..] == a
      invariant forall p: Coord, q: Coord :: p < x ==> Arrived(o, a, b[..], p, q)
    {
      for y := 0 to 5
        invariant s[..] == a
        invariant forall p: Coord, q: Coord :: p < x || (p == x && q < y) ==> Arrived(o, a, b[..], p, q)
      {
        ghost var before := b[..];
        b[y + 5 * Mod5(2 * x + 3 * y)] := o.rol(s[x + 5 * y], OFFSETS[x + 5 * y]);
        assert b[..] == before[y + 5 * To(x, y) := o.rol(At(a, x, y), At(OFFSETS, x, y))];
        forall p: Coord, q: Coord | p < x || (p == x && q <= y)
          ensures Arrived(o, a, b[..], p, q)
        {
          ArrivedKept(o, a, before, x, y, p, q);
        }
      }
    }
    AllArrived(o, a, b[..]);
  }

  method ChiC<W>(o: Words<W>, b: array<W>, s: array<W>)
    requires s.Length == 25 && b.Length == 25 && s != b
    modifies s
    ensures IsChi(o, b[..], s[..])
  {
    ghost var a := b[..];
    for x := 0 to 5
      invariant b[..] == a
      invariant forall i: Coord, j: Coord :: i < x ==> At(s[..], i, j) == ChiLane(o, a, i, j)
    {
      for y := 0 to 5
        invariant b[..] == a
        invariant forall i: Coord, j: Coord :: i < x || (i == x && j < y) ==> At(s[..], i, j) == ChiLane(o, a, i, j)
      {
        s[x + 5 * y] := o.chi(b[x + 5 * y], b[Mod5(x + 1) + 5 * y], b[Mod5(x + 2) + 5 * y]);
      }
    }
  }

  method RoundC<W>(o: Words<W>, rc: W, s: array<W>, b: array<W>)
    requires s.Length == 25 && b.Length == 25 && s != b
    modifies s, b
    ensures s[..] == Round(o, old(s[..]), rc)
  {
    ghost var a := s[..];
    ThetaC(o, s);
    ghost var t := s[..];
    RhoPiC(o, s, b);
    ChiC(o, b, s);
    RoundIsSteps(o, a, t, b[..], s[..], rc);
    s[0] := o.xor(s[0], rc);
  }

  method KeccakFC<W>(o: Words<W>, rcs: seq<W>, s: array<W>)
    requires s.Length == 25
    modifies s
    ensures s[..] == Rounds(o, old(s[..]), rcs)
  {
    var b := new W[25](_ => o.zero);
    ghost var a := s[..];
    for round := 0 to |rcs|
      invariant s[..] == Rounds(o, a, rcs[..round])
    {
      RoundsStep(o, a, rcs, round);
      RoundC(o, rcs[round], s, b);
    }
    assert rcs[..|rcs|] == rcs;
  }
}
