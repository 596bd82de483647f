/** `_keccak_f` of the token catalogue builder (tools/build_erc20_db.py): a list of five columns. */
module KeccakNested {
  import opened KeccakSpec

  /** `_KECCAK_R`, column by column. */
  const NESTED_OFFSETS: seq<seq<Turn>> := [
    [0, 36, 3, 41, 18], [1, 44, 10, 45, 2], [62, 6, 43, 15, 61], [28, 55, 25, 21, 56], [27, 20, 39, 8, 14]]

  lemma OffsetsAgree(x: Coord, y: Coord)
    ensures |NESTED_OFFSETS| == 5 && |NESTED_OFFSETS[x]| == 5
    ensures NESTED_OFFSETS[x][y] == At(OFFSETS, x, y)
  {
    if x == 0 {
    } else if x == 1 {
    } else if x == 2 {
    } else if x == 3 {
    } else {
    }
  }

  ghost predicate Square<W>(A: array2<W>) {
    A.Length0 == 5 && A.Length1 == 5
  }

  /** The nested list `A[x][y]` as 25 lanes. */
  ghost function Lanes<W>(A: array2<W>): (s: seq<W>)
    requires Square(A)
    reads A
    ensures |s| == 25
    ensures forall x: Coord, y: Coord :: At(s, x, y) == A[x, y]
  {
    seq(25, i requires 0 <= i < 25 reads A => A[i % 5, i / 5])
  }

  /** The comprehension for C. */
  method Columns<W>(o: Words<W>, A: array2<W>) returns (C: seq<W>)
    requires Square(A)
    ensures |C| == 5 && forall x: Coord :: C[x] == Column(o, Lanes(A), x)
  {
    C := seq(5, x requires 0 <= x < 5 reads A =>
      o.xor(o.xor(o.xor(o.xor(A[x, 0], A[x, 1]), A[x, 2]), A[x, 3]), A[x, 4]));
  }

  /** The comprehension for D. */
  method Deltas<W>(o: Words<W>, ghost a: seq<W>, C: seq<W>) returns (D: seq<W>)
    requires |a| == 25 && |C| == 5 && forall x: Coord :: C[x] == Column(o, a, x)
    ensures |D| == 5 && forall x: Coord :: D[x] == Delta(o, a, x)
  {
    D := seq(5, x requires 0 <= x < 5 => o.xor(C[Mod5(x + 4)], o.rol(C[Mod5(x + 1)], 1)));
  }

  method ThetaNested<W>(o: Words<W>, A: array2<W>)
    requires Square(A)
    modifies A
    ensures IsTheta(o, old(Lanes(A)), Lanes(A))
  {
    ghost var a := Lanes(A);
    var C := Columns(o, A);
    var D := Deltas(o, a, C);
    for x := 0 to 5
      invariant forall i: Coord, j: Coord ::
        A[i, j] == if i < x then o.xor(At(a, i, j), Delta(o, a, i)) else At(a, i, j)
    {
      XorColumn(A, o, x, D[x]);
    }
  }

  /** The inner loop of theta. */
  method XorColumn<W>(A: array2<W>, o: Words<W>, x: Coord, d: W)
    requires Square(A)
    modifies A
    ensures forall i: Coord, j: Coord :: A[i, j] == if i == x then o.xor(old(A[i, j]), d) else old(A[i, j])
  {
    for y := 0 to 5
      invariant forall i: Coord, j: Coord :: A[i, j] == if i == x && j < y then o.xor(old(A[i, j]), d) else old(A[i, j])
    {
      A[x, y] := o.xor(A[x, y], d);
    }
  }

  method RhoPiNested<W>(o: Words<W>, A: array2<W>, B: array2<W>)
    requires Square(A) && Square(B) && A != B
    modifies B
    ensures IsRhoPi(o, Lanes(A), Lanes(B))
  {
    ghost var a := Lanes(A);
    for x := 0 to 5
      invariant Lanes(A) == a
      invariant forall p: Coord, q: Coord :: p < x ==> Arrived(o, a, Lanes(B), p, q)
    {
      for y := 0 to 5
        invariant Lanes(A) == a
        invariant forall p: Coord, q: Coord :: p < x || (p == x && q < y) ==> Arrived(o, a, Lanes(B), p, q)
      {
        ghost var before := Lanes(B);
        OffsetsAgree(x, y);
        B[y, Mod5(2 * x + 3 * y)] := o.rol(A[x, y], NESTED_OFFSETS[x][y]);
        ghost var v := o.rol(At(a, x, y), At(OFFSETS, x, y));
        PutAt(before, y, To(x, y), v);
        SameState(Lanes(B), before[y + 5 * To(x, y) := v]);
        forall p: Coord, q: Coord | p < x || (p == x && q <= y)
          ensures Arrived(o, a, Lanes(B), p, q)
        {
          ArrivedKept(o, a, before, x, y, p, q);
        }
      }
    }
    AllArrived(o, a, Lanes(B));
  }

  method ChiNested<W>(o: Words<W>, B: array2<W>, A: array2<W>)
    requires Square(A) && Square(B) && A != B
    modifies A
    ensures IsChi(o, Lanes(B), Lanes(A))
  {
    for x := 0 to 5
      invariant forall i: Coord, j: Coord :: i < x ==> A[i, j] == ChiLane(o, Lanes(B), i, j)
    {
      ChiColumn(o, B, A, x);
    }
  }

  method ChiAt<W>(o: Words<W>, B: array2<W>, A: array2<W>, x: Coord, y: Coord)
    requires Square(A) && Square(B) && A != B
    modifies A
    ensures A[x, y] == ChiLane(o, Lanes(B), x, y)
    ensures forall i: Coord, j: Coord :: i != x || j != y ==> A[i, j] == old(A[i, j])
  {
    A[x, y] := o.chi(B[x, y], B[Mod5(x + 1), y], B[Mod5(x + 2), y]);
  }

  /** The inner loop of chi. */
  method ChiColumn<W>(o: Words<W>, B: array2<W>, A: array2<W>, x: Coord)
    requires Square(A) && Square(B) && A != B
    modifies A
    ensures forall i: Coord, j: Coord :: A[i, j] == if i == x then ChiLane(o, Lanes(B), i, j) else old(A[i, j])
  {
    ghost var b := Lanes(B);
    for y := 0 to 5
      invariant Lanes(B) == b
      invariant forall i: Coord, j: Coord :: i != x ==> A[i, j] == old(A[i, j])
      invariant forall j: Coord :: j < y ==> A[x, j] == ChiLane(o, b, x, j)
    {
      ChiAt(o, B, A, x, y);
    }
  }

  method IotaNested<W>(o: Words<W>, rc: W, A: array2<W>)
    requires Square(A)
    modifies A
    ensures Lanes(A) == old(Lanes(A))[0 := o.xor(old(Lanes(A))[0], rc)]
  {
    ghost var c := Lanes(A);
    A[0, 0] := o.xor(A[0, 0], rc);
    PutAt(c, 0, 0, o.xor(At(c, 0, 0), rc));
    SameState(Lanes(A), c[0 := o.xor(c[0], rc)]);
  }

  method RoundNested<W>(o: Words<W>, rc: W, A: array2<W>)
    requires Square(A)
    modifies A
    ensures Lanes(A) == Round(o, old(Lanes(A)), rc)
  {
    ghost var a := Lanes(A);
    ThetaNested(o, A);
    ghost var t := Lanes(A);
    var B := new W[5, 5]((_, _) => o.zero);
    RhoPiNested(o, A, B);
    ChiNested(o, B, A);
    RoundIsSteps(o, a, t, Lanes(B), Lanes(A), rc);
    IotaNested(o, rc, A);
  }

  method KeccakFNested<W>(o: Words<W>, rcs: seq<W>, A: array2<W>)
    requires Square(A)
    modifies A
    ensures Lanes(A) == Rounds(o, old(Lanes(A)), rcs)
  {
    ghost var a := Lanes(A);
    for round := 0 to |rcs|
      invariant Lanes(A) == Rounds(o, a, rcs[..round])
    {
      RoundsStep(o, a, rcs, round);
      RoundNested(o, rcs[round], A);
    }
    assert rcs[..|rcs|] == rcs;
  }
}
