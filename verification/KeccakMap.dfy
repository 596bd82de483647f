/**
 The permutation commutes with every map of words that respects lane arithmetic: running it on
 mapped lanes is mapping the lanes it leaves.
 */
module KeccakMap {
  import opened KeccakSpec

  ghost predicate Respects<V(!new), W>(o: Words<V>, p: Words<W>, h: V -> W) {
    && h(o.zero) == p.zero
    && (forall a, b :: p.xor(h(a), h(b)) == h(o.xor(a, b)))
    && (forall a, n: Turn :: p.rol(h(a), n) == h(o.rol(a, n)))
    && (forall a, b, c :: p.chi(h(a), h(b), h(c)) == h(o.chi(a, b, c)))
  }

  function Mapped<V, W>(h: V -> W, a: seq<V>): (b: seq<W>)
    ensures |b| == |a| && forall i :: 0 <= i < |a| ==> b[i] == h(a[i])
  {
    seq(|a|, i requires 0 <= i < |a| => h(a[i]))
  }

  lemma AtMapped<V(!new), W>(h: V -> W, a: seq<V>, x: Coord, y: Coord)
    requires |a| == 25
    ensures At(Mapped(h, a), x, y) == h(At(a, x, y))
  {
  }

  lemma ColumnMaps<V(!new), W>(o: Words<V>, p: Words<W>, h: V -> W, a: seq<V>, x: Coord)
    requires Respects(o, p, h) && |a| == 25
    ensures Column(p, Mapped(h, a), x) == h(Column(o, a, x))
  {
    forall y: Coord {
      AtMapped(h, a, x, y);
    }
  }

  lemma DeltaMaps<V(!new), W>(o: Words<V>, p: Words<W>, h: V -> W, a: seq<V>, x: Coord)
    requires Respects(o, p, h) && |a| == 25
    ensures Delta(p, Mapped(h, a), x) == h(Delta(o, a, x))
  {
    ColumnMaps(o, p, h, a, Mod5(x + 4));
    ColumnMaps(o, p, h, a, Mod5(x + 1));
  }

  lemma ThetaMaps<V(!new), W>(o: Words<V>, p: Words<W>, h: V -> W, a: seq<V>)
    requires Respects(o, p, h) && |a| == 25
    ensures Theta(p, Mapped(h, a)) == Mapped(h, Theta(o, a))
  {
    forall x: Coord, y: Coord
      ensures At(Theta(p, Mapped(h, a)), x, y) == At(Mapped(h, Theta(o, a)), x, y)
    {
      DeltaMaps(o, p, h, a, x);
      AtMapped(h, a, x, y);
      AtMapped(h, Theta(o, a), x, y);
    }
    SameState(Theta(p, Mapped(h, a)), Mapped(h, Theta(o, a)));
  }

  lemma RhoPiMaps<V(!new), W>(o: Words<V>, p: Words<W>, h: V -> W, a: seq<V>)
    requires Respects(o, p, h) && |a| == 25
    ensures RhoPi(p, Mapped(h, a)) == Mapped(h, RhoPi(o, a))
  {
    forall x: Coord, y: Coord
      ensures At(RhoPi(p, Mapped(h, a)), x, y) == At(Mapped(h, RhoPi(o, a)), x, y)
    {
      AtMapped(h, a, From(x, y), x);
      AtMapped(h, RhoPi(o, a), x, y);
    }
    SameState(RhoPi(p, Mapped(h, a)), Mapped(h, RhoPi(o, a)));
  }

  lemma ChiMaps<V(!new), W>(o: Words<V>, p: Words<W>, h: V -> W, b: seq<V>)
    requires Respects(o, p, h) && |b| == 25
    ensures Chi(p, Mapped(h, b)) == Mapped(h, Chi(o, b))
  {
    forall x: Coord, y: Coord
      ensures At(Chi(p, Mapped(h, b)), x, y) == At(Mapped(h, Chi(o, b)), x, y)
    {
      AtMapped(h, b, x, y);
      AtMapped(h, b, Mod5(x + 1), y);
      AtMapped(h, b, Mod5(x + 2), y);
      AtMapped(h, Chi(o, b), x, y);
    }
    SameState(Chi(p, Mapped(h, b)), Mapped(h, Chi(o, b)));
  }

  lemma RoundMaps<V(!new), W>(o: Words<V>, p: Words<W>, h: V -> W, a: seq<V>, rc: V)
    requires Respects(o, p, h) && |a| == 25
    ensures Round(p, Mapped(h, a), h(rc)) == Mapped(h, Round(o, a, rc))
  {
    ThetaMaps(o, p, h, a);
    RhoPiMaps(o, p, h, Theta(o, a));
    var b := Chi(o, RhoPi(o, Theta(o, a)));
    ChiMaps(o, p, h, RhoPi(o, Theta(o, a)));
    UpdateMaps(h, b, o.xor(b[0], rc));
  }

  lemma UpdateMaps<V(!new), W>(h: V -> W, b: seq<V>, v: V)
    requires |b| == 25
    ensures Mapped(h, b)[0 := h(v)] == Mapped(h, b[0 := v])
  {
  }

  lemma MappedPrefix<V, W>(h: V -> W, a: seq<V>, n: nat)
    requires n <= |a|
    ensures Mapped(h, a)[..n] == Mapped(h, a[..n])
  {
  }

  lemma {:induction false} RoundsMap<V(!new), W>(o: Words<V>, p: Words<W>, h: V -> W, a: seq<V>, rcs: seq<V>)
    requires Respects(o, p, h) && |a| == 25
    ensures Rounds(p, Mapped(h, a), Mapped(h, rcs)) == Mapped(h, Rounds(o, a, rcs))
    decreases |rcs|
  {
    if rcs != [] {
      var n := |rcs| - 1;
      var b := Rounds(o, a, rcs[..n]);
      RoundsMap(o, p, h, a, rcs[..n]);
      MappedPrefix(h, rcs, n);
      assert Rounds(p, Mapped(h, a), Mapped(h, rcs)) == Round(p, Mapped(h, b), h(rcs[n]));
      RoundMaps(o, p, h, b, rcs[n]);
    }
  }
}
