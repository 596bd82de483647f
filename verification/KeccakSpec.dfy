/**
 Keccak-f[1600] as sections 3.2 and 3.3 of FIPS 202 define it, on a state of 25 lanes: lane (x, y)
 is entry x + 5y.

 The step mappings move lanes about and combine them with three operations, so they are stated over
 any type of word that has those. What the words are (64-bit machine words in C, unbounded integers
 with masks in Python) is a question of its own, settled in KeccakWords.
 */
module KeccakSpec {

  /** A rotation count of a 64-bit lane. */
  type Turn = n: int | 0 <= n < 64

  /** Lane arithmetic: exclusive or, rotation left, and the row step of chi, a ^ (~b & c). */
  datatype Words<!W> = Words(zero: W, xor: (W, W) -> W, rol: (W, Turn) -> W, chi: (W, W, W) -> W)

  type Coord = n: int | 0 <= n < 5

  /** Reduction of a small index modulo 5. */
  function Mod5(n: nat): (r: Coord)
    requires n < 25
  {
    if n < 5 then n else if n < 10 then n - 5 else if n < 15 then n - 10 else if n < 20 then n - 15 else n - 20
  }

  /** The quotient that goes with it. */
  function Div5(n: nat): (q: Coord)
    requires n < 25
    ensures n == Mod5(n) + 5 * q
  {
    if n < 5 then 0 else if n < 10 then 1 else if n < 15 then 2 else if n < 20 then 3 else 4
  }

  lemma Mod5IsRemainder(n: nat)
    requires n < 25
    ensures Mod5(n) == n % 5 && Div5(n) == n / 5
  {
  }

  function At<W>(a: seq<W>, x: Coord, y: Coord): W
    requires |a| == 25
  {
    a[x + 5 * y]
  }

  function Build<W>(f: (Coord, Coord) -> W): (a: seq<W>)
    ensures |a| == 25
    ensures forall x: Coord, y: Coord :: At(a, x, y) == f(x, y)
  {
    seq(25, i requires 0 <= i < 25 => f(i % 5, i / 5))
  }

  lemma SameState<W>(a: seq<W>, b: seq<W>)
    requires |a| == 25 && |b| == 25
    requires forall x: Coord, y: Coord :: At(a, x, y) == At(b, x, y)
    ensures a == b
  {
    forall i | 0 <= i < 25
      ensures a[i] == b[i]
    {
      assert At(a, i % 5, i / 5) == At(b, i % 5, i / 5);
    }
  }

  // theta, section 3.2.1

  function Column<W>(o: Words<W>, a: seq<W>, x: Coord): W
    requires |a| == 25
  {
    o.xor(o.xor(o.xor(o.xor(At(a, x, 0), At(a, x, 1)), At(a, x, 2)), At(a, x, 3)), At(a, x, 4))
  }

  function Delta<W>(o: Words<W>, a: seq<W>, x: Coord): W
    requires |a| == 25
  {
    o.xor(Column(o, a, Mod5(x + 4)), o.rol(Column(o, a, Mod5(x + 1)), 1))
  }

  ghost predicate IsTheta<W>(o: Words<W>, a: seq<W>, b: seq<W>) {
    |a| == 25 && |b| == 25
    && forall x: Coord, y: Coord :: At(b, x, y) == o.xor(At(a, x, y), Delta(o, a, x))
  }

  function Theta<W>(o: Words<W>, a: seq<W>): (b: seq<W>)
    requires |a| == 25
    ensures IsTheta(o, a, b)
  {
    Build((x: Coord, y: Coord) => o.xor(At(a, x, y), Delta(o, a, x)))
  }

  // rho and pi, sections 3.2.2 and 3.2.3

  /** Rotation offsets, lane by lane. */
  const OFFSETS: seq<Turn> := [
    0, 1, 62, 28, 27, 36, 44, 6, 55, 20, 3, 10, 43, 25, 39, 41, 45, 15, 21, 8, 18, 2, 61, 56, 14]

  /** The column of the lane that moves to (x, y); its row is x. */
  function From(x: Coord, y: Coord): Coord {
    Mod5(x + 3 * y)
  }

  /** The row that lane (x, y) moves to; its new column is y. */
  function To(x: Coord, y: Coord): Coord {
    Mod5(2 * x + 3 * y)
  }

  lemma FromTo(x: Coord, y: Coord)
    ensures From(y, To(x, y)) == x
  {
  }

  lemma ToFrom(x: Coord, y: Coord)
    ensures To(From(x, y), x) == y
  {
    if y == 0 {
    } else if y == 1 {
    } else if y == 2 {
    } else if y == 3 {
    } else {
    }
  }

  lemma ToInjective(p: Coord, x: Coord, y: Coord)
    requires To(p, y) == To(x, y)
    ensures p == x
  {
    FromTo(p, y);
    FromTo(x, y);
  }

  function Moved<W>(o: Words<W>, a: seq<W>, x: Coord, y: Coord): W
    requires |a| == 25
  {
    o.rol(At(a, From(x, y), x), At(OFFSETS, From(x, y), x))
  }

  ghost predicate IsRhoPi<W>(o: Words<W>, a: seq<W>, b: seq<W>) {
    |a| == 25 && |b| == 25 && forall x: Coord, y: Coord :: At(b, x, y) == Moved(o, a, x, y)
  }

  function RhoPi<W>(o: Words<W>, a: seq<W>): (b: seq<W>)
    requires |a| == 25
    ensures IsRhoPi(o, a, b)
  {
    Build((x: Coord, y: Coord) => Moved(o, a, x, y))
  }

  /** Lane (x, y) of `a` has arrived in `b`. */
  ghost predicate Arrived<W>(o: Words<W>, a: seq<W>, b: seq<W>, x: Coord, y: Coord)
    requires |a| == 25 && |b| == 25
  {
    At(b, y, To(x, y)) == o.rol(At(a, x, y), At(OFFSETS, x, y))
  }

  lemma AllArrived<W>(o: Words<W>, a: seq<W>, b: seq<W>)
    requires |a| == 25 && |b| == 25
    requires forall x: Coord, y: Coord :: Arrived(o, a, b, x, y)
    ensures IsRhoPi(o, a, b)
  {
    forall x: Coord, y: Coord
      ensures At(b, x, y) == Moved(o, a, x, y)
    {
      ToFrom(x, y);
      assert Arrived(o, a, b, From(x, y), x);
    }
  }

  /** Putting a lane in its place disturbs no other place. */
  lemma PutAt<W>(b: seq<W>, x: Coord, y: Coord, v: W)
    requires |b| == 25
    ensures At(b[x + 5 * y := v], x, y) == v
    ensures forall i: Coord, j: Coord :: i != x || j != y ==> At(b[x + 5 * y := v], i, j) == At(b, i, j)
  {
  }

  /** One more lane put in its place: it has arrived, and whatever had arrived still has. */
  lemma ArrivedKept<W>(o: Words<W>, a: seq<W>, b: seq<W>, x: Coord, y: Coord, p: Coord, q: Coord)
    requires |a| == 25 && |b| == 25
    requires Arrived(o, a, b, p, q) || (p == x && q == y)
    ensures Arrived(o, a, b[y + 5 * To(x, y) := o.rol(At(a, x, y), At(OFFSETS, x, y))], p, q)
  {
    var t, v := To(x, y), o.rol(At(a, x, y), At(OFFSETS, x, y));
    PutAt(b, y, t, v);
    if q == y && To(p, q) == t {
      ToInjective(p, x, y);
    }
  }

  // chi, section 3.2.4

  function ChiLane<W>(o: Words<W>, b: seq<W>, x: Coord, y: Coord): W
    requires |b| == 25
  {
    o.chi(At(b, x, y), At(b, Mod5(x + 1), y), At(b, Mod5(x + 2), y))
  }

  ghost predicate IsChi<W>(o: Words<W>, b: seq<W>, a: seq<W>) {
    |a| == 25 && |b| == 25 && forall x: Coord, y: Coord :: At(a, x, y) == ChiLane(o, b, x, y)
  }

  function Chi<W>(o: Words<W>, b: seq<W>): (a: seq<W>)
    requires |b| == 25
    ensures IsChi(o, b, a)
  {
    Build((x: Coord, y: Coord) => ChiLane(o, b, x, y))
  }

  // iota and the rounds, sections 3.2.5 and 3.3

  function Round<W>(o: Words<W>, a: seq<W>, rc: W): (b: seq<W>)
    requires |a| == 25
    ensures |b| == 25
  {
    var b := Chi(o, RhoPi(o, Theta(o, a)));
    b[0 := o.xor(b[0], rc)]
  }

  /** Whatever satisfies the four step mappings in turn is the round. */
  lemma RoundIsSteps<W>(o: Words<W>, a: seq<W>, t: seq<W>, b: seq<W>, c: seq<W>, rc: W)
    requires IsTheta(o, a, t) && IsRhoPi(o, t, b) && IsChi(o, b, c)
    ensures c[0 := o.xor(c[0], rc)] == Round(o, a, rc)
  {
    SameState(t, Theta(o, a));
    SameState(b, RhoPi(o, t));
    SameState(c, Chi(o, b));
  }

  function Rounds<W>(o: Words<W>, a: seq<W>, rcs: seq<W>): (b: seq<W>)
    requires |a| == 25
    ensures |b| == 25
    decreases |rcs|
  {
    if rcs == [] then a
    else Round(o, Rounds(o, a, rcs[..|rcs| - 1]), rcs[|rcs| - 1])
  }

  lemma RoundsStep<W>(o: Words<W>, a: seq<W>, rcs: seq<W>, n: nat)
    requires |a| == 25 && n < |rcs|
    ensures Rounds(o, a, rcs[..n + 1]) == Round(o, Rounds(o, a, rcs[..n]), rcs[n])
  {
    assert rcs[..n + 1][..n] == rcs[..n];
  }
}
