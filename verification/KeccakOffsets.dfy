/** The rotation offsets, as the sources list them and as FIPS 202 generates them. */
module KeccakOffsets {
  import opened KeccakSpec

  /** The step of Algorithm 2 (section 3.2.2) that visits each lane; lane (0, 0) is never visited. */
  const STEPS: seq<nat> := [
    0, 0, 18, 6, 12, 7, 23, 2, 9, 22, 1, 3, 17, 16, 20, 13, 8, 4, 5, 15, 19, 10, 21, 14, 11]

  /** Step t turns its lane by (t + 1)(t + 2) / 2. */
  function Turns(t: nat): Turn {
    (t + 1) * (t + 2) / 2 % 64
  }

  /** The walk starts at (1, 0), goes from (x, y) to (y, 2x + 3y), and the table lists the turns. */
  ghost predicate OnTheWalk(x: Coord, y: Coord) {
    var t := At(STEPS, x, y);
    && (t == 0 ==> x == 1 && y == 0)
    && (t < 23 ==> At(STEPS, y, To(x, y)) == t + 1)
    && t < 24
    && At(OFFSETS, x, y) == Turns(t)
  }

  lemma Column0(y: Coord)
    requires y != 0
    ensures OnTheWalk(0, y)
  {
    if y == 0 {
    } else if y == 1 {
      assert Turns(7) == 36;
    } else if y == 2 {
      assert Turns(1) == 3;
    } else if y == 3 {
      assert Turns(13) == 41;
    } else {
      assert Turns(19) == 18;
    }
  }

  lemma Column1(y: Coord)
    ensures OnTheWalk(1, y)
  {
    if y == 0 {
      assert Turns(0) == 1;
    } else if y == 1 {
      assert Turns(23) == 44;
    } else if y == 2 {
      assert Turns(3) == 10;
    } else if y == 3 {
      assert Turns(8) == 45;
    } else {
      assert Turns(10) == 2;
    }
  }

  lemma Column2(y: Coord)
    ensures OnTheWalk(2, y)
  {
    if y == 0 {
      assert Turns(18) == 62;
    } else if y == 1 {
      assert Turns(2) == 6;
    } else if y == 2 {
      assert Turns(17) == 43;
    } else if y == 3 {
      assert Turns(4) == 15;
    } else {
      assert Turns(21) == 61;
    }
  }

  lemma Column3(y: Coord)
    ensures OnTheWalk(3, y)
  {
    if y == 0 {
      assert Turns(6) == 28;
    } else if y == 1 {
      assert Turns(9) == 55;
    } else if y == 2 {
      assert Turns(16) == 25;
    } else if y == 3 {
      assert Turns(5) == 21;
    } else {
      assert Turns(14) == 56;
    }
  }

  lemma Column4(y: Coord)
    ensures OnTheWalk(4, y)
  {
    if y == 0 {
      assert Turns(12) == 27;
    } else if y == 1 {
      assert Turns(22) == 20;
    } else if y == 2 {
      assert Turns(20) == 39;
    } else if y == 3 {
      assert Turns(15) == 8;
    } else {
      assert Turns(11) == 14;
    }
  }

  /** The table of the sources is the one that section 3.2.2 generates. */
  lemma OffsetsAreGenerated(x: Coord, y: Coord)
    ensures x == 0 && y == 0 ==> At(OFFSETS, x, y) == 0
    ensures x != 0 || y != 0 ==> OnTheWalk(x, y)
  {
    if x == 1 {
      Column1(y);
    } else if x == 2 {
      Column2(y);
    } else if x == 3 {
      Column3(y);
    } else if x == 4 {
      Column4(y);
    } else if y != 0 {
      Column0(y);
    }
  }
}
