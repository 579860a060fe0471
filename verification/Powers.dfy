/**
  The thresholds of the scapegoat tree: floor((3/2)^(d+1)) nodes for depth d.
 */
module Powers {

  function Pow(b: nat, e: nat): (p: nat)
    ensures b >= 1 ==> p >= 1
  {
    if e == 0 then 1 else Mul(b, Pow(b, e - 1))
  }

  function Mul(x: nat, y: nat): (p: nat)
    ensures x >= 1 && y >= 1 ==> p >= 1 && p >= y
  {
    MulPositive(x, y);
    x * y
  }

  lemma {:induction false} MulPositive(x: nat, y: nat)
    ensures x * y >= 0
    ensures x >= 1 && y >= 1 ==> x * y >= 1 && x * y >= y
  {
    if x >= 1 {
      assert x * y == (x - 1) * y + y;
    }
  }

  /** `min_nodes_for_height`: fewer nodes are too sparse for a node at depth d. */
  function MinNodes(d: nat): nat
  {
    Pow(3, d + 1) / Pow(2, d + 1)
  }

  /** Least size of a subtree whose path to a node k levels down is weight-balanced. */
  function Growth(k: nat): (g: nat)
    ensures g >= 1
  {
    if k == 0 then 1 else (3 * Growth(k - 1) + 1) / 2
  }

  /** One weight-balanced step up the path. */
  lemma {:induction false} GrowthStep(k: nat, child: nat, size: nat)
    requires child >= Growth(k) && 3 * child <= 2 * size
    ensures size >= Growth(k + 1)
  {
  }

  lemma {:induction false} DivBound(a: nat, b: nat, q: nat)
    requires b > 0 && a <= q * b
    ensures a / b <= q
  {
  }

  lemma {:induction false} DivAtLeast(a: nat, b: nat, q: nat)
    requires b > 0 && a >= q * b
    ensures a / b >= q
  {
    var k := a / b;
    assert a < k * b + b == (k + 1) * b;
    if k < q {
      MulMono(k + 1, q, b);
      assert false;
    }
  }

  lemma {:induction false} DivBelow(a: nat, b: nat, q: nat)
    requires b > 0 && a / b <= q
    ensures a < (q + 1) * b
  {
    var k := a / b;
    assert a < k * b + b == (k + 1) * b;
    MulMono(k + 1, q + 1, b);
  }

  lemma {:induction false} GrowthTimes(k: nat)
    requires k >= 4
    ensures Pow(3, k + 1) <= Growth(k) * Pow(2, k + 1)
    decreases k
  {
    if k == 4 {
      FirstPowers();
    } else {
      GrowthTimes(k - 1);
      var g, g', p := Growth(k - 1), Growth(k), Pow(2, k);
      assert 2 * g' >= 3 * g;
      calc {
        Pow(3, k + 1);
      ==
        3 * Pow(3, k);
      <=
        3 * (g * p);
      ==
        (3 * g) * p;
      <= { MulMono(3 * g, 2 * g', p); }
        (2 * g') * p;
      ==
        g' * (2 * p);
      ==
        g' * Pow(2, k + 1);
      }
    }
  }

  lemma {:induction false} MulMono(a: nat, b: nat, c: nat)
    requires a <= b
    ensures a * c <= b * c
  {
    assert b * c == a * c + (b - a) * c;
    MulPositive(b - a, c);
  }

  /** A weight-balanced path is long enough only in a tree with that many nodes. */
  lemma {:induction false} GrowthEnough(k: nat)
    ensures MinNodes(k) <= Growth(k)
  {
    if k >= 4 {
      GrowthTimes(k);
      DivBound(Pow(3, k + 1), Pow(2, k + 1), Growth(k));
    } else {
      FirstPowers();
    }
  }

  lemma {:induction false} FirstPowers()
    ensures MinNodes(0) == Growth(0) && MinNodes(1) == Growth(1) && MinNodes(2) == Growth(2) && MinNodes(3) == Growth(3)
    ensures Growth(4) == 8 && Pow(3, 5) == 243 && Pow(2, 5) == 32
  {
    assert Pow(3, 1) == 3 && Pow(3, 2) == 9 && Pow(3, 3) == 27 && Pow(3, 4) == 81;
    assert Pow(2, 1) == 2 && Pow(2, 2) == 4 && Pow(2, 3) == 8 && Pow(2, 4) == 16;
    assert Growth(0) == 1 && Growth(1) == 2 && Growth(2) == 3 && Growth(3) == 5;
  }

  lemma {:induction false} MinNodesMono(d: nat, e: nat)
    requires d <= e
    ensures MinNodes(d) <= MinNodes(e)
    decreases e - d
  {
    if d < e {
      var a, b := Pow(3, d + 1), Pow(2, d + 1);
      var q := a / b;
      assert q * b <= a;
      assert Pow(3, d + 2) == 3 * a && Pow(2, d + 2) == 2 * b;
      assert q * (2 * b) == 2 * (q * b) <= 3 * a;
      DivAtLeast(3 * a, 2 * b, q);
      MinNodesMono(d + 1, e);
    }
  }

  lemma {:induction false} TwoThirds(h: nat)
    requires h >= 2
    ensures Pow(3, h + 1) <= Pow(2, h) * Pow(2, h + 1)
    decreases h
  {
    if h == 2 {
      assert Pow(3, 1) == 3 && Pow(3, 2) == 9 && Pow(3, 3) == 27;
      assert Pow(2, 1) == 2 && Pow(2, 2) == 4 && Pow(2, 3) == 8;
    } else {
      TwoThirds(h - 1);
      var x, y := Pow(2, h - 1), Pow(2, h);
      assert Pow(2, h) == 2 * x && Pow(2, h + 1) == 2 * y;
      assert (2 * x) * (2 * y) == 4 * (x * y);
      assert Pow(3, h + 1) == 3 * Pow(3, h);
    }
  }

  /** A tree that is as low as possible is dense enough. */
  lemma {:induction false} MinNodesPow2(h: nat)
    ensures MinNodes(h) <= Pow(2, h)
  {
    if h >= 2 {
      TwoThirds(h);
      DivBound(Pow(3, h + 1), Pow(2, h + 1), Pow(2, h));
    } else {
      assert Pow(3, 1) == 3 && Pow(3, 2) == 9 && Pow(2, 1) == 2 && Pow(2, 2) == 4;
    }
  }

  lemma {:induction false} Pow2Mono(d: nat, e: nat)
    requires d <= e
    ensures Pow(2, d) <= Pow(2, e)
    decreases e - d
  {
    if d < e {
      Pow2Mono(d + 1, e);
    }
  }

  lemma {:induction false} Pow2Less(d: nat, e: nat)
    requires Pow(2, d) < Pow(2, e)
    ensures d < e
  {
    if e <= d {
      Pow2Mono(e, d);
    }
  }

  /** (9/4)^k >= 2^k. */
  lemma {:induction false} Square(k: nat)
    ensures Pow(3, 2 * k) >= Pow(2, k) * Pow(2, 2 * k)
  {
    if k > 0 {
      Square(k - 1);
      var a, x, y := Pow(3, 2 * k - 2), Pow(2, k - 1), Pow(2, 2 * k - 2);
      PowTwice(3, k);
      PowTwice(2, k);
      SquareStep(a, x, y);
    }
  }

  lemma {:induction false} PowTwice(b: nat, k: nat)
    requires k > 0
    ensures Pow(b, 2 * k) == b * (b * Pow(b, 2 * k - 2)) && Pow(b, k) == b * Pow(b, k - 1)
  {
    assert Pow(b, 2 * k) == b * Pow(b, 2 * k - 1);
  }

  lemma {:induction false} SquareStep(a: nat, x: nat, y: nat)
    requires a >= x * y
    ensures 9 * a >= (2 * x) * (4 * y)
  {
    assert (2 * x) * (4 * y) == 8 * (x * y);
  }

  /** The table of thresholds outgrows Pow(2, k) nodes at index 2k - 1. */
  lemma {:induction false} MinNodesLarge(k: nat)
    requires k >= 1
    ensures MinNodes(2 * k - 1) >= Pow(2, k)
  {
    Square(k);
    DivAtLeast(Pow(3, 2 * k), Pow(2, 2 * k), Pow(2, k));
  }
}
