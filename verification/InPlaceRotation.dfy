/** Rotating a list in place, cycle by cycle. */
module InPlaceRotation {
  import opened Pigeonhole
  import opened Rotations

  function Gcd(a: nat, b: nat): nat
    decreases b
  {
    if b == 0 then a else Gcd(b, a % b)
  }

  /** The greatest common divisor divides both numbers and is a combination of them. */
  lemma {:induction false} GcdFacts(a: nat, b: nat) returns (p: nat, q: nat, x: int, y: int)
    requires a > 0
    ensures Gcd(a, b) >= 1 && a == Gcd(a, b) * p && b == Gcd(a, b) * q && a * x + b * y == Gcd(a, b)
    decreases b
  {
    if b == 0 {
      p, q, x, y := 1, 0, 1, 0;
    } else {
      var p', q', x', y' := GcdFacts(b, a % b);
      var d := a / b;
      p, q, x, y := d * p' + q', p', y', x' - d * y';
      Combine(a, b, d, a % b, Gcd(b, a % b), p', q', x', y');
    }
  }

  /** One step of the Euclidean algorithm. */
  lemma {:induction false} Combine(a: int, b: int, d: int, r: int, g: int, p: int, q: int, x: int, y: int)
    requires a == d * b + r && b == g * p && r == g * q && b * x + r * y == g
    ensures a == g * (d * p + q) && a * y + b * (x - d * y) == g
  {
    calc {
      g * (d * p + q);
      g * (d * p) + g * q;
      { Swapped(g, d, p); }
      d * (g * p) + g * q;
      a;
    }
    calc {
      a * y + b * (x - d * y);
      { Spread(d * b, r, y); }
      (d * b) * y + r * y + b * (x - d * y);
      { Spread3(b, x, d * y); }
      (d * b) * y + r * y + b * x - b * (d * y);
      { Swapped(b, d, y); Regroup(d, b, y); }
      r * y + b * x;
      g;
    }
  }

  lemma {:induction false} Swapped(a: int, b: int, c: int)
    ensures a * (b * c) == b * (a * c)
  {
  }

  lemma {:induction false} Regroup(a: int, b: int, c: int)
    ensures (a * b) * c == a * (b * c)
  {
  }

  lemma {:induction false} Spread(a: int, b: int, c: int)
    ensures (a + b) * c == a * c + b * c
  {
  }

  lemma {:induction false} Spread3(a: int, b: int, c: int)
    ensures a * (b - c) == a * b - a * c
  {
  }

  lemma {:induction false} Scale(k: nat, a: int, b: int)
    ensures a <= b ==> k * a <= k * b
    ensures a < b ==> k * a + k <= k * b
  {
    Spread3(k, b, a);
    if a < b {
      Spread3(k, b - a, 1);
    }
  }

  /** The place that is reached from j by going i places back, s times, round a list of length n. */
  function Pos(j: nat, i: nat, n: nat, s: nat): (p: nat)
    requires j < n && i < n
    ensures p < n
  {
    if s == 0 then j
    else
      var q := Pos(j, i, n, s - 1);
      if q >= i then q - i else q + n - i
  }

  lemma {:induction false} PosForm(j: nat, i: nat, n: nat, s: nat) returns (t: nat)
    requires j < n && i < n
    ensures Pos(j, i, n, s) == j - s * i + t * n
  {
    if s == 0 {
      t := 0;
    } else {
      t := PosForm(j, i, n, s - 1);
      assert (s - 1) * i + i == s * i;
      if Pos(j, i, n, s - 1) < i {
        assert t * n + n == (t + 1) * n;
        t := t + 1;
      }
    }
  }

  /** How a list of n places falls into k cycles of l places. */
  ghost predicate Cycles(i: nat, n: nat, k: nat, l: nat, p: nat, x: int, y: int)
  {
    0 < i < n && k >= 1 && l >= 1 && i == k * p && n == k * l && p * x + l * y == 1
  }

  lemma {:induction false} MakeCycles(i: nat, n: nat) returns (l: nat, p: nat, x: int, y: int)
    requires 0 < i < n
    ensures Cycles(i, n, Gcd(i, n), l, p, x, y)
  {
    p, l, x, y := GcdFacts(i, n);
    var k := Gcd(i, n);
    assert k * (p * x + l * y) == k by {
      assert k * (p * x) == i * x && k * (l * y) == n * y;
    }
    UnitFactor(k, p * x + l * y);
  }

  lemma {:induction false} UnitFactor(k: nat, z: int)
    requires k >= 1 && k * z == k
    ensures z == 1
  {
    Scale(k, 1, z);
    Scale(k, z, 1);
  }

  lemma {:induction false} CancelFactor(k: nat, a: int, b: int)
    requires k >= 1 && k * a == k * b
    ensures a == b
  {
    Scale(k, a, b);
    Scale(k, b, a);
  }

  /** Fewer than l steps do not lead back. */
  lemma {:induction false} NoReturn(i: nat, n: nat, k: nat, l: nat, p: nat, x: int, y: int, s: nat, t: int)
    requires Cycles(i, n, k, l, p, x, y) && s * i == t * n && s < l
    ensures s == 0
  {
    Swapped(k, s, p);
    Swapped(k, t, l);
    CancelFactor(k, s * p, t * l);
    var z := t * x + s * y;
    calc {
      s;
      s * (p * x + l * y);
      { Spread3(s, p * x, -(l * y)); }
      s * (p * x) + s * (l * y);
      { Regroup(s, p, x); Swapped(s, l, y); }
      (t * l) * x + l * (s * y);
      { Regroup(t, l, x); Swapped(t, l, x); }
      l * (t * x) + l * (s * y);
      { Spread3(l, t * x, -(s * y)); }
      l * z;
    }
    Scale(l, 1, z);
    Scale(l, z, 0);
  }

  lemma {:induction false} PosDistinct(j: nat, i: nat, n: nat, k: nat, l: nat, p: nat, x: int, y: int, s: nat, t: nat)
    requires Cycles(i, n, k, l, p, x, y) && j < n && s < t < l
    ensures Pos(j, i, n, s) != Pos(j, i, n, t)
  {
    var a := PosForm(j, i, n, s);
    var b := PosForm(j, i, n, t);
    if Pos(j, i, n, s) == Pos(j, i, n, t) {
      assert (t - s) * i == t * i - s * i && (b - a) * n == b * n - a * n;
      NoReturn(i, n, k, l, p, x, y, t - s, b - a);
    }
  }

  /** All places of one cycle leave the same remainder. */
  lemma {:induction false} PosResidue(j: nat, i: nat, n: nat, k: nat, l: nat, p: nat, x: int, y: int, s: nat)
      returns (m: nat)
    requires Cycles(i, n, k, l, p, x, y) && j < k
    ensures k <= n && Pos(j, i, n, s) == j + k * m && m < l
  {
    Scale(k, 1, l);
    var t := PosForm(j, i, n, s);
    m := PosFactor(j, i, n, k, l, p, s, t);
  }

  lemma {:induction false} PosFactor(j: nat, i: nat, n: nat, k: nat, l: nat, p: nat, s: nat, t: nat) returns (m: nat)
    requires i == k * p && n == k * l && j < k && 0 <= j - s * i + t * n < n
    ensures j - s * i + t * n == j + k * m && m < l
  {
    var z := t * l - s * p;
    Swapped(k, t, l);
    Swapped(k, s, p);
    Spread3(k, t * l, s * p);
    Scale(k, z, 0);
    Scale(k, l, z);
    m := z;
  }

  /** The cycle of j passes through all places with its remainder. */
  lemma {:induction false} PosCovers(j: nat, i: nat, n: nat, k: nat, l: nat, p: nat, x: int, y: int, m: nat)
      returns (s: nat)
    requires Cycles(i, n, k, l, p, x, y) && j < k && m < l
    ensures s < l && k <= n && Pos(j, i, n, s) == j + k * m
  {
    Scale(k, 1, l);
    var f := Visits(j, i, n, k, l, p, x, y, l);
    forall c, e | 1 <= c < e <= l
      ensures f[c] != f[e]
    {
      PosDistinct(j, i, n, k, l, p, x, y, c - 1, e - 1);
    }
    var c := Pigeon(f, l, m + 1);
    s := c - 1;
  }

  /** Which of its places the cycle passes at each of its first h steps, counting from 1. */
  lemma {:induction false} Visits(j: nat, i: nat, n: nat, k: nat, l: nat, p: nat, x: int, y: int, h: nat)
      returns (f: seq<int>)
    requires Cycles(i, n, k, l, p, x, y) && j < k && j < n
    ensures |f| == h + 1
    ensures forall c :: 1 <= c <= h ==> 1 <= f[c] <= l && Pos(j, i, n, c - 1) == j + k * (f[c] - 1)
  {
    if h == 0 {
      f := [0];
    } else {
      f := Visits(j, i, n, k, l, p, x, y, h - 1);
      var m := PosResidue(j, i, n, k, l, p, x, y, h - 1);
      f := f + [m + 1];
    }
  }

  // ----- the rotation

  function Mult(k: nat, m: nat): nat
  {
    if m == 0 then 0 else k + Mult(k, m - 1)
  }

  /** Place m of the cycle with remainder c. */
  function Cell(k: nat, c: nat, m: nat): nat
  {
    c + Mult(k, m)
  }

  lemma {:induction false} MultIs(k: nat, m: nat)
    ensures Mult(k, m) == k * m
  {
    if m > 0 {
      MultIs(k, m - 1);
    }
  }

  lemma {:induction false} CellUnique(k: nat, r: nat, m: nat, j: nat, h: nat)
    requires r < k && j < k && Cell(k, r, m) == Cell(k, j, h)
    ensures r == j && m == h
  {
    MultIs(k, m);
    MultIs(k, h);
    Scale(k, m, h);
    Scale(k, h, m);
  }

  lemma {:induction false} InRange(k: nat, l: nat, c: nat, m: nat)
    requires c < k && m < l
    ensures c + k * m < k * l
  {
    Scale(k, m, l);
  }

  lemma {:induction false} Forward(q: nat, i: nat, n: nat)
    requires q < n && i < n
    ensures Wrap((if q >= i then q - i else q + n - i) + i, n) == q
  {
  }

  lemma {:induction false} Backward(q: nat, z: nat, i: nat, n: nat)
    requires q < n && i < n && z == Wrap(q + i, n)
    ensures Wrap(z + (n - i), n) == q
  {
  }

  /** Where the value for a place comes from: the same cycle. */
  lemma {:induction false} Source(i: nat, n: nat, k: nat, l: nat, p: nat, x: int, y: int, j: nat, s: nat)
      returns (m: nat)
    requires Cycles(i, n, k, l, p, x, y) && j < k && j < n && s < l
    ensures m < l && Wrap(Pos(j, i, n, s) + i, n) == j + k * m
  {
    if s == 0 {
      Scale(k, p, l);
      Scale(k, l, p);
      InRange(k, l, j, p);
      m := p;
    } else {
      Forward(Pos(j, i, n, s - 1), i, n);
      m := PosResidue(j, i, n, k, l, p, x, y, s - 1);
    }
  }

  /** The place whose value goes to place s of the tour. */
  function From(j: nat, i: nat, n: nat, s: nat): nat
    requires j < n && i < n
  {
    Wrap(Pos(j, i, n, s) + i, n)
  }

  ghost predicate Visited(j: nat, i: nat, n: nat, l: nat, q: nat)
    requires j < n && i < n
  {
    exists s: nat :: s < l && Pos(j, i, n, s) == q
  }

  ghost predicate OnCycle(k: nat, c: nat, l: nat, q: nat)
  {
    exists m: nat :: m < l && Cell(k, c, m) == q
  }

  /** The cycle of j passes once through each place with its remainder, and through no others. */
  ghost predicate Tour(j: nat, i: nat, n: nat, k: nat, l: nat)
  {
    && j < n && i < n
    && (forall s, t :: 0 <= s < t < l ==> Pos(j, i, n, s) != Pos(j, i, n, t))
    && (forall m {:trigger Visited(j, i, n, l, Cell(k, j, m))} :: 0 <= m < l ==> Visited(j, i, n, l, Cell(k, j, m)))
    && (forall s {:trigger OnCycle(k, j, l, Pos(j, i, n, s))} :: 0 <= s < l ==> OnCycle(k, j, l, Pos(j, i, n, s)))
    && (forall s {:trigger OnCycle(k, j, l, From(j, i, n, s))} :: 0 <= s < l ==> OnCycle(k, j, l, From(j, i, n, s)))
  }

  lemma {:induction false} TourFacts(j: nat, i: nat, n: nat, k: nat, l: nat, p: nat, x: int, y: int)
    requires Cycles(i, n, k, l, p, x, y) && j < k
    ensures Tour(j, i, n, k, l)
  {
    Scale(k, 1, l);
    forall s, t | 0 <= s < t < l
      ensures Pos(j, i, n, s) != Pos(j, i, n, t)
    {
      PosDistinct(j, i, n, k, l, p, x, y, s, t);
    }
    forall m | 0 <= m < l
      ensures Visited(j, i, n, l, Cell(k, j, m))
    {
      var s := PosCovers(j, i, n, k, l, p, x, y, m);
      MultIs(k, m);
    }
    forall s | 0 <= s < l
      ensures OnCycle(k, j, l, Pos(j, i, n, s))
    {
      var m := PosResidue(j, i, n, k, l, p, x, y, s);
      MultIs(k, m);
      assert Cell(k, j, m) == Pos(j, i, n, s);
    }
    forall s | 0 <= s < l
      ensures OnCycle(k, j, l, From(j, i, n, s))
    {
      var h := Source(i, n, k, l, p, x, y, j, s);
      MultIs(k, h);
      assert Cell(k, j, h) == From(j, i, n, s);
    }
  }

  /** Place q lies on one of the cycles. */
  ghost predicate OnSome(k: nat, l: nat, q: nat)
  {
    exists c: nat, m: nat :: c < k && m < l && Cell(k, c, m) == q
  }

  /** The cycles fill the list. */
  ghost predicate Filled(k: nat, l: nat, n: nat)
  {
    && (forall c: nat, m: nat {:trigger Cell(k, c, m)} :: c < k && m < l ==> Cell(k, c, m) < n)
    && (forall q: nat {:trigger OnSome(k, l, q)} :: q < n ==> OnSome(k, l, q))
  }

  lemma {:induction false} AllTours(i: nat, n: nat) returns (l: nat)
    requires 0 < i < n
    ensures Gcd(i, n) >= 1 && l == n / Gcd(i, n) && Filled(Gcd(i, n), l, n)
    ensures forall j {:trigger Tour(j, i, n, Gcd(i, n), l)} :: 0 <= j < Gcd(i, n) ==> Tour(j, i, n, Gcd(i, n), l)
  {
    var k := Gcd(i, n);
    var p, x, y;
    l, p, x, y := MakeCycles(i, n);
    ExactQuotient(k, l);
    Fills(k, l);
    forall j | 0 <= j < k
      ensures Tour(j, i, n, k, l)
    {
      TourFacts(j, i, n, k, l, p, x, y);
    }
  }

  lemma {:induction false} Fills(k: nat, l: nat)
    requires k >= 1
    ensures Filled(k, l, k * l)
  {
    forall c: nat, m: nat | c < k && m < l
      ensures Cell(k, c, m) < k * l
    {
      InRange(k, l, c, m);
      MultIs(k, m);
    }
    forall q: nat | q < k * l
      ensures OnSome(k, l, q)
    {
      MultIs(k, q / k);
      Scale(k, l, q / k);
      assert Cell(k, q % k, q / k) == q;
    }
  }

  lemma {:induction false} ExactQuotient(k: nat, l: nat)
    requires k >= 1
    ensures k * l / k == l
  {
    var q := k * l / k;
    Scale(k, q, l);
    Scale(k, l, q);
  }

  lemma {:induction false} ModWrap(x: nat, n: nat)
    requires 0 < n && x < 2 * n
    ensures x % n == Wrap(x, n)
  {
    if x >= n {
      assert (x - n) % n == x % n;
    }
  }

  /** The first h places of a tour have been dealt with, and no others. */
  ghost predicate Touring(b: seq<int>, r: seq<int>, j: nat, i: nat, n: nat, h: nat)
    requires |b| == |r| && n <= |b| && j < n && i < n
  {
    && (forall s {:trigger Pos(j, i, n, s)} :: 0 <= s < h ==> r[Pos(j, i, n, s)] == b[From(j, i, n, s)])
    && (forall q {:trigger Visited(j, i, n, h, q)} :: 0 <= q < n && !Visited(j, i, n, h, q) ==> r[q] == b[q])
  }

  /** The next place gets what this one held. */
  lemma {:induction false} FromNext(j: nat, i: nat, n: nat, h: nat)
    requires j < n && i < n
    ensures From(j, i, n, h + 1) == Pos(j, i, n, h)
  {
    Forward(Pos(j, i, n, h), i, n);
  }

  lemma {:induction false} TouringOn(b: seq<int>, r: seq<int>, j: nat, i: nat, n: nat, k: nat, l: nat, h: nat)
    requires |b| == |r| && n <= |b| && Tour(j, i, n, k, l) && h < l && Touring(b, r, j, i, n, h)
    ensures var q := Pos(j, i, n, h); r[q] == b[q] && Touring(b, r[q := b[Wrap(q + i, n)]], j, i, n, h + 1)
  {
    var q := Pos(j, i, n, h);
    var r' := r[q := b[Wrap(q + i, n)]];
    assert !Visited(j, i, n, h, q);
    forall s | 0 <= s < h + 1
      ensures r'[Pos(j, i, n, s)] == b[From(j, i, n, s)]
    {
      if s < h {
        assert Pos(j, i, n, s) != q;
      }
    }
    forall z | 0 <= z < n && !Visited(j, i, n, h + 1, z)
      ensures r'[z] == b[z]
    {
      assert Pos(j, i, n, h) != z;
      assert !Visited(j, i, n, h, z);
    }
  }

  /** One addition modulo n. */
  method Add(x: nat, y: nat, n: nat) returns (z: nat)
    requires x < n && y <= n
    ensures z == Wrap(x + y, n)
  {
    ModWrap(x + y, n);
    z := (x + y) % n;
  }

  /** Place h of the cycle gets what is i places further on; next is what it held itself. */
  method MoveOne(rel: array<int>, n: nat, leng1: nat, jj: nat, obj: int, ghost b: seq<int>,
                 ghost i: nat, ghost j: nat, ghost l: nat, ghost k: nat, ghost h: nat)
    returns (jj': nat, obj': int)
    requires n <= rel.Length == |b| && Tour(j, i, n, k, l) && h < l && leng1 == n - i
    requires jj == From(j, i, n, h) && obj == b[jj] && Touring(b, rel[..], j, i, n, h)
    modifies rel
    ensures jj' == Pos(j, i, n, h) && obj' == b[jj'] && Touring(b, rel[..], j, i, n, h + 1)
  {
    ghost var q, r := Pos(j, i, n, h), rel[..];
    TouringOn(b, r, j, i, n, k, l, h);
    Backward(q, jj, i, n);
    jj' := Add(jj, leng1, n);
    obj' := rel[jj'];
    rel[jj'] := obj;
    assert rel[..] == r[q := b[jj]];
  }

  /** Moves along the cycle that starts at j; every place gets what is i places further on. */
  method RotateCycle(rel: array<int>, n: nat, i: nat, j: nat, l: nat, ghost k: nat)
    requires n <= rel.Length && Tour(j, i, n, k, l)
    modifies rel
    ensures Touring(old(rel[..]), rel[..], j, i, n, l)
  {
    ghost var b := rel[..];
    var leng1 := n - i;
    var jj := Add(j, i, n);
    var obj1 := rel[jj];
    var ii := 0;
    while ii < l
      invariant 0 <= ii <= l && jj == From(j, i, n, ii) && obj1 == b[jj]
      invariant Touring(b, rel[..], j, i, n, ii)
    {
      jj, obj1 := MoveOne(rel, n, leng1, jj, obj1, b, i, j, l, k, ii);
      FromNext(j, i, n, ii);
      ii := ii + 1;
    }
  }

  /** Cycles with a smaller remainder than j have been rotated, the others have not. */
  ghost predicate RotatedTo(b: seq<int>, r: seq<int>, i: nat, n: nat, k: nat, l: nat, j: nat)
    requires |b| == |r| && n <= |b| && i < n
  {
    forall c: nat, m: nat {:trigger Cell(k, c, m)} :: c < k && m < l ==> RotatedAt(b, r, i, n, j, c, Cell(k, c, m))
  }

  ghost predicate RotatedAt(b: seq<int>, r: seq<int>, i: nat, n: nat, j: nat, c: nat, q: nat)
    requires |b| == |r| && n <= |b| && i < n
  {
    q < n && r[q] == if c < j then b[Wrap(q + i, n)] else b[q]
  }

  lemma {:induction false} CycleRotated(b: seq<int>, r: seq<int>, r': seq<int>, i: nat, n: nat, k: nat, l: nat, j: nat)
    requires |b| == |r| == |r'| && n <= |b| && j < k && Tour(j, i, n, k, l) && RotatedTo(b, r, i, n, k, l, j)
    requires Touring(r, r', j, i, n, l)
    ensures RotatedTo(b, r', i, n, k, l, j + 1)
  {
    forall c: nat, m: nat | c < k && m < l
      ensures RotatedAt(b, r', i, n, j + 1, c, Cell(k, c, m))
    {
      var q := Cell(k, c, m);
      assert RotatedAt(b, r, i, n, j, c, q);
      if c == j {
        TourPlace(b, r, i, n, k, l, j, m);
      } else {
        NotOnTour(i, n, k, l, j, c, m);
      }
    }
  }

  /** What a place of the cycle gets has not been changed before. */
  lemma {:induction false} TourPlace(b: seq<int>, r: seq<int>, i: nat, n: nat, k: nat, l: nat, j: nat, m: nat)
    requires |b| == |r| && n <= |b| && j < k && m < l && Tour(j, i, n, k, l) && RotatedTo(b, r, i, n, k, l, j)
    ensures var q := Cell(k, j, m); q < n && Visited(j, i, n, l, q) && r[Wrap(q + i, n)] == b[Wrap(q + i, n)]
  {
    var q := Cell(k, j, m);
    assert RotatedAt(b, r, i, n, j, j, q);
    assert Visited(j, i, n, l, q);
    var s: nat :| s < l && Pos(j, i, n, s) == q;
    assert OnCycle(k, j, l, From(j, i, n, s));
    var h: nat :| h < l && Cell(k, j, h) == From(j, i, n, s);
    assert RotatedAt(b, r, i, n, j, j, Cell(k, j, h));
  }

  lemma {:induction false} NotOnTour(i: nat, n: nat, k: nat, l: nat, j: nat, c: nat, m: nat)
    requires j < k && c < k && c != j && Tour(j, i, n, k, l)
    ensures !Visited(j, i, n, l, Cell(k, c, m))
  {
    if s: nat :| s < l && Pos(j, i, n, s) == Cell(k, c, m) {
      assert OnCycle(k, j, l, Pos(j, i, n, s));
      var h: nat :| h < l && Cell(k, j, h) == Pos(j, i, n, s);
      CellUnique(k, c, m, j, h);
    }
  }

  lemma {:induction false} AllRotated(b: seq<int>, r: seq<int>, i: nat, n: nat, k: nat, l: nat)
    requires i < n && |b| == |r| && n <= |b| && RotatedTo(b, r, i, n, k, l, k) && Filled(k, l, n)
    ensures r[..n] == Rot(b[..n], i)
  {
    forall q | 0 <= q < n
      ensures r[q] == Rot(b[..n], i)[q]
    {
      assert OnSome(k, l, q);
      var c: nat, m: nat :| c < k && m < l && Cell(k, c, m) == q;
      assert RotatedAt(b, r, i, n, k, c, Cell(k, c, m));
      RotAt(b[..n], i, q);
    }
  }

  /** Lets the first n entries start with entry i. */
  method RotateInPlace(rel: array<int>, n: nat, i: nat)
    requires 0 < i < n <= rel.Length
    modifies rel
    ensures rel[..n] == Rot(old(rel[..n]), i)
  {
    ghost var b := rel[..];
    var k := Gcd(i, n);
    ghost var h := AllTours(i, n);
    var l := n / k;
    for j := 0 to k
      invariant RotatedTo(b, rel[..], i, n, k, l, j)
    {
      ghost var r := rel[..];
      RotateCycle(rel, n, i, j, l, k);
      CycleRotated(b, r, rel[..], i, n, k, l, j);
    }
    AllRotated(b, rel[..], i, n, k, l);
    assert b[..n] == old(rel[..n]);
  }
}
