/** Words as lists of nonzero integers, their rotations, and the lexicographic order. */
module Rotations {

  function Wrap(x: nat, n: nat): nat
  {
    if x < n then x else x - n
  }

  /** The word that starts with letter i and goes round. */
  function Rot(w: seq<int>, i: nat): (r: seq<int>)
    requires i <= |w|
    ensures |r| == |w|
  {
    Round(w, i, |w|)
  }

  /** The first k letters, going round from letter i. */
  function Round(w: seq<int>, i: nat, k: nat): (r: seq<int>)
    requires i <= |w| && k <= |w|
    ensures |r| == k
  {
    if k == 0 then [] else Round(w, i, k - 1) + [w[Wrap(i + k - 1, |w|)]]
  }

  lemma {:induction false} RotAt(w: seq<int>, i: nat, t: nat)
    requires i <= |w| && t < |w|
    ensures Rot(w, i)[t] == w[Wrap(i + t, |w|)]
  {
    RoundAt(w, i, |w|, t);
  }

  lemma {:induction false} RoundAt(w: seq<int>, i: nat, k: nat, t: nat)
    requires i <= |w| && t < k <= |w|
    ensures Round(w, i, k)[t] == w[Wrap(i + t, |w|)]
  {
    if t < k - 1 {
      RoundAt(w, i, k - 1, t);
    }
  }

  lemma {:induction false} RotNone(w: seq<int>)
    ensures Rot(w, 0) == w && Rot(w, |w|) == w
  {
    var a, b := Rot(w, 0), Rot(w, |w|);
    forall t | 0 <= t < |w|
      ensures a[t] == w[t] && b[t] == w[t]
    {
      RotAt(w, 0, t);
      RotAt(w, |w|, t);
    }
  }

  lemma {:induction false} RotRot(w: seq<int>, i: nat, t: nat)
    requires i + t <= |w|
    ensures Rot(Rot(w, i), t) == Rot(w, i + t)
  {
    var a, b := Rot(Rot(w, i), t), Rot(w, i + t);
    forall s | 0 <= s < |w|
      ensures a[s] == b[s]
    {
      RotAt(Rot(w, i), t, s);
      RotAt(w, i, Wrap(t + s, |w|));
      RotAt(w, i + t, s);
    }
  }

  /** The inverse word: read backwards, letters inverted. */
  function Inverse(w: seq<int>): (r: seq<int>)
    ensures |r| == |w|
  {
    if w == [] then [] else [-w[|w| - 1]] + Inverse(w[..|w| - 1])
  }

  lemma {:induction false} InverseAt(w: seq<int>, t: nat)
    requires t < |w|
    ensures Inverse(w)[t] == -w[|w| - 1 - t]
  {
    if t > 0 {
      InverseAt(w[..|w| - 1], t - 1);
    }
  }

  // ----- the order

  ghost predicate DifferAt(a: seq<int>, b: seq<int>, d: nat)
    requires |a| == |b|
  {
    d < |a| && a[d] < b[d] && a[..d] == b[..d]
  }

  ghost predicate Below(a: seq<int>, b: seq<int>)
    requires |a| == |b|
  {
    exists d: nat :: DifferAt(a, b, d)
  }

  ghost predicate AtMost(a: seq<int>, b: seq<int>)
    requires |a| == |b|
  {
    a == b || Below(a, b)
  }

  lemma {:induction false} BelowTrans(a: seq<int>, b: seq<int>, c: seq<int>)
    requires |a| == |b| == |c| && Below(a, b) && Below(b, c)
    ensures Below(a, c)
  {
    var d: nat :| DifferAt(a, b, d);
    var e: nat :| DifferAt(b, c, e);
    var m := if d < e then d else e;
    assert a[..m] == a[..d][..m] && b[..m] == b[..d][..m] == b[..e][..m] && c[..m] == c[..e][..m];
    assert d < e ==> b[d] == b[..e][d] == c[..e][d] == c[d];
    assert e < d ==> b[e] == b[..d][e] == a[..d][e] == a[e];
    assert DifferAt(a, c, m);
  }

  lemma {:induction false} AtMostTrans(a: seq<int>, b: seq<int>, c: seq<int>)
    requires |a| == |b| == |c| && AtMost(a, b) && AtMost(b, c)
    ensures AtMost(a, c)
  {
    if a != b && b != c {
      BelowTrans(a, b, c);
    }
  }

  /** The order is antisymmetric: a word that is largest is the only one. */
  lemma {:induction false} AtMostBoth(a: seq<int>, b: seq<int>)
    requires |a| == |b| && AtMost(a, b) && AtMost(b, a)
    ensures a == b
  {
    if Below(a, b) && Below(b, a) {
      BelowTrans(a, b, a);
    }
  }

  /** i is where a largest rotation of w starts, among the first k. */
  ghost predicate Best(w: seq<int>, i: nat, k: nat)
  {
    i < |w| && k <= |w| && forall x {:trigger Rot(w, x)} :: 0 <= x < k ==> AtMost(Rot(w, x), Rot(w, i))
  }

  /** Rotations that start with a smaller letter are smaller. */
  lemma {:induction false} BestFirst(w: seq<int>, i: nat)
    requires i < |w| && forall x :: 0 <= x < i ==> w[x] < w[i]
    ensures Best(w, i, i + 1)
  {
    forall x | 0 <= x < i
      ensures AtMost(Rot(w, x), Rot(w, i))
    {
      RotAt(w, x, 0);
      RotAt(w, i, 0);
      assert DifferAt(Rot(w, x), Rot(w, i), 0);
    }
  }

  lemma {:induction false} BestSmaller(w: seq<int>, i: nat, k: nat)
    requires Best(w, i, k) && k < |w| && AtMost(Rot(w, k), Rot(w, i))
    ensures Best(w, i, k + 1)
  {
  }

  lemma {:induction false} BestLarger(w: seq<int>, i: nat, k: nat)
    requires Best(w, i, k) && k < |w| && Below(Rot(w, i), Rot(w, k))
    ensures Best(w, k, k + 1)
  {
    forall x | 0 <= x < k
      ensures AtMost(Rot(w, x), Rot(w, k))
    {
      AtMostTrans(Rot(w, x), Rot(w, i), Rot(w, k));
    }
  }

  /** When a rotation comes again, all later ones have been seen before. */
  lemma {:induction false} BestPeriodic(w: seq<int>, i: nat, k: nat)
    requires Best(w, i, k) && i < k < |w| && Rot(w, k) == Rot(w, i)
    ensures Best(w, i, |w|)
  {
    forall x | 0 <= x < |w|
      ensures AtMost(Rot(w, x), Rot(w, i))
    {
      PeriodicAt(w, i, k, x);
    }
  }

  lemma {:induction false} PeriodicAt(w: seq<int>, i: nat, k: nat, x: nat)
    requires Best(w, i, k) && i < k < |w| && Rot(w, k) == Rot(w, i) && x < |w|
    ensures AtMost(Rot(w, x), Rot(w, i))
    decreases x
  {
    if x >= k {
      RotRot(w, k, x - k);
      RotRot(w, i, x - k);
      PeriodicAt(w, i, k, x - (k - i));
    }
  }

  // ----- the largest word

  /** r is a rotation of w or of its inverse. */
  ghost predicate Turned(w: seq<int>, r: seq<int>)
  {
    (exists i {:trigger Rot(w, i)} :: 0 <= i < |w| && r == Rot(w, i)) ||
        (exists i {:trigger Rot(Inverse(w), i)} :: 0 <= i < |w| && r == Rot(Inverse(w), i))
  }

  /** r is the largest among all rotations of w and of its inverse. */
  ghost predicate Largest(w: seq<int>, r: seq<int>)
  {
    && |r| == |w| && Turned(w, r)
    && (forall x {:trigger Rot(w, x)} :: 0 <= x < |w| ==> AtMost(Rot(w, x), r))
    && (forall x {:trigger Rot(Inverse(w), x)} :: 0 <= x < |w| ==> AtMost(Rot(Inverse(w), x), r))
  }

  lemma {:induction false} LargestBounds(w: seq<int>, r: seq<int>, u: seq<int>)
    requires Largest(w, r) && Turned(w, u)
    ensures |u| == |r| && AtMost(u, r)
  {
  }

  lemma {:induction false} LargestUnique(w: seq<int>, r: seq<int>, s: seq<int>)
    requires Largest(w, r) && Largest(w, s)
    ensures r == s
  {
    LargestBounds(w, r, s);
    LargestBounds(w, s, r);
    AtMostBoth(r, s);
  }

  lemma {:induction false} InverseTwice(w: seq<int>)
    ensures Inverse(Inverse(w)) == w
  {
    forall t | 0 <= t < |w|
      ensures Inverse(Inverse(w))[t] == w[t]
    {
      InverseAt(Inverse(w), t);
      InverseAt(w, |w| - 1 - t);
    }
  }

  /** Inverting a rotation is rotating the inverse. */
  lemma {:induction false} InverseRot(w: seq<int>, i: nat)
    requires i < |w|
    ensures Inverse(Rot(w, i)) == Rot(Inverse(w), if i == 0 then 0 else |w| - i)
  {
    var k := if i == 0 then 0 else |w| - i;
    var a, b := Inverse(Rot(w, i)), Rot(Inverse(w), k);
    forall t | 0 <= t < |w|
      ensures a[t] == b[t]
    {
      InverseAt(Rot(w, i), t);
      RotAt(w, i, |w| - 1 - t);
      RotAt(Inverse(w), k, t);
      InverseAt(w, Wrap(k + t, |w|));
    }
  }

  lemma {:induction false} RotOfRot(w: seq<int>, i: nat, t: nat)
    requires i < |w| && t < |w|
    ensures Rot(Rot(w, i), t) == Rot(w, Wrap(i + t, |w|))
  {
    if i + t <= |w| {
      RotRot(w, i, t);
      RotNone(w);
    } else {
      var r := Rot(w, i);
      RotRot(w, i, |w| - i);
      RotNone(w);
      RotRot(r, |w| - i, t - (|w| - i));
    }
  }

  /** Turning a word that has been turned. */
  lemma {:induction false} TurnedTwice(w: seq<int>, u: seq<int>, r: seq<int>)
    requires Turned(w, u) && Turned(u, r)
    ensures Turned(w, r)
  {
    var v := Inverse(w);
    if i :| 0 <= i < |w| && u == Rot(w, i) {
      TurnedRot(w, i, r);
    } else {
      var i :| 0 <= i < |w| && u == Rot(v, i);
      TurnedRot(v, i, r);
      InverseTwice(w);
    }
  }

  lemma {:induction false} TurnedRot(w: seq<int>, i: nat, r: seq<int>)
    requires i < |w| && Turned(Rot(w, i), r)
    ensures Turned(w, r)
  {
    var u, v := Rot(w, i), Inverse(w);
    var k := if i == 0 then 0 else |w| - i;
    InverseRot(w, i);
    if t :| 0 <= t < |u| && r == Rot(u, t) {
      RotOfRot(w, i, t);
    } else {
      var t :| 0 <= t < |u| && r == Rot(Inverse(u), t);
      RotOfRot(v, k, t);
    }
  }

  lemma {:induction false} TurnedBack(w: seq<int>, u: seq<int>)
    requires Turned(w, u)
    ensures Turned(u, w)
  {
    if i :| 0 <= i < |w| && u == Rot(w, i) {
      RotBack(w, i);
    } else {
      var i :| 0 <= i < |w| && u == Rot(Inverse(w), i);
      InverseBack(w, i);
    }
  }

  /** From a rotation of the inverse back to the word. */
  lemma {:induction false} InverseBack(w: seq<int>, i: nat)
    requires i < |w|
    ensures Turned(Rot(Inverse(w), i), w)
  {
    var v, k := Inverse(w), if i == 0 then 0 else |w| - i;
    var u, h := Rot(v, i), if k == 0 then 0 else |w| - k;
    RotBack(v, i);
    InverseRot(u, k);
    InverseTwice(w);
    assert w == Rot(Inverse(u), h);
  }

  lemma {:induction false} RotBack(w: seq<int>, i: nat)
    requires i < |w|
    ensures var k := if i == 0 then 0 else |w| - i; w == Rot(Rot(w, i), k)
  {
    var k := if i == 0 then 0 else |w| - i;
    RotOfRot(w, i, k);
    RotNone(w);
  }

  /** Words that are rotations of each other, or of each other's inverses, have the same largest word. */
  lemma {:induction false} LargestTurned(w: seq<int>, u: seq<int>, r: seq<int>, s: seq<int>)
    requires Turned(w, u) && Largest(w, r) && Largest(u, s)
    ensures r == s
  {
    TurnedTwice(w, u, s);
    TurnedBack(w, u);
    TurnedTwice(u, w, r);
    LargestBounds(w, r, s);
    LargestBounds(u, s, r);
    AtMostBoth(r, s);
  }
}
