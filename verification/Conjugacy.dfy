/**
  Relators and the free group: two relators have the same canonical representative if and only
  if one is conjugate to the other or to its inverse.
 */
module Conjugacy {
  import opened Rotations
  import opened CanonicalRelator

  /** Words in letters and their inverses; no letter is its own inverse. */
  ghost predicate Word(w: seq<int>)
  {
    forall t :: 0 <= t < |w| ==> w[t] != 0
  }

  // ----- free reduction

  /** A letter behind a word, with which it may cancel. */
  function Behind(w: seq<int>, a: int): seq<int>
  {
    if w != [] && w[|w| - 1] == -a then w[..|w| - 1] else w + [a]
  }

  /** A letter before a word. */
  function Before(a: int, w: seq<int>): seq<int>
  {
    if w != [] && w[0] == -a then w[1..] else [a] + w
  }

  /** The element of the free group that a word stands for, as a reduced word. */
  function Reduced(w: seq<int>): seq<int>
  {
    if w == [] then [] else Behind(Reduced(w[..|w| - 1]), w[|w| - 1])
  }

  lemma {:induction false} BehindReduced(w: seq<int>, a: int)
    requires FreelyReduced(w)
    ensures FreelyReduced(Behind(w, a))
  {
    var v := Behind(w, a);
    forall t | 0 <= t < |v| - 1
      ensures Stays(v, t)
    {
      assert t < |w| - 1 ==> Stays(w, t);
    }
  }

  lemma {:induction false} BeforeReduced(a: int, w: seq<int>)
    requires FreelyReduced(w)
    ensures FreelyReduced(Before(a, w))
  {
    var v := Before(a, w);
    forall t | 0 <= t < |v| - 1
      ensures Stays(v, t)
    {
      if |v| < |w| {
        assert Stays(w, t + 1);
      } else if t > 0 {
        assert Stays(w, t - 1);
      }
    }
  }

  lemma {:induction false} ReducedIsReduced(w: seq<int>)
    ensures FreelyReduced(Reduced(w))
  {
    if w != [] {
      ReducedIsReduced(w[..|w| - 1]);
      BehindReduced(Reduced(w[..|w| - 1]), w[|w| - 1]);
    }
  }

  lemma {:induction false} ReducedSame(w: seq<int>)
    requires FreelyReduced(w)
    ensures Reduced(w) == w
  {
    if w != [] {
      var u := w[..|w| - 1];
      forall t | 0 <= t < |u| - 1
        ensures Stays(u, t)
      {
        assert Stays(w, t);
      }
      ReducedSame(u);
      assert |w| >= 2 ==> Stays(w, |w| - 2);
    }
  }

  /** Letters before and behind a word can be taken in either order. */
  lemma {:induction false} BeforeBehind(a: int, w: seq<int>, c: int)
    requires FreelyReduced(w) && a != 0 && c != 0
    ensures Behind(Before(a, w), c) == Before(a, Behind(w, c))
  {
    var n := |w|;
    if n == 0 {
      assert [a] + [c] == [a, c] && [a, c][1..] == [c] && [a][..0] == [];
    } else if n == 1 {
      assert w[1..] == [] && w[..0] == [] && (w + [c])[1..] == [c] && ([a] + w)[..1] == [a];
      assert ([a] + w) + [c] == [a] + (w + [c]);
    } else {
      assert w[1..][..n - 2] == w[..n - 1][1..] && w[1..] + [c] == (w + [c])[1..];
      assert ([a] + w)[..n] == [a] + w[..n - 1] && ([a] + w) + [c] == [a] + (w + [c]);
    }
  }

  lemma {:induction false} ReducedBefore(a: int, w: seq<int>)
    requires a != 0 && Word(w)
    ensures Reduced([a] + w) == Before(a, Reduced(w))
  {
    var v := [a] + w;
    if w == [] {
      assert v[..0] == [];
    } else {
      var u, c := w[..|w| - 1], w[|w| - 1];
      assert v[..|v| - 1] == [a] + u;
      ReducedBefore(a, u);
      ReducedIsReduced(u);
      BeforeBehind(a, Reduced(u), c);
    }
  }

  // ----- conjugation

  /** A reduced word conjugated by a letter. */
  function Around(a: int, w: seq<int>): seq<int>
  {
    Behind(Before(a, w), -a)
  }

  /** A reduced word conjugated by a word. */
  function Conjugate(x: seq<int>, w: seq<int>): seq<int>
  {
    if x == [] then w else Around(x[0], Conjugate(x[1..], w))
  }

  lemma {:induction false} AroundReduced(a: int, w: seq<int>)
    requires FreelyReduced(w)
    ensures FreelyReduced(Around(a, w))
  {
    BeforeReduced(a, w);
    BehindReduced(Before(a, w), -a);
  }

  lemma {:induction false} ConjugateReduced(x: seq<int>, w: seq<int>)
    requires FreelyReduced(w)
    ensures FreelyReduced(Conjugate(x, w))
  {
    if x != [] {
      ConjugateReduced(x[1..], w);
      AroundReduced(x[0], Conjugate(x[1..], w));
    }
  }

  lemma {:induction false} InverseFront(x: seq<int>)
    requires x != []
    ensures Inverse(x) == Inverse(x[1..]) + [-x[0]]
  {
    var a, b := Inverse(x), Inverse(x[1..]) + [-x[0]];
    forall t | 0 <= t < |x|
      ensures a[t] == b[t]
    {
      InverseAt(x, t);
      if t < |x| - 1 {
        InverseAt(x[1..], t);
      }
    }
  }

  lemma {:induction false} InverseWord(x: seq<int>)
    requires Word(x)
    ensures Word(Inverse(x))
  {
    forall t | 0 <= t < |x|
      ensures Inverse(x)[t] != 0
    {
      InverseAt(x, t);
    }
  }

  /** Conjugating is what it should be in the free group. */
  lemma {:induction false} ConjugateIs(x: seq<int>, w: seq<int>)
    requires Word(x) && Word(w) && FreelyReduced(w)
    ensures Conjugate(x, w) == Reduced(x + w + Inverse(x))
  {
    var u := x + w + Inverse(x);
    if x == [] {
      assert u == w;
      ReducedSame(w);
    } else {
      var a, y := x[0], x[1..];
      var z := Inverse(y);
      ConjugateIs(y, w);
      InverseFront(x);
      InverseWord(y);
      assert [a] + y == x;
      Wrapped(a, y, w, z, u);
      ReducedAround(a, y + w + z, u);
    }
  }

  lemma {:induction false} ReducedAround(a: int, v: seq<int>, u: seq<int>)
    requires a != 0 && Word(v) && u != [] && u[..|u| - 1] == [a] + v && u[|u| - 1] == -a
    ensures Reduced(u) == Around(a, Reduced(v))
  {
    ReducedBefore(a, v);
  }

  lemma {:induction false} Wrapped(a: int, y: seq<int>, w: seq<int>, z: seq<int>, u: seq<int>)
    requires u == ([a] + y) + w + (z + [-a])
    ensures u != [] && u[..|u| - 1] == [a] + (y + w + z) && u[|u| - 1] == -a
  {
  }

  /** Conjugation by a letter can be undone. */
  lemma {:induction false} AroundBack(a: int, w: seq<int>)
    requires a != 0 && FreelyReduced(w) && Word(w)
    ensures Around(-a, Around(a, w)) == w
  {
    var u := Before(a, w);
    BeforeReduced(a, w);
    assert Word(u);
    BeforeUndone(a, w);
    BehindUndone(u, -a);
    BehindReduced(u, -a);
    BeforeBehind(-a, Behind(u, -a), a);
  }

  lemma {:induction false} BeforeUndone(a: int, w: seq<int>)
    requires a != 0 && FreelyReduced(w)
    ensures Before(-a, Before(a, w)) == w
  {
    assert |w| >= 2 ==> Stays(w, 0);
  }

  lemma {:induction false} BehindUndone(w: seq<int>, a: int)
    requires a != 0 && FreelyReduced(w)
    ensures Behind(Behind(w, a), -a) == w
  {
    assert |w| >= 2 ==> Stays(w, |w| - 2);
  }

  // ----- conjugation and the cyclically reduced form

  lemma {:induction false} TurnedSelf(w: seq<int>)
    requires w != []
    ensures Turned(w, w)
  {
    RotNone(w);
  }

  /** Both ends stay: the new letters are cut off again. */
  lemma {:induction false} AroundOutside(a: int, w: seq<int>)
    requires w != [] && w[0] != -a && w[|w| - 1] != a && a != 0
    ensures Around(a, w) == [a] + w + [-a] && Core(Around(a, w)) == Core(w)
  {
    var v := [a] + w;
    assert v[|v| - 1] == w[|w| - 1];
    var u := v + [-a];
    assert u[1..|u| - 1] == w;
  }

  /** A letter moves from the front to the back. */
  lemma {:induction false} AroundFront(a: int, w: seq<int>)
    requires w != [] && w[0] == -a && w[|w| - 1] != a && a != 0
    ensures Around(a, w) == Rot(w, 1)
  {
    var v := w[1..];
    assert |w| > 1 ==> v[|v| - 1] == w[|w| - 1];
    var u := v + [-a];
    forall t | 0 <= t < |w|
      ensures u[t] == Rot(w, 1)[t]
    {
      RotAt(w, 1, t);
    }
    assert u == Rot(w, 1);
  }

  /** A letter moves from the back to the front. */
  lemma {:induction false} AroundBehind(a: int, w: seq<int>)
    requires w != [] && w[0] != -a && w[|w| - 1] == a && a != 0
    ensures Around(a, w) == Rot(w, |w| - 1)
  {
    var n := |w|;
    var u := [a] + w[..n - 1];
    assert ([a] + w)[..n] == u;
    forall t | 0 <= t < n
      ensures u[t] == Rot(w, n - 1)[t]
    {
      RotAt(w, n - 1, t);
    }
    assert u == Rot(w, n - 1);
  }

  /** Both ends cancel, as they do in the cyclic reduction. */
  lemma {:induction false} AroundInside(a: int, w: seq<int>)
    requires w != [] && w[0] == -a && w[|w| - 1] == a && a != 0
    ensures |w| >= 2 && Around(a, w) == w[1..|w| - 1] && Core(Around(a, w)) == Core(w)
  {
    var v := w[1..];
    assert v[|v| - 1] == a && v[..|v| - 1] == w[1..|w| - 1];
  }

  lemma {:induction false} AroundTurned(a: int, w: seq<int>)
    requires a != 0 && w != [] && FreelyReduced(w) && Word(w)
    ensures Turned(Core(w), Core(Around(a, w)))
  {
    CoreNonempty(w);
    TurnedSelf(Core(w));
    if w[0] != -a && w[|w| - 1] != a {
      AroundOutside(a, w);
    } else if w[0] == -a && w[|w| - 1] == a {
      AroundInside(a, w);
    } else if w[0] == -a {
      AroundFront(a, w);
      if |w| == 1 {
        RotNone(w);
      } else {
        RotEnds(w, 1);
      }
    } else {
      AroundBehind(a, w);
      RotEnds(w, |w| - 1);
    }
  }

  lemma {:induction false} AroundNonempty(a: int, w: seq<int>)
    requires a != 0 && w != [] && FreelyReduced(w) && Word(w)
    ensures Around(a, w) != [] && Word(Around(a, w))
  {
    if Around(a, w) == [] {
      AroundBack(a, w);
    }
  }

  lemma {:induction false} ConjugateTurned(x: seq<int>, w: seq<int>)
    requires Word(x) && w != [] && FreelyReduced(w) && Word(w)
    ensures Conjugate(x, w) != [] && Word(Conjugate(x, w)) && Turned(Core(w), Core(Conjugate(x, w)))
  {
    if x == [] {
      CoreNonempty(w);
      TurnedSelf(Core(w));
    } else {
      var v := Conjugate(x[1..], w);
      ConjugateTurned(x[1..], w);
      ConjugateReduced(x[1..], w);
      AroundTurned(x[0], v);
      AroundNonempty(x[0], v);
      TurnedTwice(Core(w), Core(v), Core(Conjugate(x, w)));
    }
  }

  /** The cyclically reduced form of the inverse is the inverse of the cyclically reduced form. */
  lemma {:induction false} CoreInverse(w: seq<int>)
    ensures Core(Inverse(w)) == Inverse(Core(w))
    decreases |w|
  {
    var n, v := |w|, Inverse(w);
    if n >= 2 {
      InverseAt(w, 0);
      InverseAt(w, n - 1);
      if w[0] == -w[n - 1] {
        var u := w[1..n - 1];
        CoreInverse(u);
        assert v[1..n - 1] == Inverse(u) by {
          forall t | 0 <= t < n - 2
            ensures v[1..n - 1][t] == Inverse(u)[t]
          {
            InverseAt(w, t + 1);
            InverseAt(u, t);
          }
        }
      }
    }
  }

  // ----- conjugacy classes

  /** u is conjugate to w. */
  ghost predicate Conjugates(w: seq<int>, u: seq<int>)
  {
    exists x {:trigger Conjugate(x, w)} :: Word(x) && u == Conjugate(x, w)
  }

  lemma {:induction false} ConjugateFirst(a: int, z: seq<int>, w: seq<int>)
    ensures Conjugate([a] + z, w) == Around(a, Conjugate(z, w))
  {
    assert ([a] + z)[1..] == z;
  }

  /** Conjugating v by z comes to the same as conjugating w by q. */
  ghost predicate SameConjugate(z: seq<int>, v: seq<int>, q: seq<int>, w: seq<int>)
  {
    Conjugate(z, v) == Conjugate(q, w)
  }

  lemma {:induction false} ConjugateMore(a: int, z: seq<int>, v: seq<int>, q: seq<int>, w: seq<int>)
    requires SameConjugate(z, v, q, w)
    ensures SameConjugate([a] + z, v, [a] + q, w)
  {
    ConjugateFirst(a, z, v);
    ConjugateFirst(a, q, w);
  }

  lemma {:induction false} ConjugateBehind(y: seq<int>, x: seq<int>, w: seq<int>, v: seq<int>)
    requires v == Conjugate(x, w)
    ensures SameConjugate(y, v, y + x, w)
  {
    if y == [] {
      assert y + x == x;
    } else {
      ConjugateBehind(y[1..], x, w, v);
      assert y == [y[0]] + y[1..] && y + x == [y[0]] + (y[1..] + x);
      ConjugateMore(y[0], y[1..], v, y[1..] + x, w);
    }
  }

  lemma {:induction false} ConjugateTwice(y: seq<int>, x: seq<int>, w: seq<int>)
    ensures Conjugate(y, Conjugate(x, w)) == Conjugate(y + x, w)
  {
    ConjugateBehind(y, x, w, Conjugate(x, w));
  }

  lemma {:induction false} ConjugatesTrans(w: seq<int>, u: seq<int>, v: seq<int>)
    requires Conjugates(w, u) && Conjugates(u, v)
    ensures Conjugates(w, v)
  {
    var x :| Word(x) && u == Conjugate(x, w);
    var y :| Word(y) && v == Conjugate(y, u);
    ConjugateTwice(y, x, w);
    assert Word(y + x);
  }

  lemma {:induction false} ConjugateBack(x: seq<int>, w: seq<int>)
    requires Word(x) && w != [] && FreelyReduced(w) && Word(w)
    ensures Conjugates(Conjugate(x, w), w)
  {
    if x == [] {
      assert Conjugate([], w) == w;
    } else {
      var a, v := x[0], Conjugate(x[1..], w);
      ConjugateTurned(x[1..], w);
      ConjugateReduced(x[1..], w);
      ConjugateBack(x[1..], w);
      AroundBack(a, v);
      OneLetter(-a, Around(a, v));
      ConjugatesTrans(Around(a, v), v, w);
    }
  }

  lemma {:induction false} OneLetter(a: int, w: seq<int>)
    requires a != 0
    ensures Conjugates(w, Around(a, w))
  {
    assert [a][1..] == [] && Conjugate([], w) == w;
    assert Conjugate([a], w) == Around(a, w);
  }

  lemma {:induction false} ConjugatesBack(w: seq<int>, u: seq<int>)
    requires w != [] && FreelyReduced(w) && Word(w) && Conjugates(w, u)
    ensures Conjugates(u, w)
  {
    var x :| Word(x) && u == Conjugate(x, w);
    ConjugateBack(x, w);
  }

  /** A word is conjugate to its cyclically reduced form. */
  lemma {:induction false} CoreConjugates(w: seq<int>)
    requires w != [] && FreelyReduced(w) && Word(w)
    ensures Conjugates(Core(w), w) && Word(Core(w))
    decreases |w|
  {
    var n := |w|;
    if n >= 2 && w[0] == -w[n - 1] {
      var u := w[1..n - 1];
      assert Stays(w, 0) && Stays(w, n - 2);
      forall t | 0 <= t < |u| - 1
        ensures Stays(u, t)
      {
        assert Stays(w, t + 1);
      }
      CoreConjugates(u);
      AroundOutside(w[0], u);
      assert [w[0]] + u + [-w[0]] == w;
      OneLetter(w[0], u);
      ConjugatesTrans(Core(w), u, w);
    } else {
      assert Conjugate([], w) == w;
    }
  }

  ghost predicate CyclicallyReduced(w: seq<int>)
  {
    w != [] && FreelyReduced(w) && Word(w) && (|w| >= 2 ==> w[0] != -w[|w| - 1])
  }

  /** Rotations of a cyclically reduced word are conjugate to it. */
  lemma {:induction false} RotConjugates(w: seq<int>, i: nat)
    requires CyclicallyReduced(w) && i < |w|
    ensures Conjugates(w, Rot(w, i))
  {
    if i == 0 {
      RotNone(w);
      assert Conjugate([], w) == w;
    } else {
      var v := Rot(w, i - 1);
      RotConjugates(w, i - 1);
      RotAt(w, i - 1, 0);
      RotAt(w, i - 1, |w| - 1);
      assert i > 1 ==> Stays(w, i - 2);
      AroundFront(-v[0], v);
      OneLetter(-v[0], v);
      RotRot(w, i - 1, 1);
      ConjugatesTrans(w, v, Rot(w, i));
    }
  }

  lemma {:induction false} TurnedConjugates(w: seq<int>, u: seq<int>)
    requires CyclicallyReduced(w) && Turned(w, u)
    ensures Conjugates(w, u) || Conjugates(Inverse(w), u)
  {
    if i :| 0 <= i < |w| && u == Rot(w, i) {
      RotConjugates(w, i);
    } else {
      var i :| 0 <= i < |w| && u == Rot(Inverse(w), i);
      InverseStays(w);
      InverseWord(w);
      RotConjugates(Inverse(w), i);
    }
  }

  lemma {:induction false} InverseReduced(w: seq<int>)
    requires FreelyReduced(w)
    ensures FreelyReduced(Inverse(w))
  {
    var v := Inverse(w);
    forall t | 0 <= t < |v| - 1
      ensures Stays(v, t)
    {
      InverseAt(w, t);
      InverseAt(w, t + 1);
      assert Stays(w, |w| - 2 - t);
    }
  }

  /**
    A word that is conjugate to w or to its inverse has the same cyclically reduced form, up to rotation and
    inversion.
   */
  lemma {:induction false} ConjugateCores(w: seq<int>, u: seq<int>)
    requires w != [] && FreelyReduced(w) && Word(w) && (Conjugates(w, u) || Conjugates(Inverse(w), u))
    ensures Turned(Core(w), Core(u))
  {
    if Conjugates(w, u) {
      var x :| Word(x) && u == Conjugate(x, w);
      ConjugateTurned(x, w);
    } else {
      var v := Inverse(w);
      var x :| Word(x) && u == Conjugate(x, v);
      InverseReduced(w);
      InverseWord(w);
      ConjugateTurned(x, v);
      CoreInverse(w);
      CoreNonempty(w);
      var c := Core(w);
      RotNone(Inverse(c));
      assert Turned(c, Inverse(c));
      TurnedTwice(c, Inverse(c), Core(u));
    }
  }

  /** And conversely. */
  lemma {:induction false} CoresConjugate(w: seq<int>, u: seq<int>)
    requires w != [] && FreelyReduced(w) && Word(w) && u != [] && FreelyReduced(u) && Word(u) &&
             Turned(Core(w), Core(u))
    ensures Conjugates(w, u) || Conjugates(Inverse(w), u)
  {
    var c, d := Core(w), Core(u);
    CoreConjugates(w);
    CoreReduced(w);
    CoreNonempty(w);
    CoreConjugates(u);
    TurnedConjugates(c, d);
    if Conjugates(c, d) {
      ConjugatesBack(c, w);
      ConjugatesTrans(w, c, d);
      ConjugatesTrans(w, d, u);
    } else {
      var v := Inverse(w);
      InverseReduced(w);
      InverseWord(w);
      CoreInverse(w);
      CoreConjugates(v);
      CoreReduced(v);
      CoreNonempty(v);
      ConjugatesBack(Core(v), v);
      ConjugatesTrans(v, Core(v), d);
      ConjugatesTrans(v, d, u);
    }
  }

  /**
    Freely reduced relators get the same representative if and only if one is conjugate to the other or to the inverse
    of the other, in the free group.
   */
  lemma {:induction false} SameRepresentative(w: seq<int>, u: seq<int>, r: seq<int>, s: seq<int>)
    requires w != [] && FreelyReduced(w) && Word(w) && u != [] && FreelyReduced(u) && Word(u)
    requires Largest(Core(w), r) && Largest(Core(u), s)
    ensures r == s <==> Conjugates(w, u) || Conjugates(Inverse(w), u)
  {
    if r == s {
      TurnedBack(Core(u), s);
      TurnedTwice(Core(w), r, Core(u));
      CoresConjugate(w, u);
    }
    if Conjugates(w, u) || Conjugates(Inverse(w), u) {
      ConjugateCores(w, u);
      LargestTurned(Core(w), Core(u), r, s);
    }
  }

  /**
    A proper rotation of a reduced word is reduced if and only if the ends of the word do not cancel; then it
    is a conjugate.
   */
  lemma {:induction false} ReducedRotation(w: seq<int>, i: nat)
    requires FreelyReduced(w) && Word(w) && 0 < i < |w|
    ensures FreelyReduced(Rot(w, i)) <==> w[0] != -w[|w| - 1]
    ensures w[0] != -w[|w| - 1] ==> Conjugates(w, Rot(w, i))
  {
    var n, v := |w|, Rot(w, i);
    RotAt(w, i, n - 1 - i);
    RotAt(w, i, n - i);
    if w[0] == -w[n - 1] {
      assert !Stays(v, n - 1 - i);
    } else {
      forall t | 0 <= t < n - 1
        ensures Stays(v, t)
      {
        RotAt(w, i, t);
        RotAt(w, i, t + 1);
        if t < n - 1 - i {
          assert Stays(w, i + t);
        } else if t > n - 1 - i {
          assert Stays(w, i + t - n);
        }
      }
      RotConjugates(w, i);
    }
  }

  /** A rotation that is not reduced may get another representative: here even one of another length. */
  lemma {:induction false} UnreducedRotation()
    ensures FreelyReduced([1, 2, -1]) && Rot([1, 2, -1], 1) == [2, -1, 1]
    ensures |Core([1, 2, -1])| == 1 && |Core(Rot([1, 2, -1], 1))| == 3
  {
    var w := [1, 2, -1];
    RotAt(w, 1, 0);
    RotAt(w, 1, 1);
    RotAt(w, 1, 2);
    assert Stays(w, 0) && Stays(w, 1);
    assert Rot(w, 1) == [2, -1, 1];
    assert w[1..2] == [2] && Core([2]) == [2];
  }
}
