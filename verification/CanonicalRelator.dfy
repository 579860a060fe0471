/** The canonical representative of a relator. */
module CanonicalRelator {
  import opened Rotations
  import opened InPlaceRotation

  /** The cyclically reduced form. */
  function Core(w: seq<int>): seq<int>
    decreases |w|
  {
    if |w| >= 2 && w[0] == -w[|w| - 1] then Core(w[1..|w| - 1]) else w
  }

  ghost predicate FreelyReduced(w: seq<int>)
  {
    forall t {:trigger Stays(w, t)} :: 0 <= t < |w| - 1 ==> Stays(w, t)
  }

  /** Letters t and t + 1 do not cancel. */
  ghost predicate Stays(w: seq<int>, t: int)
    requires 0 <= t < |w| - 1
  {
    w[t] != -w[t + 1]
  }

  /** A nonempty reduced word does not vanish. */
  lemma {:induction false} CoreNonempty(w: seq<int>)
    requires w != [] && FreelyReduced(w)
    ensures Core(w) != []
    decreases |w|
  {
    if |w| == 2 {
      assert Stays(w, 0);
    } else if |w| > 2 && w[0] == -w[|w| - 1] {
      var u := w[1..|w| - 1];
      forall t | 0 <= t < |u| - 1
        ensures Stays(u, t)
      {
        assert Stays(w, t + 1);
      }
      CoreNonempty(u);
    }
  }

  /** Moves the entries i .. m - 1 to the front. */
  method ShiftDown(rel: array<int>, i: nat, m: nat)
    requires i <= m <= rel.Length
    modifies rel
    ensures rel[..m - i] == old(rel[i..m])
  {
    ghost var w := rel[..];
    var j := i;
    while j < m
      invariant i <= j <= m
      invariant forall t {:trigger rel[t]} :: 0 <= t < j - i ==> rel[t] == w[i + t]
      invariant forall t :: j <= t < rel.Length ==> rel[t] == w[t]
    {
      rel[j - i] := rel[j];
      j := j + 1;
    }
    assert old(rel[i..m]) == w[i..m];
  }

  /** Cuts off inverse letters at the ends. */
  method CyclicReduce(rel: array<int>) returns (leng: nat)
    modifies rel
    ensures leng <= rel.Length && rel[..leng] == Core(old(rel[..]))
  {
    ghost var w := rel[..];
    var i, leng1 := 0, rel.Length - 1;
    assert w[0..|w|] == w;
    while i < leng1 && rel[i] == -rel[leng1]
      invariant 0 <= i <= leng1 + 1 <= rel.Length
      invariant Core(w) == Core(w[i..leng1 + 1])
      decreases leng1 - i
    {
      assert w[i..leng1 + 1][1..leng1 - i] == w[i + 1..leng1];
      i, leng1 := i + 1, leng1 - 1;
    }
    assert Core(w) == w[i..leng1 + 1];
    if i > 0 {
      ShiftDown(rel, i, leng1 + 1);
    }
    leng := leng1 - i + 1;
  }

  /** First place of the largest letter, and last place of the smallest. */
  method Extremes(rel: array<int>, n: nat) returns (max: int, min: int, i: nat, j: nat)
    requires 1 <= n <= rel.Length
    ensures i < n && j < n && max == rel[i] && min == rel[j]
    ensures forall x :: 0 <= x < n ==> min <= rel[x] <= max
    ensures forall x :: 0 <= x < i ==> rel[x] < max
    ensures forall x :: j < x < n ==> min < rel[x]
  {
    max, min, i, j := rel[0], rel[0], 0, 0;
    var k := 1;
    while k < n
      invariant 1 <= k <= n && i < k && j < k && max == rel[i] && min == rel[j]
      invariant forall x :: 0 <= x < k ==> min <= rel[x] <= max
      invariant forall x :: 0 <= x < i ==> rel[x] < max
      invariant forall x :: j < x < k ==> min < rel[x]
    {
      var next := rel[k];
      if next > max {
        max, i := next, k;
      } else if next <= min {
        min, j := next, k;
      }
      k := k + 1;
    }
  }

  /** c says how a compares with b: smaller, equal or larger. */
  ghost predicate Ordered(a: seq<int>, b: seq<int>, c: int)
    requires |a| == |b|
  {
    (c < 0 ==> Below(a, b)) && (c == 0 ==> a == b) && (c > 0 ==> Below(b, a))
  }

  /** At the first difference the order is decided. */
  lemma {:induction false} Decided(a: seq<int>, b: seq<int>, l: nat)
    requires |a| == |b| && l < |a| && a[..l] == b[..l]
    ensures a[l] < b[l] ==> Below(a, b)
    ensures a[l] > b[l] ==> Below(b, a)
    ensures a[l] == b[l] ==> a[..l + 1] == b[..l + 1]
  {
    assert a[l] < b[l] ==> DifferAt(a, b, l);
    assert a[l] > b[l] ==> DifferAt(b, a, l);
  }

  /** Compares the rotations at k and at i. */
  method CompareForward(rel: array<int>, n: nat, i: nat, k: nat) returns (c: int)
    requires n <= rel.Length && i < n && k < n
    ensures Ordered(Rot(rel[..n], k), Rot(rel[..n], i), c)
  {
    ghost var w := rel[..n];
    ghost var a, b := Rot(w, k), Rot(w, i);
    var ii, kk, l := i, k, 0;
    while l < n
      invariant l <= n && (l < n ==> ii == Wrap(i + l, n) && kk == Wrap(k + l, n)) && a[..l] == b[..l]
    {
      RotAt(w, k, l);
      RotAt(w, i, l);
      Decided(a, b, l);
      if rel[kk] < rel[ii] {
        return -1;
      } else if rel[kk] > rel[ii] {
        return 1;
      }
      ii := Add(ii, 1, n);
      kk := Add(kk, 1, n);
      l := l + 1;
    }
    assert a[..n] == a && b[..n] == b;
    c := 0;
  }

  /** The start of a largest rotation, from the first place of the largest letter on. */
  method BestForward(rel: array<int>, n: nat, first: nat) returns (i: nat)
    requires first < n <= rel.Length && forall x :: 0 <= x < first ==> rel[x] < rel[first]
    ensures Best(rel[..n], i, n)
  {
    ghost var w := rel[..n];
    i := first;
    BestFirst(w, i);
    var k := i + 1;
    while k < n
      invariant i < k <= n && Best(w, i, k)
    {
      var c := CompareForward(rel, n, i, k);
      BestOn(w, i, k, c);
      if c == 0 {
        return;
      }
      if c > 0 {
        i := k;
      }
      k := k + 1;
    }
  }

  /** The place t steps before place k, going round. */
  function Before(k: nat, t: nat, n: nat): int
  {
    if t <= k then k - t else k - t + n
  }

  /** The inverse word, read off backwards from letter k. */
  function Backward(w: seq<int>, k: nat): (r: seq<int>)
    requires k < |w|
    ensures |r| == |w|
  {
    BackFrom(w, k, |w|)
  }

  /** The first m letters of it. */
  function BackFrom(w: seq<int>, k: nat, m: nat): (r: seq<int>)
    requires k < |w| && m <= |w|
    ensures |r| == m
  {
    if m == 0 then [] else BackFrom(w, k, m - 1) + [-w[Before(k, m - 1, |w|)]]
  }

  lemma {:induction false} BackAt(w: seq<int>, k: nat, m: nat, t: nat)
    requires k < |w| && t < m <= |w|
    ensures BackFrom(w, k, m)[t] == -w[Before(k, t, |w|)]
  {
    if t < m - 1 {
      BackAt(w, k, m - 1, t);
    }
  }

  lemma {:induction false} BackwardIs(w: seq<int>, k: nat)
    requires k < |w|
    ensures Backward(w, k) == Rot(Inverse(w), |w| - 1 - k)
  {
    forall t | 0 <= t < |w|
      ensures Backward(w, k)[t] == Rot(Inverse(w), |w| - 1 - k)[t]
    {
      BackAt(w, k, |w|, t);
      RotAt(Inverse(w), |w| - 1 - k, t);
      InverseAt(w, Wrap(|w| - 1 - k + t, |w|));
    }
  }

  /** Compares the rotations of the inverse that start with the inverses of letters k and j. */
  method CompareBackward(rel: array<int>, n: nat, j: nat, k: nat) returns (c: int)
    requires n <= rel.Length && j < n && k < n
    ensures Ordered(Backward(rel[..n], k), Backward(rel[..n], j), c)
  {
    ghost var w := rel[..n];
    ghost var a, b := Backward(w, k), Backward(w, j);
    var leng1 := n - 1;
    var jj, kk, l := j, k, 0;
    while l < n
      invariant l <= n && (l < n ==> jj == Before(j, l, n) && kk == Before(k, l, n)) && a[..l] == b[..l]
    {
      BackAt(w, k, n, l);
      BackAt(w, j, n, l);
      Decided(a, b, l);
      if rel[kk] > rel[jj] {
        return -1;
      } else if rel[kk] < rel[jj] {
        return 1;
      }
      jj := Add(jj, leng1, n);
      kk := Add(kk, leng1, n);
      l := l + 1;
    }
    assert a[..n] == a && b[..n] == b;
    c := 0;
  }

  /** Reading backwards from letter j gives a largest word, among those starting after letter k. */
  ghost predicate BestBack(w: seq<int>, j: nat, k: int)
  {
    -1 <= k < j < |w| && Best(Inverse(w), |w| - 1 - j, |w| - 1 - k)
  }

  /** The last place of the smallest letter is the first place of the largest letter of the inverse. */
  lemma {:induction false} LastFirst(w: seq<int>, j: nat)
    requires j < |w| && forall x :: j < x < |w| ==> w[j] < w[x]
    ensures BestBack(w, j, j - 1)
  {
    var v, i := Inverse(w), |w| - 1 - j;
    forall x | 0 <= x < i
      ensures v[x] < v[i]
    {
      InverseAt(w, x);
      InverseAt(w, i);
    }
    BestFirst(v, i);
  }

  /** What one comparison with a further rotation of the inverse says. */
  lemma {:induction false} BestBackwardOn(w: seq<int>, j: nat, k: nat, c: int)
    requires BestBack(w, j, k) && Ordered(Backward(w, k), Backward(w, j), c)
    ensures c == 0 ==> BestBack(w, j, -1)
    ensures c > 0 ==> BestBack(w, k, k - 1)
    ensures c < 0 ==> BestBack(w, j, k - 1)
  {
    var v, a, b := Inverse(w), |w| - 1 - j, |w| - 1 - k;
    BackwardIs(w, j);
    BackwardIs(w, k);
    BestOn(v, a, b, c);
  }

  lemma {:induction false} BestOn(v: seq<int>, a: nat, b: nat, c: int)
    requires a < b < |v| && Best(v, a, b) && Ordered(Rot(v, b), Rot(v, a), c)
    ensures c == 0 ==> Best(v, a, |v|)
    ensures c > 0 ==> Best(v, b, b + 1)
    ensures c < 0 ==> Best(v, a, b + 1)
  {
    if c == 0 {
      BestPeriodic(v, a, b);
    } else if c > 0 {
      BestLarger(v, a, b);
    } else {
      BestSmaller(v, a, b);
    }
  }

  /** The same for the inverse, from the last place of the smallest letter on, downwards. */
  method BestBackward(rel: array<int>, n: nat, last: nat) returns (j: nat)
    requires last < n <= rel.Length && forall x :: last < x < n ==> rel[last] < rel[x]
    ensures BestBack(rel[..n], j, -1)
  {
    ghost var w := rel[..n];
    j := last;
    LastFirst(w, j);
    var k := j - 1;
    while k >= 0
      invariant -1 <= k < j < n && rel[..n] == w && BestBack(w, j, k)
    {
      var c := CompareBackward(rel, n, j, k);
      BestBackwardOn(w, j, k, c);
      if c == 0 {
        return;
      }
      if c > 0 {
        j := k;
      }
      k := k - 1;
    }
  }

  /** Compares a rotation of the inverse with a rotation of the word. */
  method CompareBoth(rel: array<int>, n: nat, i: nat, j: nat) returns (c: int)
    requires n <= rel.Length && i < n && j < n
    ensures Ordered(Backward(rel[..n], j), Rot(rel[..n], i), c)
  {
    ghost var w := rel[..n];
    ghost var a, b := Backward(w, j), Rot(w, i);
    var leng1 := n - 1;
    var ii, jj, l := i, j, 0;
    while l < n
      invariant l <= n && (l < n ==> ii == Wrap(i + l, n) && jj == Before(j, l, n)) && a[..l] == b[..l]
    {
      BackAt(w, j, n, l);
      RotAt(w, i, l);
      Decided(a, b, l);
      if -rel[jj] < rel[ii] {
        return -1;
      } else if -rel[jj] > rel[ii] {
        return 1;
      }
      ii := Add(ii, 1, n);
      jj := Add(jj, leng1, n);
      l := l + 1;
    }
    assert a[..n] == a && b[..n] == b;
    c := 0;
  }

  /** Inverts the first n entries in place. */
  method InvertInPlace(rel: array<int>, n: nat)
    requires n <= rel.Length
    modifies rel
    ensures rel[..n] == Inverse(old(rel[..n]))
  {
    ghost var w := rel[..n];
    ghost var v := Inverse(w);
    var k := 0;
    while k < n / 2
      invariant 0 <= k <= n / 2
      invariant forall t :: 0 <= t < k ==> rel[t] == v[t]
      invariant forall t :: k <= t < n - k ==> rel[t] == w[t]
      invariant forall t :: n - k <= t < n ==> rel[t] == v[t]
    {
      var next := rel[k];
      InverseAt(w, k);
      InverseAt(w, n - 1 - k);
      rel[k] := -rel[n - 1 - k];
      rel[n - 1 - k] := -next;
      k := k + 1;
    }
    if n % 2 != 0 {
      InverseAt(w, n / 2);
      rel[n / 2] := -rel[n / 2];
    }
  }

  lemma {:induction false} AtMostHead(a: seq<int>, b: seq<int>)
    requires |a| == |b| && a != [] && AtMost(a, b)
    ensures a[0] <= b[0]
  {
    if a != b {
      var d: nat :| DifferAt(a, b, d);
      assert d > 0 ==> a[0] == a[..d][0] && b[0] == b[..d][0];
    }
  }

  /** A best rotation starts with a largest letter. */
  lemma {:induction false} BestHead(w: seq<int>, i: nat, top: int, x: nat)
    requires Best(w, i, |w|) && x < |w| && w[x] == top && forall y :: 0 <= y < |w| ==> w[y] <= top
    ensures Rot(w, i)[0] == top
  {
    RotAt(w, x, 0);
    RotAt(w, i, 0);
    AtMostHead(Rot(w, x), Rot(w, i));
  }

  /** A word whose first letter is larger than all letters of another is larger than its rotations. */
  lemma {:induction false} HeadWins(w: seq<int>, r: seq<int>)
    requires |r| == |w| && w != [] && forall y :: 0 <= y < |w| ==> w[y] < r[0]
    ensures forall x {:trigger Rot(w, x)} :: 0 <= x < |w| ==> AtMost(Rot(w, x), r)
  {
    forall x | 0 <= x < |w|
      ensures AtMost(Rot(w, x), r)
    {
      RotAt(w, x, 0);
      assert DifferAt(Rot(w, x), r, 0);
    }
  }

  lemma {:induction false} BestOf(w: seq<int>, i: nat)
    requires Best(w, i, |w|)
    ensures forall x {:trigger Rot(w, x)} :: 0 <= x < |w| ==> AtMost(Rot(w, x), Rot(w, i))
  {
  }

  /** The best rotation of the word is not smaller than that of the inverse. */
  lemma {:induction false} ForwardLargest(w: seq<int>, i: nat, j: nat)
    requires Best(w, i, |w|) && BestBack(w, j, -1)
    requires AtMost(Backward(w, j), Rot(w, i))
    ensures Largest(w, Rot(w, i))
  {
    var r, v := Rot(w, i), Inverse(w);
    BackwardIs(w, j);
    forall x | 0 <= x < |w|
      ensures AtMost(Rot(v, x), r)
    {
      AtMostTrans(Rot(v, x), Rot(v, |w| - 1 - j), r);
    }
  }

  lemma {:induction false} BackwardLargest(w: seq<int>, i: nat, j: nat)
    requires Best(w, i, |w|) && BestBack(w, j, -1)
    requires Below(Rot(w, i), Backward(w, j))
    ensures Largest(w, Backward(w, j))
  {
    var v := Inverse(w);
    var r := Rot(v, |w| - 1 - j);
    BackwardIs(w, j);
    forall x | 0 <= x < |w|
      ensures AtMost(Rot(w, x), r)
    {
      AtMostTrans(Rot(w, x), Rot(w, i), r);
    }
  }

  lemma {:induction false} ForwardOnly(w: seq<int>, i: nat, max: int, x: nat)
    requires Best(w, i, |w|) && x < |w| && w[x] == max && forall y :: 0 <= y < |w| ==> -max < w[y] <= max
    ensures Largest(w, Rot(w, i))
  {
    BestHead(w, i, max, x);
    var v := Inverse(w);
    forall y | 0 <= y < |v|
      ensures v[y] < max
    {
      InverseAt(w, y);
    }
    HeadWins(v, Rot(w, i));
  }

  lemma {:induction false} BackwardOnly(w: seq<int>, j: nat, min: int, x: nat)
    requires BestBack(w, j, -1)
    requires x < |w| && w[x] == min && forall y :: 0 <= y < |w| ==> min <= w[y] < -min
    ensures Largest(w, Backward(w, j))
  {
    var v := Inverse(w);
    var r := Rot(v, |w| - 1 - j);
    BackwardIs(w, j);
    forall y | 0 <= y < |v|
      ensures v[y] <= -min
    {
      InverseAt(w, y);
    }
    InverseAt(w, |w| - 1 - x);
    BestHead(v, |w| - 1 - j, -min, |w| - 1 - x);
    HeadWins(w, r);
    BestOf(v, |w| - 1 - j);
  }

  /** Where the largest word starts: in the word, or, if i is n, in the inverse, at letter j. */
  method FindLargest(rel: array<int>, n: nat) returns (i: nat, j: nat)
    requires 1 <= n <= rel.Length
    ensures i <= n
    ensures i < n ==> Largest(rel[..n], Rot(rel[..n], i))
    ensures i == n ==> j < n && Largest(rel[..n], Backward(rel[..n], j))
  {
    ghost var w := rel[..n];
    var max, min;
    max, min, i, j := Extremes(rel, n);
    ghost var i0, j0 := i, j;
    if max < -min {
      i := n;
    } else {
      i := BestForward(rel, n, i);
    }
    if -max < min {
      j := n;
    } else {
      j := BestBackward(rel, n, j);
    }
    if -min == max {
      var c := CompareBoth(rel, n, i, j);
      if c > 0 {
        BackwardLargest(w, i, j);
        i := n;
      } else {
        ForwardLargest(w, i, j);
      }
    } else if max < -min {
      BackwardOnly(w, j, min, j0);
    } else {
      ForwardOnly(w, i, max, i0);
    }
  }

  /**
    Replaces a relator by its canonical representative: the largest among the rotations of its
    cyclically reduced form and of the inverse of that. The result is the new length.
   */
  method MakeCanonical(rel: array<int>) returns (leng: nat)
    modifies rel
    ensures leng <= rel.Length && leng == |Core(old(rel[..]))|
    ensures leng > 0 ==> Largest(Core(old(rel[..])), rel[..leng])
  {
    leng := CyclicReduce(rel);
    if leng > 0 {
      var i, j := FindLargest(rel, leng);
      TurnInPlace(rel, leng, i, j);
    }
  }

  /** Lets the word start at letter i. */
  method StartAt(rel: array<int>, n: nat, i: nat)
    requires i < n <= rel.Length
    modifies rel
    ensures rel[..n] == Rot(old(rel[..n]), i)
  {
    if i > 0 {
      RotateInPlace(rel, n, i);
    } else {
      RotNone(rel[..n]);
    }
  }

  /** Lets the word start at letter i or, if i is n, replaces it by its inverse starting at letter j. */
  method TurnInPlace(rel: array<int>, n: nat, i: nat, j: nat)
    requires 1 <= n <= rel.Length && i <= n && (i == n ==> j < n)
    modifies rel
    ensures i < n ==> rel[..n] == Rot(old(rel[..n]), i)
    ensures i == n ==> rel[..n] == Backward(old(rel[..n]), j)
  {
    ghost var w := rel[..n];
    if i == n {
      InvertInPlace(rel, n);
      ghost var v := rel[..n];
      StartAt(rel, n, n - 1 - j);
      assert rel[..n] == Rot(v, n - 1 - j);
      BackwardIs(w, j);
    } else {
      StartAt(rel, n, i);
    }
  }

  /** Turning a cyclically reduced word gives a cyclically reduced word, if it is freely reduced. */
  lemma {:induction false} TurnedCore(w: seq<int>, r: seq<int>)
    requires FreelyReduced(w) && (|w| >= 2 ==> w[0] != -w[|w| - 1]) && Turned(w, r)
    ensures Core(r) == r
  {
    if i :| 0 <= i < |w| && r == Rot(w, i) {
      RotEnds(w, i);
    } else {
      var i :| 0 <= i < |w| && r == Rot(Inverse(w), i);
      InverseStays(w);
      RotEnds(Inverse(w), i);
    }
  }

  lemma {:induction false} InverseStays(w: seq<int>)
    requires FreelyReduced(w) && (|w| >= 2 ==> w[0] != -w[|w| - 1])
    ensures FreelyReduced(Inverse(w)) && (|w| >= 2 ==> Inverse(w)[0] != -Inverse(w)[|w| - 1])
  {
    var v := Inverse(w);
    forall t | 0 <= t < |v| - 1
      ensures Stays(v, t)
    {
      InverseAt(w, t);
      InverseAt(w, t + 1);
      assert Stays(w, |w| - 2 - t);
    }
    if |w| >= 2 {
      InverseAt(w, 0);
      InverseAt(w, |w| - 1);
    }
  }

  lemma {:induction false} RotEnds(w: seq<int>, i: nat)
    requires FreelyReduced(w) && (|w| >= 2 ==> w[0] != -w[|w| - 1]) && i < |w|
    ensures Core(Rot(w, i)) == Rot(w, i)
  {
    RotAt(w, i, 0);
    RotAt(w, i, |w| - 1);
    if i > 0 {
      assert Stays(w, i - 1);
    }
  }

  /** The core of a reduced word is reduced, also across its ends. */
  lemma {:induction false} CoreReduced(w: seq<int>)
    requires FreelyReduced(w)
    ensures FreelyReduced(Core(w)) && (|Core(w)| >= 2 ==> Core(w)[0] != -Core(w)[|Core(w)| - 1])
    decreases |w|
  {
    if |w| >= 2 && w[0] == -w[|w| - 1] {
      var u := w[1..|w| - 1];
      forall t | 0 <= t < |u| - 1
        ensures Stays(u, t)
      {
        assert Stays(w, t + 1);
      }
      CoreReduced(u);
    }
  }

  /** The representative is its own representative. */
  lemma {:induction false} CanonicalIdempotent(w: seq<int>, r: seq<int>, s: seq<int>)
    requires FreelyReduced(w) && Largest(Core(w), r) && Largest(Core(r), s)
    ensures s == r
  {
    CoreReduced(w);
    TurnedCore(Core(w), r);
    LargestTurned(Core(w), r, r, s);
  }
}
