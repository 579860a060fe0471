/**
  What the scan of a relator from a coset can come to: a gap of one letter, a minimal
  gap of two letters, or nothing that could be entered into the table.
 */
module Scans {
  import opened CosetTable
  import opened Coincidence
  import opened Tracing
  import opened RelatorLoops

  /** The scan of w from c is complete up to letter i. */
  ghost predicate Gap(t: Table, w: Relator, c: int, i: int, lc: int, rc: int)
    requires Shape(t)
  {
    && Laid(t.ref, w) && 0 <= i < w.len && LetterAt(t.ref, w, i)
    && Cell(t, w.nums[w.start + 2 * i], lc) && 1 <= rc <= t.n && 1 <= c <= t.n
    && Walk(t, w, c, 0, i, lc) && Walk(t, w, rc, i + 1, w.len, c)
  }

  /** Letter i is the first one that cannot be followed backwards. */
  ghost predicate Met(t: Table, w: Relator, c: int, i: int, lc: int, rc: int)
    requires Shape(t)
  {
    Gap(t, w, c, i, lc, rc) && (i == 0 || Missing(t, w.nums[w.start + 2 * i - 1], rc))
  }

  /** Letters i and i + 1 are missing, and no others. */
  ghost predicate MinimalGap(t: Table, w: Relator, c: int, i: int, lc: int, rc: int)
    requires Shape(t)
  {
    && Laid(t.ref, w) && 0 <= i && i + 2 <= w.len && LetterAt(t.ref, w, i) && LetterAt(t.ref, w, i + 1)
    && 1 <= c <= t.n && Walk(t, w, c, 0, i, lc) && Walk(t, w, rc, i + 2, w.len, c)
    && Missing(t, w.nums[w.start + 2 * i], lc) && Missing(t, w.nums[w.start + 2 * i + 1], rc)
  }

  /** The two ends of a coincidence: an entry that is there, and the one the relator asks for. */
  ghost predicate Clash(t: Table, g: int, lc: int, rc: int, a: int, b: int)
    requires Shape(t) && Cell(t, g, lc) && 1 <= rc <= t.n
  {
    InvFacts(t, g);
    if At(t, g, lc) > 0 then a == At(t, g, lc) && b == rc && a != b
    else a == At(t, Inv(g), rc) && a > 0 && b == lc
  }

  /** Marks both missing letters of a minimal gap. */
  function MarkBoth(t: Table, g: int, lc: int, h: int, rc: int): (u: Table)
    requires Shape(t) && Cell(t, g, lc) && Cell(t, h, rc)
    ensures Shape(u) && SameFrame(t, u)
  {
    Put(Put(t, g, lc, -1), h, rc, -1)
  }

  lemma {:induction false} MarkBothSame(t: Table, g: int, lc: int, h: int, rc: int)
    requires Shape(t) && Missing(t, g, lc) && Missing(t, h, rc)
    ensures SamePositive(t, MarkBoth(t, g, lc, h, rc))
  {
  }

  /** There is nothing to be entered: all gaps of one letter are closed, and there is no minimal gap to be marked. */
  ghost predicate Idle(t: Table, gaps: bool, w: Relator, c: int)
    requires Shape(t)
  {
    && (forall i, lc, rc {:trigger Gap(t, w, c, i, lc, rc)} ::
          Gap(t, w, c, i, lc, rc) ==> At(t, w.nums[w.start + 2 * i], lc) == rc)
    && (gaps ==> forall i, lc, rc :: !MinimalGap(t, w, c, i, lc, rc))
  }

  // ----- walks from either end

  lemma {:induction false} WalkSplit(t: Table, w: Relator, c: int, i: int, m: int, j: int, e: int) returns (d: int)
    requires Shape(t) && w.start >= 0 && w.start + 2 * w.len - 1 <= |w.nums| && 0 <= i <= m <= j <= w.len
    requires Walk(t, w, c, i, j, e)
    ensures Walk(t, w, c, i, m, d) && Walk(t, w, d, m, j, e)
    decreases m - i
  {
    d := c;
    if i < m {
      d := WalkSplit(t, w, At(t, w.nums[w.start + 2 * i], c), i + 1, m, j, e);
    }
  }

  /** Walks from one coset lead to one coset. */
  lemma {:induction false} WalkSame(t: Table, w: Relator, c: int, i: int, j: int, d: int, e: int)
    requires Shape(t) && w.start >= 0 && w.start + 2 * w.len - 1 <= |w.nums| && 0 <= i && j <= w.len
    requires Walk(t, w, c, i, j, d) && Walk(t, w, c, i, j, e)
    ensures d == e
    decreases j - i
  {
    if i < j {
      WalkSame(t, w, At(t, w.nums[w.start + 2 * i], c), i + 1, j, d, e);
    }
  }

  /** Walks to one coset start at one coset. */
  lemma {:induction false} WalkBackSame(t: Table, w: Relator, c: int, d: int, i: int, j: int, e: int)
    requires Shape(t) && Consistent(t) && w.start >= 0 && w.start + 2 * w.len - 1 <= |w.nums| && 0 <= i && j <= w.len
    requires Walk(t, w, c, i, j, e) && Walk(t, w, d, i, j, e)
    ensures c == d
    decreases j - i
  {
    if i < j {
      var g := w.nums[w.start + 2 * i];
      WalkBackSame(t, w, At(t, g, c), At(t, g, d), i + 1, j, e);
      assert Paired(t, g, c) && Paired(t, g, d);
    }
  }

  /** No walk from the beginning gets beyond a missing letter. */
  lemma {:induction false} ForwardStops(t: Table, w: Relator, c: int, i: int, lc: int, k: int, d: int)
    requires Shape(t) && w.start >= 0 && w.start + 2 * w.len - 1 <= |w.nums| && 0 <= i < w.len && 0 <= k <= w.len
    requires Walk(t, w, c, 0, i, lc) && Missing(t, w.nums[w.start + 2 * i], lc) && Walk(t, w, c, 0, k, d)
    ensures k <= i && (k == i ==> d == lc)
    ensures k < i ==> Defined(t, w.nums[w.start + 2 * k], d)
  {
    if k > i {
      var m := WalkSplit(t, w, c, 0, i, k, d);
      WalkSame(t, w, c, 0, i, lc, m);
    } else {
      var m := WalkSplit(t, w, c, 0, k, i, lc);
      WalkSame(t, w, c, 0, k, d, m);
    }
  }

  /** Nor does a walk to the end start before one. */
  lemma {:induction false} BackwardStops(t: Table, w: Relator, c: int, j: int, rc: int, k: int, d: int)
    requires Shape(t) && Consistent(t) && Laid(t.ref, w) && 0 < j <= w.len && 0 <= k <= w.len
    requires Walk(t, w, rc, j, w.len, c) && Missing(t, w.nums[w.start + 2 * j - 3], rc) && Walk(t, w, d, k, w.len, c)
    ensures k >= j && (k == j ==> d == rc)
    ensures k > j ==> Defined(t, w.nums[w.start + 2 * k - 3], d)
  {
    if k < j {
      var m := WalkSplit(t, w, d, k, j, w.len, c);
      WalkBackSame(t, w, m, rc, j, w.len, c);
      LastLetter(t, w, d, k, j, m);
    } else {
      var m := WalkSplit(t, w, rc, j, k, w.len, c);
      WalkBackSame(t, w, m, d, k, w.len, c);
      if k > j {
        LastLetter(t, w, rc, j, k, m);
      }
    }
  }

  /** The last letter of a walk can be followed backwards. */
  lemma {:induction false} LastLetter(t: Table, w: Relator, c: int, i: int, j: int, d: int)
    requires Shape(t) && Consistent(t) && Laid(t.ref, w) && 0 <= i < j <= w.len && Walk(t, w, c, i, j, d)
    ensures Defined(t, w.nums[w.start + 2 * j - 3], d)
  {
    var x := WalkSplit(t, w, c, i, j - 1, j, d);
    var g := w.nums[w.start + 2 * (j - 1)];
    assert LetterAt(t.ref, w, j - 1);
    assert Walk(t, w, At(t, g, x), j, j, d);
    assert Paired(t, g, x);
  }

  // ----- where there is nothing to do

  /** A relator that closes has nothing to say. */
  lemma {:induction false} ClosedIdle(t: Table, gaps: bool, w: Relator, c: int)
    requires Shape(t) && Consistent(t) && Laid(t.ref, w) && 1 <= c <= t.n && Walk(t, w, c, 0, w.len, c)
    ensures Idle(t, gaps, w, c)
  {
    forall i, lc, rc | Gap(t, w, c, i, lc, rc)
      ensures At(t, w.nums[w.start + 2 * i], lc) == rc
    {
      var m := WalkSplit(t, w, c, 0, i, w.len, c);
      WalkSame(t, w, c, 0, i, lc, m);
      WalkBackSame(t, w, At(t, w.nums[w.start + 2 * i], lc), rc, i + 1, w.len, c);
    }
    forall i, lc, rc
      ensures !MinimalGap(t, w, c, i, lc, rc)
    {
      if MinimalGap(t, w, c, i, lc, rc) {
        ForwardStops(t, w, c, i, lc, w.len, c);
      }
    }
  }

  /** Neither has one that lacks two letters, unless this is a minimal gap. */
  lemma {:induction false} WideIdle(t: Table, gaps: bool, w: Relator, c: int, i: int, lc: int, j: int, rc: int)
    requires Shape(t) && Consistent(t) && Laid(t.ref, w) && 1 <= c <= t.n && 0 <= i < j - 1 < w.len
    requires Walk(t, w, c, 0, i, lc) && Walk(t, w, rc, j, w.len, c) && (gaps ==> j != i + 2)
    requires Missing(t, w.nums[w.start + 2 * i], lc) && Missing(t, w.nums[w.start + 2 * j - 3], rc)
    ensures Idle(t, gaps, w, c)
  {
    forall k, x, y
      ensures !Gap(t, w, c, k, x, y) && (gaps ==> !MinimalGap(t, w, c, k, x, y))
    {
      if Gap(t, w, c, k, x, y) {
        ForwardStops(t, w, c, i, lc, k, x);
        BackwardStops(t, w, c, j, rc, k + 1, y);
      }
      if gaps && MinimalGap(t, w, c, k, x, y) {
        ForwardStops(t, w, c, i, lc, k, x);
        BackwardStops(t, w, c, j, rc, k + 2, y);
        BackwardStops(t, w, c, k + 2, y, j, rc);
      }
    }
  }

  // ----- a scan comes to one thing only

  lemma {:induction false} MinimalGapUnique(t: Table, w: Relator, c: int, i: int, lc: int, rc: int, i': int, lc': int,
                                            rc': int)
    requires Shape(t) && Consistent(t) && MinimalGap(t, w, c, i, lc, rc) && MinimalGap(t, w, c, i', lc', rc')
    ensures i == i' && lc == lc' && rc == rc'
  {
    ForwardStops(t, w, c, i, lc, i', lc');
    ForwardStops(t, w, c, i', lc', i, lc);
    BackwardStops(t, w, c, i + 2, rc, i' + 2, rc');
  }

  lemma {:induction false} MinimalGapAlone(t: Table, w: Relator, c: int, i: int, lc: int, rc: int, k: int, x: int,
                                           y: int)
    requires Shape(t) && Consistent(t) && MinimalGap(t, w, c, i, lc, rc)
    ensures !Gap(t, w, c, k, x, y)
  {
    if Gap(t, w, c, k, x, y) {
      ForwardStops(t, w, c, i, lc, k, x);
      BackwardStops(t, w, c, i + 2, rc, k + 1, y);
    }
  }

  lemma {:induction false} MetUnique(t: Table, w: Relator, c: int, i: int, lc: int, rc: int, i': int, lc': int,
                                     rc': int)
    requires Shape(t) && Consistent(t) && Met(t, w, c, i, lc, rc) && Met(t, w, c, i', lc', rc')
    ensures i == i' && lc == lc' && rc == rc'
  {
    if i > 0 {
      BackwardStops(t, w, c, i + 1, rc, i' + 1, rc');
    }
    if i' > 0 {
      BackwardStops(t, w, c, i' + 1, rc', i + 1, rc);
    }
    WalkBackSame(t, w, rc, rc', i + 1, w.len, c);
    WalkSame(t, w, c, 0, i, lc, lc');
  }
}
