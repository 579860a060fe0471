/**
  Words traced through an action of the generators, and what a relator scan
  finds out.
 */
module Tracing {
  import opened CosetTable
  import opened Coincidence

  // ----- actions

  /** The generator of slot g acts invertibly at x, and slots that share a column act alike. */
  ghost predicate Invertible<X(!new)>(ref: seq<nat>, act: (int, X) -> X, g: int, x: X)
    requires 1 <= g < |ref|
  {
    && act(Inv(g), act(g, x)) == x
    && (1 <= Inv(g) < |ref| && ref[g] == ref[Inv(g)] ==> act(Inv(g), x) == act(g, x))
  }

  /** The slots act as invertible maps, inverse slots as inverse maps. */
  ghost predicate Action<X(!new)>(ref: seq<nat>, act: (int, X) -> X)
  {
    forall g, x {:trigger Invertible(ref, act, g, x)} :: 1 <= g < |ref| ==> Invertible(ref, act, g, x)
  }

  /** f carries the defined entries of the table to the action. */
  ghost predicate Respects<X(!new)>(t: Table, f: int -> X, act: (int, X) -> X)
    requires Shape(t)
  {
    forall g, c {:trigger At(t, g, c)} :: Cell(t, g, c) && At(t, g, c) > 0 ==> f(At(t, g, c)) == act(g, f(c))
  }

  // ----- relators

  /**
    A relator or subgroup generator of `len` letters.  Letter k is the slot
    nums[start + 2k], and the slot before it is the one of its inverse.
   */
  datatype Relator = Relator(nums: seq<int>, start: int, len: int)

  ghost predicate Laid(ref: seq<nat>, w: Relator)
  {
    && w.start >= 1 && w.len >= 1 && w.start + 2 * w.len - 1 <= |w.nums|
    && forall k {:trigger LetterAt(ref, w, k)} :: 0 <= k < w.len ==> LetterAt(ref, w, k)
  }

  ghost predicate LetterAt(ref: seq<nat>, w: Relator, k: int)
    requires 0 <= w.start + 2 * k - 1 && w.start + 2 * k < |w.nums|
  {
    1 <= w.nums[w.start + 2 * k] < |ref| && w.nums[w.start + 2 * k - 1] == Inv(w.nums[w.start + 2 * k])
  }

  /** Letters i..j-1 of the word applied to x. */
  ghost function Trace<X(!new)>(act: (int, X) -> X, w: Relator, x: X, i: int, j: int): X
    requires w.start >= 0 && w.start + 2 * w.len - 1 <= |w.nums| && 0 <= i && j <= w.len
    decreases j - i
  {
    if i >= j then x else Trace(act, w, act(w.nums[w.start + 2 * i], x), i + 1, j)
  }

  /** The word acts trivially at x. */
  ghost predicate Trivial<X(!new)>(act: (int, X) -> X, w: Relator, x: X)
    requires w.start >= 0 && w.start + 2 * w.len - 1 <= |w.nums|
  {
    Trace(act, w, x, 0, w.len) == x
  }

  lemma {:induction false} TraceSplit<X(!new)>(act: (int, X) -> X, w: Relator, x: X, i: int, m: int, j: int)
    requires w.start >= 0 && w.start + 2 * w.len - 1 <= |w.nums| && 0 <= i <= m <= j <= w.len
    ensures Trace(act, w, x, i, j) == Trace(act, w, Trace(act, w, x, i, m), m, j)
    decreases m - i
  {
    if i < m {
      TraceSplit(act, w, act(w.nums[w.start + 2 * i], x), i + 1, m, j);
    }
  }

  lemma {:induction false} TraceInjective<X(!new)>(ref: seq<nat>, act: (int, X) -> X, w: Relator, x: X, y: X, i: int,
                                                   j: int)
    requires |ref| % 2 == 1 && Laid(ref, w) && Action(ref, act) && 0 <= i && j <= w.len
    requires Trace(act, w, x, i, j) == Trace(act, w, y, i, j)
    ensures x == y
    decreases j - i
  {
    if i < j {
      var g := w.nums[w.start + 2 * i];
      assert LetterAt(ref, w, i);
      TraceInjective(ref, act, w, act(g, x), act(g, y), i + 1, j);
      assert Invertible(ref, act, g, x) && Invertible(ref, act, g, y);
    }
  }

  lemma {:induction false} TraceCloses<X(!new)>(ref: seq<nat>, act: (int, X) -> X, w: Relator, x: X, i: int, y: X, z: X)
    requires |ref| % 2 == 1 && Laid(ref, w) && Action(ref, act) && 0 <= i < w.len
    requires Trace(act, w, x, 0, i) == y && Trace(act, w, z, i + 1, w.len) == x
    ensures Trivial(act, w, x) <==> act(w.nums[w.start + 2 * i], y) == z
  {
    var g := w.nums[w.start + 2 * i];
    TraceSplit(act, w, x, 0, i, w.len);
    if Trivial(act, w, x) {
      TraceInjective(ref, act, w, act(g, y), z, i + 1, w.len);
    }
  }

  // ----- walks through the table

  /** Letters i..j-1 lead from c to d along defined entries. */
  ghost predicate Walk(t: Table, w: Relator, c: int, i: int, j: int, d: int)
    requires Shape(t) && w.start >= 0 && w.start + 2 * w.len - 1 <= |w.nums| && 0 <= i && j <= w.len
    decreases j - i
  {
    if i >= j then c == d
    else
      && Cell(t, w.nums[w.start + 2 * i], c) && At(t, w.nums[w.start + 2 * i], c) > 0
      && Walk(t, w, At(t, w.nums[w.start + 2 * i], c), i + 1, j, d)
  }

  lemma {:induction false} WalkJoin(t: Table, w: Relator, c: int, i: int, m: int, d: int, j: int, e: int)
    requires Shape(t) && w.start >= 0 && w.start + 2 * w.len - 1 <= |w.nums| && 0 <= i <= m <= j <= w.len
    requires Walk(t, w, c, i, m, d) && Walk(t, w, d, m, j, e)
    ensures Walk(t, w, c, i, j, e)
    decreases m - i
  {
    if i < m {
      WalkJoin(t, w, At(t, w.nums[w.start + 2 * i], c), i + 1, m, d, j, e);
    }
  }

  lemma {:induction false} WalkOne(t: Table, w: Relator, c: int, i: int)
    requires Shape(t) && w.start >= 0 && w.start + 2 * w.len - 1 <= |w.nums| && 0 <= i < w.len
    requires Cell(t, w.nums[w.start + 2 * i], c) && At(t, w.nums[w.start + 2 * i], c) > 0
    ensures Walk(t, w, c, i, i + 1, At(t, w.nums[w.start + 2 * i], c))
  {
    var d := At(t, w.nums[w.start + 2 * i], c);
    assert Walk(t, w, d, i + 1, i + 1, d);
  }

  /** Walks are carried to the action. */
  lemma {:induction false} WalkTrace<X(!new)>(t: Table, w: Relator, c: int, i: int, j: int, d: int,
                                              f: int -> X, act: (int, X) -> X)
    requires Shape(t) && w.start >= 0 && w.start + 2 * w.len - 1 <= |w.nums| && 0 <= i && j <= w.len
    requires Respects(t, f, act) && Walk(t, w, c, i, j, d)
    ensures Trace(act, w, f(c), i, j) == f(d)
    decreases j - i
  {
    if i < j {
      var e := At(t, w.nums[w.start + 2 * i], c);
      assert f(e) == act(w.nums[w.start + 2 * i], f(c));
      WalkTrace(t, w, e, i + 1, j, d, f, act);
    }
  }

  /** Walks are carried to a later state of the table. */
  lemma {:induction false} WalkEvolved(t: Table, u: Table, rep: seq<int>, w: Relator, c: int, i: int, j: int, d: int)
    requires Shape(t) && Shape(u) && SameFrame(t, u) && Consistent(t) && RepMap(t.n, rep)
    requires forall g, x :: Cell(t, g, x) && 0 < At(t, g, x) <= t.n ==> At(u, g, rep[x]) == rep[At(t, g, x)]
    requires w.start >= 0 && w.start + 2 * w.len - 1 <= |w.nums| && 0 <= i && j <= w.len
    requires 1 <= c <= t.n && Walk(t, w, c, i, j, d)
    ensures 1 <= d <= t.n && Walk(u, w, rep[c], i, j, rep[d])
    decreases j - i
  {
    if i < j {
      var g := w.nums[w.start + 2 * i];
      assert Paired(t, g, c);
      WalkEvolved(t, u, rep, w, At(t, g, c), i + 1, j, d);
    }
  }

  /** One letter is left between lc and rc: the word acts trivially if and only if that letter joins them. */
  lemma {:induction false} WalkCloses<X(!new)>(t: Table, w: Relator, c: int, i: int, lc: int, rc: int, f: int -> X,
                                               act: (int, X) -> X)
    requires Shape(t) && Laid(t.ref, w) && Action(t.ref, act) && Respects(t, f, act) && 0 <= i < w.len
    requires Walk(t, w, c, 0, i, lc) && Walk(t, w, rc, i + 1, w.len, c)
    ensures Trivial(act, w, f(c)) <==> act(w.nums[w.start + 2 * i], f(lc)) == f(rc)
  {
    assert Trace(act, w, f(c), 0, i) == f(lc) by {
      WalkTrace(t, w, c, 0, i, lc, f, act);
    }
    assert Trace(act, w, f(rc), i + 1, w.len) == f(c) by {
      WalkTrace(t, w, rc, i + 1, w.len, c, f, act);
    }
    TraceCloses(t.ref, act, w, f(c), i, f(lc), f(rc));
  }

  // ----- coincidences and deductions as seen by an action

  /** A coincidence of cosets with equal images keeps the images. */
  lemma {:induction false} CoincidenceRespects<X(!new)>(t0: Table, t: Table, live0: seq<int>, rep: seq<int>, a: int,
                                                        b: int,
                                     f: int -> X, act: (int, X) -> X)
    requires Coincided(t0, t, live0, rep, a, b) && Consistent(t0)
    requires Respects(t0, f, act) && f(a) == f(b)
    ensures Respects(t, f, act) && forall c {:trigger rep[c]} :: 0 <= c < |rep| ==> f(c) == f(rep[c])
  {
    var eq := (x: int, y: int) => f(x) == f(y);
    assert Congruence(eq, t0);
    assert Identifies(eq, rep);
    assert forall c {:trigger rep[c]} :: 0 <= c < |rep| ==> eq(c, rep[c]);
    forall g, c | Cell(t, g, c) && At(t, g, c) > 0
      ensures f(At(t, g, c)) == act(g, f(c))
    {
      assert Stems(t0, t, rep, g, c);
      var c0 :| Cell(t0, g, c0) && 0 < At(t0, g, c0) <= t0.n && rep[c0] == c && rep[At(t0, g, c0)] == At(t, g, c);
      assert eq(c0, rep[c0]) && eq(At(t0, g, c0), rep[At(t0, g, c0)]);
    }
  }

  /** Defines the missing entry between lc and rc, in both directions. */
  function Deduce(t: Table, g: int, lc: int, rc: int): (r: Table)
    requires Shape(t) && Cell(t, g, lc) && Cell(t, Inv(g), rc)
    ensures Shape(r) && SameFrame(t, r)
  {
    Put(Put(t, g, lc, rc), Inv(g), rc, lc)
  }

  lemma {:induction false} DeduceRespects<X(!new)>(t: Table, g: int, lc: int, rc: int, f: int -> X, act: (int, X) -> X)
    requires Shape(t) && Cell(t, g, lc) && Cell(t, Inv(g), rc) && Action(t.ref, act)
    requires Respects(t, f, act) && act(g, f(lc)) == f(rc)
    ensures Respects(Deduce(t, g, lc, rc), f, act)
  {
    InvFacts(t, g);
    var r := Deduce(t, g, lc, rc);
    assert Invertible(t.ref, act, g, f(lc)) && Invertible(t.ref, act, Inv(g), f(rc));
    forall h, c | Cell(r, h, c) && At(r, h, c) > 0
      ensures f(At(r, h, c)) == act(h, f(c))
    {
      if At(r, h, c) != At(t, h, c) {
        assert h == g || h == Inv(g);
      }
    }
  }

  lemma {:induction false} DeduceConsistent(t: Table, g: int, lc: int, rc: int)
    requires Shape(t) && Consistent(t) && Cell(t, g, lc) && Cell(t, Inv(g), rc)
    requires At(t, g, lc) <= 0 && At(t, Inv(g), rc) <= 0
    ensures Consistent(Deduce(t, g, lc, rc))
  {
    InvFacts(t, g);
    var r := Deduce(t, g, lc, rc);
    forall h, c | Cell(r, h, c)
      ensures Paired(r, h, c)
    {
      InvFacts(t, h);
      assert Paired(t, h, c);
    }
  }

  lemma {:induction false} DeduceRows(t: Table, g: int, lc: int, rc: int, open: set<int>)
    requires Shape(t) && RowsIn(t, open) && Cell(t, g, lc) && Cell(t, Inv(g), rc)
    requires At(t, g, lc) <= 0 && At(t, Inv(g), rc) <= 0 && lc in open && rc in open
    ensures RowsIn(Deduce(t, g, lc, rc), open)
    ensures Undefined(Deduce(t, g, lc, rc)) < Undefined(t)
  {
    var r := Deduce(t, g, lc, rc);
    assert (g, lc) in Undefined(t) && (g, lc) !in Undefined(r);
    forall h, c | (h, c) in Undefined(r)
      ensures (h, c) in Undefined(t)
    {
      assert At(r, h, c) <= 0;
    }
  }

  /** The undefined entries. */
  ghost function Undefined(t: Table): (u: set<(int, int)>)
    requires Shape(t)
  {
    set g, c | 1 <= g < |t.ref| && 1 <= c <= t.n && At(t, g, c) <= 0 :: (g, c)
  }

  lemma {:induction false} UndefinedSame(t: Table, u: Table)
    requires Shape(t) && Shape(u) && SameFrame(t, u) && SamePositive(t, u)
    ensures Undefined(t) == Undefined(u)
  {
    assert forall g, c :: Cell(t, g, c) ==> (At(t, g, c) <= 0 <==> At(u, g, c) <= 0);
  }
}
