/**
  What the deduction list is good for: every entry that coincidences and deductions bring into
  the table is put onto it.
 */
module Deductions {
  import opened CosetTable
  import opened Coincidence
  import opened Tracing
  import opened Pigeonhole
  import opened RelatorLoops

  /** The size of the deduction list. */
  const DED_SIZE: int := 40960

  /**
    The deduction list, and what has happened to it since it held ds and entry fst was the next one: the deductions
    that were added, and whether any may have been lost.
   */
  datatype Pushes = Pushes(list: seq<(int, int)>, fst: int, ds: seq<(int, int)>, added: seq<(int, int)>, lost: bool)

  /** Added deductions are at the end of the list. */
  ghost predicate Listed(p: Pushes, fst: int)
  {
    fst == p.fst && p.list == p.ds + p.added
  }

  /** More deductions have been added. */
  ghost predicate Grew(a: Pushes, b: Pushes)
  {
    a.fst == b.fst && a.ds == b.ds && (a.lost ==> b.lost) && Among(a.added, b.added)
  }

  ghost predicate Among(s: seq<(int, int)>, s': seq<(int, int)>)
  {
    forall x :: x in s ==> x in s'
  }

  /** The entries that are not from t are among the deductions. */
  ghost predicate Tracked(t: Table, u: Table, s: seq<(int, int)>)
  {
    Shape(t) && Shape(u) && Fresh(t, u, s)
  }

  lemma {:induction false} TrackedStart(t: Table, s: seq<(int, int)>)
    requires Shape(t)
    ensures Tracked(t, t, s)
  {
  }

  lemma {:induction false} TrackedSame(t0: Table, t: Table, u: Table, s: seq<(int, int)>)
    requires Tracked(t0, t, s) && Shape(u) && SameFrame(t, u) && SamePositive(t, u)
    ensures Tracked(t0, u, s)
  {
    forall g, p | Defined(u, g, p) && !Edge(t0, g, p, At(u, g, p))
      ensures Waiting(u, s, g, p)
    {
      assert At(t, g, p) == At(u, g, p);
      assert Waiting(t, s, g, p);
    }
  }

  lemma {:induction false} TrackedMove(t0: Table, t: Table, s: seq<(int, int)>, g: int, keep: int, drop: int)
    requires Tracked(t0, t, s) && SameFrame(t0, t) && Consistent(t) && Cell(t, g, keep) && Cell(t, g, drop) &&
             At(t, g, drop) > 0
    ensures Tracked(t0, MoveEntry(t, g, keep, drop), s + [(g, keep)])
  {
    InvFacts(t, g);
    assert Paired(t, g, drop);
    var u, s', d := MoveEntry(t, g, keep, drop), s + [(g, keep)], At(t, g, drop);
    forall h, p | Defined(u, h, p) && !Edge(t0, h, p, At(u, h, p))
      ensures Waiting(u, s', h, p)
    {
      InvFacts(t, h);
      if At(u, h, p) == At(t, h, p) {
        assert Waiting(t, s, h, p);
      } else {
        assert (g, keep) in s';
        assert ((h == g || (h == Inv(g) && Shared(t.ref, g))) && p == keep) ||
               ((h == Inv(g) || (h == g && Shared(t.ref, g))) && p == d);
      }
    }
  }

  /** Where column and inverse column are one, the representative can lose its entry, too. */
  ghost predicate LosesKeep(t: Table, g: int, keep: int, drop: int)
    requires Shape(t) && Consistent(t) && Cell(t, g, keep) && Cell(t, g, drop) && At(t, g, drop) > 0
  {
    InvFacts(t, g);
    assert Paired(t, g, drop);
    At(Put(Put(t, Inv(g), At(t, g, drop), 0), g, drop, 0), g, keep) <= 0
  }

  lemma {:induction false} TrackedDrop(t0: Table, t: Table, s: seq<(int, int)>, g: int, keep: int, drop: int,
                                       s': seq<(int, int)>)
    requires Tracked(t0, t, s) && SameFrame(t0, t) && Consistent(t) && Cell(t, g, keep) && Cell(t, g, drop) &&
             At(t, g, drop) > 0
    requires At(t, g, keep) > 0 && keep != drop && Among(s, s') && (LosesKeep(t, g, keep, drop) ==> (g, keep) in s')
    ensures Tracked(t0, DropEntry(t, g, keep, drop), s')
  {
    InvFacts(t, g);
    assert Paired(t, g, drop);
    var u := DropEntry(t, g, keep, drop);
    forall h, p | Defined(u, h, p) && !Edge(t0, h, p, At(u, h, p))
      ensures Waiting(u, s', h, p)
    {
      InvFacts(t, h);
      if At(u, h, p) == At(t, h, p) {
        assert Waiting(t, s, h, p);
      } else {
        assert (h == g || (h == Inv(g) && Shared(t.ref, g))) && p == keep && LosesKeep(t, g, keep, drop);
      }
    }
  }

  // ----- how many deductions there can be

  /** How much of the list is in use or may be needed for entries that are still undefined. */
  ghost function Demand(t: Table, p: Pushes): nat
    requires Shape(t)
  {
    |p.list| + |Undefined(t)|
  }

  /**
    From t and p to u and q the demand has grown by k at most, and no deduction has been lost, if there was
    room for that.
   */
  ghost predicate Spends(t: Table, p: Pushes, u: Table, q: Pushes, k: nat)
  {
    Shape(t) && Shape(u) && (Demand(t, p) + k <= DED_SIZE ==> q.lost == p.lost && Demand(u, q) <= Demand(t, p) + k)
  }

  lemma {:induction false} SpendsTrans(t: Table, p: Pushes, u: Table, q: Pushes, v: Table, r: Pushes, k: nat, m: nat)
    requires Spends(t, p, u, q, k) && Spends(u, q, v, r, m)
    ensures Spends(t, p, v, r, k + m)
  {
  }

  /** One deduction has been added, unless the list was full. */
  ghost predicate OneMore(p: Pushes, q: Pushes)
  {
    |p.list| < DED_SIZE ==> q.lost == p.lost && |q.list| == |p.list| + 1
  }

  /** At most four more entries are undefined. */
  lemma {:induction false} FewMore(t: Table, u: Table, a: (int, int), b: (int, int), c: (int, int), d: (int, int))
    requires Shape(t) && Shape(u) && Undefined(u) <= Undefined(t) + {a, b, c, d}
    ensures |Undefined(u)| <= |Undefined(t)| + 4
  {
    var few := {a} + {b} + {c} + {d};
    assert few == {a, b, c, d};
    assert |few| <= 4;
    Fewer(Undefined(u), Undefined(t) + few);
  }

  lemma {:induction false} SpendsMove(t: Table, p: Pushes, g: int, keep: int, drop: int, q: Pushes)
    requires Shape(t) && Consistent(t) && Cell(t, g, keep) && Cell(t, g, drop) && At(t, g, drop) > 0 && OneMore(p, q)
    ensures Spends(t, p, MoveEntry(t, g, keep, drop), q, 5)
  {
    InvFacts(t, g);
    assert Paired(t, g, drop);
    var u, d := MoveEntry(t, g, keep, drop), At(t, g, drop);
    forall h, c | (h, c) in Undefined(u)
      ensures (h, c) in Undefined(t) + {(g, drop), (Inv(g), drop), (g, d), (Inv(g), d)}
    {
      assert At(u, h, c) <= 0;
    }
    FewMore(t, u, (g, drop), (Inv(g), drop), (g, d), (Inv(g), d));
  }

  lemma {:induction false} SpendsDrop(t: Table, p: Pushes, g: int, keep: int, drop: int, q: Pushes)
    requires Shape(t) && Consistent(t) && Cell(t, g, keep) && Cell(t, g, drop) && At(t, g, drop) > 0 &&
             (q == p || OneMore(p, q))
    ensures Spends(t, p, DropEntry(t, g, keep, drop), q, 5)
  {
    InvFacts(t, g);
    assert Paired(t, g, drop);
    var u, d := DropEntry(t, g, keep, drop), At(t, g, drop);
    forall h, c | (h, c) in Undefined(u)
      ensures (h, c) in Undefined(t) + {(g, drop), (Inv(g), drop), (g, d), (Inv(g), d)}
    {
      assert At(u, h, c) <= 0;
    }
    FewMore(t, u, (g, drop), (Inv(g), drop), (g, d), (Inv(g), d));
  }

  lemma {:induction false} SpendsSame(t: Table, p: Pushes, u: Table, k: nat)
    requires Shape(t) && Shape(u) && SameFrame(t, u) && SamePositive(t, u)
    ensures Spends(t, p, u, p, k)
  {
    UndefinedSame(t, u);
  }

  lemma {:induction false} SpendsDeduce(t: Table, p: Pushes, u: Table, q: Pushes)
    requires Shape(t) && Shape(u) && Undefined(u) < Undefined(t) && OneMore(p, q)
    ensures Spends(t, p, u, q, 0)
  {
    var x :| x in Undefined(t) && x !in Undefined(u);
    Fewer(Undefined(u), Undefined(t) - {x});
  }

  /** What merging k cosets may cost, in a table with this many columns. */
  ghost function Cost(columns: nat, k: nat): nat
  {
    if k == 0 then 0 else Cost(columns, k - 1) + 5 * columns
  }

  /** From t and p to u and q, k cosets have been merged. */
  ghost predicate SpendsFor(t: Table, p: Pushes, u: Table, q: Pushes, k: nat)
  {
    |t.ref| >= 1 && Spends(t, p, u, q, Cost(|t.ref| - 1, k))
  }

  lemma {:induction false} SpendsNone(t: Table, p: Pushes)
    requires Shape(t)
    ensures SpendsFor(t, p, t, p, 0)
  {
  }

  /** One more coset. */
  lemma {:induction false} SpendsMore(t: Table, p: Pushes, u: Table, q: Pushes, v: Table, r: Pushes, k: nat)
    requires SpendsFor(t, p, u, q, k) && Spends(u, q, v, r, 5 * (|t.ref| - 1))
    ensures SpendsFor(t, p, v, r, k + 1)
  {
    SpendsTrans(t, p, u, q, v, r, Cost(|t.ref| - 1, k), 5 * (|t.ref| - 1));
  }

  lemma {:induction false} CostSum(columns: nat, k: nat, m: nat)
    ensures Cost(columns, k + m) == Cost(columns, k) + Cost(columns, m)
  {
    if m > 0 {
      CostSum(columns, k, m - 1);
    }
  }
}
