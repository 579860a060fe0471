/**
  Marks of minimal gaps: what a coincidence does to entries that are not defined.
 */
module Gaps {
  import opened CosetTable
  import opened CosetLists
  import opened Coincidence

  /** A coset that is represented by r has a mark in column g. */
  ghost predicate Marked(t: Table, rep: seq<int>, g: int, r: int)
    requires Shape(t) && |rep| == t.n + 1
  {
    exists x :: Cell(t, g, x) && rep[x] == r && At(t, g, x) == -1
  }

  /** A coset that is represented by r has a defined entry in column g. */
  ghost predicate Leads(t: Table, rep: seq<int>, g: int, r: int)
    requires Shape(t) && |rep| == t.n + 1
  {
    exists x :: Cell(t, g, x) && rep[x] == r && 0 < At(t, g, x) <= t.n
  }

  /** Hands the mark of a merged coset on to its representative, which keeps it unless it has a defined entry. */
  function PassGap(t: Table, gaps: bool, g: int, keep: int, drop: int): (r: Table)
    requires Shape(t) && Cell(t, g, keep) && Cell(t, g, drop)
    ensures Shape(r) && SameFrame(t, r)
  {
    if gaps && At(t, g, drop) == -1 then
      Put(if At(t, g, keep) <= 0 then Put(t, g, keep, -1) else t, g, drop, 0)
    else t
  }

  /**
    What a coincidence leaves where there is no defined entry.  A coset that has not been merged has its old entry,
    or a mark, if marks are kept and a coset that it represents had one.  A merged coset has no mark.
   */
  ghost predicate GapsFollow(t0: Table, t: Table, rep: seq<int>, gaps: bool)
    requires Shape(t0) && Shape(t) && SameFrame(t0, t) && |rep| == t.n + 1
  {
    forall g, c {:trigger GapFollows(t0, t, rep, gaps, g, c)} :: Cell(t, g, c) ==> GapFollows(t0, t, rep, gaps, g, c)
  }

  ghost predicate GapFollows(t0: Table, t: Table, rep: seq<int>, gaps: bool, g: int, c: int)
    requires Shape(t0) && Shape(t) && SameFrame(t0, t) && |rep| == t.n + 1 && Cell(t, g, c)
  {
    At(t, g, c) <= 0 ==>
      if rep[c] == c then At(t, g, c) == if gaps && Marked(t0, rep, g, c) then -1 else At(t0, g, c)
      else (At(t, g, c) == 0 || At(t, g, c) == At(t0, g, c)) && (gaps ==> At(t, g, c) != -1)
  }

  // ----- marks while the coincidence is being worked off

  /** A negative entry is an old one, or a mark that comes from a coset of the same class. */
  ghost predicate Origin(t0: Table, t: Table, rep: seq<int>, gaps: bool, g: int, c: int)
    requires Shape(t0) && Shape(t) && SameFrame(t0, t) && |rep| == t.n + 1 && Cell(t, g, c)
  {
    At(t, g, c) < 0 ==> At(t, g, c) == At(t0, g, c) || (gaps && At(t, g, c) == -1 && Marked(t0, rep, g, rep[c]))
  }

  /** What has become of an old negative entry. */
  ghost predicate Outcome(t0: Table, t: Table, rep: seq<int>, gaps: bool, g: int, c: int)
    requires Shape(t0) && Shape(t) && SameFrame(t0, t) && |rep| == t.n + 1 && Cell(t, g, c)
  {
    At(t0, g, c) < 0 && (rep[c] == c || (gaps && At(t0, g, c) == -1)) ==>
      At(t, g, c) == At(t0, g, c) || Leads(t, rep, g, rep[c]) || (gaps && Marked(t, rep, g, rep[c]))
  }

  /** On the way from t0 to its quotient; rows that have been worked off have no marks. */
  ghost predicate Passing(t0: Table, t: Table, open: set<int>, rep: seq<int>, gaps: bool)
  {
    && Shape(t0) && Shape(t) && SameFrame(t0, t) && |rep| == t.n + 1
    && (forall g, c {:trigger Origin(t0, t, rep, gaps, g, c)} :: Cell(t, g, c) ==> Origin(t0, t, rep, gaps, g, c))
    && (forall g, c {:trigger Outcome(t0, t, rep, gaps, g, c)} :: Cell(t, g, c) ==> Outcome(t0, t, rep, gaps, g, c))
    && (forall g, c {:trigger Unmarked(t, gaps, g, c)} ::
          Cell(t, g, c) && c !in open && rep[c] != c ==> Unmarked(t, gaps, g, c))
  }

  ghost predicate Unmarked(t: Table, gaps: bool, g: int, c: int)
    requires Shape(t) && Cell(t, g, c)
  {
    gaps ==> At(t, g, c) != -1
  }

  /** Columns 1..i of a row have no marks. */
  ghost predicate Swept(t: Table, gaps: bool, drop: int, i: int)
    requires Shape(t) && 1 <= drop <= t.n && i < |t.ref|
  {
    forall g {:trigger Unmarked(t, gaps, g, drop)} :: 1 <= g <= i ==> Unmarked(t, gaps, g, drop)
  }

  lemma {:induction false} PassingStart(t: Table, open: set<int>, gaps: bool)
    requires Shape(t)
    ensures Passing(t, t, open, Identity(t.n), gaps)
  {
  }

  /** Coarsening the representatives. */
  lemma {:induction false} PassingMerged(t0: Table, t: Table, open: set<int>, rep: seq<int>, gaps: bool, keep: int,
                                         drop: int)
    requires Passing(t0, t, open, rep, gaps) && RepMap(t.n, rep) && 1 <= keep < drop <= t.n && drop in open
    ensures Passing(t0, t, open, Merged(rep, keep, drop), gaps)
  {
    var rep' := Merged(rep, keep, drop);
    forall g, c | Cell(t, g, c)
      ensures Origin(t0, t, rep', gaps, g, c) && Outcome(t0, t, rep', gaps, g, c)
    {
      assert Origin(t0, t, rep, gaps, g, c) && Outcome(t0, t, rep, gaps, g, c);
      MarkedMerged(t0, rep, keep, drop, g, rep[c]);
      MarkedMerged(t, rep, keep, drop, g, rep[c]);
      assert rep[c] <= c;
    }
  }

  lemma {:induction false} MarkedMerged(t: Table, rep: seq<int>, keep: int, drop: int, g: int, r: int)
    requires Shape(t) && |rep| == t.n + 1
    ensures var r', rep' := if r == drop then keep else r, Merged(rep, keep, drop);
            (Marked(t, rep, g, r) ==> Marked(t, rep', g, r')) && (Leads(t, rep, g, r) ==> Leads(t, rep', g, r'))
  {
    var rep' := Merged(rep, keep, drop);
    if Marked(t, rep, g, r) {
      var x :| Cell(t, g, x) && rep[x] == r && At(t, g, x) == -1;
      assert rep'[x] == if r == drop then keep else r;
    }
    if Leads(t, rep, g, r) {
      var x :| Cell(t, g, x) && rep[x] == r && 0 < At(t, g, x) <= t.n;
      assert rep'[x] == if r == drop then keep else r;
    }
  }

  /** No negative entry is made, and none is overwritten but by a defined entry. */
  ghost predicate Rewritten(t: Table, u: Table)
    requires Shape(t) && Shape(u) && SameFrame(t, u)
  {
    forall g, c {:trigger At(u, g, c)} :: Cell(t, g, c) ==>
      && (At(u, g, c) < 0 ==> At(u, g, c) == At(t, g, c))
      && (At(t, g, c) < 0 ==> At(u, g, c) == At(t, g, c) || At(u, g, c) > 0)
  }

  lemma {:induction false} PassingRewritten(t0: Table, t: Table, u: Table, open: set<int>, rep: seq<int>, gaps: bool)
    requires Passing(t0, t, open, rep, gaps) && Shape(u) && SameFrame(t, u) && Rewritten(t, u) && Consistent(u)
    requires ImageWithin(t, u, rep)
    ensures Passing(t0, u, open, rep, gaps)
  {
    forall g, c | Cell(u, g, c)
      ensures Origin(t0, u, rep, gaps, g, c)
    {
      assert Origin(t0, t, rep, gaps, g, c);
    }
    forall g, c | Cell(u, g, c)
      ensures Outcome(t0, u, rep, gaps, g, c)
    {
      assert Outcome(t0, t, rep, gaps, g, c);
      assert Paired(u, g, c);
      LeadsOn(t, u, rep, g, rep[c]);
      MarkedOn(t, u, rep, g, rep[c]);
    }
    forall g, c | Cell(u, g, c) && c !in open && rep[c] != c
      ensures Unmarked(u, gaps, g, c)
    {
      assert Unmarked(t, gaps, g, c);
    }
  }

  lemma {:induction false} LeadsOn(t: Table, u: Table, rep: seq<int>, g: int, r: int)
    requires Shape(t) && Shape(u) && SameFrame(t, u) && |rep| == t.n + 1 && ImageWithin(t, u, rep)
    ensures Leads(t, rep, g, r) ==> Leads(u, rep, g, r)
  {
    if Leads(t, rep, g, r) {
      var x :| Cell(t, g, x) && rep[x] == r && 0 < At(t, g, x) <= t.n;
      assert Covered(t, u, rep, g, x);
    }
  }

  lemma {:induction false} MarkedOn(t: Table, u: Table, rep: seq<int>, g: int, r: int)
    requires Shape(t) && Shape(u) && SameFrame(t, u) && |rep| == t.n + 1 && Rewritten(t, u) && Consistent(u)
    ensures Marked(t, rep, g, r) ==> Marked(u, rep, g, r) || Leads(u, rep, g, r)
  {
    if Marked(t, rep, g, r) {
      var x :| Cell(t, g, x) && rep[x] == r && At(t, g, x) == -1;
      assert At(u, g, x) == -1 || At(u, g, x) > 0;
      assert Paired(u, g, x);
    }
  }

  lemma {:induction false} SweptRewritten(t: Table, u: Table, gaps: bool, g: int, drop: int)
    requires Shape(t) && Shape(u) && SameFrame(t, u) && Rewritten(t, u) && Cell(t, g, drop) && At(t, g, drop) > 0
    requires Swept(t, gaps, drop, g - 1)
    ensures Swept(u, gaps, drop, g)
  {
    forall h | 1 <= h <= g
      ensures Unmarked(u, gaps, h, drop)
    {
      assert h < g ==> Unmarked(t, gaps, h, drop);
    }
  }

  /** An entry moves to the representative. */
  lemma {:induction false} PassingMove(t0: Table, t: Table, open: set<int>, rep: seq<int>, gaps: bool, g: int,
                                       keep: int, drop: int)
    requires Passing(t0, t, open, rep, gaps) && Consistent(t) && Cell(t, g, keep) && Cell(t, g, drop)
    requires Swept(t, gaps, drop, g - 1) && keep != drop && rep[keep] == rep[drop]
    requires At(t, g, drop) > 0 && At(t, g, keep) <= 0
    ensures Passing(t0, MoveEntry(t, g, keep, drop), open, rep, gaps)
    ensures Swept(MoveEntry(t, g, keep, drop), gaps, drop, g)
  {
    var u := MoveEntry(t, g, keep, drop);
    InvFacts(t, g);
    assert Paired(t, g, drop);
    MoveEntryImage(t, g, keep, drop, rep);
    MoveEntryConsistent(t, g, keep, drop);
    PassingRewritten(t0, t, u, open, rep, gaps);
    SweptRewritten(t, u, gaps, g, drop);
  }

  /** An entry is dropped, and the targets are merged, if they are not yet. */
  lemma {:induction false} PassingDropped(t0: Table, t: Table, open: set<int>, rep: seq<int>, rep': seq<int>,
                                          gaps: bool, g: int, keep: int, drop: int)
    requires Passing(t0, t, open, rep, gaps) && Consistent(t) && RepMap(t.n, rep)
    requires Cell(t, g, keep) && Cell(t, g, drop) && keep != drop && rep[keep] == rep[drop]
    requires Swept(t, gaps, drop, g - 1)
    requires 0 < At(t, g, drop) <= t.n && 0 < At(t, g, keep) <= t.n
    requires var x, y := rep[At(t, g, keep)], rep[At(t, g, drop)];
             && x in open && y in open
             && rep' == if x == y then rep else Merged(rep, if x < y then x else y, if x < y then y else x)
    ensures Passing(t0, DropEntry(t, g, keep, drop), open, rep', gaps)
    ensures Swept(DropEntry(t, g, keep, drop), gaps, drop, g)
  {
    var u := DropEntry(t, g, keep, drop);
    var x, y := rep[At(t, g, keep)], rep[At(t, g, drop)];
    if x != y {
      PassingMerged(t0, t, open, rep, gaps, if x < y then x else y, if x < y then y else x);
    }
    InvFacts(t, g);
    assert Paired(t, g, drop);
    DropEntryImage(t, g, keep, drop, rep');
    DropEntryConsistent(t, g, keep, drop);
    PassingRewritten(t0, t, u, open, rep', gaps);
    SweptRewritten(t, u, gaps, g, drop);
  }

  /** A mark is handed on. */
  lemma {:induction false} PassingGap(t0: Table, t: Table, open: set<int>, rep: seq<int>, gaps: bool, g: int,
                                      keep: int, drop: int)
    requires Passing(t0, t, open, rep, gaps) && Consistent(t) && Cell(t, g, keep) && Cell(t, g, drop)
    requires Swept(t, gaps, drop, g - 1) && keep != drop && rep[keep] == rep[drop] && At(t, g, drop) <= 0
    requires keep in open
    ensures Passing(t0, PassGap(t, gaps, g, keep, drop), open, rep, gaps)
    ensures Swept(PassGap(t, gaps, g, keep, drop), gaps, drop, g)
    ensures SamePositive(t, PassGap(t, gaps, g, keep, drop))
  {
    var u := PassGap(t, gaps, g, keep, drop);
    if gaps && At(t, g, drop) == -1 {
      forall h, c | Cell(u, h, c)
        ensures Origin(t0, u, rep, gaps, h, c) && Outcome(t0, u, rep, gaps, h, c)
      {
        GapPassed(t0, t, open, rep, g, keep, drop, h, c);
      }
      forall h, c | Cell(u, h, c) && c !in open && rep[c] != c
        ensures Unmarked(u, gaps, h, c)
      {
        assert Unmarked(t, gaps, h, c);
      }
    }
    forall h | 1 <= h <= g
      ensures Unmarked(u, gaps, h, drop)
    {
      assert h < g ==> Unmarked(t, gaps, h, drop);
    }
  }

  lemma {:induction false} GapPassed(t0: Table, t: Table, open: set<int>, rep: seq<int>, g: int, keep: int, drop: int,
                                     h: int, c: int)
    requires Passing(t0, t, open, rep, true) && Consistent(t) && Cell(t, h, c)
    requires Cell(t, g, keep) && Cell(t, g, drop) && keep != drop && rep[keep] == rep[drop] && At(t, g, drop) == -1
    ensures var u := PassGap(t, true, g, keep, drop); Origin(t0, u, rep, true, h, c) && Outcome(t0, u, rep, true, h, c)
  {
    var u := PassGap(t, true, g, keep, drop);
    assert Origin(t0, t, rep, true, h, c) && Outcome(t0, t, rep, true, h, c);
    if t.ref[h] == t.ref[g] {
      assert Origin(t0, t, rep, true, h, drop);
      assert Paired(t, h, keep);
      assert At(u, h, keep) == -1 || At(u, h, keep) == At(t, h, keep) > 0;
      assert Marked(u, rep, h, rep[keep]) || Leads(u, rep, h, rep[keep]);
    }
    if Leads(t, rep, h, rep[c]) {
      var x :| Cell(t, h, x) && rep[x] == rep[c] && 0 < At(t, h, x) <= t.n;
      assert At(u, h, x) == At(t, h, x);
    }
    if Marked(t, rep, h, rep[c]) {
      var x :| Cell(t, h, x) && rep[x] == rep[c] && At(t, h, x) == -1;
      assert At(u, h, x) == -1 || (t.ref[h] == t.ref[g] && x == drop);
    }
  }

  lemma {:induction false} PassingRetire(t0: Table, t: Table, open: set<int>, rep: seq<int>, gaps: bool, drop: int)
    requires Passing(t0, t, open, rep, gaps) && 1 <= drop <= t.n && Swept(t, gaps, drop, |t.ref| - 1)
    ensures Passing(t0, t, open - {drop}, rep, gaps)
  {
    forall g, c | Cell(t, g, c) && c !in open - {drop} && rep[c] != c
      ensures Unmarked(t, gaps, g, c)
    {
      if c == drop {
        assert 1 <= g <= |t.ref| - 1 && Unmarked(t, gaps, g, drop);
      }
    }
  }

  /** All merged cosets have been worked off. */
  lemma {:induction false} PassingEnd(t0: Table, t: Table, live: seq<int>, open: set<int>, rep: seq<int>, gaps: bool)
    requires Passing(t0, t, open, rep, gaps) && Consistent(t) && RowsIn(t, open) && QuotientOf(t0, t, rep)
    requires Open(open, live, []) && Consistent(t0) && forall c :: c in live ==> 0 <= c < |rep| && rep[c] == c
    ensures GapsFollow(t0, t, rep, gaps)
  {
    forall g, c | Cell(t, g, c)
      ensures GapFollows(t0, t, rep, gaps, g, c)
    {
      assert Origin(t0, t, rep, gaps, g, c) && Outcome(t0, t, rep, gaps, g, c);
      if At(t, g, c) <= 0 && rep[c] == c {
        assert Paired(t0, g, c);
        assert At(t0, g, c) <= 0;
        NothingLeads(t, live, open, rep, g, c);
        if gaps && Marked(t0, rep, g, c) {
          var x :| Cell(t0, g, x) && rep[x] == c && At(t0, g, x) == -1;
          assert Outcome(t0, t, rep, gaps, g, x);
          MarkHere(t, open, live, rep, g, c);
        } else if gaps && Marked(t, rep, g, c) {
          MarkHere(t, open, live, rep, g, c);
        }
      } else if At(t, g, c) <= 0 {
        assert c !in open && Unmarked(t, gaps, g, c);
      }
    }
  }

  lemma {:induction false} NothingLeads(t: Table, live: seq<int>, open: set<int>, rep: seq<int>, g: int, c: int)
    requires Shape(t) && Consistent(t) && RowsIn(t, open) && |rep| == t.n + 1 && Open(open, live, [])
    requires forall d :: d in live ==> 0 <= d < |rep| && rep[d] == d
    requires Cell(t, g, c) && At(t, g, c) <= 0
    ensures !Leads(t, rep, g, c)
  {
    forall x | Cell(t, g, x) && rep[x] == c
      ensures At(t, g, x) <= 0
    {
      assert At(t, g, x) > 0 ==> x in open;
    }
  }

  /** A mark of a class is a mark of its representative, when merged cosets have none. */
  lemma {:induction false} MarkHere(t: Table, open: set<int>, live: seq<int>, rep: seq<int>, g: int, c: int)
    requires Shape(t) && |rep| == t.n + 1 && Cell(t, g, c)
    requires forall h, d {:trigger Unmarked(t, true, h, d)} ::
               Cell(t, h, d) && d !in open && rep[d] != d ==> Unmarked(t, true, h, d)
    requires Open(open, live, []) && forall d :: d in live ==> 0 <= d < |rep| && rep[d] == d
    ensures Marked(t, rep, g, c) ==> At(t, g, c) == -1
  {
    if Marked(t, rep, g, c) {
      var x :| Cell(t, g, x) && rep[x] == c && At(t, g, x) == -1;
      assert Unmarked(t, true, g, x) <==> At(t, g, x) != -1;
      assert x in open ==> x in live;
    }
  }

  // ----- entries and marks together

  /** The table is on its way to the quotient; see `Quotienting` for the entries and `Passing` for the marks. */
  ghost predicate Underway(t0: Table, t: Table, open: set<int>, rep: seq<int>, a: int, b: int, gaps: bool)
  {
    Quotienting(t0, t, open, rep, a, b) && Passing(t0, t, open, rep, gaps)
  }

  /** Columns 1..i of the row of drop have no entries and no marks. */
  ghost predicate Emptied(t: Table, gaps: bool, keep: int, drop: int, i: int)
    requires Shape(t) && 1 <= drop <= t.n && i < |t.ref|
  {
    Cleared(t, keep, drop, i) && Swept(t, gaps, drop, i)
  }

  lemma {:induction false} UnderwayStart(t: Table, next: seq<int>, prev: seq<int>, live: seq<int>, free: seq<int>,
                                         open: set<int>, a: int, gaps: bool)
    requires Shape(t) && Consistent(t) && RowsIn(t, open) && Links(t.n, next, prev, live, [], free)
    requires 0 <= a <= t.n && Open(open, live, [])
    ensures Forwarded(t.n, next, prev, live, [], free, live, Identity(t.n), open)
    ensures Underway(t, t, open, Identity(t.n), a, a, gaps)
  {
    CoincidenceStart(t, next, prev, live, free, open, a);
    PassingStart(t, open, gaps);
  }

  lemma {:induction false} UnderwayFirst(t: Table, open: set<int>, rep: seq<int>, a: int, b: int, lo: int, hi: int,
                                         gaps: bool)
    requires Underway(t, t, open, rep, a, a, gaps) && Pair(lo, hi, a, b) && 1 <= lo < hi <= t.n
    requires rep[lo] == lo && rep[hi] == hi && hi in open
    ensures Underway(t, t, open, Merged(rep, lo, hi), a, b, gaps)
  {
    QuotientingFirst(t, open, rep, a, b, lo, hi);
    PassingMerged(t, t, open, rep, gaps, lo, hi);
  }

  lemma {:induction false} UnderwayMove(t0: Table, t: Table, open: set<int>, rep: seq<int>, a: int, b: int, gaps: bool,
                                        g: int, keep: int, drop: int)
    requires Underway(t0, t, open, rep, a, b, gaps)
    requires Cell(t, g, keep) && Cell(t, g, drop) && keep != drop && rep[keep] == rep[drop]
    requires At(t, g, drop) > 0 && At(t, g, keep) <= 0 && keep in open && Emptied(t, gaps, keep, drop, g - 1)
    ensures Underway(t0, MoveEntry(t, g, keep, drop), open, rep, a, b, gaps)
    ensures Emptied(MoveEntry(t, g, keep, drop), gaps, keep, drop, g)
  {
    QuotientingMove(t0, t, open, rep, a, b, g, keep, drop);
    PassingMove(t0, t, open, rep, gaps, g, keep, drop);
  }

  lemma {:induction false} UnderwayDropped(t0: Table, t: Table, open: set<int>, rep: seq<int>, rep': seq<int>, a: int,
                                           b: int, gaps: bool, g: int, keep: int, drop: int)
    requires Underway(t0, t, open, rep, a, b, gaps)
    requires Cell(t, g, keep) && Cell(t, g, drop) && keep != drop && rep[keep] == rep[drop]
    requires 0 < At(t, g, drop) <= t.n && 0 < At(t, g, keep) <= t.n && keep in open
    requires Emptied(t, gaps, keep, drop, g - 1)
    requires var x, y := rep[At(t, g, keep)], rep[At(t, g, drop)];
             && x in open && y in open
             && rep' == if x == y then rep else Merged(rep, if x < y then x else y, if x < y then y else x)
    ensures Underway(t0, DropEntry(t, g, keep, drop), open, rep', a, b, gaps)
    ensures Emptied(DropEntry(t, g, keep, drop), gaps, keep, drop, g)
    ensures rep'[keep] == rep'[drop]
  {
    ColumnDropped(t0, t, open, rep, rep', a, b, g, keep, drop);
    PassingDropped(t0, t, open, rep, rep', gaps, g, keep, drop);
  }

  lemma {:induction false} UnderwayGap(t0: Table, t: Table, open: set<int>, rep: seq<int>, a: int, b: int, gaps: bool,
                                       g: int, keep: int, drop: int)
    requires Underway(t0, t, open, rep, a, b, gaps)
    requires Cell(t, g, keep) && Cell(t, g, drop) && keep != drop && rep[keep] == rep[drop]
    requires At(t, g, drop) <= 0 && keep in open && Emptied(t, gaps, keep, drop, g - 1)
    ensures Underway(t0, PassGap(t, gaps, g, keep, drop), open, rep, a, b, gaps)
    ensures Emptied(PassGap(t, gaps, g, keep, drop), gaps, keep, drop, g)
    ensures SamePositive(t, PassGap(t, gaps, g, keep, drop))
  {
    PassingGap(t0, t, open, rep, gaps, g, keep, drop);
    QuotientingSame(t0, t, PassGap(t, gaps, g, keep, drop), open, rep, a, b);
  }

  lemma {:induction false} UnderwayRetire(t0: Table, t: Table, open: set<int>, rep: seq<int>, a: int, b: int,
                                          gaps: bool, keep: int, drop: int)
    requires Underway(t0, t, open, rep, a, b, gaps) && 1 <= drop <= t.n && Emptied(t, gaps, keep, drop, |t.ref| - 1)
    ensures Underway(t0, t, open - {drop}, rep, a, b, gaps)
  {
    RetireRow(t0, t, open, rep, a, b, keep, drop);
    PassingRetire(t0, t, open, rep, gaps, drop);
  }

  lemma {:induction false} UnderwayEnd(t0: Table, t: Table, next: seq<int>, prev: seq<int>, live: seq<int>,
                                       free: seq<int>, live0: seq<int>, rep: seq<int>, open: set<int>, a: int, b: int,
                                       gaps: bool)
    requires Underway(t0, t, open, rep, a, b, gaps) && Consistent(t0)
    requires Forwarded(t.n, next, prev, live, [], free, live0, rep, open)
    ensures Coincided(t0, t, live0, rep, a, b) && GapsFollow(t0, t, rep, gaps)
  {
    CoincidenceEnd(t0, t, next, prev, live, free, live0, rep, open, a, b);
    PassingEnd(t0, t, live, open, rep, gaps);
  }

  // ----- what this means

  /** No entry is smaller than `low`: 0 if there are no marks, -1 if marks are the only negative entries. */
  ghost predicate AtLeast(t: Table, low: int)
    requires Shape(t)
  {
    forall g, c {:trigger At(t, g, c)} :: Cell(t, g, c) ==> At(t, g, c) >= low
  }

  /** A coincidence makes no marks where there were none, and no negative entries other than marks. */
  lemma {:induction false} GapsSpare(t0: Table, t: Table, rep: seq<int>, gaps: bool)
    requires Shape(t0) && Shape(t) && SameFrame(t0, t) && |rep| == t.n + 1 && GapsFollow(t0, t, rep, gaps)
    ensures AtLeast(t0, 0) ==> AtLeast(t, 0)
    ensures AtLeast(t0, -1) ==> AtLeast(t, -1)
  {
    forall g, c | Cell(t, g, c)
      ensures AtLeast(t0, 0) ==> At(t, g, c) >= 0
      ensures AtLeast(t0, -1) ==> At(t, g, c) >= -1
    {
      assert GapFollows(t0, t, rep, gaps, g, c);
      assert AtLeast(t0, 0) ==> !Marked(t0, rep, g, c);
    }
  }

  /** A coincidence has one outcome only, whichever coset is worked off first: the same table, entry by entry. */
  lemma {:induction false} OutcomeUnique(t0: Table, t: Table, t': Table, live: seq<int>, rep: seq<int>, rep': seq<int>,
                                         a: int, b: int, gaps: bool)
    requires Coincided(t0, t, live, rep, a, b) && Coincided(t0, t', live, rep', a, b) && Consistent(t0)
    requires GapsFollow(t0, t, rep, gaps) && GapsFollow(t0, t', rep', gaps)
    requires AtLeast(t0, if gaps then -1 else 0)
    ensures rep == rep' && forall g, c :: Cell(t, g, c) ==> At(t, g, c) == At(t', g, c)
  {
    CoincidenceUnique(t0, t, t', live, rep, rep', a, b);
    forall g, c | Cell(t, g, c)
      ensures At(t, g, c) == At(t', g, c)
    {
      assert GapFollows(t0, t, rep, gaps, g, c) && GapFollows(t0, t', rep, gaps, g, c);
    }
  }
}
