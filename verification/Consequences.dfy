/**
  The consequences of a coset definition: relators and subgroup generators are
  scanned, and what they force is entered into the table.
 */
module Consequences {
  import opened CosetTable
  import opened CosetLists
  import opened Coincidence
  import opened Gaps
  import opened CosetEnumeration
  import opened Tracing
  import opened Scans
  import opened Derivation
  import opened Pigeonhole
  import opened RelatorLoops
  import opened Deductions
  import opened Closure

  /** A subgroup generator is open until its scan from coset 1 has closed. */
  datatype SubGen = Done | Open(w: Relator)

  /** Relators are sorted by the slot of their first letter. */
  type RelatorTable = seq<seq<Relator>>

  ghost predicate RelatorsLaid(ref: seq<nat>, rels: RelatorTable)
  {
    && |rels| == |ref|
    && forall g, k {:trigger rels[g][k]} :: 1 <= g < |rels| && 0 <= k < |rels[g]| ==>
                                             Laid(ref, rels[g][k]) && rels[g][k].len >= 2
  }

  ghost predicate SubGensLaid(ref: seq<nat>, subs: seq<SubGen>)
  {
    forall k :: 0 <= k < |subs| && subs[k].Open? ==> Laid(ref, subs[k].w)
  }

  /** What decreases: live cosets, undefined entries, pending deductions. */
  datatype Measure = Measure(live: nat, undefined: set<(int, int)>, fst: int, lst: int)

  /** m' is m, or further on because of a coincidence or a deduction. */
  ghost predicate Advanced(m: Measure, m': Measure)
  {
    m' == m || m'.live < m.live || (m'.live == m.live && m'.undefined < m.undefined)
  }

  lemma {:induction false} AdvancedTrans(m1: Measure, m2: Measure, m3: Measure)
    requires Advanced(m1, m2) && Advanced(m2, m3)
    ensures Advanced(m1, m3)
  {
  }

  ghost predicate Later(m: Measure, m': Measure)
  {
    || m'.live < m.live
    || (m'.live == m.live && m'.undefined < m.undefined)
    || (m'.live == m.live && m'.undefined == m.undefined && m'.lst - m'.fst < m.lst - m.fst)
  }

  /** A scan of w from c has letters i..j-1 left over, between lc and rc. */
  ghost predicate Scanning(t: Table, w: Relator, c: int, open: set<int>, i: int, lc: int, j: int, rc: int)
    requires Shape(t) && Laid(t.ref, w)
  {
    && 0 <= i < j <= w.len
    && Cell(t, w.nums[w.start + 2 * i], lc) && Cell(t, w.nums[w.start + 2 * j - 3], rc)
    && (if i == 0 then lc == c else c in open && lc in open)
    && (if j == w.len then rc == c else c in open && rc in open)
    && Walk(t, w, c, 0, i, lc) && Walk(t, w, rc, j, w.len, c)
  }

  lemma {:induction false} ScanningStart(t: Table, w: Relator, c: int, open: set<int>)
    requires Shape(t) && Laid(t.ref, w) && 1 <= c <= t.n
    ensures Scanning(t, w, c, open, 0, c, w.len, c)
  {
    assert LetterAt(t.ref, w, w.len - 1) && LetterAt(t.ref, w, 0);
    InvFacts(t, w.nums[w.start + 2 * (w.len - 1)]);
    assert w.start + 2 * (w.len - 1) - 1 == w.start + 2 * w.len - 3;
  }

  /** The letters around position j - 1: its inverse, itself, and the inverse of the one before. */
  lemma {:induction false} LettersBefore(ref: seq<nat>, w: Relator, j: int, p: int)
    requires Laid(ref, w) && |ref| % 2 == 1 && 2 <= j <= w.len && p == w.start + 2 * j - 3
    ensures 2 <= p && p + 1 < |w.nums| && 1 <= w.nums[p] < |ref| && 1 <= w.nums[p - 2] < |ref|
    ensures Inv(w.nums[p]) == w.nums[p + 1]
  {
    assert LetterAt(ref, w, j - 1) && LetterAt(ref, w, j - 2);
    assert w.start + 2 * (j - 2) == p - 1;
  }

  /** Letter j - 1 can be followed backwards from rc. */
  lemma {:induction false} WalkBack(t: Table, w: Relator, c: int, j: int, p: int, rc: int)
    requires Shape(t) && Consistent(t) && Laid(t.ref, w) && 1 <= j <= w.len && p == w.start + 2 * j - 3
    requires Cell(t, w.nums[p], rc) && At(t, w.nums[p], rc) > 0 && Inv(w.nums[p]) == w.nums[p + 1]
    requires Walk(t, w, rc, j, w.len, c)
    ensures Walk(t, w, At(t, w.nums[p], rc), j - 1, w.len, c)
  {
    assert Paired(t, w.nums[p], rc);
    assert w.start + 2 * (j - 1) == p + 1;
  }

  lemma {:induction false} ScanningRight(t: Table, w: Relator, c: int, open: set<int>, i: int, lc: int, j: int, rc: int)
    requires Shape(t) && Consistent(t) && RowsIn(t, open) && Laid(t.ref, w)
    requires Scanning(t, w, c, open, i, lc, j, rc) && i + 1 < j
    requires At(t, w.nums[w.start + 2 * j - 3], rc) > 0
    ensures Scanning(t, w, c, open, i, lc, j - 1, At(t, w.nums[w.start + 2 * j - 3], rc))
  {
    var p := w.start + 2 * j - 3;
    LettersBefore(t.ref, w, j, p);
    TargetsKnown(t, open, w.nums[p], rc);
    WalkBack(t, w, c, j, p, rc);
    assert w.start + 2 * (j - 1) - 3 == p - 2;
  }

  lemma {:induction false} ScanningLeft(t: Table, w: Relator, c: int, open: set<int>, i: int, lc: int, j: int, rc: int)
    requires Shape(t) && Consistent(t) && RowsIn(t, open) && Laid(t.ref, w)
    requires Scanning(t, w, c, open, i, lc, j, rc) && i + 1 < j
    requires At(t, w.nums[w.start + 2 * i], lc) > 0
    ensures Scanning(t, w, c, open, i + 1, At(t, w.nums[w.start + 2 * i], lc), j, rc)
  {
    var g := w.nums[w.start + 2 * i];
    TargetsKnown(t, open, g, lc);
    assert LetterAt(t.ref, w, i + 1);
    WalkOne(t, w, lc, i);
    WalkJoin(t, w, c, 0, i, lc, i + 1, At(t, g, lc));
  }

  /**
    Walks along a word from coset c, backwards from its end and then forwards from
    its beginning, while entries are defined.  Letters i..j-1 are left
    over: lp is the position of letter i and rp the one of the inverse of letter
    j-1.
   */
  method Scan(t: Table, w: Relator, c: int, ghost open: set<int>)
    returns (lp: int, lc: int, rp: int, rc: int, ghost i: int, ghost j: int)
    requires Shape(t) && Consistent(t) && RowsIn(t, open) && Laid(t.ref, w) && 1 <= c <= t.n
    ensures Scanning(t, w, c, open, i, lc, j, rc)
    ensures lp == w.start + 2 * i && rp == w.start + 2 * j - 3
    ensures lp < rp ==> At(t, w.nums[lp], lc) <= 0
    ensures (i == 0 && rp < lp) || At(t, w.nums[rp], rc) <= 0
  {
    lp, lc, rp, rc := w.start, c, w.start + 2 * w.len - 3, c;
    i, j := 0, w.len;
    ScanningStart(t, w, c, open);

    // backwards: rp moves down while the walk from the end can be continued
    while lp < rp && At(t, w.nums[rp], rc) > 0
      invariant Scanning(t, w, c, open, i, lc, j, rc)
      invariant lp == w.start + 2 * i && rp == w.start + 2 * j - 3
      decreases j
    {
      ScanningRight(t, w, c, open, i, lc, j, rc);
      rc, rp := At(t, w.nums[rp], rc), rp - 2;
      j := j - 1;
    }

    // forwards: lp moves up until it meets rp or an undefined entry
    while lp < rp && At(t, w.nums[lp], lc) > 0
      invariant Scanning(t, w, c, open, i, lc, j, rc)
      invariant lp == w.start + 2 * i && rp == w.start + 2 * j - 3
      invariant (i == 0 && rp < lp) || At(t, w.nums[rp], rc) <= 0
      decreases j - i
    {
      ScanningLeft(t, w, c, open, i, lc, j, rc);
      lc, lp := At(t, w.nums[lp], lc), lp + 2;
      i := i + 1;
    }
  }

  // ----- what one scan leads to

  ghost function Progress(e: CosetEnumerator): Measure
    requires Shape(e.table)
    reads e
  {
    Measure(|e.ls.live|, Undefined(e.table), e.dedfst, e.dedlst)
  }

  lemma {:induction false} ScanningGap(t: Table, w: Relator, c: int, open: set<int>, i: int, lc: int, rc: int)
    requires Shape(t) && Laid(t.ref, w) && 1 <= c <= t.n && Scanning(t, w, c, open, i, lc, i + 1, rc)
    requires c in open || w.len >= 2
    ensures Gap(t, w, c, i, lc, rc) && lc in open && rc in open && c in open
    ensures w.nums[w.start + 2 * i - 1] == Inv(w.nums[w.start + 2 * i])
    ensures Cell(t, Inv(w.nums[w.start + 2 * i]), rc)
  {
    assert LetterAt(t.ref, w, i);
    InvFacts(t, w.nums[w.start + 2 * i]);
    assert w.start + 2 * (i + 1) - 3 == w.start + 2 * i - 1;
  }

  /** The walk of w from c, carried to a later table in which the last letter is there, is closed. */
  lemma {:induction false} GapCloses(t: Table, u: Table, rep: seq<int>, w: Relator, c: int, i: int, lc: int, rc: int)
    requires Shape(t) && Shape(u) && SameFrame(t, u) && Consistent(t) && RepMap(t.n, rep) && Gap(t, w, c, i, lc, rc)
    requires forall g, x :: Cell(t, g, x) && 0 < At(t, g, x) <= t.n ==> At(u, g, rep[x]) == rep[At(t, g, x)]
    requires At(u, w.nums[w.start + 2 * i], rep[lc]) == rep[rc]
    ensures Walk(u, w, rep[c], 0, w.len, rep[c])
  {
    WalkEvolved(t, u, rep, w, c, 0, i, lc);
    WalkEvolved(t, u, rep, w, rc, i + 1, w.len, c);
    assert Walk(u, w, rep[lc], i, w.len, rep[c]);
    WalkJoin(u, w, rep[c], 0, i, rep[lc], w.len, rep[c]);
  }

  /** After a coincidence the clashing entry leads where the relator asks it to. */
  lemma {:induction false} ClashResolved(t: Table, u: Table, live: seq<int>, rep: seq<int>, g: int, lc: int, rc: int,
                                         a: int, b: int)
    requires Shape(t) && Consistent(t) && Cell(t, g, lc) && 1 <= rc <= t.n && Clash(t, g, lc, rc, a, b)
    requires Coincided(t, u, live, rep, a, b) && Consistent(u)
    ensures At(u, g, rep[lc]) == rep[rc]
  {
    InvFacts(t, g);
    assert Paired(t, g, lc) && Paired(t, Inv(g), rc);
    if a != At(t, g, lc) || b != rc {
      assert At(u, Inv(g), rep[rc]) == rep[a] == rep[lc];
      assert Paired(u, Inv(g), rep[rc]);
    }
  }

  /** The event has been carried out: see the single clauses. */
  ghost predicate Happened(gaps: bool, t: Table, live: seq<int>, ev: Event, u: Table, live': seq<int>, w: Relator,
                           c: int, closed: bool)
  {
    && Justified(gaps, t, ev, u) && ev.w == w && ev.c == c
    && Evolved(t, u, live, live', EventRep(ev))
    && w.start >= 0 && w.start + 2 * w.len - 1 <= |w.nums| && 1 <= c <= t.n
    && (if closed then Walk(u, w, EventRep(ev)[c], 0, w.len, EventRep(ev)[c]) else !Walk(t, w, c, 0, w.len, c))
  }

  lemma {:induction false} HappenedCoincidence(gaps: bool, t: Table, u: Table, live: seq<int>, live': seq<int>,
                                               rep: seq<int>, w: Relator, c: int, i: int, lc: int, rc: int, g: int,
                                               a: int, b: int)
    requires Shape(t) && Consistent(t) && Met(t, w, c, i, lc, rc)
    requires g == w.nums[w.start + 2 * i] && Clash(t, g, lc, rc, a, b)
    requires Coincided(t, u, live, rep, a, b) && Consistent(u) && Within(live, t.n) && live' == Survivors(live, rep)
    requires GapsFollow(t, u, rep, gaps)
    ensures Happened(gaps, t, live, Coincides(w, c, i, lc, rc, a, b, live, rep), u, live', w, c, true)
  {
    ClashResolved(t, u, live, rep, g, lc, rc, a, b);
    GapCloses(t, u, rep, w, c, i, lc, rc);
    CoincidenceEvolved(t, u, live, rep, a, b);
  }

  lemma {:induction false} CoincidenceEvolved(t: Table, u: Table, live: seq<int>, rep: seq<int>, a: int, b: int)
    requires Shape(t) && Coincided(t, u, live, rep, a, b) && Within(live, t.n)
    ensures Evolved(t, u, live, Survivors(live, rep), rep)
  {
  }

  lemma {:induction false} DeduceEvolved(t: Table, g: int, lc: int, rc: int, live: seq<int>)
    requires Shape(t) && Cell(t, g, lc) && Cell(t, Inv(g), rc) && Within(live, t.n)
    requires At(t, g, lc) <= 0 && At(t, Inv(g), rc) <= 0
    ensures Evolved(t, Deduce(t, g, lc, rc), live, live, Identity(t.n))
    ensures At(Deduce(t, g, lc, rc), g, lc) == rc
  {
    SurvivorsIdentity(live, t.n);
  }

  lemma {:induction false} DeductionJustified(gaps: bool, t: Table, w: Relator, c: int, i: int, lc: int, rc: int,
                                              g: int, u: Table)
    requires Shape(t) && Consistent(t) && Gap(t, w, c, i, lc, rc) && g == w.nums[w.start + 2 * i]
    requires Missing(t, g, lc) && Missing(t, Inv(g), rc) && u == Deduce(t, g, lc, rc)
    ensures Justified(gaps, t, Deduces(w, c, i, lc, rc, t.n), u)
  {
    DeduceConsistent(t, g, lc, rc);
  }

  lemma {:induction false} HappenedDeduction(gaps: bool, t: Table, live: seq<int>, w: Relator, c: int, i: int,
                                             lc: int, rc: int, g: int, u: Table)
    requires Shape(t) && Consistent(t) && Gap(t, w, c, i, lc, rc) && Within(live, t.n)
    requires g == w.nums[w.start + 2 * i] && Missing(t, g, lc) && Missing(t, Inv(g), rc) && u == Deduce(t, g, lc, rc)
    ensures Happened(gaps, t, live, Deduces(w, c, i, lc, rc, t.n), u, live, w, c, true)
  {
    DeductionJustified(gaps, t, w, c, i, lc, rc, g, u);
    DeduceEvolved(t, g, lc, rc, live);
    GapDeduced(t, u, w, c, i, lc, rc, live);
  }

  lemma {:induction false} GapDeduced(t: Table, u: Table, w: Relator, c: int, i: int, lc: int, rc: int, live: seq<int>)
    requires Shape(t) && Consistent(t) && Gap(t, w, c, i, lc, rc) && Evolved(t, u, live, live, Identity(t.n))
    requires At(u, w.nums[w.start + 2 * i], lc) == rc
    ensures Walk(u, w, c, 0, w.len, c)
  {
    GapCloses(t, u, Identity(t.n), w, c, i, lc, rc);
  }

  lemma {:induction false} SamePositiveEvolved(t: Table, u: Table, live: seq<int>)
    requires Shape(t) && Shape(u) && SameFrame(t, u) && Consistent(t) && SamePositive(t, u) && Within(live, t.n)
    ensures Evolved(t, u, live, live, Identity(t.n)) && Consistent(u)
  {
    SamePositiveFacts(t, u, Identity(t.n));
    SurvivorsIdentity(live, t.n);
  }

  lemma {:induction false} NotClosed(t: Table, w: Relator, c: int, i: int, lc: int)
    requires Shape(t) && Laid(t.ref, w) && 0 <= i < w.len
    requires Walk(t, w, c, 0, i, lc) && Missing(t, w.nums[w.start + 2 * i], lc)
    ensures !Walk(t, w, c, 0, w.len, c)
  {
    if Walk(t, w, c, 0, w.len, c) {
      ForwardStops(t, w, c, i, lc, w.len, c);
    }
  }

  lemma {:induction false} MarksJustified(t: Table, w: Relator, c: int, i: int, lc: int, rc: int, u: Table)
    requires Shape(t) && Consistent(t) && MinimalGap(t, w, c, i, lc, rc) && Shape(u) && Consistent(u)
    requires u == MarkBoth(t, w.nums[w.start + 2 * i], lc, w.nums[w.start + 2 * i + 1], rc)
    ensures Justified(true, t, Marks(w, c, i, lc, rc, t.n), u)
  {
  }

  lemma {:induction false} HappenedMarks(t: Table, live: seq<int>, w: Relator, c: int, i: int, lc: int, rc: int,
                                         u: Table)
    requires Shape(t) && Consistent(t) && Within(live, t.n) && MinimalGap(t, w, c, i, lc, rc)
    requires u == MarkBoth(t, w.nums[w.start + 2 * i], lc, w.nums[w.start + 2 * i + 1], rc)
    ensures Happened(true, t, live, Marks(w, c, i, lc, rc, t.n), u, live, w, c, false) && SamePositive(t, u)
  {
    MarkBothSame(t, w.nums[w.start + 2 * i], lc, w.nums[w.start + 2 * i + 1], rc);
    SamePositiveEvolved(t, u, live);
    NotClosed(t, w, c, i, lc);
    MarksJustified(t, w, c, i, lc, rc, u);
  }

  /** A scan that has stopped at two missing letters that are not next to each other. */
  lemma {:induction false} HappenedNothing(gaps: bool, t: Table, live: seq<int>, w: Relator, c: int, i: int, lc: int,
                                           j: int, rc: int)
    requires Shape(t) && Consistent(t) && Laid(t.ref, w) && 1 <= c <= t.n && 0 <= i < j - 1 < w.len
    requires Walk(t, w, c, 0, i, lc) && Walk(t, w, rc, j, w.len, c) && (gaps ==> j != i + 2) && Within(live, t.n)
    requires Missing(t, w.nums[w.start + 2 * i], lc) && Missing(t, w.nums[w.start + 2 * j - 3], rc)
    ensures Happened(gaps, t, live, Nothing(w, c, t.n), t, live, w, c, false)
  {
    WideIdle(t, gaps, w, c, i, lc, j, rc);
    NotClosed(t, w, c, i, lc);
    SurvivorsIdentity(live, t.n);
  }

  /** A scan that closes. */
  lemma {:induction false} HappenedClosed(gaps: bool, t: Table, live: seq<int>, w: Relator, c: int, i: int, lc: int,
                                          rc: int)
    requires Shape(t) && Consistent(t) && Gap(t, w, c, i, lc, rc) && Within(live, t.n)
    requires At(t, w.nums[w.start + 2 * i], lc) == rc
    ensures Happened(gaps, t, live, Nothing(w, c, t.n), t, live, w, c, true)
  {
    SurvivorsIdentity(live, t.n);
    GapCloses(t, t, Identity(t.n), w, c, i, lc, rc);
    ClosedIdle(t, gaps, w, c);
  }

  lemma {:induction false} ClashLive(t: Table, g: int, lc: int, rc: int, a: int, b: int, live: seq<int>, open: set<int>)
    requires Shape(t) && Consistent(t) && RowsIn(t, open) && Cell(t, g, lc) && 1 <= rc <= t.n
    requires Clash(t, g, lc, rc, a, b) && Coincidence.Open(open, live, []) && lc in live && rc in live
    ensures a in live && b in live
  {
    InvFacts(t, g);
    if a == At(t, g, lc) && b == rc {
      TargetsKnown(t, open, g, lc);
    } else {
      TargetsKnown(t, open, Inv(g), rc);
    }
  }

  // ----- relators at a coset that has been merged

  /** No walk of one letter or more leads to a coset whose row is empty. */
  lemma {:induction false} NoWalkTo(t: Table, w: Relator, c: int, i: int, j: int, d: int, open: set<int>)
    requires Shape(t) && Consistent(t) && RowsIn(t, open) && Laid(t.ref, w) && 0 <= i < j <= w.len
    requires 1 <= d <= t.n && d !in open
    ensures !Walk(t, w, c, i, j, d)
    decreases j - i
  {
    if Walk(t, w, c, i, j, d) {
      var g := w.nums[w.start + 2 * i];
      TargetsKnown(t, open, g, c);
      if i + 1 < j {
        NoWalkTo(t, w, At(t, g, c), i + 1, j, d, open);
      }
    }
  }

  /**
    Why relators of one letter are set apart: at a coset that has been merged, only such a relator
    has a gap that can be closed, and closing it makes an entry in the row of the merged coset.
   */
  lemma {:induction false} OneLetter(t: Table, w: Relator, c: int, open: set<int>)
    requires Shape(t) && Consistent(t) && RowsIn(t, open) && Laid(t.ref, w) && 1 <= c <= t.n && c !in open
    ensures w.len == 1 <==> exists i, lc, rc :: Gap(t, w, c, i, lc, rc)
    ensures w.len == 1 ==> Cell(t, w.nums[w.start], c) && !RowsIn(Deduce(t, w.nums[w.start], c, c), open)
  {
    if i, lc, rc :| Gap(t, w, c, i, lc, rc) {
      if i + 1 < w.len {
        NoWalkTo(t, w, rc, i + 1, w.len, c, open);
      }
    }
    if w.len == 1 {
      var g := w.nums[w.start];
      assert LetterAt(t.ref, w, 0);
      InvFacts(t, g);
      assert Gap(t, w, c, 0, c, c);
      var u := Deduce(t, g, c, c);
      assert Cell(u, g, c) && At(u, g, c) == c;
    }
  }

  // ----- runs

  ghost function RelatorSet(rels: RelatorTable): set<Relator>
  {
    set g, k | 1 <= g < |rels| && 0 <= k < |rels[g]| :: rels[g][k]
  }

  ghost function SubGenSet(subs: seq<SubGen>): set<Relator>
  {
    set k | 0 <= k < |subs| && subs[k].Open? :: subs[k].w
  }

  /** The run accounts for everything that has happened to the table since t0. */
  ghost predicate Accounted(basis: Basis, run: Run, t0: Table, live0: seq<int>,
                            t: Table, live: seq<int>, rep: seq<int>)
  {
    && Derived(basis, run) && First(run) == t0 && run.t == t
    && Evolved(t0, t, live0, live, rep)
    && forall c :: 0 <= c < |rep| ==> rep[c] == RunRep(run, c)
  }

  lemma {:induction false} AccountedStart(basis: Basis, t: Table, live: seq<int>)
    requires Shape(t) && Consistent(t) && Within(live, t.n)
    ensures Accounted(basis, Start(t), t, live, t, live, Identity(t.n))
  {
    SurvivorsIdentity(live, t.n);
  }

  /** Representatives after one more event. */
  ghost function Forth(rep: seq<int>, ev: Event): (q: seq<int>)
    ensures |q| == |rep| && forall x :: 0 <= x < |rep| ==> q[x] == StepRep(ev, rep[x])
  {
    seq(|rep|, x requires 0 <= x < |rep| => StepRep(ev, rep[x]))
  }

  lemma {:induction false} ForthComposed(n: nat, rep: seq<int>, ev: Event)
    requires RepMap(n, rep) && RepMap(n, EventRep(ev)) && rep[0] == 0
    ensures forall x :: 0 <= x < |rep| ==> 0 <= rep[x] < |EventRep(ev)|
    ensures Forth(rep, ev) == Composed(rep, EventRep(ev))
  {
  }

  lemma {:induction false} EvolvedThen(t0: Table, t: Table, u: Table, live0: seq<int>, live: seq<int>,
                                       live': seq<int>, rep: seq<int>, ev: Event)
    requires Evolved(t0, t, live0, live, rep) && Evolved(t, u, live, live', EventRep(ev))
    ensures Evolved(t0, u, live0, live', Forth(rep, ev))
  {
    ForthComposed(t.n, rep, ev);
    EvolvedTrans(t0, t, u, live0, live, live', rep, EventRep(ev));
  }

  lemma {:induction false} DefsForth(t0: Table, t: Table, u: Table, live0: seq<int>, live: seq<int>, live': seq<int>,
                                     rep: seq<int>, ev: Event, d: Defs, d': Defs, d'': Defs)
    requires Evolved(t0, t, live0, live, rep) && Evolved(t, u, live, live', EventRep(ev)) && NoDup(live)
    requires DefsMoved(live0, rep, d, d') && DefsMoved(live, EventRep(ev), d', d'')
    ensures DefsMoved(live0, Forth(rep, ev), d, d'')
  {
    ForthComposed(t.n, rep, ev);
    DefsThen(live0, t.n, rep, EventRep(ev), d, d', d'');
  }

  lemma {:induction false} AccountedThen(basis: Basis, run: Run, t0: Table, live0: seq<int>, rep: seq<int>,
                                         t: Table, live: seq<int>, ev: Event, u: Table, live': seq<int>)
    requires Accounted(basis, run, t0, live0, t, live, rep)
    requires Justified(basis.gaps, t, ev, u) && Draws(basis, ev) && Evolved(t, u, live, live', EventRep(ev))
    ensures Accounted(basis, Then(run, ev, u), t0, live0, u, live', Forth(rep, ev))
  {
    EvolvedThen(t0, t, u, live0, live, live', rep, ev);
  }

  /** Subgroup generators are only taken off the list when their walk from coset 1 is closed. */
  ghost predicate SubGensKept(t: Table, subs0: seq<SubGen>, subs: seq<SubGen>)
    requires Shape(t) && SubGensLaid(t.ref, subs0)
  {
    && |subs| <= |subs0|
    && (forall k :: 0 <= k < |subs| && subs[k].Open? ==> subs[k] == subs0[k])
    && (forall k {:trigger subs0[k].w} :: 0 <= k < |subs0| && subs0[k].Open? && (k >= |subs| || subs[k].Done?) ==>
          Walk(t, subs0[k].w, 1, 0, subs0[k].w.len, 1))
  }

  lemma {:induction false} SubGensKeptThen(gaps: bool, t: Table, ev: Event, u: Table, live: seq<int>, live': seq<int>,
                                           w: Relator, c: int, closed: bool, subs0: seq<SubGen>, subs: seq<SubGen>)
    requires Happened(gaps, t, live, ev, u, live', w, c, closed) && SubGensLaid(t.ref, subs0) && t.n >= 1
    requires SubGensKept(t, subs0, subs)
    ensures SubGensKept(u, subs0, subs)
  {
    forall k | 0 <= k < |subs0| && subs0[k].Open? && (k >= |subs| || subs[k].Done?)
      ensures Walk(u, subs0[k].w, 1, 0, subs0[k].w.len, 1)
    {
      WalkEvolved(t, u, EventRep(ev), subs0[k].w, 1, 0, subs0[k].w.len, 1);
    }
  }

  /** Taking generator i off the list, with completed ones behind position m. */
  lemma {:induction false} SubGensCompleted(t: Table, subs0: seq<SubGen>, subs: seq<SubGen>, i: int, m: int)
    requires Shape(t) && SubGensLaid(t.ref, subs0) && SubGensKept(t, subs0, subs)
    requires 0 <= i < |subs| && subs[i].Open? && Walk(t, subs[i].w, 1, 0, subs[i].w.len, 1)
    requires 0 <= m <= |subs| && forall k :: m <= k < |subs| ==> k == i || subs[k].Done?
    ensures SubGensKept(t, subs0, subs[i := Done][..m])
  {
    var subs' := subs[i := Done][..m];
    forall k | 0 <= k < |subs0| && subs0[k].Open? && (k >= |subs'| || subs'[k].Done?)
      ensures Walk(t, subs0[k].w, 1, 0, subs0[k].w.len, 1)
    {
      if k == i {
        assert subs0[k] == subs[k];
      } else {
        assert k >= |subs| || subs[k].Done?;
      }
    }
  }

  // ----- what is still to be looked at

  ghost function Words(rels: RelatorTable): (r: seq<seq<seq<int>>>)
    ensures |r| == |rels| && forall g :: 0 <= g < |rels| ==> |r[g]| == |rels[g]| && forall k :: 0 <= k < |rels[g]| ==>
            r[g][k] == Word(rels[g][k])
  {
    seq(|rels|, g requires 0 <= g < |rels| => seq(|rels[g]|, k requires 0 <= k < |rels[g]| => Word(rels[g][k])))
  }

  ghost function Now(e: CosetEnumerator): Snap
    reads e
  {
    Snap(e.table, e.pl, e.ls.open, |e.ls.live|)
  }

  /** Entries, deductions and live cosets go together when an event happens. */
  lemma {:induction false} HappenedOnward(gaps: bool, a: Snap, live: seq<int>, ev: Event, b: Snap, live': seq<int>,
                                          w: Relator, c: int, closed: bool)
    requires Happened(gaps, a.t, live, ev, b.t, live', w, c, closed)
    requires Sound(b.t) && RowsIn(b.t, b.open) && Coincidence.Open(a.open, live, []) &&
             Coincidence.Open(b.open, live', [])
    requires Tracked(a.t, b.t, b.pl.added) && Grew(a.pl, b.pl) && Thrifty(a, b)
    ensures Onward(a, b)
  {
    var rep := EventRep(ev);
    forall x | x in b.open
      ensures x in a.open
    {
      SurvivorsMember(live, rep, x);
    }
    forall g, p | Defined(a.t, g, p) && p in b.open && At(a.t, g, p) in b.open
      ensures Edge(b.t, g, p, At(a.t, g, p))
    {
      SurvivorsMember(live, rep, p);
      SurvivorsMember(live, rep, At(a.t, g, p));
      assert At(b.t, g, rep[p]) == rep[At(a.t, g, p)];
    }
    assert Lasting(a.t, b.t, b.open);
    assert b.open <= a.open;
    assert Carries(a.t, a.pl.added, b.t, b.pl.added, b.open);
  }

  /** A scan that has closed leaves no loop from its coset open. */
  lemma {:induction false} HappenedSettled(gaps: bool, t: Table, live: seq<int>, ev: Event, u: Table, live': seq<int>,
                                           w: Relator, c: int, open: set<int>)
    requires Happened(gaps, t, live, ev, u, live', w, c, true)
    requires Sound(u) && RowsIn(u, open) && Coincidence.Open(open, live', []) && Laid(u.ref, w)
    ensures Settled(u, [], Word(w), c)
  {
    var rep := EventRep(ev);
    if rep[c] == c {
      TracedSettled(u, w, c, []);
    } else {
      SurvivorsMember(live, rep, c);
      DeadSettled(u, Word(w), c, open, []);
    }
  }

  lemma {:induction false} SettledSame(t: Table, u: Table, w: seq<int>, c: int)
    requires Shape(t) && Shape(u) && SameFrame(t, u) && SamePositive(t, u) && Settled(t, [], w, c)
    ensures Settled(u, [], w, c)
  {
    forall ps, i: nat | Loop(u, w, ps, i) && ps[0] == c
      ensures Step(u, w, ps, i)
    {
      forall k: nat | k < |w| && (k != i || |w| == 1)
        ensures k != i ==> Step(t, w, ps, k)
        ensures Defined(t, w[k], ps[k])
      {
        assert k != i ==> Step(u, w, ps, k);
        assert At(u, w[k], ps[k]) == At(t, w[k], ps[k]);
      }
      assert Loop(t, w, ps, i);
      assert At(u, w[i], ps[i]) == At(t, w[i], ps[i]);
    }
  }

  /** A scan that has stopped at two missing letters leaves none open, either. */
  lemma {:induction false} ScanningSettled(t: Table, w: Relator, c: int, open: set<int>, i: int, lc: int, lp: int,
                                           j: int, rc: int, rp: int)
    requires Sound(t) && Laid(t.ref, w) && 1 <= c <= t.n && Scanning(t, w, c, open, i, lc, j, rc)
    requires lp == w.start + 2 * i && rp == w.start + 2 * j - 3 && lp < rp && At(t, w.nums[lp], lc) <= 0 &&
             At(t, w.nums[rp], rc) <= 0
    ensures Settled(t, [], Word(w), c)
  {
    GapSettled(t, w, c, i, lc, j, rc, []);
  }

  /** If the two missing letters are next to each other, this is a minimal gap. */
  lemma {:induction false} StoppedMinimal(t: Table, w: Relator, c: int, open: set<int>, i: int, lc: int, lp: int,
                                          j: int, rc: int, rp: int)
    requires Sound(t) && Laid(t.ref, w) && 1 <= c <= t.n && Scanning(t, w, c, open, i, lc, j, rc)
    requires lp == w.start + 2 * i && rp == w.start + 2 * j - 3 && lp == rp - 1
    requires At(t, w.nums[lp], lc) <= 0 && At(t, w.nums[rp], rc) <= 0
    ensures MinimalGap(t, w, c, i, lc, rc) && rp == w.start + 2 * i + 1
  {
    assert LetterAt(t.ref, w, i) && LetterAt(t.ref, w, i + 1);
  }

  /** The subgroup generators from i on that are still open wait at coset 1 for entries on the stack. */
  ghost predicate SubsFrom(t: Table, s: seq<(int, int)>, subs: seq<SubGen>, i: int)
  {
    forall k {:trigger SubWaits(t, s, subs[k])} :: 0 <= i <= k < |subs| ==> SubWaits(t, s, subs[k])
  }

  ghost predicate SubWaits(t: Table, s: seq<(int, int)>, sub: SubGen)
  {
    sub.Open? ==> Settled(t, s, Word(sub.w), 1)
  }

  lemma {:induction false} SubsCarried(a: Snap, b: Snap, subs: seq<SubGen>, i: int)
    requires Onward(a, b) && SubsFrom(a.t, a.pl.added, subs, i)
    ensures SubsFrom(b.t, b.pl.added, subs, i)
  {
    forall k | 0 <= i <= k < |subs|
      ensures SubWaits(b.t, b.pl.added, subs[k])
    {
      assert SubWaits(a.t, a.pl.added, subs[k]);
      if subs[k].Open? {
        SettledCarried(a.t, a.pl.added, b.t, b.pl.added, b.open, Word(subs[k].w), 1);
      }
    }
  }

  lemma {:induction false} SubsOneMore(a: Snap, b: Snap, subs: seq<SubGen>, i: int)
    requires 1 <= i <= |subs| && subs[i - 1].Open? && Onward(a, b) && SubsFrom(a.t, a.pl.added, subs, i)
    requires Settled(b.t, [], Word(subs[i - 1].w), 1)
    ensures SubsFrom(b.t, b.pl.added, subs, i - 1)
  {
    SubsCarried(a, b, subs, i);
    SettledMore(b.t, [], b.pl.added, Word(subs[i - 1].w), 1);
    SubsLower(b.t, b.pl.added, subs, i);
  }

  lemma {:induction false} SubsLower(t: Table, s: seq<(int, int)>, subs: seq<SubGen>, i: int)
    requires 1 <= i <= |subs| && SubWaits(t, s, subs[i - 1]) && SubsFrom(t, s, subs, i)
    ensures SubsFrom(t, s, subs, i - 1)
  {
    forall k | i - 1 <= k < |subs|
      ensures SubWaits(t, s, subs[k])
    {
      assert k == i - 1 || k >= i;
    }
  }

  lemma {:induction false} SubsDone(t: Table, s: seq<(int, int)>, subs: seq<SubGen>, i: int)
    requires 1 <= i <= |subs| && subs[i - 1].Done? && SubsFrom(t, s, subs, i)
    ensures SubsFrom(t, s, subs, i - 1)
  {
    SubsLower(t, s, subs, i);
  }

  /** None of the subgroup generators that are still listed from i on was closed in this table. */
  ghost predicate NoneClosed(t: Table, subs: seq<SubGen>, i: int)
  {
    Shape(t) && forall k {:trigger OpenAt(t, subs[k])} :: 0 <= i <= k < |subs| ==> OpenAt(t, subs[k])
  }

  ghost predicate OpenAt(t: Table, sub: SubGen)
    requires Shape(t)
  {
    sub.Open? && Laid(t.ref, sub.w) ==> !Walk(t, sub.w, 1, 0, sub.w.len, 1)
  }

  lemma {:induction false} NoneLower(t: Table, subs: seq<SubGen>, i: int)
    requires 1 <= i <= |subs| && NoneClosed(t, subs, i) && OpenAt(t, subs[i - 1])
    ensures NoneClosed(t, subs, i - 1)
  {
    forall k | i - 1 <= k < |subs|
      ensures OpenAt(t, subs[k])
    {
      assert k == i - 1 || k >= i;
    }
  }

  /** A generator that is closed stays closed; so if it is not, it was not. */
  lemma {:induction false} WasOpen(t0: Table, t: Table, live0: seq<int>, live: seq<int>, rep: seq<int>, sub: SubGen)
    requires Evolved(t0, t, live0, live, rep) && Consistent(t0) && t0.n >= 1 && OpenAt(t, sub)
    ensures OpenAt(t0, sub)
  {
    if sub.Open? && Laid(t0.ref, sub.w) && Walk(t0, sub.w, 1, 0, sub.w.len, 1) {
      WalkEvolved(t0, t, rep, sub.w, 1, 0, sub.w.len, 1);
    }
  }

  lemma {:induction false} CompletedRest(t: Table, s: seq<(int, int)>, t0: Table, subs0: seq<SubGen>,
                                         subs: seq<SubGen>, i: int, i': int)
    requires 1 <= i' <= i <= |subs0| && |subs| <= |subs0|
    requires SubsFrom(t, s, subs0, i - 1) && NoneClosed(t0, subs0, i)
    requires forall k :: i' - 1 <= k < |subs| && subs[k].Open? ==> k >= i && subs[k] == subs0[k]
    ensures SubsFrom(t, s, subs, i' - 1) && NoneClosed(t0, subs, i' - 1)
  {
    forall k | i' - 1 <= k < |subs|
      ensures SubWaits(t, s, subs[k]) && OpenAt(t0, subs[k])
    {
      if subs[k].Open? {
        assert SubWaits(t, s, subs0[k]) && OpenAt(t0, subs0[k]);
      }
    }
  }

  /** Either the subgroup generators have been applied, or nothing has been done, for want of the entry. */
  ghost predicate SubsAfter(a: Snap, z: Snap, subs0: seq<SubGen>, subs: seq<SubGen>, g: int, c: int)
  {
    SubsFrom(z.t, z.pl.added, subs, 0) || (subs == subs0 && z == a && Shape(a.t) && !Defined(a.t, g, c))
  }

  /** Nothing waits for an entry that is not there. */
  lemma {:induction false} SettledWithout(t: Table, s: seq<(int, int)>, g: int, c: int, w: seq<int>, d: int)
    requires Sound(t) && 1 <= g < |t.ref| && !Defined(t, g, c) && Settled(t, [(g, c)] + s, w, d)
    ensures Settled(t, s, w, d)
  {
    forall ps, i: nat | Loop(t, w, ps, i) && ps[0] == d
      ensures Step(t, w, ps, i) || Hit(t, s, w, ps, i)
    {
      if !Step(t, w, ps, i) {
        var k :| 0 <= k < |w| && (k != i || |w| == 1) && Waiting(t, [(g, c)] + s, w[k], ps[k]);
        if !Waiting(t, s, w[k], ps[k]) {
          NamedBy(t, s, g, c, w[k], ps[k]);
          EdgeBack(t, w[k], ps[k], At(t, w[k], ps[k]));
        }
      }
    }
  }

  /** What the subgroup generators waited for is pending, apart from the deduction that has been worked off. */
  lemma {:induction false} SubsStay(a: Snap, z: Snap, rels: RelatorTable, subs0: seq<SubGen>, subs: seq<SubGen>,
                                    g: int, c: int)
    requires DoneWith(a, z, rels, g, c) && Sound(a.t) && |rels| == |a.t.ref| && a.pl.added == []
    requires a.pl.ds == a.pl.list && !z.pl.lost
    requires SubsFrom(a.t, a.pl.list[a.pl.fst..], subs0, 0) && SubsAfter(a, z, subs0, subs, g, c)
    ensures a.pl.fst + 1 <= |z.pl.list| && SubsFrom(z.t, z.pl.list[a.pl.fst + 1..], subs, 0)
  {
    var k, p := a.pl.fst, a.pl.list[a.pl.fst + 1..];
    assert a.pl.list[k..] == [(g, c)] + p;
    assert z.pl.list[k + 1..] == p + z.pl.added;
    forall j | 0 <= j < |subs|
      ensures SubWaits(z.t, p + z.pl.added, subs[j])
    {
      if subs[j].Open? {
        if SubsFrom(z.t, z.pl.added, subs, 0) {
          assert SubWaits(z.t, z.pl.added, subs[j]);
          SettledMore(z.t, z.pl.added, p + z.pl.added, Word(subs[j].w), 1);
        } else {
          assert p + [] == p;
          assert SubWaits(a.t, [(g, c)] + p, subs[j]);
          SettledWithout(a.t, p, g, c, Word(subs[j].w), 1);
        }
      }
    }
  }

  /**
    From one call to the next: when all consequences have been drawn, and a new coset b is defined as the image of a,
    then relators and subgroup generators wait for this definition only.
   */
  lemma {:induction false} DefinitionAwaited(t: Table, open: set<int>, words: seq<seq<seq<int>>>, subs: seq<SubGen>,
                                             g: int, a: int, b: int)
    requires Sound(t) && RowsIn(t, open) && a in open && Missing(t, g, a) && Missing(t, Inv(g), b)
    requires Stable(t, words) && SubsFrom(t, [], subs, 0)
    ensures var u := Deduce(t, g, a, b); Awaits(u, [(g, a)], words) && SubsFrom(u, [(g, a)], subs, 0)
  {
    var s: seq<(int, int)> := [];
    var u, live := Deduce(t, g, a, b), open + {b};
    StableAwaits(t, words);
    DeduceCarries(t, s, g, a, b, [(g, a)], live);
    AwaitsCarried(t, s, u, [(g, a)], live, words);
    forall k | 0 <= k < |subs|
      ensures SubWaits(u, [(g, a)], subs[k])
    {
      assert SubWaits(t, s, subs[k]);
      if subs[k].Open? {
        SettledCarried(t, s, u, [(g, a)], live, Word(subs[k].w), 1);
      }
    }
  }

  lemma {:induction false} WordsProper(t: Table, rels: RelatorTable)
    requires RelatorsLaid(t.ref, rels)
    ensures Proper(t, Words(rels))
  {
    forall x, m | 1 <= x < |rels| && 0 <= m < |rels[x]|
      ensures Letters(t, Words(rels)[x][m]) && |Words(rels)[x][m]| >= 2
    {
      assert Laid(t.ref, rels[x][m]);
      WordLetters(t, rels[x][m]);
    }
  }

  /** One deduction has been worked off; those behind it and those added to the list are pending. */
  lemma {:induction false} PendingDone(a: Snap, z: Snap, words: seq<seq<seq<int>>>, g: int, c: int)
    requires Onward(a, z) && Proper(a.t, words) && Full(a.t, words) && 1 <= g < |words|
    requires a.pl.added == [] && a.pl.ds == a.pl.list && 0 <= a.pl.fst < |a.pl.list| && a.pl.list[a.pl.fst] == (g, c)
    requires z.pl.list == z.pl.ds + z.pl.added
    requires Defined(z.t, g, c) ==> SettledList(z.t, z.pl.added, words[g], |words[g]|, c)
    requires Awaits(a.t, a.pl.list[a.pl.fst..], words)
    ensures a.pl.fst + 1 <= |z.pl.list| && Awaits(z.t, z.pl.list[a.pl.fst + 1..], words)
  {
    var k, p := a.pl.fst, a.pl.list[a.pl.fst + 1..];
    assert a.pl.list[k..] == [(g, c)] + p;
    assert z.pl.list[k + 1..] == p + z.pl.added;
    DeductionDone(a, z, words, g, c, p);
  }

  /** From a to z the deduction (g, c) has been worked off. */
  ghost predicate DoneWith(a: Snap, z: Snap, rels: RelatorTable, g: int, c: int)
  {
    && Onward(a, z) && 0 <= a.pl.fst < |a.pl.list| && a.pl.list[a.pl.fst] == (g, c) && 1 <= g < |rels|
    && (!z.pl.lost ==> z.pl.list == z.pl.ds + z.pl.added)
    && (!z.pl.lost && Defined(z.t, g, c) ==>
        SettledList(z.t, z.pl.added, Words(rels)[g], |rels[g]|, c))
  }

  lemma {:induction false} StillOnTrack(a: Snap, z: Snap, rels: RelatorTable, g: int, c: int)
    requires DoneWith(a, z, rels, g, c) && RelatorsLaid(a.t.ref, rels) && a.pl.added == [] && a.pl.ds == a.pl.list &&
             !z.pl.lost
    requires Full(a.t, Words(rels)) && Awaits(a.t, a.pl.list[a.pl.fst..], Words(rels))
    ensures a.pl.fst + 1 <= |z.pl.list| && Awaits(z.t, z.pl.list[a.pl.fst + 1..], Words(rels)) &&
            Full(z.t, Words(rels))
  {
    WordsProper(a.t, rels);
    PendingDone(a, z, Words(rels), g, c);
  }

  /** The deductions that one call can make fit into the list. */
  ghost predicate Roomy(t: Table, live: nat)
  {
    Shape(t) && 1 + |Undefined(t)| + Cost(|t.ref| - 1, live) <= DED_SIZE
  }

  lemma {:induction false} RoomyFits(s: Snap)
    requires Roomy(s.t, s.live) && |s.pl.list| == 1
    ensures Fits(s)
  {
  }

  /** The cells of the first k columns of a table with n rows. */
  ghost function Cells(k: nat, n: nat): (s: set<(int, int)>)
    ensures forall x :: x in s <==> 1 <= x.0 <= k && 1 <= x.1 <= n
    ensures |s| == k * n
  {
    if k == 0 then {}
    else
      var a, b := Cells(k - 1, n), ColumnCells(k, n);
      assert a !! b && |a + b| == |a| + |b| && (k - 1) * n + n == k * n;
      a + b
  }

  ghost function ColumnCells(k: nat, n: nat): (s: set<(int, int)>)
    ensures |s| == n && forall x :: x in s <==> x.0 == k && 1 <= x.1 <= n
  {
    if n == 0 then {} else ColumnCells(k, n - 1) + {(k, n)}
  }

  lemma {:induction false} CostIs(columns: nat, k: nat)
    ensures Cost(columns, k) == 5 * (columns * k)
  {
    if k > 0 {
      CostIs(columns, k - 1);
      assert columns * (k - 1) + columns == columns * k;
    }
  }

  lemma {:induction false} TimesMore(a: nat, b: nat, c: nat)
    requires b <= c
    ensures a * b <= a * c
  {
  }

  /** Tables with few enough rows and columns are roomy. */
  lemma {:induction false} SmallTable(t: Table, live: nat)
    requires Shape(t) && live <= t.n && 6 * ((|t.ref| - 1) * t.n) < DED_SIZE
    ensures Roomy(t, live)
  {
    var k := |t.ref| - 1;
    var cells := Cells(k, t.n);
    Fewer(Undefined(t), cells);
    CostIs(k, live);
    TimesMore(k, live, t.n);
  }

  lemma {:induction false} EnterFacts(t: Table, g: int, lc: int, rc: int, open: set<int>, s: seq<(int, int)>)
    requires Shape(t) && Consistent(t) && RowsIn(t, open) && Missing(t, g, lc) && Missing(t, Inv(g), rc)
    requires lc in open && rc in open
    ensures var u := Deduce(t, g, lc, rc);
            && Consistent(u) && RowsIn(u, open) && Undefined(u) < Undefined(t) && Tracked(t, u, s + [(g, lc)])
  {
    DeduceConsistent(t, g, lc, rc);
    DeduceRows(t, g, lc, rc, open);
    assert (g, lc) in s + [(g, lc)];
    DeduceFresh(t, s + [(g, lc)], g, lc, rc);
  }

  // ----- the arguments of one call

  /** A run together with the representatives it has led to. */
  datatype Log = Log(run: Run, rep: seq<int>)

  /**
    The state at the start of a call: `full` and `waits` say that the relators, and the subgroup generators, wait
    for the new definition only.
   */
  datatype Before = Before(basis: Basis, t: Table, live: seq<int>, free: seq<int>, defs: Defs, subs: seq<SubGen>,
                           full: bool, waits: bool)

  /** The log accounts for the state. */
  ghost predicate OnRecord(log: Log, b: Before, rels: RelatorTable, subs: seq<SubGen>, gaps: bool, t: Table,
                           live: seq<int>, free: seq<int>, d: Defs, nrdel: int)
  {
    && Shape(t) && RelatorsLaid(t.ref, rels) && SubGensLaid(t.ref, b.subs)
    && b.basis == Basis(RelatorSet(rels), SubGenSet(b.subs), gaps)
    && Accounted(b.basis, log.run, b.t, b.live, t, live, log.rep)
    && DefsMoved(b.live, log.rep, b.defs, d)
    && SubGensKept(t, b.subs, subs)
    && b.free <= free && nrdel == |free| - |b.free|
  }

  /** One more event is entered into the log. */
  lemma {:induction false} Logged(log: Log, b: Before, subs: seq<SubGen>, t: Table, live: seq<int>, d: Defs,
                                  ev: Event, u: Table, live': seq<int>, d': Defs, w: Relator, c: int, closed: bool)
    returns (log': Log)
    requires Accounted(b.basis, log.run, b.t, b.live, t, live, log.rep) && DefsMoved(b.live, log.rep, b.defs, d)
    requires Happened(b.basis.gaps, t, live, ev, u, live', w, c, closed) && NoDup(live)
    requires DefsMoved(live, EventRep(ev), d, d') && (w in b.basis.rels || (w in b.basis.subs && c == 1))
    requires SubGensLaid(t.ref, b.subs) && SubGensKept(t, b.subs, subs)
    ensures Accounted(b.basis, log'.run, b.t, b.live, u, live', log'.rep) && DefsMoved(b.live, log'.rep, b.defs, d')
    ensures u.ref == t.ref && SubGensKept(u, b.subs, subs)
    ensures closed && c == 1 ==> Walk(u, w, 1, 0, w.len, 1)
  {
    AccountedThen(b.basis, log.run, b.t, b.live, log.rep, t, live, ev, u, live');
    DefsForth(b.t, t, u, b.live, live, live', log.rep, ev, b.defs, d, d');
    SubGensKeptThen(b.basis.gaps, t, ev, u, live, live', w, c, closed, b.subs, subs);
    log' := Log(Then(log.run, ev, u), Forth(log.rep, ev));
  }

  lemma {:induction false} StillOpen(log: Log, b: Before, t: Table, live: seq<int>, subs: seq<SubGen>, i: int)
    requires Accounted(b.basis, log.run, b.t, b.live, t, live, log.rep) && t.n >= 1
    requires 1 <= i <= |subs| && NoneClosed(b.t, subs, i) && subs[i - 1].Open? && Laid(t.ref, subs[i - 1].w)
    requires !Walk(t, subs[i - 1].w, 1, 0, subs[i - 1].w.len, 1)
    ensures NoneClosed(b.t, subs, i - 1)
  {
    FirstConsistent(b.basis, log.run);
    WasOpen(b.t, t, b.live, live, log.rep, subs[i - 1]);
    NoneLower(b.t, subs, i);
  }

  /** Relators and subgroup generators go on waiting for pending deductions. */
  lemma {:induction false} TrackStays(a: Snap, z: Snap, rels: RelatorTable, subs0: seq<SubGen>, subs: seq<SubGen>,
                                      g: int, c: int, b: Before)
    requires DoneWith(a, z, rels, g, c) && RelatorsLaid(a.t.ref, rels) && Sound(a.t) && !z.pl.lost
    requires a.pl.added == [] && a.pl.ds == a.pl.list && SubsAfter(a, z, subs0, subs, g, c)
    requires b.full ==> Full(a.t, Words(rels)) && Awaits(a.t, a.pl.list[a.pl.fst..], Words(rels))
    requires b.waits ==> SubsFrom(a.t, a.pl.list[a.pl.fst..], subs0, 0)
    ensures a.pl.fst + 1 <= |z.pl.list|
    ensures b.full ==> Full(z.t, Words(rels)) && Awaits(z.t, z.pl.list[a.pl.fst + 1..], Words(rels))
    ensures b.waits ==> SubsFrom(z.t, z.pl.list[a.pl.fst + 1..], subs, 0)
  {
    if b.full {
      StillOnTrack(a, z, rels, g, c);
    }
    if b.waits {
      SubsStay(a, z, rels, subs0, subs, g, c);
    }
  }

  class Application {
    const e: CosetEnumerator
    const rels: RelatorTable
    var subs: seq<SubGen>

    constructor (e: CosetEnumerator, rels: RelatorTable, subs: seq<SubGen>)
      ensures this.e == e && this.rels == rels && this.subs == subs
    {
      this.e, this.rels, this.subs := e, rels, subs;
    }

    /** Enters the coincidence or deduction found where the scan of w from c has one letter left. */
    method Settle(w: Relator, c: int, lp: int, lc: int, rp: int, rc: int, ghost i: int)
      returns (ghost ev: Event)
      requires e.Valid() && Met(e.table, w, c, i, lc, rc) && lc in e.ls.live && rc in e.ls.live
      requires lp == w.start + 2 * i && rp == lp - 1 && w.nums[rp] == Inv(w.nums[lp]) && Cell(e.table, w.nums[rp], rc)
      modifies e, e.ded
      ensures e.Valid() &&
              Happened(e.minGaps != 0, old(e.table), old(e.ls.live), ev, e.table, e.ls.live, w, c, true)
      ensures DefsMoved(old(e.ls.live), EventRep(ev), old(e.DefsNow()), e.DefsNow())
      ensures Advanced(old(Progress(e)), Progress(e)) && (old(e.dedfst < e.dedlst) ==> e.dedfst < e.dedlst)
      ensures Tracked(old(e.table), e.table, e.pl.added) && Grew(old(e.pl), e.pl) && Thrifty(old(Now(e)), Now(e))
      ensures old(e.ls.free) <= e.ls.free && e.nrdel - old(e.nrdel) == |e.ls.free| - old(|e.ls.free|)
    {
      ghost var t, live := e.table, e.ls.live;
      DefsStay(live, t.n, e.DefsNow());
      var d := At(e.table, w.nums[lp], lc);
      var d' := At(e.table, w.nums[rp], rc);
      if d == rc {
        HappenedClosed(e.minGaps != 0, t, live, w, c, i, lc, rc);
        TrackedStart(t, e.pl.added);
        ThriftySame(Now(e), Now(e));
        ev := Nothing(w, c, t.n);
      } else if d > 0 {
        ev := Coincide(w, c, i, w.nums[lp], lc, rc, d, rc);
      } else if d' > 0 {
        ev := Coincide(w, c, i, w.nums[lp], lc, rc, d', lc);
      } else {
        HappenedDeduction(e.minGaps != 0, t, live, w, c, i, lc, rc, w.nums[lp], Deduce(t, w.nums[lp], lc, rc));
        ev := Deduct(w, c, i, w.nums[lp], lc, rc);
      }
    }

    method Deduct(ghost w: Relator, ghost c: int, ghost i: int, g: int, lc: int, rc: int) returns (ghost ev: Event)
      requires e.Valid() && Gap(e.table, w, c, i, lc, rc) && lc in e.ls.live && rc in e.ls.live
      requires g == w.nums[w.start + 2 * i] && Missing(e.table, g, lc) && Missing(e.table, Inv(g), rc)
      requires Happened(e.minGaps != 0, e.table, e.ls.live, Deduces(w, c, i, lc, rc, e.table.n),
                        Deduce(e.table, g, lc, rc), e.ls.live, w, c, true)
      modifies e, e.ded
      ensures e.Valid() &&
              Happened(e.minGaps != 0, old(e.table), old(e.ls.live), ev, e.table, e.ls.live, w, c, true)
      ensures EventRep(ev) == Identity(e.table.n) && e.firstDef == old(e.firstDef) && e.lastDef == old(e.lastDef)
      ensures Advanced(old(Progress(e)), Progress(e)) && e.dedfst < e.dedlst
      ensures Tracked(old(e.table), e.table, e.pl.added) && Grew(old(e.pl), e.pl) && Thrifty(old(Now(e)), Now(e))
      ensures e.ls == old(e.ls) && e.nrdel == old(e.nrdel)
    {
      ghost var ls := e.ls;
      ev := Deduces(w, c, i, lc, rc, e.table.n);
      Enter(g, lc, rc);
      assert e.ls == ls;
    }

    method Coincide(ghost w: Relator, ghost c: int, ghost i: int, ghost g: int, ghost lc: int, ghost rc: int, a: int,
                    b: int)
      returns (ghost ev: Event)
      requires e.Valid() && Met(e.table, w, c, i, lc, rc) && lc in e.ls.live && rc in e.ls.live
      requires g == w.nums[w.start + 2 * i] && Clash(e.table, g, lc, rc, a, b)
      modifies e, e.ded
      ensures e.Valid() &&
              Happened(e.minGaps != 0, old(e.table), old(e.ls.live), ev, e.table, e.ls.live, w, c, true)
      ensures DefsMoved(old(e.ls.live), EventRep(ev), old(e.DefsNow()), e.DefsNow())
      ensures Advanced(old(Progress(e)), Progress(e)) && (old(e.dedfst < e.dedlst) ==> e.dedfst < e.dedlst)
      ensures Tracked(old(e.table), e.table, e.pl.added) && Grew(old(e.pl), e.pl) && Thrifty(old(Now(e)), Now(e))
      ensures old(e.ls.free) <= e.ls.free && e.nrdel - old(e.nrdel) == |e.ls.free| - old(|e.ls.free|)
    {
      ghost var t, live := e.table, e.ls.live;
      ClashLive(t, g, lc, rc, a, b, live, e.ls.open);
      ghost var s, d := Now(e), e.DefsNow();
      ghost var rep, merged := e.HandleCoinc(a, b);
      SpendsThrifty(s, Now(e), merged);
      HappenedCoincidence(e.minGaps != 0, t, e.table, live, e.ls.live, rep, w, c, i, lc, rc, g, a, b);
      ev := Coincides(w, c, i, lc, rc, a, b, live, rep);
      assert a == b ==> e.table == t;
      assert DefsMoved(live, EventRep(ev), d, e.DefsNow());
    }

    /** Defines a missing entry in both directions and queues it as a deduction. */
    method Enter(g: int, lc: int, rc: int)
      requires e.Valid() && Cell(e.table, g, lc) && Cell(e.table, Inv(g), rc)
      requires At(e.table, g, lc) <= 0 && At(e.table, Inv(g), rc) <= 0 && lc in e.ls.open && rc in e.ls.open
      modifies e`table, e`dedfst, e`dedlst, e.ded, e`pl
      ensures e.Valid() && e.table == Deduce(old(e.table), g, lc, rc) && e.dedfst < e.dedlst
      ensures Undefined(e.table) < old(Undefined(e.table))
      ensures Tracked(old(e.table), e.table, e.pl.added) && Grew(old(e.pl), e.pl) && Thrifty(old(Now(e)), Now(e))
    {
      ghost var a, t := Now(e), e.table;
      EnterFacts(t, g, lc, rc, e.ls.open, e.pl.added);
      e.table := Put(Put(e.table, g, lc, rc), Inv(g), rc, lc);
      e.AddDeduction(g, lc);
      SpendsDeduce(t, a.pl, e.table, e.pl);
      SpendsThrifty(a, Now(e), 0);
    }

    /** Scans w from c and enters what follows; `closed` says that the scan is complete. */
    method Process(w: Relator, c: int) returns (closed: bool, ghost ev: Event)
      requires e.Valid() && Laid(e.table.ref, w) && 1 <= c <= e.table.n
      requires c in e.ls.live || w.len >= 2
      modifies e, e.ded
      ensures e.Valid() &&
              Happened(e.minGaps != 0, old(e.table), old(e.ls.live), ev, e.table, e.ls.live, w, c, closed)
      ensures DefsMoved(old(e.ls.live), EventRep(ev), old(e.DefsNow()), e.DefsNow())
      ensures Advanced(old(Progress(e)), Progress(e)) && (old(e.dedfst < e.dedlst) ==> e.dedfst < e.dedlst)
      ensures Tracked(old(e.table), e.table, e.pl.added) && Grew(old(e.pl), e.pl) && Thrifty(old(Now(e)), Now(e))
      ensures Settled(e.table, [], Word(w), c)
      ensures old(e.ls.free) <= e.ls.free && e.nrdel - old(e.nrdel) == |e.ls.free| - old(|e.ls.free|)
    {
      ghost var open := e.ls.open;
      var lp, lc, rp, rc;
      ghost var i, j;
      lp, lc, rp, rc, i, j := Scan(e.table, w, c, open);
      closed := lp == rp + 1;
      if closed {
        ev := Conclude(w, c, lp, lc, rp, rc, i);
      } else {
        ev := LeaveOpen(w, c, lp, lc, rp, rc, i, j);
      }
    }

    /** One letter is left, at most. */
    method Conclude(w: Relator, c: int, lp: int, lc: int, rp: int, rc: int, ghost i: int) returns (ghost ev: Event)
      requires e.Valid() && Laid(e.table.ref, w) && 1 <= c <= e.table.n && (c in e.ls.live || w.len >= 2)
      requires Scanning(e.table, w, c, e.ls.open, i, lc, i + 1, rc)
      requires lp == w.start + 2 * i && rp == lp - 1 && (i == 0 || At(e.table, w.nums[rp], rc) <= 0)
      modifies e, e.ded
      ensures e.Valid() && Happened(e.minGaps != 0, old(e.table), old(e.ls.live), ev, e.table, e.ls.live, w, c, true)
      ensures DefsMoved(old(e.ls.live), EventRep(ev), old(e.DefsNow()), e.DefsNow())
      ensures Advanced(old(Progress(e)), Progress(e)) && (old(e.dedfst < e.dedlst) ==> e.dedfst < e.dedlst)
      ensures Tracked(old(e.table), e.table, e.pl.added) && Grew(old(e.pl), e.pl) && Thrifty(old(Now(e)), Now(e))
      ensures Settled(e.table, [], Word(w), c)
      ensures old(e.ls.free) <= e.ls.free && e.nrdel - old(e.nrdel) == |e.ls.free| - old(|e.ls.free|)
    {
      ghost var t, live := e.table, e.ls.live;
      ScanningGap(t, w, c, e.ls.open, i, lc, rc);
      ev := Settle(w, c, lp, lc, rp, rc, i);
      HappenedSettled(e.minGaps != 0, t, live, ev, e.table, e.ls.live, w, c, e.ls.open);
    }

    /** Two letters or more are missing. */
    method LeaveOpen(w: Relator, ghost c: int, lp: int, lc: int, rp: int, rc: int, ghost i: int, ghost j: int)
        returns (ghost ev: Event)
      requires e.Valid() && Laid(e.table.ref, w) && 1 <= c <= e.table.n &&
               Scanning(e.table, w, c, e.ls.open, i, lc, j, rc)
      requires lp == w.start + 2 * i && rp == w.start + 2 * j - 3 && lp < rp && At(e.table, w.nums[lp], lc) <= 0 &&
               At(e.table, w.nums[rp], rc) <= 0
      modifies e`table
      ensures e.Valid() && Happened(e.minGaps != 0, old(e.table), e.ls.live, ev, e.table, e.ls.live, w, c, false)
      ensures DefsMoved(e.ls.live, EventRep(ev), e.DefsNow(), e.DefsNow())
      ensures Undefined(old(e.table)) == Undefined(e.table)
      ensures Tracked(old(e.table), e.table, e.pl.added) && Settled(e.table, [], Word(w), c) &&
              Thrifty(old(Now(e)), Now(e))
    {
      ghost var a, t, live, open := Now(e), e.table, e.ls.live, e.ls.open;
      ScanningSettled(t, w, c, open, i, lc, lp, j, rc, rp);
      DefsStay(live, t.n, e.DefsNow());
      if e.minGaps != 0 && lp == rp - 1 {
        // only two letters are missing: -1 marks both entries
        ev := NoteGap(w, c, lp, lc, rp, rc, i, j);
      } else {
        HappenedNothing(e.minGaps != 0, t, live, w, c, i, lc, j, rc);
        ev := Nothing(w, c, t.n);
      }
      UndefinedSame(t, e.table);
      SettledSame(t, e.table, Word(w), c);
      TrackedStart(t, e.pl.added);
      TrackedSame(t, t, e.table, e.pl.added);
      ThriftySame(a, Now(e));
    }

    /** Two letters next to each other are missing. */
    method NoteGap(w: Relator, ghost c: int, lp: int, lc: int, rp: int, rc: int, ghost i: int, ghost j: int)
        returns (ghost ev: Event)
      requires e.Valid() && Laid(e.table.ref, w) && 1 <= c <= e.table.n &&
               Scanning(e.table, w, c, e.ls.open, i, lc, j, rc)
      requires lp == w.start + 2 * i && rp == w.start + 2 * j - 3 && lp == rp - 1
      requires At(e.table, w.nums[lp], lc) <= 0 && At(e.table, w.nums[rp], rc) <= 0
      modifies e`table
      ensures e.Valid() && Happened(true, old(e.table), e.ls.live, ev, e.table, e.ls.live, w, c, false)
      ensures EventRep(ev) == Identity(e.table.n) && SamePositive(old(e.table), e.table)
    {
      ghost var t := e.table;
      StoppedMinimal(t, w, c, e.ls.open, i, lc, lp, j, rc, rp);
      MarkGaps(w.nums[lp], lc, w.nums[rp], rc);
      HappenedMarks(t, e.ls.live, w, c, i, lc, rc, e.table);
      ev := Marks(w, c, i, lc, rc, t.n);
    }

    method MarkGaps(g: int, lc: int, h: int, rc: int)
      requires e.Valid() && Cell(e.table, g, lc) && Cell(e.table, h, rc)
      requires At(e.table, g, lc) <= 0 && At(e.table, h, rc) <= 0
      modifies e`table
      ensures e.Valid() && e.table == MarkBoth(old(e.table), g, lc, h, rc)
      ensures SamePositive(old(e.table), e.table)
    {
      ghost var t := e.table;
      e.table := Put(Put(e.table, g, lc, -1), h, rc, -1);
      MarkBothSame(t, g, lc, h, rc);
      SamePositiveFacts(t, e.table, Identity(t.n));
    }

    /** A call is under way: the log accounts for the state. */
    ghost predicate Going(log: Log, b: Before)
      reads this, e, e.ded
    {
      && e.Valid() && e.dedfst <= e.dedlst
      && OnRecord(log, b, rels, subs, e.minGaps != 0, e.table, e.ls.live, e.ls.free, e.DefsNow(), e.nrdel)
    }

    /** Processes one relator or subgroup generator. */
    method Perform(w: Relator, c: int) returns (closed: bool, ghost ev: Event)
      requires e.Valid() && Laid(e.table.ref, w) && 1 <= c <= e.table.n
      requires c in e.ls.live || w.len >= 2
      modifies e, e.ded
      ensures e.Valid() &&
              Happened(e.minGaps != 0, old(e.table), old(e.ls.live), ev, e.table, e.ls.live, w, c, closed)
      ensures DefsMoved(old(e.ls.live), EventRep(ev), old(e.DefsNow()), e.DefsNow())
      ensures Advanced(old(Progress(e)), Progress(e)) && (old(e.dedfst < e.dedlst) ==> e.dedfst < e.dedlst)
      ensures Onward(old(Now(e)), Now(e)) && Settled(e.table, [], Word(w), c)
      ensures old(e.ls.free) <= e.ls.free && e.nrdel - old(e.nrdel) == |e.ls.free| - old(|e.ls.free|)
    {
      ghost var a, live := Now(e), e.ls.live;
      closed, ev := Process(w, c);
      HappenedOnward(e.minGaps != 0, a, live, ev, Now(e), e.ls.live, w, c, closed);
    }

    /** Processes one relator or subgroup generator and keeps the log. */
    method Apply(w: Relator, c: int, ghost log: Log, ghost b: Before) returns (closed: bool, ghost log': Log)
      requires Going(log, b) && Laid(e.table.ref, w) && 1 <= c <= e.table.n
      requires c in e.ls.live || w.len >= 2
      requires w in RelatorSet(rels) || (w in SubGenSet(b.subs) && c == 1)
      modifies e, e.ded
      ensures Going(log', b)
      ensures Advanced(old(Progress(e)), Progress(e)) && (old(e.dedfst < e.dedlst) ==> e.dedfst < e.dedlst)
      ensures Onward(old(Now(e)), Now(e)) && Settled(e.table, [], Word(w), c)
      ensures closed && c == 1 ==> Walk(e.table, w, 1, 0, w.len, 1)
      ensures closed || !Walk(old(e.table), w, c, 0, w.len, c)
    {
      ghost var t, live, d := e.table, e.ls.live, e.DefsNow();
      ghost var ev;
      closed, ev := Perform(w, c);
      log' := Logged(log, b, subs, t, live, d, ev, e.table, e.ls.live, e.DefsNow(), w, c, closed);
    }

    /** Removes the completed subgroup generator i and trailing completed ones; continues below the result. */
    method Complete(i: int, ghost b: Before) returns (i': int)
      requires 1 <= i <= |subs| && subs[i - 1].Open?
      requires Shape(e.table) && SubGensLaid(e.table.ref, b.subs) && SubGensKept(e.table, b.subs, subs)
      requires Walk(e.table, subs[i - 1].w, 1, 0, subs[i - 1].w.len, 1)
      modifies this`subs
      ensures SubGensKept(e.table, b.subs, subs) && 1 <= i' <= i && i' - 1 <= |subs| <= |old(subs)|
      ensures forall k :: i' - 1 <= k < |subs| && subs[k].Open? ==> k >= i && subs[k] == old(subs)[k]
    {
      ghost var subs0 := subs;
      i' := i;
      subs := subs[i - 1 := Done];
      if i' == |subs| {
        while 0 < i' && subs[i' - 1].Done?
          invariant 0 <= i' <= i == |subs0| && subs == subs0[i - 1 := Done]
          invariant forall k :: i' <= k < i ==> subs[k].Done?
        {
          i' := i' - 1;
        }
        assert forall k :: i' <= k < |subs0| ==> k == i - 1 || subs0[k] == subs[k];
        subs := subs[..i'];
        SubGensCompleted(e.table, b.subs, subs0, i - 1, i');
        i' := i' + 1;
      } else {
        SubGensCompleted(e.table, b.subs, subs0, i - 1, |subs0|);
        assert subs0[i - 1 := Done][..|subs0|] == subs;
      }
    }

    /** Applies subgroup generator i, if it is still open, and says where to continue. */
    method ApplySubGen(i: int, ghost log: Log, ghost b: Before) returns (i': int, ghost log': Log)
      requires Going(log, b) && e.dedfst < e.dedlst && 1 <= i <= |subs| && SubsFrom(e.table, e.pl.added, subs, i)
      requires NoneClosed(b.t, subs, i)
      modifies this`subs, e, e.ded
      ensures Going(log', b) && e.dedfst < e.dedlst && 1 <= i' <= i && i' - 1 <= |subs|
      ensures SubsFrom(e.table, e.pl.added, subs, i' - 1) && NoneClosed(b.t, subs, i' - 1)
      ensures Advanced(old(Progress(e)), Progress(e)) && Onward(old(Now(e)), Now(e))
    {
      i', log' := i, log;
      OnwardNone(Now(e));
      if subs[i - 1].Open? {
        i', log' := ApplyOpen(i, log, b);
      } else {
        SubsDone(e.table, e.pl.added, subs, i);
        NoneLower(b.t, subs, i);
      }
    }

    method ApplyOpen(i: int, ghost log: Log, ghost b: Before) returns (i': int, ghost log': Log)
      requires Going(log, b) && e.dedfst < e.dedlst && 1 <= i <= |subs| && subs[i - 1].Open?
      requires SubsFrom(e.table, e.pl.added, subs, i) && NoneClosed(b.t, subs, i)
      modifies this`subs, e, e.ded
      ensures Going(log', b) && e.dedfst < e.dedlst && 1 <= i' <= i && i' - 1 <= |subs|
      ensures SubsFrom(e.table, e.pl.added, subs, i' - 1) && NoneClosed(b.t, subs, i' - 1)
      ensures Advanced(old(Progress(e)), Progress(e)) && Onward(old(Now(e)), Now(e))
    {
      ghost var a, live, subs0 := Now(e), e.ls.live, subs;
      SubGenFacts(i - 1, log, b);
      var closed;
      i' := i;
      closed, log' := Apply(subs[i - 1].w, 1, log, b);
      SubsOneMore(a, Now(e), subs, i);
      if closed {
        i' := Complete(i, b);
        CompletedRest(e.table, e.pl.added, b.t, subs0, subs, i, i');
      } else {
        StillOpen(log, b, a.t, live, subs, i);
      }
    }

    /** Applies the open subgroup generators at coset 1, the last one first. */
    method ApplySubGens(ghost log: Log, ghost b: Before) returns (ghost log': Log)
      requires Going(log, b) && e.dedfst < e.dedlst
      modifies this`subs, e, e.ded
      ensures Going(log', b) && e.dedfst < e.dedlst && SubsFrom(e.table, e.pl.added, subs, 0)
      ensures NoneClosed(b.t, subs, 0)
      ensures Advanced(old(Progress(e)), Progress(e)) && Onward(old(Now(e)), Now(e))
    {
      log' := log;
      OnwardNone(Now(e));
      var i := |subs|;
      while 1 <= i
        invariant Going(log', b) && e.dedfst < e.dedlst && 0 <= i <= |subs| && SubsFrom(e.table, e.pl.added, subs, i)
        invariant NoneClosed(b.t, subs, i)
        invariant Advanced(old(Progress(e)), Progress(e)) && Onward(old(Now(e)), Now(e))
        decreases i
      {
        ghost var m, a := Progress(e), Now(e);
        i, log' := ApplySubGen(i, log', b);
        AdvancedTrans(old(Progress(e)), m, Progress(e));
        OnwardTrans(old(Now(e)), a, Now(e));
        i := i - 1;
      }
    }

    lemma {:induction false} SubGenFacts(k: int, log: Log, b: Before)
      requires Going(log, b) && 0 <= k < |subs| && subs[k].Open?
      ensures Laid(e.table.ref, subs[k].w) && subs[k].w in SubGenSet(b.subs)
      ensures 1 in e.ls.live && 1 <= e.table.n
    {
      assert b.subs[k] == subs[k];
      assert e.ls.live[0] == 1;
    }

    /** The deduction that is being worked off, as long as none has been lost. */
    ghost predicate AtHead(g: int, c: int)
      reads e
    {
      !e.pl.lost ==> 0 <= e.pl.fst < |e.pl.ds| && e.pl.ds[e.pl.fst] == (g, c)
    }

    /** The first l relators that start with g have been applied at c. */
    ghost predicate Applied(g: int, l: nat, c: int)
      requires 0 <= g < |rels| && l <= |rels[g]|
      reads this, e
    {
      !e.pl.lost ==> SettledList(e.table, e.pl.added, Words(rels)[g], l, c)
    }

    /** Extends what has been applied by relator i of column g. */
    method ApplyRelator(g: int, i: nat, ghost c: int, ghost log: Log, ghost b: Before) returns (ghost log': Log)
      requires Going(log, b) && e.dedfst < e.dedlst && 1 <= g < |rels| && i < |rels[g]| && AtHead(g, c) &&
               Applied(g, i, c)
      modifies e, e.ded
      ensures Going(log', b) && e.dedfst < e.dedlst && AtHead(g, c) && Applied(g, i + 1, c)
      ensures Advanced(old(Progress(e)), Progress(e)) && Onward(old(Now(e)), Now(e))
    {
      ghost var a := Now(e);
      var d := e.ded[e.dedfst].1;
      assert e.ded[..e.dedlst][e.dedfst] == e.pl.list[e.dedfst];
      assert !e.pl.lost ==> d == c;
      assert rels[g][i] in RelatorSet(rels);
      var closed;
      closed, log' := Apply(rels[g][i], d, log, b);
      if !e.pl.lost {
        SettledListOnward(a, Now(e), Words(rels)[g], i, c);
        SettledListExtended(e.table, e.pl.added, Words(rels)[g], i, c);
      }
    }

    /** Scans the relators of column g one after the other. */
    method ApplyRelators(g: int, ghost c: int, ghost log: Log, ghost b: Before) returns (ghost log': Log)
      requires Going(log, b) && e.dedfst < e.dedlst && 1 <= g < |rels| && AtHead(g, c)
      modifies e, e.ded
      ensures Going(log', b) && e.dedfst < e.dedlst && Applied(g, |rels[g]|, c)
      ensures Advanced(old(Progress(e)), Progress(e)) && Onward(old(Now(e)), Now(e))
    {
      log' := log;
      OnwardNone(Now(e));
      for i := 0 to |rels[g]|
        invariant Going(log', b) && e.dedfst < e.dedlst && AtHead(g, c) && Applied(g, i, c)
        invariant Advanced(old(Progress(e)), Progress(e)) && Onward(old(Now(e)), Now(e))
      {
        ghost var m, a := Progress(e), Now(e);
        log' := ApplyRelator(g, i, c, log', b);
        AdvancedTrans(old(Progress(e)), m, Progress(e));
        OnwardTrans(old(Now(e)), a, Now(e));
      }
    }

    /** The deductions that are still to be worked off. */
    ghost function Pending(): seq<(int, int)>
      reads e
    {
      if 0 <= e.dedfst <= |e.pl.list| then e.pl.list[e.dedfst..] else []
    }

    /** Relators and subgroup generators that have something to say run through an entry whose deduction is pending. */
    ghost predicate OnTrack(b: Before)
      reads this, e
    {
      && (b.full && !e.pl.lost ==> Full(e.table, Words(rels)) && Awaits(e.table, Pending(), Words(rels)))
      && (b.waits && !e.pl.lost ==> SubsFrom(e.table, Pending(), subs, 0))
    }

    /** Applies subgroup generators and relators to the deduction (g, c). */
    method Consequent(g: int, ghost c: int, ghost log: Log, ghost b: Before) returns (ghost log': Log)
      requires Going(log, b) && e.dedfst < e.dedlst && 1 <= g < |rels| && AtHead(g, c)
      modifies this`subs, e, e.ded
      ensures Going(log', b) && e.dedfst < e.dedlst && Applied(g, |rels[g]|, c)
      ensures SubsFrom(e.table, e.pl.added, subs, 0)
      ensures Advanced(old(Progress(e)), Progress(e)) && Onward(old(Now(e)), Now(e))
    {
      log' := ApplySubGens(log, b);
      ghost var m, a := Progress(e), Now(e);
      log' := ApplyRelators(g, c, log', b);
      SubsCarried(a, Now(e), subs, 0);
      AdvancedTrans(old(Progress(e)), m, Progress(e));
      OnwardTrans(old(Now(e)), a, Now(e));
    }

    /** The first deduction is done. */
    method Finish(ghost log: Log, ghost b: Before)
      requires Going(log, b) && e.dedfst < e.dedlst
      modifies e`dedfst, e`pl
      ensures Going(log, b) && e.dedfst == old(e.dedfst) + 1
      ensures e.pl == Pushes(old(e.pl.list), e.dedfst, old(e.pl.list), [], old(e.pl.lost))
    {
      e.dedfst := e.dedfst + 1;
      assert e.pl.list + [] == e.pl.list;
      e.pl := Pushes(e.pl.list, e.dedfst, e.pl.list, [], e.pl.lost);
    }

    /** The relators that start with the deduction have been applied, if it is still an entry. */
    ghost predicate Treated(g: int, c: int)
      reads this, e
    {
      0 <= g < |rels| && Shape(e.table) && (Defined(e.table, g, c) ==> Applied(g, |rels[g]|, c))
    }

    /** Deductions that are added from now on come after those that are pending. */
    ghost method Mark(log: Log, b: Before)
      requires Going(log, b)
      modifies e`pl
      ensures Going(log, b) && e.pl == Pushes(old(e.pl.list), e.dedfst, old(e.pl.list), [], old(e.pl.lost))
    {
      assert e.pl.list + [] == e.pl.list;
      e.pl := Pushes(e.pl.list, e.dedfst, e.pl.list, [], e.pl.lost);
    }

    /** Applies subgroup generators and relators to the first deduction. */
    method Treat(ghost log: Log, ghost b: Before) returns (ghost g: int, ghost c: int, ghost log': Log)
      requires Going(log, b) && e.dedfst < e.dedlst && e.pl.fst == e.dedfst && e.pl.ds == e.pl.list
      modifies this`subs, e, e.ded
      ensures Going(log', b) && e.dedfst < e.dedlst && 1 <= g < |rels| && Treated(g, c)
      ensures SubsAfter(old(Now(e)), Now(e), old(subs), subs, g, c)
      ensures old(e.dedfst < |e.pl.list| && e.dedfst >= 0) && old(e.pl.list[e.dedfst]) == (g, c)
      ensures Advanced(old(Progress(e)), Progress(e)) && Onward(old(Now(e)), Now(e))
    {
      var (x, y) := e.ded[e.dedfst];
      g, c, log' := x, y, log;
      assert e.ded[..e.dedlst][e.dedfst] == e.pl.list[e.dedfst] == (x, y);
      OnwardNone(Now(e));

      // a coincidence may have taken the entry away in the meantime
      if At(e.table, x, y) > 0 {
        log' := Consequent(x, y, log, b);
      }
    }

    /** Works off the first deduction. */
    method WorkOffDeduction(ghost log: Log, ghost b: Before) returns (ghost log': Log)
      requires Going(log, b) && e.dedfst < e.dedlst && OnTrack(b)
      modifies this`subs, e, e.ded
      ensures Going(log', b) && OnTrack(b)
      ensures Later(old(Progress(e)), Progress(e)) && Thrifty(old(Now(e)), Now(e))
    {
      ghost var p, subs0, a0 := Pending(), subs, Now(e);
      Mark(log, b);
      ghost var a := Now(e);
      ThriftySame(a0, a);
      ghost var g, c, z;
      g, c, z, log' := TreatFirst(log, b);
      ThriftyTrans(a0, a, Now(e));
      if !e.pl.lost {
        assert a.pl.list[a.pl.fst..] == p && Pending() == z.pl.list[a.pl.fst + 1..];
        TrackStays(a, z, rels, subs0, subs, g, c, b);
      }
    }

    /** Treats the first deduction and takes it off the list. */
    method TreatFirst(ghost log: Log, ghost b: Before)
        returns (ghost g: int, ghost c: int, ghost z: Snap, ghost log': Log)
      requires Going(log, b) && e.dedfst < e.dedlst && e.pl.fst == e.dedfst && e.pl.ds == e.pl.list
      modifies this`subs, e, e.ded
      ensures Going(log', b) && Later(old(Progress(e)), Progress(e))
      ensures DoneWith(old(Now(e)), z, rels, g, c) && Thrifty(old(Now(e)), Now(e))
      ensures z.t == e.table && e.pl == Pushes(z.pl.list, e.dedfst, z.pl.list, [], z.pl.lost) &&
              (!z.pl.lost ==> e.dedfst == z.pl.fst + 1)
      ensures SubsAfter(old(Now(e)), z, old(subs), subs, g, c)
    {
      g, c, log' := Treat(log, b);
      z := Now(e);
      Finish(log', b);
      ThriftySame(z, Now(e));
    }

    /**
      Finds the consequences of the definition of entry (gen, coset): returns the
      number of cosets that were deleted.  The log lists the events; `RunSound` says
      what it means for every action of the generators.  If no deduction has been lost,
      all consequences have been found.
     */
    method MakeConsequences(gen: int, coset: int) returns (deleted: int, ghost log: Log)
      requires e.Valid() && RelatorsLaid(e.table.ref, rels) && SubGensLaid(e.table.ref, subs)
      requires Cell(e.table, gen, coset)
      modifies this`subs, e, e.ded
      ensures e.Valid()
      ensures Accounted(Basis(RelatorSet(rels), SubGenSet(old(subs)), e.minGaps != 0), log.run, old(e.table),
                        old(e.ls.live), e.table, e.ls.live, log.rep)
      ensures DefsMoved(old(e.ls.live), log.rep, old(e.DefsNow()), e.DefsNow())
      ensures e.minGaps == 0 && AtLeast(old(e.table), 0) ==> AtLeast(e.table, 0)
      ensures SubGensKept(e.table, old(subs), subs)
      ensures old(e.ls.free) <= e.ls.free && deleted == |e.ls.free| - |old(e.ls.free)|
      ensures Roomy(old(e.table), old(|e.ls.live|)) ==> !e.pl.lost
      ensures Full(old(e.table), Words(rels)) && Awaits(old(e.table), [(gen, coset)], Words(rels)) && !e.pl.lost ==>
                Stable(e.table, Words(rels))
      ensures SubsFrom(old(e.table), [(gen, coset)], old(subs), 0) && !e.pl.lost ==> SubsFrom(e.table, [], subs, 0)
    {
      ghost var b;
      b, log := Prepare(gen, coset);
      log := WorkOffDeductions(log, b);
      deleted := e.nrdel;
      RunSpares(b.basis, log.run);
    }

    /** Works off all deductions. */
    method WorkOffDeductions(ghost log: Log, ghost b: Before) returns (ghost log': Log)
      requires Going(log, b) && OnTrack(b)
      modifies this`subs, e, e.ded
      ensures Going(log', b) && Thrifty(old(Now(e)), Now(e))
      ensures b.full && !e.pl.lost ==> Stable(e.table, Words(rels))
      ensures b.waits && !e.pl.lost ==> SubsFrom(e.table, [], subs, 0)
    {
      log' := log;
      ghost var s := Now(e);
      ThriftySame(s, s);
      while e.dedfst < e.dedlst
        invariant Going(log', b) && OnTrack(b) && Thrifty(s, Now(e))
        decreases |e.ls.live|, Undefined(e.table), e.dedlst - e.dedfst
      {
        ghost var a := Now(e);
        log' := WorkOffDeduction(log', b);
        ThriftyTrans(s, a, Now(e));
      }
      assert Pending() == [];
      StableAwaits(e.table, Words(rels));
    }

    method Prepare(gen: int, coset: int) returns (ghost b: Before, ghost log: Log)
      requires e.Valid() && RelatorsLaid(e.table.ref, rels) && SubGensLaid(e.table.ref, subs)
      requires Cell(e.table, gen, coset)
      modifies e`nrdel, e`dedfst, e`dedlst, e.ded, e`pl
      ensures Going(log, b) && OnTrack(b)
      ensures b == Before(b.basis, e.table, e.ls.live, e.ls.free, e.DefsNow(), subs, b.full,
                          SubsFrom(e.table, [(gen, coset)], subs, 0))
      ensures b.full <==> Full(e.table, Words(rels)) && Awaits(e.table, [(gen, coset)], Words(rels))
      ensures !e.pl.lost && (Roomy(e.table, |e.ls.live|) ==> Fits(Now(e)))
    {
      b := Before(Basis(RelatorSet(rels), SubGenSet(subs), e.minGaps != 0), e.table, e.ls.live, e.ls.free,
                  e.DefsNow(), subs,
                  Full(e.table, Words(rels)) && Awaits(e.table, [(gen, coset)], Words(rels)),
                  SubsFrom(e.table, [(gen, coset)], subs, 0));
      log := Log(Start(e.table), Identity(e.table.n));
      AccountedStart(b.basis, e.table, e.ls.live);
      DefsStay(e.ls.live, e.table.n, e.DefsNow());
      Initialize(gen, coset);
      assert Pending() == [(gen, coset)];
      if Roomy(e.table, |e.ls.live|) {
        RoomyFits(Now(e));
      }
    }

    /** The new definition is the first and only deduction. */
    method Initialize(gen: int, coset: int)
      requires e.Valid() && Cell(e.table, gen, coset)
      modifies e`nrdel, e`dedfst, e`dedlst, e.ded, e`pl
      ensures e.Valid() && e.nrdel == 0 && e.dedfst == 0 && e.dedlst == 1 &&
              e.pl == Pushes([(gen, coset)], 0, [(gen, coset)], [], false)
    {
      e.nrdel := 0;
      e.dedfst, e.dedlst := 0, 1;
      e.ded[0] := (gen, coset);
      assert e.ded[..1] == [(gen, coset)];
      e.pl := Pushes([(gen, coset)], 0, [(gen, coset)], [], false);
    }
  }
}
