/**
  A run of consequences as a derivation: which relator, scanned from which coset,
  justified which change of the table.  Everything an action could tell about a
  run is proved about its derivation.
 */
module Derivation {
  import opened CosetTable
  import opened Coincidence
  import opened Tracing
  import opened RelatorLoops
  import opened Scans
  import opened Gaps

  /**
    What the scan of w from c comes to.  Coincidences and deductions are found where the scan has one letter left,
    letter i between lc and rc; a minimal gap has letters i and i + 1 left.
   */
  datatype Event =
    | Nothing(w: Relator, c: int, n: nat)
    | Marks(w: Relator, c: int, i: int, lc: int, rc: int, n: nat)
    | Coincides(w: Relator, c: int, i: int, lc: int, rc: int, a: int, b: int, live: seq<int>, rep: seq<int>)
    | Deduces(w: Relator, c: int, i: int, lc: int, rc: int, n: nat)

  /** The event turns t into u; `gaps` says whether minimal gaps are marked. */
  ghost predicate Justified(gaps: bool, t: Table, ev: Event, u: Table)
  {
    && Shape(t) && Shape(u) && SameFrame(t, u) && Consistent(t) && Consistent(u)
    && match ev
       case Nothing(w, c, n) =>
         n == t.n && u == t && Laid(t.ref, w) && 1 <= c <= t.n && Idle(t, gaps, w, c)
       case Marks(w, c, i, lc, rc, n) =>
         && gaps && n == t.n && MinimalGap(t, w, c, i, lc, rc)
         && u == MarkBoth(t, w.nums[w.start + 2 * i], lc, w.nums[w.start + 2 * i + 1], rc)
       case Coincides(w, c, i, lc, rc, a, b, live, rep) =>
         && Met(t, w, c, i, lc, rc) && Clash(t, w.nums[w.start + 2 * i], lc, rc, a, b)
         && Coincided(t, u, live, rep, a, b) && GapsFollow(t, u, rep, gaps)
       case Deduces(w, c, i, lc, rc, n) =>
         && n == t.n && Gap(t, w, c, i, lc, rc)
         && (InvFacts(t, w.nums[w.start + 2 * i]);
             && Missing(t, w.nums[w.start + 2 * i], lc) && Missing(t, Inv(w.nums[w.start + 2 * i]), rc)
             && u == Deduce(t, w.nums[w.start + 2 * i], lc, rc))
  }

  /** The representatives after an event. */
  ghost function EventRep(ev: Event): (r: seq<int>)
  {
    match ev
    case Nothing(_, _, n) => Identity(n)
    case Marks(_, _, _, _, _, n) => Identity(n)
    case Coincides(_, _, _, _, _, _, _, _, rep) => rep
    case Deduces(_, _, _, _, _, n) => Identity(n)
  }

  datatype Run = Start(t: Table) | Then(prior: Run, ev: Event, t: Table)

  ghost function First(run: Run): Table
  {
    match run case Start(t) => t case Then(p, _, _) => First(p)
  }

  /** What a run draws on: relators, subgroup generators, and whether minimal gaps are marked. */
  datatype Basis = Basis(rels: set<Relator>, subs: set<Relator>, gaps: bool)

  /** An event comes from a relator, or from a subgroup generator at coset 1. */
  ghost predicate Draws(basis: Basis, ev: Event)
  {
    ev.w in basis.rels || (ev.w in basis.subs && ev.c == 1)
  }

  ghost predicate Derived(basis: Basis, run: Run)
  {
    match run
    case Start(t) => Shape(t) && Consistent(t)
    case Then(p, ev, t) => Derived(basis, p) && Justified(basis.gaps, p.t, ev, t) && Draws(basis, ev)
  }

  /** All relators act trivially, and all subgroup generators fix the image of coset 1. */
  ghost predicate Satisfied<X(!new)>(ref: seq<nat>, basis: Basis, f: int -> X,
                                     act: (int, X) -> X)
  {
    && Action(ref, act)
    && (forall w, x {:trigger Trivial(act, w, x)} :: w in basis.rels && Laid(ref, w) ==> Trivial(act, w, x))
    && (forall w {:trigger w in basis.subs} :: w in basis.subs && Laid(ref, w) ==> Trivial(act, w, f(1)))
  }

  lemma {:induction false} DerivedFacts(basis: Basis, run: Run)
    requires Derived(basis, run)
    ensures Shape(run.t) && Consistent(run.t) && Shape(First(run)) && SameFrame(First(run), run.t)
  {
    if run.Then? {
      DerivedFacts(basis, run.prior);
    }
  }

  lemma {:induction false} FirstConsistent(basis: Basis, run: Run)
    requires Derived(basis, run)
    ensures Shape(First(run)) && Consistent(First(run))
  {
    if run.Then? {
      FirstConsistent(basis, run.prior);
    }
  }

  /** The entry that clashes has the same image as the coset the relator asks for. */
  lemma {:induction false} ClashSound<X(!new)>(t: Table, w: Relator, c: int, i: int, lc: int, rc: int, a: int, b: int,
                            f: int -> X, act: (int, X) -> X)
    requires Shape(t) && Gap(t, w, c, i, lc, rc) && Clash(t, w.nums[w.start + 2 * i], lc, rc, a, b)
    requires Action(t.ref, act) && Respects(t, f, act) && Trivial(act, w, f(c))
    ensures f(a) == f(b)
  {
    var g := w.nums[w.start + 2 * i];
    WalkCloses(t, w, c, i, lc, rc, f, act);
    InvFacts(t, g);
    assert Invertible(t.ref, act, g, f(lc));
  }

  /** One event keeps the images and identifies only cosets with equal images. */
  lemma {:induction false} EventSound<X(!new)>(gaps: bool, t: Table, ev: Event, u: Table, f: int -> X,
                                               act: (int, X) -> X)
    requires Justified(gaps, t, ev, u) && Action(t.ref, act) && Respects(t, f, act) && Trivial(act, ev.w, f(ev.c))
    ensures Respects(u, f, act)
    ensures |EventRep(ev)| == t.n + 1 && forall c {:trigger EventRep(ev)[c]} :: 0 <= c <= t.n ==>
            f(EventRep(ev)[c]) == f(c)
  {
    if ev.Nothing? {
    } else if ev.Marks? {
      MarksSound(gaps, t, ev, u, f, act);
    } else if ev.Coincides? {
      CoincidesSound(gaps, t, ev, u, f, act);
    } else {
      DeducesSound(t, ev.w, ev.c, ev.i, ev.lc, ev.rc, f, act);
    }
  }

  lemma {:induction false} CoincidesSound<X(!new)>(gaps: bool, t: Table, ev: Event, u: Table, f: int -> X,
                                                   act: (int, X) -> X)
    requires Justified(gaps, t, ev, u) && ev.Coincides?
    requires Action(t.ref, act) && Respects(t, f, act) && Trivial(act, ev.w, f(ev.c))
    ensures Respects(u, f, act)
    ensures |ev.rep| == t.n + 1 && forall c {:trigger ev.rep[c]} :: 0 <= c <= t.n ==> f(ev.rep[c]) == f(c)
  {
    ClashSound(t, ev.w, ev.c, ev.i, ev.lc, ev.rc, ev.a, ev.b, f, act);
    CoincidenceRespects(t, u, ev.live, ev.rep, ev.a, ev.b, f, act);
  }

  lemma {:induction false} MarksSound<X(!new)>(gaps: bool, t: Table, ev: Event, u: Table, f: int -> X,
                                               act: (int, X) -> X)
    requires Justified(gaps, t, ev, u) && ev.Marks? && Respects(t, f, act)
    ensures Respects(u, f, act)
  {
    MarkBothSame(t, ev.w.nums[ev.w.start + 2 * ev.i], ev.lc, ev.w.nums[ev.w.start + 2 * ev.i + 1], ev.rc);
  }

  lemma {:induction false} DeducesSound<X(!new)>(t: Table, w: Relator, c: int, i: int, lc: int, rc: int, f: int -> X,
                                                 act: (int, X) -> X)
    requires Shape(t) && Gap(t, w, c, i, lc, rc) && Action(t.ref, act) && Respects(t, f, act) && Trivial(act, w, f(c))
    ensures (InvFacts(t, w.nums[w.start + 2 * i]); Respects(Deduce(t, w.nums[w.start + 2 * i], lc, rc), f, act))
  {
    WalkCloses(t, w, c, i, lc, rc, f, act);
    InvFacts(t, w.nums[w.start + 2 * i]);
    DeduceRespects(t, w.nums[w.start + 2 * i], lc, rc, f, act);
  }

  /** An event of a derivation draws on a word that acts trivially where it was scanned. */
  lemma {:induction false} DrawsTrivial<X(!new)>(basis: Basis, t: Table, ev: Event, u: Table,
                              f: int -> X, act: (int, X) -> X)
    requires Justified(basis.gaps, t, ev, u) && Draws(basis, ev) && Satisfied(t.ref, basis, f, act)
    ensures Laid(t.ref, ev.w) && Trivial(act, ev.w, f(ev.c))
  {
    assert Laid(t.ref, ev.w);
    assert Trivial(act, ev.w, f(ev.c));
  }

  ghost function StepRep(ev: Event, c: int): int
  {
    if 0 <= c < |EventRep(ev)| then EventRep(ev)[c] else c
  }

  /** Where a coset has got to by the end of a run. */
  ghost function RunRep(run: Run, c: int): int
  {
    match run
    case Start(_) => c
    case Then(p, ev, _) => StepRep(ev, RunRep(p, c))
  }

  /**
    Soundness of whole runs.  Whenever the cosets map to a set on which the
    generators act, with trivial relators and with subgroup generators that fix the
    image of coset 1, a run that starts from a table compatible with the map ends
    in one, and every coset has the image of the coset it was merged into.
   */
  lemma {:induction false} RunSound<X(!new)>(basis: Basis, run: Run,
                                             f: int -> X, act: (int, X) -> X, x: int)
    requires Derived(basis, run)
    requires (DerivedFacts(basis, run); Respects(First(run), f, act))
    requires Satisfied(run.t.ref, basis, f, act)
    ensures (DerivedFacts(basis, run); Respects(run.t, f, act))
    ensures f(RunRep(run, x)) == f(x)
  {
    match run
    case Start(t) =>
    case Then(p, ev, t) =>
      DerivedFacts(basis, p);
      RunSound(basis, p, f, act, x);
      DrawsTrivial(basis, p.t, ev, t, f, act);
      EventSound(basis.gaps, p.t, ev, t, f, act);
  }

  // ----- events leave nothing open

  /** Scanning a word from a coset has one outcome only: the same table, entry by entry, and the same merged cosets. */
  lemma {:induction false} EventUnique(gaps: bool, t: Table, ev: Event, u: Table, ev': Event, u': Table)
    requires Justified(gaps, t, ev, u) && Justified(gaps, t, ev', u') && ev.w == ev'.w && ev.c == ev'.c
    requires ev.Coincides? && ev'.Coincides? ==> ev.live == ev'.live
    requires AtLeast(t, if gaps then -1 else 0)
    ensures EventRep(ev) == EventRep(ev') && forall g, c :: Cell(u, g, c) ==> At(u, g, c) == At(u', g, c)
  {
    if ev.Nothing? {
      IdleAlone(gaps, t, ev, u, ev', u');
    } else if ev'.Nothing? {
      IdleAlone(gaps, t, ev', u', ev, u);
    } else if ev.Marks? {
      MarksAlone(gaps, t, ev, u, ev', u');
    } else if ev'.Marks? {
      MarksAlone(gaps, t, ev', u', ev, u);
    } else {
      MeetUnique(gaps, t, ev, u, ev', u');
    }
  }

  /** Where there is nothing to do, nothing is done. */
  lemma {:induction false} IdleAlone(gaps: bool, t: Table, ev: Event, u: Table, ev': Event, u': Table)
    requires Justified(gaps, t, ev, u) && Justified(gaps, t, ev', u') && ev.w == ev'.w && ev.c == ev'.c && ev.Nothing?
    ensures ev'.Nothing?
  {
    if ev'.Coincides? || ev'.Deduces? {
      EventMet(gaps, t, ev', u');
      EventNotIdle(gaps, t, ev', u');
    }
  }

  lemma {:induction false} MarksAlone(gaps: bool, t: Table, ev: Event, u: Table, ev': Event, u': Table)
    requires Justified(gaps, t, ev, u) && Justified(gaps, t, ev', u') && ev.w == ev'.w && ev.c == ev'.c && ev.Marks?
    requires !ev'.Nothing?
    ensures ev'.Marks? && u == u'
  {
    if ev'.Marks? {
      MarksUnique(gaps, t, ev, u, ev', u');
    } else {
      EventMet(gaps, t, ev', u');
      MinimalGapAlone(t, ev.w, ev.c, ev.i, ev.lc, ev.rc, ev'.i, ev'.lc, ev'.rc);
    }
  }

  lemma {:induction false} MarksUnique(gaps: bool, t: Table, ev: Event, u: Table, ev': Event, u': Table)
    requires Justified(gaps, t, ev, u) && Justified(gaps, t, ev', u') && ev.w == ev'.w && ev.c == ev'.c
    requires ev.Marks? && ev'.Marks?
    ensures ev == ev' && u == u'
  {
    MinimalGapUnique(t, ev.w, ev.c, ev.i, ev.lc, ev.rc, ev'.i, ev'.lc, ev'.rc);
  }

  lemma {:induction false} MeetUnique(gaps: bool, t: Table, ev: Event, u: Table, ev': Event, u': Table)
    requires Justified(gaps, t, ev, u) && Justified(gaps, t, ev', u') && ev.w == ev'.w && ev.c == ev'.c
    requires !ev.Nothing? && !ev.Marks? && !ev'.Nothing? && !ev'.Marks?
    requires ev.Coincides? && ev'.Coincides? ==> ev.live == ev'.live
    requires AtLeast(t, if gaps then -1 else 0)
    ensures EventRep(ev) == EventRep(ev') && forall g, c :: Cell(u, g, c) ==> At(u, g, c) == At(u', g, c)
  {
    SameGap(gaps, t, ev, u, ev', u');
    if ev.Coincides? {
      OutcomeUnique(t, u, u', ev.live, ev.rep, ev'.rep, ev.a, ev.b, gaps);
    }
  }

  lemma {:induction false} SameGap(gaps: bool, t: Table, ev: Event, u: Table, ev': Event, u': Table)
    requires Justified(gaps, t, ev, u) && Justified(gaps, t, ev', u') && ev.w == ev'.w && ev.c == ev'.c
    requires !ev.Nothing? && !ev.Marks? && !ev'.Nothing? && !ev'.Marks?
    ensures ev.Coincides? == ev'.Coincides? && ev.i == ev'.i && ev.lc == ev'.lc && ev.rc == ev'.rc
    ensures ev.Coincides? ==> ev.a == ev'.a && ev.b == ev'.b
  {
    EventMet(gaps, t, ev, u);
    EventMet(gaps, t, ev', u');
    MetUnique(t, ev.w, ev.c, ev.i, ev.lc, ev.rc, ev'.i, ev'.lc, ev'.rc);
  }

  lemma {:induction false} EventMet(gaps: bool, t: Table, ev: Event, u: Table)
    requires Justified(gaps, t, ev, u) && !ev.Nothing? && !ev.Marks?
    ensures Met(t, ev.w, ev.c, ev.i, ev.lc, ev.rc)
  {
    assert LetterAt(t.ref, ev.w, ev.i);
  }

  lemma {:induction false} EventNotIdle(gaps: bool, t: Table, ev: Event, u: Table)
    requires Justified(gaps, t, ev, u) && !ev.Nothing? && !ev.Marks? && Met(t, ev.w, ev.c, ev.i, ev.lc, ev.rc)
    ensures At(t, ev.w.nums[ev.w.start + 2 * ev.i], ev.lc) != ev.rc
  {
  }

  /** What an event does to negative entries. */
  ghost predicate Spares(t: Table, u: Table, low: int)
    requires Shape(t) && Shape(u)
  {
    AtLeast(t, low) ==> AtLeast(u, low)
  }

  lemma {:induction false} PutSpares(t: Table, g: int, c: int, d: int, low: int)
    requires Shape(t) && Cell(t, g, c) && AtLeast(t, low) && d >= low
    ensures AtLeast(Put(t, g, c, d), low)
  {
  }

  /** Entries stay at least 0 where minimal gaps are not marked, and at least -1 where they are. */
  lemma {:induction false} EventSpares(gaps: bool, t: Table, ev: Event, u: Table)
    requires Justified(gaps, t, ev, u)
    ensures Spares(t, u, -1) && (!gaps ==> Spares(t, u, 0))
  {
    var w := ev.w;
    if ev.Marks? {
      MarksSpares(t, w.nums[w.start + 2 * ev.i], ev.lc, w.nums[w.start + 2 * ev.i + 1], ev.rc);
    } else if ev.Coincides? {
      GapsSpare(t, u, ev.rep, gaps);
    } else if ev.Deduces? {
      InvFacts(t, w.nums[w.start + 2 * ev.i]);
      DeduceSpares(t, w.nums[w.start + 2 * ev.i], ev.lc, ev.rc);
    }
  }

  lemma {:induction false} MarksSpares(t: Table, g: int, lc: int, h: int, rc: int)
    requires Shape(t) && Cell(t, g, lc) && Cell(t, h, rc)
    ensures Spares(t, MarkBoth(t, g, lc, h, rc), -1)
  {
    if AtLeast(t, -1) {
      PutSpares(t, g, lc, -1, -1);
      PutSpares(Put(t, g, lc, -1), h, rc, -1, -1);
    }
  }

  lemma {:induction false} DeduceSpares(t: Table, g: int, lc: int, rc: int)
    requires Shape(t) && Cell(t, g, lc) && Cell(t, Inv(g), rc)
    ensures Spares(t, Deduce(t, g, lc, rc), -1) && Spares(t, Deduce(t, g, lc, rc), 0)
  {
    forall low | low in {-1, 0} && AtLeast(t, low)
      ensures AtLeast(Deduce(t, g, lc, rc), low)
    {
      PutSpares(t, g, lc, rc, low);
      PutSpares(Put(t, g, lc, rc), Inv(g), rc, lc, low);
    }
  }

  /** If no entry is negative and minimal gaps are not marked, no entry becomes negative; with marks, none but marks. */
  lemma {:induction false} RunSpares(basis: Basis, run: Run)
    requires Derived(basis, run)
    ensures (DerivedFacts(basis, run); Spares(First(run), run.t, -1) && (!basis.gaps ==> Spares(First(run), run.t, 0)))
  {
    DerivedFacts(basis, run);
    if run.Then? {
      DerivedFacts(basis, run.prior);
      RunSpares(basis, run.prior);
      EventSpares(basis.gaps, run.prior.t, run.ev, run.t);
    }
  }
}
