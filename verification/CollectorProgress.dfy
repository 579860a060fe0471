/** The steps of the collector as a whole: each keeps the meaning and makes the stack lighter. */
module CollectorProgress {
  import opened PcPresentation
  import opened PcAction
  import opened CollectorStack
  import opened CollectorSteps
  import opened CollectorWeights
  import opened CollectorLead

  /** Exponents lie between 0 and the relative order; entry 0 is not used. */
  ghost predicate Normal(p: Presentation, v: seq<int>)
    requires p.WellFormed()
  {
    |v| == p.n + 1 && v[0] == 0 && forall i :: 1 <= i <= p.n ==> 0 <= v[i] < p.ro[i]
  }

  /** As above, except perhaps for the entry of g, which may be too large. */
  ghost predicate NormalBut(p: Presentation, v: seq<int>, g: nat)
    requires p.WellFormed()
  {
    |v| == p.n + 1 && v[0] == 0 && forall i :: 1 <= i <= p.n ==> 0 <= v[i] && (i != g ==> v[i] < p.ro[i])
  }

  /** A configuration in the middle of collecting a word in generators from l on. */
  ghost predicate Good(p: Presentation, l: nat, c: Config)
    requires p.WellFormed()
  {
    Shaped(p, c) && StackFrom(c.stack, l) && Normal(p, c.v)
  }

  /** The meaning is kept, and so is what the leading generator will come to. */
  ghost predicate Keeps<X(!new)>(p: Presentation, act: Action<X>, l: nat, c: Config, c': Config)
    requires p.WellFormed() && Shaped(p, c) && l <= p.n
  {
    Shaped(p, c') && StackFrom(c'.stack, l) && Same(p, act, c, c') && Led(p, l, c, c')
  }

  lemma {:induction false} KeepsTrans<X(!new)>(p: Presentation, act: Action<X>, l: nat, a: Config, b: Config, c: Config)
    requires p.WellFormed() && Shaped(p, a) && l <= p.n && Keeps(p, act, l, a, b) && Keeps(p, act, l, b, c)
    ensures Keeps(p, act, l, a, c)
  {
    SameTrans(p, act, a, b, c);
    LedTrans(p, l, a, b, c);
  }

  // ----- the steps

  ghost function AfterNegative(p: Presentation, c: Config, f: Frame): Config
    requires p.WellFormed() && Top(p, c, f) && f.ew < 0
  {
    WithTop(c, c.v, [f.(ew := 0), Pushed(p.inv[f.Gen()], -f.ew)])
  }

  lemma {:induction false} NegativeStep<X(!new)>(p: Presentation, act: Action<X>, t: Weights, l: nat, c: Config,
                                                 f: Frame)
    requires p.WellFormed() && Satisfies(p, act) && Heavy(p, t, 1) && l <= p.n && Good(p, l, c) && Top(p, c, f) &&
             f.ew < 0
    ensures Good(p, l, AfterNegative(p, c, f)) && Keeps(p, act, l, c, AfterNegative(p, c, f))
    ensures Weight(p, t, AfterNegative(p, c, f).stack) < Weight(p, t, c.stack)
  {
    NegativeSame(p, act, c, f);
    NegativeLed(p, c, f, l);
    NegativeWeight(p, t, c, f);
  }

  lemma {:induction false} NextStep<X(!new)>(p: Presentation, act: Action<X>, l: nat, c: Config, f: Frame)
    requires p.WellFormed() && l <= p.n && Good(p, l, c) && Top(p, c, f) && f.ew == 0
    ensures Good(p, l, WithTop(c, c.v, Next(f))) && Keeps(p, act, l, c, WithTop(c, c.v, Next(f)))
  {
    NextSame(p, act, c, f);
    NextLed(p, c, f, l);
  }

  /** Reduces an exponent that is too large, and pushes the right hand side of the power relation. */
  ghost function Reduce(p: Presentation, c: Config, g: nat): Config
    requires g < |p.ro| && p.ro[g] > 0 && g < |c.v| && c.v[g] >= 0
  {
    Config(c.v[g := Rem(c.v[g], p.ro[g])], c.stack + PowerPushes(p, g, Quo(c.v[g], p.ro[g])))
  }

  lemma {:induction false} ReduceKeeps<X(!new)>(p: Presentation, act: Action<X>, l: nat, c: Config, g: nat)
    requires p.WellFormed() && Satisfies(p, act) && l <= g && 1 <= g <= p.n && Shaped(p, c) && StackFrom(c.stack, l)
    requires NormalBut(p, c.v, g) && (Free(p, c.v, g) || c.v[g] < p.ro[g])
    ensures Good(p, l, Reduce(p, c, g)) && Keeps(p, act, l, c, Reduce(p, c, g))
  {
    var q, e := Quo(c.v[g], p.ro[g]), Rem(c.v[g], p.ro[g]);
    if c.v[g] < p.ro[g] {
      assert c.v[g := e] == c.v && c.stack + [] == c.stack;
      SameTotal(p, c, c, l);
    } else {
      QuoRem(c.v[g], p.ro[g]);
      TimesIs(q, p.ro[g]);
      ReducedSame(p, act, c, g, q, e);
      ReducedLed(p, c, g, q, e, l);
    }
  }

  /** A generator has moved to its place, past entries that are stacked up. */
  ghost function AfterMove(p: Presentation, c: Config, f: Frame): Config
    requires p.WellFormed() && Top(p, c, f)
  {
    var g := f.Gen();
    WithTop(c, Moved(p, c.v, g), [f.(ew := f.ew - 1)] + Pushes(p, c.v, g, g, p.avc[g]))
  }

  /** A generator has moved to its place, past entries that stay there. */
  ghost function AfterStay(p: Presentation, c: Config, f: Frame): Config
    requires p.WellFormed() && Top(p, c, f)
  {
    WithTop(c, c.v[f.Gen() := c.v[f.Gen()] + 1], [f.(ew := f.ew - 1)])
  }

  /** A syllable has moved to its place. */
  ghost function AfterDirect(p: Presentation, c: Config, f: Frame): Config
    requires p.WellFormed() && Top(p, c, f)
  {
    WithTop(c, c.v[f.Gen() := c.v[f.Gen()] + f.ew], [f.(ew := 0)])
  }

  ghost predicate Ready<X(!new)>(p: Presentation, act: Action<X>, t: Weights, l: nat, c: Config, f: Frame)
    requires p.WellFormed()
  {
    Satisfies(p, act) && Heavy(p, t, 1) && l <= p.n && Good(p, l, c) && Top(p, c, f) && f.ew > 0
  }

  ghost predicate Stepped<X(!new)>(p: Presentation, act: Action<X>, t: Weights, l: nat, c: Config, c': Config)
    requires p.WellFormed() && Good(p, l, c) && l <= p.n
  {
    Good(p, l, c') && Keeps(p, act, l, c, c') && Weight(p, t, c'.stack) < Weight(p, t, c.stack)
  }

  lemma {:induction false} LeadBound(p: Presentation, l: nat, c: Config, f: Frame)
    requires p.WellFormed() && Good(p, l, c) && Top(p, c, f)
    ensures f.Valid(p) && 1 <= f.Gen() <= p.n && l <= f.Gen()
  {
  }

  lemma {:induction false} MoveStep<X(!new)>(p: Presentation, act: Action<X>, t: Weights, l: nat, c: Config, f: Frame)
    requires p.WellFormed() && Ready(p, act, t, l, c, f)
    ensures Stepped(p, act, t, l, c, Reduce(p, AfterMove(p, c, f), f.Gen()))
  {
    var g, c1 := f.Gen(), AfterMove(p, c, f);
    LeadBound(p, l, c, f);
    MovedKeeps(p, act, t, l, c, f);
    MovedVector(p, c.v, g);
    ReduceKeeps(p, act, l, c1, g);
    KeepsTrans(p, act, l, c, c1, Reduce(p, c1, g));
    MoveLighter(p, t, c, f);
  }

  lemma {:induction false} MovedVector(p: Presentation, v: seq<int>, g: nat)
    requires p.WellFormed() && Normal(p, v) && 1 <= g <= p.n
    ensures var v1 := Moved(p, v, g);
            && |v1| == p.n + 1 && NormalBut(p, v1, g) && v1[g] == v[g] + 1 && Free(p, v1, g)
            && forall i :: 0 <= i < g ==> v1[i] == v[i]
  {
  }

  lemma {:induction false} MovedKeeps<X(!new)>(p: Presentation, act: Action<X>, t: Weights, l: nat, c: Config, f: Frame)
    requires p.WellFormed() && Ready(p, act, t, l, c, f)
    ensures Keeps(p, act, l, c, AfterMove(p, c, f))
  {
    var g := f.Gen();
    LeadBound(p, l, c, f);
    MovedSame(p, act, c, f);
    MovedLed(p, l, c, f);
  }

  lemma {:induction false} MovedLed(p: Presentation, l: nat, c: Config, f: Frame)
    requires p.WellFormed() && StackFrom(c.stack, l) && Top(p, c, f) && f.ew > 0 && l <= f.Gen()
    ensures var c1 := AfterMove(p, c, f); Shaped(p, c1) && StackFrom(c1.stack, l) && Led(p, l, c, c1)
  {
    var g := f.Gen();
    var v1, s := Moved(p, c.v, g), Pushes(p, c.v, g, g, p.avc[g]);
    PushesUnit(p, c.v, g, p.avc[g], l);
    assert AfterMove(p, c, f) == WithTop(c, v1, [f.(ew := f.ew - 1)] + s);
    LettersLed(p, c, f, 1, v1, s, l);
  }

  lemma {:induction false} MoveLighter(p: Presentation, t: Weights, c: Config, f: Frame)
    requires p.WellFormed() && Heavy(p, t, 1) && Top(p, c, f) && Normal(p, c.v) && f.ew > 0
    ensures var s := Reduce(p, AfterMove(p, c, f), f.Gen()).stack;
            Frames(p, s) && Weight(p, t, s) < Weight(p, t, c.stack)
  {
    var g := f.Gen();
    assert f.Valid(p);
    var v, s := Moved(p, c.v, g), Pushes(p, c.v, g, g, p.avc[g]);
    DirectQuotient(c.v[g], 1, p.ro[g]);
    PushesWeight(p, t, c.v, g, p.avc[g]);
    CostMono(p, t, g, p.avc[g], p.n);
    LetterWeight(p, t, c, f, v, s, Quo(v[g], p.ro[g]));
  }

  /** All entries that g moves past have trivial conjugates. */
  ghost predicate Passable(p: Presentation, v: seq<int>, g: nat)
    requires p.WellFormed() && |v| == p.n + 1 && 1 <= g <= p.n
  {
    forall i :: g < i <= p.avc[g] ==> v[i] == 0 || p.Conjugate(i, g) == []
  }

  lemma {:induction false} StayedKeeps<X(!new)>(p: Presentation, act: Action<X>, t: Weights, l: nat, c: Config,
                                                f: Frame)
    requires p.WellFormed() && Ready(p, act, t, l, c, f) && f.Valid(p) && Passable(p, c.v, f.Gen())
    ensures Keeps(p, act, l, c, AfterStay(p, c, f))
  {
    LeadBound(p, l, c, f);
    StayedSame(p, act, c, f);
    assert [f.(ew := f.ew - 1)] + [] == [f.(ew := f.ew - 1)];
    LettersLed(p, c, f, 1, c.v[f.Gen() := c.v[f.Gen()] + 1], [], l);
  }

  lemma {:induction false} StayLighter(p: Presentation, t: Weights, c: Config, f: Frame)
    requires p.WellFormed() && Heavy(p, t, 1) && Top(p, c, f) && Normal(p, c.v) && f.ew > 0
    ensures var s := Reduce(p, AfterStay(p, c, f), f.Gen()).stack;
            Frames(p, s) && Weight(p, t, s) < Weight(p, t, c.stack)
  {
    var g := f.Gen();
    var v1, q := c.v[g := c.v[g] + 1], Quo(c.v[g] + 1, p.ro[g]);
    assert [f.(ew := f.ew - 1)] + [] == [f.(ew := f.ew - 1)];
    DirectQuotient(c.v[g], 1, p.ro[g]);
    LetterWeight(p, t, c, f, v1, [], q);
    assert Reduce(p, AfterStay(p, c, f), g).stack == WithTop(c, v1, [f.(ew := f.ew - 1)]).stack + PowerPushes(p, g, q);
  }

  lemma {:induction false} StayStep<X(!new)>(p: Presentation, act: Action<X>, t: Weights, l: nat, c: Config, f: Frame)
    requires p.WellFormed() && Ready(p, act, t, l, c, f) && f.Valid(p) && Passable(p, c.v, f.Gen())
    requires p.Power(f.Gen()) == [] || c.v[f.Gen()] + 1 < p.ro[f.Gen()]
    ensures Stepped(p, act, t, l, c, Reduce(p, AfterStay(p, c, f), f.Gen()))
  {
    var g, c1 := f.Gen(), AfterStay(p, c, f);
    LeadBound(p, l, c, f);
    StayedKeeps(p, act, t, l, c, f);
    ReduceKeeps(p, act, l, c1, g);
    KeepsTrans(p, act, l, c, c1, Reduce(p, c1, g));
    StayLighter(p, t, c, f);
  }

  lemma {:induction false} DirectQuotient(a: nat, e: nat, m: nat)
    requires a < m && m >= 2 && e >= 1
    ensures Quo(a + e, m) <= e
    decreases e
  {
    if a + e >= 2 * m {
      DirectQuotient(a, e - m, m);
    }
  }

  lemma {:induction false} DirectKeeps<X(!new)>(p: Presentation, act: Action<X>, t: Weights, l: nat, c: Config,
                                                f: Frame)
    requires p.WellFormed() && Ready(p, act, t, l, c, f) && f.Valid(p) && p.avc[f.Gen()] == f.Gen()
    ensures Keeps(p, act, l, c, AfterDirect(p, c, f))
  {
    LeadBound(p, l, c, f);
    DirectSame(p, act, c, f);
    assert [f.(ew := 0)] + [] == [f.(ew := 0)];
    LettersLed(p, c, f, f.ew, c.v[f.Gen() := c.v[f.Gen()] + f.ew], [], l);
  }

  lemma {:induction false} DirectLighter(p: Presentation, t: Weights, c: Config, f: Frame)
    requires p.WellFormed() && Heavy(p, t, 1) && Top(p, c, f) && Normal(p, c.v) && f.ew > 0
    ensures var s := Reduce(p, AfterDirect(p, c, f), f.Gen()).stack;
            Frames(p, s) && Weight(p, t, s) < Weight(p, t, c.stack)
  {
    var g := f.Gen();
    DirectQuotient(c.v[g], f.ew, p.ro[g]);
    DirectWeight(p, t, c, f, c.v[g := c.v[g] + f.ew], Quo(c.v[g] + f.ew, p.ro[g]));
  }

  lemma {:induction false} DirectStep<X(!new)>(p: Presentation, act: Action<X>, t: Weights, l: nat, c: Config, f: Frame)
    requires p.WellFormed() && Ready(p, act, t, l, c, f) && f.Valid(p) && p.avc[f.Gen()] == f.Gen()
    ensures Stepped(p, act, t, l, c, Reduce(p, AfterDirect(p, c, f), f.Gen()))
  {
    var g, c1 := f.Gen(), AfterDirect(p, c, f);
    LeadBound(p, l, c, f);
    DirectKeeps(p, act, t, l, c, f);
    ReduceKeeps(p, act, l, c1, g);
    KeepsTrans(p, act, l, c, c1, Reduce(p, c1, g));
    DirectLighter(p, t, c, f);
  }
}
