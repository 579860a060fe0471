/**
  The run of the collector as a function of the vector and the word: which step follows, what the run comes
  to, and how deep the stack gets.  The limit of the stack does not enter here: it only
  decides how far the run gets.
 */
module CollectorRun {
  import opened PcPresentation
  import opened PcAction
  import opened CollectorStack
  import opened CollectorSteps
  import opened CollectorWeights
  import opened CollectorLead
  import opened CollectorProgress

  /** A configuration that can come up. */
  ghost predicate Fine(p: Presentation, c: Config)
    requires p.WellFormed()
  {
    Shaped(p, c) && Normal(p, c.v)
  }

  /** Entries that g would move past have to be stacked up. */
  ghost predicate Stacks(p: Presentation, v: seq<int>, g: nat)
    requires p.WellFormed() && |v| == p.n + 1 && 1 <= g <= p.n
  {
    !Passable(p, v, g) || (p.ro[g] <= v[g] + 1 && p.Power(g) != [])
  }

  /** The top frame has given a letter or a syllable to the vector. */
  ghost function Given(p: Presentation, c: Config, f: Frame): (r: Config)
    requires p.WellFormed() && Top(p, c, f) && f.ew > 0
    ensures |r.v| == p.n + 1 && 1 <= f.Gen() <= p.n && r.v[f.Gen()] >= 0
  {
    if p.avc[f.Gen()] == f.Gen() then AfterDirect(p, c, f)
    else if Stacks(p, c.v, f.Gen()) then AfterMove(p, c, f)
    else AfterStay(p, c, f)
  }

  /** The next configuration. */
  ghost function StepOf(p: Presentation, c: Config): Config
    requires p.WellFormed() && Fine(p, c) && c.stack != []
  {
    var f := c.stack[|c.stack| - 1];
    if f.ew < 0 then AfterNegative(p, c, f)
    else if f.ew == 0 then WithTop(c, c.v, Next(f))
    else Reduce(p, Given(p, c, f), f.Gen())
  }

  lemma {:induction false} StepKeeps<X(!new)>(p: Presentation, act: Action<X>, t: Weights, l: nat, c: Config)
    requires p.WellFormed() && Satisfies(p, act) && Heavy(p, t, 1) && l <= p.n && Good(p, l, c) && c.stack != []
    ensures Good(p, l, StepOf(p, c)) && Keeps(p, act, l, c, StepOf(p, c)) && Lower(p, t, c.stack, StepOf(p, c).stack)
  {
    var f := c.stack[|c.stack| - 1];
    if f.ew < 0 {
      NegativeStep(p, act, t, l, c, f);
    } else if f.ew == 0 {
      NextStep(p, act, l, c, f);
      NextLower(p, t, c, f);
    } else {
      GivenKeeps(p, act, t, l, c, f);
    }
  }

  lemma {:induction false} GivenKeeps<X(!new)>(p: Presentation, act: Action<X>, t: Weights, l: nat, c: Config, f: Frame)
    requires p.WellFormed() && Ready(p, act, t, l, c, f)
    ensures Stepped(p, act, t, l, c, Reduce(p, Given(p, c, f), f.Gen()))
  {
    if p.avc[f.Gen()] == f.Gen() {
      DirectStep(p, act, t, l, c, f);
    } else if Stacks(p, c.v, f.Gen()) {
      MoveStep(p, act, t, l, c, f);
    } else {
      StayStep(p, act, t, l, c, f);
    }
  }

  /** The stack has become lighter, or is as heavy as before with less to do in the word on top. */
  ghost predicate Lower(p: Presentation, t: Weights, s: seq<Frame>, s': seq<Frame>)
  {
    && Frames(p, s) && Frames(p, s')
    && (|| Weight(p, t, s') < Weight(p, t, s)
        || (Weight(p, t, s') == Weight(p, t, s) && AheadOf(p, s') < AheadOf(p, s)))
  }

  ghost function AheadOf(p: Presentation, s: seq<Frame>): nat
    requires Frames(p, s)
  {
    if s == [] then 0 else Ahead(s[|s| - 1])
  }

  lemma {:induction false} NextLower(p: Presentation, t: Weights, c: Config, f: Frame)
    requires Top(p, c, f) && f.ew == 0
    ensures Lower(p, t, c.stack, WithTop(c, c.v, Next(f)).stack)
  {
    NextWeight(p, t, c, f);
  }

  // ----- the run ends

  /** The set with one point. */
  datatype Point = Point

  /** Nothing ever moves on a set with one point, so all relations hold there. */
  ghost function Standstill(): Action<Point>
  {
    Action((i, x) => Point, (i, x) => Point)
  }

  lemma {:induction false} StandstillSatisfies(p: Presentation)
    requires p.WellFormed()
    ensures Satisfies(p, Standstill())
  {
    var act := Standstill();
    forall i: nat, x
      ensures InvertsAt(act, i, x)
    {
      OnePoint(Back(act, i, Step(act, i, x)), x);
      OnePoint(Step(act, i, Back(act, i, x)), x);
    }
    forall i, x | 1 <= i <= p.n
      ensures PowerAt(p, act, i, x) && InverseAt(p, act, i, x)
    {
      OnePoint(Pw(act, i, p.ro[i], x), WordAct(act, p.Power(i), x));
      OnePoint(WordAct(act, p.inv[i], x), Back(act, i, x));
    }
    forall i, g, x | 1 <= g < i <= p.n
      ensures ConjugateAt(p, act, i, g, x)
    {
      OnePoint(Step(act, g, Step(act, i, x)), WordAct(act, p.Image(i, g), Step(act, g, x)));
    }
    forall a: nat, b: nat, x
      ensures CommuteAt(act, a, b, x)
    {
      OnePoint(Step(act, a, Step(act, b, x)), Step(act, b, Step(act, a, x)));
    }
  }

  lemma {:induction false} OnePoint(x: Point, y: Point)
    ensures x == y
  {
  }

  lemma {:induction false} FineGood(p: Presentation, c: Config)
    requires p.WellFormed() && Fine(p, c)
    ensures Good(p, 0, c)
  {
    AllFrom(p, c.stack);
  }

  lemma {:induction false} AllFrom(p: Presentation, s: seq<Frame>)
    requires Frames(p, s)
    ensures StackFrom(s, 0)
  {
    if s != [] {
      AllFrom(p, s[..|s| - 1]);
    }
  }

  lemma {:induction false} StepLower(p: Presentation, t: Weights, c: Config)
    requires p.WellFormed() && Heavy(p, t, 1) && Fine(p, c) && c.stack != []
    ensures Fine(p, StepOf(p, c)) && Lower(p, t, c.stack, StepOf(p, c).stack)
  {
    StandstillSatisfies(p);
    FineGood(p, c);
    StepKeeps(p, Standstill(), t, 0, c);
  }

  lemma {:induction false} WeightsExist(p: Presentation)
    requires p.WellFormed()
    ensures exists t :: Heavy(p, t, 1)
  {
    var t := WeighAll(p, 1);
  }

  ghost function Scale(p: Presentation): (t: Weights)
    requires p.WellFormed()
    ensures Heavy(p, t, 1)
  {
    WeightsExist(p);
    var t :| Heavy(p, t, 1);
    t
  }

  ghost function Larger(a: nat, b: nat): nat
  {
    if a < b then b else a
  }

  /** The vector when the stack is empty. */
  ghost function Result(p: Presentation, c: Config): (v: seq<int>)
    requires p.WellFormed() && Fine(p, c)
    ensures Normal(p, v)
    decreases Weight(p, Scale(p), c.stack), AheadOf(p, c.stack)
  {
    if c.stack == [] then c.v
    else
      StepLower(p, Scale(p), c);
      Result(p, StepOf(p, c))
  }

  /** How deep the stack gets, from here on. */
  ghost function Depth(p: Presentation, c: Config): (d: nat)
    requires p.WellFormed() && Fine(p, c)
    ensures |c.stack| <= d
    decreases Weight(p, Scale(p), c.stack), AheadOf(p, c.stack)
  {
    if c.stack == [] then 0
    else
      StepLower(p, Scale(p), c);
      Larger(|c.stack|, Depth(p, StepOf(p, c)))
  }

  lemma {:induction false} DepthWeight(p: Presentation, c: Config)
    requires p.WellFormed() && Fine(p, c)
    ensures Depth(p, c) <= Weight(p, Scale(p), c.stack)
    decreases Weight(p, Scale(p), c.stack), AheadOf(p, c.stack)
  {
    if c.stack != [] {
      StepLower(p, Scale(p), c);
      DepthWeight(p, StepOf(p, c));
    }
  }

  lemma {:induction false} RunKeeps<X(!new)>(p: Presentation, act: Action<X>, l: nat, c: Config)
    requires p.WellFormed() && Satisfies(p, act) && l <= p.n && Good(p, l, c)
    ensures Keeps(p, act, l, c, Config(Result(p, c), []))
    decreases Weight(p, Scale(p), c.stack), AheadOf(p, c.stack)
  {
    if c.stack == [] {
      assert c == Config(c.v, []);
      SameTotal(p, c, c, l);
    } else {
      StepLower(p, Scale(p), c);
      StepKeeps(p, act, Scale(p), l, c);
      RunKeeps(p, act, l, StepOf(p, c));
      KeepsTrans(p, act, l, c, StepOf(p, c), Config(Result(p, c), []));
    }
  }

  // ----- collecting a word

  ghost predicate Collectable(p: Presentation, v: seq<int>, w: Word)
  {
    p.WellFormed() && Normal(p, v) && p.Over(w, 0)
  }

  /** The configuration in which collecting w begins. */
  ghost function Begin(p: Presentation, v: seq<int>, w: Word): (c: Config)
    requires Collectable(p, v, w) && w != []
    ensures Fine(p, c)
  {
    assert Frames(p, [Pushed(w, 1)]);
    Config(v, [Pushed(w, 1)])
  }

  /** Mentioning a configuration calls up what is known about the run from it. */
  ghost predicate Here(c: Config)
  {
    true
  }

  /** The run from c comes to v and takes a stack of depth d. */
  ghost predicate ComesTo(p: Presentation, c: Config, v: seq<int>, d: nat)
    requires p.WellFormed() && Fine(p, c)
  {
    forall b {:trigger Here(b)} :: b == c ==> v == Result(p, b) && d == Depth(p, b)
  }

  lemma {:induction false} Comes(p: Presentation, c: Config)
    requires p.WellFormed() && Fine(p, c)
    ensures exists v, d {:trigger ComesTo(p, c, v, d)} ::
              ComesTo(p, c, v, d) && Normal(p, v) && (c.stack != [] ==> d > 0)
  {
    assert ComesTo(p, c, Result(p, c), Depth(p, c));
  }

  /** The vector times the word, and how deep the stack gets for it. */
  ghost function Collection(p: Presentation, v: seq<int>, w: Word): (r: (seq<int>, nat))
    requires Collectable(p, v, w) && w != []
    ensures ComesTo(p, Begin(p, v, w), r.0, r.1) && Normal(p, r.0) && r.1 > 0
  {
    var c := Begin(p, v, w);
    Comes(p, c);
    var r, d: nat :| ComesTo(p, c, r, d) && Normal(p, r) && (c.stack != [] ==> d > 0);
    (r, d)
  }

  /** The vector times the word. */
  ghost function Collect(p: Presentation, v: seq<int>, w: Word): (r: seq<int>)
    requires Collectable(p, v, w)
    ensures Normal(p, r)
  {
    if w == [] then v else Collection(p, v, w).0
  }

  /** How deep the stack gets; 0 if it is not used. */
  ghost function DepthFor(p: Presentation, v: seq<int>, w: Word): (d: nat)
    requires Collectable(p, v, w)
    ensures d == 0 <==> w == []
  {
    if w == [] then 0 else Collection(p, v, w).1
  }

  lemma {:induction false} CollectIs(p: Presentation, v: seq<int>, w: Word)
    requires Collectable(p, v, w) && w != []
    ensures Collect(p, v, w) == Result(p, Begin(p, v, w)) && DepthFor(p, v, w) == Depth(p, Begin(p, v, w))
  {
    assert Here(Begin(p, v, w));
  }

  /** The stack never gets deeper than this. */
  ghost function Bound(p: Presentation, w: Word): nat
    requires p.WellFormed()
  {
    WordWeight(Scale(p), w) + 1
  }

  lemma {:induction false} DepthBound(p: Presentation, v: seq<int>, w: Word)
    requires Collectable(p, v, w)
    ensures DepthFor(p, v, w) <= Bound(p, w)
  {
    if w != [] {
      CollectIs(p, v, w);
      DepthWeight(p, Begin(p, v, w));
      WeightPushed(p, Scale(p), w, 1);
    }
  }

  /** The new vector is the old one times the word. */
  ghost predicate Collected<X(!new)>(p: Presentation, act: Action<X>, v: seq<int>, w: Word, v': seq<int>)
    requires |v| == |v'| == p.n + 1
  {
    forall x {:trigger VecAct(act, v', 0, p.n, x)} ::
        VecAct(act, v', 0, p.n, x) == WordAct(act, w, VecAct(act, v, 0, p.n, x))
  }

  /**
    Entries before l stay, and the entry of l has grown by the exponent of l in the word, modulo its relative
    order.
   */
  ghost predicate LeadCollected(p: Presentation, l: nat, v: seq<int>, w: Word, v': seq<int>)
    requires p.WellFormed() && |v| == |v'| == p.n + 1 && l <= p.n
  {
    && (forall j :: 0 <= j < l ==> v'[j] == v[j])
    && Drops(v[l] + WordWeight(Unit(p.n, l), w), v'[l], p.ro[l])
  }

  lemma {:induction false} CollectedEmpty<X(!new)>(p: Presentation, act: Action<X>, l: nat, v: seq<int>)
    requires p.WellFormed() && |v| == p.n + 1 && l <= p.n
    ensures Collected(p, act, v, [], v) && LeadCollected(p, l, v, [], v)
  {
    assert Times(0, p.ro[l]) == 0;
  }

  /** When the stack is empty, the vector holds the result. */
  lemma {:induction false} Finished<X(!new)>(p: Presentation, act: Action<X>, l: nat, v: seq<int>, w: Word,
                                             v': seq<int>)
    requires p.WellFormed() && w != [] && l <= p.n && Shaped(p, Config(v, [Pushed(w, 1)]))
    requires Keeps(p, act, l, Config(v, [Pushed(w, 1)]), Config(v', []))
    ensures Collected(p, act, v, w, v') && LeadCollected(p, l, v, w, v')
  {
    var f := Pushed(w, 1);
    var c, c' := Config(v, [f]), Config(v', []);
    forall x
      ensures VecAct(act, v', 0, p.n, x) == WordAct(act, w, VecAct(act, v, 0, p.n, x))
    {
      var y := VecAct(act, v, 0, p.n, x);
      StackOne(p, act, f, y);
      PushedAct(act, w, 1, y);
      assert Meaning(p, act, c', x) == Meaning(p, act, c, x);
    }
    LoadOne(p, Unit(p.n, l), f);
  }

  /** Collecting multiplies, in every group that satisfies the presentation. */
  lemma {:induction false} CollectActs<X(!new)>(p: Presentation, act: Action<X>, l: nat, v: seq<int>, w: Word)
    requires Collectable(p, v, w) && Satisfies(p, act) && From(w, l) && l <= p.n
    ensures Collected(p, act, v, w, Collect(p, v, w)) && LeadCollected(p, l, v, w, Collect(p, v, w))
  {
    if w == [] {
      CollectedEmpty(p, act, l, v);
    } else {
      CollectIs(p, v, w);
      FromOne(Pushed(w, 1), l);
      RunKeeps(p, act, l, Begin(p, v, w));
      Finished(p, act, l, v, w, Collect(p, v, w));
    }
  }
}
