/** What the single steps of the collector do to the vector, and why they keep the meaning. */
module CollectorSteps {
  import opened PcPresentation
  import opened PcAction
  import opened CollectorStack

  ghost predicate Vector(p: Presentation, v: seq<int>)
  {
    |v| == p.n + 1 && forall i :: 1 <= i <= p.n ==> v[i] >= 0
  }

  /** The vector seen from generator g. */
  lemma {:induction false} VecAt<X(!new)>(p: Presentation, act: Action<X>, v: seq<int>, g: nat, x: X)
    requires |v| == p.n + 1 && 1 <= g <= p.n
    ensures VecAct(act, v, 0, p.n, x) == VecAct(act, v, g, p.n, Pw(act, g, v[g], VecAct(act, v, 0, g - 1, x)))
  {
    VecSplit(act, v, 0, g, p.n, x);
  }

  /** The vector after g has moved to its place and the entries up to the avector entry are stacked up. */
  function Moved(p: Presentation, v: seq<int>, g: nat): seq<int>
    requires p.n < |v| && 1 <= g <= p.n < |p.avc| && p.avc[g] <= p.n
  {
    Cleared(v, g, p.avc[g])[g := v[g] + 1]
  }

  lemma {:induction false} MovedAct<X(!new)>(p: Presentation, act: Action<X>, v: seq<int>, g: nat, x: X)
    requires p.WellFormed() && Satisfies(p, act) && Vector(p, v) && 1 <= g <= p.n
    ensures Frames(p, Pushes(p, v, g, g, p.avc[g]))
    ensures Step(act, g, VecAct(act, v, 0, p.n, x)) ==
            StackAct(p, act, Pushes(p, v, g, g, p.avc[g]), VecAct(act, Moved(p, v, g), 0, p.n, x))
  {
    var a, n, v' := p.avc[g], p.n, Moved(p, v, g);
    var s := Pushes(p, v, g, g, a);
    var y := VecAct(act, v, 0, g - 1, x);
    var z := Pw(act, g, v[g], y);
    assert Step(act, g, VecAct(act, v, 0, n, x)) == VecAct(act, v, a, n, Step(act, g, VecAct(act, v, g, a, z))) by {
      VecAt(p, act, v, g, x);
      VecSplit(act, v, g, a, n, z);
      StepPastVec(p, act, v, g, a, n, VecAct(act, v, g, a, z));
    }
    PushesAct(p, act, v, g, a, z);
    PushesPastVec(p, act, v, g, a, v, Step(act, g, z));
    assert VecAct(act, v', 0, n, x) == VecAct(act, v, a, n, Step(act, g, z)) by {
      MovedVec(p, act, v, g, x);
    }
  }

  lemma {:induction false} MovedVec<X(!new)>(p: Presentation, act: Action<X>, v: seq<int>, g: nat, x: X)
    requires p.WellFormed() && Satisfies(p, act) && Vector(p, v) && 1 <= g <= p.n
    ensures VecAct(act, Moved(p, v, g), 0, p.n, x) ==
            VecAct(act, v, p.avc[g], p.n, Step(act, g, Pw(act, g, v[g], VecAct(act, v, 0, g - 1, x))))
  {
    var a, n, v' := p.avc[g], p.n, Moved(p, v, g);
    var y := VecAct(act, v, 0, g - 1, x);
    var z := Pw(act, g, v[g] + 1, y);
    VecAt(p, act, v', g, x);
    VecSame(act, v, v', 0, g - 1, x);
    PwStep(act, g, v[g], y);
    VecSplit(act, v', g, a, n, z);
    VecZero(act, v', g, a, z);
    VecSame(act, v, v', a, n, z);
  }

  /** Where all conjugates are trivial, g just adds to its entry. */
  lemma {:induction false} StayedAct<X(!new)>(p: Presentation, act: Action<X>, v: seq<int>, g: nat, x: X)
    requires p.WellFormed() && Satisfies(p, act) && Vector(p, v) && 1 <= g <= p.n
    requires forall i :: g < i <= p.avc[g] ==> v[i] == 0 || p.Conjugate(i, g) == []
    ensures Step(act, g, VecAct(act, v, 0, p.n, x)) == VecAct(act, v[g := v[g] + 1], 0, p.n, x)
  {
    var a, n, v' := p.avc[g], p.n, v[g := v[g] + 1];
    var y := VecAct(act, v, 0, g - 1, x);
    var z, z' := Pw(act, g, v[g], y), Pw(act, g, v[g] + 1, y);
    assert Step(act, g, VecAct(act, v, 0, n, x)) == VecAct(act, v, a, n, Step(act, g, VecAct(act, v, g, a, z))) by {
      VecAt(p, act, v, g, x);
      VecSplit(act, v, g, a, n, z);
      StepPastVec(p, act, v, g, a, n, VecAct(act, v, g, a, z));
    }
    assert Step(act, g, VecAct(act, v, g, a, z)) == VecAct(act, v, g, a, Step(act, g, z)) by {
      PushesAct(p, act, v, g, a, z);
      PushesTrivial(p, act, v, g, a, Step(act, g, z));
    }
    PwStep(act, g, v[g], y);
    VecAt(p, act, v', g, x);
    VecSame(act, v, v', 0, g - 1, x);
    VecSame(act, v, v', g, n, z');
    VecSplit(act, v, g, a, n, z');
  }

  /** A generator that commutes with all later ones goes to its place at once. */
  lemma {:induction false} DirectAct<X(!new)>(p: Presentation, act: Action<X>, v: seq<int>, g: nat, e: nat, x: X)
    requires p.WellFormed() && Satisfies(p, act) && Vector(p, v) && 1 <= g <= p.n && p.avc[g] == g
    ensures Pw(act, g, e, VecAct(act, v, 0, p.n, x)) == VecAct(act, v[g := v[g] + e], 0, p.n, x)
  {
    var v' := v[g := v[g] + e];
    var y := VecAct(act, v, 0, g - 1, x);
    VecAt(p, act, v, g, x);
    PwPastVec(p, act, v, g, e, g, p.n, Pw(act, g, v[g], y));
    PwAdd(act, g, e, v[g], y);
    VecAt(p, act, v', g, x);
    VecSame(act, v, v', 0, g - 1, x);
    VecSame(act, v, v', g, p.n, Pw(act, g, v[g] + e, y));
  }

  /** No entry keeps the right hand side of the power relation of g from moving to the right. */
  ghost predicate Free(p: Presentation, v: seq<int>, g: nat)
    requires p.WellFormed() && |v| == p.n + 1 && 1 <= g <= p.n
  {
    p.Power(g) == [] || forall i :: g < i <= p.avc[g] ==> v[i] == 0
  }

  lemma {:induction false} NoWord<X(!new)>(act: Action<X>, k: nat, x: X)
    ensures Words(act, [], k, x) == x
  {
    if k > 0 {
      NoWord(act, k - 1, x);
    }
  }

  /** An exponent that is too large: q times the relative order is q times the power. */
  lemma {:induction false} ReducedAct<X(!new)>(p: Presentation, act: Action<X>, v: seq<int>, g: nat, q: nat, e: nat,
                                               x: X)
    requires p.WellFormed() && Satisfies(p, act) && Vector(p, v) && 1 <= g <= p.n
    requires v[g] == q * p.ro[g] + e && Free(p, v, g)
    ensures VecAct(act, v, 0, p.n, x) == Words(act, p.Power(g), q, VecAct(act, v[g := e], 0, p.n, x))
  {
    var v' := v[g := e];
    var y := VecAct(act, v, 0, g - 1, x);
    var z := Pw(act, g, e, y);
    PowersOut(p, act, g, q, z);
    PwAdd(act, g, q * p.ro[g], e, y);
    VecAt(p, act, v, g, x);
    VecAt(p, act, v', g, x);
    VecSame(act, v, v', 0, g - 1, x);
    VecSame(act, v, v', g, p.n, z);
    PowerPastVec(p, act, v, g, q, z);
  }

  lemma {:induction false} PowerPastVec<X(!new)>(p: Presentation, act: Action<X>, v: seq<int>, g: nat, q: nat, z: X)
    requires p.WellFormed() && Satisfies(p, act) && Vector(p, v) && 1 <= g <= p.n && Free(p, v, g)
    ensures VecAct(act, v, g, p.n, Words(act, p.Power(g), q, z)) == Words(act, p.Power(g), q, VecAct(act, v, g, p.n, z))
  {
    var a, n, w := p.avc[g], p.n, p.Power(g);
    if w == [] {
      NoWord(act, q, z);
      NoWord(act, q, VecAct(act, v, g, n, z));
    } else {
      VecSplit(act, v, g, a, n, z);
      VecZero(act, v, g, a, z);
      VecSplit(act, v, g, a, n, Words(act, w, q, z));
      VecZero(act, v, g, a, Words(act, w, q, z));
      WordsPastVec(p, act, g, w, q, v, a, n, z);
    }
  }

  // ----- whole steps

  ghost predicate Top(p: Presentation, c: Config, f: Frame)
  {
    Shaped(p, c) && Vector(p, c.v) && c.stack != [] && f == c.stack[|c.stack| - 1]
  }

  function Below(c: Config): seq<Frame>
    requires c.stack != []
  {
    c.stack[..|c.stack| - 1]
  }

  /** The configuration with the top frame replaced. */
  function WithTop(c: Config, v: seq<int>, top: seq<Frame>): Config
    requires c.stack != []
  {
    Config(v, Below(c) + top)
  }

  lemma {:induction false} TopShaped(p: Presentation, c: Config, f: Frame, v: seq<int>, top: seq<Frame>)
    requires Top(p, c, f) && |v| == p.n + 1 && Frames(p, top)
    ensures Shaped(p, WithTop(c, v, top)) && c.stack == Below(c) + [f] && Frames(p, Below(c))
  {
    FramesAppend(p, Below(c), top);
  }

  lemma {:induction false} TopSame<X(!new)>(p: Presentation, act: Action<X>, c: Config, f: Frame, v: seq<int>,
                                            top: seq<Frame>)
    requires Top(p, c, f) && |v| == p.n + 1 && Frames(p, top)
    requires forall x {:trigger VecAct(act, c.v, 0, p.n, x)} ::
               FrameAct(act, f, VecAct(act, c.v, 0, p.n, x)) == StackAct(p, act, top, VecAct(act, v, 0, p.n, x))
    ensures Shaped(p, WithTop(c, v, top)) && Same(p, act, c, WithTop(c, v, top))
  {
    TopShaped(p, c, f, v, top);
    assert f.Valid(p) && Frames(p, [f]);
    forall x
      ensures StackAct(p, act, [f], VecAct(act, c.v, 0, p.n, x)) == StackAct(p, act, top, VecAct(act, v, 0, p.n, x))
    {
      StackOne(p, act, f, VecAct(act, c.v, 0, p.n, x));
    }
    TopChange(p, act, Below(c), [f], top, c.v, v);
  }

  /** A negative exponent: the word for the inverse is pushed. */
  lemma {:induction false} NegativeSame<X(!new)>(p: Presentation, act: Action<X>, c: Config, f: Frame)
    requires p.WellFormed() && Satisfies(p, act) && Top(p, c, f) && f.ew < 0
    ensures var top := [f.(ew := 0), Pushed(p.inv[f.Gen()], -f.ew)];
            Shaped(p, WithTop(c, c.v, top)) && Same(p, act, c, WithTop(c, c.v, top))
  {
    var g, k, f0 := f.Gen(), -f.ew, f.(ew := 0);
    var h := Pushed(p.inv[g], k);
    assert Frames(p, [f0]) && Frames(p, [h]);
    FramesAppend(p, [f0], [h]);
    assert [f0] + [h] == [f0, h];
    forall x
      ensures FrameAct(act, f, VecAct(act, c.v, 0, p.n, x)) == StackAct(p, act, [f0, h], VecAct(act, c.v, 0, p.n, x))
    {
      var y := VecAct(act, c.v, 0, p.n, x);
      Inverted(p, act, g, k, y);
      PushedAct(act, p.inv[g], k, y);
      StackOne(p, act, h, y);
      StackOne(p, act, f0, FrameAct(act, h, y));
      StackAppend(p, act, [f0], [h], y);
    }
    TopSame(p, act, c, f, c.v, [f0, h]);
  }

  /** The frame after its current exponent has been used up; nothing when the word is done. */
  function Next(f: Frame): seq<Frame>
    requires f.pos < |f.word| && f.ge >= 1
  {
    if f.pos + 1 < |f.word| then [f.(pos := f.pos + 1, ew := f.word[f.pos + 1].exp)]
    else if f.ge > 1 then [Pushed(f.word, f.ge - 1)]
    else []
  }

  /** An exponent that is used up: on to the next syllable, to the next round, or to the next word. */
  lemma {:induction false} NextSame<X(!new)>(p: Presentation, act: Action<X>, c: Config, f: Frame)
    requires Top(p, c, f) && f.ew == 0
    ensures Shaped(p, WithTop(c, c.v, Next(f))) && Same(p, act, c, WithTop(c, c.v, Next(f)))
  {
    var top := Next(f);
    assert Frames(p, top);
    forall x
      ensures FrameAct(act, f, VecAct(act, c.v, 0, p.n, x)) == StackAct(p, act, top, VecAct(act, c.v, 0, p.n, x))
    {
      NextAct(p, act, f, VecAct(act, c.v, 0, p.n, x));
    }
    TopSame(p, act, c, f, c.v, top);
  }

  lemma {:induction false} NextAct<X(!new)>(p: Presentation, act: Action<X>, f: Frame, y: X)
    requires f.Valid(p) && f.ew == 0
    ensures Frames(p, Next(f)) && FrameAct(act, f, y) == StackAct(p, act, Next(f), y)
  {
    if Next(f) != [] {
      StackOne(p, act, Next(f)[0], y);
      if f.pos + 1 < |f.word| {
        assert f.word[f.pos + 1..][1..] == f.word[f.pos + 2..];
      }
    }
  }

  /** One letter of the top frame moves into the vector. */
  lemma {:induction false} LetterSame<X(!new)>(p: Presentation, act: Action<X>, c: Config, f: Frame, v: seq<int>,
                                               s: seq<Frame>)
    requires p.WellFormed() && Top(p, c, f) && f.ew > 0 && |v| == p.n + 1 && Frames(p, s)
    requires forall x {:trigger VecAct(act, c.v, 0, p.n, x)} ::
               Step(act, f.Gen(), VecAct(act, c.v, 0, p.n, x)) == StackAct(p, act, s, VecAct(act, v, 0, p.n, x))
    ensures var top := [f.(ew := f.ew - 1)] + s;
            Shaped(p, WithTop(c, v, top)) && Same(p, act, c, WithTop(c, v, top))
  {
    var f' := f.(ew := f.ew - 1);
    assert Frames(p, [f']);
    FramesAppend(p, [f'], s);
    forall x
      ensures FrameAct(act, f, VecAct(act, c.v, 0, p.n, x)) == StackAct(p, act, [f'] + s, VecAct(act, v, 0, p.n, x))
    {
      var y, y' := VecAct(act, c.v, 0, p.n, x), VecAct(act, v, 0, p.n, x);
      StackAppend(p, act, [f'], s, y');
      StackOne(p, act, f', StackAct(p, act, s, y'));
    }
    TopSame(p, act, c, f, v, [f'] + s);
  }

  lemma {:induction false} MovedSame<X(!new)>(p: Presentation, act: Action<X>, c: Config, f: Frame)
    requires p.WellFormed() && Satisfies(p, act) && Top(p, c, f) && f.ew > 0
    ensures var g := f.Gen();
            var top := [f.(ew := f.ew - 1)] + Pushes(p, c.v, g, g, p.avc[g]);
            Shaped(p, WithTop(c, Moved(p, c.v, g), top)) && Same(p, act, c, WithTop(c, Moved(p, c.v, g), top))
  {
    var g := f.Gen();
    PushesFrames(p, c.v, g, g, p.avc[g]);
    forall x
      ensures Step(act, g, VecAct(act, c.v, 0, p.n, x)) ==
              StackAct(p, act, Pushes(p, c.v, g, g, p.avc[g]), VecAct(act, Moved(p, c.v, g), 0, p.n, x))
    {
      MovedAct(p, act, c.v, g, x);
    }
    LetterSame(p, act, c, f, Moved(p, c.v, g), Pushes(p, c.v, g, g, p.avc[g]));
  }

  lemma {:induction false} StayedSame<X(!new)>(p: Presentation, act: Action<X>, c: Config, f: Frame)
    requires p.WellFormed() && Satisfies(p, act) && Top(p, c, f) && f.ew > 0
    requires forall i :: f.Gen() < i <= p.avc[f.Gen()] ==> c.v[i] == 0 || p.Conjugate(i, f.Gen()) == []
    ensures var v, top := c.v[f.Gen() := c.v[f.Gen()] + 1], [f.(ew := f.ew - 1)];
            Shaped(p, WithTop(c, v, top)) && Same(p, act, c, WithTop(c, v, top))
  {
    var g := f.Gen();
    var v, f' := c.v[g := c.v[g] + 1], f.(ew := f.ew - 1);
    forall x
      ensures Step(act, g, VecAct(act, c.v, 0, p.n, x)) == StackAct(p, act, [], VecAct(act, v, 0, p.n, x))
    {
      StayedAct(p, act, c.v, g, x);
    }
    LetterSame(p, act, c, f, v, []);
    assert [f'] + [] == [f'];
  }

  lemma {:induction false} DirectSame<X(!new)>(p: Presentation, act: Action<X>, c: Config, f: Frame)
    requires p.WellFormed() && Satisfies(p, act) && Top(p, c, f) && f.ew > 0 && p.avc[f.Gen()] == f.Gen()
    ensures var v, top := c.v[f.Gen() := c.v[f.Gen()] + f.ew], [f.(ew := 0)];
            Shaped(p, WithTop(c, v, top)) && Same(p, act, c, WithTop(c, v, top))
  {
    var g := f.Gen();
    var v, f' := c.v[g := c.v[g] + f.ew], f.(ew := 0);
    forall x
      ensures FrameAct(act, f, VecAct(act, c.v, 0, p.n, x)) == StackAct(p, act, [f'], VecAct(act, v, 0, p.n, x))
    {
      DirectAct(p, act, c.v, g, f.ew, x);
      StackOne(p, act, f', VecAct(act, v, 0, p.n, x));
    }
    TopSame(p, act, c, f, v, [f']);
  }

  /** What is pushed for q powers of g. */
  function PowerPushes(p: Presentation, g: nat, q: nat): seq<Frame>
  {
    if p.Power(g) == [] || q == 0 then [] else [Pushed(p.Power(g), q)]
  }

  lemma {:induction false} ReducedSame<X(!new)>(p: Presentation, act: Action<X>, c: Config, g: nat, q: nat, e: nat)
    requires p.WellFormed() && Satisfies(p, act) && Shaped(p, c) && Vector(p, c.v) && 1 <= g <= p.n
    requires c.v[g] == q * p.ro[g] + e && Free(p, c.v, g)
    ensures var c' := Config(c.v[g := e], c.stack + PowerPushes(p, g, q)); Shaped(p, c') && Same(p, act, c, c')
  {
    var v, r, w := c.v[g := e], PowerPushes(p, g, q), p.Power(g);
    assert c.stack + [] == c.stack;
    assert Frames(p, r);
    FramesAppend(p, c.stack, r);
    forall x
      ensures StackAct(p, act, [], VecAct(act, c.v, 0, p.n, x)) == StackAct(p, act, r, VecAct(act, v, 0, p.n, x))
    {
      var y := VecAct(act, v, 0, p.n, x);
      ReducedAct(p, act, c.v, g, q, e, x);
      if w == [] {
        NoWord(act, q, y);
      } else if q > 0 {
        PushedAct(act, w, q, y);
        StackOne(p, act, r[0], y);
      }
    }
    TopChange(p, act, c.stack, [], r, c.v, v);
  }
}
