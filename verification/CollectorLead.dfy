/**
  The leading exponent: when a word in generators from l on is collected, entries below l
  stay as they are, and the entry of l grows by the exponent of l, modulo its relative order.
 */
module CollectorLead {
  import opened PcPresentation
  import opened CollectorStack
  import opened CollectorSteps
  import opened CollectorWeights

  /** Weights that count the letter l. */
  ghost function Unit(n: nat, l: nat): Weights
  {
    Weights(seq(n + 1, i => if i == l then 1 else 0), [])
  }

  /** A word in generators from l on, where l has no negative exponent. */
  ghost predicate From(w: Word, l: nat)
  {
    forall k {:trigger w[k].gen} :: 0 <= k < |w| ==> w[k].gen >= l && (w[k].gen == l ==> w[k].exp >= 0)
  }

  ghost predicate FrameFrom(f: Frame, l: nat)
  {
    f.pos < |f.word| && From(f.word, l) && (f.Gen() == l ==> f.ew >= 0)
  }

  ghost predicate StackFrom(s: seq<Frame>, l: nat)
  {
    s != [] ==> FrameFrom(s[|s| - 1], l) && StackFrom(s[..|s| - 1], l)
  }

  /** What the collector has collected and has yet to collect of l, in sum. */
  ghost function Total(p: Presentation, c: Config, l: nat): int
    requires Shaped(p, c) && l <= p.n
  {
    c.v[l] + Load(p, Unit(p.n, l), c.stack)
  }

  /** From a to b a multiple of m has gone. */
  ghost predicate Drops(a: int, b: int, m: nat)
  {
    exists d: nat :: a == b + Times(d, m)
  }

  lemma {:induction false} DropsTrans(a: int, b: int, c: int, m: nat)
    requires Drops(a, b, m) && Drops(b, c, m)
    ensures Drops(a, c, m)
  {
    var d: nat :| a == b + Times(d, m);
    var e: nat :| b == c + Times(e, m);
    TimesAdd(d, e, m);
  }

  ghost predicate Led(p: Presentation, l: nat, c: Config, c': Config)
    requires p.WellFormed() && Shaped(p, c) && Shaped(p, c') && l <= p.n
  {
    && (forall j :: 0 <= j < l ==> c'.v[j] == c.v[j])
    && Drops(Total(p, c, l), Total(p, c', l), p.ro[l])
  }

  lemma {:induction false} FromAppend(s: seq<Frame>, r: seq<Frame>, l: nat)
    ensures StackFrom(s + r, l) <==> StackFrom(s, l) && StackFrom(r, l)
    decreases |r|
  {
    if r == [] {
      assert s + r == s;
    } else {
      FromAppend(s, r[..|r| - 1], l);
      assert (s + r)[..|s + r| - 1] == s + r[..|r| - 1];
    }
  }

  lemma {:induction false} FromOne(f: Frame, l: nat)
    ensures StackFrom([f], l) <==> FrameFrom(f, l)
  {
    assert [f][..0] == [];
  }

  /** Words above l do not count, and may be pushed. */
  lemma {:induction false} OverUnit(p: Presentation, w: Word, l: nat)
    requires p.Over(w, l)
    ensures WordWeight(Unit(p.n, l), w) == 0 && From(w, l)
  {
    if w != [] {
      assert w[0].gen > l;
      OverUnit(p, w[1..], l);
      TimesZero(if w[0].exp >= 0 then w[0].exp else -w[0].exp);
    }
  }

  lemma {:induction false} TimesZero(k: nat)
    ensures Times(k, 0) == 0
  {
    if k > 0 {
      TimesZero(k - 1);
    }
  }

  lemma {:induction false} PushedUnit(p: Presentation, w: Word, k: nat, l: nat)
    requires w != [] && k >= 1 && p.Over(w, l)
    ensures Frames(p, [Pushed(w, k)]) && StackFrom([Pushed(w, k)], l) && Load(p, Unit(p.n, l), [Pushed(w, k)]) == 0
  {
    assert w[0].gen > l;
    OverUnit(p, w, l);
    WeightPushed(p, Unit(p.n, l), w, k);
    TimesZero(k);
    FromOne(Pushed(w, k), l);
  }

  lemma {:induction false} PushesUnit(p: Presentation, v: seq<int>, g: nat, hi: nat, l: nat)
    requires p.WellFormed() && |v| == p.n + 1 && 1 <= g <= p.n && l <= g && hi <= p.n
    ensures var s := Pushes(p, v, g, g, hi); Frames(p, s) && StackFrom(s, l) && Load(p, Unit(p.n, l), s) == 0
    decreases hi
  {
    if g < hi {
      PushesUnit(p, v, g, hi - 1, l);
      if v[hi] > 0 {
        var w, r := p.Image(hi, g), Pushes(p, v, g, g, hi - 1);
        ImageOver(p, hi, g);
        PushedUnit(p, w, v[hi], l);
        LoadAppend(p, Unit(p.n, l), [Pushed(w, v[hi])], r);
        FromAppend([Pushed(w, v[hi])], r, l);
      }
    }
  }

  lemma {:induction false} PowerUnit(p: Presentation, g: nat, q: nat, l: nat)
    requires p.WellFormed() && 1 <= g <= p.n && l <= g
    ensures var s := PowerPushes(p, g, q); Frames(p, s) && StackFrom(s, l) && Load(p, Unit(p.n, l), s) == 0
  {
    if p.Power(g) != [] && q > 0 {
      PushedUnit(p, p.Power(g), q, l);
    }
  }

  /** The top frame is replaced by one that weighs `less` less, and by frames that do not count. */
  lemma {:induction false} TopUnit(p: Presentation, c: Config, f: Frame, f': Frame, v: seq<int>, s: seq<Frame>, l: nat)
    requires Top(p, c, f) && StackFrom(c.stack, l) && f'.Valid(p) && f'.word == f.word && (f'.Gen() == l ==> f'.ew >= 0)
    requires Frames(p, s) && StackFrom(s, l) && Load(p, Unit(p.n, l), s) == 0
    ensures var r := WithTop(c, v, [f'] + s).stack;
            && Frames(p, r) && StackFrom(r, l)
            && Load(p, Unit(p.n, l), r) + FrameWeight(Unit(p.n, l), f) == Load(p, Unit(p.n, l),
                    c.stack) + FrameWeight(Unit(p.n, l), f')
  {
    var t := Unit(p.n, l);
    LoadOne(p, t, f');
    LoadAppend(p, t, [f'], s);
    LoadAppend(p, t, Below(c), [f'] + s);
    FromOne(f', l);
    FromAppend([f'], s, l);
    FromAppend(Below(c), [f'] + s, l);
  }

  lemma {:induction false} UnitSyl(n: nat, l: nat, g: nat, e: nat)
    requires g <= n
    ensures SylWeight(Unit(n, l), g, e) == if g == l then e else 0
  {
    if e > 0 {
      UnitSyl(n, l, g, e - 1);
    }
  }

  lemma {:induction false} SameTotal(p: Presentation, c: Config, c': Config, l: nat)
    requires p.WellFormed() && Shaped(p, c) && Shaped(p, c') && l <= p.n && forall j :: 0 <= j < l ==> c'.v[j] == c.v[j]
    requires c'.v[l] + Load(p, Unit(p.n, l), c'.stack) == c.v[l] + Load(p, Unit(p.n, l), c.stack)
    ensures Led(p, l, c, c')
  {
    assert Times(0, p.ro[l]) == 0;
  }

  lemma {:induction false} FrameLess(p: Presentation, f: Frame, k: nat, l: nat)
    requires f.Valid(p) && k <= f.ew
    ensures FrameWeight(Unit(p.n, l), f) == FrameWeight(Unit(p.n, l), f.(ew := f.ew - k)) + if f.Gen() == l then k
            else 0
  {
    UnitSyl(p.n, l, f.Gen(), f.ew);
    UnitSyl(p.n, l, f.Gen(), f.ew - k);
  }

  /** k letters go from the top frame into the vector. */
  lemma {:induction false} LettersLed(p: Presentation, c: Config, f: Frame, k: nat, v: seq<int>, s: seq<Frame>, l: nat)
    requires p.WellFormed() && Top(p, c, f) && StackFrom(c.stack, l) && k <= f.ew && l <= p.n
    requires |v| == p.n + 1 && v[f.Gen()] == c.v[f.Gen()] + k && forall i :: 0 <= i < f.Gen() ==> v[i] == c.v[i]
    requires Frames(p, s) && StackFrom(s, l) && Load(p, Unit(p.n, l), s) == 0
    ensures var c' := WithTop(c, v, [f.(ew := f.ew - k)] + s);
            Shaped(p, c') && StackFrom(c'.stack, l) && Led(p, l, c, c')
  {
    var g, f' := f.Gen(), f.(ew := f.ew - k);
    TopUnit(p, c, f, f', v, s, l);
    FrameLess(p, f, k, l);
    assert l <= g;
    SameTotal(p, c, WithTop(c, v, [f'] + s), l);
  }

  lemma {:induction false} InverseUnit(p: Presentation, g: nat, k: nat, l: nat)
    requires p.WellFormed() && 1 <= g <= p.n && l < g && k >= 1
    ensures var s := [Pushed(p.inv[g], k)]; Frames(p, s) && StackFrom(s, l) && Load(p, Unit(p.n, l), s) == 0
  {
    assert p.Over(p.inv[g], l);
    PushedUnit(p, p.inv[g], k, l);
  }

  lemma {:induction false} NegativeUnit(p: Presentation, f: Frame, l: nat)
    requires f.Valid(p) && f.ew < 0
    ensures FrameWeight(Unit(p.n, l), f) == FrameWeight(Unit(p.n, l), f.(ew := 0))
  {
    TimesZero(-f.ew);
  }

  lemma {:induction false} NegativeLed(p: Presentation, c: Config, f: Frame, l: nat)
    requires p.WellFormed() && Top(p, c, f) && StackFrom(c.stack, l) && f.ew < 0 && l <= p.n
    ensures var c' := WithTop(c, c.v, [f.(ew := 0), Pushed(p.inv[f.Gen()], -f.ew)]);
            Shaped(p, c') && StackFrom(c'.stack, l) && Led(p, l, c, c')
  {
    var g, k, f' := f.Gen(), -f.ew, f.(ew := 0);
    var h := Pushed(p.inv[g], k);
    assert g > l;
    InverseUnit(p, g, k, l);
    assert [f'] + [h] == [f', h];
    NegativeTotal(p, c, f, h, l, WithTop(c, c.v, [f', h]));
  }

  lemma {:induction false} NegativeTotal(p: Presentation, c: Config, f: Frame, h: Frame, l: nat, c': Config)
    requires p.WellFormed() && Top(p, c, f) && StackFrom(c.stack, l) && f.ew < 0 && l <= p.n
    requires Frames(p, [h]) && StackFrom([h], l) && Load(p, Unit(p.n, l), [h]) == 0
    requires c' == WithTop(c, c.v, [f.(ew := 0)] + [h])
    ensures Shaped(p, c') && StackFrom(c'.stack, l) && Led(p, l, c, c')
  {
    TopUnit(p, c, f, f.(ew := 0), c.v, [h], l);
    NegativeUnit(p, f, l);
    SameTotal(p, c, c', l);
  }

  lemma {:induction false} ReducedLed(p: Presentation, c: Config, g: nat, q: nat, e: nat, l: nat)
    requires p.WellFormed() && Shaped(p, c) && StackFrom(c.stack, l) && 1 <= g <= p.n && l <= g
    requires c.v[g] == Times(q, p.ro[g]) + e
    ensures var c' := Config(c.v[g := e], c.stack + PowerPushes(p, g, q));
            Shaped(p, c') && StackFrom(c'.stack, l) && Led(p, l, c, c')
  {
    var s := PowerPushes(p, g, q);
    PowerUnit(p, g, q, l);
    LoadAppend(p, Unit(p.n, l), c.stack, s);
    FromAppend(c.stack, s, l);
    var c' := Config(c.v[g := e], c.stack + s);
    if g == l {
      assert Total(p, c, l) == Total(p, c', l) + Times(q, p.ro[l]);
    } else {
      SameTotal(p, c, c', l);
    }
  }

  lemma {:induction false} LedTrans(p: Presentation, l: nat, a: Config, b: Config, c: Config)
    requires p.WellFormed() && Shaped(p, a) && Shaped(p, b) && Shaped(p, c) && l <= p.n
    requires Led(p, l, a, b) && Led(p, l, b, c)
    ensures Led(p, l, a, c)
  {
    DropsTrans(Total(p, a, l), Total(p, b, l), Total(p, c, l), p.ro[l]);
  }

  lemma {:induction false} NextFrom(f: Frame, l: nat)
    requires FrameFrom(f, l) && f.ge >= 1
    ensures StackFrom(Next(f), l)
  {
    if Next(f) != [] {
      var f' := Next(f)[0];
      assert f'.Gen() == l ==> f.word[f'.pos].gen == l && f.word[f'.pos].exp >= 0;
      FromOne(f', l);
    }
  }

  lemma {:induction false} NextLed(p: Presentation, c: Config, f: Frame, l: nat)
    requires p.WellFormed() && Top(p, c, f) && StackFrom(c.stack, l) && f.ew == 0 && l <= p.n
    ensures var c' := WithTop(c, c.v, Next(f)); Shaped(p, c') && StackFrom(c'.stack, l) && Led(p, l, c, c')
  {
    var t, s := Unit(p.n, l), Next(f);
    NextUnit(p, f, t);
    NextFrom(f, l);
    LoadAppend(p, t, Below(c), s);
    FromAppend(Below(c), s, l);
    SameTotal(p, c, WithTop(c, c.v, s), l);
  }
}
