/**
  Why collection ends: weights of the generators, such that a generator weighs more
  than all that can be pushed when it moves into the vector. The weight of the stack,
  each frame counting one, never grows; it also bounds the depth of the stack.
 */
module CollectorWeights {
  import opened PcPresentation
  import opened CollectorStack
  import opened CollectorSteps

  /** Weight of a generator, and of its inverse. */
  datatype Weights = Weights(pos: seq<nat>, neg: seq<nat>)

  function Entry(s: seq<nat>, i: nat): nat
  {
    if i < |s| then s[i] else 0
  }

  /** The product, as a sum of k terms. */
  function Times(k: nat, m: nat): nat
  {
    if k == 0 then 0 else m + Times(k - 1, m)
  }

  lemma {:induction false} TimesIs(k: nat, m: nat)
    ensures Times(k, m) == k * m
  {
    if k > 0 {
      TimesIs(k - 1, m);
    }
  }

  lemma {:induction false} TimesAdd(k: nat, j: nat, m: nat)
    ensures Times(k + j, m) == Times(k, m) + Times(j, m)
  {
    if k > 0 {
      TimesAdd(k - 1, j, m);
    }
  }

  /** Division by subtraction. */
  function Quo(a: nat, m: nat): nat
    requires m > 0
  {
    if a < m then 0 else 1 + Quo(a - m, m)
  }

  function Rem(a: nat, m: nat): (r: nat)
    requires m > 0
    ensures r < m
  {
    if a < m then a else Rem(a - m, m)
  }

  lemma {:induction false} QuoRem(a: nat, m: nat)
    requires m > 0
    ensures a == Times(Quo(a, m), m) + Rem(a, m)
    ensures Quo(a, m) == a / m && Rem(a, m) == a % m
  {
    if a >= m {
      QuoRem(a - m, m);
      TimesIs(Quo(a, m), m);
      TimesIs(Quo(a - m, m), m);
      Exact(a, Quo(a, m), Rem(a, m), m);
    }
  }

  /** Quotient and remainder are determined by their sizes. */
  lemma {:induction false} Exact(x: int, k: int, r: int, m: nat)
    requires x == k * m + r && 0 <= r < m
    ensures x % m == r && x / m == k
  {
    var d := x / m - k;
    assert d * m == r - x % m;
    Multiple(d, m);
  }

  lemma {:induction false} Multiple(d: int, m: nat)
    ensures d >= 1 ==> d * m >= m
    ensures d <= -1 ==> d * m <= 0 - m
  {
    assert (d - 1) * m == d * m - m && (d + 1) * m == d * m + m;
  }

  function SylWeight(t: Weights, g: nat, e: int): nat
  {
    if e >= 0 then Times(e, Entry(t.pos, g)) else Times(-e, Entry(t.neg, g))
  }

  function WordWeight(t: Weights, w: Word): nat
  {
    if w == [] then 0 else SylWeight(t, w[0].gen, w[0].exp) + WordWeight(t, w[1..])
  }

  function FrameWeight(t: Weights, f: Frame): nat
    requires f.pos < |f.word| && f.ge >= 1
  {
    SylWeight(t, f.Gen(), f.ew) + WordWeight(t, f.word[f.pos + 1..]) + Times(f.ge - 1, WordWeight(t, f.word))
  }

  ghost function Load(p: Presentation, t: Weights, s: seq<Frame>): nat
    requires Frames(p, s)
  {
    if s == [] then 0 else Load(p, t, s[..|s| - 1]) + FrameWeight(t, s[|s| - 1])
  }

  ghost function Weight(p: Presentation, t: Weights, s: seq<Frame>): nat
    requires Frames(p, s)
  {
    Load(p, t, s) + |s|
  }

  /** The most that is pushed when g moves past the generators up to hi. */
  function Cost(p: Presentation, t: Weights, g: nat, hi: nat): nat
    requires p.WellFormed() && hi <= p.n
    decreases hi
  {
    if hi <= g then 0 else Cost(p, t, g, hi - 1) + Times(p.ro[hi], WordWeight(t, p.Image(hi, g)) + 1)
  }

  /** A generator outweighs what it can cause to be pushed. */
  ghost predicate HeavyAt(p: Presentation, t: Weights, g: nat)
    requires p.WellFormed() && 1 <= g <= p.n
  {
    && Entry(t.pos, g) >= Cost(p, t, g, p.n) + WordWeight(t, p.Power(g)) + 2
    && Entry(t.neg, g) >= WordWeight(t, p.inv[g]) + 2
  }

  ghost predicate Heavy(p: Presentation, t: Weights, k: nat)
    requires p.WellFormed() && k >= 1
  {
    |t.pos| == |t.neg| == p.n + 1 && forall g {:trigger HeavyAt(p, t, g)} :: k <= g <= p.n ==> HeavyAt(p, t, g)
  }

  // ----- weights exist

  /** The weights agree on generators above lo. */
  ghost predicate Agree(t: Weights, t': Weights, lo: nat)
  {
    forall i {:trigger Entry(t'.pos, i)} {:trigger Entry(t'.neg, i)} ::
      lo < i ==> Entry(t.pos, i) == Entry(t'.pos, i) && Entry(t.neg, i) == Entry(t'.neg, i)
  }

  lemma {:induction false} WordAgrees(p: Presentation, t: Weights, t': Weights, lo: nat, w: Word)
    requires Agree(t, t', lo) && p.Over(w, lo)
    ensures WordWeight(t', w) == WordWeight(t, w)
  {
    if w != [] {
      assert lo < w[0].gen;
      WordAgrees(p, t, t', lo, w[1..]);
    }
  }

  lemma {:induction false} CostAgrees(p: Presentation, t: Weights, t': Weights, g: nat, hi: nat)
    requires p.WellFormed() && 1 <= g && hi <= p.n && Agree(t, t', g)
    ensures Cost(p, t', g, hi) == Cost(p, t, g, hi)
    decreases hi
  {
    if g < hi {
      CostAgrees(p, t, t', g, hi - 1);
      ImageOver(p, hi, g);
      WordAgrees(p, t, t', g, p.Image(hi, g));
    }
  }

  lemma {:induction false} HeavyAgrees(p: Presentation, t: Weights, t': Weights, k: nat, g: nat)
    requires p.WellFormed() && 1 <= k < g <= p.n && Agree(t, t', k) && HeavyAt(p, t, g)
    ensures HeavyAt(p, t', g)
  {
    CostAgrees(p, t, t', g, p.n);
    WordAgrees(p, t, t', k, p.Power(g));
    WordAgrees(p, t, t', k, p.inv[g]);
  }

  /** The weight of a word does not depend on the weight of an inverse that does not occur in it. */
  lemma {:induction false} PositiveAgrees(p: Presentation, t: Weights, t': Weights, k: nat, w: Word)
    requires k >= 1 && Agree(t, t', k) && p.Over(w, k - 1) && Entry(t.pos, k) == Entry(t'.pos, k)
    requires forall j :: 0 <= j < |w| && w[j].gen == k ==> w[j].exp >= 0
    ensures WordWeight(t', w) == WordWeight(t, w)
  {
    if w != [] {
      assert k - 1 < w[0].gen;
      PositiveAgrees(p, t, t', k, w[1..]);
    }
  }

  /** Gives generator k its weight, the later ones having theirs. */
  lemma {:induction false} Weigh(p: Presentation, t: Weights, k: nat) returns (t': Weights)
    requires p.WellFormed() && 1 <= k <= p.n && Heavy(p, t, k + 1)
    ensures Heavy(p, t', k)
  {
    var a := Cost(p, t, k, p.n) + WordWeight(t, p.Power(k)) + 2;
    var t1 := t.(pos := t.pos[k := a]);
    var b := WordWeight(t1, p.inv[k]) + 2;
    t' := t1.(neg := t.neg[k := b]);
    assert Agree(t, t', k);
    CostAgrees(p, t, t', k, p.n);
    WordAgrees(p, t, t', k, p.Power(k));
    PositiveAgrees(p, t1, t', k, p.inv[k]);
    assert HeavyAt(p, t', k);
    forall g | k < g <= p.n
      ensures HeavyAt(p, t', g)
    {
      assert HeavyAt(p, t, g);
      HeavyAgrees(p, t, t', k, g);
    }
  }

  /** There are weights for all generators. */
  lemma {:induction false} WeighAll(p: Presentation, k: nat) returns (t: Weights)
    requires p.WellFormed() && 1 <= k <= p.n + 1
    ensures Heavy(p, t, k)
    decreases p.n - k
  {
    if k == p.n + 1 {
      t := Weights(seq(p.n + 1, _ => 0), seq(p.n + 1, _ => 0));
    } else {
      t := WeighAll(p, k + 1);
      t := Weigh(p, t, k);
    }
  }

  // ----- the weight of the stack

  lemma {:induction false} LoadLast(p: Presentation, t: Weights, s: seq<Frame>, f: Frame)
    requires Frames(p, s + [f])
    ensures Frames(p, s) && Frames(p, [f]) && f.Valid(p)
    ensures Load(p, t, s + [f]) == Load(p, t, s) + FrameWeight(t, f)
  {
    FramesAppend(p, s, [f]);
    assert (s + [f])[..|s|] == s;
  }

  ghost predicate LoadAdds(p: Presentation, t: Weights, a: nat, s: seq<Frame>, r: seq<Frame>)
  {
    Frames(p, s) && Frames(p, r) && Load(p, t, s) == a + Load(p, t, r)
  }

  lemma {:induction false} LoadMore(p: Presentation, t: Weights, a: nat, s: seq<Frame>, r: seq<Frame>, f: Frame)
    requires LoadAdds(p, t, a, s, r) && Frames(p, s + [f]) && Frames(p, r + [f])
    ensures LoadAdds(p, t, a, s + [f], r + [f])
  {
    LoadLast(p, t, s, f);
    LoadLast(p, t, r, f);
  }

  lemma {:induction false} LoadBehind(p: Presentation, t: Weights, s: seq<Frame>, r: seq<Frame>, a: nat)
    requires Frames(p, s) && Frames(p, r) && a == Load(p, t, s)
    ensures LoadAdds(p, t, a, s + r, r)
    decreases |r|
  {
    if r == [] {
      assert s + r == s;
    } else {
      var r', f := r[..|r| - 1], r[|r| - 1];
      assert r == r' + [f] && s + r == (s + r') + [f];
      FramesAppend(p, s, r);
      FramesAppend(p, r', [f]);
      LoadBehind(p, t, s, r', a);
      LoadMore(p, t, a, s + r', r', f);
    }
  }

  lemma {:induction false} LoadAppend(p: Presentation, t: Weights, s: seq<Frame>, r: seq<Frame>)
    requires Frames(p, s) && Frames(p, r)
    ensures Frames(p, s + r) && Load(p, t, s + r) == Load(p, t, s) + Load(p, t, r)
  {
    LoadBehind(p, t, s, r, Load(p, t, s));
  }

  lemma {:induction false} LoadOne(p: Presentation, t: Weights, f: Frame)
    requires f.Valid(p)
    ensures Frames(p, [f]) && Load(p, t, [f]) == FrameWeight(t, f)
  {
    var s := [f];
    assert s[..0] == [] && s[0] == f;
  }

  lemma {:induction false} WeightPushed(p: Presentation, t: Weights, w: Word, k: nat)
    requires w != [] && k >= 1 && p.Over(w, 0)
    ensures Frames(p, [Pushed(w, k)]) && Weight(p, t, [Pushed(w, k)]) == Times(k, WordWeight(t, w)) + 1
  {
    LoadOne(p, t, Pushed(w, k));
  }

  lemma {:induction false} TimesMono(a: nat, b: nat, m: nat, n: nat)
    requires a <= b && m <= n
    ensures Times(a, m) <= Times(b, n)
  {
    if a > 0 {
      TimesMono(a - 1, b - 1, m, n);
    }
  }

  lemma {:induction false} TimesMore(k: nat, m: nat)
    requires k >= 1
    ensures Times(k, m) + 1 <= Times(k, m + 1)
  {
    if k > 1 {
      TimesMore(k - 1, m);
    }
  }

  lemma {:induction false} PushWeight(p: Presentation, t: Weights, g: nat, hi: nat, e: nat)
    requires p.WellFormed() && 1 <= g < hi <= p.n && 1 <= e <= p.ro[hi]
    ensures var s := [Pushed(p.Image(hi, g), e)];
            Frames(p, s) && Weight(p, t, s) <= Times(p.ro[hi], WordWeight(t, p.Image(hi, g)) + 1)
  {
    var w := p.Image(hi, g);
    ImageOver(p, hi, g);
    WeightPushed(p, t, w, e);
    TimesMore(e, WordWeight(t, w));
    TimesMono(e, p.ro[hi], WordWeight(t, w) + 1, WordWeight(t, w) + 1);
  }

  /** What is pushed when g moves costs no more than was set aside for it. */
  lemma {:induction false} PushesWeight(p: Presentation, t: Weights, v: seq<int>, g: nat, hi: nat)
    requires p.WellFormed() && |v| == p.n + 1 && 1 <= g <= p.n && hi <= p.n
    requires forall i :: 1 <= i <= p.n ==> v[i] <= p.ro[i]
    ensures Frames(p, Pushes(p, v, g, g, hi)) && Weight(p, t, Pushes(p, v, g, g, hi)) <= Cost(p, t, g, hi)
    decreases hi
  {
    if g < hi {
      PushesWeight(p, t, v, g, hi - 1);
      if v[hi] > 0 {
        var f, r := Pushed(p.Image(hi, g), v[hi]), Pushes(p, v, g, g, hi - 1);
        PushWeight(p, t, g, hi, v[hi]);
        LoadAppend(p, t, [f], r);
      }
    }
  }

  lemma {:induction false} CostMono(p: Presentation, t: Weights, g: nat, lo: nat, hi: nat)
    requires p.WellFormed() && lo <= hi <= p.n
    ensures Cost(p, t, g, lo) <= Cost(p, t, g, hi)
    decreases hi
  {
    if lo < hi {
      CostMono(p, t, g, lo, hi - 1);
    }
  }

  lemma {:induction false} PowerWeight(p: Presentation, t: Weights, g: nat, q: nat)
    requires p.WellFormed() && 1 <= g <= p.n
    ensures Frames(p, PowerPushes(p, g, q))
    ensures Weight(p, t, PowerPushes(p, g, q)) <= Times(q, WordWeight(t, p.Power(g)) + 1)
  {
    if p.Power(g) != [] && q > 0 {
      WeightPushed(p, t, p.Power(g), q);
      TimesMore(q, WordWeight(t, p.Power(g)));
    }
  }

  /** The top frame gives way to a lighter frame and more frames; then r is pushed. */
  lemma {:induction false} TopLighter(p: Presentation, t: Weights, c: Config, f: Frame, f': Frame, v: seq<int>,
                                      s: seq<Frame>, r: seq<Frame>)
    requires Top(p, c, f) && f'.Valid(p) && Frames(p, s) && Frames(p, r)
    ensures Frames(p, WithTop(c, v, [f'] + s).stack + r)
    ensures Weight(p, t, WithTop(c, v, [f'] + s).stack + r) + FrameWeight(t, f) ==
            Weight(p, t, c.stack) + FrameWeight(t, f') + Weight(p, t, s) + Weight(p, t, r)
  {
    LoadOne(p, t, f');
    LoadAppend(p, t, [f'], s);
    LoadAppend(p, t, Below(c), [f'] + s);
    LoadAppend(p, t, Below(c) + ([f'] + s), r);
  }

  lemma {:induction false} Lighter(p: Presentation, t: Weights, c: Config, f: Frame, f': Frame, v: seq<int>,
                                   s: seq<Frame>, r: seq<Frame>)
    requires Top(p, c, f) && f'.Valid(p) && Frames(p, s) && Frames(p, r)
    requires Weight(p, t, s) + Weight(p, t, r) + FrameWeight(t, f') < FrameWeight(t, f)
    ensures Frames(p, WithTop(c, v, [f'] + s).stack + r) &&
            Weight(p, t, WithTop(c, v, [f'] + s).stack + r) < Weight(p, t, c.stack)
  {
    TopLighter(p, t, c, f, f', v, s, r);
  }

  /** One letter moves: the conjugates and one power are lighter. */
  lemma {:induction false} LetterWeight(p: Presentation, t: Weights, c: Config, f: Frame, v: seq<int>, s: seq<Frame>,
                                        q: nat)
    requires p.WellFormed() && Heavy(p, t, 1) && Top(p, c, f) && f.ew > 0 && q <= 1 && Frames(p, s)
    requires Weight(p, t, s) <= Cost(p, t, f.Gen(), p.n)
    ensures var r := WithTop(c, v, [f.(ew := f.ew - 1)] + s).stack + PowerPushes(p, f.Gen(), q);
            Frames(p, r) && Weight(p, t, r) < Weight(p, t, c.stack)
  {
    var g, f' := f.Gen(), f.(ew := f.ew - 1);
    var m, r := WordWeight(t, p.Power(g)) + 1, PowerPushes(p, g, q);
    assert HeavyAt(p, t, g);
    PowerWeight(p, t, g, q);
    assert Times(q, m) <= m;
    Lighter(p, t, c, f, f', v, s, r);
  }

  lemma {:induction false} TimesStrict(e: nat, m: nat, n: nat)
    requires e >= 1 && m + 1 <= n
    ensures Times(e, m) < Times(e, n)
  {
    TimesMono(e - 1, e - 1, m, n);
  }

  /** A whole syllable moves: the powers are lighter. */
  lemma {:induction false} DirectWeight(p: Presentation, t: Weights, c: Config, f: Frame, v: seq<int>, q: nat)
    requires p.WellFormed() && Heavy(p, t, 1) && Top(p, c, f) && f.ew > 0 && q <= f.ew
    ensures var r := WithTop(c, v, [f.(ew := 0)]).stack + PowerPushes(p, f.Gen(), q);
            Frames(p, r) && Weight(p, t, r) < Weight(p, t, c.stack)
  {
    var g, f' := f.Gen(), f.(ew := 0);
    var r := PowerPushes(p, g, q);
    DirectLess(p, t, g, f.ew, q);
    assert [f'] + [] == [f'];
    Lighter(p, t, c, f, f', v, [], r);
  }

  lemma {:induction false} DirectLess(p: Presentation, t: Weights, g: nat, e: nat, q: nat)
    requires p.WellFormed() && Heavy(p, t, 1) && 1 <= g <= p.n && 1 <= e && q <= e
    ensures Frames(p, PowerPushes(p, g, q)) && Weight(p, t, PowerPushes(p, g, q)) < SylWeight(t, g, e)
  {
    var m := WordWeight(t, p.Power(g)) + 1;
    assert HeavyAt(p, t, g);
    PowerWeight(p, t, g, q);
    TimesMono(q, e, m, m);
    TimesStrict(e, m, Entry(t.pos, g));
  }

  lemma {:induction false} NegativeLess(p: Presentation, t: Weights, g: nat, k: nat)
    requires p.WellFormed() && Heavy(p, t, 1) && 1 <= g <= p.n && 1 <= k
    ensures Frames(p, [Pushed(p.inv[g], k)]) && Weight(p, t, [Pushed(p.inv[g], k)]) < SylWeight(t, g, 0 - k)
  {
    var m := WordWeight(t, p.inv[g]);
    assert HeavyAt(p, t, g);
    WeightPushed(p, t, p.inv[g], k);
    TimesMore(k, m);
    TimesStrict(k, m + 1, Entry(t.neg, g));
  }

  lemma {:induction false} NegativeWeight(p: Presentation, t: Weights, c: Config, f: Frame)
    requires p.WellFormed() && Heavy(p, t, 1) && Top(p, c, f) && f.ew < 0
    ensures var r := WithTop(c, c.v, [f.(ew := 0), Pushed(p.inv[f.Gen()], -f.ew)]).stack;
            Frames(p, r) && Weight(p, t, r) < Weight(p, t, c.stack)
  {
    var g, k, f' := f.Gen(), -f.ew, f.(ew := 0);
    var h := Pushed(p.inv[g], k);
    NegativeLess(p, t, g, k);
    assert [f'] + [h] == [f', h];
    var s := WithTop(c, c.v, [f'] + [h]).stack;
    assert s + [] == s;
    Lighter(p, t, c, f, f', c.v, [h], []);
  }

  lemma {:induction false} NextUnit(p: Presentation, f: Frame, t: Weights)
    requires f.Valid(p) && f.ew == 0
    ensures Frames(p, Next(f)) && Load(p, t, Next(f)) == FrameWeight(t, f)
  {
    if f.pos + 1 < |f.word| {
      LoadOne(p, t, Next(f)[0]);
      assert f.word[f.pos + 1..][1..] == f.word[f.pos + 2..];
    } else if f.ge > 1 {
      LoadOne(p, t, Next(f)[0]);
    }
  }

  /** Steps that only move on in a word keep the weight; taking a word off the stack lowers it. */
  lemma {:induction false} NextWeight(p: Presentation, t: Weights, c: Config, f: Frame)
    requires Top(p, c, f) && f.ew == 0
    ensures Frames(p, WithTop(c, c.v, Next(f)).stack)
    ensures Weight(p, t, WithTop(c, c.v, Next(f)).stack) == Weight(p, t, c.stack) + |Next(f)| - 1
    ensures Next(f) != [] ==> Next(f)[0].Valid(p) && Ahead(Next(f)[0]) < Ahead(f)
  {
    NextUnit(p, f, t);
    LoadAppend(p, t, Below(c), Next(f));
  }

  /** Positions that the top frame still has to go through. */
  function Ahead(f: Frame): nat
    requires f.pos < |f.word| && f.ge >= 1
  {
    Times(f.ge - 1, |f.word|) + |f.word| - 1 - f.pos
  }
}
