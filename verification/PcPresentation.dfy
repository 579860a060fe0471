/**
  Power-conjugate presentations, and what words mean in a group that satisfies
  one. A group is met through an arbitrary action of its generators: every group
  acts on itself from the right, so what holds for all actions holds in all groups.
 */
module PcPresentation {

  /** A generator with an exponent. Generators are numbered from 1. */
  datatype Syllable = Syllable(gen: nat, exp: int)

  type Word = seq<Syllable>

  /**
    The data of a collector for n generators. Entry 0 of the lists is not used; a
    right hand side that is missing or empty stands for a trivial relation.
    Exponents of words lie between -half and half - 1.
   */
  datatype Presentation = Presentation(
    n: nat,
    ro: seq<int>,          // relative orders
    pow: seq<Word>,        // powers
    cnj: seq<seq<Word>>,   // conjugates: cnj[i][g] is the image of i under g
    inv: seq<Word>,        // inverses of the generators
    avc: seq<nat>,         // the avector
    half: nat)
  {
    /** All generators of the word lie above lo. */
    predicate Over(w: Word, lo: nat)
    {
      forall k {:trigger w[k].gen} :: 0 <= k < |w| ==> lo < w[k].gen <= n
    }

    function Power(i: nat): Word
    {
      if i < |pow| then pow[i] else []
    }

    function Conjugate(i: nat, g: nat): Word
      requires i < |cnj|
    {
      if g < |cnj[i]| then cnj[i][g] else []
    }

    /** The word that takes the place of generator i when g has moved past it. */
    function Image(i: nat, g: nat): Word
      requires i < |cnj|
    {
      if Conjugate(i, g) == [] then [Syllable(i, 1)] else Conjugate(i, g)
    }

    ghost predicate GoodInverse(i: nat)
      requires 1 <= i < |inv|
    {
      inv[i] != [] && Over(inv[i], i - 1) && forall k :: 0 <= k < |inv[i]| && inv[i][k].gen == i ==> inv[i][k].exp >= 0
    }

    ghost predicate WellFormed()
    {
      && |ro| == n + 1 && |inv| == n + 1 && |avc| == n + 1 && |cnj| == n + 1 && |pow| <= n + 1 && half >= 2
      && (forall i :: 0 <= i <= n ==> 2 <= ro[i] <= half)
      && (forall i :: 1 <= i <= n ==> i <= avc[i] <= n)
      && (forall i :: 1 <= i <= n ==> Over(Power(i), i))
      && (forall i, g :: 1 <= g < i <= n ==> Over(Conjugate(i, g), g))
      && (forall i {:trigger inv[i]} :: 1 <= i <= n ==> GoodInverse(i))
    }
  }
}

module PcAction {
  import opened PcPresentation

  /** Permutations of a set, one for each generator, with their inverses. */
  datatype Action<!X(!new)> = Action(step: (nat, X) -> X, back: (nat, X) -> X)

  ghost function Step<X(!new)>(act: Action<X>, i: nat, x: X): X
  {
    act.step(i, x)
  }

  ghost function Back<X(!new)>(act: Action<X>, i: nat, x: X): X
  {
    act.back(i, x)
  }

  /** A power of a generator, as it acts. */
  ghost function Pw<X(!new)>(act: Action<X>, i: nat, e: int, x: X): X
    decreases if e < 0 then -e else e
  {
    if e == 0 then x
    else if e > 0 then Pw(act, i, e - 1, Step(act, i, x))
    else Pw(act, i, e + 1, Back(act, i, x))
  }

  ghost function WordAct<X(!new)>(act: Action<X>, w: Word, x: X): X
  {
    if w == [] then x else WordAct(act, w[1..], Pw(act, w[0].gen, w[0].exp, x))
  }

  /** A word acting k times. */
  ghost function Words<X(!new)>(act: Action<X>, w: Word, k: nat, x: X): X
  {
    if k == 0 then x else Words(act, w, k - 1, WordAct(act, w, x))
  }

  /** The product of the powers that an exponent vector gives to the generators lo + 1 .. hi. */
  ghost function VecAct<X(!new)>(act: Action<X>, v: seq<int>, lo: nat, hi: nat, x: X): X
    requires hi < |v|
    decreases hi
  {
    if hi <= lo then x else Pw(act, hi, v[hi], VecAct(act, v, lo, hi - 1, x))
  }

  // ----- the relations, one point at a time

  ghost predicate InvertsAt<X(!new)>(act: Action<X>, i: nat, x: X)
  {
    Back(act, i, Step(act, i, x)) == x && Step(act, i, Back(act, i, x)) == x
  }

  ghost predicate PowerAt<X(!new)>(p: Presentation, act: Action<X>, i: nat, x: X)
    requires i < |p.ro|
  {
    Pw(act, i, p.ro[i], x) == WordAct(act, p.Power(i), x)
  }

  ghost predicate ConjugateAt<X(!new)>(p: Presentation, act: Action<X>, i: nat, g: nat, x: X)
    requires i < |p.cnj|
  {
    Step(act, g, Step(act, i, x)) == WordAct(act, p.Image(i, g), Step(act, g, x))
  }

  ghost predicate InverseAt<X(!new)>(p: Presentation, act: Action<X>, i: nat, x: X)
    requires i < |p.inv|
  {
    WordAct(act, p.inv[i], x) == Back(act, i, x)
  }

  ghost predicate CommuteAt<X(!new)>(act: Action<X>, a: nat, b: nat, x: X)
  {
    Step(act, a, Step(act, b, x)) == Step(act, b, Step(act, a, x))
  }

  /** Generators i, i + 1, ... commute with the generators above avc[i]. */
  ghost predicate Commuting(p: Presentation, a: nat, b: nat)
    requires p.WellFormed()
  {
    1 <= a <= p.n && b <= p.n && exists i :: 1 <= i <= a && p.avc[i] < b
  }

  /** The relations of the presentation hold, and the avector and the inverses are right. */
  ghost predicate Satisfies<X(!new)>(p: Presentation, act: Action<X>)
    requires p.WellFormed()
  {
    && (forall i, x {:trigger InvertsAt(act, i, x)} :: InvertsAt(act, i, x))
    && (forall i, x {:trigger PowerAt(p, act, i, x)} :: 1 <= i <= p.n ==> PowerAt(p, act, i, x))
    && (forall i, g, x {:trigger ConjugateAt(p, act, i, g, x)} :: 1 <= g < i <= p.n ==> ConjugateAt(p, act, i, g, x))
    && (forall i, x {:trigger InverseAt(p, act, i, x)} :: 1 <= i <= p.n ==> InverseAt(p, act, i, x))
    && (forall a, b, x {:trigger CommuteAt(act, a, b, x)} :: Commuting(p, a, b) ==> CommuteAt(act, a, b, x))
  }

  // ----- powers

  lemma {:induction false} PwAdd<X(!new)>(act: Action<X>, i: nat, a: nat, b: nat, x: X)
    ensures Pw(act, i, a + b, x) == Pw(act, i, a, Pw(act, i, b, x))
    decreases b
  {
    if b > 0 {
      PwAdd(act, i, a, b - 1, Step(act, i, x));
    }
  }

  lemma {:induction false} WordsAdd<X(!new)>(act: Action<X>, w: Word, a: nat, b: nat, x: X)
    ensures Words(act, w, a + b, x) == Words(act, w, a, Words(act, w, b, x))
    decreases b
  {
    if b > 0 {
      WordsAdd(act, w, a, b - 1, WordAct(act, w, x));
    }
  }

  lemma {:induction false} WordAppend<X(!new)>(act: Action<X>, u: Word, w: Word, x: X)
    ensures WordAct(act, u + w, x) == WordAct(act, w, WordAct(act, u, x))
  {
    if u == [] {
      assert u + w == w;
    } else {
      WordAppend(act, u[1..], w, Pw(act, u[0].gen, u[0].exp, x));
      assert (u + w)[1..] == u[1..] + w;
    }
  }

  /** q times the relative order is q times the right hand side of the power relation. */
  lemma {:induction false} PowersOut<X(!new)>(p: Presentation, act: Action<X>, i: nat, q: nat, x: X)
    requires p.WellFormed() && Satisfies(p, act) && 1 <= i <= p.n
    ensures q * p.ro[i] >= 0 && Pw(act, i, q * p.ro[i], x) == Words(act, p.Power(i), q, x)
  {
    if q > 0 {
      var y := Pw(act, i, p.ro[i], x);
      PowersOut(p, act, i, q - 1, y);
      assert q * p.ro[i] == (q - 1) * p.ro[i] + p.ro[i];
      PwAdd(act, i, (q - 1) * p.ro[i], p.ro[i], x);
      assert PowerAt(p, act, i, x);
    }
  }

  /** A negative power is a power of the word for the inverse. */
  lemma {:induction false} Inverted<X(!new)>(p: Presentation, act: Action<X>, i: nat, k: nat, x: X)
    requires p.WellFormed() && Satisfies(p, act) && 1 <= i <= p.n
    ensures Pw(act, i, 0 - k, x) == Words(act, p.inv[i], k, x)
  {
    if k > 0 {
      assert InverseAt(p, act, i, x);
      Inverted(p, act, i, k - 1, Back(act, i, x));
    }
  }

  /** Moving g to the left past a power of i. */
  lemma {:induction false} Conjugated<X(!new)>(p: Presentation, act: Action<X>, i: nat, g: nat, e: nat, x: X)
    requires p.WellFormed() && Satisfies(p, act) && 1 <= g < i <= p.n
    ensures Step(act, g, Pw(act, i, e, x)) == Words(act, p.Image(i, g), e, Step(act, g, x))
  {
    if e > 0 {
      Conjugated(p, act, i, g, e - 1, Step(act, i, x));
      assert ConjugateAt(p, act, i, g, x);
    }
  }

  // ----- generators that commute

  lemma {:induction false} PwStep<X(!new)>(act: Action<X>, i: nat, e: int, x: X)
    requires forall i, x {:trigger InvertsAt(act, i, x)} :: InvertsAt(act, i, x)
    ensures Pw(act, i, e, Step(act, i, x)) == Step(act, i, Pw(act, i, e, x))
    decreases if e < 0 then -e else e
  {
    if e > 0 {
      PwStep(act, i, e - 1, Step(act, i, x));
    } else if e < 0 {
      assert InvertsAt(act, i, x);
      PwStep(act, i, e + 1, Back(act, i, x));
    }
  }

  lemma {:induction false} BackCommutes<X(!new)>(p: Presentation, act: Action<X>, a: nat, b: nat, x: X)
    requires p.WellFormed() && Satisfies(p, act) && (Commuting(p, a, b) || Commuting(p, b, a))
    ensures Step(act, b, Back(act, a, x)) == Back(act, a, Step(act, b, x))
  {
    var y := Back(act, a, x);
    assert InvertsAt(act, a, x) && InvertsAt(act, a, Step(act, b, y));
    assert CommuteAt(act, a, b, y) || CommuteAt(act, b, a, y);
  }

  lemma {:induction false} PwCommutes<X(!new)>(p: Presentation, act: Action<X>, a: nat, b: nat, e: int, x: X)
    requires p.WellFormed() && Satisfies(p, act) && (Commuting(p, a, b) || Commuting(p, b, a))
    ensures Step(act, b, Pw(act, a, e, x)) == Pw(act, a, e, Step(act, b, x))
    decreases if e < 0 then -e else e
  {
    if e > 0 {
      PwCommutes(p, act, a, b, e - 1, Step(act, a, x));
      assert CommuteAt(act, a, b, x) || CommuteAt(act, b, a, x);
    } else if e < 0 {
      PwCommutes(p, act, a, b, e + 1, Back(act, a, x));
      BackCommutes(p, act, a, b, x);
    }
  }

  lemma {:induction false} WordCommutes<X(!new)>(p: Presentation, act: Action<X>, g: nat, w: Word, b: nat, x: X)
    requires p.WellFormed() && Satisfies(p, act) && 1 <= g <= p.n && p.avc[g] < b <= p.n && p.Over(w, g - 1)
    ensures Step(act, b, WordAct(act, w, x)) == WordAct(act, w, Step(act, b, x))
  {
    if w != [] {
      var y := Pw(act, w[0].gen, w[0].exp, x);
      assert Commuting(p, w[0].gen, b);
      PwCommutes(p, act, w[0].gen, b, w[0].exp, x);
      WordCommutes(p, act, g, w[1..], b, y);
    }
  }

  lemma {:induction false} WordsCommute<X(!new)>(p: Presentation, act: Action<X>, g: nat, w: Word, k: nat, b: nat, x: X)
    requires p.WellFormed() && Satisfies(p, act) && 1 <= g <= p.n && p.avc[g] < b <= p.n && p.Over(w, g - 1)
    ensures Step(act, b, Words(act, w, k, x)) == Words(act, w, k, Step(act, b, x))
  {
    if k > 0 {
      WordCommutes(p, act, g, w, b, x);
      WordsCommute(p, act, g, w, k - 1, b, WordAct(act, w, x));
    }
  }

  // ----- exponent vectors

  lemma {:induction false} VecSame<X(!new)>(act: Action<X>, v: seq<int>, v': seq<int>, lo: nat, hi: nat, x: X)
    requires hi < |v| && |v'| == |v| && forall i :: lo < i <= hi ==> v[i] == v'[i]
    ensures VecAct(act, v, lo, hi, x) == VecAct(act, v', lo, hi, x)
    decreases hi
  {
    if lo < hi {
      VecSame(act, v, v', lo, hi - 1, x);
    }
  }

  lemma {:induction false} VecZero<X(!new)>(act: Action<X>, v: seq<int>, lo: nat, hi: nat, x: X)
    requires hi < |v| && forall i :: lo < i <= hi ==> v[i] == 0
    ensures VecAct(act, v, lo, hi, x) == x
    decreases hi
  {
    if lo < hi {
      VecZero(act, v, lo, hi - 1, x);
    }
  }

  lemma {:induction false} VecSplit<X(!new)>(act: Action<X>, v: seq<int>, lo: nat, mid: nat, hi: nat, x: X)
    requires lo <= mid <= hi < |v|
    ensures VecAct(act, v, lo, hi, x) == VecAct(act, v, mid, hi, VecAct(act, v, lo, mid, x))
    decreases hi
  {
    if mid < hi {
      VecSplit(act, v, lo, mid, hi - 1, x);
    }
  }

  /** g moves to the left past the generators that it commutes with. */
  lemma {:induction false} StepPastVec<X(!new)>(p: Presentation, act: Action<X>, v: seq<int>, g: nat, lo: nat,
                                                hi: nat, x: X)
    requires p.WellFormed() && Satisfies(p, act) && 1 <= g <= p.n && p.avc[g] <= lo && hi <= p.n && hi < |v|
    ensures Step(act, g, VecAct(act, v, lo, hi, x)) == VecAct(act, v, lo, hi, Step(act, g, x))
    decreases hi
  {
    if lo < hi {
      assert Commuting(p, g, hi);
      PwCommutes(p, act, hi, g, v[hi], VecAct(act, v, lo, hi - 1, x));
      StepPastVec(p, act, v, g, lo, hi - 1, x);
    }
  }

  lemma {:induction false} PwPastVec<X(!new)>(p: Presentation, act: Action<X>, v: seq<int>, g: nat, e: nat, lo: nat,
                                              hi: nat, x: X)
    requires p.WellFormed() && Satisfies(p, act) && 1 <= g <= p.n && p.avc[g] <= lo && hi <= p.n && hi < |v|
    ensures Pw(act, g, e, VecAct(act, v, lo, hi, x)) == VecAct(act, v, lo, hi, Pw(act, g, e, x))
  {
    if e > 0 {
      StepPastVec(p, act, v, g, lo, hi, x);
      PwPastVec(p, act, v, g, e - 1, lo, hi, Step(act, g, x));
    }
  }

  lemma {:induction false} WordsPastPw<X(!new)>(p: Presentation, act: Action<X>, g: nat, w: Word, k: nat, b: nat,
                                                e: nat, x: X)
    requires p.WellFormed() && Satisfies(p, act) && 1 <= g <= p.n && p.avc[g] < b <= p.n && p.Over(w, g - 1)
    ensures Words(act, w, k, Pw(act, b, e, x)) == Pw(act, b, e, Words(act, w, k, x))
  {
    if e > 0 {
      WordsPastPw(p, act, g, w, k, b, e - 1, Step(act, b, x));
      WordsCommute(p, act, g, w, k, b, x);
    }
  }

  /** A word in generators from g on moves past the generators above the avector entry of g. */
  lemma {:induction false} WordsPastVec<X(!new)>(p: Presentation, act: Action<X>, g: nat, w: Word, k: nat,
                                                 v: seq<int>, lo: nat, hi: nat, x: X)
    requires p.WellFormed() && Satisfies(p, act) && 1 <= g <= p.n && p.avc[g] <= lo && hi <= p.n && hi < |v| &&
             p.Over(w, g - 1)
    requires forall i :: lo < i <= hi ==> v[i] >= 0
    ensures Words(act, w, k, VecAct(act, v, lo, hi, x)) == VecAct(act, v, lo, hi, Words(act, w, k, x))
    decreases hi
  {
    if lo < hi {
      WordsPastPw(p, act, g, w, k, hi, v[hi], VecAct(act, v, lo, hi - 1, x));
      WordsPastVec(p, act, g, w, k, v, lo, hi - 1, x);
    }
  }
}
