/**
  What the operations on reduced words come to, as functions of the words, and what this means in
  every group that satisfies the presentation.
 */
module PcWords {
  import opened PcPresentation
  import opened PcAction
  import opened CollectorWeights
  import opened CollectorLead
  import opened CollectorProgress
  import opened CollectorRun
  import opened SingleCollector
  import opened PcVectors

  /** The remainder as C computes it: it has the sign of the dividend. */
  function CRemainder(a: int, m: int): int
    requires m > 0
  {
    if a >= 0 then a % m else -(-a % m)
  }

  /** a times x is b. */
  ghost predicate Solves<X(!new)>(p: Presentation, act: Action<X>, a: seq<int>, b: seq<int>, x: seq<int>)
    requires |a| == |b| == |x| == p.n + 1
  {
    forall y {:trigger VecAct(act, a, 0, p.n, y)} ::
        VecAct(act, x, 0, p.n, VecAct(act, a, 0, p.n, y)) == VecAct(act, b, 0, p.n, y)
  }

  /** The first k entries of x have been found; a has become r, which is what is left to solve for. */
  ghost predicate SolvedTo<X(!new)>(p: Presentation, act: Action<X>, k: nat, a: seq<int>, b: seq<int>, x: seq<int>,
                                    r: seq<int>)
    requires |a| == |b| == |x| == |r| == p.n + 1 && k <= p.n
  {
    forall y {:trigger VecAct(act, a, 0, p.n, y)} ::
      VecAct(act, x, 0, k, VecAct(act, a, 0, p.n, y)) == VecAct(act, r, 0, p.n, VecAct(act, b, 0, k, y))
  }

  /** The exponent by which entry k has to grow. */
  function Difference(b: int, a: int, m: int): int
    requires m > 0
  {
    var d := CRemainder(b - a, m);
    if d < 0 then d + m else d
  }

  lemma {:induction false} DifferenceIs(b: nat, a: nat, m: nat)
    requires a < m && b < m
    ensures Difference(b, a, m) == if b >= a then b - a else b - a + m
  {
    if b >= a {
      Exact(b - a, 0, b - a, m);
    } else {
      Exact(a - b, 0, a - b, m);
    }
  }

  /** After collecting, the leading entry is what it should be. */
  lemma {:induction false} LeadExact(b: nat, a: nat, m: nat, c: nat)
    requires a < m && b < m && c < m && Drops(a + Difference(b, a, m), c, m)
    ensures c == b
  {
    DifferenceIs(b, a, m);
    var s := a + Difference(b, a, m);
    var d: nat :| s == c + Times(d, m);
    TimesIs(d, m);
    Exact(s, d, c, m);
    Exact(s, if b >= a then 0 else 1, b, m);
  }

  lemma {:induction false} SyllableUnit(n: nat, k: nat, q: nat)
    requires k <= n
    ensures WordWeight(Unit(n, k), [Syllable(k, q)]) == q
  {
    UnitSyl(n, k, k, q);
    var w := [Syllable(k, q)];
    assert w[1..] == [];
  }

  lemma {:induction false} OneSyllable<X(!new)>(act: Action<X>, k: nat, q: int, x: X)
    ensures WordAct(act, [Syllable(k, q)], x) == Pw(act, k, q, x)
  {
    var w := [Syllable(k, q)];
    assert w[1..] == [];
  }

  /** One entry more: r has become r1 by collecting generator k. */
  lemma {:induction false} SolveStep<X(!new)>(p: Presentation, act: Action<X>, k: nat, a: seq<int>, b: seq<int>,
                                              x: seq<int>, r: seq<int>, q: int, r1: seq<int>)
    requires |a| == |b| == |x| == |r| == |r1| == p.n + 1 && 1 <= k <= p.n && SolvedTo(p, act, k - 1, a, b, x, r)
    requires Collected(p, act, r, [Syllable(k, q)], r1) && r1[k] == b[k] && forall i :: 1 <= i < k ==> r1[i] == 0
    ensures SolvedTo(p, act, k, a, b, x[k := q], r1[k := 0])
  {
    var x', r' := x[k := q], r1[k := 0];
    forall y
      ensures VecAct(act, x', 0, k, VecAct(act, a, 0, p.n, y)) == VecAct(act, r', 0, p.n, VecAct(act, b, 0, k, y))
    {
      var z, u := VecAct(act, a, 0, p.n, y), VecAct(act, b, 0, k - 1, y);
      VecSame(act, x, x', 0, k - 1, z);
      OneSyllable(act, k, q, VecAct(act, r, 0, p.n, u));
      assert VecAct(act, x', 0, k, z) == VecAct(act, r1, 0, p.n, u);
      ClearLead(p, act, r1, k, u);
    }
  }

  lemma {:induction false} ClearLead<X(!new)>(p: Presentation, act: Action<X>, r: seq<int>, k: nat, u: X)
    requires |r| == p.n + 1 && 1 <= k <= p.n && forall i :: 1 <= i < k ==> r[i] == 0
    ensures VecAct(act, r, 0, p.n, u) == VecAct(act, r[k := 0], 0, p.n, Pw(act, k, r[k], u))
  {
    var r' := r[k := 0];
    var z := Pw(act, k, r[k], u);
    VecSplit(act, r, 0, k, p.n, u);
    VecZero(act, r, 0, k - 1, u);
    VecSame(act, r, r', k, p.n, z);
    VecSplit(act, r', 0, k, p.n, z);
    VecZero(act, r', 0, k, z);
  }

  lemma {:induction false} SolveStay<X(!new)>(p: Presentation, act: Action<X>, r: seq<int>, k: nat)
    requires |r| == p.n + 1
    ensures Collected(p, act, r, [Syllable(k, 0)], r)
  {
    forall x
      ensures VecAct(act, r, 0, p.n, x) == WordAct(act, [Syllable(k, 0)], VecAct(act, r, 0, p.n, x))
    {
      OneSyllable(act, k, 0, VecAct(act, r, 0, p.n, x));
    }
  }

  lemma {:induction false} SolvedEnd<X(!new)>(p: Presentation, act: Action<X>, a: seq<int>, b: seq<int>, x: seq<int>,
                                              r: seq<int>)
    requires |a| == |b| == |x| == |r| == p.n + 1 && SolvedTo(p, act, p.n, a, b, x, r) && r == Zeros(p.n)
    ensures Solves(p, act, a, b, x)
  {
    forall y
      ensures VecAct(act, x, 0, p.n, VecAct(act, a, 0, p.n, y)) == VecAct(act, b, 0, p.n, y)
    {
      VecZero(act, r, 0, p.n, VecAct(act, b, 0, p.n, y));
    }
  }

  // ----- how deep the stack gets for reduced words

  ghost function Full(p: Presentation, t: Weights, hi: nat): nat
    requires p.WellFormed() && hi <= p.n
  {
    if hi == 0 then 0 else Full(p, t, hi - 1) + Times(p.ro[hi], Entry(t.pos, hi))
  }

  /** Enough for every reduced word. */
  ghost function Ample(p: Presentation): nat
    requires p.WellFormed()
  {
    Full(p, Scale(p), p.n) + 1
  }

  lemma {:induction false} FullMono(p: Presentation, t: Weights, lo: nat, hi: nat)
    requires p.WellFormed() && lo <= hi <= p.n
    ensures Full(p, t, lo) <= Full(p, t, hi)
  {
    if lo < hi {
      FullMono(p, t, lo, hi - 1);
    }
  }

  lemma {:induction false} WeightLast(t: Weights, w: Word)
    requires w != []
    ensures WordWeight(t, w) == WordWeight(t, w[..|w| - 1]) + SylWeight(t, w[|w| - 1].gen, w[|w| - 1].exp)
  {
    if |w| > 1 {
      WeightLast(t, w[1..]);
      assert w[1..][..|w| - 2] == w[..|w| - 1][1..];
    }
  }

  lemma {:induction false} ReducedWeight(p: Presentation, t: Weights, w: Word, hi: nat)
    requires p.WellFormed() && hi <= p.n && Reduced(p, w, hi)
    ensures WordWeight(t, w) <= Full(p, t, hi)
    decreases |w|
  {
    if w != [] {
      var s := w[|w| - 1];
      WeightLast(t, w);
      ReducedWeight(p, t, w[..|w| - 1], s.gen - 1);
      TimesMono(s.exp, p.ro[s.gen], Entry(t.pos, s.gen), Entry(t.pos, s.gen));
      FullMono(p, t, s.gen, hi);
    }
  }

  lemma {:induction false} AmpleFor(p: Presentation, w: Word)
    requires p.WellFormed() && Reduced(p, w, p.n)
    ensures Bound(p, w) <= Ample(p)
  {
    ReducedWeight(p, Scale(p), w, p.n);
  }

  lemma {:induction false} SyllableReduced(p: Presentation, k: nat, q: nat)
    requires p.WellFormed() && 1 <= k <= p.n && 1 <= q < p.ro[k]
    ensures Reduced(p, [Syllable(k, q)], p.n)
  {
    var w := [Syllable(k, q)];
    assert w[..0] == [];
  }

  // ----- solving an equation

  /** The word by which an entry grows. */
  function EntryWord(k: nat, q: nat): Word
  {
    if q == 0 then [] else [Syllable(k, q)]
  }

  lemma {:induction false} EntryCollectable(p: Presentation, r: seq<int>, k: nat, q: nat)
    requires p.WellFormed() && Normal(p, r) && 1 <= k <= p.n && q < p.ro[k]
    ensures Collectable(p, r, EntryWord(k, q)) && From(EntryWord(k, q), k) &&
            DepthFor(p, r, EntryWord(k, q)) <= Ample(p)
  {
    DepthBound(p, r, EntryWord(k, q));
    if q > 0 {
      SyllableReduced(p, k, q);
      AmpleFor(p, EntryWord(k, q));
    } else {
      assert DepthFor(p, r, []) == 0;
    }
  }

  /** What is left to solve for when entry k has been found to be q. */
  ghost function Rest(p: Presentation, k: nat, r: seq<int>, q: nat): (r': seq<int>)
    requires p.WellFormed() && Normal(p, r) && 1 <= k <= p.n && q < p.ro[k]
    ensures Normal(p, r')
  {
    EntryCollectable(p, r, k, q);
    Collect(p, r, EntryWord(k, q))[k := 0]
  }

  /** What entry k of the solution is. */
  ghost function Found(p: Presentation, k: nat, r: seq<int>, x: seq<int>): (q: nat)
    requires p.WellFormed() && Normal(p, r) && Normal(p, x) && 1 <= k <= p.n
    ensures q < p.ro[k]
  {
    if x[k] >= r[k] then x[k] - r[k] else x[k] - r[k] + p.ro[k]
  }

  /** The solution of r times y = x, entry by entry from k on. */
  ghost function Solve(p: Presentation, k: nat, r: seq<int>, x: seq<int>): (y: seq<int>)
    requires p.WellFormed() && Normal(p, r) && Normal(p, x) && 1 <= k <= p.n + 1
    ensures Normal(p, y)
    decreases p.n + 1 - k
  {
    if k > p.n then x
    else
      var q := Found(p, k, r, x);
      Solve(p, k + 1, Rest(p, k, r, q), x[k := q])
  }

  /** How deep the stack gets for this. */
  ghost function SolveDepth(p: Presentation, k: nat, r: seq<int>, x: seq<int>): nat
    requires p.WellFormed() && Normal(p, r) && Normal(p, x) && 1 <= k <= p.n + 1
    decreases p.n + 1 - k
  {
    if k > p.n then 0
    else
      var q := Found(p, k, r, x);
      EntryCollectable(p, r, k, q);
      Larger(DepthFor(p, r, EntryWord(k, q)), SolveDepth(p, k + 1, Rest(p, k, r, q), x[k := q]))
  }

  lemma {:induction false} SolveDepthAmple(p: Presentation, k: nat, r: seq<int>, x: seq<int>)
    requires p.WellFormed() && Normal(p, r) && Normal(p, x) && 1 <= k <= p.n + 1
    ensures SolveDepth(p, k, r, x) <= Ample(p)
    decreases p.n + 1 - k
  {
    if k <= p.n {
      var q := Found(p, k, r, x);
      EntryCollectable(p, r, k, q);
      SolveDepthAmple(p, k + 1, Rest(p, k, r, q), x[k := q]);
    }
  }

  /** Finding entry k leaves the entries before it alone and makes entry k what it should be. */
  lemma {:induction false} EntryLead(p: Presentation, k: nat, r: seq<int>, x: seq<int>)
    requires p.WellFormed() && Normal(p, r) && Normal(p, x) && 1 <= k <= p.n
    ensures Collectable(p, r, EntryWord(k, Found(p, k, r, x)))
    ensures var r1 := Collect(p, r, EntryWord(k, Found(p, k, r, x)));
            r1[k] == x[k] && forall i :: 0 <= i < k ==> r1[i] == r[i]
  {
    var q := Found(p, k, r, x);
    var w := EntryWord(k, q);
    EntryCollectable(p, r, k, q);
    StandstillSatisfies(p);
    CollectActs(p, Standstill(), k, r, w);
    assert WordWeight(Unit(p.n, k), w) == q by {
      if q > 0 {
        SyllableUnit(p.n, k, q);
      }
    }
    DifferenceIs(x[k], r[k], p.ro[k]);
    LeadExact(x[k], r[k], p.ro[k], Collect(p, r, w)[k]);
  }

  /** The entries before k have been found, and cleared in r. */
  ghost predicate Solving<X(!new)>(p: Presentation, act: Action<X>, k: nat, a: seq<int>, b: seq<int>, x: seq<int>,
                                   r: seq<int>)
    requires p.WellFormed() && |a| == |b| == p.n + 1 && 1 <= k <= p.n + 1
  {
    && Normal(p, r) && Normal(p, x)
    && (forall i :: 1 <= i < k ==> r[i] == 0)
    && (forall i :: k <= i <= p.n ==> x[i] == b[i])
    && SolvedTo(p, act, k - 1, a, b, x, r)
  }

  lemma {:induction false} SolvingOn<X(!new)>(p: Presentation, act: Action<X>, k: nat, a: seq<int>, b: seq<int>,
                                              x: seq<int>, r: seq<int>)
    requires p.WellFormed() && Satisfies(p, act) && |a| == |b| == p.n + 1 && 1 <= k <= p.n &&
             Solving(p, act, k, a, b, x, r)
    ensures var q := Found(p, k, r, x); Solving(p, act, k + 1, a, b, x[k := q], Rest(p, k, r, q))
  {
    var q := Found(p, k, r, x);
    var w := EntryWord(k, q);
    EntryCollectable(p, r, k, q);
    EntryLead(p, k, r, x);
    CollectActs(p, act, k, r, w);
    var r1 := Collect(p, r, w);
    assert Collected(p, act, r, [Syllable(k, q)], r1) by {
      if q == 0 {
        SolveStay(p, act, r, k);
      }
    }
    SolveStep(p, act, k, a, b, x, r, q, r1);
  }

  lemma {:induction false} SolvingEnds<X(!new)>(p: Presentation, act: Action<X>, k: nat, a: seq<int>, b: seq<int>,
                                                x: seq<int>, r: seq<int>)
    requires p.WellFormed() && Satisfies(p, act) && |a| == |b| == p.n + 1 && 1 <= k <= p.n + 1 &&
             Solving(p, act, k, a, b, x, r)
    ensures Solves(p, act, a, b, Solve(p, k, r, x))
    decreases p.n + 1 - k
  {
    if k > p.n {
      assert r == Zeros(p.n);
      SolvedEnd(p, act, a, b, x, r);
    } else {
      var q := Found(p, k, r, x);
      SolvingOn(p, act, k, a, b, x, r);
      SolvingEnds(p, act, k + 1, a, b, x[k := q], Rest(p, k, r, q));
    }
  }

  /** The solution solves the equation. */
  lemma {:induction false} SolveActs<X(!new)>(p: Presentation, act: Action<X>, a: seq<int>, b: seq<int>)
    requires p.WellFormed() && Satisfies(p, act) && Normal(p, a) && Normal(p, b)
    ensures Solves(p, act, a, b, Solve(p, 1, a, b))
  {
    SolvingEnds(p, act, 1, a, b, b, a);
  }

  /** The vector acts as the word does. */
  ghost predicate Holds<X(!new)>(p: Presentation, act: Action<X>, v: seq<int>, w: Word)
    requires |v| == p.n + 1
  {
    forall x {:trigger VecAct(act, v, 0, p.n, x)} :: VecAct(act, v, 0, p.n, x) == WordAct(act, w, x)
  }

  /** r is the product of u and w. */
  ghost predicate Product<X(!new)>(act: Action<X>, u: Word, w: Word, r: Word)
  {
    forall x {:trigger ProductAt(act, u, w, r, x)} :: ProductAt(act, u, w, r, x)
  }

  ghost predicate ProductAt<X(!new)>(act: Action<X>, u: Word, w: Word, r: Word, x: X)
  {
    WordAct(act, r, x) == WordAct(act, w, WordAct(act, u, x))
  }

  /** v inverts u, from both sides. */
  ghost predicate Inverses<X(!new)>(act: Action<X>, u: Word, v: Word)
  {
    Product(act, u, v, []) && Product(act, v, u, [])
  }

  ghost predicate Equal<X(!new)>(act: Action<X>, w: Word, r: Word)
  {
    forall x {:trigger WordAct(act, r, x)} :: WordAct(act, r, x) == WordAct(act, w, x)
  }

  ghost predicate IsReduced(p: Presentation, w: Word)
  {
    p.WellFormed() && Reduced(p, w, p.n)
  }

  /** The exponents of a reduced word. */
  ghost function Exponents(p: Presentation, w: Word): (v: seq<int>)
    requires IsReduced(p, w)
    ensures Normal(p, v)
  {
    UnpackNormal(p, w, p.n);
    Unpack(Zeros(p.n), w)
  }

  lemma {:induction false} ExponentsHold<X(!new)>(p: Presentation, act: Action<X>, w: Word)
    requires IsReduced(p, w)
    ensures Holds(p, act, Exponents(p, w), w)
  {
    UnpackNormal(p, w, p.n);
    forall x
      ensures VecAct(act, Exponents(p, w), 0, p.n, x) == WordAct(act, w, x)
    {
      UnpackAct(p, act, w, p.n, x);
    }
  }

  lemma {:induction false} ZerosHolds<X(!new)>(p: Presentation, act: Action<X>)
    ensures Holds(p, act, Zeros(p.n), [])
  {
    forall x
      ensures VecAct(act, Zeros(p.n), 0, p.n, x) == WordAct(act, [], x)
    {
      VecZero(act, Zeros(p.n), 0, p.n, x);
    }
  }

  /** The word of a vector. */
  ghost function ToWord(p: Presentation, v: seq<int>): (w: Word)
    requires p.WellFormed() && Normal(p, v)
    ensures IsReduced(p, w)
  {
    EntriesPack(p, v, p.n);
    PackReduced(p, v, p.n);
    Entries(v, p.n)
  }

  /** The word of the nonzero entries up to k. */
  function Entries(v: seq<int>, k: nat): Word
    requires k < |v|
  {
    if k == 0 then [] else if v[k] == 0 then Entries(v, k - 1) else Entries(v, k - 1) + [Syllable(k, v[k])]
  }

  /** Exponents of normal vectors are stored as they are. */
  lemma {:induction false} EntriesPack(p: Presentation, v: seq<int>, k: nat)
    requires p.WellFormed() && Normal(p, v) && k <= p.n
    ensures Pack(p, v, k) == Entries(v, k)
  {
    if k > 0 {
      EntriesPack(p, v, k - 1);
      StoredSame(p, v[k]);
    }
  }

  lemma {:induction false} ToWordHolds<X(!new)>(p: Presentation, act: Action<X>, v: seq<int>)
    requires p.WellFormed() && Normal(p, v)
    ensures Holds(p, act, v, ToWord(p, v))
  {
    forall x
      ensures VecAct(act, v, 0, p.n, x) == WordAct(act, ToWord(p, v), x)
    {
      EntriesPack(p, v, p.n);
      PackAct(p, act, v, p.n, x);
    }
  }

  lemma {:induction false} HoldsProduct<X(!new)>(p: Presentation, act: Action<X>, v: seq<int>, u: Word, w: Word,
                                                 v': seq<int>, r: Word)
    requires |v| == |v'| == p.n + 1 && Holds(p, act, v, u) && Collected(p, act, v, w, v') && Holds(p, act, v', r)
    ensures Product(act, u, w, r)
  {
    forall x
      ensures WordAct(act, r, x) == WordAct(act, w, WordAct(act, u, x))
    {
      assert VecAct(act, v', 0, p.n, x) == WordAct(act, r, x);
      assert VecAct(act, v, 0, p.n, x) == WordAct(act, u, x);
    }
  }

  lemma {:induction false} HoldsConcat<X(!new)>(p: Presentation, act: Action<X>, v: seq<int>, u: Word, w: Word,
                                                v': seq<int>)
    requires |v| == |v'| == p.n + 1 && Holds(p, act, v, u) && Collected(p, act, v, w, v')
    ensures Holds(p, act, v', u + w)
  {
    forall x
      ensures VecAct(act, v', 0, p.n, x) == WordAct(act, u + w, x)
    {
      WordAppend(act, u, w, x);
      assert VecAct(act, v, 0, p.n, x) == WordAct(act, u, x);
    }
  }

  lemma {:induction false} HoldsSolution<X(!new)>(p: Presentation, act: Action<X>, a: seq<int>, w: Word, b: seq<int>,
                                                  u: Word, x: seq<int>, r: Word)
    requires |a| == |b| == |x| == p.n + 1 && Solves(p, act, a, b, x)
    requires Holds(p, act, a, w) && Holds(p, act, b, u) && Holds(p, act, x, r)
    ensures Product(act, w, r, u)
  {
    forall y
      ensures WordAct(act, u, y) == WordAct(act, r, WordAct(act, w, y))
    {
      var z := VecAct(act, a, 0, p.n, y);
      assert z == WordAct(act, w, y);
      assert VecAct(act, x, 0, p.n, z) == WordAct(act, r, z);
      assert VecAct(act, b, 0, p.n, y) == WordAct(act, u, y);
    }
  }

  /** r is the power of w to the exponent k. */
  ghost predicate PowerOf<X(!new)>(act: Action<X>, w: Word, k: int, r: Word)
  {
    forall x {:trigger PowerHere(act, w, k, r, x)} :: PowerHere(act, w, k, r, x)
  }

  ghost predicate PowerHere<X(!new)>(act: Action<X>, w: Word, k: int, r: Word, x: X)
  {
    if k >= 0 then WordAct(act, r, x) == Words(act, w, k, x) else WordAct(act, r, Words(act, w, -k, x)) == x
  }

  ghost predicate HoldsWords<X(!new)>(p: Presentation, act: Action<X>, v: seq<int>, w: Word, k: nat)
    requires |v| == p.n + 1
  {
    forall x {:trigger VecAct(act, v, 0, p.n, x)} :: VecAct(act, v, 0, p.n, x) == Words(act, w, k, x)
  }

  lemma {:induction false} OneWord<X(!new)>(act: Action<X>, w: Word, x: X)
    ensures Words(act, w, 1, x) == WordAct(act, w, x)
  {
    assert Words(act, w, 0, WordAct(act, w, x)) == WordAct(act, w, x);
  }

  lemma {:induction false} PowerOne<X(!new)>(act: Action<X>, w: Word)
    ensures PowerOf(act, w, 1, w)
  {
    forall x
      ensures WordAct(act, w, x) == Words(act, w, 1, x)
    {
      OneWord(act, w, x);
    }
  }

  lemma {:induction false} FirstPower<X(!new)>(p: Presentation, act: Action<X>, v: seq<int>, w: Word)
    requires |v| == p.n + 1 && Holds(p, act, v, w)
    ensures HoldsWords(p, act, v, w, 1)
  {
    forall x
      ensures VecAct(act, v, 0, p.n, x) == Words(act, w, 1, x)
    {
      OneWord(act, w, x);
    }
  }

  lemma {:induction false} NextPower<X(!new)>(p: Presentation, act: Action<X>, v: seq<int>, w: Word, k: nat,
                                              v': seq<int>)
    requires |v| == |v'| == p.n + 1 && HoldsWords(p, act, v, w, k) && Collected(p, act, v, w, v')
    ensures HoldsWords(p, act, v', w, k + 1)
  {
    forall x
      ensures VecAct(act, v', 0, p.n, x) == Words(act, w, k + 1, x)
    {
      assert VecAct(act, v, 0, p.n, x) == Words(act, w, k, x);
      WordsAdd(act, w, 1, k, x);
      OneWord(act, w, Words(act, w, k, x));
    }
  }

  lemma {:induction false} HoldsPower<X(!new)>(p: Presentation, act: Action<X>, v: seq<int>, w: Word, k: nat, r: Word)
    requires |v| == p.n + 1 && HoldsWords(p, act, v, w, k) && Holds(p, act, v, r)
    ensures PowerOf(act, w, k, r)
  {
    forall x
      ensures WordAct(act, r, x) == Words(act, w, k, x)
    {
      assert VecAct(act, v, 0, p.n, x) == WordAct(act, r, x);
    }
  }

  lemma {:induction false} PowerSquared<X(!new)>(act: Action<X>, w: Word, k: nat, u: Word, r: Word)
    requires PowerOf(act, w, k, u) && Product(act, u, u, r)
    ensures PowerOf(act, w, 2 * k, r)
  {
    forall x
      ensures WordAct(act, r, x) == Words(act, w, 2 * k, x)
    {
      var y := WordAct(act, u, x);
      assert ProductAt(act, u, u, r, x) && PowerHere(act, w, k, u, x) && PowerHere(act, w, k, u, y);
      WordsAdd(act, w, k, k, x);
    }
  }

  lemma {:induction false} PowerNext<X(!new)>(act: Action<X>, w: Word, k: nat, u: Word, r: Word)
    requires PowerOf(act, w, k, u) && Product(act, w, u, r)
    ensures PowerOf(act, w, k + 1, r)
  {
    forall x
      ensures WordAct(act, r, x) == Words(act, w, k + 1, x)
    {
      var y := WordAct(act, w, x);
      assert ProductAt(act, w, u, r, x) && PowerHere(act, w, k, u, y);
    }
  }

  lemma {:induction false} InverseWords<X(!new)>(act: Action<X>, w: Word, u: Word, k: nat, x: X)
    requires Product(act, w, u, [])
    ensures Words(act, u, k, Words(act, w, k, x)) == x
  {
    if k > 0 {
      var y := Words(act, w, k - 1, x);
      WordsAdd(act, w, 1, k - 1, x);
      OneWord(act, w, y);
      assert ProductAt(act, w, u, [], y);
      InverseWords(act, w, u, k - 1, x);
    }
  }

  lemma {:induction false} PowerInverse<X(!new)>(act: Action<X>, w: Word, u: Word, k: nat, r: Word)
    requires k > 0 && Product(act, w, u, []) && PowerOf(act, u, k, r)
    ensures PowerOf(act, w, 0 - k, r)
  {
    forall x
      ensures WordAct(act, r, Words(act, w, k, x)) == x
    {
      InverseWords(act, w, u, k, x);
      assert PowerHere(act, u, k, r, Words(act, w, k, x));
    }
  }

  // ----- words act as permutations

  lemma {:induction false} PwUndo<X(!new)>(act: Action<X>, i: nat, e: int, x: X)
    requires forall i, x {:trigger InvertsAt(act, i, x)} :: InvertsAt(act, i, x)
    ensures Pw(act, i, -e, Pw(act, i, e, x)) == x
    decreases if e < 0 then -e else e
  {
    if e > 0 {
      PwBack(act, i, 1 - e, Pw(act, i, e - 1, Step(act, i, x)));
      PwUndo(act, i, e - 1, Step(act, i, x));
      assert InvertsAt(act, i, x);
    } else if e < 0 {
      PwStep(act, i, -e - 1, Pw(act, i, e + 1, Back(act, i, x)));
      PwUndo(act, i, e + 1, Back(act, i, x));
      assert InvertsAt(act, i, x);
    }
  }

  lemma {:induction false} PwBack<X(!new)>(act: Action<X>, i: nat, e: int, x: X)
    requires e <= 0
    ensures Pw(act, i, e - 1, x) == Back(act, i, Pw(act, i, e, x))
    decreases -e
  {
    if e < 0 {
      PwBack(act, i, e + 1, Back(act, i, x));
    }
  }

  /** Different points stay different. */
  lemma {:induction false} WordInjective<X(!new)>(act: Action<X>, w: Word, x: X, y: X)
    requires forall i, x {:trigger InvertsAt(act, i, x)} :: InvertsAt(act, i, x)
    requires WordAct(act, w, x) == WordAct(act, w, y)
    ensures x == y
  {
    if w != [] {
      var g, e := w[0].gen, w[0].exp;
      WordInjective(act, w[1..], Pw(act, g, e, x), Pw(act, g, e, y));
      PwUndo(act, g, e, x);
      PwUndo(act, g, e, y);
    }
  }

  /** A right inverse is a left inverse. */
  lemma {:induction false} InverseBoth<X(!new)>(act: Action<X>, w: Word, u: Word)
    requires forall i, x {:trigger InvertsAt(act, i, x)} :: InvertsAt(act, i, x)
    requires Product(act, w, u, [])
    ensures Product(act, u, w, [])
  {
    forall x
      ensures WordAct(act, [], x) == WordAct(act, w, WordAct(act, u, x))
    {
      var y := WordAct(act, w, WordAct(act, u, x));
      assert ProductAt(act, w, u, [], WordAct(act, u, x));
      WordInjective(act, u, x, y);
    }
  }

  lemma {:induction false} Cancel<X(!new)>(act: Action<X>, r: Word, u': Word, w: Word, u: Word)
    requires Product(act, r, u', w) && Product(act, u', u, [])
    ensures Product(act, w, u, r)
  {
    forall x
      ensures WordAct(act, r, x) == WordAct(act, u, WordAct(act, w, x))
    {
      var y := WordAct(act, r, x);
      assert ProductAt(act, r, u', w, x);
      assert ProductAt(act, u', u, [], y);
    }
  }

  // ----- the operations

  ghost function FormWord(p: Presentation, w: Word): (r: Word)
    requires p.WellFormed() && p.Over(w, 0)
    ensures IsReduced(p, r)
  {
    ToWord(p, Collect(p, Zeros(p.n), w))
  }

  lemma {:induction false} FormActs<X(!new)>(p: Presentation, act: Action<X>, w: Word)
    requires p.WellFormed() && p.Over(w, 0) && Satisfies(p, act)
    ensures Equal(act, w, FormWord(p, w))
  {
    var v, v' := Zeros(p.n), Collect(p, Zeros(p.n), w);
    CollectActs(p, act, 0, v, w);
    ZerosHolds(p, act);
    ToWordHolds(p, act, v');
    HoldsProduct(p, act, v, [], w, v', FormWord(p, w));
    forall x
      ensures WordAct(act, FormWord(p, w), x) == WordAct(act, w, x)
    {
      assert ProductAt(act, [], w, FormWord(p, w), x);
    }
  }

  ghost function ProductWord(p: Presentation, w: Word, u: Word): (r: Word)
    requires IsReduced(p, w) && p.Over(u, 0)
    ensures IsReduced(p, r)
  {
    ToWord(p, Collect(p, Exponents(p, w), u))
  }

  ghost function ProductDepth(p: Presentation, w: Word, u: Word): nat
    requires IsReduced(p, w) && p.Over(u, 0)
  {
    DepthFor(p, Exponents(p, w), u)
  }

  lemma {:induction false} ProductActs<X(!new)>(p: Presentation, act: Action<X>, w: Word, u: Word)
    requires IsReduced(p, w) && p.Over(u, 0) && Satisfies(p, act)
    ensures Product(act, w, u, ProductWord(p, w, u))
  {
    var v, v' := Exponents(p, w), Collect(p, Exponents(p, w), u);
    CollectActs(p, act, 0, v, u);
    ExponentsHold(p, act, w);
    ToWordHolds(p, act, v');
    HoldsProduct(p, act, v, w, u, v', ProductWord(p, w, u));
  }

  ghost function LeftQuotientWord(p: Presentation, w: Word, u: Word): (r: Word)
    requires IsReduced(p, w) && IsReduced(p, u)
    ensures IsReduced(p, r)
  {
    ToWord(p, Solve(p, 1, Exponents(p, w), Exponents(p, u)))
  }

  lemma {:induction false} LeftQuotientActs<X(!new)>(p: Presentation, act: Action<X>, w: Word, u: Word)
    requires IsReduced(p, w) && IsReduced(p, u) && Satisfies(p, act)
    ensures Product(act, w, LeftQuotientWord(p, w, u), u)
  {
    var a, b := Exponents(p, w), Exponents(p, u);
    SolveActs(p, act, a, b);
    ExponentsHold(p, act, w);
    ExponentsHold(p, act, u);
    ToWordHolds(p, act, Solve(p, 1, a, b));
    HoldsSolution(p, act, a, w, b, u, Solve(p, 1, a, b), LeftQuotientWord(p, w, u));
  }

  /** Reduced words are words in the generators. */
  lemma {:induction false} IsOver(p: Presentation, w: Word)
    requires IsReduced(p, w)
    ensures p.Over(w, 0)
  {
    ReducedOver(p, w, p.n);
  }

  /** The vector of a product. */
  ghost function Multiplied(p: Presentation, w: Word, u: Word): (v: seq<int>)
    requires IsReduced(p, w) && IsReduced(p, u)
    ensures Normal(p, v)
  {
    IsOver(p, u);
    Collect(p, Exponents(p, w), u)
  }

  lemma {:induction false} MultipliedHolds<X(!new)>(p: Presentation, act: Action<X>, w: Word, u: Word)
    requires IsReduced(p, w) && IsReduced(p, u) && Satisfies(p, act)
    ensures Holds(p, act, Multiplied(p, w, u), w + u)
  {
    IsOver(p, u);
    ExponentsHold(p, act, w);
    CollectActs(p, act, 0, Exponents(p, w), u);
    HoldsConcat(p, act, Exponents(p, w), w, u, Multiplied(p, w, u));
  }

  ghost function CommWord(p: Presentation, w: Word, u: Word): (r: Word)
    requires IsReduced(p, w) && IsReduced(p, u)
    ensures IsReduced(p, r)
  {
    ToWord(p, Solve(p, 1, Multiplied(p, u, w), Multiplied(p, w, u)))
  }

  lemma {:induction false} CommActs<X(!new)>(p: Presentation, act: Action<X>, w: Word, u: Word)
    requires IsReduced(p, w) && IsReduced(p, u) && Satisfies(p, act)
    ensures Product(act, u + w, CommWord(p, w, u), w + u)
  {
    var a, b := Multiplied(p, u, w), Multiplied(p, w, u);
    SolveActs(p, act, a, b);
    MultipliedHolds(p, act, u, w);
    MultipliedHolds(p, act, w, u);
    ToWordHolds(p, act, Solve(p, 1, a, b));
    HoldsSolution(p, act, a, u + w, b, w + u, Solve(p, 1, a, b), CommWord(p, w, u));
  }

  ghost function InverseWord(p: Presentation, w: Word): (r: Word)
    requires IsReduced(p, w)
    ensures IsReduced(p, r)
  {
    ToWord(p, Solve(p, 1, Exponents(p, w), Zeros(p.n)))
  }

  ghost function InverseDepth(p: Presentation, w: Word): nat
    requires IsReduced(p, w)
  {
    SolveDepth(p, 1, Exponents(p, w), Zeros(p.n))
  }

  lemma {:induction false} InverseActs<X(!new)>(p: Presentation, act: Action<X>, w: Word)
    requires IsReduced(p, w) && Satisfies(p, act)
    ensures Inverses(act, w, InverseWord(p, w))
  {
    var a, b := Exponents(p, w), Zeros(p.n);
    SolveActs(p, act, a, b);
    ExponentsHold(p, act, w);
    ZerosHolds(p, act);
    ToWordHolds(p, act, Solve(p, 1, a, b));
    HoldsSolution(p, act, a, w, b, [], Solve(p, 1, a, b), InverseWord(p, w));
    InverseBoth(act, w, InverseWord(p, w));
  }

  // ----- powers

  /** The vector after w has been collected into it k times. */
  ghost function Repeated(p: Presentation, v: seq<int>, w: Word, k: nat): (r: seq<int>)
    requires Collectable(p, v, w)
    ensures Normal(p, r)
  {
    if k == 0 then v else Collect(p, Repeated(p, v, w, k - 1), w)
  }

  ghost predicate RepeatedIs(p: Presentation, w: Word, k: nat, v: seq<int>)
  {
    IsReduced(p, w) && p.Over(w, 0) && v == Repeated(p, Exponents(p, w), w, k)
  }

  /** One more time, in a collector of this size. */
  lemma {:induction false} RepeatedOn(p: Presentation, s: Size, w: Word, k: nat, v: seq<int>)
    requires RepeatedIs(p, w, k, v) && s.max >= 1
    ensures Collectable(p, v, w) && RepeatedIs(p, w, k + 1, Collect(p, v, w))
    ensures s.Fails(DepthFor(p, v, w)) ==> s.Grown().Tries(Ample(p)) < s.Tries(Ample(p))
  {
    DepthBound(p, v, w);
    AmpleFor(p, w);
    if s.Fails(DepthFor(p, v, w)) {
      GrownTries(s, DepthFor(p, v, w), Ample(p));
    }
  }

  lemma {:induction false} RepeatedHolds<X(!new)>(p: Presentation, act: Action<X>, w: Word, k: nat)
    requires IsReduced(p, w) && p.Over(w, 0) && Satisfies(p, act)
    ensures HoldsWords(p, act, Repeated(p, Exponents(p, w), w, k), w, k + 1)
  {
    if k == 0 {
      ExponentsHold(p, act, w);
      FirstPower(p, act, Exponents(p, w), w);
    } else {
      RepeatedHolds(p, act, w, k - 1);
      var v := Repeated(p, Exponents(p, w), w, k - 1);
      CollectActs(p, act, 0, v, w);
      NextPower(p, act, v, w, k, Collect(p, v, w));
    }
  }

  ghost function PositiveWord(p: Presentation, w: Word, k: nat): (r: Word)
    requires IsReduced(p, w) && k >= 1
    ensures IsReduced(p, r)
  {
    if k == 1 then w
    else if k < 6 then
      IsOver(p, w);
      ToWord(p, Repeated(p, Exponents(p, w), w, k - 1))
    else
      var h := k / 2;
      var q := Square(p, PositiveWord(p, w, h));
      if k == 2 * h then q else ProductWord(p, w, q)
  }

  /** r is what becomes of w to the exponent k. */
  ghost predicate PositiveIs(p: Presentation, w: Word, k: nat, r: Word)
  {
    IsReduced(p, w) && k >= 1 && r == PositiveWord(p, w, k)
  }

  /** r is what becomes of w times u. */
  ghost predicate ProductIs(p: Presentation, w: Word, u: Word, r: Word)
  {
    IsReduced(p, w) && p.Over(u, 0) && r == ProductWord(p, w, u)
  }

  lemma {:induction false} PositiveReduced(p: Presentation, w: Word, k: nat, r: Word)
    requires PositiveIs(p, w, k, r)
    ensures IsReduced(p, w) && IsReduced(p, r)
  {
  }

  lemma {:induction false} PositiveEven(p: Presentation, w: Word, k: nat, u: Word, q: Word)
    requires k >= 3 && PositiveIs(p, w, k, u) && ProductIs(p, u, u, q)
    ensures PositiveIs(p, w, 2 * k, q)
  {
  }

  lemma {:induction false} PositiveOdd(p: Presentation, w: Word, k: nat, q: Word, r: Word)
    requires k >= 6 && k % 2 == 0 && PositiveIs(p, w, k, q) && ProductIs(p, w, q, r)
    ensures PositiveIs(p, w, k + 1, r)
  {
  }

  lemma {:induction false} PositiveSmall(p: Presentation, w: Word, k: nat, v: seq<int>)
    requires 2 <= k < 6 && IsReduced(p, w) && RepeatedIs(p, w, k - 1, v)
    ensures Normal(p, v) && PositiveIs(p, w, k, ToWord(p, v))
  {
  }

  ghost function Square(p: Presentation, w: Word): (r: Word)
    requires IsReduced(p, w)
    ensures IsReduced(p, r) && p.Over(r, 0)
  {
    IsOver(p, w);
    IsOver(p, ProductWord(p, w, w));
    ProductWord(p, w, w)
  }

  lemma {:induction false} SmallPowerActs<X(!new)>(p: Presentation, act: Action<X>, w: Word, k: nat, r: Word)
    requires IsReduced(p, w) && 2 <= k < 6 && Satisfies(p, act) && r == PositiveWord(p, w, k)
    ensures PowerOf(act, w, k, r)
  {
    IsOver(p, w);
    RepeatedHolds(p, act, w, k - 1);
    var v := Repeated(p, Exponents(p, w), w, k - 1);
    ToWordHolds(p, act, v);
    HoldsPower(p, act, v, w, k, r);
  }

  lemma {:induction false} SquareActs<X(!new)>(p: Presentation, act: Action<X>, w: Word, k: nat, u: Word)
    requires IsReduced(p, u) && PowerOf(act, w, k, u) && Satisfies(p, act)
    ensures PowerOf(act, w, 2 * k, Square(p, u))
  {
    IsOver(p, u);
    ProductActs(p, act, u, u);
    PowerSquared(act, w, k, u, Square(p, u));
  }

  lemma {:induction false} OddPowerActs<X(!new)>(p: Presentation, act: Action<X>, w: Word, k: nat, u: Word)
    requires IsReduced(p, w) && p.Over(u, 0) && PowerOf(act, w, k, u) && Satisfies(p, act)
    ensures PowerOf(act, w, k + 1, ProductWord(p, w, u))
  {
    ProductActs(p, act, w, u);
    PowerNext(act, w, k, u, ProductWord(p, w, u));
  }

  /** A power from the power with half the exponent. */
  lemma {:induction false} HalfActs<X(!new)>(p: Presentation, act: Action<X>, w: Word, h: nat, u: Word, k: nat, r: Word)
    requires IsReduced(p, w) && IsReduced(p, u) && Satisfies(p, act) && PowerOf(act, w, h, u)
    requires if k == 2 * h then r == Square(p, u) else k == 2 * h + 1 && r == ProductWord(p, w, Square(p, u))
    ensures PowerOf(act, w, k, r)
  {
    var q := Square(p, u);
    SquareActs(p, act, w, h, u);
    if k == 2 * h + 1 {
      OddPowerActs(p, act, w, 2 * h, q);
    }
  }

  lemma {:induction false} PositiveActs<X(!new)>(p: Presentation, act: Action<X>, w: Word, k: nat, r: Word)
    requires p.WellFormed() && PositiveIs(p, w, k, r) && Satisfies(p, act)
    ensures PowerOf(act, w, k, r)
  {
    if k == 1 {
      PowerOne(act, w);
    } else if k < 6 {
      SmallPowerActs(p, act, w, k, r);
    } else {
      var h := k / 2;
      var u := PositiveWord(p, w, h);
      PositiveActs(p, act, w, h, u);
      HalfActs(p, act, w, h, u, k, r);
    }
  }

  ghost function PowerWord(p: Presentation, w: Word, k: int): (r: Word)
    requires IsReduced(p, w)
    ensures IsReduced(p, r)
  {
    if k == 0 then [] else if k < 0 then PositiveWord(p, InverseWord(p, w), -k) else PositiveWord(p, w, k)
  }

  /** r is what becomes of w to the exponent k. */
  ghost predicate PowerIs(p: Presentation, w: Word, k: int, r: Word)
  {
    IsReduced(p, w) && r == PowerWord(p, w, k)
  }

  lemma {:induction false} PowerCases(p: Presentation, w: Word, k: int, r: Word)
    requires PowerIs(p, w, k, r)
    ensures k == 0 ==> r == []
    ensures k > 0 ==> PositiveIs(p, w, k, r)
    ensures k < 0 ==> PositiveIs(p, InverseWord(p, w), -k, r)
  {
  }

  lemma {:induction false} PowerZero(p: Presentation, w: Word)
    requires IsReduced(p, w)
    ensures PowerIs(p, w, 0, [])
  {
  }

  lemma {:induction false} PowerPositive(p: Presentation, w: Word, k: nat, r: Word)
    requires PositiveIs(p, w, k, r)
    ensures PowerIs(p, w, k, r)
  {
  }

  lemma {:induction false} PowerNegative(p: Presentation, w: Word, k: nat, r: Word)
    requires IsReduced(p, w) && PositiveIs(p, InverseWord(p, w), k, r)
    ensures PowerIs(p, w, 0 - k, r)
  {
  }

  lemma {:induction false} NegativeActs<X(!new)>(p: Presentation, act: Action<X>, w: Word, u: Word, k: nat, r: Word)
    requires p.WellFormed() && Satisfies(p, act) && k > 0 && Inverses(act, w, u) && PositiveIs(p, u, k, r)
    ensures PowerOf(act, w, 0 - k, r)
  {
    PositiveActs(p, act, u, k, r);
    PowerInverse(act, w, u, k, r);
  }

  lemma {:induction false} ZeroActs<X(!new)>(act: Action<X>, w: Word)
    ensures PowerOf(act, w, 0, [])
  {
  }

  /** Powers are powers, for every integer exponent. */
  lemma {:induction false} PowerActs<X(!new)>(p: Presentation, act: Action<X>, w: Word, k: int, r: Word)
    requires p.WellFormed() && PowerIs(p, w, k, r) && Satisfies(p, act)
    ensures PowerOf(act, w, k, r)
  {
    PowerCases(p, w, k, r);
    if k == 0 {
      ZeroActs(act, w);
    } else if k < 0 {
      InverseActs(p, act, w);
      NegativeActs(p, act, w, InverseWord(p, w), -k, r);
    } else {
      PositiveActs(p, act, w, k, r);
    }
  }

  // ----- right quotients

  lemma {:induction false} QuotientDepths(p: Presentation, w: Word, u: Word)
    requires IsReduced(p, w) && IsReduced(p, u)
    ensures InverseDepth(p, u) <= Ample(p) && p.Over(InverseWord(p, u), 0) &&
            ProductDepth(p, w, InverseWord(p, u)) <= Ample(p)
  {
    var u' := InverseWord(p, u);
    IsOver(p, u');
    SolveDepthAmple(p, 1, Exponents(p, u), Zeros(p.n));
    DepthBound(p, Exponents(p, w), u');
    AmpleFor(p, u');
  }

  /** Word i + 1 of the list is the inverse of word i. */
  ghost predicate Follows(p: Presentation, us: seq<Word>, i: nat)
    requires i + 1 < |us|
  {
    IsReduced(p, us[i]) && us[i + 1] == InverseWord(p, us[i])
  }

  /** The words that take the place of u, one after the other. */
  ghost predicate Attempts(p: Presentation, us: seq<Word>)
  {
    && (forall i {:trigger us[i]} :: 0 <= i < |us| ==> IsReduced(p, us[i]))
    && (forall i {:trigger Follows(p, us, i)} :: 0 <= i < |us| - 1 ==> Follows(p, us, i))
  }

  lemma {:induction false} AttemptsMore(p: Presentation, u: Word, us: seq<Word>)
    requires IsReduced(p, u) && us != [] && us[0] == InverseWord(p, u) && Attempts(p, us)
    ensures Attempts(p, [u] + us)
  {
    var vs := [u] + us;
    forall i: nat | i < |vs| - 1
      ensures Follows(p, vs, i)
    {
      assert i > 0 ==> Follows(p, us, i - 1);
    }
  }

  /**
    The words that take the place of u in a collector of this size: whenever the second collection fails, the
    next attempt starts from the inverse.
   */
  ghost function Tried(p: Presentation, s: Size, w: Word, u: Word): (us: seq<Word>)
    requires IsReduced(p, w) && IsReduced(p, u) && s.max >= 1
    ensures us != [] && us[0] == u && Attempts(p, us)
    decreases s.Tries(Ample(p))
  {
    QuotientDepths(p, w, u);
    var u' := InverseWord(p, u);
    if s.Fails(InverseDepth(p, u)) then
      GrownTries(s, InverseDepth(p, u), Ample(p));
      Tried(p, s.Grown(), w, u)
    else if s.Fails(ProductDepth(p, w, u')) then
      GrownTries(s, ProductDepth(p, w, u'), Ample(p));
      AttemptsMore(p, u, Tried(p, s.Grown(), w, u'));
      [u] + Tried(p, s.Grown(), w, u')
    else [u]
  }

  ghost predicate TriedIs(p: Presentation, s: Size, w: Word, u: Word, us: seq<Word>)
  {
    IsReduced(p, w) && IsReduced(p, u) && s.max >= 1 && us == Tried(p, s, w, u)
  }

  /** How often the second collection fails. */
  ghost function Flips(p: Presentation, s: Size, w: Word, u: Word): nat
    requires IsReduced(p, w) && IsReduced(p, u) && s.max >= 1
  {
    |Tried(p, s, w, u)| - 1
  }

  /** What the attempt that succeeds computes. */
  ghost function Quotient(p: Presentation, w: Word, u: Word): (r: Word)
    requires IsReduced(p, w) && IsReduced(p, u)
    ensures IsReduced(p, r)
  {
    IsOver(p, InverseWord(p, u));
    ProductWord(p, w, InverseWord(p, u))
  }

  /** What the code computes for the quotient of w by u, in a collector of this size. */
  ghost function QuotientWord(p: Presentation, s: Size, w: Word, u: Word): (r: Word)
    requires IsReduced(p, w) && IsReduced(p, u) && s.max >= 1
    ensures IsReduced(p, r)
  {
    var us := Tried(p, s, w, u);
    Quotient(p, w, us[|us| - 1])
  }

  ghost predicate QuotientIs(p: Presentation, s: Size, w: Word, u: Word, r: Word)
  {
    IsReduced(p, w) && IsReduced(p, u) && s.max >= 1 && r == QuotientWord(p, s, w, u)
  }

  lemma {:induction false} QuotientAgain(p: Presentation, s: Size, w: Word, u: Word, r: Word)
    requires IsReduced(p, u) && s.max >= 1 && s.Fails(InverseDepth(p, u)) && QuotientIs(p, s.Grown(), w, u, r)
    ensures QuotientIs(p, s, w, u, r)
  {
    var us := Tried(p, s, w, u);
    TriedAgain(p, s, w, u, us);
  }

  lemma {:induction false} QuotientInverse(p: Presentation, s: Size, w: Word, u: Word, u': Word, r: Word)
    requires IsReduced(p, w) && IsReduced(p, u) && s.max >= 1 && !s.Fails(InverseDepth(p, u))
    requires u' == InverseWord(p, u) && p.Over(u', 0) && s.Fails(ProductDepth(p, w, u'))
    requires QuotientIs(p, s.Grown(), w, u', r)
    ensures QuotientIs(p, s, w, u, r)
  {
    var us := Tried(p, s, w, u);
    TriedInverse(p, s, w, u, u', us);
    assert us[1..][|us[1..]| - 1] == us[|us| - 1];
  }

  lemma {:induction false} QuotientOnce(p: Presentation, s: Size, w: Word, u: Word, u': Word)
    requires IsReduced(p, w) && IsReduced(p, u) && s.max >= 1 && !s.Fails(InverseDepth(p, u))
    requires u' == InverseWord(p, u) && p.Over(u', 0) && !s.Fails(ProductDepth(p, w, u'))
    ensures QuotientIs(p, s, w, u, ProductWord(p, w, u'))
  {
    TriedOnce(p, s, w, u, u', Tried(p, s, w, u));
  }

  lemma {:induction false} TriedAgain(p: Presentation, s: Size, w: Word, u: Word, us: seq<Word>)
    requires TriedIs(p, s, w, u, us) && s.Fails(InverseDepth(p, u))
    ensures TriedIs(p, s.Grown(), w, u, us)
  {
  }

  lemma {:induction false} TriedInverse(p: Presentation, s: Size, w: Word, u: Word, u': Word, us: seq<Word>)
    requires TriedIs(p, s, w, u, us) && !s.Fails(InverseDepth(p, u)) && u' == InverseWord(p, u) && p.Over(u', 0) &&
             s.Fails(ProductDepth(p, w, u'))
    ensures |us| > 1 && TriedIs(p, s.Grown(), w, u', us[1..])
  {
    var vs := Tried(p, s.Grown(), w, u');
    assert us == [u] + vs;
    assert us[1..] == vs;
  }

  lemma {:induction false} TriedOnce(p: Presentation, s: Size, w: Word, u: Word, u': Word, us: seq<Word>)
    requires TriedIs(p, s, w, u, us) && !s.Fails(InverseDepth(p, u)) && u' == InverseWord(p, u) && p.Over(u', 0) &&
             !s.Fails(ProductDepth(p, w, u'))
    ensures us == [u]
  {
  }

  /** r is w times u, or else w times the inverse of u. */
  ghost predicate Either<X(!new)>(act: Action<X>, w: Word, u: Word, r: Word, odd: bool)
  {
    if odd then Product(act, w, u, r) else Product(act, r, u, w)
  }

  ghost predicate Undone<X(!new)>(act: Action<X>, us: seq<Word>, i: nat)
    requires i + 1 < |us|
  {
    Inverses(act, us[i], us[i + 1])
  }

  lemma {:induction false} EitherInverse<X(!new)>(act: Action<X>, w: Word, u: Word, u': Word, r: Word, odd: bool)
    requires Inverses(act, u, u') && Either(act, w, u', r, odd)
    ensures Either(act, w, u, r, !odd)
  {
    if odd {
      Cancel(act, w, u', r, u);
    } else {
      Cancel(act, r, u', w, u);
    }
  }

  /**
    Along a list of words that invert each other, a quotient by the last one is a quotient by the first one
    or a product with it.
   */
  lemma {:induction false} Alternate<X(!new)>(act: Action<X>, w: Word, us: seq<Word>, u: Word, r: Word, k: nat)
    requires |us| == k + 1 && us[0] == u && Either(act, w, us[k], r, false)
    requires forall i {:trigger Undone(act, us, i)} :: 0 <= i < k ==> Undone(act, us, i)
    ensures Either(act, w, u, r, k % 2 == 1)
  {
    if k > 0 {
      var vs := us[1..];
      forall i: nat | i < k - 1
        ensures Undone(act, vs, i)
      {
        assert Undone(act, us, i + 1);
      }
      assert Undone(act, us, 0);
      Alternate(act, w, vs, us[1], r, k - 1);
      EitherInverse(act, w, u, us[1], r, (k - 1) % 2 == 1);
    }
  }

  lemma {:induction false} AttemptsInvert<X(!new)>(p: Presentation, act: Action<X>, us: seq<Word>)
    requires p.WellFormed() && Satisfies(p, act) && Attempts(p, us)
    ensures forall i {:trigger Undone(act, us, i)} :: 0 <= i < |us| - 1 ==> Undone(act, us, i)
  {
    forall i: nat | i < |us| - 1
      ensures Undone(act, us, i)
    {
      assert Follows(p, us, i);
      InverseActs(p, act, us[i]);
    }
  }

  lemma {:induction false} LastAttempt<X(!new)>(p: Presentation, act: Action<X>, w: Word, u: Word, r: Word)
    requires IsReduced(p, w) && IsReduced(p, u) && Satisfies(p, act) && r == Quotient(p, w, u)
    ensures Either(act, w, u, r, false)
  {
    var u' := InverseWord(p, u);
    IsOver(p, u');
    InverseActs(p, act, u);
    ProductActs(p, act, w, u');
    EitherInverse(act, w, u, u', r, true);
  }

  /** After an even number of such failures the result is w times the inverse of u, after an odd number w times u. */
  lemma {:induction false} QuotientActs<X(!new)>(p: Presentation, act: Action<X>, w: Word, u: Word, us: seq<Word>,
                                                 r: Word)
    requires IsReduced(p, w) && Satisfies(p, act) && Attempts(p, us) && us != [] && us[0] == u &&
             r == Quotient(p, w, us[|us| - 1])
    ensures Either(act, w, u, r, (|us| - 1) % 2 == 1)
  {
    var k := |us| - 1;
    AttemptsInvert(p, act, us);
    LastAttempt(p, act, w, us[k], r);
    Alternate(act, w, us, u, r, k);
  }

  /** The result is the quotient if and only if the number of such failures is even, or u is its own inverse. */
  lemma {:induction false} QuotientRight<X(!new)>(p: Presentation, act: Action<X>, s: Size, w: Word, u: Word)
    requires IsReduced(p, w) && IsReduced(p, u) && s.max >= 1 && Satisfies(p, act)
    ensures Product(act, QuotientWord(p, s, w, u), u, w) <==> Flips(p, s, w, u) % 2 == 0 || Product(act, u, u, [])
  {
    TriedRight(p, act, s, w, u, Tried(p, s, w, u), QuotientWord(p, s, w, u));
  }

  // ----- when the second collection cannot fail

  /** The depth of the second collection. */
  ghost function SecondDepth(p: Presentation, w: Word, u: Word): (d: nat)
    requires IsReduced(p, w) && IsReduced(p, u)
    ensures d <= Ample(p)
  {
    QuotientDepths(p, w, u);
    ProductDepth(p, w, InverseWord(p, u))
  }

  /** The limit after it has been doubled as often as a collection of depth d needs. */
  ghost function Doubled(max: nat, d: nat): (m: nat)
    requires max >= 1
    ensures m > d
    decreases d + 1 - max
  {
    if d < max then max else Doubled(2 * max, d)
  }

  /**
    The first attempt that gets to the second collection succeeds if and only if this does not need more than what the
    inversion has left room for.
   */
  lemma {:induction false} NoFlip(p: Presentation, s: Size, w: Word, u: Word)
    requires IsReduced(p, w) && IsReduced(p, u) && s.max >= 1 && (InverseDepth(p, u) > 0 || s.room >= s.max + 2)
    ensures Flips(p, s, w, u) == 0 <==>
              SecondDepth(p, w, u) == 0 || SecondDepth(p, w, u) < Doubled(s.max, InverseDepth(p, u))
    decreases s.Tries(Ample(p))
  {
    var us, d := Tried(p, s, w, u), InverseDepth(p, u);
    QuotientDepths(p, w, u);
    if s.Fails(d) {
      GrownTries(s, d, Ample(p));
      TriedAgain(p, s, w, u, us);
      NoFlip(p, s.Grown(), w, u);
    } else if s.Fails(SecondDepth(p, w, u)) {
      TriedInverse(p, s, w, u, InverseWord(p, u), us);
    } else {
      TriedOnce(p, s, w, u, InverseWord(p, u), us);
    }
  }

  /** With a stack that is large enough for all reduced words, the quotient is right. */
  lemma {:induction false} AmpleRight<X(!new)>(p: Presentation, act: Action<X>, s: Size, w: Word, u: Word)
    requires IsReduced(p, w) && IsReduced(p, u) && Satisfies(p, act) && s.max > Ample(p) && s.room >= s.max + 2
    ensures Flips(p, s, w, u) == 0 && Product(act, QuotientWord(p, s, w, u), u, w)
  {
    NoFlip(p, s, w, u);
    QuotientDepths(p, w, u);
    QuotientRight(p, act, s, w, u);
  }

  lemma {:induction false} TriedRight<X(!new)>(p: Presentation, act: Action<X>, s: Size, w: Word, u: Word,
                                                  us: seq<Word>, r: Word)
    requires TriedIs(p, s, w, u, us) && Satisfies(p, act) && us != [] && IsReduced(p, us[|us| - 1]) &&
             r == Quotient(p, w, us[|us| - 1])
    ensures Product(act, r, u, w) <==> Flips(p, s, w, u) % 2 == 0 || Product(act, u, u, [])
  {
    QuotientActs(p, act, w, u, us, r);
    EitherRight(p, act, w, u, r, (|us| - 1) % 2 == 1);
  }

  lemma {:induction false} EitherRight<X(!new)>(p: Presentation, act: Action<X>, w: Word, u: Word, r: Word, odd: bool)
    requires IsReduced(p, w) && Satisfies(p, act) && Either(act, w, u, r, odd)
    ensures Product(act, r, u, w) <==> !odd || Product(act, u, u, [])
  {
    if odd {
      if Product(act, r, u, w) {
        SelfInverse(p, act, w, u, r);
      }
      if Product(act, u, u, []) {
        SelfQuotient(act, w, u, r);
      }
    }
  }

  lemma {:induction false} SelfQuotient<X(!new)>(act: Action<X>, w: Word, u: Word, r: Word)
    requires Product(act, w, u, r) && Product(act, u, u, [])
    ensures Product(act, r, u, w)
  {
    forall x
      ensures WordAct(act, w, x) == WordAct(act, u, WordAct(act, r, x))
    {
      var y := WordAct(act, w, x);
      assert ProductAt(act, w, u, r, x);
      assert ProductAt(act, u, u, [], y);
    }
  }

  lemma {:induction false} SelfInverse<X(!new)>(p: Presentation, act: Action<X>, w: Word, u: Word, r: Word)
    requires IsReduced(p, w) && Satisfies(p, act) && Product(act, w, u, r) && Product(act, r, u, w)
    ensures Product(act, u, u, [])
  {
    var w' := InverseWord(p, w);
    InverseActs(p, act, w);
    forall y
      ensures WordAct(act, [], y) == WordAct(act, u, WordAct(act, u, y))
    {
      var x := WordAct(act, w', y);
      assert ProductAt(act, w', w, [], y);
      assert ProductAt(act, w, u, r, x);
      assert ProductAt(act, r, u, w, x);
    }
  }
}
