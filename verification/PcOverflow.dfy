/**
  Right quotients that come out wrong: in the groups of a whole family of presentations the second collection
  fails just once, so that the quotient of w by u comes out as w times u.
 */
module PcOverflow {
  import opened PcPresentation
  import opened PcAction
  import opened Avector
  import opened CollectorStack
  import opened CollectorSteps
  import opened CollectorWeights
  import opened CollectorProgress
  import opened CollectorRun
  import opened SingleCollector
  import opened PcVectors
  import opened PcWords

  /** Generators 2 .. n have order 7 and commute; generator 1 has order 3 and squares each of them. */
  function Relations(n: nat): (p: Presentation)
    requires n >= 2
    ensures p.n == n && |p.ro| == |p.avc| == |p.cnj| == |p.inv| == n + 1 && p.half == 8 && p.pow == []
    ensures p.ro[0] == 7 && p.ro[1] == 3 && p.avc[1] == n && p.inv[1] == [Syllable(1, 2)]
    ensures forall i {:trigger p.ro[i]} {:trigger p.avc[i]} :: 2 <= i <= n ==> p.ro[i] == 7 && p.avc[i] == i
    ensures forall i {:trigger p.inv[i]} :: 2 <= i <= n ==> p.inv[i] == [Syllable(i, 6)]
    ensures forall i, g {:trigger p.Conjugate(i, g)} :: 2 <= i <= n ==>
            p.Conjugate(i, g) == if g == 1 then [Syllable(i, 2)] else []
  {
    Presentation(
      n,
      seq(n + 1, i => if i == 1 then 3 else 7),
      [],
      seq(n + 1, i requires 0 <= i => if i >= 2 then [[], [Syllable(i, 2)]] else []),
      seq(n + 1, i requires 0 <= i => [Syllable(i, if i == 1 then 2 else 6)]),
      seq(n + 1, i requires 0 <= i => if i == 1 then n else i),
      8)
  }

  lemma {:induction false} OneOver(p: Presentation, i: nat, e: nat, lo: nat)
    requires lo < i <= p.n
    ensures p.Over([Syllable(i, e)], lo)
  {
  }

  lemma {:induction false} RelationsGood(n: nat)
    requires n >= 2
    ensures Relations(n).WellFormed()
  {
    var p := Relations(n);
    forall i | 1 <= i <= n
      ensures p.GoodInverse(i)
    {
      var e := if i == 1 then 2 else 6;
      OneOver(p, i, e, i - 1);
      assert p.inv[i] == [Syllable(i, e)];
    }
    forall i, g | 1 <= g < i <= n
      ensures p.Over(p.Conjugate(i, g), g)
    {
      OneOver(p, i, 2, g);
    }
  }

  function Squaring(n: nat): (p: Presentation)
    requires n >= 2
    ensures p.WellFormed() && p == Relations(n)
  {
    RelationsGood(n);
    Relations(n)
  }

  /** Its avector is the one that is computed for it. */
  lemma {:induction false} SquaringAvector(n: nat)
    requires n >= 2
    ensures forall i :: 1 <= i <= n ==> Least(Squaring(n), i, Squaring(n).avc[i])
  {
    var p := Squaring(n);
    forall i | 1 <= i <= n
      ensures Least(p, i, p.avc[i])
    {
      if i == 1 {
        assert !Commutes(p, 1, n);
      }
    }
  }

  /** The first generator to the exponent e. */
  function First(n: nat, e: nat): (v: seq<int>)
    requires n >= 1
    ensures |v| == n + 1 && v[1] == e && forall i :: 0 <= i <= n && i != 1 ==> v[i] == 0
  {
    Zeros(n)[1 := e]
  }

  /** The product of all other generators. */
  function Others(n: nat): (v: seq<int>)
    ensures |v| == n + 1 && forall i :: 0 <= i <= n ==> v[i] == if i >= 2 then 1 else 0
  {
    seq(n + 1, i => if i >= 2 then 1 else 0)
  }

  lemma {:induction false} Vectors(n: nat, e: nat)
    requires n >= 2 && e < 3
    ensures Normal(Squaring(n), First(n, e)) && Normal(Squaring(n), Others(n))
  {
  }

  /** The word of a vector has the exponents of the vector. */
  lemma {:induction false} ReadBack(p: Presentation, v: seq<int>)
    requires p.WellFormed() && Normal(p, v)
    ensures Exponents(p, ToWord(p, v)) == v
  {
    EntriesPack(p, v, p.n);
    UnpackPack(p, v, p.n);
  }

  lemma {:induction false} FirstWord(n: nat, e: nat, k: nat)
    requires 1 <= k <= n && e > 0
    ensures Entries(First(n, e), k) == [Syllable(1, e)]
  {
    if k > 1 {
      FirstWord(n, e, k - 1);
    } else {
      assert Entries(First(n, e), 0) == [];
    }
  }

  // ----- collecting the first generator where nothing is in its way

  /** The word g_1 ^ b, of which e letters are left. */
  function Letters(b: nat, e: nat): Frame
  {
    Frame([Syllable(1, b)], 0, e, 1)
  }

  lemma {:induction false} FineAlone(n: nat, a: nat, b: nat, e: nat)
    requires n >= 2 && a < 3
    ensures Fine(Squaring(n), Config(First(n, a), [Letters(b, e)]))
  {
    Vectors(n, a);
    var p, f := Squaring(n), Letters(b, e);
    assert f.word[0].gen == 1 && p.Over(f.word, 0) && f.Valid(p);
    assert [f][..0] == [] && Frames(p, []) && Frames(p, [f]);
  }

  lemma {:induction false} StepAlone(n: nat, a: nat, b: nat, e: nat)
    requires n >= 2 && a < 3
    requires Fine(Squaring(n), Config(First(n, a), [Letters(b, e)]))
    ensures StepOf(Squaring(n), Config(First(n, a), [Letters(b, e)])) ==
            if e == 0 then Config(First(n, a), [])
                else Config(First(n, if a == 2 then 0 else a + 1), [Letters(b, e - 1)])
  {
    var p, v, f := Squaring(n), First(n, a), Letters(b, e);
    var c := Config(v, [f]);
    assert Below(c) == [];
    if e > 0 {
      assert Passable(p, v, 1);
      assert v[1 := a + 1] == First(n, a + 1);
      assert Quo(a + 1, 3) == (if a == 2 then 1 else 0) && Rem(a + 1, 3) == if a == 2 then 0 else a + 1 by {
        assert Rem(0, 3) == 0 && Quo(0, 3) == 0;
      }
      assert v[1 := a + 1][1 := Rem(a + 1, 3)] == First(n, if a == 2 then 0 else a + 1);
    }
  }

  lemma {:induction false} RunAlone(n: nat, a: nat, b: nat, e: nat)
    requires n >= 2 && a < 3 && (a + e == 3 || a + e == 0)
    ensures Fine(Squaring(n), Config(First(n, a), [Letters(b, e)]))
    ensures var c := Config(First(n, a), [Letters(b, e)]);
            Result(Squaring(n), c) == Zeros(n) && Depth(Squaring(n), c) == 1
    decreases e
  {
    var p := Squaring(n);
    FineAlone(n, a, b, e);
    StepAlone(n, a, b, e);
    if e > 0 {
      RunAlone(n, if a == 2 then 0 else a + 1, b, e - 1);
    } else {
      assert First(n, 0) == Zeros(n);
      StepLower(p, Scale(p), Config(First(n, a), [Letters(b, e)]));
    }
  }

  lemma {:induction false} CollectAlone(n: nat, a: nat, b: nat)
    requires n >= 2 && 1 <= a < 3 && a + b == 3
    ensures Collectable(Squaring(n), First(n, a), EntryWord(1, b))
    ensures Collect(Squaring(n), First(n, a), EntryWord(1, b)) == Zeros(n) &&
            DepthFor(Squaring(n), First(n, a), EntryWord(1, b)) == 1
  {
    Vectors(n, a);
    RunAlone(n, a, b, b);
    CollectIs(Squaring(n), First(n, a), EntryWord(1, b));
  }

  // ----- inverting a power of the first generator

  lemma {:induction false} SolveRest(p: Presentation, k: nat, x: seq<int>)
    requires p.WellFormed() && Normal(p, x) && 2 <= k <= p.n + 1 && forall i :: k <= i <= p.n ==> x[i] == 0
    ensures Normal(p, Zeros(p.n)) && Solve(p, k, Zeros(p.n), x) == x && SolveDepth(p, k, Zeros(p.n), x) == 0
    decreases p.n + 1 - k
  {
    if k <= p.n {
      assert Found(p, k, Zeros(p.n), x) == 0;
      assert Rest(p, k, Zeros(p.n), 0) == Zeros(p.n);
      assert x[k := 0] == x;
      SolveRest(p, k + 1, x);
    }
  }

  lemma {:induction false} SolveOnce(p: Presentation, r: seq<int>, x: seq<int>, q: nat, d: nat, r1: seq<int>,
                                     x1: seq<int>)
    requires p.WellFormed() && p.n >= 1 && Normal(p, r) && Normal(p, x) && q == Found(p, 1, r, x) &&
             r1 == Rest(p, 1, r, q) && x1 == x[1 := q]
    requires Collectable(p, r, EntryWord(1, q)) && d == DepthFor(p, r, EntryWord(1, q))
    ensures Normal(p, x1) && Solve(p, 1, r, x) == Solve(p, 2, r1, x1) &&
            SolveDepth(p, 1, r, x) == Larger(d, SolveDepth(p, 2, r1, x1))
  {
  }

  lemma {:induction false} SolveFirst(n: nat, a: nat)
    requires n >= 2 && 1 <= a < 3
    ensures var p := Squaring(n);
      && Normal(p, First(n, a)) && Normal(p, Zeros(n))
      && Solve(p, 1, First(n, a), Zeros(n)) == First(n, 3 - a) && SolveDepth(p, 1, First(n, a), Zeros(n)) == 1
  {
    var p, v, z, x := Squaring(n), First(n, a), Zeros(n), First(n, 3 - a);
    Vectors(n, a);
    Vectors(n, 3 - a);
    CollectAlone(n, a, 3 - a);
    assert z[1 := 0] == z;
    SolveRest(p, 2, x);
    SolveOnce(p, v, z, 3 - a, 1, z, x);
  }

  lemma {:induction false} InvertFirst(n: nat, a: nat)
    requires n >= 2 && 1 <= a < 3
    ensures var p := Squaring(n);
      && Normal(p, First(n, a)) && Normal(p, First(n, 3 - a)) && IsReduced(p, ToWord(p, First(n, a)))
      && InverseWord(p, ToWord(p, First(n, a))) == ToWord(p, First(n, 3 - a)) &&
         InverseDepth(p, ToWord(p, First(n, a))) == 1
  {
    Vectors(n, a);
    Vectors(n, 3 - a);
    ReadBack(Squaring(n), First(n, a));
    SolveFirst(n, a);
  }

  // ----- the first generator behind all the others

  lemma {:induction false} PushesAll(n: nat, v: seq<int>, hi: nat)
    requires n >= 2 && |v| == n + 1 && 1 <= hi <= n && forall i :: 2 <= i <= n ==> v[i] > 0
    ensures |Pushes(Squaring(n), v, 1, 1, hi)| == hi - 1
  {
    if hi > 1 {
      PushesAll(n, v, hi - 1);
    }
  }

  /** The first step stacks up all the other generators. */
  lemma {:induction false} DeepProduct(n: nat, b: nat)
    requires n >= 2 && b >= 1
    ensures Collectable(Squaring(n), Others(n), [Syllable(1, b)]) &&
            DepthFor(Squaring(n), Others(n), [Syllable(1, b)]) >= n
  {
    var p, v, w := Squaring(n), Others(n), [Syllable(1, b)];
    Vectors(n, 0);
    OneOver(p, 1, b, 0);
    CollectIs(p, v, w);
    var c := Begin(p, v, w);
    assert !Passable(p, v, 1) by {
      assert v[2] != 0 && p.Conjugate(2, 1) != [];
    }
    PushesAll(n, v, n);
    StepLower(p, Scale(p), c);
    assert StepOf(p, c).stack == Reduce(p, AfterMove(p, c, c.stack[0]), 1).stack;
  }

  /** At the bottom the word of the first generator, above it single syllables in the others. */
  ghost predicate Calm(n: nat, s: seq<Frame>)
  {
    |s| <= n && (s != [] ==> Bottom(s[0])) && forall k {:trigger s[k]} :: 1 <= k < |s| ==> Single(n, s[k])
  }

  ghost predicate Bottom(f: Frame)
  {
    |f.word| == 1 && f.pos == 0 && f.word[0].gen == 1 && f.word[0].exp >= 0 && f.ew >= 0
  }

  ghost predicate Single(n: nat, f: Frame)
  {
    |f.word| == 1 && f.pos == 0 && 2 <= f.word[0].gen <= n && f.word[0].exp >= 0 && f.ew >= 0
  }

  lemma {:induction false} PushesSingle(n: nat, v: seq<int>, hi: nat)
    requires n >= 2 && |v| == n + 1 && 1 <= hi <= n
    ensures var s := Pushes(Squaring(n), v, 1, 1, hi);
            |s| <= hi - 1 && forall k {:trigger s[k]} :: 0 <= k < |s| ==> Single(n, s[k])
  {
    if hi > 1 {
      PushesSingle(n, v, hi - 1);
    }
  }

  lemma {:induction false} CalmReplaced(n: nat, s: seq<Frame>, t: seq<Frame>)
    requires s != [] && Calm(n, s) && |t| <= 1 && (t != [] ==> if |s| == 1 then Bottom(t[0]) else Single(n, t[0]))
    ensures Calm(n, s[..|s| - 1] + t)
  {
  }

  lemma {:induction false} CalmPushed(n: nat, f: Frame, t: seq<Frame>)
    requires Bottom(f) && |t| < n && forall k {:trigger t[k]} :: 0 <= k < |t| ==> Single(n, t[k])
    ensures Calm(n, [f] + t)
  {
    var s := [f] + t;
    forall k | 1 <= k < |s|
      ensures Single(n, s[k])
    {
      assert s[k] == t[k - 1];
    }
  }

  /** Single syllables in other generators are given at once. */
  lemma {:induction false} SingleGiven(n: nat, c: Config)
    requires n >= 2 && Fine(Squaring(n), c) && |c.stack| > 1 && Single(n, c.stack[|c.stack| - 1]) &&
             c.stack[|c.stack| - 1].ew > 0
    ensures StepOf(Squaring(n), c).stack == c.stack[..|c.stack| - 1] + [c.stack[|c.stack| - 1].(ew := 0)]
  {
    var p, f := Squaring(n), c.stack[|c.stack| - 1];
    var s := c.stack[..|c.stack| - 1] + [f.(ew := 0)];
    assert p.avc[f.Gen()] == f.Gen() && p.Power(f.Gen()) == [];
    assert s + [] == s;
  }

  /** A letter of the first generator may stack up all others. */
  lemma {:induction false} BottomGiven(n: nat, c: Config)
    requires n >= 2 && Fine(Squaring(n), c) && |c.stack| == 1 && Bottom(c.stack[0]) && c.stack[0].ew > 0
    ensures StepOf(Squaring(n), c).stack ==
            [c.stack[0].(ew := c.stack[0].ew - 1)] + (if Stacks(Squaring(n), c.v, 1)
                                                      then Pushes(Squaring(n), c.v, 1, 1, n) else [])
  {
    var p, f := Squaring(n), c.stack[0];
    assert p.avc[1] == n != 1 && p.Power(1) == [] && Below(c) == [];
    var s := Given(p, c, f).stack;
    assert s == [f.(ew := f.ew - 1)] + (if Stacks(p, c.v, 1) then Pushes(p, c.v, 1, 1, n) else []);
    assert s + [] == s;
  }

  lemma {:induction false} CalmStep(n: nat, c: Config)
    requires n >= 2 && Fine(Squaring(n), c) && Calm(n, c.stack) && c.stack != []
    ensures Calm(n, StepOf(Squaring(n), c).stack)
  {
    var m := |c.stack| - 1;
    var f := c.stack[m];
    if f.ew == 0 {
      CalmReplaced(n, c.stack, Next(f));
    } else if m > 0 {
      SingleGiven(n, c);
      CalmReplaced(n, c.stack, [f.(ew := 0)]);
    } else {
      BottomGiven(n, c);
      PushesSingle(n, c.v, n);
      CalmPushed(n, f.(ew := f.ew - 1), if Stacks(Squaring(n), c.v, 1) then Pushes(Squaring(n), c.v, 1, 1, n) else []);
    }
  }

  lemma {:induction false} CalmDepth(n: nat, c: Config)
    requires n >= 2 && Fine(Squaring(n), c) && Calm(n, c.stack)
    ensures Depth(Squaring(n), c) <= n
    decreases Weight(Squaring(n), Scale(Squaring(n)), c.stack), AheadOf(Squaring(n), c.stack)
  {
    var p := Squaring(n);
    if c.stack != [] {
      StepLower(p, Scale(p), c);
      CalmStep(n, c);
      CalmDepth(n, StepOf(p, c));
    }
  }

  lemma {:induction false} CalmProduct(n: nat, b: nat)
    requires n >= 2
    ensures Collectable(Squaring(n), Others(n), [Syllable(1, b)]) &&
            DepthFor(Squaring(n), Others(n), [Syllable(1, b)]) <= n
  {
    var p, v, w := Squaring(n), Others(n), [Syllable(1, b)];
    Vectors(n, 0);
    OneOver(p, 1, b, 0);
    CollectIs(p, v, w);
    CalmDepth(n, Begin(p, v, w));
  }

  // ----- the quotient

  /** The words of the example: all other generators, and a power of the first one. */
  ghost function Left(n: nat): (w: Word)
    requires n >= 2
    ensures IsReduced(Squaring(n), w) && Exponents(Squaring(n), w) == Others(n)
  {
    Vectors(n, 0);
    ReadBack(Squaring(n), Others(n));
    ToWord(Squaring(n), Others(n))
  }

  ghost function Right(n: nat, a: nat): (w: Word)
    requires n >= 2 && 1 <= a < 3
    ensures IsReduced(Squaring(n), w) && w == [Syllable(1, a)]
  {
    Vectors(n, a);
    FirstWord(n, a, n);
    ToWord(Squaring(n), First(n, a))
  }

  lemma {:induction false} RightInverse(n: nat, a: nat)
    requires n >= 2 && 1 <= a < 3
    ensures InverseWord(Squaring(n), Right(n, a)) == Right(n, 3 - a) && InverseDepth(Squaring(n), Right(n, a)) == 1
  {
    InvertFirst(n, a);
  }

  lemma {:induction false} LeftRightDepth(n: nat, a: nat)
    requires n >= 2 && 1 <= a < 3
    ensures Squaring(n).Over(Right(n, a), 0) && ProductDepth(Squaring(n), Left(n), Right(n, a)) == n
  {
    IsOver(Squaring(n), Right(n, a));
    DeepProduct(n, a);
    CalmProduct(n, a);
  }

  /** The second collection fails once, whatever the stack has been used for before. */
  lemma {:induction false} OneFlip(n: nat, room: nat)
    requires 256 <= n < 512
    ensures IsReduced(Squaring(n), Left(n)) && IsReduced(Squaring(n), Right(n, 2))
    ensures Flips(Squaring(n), Size(256, room), Left(n), Right(n, 2)) == 1
  {
    var p, w, u, u' := Squaring(n), Left(n), Right(n, 2), Right(n, 1);
    RightInverse(n, 2);
    RightInverse(n, 1);
    LeftRightDepth(n, 1);
    LeftRightDepth(n, 2);
    var us := Tried(p, Size(256, room), w, u);
    if room < 258 {
      TriedAgain(p, Size(256, room), w, u, us);
    }
    var enough := if room < 258 then 258 else room;
    TriedInverse(p, Size(256, enough), w, u, u', us);
    if enough < 514 {
      TriedAgain(p, Size(512, enough), w, u', us[1..]);
    }
    TriedOnce(p, Size(512, if enough < 514 then 514 else enough), w, u', u, us[1..]);
  }

  /** The first generator turns three points round, the others leave all points alone. */
  ghost function Turning(): Action<int>
  {
    Action((i, x) => if i == 1 then Turn(x) else x, (i, x) => if i == 1 then Turn(Turn(x)) else x)
  }

  function Turn(x: int): int
  {
    if 0 <= x < 2 then x + 1 else if x == 2 then 0 else x
  }

  lemma {:induction false} Still(i: nat, e: nat, x: int)
    requires i != 1
    ensures Pw(Turning(), i, e, x) == x
  {
    if e > 0 {
      Still(i, e - 1, x);
    }
  }

  lemma {:induction false} Turned(e: nat, x: int)
    requires e <= 3
    ensures Pw(Turning(), 1, e, x) == if e == 0 then x else if e == 1 then Turn(x) else if e == 2 then Turn(Turn(x))
            else x
  {
    var act := Turning();
    assert Pw(act, 1, 0, x) == x && Pw(act, 1, 0, Turn(x)) == Turn(x) && Pw(act, 1, 0, Turn(Turn(x))) == Turn(Turn(x));
    assert Pw(act, 1, 1, x) == Turn(x) && Pw(act, 1, 1, Turn(x)) == Turn(Turn(x)) && Pw(act, 1, 1, Turn(Turn(x))) == x;
    assert Pw(act, 1, 2, x) == Turn(Turn(x)) && Pw(act, 1, 2, Turn(x)) == x;
  }

  lemma {:induction false} TurningSatisfies(n: nat)
    requires n >= 2
    ensures Satisfies(Squaring(n), Turning())
  {
    var p, act := Squaring(n), Turning();
    forall i, x | 1 <= i <= n
      ensures PowerAt(p, act, i, x) && InverseAt(p, act, i, x)
    {
      if i == 1 {
        Turned(3, x);
        Turned(2, x);
        OneSyllable(act, 1, 2, x);
      } else {
        Still(i, 7, x);
        Still(i, 6, x);
        OneSyllable(act, i, 6, x);
      }
    }
    forall i, g, x | 1 <= g < i <= n
      ensures ConjugateAt(p, act, i, g, x)
    {
      var y := Step(act, g, x);
      Still(i, 1, y);
      Still(i, 2, y);
      OneSyllable(act, i, 1, y);
      OneSyllable(act, i, 2, y);
    }
  }

  /**
    With a limit of 256 frames, the one that collectors start with, w divided by u comes out as w times u, which is
    not the quotient: not in the action above, and so not in the group of the presentation.
   */
  lemma {:induction false} WrongQuotient(n: nat, room: nat)
    requires 256 <= n < 512
    ensures IsReduced(Squaring(n), Left(n)) && IsReduced(Squaring(n), Right(n, 2))
    ensures Satisfies(Squaring(n), Turning())
    ensures !Product(Turning(), QuotientWord(Squaring(n), Size(256, room), Left(n), Right(n, 2)), Right(n, 2), Left(n))
  {
    var p, act, w, u := Squaring(n), Turning(), Left(n), Right(n, 2);
    OneFlip(n, room);
    TurningSatisfies(n);
    QuotientRight(p, act, Size(256, room), w, u);
    assert !ProductAt(act, u, u, [], 0) by {
      Turned(2, 0);
      Turned(2, 2);
      OneSyllable(act, 1, 2, 0);
      OneSyllable(act, 1, 2, 2);
    }
  }
}
