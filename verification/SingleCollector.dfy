/**
  The single collector: multiplies a word into an exponent vector, which it changes in
  place, with the help of a stack of limited size.
 */
module SingleCollector {
  import opened PcPresentation
  import opened CollectorStack
  import opened CollectorSteps
  import opened CollectorWeights
  import opened CollectorProgress
  import opened CollectorRun

  /** Entries above start are zero. */
  ghost predicate Trailing(v: seq<int>, start: nat)
  {
    forall k :: start < k < |v| ==> v[k] == 0
  }

  /** Looks for the first entry, from the top, that g cannot simply move past. */
  method FindConjugate(p: Presentation, v: array<int>, g: nat, top: nat) returns (i: nat)
    requires p.WellFormed() && v.Length == p.n + 1 && 1 <= g <= p.n && top <= p.n
    ensures if top < g then i == top else g <= i <= top
    ensures forall j :: g < j && i < j <= top ==> v[j] == 0 || p.Conjugate(j, g) == []
    ensures g < i ==> v[i] != 0 && p.Conjugate(i, g) != []
  {
    i := top;
    while g < i && (v[i] == 0 || p.Conjugate(i, g) == [])
      invariant if top < g then i == top else g <= i <= top
      invariant forall j :: g < j && i < j <= top ==> v[j] == 0 || p.Conjugate(j, g) == []
    {
      i := i - 1;
    }
  }

  /** The entries above lo are not changed when g moves past them. */
  ghost predicate Unmoved(p: Presentation, v: seq<int>, g: nat, lo: nat, hi: nat)
    requires hi < |v| == |p.cnj|
  {
    forall j :: lo < j <= hi ==> v[j] == 0 || p.Conjugate(j, g) == []
  }

  /** Stacks up entries that g moves past unchanged; fails if the stack would reach its limit. */
  method StackGenerators(p: Presentation, v: array<int>, g: nat, lo: nat, hi: nat, stack: seq<Frame>, limit: nat,
                         ghost v0: seq<int>)
      returns (ok: bool, s: seq<Frame>)
    requires p.WellFormed() && v.Length == p.n + 1 && 1 <= g <= lo <= hi <= p.n && |stack| < limit
    requires v[..] == v0 && Vector(p, v0) && Unmoved(p, v0, g, lo, hi)
    modifies v
    ensures ok ==> s == stack + Pushes(p, v0, g, lo, hi) && v[..] == Cleared(v0, lo, hi) && |s| < limit
    ensures !ok ==> limit <= |stack| + |Pushes(p, v0, g, lo, hi)|
  {
    var j := hi;
    s := stack;
    while lo < j
      invariant lo <= j <= hi && |s| < limit
      invariant v[..] == Cleared(v0, j, hi)
      invariant s + Pushes(p, v0, g, lo, j) == stack + Pushes(p, v0, g, lo, hi)
    {
      if v[j] != 0 {
        if |s| + 1 == limit {
          return false, s;
        }
        s := s + [Pushed([Syllable(j, 1)], v[j])];
        v[j] := 0;
      }
      j := j - 1;
    }
    ok := true;
  }

  /** Stacks up the conjugates of entries that g moves past. */
  method StackConjugates(p: Presentation, v: array<int>, g: nat, hi: nat, stack: seq<Frame>, limit: nat,
                         ghost v0: seq<int>)
      returns (ok: bool, s: seq<Frame>)
    requires p.WellFormed() && v.Length == p.n + 1 && 1 <= g <= hi <= p.n && |stack| < limit
    requires v[..] == v0 && Vector(p, v0)
    modifies v
    ensures ok ==> s == stack + Pushes(p, v0, g, g, hi) && v[..] == Cleared(v0, g, hi) && |s| < limit
    ensures !ok ==> limit <= |stack| + |Pushes(p, v0, g, g, hi)|
  {
    var i := hi;
    s := stack;
    while g < i
      invariant g <= i <= hi && |s| < limit
      invariant v[..] == Cleared(v0, i, hi)
      invariant s + Pushes(p, v0, g, g, i) == stack + Pushes(p, v0, g, g, hi)
    {
      if v[i] != 0 {
        if |s| + 1 == limit {
          return false, s;
        }
        s := s + [Pushed(p.Image(i, g), v[i])];
        v[i] := 0;
      }
      i := i - 1;
    }
    ok := true;
  }

  /** Both parts of the stacked entries together. */
  lemma {:induction false} StackedUp(p: Presentation, v: seq<int>, g: nat, i: nat, a: nat, v1: seq<int>)
    requires g <= i <= a < |v| == |p.cnj| && v1 == Cleared(v, i, a)
    ensures Pushes(p, v, g, i, a) + Pushes(p, v1, g, g, i) == Pushes(p, v, g, g, a) &&
            Cleared(v1, g, i) == Cleared(v, g, a)
    ensures Vector(p, v) ==> Vector(p, v1)
  {
    PushesSplit(p, v, g, g, i, a);
    PushesSame(p, v, v1, g, g, i);
  }

  /** Stacks up all entries between g and its avector entry. */
  method StackUp(p: Presentation, v: array<int>, g: nat, i: nat, stack: seq<Frame>, limit: nat, ghost v0: seq<int>)
      returns (ok: bool, s: seq<Frame>)
    requires p.WellFormed() && v.Length == p.n + 1 && 1 <= g <= p.n && g <= i <= p.avc[g] && |stack| < limit &&
             v[..] == v0
    requires Vector(p, v0) && Unmoved(p, v0, g, i, p.avc[g])
    modifies v
    ensures ok <==> |stack| + |Pushes(p, v0, g, g, p.avc[g])| < limit
    ensures ok ==> s == stack + Pushes(p, v0, g, g, p.avc[g]) && v[..] == Cleared(v0, g, p.avc[g])
  {
    ghost var a := p.avc[g];
    ghost var v1 := Cleared(v0, i, a);
    ghost var q, r, all := Pushes(p, v0, g, i, a), Pushes(p, v1, g, g, i), Pushes(p, v0, g, g, a);
    StackedUp(p, v0, g, i, a, v1);
    Together(stack, q, r, all);
    ok, s := StackGenerators(p, v, g, i, p.avc[g], stack, limit, v0);
    if ok {
      ok, s := StackConjugates(p, v, g, i, s, limit, v1);
    }
  }

  lemma {:induction false} Together(s: seq<Frame>, q: seq<Frame>, r: seq<Frame>, all: seq<Frame>)
    requires q + r == all
    ensures (s + q) + r == s + all && |s + q| == |s| + |q| && |all| == |q| + |r|
  {
  }

  /** Looks where the entries that have to be stacked up begin. */
  method Blocking(p: Presentation, v: array<int>, g: nat, start: nat) returns (i: nat)
    requires p.WellFormed() && v.Length == p.n + 1 && 1 <= g <= p.n && Trailing(v[..], start)
    ensures g < i ==> i <= p.avc[g]
    ensures g < i <==> !Passable(p, v[..], g)
    ensures Unmoved(p, v[..], g, if g < i then i else g, p.avc[g])
  {
    ghost var u := v[..];
    i := FindConjugate(p, v, g, if start < p.avc[g] then start else p.avc[g]);
    assert g < i ==> u[i] != 0 && p.Conjugate(i, g) != [];
  }

  /** Moves one letter g step by step to its place. */
  method Place(p: Presentation, v: array<int>, g: nat, start: nat, stack: seq<Frame>, limit: nat)
      returns (ok: bool, s: seq<Frame>, start': nat)
    requires p.WellFormed() && v.Length == p.n + 1 && Normal(p, v[..]) && 1 <= g <= p.n && |stack| < limit
    requires start <= p.n && Trailing(v[..], start)
    modifies v
    ensures ok <==> |stack| + |Letter(p, old(v[..]), g).stack| < limit
    ensures ok ==> |stack| <= |s| && s[..|stack|] == stack && Letter(p, old(v[..]), g) == Config(v[..], s[|stack|..])
    ensures ok ==> g <= start' <= p.n && Trailing(v[..], start')
  {
    ghost var v0 := v[..];
    start' := start;
    var i := Blocking(p, v, g, start);
    v[g] := v[g] + 1;
    ghost var v1 := v[..];
    if g < i || (p.ro[g] <= v[g] && p.Power(g) != []) {
      PushesSame(p, v0, v1, g, g, p.avc[g]);
      ok, s := StackUp(p, v, g, if g < i then i else g, stack, limit, v1);
      if !ok {
        return;
      }
      assert v[..] == Moved(p, v0, g);
      if g < i && start' <= p.avc[g] {
        start' := g;
      }
    } else {
      ok, s := true, stack;
    }
    if start' <= g {
      start' := g;
    }
  }

  /** What becomes of the vector when a letter g is moved into it step by step, and what is pushed. */
  ghost function Letter(p: Presentation, v: seq<int>, g: nat): Config
    requires p.WellFormed() && |v| == p.n + 1 && 1 <= g <= p.n
  {
    if Stacks(p, v, g) then Config(Moved(p, v, g), Pushes(p, v, g, g, p.avc[g])) else Config(v[g := v[g] + 1], [])
  }

  /** Checks that the exponent of g is not too big. */
  method ReduceEntry(p: Presentation, v: array<int>, g: nat, stack: seq<Frame>, limit: nat)
      returns (ok: bool, s: seq<Frame>)
    requires p.WellFormed() && v.Length == p.n + 1 && 1 <= g <= p.n && v[g] >= 0 && |stack| < limit
    modifies v
    ensures ok <==> |Reduce(p, Config(old(v[..]), stack), g).stack| < limit
    ensures ok ==> Config(v[..], s) == Reduce(p, Config(old(v[..]), stack), g)
  {
    ok, s := true, stack;
    ghost var v0 := v[..];
    QuoRem(v[g], p.ro[g]);
    if p.ro[g] <= v[g] {
      var i := v[g] / p.ro[g];
      TimesIs(i, p.ro[g]);
      v[g] := v[g] - i * p.ro[g];
      if p.Power(g) != [] {
        if |stack| + 1 == limit {
          return false, stack;
        }
        s := stack + [Pushed(p.Power(g), i)];
      }
    } else {
      assert v0[g := Rem(v0[g], p.ro[g])] == v0;
    }
  }

  /** The state of the collector at the head of its loop. */
  ghost predicate Running(p: Presentation, v: seq<int>, stack: seq<Frame>, start: nat, limit: nat)
    requires p.WellFormed()
  {
    Fine(p, Config(v, stack)) && |stack| < limit && start <= p.n && Trailing(v, start)
  }

  /** The stack with a new frame on top. */
  function Replaced(stack: seq<Frame>, f: Frame): seq<Frame>
    requires stack != []
  {
    stack[..|stack| - 1] + [f]
  }

  /** Handles a negative exponent. */
  method StepNegative(p: Presentation, stack: seq<Frame>, limit: nat, ghost c: Config) returns (ok: bool, s: seq<Frame>)
    requires p.WellFormed() && Fine(p, c) && c.stack == stack && stack != [] && stack[|stack| - 1].ew < 0 &&
             |stack| < limit
    ensures ok <==> |StepOf(p, c).stack| < limit
    ensures ok ==> StepOf(p, c) == Config(c.v, s)
  {
    var f := stack[|stack| - 1];
    s := stack[..|stack| - 1] + [f.(ew := 0)];
    assert AfterNegative(p, c, f).stack == s + [Pushed(p.inv[f.Gen()], -f.ew)];
    if |s| + 1 == limit {
      return false, s;
    }
    s := s + [Pushed(p.inv[f.Gen()], -f.ew)];
    ok := true;
  }

  /** Goes on in the word on top of the stack, or to the word below it. */
  method StepNext(p: Presentation, stack: seq<Frame>, ghost c: Config) returns (s: seq<Frame>)
    requires p.WellFormed() && Fine(p, c) && c.stack == stack && stack != [] && stack[|stack| - 1].ew == 0
    ensures StepOf(p, c) == Config(c.v, s) && |s| <= |stack|
  {
    var f := stack[|stack| - 1];
    s := stack[..|stack| - 1];
    if f.pos == |f.word| - 1 {
      if 1 < f.ge {
        s := s + [Frame(f.word, 0, f.word[0].exp, f.ge - 1)];
      }
    } else {
      s := s + [Frame(f.word, f.pos + 1, f.word[f.pos + 1].exp, f.ge)];
    }
    assert s == WithTop(c, c.v, Next(f)).stack;
  }

  lemma {:induction false} ReduceTrails(p: Presentation, c: Config, g: nat, start: nat)
    requires p.WellFormed() && |c.v| == p.n + 1 && 1 <= g <= p.n && c.v[g] >= 0 && g <= start && Trailing(c.v, start)
    ensures Trailing(Reduce(p, c, g).v, start) && |Reduce(p, c, g).stack| >= |c.stack|
  {
  }

  /** A letter that has been placed is what the step does before it reduces. */
  lemma {:induction false} LetterGiven(p: Presentation, c: Config, f: Frame)
    requires p.WellFormed() && Fine(p, c) && Top(p, c, f) && f.ew > 0 && f.Valid(p) && p.avc[f.Gen()] != f.Gen()
    ensures var r := Letter(p, c.v, f.Gen());
            Given(p, c, f) == Config(r.v, Replaced(c.stack, f.(ew := f.ew - 1)) + r.stack)
  {
    var g, f' := f.Gen(), f.(ew := f.ew - 1);
    if Stacks(p, c.v, g) {
      assert Below(c) + ([f'] + Pushes(p, c.v, g, g, p.avc[g])) == Replaced(c.stack, f') + Pushes(p, c.v, g, g,
              p.avc[g]);
    } else {
      assert Replaced(c.stack, f') + [] == Below(c) + [f'];
    }
  }

  /** Gives the vector one letter of a generator that has to be moved step by step. */
  method GiveLetter(p: Presentation, v: array<int>, stack: seq<Frame>, start: nat, limit: nat)
      returns (ok: bool, s: seq<Frame>, start': nat)
    requires p.WellFormed() && v.Length == p.n + 1 && Running(p, v[..], stack, start, limit) && Giving(p, v[..], stack)
    requires p.avc[stack[|stack| - 1].Gen()] != stack[|stack| - 1].Gen()
    modifies v
    ensures ok <==> |Given(p, Config(old(v[..]), stack), stack[|stack| - 1]).stack| < limit
    ensures ok ==> Config(v[..], s) == Given(p, Config(old(v[..]), stack), stack[|stack| - 1])
    ensures ok ==> stack[|stack| - 1].Gen() <= start' <= p.n && Trailing(v[..], start')
  {
    var f := stack[|stack| - 1];
    ghost var c := Config(v[..], stack);
    LetterGiven(p, c, f);
    var s1 := Replaced(stack, f.(ew := f.ew - 1));
    ok, s, start' := Place(p, v, f.Gen(), start, s1, limit);
    if ok {
      assert s == s1 + s[|s1|..];
    }
  }

  /** The top frame has something to give. */
  ghost predicate Giving(p: Presentation, v: seq<int>, stack: seq<Frame>)
  {
    stack != [] && Top(p, Config(v, stack), stack[|stack| - 1]) && stack[|stack| - 1].ew > 0 &&
        stack[|stack| - 1].Valid(p)
  }

  /** Gives the vector a syllable whose generator commutes with all later ones. */
  method GiveSyllable(p: Presentation, v: array<int>, stack: seq<Frame>, start: nat, limit: nat)
      returns (s: seq<Frame>, start': nat)
    requires p.WellFormed() && v.Length == p.n + 1 && Running(p, v[..], stack, start, limit) && Giving(p, v[..], stack)
    requires p.avc[stack[|stack| - 1].Gen()] == stack[|stack| - 1].Gen()
    modifies v
    ensures Config(v[..], s) == Given(p, Config(old(v[..]), stack), stack[|stack| - 1]) && |s| == |stack|
    ensures stack[|stack| - 1].Gen() <= start' <= p.n && Trailing(v[..], start')
  {
    var f := stack[|stack| - 1];
    var g := f.Gen();
    ghost var c := Config(v[..], stack);
    v[g] := v[g] + f.ew;
    s := Replaced(stack, f.(ew := 0));
    start' := if start <= g then g else start;
    assert Config(v[..], s) == AfterDirect(p, c, f);
  }

  /** Moves the next generator to its place and checks that its exponent is not too big. */
  method StepGive(p: Presentation, v: array<int>, stack: seq<Frame>, start: nat, limit: nat)
      returns (ok: bool, s: seq<Frame>, start': nat)
    requires p.WellFormed() && v.Length == p.n + 1 && Running(p, v[..], stack, start, limit) && Giving(p, v[..], stack)
    modifies v
    ensures ok <==> |StepOf(p, Config(old(v[..]), stack)).stack| < limit
    ensures ok ==> StepOf(p, Config(old(v[..]), stack)) == Config(v[..], s) && start' <= p.n && Trailing(v[..], start')
  {
    var f := stack[|stack| - 1];
    ghost var c := Config(v[..], stack);
    ghost var c1 := Given(p, c, f);
    ok := true;
    if p.avc[f.Gen()] == f.Gen() {
      s, start' := GiveSyllable(p, v, stack, start, limit);
    } else {
      ok, s, start' := GiveLetter(p, v, stack, start, limit);
    }
    assert |Reduce(p, c1, f.Gen()).stack| >= |c1.stack|;
    if ok {
      ReduceTrails(p, c1, f.Gen(), start');
      ok, s := ReduceEntry(p, v, f.Gen(), s, limit);
    }
  }

  /** One step; it fails if the stack would reach its limit. */
  method OneStep(p: Presentation, v: array<int>, stack: seq<Frame>, start: nat, limit: nat)
      returns (ok: bool, s: seq<Frame>, start': nat)
    requires p.WellFormed() && v.Length == p.n + 1 && Running(p, v[..], stack, start, limit) && stack != []
    modifies v
    ensures ok <==> |StepOf(p, Config(old(v[..]), stack)).stack| < limit
    ensures ok ==> StepOf(p, Config(old(v[..]), stack)) == Config(v[..], s) && start' <= p.n && Trailing(v[..], start')
  {
    ghost var c := Config(v[..], stack);
    start' := start;
    if stack[|stack| - 1].ew < 0 {
      ok, s := StepNegative(p, stack, limit, c);
    } else if stack[|stack| - 1].ew == 0 {
      ok := true;
      s := StepNext(p, stack, c);
    } else {
      ok, s, start' := StepGive(p, v, stack, start, limit);
    }
  }

  // ----- collecting a word

  /** The run from c leads on to c' as far as the limit of the stack allows. */
  ghost predicate LeadsTo(p: Presentation, c: Config, c': Config, limit: nat)
    requires p.WellFormed() && Fine(p, c) && Fine(p, c')
  {
    Result(p, c) == Result(p, c') && (Depth(p, c) < limit <==> Depth(p, c') < limit)
  }

  lemma {:induction false} LeadsOn(p: Presentation, c: Config, c': Config, limit: nat)
    requires p.WellFormed() && Fine(p, c) && Fine(p, c') && LeadsTo(p, c, c', limit) && c'.stack != [] &&
             |c'.stack| < limit
    ensures Fine(p, StepOf(p, c')) && LeadsTo(p, c, StepOf(p, c'), limit) &&
            Lower(p, Scale(p), c'.stack, StepOf(p, c').stack)
  {
    StepLower(p, Scale(p), c');
  }

  /** Runs until the stack is empty, or too deep. */
  method Run(p: Presentation, v: array<int>, w: Word, limit: nat) returns (ok: bool, start: nat)
    requires v.Length == p.n + 1 && Collectable(p, v[..], w) && w != [] && limit >= 1
    modifies v
    ensures ok <==> DepthFor(p, old(v[..]), w) < limit
    ensures ok ==> v[..] == Collect(p, old(v[..]), w) && start <= p.n && Trailing(v[..], start)
  {
    start := p.n;
    ghost var c0 := Begin(p, v[..], w);
    CollectIs(p, v[..], w);
    if limit == 1 {
      return false, start;
    }
    var stack := [Pushed(w, 1)];
    while stack != []
      invariant Running(p, v[..], stack, start, limit) && LeadsTo(p, c0, Config(v[..], stack), limit)
      decreases Weight(p, Scale(p), stack), AheadOf(p, stack)
    {
      LeadsOn(p, c0, Config(v[..], stack), limit);
      ok, stack, start := OneStep(p, v, stack, start, limit);
      if !ok {
        return;
      }
    }
    ok := true;
  }

  /** The limit for the depth of the stack, and the size of the memory allocated for it. */
  datatype Size = Size(max: nat, room: nat)
  {
    /** Collections that need this depth fail. */
    predicate Fails(depth: nat)
    {
      depth > 0 && (room < max + 2 || max <= depth)
    }

    /** After a failure there is more room. */
    function Grown(): Size
    {
      if room < max + 2 then Size(max, max + 2) else Size(2 * max, room)
    }

    /** How often collections that need at most this depth can still fail. */
    ghost function Tries(bound: nat): nat
    {
      (if max <= bound then 2 * (bound + 1 - max) else 0) + (if room < max + 2 then 1 else 0)
    }
  }

  lemma {:induction false} GrownTries(s: Size, d: nat, b: nat)
    requires s.max >= 1 && s.Fails(d) && d <= b
    ensures s.Grown().Tries(b) < s.Tries(b)
  {
  }

  class Collector {
    var max: nat    // the limit for the depth of the stack
    var room: nat   // the size of the memory allocated for it

    constructor ()
      ensures Sizes() == Size(256, 258)
    {
      max, room := 256, 256 + 2;
    }

    ghost function Sizes(): Size
      reads this
    {
      Size(max, room)
    }

    /**
      Multiplies w into the vector. The result is -1 if and only if the stack was too small; it is enlarged for the next
      attempt. Otherwise all entries above the result are zero.
     */
    method CollectWord(p: Presentation, v: array<int>, w: Word) returns (start: int)
      requires v.Length == p.n + 1 && Collectable(p, v[..], w) && max >= 1
      modifies this, v
      ensures start >= -1 && (start == -1 <==> old(Sizes()).Fails(DepthFor(p, old(v[..]), w)))
      ensures Sizes() == if start == -1 then old(Sizes()).Grown() else old(Sizes())
      ensures start != -1 ==> start <= p.n && Trailing(v[..], start) && v[..] == Collect(p, old(v[..]), w)
    {
      if |w| == 0 {
        return p.n;
      }
      if room < max + 2 {
        room := max + 2;
        return -1;
      }
      var ok;
      ok, start := Run(p, v, w, max);
      if !ok {
        max := max * 2;
        return -1;
      }
    }
  }
}
