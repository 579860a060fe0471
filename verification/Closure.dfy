/**
  When all consequences have been drawn: whatever a relator can say about the table it has said,
  or it runs through an entry whose deduction is still on the list.
 */
module Closure {
  import opened CosetTable
  import opened Coincidence
  import opened Tracing
  import opened Rotations
  import opened RelatorLoops
  import opened Deductions

  // ----- relators as words

  ghost predicate Readable(w: Relator)
  {
    w.len >= 0 && w.start >= 0 && w.start + 2 * w.len - 1 <= |w.nums|
  }

  /** The letters of a relator. */
  ghost function Word(w: Relator): (v: seq<int>)
    ensures Readable(w) ==> |v| == w.len && forall k :: 0 <= k < w.len ==> v[k] == w.nums[w.start + 2 * k]
  {
    if Readable(w) then seq(w.len, k requires 0 <= k < w.len => w.nums[w.start + 2 * k]) else []
  }

  lemma {:induction false} WordLetters(t: Table, w: Relator)
    requires Laid(t.ref, w)
    ensures Letters(t, Word(w))
  {
    forall k | 0 <= k < w.len
      ensures 1 <= Word(w)[k] < |t.ref|
    {
      assert LetterAt(t.ref, w, k);
    }
  }

  /** The points that a walk passes through. */
  lemma {:induction false} WalkPoints(t: Table, w: Relator, c: int, i: nat, j: nat, d: int) returns (ps: seq<int>)
    requires Shape(t) && Readable(w) && i <= j <= w.len && Walk(t, w, c, i, j, d)
    ensures |ps| == w.len + 1 && ps[i] == c && ps[j] == d && forall k {:trigger Leg(t, Word(w), ps, k)} ::
            i <= k < j ==> Leg(t, Word(w), ps, k)
    decreases j - i
  {
    if i == j {
      ps := seq(w.len + 1, k => c);
    } else {
      var q := At(t, w.nums[w.start + 2 * i], c);
      var qs := WalkPoints(t, w, q, i + 1, j, d);
      ps := qs[i := c];
      forall k: nat | i <= k < j
        ensures Leg(t, Word(w), ps, k)
      {
        assert k > i ==> Leg(t, Word(w), qs, k);
      }
    }
  }

  /** A relator that has been traced from c to c leaves no loop from c open. */
  lemma {:induction false} TracedSettled(t: Table, w: Relator, c: int, s: seq<(int, int)>)
    requires Sound(t) && Laid(t.ref, w) && 1 <= c <= t.n && Walk(t, w, c, 0, w.len, c)
    ensures Settled(t, s, Word(w), c)
  {
    var fs := WalkPoints(t, w, c, 0, w.len, c);
    var v := Word(w);
    forall ps, i: nat | Loop(t, v, ps, i) && ps[0] == c
      ensures Step(t, v, ps, i)
    {
      TracedCloses(t, v, fs, ps, i);
    }
  }

  /** Neither does one that lacks two letters. */
  lemma {:induction false} GapSettled(t: Table, w: Relator, c: int, x: nat, lc: int, y: nat, rc: int,
                                      s: seq<(int, int)>)
    requires Sound(t) && Laid(t.ref, w) && 1 <= c <= t.n && x + 2 <= y <= w.len && 1 <= lc <= t.n && 1 <= rc <= t.n
    requires Walk(t, w, c, 0, x, lc) && Walk(t, w, rc, y, w.len, c)
    requires !Defined(t, w.nums[w.start + 2 * x], lc) && !Defined(t, w.nums[w.start + 2 * y - 3], rc)
    ensures Settled(t, s, Word(w), c)
  {
    var v := Word(w);
    WordLetters(t, w);
    var fs := WalkPoints(t, w, c, 0, x, lc);
    var bs := WalkPoints(t, w, rc, y, w.len, c);
    assert LetterAt(t.ref, w, y - 1) && v[y - 1] == w.nums[w.start + 2 * (y - 1)];
    assert w.start + 2 * (y - 1) - 1 == w.start + 2 * y - 3;
    forall ps, i: nat | |ps| == |v| && ps[0] == c
      ensures !Loop(t, v, ps, i)
    {
      WideGap(t, v, fs, x, bs, y, ps, i);
    }
  }

  lemma {:induction false} LoopStart(t: Table, w: seq<int>, ps: seq<int>, i: nat, live: set<int>)
    requires Sound(t) && Loop(t, w, ps, i) && (forall g, p :: Defined(t, g, p) ==> p in live)
    ensures ps[0] in live
  {
    if i != 0 {
      assert Step(t, w, ps, 0);
    }
    LoopEnds(t, w, ps, i, live);
  }

  /** A coset without entries has no loops. */
  lemma {:induction false} DeadSettled(t: Table, w: seq<int>, c: int, live: set<int>, s: seq<(int, int)>)
    requires Sound(t) && (forall g, p :: Defined(t, g, p) ==> p in live) && c !in live
    ensures Settled(t, s, w, c)
  {
    forall ps, i: nat | |ps| == |w| && w != [] && ps[0] == c
      ensures !Loop(t, w, ps, i)
    {
      if Loop(t, w, ps, i) {
        LoopStart(t, w, ps, i, live);
      }
    }
  }

  lemma {:induction false} SettledMore(t: Table, s: seq<(int, int)>, s': seq<(int, int)>, w: seq<int>, c: int)
    requires Settled(t, s, w, c) && Among(s, s')
    ensures Settled(t, s', w, c)
  {
    forall ps, i: nat | Loop(t, w, ps, i) && ps[0] == c
      ensures Step(t, w, ps, i) || Hit(t, s', w, ps, i)
    {
      if !Step(t, w, ps, i) {
        var k :| 0 <= k < |w| && (k != i || |w| == 1) && Waiting(t, s, w[k], ps[k]);
        assert Waiting(t, s', w[k], ps[k]);
      }
    }
  }

  // ----- loops backwards

  ghost function InvWord(w: seq<int>): (v: seq<int>)
    ensures |v| == |w| && forall k {:trigger v[k]} :: 0 <= k < |w| ==> v[k] == Inv(w[|w| - 1 - k])
  {
    seq(|w|, k requires 0 <= k < |w| => Inv(w[|w| - 1 - k]))
  }

  ghost function BackPoints(ps: seq<int>): (qs: seq<int>)
    ensures |qs| == |ps| && forall k {:trigger qs[k]} :: 0 <= k < |ps| ==> qs[k] == Point(ps, |ps| - k)
  {
    seq(|ps|, k requires 0 <= k < |ps| => Point(ps, |ps| - k))
  }

  lemma {:induction false} StepBack(t: Table, w: seq<int>, ps: seq<int>, k: nat)
    requires Sound(t) && Letters(t, w) && |ps| == |w| && k < |w|
    ensures Step(t, InvWord(w), BackPoints(ps), |w| - 1 - k) <==> Step(t, w, ps, k)
  {
    var v, qs, r := InvWord(w), BackPoints(ps), |w| - 1 - k;
    assert v[r] == Inv(w[k]) && qs[r] == Point(ps, k + 1);
    assert Point(qs, r + 1) == ps[k] by {
      if r + 1 < |qs| {
        assert qs[r + 1] == Point(ps, k);
      } else {
        assert qs[0] == Point(ps, |ps|);
      }
    }
    EdgeBack(t, w[k], ps[k], Point(ps, k + 1));
  }

  lemma {:induction false} LoopBack(t: Table, w: seq<int>, ps: seq<int>, i: nat)
    requires Sound(t) && Letters(t, w) && Loop(t, w, ps, i) && |w| >= 2
    ensures Loop(t, InvWord(w), BackPoints(ps), |w| - 1 - i)
  {
    var n := |w|;
    var v, qs := InvWord(w), BackPoints(ps);
    forall r: nat | r < n && r != n - 1 - i
      ensures Step(t, v, qs, r)
    {
      assert Step(t, w, ps, n - 1 - r);
      StepBack(t, w, ps, n - 1 - r);
    }
    InvFacts(t, w[i]);
    var j := n - 1 - i;
    assert v[j] == Inv(w[i]) && qs[j] == Point(ps, i + 1);
    assert Point(qs, j + 1) == ps[i] by {
      if j + 1 < n {
        assert qs[j + 1] == Point(ps, i);
      } else {
        assert qs[0] == Point(ps, n);
      }
    }
  }

  lemma {:induction false} WaitingBack(t: Table, s: seq<(int, int)>, g: int, p: int, q: int)
    requires Sound(t) && 1 <= g < |t.ref| && Edge(t, g, p, q) && Waiting(t, s, Inv(g), q)
    ensures Waiting(t, s, g, p)
  {
    InvFacts(t, g);
    EdgeBack(t, g, p, q);
  }

  lemma {:induction false} HitBack(t: Table, s: seq<(int, int)>, w: seq<int>, ps: seq<int>, i: nat)
    requires Sound(t) && Letters(t, w) && Loop(t, w, ps, i) && |w| >= 2 &&
             Hit(t, s, InvWord(w), BackPoints(ps), |w| - 1 - i)
    ensures Hit(t, s, w, ps, i)
  {
    var n := |w|;
    var v, qs := InvWord(w), BackPoints(ps);
    var r: nat :| r < n && r != n - 1 - i && Waiting(t, s, v[r], qs[r]);
    HitBackAt(t, s, w, ps, i, n - 1 - r);
  }

  lemma {:induction false} HitBackAt(t: Table, s: seq<(int, int)>, w: seq<int>, ps: seq<int>, i: nat, k: nat)
    requires Sound(t) && Letters(t, w) && Loop(t, w, ps, i) && k < |w| && k != i
    requires Waiting(t, s, InvWord(w)[|w| - 1 - k], BackPoints(ps)[|w| - 1 - k])
    ensures Hit(t, s, w, ps, i)
  {
    assert Step(t, w, ps, k);
    WaitingBack(t, s, w[k], ps[k], Point(ps, k + 1));
  }

  // ----- working off a deduction

  /**
    The lists hold all rotations of their words and of the inverses, each with its first letter; slots that refer
    to one column have one list.
   */
  ghost predicate Full(t: Table, words: seq<seq<seq<int>>>)
  {
    Joint(t.ref, words) && forall x, m {:trigger words[x][m]} :: 1 <= x < |words| && 0 <= m < |words[x]| ==>
      Turns(words, words[x][m]) && Turns(words, InvWord(words[x][m]))
  }

  ghost predicate Turns(words: seq<seq<seq<int>>>, w: seq<int>)
  {
    forall k {:trigger HasRotation(words, w, k)} :: 0 <= k < |w| ==> HasRotation(words, w, k)
  }

  /** All words are words in the slots, of two letters at least. */
  ghost predicate Proper(t: Table, words: seq<seq<seq<int>>>)
  {
    |words| == |t.ref| && forall x, m {:trigger words[x][m]} :: 1 <= x < |words| && 0 <= m < |words[x]| ==>
        Letters(t, words[x][m]) && |words[x][m]| >= 2
  }

  lemma {:induction false} TurnBackSettled(t: Table, s: seq<(int, int)>, words: seq<seq<seq<int>>>, g: int, c: int,
                                           w: seq<int>, ps: seq<int>, i: nat, k: nat)
    requires Sound(t) && Letters(t, w) && |w| >= 2 && Loop(t, w, ps, i) && k < |w| && Inv(w[k]) == g &&
             Point(ps, k + 1) == c && Turns(words, InvWord(w))
    requires 0 <= g < |words| && SettledList(t, s, words[g], |words[g]|, c)
    ensures Step(t, w, ps, i) || Hit(t, s, w, ps, i)
  {
    var v, qs, r := InvWord(w), BackPoints(ps), |w| - 1 - k;
    LoopBack(t, w, ps, i);
    assert v[r] == g && qs[r] == c;
    assert HasRotation(words, v, r);
    TurnSettled(t, s, words, v, qs, |w| - 1 - i, r);
    if Step(t, v, qs, |w| - 1 - i) {
      StepBack(t, w, ps, i);
    } else {
      HitBack(t, s, w, ps, i);
    }
  }

  /** The one deduction that an entry waits for names one of its ends. */
  lemma {:induction false} NamedBy(t: Table, s: seq<(int, int)>, g: int, c: int, h: int, p: int)
    requires Sound(t) && 1 <= g < |t.ref| && Waiting(t, [(g, c)] + s, h, p) && !Waiting(t, s, h, p)
    ensures (p == c && (h == g || (h == Inv(g) && Shared(t.ref, g)))) ||
            (At(t, h, p) == c && (Inv(h) == g || (Inv(h) == Inv(g) && Shared(t.ref, g))))
  {
    InvFacts(t, g);
    InvFacts(t, h);
  }

  lemma {:induction false} WorkedOffLoop(t: Table, s: seq<(int, int)>, words: seq<seq<seq<int>>>, g: int, c: int,
                                         x: int, m: int, ps: seq<int>, i: nat)
    requires Sound(t) && Proper(t, words) && Full(t, words) && 1 <= g < |words|
    requires Defined(t, g, c) ==> SettledList(t, s, words[g], |words[g]|, c)
    requires 1 <= x < |words| && 0 <= m < |words[x]| && Loop(t, words[x][m], ps, i) &&
             Hit(t, [(g, c)] + s, words[x][m], ps, i)
    ensures Step(t, words[x][m], ps, i) || Hit(t, s, words[x][m], ps, i)
  {
    var w := words[x][m];
    var k: nat :| k < |w| && (k != i || |w| == 1) && Waiting(t, [(g, c)] + s, w[k], ps[k]);
    if !Waiting(t, s, w[k], ps[k]) {
      assert Step(t, w, ps, k);
      EdgeBack(t, w[k], ps[k], Point(ps, k + 1));
      NamedBy(t, s, g, c, w[k], ps[k]);
      if ps[k] == c && (w[k] == g || (w[k] == Inv(g) && Shared(t.ref, g))) {
        assert HasRotation(words, w, k);
        TurnSettled(t, s, words, w, ps, i, k);
      } else {
        TurnBackSettled(t, s, words, Inv(w[k]), c, w, ps, i, k);
      }
    }
  }

  /** Once the relators that start with an entry are settled there, nothing waits for it any longer. */
  lemma {:induction false} WorkedOff(t: Table, s: seq<(int, int)>, words: seq<seq<seq<int>>>, g: int, c: int)
    requires Sound(t) && Proper(t, words) && Full(t, words) && 1 <= g < |words|
    requires Defined(t, g, c) ==> SettledList(t, s, words[g], |words[g]|, c)
    requires Awaits(t, [(g, c)] + s, words)
    ensures Awaits(t, s, words)
  {
    forall x, m, d | 1 <= x < |words| && 0 <= m < |words[x]|
      ensures Settled(t, s, words[x][m], d)
    {
      assert Settled(t, [(g, c)] + s, words[x][m], d);
      forall ps, i: nat | Loop(t, words[x][m], ps, i) && ps[0] == d
        ensures Step(t, words[x][m], ps, i) || Hit(t, s, words[x][m], ps, i)
      {
        if !Step(t, words[x][m], ps, i) {
          WorkedOffLoop(t, s, words, g, c, x, m, ps, i);
        }
      }
    }
  }

  // ----- states one after the other

  /** The table, the deductions, the cosets in use and their number. */
  datatype Snap = Snap(t: Table, pl: Pushes, open: set<int>, live: nat)

  /** What the deduction list may have to hold. */
  ghost function Budget(s: Snap): nat
    requires Shape(s.t)
  {
    Demand(s.t, s.pl) + Cost(|s.t.ref| - 1, s.live)
  }

  /** If there was room enough, no deduction has been lost, and there still is room enough. */
  ghost predicate Thrifty(a: Snap, b: Snap)
  {
    Fits(a) ==> b.pl.lost == a.pl.lost && Fits(b)
  }

  ghost predicate Fits(s: Snap)
  {
    Shape(s.t) && Budget(s) <= DED_SIZE
  }

  lemma {:induction false} SpendsThrifty(a: Snap, b: Snap, k: nat)
    requires SpendsFor(a.t, a.pl, b.t, b.pl, k) && b.live + k == a.live && a.t.ref == b.t.ref
    ensures Thrifty(a, b)
  {
    CostSum(|a.t.ref| - 1, b.live, k);
  }

  /** Only what has been marked has changed. */
  lemma {:induction false} ThriftySame(a: Snap, b: Snap)
    requires Shape(a.t) && Shape(b.t) && SameFrame(a.t, b.t) && SamePositive(a.t, b.t) && a.live == b.live
    requires a.pl.list == b.pl.list && a.pl.lost == b.pl.lost
    ensures Thrifty(a, b)
  {
    UndefinedSame(a.t, b.t);
  }

  lemma {:induction false} ThriftyTrans(a: Snap, b: Snap, c: Snap)
    requires Thrifty(a, b) && Thrifty(b, c)
    ensures Thrifty(a, c)
  {
  }

  /** From a to b, entries and deductions go together. */
  ghost predicate Onward(a: Snap, b: Snap)
  {
    Carries(a.t, a.pl.added, b.t, b.pl.added, b.open) && b.open <= a.open && Grew(a.pl, b.pl) && Thrifty(a, b)
  }

  lemma {:induction false} OnwardTrans(a: Snap, b: Snap, c: Snap)
    requires Onward(a, b) && Onward(b, c)
    ensures Onward(a, c)
  {
    CarriesTrans(a.t, a.pl.added, b.t, b.pl.added, b.open, c.t, c.pl.added, c.open);
    ThriftyTrans(a, b, c);
  }

  lemma {:induction false} OnwardNone(a: Snap)
    requires Sound(a.t) && RowsIn(a.t, a.open)
    ensures Onward(a, a)
  {
  }

  lemma {:induction false} SettledListOnward(a: Snap, b: Snap, list: seq<seq<int>>, l: nat, c: int)
    requires Onward(a, b) && l <= |list| && SettledList(a.t, a.pl.added, list, l, c)
    ensures SettledList(b.t, b.pl.added, list, l, c)
  {
    SettledListCarried(a.t, a.pl.added, b.t, b.pl.added, b.open, list, l, c);
  }

  lemma {:induction false} SettledListExtended(t: Table, s: seq<(int, int)>, list: seq<seq<int>>, l: nat, c: int)
    requires l < |list| && SettledList(t, s, list, l, c) && Settled(t, [], list[l], c)
    ensures SettledList(t, s, list, l + 1, c)
  {
    SettledMore(t, [], s, list[l], c);
  }

  /** With deductions p that were waiting before. */
  lemma {:induction false} CarriesBehind(t: Table, s: seq<(int, int)>, u: Table, s': seq<(int, int)>, live: set<int>,
                                         p: seq<(int, int)>)
    requires Carries(t, s, u, s', live)
    ensures Carries(t, p + s, u, p + s', live)
  {
    forall g, x | Defined(u, g, x) && !Edge(t, g, x, At(u, g, x))
      ensures Waiting(u, p + s', g, x)
    {
      assert Waiting(u, s', g, x);
    }
  }

  /**
    What waited for the deduction (g, c), those in p or those added no longer waits for the first when it has
    been worked off.
   */
  lemma {:induction false} DeductionDone(a: Snap, b: Snap, words: seq<seq<seq<int>>>, g: int, c: int,
                                         p: seq<(int, int)>)
    requires Onward(a, b) && a.pl.added == [] && Proper(a.t, words) && Full(a.t, words) && 1 <= g < |words|
    requires Defined(b.t, g, c) ==> SettledList(b.t, b.pl.added, words[g], |words[g]|, c)
    requires Awaits(a.t, [(g, c)] + p, words)
    ensures Awaits(b.t, p + b.pl.added, words)
  {
    var s, q := p + b.pl.added, [(g, c)] + p;
    CarriesBehind(a.t, [], b.t, b.pl.added, b.open, q);
    assert q + [] == q && q + b.pl.added == [(g, c)] + s;
    AwaitsCarried(a.t, q, b.t, [(g, c)] + s, b.open, words);
    if Defined(b.t, g, c) {
      forall m | 0 <= m < |words[g]|
        ensures Settled(b.t, s, words[g][m], c)
      {
        SettledMore(b.t, b.pl.added, s, words[g][m], c);
      }
    }
    WorkedOff(b.t, s, words, g, c);
  }
}
