/**
  Relators as loops through a table: what it means that the entries forced by the relators
  have all been made, and how this can be known from the entries that are still to be looked at.
 */
module RelatorLoops {
  import opened CosetTable
  import opened Tracing
  import opened Rotations

  ghost predicate Sound(t: Table)
  {
    Shape(t) && Consistent(t)
  }

  ghost predicate Letters(t: Table, w: seq<int>)
  {
    forall k :: 0 <= k < |w| ==> 1 <= w[k] < |t.ref|
  }

  ghost predicate Defined(t: Table, g: int, p: int)
    requires Shape(t)
  {
    Cell(t, g, p) && At(t, g, p) > 0
  }

  ghost predicate Missing(t: Table, g: int, p: int)
    requires Shape(t)
  {
    Cell(t, g, p) && At(t, g, p) <= 0
  }

  ghost predicate Edge(t: Table, g: int, p: int, q: int)
    requires Shape(t)
  {
    Defined(t, g, p) && At(t, g, p) == q
  }

  /** Edges can be followed backwards in the inverse column. */
  lemma {:induction false} EdgeBack(t: Table, g: int, p: int, q: int)
    requires Sound(t) && 1 <= g < |t.ref|
    ensures Edge(t, g, p, q) <==> Edge(t, Inv(g), q, p)
  {
    InvFacts(t, g);
    if Edge(t, g, p, q) {
      assert Paired(t, g, p);
    }
    if Edge(t, Inv(g), q, p) {
      assert Paired(t, Inv(g), q);
    }
  }

  lemma {:induction false} EdgeInjective(t: Table, g: int, p: int, p': int, q: int)
    requires Sound(t) && Edge(t, g, p, q) && Edge(t, g, p', q)
    ensures p == p'
  {
    EdgeBack(t, g, p, q);
    EdgeBack(t, g, p', q);
  }

  // ----- tables that extend each other

  /** All entries of t are entries of u. */
  ghost predicate Extends(t: Table, u: Table)
    requires Shape(t) && Shape(u)
  {
    SameFrame(t, u) && forall g, c {:trigger At(u, g, c)} :: Cell(t, g, c) && At(t, g, c) > 0 ==>
        At(u, g, c) == At(t, g, c)
  }

  lemma {:induction false} ExtendsEdge(t: Table, u: Table, g: int, p: int, q: int)
    requires Shape(t) && Shape(u) && Extends(t, u) && Edge(t, g, p, q)
    ensures Edge(u, g, p, q)
  {
    assert At(u, g, p) == At(t, g, p);
  }

  lemma {:induction false} ExtendsTrans(a: Table, b: Table, c: Table)
    requires Shape(a) && Shape(b) && Shape(c) && Extends(a, b) && Extends(b, c)
    ensures Extends(a, c)
  {
    forall g, x | Cell(a, g, x) && At(a, g, x) > 0
      ensures At(c, g, x) == At(a, g, x)
    {
      assert At(b, g, x) == At(a, g, x);
    }
  }

  lemma {:induction false} DeduceSound(t: Table, g: int, a: int, b: int)
    requires Sound(t) && Missing(t, g, a) && Missing(t, Inv(g), b)
    ensures var r := Deduce(t, g, a, b);
            Sound(r) && Extends(t, r) && Undefined(r) < Undefined(t) && Edge(r, g, a, b) && Edge(r, Inv(g), b, a)
  {
    InvFacts(t, g);
    DeduceConsistent(t, g, a, b);
    var r := Deduce(t, g, a, b);
    assert (g, a) in Undefined(t) && (g, a) !in Undefined(r);
    forall h, c | (h, c) in Undefined(r)
      ensures (h, c) in Undefined(t)
    {
      assert At(r, h, c) <= 0;
    }
  }

  /** A deduction stays within every table that has it. */
  lemma {:induction false} DeduceWithin(t: Table, u: Table, g: int, a: int, b: int)
    requires Sound(t) && Sound(u) && Extends(t, u) && Missing(t, g, a) && Missing(t, Inv(g), b) && Edge(u, g, a, b)
    ensures Extends(Deduce(t, g, a, b), u)
  {
    InvFacts(t, g);
    EdgeBack(u, g, a, b);
    var r := Deduce(t, g, a, b);
    forall h, c | Cell(r, h, c) && At(r, h, c) > 0
      ensures At(u, h, c) == At(r, h, c)
    {
    }
  }

  // ----- loops

  /** Point k of a loop; the loop ends where it starts. */
  function Point(ps: seq<int>, k: nat): int
    requires k <= |ps| && ps != []
  {
    if k == |ps| then ps[0] else ps[k]
  }

  /** Letter k of the word leads from point k to the next one. */
  ghost predicate Step(t: Table, w: seq<int>, ps: seq<int>, k: nat)
    requires Shape(t) && |ps| == |w| && k < |w|
  {
    Edge(t, w[k], ps[k], Point(ps, k + 1))
  }

  /** All letters of the word but letter i have been traced, and at least one letter has. */
  ghost predicate Loop(t: Table, w: seq<int>, ps: seq<int>, i: nat)
  {
    && Shape(t) && |ps| == |w| && i < |w| && Cell(t, w[i], ps[i]) && 1 <= Point(ps, i + 1) <= t.n
    && (|w| == 1 ==> Defined(t, w[i], ps[i]))
    && forall k {:trigger Step(t, w, ps, k)} :: 0 <= k < |w| && k != i ==> Step(t, w, ps, k)
  }

  /** Wherever all letters of the word but one can be traced, that one closes the loop. */
  ghost predicate Closes(t: Table, w: seq<int>)
  {
    forall ps, i {:trigger Loop(t, w, ps, i)} :: Loop(t, w, ps, i) ==> Step(t, w, ps, i)
  }

  ghost predicate Stable(t: Table, rels: seq<seq<seq<int>>>)
  {
    forall x, m {:trigger Closes(t, rels[x][m])} :: 1 <= x < |rels| && 0 <= m < |rels[x]| ==> Closes(t, rels[x][m])
  }

  lemma {:induction false} LoopExtends(t: Table, u: Table, w: seq<int>, ps: seq<int>, i: nat)
    requires Shape(t) && Shape(u) && Extends(t, u) && Loop(t, w, ps, i)
    ensures Loop(u, w, ps, i)
  {
    forall k: nat | k < |w| && k != i
      ensures Step(u, w, ps, k)
    {
      assert Step(t, w, ps, k);
      ExtendsEdge(t, u, w[k], ps[k], Point(ps, k + 1));
    }
    if |w| == 1 {
      ExtendsEdge(t, u, w[i], ps[i], At(t, w[i], ps[i]));
    }
  }

  // ----- entries that are still to be looked at

  /** Slot g and the slot of its inverse refer to one column. */
  ghost predicate Shared(ref: seq<nat>, g: int)
  {
    1 <= g < |ref| && 1 <= Inv(g) < |ref| && ref[g] == ref[Inv(g)]
  }

  /** The stack names this entry, by one of the slots of its column. */
  ghost predicate OnStack(ref: seq<nat>, s: seq<(int, int)>, g: int, p: int)
  {
    (g, p) in s || (Shared(ref, g) && (Inv(g), p) in s)
  }

  /** The entry of p in column g is on the stack, there or from its other end. */
  ghost predicate Waiting(t: Table, s: seq<(int, int)>, g: int, p: int)
    requires Shape(t)
  {
    Defined(t, g, p) && (OnStack(t.ref, s, g, p) || OnStack(t.ref, s, Inv(g), At(t, g, p)))
  }

  /** The loop has a letter whose entry is on the stack. */
  ghost predicate Hit(t: Table, s: seq<(int, int)>, w: seq<int>, ps: seq<int>, i: nat)
    requires Shape(t) && |ps| == |w|
  {
    exists k {:trigger ps[k]} :: 0 <= k < |w| && (k != i || |w| == 1) && Waiting(t, s, w[k], ps[k])
  }

  /** The loops of the word from coset c are closed, or wait for an entry on the stack. */
  ghost predicate Settled(t: Table, s: seq<(int, int)>, w: seq<int>, c: int)
  {
    forall ps, i {:trigger Loop(t, w, ps, i)} :: Loop(t, w, ps, i) && ps[0] == c ==>
      Step(t, w, ps, i) || Hit(t, s, w, ps, i)
  }

  ghost predicate Awaits(t: Table, s: seq<(int, int)>, rels: seq<seq<seq<int>>>)
  {
    forall x, m, c {:trigger Settled(t, s, rels[x][m], c)} :: 1 <= x < |rels| && 0 <= m < |rels[x]| ==>
        Settled(t, s, rels[x][m], c)
  }

  /** Stable tables are those that wait for nothing. */
  lemma {:induction false} StableAwaits(t: Table, rels: seq<seq<seq<int>>>)
    ensures Stable(t, rels) <==> Awaits(t, [], rels)
  {
    if Awaits(t, [], rels) {
      forall x, m | 1 <= x < |rels| && 0 <= m < |rels[x]|
        ensures Closes(t, rels[x][m])
      {
        var w := rels[x][m];
        forall ps, i | Loop(t, w, ps, i)
          ensures Step(t, w, ps, i)
        {
          assert Settled(t, [], rels[x][m], ps[0]);
        }
      }
    }
    if Stable(t, rels) {
      forall x, m, c | 1 <= x < |rels| && 0 <= m < |rels[x]|
        ensures Settled(t, [], rels[x][m], c)
      {
        assert Closes(t, rels[x][m]);
      }
    }
  }

  /** Slots that refer to one column have one list of relators. */
  ghost predicate Joint(ref: seq<nat>, rels: seq<seq<seq<int>>>)
  {
    forall g {:trigger Shared(ref, g)} :: Shared(ref, g) && g < |rels| && Inv(g) < |rels| ==> rels[Inv(g)] == rels[g]
  }

  /** New entries are on the stack. */
  ghost predicate Fresh(t: Table, u: Table, s: seq<(int, int)>)
    requires Shape(t) && Shape(u)
  {
    forall g, p {:trigger Waiting(u, s, g, p)} :: Defined(u, g, p) && !Edge(t, g, p, At(u, g, p)) ==>
        Waiting(u, s, g, p)
  }

  /** Only these cosets have entries, and the entries between them have been kept. */
  ghost predicate Lasting(t: Table, u: Table, live: set<int>)
    requires Shape(t) && Shape(u)
  {
    && (forall g, p {:trigger Defined(u, g, p)} :: Defined(u, g, p) ==> p in live)
    && (forall g, p {:trigger Defined(t, g, p)} :: Defined(t, g, p) && p in live && At(t, g, p) in live ==>
        Edge(u, g, p, At(t, g, p)))
  }

  /** What enters the table enters the stack, the stack grows, and only cosets that are no longer live lose entries. */
  ghost predicate Carries(t: Table, s: seq<(int, int)>, u: Table, s': seq<(int, int)>, live: set<int>)
  {
    && Shape(t) && Sound(u) && SameFrame(t, u) && (forall x :: x in s ==> x in s')
    && Fresh(t, u, s') && Lasting(t, u, live)
  }

  lemma {:induction false} WaitingKept(t: Table, s: seq<(int, int)>, u: Table, s': seq<(int, int)>, g: int, p: int)
    requires Shape(t) && Shape(u) && SameFrame(t, u) && (forall x :: x in s ==> x in s') && Waiting(t, s, g, p)
    requires Edge(u, g, p, At(t, g, p))
    ensures Waiting(u, s', g, p)
  {
  }

  lemma {:induction false} FreshTrans(t: Table, u: Table, s': seq<(int, int)>, v: Table, s'': seq<(int, int)>)
    requires Shape(t) && Shape(u) && Shape(v) && SameFrame(u, v) && Fresh(t, u, s') && Fresh(u, v, s'')
    requires forall x :: x in s' ==> x in s''
    ensures Fresh(t, v, s'')
  {
    forall g, p | Defined(v, g, p) && !Edge(t, g, p, At(v, g, p))
      ensures Waiting(v, s'', g, p)
    {
      if Edge(u, g, p, At(v, g, p)) {
        assert Waiting(u, s', g, p);
        WaitingKept(u, s', v, s'', g, p);
      }
    }
  }

  lemma {:induction false} CarriesTrans(t: Table, s: seq<(int, int)>, u: Table, s': seq<(int, int)>, live: set<int>,
                                        v: Table, s'': seq<(int, int)>, live': set<int>)
    requires Carries(t, s, u, s', live) && Carries(u, s', v, s'', live') && live' <= live
    ensures Carries(t, s, v, s'', live')
  {
    FreshTrans(t, u, s', v, s'');
    forall g, p | Defined(t, g, p) && p in live' && At(t, g, p) in live'
      ensures Edge(v, g, p, At(t, g, p))
    {
      assert Edge(u, g, p, At(t, g, p));
      assert Defined(u, g, p);
    }
  }

  /** The entries of a table that has been extended. */
  lemma {:induction false} ExtendsLasting(t: Table, u: Table, live: set<int>)
    requires Shape(t) && Shape(u) && Extends(t, u) && (forall g, p :: Defined(u, g, p) ==> p in live)
    ensures Lasting(t, u, live)
  {
    forall g, p | Defined(t, g, p)
      ensures Edge(u, g, p, At(t, g, p))
    {
      ExtendsEdge(t, u, g, p, At(t, g, p));
    }
  }

  lemma {:induction false} DeduceFresh(t: Table, s: seq<(int, int)>, g: int, a: int, b: int)
    requires Sound(t) && Missing(t, g, a) && Missing(t, Inv(g), b) && ((g, a) in s || (Inv(g), b) in s)
    ensures Fresh(t, Deduce(t, g, a, b), s)
  {
    InvFacts(t, g);
    DeduceSound(t, g, a, b);
    var u := Deduce(t, g, a, b);
    forall h, p | Defined(u, h, p) && !Edge(t, h, p, At(u, h, p))
      ensures Waiting(u, s, h, p)
    {
      InvFacts(t, h);
      assert ((h == g || (h == Inv(g) && Shared(t.ref, g))) && p == a) ||
             ((h == Inv(g) || (h == g && Shared(t.ref, g))) && p == b);
    }
  }

  lemma {:induction false} DeduceCarries(t: Table, s: seq<(int, int)>, g: int, a: int, b: int, s': seq<(int, int)>,
                                         live: set<int>)
    requires Sound(t) && Missing(t, g, a) && Missing(t, Inv(g), b) && a in live && b in live &&
             (forall h, p :: Defined(t, h, p) ==> p in live)
    requires (forall x :: x in s ==> x in s') && ((g, a) in s' || (Inv(g), b) in s')
    ensures Carries(t, s, Deduce(t, g, a, b), s', live)
  {
    InvFacts(t, g);
    DeduceSound(t, g, a, b);
    DeduceFresh(t, s', g, a, b);
    var u := Deduce(t, g, a, b);
    forall h, p | Defined(u, h, p)
      ensures p in live
    {
      assert Defined(t, h, p) || p == a || p == b;
    }
    ExtendsLasting(t, u, live);
  }

  /** The two cosets between which a loop is open have other entries. */
  lemma {:induction false} LoopEnds(t: Table, w: seq<int>, ps: seq<int>, i: nat, live: set<int>)
    requires Sound(t) && Loop(t, w, ps, i) && (forall g, p :: Defined(t, g, p) ==> p in live)
    ensures ps[i] in live && Point(ps, i + 1) in live
  {
    var n := |w|;
    if n > 1 {
      var b, a := if i == 0 then n - 1 else i - 1, if i + 1 == n then 0 else i + 1;
      assert Step(t, w, ps, b) && Step(t, w, ps, a);
      EdgeBack(t, w[b], ps[b], ps[i]);
      assert Defined(t, Inv(w[b]), ps[i]) && Defined(t, w[a], ps[a]);
    }
  }

  /** A settled word stays settled. */
  lemma {:induction false} SettledCarried(t: Table, s: seq<(int, int)>, u: Table, s': seq<(int, int)>, live: set<int>,
                                          w: seq<int>, c: int)
    requires Carries(t, s, u, s', live) && Settled(t, s, w, c)
    ensures Settled(u, s', w, c)
  {
    forall ps, i | Loop(u, w, ps, i) && ps[0] == c
      ensures Step(u, w, ps, i) || Hit(u, s', w, ps, i)
    {
      LoopCarried(t, s, u, s', live, w, ps, i);
    }
  }

  /** The first l relators of the list are settled at c. */
  ghost predicate SettledList(t: Table, s: seq<(int, int)>, list: seq<seq<int>>, l: nat, c: int)
    requires l <= |list|
  {
    forall m {:trigger list[m]} :: 0 <= m < l ==> Settled(t, s, list[m], c)
  }

  lemma {:induction false} SettledListCarried(t: Table, s: seq<(int, int)>, u: Table, s': seq<(int, int)>,
                                              live: set<int>,
                                              list: seq<seq<int>>, l: nat, c: int)
    requires Carries(t, s, u, s', live) && l <= |list| && SettledList(t, s, list, l, c)
    ensures SettledList(u, s', list, l, c)
  {
    forall m | 0 <= m < l
      ensures Settled(u, s', list[m], c)
    {
      SettledCarried(t, s, u, s', live, list[m], c);
    }
  }

  /** With a relator, the lists hold the word that starts with its letter k. */
  ghost predicate HasRotation(rels: seq<seq<seq<int>>>, w: seq<int>, k: nat)
    requires k < |w|
  {
    0 <= w[k] < |rels| && exists m :: 0 <= m < |rels[w[k]]| && rels[w[k]][m] == Rot(w, k)
  }

  lemma {:induction false} LoopCarried(t: Table, s: seq<(int, int)>, u: Table, s': seq<(int, int)>, live: set<int>,
                                       w: seq<int>, ps: seq<int>, i: nat)
    requires Carries(t, s, u, s', live) && Loop(u, w, ps, i) && Settled(t, s, w, ps[0])
    ensures Step(u, w, ps, i) || Hit(u, s', w, ps, i)
  {
    if k: nat :| k < |w| && (k != i || |w| == 1) && Waiting(u, s', w[k], ps[k]) {
    } else {
      forall k: nat | k < |w| && (k != i || |w| == 1)
        ensures Defined(u, w[k], ps[k]) && Edge(t, w[k], ps[k], At(u, w[k], ps[k]))
      {
        assert k != i ==> Step(u, w, ps, k);
        assert !Waiting(u, s', w[k], ps[k]);
      }
      forall k: nat | k < |w| && k != i
        ensures Step(t, w, ps, k)
      {
        assert Step(u, w, ps, k);
      }
      assert Loop(t, w, ps, i);
      if Step(t, w, ps, i) {
        LoopEnds(u, w, ps, i, live);
        assert Defined(t, w[i], ps[i]);
      } else {
        var k :| 0 <= k < |w| && (k != i || |w| == 1) && Waiting(t, s, w[k], ps[k]);
        WaitingKept(t, s, u, s', w[k], ps[k]);
      }
    }
  }

  lemma {:induction false} AwaitsCarried(t: Table, s: seq<(int, int)>, u: Table, s': seq<(int, int)>, live: set<int>,
                                         rels: seq<seq<seq<int>>>)
    requires Carries(t, s, u, s', live) && Awaits(t, s, rels)
    ensures Awaits(u, s', rels)
  {
    forall x, m, c | 1 <= x < |rels| && 0 <= m < |rels[x]|
      ensures Settled(u, s', rels[x][m], c)
    {
      assert Settled(t, s, rels[x][m], c);
      SettledCarried(t, s, u, s', live, rels[x][m], c);
    }
  }

  // ----- rotations

  /** Where letter i of a word is in the word that starts with letter k. */
  function Moved(i: nat, k: nat, n: nat): (r: nat)
    requires i < n && k < n
    ensures r < n && Wrap(k + r, n) == i
  {
    if i >= k then i - k else i + n - k
  }

  lemma {:induction false} PointRot(ps: seq<int>, k: nat, r: nat)
    requires k < |ps| && r < |ps|
    ensures Rot(ps, k)[r] == ps[Wrap(k + r, |ps|)] && Point(Rot(ps, k), r + 1) == Point(ps, Wrap(k + r, |ps|) + 1)
  {
    RotAt(ps, k, r);
    RotAt(ps, k, if r + 1 < |ps| then r + 1 else 0);
  }

  lemma {:induction false} StepRot(t: Table, w: seq<int>, ps: seq<int>, k: nat, r: nat)
    requires Shape(t) && |ps| == |w| && k < |w| && r < |w|
    ensures Step(t, Rot(w, k), Rot(ps, k), r) <==> Step(t, w, ps, Wrap(k + r, |w|))
  {
    PointRot(ps, k, r);
    RotAt(w, k, r);
  }

  /** Loops can be entered anywhere. */
  lemma {:induction false} LoopRot(t: Table, w: seq<int>, ps: seq<int>, i: nat, k: nat)
    requires Loop(t, w, ps, i) && k < |w|
    ensures Loop(t, Rot(w, k), Rot(ps, k), Moved(i, k, |w|)) && Rot(ps, k)[0] == ps[k]
  {
    var v, qs, j := Rot(w, k), Rot(ps, k), Moved(i, k, |w|);
    PointRot(ps, k, j);
    RotAt(w, k, j);
    RotAt(ps, k, 0);
    forall r: nat | r < |v| && r != j
      ensures Step(t, v, qs, r)
    {
      StepRot(t, w, ps, k, r);
      assert Wrap(k + r, |w|) != i;
    }
  }

  lemma {:induction false} HitRot(t: Table, s: seq<(int, int)>, w: seq<int>, ps: seq<int>, i: nat, k: nat)
    requires Loop(t, w, ps, i) && k < |w| && Hit(t, s, Rot(w, k), Rot(ps, k), Moved(i, k, |w|))
    ensures Hit(t, s, w, ps, i)
  {
    var v, qs, j := Rot(w, k), Rot(ps, k), Moved(i, k, |w|);
    var r: nat :| r < |v| && (r != j || |v| == 1) && Waiting(t, s, v[r], qs[r]);
    RotAt(w, k, r);
    RotAt(ps, k, r);
    var x := Wrap(k + r, |w|);
    assert Waiting(t, s, w[x], ps[x]);
  }

  /** A loop is settled if the loop entered at k is. */
  lemma {:induction false} SettledRot(t: Table, s: seq<(int, int)>, w: seq<int>, ps: seq<int>, i: nat, k: nat)
    requires Loop(t, w, ps, i) && k < |w| && Settled(t, s, Rot(w, k), ps[k])
    ensures Step(t, w, ps, i) || Hit(t, s, w, ps, i)
  {
    var v, qs, j := Rot(w, k), Rot(ps, k), Moved(i, k, |w|);
    LoopRot(t, w, ps, i, k);
    if Step(t, v, qs, j) {
      StepRot(t, w, ps, k, j);
    } else {
      HitRot(t, s, w, ps, i, k);
    }
  }

  /** A loop that a settled word turns into. */
  lemma {:induction false} TurnSettled(t: Table, s: seq<(int, int)>, rels: seq<seq<seq<int>>>, w: seq<int>,
                                       ps: seq<int>, i: nat, k: nat)
    requires Loop(t, w, ps, i) && k < |w| && HasRotation(rels, w, k)
    requires SettledList(t, s, rels[w[k]], |rels[w[k]]|, ps[k])
    ensures Step(t, w, ps, i) || Hit(t, s, w, ps, i)
  {
    var m :| 0 <= m < |rels[w[k]]| && rels[w[k]][m] == Rot(w, k);
    assert Settled(t, s, rels[w[k]][m], ps[k]);
    SettledRot(t, s, w, ps, i, k);
  }

  // ----- walks from a coset

  /** Letter k leads from point k to point k + 1. */
  ghost predicate Leg(t: Table, w: seq<int>, ps: seq<int>, k: nat)
    requires Shape(t) && |ps| == |w| + 1 && k < |w|
  {
    Edge(t, w[k], ps[k], ps[k + 1])
  }

  /** The letters before i lead from c through these points. */
  ghost predicate Ahead(t: Table, w: seq<int>, c: int, fs: seq<int>, i: nat)
  {
    && Shape(t) && |fs| == |w| + 1 && i <= |w| && fs[0] == c && 1 <= fs[i] <= t.n
    && forall k {:trigger Leg(t, w, fs, k)} :: 0 <= k < i ==> Leg(t, w, fs, k)
  }

  /** The letters from j on lead to c through these points. */
  ghost predicate Behind(t: Table, w: seq<int>, c: int, bs: seq<int>, j: nat)
  {
    && Shape(t) && |bs| == |w| + 1 && j <= |w| && bs[|w|] == c && 1 <= bs[j] <= t.n
    && forall k {:trigger Leg(t, w, bs, k)} :: j <= k < |w| ==> Leg(t, w, bs, k)
  }

  lemma {:induction false} AheadOn(t: Table, w: seq<int>, c: int, fs: seq<int>, i: nat, q: int)
    requires Sound(t) && Ahead(t, w, c, fs, i) && i < |w| && Edge(t, w[i], fs[i], q)
    ensures Ahead(t, w, c, fs[i + 1 := q], i + 1)
  {
    var gs := fs[i + 1 := q];
    EdgeBack(t, w[i], fs[i], q);
    forall k: nat | k < i + 1
      ensures Leg(t, w, gs, k)
    {
      assert k < i ==> Leg(t, w, fs, k);
    }
  }

  lemma {:induction false} BehindOn(t: Table, w: seq<int>, c: int, bs: seq<int>, j: nat, q: int)
    requires Sound(t) && Behind(t, w, c, bs, j) && 0 < j && Letters(t, w) && Edge(t, Inv(w[j - 1]), bs[j], q)
    ensures Behind(t, w, c, bs[j - 1 := q], j - 1)
  {
    var gs := bs[j - 1 := q];
    EdgeBack(t, w[j - 1], q, bs[j]);
    forall k: nat | j - 1 <= k < |w|
      ensures Leg(t, w, gs, k)
    {
      assert k >= j ==> Leg(t, w, bs, k);
    }
  }

  lemma {:induction false} AlongAhead(t: Table, w: seq<int>, ps: seq<int>, i: nat, fs: seq<int>, m: nat, k: nat)
    requires Loop(t, w, ps, i) && Ahead(t, w, ps[0], fs, m) && k <= m && k <= i
    ensures fs[k] == ps[k]
  {
    if k > 0 {
      AlongAhead(t, w, ps, i, fs, m, k - 1);
      assert Leg(t, w, fs, k - 1) && Step(t, w, ps, k - 1);
    }
  }

  lemma {:induction false} AlongBehind(t: Table, w: seq<int>, ps: seq<int>, i: nat, bs: seq<int>, j: nat, k: nat)
    requires Sound(t) && Loop(t, w, ps, i) && Behind(t, w, ps[0], bs, j) && i < k && j <= k <= |w|
    ensures bs[k] == Point(ps, k)
    decreases |w| - k
  {
    if k < |w| {
      AlongBehind(t, w, ps, i, bs, j, k + 1);
      assert Leg(t, w, bs, k) && Step(t, w, ps, k);
      EdgeInjective(t, w[k], bs[k], ps[k], bs[k + 1]);
    }
  }

  /** A word that leads back to c closes all loops from c. */
  lemma {:induction false} TracedCloses(t: Table, w: seq<int>, fs: seq<int>, ps: seq<int>, i: nat)
    requires Sound(t) && Loop(t, w, ps, i) && Ahead(t, w, ps[0], fs, |w|) && fs[|w|] == ps[0]
    ensures Step(t, w, ps, i)
  {
    AlongAhead(t, w, ps, i, fs, |w|, i);
    assert Leg(t, w, fs, 0);
    assert Behind(t, w, ps[0], fs, 0);
    AlongBehind(t, w, ps, i, fs, 0, i + 1);
    assert Leg(t, w, fs, i);
  }

  /** Where two letters are missing there is no loop. */
  lemma {:induction false} WideGap(t: Table, w: seq<int>, fs: seq<int>, x: nat, bs: seq<int>, y: nat, ps: seq<int>,
                                   i: nat)
    requires Sound(t) && Letters(t, w) && |ps| == |w| > 0 && Ahead(t, w, ps[0], fs, x) &&
             Behind(t, w, ps[0], bs, y) && x + 2 <= y
    requires !Defined(t, w[x], fs[x]) && !Defined(t, Inv(w[y - 1]), bs[y])
    ensures !Loop(t, w, ps, i)
  {
    if Loop(t, w, ps, i) {
      if i > x {
        assert Step(t, w, ps, x);
        AlongAhead(t, w, ps, i, fs, x, x);
      } else {
        assert Step(t, w, ps, y - 1);
        EdgeBack(t, w[y - 1], ps[y - 1], Point(ps, y));
        AlongBehind(t, w, ps, i, bs, y, y);
      }
    }
  }
}
