/**
  Coincidences: two cosets turn out to be equal, and the table is replaced by its
  quotient by everything that this forces.
 */
module Coincidence {
  import opened CosetTable
  import opened CosetLists

  // ----- what the representative map says about the links

  ghost predicate Represents(n: nat, prev: seq<int>, live: seq<int>, queue: seq<int>, live0: seq<int>, rep: seq<int>)
    requires |prev| == n + 1 && Within(live, n) && Within(queue, n) && Within(live0, n)
  {
    && RepMap(n, rep) && rep[0] == 0
    && (forall c {:trigger c in live0} :: 1 <= c <= n && c !in live0 ==> rep[c] == c)
    && (forall c {:trigger c in live0} :: c in live0 ==> rep[c] in live)
    && (forall i :: 0 <= i < |live| ==> rep[live[i]] == live[i])
    && (forall i {:trigger prev[queue[i]]} :: 0 <= i < |queue| ==>
          1 <= prev[queue[i]] <= n && rep[prev[queue[i]]] == rep[queue[i]])
  }

  /** Only the cosets in `open` have defined entries. */
  ghost predicate RowsIn(t: Table, open: set<int>)
    requires Shape(t)
  {
    forall g, c :: Cell(t, g, c) && At(t, g, c) > 0 ==> c in open
  }

  /** Every congruence that identifies a and b identifies each coset with its representative. */
  ghost predicate Forced(t: Table, a: int, b: int, rep: seq<int>)
    requires Shape(t)
  {
    forall eq {:trigger Congruence(eq, t)} :: Congruence(eq, t) && eq(a, b) ==> Identifies(eq, rep)
  }

  lemma {:induction false} RepresentsAfter(n: nat, prev: seq<int>, live: seq<int>, queue: seq<int>, live0: seq<int>,
                                           rep: seq<int>,
                        p: int, keep: int, prev': seq<int>)
    requires |prev| == n + 1 == |prev'| && Within(live, n) && Within(queue, n) && Within(live0, n)
    requires Represents(n, prev, live, queue, live0, rep)
    requires NoDup(live) && 0 <= p < |live| && keep in live && keep < live[p] && live[p] in live0
    requires Apart(live, queue)
    requires forall i :: 0 <= i < |queue| ==> prev'[queue[i]] == prev[queue[i]]
    requires prev'[live[p]] == keep
    ensures Within(RemoveAt(live, p), n) && Within(queue + [live[p]], n)
    ensures Represents(n, prev', RemoveAt(live, p), queue + [live[p]], live0, Merged(rep, keep, live[p]))
  {
    NoDupFacts(live);
    ApartFacts(live, queue);
    var drop, rep' := live[p], Merged(rep, keep, live[p]);
    var live', queue' := RemoveAt(live, p), queue + [drop];
    RemoveAtNoDup(live, p, n);
    forall c | 1 <= c <= n && c !in live0
      ensures rep'[c] == c
    {
      assert c != drop;
    }
    forall i | 0 <= i < |live'|
      ensures rep'[live'[i]] == live'[i]
    {
      assert live'[i] in live';
      assert live'[i] == live[if i < p then i else i + 1];
    }
    var k :| 0 <= k < |live| && live[k] == keep;
    assert rep'[keep] == keep;
    forall i | 0 <= i < |queue'|
      ensures 1 <= prev'[queue'[i]] <= n && rep'[prev'[queue'[i]]] == rep'[queue'[i]]
    {
      if i < |queue| {
        assert prev[queue[i]] == prev'[queue'[i]];
      }
    }
  }

  /** The cosets that are live or queued. */
  ghost predicate Open(open: set<int>, live: seq<int>, queue: seq<int>)
  {
    forall c {:trigger c in open} :: c in open <==> c in live || c in queue
  }

  /** The links and the representative map agree. */
  ghost predicate Forwarded(n: nat, next: seq<int>, prev: seq<int>, live: seq<int>, queue: seq<int>, free: seq<int>,
                            live0: seq<int>, rep: seq<int>, open: set<int>)
  {
    && Open(open, live, queue)
    && Links(n, next, prev, live, queue, free) && Within(live0, n) && NoDup(live0)
    && Represents(n, prev, live, queue, live0, rep) && live == Survivors(live0, rep)
  }

  /** One identification keeps links and representatives in step. */
  lemma {:induction false} IdentifyLinks(n: nat, next: seq<int>, prev: seq<int>, live: seq<int>, queue: seq<int>,
                                         free: seq<int>,
                      live0: seq<int>, rep: seq<int>, open: set<int>, p: int, keep: int,
                      next1: seq<int>, prev1: seq<int>, next2: seq<int>, prev2: seq<int>)
    requires Forwarded(n, next, prev, live, queue, free, live0, rep, open)
    requires Unlinked(n, next, prev, next1, prev1, live, p)
    requires keep in live && keep < live[p]
    requires next2 == Appended(next1, queue, live[p])
    requires prev2 == prev1[live[p] := keep]
    ensures Forwarded(n, next2, prev2, RemoveAt(live, p), queue + [live[p]], free, live0, Merged(rep, keep, live[p]),
                      open)
  {
    NoDupFacts(live);
    ApartFacts(live, queue);
    var drop, rep' := live[p], Merged(rep, keep, live[p]);
    assert drop in live;
    SurvivorsMember(live0, rep, drop);
    EnqueueDropped(n, next, prev, live, queue, free, p, keep, next1, prev1, next2, prev2);
    RepresentsAfter(n, prev, live, queue, live0, rep, p, keep, prev2);
    RemoveAtNoDup(live, p, n);
    assert rep[live[p]] == live[p];
    var k :| 0 <= k < |live| && live[k] == keep;
    assert rep[live[k]] == keep;
    MergedFixpoints(rep, keep, drop);
    var q := SurvivorsMerge(live0, rep, rep', drop);
    assert q == p;
    forall c
      ensures c in open <==> c in RemoveAt(live, p) || c in queue + [drop]
    {
    }
  }

  lemma {:induction false} IdentifyDef(n: nat, live: seq<int>, live0: seq<int>, rep: seq<int>, p: int, keep: int,
                                       def: int, def': int, k: int)
    requires RepMap(n, rep) && rep[0] == 0 && Within(live0, n) && NoDup(live0)
    requires live == Survivors(live0, rep) && NoDup(live) && Within(live, n)
    requires 0 < p < |live| && keep in live && keep < live[p] && def in live
    requires def' == if def == live[p] then live[p - 1] else def
    requires 0 <= k < |live0| ==> LastSurvivor(live0, rep, k, def)
    ensures def' in RemoveAt(live, p)
    ensures 0 <= k < |live0| ==> LastSurvivor(live0, Merged(rep, keep, live[p]), k, def')
  {
    var drop, rep' := live[p], Merged(rep, keep, live[p]);
    assert drop in live && live[p - 1] in live;
    assert Differ(live, p - 1, live, p);
    SurvivorsMember(live0, rep, drop);
    SurvivorsMember(live0, rep, keep);
    RemoveAtNoDup(live, p, n);
    MergedFixpoints(rep, keep, drop);
    if 0 <= k < |live0| {
      LastSurvivorMoves(n, live0, rep, rep', drop, k, def, live, p);
    }
  }

  lemma {:induction false} MergedFixpoints(rep: seq<int>, keep: int, drop: int)
    requires 0 <= keep < drop < |rep| && rep[keep] == keep && rep[drop] == drop
    ensures forall c :: 0 <= c < |rep| ==> (Merged(rep, keep, drop)[c] == c <==> rep[c] == c && c != drop)
  {
  }

  lemma {:induction false} IdentifiesMerged(eq: (int, int) -> bool, rep: seq<int>, keep: int, drop: int)
    requires Equivalence(eq) && Identifies(eq, rep) && eq(keep, drop)
    ensures Identifies(eq, Merged(rep, keep, drop))
  {
    var rep' := Merged(rep, keep, drop);
    forall c | 0 <= c < |rep'|
      ensures eq(c, rep'[c])
    {
      assert eq(c, rep[c]);
      assert eq(drop, keep);
    }
  }

  /** A congruence that respects the representatives so far respects the targets of two merged rows. */
  lemma {:induction false} TargetsForced(eq: (int, int) -> bool, t0: Table, t: Table, rep: seq<int>, g: int, c: int,
                                         d: int)
    requires Shape(t0) && Shape(t) && SameFrame(t, t0) && RepMap(t.n, rep)
    requires Congruence(eq, t0) && Identifies(eq, rep) && ImageWithin(t, t0, rep)
    requires Cell(t, g, c) && Cell(t, g, d) && rep[c] == rep[d]
    requires 0 < At(t, g, c) <= t.n && 0 < At(t, g, d) <= t.n
    ensures eq(rep[At(t, g, c)], rep[At(t, g, d)])
  {
    assert Covered(t, t0, rep, g, c) && Covered(t, t0, rep, g, d);
    var x :| Cell(t0, g, x) && 0 < At(t0, g, x) <= t0.n && rep[x] == rep[c] && rep[At(t0, g, x)] == rep[At(t, g, c)];
    var y :| Cell(t0, g, y) && 0 < At(t0, g, y) <= t0.n && rep[y] == rep[d] && rep[At(t0, g, y)] == rep[At(t, g, d)];
    assert eq(x, rep[x]) && eq(y, rep[y]);
    assert eq(rep[y], y);
    assert eq(x, y);
    var u, w := At(t0, g, x), At(t0, g, y);
    assert eq(u, w);
    assert eq(u, rep[u]) && eq(w, rep[w]);
    assert eq(rep[u], u) && eq(rep[u], w);
  }

  predicate Pair(keep: int, drop: int, x: int, y: int)
  {
    (keep == x && drop == y) || (keep == y && drop == x)
  }

  lemma {:induction false} RepMapMerged(n: nat, rep: seq<int>, keep: int, drop: int)
    requires RepMap(n, rep) && 1 <= keep < drop
    ensures RepMap(n, Merged(rep, keep, drop))
  {
  }

  /** Merging the targets of two merged rows is forced. */
  lemma {:induction false} ForcedMerge(t0: Table, a: int, b: int, t: Table, rep: seq<int>, g: int, c: int, d: int,
                                       keep: int, drop: int)
    requires Shape(t0) && Shape(t) && SameFrame(t, t0) && RepMap(t.n, rep)
    requires Forced(t0, a, b, rep) && ImageWithin(t, t0, rep)
    requires Cell(t, g, c) && Cell(t, g, d) && rep[c] == rep[d]
    requires 0 < At(t, g, c) <= t.n && 0 < At(t, g, d) <= t.n
    requires Pair(keep, drop, rep[At(t, g, c)], rep[At(t, g, d)])
    ensures Forced(t0, a, b, Merged(rep, keep, drop))
  {
    forall eq | Congruence(eq, t0) && eq(a, b)
      ensures Identifies(eq, Merged(rep, keep, drop))
    {
      TargetsForced(eq, t0, t, rep, g, c, d);
      assert eq(keep, drop);
      IdentifiesMerged(eq, rep, keep, drop);
    }
  }

  // ----- writes that only touch undefined entries

  ghost predicate SamePositive(t: Table, u: Table)
    requires Shape(t) && Shape(u) && SameFrame(t, u)
  {
    forall g, c :: Cell(t, g, c) ==> At(u, g, c) == At(t, g, c) || (At(t, g, c) <= 0 && At(u, g, c) <= 0)
  }

  lemma {:induction false} SamePositiveFacts(t: Table, u: Table, rep: seq<int>)
    requires Shape(t) && Shape(u) && SameFrame(t, u) && SamePositive(t, u) && Consistent(t) && |rep| == t.n + 1
    ensures Consistent(u) && ImageWithin(t, u, rep) && ImageWithin(u, t, rep)
  {
    forall g, c | Cell(u, g, c)
      ensures Paired(u, g, c)
    {
      assert Paired(t, g, c);
    }
    forall g, c | Cell(t, g, c)
      ensures Covered(t, u, rep, g, c) && Covered(u, t, rep, g, c)
    {
      if 0 < At(t, g, c) <= t.n {
        EdgeWitness(u, rep, g, c);
        EdgeWitness(t, rep, g, c);
      }
    }
  }

  // ----- working off one row, column by column

  /**
    Columns 1..i of the row `drop` are empty.  Halfway through the pair of an
    involution a self-loop may still be on its way to the representative.
   */
  ghost predicate Cleared(t: Table, keep: int, drop: int, i: int)
    requires Shape(t) && 1 <= drop <= t.n && i < |t.ref|
  {
    forall g :: 1 <= g <= i ==>
                  At(t, g, drop) <= 0 || (g == i && g % 2 == 1 && t.ref[g] == t.ref[Inv(g)] && At(t, g, drop) == keep)
  }

  lemma {:induction false} MoveEntryClears(t: Table, g: int, keep: int, drop: int)
    requires Shape(t) && Consistent(t) && Cell(t, g, keep) && Cell(t, g, drop) && keep != drop
    requires At(t, g, drop) > 0 && At(t, g, keep) <= 0 && Cleared(t, keep, drop, g - 1)
    ensures Cleared(MoveEntry(t, g, keep, drop), keep, drop, g)
  {
    InvFacts(t, g);
    assert Paired(t, g, drop) && Paired(t, g, keep);
    assert At(t, g, drop) == drop ==> At(t, Inv(g), drop) == drop;
  }

  lemma {:induction false} DropEntryClears(t: Table, g: int, keep: int, drop: int)
    requires Shape(t) && Consistent(t) && Cell(t, g, keep) && Cell(t, g, drop) && keep != drop
    requires At(t, g, drop) > 0 && At(t, g, keep) > 0 && Cleared(t, keep, drop, g - 1)
    ensures Cleared(DropEntry(t, g, keep, drop), keep, drop, g)
  {
    InvFacts(t, g);
    assert Paired(t, g, drop) && Paired(t, g, keep);
  }

  lemma {:induction false} MoveEntryRows(t: Table, g: int, keep: int, drop: int, open: set<int>)
    requires Shape(t) && Consistent(t) && Cell(t, g, keep) && Cell(t, g, drop) && At(t, g, drop) > 0
    requires RowsIn(t, open) && keep in open
    ensures RowsIn(MoveEntry(t, g, keep, drop), open)
  {
    InvFacts(t, g);
    assert Paired(t, g, drop);
    assert At(t, Inv(g), At(t, g, drop)) > 0;
  }

  lemma {:induction false} DropEntryRows(t: Table, g: int, keep: int, drop: int, open: set<int>)
    requires Shape(t) && Consistent(t) && Cell(t, g, keep) && Cell(t, g, drop) && At(t, g, drop) > 0
    requires RowsIn(t, open) && keep in open
    ensures RowsIn(DropEntry(t, g, keep, drop), open)
  {
    InvFacts(t, g);
    assert Paired(t, g, drop);
  }

  // ----- the table while coincidences are being worked off

  /**
    `t` is on its way from `t0` to the quotient of `t0` by the least congruence
    that identifies a and b: both have the same image under the representatives
    found so far, and every identification so far was forced.
   */
  ghost predicate Quotienting(t0: Table, t: Table, open: set<int>, rep: seq<int>, a: int, b: int)
  {
    && Shape(t0) && Shape(t) && SameFrame(t, t0) && RepMap(t.n, rep)
    && 0 <= a <= t.n && 0 <= b <= t.n && rep[a] == rep[b]
    && Consistent(t) && RowsIn(t, open)
    && ImageWithin(t0, t, rep) && ImageWithin(t, t0, rep)
    && Forced(t0, a, b, rep)
  }

  lemma {:induction false} QuotientingMove(t0: Table, t: Table, open: set<int>, rep: seq<int>, a: int, b: int,
                        g: int, keep: int, drop: int)
    requires Quotienting(t0, t, open, rep, a, b)
    requires Cell(t, g, keep) && Cell(t, g, drop) && keep != drop && rep[keep] == rep[drop]
    requires At(t, g, drop) > 0 && At(t, g, keep) <= 0
    requires keep in open
    requires Cleared(t, keep, drop, g - 1)
    ensures Quotienting(t0, MoveEntry(t, g, keep, drop), open, rep, a, b)
    ensures Cleared(MoveEntry(t, g, keep, drop), keep, drop, g)
  {
    var r := MoveEntry(t, g, keep, drop);
    MoveEntryConsistent(t, g, keep, drop);
    MoveEntryRows(t, g, keep, drop, open);
    MoveEntryImage(t, g, keep, drop, rep);
    ImageTrans(t0, t, r, rep);
    ImageTrans(r, t, t0, rep);
    MoveEntryClears(t, g, keep, drop);
  }

  /** The targets of the two entries already have the same representative. */
  lemma {:induction false} QuotientingDrop(t0: Table, t: Table, open: set<int>, rep: seq<int>, a: int, b: int,
                        g: int, keep: int, drop: int)
    requires Quotienting(t0, t, open, rep, a, b)
    requires Cell(t, g, keep) && Cell(t, g, drop) && keep != drop && rep[keep] == rep[drop]
    requires 0 < At(t, g, drop) <= t.n && 0 < At(t, g, keep) <= t.n
    requires rep[At(t, g, keep)] == rep[At(t, g, drop)]
    requires keep in open
    requires Cleared(t, keep, drop, g - 1)
    ensures Quotienting(t0, DropEntry(t, g, keep, drop), open, rep, a, b)
    ensures Cleared(DropEntry(t, g, keep, drop), keep, drop, g)
  {
    var r := DropEntry(t, g, keep, drop);
    DropEntryConsistent(t, g, keep, drop);
    DropEntryRows(t, g, keep, drop, open);
    DropEntryImage(t, g, keep, drop, rep);
    ImageTrans(t0, t, r, rep);
    ImageTrans(r, t, t0, rep);
    DropEntryClears(t, g, keep, drop);
  }

  /** Merging the representatives of the targets keeps the table on its way. */
  lemma {:induction false} QuotientingMerge(t0: Table, t: Table, open: set<int>,
                         rep: seq<int>, a: int, b: int, g: int, c: int, d: int, keep: int, drop: int)
    requires Quotienting(t0, t, open, rep, a, b)
    requires Cell(t, g, c) && Cell(t, g, d) && rep[c] == rep[d]
    requires 0 < At(t, g, c) <= t.n && 0 < At(t, g, d) <= t.n
    requires keep < drop && Pair(keep, drop, rep[At(t, g, c)], rep[At(t, g, d)])
    ensures Quotienting(t0, t, open, Merged(rep, keep, drop), a, b)
  {
    var rep' := Merged(rep, keep, drop);
    assert ImageWithin(t0, t, rep') && ImageWithin(t, t0, rep') by {
      ImageMerged(t0, t, rep, keep, drop);
      ImageMerged(t, t0, rep, keep, drop);
    }
    assert Forced(t0, a, b, rep') by {
      ForcedMerge(t0, a, b, t, rep, g, c, d, keep, drop);
    }
    assert RepMap(t.n, rep') by {
      RepMapMerged(t.n, rep, keep, drop);
    }
  }

  /** Changing marks of undefined entries is no change. */
  lemma {:induction false} QuotientingSame(t0: Table, t: Table, u: Table, open: set<int>, rep: seq<int>, a: int, b: int)
    requires Quotienting(t0, t, open, rep, a, b)
    requires Shape(u) && SameFrame(t, u) && SamePositive(t, u)
    ensures Quotienting(t0, u, open, rep, a, b)
  {
    SamePositiveFacts(t, u, rep);
    ImageTrans(t0, t, u, rep);
    ImageTrans(u, t, t0, rep);
  }

  /** The target of a defined entry has defined entries itself. */
  lemma {:induction false} TargetsKnown(t: Table, open: set<int>, g: int, c: int)
    requires Shape(t) && Consistent(t) && RowsIn(t, open) && Cell(t, g, c) && At(t, g, c) > 0
    ensures At(t, g, c) <= t.n
    ensures At(t, g, c) in open
  {
    assert Paired(t, g, c);
    InvFacts(t, g);
  }

  /** Dropping an entry and identifying the two targets, in this order. */
  lemma {:induction false} ColumnDropped(t0: Table, t: Table, open: set<int>, rep: seq<int>, rep': seq<int>, a: int,
                                         b: int,
                      g: int, keep: int, drop: int)
    requires Quotienting(t0, t, open, rep, a, b)
    requires Cell(t, g, keep) && Cell(t, g, drop) && keep != drop && rep[keep] == rep[drop]
    requires 0 < At(t, g, drop) <= t.n && 0 < At(t, g, keep) <= t.n
    requires keep in open
    requires Cleared(t, keep, drop, g - 1)
    requires var x, y := rep[At(t, g, keep)], rep[At(t, g, drop)];
             rep' == if x == y then rep else Merged(rep, if x < y then x else y, if x < y then y else x)
    ensures Quotienting(t0, DropEntry(t, g, keep, drop), open, rep', a, b)
    ensures Cleared(DropEntry(t, g, keep, drop), keep, drop, g)
    ensures rep'[keep] == rep'[drop]
  {
    var x, y := rep[At(t, g, keep)], rep[At(t, g, drop)];
    if x != y {
      var lo, hi := if x < y then x else y, if x < y then y else x;
      QuotientingMerge(t0, t, open, rep, a, b, g, keep, drop, lo, hi);
    }
    QuotientingDrop(t0, t, open, rep', a, b, g, keep, drop);
  }

  lemma {:induction false} RetireLinks(n: nat, next: seq<int>, prev: seq<int>, live: seq<int>, queue: seq<int>,
                                       free: seq<int>,
                    live0: seq<int>, rep: seq<int>, open: set<int>)
    requires Forwarded(n, next, prev, live, queue, free, live0, rep, open) && queue != []
    ensures Forwarded(n, Appended(next, free, queue[0]), prev, live, queue[1..], free + [queue[0]], live0, rep,
                      open - {queue[0]})
    ensures queue[0] in open
  {
    RetireHead(n, next, prev, live, queue, free);
    var queue' := queue[1..];
    forall i | 0 <= i < |queue'|
      ensures 1 <= prev[queue'[i]] <= n && rep[prev[queue'[i]]] == rep[queue'[i]]
    {
      assert prev[queue[i + 1]] == prev[queue'[i]];
    }
    RetireOpen(live, queue, open);
  }

  lemma {:induction false} RetireOpen(live: seq<int>, queue: seq<int>, open: set<int>)
    requires Open(open, live, queue) && queue != [] && NoDup(queue) && Apart(live, queue)
    ensures Open(open - {queue[0]}, live, queue[1..]) && queue[0] in open
  {
    NoDupFacts(queue);
    ApartFacts(live, queue);
    assert queue == [queue[0]] + queue[1..];
    assert queue[0] !in queue[1..] && queue[0] !in live;
    assert queue[0] in open <==> queue[0] in live || queue[0] in queue;
    forall c
      ensures c in open - {queue[0]} <==> c in live || c in queue[1..]
    {
      assert c in open <==> c in live || c in queue;
    }
  }

  lemma {:induction false} RetireRow(t0: Table, t: Table, open: set<int>, rep: seq<int>, a: int, b: int, keep: int,
                                     drop: int)
    requires Quotienting(t0, t, open, rep, a, b) && 1 <= drop <= t.n
    requires Cleared(t, keep, drop, |t.ref| - 1)
    ensures Quotienting(t0, t, open - {drop}, rep, a, b)
  {
  }

  // ----- what a coincidence amounts to

  /** The columns of t are the columns of t0, read on representatives. */
  ghost predicate QuotientOf(t0: Table, t: Table, rep: seq<int>)
  {
    && Shape(t0) && Shape(t) && SameFrame(t0, t) && RepMap(t.n, rep)
    && (forall g, c :: Cell(t0, g, c) && 0 < At(t0, g, c) <= t0.n ==> At(t, g, rep[c]) == rep[At(t0, g, c)])
    && (forall g, c {:trigger Stems(t0, t, rep, g, c)} :: Cell(t, g, c) ==> Stems(t0, t, rep, g, c))
  }

  /** The entry at (g, c), if defined, is the image of an entry of t0. */
  ghost predicate Stems(t0: Table, t: Table, rep: seq<int>, g: int, c: int)
    requires Shape(t0) && Shape(t) && SameFrame(t0, t) && RepMap(t.n, rep) && Cell(t, g, c)
  {
    At(t, g, c) > 0 ==>
      exists c0 :: Cell(t0, g, c0) && 0 < At(t0, g, c0) <= t0.n && rep[c0] == c && rep[At(t0, g, c0)] == At(t, g, c)
  }

  /**
    The coincidence of a and b: a quotient by representatives that are the
    smallest elements of their classes, identify a and b, leave cosets that were
    not live alone, and identify nothing that is not forced.
   */
  ghost predicate Coincided(t0: Table, t: Table, live0: seq<int>, rep: seq<int>, a: int, b: int)
  {
    && QuotientOf(t0, t, rep)
    && 0 <= a < |rep| && 0 <= b < |rep| && rep[a] == rep[b] && rep[0] == 0
    && (forall c :: 1 <= c <= t0.n && c !in live0 ==> rep[c] == c)
    && (forall c :: 1 <= c <= t0.n ==> rep[rep[c]] == rep[c] <= c)
    && Forced(t0, a, b, rep)
  }

  /** The identifications made by representatives. */
  ghost function Kernel(rep: seq<int>): (int, int) -> bool
  {
    (x: int, y: int) => x == y || (0 <= x < |rep| && 0 <= y < |rep| && rep[x] == rep[y])
  }

  /** The representatives describe the least congruence that identifies a and b. */
  lemma {:induction false} LeastCongruence(t0: Table, t: Table, live0: seq<int>, rep: seq<int>, a: int, b: int)
    requires Coincided(t0, t, live0, rep, a, b) && Consistent(t0)
    ensures Congruence(Kernel(rep), t0) && Kernel(rep)(a, b)
    ensures forall eq, x, y {:trigger eq(x, y)} :: Congruence(eq, t0) && eq(a, b) && Kernel(rep)(x, y) ==> eq(x, y)
  {
    var k := Kernel(rep);
    forall g, c, d | Cell(t0, g, c) && Cell(t0, g, d) && At(t0, g, c) > 0 && At(t0, g, d) > 0 && k(c, d)
      ensures k(At(t0, g, c), At(t0, g, d))
    {
      assert Paired(t0, g, c) && Paired(t0, g, d);
      assert At(t, g, rep[c]) == rep[At(t0, g, c)] && At(t, g, rep[d]) == rep[At(t0, g, d)];
    }
    forall eq: (int, int) -> bool, x: int, y: int | Congruence(eq, t0) && eq(a, b) && k(x, y)
      ensures eq(x, y)
    {
      if x != y {
        assert Identifies(eq, rep);
        assert eq(x, rep[x]) && eq(y, rep[y]);
        assert eq(rep[y], y);
      }
    }
  }

  /** A coincidence has one outcome only: the same representatives and the same defined entries. */
  lemma {:induction false} CoincidenceUnique(t0: Table, t: Table, t': Table, live0: seq<int>, rep: seq<int>,
                                             rep': seq<int>, a: int, b: int)
    requires Coincided(t0, t, live0, rep, a, b) && Coincided(t0, t', live0, rep', a, b) && Consistent(t0)
    ensures rep == rep' && SamePositive(t, t')
  {
    LeastCongruence(t0, t, live0, rep, a, b);
    LeastCongruence(t0, t', live0, rep', a, b);
    forall c | 0 <= c < |rep|
      ensures rep[c] == rep'[c]
    {
      if c > 0 {
        assert Kernel(rep)(c, rep[c]) && Kernel(rep')(c, rep'[c]);
        assert Kernel(rep')(c, rep[c]) && Kernel(rep)(c, rep'[c]);
      }
    }
    assert rep == rep';
    forall g, c | Cell(t, g, c)
      ensures At(t', g, c) == At(t, g, c) || (At(t, g, c) <= 0 && At(t', g, c) <= 0)
    {
      QuotientEntry(t0, t, t', rep, g, c);
      QuotientEntry(t0, t', t, rep, g, c);
    }
  }

  lemma {:induction false} QuotientEntry(t0: Table, t: Table, t': Table, rep: seq<int>, g: int, c: int)
    requires QuotientOf(t0, t, rep) && QuotientOf(t0, t', rep) && Cell(t, g, c)
    ensures At(t, g, c) > 0 ==> At(t', g, c) == At(t, g, c)
  {
    assert Stems(t0, t, rep, g, c);
    if At(t, g, c) > 0 {
      var c0 :| Cell(t0, g, c0) && 0 < At(t0, g, c0) <= t0.n && rep[c0] == c && rep[At(t0, g, c0)] == At(t, g, c);
      assert At(t', g, rep[c0]) == rep[At(t0, g, c0)];
    }
  }

  function Identity(n: nat): (r: seq<int>)
    ensures |r| == n + 1 && forall c :: 0 <= c <= n ==> r[c] == c
  {
    seq(n + 1, i => i)
  }

  lemma {:induction false} SurvivorsIdentity(s: seq<int>, n: nat)
    requires Within(s, n)
    ensures Survivors(s, Identity(n)) == s
  {
    if s != [] {
      var m := |s| - 1;
      SurvivorsIdentity(s[..m], n);
      assert s == s[..m] + [s[m]];
    }
  }

  /** Before the first identification every coset represents itself. */
  lemma {:induction false} CoincidenceStart(t: Table, next: seq<int>, prev: seq<int>, live: seq<int>, free: seq<int>,
                                            open: set<int>, a: int)
    requires Shape(t) && Consistent(t) && RowsIn(t, open) && Links(t.n, next, prev, live, [], free)
    requires 0 <= a <= t.n && Open(open, live, [])
    ensures Forwarded(t.n, next, prev, live, [], free, live, Identity(t.n), open)
    ensures Quotienting(t, t, open, Identity(t.n), a, a)
  {
    var rep := Identity(t.n);
    SurvivorsIdentity(live, t.n);
    ImageRefl(t, rep);
    forall eq | Congruence(eq, t) && eq(a, a)
      ensures Identifies(eq, rep)
    {
    }
  }

  lemma {:induction false} LastSurvivorStart(n: nat, live: seq<int>, k: int)
    requires Within(live, n) && 0 <= k < |live|
    ensures LastSurvivor(live, Identity(n), k, live[k])
  {
    SurvivorsIdentity(live[..k + 1], n);
  }

  /** The identification of a and b themselves. */
  lemma {:induction false} QuotientingFirst(t: Table, open: set<int>, rep: seq<int>, a: int, b: int, lo: int, hi: int)
    requires Quotienting(t, t, open, rep, a, a) && Pair(lo, hi, a, b) && 1 <= lo < hi <= t.n
    requires rep[lo] == lo && rep[hi] == hi
    ensures Quotienting(t, t, open, Merged(rep, lo, hi), a, b)
  {
    ImageMerged(t, t, rep, lo, hi);
    RepMapMerged(t.n, rep, lo, hi);
    forall eq | Congruence(eq, t) && eq(a, b)
      ensures Identifies(eq, Merged(rep, lo, hi))
    {
      assert eq(a, a) && eq(b, a);
      IdentifiesMerged(eq, rep, lo, hi);
    }
  }

  /** With an empty queue the table is the quotient. */
  lemma {:induction false} CoincidenceEnd(t0: Table, t: Table, next: seq<int>, prev: seq<int>, live: seq<int>,
                                          free: seq<int>,
                       live0: seq<int>, rep: seq<int>, open: set<int>, a: int, b: int)
    requires Quotienting(t0, t, open, rep, a, b) && Consistent(t0)
    requires Forwarded(t.n, next, prev, live, [], free, live0, rep, open)
    ensures Coincided(t0, t, live0, rep, a, b)
  {
    forall g, c | Cell(t0, g, c) && 0 < At(t0, g, c) <= t0.n
      ensures At(t, g, rep[c]) == rep[At(t0, g, c)]
    {
      assert Covered(t0, t, rep, g, c);
      var c' :| Cell(t, g, c') && 0 < At(t, g, c') <= t.n && rep[c'] == rep[c] &&
          rep[At(t, g, c')] == rep[At(t0, g, c)];
      LiveEntry(t, live, open, rep, g, c');
    }
    forall g, c | Cell(t, g, c)
      ensures Stems(t0, t, rep, g, c)
    {
      if At(t, g, c) > 0 {
        LiveEntry(t, live, open, rep, g, c);
        assert Covered(t, t0, rep, g, c);
      }
    }
    forall c | 1 <= c <= t0.n
      ensures rep[rep[c]] == rep[c]
    {
      if c in live0 {
        var k :| 0 <= k < |live| && live[k] == rep[c];
      }
    }
  }

  lemma {:induction false} LiveEntry(t: Table, live: seq<int>, open: set<int>, rep: seq<int>, g: int, c: int)
    requires Shape(t) && Consistent(t) && RowsIn(t, open) && RepMap(t.n, rep) && Within(live, t.n)
    requires Open(open, live, []) && forall i :: 0 <= i < |live| ==> rep[live[i]] == live[i]
    requires Cell(t, g, c) && At(t, g, c) > 0
    ensures At(t, g, c) <= t.n && rep[c] == c && rep[At(t, g, c)] == At(t, g, c)
  {
    TargetsKnown(t, open, g, c);
  }

  /** The merged cosets are exactly the live ones that do not represent themselves. */
  lemma {:induction false} CoincidenceCount(n: nat, live0: seq<int>, live: seq<int>, open0: set<int>, open: set<int>,
                         done: seq<int>, rep: seq<int>, a: int, b: int)
    requires |rep| == n + 1 && Within(live0, n) && live == Survivors(live0, rep)
    requires Open(open0, live0, []) && Open(open, live, []) && Closed(open0, open, done)
    requires a in live0 && b in live0 && rep[a] == rep[b] && a != b
    ensures forall c :: c in done <==> c in live0 && rep[c] != c
    ensures |live| < |live0|
  {
    forall c
      ensures c in done <==> c in live0 && rep[c] != c
    {
      SurvivorsMember(live0, rep, c);
      assert c in open0 <==> c in live0;
      assert c in open <==> c in live;
    }
    SurvivorsFewer(live0, rep, a);
    SurvivorsFewer(live0, rep, b);
  }

  /** `done` lists what has left the open cosets. */
  ghost predicate Closed(open0: set<int>, open: set<int>, done: seq<int>)
  {
    forall c {:trigger c in done} :: c in done <==> c in open0 && c !in open
  }

  lemma {:induction false} ClosedMore(open0: set<int>, open: set<int>, done: seq<int>, c: int)
    requires Closed(open0, open, done) && c in open && open <= open0
    ensures Closed(open0, open - {c}, done + [c]) && open - {c} <= open0
  {
  }

  // ----- several coincidences and deductions in a row

  /**
    A later state of the table: every entry of the old table is still there on
    the representatives, and the live list has lost the merged cosets.
   */
  ghost predicate Evolved(t0: Table, t: Table, live0: seq<int>, live: seq<int>, rep: seq<int>)
  {
    && Shape(t0) && Shape(t) && SameFrame(t0, t) && RepMap(t.n, rep) && rep[0] == 0 && Within(live0, t.n)
    && (forall g, c :: Cell(t0, g, c) && 0 < At(t0, g, c) <= t0.n ==> At(t, g, rep[c]) == rep[At(t0, g, c)])
    && live == Survivors(live0, rep)
    && (forall c {:trigger c in live0} :: 1 <= c <= t0.n && c !in live0 ==> rep[c] == c)
  }

  function Composed(rep: seq<int>, r: seq<int>): (q: seq<int>)
    requires forall c :: 0 <= c < |rep| ==> 0 <= rep[c] < |r|
    ensures |q| == |rep| && forall c :: 0 <= c < |rep| ==> q[c] == r[rep[c]]
  {
    seq(|rep|, c requires 0 <= c < |rep| => r[rep[c]])
  }

  lemma {:induction false} SurvivorsComposed(s: seq<int>, n: nat, rep: seq<int>, r: seq<int>)
    requires Within(s, n) && RepMap(n, rep) && RepMap(n, r) && rep[0] == 0
    ensures Within(Survivors(s, rep), n)
    ensures Survivors(Survivors(s, rep), r) == Survivors(s, Composed(rep, r))
  {
    if s != [] {
      var m := |s| - 1;
      var c, front := s[m], Survivors(s[..m], rep);
      SurvivorsComposed(s[..m], n, rep, r);
      if rep[c] == c {
        assert (front + [c])[..|front|] == front;
      } else {
        assert r[rep[c]] <= rep[c] < c;
        assert front + [] == front;
        assert Survivors(s, Composed(rep, r)) == Survivors(s[..m], Composed(rep, r)) + [];
      }
    }
  }

  lemma {:induction false} EvolvedTrans(t0: Table, t1: Table, t2: Table, live0: seq<int>, live1: seq<int>,
                                        live2: seq<int>,
                     rep: seq<int>, r: seq<int>)
    requires Evolved(t0, t1, live0, live1, rep) && Evolved(t1, t2, live1, live2, r)
    ensures Evolved(t0, t2, live0, live2, Composed(rep, r))
  {
    var q := Composed(rep, r);
    forall g, c | Cell(t0, g, c) && 0 < At(t0, g, c) <= t0.n
      ensures At(t2, g, q[c]) == q[At(t0, g, c)]
    {
      assert At(t1, g, rep[c]) == rep[At(t0, g, c)];
    }
    SurvivorsComposed(live0, t0.n, rep, r);
    forall c | 1 <= c <= t0.n && c !in live0
      ensures q[c] == c
    {
      SurvivorsMember(live0, rep, c);
      assert c !in live1;
    }
  }
}
