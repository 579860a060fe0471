/**
  The low-index scan: which entries of a table are forced by the relators, and whether
  the table can be completed at all.
 */
module LowIndexScan {
  import opened CosetTable
  import opened Tracing
  import opened RelatorLoops

  /** Entries are cosets, or 0 where undefined. */
  ghost predicate Bounded(t: Table)
    requires Shape(t)
  {
    forall g, c {:trigger At(t, g, c)} :: Cell(t, g, c) ==> 0 <= At(t, g, c) <= t.n
  }

  ghost predicate Good(t: Table)
  {
    Sound(t) && Bounded(t)
  }

  lemma {:induction false} DeduceGood(t: Table, g: int, a: int, b: int)
    requires Good(t) && Missing(t, g, a) && Missing(t, Inv(g), b)
    ensures var r := Deduce(t, g, a, b);
            Good(r) && Extends(t, r) && Undefined(r) < Undefined(t) && Edge(r, g, a, b) && Edge(r, Inv(g), b, a)
  {
    DeduceSound(t, g, a, b);
  }

  // ----- scanning one relator

  /** Where the scans from both ends of a relator have got to. */
  datatype Ends = Ends(fs: seq<int>, i: nat, bs: seq<int>, j: nat)

  /** The letter before j leads nowhere backwards. */
  ghost predicate NoneBefore(t: Table, w: seq<int>, j: nat, p: int)
    requires Shape(t)
  {
    0 < j <= |w| && Missing(t, Inv(w[j - 1]), p)
  }

  /** The scans have gone as far as they can. */
  ghost predicate Stopped(t: Table, w: seq<int>, c: int, e: Ends)
  {
    && Good(t) && Letters(t, w) && Ahead(t, w, c, e.fs, e.i) && Behind(t, w, c, e.bs, e.j) && e.i <= e.j
    && (e.i < |w| ==> Missing(t, w[e.i], e.fs[e.i]))
    && (e.i < e.j ==> NoneBefore(t, w, e.j, e.bs[e.j]))
  }

  /** The scans met at two different cosets, one letter is missing between them, or neither. */
  ghost predicate Verdict(e: Ends, res: int)
    requires e.i < |e.fs| && e.j < |e.bs|
  {
    res == if e.j == e.i then (if e.fs[e.i] == e.bs[e.j] then 1 else 0) else if e.j == e.i + 1 then 2 else 1
  }

  /** What a scan reports, and what it does. */
  ghost predicate Outcome(t: Table, w: seq<int>, c: int, e: Ends, res: int, t': Table)
  {
    && Stopped(t, w, c, e) && Verdict(e, res)
    && if res != 2 then t' == t
       else
         && Missing(t, w[e.i], e.fs[e.i]) && Missing(t, Inv(w[e.i]), e.bs[e.j])
         && t' == Deduce(t, w[e.i], e.fs[e.i], e.bs[e.j])
  }

  // ----- a scan that does not fail settles its relator

  /** The points of both scans, joined. */
  function Joined(e: Ends): (ps: seq<int>)
    requires |e.fs| == |e.bs|
    ensures |ps| == |e.fs|
  {
    seq(|e.fs|, k requires 0 <= k < |e.fs| => if k <= e.i then e.fs[k] else e.bs[k])
  }

  /** If the scans have met, or the missing entry has been made, then the word leads from c to c. */
  lemma {:induction false} JoinedTraced(t: Table, w: seq<int>, c: int, e: Ends, u: Table)
    requires Stopped(t, w, c, e) && Good(u) && Extends(t, u)
    requires (e.j == e.i && e.fs[e.i] == e.bs[e.j]) || (e.j == e.i + 1 && Edge(u, w[e.i], e.fs[e.i], e.bs[e.j]))
    ensures Ahead(u, w, c, Joined(e), |w|) && Joined(e)[|w|] == c
  {
    var ps := Joined(e);
    forall k: nat | k < |w|
      ensures Leg(u, w, ps, k)
    {
      if k < e.i {
        assert Leg(t, w, e.fs, k);
        ExtendsEdge(t, u, w[k], ps[k], ps[k + 1]);
      } else if k >= e.j {
        assert Leg(t, w, e.bs, k);
        ExtendsEdge(t, u, w[k], ps[k], ps[k + 1]);
      }
    }
    assert w != [] ==> Leg(u, w, ps, |w| - 1);
    InRange(t, w, c, e);
  }

  lemma {:induction false} InRange(t: Table, w: seq<int>, c: int, e: Ends)
    requires Stopped(t, w, c, e)
    ensures 1 <= c <= t.n
  {
    if e.i > 0 {
      assert Leg(t, w, e.fs, 0);
    }
  }

  lemma {:induction false} OutcomeGood(t: Table, w: seq<int>, c: int, e: Ends, res: int, t': Table)
    requires Outcome(t, w, c, e, res, t')
    ensures Good(t') && Extends(t, t') && (res == 2 ==> Edge(t', w[e.i], e.fs[e.i], e.bs[e.j]))
  {
    if res == 2 {
      DeduceGood(t, w[e.i], e.fs[e.i], e.bs[e.j]);
    }
  }

  /** After a scan that has not failed, the loops of the relator from c are closed. */
  lemma {:induction false} ScanSettles(t: Table, w: seq<int>, c: int, e: Ends, res: int, t': Table, s: seq<(int, int)>)
    requires Outcome(t, w, c, e, res, t') && res != 0
    ensures Settled(t', s, w, c)
  {
    OutcomeGood(t, w, c, e, res, t');
    forall ps, i | Loop(t', w, ps, i) && ps[0] == c
      ensures Step(t', w, ps, i)
    {
      if e.j < e.i + 2 {
        JoinedTraced(t, w, c, e, t');
        TracedCloses(t', w, Joined(e), ps, i);
      } else {
        WideGap(t, w, e.fs, e.i, e.bs, e.j, ps, i);
      }
    }
  }

  // ----- a scan finds nothing that is not so in every stable extension

  /** The points of both scans, as a loop with letter m left out. */
  function Around(e: Ends, n: nat, m: nat): (ps: seq<int>)
    requires |e.fs| == |e.bs| == n + 1
    ensures |ps| == n
  {
    seq(n, k requires 0 <= k < n => if k <= m then e.fs[k] else e.bs[k])
  }

  lemma {:induction false} AroundLoop(t: Table, w: seq<int>, c: int, e: Ends, m: nat)
    requires Good(t) && Letters(t, w) && Ahead(t, w, c, e.fs, e.i) && Behind(t, w, c, e.bs, e.j)
    requires m <= e.i && m < |w| && e.j <= m + 1 && (|w| == 1 ==> Defined(t, w[0], c))
    ensures Loop(t, w, Around(e, |w|, m), m)
    ensures var ps := Around(e, |w|, m); ps[m] == e.fs[m] && Point(ps, m + 1) == e.bs[m + 1]
  {
    var ps := Around(e, |w|, m);
    forall k: nat | k < |w| && k != m
      ensures Step(t, w, ps, k)
    {
      if k < m {
        assert Leg(t, w, e.fs, k);
      } else {
        assert Leg(t, w, e.bs, k);
      }
    }
    assert Point(ps, m + 1) == e.bs[m + 1];
    if m < e.i {
      assert Leg(t, w, e.fs, m);
    }
    if m + 1 < |w| {
      assert e.j < m + 1 ==> Leg(t, w, e.bs, m + 1);
      assert Step(t, w, ps, m + 1);
    } else {
      assert e.i > 0 ==> Leg(t, w, e.fs, 0);
    }
  }

  lemma {:induction false} ScanWithin(t: Table, w: seq<int>, c: int, e: Ends, res: int, t': Table, u: Table)
    requires Outcome(t, w, c, e, res, t') && Good(u) && Extends(t, u) && Closes(u, w)
    requires w != [] && Defined(t, w[0], c)
    ensures res != 0 && Shape(t') && Extends(t', u)
  {
    OutcomeGood(t, w, c, e, res, t');
    if res == 2 {
      WithinAt(t, w, c, e, u, e.i);
      DeduceWithin(t, u, w[e.i], e.fs[e.i], e.bs[e.j]);
    } else if res == 0 {
      ClashWithin(t, w, c, e, u);
    }
  }

  lemma {:induction false} WithinAt(t: Table, w: seq<int>, c: int, e: Ends, u: Table, m: nat)
    requires Stopped(t, w, c, e) && Good(u) && Extends(t, u) && Closes(u, w)
    requires m <= e.i && m < |w| && e.j <= m + 1 && Defined(t, w[0], c)
    ensures Edge(u, w[m], e.fs[m], e.bs[m + 1])
  {
    var ps := Around(e, |w|, m);
    AroundLoop(t, w, c, e, m);
    LoopExtends(t, u, w, ps, m);
    assert Step(u, w, ps, m);
  }

  /** Where the scans clash there is no stable extension. */
  lemma {:induction false} ClashWithin(t: Table, w: seq<int>, c: int, e: Ends, u: Table)
    requires Stopped(t, w, c, e) && Good(u) && Extends(t, u) && Closes(u, w) && w != [] && Defined(t, w[0], c)
    requires e.i == e.j
    ensures e.fs[e.i] == e.bs[e.j]
  {
    if e.i < |w| {
      WithinAt(t, w, c, e, u, e.i);
      assert Leg(t, w, e.bs, e.i);
      ExtendsEdge(t, u, w[e.i], e.bs[e.i], e.bs[e.i + 1]);
      EdgeInjective(u, w[e.i], e.fs[e.i], e.bs[e.i], e.bs[e.i + 1]);
    } else {
      var m := |w| - 1;
      WithinAt(t, w, c, e, u, m);
      assert Leg(t, w, e.fs, m);
      ExtendsEdge(t, u, w[m], e.fs[m], e.fs[m + 1]);
    }
  }
}

module LowIndex {
  import opened CosetTable
  import opened Tracing
  import opened Pigeonhole
  import opened RelatorLoops
  import opened LowIndexScan

  /**
    Letters of the relators are columns, list x holds relators that start with a letter of column x,
        and the list of an inverse is at least as long.
   */
  ghost predicate RelatorLists(t: Table, rels: seq<seq<seq<int>>>)
  {
    && |rels| == |t.ref|
    && (forall x, m {:trigger rels[x][m]} :: 1 <= x < |rels| && 0 <= m < |rels[x]| ==>
          Letters(t, rels[x][m]) && rels[x][m] != [] && t.ref[rels[x][m][0]] == t.ref[x])
    && (forall x :: 1 <= x < |rels| - 1 && x % 2 == 1 ==> |rels[x]| <= |rels[x + 1]|)
  }

  /** The entries on the stack are defined. */
  ghost predicate Entries(t: Table, s: seq<(int, int)>)
    requires Shape(t)
  {
    forall k :: 0 <= k < |s| ==> Entry(t, s[k])
  }

  ghost predicate Entry(t: Table, x: (int, int))
    requires Shape(t)
  {
    x.0 % 2 == 1 && Defined(t, x.0, x.1)
  }

  lemma {:induction false} EntriesExtend(t: Table, u: Table, s: seq<(int, int)>)
    requires Shape(t) && Shape(u) && Extends(t, u) && Entries(t, s)
    ensures Entries(u, s)
  {
    forall k | 0 <= k < |s|
      ensures Entry(u, s[k])
    {
      assert Entry(t, s[k]);
      assert At(u, s[k].0, s[k].1) == At(t, s[k].0, s[k].1);
    }
  }

  // ----- what a run keeps

  /** All cosets. */
  ghost function Rows(t: Table): (s: set<int>)
    ensures forall c :: c in s <==> 1 <= c <= t.n
  {
    UpTo(t.n)
  }

  ghost predicate StableExtension(t: Table, u: Table, rels: seq<seq<seq<int>>>)
    requires Shape(t)
  {
    Good(u) && Extends(t, u) && Stable(u, rels)
  }

  /** Every stable extension of t extends u; and there is none at all unless ok. */
  ghost predicate Least(t: Table, u: Table, ok: bool, rels: seq<seq<seq<int>>>)
    requires Shape(t) && Shape(u)
  {
    forall v {:trigger StableExtension(t, v, rels)} :: StableExtension(t, v, rels) ==> ok && Extends(u, v)
  }

  /** A run from a table and a stack to others. */
  ghost predicate Run(rels: seq<seq<seq<int>>>, t: Table, s: seq<(int, int)>, u: Table, s': seq<(int, int)>, ok: bool)
  {
    && Good(t) && Good(u) && Extends(t, u) && Carries(t, s, u, s', Rows(t)) && Least(t, u, ok, rels) && Entries(u, s')
    && (Undefined(u) < Undefined(t) || (u == t && s' == s))
  }

  lemma {:induction false} RunNone(rels: seq<seq<seq<int>>>, t: Table, s: seq<(int, int)>)
    requires Good(t) && Entries(t, s)
    ensures Run(rels, t, s, t, s, true)
  {
  }

  lemma {:induction false} RunTrans(rels: seq<seq<seq<int>>>, t: Table, s: seq<(int, int)>, u: Table,
                                    s': seq<(int, int)>,
                                    v: Table, s'': seq<(int, int)>, ok: bool)
    requires Run(rels, t, s, u, s', true) && Run(rels, u, s', v, s'', ok)
    ensures Run(rels, t, s, v, s'', ok)
  {
    ExtendsTrans(t, u, v);
    CarriesTrans(t, s, u, s', Rows(t), v, s'', Rows(t));
    LeastTrans(rels, t, u, v, ok);
  }

  lemma {:induction false} LeastTrans(rels: seq<seq<seq<int>>>, t: Table, u: Table, v: Table, ok: bool)
    requires Shape(t) && Shape(u) && Shape(v) && Least(t, u, true, rels) && Least(u, v, ok, rels)
    ensures Least(t, v, ok, rels)
  {
    forall x | StableExtension(t, x, rels)
      ensures ok && Extends(v, x)
    {
      assert StableExtension(u, x, rels);
    }
  }

  /** The stack after a scan: a deduction is pushed. */
  function Pushed(s: seq<(int, int)>, res: int, ret1: int, ret2: int): seq<(int, int)>
  {
    if res == 2 then s + [(ret2, ret1)] else s
  }

  /** Reported is the new entry, from the end where it is in the column of a generator. */
  ghost predicate Reported(w: seq<int>, e: Ends, res: int, ret1: int, ret2: int)
    requires e.i < |e.fs| && e.j < |e.bs|
  {
    res == 2 && e.i < |w| ==> (ret1, ret2) == if w[e.i] % 2 == 0 then (e.bs[e.j], Inv(w[e.i])) else (e.fs[e.i], w[e.i])
  }

  lemma {:induction false} ReportedEntry(t: Table, w: seq<int>, c: int, e: Ends, res: int, ret1: int, ret2: int,
                                         t': Table)
    requires Outcome(t, w, c, e, res, t') && Reported(w, e, res, ret1, ret2) && res == 2
    ensures Good(t') && Extends(t, t') && Undefined(t') < Undefined(t) && Entry(t', (ret2, ret1))
  {
    var g, a, b := w[e.i], e.fs[e.i], e.bs[e.j];
    assert t' == Deduce(t, g, a, b) && Missing(t, g, a) && Missing(t, Inv(g), b);
    DeduceGood(t, g, a, b);
    EntryEither(t', g, a, b);
  }

  /** An entry can be given from one end or the other, in the column of a generator. */
  lemma {:induction false} EntryEither(t: Table, g: int, a: int, b: int)
    requires Sound(t) && Edge(t, g, a, b) && Edge(t, Inv(g), b, a)
    ensures if g % 2 == 0 then Entry(t, (Inv(g), b)) else Entry(t, (g, a))
  {
  }

  lemma {:induction false} ScanRun(rels: seq<seq<seq<int>>>, t: Table, s: seq<(int, int)>, x: int, m: int, c: int,
                                   e: Ends, res: int, ret1: int, ret2: int, t': Table)
    requires Good(t) && RelatorLists(t, rels) && Entries(t, s) && 1 <= x < |rels| && 0 <= m < |rels[x]| &&
             Defined(t, x, c)
    requires Outcome(t, rels[x][m], c, e, res, t') && Reported(rels[x][m], e, res, ret1, ret2)
    ensures Run(rels, t, s, t', Pushed(s, res, ret1, ret2), res != 0)
  {
    var w := rels[x][m];
    var s' := Pushed(s, res, ret1, ret2);
    assert Good(t') && Least(t, t', res != 0, rels) by {
      OutcomeGood(t, w, c, e, res, t');
      forall u | StableExtension(t, u, rels)
        ensures res != 0 && Extends(t', u)
      {
        assert Closes(u, rels[x][m]);
        ScanWithin(t, w, c, e, res, t', u);
      }
    }
    if res == 2 {
      ReportedEntry(t, w, c, e, res, ret1, ret2, t');
      EntriesExtend(t, t', s);
      assert (ret2, ret1) in s';
      DeduceCarries(t, s, w[e.i], e.fs[e.i], e.bs[e.j], s', Rows(t));
    }
  }

  lemma {:induction false} SettledListOn(t: Table, s: seq<(int, int)>, list: seq<seq<int>>, l: nat, c: int)
    requires l < |list| && SettledList(t, s, list, l, c) && Settled(t, s, list[l], c)
    ensures SettledList(t, s, list, l + 1, c)
  {
  }

  /** The scan of one more relator of list x. */
  lemma {:induction false} ScanAdds(rels: seq<seq<seq<int>>>, t0: Table, s0: seq<(int, int)>, t: Table,
                                    s: seq<(int, int)>, x: int, m: nat, c: int,
                                    e: Ends, res: int, ret1: int, ret2: int, t': Table)
    requires RelatorLists(t0, rels) && Run(rels, t0, s0, t, s, true) && 1 <= x < |rels| && m < |rels[x]| &&
             Defined(t0, x, c)
    requires Outcome(t, rels[x][m], c, e, res, t') && Reported(rels[x][m], e, res, ret1, ret2)
    requires SettledList(t, s, rels[x], m, c)
    ensures var s' := Pushed(s, res, ret1, ret2);
            Run(rels, t0, s0, t', s', res != 0) && (res != 0 ==> SettledList(t', s', rels[x], m + 1, c))
  {
    var s' := Pushed(s, res, ret1, ret2);
    ExtendsEdge(t0, t, x, c, At(t0, x, c));
    ScanRun(rels, t, s, x, m, c, e, res, ret1, ret2, t');
    RunTrans(rels, t0, s0, t, s, t', s', res != 0);
    if res != 0 {
      SettledListCarried(t, s, t', s', Rows(t), rels[x], m, c);
      ScanSettles(t, rels[x][m], c, e, res, t', s');
      SettledListOn(t', s', rels[x], m, c);
    }
  }

  class Scanner {
    var table: Table

    /** Scans forwards from c until an entry is missing. */
    method ScanForward(c: int, w: seq<int>) returns (i: nat, p: int, ghost fs: seq<int>)
      requires Good(table) && Letters(table, w) && 1 <= c <= table.n
      ensures Ahead(table, w, c, fs, i) && fs[i] == p && (i < |w| ==> Missing(table, w[i], p))
    {
      i, p := 0, c;
      fs := seq(|w| + 1, k => c);
      while i < |w| && At(table, w[i], p) != 0
        invariant Ahead(table, w, c, fs, i) && fs[i] == p
      {
        var q := At(table, w[i], p);
        AheadOn(table, w, c, fs, i, q);
        fs := fs[i + 1 := q];
        i, p := i + 1, q;
      }
    }

    /** The column of the inverse. */
    method Opposite(g: int) returns (a: int)
      requires Shape(table) && 1 <= g < |table.ref|
      ensures a == Inv(g) && 1 <= a < |table.ref|
    {
      InvFacts(table, g);
      a := g;
      if a % 2 == 1 {
        a := a + 1;
      } else {
        a := a - 1;
      }
    }

    /** Scans backwards from c until an entry is missing, or letter i has been dealt with. */
    method ScanBackward(c: int, w: seq<int>, i: nat) returns (j: nat, p: int, ghost bs: seq<int>)
      requires Good(table) && Letters(table, w) && 1 <= c <= table.n && i < |w|
      ensures i <= j && Behind(table, w, c, bs, j) && bs[j] == p && (j > i ==> NoneBefore(table, w, j, p))
    {
      j, p := |w|, c;
      bs := seq(|w| + 1, k => c);
      while j > i
        invariant i <= j && Behind(table, w, c, bs, j) && bs[j] == p
        decreases j
      {
        var a := Opposite(w[j - 1]);
        var q := At(table, a, p);
        if q == 0 {
          return;
        }
        BehindOn(table, w, c, bs, j, q);
        bs := bs[j - 1 := q];
        j, p := j - 1, q;
      }
    }

    /** Scans the relator from both ends as far as there are entries. */
    method ScanEnds(c: int, w: seq<int>) returns (i: nat, pa: int, j: nat, pb: int, ghost e: Ends)
      requires Good(table) && Letters(table, w) && 1 <= c <= table.n
      ensures Stopped(table, w, c, e) && e.i == i && e.j == j && e.fs[i] == pa && e.bs[j] == pb
    {
      ghost var fs;
      i, pa, fs := ScanForward(c, w);
      ghost var bs := seq(|w| + 1, k => c);
      j, pb := i, c;
      if i < |w| {
        j, pb, bs := ScanBackward(c, w, i);
      }
      e := Ends(fs, i, bs, j);
    }

    /**
      Scans a relator at coset c. The result is 0 if it does not close, 2 if an entry could be deduced, in
      column ret2 for coset ret1, and 1 otherwise.
     */
    method RelatorScan(c: int, w: seq<int>) returns (res: int, ret1: int, ret2: int, ghost e: Ends)
      requires Good(table) && Letters(table, w) && 1 <= c <= table.n
      modifies this
      ensures Outcome(old(table), w, c, e, res, table) && Reported(w, e, res, ret1, ret2)
    {
      res, ret1, ret2 := 1, 0, 0;
      var i, pa, j, pb;
      i, pa, j, pb, e := ScanEnds(c, w);
      if j == i {
        if pb != pa {
          res := 0;
        }
      } else if j == i + 1 {
        res := 2;
        ret1, ret2 := Enter(w[i], pa, pb);
      }
    }

    /** Enters a deduction in both columns; it is reported for the column of the generator. */
    method Enter(a: int, pa: int, pb: int) returns (ret1: int, ret2: int)
      requires Good(table) && Missing(table, a, pa) && Missing(table, Inv(a), pb)
      modifies this
      ensures table == Deduce(old(table), a, pa, pb)
      ensures (ret1, ret2) == if a % 2 == 0 then (pb, Inv(a)) else (pa, a)
    {
      InvFacts(table, a);
      var p;
      if a % 2 == 0 {
        p := a - 1;
        ret1, ret2 := pb, p;
      } else {
        p := a + 1;
        ret1, ret2 := pa, a;
      }
      table := Put(Put(table, a, pa, pb), p, pb, pa);
    }

    /** Scans the first l relators of list x at coset c. */
    method ScanList(c: int, x: int, rels: seq<seq<seq<int>>>, l: nat, todo: seq<(int, int)>)
        returns (ok: bool, stack: seq<(int, int)>)
      requires Good(table) && RelatorLists(table, rels) && Entries(table, todo) && Defined(table, x, c)
      requires 1 <= x < |rels| && l <= |rels[x]|
      modifies this
      ensures Run(rels, old(table), todo, table, stack, ok)
      ensures ok ==> SettledList(table, stack, rels[x], l, c)
    {
      ok, stack := true, todo;
      RunNone(rels, table, todo);
      var i := 0;
      while ok && i < l
        invariant 0 <= i <= l && Run(rels, old(table), todo, table, stack, ok)
        invariant ok ==> SettledList(table, stack, rels[x], i, c)
      {
        ok, stack := ScanOne(c, x, rels, i, stack, todo, old(table));
        i := i + 1;
      }
    }

    /** Scans relator i of list x, when those before it have been scanned. */
    method ScanOne(c: int, x: int, rels: seq<seq<seq<int>>>, i: nat, todo: seq<(int, int)>,
                   ghost todo0: seq<(int, int)>, ghost t0: Table)
        returns (ok: bool, stack: seq<(int, int)>)
      requires Good(table) && RelatorLists(t0, rels) && 1 <= x < |rels| && i < |rels[x]|
      requires Run(rels, t0, todo0, table, todo, true) && Defined(t0, x, c)
      requires SettledList(table, todo, rels[x], i, c)
      modifies this
      ensures Run(rels, t0, todo0, table, stack, ok)
      ensures ok ==> SettledList(table, stack, rels[x], i + 1, c)
    {
      ghost var t := table;
      assert Cell(t0, x, c);
      var res, ret1, ret2;
      ghost var e;
      res, ret1, ret2, e := RelatorScan(c, rels[x][i]);
      stack := todo;
      if res == 2 {
        stack := stack + [(ret2, ret1)];
      }
      ok := res != 0;
      ScanAdds(rels, t0, todo0, t, todo, x, i, c, e, res, ret1, ret2, table);
    }

    /** Scans the relators that can say something about the entry of coset d in column x. */
    method ScanEntry(d: int, x: int, rels: seq<seq<seq<int>>>, todo: seq<(int, int)>)
        returns (ok: bool, stack: seq<(int, int)>)
      requires Good(table) && RelatorLists(table, rels) && Entries(table, todo) && Entry(table, (x, d))
      modifies this
      ensures Run(rels, old(table), todo, table, stack, ok)
      ensures ok ==> SettledEntry(table, stack, rels, d, x)
    {
      ghost var t0 := table;
      InvFacts(table, x);
      var l := |rels[x]|;
      ok, stack := ScanList(d, x, rels, l, todo);
      if ok {
        ok, stack := ScanBack(d, x, rels, stack, todo, t0);
      }
    }

    /** Scans the relators that start with the inverse, at the other end of the entry. */
    method ScanBack(d: int, x: int, rels: seq<seq<seq<int>>>, todo: seq<(int, int)>,
                    ghost todo0: seq<(int, int)>, ghost t0: Table)
        returns (ok: bool, stack: seq<(int, int)>)
      requires Good(table) && RelatorLists(t0, rels) && Run(rels, t0, todo0, table, todo, true) && Entry(t0, (x, d))
      requires 1 <= x < |rels| - 1 && |rels[x]| <= |rels[x + 1]| && Entries(table, todo)
      requires SettledList(table, todo, rels[x], |rels[x]|, d)
      modifies this
      ensures Run(rels, t0, todo0, table, stack, ok)
      ensures ok ==> SettledEntry(table, stack, rels, d, x)
    {
      ghost var t := table;
      EntryLasts(rels, t0, todo0, t, todo, d, x);
      var e := At(table, x, d);
      ok, stack := ScanList(e, x + 1, rels, |rels[x]|, todo);
      BothSettled(rels, t0, todo0, t, todo, table, stack, d, x, ok);
    }

    /**
      Works off the stack of entries: every relator that starts with the column of an entry is scanned at
      its coset, and every relator that starts with the inverse at its image. False means that the
      table has no stable extension, and otherwise it has become the least one.
     */
    method CosetScan(rels: seq<seq<seq<int>>>, todo: seq<(int, int)>) returns (ok: bool)
      requires Good(table) && RelatorLists(table, rels) && Entries(table, todo)
      modifies this
      ensures Good(table) && Extends(old(table), table) && Least(old(table), table, ok, rels)
      ensures Whole(table, rels) && Awaits(old(table), todo, rels) ==> Exact(old(table), table, ok, rels)
    {
      ghost var t0 := table;
      ghost var full := Whole(table, rels) && Awaits(table, todo, rels);
      var stack := todo;
      ok := true;
      while ok && stack != []
        invariant Good(table) && Extends(t0, table) && Least(t0, table, ok, rels) && Entries(table, stack)
        invariant full && ok ==> Awaits(table, stack, rels)
        decreases Undefined(table), |stack|
      {
        ok, stack := ScanTop(rels, stack, t0, full);
      }
      if full {
        ExactlyLeast(t0, table, ok, stack, rels);
      }
    }

    /** Takes the top entry from the stack and scans its relators. */
    method ScanTop(rels: seq<seq<seq<int>>>, todo: seq<(int, int)>, ghost t0: Table, ghost full: bool)
        returns (ok: bool, stack: seq<(int, int)>)
      requires Good(table) && RelatorLists(table, rels) && Entries(table, todo) && todo != []
      requires Good(t0) && Extends(t0, table) && Least(t0, table, true, rels) &&
               (full ==> Whole(table, rels) && Awaits(table, todo, rels))
      modifies this
      ensures Good(table) && Extends(t0, table) && Least(t0, table, ok, rels) && Entries(table, stack)
      ensures full && ok ==> Awaits(table, stack, rels)
      ensures Undefined(table) < Undefined(old(table)) || (table == old(table) && |stack| < |todo|)
    {
      ghost var t := table;
      var (x, d) := todo[|todo| - 1];
      var rest := todo[..|todo| - 1];
      assert todo == rest + [(x, d)] && Entry(t, todo[|todo| - 1]);
      ok, stack := ScanEntry(d, x, rels, rest);
      ExtendsTrans(t0, t, table);
      LeastTrans(rels, t0, t, table, ok);
      if full && ok {
        EntryDone(rels, t, rest, d, x, table, stack);
      }
    }

    /** Defines an entry of a stable table and works out what follows from it. */
    method Try(rels: seq<seq<seq<int>>>, i: int, j: int, b: int) returns (ok: bool)
      requires Good(table) && RelatorLists(table, rels) && Whole(table, rels) && Stable(table, rels)
      requires i % 2 == 1 && Missing(table, i, j) && Missing(table, Inv(i), b)
      modifies this
      ensures Good(table) && Edge(table, i, j, b) && Extends(old(table), table) && (ok ==> Stable(table, rels))
      ensures forall u :: StableExtension(old(table), u, rels) && Edge(u, i, j, b) ==> ok && Extends(table, u)
    {
      ghost var t := table;
      Defining(t, rels, i, j, b);
      table := Put(Put(table, i, j, b), i + 1, b, j);
      ghost var t1 := table;
      ok := CosetScan(rels, [(i, j)]);
      Tried(t, t1, table, ok, rels, i, j, b);
    }
  }

  /** What is least above a table with one more entry is least among the extensions that have the entry. */
  lemma {:induction false} LeastWith(t: Table, v: Table, ok: bool, rels: seq<seq<seq<int>>>, g: int, a: int, b: int)
    requires Good(t) && Missing(t, g, a) && Missing(t, Inv(g), b) && Shape(v) && Least(Deduce(t, g, a, b), v, ok, rels)
    ensures forall u :: StableExtension(t, u, rels) && Edge(u, g, a, b) ==> ok && Extends(v, u)
  {
    forall u | StableExtension(t, u, rels) && Edge(u, g, a, b)
      ensures ok && Extends(v, u)
    {
      DeduceWithin(t, u, g, a, b);
      assert StableExtension(Deduce(t, g, a, b), u, rels);
    }
  }

  /** What holds after the definition of an entry. */
  lemma {:induction false} Defining(t: Table, rels: seq<seq<seq<int>>>, i: int, j: int, b: int)
    requires Good(t) && RelatorLists(t, rels) && Whole(t, rels) && Stable(t, rels)
    requires i % 2 == 1 && Missing(t, i, j) && Missing(t, Inv(i), b)
    ensures var u := Deduce(t, i, j, b);
            && Good(u) && Extends(t, u) && Edge(u, i, j, b) && RelatorLists(u, rels) && Whole(u, rels)
            && Entries(u, [(i, j)]) && Awaits(u, [(i, j)], rels)
  {
    DeduceGood(t, i, j, b);
    OneEntry(t, rels, i, j, b);
  }

  /** What holds when the definition has been worked off. */
  lemma {:induction false} Tried(t: Table, u: Table, v: Table, ok: bool, rels: seq<seq<seq<int>>>, i: int, j: int,
                                 b: int)
    requires Good(t) && Missing(t, i, j) && Missing(t, Inv(i), b) && u == Deduce(t, i, j, b) && Extends(t, u)
    requires Edge(u, i, j, b) && Good(v) && Extends(u, v) && Least(u, v, ok, rels) && Exact(u, v, ok, rels)
    ensures Edge(v, i, j, b) && Extends(t, v) && (ok ==> Stable(v, rels))
    ensures forall w :: StableExtension(t, w, rels) && Edge(w, i, j, b) ==> ok && Extends(v, w)
  {
    ExtendsEdge(u, v, i, j, b);
    ExtendsTrans(t, u, v);
    LeastWith(t, v, ok, rels, i, j, b);
  }

  // ----- working off an entry

  /** The relators that start with an entry, from either end, are settled there. */
  ghost predicate SettledEntry(t: Table, s: seq<(int, int)>, rels: seq<seq<seq<int>>>, d: int, x: int)
  {
    && Shape(t) && 1 <= x < |rels| - 1 && |rels[x]| <= |rels[x + 1]| && Defined(t, x, d)
    && SettledList(t, s, rels[x], |rels[x]|, d) && SettledList(t, s, rels[x + 1], |rels[x]|, At(t, x, d))
  }

  /** The entry is still there, and has its mirror image. */
  lemma {:induction false} EntryLasts(rels: seq<seq<seq<int>>>, t0: Table, s0: seq<(int, int)>, t: Table,
                                      s: seq<(int, int)>, d: int, x: int)
    requires RelatorLists(t0, rels) && Run(rels, t0, s0, t, s, true) && Entry(t0, (x, d)) && 1 <= x < |rels| - 1
    ensures Good(t) && RelatorLists(t, rels) && Entry(t, (x, d)) && Cell(t, x, d) && Defined(t, x + 1, At(t, x, d))
  {
    ExtendsEdge(t0, t, x, d, At(t0, x, d));
    EdgeBack(t, x, d, At(t, x, d));
  }

  lemma {:induction false} BothSettled(rels: seq<seq<seq<int>>>, t0: Table, s0: seq<(int, int)>, t: Table,
                                       s: seq<(int, int)>, u: Table, s': seq<(int, int)>,
                                       d: int, x: int, ok: bool)
    requires RelatorLists(t0, rels) && Run(rels, t0, s0, t, s, true) && Run(rels, t, s, u, s', ok) && Entry(t, (x, d))
    requires 1 <= x < |rels| - 1 && |rels[x]| <= |rels[x + 1]|
    requires SettledList(t, s, rels[x], |rels[x]|, d)
    requires ok ==> SettledList(u, s', rels[x + 1], |rels[x]|, At(t, x, d))
    ensures Run(rels, t0, s0, u, s', ok) && (ok ==> SettledEntry(u, s', rels, d, x))
  {
    RunTrans(rels, t0, s0, t, s, u, s', ok);
    if ok {
      SettledListCarried(t, s, u, s', Rows(t), rels[x], |rels[x]|, d);
      ExtendsEdge(t, u, x, d, At(t, x, d));
    }
  }

  /**
    The lists hold all rotations, as many for a generator as for its inverse, and slots that refer to one column
    have one list.
   */
  ghost predicate Whole(t: Table, rels: seq<seq<seq<int>>>)
  {
    && Joint(t.ref, rels)
    && (forall x :: 1 <= x < |rels| - 1 && x % 2 == 1 ==> |rels[x]| == |rels[x + 1]|)
    && (forall x, m, k {:trigger HasRotation(rels, rels[x][m], k)} ::
          1 <= x < |rels| && 0 <= m < |rels[x]| && 0 <= k < |rels[x][m]| ==> HasRotation(rels, rels[x][m], k))
  }

  /** The loops that waited for the entry do so no longer. */
  lemma {:induction false} Discharge(t: Table, s: seq<(int, int)>, rels: seq<seq<seq<int>>>, d: int, x: int)
    requires Good(t) && RelatorLists(t, rels) && Whole(t, rels) && Entry(t, (x, d))
    requires Awaits(t, s + [(x, d)], rels) && SettledEntry(t, s, rels, d, x)
    ensures Awaits(t, s, rels)
  {
    forall y, m, c | 1 <= y < |rels| && 0 <= m < |rels[y]|
      ensures Settled(t, s, rels[y][m], c)
    {
      var w := rels[y][m];
      assert Settled(t, s + [(x, d)], rels[y][m], c);
      forall ps, i | Loop(t, w, ps, i) && ps[0] == c
        ensures Step(t, w, ps, i) || Hit(t, s, w, ps, i)
      {
        if !Step(t, w, ps, i) {
          DischargeLoop(t, s, rels, d, x, y, m, ps, i);
        }
      }
    }
  }

  lemma {:induction false} DischargeLoop(t: Table, s: seq<(int, int)>, rels: seq<seq<seq<int>>>, d: int, x: int,
                                         y: int, m: int, ps: seq<int>, i: nat)
    requires Good(t) && RelatorLists(t, rels) && Whole(t, rels) && Entry(t, (x, d)) && SettledEntry(t, s, rels, d, x)
    requires 1 <= y < |rels| && 0 <= m < |rels[y]| && Loop(t, rels[y][m], ps, i) &&
             Hit(t, s + [(x, d)], rels[y][m], ps, i)
    ensures Step(t, rels[y][m], ps, i) || Hit(t, s, rels[y][m], ps, i)
  {
    var w := rels[y][m];
    var k: nat :| k < |w| && (k != i || |w| == 1) && Waiting(t, s + [(x, d)], w[k], ps[k]);
    if !Waiting(t, s, w[k], ps[k]) {
      assert HasRotation(rels, rels[y][m], k);
      EntrySettles(t, s, rels, d, x, w[k], ps[k]);
      TurnSettled(t, s, rels, w, ps, i, k);
    }
  }

  lemma {:induction false} EntrySettles(t: Table, s: seq<(int, int)>, rels: seq<seq<seq<int>>>, d: int, x: int,
                                        g: int, p: int)
    requires Good(t) && RelatorLists(t, rels) && Whole(t, rels) && Entry(t, (x, d)) && SettledEntry(t, s, rels, d, x)
    requires 1 <= g < |t.ref| && Waiting(t, s + [(x, d)], g, p) && !Waiting(t, s, g, p)
    ensures SettledList(t, s, rels[g], |rels[g]|, p)
  {
    WaitingAt(t, s, d, x, g, p);
  }

  /** What waits for one entry starts with it, from one end or the other. */
  lemma {:induction false} WaitingAt(t: Table, s: seq<(int, int)>, d: int, x: int, g: int, p: int)
    requires Good(t) && Entry(t, (x, d)) && 1 <= g < |t.ref| && Waiting(t, s + [(x, d)], g, p) && !Waiting(t, s, g, p)
    ensures (g == x || g == x + 1) && (p == d || p == At(t, x, d))
    ensures (g == x && p == d) || (g == x + 1 && p == At(t, x, d)) || Shared(t.ref, x)
  {
    InvFacts(t, x);
    InvFacts(t, g);
    EdgeBack(t, g, p, At(t, g, p));
  }

  lemma {:induction false} CarriesWith(t: Table, s: seq<(int, int)>, u: Table, s': seq<(int, int)>, x: (int, int))
    requires Carries(t, s, u, s', Rows(t))
    ensures Carries(t, s + [x], u, s' + [x], Rows(t))
  {
    forall g, p | Defined(u, g, p) && !Edge(t, g, p, At(u, g, p))
      ensures Waiting(u, s' + [x], g, p)
    {
      assert Waiting(u, s', g, p);
    }
  }

  lemma {:induction false} EntryDone(rels: seq<seq<seq<int>>>, t: Table, s: seq<(int, int)>, d: int, x: int, u: Table,
                                     s': seq<(int, int)>)
    requires RelatorLists(t, rels) && Whole(t, rels) && Run(rels, t, s, u, s', true) && Entry(t, (x, d))
    requires Awaits(t, s + [(x, d)], rels) && SettledEntry(u, s', rels, d, x)
    ensures Awaits(u, s', rels)
  {
    CarriesWith(t, s, u, s', (x, d));
    AwaitsCarried(t, s + [(x, d)], u, s' + [(x, d)], Rows(t), rels);
    Discharge(u, s', rels, d, x);
  }

  // ----- the result

  /** The table has a stable extension if and only if ok, and then u is the least one. */
  ghost predicate Exact(t: Table, u: Table, ok: bool, rels: seq<seq<seq<int>>>)
    requires Shape(t)
  {
    && (ok <==> exists v :: StableExtension(t, v, rels))
    && (ok ==> StableExtension(t, u, rels))
  }

  lemma {:induction false} ExactlyLeast(t: Table, u: Table, ok: bool, s: seq<(int, int)>, rels: seq<seq<seq<int>>>)
    requires Good(t) && Good(u) && Extends(t, u) && Least(t, u, ok, rels) && (ok ==> s == [] && Awaits(u, s, rels))
    ensures Exact(t, u, ok, rels)
  {
    if ok {
      StableAwaits(u, rels);
      assert StableExtension(t, u, rels);
    }
  }

  /** A stable table with one more entry waits for that entry only. */
  lemma {:induction false} OneEntry(t: Table, rels: seq<seq<seq<int>>>, g: int, a: int, b: int)
    requires Good(t) && Stable(t, rels) && Missing(t, g, a) && Missing(t, Inv(g), b)
    ensures Awaits(Deduce(t, g, a, b), [(g, a)], rels)
  {
    var s: seq<(int, int)> := [];
    StableAwaits(t, rels);
    DeduceCarries(t, s, g, a, b, [(g, a)], Rows(t));
    AwaitsCarried(t, s, Deduce(t, g, a, b), [(g, a)], Rows(t), rels);
  }

  lemma {:induction false} EmptyLoop(t: Table, w: seq<int>, ps: seq<int>, i: nat)
    requires Shape(t) && forall g, p :: Cell(t, g, p) ==> At(t, g, p) == 0
    ensures !Loop(t, w, ps, i)
  {
    if |w| > 1 && |ps| == |w| {
      var k := if i == 0 then 1 else 0;
      assert !Step(t, w, ps, k);
    }
  }

  /** The search starts from a stable table. */
  lemma {:induction false} BlankStable(n: nat, shared: seq<bool>, rels: seq<seq<seq<int>>>)
    ensures var t := Blank(n, shared);
            Good(t) && Stable(t, rels) && ((forall k :: 0 <= k < |shared| ==> !shared[k]) ==> Joint(t.ref, rels))
  {
    var t := Blank(n, shared);
    BlankEmpty(n, shared);
    forall x, m | 1 <= x < |rels| && 0 <= m < |rels[x]|
      ensures Closes(t, rels[x][m])
    {
      var w := rels[x][m];
      forall ps, i: nat
        ensures !Loop(t, w, ps, i)
      {
        EmptyLoop(t, w, ps, i);
      }
    }
  }

  // ----- actions

  /** The point that the first k letters of the word take x to. */
  ghost function Acts<X(!new)>(act: (int, X) -> X, w: seq<int>, x: X, k: nat): X
    requires k <= |w|
  {
    if k == 0 then x else act(w[k - 1], Acts(act, w, x, k - 1))
  }

  /** The cosets stand for different points on which the generators act as the table says. */
  ghost predicate Models<X(!new)>(t: Table, f: int -> X, act: (int, X) -> X)
  {
    && Shape(t) && Action(t.ref, act) && Respects(t, f, act)
    && forall c, d {:trigger f(c), f(d)} :: 1 <= c <= t.n && 1 <= d <= t.n && f(c) == f(d) ==> c == d
  }

  /** The word acts trivially on all points that cosets stand for. */
  ghost predicate Fixes<X(!new)>(n: nat, w: seq<int>, f: int -> X, act: (int, X) -> X)
  {
    forall c {:trigger f(c)} :: 1 <= c <= n ==> Acts(act, w, f(c), |w|) == f(c)
  }

  ghost predicate AllFix<X(!new)>(n: nat, rels: seq<seq<seq<int>>>, f: int -> X, act: (int, X) -> X)
  {
    forall x, m :: 1 <= x < |rels| && 0 <= m < |rels[x]| ==> Fixes(n, rels[x][m], f, act)
  }

  lemma {:induction false} LoopActsAhead<X(!new)>(t: Table, w: seq<int>, ps: seq<int>, i: nat, k: nat, f: int -> X,
                                                  act: (int, X) -> X)
    requires Loop(t, w, ps, i) && Respects(t, f, act) && k <= i
    ensures Acts(act, w, f(ps[0]), k) == f(ps[k])
  {
    if k > 0 {
      LoopActsAhead(t, w, ps, i, k - 1, f, act);
      assert Step(t, w, ps, k - 1);
    }
  }

  lemma {:induction false} LoopActsBehind<X(!new)>(t: Table, w: seq<int>, ps: seq<int>, i: nat, k: nat, f: int -> X,
                                                   act: (int, X) -> X)
    requires Loop(t, w, ps, i) && Respects(t, f, act) && Action(t.ref, act) && i < k <= |w| &&
             Acts(act, w, f(ps[0]), |w|) == f(ps[0])
    ensures Acts(act, w, f(ps[0]), k) == f(Point(ps, k))
    decreases |w| - k
  {
    if k < |w| {
      LoopActsBehind(t, w, ps, i, k + 1, f, act);
      assert Step(t, w, ps, k);
      assert Invertible(t.ref, act, w[k], f(ps[k])) && Invertible(t.ref, act, w[k], Acts(act, w, f(ps[0]), k));
    }
  }

  /** Where a relator acts trivially, the letter that a loop leaves out joins its ends. */
  lemma {:induction false} LoopActs<X(!new)>(t: Table, w: seq<int>, ps: seq<int>, i: nat, f: int -> X,
                                             act: (int, X) -> X)
    requires Loop(t, w, ps, i) && Respects(t, f, act) && Action(t.ref, act) && Fixes(t.n, w, f, act)
    ensures act(w[i], f(ps[i])) == f(Point(ps, i + 1))
  {
    LoopInside(t, w, ps, i);
    assert Acts(act, w, f(ps[0]), |w|) == f(ps[0]);
    LoopActsAhead(t, w, ps, i, i, f, act);
    LoopActsBehind(t, w, ps, i, i + 1, f, act);
  }

  lemma {:induction false} LoopInside(t: Table, w: seq<int>, ps: seq<int>, i: nat)
    requires Loop(t, w, ps, i)
    ensures 1 <= ps[0] <= t.n
  {
    if i != 0 {
      assert Step(t, w, ps, 0);
    }
  }

  /** The coset, if any, that the action takes c to. */
  ghost function Image<X(!new)>(n: nat, f: int -> X, act: (int, X) -> X, g: int, c: int): (d: int)
    ensures 0 <= d <= n && (d > 0 ==> act(g, f(c)) == f(d))
    ensures d == 0 ==> forall e {:trigger f(e)} :: 1 <= e <= n ==> act(g, f(c)) != f(e)
  {
    if e :| 1 <= e <= n && act(g, f(c)) == f(e) then e else 0
  }

  /** Some slot that refers to column k, if there is one. */
  ghost function Owner(ref: seq<nat>, k: nat): (g: int)
    ensures g == 0 || (1 <= g < |ref| && ref[g] == k)
    ensures g == 0 ==> forall h :: 1 <= h < |ref| ==> ref[h] != k
  {
    if g :| 1 <= g < |ref| && ref[g] == k then g else 0
  }

  /** The entries that the action makes among the points of the table. */
  ghost function Induced<X(!new)>(t: Table, f: int -> X, act: (int, X) -> X): (u: Table)
    ensures u.n == t.n && u.ref == t.ref && |u.store| == |t.store|
  {
    Table(t.n, t.ref,
          seq(|t.store|,
              k requires 0 <= k < |t.store| => seq(t.n + 1,
                                                   c requires 0 <= c <= t.n => Image(t.n, f, act, Owner(t.ref, k), c))))
  }

  lemma {:induction false} ImageUnique<X(!new)>(t: Table, f: int -> X, act: (int, X) -> X, g: int, c: int, d: int)
    requires Models(t, f, act) && 1 <= d <= t.n && act(g, f(c)) == f(d)
    ensures Image(t.n, f, act, g, c) == d
  {
    var e := Image(t.n, f, act, g, c);
    assert e == 0 ==> act(g, f(c)) != f(d);
    assert f(e) == f(d);
  }

  lemma {:induction false} InducedAt<X(!new)>(t: Table, f: int -> X, act: (int, X) -> X, g: int, c: int)
    requires Models(t, f, act) && Cell(t, g, c)
    ensures var u := Induced(t, f, act); Shape(u) && At(u, g, c) == Image(t.n, f, act, g, c)
  {
    var h := Owner(t.ref, t.ref[g]);
    assert Invertible(t.ref, act, g, f(c)) && Invertible(t.ref, act, h, f(c));
    assert act(h, f(c)) == act(g, f(c));
    var d := Image(t.n, f, act, h, c);
    if d > 0 {
      ImageUnique(t, f, act, g, c, d);
    } else {
      var e := Image(t.n, f, act, g, c);
      assert e > 0 ==> act(h, f(c)) != f(e);
    }
  }

  lemma {:induction false} InducedGood<X(!new)>(t: Table, f: int -> X, act: (int, X) -> X)
    requires Good(t) && Models(t, f, act)
    ensures var u := Induced(t, f, act); Good(u) && Extends(t, u) && Respects(u, f, act)
  {
    var u := Induced(t, f, act);
    assert Shape(u);
    forall g, c | Cell(u, g, c)
      ensures Paired(u, g, c) && 0 <= At(u, g, c) <= t.n && (At(t, g, c) > 0 ==> At(u, g, c) == At(t, g, c))
      ensures At(u, g, c) > 0 ==> f(At(u, g, c)) == act(g, f(c))
    {
      InducedCell(t, f, act, g, c);
    }
  }

  lemma {:induction false} InducedCell<X(!new)>(t: Table, f: int -> X, act: (int, X) -> X, g: int, c: int)
    requires Good(t) && Models(t, f, act) && Cell(t, g, c) && Shape(Induced(t, f, act))
    ensures var u := Induced(t, f, act);
      Paired(u, g, c) && 0 <= At(u, g, c) <= t.n && (At(t, g, c) > 0 ==> At(u, g, c) == At(t, g, c)) &&
          (At(u, g, c) > 0 ==> f(At(u, g, c)) == act(g, f(c)))
  {
    InvFacts(t, g);
    InducedAt(t, f, act, g, c);
    var d := Image(t.n, f, act, g, c);
    if d > 0 {
      assert Invertible(t.ref, act, g, f(c));
      InducedAt(t, f, act, Inv(g), d);
      ImageUnique(t, f, act, Inv(g), d, c);
    }
    if At(t, g, c) > 0 {
      ImageUnique(t, f, act, g, c, At(t, g, c));
    }
  }

  lemma {:induction false} InducedStable<X(!new)>(t: Table, rels: seq<seq<seq<int>>>, f: int -> X, act: (int, X) -> X)
    requires Good(t) && Models(t, f, act) && AllFix(t.n, rels, f, act)
    ensures Good(Induced(t, f, act)) && StableExtension(t, Induced(t, f, act), rels)
  {
    var u := Induced(t, f, act);
    InducedGood(t, f, act);
    forall x, m | 1 <= x < |rels| && 0 <= m < |rels[x]|
      ensures Closes(u, rels[x][m])
    {
      var w := rels[x][m];
      forall ps, i: nat | Loop(u, w, ps, i)
        ensures Step(u, w, ps, i)
      {
        LoopActs(u, w, ps, i, f, act);
        InducedAt(t, f, act, w[i], ps[i]);
        ImageUnique(t, f, act, w[i], ps[i], Point(ps, i + 1));
      }
    }
  }

  /**
    If the generators act so that the relators act trivially, as the table says, then every deduction agrees
    with the action.
   */
  lemma {:induction false} LeastModels<X(!new)>(t: Table, u: Table, ok: bool, rels: seq<seq<seq<int>>>, f: int -> X,
                                                act: (int, X) -> X)
    requires Good(t) && Good(u) && Extends(t, u) && Least(t, u, ok, rels) && Models(t, f, act) &&
             AllFix(t.n, rels, f, act)
    ensures ok && Models(u, f, act)
  {
    var v := Induced(t, f, act);
    InducedStable(t, rels, f, act);
    InducedGood(t, f, act);
    forall g, c | Cell(u, g, c) && At(u, g, c) > 0
      ensures f(At(u, g, c)) == act(g, f(c))
    {
      assert At(v, g, c) == At(u, g, c);
    }
  }

  // ----- complete tables

  ghost predicate Complete(u: Table)
  {
    Good(u) && forall g, c {:trigger At(u, g, c)} :: Cell(u, g, c) ==> At(u, g, c) > 0
  }

  /** The table as an action on all integers, those that are no cosets staying where they are. */
  ghost function Moves(u: Table): (int, int) -> int
    requires Shape(u)
  {
    (g, c) => if Cell(u, g, c) then At(u, g, c) else c
  }

  ghost function Same(): int -> int
  {
    c => c
  }

  /** A complete table in which the relators fix all cosets. */
  ghost predicate Completion(u: Table, rels: seq<seq<seq<int>>>)
  {
    Complete(u) && AllFix(u.n, rels, Same(), Moves(u))
  }

  lemma {:induction false} CompletionModels(t: Table, u: Table)
    requires Good(t) && Complete(u) && Extends(t, u)
    ensures Models(t, Same(), Moves(u))
  {
    var act := Moves(u);
    forall g, x | 1 <= g < |u.ref|
      ensures Invertible(u.ref, act, g, x)
    {
      InvFacts(u, g);
      if Cell(u, g, x) {
        assert Paired(u, g, x);
      }
    }
  }

  /** Every deduction agrees with every completion; so False says that there is none. */
  lemma {:induction false} LeastCompletion(t: Table, u: Table, ok: bool, rels: seq<seq<seq<int>>>, v: Table)
    requires Good(t) && Good(u) && Extends(t, u) && Least(t, u, ok, rels) && Completion(v, rels) && Extends(t, v)
    ensures ok && Extends(u, v)
  {
    CompletionModels(t, v);
    LeastModels(t, u, ok, rels, Same(), Moves(v));
    forall g, c | Cell(u, g, c) && At(u, g, c) > 0
      ensures At(v, g, c) == At(u, g, c)
    {
      assert Same()(At(u, g, c)) == Moves(v)(g, Same()(c));
    }
  }

  /** A complete table is stable if and only if the relators fix all cosets. */
  lemma {:induction false} CompleteStable(u: Table, rels: seq<seq<seq<int>>>)
    requires Complete(u) && RelatorLists(u, rels)
    ensures Stable(u, rels) <==> Completion(u, rels)
  {
    if Completion(u, rels) {
      forall x, m | 1 <= x < |rels| && 0 <= m < |rels[x]|
        ensures Closes(u, rels[x][m])
      {
        FixesCloses(u, rels[x][m]);
      }
    }
    if Stable(u, rels) {
      forall x, m | 1 <= x < |rels| && 0 <= m < |rels[x]|
        ensures Fixes(u.n, rels[x][m], Same(), Moves(u))
      {
        ClosesFixes(u, rels[x][m]);
      }
    }
  }

  lemma {:induction false} FixesCloses(u: Table, w: seq<int>)
    requires Complete(u) && Fixes(u.n, w, Same(), Moves(u))
    ensures Closes(u, w)
  {
    CompletionModels(u, u);
    forall ps, i: nat | Loop(u, w, ps, i)
      ensures Step(u, w, ps, i)
    {
      LoopActs(u, w, ps, i, Same(), Moves(u));
      assert At(u, w[i], ps[i]) > 0;
    }
  }

  lemma {:induction false} ClosesFixes(u: Table, w: seq<int>)
    requires Complete(u) && Letters(u, w) && w != [] && Closes(u, w)
    ensures Fixes(u.n, w, Same(), Moves(u))
  {
    var act := Moves(u);
    forall c | 1 <= c <= u.n
      ensures Acts(act, w, Same()(c), |w|) == Same()(c)
    {
      var ps := seq(|w|, k requires 0 <= k < |w| => Acts(act, w, c, k));
      var i := |w| - 1;
      forall k: nat | k < |w|
        ensures Cell(u, w[k], ps[k]) && At(u, w[k], ps[k]) > 0 && (k != i ==> Step(u, w, ps, k))
      {
        ActsInside(u, w, c, k);
        assert At(u, w[k], ps[k]) > 0;
      }
      assert ps[0] == c;
      assert Loop(u, w, ps, i);
      assert Step(u, w, ps, i);
    }
  }

  lemma {:induction false} ActsInside(u: Table, w: seq<int>, c: int, k: nat)
    requires Complete(u) && Letters(u, w) && 1 <= c <= u.n && k <= |w|
    ensures 1 <= Acts(Moves(u), w, c, k) <= u.n
  {
    if k > 0 {
      ActsInside(u, w, c, k - 1);
      assert At(u, w[k - 1], Acts(Moves(u), w, c, k - 1)) > 0;
    }
  }
}
