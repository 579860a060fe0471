/**
  The static state of the Todd-Coxeter kernel and its coincidence handling.
 */
module CosetEnumeration {
  import opened CosetTable
  import opened CosetLists
  import opened Coincidence
  import opened Deductions
  import opened Gaps

  /**
    What the links stand for: the live list, the coincidence queue, the free list,
    the representatives, and the set of live and queued cosets.
   */
  datatype Lists = Lists(live: seq<int>, queue: seq<int>, free: seq<int>, rep: seq<int>, open: set<int>)

  ghost predicate Usable(t: Table, ds: seq<(int, int)>)
  {
    forall i :: 0 <= i < |ds| ==> Cell(t, ds[i].0, ds[i].1)
  }

  /** The entries at from..to-1 of a deduction list that still name a defined table entry. */
  ghost function Current(t: Table, ds: seq<(int, int)>, lo: int, hi: int): (r: seq<(int, int)>)
    requires Shape(t) && Usable(t, ds) && 0 <= lo && hi <= |ds|
    ensures |r| == 0 || |r| <= hi - lo
    ensures Usable(t, r)
    decreases hi
  {
    if hi <= lo then []
    else
      Current(t, ds, lo, hi - 1) + (if At(t, ds[hi - 1].0, ds[hi - 1].1) > 0 then [ds[hi - 1]] else [])
  }

  lemma {:induction false} CurrentNext(t: Table, ds: seq<(int, int)>, lo: int, i: int, kept: seq<(int, int)>)
    requires Shape(t) && Usable(t, ds) && 0 <= lo && 0 <= i < |ds| && kept == Current(t, ds, lo, i)
    ensures Current(t, ds, lo, i + 1) == if lo <= i && At(t, ds[i].0, ds[i].1) > 0 then kept + [ds[i]] else kept
  {
  }

  /**
    What compressing does to the deduction in work, at index fst: it comes first if it is still defined and was not at
    index 0; otherwise it goes, so that the one behind it takes its place.
   */
  lemma {:induction false} CompressedHead(t: Table, ds: seq<(int, int)>, fst: int, hi: int)
    requires Shape(t) && Usable(t, ds) && 0 <= fst < hi <= |ds|
    ensures var r := Current(t, ds, if fst == 0 then 1 else fst, hi);
            if fst > 0 && At(t, ds[fst].0, ds[fst].1) > 0 then r == [ds[fst]] + Current(t, ds, fst + 1, hi)
            else r == Current(t, ds, fst + 1, hi)
    decreases hi
  {
    if fst > 0 && hi > fst + 1 {
      CompressedHead(t, ds, fst, hi - 1);
    }
  }

  /** What coincidences are counted from. */
  datatype Tally = Tally(t: Table, p: Pushes, free: seq<int>, nrdel: int, open: set<int>, count: int, ready: bool)

  /** firstDef and lastDef, at positions f and l of the old list, went back to the last survivors up to there. */
  ghost predicate DefsFollow(live: seq<int>, rep: seq<int>, f: int, l: int, fst: int, fst': int, lst: int, lst': int)
    requires forall i :: 0 <= i < |live| ==> 0 <= live[i] < |rep|
  {
    && 0 <= f < |live| && live[f] == fst && LastSurvivor(live, rep, f, fst')
    && 0 <= l < |live| && live[l] == lst && LastSurvivor(live, rep, l, lst')
  }

  /** firstDef and lastDef. */
  datatype Defs = Defs(first: int, last: int)

  /** Both were live, and went back to the last survivors up to where they were. */
  ghost predicate DefsMoved(live: seq<int>, rep: seq<int>, d: Defs, d': Defs)
  {
    && (forall i :: 0 <= i < |live| ==> 0 <= live[i] < |rep|)
    && exists f, l :: DefsFollow(live, rep, f, l, d.first, d'.first, d.last, d'.last)
  }

  lemma {:induction false} DefsStay(live: seq<int>, n: nat, d: Defs)
    requires Within(live, n) && d.first in live && d.last in live
    ensures DefsMoved(live, Identity(n), d, d)
  {
    var f :| 0 <= f < |live| && live[f] == d.first;
    var l :| 0 <= l < |live| && live[l] == d.last;
    LastSurvivorStart(n, live, f);
    LastSurvivorStart(n, live, l);
    assert DefsFollow(live, Identity(n), f, l, d.first, d.first, d.last, d.last);
  }

  /** The last survivor of the survivors, from the last survivor on, is the last one that survives both. */
  lemma {:induction false} LastSurvivorThen(live: seq<int>, n: nat, rep: seq<int>, r: seq<int>, k: int, c: int, m: int,
                                            d: int)
    requires Within(live, n) && RepMap(n, rep) && RepMap(n, r) && rep[0] == 0 && 0 <= k < |live|
    requires (SurvivorsComposed(live, n, rep, r); Within(Survivors(live, rep), n)) && NoDup(Survivors(live, rep))
    requires LastSurvivor(live, rep, k, c) && 0 <= m < |Survivors(live, rep)| && Survivors(live, rep)[m] == c
    requires LastSurvivor(Survivors(live, rep), r, m, d)
    ensures LastSurvivor(live, Composed(rep, r), k, d)
  {
    var live', t := Survivors(live, rep), Survivors(live[..k + 1], rep);
    SurvivorsPrefix(live, rep, k + 1);
    NoDupFacts(live');
    assert live'[|t| - 1] == t[|t| - 1] == c;
    assert m == |t| - 1 && live'[..m + 1] == t;
    SurvivorsComposed(live[..k + 1], n, rep, r);
  }

  /** Going back twice is going back once. */
  lemma {:induction false} DefsThen(live: seq<int>, n: nat, rep: seq<int>, r: seq<int>, d: Defs, d': Defs, d'': Defs)
    requires Within(live, n) && RepMap(n, rep) && RepMap(n, r) && rep[0] == 0 && NoDup(Survivors(live, rep))
    requires DefsMoved(live, rep, d, d') && DefsMoved(Survivors(live, rep), r, d', d'')
    ensures DefsMoved(live, Composed(rep, r), d, d'')
  {
    var live' := Survivors(live, rep);
    SurvivorsComposed(live, n, rep, r);
    var f, l :| DefsFollow(live, rep, f, l, d.first, d'.first, d.last, d'.last);
    var f', l' :| DefsFollow(live', r, f', l', d'.first, d''.first, d'.last, d''.last);
    LastSurvivorThen(live, n, rep, r, f, d'.first, f', d''.first);
    LastSurvivorThen(live, n, rep, r, l, d'.last, l', d''.last);
    assert DefsFollow(live, Composed(rep, r), f, l, d.first, d''.first, d.last, d''.last);
  }

  /** Coset 1 is live, and the cosets 2..n are free. */
  lemma {:induction false} FirstLinks(n: nat, next: seq<int>, prev: seq<int>, free: seq<int>)
    requires n >= 2 && |next| == |prev| == n + 1 && |free| == n - 1
    requires forall i :: 0 <= i < n - 1 ==> free[i] == i + 2
    requires next[1] == 0 && forall c :: 2 <= c <= n ==> next[c] == if c < n then c + 1 else 0
    ensures Links(n, next, prev, [1], [], free)
  {
    NoDupFacts([1]);
    NoDupFacts([]);
    NoDupFacts(free);
    ApartFacts([1], free);
    assert Chain(n, next, free);
  }

  class CosetEnumerator {
    var table: Table
    var next: seq<int>
    var prev: seq<int>
    var firstDef: int
    var lastDef: int
    var firstFree: int
    var lastFree: int
    const minGaps: int
    var nrdel: int
    const ded: array<(int, int)>    // the deduction list: generator and coset
    var dedfst: int
    var dedlst: int

    // the queue of coincidences that are still to be worked off
    var firstCoinc: int
    var lastCoinc: int

    ghost var ls: Lists
    ghost var pl: Pushes

    /** One live coset, and the cosets 2..n free; every column is empty. */
    constructor (n: nat, shared: seq<bool>, minGaps: int)
      requires n >= 2
      ensures Valid() && this.minGaps == minGaps && table == Blank(n, shared)
      ensures ls.live == [1] && ls.free == seq(n - 1, i => i + 2) && firstDef == lastDef == 1
      ensures nrdel == 0 && dedfst == dedlst == 0
    {
      table := Blank(n, shared);
      next := seq(n + 1, c => if 2 <= c < n then c + 1 else 0);
      prev := seq(n + 1, c => if 2 < c then c - 1 else 0);
      firstDef, lastDef, firstFree, lastFree := 1, 1, 2, n;
      this.minGaps, nrdel, dedfst, dedlst, firstCoinc, lastCoinc := minGaps, 0, 0, 0, 0, 0;
      ded := new (int, int)[DED_SIZE](i => (0, 0));
      ls := Lists([1], [], seq(n - 1, i => i + 2), Identity(n), {1});
      pl := Pushes([], 0, [], [], false);
      new;
      BlankEmpty(n, shared);
      FirstLinks(n, next, prev, ls.free);
    }

    ghost predicate LinksOK()
      reads this
    {
      && Links(table.n, next, prev, ls.live, ls.queue, ls.free) && Open(ls.open, ls.live, ls.queue)
      && Ends(ls.queue, firstCoinc, lastCoinc) && Ends(ls.free, firstFree, lastFree)
      && firstDef in ls.live && lastDef in ls.live
    }

    ghost predicate TableOK()
      reads this
    {
      Shape(table) && Consistent(table) && RowsIn(table, ls.open)
    }

    ghost predicate DeductionsOK()
      reads this, ded
    {
      && ded.Length == DED_SIZE
      && 0 <= dedfst <= dedlst <= DED_SIZE
      && ded[..dedlst] == pl.list && Usable(table, pl.list) && (pl.lost || Listed(pl, dedfst))
    }

    /** Between calls: no coincidence is pending. */
    ghost predicate Valid()
      reads this, ded
    {
      LinksOK() && TableOK() && DeductionsOK() && ls.queue == []
    }

    /**
      Makes room in the full deduction list.  Stale entries go, and so does the
      entry at index 0, so there always is room afterwards.
     */
    method CompressDeductionList()
      requires Shape(table) && DeductionsOK() && dedlst == DED_SIZE
      modifies this`dedfst, this`dedlst, ded, this`pl
      ensures DeductionsOK() && dedfst == 0 && dedlst < DED_SIZE && pl == old(pl).(list := pl.list, lost := true)
      ensures |old(pl.list)| == DED_SIZE &&
              pl.list == Current(table, old(pl.list), old(if dedfst == 0 then 1 else dedfst), DED_SIZE)
    {
      ghost var from, all := if dedfst == 0 then 1 else dedfst, pl.list;
      assert ded[..dedlst] == ded[..];
      var j, i := 0, dedfst;
      while i < dedlst
        invariant dedfst == old(dedfst) && dedlst == DED_SIZE && pl == old(pl)
        invariant dedfst <= i <= dedlst && Compressing(all, from, i, j)
      {
        j := Compress(i, j, all, from);
        i := i + 1;
      }
      dedfst := 0;
      dedlst := j;
      pl := pl.(list := ded[..j], lost := true);
    }

    /** The first j entries are those that are kept of the first i. */
    ghost predicate Compressing(all: seq<(int, int)>, from: int, i: int, j: int)
      reads this, ded
    {
      && ded.Length == DED_SIZE == |all| && Shape(table) && Usable(table, all) && 1 <= from
      && 0 <= j <= i <= DED_SIZE && (i > 0 ==> j < i) && (i == 0 || from <= i)
      && ded[i..] == all[i..] && ded[..j] == Current(table, all, from, i)
    }

    /** Keeps entry i, or not. */
    method Compress(i: int, j: int, ghost all: seq<(int, int)>, ghost from: int) returns (j': int)
      requires Compressing(all, from, i, j) && i < DED_SIZE && (i == 0 ==> from == 1)
      modifies ded
      ensures Compressing(all, from, i + 1, j')
    {
      ghost var kept, rest := ded[..j], ded[i..];
      CurrentNext(table, all, from, i, kept);
      assert ded[i] == rest[0] == all[i..][0] == all[i];
      j' := j;
      if At(table, ded[i].0, ded[i].1) > 0 && j < i {
        ded[j] := ded[i];
        j' := j + 1;
        assert ded[..j'] == kept + [all[i]];
      }
      assert ded[i + 1..] == rest[1..] == all[i..][1..] == all[i + 1..];
    }

    method AddDeduction(g: int, c: int)
      requires Shape(table) && DeductionsOK() && Cell(table, g, c)
      modifies this`dedfst, this`dedlst, ded, this`pl
      ensures DeductionsOK() && dedfst < dedlst
      ensures pl == old(pl).(list := pl.list, added := old(pl.added) + [(g, c)],
                             lost := old(pl.lost || dedlst == DED_SIZE))
      ensures old(dedlst) < DED_SIZE ==> dedfst == old(dedfst) && pl.list == old(pl.list) + [(g, c)]
      ensures old(dedlst) == DED_SIZE ==>
                && dedfst == 0 && |old(pl.list)| == DED_SIZE
                && pl.list == Current(table, old(pl.list), old(if dedfst == 0 then 1 else dedfst), DED_SIZE) + [(g, c)]
    {
      if dedlst == DED_SIZE {
        CompressDeductionList();
      }
      Append(g, c);
    }

    method Append(g: int, c: int)
      requires Shape(table) && DeductionsOK() && Cell(table, g, c) && dedlst < DED_SIZE
      modifies this`dedlst, ded, this`pl
      ensures DeductionsOK() && dedlst == old(dedlst) + 1
      ensures pl == old(pl).(list := old(pl.list) + [(g, c)], added := old(pl.added) + [(g, c)])
    {
      ghost var kept := pl.list;
      ded[dedlst] := (g, c);
      dedlst := dedlst + 1;
      assert ded[..dedlst] == kept + [(g, c)];
      assert pl.ds + pl.added + [(g, c)] == pl.ds + (pl.added + [(g, c)]);
      pl := pl.(list := kept + [(g, c)], added := pl.added + [(g, c)]);
    }

    lemma {:induction false} WalkFacts(r: int)
      requires LinksOK() && (r in ls.live || r in ls.queue)
      ensures 1 <= r <= table.n
      ensures r in ls.live ==> r == 1 || (1 <= prev[r] <= table.n && next[prev[r]] == r)
      ensures r in ls.queue ==>
                r != 1 && 1 <= prev[r] < r && next[prev[r]] != r && (prev[r] in ls.live || prev[r] in ls.queue)
    {
      if r in ls.live {
        LiveStop(table.n, next, prev, ls.live, r);
      }
      if r in ls.queue {
        QueueGoesOn(table.n, next, prev, ls.live, ls.queue, ls.free, r);
      }
    }

    /** Walks along the forwarding entries to the live representative. */
    method FindRep(c: int) returns (r: int)
      requires LinksOK() && |ls.rep| == table.n + 1
      requires forall i :: 0 <= i < |ls.live| ==> ls.rep[ls.live[i]] == ls.live[i]
      requires forall i {:trigger prev[ls.queue[i]]} :: 0 <= i < |ls.queue| ==>
                  1 <= prev[ls.queue[i]] <= table.n && ls.rep[prev[ls.queue[i]]] == ls.rep[ls.queue[i]]
      requires c in ls.live || c in ls.queue
      ensures r == ls.rep[c] && r in ls.live
    {
      r := c;
      WalkFacts(c);
      while r != 1 && next[prev[r]] != r
        invariant r in ls.live || r in ls.queue
        invariant 1 <= c <= table.n && 1 <= r <= table.n && ls.rep[r] == ls.rep[c]
        invariant r in ls.live ==> r == 1 || (1 <= prev[r] <= table.n && next[prev[r]] == r)
        invariant r in ls.queue ==> r != 1 && 1 <= prev[r] < r && next[prev[r]] != r
        decreases r
      {
        ghost var i :| 0 <= i < |ls.queue| && ls.queue[i] == r;
        assert ls.rep[prev[ls.queue[i]]] == ls.rep[ls.queue[i]];
        r := prev[r];
        WalkFacts(r);
      }
    }

    /** Removes a coset from the live list. */
    method Unlink(c: int, ghost p: int)
      requires LiveList(table.n, next, prev, ls.live) && 0 < p < |ls.live| && ls.live[p] == c
      modifies this`next, this`prev
      ensures Unlinked(table.n, old(next), old(prev), next, prev, ls.live, p)
    {
      assert prev[ls.live[p]] == ls.live[p - 1] && next[ls.live[p]] == if p + 1 < |ls.live| then ls.live[p + 1] else 0;
      next := next[prev[c] := next[c]];
      if next[c] != 0 {
        prev := prev[next[c] := prev[c]];
      }
    }

    /** Appends a coset to the coincidence list and forwards it to its representative. */
    method Enqueue(c: int, r: int)
      requires Ends(ls.queue, firstCoinc, lastCoinc) && Within(ls.queue, table.n)
      requires |next| == table.n + 1 == |prev| && 1 <= c <= table.n
      modifies this`next, this`prev, this`firstCoinc, this`lastCoinc
      ensures next == Appended(old(next), ls.queue, c)
      ensures prev == old(prev)[c := r]
      ensures Ends(ls.queue + [c], firstCoinc, lastCoinc)
    {
      if firstCoinc == 0 {
        firstCoinc := c;
      } else {
        next := next[lastCoinc := c];
      }
      lastCoinc := c;
      next := next[lastCoinc := 0];
      prev := prev[c := r];
    }

    /** The links as far as one identification is concerned. */
    ghost predicate Forwarding(live0: seq<int>)
      reads this
    {
      && Forwarded(table.n, next, prev, ls.live, ls.queue, ls.free, live0, ls.rep, ls.open)
      && Ends(ls.queue, firstCoinc, lastCoinc) && Ends(ls.free, firstFree, lastFree)
      && firstDef in ls.live && lastDef in ls.live
    }

    /** The writes that merge c2 into c1; c2 is at position p of the live list. */
    method Relink(c1: int, c2: int, ghost p: int) returns (ghost next1: seq<int>, ghost prev1: seq<int>)
      requires LiveList(table.n, next, prev, ls.live) && 0 < p < |ls.live| && ls.live[p] == c2
      requires Ends(ls.queue, firstCoinc, lastCoinc) && Within(ls.queue, table.n)
      modifies this`next, this`prev, this`firstDef, this`lastDef, this`firstCoinc, this`lastCoinc
      ensures Unlinked(table.n, old(next), old(prev), next1, prev1, ls.live, p)
      ensures next == Appended(next1, ls.queue, ls.live[p]) && prev == prev1[ls.live[p] := c1]
      ensures Ends(ls.queue + [c2], firstCoinc, lastCoinc)
      ensures firstDef == if old(firstDef) == ls.live[p] then ls.live[p - 1] else old(firstDef)
      ensures lastDef == if old(lastDef) == ls.live[p] then ls.live[p - 1] else old(lastDef)
    {
      assert prev[ls.live[p]] == ls.live[p - 1];

      // the definition pointers step back over the dropped coset
      if c2 == lastDef {
        lastDef := prev[lastDef];
      }
      if c2 == firstDef {
        firstDef := prev[firstDef];
      }
      Unlink(c2, p);
      next1, prev1 := next, prev;
      Enqueue(c2, c1);
    }

    /** Where firstDef and lastDef have got to. */
    ghost predicate DefsTrack(live0: seq<int>, f: int, l: int)
      requires Within(live0, table.n) && |ls.rep| == table.n + 1
      reads this
    {
      && (0 <= f < |live0| ==> LastSurvivor(live0, ls.rep, f, firstDef))
      && (0 <= l < |live0| ==> LastSurvivor(live0, ls.rep, l, lastDef))
    }

    /** Merges the larger of two live cosets into the smaller one. */
    method Identify(c1: int, c2: int, ghost live0: seq<int>, ghost f: int, ghost l: int)
      requires Forwarding(live0) && DefsTrack(live0, f, l) && c1 in ls.live && c2 in ls.live && c1 < c2
      modifies this`next, this`prev, this`firstDef, this`lastDef, this`firstCoinc, this`lastCoinc
      modifies this`ls
      ensures Forwarding(live0) && DefsTrack(live0, f, l)
      ensures ls.rep == Merged(old(ls.rep), c1, c2) && ls.queue == old(ls.queue) + [c2] &&
              |ls.live| == old(|ls.live|) - 1
      ensures ls.free == old(ls.free) && ls.open == old(ls.open)
    {
      ghost var n, next0, prev0, ls0, fst, lst := table.n, next, prev, ls, firstDef, lastDef;
      ghost var p :| 0 <= p < |ls.live| && ls.live[p] == c2;
      ghost var next1, prev1 := Relink(c1, c2, p);
      IdentifyLinks(n, next0, prev0, ls0.live, ls0.queue, ls0.free, live0, ls0.rep, ls0.open, p, c1, next1, prev1,
                    next, prev);
      IdentifyDef(n, ls0.live, live0, ls0.rep, p, c1, fst, firstDef, f);
      IdentifyDef(n, ls0.live, live0, ls0.rep, p, c1, lst, lastDef, l);
      ls := Lists(RemoveAt(ls0.live, p), ls0.queue + [c2], ls0.free, Merged(ls0.rep, c1, c2), ls0.open);
    }

    /** Row cos1 inherits an entry of row cos2, having none of its own in this column. */
    method MoveRowEntry(i: int, cos1: int, cos2: int, ghost t0: Table)
      requires Shape(table) && Consistent(table) && Cell(table, i, cos1) && Cell(table, i, cos2)
      requires At(table, i, cos2) > 0 && DeductionsOK() && Tracked(t0, table, pl.added) && SameFrame(t0, table)
      modifies this`table, this`dedfst, this`dedlst, ded, this`pl
      ensures table == MoveEntry(old(table), i, cos1, cos2) && DeductionsOK() && dedfst < dedlst
      ensures Grew(old(pl), pl) && Tracked(t0, table, pl.added) && Spends(old(table), old(pl), table, pl, 5)
      ensures pl.added == old(pl.added) + [(i, cos1)]
    {
      ghost var t1, p := table, pl;
      InvFacts(table, i);
      assert Paired(table, i, cos2);
      TrackedMove(t0, t1, p.added, i, cos1, cos2);
      var c2 := At(table, i, cos2);
      var t := Put(table, i, cos1, c2);
      t := Put(t, i, cos2, 0);
      table := Put(t, Inv(i), c2, cos1);
      AddDeduction(i, cos1);
      SpendsMove(t1, p, i, cos1, cos2, pl);
    }

    /** Deletes an entry of row cos2; row cos1 has an entry of its own in this column. */
    method DropRowEntry(i: int, cos1: int, cos2: int, ghost t0: Table)
      requires Shape(table) && Consistent(table) && Cell(table, i, cos1) && Cell(table, i, cos2) && cos1 != cos2
      requires At(table, i, cos2) > 0 && At(table, i, cos1) > 0 && DeductionsOK() && Tracked(t0, table, pl.added) &&
               SameFrame(t0, table)
      modifies this`table, this`dedfst, this`dedlst, ded, this`pl
      ensures table == DropEntry(old(table), i, cos1, cos2) && DeductionsOK() && Grew(old(pl), pl)
      ensures pl.added == old(pl.added) + if LosesKeep(old(table), i, cos1, cos2) then [(i, cos1)] else []
      ensures Tracked(t0, table, pl.added) && Spends(old(table), old(pl), table, pl, 5)
      ensures old(dedfst < dedlst) ==> dedfst < dedlst
    {
      ghost var t1, p := table, pl;
      InvFacts(table, i);
      assert Paired(table, i, cos2);
      var c2 := At(table, i, cos2);
      var t := Put(table, Inv(i), c2, 0);
      t := Put(t, i, cos2, 0);
      if At(t, i, cos1) <= 0 {
        table := Put(t, i, cos1, cos1);
        AddDeduction(i, cos1);
      } else {
        table := t;
      }
      TrackedDrop(t0, t1, p.added, i, cos1, cos2, pl.added);
      SpendsDrop(t1, p, i, cos1, cos2, pl);
    }

    /** Keeps the mark of a minimal gap. */
    method MarkGap(i: int, cos1: int, cos2: int)
      requires Shape(table) && Cell(table, i, cos1) && Cell(table, i, cos2)
      modifies this`table
      ensures table == PassGap(old(table), minGaps != 0, i, cos1, cos2)
    {
      var t := table;
      if minGaps != 0 && At(t, i, cos2) == -1 {
        if At(t, i, cos1) <= 0 {
          t := Put(t, i, cos1, -1);
        }
        table := Put(t, i, cos2, 0);
      }
    }

    /** Identifies c and d, which the table forces to be equal. */
    method MergeTargets(c: int, d: int, ghost live0: seq<int>, ghost f: int, ghost l: int)
      requires Forwarding(live0) && DefsTrack(live0, f, l)
      requires c in ls.open && d in ls.open
      modifies this`next, this`prev, this`firstDef, this`lastDef, this`firstCoinc, this`lastCoinc, this`ls
      ensures Forwarding(live0) && DefsTrack(live0, f, l)
      ensures 1 <= c <= table.n && 1 <= d <= table.n && |old(ls.rep)| == table.n + 1
      ensures var x, y := old(ls.rep)[c], old(ls.rep)[d];
              if x == y then ls == old(ls)
              else ls.rep == Merged(old(ls.rep), if x < y then x else y, if x < y then y else x)
      ensures old(ls.rep)[c] in ls.open && old(ls.rep)[d] in ls.open
      ensures old(ls.queue) <= ls.queue && |ls.live| + |ls.queue| == old(|ls.live| + |ls.queue|)
      ensures ls.free == old(ls.free) && ls.open == old(ls.open)
    {
      var c1 := FindRep(c);
      var c2 := FindRep(d);
      if c1 != c2 {
        if c2 < c1 {
          c1, c2 := c2, c1;
        }
        Identify(c1, c2, live0, f, l);
      }
    }

    /** A coincidence queue is being worked off; see `Underway`. */
    ghost predicate Working(t0: Table, live0: seq<int>, f: int, l: int, a: int, b: int)
      reads this
    {
      && Forwarding(live0) && DefsTrack(live0, f, l)
      && Underway(t0, table, ls.open, ls.rep, a, b, minGaps != 0)
    }

    ghost predicate RowOf(cos1: int, cos2: int)
      reads this
    {
      && 1 <= cos1 <= table.n && 1 <= cos2 <= table.n && cos1 != cos2 && |ls.rep| == table.n + 1
      && cos1 in ls.open && ls.rep[cos1] == ls.rep[cos2]
    }

    /** Replaces cos2 by its representative cos1 in one column. */
    method Column(i: int, cos1: int, cos2: int,
                  ghost t0: Table, ghost live0: seq<int>, ghost f: int, ghost l: int, ghost a: int, ghost b: int)
      requires Working(t0, live0, f, l, a, b) && RowOf(cos1, cos2) && DeductionsOK()
      requires 1 <= i < |table.ref| && Emptied(table, minGaps != 0, cos1, cos2, i - 1) && Tracked(t0, table, pl.added)
      modifies this`table, this`dedfst, this`dedlst, ded, this`pl
      modifies this`next, this`prev, this`firstDef, this`lastDef, this`firstCoinc, this`lastCoinc, this`ls
      ensures Working(t0, live0, f, l, a, b) && RowOf(cos1, cos2) && DeductionsOK()
      ensures SameFrame(old(table), table) && Emptied(table, minGaps != 0, cos1, cos2, i) &&
              Tracked(t0, table, pl.added) && Grew(old(pl), pl)
      ensures old(ls.queue) <= ls.queue && |ls.live| + |ls.queue| == old(|ls.live| + |ls.queue|)
      ensures ls.free == old(ls.free) && ls.open == old(ls.open)
      ensures Spends(old(table), old(pl), table, pl, 5)
      ensures old(dedfst < dedlst) ==> dedfst < dedlst
    {
      var c2 := At(table, i, cos2);
      if c2 > 0 {
        if At(table, i, cos1) <= 0 {
          // row cos1 has no entry here: it inherits the one of cos2
          MoveColumn(i, cos1, cos2, t0, live0, f, l, a, b);
        } else {
          // both rows have an entry: their targets are equal, too
          DropColumn(i, cos1, cos2, t0, live0, f, l, a, b);
        }
      } else {
        MarkColumn(i, cos1, cos2, t0, live0, f, l, a, b);
      }
    }

    method MoveColumn(i: int, cos1: int, cos2: int,
                      ghost t0: Table, ghost live0: seq<int>, ghost f: int, ghost l: int, ghost a: int, ghost b: int)
      requires Working(t0, live0, f, l, a, b) && RowOf(cos1, cos2) && DeductionsOK()
      requires 1 <= i < |table.ref| && Emptied(table, minGaps != 0, cos1, cos2, i - 1) && Tracked(t0, table, pl.added)
      requires At(table, i, cos2) > 0 && At(table, i, cos1) <= 0
      modifies this`table, this`dedfst, this`dedlst, ded, this`pl
      ensures Working(t0, live0, f, l, a, b) && RowOf(cos1, cos2) && DeductionsOK()
      ensures SameFrame(old(table), table) && Emptied(table, minGaps != 0, cos1, cos2, i) &&
              Tracked(t0, table, pl.added) && Grew(old(pl), pl)
      ensures dedfst < dedlst && Spends(old(table), old(pl), table, pl, 5)
    {
      UnderwayMove(t0, table, ls.open, ls.rep, a, b, minGaps != 0, i, cos1, cos2);
      MoveRowEntry(i, cos1, cos2, t0);
    }

    method DropColumn(i: int, cos1: int, cos2: int,
                      ghost t0: Table, ghost live0: seq<int>, ghost f: int, ghost l: int, ghost a: int, ghost b: int)
      requires Working(t0, live0, f, l, a, b) && RowOf(cos1, cos2) && DeductionsOK()
      requires 1 <= i < |table.ref| && Emptied(table, minGaps != 0, cos1, cos2, i - 1) && Tracked(t0, table, pl.added)
      requires At(table, i, cos2) > 0 && At(table, i, cos1) > 0
      modifies this`table, this`dedfst, this`dedlst, ded, this`pl
      modifies this`next, this`prev, this`firstDef, this`lastDef, this`firstCoinc, this`lastCoinc, this`ls
      ensures Working(t0, live0, f, l, a, b) && RowOf(cos1, cos2) && DeductionsOK()
      ensures SameFrame(old(table), table) && Emptied(table, minGaps != 0, cos1, cos2, i) &&
              Tracked(t0, table, pl.added) && Grew(old(pl), pl)
      ensures old(ls.queue) <= ls.queue && |ls.live| + |ls.queue| == old(|ls.live| + |ls.queue|)
      ensures ls.free == old(ls.free) && ls.open == old(ls.open)
      ensures Spends(old(table), old(pl), table, pl, 5)
      ensures old(dedfst < dedlst) ==> dedfst < dedlst
    {
      ghost var t, open, rep := table, ls.open, ls.rep;
      var c1, c2 := At(table, i, cos1), At(table, i, cos2);
      TargetsKnown(t, open, i, cos1);
      TargetsKnown(t, open, i, cos2);
      DropRowEntry(i, cos1, cos2, t0);
      MergeTargets(c1, c2, live0, f, l);
      UnderwayDropped(t0, t, open, rep, ls.rep, a, b, minGaps != 0, i, cos1, cos2);
    }

    method MarkColumn(i: int, cos1: int, cos2: int,
                      ghost t0: Table, ghost live0: seq<int>, ghost f: int, ghost l: int, ghost a: int, ghost b: int)
      requires Working(t0, live0, f, l, a, b) && RowOf(cos1, cos2) && DeductionsOK()
      requires 1 <= i < |table.ref| && Emptied(table, minGaps != 0, cos1, cos2, i - 1) && Tracked(t0, table, pl.added)
      requires At(table, i, cos2) <= 0
      modifies this`table
      ensures Working(t0, live0, f, l, a, b) && RowOf(cos1, cos2) && DeductionsOK()
      ensures SameFrame(old(table), table) && Emptied(table, minGaps != 0, cos1, cos2, i) &&
              Tracked(t0, table, pl.added)
      ensures Spends(old(table), pl, table, pl, 5)
    {
      ghost var t, open, rep := table, ls.open, ls.rep;
      MarkGap(i, cos1, cos2);
      UnderwayGap(t0, t, open, rep, a, b, minGaps != 0, i, cos1, cos2);
      TrackedSame(t0, t, table, pl.added);
      SpendsSame(t, pl, table, 5);
    }

    /** Moves the head of the queue to the free list. */
    method FreeHead()
      requires Links(table.n, next, prev, ls.live, ls.queue, ls.free) && ls.queue != []
      requires Ends(ls.queue, firstCoinc, lastCoinc) && Ends(ls.free, firstFree, lastFree)
      modifies this`next, this`firstFree, this`lastFree, this`firstCoinc
      ensures next == Appended(old(next), ls.free, ls.queue[0])
      ensures Ends(ls.queue[1..], firstCoinc, lastCoinc) && Ends(ls.free + [ls.queue[0]], firstFree, lastFree)
    {
      ghost var queue, free := ls.queue, ls.free;
      assert next[queue[0]] == if 1 < |queue| then queue[1] else 0;
      ApartFacts(queue, free);
      if firstFree == 0 {
        firstFree := firstCoinc;
      } else {
        next := next[lastFree := firstCoinc];
      }
      lastFree := firstCoinc;
      firstCoinc := next[firstCoinc];
      next := next[lastFree := 0];
    }

    /** Retires the coset at the head of the queue, whose row is empty by now. */
    method Retire(ghost cos1: int,
                  ghost t0: Table, ghost live0: seq<int>, ghost f: int, ghost l: int, ghost a: int, ghost b: int)
      requires Working(t0, live0, f, l, a, b) && ls.queue != []
      requires Emptied(table, minGaps != 0, cos1, ls.queue[0], |table.ref| - 1)
      modifies this`next, this`firstFree, this`lastFree, this`firstCoinc, this`nrdel, this`ls
      ensures Working(t0, live0, f, l, a, b) && nrdel == old(nrdel) + 1
      ensures ls.live == old(ls.live) && ls.queue == old(ls.queue)[1..] && ls.rep == old(ls.rep)
      ensures ls.free == old(ls.free) + [old(ls.queue)[0]]
      ensures old(ls.queue)[0] in old(ls.open) && ls.open == old(ls.open) - {old(ls.queue)[0]}
    {
      ghost var n, t, before, next0, prev0 := table.n, table, ls, next, prev;
      FreeHead();
      nrdel := nrdel + 1;
      RetireLinks(n, next0, prev0, before.live, before.queue, before.free, live0, before.rep, before.open);
      UnderwayRetire(t0, t, before.open, before.rep, a, b, minGaps != 0, cos1, before.queue[0]);
      ls := Lists(before.live, before.queue[1..], before.free + [before.queue[0]], before.rep,
                  before.open - {before.queue[0]});
    }

    /** Replaces cos2 by its representative cos1 in all columns. */
    method ClearRow(cos1: int, cos2: int,
                    ghost t0: Table, ghost live0: seq<int>, ghost f: int, ghost l: int, ghost a: int, ghost b: int)
      requires Working(t0, live0, f, l, a, b) && RowOf(cos1, cos2) && DeductionsOK() && Tracked(t0, table, pl.added)
      modifies this`pl, this`table, this`dedfst, this`dedlst, ded
      modifies this`next, this`prev, this`firstDef, this`lastDef, this`firstCoinc, this`lastCoinc, this`ls
      ensures Working(t0, live0, f, l, a, b) && RowOf(cos1, cos2) && DeductionsOK() && Tracked(t0, table, pl.added) &&
              Grew(old(pl), pl)
      ensures SameFrame(old(table), table) && Emptied(table, minGaps != 0, cos1, cos2, |table.ref| - 1)
      ensures old(ls.queue) <= ls.queue && |ls.live| + |ls.queue| == old(|ls.live| + |ls.queue|)
      ensures ls.free == old(ls.free) && ls.open == old(ls.open)
      ensures Spends(old(table), old(pl), table, pl, 5 * (|table.ref| - 1))
      ensures old(dedfst < dedlst) ==> dedfst < dedlst
    {
      for i := 1 to |table.ref|
        invariant SameFrame(old(table), table)
        invariant Working(t0, live0, f, l, a, b) && RowOf(cos1, cos2) && DeductionsOK()
        invariant Emptied(table, minGaps != 0, cos1, cos2, i - 1) && Tracked(t0, table, pl.added) && Grew(old(pl), pl)
        invariant old(dedfst < dedlst) ==> dedfst < dedlst
        invariant old(ls.queue) <= ls.queue && ls.free == old(ls.free)
        invariant |ls.live| + |ls.queue| == old(|ls.live| + |ls.queue|) && ls.open == old(ls.open)
        invariant Spends(old(table), old(pl), table, pl, 5 * (i - 1))
      {
        ghost var t, p := table, pl;
        Column(i, cos1, cos2, t0, live0, f, l, a, b);
        SpendsTrans(old(table), old(pl), t, p, table, pl, 5 * (i - 1), 5);
      }
    }

    lemma {:induction false} HeadRow(t0: Table, live0: seq<int>, f: int, l: int, a: int, b: int)
      requires Working(t0, live0, f, l, a, b) && ls.queue != []
      ensures firstCoinc == ls.queue[0] && 1 <= firstCoinc <= table.n && |prev| == table.n + 1
      ensures RowOf(prev[firstCoinc], firstCoinc)
    {
      WalkFacts(firstCoinc);
      assert ls.rep[prev[ls.queue[0]]] == ls.rep[ls.queue[0]];
    }

    /** Replaces the head of the queue by its representative in the whole table. */
    method WorkOffHead(ghost t0: Table, ghost live0: seq<int>, ghost f: int, ghost l: int, ghost a: int, ghost b: int)
      requires Working(t0, live0, f, l, a, b) && ls.queue != [] && DeductionsOK() && Tracked(t0, table, pl.added)
      modifies this`pl, this`table, this`dedfst, this`dedlst, ded, this`next, this`prev, this`firstDef, this`lastDef
      modifies this`firstFree, this`lastFree, this`firstCoinc, this`lastCoinc, this`nrdel, this`ls
      ensures Working(t0, live0, f, l, a, b) && DeductionsOK() && nrdel == old(nrdel) + 1 &&
              SameFrame(old(table), table)
      ensures ls.free == old(ls.free) + [old(ls.queue)[0]]
      ensures |ls.live| + |ls.queue| + 1 == old(|ls.live| + |ls.queue|)
      ensures old(ls.queue)[0] in old(ls.open) && ls.open == old(ls.open) - {old(ls.queue)[0]}
      ensures Tracked(t0, table, pl.added) && Grew(old(pl), pl)
      ensures Spends(old(table), old(pl), table, pl, 5 * (|table.ref| - 1))
      ensures old(dedfst < dedlst) ==> dedfst < dedlst
    {
      HeadRow(t0, live0, f, l, a, b);
      var cos1, cos2 := prev[firstCoinc], firstCoinc;
      ClearRow(cos1, cos2, t0, live0, f, l, a, b);
      Retire(cos1, t0, live0, f, l, a, b);
    }

    ghost function DefsNow(): Defs
      reads this
    {
      Defs(firstDef, lastDef)
    }

    ghost function Snapshot(): Tally
      reads this
    {
      Tally(table, pl, ls.free, nrdel, ls.open, |ls.live| + |ls.queue|, dedfst < dedlst)
    }

    /** Since then these cosets have been worked off. */
    ghost predicate Since(s: Tally, done: seq<int>)
      reads this
    {
      && Shape(s.t) && Shape(table) && SameFrame(s.t, table) && ls.free == s.free + done && nrdel == s.nrdel + |done|
      && Closed(s.open, ls.open, done) && ls.open <= s.open
      && |ls.live| + |ls.queue| + |done| == s.count && (s.ready ==> dedfst < dedlst)
      && Grew(s.p, pl) && SpendsFor(s.t, s.p, table, pl, |done|)
    }

    /** Works off one more coset. */
    method WorkOffNext(ghost t0: Table, ghost live0: seq<int>, ghost f: int, ghost l: int, ghost a: int, ghost b: int,
                       ghost s: Tally, ghost done: seq<int>) returns (ghost done': seq<int>)
      requires Working(t0, live0, f, l, a, b) && ls.queue != [] && DeductionsOK() && Tracked(t0, table, pl.added) &&
               Since(s, done)
      modifies this`pl, this`table, this`dedfst, this`dedlst, ded, this`next, this`prev, this`firstDef, this`lastDef
      modifies this`firstFree, this`lastFree, this`firstCoinc, this`lastCoinc, this`nrdel, this`ls
      ensures Working(t0, live0, f, l, a, b) && DeductionsOK() && Tracked(t0, table, pl.added) && Since(s, done')
      ensures |ls.live| + |ls.queue| < old(|ls.live| + |ls.queue|)
    {
      ghost var c, open, t, p := ls.queue[0], ls.open, table, pl;
      WorkOffHead(t0, live0, f, l, a, b);
      ClosedMore(s.open, open, done, c);
      SpendsMore(s.t, s.p, t, p, table, pl, |done|);
      done' := done + [c];
    }

    /** Works off the queue of coincidences. */
    method WorkOff(ghost t0: Table, ghost live0: seq<int>, ghost f: int, ghost l: int, ghost a: int, ghost b: int)
      returns (ghost done: seq<int>)
      requires Working(t0, live0, f, l, a, b) && DeductionsOK() && Tracked(t0, table, pl.added)
      modifies this`pl, this`table, this`dedfst, this`dedlst, ded, this`next, this`prev, this`firstDef, this`lastDef
      modifies this`firstFree, this`lastFree, this`firstCoinc, this`lastCoinc, this`nrdel, this`ls
      ensures Working(t0, live0, f, l, a, b) && DeductionsOK() && ls.queue == [] && Tracked(t0, table, pl.added)
      ensures Since(old(Snapshot()), done)
    {
      ghost var s := Snapshot();
      done := [];
      SpendsNone(table, pl);
      while firstCoinc != 0
        invariant Working(t0, live0, f, l, a, b) && DeductionsOK() && Tracked(t0, table, pl.added) && Since(s, done)
        decreases |ls.live| + |ls.queue|
      {
        done := WorkOffNext(t0, live0, f, l, a, b, s, done);
      }
    }

    /** Every coset represents itself. */
    ghost method Begin(a: int, f: int, l: int)
      requires Valid() && a in ls.live
      requires 0 <= f < |ls.live| && ls.live[f] == firstDef
      requires 0 <= l < |ls.live| && ls.live[l] == lastDef
      modifies this`ls
      ensures Forwarding(old(ls.live)) && DefsTrack(old(ls.live), f, l)
      ensures Underway(table, table, ls.open, ls.rep, a, a, minGaps != 0) && ls.rep == Identity(table.n)
      ensures ls.live == old(ls.live) && ls.free == old(ls.free) && ls.open == old(ls.open)
    {
      UnderwayStart(table, next, prev, ls.live, ls.free, ls.open, a, minGaps != 0);
      LastSurvivorStart(table.n, ls.live, f);
      LastSurvivorStart(table.n, ls.live, l);
      ls := Lists(ls.live, [], ls.free, Identity(table.n), ls.open);
    }

    /** The queue starts with the larger of the two cosets. */
    method FirstCoinc(a: int, b: int, ghost f: int, ghost l: int)
      requires Valid() && a in ls.live && b in ls.live && a != b
      requires 0 <= f < |ls.live| && ls.live[f] == firstDef
      requires 0 <= l < |ls.live| && ls.live[l] == lastDef
      modifies this`next, this`prev, this`firstDef, this`lastDef, this`firstCoinc, this`lastCoinc, this`ls
      ensures Working(table, old(ls.live), f, l, a, b)
      ensures ls.free == old(ls.free) && ls.open == old(ls.open) && |ls.live| + |ls.queue| == old(|ls.live|)
    {
      ghost var live0 := ls.live;
      Begin(a, f, l);

      // the smaller number survives
      var lo, hi := a, b;
      if hi < lo {
        lo, hi := hi, lo;
      }
      UnderwayFirst(table, ls.open, ls.rep, a, b, lo, hi, minGaps != 0);
      Identify(lo, hi, live0, f, l);
    }

    /** Merges two different cosets and all that follow. */
    method Collapse(a: int, b: int, ghost f: int, ghost l: int) returns (ghost done: seq<int>)
      requires Valid() && a in ls.live && b in ls.live && a != b
      requires 0 <= f < |ls.live| && ls.live[f] == firstDef
      requires 0 <= l < |ls.live| && ls.live[l] == lastDef
      modifies this`pl, this`table, this`dedfst, this`dedlst, ded, this`next, this`prev, this`firstDef, this`lastDef
      modifies this`firstFree, this`lastFree, this`firstCoinc, this`lastCoinc, this`nrdel, this`ls
      ensures Working(old(table), old(ls.live), f, l, a, b) && DeductionsOK() && ls.queue == [] &&
              Tracked(old(table), table, pl.added)
      ensures Since(old(Snapshot()), done)
    {
      ghost var t0, live0 := table, ls.live;
      TrackedStart(t0, pl.added);
      FirstCoinc(a, b, f, l);

      // every coset on the queue may add further ones behind it
      done := WorkOff(t0, live0, f, l, a, b);
    }

    /**
      Handles the coincidence of two live cosets: the table becomes its quotient
      by the least congruence that identifies them, with the smallest element of
      each class as its representative.
     */
    method HandleCoinc(a: int, b: int) returns (ghost rep: seq<int>, ghost merged: nat)
      requires Valid() && a in ls.live && b in ls.live
      modifies this, ded
      ensures Valid() && SameFrame(old(table), table)
      ensures Coincided(old(table), table, old(ls.live), rep, a, b)
      ensures GapsFollow(old(table), table, rep, minGaps != 0)
      ensures ls.live == Survivors(old(ls.live), rep)
      ensures old(ls.free) <= ls.free && nrdel - old(nrdel) == |ls.free| - |old(ls.free)|
      ensures forall c :: c in ls.free[|old(ls.free)|..] <==> c in old(ls.live) && rep[c] != c
      ensures Tracked(old(table), table, pl.added) && Grew(old(pl), pl)
      ensures |ls.live| + merged == old(|ls.live|) && SpendsFor(old(table), old(pl), table, pl, merged)
      ensures DefsMoved(old(ls.live), rep, old(DefsNow()), DefsNow())
      ensures if a == b then table == old(table) && ls.live == old(ls.live) && dedfst == old(dedfst) &&
              dedlst == old(dedlst)
              else |ls.live| < old(|ls.live|)
      ensures old(dedfst < dedlst) ==> dedfst < dedlst
    {
      ghost var t0, p0, live0, free0 := table, pl, ls.live, ls.free;
      ghost var f :| 0 <= f < |live0| && live0[f] == firstDef;
      ghost var l :| 0 <= l < |live0| && live0[l] == lastDef;
      if a == b {
        rep := NothingToDo(a, f, l);
        TrackedStart(t0, p0.added);
        SpendsNone(t0, p0);
        merged := 0;
        return;
      }
      ghost var done := Collapse(a, b, f, l);
      rep, merged := ls.rep, |done|;
      UnderwayEnd(t0, table, next, prev, ls.live, ls.free, live0, rep, ls.open, a, b, minGaps != 0);
      CoincidenceCount(t0.n, live0, ls.live, old(ls.open), ls.open, done, rep, a, b);
      assert ls.free[|free0|..] == done;
      assert DefsFollow(live0, rep, f, l, old(firstDef), firstDef, old(lastDef), lastDef);
    }

    ghost method NothingToDo(a: int, f: int, l: int) returns (rep: seq<int>)
      requires Valid() && a in ls.live
      requires 0 <= f < |ls.live| && ls.live[f] == firstDef
      requires 0 <= l < |ls.live| && ls.live[l] == lastDef
      ensures Coincided(table, table, ls.live, rep, a, a) && GapsFollow(table, table, rep, minGaps != 0)
      ensures ls.live == Survivors(ls.live, rep)
      ensures forall c :: c in ls.live ==> rep[c] == c
      ensures DefsFollow(ls.live, rep, f, l, firstDef, firstDef, lastDef, lastDef)
    {
      rep := Identity(table.n);
      UnderwayStart(table, next, prev, ls.live, ls.free, ls.open, a, minGaps != 0);
      UnderwayEnd(table, table, next, prev, ls.live, ls.free, ls.live, rep, ls.open, a, a, minGaps != 0);
      LastSurvivorStart(table.n, ls.live, f);
      LastSurvivorStart(table.n, ls.live, l);
    }
  }
}
