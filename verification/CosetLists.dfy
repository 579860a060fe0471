/**
  The list that links the cosets together.

  One pair of arrays, `next` and `prev`, serves four purposes.  Live cosets form
  a doubly linked list that starts at coset 1.  Merged cosets that still have to
  be worked off form a queue through `next`, and their `prev` entry forwards to
  a smaller coset.  Free cosets form a list through `next`.
 */
module CosetLists {

  // The two predicates below speak about all pairs of positions.  They are stated
  // through `Differ`, so that the pairs only come up where a proof asks for them.

  ghost predicate Differ(s: seq<int>, i: int, t: seq<int>, j: int)
    requires 0 <= i < |s| && 0 <= j < |t|
  {
    s[i] != t[j]
  }

  ghost predicate NoDup(s: seq<int>)
  {
    forall i, j {:trigger Differ(s, i, s, j)} :: 0 <= i < j < |s| ==> Differ(s, i, s, j)
  }

  ghost predicate Apart(s: seq<int>, t: seq<int>)
  {
    forall i, j {:trigger Differ(s, i, t, j)} :: 0 <= i < |s| && 0 <= j < |t| ==> Differ(s, i, t, j)
  }

  lemma {:induction false} NoDupFacts(s: seq<int>)
    ensures NoDup(s) <==> forall i, j :: 0 <= i < j < |s| ==> s[i] != s[j]
  {
    if forall i, j :: 0 <= i < j < |s| ==> s[i] != s[j] {
      assert forall i, j {:trigger Differ(s, i, s, j)} :: 0 <= i < j < |s| ==> Differ(s, i, s, j);
    }
    if NoDup(s) {
      forall i, j | 0 <= i < j < |s|
        ensures s[i] != s[j]
      {
        assert Differ(s, i, s, j);
      }
    }
  }

  lemma {:induction false} ApartFacts(s: seq<int>, t: seq<int>)
    ensures Apart(s, t) <==> forall i, j :: 0 <= i < |s| && 0 <= j < |t| ==> s[i] != t[j]
  {
    if Apart(s, t) {
      forall i, j | 0 <= i < |s| && 0 <= j < |t|
        ensures s[i] != t[j]
      {
        assert Differ(s, i, t, j);
      }
    }
  }

  ghost predicate Within(s: seq<int>, n: nat)
  {
    forall i :: 0 <= i < |s| ==> 1 <= s[i] <= n
  }

  /** `next` runs through s and ends in 0. */
  ghost predicate Chain(n: nat, next: seq<int>, s: seq<int>)
  {
    && |next| == n + 1
    && Within(s, n)
    && NoDup(s)
    && forall i {:trigger next[s[i]]} :: 0 <= i < |s| ==> next[s[i]] == if i + 1 < |s| then s[i + 1] else 0
  }

  ghost predicate LiveList(n: nat, next: seq<int>, prev: seq<int>, live: seq<int>)
  {
    && |prev| == n + 1
    && Chain(n, next, live)
    && |live| > 0 && live[0] == 1
    && forall i {:trigger prev[live[i]]} :: 0 < i < |live| ==> prev[live[i]] == live[i - 1]
  }

  /** queue[i] forwards to a smaller coset that is live or queued later. */
  ghost predicate Forwards(prev: seq<int>, live: seq<int>, queue: seq<int>, i: int)
    requires 0 <= i < |queue| && 0 <= queue[i] < |prev|
  {
    1 <= prev[queue[i]] < queue[i] && (prev[queue[i]] in live || prev[queue[i]] in queue[i + 1..])
  }

  /** Every queued coset forwards to a smaller one that is live or queued later. */
  ghost predicate Queue(n: nat, next: seq<int>, prev: seq<int>, live: seq<int>, queue: seq<int>)
  {
    && |prev| == n + 1
    && Chain(n, next, queue)
    && forall i {:trigger prev[queue[i]]} :: 0 <= i < |queue| ==> Forwards(prev, live, queue, i)
  }

  ghost predicate Ends(s: seq<int>, first: int, last: int)
  {
    first == (if s == [] then 0 else s[0]) && (s != [] ==> last == s[|s| - 1])
  }

  ghost predicate Links(n: nat, next: seq<int>, prev: seq<int>, live: seq<int>, queue: seq<int>, free: seq<int>)
  {
    && LiveList(n, next, prev, live)
    && Queue(n, next, prev, live, queue)
    && Chain(n, next, free)
    && Apart(live, queue) && Apart(live, free) && Apart(queue, free)
  }

  function RemoveAt(s: seq<int>, p: int): (r: seq<int>)
    requires 0 <= p < |s|
    ensures |r| == |s| - 1
    ensures forall i {:trigger r[i]} :: 0 <= i < |r| ==> r[i] == if i < p then s[i] else s[i + 1]
  {
    seq(|s| - 1, i requires 0 <= i < |s| - 1 => if i < p then s[i] else s[i + 1])
  }

  /** The elements that represent themselves, in order. */
  ghost function Survivors(s: seq<int>, rep: seq<int>): (r: seq<int>)
    requires forall i :: 0 <= i < |s| ==> 0 <= s[i] < |rep|
  {
    if s == [] then []
    else Survivors(s[..|s| - 1], rep) + (if rep[s[|s| - 1]] == s[|s| - 1] then [s[|s| - 1]] else [])
  }

  // ----- one coset leaves the live list and joins the queue

  /** The neighbours of live[p] are linked to each other. */
  ghost predicate Unlinked(n: nat, next: seq<int>, prev: seq<int>, next': seq<int>, prev': seq<int>, live: seq<int>,
                           p: int)
    requires |next| == n + 1 && |prev| == n + 1 && Within(live, n)
  {
    && 0 < p < |live|
    && next' == next[live[p - 1] := if p + 1 < |live| then live[p + 1] else 0]
    && prev' == if p + 1 < |live| then prev[live[p + 1] := live[p - 1]] else prev
  }

  lemma {:induction false} RemoveAtNoDup(s: seq<int>, p: int, n: nat)
    requires NoDup(s) && Within(s, n) && 0 <= p < |s|
    ensures NoDup(RemoveAt(s, p)) && Within(RemoveAt(s, p), n)
    ensures forall c :: c in RemoveAt(s, p) <==> c in s && c != s[p]
  {
    NoDupFacts(s);
    NoDupFacts(RemoveAt(s, p));
    var r := RemoveAt(s, p);
    forall c | c in s && c != s[p]
      ensures c in r
    {
      var k :| 0 <= k < |s| && s[k] == c;
      assert c == r[if k < p then k else k - 1];
    }
  }

  lemma {:induction false} UnlinkNext(n: nat, next: seq<int>, prev: seq<int>, live: seq<int>, p: int, next': seq<int>,
                                      prev': seq<int>)
    requires Chain(n, next, live) && |prev| == n + 1 && Unlinked(n, next, prev, next', prev', live, p)
    ensures Chain(n, next', RemoveAt(live, p))
  {
    NoDupFacts(live);
    var live' := RemoveAt(live, p);
    RemoveAtNoDup(live, p, n);
    forall i | 0 <= i < |live'|
      ensures next'[live'[i]] == if i + 1 < |live'| then live'[i + 1] else 0
    {
      var k := if i < p then i else i + 1;
      assert next[live[k]] == if k + 1 < |live| then live[k + 1] else 0;
    }
  }

  lemma {:induction false} UnlinkPrev(n: nat, next: seq<int>, prev: seq<int>, live: seq<int>, p: int, next': seq<int>,
                                      prev': seq<int>)
    requires LiveList(n, next, prev, live) && Unlinked(n, next, prev, next', prev', live, p)
    ensures forall i {:trigger prev'[RemoveAt(live, p)[i]]} :: 0 < i < |live| - 1 ==>
            prev'[RemoveAt(live, p)[i]] == RemoveAt(live, p)[i - 1]
  {
    NoDupFacts(live);
    var live' := RemoveAt(live, p);
    forall i | 0 < i < |live'|
      ensures prev'[live'[i]] == live'[i - 1]
    {
      var k := if i < p then i else i + 1;
      assert prev[live[k]] == live[k - 1];
    }
  }

  lemma {:induction false} ChainFrame(n: nat, next: seq<int>, next': seq<int>, s: seq<int>)
    requires Chain(n, next, s) && |next'| == n + 1
    requires forall i :: 0 <= i < |s| ==> next'[s[i]] == next[s[i]]
    ensures Chain(n, next', s)
  {
  }

  /** Links c behind the last element of s. */
  function Appended(next: seq<int>, s: seq<int>, c: int): (r: seq<int>)
    requires 0 <= c < |next| && forall i :: 0 <= i < |s| ==> 0 <= s[i] < |next|
    ensures |r| == |next|
  {
    (if s != [] then next[s[|s| - 1] := c] else next)[c := 0]
  }

  lemma {:induction false} ChainAppend(n: nat, next: seq<int>, next': seq<int>, s: seq<int>, c: int)
    requires Chain(n, next, s) && 1 <= c <= n && c !in s
    requires next' == Appended(next, s, c)
    ensures Chain(n, next', s + [c])
  {
    NoDupFacts(s);
    NoDupFacts(s + [c]);
    var s' := s + [c];
    forall i | 0 <= i < |s'|
      ensures next'[s'[i]] == if i + 1 < |s'| then s'[i + 1] else 0
    {
      if i < |s| {
        assert next[s[i]] == if i + 1 < |s| then s[i + 1] else 0;
      }
    }
  }

  lemma {:induction false} EnqueueForwards(n: nat, prev: seq<int>, live: seq<int>, queue: seq<int>, p: int, keep: int,
                        prev2: seq<int>, i: int)
    requires |prev| == n + 1 && |prev2| == n + 1 && Within(live, n) && Within(queue, n)
    requires NoDup(live) && 0 <= p < |live| && keep in live && keep < live[p]
    requires prev2[live[p]] == keep
    requires 0 <= i <= |queue|
    requires i < |queue| ==> prev2[queue[i]] == prev[queue[i]] && Forwards(prev, live, queue, i)
    ensures Forwards(prev2, RemoveAt(live, p), queue + [live[p]], i)
  {
    RemoveAtNoDup(live, p, n);
    var queue' := queue + [live[p]];
    if i < |queue| {
      var f := prev[queue[i]];
      assert queue'[i] == queue[i];
      assert queue'[i + 1..] == queue[i + 1..] + [live[p]];
      if f !in queue[i + 1..] && f == live[p] {
        assert f in queue'[i + 1..];
      }
    } else {
      assert keep in RemoveAt(live, p);
    }
  }

  lemma {:induction false} LiveFrame(n: nat, next: seq<int>, prev: seq<int>, next': seq<int>, prev': seq<int>,
                                     live: seq<int>)
    requires LiveList(n, next, prev, live) && |next'| == n + 1 && |prev'| == n + 1
    requires forall i :: 0 <= i < |live| ==> next'[live[i]] == next[live[i]] && prev'[live[i]] == prev[live[i]]
    ensures LiveList(n, next', prev', live)
  {
    ChainFrame(n, next, next', live);
  }

  lemma {:induction false} EnqueueLive(n: nat, next: seq<int>, prev: seq<int>, live: seq<int>, queue: seq<int>,
                    p: int, keep: int, next1: seq<int>, prev1: seq<int>, next2: seq<int>, prev2: seq<int>)
    requires LiveList(n, next, prev, live) && Within(queue, n) && Apart(live, queue)
    requires Unlinked(n, next, prev, next1, prev1, live, p)
    requires next2 == Appended(next1, queue, live[p])
    requires prev2 == prev1[live[p] := keep]
    ensures LiveList(n, next2, prev2, RemoveAt(live, p))
  {
    NoDupFacts(live);
    ApartFacts(live, queue);
    var live' := RemoveAt(live, p);
    assert LiveList(n, next1, prev1, live') by {
      UnlinkNext(n, next, prev, live, p, next1, prev1);
      UnlinkPrev(n, next, prev, live, p, next1, prev1);
    }
    forall i | 0 <= i < |live'|
      ensures next2[live'[i]] == next1[live'[i]] && prev2[live'[i]] == prev1[live'[i]]
    {
      var k := if i < p then i else i + 1;
      assert live'[i] == live[k] && live[k] != live[p];
      assert forall j :: 0 <= j < |queue| ==> live[k] != queue[j];
    }
    LiveFrame(n, next1, prev1, next2, prev2, live');
  }

  /** The writes of one identification keep all four readings of the links intact. */
  lemma {:induction false} EnqueueDropped(n: nat, next: seq<int>, prev: seq<int>, live: seq<int>, queue: seq<int>,
                                          free: seq<int>,
                       p: int, keep: int, next1: seq<int>, prev1: seq<int>, next2: seq<int>, prev2: seq<int>)
    requires Links(n, next, prev, live, queue, free)
    requires Unlinked(n, next, prev, next1, prev1, live, p)
    requires keep in live && keep < live[p]
    requires next2 == Appended(next1, queue, live[p])
    requires prev2 == prev1[live[p] := keep]
    ensures Links(n, next2, prev2, RemoveAt(live, p), queue + [live[p]], free)
  {
    NoDupFacts(live);
    ApartFacts(live, queue);
    ApartFacts(live, free);
    ApartFacts(queue, free);
    var drop := live[p];
    var live', queue' := RemoveAt(live, p), queue + [drop];
    EnqueueLive(n, next, prev, live, queue, p, keep, next1, prev1, next2, prev2);
    ChainFrame(n, next, next2, free);
    ChainFrame(n, next, next1, queue);
    ChainAppend(n, next1, next2, queue, drop);
    forall i | 0 <= i < |queue'|
      ensures Forwards(prev2, live', queue', i)
    {
      if i < |queue| {
        assert prev2[queue[i]] == prev[queue[i]];
      }
      EnqueueForwards(n, prev, live, queue, p, keep, prev2, i);
    }
    EnqueueApart(live, queue, free, p, n);
  }

  lemma {:induction false} EnqueueApart(live: seq<int>, queue: seq<int>, free: seq<int>, p: int, n: nat)
    requires 0 <= p < |live| && NoDup(live) && Within(live, n)
    requires Apart(live, queue) && Apart(live, free) && Apart(queue, free)
    ensures Apart(RemoveAt(live, p), queue + [live[p]]) && Apart(RemoveAt(live, p), free)
    ensures Apart(queue + [live[p]], free)
  {
    NoDupFacts(live);
    ApartFacts(live, queue);
    ApartFacts(live, free);
    ApartFacts(queue, free);
    ApartFacts(RemoveAt(live, p), queue + [live[p]]);
    ApartFacts(RemoveAt(live, p), free);
    ApartFacts(queue + [live[p]], free);
  }

  /** The head of the queue joins the free list. */
  lemma {:induction false} RetireHead(n: nat, next: seq<int>, prev: seq<int>, live: seq<int>, queue: seq<int>,
                                      free: seq<int>)
    requires Links(n, next, prev, live, queue, free) && queue != []
    ensures Links(n, Appended(next, free, queue[0]), prev, live, queue[1..], free + [queue[0]])
  {
    NoDupFacts(queue);
    NoDupFacts(queue[1..]);
    ApartFacts(live, queue);
    ApartFacts(live, free);
    ApartFacts(queue, free);
    ApartFacts(live, queue[1..]);
    ApartFacts(live, free + [queue[0]]);
    ApartFacts(queue[1..], free + [queue[0]]);
    var next' := Appended(next, free, queue[0]);
    var queue', free' := queue[1..], free + [queue[0]];
    ChainFrame(n, next, next', live);
    ChainAppend(n, next, next', free, queue[0]);
    forall i | 0 <= i < |queue'|
      ensures next'[queue'[i]] == if i + 1 < |queue'| then queue'[i + 1] else 0
    {
      assert next[queue[i + 1]] == if i + 2 < |queue| then queue[i + 2] else 0;
    }
    forall i | 0 <= i < |queue'|
      ensures Forwards(prev, live, queue', i)
    {
      assert prev[queue[i + 1]] < queue[i + 1] && Forwards(prev, live, queue, i + 1);
      assert queue'[i + 1..] == queue[i + 2..];
    }
  }

  // ----- walking to the representative

  /** At a live coset other than 1 the walk stops. */
  lemma {:induction false} LiveStop(n: nat, next: seq<int>, prev: seq<int>, live: seq<int>, c: int)
    requires LiveList(n, next, prev, live) && c in live
    ensures c == 1 || (1 <= prev[c] <= n && next[prev[c]] == c)
  {
    var k :| 0 <= k < |live| && live[k] == c;
    if k > 0 {
      assert prev[live[k]] == live[k - 1];
      assert next[live[k - 1]] == live[k];
    }
  }

  /** At a queued coset the walk goes on: nothing before it is linked to it. */
  lemma {:induction false} QueueGoesOn(n: nat, next: seq<int>, prev: seq<int>, live: seq<int>, queue: seq<int>,
                                       free: seq<int>, c: int)
    requires Links(n, next, prev, live, queue, free) && c in queue
    ensures 1 <= prev[c] < c && next[prev[c]] != c
    ensures prev[c] in live || prev[c] in queue
  {
    ApartFacts(live, queue);
    NoDupFacts(queue);
    var i :| 0 <= i < |queue| && queue[i] == c;
    assert Forwards(prev, live, queue, i);
    var f := prev[queue[i]];
    if f in live {
      var k :| 0 <= k < |live| && live[k] == f;
      assert next[live[k]] == if k + 1 < |live| then live[k + 1] else 0;
    } else {
      var j :| 0 <= j < |queue| - i - 1 && queue[i + 1..][j] == f;
      assert queue[i + 1 + j] == f;
      assert next[queue[i + 1 + j]] == if i + 2 + j < |queue| then queue[i + 2 + j] else 0;
    }
  }

  // ----- which cosets survive

  lemma {:induction false} SurvivorsMember(s: seq<int>, rep: seq<int>, c: int)
    requires forall i :: 0 <= i < |s| ==> 0 <= s[i] < |rep|
    ensures c in Survivors(s, rep) <==> c in s && rep[c] == c
  {
    if s != [] {
      var m := |s| - 1;
      SurvivorsMember(s[..m], rep, c);
      assert s == s[..m] + [s[m]];
    }
  }

  lemma {:induction false} SurvivorsFewer(s: seq<int>, rep: seq<int>, c: int)
    requires forall i :: 0 <= i < |s| ==> 0 <= s[i] < |rep|
    ensures |Survivors(s, rep)| <= |s|
    ensures c in s && rep[c] != c ==> |Survivors(s, rep)| < |s|
  {
    if s != [] {
      var m := |s| - 1;
      SurvivorsFewer(s[..m], rep, c);
      assert s == s[..m] + [s[m]];
    }
  }

  lemma {:induction false} RemoveAtAppend(s: seq<int>, t: seq<int>, p: int)
    requires 0 <= p < |s| + |t|
    ensures p < |s| ==> RemoveAt(s + t, p) == RemoveAt(s, p) + t && (s + t)[p] == s[p]
    ensures p == |s| && |t| == 1 ==> RemoveAt(s + t, p) == s + [] && (s + t)[p] == t[0]
  {
  }

  lemma {:induction false} SurvivorsMerge(s: seq<int>, rep: seq<int>, rep': seq<int>, drop: int) returns (p: int)
    requires forall i :: 0 <= i < |s| ==> 0 <= s[i] < |rep|
    requires |rep'| == |rep| && NoDup(s) && drop in s && 0 <= drop < |rep| && rep[drop] == drop
    requires forall c :: 0 <= c < |rep| ==> (rep'[c] == c <==> rep[c] == c && c != drop)
    ensures 0 <= p < |Survivors(s, rep)| && Survivors(s, rep)[p] == drop
    ensures Survivors(s, rep') == RemoveAt(Survivors(s, rep), p)
  {
    NoDupFacts(s);
    NoDupFacts(s[..|s| - 1]);
    var m := |s| - 1;
    var front := s[..m];
    var was, now := Survivors(front, rep), Survivors(front, rep');
    assert s == front + [s[m]];
    if s[m] == drop {
      SurvivorsSame(front, rep, rep', drop);
      p := |was|;
      RemoveAtAppend(was, [drop], p);
      assert Survivors(s, rep) == was + [drop] && Survivors(s, rep') == was + [];
    } else {
      p := SurvivorsMerge(front, rep, rep', drop);
      var tail := if rep[s[m]] == s[m] then [s[m]] else [];
      RemoveAtAppend(was, tail, p);
      assert Survivors(s, rep) == was + tail && Survivors(s, rep') == now + tail;
    }
  }

  lemma {:induction false} SurvivorsSame(s: seq<int>, rep: seq<int>, rep': seq<int>, drop: int)
    requires forall i :: 0 <= i < |s| ==> 0 <= s[i] < |rep|
    requires |rep'| == |rep| && drop !in s
    requires forall c :: 0 <= c < |rep| ==> (rep'[c] == c <==> rep[c] == c && c != drop)
    ensures Survivors(s, rep') == Survivors(s, rep)
  {
    if s != [] {
      SurvivorsSame(s[..|s| - 1], rep, rep', drop);
    }
  }

  lemma {:induction false} SurvivorsPrefix(s: seq<int>, rep: seq<int>, k: int)
    requires forall i :: 0 <= i < |s| ==> 0 <= s[i] < |rep|
    requires 0 <= k <= |s|
    ensures Survivors(s[..k], rep) <= Survivors(s, rep)
  {
    if k == |s| {
      assert s[..k] == s;
    } else {
      SurvivorsPrefix(s[..|s| - 1], rep, k);
      assert s[..|s| - 1][..k] == s[..k];
    }
  }

  /** The last survivor at or before position k; coset 1 at the head always survives. */
  ghost predicate LastSurvivor(s: seq<int>, rep: seq<int>, k: int, c: int)
    requires forall i :: 0 <= i < |s| ==> 0 <= s[i] < |rep|
    requires 0 <= k < |s|
  {
    var t := Survivors(s[..k + 1], rep);
    t != [] && c == t[|t| - 1]
  }

  lemma {:induction false} LastAfterRemoval(t: seq<int>, live: seq<int>, p: int, q: int)
    requires t <= live && NoDup(live) && 0 < p < |live| && 0 <= q < |t| && t[q] == live[p]
    ensures |t| > 1
    ensures RemoveAt(t, q)[|t| - 2] == if t[|t| - 1] == live[p] then live[p - 1] else t[|t| - 1]
  {
    NoDupFacts(live);
    assert forall i :: 0 <= i < |t| ==> t[i] == live[i];
    assert q == p;
  }

  /** Stepping back along `prev` when the last survivor goes finds the next one. */
  lemma {:induction false} LastSurvivorMoves(n: nat, s: seq<int>, rep: seq<int>, rep': seq<int>, drop: int, k: int,
                                             c: int,
                          live: seq<int>, p: int)
    requires |rep| == n + 1 && |rep'| == |rep| && Within(s, n) && NoDup(s) && 0 <= k < |s|
    requires 1 <= drop <= n && rep[drop] == drop && drop in s
    requires forall i :: 0 <= i < |rep| ==> (rep'[i] == i <==> rep[i] == i && i != drop)
    requires live == Survivors(s, rep) && NoDup(live)
    requires 0 < p < |live| && live[p] == drop
    requires LastSurvivor(s, rep, k, c)
    ensures LastSurvivor(s, rep', k, if c == drop then live[p - 1] else c)
  {
    NoDupFacts(s);
    NoDupFacts(s[..k + 1]);
    var head := s[..k + 1];
    var t := Survivors(head, rep);
    SurvivorsPrefix(s, rep, k + 1);
    if drop in head {
      var q := SurvivorsMerge(head, rep, rep', drop);
      LastAfterRemoval(t, live, p, q);
    } else {
      SurvivorsSame(head, rep, rep', drop);
      SurvivorsMember(head, rep, t[|t| - 1]);
    }
  }
}
