/**
  Trees of words: an index stands for a generator or for the product of two signed smaller
  indices; equal products share one index.
 */
module WordTree {
  import opened PcAction

  /** Entry 0 is not used. An entry whose left part is 0 is a generator of its own. */
  datatype Tree = Tree(left: seq<int>, right: seq<int>)
  {
    function Size(): int
    {
      |left| - 1
    }

    predicate Valid()
    {
      |left| == |right| >= 1 && forall k :: 1 <= k < |left| ==> -k < left[k] < k && -k < right[k] < k
    }

    predicate Has(u: int)
    {
      -|left| < u < |left|
    }

    predicate Primitive(u: int)
      requires Has(u)
    {
      u != 0 && left[Abs(u)] == 0
    }
  }

  function Abs(u: int): (r: nat)
    ensures r == if u > 0 then u else -u
  {
    if u > 0 then u else -u
  }

  /** The two factors of an entry; the inverse of a product is the product of the inverses, exchanged. */
  function Factors(t: Tree, u: int): ((int, int))
    requires t.Valid() && t.Has(u)
  {
    if u == 0 || t.Primitive(u) then (0, 0)
    else if u > 0 then (t.left[u], t.right[u])
    else (-t.right[-u], -t.left[-u])
  }

  /** What an index stands for, as it acts. */
  ghost function Val<X(!new)>(t: Tree, act: Action<X>, u: int, x: X): X
    requires t.Valid() && t.Has(u)
    decreases Abs(u)
  {
    if u == 0 then x
    else if t.Primitive(u) then (if u > 0 then Step(act, u, x) else Back(act, -u, x))
    else
      var (a, b) := Factors(t, u);
      Val(t, act, b, Val(t, act, a, x))
  }

  ghost predicate Inverts<X(!new)>(act: Action<X>)
  {
    forall i, x {:trigger InvertsAt(act, i, x)} :: InvertsAt(act, i, x)
  }

  lemma {:induction false} ValInverse<X(!new)>(t: Tree, act: Action<X>, u: int, x: X)
    requires t.Valid() && t.Has(u) && Inverts(act)
    ensures Val(t, act, -u, Val(t, act, u, x)) == x
    decreases Abs(u)
  {
    if u != 0 && t.Primitive(u) {
      assert InvertsAt(act, Abs(u), x);
    } else if u != 0 {
      var (a, b) := Factors(t, u);
      var y := Val(t, act, a, x);
      assert Factors(t, -u) == (-b, -a);
      ValInverse(t, act, b, y);
      ValInverse(t, act, a, x);
    }
  }

  /** r continues t. */
  ghost predicate Continues(t: Tree, r: Tree)
  {
    |t.left| <= |r.left| && |t.right| <= |r.right| && |t.left| == |t.right| &&
    forall k {:trigger SameAt(t, r, k)} :: 0 <= k < |t.left| ==> SameAt(t, r, k)
  }

  ghost predicate SameAt(t: Tree, r: Tree, k: int)
    requires 0 <= k < |t.left| <= |r.left| && k < |t.right| <= |r.right|
  {
    r.left[k] == t.left[k] && r.right[k] == t.right[k]
  }

  lemma {:induction false} SameEntry(t: Tree, r: Tree, k: nat)
    requires t.Valid() && r.Valid() && Continues(t, r) && k < |t.left|
    ensures r.left[k] == t.left[k] && r.right[k] == t.right[k]
  {
    assert SameAt(t, r, k);
  }

  /** Old entries keep their meaning. */
  lemma {:induction false} ValContinues<X(!new)>(t: Tree, r: Tree, act: Action<X>, u: int, x: X)
    requires t.Valid() && r.Valid() && Continues(t, r) && t.Has(u)
    ensures Val(r, act, u, x) == Val(t, act, u, x)
    decreases Abs(u)
  {
    if u != 0 {
      SameEntry(t, r, Abs(u));
      if !t.Primitive(u) {
        var (a, b) := Factors(t, u);
        var y := Val(t, act, a, x);
        ValContinues(t, r, act, a, x);
        ValContinues(t, r, act, b, y);
        assert Factors(r, u) == (a, b) && !r.Primitive(u);
      }
    }
  }

  // ----- products

  /** The first entry from k on that holds the pair, or the number after the last entry. */
  function Search(t: Tree, t1: int, t2: int, k: nat): (r: int)
    requires t.Valid() && 1 <= k <= |t.left|
    ensures k <= r <= |t.left| && (r < |t.left| ==> t.left[r] == t1 && t.right[r] == t2)
    decreases |t.left| - k
  {
    if k == |t.left| || (t.left[k] == t1 && t.right[k] == t2) then k else Search(t, t1, t2, k + 1)
  }

  /** The pair that stands for u v or for its inverse. */
  function Pair(u: int, v: int): ((int, int))
  {
    if u < -v then (u, v) else (-v, -u)
  }

  function Max(a: int, b: int): int
  {
    if a > b then a else b
  }

  function Entry(t: Tree, u: int, v: int): int
    requires t.Valid() && t.Has(u) && t.Has(v)
  {
    Search(t, Pair(u, v).0, Pair(u, v).1, Max(Abs(u), Abs(v)) + 1)
  }

  function Extended(t: Tree, u: int, v: int): Tree
  {
    Tree(t.left + [Pair(u, v).0], t.right + [Pair(u, v).1])
  }

  /** Finds or makes the entry for u v. */
  function Joined(t: Tree, u: int, v: int): ((int, Tree))
    requires t.Valid() && t.Has(u) && t.Has(v)
  {
    var k := Entry(t, u, v);
    (if u > -v then -k else k, if k < |t.left| then t else Extended(t, u, v))
  }

  /** The steps of `Joined` one by one. */
  lemma {:induction false} JoinedIs(t: Tree, u: int, v: int, t1: int, t2: int, first: nat, k: int, r: Tree)
    requires t.Valid() && t.Has(u) && t.Has(v) && (t1, t2) == Pair(u, v) && first == Max(Abs(u), Abs(v)) + 1
    requires k == Search(t, t1, t2, first) && r == if k < |t.left| then t else Tree(t.left + [t1], t.right + [t2])
    ensures Joined(t, u, v) == (if u > -v then -k else k, r)
  {
  }

  datatype Outcome = Done(a: int, b: int) | Again(a: int, b: int)

  /** One attempt to cancel something between u and v. */
  function CancelOnce(t: Tree, u: int, v: int): Outcome
    requires t.Valid() && t.Has(u) && t.Has(v)
  {
    Once(u, v, t.Primitive(u), Factors(t, u), t.Primitive(v), Factors(t, v))
  }

  /** The same for given factors; `pu` and `pv` say whether u and v are generators. */
  function Once(u: int, v: int, pu: bool, us: (int, int), pv: bool, vs: (int, int)): Outcome
  {
    if u == 0 || v == 0 || u + v == 0 then Done(u + v, 0)
    else if !pu && us.1 == -v then Done(us.0, 0)
    else if !pv && vs.0 == -u then Done(vs.1, 0)
    else if !pv && us.0 != 0 && vs.0 == -us.1 then Again(us.0, vs.1)
    else Done(u, v)
  }

  /** A generator has no factors; the factors of a product are smaller indices. */
  predicate Shape(u: int, pu: bool, us: (int, int))
  {
    if pu || u == 0 then us == (0, 0) else us.0 != 0 && us.1 != 0 && Abs(us.0) < Abs(u) && Abs(us.1) < Abs(u)
  }

  function Mirror(o: Outcome): Outcome
  {
    match o
    case Done(a, b) => if b == 0 then Done(-a, 0) else Done(-b, -a)
    case Again(a, b) => Again(-b, -a)
  }

  lemma {:induction false} OnceMirror(u: int, v: int, pu: bool, us: (int, int), pv: bool, vs: (int, int))
    requires Shape(u, pu, us) && Shape(v, pv, vs)
    ensures Once(-v, -u, pv, (-vs.1, -vs.0), pu, (-us.1, -us.0)) == Mirror(Once(u, v, pu, us, pv, vs))
  {
  }

  lemma {:induction false} OnceSmaller(t: Tree, u: int, v: int)
    requires t.Valid() && t.Has(u) && t.Has(v)
    ensures var o := CancelOnce(t, u, v);
            && t.Has(o.a) && t.Has(o.b) && (o.Again? ==> Abs(o.a) + Abs(o.b) < Abs(u) + Abs(v))
            && (o.Done? && o.b != 0 ==> o.a != 0 && o.a + o.b != 0)
  {
  }

  /** What can be cancelled between u and v is cancelled: the two indices that are left over. */
  function Cancelled(t: Tree, u: int, v: int): ((int, int))
    requires t.Valid() && t.Has(u) && t.Has(v)
    decreases Abs(u) + Abs(v)
  {
    OnceSmaller(t, u, v);
    match CancelOnce(t, u, v)
    case Done(a, b) => (a, b)
    case Again(a, b) => Cancelled(t, a, b)
  }

  function Product(t: Tree, u: int, v: int): ((int, Tree))
    requires t.Valid() && t.Has(u) && t.Has(v)
  {
    CancelledHas(t, u, v);
    var (a, b) := Cancelled(t, u, v);
    if b == 0 then (a, t) else Joined(t, a, b)
  }

  lemma {:induction false} CancelledHas(t: Tree, u: int, v: int)
    requires t.Valid() && t.Has(u) && t.Has(v)
    ensures var (a, b) := Cancelled(t, u, v); t.Has(a) && t.Has(b) && (b != 0 ==> a != 0 && a + b != 0)
    decreases Abs(u) + Abs(v)
  {
    OnceSmaller(t, u, v);
    var o := CancelOnce(t, u, v);
    if o.Again? {
      CancelledHas(t, o.a, o.b);
    }
  }

  lemma {:induction false} CancelledVal<X(!new)>(t: Tree, act: Action<X>, u: int, v: int, x: X)
    requires t.Valid() && t.Has(u) && t.Has(v) && Inverts(act)
    ensures var (a, b) := Cancelled(t, u, v);
            t.Has(a) && t.Has(b) && Val(t, act, b, Val(t, act, a, x)) == Val(t, act, v, Val(t, act, u, x))
    decreases Abs(u) + Abs(v)
  {
    OnceSmaller(t, u, v);
    OnceVal(t, act, u, v, x);
    var o := CancelOnce(t, u, v);
    if o.Again? {
      CancelledVal(t, act, o.a, o.b, x);
    }
  }

  lemma {:induction false} OnceVal<X(!new)>(t: Tree, act: Action<X>, u: int, v: int, x: X)
    requires t.Valid() && t.Has(u) && t.Has(v) && Inverts(act)
    ensures var o := CancelOnce(t, u, v);
            t.Has(o.a) && t.Has(o.b) && Val(t, act, o.b, Val(t, act, o.a, x)) == Val(t, act, v, Val(t, act, u, x))
  {
    OnceSmaller(t, u, v);
    if u != 0 && v != 0 {
      if u + v == 0 {
        ValInverse(t, act, u, x);
      } else {
        if !t.Primitive(u) && Factors(t, u).1 == -v {
          CancelRight(t, act, u, v, x);
        } else if !t.Primitive(v) && Factors(t, v).0 == -u {
          CancelLeft(t, act, u, v, x);
        } else if !t.Primitive(v) && Factors(t, u).0 != 0 && Factors(t, v).0 == -Factors(t, u).1 {
          CancelMiddle(t, act, u, v, x);
        }
      }
    }
  }

  // ----- the ways in which adjacent factors cancel

  lemma {:induction false} CancelRight<X(!new)>(t: Tree, act: Action<X>, u: int, v: int, x: X)
    requires t.Valid() && t.Has(u) && t.Has(v) && Inverts(act) && u != 0 && !t.Primitive(u) && Factors(t, u).1 == -v
    ensures Val(t, act, Factors(t, u).0, x) == Val(t, act, v, Val(t, act, u, x))
  {
    var (u1, u2) := Factors(t, u);
    ValInverse(t, act, u2, Val(t, act, u1, x));
  }

  lemma {:induction false} CancelLeft<X(!new)>(t: Tree, act: Action<X>, u: int, v: int, x: X)
    requires t.Valid() && t.Has(u) && t.Has(v) && Inverts(act) && v != 0 && !t.Primitive(v) && Factors(t, v).0 == -u
    ensures Val(t, act, Factors(t, v).1, x) == Val(t, act, v, Val(t, act, u, x))
  {
    ValInverse(t, act, u, x);
  }

  lemma {:induction false} CancelMiddle<X(!new)>(t: Tree, act: Action<X>, u: int, v: int, x: X)
    requires t.Valid() && t.Has(u) && t.Has(v) && Inverts(act) && u != 0 && v != 0 && !t.Primitive(u) && !t.Primitive(v)
    requires Factors(t, v).0 == -Factors(t, u).1
    ensures Val(t, act, Factors(t, v).1, Val(t, act, Factors(t, u).0, x)) == Val(t, act, v, Val(t, act, u, x))
  {
    var (u1, u2) := Factors(t, u);
    ValInverse(t, act, u2, Val(t, act, u1, x));
  }

  lemma {:induction false} JoinedVal<X(!new)>(t: Tree, act: Action<X>, u: int, v: int, x: X)
    requires t.Valid() && t.Has(u) && t.Has(v) && Inverts(act) && u != 0 && v != 0 && u + v != 0
    ensures var (k, r) := Joined(t, u, v);
            r.Valid() && Continues(t, r) && r.Has(k) && Val(r, act, k, x) == Val(t, act, v, Val(t, act, u, x))
  {
    var (k, r) := Joined(t, u, v);
    JoinedValid(t, u, v);
    ValContinues(t, r, act, u, x);
    ValContinues(t, r, act, v, Val(t, act, u, x));
    PairVal(r, act, u, v, k, x);
  }

  /** An entry that holds the pair for u v. */
  lemma {:induction false} PairVal<X(!new)>(r: Tree, act: Action<X>, u: int, v: int, k: int, x: X)
    requires r.Valid() && r.Has(u) && r.Has(v) && r.Has(k) && u != 0 && v != 0 && k != 0 && (k < 0 <==> u > -v)
    requires r.left[Abs(k)] == Pair(u, v).0 && r.right[Abs(k)] == Pair(u, v).1
    ensures Val(r, act, k, x) == Val(r, act, v, Val(r, act, u, x))
  {
    assert Factors(r, k) == (u, v);
  }

  lemma {:induction false} JoinedValid(t: Tree, u: int, v: int)
    requires t.Valid() && t.Has(u) && t.Has(v) && u != 0 && v != 0 && u + v != 0
    ensures var (k, r) := Joined(t, u, v);
            && r.Valid() && Continues(t, r) && r.Has(k) && k != 0 && (k < 0 <==> u > -v)
            && r.left[Abs(k)] == Pair(u, v).0 && r.right[Abs(k)] == Pair(u, v).1
  {
    var e := Entry(t, u, v);
    var r := Joined(t, u, v).1;
    assert Continues(t, r);
  }

  /** The product stands for the product, and old entries stay as they are. */
  lemma {:induction false} ProductVal<X(!new)>(t: Tree, act: Action<X>, u: int, v: int, x: X)
    requires t.Valid() && t.Has(u) && t.Has(v) && Inverts(act)
    ensures var (k, r) := Product(t, u, v);
            r.Valid() && Continues(t, r) && r.Has(k) && Val(r, act, k, x) == Val(t, act, v, Val(t, act, u, x))
  {
    CancelledHas(t, u, v);
    CancelledVal(t, act, u, v, x);
    var (a, b) := Cancelled(t, u, v);
    if b != 0 {
      JoinedVal(t, act, a, b, x);
    }
  }

  lemma {:induction false} ProductValid(t: Tree, u: int, v: int)
    requires t.Valid() && t.Has(u) && t.Has(v)
    ensures var (k, r) := Product(t, u, v); r.Valid() && Continues(t, r) && r.Has(k)
  {
    CancelledHas(t, u, v);
    var (a, b) := Cancelled(t, u, v);
    if b != 0 {
      JoinedValid(t, a, b);
    }
  }

  // ----- asking again

  lemma {:induction false} FactorsContinue(t: Tree, r: Tree, u: int)
    requires t.Valid() && r.Valid() && Continues(t, r) && t.Has(u)
    ensures r.Has(u) && Factors(r, u) == Factors(t, u) && r.Primitive(u) == t.Primitive(u)
  {
    SameEntry(t, r, Abs(u));
  }

  lemma {:induction false} OnceContinues(t: Tree, r: Tree, u: int, v: int)
    requires t.Valid() && r.Valid() && Continues(t, r) && t.Has(u) && t.Has(v)
    ensures r.Has(u) && r.Has(v) && CancelOnce(r, u, v) == CancelOnce(t, u, v)
  {
    FactorsContinue(t, r, u);
    FactorsContinue(t, r, v);
  }

  lemma {:induction false} CancelledContinues(t: Tree, r: Tree, u: int, v: int)
    requires t.Valid() && r.Valid() && Continues(t, r) && t.Has(u) && t.Has(v)
    ensures Cancelled(r, u, v) == Cancelled(t, u, v)
    decreases Abs(u) + Abs(v)
  {
    OnceContinues(t, r, u, v);
    OnceSmaller(t, u, v);
    var o := CancelOnce(t, u, v);
    if o.Again? {
      CancelledContinues(t, r, o.a, o.b);
    }
  }

  /** An entry that has been found or made is the first one to be found later. */
  lemma {:induction false} SearchAgain(t: Tree, r: Tree, t1: int, t2: int, k: nat)
    requires t.Valid() && r.Valid() && Continues(t, r) && 1 <= k <= |t.left|
    requires Search(t, t1, t2, k) < |r.left| && r.left[Search(t, t1, t2, k)] == t1 &&
             r.right[Search(t, t1, t2, k)] == t2
    ensures Search(r, t1, t2, k) == Search(t, t1, t2, k)
    decreases |t.left| - k
  {
    if k < |t.left| {
      SameEntry(t, r, k);
      if !(t.left[k] == t1 && t.right[k] == t2) {
        SearchAgain(t, r, t1, t2, k + 1);
      }
    }
  }

  lemma {:induction false} JoinedAgain(t: Tree, u: int, v: int, z: Tree)
    requires t.Valid() && t.Has(u) && t.Has(v) && u != 0 && v != 0 && u + v != 0
    requires z.Valid() && Continues(Joined(t, u, v).1, z) && Continues(t, z)
    ensures z.Has(u) && z.Has(v) && Joined(z, u, v) == (Joined(t, u, v).0, z)
  {
    EntryAgain(t, u, v, z);
    assert Entry(z, u, v) < |z.left|;
  }

  lemma {:induction false} EntryAgain(t: Tree, u: int, v: int, z: Tree)
    requires t.Valid() && t.Has(u) && t.Has(v) && u != 0 && v != 0 && u + v != 0
    requires z.Valid() && Continues(Joined(t, u, v).1, z) && Continues(t, z)
    ensures z.Has(u) && z.Has(v) && Entry(z, u, v) == Entry(t, u, v) < |z.left|
  {
    var e, p, r := Entry(t, u, v), Pair(u, v), Joined(t, u, v).1;
    JoinedEntry(t, u, v);
    SameEntry(r, z, e);
    SearchAgain(t, z, p.0, p.1, Max(Abs(u), Abs(v)) + 1);
  }

  lemma {:induction false} JoinedEntry(t: Tree, u: int, v: int)
    requires t.Valid() && t.Has(u) && t.Has(v) && u != 0 && v != 0 && u + v != 0
    ensures var e, p, r := Entry(t, u, v), Pair(u, v), Joined(t, u, v).1;
            r.Valid() && e < |r.left| && r.left[e] == p.0 && r.right[e] == p.1
  {
    JoinedValid(t, u, v);
  }

  /** A product that has been entered is found again, in every continuation of the tree. */
  lemma {:induction false} ProductAgain(t: Tree, u: int, v: int, z: Tree)
    requires t.Valid() && t.Has(u) && t.Has(v) && z.Valid() && Continues(Product(t, u, v).1, z)
    ensures Continues(t, z) && z.Has(u) && z.Has(v) && Product(z, u, v) == (Product(t, u, v).0, z)
  {
    var (k, r) := Product(t, u, v);
    ProductValid(t, u, v);
    ContinuesTrans(t, r, z);
    CancelledHas(t, u, v);
    CancelledContinues(t, z, u, v);
    var (a, b) := Cancelled(t, u, v);
    if b != 0 {
      JoinedAgain(t, a, b, z);
    }
  }

  lemma {:induction false} ContinuesTrans(a: Tree, b: Tree, c: Tree)
    requires Continues(a, b) && Continues(b, c)
    ensures Continues(a, c)
  {
    forall k | 0 <= k < |a.left|
      ensures SameAt(a, c, k)
    {
      assert SameAt(a, b, k) && SameAt(b, c, k);
    }
  }

  // ----- words

  ghost predicate Word(t: Tree, w: seq<int>)
  {
    forall i :: 0 <= i < |w| ==> t.Has(w[i])
  }

  ghost function WordVal<X(!new)>(t: Tree, act: Action<X>, w: seq<int>, x: X): X
    requires t.Valid() && Word(t, w)
  {
    if w == [] then x else Val(t, act, w[|w| - 1], WordVal(t, act, w[..|w| - 1], x))
  }

  /** The freely reduced word: letters 0 are dropped, and adjacent inverse letters cancel. */
  function FreeReduced(w: seq<int>): (r: seq<int>)
    ensures |r| <= |w|
  {
    if w == [] then []
    else
      Appended(FreeReduced(w[..|w| - 1]), w[|w| - 1])
  }

  /** A reduced word times a letter. */
  function Appended(r: seq<int>, g: int): seq<int>
  {
    if g == 0 then r else if r != [] && g == -r[|r| - 1] then r[..|r| - 1] else r + [g]
  }

  /** No letter is 0, and no two adjacent letters are inverse to each other. */
  ghost predicate FreelyReduced(w: seq<int>)
  {
    (forall i :: 0 <= i < |w| ==> w[i] != 0) && forall i {:trigger w[i + 1]} :: 0 <= i < |w| - 1 ==> w[i + 1] != -w[i]
  }

  /** The freely reduced word is freely reduced, and such words stay as they are. */
  lemma {:induction false} ReducedIs(w: seq<int>)
    ensures FreelyReduced(FreeReduced(w)) && (FreelyReduced(w) ==> FreeReduced(w) == w)
  {
    if w != [] {
      var v, g := w[..|w| - 1], w[|w| - 1];
      ReducedIs(v);
      AppendedReduced(FreeReduced(v), g);
      if FreelyReduced(w) {
        FrontReduced(w);
        if |w| >= 2 {
          var i := |w| - 2;
          assert w[i + 1] != -w[i];
        }
      }
    }
  }

  lemma {:induction false} FrontReduced(w: seq<int>)
    requires FreelyReduced(w) && w != []
    ensures FreelyReduced(w[..|w| - 1])
  {
    var v := w[..|w| - 1];
    forall i | 0 <= i < |v| - 1
      ensures v[i + 1] != -v[i]
    {
      assert w[i + 1] != -w[i];
    }
  }

  lemma {:induction false} AppendedReduced(r: seq<int>, g: int)
    requires FreelyReduced(r)
    ensures FreelyReduced(Appended(r, g))
  {
    if r != [] && g == -r[|r| - 1] {
      FrontReduced(r);
    } else if g != 0 {
      var q := r + [g];
      forall i | 0 <= i < |q| - 1
        ensures q[i + 1] != -q[i]
      {
        assert i + 1 < |r| ==> r[i + 1] != -r[i];
      }
    }
  }

  lemma {:induction false} ReducedWord(t: Tree, w: seq<int>)
    requires Word(t, w)
    ensures Word(t, FreeReduced(w))
  {
    if w != [] {
      ReducedWord(t, w[..|w| - 1]);
    }
  }

  lemma {:induction false} ReducedVal<X(!new)>(t: Tree, act: Action<X>, w: seq<int>, x: X)
    requires t.Valid() && Word(t, w) && Inverts(act)
    ensures Word(t, FreeReduced(w)) && WordVal(t, act, FreeReduced(w), x) == WordVal(t, act, w, x)
  {
    ReducedWord(t, w);
    if w != [] {
      var r, g := FreeReduced(w[..|w| - 1]), w[|w| - 1];
      ReducedWord(t, w[..|w| - 1]);
      ReducedVal(t, act, w[..|w| - 1], x);
      if g != 0 {
        if r != [] && g == -r[|r| - 1] {
          ValInverse(t, act, r[|r| - 1], WordVal(t, act, r[..|r| - 1], x));
        } else {
          assert (r + [g])[..|r|] == r;
        }
      }
    }
  }

  /** Multiplies the letters of a word together. */
  function Collect(t: Tree, w: seq<int>): (r: (int, Tree))
    requires t.Valid() && forall i :: 0 <= i < |w| ==> t.Has(w[i])
    ensures r.1.Valid() && Continues(t, r.1) && r.1.Has(r.0)
  {
    if w == [] then (0, t)
    else if |w| == 1 then (w[0], t)
    else
      var (u, r) := Collect(t, w[..|w| - 1]);
      assert t.Has(w[|w| - 1]);
      ProductValid(r, u, w[|w| - 1]);
      ContinuesTrans(t, r, Product(r, u, w[|w| - 1]).1);
      Product(r, u, w[|w| - 1])
  }

  /** The index stands for the word. */
  lemma {:induction false} CollectVal<X(!new)>(t: Tree, act: Action<X>, w: seq<int>, x: X)
    requires t.Valid() && Word(t, w) && Inverts(act)
    ensures var (k, r) := Collect(t, w); Val(r, act, k, x) == WordVal(t, act, w, x)
  {
    if |w| == 1 {
      assert WordVal(t, act, w[..0], x) == x;
    } else if |w| > 1 {
      var (u, r) := Collect(t, w[..|w| - 1]);
      var v := w[|w| - 1];
      CollectVal(t, act, w[..|w| - 1], x);
      ProductVal(r, act, u, v, x);
      ValContinues(t, r, act, v, Val(r, act, u, x));
    }
  }

  /** Asking for the same word again gives the same index and leaves the tree as it is. */
  lemma {:induction false} CollectAgain(t: Tree, w: seq<int>, z: Tree)
    requires t.Valid() && Word(t, w) && z.Valid() && Continues(Collect(t, w).1, z)
    ensures Word(z, w) && Collect(z, w) == (Collect(t, w).0, z)
  {
    ContinuesTrans(t, Collect(t, w).1, z);
    if |w| > 1 {
      var (u, r) := Collect(t, w[..|w| - 1]);
      var v := w[|w| - 1];
      ProductAgain(r, u, v, z);
      CollectAgain(t, w[..|w| - 1], z);
    }
  }

  // ----- what is left over

  /** Nothing cancels between u and v: no factor of either against the other, and no facing inner factors. */
  ghost predicate Uncancelled(t: Tree, u: int, v: int)
    requires t.Valid() && t.Has(u) && t.Has(v)
  {
    && u != 0 && v != 0 && u + v != 0
    && (t.Primitive(u) || Factors(t, u).1 != -v)
    && (t.Primitive(v) || Factors(t, v).0 != -u)
    && (t.Primitive(u) || t.Primitive(v) || Factors(t, u).0 == 0 || Factors(t, v).0 != -Factors(t, u).1)
  }

  lemma {:induction false} OnceStuck(t: Tree, u: int, v: int)
    requires t.Valid() && t.Has(u) && t.Has(v) && v != 0
    ensures CancelOnce(t, u, v) == Done(u, v) <==> Uncancelled(t, u, v)
  {
  }

  lemma {:induction false} OnceLeaves(t: Tree, u: int, v: int)
    requires t.Valid() && t.Has(u) && t.Has(v)
    ensures var o := CancelOnce(t, u, v);
            && (o.Again? ==> t.Has(o.a) && t.Has(o.b) && Abs(o.a) <= Abs(u) && Abs(o.b) <= Abs(v))
            && (o.Done? ==> if o.b == 0 then t.Has(o.a) && Abs(o.a) <= Max(Abs(u), Abs(v))
                            else o == Done(u, v) && Uncancelled(t, u, v))
  {
    if CancelOnce(t, u, v) == Done(u, v) && v != 0 {
      OnceStuck(t, u, v);
    }
  }

  /** Two indices are left over only if nothing cancels between them. */
  lemma {:induction false} CancelledStuck(t: Tree, u: int, v: int)
    requires t.Valid() && t.Has(u) && t.Has(v)
    ensures var (a, b) := Cancelled(t, u, v);
            && t.Has(a) && t.Has(b) && (b != 0 ==> Uncancelled(t, a, b) && Abs(a) <= Abs(u) && Abs(b) <= Abs(v))
            && (b == 0 ==> Abs(a) <= Max(Abs(u), Abs(v)))
    decreases Abs(u) + Abs(v)
  {
    OnceSmaller(t, u, v);
    OnceLeaves(t, u, v);
    match CancelOnce(t, u, v)
    case Again(a, b) => CancelledStuck(t, a, b);
    case Done(_, _) =>
  }

  /** What is done with the outcome of an attempt. */
  function Finish(t: Tree, o: Outcome): ((int, Tree))
    requires t.Valid() && t.Has(o.a) && t.Has(o.b)
  {
    match o
    case Again(a, b) => Product(t, a, b)
    case Done(a, b) => if b == 0 then (a, t) else Joined(t, a, b)
  }

  lemma {:induction false} ProductOnce(t: Tree, u: int, v: int)
    requires t.Valid() && t.Has(u) && t.Has(v)
    ensures var o := CancelOnce(t, u, v); t.Has(o.a) && t.Has(o.b) && Product(t, u, v) == Finish(t, o)
  {
    OnceSmaller(t, u, v);
  }

  lemma {:induction false} ProductStuck(t: Tree, u: int, v: int)
    requires t.Valid() && t.Has(u) && t.Has(v) && Uncancelled(t, u, v)
    ensures Product(t, u, v) == Joined(t, u, v)
  {
    OnceStuck(t, u, v);
    ProductOnce(t, u, v);
  }

  lemma {:induction false} FactorsInverse(t: Tree, u: int)
    requires t.Valid() && t.Has(u)
    ensures Factors(t, -u) == (-Factors(t, u).1, -Factors(t, u).0) && t.Primitive(-u) == t.Primitive(u)
  {
  }

  // ----- trees that products have been entered into

  /** A product that is entered once, with nothing to be cancelled between its factors. */
  ghost predicate TidyAt(t: Tree, k: int)
    requires t.Valid() && 1 <= k < |t.left|
  {
    t.left[k] != 0 ==>
      && t.right[k] != 0 && t.left[k] < -t.right[k] && Uncancelled(t, t.left[k], t.right[k])
      && forall j :: 1 <= j < k ==> t.left[j] != t.left[k] || t.right[j] != t.right[k]
  }

  ghost predicate Tidy(t: Tree)
  {
    t.Valid() && forall k {:trigger TidyAt(t, k)} :: 1 <= k < |t.left| ==> TidyAt(t, k)
  }

  lemma {:induction false} TidyFactors(t: Tree, u: int)
    requires Tidy(t) && t.Has(u) && u != 0 && !t.Primitive(u)
    ensures var (a, b) := Factors(t, u);
            && t.Has(a) && t.Has(b) && Abs(a) < Abs(u) && Abs(b) < Abs(u) && Uncancelled(t, a, b)
            && Pair(a, b) == (t.left[Abs(u)], t.right[Abs(u)]) && (u < 0 <==> a > -b)
  {
    assert TidyAt(t, Abs(u));
    if u < 0 {
      UncancelledInverse(t, t.left[-u], t.right[-u]);
    }
  }

  lemma {:induction false} UncancelledInverse(t: Tree, u: int, v: int)
    requires Tidy(t) && t.Has(u) && t.Has(v) && Uncancelled(t, u, v)
    ensures Uncancelled(t, -v, -u)
  {
    assert TidyAt(t, Abs(u)) && TidyAt(t, Abs(v));
  }

  lemma {:induction false} SearchBound(t: Tree, t1: int, t2: int, k: nat, e: int)
    requires t.Valid() && 1 <= k <= e < |t.left| && t.left[e] == t1 && t.right[e] == t2
    ensures Search(t, t1, t2, k) <= e
    decreases |t.left| - k
  {
    if !(t.left[k] == t1 && t.right[k] == t2) {
      SearchBound(t, t1, t2, k + 1, e);
    }
  }

  /** The factors of an index lead back to it. */
  lemma {:induction false} JoinedFactors(t: Tree, u: int)
    requires Tidy(t) && t.Has(u) && u != 0 && !t.Primitive(u)
    ensures var (a, b) := Factors(t, u); t.Has(a) && t.Has(b) && Joined(t, a, b) == (u, t)
  {
    var (a, b) := Factors(t, u);
    TidyFactors(t, u);
    var e := Entry(t, a, b);
    SearchBound(t, Pair(a, b).0, Pair(a, b).1, Max(Abs(a), Abs(b)) + 1, Abs(u));
    assert TidyAt(t, Abs(u)) && TidyAt(t, e);
  }

  lemma {:induction false} FactorsUnique(t: Tree, u: int, v: int)
    requires Tidy(t) && t.Has(u) && t.Has(v) && u != 0 && v != 0 && !t.Primitive(u) && !t.Primitive(v)
    requires Factors(t, u) == Factors(t, v)
    ensures u == v
  {
    JoinedFactors(t, u);
    JoinedFactors(t, v);
  }

  lemma {:induction false} UncancelledContinues(t: Tree, r: Tree, u: int, v: int)
    requires t.Valid() && r.Valid() && Continues(t, r) && t.Has(u) && t.Has(v)
    ensures r.Has(u) && r.Has(v) && Uncancelled(r, u, v) == Uncancelled(t, u, v)
  {
    FactorsContinue(t, r, u);
    FactorsContinue(t, r, v);
  }

  lemma {:induction false} TidyContinues(t: Tree, r: Tree, k: int)
    requires Tidy(t) && r.Valid() && Continues(t, r) && 1 <= k < |t.left|
    ensures TidyAt(r, k)
  {
    assert TidyAt(t, k);
    SameEntry(t, r, k);
    UncancelledContinues(t, r, t.left[k], t.right[k]);
    forall j | 1 <= j < k
      ensures r.left[j] == t.left[j] && r.right[j] == t.right[j]
    {
      SameEntry(t, r, j);
    }
  }

  lemma {:induction false} NewEntryTidy(t: Tree, r: Tree, u: int, v: int)
    requires Tidy(t) && t.Has(u) && t.Has(v) && Uncancelled(t, u, v) && r == Extended(t, u, v)
    requires r.Valid() && Continues(t, r) && Entry(t, u, v) == |t.left|
    ensures TidyAt(r, |t.left|)
  {
    var (t1, t2) := Pair(u, v);
    UncancelledInverse(t, u, v);
    UncancelledContinues(t, r, t1, t2);
    forall j | 1 <= j < |t.left|
      ensures r.left[j] != t1 || r.right[j] != t2
    {
      SameEntry(t, r, j);
      if t.left[j] == t1 && t.right[j] == t2 {
        SearchBound(t, t1, t2, Max(Abs(u), Abs(v)) + 1, j);
      }
    }
  }

  lemma {:induction false} JoinedTidy(t: Tree, u: int, v: int)
    requires Tidy(t) && t.Has(u) && t.Has(v) && Uncancelled(t, u, v)
    ensures var (k, r) := Joined(t, u, v);
            Tidy(r) && Continues(t, r) && r.Has(k) && k != 0 && !r.Primitive(k) && Factors(r, k) == (u, v)
  {
    var (k, r) := Joined(t, u, v);
    JoinedValid(t, u, v);
    forall e | 1 <= e < |r.left|
      ensures TidyAt(r, e)
    {
      if e < |t.left| {
        TidyContinues(t, r, e);
      } else {
        NewEntryTidy(t, r, u, v);
      }
    }
  }

  /** Products keep the tree tidy. */
  lemma {:induction false} ProductTidy(t: Tree, u: int, v: int)
    requires Tidy(t) && t.Has(u) && t.Has(v)
    ensures var (k, r) := Product(t, u, v); Tidy(r) && Continues(t, r) && r.Has(k)
  {
    ProductValid(t, u, v);
    CancelledStuck(t, u, v);
    var (a, b) := Cancelled(t, u, v);
    if b != 0 {
      JoinedTidy(t, a, b);
    }
  }

  lemma {:induction false} CollectTidy(t: Tree, w: seq<int>)
    requires Tidy(t) && Word(t, w)
    ensures Tidy(Collect(t, w).1)
  {
    if |w| > 1 {
      CollectTidy(t, w[..|w| - 1]);
      var (u, r) := Collect(t, w[..|w| - 1]);
      ProductTidy(r, u, w[|w| - 1]);
    }
  }

  // ----- undoing a product

  lemma {:induction false} TidyShape(t: Tree, u: int)
    requires Tidy(t) && t.Has(u)
    ensures Shape(u, t.Primitive(u), Factors(t, u))
  {
    if u != 0 && !t.Primitive(u) {
      assert TidyAt(t, Abs(u));
    }
  }

  lemma {:induction false} OnceInverse(t: Tree, u: int, v: int)
    requires Tidy(t) && t.Has(u) && t.Has(v)
    ensures CancelOnce(t, -v, -u) == Mirror(CancelOnce(t, u, v))
  {
    FactorsInverse(t, u);
    FactorsInverse(t, v);
    TidyShape(t, u);
    TidyShape(t, v);
    OnceMirror(u, v, t.Primitive(u), Factors(t, u), t.Primitive(v), Factors(t, v));
  }

  lemma {:induction false} JoinedInverse(t: Tree, u: int, v: int)
    requires t.Valid() && t.Has(u) && t.Has(v) && u + v != 0
    ensures Joined(t, -v, -u) == (-Joined(t, u, v).0, Joined(t, u, v).1)
  {
  }

  /** The inverse of a product has the negative index. */
  lemma {:induction false} ProductInverse(t: Tree, u: int, v: int)
    requires Tidy(t) && t.Has(u) && t.Has(v)
    ensures Product(t, -v, -u) == (-Product(t, u, v).0, Product(t, u, v).1)
    decreases Abs(u) + Abs(v)
  {
    OnceSmaller(t, u, v);
    match CancelOnce(t, u, v)
    case Again(a, b) =>
      ProductInverse(t, a, b);
      InverseAgain(t, u, v, a, b);
    case Done(a, b) =>
      if b == 0 {
        InverseDone(t, u, v, a);
      } else {
        OnceLeaves(t, u, v);
        InverseStuck(t, u, v);
      }
  }

  lemma {:induction false} GoesOn(t: Tree, u: int, v: int, a: int, b: int)
    requires t.Valid() && t.Has(u) && t.Has(v) && CancelOnce(t, u, v) == Again(a, b)
    ensures t.Has(a) && t.Has(b) && Product(t, u, v) == Product(t, a, b)
  {
    OnceSmaller(t, u, v);
  }

  lemma {:induction false} InverseAgain(t: Tree, u: int, v: int, a: int, b: int)
    requires Tidy(t) && t.Has(u) && t.Has(v) && CancelOnce(t, u, v) == Again(a, b) && t.Has(a) && t.Has(b)
    requires Product(t, -b, -a) == (-Product(t, a, b).0, Product(t, a, b).1)
    ensures Product(t, -v, -u) == (-Product(t, u, v).0, Product(t, u, v).1)
  {
    OnceInverse(t, u, v);
    GoesOn(t, u, v, a, b);
    GoesOn(t, -v, -u, -b, -a);
  }

  lemma {:induction false} InverseDone(t: Tree, u: int, v: int, a: int)
    requires Tidy(t) && t.Has(u) && t.Has(v) && CancelOnce(t, u, v) == Done(a, 0)
    ensures Product(t, -v, -u) == (-Product(t, u, v).0, Product(t, u, v).1)
  {
    OnceInverse(t, u, v);
    ProductOnce(t, u, v);
    ProductOnce(t, -v, -u);
  }

  lemma {:induction false} InverseStuck(t: Tree, u: int, v: int)
    requires Tidy(t) && t.Has(u) && t.Has(v) && Uncancelled(t, u, v)
    ensures Product(t, -v, -u) == (-Product(t, u, v).0, Product(t, u, v).1)
  {
    ProductStuck(t, u, v);
    assert Product(t, -v, -u) == Joined(t, -v, -u) by {
      UncancelledInverse(t, u, v);
      ProductStuck(t, -v, -u);
    }
    JoinedInverse(t, u, v);
  }

  /**
    Between u and v one pair of inner factors cancels at most, and then nothing else does. This is when
    multiplying by v can be undone by multiplying by -v.
   */
  ghost predicate Undoable(t: Tree, u: int, v: int)
    requires t.Valid() && t.Has(u) && t.Has(v)
  {
    OnceSmaller(t, u, v);
    match CancelOnce(t, u, v)
    case Done(_, _) => true
    case Again(a, b) => Uncancelled(t, a, b)
  }

  /** What is known about the index of a product that more than that cancels in. */
  lemma {:induction false} DeepProduct(t: Tree, u: int, v: int)
    requires Tidy(t) && t.Has(u) && t.Has(v) && u != 0 && v != 0 && u + v != 0 && !Uncancelled(t, u, v)
    ensures var (k, r) := Product(t, u, v); r.Valid() && r.Has(k) && Deep(r, k, Abs(u), Abs(v))
    decreases Abs(u) + Abs(v)
  {
    ProductValid(t, u, v);
    ProductOnce(t, u, v);
    var o := CancelOnce(t, u, v);
    if o.Again? {
      InnerApart(t, u, v);
      TidyFactors(t, u);
      TidyFactors(t, v);
      if Uncancelled(t, o.a, o.b) {
        ProductStuck(t, o.a, o.b);
        JoinedTidy(t, o.a, o.b);
      } else {
        DeepProduct(t, o.a, o.b);
      }
    } else {
      OnceSmall(t, u, v);
    }
  }

  /** An index that is smaller than one of two others, or whose right factor is. */
  ghost predicate Deep(r: Tree, k: int, a: int, b: int)
    requires r.Valid() && r.Has(k)
  {
    k != 0 && (Abs(k) < a || Abs(k) < b || (!r.Primitive(k) && Abs(Factors(r, k).1) < b))
  }

  lemma {:induction false} OnceSmall(t: Tree, u: int, v: int)
    requires Tidy(t) && t.Has(u) && t.Has(v) && u != 0 && v != 0 && u + v != 0 && !Uncancelled(t, u, v)
    ensures var o := CancelOnce(t, u, v); o.Done? ==> o.b == 0 && o.a != 0 && (Abs(o.a) < Abs(u) || Abs(o.a) < Abs(v))
  {
    if !t.Primitive(u) {
      TidyFactors(t, u);
    }
    if !t.Primitive(v) {
      TidyFactors(t, v);
    }
  }

  /** If inner factors cancel, the outer ones are not inverse to each other. */
  lemma {:induction false} InnerApart(t: Tree, u: int, v: int)
    requires Tidy(t) && t.Has(u) && t.Has(v) && CancelOnce(t, u, v).Again?
    ensures var o := CancelOnce(t, u, v); t.Has(o.a) && t.Has(o.b) && o.a != 0 && o.b != 0 && o.a + o.b != 0
    ensures var o := CancelOnce(t, u, v);
            && u != 0 && v != 0 && !t.Primitive(u) && !t.Primitive(v)
            && Factors(t, u) == (o.a, -Factors(t, v).0) && Factors(t, v).1 == o.b
  {
    TidyFactors(t, u);
    TidyFactors(t, v);
    if CancelOnce(t, u, v).a + CancelOnce(t, u, v).b == 0 {
      FactorsUnique(t, -u, v);
    }
  }

  /** u v is left as u again by -v, where nothing or one pair of inner factors cancels. */
  lemma {:induction false} UndoneWhen(t: Tree, u: int, v: int)
    requires Tidy(t) && t.Has(u) && t.Has(v) && Undoable(t, u, v)
    ensures var (k, r) := Product(t, u, v); r.Valid() && r.Has(k) && r.Has(-v) && Product(r, k, -v) == (u, r)
  {
    ProductTidy(t, u, v);
    OnceSmaller(t, u, v);
    if u != 0 && v != 0 && u + v != 0 {
      if CancelOnce(t, u, v).Again? {
        UndoneInner(t, u, v);
      } else {
        UndoneOuter(t, u, v);
      }
    }
  }

  lemma {:induction false} UndoneOuter(t: Tree, u: int, v: int)
    requires Tidy(t) && t.Has(u) && t.Has(v) && u != 0 && v != 0 && u + v != 0 && CancelOnce(t, u, v).Done?
    ensures var (k, r) := Product(t, u, v); r.Valid() && r.Has(k) && r.Has(-v) && Product(r, k, -v) == (u, r)
  {
    ProductOnce(t, u, v);
    if Uncancelled(t, u, v) {
      UndoneJoined(t, u, v);
    } else if !t.Primitive(u) && Factors(t, u).1 == -v {
      TidyFactors(t, u);
      ProductStuck(t, Factors(t, u).0, -v);
      JoinedFactors(t, u);
    } else {
      UndoneLeft(t, u, v);
    }
  }

  lemma {:induction false} UndoneJoined(t: Tree, u: int, v: int)
    requires Tidy(t) && t.Has(u) && t.Has(v) && Uncancelled(t, u, v)
    ensures var (k, r) := Product(t, u, v); r.Valid() && r.Has(k) && r.Has(-v) && Product(r, k, -v) == (u, r)
  {
    ProductStuck(t, u, v);
    JoinedTidy(t, u, v);
    var (k, r) := Joined(t, u, v);
    TidyFactors(r, k);
    ProductOnce(r, k, -v);
  }

  lemma {:induction false} LeftOnce(u: int, v: int, pu: bool, us: (int, int), b: int, pb: bool, bs: (int, int))
    requires u != 0 && u + v != 0 && v != 0
    requires Shape(u, pu, us) && Shape(v, false, (-u, b)) && Shape(b, pb, bs)
    ensures Once(u, v, pu, us, false, (-u, b)) == Done(b, 0)
    ensures Once(b, -v, pb, bs, false, (-b, u)) == Done(u, 0)
  {
  }

  lemma {:induction false} UndoneLeft(t: Tree, u: int, v: int)
    requires Tidy(t) && t.Has(u) && t.Has(v) && u != 0 && v != 0 && u + v != 0
    requires !t.Primitive(v) && Factors(t, v).0 == -u
    ensures Product(t, u, v) == (Factors(t, v).1, t) && t.Has(Factors(t, v).1)
    ensures Product(t, Factors(t, v).1, -v) == (u, t)
  {
    var b := Factors(t, v).1;
    TidyShape(t, u);
    TidyShape(t, v);
    TidyShape(t, b);
    FactorsInverse(t, v);
    LeftOnce(u, v, t.Primitive(u), Factors(t, u), b, t.Primitive(b), Factors(t, b));
    ProductOnce(t, u, v);
    ProductOnce(t, b, -v);
  }

  lemma {:induction false} UndoneInner(t: Tree, u: int, v: int)
    requires Tidy(t) && t.Has(u) && t.Has(v) && CancelOnce(t, u, v).Again? && Undoable(t, u, v)
    ensures var (k, r) := Product(t, u, v); r.Valid() && r.Has(k) && r.Has(-v) && Product(r, k, -v) == (u, r)
  {
    var Again(a, b) := CancelOnce(t, u, v);
    InnerApart(t, u, v);
    TidyFactors(t, u);
    TidyFactors(t, v);
    ProductOnce(t, u, v);
    ProductStuck(t, a, b);
    JoinedTidy(t, a, b);
    var (k, r) := Joined(t, a, b);
    FactorsContinue(t, r, u);
    FactorsContinue(t, r, v);
    InnerBack(r, k, u, v, a, b, Factors(t, u).1);
  }

  /** The inner factors b and -b cancel, and what is left over is u. */
  lemma {:induction false} InnerBack(r: Tree, k: int, u: int, v: int, a: int, b: int, w: int)
    requires Tidy(r) && r.Has(k) && r.Has(u) && r.Has(v) && k != 0 && u != 0 && v != 0
    requires !r.Primitive(k) && !r.Primitive(u) && !r.Primitive(v)
    requires Factors(r, k) == (a, b) && Factors(r, u) == (a, w) && Factors(r, v) == (-w, b)
    ensures Product(r, k, -v) == (u, r)
  {
    TidyFactors(r, k);
    TidyFactors(r, u);
    TidyFactors(r, v);
    FactorsInverse(r, v);
    assert CancelOnce(r, k, -v) == Again(a, w);
    ProductOnce(r, k, -v);
    ProductStuck(r, a, w);
    JoinedFactors(r, u);
  }

  lemma {:induction false} NotUndoneWhen(t: Tree, u: int, v: int)
    requires Tidy(t) && t.Has(u) && t.Has(v) && !Undoable(t, u, v)
    ensures var (k, r) := Product(t, u, v); r.Valid() && r.Has(k) && r.Has(-v) && Product(r, k, -v).0 != u
  {
    var Again(a, b) := CancelOnce(t, u, v);
    InnerApart(t, u, v);
    DeepProduct(t, a, b);
    ProductOnce(t, u, v);
    ProductTidy(t, u, v);
    var (k, r) := Product(t, u, v);
    FactorsContinue(t, r, u);
    FactorsContinue(t, r, v);
    NotBack(r, k, u, v, a, b, Factors(t, u).1);
    NoWayBack(r, k, u, v, a, Factors(t, u).1);
  }

  lemma {:induction false} NotBackOnce(k: int, pk: bool, ks: (int, int), u: int, v: int, a: int, b: int, w: int)
    requires Shape(k, pk, ks) && u != 0 && v != 0 && Shape(u, false, (a, w)) && Shape(v, false, (-w, b))
    requires k != 0 && (Abs(k) < Abs(a) || Abs(k) < Abs(b) || (!pk && Abs(ks.1) < Abs(b)))
    ensures NoWay(k, u, v, a, w, Once(k, -v, pk, ks, false, (-b, w)))
  {
  }

  /** The outcome does not lead to u, whose factors are a and w. */
  ghost predicate NoWay(k: int, u: int, v: int, a: int, w: int, o: Outcome)
  {
    match o
    case Again(x, y) => y == w && Abs(x) < Abs(a)
    case Done(x, y) => if y == 0 then x != u else x == k && y == -v && y != w
  }

  /** From such an index there is no way back. */
  lemma {:induction false} NotBack(r: Tree, k: int, u: int, v: int, a: int, b: int, w: int)
    requires Tidy(r) && r.Has(k) && r.Has(u) && r.Has(v) && u != 0 && v != 0 && !r.Primitive(u) && !r.Primitive(v)
    requires Factors(r, u) == (a, w) && Factors(r, v) == (-w, b) && Deep(r, k, Abs(a), Abs(b))
    ensures NoWay(k, u, v, a, w, CancelOnce(r, k, -v))
  {
    TidyShape(r, u);
    TidyShape(r, v);
    TidyShape(r, k);
    FactorsInverse(r, v);
    NotBackOnce(k, r.Primitive(k), Factors(r, k), u, v, a, b, w);
  }

  lemma {:induction false} NoWayBack(r: Tree, k: int, u: int, v: int, a: int, w: int)
    requires Tidy(r) && r.Has(k) && r.Has(u) && r.Has(v) && u != 0 && !r.Primitive(u) && Factors(r, u) == (a, w)
    requires NoWay(k, u, v, a, w, CancelOnce(r, k, -v))
    ensures Product(r, k, -v).0 != u
  {
    ProductOnce(r, k, -v);
    var o := CancelOnce(r, k, -v);
    if o.Done? && o.b != 0 {
      OnceStuck(r, k, -v);
    }
    NoWayFinish(r, k, u, v, a, w, o);
  }

  lemma {:induction false} NoWayFinish(r: Tree, k: int, u: int, v: int, a: int, w: int, o: Outcome)
    requires Tidy(r) && r.Has(u) && u != 0 && !r.Primitive(u) && Factors(r, u) == (a, w)
    requires r.Has(o.a) && r.Has(o.b) && NoWay(k, u, v, a, w, o)
    requires o.Done? && o.b != 0 ==> Uncancelled(r, o.a, o.b)
    ensures Finish(r, o).0 != u
  {
    match o
    case Again(x, y) =>
      TidyShape(r, u);
      NotLarger(r, x, y, u);
    case Done(x, y) =>
      if y != 0 {
        OtherFactors(r, x, y, u);
      }
  }

  lemma {:induction false} OtherFactors(r: Tree, p: int, q: int, u: int)
    requires Tidy(r) && r.Has(p) && r.Has(q) && r.Has(u) && u != 0 && !r.Primitive(u)
    requires Uncancelled(r, p, q) && Factors(r, u) != (p, q)
    ensures Joined(r, p, q).0 != u
  {
    JoinedTidy(r, p, q);
    FactorsContinue(r, Joined(r, p, q).1, u);
  }

  /** The product of smaller indices than the factors of u is not u. */
  lemma {:induction false} NotLarger(r: Tree, p: int, q: int, u: int)
    requires Tidy(r) && r.Has(p) && r.Has(q) && r.Has(u) && u != 0 && !r.Primitive(u)
    requires Abs(p) < Abs(Factors(r, u).0) < Abs(u) && Abs(q) < Abs(u)
    ensures Product(r, p, q).0 != u
  {
    CancelledStuck(r, p, q);
    var (x, y) := Cancelled(r, p, q);
    if y != 0 {
      OtherFactors(r, x, y, u);
    }
  }

  /** Multiplying by v can be undone by multiplying by -v, without extending the tree, in exactly these cases. */
  lemma {:induction false} UndoExact(t: Tree, u: int, v: int)
    requires Tidy(t) && t.Has(u) && t.Has(v)
    ensures var (k, r) := Product(t, u, v);
            r.Valid() && r.Has(k) && r.Has(-v) && (Product(r, k, -v) == (u, r) <==> Undoable(t, u, v))
  {
    if Undoable(t, u, v) {
      UndoneWhen(t, u, v);
    } else {
      NotUndoneWhen(t, u, v);
    }
  }

  /** Four generators, 1 2, (1 2) 3, -2 4 and -3 (-2 4), some of them entered as inverses. */
  const DEEP_TREE := Tree([0, 0, 0, 0, 0, -2, -5, -4, -3], [0, 0, 0, 0, 0, -1, 3, 2, -7])

  lemma {:induction false} DeepTreeTidy()
    ensures Tidy(DEEP_TREE)
  {
    forall k | 1 <= k < 9
      ensures TidyAt(DEEP_TREE, k)
    {
      if k == 5 || k == 7 {
      } else if k == 6 {
        assert Factors(DEEP_TREE, -5) == (1, 2);
      }
    }
  }

  /** An example of the other cases: ((1 2) 3) (-3 (-2 4)) is 1 4; times -(-3 (-2 4)) it is not found to be (1 2) 3. */
  lemma {:induction false} NotUndone()
    ensures Tidy(DEEP_TREE) && DEEP_TREE.Has(6) && DEEP_TREE.Has(8) && !Undoable(DEEP_TREE, 6, 8)
    ensures var (k, r) := Product(DEEP_TREE, 6, 8);
            r.Valid() && r.Has(k) && r.Has(-8) && Product(r, k, -8) != (6, r)
  {
    DeepTreeTidy();
    assert Factors(DEEP_TREE, 6) == (-5, 3) && Factors(DEEP_TREE, 8) == (-3, -7);
    assert Factors(DEEP_TREE, -5) == (1, 2) && Factors(DEEP_TREE, -7) == (-2, 4);
    assert CancelOnce(DEEP_TREE, 6, 8) == Again(-5, -7);
    UndoExact(DEEP_TREE, 6, 8);
  }

  // ----- in place

  datatype Result = Index(gen: int) | BadTree | BadWord

  class TreeTable {
    var left: seq<int>
    var right: seq<int>

    ghost function Model(): Tree
      reads this
    {
      Tree(left, right)
    }

    /** Every entry must refer to smaller indices only. */
    method CheckTree() returns (ok: bool)
      ensures ok <==> Model().Valid()
    {
      if |left| != |right| || |left| == 0 {
        return false;
      }
      var i := 1;
      while i < |left|
        invariant 1 <= i <= |left| && forall k :: 1 <= k < i ==> -k < left[k] < k && -k < right[k] < k
      {
        if left[i] <= -i || left[i] >= i || right[i] <= -i || right[i] >= i {
          return false;
        }
        i := i + 1;
      }
      ok := true;
    }

    /** Freely reduces a word in place, and fills it up with zeros; fails at a letter that is no index. */
    method ReduceWord(word: array<int>) returns (ok: bool, j: nat)
      requires Model().Valid()
      modifies word
      ensures ok <==> Word(Model(), old(word[..]))
      ensures ok ==> j <= word.Length && word[..j] == FreeReduced(old(word[..]))
      ensures ok ==> forall k :: j <= k < word.Length ==> word[k] == 0
    {
      ghost var w := word[..];
      j := 0;
      var i := 0;
      while i < word.Length
        invariant 0 <= j <= i <= word.Length && word[..j] == FreeReduced(w[..i])
        invariant word[i..] == w[i..] && Word(Model(), w[..i])
      {
        var gen := word[i];
        assert gen == w[i] && w[..i + 1][..i] == w[..i];
        if gen >= |left| || gen <= -|left| {
          assert !Model().Has(w[i]);
          return false, j;
        }
        j := AddLetter(word, i, j);
        i := i + 1;
      }
      assert w[..|w|] == w;
      ok := true;
      FillZeros(word, j);
    }

    /** Adds letter i to the reduced word in the first j places. */
    method AddLetter(word: array<int>, i: nat, j: nat) returns (j': nat)
      requires j <= i < word.Length
      modifies word
      ensures j' <= i + 1 && word[..j'] == Appended(old(word[..j]), old(word[i])) && word[i + 1..] == old(word[i + 1..])
    {
      var gen := word[i];
      j' := j;
      if gen != 0 {
        if j > 0 && gen == -word[j - 1] {
          j' := j - 1;
        } else {
          word[j] := gen;
          j' := j + 1;
        }
      }
    }

    method FillZeros(word: array<int>, j: nat)
      requires j <= word.Length
      modifies word
      ensures word[..j] == old(word[..j]) && forall k :: j <= k < word.Length ==> word[k] == 0
    {
      for i := j to word.Length
        invariant word[..j] == old(word[..j]) && forall k :: j <= k < i ==> word[k] == 0
      {
        word[i] := 0;
      }
    }

    /** The first entry from k on that holds the pair. */
    method SearchFrom(t1: int, t2: int, first: nat) returns (k: int)
      requires Model().Valid() && 1 <= first <= |left|
      ensures k == Search(Model(), t1, t2, first)
    {
      k := first;
      while k < |left| && !(left[k] == t1 && right[k] == t2)
        invariant 1 <= k <= |left| && Search(Model(), t1, t2, k) == Search(Model(), t1, t2, first)
      {
        k := k + 1;
      }
    }

    /** Finds the entry for u v or its inverse, or makes it. */
    method FindOrMake(u: int, v: int) returns (gen: int)
      requires Model().Valid() && Model().Has(u) && Model().Has(v)
      modifies this
      ensures gen == Joined(old(Model()), u, v).0 && Model() == Joined(old(Model()), u, v).1
    {
      var uabs, vabs := if u > 0 then u else -u, if v > 0 then v else -v;
      var first := (if uabs > vabs then uabs else vabs) + 1;
      var t1, t2 := -v, -u;
      if u < -v {
        t1, t2 := u, v;
      }
      ghost var t := Model();
      gen := FindFrom(t1, t2, first);
      JoinedIs(t, u, v, t1, t2, first, gen, Model());
      if u > -v {
        gen := -gen;
      }
    }

    /** Finds the pair from an entry on, or adds it. */
    method FindFrom(t1: int, t2: int, first: nat) returns (k: int)
      requires Model().Valid() && 1 <= first <= |left|
      modifies this
      ensures k == Search(old(Model()), t1, t2, first)
      ensures Model() == if k < old(|left|) then old(Model()) else Tree(old(left) + [t1], old(right) + [t2])
    {
      k := SearchFrom(t1, t2, first);
      if k == |left| {
        left, right := left + [t1], right + [t2];
      }
    }

    /** Splits an index into its factors: 0 and 0 if it is a generator. */
    method Split(u: int) returns (u1: int, u2: int)
      requires Model().Valid() && Model().Has(u) && u != 0
      ensures (u1, u2) == Factors(Model(), u)
    {
      u1, u2 := left[if u > 0 then u else -u], 0;
      if u1 != 0 {
        if u > 0 {
          u2 := right[u];
        } else {
          u2 := -u1;
          u1 := -right[-u];
        }
      }
    }

    /** Tries to cancel something between u and v. */
    method TryCancel(u: int, v: int) returns (done: bool, a: int, b: int)
      requires Model().Valid() && Model().Has(u) && Model().Has(v)
      ensures CancelOnce(Model(), u, v) == if done then Done(a, b) else Again(a, b)
    {
      if u == 0 || v == 0 || u + v == 0 {
        return true, u + v, 0;
      }
      var u1, u2 := Split(u);
      if left[if u > 0 then u else -u] != 0 && u2 == -v {
        return true, u1, 0;
      }
      var v1, v2 := Split(v);
      if left[if v > 0 then v else -v] != 0 {
        if v1 == -u {
          return true, v2, 0;
        }
        if u1 != 0 && v1 == -u2 {
          return false, u1, v2;
        }
      }
      return true, u, v;
    }

    /** The index for the product of u and v. */
    method Multiply(u0: int, v0: int) returns (gen: int)
      requires Model().Valid() && Model().Has(u0) && Model().Has(v0)
      modifies this
      ensures (gen, Model()) == Product(old(Model()), u0, v0)
      ensures Tidy(old(Model())) ==> Tidy(Model())
    {
      ghost var t := Model();
      CancelledHas(t, u0, v0);
      if Tidy(t) {
        ProductTidy(t, u0, v0);
      }
      var u, v, done := u0, v0, false;
      while !done
        invariant Model() == t && t.Has(u) && t.Has(v)
        invariant Cancelled(t, u0, v0) == if done then (u, v) else Cancelled(t, u, v)
        decreases if done then 0 else 1 + Abs(u) + Abs(v)
      {
        OnceSmaller(t, u, v);
        done, u, v := TryCancel(u, v);
      }
      if v == 0 {
        gen := u;
      } else {
        gen := FindOrMake(u, v);
      }
    }

    /** The index that stands for a word; the tree is extended where necessary. */
    method TreeEntry(word: array<int>) returns (r: Result)
      modifies this, word
      ensures r.BadTree? <==> !old(Model()).Valid()
      ensures r.BadWord? <==> old(Model()).Valid() && !Word(old(Model()), old(word[..]))
      ensures !r.Index? ==> Model() == old(Model())
      ensures r.Index? ==> Word(old(Model()), FreeReduced(old(word[..])))
      ensures r.Index? ==> (r.gen, Model()) == Collect(old(Model()), FreeReduced(old(word[..])))
      ensures Tidy(old(Model())) ==> Tidy(Model())
    {
      var ok := CheckTree();
      if !ok {
        return BadTree;
      }
      ghost var t := Model();
      ghost var w := FreeReduced(word[..]);
      var leng;
      ok, leng := ReduceWord(word);
      if !ok {
        return BadWord;
      }
      ReducedWord(t, old(word[..]));
      var gen := MultiplyAll(word, leng);
      r := Index(gen);
      if Tidy(t) {
        CollectTidy(t, w);
      }
    }

    /** Multiplies the first leng letters of a word together. */
    method MultiplyAll(word: array<int>, leng: nat) returns (gen: int)
      requires Model().Valid() && leng <= word.Length && Word(Model(), word[..leng])
      modifies this
      ensures (gen, Model()) == Collect(old(Model()), word[..leng])
    {
      if leng == 0 {
        return 0;
      }
      gen := word[0];
      ghost var t, v := Model(), [gen];
      for i := 1 to leng
        invariant v == word[..i] && Collected(t, v, gen, Model())
      {
        ghost var more := v + [word[i]];
        gen := MultiplyOn(gen, word[i], t, v);
        v := more;
      }
    }

    method MultiplyOn(gen: int, g: int, ghost t: Tree, ghost v: seq<int>) returns (gen': int)
      requires v != [] && t.Has(g) && Collected(t, v, gen, Model())
      modifies this
      ensures Collected(t, v + [g], gen', Model())
    {
      CollectMore(t, v, g, gen, Model());
      gen' := Multiply(gen, g);
    }
  }

  ghost predicate Collected(t: Tree, v: seq<int>, k: int, r: Tree)
  {
    t.Valid() && Word(t, v) && r.Valid() && r.Has(k) && Continues(t, r) && Collect(t, v) == (k, r)
  }

  lemma {:induction false} CollectMore(t: Tree, v: seq<int>, g: int, k: int, r: Tree)
    requires Collected(t, v, k, r) && v != [] && t.Has(g)
    ensures r.Has(g) && Collected(t, v + [g], Product(r, k, g).0, Product(r, k, g).1)
  {
    var w := v + [g];
    assert w[..|w| - 1] == v;
    ProductValid(r, k, g);
    ContinuesTrans(t, r, Product(r, k, g).1);
  }

  /** Through the tree, the index stands for the word, in every group. */
  lemma {:induction false} EntryVal<X(!new)>(t: Tree, act: Action<X>, w: seq<int>, x: X)
    requires t.Valid() && Word(t, w) && Inverts(act)
    ensures Word(t, FreeReduced(w)) && var (k, r) := Collect(t, FreeReduced(w));
            Val(r, act, k, x) == WordVal(t, act, w, x)
  {
    ReducedVal(t, act, w, x);
    CollectVal(t, act, FreeReduced(w), x);
  }
}
