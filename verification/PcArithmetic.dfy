/**
  Arithmetic with reduced words: products, quotients, commutators and powers, computed
  by collecting into two vectors that are left clean.  A collection that fails is tried again with
  more room, which changes nothing about the result - except for the right quotient.
 */
module PcArithmetic {
  import opened PcPresentation
  import opened CollectorProgress
  import opened CollectorRun
  import opened SingleCollector
  import opened PcVectors
  import opened PcWords

  // ---  /** The exponent as the kernel computes it. */
  lemma {:induction false} FoundIs(p: Presentation, k: nat, r: seq<int>, x: seq<int>)
    requires p.WellFormed() && Normal(p, r) && Normal(p, x) && 1 <= k <= p.n
    ensures Found(p, k, r, x) == Difference(x[k], r[k], p.ro[k]) && Stored(p, Found(p, k, r, x)) == Found(p, k, r, x)
  {
    DifferenceIs(x[k], r[k], p.ro[k]);
    StoredSame(p, Found(p, k, r, x));
  }

  /** Finds entry k of the solution and clears entry k of ww. */
  method SolveOne(col: Collector, p: Presentation, ww: array<int>, uu: array<int>, k: nat)
      returns (ok: bool, ghost q0: nat)
    requires p.WellFormed() && col.max >= 1 && 1 <= k <= p.n && ww.Length == uu.Length == p.n + 1 && ww != uu
    requires Normal(p, ww[..]) && Normal(p, uu[..])
    modifies col, ww, uu
    ensures q0 == Found(p, k, old(ww[..]), old(uu[..])) && Collectable(p, old(ww[..]), EntryWord(k, q0))
    ensures ok <==> !old(col.Sizes()).Fails(DepthFor(p, old(ww[..]), EntryWord(k, q0)))
    ensures col.Sizes() == if ok then old(col.Sizes()) else old(col.Sizes()).Grown()
    ensures ok ==> ww[..] == Rest(p, k, old(ww[..]), q0) && uu[..] == old(uu[..])[k := q0]
  {
    ghost var r, x := ww[..], uu[..];
    q0 := Found(p, k, r, x);
    FoundIs(p, k, r, x);
    EntryCollectable(p, r, k, q0);
    var q := CRemainder(uu[k] - ww[k], p.ro[k]);
    if q < 0 {
      q := q + p.ro[k];
    }
    uu[k] := q;
    ok := true;
    if q != 0 {
      var start := col.CollectWord(p, ww, [Syllable(k, Stored(p, q))]);
      ok := start != -1;
    }
    if ok {
      ww[k] := 0;
    }
  }

  /** The equation that is left has the same solution and needs the same depth, as far as the size is concerned. */
  ghost predicate SameTask(p: Presentation, s: Size, a: seq<int>, b: seq<int>, k: nat, r: seq<int>, x: seq<int>)
    requires p.WellFormed() && Normal(p, a) && Normal(p, b) && 1 <= k <= p.n + 1
  {
    && Normal(p, r) && Normal(p, x) && (forall i :: 0 <= i < k ==> r[i] == 0)
    && Solve(p, k, r, x) == Solve(p, 1, a, b)
    && (s.Fails(SolveDepth(p, k, r, x)) <==> s.Fails(SolveDepth(p, 1, a, b)))
  }

  lemma {:induction false} FailsLarger(s: Size, d: nat, e: nat)
    ensures s.Fails(Larger(d, e)) <==> s.Fails(d) || s.Fails(e)
  {
  }

  lemma {:induction false} SameTaskOn(p: Presentation, s: Size, a: seq<int>, b: seq<int>, k: nat, r: seq<int>,
                                      x: seq<int>, q: nat, d: nat, r': seq<int>, x': seq<int>)
    requires p.WellFormed() && Normal(p, a) && Normal(p, b) && 1 <= k <= p.n && SameTask(p, s, a, b, k, r, x)
    requires q == Found(p, k, r, x) && Collectable(p, r, EntryWord(k, q)) && d == DepthFor(p, r, EntryWord(k, q))
    requires r' == Rest(p, k, r, q) && x' == x[k := q]
    ensures if s.Fails(d) then s.Fails(SolveDepth(p, 1, a, b)) else SameTask(p, s, a, b, k + 1, r', x')
  {
    EntryLead(p, k, r, x);
    FailsLarger(s, d, SolveDepth(p, k + 1, r', x'));
  }

  /** Solves ww times x = uu for x, which is left in uu; clears ww. */
  method Solution(col: Collector, p: Presentation, ww: array<int>, uu: array<int>) returns (ok: bool)
    requires p.WellFormed() && col.max >= 1
    requires ww.Length == uu.Length == p.n + 1 && ww != uu && Normal(p, ww[..]) && Normal(p, uu[..])
    modifies col, ww, uu
    ensures ok <==> !old(col.Sizes()).Fails(SolveDepth(p, 1, old(ww[..]), old(uu[..])))
    ensures col.Sizes() == if ok then old(col.Sizes()) else old(col.Sizes()).Grown()
    ensures ok ==> ww[..] == Zeros(p.n) && uu[..] == Solve(p, 1, old(ww[..]), old(uu[..]))
  {
    ghost var a, b, s := ww[..], uu[..], col.Sizes();
    var k := 1;
    while k <= p.n
      invariant 1 <= k <= p.n + 1 && col.Sizes() == s && SameTask(p, s, a, b, k, ww[..], uu[..])
    {
      ghost var r, x := ww[..], uu[..];
      ghost var q;
      ok, q := SolveOne(col, p, ww, uu, k);
      SameTaskOn(p, s, a, b, k, r, x, q, DepthFor(p, r, EntryWord(k, q)), Rest(p, k, r, q), x[k := q]);
      if !ok {
        return;
      }
      k := k + 1;
    }
    ok := true;
    assert ww[..] == Zeros(p.n);
  }

  // ----- the operations

  /** Reading off fewer entries makes no difference if the others are zero. */
  lemma {:induction false} PackTrailing(p: Presentation, v: seq<int>, k: nat, m: nat)
    requires p.WellFormed() && Normal(p, v) && k <= m <= p.n && Trailing(v, k)
    ensures Pack(p, v, k) == Entries(v, m)
  {
    if k == m {
      EntriesPack(p, v, k);
    } else {
      PackTrailing(p, v, k, m - 1);
    }
  }

  class Workspace {
    const p: Presentation
    const col: Collector
    const cw: array<int>
    const cw2: array<int>

    constructor (p: Presentation)
      requires p.WellFormed()
      ensures this.p == p && fresh(col) && fresh(cw) && fresh(cw2) && Valid() && col.Sizes() == Size(256, 258)
    {
      this.p := p;
      col := new Collector();
      cw := new int[p.n + 1](_ => 0);
      cw2 := new int[p.n + 1](_ => 0);
    }

    /** Both vectors are clean between operations. */
    ghost predicate Valid()
      reads col, cw, cw2
    {
      && p.WellFormed() && col.max >= 1 && cw != cw2 && cw.Length == cw2.Length == p.n + 1
      && cw[..] == Zeros(p.n) && cw2[..] == Zeros(p.n)
    }

    /** Unpacks a reduced word into a clean vector. */
    method Unpacked(v: array<int>, w: Word)
      requires IsReduced(p, w) && v.Length == p.n + 1 && v[..] == Zeros(p.n)
      modifies v
      ensures v[..] == Exponents(p, w)
    {
      IsOver(p, w);
      var ok := VectorWord(p, v, w);
    }

    /** Turns a vector into a word, and clears it. */
    method Packed(v: array<int>, num: nat) returns (w: Word)
      requires p.WellFormed() && v.Length == p.n + 1 && Normal(p, v[..]) && num <= p.n && Trailing(v[..], num)
      modifies v
      ensures v[..] == Zeros(p.n) && w == ToWord(p, old(v[..]))
    {
      PackTrailing(p, v[..], num, p.n);
      ghost var u := v[..];
      w := WordVectorAndClear(p, v, num);
      assert forall i :: num < i <= p.n ==> u[i] == 0;
    }

    /** The reduced form of a word. */
    method ReducedForm(w: Word) returns (r: Word)
      requires Valid() && p.Over(w, 0)
      modifies col, cw
      ensures Valid() && r == FormWord(p, w)
    {
      ghost var v, d := Zeros(p.n), DepthFor(p, Zeros(p.n), w);
      var num := col.CollectWord(p, cw, w);
      while num == -1
        invariant p.WellFormed() && col.max >= 1 && cw2[..] == Zeros(p.n) && -1 <= num <= p.n
        invariant num != -1 ==> Trailing(cw[..], num) && cw[..] == Collect(p, v, w)
        decreases if num == -1 then 1 + col.Sizes().Tries(d) else 0
      {
        Clear(p, cw);
        ghost var s := col.Sizes();
        num := col.CollectWord(p, cw, w);
        if num == -1 {
          GrownTries(s, d, d);
        }
      }
      r := Packed(cw, num);
    }

    method ReducedProduct(w: Word, u: Word) returns (r: Word)
      requires Valid() && IsReduced(p, w) && p.Over(u, 0)
      modifies col, cw
      ensures Valid() && r == ProductWord(p, w, u)
      decreases col.Sizes().Tries(ProductDepth(p, w, u))
    {
      Unpacked(cw, w);
      ghost var s, d := col.Sizes(), ProductDepth(p, w, u);
      var num := col.CollectWord(p, cw, u);
      if num == -1 {
        Clear(p, cw);
        GrownTries(s, d, d);
        r := ReducedProduct(w, u);
        return;
      }
      r := Packed(cw, p.n);
    }

    method ClearBoth()
      requires cw.Length == cw2.Length == p.n + 1
      modifies cw, cw2
      ensures cw[..] == Zeros(p.n) && cw2[..] == Zeros(p.n)
    {
      Clear(p, cw);
      Clear(p, cw2);
    }

    /** Solves w times r = u. */
    method ReducedLeftQuotient(w: Word, u: Word) returns (r: Word)
      requires Valid() && IsReduced(p, w) && IsReduced(p, u)
      modifies col, cw, cw2
      ensures Valid() && r == LeftQuotientWord(p, w, u)
      decreases col.Sizes().Tries(Ample(p))
    {
      Unpacked(cw, w);
      Unpacked(cw2, u);
      var ok := Solved();
      if !ok {
        r := ReducedLeftQuotient(w, u);
        return;
      }
      r := Packed(cw2, p.n);
    }

    /** Solves cw times x = cw2 for x; clears everything if the stack was too small. */
    method Solved() returns (ok: bool)
      requires p.WellFormed() && col.max >= 1 && cw != cw2 && cw.Length == cw2.Length == p.n + 1
      requires Normal(p, cw[..]) && Normal(p, cw2[..])
      modifies col, cw, cw2
      ensures ok <==> !old(col.Sizes()).Fails(SolveDepth(p, 1, old(cw[..]), old(cw2[..])))
      ensures cw[..] == Zeros(p.n) && cw2[..] == if ok then Solve(p, 1, old(cw[..]), old(cw2[..])) else Zeros(p.n)
      ensures col.Sizes() == if ok then old(col.Sizes()) else old(col.Sizes()).Grown()
      ensures !ok ==> col.Sizes().Tries(Ample(p)) < old(col.Sizes()).Tries(Ample(p))
    {
      ghost var a, b, s := cw[..], cw2[..], col.Sizes();
      SolveDepthAmple(p, 1, a, b);
      ok := Solution(col, p, cw, cw2);
      if !ok {
        ClearBoth();
        GrownTries(s, SolveDepth(p, 1, a, b), Ample(p));
      }
    }

    /** Unpacks w into a clean vector and collects u into it; clears it if the stack was too small. */
    method ProductInto(v: array<int>, w: Word, u: Word) returns (ok: bool)
      requires col.max >= 1 && v.Length == p.n + 1 && v[..] == Zeros(p.n) && IsReduced(p, w) && IsReduced(p, u)
      modifies col, v
      ensures p.Over(u, 0) && (ok <==> !old(col.Sizes()).Fails(ProductDepth(p, w, u)))
      ensures v[..] == if ok then Multiplied(p, w, u) else Zeros(p.n)
      ensures col.Sizes() == if ok then old(col.Sizes()) else old(col.Sizes()).Grown()
      ensures !ok ==> col.Sizes().Tries(Ample(p)) < old(col.Sizes()).Tries(Ample(p))
    {
      Unpacked(v, w);
      IsOver(p, u);
      ghost var s := col.Sizes();
      DepthBound(p, Exponents(p, w), u);
      AmpleFor(p, u);
      var num := col.CollectWord(p, v, u);
      ok := num != -1;
      if !ok {
        Clear(p, v);
        GrownTries(s, ProductDepth(p, w, u), Ample(p));
      }
    }

    /** The commutator: u times w times r = w times u. */
    method ReducedComm(w: Word, u: Word) returns (r: Word)
      requires Valid() && IsReduced(p, w) && IsReduced(p, u)
      modifies col, cw, cw2
      ensures Valid() && r == CommWord(p, w, u)
      decreases col.Sizes().Tries(Ample(p))
    {
      var ok := ProductInto(cw, u, w);
      if !ok {
        r := ReducedComm(w, u);
        return;
      }
      ok := ProductInto(cw2, w, u);
      if !ok {
        Clear(p, cw);
        r := ReducedComm(w, u);
        return;
      }
      ok := Solved();
      if !ok {
        r := ReducedComm(w, u);
        return;
      }
      r := Packed(cw2, p.n);
    }

    /** Powers with a positive exponent. */
    method PositivePower(w: Word, pow: nat) returns (r: Word)
      requires Valid() && IsReduced(p, w) && pow >= 1
      modifies col, cw
      ensures Valid() && PositiveIs(p, w, pow, r)
      decreases pow, 1
    {
      if pow == 1 {
        r := w;
      } else if pow < 6 {
        r := SmallPower(w, pow);
      } else {
        r := LargePower(w, pow);
      }
    }

    method LargePower(w: Word, pow: nat) returns (r: Word)
      requires Valid() && IsReduced(p, w) && pow >= 6
      modifies col, cw
      ensures Valid() && PositiveIs(p, w, pow, r)
      decreases pow, 0
    {
      if pow % 2 != 0 {
        r := EvenPower(w, (pow - 1) / 2, pow - 1);
        r := OneMore(w, pow - 1, pow, r);
      } else {
        r := EvenPower(w, pow / 2, pow);
      }
    }

    /** The square of the power with half the exponent. */
    method EvenPower(w: Word, half: nat, ghost pow: nat) returns (r: Word)
      requires Valid() && IsReduced(p, w) && half >= 3 && pow == 2 * half
      modifies col, cw
      ensures Valid() && PositiveIs(p, w, pow, r)
      decreases half, 2
    {
      r := PositivePower(w, half);
      r := Squared(w, half, pow, r);
    }

    method Squared(ghost w: Word, ghost k: nat, ghost n: nat, u: Word) returns (r: Word)
      requires Valid() && k >= 3 && PositiveIs(p, w, k, u) && n == 2 * k
      modifies col, cw
      ensures Valid() && PositiveIs(p, w, n, r)
    {
      PositiveReduced(p, w, k, u);
      r := Multiply(u, u);
      PositiveEven(p, w, k, u, r);
    }

    method OneMore(w: Word, ghost k: nat, ghost n: nat, u: Word) returns (r: Word)
      requires Valid() && k >= 6 && k % 2 == 0 && PositiveIs(p, w, k, u) && n == k + 1
      modifies col, cw
      ensures Valid() && PositiveIs(p, w, n, r)
    {
      PositiveReduced(p, w, k, u);
      r := Multiply(w, u);
      PositiveOdd(p, w, k, u, r);
    }

    method Multiply(w: Word, u: Word) returns (r: Word)
      requires Valid() && IsReduced(p, w) && IsReduced(p, u)
      modifies col, cw
      ensures Valid() && ProductIs(p, w, u, r)
    {
      IsOver(p, u);
      r := ReducedProduct(w, u);
    }

    method SmallPower(w: Word, pow: nat) returns (r: Word)
      requires Valid() && IsReduced(p, w) && 2 <= pow < 6
      modifies col, cw
      ensures Valid() && PositiveIs(p, w, pow, r)
      decreases col.Sizes().Tries(Ample(p))
    {
      var ok := Repeat(w, pow);
      if !ok {
        Clear(p, cw);
        r := SmallPower(w, pow);
        return;
      }
      PositiveSmall(p, w, pow, cw[..]);
      r := Packed(cw, p.n);
    }

    /** Multiplies w into the vector again and again. */
    method Repeat(w: Word, pow: nat) returns (ok: bool)
      requires Valid() && IsReduced(p, w) && pow >= 1
      modifies col, cw
      ensures col.max >= 1 && (!ok ==> col.Sizes().Tries(Ample(p)) < old(col.Sizes()).Tries(Ample(p)))
      ensures ok ==> RepeatedIs(p, w, pow - 1, cw[..])
    {
      Unpacked(cw, w);
      IsOver(p, w);
      ghost var s := col.Sizes();
      var i := pow;
      while 1 < i
        invariant 1 <= i <= pow && col.Sizes() == s && RepeatedIs(p, w, pow - i, cw[..])
      {
        ghost var v := cw[..];
        RepeatedOn(p, s, w, pow - i, v);
        var num := col.CollectWord(p, cw, w);
        if num == -1 {
          return false;
        }
        i := i - 1;
      }
      ok := true;
    }

    /** Inverts a word; fails if the stack was too small. */
    method Inverted(w: Word) returns (ok: bool, r: Word)
      requires Valid() && IsReduced(p, w)
      modifies col, cw, cw2
      ensures Valid() && (ok <==> !old(col.Sizes()).Fails(InverseDepth(p, w)))
      ensures col.Sizes() == if ok then old(col.Sizes()) else old(col.Sizes()).Grown()
      ensures !ok ==> col.Sizes().Tries(Ample(p)) < old(col.Sizes()).Tries(Ample(p))
      ensures ok ==> r == InverseWord(p, w)
    {
      Unpacked(cw, w);
      ok := Solved();
      r := [];
      if ok {
        r := Packed(cw2, p.n);
      }
    }

    /** Powers with any exponent. */
    method ReducedPowerSmallInt(w: Word, pow: int) returns (r: Word)
      requires Valid() && IsReduced(p, w)
      modifies col, cw, cw2
      ensures Valid() && r == PowerWord(p, w, pow)
    {
      r := Power(w, pow);
    }

    method Power(w: Word, pow: int) returns (r: Word)
      requires Valid() && IsReduced(p, w)
      modifies col, cw, cw2
      ensures Valid() && PowerIs(p, w, pow, r)
    {
      if pow == 0 {
        r := [];
        PowerZero(p, w);
      } else if pow < 0 {
        r := NegativePower(w, -pow);
        PowerNegative(p, w, -pow, r);
      } else {
        r := PositivePower(w, pow);
        PowerPositive(p, w, pow, r);
      }
    }

    /** Powers with a negative exponent: the word is inverted first. */
    method NegativePower(w: Word, pow: nat) returns (r: Word)
      requires Valid() && IsReduced(p, w) && pow >= 1
      modifies col, cw, cw2
      ensures Valid() && PositiveIs(p, InverseWord(p, w), pow, r)
      decreases col.Sizes().Tries(Ample(p))
    {
      var ok, u := Inverted(w);
      if !ok {
        r := NegativePower(w, pow);
        return;
      }
      r := PositivePower(u, pow);
    }

    /**
      The right quotient. An attempt whose second collection fails has replaced u by its inverse, from which
      the next attempt starts. The result depends on the size of the stack; `QuotientRight` says when it is right.
     */
    method ReducedQuotient(w: Word, u: Word) returns (r: Word)
      requires Valid() && IsReduced(p, w) && IsReduced(p, u)
      modifies col, cw, cw2
      ensures Valid() && r == QuotientWord(p, old(col.Sizes()), w, u)
    {
      r := Divide(w, u);
    }

    method Divide(w: Word, u: Word) returns (r: Word)
      requires Valid() && IsReduced(p, w) && IsReduced(p, u)
      modifies col, cw, cw2
      ensures Valid() && QuotientIs(p, old(col.Sizes()), w, u, r)
      decreases col.Sizes().Tries(Ample(p))
    {
      ghost var s := col.Sizes();
      var ok, u' := Inverted(u);
      if !ok {
        r := Divide(w, u);
        QuotientAgain(p, s, w, u, r);
        return;
      }
      ok := ProductInto(cw, w, u');
      if !ok {
        r := Divide(w, u');
        QuotientInverse(p, s, w, u, u', r);
        return;
      }
      QuotientOnce(p, s, w, u, u');
      r := Packed(cw, p.n);
    }
  }
}
