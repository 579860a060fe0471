/** The avector, computed from the conjugates. */
module Avector {
  import opened PcPresentation
  import opened PcAction

  /** The presentation says that the generators commute. */
  ghost predicate Commutes(p: Presentation, a: nat, b: nat)
    requires |p.cnj| == p.n + 1 && 1 <= a <= p.n && 1 <= b <= p.n
  {
    if a == b then true else if a < b then p.Conjugate(b, a) == [] else p.Conjugate(a, b) == []
  }

  /** Generators from i on commute with the generators above j. */
  ghost predicate Separates(p: Presentation, i: nat, j: nat)
    requires |p.cnj| == p.n + 1 && 1 <= i
  {
    forall a, b :: i <= a <= p.n && i <= b && j < b <= p.n ==> Commutes(p, a, b)
  }

  /** j is the smallest number from i on that separates. */
  ghost predicate Least(p: Presentation, i: nat, j: nat)
    requires |p.cnj| == p.n + 1 && 1 <= i
  {
    i <= j <= p.n && Separates(p, i, j) && (i < j ==> exists a :: i <= a <= p.n && !Commutes(p, a, j))
  }

  /** Least is what it says: nothing smaller separates. */
  lemma {:induction false} LeastIsLeast(p: Presentation, i: nat, j: nat, k: nat)
    requires |p.cnj| == p.n + 1 && 1 <= i <= k && Least(p, i, j) && Separates(p, i, k)
    ensures j <= k
  {
    if i < j {
      var a :| i <= a <= p.n && !Commutes(p, a, j);
    }
  }

  /** The next entry of the avector, for generator g, from the entry `next` of generator g + 1. */
  method NextEntry(p: Presentation, g: nat, next: nat) returns (j: nat)
    requires |p.cnj| == p.n + 1 && 1 <= g < p.n && Least(p, g + 1, next)
    ensures Least(p, g, j)
  {
    var h := p.n;
    var again := true;
    while again && h > next
      invariant next <= h <= p.n
      invariant forall b :: h < b <= p.n ==> p.Conjugate(b, g) == []
      invariant !again ==> next < h && p.Conjugate(h, g) != []
      decreases again, h
    {
      if p.Conjugate(h, g) != [] {
        again := false;
      } else {
        h := h - 1;
      }
    }
    if h == g + 1 && p.Conjugate(h, g) == [] {
      j := g;
    } else {
      j := h;
      assert g < h;
      if h > next || h == g + 1 {
        assert !Commutes(p, g, h);
      } else {
        ghost var a :| g + 1 <= a <= p.n && !Commutes(p, a, h);
      }
    }
    SeparatesBelow(p, g, next, h, j);
  }

  lemma {:induction false} SeparatesBelow(p: Presentation, g: nat, next: nat, h: nat, j: nat)
    requires |p.cnj| == p.n + 1 && 1 <= g < p.n && Separates(p, g + 1, next) && g + 1 <= next <= h <= p.n
    requires forall b :: h < b <= p.n ==> p.Conjugate(b, g) == []
    requires j == h || (h == g + 1 && p.Conjugate(h, g) == [] && j == g)
    ensures Separates(p, g, j)
  {
    forall a, b | g <= a <= p.n && g <= b && j < b <= p.n
      ensures Commutes(p, a, b)
    {
      if a > g && b == g + 1 {
        assert a != b ==> Commutes(p, b, a);
      } else if a > g {
        assert Commutes(p, a, b);
      }
    }
  }

  method MakeAvector(p: Presentation) returns (com: seq<nat>)
    requires |p.cnj| == p.n + 1
    ensures |com| == p.n + 1 && forall i :: 1 <= i <= p.n ==> Least(p, i, com[i])
  {
    com := seq(p.n + 1, _ => p.n);
    var g := p.n - 1;
    while g >= 1
      invariant g <= p.n - 1 && |com| == p.n + 1
      invariant forall i :: g < i <= p.n && 1 <= i ==> Least(p, i, com[i])
    {
      var j := NextEntry(p, g, com[g + 1]);
      com := com[g := j];
      g := g - 1;
    }
  }

  /** With such an avector the generators commute as the collector needs it. */
  lemma {:induction false} AvectorCommutes<X(!new)>(p: Presentation, act: Action<X>, a: nat, b: nat, x: X)
    requires p.WellFormed() && (forall i :: 1 <= i <= p.n ==> Least(p, i, p.avc[i])) && Commuting(p, a, b)
    requires forall i, g, x {:trigger ConjugateAt(p, act, i, g, x)} :: 1 <= g < i <= p.n ==>
             ConjugateAt(p, act, i, g, x)
    ensures CommuteAt(act, a, b, x)
  {
    var i :| 1 <= i <= a && p.avc[i] < b;
    assert Least(p, i, p.avc[i]);
    assert Commutes(p, a, b);
    if a < b {
      assert ConjugateAt(p, act, b, a, x);
      SwapsAt(p, act, b, a, x);
    } else if b < a {
      assert ConjugateAt(p, act, a, b, x);
      SwapsAt(p, act, a, b, x);
    }
  }

  lemma {:induction false} SwapsAt<X(!new)>(p: Presentation, act: Action<X>, i: nat, g: nat, x: X)
    requires i < |p.cnj| && p.Conjugate(i, g) == [] && ConjugateAt(p, act, i, g, x)
    ensures Step(act, g, Step(act, i, x)) == Step(act, i, Step(act, g, x))
  {
    var w, y := [Syllable(i, 1)], Step(act, g, x);
    assert WordAct(act, w, y) == WordAct(act, w[1..], Pw(act, i, 1, y));
    assert Pw(act, i, 1, y) == Pw(act, i, 0, Step(act, i, y));
  }
}

/** What the operations mean in groups. */
module PcGroups {
  import opened PcPresentation
  import opened PcAction
  import opened Avector
  import opened PcWords

  /** A group with chosen elements for the generators. */
  datatype Group<!G(!new)> = Group(op: (G, G) -> G, inv: G -> G, id: G, gen: nat -> G)

  ghost predicate AssociativeAt<G(!new)>(m: Group<G>, a: G, b: G, c: G)
  {
    m.op(m.op(a, b), c) == m.op(a, m.op(b, c))
  }

  ghost predicate InverseLaw<G(!new)>(m: Group<G>, a: G)
  {
    m.op(a, m.id) == a && m.op(m.id, a) == a && m.op(a, m.inv(a)) == m.id && m.op(m.inv(a), a) == m.id
  }

  ghost predicate IsGroup<G(!new)>(m: Group<G>)
  {
    && (forall a, b, c {:trigger AssociativeAt(m, a, b, c)} :: AssociativeAt(m, a, b, c))
    && (forall a {:trigger InverseLaw(m, a)} :: InverseLaw(m, a))
  }

  ghost function Power<G(!new)>(m: Group<G>, a: G, k: nat): G
  {
    if k == 0 then m.id else m.op(Power(m, a, k - 1), a)
  }

  ghost function IntPower<G(!new)>(m: Group<G>, a: G, k: int): G
  {
    if k >= 0 then Power(m, a, k) else m.inv(Power(m, a, -k))
  }

  ghost function Eval<G(!new)>(m: Group<G>, w: Word): G
    decreases |w|
  {
    if w == [] then m.id
    else m.op(Eval(m, w[..|w| - 1]), IntPower(m, m.gen(w[|w| - 1].gen), w[|w| - 1].exp))
  }

  /** The group acts on itself from the right. */
  ghost function Regular<G(!new)>(m: Group<G>): Action<G>
  {
    Action((i, x) => m.op(x, m.gen(i)), (i, x) => m.op(x, m.inv(m.gen(i))))
  }

  /** The group satisfies the relations of the presentation, and the inverses are inverses. */
  ghost predicate Realizes<G(!new)>(p: Presentation, m: Group<G>)
    requires p.WellFormed()
  {
    && (forall i :: 1 <= i <= p.n ==> Power(m, m.gen(i), p.ro[i]) == Eval(m, p.Power(i)))
    && (forall i, g {:trigger p.Image(i, g)} ::
          1 <= g < i <= p.n ==> m.op(m.gen(i), m.gen(g)) == m.op(m.gen(g), Eval(m, p.Image(i, g))))
    && (forall i {:trigger p.inv[i]} :: 1 <= i <= p.n ==> Eval(m, p.inv[i]) == m.inv(m.gen(i)))
  }

  lemma {:induction false} PwRegular<G(!new)>(m: Group<G>, i: nat, k: nat, x: G)
    requires IsGroup(m)
    ensures Pw(Regular(m), i, k, x) == m.op(x, Power(m, m.gen(i), k))
  {
    if k == 0 {
      assert InverseLaw(m, x);
    } else {
      var a := m.gen(i);
      PwRegular(m, i, k - 1, m.op(x, a));
      PowerLeft(m, a, k - 1);
      assert AssociativeAt(m, x, a, Power(m, a, k - 1));
    }
  }

  /** a times a^k is a^k times a. */
  lemma {:induction false} PowerLeft<G(!new)>(m: Group<G>, a: G, k: nat)
    requires IsGroup(m)
    ensures m.op(a, Power(m, a, k)) == Power(m, a, k + 1)
  {
    if k == 0 {
      assert InverseLaw(m, a);
    } else {
      PowerLeft(m, a, k - 1);
      assert AssociativeAt(m, a, Power(m, a, k - 1), a);
    }
  }

  lemma {:induction false} CancelRight<G(!new)>(m: Group<G>, a: G, b: G, c: G)
    requires IsGroup(m) && m.op(a, c) == m.op(b, c)
    ensures a == b
  {
    assert AssociativeAt(m, a, c, m.inv(c)) && AssociativeAt(m, b, c, m.inv(c));
    assert InverseLaw(m, a) && InverseLaw(m, b) && InverseLaw(m, c);
  }

  lemma {:induction false} PwRegularBack<G(!new)>(m: Group<G>, i: nat, k: nat, x: G)
    requires IsGroup(m)
    ensures Pw(Regular(m), i, 0 - k, x) == m.op(x, m.inv(Power(m, m.gen(i), k)))
  {
    var a := m.gen(i);
    if k == 0 {
      assert InverseLaw(m, x) && InverseLaw(m, m.id) && InverseLaw(m, m.inv(m.id));
    } else {
      var b := Power(m, a, k - 1);
      PwRegularBack(m, i, k - 1, m.op(x, m.inv(a)));
      assert AssociativeAt(m, x, m.inv(a), m.inv(b));
      assert m.op(m.inv(a), m.inv(b)) == m.inv(m.op(b, a)) by {
        InverseProduct(m, b, a);
      }
    }
  }

  lemma {:induction false} InverseProduct<G(!new)>(m: Group<G>, b: G, a: G)
    requires IsGroup(m)
    ensures m.op(m.inv(a), m.inv(b)) == m.inv(m.op(b, a))
  {
    var c := m.op(b, a);
    assert AssociativeAt(m, m.inv(a), m.inv(b), c);
    assert AssociativeAt(m, m.inv(b), b, a);
    assert InverseLaw(m, a) && InverseLaw(m, b) && InverseLaw(m, c);
    CancelRight(m, m.op(m.inv(a), m.inv(b)), m.inv(c), c);
  }

  /** In the regular action a word multiplies by what it evaluates to. */
  lemma {:induction false} WordRegular<G(!new)>(m: Group<G>, w: Word, x: G)
    requires IsGroup(m)
    ensures WordAct(Regular(m), w, x) == m.op(x, Eval(m, w))
    decreases |w|
  {
    if w == [] {
      assert InverseLaw(m, x);
    } else {
      var s, u, act := w[|w| - 1], w[..|w| - 1], Regular(m);
      WordRegular(m, u, x);
      assert w == u + [s];
      WordAppend(act, u, [s], x);
      var y := m.op(x, Eval(m, u));
      OneSyllable(act, s.gen, s.exp, y);
      if s.exp >= 0 {
        PwRegular(m, s.gen, s.exp, y);
      } else {
        PwRegularBack(m, s.gen, -s.exp, y);
      }
      assert AssociativeAt(m, x, Eval(m, u), IntPower(m, m.gen(s.gen), s.exp));
    }
  }

  /** A group that realizes the presentation is one of the actions that collection is right for. */
  lemma {:induction false} RegularSatisfies<G(!new)>(p: Presentation, m: Group<G>)
    requires p.WellFormed() && IsGroup(m) && Realizes(p, m)
    requires forall i :: 1 <= i <= p.n ==> Least(p, i, p.avc[i])
    ensures Satisfies(p, Regular(m))
  {
    var act := Regular(m);
    forall i: nat, x
      ensures InvertsAt(act, i, x)
    {
      var a := m.gen(i);
      assert AssociativeAt(m, x, a, m.inv(a)) && AssociativeAt(m, x, m.inv(a), a);
      assert InverseLaw(m, a) && InverseLaw(m, x);
    }
    forall i, x | 1 <= i <= p.n
      ensures PowerAt(p, act, i, x)
    {
      PwRegular(m, i, p.ro[i], x);
      WordRegular(m, p.Power(i), x);
    }
    forall i, g, x | 1 <= g < i <= p.n
      ensures ConjugateAt(p, act, i, g, x)
    {
      var a, b, c := m.gen(i), m.gen(g), Eval(m, p.Image(i, g));
      WordRegular(m, p.Image(i, g), m.op(x, b));
      assert AssociativeAt(m, x, a, b) && AssociativeAt(m, x, b, c);
    }
    forall i, x | 1 <= i <= p.n
      ensures InverseAt(p, act, i, x)
    {
      WordRegular(m, p.inv[i], x);
    }
    forall a, b, x | Commuting(p, a, b)
      ensures CommuteAt(act, a, b, x)
    {
      AvectorCommutes(p, act, a, b, x);
    }
  }

  lemma {:induction false} CancelLeft<G(!new)>(m: Group<G>, a: G, b: G)
    requires IsGroup(m) && m.op(m.id, a) == m.op(m.id, b)
    ensures a == b
  {
    assert InverseLaw(m, a) && InverseLaw(m, b);
  }

  /** Products of words are products in the group. */
  lemma {:induction false} GroupProduct<G(!new)>(m: Group<G>, u: Word, w: Word, r: Word)
    requires IsGroup(m) && Product(Regular(m), u, w, r)
    ensures Eval(m, r) == m.op(Eval(m, u), Eval(m, w))
  {
    var act := Regular(m);
    assert ProductAt(act, u, w, r, m.id);
    WordRegular(m, r, m.id);
    WordRegular(m, u, m.id);
    WordRegular(m, w, WordAct(act, u, m.id));
    assert InverseLaw(m, Eval(m, r)) && InverseLaw(m, Eval(m, u));
  }

  lemma {:induction false} GroupEqual<G(!new)>(m: Group<G>, w: Word, r: Word)
    requires IsGroup(m) && Equal(Regular(m), w, r)
    ensures Eval(m, r) == Eval(m, w)
  {
    var act := Regular(m);
    assert WordAct(act, r, m.id) == WordAct(act, w, m.id);
    WordRegular(m, r, m.id);
    WordRegular(m, w, m.id);
    CancelLeft(m, Eval(m, r), Eval(m, w));
  }

  lemma {:induction false} WordsRegular<G(!new)>(m: Group<G>, w: Word, k: nat, x: G)
    requires IsGroup(m)
    ensures Words(Regular(m), w, k, x) == m.op(x, Power(m, Eval(m, w), k))
  {
    if k == 0 {
      assert InverseLaw(m, x);
    } else {
      var a := Eval(m, w);
      WordRegular(m, w, x);
      WordsRegular(m, w, k - 1, m.op(x, a));
      PowerLeft(m, a, k - 1);
      assert AssociativeAt(m, x, a, Power(m, a, k - 1));
    }
  }

  /** Powers of words are powers in the group, for every integer exponent. */
  lemma {:induction false} GroupPower<G(!new)>(m: Group<G>, w: Word, k: int, r: Word)
    requires IsGroup(m) && PowerOf(Regular(m), w, k, r)
    ensures Eval(m, r) == IntPower(m, Eval(m, w), k)
  {
    var act := Regular(m);
    if k >= 0 {
      assert PowerHere(act, w, k, r, m.id);
      WordRegular(m, r, m.id);
      WordsRegular(m, w, k, m.id);
      CancelLeft(m, Eval(m, r), Power(m, Eval(m, w), k));
    } else {
      var a, b := Power(m, Eval(m, w), -k), Eval(m, r);
      WordsRegular(m, w, -k, m.id);
      assert InverseLaw(m, a) && InverseLaw(m, b);
      assert PowerHere(act, w, k, r, m.id);
      WordRegular(m, r, a);
      assert m.op(a, b) == m.id == m.op(a, m.inv(a));
      CancelFront(m, a, b, m.inv(a));
    }
  }

  lemma {:induction false} CancelFront<G(!new)>(m: Group<G>, a: G, b: G, c: G)
    requires IsGroup(m) && m.op(a, b) == m.op(a, c)
    ensures b == c
  {
    assert AssociativeAt(m, m.inv(a), a, b) && AssociativeAt(m, m.inv(a), a, c);
    assert InverseLaw(m, a) && InverseLaw(m, b) && InverseLaw(m, c);
  }
}
