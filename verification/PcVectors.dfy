/** Reduced words and exponent vectors: two forms of the same elements. */
module PcVectors {
  import opened PcPresentation
  import opened PcAction
  import opened CollectorWeights
  import opened CollectorProgress
  import opened SingleCollector

  /** Generators ascend, and exponents lie between 1 and the relative order. */
  ghost predicate Reduced(p: Presentation, w: Word, hi: nat)
    requires p.WellFormed() && hi <= p.n
    decreases |w|
  {
    w != [] ==>
      var s := w[|w| - 1];
      1 <= s.gen <= hi && 1 <= s.exp < p.ro[s.gen] && Reduced(p, w[..|w| - 1], s.gen - 1)
  }

  /** The exponent as it is read back from the bits in which it is stored. */
  function Stored(p: Presentation, e: int): int
    requires p.half > 0
  {
    var m := e % (2 * p.half);
    if m < p.half then m else m - 2 * p.half
  }

  lemma {:induction false} StoredSame(p: Presentation, e: nat)
    requires e < p.half
    ensures Stored(p, e) == e
  {
    Exact(e, 0, e, 2 * p.half);
  }

  /** Writes the exponents of a word into a vector. */
  function Unpack(v: seq<int>, w: Word): (r: seq<int>)
    requires forall k :: 0 <= k < |w| ==> w[k].gen < |v|
    ensures |r| == |v|
  {
    if w == [] then v else Unpack(v, w[..|w| - 1])[w[|w| - 1].gen := w[|w| - 1].exp]
  }

  /** The word of the nonzero entries up to k. */
  function Pack(p: Presentation, v: seq<int>, k: nat): Word
    requires k < |v| && p.half > 0
  {
    if k == 0 then []
    else if v[k] == 0 then Pack(p, v, k - 1)
    else Pack(p, v, k - 1) + [Syllable(k, Stored(p, v[k]))]
  }

  function Zeros(n: nat): (v: seq<int>)
    ensures |v| == n + 1 && forall i :: 0 <= i <= n ==> v[i] == 0
  {
    seq(n + 1, _ => 0)
  }

  lemma {:induction false} ReducedOver(p: Presentation, w: Word, hi: nat)
    requires p.WellFormed() && hi <= p.n && Reduced(p, w, hi)
    ensures p.Over(w, 0) && forall k {:trigger w[k].gen} :: 0 <= k < |w| ==> w[k].gen <= hi
    decreases |w|
  {
    if w != [] {
      ReducedOver(p, w[..|w| - 1], w[|w| - 1].gen - 1);
    }
  }

  lemma {:induction false} ReducedWider(p: Presentation, w: Word, lo: nat, hi: nat)
    requires p.WellFormed() && lo <= hi <= p.n && Reduced(p, w, lo)
    ensures Reduced(p, w, hi)
  {
  }

  /** Unpacking a reduced word gives a normal vector, zero above hi. */
  lemma {:induction false} UnpackNormal(p: Presentation, w: Word, hi: nat)
    requires p.WellFormed() && hi <= p.n && Reduced(p, w, hi)
    ensures forall k :: 0 <= k < |w| ==> w[k].gen <= p.n
    ensures Normal(p, Unpack(Zeros(p.n), w)) && Trailing(Unpack(Zeros(p.n), w), hi)
    decreases |w|
  {
    ReducedOver(p, w, hi);
    if w != [] {
      UnpackNormal(p, w[..|w| - 1], w[|w| - 1].gen - 1);
    }
  }

  lemma {:induction false} WordLast<X(!new)>(act: Action<X>, w: Word, x: X)
    requires w != []
    ensures var s := w[|w| - 1]; WordAct(act, w, x) == Pw(act, s.gen, s.exp, WordAct(act, w[..|w| - 1], x))
  {
    var s := w[|w| - 1];
    assert w == w[..|w| - 1] + [s];
    WordAppend(act, w[..|w| - 1], [s], x);
    var y := WordAct(act, w[..|w| - 1], x);
    assert WordAct(act, [s], y) == WordAct(act, [s][1..], Pw(act, s.gen, s.exp, y));
  }

  /** The vector of a reduced word acts as the word does. */
  lemma {:induction false} UnpackAct<X(!new)>(p: Presentation, act: Action<X>, w: Word, hi: nat, x: X)
    requires p.WellFormed() && hi <= p.n && Reduced(p, w, hi)
    ensures forall k :: 0 <= k < |w| ==> w[k].gen <= p.n
    ensures VecAct(act, Unpack(Zeros(p.n), w), 0, p.n, x) == WordAct(act, w, x)
    decreases |w|
  {
    UnpackNormal(p, w, hi);
    if w == [] {
      VecZero(act, Zeros(p.n), 0, p.n, x);
    } else {
      var s, u := w[|w| - 1], w[..|w| - 1];
      var v, v' := Unpack(Zeros(p.n), u), Unpack(Zeros(p.n), w);
      UnpackNormal(p, u, s.gen - 1);
      UnpackAct(p, act, u, s.gen - 1, x);
      WordLast(act, w, x);
      EntrySet(p, act, v, s.gen, s.exp, x);
    }
  }

  /** Setting an entry above which all is zero multiplies by a power. */
  lemma {:induction false} EntrySet<X(!new)>(p: Presentation, act: Action<X>, v: seq<int>, g: nat, e: int, x: X)
    requires |v| == p.n + 1 && 1 <= g <= p.n && Trailing(v, g - 1)
    ensures VecAct(act, v[g := e], 0, p.n, x) == Pw(act, g, e, VecAct(act, v, 0, p.n, x))
  {
    var v' := v[g := e];
    VecSplit(act, v', 0, g, p.n, x);
    VecZero(act, v', g, p.n, VecAct(act, v', 0, g, x));
    VecSame(act, v, v', 0, g - 1, x);
    VecSplit(act, v, 0, g - 1, p.n, x);
    VecZero(act, v, g - 1, p.n, VecAct(act, v, 0, g - 1, x));
  }

  /** Packing a normal vector gives a reduced word. */
  lemma {:induction false} PackReduced(p: Presentation, v: seq<int>, k: nat)
    requires p.WellFormed() && Normal(p, v) && k <= p.n
    ensures Reduced(p, Pack(p, v, k), k)
  {
    if k > 0 {
      PackReduced(p, v, k - 1);
      StoredSame(p, v[k]);
      ReducedWider(p, Pack(p, v, k - 1), k - 1, k);
      if v[k] != 0 {
        assert Pack(p, v, k)[..|Pack(p, v, k)| - 1] == Pack(p, v, k - 1);
      }
    }
  }

  lemma {:induction false} PackAct<X(!new)>(p: Presentation, act: Action<X>, v: seq<int>, k: nat, x: X)
    requires p.WellFormed() && Normal(p, v) && k <= p.n
    ensures WordAct(act, Pack(p, v, k), x) == VecAct(act, v, 0, k, x)
  {
    if k > 0 {
      PackAct(p, act, v, k - 1, x);
      StoredSame(p, v[k]);
      if v[k] != 0 {
        var w := Pack(p, v, k);
        WordLast(act, w, x);
        assert w[..|w| - 1] == Pack(p, v, k - 1);
      }
    }
  }

  /** A vector is read back from its word. */
  lemma {:induction false} UnpackPack(p: Presentation, v: seq<int>, k: nat)
    requires p.WellFormed() && Normal(p, v) && k <= p.n
    ensures var w := Pack(p, v, k);
            && (forall j :: 0 <= j < |w| ==> w[j].gen <= p.n)
            && Unpack(Zeros(p.n), w) == seq(p.n + 1, i requires 0 <= i <= p.n => if i <= k then v[i] else 0)
  {
    PackReduced(p, v, k);
    ReducedOver(p, Pack(p, v, k), k);
    if k > 0 {
      UnpackPack(p, v, k - 1);
      StoredSame(p, v[k]);
      if v[k] != 0 {
        var w := Pack(p, v, k);
        assert w[..|w| - 1] == Pack(p, v, k - 1);
      }
    }
  }

  /** A reduced word is read back from its vector. */
  lemma {:induction false} PackUnpack(p: Presentation, w: Word, k: nat)
    requires p.WellFormed() && k <= p.n && Reduced(p, w, k)
    ensures forall j :: 0 <= j < |w| ==> w[j].gen <= p.n
    ensures Pack(p, Unpack(Zeros(p.n), w), k) == w
    decreases k
  {
    UnpackNormal(p, w, k);
    if w == [] {
      PackZeros(p, k);
    } else if w[|w| - 1].gen == k {
      var s, u := w[|w| - 1], w[..|w| - 1];
      PackUnpack(p, u, k - 1);
      StoredSame(p, s.exp);
      PackSame(p, Unpack(Zeros(p.n), u), Unpack(Zeros(p.n), w), k - 1);
    } else {
      UnpackNormal(p, w, k - 1);
      PackUnpack(p, w, k - 1);
    }
  }

  lemma {:induction false} PackZeros(p: Presentation, k: nat)
    requires p.WellFormed() && k <= p.n
    ensures Pack(p, Zeros(p.n), k) == []
  {
    if k > 0 {
      PackZeros(p, k - 1);
    }
  }

  lemma {:induction false} PackSame(p: Presentation, v: seq<int>, v': seq<int>, k: nat)
    requires p.half > 0 && k < |v| == |v'| && forall i :: 1 <= i <= k ==> v[i] == v'[i]
    ensures Pack(p, v, k) == Pack(p, v', k)
  {
    if k > 0 {
      PackSame(p, v, v', k - 1);
    }
  }

  // ----- in place

  /**
    Writes the exponents of a word into a vector, overwriting what is there. Fails at a
    generator that does not exist.
   */
  method VectorWord(p: Presentation, v: array<int>, w: Word) returns (ok: bool)
    requires v.Length == p.n + 1 && forall k :: 0 <= k < |w| ==> w[k].gen >= 1
    modifies v
    ensures ok <==> forall k :: 0 <= k < |w| ==> w[k].gen <= p.n
    ensures ok ==> v[..] == Unpack(old(v[..]), w)
  {
    ghost var v0 := v[..];
    for i := 0 to |w|
      invariant forall k :: 0 <= k < i ==> w[k].gen <= p.n
      invariant v[..] == Unpack(v0, w[..i])
    {
      if w[i].gen > p.n {
        return false;
      }
      v[w[i].gen] := w[i].exp;
      assert w[..i + 1][..i] == w[..i];
    }
    assert w[..|w|] == w;
    ok := true;
  }

  /** Reads off the word of the first num entries, and clears them. */
  method WordVectorAndClear(p: Presentation, v: array<int>, num: nat) returns (w: Word)
    requires v.Length == p.n + 1 && num <= p.n && p.half > 0
    modifies v
    ensures w == Pack(p, old(v[..]), num)
    ensures forall i :: 0 <= i <= p.n ==> v[i] == if 1 <= i <= num then 0 else old(v[i])
  {
    ghost var v0 := v[..];
    w := [];
    var i := 1;
    while i <= num
      invariant 1 <= i <= num + 1 && w == Pack(p, v0, i - 1)
      invariant forall j :: 0 <= j <= p.n ==> v[j] == if 1 <= j < i then 0 else v0[j]
    {
      if v[i] != 0 {
        w := w + [Syllable(i, Stored(p, v[i]))];
        v[i] := 0;
      }
      i := i + 1;
    }
  }

  /** Sets all entries to zero. */
  method Clear(p: Presentation, v: array<int>)
    requires v.Length == p.n + 1
    modifies v
    ensures v[..] == Zeros(p.n)
  {
    for i := 0 to v.Length
      invariant forall j :: 0 <= j < i ==> v[j] == 0
    {
      v[i] := 0;
    }
  }
}
