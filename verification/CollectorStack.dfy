/**
  Configurations of the collector: an exponent vector, and a stack of words that
  still have to be multiplied into it.
 */
module CollectorStack {
  import opened PcPresentation
  import opened PcAction

  /** A word on the stack: current position, unprocessed exponent there, times the word is still due. */
  datatype Frame = Frame(word: Word, pos: nat, ew: int, ge: nat)
  {
    predicate Valid(p: Presentation)
    {
      word != [] && pos < |word| && ge >= 1 && p.Over(word, 0)
    }

    function Gen(): nat
      requires pos < |word|
    {
      word[pos].gen
    }
  }

  function Pushed(w: Word, k: nat): Frame
    requires w != []
  {
    Frame(w, 0, w[0].exp, k)
  }

  ghost function FrameAct<X(!new)>(act: Action<X>, f: Frame, x: X): X
    requires f.pos < |f.word| && f.ge >= 1
  {
    Words(act, f.word, f.ge - 1, WordAct(act, f.word[f.pos + 1..], Pw(act, f.Gen(), f.ew, x)))
  }

  ghost predicate Frames(p: Presentation, s: seq<Frame>)
  {
    s != [] ==> s[|s| - 1].Valid(p) && Frames(p, s[..|s| - 1])
  }

  /** The top of the stack is the last frame; it acts first. */
  ghost function StackAct<X(!new)>(p: Presentation, act: Action<X>, s: seq<Frame>, x: X): X
    requires Frames(p, s)
  {
    if s == [] then x else StackAct(p, act, s[..|s| - 1], FrameAct(act, s[|s| - 1], x))
  }

  lemma {:induction false} PushedAct<X(!new)>(act: Action<X>, w: Word, k: nat, x: X)
    requires w != [] && k >= 1
    ensures FrameAct(act, Pushed(w, k), x) == Words(act, w, k, x)
  {
  }

  lemma {:induction false} StackAppend<X(!new)>(p: Presentation, act: Action<X>, s: seq<Frame>, r: seq<Frame>, x: X)
    requires Frames(p, s) && Frames(p, r)
    ensures Frames(p, s + r) && StackAct(p, act, s + r, x) == StackAct(p, act, s, StackAct(p, act, r, x))
    decreases |r|
  {
    if r == [] {
      assert s + r == s;
    } else {
      var m := |r| - 1;
      StackAppend(p, act, s, r[..m], FrameAct(act, r[m], x));
      assert (s + r)[..|s + r| - 1] == s + r[..m];
    }
  }

  lemma {:induction false} FramesAppend(p: Presentation, s: seq<Frame>, r: seq<Frame>)
    ensures Frames(p, s + r) <==> Frames(p, s) && Frames(p, r)
    decreases |r|
  {
    if r == [] {
      assert s + r == s;
    } else {
      FramesAppend(p, s, r[..|r| - 1]);
      assert (s + r)[..|s + r| - 1] == s + r[..|r| - 1];
    }
  }

  lemma {:induction false} StackOne<X(!new)>(p: Presentation, act: Action<X>, f: Frame, x: X)
    requires f.Valid(p)
    ensures Frames(p, [f]) && StackAct(p, act, [f], x) == FrameAct(act, f, x)
  {
    assert [f][..0] == [];
  }

  // ----- configurations

  datatype Config = Config(v: seq<int>, stack: seq<Frame>)

  ghost predicate Shaped(p: Presentation, c: Config)
  {
    |c.v| == p.n + 1 && Frames(p, c.stack)
  }

  /** The group element that a configuration stands for. */
  ghost function Meaning<X(!new)>(p: Presentation, act: Action<X>, c: Config, x: X): X
    requires Shaped(p, c)
  {
    StackAct(p, act, c.stack, VecAct(act, c.v, 0, p.n, x))
  }

  ghost predicate Same<X(!new)>(p: Presentation, act: Action<X>, c: Config, c': Config)
    requires Shaped(p, c) && Shaped(p, c')
  {
    forall x {:trigger Meaning(p, act, c', x)} :: Meaning(p, act, c', x) == Meaning(p, act, c, x)
  }

  lemma {:induction false} SameTrans<X(!new)>(p: Presentation, act: Action<X>, a: Config, b: Config, c: Config)
    requires Shaped(p, a) && Shaped(p, b) && Shaped(p, c) && Same(p, act, a, b) && Same(p, act, b, c)
    ensures Same(p, act, a, c)
  {
    forall x
      ensures Meaning(p, act, c, x) == Meaning(p, act, a, x)
    {
      assert Meaning(p, act, c, x) == Meaning(p, act, b, x);
    }
  }

  /** Only the top of the stack and the vector change. */
  lemma {:induction false} TopChange<X(!new)>(p: Presentation, act: Action<X>, s: seq<Frame>, a: seq<Frame>,
                                              b: seq<Frame>, v: seq<int>, v': seq<int>)
    requires Shaped(p, Config(v, s + a)) && Shaped(p, Config(v', s + b)) && Frames(p, s) && Frames(p, a) && Frames(p, b)
    requires forall x {:trigger VecAct(act, v, 0, p.n, x)} ::
               StackAct(p, act, a, VecAct(act, v, 0, p.n, x)) == StackAct(p, act, b, VecAct(act, v', 0, p.n, x))
    ensures Same(p, act, Config(v, s + a), Config(v', s + b))
  {
    forall x
      ensures Meaning(p, act, Config(v', s + b), x) == Meaning(p, act, Config(v, s + a), x)
    {
      var y, y' := VecAct(act, v, 0, p.n, x), VecAct(act, v', 0, p.n, x);
      StackAppend(p, act, s, a, y);
      StackAppend(p, act, s, b, y');
    }
  }

  // ----- stacking up part of the vector

  /** What is pushed for the entries hi, hi - 1, ..., lo + 1 when g moves past them. */
  function Pushes(p: Presentation, v: seq<int>, g: nat, lo: nat, hi: nat): seq<Frame>
    requires hi < |v| && |v| == |p.cnj|
    decreases hi
  {
    if hi <= lo then []
    else if v[hi] <= 0 then Pushes(p, v, g, lo, hi - 1)
    else [Pushed(p.Image(hi, g), v[hi])] + Pushes(p, v, g, lo, hi - 1)
  }

  function Cleared(v: seq<int>, lo: nat, hi: nat): (r: seq<int>)
    requires hi < |v|
    ensures |r| == |v| && forall i :: 0 <= i < |v| ==> r[i] == if lo < i <= hi then 0 else v[i]
    decreases hi
  {
    if hi <= lo then v else Cleared(v[hi := 0], lo, hi - 1)
  }

  lemma {:induction false} PushesFrames(p: Presentation, v: seq<int>, g: nat, lo: nat, hi: nat)
    requires p.WellFormed() && |v| == p.n + 1 && 1 <= g <= lo && hi <= p.n
    ensures Frames(p, Pushes(p, v, g, lo, hi))
    decreases hi
  {
    if lo < hi {
      ImageOver(p, hi, g);
      var r := Pushes(p, v, g, lo, hi - 1);
      PushesFrames(p, v, g, lo, hi - 1);
      if v[hi] > 0 {
        var f := Pushed(p.Image(hi, g), v[hi]);
        assert Frames(p, [f]);
        FramesAppend(p, [f], r);
        assert Pushes(p, v, g, lo, hi) == [f] + r;
      }
    }
  }

  lemma {:induction false} PushesSame(p: Presentation, v: seq<int>, v': seq<int>, g: nat, lo: nat, hi: nat)
    requires hi < |v| == |p.cnj| && |v'| == |v| && forall i :: lo < i <= hi ==> v[i] == v'[i]
    ensures Pushes(p, v, g, lo, hi) == Pushes(p, v', g, lo, hi)
    decreases hi
  {
    if lo < hi {
      PushesSame(p, v, v', g, lo, hi - 1);
    }
  }

  lemma {:induction false} PushesSplit(p: Presentation, v: seq<int>, g: nat, lo: nat, mid: nat, hi: nat)
    requires lo <= mid <= hi < |v| == |p.cnj|
    ensures Pushes(p, v, g, lo, hi) == Pushes(p, v, g, mid, hi) + Pushes(p, v, g, lo, mid)
    decreases hi
  {
    if mid < hi {
      PushesSplit(p, v, g, lo, mid, hi - 1);
    }
  }

  lemma {:induction false} PushesNothing(p: Presentation, v: seq<int>, g: nat, lo: nat, hi: nat)
    requires hi < |v| == |p.cnj| && forall i :: lo < i <= hi ==> v[i] == 0
    ensures Pushes(p, v, g, lo, hi) == []
    decreases hi
  {
    if lo < hi {
      PushesNothing(p, v, g, lo, hi - 1);
    }
  }

  lemma {:induction false} PushesStep<X(!new)>(p: Presentation, act: Action<X>, v: seq<int>, g: nat, lo: nat, hi: nat,
                                               x: X)
    requires p.WellFormed() && |v| == p.n + 1 && 1 <= g <= lo < hi <= p.n && v[hi] >= 0
    ensures Frames(p, Pushes(p, v, g, lo, hi)) && Frames(p, Pushes(p, v, g, lo, hi - 1))
    ensures StackAct(p, act, Pushes(p, v, g, lo, hi), x) ==
            Words(act, p.Image(hi, g), v[hi], StackAct(p, act, Pushes(p, v, g, lo, hi - 1), x))
  {
    PushesFrames(p, v, g, lo, hi);
    PushesFrames(p, v, g, lo, hi - 1);
    var r := Pushes(p, v, g, lo, hi - 1);
    if v[hi] == 0 {
      assert Pushes(p, v, g, lo, hi) == r;
    } else {
      var f := Pushed(p.Image(hi, g), v[hi]);
      StackAppend(p, act, [f], r, x);
      StackOne(p, act, f, StackAct(p, act, r, x));
      PushedAct(act, p.Image(hi, g), v[hi], StackAct(p, act, r, x));
    }
  }

  /** g moves to the left past the entries above it, which are replaced by their conjugates. */
  lemma {:induction false} PushesAct<X(!new)>(p: Presentation, act: Action<X>, v: seq<int>, g: nat, hi: nat, x: X)
    requires p.WellFormed() && Satisfies(p, act) && |v| == p.n + 1 && 1 <= g <= p.n && hi <= p.n
    requires forall i :: g < i <= hi ==> v[i] >= 0
    ensures Frames(p, Pushes(p, v, g, g, hi))
    ensures Step(act, g, VecAct(act, v, g, hi, x)) == StackAct(p, act, Pushes(p, v, g, g, hi), Step(act, g, x))
    decreases hi
  {
    if g < hi {
      PushesStep(p, act, v, g, g, hi, Step(act, g, x));
      PushesAct(p, act, v, g, hi - 1, x);
      Conjugated(p, act, hi, g, v[hi], VecAct(act, v, g, hi - 1, x));
    }
  }

  lemma {:induction false} OneLetter<X(!new)>(act: Action<X>, i: nat, k: nat, x: X)
    ensures Words(act, [Syllable(i, 1)], k, x) == Pw(act, i, k, x)
  {
    if k > 0 {
      var w := [Syllable(i, 1)];
      assert WordAct(act, w, x) == WordAct(act, w[1..], Pw(act, i, 1, x)) == Step(act, i, x);
      OneLetter(act, i, k - 1, Step(act, i, x));
    }
  }

  /** If all the conjugates are trivial, then stacking changes nothing. */
  lemma {:induction false} PushesTrivial<X(!new)>(p: Presentation, act: Action<X>, v: seq<int>, g: nat, hi: nat, x: X)
    requires p.WellFormed() && |v| == p.n + 1 && 1 <= g <= p.n && hi <= p.n
    requires forall i :: g < i <= hi ==> v[i] == 0 || (v[i] > 0 && p.Conjugate(i, g) == [])
    ensures Frames(p, Pushes(p, v, g, g, hi))
    ensures StackAct(p, act, Pushes(p, v, g, g, hi), x) == VecAct(act, v, g, hi, x)
    decreases hi
  {
    if g < hi {
      PushesStep(p, act, v, g, g, hi, x);
      PushesTrivial(p, act, v, g, hi - 1, x);
      OneLetter(act, hi, v[hi], VecAct(act, v, g, hi - 1, x));
    }
  }

  lemma {:induction false} ImageOver(p: Presentation, i: nat, g: nat)
    requires p.WellFormed() && 1 <= g < i <= p.n
    ensures p.Over(p.Image(i, g), g) && p.Image(i, g) != []
  {
  }

  /** What has been stacked up commutes with the entries that stay in the vector. */
  lemma {:induction false} PushesPastVec<X(!new)>(p: Presentation, act: Action<X>, v: seq<int>, g: nat, hi: nat,
                                                  u: seq<int>, x: X)
    requires p.WellFormed() && Satisfies(p, act) && |v| == |u| == p.n + 1 && 1 <= g <= p.n && hi <= p.n
    requires forall i :: g < i <= p.n ==> v[i] >= 0 && u[i] >= 0
    ensures Frames(p, Pushes(p, v, g, g, hi))
    ensures StackAct(p, act, Pushes(p, v, g, g, hi), VecAct(act, u, p.avc[g], p.n, x)) ==
            VecAct(act, u, p.avc[g], p.n, StackAct(p, act, Pushes(p, v, g, g, hi), x))
    decreases hi
  {
    if g < hi {
      var a, w, r := p.avc[g], p.Image(hi, g), Pushes(p, v, g, g, hi - 1);
      PushesPastVec(p, act, v, g, hi - 1, u, x);
      var s, y := StackAct(p, act, r, x), VecAct(act, u, a, p.n, x);
      PushesStep(p, act, v, g, g, hi, y);
      PushesStep(p, act, v, g, g, hi, x);
      ImageOver(p, hi, g);
      WordsPastVec(p, act, g, w, v[hi], u, a, p.n, s);
    }
  }
}
