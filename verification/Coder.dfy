/**
  The coder: actions of the reader build the body of a function, word by word, in an arena
  that only grows. Expressions are small integers and local variables, which are coded in the
  reference itself, or offsets of nodes in the arena.
 */
module CoderExpressions {

  // ----- references

  const MIN := -0x1000_0000_0000_0000
  const MAX := 0xFFF_FFFF_FFFF_FFFF

  predicate IsRefLVar(e: int)
  {
    e % 4 == 3
  }

  function RefLVar(n: int): int
  {
    4 * n + 3
  }

  function LVarOf(e: int): int
  {
    e / 4
  }

  predicate IsIntExpr(e: int)
  {
    e % 4 == 1
  }

  function IntExpr(i: int): int
  {
    4 * i + 1
  }

  function IntOf(e: int): int
  {
    (e - 1) / 4
  }

  /** The three kinds of references do not overlap, and immediate values are read back. */
  lemma {:induction false} TagsRoundTrip(i: int, k: int)
    ensures IsIntExpr(IntExpr(i)) && IntOf(IntExpr(i)) == i && !IsRefLVar(IntExpr(i))
    ensures IsRefLVar(RefLVar(i)) && LVarOf(RefLVar(i)) == i && !IsIntExpr(RefLVar(i))
    ensures !IsIntExpr(8 * k) && !IsRefLVar(8 * k)
  {
  }

  // ----- the arena

  /** Types of nodes; `Seq(k)` stands for the k-th of the seven types of statement sequences. */
  datatype Type = True | False | IntPos | Not | AInv | Binary(op: nat)
                | Empty | Seq(k: nat) | Loop(base: nat, k: nat) | ReturnVoid | ReturnObj | Other(nr: nat)

  /** A word is the header of a node, with the number of words of data that follow, or data. */
  datatype Cell = Head(tnum: Type, size: nat) | Data(v: int)

  /** Word k of the arena is the first word of a node with n words of data. */
  predicate NodeAt(b: seq<Cell>, k: int, n: nat)
  {
    1 <= k && k + n <= |b| && b[k - 1].Head? && b[k - 1].size == n && forall x :: k <= x < k + n ==> b[x].Data?
  }

  function Arg(b: seq<Cell>, k: int, i: nat): int
    requires 0 <= k && k + i < |b| && b[k + i].Data?
  {
    b[k + i].v
  }

  function Zeros(n: nat): (r: seq<Cell>)
    ensures |r| == n && forall i :: 0 <= i < n ==> r[i] == Data(0)
  {
    if n == 0 then [] else Zeros(n - 1) + [Data(0)]
  }

  // ----- expressions

  /** Expressions, and what code decodes to: there, `Big(ix)` is the large integer at place ix of the values list. */
  datatype Tree =
    | Int(i: int)
    | Big(ix: int)
    | LVar(n: nat)
    | Truth(b: bool)
    | Negate(t: Tree)
    | Inverse(t: Tree)
    | Op(op: nat, l: Tree, r: Tree)

  /** References to earlier nodes have smaller ranks. */
  function Rank(e: int): nat
  {
    if e % 8 == 0 && e > 0 then e / 8 else 0
  }

  /** e stands for an expression in the arena. */
  ghost predicate Good(b: seq<Cell>, e: int)
    decreases Rank(e)
  {
    if IsRefLVar(e) then e >= 0
    else if IsIntExpr(e) then MIN <= IntOf(e) <= MAX
    else
      var k := Rank(e);
      && k >= 1 && e == 8 * k && k <= |b| && b[k - 1].Head?
      && match b[k - 1].tnum
         case True => NodeAt(b, k, 0)
         case False => NodeAt(b, k, 0)
         case IntPos => NodeAt(b, k, 1)
         case Not => NodeAt(b, k, 1) && Rank(Arg(b, k, 0)) < k && Good(b, Arg(b, k, 0))
         case AInv => NodeAt(b, k, 1) && Rank(Arg(b, k, 0)) < k && Good(b, Arg(b, k, 0))
         case Binary(_) => && NodeAt(b, k, 2) && Rank(Arg(b, k, 0)) < k && Rank(Arg(b, k, 1)) < k
                           && Good(b, Arg(b, k, 0)) && Good(b, Arg(b, k, 1))
         case _ => false
  }

  ghost function Decode(b: seq<Cell>, e: int): Tree
    requires Good(b, e)
    decreases Rank(e)
  {
    if IsRefLVar(e) then LVar(LVarOf(e))
    else if IsIntExpr(e) then Int(IntOf(e))
    else
      var k := Rank(e);
      match b[k - 1].tnum
      case True => Truth(true)
      case False => Truth(false)
      case IntPos => Big(Arg(b, k, 0))
      case Not => Negate(Decode(b, Arg(b, k, 0)))
      case AInv => Inverse(Decode(b, Arg(b, k, 0)))
      case Binary(op) => Op(op, Decode(b, Arg(b, k, 0)), Decode(b, Arg(b, k, 1)))
  }

  /** The arena has grown. */
  ghost predicate Grown(b: seq<Cell>, b': seq<Cell>)
  {
    |b| <= |b'| && b'[..|b|] == b
  }

  lemma {:induction false} GrownAt(b: seq<Cell>, b': seq<Cell>, i: nat)
    requires Grown(b, b') && i < |b|
    ensures b'[i] == b[i]
  {
    assert b'[..|b|][i] == b'[i];
  }

  lemma {:induction false} GrownTrans(a: seq<Cell>, b: seq<Cell>, c: seq<Cell>)
    requires Grown(a, b) && Grown(b, c)
    ensures Grown(a, c)
  {
    assert c[..|a|] == c[..|b|][..|a|];
  }

  /** What has been coded stays what it is when the arena grows. */
  lemma {:induction false} DecodeGrown(b: seq<Cell>, b': seq<Cell>, e: int)
    requires Good(b, e) && Grown(b, b')
    ensures Good(b', e) && Decode(b', e) == Decode(b, e)
    decreases Rank(e)
  {
    if !IsRefLVar(e) && !IsIntExpr(e) {
      var k := Rank(e);
      GrownAt(b, b', k - 1);
      match b[k - 1].tnum
      case IntPos =>
        GrownAt(b, b', k);
      case Not =>
        GrownAt(b, b', k);
        DecodeGrown(b, b', Arg(b, k, 0));
      case AInv =>
        GrownAt(b, b', k);
        DecodeGrown(b, b', Arg(b, k, 0));
      case Binary(_) =>
        DecodeGrown(b, b', Arg(b, k, 0));
        DecodeGrown(b, b', Arg(b, k, 1));
        BinaryGrown(b, b', e, k, Arg(b, k, 0), Arg(b, k, 1));
      case _ =>
    }
  }

  lemma {:induction false} BinaryGrown(b: seq<Cell>, b': seq<Cell>, e: int, k: nat, l: int, r: int)
    requires Good(b, e) && Grown(b, b') && !IsRefLVar(e) && !IsIntExpr(e) && k == Rank(e) && b[k - 1].tnum.Binary?
    requires l == Arg(b, k, 0) && r == Arg(b, k, 1) && Good(b', l) && Good(b', r)
    requires Decode(b', l) == Decode(b, l) && Decode(b', r) == Decode(b, r)
    ensures Good(b', e) && Decode(b', e) == Decode(b, e)
  {
    GrownAt(b, b', k - 1);
    GrownAt(b, b', k);
    GrownAt(b, b', k + 1);
  }

  // ----- folding of constants

  function FoldNot(t: Tree): Tree
  {
    if t.Truth? then Truth(!t.b) else Negate(t)
  }

  function FoldAInv(t: Tree): Tree
  {
    if t.Int? && MIN <= t.i <= MAX && t.i != MIN then Int(-t.i) else Inverse(t)
  }

  function Fold(t: Tree): Tree
  {
    match t
    case Negate(u) => FoldNot(Fold(u))
    case Inverse(u) => FoldAInv(Fold(u))
    case Op(op, l, r) => Op(op, Fold(l), Fold(r))
    case _ => t
  }

  /** No literal is negated, and no small integer but the smallest is inverted. */
  predicate Folded(t: Tree)
  {
    match t
    case Negate(u) => !u.Truth? && Folded(u)
    case Inverse(u) => !(u.Int? && MIN < u.i <= MAX) && Folded(u)
    case Op(_, l, r) => Folded(l) && Folded(r)
    case _ => true
  }

  /** Whatever can be folded is folded, and nothing else is touched. */
  lemma {:induction false} FoldNormal(t: Tree)
    ensures Folded(Fold(t)) && (Folded(t) ==> Fold(t) == t)
  {
    match t
    case Negate(u) => FoldNormal(u);
    case Inverse(u) => FoldNormal(u);
    case Op(_, l, r) =>
      FoldNormal(l);
      FoldNormal(r);
    case _ =>
  }

  /** Expressions as they are read: integers of any size. */
  predicate Plain(t: Tree)
  {
    match t
    case Big(_) => false
    case Negate(u) => Plain(u)
    case Inverse(u) => Plain(u)
    case Op(_, l, r) => Plain(l) && Plain(r)
    case _ => true
  }

  type Expression = t: Tree | Plain(t) witness Int(0)

  // ----- integers that are not small

  /** The values list has the large integers that the code refers to. */
  ghost predicate Known(vs: seq<int>, t: Tree)
  {
    match t
    case Big(ix) => 1 <= ix <= |vs| && !(MIN <= vs[ix - 1] <= MAX)
    case Negate(u) => Known(vs, u)
    case Inverse(u) => Known(vs, u)
    case Op(_, l, r) => Known(vs, l) && Known(vs, r)
    case _ => true
  }

  /** The expression that code stands for. */
  ghost function Resolve(vs: seq<int>, t: Tree): (r: Tree)
    requires Known(vs, t)
    ensures Plain(r)
  {
    match t
    case Big(ix) => Int(vs[ix - 1])
    case Negate(u) => Negate(Resolve(vs, u))
    case Inverse(u) => Inverse(Resolve(vs, u))
    case Op(op, l, r) => Op(op, Resolve(vs, l), Resolve(vs, r))
    case _ => t
  }

  /** More values make no difference. */
  lemma {:induction false} ResolveGrown(vs: seq<int>, vs': seq<int>, t: Tree)
    requires Known(vs, t) && vs <= vs'
    ensures Known(vs', t) && Resolve(vs', t) == Resolve(vs, t)
  {
    match t
    case Negate(u) => ResolveGrown(vs, vs', u);
    case Inverse(u) => ResolveGrown(vs, vs', u);
    case Op(_, l, r) =>
      ResolveGrown(vs, vs', l);
      ResolveGrown(vs, vs', r);
    case _ =>
  }

  /** Values, and what evaluation does with values that operators are not made for. */
  datatype Value = Number(i: int) | Boolean(b: bool) | Object(id: int)

  /** How operators act on values: negation of booleans and of integers is what it must be. */
  datatype Semantics = Semantics(local: nat -> Value, neg: Value -> Value, ainv: Value -> Value,
                                 binary: (nat, Value, Value) -> Value)

  ghost predicate Faithful(s: Semantics)
  {
    && (forall b {:trigger s.neg(Boolean(b))} :: s.neg(Boolean(b)) == Boolean(!b))
    && (forall i {:trigger s.ainv(Number(i))} :: s.ainv(Number(i)) == Number(-i))
  }

  /** Large integers are looked up in the values list. */
  ghost function Eval(s: Semantics, vs: seq<int>, t: Tree): Value
  {
    match t
    case Int(i) => Number(i)
    case Big(ix) => if 1 <= ix <= |vs| then Number(vs[ix - 1]) else Object(0)
    case LVar(n) => s.local(n)
    case Truth(b) => Boolean(b)
    case Negate(u) => s.neg(Eval(s, vs, u))
    case Inverse(u) => s.ainv(Eval(s, vs, u))
    case Op(op, l, r) => s.binary(op, Eval(s, vs, l), Eval(s, vs, r))
  }

  /** Folding does not change what an expression evaluates to. */
  lemma {:induction false} FoldEval(s: Semantics, vs: seq<int>, t: Tree)
    requires Faithful(s)
    ensures Eval(s, vs, Fold(t)) == Eval(s, vs, t)
  {
    match t
    case Negate(u) => FoldEval(s, vs, u);
    case Inverse(u) => FoldEval(s, vs, u);
    case Op(op, l, r) =>
      FoldEval(s, vs, l);
      FoldEval(s, vs, r);
    case _ =>
  }

  lemma {:induction false} ResolveEval(s: Semantics, vs: seq<int>, t: Tree)
    requires Known(vs, t)
    ensures Eval(s, [], Resolve(vs, t)) == Eval(s, vs, t)
  {
    match t
    case Negate(u) => ResolveEval(s, vs, u);
    case Inverse(u) => ResolveEval(s, vs, u);
    case Op(op, l, r) =>
      ResolveEval(s, vs, l);
      ResolveEval(s, vs, r);
    case _ =>
  }
}

/** Statements: sequences of statements that are packed into nested nodes. */
module CoderStatements {
  import opened CoderExpressions

  /** The data words of node k. */
  ghost function Args(b: seq<Cell>, k: nat, n: nat): (r: seq<int>)
    requires k + n <= |b| && forall x :: k <= x < k + n ==> b[x].Data?
    ensures |r| == n && forall i {:trigger r[i]} :: 0 <= i < n ==> r[i] == b[k + i].v
  {
    if n == 0 then [] else Args(b, k, n - 1) + [b[k + n - 1].v]
  }

  /** How many statements a sequence executes: the first type goes by the size, the others have their own number. */
  function Executed(tnum: Type, size: nat): nat
    requires tnum.Seq?
  {
    if tnum.k == 1 then size else tnum.k
  }

  /** A sequence of statements that executes all of them. */
  predicate GoodSeq(tnum: Type, size: nat)
    requires tnum.Seq?
  {
    1 <= tnum.k <= 7 && size >= 1 && Executed(tnum, size) == size
  }

  /** Word k starts a statement whose nodes lie above word `low`. */
  ghost predicate GoodStat(b: seq<Cell>, low: nat, k: int)
    decreases k, 1
  {
    && k > low && k <= |b| && b[k - 1].Head? && NodeAt(b, k, b[k - 1].size)
    && (b[k - 1].tnum.Seq? ==> GoodSeq(b[k - 1].tnum, b[k - 1].size) && GoodAll(b, low, Args(b, k, b[k - 1].size), k))
  }

  /** All of these are statements, with nodes before word `bound`. */
  ghost predicate GoodAll(b: seq<Cell>, low: nat, ss: seq<int>, bound: nat)
    decreases bound, 0, |ss|
  {
    ss != [] ==>
      && GoodAll(b, low, ss[..|ss| - 1], bound)
      && ss[|ss| - 1] < bound && GoodStat(b, low, ss[|ss| - 1])
  }

  /** The statements that a statement comes to, in order. */
  ghost function Flatten(b: seq<Cell>, low: nat, k: int): seq<int>
    requires GoodStat(b, low, k)
    decreases k, 1
  {
    if b[k - 1].tnum.Empty? then []
    else if b[k - 1].tnum.Seq? then FlattenAll(b, low, Args(b, k, b[k - 1].size), k)
    else [k]
  }

  ghost function FlattenAll(b: seq<Cell>, low: nat, ss: seq<int>, bound: nat): seq<int>
    requires GoodAll(b, low, ss, bound)
    decreases bound, 0, |ss|
  {
    if ss == [] then [] else FlattenAll(b, low, ss[..|ss| - 1], bound) + Flatten(b, low, ss[|ss| - 1])
  }

  /** The arena has grown, and perhaps changed below word `low`. */
  ghost predicate SameAbove(b: seq<Cell>, b': seq<Cell>, low: nat)
  {
    |b| <= |b'| && forall i :: low <= i < |b| ==> b'[i] == b[i]
  }

  lemma {:induction false} ArgsSame(b: seq<Cell>, b': seq<Cell>, low: nat, k: nat, n: nat)
    requires SameAbove(b, b', low) && low <= k && k + n <= |b| && forall x :: k <= x < k + n ==> b[x].Data?
    ensures forall x :: k <= x < k + n ==> b'[x].Data?
    ensures Args(b', k, n) == Args(b, k, n)
  {
  }

  /** Statements stay what they are. */
  lemma {:induction false} FlattenSame(b: seq<Cell>, b': seq<Cell>, low: nat, s: int)
    requires GoodStat(b, low, s) && SameAbove(b, b', low)
    ensures GoodStat(b', low, s) && Flatten(b', low, s) == Flatten(b, low, s)
    decreases s, 1
  {
    var k := s;
    var n := b[k - 1].size;
    ArgsSame(b, b', low, k, n);
    if b[k - 1].tnum.Seq? {
      FlattenAllSame(b, b', low, Args(b, k, n), k);
    }
  }

  lemma {:induction false} FlattenAllSame(b: seq<Cell>, b': seq<Cell>, low: nat, ss: seq<int>, bound: nat)
    requires GoodAll(b, low, ss, bound) && SameAbove(b, b', low)
    ensures GoodAll(b', low, ss, bound) && FlattenAll(b', low, ss, bound) == FlattenAll(b, low, ss, bound)
    decreases bound, 0, |ss|
  {
    if ss != [] {
      FlattenAllSame(b, b', low, ss[..|ss| - 1], bound);
      FlattenSame(b, b', low, ss[|ss| - 1]);
    }
  }

  lemma {:induction false} AnyBound(b: seq<Cell>, low: nat, ss: seq<int>, bound: nat, bound': nat)
    requires GoodAll(b, low, ss, bound) && bound <= bound'
    ensures GoodAll(b, low, ss, bound') && FlattenAll(b, low, ss, bound') == FlattenAll(b, low, ss, bound)
  {
    if ss != [] {
      AnyBound(b, low, ss[..|ss| - 1], bound, bound');
    }
  }

  lemma {:induction false} GoodAppend(b: seq<Cell>, low: nat, ss: seq<int>, tt: seq<int>, bound: nat)
    ensures GoodAll(b, low, ss + tt, bound) <==> GoodAll(b, low, ss, bound) && GoodAll(b, low, tt, bound)
    decreases |tt|
  {
    if tt == [] {
      assert ss + tt == ss;
    } else {
      var tt' := tt[..|tt| - 1];
      GoodAppend(b, low, ss, tt', bound);
      assert (ss + tt)[..|ss + tt| - 1] == ss + tt';
    }
  }

  lemma {:induction false} FlattenSnoc(b: seq<Cell>, low: nat, ss: seq<int>, s: int, bound: nat)
    requires GoodAll(b, low, ss, bound) && GoodStat(b, low, s) && s < bound
    ensures GoodAll(b, low, ss + [s], bound)
    ensures FlattenAll(b, low, ss + [s], bound) == FlattenAll(b, low, ss, bound) + Flatten(b, low, s)
  {
    var u := ss + [s];
    assert u[..|u| - 1] == ss && u[|u| - 1] == s;
  }

  lemma {:induction false} Regrouped(a: seq<int>, b: seq<int>, c: int)
    ensures a + (b + [c]) == (a + b) + [c]
  {
  }

  lemma {:induction false} Regroup(a: seq<int>, b: seq<int>, c: seq<int>)
    ensures a + (b + c) == (a + b) + c
  {
  }

  lemma {:induction false} FlattenAppend(b: seq<Cell>, low: nat, ss: seq<int>, tt: seq<int>, bound: nat)
    requires GoodAll(b, low, ss, bound) && GoodAll(b, low, tt, bound)
    ensures GoodAll(b, low, ss + tt, bound)
    ensures FlattenAll(b, low, ss + tt, bound) == FlattenAll(b, low, ss, bound) + FlattenAll(b, low, tt, bound)
    decreases |tt|
  {
    if tt == [] {
      assert ss + tt == ss;
    } else {
      var tt', s := tt[..|tt| - 1], tt[|tt| - 1];
      FlattenAppend(b, low, ss, tt', bound);
      Regrouped(ss, tt', s);
      assert tt == tt' + [s];
      FlattenSnoc(b, low, ss + tt', s, bound);
      FlattenSnoc(b, low, tt', s, bound);
      Regroup(FlattenAll(b, low, ss, bound), FlattenAll(b, low, tt', bound), Flatten(b, low, s));
    }
  }

  lemma {:induction false} FlattenOne(b: seq<Cell>, low: nat, s: int, bound: nat)
    requires GoodStat(b, low, s) && s < bound
    ensures GoodAll(b, low, [s], bound) && FlattenAll(b, low, [s], bound) == Flatten(b, low, s)
  {
    var ss := [s];
    assert ss[..0] == [] && ss[0] == s;
  }

  /** A node that holds statements comes to these statements. */
  lemma {:induction false} PackedFlatten(b: seq<Cell>, low: nat, s: int, ss: seq<int>)
    requires s > low && s <= |b| && NodeAt(b, s, |ss|)
    requires b[s - 1].tnum.Seq? && GoodSeq(b[s - 1].tnum, |ss|) && Args(b, s, |ss|) == ss && GoodAll(b, low, ss, s)
    ensures GoodStat(b, low, s) && Flatten(b, low, s) == FlattenAll(b, low, ss, s)
  {
  }

  /** All statements that a statement comes to have their nodes above word `low`. */
  lemma {:induction false} FlattenAbove(b: seq<Cell>, low: nat, s: int)
    requires GoodStat(b, low, s)
    ensures forall i :: 0 <= i < |Flatten(b, low, s)| ==> low < Flatten(b, low, s)[i] <= |b|
    decreases s, 1
  {
    if b[s - 1].tnum.Seq? {
      FlattenAllAbove(b, low, Args(b, s, b[s - 1].size), s);
    }
  }

  lemma {:induction false} FlattenAllAbove(b: seq<Cell>, low: nat, ss: seq<int>, bound: nat)
    requires GoodAll(b, low, ss, bound)
    ensures forall i :: 0 <= i < |FlattenAll(b, low, ss, bound)| ==> low < FlattenAll(b, low, ss, bound)[i] <= |b|
    decreases bound, 0, |ss|
  {
    if ss != [] {
      FlattenAllAbove(b, low, ss[..|ss| - 1], bound);
      FlattenAbove(b, low, ss[|ss| - 1]);
    }
  }

  /** A list of statements, in the arena as it is. */
  ghost predicate Stats(b: seq<Cell>, low: nat, ss: seq<int>)
  {
    GoodAll(b, low, ss, |b| + 1)
  }

  /** What a list of statements comes to. */
  ghost function Comes(b: seq<Cell>, low: nat, ss: seq<int>): seq<int>
    requires Stats(b, low, ss)
  {
    FlattenAll(b, low, ss, |b| + 1)
  }

  lemma {:induction false} ComesSame(b: seq<Cell>, b': seq<Cell>, low: nat, ss: seq<int>)
    requires Stats(b, low, ss) && SameAbove(b, b', low)
    ensures Stats(b', low, ss) && Comes(b', low, ss) == Comes(b, low, ss)
  {
    FlattenAllSame(b, b', low, ss, |b| + 1);
    AnyBound(b', low, ss, |b| + 1, |b'| + 1);
  }

  lemma {:induction false} ComesJoin(b: seq<Cell>, low: nat, ss: seq<int>, s: int)
    requires Stats(b, low, ss) && GoodStat(b, low, s)
    ensures Stats(b, low, ss + [s]) && Comes(b, low, ss + [s]) == Comes(b, low, ss) + Flatten(b, low, s)
  {
    FlattenOne(b, low, s, |b| + 1);
    FlattenAppend(b, low, ss, [s], |b| + 1);
  }

  lemma {:induction false} ComesSplit(b: seq<Cell>, low: nat, ss: seq<int>, i: nat)
    requires Stats(b, low, ss) && i <= |ss|
    ensures Stats(b, low, ss[..i]) && Stats(b, low, ss[i..])
    ensures Comes(b, low, ss) == Comes(b, low, ss[..i]) + Comes(b, low, ss[i..])
  {
    assert ss == ss[..i] + ss[i..];
    GoodAppend(b, low, ss[..i], ss[i..], |b| + 1);
    FlattenAppend(b, low, ss[..i], ss[i..], |b| + 1);
  }

  lemma {:induction false} GrownAbove(b: seq<Cell>, b': seq<Cell>, low: nat)
    requires Grown(b, b')
    ensures SameAbove(b, b', low)
  {
    forall i | low <= i < |b|
      ensures b'[i] == b[i]
    {
      GrownAt(b, b', i);
    }
  }

  /** The last statement inside nested sequences. */
  ghost function LastReal(b: seq<Cell>, low: nat, s: int): (r: int)
    requires GoodStat(b, low, s)
    ensures GoodStat(b, low, r) && !b[r - 1].tnum.Seq?
    decreases s
  {
    var k := s;
    if b[k - 1].tnum.Seq? then
      var ss := Args(b, k, b[k - 1].size);
      assert GoodAll(b, low, ss, k);
      LastReal(b, low, ss[|ss| - 1])
    else s
  }

  /** If the last statement inside is a return, then it is the last one that the statement comes to. */
  lemma {:induction false} LastReturns(b: seq<Cell>, low: nat, s: int)
    requires GoodStat(b, low, s) && Returns(b, LastReal(b, low, s))
    ensures var f := Flatten(b, low, s); f != [] && f[|f| - 1] == LastReal(b, low, s)
    decreases s
  {
    var k := s;
    if b[k - 1].tnum.Seq? {
      var ss := Args(b, k, b[k - 1].size);
      LastReturns(b, low, ss[|ss| - 1]);
    }
  }

  /** A list whose last statement is a return, or a sequence that ends in one. */
  lemma {:induction false} EndsInReturn(b: seq<Cell>, low: nat, ss: seq<int>, s: int)
    requires Stats(b, low, ss + [s]) && GoodStat(b, low, s) && Returns(b, LastReal(b, low, s))
    ensures var f := Comes(b, low, ss + [s]); f != [] && Returns(b, f[|f| - 1])
  {
    GoodAppend(b, low, ss, [s], |b| + 1);
    ComesJoin(b, low, ss, s);
    LastReturns(b, low, s);
  }

  /** Up to seven statements are left alone; of more than seven, the first six are. */
  ghost predicate FirstOnes(ss: seq<int>, tt: seq<int>)
  {
    if |ss| <= 7 then tt == ss else |tt| == 7 && tt[..6] == ss[..6]
  }

  /** The last of these statements is a return, or a sequence whose innermost last statement is one. */
  ghost predicate Ended(b: seq<Cell>, low: nat, ss: seq<int>)
    requires Stats(b, low, ss)
  {
    ss != [] && Returns(b, LastReal(b, low, ss[|ss| - 1]))
  }

  /** The statement is a return without a value. */
  ghost predicate VoidReturn(b: seq<Cell>, s: int)
  {
    Returns(b, s) && b[s - 1] == Head(ReturnVoid, 0)
  }

  /** The statement is a return. */
  ghost predicate Returns(b: seq<Cell>, s: int)
  {
    1 <= s <= |b| && b[s - 1].Head? && (b[s - 1].tnum.ReturnVoid? || b[s - 1].tnum.ReturnObj?)
  }
}

/** The coder itself. */
module Coder {
  import opened CoderExpressions
  import opened CoderStatements

  class CodeState {
    var body: seq<Cell>
    var exprs: seq<int>
    var stats: seq<int>
    var values: seq<int>

    /** Allocates a node with n words of data at the end of the arena. */
    method New(tnum: Type, n: nat) returns (k: nat)
      modifies this`body
      ensures body == old(body) + [Head(tnum, n)] + Zeros(n) && k == |old(body)| + 1
    {
      k := |body| + 1;
      body := body + [Head(tnum, n)] + Zeros(n);
    }

    method Write(k: nat, i: nat, v: int)
      requires k + i < |body|
      modifies this`body
      ensures body == old(body)[k + i := Data(v)]
    {
      body := body[k + i := Data(v)];
    }

    method PushExpr(e: int)
      modifies this`exprs
      ensures exprs == old(exprs) + [e]
    {
      exprs := exprs + [e];
    }

    method PopExpr() returns (e: int)
      requires exprs != []
      modifies this`exprs
      ensures exprs == old(exprs)[..|old(exprs)| - 1] && e == old(exprs)[|old(exprs)| - 1]
    {
      e := exprs[|exprs| - 1];
      exprs := exprs[..|exprs| - 1];
    }

    method PushUnaryOp(tnum: Type)
      requires exprs != []
      modifies this`body, this`exprs
      ensures body == old(body) + [Head(tnum, 1), Data(old(exprs)[|old(exprs)| - 1])]
      ensures exprs == old(exprs)[..|old(exprs)| - 1] + [8 * (|old(body)| + 1)]
    {
      var unop := New(tnum, 1);
      var op := PopExpr();
      Write(unop, 0, op);
      PushExpr(8 * unop);
    }

    method PushBinaryOp(tnum: Type)
      requires |exprs| >= 2
      modifies this`body, this`exprs
      ensures body == old(body) + [Head(tnum, 2), Data(old(exprs)[|old(exprs)| - 2]),
                                   Data(old(exprs)[|old(exprs)| - 1])]
      ensures exprs == old(exprs)[..|old(exprs)| - 2] + [8 * (|old(body)| + 1)]
    {
      var binop := New(tnum, 2);
      var opR := PopExpr();
      Write(binop, 1, opR);
      var opL := PopExpr();
      Write(binop, 0, opL);
      PushExpr(8 * binop);
    }

    /** One more expression has been coded: it stands for t, and nothing else has changed. */
    ghost predicate Coded(b: seq<Cell>, es: seq<int>, vs: seq<int>, t: Tree)
      reads this
    {
      && Grown(b, body) && |exprs| == |es| + 1 && exprs[..|es|] == es && vs <= values
      && Stands(body, values, exprs[|es|], t)
    }

    method CodeTruth(v: bool)
      modifies this`body, this`exprs
      ensures Coded(old(body), old(exprs), values, Truth(v))
    {
      var k := New(if v then True else False, 0);
      PushExpr(8 * k);
    }

    /** Adds a value to the values list and returns its place. */
    method AddValueToBody(v: int) returns (ix: int)
      modifies this`values
      ensures values == old(values) + [v] && ix == |values|
    {
      values := values + [v];
      ix := |values|;
    }

    /** Small integers are coded in the reference, others go into the values list. */
    method CodeIntExpr(i: int)
      modifies this`body, this`exprs, this`values
      ensures Coded(old(body), old(exprs), old(values), Int(i))
    {
      ghost var b := body;
      if MIN <= i <= MAX {
        TagsRoundTrip(i, 0);
        PushExpr(IntExpr(i));
      } else {
        var expr := New(IntPos, 1);
        var ix := AddValueToBody(i);
        Write(expr, 0, ix);
        assert body == b + [Head(IntPos, 1), Data(ix)];
        NodeRef(expr);
        PushExpr(8 * expr);
      }
    }

    method CodeRefLVar(n: nat)
      modifies this`exprs
      ensures Coded(old(body), old(exprs), values, LVar(n))
    {
      TagsRoundTrip(n, 0);
      PushExpr(RefLVar(n));
    }

    /** Negation, with literals folded. */
    method CodeNot(ghost b: seq<Cell>, ghost es: seq<int>, ghost vs: seq<int>, ghost t: Tree)
      requires Coded(b, es, vs, t)
      modifies this`body, this`exprs
      ensures Coded(b, es, vs, FoldNot(t))
    {
      ghost var b1 := body;
      var expr := PopExpr();
      assert exprs == es;
      if !IsRefLVar(expr) && !IsIntExpr(expr) && body[expr / 8 - 1].tnum.True? {
        CodeTruth(false);
        GrownTrans(b, b1, body);
      } else if !IsRefLVar(expr) && !IsIntExpr(expr) && body[expr / 8 - 1].tnum.False? {
        CodeTruth(true);
        GrownTrans(b, b1, body);
      } else {
        PushExpr(expr);
        PushUnaryOp(Not);
        UnaryStands(b1, values, expr, t, Not);
        GrownTrans(b, b1, body);
      }
    }

    /** Additive inversion, with small integers folded. */
    method CodeAInv(ghost b: seq<Cell>, ghost es: seq<int>, ghost vs: seq<int>, ghost t: Tree)
      requires Coded(b, es, vs, t)
      modifies this`body, this`exprs
      ensures Coded(b, es, vs, FoldAInv(t))
    {
      ghost var b1 := body;
      var expr := PopExpr();
      assert exprs == es;
      if IsIntExpr(expr) && IntOf(expr) != MIN {
        var i := IntOf(expr);
        TagsRoundTrip(-i, 0);
        PushExpr(IntExpr(-i));
      } else {
        PushExpr(expr);
        PushUnaryOp(AInv);
        UnaryStands(b1, values, expr, t, AInv);
        GrownTrans(b, b1, body);
      }
    }

    /** The actions of the reader for an expression, operands first. */
    method Code(t: Expression)
      modifies this`body, this`exprs, this`values
      ensures Coded(old(body), old(exprs), old(values), Fold(t))
      decreases t
    {
      ghost var b, es, vs := body, exprs, values;
      match t
      case Int(i) => CodeIntExpr(i);
      case LVar(n) => CodeRefLVar(n);
      case Truth(v) => CodeTruth(v);
      case Negate(u) =>
        Code(u);
        CodeNot(b, es, vs, Fold(u));
      case Inverse(u) =>
        Code(u);
        CodeAInv(b, es, vs, Fold(u));
      case Op(op, l, r) =>
        Code(l);
        ghost var b1, es1, vs1 := body, exprs, values;
        Code(r);
        CodeOp(op, b, es, vs, Fold(l), b1, es1, vs1, Fold(r));
    }

    method CodeOp(op: nat, ghost b: seq<Cell>, ghost es: seq<int>, ghost vs: seq<int>, ghost l: Tree,
                  ghost b1: seq<Cell>, ghost es1: seq<int>, ghost vs1: seq<int>, ghost r: Tree)
      requires Coded(b1, es1, vs1, r) && Grown(b, b1) && |es1| == |es| + 1 && es1[..|es|] == es && vs <= vs1
      requires Stands(b1, vs1, es1[|es|], l)
      modifies this`body, this`exprs
      ensures Coded(b, es, vs, Op(op, l, r))
    {
      ghost var b2, e1, e2 := body, exprs[|es|], exprs[|es| + 1];
      assert exprs[..|es1|][|es|] == e1;
      StandsGrown(b1, b2, vs1, values, e1, l);
      assert exprs[..|es|] == exprs[..|es1|][..|es|];
      PushBinaryOp(Binary(op));
      BinaryStands(b2, values, e1, l, e2, r, op);
      GrownTrans(b, b1, b2);
      GrownTrans(b, b2, body);
    }

    // ----- statements

    method PushStat(s: int)
      modifies this`stats
      ensures stats == old(stats) + [s]
    {
      stats := stats + [s];
    }

    method PopStat() returns (s: int)
      requires stats != []
      modifies this`stats
      ensures stats == old(stats)[..|old(stats)| - 1] && s == old(stats)[|old(stats)| - 1]
    {
      s := stats[|stats| - 1];
      stats := stats[..|stats| - 1];
    }

    /** Pops n statements and enters them into a node, the last one first. */
    method EnterStats(k: nat, n: nat)
      requires n <= |stats| && k + n <= |body|
      modifies this`body, this`stats
      ensures stats == old(stats)[..|old(stats)| - n] && |body| == |old(body)|
      ensures forall x :: 0 <= x < |body| && !(k <= x < k + n) ==> body[x] == old(body)[x]
      ensures forall x {:trigger body[x]} :: k <= x < k + n ==> body[x] == Data(old(stats)[|old(stats)| - n + (x - k)])
    {
      ghost var ss := stats;
      var i := n;
      while i >= 1
        invariant 0 <= i <= n && stats == ss[..|ss| - (n - i)] && |body| == |old(body)|
        invariant forall x :: 0 <= x < |body| && !(k + i <= x < k + n) ==> body[x] == old(body)[x]
        invariant forall x {:trigger body[x]} :: k + i <= x < k + n ==> body[x] == Data(ss[|ss| - n + (x - k)])
      {
        var s := PopStat();
        Write(k, i - 1, s);
        i := i - 1;
      }
    }

    /** Packs the top nr statements into one. */
    method PopSeqStat(nr: nat, ghost low: nat) returns (s: int)
      requires nr <= |stats| && low <= |body| && GoodAll(body, low, stats[|stats| - nr..], |body| + 1)
      modifies this`body, this`stats
      ensures Grown(old(body), body) && stats == old(stats)[..|old(stats)| - nr]
      ensures GoodStat(body, low, s)
      ensures Flatten(body, low, s) == FlattenAll(old(body), low, old(stats)[|old(stats)| - nr..], |old(body)| + 1)
      ensures nr == 0 ==> body[s - 1].tnum == Empty
      ensures nr == 1 ==> s == old(stats)[|old(stats)| - 1]
      ensures nr >= 2 ==> NodeAt(body, s, nr) && body[s - 1].tnum == Seq(if nr <= 7 then nr else 1)
    {
      ghost var b, ss := body, stats[|stats| - nr..];
      if nr == 0 {
        s := New(Empty, 0);
      } else if nr == 1 {
        s := PopStat();
        OneStat(b, low, ss, s);
      } else {
        s := PopPacked(nr, low);
      }
    }

    lemma {:induction false} OneStat(b: seq<Cell>, low: nat, ss: seq<int>, s: int)
      requires low <= |b| && ss == [s] && GoodAll(b, low, ss, |b| + 1)
      ensures GoodStat(b, low, s) && Flatten(b, low, s) == FlattenAll(b, low, ss, |b| + 1)
    {
      assert ss[..0] == [];
    }

    method PopPacked(nr: nat, ghost low: nat) returns (s: int)
      requires 1 < nr <= |stats| && low <= |body| && GoodAll(body, low, stats[|stats| - nr..], |body| + 1)
      modifies this`body, this`stats
      ensures Grown(old(body), body) && stats == old(stats)[..|old(stats)| - nr]
      ensures GoodStat(body, low, s)
      ensures Flatten(body, low, s) == FlattenAll(old(body), low, old(stats)[|old(stats)| - nr..], |old(body)| + 1)
      ensures nr >= 2 ==> NodeAt(body, s, nr) && body[s - 1].tnum == Seq(if nr <= 7 then nr else 1)
    {
      ghost var b, ss := body, stats[|stats| - nr..];
      s := New(if nr <= 7 then Seq(nr) else Seq(1), nr);
      EnterStats(|body| - nr, nr);
      Packed(b, body, low, ss);
    }

    /** Leaves at least one and at most three statements that come to the top nr statements. */
    method PackForLoop(nr: nat, ghost low: nat) returns (n: nat)
      requires nr <= |stats| && low <= |body| && Stats(body, low, stats[|stats| - nr..])
      modifies this`body, this`stats
      ensures Grown(old(body), body) && n <= |stats| && n == if 1 <= nr <= 3 then nr else 1
      ensures stats[..|stats| - n] == old(stats)[..|old(stats)| - nr]
      ensures Stats(body, low, stats[|stats| - n..])
      ensures Comes(body, low, stats[|stats| - n..]) == Comes(old(body), low, old(stats)[|old(stats)| - nr..])
    {
      n := nr;
      if nr == 0 || 3 < nr {
        var s := PopSeqStat(nr, low);
        PushStat(s);
        n := 1;
        FlattenOne(body, low, s, |body| + 1);
        assert stats[|stats| - 1..] == [s];
      }
    }

    /** A loop statement whose data are `extra` expressions, still to be entered, and the statements of its body. */
    method PopLoopStat(base: nat, extra: nat, nr: nat, ghost low: nat) returns (s: nat, n: nat)
      requires nr <= |stats| && low <= |body| && Stats(body, low, stats[|stats| - nr..])
      modifies this`body, this`stats
      ensures Grown(old(body), body) && stats == old(stats)[..|old(stats)| - nr]
      ensures n == if 1 <= nr <= 3 then nr else 1
      ensures NodeAt(body, s, extra + n) && body[s - 1].tnum == Loop(base, n - 1) &&
              GoodStat(body, low, s)
      ensures Stats(body, low, Args(body, s + extra, n))
      ensures Comes(body, low, Args(body, s + extra, n)) == Comes(old(body), low, old(stats)[|old(stats)| - nr..])
    {
      n := PackForLoop(nr, low);
      ghost var b := body;
      s := EnterLoop(base, extra, n, low);
      GrownTrans(old(body), b, body);
    }

    /** A loop node with room for `extra` expressions and the top n statements. */
    method EnterLoop(base: nat, extra: nat, n: nat, ghost low: nat) returns (s: nat)
      requires 1 <= n <= 3 && n <= |stats| && low <= |body| && Stats(body, low, stats[|stats| - n..])
      modifies this`body, this`stats
      ensures Grown(old(body), body) && stats == old(stats)[..|old(stats)| - n]
      ensures NodeAt(body, s, extra + n) && body[s - 1].tnum == Loop(base, n - 1) && GoodStat(body, low, s)
      ensures Stats(body, low, Args(body, s + extra, n))
      ensures Comes(body, low, Args(body, s + extra, n)) == Comes(old(body), low, old(stats)[|old(stats)| - n..])
    {
      ghost var b, ss := body, stats[|stats| - n..];
      s := New(Loop(base, n - 1), extra + n);
      EnterStats(s + extra, n);
      assert Grown(b, body);
      GrownAbove(b, body, low);
      ComesSame(b, body, low, ss);
      assert Args(body, s + extra, n) == ss;
    }

    /** The last statement inside nested sequences. */
    method FindLast(s: int, ghost low: nat) returns (r: int)
      requires GoodStat(body, low, s)
      ensures r == LastReal(body, low, s)
    {
      r := s;
      while body[r - 1].tnum.Seq?
        invariant GoodStat(body, low, r) && LastReal(body, low, r) == LastReal(body, low, s)
        decreases r
      {
        ghost var ss := Args(body, r, body[r - 1].size);
        assert GoodAll(body, low, ss, r);
        r := Arg(body, r, body[r - 1].size - 1);
      }
    }

    method CodeReturnVoid(ghost low: nat) returns (s: int)
      requires low <= |body|
      modifies this`body, this`stats
      ensures Grown(old(body), body) && stats == old(stats) + [s] && GoodStat(body, low, s)
      ensures Flatten(body, low, s) == [s] && VoidReturn(body, s)
    {
      s := New(ReturnVoid, 0);
      PushStat(s);
    }

    /** Adds a return unless the last statement is one. */
    method EndWithReturn(nr: nat, ghost low: nat) returns (n: nat, ghost ret: seq<int>)
      requires nr <= |stats| && low <= |body| && Stats(body, low, stats[|stats| - nr..])
      modifies this`body, this`stats
      ensures Grown(old(body), body) && stats == old(stats) + ret && n == nr + |ret| && n >= 1 && |ret| <= 1
      ensures ret == [] <==> Ended(old(body), low, old(stats)[|old(stats)| - nr..])
      ensures forall s :: s in ret ==> low < s <= |body| && VoidReturn(body, s)
      ensures Stats(body, low, stats[|stats| - n..])
      ensures Comes(body, low, stats[|stats| - n..]) == Comes(old(body), low, old(stats)[|old(stats)| - nr..]) + ret
      ensures var f := Comes(body, low, stats[|stats| - n..]); f != [] && Returns(body, f[|f| - 1])
    {
      n, ret := nr, [];
      var done := EndsAlready(nr, low);
      if !done {
        var r := AddReturn(nr, low);
        n, ret := nr + 1, [r];
      }
    }

    /** Whether the last of the top nr statements ends in a return. */
    method EndsAlready(nr: nat, ghost low: nat) returns (done: bool)
      requires nr <= |stats| && low <= |body| && Stats(body, low, stats[|stats| - nr..])
      ensures done <==> Ended(body, low, stats[|stats| - nr..])
      ensures done ==> var f := Comes(body, low, stats[|stats| - nr..]); f != [] && Returns(body, f[|f| - 1])
    {
      done := false;
      if nr > 0 {
        ghost var ss := stats[|stats| - nr..];
        var s := stats[|stats| - 1];
        assert ss == ss[..nr - 1] + [s];
        assert GoodStat(body, low, s);
        var r := FindLast(s, low);
        if body[r - 1].tnum.ReturnVoid? || body[r - 1].tnum.ReturnObj? {
          EndsInReturn(body, low, ss[..nr - 1], s);
          done := true;
        }
      }
    }

    method AddReturn(nr: nat, ghost low: nat) returns (r: int)
      requires nr <= |stats| && low <= |body| && Stats(body, low, stats[|stats| - nr..])
      modifies this`body, this`stats
      ensures Grown(old(body), body) && stats == old(stats) + [r] && Stats(body, low, stats[|stats| - (nr + 1)..])
      ensures Comes(body, low, stats[|stats| - (nr + 1)..])
           == Comes(old(body), low, old(stats)[|old(stats)| - nr..]) + [r]
      ensures low < r && VoidReturn(body, r)
    {
      ghost var b, ss := body, stats[|stats| - nr..];
      r := CodeReturnVoid(low);
      GrownAbove(b, body, low);
      ComesSame(b, body, low, ss);
      ComesJoin(body, low, ss, r);
      assert stats[|stats| - (nr + 1)..] == ss + [r];
    }

    /** Packs statements from the seventh on into one if there are more than seven. */
    method PackLong(nr: nat, ghost low: nat) returns (n: nat)
      requires 1 <= nr <= |stats| && low <= |body| && Stats(body, low, stats[|stats| - nr..])
      modifies this`body, this`stats
      ensures Grown(old(body), body) && n <= |stats| && n == if nr <= 7 then nr else 7
      ensures stats[..|stats| - n] == old(stats)[..|old(stats)| - nr]
      ensures FirstOnes(old(stats)[|old(stats)| - nr..], stats[|stats| - n..])
      ensures Stats(body, low, stats[|stats| - n..])
      ensures Comes(body, low, stats[|stats| - n..]) == Comes(old(body), low, old(stats)[|old(stats)| - nr..])
    {
      n := nr;
      if 7 < nr {
        PackTail(nr, low);
        n := 7;
      }
    }

    method PackTail(nr: nat, ghost low: nat)
      requires 7 < nr <= |stats| && low <= |body| && Stats(body, low, stats[|stats| - nr..])
      modifies this`body, this`stats
      ensures Grown(old(body), body) && 7 <= |stats| && stats[..|stats| - 7] == old(stats)[..|old(stats)| - nr]
      ensures FirstOnes(old(stats)[|old(stats)| - nr..], stats[|stats| - 7..])
      ensures Stats(body, low, stats[|stats| - 7..])
      ensures Comes(body, low, stats[|stats| - 7..]) == Comes(old(body), low, old(stats)[|old(stats)| - nr..])
    {
      ghost var b, ss := body, stats[|stats| - nr..];
      ComesSplit(b, low, ss, 6);
      assert ss[6..] == stats[|stats| - (nr - 6)..];
      var s := PopSeqStat(nr - 6, low);
      GrownAbove(b, body, low);
      ComesSame(b, body, low, ss[..6]);
      ComesJoin(body, low, ss[..6], s);
      PushStat(s);
      assert stats[|stats| - 7..] == ss[..6] + [s];
    }

    /**
      Ends the body of a function: its statements go into the sequence that was allocated first. They
      come to the statements that were coded, in order, and end in a return.
     */
    method CodeFuncExprEnd(nr: nat, first: nat, ghost low: nat) returns (n: nat, ghost ret: seq<int>)
      requires 1 <= first && first + 8 <= low <= |body| && NodeAt(body, first, 8)
      requires nr <= |stats| && Stats(body, low, stats[|stats| - nr..])
      modifies this`body, this`stats
      ensures stats == old(stats)[..|old(stats)| - nr] && n == if nr + |ret| <= 7 then nr + |ret| else 7
      ensures NodeAt(body, first, n) && body[first - 1].tnum == Seq(n)
      ensures FirstOnes(old(stats)[|old(stats)| - nr..] + ret, Args(body, first, n))
      ensures Stats(body, low, Args(body, first, n))
      ensures var f := Comes(body, low, Args(body, first, n));
              && f == Comes(old(body), low, old(stats)[|old(stats)| - nr..]) + ret
              && |ret| <= 1 && f != [] && Returns(body, f[|f| - 1])
      ensures ret == [] <==> Ended(old(body), low, old(stats)[|old(stats)| - nr..])
      ensures forall s :: s in ret ==> low < s <= |body| && VoidReturn(body, s)
    {
      ghost var ss := stats[|stats| - nr..];
      n, ret := EndWithReturn(nr, low);
      FirstKept(old(body), body, first, low);
      assert stats[|stats| - n..] == ss + ret;
      ghost var b := body;
      n := CloseBody(n, first, low);
      assert forall s :: s in ret ==> VoidReturn(b, s);
    }

    /** The top nr statements go into the block at `first`, packed if there are more than seven. */
    method CloseBody(nr: nat, first: nat, ghost low: nat) returns (n: nat)
      requires 1 <= first && first + 8 <= low <= |body| && NodeAt(body, first, 8)
      requires 1 <= nr <= |stats| && Stats(body, low, stats[|stats| - nr..])
      requires var f := Comes(body, low, stats[|stats| - nr..]); f != [] && Returns(body, f[|f| - 1])
      modifies this`body, this`stats
      ensures SameAbove(old(body), body, low)
      ensures stats == old(stats)[..|old(stats)| - nr] && n == if nr <= 7 then nr else 7
      ensures NodeAt(body, first, n) && body[first - 1].tnum == Seq(n)
      ensures FirstOnes(old(stats)[|old(stats)| - nr..], Args(body, first, n))
      ensures Stats(body, low, Args(body, first, n))
      ensures var f := Comes(body, low, Args(body, first, n));
              f == Comes(old(body), low, old(stats)[|old(stats)| - nr..]) && f != [] && Returns(body, f[|f| - 1])
    {
      ghost var b1, ss1 := body, stats[|stats| - nr..];
      n := PackLong(nr, low);
      FirstKept(b1, body, first, low);
      GrownAbove(b1, body, low);
      ghost var b2, f := body, Comes(body, low, stats[|stats| - n..]);
      FillFirst(n, first, low);
      FlattenAllAbove(b1, low, ss1, |b1| + 1);
      ReturnKept(b1, b2, f[|f| - 1], low);
      ReturnKept(b2, body, f[|f| - 1], low);
    }

    /** The block at `first` gets the top n statements of the stack. */
    method FillFirst(n: nat, first: nat, ghost low: nat)
      requires 1 <= first && first + 8 <= low <= |body| && NodeAt(body, first, 8)
      requires 1 <= n <= 7 && n <= |stats| && Stats(body, low, stats[|stats| - n..])
      modifies this`body, this`stats
      ensures stats == old(stats)[..|old(stats)| - n] && NodeAt(body, first, n) && body[first - 1].tnum == Seq(n)
      ensures SameAbove(old(body), body, low) && Stats(body, low, Args(body, first, n))
      ensures Comes(body, low, Args(body, first, n)) == Comes(old(body), low, old(stats)[|old(stats)| - n..])
      ensures Args(body, first, n) == old(stats)[|old(stats)| - n..]
    {
      ghost var b, ss := body, stats[|stats| - n..];
      body := body[first - 1 := Head(Seq(n), n)];
      EnterStats(first, n);
      ComesSame(b, body, low, ss);
      assert Args(body, first, n) == ss;
    }
  }

  lemma {:induction false} UnaryCoded(b: seq<Cell>, e: int, tnum: Type)
    requires Good(b, e) && (tnum.Not? || tnum.AInv?)
    ensures var (b', e') := (b + [Head(tnum, 1), Data(e)], 8 * (|b| + 1));
            && Grown(b, b') && Good(b', e')
            && Decode(b', e') == if tnum.Not? then Negate(Decode(b, e)) else Inverse(Decode(b, e))
  {
    var b', k := b + [Head(tnum, 1), Data(e)], |b| + 1;
    assert Grown(b, b');
    NodeRef(k);
    DecodeGrown(b, b', e);
    RankWithin(b, e);
    assert b'[k - 1] == Head(tnum, 1) && b'[k] == Data(e);
  }

  lemma {:induction false} BinaryCoded(b: seq<Cell>, l: int, r: int, op: nat)
    requires Good(b, l) && Good(b, r)
    ensures var (b', e') := (b + [Head(Binary(op), 2), Data(l), Data(r)], 8 * (|b| + 1));
            Grown(b, b') && Good(b', e') && Decode(b', e') == Op(op, Decode(b, l), Decode(b, r))
  {
    var b', k := b + [Head(Binary(op), 2), Data(l), Data(r)], |b| + 1;
    assert Grown(b, b');
    NodeRef(k);
    DecodeGrown(b, b', l);
    DecodeGrown(b, b', r);
    RankWithin(b, l);
    RankWithin(b, r);
    assert b'[k - 1] == Head(Binary(op), 2) && b'[k] == Data(l) && b'[k + 1] == Data(r);
  }

  lemma {:induction false} NodeRef(k: nat)
    requires k >= 1
    ensures Rank(8 * k) == k && !IsIntExpr(8 * k) && !IsRefLVar(8 * k)
  {
  }

  lemma {:induction false} RankWithin(b: seq<Cell>, e: int)
    requires Good(b, e)
    ensures Rank(e) <= |b|
  {
  }

  /** The reference e stands for the expression t. */
  ghost predicate Stands(b: seq<Cell>, vs: seq<int>, e: int, t: Tree)
  {
    Good(b, e) && Known(vs, Decode(b, e)) && Resolve(vs, Decode(b, e)) == t
  }

  lemma {:induction false} StandsGrown(b: seq<Cell>, b': seq<Cell>, vs: seq<int>, vs': seq<int>, e: int, t: Tree)
    requires Stands(b, vs, e, t) && Grown(b, b') && vs <= vs'
    ensures Stands(b', vs', e, t)
  {
    DecodeGrown(b, b', e);
    ResolveGrown(vs, vs', Decode(b, e));
  }

  lemma {:induction false} UnaryStands(b: seq<Cell>, vs: seq<int>, e: int, t: Tree, tnum: Type)
    requires Stands(b, vs, e, t) && (tnum.Not? || tnum.AInv?)
    ensures var b' := b + [Head(tnum, 1), Data(e)];
            Grown(b, b') && Stands(b', vs, 8 * (|b| + 1), if tnum.Not? then Negate(t) else Inverse(t))
  {
    UnaryCoded(b, e, tnum);
  }

  lemma {:induction false} BinaryStands(b: seq<Cell>, vs: seq<int>, e1: int, l: Tree, e2: int, r: Tree, op: nat)
    requires Stands(b, vs, e1, l) && Stands(b, vs, e2, r)
    ensures var b' := b + [Head(Binary(op), 2), Data(e1), Data(e2)];
            Grown(b, b') && Stands(b', vs, 8 * (|b| + 1), Op(op, l, r))
  {
    BinaryCoded(b, e1, e2, op);
  }

  /** The code of an expression evaluates as the expression does. */
  lemma {:induction false} CodeEvaluates(s: Semantics, t: Expression, b: seq<Cell>, vs: seq<int>, e: int)
    requires Faithful(s) && Stands(b, vs, e, Fold(t))
    ensures Eval(s, vs, Decode(b, e)) == Eval(s, [], t)
  {
    FoldEval(s, [], t);
    ResolveEval(s, vs, Decode(b, e));
  }

  /** A fresh sequence node that holds the statements ss comes to these statements. */
  lemma {:induction false} Packed(b: seq<Cell>, b': seq<Cell>, low: nat, ss: seq<int>)
    requires low <= |b| && |ss| >= 1 && GoodAll(b, low, ss, |b| + 1) && |b'| == |b| + 1 + |ss|
    requires forall x :: 0 <= x < |b| ==> b'[x] == b[x]
    requires b'[|b|].Head? && b'[|b|].tnum.Seq? && b'[|b|].size == |ss| && GoodSeq(b'[|b|].tnum, |ss|)
    requires forall x {:trigger b'[x]} :: |b| + 1 <= x < |b'| ==> b'[x] == Data(ss[x - |b| - 1])
    ensures Grown(b, b') && GoodStat(b', low, |b| + 1)
    ensures Flatten(b', low, |b| + 1) == FlattenAll(b, low, ss, |b| + 1)
  {
    var k := |b| + 1;
    assert b'[..|b|] == b;
    FlattenAllSame(b, b', low, ss, k);
    assert Args(b', k, |ss|) == ss;
    PackedFlatten(b', low, k, ss);
  }

  lemma {:induction false} ReturnKept(b: seq<Cell>, b': seq<Cell>, s: int, low: nat)
    requires SameAbove(b, b', low) && low < s <= |b| && Returns(b, s)
    ensures Returns(b', s)
  {
  }

  lemma {:induction false} FirstKept(b: seq<Cell>, b': seq<Cell>, first: nat, low: nat)
    requires Grown(b, b') && 1 <= first && first + 8 <= |b| && NodeAt(b, first, 8)
    ensures NodeAt(b', first, 8)
  {
    GrownAbove(b, b', 0);
  }
}
