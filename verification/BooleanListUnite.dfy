/**
  Which of the five ways of uniting a boolean list with a sublist is taken; whichever it is, the same
  places are marked.
 */
module BooleanListUnite {
  import opened CopyBits
  import opened BooleanLists

  /** A list without holes: a range with increment 1, or the elements one by one. */
  datatype Whole = RangeWhole(first: int, n: nat) | ListWhole(s: seq<Obj>)

  /** A sublist: a range with increment 1, or elements one by one, in a plain list or in one of another kind. */
  datatype Sub = RangeSub(first: int, n: nat) | ListSub(items: seq<Elem>, plain: bool)

  function Elements(w: Whole): (s: seq<Obj>)
    ensures w.RangeWhole? ==> |s| == w.n
  {
    match w
    case RangeWhole(first, n) => RangeOf(first, n)
    case ListWhole(s) => s
  }

  function Items(s: Sub): (r: seq<Elem>)
    ensures |r| == if s.RangeSub? then s.n else |s.items|
  {
    match s
    case RangeSub(first, n) => seq(n, i => Item(Num(first + i)))
    case ListSub(items, _) => items
  }

  /** Each element is smaller than the next. */
  predicate IsSet(lt: Less, s: seq<Obj>)
  {
    |s| <= 1 || (lt(s[|s| - 2], s[|s| - 1]) && IsSet(lt, s[..|s| - 1]))
  }

  lemma {:induction false} IsSetAscending(lt: Less, s: seq<Obj>)
    requires Total(lt)
    ensures IsSet(lt, s) <==> Ascending(lt, s)
    decreases |s|
  {
    if |s| > 1 {
      var n := |s| - 1;
      IsSetAscending(lt, s[..n]);
      if IsSet(lt, s) {
        forall i, j | 0 <= i < j < |s|
          ensures lt(s[i], s[j])
        {
          assert i < n - 1 ==> lt(s[..n][i], s[..n][n - 1]);
          assert j < n ==> lt(s[..n][i], s[..n][j]);
        }
      }
    }
  }

  /** A list without holes, each element smaller than the next. */
  predicate IsSetOfItems(lt: Less, s: seq<Elem>)
  {
    |Things(s)| == |s| && IsSet(lt, Things(s))
  }

  /** Puts x where it belongs. */
  function With(lt: Less, s: seq<Obj>, x: Obj): (r: seq<Obj>)
    ensures forall y :: y in r <==> y in s || y == x
  {
    if s == [] then [x]
    else
      var n := |s| - 1;
      assert forall y :: y in s <==> y in s[..n] || y == s[n];
      if s[n] == x then s else if lt(s[n], x) then s + [x] else With(lt, s[..n], x) + [s[n]]
  }

  lemma {:induction false} WithAscending(lt: Less, s: seq<Obj>, x: Obj)
    requires Total(lt) && Ascending(lt, s)
    ensures Ascending(lt, With(lt, s, x))
    decreases |s|
  {
    if s != [] {
      var n := |s| - 1;
      if lt(s[n], x) {
        Below(lt, s, x, n);
      } else if s[n] != x {
        WithAscending(lt, s[..n], x);
        var r := With(lt, s[..n], x);
        forall i | 0 <= i < |r|
          ensures lt(r[i], s[n])
        {
          assert r[i] in r;
          assert r[i] in s[..n] || r[i] == x;
        }
      }
    }
  }

  /** The set of the elements, as a sorted list. */
  function SetList(lt: Less, s: seq<Obj>): (r: seq<Obj>)
    ensures forall y :: y in r <==> y in s
  {
    if s == [] then []
    else
      var n := |s| - 1;
      assert forall y :: y in s <==> y in s[..n] || y == s[n];
      With(lt, SetList(lt, s[..n]), s[n])
  }

  lemma {:induction false} SetListAscending(lt: Less, s: seq<Obj>)
    requires Total(lt)
    ensures Ascending(lt, SetList(lt, s))
    decreases |s|
  {
    if s != [] {
      SetListAscending(lt, s[..|s| - 1]);
      WithAscending(lt, SetList(lt, s[..|s| - 1]), s[|s| - 1]);
    }
  }

  lemma {:induction false} HitsSame(list: seq<Obj>, a: seq<Obj>, b: seq<Obj>)
    requires forall y :: y in a <==> y in b
    ensures Hits(list, a) == Hits(list, b)
  {
    forall g
      ensures g in Hits(list, a) <==> g in Hits(list, b)
    {
      if 0 <= g < |list| {
        var y: Obj := list[g];
        assert y in a <==> y in b;
      }
    }
  }

  lemma {:induction false} ThingsOfRange(first: int, n: nat)
    ensures Things(Items(RangeSub(first, n))) == RangeOf(first, n)
  {
    if n > 0 {
      ThingsOfRange(first, n - 1);
      var s := Items(RangeSub(first, n));
      assert s[..n - 1] == Items(RangeSub(first, n - 1));
    }
  }

  lemma {:induction false} NothingToMark(list: seq<Obj>, sub: seq<Elem>)
    requires list == [] || sub == []
    ensures Hits(list, Things(sub)) == {}
  {
  }

  /** The number of binary digits. */
  function BitLength(n: nat): (l: nat)
    ensures n < Power2(l) && (n > 0 ==> l > 0 && Power2(l - 1) <= n)
  {
    if n == 0 then 0 else 1 + BitLength(n / 2)
  }

  method Digits(n: nat) returns (l: nat)
    ensures l == BitLength(n)
  {
    var i := n;
    l := 0;
    while i != 0
      invariant 0 <= i <= n && l + BitLength(i) == BitLength(n)
    {
      i := i / 2;
      l := l + 1;
    }
  }

  /** The list is not a range, or sub is of no use as a range or plain list. */
  method UniteGeneral(blocks: array<Word>, lt: Less, list: seq<Obj>, sub: Sub)
    requires 0 < |list| <= W * blocks.Length && Total(lt)
    modifies blocks
    ensures Marked(old(blocks[..]), blocks[..], Hits(list, Things(Items(sub))))
  {
    var items := Items(sub);
    IsSetAscending(lt, list);
    if IsSet(lt, list) {
      var l := Digits(|list|);
      if l * |items| < 2 * |list| {
        UniteBySearch(blocks, lt, list, items);
        return;
      }
    }
    var s := Sorted(lt, sub);
    HitsSame(list, s, Things(items));
    if IsSet(lt, list) {
      UniteInParallel(blocks, lt, list, s);
    } else {
      UniteUnsorted(blocks, lt, list, s);
    }
  }

  /** The sublist as a set; a plain list that is one is taken as it is. */
  method Sorted(lt: Less, sub: Sub) returns (s: seq<Obj>)
    requires Total(lt)
    ensures Ascending(lt, s) && forall y :: y in s <==> y in Things(Items(sub))
  {
    s := Things(Items(sub));
    if !(sub.ListSub? && sub.plain && IsSetOfItems(lt, Items(sub))) {
      SetListAscending(lt, s);
      s := SetList(lt, s);
    } else {
      IsSetAscending(lt, s);
    }
  }

  /** Marks the places of the list whose elements lie in sub. */
  method Unite(blocks: array<Word>, lt: Less, list: Whole, sub: Sub)
    requires |Elements(list)| <= W * blocks.Length && Padded(blocks[..], |Elements(list)|) && Total(lt)
    modifies blocks
    ensures Marked(old(blocks[..]), blocks[..], Hits(Elements(list), Things(Items(sub))))
    ensures Padded(blocks[..], |Elements(list)|)
  {
    ghost var was, els, a := blocks[..], Elements(list), Hits(Elements(list), Things(Items(sub)));
    var n := |Elements(list)|;
    if n == 0 || |Items(sub)| == 0 {
      NothingToMark(els, Items(sub));
      MarkedNone(was);
    } else if list.RangeWhole? && sub.RangeSub? {
      ThingsOfRange(sub.first, sub.n);
      UniteRangeRange(blocks, list.first, list.n, sub.first, sub.n);
    } else if list.RangeWhole? && sub.plain {
      UniteListInRange(blocks, list.first, list.n, sub.items);
    } else {
      UniteGeneral(blocks, lt, Elements(list), sub);
    }
    PaddedMarked(was, blocks[..], a, n);
  }
}
