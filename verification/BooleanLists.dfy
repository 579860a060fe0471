/**
  Boolean lists, packed into words, and the routine that marks those places of a list whose
  elements lie in another one. It has five ways of doing this; all of them do the same.
 */
module BooleanLists {
  import opened CopyBits

  /** The word with one bit set. */
  function OneBit(i: nat): (r: Word)
    requires i < W
    ensures forall j :: 0 <= j < W ==> r[j] == (j == i)
  {
    Mask(i, i)
  }

  /** now is was with the bits at the places in a set. */
  ghost predicate Marked(was: seq<Word>, now: seq<Word>, a: set<int>)
    requires |was| == |now|
  {
    forall g {:trigger Bit(now, g)} :: 0 <= g < W * |now| ==> Bit(now, g) == (Bit(was, g) || g in a)
  }

  lemma {:induction false} MarkedNone(b: seq<Word>)
    ensures Marked(b, b, {})
  {
  }

  lemma {:induction false} MarkedThen(a: seq<Word>, b: seq<Word>, c: seq<Word>, s: set<int>, t: set<int>)
    requires |a| == |b| == |c| && Marked(a, b, s) && Marked(b, c, t)
    ensures Marked(a, c, s + t)
  {
    forall g | 0 <= g < W * |c|
      ensures Bit(c, g) == (Bit(a, g) || g in s + t)
    {
      assert Bit(b, g) == (Bit(a, g) || g in s);
    }
  }

  /** Places k .. j - 1. */
  ghost function Places(k: int, j: int): (r: set<int>)
    ensures forall g :: g in r <==> k <= g < j
    decreases j - k
  {
    if j <= k then {} else Places(k, j - 1) + {j - 1}
  }

  method SetBit(blocks: array<Word>, k: nat)
    requires k < W * blocks.Length
    modifies blocks
    ensures Marked(old(blocks[..]), blocks[..], {k})
  {
    ghost var was := blocks[..];
    blocks[k / W] := Or(blocks[k / W], OneBit(k % W));
    forall g | 0 <= g < W * |was|
      ensures Bit(blocks[..], g) == (Bit(was, g) || g in {k})
    {
      assert g == W * (g / W) + g % W && k == W * (k / W) + k % W;
    }
  }

  method SetBlock(blocks: array<Word>, i: nat)
    requires i < blocks.Length
    modifies blocks
    ensures Marked(old(blocks[..]), blocks[..], Places(W * i, W * i + W))
  {
    ghost var was := blocks[..];
    blocks[i] := Mask(0, W - 1);
    forall g | 0 <= g < W * |was|
      ensures Bit(blocks[..], g) == (Bit(was, g) || g in Places(W * i, W * i + W))
    {
      assert g == W * (g / W) + g % W;
    }
  }

  // ----- a range in a range

  method SetBits(blocks: array<Word>, first: nat, j: nat, ghost was: seq<Word>, ghost i: nat)
    requires i <= first <= j <= W * blocks.Length && |was| == blocks.Length && Marked(was, blocks[..], Places(i, first))
    modifies blocks
    ensures Marked(was, blocks[..], Places(i, j))
  {
    var k := first;
    while k < j
      invariant first <= k <= j && Marked(was, blocks[..], Places(i, k))
    {
      ghost var b := blocks[..];
      SetBit(blocks, k);
      MarkedThen(was, b, blocks[..], Places(i, k), {k});
      assert Places(i, k) + {k} == Places(i, k + 1);
      k := k + 1;
    }
  }

  /** Sets the bits i .. j - 1, whole blocks at a time. */
  method SetRange(blocks: array<Word>, i: nat, j: nat)
    requires i <= j <= W * blocks.Length
    modifies blocks
    ensures Marked(old(blocks[..]), blocks[..], Places(i, j))
  {
    ghost var was := blocks[..];
    MarkedNone(was);
    assert Places(i, i) == {};
    var k := i;
    while k < j && k % W != 0
      invariant i <= k <= j && Marked(was, blocks[..], Places(i, k))
    {
      ghost var b := blocks[..];
      SetBit(blocks, k);
      MarkedThen(was, b, blocks[..], Places(i, k), {k});
      assert Places(i, k) + {k} == Places(i, k + 1);
      k := k + 1;
    }
    k := SetBlocks(blocks, k, j, was, i);
    SetBits(blocks, k, j, was, i);
  }

  /** Sets whole blocks, leaving less than a block and one bit. */
  method SetBlocks(blocks: array<Word>, first: nat, j: nat, ghost was: seq<Word>, ghost i: nat) returns (k: nat)
    requires i <= first <= j <= W * blocks.Length && |was| == blocks.Length && (first < j ==> first % W == 0)
    requires Marked(was, blocks[..], Places(i, first))
    modifies blocks
    ensures first <= k <= j && Marked(was, blocks[..], Places(i, k))
  {
    k := first;
    while k + W < j
      invariant first <= k <= j && (k < j ==> k % W == 0) && Marked(was, blocks[..], Places(i, k))
    {
      ghost var b := blocks[..];
      SetBlock(blocks, k / W);
      MarkedThen(was, b, blocks[..], Places(i, k), Places(k, k + W));
      assert Places(i, k) + Places(k, k + W) == Places(i, k + W);
      k := k + W;
    }
  }

  // ----- elements and their order

  /** Elements of lists: small integers, and objects of any other kind. */
  datatype Obj = Num(i: int) | Thing(id: int)

  /** An order of the elements. */
  type Less = (Obj, Obj) -> bool

  /** The order is total, and it orders integers by size. */
  ghost predicate Total(lt: Less)
  {
    && (forall x, y {:trigger lt(x, y)} :: lt(x, y) ==> x != y && !lt(y, x))
    && (forall x, y {:trigger lt(x, y)} :: x == y || lt(x, y) || lt(y, x))
    && (forall x, y, z {:trigger lt(x, y), lt(y, z)} :: lt(x, y) && lt(y, z) ==> lt(x, z))
    && (forall i, j {:trigger lt(Num(i), Num(j))} :: lt(Num(i), Num(j)) <==> i < j)
  }

  ghost predicate Ascending(lt: Less, s: seq<Obj>)
  {
    forall i, j :: 0 <= i < j < |s| ==> lt(s[i], s[j])
  }

  // ----- what is to be done

  /** The places of the list whose elements lie in sub. */
  ghost function Hits(list: seq<Obj>, sub: seq<Obj>): (r: set<int>)
    ensures forall g :: g in r <==> 0 <= g < |list| && list[g] in sub
  {
    set g | 0 <= g < |list| && list[g] in sub
  }

  function RangeOf(first: int, n: nat): (r: seq<Obj>)
    ensures |r| == n && forall i :: 0 <= i < n ==> r[i] == Num(first + i)
  {
    if n == 0 then [] else RangeOf(first, n - 1) + [Num(first + n - 1)]
  }

  method UniteRangeRange(blocks: array<Word>, s: int, lenList: nat, t: int, lenSub: nat)
    requires lenList <= W * blocks.Length && lenList > 0 && lenSub > 0
    modifies blocks
    ensures Marked(old(blocks[..]), blocks[..], Hits(RangeOf(s, lenList), RangeOf(t, lenSub)))
  {
    var i := t - s;
    var j := lenSub + i;
    if i < 0 {
      i := 0;
    }
    if j > lenList {
      j := lenList;
    }
    RangeHits(s, lenList, t, lenSub);
    MarkedNone(blocks[..]);
    if i < j {
      SetRange(blocks, i, j);
    }
  }

  lemma {:induction false} RangeHits(s: int, n: nat, t: int, m: nat)
    ensures Hits(RangeOf(s, n), RangeOf(t, m)) ==
            Places(if t < s then 0 else t - s, if m + t - s > n then n else m + t - s)
  {
    var h := Hits(RangeOf(s, n), RangeOf(t, m));
    forall g
      ensures g in h <==> 0 <= g < n && t <= s + g < t + m
    {
      InRange(t, m, Num(s + g));
    }
  }

  lemma {:induction false} InRange(t: int, m: nat, x: Obj)
    ensures x in RangeOf(t, m) <==> x.Num? && t <= x.i < t + m
  {
    if x.Num? && t <= x.i < t + m {
      assert RangeOf(t, m)[x.i - t] == x;
    }
  }

  // ----- a list in a range

  /** A place in a list may be empty. */
  datatype Elem = Hole | Item(x: Obj)

  /** The elements of a list, without its holes. */
  function Things(sub: seq<Elem>): seq<Obj>
  {
    if sub == [] then []
    else
      var r, x := Things(sub[..|sub| - 1]), sub[|sub| - 1];
      if x.Item? then r + [x.x] else r
  }

  lemma {:induction false} HitsSnoc(list: seq<Obj>, s: seq<Obj>, x: Obj, a: set<int>)
    requires forall g :: g in a <==> 0 <= g < |list| && list[g] == x
    ensures Hits(list, s + [x]) == Hits(list, s) + a
  {
  }

  /** One more element of sub has been dealt with. */
  lemma {:induction false} ThingsSnoc(sub: seq<Elem>, l: nat)
    requires l < |sub|
    ensures Things(sub[..l + 1]) == if sub[l].Item? then Things(sub[..l]) + [sub[l].x] else Things(sub[..l])
  {
    assert sub[..l + 1][..l] == sub[..l];
  }

  method UniteListInRange(blocks: array<Word>, s: int, lenList: nat, sub: seq<Elem>)
    requires lenList <= W * blocks.Length
    modifies blocks
    ensures Marked(old(blocks[..]), blocks[..], Hits(RangeOf(s, lenList), Things(sub)))
  {
    ghost var was, list := blocks[..], RangeOf(s, lenList);
    MarkedNone(was);
    assert Hits(list, Things(sub[..0])) == {};
    var l := 0;
    while l < |sub|
      invariant 0 <= l <= |sub| && Marked(was, blocks[..], Hits(list, Things(sub[..l])))
    {
      TakeInRange(blocks, s, lenList, sub, l, was, list);
      l := l + 1;
    }
    assert sub[..|sub|] == sub;
  }

  /** Deals with place l of sub. */
  method TakeInRange(blocks: array<Word>, s: int, lenList: nat, sub: seq<Elem>, l: nat, ghost was: seq<Word>,
                     ghost list: seq<Obj>)
    requires lenList <= W * blocks.Length && |was| == blocks.Length && list == RangeOf(s, lenList) && l < |sub|
    requires Marked(was, blocks[..], Hits(list, Things(sub[..l])))
    modifies blocks
    ensures Marked(was, blocks[..], Hits(list, Things(sub[..l + 1])))
  {
    ThingsSnoc(sub, l);
    if sub[l].Item? {
      PutInRange(blocks, s, lenList, sub[l].x, was, list, Things(sub[..l]));
    }
  }

  /** Marks the place of one element, if it is an integer in the range. */
  method PutInRange(blocks: array<Word>, s: int, lenList: nat, x: Obj, ghost was: seq<Word>, ghost list: seq<Obj>,
                    ghost r: seq<Obj>)
    requires lenList <= W * blocks.Length && |was| == blocks.Length && list == RangeOf(s, lenList)
    requires Marked(was, blocks[..], Hits(list, r))
    modifies blocks
    ensures Marked(was, blocks[..], Hits(list, r + [x]))
  {
    ghost var b := blocks[..];
    if x.Num? {
      var t := x.i - s + 1;
      if 0 < t <= lenList {
        SetBit(blocks, t - 1);
        MarkedThen(was, b, blocks[..], Hits(list, r), {t - 1});
        HitsSnoc(list, r, x, {t - 1});
        return;
      }
    }
    HitsSnoc(list, r, x, {});
    assert Hits(list, r) + {} == Hits(list, r);
  }

  // ----- a list in a set, by binary search

  /** Before k elements are smaller than x, from k on they are not. */
  ghost predicate Parts(lt: Less, s: seq<Obj>, x: Obj, k: nat)
  {
    k <= |s| && (forall i :: 0 <= i < k ==> lt(s[i], x)) && (forall i :: k <= i < |s| ==> !lt(s[i], x))
  }

  /** Binary search; places count from 0, where the source counts from 1. */
  method BinarySearch(lt: Less, s: seq<Obj>, x: Obj) returns (k: nat)
    requires Total(lt) && Ascending(lt, s)
    ensures Parts(lt, s, x, k)
  {
    var i, h := 0, |s| + 1;
    while i + 1 < h
      invariant 0 <= i < h <= |s| + 1
      invariant forall y :: 0 <= y < i ==> lt(s[y], x)
      invariant forall y :: h - 1 <= y < |s| ==> !lt(s[y], x)
    {
      var j := (i + h) / 2;
      if lt(s[j - 1], x) {
        Below(lt, s, x, j - 1);
        i := j;
      } else {
        Above(lt, s, x, j - 1);
        h := j;
      }
    }
    k := h - 1;
  }

  lemma {:induction false} Below(lt: Less, s: seq<Obj>, x: Obj, j: nat)
    requires Total(lt) && Ascending(lt, s) && j < |s| && lt(s[j], x)
    ensures forall y :: 0 <= y <= j ==> lt(s[y], x)
  {
    forall y | 0 <= y <= j
      ensures lt(s[y], x)
    {
      assert y < j ==> lt(s[y], s[j]);
    }
  }

  lemma {:induction false} Above(lt: Less, s: seq<Obj>, x: Obj, j: nat)
    requires Total(lt) && Ascending(lt, s) && j < |s| && !lt(s[j], x)
    ensures forall y :: j <= y < |s| ==> !lt(s[y], x)
  {
    forall y | j <= y < |s|
      ensures !lt(s[y], x)
    {
      assert y > j ==> lt(s[j], s[y]);
    }
  }

  /** Where x stands in an ascending list, if it does. */
  lemma {:induction false} PartsFound(lt: Less, s: seq<Obj>, x: Obj, k: nat)
    requires Total(lt) && Ascending(lt, s) && Parts(lt, s, x, k)
    ensures x in s <==> k < |s| && s[k] == x
    ensures forall g :: 0 <= g < |s| && s[g] == x ==> g == k
  {
    forall g | 0 <= g < |s| && g != k
      ensures s[g] != x
    {
      if g < k {
        assert lt(s[g], x);
      } else {
        assert lt(s[k], s[g]);
      }
    }
  }

  method UniteBySearch(blocks: array<Word>, lt: Less, list: seq<Obj>, sub: seq<Elem>)
    requires |list| <= W * blocks.Length && Total(lt) && Ascending(lt, list)
    modifies blocks
    ensures Marked(old(blocks[..]), blocks[..], Hits(list, Things(sub)))
  {
    ghost var was := blocks[..];
    MarkedNone(was);
    assert Hits(list, Things(sub[..0])) == {};
    var l := 0;
    while l < |sub|
      invariant 0 <= l <= |sub| && Marked(was, blocks[..], Hits(list, Things(sub[..l])))
    {
      ThingsSnoc(sub, l);
      if sub[l].Item? {
        PutBySearch(blocks, lt, list, sub[l].x, was, Things(sub[..l]));
      }
      l := l + 1;
    }
    assert sub[..|sub|] == sub;
  }

  /** Marks the place of one element, if the list has it. */
  method PutBySearch(blocks: array<Word>, lt: Less, list: seq<Obj>, x: Obj, ghost was: seq<Word>, ghost r: seq<Obj>)
    requires |list| <= W * blocks.Length && |was| == blocks.Length && Total(lt) && Ascending(lt, list)
    requires Marked(was, blocks[..], Hits(list, r))
    modifies blocks
    ensures Marked(was, blocks[..], Hits(list, r + [x]))
  {
    ghost var b := blocks[..];
    var k := BinarySearch(lt, list, x);
    PartsFound(lt, list, x, k);
    if k < |list| && list[k] == x {
      SetBit(blocks, k);
      MarkedThen(was, b, blocks[..], Hits(list, r), {k});
      HitsSnoc(list, r, x, {k});
    } else {
      HitsSnoc(list, r, x, {});
      assert Hits(list, r) + {} == Hits(list, r);
    }
  }

  // ----- running over both lists, a block at a time

  /** The places before m whose elements lie in sub. */
  ghost function HitsBelow(list: seq<Obj>, sub: seq<Obj>, m: int): (r: set<int>)
    ensures forall g :: g in r <==> 0 <= g < |list| && g < m && list[g] in sub
  {
    set g | 0 <= g < |list| && g < m && list[g] in sub
  }

  /** Places before base are marked; those from base on, before l, are noted in the block. */
  ghost predicate Noted(was: seq<Word>, now: seq<Word>, list: seq<Obj>, sub: seq<Obj>, base: nat, block: Word, l: nat)
  {
    && |was| == |now| && base % W == 0 && base <= l <= |list| <= W * |now| && l < base + W
    && Marked(was, now, HitsBelow(list, sub, base))
    && forall i :: 0 <= i < W ==> block[i] == (base + i < l && list[base + i] in sub)
  }

  method Flush(blocks: array<Word>, bi: nat, block: Word, ghost a: set<int>)
    requires bi < blocks.Length && forall g :: g in a <==> W * bi <= g < W * bi + W && block[g - W * bi]
    modifies blocks
    ensures Marked(old(blocks[..]), blocks[..], a)
  {
    ghost var was := blocks[..];
    blocks[bi] := Or(blocks[bi], block);
    forall g | 0 <= g < W * |was|
      ensures Bit(blocks[..], g) == (Bit(was, g) || g in a)
    {
      assert g == W * (g / W) + g % W;
    }
  }

  /** Notes whether element l lies in sub; a full block, or the last one, is added to the list. */
  method Note(blocks: array<Word>, list: seq<Obj>, ghost sub: seq<Obj>, base: nat, block: Word, l: nat, found: bool,
              ghost was: seq<Word>)
      returns (base': nat, block': Word)
    requires Noted(was, blocks[..], list, sub, base, block, l) && l < |list| && found == (list[l] in sub)
    modifies blocks
    ensures if l + 1 < |list| then Noted(was, blocks[..], list, sub, base', block', l + 1)
            else Marked(was, blocks[..], Hits(list, sub))
  {
    base', block' := base, block;
    if found {
      block' := Or(block, OneBit(l - base));
    }
    if l + 1 == base + W || l + 1 == |list| {
      ghost var b, a := blocks[..], HitsBelow(list, sub, l + 1) - HitsBelow(list, sub, base);
      Flush(blocks, base / W, block', a);
      MarkedThen(was, b, blocks[..], HitsBelow(list, sub, base), a);
      assert HitsBelow(list, sub, base) + a == HitsBelow(list, sub, l + 1);
      if l + 1 == |list| {
        assert HitsBelow(list, sub, l + 1) == Hits(list, sub);
      }
      base', block' := base + W, Mask(1, 0);
    }
  }

  /** The elements of sub before k are not larger than x. */
  ghost predicate Passed(lt: Less, sub: seq<Obj>, k: nat, x: Obj)
  {
    k <= |sub| && forall i :: 0 <= i < k ==> !lt(x, sub[i])
  }

  lemma {:induction false} PassedOn(lt: Less, sub: seq<Obj>, k: nat, x: Obj, y: Obj)
    requires Total(lt) && Passed(lt, sub, k, x) && lt(x, y)
    ensures forall i :: 0 <= i < k ==> lt(sub[i], y)
  {
    forall i | 0 <= i < k
      ensures lt(sub[i], y)
    {
      var z := sub[i];
      assert z == x || lt(z, x) || lt(x, z);
    }
  }

  /** Goes on in sub to the first element that is not smaller than x. */
  method Advance(lt: Less, sub: seq<Obj>, first: nat, x: Obj) returns (k: nat)
    requires Total(lt) && Ascending(lt, sub) && first <= |sub| && forall i :: 0 <= i < first ==> lt(sub[i], x)
    ensures Parts(lt, sub, x, k)
  {
    k := first;
    while k < |sub| && lt(sub[k], x)
      invariant k <= |sub| && forall i :: 0 <= i < k ==> lt(sub[i], x)
    {
      k := k + 1;
    }
    if k < |sub| {
      Above(lt, sub, x, k);
    }
  }

  /** Whether x stands at place k, and the elements of sub up to there are not larger than x. */
  method Compare(lt: Less, sub: seq<Obj>, k: nat, x: Obj) returns (found: bool)
    requires Total(lt) && Ascending(lt, sub) && Parts(lt, sub, x, k)
    ensures found == (x in sub) && (found ==> k < |sub|) && Passed(lt, sub, if found then k + 1 else k, x)
  {
    PartsFound(lt, sub, x, k);
    found := k < |sub| && sub[k] == x;
  }

  /** The list is a set: both lists are run through in parallel. */
  method UniteInParallel(blocks: array<Word>, lt: Less, list: seq<Obj>, sub: seq<Obj>)
    requires 0 < |list| <= W * blocks.Length && Total(lt) && Ascending(lt, list) && Ascending(lt, sub)
    modifies blocks
    ensures Marked(old(blocks[..]), blocks[..], Hits(list, sub))
  {
    ghost var was := blocks[..];
    MarkedNone(was);
    assert HitsBelow(list, sub, 0) == {};
    var k, base, block := 0, 0, Mask(1, 0);
    var l := 0;
    while l < |list|
      invariant 0 <= l <= |list| && 0 <= k <= |sub|
      invariant l < |list| ==>
                 (forall i :: 0 <= i < k ==> lt(sub[i], list[l])) && Noted(was, blocks[..], list, sub, base, block, l)
      invariant l == |list| ==> Marked(was, blocks[..], Hits(list, sub))
    {
      k := Advance(lt, sub, k, list[l]);
      var found := Compare(lt, sub, k, list[l]);
      if found {
        k := k + 1;
      }
      if l + 1 < |list| {
        PassedOn(lt, sub, k, list[l], list[l + 1]);
      }
      base, block := Note(blocks, list, sub, base, block, l, found, was);
      l := l + 1;
    }
  }

  /** The list is not a set: where it ascends, sub is run through; where not, it is searched. */
  method UniteUnsorted(blocks: array<Word>, lt: Less, list: seq<Obj>, sub: seq<Obj>)
    requires 0 < |list| <= W * blocks.Length && Total(lt) && Ascending(lt, sub)
    modifies blocks
    ensures Marked(old(blocks[..]), blocks[..], Hits(list, sub))
  {
    ghost var was := blocks[..];
    MarkedNone(was);
    assert HitsBelow(list, sub, 0) == {};
    var k, base, block := 0, 0, Mask(1, 0);
    var l := 0;
    while l < |list|
      invariant 0 <= l <= |list| && 0 <= k <= |sub|
      invariant l == 0 ==> k == 0
      invariant l > 0 ==> Passed(lt, sub, k, list[l - 1])
      invariant l < |list| ==> Noted(was, blocks[..], list, sub, base, block, l)
      invariant l == |list| ==> Marked(was, blocks[..], Hits(list, sub))
    {
      if l == 0 || lt(list[l - 1], list[l]) {
        if l > 0 {
          PassedOn(lt, sub, k, list[l - 1], list[l]);
        }
        k := Advance(lt, sub, k, list[l]);
      } else {
        k := BinarySearch(lt, sub, list[l]);
      }
      var found := Compare(lt, sub, k, list[l]);
      if found {
        k := k + 1;
      }
      base, block := Note(blocks, list, sub, base, block, l, found, was);
      l := l + 1;
    }
  }

  // ----- unused bits, and equality

  /** Bits that do not belong to the list are zero. */
  ghost predicate Padded(b: seq<Word>, len: nat)
  {
    len <= W * |b| && forall g {:trigger Bit(b, g)} :: len <= g < W * |b| ==> !Bit(b, g)
  }

  /** Marking places of the list keeps unused bits zero. */
  lemma {:induction false} PaddedMarked(was: seq<Word>, now: seq<Word>, a: set<int>, len: nat)
    requires |was| == |now| && Marked(was, now, a) && Padded(was, len) && forall g :: g in a ==> 0 <= g < len
    ensures Padded(now, len)
  {
    forall g | len <= g < W * |now|
      ensures !Bit(now, g)
    {
      assert !Bit(was, g);
    }
  }

  /** The elements of a boolean list. */
  ghost function Contents(b: seq<Word>, len: nat): (r: seq<bool>)
    requires len <= W * |b|
    ensures |r| == len && forall g :: 0 <= g < len ==> r[g] == Bit(b, g)
  {
    if len == 0 then [] else Contents(b, len - 1) + [Bit(b, len - 1)]
  }

  /** Compares two boolean lists of the same length blockwise, as far as they have blocks in use. */
  method EqualBlocks(a: array<Word>, b: array<Word>, len: nat) returns (eq: bool)
    requires Padded(a[..], len) && Padded(b[..], len)
    ensures eq <==> Contents(a[..], len) == Contents(b[..], len)
  {
    var n := (len + W - 1) / W;
    var i := 0;
    while i < n
      invariant 0 <= i <= n && forall x :: 0 <= x < i ==> a[x] == b[x]
    {
      if a[i] != b[i] {
        BlocksDiffer(a[..], b[..], len, i);
        return false;
      }
      i := i + 1;
    }
    forall g | 0 <= g < len
      ensures Bit(a[..], g) == Bit(b[..], g)
    {
      assert a[g / W] == b[g / W];
    }
    eq := true;
  }

  lemma {:induction false} BlocksDiffer(a: seq<Word>, b: seq<Word>, len: nat, i: nat)
    requires Padded(a, len) && Padded(b, len) && i < |a| && i < |b| && a[i] != b[i]
    ensures Contents(a, len) != Contents(b, len)
  {
    var j :| 0 <= j < W && a[i][j] != b[i][j];
    var g := W * i + j;
    assert g / W == i && g % W == j;
    assert Bit(a, g) != Bit(b, g);
    if g < len {
      assert Contents(a, len)[g] != Contents(b, len)[g];
    }
  }

  /** Inverts all elements, or sets them all: the bits beyond the list stay zero. */
  method FlipOrSetAll(b: array<Word>, len: nat, flip: bool)
    requires len > 0 && Padded(b[..], len)
    modifies b
    ensures Padded(b[..], len)
    ensures forall g {:trigger Bit(b[..], g)} :: 0 <= g < len ==> Bit(b[..], g) == (flip ==> !old(Bit(b[..], g)))
  {
    ghost var was := b[..];
    var n := (len + W - 1) / W;
    var i := 0;
    while i < n
      invariant 0 <= i <= n
      invariant forall x :: 0 <= x < i ==> b[x] == if flip then Not(was[x]) else Mask(0, W - 1)
      invariant forall x :: i <= x < b.Length ==> b[x] == was[x]
    {
      b[i] := if flip then Not(b[i]) else Mask(0, W - 1);
      i := i + 1;
    }
    ghost var all := b[..];
    var mask := ShiftRight(Mask(0, W - 1), W * n - len);
    b[n - 1] := And(b[n - 1], mask);
    AllDone(was, all, b[..], len, n, mask, flip);
  }

  lemma {:induction false} AllDone(was: seq<Word>, all: seq<Word>, now: seq<Word>, len: nat, n: nat, mask: Word,
                                   flip: bool)
    requires len > 0 && Padded(was, len) && n == (len + W - 1) / W && |was| == |all|
    requires forall x :: 0 <= x < n ==> all[x] == if flip then Not(was[x]) else Mask(0, W - 1)
    requires forall x :: n <= x < |was| ==> all[x] == was[x]
    requires mask == ShiftRight(Mask(0, W - 1), W * n - len) && now == all[n - 1 := And(all[n - 1], mask)]
    ensures Padded(now, len)
    ensures forall g {:trigger Bit(now, g)} :: 0 <= g < len ==> Bit(now, g) == (flip ==> !Bit(was, g))
  {
    forall g | 0 <= g < W * |now|
      ensures Bit(now, g) == (g < len && (flip ==> !Bit(was, g)))
    {
      var x, j := g / W, g % W;
      assert g == W * x + j;
      if x < n - 1 {
        assert now[x] == all[x];
      } else if x >= n {
        assert now[x] == was[x] && !Bit(was, g);
      }
    }
  }

  // ----- changing the representation in place

  /** A word of a bag: a block of a boolean list, or an entry of a plain list. */
  datatype Mem = Block(w: Word) | Entry(b: bool)

  /** Words 1 .. of the bag hold the blocks of a boolean list of this length. */
  ghost predicate HoldsBlocks(m: seq<Mem>, len: nat)
  {
    (len + W - 1) / W < |m| && forall x :: 1 <= x <= (len + W - 1) / W ==> m[x].Block?
  }

  ghost function ElementAt(m: seq<Mem>, g: nat): bool
    requires 1 + g / W < |m| && m[1 + g / W].Block?
  {
    m[1 + g / W].w[g % W]
  }

  /** Replaces blocks by entries, from the end backwards: no block is overwritten before it has been read. */
  method PlainInPlace(m: array<Mem>, len: nat)
    requires len < m.Length && HoldsBlocks(m[..], len)
    modifies m
    ensures Expanded(old(m[..]), m[..], len)
  {
    ghost var was := m[..];
    var i := len;
    while i > 0
      invariant 0 <= i <= len
      invariant forall x :: 0 <= x <= i ==> m[x] == was[x]
      invariant forall x :: i < x <= len ==> m[x] == Entry(ElementAt(was, x - 1))
    {
      var block := m[1 + (i - 1) / W];
      m[i] := Entry(block.w[(i - 1) % W]);
      i := i - 1;
    }
  }

  /** The entries before i of a block are packed. */
  ghost predicate Gathered(was: seq<Mem>, block: Word, base: nat, i: nat)
    requires i < |was|
  {
    forall j :: 0 <= j < W ==> block[j] == (base + j < i && was[base + j + 1] == Entry(true))
  }

  /** The first bi blocks are packed. */
  ghost predicate PackedTo(was: seq<Mem>, now: seq<Mem>, len: nat, bi: nat)
    requires len < |was| == |now|
  {
    bi < |now| && forall x :: 1 <= x <= bi ==>
        now[x].Block? && Gathered(was, now[x].w, W * (x - 1), if W * x < len then W * x else len)
  }

  /** Packs entries into blocks, forwards: no entry is overwritten before it has been read. */
  method ConvInPlace(m: array<Mem>, len: nat)
    requires len < m.Length && forall x :: 1 <= x <= len ==> m[x].Entry?
    modifies m
    ensures Compacted(old(m[..]), m[..], len)
  {
    ghost var was := m[..];
    var block, bi, i := Mask(1, 0), 0, 0;
    while i < len
      invariant 0 <= i <= len && 0 <= bi && PackedTo(was, m[..], len, bi)
      invariant i < len ==> W * bi <= i < W * bi + W && Gathered(was, block, W * bi, i)
      invariant i == len ==> bi == (len - 1) / W + 1
      invariant forall x :: i < x <= len ==> m[x] == was[x]
    {
      ghost var b := m[..];
      block := Gather(block, i - W * bi, m[i + 1] == Entry(true));
      i := i + 1;
      assert Gathered(was, block, W * bi, i);
      if i == W * bi + W || i == len {
        m[1 + (i - 1) / W] := Block(block);
        PackedMore(was, b, m[..], len, bi, block, i);
        block, bi := Mask(1, 0), bi + 1;
      }
    }
    ConvDone(was, m[..], len);
  }

  method Gather(block: Word, j: nat, on: bool) returns (r: Word)
    requires j < W && !block[j]
    ensures forall x :: 0 <= x < W ==> r[x] == if x == j then on else block[x]
  {
    r := block;
    if on {
      r := Or(block, OneBit(j));
    }
  }

  lemma {:induction false} PackedMore(was: seq<Mem>, b: seq<Mem>, c: seq<Mem>, len: nat, bi: nat, block: Word, i: nat)
    requires len < |was| == |b| == |c| && PackedTo(was, b, len, bi) && 0 < i <= len && W * bi < i <= W * bi + W
    requires (i == W * bi + W || i == len) && Gathered(was, block, W * bi, i)
    requires c == b[bi + 1 := Block(block)]
    ensures PackedTo(was, c, len, bi + 1)
  {
    forall x | 1 <= x <= bi + 1
      ensures c[x].Block? && Gathered(was, c[x].w, W * (x - 1), if W * x < len then W * x else len)
    {
      if x <= bi {
        assert c[x] == b[x];
      }
    }
  }

  lemma {:induction false} ConvDone(was: seq<Mem>, now: seq<Mem>, len: nat)
    requires |was| == |now| && len < |was| && forall x :: 1 <= x <= len ==> was[x].Entry?
    requires PackedTo(was, now, len, (len - 1) / W + 1)
    ensures Compacted(was, now, len)
  {
    forall g | 0 <= g < W * ((len - 1) / W + 1)
      ensures 1 + g / W < |now| && now[1 + g / W].Block? && ElementAt(now, g) == (g < len && was[g + 1] == Entry(true))
    {
      var x, j := 1 + g / W, g % W;
      assert g == W * (x - 1) + j;
      assert Gathered(was, now[x].w, W * (x - 1), if W * x < len then W * x else len);
    }
  }

  /** What `PlainInPlace` leaves of the blocks m: entries p. */
  ghost predicate Expanded(m: seq<Mem>, p: seq<Mem>, len: nat)
  {
    && len < |m| == |p| && HoldsBlocks(m, len)
    && forall i :: 1 <= i <= len ==> p[i] == Entry(ElementAt(m, i - 1))
  }

  /** What `ConvInPlace` leaves of the entries p: blocks q, with zeros behind the last element. */
  ghost predicate Compacted(p: seq<Mem>, q: seq<Mem>, len: nat)
  {
    && len < |p| == |q| && HoldsBlocks(q, len)
    && (forall i :: 1 <= i <= len ==> p[i] == Entry(ElementAt(q, i - 1)))
    && PaddedBlocks(q, len)
  }

  ghost predicate PaddedBlocks(q: seq<Mem>, len: nat)
    requires HoldsBlocks(q, len)
  {
    forall g {:trigger ElementAt(q, g)} :: len <= g < W * ((len + W - 1) / W) ==> !ElementAt(q, g)
  }

  /** Entries that are packed and unpacked are the old entries. */
  lemma {:induction false} PlainAfterConv(p: seq<Mem>, q: seq<Mem>, r: seq<Mem>, len: nat)
    requires Compacted(p, q, len) && Expanded(q, r, len)
    ensures r[1..len + 1] == p[1..len + 1]
  {
    forall i | 1 <= i <= len
      ensures r[i] == p[i]
    {
      assert p[i] == Entry(ElementAt(q, i - 1));
    }
  }

  /** Blocks that are unpacked and packed again are the old blocks if and only if unused bits were zero. */
  lemma {:induction false} ConvAfterPlain(m: seq<Mem>, p: seq<Mem>, q: seq<Mem>, len: nat)
    requires Expanded(m, p, len) && Compacted(p, q, len)
    ensures var n := (len + W - 1) / W; q[1..n + 1] == m[1..n + 1] <==> PaddedBlocks(m, len)
  {
    var n := (len + W - 1) / W;
    if PaddedBlocks(m, len) {
      forall x | 1 <= x <= n
        ensures q[x] == m[x]
      {
        SameBlock(m, p, q, len, x);
      }
    }
    if q[1..n + 1] == m[1..n + 1] {
      forall g | len <= g < W * n
        ensures !ElementAt(m, g)
      {
        assert q[1..n + 1][g / W] == m[1..n + 1][g / W];
        assert !ElementAt(q, g);
      }
    }
  }

  lemma {:induction false} SameBlock(m: seq<Mem>, p: seq<Mem>, q: seq<Mem>, len: nat, x: nat)
    requires Expanded(m, p, len) && Compacted(p, q, len) && PaddedBlocks(m, len) && 1 <= x <= (len + W - 1) / W
    ensures q[x] == m[x]
  {
    forall j | 0 <= j < W
      ensures q[x].w[j] == m[x].w[j]
    {
      var g := W * (x - 1) + j;
      assert g / W == x - 1 && g % W == j;
      if g < len {
        assert p[g + 1] == Entry(ElementAt(q, g + 1 - 1));
        assert p[g + 1] == Entry(ElementAt(m, g + 1 - 1));
      } else {
        assert !ElementAt(q, g) && !ElementAt(m, g);
      }
    }
    assert q[x].w == m[x].w;
  }
}
