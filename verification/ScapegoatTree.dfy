/**
  Scapegoat trees as values: what the operations of the pointer structure
  compute, and why the trees stay low.
 */
module ScapegoatTree {
  import opened Powers

  datatype Item<V> = Item(key: int, value: V)

  datatype Tree<V> = Nil | Bin(left: Tree<V>, item: Item<V>, right: Tree<V>)

  datatype Option<V> = None | Some(value: V)

  function Size<V>(t: Tree<V>): nat
  {
    if t.Nil? then 0 else 1 + Size(t.left) + Size(t.right)
  }

  /** Number of levels; the height in edges is one less. */
  function Depth<V>(t: Tree<V>): nat
  {
    if t.Nil? then 0
    else
      var m1, m2 := Depth(t.left), Depth(t.right);
      (if m1 < m2 then m2 else m1) + 1
  }

  function Inorder<V>(t: Tree<V>): seq<Item<V>>
  {
    if t.Nil? then [] else Inorder(t.left) + [t.item] + Inorder(t.right)
  }

  /** Keys ascend strictly, within the bounds. */
  ghost predicate Ascending<V>(s: seq<Item<V>>, lo: int, hi: int)
  {
    s != [] ==> lo < s[0].key < hi && Ascending(s[1..], s[0].key, hi)
  }

  /** All keys of the tree lie strictly between lo and hi. */
  ghost predicate Between<V>(t: Tree<V>, lo: int, hi: int)
  {
    t.Bin? ==> lo < t.item.key < hi && Between(t.left, lo, t.item.key) && Between(t.right, t.item.key, hi)
  }

  /** A search tree: some bounds hold all of its keys. */
  ghost predicate SearchTree<V>(t: Tree<V>)
  {
    exists lo, hi :: Between(t, lo, hi)
  }

  /** The finite map that a search tree stands for. */
  function Entries<V>(t: Tree<V>): map<int, V>
  {
    if t.Nil? then map[] else Entries(t.left) + Entries(t.right) + map[t.item.key := t.item.value]
  }

  lemma {:induction false} InorderSize<V>(t: Tree<V>)
    ensures |Inorder(t)| == Size(t)
  {
    if t.Bin? {
      InorderSize(t.left);
      InorderSize(t.right);
    }
  }

  lemma {:induction false} EntriesBetween<V>(t: Tree<V>, lo: int, hi: int)
    requires Between(t, lo, hi)
    ensures forall k :: k in Entries(t) ==> lo < k < hi
  {
    if t.Bin? {
      EntriesBetween(t.left, lo, t.item.key);
      EntriesBetween(t.right, t.item.key, hi);
    }
  }

  // ----- looking up

  function Find<V>(t: Tree<V>, key: int): Option<V>
  {
    if t.Nil? then None
    else if key < t.item.key then Find(t.left, key)
    else if key > t.item.key then Find(t.right, key)
    else Some(t.item.value)
  }

  /** Looking up finds exactly what the map holds. */
  lemma {:induction false} FindEntries<V>(t: Tree<V>, key: int, lo: int, hi: int)
    requires Between(t, lo, hi)
    ensures Find(t, key) == if key in Entries(t) then Some(Entries(t)[key]) else None
  {
    if t.Bin? {
      FindEntries(t.left, key, lo, t.item.key);
      FindEntries(t.right, key, t.item.key, hi);
      EntriesBetween(t.left, lo, t.item.key);
      EntriesBetween(t.right, t.item.key, hi);
    }
  }

  // ----- rebuilding

  /** The tree that `Treeify` makes of a list: the left part gets the odd node. */
  function Balanced<V>(s: seq<Item<V>>): (t: Tree<V>)
    decreases |s|
  {
    if s == [] then Nil
    else
      var n2 := (|s| - 1) / 2;
      var n1 := |s| - 1 - n2;
      Bin(Balanced(s[..n1]), s[n1], Balanced(s[n1 + 1..]))
  }

  lemma {:induction false} SplitAt<V>(s: seq<Item<V>>, i: nat)
    requires i < |s|
    ensures s == s[..i] + [s[i]] + s[i + 1..]
  {
  }

  lemma {:induction false} BalancedInorder<V>(s: seq<Item<V>>)
    ensures Inorder(Balanced(s)) == s
    decreases |s|
  {
    if s != [] {
      var n1 := |s| - 1 - (|s| - 1) / 2;
      var l, r := s[..n1], s[n1 + 1..];
      BalancedInorder(l);
      BalancedInorder(r);
      SplitAt(s, n1);
    }
  }

  /** A rebuilt tree of n nodes has floor(log2 n) + 1 levels. */
  lemma {:induction false} BalancedDepth<V>(s: seq<Item<V>>)
    ensures |s| < Pow(2, Depth(Balanced(s)))
    ensures s != [] ==> Depth(Balanced(s)) >= 1 && Pow(2, Depth(Balanced(s)) - 1) <= |s|
    decreases |s|
  {
    if s != [] {
      var n2 := (|s| - 1) / 2;
      var n1 := |s| - 1 - n2;
      var l, r := s[..n1], s[n1 + 1..];
      BalancedDepth(l);
      BalancedDepth(r);
      var m1, m2 := Depth(Balanced(l)), Depth(Balanced(r));
      assert m2 <= m1 by {
        if r != [] {
          Pow2Less(m2 - 1, m1);
        }
      }
    }
  }

  /** A tree with few nodes is low once it has been rebuilt. */
  lemma {:induction false} BalancedLow<V>(s: seq<Item<V>>, d: nat)
    requires |s| < Pow(2, d)
    ensures Depth(Balanced(s)) <= d
  {
    BalancedDepth(s);
    if s != [] {
      Pow2Less(Depth(Balanced(s)) - 1, d);
    }
  }

  lemma {:induction false} SizeDepth<V>(t: Tree<V>)
    ensures Size(t) < Pow(2, Depth(t))
  {
    if t.Bin? {
      SizeDepth(t.left);
      SizeDepth(t.right);
      Pow2Mono(Depth(t.left), Depth(t) - 1);
      Pow2Mono(Depth(t.right), Depth(t) - 1);
    }
  }

  // ----- search trees through their inorder sequence

  lemma {:induction false} AscendingSplit<V>(a: seq<Item<V>>, x: Item<V>, b: seq<Item<V>>, lo: int, hi: int)
    ensures Ascending(a + [x] + b, lo, hi) <==>
            Ascending(a, lo, x.key) && lo < x.key < hi && Ascending(b, x.key, hi)
  {
    var s := a + [x] + b;
    if a == [] {
      assert s == [x] + b;
      assert s[1..] == b;
    } else {
      AscendingSplit(a[1..], x, b, a[0].key, hi);
      assert s[1..] == a[1..] + [x] + b;
    }
  }

  /** Whether a tree is a search tree only depends on its items in order. */
  lemma {:induction false} BetweenInorder<V>(t: Tree<V>, lo: int, hi: int)
    ensures Between(t, lo, hi) <==> Ascending(Inorder(t), lo, hi)
  {
    if t.Bin? {
      BetweenInorder(t.left, lo, t.item.key);
      BetweenInorder(t.right, t.item.key, hi);
      AscendingSplit(Inorder(t.left), t.item, Inorder(t.right), lo, hi);
    }
  }

  function EntriesOf<V>(s: seq<Item<V>>): map<int, V>
  {
    if s == [] then map[] else EntriesOf(s[..|s| - 1])[s[|s| - 1].key := s[|s| - 1].value]
  }

  lemma {:induction false} EntriesOfConcat<V>(s: seq<Item<V>>, r: seq<Item<V>>)
    ensures EntriesOf(s + r) == EntriesOf(s) + EntriesOf(r)
  {
    if r == [] {
      assert s + r == s;
    } else {
      var m := |r| - 1;
      EntriesOfConcat(s, r[..m]);
      assert (s + r)[..|s + r| - 1] == s + r[..m];
    }
  }

  lemma {:induction false} EntriesOfMiddle<V>(a: seq<Item<V>>, x: Item<V>, b: seq<Item<V>>)
    requires x.key !in EntriesOf(b)
    ensures EntriesOf(a + [x] + b) == EntriesOf(a) + EntriesOf(b) + map[x.key := x.value]
  {
    EntriesOfConcat(a + [x], b);
    assert (a + [x])[..|a|] == a;
    assert EntriesOf(a + [x]) == EntriesOf(a)[x.key := x.value];
  }

  /** The map only depends on the sequence of items. */
  lemma {:induction false} EntriesInorder<V>(t: Tree<V>, lo: int, hi: int)
    requires Between(t, lo, hi)
    ensures Entries(t) == EntriesOf(Inorder(t))
  {
    if t.Bin? {
      var k := t.item.key;
      EntriesInorder(t.left, lo, k);
      EntriesInorder(t.right, k, hi);
      EntriesBetween(t.left, lo, k);
      EntriesBetween(t.right, k, hi);
      EntriesOfMiddle(Inorder(t.left), t.item, Inorder(t.right));
    }
  }

  /** Rebuilding keeps a search tree a search tree, with the same map and size. */
  lemma {:induction false} BalancedKeeps<V>(t: Tree<V>, lo: int, hi: int)
    requires Between(t, lo, hi)
    ensures Between(Balanced(Inorder(t)), lo, hi)
    ensures Entries(Balanced(Inorder(t))) == Entries(t) && Size(Balanced(Inorder(t))) == Size(t)
  {
    var u := Balanced(Inorder(t));
    BalancedInorder(Inorder(t));
    BetweenInorder(t, lo, hi);
    BetweenInorder(u, lo, hi);
    EntriesInorder(t, lo, hi);
    EntriesInorder(u, lo, hi);
    InorderSize(t);
    InorderSize(u);
  }

  // ----- inserting

  /** Levels between the root and the place where a new key goes. */
  function InsertDepth<V>(t: Tree<V>, key: int): nat
  {
    if t.Nil? || t.item.key == key then 0
    else 1 + InsertDepth(if key < t.item.key then t.left else t.right, key)
  }

  /** Both subtrees hold at most two thirds of the nodes. */
  predicate WeightBalanced(lsize: nat, rsize: nat)
  {
    3 * lsize <= 2 * (lsize + rsize + 1) && 3 * rsize <= 2 * (lsize + rsize + 1)
  }

  /** What becomes of a node whose one subtree has grown: see `Insert`. */
  function Settle<V>(left: Tree<V>, item: Item<V>, right: Tree<V>, lsize: nat, rsize: nat): (Tree<V>, nat)
  {
    if WeightBalanced(lsize, rsize) then (Bin(left, item, right), lsize + rsize + 1)
    else (Balanced(Inorder(Bin(left, item, right))), 0)
  }

  /** A node whose left subtree has become left; a size of 0 says that nothing is left to do. */
  function GrowLeft<V>(left: Tree<V>, lsize: nat, item: Item<V>, right: Tree<V>): (Tree<V>, nat)
  {
    if lsize == 0 then (Bin(left, item, right), 0) else Settle(left, item, right, lsize, Size(right))
  }

  function GrowRight<V>(left: Tree<V>, item: Item<V>, right: Tree<V>, rsize: nat): (Tree<V>, nat)
  {
    if rsize == 0 then (Bin(left, item, right), 0) else Settle(left, item, right, Size(left), rsize)
  }

  /**
    Inserts x into a subtree at depth d of a tree that will have `nodes` nodes.
    The second result is 0 when the tree is in order again, and otherwise the size
    of the new subtree, for the search for a scapegoat above it.
   */
  function Insert<V>(t: Tree<V>, x: Item<V>, d: nat, nodes: int): (Tree<V>, nat)
  {
    if t.Nil? then (Bin(Nil, x, Nil), if MinNodes(d) > nodes then 1 else 0)
    else if x.key < t.item.key then
      var (left, lsize) := Insert(t.left, x, d + 1, nodes);
      GrowLeft(left, lsize, t.item, t.right)
    else if x.key > t.item.key then
      var (right, rsize) := Insert(t.right, x, d + 1, nodes);
      GrowRight(t.left, t.item, right, rsize)
    else (Bin(t.left, x, t.right), 0)
  }

  lemma {:induction false} SettleSize<V>(left: Tree<V>, item: Item<V>, right: Tree<V>, lsize: nat, rsize: nat)
    ensures Size(Settle(left, item, right, lsize, rsize).0) == Size(left) + Size(right) + 1
  {
    RebuiltSize(Bin(left, item, right));
  }

  lemma {:induction false} InsertSize<V>(t: Tree<V>, x: Item<V>, d: nat, nodes: int)
    ensures Size(Insert(t, x, d, nodes).0) == if Find(t, x.key).Some? then Size(t) else Size(t) + 1
  {
    if t.Bin? {
      if x.key < t.item.key {
        InsertSize(t.left, x, d + 1, nodes);
        var (left, lsize) := Insert(t.left, x, d + 1, nodes);
        SettleSize(left, t.item, t.right, lsize, Size(t.right));
      } else if x.key > t.item.key {
        InsertSize(t.right, x, d + 1, nodes);
        var (right, rsize) := Insert(t.right, x, d + 1, nodes);
        SettleSize(t.left, t.item, right, Size(t.left), rsize);
      }
    }
  }

  /** A nonzero result is the exact size, and the path to the new node is weight-balanced so far. */
  lemma {:induction false} InsertReturn<V>(t: Tree<V>, x: Item<V>, d: nat, nodes: int)
    ensures var (t', r) := Insert(t, x, d, nodes);
            r != 0 ==> && r == Size(t') && Find(t, x.key).None?
                       && r >= Growth(InsertDepth(t, x.key)) && MinNodes(d + InsertDepth(t, x.key)) > nodes
  {
    if t.Bin? && x.key != t.item.key {
      var child := if x.key < t.item.key then t.left else t.right;
      var k := InsertDepth(child, x.key);
      InsertReturn(child, x, d + 1, nodes);
      var size, r := Insert(child, x, d + 1, nodes).1, Insert(t, x, d, nodes).1;
      assert InsertDepth(t, x.key) == k + 1 && d + 1 + k == d + (k + 1);
      if r != 0 {
        assert size != 0 && 3 * size <= 2 * r;
        GrowthStep(k, size, r);
      }
    }
  }

  lemma {:induction false} RebuiltSize<V>(t: Tree<V>)
    ensures Size(Balanced(Inorder(t))) == Size(t)
  {
    BalancedInorder(Inorder(t));
    InorderSize(t);
    InorderSize(Balanced(Inorder(t)));
  }

  /** There always is a scapegoat: insertion into a whole tree returns 0. */
  lemma {:induction false} ScapegoatExists<V>(t: Tree<V>, x: Item<V>)
    ensures Insert(t, x, 0, Size(t) + 1).1 == 0
  {
    InsertReturn(t, x, 0, Size(t) + 1);
    InsertSize(t, x, 0, Size(t) + 1);
    GrowthEnough(InsertDepth(t, x.key));
  }

  /** Updating one of two joined maps updates the join. */
  lemma {:induction false} JoinUpdated<V>(l: map<int, V>, r: map<int, V>, k: int, v: V, l': map<int, V>, r': map<int,
                                          V>, key: int, value: V)
    requires key != k
    requires (l' == l[key := value] && r' == r && key !in r) || (r' == r[key := value] && l' == l)
    ensures l' + r' + map[k := v] == (l + r + map[k := v])[key := value]
  {
  }

  lemma {:induction false} SettleKeeps<V>(left: Tree<V>, item: Item<V>, right: Tree<V>, lsize: nat, rsize: nat,
                                          lo: int, hi: int)
    requires Between(Bin(left, item, right), lo, hi)
    ensures Between(Settle(left, item, right, lsize, rsize).0, lo, hi)
    ensures Entries(Settle(left, item, right, lsize, rsize).0) == Entries(Bin(left, item, right))
  {
    BalancedKeeps(Bin(left, item, right), lo, hi);
  }

  /** Insertion keeps the search tree and updates the map. */
  lemma {:induction false} InsertEntries<V>(t: Tree<V>, x: Item<V>, d: nat, nodes: int, lo: int, hi: int)
    requires Between(t, lo, hi) && lo < x.key < hi
    ensures Between(Insert(t, x, d, nodes).0, lo, hi)
    ensures Entries(Insert(t, x, d, nodes).0) == Entries(t)[x.key := x.value]
  {
    if t.Bin? {
      var k := t.item.key;
      if x.key < k {
        InsertEntries(t.left, x, d + 1, nodes, lo, k);
        EntriesBetween(t.right, k, hi);
        var (left, lsize) := Insert(t.left, x, d + 1, nodes);
        SettleKeeps(left, t.item, t.right, lsize, Size(t.right), lo, hi);
        JoinUpdated(Entries(t.left), Entries(t.right), k, t.item.value, Entries(left), Entries(t.right), x.key,
                    x.value);
      } else if x.key > k {
        InsertEntries(t.right, x, d + 1, nodes, k, hi);
        var (right, rsize) := Insert(t.right, x, d + 1, nodes);
        SettleKeeps(t.left, t.item, right, Size(t.left), rsize, lo, hi);
        JoinUpdated(Entries(t.left), Entries(t.right), k, t.item.value, Entries(t.left), Entries(right), x.key,
                    x.value);
      }
    }
  }

  /** Subtrees of p and p - 1 nodes would be weight-balanced. */
  lemma {:induction false} NotFull(lsize: nat, rsize: nat, p: nat)
    requires !WeightBalanced(lsize, rsize)
    requires (lsize <= p && rsize < p) || (lsize < p && rsize <= p)
    ensures lsize + rsize + 1 < 2 * p
  {
  }

  /** Rebuilding a subtree that is not weight-balanced undoes the growth of its depth. */
  lemma {:induction false} RebuiltLow<V>(t: Tree<V>, u: Tree<V>, lsize: nat, rsize: nat)
    requires t.Bin? && u.Bin? && !WeightBalanced(lsize, rsize) && lsize == Size(u.left) && rsize == Size(u.right)
    requires (Size(u.left) == Size(t.left) + 1 && u.right == t.right) ||
             (Size(u.right) == Size(t.right) + 1 && u.left == t.left)
    ensures Depth(Balanced(Inorder(u))) <= Depth(t)
  {
    var m := Depth(t) - 1;
    assert Size(t.left) < Pow(2, m) && Size(t.right) < Pow(2, m) by {
      SizeDepth(t.left);
      SizeDepth(t.right);
      Pow2Mono(Depth(t.left), m);
      Pow2Mono(Depth(t.right), m);
    }
    NotFull(lsize, rsize, Pow(2, m));
    assert Pow(2, m + 1) == 2 * Pow(2, m);
    InorderSize(u);
    BalancedLow(Inorder(u), m + 1);
  }

  /**
    A depth has become depth' by inserting k levels down: it has not grown, or a new deepest
    node is left in place, and only if the threshold of its depth allows it.
   */
  ghost predicate Low(depth: nat, depth': nat, size: nat, k: nat, d: nat, nodes: int)
  {
    || (size == 0 && depth' <= depth)
    || (depth' <= (if depth < k + 1 then k + 1 else depth) && (size == 0 ==> MinNodes(d + k) <= nodes))
  }

  lemma {:induction false} GrowLeftLow<V>(t: Tree<V>, left: Tree<V>, lsize: nat, k: nat, d: nat, nodes: int)
    requires t.Bin? && Low(Depth(t.left), Depth(left), lsize, k, d + 1, nodes)
    requires lsize != 0 ==> lsize == Size(left) == Size(t.left) + 1
    ensures var (t', size) := GrowLeft(left, lsize, t.item, t.right); Low(Depth(t), Depth(t'), size, k + 1, d, nodes)
  {
    assert d + 1 + k == d + (k + 1);
    if lsize != 0 && !WeightBalanced(lsize, Size(t.right)) {
      RebuiltLow(t, Bin(left, t.item, t.right), lsize, Size(t.right));
    }
  }

  lemma {:induction false} GrowRightLow<V>(t: Tree<V>, right: Tree<V>, rsize: nat, k: nat, d: nat, nodes: int)
    requires t.Bin? && Low(Depth(t.right), Depth(right), rsize, k, d + 1, nodes)
    requires rsize != 0 ==> rsize == Size(right) == Size(t.right) + 1
    ensures var (t', size) := GrowRight(t.left, t.item, right, rsize); Low(Depth(t), Depth(t'), size, k + 1, d, nodes)
  {
    assert d + 1 + k == d + (k + 1);
    if rsize != 0 && !WeightBalanced(Size(t.left), rsize) {
      RebuiltLow(t, Bin(t.left, t.item, right), Size(t.left), rsize);
    }
  }

  /** The depth of the tree grows only where the tree is dense enough for it. */
  lemma {:induction false} InsertLow<V>(t: Tree<V>, x: Item<V>, d: nat, nodes: int)
    ensures var (t', size) := Insert(t, x, d, nodes);
            Low(Depth(t), Depth(t'), size, InsertDepth(t, x.key), d, nodes)
  {
    if t.Bin? && x.key < t.item.key {
      InsertLow(t.left, x, d + 1, nodes);
      InsertReturn(t.left, x, d + 1, nodes);
      InsertSize(t.left, x, d + 1, nodes);
      var (left, lsize) := Insert(t.left, x, d + 1, nodes);
      GrowLeftLow(t, left, lsize, InsertDepth(t.left, x.key), d, nodes);
    } else if t.Bin? && x.key > t.item.key {
      InsertLow(t.right, x, d + 1, nodes);
      InsertReturn(t.right, x, d + 1, nodes);
      InsertSize(t.right, x, d + 1, nodes);
      var (right, rsize) := Insert(t.right, x, d + 1, nodes);
      GrowRightLow(t, right, rsize, InsertDepth(t.right, x.key), d, nodes);
    }
  }

  // ----- removing

  function Least<V>(t: Tree<V>): Item<V>
    requires t.Bin?
  {
    if t.left.Nil? then t.item else Least(t.left)
  }

  function DropLeast<V>(t: Tree<V>): Tree<V>
    requires t.Bin?
  {
    if t.left.Nil? then t.right else Bin(DropLeast(t.left), t.item, t.right)
  }

  /** Removes the root: a root with two subtrees takes the item of its in-order successor. */
  function RemoveRoot<V>(t: Tree<V>): Tree<V>
    requires t.Bin?
  {
    if t.left.Bin? then
      if t.right.Bin? then Bin(t.left, Least(t.right), DropLeast(t.right)) else t.left
    else t.right
  }

  function Remove<V>(t: Tree<V>, key: int): Tree<V>
  {
    if t.Nil? then t
    else if key < t.item.key then Bin(Remove(t.left, key), t.item, t.right)
    else if key > t.item.key then Bin(t.left, t.item, Remove(t.right, key))
    else RemoveRoot(t)
  }

  lemma {:induction false} LeastFirst<V>(t: Tree<V>)
    requires t.Bin?
    ensures Inorder(t) == [Least(t)] + Inorder(DropLeast(t))
    ensures Depth(DropLeast(t)) <= Depth(t) && Size(DropLeast(t)) == Size(t) - 1
  {
    if t.left.Bin? {
      LeastFirst(t.left);
    }
  }

  lemma {:induction false} BetweenWider<V>(t: Tree<V>, lo: int, hi: int, lo': int, hi': int)
    requires Between(t, lo, hi) && lo' <= lo && hi <= hi'
    ensures Between(t, lo', hi')
  {
    if t.Bin? {
      BetweenWider(t.left, lo, t.item.key, lo', t.item.key);
      BetweenWider(t.right, t.item.key, hi, t.item.key, hi');
    }
  }

  lemma {:induction false} LeastEntries<V>(t: Tree<V>, lo: int, hi: int)
    requires t.Bin? && Between(t, lo, hi)
    ensures lo < Least(t).key < hi && Between(DropLeast(t), Least(t).key, hi)
    ensures Entries(t) == Entries(DropLeast(t))[Least(t).key := Least(t).value]
    ensures Least(t).key !in Entries(DropLeast(t))
  {
    var k := t.item.key;
    if t.left.Bin? {
      LeastEntries(t.left, lo, k);
      var x, l := Least(t.left), DropLeast(t.left);
      EntriesBetween(t.right, k, hi);
      JoinUpdated(Entries(l), Entries(t.right), k, t.item.value, Entries(t.left), Entries(t.right), x.key, x.value);
    } else {
      EntriesBetween(t.right, k, hi);
    }
  }

  lemma {:induction false} RemoveShape<V>(t: Tree<V>, key: int)
    ensures Depth(Remove(t, key)) <= Depth(t)
    ensures Size(Remove(t, key)) == if Find(t, key).Some? then Size(t) - 1 else Size(t)
  {
    if t.Bin? {
      if key < t.item.key {
        RemoveShape(t.left, key);
      } else if key > t.item.key {
        RemoveShape(t.right, key);
      } else if t.left.Bin? && t.right.Bin? {
        LeastFirst(t.right);
      }
    }
  }

  lemma {:induction false} RemoveRootEntries<V>(t: Tree<V>, lo: int, hi: int)
    requires t.Bin? && Between(t, lo, hi)
    ensures Between(RemoveRoot(t), lo, hi) && Entries(RemoveRoot(t)) == Entries(t) - {t.item.key}
  {
    var k := t.item.key;
    EntriesBetween(t.left, lo, k);
    EntriesBetween(t.right, k, hi);
    if t.left.Bin? {
      if t.right.Bin? {
        LeastEntries(t.right, k, hi);
        BetweenWider(t.left, lo, k, lo, Least(t.right).key);
        RootReplaced(Entries(t.left), Entries(DropLeast(t.right)), k, t.item.value, Least(t.right).key,
                     Least(t.right).value);
      } else {
        BetweenWider(t.left, lo, k, lo, hi);
      }
    } else {
      BetweenWider(t.right, k, hi, lo, hi);
    }
  }

  lemma {:induction false} RootReplaced<V>(l: map<int, V>, r: map<int, V>, k: int, v: V, k': int, v': V)
    requires k !in l && k !in r && k' !in l && k' != k
    ensures l + r + map[k' := v'] == (l + r[k' := v'] + map[k := v]) - {k}
  {
  }

  /** Removal keeps the search tree and deletes one key from the map. */
  lemma {:induction false} RemoveEntries<V>(t: Tree<V>, key: int, lo: int, hi: int)
    requires Between(t, lo, hi)
    ensures Between(Remove(t, key), lo, hi) && Entries(Remove(t, key)) == Entries(t) - {key}
  {
    if t.Bin? {
      var k := t.item.key;
      if key == k {
        RemoveRootEntries(t, lo, hi);
      } else {
        EntriesBetween(t.left, lo, k);
        EntriesBetween(t.right, k, hi);
        if key < k {
          RemoveEntries(t.left, key, lo, k);
          LeftDeleted(Entries(t.left), Entries(t.right), k, t.item.value, key);
        } else {
          RemoveEntries(t.right, key, k, hi);
          RightDeleted(Entries(t.left), Entries(t.right), k, t.item.value, key);
        }
      }
    }
  }

  lemma {:induction false} LeftDeleted<V>(l: map<int, V>, r: map<int, V>, k: int, v: V, key: int)
    requires key != k && key !in r
    ensures (l - {key}) + r + map[k := v] == (l + r + map[k := v]) - {key}
  {
  }

  lemma {:induction false} RightDeleted<V>(l: map<int, V>, r: map<int, V>, k: int, v: V, key: int)
    requires key != k && key !in l
    ensures l + (r - {key}) + map[k := v] == (l + r + map[k := v]) - {key}
  {
  }
}

/**
  Histories of a scapegoat tree: what holds after any sequence of insertions,
  removals and clearings.
 */
module ScapegoatHistory {
  import opened Powers
  import opened ScapegoatTree

  /** The counters are the ones the tree keeps, not ones derived from its shape. */
  datatype State<V> = State(tree: Tree<V>, nodes: int, maxnodes: int)

  datatype Op<V> = Put(item: Item<V>) | Delete(key: int) | Clear

  function Rebuilt<V>(t: Tree<V>): Tree<V>
  {
    if t.Bin? then Balanced(Inorder(t)) else t
  }

  /** The whole tree after an insertion; a result other than 0 would make the root the scapegoat. */
  function Inserted<V>(t: Tree<V>, x: Item<V>, nodes: int): Tree<V>
  {
    var (t', size) := Insert(t, x, 0, nodes);
    if size > 0 then Rebuilt(t') else t'
  }

  function Apply<V>(s: State<V>, op: Op<V>): State<V>
  {
    match op
    case Put(x) => Added(s, Inserted(s.tree, x, s.nodes + 1), Find(s.tree, x.key).Some?)
    case Delete(key) =>
      if Find(s.tree, key).None? then s
      else
        var t, nodes := Remove(s.tree, key), s.nodes - 1;
        if 3 * nodes <= 2 * s.maxnodes then State(Rebuilt(t), nodes, nodes) else State(t, nodes, s.maxnodes)
    case Clear => State(Nil, 0, 0)
  }

  /** Counters are right, the tree is a search tree, loosely height-balanced. */
  ghost predicate Inv<V>(s: State<V>)
  {
    && SearchTree(s.tree) && s.nodes == Size(s.tree) && s.nodes <= s.maxnodes
    && (s.tree.Bin? ==> MinNodes(Depth(s.tree) - 1) <= s.maxnodes)
    && (3 * s.nodes > 2 * s.maxnodes || s.nodes == s.maxnodes == 0)
  }

  /** The abstract map after an operation. */
  function ApplyMap<V>(m: map<int, V>, op: Op<V>): map<int, V>
  {
    match op
    case Put(x) => m[x.key := x.value]
    case Delete(key) => m - {key}
    case Clear => map[]
  }

  lemma {:induction false} RebuiltDense<V>(t: Tree<V>)
    requires t.Bin?
    ensures Rebuilt(t).Bin? && MinNodes(Depth(Rebuilt(t)) - 1) <= Size(t) == Size(Rebuilt(t))
  {
    InorderSize(t);
    RebuiltSize(t);
    BalancedDense(Inorder(t), Rebuilt(t));
  }

  lemma {:induction false} BalancedDense<V>(s: seq<Item<V>>, t: Tree<V>)
    requires s != [] && t == Balanced(s)
    ensures Depth(t) >= 1 && MinNodes(Depth(t) - 1) <= |s|
  {
    BalancedDepth(s);
    MinNodesPow2(Depth(t) - 1);
  }

  /** Overwriting an item leaves the shape as it was. */
  lemma {:induction false} FoundStays<V>(t: Tree<V>, x: Item<V>, nodes: int, d: nat := 0)
    ensures Find(t, x.key).Some? ==> Depth(Insert(t, x, d, nodes).0) == Depth(t)
  {
    if t.Bin? {
      if x.key < t.item.key {
        FoundStays(t.left, x, nodes, d + 1);
        InsertReturn(t.left, x, d + 1, nodes);
      } else if x.key > t.item.key {
        FoundStays(t.right, x, nodes, d + 1);
        InsertReturn(t.right, x, d + 1, nodes);
      }
    }
  }

  /** The depth of the whole tree grows only to a level that the number of nodes allows. */
  lemma {:induction false} PutLow<V>(t: Tree<V>, x: Item<V>)
    ensures Insert(t, x, 0, Size(t) + 1).0.Bin?
    ensures var d := Depth(Insert(t, x, 0, Size(t) + 1).0);
            d <= Depth(t) || (Find(t, x.key).None? && MinNodes(d - 1) <= Size(t) + 1)
  {
    var n, k := Size(t) + 1, InsertDepth(t, x.key);
    InsertSize(t, x, 0, n);
    ScapegoatExists(t, x);
    InsertLow(t, x, 0, n);
    FoundStays(t, x, n);
    var d := Depth(Insert(t, x, 0, n).0);
    if d > Depth(t) {
      MinNodesMono(d - 1, k);
    }
  }

  /** The state after an insertion that has led to tree t. */
  function Added<V>(s: State<V>, t: Tree<V>, found: bool): State<V>
  {
    var nodes := if found then s.nodes else s.nodes + 1;
    State(t, nodes, if nodes > s.maxnodes then nodes else s.maxnodes)
  }

  lemma {:induction false} InsertSearch<V>(t: Tree<V>, x: Item<V>, nodes: int)
    requires SearchTree(t)
    ensures SearchTree(Insert(t, x, 0, nodes).0) && Entries(Insert(t, x, 0, nodes).0) == Entries(t)[x.key := x.value]
  {
    var lo, hi :| Between(t, lo, hi);
    var lo' := if lo < x.key then lo else x.key - 1;
    var hi' := if x.key < hi then hi else x.key + 1;
    BetweenWider(t, lo, hi, lo', hi');
    InsertEntries(t, x, 0, nodes, lo', hi');
  }

  lemma {:induction false} PutTree<V>(s: State<V>, x: Item<V>)
    requires s.nodes == Size(s.tree)
    ensures Apply(s, Put(x)) == Added(s, Insert(s.tree, x, 0, Size(s.tree) + 1).0, Find(s.tree, x.key).Some?)
  {
    ScapegoatExists(s.tree, x);
  }

  /** What insertion does to a whole tree. */
  ghost predicate Grown<V>(t: Tree<V>, x: Item<V>, t': Tree<V>, found: bool)
  {
    && SearchTree(t') && t'.Bin? && Size(t') == (if found then Size(t) else Size(t) + 1)
    && (Depth(t') <= Depth(t) || (!found && MinNodes(Depth(t') - 1) <= Size(t) + 1))
    && Entries(t') == Entries(t)[x.key := x.value]
  }

  lemma {:induction false} InsertGrown<V>(t: Tree<V>, x: Item<V>)
    requires SearchTree(t)
    ensures Grown(t, x, Insert(t, x, 0, Size(t) + 1).0, Find(t, x.key).Some?)
  {
    InsertSearch(t, x, Size(t) + 1);
    InsertSize(t, x, 0, Size(t) + 1);
    PutLow(t, x);
  }

  lemma {:induction false} GrownKeeps<V>(s: State<V>, x: Item<V>, t: Tree<V>, found: bool)
    requires Inv(s) && Grown(s.tree, x, t, found)
    ensures Inv(Added(s, t, found)) && Entries(Added(s, t, found).tree) == Entries(s.tree)[x.key := x.value]
  {
    if Depth(t) <= Depth(s.tree) {
      MinNodesMono(Depth(t) - 1, Depth(s.tree) - 1);
    }
  }

  lemma {:induction false} PutKeeps<V>(s: State<V>, x: Item<V>)
    requires Inv(s)
    ensures Inv(Apply(s, Put(x))) && Entries(Apply(s, Put(x)).tree) == Entries(s.tree)[x.key := x.value]
  {
    var t, found := PutGrown(s, x);
    GrownKeeps(s, x, t, found);
  }

  lemma {:induction false} PutGrown<V>(s: State<V>, x: Item<V>) returns (t: Tree<V>, found: bool)
    requires Inv(s)
    ensures Apply(s, Put(x)) == Added(s, t, found) && Grown(s.tree, x, t, found)
  {
    t, found := Insert(s.tree, x, 0, Size(s.tree) + 1).0, Find(s.tree, x.key).Some?;
    PutTree(s, x);
    InsertGrown(s.tree, x);
  }

  lemma {:induction false} DeleteDense<V>(s: State<V>, key: int)
    requires Inv(s) && Find(s.tree, key).Some?
    ensures var r := Apply(s, Delete(key));
            r.nodes == Size(r.tree) && (r.tree.Bin? ==> MinNodes(Depth(r.tree) - 1) <= r.maxnodes)
  {
    var t := Remove(s.tree, key);
    RemoveShape(s.tree, key);
    if t.Bin? {
      RebuiltDense(t);
      MinNodesMono(Depth(t) - 1, Depth(s.tree) - 1);
    }
  }

  lemma {:induction false} DeleteEntries<V>(s: State<V>, key: int)
    requires Inv(s)
    ensures SearchTree(Apply(s, Delete(key)).tree) && Entries(Apply(s, Delete(key)).tree) == Entries(s.tree) - {key}
  {
    var lo, hi :| Between(s.tree, lo, hi);
    FindEntries(s.tree, key, lo, hi);
    if Find(s.tree, key).None? {
      assert Entries(s.tree) - {key} == Entries(s.tree);
    } else {
      var t := Remove(s.tree, key);
      RemoveEntries(s.tree, key, lo, hi);
      if t.Bin? {
        BalancedKeeps(t, lo, hi);
      }
    }
  }

  lemma {:induction false} DeleteKeeps<V>(s: State<V>, key: int)
    requires Inv(s)
    ensures Inv(Apply(s, Delete(key))) && Entries(Apply(s, Delete(key)).tree) == Entries(s.tree) - {key}
  {
    DeleteEntries(s, key);
    if Find(s.tree, key).Some? {
      DeleteDense(s, key);
    }
  }

  /** Every operation keeps the invariant and refines its counterpart on the map. */
  lemma {:induction false} ApplyKeeps<V>(s: State<V>, op: Op<V>)
    requires Inv(s)
    ensures Inv(Apply(s, op)) && Entries(Apply(s, op).tree) == ApplyMap(Entries(s.tree), op)
  {
    match op
    case Put(x) => PutKeeps(s, x);
    case Delete(key) => DeleteKeeps(s, key);
    case Clear => assert Between(Apply(s, op).tree, 0, 0);
  }

  ghost function RunMap<V>(ops: seq<Op<V>>): map<int, V>
  {
    if ops == [] then map[] else ApplyMap(RunMap(ops[..|ops| - 1]), ops[|ops| - 1])
  }

  /** A tree that starts empty, after a history of operations. */
  ghost function Run<V>(ops: seq<Op<V>>): State<V>
  {
    if ops == [] then State(Nil, 0, 0) else Apply(Run(ops[..|ops| - 1]), ops[|ops| - 1])
  }

  /** After every history the invariant holds and the tree stands for the map of the history. */
  lemma {:induction false} HistoryKeeps<V>(ops: seq<Op<V>>)
    ensures Inv(Run(ops)) && Entries(Run(ops).tree) == RunMap(ops)
    decreases |ops|
  {
    if ops == [] {
      assert Between(Run(ops).tree, 0, 0);
    } else {
      HistoryKeeps(ops[..|ops| - 1]);
      ApplyKeeps(Run(ops[..|ops| - 1]), ops[|ops| - 1]);
    }
  }

  lemma {:induction false} HeightArithmetic(a: nat, b: nat, p: nat, q: nat, n: nat, m: nat)
    requires p == 9 * a && q == 4 * b && b >= 1 && n >= 1 && 2 * m < 3 * n && p / q <= m
    ensures a <= n * b
  {
    DivBelow(p, q, m);
    TimesFour(m, b);
    TimesBelow(n, m, b);
    MulMono(1, n, b);
  }

  lemma {:induction false} TimesFour(m: nat, b: nat)
    ensures (m + 1) * (4 * b) == 4 * (m * b) + 4 * b
  {
  }

  lemma {:induction false} TimesBelow(n: nat, m: nat, b: nat)
    requires 2 * m < 3 * n
    ensures 2 * (m * b) + b <= 3 * (n * b)
  {
    MulMono(2 * m + 1, 3 * n, b);
    assert (2 * m + 1) * b == 2 * (m * b) + b;
    assert (3 * n) * b == 3 * (n * b);
  }

  /** The documented height bound: height <= log(nodes) to the base 3/2, plus 1. */
  lemma {:induction false} HeightBound<V>(s: State<V>)
    requires Inv(s) && Depth(s.tree) >= 2
    ensures Pow(3, Depth(s.tree) - 2) <= s.nodes * Pow(2, Depth(s.tree) - 2)
  {
    var h := Depth(s.tree) - 1;
    var a, b := Pow(3, h - 1), Pow(2, h - 1);
    assert Pow(3, h + 1) == 3 * Pow(3, h) == 9 * a;
    assert Pow(2, h + 1) == 2 * Pow(2, h) == 4 * b;
    HeightArithmetic(a, b, Pow(3, h + 1), Pow(2, h + 1), s.nodes, s.maxnodes);
  }

  lemma {:induction false} DepthIndex<V>(t: Tree<V>, key: int)
    ensures InsertDepth(t, key) <= Depth(t)
  {
    if t.Bin? && t.item.key != key {
      DepthIndex(if key < t.item.key then t.left else t.right, key);
    }
  }

  /** The table of thresholds has 128 entries; it is never read beyond its end while nodes fit 63 bits. */
  lemma {:induction false} TableLargeEnough<V>(s: State<V>, key: int)
    requires Inv(s) && s.maxnodes < Pow(2, 63)
    ensures InsertDepth(s.tree, key) < 128
  {
    DepthIndex(s.tree, key);
    if Depth(s.tree) - 1 >= 125 {
      MinNodesLarge(63);
      MinNodesMono(125, Depth(s.tree) - 1);
    }
  }
}
