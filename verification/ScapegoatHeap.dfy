/**
  The scapegoat tree in memory: nodes linked by pointers, rebuilt in place.
  A ghost shape says which node sits where; the tree of values it stands for is
  the one the functions of `ScapegoatTree` work on.
 */
module ScapegoatHeap {
  import opened Powers
  import opened ScapegoatTree
  import opened ScapegoatHistory

  class Node<V> {
    var left: Node?<V>
    var right: Node?<V>
    var item: Item<V>

    constructor (item: Item<V>)
      ensures left == null && right == null && this.item == item
    {
      left, right, this.item := null, null, item;
    }
  }

  // ----- trees of nodes

  datatype Shape<V> = Leaf | Fork(left: Shape<V>, node: Node<V>, right: Shape<V>)

  ghost function Nodes<V>(sh: Shape<V>): set<Node<V>>
  {
    if sh.Leaf? then {} else Nodes(sh.left) + {sh.node} + Nodes(sh.right)
  }

  /** No node sits in two places. */
  ghost predicate Proper<V>(sh: Shape<V>)
  {
    sh.Fork? ==>
      && sh.node !in Nodes(sh.left) && sh.node !in Nodes(sh.right) && Nodes(sh.left) !! Nodes(sh.right)
      && Proper(sh.left) && Proper(sh.right)
  }

  /** The pointers from p onwards have this shape. */
  ghost predicate Holds<V>(sh: Shape<V>, p: Node?<V>)
    reads Nodes(sh)`left, Nodes(sh)`right
  {
    match sh
    case Leaf => p == null
    case Fork(l, n, r) => p == n && Holds(l, n.left) && Holds(r, n.right)
  }

  /** The tree of values with this shape. */
  ghost function Values<V>(sh: Shape<V>): Tree<V>
    reads Nodes(sh)`item
  {
    match sh
    case Leaf => Nil
    case Fork(l, n, r) => Bin(Values(l), n.item, Values(r))
  }

  // ----- lists of nodes, linked through their right pointers

  datatype Chain<V> = Last(node: Node<V>) | Link(node: Node<V>, rest: Chain<V>)

  ghost function Members<V>(c: Chain<V>): set<Node<V>>
  {
    if c.Last? then {c.node} else {c.node} + Members(c.rest)
  }

  ghost predicate ProperChain<V>(c: Chain<V>)
  {
    c.Link? ==> c.node !in Members(c.rest) && ProperChain(c.rest)
  }

  /** The list that starts at p runs through these nodes. */
  ghost predicate Lists<V>(c: Chain<V>, p: Node?<V>)
    reads Members(c)`right
  {
    p == c.node && (c.Link? ==> Lists(c.rest, c.node.right))
  }

  ghost function Length<V>(c: Chain<V>): nat
  {
    if c.Last? then 1 else 1 + Length(c.rest)
  }

  /** The nodes of a tree in order, in front of a list. */
  ghost function Flat<V>(sh: Shape<V>, c: Chain<V>): Chain<V>
  {
    if sh.Leaf? then c else Flat(sh.left, Link(sh.node, Flat(sh.right, c)))
  }

  /** A list without its first n nodes. */
  ghost function Drop<V>(c: Chain<V>, n: nat): (r: Chain<V>)
    requires n < Length(c)
    ensures Length(r) == Length(c) - n
  {
    if n == 0 then c else Drop(c.rest, n - 1)
  }

  /** The first n nodes of a list as a tree. */
  ghost function Take<V>(c: Chain<V>, n: nat): Shape<V>
    requires n < Length(c)
    decreases n
  {
    if n == 0 then Leaf
    else
      var n2 := (n - 1) / 2;
      var c1 := Drop(c, n - 1 - n2);
      Fork(Take(c, n - 1 - n2), c1.node, Take(c1.rest, n2))
  }

  lemma {:induction false} DropDrop<V>(c: Chain<V>, m: nat, n: nat)
    requires m + n < Length(c)
    ensures Drop(Drop(c, m), n) == Drop(c, m + n)
  {
    if m > 0 {
      DropDrop(c.rest, m - 1, n);
    }
  }

  lemma {:induction false} NodesAllocated<V>(sh: Shape<V>)
    ensures forall n :: n in Nodes(sh) ==> allocated(n)
  {
    if sh.Fork? {
      NodesAllocated(sh.left);
      NodesAllocated(sh.right);
    }
  }

  lemma {:induction false} MembersAllocated<V>(c: Chain<V>)
    ensures forall n :: n in Members(c) ==> allocated(n)
  {
    if c.Link? {
      MembersAllocated(c.rest);
    }
  }

  lemma {:induction false} FlatMembers<V>(sh: Shape<V>, c: Chain<V>)
    ensures Members(Flat(sh, c)) == Nodes(sh) + Members(c)
    ensures Proper(sh) && ProperChain(c) && Nodes(sh) !! Members(c) ==> ProperChain(Flat(sh, c))
  {
    if sh.Fork? {
      FlatMembers(sh.right, c);
      FlatMembers(sh.left, Link(sh.node, Flat(sh.right, c)));
    }
  }

  /** A list is taken apart in two halves. */
  lemma {:induction false} TakeStep<V>(c: Chain<V>, n: nat, n1: nat, n2: nat)
    requires 0 < n < Length(c) && n2 == (n - 1) / 2 && n1 == n - 1 - n2
    ensures var c1 := Drop(c, n1);
            && c1.Link? && n2 < Length(c1.rest)
            && Take(c, n) == Fork(Take(c, n1), c1.node, Take(c1.rest, n2)) && Drop(c, n) == Drop(c1.rest, n2)
  {
    DropDrop(c, n1, n2 + 1);
  }

  /** Where the pieces of a list end up. */
  ghost predicate Parted<V>(c: Chain<V>, sh: Shape<V>, rest: Chain<V>)
  {
    Members(c) == Nodes(sh) + Members(rest) && Nodes(sh) !! Members(rest) && Proper(sh) && ProperChain(rest)
  }

  lemma {:induction false} PartedJoin<V>(c: Chain<V>, l: Shape<V>, c1: Chain<V>, r: Shape<V>, rest: Chain<V>)
    requires Parted(c, l, c1) && c1.Link? && Parted(c1.rest, r, rest)
    ensures Parted(c, Fork(l, c1.node, r), rest)
  {
  }

  lemma {:induction false} TakeNodes<V>(c: Chain<V>, n: nat)
    requires n < Length(c) && ProperChain(c)
    ensures Parted(c, Take(c, n), Drop(c, n))
    decreases n
  {
    if n > 0 {
      var n2 := (n - 1) / 2;
      var n1 := n - 1 - n2;
      var c1 := Drop(c, n1);
      TakeStep(c, n, n1, n2);
      TakeNodes(c, n1);
      TakeNodes(c1.rest, n2);
      PartedJoin(c, Take(c, n1), c1, Take(c1.rest, n2), Drop(c, n));
    }
  }

  lemma {:induction false} TakeApart<V>(c: Chain<V>, n: nat)
    requires n < Length(c) && ProperChain(c)
    ensures ProperChain(Drop(c, n)) && Proper(Take(c, n))
    ensures Nodes(Take(c, n)) !! Members(Drop(c, n))
  {
    TakeNodes(c, n);
  }

  /** Turns a tree into a list linked through the right pointers, in front of another list. */
  method Linearize<V>(subtree: Node?<V>, list: Node<V>, ghost sh: Shape<V>, ghost c: Chain<V>) returns (r: Node<V>)
    requires Proper(sh) && Holds(sh, subtree) && ProperChain(c) && Lists(c, list) && Nodes(sh) !! Members(c)
    modifies Nodes(sh)`right
    ensures Lists(Flat(sh, c), r)
    decreases sh
  {
    if subtree == null {
      return list;
    }
    NodesAllocated(sh.left);
    var right := Linearize(subtree.right, list, sh.right, c);
    ghost var c' := Flat(sh.right, c);
    FlatMembers(sh.right, c);
    MembersAllocated(c');
    subtree.right := right;
    r := Linearize(subtree.left, subtree, sh.left, Link(sh.node, c'));
  }

  /**
    Turns the first n nodes of a list into a tree. The next node is returned: its left
    pointer leads to the tree, the rest of the list starts at it.
   */
  method Treeify<V>(list: Node<V>, n: nat, ghost c: Chain<V>) returns (r: Node<V>)
    requires n < Length(c) && ProperChain(c) && Lists(c, list)
    modifies (Nodes(Take(c, n)) + {Drop(c, n).node})`left, Nodes(Take(c, n))`right
    ensures Lists(Drop(c, n), r) && Holds(Take(c, n), r.left)
    decreases n
  {
    if n == 0 {
      list.left := null;
      return list;
    }
    var n2 := (n - 1) / 2;
    var n1 := n - 1 - n2;
    ghost var c1 := Drop(c, n1);
    ghost var l, sh, rest := Take(c, n1), Take(c, n), Drop(c, n);
    TakeStep(c, n, n1, n2);
    TakeApart(c, n1);
    TakeApart(c, n);
    var root := Treeify(list, n1, c);
    NodesAllocated(l);
    var tail := Treeify(root.right, n2, c1.rest);
    Graft(root, tail, sh, rest);
    r := tail;
  }

  /** Hangs the tree left of tail to the right of root, and root to the left of tail. */
  method Graft<V>(root: Node<V>, tail: Node<V>, ghost sh: Shape<V>, ghost rest: Chain<V>)
    requires sh.Fork? && root == sh.node && Proper(sh) && Nodes(sh) !! Members(rest) && tail == rest.node
    requires Holds(sh.left, root.left) && Holds(sh.right, tail.left) && Lists(rest, tail)
    modifies root`right, tail`left
    ensures Holds(sh, tail.left) && Lists(rest, tail)
  {
    root.right := tail.left;
    tail.left := root;
  }

  // ----- what the rebuilt tree holds

  ghost function Items<V>(c: Chain<V>): (s: seq<Item<V>>)
    reads Members(c)`item
    ensures |s| == Length(c)
  {
    [c.node.item] + (if c.Last? then [] else Items(c.rest))
  }

  lemma {:induction false} FlatItems<V>(sh: Shape<V>, c: Chain<V>)
    ensures Items(Flat(sh, c)) == Inorder(Values(sh)) + Items(c)
  {
    if sh.Fork? {
      FlatItems(sh.right, c);
      FlatItems(sh.left, Link(sh.node, Flat(sh.right, c)));
    }
  }

  lemma {:induction false} DropItems<V>(c: Chain<V>, n: nat)
    requires n < Length(c)
    ensures Items(Drop(c, n)) == Items(c)[n..]
  {
    if n > 0 {
      DropItems(c.rest, n - 1);
    }
  }

  lemma {:induction false} BalancedStep<V>(s: seq<Item<V>>, n: nat, n1: nat, n2: nat)
    requires 0 < n <= |s| && n2 == (n - 1) / 2 && n1 == n - 1 - n2
    ensures Balanced(s[..n]) == Bin(Balanced(s[..n1]), s[n1..][0], Balanced(s[n1..][1..][..n2]))
  {
    var t := s[..n];
    SlicesOf(s, n, n1, n2);
    BalancedIs(t, n1);
  }

  lemma {:induction false} SlicesOf<V>(s: seq<V>, n: nat, n1: nat, n2: nat)
    requires n <= |s| && n == n1 + 1 + n2
    ensures s[..n][..n1] == s[..n1] && s[..n][n1] == s[n1..][0] && s[..n][n1 + 1..] == s[n1..][1..][..n2]
  {
  }

  lemma {:induction false} BalancedIs<V>(t: seq<Item<V>>, n1: nat)
    requires t != [] && n1 == |t| - 1 - (|t| - 1) / 2
    ensures Balanced(t) == Bin(Balanced(t[..n1]), t[n1], Balanced(t[n1 + 1..]))
  {
  }

  lemma {:induction false} TakeValues<V>(c: Chain<V>, n: nat)
    requires n < Length(c)
    ensures Values(Take(c, n)) == Balanced(Items(c)[..n])
    decreases n
  {
    if n > 0 {
      var n2 := (n - 1) / 2;
      var n1 := n - 1 - n2;
      var c1 := Drop(c, n1);
      TakeStep(c, n, n1, n2);
      TakeValues(c, n1);
      TakeValues(c1.rest, n2);
      DropItems(c, n1);
      BalancedStep(Items(c), n, n1, n2);
      assert Items(c1)[1..] == Items(c1.rest);
    }
  }

  /** The shape after rebuilding; p is the node that closes the list meanwhile. */
  ghost function RebuiltShape<V>(sh: Shape<V>, p: Node<V>, n: nat): Shape<V>
    requires n < Length(Flat(sh, Last(p)))
  {
    Take(Flat(sh, Last(p)), n)
  }

  lemma {:induction false} RebuiltShapeFacts<V>(sh: Shape<V>, p: Node<V>, n: nat)
    requires Proper(sh) && p !in Nodes(sh) && n == Size(Values(sh))
    ensures n + 1 == Length(Flat(sh, Last(p))) && ProperChain(Flat(sh, Last(p))) && Drop(Flat(sh, Last(p)), n).node == p
    ensures Proper(RebuiltShape(sh, p, n)) && Nodes(RebuiltShape(sh, p, n)) == Nodes(sh)
    ensures Values(RebuiltShape(sh, p, n)) == Balanced(Inorder(Values(sh)))
  {
    var c := Flat(sh, Last(p));
    FlatItems(sh, Last(p));
    InorderSize(Values(sh));
    FlatMembers(sh, Last(p));
    TakeNodes(c, n);
    TakeValues(c, n);
    assert Items(c)[..n] == Inorder(Values(sh));
    FlatDrop(sh, Last(p));
  }

  lemma {:induction false} FlatLength<V>(sh: Shape<V>, c: Chain<V>)
    ensures Length(Flat(sh, c)) == Size(Values(sh)) + Length(c)
  {
    if sh.Fork? {
      FlatLength(sh.right, c);
      FlatLength(sh.left, Link(sh.node, Flat(sh.right, c)));
    }
  }

  lemma {:induction false} FlatDrop<V>(sh: Shape<V>, c: Chain<V>)
    ensures Size(Values(sh)) < Length(Flat(sh, c)) && Drop(Flat(sh, c), Size(Values(sh))) == c
  {
    FlatLength(sh, c);
    if sh.Fork? {
      var m, n := Size(Values(sh.left)), Size(Values(sh.right));
      var c' := Link(sh.node, Flat(sh.right, c));
      FlatLength(sh.right, c);
      FlatDrop(sh.right, c);
      FlatDrop(sh.left, c');
      DropDrop(Flat(sh.left, c'), m, n + 1);
    }
  }

  /** Rebuilds a tree in place; a temporary node closes the list. */
  method Rebalance<V>(node: Node<V>, size: nat, ghost sh: Shape<V>) returns (r: Node?<V>, ghost sh': Shape<V>)
    requires Proper(sh) && Holds(sh, node) && size == Size(Values(sh))
    modifies Nodes(sh)`left, Nodes(sh)`right
    ensures Proper(sh') && Holds(sh', r) && Nodes(sh') == Nodes(sh)
    ensures Values(sh') == Balanced(Inorder(old(Values(sh))))
  {
    NodesAllocated(sh);
    var pseudoroot := new Node(node.item);
    RebuiltShapeFacts(sh, pseudoroot, size);
    ghost var c := Flat(sh, Last(pseudoroot));
    sh' := RebuiltShape(sh, pseudoroot, size);
    var list := Linearize(node, pseudoroot, sh, Last(pseudoroot));
    var tail := Treeify(list, size, c);
    r := tail.left;
  }

  // ----- reading a tree

  function Count<V>(node: Node?<V>, ghost sh: Shape<V>): (n: nat)
    requires Holds(sh, node)
    reads Nodes(sh)
    ensures n == Size(Values(sh))
    decreases sh
  {
    if node == null then 0 else 1 + Count(node.left, sh.left) + Count(node.right, sh.right)
  }

  function Height<V>(node: Node?<V>, ghost sh: Shape<V>): (n: nat)
    requires Holds(sh, node)
    reads Nodes(sh)
    ensures n == Depth(Values(sh))
    decreases sh
  {
    if node == null then 0
    else
      var m1, m2 := Height(node.left, sh.left), Height(node.right, sh.right);
      (if m1 < m2 then m2 else m1) + 1
  }

  /** The node that holds the key, if there is one. */
  function Search<V>(node: Node?<V>, key: int, ghost sh: Shape<V>): (r: Node?<V>)
    requires Holds(sh, node)
    reads Nodes(sh)
    ensures r != null ==> r in Nodes(sh) && r.item.key == key
    ensures Find(Values(sh), key) == if r == null then None else Some(r.item.value)
    decreases sh
  {
    if node == null then null
    else if key < node.item.key then Search(node.left, key, sh.left)
    else if key > node.item.key then Search(node.right, key, sh.right)
    else node
  }

  // ----- removing the root of a subtree

  /** A way down the left pointers: nodes passed, with their right subtrees. */
  datatype Way<V> = Start | Down(up: Way<V>, node: Node<V>, right: Shape<V>)

  ghost function WayNodes<V>(w: Way<V>): set<Node<V>>
  {
    if w.Start? then {} else WayNodes(w.up) + {w.node} + Nodes(w.right)
  }

  /** The whole tree, when sh is the subtree at the end of the way. */
  ghost function Plug<V>(w: Way<V>, sh: Shape<V>): Shape<V>
  {
    if w.Start? then sh else Plug(w.up, Fork(sh, w.node, w.right))
  }

  /** From p, the way leads to the node q. */
  ghost predicate Leads<V>(w: Way<V>, p: Node?<V>, q: Node?<V>)
    reads WayNodes(w)`left, WayNodes(w)`right
  {
    if w.Start? then p == q
    else w.node.left == q && Holds(w.right, w.node.right) && Leads(w.up, p, w.node)
  }

  lemma {:induction false} WayAllocated<V>(w: Way<V>)
    ensures forall n :: n in WayNodes(w) ==> allocated(n)
  {
    if w.Down? {
      WayAllocated(w.up);
      NodesAllocated(w.right);
    }
  }

  lemma {:induction false} PlugNodes<V>(w: Way<V>, sh: Shape<V>)
    ensures Nodes(Plug(w, sh)) == WayNodes(w) + Nodes(sh)
  {
    if w.Down? {
      PlugNodes(w.up, Fork(sh, w.node, w.right));
    }
  }

  lemma {:induction false} PlugHolds<V>(w: Way<V>, sh: Shape<V>, p: Node?<V>, q: Node?<V>)
    requires Leads(w, p, q) && Holds(sh, q)
    ensures Holds(Plug(w, sh), p)
  {
    if w.Down? {
      PlugHolds(w.up, Fork(sh, w.node, w.right), p, w.node);
    }
  }

  /** Replacing the end of a way by a smaller tree. */
  lemma {:induction false} PlugProper<V>(w: Way<V>, sh: Shape<V>, sh': Shape<V>)
    requires Proper(Plug(w, sh)) && Proper(sh') && Nodes(sh') <= Nodes(sh)
    ensures Proper(Plug(w, sh')) && Proper(sh)
  {
    if w.Down? {
      ProperPart(w.up, Fork(sh, w.node, w.right));
      PlugProper(w.up, Fork(sh, w.node, w.right), Fork(sh', w.node, w.right));
    }
  }

  lemma {:induction false} ProperPart<V>(w: Way<V>, sh: Shape<V>)
    requires Proper(Plug(w, sh))
    ensures Proper(sh) && WayNodes(w) !! Nodes(sh)
    ensures w.Down? ==> w.node !in WayNodes(w.up) && w.node !in Nodes(w.right)
  {
    if w.Down? {
      ProperPart(w.up, Fork(sh, w.node, w.right));
    }
  }

  /** The way down ends at the least item. */
  lemma {:induction false} PlugValues<V>(w: Way<V>, sh: Shape<V>)
    requires sh.Fork? && sh.left.Leaf?
    ensures Values(Plug(w, sh)).Bin? && Least(Values(Plug(w, sh))) == sh.node.item
    ensures DropLeast(Values(Plug(w, sh))) == Values(Plug(w, sh.right))
  {
    PlugLeast(w, sh, sh.right);
  }

  lemma {:induction false} PlugLeast<V>(w: Way<V>, sh: Shape<V>, sh': Shape<V>)
    requires sh.Fork? && DropLeast(Values(sh)) == Values(sh')
    ensures Values(Plug(w, sh)).Bin? && Least(Values(Plug(w, sh))) == Least(Values(sh))
    ensures DropLeast(Values(Plug(w, sh))) == Values(Plug(w, sh'))
  {
    if w.Down? {
      PlugLeast(w.up, Fork(sh, w.node, w.right), Fork(sh', w.node, w.right));
    }
  }

  /** Finds the in-order successor of a node, and the node above it. */
  method Successor<V>(node: Node<V>, ghost sh: Shape<V>)
      returns (above: Node<V>, succ: Node<V>, ghost w: Way<V>, ghost s: Shape<V>)
    requires Proper(sh) && Holds(sh, node) && sh.Fork? && sh.right.Fork?
    ensures s.Fork? && s.left.Leaf? && sh.right == Plug(w, s)
    ensures Holds(s, succ) && Leads(w, node.right, succ) && above == if w.Start? then node else w.node
  {
    above, succ, w, s := node, node.right, Start, sh.right;
    while succ.left != null
      invariant s.Fork? && sh.right == Plug(w, s)
      invariant Holds(s, succ) && Leads(w, node.right, succ) && above == if w.Start? then node else w.node
      decreases s
    {
      above, succ, w, s := succ, succ.left, Down(w, succ, s.right), s.left;
    }
  }

  lemma {:induction false} CutFacts<V>(sh: Shape<V>, w: Way<V>, s: Shape<V>)
    requires Proper(sh) && sh.Fork? && s.Fork? && sh.right == Plug(w, s)
    ensures Proper(Plug(w, s.right)) && Nodes(Plug(w, s.right)) <= Nodes(sh.right)
    ensures sh.node !in WayNodes(w) && sh.node !in Nodes(s) && WayNodes(w) !! Nodes(s) && s.node !in Nodes(s.right)
    ensures w.Down? ==> w.node in Nodes(sh.right) && w.node !in WayNodes(w.up) && w.node !in Nodes(w.right)
  {
    ProperPart(w, s);
    PlugProper(w, s, s.right);
    PlugNodes(w, s);
    PlugNodes(w, s.right);
  }

  /** Lets the pointer to the successor point to what is right of it. */
  method Bypass<V>(node: Node<V>, above: Node<V>, succ: Node<V>, ghost sh: Shape<V>, ghost w: Way<V>, ghost s: Shape<V>)
    requires Proper(sh) && sh.Fork? && Holds(sh, node) && s.Fork? && sh.right == Plug(w, s)
    requires Holds(s, succ) && Leads(w, node.right, succ) && above == if w.Start? then node else w.node
    modifies node`right, (if w.Start? then {} else {above})`left
    ensures Holds(Plug(w, s.right), node.right) && Holds(sh.left, node.left)
  {
    CutFacts(sh, w, s);
    NodesAllocated(sh.left);
    NodesAllocated(s.right);
    if above == node {
      node.right := succ.right;
    } else {
      WayAllocated(w);
      above.left := succ.right;
      PlugHolds(w, s.right, node.right, succ.right);
    }
  }

  /** Moves the in-order successor's item into a node, and unlinks the successor. */
  method ReplaceBySuccessor<V>(node: Node<V>, ghost sh: Shape<V>) returns (ghost cut: Shape<V>)
    requires Proper(sh) && Holds(sh, node) && sh.Fork? && sh.right.Fork?
    modifies Nodes(sh)
    ensures Proper(cut) && Nodes(cut) <= Nodes(sh.right) && Holds(cut, node.right) && Holds(sh.left, node.left)
    ensures node.item == Least(old(Values(sh.right))) && Values(cut) == DropLeast(old(Values(sh.right)))
    ensures Values(sh.left) == old(Values(sh.left))
  {
    NodesAllocated(sh);
    var above, succ;
    ghost var w, s;
    above, succ, w, s := Successor(node, sh);
    cut := Plug(w, s.right);
    PlugValues(w, s);
    CutFacts(sh, w, s);
    node.item := succ.item;
    Bypass(node, above, succ, sh, w, s);
  }

  /** Unlinks the root of a subtree that has at most one child; otherwise its successor goes. */
  method RemoveNode<V>(node: Node<V>, ghost sh: Shape<V>) returns (r: Node?<V>, ghost sh': Shape<V>)
    requires Proper(sh) && Holds(sh, node) && sh.Fork?
    modifies Nodes(sh)
    ensures Proper(sh') && Holds(sh', r) && Nodes(sh') <= Nodes(sh)
    ensures Values(sh') == RemoveRoot(old(Values(sh)))
  {
    if node.left == null {
      r, sh' := node.right, sh.right;
    } else if node.right == null {
      r, sh' := node.left, sh.left;
    } else {
      ghost var cut := ReplaceBySuccessor(node, sh);
      r, sh' := node, Fork(sh.left, sh.node, cut);
    }
  }

  method RemoveAux<V>(node: Node?<V>, key: int, ghost sh: Shape<V>)
      returns (r: Node?<V>, found: bool, ghost sh': Shape<V>)
    requires Proper(sh) && Holds(sh, node)
    modifies Nodes(sh)
    ensures Proper(sh') && Holds(sh', r) && Nodes(sh') <= Nodes(sh)
    ensures Values(sh') == Remove(old(Values(sh)), key) && found == Find(old(Values(sh)), key).Some?
    decreases sh
  {
    NodesAllocated(sh);
    if node == null {
      r, found, sh' := null, false, Leaf;
    } else if key < node.item.key {
      var left;
      ghost var l;
      left, found, l := RemoveAux(node.left, key, sh.left);
      node.left := left;
      NodesAllocated(l);
      r, sh' := node, Fork(l, sh.node, sh.right);
    } else if key > node.item.key {
      var right;
      ghost var t;
      right, found, t := RemoveAux(node.right, key, sh.right);
      node.right := right;
      NodesAllocated(t);
      r, sh' := node, Fork(sh.left, sh.node, t);
    } else {
      found := true;
      r, sh' := RemoveNode(node, sh);
    }
  }

  // ----- inserting

  /** Decides at a node whose one subtree has grown whether it is the scapegoat. */
  method SettleAt<V>(node: Node<V>, lsize: nat, rsize: nat, ghost sh: Shape<V>)
      returns (r: Node?<V>, size: nat, ghost sh': Shape<V>)
    requires Proper(sh) && Holds(sh, node) && sh.Fork? && lsize == Size(Values(sh.left)) &&
             rsize == Size(Values(sh.right))
    modifies Nodes(sh)`left, Nodes(sh)`right
    ensures Proper(sh') && Holds(sh', r) && Nodes(sh') == Nodes(sh)
    ensures (Values(sh'), size) == Settle(old(Values(sh.left)), node.item, old(Values(sh.right)), lsize, rsize)
  {
    size := lsize + rsize + 1;
    if 3 * lsize <= 2 * size && 3 * rsize <= 2 * size {
      r, sh' := node, sh;
    } else {
      r, sh' := Rebalance(node, size, sh);
      size := 0;
    }
  }

  /** Links a left subtree that may have grown; a size of 0 means that all is settled. */
  method GrownLeft<V>(node: Node<V>, left: Node?<V>, lsize: nat, ghost sh: Shape<V>, ghost l: Shape<V>)
      returns (r: Node?<V>, size: nat, ghost sh': Shape<V>)
    requires sh.Fork? && node == sh.node && Proper(Fork(l, sh.node, sh.right))
    requires Holds(l, left) && Holds(sh.right, node.right) && (lsize != 0 ==> lsize == Size(Values(l)))
    modifies (Nodes(l) + {node} + Nodes(sh.right))`left, (Nodes(l) + {node} + Nodes(sh.right))`right
    ensures Proper(sh') && Holds(sh', r) && Nodes(sh') == Nodes(l) + {node} + Nodes(sh.right)
    ensures (Values(sh'), size) ==
            GrowLeft(old(Values(l)), lsize, node.item, old(Values(sh.right)))
  {
    NodesAllocated(l);
    NodesAllocated(sh.right);
    node.left := left;
    r, size, sh' := node, 0, Fork(l, sh.node, sh.right);
    if lsize != 0 {
      r, size, sh' := SettleAt(node, lsize, Count(node.right, sh.right), sh');
    }
  }

  method GrownRight<V>(node: Node<V>, right: Node?<V>, rsize: nat, ghost sh: Shape<V>, ghost t: Shape<V>)
      returns (r: Node?<V>, size: nat, ghost sh': Shape<V>)
    requires sh.Fork? && node == sh.node && Proper(Fork(sh.left, sh.node, t))
    requires Holds(t, right) && Holds(sh.left, node.left) && (rsize != 0 ==> rsize == Size(Values(t)))
    modifies (Nodes(sh.left) + {node} + Nodes(t))`left, (Nodes(sh.left) + {node} + Nodes(t))`right
    ensures Proper(sh') && Holds(sh', r) && Nodes(sh') == Nodes(sh.left) + {node} + Nodes(t)
    ensures (Values(sh'), size) ==
            GrowRight(old(Values(sh.left)), node.item, old(Values(t)), rsize)
  {
    NodesAllocated(t);
    NodesAllocated(sh.left);
    node.right := right;
    r, size, sh' := node, 0, Fork(sh.left, sh.node, t);
    if rsize != 0 {
      r, size, sh' := SettleAt(node, Count(node.left, sh.left), rsize, sh');
    }
  }

  lemma {:induction false} FindContents<V>(t: Tree<V>, key: int)
    requires SearchTree(t)
    ensures Find(t, key) == if key in Entries(t) then Some(Entries(t)[key]) else None
  {
    var lo, hi :| Between(t, lo, hi);
    FindEntries(t, key, lo, hi);
  }

  lemma {:induction false} RemoveNothing<V>(t: Tree<V>, key: int)
    requires Find(t, key).None?
    ensures ScapegoatTree.Remove(t, key) == t
  {
    if t.Bin? {
      if key < t.item.key {
        RemoveNothing(t.left, key);
      } else {
        RemoveNothing(t.right, key);
      }
    }
  }

  lemma {:induction false} InsertLeft<V>(t: Tree<V>, x: Item<V>, d: nat, nodes: int)
    requires t.Bin? && x.key < t.item.key
    ensures var (l, lsize) := Insert(t.left, x, d + 1, nodes);
            && (lsize != 0 ==> lsize == Size(l)) && Find(t, x.key) == Find(t.left, x.key)
            && Insert(t, x, d, nodes) == GrowLeft(l, lsize, t.item, t.right)
  {
    InsertReturn(t.left, x, d + 1, nodes);
  }

  lemma {:induction false} InsertRight<V>(t: Tree<V>, x: Item<V>, d: nat, nodes: int)
    requires t.Bin? && x.key > t.item.key
    ensures var (r, rsize) := Insert(t.right, x, d + 1, nodes);
            && (rsize != 0 ==> rsize == Size(r)) && Find(t, x.key) == Find(t.right, x.key)
            && Insert(t, x, d, nodes) == GrowRight(t.left, t.item, r, rsize)
  {
    InsertReturn(t.right, x, d + 1, nodes);
  }

  class ScapegoatMap<V> {
    var nodes: int
    var maxnodes: int
    var root: Node?<V>
    ghost var shape: Shape<V>

    /** The tree and its counters as values. */
    ghost function Model(): State<V>
      reads this, Nodes(shape)
    {
      State(Values(shape), nodes, maxnodes)
    }

    ghost predicate Valid()
      reads this, Nodes(shape)
    {
      Proper(shape) && Holds(shape, root) && Inv(Model())
    }

    /** The finite map that the tree stands for. */
    ghost function Contents(): map<int, V>
      reads this, Nodes(shape)
    {
      Entries(Values(shape))
    }

    constructor ()
      ensures Valid() && Model() == State(Nil, 0, 0) && Contents() == map[] && Nodes(shape) == {}
    {
      nodes, maxnodes, root, shape := 0, 0, null, Leaf;
      new;
      assert Between(Values(shape), 0, 0);
    }

    method NewLeaf(item: Item<V>, d: nat) returns (r: Node<V>, size: nat, ghost sh: Shape<V>)
      modifies this`nodes
      ensures sh == Fork(Leaf, r, Leaf) && fresh(r) && r.left == null && r.right == null
      ensures nodes == old(nodes) + 1 && (Values(sh), size) == ScapegoatTree.Insert(Nil, item, d, nodes)
    {
      r := new Node(item);
      nodes := nodes + 1;
      size := if MinNodes(d) > nodes then 1 else 0;
      sh := Fork(Leaf, r, Leaf);
    }

    /** Inserts into the subtree at node, which lies d levels down; `size` is 0 if no scapegoat is wanted. */
    method InsertAux(node: Node?<V>, item: Item<V>, d: nat, ghost sh: Shape<V>)
        returns (r: Node?<V>, size: nat, ghost sh': Shape<V>)
      requires Proper(sh) && Holds(sh, node)
      modifies Nodes(sh), this`nodes
      ensures Proper(sh') && Holds(sh', r) && fresh(Nodes(sh') - Nodes(sh))
      ensures (Values(sh'), size) == ScapegoatTree.Insert(old(Values(sh)), item, d, old(nodes) + 1)
      ensures nodes == if Find(old(Values(sh)), item.key).Some? then old(nodes) else old(nodes) + 1
      decreases sh, 1, 0
    {
      if node == null {
        r, size, sh' := NewLeaf(item, d);
      } else if item.key < node.item.key {
        r, size, sh' := InsertSmaller(node, item, d, sh);
      } else if item.key > node.item.key {
        r, size, sh' := InsertLarger(node, item, d, sh);
      } else {
        NodesAllocated(sh);
        node.item := item;
        r, size, sh' := node, 0, sh;
      }
    }

    method InsertSmaller(node: Node<V>, item: Item<V>, d: nat, ghost sh: Shape<V>)
        returns (r: Node?<V>, size: nat, ghost sh': Shape<V>)
      requires Proper(sh) && Holds(sh, node) && item.key < node.item.key
      modifies Nodes(sh), this`nodes
      ensures Proper(sh') && Holds(sh', r) && fresh(Nodes(sh') - Nodes(sh))
      ensures (Values(sh'), size) == ScapegoatTree.Insert(old(Values(sh)), item, d, old(nodes) + 1)
      ensures nodes == if Find(old(Values(sh)), item.key).Some? then old(nodes) else old(nodes) + 1
      decreases sh, 0, 1
    {
      InsertLeft(Values(sh), item, d, nodes + 1);
      r, size, sh' := InsertBelowLeft(node, item, d, sh);
    }

    method InsertLarger(node: Node<V>, item: Item<V>, d: nat, ghost sh: Shape<V>)
        returns (r: Node?<V>, size: nat, ghost sh': Shape<V>)
      requires Proper(sh) && Holds(sh, node) && item.key > node.item.key
      modifies Nodes(sh), this`nodes
      ensures Proper(sh') && Holds(sh', r) && fresh(Nodes(sh') - Nodes(sh))
      ensures (Values(sh'), size) == ScapegoatTree.Insert(old(Values(sh)), item, d, old(nodes) + 1)
      ensures nodes == if Find(old(Values(sh)), item.key).Some? then old(nodes) else old(nodes) + 1
      decreases sh, 0, 1
    {
      InsertRight(Values(sh), item, d, nodes + 1);
      r, size, sh' := InsertBelowRight(node, item, d, sh);
    }

    method InsertBelowLeft(node: Node<V>, item: Item<V>, d: nat, ghost sh: Shape<V>)
        returns (r: Node?<V>, size: nat, ghost sh': Shape<V>)
      requires Proper(sh) && Holds(sh, node)
      modifies Nodes(sh), this`nodes
      ensures Proper(sh') && Holds(sh', r) && fresh(Nodes(sh') - Nodes(sh))
      ensures var (l, lsize) := ScapegoatTree.Insert(old(Values(sh.left)), item, d + 1, old(nodes) + 1);
              (Values(sh'), size) == GrowLeft(l, lsize, old(node.item), old(Values(sh.right)))
      ensures nodes == if Find(old(Values(sh.left)), item.key).Some? then old(nodes) else old(nodes) + 1
      decreases sh, 0, 0
    {
      NodesAllocated(sh);
      InsertReturn(Values(sh.left), item, d + 1, nodes + 1);
      var left, lsize;
      ghost var l;
      left, lsize, l := InsertAux(node.left, item, d + 1, sh.left);
      r, size, sh' := GrownLeft(node, left, lsize, sh, l);
    }

    method InsertBelowRight(node: Node<V>, item: Item<V>, d: nat, ghost sh: Shape<V>)
        returns (r: Node?<V>, size: nat, ghost sh': Shape<V>)
      requires Proper(sh) && Holds(sh, node)
      modifies Nodes(sh), this`nodes
      ensures Proper(sh') && Holds(sh', r) && fresh(Nodes(sh') - Nodes(sh))
      ensures var (t, rsize) := ScapegoatTree.Insert(old(Values(sh.right)), item, d + 1, old(nodes) + 1);
              (Values(sh'), size) == GrowRight(old(Values(sh.left)), old(node.item), t, rsize)
      ensures nodes == if Find(old(Values(sh.right)), item.key).Some? then old(nodes) else old(nodes) + 1
      decreases sh, 0, 0
    {
      NodesAllocated(sh);
      InsertReturn(Values(sh.right), item, d + 1, nodes + 1);
      var right, rsize;
      ghost var t;
      right, rsize, t := InsertAux(node.right, item, d + 1, sh.right);
      r, size, sh' := GrownRight(node, right, rsize, sh, t);
    }

    /** Inserts into the whole tree; the counters still have to be brought up to date. */
    method InsertTree(item: Item<V>) returns (r: Node?<V>, ghost sh: Shape<V>)
      requires Proper(shape) && Holds(shape, root)
      modifies this`nodes, Nodes(shape)
      ensures Proper(sh) && Holds(sh, r) && fresh(Nodes(sh) - Nodes(shape))
      ensures Values(sh) == Inserted(old(Values(shape)), item, old(nodes) + 1)
      ensures nodes == if Find(old(Values(shape)), item.key).Some? then old(nodes) else old(nodes) + 1
    {
      InsertReturn(Values(shape), item, 0, nodes + 1);
      var size;
      r, size, sh := InsertAux(root, item, 0, shape);
      if size > 0 {
        NodesAllocated(sh);
        r, sh := Rebalance(r, size, sh);
      }
    }

    /** As above, with the new largest number of nodes. */
    method InsertCounted(item: Item<V>) returns (r: Node?<V>, m: int, ghost sh: Shape<V>)
      requires Proper(shape) && Holds(shape, root)
      modifies this`nodes, Nodes(shape)
      ensures Proper(sh) && Holds(sh, r) && fresh(Nodes(sh) - Nodes(shape))
      ensures State(Values(sh), nodes, m) == Apply(old(Model()), Put(item))
    {
      r, sh := InsertTree(item);
      m := if nodes > maxnodes then nodes else maxnodes;
    }

    method Insert(item: Item<V>)
      requires Valid()
      modifies this, Nodes(shape)
      ensures Valid() && Model() == Apply(old(Model()), Put(item))
      ensures Contents() == old(Contents())[item.key := item.value]
      ensures fresh(Nodes(shape) - old(Nodes(shape)))
    {
      ApplyKeeps(Model(), Put(item));
      var r, m;
      ghost var sh;
      r, m, sh := InsertCounted(item);
      NodesAllocated(sh);
      Become(r, nodes, m, sh);
    }

    /** Takes over a new tree. */
    method Become(r: Node?<V>, n: int, m: int, ghost sh: Shape<V>)
      modifies this
      ensures root == r && nodes == n && maxnodes == m && shape == sh
    {
      root, nodes, maxnodes, shape := r, n, m, sh;
    }

    function Lookup(key: int): (r: Node?<V>)
      requires Valid()
      reads this, Nodes(shape)
      ensures r == null <==> key !in Contents()
      ensures r != null ==> r.item == Item(key, Contents()[key])
    {
      FindContents(Values(shape), key);
      Search(root, key, shape)
    }

    method Remove(key: int)
      requires Valid()
      modifies this, Nodes(shape)
      ensures Valid() && Model() == Apply(old(Model()), Delete(key))
      ensures Contents() == old(Contents()) - {key}
      ensures Nodes(shape) <= old(Nodes(shape))
    {
      ApplyKeeps(Model(), Delete(key));
      var r, n, m;
      ghost var sh;
      r, n, m, sh := RemoveTree(key);
      NodesAllocated(sh);
      Become(r, n, m, sh);
    }

    /** Removes from the whole tree, which is rebuilt when it has shrunk too far. */
    method RemoveTree(key: int) returns (r: Node?<V>, n: int, m: int, ghost sh: Shape<V>)
      requires Proper(shape) && Holds(shape, root) && nodes == Size(Values(shape))
      modifies Nodes(shape)
      ensures Proper(sh) && Holds(sh, r) && Nodes(sh) <= Nodes(shape)
      ensures State(Values(sh), n, m) == Apply(old(Model()), Delete(key))
    {
      RemoveShape(Values(shape), key);
      var found;
      ghost var t := Values(shape);
      r, found, sh := RemoveAux(root, key, shape);
      n, m := nodes, maxnodes;
      if !found {
        RemoveNothing(t, key);
        return;
      }
      n := n - 1;
      if 3 * n <= 2 * m {
        if r != null {
          r, sh := Rebalance(r, n, sh);
        }
        m := n;
      }
    }

    method Clear()
      requires Valid()
      modifies this
      ensures Valid() && Model() == Apply(old(Model()), Op.Clear) && Contents() == map[]
    {
      nodes, maxnodes, root, shape := 0, 0, null, Leaf;
      assert Between(Values(shape), 0, 0);
    }
  }
}
