/**
  What the operations of a scapegoat tree cost, in calls: rebuilding is expensive, but the
  insertions and deletions that make it necessary pay for it in advance.
 */
module ScapegoatCost {
  import opened Powers
  import opened ScapegoatTree
  import opened ScapegoatHistory

  // ----- counting calls

  /** A recursion through a whole tree, as for counting, linking up and deleting the nodes. */
  function Calls<V>(t: Tree<V>): (n: nat)
    ensures n == 2 * Size(t) + 1
  {
    if t.Nil? then 1 else 1 + Calls(t.left) + Calls(t.right)
  }

  /** Making a tree of a list of n nodes. */
  function TreeifyCalls(n: nat): (c: nat)
    ensures c == 2 * n + 1
  {
    if n == 0 then 1
    else
      var n2 := (n - 1) / 2;
      1 + TreeifyCalls(n - 1 - n2) + TreeifyCalls(n2)
  }

  function RebuildCalls<V>(t: Tree<V>): nat
  {
    Calls(t) + TreeifyCalls(Size(t))
  }

  /** Counting the other subtree, and rebuilding where a scapegoat has been found. */
  function SettleCalls<V>(t: Tree<V>, other: Tree<V>, size: nat): nat
  {
    if size == 0 then 0
    else Calls(other) + if WeightBalanced(size, Size(other)) then 0 else RebuildCalls(t)
  }

  function InsertCalls<V>(t: Tree<V>, x: Item<V>, d: nat, nodes: int): nat
  {
    if t.Nil? then 1
    else if x.key < t.item.key then
      var (left, size) := Insert(t.left, x, d + 1, nodes);
      1 + InsertCalls(t.left, x, d + 1, nodes) + SettleCalls(Bin(left, t.item, t.right), t.right, size)
    else if x.key > t.item.key then
      var (right, size) := Insert(t.right, x, d + 1, nodes);
      1 + InsertCalls(t.right, x, d + 1, nodes) + SettleCalls(Bin(t.left, t.item, right), t.left, size)
    else 1
  }

  /** Steps of the loop that looks for the least item. */
  function Steps<V>(t: Tree<V>): (n: nat)
    ensures n <= Depth(t)
  {
    if t.Nil? || t.left.Nil? then 0 else 1 + Steps(t.left)
  }

  function RemoveCalls<V>(t: Tree<V>, key: int): (n: nat)
    ensures n <= Depth(t) + 2
  {
    if t.Nil? then 1
    else if key < t.item.key then 1 + RemoveCalls(t.left, key)
    else if key > t.item.key then 1 + RemoveCalls(t.right, key)
    else if t.left.Bin? && t.right.Bin? then 3 + Steps(t.right)
    else 2
  }

  function OpCalls<V>(s: State<V>, op: Op<V>): nat
  {
    match op
    case Put(x) =>
      var (t, size) := Insert(s.tree, x, 0, s.nodes + 1);
      InsertCalls(s.tree, x, 0, s.nodes + 1) + if size > 0 then RebuildCalls(t) else 0
    case Delete(key) =>
      var t := Remove(s.tree, key);
      RemoveCalls(s.tree, key) +
      if Find(s.tree, key).Some? && 3 * (s.nodes - 1) <= 2 * s.maxnodes && t.Bin? then RebuildCalls(t) else 0
    case Clear => Calls(s.tree)
  }

  // ----- what is saved up

  /** By how much the subtrees differ in size, if it is more than one node. */
  function Skew(lsize: nat, rsize: nat): nat
  {
    if lsize > rsize + 1 then lsize - rsize - 1 else if rsize > lsize + 1 then rsize - lsize - 1 else 0
  }

  function Skews<V>(t: Tree<V>): nat
  {
    if t.Nil? then 0 else Skews(t.left) + Skews(t.right) + Skew(Size(t.left), Size(t.right))
  }

  function Saved<V>(s: State<V>): int
  {
    18 * Skews(s.tree) + 8 * (s.maxnodes - s.nodes) + 2 * Size(s.tree)
  }

  /** A rebuilt tree is not skew anywhere. */
  lemma {:induction false} BalancedNotSkew<V>(s: seq<Item<V>>)
    ensures Skews(Balanced(s)) == 0 && Size(Balanced(s)) == |s|
    decreases |s|
  {
    if s != [] {
      var n2 := (|s| - 1) / 2;
      var n1 := |s| - 1 - n2;
      BalancedNotSkew(s[..n1]);
      BalancedNotSkew(s[n1 + 1..]);
    }
  }

  /** A scapegoat is so skew that this pays for its rebuilding. */
  lemma {:induction false} ScapegoatPays(lsize: nat, rsize: nat)
    requires !WeightBalanced(lsize, rsize)
    ensures 3 * Skew(lsize, rsize) >= lsize + rsize + 2
  {
  }

  // ----- insertion

  /** One level further up: t has become the tree with this child. */
  lemma {:induction false} SettlePays<V>(t: Tree<V>, child: Tree<V>, child': Tree<V>, other: Tree<V>, u: Tree<V>,
                                         size: nat, calls: nat, k: nat)
    requires t.Bin? && u.Bin? && u.item == t.item && 0 <= Size(child') - Size(child) <= 1
    requires (t.left == child && t.right == other && u.left == child' && u.right == other) ||
             (t.right == child && t.left == other && u.right == child' && u.left == other)
    requires size == 0 ==> calls + 18 * Skews(child') <= 18 * Skews(child) + 19 * (k + 1)
    requires size != 0 ==> size == Size(child') && calls <= 2 * size + k
    ensures var all := 1 + calls + SettleCalls(u, other, size);
            if size != 0 && WeightBalanced(size, Size(other)) then all <= 2 * Size(u) + (k + 1)
            else if size == 0 then all + 18 * Skews(u) <= 18 * Skews(t) + 19 * (k + 2)
            else all <= 18 * Skews(t) + 19 * (k + 2)
  {
    SkewGrows(Size(t.left), Size(t.right), Size(u.left), Size(u.right));
    if size != 0 && !WeightBalanced(size, Size(other)) {
      ScapegoatPays(size, Size(other));
    }
  }

  lemma {:induction false} SkewGrows(l: nat, r: nat, l': nat, r': nat)
    requires (l' == l && r <= r' <= r + 1) || (r' == r && l <= l' <= l + 1)
    ensures Skew(l', r') <= Skew(l, r) + 1
  {
  }

  /** Either nothing is left to do, and skewness has paid for it, or no subtree has been rebuilt yet. */
  lemma {:induction false} InsertPays<V>(t: Tree<V>, x: Item<V>, d: nat, nodes: int)
    ensures var (t', r) := Insert(t, x, d, nodes);
            var calls, k := InsertCalls(t, x, d, nodes), InsertDepth(t, x.key);
            if r == 0 then calls + 18 * Skews(t') <= 18 * Skews(t) + 19 * (k + 1) else calls <= 2 * r + k
  {
    if t.Bin? && x.key != t.item.key {
      var less := x.key < t.item.key;
      var child, other := if less then t.left else t.right, if less then t.right else t.left;
      InsertPays(child, x, d + 1, nodes);
      InsertSize(child, x, d + 1, nodes);
      InsertReturn(child, x, d + 1, nodes);
      var (child', size) := Insert(child, x, d + 1, nodes);
      var u := if less then Bin(child', t.item, other) else Bin(other, t.item, child');
      SettlePays(t, child, child', other, u, size, InsertCalls(child, x, d + 1, nodes), InsertDepth(child, x.key));
      BalancedNotSkew(Inorder(u));
    }
  }

  lemma {:induction false} InsertDepthBelow<V>(t: Tree<V>, key: int)
    ensures InsertDepth(t, key) <= Depth(t)
  {
    if t.Bin? && t.item.key != key {
      InsertDepthBelow(if key < t.item.key then t.left else t.right, key);
    }
  }

  lemma {:induction false} InsertFacts<V>(t: Tree<V>, x: Item<V>) returns (t': Tree<V>, found: bool, calls: nat)
    ensures InsertedAs(t, x, t', found, calls) && Size(t') == Size(t) + if found then 0 else 1
    ensures calls + 18 * Skews(t') <= 18 * Skews(t) + 19 * (Depth(t) + 1)
  {
    var n := Size(t) + 1;
    t', found, calls := Insert(t, x, 0, n).0, Find(t, x.key).Some?, InsertCalls(t, x, 0, n);
    InsertPays(t, x, 0, n);
    InsertDepthBelow(t, x.key);
    ScapegoatExists(t, x);
    InsertSize(t, x, 0, n);
  }

  ghost predicate InsertedAs<V>(t: Tree<V>, x: Item<V>, t': Tree<V>, found: bool, calls: nat)
  {
    && (t', 0) == Insert(t, x, 0, Size(t) + 1)
    && found == Find(t, x.key).Some? && calls == InsertCalls(t, x, 0, Size(t) + 1)
  }

  /** An operation took these calls and led to this state. */
  ghost predicate Took<V>(s: State<V>, op: Op<V>, calls: nat, r: State<V>)
  {
    calls == OpCalls(s, op) && r == Apply(s, op)
  }

  lemma {:induction false} PutCalls<V>(s: State<V>, x: Item<V>, t: Tree<V>, found: bool, calls: nat)
    requires s.nodes == Size(s.tree) && InsertedAs(s.tree, x, t, found, calls)
    ensures OpCalls(s, Put(x)) == calls
  {
  }

  lemma {:induction false} PutState<V>(s: State<V>, x: Item<V>, t: Tree<V>, found: bool, calls: nat)
    requires s.nodes == Size(s.tree) && InsertedAs(s.tree, x, t, found, calls)
    ensures Apply(s, Put(x)) == Added(s, t, found)
  {
  }

  lemma {:induction false} PutTook<V>(s: State<V>, x: Item<V>, t: Tree<V>, found: bool, calls: nat)
    requires s.nodes == Size(s.tree) && InsertedAs(s.tree, x, t, found, calls)
    ensures Took(s, Put(x), calls, Added(s, t, found))
  {
    PutCalls(s, x, t, found, calls);
    PutState(s, x, t, found, calls);
  }

  lemma {:induction false} PutPays<V>(s: State<V>, x: Item<V>) returns (calls: nat, r: State<V>)
    requires Inv(s)
    ensures Took(s, Put(x), calls, r) && calls + Saved(r) <= Saved(s) + 21 * (Depth(s.tree) + 1)
  {
    var t, found;
    t, found, calls := InsertFacts(s.tree, x);
    PutTook(s, x, t, found, calls);
    AddedPays(s, t, found, calls, Depth(s.tree));
    r := Added(s, t, found);
  }

  lemma {:induction false} AddedPays<V>(s: State<V>, t: Tree<V>, found: bool, calls: nat, k: nat)
    requires Inv(s) && k <= Depth(s.tree) && Size(t) == Size(s.tree) + if found then 0 else 1
    requires calls + 18 * Skews(t) <= 18 * Skews(s.tree) + 19 * (k + 1)
    ensures calls + Saved(Added(s, t, found)) <= Saved(s) + 21 * (Depth(s.tree) + 1)
  {
  }

  // ----- deletion

  lemma {:induction false} DropLeastSkews<V>(t: Tree<V>)
    requires t.Bin?
    ensures Skews(DropLeast(t)) <= Skews(t) + Depth(t)
  {
    if t.left.Bin? {
      DropLeastSkews(t.left);
      LeastFirst(t.left);
    }
  }

  lemma {:induction false} RemoveSkews<V>(t: Tree<V>, key: int)
    ensures Skews(Remove(t, key)) <= Skews(t) + Depth(t)
  {
    if t.Bin? {
      if key < t.item.key {
        RemoveSkews(t.left, key);
        RemoveShape(t.left, key);
      } else if key > t.item.key {
        RemoveSkews(t.right, key);
        RemoveShape(t.right, key);
      } else if t.left.Bin? && t.right.Bin? {
        DropLeastSkews(t.right);
        LeastFirst(t.right);
      }
    }
  }

  lemma {:induction false} DeletePays<V>(s: State<V>, key: int) returns (calls: nat, r: State<V>)
    requires Inv(s)
    ensures Took(s, Delete(key), calls, r) && calls + Saved(r) <= Saved(s) + 21 * (Depth(s.tree) + 1)
  {
    calls, r := OpCalls(s, Delete(key)), Apply(s, Delete(key));
    var t := Remove(s.tree, key);
    RemoveSkews(s.tree, key);
    RemoveShape(s.tree, key);
    BalancedNotSkew(Inorder(t));
    InorderSize(t);
  }

  // ----- histories

  /** An operation costs what is saved up, and a small multiple of the number of levels. */
  lemma {:induction false} OpPays<V>(s: State<V>, op: Op<V>) returns (calls: nat, r: State<V>)
    requires Inv(s)
    ensures Took(s, op, calls, r) && calls + Saved(r) <= Saved(s) + 21 * (Depth(s.tree) + 1)
  {
    match op
    case Put(x) => calls, r := PutPays(s, x);
    case Delete(key) => calls, r := DeletePays(s, key);
    case Clear => calls, r := Calls(s.tree), State(Nil, 0, 0);
  }

  ghost function TotalCalls<V>(ops: seq<Op<V>>): nat
  {
    if ops == [] then 0
    else TotalCalls(ops[..|ops| - 1]) + OpCalls(Run(ops[..|ops| - 1]), ops[|ops| - 1])
  }

  /** A history took these calls and led to this state. */
  ghost predicate TookAll<V>(ops: seq<Op<V>>, total: nat, s: State<V>)
  {
    total == TotalCalls(ops) && s == Run(ops)
  }

  lemma {:induction false} TookMore<V>(ops: seq<Op<V>>, total: nat, s: State<V>, calls: nat, r: State<V>)
    requires ops != [] && TookAll(ops[..|ops| - 1], total, s) && Took(s, ops[|ops| - 1], calls, r)
    ensures TookAll(ops, total + calls, r)
  {
  }

  lemma {:induction false} TookFacts<V>(ops: seq<Op<V>>, total: nat, s: State<V>)
    requires TookAll(ops, total, s)
    ensures Inv(s) && s.nodes <= |ops|
  {
    HistoryKeeps(ops);
    NodesBelow(ops);
  }

  lemma {:induction false} NodesBelow<V>(ops: seq<Op<V>>)
    ensures Run(ops).nodes <= |ops|
  {
    if ops != [] {
      NodesBelow(ops[..|ops| - 1]);
    }
  }

  lemma {:induction false} PowersApart(n: nat, d: nat, e: nat)
    requires Pow(3, d) > n * Pow(2, d) && d <= e
    ensures Pow(3, e) > n * Pow(2, e)
    decreases e
  {
    if d < e {
      PowersApart(n, d, e - 1);
      assert Pow(3, e) == 3 * Pow(3, e - 1) && Pow(2, e) == 2 * Pow(2, e - 1);
      Doubled(n, Pow(2, e - 1));
    }
  }

  lemma {:induction false} Doubled(n: nat, p: nat)
    ensures n * (2 * p) == 2 * (n * p)
  {
  }

  /** With fewer than (3/2)^d nodes there are at most d + 1 levels. */
  lemma {:induction false} DepthBelow<V>(s: State<V>, n: nat, d: nat)
    requires Inv(s) && s.nodes <= n && Pow(3, d) > n * Pow(2, d)
    ensures Depth(s.tree) <= d + 1
  {
    if Depth(s.tree) > d + 1 {
      var e := Depth(s.tree) - 2;
      HeightBound(s);
      PowersApart(n, d, e);
      MulMono(s.nodes, n, Pow(2, e));
    }
  }

  /** What m operations may cost in a tree of d + 1 levels. */
  ghost function Allowance(d: nat, m: nat): nat
  {
    if m == 0 then 0 else Allowance(d, m - 1) + 21 * (d + 2)
  }

  lemma {:induction false} AllowanceIs(d: nat, m: nat)
    ensures Allowance(d, m) == 21 * (d + 2) * m
  {
    if m > 0 {
      AllowanceIs(d, m - 1);
      assert 21 * (d + 2) * m == 21 * (d + 2) * (m - 1) + 21 * (d + 2);
    }
  }

  /** The calls of a history, and what is saved up in the end, are within what is allowed. */
  ghost predicate Paid<V>(ops: seq<Op<V>>, d: nat, total: nat, s: State<V>)
  {
    TookAll(ops, total, s) && total + Saved(s) <= Allowance(d, |ops|)
  }

  lemma {:induction false} HistoryPays<V>(ops: seq<Op<V>>, n: nat, d: nat) returns (total: nat, s: State<V>)
    requires |ops| <= n && Pow(3, d) > n * Pow(2, d)
    ensures Paid(ops, d, total, s)
    decreases |ops|
  {
    if ops == [] {
      total, s := 0, State(Nil, 0, 0);
    } else {
      total, s := HistoryPays(ops[..|ops| - 1], n, d);
      total, s := OneMorePaid(ops, n, d, total, s);
    }
  }

  lemma {:induction false} OneMorePaid<V>(ops: seq<Op<V>>, n: nat, d: nat, t0: nat, s0: State<V>)
      returns (total: nat, s: State<V>)
    requires 0 < |ops| <= n && Pow(3, d) > n * Pow(2, d) && Paid(ops[..|ops| - 1], d, t0, s0)
    ensures Paid(ops, d, total, s)
  {
    TookFacts(ops[..|ops| - 1], t0, s0);
    var calls;
    calls, s := StepPays(s0, ops[|ops| - 1], t0, n, d, |ops| - 1);
    TookMore(ops, t0, s0, calls, s);
    total := t0 + calls;
  }

  lemma {:induction false} StepPays<V>(s: State<V>, op: Op<V>, total: nat, n: nat, d: nat, m: nat)
      returns (calls: nat, r: State<V>)
    requires Inv(s) && s.nodes <= n && Pow(3, d) > n * Pow(2, d) && total + Saved(s) <= Allowance(d, m)
    ensures Took(s, op, calls, r) && total + calls + Saved(r) <= Allowance(d, m + 1)
  {
    DepthBelow(s, n, d);
    calls, r := OpPays(s, op);
  }

  /**
    Amortized logarithmic cost: n operations on a tree that starts empty take at most 21 (d + 2) n
    calls, where d is any number above log n to the base 3/2.
   */
  lemma {:induction false} Amortized<V>(ops: seq<Op<V>>, d: nat)
    requires Pow(3, d) > |ops| * Pow(2, d)
    ensures TotalCalls(ops) <= 21 * (d + 2) * |ops|
  {
    var total, s := HistoryPays(ops, |ops|, d);
    TookFacts(ops, total, s);
    AllowanceIs(d, |ops|);
  }
}
