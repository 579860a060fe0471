/**
  Standardizing a coset table: cosets are renumbered, in place, in the order in which they
  are first met when the rows are read one after the other.
 */
module CosetStandard {
  import opened Pigeonhole
  import CosetTable
  import Gaps

  // ----- exchanging two cosets

  function Swap(l: int, m: int, c: int): int
  {
    if c == l then m else if c == m then l else c
  }

  /** Entries of a column are cosets, or 0 where undefined. */
  predicate Column(col: seq<int>)
  {
    forall c :: 1 <= c < |col| ==> 0 <= col[c] < |col|
  }

  /** The columns are mutually inverse partial injections. */
  ghost predicate Inverse(h: seq<int>, i: seq<int>)
  {
    && |h| == |i| && Column(h) && Column(i)
    && (forall c :: 1 <= c < |h| && h[c] > 0 ==> i[h[c]] == c)
    && (forall c :: 1 <= c < |i| && i[c] > 0 ==> h[i[c]] == c)
  }

  /** Exchanges the values l and m in column i; c1 and c2 are where they stand, if they do. */
  function Relabel(i: seq<int>, c1: int, c2: int, l: int, m: int): (r: seq<int>)
    requires 0 <= c1 < |i| && 0 <= c2 < |i|
    ensures |r| == |i|
  {
    var i1 := if c1 != 0 then i[c1 := m] else i;
    if c2 != 0 then i1[c2 := l] else i1
  }

  function Exchange(h: seq<int>, l: int, m: int): (r: seq<int>)
    requires 0 <= l < |h| && 0 <= m < |h|
    ensures |r| == |h|
  {
    h[l := h[m]][m := h[l]]
  }

  ghost predicate Two(n: int, l: int, m: int)
  {
    1 <= l < n && 1 <= m < n && l != m
  }

  lemma {:induction false} RelabelIs(h: seq<int>, i: seq<int>, l: int, m: int)
    requires Inverse(h, i) && Two(|h|, l, m)
    ensures var r := Relabel(i, h[l], h[m], l, m); forall c :: 1 <= c < |i| ==> r[c] == Swap(l, m, i[c])
  {
  }

  lemma {:induction false} ExchangeIs(h: seq<int>, l: int, m: int)
    requires Two(|h|, l, m)
    ensures var r := Exchange(h, l, m); forall c :: 1 <= c < |h| ==> r[c] == h[Swap(l, m, c)]
  {
  }

  /** Half of the work: values are exchanged in one column, positions in the other. */
  lemma {:induction false} HalfInverse(h: seq<int>, i: seq<int>, h1: seq<int>, i1: seq<int>, l: int, m: int)
    requires Inverse(h, i) && Two(|h|, l, m) && |h1| == |i1| == |h|
    requires forall c :: 1 <= c < |h| ==> h1[c] == h[Swap(l, m, c)]
    requires forall c :: 1 <= c < |h| ==> i1[c] == Swap(l, m, i[c])
    ensures Inverse(h1, i1)
  {
  }

  /** The column conjugated by the transposition of l and m. */
  ghost predicate Conjugated(col: seq<int>, r: seq<int>, l: int, m: int)
    requires Two(|col|, l, m)
  {
    |r| == |col| && forall c :: 1 <= c < |col| ==> r[Swap(l, m, c)] == Swap(l, m, col[c])
  }

  /** Both columns of a generator are conjugated: the columns differ. */
  lemma {:induction false} PairConjugated(h: seq<int>, i: seq<int>, l: int, m: int)
    requires Inverse(h, i) && Two(|h|, l, m)
    ensures var i1, h1 := Relabel(i, h[l], h[m], l, m), Exchange(h, l, m);
            && 0 <= i1[l] < |h| && 0 <= i1[m] < |h|
            && Conjugated(h, Relabel(h1, i1[l], i1[m], l, m), l, m) && Conjugated(i, Exchange(i1, l, m), l, m)
  {
    var i1, h1 := Relabel(i, h[l], h[m], l, m), Exchange(h, l, m);
    RelabelIs(h, i, l, m);
    ExchangeIs(h, l, m);
    HalfInverse(h, i, h1, i1, l, m);
    RelabelIs(i1, h1, l, m);
    ExchangeIs(i1, l, m);
  }

  /** Both columns of a generator are conjugated: they are one and the same. */
  lemma {:induction false} SharedConjugated(h: seq<int>, l: int, m: int)
    requires Inverse(h, h) && Two(|h|, l, m)
    ensures Conjugated(h, Exchange(Relabel(h, h[l], h[m], l, m), l, m), l, m)
  {
    RelabelIs(h, h, l, m);
    ExchangeIs(Relabel(h, h[l], h[m], l, m), l, m);
  }

  lemma {:induction false} ConjugatedBack(h: seq<int>, h': seq<int>, l: int, m: int)
    requires Two(|h|, l, m) && Conjugated(h, h', l, m)
    ensures forall c :: 1 <= c < |h| ==> h'[c] == Swap(l, m, h[Swap(l, m, c)])
  {
    forall c | 1 <= c < |h|
      ensures h'[c] == Swap(l, m, h[Swap(l, m, c)])
    {
      assert Swap(l, m, Swap(l, m, c)) == c;
    }
  }

  lemma {:induction false} ConjugatedInverse(h: seq<int>, i: seq<int>, h': seq<int>, i': seq<int>, l: int, m: int)
    requires Inverse(h, i) && Two(|h|, l, m) && Conjugated(h, h', l, m) && Conjugated(i, i', l, m)
    ensures Inverse(h', i')
  {
    ConjugatedBack(h, h', l, m);
    ConjugatedBack(i, i', l, m);
    forall c | 1 <= c < |h| && h'[c] > 0
      ensures i'[h'[c]] == c
    {
      var d := Swap(l, m, c);
      assert i[h[d]] == d;
    }
    forall c | 1 <= c < |h| && i'[c] > 0
      ensures h'[i'[c]] == c
    {
      var d := Swap(l, m, c);
      assert h[i[d]] == d;
    }
  }

  // ----- tables

  /** The columns of a generator k are 2k and 2k + 1, counting from 0. */
  ghost predicate IsTable(n: nat, cols: seq<seq<int>>)
  {
    && |cols| % 2 == 0
    && (forall g :: 0 <= g < |cols| ==> |cols[g]| == n + 1)
    && (forall k {:trigger Mates(cols, k)} :: 0 <= k < |cols| / 2 ==> Mates(cols, k))
  }

  ghost predicate Mates(cols: seq<seq<int>>, k: int)
    requires 0 <= k < |cols| / 2
  {
    Inverse(cols[2 * k], cols[2 * k + 1])
  }

  ghost function Cols(table: seq<array<int>>): (cols: seq<seq<int>>)
    reads table
    ensures |cols| == |table| && forall g :: 0 <= g < |table| ==> cols[g] == table[g][..]
  {
    seq(|table|, g requires 0 <= g < |table| reads table => table[g][..])
  }

  /** Only the two columns of one generator may be one and the same list. */
  ghost predicate Separate(table: seq<array<int>>)
  {
    forall g, h :: 0 <= g < h < |table| && table[g] == table[h] ==> g % 2 == 0 && h == g + 1
  }

  ghost predicate AllConjugated(n: nat, cols: seq<seq<int>>, cols': seq<seq<int>>, l: int, m: int)
    requires Two(n + 1, l, m) && forall g :: 0 <= g < |cols| ==> |cols[g]| == n + 1
  {
    |cols'| == |cols| && forall g :: 0 <= g < |cols| ==> Conjugated(cols[g], cols'[g], l, m)
  }

  lemma {:induction false} ConjugatedTable(n: nat, cols: seq<seq<int>>, cols': seq<seq<int>>, l: int, m: int)
    requires IsTable(n, cols) && Two(n + 1, l, m) && AllConjugated(n, cols, cols', l, m)
    ensures IsTable(n, cols')
  {
    forall k | 0 <= k < |cols'| / 2
      ensures Mates(cols', k)
    {
      assert Mates(cols, k);
      ConjugatedInverse(cols[2 * k], cols[2 * k + 1], cols'[2 * k], cols'[2 * k + 1], l, m);
    }
  }

  /** Puts l and m at the places c2 and c1 of a column, where these are defined. */
  method RelabelColumn(i: array<int>, c1: int, c2: int, l: nat, m: nat)
    requires 0 <= c1 < i.Length && 0 <= c2 < i.Length
    modifies i
    ensures i[..] == Relabel(old(i[..]), c1, c2, l, m)
  {
    if c1 != 0 {
      i[c1] := m;
    }
    if c2 != 0 {
      i[c2] := l;
    }
  }

  method ExchangeEntries(h: array<int>, l: nat, m: nat)
    requires l < h.Length && m < h.Length
    modifies h
    ensures h[..] == Exchange(old(h[..]), l, m)
  {
    var tmp := h[l];
    h[l] := h[m];
    h[m] := tmp;
  }

  /** Exchanges rows l and m in the two columns of a generator. */
  method SwapPair(h: array<int>, i: array<int>, l: nat, m: nat)
    requires Inverse(h[..], i[..]) && Two(h.Length, l, m)
    modifies h, i
    ensures Conjugated(old(h[..]), h[..], l, m) && Conjugated(old(i[..]), i[..], l, m)
  {
    ghost var h0, i0 := h[..], i[..];
    if i != h {
      PairConjugated(h0, i0, l, m);
    } else {
      SharedConjugated(h0, l, m);
    }
    RelabelColumn(i, h[l], h[m], l, m);
    ExchangeEntries(h, l, m);
    if i != h {
      RelabelColumn(h, i[l], i[m], l, m);
      ExchangeEntries(i, l, m);
    }
  }

  /** As above, for generator k of a table. */
  method SwapAt(table: seq<array<int>>, k: nat, l: nat, m: nat)
    requires Separate(table) && k < |table| / 2 && Two(table[2 * k].Length, l, m)
    requires Inverse(table[2 * k][..], table[2 * k + 1][..])
    modifies table[2 * k], table[2 * k + 1]
    ensures Conjugated(old(table[2 * k][..]), table[2 * k][..], l, m)
    ensures Conjugated(old(table[2 * k + 1][..]), table[2 * k + 1][..], l, m)
    ensures forall g :: 0 <= g < |table| && g != 2 * k && g != 2 * k + 1 ==> table[g][..] == old(table[g][..])
  {
    SwapPair(table[2 * k], table[2 * k + 1], l, m);
  }

  /** The columns of the first k generators have been dealt with, the others have not. */
  ghost predicate SwappedTo(k: nat, cols: seq<seq<int>>, cols': seq<seq<int>>, l: int, m: int)
    requires |cols'| == |cols|
  {
    && (forall g :: 0 <= g < |cols| && g < 2 * k ==> Two(|cols[g]|, l, m) && Conjugated(cols[g], cols'[g], l, m))
    && (forall g :: 2 * k <= g < |cols| ==> cols'[g] == cols[g])
  }

  /** Exchanges rows l and m of a table: every column is conjugated by the transposition. */
  method SwapRows(table: seq<array<int>>, n: nat, l: nat, m: nat)
    requires Separate(table) && IsTable(n, Cols(table)) && Two(n + 1, l, m)
    modifies table
    ensures AllConjugated(n, old(Cols(table)), Cols(table), l, m) && IsTable(n, Cols(table))
  {
    ghost var cols := Cols(table);
    var k := 0;
    while k < |table| / 2
      invariant 0 <= k <= |table| / 2
      invariant SwappedTo(k, cols, Cols(table), l, m)
    {
      assert Mates(cols, k);
      ghost var before := Cols(table);
      SwapAt(table, k, l, m);
      SwappedOn(k, n, cols, before, Cols(table), l, m);
      k := k + 1;
    }
    ConjugatedTable(n, cols, Cols(table), l, m);
  }

  lemma {:induction false} SwappedOn(k: nat, n: nat, cols: seq<seq<int>>, b: seq<seq<int>>, c: seq<seq<int>>, l: int,
                                     m: int)
    requires IsTable(n, cols) && Two(n + 1, l, m) && k < |cols| / 2 && |b| == |c| == |cols| &&
             SwappedTo(k, cols, b, l, m)
    requires Conjugated(cols[2 * k], c[2 * k], l, m) && Conjugated(cols[2 * k + 1], c[2 * k + 1], l, m)
    requires forall g :: 0 <= g < |cols| && g != 2 * k && g != 2 * k + 1 ==> c[g] == b[g]
    ensures SwappedTo(k + 1, cols, c, l, m)
  {
  }

  // ----- renaming cosets

  /** A bijection of the cosets 1..n that fixes 1. */
  ghost predicate Renaming(n: nat, s: seq<int>)
  {
    && |s| == n + 1 && n >= 1 && s[0] == 0 && s[1] == 1
    && (forall c :: 1 <= c <= n ==> 1 <= s[c] <= n)
    && (forall c, d :: 1 <= c < d <= n ==> s[c] != s[d])
  }

  ghost predicate RenamedAt(t: seq<seq<int>>, s: seq<int>, r: seq<seq<int>>, g: int, c: int)
    requires 0 <= g < |t| == |r| && 0 <= c < |t[g]| && c < |s|
  {
    0 <= s[c] < |r[g]| && 0 <= t[g][c] < |s| && r[g][s[c]] == s[t[g][c]]
  }

  /** r is t with the cosets renamed by s. */
  ghost predicate Renamed(n: nat, t: seq<seq<int>>, s: seq<int>, r: seq<seq<int>>)
    requires IsTable(n, t) && Renaming(n, s)
  {
    |r| == |t| && forall g, c {:trigger RenamedAt(t, s, r, g, c)} :: 0 <= g < |t| && 1 <= c <= n ==>
        RenamedAt(t, s, r, g, c)
  }

  function Same(n: nat): seq<int>
  {
    seq(n + 1, c => c)
  }

  lemma {:induction false} Entries(n: nat, t: seq<seq<int>>, g: int, c: int)
    requires IsTable(n, t) && 0 <= g < |t| && 1 <= c <= n
    ensures |t[g]| == n + 1 && 0 <= t[g][c] <= n
  {
    assert Mates(t, g / 2);
  }

  lemma {:induction false} RenamedSame(n: nat, t: seq<seq<int>>)
    requires IsTable(n, t) && n >= 1
    ensures Renaming(n, Same(n)) && Renamed(n, t, Same(n), t)
  {
    forall g, c | 0 <= g < |t| && 1 <= c <= n
      ensures RenamedAt(t, Same(n), t, g, c)
    {
      Entries(n, t, g, c);
    }
  }

  function Then(s: seq<int>, l: int, m: int): seq<int>
  {
    seq(|s|, c requires 0 <= c < |s| => Swap(l, m, s[c]))
  }

  /** Exchanging two rows renames once more. */
  lemma {:induction false} RenamedThen(n: nat, t: seq<seq<int>>, s: seq<int>, r: seq<seq<int>>, r': seq<seq<int>>,
                                       l: int, m: int)
    requires IsTable(n, t) && Renaming(n, s) && Renamed(n, t, s, r) && IsTable(n, r)
    requires 2 <= l <= n && 2 <= m <= n && l != m && AllConjugated(n, r, r', l, m)
    ensures Renaming(n, Then(s, l, m)) && Renamed(n, t, Then(s, l, m), r')
  {
    var s' := Then(s, l, m);
    forall g, c | 0 <= g < |t| && 1 <= c <= n
      ensures RenamedAt(t, s', r', g, c)
    {
      assert RenamedAt(t, s, r, g, c);
      assert Conjugated(r[g], r'[g], l, m);
      assert r'[g][Swap(l, m, s[c])] == Swap(l, m, r[g][s[c]]);
    }
  }

  function Compose(s: seq<int>, u: seq<int>): seq<int>
  {
    seq(|s|, c requires 0 <= c < |s| => if 0 <= s[c] < |u| then u[s[c]] else 0)
  }

  lemma {:induction false} RenamedCompose(n: nat, a: seq<seq<int>>, s: seq<int>, b: seq<seq<int>>, u: seq<int>,
                                          c: seq<seq<int>>)
    requires IsTable(n, a) && IsTable(n, b) && Renaming(n, s) && Renaming(n, u) && Renamed(n, a, s, b) &&
             Renamed(n, b, u, c)
    ensures Renaming(n, Compose(s, u)) && Renamed(n, a, Compose(s, u), c)
  {
    var z := Compose(s, u);
    forall x, y | 1 <= x < y <= n
      ensures z[x] != z[y]
    {
      assert s[x] != s[y];
      assert s[x] < s[y] || s[y] < s[x];
    }
    forall g, x | 0 <= g < |a| && 1 <= x <= n
      ensures RenamedAt(a, z, c, g, x)
    {
      assert RenamedAt(a, s, b, g, x) && RenamedAt(b, u, c, g, s[x]);
    }
  }

  /** A renaming is onto. */
  lemma {:induction false} Onto(n: nat, s: seq<int>, d: int) returns (c: int)
    requires Renaming(n, s) && 1 <= d <= n
    ensures 1 <= c <= n && s[c] == d
  {
    c := Pigeon(s, n, d);
  }

  // ----- the standard

  /** The columns that are read, in order: all of them, or those of the generators only. */
  function Slot(all: bool, j: nat): nat
  {
    if all then j else 2 * j
  }

  function Width(t: seq<seq<int>>, all: bool): nat
  {
    if all then |t| else |t| / 2
  }

  ghost predicate Place(n: nat, t: seq<seq<int>>, all: bool, c: nat, j: nat)
  {
    IsTable(n, t) && 1 <= c <= n && j <= Width(t, all)
  }

  /** The largest coset met before place j of row c, reading row by row. */
  ghost function Seen(n: nat, t: seq<seq<int>>, all: bool, c: nat, j: nat): int
    requires Place(n, t, all, c, j)
    decreases c, j
  {
    if j > 0 then
      var m, e := Seen(n, t, all, c, j - 1), t[Slot(all, j - 1)][c];
      if m < e then e else m
    else if c == 1 then 1
    else Seen(n, t, all, c - 1, Width(t, all))
  }

  /** Up to here, rows are read only of cosets that have been met, and a new coset is the next number. */
  ghost predicate InOrder(n: nat, t: seq<seq<int>>, all: bool, c: nat, j: nat)
    requires Place(n, t, all, c, j)
    decreases c, j
  {
    if j > 0 then InOrder(n, t, all, c, j - 1) && t[Slot(all, j - 1)][c] <= Seen(n, t, all, c, j - 1) + 1
    else c == 1 || (InOrder(n, t, all, c - 1, Width(t, all)) && c <= Seen(n, t, all, c - 1, Width(t, all)))
  }

  /** The first m rows are in standard order, and nothing else is met in them. */
  ghost predicate Standard(n: nat, t: seq<seq<int>>, all: bool, m: nat)
  {
    Place(n, t, all, m, Width(t, all)) && InOrder(n, t, all, m, Width(t, all)) && Seen(n, t, all, m, Width(t, all)) == m
  }

  /** Exchanging cosets that have not been met does not touch what has been read. */
  lemma {:induction false} ReadKept(n: nat, t: seq<seq<int>>, r: seq<seq<int>>, all: bool, c: nat, j: nat, l: int,
                                    m: int)
    requires Place(n, t, all, c, j) && IsTable(n, r) && Two(n + 1, l, m) && AllConjugated(n, t, r, l, m)
    requires Seen(n, t, all, c, j) < l && Seen(n, t, all, c, j) < m && c < l && c < m && InOrder(n, t, all, c, j)
    ensures InOrder(n, r, all, c, j) && Seen(n, r, all, c, j) == Seen(n, t, all, c, j)
    decreases c, j
  {
    if j > 0 {
      var g := Slot(all, j - 1);
      ReadKept(n, t, r, all, c, j - 1, l, m);
      assert Conjugated(t[g], r[g], l, m);
      assert r[g][Swap(l, m, c)] == Swap(l, m, t[g][c]);
    } else if c > 1 {
      ReadKept(n, t, r, all, c - 1, Width(t, all), l, m);
    }
  }

  lemma {:induction false} SlotIn(t: seq<seq<int>>, all: bool, j: nat)
    requires j < Width(t, all)
    ensures Slot(all, j) < |t|
  {
  }

  lemma {:induction false} SeenGrows(n: nat, t: seq<seq<int>>, all: bool, c: nat, j: nat)
    requires Place(n, t, all, c, j) && InOrder(n, t, all, c, j)
    ensures c <= Seen(n, t, all, c, j) <= n
    decreases c, j
  {
    if j > 0 {
      SeenGrows(n, t, all, c, j - 1);
      SlotIn(t, all, j - 1);
      Entries(n, t, Slot(all, j - 1), c);
    } else if c > 1 {
      SeenGrows(n, t, all, c - 1, Width(t, all));
    }
  }

  lemma {:induction false} SeenCovers(n: nat, t: seq<seq<int>>, all: bool, c: nat, j: nat, d: nat, k: nat)
    requires Place(n, t, all, d, k) && 1 <= c <= d && j < Width(t, all) && (c < d || j < k)
    ensures t[Slot(all, j)][c] <= Seen(n, t, all, d, k)
    decreases d, k
  {
    SlotIn(t, all, j);
    if k > 0 {
      if c < d || j < k - 1 {
        SeenCovers(n, t, all, c, j, d, k - 1);
      }
    } else {
      SeenCovers(n, t, all, c, j, d - 1, Width(t, all));
    }
  }

  // ----- the same without places

  /** Column g is read: in the semilenlex order only the columns of generators are, not those of their inverses. */
  predicate Read(t: seq<seq<int>>, all: bool, g: int)
  {
    0 <= g < |t| && (all || g % 2 == 0)
  }

  /** Coset x is met for the first time at row c of column g, where the rows are read one after the other. */
  ghost predicate MetAt(t: seq<seq<int>>, all: bool, x: int, c: int, g: int)
  {
    && 1 <= c < x && Read(t, all, g) && c < |t[g]| && t[g][c] == x
    && forall d, h :: Read(t, all, h) && 1 <= d < |t[h]| && (d < c || (d == c && h < g)) ==> t[h][d] < x
  }

  /**
    Every coset from 2 to m is met for the first time in the row of a smaller coset, after all smaller ones; and the
    first m rows lead to no other coset.
   */
  ghost predicate MetInOrder(n: nat, t: seq<seq<int>>, all: bool, m: nat)
  {
    && IsTable(n, t) && 1 <= m <= n
    && (forall x {:trigger Met(t, all, x)} :: 2 <= x <= m ==> Met(t, all, x))
    && (forall g, c :: Read(t, all, g) && 1 <= c <= m && c < |t[g]| ==> t[g][c] <= m)
  }

  ghost predicate Met(t: seq<seq<int>>, all: bool, x: int)
  {
    exists c, g :: MetAt(t, all, x, c, g)
  }

  /** The place of a column that is read. */
  lemma {:induction false} ReadPlace(n: nat, t: seq<seq<int>>, all: bool, g: int) returns (j: nat)
    requires IsTable(n, t) && Read(t, all, g)
    ensures j < Width(t, all) && Slot(all, j) == g
  {
    j := if all then g else g / 2;
  }

  lemma {:induction false} FirstOccurrence(n: nat, t: seq<seq<int>>, all: bool, c: nat, j: nat, x: int)
    requires Place(n, t, all, c, j) && InOrder(n, t, all, c, j) && 2 <= x <= Seen(n, t, all, c, j)
    ensures Met(t, all, x)
    decreases c, j
  {
    if j == 0 {
      FirstOccurrence(n, t, all, c - 1, Width(t, all), x);
    } else if x <= Seen(n, t, all, c, j - 1) {
      FirstOccurrence(n, t, all, c, j - 1, x);
    } else {
      var g := Slot(all, j - 1);
      SlotIn(t, all, j - 1);
      SeenGrows(n, t, all, c, j - 1);
      Entries(n, t, g, c);
      forall d, h | Read(t, all, h) && 1 <= d < |t[h]| && (d < c || (d == c && h < g))
        ensures t[h][d] < x
      {
        var k := ReadPlace(n, t, all, h);
        SeenCovers(n, t, all, d, k, c, j - 1);
      }
      assert MetAt(t, all, x, c, g);
    }
  }

  /** What is met first is seen. */
  lemma {:induction false} MetSeen(n: nat, t: seq<seq<int>>, all: bool, x: int, c: int, g: int, d: nat)
    requires IsTable(n, t) && MetAt(t, all, x, c, g) && x <= n && c <= d <= n
    ensures x <= Seen(n, t, all, d, Width(t, all))
  {
    var k := ReadPlace(n, t, all, g);
    SeenCovers(n, t, all, c, k, d, Width(t, all));
  }

  /** An entry of a row that is read is at most the next coset. */
  lemma {:induction false} NextMet(n: nat, t: seq<seq<int>>, all: bool, m: nat, c: nat, j: nat)
    requires MetInOrder(n, t, all, m) && 1 <= c <= m && j < Width(t, all)
    ensures Slot(all, j) < |t| && c < |t[Slot(all, j)]| && t[Slot(all, j)][c] <= Seen(n, t, all, c, j) + 1
  {
    var g := Slot(all, j);
    SlotIn(t, all, j);
    Entries(n, t, g, c);
    var x := Seen(n, t, all, c, j) + 1;
    SeenPositive(n, t, all, c, j);
    if x < t[g][c] {
      assert Met(t, all, x);
      var c', g' :| MetAt(t, all, x, c', g');
      if c' < c || (c' == c && g' < g) {
        var k := ReadPlace(n, t, all, g');
        SeenCovers(n, t, all, c', k, c, j);
      }
    }
  }

  lemma {:induction false} SeenPositive(n: nat, t: seq<seq<int>>, all: bool, c: nat, j: nat)
    requires Place(n, t, all, c, j)
    ensures Seen(n, t, all, c, j) >= 1
    decreases c, j
  {
    if j > 0 {
      SeenPositive(n, t, all, c, j - 1);
    } else if c > 1 {
      SeenPositive(n, t, all, c - 1, Width(t, all));
    }
  }

  lemma {:induction false} MetReading(n: nat, t: seq<seq<int>>, all: bool, m: nat, c: nat, j: nat)
    requires MetInOrder(n, t, all, m) && Place(n, t, all, c, j) && c <= m
    ensures InOrder(n, t, all, c, j) && Seen(n, t, all, c, j) <= m
    decreases c, j
  {
    if j > 0 {
      MetReading(n, t, all, m, c, j - 1);
      NextMet(n, t, all, m, c, j - 1);
      assert Read(t, all, Slot(all, j - 1));
    } else if c > 1 {
      MetReading(n, t, all, m, c - 1, Width(t, all));
      assert Met(t, all, c);
      var c', g' :| MetAt(t, all, c, c', g');
      MetSeen(n, t, all, c, c', g', c - 1);
    }
  }

  /** Standard order, whichever way it is put. */
  lemma {:induction false} StandardMeans(n: nat, t: seq<seq<int>>, all: bool, m: nat)
    ensures Standard(n, t, all, m) <==> MetInOrder(n, t, all, m)
  {
    if Standard(n, t, all, m) {
      SeenGrows(n, t, all, m, Width(t, all));
      forall x | 2 <= x <= m
        ensures Met(t, all, x)
      {
        FirstOccurrence(n, t, all, m, Width(t, all), x);
      }
      forall g, c | Read(t, all, g) && 1 <= c <= m && c < |t[g]|
        ensures t[g][c] <= m
      {
        var j := ReadPlace(n, t, all, g);
        SeenCovers(n, t, all, c, j, m, Width(t, all));
      }
    }
    if MetInOrder(n, t, all, m) {
      MetReading(n, t, all, m, m, Width(t, all));
      SeenPositive(n, t, all, m, Width(t, all));
      if m > 1 {
        assert Met(t, all, m);
        var c, g :| MetAt(t, all, m, c, g);
        MetSeen(n, t, all, m, c, g, m);
      }
    }
  }

  /** The table t has become r by renaming, and r is in order up to place j of row c. */
  ghost predicate Reading(n: nat, t: seq<seq<int>>, s: seq<int>, r: seq<seq<int>>, all: bool, c: nat, j: nat, lcos: nat)
  {
    && IsTable(n, t) && Renaming(n, s) && Renamed(n, t, s, r)
    && Place(n, r, all, c, j) && InOrder(n, r, all, c, j) && Seen(n, r, all, c, j) == lcos
  }

  /** Reads the entry at place j of row acos; a coset that is met for the first time becomes the next one. */
  method ReadEntry(table: seq<array<int>>, n: nat, all: bool, acos: nat, lcos: nat, j: nat, ghost t: seq<seq<int>>,
                   ghost s: seq<int>)
      returns (lcos': nat, ghost s': seq<int>)
    requires Separate(table) && Reading(n, t, s, Cols(table), all, acos, j, lcos) && j < Width(Cols(table), all)
    modifies table
    ensures Reading(n, t, s', Cols(table), all, acos, j + 1, lcos')
  {
    ghost var r := Cols(table);
    EntryThere(n, t, s, r, all, acos, j, lcos);
    var g := table[if all then j else 2 * j];
    var mcos := g[acos];
    lcos', s' := lcos, s;
    if lcos + 1 < mcos {
      lcos' := lcos + 1;
      SwapRows(table, n, lcos', mcos);
      s' := Then(s, lcos', mcos);
      EntryRenamed(n, t, s, r, Cols(table), all, acos, j, lcos, mcos);
    } else {
      EntryInOrder(n, t, s, r, all, acos, j, lcos);
      if lcos < mcos {
        lcos' := lcos + 1;
      }
    }
  }

  lemma {:induction false} EntryThere(n: nat, t: seq<seq<int>>, s: seq<int>, r: seq<seq<int>>, all: bool, c: nat,
                                      j: nat, lcos: nat)
    requires Reading(n, t, s, r, all, c, j, lcos) && j < Width(r, all)
    ensures Slot(all, j) < |r| && |r[Slot(all, j)]| == n + 1 && 0 <= r[Slot(all, j)][c] <= n && 1 <= c <= lcos <= n
    ensures IsTable(n, r)
  {
    SlotIn(r, all, j);
    SeenGrows(n, r, all, c, j);
    Entries(n, r, Slot(all, j), c);
  }

  lemma {:induction false} EntryInOrder(n: nat, t: seq<seq<int>>, s: seq<int>, r: seq<seq<int>>, all: bool, c: nat,
                                        j: nat, lcos: nat)
    requires Reading(n, t, s, r, all, c, j, lcos) && j < Width(r, all) && Slot(all, j) < |r| && c < |r[Slot(all, j)]|
    requires r[Slot(all, j)][c] <= lcos + 1
    ensures Reading(n, t, s, r, all, c, j + 1, if lcos < r[Slot(all, j)][c] then lcos + 1 else lcos)
  {
  }

  lemma {:induction false} EntryRenamed(n: nat, t: seq<seq<int>>, s: seq<int>, r: seq<seq<int>>, r': seq<seq<int>>,
                                        all: bool, c: nat, j: nat, lcos: nat, m: int)
    requires Reading(n, t, s, r, all, c, j, lcos) && j < Width(r, all) && IsTable(n, r') && 1 <= c <= lcos &&
             lcos + 1 < m <= n
    requires AllConjugated(n, r, r', lcos + 1, m) && Slot(all, j) < |r| && r[Slot(all, j)][c] == m
    ensures Reading(n, t, Then(s, lcos + 1, m), r', all, c, j + 1, lcos + 1)
  {
    var g, l := Slot(all, j), lcos + 1;
    RenamedThen(n, t, s, r, r', l, m);
    ReadKept(n, r, r', all, c, j, l, m);
    assert Conjugated(r[g], r'[g], l, m);
    assert r'[g][Swap(l, m, c)] == Swap(l, m, r[g][c]);
  }

  method ReadRow(table: seq<array<int>>, n: nat, all: bool, acos: nat, lcos: nat, ghost t: seq<seq<int>>,
                 ghost s: seq<int>)
      returns (lcos': nat, ghost s': seq<int>)
    requires Separate(table) && Reading(n, t, s, Cols(table), all, acos, 0, lcos)
    modifies table
    ensures Reading(n, t, s', Cols(table), all, acos, Width(Cols(table), all), lcos')
  {
    var width := if all then |table| else |table| / 2;
    lcos', s' := lcos, s;
    var j := 0;
    while j < width
      invariant j <= width && Reading(n, t, s', Cols(table), all, acos, j, lcos')
    {
      lcos', s' := ReadEntry(table, n, all, acos, lcos', j, t, s');
      j := j + 1;
    }
  }

  /** From one row to the next, or to the end. */
  lemma {:induction false} RowRead(n: nat, t: seq<seq<int>>, s: seq<int>, r: seq<seq<int>>, all: bool, c: nat,
                                   lcos: nat)
    requires Reading(n, t, s, r, all, c, Width(r, all), lcos)
    ensures c <= lcos <= n
    ensures if c < lcos then Reading(n, t, s, r, all, c + 1, 0, lcos) else Standard(n, r, all, lcos)
  {
    SeenGrows(n, r, all, c, Width(r, all));
  }

  /**
    Renumbers the cosets of a table in place. The results are the number of rows that remain, the
    cosets that can be met from coset 1, and the columns shortened to them. The ghost result says
    what has become of each coset.
   */
  method StandardizeTable(table: seq<array<int>>, n: nat, all: bool)
      returns (lcos: nat, rows: seq<seq<int>>, ghost s: seq<int>)
    requires Separate(table) && IsTable(n, Cols(table)) && n >= 1
    modifies table
    ensures Renaming(n, s) && Renamed(n, old(Cols(table)), s, Cols(table))
    ensures Standard(n, Cols(table), all, lcos) && rows == Shortened(Cols(table), lcos)
    ensures MetInOrder(n, Cols(table), all, lcos)
  {
    lcos, s := Renumber(table, n, all);
    StandardMeans(n, Cols(table), all, lcos);
    rows := [];
    for g := 0 to |table|
      invariant |rows| == g && forall k :: 0 <= k < g ==> rows[k] == table[k][..lcos + 1]
    {
      rows := rows + [table[g][..lcos + 1]];
    }
  }

  /** The first m rows of a table. */
  ghost function Shortened(t: seq<seq<int>>, m: nat): (r: seq<seq<int>>)
    ensures |r| == |t| && forall g :: 0 <= g < |t| && m < |t[g]| ==> r[g] == t[g][..m + 1]
  {
    seq(|t|, g requires 0 <= g < |t| => if m < |t[g]| then t[g][..m + 1] else t[g])
  }

  method Renumber(table: seq<array<int>>, n: nat, all: bool) returns (lcos: nat, ghost s: seq<int>)
    requires Separate(table) && IsTable(n, Cols(table)) && n >= 1
    modifies table
    ensures Renaming(n, s) && Renamed(n, old(Cols(table)), s, Cols(table))
    ensures Standard(n, Cols(table), all, lcos)
  {
    ghost var t := Cols(table);
    s := Same(n);
    RenamedSame(n, t);
    var acos := 1;
    lcos := 1;
    while acos <= lcos
      invariant 1 <= acos <= lcos + 1 && lcos <= n && Renaming(n, s) && Renamed(n, t, s, Cols(table))
      invariant if acos <= lcos then Reading(n, t, s, Cols(table), all, acos, 0, lcos)
                else Standard(n, Cols(table), all, lcos)
      decreases n + 1 - acos
    {
      lcos, s := ReadRow(table, n, all, acos, lcos, t, s);
      RowRead(n, t, s, Cols(table), all, acos, lcos);
      acos := acos + 1;
    }
  }

  // ----- what standardizing comes to

  /** Two renamings of one table that lead to tables in order agree on all that has been met. */
  lemma {:induction false} OrderUnique(n: nat, t: seq<seq<int>>, p: seq<int>, a: seq<seq<int>>, q: seq<int>,
                                       b: seq<seq<int>>, all: bool, c: nat, j: nat)
    requires IsTable(n, t) && Renaming(n, p) && Renaming(n, q) && Renamed(n, t, p, a) && Renamed(n, t, q, b)
    requires Place(n, a, all, c, j) && Place(n, b, all, c, j) && InOrder(n, a, all, c, j) && InOrder(n, b, all, c, j)
    ensures Seen(n, a, all, c, j) == Seen(n, b, all, c, j)
    ensures forall x :: 1 <= x <= n && (p[x] <= Seen(n, a, all, c, j) || q[x] <= Seen(n, a, all, c, j)) ==> p[x] == q[x]
    decreases c, j
  {
    if j > 0 {
      OrderUnique(n, t, p, a, q, b, all, c, j - 1);
      var g := Slot(all, j - 1);
      SlotIn(a, all, j - 1);
      SeenGrows(n, a, all, c, j - 1);
      var x := Onto(n, p, c);
      assert RenamedAt(t, p, a, g, x) && RenamedAt(t, q, b, g, x);
      Entries(n, t, g, x);
      AgreeNext(n, p, q, Seen(n, a, all, c, j - 1), t[g][x]);
    } else if c > 1 {
      OrderUnique(n, t, p, a, q, b, all, c - 1, Width(a, all));
    } else {
      OnlyOne(n, p);
      OnlyOne(n, q);
    }
  }

  lemma {:induction false} OnlyOne(n: nat, p: seq<int>)
    requires Renaming(n, p)
    ensures forall x :: 1 <= x <= n && p[x] <= 1 ==> x == 1
  {
    assert forall x :: 1 < x <= n ==> p[x] != p[1];
  }

  /** If both name a coset the next number, then they agree on it. */
  lemma {:induction false} AgreeNext(n: nat, p: seq<int>, q: seq<int>, m: int, y: int)
    requires Renaming(n, p) && Renaming(n, q) && 0 <= y <= n && p[y] <= m + 1 && q[y] <= m + 1 && m >= 1
    requires forall x :: 1 <= x <= n && (p[x] <= m || q[x] <= m) ==> p[x] == q[x]
    ensures p[y] == q[y]
    ensures p[y] == m + 1 ==> forall x :: 1 <= x <= n && (p[x] <= m + 1 || q[x] <= m + 1) ==> p[x] == q[x]
  {
    if p[y] == m + 1 {
      forall x | 1 <= x <= n && (p[x] <= m + 1 || q[x] <= m + 1)
        ensures p[x] == q[x]
      {
        assert x < y ==> p[x] != p[y] && q[x] != q[y];
        assert y < x ==> p[x] != p[y] && q[x] != q[y];
      }
    }
  }

  lemma {:induction false} InOrderEarlier(n: nat, t: seq<seq<int>>, all: bool, c: nat, d: nat)
    requires 1 <= c < d && Place(n, t, all, d, Width(t, all)) && InOrder(n, t, all, d, Width(t, all))
    ensures InOrder(n, t, all, c, Width(t, all)) && c + 1 <= Seen(n, t, all, c, Width(t, all))
    decreases d
  {
    InOrderRow(n, t, all, d, Width(t, all));
    if c < d - 1 {
      InOrderEarlier(n, t, all, c, d - 1);
    }
  }

  lemma {:induction false} InOrderRow(n: nat, t: seq<seq<int>>, all: bool, c: nat, j: nat)
    requires Place(n, t, all, c, j) && InOrder(n, t, all, c, j)
    ensures InOrder(n, t, all, c, 0)
  {
    if j > 0 {
      InOrderRow(n, t, all, c, j - 1);
    }
  }

  /** Standard forms of one table have the same number of rows, and the cosets in them the same names. */
  lemma {:induction false} StandardUnique(n: nat, t: seq<seq<int>>, p: seq<int>, a: seq<seq<int>>, k: nat,
                                          q: seq<int>, b: seq<seq<int>>, m: nat, all: bool)
    requires IsTable(n, t) && Renaming(n, p) && Renaming(n, q) && Renamed(n, t, p, a) && Renamed(n, t, q, b)
    requires Standard(n, a, all, k) && Standard(n, b, all, m)
    ensures k == m && forall x :: 1 <= x <= n && (p[x] <= k || q[x] <= k) ==> p[x] == q[x]
  {
    var w := Width(a, all);
    if k < m {
      InOrderEarlier(n, b, all, k, m);
      OrderUnique(n, t, p, a, q, b, all, k, w);
    } else if m < k {
      InOrderEarlier(n, a, all, m, k);
      OrderUnique(n, t, p, a, q, b, all, m, w);
    } else {
      OrderUnique(n, t, p, a, q, b, all, k, w);
    }
  }

  ghost predicate Complete(n: nat, t: seq<seq<int>>)
    requires IsTable(n, t)
  {
    forall g, c :: 0 <= g < |t| && 1 <= c <= n ==> t[g][c] > 0
  }

  lemma {:induction false} CompleteRenamed(n: nat, t: seq<seq<int>>, s: seq<int>, r: seq<seq<int>>)
    requires IsTable(n, t) && IsTable(n, r) && Renaming(n, s) && Renamed(n, t, s, r) && Complete(n, t)
    ensures Complete(n, r)
  {
    forall g, c | 0 <= g < |r| && 1 <= c <= n
      ensures r[g][c] > 0
    {
      var x := Onto(n, s, c);
      assert RenamedAt(t, s, r, g, x);
    }
  }

  /** No entry of the remaining rows leads out of them. */
  lemma {:induction false} Closed(n: nat, t: seq<seq<int>>, all: bool, m: nat, g: int, c: int)
    requires Standard(n, t, all, m) && (all || Complete(n, t)) && 0 <= g < |t| && 1 <= c <= m
    ensures 0 <= t[g][c] <= m
  {
    Entries(n, t, g, c);
    if all {
      SeenCovers(n, t, all, c, g, m, Width(t, all));
    } else if g % 2 == 0 {
      SeenCovers(n, t, all, c, g / 2, m, Width(t, all));
    } else {
      var h, i := t[g - 1], t[g];
      assert Mates(t, g / 2);
      forall d | 1 <= d <= m
        ensures 1 <= h[d] <= m
      {
        SeenCovers(n, t, all, d, g / 2, m, Width(t, all));
      }
      forall d, e | 1 <= d < e <= m
        ensures h[d] != h[e]
      {
        assert i[h[d]] == d && i[h[e]] == e;
      }
      var d := Pigeon(h, m, c);
    }
  }

  lemma {:induction false} ShortenedMates(h: seq<int>, i: seq<int>, m: nat)
    requires Inverse(h, i) && m < |h|
    requires forall c :: 1 <= c <= m ==> 0 <= h[c] <= m && 0 <= i[c] <= m
    ensures Inverse(h[..m + 1], i[..m + 1])
  {
  }

  /** The remaining rows are a table of their own, in standard order. */
  lemma {:induction false} ShortenedTable(n: nat, t: seq<seq<int>>, all: bool, m: nat)
    requires Standard(n, t, all, m) && (all || Complete(n, t))
    ensures IsTable(m, Shortened(t, m)) && Standard(m, Shortened(t, m), all, m)
  {
    var r := Shortened(t, m);
    forall k | 0 <= k < |r| / 2
      ensures Mates(r, k)
    {
      assert Mates(t, k);
      var h, i := t[2 * k], t[2 * k + 1];
      forall c | 1 <= c <= m
        ensures 0 <= h[c] <= m && 0 <= i[c] <= m
      {
        Closed(n, t, all, m, 2 * k, c);
        Closed(n, t, all, m, 2 * k + 1, c);
      }
      ShortenedMates(h, i, m);
    }
    SameReading(n, t, m, r, all, m, Width(t, all));
  }

  /** Reading does not look beyond the rows that are read. */
  lemma {:induction false} SameReading(n: nat, t: seq<seq<int>>, m: nat, r: seq<seq<int>>, all: bool, c: nat, j: nat)
    requires Place(n, t, all, c, j) && Place(m, r, all, c, j) && m <= n && r == Shortened(t, m)
    ensures Seen(m, r, all, c, j) == Seen(n, t, all, c, j) && InOrder(m, r, all, c, j) == InOrder(n, t, all, c, j)
    decreases c, j
  {
    if j > 0 {
      SlotIn(t, all, j - 1);
      SameReading(n, t, m, r, all, c, j - 1);
    } else if c > 1 {
      SameReading(n, t, m, r, all, c - 1, Width(t, all));
    }
  }

  /** The coset that a word leads to, from coset a; 0 if it leads nowhere. */
  ghost function Follow(t: seq<seq<int>>, a: int, w: seq<nat>): int
    decreases |w|
  {
    if w == [] then a
    else
      var b, g := Follow(t, a, w[..|w| - 1]), w[|w| - 1];
      if g < |t| && 1 <= b < |t[g]| then t[g][b] else 0
  }

  /** Every coset that has been met can be reached from coset 1. */
  lemma {:induction false} Reached(n: nat, t: seq<seq<int>>, all: bool, c: nat, j: nat, d: int) returns (w: seq<nat>)
    requires Place(n, t, all, c, j) && InOrder(n, t, all, c, j) && 1 <= d <= Seen(n, t, all, c, j)
    ensures Follow(t, 1, w) == d
    decreases c, j
  {
    if j > 0 {
      if d <= Seen(n, t, all, c, j - 1) {
        w := Reached(n, t, all, c, j - 1, d);
      } else {
        SeenGrows(n, t, all, c, j - 1);
        SlotIn(t, all, j - 1);
        var u := Reached(n, t, all, c, j - 1, c);
        w := u + [Slot(all, j - 1)];
        assert w[..|w| - 1] == u;
      }
    } else if c == 1 {
      w := [];
    } else {
      w := Reached(n, t, all, c - 1, Width(t, all), d);
    }
  }

  lemma {:induction false} StaysWithin(n: nat, t: seq<seq<int>>, all: bool, m: nat, w: seq<nat>)
    requires Standard(n, t, all, m) && (all || Complete(n, t))
    ensures 0 <= Follow(t, 1, w) <= m
    decreases |w|
  {
    if w != [] {
      var b, g := Follow(t, 1, w[..|w| - 1]), w[|w| - 1];
      StaysWithin(n, t, all, m, w[..|w| - 1]);
      if g < |t| && 1 <= b <= m {
        Closed(n, t, all, m, g, b);
      }
    }
  }

  /** The remaining rows are exactly the orbit of coset 1. */
  lemma {:induction false} OrbitRemains(n: nat, t: seq<seq<int>>, all: bool, m: nat, d: int)
    requires Standard(n, t, all, m) && (all || Complete(n, t)) && d >= 1
    ensures d <= m <==> exists w :: Follow(t, 1, w) == d
  {
    if d <= m {
      var w := Reached(n, t, all, m, Width(t, all), d);
    }
    if w :| Follow(t, 1, w) == d {
      StaysWithin(n, t, all, m, w);
    }
  }

  /**
    Tables that are equal up to the names of the cosets, coset 1 aside, have one and the same
    standard form.
   */
  lemma {:induction false} Canonical(n: nat, all: bool, t: seq<seq<int>>, s: seq<int>, r: seq<seq<int>>, m: nat,
                  z: seq<int>, t': seq<seq<int>>, s': seq<int>, r': seq<seq<int>>, m': nat)
    requires IsTable(n, t) && Renaming(n, z) && Renamed(n, t, z, t') && IsTable(n, t') && (all || Complete(n, t))
    requires Renaming(n, s) && Renamed(n, t, s, r) && Standard(n, r, all, m)
    requires Renaming(n, s') && Renamed(n, t', s', r') && Standard(n, r', all, m')
    ensures m == m' && forall g, c :: 0 <= g < |r| && 1 <= c <= m ==> r[g][c] == r'[g][c]
  {
    var q := Compose(z, s');
    RenamedCompose(n, t, z, t', s', r');
    StandardUnique(n, t, s, r, m, q, r', m', all);
    if !all {
      CompleteRenamed(n, t, s, r);
    }
    forall g, c | 0 <= g < |r| && 1 <= c <= m
      ensures r[g][c] == r'[g][c]
    {
      var x := Onto(n, s, c);
      Entries(n, t, g, x);
      assert RenamedAt(t, s, r, g, x) && RenamedAt(t, q, r', g, x);
      Closed(n, r, all, m, g, c);
    }
  }

  // ----- the tables of an enumeration

  /** The columns slot by slot; a shared column is there twice. */
  ghost function Columns(t: CosetTable.Table): (cols: seq<seq<int>>)
    requires CosetTable.Shape(t)
    ensures |cols| == |t.ref| - 1 && forall k :: 0 <= k < |cols| ==> cols[k] == t.store[t.ref[k + 1]]
  {
    seq(|t.ref| - 1, k requires 0 <= k < |t.ref| - 1 => t.store[t.ref[k + 1]])
  }

  /** Consistent tables without marks of minimal gaps can be standardized. */
  lemma {:induction false} Enumerated(t: CosetTable.Table)
    requires CosetTable.Shape(t) && CosetTable.Consistent(t)
    requires Gaps.AtLeast(t, 0)
    ensures IsTable(t.n, Columns(t))
  {
    var cols := Columns(t);
    forall k | 0 <= k < |cols| / 2
      ensures Mates(cols, k)
    {
      SlotAnswered(t, 2 * k + 1, cols[2 * k], cols[2 * k + 1]);
      SlotAnswered(t, 2 * k + 2, cols[2 * k + 1], cols[2 * k]);
    }
  }

  /** One half of `Inverse`. */
  ghost predicate Answered(h: seq<int>, i: seq<int>)
  {
    |h| == |i| && Column(h) && forall c :: 1 <= c < |h| && h[c] > 0 ==> i[h[c]] == c
  }

  lemma {:induction false} SlotAnswered(t: CosetTable.Table, g: int, h: seq<int>, i: seq<int>)
    requires CosetTable.Shape(t) && CosetTable.Consistent(t) && 1 <= g < |t.ref| && 1 <= CosetTable.Inv(g) < |t.ref|
    requires h == t.store[t.ref[g]] && i == t.store[t.ref[CosetTable.Inv(g)]]
    requires forall c :: CosetTable.Cell(t, g, c) ==> CosetTable.At(t, g, c) >= 0
    ensures Answered(h, i)
  {
    forall c | 1 <= c < |h|
      ensures 0 <= h[c] < |h| && (h[c] > 0 ==> i[h[c]] == c)
    {
      assert CosetTable.Cell(t, g, c) && CosetTable.Paired(t, g, c) && h[c] == CosetTable.At(t, g, c);
    }
  }

  lemma {:induction false} FollowRenamed(n: nat, t: seq<seq<int>>, s: seq<int>, r: seq<seq<int>>, a: int, w: seq<nat>)
    requires IsTable(n, t) && IsTable(n, r) && Renaming(n, s) && Renamed(n, t, s, r) && 0 <= a <= n
    ensures 0 <= Follow(t, a, w) <= n && Follow(r, s[a], w) == s[Follow(t, a, w)]
    decreases |w|
  {
    if w != [] {
      var v, g := w[..|w| - 1], w[|w| - 1];
      FollowRenamed(n, t, s, r, a, v);
      var b := Follow(t, a, v);
      if g < |t| && 1 <= b {
        Entries(n, t, g, b);
        assert RenamedAt(t, s, r, g, b);
      }
    }
  }

  /** Standardizing changes neither which words fix a coset nor, at coset 1, which words lie in the subgroup. */
  lemma {:induction false} StabilizerKept(n: nat, t: seq<seq<int>>, s: seq<int>, r: seq<seq<int>>, a: int, w: seq<nat>)
    requires IsTable(n, t) && IsTable(n, r) && Renaming(n, s) && Renamed(n, t, s, r) && 1 <= a <= n
    ensures Follow(r, s[a], w) == s[a] <==> Follow(t, a, w) == a
  {
    FollowRenamed(n, t, s, r, a, w);
    var b := Follow(t, a, w);
    assert b != a && b > 0 ==> b < a || a < b;
  }
}
