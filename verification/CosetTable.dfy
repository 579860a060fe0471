/**
  Coset tables as the Todd-Coxeter kernel stores them.

  A table is a list of columns, one for every generator and every inverse
  generator; column 2k-1 belongs to a generator and column 2k to its inverse.  A
  slot of the list only refers to a column, and the two slots of an involution
  refer to one and the same column, so the model keeps the columns in `store`
  and lets `ref` say which of them a slot refers to.

  Positive entries are cosets, 0 is an undefined entry and -1 marks a minimal
  gap.  Rows and slots count from 1; position 0 is never used.
 */
module CosetTable {

  datatype Table = Table(n: nat, ref: seq<nat>, store: seq<seq<int>>)

  /** The slot of the inverse generator. */
  function Inv(g: int): (h: int)
  {
    g + 2 * (g % 2) - 1
  }

  /** Slots are usable, and only the two slots of one generator may share a column. */
  ghost predicate Shape(t: Table)
  {
    && |t.ref| % 2 == 1
    && (forall g :: 1 <= g < |t.ref| ==> t.ref[g] < |t.store|)
    && (forall k :: 0 <= k < |t.store| ==> |t.store[k]| == t.n + 1)
    && (forall g, h :: 1 <= g < |t.ref| && 1 <= h < |t.ref| && t.ref[g] == t.ref[h] ==> g == h || h == Inv(g))
  }

  predicate Cell(t: Table, g: int, c: int)
  {
    1 <= g < |t.ref| && 1 <= c <= t.n
  }

  function At(t: Table, g: int, c: int): int
    requires Shape(t) && Cell(t, g, c)
  {
    t.store[t.ref[g]][c]
  }

  /** Assigns one entry; a shared column shows the change in both of its slots. */
  function Put(t: Table, g: int, c: int, d: int): (r: Table)
    requires Shape(t) && Cell(t, g, c)
    ensures Shape(r) && r.n == t.n && r.ref == t.ref
    ensures forall g', c' :: Cell(t, g', c') ==>
                               At(r, g', c') == if t.ref[g'] == t.ref[g] && c' == c then d else At(t, g', c')
  {
    t.(store := t.store[t.ref[g] := t.store[t.ref[g]][c := d]])
  }

  /** The empty table for n cosets; a shared generator has one column for both of its slots. */
  function Blank(n: nat, shared: seq<bool>): (t: Table)
  {
    var column := seq(n + 1, c => 0);
    Table(n,
          seq(2 * |shared| + 1, g requires 0 <= g < 2 * |shared| + 1 =>
            if g == 0 then 0 else if g % 2 == 0 && shared[g / 2 - 1] then g - 2 else g - 1),
          seq(2 * |shared|, k => column))
  }

  lemma {:induction false} BlankShape(n: nat, shared: seq<bool>)
    ensures Shape(Blank(n, shared))
  {
    var t := Blank(n, shared);
    forall g, h | 1 <= g < |t.ref| && 1 <= h < |t.ref| && t.ref[g] == t.ref[h]
      ensures g == h || h == Inv(g)
    {
      assert g - 2 <= t.ref[g] <= g - 1 && h - 2 <= t.ref[h] <= h - 1;
    }
  }

  lemma {:induction false} BlankEmpty(n: nat, shared: seq<bool>)
    ensures Shape(Blank(n, shared)) && Consistent(Blank(n, shared))
    ensures forall g, c :: Cell(Blank(n, shared), g, c) ==> At(Blank(n, shared), g, c) == 0
  {
    BlankShape(n, shared);
  }

  predicate SameFrame(t: Table, u: Table)
  {
    t.n == u.n && t.ref == u.ref
  }

  /** Columns of a generator and its inverse are mutually inverse partial injections. */
  ghost predicate Consistent(t: Table)
    requires Shape(t)
  {
    forall g, c {:trigger Paired(t, g, c)} :: Cell(t, g, c) ==> Paired(t, g, c)
  }

  /** The entry at (g, c), if defined, is mirrored in the inverse column. */
  ghost predicate Paired(t: Table, g: int, c: int)
    requires Shape(t) && Cell(t, g, c)
  {
    At(t, g, c) > 0 ==> Cell(t, Inv(g), At(t, g, c)) && At(t, Inv(g), At(t, g, c)) == c
  }

  lemma {:induction false} InvFacts(t: Table, g: int)
    requires Shape(t) && 1 <= g < |t.ref|
    ensures 1 <= Inv(g) < |t.ref| && Inv(g) != g && Inv(Inv(g)) == g
  {
  }

  // ----- images of a table under a representative map

  ghost predicate RepMap(n: nat, rep: seq<int>)
  {
    |rep| == n + 1 && forall c :: 1 <= c <= n ==> 1 <= rep[c] <= c
  }

  /** The table has an edge labelled g between the classes a and b. */
  ghost predicate HasEdge(t: Table, rep: seq<int>, g: int, a: int, b: int)
    requires Shape(t) && |rep| == t.n + 1
  {
    exists c :: Cell(t, g, c) && 0 < At(t, g, c) <= t.n && rep[c] == a && rep[At(t, g, c)] == b
  }

  /** Every edge of t has the image of an edge of u. */
  ghost predicate ImageWithin(t: Table, u: Table, rep: seq<int>)
    requires Shape(t) && Shape(u) && SameFrame(t, u) && |rep| == t.n + 1
  {
    forall g, c {:trigger Covered(t, u, rep, g, c)} :: Cell(t, g, c) ==> Covered(t, u, rep, g, c)
  }

  /** The entry at (g, c) of t, if defined, has the image of an edge of u. */
  ghost predicate Covered(t: Table, u: Table, rep: seq<int>, g: int, c: int)
    requires Shape(t) && Shape(u) && SameFrame(t, u) && |rep| == t.n + 1 && Cell(t, g, c)
  {
    0 < At(t, g, c) <= t.n ==> HasEdge(u, rep, g, rep[c], rep[At(t, g, c)])
  }

  lemma {:induction false} ImageRefl(t: Table, rep: seq<int>)
    requires Shape(t) && |rep| == t.n + 1
    ensures ImageWithin(t, t, rep)
  {
    forall g, c | Cell(t, g, c)
      ensures Covered(t, t, rep, g, c)
    {
      if 0 < At(t, g, c) <= t.n {
        EdgeWitness(t, rep, g, c);
      }
    }
  }

  lemma {:induction false} ImageTrans(t: Table, u: Table, w: Table, rep: seq<int>)
    requires Shape(t) && Shape(u) && Shape(w) && SameFrame(t, u) && SameFrame(u, w) && |rep| == t.n + 1
    requires ImageWithin(t, u, rep) && ImageWithin(u, w, rep)
    ensures ImageWithin(t, w, rep)
  {
    forall g, c | Cell(t, g, c)
      ensures Covered(t, w, rep, g, c)
    {
      assert Covered(t, u, rep, g, c);
      if 0 < At(t, g, c) <= t.n {
        var c' :| Cell(u, g, c') && 0 < At(u, g, c') <= u.n && rep[c'] == rep[c] &&
            rep[At(u, g, c')] == rep[At(t, g, c)];
        assert Covered(u, w, rep, g, c');
      }
    }
  }

  /** Sends everything that was represented by `drop` to `keep`. */
  function Merged(rep: seq<int>, keep: int, drop: int): (r: seq<int>)
    ensures |r| == |rep|
    ensures forall i :: 0 <= i < |rep| ==> r[i] == if rep[i] == drop then keep else rep[i]
  {
    seq(|rep|, i requires 0 <= i < |rep| => if rep[i] == drop then keep else rep[i])
  }

  /** Coarsening the representatives keeps images within images. */
  lemma {:induction false} ImageMerged(t: Table, u: Table, rep: seq<int>, keep: int, drop: int)
    requires Shape(t) && Shape(u) && SameFrame(t, u) && |rep| == t.n + 1
    requires ImageWithin(t, u, rep)
    ensures ImageWithin(t, u, Merged(rep, keep, drop))
  {
    var rep' := Merged(rep, keep, drop);
    forall g, c | Cell(t, g, c)
      ensures Covered(t, u, rep', g, c)
    {
      assert Covered(t, u, rep, g, c);
      if 0 < At(t, g, c) <= t.n {
        var c' :| Cell(u, g, c') && 0 < At(u, g, c') <= u.n && rep[c'] == rep[c] &&
            rep[At(u, g, c')] == rep[At(t, g, c)];
        assert rep'[c'] == rep'[c] && rep'[At(u, g, c')] == rep'[At(t, g, c)];
      }
    }
  }

  // ----- congruences

  ghost predicate Equivalence(eq: (int, int) -> bool)
  {
    && (forall a :: eq(a, a))
    && (forall a, b :: eq(a, b) ==> eq(b, a))
    && (forall a, b, c :: eq(a, b) && eq(b, c) ==> eq(a, c))
  }

  /** An equivalence that the columns respect wherever they are defined. */
  ghost predicate Congruence(eq: (int, int) -> bool, t: Table)
    requires Shape(t)
  {
    && Equivalence(eq)
    && (forall g, c, d :: Cell(t, g, c) && Cell(t, g, d) && At(t, g, c) > 0 && At(t, g, d) > 0 && eq(c, d)
                          ==> eq(At(t, g, c), At(t, g, d)))
  }

  ghost predicate Identifies(eq: (int, int) -> bool, rep: seq<int>)
  {
    forall c :: 0 <= c < |rep| ==> eq(c, rep[c])
  }

  // ----- the two ways a row entry of a merged coset is moved to its representative

  /** The representative has no entry in the column: the entry moves over. */
  function MoveEntry(t: Table, g: int, keep: int, drop: int): (r: Table)
    requires Shape(t) && Consistent(t) && Cell(t, g, keep) && Cell(t, g, drop) && At(t, g, drop) > 0
    ensures Shape(r) && SameFrame(t, r)
  {
    InvFacts(t, g);
    assert Paired(t, g, drop);
    var d := At(t, g, drop);
    Put(Put(Put(t, g, keep, d), g, drop, 0), Inv(g), d, keep)
  }

  /** The representative has an entry of its own: the entry of the merged coset goes. */
  function DropEntry(t: Table, g: int, keep: int, drop: int): (r: Table)
    requires Shape(t) && Consistent(t) && Cell(t, g, keep) && Cell(t, g, drop) && At(t, g, drop) > 0
    ensures Shape(r) && SameFrame(t, r)
  {
    InvFacts(t, g);
    assert Paired(t, g, drop);
    var d := At(t, g, drop);
    var r := Put(Put(t, Inv(g), d, 0), g, drop, 0);
    if At(r, g, keep) <= 0 then Put(r, g, keep, keep) else r
  }

  lemma {:induction false} MoveEntryPaired(t: Table, g: int, keep: int, drop: int, h: int, c: int)
    requires Shape(t) && Consistent(t) && Cell(t, g, keep) && Cell(t, g, drop) && keep != drop && Cell(t, h, c)
    requires At(t, g, drop) > 0 && At(t, g, keep) <= 0
    ensures Paired(MoveEntry(t, g, keep, drop), h, c)
  {
    InvFacts(t, g);
    InvFacts(t, h);
    assert Paired(t, h, c);
    if h == g {
      MoveEntryPairedHere(t, g, keep, drop, c);
    } else if h == Inv(g) {
      MoveEntryPairedThere(t, g, keep, drop, c);
    } else {
      assert t.ref[h] != t.ref[g] && t.ref[h] != t.ref[Inv(g)];
    }
  }

  lemma {:induction false} MoveEntryPairedHere(t: Table, g: int, keep: int, drop: int, c: int)
    requires Shape(t) && Consistent(t) && Cell(t, g, keep) && Cell(t, g, drop) && keep != drop && Cell(t, g, c)
    requires At(t, g, drop) > 0 && At(t, g, keep) <= 0
    ensures Paired(MoveEntry(t, g, keep, drop), g, c)
  {
    InvFacts(t, g);
    assert Paired(t, g, drop) && Paired(t, g, keep) && Paired(t, g, c);
  }

  lemma {:induction false} MoveEntryPairedThere(t: Table, g: int, keep: int, drop: int, c: int)
    requires Shape(t) && Consistent(t) && Cell(t, g, keep) && Cell(t, g, drop) && keep != drop && Cell(t, Inv(g), c)
    requires At(t, g, drop) > 0 && At(t, g, keep) <= 0
    ensures Paired(MoveEntry(t, g, keep, drop), Inv(g), c)
  {
    InvFacts(t, g);
    assert Paired(t, g, drop) && Paired(t, g, keep) && Paired(t, Inv(g), c);
  }

  lemma {:induction false} MoveEntryConsistent(t: Table, g: int, keep: int, drop: int)
    requires Shape(t) && Consistent(t) && Cell(t, g, keep) && Cell(t, g, drop) && keep != drop
    requires At(t, g, drop) > 0 && At(t, g, keep) <= 0
    ensures Consistent(MoveEntry(t, g, keep, drop))
  {
    var r := MoveEntry(t, g, keep, drop);
    forall h, c | Cell(r, h, c)
      ensures Paired(r, h, c)
    {
      MoveEntryPaired(t, g, keep, drop, h, c);
    }
  }

  lemma {:induction false} DropEntryPaired(t: Table, g: int, keep: int, drop: int, h: int, c: int)
    requires Shape(t) && Consistent(t) && Cell(t, g, keep) && Cell(t, g, drop) && keep != drop && Cell(t, h, c)
    requires At(t, g, drop) > 0 && At(t, g, keep) > 0
    ensures Paired(DropEntry(t, g, keep, drop), h, c)
  {
    InvFacts(t, g);
    InvFacts(t, h);
    assert Paired(t, h, c);
    if h == g {
      DropEntryPairedHere(t, g, keep, drop, c);
    } else if h == Inv(g) {
      DropEntryPairedThere(t, g, keep, drop, c);
    } else {
      assert t.ref[h] != t.ref[g] && t.ref[h] != t.ref[Inv(g)];
    }
  }

  lemma {:induction false} DropEntryPairedHere(t: Table, g: int, keep: int, drop: int, c: int)
    requires Shape(t) && Consistent(t) && Cell(t, g, keep) && Cell(t, g, drop) && keep != drop && Cell(t, g, c)
    requires At(t, g, drop) > 0 && At(t, g, keep) > 0
    ensures Paired(DropEntry(t, g, keep, drop), g, c)
  {
    InvFacts(t, g);
    assert Paired(t, g, drop) && Paired(t, g, keep) && Paired(t, g, c);
  }

  lemma {:induction false} DropEntryPairedThere(t: Table, g: int, keep: int, drop: int, c: int)
    requires Shape(t) && Consistent(t) && Cell(t, g, keep) && Cell(t, g, drop) && keep != drop && Cell(t, Inv(g), c)
    requires At(t, g, drop) > 0 && At(t, g, keep) > 0
    ensures Paired(DropEntry(t, g, keep, drop), Inv(g), c)
  {
    InvFacts(t, g);
    assert Paired(t, g, drop) && Paired(t, g, keep) && Paired(t, Inv(g), c);
  }

  lemma {:induction false} DropEntryConsistent(t: Table, g: int, keep: int, drop: int)
    requires Shape(t) && Consistent(t) && Cell(t, g, keep) && Cell(t, g, drop) && keep != drop
    requires At(t, g, drop) > 0 && At(t, g, keep) > 0
    ensures Consistent(DropEntry(t, g, keep, drop))
  {
    var r := DropEntry(t, g, keep, drop);
    forall h, c | Cell(r, h, c)
      ensures Paired(r, h, c)
    {
      DropEntryPaired(t, g, keep, drop, h, c);
    }
  }

  lemma {:induction false} EdgeWitness(t: Table, rep: seq<int>, g: int, c: int)
    requires Shape(t) && |rep| == t.n + 1 && Cell(t, g, c) && 0 < At(t, g, c) <= t.n
    ensures HasEdge(t, rep, g, rep[c], rep[At(t, g, c)])
  {
  }

  lemma {:induction false} MoveEntryKeepsEdge(t: Table, g: int, keep: int, drop: int, rep: seq<int>, h: int, c: int)
    requires Shape(t) && Consistent(t) && Cell(t, g, keep) && Cell(t, g, drop) && keep != drop
    requires At(t, g, drop) > 0 && At(t, g, keep) <= 0
    requires |rep| == t.n + 1 && rep[keep] == rep[drop]
    requires Cell(t, h, c) && 0 < At(t, h, c) <= t.n
    ensures HasEdge(MoveEntry(t, g, keep, drop), rep, h, rep[c], rep[At(t, h, c)])
  {
    InvFacts(t, g);
    assert Paired(t, g, drop) && Paired(t, g, keep);
    var r := MoveEntry(t, g, keep, drop);
    var d := At(t, g, drop);
    if t.ref[h] == t.ref[Inv(g)] && c == d {
      EdgeWitness(r, rep, h, d);
    } else if t.ref[h] == t.ref[g] && c == drop {
      assert At(r, h, keep) == d;
      EdgeWitness(r, rep, h, keep);
    } else {
      EdgeWitness(r, rep, h, c);
    }
  }

  lemma {:induction false} MoveEntryAddsNoEdge(t: Table, g: int, keep: int, drop: int, rep: seq<int>, h: int, c: int)
    requires Shape(t) && Consistent(t) && Cell(t, g, keep) && Cell(t, g, drop) && keep != drop
    requires At(t, g, drop) > 0 && At(t, g, keep) <= 0
    requires |rep| == t.n + 1 && rep[keep] == rep[drop]
    requires Cell(t, h, c) && 0 < At(MoveEntry(t, g, keep, drop), h, c) <= t.n
    ensures HasEdge(t, rep, h, rep[c], rep[At(MoveEntry(t, g, keep, drop), h, c)])
  {
    InvFacts(t, g);
    assert Paired(t, g, drop);
    var d := At(t, g, drop);
    if t.ref[h] == t.ref[Inv(g)] && c == d {
      assert At(t, h, d) == drop;
      EdgeWitness(t, rep, h, d);
    } else if t.ref[h] == t.ref[g] && c == keep {
      EdgeWitness(t, rep, h, drop);
    } else {
      EdgeWitness(t, rep, h, c);
    }
  }

  /** Moving an entry to the representative leaves the image of the table as it was. */
  lemma {:induction false} MoveEntryImage(t: Table, g: int, keep: int, drop: int, rep: seq<int>)
    requires Shape(t) && Consistent(t) && Cell(t, g, keep) && Cell(t, g, drop) && keep != drop
    requires At(t, g, drop) > 0 && At(t, g, keep) <= 0
    requires |rep| == t.n + 1 && rep[keep] == rep[drop]
    ensures ImageWithin(t, MoveEntry(t, g, keep, drop), rep)
    ensures ImageWithin(MoveEntry(t, g, keep, drop), t, rep)
  {
    var r := MoveEntry(t, g, keep, drop);
    forall h, c | Cell(t, h, c)
      ensures Covered(t, r, rep, h, c)
    {
      if 0 < At(t, h, c) <= t.n {
        MoveEntryKeepsEdge(t, g, keep, drop, rep, h, c);
      }
    }
    forall h, c | Cell(r, h, c)
      ensures Covered(r, t, rep, h, c)
    {
      if 0 < At(r, h, c) <= r.n {
        MoveEntryAddsNoEdge(t, g, keep, drop, rep, h, c);
      }
    }
  }

  lemma {:induction false} DropEntryKeepsEdge(t: Table, g: int, keep: int, drop: int, rep: seq<int>, h: int, c: int)
    requires Shape(t) && Consistent(t) && Cell(t, g, keep) && Cell(t, g, drop) && keep != drop
    requires At(t, g, drop) > 0 && At(t, g, keep) > 0
    requires At(t, g, keep) <= t.n && At(t, g, drop) <= t.n
    requires |rep| == t.n + 1 && rep[keep] == rep[drop] && rep[At(t, g, keep)] == rep[At(t, g, drop)]
    requires Cell(t, h, c) && 0 < At(t, h, c) <= t.n
    ensures HasEdge(DropEntry(t, g, keep, drop), rep, h, rep[c], rep[At(t, h, c)])
  {
    InvFacts(t, g);
    assert Paired(t, g, drop) && Paired(t, g, keep);
    var r := DropEntry(t, g, keep, drop);
    var d, e := At(t, g, drop), At(t, g, keep);
    if t.ref[h] == t.ref[g] && (c == drop || c == keep) {
      EdgeWitness(r, rep, h, keep);
    } else if t.ref[h] == t.ref[Inv(g)] && c == d {
      assert At(r, h, e) == keep;
      EdgeWitness(r, rep, h, e);
    } else {
      EdgeWitness(r, rep, h, c);
    }
  }

  lemma {:induction false} DropEntryAddsNoEdge(t: Table, g: int, keep: int, drop: int, rep: seq<int>, h: int, c: int)
    requires Shape(t) && Consistent(t) && Cell(t, g, keep) && Cell(t, g, drop) && keep != drop
    requires At(t, g, drop) > 0 && At(t, g, keep) > 0
    requires At(t, g, keep) <= t.n && At(t, g, drop) <= t.n
    requires |rep| == t.n + 1 && rep[keep] == rep[drop] && rep[At(t, g, keep)] == rep[At(t, g, drop)]
    requires Cell(t, h, c) && 0 < At(DropEntry(t, g, keep, drop), h, c) <= t.n
    ensures HasEdge(t, rep, h, rep[c], rep[At(DropEntry(t, g, keep, drop), h, c)])
  {
    InvFacts(t, g);
    assert Paired(t, g, drop) && Paired(t, g, keep);
    EdgeWitness(t, rep, h, c);
  }

  /** Dropping an entry is harmless once the two targets have been identified. */
  lemma {:induction false} DropEntryImage(t: Table, g: int, keep: int, drop: int, rep: seq<int>)
    requires Shape(t) && Consistent(t) && Cell(t, g, keep) && Cell(t, g, drop) && keep != drop
    requires At(t, g, drop) > 0 && At(t, g, keep) > 0
    requires At(t, g, keep) <= t.n && At(t, g, drop) <= t.n
    requires |rep| == t.n + 1 && rep[keep] == rep[drop] && rep[At(t, g, keep)] == rep[At(t, g, drop)]
    ensures ImageWithin(t, DropEntry(t, g, keep, drop), rep)
    ensures ImageWithin(DropEntry(t, g, keep, drop), t, rep)
  {
    var r := DropEntry(t, g, keep, drop);
    forall h, c | Cell(t, h, c)
      ensures Covered(t, r, rep, h, c)
    {
      if 0 < At(t, h, c) <= t.n {
        DropEntryKeepsEdge(t, g, keep, drop, rep, h, c);
      }
    }
    forall h, c | Cell(r, h, c)
      ensures Covered(r, t, rep, h, c)
    {
      if 0 < At(r, h, c) <= r.n {
        DropEntryAddsNoEdge(t, g, keep, drop, rep, h, c);
      }
    }
  }
}
