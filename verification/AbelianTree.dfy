/**
  Trees for abelianized words: the entries are exponent vectors, and a vector is looked up, up to its
  sign, or entered. The vector that is looked up is the one in the buffer of the tree.
 */
module AbelianTree {

  // ----- vectors up to sign and padding

  /** The length without the zeros at the end. */
  function Leng(v: seq<int>): (n: nat)
    ensures n <= |v| && (n > 0 ==> v[n - 1] != 0) && forall i :: n <= i < |v| ==> v[i] == 0
  {
    if v == [] || v[|v| - 1] != 0 then |v| else Leng(v[..|v| - 1])
  }

  /** The first entry that is not zero. */
  function Lead(v: seq<int>): (x: int)
    ensures x == 0 <==> forall i :: 0 <= i < |v| ==> v[i] == 0
  {
    if v == [] then 0 else if v[0] != 0 then v[0] else assert v == [v[0]] + v[1..]; Lead(v[1..])
  }

  function Negated(v: seq<int>): (r: seq<int>)
    ensures |r| == |v| && forall i :: 0 <= i < |v| ==> r[i] == -v[i]
  {
    seq(|v|, i requires 0 <= i < |v| => -v[i])
  }

  /** The vector or its negative, whichever starts with a positive entry. */
  function Upright(v: seq<int>): (r: seq<int>)
    ensures |r| == |v|
  {
    if Lead(v) < 0 then Negated(v) else v
  }

  /** What is entered into the tree. */
  function Norm(v: seq<int>): seq<int>
  {
    Upright(v)[..Leng(v)]
  }

  function Padded(e: seq<int>, n: nat): (r: seq<int>)
    ensures |r| == n && forall i :: 0 <= i < n ==> r[i] == if i < |e| then e[i] else 0
  {
    seq(n, i requires 0 <= i => if i < |e| then e[i] else 0)
  }

  /** The vector that an index stands for. */
  function Value(entries: seq<seq<int>>, gen: int, n: nat): (v: seq<int>)
    requires -|entries| <= gen <= |entries|
    ensures |v| == n
  {
    if gen == 0 then Padded([], n)
    else if gen > 0 then Padded(entries[gen - 1], n)
    else Negated(Padded(entries[-gen - 1], n))
  }

  lemma {:induction false} LeadAt(v: seq<int>, k: nat)
    requires k < |v| && v[k] != 0 && forall i :: 0 <= i < k ==> v[i] == 0
    ensures Lead(v) == v[k]
  {
    if k > 0 {
      LeadAt(v[1..], k - 1);
    }
  }

  lemma {:induction false} LeadNegated(v: seq<int>)
    ensures Lead(Negated(v)) == -Lead(v)
  {
    if v != [] && v[0] == 0 {
      LeadNegated(v[1..]);
      assert Negated(v)[1..] == Negated(v[1..]);
    }
  }

  lemma {:induction false} NegatedTwice(v: seq<int>)
    ensures Negated(Negated(v)) == v
  {
  }

  /** What is entered can be read off again. */
  lemma {:induction false} NormValue(v: seq<int>)
    ensures Padded(Norm(v), |v|) == Upright(v)
  {
  }

  lemma {:induction false} UprightNegated(v: seq<int>)
    ensures Upright(Negated(v)) == Upright(v)
  {
    LeadNegated(v);
    NegatedTwice(v);
    if Lead(v) == 0 {
      assert Negated(v) == v;
    }
  }

  /** Two vectors are entered as the same if and only if they are equal or opposite. */
  lemma {:induction false} SameNorm(v: seq<int>, w: seq<int>)
    requires |v| == |w|
    ensures Norm(v) == Norm(w) <==> v == w || v == Negated(w)
  {
    if Norm(v) == Norm(w) {
      NormValue(v);
      NormValue(w);
      NegatedTwice(v);
      NegatedTwice(w);
    }
    if v == Negated(w) {
      UprightNegated(w);
      LengNegated(w);
    }
  }

  lemma {:induction false} LengUnique(v: seq<int>, n: nat)
    requires n <= |v| && (n > 0 ==> v[n - 1] != 0) && forall i :: n <= i < |v| ==> v[i] == 0
    ensures Leng(v) == n
  {
  }

  lemma {:induction false} LengNegated(v: seq<int>)
    ensures Leng(Negated(v)) == Leng(v)
  {
    LengUnique(Negated(v), Leng(v));
  }

  datatype Result = BadLength | Index(gen: int)

  /** The index k stands for the vector v. */
  ghost predicate Stands(entries: seq<seq<int>>, k: int, v: seq<int>)
  {
    -|entries| <= k <= |entries| && Value(entries, k, |v|) == v
  }

  /** All entries are different, and are what is entered for some vector. */
  ghost predicate Valid(entries: seq<seq<int>>)
  {
    && (forall k :: 0 <= k < |entries| ==> entries[k] != [] && Norm(entries[k]) == entries[k])
    && (forall j, k :: 0 <= j < k < |entries| ==> entries[j] != entries[k])
  }

  lemma {:induction false} NormTwice(v: seq<int>)
    requires Lead(v) != 0
    ensures Norm(v) != [] && Norm(Norm(v)) == Norm(v)
  {
    var e := Norm(v);
    LeadNegated(v);
    LeadPrefix(Upright(v), Leng(v));
    LengUnique(e, |e|);
  }

  lemma {:induction false} LeadPrefix(v: seq<int>, n: nat)
    requires n <= |v| && forall i :: n <= i < |v| ==> v[i] == 0
    ensures Lead(v[..n]) == Lead(v)
  {
    if n > 0 && v[0] == 0 {
      LeadPrefix(v[1..], n - 1);
      assert v[..n][1..] == v[1..][..n - 1];
    }
  }

  /** An index stands for one vector of each length only, and no other index does. */
  lemma {:induction false} IndexUnique(entries: seq<seq<int>>, j: int, k: int, v: seq<int>)
    requires Valid(entries) && Stands(entries, j, v) && Stands(entries, k, v)
    requires j != 0 ==> |entries[Abs(j) - 1]| <= |v|
    requires k != 0 ==> |entries[Abs(k) - 1]| <= |v|
    ensures j == k
  {
    if j != 0 {
      StandsNorm(entries, j, v);
    }
    if k != 0 {
      StandsNorm(entries, k, v);
    }
  }

  function Abs(x: int): nat
  {
    if x < 0 then -x else x
  }

  lemma {:induction false} StandsNorm(entries: seq<seq<int>>, k: int, v: seq<int>)
    requires Valid(entries) && Stands(entries, k, v) && k != 0 && |entries[Abs(k) - 1]| <= |v|
    ensures entries[Abs(k) - 1] == Norm(v) && (k > 0 <==> Lead(v) > 0) && Lead(v) != 0
  {
    var e := entries[Abs(k) - 1];
    PaddedNorm(e, |v|);
    SignedNorm(Padded(e, |v|), k < 0, v);
  }

  lemma {:induction false} SignedNorm(p: seq<int>, negative: bool, v: seq<int>)
    requires Lead(p) > 0 && v == if negative then Negated(p) else p
    ensures Norm(v) == Norm(p) && (Lead(v) > 0 <==> !negative) && Lead(v) != 0
  {
    SameNorm(v, p);
    LeadNegated(p);
  }

  lemma {:induction false} PaddedNorm(e: seq<int>, n: nat)
    requires Norm(e) == e && e != [] && |e| <= n
    ensures Norm(Padded(e, n)) == e && Lead(Padded(e, n)) > 0
  {
    var p := Padded(e, n);
    UprightNorm(e);
    assert p[..|e|] == e;
    LeadPrefix(p, |e|);
    LengUnique(p, |e|);
  }

  lemma {:induction false} UprightNorm(e: seq<int>)
    requires Norm(e) == e && e != []
    ensures Lead(e) > 0 && Leng(e) == |e| && e[|e| - 1] != 0
  {
    assert |Norm(e)| == Leng(e);
    if Lead(e) < 0 {
      LeadNegated(e);
    }
  }

  // ----- the routine

  /** The place of a vector among the entries from k on, or the number of entries. */
  function Find(entries: seq<seq<int>>, e: seq<int>, k: nat): (r: nat)
    requires k <= |entries|
    ensures k <= r <= |entries| && (r < |entries| ==> entries[r] == e)
    ensures forall j :: k <= j < r ==> entries[j] != e
    decreases |entries| - k
  {
    if k == |entries| || entries[k] == e then k else Find(entries, e, k + 1)
  }

  /** The index of a vector, and the entries afterwards. */
  function Entered(entries: seq<seq<int>>, v: seq<int>): (int, seq<seq<int>>)
  {
    if Lead(v) == 0 then (0, entries)
    else
      var k := Find(entries, Norm(v), 0);
      (Signed(k, v), if k < |entries| then entries else entries + [Norm(v)])
  }

  /** The index of the vector that entry k is for. */
  function Signed(k: nat, v: seq<int>): int
  {
    if Lead(v) < 0 then -(k + 1) else k + 1
  }

  lemma {:induction false} SignedStands(entries: seq<seq<int>>, k: nat, v: seq<int>)
    requires k < |entries| && entries[k] == Norm(v)
    ensures Stands(entries, Signed(k, v), v)
  {
    NormValue(v);
    NegatedTwice(v);
  }

  lemma {:induction false} ValidMore(entries: seq<seq<int>>, e: seq<int>)
    requires Valid(entries) && e != [] && Norm(e) == e && e !in entries
    ensures Valid(entries + [e])
  {
  }

  /** The index stands for the vector, old entries stay, and the entries stay different. */
  lemma {:induction false} EnteredStands(entries: seq<seq<int>>, v: seq<int>)
    requires Valid(entries)
    ensures var (gen, r) := Entered(entries, v); Valid(r) && entries <= r && Stands(r, gen, v)
  {
    if Lead(v) == 0 {
      assert Padded([], |v|) == v;
    } else {
      var e := Norm(v);
      var k := Find(entries, e, 0);
      NormTwice(v);
      if k < |entries| {
        SignedStands(entries, k, v);
      } else {
        ValidMore(entries, e);
        SignedStands(entries + [e], k, v);
      }
    }
  }

  /** In a valid tree there is one place only to find an entry. */
  lemma {:induction false} FindKnown(entries: seq<seq<int>>, e: seq<int>, j: nat)
    requires Valid(entries) && j < |entries| && entries[j] == e
    ensures Find(entries, e, 0) == j
  {
  }

  lemma {:induction false} EnteredKnown(entries: seq<seq<int>>, v: seq<int>, j: nat)
    requires Valid(entries) && j < |entries| && entries[j] == Norm(v) && Lead(v) != 0
    ensures Entered(entries, v) == (Signed(j, v), entries)
  {
    FindKnown(entries, Norm(v), j);
  }

  ghost predicate EnteredIs(entries: seq<seq<int>>, v: seq<int>, gen: int, r: seq<seq<int>>)
  {
    (gen, r) == Entered(entries, v)
  }

  /** Asking again, for the vector or its negative, finds the same entry in every later state of the tree. */
  lemma {:induction false} EnteredAgain(entries: seq<seq<int>>, v: seq<int>, gen: int, r: seq<seq<int>>, w: seq<int>,
                                        same: bool, later: seq<seq<int>>)
    requires EnteredIs(entries, v, gen, r) && Valid(later) && r <= later && w == if same then v else Negated(v)
    ensures EnteredIs(later, w, if same then gen else -gen, later)
  {
    if Lead(v) != 0 {
      var j := EnteredAt(entries, v, gen, r);
      KnownAgain(later, v, w, same, j);
    } else {
      NothingAgain(entries, v, gen, r, w, same, later);
    }
  }

  lemma {:induction false} NothingAgain(entries: seq<seq<int>>, v: seq<int>, gen: int, r: seq<seq<int>>, w: seq<int>,
                                        same: bool, later: seq<seq<int>>)
    requires EnteredIs(entries, v, gen, r) && Lead(v) == 0 && w == if same then v else Negated(v)
    ensures gen == 0 && EnteredIs(later, w, 0, later)
  {
    LeadNegated(v);
  }

  lemma {:induction false} KnownAgain(entries: seq<seq<int>>, v: seq<int>, w: seq<int>, same: bool, j: nat)
    requires Valid(entries) && j < |entries| && entries[j] == Norm(v) && Lead(v) != 0
    requires w == if same then v else Negated(v)
    ensures EnteredIs(entries, w, if same then Signed(j, v) else -Signed(j, v), entries)
  {
    SignedAgain(v, w, same, j);
    EnteredKnown(entries, w, j);
  }

  lemma {:induction false} SignedAgain(v: seq<int>, w: seq<int>, same: bool, j: nat)
    requires Lead(v) != 0 && w == if same then v else Negated(v)
    ensures Norm(w) == Norm(v) && Lead(w) != 0 && Signed(j, w) == if same then Signed(j, v) else -Signed(j, v)
  {
    LeadNegated(v);
    UprightNegated(v);
    LengNegated(v);
  }

  lemma {:induction false} EnteredAt(entries: seq<seq<int>>, v: seq<int>, gen: int, r: seq<seq<int>>) returns (j: nat)
    requires EnteredIs(entries, v, gen, r) && Lead(v) != 0
    ensures j < |r| && r[j] == Norm(v) && gen == Signed(j, v)
  {
    j := Find(entries, Norm(v), 0);
  }

  class AbelianTree {
    var entries: seq<seq<int>>
    const buffer: array<int>

    constructor (n: nat)
      ensures Valid(entries) && entries == [] && fresh(buffer) && buffer.Length == n
    {
      entries := [];
      buffer := new int[n](_ => 0);
    }

    /** The number of entries up to the last one that is not zero. */
    method Length() returns (leng: nat)
      ensures leng == Leng(buffer[..])
    {
      leng := buffer.Length;
      while leng >= 1 && buffer[leng - 1] == 0
        invariant leng <= buffer.Length && forall i :: leng <= i < buffer.Length ==> buffer[i] == 0
      {
        leng := leng - 1;
      }
      LengUnique(buffer[..], leng);
    }

    /** Inverts the vector in the buffer if it starts with a negative entry. */
    method MakeUpright(leng: nat) returns (sign: int)
      requires leng == Leng(buffer[..]) && leng > 0
      modifies buffer
      ensures buffer[..] == Upright(old(buffer[..])) && Lead(old(buffer[..])) != 0
      ensures sign == if Lead(old(buffer[..])) < 0 then -1 else 1
    {
      ghost var v := buffer[..];
      var k := 0;
      while k < leng && buffer[k] == 0
        invariant k <= leng && forall i :: 0 <= i < k ==> buffer[i] == 0
      {
        k := k + 1;
      }
      assert v[leng - 1] != 0;
      LeadAt(v, k);
      sign := 1;
      if buffer[k] < 0 {
        sign := -1;
        for i := k to leng
          invariant forall j :: 0 <= j < |v| ==> buffer[j] == if k <= j < i then -v[j] else v[j]
        {
          buffer[i] := -buffer[i];
        }
      }
    }

    /** Looks for an entry that is equal to the first leng places of the buffer. */
    method Search(leng: nat) returns (k: nat)
      requires leng <= buffer.Length
      ensures k == Find(entries, buffer[..leng], 0)
    {
      k := 0;
      while k < |entries|
        invariant k <= |entries| && Find(entries, buffer[..leng], k) == Find(entries, buffer[..leng], 0)
      {
        if |entries[k]| == leng && entries[k] == buffer[..leng] {
          return;
        }
        k := k + 1;
      }
    }

    /**
      The index of the vector in the buffer; of the argument only the length matters. The vector is left in the
      buffer upright.
     */
    method TreeEntry(word: array<int>) returns (r: Result)
      modifies this`entries, buffer
      ensures r.BadLength? <==> word.Length != buffer.Length
      ensures r.BadLength? ==> entries == old(entries) && buffer[..] == old(buffer[..])
      ensures r.Index? ==> (r.gen, entries) == Entered(old(entries), old(buffer[..]))
      ensures r.Index? ==> buffer[..] == Upright(old(buffer[..]))
    {
      if word.Length != buffer.Length {
        return BadLength;
      }
      ghost var v := buffer[..];
      var leng := Length();
      if leng == 0 {
        return Index(0);
      }
      var sign := MakeUpright(leng);
      var k := Search(leng);
      if k == |entries| {
        entries := entries + [buffer[..leng]];
      }
      r := Index(sign * (k + 1));
    }
  }

  /** So the index stands for the word if and only if the word is what the buffer holds. */
  lemma {:induction false} WordEntered(entries: seq<seq<int>>, buffer: seq<int>, word: seq<int>)
    requires Valid(entries) && |word| == |buffer|
    ensures var (gen, r) := Entered(entries, buffer); Stands(r, gen, word) <==> word == buffer
  {
    EnteredStands(entries, buffer);
  }
}
