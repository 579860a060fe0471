/**
  Assigning to a boolean list, and unbinding: the list stays packed as long as it is a list of
  booleans without holes, and behaves as an ordinary list does.
 */
module BooleanListUpdates {
  import opened CopyBits
  import opened BooleanLists

  datatype Value = True | False | Other(id: int)

  datatype Slot = Bound(v: Value) | Empty

  /** A bag that holds a packed list, or a plain one. */
  datatype Form = Bits(blocks: seq<Word>, len: nat) | Plain(slots: seq<Slot>)

  ghost predicate Valid(f: Form)
  {
    f.Bits? ==> Padded(f.blocks, f.len)
  }

  function Truth(b: bool): Slot
  {
    Bound(if b then True else False)
  }

  /** The list that the bag holds. */
  function List(f: Form): (s: seq<Slot>)
    requires f.Bits? ==> f.len <= W * |f.blocks|
    ensures f.Bits? ==> |s| == f.len
  {
    match f
    case Bits(blocks, len) => seq(len, g requires 0 <= g < len => Truth(Bit(blocks, g)))
    case Plain(slots) => slots
  }

  // ----- ordinary lists

  /** Assigning beyond the end leaves holes. */
  function Assigned(s: seq<Slot>, pos: nat, val: Value): (r: seq<Slot>)
    requires pos > 0
    ensures |r| == if pos <= |s| then |s| else pos
    ensures forall k :: 0 <= k < |r| ==> r[k] == if k == pos - 1 then Bound(val) else if k < |s| then s[k] else Empty
  {
    seq(if pos <= |s| then |s| else pos, k => if k == pos - 1 then Bound(val) else if 0 <= k < |s| then s[k] else Empty)
  }

  /** The length without the holes at the end. */
  function Trimmed(s: seq<Slot>, n: nat): (m: nat)
    requires n <= |s|
    ensures m <= n && (m > 0 ==> s[m - 1] != Empty) && forall k :: m <= k < n ==> s[k] == Empty
  {
    if n == 0 || s[n - 1] != Empty then n else Trimmed(s, n - 1)
  }

  /** Unbinding leaves a hole, and lists do not end in holes. */
  function Unbound(s: seq<Slot>, pos: nat): (r: seq<Slot>)
    requires pos > 0
    ensures |r| <= |s| && (pos > |s| ==> r == s[..Trimmed(s, |s|)])
  {
    var t := if pos <= |s| then s[pos - 1 := Empty] else s;
    t[..Trimmed(t, |t|)]
  }

  // ----- single bits

  /** The blocks with one bit set or cleared. */
  function WithBit(b: seq<Word>, k: nat, on: bool): (r: seq<Word>)
    requires k < W * |b|
    ensures |r| == |b|
  {
    b[k / W := if on then Or(b[k / W], OneBit(k % W)) else And(b[k / W], Not(OneBit(k % W)))]
  }

  lemma {:induction false} WithBitAt(b: seq<Word>, k: nat, on: bool, g: nat)
    requires k < W * |b| && g < W * |b|
    ensures Bit(WithBit(b, k, on), g) == if g == k then on else Bit(b, g)
  {
    assert g == W * (g / W) + g % W && k == W * (k / W) + k % W;
  }

  lemma {:induction false} WithBitPadded(b: seq<Word>, len: nat, k: nat, on: bool, len': nat)
    requires Padded(b, len) && len <= len' <= W * |b| && k < len'
    ensures Padded(WithBit(b, k, on), len')
  {
    forall g: nat | len' <= g < W * |b|
      ensures !Bit(WithBit(b, k, on), g)
    {
      WithBitAt(b, k, on, g);
    }
  }

  /** Setting or clearing bit k of a list that reaches to k at least. */
  lemma {:induction false} WithBitList(b: seq<Word>, len: nat, k: nat, on: bool, len': nat)
    requires Padded(b, len) && len' <= W * |b| && k <= len && len' == if k == len then len + 1 else len
    ensures var f := Bits(WithBit(b, k, on), len');
            Valid(f) && List(f) == Assigned(List(Bits(b, len)), k + 1, if on then True else False)
  {
    WithBitPadded(b, len, k, on, len');
    var was, now := List(Bits(b, len)), List(Bits(WithBit(b, k, on), len'));
    var want := Assigned(was, k + 1, if on then True else False);
    forall g: nat | g < len'
      ensures now[g] == want[g]
    {
      WithBitAt(b, k, on, g);
    }
    assert now == want;
  }

  /** The bag grows by a block of zeros. */
  lemma {:induction false} Grown(b: seq<Word>, len: nat)
    requires Padded(b, len)
    ensures Padded(b + [Mask(1, 0)], len) && List(Bits(b + [Mask(1, 0)], len)) == List(Bits(b, len))
  {
    var r := b + [Mask(1, 0)];
    forall g: nat | g < W * |r|
      ensures Bit(r, g) == (g < W * |b| && Bit(b, g))
    {
      assert g == W * (g / W) + g % W;
    }
  }

  lemma {:induction false} ClearedLast(b: seq<Word>, len: nat)
    requires Padded(b, len) && len > 0
    ensures var r := WithBit(b, len - 1, false);
            Padded(r, len - 1) && forall g: nat :: g < len - 1 ==> Bit(r, g) == Bit(b, g)
  {
    var r := WithBit(b, len - 1, false);
    forall g: nat | g < W * |b|
      ensures Bit(r, g) == (g != len - 1 && Bit(b, g))
    {
      WithBitAt(b, len - 1, false, g);
    }
  }

  /** The last element is dropped. */
  lemma {:induction false} Shortened(b: seq<Word>, len: nat)
    requires Padded(b, len) && len > 0
    ensures var f := Bits(WithBit(b, len - 1, false), len - 1); Valid(f) && List(f) == Unbound(List(Bits(b, len)), len)
  {
    ClearedLast(b, len);
    var s := List(Bits(b, len));
    UnboundLast(s);
    assert List(Bits(WithBit(b, len - 1, false), len - 1)) == s[..len - 1];
  }

  lemma {:induction false} UnboundLast(s: seq<Slot>)
    requires s != [] && forall k :: 0 <= k < |s| ==> s[k] != Empty
    ensures Unbound(s, |s|) == s[..|s| - 1]
  {
    var n := |s|;
    var t := s[n - 1 := Empty];
    assert n > 1 ==> t[n - 2] == s[n - 2];
    assert Trimmed(t, n) == Trimmed(t, n - 1) == n - 1;
    assert t[..n - 1] == s[..n - 1];
  }

  lemma {:induction false} NotLast(s: seq<Slot>, pos: nat)
    requires 0 < pos && (s != [] ==> s[|s| - 1] != Empty) && pos != |s|
    ensures Unbound(s, pos) == if pos < |s| then s[pos - 1 := Empty] else s
  {
  }

  /** The words of a bag that holds the blocks b. */
  ghost predicate Loaded(m: seq<Mem>, b: seq<Word>, k: nat)
  {
    k <= |b| && k < |m| && forall x :: 0 <= x < k ==> m[x + 1] == Block(b[x])
  }

  /** The entries of an unpacked list. */
  lemma {:induction false} Unpacked(m: seq<Mem>, p: seq<Mem>, b: seq<Word>, len: nat)
    requires Loaded(m, b, |b|) && len <= W * |b| && Expanded(m, p, len)
    ensures forall i :: 0 <= i < len ==> p[i + 1] == Entry(Bit(b, i))
  {
    forall i | 0 <= i < len
      ensures p[i + 1] == Entry(Bit(b, i))
    {
      assert p[i + 1] == Entry(ElementAt(m, i + 1 - 1));
    }
  }

  class BooleanList {
    var form: Form

    method Assign(pos: nat, val: Value)
      requires pos > 0 && form.Bits? && Valid(form)
      modifies this
      ensures Valid(form) && List(form) == Assigned(old(List(form)), pos, val)
      ensures form.Bits? <==> !val.Other? && pos <= old(form.len) + 1
    {
      var was, len := form, form.len;
      assert was == Bits(was.blocks, len);
      if pos <= len && val == True {
        form := Replace(was, pos - 1, true);
      } else if pos <= len && val == False {
        form := Replace(was, pos - 1, false);
      } else if pos == len + 1 && val == True {
        form := Extend(was, true);
      } else if pos == len + 1 && val == False {
        form := Extend(was, false);
      } else {
        var slots := MakePlain(was);
        slots := AssignPlain(slots, pos, val);
        form := Plain(slots);
      }
    }

    /** The bag is enlarged and unpacked in place; then it is a plain list. */
    method MakePlain(f: Form) returns (slots: seq<Slot>)
      requires f.Bits? && Valid(f)
      ensures slots == List(f)
    {
      var m := Load(f.blocks, f.len);
      ghost var was := m[..];
      PlainInPlace(m, f.len);
      Unpacked(was, m[..], f.blocks, f.len);
      slots := [];
      for i := 0 to f.len
        invariant slots == List(f)[..i]
      {
        slots := slots + [Truth(m[i + 1].b)];
      }
    }

    method Load(b: seq<Word>, len: nat) returns (m: array<Mem>)
      requires len <= W * |b|
      ensures fresh(m) && len < m.Length && Loaded(m[..], b, |b|) && HoldsBlocks(m[..], len)
    {
      m := new Mem[1 + if len < |b| then |b| else len](_ => Entry(false));
      for x := 0 to |b|
        invariant Loaded(m[..], b, x)
      {
        m[x + 1] := Block(b[x]);
      }
      forall x | 1 <= x <= (len + W - 1) / W
        ensures m[x].Block?
      {
        assert m[..][x - 1 + 1] == Block(b[x - 1]);
      }
    }

    method AssignPlain(s: seq<Slot>, pos: nat, val: Value) returns (r: seq<Slot>)
      requires pos > 0
      ensures r == Assigned(s, pos, val)
    {
      r := s;
      if |r| < pos {
        r := r + seq(pos - |r|, _ => Empty);
      }
      r := r[pos - 1 := Bound(val)];
    }

    method Replace(f: Form, k: nat, on: bool) returns (r: Form)
      requires f.Bits? && Valid(f) && k < f.len
      ensures r.Bits? && Valid(r) && List(r) == Assigned(List(f), k + 1, if on then True else False)
    {
      WithBitList(f.blocks, f.len, k, on, f.len);
      r := Bits(WithBit(f.blocks, k, on), f.len);
    }

    method Extend(f: Form, on: bool) returns (r: Form)
      requires f.Bits? && Valid(f)
      ensures r.Bits? && Valid(r) && List(r) == Assigned(List(f), f.len + 1, if on then True else False)
    {
      var b := Enlarge(f.blocks, f.len);
      WithBitList(b, f.len, f.len, on, f.len + 1);
      r := Bits(WithBit(b, f.len, on), f.len + 1);
    }

    /** Resizes the bag if it has no room for one more bit. */
    method Enlarge(b: seq<Word>, len: nat) returns (r: seq<Word>)
      requires Padded(b, len)
      ensures Padded(r, len) && len < W * |r| && List(Bits(r, len)) == List(Bits(b, len))
    {
      r := b;
      if |b| < (len + 1 + W - 1) / W {
        Grown(b, len);
        r := b + [Mask(1, 0)];
      }
    }

    method Unbind(pos: nat)
      requires pos > 0 && form.Bits? && Valid(form)
      modifies this
      ensures Valid(form) && List(form) == Unbound(old(List(form)), pos)
      ensures form.Bits? <==> pos >= old(form.len)
    {
      var b, len := form.blocks, form.len;
      if len == pos {
        Shortened(b, len);
        form := Bits(WithBit(b, pos - 1, false), len - 1);
      } else {
        NotLast(List(form), pos);
        if pos < len {
          var slots := MakePlain(form);
          form := Plain(slots[pos - 1 := Empty]);
        }
      }
    }
  }
}
