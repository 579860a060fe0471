/**
  Copying bits between two arrays of words, with any alignment. A word is the sequence of its
  bits, the least significant one first.
 */
module CopyBits {

  const W: nat := 64

  type Word = w: seq<bool> | |w| == W witness seq(W, i => false)

  // ----- operations on words

  function And(a: Word, b: Word): (r: Word)
    ensures forall i :: 0 <= i < W ==> r[i] == (a[i] && b[i])
  {
    seq(W, i requires 0 <= i < W => a[i] && b[i])
  }

  function Or(a: Word, b: Word): (r: Word)
    ensures forall i :: 0 <= i < W ==> r[i] == (a[i] || b[i])
  {
    seq(W, i requires 0 <= i < W => a[i] || b[i])
  }

  function Not(a: Word): (r: Word)
    ensures forall i :: 0 <= i < W ==> r[i] == !a[i]
  {
    seq(W, i requires 0 <= i < W => !a[i])
  }

  function ShiftLeft(a: Word, s: nat): (r: Word)
    ensures forall i :: 0 <= i < W ==> r[i] == (i >= s && a[i - s])
  {
    seq(W, i requires 0 <= i < W => i >= s && a[i - s])
  }

  function ShiftRight(a: Word, s: nat): (r: Word)
    ensures forall i :: 0 <= i < W ==> r[i] == (i + s < W && a[i + s])
  {
    seq(W, i requires 0 <= i < W => i + s < W && a[i + s])
  }

  /** The bits from lo to hi. */
  function Mask(lo: nat, hi: int): (r: Word)
    ensures forall i :: 0 <= i < W ==> r[i] == (lo <= i <= hi)
  {
    seq(W, i requires 0 <= i < W => lo <= i <= hi)
  }

  /** The bits from lo to the last; `beyond` is what a machine makes of a shift by the width of a word. */
  function MaskFrom(lo: nat, beyond: Word): (r: Word)
    ensures lo < W ==> r == Mask(lo, W - 1)
  {
    if lo < W then Mask(lo, W - 1) else beyond
  }

  function Power2(k: nat): nat
  {
    if k == 0 then 1 else 2 * Power2(k - 1)
  }

  /** The number that the first k bits stand for. */
  function Number(a: seq<bool>, k: nat): nat
    requires k <= |a|
  {
    if k == 0 then 0 else Number(a, k - 1) + if a[k - 1] then Power2(k - 1) else 0
  }

  /** The mask is the difference of two powers of two, as it is computed. */
  lemma {:induction false} MaskNumber(lo: nat, hi: nat, k: nat)
    requires lo <= hi < W && k <= W
    ensures Number(Mask(lo, hi), k) == if k <= lo then 0 else if k <= hi then Power2(k) - Power2(lo)
            else Power2(hi + 1) - Power2(lo)
  {
    if k > 0 {
      MaskNumber(lo, hi, k - 1);
    }
  }

  // ----- bits of arrays

  function Bit(a: seq<Word>, g: nat): bool
    requires g < W * |a|
  {
    a[g / W][g % W]
  }

  /** dst is was, except that k bits from d on are those of src from s on. */
  ghost predicate Copied(src: seq<Word>, was: seq<Word>, dst: seq<Word>, s: nat, d: nat, k: nat)
    requires s + k <= W * |src| && d + k <= W * |dst| && |was| == |dst|
  {
    forall g {:trigger Bit(dst, g)} :: 0 <= g < W * |dst| ==>
        Bit(dst, g) == if d <= g < d + k then Bit(src, s + (g - d)) else Bit(was, g)
  }

  lemma {:induction false} CopiedNone(src: seq<Word>, a: seq<Word>, s: nat, d: nat)
    requires s <= W * |src| && d <= W * |a|
    ensures Copied(src, a, a, s, d, 0)
  {
  }

  lemma {:induction false} CopiedThen(src: seq<Word>, a: seq<Word>, b: seq<Word>, c: seq<Word>, s: nat, d: nat,
                                      j: nat, k: nat)
    requires |a| == |b| == |c| && s + j + k <= W * |src| && d + j + k <= W * |c|
    requires Copied(src, a, b, s, d, j) && Copied(src, b, c, s + j, d + j, k)
    ensures Copied(src, a, c, s, d, j + k)
  {
    forall g | 0 <= g < W * |c|
      ensures Bit(c, g) == if d <= g < d + j + k then Bit(src, s + (g - d)) else Bit(a, g)
    {
      assert Bit(b, g) == if d <= g < d + j then Bit(src, s + (g - d)) else Bit(a, g);
    }
  }

  /** Bits lo .. lo + k - 1 of one word are replaced. */
  lemma {:induction false} WordCopied(src: seq<Word>, was: seq<Word>, dst: seq<Word>, fi: nat, from: nat, ti: nat,
                                      lo: nat, k: nat)
    requires fi < |src| && ti < |dst| && |was| == |dst| && from + k <= W && lo + k <= W
    requires forall x :: 0 <= x < |dst| && x != ti ==> dst[x] == was[x]
    requires forall i :: 0 <= i < W ==> dst[ti][i] == if lo <= i < lo + k then src[fi][from + (i - lo)] else was[ti][i]
    ensures Copied(src, was, dst, W * fi + from, W * ti + lo, k)
  {
    forall g | 0 <= g < W * |dst|
      ensures Bit(dst, g) == if W * ti + lo <= g < W * ti + lo + k then Bit(src, W * fi + from + (g - W * ti - lo))
              else Bit(was, g)
    {
      var x, i := g / W, g % W;
      if x == ti && lo <= i < lo + k {
        var h := W * fi + from + (g - W * ti - lo);
        assert h / W == fi && h % W == from + (i - lo);
      }
    }
  }

  /** Copies bits startbit .. endbit of a word into another one, shifted to the left. */
  method CopyInWord(dst: array<Word>, ti: nat, startbit: nat, endbit: nat, from: Word, shift: int)
    requires ti < dst.Length && startbit <= endbit < W && 0 <= startbit + shift && endbit + shift < W
    modifies dst
    ensures forall x :: 0 <= x < dst.Length && x != ti ==> dst[x] == old(dst[x])
    ensures forall i :: 0 <= i < W ==>
            dst[ti][i] == if startbit + shift <= i <= endbit + shift then from[i - shift] else old(dst[ti])[i]
  {
    var m := Mask(startbit + shift, endbit + shift);
    dst[ti] := And(dst[ti], Not(m));
    if shift >= 0 {
      dst[ti] := Or(dst[ti], And(ShiftLeft(from, shift), m));
    } else {
      dst[ti] := Or(dst[ti], And(ShiftRight(from, -shift), m));
    }
  }

  /** One chunk of k bits, from one word to one word. */
  method CopyChunk(src: array<Word>, fi: nat, from: nat, dst: array<Word>, ti: nat, lo: nat, k: nat)
    requires src != dst && fi < src.Length && ti < dst.Length && 1 <= k && from + k <= W && lo + k <= W
    modifies dst
    ensures Copied(src[..], old(dst[..]), dst[..], W * fi + from, W * ti + lo, k)
  {
    ghost var was := dst[..];
    CopyInWord(dst, ti, from, from + k - 1, src[fi], lo - from);
    WordCopied(src[..], was, dst[..], fi, from, ti, lo, k);
  }

  /** A whole word, put together from two. */
  lemma {:induction false} WholeWord(src: seq<Word>, was: seq<Word>, dst: seq<Word>, fi: nat, from: nat, ti: nat)
    requires fi < |src| && ti < |dst| && |was| == |dst| && from < W && (from > 0 ==> fi + 1 < |src|)
    requires forall x :: 0 <= x < |dst| && x != ti ==> dst[x] == was[x]
    requires forall i :: 0 <= i < W ==>
             dst[ti][i] == if i + from < W then src[fi][i + from] else src[fi + 1][i + from - W]
    ensures Copied(src, was, dst, W * fi + from, W * ti, W)
  {
    forall g | 0 <= g < W * |dst|
      ensures Bit(dst, g) == if W * ti <= g < W * ti + W then Bit(src, W * fi + from + (g - W * ti)) else Bit(was, g)
    {
      var x, i := g / W, g % W;
      if x == ti {
        var h := W * fi + from + i;
        if i + from < W {
          assert h / W == fi && h % W == i + from;
        } else {
          assert h / W == fi + 1 && h % W == i + from - W;
        }
      }
    }
  }

  /** One word more, after j bits that have been copied. */
  method CopyWordOn(src: array<Word>, fi: nat, dst: array<Word>, ti: nat,
                    ghost was: seq<Word>, ghost s: nat, ghost d: nat, ghost j: nat)
    requires src != dst && fi < src.Length && ti < dst.Length == |was| && W * fi == s + j && W * ti == d + j
    requires Copied(src[..], was, dst[..], s, d, j)
    modifies dst
    ensures Copied(src[..], was, dst[..], s, d, j + W)
  {
    ghost var b := dst[..];
    dst[ti] := src[fi];
    WholeWord(src[..], b, dst[..], fi, 0, ti);
    CopiedThen(src[..], was, b, dst[..], s, d, j, W);
  }

  /** Whole words, where both sides are aligned. */
  method CopyWords(src: array<Word>, fi: nat, dst: array<Word>, ti: nat, n: nat)
    requires src != dst && fi + n <= src.Length && ti + n <= dst.Length
    modifies dst
    ensures Copied(src[..], old(dst[..]), dst[..], W * fi, W * ti, W * n)
  {
    ghost var was := dst[..];
    var i := 0;
    CopiedNone(src[..], was, W * fi, W * ti);
    while i < n
      invariant i <= n && Copied(src[..], was, dst[..], W * fi, W * ti, W * i)
    {
      CopyWordOn(src, fi + i, dst, ti + i, was, W * fi, W * ti, W * i);
      i := i + 1;
    }
  }

  /** Both blocks have the same alignment. */
  method CopyAligned(src: array<Word>, fb: nat, bit: nat, dst: array<Word>, tb: nat, nbits: nat)
    requires src != dst && bit < W && nbits > 0
    requires W * fb + bit + nbits <= W * src.Length && W * tb + bit + nbits <= W * dst.Length
    modifies dst
    ensures Copied(src[..], old(dst[..]), dst[..], W * fb + bit, W * tb + bit, nbits)
  {
    if bit + nbits < W {
      CopyChunk(src, fb, bit, dst, tb, bit, nbits);
      return;
    }
    ghost var was, s, d := dst[..], W * fb + bit, W * tb + bit;
    var fi, ti, n := fb, tb, nbits;
    CopiedNone(src[..], was, s, d);
    if bit > 0 {
      CopyChunk(src, fi, bit, dst, ti, bit, W - bit);
      fi, ti, n := fi + 1, ti + 1, n - (W - bit);
    }
    assert Copied(src[..], was, dst[..], s, d, nbits - n) && W * fi == s + (nbits - n) && W * ti == d + (nbits - n);
    CopyRest(src, fi, dst, ti, n, was, s, d, nbits - n);
  }

  /** The rest, where both sides start with a word; j bits have been copied before. */
  method CopyRest(src: array<Word>, fi: nat, dst: array<Word>, ti: nat, n: nat, ghost was: seq<Word>, ghost s: nat,
                  ghost d: nat, ghost j: nat)
    requires src != dst && W * fi + n <= W * src.Length && W * ti + n <= W * dst.Length && |was| == dst.Length
    requires W * fi == s + j && W * ti == d + j && Copied(src[..], was, dst[..], s, d, j)
    modifies dst
    ensures Copied(src[..], was, dst[..], s, d, j + n)
  {
    var wholeblocks, left := n / W, n % W;
    ghost var b := dst[..];
    CopyWords(src, fi, dst, ti, wholeblocks);
    CopiedThen(src[..], was, b, dst[..], s, d, j, W * wholeblocks);
    if left > 0 {
      ghost var c := dst[..];
      CopyChunk(src, fi + wholeblocks, 0, dst, ti + wholeblocks, 0, left);
      CopiedThen(src[..], was, c, dst[..], s, d, j + W * wholeblocks, left);
    }
  }

  method CopyTwoParts(src: array<Word>, fi: nat, from: nat, dst: array<Word>, ti: nat, lo: nat, k1: nat, k2: nat)
    requires src != dst && from + k1 == W && 1 <= k1 && 1 <= k2 && lo + k1 + k2 <= W && ti < dst.Length
    requires W * (fi + 1) + k2 <= W * src.Length
    modifies dst
    ensures Copied(src[..], old(dst[..]), dst[..], W * fi + from, W * ti + lo, k1 + k2)
  {
    ghost var was := dst[..];
    CopyChunk(src, fi, from, dst, ti, lo, k1);
    ghost var b := dst[..];
    CopyChunk(src, fi + 1, 0, dst, ti, lo + k1, k2);
    CopiedThen(src[..], was, b, dst[..], W * fi + from, W * ti + lo, k1, k2);
  }

  /** Up to a word of bits, from one or two words into one. */
  method CopyPart(src: array<Word>, fi: nat, from: nat, dst: array<Word>, ti: nat, lo: nat, k: nat)
    requires src != dst && from < W && lo < W && 1 <= k && lo + k <= W && ti < dst.Length &&
             W * fi + from + k <= W * src.Length
    modifies dst
    ensures Copied(src[..], old(dst[..]), dst[..], W * fi + from, W * ti + lo, k)
  {
    if from + k <= W {
      CopyChunk(src, fi, from, dst, ti, lo, k);
    } else {
      CopyTwoParts(src, fi, from, dst, ti, lo, W - from, k - (W - from));
    }
  }

  /** Puts one word of the destination together. */
  method CopyWhole(src: array<Word>, fi: nat, from: nat, m1: Word, dst: array<Word>, ti: nat)
    requires src != dst && 0 < from < W && m1 == Mask(from, W - 1) && fi + 1 < src.Length && ti < dst.Length
    modifies dst
    ensures Copied(src[..], old(dst[..]), dst[..], W * fi + from, W * ti, W)
  {
    ghost var was := dst[..];
    var x := ShiftRight(And(src[fi], m1), from);
    x := Or(x, ShiftLeft(And(src[fi + 1], Not(m1)), W - from));
    dst[ti] := x;
    WholeWord(src[..], was, dst[..], fi, from, ti);
  }

  /** The blocks are not aligned: everything has to be shifted. */
  method CopyShifted(src: array<Word>, fb: nat, frombit: nat, dst: array<Word>, tb: nat, tobit: nat, nbits: nat,
                     beyond: Word)
    requires src != dst && frombit < W && tobit < W && frombit != tobit && nbits > 0
    requires W * fb + frombit + nbits <= W * src.Length && W * tb + tobit + nbits <= W * dst.Length
    modifies dst
    ensures Copied(src[..], old(dst[..]), dst[..], W * fb + frombit, W * tb + tobit, nbits)
  {
    ghost var was, s, d := dst[..], W * fb + frombit, W * tb + tobit;
    var fi, from, ti, n := fb, frombit, tb, nbits;
    CopiedNone(src[..], was, s, d);
    if tobit > 0 {
      var tailbits := if tobit + n <= W then n else W - tobit;
      CopyPart(src, fi, from, dst, ti, tobit, tailbits);
      from := from + tailbits;
      if from > W {
        fi, from := fi + 1, from - W;
      }
      ti, n := ti + 1, n - tailbits;
    }
    var m1 := MaskFrom(from, beyond);
    CopyShiftedRest(src, fi, from, m1, dst, ti, n, was, s, d, nbits - n);
  }

  /** One word more from two words, after j bits that have been copied. */
  method CopyWholeOn(src: array<Word>, fi: nat, from: nat, m1: Word, dst: array<Word>, ti: nat,
                     ghost was: seq<Word>, ghost s: nat, ghost d: nat, ghost j: nat)
    requires src != dst && 0 < from < W && m1 == Mask(from, W - 1) && fi + 1 < src.Length && ti < dst.Length == |was|
    requires W * fi + from == s + j && W * ti == d + j && Copied(src[..], was, dst[..], s, d, j)
    modifies dst
    ensures Copied(src[..], was, dst[..], s, d, j + W)
  {
    ghost var b := dst[..];
    CopyWhole(src, fi, from, m1, dst, ti);
    CopiedThen(src[..], was, b, dst[..], s, d, j, W);
  }

  method CopyPartOn(src: array<Word>, fi: nat, from: nat, dst: array<Word>, ti: nat, n: nat,
                    ghost was: seq<Word>, ghost s: nat, ghost d: nat, ghost j: nat)
    requires src != dst && 0 < from < W && 1 <= n < W && W * fi + from + n <= W * src.Length && ti < dst.Length == |was|
    requires W * fi + from == s + j && W * ti == d + j && Copied(src[..], was, dst[..], s, d, j)
    modifies dst
    ensures Copied(src[..], was, dst[..], s, d, j + n)
  {
    ghost var b := dst[..];
    CopyPart(src, fi, from, dst, ti, 0, n);
    CopiedThen(src[..], was, b, dst[..], s, d, j, n);
  }

  /** The rest, where the destination starts with a word; j bits have been copied before. */
  method CopyShiftedRest(src: array<Word>, fb: nat, from: nat, m1: Word, dst: array<Word>, tb: nat, nbits: nat,
                         ghost was: seq<Word>, ghost s: nat, ghost d: nat, ghost j: nat)
    requires src != dst && (nbits > 0 ==> 0 < from < W && m1 == Mask(from, W - 1))
    requires W * fb + from + nbits <= W * src.Length && W * tb + nbits <= W * dst.Length
    requires |was| == dst.Length && s + j <= W * src.Length && d + j <= W * dst.Length
    requires (nbits > 0 ==> W * fb + from == s + j && W * tb == d + j) && Copied(src[..], was, dst[..], s, d, j)
    modifies dst
    ensures Copied(src[..], was, dst[..], s, d, j + nbits)
  {
    var i, n := 0, nbits;
    while n >= W
      invariant n == nbits - W * i && n >= 0 && Copied(src[..], was, dst[..], s, d, j + W * i)
    {
      CopyWholeOn(src, fb + i, from, m1, dst, tb + i, was, s, d, j + W * i);
      i, n := i + 1, n - W;
    }
    if n > 0 {
      CopyPartOn(src, fb + i, from, dst, tb + i, n, was, s, d, j + W * i);
    }
  }

  /**
    Copies nbits bits. No other bit of the destination changes, and no word of the source is read that
    does not hold one of the bits: the source need not be longer than that.
   */
  method CopyBits(src: array<Word>, fb: nat, frombit: nat, dst: array<Word>, tb: nat, tobit: nat, nbits: nat,
                  beyond: Word)
    requires src != dst && frombit < W && tobit < W
    requires W * fb + frombit + nbits <= W * src.Length && W * tb + tobit + nbits <= W * dst.Length
    modifies dst
    ensures Copied(src[..], old(dst[..]), dst[..], W * fb + frombit, W * tb + tobit, nbits)
  {
    if nbits == 0 {
      CopiedNone(src[..], dst[..], W * fb + frombit, W * tb + tobit);
    } else if frombit == tobit {
      CopyAligned(src, fb, frombit, dst, tb, nbits);
    } else {
      CopyShifted(src, fb, frombit, dst, tb, tobit, nbits, beyond);
    }
  }
}
