module Pigeonhole {

  /** An injective map of 1..m into itself is onto. */
  lemma {:induction false} Pigeon(s: seq<int>, m: nat, d: int) returns (c: int)
    requires m < |s| && 1 <= d <= m
    requires forall c :: 1 <= c <= m ==> 1 <= s[c] <= m
    requires forall c, e :: 1 <= c < e <= m ==> s[c] != s[e]
    ensures 1 <= c <= m && s[c] == d
  {
    var image := set c | 1 <= c <= m :: s[c];
    var all := UpTo(m);
    ImageSize(s, m);
    assert image <= all;
    Subset(image, all);
    assert d in image;
    c :| 1 <= c <= m && s[c] == d;
  }

  lemma {:induction false} Fewer<X>(a: set<X>, b: set<X>)
    requires a <= b
    ensures |a| <= |b|
  {
    assert b == a + (b - a);
  }

  lemma {:induction false} Subset<X>(a: set<X>, b: set<X>)
    requires a <= b && |a| == |b|
    ensures a == b
  {
    assert b == a + (b - a);
  }

  ghost function UpTo(m: nat): (r: set<int>)
    ensures |r| == m && forall x :: x in r <==> 1 <= x <= m
  {
    if m == 0 then {} else UpTo(m - 1) + {m}
  }

  lemma {:induction false} ImageSize(s: seq<int>, m: nat)
    requires m < |s| && forall c, e :: 1 <= c < e <= m ==> s[c] != s[e]
    ensures |set c | 1 <= c <= m :: s[c]| == m
  {
    if m > 0 {
      ImageSize(s, m - 1);
      assert (set c | 1 <= c <= m :: s[c]) == (set c | 1 <= c <= m - 1 :: s[c]) + {s[m]};
    }
  }
}
