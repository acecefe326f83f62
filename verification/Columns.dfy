/** Column sums of a schoolbook product, and why they add up to the product. */
module Columns {
  import opened Arith
  import opened Digits

  /** a[i]*b[k-i], or 0 when that falls outside b. */
  ghost function Term(a: seq<int>, b: seq<int>, k: int, i: nat): int
    requires i < |a|
  {
    if 0 <= k - i < |b| then a[i] * b[k - i] else 0
  }

  /** Column k of the product: the sum of a[i]*b[j] over i + j = k. */
  ghost function Col(a: seq<int>, b: seq<int>, k: int): int
    decreases |a|
  {
    if |a| == 0 then 0 else Col(a[..|a| - 1], b, k) + Term(a, b, k, |a| - 1)
  }

  /** The first m columns at their places. */
  ghost function Cols(a: seq<int>, b: seq<int>, m: nat, B: int): int
    decreases m
  {
    if m == 0 then 0 else Cols(a, b, m - 1, B) + Col(a, b, m - 1) * Pow(B, m - 1)
  }

  /** The terms of the last digit of a, at their places, below column m. */
  ghost function LastTerms(a: seq<int>, b: seq<int>, m: nat, B: int): int
    requires |a| > 0
    decreases m
  {
    if m == 0 then 0 else LastTerms(a, b, m - 1, B) + Term(a, b, m - 1, |a| - 1) * Pow(B, m - 1)
  }

  lemma {:induction false} ColsPeel(a: seq<int>, b: seq<int>, m: nat, B: int)
    requires |a| > 0
    ensures Cols(a, b, m, B) == Cols(a[..|a| - 1], b, m, B) + LastTerms(a, b, m, B)
    decreases m
  {
    if m > 0 {
      ColsPeel(a, b, m - 1, B);
      var p := Pow(B, m - 1);
      assert (Col(a[..|a| - 1], b, m - 1) + Term(a, b, m - 1, |a| - 1)) * p
          == Col(a[..|a| - 1], b, m - 1) * p + Term(a, b, m - 1, |a| - 1) * p;
    }
  }

  /** The last digit of a multiplies the digits of b that are below column m. */
  lemma {:induction false} LastTermsValue(a: seq<int>, b: seq<int>, m: nat, B: int)
    requires |a| > 0
    ensures m <= |a| - 1 ==> LastTerms(a, b, m, B) == 0
    ensures |a| - 1 <= m <= |a| - 1 + |b| ==>
            LastTerms(a, b, m, B) == Pow(B, |a| - 1) * (a[|a| - 1] * Val(b[..m - |a| + 1], B))
    ensures m >= |a| - 1 + |b| ==> LastTerms(a, b, m, B) == Pow(B, |a| - 1) * (a[|a| - 1] * Val(b, B))
    decreases m
  {
    hide Val;
    hide Pow;
    var k, d := |a| - 1, a[|a| - 1];
    assert b[..|b|] == b;
    if m <= k {
      if m > 0 { LastTermsValue(a, b, m - 1, B); }
      ValEmpty(B);
      assert b[..0] == [];
      assert Pow(B, k) * (d * 0) == 0;
      if m == k && |b| == 0 { assert b == []; }
    } else {
      LastTermsValue(a, b, m - 1, B);
      if m - 1 < k + |b| {
        var j := m - 1 - k;
        ValPrefix(b, j, B);
        PowAdd(B, k, j);
        PlaceDigit(Pow(B, k), Pow(B, j), d, b[j], Val(b[..j], B));
      }
    }
  }

  lemma PlaceDigit(p: int, q: int, d: int, e: int, v: int)
    ensures p * (d * (v + e * q)) == p * (d * v) + (d * e) * (p * q)
  {
    assert d * (v + e * q) == d * v + (d * e) * q;
    assert p * ((d * e) * q) == (d * e) * (p * q);
  }

  /** All columns together are the product. */
  lemma {:induction false} ColsProduct(a: seq<int>, b: seq<int>, m: nat, B: int)
    requires m >= |a| + |b|
    ensures Cols(a, b, m, B) == Val(a, B) * Val(b, B)
    decreases |a|
  {
    hide Pow;
    if |a| == 0 {
      ColsEmpty(a, b, m, B);
    } else {
      var a' := a[..|a| - 1];
      ColsPeel(a, b, m, B);
      ColsProduct(a', b, m, B);
      LastTermsValue(a, b, m, B);
      var p, d, Y := Pow(B, |a| - 1), a[|a| - 1], Val(b, B);
      assert (Val(a', B) + d * p) * Y == Val(a', B) * Y + p * (d * Y);
    }
  }

  lemma {:induction false} ColsEmpty(a: seq<int>, b: seq<int>, m: nat, B: int)
    requires |a| == 0
    ensures Cols(a, b, m, B) == 0
    decreases m
  {
    if m > 0 { ColsEmpty(a, b, m - 1, B); }
  }

  /** The last column of an n by n product is empty. */
  lemma {:induction false} ColBeyond(a: seq<int>, b: seq<int>, k: int)
    requires |a| > 0 ==> k >= |a| + |b| - 1
    ensures Col(a, b, k) == 0
    decreases |a|
  {
    if |a| > 0 { ColBeyond(a[..|a| - 1], b, k); }
  }

  // ----- columns as ranges -----------------------------------------------------------------

  /** The sum of a[x]*b[k-x] for x in [lo, hi). */
  ghost function Conv(a: seq<int>, b: seq<int>, k: int, lo: int, hi: int): int
    requires 0 <= lo && hi <= |a| && (lo < hi ==> k - lo < |b| && 0 <= k - hi + 1)
    decreases hi - lo
  {
    if lo >= hi then 0 else Conv(a, b, k, lo, hi - 1) + a[hi - 1] * b[k - hi + 1]
  }

  lemma {:induction false} ConvFirst(a: seq<int>, b: seq<int>, k: int, lo: int, hi: int)
    requires 0 <= lo < hi <= |a| && k - lo < |b| && 0 <= k - hi + 1
    ensures Conv(a, b, k, lo, hi) == a[lo] * b[k - lo] + Conv(a, b, k, lo + 1, hi)
    decreases hi - lo
  {
    if lo + 1 < hi { ConvFirst(a, b, k, lo, hi - 1); }
  }

  lemma {:induction false} ConvSplit(a: seq<int>, b: seq<int>, k: int, lo: int, mid: int, hi: int)
    requires 0 <= lo <= mid <= hi <= |a| && (lo < hi ==> k - lo < |b| && 0 <= k - hi + 1)
    ensures Conv(a, b, k, lo, hi) == Conv(a, b, k, lo, mid) + Conv(a, b, k, mid, hi)
    decreases hi - mid
  {
    if mid < hi { ConvSplit(a, b, k, lo, mid, hi - 1); }
  }

  /** Column k is the sum over the indices that are in range on both sides. */
  lemma {:induction false} ColIsConv(a: seq<int>, b: seq<int>, k: int)
    requires 0 <= k && |b| > 0
    ensures var lo := if k < |b| then 0 else k - |b| + 1; var hi := if k < |a| then k + 1 else |a|;
      (lo < hi ==> 0 <= lo && k - lo < |b| && 0 <= k - hi + 1) && Col(a, b, k) == if lo < hi then Conv(a, b, k, lo, hi) else 0
    decreases |a|
  {
    if |a| > 0 {
      var m := |a| - 1;
      ColIsConv(a[..m], b, k);
      var lo := if k < |b| then 0 else k - |b| + 1;
      var hi' := if k < m then k + 1 else m;
      if lo < hi' { ConvPrefix(a, b, k, lo, hi', m); }
    }
  }

  lemma {:induction false} ConvPrefix(a: seq<int>, b: seq<int>, k: int, lo: int, hi: int, m: nat)
    requires 0 <= lo && hi <= m <= |a| && (lo < hi ==> k - lo < |b| && 0 <= k - hi + 1)
    ensures Conv(a[..m], b, k, lo, hi) == Conv(a, b, k, lo, hi)
    decreases hi - lo
  {
    if lo < hi { ConvPrefix(a, b, k, lo, hi - 1, m); }
  }

  lemma {:induction false} ConvBound(a: seq<int>, b: seq<int>, k: int, lo: int, hi: int, B: int)
    requires 0 <= lo <= hi <= |a| && (lo < hi ==> k - lo < |b| && 0 <= k - hi + 1)
    requires B >= 1 && Norm(a, B) && Norm(b, B)
    ensures 0 <= Conv(a, b, k, lo, hi) <= (hi - lo) * ((B - 1) * (B - 1))
    decreases hi - lo
  {
    if lo < hi {
      ConvBound(a, b, k, lo, hi - 1, B);
      LimbProduct(a[hi - 1], b[k - hi + 1], B);
      assert (hi - lo) * ((B - 1) * (B - 1)) == (hi - 1 - lo) * ((B - 1) * (B - 1)) + (B - 1) * (B - 1);
    }
  }

  lemma LimbProduct(x: int, y: int, B: int)
    requires 0 <= x < B && 0 <= y < B
    ensures 0 <= x * y <= (B - 1) * (B - 1)
  {
    MulMono(0, x, y);
    MulMono(x, B - 1, y);
    MulMono(y, B - 1, B - 1);
    assert (B - 1) * y == y * (B - 1);
  }
}
