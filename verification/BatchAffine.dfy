/** Many points to affine form with a single field inversion. */
module BatchAffine {
  import opened Arith
  import opened BinaryInverse

  /** z[lo] * ... * z[hi-1]. */
  ghost function Prod(z: seq<int>, lo: nat, hi: nat): int
    requires lo <= hi <= |z|
  {
    if lo == hi then 1 else Prod(z, lo, hi - 1) * z[hi - 1]
  }

  lemma {:induction false} ProdFirst(z: seq<int>, lo: nat, hi: nat)
    requires lo < hi <= |z|
    ensures Prod(z, lo, hi) == z[lo] * Prod(z, lo + 1, hi)
    decreases hi
  {
    if lo + 1 < hi {
      ProdFirst(z, lo, hi - 1);
      assert z[lo] * Prod(z, lo + 1, hi - 1) * z[hi - 1] == z[lo] * (Prod(z, lo + 1, hi - 1) * z[hi - 1]);
    }
  }

  lemma {:induction false} ProdSplit(z: seq<int>, lo: nat, mid: nat, hi: nat)
    requires lo <= mid <= hi <= |z|
    ensures Prod(z, lo, hi) == Prod(z, lo, mid) * Prod(z, mid, hi)
    decreases hi - mid
  {
    if mid < hi {
      ProdSplit(z, lo, mid, hi - 1);
      assert Prod(z, lo, mid) * Prod(z, mid, hi - 1) * z[hi - 1] == Prod(z, lo, mid) * (Prod(z, mid, hi - 1) * z[hi - 1]);
    }
  }

  /** A reduced product in the field. */
  function FpMul(a: int, b: int, p: int): int
    requires p > 0
  {
    a * b % p
  }

  lemma FpMulCong(a: int, b: int, x: int, y: int, p: int)
    requires p > 0 && Cong(a, x, p) && Cong(b, y, p)
    ensures Cong(FpMul(a, b, p), x * y, p) && 0 <= FpMul(a, b, p) < p
  {
    hide Cong;
    CongMod(a * b, p);
    CongMul(a, x, b, y, p);
    CongTrans(FpMul(a, b, p), a * b, x * y, p);
  }

  /** All but z[i], times the inverse of the whole product, is the inverse of z[i]. */
  lemma OthersInvert(z: seq<int>, i: nat, inv: int, w: int, p: int)
    requires p > 0 && i < |z| && Cong(Prod(z, 0, |z|) * inv, 1, p) && Cong(w, Prod(z, 0, i) * Prod(z, i + 1, |z|) * inv, p)
    ensures Cong(z[i] * w, 1, p)
  {
    hide Cong;
    hide Prod;
    var a, b := Prod(z, 0, i), Prod(z, i + 1, |z|);
    ProdSplit(z, 0, i, |z|);
    ProdFirst(z, i, |z|);
    CongScale(w, a * b * inv, z[i], p);
    assert z[i] * (a * b * inv) == a * (z[i] * b) * inv;
    CongTrans(z[i] * w, z[i] * (a * b * inv), 1, p);
  }

  ghost predicate Products(work: seq<int>, z: seq<int>, n: nat, p: int)
    requires n <= |z| == |work| && p > 0
  {
    forall i :: 0 <= i < n ==> Cong(work[i], Prod(z, 0, i), p)
  }

  ghost predicate Inverses(work: seq<int>, z: seq<int>, from: nat, p: int)
    requires |z| == |work| && p > 0
  {
    forall i :: from <= i < |z| ==> Cong(z[i] * work[i], 1, p)
  }

  /** The inversion half of ECP_multiaffine: work[i] becomes 1/z[i] for every i. */
  method InvertAll(z: seq<int>, work: array<int>, p: int)
    requires p > 1 && p % 2 == 1 && work.Length == |z| >= 2 && Coprime(Prod(z, 0, |z|), p)
    modifies work
    ensures Inverses(work[..], z, 0, p)
  {
    hide Cong;
    hide Prod;
    hide Coprime;
    hide FpMul;
    var m := |z|;
    Forward(z, work, p);
    CongSelf(z[m - 1], p);
    FpMulCong(work[m - 1], z[m - 1], Prod(z, 0, m - 1), z[m - 1], p);
    ProdLast(z, m);
    var t1 := FpMul(work[m - 1], z[m - 1], p);
    ReducedCoprime(t1, Prod(z, 0, m), p);
    var inv := InvModP(t1, p);
    InverseOfProduct(t1, Prod(z, 0, m), inv, p);
    var t2 := z[m - 1];
    ghost var w := work[..];
    LastInverse(z, w, inv, p);
    work[m - 1] := FpMul(work[m - 1], inv, p);
    var i := m - 2;
    ProdOne(z, m - 1);
    CongSelf(t2, p);
    while i > 0
      invariant 0 <= i <= m - 2 && Cong(t2, Prod(z, i + 1, m), p)
      invariant forall k :: 0 <= k <= i ==> work[k] == w[k]
      invariant Inverses(work[..], z, i + 1, p)
      modifies work
    {
      MiddleInverse(z, w, i, t2, inv, p);
      work[i] := FpMul(work[i], t2, p);
      work[i] := FpMul(work[i], inv, p);
      t2 := FpMul(z[i], t2, p);
      i := i - 1;
    }
    FirstInverse(z, t2, inv, p);
    work[0] := FpMul(inv, t2, p);
  }

  /** The running products of ECP_multiaffine. */
  method Forward(z: seq<int>, work: array<int>, p: int)
    requires p > 0 && work.Length == |z| >= 2
    modifies work
    ensures Products(work[..], z, |z|, p)
  {
    hide Cong;
    hide Prod;
    hide FpMul;
    work[0] := 1;
    work[1] := z[0];
    ProdNone(z, 0);
    ProdLast(z, 1);
    CongSelf(1, p);
    CongSelf(z[0], p);
    for i := 2 to |z|
      invariant Products(work[..], z, i, p)
      modifies work
    {
      CongSelf(z[i - 1], p);
      FpMulCong(work[i - 1], z[i - 1], Prod(z, 0, i - 1), z[i - 1], p);
      ProdLast(z, i);
      work[i] := FpMul(work[i - 1], z[i - 1], p);
    }
  }

  lemma CongSelf(a: int, p: int)
    requires p > 0
    ensures Cong(a, a, p)
  {}

  lemma ProdNone(z: seq<int>, i: nat)
    requires i <= |z|
    ensures Prod(z, i, i) == 1
  {}

  lemma ProdOne(z: seq<int>, i: nat)
    requires i < |z|
    ensures Prod(z, i, i + 1) == z[i]
  {
    ProdNone(z, i);
  }

  lemma ProdLast(z: seq<int>, hi: nat)
    requires 0 < hi <= |z|
    ensures Prod(z, 0, hi) == Prod(z, 0, hi - 1) * z[hi - 1]
  {}

  lemma ReducedCoprime(t: int, a: int, p: int)
    requires p > 1 && Cong(t, a, p) && 0 <= t < p && Coprime(a, p)
    ensures Coprime(t, p)
  {
    hide Coprime;
    CoprimeMod(a, p);
    SmallMod(t, p);
  }

  lemma InverseOfProduct(t: int, a: int, inv: int, p: int)
    requires p > 0 && Cong(t, a, p) && Cong(t * inv, 1, p)
    ensures Cong(a * inv, 1, p)
  {
    CongScale(t, a, inv, p);
  }

  lemma LastInverse(z: seq<int>, w: seq<int>, inv: int, p: int)
    requires p > 0 && |w| == |z| >= 2 && Products(w, z, |z|, p) && Cong(Prod(z, 0, |z|) * inv, 1, p)
    ensures Cong(z[|z| - 1] * FpMul(w[|z| - 1], inv, p), 1, p)
  {
    hide Cong;
    hide Prod;
    var m := |z|;
    CongSelf(inv, p);
    FpMulCong(w[m - 1], inv, Prod(z, 0, m - 1), inv, p);
    ProdNone(z, m);
    OthersInvert(z, m - 1, inv, FpMul(w[m - 1], inv, p), p);
  }

  lemma MiddleInverse(z: seq<int>, w: seq<int>, i: nat, t2: int, inv: int, p: int)
    requires p > 0 && |w| == |z| && i < |z| && Products(w, z, |z|, p) && Cong(Prod(z, 0, |z|) * inv, 1, p)
    requires Cong(t2, Prod(z, i + 1, |z|), p)
    ensures Cong(z[i] * FpMul(FpMul(w[i], t2, p), inv, p), 1, p)
    ensures Cong(FpMul(z[i], t2, p), Prod(z, i, |z|), p)
  {
    hide Cong;
    hide Prod;
    hide FpMul;
    var a, b := Prod(z, 0, i), Prod(z, i + 1, |z|);
    FpMulCong(w[i], t2, a, b, p);
    CongSelf(inv, p);
    FpMulCong(FpMul(w[i], t2, p), inv, a * b, inv, p);
    OthersInvert(z, i, inv, FpMul(FpMul(w[i], t2, p), inv, p), p);
    CongSelf(z[i], p);
    FpMulCong(z[i], t2, z[i], b, p);
    ProdFirst(z, i, |z|);
  }

  lemma FirstInverse(z: seq<int>, t2: int, inv: int, p: int)
    requires p > 0 && |z| >= 2 && Cong(Prod(z, 0, |z|) * inv, 1, p) && Cong(t2, Prod(z, 1, |z|), p)
    ensures Cong(z[0] * FpMul(inv, t2, p), 1, p)
  {
    hide Cong;
    hide Prod;
    hide FpMul;
    CongSelf(inv, p);
    FpMulCong(inv, t2, inv, Prod(z, 1, |z|), p);
    ProdNone(z, 0);
    assert Prod(z, 0, 0) * Prod(z, 1, |z|) * inv == inv * Prod(z, 1, |z|);
    OthersInvert(z, 0, inv, FpMul(inv, t2, p), p);
  }

  // ----- the points --------------------------------------------------------------------------------

  /** (x', y', 1) is the affine form of the Jacobian point (x, y, z): x = x' z^2 and y = y' z^3. */
  ghost predicate AffineOf(x': int, y': int, x: int, y: int, z: int, p: int)
    requires p > 0
  {
    Cong(x' * (z * z), x, p) && Cong(y' * (z * z * z), y, p)
  }

  lemma Scaled(x: int, y: int, z: int, w: int, p: int)
    requires p > 0 && Cong(z * w, 1, p)
    ensures var t := FpMul(w, w, p);
      AffineOf(FpMul(x, t, p), FpMul(y, FpMul(w, t, p), p), x, y, z, p)
  {
    hide Cong;
    hide FpMul;
    var t, u := FpMul(w, w, p), FpMul(w, FpMul(w, w, p), p);
    CongSelf(w, p);
    CongSelf(x, p);
    CongSelf(y, p);
    FpMulCong(w, w, w, w, p);
    FpMulCong(w, t, w, w * w, p);
    FpMulCong(x, t, x, w * w, p);
    FpMulCong(y, u, y, w * (w * w), p);
    CongMul(z * w, 1, z * w, 1, p);
    CongMul((z * w) * (z * w), 1, z * w, 1, p);
    Cleared(FpMul(x, t, p), x, w * w, z * z, (z * w) * (z * w), p);
    Cleared(FpMul(y, u, p), y, w * (w * w), z * z * z, (z * w) * (z * w) * (z * w), p);
  }

  lemma Cleared(x': int, x: int, a: int, b: int, c: int, p: int)
    requires p > 0 && Cong(x', x * a, p) && a * b == c && Cong(c, 1, p)
    ensures Cong(x' * b, x, p)
  {
    hide Cong;
    CongScale(x', x * a, b, p);
    assert x * a * b == x * c;
    CongScale(c, 1, x, p);
    CongTrans(x' * b, x * c, x, p);
  }

  /** ECP_multiaffine: every point keeps its value and gets z = 1. */
  method MultiAffine(x: array<int>, y: array<int>, z: array<int>, work: array<int>, p: int)
    requires p > 1 && p % 2 == 1 && x.Length == y.Length == z.Length == work.Length >= 2
    requires x != y && x != z && y != z && work != x && work != y && work != z
    requires Coprime(Prod(z[..], 0, z.Length), p)
    modifies x, y, z, work
    ensures forall i :: 0 <= i < z.Length ==> z[i] == 1 && AffineOf(x[i], y[i], old(x[i]), old(y[i]), old(z[i]), p)
  {
    hide Cong;
    hide FpMul;
    hide Coprime;
    hide AffineOf;
    ghost var x0, y0, z0 := x[..], y[..], z[..];
    InvertAll(z[..], work, p);
    ghost var w := work[..];
    for i := 0 to z.Length
      invariant work[..] == w
      invariant forall k :: i <= k < z.Length ==> x[k] == x0[k] && y[k] == y0[k] && z[k] == z0[k]
      invariant forall k :: 0 <= k < i ==> z[k] == 1 && AffineOf(x[k], y[k], x0[k], y0[k], z0[k], p)
      modifies x, y, z
    {
      Scaled(x[i], y[i], z[i], work[i], p);
      z[i] := 1;
      var t1 := FpMul(work[i], work[i], p);
      x[i] := FpMul(x[i], t1, p);
      t1 := FpMul(work[i], t1, p);
      y[i] := FpMul(y[i], t1, p);
    }
  }
}
