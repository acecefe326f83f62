/**
 * Large-field numbers: runs of BIG digits in base W inside one memory m. Arrays of the program are offsets into
 * m, so overlapping or shared buffers are covered. A digit is an unbounded integer: it may be negative or
 * oversized until it is normalised.
 */
module FieldDigits {
  import opened Arith
  import opened Digits

  /** The number held by the n digits of m from offset p. */
  ghost function Num(m: seq<int>, p: nat, n: nat, W: int): int
    requires p + n <= |m|
  {
    Val(m[p..p + n], W)
  }

  /** The n digits from p are normalised. */
  ghost predicate NormAt(m: seq<int>, p: nat, n: nat, W: int)
    requires p + n <= |m|
  {
    forall i :: p <= i < p + n ==> 0 <= m[i] < W
  }

  /** [p, p+n) and [q, q+k) do not overlap. */
  ghost predicate Apart(p: nat, n: nat, q: nat, k: nat) {
    p + n <= q || q + k <= p
  }

  /** m and m' agree outside [p, p+n). */
  ghost predicate SameBut(m: seq<int>, m': seq<int>, p: nat, n: nat) {
    |m| == |m'| && forall i :: 0 <= i < |m| && !(p <= i < p + n) ==> m[i] == m'[i]
  }

  /** m and m' agree outside [p, p+n) and [q, q+k). */
  ghost predicate SameBut2(m: seq<int>, m': seq<int>, p: nat, n: nat, q: nat, k: nat) {
    |m| == |m'| && forall i :: 0 <= i < |m| && !(p <= i < p + n) && !(q <= i < q + k) ==> m[i] == m'[i]
  }

  lemma NumKept(m: seq<int>, m': seq<int>, p: nat, n: nat, q: nat, k: nat, W: int)
    requires SameBut(m, m', p, n) && q + k <= |m| && Apart(p, n, q, k)
    ensures Num(m', q, k, W) == Num(m, q, k, W)
  {
    assert m'[q..q + k] == m[q..q + k];
  }

  lemma NumKept2(m: seq<int>, m': seq<int>, p: nat, n: nat, q: nat, k: nat, r: nat, j: nat, W: int)
    requires SameBut2(m, m', p, n, q, k) && r + j <= |m| && Apart(p, n, r, j) && Apart(q, k, r, j)
    ensures Num(m', r, j, W) == Num(m, r, j, W)
  {
    assert m'[r..r + j] == m[r..r + j];
  }

  lemma NumSplit(m: seq<int>, p: nat, i: nat, n: nat, W: int)
    requires p + n <= |m| && i <= n
    ensures Num(m, p, n, W) == Num(m, p, i, W) + Pow(W, i) * Num(m, p + i, n - i, W)
  {
    hide Val;
    hide Pow;
    var s := m[p..p + n];
    ValSplit(s, i, W);
    assert s[..i] == m[p..p + i] && s[i..] == m[p + i..p + n];
  }

  /** A change of a window changes the whole number by that much, at the window's place. */
  lemma NumDelta(m: seq<int>, m': seq<int>, p: nat, n: nat, a: nat, k: nat, W: int)
    requires |m| == |m'| && p + n <= |m| && a + k <= n
    requires forall i :: p <= i < p + a || p + a + k <= i < p + n ==> m[i] == m'[i]
    ensures Num(m', p, n, W) == Num(m, p, n, W) + Pow(W, a) * (Num(m', p + a, k, W) - Num(m, p + a, k, W))
  {
    hide Num;
    hide Pow;
    NumSplit(m, p, a, n, W);
    NumSplit(m', p, a, n, W);
    NumSplit(m, p + a, k, n - a, W);
    NumSplit(m', p + a, k, n - a, W);
    NumAgree(m, m', p, a, W);
    NumAgree(m, m', p + a + k, n - a - k, W);
    DeltaArith(Num(m, p, a, W), Pow(W, a), Num(m, p + a, n - a, W), Num(m', p + a, n - a, W),
               Num(m', p + a, k, W) - Num(m, p + a, k, W));
  }

  lemma DeltaArith(low: int, p: int, s: int, s': int, d: int)
    requires s' == s + d
    ensures low + p * s' == (low + p * s) + p * d
  {}

  lemma NumAgree(m: seq<int>, m': seq<int>, p: nat, n: nat, W: int)
    requires |m| == |m'| && p + n <= |m| && forall i :: p <= i < p + n ==> m[i] == m'[i]
    ensures Num(m, p, n, W) == Num(m', p, n, W)
  {
    assert m[p..p + n] == m'[p..p + n];
  }

  lemma NumBound(m: seq<int>, p: nat, n: nat, W: int)
    requires W >= 1 && p + n <= |m| && NormAt(m, p, n, W)
    ensures 0 <= Num(m, p, n, W) < Pow(W, n)
  {
    ValBound(m[p..p + n], W);
  }

  /** z = x + y, digit by digit, without carries. Covers radd, rinc and the plain add. */
  method Add(m: array<int>, zp: nat, xp: nat, yp: nat, n: nat, ghost W: int)
    requires zp + n <= m.Length && xp + n <= m.Length && yp + n <= m.Length
    requires (zp == xp || Apart(zp, n, xp, n)) && (zp == yp || Apart(zp, n, yp, n))
    modifies m
    ensures SameBut(old(m[..]), m[..], zp, n)
    ensures Num(m[..], zp, n, W) == old(Num(m[..], xp, n, W)) + old(Num(m[..], yp, n, W))
  {
    hide Num;
    ghost var m0 := m[..];
    for i := 0 to n
      invariant forall k :: 0 <= k < m.Length && !(zp <= k < zp + i) ==> m[k] == m0[k]
      invariant forall k :: zp <= k < zp + i ==> m[k] == m0[k - zp + xp] + m0[k - zp + yp]
    {
      m[zp + i] := m[xp + i] + m[yp + i];
    }
    NumAdd(m0, m[..], zp, xp, yp, n, W);
  }

  lemma NumAdd(m0: seq<int>, m1: seq<int>, zp: nat, xp: nat, yp: nat, n: nat, W: int)
    requires |m0| == |m1| && zp + n <= |m0| && xp + n <= |m0| && yp + n <= |m0|
    requires forall k :: zp <= k < zp + n ==> m1[k] == m0[k - zp + xp] + m0[k - zp + yp]
    ensures Num(m1, zp, n, W) == Num(m0, xp, n, W) + Num(m0, yp, n, W)
  {
    var x, y, z := m0[xp..xp + n], m0[yp..yp + n], m1[zp..zp + n];
    forall i | 0 <= i < n ensures z[i] == x[i] + y[i] {
      assert z[i] == m1[zp + i];
    }
    ValAdd(x, y, z, W);
  }

  /** z = x - y, digit by digit. Covers rdec and the plain sub. */
  method Sub(m: array<int>, zp: nat, xp: nat, yp: nat, n: nat, ghost W: int)
    requires zp + n <= m.Length && xp + n <= m.Length && yp + n <= m.Length
    requires (zp == xp || Apart(zp, n, xp, n)) && (zp == yp || Apart(zp, n, yp, n))
    modifies m
    ensures SameBut(old(m[..]), m[..], zp, n)
    ensures Num(m[..], zp, n, W) == old(Num(m[..], xp, n, W)) - old(Num(m[..], yp, n, W))
  {
    hide Num;
    ghost var m0 := m[..];
    for i := 0 to n
      invariant forall k :: 0 <= k < m.Length && !(zp <= k < zp + i) ==> m[k] == m0[k]
      invariant forall k :: zp <= k < zp + i ==> m[k] == m0[k - zp + xp] - m0[k - zp + yp]
    {
      m[zp + i] := m[xp + i] - m[yp + i];
    }
    NumSub(m0, m[..], zp, xp, yp, n, W);
  }

  lemma NumSub(m0: seq<int>, m1: seq<int>, zp: nat, xp: nat, yp: nat, n: nat, W: int)
    requires |m0| == |m1| && zp + n <= |m0| && xp + n <= |m0| && yp + n <= |m0|
    requires forall k :: zp <= k < zp + n ==> m1[k] == m0[k - zp + xp] - m0[k - zp + yp]
    ensures Num(m1, zp, n, W) == Num(m0, xp, n, W) - Num(m0, yp, n, W)
  {
    var x, y, z := m0[xp..xp + n], m0[yp..yp + n], m1[zp..zp + n];
    forall i | 0 <= i < n ensures z[i] == x[i] - y[i] {
      assert z[i] == m1[zp + i];
    }
    ValSub(x, y, z, W);
  }

  /** z = x. */
  method Copy(m: array<int>, zp: nat, xp: nat, n: nat, ghost W: int)
    requires zp + n <= m.Length && xp + n <= m.Length && Apart(zp, n, xp, n)
    modifies m
    ensures SameBut(old(m[..]), m[..], zp, n)
    ensures forall i :: zp <= i < zp + n ==> m[i] == old(m[i - zp + xp])
    ensures Num(m[..], zp, n, W) == old(Num(m[..], xp, n, W))
  {
    ghost var m0 := m[..];
    for i := 0 to n
      invariant forall k :: 0 <= k < m.Length && !(zp <= k < zp + i) ==> m[k] == m0[k]
      invariant forall k :: zp <= k < zp + i ==> m[k] == m0[k - zp + xp]
    {
      m[zp + i] := m[xp + i];
    }
    assert m[zp..zp + n] == m0[xp..xp + n];
    assert m[..][zp..zp + n] == m[zp..zp + n];
  }

  /** z = 0. */
  method Zero(m: array<int>, zp: nat, n: nat, ghost W: int)
    requires zp + n <= m.Length
    modifies m
    ensures SameBut(old(m[..]), m[..], zp, n)
    ensures forall i :: zp <= i < zp + n ==> m[i] == 0
    ensures Num(m[..], zp, n, W) == 0
  {
    ghost var m0 := m[..];
    for i := 0 to n
      invariant forall k :: 0 <= k < m.Length && !(zp <= k < zp + i) ==> m[k] == m0[k]
      invariant forall k :: zp <= k < zp + i ==> m[k] == 0
    {
      m[zp + i] := 0;
    }
    ValZero(m[..][zp..zp + n], W);
  }

  // ----- FF_rnorm --------------------------------------------------------------------------

  /**
   * Carries are moved up, each digit but the last ends in [0, W) and the last one holds the overflow.
   * The number is unchanged.
   */
  method Normalise(m: array<int>, zp: nat, n: nat, W: int)
    requires W >= 1 && n >= 1 && zp + n <= m.Length
    modifies m
    ensures SameBut(old(m[..]), m[..], zp, n)
    ensures Num(m[..], zp, n, W) == old(Num(m[..], zp, n, W))
    ensures NormAt(m[..], zp, n - 1, W)
  {
    hide Num;
    ghost var m0 := m[..];
    for i := 0 to n - 1
      invariant SameBut(m0, m[..], zp, n)
      invariant Num(m[..], zp, n, W) == Num(m0, zp, n, W)
      invariant NormAt(m[..], zp, i, W)
    {
      ghost var before := m[..];
      var carry := m[zp + i] / W;
      m[zp + i] := m[zp + i] % W;
      m[zp + i + 1] := m[zp + i + 1] + carry;
      CarryMoved(before, m[..], zp, i, n, W);
    }
  }

  /** The same, with the overflow of the last digit dropped: the number is reduced mod W^n. */
  method Truncate(m: array<int>, zp: nat, n: nat, W: int)
    requires W >= 1 && n >= 1 && zp + n <= m.Length
    modifies m
    ensures SameBut(old(m[..]), m[..], zp, n)
    ensures NormAt(m[..], zp, n, W)
    ensures Pow(W, n) > 0 && Num(m[..], zp, n, W) == old(Num(m[..], zp, n, W)) % Pow(W, n)
  {
    hide Num;
    hide Pow;
    Normalise(m, zp, n, W);
    ghost var before := m[..];
    m[zp + n - 1] := m[zp + n - 1] % W;
    TopDropped(before, m[..], zp, n, W);
  }

  lemma CarryMoved(m: seq<int>, m': seq<int>, zp: nat, i: nat, n: nat, W: int)
    requires W >= 1 && zp + n <= |m| == |m'| && i + 1 < n
    requires m' == m[zp + i := m[zp + i] % W][zp + i + 1 := m[zp + i + 1] + m[zp + i] / W]
    ensures Num(m', zp, n, W) == Num(m, zp, n, W)
  {
    hide Num;
    hide Pow;
    NumDelta(m, m', zp, n, i, 2, W);
    PairValue(m, zp + i, W);
    PairValue(m', zp + i, W);
    var d, e := m[zp + i], m[zp + i + 1];
    assert d == (d / W) * W + d % W;
    assert d % W + W * (e + d / W) == d + W * e;
    assert Pow(W, i) * 0 == 0;
  }

  lemma PairValue(m: seq<int>, p: nat, W: int)
    requires p + 2 <= |m|
    ensures Num(m, p, 2, W) == m[p] + W * m[p + 1]
  {
    assert m[p..p + 2] == [m[p]] + [m[p + 1]];
    ValSnoc([m[p]], m[p + 1], W);
    ValSingle(m[p], W);
    assert Pow(W, 0) == 1 && Pow(W, 1) == W;
  }

  lemma TopDropped(m: seq<int>, m': seq<int>, zp: nat, n: nat, W: int)
    requires W >= 1 && n >= 1 && zp + n <= |m| == |m'| && NormAt(m, zp, n - 1, W)
    requires m' == m[zp + n - 1 := m[zp + n - 1] % W]
    ensures Pow(W, n) > 0 && Num(m', zp, n, W) == Num(m, zp, n, W) % Pow(W, n)
    ensures NormAt(m', zp, n, W)
  {
    hide Num;
    hide Pow;
    TopDroppedNorm(m, m', zp, n, W);
    hide NormAt;
    PowPos(W, n);
    PowSucc(W, n - 1);
    NumBound(m', zp, n, W);
    var d, p := m[zp + n - 1], Pow(W, n - 1);
    var q, r := d / W, d % W;
    assert d == q * W + r;
    TopDroppedDelta(m, m', zp, n, r, W);
    TopDroppedArith(d, q, r, p, W, Pow(W, n), Num(m, zp, n, W), Num(m', zp, n, W));
  }

  lemma TopDroppedNorm(m: seq<int>, m': seq<int>, zp: nat, n: nat, W: int)
    requires W >= 1 && n >= 1 && zp + n <= |m| == |m'| && NormAt(m, zp, n - 1, W)
    requires m' == m[zp + n - 1 := m[zp + n - 1] % W]
    ensures NormAt(m', zp, n, W)
  {}

  lemma TopDroppedDelta(m: seq<int>, m': seq<int>, zp: nat, n: nat, r: int, W: int)
    requires n >= 1 && zp + n <= |m| && m' == m[zp + n - 1 := r]
    ensures |m'| == |m| && Num(m', zp, n, W) == Num(m, zp, n, W) + Pow(W, n - 1) * (r - m[zp + n - 1])
  {
    hide Num;
    hide Pow;
    NumDelta(m, m', zp, n, n - 1, 1, W);
    SingleValue(m, zp + n - 1, W);
    SingleValue(m', zp + n - 1, W);
  }

  lemma TopDroppedArith(d: int, q: int, r: int, p: int, W: int, R: int, v: int, v': int)
    requires d == q * W + r && v' == v + p * (r - d) && R == W * p && 0 <= v' < R
    ensures v' == v % R
  {
    assert p * (r - d) == -(q * R) by { assert p * (q * W) == q * (W * p); }
    DivModUnique(v, q, v', R);
  }

  lemma SingleValue(m: seq<int>, p: nat, W: int)
    requires p + 1 <= |m|
    ensures Num(m, p, 1, W) == m[p]
  {
    assert m[p..p + 1] == [m[p]];
    ValSingle(m[p], W);
  }
}
