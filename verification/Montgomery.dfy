/** Montgomery reduction of a 2n-digit number, built from the low-half and high-half Karatsuba products. */
module Montgomery {
  import opened Arith
  import opened FieldDigits
  import opened Karatsuba

  /** The quotient digit string of the reduction: T/N mod R. */
  function Quotient(T: int, ND: int, R: int): int
    requires R > 0
  {
    (T * ND) % R
  }

  /** (T - m*N)/R + N for m = T/N mod R: the number that FF_reduce leaves in r. */
  function Reduced(T: int, N: int, ND: int, R: int): int
    requires R > 0
  {
    (T + N * R - Quotient(T, ND, R) * N) / R
  }

  /** The division by R is exact. */
  lemma ReducedExact(T: int, N: int, ND: int, R: int)
    requires R > 0 && Cong(N * ND, 1, R)
    ensures Reduced(T, N, ND, R) * R == T + N * R - Quotient(T, ND, R) * N
  {
    hide Cong;
    var q := Quotient(T, ND, R);
    CongMod(T * ND, R);
    CongScale(q, T * ND, N, R);
    assert (T * ND) * N == T * (N * ND);
    CongScale(N * ND, 1, T, R);
    CongTrans(q * N, (T * ND) * N, T, R);
    var k := CongWitness(q * N, T, R);
    assert T + N * R - q * N == (N - k) * R;
    DivModUnique(T + N * R - q * N, N - k, 0, R);
  }

  /** The result is congruent to T/R mod N and lies in (T/R, T/R + N]. */
  lemma ReducedProperties(T: int, N: int, ND: int, R: int)
    requires R > 0 && N > 0 && Cong(N * ND, 1, R)
    ensures var r := Reduced(T, N, ND, R);
      Cong(r * R, T, N) && T < r * R <= T + N * R
    ensures 0 <= T < N * R ==> 0 < Reduced(T, N, ND, R) < 2 * N
  {
    hide Cong;
    hide Reduced;
    ReducedExact(T, N, ND, R);
    var q, r := Quotient(T, ND, R), Reduced(T, N, ND, R);
    assert 0 <= q <= R - 1;
    MulMono(0, q, N);
    MulMono(q, R - 1, N);
    assert (R - 1) * N == N * R - N;
    assert N * R - q * N == (R - q) * N;
    CongFrom(r * R, T, R - q, N);
    if 0 <= T < N * R {
      assert (2 * N) * R == N * R + N * R;
      MulStrict(r, 2 * N, R);
      assert 0 * R == 0;
      MulStrict(0, r, R);
    }
  }

  /** Six disjoint regions: r, T, N, ND and the two local arrays t and q. */
  ghost predicate Layout(len: nat, r: nat, T: nat, N: nat, ND: nat, t: nat, q: nat, n: nat) {
    && r + n <= len && T + 2 * n <= len && N + n <= len && ND + n <= len && t + 2 * n <= len && q + n <= len
    && Apart(r, n, T, 2 * n) && Apart(r, n, N, n) && Apart(r, n, ND, n) && Apart(r, n, t, 2 * n) && Apart(r, n, q, n)
    && Apart(T, 2 * n, N, n) && Apart(T, 2 * n, ND, n) && Apart(T, 2 * n, t, 2 * n) && Apart(T, 2 * n, q, n)
    && Apart(t, 2 * n, N, n) && Apart(t, 2 * n, ND, n) && Apart(t, 2 * n, q, n)
    && Apart(q, n, N, n) && Apart(q, n, ND, n)
  }

  /** m and m' agree outside r, T, t and q. */
  ghost predicate Framed(m: seq<int>, m': seq<int>, r: nat, T: nat, t: nat, q: nat, n: nat) {
    && |m| == |m'|
    && forall i | 0 <= i < |m| ::
         r <= i < r + n || T <= i < T + 2 * n || t <= i < t + 2 * n || q <= i < q + n || m[i] == m'[i]
  }

  /** FF_reduce. T's lower half must be normalised; T is destroyed, N and ND are kept. */
  method Reduce(m: array<int>, r: nat, T: nat, N: nat, ND: nat, t: nat, q: nat, n: nat, W: int, C: int)
    requires W >= 2 && C >= 1 && C % W == 0 && PowerOfTwo(n) && n >= 2 && Layout(m.Length, r, T, N, ND, t, q, n)
    requires NormAt(m[..], T, n, W) && NormAt(m[..], N, n, W)
    requires Pow(W, n) > 0 && Cong(Num(m[..], N, n, W) * Num(m[..], ND, n, W), 1, Pow(W, n))
    modifies m
    ensures Framed(old(m[..]), m[..], r, T, t, q, n)
    ensures Num(m[..], r, n, W) ==
            Reduced(old(Num(m[..], T, 2 * n, W)), old(Num(m[..], N, n, W)), old(Num(m[..], ND, n, W)), Pow(W, n))
    ensures NormAt(m[..], r, n - 1, W)
  {
    hide Num;
    hide Pow;
    hide Cong;
    hide IsProduct;
    hide Quotient;
    hide Reduced;
    ghost var m0 := m[..];
    ReduceQuotient(m, r, T, N, ND, t, q, n, W, C);
    ghost var m1 := m[..];
    ReduceProduct(m, m0, r, T, N, ND, t, q, n, W, C);
    ghost var m2 := m[..];
    NumAgree(m1, m2, r, n, W);
    NumAgree(m0, m2, N, n, W);
    ReduceFinish(m, r, T, N, ND, t, q, n, W);
    ReduceValue(m0, m1, m2, T, N, ND, q, n, W, Num(m[..], r, n, W));
  }

  /** Keeps the top half of T in r and computes q = T*ND mod R. */
  method ReduceQuotient(m: array<int>, r: nat, T: nat, N: nat, ND: nat, t: nat, q: nat, n: nat, W: int, C: int)
    requires W >= 2 && C >= 1 && C % W == 0 && PowerOfTwo(n) && n >= 2 && Layout(m.Length, r, T, N, ND, t, q, n)
    modifies m
    ensures Framed(old(m[..]), m[..], r, T, t, q, n)
    ensures forall i :: T <= i < T + 2 * n ==> m[i] == old(m[i])
    ensures Num(m[..], r, n, W) == old(Num(m[..], T + n, n, W))
    ensures NormAt(m[..], q, n, W) && Pow(W, n) > 0
    ensures Num(m[..], q, n, W) == Quotient(old(Num(m[..], T, n, W)), old(Num(m[..], ND, n, W)), Pow(W, n))
  {
    hide Num;
    hide Pow;
    hide Cong;
    ghost var m0 := m[..];
    Copy(m, r, T + n, n, W);
    ghost var m1 := m[..];
    NumAgree(m0, m1, T, n, W);
    NumAgree(m0, m1, ND, n, W);
    KarMulLower(m, q, T, ND, t, n, W, C);
    NumAgree(m1, m[..], r, n, W);
    NumBound(m[..], q, n, W);
    ResidueIs(Num(m[..], q, n, W), Num(m0, T, n, W) * Num(m0, ND, n, W), Pow(W, n));
  }

  lemma ResidueIs(a: int, b: int, m: int)
    requires m > 0 && 0 <= a < m && Cong(a, b, m)
    ensures a == b % m
  {
    SmallMod(a, m);
  }

  /** T = q*N in full: its low half was already there. */
  method ReduceProduct(m: array<int>, ghost m0: seq<int>, r: nat, T: nat, N: nat, ND: nat, t: nat, q: nat, n: nat, W: int, C: int)
    requires W >= 2 && C >= 1 && PowerOfTwo(n) && n >= 2 && Layout(m.Length, r, T, N, ND, t, q, n)
    requires Framed(m0, m[..], r, T, t, q, n) && forall i :: T <= i < T + 2 * n ==> m[i] == m0[i]
    requires NormAt(m0, N, n, W) && NormAt(m[..], q, n, W)
    requires Pow(W, n) > 0 && Cong(Num(m0, N, n, W) * Num(m0, ND, n, W), 1, Pow(W, n))
    requires Num(m[..], q, n, W) == Quotient(Num(m0, T, n, W), Num(m0, ND, n, W), Pow(W, n))
    modifies m
    ensures SameBut2(old(m[..]), m[..], T, 2 * n, t, 2 * n)
    ensures IsProduct(Num(m[..], T, 2 * n, W), Num(m0, N, n, W), old(Num(m[..], q, n, W)))
    ensures NormAt(m[..], T, n, W)
  {
    hide Num;
    hide Pow;
    hide Cong;
    hide IsProduct;
    hide Quotient;
    hide LowHalfOf;
    NumAgree(m0, m[..], T, n, W);
    NumAgree(m0, m[..], N, n, W);
    LowHalfIsT(Num(m0, T, n, W), Num(m0, N, n, W), Num(m0, ND, n, W), Pow(W, n));
    KarMulUpper(m, T, N, q, t, n, W, C);
  }

  /** N * (T*ND mod R) agrees with T mod R. */
  lemma LowHalfIsT(T: int, N: int, ND: int, R: int)
    requires R > 0 && Cong(N * ND, 1, R)
    ensures LowHalfOf(T, N, Quotient(T, ND, R), R)
  {
    hide Cong;
    var q := Quotient(T, ND, R);
    CongMod(T * ND, R);
    CongScale(q, T * ND, N, R);
    assert N * (T * ND) == T * (N * ND);
    CongScale(N * ND, 1, T, R);
    CongTrans(N * q, N * (T * ND), T, R);
    CongSym(N * q, T, R);
  }

  lemma CongSym(a: int, b: int, m: int)
    requires m > 0 && Cong(a, b, m)
    ensures Cong(b, a, m)
  {}

  /** r = r + N - (top half of T), normalised. */
  method ReduceFinish(m: array<int>, r: nat, T: nat, N: nat, ND: nat, t: nat, q: nat, n: nat, W: int)
    requires W >= 2 && n >= 2 && Layout(m.Length, r, T, N, ND, t, q, n)
    modifies m
    ensures SameBut2(old(m[..]), m[..], r, n, q, n)
    ensures Num(m[..], r, n, W) == old(Num(m[..], r, n, W) + Num(m[..], N, n, W) - Num(m[..], T + n, n, W))
    ensures NormAt(m[..], r, n - 1, W)
  {
    hide Num;
    ghost var m0 := m[..];
    Copy(m, q, T + n, n, W);
    ghost var m1 := m[..];
    NumAgree(m0, m1, r, n, W);
    NumAgree(m0, m1, N, n, W);
    Add(m, r, r, N, n, W);
    NumAgree(m1, m[..], q, n, W);
    Sub(m, r, r, q, n, W);
    Normalise(m, r, n, W);
  }

  lemma ReduceValue(m0: seq<int>, m1: seq<int>, m2: seq<int>, T: nat, N: nat, ND: nat, q: nat, n: nat, W: int, r: int)
    requires W >= 2 && |m0| == |m1| == |m2| && T + 2 * n <= |m0| && N + n <= |m0| && ND + n <= |m0| && q + n <= |m0|
    requires NormAt(m0, T, n, W) && NormAt(m2, T, n, W)
    requires Pow(W, n) > 0 && Cong(Num(m0, N, n, W) * Num(m0, ND, n, W), 1, Pow(W, n))
    requires Num(m1, q, n, W) == Quotient(Num(m0, T, n, W), Num(m0, ND, n, W), Pow(W, n))
    requires IsProduct(Num(m2, T, 2 * n, W), Num(m0, N, n, W), Num(m1, q, n, W))
    requires r == Num(m0, T + n, n, W) + Num(m0, N, n, W) - Num(m2, T + n, n, W)
    ensures r == Reduced(Num(m0, T, 2 * n, W), Num(m0, N, n, W), Num(m0, ND, n, W), Pow(W, n))
  {
    hide Num;
    hide Pow;
    hide Cong;
    hide IsProduct;
    hide Quotient;
    hide Reduced;
    NumSplit(m0, T, n, 2 * n, W);
    NumSplit(m2, T, n, 2 * n, W);
    NumBound(m0, T, n, W);
    NumBound(m2, T, n, W);
    ReduceArith(Num(m0, T, 2 * n, W), Num(m0, T, n, W), Num(m0, T + n, n, W), Num(m0, N, n, W), Num(m0, ND, n, W),
                Pow(W, n), Num(m1, q, n, W), Num(m2, T, 2 * n, W), Num(m2, T, n, W), Num(m2, T + n, n, W), r);
  }

  lemma ReduceArith(T: int, lo: int, hi: int, N: int, ND: int, R: int, q: int, P: int, lo2: int, up: int, r: int)
    requires R > 0 && 0 <= lo < R && 0 <= lo2 < R && T == lo + R * hi && P == lo2 + R * up
    requires Cong(N * ND, 1, R) && q == Quotient(lo, ND, R) && IsProduct(P, N, q) && r == hi + N - up
    ensures r == Reduced(T, N, ND, R)
  {
    hide Cong;
    QuotientOfLow(T, lo, hi, ND, R);
    LowHalfIsT(lo, N, ND, R);
    SameLow(lo, lo2, P, N, q, R, up);
    assert q * N == N * q;
    assert r * R == T + N * R - q * N by {
      assert (hi + N - up) * R == R * hi + N * R - R * up;
    }
    DivModUnique(T + N * R - q * N, r, 0, R);
  }

  lemma SameLow(lo: int, lo2: int, P: int, N: int, q: int, R: int, up: int)
    requires R > 0 && 0 <= lo < R && 0 <= lo2 < R && P == lo2 + R * up && P == N * q && LowHalfOf(lo, N, q, R)
    ensures lo == lo2
  {
    assert R * up == up * R;
    CongFrom(P, lo2, up, R);
    CongUnique(lo, lo2, R);
  }

  lemma QuotientOfLow(T: int, lo: int, hi: int, ND: int, R: int)
    requires R > 0 && T == lo + R * hi
    ensures Quotient(T, ND, R) == Quotient(lo, ND, R)
  {
    assert R * hi == hi * R;
    CongFrom(T, lo, hi, R);
    CongScale(T, lo, ND, R);
  }
}
