/** Exponentiation by the Montgomery ladder on the digits themselves, in the shared memory. */
module FieldPow {
  import opened Arith
  import opened Digits
  import opened FieldDigits
  import opened Karatsuba
  import opened Montgomery
  import opened MontgomeryDomain
  import opened FieldModMul
  import RsaShiftAdd

  /** Where the arrays lie: the two ladder registers, the result, the exponent of ne digits, the modulus, its inverse, and working space. */
  datatype Place = Place(r0: nat, r1: nat, r: nat, e: nat, p: nat, nd: nat, q: nat, d: nat, t: nat, u: nat, n: nat, ne: nat)
  {
    ghost predicate Fits(len: nat) {
      r0 + n <= len && r1 + n <= len && r + n <= len && e + ne <= len && p + n <= len && nd + n <= len && q + n <= len && d + 2 * n <= len && t + 2 * n <= len && u + 2 * n <= len
    }

    ghost predicate Disjoint() {
      Apart(r0, n, r1, n) && Apart(r0, n, r, n) && Apart(r0, n, e, ne) && Apart(r0, n, p, n) && Apart(r0, n, nd, n) && Apart(r0, n, q, n) && Apart(r0, n, d, 2 * n) && Apart(r0, n, t, 2 * n) && Apart(r0, n, u, 2 * n) &&
      Apart(r1, n, r, n) && Apart(r1, n, e, ne) && Apart(r1, n, p, n) && Apart(r1, n, nd, n) && Apart(r1, n, q, n) && Apart(r1, n, d, 2 * n) && Apart(r1, n, t, 2 * n) && Apart(r1, n, u, 2 * n) &&
      Apart(r, n, e, ne) && Apart(r, n, p, n) && Apart(r, n, nd, n) && Apart(r, n, q, n) && Apart(r, n, d, 2 * n) && Apart(r, n, t, 2 * n) && Apart(r, n, u, 2 * n) &&
      Apart(e, ne, p, n) && Apart(e, ne, nd, n) && Apart(e, ne, q, n) && Apart(e, ne, d, 2 * n) && Apart(e, ne, t, 2 * n) && Apart(e, ne, u, 2 * n) &&
      Apart(p, n, nd, n) && Apart(p, n, q, n) && Apart(p, n, d, 2 * n) && Apart(p, n, t, 2 * n) && Apart(p, n, u, 2 * n) &&
      Apart(nd, n, q, n) && Apart(nd, n, d, 2 * n) && Apart(nd, n, t, 2 * n) && Apart(nd, n, u, 2 * n) &&
      Apart(q, n, d, 2 * n) && Apart(q, n, t, 2 * n) && Apart(q, n, u, 2 * n) &&
      Apart(d, 2 * n, t, 2 * n) && Apart(d, 2 * n, u, 2 * n) &&
      Apart(t, 2 * n, u, 2 * n)
    }
  }

  // ----- double-length copies -----------------------------------------------------------------------

  /** FF_dsucopy: y in the upper half, zeros in the lower. */
  method CopyUp(m: array<int>, x: nat, y: nat, n: nat, W: int)
    requires W >= 2 && n >= 1 && x + 2 * n <= m.Length && y + n <= m.Length && Apart(x, 2 * n, y, n)
    modifies m
    ensures SameBut(old(m[..]), m[..], x, 2 * n) && Num(m[..], x, 2 * n, W) == Pow(W, n) * old(Num(m[..], y, n, W))
    ensures forall i :: x <= i < x + n ==> m[i] == 0
    ensures forall i :: x + n <= i < x + 2 * n ==> m[i] == old(m[i - x - n + y])
  {
    hide Num;
    hide Pow;
    ghost var m0 := m[..];
    Copy(m, x + n, y, n, W);
    ghost var m1 := m[..];
    Zero(m, x, n, W);
    NumSplit(m[..], x, n, 2 * n, W);
    NumKept(m1, m[..], x, n, x + n, n, W);
  }

  /** FF_dscopy: y in the lower half, zeros in the upper. */
  method CopyDown(m: array<int>, x: nat, y: nat, n: nat, W: int)
    requires W >= 2 && n >= 1 && x + 2 * n <= m.Length && y + n <= m.Length && Apart(x, 2 * n, y, n)
    modifies m
    ensures SameBut(old(m[..]), m[..], x, 2 * n) && Num(m[..], x, 2 * n, W) == old(Num(m[..], y, n, W))
    ensures forall i :: x <= i < x + n ==> m[i] == old(m[i - x + y])
  {
    hide Num;
    hide Pow;
    Copy(m, x, y, n, W);
    ghost var m1 := m[..];
    Zero(m, x + n, n, W);
    NumSplit(m[..], x, n, 2 * n, W);
    NumKept(m1, m[..], x + n, n, x, n, W);
    assert Pow(W, n) * 0 == 0;
  }

  // ----- MCL_FF_dmod, FF_nres, FF_redc ----------------------------------------------------------------

  /** The lower half of a settled number is its remainder modulo R. */
  lemma LowHalfIs(m: seq<int>, x: nat, n: nat, W: int)
    requires W >= 2 && n >= 1 && x + 2 * n <= |m| && NormAt(m, x, 2 * n - 1, W)
    ensures Pow(W, n) > 0 && Num(m, x, n, W) == Num(m, x, 2 * n, W) % Pow(W, n)
  {
    hide Num;
    hide Val;
    hide Pow;
    PowPos(W, n);
    NumSplit(m, x, n, 2 * n, W);
    NumIs(m, x, n, W);
    ValBound(m[x..x + n], W);
    OnlyLow(Num(m, x, 2 * n, W), Num(m, x, n, W), Num(m, x + n, n, W), Pow(W, n));
  }

  lemma OnlyLow(v: int, lo: int, hi: int, p: int)
    requires v == lo + p * hi && 0 <= lo < p
    ensures lo == v % p
  {
    assert p * hi == hi * p;
    DivModUnique(v, hi, lo, p);
  }

  /** MCL_FF_dmod for any a; mm and xx are its local arrays. */
  method FfDMod(m: array<int>, r: nat, a: nat, b: nat, mm: nat, xx: nat, n: nat, W: int, bits: nat)
    requires W >= 2 && W % 2 == 0 && n >= 1 && Pow(W, n) == Pow(2, bits) && Pow(W, n) > 0
    requires r + n <= m.Length && a + 2 * n <= m.Length && b + n <= m.Length && mm + 2 * n <= m.Length && xx + 2 * n <= m.Length
    requires Apart(xx, 2 * n, a, 2 * n) && Apart(xx, 2 * n, b, n) && Apart(mm, 2 * n, b, n) && Apart(mm, 2 * n, xx, 2 * n)
    requires Apart(r, n, xx, 2 * n) && Apart(r, n, b, n) && Apart(r, n, mm, 2 * n)
    requires NormAt(m[..], b, n, W) && Num(m[..], b, n, W) > 0 && Num(m[..], a, 2 * n, W) >= 0
    modifies m
    ensures SameBut3(old(m[..]), m[..], r, n, mm, xx) && Settled(m[..], r, n, W)
    ensures Num(m[..], r, n, W) == DModValue(old(Num(m[..], a, 2 * n, W)), old(Num(m[..], b, n, W)), Pow(W, n))
    ensures old(Num(m[..], a, 2 * n, W)) < old(Num(m[..], b, n, W)) * Pow(W, n) - old(Num(m[..], b, n, W)) + Pow(W, n)
      ==> Num(m[..], r, n, W) == old(Num(m[..], a, 2 * n, W)) % old(Num(m[..], b, n, W))
  {
    hide Num;
    hide Pow;
    hide Cong;
    hide DModValue;
    ghost var m0, R := m[..], Pow(W, n);
    ghost var a0, b0 := Num(m0, a, 2 * n, W), Num(m0, b, n, W);
    Copy(m, xx, a, 2 * n, W);
    ghost var m1 := m[..];
    Normalise(m, xx, 2 * n, W);
    TopNotNegative(m[..], xx, 2 * n, W);
    ghost var m2 := m[..];
    SameButTwice(m0, m1, m2, xx, 2 * n);
    NumKept(m0, m2, xx, 2 * n, b, n, W);
    CopyUp(m, mm, b, n, W);
    ghost var m3 := m[..];
    NumKept(m2, m3, mm, 2 * n, xx, 2 * n, W);
    SettledStays(m2, m3, mm, 2 * n, xx, 2 * n, W);
    UpperSettled(m0, m2, m3, mm, b, xx, n, W);
    BelowR(m0, b, n, W);
    assert R * b0 == b0 * R;
    MulMono(1, b0, R);
    DLoop(m, xx, mm, n, W, bits, a0, b0, b0 * R);
    ghost var m4 := m[..];
    LowHalfIs(m4, xx, n, W);
    ShiftedEnd(Num(m4, xx, 2 * n, W), Num(m4, mm, 2 * n, W), a0, b0, R);
    Copy(m, r, xx, n, W);
    ghost var m5 := m[..];
    Chain5(m0, m2, m3, m4, m5, r, b, mm, xx, n, W);
    FfMod(m, r, b, n, W);
    Chain6(m0, m5, m[..], r, mm, xx, n);
  }

  /** The loop: mm halved as often as R has bits, and taken from xx whenever it goes. */
  method DLoop(m: array<int>, xx: nat, mm: nat, n: nat, W: int, bits: nat, ghost a0: int, ghost b0: int, ghost top: int)
    requires W >= 2 && W % 2 == 0 && n >= 1 && mm + 2 * n <= m.Length && xx + 2 * n <= m.Length && Apart(xx, 2 * n, mm, 2 * n)
    requires Settled(m[..], xx, 2 * n, W) && Settled(m[..], mm, 2 * n, W) && a0 >= 0 && b0 > 0 && top == b0 * Pow(2, bits) && top > 0
    requires Num(m[..], xx, 2 * n, W) == a0 && Num(m[..], mm, 2 * n, W) == top
    modifies m
    ensures SameBut2(old(m[..]), m[..], xx, 2 * n, mm, 2 * n) && Settled(m[..], xx, 2 * n, W)
    ensures Shifted(Num(m[..], xx, 2 * n, W), Num(m[..], mm, 2 * n, W), a0, b0, top, 0)
  {
    hide Num;
    hide Pow;
    hide Settled;
    hide Shifted;
    ghost var m0 := m[..];
    ShiftedStart(a0, b0, bits, top);
    var k := bits;
    while k > 0
      invariant 0 <= k <= bits
      invariant SameBut2(m0, m[..], xx, 2 * n, mm, 2 * n) && Settled(m[..], xx, 2 * n, W) && Settled(m[..], mm, 2 * n, W)
      invariant Shifted(Num(m[..], xx, 2 * n, W), Num(m[..], mm, 2 * n, W), a0, b0, top, k)
    {
      ghost var x, w := Num(m[..], xx, 2 * n, W), Num(m[..], mm, 2 * n, W);
      ShiftedStep(x, w, a0, b0, top, k);
      ShiftedEven(x, w, a0, b0, top, k);
      StepDown(m, xx, mm, 2 * n, W, w / 2);
      k := k - 1;
    }
  }

  lemma ShiftedEven(x: int, w: int, a: int, b: int, top: int, k: nat)
    requires k > 0 && Shifted(x, w, a, b, top, k)
    ensures x >= 0 && w == 2 * (w / 2) && w / 2 >= 0
  {
    hide Cong;
    hide Pow;
    PowSucc(2, k - 1);
    EvenProduct(b, Pow(2, k - 1));
  }

  lemma EvenProduct(b: int, p: int)
    ensures b * (2 * p) == 2 * (b * p)
  {}

  /** m and m' agree outside r, mm and xx. */
  ghost predicate SameBut3(m: seq<int>, m': seq<int>, r: nat, n: nat, mm: nat, xx: nat) {
    |m| == |m'| && forall i | 0 <= i < |m| ::
      r <= i < r + n || mm <= i < mm + 2 * n || xx <= i < xx + 2 * n || m[i] == m'[i]
  }

  lemma BelowR(m: seq<int>, b: nat, n: nat, W: int)
    requires W >= 2 && b + n <= |m| && NormAt(m, b, n, W)
    ensures 0 <= Num(m, b, n, W) < Pow(W, n)
  {
    hide Val;
    hide Pow;
    NumIs(m, b, n, W);
    ValBound(m[b..b + n], W);
  }

  lemma UpperSettled(m0: seq<int>, m2: seq<int>, m3: seq<int>, mm: nat, b: nat, xx: nat, n: nat, W: int)
    requires W >= 2 && n >= 1 && |m0| == |m2| == |m3| && mm + 2 * n <= |m0| && b + n <= |m0| && NormAt(m0, b, n, W)
    requires SameBut(m0, m2, xx, 2 * n) && Apart(xx, 2 * n, b, n)
    requires forall i :: mm <= i < mm + n ==> m3[i] == 0
    requires forall i :: mm + n <= i < mm + 2 * n ==> m3[i] == m2[i - mm - n + b]
    ensures Settled(m3, mm, 2 * n, W)
  {
    forall i | mm <= i < mm + 2 * n ensures 0 <= m3[i] < W {
      if i >= mm + n { assert m2[i - mm - n + b] == m0[i - mm - n + b]; }
    }
  }

  lemma Chain5(m0: seq<int>, m2: seq<int>, m3: seq<int>, m4: seq<int>, m5: seq<int>, r: nat, b: nat, mm: nat, xx: nat, n: nat, W: int)
    requires SameBut(m0, m2, xx, 2 * n) && SameBut(m2, m3, mm, 2 * n) && SameBut2(m3, m4, xx, 2 * n, mm, 2 * n) && SameBut(m4, m5, r, n)
    requires b + n <= |m0| && NormAt(m0, b, n, W) && Apart(xx, 2 * n, b, n) && Apart(mm, 2 * n, b, n) && Apart(r, n, b, n)
    ensures SameBut3(m0, m5, r, n, mm, xx) && NormAt(m5, b, n, W) && Num(m5, b, n, W) == Num(m0, b, n, W)
  {
    assert m5[b..b + n] == m0[b..b + n];
  }

  lemma Chain6(m0: seq<int>, m5: seq<int>, m6: seq<int>, r: nat, mm: nat, xx: nat, n: nat)
    requires SameBut3(m0, m5, r, n, mm, xx) && SameBut(m5, m6, r, n)
    ensures SameBut3(m0, m6, r, n, mm, xx)
  {}

  /** FF_nres: a*R mod p in place of a; d, mm and xx are working space. */
  method FfNres(m: array<int>, a: nat, p: nat, d: nat, mm: nat, xx: nat, n: nat, W: int, bits: nat, ghost x: int, ghost e: nat)
    requires W >= 2 && W % 2 == 0 && n >= 1 && Pow(W, n) == Pow(2, bits) && Pow(W, n) > 0
    requires a + n <= m.Length && p + n <= m.Length && d + 2 * n <= m.Length && mm + 2 * n <= m.Length && xx + 2 * n <= m.Length
    requires Apart(a, n, p, n) && Apart(a, n, d, 2 * n) && Apart(a, n, mm, 2 * n) && Apart(a, n, xx, 2 * n) && Apart(d, 2 * n, p, n)
    requires Apart(d, 2 * n, xx, 2 * n) && Apart(xx, 2 * n, p, n) && Apart(mm, 2 * n, p, n) && Apart(mm, 2 * n, xx, 2 * n)
    requires NormAt(m[..], p, n, W) && Num(m[..], p, n, W) > 0 && 0 <= Num(m[..], a, n, W) < Num(m[..], p, n, W)
    requires Num(m[..], a, n, W) == Pow(x, e)
    modifies m
    ensures SameBut4(old(m[..]), m[..], a, n, d, mm, xx)
    ensures Stands(Num(m[..], a, n, W), x, e, Pow(W, n), old(Num(m[..], p, n, W)))
  {
    hide Num;
    hide Pow;
    hide Cong;
    hide Settled;
    ghost var m0 := m[..];
    ghost var a0, N, R := Num(m0, a, n, W), Num(m0, p, n, W), Pow(W, n);
    CopyUp(m, d, a, n, W);
    ghost var m1 := m[..];
    KeptModulus(m0, m1, d, 2 * n, p, n, W);
    ProductBelow(a0, N, R);
    BelowR(m0, p, n, W);
    assert R * a0 == a0 * R;
    ApartSym(d, 2 * n, xx, 2 * n);
    FfDMod(m, a, d, p, mm, xx, n, W, bits);
    IntoDomain(Num(m[..], a, n, W), a0, x, e, R, N);
    Chain4(m0, m1, m[..], a, n, d, mm, xx);
  }

  /** m and m' agree outside a, d, mm and xx. */
  ghost predicate SameBut4(m: seq<int>, m': seq<int>, a: nat, n: nat, d: nat, mm: nat, xx: nat) {
    |m| == |m'| && forall i | 0 <= i < |m| ::
      a <= i < a + n || d <= i < d + 2 * n || mm <= i < mm + 2 * n || xx <= i < xx + 2 * n || m[i] == m'[i]
  }

  lemma Chain4(m0: seq<int>, m1: seq<int>, m2: seq<int>, a: nat, n: nat, d: nat, mm: nat, xx: nat)
    requires SameBut(m0, m1, d, 2 * n) && SameBut3(m1, m2, a, n, mm, xx)
    ensures SameBut4(m0, m2, a, n, d, mm, xx)
  {}

  lemma KeptModulus(m: seq<int>, m': seq<int>, a: nat, k: nat, p: nat, n: nat, W: int)
    requires SameBut(m, m', a, k) && Apart(a, k, p, n) && p + n <= |m| && NormAt(m, p, n, W)
    ensures NormAt(m', p, n, W) && Num(m', p, n, W) == Num(m, p, n, W)
  {
    assert m'[p..p + n] == m[p..p + n];
  }

  lemma ProductBelow(a: int, N: int, R: int)
    requires 0 <= a < N && R > 0
    ensures 0 <= a * R < N * R
  {
    MulMono(0, a, R);
    MulMono(a + 1, N, R);
    assert (a + 1) * R == a * R + R;
  }

  lemma IntoDomain(v: int, a: int, x: int, e: nat, R: int, N: int)
    requires N > 0 && a == Pow(x, e) && v == (a * R) % N
    ensures Stands(v, x, e, R, N)
  {
    CongMod(a * R, N);
  }

  /** FF_redc: out of the domain, fully reduced, in place. */
  method FfRedc(m: array<int>, a: nat, p: nat, nd: nat, d: nat, t: nat, q: nat, n: nat, W: int, C: int, ghost x: int, ghost e: nat)
    requires W >= 2 && W % 2 == 0 && C >= 1 && C % W == 0 && PowerOfTwo(n) && n >= 2 && Layout(m.Length, a, d, p, nd, t, q, n)
    requires ModulusAt(m[..], p, nd, n, W) && 1 < Num(m[..], p, n, W) && Num(m[..], nd, n, W) >= 0
    requires Stands(Num(m[..], a, n, W), x, e, Pow(W, n), Num(m[..], p, n, W))
    modifies m
    ensures Num(m[..], a, n, W) == Pow(x, e) % old(Num(m[..], p, n, W)) && Framed(old(m[..]), m[..], a, d, t, q, n)
  {
    hide Num;
    hide Pow;
    hide Cong;
    hide NormAt;
    hide Reduced;
    ghost var m0 := m[..];
    ghost var v, N, ND, R := Num(m0, a, n, W), Num(m0, p, n, W), Num(m0, nd, n, W), Pow(W, n);
    BelowR(m0, p, n, W);
    FfMod(m, a, p, n, W);
    ghost var m1 := m[..];
    OneChange(m0, m1, a, n);
    ModulusKept(m0, m1, a, n, a, n, p, nd, n, W);
    ghost var a1 := Num(m1, a, n, W);
    SmallIsNorm(m1, a, n, W);
    CopyDown(m, d, a, n, W);
    ghost var m2 := m[..];
    OneChange(m1, m2, d, 2 * n);
    ModulusKept(m1, m2, d, 2 * n, d, 2 * n, p, nd, n, W);
    CopiedNorm(m1, m2, d, a, n, W);
    Reduce(m, a, d, p, nd, t, q, n, W, C);
    ghost var m3 := m[..];
    OutOfDomain(Num(m3, a, n, W), a1, v, x, e, N, ND, R);
    FramedModulus(m2, m3, a, d, t, q, p, nd, n, W);
    FfMod(m, a, p, n, W);
    ResidueOf(Num(m3, a, n, W), Pow(x, e), N);
    FramedAll(m0, m1, m2, m3, m[..], a, d, t, q, n);
  }

  lemma ResidueOf(r: int, x: int, N: int)
    requires N > 0 && Cong(r, x, N)
    ensures r % N == x % N
  {}

  lemma SmallIsNorm(m: seq<int>, p: nat, n: nat, W: int)
    requires W >= 2 && n >= 1 && p + n <= |m| && Settled(m, p, n, W) && 0 <= Num(m, p, n, W) < Pow(W, n)
    ensures NormAt(m, p, n, W)
  {
    hide Val;
    hide Pow;
    var t := m[p..p + n];
    assert t == t[..n - 1] + [t[n - 1]];
    ValSnoc(t[..n - 1], t[n - 1], W);
    ValBound(t[..n - 1], W);
    PowSucc(W, n - 1);
    PowPos(W, n - 1);
    if t[n - 1] >= W { MulMono(W, t[n - 1], Pow(W, n - 1)); }
    assert m[p + n - 1] == t[n - 1];
  }

  lemma CopiedNorm(m: seq<int>, m': seq<int>, d: nat, a: nat, n: nat, W: int)
    requires d + n <= |m'| && a + n <= |m| && NormAt(m, a, n, W) && forall i :: d <= i < d + n ==> m'[i] == m[i - d + a]
    ensures NormAt(m', d, n, W)
  {}

  lemma FramedModulus(m: seq<int>, m': seq<int>, r: nat, T: nat, t: nat, q: nat, p: nat, nd: nat, n: nat, W: int)
    requires Framed(m, m', r, T, t, q, n) && n >= 1 && p + n <= |m| && nd + n <= |m| && ModulusAt(m, p, nd, n, W)
    requires Apart(r, n, p, n) && Apart(T, 2 * n, p, n) && Apart(t, 2 * n, p, n) && Apart(q, n, p, n)
    requires Apart(r, n, nd, n) && Apart(T, 2 * n, nd, n) && Apart(t, 2 * n, nd, n) && Apart(q, n, nd, n)
    ensures ModulusAt(m', p, nd, n, W) && Num(m', p, n, W) == Num(m, p, n, W) && Num(m', nd, n, W) == Num(m, nd, n, W)
  {
    hide Cong;
    assert m'[p..p + n] == m[p..p + n] && m'[nd..nd + n] == m[nd..nd + n];
  }

  lemma FramedAll(m0: seq<int>, m1: seq<int>, m2: seq<int>, m3: seq<int>, m4: seq<int>, a: nat, d: nat, t: nat, q: nat, n: nat)
    requires SameBut(m0, m1, a, n) && SameBut(m1, m2, d, 2 * n) && Framed(m2, m3, a, d, t, q, n) && SameBut(m3, m4, a, n)
    ensures Framed(m0, m4, a, d, t, q, n)
  {}

  // ----- the ladder -----------------------------------------------------------------------------------

  /** FF_cswap. */
  method CondSwap(m: array<int>, a: nat, b: nat, d: int, n: nat, W: int)
    requires a + n <= m.Length && b + n <= m.Length && Apart(a, n, b, n)
    modifies m
    ensures SameBut2(old(m[..]), m[..], a, n, b, n)
    ensures Num(m[..], a, n, W) == old(if d == 1 then Num(m[..], b, n, W) else Num(m[..], a, n, W))
    ensures Num(m[..], b, n, W) == old(if d == 1 then Num(m[..], a, n, W) else Num(m[..], b, n, W))
  {
    hide Num;
    hide SwapDone;
    ghost var m0 := m[..];
    SwapBegins(m0, a, b, d, n);
    for i := 0 to n
      invariant |m0| == |m[..]| && SwapDone(m0, m[..], a, b, d, i, n)
    {
      ghost var m1 := m[..];
      if d == 1 { m[a + i], m[b + i] := m[b + i], m[a + i]; }
      SwapStep(m0, m1, m[..], a, b, d, i, n);
    }
    Swapped(m0, m[..], a, b, d, n, W);
  }

  /** The first i digits of a and b have been exchanged, if d is 1; nothing else has changed. */
  ghost predicate SwapDone(m: seq<int>, m': seq<int>, a: nat, b: nat, d: int, i: nat, n: nat)
    requires i <= n && a + n <= |m| && b + n <= |m| && |m| == |m'|
  {
    SameBut2(m, m', a, i, b, i) && (forall j :: 0 <= j < i ==> m'[a + j] == Other(m, a, b, d, j)) &&
    forall j :: 0 <= j < i ==> m'[b + j] == Other(m, b, a, d, j)
  }

  ghost function Other(m: seq<int>, a: nat, b: nat, d: int, j: nat): int
    requires a + j < |m| && b + j < |m|
  {
    if d == 1 then m[b + j] else m[a + j]
  }

  lemma SwapBegins(m: seq<int>, a: nat, b: nat, d: int, n: nat)
    requires a + n <= |m| && b + n <= |m|
    ensures SwapDone(m, m, a, b, d, 0, n)
  {}

  lemma SwapStep(m: seq<int>, m1: seq<int>, m2: seq<int>, a: nat, b: nat, d: int, i: nat, n: nat)
    requires i < n && a + n <= |m| && b + n <= |m| && |m| == |m1| && Apart(a, n, b, n) && SwapDone(m, m1, a, b, d, i, n)
    requires m2 == if d == 1 then m1[a + i := m1[b + i]][b + i := m1[a + i]] else m1
    ensures |m2| == |m| && SwapDone(m, m2, a, b, d, i + 1, n)
  {
    assert m1[a + i] == m[a + i] && m1[b + i] == m[b + i];
    forall j | 0 <= j < i + 1 ensures m2[a + j] == Other(m, a, b, d, j) {
      if j < i { assert m2[a + j] == m1[a + j]; }
    }
    forall j | 0 <= j < i + 1 ensures m2[b + j] == Other(m, b, a, d, j) {
      if j < i { assert m2[b + j] == m1[b + j]; }
    }
  }

  lemma Swapped(m: seq<int>, m': seq<int>, a: nat, b: nat, d: int, n: nat, W: int)
    requires |m| == |m'| && a + n <= |m| && b + n <= |m| && SwapDone(m, m', a, b, d, n, n)
    ensures SameBut2(m, m', a, n, b, n)
    ensures Num(m', a, n, W) == if d == 1 then Num(m, b, n, W) else Num(m, a, n, W)
    ensures Num(m', b, n, W) == if d == 1 then Num(m, a, n, W) else Num(m, b, n, W)
  {
    hide Val;
    var s, t := m'[a..a + n], m'[b..b + n];
    var x, y := m[a..a + n], m[b..b + n];
    forall j | 0 <= j < n ensures s[j] == (if d == 1 then y[j] else x[j]) && t[j] == if d == 1 then x[j] else y[j] {
      assert m'[a + j] == Other(m, a, b, d, j) && m'[b + j] == Other(m, b, a, d, j);
    }
    assert s == if d == 1 then y else x;
    assert t == if d == 1 then x else y;
  }

  /** The modulus, its inverse and the exponent are as they were. */
  ghost predicate Kept(m: seq<int>, m': seq<int>, L: Place)
    requires L.Fits(|m|)
  {
    |m'| == |m| && m'[L.p..L.p + L.n] == m[L.p..L.p + L.n] && m'[L.nd..L.nd + L.n] == m[L.nd..L.nd + L.n] &&
    m'[L.e..L.e + L.ne] == m[L.e..L.e + L.ne]
  }

  lemma SliceKept(m: seq<int>, m': seq<int>, a: nat, n: nat)
    requires |m| == |m'| && a + n <= |m| && forall i :: a <= i < a + n ==> m'[i] == m[i]
    ensures m'[a..a + n] == m[a..a + n]
  {}

  lemma UntouchedAt(m: seq<int>, m': seq<int>, x: nat, z: nat, d: nat, t: nat, q: nat, n: nat, a: nat, k: nat)
    requires Untouched(m, m', x, z, d, t, q, n) && a + k <= |m|
    requires Apart(x, n, a, k) && Apart(z, n, a, k) && Apart(d, 2 * n, a, k) && Apart(t, 2 * n, a, k) && Apart(q, n, a, k)
    ensures |m'| == |m| && m'[a..a + k] == m[a..a + k]
  {
    SliceKept(m, m', a, k);
  }

  /** The parameters lie apart from a register and from the working space. */
  ghost predicate FarFrom(L: Place, x: nat, k: nat) {
    Apart(x, k, L.p, L.n) && Apart(x, k, L.nd, L.n) && Apart(x, k, L.e, L.ne)
  }

  lemma RegisterFar(L: Place, x: nat)
    requires L.Disjoint() && (x == L.r0 || x == L.r1 || x == L.r)
    ensures FarFrom(L, x, L.n)
  {}

  lemma WorkFar(L: Place)
    requires L.Disjoint()
    ensures FarFrom(L, L.d, 2 * L.n) && FarFrom(L, L.t, 2 * L.n) && FarFrom(L, L.u, 2 * L.n) && FarFrom(L, L.q, L.n)
  {}

  lemma KeptUntouched(m: seq<int>, m': seq<int>, x: nat, z: nat, L: Place)
    requires L.Fits(|m|) && L.Disjoint() && Untouched(m, m', x, z, L.d, L.t, L.q, L.n)
    requires (x == L.r0 || x == L.r1 || x == L.r) && (z == L.r0 || z == L.r1 || z == L.r)
    ensures Kept(m, m', L)
  {
    hide Untouched;
    hide Apart;
    RegisterFar(L, x);
    RegisterFar(L, z);
    WorkFar(L);
    UntouchedAt(m, m', x, z, L.d, L.t, L.q, L.n, L.p, L.n);
    UntouchedAt(m, m', x, z, L.d, L.t, L.q, L.n, L.nd, L.n);
    UntouchedAt(m, m', x, z, L.d, L.t, L.q, L.n, L.e, L.ne);
  }

  lemma SameBut2At(m: seq<int>, m': seq<int>, x: nat, y: nat, n: nat, a: nat, k: nat)
    requires SameBut2(m, m', x, n, y, n) && a + k <= |m| && Apart(x, n, a, k) && Apart(y, n, a, k)
    ensures |m'| == |m| && m'[a..a + k] == m[a..a + k]
  {
    SliceKept(m, m', a, k);
  }

  lemma KeptTwo(m: seq<int>, m': seq<int>, a: nat, b: nat, L: Place)
    requires L.Fits(|m|) && L.Disjoint() && SameBut2(m, m', a, L.n, b, L.n)
    requires (a == L.r0 || a == L.r1 || a == L.r) && (b == L.r0 || b == L.r1 || b == L.r)
    ensures Kept(m, m', L)
  {
    hide SameBut2;
    hide Apart;
    RegisterFar(L, a);
    RegisterFar(L, b);
    SameBut2At(m, m', a, b, L.n, L.p, L.n);
    SameBut2At(m, m', a, b, L.n, L.nd, L.n);
    SameBut2At(m, m', a, b, L.n, L.e, L.ne);
  }

  lemma SameBut4At(m: seq<int>, m': seq<int>, x: nat, n: nat, d: nat, t: nat, u: nat, a: nat, k: nat)
    requires SameBut4(m, m', x, n, d, t, u) && a + k <= |m|
    requires Apart(x, n, a, k) && Apart(d, 2 * n, a, k) && Apart(t, 2 * n, a, k) && Apart(u, 2 * n, a, k)
    ensures |m'| == |m| && m'[a..a + k] == m[a..a + k]
  {
    SliceKept(m, m', a, k);
  }

  lemma KeptFour(m: seq<int>, m': seq<int>, a: nat, L: Place)
    requires L.Fits(|m|) && L.Disjoint() && SameBut4(m, m', a, L.n, L.d, L.t, L.u)
    requires a == L.r0 || a == L.r1 || a == L.r
    ensures Kept(m, m', L)
  {
    hide SameBut4;
    hide Apart;
    RegisterFar(L, a);
    WorkFar(L);
    SameBut4At(m, m', a, L.n, L.d, L.t, L.u, L.p, L.n);
    SameBut4At(m, m', a, L.n, L.d, L.t, L.u, L.nd, L.n);
    SameBut4At(m, m', a, L.n, L.d, L.t, L.u, L.e, L.ne);
  }

  /** Taking one register into the domain leaves the other alone. */
  lemma OtherKept(m: seq<int>, m': seq<int>, a: nat, o: nat, L: Place, W: int)
    requires L.Fits(|m|) && L.Disjoint() && SameBut4(m, m', a, L.n, L.d, L.t, L.u) && Apart(a, L.n, o, L.n)
    requires (o == L.r0 || o == L.r1 || o == L.r) && o + L.n <= |m|
    ensures |m'| == |m| && Num(m', o, L.n, W) == Num(m, o, L.n, W)
  {
    hide SameBut4;
    hide Apart;
    hide Val;
    RegisterWork(L, o);
    SameBut4At(m, m', a, L.n, L.d, L.t, L.u, o, L.n);
  }

  lemma RegisterWork(L: Place, o: nat)
    requires L.Disjoint() && (o == L.r0 || o == L.r1 || o == L.r)
    ensures Apart(L.d, 2 * L.n, o, L.n) && Apart(L.t, 2 * L.n, o, L.n) && Apart(L.u, 2 * L.n, o, L.n) && Apart(L.q, L.n, o, L.n)
  {}

  lemma KeptTrans(m: seq<int>, m1: seq<int>, m2: seq<int>, L: Place)
    requires L.Fits(|m|) && Kept(m, m1, L) && Kept(m1, m2, L)
    ensures Kept(m, m2, L)
  {}

  lemma KeptMeans(m: seq<int>, m': seq<int>, L: Place, W: int)
    requires L.Fits(|m|) && L.n >= 1 && Kept(m, m', L)
    ensures Num(m', L.p, L.n, W) == Num(m, L.p, L.n, W) && Num(m', L.nd, L.n, W) == Num(m, L.nd, L.n, W)
    ensures Num(m', L.e, L.ne, W) == Num(m, L.e, L.ne, W)
    ensures ModulusAt(m, L.p, L.nd, L.n, W) ==> ModulusAt(m', L.p, L.nd, L.n, W)
  {
    hide Val;
    hide Cong;
    forall i | L.p <= i < L.p + L.n ensures m'[i] == m[i] {
      assert m'[L.p..L.p + L.n][i - L.p] == m[L.p..L.p + L.n][i - L.p];
    }
  }

  lemma LayoutOf(L: Place, len: nat, z: nat)
    requires L.Fits(len) && L.Disjoint() && (z == L.r0 || z == L.r1 || z == L.r)
    ensures Layout(len, z, L.d, L.p, L.nd, L.t, L.q, L.n) && Operand(len, z, L.d, L.p, L.nd, L.t, L.q, L.n)
  {}

  lemma RegistersApart(L: Place)
    requires L.Disjoint()
    ensures Apart(L.r0, L.n, L.r1, L.n) && Apart(L.r1, L.n, L.r0, L.n) && Apart(L.r0, L.n, L.r, L.n) && Apart(L.r, L.n, L.r0, L.n)
    ensures Apart(L.r1, L.n, L.r, L.n) && Apart(L.r, L.n, L.r1, L.n)
  {}

  /** The number N at p and its inverse ND at nd make a Montgomery domain. */
  ghost predicate InDomain(m: seq<int>, L: Place, W: int, N: int, ND: int)
    requires L.Fits(|m|) && L.n >= 1
  {
    ModulusAt(m, L.p, L.nd, L.n, W) && Num(m, L.p, L.n, W) == N && Num(m, L.nd, L.n, W) == ND && Modulus(N, ND, Pow(W, L.n))
  }

  lemma DomainKept(m: seq<int>, m': seq<int>, L: Place, W: int, N: int, ND: int)
    requires L.Fits(|m|) && L.n >= 1 && Kept(m, m', L) && InDomain(m, L, W, N, ND)
    ensures InDomain(m', L, W, N, ND)
  {
    hide Kept;
    hide ModulusAt;
    hide Modulus;
    KeptMeans(m, m', L, W);
  }

  /** Register a stands for x^h. */
  ghost predicate Holds(m: seq<int>, L: Place, a: nat, W: int, x: int, h: nat, N: int)
    requires a + L.n <= |m|
  {
    Stands(Num(m, a, L.n, W), x, h, Pow(W, L.n), N)
  }

  /** The ladder's account: r0 stands for x^h and r1 for x^(h+1). */
  ghost predicate OnLadder(m: seq<int>, L: Place, W: int, x: int, h: nat, N: int, ND: int)
    requires L.Fits(|m|) && L.n >= 1
  {
    InDomain(m, L, W, N, ND) && Holds(m, L, L.r0, W, x, h, N) && Holds(m, L, L.r1, W, x, h + 1, N)
  }

  /** A register that a modular multiplication neither reads in place nor writes keeps its number. */
  lemma RegisterKept(m: seq<int>, m': seq<int>, a: nat, x: nat, z: nat, L: Place, W: int)
    requires L.Fits(|m|) && L.Disjoint() && Untouched(m, m', x, z, L.d, L.t, L.q, L.n) && a + L.n <= |m|
    requires (a == L.r0 || a == L.r1 || a == L.r) && Apart(x, L.n, a, L.n) && Apart(z, L.n, a, L.n)
    ensures |m'| == |m| && Num(m', a, L.n, W) == Num(m, a, L.n, W)
  {
    RegisterWork(L, a);
    hide Val;
    hide Untouched;
    hide Apart;
    UntouchedAt(m, m', x, z, L.d, L.t, L.q, L.n, a, L.n);
  }

  /** One ladder round on the digits. */
  method FfLadderRound(m: array<int>, L: Place, b: int, W: int, C: int, fe: int, ghost x: int, ghost h: nat, ghost N: int, ghost ND: int)
    requires W >= 2 && W % 2 == 0 && C >= 1 && C % W == 0 && PowerOfTwo(L.n) && L.n >= 2 && L.Fits(m.Length) && L.Disjoint()
    requires 0 <= b <= 1 && OnLadder(m[..], L, W, x, h, N, ND)
    modifies m
    ensures Kept(old(m[..]), m[..], L) && OnLadder(m[..], L, W, x, 2 * h + b, N, ND)
  {
    hide Num;
    hide Pow;
    hide Cong;
    hide NormAt;
    hide Stands;
    hide MontProduct;
    hide Modulus;
    hide ModulusAt;
    hide Layout;
    hide Operand;
    hide Untouched;
    hide Kept;
    var n := L.n;
    ghost var m0, R := m[..], Pow(W, n);
    LayoutOf(L, m.Length, L.r);
    LayoutOf(L, m.Length, L.r0);
    LayoutOf(L, m.Length, L.r1);
    RegistersApart(L);
    StandsParts(Num(m0, L.r0, n, W), x, h, R, N);
    StandsParts(Num(m0, L.r1, n, W), x, h + 1, R, N);
    FfModMul(m, L.r, L.r0, L.r1, L.p, L.nd, L.d, L.t, L.q, n, W, C, fe);
    ghost var m1 := m[..];
    KeptUntouched(m0, m1, L.r0, L.r, L);
    KeptMeans(m0, m1, L, W);
    RegisterKept(m0, m1, L.r1, L.r0, L.r, L, W);
    ExponentsAdd(Num(m1, L.r, n, W), Num(m0, L.r0, n, W), Num(m0, L.r1, n, W), x, h, h + 1, N, ND, R);
    StandsCong(Num(m1, L.r0, n, W), Num(m0, L.r0, n, W), x, h, R, N);
    FinishRound(m, L, b, W, C, fe, x, h, N, ND);
    KeptTrans(m0, m1, m[..], L);
  }

  lemma StandsParts(v: int, x: int, e: nat, R: int, N: int)
    requires Stands(v, x, e, R, N)
    ensures v >= 0 && N > 0
  {}

  /** The second half of a round: the swaps, the squaring and the copy. */
  method FinishRound(m: array<int>, L: Place, b: int, W: int, C: int, fe: int, ghost x: int, ghost h: nat, ghost N: int, ghost ND: int)
    requires W >= 2 && W % 2 == 0 && C >= 1 && C % W == 0 && PowerOfTwo(L.n) && L.n >= 2 && L.Fits(m.Length) && L.Disjoint()
    requires 0 <= b <= 1 && OnLadder(m[..], L, W, x, h, N, ND) && Stands(Num(m[..], L.r, L.n, W), x, h + (h + 1), Pow(W, L.n), N)
    modifies m
    ensures Kept(old(m[..]), m[..], L) && OnLadder(m[..], L, W, x, 2 * h + b, N, ND)
  {
    hide Num;
    hide Pow;
    hide Cong;
    hide NormAt;
    hide Stands;
    hide MontProduct;
    hide Modulus;
    hide ModulusAt;
    hide Layout;
    hide Operand;
    hide Untouched;
    hide Kept;
    var n := L.n;
    ghost var m0, R, g := m[..], Pow(W, n), h + b;
    RegistersApart(L);
    LayoutOf(L, m.Length, L.r0);
    CondSwap(m, L.r0, L.r1, b, n, W);
    ghost var m1 := m[..];
    KeptTwo(m0, m1, L.r0, L.r1, L);
    KeptMeans(m0, m1, L, W);
    NumKept2(m0, m1, L.r0, n, L.r1, n, L.r, n, W);
    StandsParts(Num(m1, L.r0, n, W), x, g, R, N);
    FfModSqr(m, L.r0, L.r0, L.p, L.nd, L.d, L.t, L.q, n, W, C, fe);
    ghost var m2 := m[..];
    KeptUntouched(m1, m2, L.r0, L.r0, L);
    KeptTrans(m0, m1, m2, L);
    RegisterKept(m1, m2, L.r, L.r0, L.r0, L, W);
    ExponentsAdd(Num(m2, L.r0, n, W), Num(m1, L.r0, n, W), Num(m1, L.r0, n, W), x, g, g, N, ND, R);
    Copy(m, L.r1, L.r, n, W);
    ghost var m3 := m[..];
    OneChange(m2, m3, L.r1, n);
    KeptTwo(m2, m3, L.r1, L.r1, L);
    KeptTrans(m0, m2, m3, L);
    NumKept(m2, m3, L.r1, n, L.r0, n, W);
    CondSwap(m, L.r0, L.r1, b, n, W);
    KeptTwo(m3, m[..], L.r0, L.r1, L);
    KeptTrans(m0, m3, m[..], L);
    KeptMeans(m0, m[..], L, W);
  }

  lemma ExponentKept(m: seq<int>, m': seq<int>, L: Place, W: int)
    requires L.Fits(|m|) && Kept(m, m', L) && NormAt(m, L.e, L.ne, W)
    ensures NormAt(m', L.e, L.ne, W)
  {
    forall i | L.e <= i < L.e + L.ne ensures m'[i] == m[i] {
      assert m'[L.e..L.e + L.ne][i - L.e] == m[L.e..L.e + L.ne][i - L.e];
    }
  }

  /** Bit i of the number at e, as MCL_BIG_bit(e[i/BIGBITS], i%BIGBITS) reads it. */
  method ExponentBit(m: array<int>, e: nat, i: nat, bb: nat, n: nat, W: int) returns (b: int)
    requires bb >= 1 && W == Pow(2, bb) && W >= 2 && e + n <= m.Length && NormAt(m[..], e, n, W) && i < n * bb
    ensures 0 <= b <= 1 && Pow(2, i) > 0 && Pow(2, i + 1) > 0
    ensures Num(m[..], e, n, W) / Pow(2, i) == 2 * (Num(m[..], e, n, W) / Pow(2, i + 1)) + b
  {
    hide Num;
    hide Pow;
    RsaShiftAdd.IndexSplit(i, bb, n);
    var p := RsaShiftAdd.PowerOfTwo(i % bb);
    b := (m[e + i / bb] / p) % 2;
    BitOfNumber(m[..], e, i / bb, i % bb, bb, n, W);
    BelowR(m[..], e, n, W);
    HalveQuotient(Num(m[..], e, n, W), i);
  }

  lemma BitOfNumber(m: seq<int>, e: nat, el: nat, bp: nat, bb: nat, n: nat, W: int)
    requires bb >= 1 && W == Pow(2, bb) && W >= 2 && e + n <= |m| && NormAt(m, e, n, W) && el < n && bp < bb
    ensures Pow(2, bp) > 0 && Pow(2, el * bb + bp) > 0
    ensures (m[e + el] / Pow(2, bp)) % 2 == (Num(m, e, n, W) / Pow(2, el * bb + bp)) % 2
  {
    hide Val;
    hide Pow;
    NumIs(m, e, n, W);
    assert m[e..e + n][el] == m[e + el];
    RsaShiftAdd.BitOfValue(m[e..e + n], el, bp, bb, W);
  }

  lemma KeptOne(m: seq<int>, m': seq<int>, a: nat, L: Place)
    requires L.Fits(|m|) && L.Disjoint() && SameBut(m, m', a, L.n) && (a == L.r0 || a == L.r1 || a == L.r)
    ensures Kept(m, m', L)
  {
    hide Kept;
    OneChange(m, m', a, L.n);
    KeptTwo(m, m', a, a, L);
  }

  lemma NresLayout(L: Place, a: nat)
    requires L.Disjoint() && (a == L.r0 || a == L.r1 || a == L.r)
    ensures Apart(a, L.n, L.p, L.n) && Apart(a, L.n, L.d, 2 * L.n) && Apart(a, L.n, L.t, 2 * L.n) && Apart(a, L.n, L.u, 2 * L.n)
    ensures Apart(L.d, 2 * L.n, L.p, L.n) && Apart(L.d, 2 * L.n, L.u, 2 * L.n) && Apart(L.u, 2 * L.n, L.p, L.n)
    ensures Apart(L.t, 2 * L.n, L.p, L.n) && Apart(L.t, 2 * L.n, L.u, 2 * L.n)
  {}

  lemma KeptFramed(m: seq<int>, m': seq<int>, a: nat, L: Place)
    requires L.Fits(|m|) && L.Disjoint() && Framed(m, m', a, L.d, L.t, L.q, L.n) && (a == L.r0 || a == L.r1 || a == L.r)
    ensures Kept(m, m', L)
  {
    hide Framed;
    hide Apart;
    RegisterFar(L, a);
    WorkFar(L);
    FramedAt(m, m', a, L.d, L.t, L.q, L.n, L.p, L.n);
    FramedAt(m, m', a, L.d, L.t, L.q, L.n, L.nd, L.n);
    FramedAt(m, m', a, L.d, L.t, L.q, L.n, L.e, L.ne);
  }

  lemma FramedAt(m: seq<int>, m': seq<int>, x: nat, d: nat, t: nat, q: nat, n: nat, a: nat, k: nat)
    requires Framed(m, m', x, d, t, q, n) && a + k <= |m|
    requires Apart(x, n, a, k) && Apart(d, 2 * n, a, k) && Apart(t, 2 * n, a, k) && Apart(q, n, a, k)
    ensures |m'| == |m| && m'[a..a + k] == m[a..a + k]
  {
    SliceKept(m, m', a, k);
  }
}
