/**
 * Reduction modulo 2^m - c and modulo 2^m - 2^(m/2) - 1 on limb arrays. M stands for 2^m, whose bit falls inside the top
 * limb: M = B^(n-1) * 2^s, R = B^n = M * F.
 */
module SpecialModulus {
  import opened Arith
  import opened Bits
  import opened Digits
  import opened Limbs

  // ----- what the two reductions compute ------------------------------------------------------

  /** The top half t of a number, folded in with factor c, and what then sticks out above M folded in once more. */
  ghost function PseudoFold(t: int, M: int, c: int): int
    requires M > 0
  {
    (t * c) % M + c * ((t * c) / M)
  }

  ghost function PseudoValue(d: int, M: int, c: int): int
    requires M > 0
  {
    PseudoFold(d / M, M, c) + d % M
  }

  /** The same for H*H - H - 1: t, t*H folded, and its overflow shifted by half once more. */
  ghost function GeneralisedFold(t: int, H: int): int
    requires H > 0
  {
    MulMono(1, H, H);
    var t1, b1 := t * H / (H * H), t * H % (H * H);
    t + t1 + b1 + t1 * H
  }

  ghost function GeneralisedValue(d: int, H: int): int
    requires H > 0
  {
    MulMono(1, H, H);
    GeneralisedFold(d / (H * H), H) + d % (H * H)
  }

  lemma PseudoCong(d: int, M: int, c: int)
    requires 0 < c < M
    ensures Cong(PseudoValue(d, M, c), d, M - c)
  {
    var t, b := d / M, d % M;
    var h, l := (t * c) / M, (t * c) % M;
    SplitBack(d, M, t, b);
    SplitBack(t * c, M, h, l);
    FoldOnce(d, l + c * h + b, t, b, h, l, c, M);
    CongFrom(d, PseudoValue(d, M, c), t + h, M - c);
  }

  lemma FoldOnce(d: int, r: int, t: int, b: int, h: int, l: int, c: int, M: int)
    requires d == t * M + b && t * c == h * M + l && r == l + c * h + b
    ensures d == r + (t + h) * (M - c)
  {
    assert (t + h) * (M - c) == t * M - t * c + h * M - c * h;
  }

  lemma GeneralisedCong(d: int, H: int)
    requires H >= 2
    ensures H * H - H - 1 > 0 && Cong(GeneralisedValue(d, H), d, H * H - H - 1)
  {
    MulMono(2, H, H);
    var q := H * H;
    var t, b := d / q, d % q;
    var t1, b1 := (t * H) / q, (t * H) % q;
    SplitBack(d, q, t, b);
    SplitBack(t * H, q, t1, b1);
    FoldTwice(d, GeneralisedValue(d, H), t, b, t1, b1, H, q);
    CongFrom(d, GeneralisedValue(d, H), t + t1, q - H - 1);
  }

  lemma SplitBack(d: int, q: int, t: int, b: int)
    requires q > 0 && t == d / q && b == d % q
    ensures d == t * q + b
  {}

  lemma FoldTwice(d: int, r: int, t: int, b: int, t1: int, b1: int, H: int, q: int)
    requires d == t * q + b && t * H == t1 * q + b1 && r == t + t1 + b1 + t1 * H + b
    ensures d == r + (t + t1) * (q - H - 1)
  {
    assert (t + t1) * (q - H - 1) == t * q - t * H - t + t1 * q - t1 * H - t1;
  }

  // ----- size -------------------------------------------------------------------------------------

  /** With d < p*R the result is below 2^(m+1) plus what the second fold adds. */
  lemma PseudoSize(d: int, M: int, c: int, F: int)
    requires 0 < c < M && F >= 1 && 0 <= d < (M - c) * (M * F)
    ensures 0 <= PseudoValue(d, M, c) < 2 * M + c * (c * F)
  {
    var t, b := d / M, d % M;
    SplitBack(d, M, t, b);
    TopBound(t, b, d, M, c, F);
    var q := (t * c) / M;
    SplitBack(t * c, M, q, (t * c) % M);
    FoldBound(t, q, (t * c) % M, M, c, F);
    MulMono(0, q, c);
    MulMono(q, c * F, c);
    assert q * c == c * q && (c * F) * c == c * (c * F);
  }

  lemma TopBound(t: int, b: int, d: int, M: int, c: int, F: int)
    requires 0 < c < M && F >= 1 && 0 <= d < (M - c) * (M * F) && d == t * M + b && 0 <= b < M
    ensures 0 <= t < M * F
  {
    var MF := M * F;
    assert M * MF == MF * M;
    MulMono(1, M, F);
    MulMono(M - c, M, MF);
    if t < 0 { MulMono(t, -1, M); }
    if t >= MF { MulMono(MF, t, M); }
  }

  lemma FoldBound(t: int, q: int, l: int, M: int, c: int, F: int)
    requires 0 <= t < M * F && c > 0 && M > 0 && t * c == q * M + l && 0 <= l < M
    ensures 0 <= q <= c * F
  {
    MulMono(0, t, c);
    MulMono(t, M * F, c);
    assert (M * F) * c == (c * F) * M;
    assert (c * F + 1) * M == (c * F) * M + M;
    if q > c * F { MulMono(c * F + 1, q, M); }
    if q < 0 { MulMono(q, -1, M); }
  }

  /** The top half at which the fold first exceeds M. */
  function PseudoTop(M: int, c: int): int
    requires c > 0
  {
    if 2 * M % c != 0 then (2 * M - 1) / c else 3 * M / c - 1
  }

  /** The first operand whose result takes more than m + 1 bits. */
  function PseudoLimit(M: int, c: int): int
    requires c > 0
  {
    if 2 * M % c != 0 then PseudoTop(M, c) * M + 3 * M - c - PseudoTop(M, c) * c else PseudoTop(M, c) * M + M - c
  }

  /** All operands below X give at most m + 1 bits if and only if X is at most the limit; M is 2^m. */
  lemma PseudoFits(X: int, m: nat, M: int, c: int)
    requires M == Pow(2, m) && 0 < c < M
    ensures (forall d :: 0 <= d < X ==> PseudoValue(d, M, c) < 2 * M) <==> X <= PseudoLimit(M, c)
  {
    hide Pow;
    hide PseudoValue;
    hide PseudoLimit;
    if 2 * M % c == 0 { PowerDivisor(m, c); }
    AtPseudoLimit(M, c);
    forall d | 0 <= d < PseudoLimit(M, c) ensures PseudoValue(d, M, c) < 2 * M { BelowPseudoLimit(d, M, c); }
  }

  lemma AtPseudoLimit(M: int, c: int)
    requires 0 < c < M && (2 * M % c == 0 ==> M % c == 0)
    ensures PseudoLimit(M, c) >= 0 && PseudoValue(PseudoLimit(M, c), M, c) == 2 * M
  {
    var T := PseudoTop(M, c);
    TopTimes(M, c);
    if 2 * M % c != 0 {
      ValueIs(T, 3 * M - c - T * c, 1, T * c - M, M, c);
    } else {
      ValueIs(T, M - c, 2, T * c - 2 * M, M, c);
    }
    MulMono(0, T, M);
  }

  /** c times that top half: just below 2M, or just below 3M when c divides M. */
  lemma TopTimes(M: int, c: int)
    requires 0 < c < M && (2 * M % c == 0 ==> M % c == 0)
    ensures PseudoTop(M, c) >= 0
    ensures 2 * M % c != 0 ==> 2 * M - c < PseudoTop(M, c) * c < 2 * M
    ensures 2 * M % c == 0 ==> PseudoTop(M, c) == 3 * (M / c) - 1 && c * (M / c) == M && PseudoTop(M, c) * c == 3 * M - c
  {
    if 2 * M % c != 0 { TopShort(PseudoTop(M, c), M, c); } else { TopDividing(PseudoTop(M, c), M, c); }
  }

  lemma TopShort(T: int, M: int, c: int)
    requires 0 < c < M && 2 * M % c != 0 && T == (2 * M - 1) / c
    ensures T >= 0 && 2 * M - c < T * c < 2 * M
  {
    var r := (2 * M - 1) % c;
    SplitBack(2 * M - 1, c, T, r);
    QuotientNotNegative(T, r, c, 2 * M - 1);
    if r == c - 1 {
      assert (T + 1) * c == T * c + c;
      DivModUnique(2 * M, T + 1, 0, c);
    }
  }

  lemma TopDividing(T: int, M: int, c: int)
    requires 0 < c < M && M % c == 0 && T == 3 * M / c - 1
    ensures T >= 0 && T == 3 * (M / c) - 1 && c * (M / c) == M && T * c == 3 * M - c
  {
    var g := M / c;
    SplitBack(M, c, g, 0);
    assert g * c == c * g && (3 * g) * c == 3 * (g * c);
    DivModUnique(3 * M, 3 * g, 0, c);
    assert (3 * g - 1) * c == (3 * g) * c - c;
    QuotientNotNegative(T, 0, c, 3 * M - c);
  }

  lemma QuotientNotNegative(t: int, r: int, c: int, x: int)
    requires c >= 1 && x >= 0 && t * c + r == x && 0 <= r < c
    ensures t >= 0
  {
    if t < 0 { MulMono(t, -1, c); }
  }

  lemma ValueIs(t: int, b: int, q: int, l: int, M: int, c: int)
    requires M > 0 && 0 <= b < M && 0 <= l < M && t * c == q * M + l
    ensures PseudoValue(t * M + b, M, c) == l + c * q + b
  {
    DivModUnique(t * M + b, t, b, M);
    DivModUnique(t * c, q, l, M);
  }

  lemma BelowPseudoLimit(d: int, M: int, c: int)
    requires 0 < c < M && (2 * M % c == 0 ==> M % c == 0) && 0 <= d < PseudoLimit(M, c)
    ensures PseudoValue(d, M, c) < 2 * M
  {
    hide PseudoValue;
    hide PseudoTop;
    var T, t, b := PseudoTop(M, c), d / M, d % M;
    var q, l := t * c / M, t * c % M;
    SplitBack(d, M, t, b);
    SplitBack(t * c, M, q, l);
    TopTimes(M, c);
    ValueIs(t, b, q, l, M, c);
    AtMostTop(t, b, T, PseudoLimit(M, c) - T * M, M);
    var e := if 2 * M % c != 0 then 1 else 2;
    if t == T {
      DivModUnique(t * c, e, T * c - e * M, M);
    } else {
      NextTop(t, T, c);
      if e == 1 { FoldSmall(t * c, q, l, M, c); } else { FoldSmallDividing(t, q, l, M, c, M / c); }
    }
  }

  lemma NextTop(t: int, T: int, c: int)
    requires 0 <= t < T && c > 0
    ensures 0 <= t * c <= T * c - c
  {
    MulMono(t + 1, T, c);
    assert (t + 1) * c == t * c + c;
    MulMono(0, t, c);
  }

  lemma AtMostTop(t: int, b: int, T: int, b': int, M: int)
    requires M > 0 && 0 <= t * M + b < T * M + b' && 0 <= b < M && 0 <= b' < M
    ensures 0 <= t <= T && (t == T ==> b < b')
  {
    if t < 0 { MulMono(t, -1, M); }
    if t > T { MulMono(T + 1, t, M); }
  }

  lemma FoldSmall(tc: int, q: int, l: int, M: int, c: int)
    requires 0 < c < M && 0 <= tc < 2 * M - c && tc == q * M + l && 0 <= l < M
    ensures l + c * q <= M
  {
    if q >= 2 { MulMono(2, q, M); }
    if q < 0 { MulMono(q, -1, M); }
  }

  lemma FoldSmallDividing(t: int, q: int, l: int, M: int, c: int, g: int)
    requires 0 < c < M && 0 <= t * c <= 3 * M - 2 * c && t * c == q * M + l && 0 <= l < M && M == c * g
    ensures l + c * q <= M
  {
    if q >= 3 { MulMono(3, q, M); }
    if q < 0 { MulMono(q, -1, M); }
    if q == 1 {
      assert (2 * g) * c == 2 * M && (t + 1) * c == t * c + c;
      if t + 1 > 2 * g { MulMono(2 * g, t, c); }
      MulMono(t + 1, 2 * g, c);
    }
  }

  /**
   * The promised size for all operands below p*R, R being F times 2^m: kept if and only if c is 1 and R leaves less than
   * two bits of head room.
   */
  lemma PseudoPromise(m: nat, M: int, c: int, F: int)
    requires M == Pow(2, m) && c >= 1 && 2 * c <= M && M >= 8 && F >= 2
    ensures (forall d :: 0 <= d < (M - c) * (M * F) ==> PseudoValue(d, M, c) < 2 * M) <==> c == 1 && F <= 3
  {
    hide Pow;
    hide PseudoValue;
    PseudoFits((M - c) * (M * F), m, M, c);
    if 2 * M % c == 0 { PowerDivisor(m, c); }
    TopTimes(M, c);
    var T := PseudoTop(M, c);
    var b := PseudoLimit(M, c) - T * M;
    if c == 1 { DividedByOne(M); }
    hide PseudoTop;
    hide PseudoLimit;
    LimitAgainst(T, b, M, c, F);
  }

  lemma LimitAgainst(T: int, b: int, M: int, c: int, F: int)
    requires c >= 1 && 2 * c <= M && M >= 8 && F >= 2 && 0 <= b < M && T * c <= 3 * M - c && (c == 1 ==> T == 3 * M - 1)
    ensures (M - c) * (M * F) <= T * M + b <==> c == 1 && F <= 3
  {
    var Y := (M - c) * F;
    assert (M - c) * (M * F) == Y * M && Y == F * (M - c);
    if c == 1 {
      if F >= 4 { MulMono(4, F, M - 1); } else { MulMono(F, 3, M - 1); }
    } else {
      LowTop(T, M, c);
      MulMono(2, F, M - c);
    }
    if T + 1 <= Y {
      MulMono(T + 1, Y, M);
      assert (T + 1) * M == T * M + M;
    } else {
      MulMono(Y, T, M);
    }
  }

  lemma DividedByOne(M: int)
    ensures 2 * M % 1 == 0 && M / 1 == M
  {}

  lemma LowTop(T: int, M: int, c: int)
    requires c >= 2 && 2 * c <= M && M >= 8 && T * c <= 3 * M - c
    ensures T + 1 <= 2 * (M - c)
  {
    var Y := 2 * (M - c);
    assert c * Y == Y * c;
    if c >= 3 { MulMono(3, c, Y); }
    if T >= Y { MulMono(Y, T, c); }
  }

  /** With t = t1*H + u the fold is 2*t1*H + t1 + u*(H + 1). */
  lemma GeneralisedFoldIs(t: int, H: int)
    requires H >= 1
    ensures var t1, u := t / H, t % H;
      GeneralisedFold(t, H) == 2 * (t1 * H) + t1 + u * (H + 1)
  {
    MulMono(1, H, H);
    var t1, u := t / H, t % H;
    SplitBack(t, H, t1, u);
    assert t * H == t1 * (H * H) + u * H by { assert (t1 * H + u) * H == t1 * H * H + u * H; }
    MulMono(0, u, H);
    MulMono(u, H - 1, H);
    assert (H - 1) * H == H * H - H;
    DivModUnique(t * H, t1, u * H, H * H);
    assert u * (H + 1) == u * H + u;
  }

  /** For d below F*M*M the result is below 2*(F + 1)*M + F*H, which is 4*M for the product of two residues. */
  lemma GeneralisedSize(d: int, H: int, F: int, M: int)
    requires H >= 2 && F >= 1 && M == H * H && 0 <= d < (F * M) * M
    ensures 0 <= GeneralisedValue(d, H) < 2 * (F * M) + 2 * M + F * H
  {
    MulMono(2, H, H);
    var FM := F * M;
    var t, b := d / M, d % M;
    SplitBack(d, M, t, b);
    TopBelow(t, b, d, FM, M);
    FoldRange(t, H, F, M);
    assert GeneralisedValue(d, H) == GeneralisedFold(t, H) + b by { hide GeneralisedFold; }
  }

  lemma FoldRange(t: int, H: int, F: int, M: int)
    requires H >= 2 && M == H * H && 0 <= t < F * M
    ensures 0 <= GeneralisedFold(t, H) < 2 * (F * M) + M + F * H
  {
    hide GeneralisedFold;
    GeneralisedFoldIs(t, H);
    SplitBack(t, H, t / H, t % H);
    FoldBelow(t, t / H, t % H, H, F, M);
  }

  lemma TopBelow(t: int, b: int, d: int, X: int, M: int)
    requires M > 0 && 0 <= d < X * M && d == t * M + b && 0 <= b < M
    ensures 0 <= t < X
  {
    if t < 0 { MulMono(t, -1, M); }
    if t >= X { MulMono(X, t, M); }
  }

  lemma FoldBelow(t: int, t1: int, u: int, H: int, F: int, M: int)
    requires H >= 2 && M == H * H && 0 <= t < F * M && t == t1 * H + u && 0 <= u < H
    ensures 0 <= 2 * (t1 * H) + t1 + u * (H + 1) < 2 * (F * M) + M + F * H
  {
    var FH := F * H;
    assert F * M == FH * H;
    TopBelow(t1, u, t, FH, H);
    MulMono(0, t1, H);
    MulMono(t1, FH, H);
    MulMono(0, u, H + 1);
    MulMono(u, H - 1, H + 1);
    assert (H - 1) * (H + 1) == H * H - 1;
  }

  /** The first operand whose result takes more than m + 1 bits. */
  function GeneralisedLimit(H: int): int { (2 * H - 2) * (H * H) + (H * H - H + 1) }

  /** All operands below X give at most m + 1 bits if and only if X is at most 2*H^3 - H^2 - H + 1. */
  lemma GeneralisedFits(X: int, H: int)
    requires H >= 4
    ensures GeneralisedLimit(H) == 2 * H * H * H - H * H - H + 1
    ensures (forall d :: 0 <= d < X ==> GeneralisedValue(d, H) < 2 * (H * H)) <==> X <= GeneralisedLimit(H)
  {
    hide GeneralisedValue;
    hide GeneralisedLimit;
    LimitCubic(H);
    AtGeneralisedLimit(H);
    forall d | 0 <= d < GeneralisedLimit(H) ensures GeneralisedValue(d, H) < 2 * (H * H) { BelowGeneralisedLimit(d, H); }
  }

  lemma LimitCubic(H: int)
    ensures GeneralisedLimit(H) == 2 * H * H * H - H * H - H + 1
  {
    var M := H * H;
    assert (2 * H - 2) * M == 2 * (H * M) - 2 * M && 2 * H * H * H == 2 * (H * M);
  }

  lemma AtGeneralisedLimit(H: int)
    requires H >= 4
    ensures GeneralisedLimit(H) >= 0 && GeneralisedValue(GeneralisedLimit(H), H) == 2 * (H * H)
  {
    hide GeneralisedFold;
    MulMono(4, H, H);
    MulMono(0, 2 * H - 2, H * H);
    GeneralisedFoldIs(2 * H - 2, H);
    DivModUnique(2 * H - 2, 1, H - 2, H);
    assert (H - 2) * (H + 1) == H * H - H - 2;
    DivModUnique(GeneralisedLimit(H), 2 * H - 2, H * H - H + 1, H * H);
  }

  lemma BelowGeneralisedLimit(d: int, H: int)
    requires H >= 4 && 0 <= d < GeneralisedLimit(H)
    ensures GeneralisedValue(d, H) < 2 * (H * H)
  {
    hide GeneralisedFold;
    MulMono(4, H, H);
    var t, b := d / (H * H), d % (H * H);
    SplitBack(d, H * H, t, b);
    AtMostTop(t, b, 2 * H - 2, H * H - H + 1, H * H);
    GeneralisedFoldIs(t, H);
    if t >= H {
      DivModUnique(t, 1, t - H, H);
      MulMono(t - H, if t == 2 * H - 2 then H - 2 else H - 3, H + 1);
      assert (H - 2) * (H + 1) == H * H - H - 2 && (H - 3) * (H + 1) == H * H - 2 * H - 3;
    } else {
      DivModUnique(t, 0, t, H);
      MulMono(t, H - 1, H + 1);
      assert (H - 1) * (H + 1) == H * H - 1;
    }
  }

  /** The promise is never kept: both that operand and, given a bit of head room, the largest of 2m bits are below p*R. */
  lemma GeneralisedTooBig(H: int, F: int)
    requires H >= 4 && F >= 1
    ensures GeneralisedLimit(H) < (H * H - H - 1) * (H * H * F) && GeneralisedValue(GeneralisedLimit(H), H) == 2 * (H * H)
    ensures F >= 2 ==> H * H * (H * H) - 1 < (H * H - H - 1) * (H * H * F)
    ensures GeneralisedValue(H * H * (H * H) - 1, H) == 4 * (H * H) - H - 3
  {
    AtGeneralisedLimit(H);
    LargestValue(H);
    MulMono(4, H, H);
    LimitBelowProducts(H, H * H, F);
  }

  lemma LimitBelowProducts(H: int, M: int, F: int)
    requires H >= 4 && F >= 1 && M == H * H && M >= 4 * H
    ensures (2 * H - 2) * M + (M - H + 1) < (M - H - 1) * (M * F)
    ensures F >= 2 ==> M * M - 1 < (M - H - 1) * (M * F)
  {
    var p := M - H - 1;
    var q := p * M;
    Regroup(p, M, F, H);
    MulMono(2 * H - 1, p, M);
    MulMono(1, F, q);
    if F >= 2 {
      MulMono(2, F, q);
      MulMono(M, 2 * p, M);
    }
  }

  lemma Regroup(p: int, M: int, F: int, H: int)
    ensures p * (M * F) == F * (p * M) && (2 * H - 1) * M == (2 * H - 2) * M + M && 2 * (p * M) == (2 * p) * M
  {
    assert p * (M * F) == (p * M) * F;
  }

  lemma LargestValue(H: int)
    requires H >= 4
    ensures GeneralisedValue(H * H * (H * H) - 1, H) == 4 * (H * H) - H - 3
  {
    hide GeneralisedFold;
    MulMono(1, H, H);
    var M := H * H;
    var t := M - 1;
    assert t * M == M * M - M;
    DivModUnique(M * M - 1, t, M - 1, M);
    GeneralisedFoldIs(t, H);
    assert (H - 1) * H == M - H;
    DivModUnique(t, H - 1, H - 1, H);
    assert (H - 1) * (H + 1) == M - 1;
  }

  // ----- the code -----------------------------------------------------------------------------------

  /** 2^m for a modulus of m = (n-1)*k + s bits. */
  ghost function Modulo(k: nat, n: nat, s: nat): (M: int)
    requires n >= 1
    ensures M > 0
  {
    PowPos(Two(k), n - 1);
    MulMono(1, Pow(Two(k), n - 1), Two(s));
    Pow(Two(k), n - 1) * Two(s)
  }

  lemma ModuloIs(k: nat, n: nat, s: nat)
    requires n >= 1 && s <= k
    ensures Modulo(k, n, s) == Pow(2, (n - 1) * k + s) && Pow(Two(k), n) == Modulo(k, n, s) * Two(k - s)
  {
    hide Pow;
    PowMul(2, k, n - 1);
    assert k * (n - 1) == (n - 1) * k;
    PowAdd(2, (n - 1) * k, s);
    PowSucc(Two(k), n - 1);
    PowAdd(2, s, k - s);
    Reassociate(Pow(Two(k), n - 1), Two(s), Two(k - s), Two(k));
  }

  lemma Reassociate(p: int, T: int, Q: int, B: int)
    requires T * Q == B
    ensures B * p == p * T * Q
  {
    assert p * T * Q == p * (T * Q);
  }

  /** A divisor of 2^(m+1) that is below 2^m divides 2^m. */
  lemma {:induction false} PowerDivisor(m: nat, c: int)
    requires 0 < c < Pow(2, m) && 2 * Pow(2, m) % c == 0
    ensures Pow(2, m) % c == 0
  {
    hide Pow;
    var P := Pow(2, m);
    var g := 2 * P / c;
    SplitBack(2 * P, c, g, 0);
    if m == 0 {
      PowZero();
    } else if c % 2 == 1 {
      OddCofactor(c, g, P);
    } else {
      PowSucc(2, m - 1);
      HalfDivides(c, c / 2, g, P);
      PowerDivisor(m - 1, c / 2);
      DoubleDivides(c, c / 2, Pow(2, m - 1));
    }
  }

  lemma HalfDivides(c: int, h: int, g: int, P: int)
    requires h > 0 && c == 2 * h && 2 * P == g * c
    ensures P % h == 0
  {
    assert g * c == 2 * (g * h);
    DivModUnique(P, g, 0, h);
  }

  lemma DoubleDivides(c: int, h: int, Q: int)
    requires h > 0 && c == 2 * h && Q % h == 0
    ensures (2 * Q) % c == 0
  {
    var q := Q / h;
    SplitBack(Q, h, q, 0);
    assert q * c == 2 * (q * h);
    DivModUnique(2 * Q, q, 0, c);
  }

  lemma PowZero()
    ensures Pow(2, 0) == 1
  {}

  lemma OddCofactor(c: int, g: int, P: int)
    requires c > 0 && c % 2 == 1 && 2 * P == g * c
    ensures P % c == 0
  {
    var h, a := c / 2, g / 2;
    assert c == 2 * h + 1;
    assert g * c == 2 * (g * h) + g;
    assert g == 2 * a;
    assert (2 * a) * c == 2 * (a * c);
    DivModUnique(P, a, 0, c);
  }

  /** The size a caller may count on, by the test of the operand. */
  lemma PseudoSmall(D: int, c: int, k: nat, n: nat, s: nat)
    requires n >= 1 && s <= k && 0 < c < Modulo(k, n, s) && 0 <= D < PseudoLimit(Modulo(k, n, s), c)
    ensures PseudoValue(D, Modulo(k, n, s), c) < 2 * Modulo(k, n, s)
  {
    hide Pow;
    hide Modulo;
    hide PseudoValue;
    hide PseudoLimit;
    ModuloIs(k, n, s);
    if 2 * Modulo(k, n, s) % c == 0 { PowerDivisor((n - 1) * k + s, c); }
    BelowPseudoLimit(D, Modulo(k, n, s), c);
  }

  /** The fold with TMASK and TBITS: what sticks out above M, in the top limb and in the carry v, comes back times c. */
  method FoldTop(t: array<int>, v: int, c: int, s: nat, k: nat, n: nat, ghost X: int)
    requires n >= 2 && s < k && t.Length == n && Norm(t[..n - 1], Two(k)) && X == Val(t[..], Two(k)) + v * Pow(Two(k), n)
    modifies t
    ensures Val(t[..], Two(k)) == X % Modulo(k, n, s) + c * (X / Modulo(k, n, s))
  {
    hide Val;
    hide Pow;
    hide Modulo;
    ghost var B, u := Two(k), t[..];
    var T, F := Two(s), Two(k - s);
    var tw := t[n - 1];
    t[n - 1] := tw % T;
    t[0] := t[0] + c * (tw / T + v * F);
    assert t[..] == u[n - 1 := tw % T][0 := u[0] + c * (tw / T + v * F)];
    assert u[..n - 1] == t[..n - 1][0 := u[0]];
    FoldedValue(u, v, c, s, k, n, X);
  }

  lemma FoldedValue(u: seq<int>, v: int, c: int, s: nat, k: nat, n: nat, X: int)
    requires n >= 2 && s < k && |u| == n && Norm(u[..n - 1], Two(k)) && X == Val(u, Two(k)) + v * Pow(Two(k), n)
    ensures var T, F, tw, M := Two(s), Two(k - s), u[n - 1], Modulo(k, n, s);
      Val(u[n - 1 := tw % T][0 := u[0] + c * (tw / T + v * F)], Two(k)) == X % M + c * (X / M)
  {
    hide Val;
    hide Pow;
    var B, T, F, tw, M := Two(k), Two(s), Two(k - s), u[n - 1], Modulo(k, n, s);
    var p, low := Pow(B, n - 1), u[..n - 1];
    var h := tw / T + v * F;
    ModuloIs(k, n, s);
    assert u == low + [tw];
    ValSnoc(low, tw, B);
    ValBound(low, B);
    TopOut(X, Val(low, B), tw, tw / T, tw % T, v, p, T, F, M);
    var low' := low[0 := u[0] + c * h];
    assert u[n - 1 := tw % T][0 := u[0] + c * h] == low' + [tw % T];
    ValSnoc(low', tw % T, B);
    LowLimb(low, c * h, B);
  }

  lemma TopOut(X: int, lo: int, tw: int, q: int, r: int, v: int, p: int, T: int, F: int, M: int)
    requires X == lo + tw * p + v * (M * F) && tw == q * T + r && 0 <= r < T && 0 <= lo < p && M == p * T
    ensures M > 0 && X / M == q + v * F && X % M == lo + r * p
  {
    MulMono(1, T, p);
    var rp, vF := r * p, v * F;
    TopLimbOut(tw, q, r, p, T);
    CarryOut(v, M, F, vF);
    Distribute(q, vF, M);
    RestBelow(r, p, T);
    DivModUnique(X, q + vF, lo + rp, M);
  }

  lemma TopLimbOut(tw: int, q: int, r: int, p: int, T: int)
    requires tw == q * T + r
    ensures tw * p == q * (p * T) + r * p
  {
    assert (q * T + r) * p == q * T * p + r * p;
    assert q * T * p == q * (p * T);
  }

  lemma CarryOut(v: int, M: int, F: int, vF: int)
    requires vF == v * F
    ensures v * (M * F) == vF * M
  {}

  lemma RestBelow(r: int, p: int, T: int)
    requires 0 <= r < T && p > 0
    ensures 0 <= r * p <= p * T - p
  {
    MulMono(0, r, p);
    MulMono(r, T - 1, p);
    assert (T - 1) * p == p * T - p;
  }

  lemma LowLimb(low: seq<int>, x: int, B: int)
    requires |low| >= 1
    ensures Val(low[0 := low[0] + x], B) == Val(low, B) + x
  {
    hide Val;
    hide Pow;
    var rest := low[1..];
    assert low == [low[0]] + rest && low[0 := low[0] + x] == [low[0] + x] + rest;
    ValConcat([low[0]], rest, B);
    ValConcat([low[0] + x], rest, B);
    ValSingle(low[0], B);
    ValSingle(low[0] + x, B);
  }

  /** Limbs that are in range but for the top one, and a value below B^n: the top one is in range too. */
  lemma TopInRange(t: seq<int>, B: int)
    requires B >= 2 && |t| >= 1 && Norm(t[..|t| - 1], B) && t[|t| - 1] >= 0 && Val(t, B) < Pow(B, |t|)
    ensures Norm(t, B)
  {
    hide Val;
    hide Pow;
    var n := |t| - 1;
    assert t == t[..n] + [t[n]];
    ValSnoc(t[..n], t[n], B);
    ValBound(t[..n], B);
    PowSucc(B, n);
    PowPos(B, n);
    if t[n] >= B { MulMono(B, t[n], Pow(B, n)); }
    forall i | 0 <= i < n ensures 0 <= t[i] < B { assert t[i] == t[..n][i]; }
  }

  /**
   * MCL_FP10_mod for p = 2^m - c, d normalised and below p*R: what it leaves is PseudoValue, congruent to d, with all limbs
   * but the top one normalised.
   */
  method PseudoMersenneMod(r: array<int>, d: array<int>, c: int, nexcess: int, s: nat, k: nat, n: nat)
    requires n >= 2 && 0 < s < k && r.Length == n && d.Length == 2 * n && r != d && Norm(d[..], Two(k))
    requires 0 < c < Modulo(k, n, s) && Val(d[..], Two(k)) < (Modulo(k, n, s) - c) * Pow(Two(k), n)
    modifies r
    ensures Val(r[..], Two(k)) == PseudoValue(Val(d[..], Two(k)), Modulo(k, n, s), c) && Norm(r[..n - 1], Two(k))
    ensures Cong(Val(r[..], Two(k)), Val(d[..], Two(k)), Modulo(k, n, s) - c)
    ensures 0 <= Val(r[..], Two(k)) < 2 * Modulo(k, n, s) + c * (c * Two(k - s))
    ensures old(Val(d[..], Two(k))) < PseudoLimit(Modulo(k, n, s), c) ==> Val(r[..], Two(k)) < 2 * Modulo(k, n, s)
  {
    hide *;
    ghost var ds, B, M, F := d[..], Two(k), Modulo(k, n, s), Two(k - s);
    ghost var D := Val(ds, B);
    var t, b := new int[n], new int[n];
    SplitAt(t, b, d, s, k, n);
    assert d[..] == ds;
    TopHalf(ds, c, k, n, s);
    ghost var bs := b[..];
    ghost var X := D / M * c;
    MulComm(D / M, c);
    BaseAtLeastTwo(k);
    if c < nexcess {
      Imul(t, c, n, Two(k));
      NormLimbs(t, n, Two(k));
      NoCarry(Pow(B, n));
      FoldTop(t, 0, c, s, k, n, X);
    } else {
      assert t[..n - 1] == t[..][..n - 1] && t[n - 1] == t[..][n - 1];
      TopInRange(t[..], B);
      var v := Pmul(t, c, n, Two(k));
      FrontNorm(t[..], B);
      assert t[..n - 1] == t[..][..n - 1];
      FoldTop(t, v, c, s, k, n, X);
    }
    assert b[..] == bs;
    AddLimbs(r, t, b, n, Two(k));
    NormLimbs(r, n, Two(k));
    assert d[..] == ds;
    PseudoIs(D, M, c, X);
    PseudoCong(D, M, c);
    ModuloIs(k, n, s);
    PseudoSize(D, M, c, F);
    if D < PseudoLimit(M, c) { PseudoSmall(D, c, k, n, s); }
  }

  lemma MulComm(a: int, b: int)
    ensures a * b == b * a
  {}

  lemma NoCarry(p: int)
    ensures 0 * p == 0
  {}

  lemma BaseAtLeastTwo(k: nat)
    requires k >= 1
    ensures Two(k) >= 2
  {
    PowPos(2, k - 1);
  }

  lemma FrontNorm(t: seq<int>, B: int)
    requires |t| >= 1 && Norm(t, B)
    ensures Norm(t[..|t| - 1], B)
  {}

  lemma PseudoIs(D: int, M: int, c: int, X: int)
    requires M > 0 && X == D / M * c
    ensures PseudoValue(D, M, c) == X % M + c * (X / M) + D % M
  {}

  /** The split, in terms of M. */
  method SplitAt(t: array<int>, b: array<int>, d: array<int>, s: nat, k: nat, n: nat)
    requires n >= 2 && 0 < s < k && t.Length == b.Length == n && d.Length == 2 * n && t != b && t != d && b != d
    requires Norm(d[..], Two(k))
    modifies t, b
    ensures Val(t[..], Two(k)) == Val(d[..], Two(k)) / Modulo(k, n, s) && Val(b[..], Two(k)) == Val(d[..], Two(k)) % Modulo(k, n, s)
    ensures Norm(b[..], Two(k)) && Norm(t[..n - 1], Two(k)) && t[n - 1] >= 0
  {
    hide Val;
    hide Pow;
    hide Norm;
    Split(t, b, d, s, k, n);
  }

  /** A number below p*R has a top half below R. */
  lemma TopHalf(d: seq<int>, c: int, k: nat, n: nat, s: nat)
    requires n >= 2 && 0 < s < k && |d| == 2 * n && Norm(d, Two(k)) && 0 < c < Modulo(k, n, s)
    requires Val(d, Two(k)) < (Modulo(k, n, s) - c) * Pow(Two(k), n)
    ensures 0 <= Val(d, Two(k)) && 0 <= Val(d, Two(k)) / Modulo(k, n, s) < Pow(Two(k), n)
    ensures Val(d, Two(k)) < (Modulo(k, n, s) - c) * (Modulo(k, n, s) * Two(k - s))
  {
    hide Val;
    hide Pow;
    hide Modulo;
    var D, M := Val(d, Two(k)), Modulo(k, n, s);
    BaseAtLeastTwo(k);
    ValBound(d, Two(k));
    ModuloIs(k, n, s);
    SplitBack(D, M, D / M, D % M);
    TopBound(D / M, D % M, D, M, c, Two(k - s));
  }

  // ----- the modulus 2^m - 2^(m/2) - 1 ---------------------------------------------------------------

  /** 2^(m/2), as a shift by w limbs and e bits. */
  ghost function Half(k: nat, w: nat, e: nat): (H: int)
    ensures H > 0
  {
    PowPos(Two(k), w);
    MulMono(1, Pow(Two(k), w), Two(e));
    Pow(Two(k), w) * Two(e)
  }

  lemma HalfIs(k: nat, w: nat, e: nat, n: nat, s: nat)
    requires n >= 1 && s <= k && (n - 1) * k + s == 2 * (w * k + e)
    ensures Half(k, w, e) == Pow(2, w * k + e) && Half(k, w, e) * Half(k, w, e) == Modulo(k, n, s)
  {
    hide Pow;
    PowMul(2, k, w);
    assert k * w == w * k;
    PowAdd(2, w * k, e);
    PowAdd(2, w * k + e, w * k + e);
    ModuloIs(k, n, s);
  }

  lemma ShiftIsHalf(v': int, v: int, w: nat, e: nat, k: nat)
    requires IsShift(v', v, w, e, k)
    ensures v' == v * Half(k, w, e)
  {
    hide Pow;
    assert Pow(Two(k), w) * (Two(e) * v) == v * (Pow(Two(k), w) * Two(e));
  }

  /** Limbs above the size of a normalised number are zero. */
  lemma {:induction false} HighLimbsZero(t: seq<int>, j: nat, B: int)
    requires B >= 2 && j <= |t| && Norm(t, B) && Val(t, B) < Pow(B, j)
    ensures forall i :: j <= i < |t| ==> t[i] == 0
    decreases |t|
  {
    hide Val;
    hide Pow;
    if j < |t| {
      var n := |t| - 1;
      assert t == t[..n] + [t[n]];
      ValSnoc(t[..n], t[n], B);
      ValBound(t[..n], B);
      PowMono(B, j, n);
      PowPos(B, n);
      if t[n] >= 1 { MulMono(1, t[n], Pow(B, n)); }
      HighLimbsZero(t[..n], j, B);
    }
  }

  /** d = t, with zeros above. */
  method Widen(d: array<int>, t: array<int>, n: nat)
    requires d.Length == 2 * n && t.Length == n && d != t
    modifies d
    ensures d[..] == t[..] + seq(n, _ => 0)
  {
    for i := 0 to n
      invariant forall j :: 0 <= j < i ==> d[j] == t[j]
    {
      d[i] := t[i];
    }
    for i := n to 2 * n
      invariant forall j :: 0 <= j < n ==> d[j] == t[j]
      invariant forall j :: n <= j < i ==> d[j] == 0
    {
      d[i] := 0;
    }
  }

  lemma Widened(d: seq<int>, t: seq<int>, w: nat, B: int)
    requires B >= 2 && |t| >= 2 && w + 2 <= |t| && Norm(t, B) && d == t + seq(|t|, _ => 0)
    ensures |d| == 2 * |t| && Val(d, B) == Val(t, B) && Norm(d[..2 * |t| - w - 1], B) && d[2 * |t| - w - 1] >= 0
    ensures forall i :: 2 * |t| - w <= i < 2 * |t| ==> d[i] == 0
  {
    ValPad(d, |t|, B);
    assert d[..|t|] == t;
  }

  /** t*H, for t below R, still fits the double-length number; the part of it above M is below R/B^w. */
  lemma ShiftedSizes(t: int, H: int, M: int, R: int, p: int, q: int, Te: int)
    requires 0 <= t < R && H == p * Te && p >= 1 && Te >= 1 && M == H * H && M <= R && R == p * q
    ensures 0 <= t * H < R * R && 0 <= t * H / M < q && t * H / M < R
  {
    MulMono(1, p, Te);
    assert H >= 1 && H <= R by { MulMono(1, H, H); }
    MulMono(0, t, H);
    MulMono(t, R, H);
    MulMono(H, R, R);
    assert R * H == H * R;
    StrictTop(t, H, R);
    var a := t * H / M;
    SplitBack(t * H, M, a, t * H % M);
    OverflowBound(t, H, M, a, p, q, Te);
    MulMono(1, p, q);
    assert 1 * q == q;
  }

  lemma StrictTop(t: int, H: int, R: int)
    requires 0 <= t < R && 1 <= H <= R
    ensures t * H < R * R
  {
    MulMono(t, R - 1, H);
    MulMono(H, R, R - 1);
    assert (R - 1) * H == H * (R - 1);
    assert R * (R - 1) == R * R - R;
  }

  lemma OverflowBound(t: int, H: int, M: int, a: int, p: int, q: int, Te: int)
    requires 0 <= t < p * q && H == p * Te && p >= 1 && Te >= 1 && M == H * H && M > 0 && a * M <= t * H < a * M + M
    ensures 0 <= a < q
  {
    MulMono(1, p, Te);
    MulMono(0, t, H);
    if a < 0 { MulMono(a, -1, M); }
    OverflowProducts(a, t, H, p, q, Te);
    MulMono(1, Te, p * q);
    if a >= q && a >= 0 {
      MulMono(q, a, H);
      MulMono(t + 1, a * H, H);
    }
  }

  lemma OverflowProducts(a: int, t: int, H: int, p: int, q: int, Te: int)
    requires H == p * Te
    ensures a * (H * H) == (a * H) * H && (t + 1) * H == t * H + H && q * H == Te * (p * q)
  {
    assert q * (p * Te) == Te * (p * q);
  }

  /**
   * MCL_FP10_mod for p = 2^m - 2^(m/2) - 1, d normalised and below p*R; d is overwritten. What it leaves is
   * GeneralisedValue, congruent to d, with all limbs but the top one normalised.
   */
  method GeneralisedMersenneMod(r: array<int>, d: array<int>, w: nat, e: nat, s: nat, k: nat, n: nat)
    requires n >= 2 && 0 < s < k && e < k && w + 2 <= n && (n - 1) * k + s == 2 * (w * k + e) && Half(k, w, e) >= 4
    requires r.Length == n && d.Length == 2 * n && r != d && Norm(d[..], Two(k))
    requires Val(d[..], Two(k)) < (Modulo(k, n, s) - Half(k, w, e) - 1) * Pow(Two(k), n)
    modifies r, d
    ensures Val(r[..], Two(k)) == GeneralisedValue(old(Val(d[..], Two(k))), Half(k, w, e)) && Norm(r[..n - 1], Two(k))
    ensures Modulo(k, n, s) - Half(k, w, e) - 1 > 0
    ensures Cong(Val(r[..], Two(k)), old(Val(d[..], Two(k))), Modulo(k, n, s) - Half(k, w, e) - 1)
    ensures 0 <= Val(r[..], Two(k)) < 2 * Pow(Two(k), n) + 2 * Modulo(k, n, s) + Two(k - s) * Half(k, w, e)
    ensures old(Val(d[..], Two(k))) < GeneralisedLimit(Half(k, w, e)) ==> Val(r[..], Two(k)) < 2 * Modulo(k, n, s)
  {
    hide *;
    ghost var ds, B, M, F, H := d[..], Two(k), Modulo(k, n, s), Two(k - s), Half(k, w, e);
    ghost var D, R := Val(ds, B), Pow(B, n);
    BaseAtLeastTwo(k);
    HalfIs(k, w, e, n, s);
    HalfBelow(M, H);
    TopHalf(ds, H + 1, k, n, s);
    ModuloIs(k, n, s);
    var t, b := new int[n], new int[n];
    SplitAt(t, b, d, s, k, n);
    AddLimbs(r, t, b, n, Two(k));
    Settled(t, n, B);
    ghost var T0 := Val(t[..], B);
    Widen(d, t, n);
    Widened(d[..], t[..], w, B);
    assert d[..2 * n - w - 1] == d[..][..2 * n - w - 1];
    Shl(d, w, e, k, 2 * n);
    ShiftIsHalf(Val(d[..], B), T0, w, e, k);
    ProductSizes(T0, k, w, e, n, s);
    Settled(d, 2 * n, B);
    SplitAt(t, b, d, s, k, n);
    Settled(t, n, B);
    AddLimbs(r, r, t, n, Two(k));
    AddLimbs(r, r, b, n, Two(k));
    ghost var T1, r1 := Val(t[..], B), r[..];
    HighLimbsZero(t[..], n - w, B);
    FrontNormOf(t[..], n - w - 1, B);
    assert t[..n - w - 1] == t[..][..n - w - 1];
    Shl(t, w, e, k, n);
    ShiftIsHalf(Val(t[..], B), T1, w, e, k);
    assert r[..] == r1;
    AddLimbs(r, r, t, n, Two(k));
    NormLimbs(r, n, Two(k));
    GeneralisedIs(D, T0, T1, H, M);
    GeneralisedCong(D, H);
    FitsBoth(D, M, H, F, R);
    GeneralisedSize(D, H, F, M);
    if D < GeneralisedLimit(H) { BelowGeneralisedLimit(D, H); }
  }

  lemma HalfBelow(M: int, H: int)
    requires M == H * H && H >= 4
    ensures 0 < H + 1 < M
  {
    MulMono(4, H, H);
  }

  lemma Settled(t: array<int>, n: nat, B: int)
    requires B >= 2 && n >= 1 && t.Length == n && Norm(t[..n - 1], B) && t[n - 1] >= 0 && Val(t[..], B) < Pow(B, n)
    ensures Norm(t[..], B)
  {
    hide *;
    assert t[..][..n - 1] == t[..n - 1] && t[..][n - 1] == t[n - 1];
    TopInRange(t[..], B);
  }

  lemma FrontNormOf(t: seq<int>, j: nat, B: int)
    requires j < |t| && Norm(t, B)
    ensures Norm(t[..j], B) && t[j] >= 0
  {}

  lemma ProductSizes(t: int, k: nat, w: nat, e: nat, n: nat, s: nat)
    requires n >= 2 && 0 < s < k && w + 2 <= n && (n - 1) * k + s == 2 * (w * k + e) && 0 <= t < Pow(Two(k), n)
    ensures 0 <= t * Half(k, w, e) < Pow(Two(k), 2 * n)
    ensures 0 <= t * Half(k, w, e) / Modulo(k, n, s) < Pow(Two(k), n - w) && t * Half(k, w, e) / Modulo(k, n, s) < Pow(Two(k), n)
  {
    hide Pow;
    hide Modulo;
    HalfIs(k, w, e, n, s);
    ModuloIs(k, n, s);
    PowAdd(Two(k), w, n - w);
    PowAdd(Two(k), n, n);
    PowPos(Two(k), w);
    MulMono(1, Two(k - s), Modulo(k, n, s));
    assert Modulo(k, n, s) * Two(k - s) == Two(k - s) * Modulo(k, n, s);
    ShiftedSizes(t, Half(k, w, e), Modulo(k, n, s), Pow(Two(k), n), Pow(Two(k), w), Pow(Two(k), n - w), Two(e));
  }

  lemma GeneralisedIs(D: int, T0: int, T1: int, H: int, M: int)
    requires H > 0 && M == H * H && M > 0 && T0 == D / M && T1 == T0 * H / M
    ensures GeneralisedValue(D, H) == T0 + D % M + T1 + T0 * H % M + T1 * H
  {}

  lemma FitsBoth(D: int, M: int, H: int, F: int, R: int)
    requires H >= 4 && M == H * H && F >= 1 && R == M * F && 0 <= D < (M - (H + 1)) * (M * F)
    ensures D < (F * M) * M && F * M == R
  {
    MulMono(4, H, H);
    MulMono(1, M, F);
    MulMono(M - (H + 1), M, M * F);
    assert (F * M) * M == M * (M * F);
  }
}
