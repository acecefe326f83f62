/** The small shift-and-add modular multiplication of the RSA verifier. Limbs have w bits. */
module RsaShiftAdd {
  import opened Arith
  import opened Digits
  import opened RsaArithmetic

  /** Doubles x in place and returns the bit shifted out. */
  method ShiftLeft(x: array<int>, n: nat, b: int) returns (c: int)
    requires b >= 2 && b % 2 == 0 && x.Length == n && Norm(x[..], b)
    modifies x
    ensures Norm(x[..], b) && 0 <= c <= 1
    ensures Val(x[..], b) + c * Pow(b, n) == 2 * old(Val(x[..], b))
  {
    hide Val;
    hide Pow;
    hide RowSum;
    ghost var x0 := x[..];
    RowSumEmpty(x[..0], x0[..0], 1, x0[..0], b);
    c := 0;
    var i := 0;
    while i < n
      invariant 0 <= i <= n && 0 <= c <= 1 && Norm(x[..], b)
      invariant forall k :: i <= k < n ==> x[k] == x0[k]
      invariant RowSum(x[..i], c, x0[..i], 1, x0[..i], b)
    {
      ghost var low, was := x[..i], c;
      DoubledLimb(x[i], c, b);
      var t := x[i];
      x[i] := (2 * t) % b + c;
      c := (2 * t) / b;
      RowSumStep(low, was, x0[..i], 1, x0[..i], x0[i], x0[i], x[i], c, b);
      assert x[..i + 1] == low + [x[i]];
      assert x0[..i + 1] == x0[..i] + [x0[i]];
      i := i + 1;
    }
    assert x[..n] == x[..] && x0[..n] == x0;
    RowSumOne(x[..], c, x0, x0, b);
  }

  lemma DoubledLimb(t: int, c: int, b: int)
    requires b >= 2 && b % 2 == 0 && 0 <= t < b && 0 <= c <= 1
    ensures 0 <= (2 * t) / b <= 1 && 0 <= (2 * t) % b + c < b
    ensures 1 * t + c + t == ((2 * t) / b) * b + ((2 * t) % b + c)
  {
    AddWrap(2 * t, b);
    DivModUnique(2 * t, if 2 * t < b then 0 else 1, if 2 * t < b then 2 * t else 2 * t - b, b);
  }

  /** y -= x; the borrow is recovered by comparing the wrapped difference with y[i]. */
  method SubtractFrom(x: array<int>, y: array<int>, n: nat, b: int) returns (borrow: int)
    requires b >= 2 && x.Length == n && y.Length == n && x != y && Norm(x[..], b) && Norm(y[..], b)
    modifies y
    ensures Norm(y[..], b)
    ensures Val(y[..], b) - borrow * Pow(b, n) == old(Val(y[..], b)) - Val(x[..], b)
  {
    hide Val;
    hide Pow;
    hide RowSum;
    ghost var y0 := y[..];
    RowSumEmpty(y[..0], y0[..0], -1, x[..0], b);
    borrow := 0;
    var i := 0;
    while i < n
      invariant 0 <= i <= n && 0 <= borrow <= 1 && Norm(y[..], b)
      invariant forall k :: i <= k < n ==> y[k] == y0[k]
      invariant RowSum(y[..i], -borrow, y0[..i], -1, x[..i], b)
    {
      ghost var low, was := y[..i], -borrow;
      BorrowByComparison(x[i], y[i], borrow, b);
      var pdiff := (y[i] - x[i] - borrow) % b;
      if pdiff < y[i] { borrow := 0; } else if pdiff > y[i] { borrow := 1; }
      y[i] := pdiff;
      RowSumStep(low, was, y0[..i], -1, x[..i], x[i], y0[i], pdiff, -borrow, b);
      assert y[..i + 1] == low + [pdiff];
      assert y0[..i + 1] == y0[..i] + [y0[i]];
      assert x[..i + 1] == x[..i] + [x[i]];
      i := i + 1;
    }
    assert x[..n] == x[..] && y[..n] == y[..] && y0[..n] == y0;
    RowSumNegated(y[..], borrow, y0, 1, x[..], b);
  }

  lemma BorrowByComparison(x: int, y: int, c: int, b: int)
    requires b >= 2 && 0 <= x < b && 0 <= y < b && 0 <= c <= 1
    ensures var p := (y - x - c) % b; var c' := if p < y then 0 else if p > y then 1 else c;
      0 <= p < b && (-1) * x + (-c) + y == (-c') * b + p
  {
    var t := y - x - c;
    DivModUnique(t, if t >= 0 then 0 else -1, if t >= 0 then t else t + b, b);
  }

  /** One conditional subtraction of m from the number whose digits are r with the bit c above them; n limbs are kept. */
  method ReduceOnce(c: int, r: array<int>, m: array<int>, n: nat, b: int, ghost v: int)
    requires b >= 2 && r.Length == n && m.Length == n && r != m && Norm(r[..], b) && Norm(m[..], b)
    requires 0 <= c <= 1 && v == Val(r[..], b) + c * Pow(b, n)
    modifies r
    ensures Norm(r[..], b) && Pow(b, n) > 0
    ensures Val(r[..], b) == ReducedOnce(v, Val(m[..], b), Pow(b, n))
  {
    hide Val;
    hide Pow;
    ghost var M := m[..];
    var cmp := Compare(r, m, n, b);
    ValBound(r[..], b);
    ValBound(m[..], b);
    ghost var R := Val(r[..], b);
    if c != 0 || cmp >= 0 {
      var borrow := SubtractFrom(m, r, n, b);
      assert m[..] == M;
      ValBound(r[..], b);
      SubtractedOnce(Val(r[..], b), borrow, c, R, Val(M, b), Pow(b, n), v);
    } else {
      assert c * Pow(b, n) == 0;
    }
  }

  lemma SubtractedOnce(r': int, borrow: int, c: int, r: int, m: int, p: int, v: int)
    requires 0 <= r' < p && 0 <= m < p && 0 <= r && 0 <= c <= 1 && v == r + c * p
    requires r' - borrow * p == r - m && (c != 0 || r >= m)
    ensures v >= m && (v - m) % p == r'
  {
    assert (c - borrow) * p == c * p - borrow * p;
    if c == 1 { assert c * p == p; } else { assert c * p == 0; }
    DivModUnique(v - m, c - borrow, r', p);
  }

  /** Bit i of the limb array x. */
  method Bit(i: nat, x: array<int>, w: nat, n: nat, b: int) returns (bit: int)
    requires w >= 1 && b == Pow(2, w) && x.Length == n && i < n * w && Norm(x[..], b)
    ensures Pow(2, i) > 0
    ensures bit == (Val(x[..], b) / Pow(2, i)) % 2
  {
    var el, bp := i / w, i % w;
    IndexSplit(i, w, n);
    var p := PowerOfTwo(bp);
    bit := (x[el] / p) % 2;
    BitOfValue(x[..], el, bp, w, b);
  }

  method PowerOfTwo(e: nat) returns (p: int)
    ensures p == Pow(2, e) && p > 0
  {
    p := 1;
    for i := 0 to e
      invariant p == Pow(2, i) && p > 0
    {
      p := 2 * p;
    }
  }

  lemma IndexSplit(i: nat, w: nat, n: nat)
    requires w >= 1 && i < n * w
    ensures i / w < n && i == (i / w) * w + i % w && 0 <= i / w
  {
    if i / w >= n { MulMono(n, i / w, w); }
    if i / w < 0 { MulMono(i / w + 1, 0, w); }
  }

  /** Bit bp of limb el is bit el*w + bp of the value. */
  lemma BitOfValue(x: seq<int>, el: nat, bp: nat, w: nat, b: int)
    requires w >= 1 && b == Pow(2, w) && el < |x| && bp < w && Norm(x, b)
    ensures Pow(2, bp) > 0 && Pow(2, el * w + bp) > 0
    ensures (x[el] / Pow(2, bp)) % 2 == (Val(x, b) / Pow(2, el * w + bp)) % 2
  {
    hide Val;
    hide Pow;
    PowPos(2, w);
    PowPos(2, bp);
    PowPos(2, w - bp - 1);
    PowPos(2, el * w + bp);
    PowMul(2, w, el);
    assert w * el == el * w;
    PowAdd(2, el * w, bp);
    PowAdd(2, bp, w - bp);
    PowAdd(2, 1, w - bp - 1);
    PowOne(2);
    ValDivMod(x, el, b);
    var t := x[el..];
    assert t == [t[0]] + t[1..];
    ValConcat([t[0]], t[1..], b);
    ValSingle(t[0], b);
    PowOne(b);
    DivTwice(Val(x, b), Pow(b, el), Pow(2, bp));
    BitAboveLimb(x[el], Val(t[1..], b), Pow(2, bp), Pow(2, w - bp - 1), b);
  }

  /** Higher limbs do not touch a bit of the low limb. */
  lemma BitAboveLimb(d: int, high: int, q: int, h: int, b: int)
    requires q >= 1 && h >= 1 && b == q * (2 * h)
    ensures (d / q) % 2 == ((d + b * high) / q) % 2
  {
    var k := (2 * h) * high;
    assert b * high == q * k by { assert (q * (2 * h)) * high == q * ((2 * h) * high); }
    assert d == (d / q) * q + d % q;
    assert (d / q + k) * q == (d / q) * q + q * k;
    DivModUnique(d + b * high, d / q + k, d % q, q);
    assert k == (h * high) * 2 by { assert (2 * h) * high == 2 * (h * high); }
    CongFrom(d / q + k, d / q, h * high, 2);
  }

  /** One conditional subtraction, in numbers below P. */
  ghost function ReducedOnce(v: int, M: int, P: int): int
    requires P > 0
  {
    if v >= M then (v - M) % P else v
  }

  /** What one round of the loop makes of the running value r. */
  ghost function RoundValue(bit: int, r: int, A: int, M: int, P: int): int
    requires P > 0
  {
    if bit != 0 then ReducedOnce(ReducedOnce(2 * r, M, P) + A, M, P) else ReducedOnce(2 * r, M, P)
  }

  /** What the rounds over the bits of c make of zero. */
  ghost function RunValue(A: int, M: int, P: int, c: nat): int
    requires P > 0
  {
    if c == 0 then 0 else RoundValue(c % 2, RunValue(A, M, P, c / 2), A, M, P)
  }

  /**
   * The shift-and-add tr_modmul, from the top bit of c down. Its outcome for any operands is RunValue; for a <= m,
   * m > 0, that is the residue of the product.
   */
  method ShiftAddModMul(a: array<int>, c: array<int>, m: array<int>, r: array<int>, n: nat, w: nat, b: int)
    requires w >= 1 && b == Pow(2, w) && b % 2 == 0 && b >= 2
    requires a.Length == n && c.Length == n && m.Length == n && r.Length == n && r != a && r != c && r != m
    requires Norm(a[..], b) && Norm(c[..], b) && Norm(m[..], b)
    modifies r
    ensures Norm(r[..], b) && Pow(b, n) > 0 && Val(c[..], b) >= 0
    ensures Val(r[..], b) == RunValue(Val(a[..], b), Val(m[..], b), Pow(b, n), Val(c[..], b))
    ensures Val(a[..], b) <= Val(m[..], b) && Val(m[..], b) > 0 ==>
      Val(r[..], b) == (Val(a[..], b) * Val(c[..], b)) % Val(m[..], b)
  {
    hide Val;
    hide Pow;
    hide RunValue;
    hide RoundValue;
    ghost var A, C, M, P, sa, sc, sm := Val(a[..], b), Val(c[..], b), Val(m[..], b), Pow(b, n), a[..], c[..], m[..];
    for i := 0 to n
      invariant forall k :: 0 <= k < i ==> r[k] == 0
    {
      r[i] := 0;
    }
    assert a[..] == sa && c[..] == sc && m[..] == sm;
    ValZero(r[..], b);
    ValBound(sa, b);
    ValBound(sc, b);
    ValBound(sm, b);
    var i := n * w;
    TopQuotient(C, w, n, b);
    NoRounds(A, M, P);
    while i > 0
      invariant 0 <= i <= n * w && Norm(r[..], b)
      invariant a[..] == sa && c[..] == sc && m[..] == sm
      invariant Pow(2, i) > 0 && C / Pow(2, i) >= 0 && Val(r[..], b) == RunValue(A, M, P, C / Pow(2, i))
    {
      i := i - 1;
      ghost var h, r0 := C / Pow(2, i + 1), Val(r[..], b);
      var bit := Bit(i, c, w, n, b);
      HalveQuotient(C, i);
      ShiftAddStep(bit, r, a, m, n, b);
      assert a[..] == sa && c[..] == sc && m[..] == sm;
      ValBound(sm, b);
      OneMoreRound(A, M, P, h, bit);
    }
    QuotientByOne(C);
    if A <= M && M > 0 { RunCorrect(A, M, P, C); }
  }

  method ShiftAddStep(bit: int, r: array<int>, a: array<int>, m: array<int>, n: nat, b: int)
    requires b % 2 == 0 && b >= 2 && a.Length == n && m.Length == n && r.Length == n && r != a && r != m
    requires Norm(a[..], b) && Norm(r[..], b) && Norm(m[..], b)
    modifies r
    ensures Norm(r[..], b) && Pow(b, n) > 0
    ensures Val(r[..], b) == RoundValue(bit, old(Val(r[..], b)), Val(a[..], b), Val(m[..], b), Pow(b, n))
  {
    hide Val;
    hide Pow;
    ghost var A, r0, sa, sm := Val(a[..], b), Val(r[..], b), a[..], m[..];
    var carry := ShiftLeft(r, n, b);
    assert a[..] == sa && m[..] == sm;
    if bit != 0 {
      ReduceOnce(carry, r, m, n, b, 2 * r0);
      assert a[..] == sa && m[..] == sm;
      ghost var r1 := Val(r[..], b);
      assert r[0..n] == r[..];
      carry := AddBack(r, 0, a, n, b);
      assert a[..] == sa && m[..] == sm && r[0..n] == r[..];
      ReduceOnce(carry, r, m, n, b, r1 + A);
    } else {
      ReduceOnce(carry, r, m, n, b, 2 * r0);
    }
    assert a[..] == sa && m[..] == sm;
  }

  lemma QuotientByOne(C: int)
    ensures Pow(2, 0) == 1 && C / 1 == C
  {}

  lemma TopQuotient(C: int, w: nat, n: nat, b: int)
    requires b == Pow(2, w) && 0 <= C < Pow(b, n)
    ensures Pow(2, n * w) > 0 && C / Pow(2, n * w) == 0
  {
    PowMul(2, w, n);
    assert w * n == n * w;
    SmallMod(C, Pow(2, n * w));
  }

  lemma NoRounds(A: int, M: int, P: int)
    requires P > 0
    ensures RunValue(A, M, P, 0) == 0
  {}

  lemma OneMoreRound(A: int, M: int, P: int, h: nat, bit: int)
    requires 0 <= M < P && 0 <= bit <= 1
    ensures RunValue(A, M, P, 2 * h + bit) == RoundValue(bit, RunValue(A, M, P, h), A, M, P)
  {
    var c := 2 * h + bit;
    assert c / 2 == h && c % 2 == bit;
    if c == 0 { SmallMod(0, P); }
  }

  // ----- for which operands it is a modular product -------------------------------------------

  lemma ReducedOnceCong(v: int, x: int, M: int, P: int)
    requires 0 < M < P && 0 <= v < 2 * M && Cong(v, x, M)
    ensures Cong(ReducedOnce(v, M, P), x, M) && 0 <= ReducedOnce(v, M, P) < M
  {
    if v >= M { SmallMod(v - M, P); }
    CongFrom(ReducedOnce(v, M, P), v, if v >= M then -1 else 0, M);
  }

  /** Doubling, adding the multiplicand when the bit is set, and reducing, follows the quotient of c. */
  lemma LadderStep(A: int, h: int, bit: int, M: int, P: int, r: int)
    requires 0 <= A <= M && 0 < M < P && 0 <= bit <= 1 && r == (A * h) % M
    ensures RoundValue(bit, r, A, M, P) == (A * (2 * h + bit)) % M
  {
    CongMod(A * h, M);
    RoundCong(A, A * h, bit, M, P, r);
    assert A * (2 * h + bit) == 2 * (A * h) + (if bit == 1 then A else 0) by {
      assert A * (2 * h + 1) == 2 * (A * h) + A && A * (2 * h + 0) == 2 * (A * h);
    }
  }

  lemma RoundCong(A: int, x: int, bit: int, M: int, P: int, r: int)
    requires 0 <= A <= M && 0 < M < P && 0 <= bit <= 1 && 0 <= r < M && Cong(r, x, M)
    ensures RoundValue(bit, r, A, M, P) == (2 * x + (if bit == 1 then A else 0)) % M
  {
    hide Cong;
    hide ReducedOnce;
    CongScale(r, x, 2, M);
    ReducedOnceCong(2 * r, 2 * x, M, P);
    var d := ReducedOnce(2 * r, M, P);
    CongFrom(A, A, 0, M);
    CongAdd(d, 2 * x, A, A, M);
    ReducedOnceCong(d + A, 2 * x + A, M, P);
    ReducedResidueOf(RoundValue(bit, r, A, M, P), 2 * x + (if bit == 1 then A else 0), M);
  }

  lemma ReducedResidueOf(r: int, x: int, M: int)
    requires 0 <= r < M && Cong(r, x, M)
    ensures r == x % M
  {
    SmallMod(r, M);
  }

  lemma {:induction false} RunCorrect(A: int, M: int, P: int, c: nat)
    requires 0 <= A <= M && 0 < M < P
    ensures RunValue(A, M, P, c) == (A * c) % M
  {
    if c == 0 {
      assert A * 0 == 0;
      SmallMod(0, M);
    } else {
      RunCorrect(A, M, P, c / 2);
      LadderStep(A, c / 2, c % 2, M, P, RunValue(A, M, P, c / 2));
    }
  }

  /** A multiplicand of at least 2m is already wrong for the multiplier 1. */
  lemma TwiceTooLarge(A: int, M: int, P: int)
    requires 0 < M && 2 * M <= A < P
    ensures RunValue(A, M, P, 1) != (A * 1) % M
  {
    SmallMod(0, P);
    SmallMod(A - M, P);
    assert RunValue(A, M, P, 0) == 0;
    assert RunValue(A, M, P, 1) == RoundValue(1, 0, A, M, P);
  }

  /** A multiplicand strictly between m and 2m, m odd, goes wrong at the latest for the multiplier m. */
  lemma SlightlyTooLarge(A: int, M: int, P: int)
    requires 0 < M < A < 2 * M && M % 2 == 1 && A < P
    ensures RunValue(A, M, P, (M - 1) / 2) != (A * ((M - 1) / 2)) % M || RunValue(A, M, P, M) != (A * M) % M
  {
    hide RunValue;
    hide RoundValue;
    var d, h := A - M, (M - 1) / 2;
    assert M == 2 * h + 1;
    var r, AM := RunValue(A, M, P, h), A * M;
    OneMoreRound(A, M, P, h, 1);
    DivModUnique(AM, A, 0, M);
    if r == (A * h) % M { WrongAtLast(r, A, M, P, h, d); }
  }

  lemma WrongAtLast(r: int, A: int, M: int, P: int, h: int, d: int)
    requires A == M + d && M == 2 * h + 1 && 0 < d < M && h >= 0 && A < P && r == (A * h) % M
    ensures RoundValue(1, r, A, M, P) == M
  {
    hide RoundValue;
    DoubledResidue(A, M, h, d);
    FinalRound(r, A, M, P, d);
  }

  /** Twice (m-1)/2 copies of m + d leave m - d. */
  lemma DoubledResidue(A: int, M: int, h: int, d: int)
    requires A == M + d && M == 2 * h + 1 && 0 < d < M && h >= 0
    ensures var r := (A * h) % M; 0 <= r < M && (2 * r == M - d || 2 * r == 2 * M - d)
  {
    var x := A * h;
    var q, r := x / M, x % M;
    var qM, AM, k := q * M, A * M, A - 1 - 2 * q;
    assert x == qM + r;
    assert 2 * x == AM - A by { HalfProduct(A, M, h); }
    assert k * M == AM - M - 2 * qM by { Spread(A, q, M); }
    OneOrTwo(k, r, M, d);
  }

  lemma HalfProduct(A: int, M: int, h: int)
    requires M == 2 * h + 1
    ensures 2 * (A * h) == A * M - A
  {
    assert A * (2 * h + 1) == 2 * (A * h) + A;
  }

  lemma Spread(A: int, q: int, M: int)
    ensures (A - 1 - 2 * q) * M == A * M - M - 2 * (q * M)
  {}

  lemma OneOrTwo(k: int, r: int, M: int, d: int)
    requires 2 * r == k * M - d && 0 <= r < M && 0 < d < M
    ensures k == 1 || k == 2
  {
    if k <= 0 { MulMono(k, 0, M); }
    if k >= 3 { MulMono(3, k, M); }
  }

  lemma FinalRound(r: int, A: int, M: int, P: int, d: int)
    requires A == M + d && 0 < d < M && A < P && (2 * r == M - d || 2 * r == 2 * M - d)
    ensures RoundValue(1, r, A, M, P) == M
  {
    SmallMod(M - d, P);
    SmallMod(M, P);
  }

  /** For an odd modulus, exactly the multiplicands up to m are multiplied correctly by every multiplier. */
  lemma ExactOperands(A: int, M: int, P: int)
    requires 0 < M < P && M % 2 == 1 && 0 <= A < P
    ensures (forall c: nat :: c < P ==> RunValue(A, M, P, c) == (A * c) % M) <==> A <= M
  {
    hide RunValue;
    if A <= M {
      forall c: nat | c < P ensures RunValue(A, M, P, c) == (A * c) % M { RunCorrect(A, M, P, c); }
    } else if A >= 2 * M {
      TwiceTooLarge(A, M, P);
    } else {
      SlightlyTooLarge(A, M, P);
    }
  }
}
