/** Multi-precision arithmetic of the stand-alone RSA verifier: n limbs of base b, b and n symbolic. */
module RsaArithmetic {
  import opened Arith
  import opened Digits

  // ----- limb steps ------------------------------------------------------------------------

  /** One limb product plus two limbs fits a double word. */
  lemma DoubleWord(x: int, y: int, c: int, z: int, b: int)
    requires 0 <= x < b && 0 <= y < b && 0 <= c < b && 0 <= z < b
    ensures 0 <= x * y + c + z < b * b
  {
    MulMono(0, x, y);
    MulMono(x, b - 1, y);
    MulMono(y, b - 1, b - 1);
    assert (b - 1) * y == y * (b - 1);
    assert (b - 1) * (b - 1) + 2 * (b - 1) == b * b - 1;
  }

  // ----- tr_compare ------------------------------------------------------------------------

  /** Lexicographic comparison from the top limb down orders the values. */
  method Compare(x: array<int>, y: array<int>, n: nat, ghost b: int) returns (r: int)
    requires b >= 1 && x.Length == y.Length == n && Norm(x[..], b) && Norm(y[..], b)
    ensures r == -1 || r == 0 || r == 1
    ensures r == -1 <==> Val(x[..], b) < Val(y[..], b)
    ensures r == 0 <==> Val(x[..], b) == Val(y[..], b)
    ensures r == 1 <==> Val(x[..], b) > Val(y[..], b)
  {
    hide Val;
    hide Pow;
    var i := n;
    assert x[..n] == x[..] && y[..n] == y[..];
    while i > 0
      invariant 0 <= i <= n
      invariant Val(x[..], b) - Val(y[..], b) == Val(x[..i], b) - Val(y[..i], b)
    {
      i := i - 1;
      ValPrefix(x[..], i, b);
      ValPrefix(y[..], i, b);
      assert x[..][..i] == x[..i] && x[..][..i + 1] == x[..i + 1];
      assert y[..][..i] == y[..i] && y[..][..i + 1] == y[..i + 1];
      TopDecides(x[..i], x[i], y[..i], y[i], b);
      TopDecides(y[..i], y[i], x[..i], x[i], b);
      if x[i] < y[i] { return -1; }
      if x[i] > y[i] { return 1; }
    }
    ValEmpty(b);
    return 0;
  }

  lemma TopDecides(s: seq<int>, d: int, t: seq<int>, e: int, b: int)
    requires b >= 1 && |s| == |t| && Norm(s, b) && Norm(t, b)
    ensures d < e ==> Val(s, b) + d * Pow(b, |s|) < Val(t, b) + e * Pow(b, |s|)
  {
    ValBound(s, b);
    ValBound(t, b);
    if d < e {
      MulMono(d + 1, e, Pow(b, |s|));
      assert (d + 1) * Pow(b, |s|) == d * Pow(b, |s|) + Pow(b, |s|);
    }
  }

  // ----- tr_multiply -----------------------------------------------------------------------

  /** The inner loop: adds xi*y to z at limb i and writes the carry to limb n+i. */
  method MulRow(z: array<int>, i: nat, xi: int, y: array<int>, n: nat, b: int)
    requires b >= 2 && y.Length == n && z.Length == 2 * n + 1 && i < n && z != y
    requires 0 <= xi < b && Norm(y[..], b) && Norm(z[..], b)
    requires forall k :: n + i <= k < 2 * n + 1 ==> z[k] == 0
    modifies z
    ensures Norm(z[..], b)
    ensures forall k :: n + i + 1 <= k < 2 * n + 1 ==> z[k] == 0
    ensures Val(z[..n + i + 1], b) == old(Val(z[..n + i], b)) + Pow(b, i) * (xi * Val(y[..], b))
  {
    hide Val;
    hide Pow;
    hide RowSum;
    ghost var z0 := z[..];
    RowSumEmpty(z[i..i], z0[i..i], xi, y[..0], b);
    var carry := 0;
    var j := 0;
    while j < n
      invariant 0 <= j <= n && 0 <= carry < b && Norm(z[..], b)
      invariant forall k :: 0 <= k < i || i + j <= k < 2 * n + 1 ==> z[k] == z0[k]
      invariant RowSum(z[i..i + j], carry, z0[i..i + j], xi, y[..j], b)
    {
      ghost var row := z[i..i + j];
      DoubleWord(xi, y[j], carry, z[i + j], b);
      var dble := xi * y[j] + carry + z[i + j];
      DivBound(dble, b);
      z[i + j] := dble % b;
      RowSumStep(row, carry, z0[i..i + j], xi, y[..j], y[j], z0[i + j], dble % b, dble / b, b);
      assert z[i..i + j + 1] == row + [dble % b];
      assert z0[i..i + j + 1] == z0[i..i + j] + [z0[i + j]];
      assert y[..j + 1] == y[..j] + [y[j]];
      carry := dble / b;
      j := j + 1;
    }
    z[n + i] := carry;
    assert y[..n] == y[..];
    assert z[..][i..i + n] == z[i..i + n];
    MulRowDone(z0, z[..], i, n, xi, y[..], b);
  }

  lemma MulRowDone(z0: seq<int>, z1: seq<int>, i: nat, n: nat, xi: int, y: seq<int>, b: int)
    requires |z0| == |z1| == 2 * n + 1 && i < n && z0[..i] == z1[..i]
    requires RowSum(z1[i..i + n], z1[n + i], z0[i..i + n], xi, y, b)
    ensures Val(z1[..n + i + 1], b) == Val(z0[..n + i], b) + Pow(b, i) * (xi * Val(y, b))
  {
    hide Val;
    hide Pow;
    var low, mid0, mid1 := z0[..i], z0[i..i + n], z1[i..i + n];
    assert z0[..n + i] == low + mid0;
    assert z1[..n + i + 1] == low + (mid1 + [z1[n + i]]);
    ValConcat(low, mid0, b);
    ValConcat(low, mid1 + [z1[n + i]], b);
    ValSnoc(mid1, z1[n + i], b);
    ScaleSum(Val(mid1 + [z1[n + i]], b), Val(mid0, b), xi * Val(y, b), Pow(b, i));
  }

  /** The digits s with a carry c above them hold s0 + a*y. */
  ghost predicate RowSum(s: seq<int>, c: int, s0: seq<int>, a: int, y: seq<int>, b: int) {
    |s| == |s0| == |y| && Val(s, b) + c * Pow(b, |s|) == Val(s0, b) + a * Val(y, b)
  }

  lemma RowSumEmpty(s: seq<int>, s0: seq<int>, a: int, y: seq<int>, b: int)
    requires |s| == |s0| == |y| == 0
    ensures RowSum(s, 0, s0, a, y, b)
  {}

  lemma RowArith(v: int, carry: int, v0: int, y: int, xi: int, yj: int, zj: int, d: int, c: int, b: int, p: int)
    requires v + carry * p == v0 + xi * y
    requires xi * yj + carry + zj == c * b + d
    ensures (v + d * p) + c * (b * p) == (v0 + zj * p) + xi * (y + yj * p)
  {
    CarryUp(xi * yj + carry + zj, d, c, b, p);
    assert (xi * yj + carry + zj) * p == (xi * yj) * p + carry * p + zj * p;
    assert xi * (y + yj * p) == xi * y + (xi * yj) * p;
  }

  /** One more limb: the double word a*yj + c + zj splits into the digit d and the next carry c'. */
  lemma RowSumStep(s: seq<int>, c: int, s0: seq<int>, a: int, y: seq<int>, yj: int, zj: int, d: int, c': int, b: int)
    requires RowSum(s, c, s0, a, y, b) && a * yj + c + zj == c' * b + d
    ensures RowSum(s + [d], c', s0 + [zj], a, y + [yj], b)
  {
    hide Val;
    ValSnoc(s, d, b);
    ValSnoc(s0, zj, b);
    ValSnoc(y, yj, b);
    RowArith(Val(s, b), c, Val(s0, b), Val(y, b), a, yj, zj, d, c', b, Pow(b, |s|));
  }

  /** z = x*y, every limb normalised, the spare top limb zero. */
  method Multiply(x: array<int>, y: array<int>, z: array<int>, n: nat, b: int)
    requires b >= 2 && x.Length == n && y.Length == n && z.Length == 2 * n + 1
    requires z != x && z != y && Norm(x[..], b) && Norm(y[..], b)
    modifies z
    ensures Norm(z[..], b) && z[2 * n] == 0
    ensures Val(z[..], b) == Val(x[..], b) * Val(y[..], b)
  {
    hide Val;
    hide Pow;
    ValEmpty(b);
    for i := 0 to 2 * n + 1
      invariant forall k :: 0 <= k < i ==> z[k] == 0
    {
      z[i] := 0;
    }
    ValZero(z[..n], b);
    for i := 0 to n
      invariant Norm(z[..], b)
      invariant forall k :: n + i <= k < 2 * n + 1 ==> z[k] == 0
      invariant Val(z[..n + i], b) == Val(x[..i], b) * Val(y[..], b)
    {
      MulRow(z, i, x[i], y, n, b);
      assert x[..i + 1] == x[..i] + [x[i]];
      ValSnoc(x[..i], x[i], b);
      Distribute(Val(x[..i], b), x[i], Pow(b, i), Val(y[..], b));
    }
    ValPad(z[..], 2 * n, b);
    assert z[..][..2 * n] == z[..2 * n] && x[..n] == x[..];
  }

  lemma Distribute(v: int, d: int, p: int, y: int)
    ensures (v + d * p) * y == v * y + p * (d * y)
  {
    assert (v + d * p) * y == v * y + (d * p) * y;
    assert (d * p) * y == p * (d * y);
  }

  // ----- tr_divide -------------------------------------------------------------------------

  lemma AddWrap(s: int, b: int)
    requires 0 <= s < 2 * b
    ensures s % b == if s < b then s else s - b
  {
    DivModUnique(s, if s < b then 0 else 1, if s < b then s else s - b, b);
  }

  /**
   * Guesses the next quotient digit from the top three limbs of the window and the top two of the
   * divisor, then refines it. The result is the largest digit whose product with the two top divisor
   * limbs does not exceed the three top limbs of the window.
   */
  method GuessDigit(x2: int, x1: int, x0: int, ldy: int, sdy: int, b: int) returns (attemp: int)
    requires b >= 2 && 0 <= x2 <= ldy < b && 0 <= x1 < b && 0 <= x0 < b && 1 <= ldy && 0 <= sdy < b
    ensures 0 <= attemp < b
    ensures attemp * (ldy * b + sdy) <= (x2 * b + x1) * b + x0
    ensures attemp == b - 1 || (attemp + 1) * (ldy * b + sdy) > (x2 * b + x1) * b + x0
  {
    var carry, ra := 0, 0;
    if x2 == ldy {
      attemp := b - 1;
      AddWrap(ldy + x1, b);
      ra := (ldy + x1) % b;
      if ra < ldy { carry := 1; }
      assert (b - 1) * ldy == b * ldy - ldy;
    } else {
      attemp, ra := FirstGuess(x2, x1, x0, ldy, sdy, b);
    }
    attemp := RefineGuess(attemp, ra, carry, x2 * b + x1, x0, ldy, sdy, b);
  }

  /** The refine loop: stops at the largest acceptable digit, or when the remainder overflows a limb. */
  method RefineGuess(a0: int, ra0: int, carry0: int, top: int, x0: int, ldy: int, sdy: int, b: int)
    returns (attemp: int)
    requires b >= 2 && 0 <= x0 < b && 1 <= ldy < b && 0 <= sdy < b
    requires 0 <= a0 < b && 0 <= ra0 < b && 0 <= carry0 <= 1 && top == a0 * ldy + ra0 + carry0 * b
    requires a0 == b - 1 || (a0 + 1) * (ldy * b + sdy) > top * b + x0
    ensures 0 <= attemp < b
    ensures attemp * (ldy * b + sdy) <= top * b + x0
    ensures attemp == b - 1 || (attemp + 1) * (ldy * b + sdy) > top * b + x0
  {
    attemp := a0;
    var ra, carry := ra0, carry0;
    while carry == 0
      invariant 0 <= attemp < b && 0 <= ra < b && 0 <= carry <= 1
      invariant top == attemp * ldy + ra + carry * b
      invariant attemp == b - 1 || (attemp + 1) * (ldy * b + sdy) > top * b + x0
      decreases attemp + 1 - carry
    {
      var dble := attemp * sdy;
      var r, tst := dble % b, dble / b;
      RefineTest(attemp, top, x0, ldy, sdy, ra, b);
      if tst < ra || (tst == ra && r <= x0) { return; }
      OneLess(attemp, ldy);
      AddWrap(ra + ldy, b);
      attemp := attemp - 1;
      ra := (ra + ldy) % b;
      if ra < ldy { carry := 1; }
    }
    OverflowAccepts(attemp, top, x0, ldy, sdy, ra, b);
  }

  /** The limb test of the refine loop decides a*v <= u, and a == 0 always passes it. */
  lemma RefineTest(a: int, top: int, x0: int, ldy: int, sdy: int, ra: int, b: int)
    requires b >= 2 && 0 <= x0 < b && 0 <= sdy < b && 0 <= a < b && 0 <= ra < b && top == a * ldy + ra
    ensures var d := a * sdy;
      (d / b < ra || (d / b == ra && d % b <= x0)) <==> a * (ldy * b + sdy) <= top * b + x0
    ensures a == 0 ==> a * (ldy * b + sdy) <= top * b + x0
  {
    var d := a * sdy;
    DoubleWord(a, sdy, 0, 0, b);
    DivBound(d, b);
    TwoLimbOrder(d / b, d % b, ra, x0, b);
    GuessValue(a, top, x0, ldy, sdy, ra, b);
    MulMono(0, ra, b);
  }

  lemma OverflowAccepts(a: int, top: int, x0: int, ldy: int, sdy: int, ra: int, b: int)
    requires b >= 2 && 0 <= x0 && 0 <= sdy < b && 0 <= a < b && 0 <= ra && top == a * ldy + ra + b
    ensures a * (ldy * b + sdy) <= top * b + x0
  {
    DoubleWord(a, sdy, 0, 0, b);
    GuessValue(a, top, x0, ldy, sdy, ra + b, b);
    MulMono(b, ra + b, b);
  }

  lemma OneLess(a: int, l: int)
    ensures (a - 1) * l + l == a * l
  {}

  /** The comparison of two limb pairs is the comparison of their values. */
  lemma TwoLimbOrder(h: int, l: int, h': int, l': int, b: int)
    requires 0 <= l < b && 0 <= l' < b
    ensures (h < h' || (h == h' && l <= l')) <==> h * b + l <= h' * b + l'
  {
    if h < h' {
      MulMono(h + 1, h', b);
      assert (h + 1) * b == h * b + b;
    } else if h' < h {
      MulMono(h' + 1, h, b);
      assert (h' + 1) * b == h' * b + b;
    }
  }

  /** The test of the refine loop compares a*v with u, given the running remainder. */
  lemma GuessValue(a: int, top: int, x0: int, ldy: int, sdy: int, rhat: int, b: int)
    requires top == a * ldy + rhat
    ensures a * (ldy * b + sdy) <= top * b + x0 <==> a * sdy <= rhat * b + x0
  {
    assert a * (ldy * b + sdy) == (a * ldy) * b + a * sdy;
    assert (a * ldy + rhat) * b == (a * ldy) * b + rhat * b;
  }

  method FirstGuess(x2: int, x1: int, x0: int, ldy: int, sdy: int, b: int) returns (attemp: int, ra: int)
    requires b >= 2 && 0 <= x2 < ldy < b && 0 <= x1 < b && 0 <= x0 < b && 0 <= sdy < b
    ensures 0 <= attemp < b && 0 <= ra < b && x2 * b + x1 == attemp * ldy + ra
    ensures (attemp + 1) * (ldy * b + sdy) > (x2 * b + x1) * b + x0
  {
    var dble := x2 * b + x1;
    attemp := dble / ldy;
    ra := dble - attemp * ldy;
    QuotientRange(x2, x1, ldy, b);
    MulMono(dble + 1, (attemp + 1) * ldy, b);
    MulMono(0, attemp + 1, sdy);
    assert (dble + 1) * b == dble * b + b;
    assert (attemp + 1) * (ldy * b + sdy) == ((attemp + 1) * ldy) * b + (attemp + 1) * sdy;
  }

  lemma QuotientRange(x2: int, x1: int, ldy: int, b: int)
    requires 0 <= x2 < ldy < b && 0 <= x1 < b
    ensures var d := x2 * b + x1; var q := d / ldy;
      0 <= q < b && 0 <= d - q * ldy < ldy && d < (q + 1) * ldy
  {
    var d := x2 * b + x1;
    var q := d / ldy;
    assert d == q * ldy + d % ldy;
    assert (q + 1) * ldy == q * ldy + ldy;
    MulMono(0, x2, b);
    MulMono(x2, ldy - 1, b);
    assert (ldy - 1) * b == ldy * b - b;
    if q >= b { MulMono(b, q, ldy); }
    if q < 0 { MulMono(q + 1, 0, ldy); }
  }

  /** The refined guess a is never below the true quotient digit q and at most one above it. */
  lemma GuessWithinOne(a: int, u: int, v: int, xl: int, yl: int, p: int, q: int, b: int)
    requires 0 <= a < b <= v && 0 <= u && p >= 1 && 0 <= xl < p && 0 <= yl < p && 0 <= q < b
    requires q * (v * p + yl) <= u * p + xl < (q + 1) * (v * p + yl)
    requires a * v <= u && (a == b - 1 || (a + 1) * v > u)
    ensures q <= a <= q + 1
  {
    if q >= a + 1 {
      TooSmall(a, u, v, xl, yl, p, q);
    }
    if a >= q + 2 {
      TooBig(a, u, v, xl, yl, p);
      MulMono(0, v, p);
      MulMono(q + 1, a - 1, v * p + yl);
    }
  }

  lemma TooSmall(a: int, u: int, v: int, xl: int, yl: int, p: int, q: int)
    requires 0 <= a && 1 <= v && p >= 1 && xl < p && 0 <= yl && q >= a + 1
    requires (a + 1) * v > u
    ensures q * (v * p + yl) > u * p + xl
  {
    MulMono(a + 1, q, v);
    MulMono(u + 1, q * v, p);
    assert (u + 1) * p == u * p + p;
    MulMono(0, yl, q);
    assert q * (v * p + yl) == (q * v) * p + yl * q;
  }

  lemma TooBig(a: int, u: int, v: int, xl: int, yl: int, p: int)
    requires 1 <= a <= v && p >= 1 && 0 <= xl && 0 <= yl < p && a * v <= u
    ensures (a - 1) * (v * p + yl) <= u * p + xl
  {
    MulMono(yl, p, a - 1);
    assert (a - 1) * (v * p + yl) == ((a - 1) * v) * p + yl * (a - 1);
    assert p * (a - 1) == (a - 1) * p;
    assert ((a - 1) * v) * p + (a - 1) * p == ((a - 1) * v + (a - 1)) * p;
    assert (a - 1) * v == a * v - v;
    MulMono((a - 1) * v + (a - 1), u, p);
  }

  /** Partial subtraction of a*y from the n limbs at m. */
  method SubtractMultiple(x: array<int>, m: nat, y: array<int>, a: int, n: nat, b: int) returns (borrow: int)
    requires b >= 2 && y.Length == n && m + n <= x.Length && x != y && 0 <= a < b
    requires Norm(x[..], b) && Norm(y[..], b)
    modifies x
    ensures Norm(x[..], b) && 0 <= borrow < b
    ensures forall k :: 0 <= k < x.Length && !(m <= k < m + n) ==> x[k] == old(x[k])
    ensures Val(x[m..m + n], b) - borrow * Pow(b, n) == old(Val(x[m..m + n], b)) - a * Val(y[..], b)
  {
    hide Val;
    hide Pow;
    hide RowSum;
    ghost var x0 := x[..];
    RowSumEmpty(x[m..m], x0[m..m], -a, y[..0], b);
    borrow := 0;
    var i := 0;
    while i < n
      invariant 0 <= i <= n && 0 <= borrow < b && Norm(x[..], b)
      invariant forall k :: 0 <= k < x.Length && !(m <= k < m + i) ==> x[k] == x0[k]
      invariant RowSum(x[m..m + i], -borrow, x0[m..m + i], -a, y[..i], b)
    {
      ghost var low, was := x[m..m + i], -borrow;
      var d;
      d, borrow := SubtractLimb(a, y[i], borrow, x[m + i], b);
      x[m + i] := d;
      RowSumStep(low, was, x0[m..m + i], -a, y[..i], y[i], x0[m + i], d, -borrow, b);
      assert x[m..m + i + 1] == low + [d];
      assert x0[m..m + i + 1] == x0[m..m + i] + [x0[m + i]];
      assert y[..i + 1] == y[..i] + [y[i]];
      i := i + 1;
    }
    assert y[..n] == y[..];
    RowSumNegated(x[m..m + n], borrow, x0[m..m + n], a, y[..], b);
  }

  lemma RowSumNegated(s: seq<int>, c: int, s0: seq<int>, a: int, y: seq<int>, b: int)
    requires RowSum(s, -c, s0, -a, y, b)
    ensures Val(s, b) - c * Pow(b, |s|) == Val(s0, b) - a * Val(y, b)
  {
    assert (-c) * Pow(b, |s|) == -(c * Pow(b, |s|)) && (-a) * Val(y, b) == -(a * Val(y, b));
  }

  method SubtractLimb(a: int, yi: int, borrow: int, xi: int, b: int) returns (d: int, c: int)
    requires b >= 2 && 0 <= a < b && 0 <= yi < b && 0 <= borrow < b && 0 <= xi < b
    ensures 0 <= d < b && 0 <= c < b
    ensures (-a) * yi + (-borrow) + xi == (-c) * b + d
  {
    var dble := a * yi + borrow;
    DoubleWord(a, yi, borrow, 0, b);
    DivBound(dble, b);
    BorrowRange(a, yi, borrow, dble % b, dble / b, b);
    BorrowArith(dble, dble % b, dble / b, xi, b);
    assert (-a) * yi == -(a * yi);
    var dig := dble % b;
    c := dble / b;
    if xi < dig { c := c + 1; }
    d := (xi - dig) % b;
  }

  lemma BorrowRange(a: int, yi: int, borrow: int, dig: int, hi: int, b: int)
    requires b >= 2 && 0 <= a < b && 0 <= yi < b && 0 <= borrow < b && 0 <= dig < b
    requires a * yi + borrow == hi * b + dig
    ensures hi < b - 1 || (hi == b - 1 && dig == 0)
  {
    MulMono(a, b - 1, yi);
    MulMono(yi, b - 1, b - 1);
    assert (b - 1) * yi == yi * (b - 1);
    assert (b - 1) * b == (b - 1) * (b - 1) + (b - 1);
    if hi >= b - 1 { MulMono(b - 1, hi, b); }
    if hi >= b { MulMono(b, hi, b); }
  }

  lemma BorrowArith(dble: int, dig: int, hi: int, xi: int, b: int)
    requires b >= 2 && dble == hi * b + dig && 0 <= dig < b && 0 <= xi < b
    ensures var d := (xi - dig) % b; var c := hi + (if xi < dig then 1 else 0);
      0 <= d < b && xi - dble == (-c) * b + d
  {
    DivModUnique(xi - dig, if xi < dig then -1 else 0, if xi < dig then xi - dig + b else xi - dig, b);
    assert (-(hi + 1)) * b == -(hi * b) - b;
    assert (-hi) * b == -(hi * b);
  }

  /** The add-back loop, with its carry recovered by comparing the wrapped sum with y[i]. */
  method AddBack(x: array<int>, m: nat, y: array<int>, n: nat, b: int) returns (carry: int)
    requires b >= 2 && y.Length == n && m + n <= x.Length && x != y && Norm(x[..], b) && Norm(y[..], b)
    modifies x
    ensures Norm(x[..], b) && 0 <= carry <= 1
    ensures forall k :: 0 <= k < x.Length && !(m <= k < m + n) ==> x[k] == old(x[k])
    ensures Val(x[m..m + n], b) + carry * Pow(b, n) == old(Val(x[m..m + n], b)) + Val(y[..], b)
  {
    hide Val;
    hide Pow;
    hide RowSum;
    ghost var x0 := x[..];
    RowSumEmpty(x[m..m], x0[m..m], 1, y[..0], b);
    carry := 0;
    var i := 0;
    while i < n
      invariant 0 <= i <= n && 0 <= carry <= 1 && Norm(x[..], b)
      invariant forall k :: 0 <= k < x.Length && !(m <= k < m + i) ==> x[k] == x0[k]
      invariant RowSum(x[m..m + i], carry, x0[m..m + i], 1, y[..i], b)
    {
      ghost var low, was := x[m..m + i], carry;
      CarryByComparison(x[m + i], y[i], carry, b);
      var psum := (x[m + i] + y[i] + carry) % b;
      if psum > y[i] { carry := 0; }
      if psum < y[i] { carry := 1; }
      x[m + i] := psum;
      RowSumStep(low, was, x0[m..m + i], 1, y[..i], y[i], x0[m + i], psum, carry, b);
      assert x[m..m + i + 1] == low + [psum];
      assert x0[m..m + i + 1] == x0[m..m + i] + [x0[m + i]];
      assert y[..i + 1] == y[..i] + [y[i]];
      i := i + 1;
    }
    assert y[..n] == y[..];
    RowSumOne(x[m..m + n], carry, x0[m..m + n], y[..], b);
  }

  lemma RowSumOne(s: seq<int>, c: int, s0: seq<int>, y: seq<int>, b: int)
    requires RowSum(s, c, s0, 1, y, b)
    ensures Val(s, b) + c * Pow(b, |s|) == Val(s0, b) + Val(y, b)
  {}

  lemma CarryByComparison(x: int, y: int, c: int, b: int)
    requires b >= 2 && 0 <= x < b && 0 <= y < b && 0 <= c <= 1
    ensures var p := (x + y + c) % b; var c' := if p > y then 0 else if p < y then 1 else c;
      0 <= p < b && x + y + c == c' * b + p
  {
    AddWrap(x + y + c, b);
  }

  /** One round of the long division: the n+1 limb window at m is replaced by its remainder mod y. */
  method DivideStep(x: array<int>, y: array<int>, k: nat, n: nat, b: int) returns (attemp: int)
    requires b >= 2 && n >= 2 && y.Length == n && x.Length == 2 * n + 1 && x != y && n - 1 <= k < 2 * n
    requires Norm(x[..], b) && Norm(y[..], b) && y[n - 1] > 0
    requires Val(x[k - n + 2..k + 2], b) < Val(y[..], b)
    modifies x
    ensures Norm(x[..], b) && x[k + 1] == 0
    ensures forall i :: 0 <= i < x.Length && !(k - n + 1 <= i <= k + 1) ==> x[i] == old(x[i])
    ensures 0 <= Val(x[k - n + 1..k + 1], b) < Val(y[..], b)
    ensures exists q: int :: old(Val(x[k - n + 1..k + 2], b)) == q * Val(y[..], b) + Val(x[k - n + 1..k + 1], b)
  {
    hide Val;
    hide Pow;
    var m := k - n + 1;
    ghost var w0 := x[m..k + 2];
    ghost var Y := Val(y[..], b);
    assert w0[1..] == x[m + 1..k + 2];
    WindowFacts(w0, y[..], n, b);
    attemp := GuessDigit(x[k + 1], x[k], x[k - 1], y[n - 1], y[n - 2], b);
    ghost var q := DigitFacts(w0, y[..], attemp, n, b);
    if attemp > 0 {
      var borrow := SubtractMultiple(x, m, y, attemp, n, b);
      assert w0 == w0[..n] + [w0[n]];
      ghost var w1 := x[m..m + n];
      assert old(x[m..m + n]) == w0[..n];
      SubtractFacts(w0, w1, borrow, y[..], attemp, q, n, b);
      if x[k + 1] < borrow {
        x[k + 1] := 0;
        assert x[m..m + n] == w1;
        var carry := AddBack(x, m, y, n, b);
        AddBackFacts(w0, w1, x[m..m + n], carry, borrow, y[..], attemp, q, n, b);
        attemp := attemp - 1;
      } else {
        x[k + 1] := x[k + 1] - borrow;
        assert x[m..m + n] == w1;
      }
    } else {
      NoSubtraction(w0, y[..], q, n, b);
      assert x[m..m + n] == w0[..n];
    }
    assert x[m..m + n] == x[k - n + 1..k + 1];
  }

  /** The divisor's top limb bounds the window's top limb. */
  lemma WindowFacts(w: seq<int>, y: seq<int>, n: nat, b: int)
    requires b >= 2 && n >= 2 && |w| == n + 1 && |y| == n && Norm(w, b) && Norm(y, b) && y[n - 1] > 0
    requires Val(w[1..], b) < Val(y, b)
    ensures w[n] <= y[n - 1]
    ensures 0 <= Val(w, b) < Val(y, b) * b
  {
    hide Val;
    hide Pow;
    var t := w[1..];
    assert t == t[..n - 1] + [w[n]] && y == y[..n - 1] + [y[n - 1]];
    ValSnoc(t[..n - 1], w[n], b);
    ValSnoc(y[..n - 1], y[n - 1], b);
    TopDecides(y[..n - 1], y[n - 1], t[..n - 1], w[n], b);
    WindowValue(w, Val(y, b), b);
  }

  lemma WindowValue(w: seq<int>, Y: int, b: int)
    requires b >= 2 && |w| >= 1 && Norm(w, b) && Val(w[1..], b) < Y
    ensures 0 <= Val(w, b) < Y * b
  {
    hide Val;
    hide Pow;
    var t := w[1..];
    assert w == [w[0]] + t;
    ValConcat([w[0]], t, b);
    ValSingle(w[0], b);
    PowOne(b);
    ValBound(w, b);
    MulMono(Val(t, b) + 1, Y, b);
    assert (Val(t, b) + 1) * b == b * Val(t, b) + b;
  }

  /** The guess is the true quotient digit q or one more. */
  lemma DigitFacts(w: seq<int>, y: seq<int>, a: int, n: nat, b: int) returns (q: int)
    requires b >= 2 && n >= 2 && |w| == n + 1 && |y| == n && Norm(w, b) && Norm(y, b) && y[n - 1] > 0
    requires 0 <= Val(w, b) < Val(y, b) * b && 0 <= a < b
    requires a * (y[n - 1] * b + y[n - 2]) <= (w[n] * b + w[n - 1]) * b + w[n - 2]
    requires a == b - 1 || (a + 1) * (y[n - 1] * b + y[n - 2]) > (w[n] * b + w[n - 1]) * b + w[n - 2]
    ensures 0 <= q <= a <= q + 1
    ensures 0 <= Val(w, b) - q * Val(y, b) < Val(y, b)
  {
    hide Pow;
    var u, v, p := (w[n] * b + w[n - 1]) * b + w[n - 2], y[n - 1] * b + y[n - 2], Pow(b, n - 2);
    TopThree(w, n, b);
    TopTwo(y, n, b);
    assert w[..n - 2] == w[..n - 2] && Norm(w[..n - 2], b) && Norm(y[..n - 2], b);
    ValBound(w[..n - 2], b);
    ValBound(y[..n - 2], b);
    MulMono(1, y[n - 1], b);
    LimbNonneg(w[n], w[n - 1], b);
    LimbNonneg(w[n] * b + w[n - 1], w[n - 2], b);
    var X, Y := Val(w, b), Val(y, b);
    q := DigitOf(X, Y, b);
    GuessWithinOne(a, u, v, Val(w[..n - 2], b), Val(y[..n - 2], b), p, q, b);
  }

  lemma LimbNonneg(h: int, l: int, b: int)
    requires h >= 0 && l >= 0 && b >= 0
    ensures h * b + l >= 0
  {}

  lemma DigitOf(X: int, Y: int, b: int) returns (q: int)
    requires 0 <= X < Y * b && b >= 2
    ensures 0 <= q < b && q * Y <= X < (q + 1) * Y && X - q * Y < Y
  {
    assert Y > 0 by { if Y <= 0 { MulMono(Y, 0, b); } }
    q := X / Y;
    assert X == q * Y + X % Y;
    assert (q + 1) * Y == q * Y + Y;
    if q < 0 { MulMono(q + 1, 0, Y); }
    assert b * Y == Y * b;
    if q >= b { MulMono(b, q, Y); }
  }

  lemma TopTwo(y: seq<int>, n: nat, b: int)
    requires n >= 2 && |y| == n
    ensures Val(y, b) == (y[n - 1] * b + y[n - 2]) * Pow(b, n - 2) + Val(y[..n - 2], b)
  {
    hide Val;
    ValPrefix(y, n - 1, b);
    ValPrefix(y, n - 2, b);
    assert y[..n] == y;
    CarryUp(y[n - 1] * b + y[n - 2], y[n - 2], y[n - 1], b, Pow(b, n - 2));
  }

  lemma TopThree(w: seq<int>, n: nat, b: int)
    requires n >= 2 && |w| == n + 1
    ensures Val(w, b) == ((w[n] * b + w[n - 1]) * b + w[n - 2]) * Pow(b, n - 2) + Val(w[..n - 2], b)
  {
    hide Val;
    ValPrefix(w, n, b);
    assert w[..n + 1] == w && w[..n][..n - 2] == w[..n - 2];
    TopTwo(w[..n], n, b);
    var p := Pow(b, n - 2);
    assert Pow(b, n - 1) == b * p && Pow(b, n) == b * (b * p);
    ThreeUp(w[n], w[n - 1], w[n - 2], b, p);
  }

  lemma ThreeUp(h: int, m: int, l: int, b: int, p: int)
    ensures ((h * b + m) * b + l) * p == h * (b * (b * p)) + (m * b + l) * p
  {
    assert ((h * b + m) * b + l) * p == ((h * b) * b) * p + (m * b + l) * p by {
      assert (h * b + m) * b + l == (h * b) * b + (m * b + l);
    }
    assert ((h * b) * b) * p == h * (b * (b * p)) by {
      assert ((h * b) * b) * p == (h * b) * (b * p);
      assert (h * b) * (b * p) == h * (b * (b * p));
    }
  }

  /** After the partial subtraction the sign of the window tells whether the guess was one too big. */
  lemma SubtractFacts(w: seq<int>, w1: seq<int>, borrow: int, y: seq<int>, a: int, q: int, n: nat, b: int)
    requires b >= 2 && |w| == n + 1 && |w1| == |y| == n && Norm(w, b) && Norm(w1, b) && Norm(y, b)
    requires Val(w1, b) - borrow * Pow(b, n) == Val(w[..n], b) - a * Val(y, b)
    requires 0 <= Val(w, b) - q * Val(y, b) < Val(y, b) && q <= a <= q + 1
    ensures w[n] < borrow ==> a == q + 1
    ensures w[n] >= borrow ==> w[n] == borrow && a == q && Val(w1, b) == Val(w, b) - q * Val(y, b)
  {
    hide Val;
    hide Pow;
    ValPrefix(w, n, b);
    assert w[..n + 1] == w;
    ValBound(w1, b);
    ValBound(y, b);
    Distribute3(w[n], 0, borrow, Pow(b, n), q, Val(y, b));
    SignDecides(Val(w1, b), w[n] - borrow, Pow(b, n), Val(w, b), Val(y, b), a, q);
  }

  lemma SignDecides(v1: int, top: int, p: int, W: int, Y: int, a: int, q: int)
    requires 0 <= v1 < p && 0 <= Y < p && v1 + top * p == W - a * Y
    requires 0 <= W - q * Y < Y && q <= a <= q + 1
    ensures top < 0 ==> a == q + 1
    ensures top >= 0 ==> top == 0 && a == q && v1 == W - q * Y
  {
    assert (q + 1) * Y == q * Y + Y;
    if top >= 1 { MulMono(1, top, p); }
    if top < 0 { MulMono(top, -1, p); }
  }

  lemma AddBackFacts(w: seq<int>, w1: seq<int>, w2: seq<int>, carry: int, borrow: int, y: seq<int>,
                     a: int, q: int, n: nat, b: int)
    requires b >= 2 && |w| == n + 1 && |w1| == |w2| == |y| == n && Norm(w, b) && Norm(w2, b) && Norm(y, b)
    requires Val(w1, b) - borrow * Pow(b, n) == Val(w[..n], b) - a * Val(y, b)
    requires Val(w2, b) + carry * Pow(b, n) == Val(w1, b) + Val(y, b)
    requires 0 <= Val(w, b) - q * Val(y, b) < Val(y, b) && a == q + 1
    ensures Val(w2, b) == Val(w, b) - q * Val(y, b)
  {
    hide Val;
    hide Pow;
    ValPrefix(w, n, b);
    assert w[..n + 1] == w;
    ValBound(w2, b);
    ValBound(y, b);
    Distribute3(w[n], carry, borrow, Pow(b, n), q, Val(y, b));
    SignDecides(Val(w2, b), w[n] + carry - borrow, Pow(b, n), Val(w, b), Val(y, b), q, q);
  }

  lemma Distribute3(h: int, c: int, d: int, p: int, q: int, y: int)
    ensures (h + c - d) * p == h * p + c * p - d * p
    ensures (q + 1) * y == q * y + y
  {}

  lemma NoSubtraction(w: seq<int>, y: seq<int>, q: int, n: nat, b: int)
    requires b >= 2 && |w| == n + 1 && |y| == n && Norm(w, b) && Norm(y, b) && q == 0
    requires 0 <= Val(w, b) - q * Val(y, b) < Val(y, b)
    ensures w[n] == 0 && Val(w[..n], b) == Val(w, b) - q * Val(y, b)
  {
    hide Val;
    hide Pow;
    ValPrefix(w, n, b);
    assert w[..n + 1] == w;
    ValBound(w[..n], b);
    ValBound(y, b);
    SignDecides(Val(w[..n], b), w[n], Pow(b, n), Val(w, b), Val(y, b), 0, 0);
  }

  /** x mod y by long division, for every divisor whose top limb is nonzero and every x below b^(2n). */
  method Divide(x: array<int>, y: array<int>, n: nat, b: int)
    requires b >= 2 && n >= 2 && y.Length == n && x.Length == 2 * n + 1 && x != y
    requires Norm(x[..], b) && Norm(y[..], b) && y[n - 1] > 0 && x[2 * n] == 0
    modifies x
    ensures Norm(x[..], b) && Val(y[..], b) > 0
    ensures forall i :: n <= i < 2 * n + 1 ==> x[i] == 0
    ensures Val(x[..n], b) == old(Val(x[..], b)) % Val(y[..], b)
  {
    hide Val;
    hide Pow;
    hide Cong;
    ghost var X, Y := Val(x[..], b), Val(y[..], b);
    DivisorSize(x[n + 1..2 * n + 1], y[..], n, b);
    CongFrom(X, X, 0, Y);
    var w00 := 2 * n;
    var k := w00 - 1;
    while k >= n - 1
      invariant n - 2 <= k <= 2 * n - 1 && Norm(x[..], b)
      invariant forall i :: k + 2 <= i < 2 * n + 1 ==> x[i] == 0
      invariant 0 <= Val(x[k - n + 2..k + 2], b) < Y
      invariant Cong(X, Val(x[..], b), Y)
    {
      ghost var before, m := x[..], k - n + 1;
      var attemp := DivideStep(x, y, k, n, b);
      ghost var q: int :| Val(before[m..k + 2], b) == q * Y + Val(x[m..k + 1], b);
      assert forall i :: 0 <= i < m ==> x[i] == before[i];
      WindowReplaced(before, x[..], m, k, n, q, X, Y, b);
      if k == w00 - 1 && attemp == 0 { w00 := w00 - 1; }
      k := k - 1;
      assert m == k - n + 2;
    }
    assert x[k - n + 2..k + 2] == x[..n];
    ValPad(x[..], n, b);
    assert x[..][..n] == x[..n];
    ReducedResidue(X, Val(x[..n], b), Y);
  }

  lemma ReducedResidue(X: int, r: int, Y: int)
    requires 0 <= r < Y && Cong(X, r, Y)
    ensures r == X % Y
  {
    SmallMod(r, Y);
  }

  /** Before the first round the window top has n-1 limbs, so it is below the divisor. */
  lemma DivisorSize(top: seq<int>, y: seq<int>, n: nat, b: int)
    requires b >= 2 && n >= 2 && |top| == |y| == n && Norm(top, b) && Norm(y, b)
    requires top[n - 1] == 0 && y[n - 1] > 0
    ensures 0 <= Val(top, b) < Val(y, b)
  {
    hide Val;
    hide Pow;
    assert top == top[..n - 1] + [0] && y == y[..n - 1] + [y[n - 1]];
    ValSnoc(top[..n - 1], 0, b);
    ValSnoc(y[..n - 1], y[n - 1], b);
    TopDecides(top[..n - 1], 0, y[..n - 1], y[n - 1], b);
    ValBound(top, b);
  }

  /** Replacing the window by its remainder keeps the value mod Y. */
  lemma WindowReplaced(x: seq<int>, x': seq<int>, m: nat, k: nat, n: nat, q: int, X: int, Y: int, b: int)
    requires |x| == |x'| == 2 * n + 1 && n >= 2 && m == k - n + 1 && k < 2 * n && Y > 0
    requires forall i :: k + 2 <= i < 2 * n + 1 ==> x[i] == 0
    requires forall i :: k + 1 <= i < 2 * n + 1 ==> x'[i] == 0
    requires forall i :: 0 <= i < m ==> x'[i] == x[i]
    requires Val(x[m..k + 2], b) == q * Y + Val(x'[m..k + 1], b)
    requires Cong(X, Val(x, b), Y)
    ensures Cong(X, Val(x', b), Y)
  {
    hide Val;
    hide Pow;
    hide Cong;
    ValWindow(x, m, k + 2, b);
    ValWindow(x', m, k + 1, b);
    assert x[..m] == x'[..m];
    MultipleDropped(Val(x[..m], b), Pow(b, m), Val(x[m..k + 2], b), q, Y, Val(x'[m..k + 1], b));
    CongTrans(X, Val(x, b), Val(x', b), Y);
  }

  lemma MultipleDropped(low: int, p: int, v: int, q: int, Y: int, r: int)
    requires Y > 0 && v == q * Y + r
    ensures Cong(low + p * v, low + p * r, Y)
  {
    assert p * v == (p * q) * Y + p * r;
    CongFrom(low + p * v, low + p * r, p * q, Y);
  }

  // ----- tr_modmul -------------------------------------------------------------------------

  /** r = a*b mod m by multiplication and long division; a and b need not be reduced. */
  method ModMul(a: array<int>, c: array<int>, m: array<int>, r: array<int>, n: nat, b: int)
    requires b >= 2 && n >= 2 && a.Length == n && c.Length == n && m.Length == n && r.Length == n && r != m
    requires Norm(a[..], b) && Norm(c[..], b) && Norm(m[..], b) && m[n - 1] > 0
    modifies r
    ensures Norm(r[..], b) && Val(m[..], b) > 0
    ensures Val(r[..], b) == old((Val(a[..], b) * Val(c[..], b))) % Val(m[..], b)
  {
    hide Val;
    hide Pow;
    ghost var A, C, M := a[..], c[..], m[..];
    var t := new int[2 * n + 1];
    Multiply(a, c, t, n, b);
    assert a[..] == A && c[..] == C && m[..] == M;
    Divide(t, m, n, b);
    ghost var T := t[..n];
    for i := 0 to n
      invariant forall k :: 0 <= k < i ==> r[k] == t[k]
      modifies r
    {
      r[i] := t[i];
    }
    assert r[..] == t[..n] == T && m[..] == M;
  }
}
