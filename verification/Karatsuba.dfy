/** In-place Karatsuba products over a shared workspace: full, square, low half and high half. */
module Karatsuba {
  import opened Arith
  import opened FieldDigits

  /** z is x times y. */
  ghost predicate IsProduct(z: int, x: int, y: int) {
    z == x * y
  }

  ghost predicate PowerOfTwo(n: nat) {
    n == 1 || (n >= 2 && n % 2 == 0 && PowerOfTwo(n / 2))
  }

  /** What z is after the two half products lo and hi and the middle term are put together. */
  lemma KaratsubaIdentity(x0: int, x1: int, y0: int, y1: int, p: int)
    ensures x0 * y0 + p * p * (x1 * y1) + p * ((x0 + x1) * (y0 + y1) - x0 * y0 - x1 * y1)
            == (x0 + p * x1) * (y0 + p * y1)
  {
    assert (x0 + x1) * (y0 + y1) - x0 * y0 - x1 * y1 == x0 * y1 + x1 * y0;
    assert (x0 + p * x1) * (y0 + p * y1) == x0 * y0 + p * (x0 * y1) + p * (x1 * y0) + p * p * (x1 * y1) by {
      assert (p * x1) * (p * y1) == p * p * (x1 * y1);
      assert x0 * (p * y1) == p * (x0 * y1) && (p * x1) * y0 == p * (x1 * y0);
      assert (x0 + p * x1) * (y0 + p * y1) == x0 * y0 + x0 * (p * y1) + (p * x1) * y0 + (p * x1) * (p * y1);
    }
    assert p * (x0 * y1 + x1 * y0) == p * (x0 * y1) + p * (x1 * y0);
  }

  lemma Halves(n: nat, W: int)
    requires n >= 2 && n % 2 == 0
    ensures n / 2 + n / 2 == n && Pow(W, n) == Pow(W, n / 2) * Pow(W, n / 2)
  {
    PowAdd(W, n / 2, n / 2);
  }

  /** One BIG product, kept as a double-length number in t[tp], t[tp+1], then split at W. */
  method MulDigit(m: array<int>, zp: nat, xp: nat, yp: nat, tp: nat, W: int, C: int)
    requires W >= 2 && C >= 1 && zp + 2 <= m.Length && tp + 2 <= m.Length && xp < m.Length && yp < m.Length
    requires Apart(zp, 2, xp, 1) && Apart(zp, 2, yp, 1) && Apart(tp, 2, xp, 1) && Apart(tp, 2, yp, 1)
    requires Apart(zp, 2, tp, 2)
    modifies m
    ensures SameBut2(old(m[..]), m[..], zp, 2, tp, 2)
    ensures IsProduct(Num(m[..], zp, 2, W), old(m[xp]), old(m[yp])) && NormAt(m[..], zp, 1, W)
  {
    hide Num;
    var prod := m[xp] * m[yp];
    m[tp], m[tp + 1] := prod % C, prod / C;
    var d := m[tp] + C * m[tp + 1];
    assert d == prod;
    m[zp], m[zp + 1] := d % W, d / W;
    PairValue(m[..], zp, W);
    assert d == (d / W) * W + d % W;
  }

  /** The operand sums x0 + x1 and y0 + y1, built where z will be and normalised. */
  method OperandSums(m: array<int>, zp: nat, xp: nat, yp: nat, h: nat, W: int)
    requires W >= 2 && h >= 1 && zp + 2 * h <= m.Length && xp + 2 * h <= m.Length && yp + 2 * h <= m.Length
    requires Apart(zp, 2 * h, xp, 2 * h) && Apart(zp, 2 * h, yp, 2 * h)
    modifies m
    ensures SameBut(old(m[..]), m[..], zp, 2 * h)
    ensures Num(m[..], zp, h, W) == old(Num(m[..], xp, h, W) + Num(m[..], xp + h, h, W))
    ensures Num(m[..], zp + h, h, W) == old(Num(m[..], yp, h, W) + Num(m[..], yp + h, h, W))
  {
    hide Num;
    hide IsProduct;
    ghost var m0 := m[..];
    Add(m, zp, xp, xp + h, h, W);
    Normalise(m, zp, h, W);
    ghost var m1 := m[..];
    NumKept(m0, m1, zp, h, yp, h, W);
    NumKept(m0, m1, zp, h, yp + h, h, W);
    Add(m, zp + h, yp, yp + h, h, W);
    Normalise(m, zp + h, h, W);
    NumKept(m1, m[..], zp + h, h, zp, h, W);
  }

  /** t -= z0; t -= z1; z += t at digit n/2; normalise. */
  method Combine(m: array<int>, zp: nat, tp: nat, n: nat, W: int)
    requires W >= 2 && n >= 2 && n % 2 == 0 && zp + 2 * n <= m.Length && tp + n <= m.Length
    requires Apart(zp, 2 * n, tp, n)
    modifies m
    ensures SameBut2(old(m[..]), m[..], zp, 2 * n, tp, n)
    ensures Num(m[..], zp, 2 * n, W) == old(Num(m[..], zp, 2 * n, W)) + Pow(W, n / 2) *
            old(Num(m[..], tp, n, W) - Num(m[..], zp, n, W) - Num(m[..], zp + n, n, W))
    ensures NormAt(m[..], zp, 2 * n - 1, W)
  {
    hide Num;
    hide IsProduct;
    hide Pow;
    ghost var m0 := m[..];
    Sub(m, tp, tp, zp, n, W);
    NumKept(m0, m[..], tp, n, zp + n, n, W);
    Sub(m, tp, tp, zp + n, n, W);
    ghost var m1 := m[..];
    NumKept(m0, m1, tp, n, zp, 2 * n, W);
    AddMiddle(m, zp, n / 2, 2 * n, tp, n, W);
    Normalise(m, zp, 2 * n, W);
  }

  /** Adds the k digits at tp into the middle of the n digits at zp, from digit a. */
  method AddMiddle(m: array<int>, zp: nat, a: nat, n: nat, tp: nat, k: nat, ghost W: int)
    requires zp + n <= m.Length && tp + k <= m.Length && a + k <= n && Apart(zp + a, k, tp, k)
    modifies m
    ensures SameBut(old(m[..]), m[..], zp + a, k)
    ensures Num(m[..], zp, n, W) == old(Num(m[..], zp, n, W)) + Pow(W, a) * old(Num(m[..], tp, k, W))
  {
    hide Num;
    hide IsProduct;
    hide Pow;
    ghost var m0 := m[..];
    Add(m, zp + a, zp + a, tp, k, W);
    NumDelta(m0, m[..], zp, n, a, k, W);
  }

  /** z = x*y for every power-of-two length and any digits; only z and t[tp..tp+2n) are written. */
  method KarMul(m: array<int>, zp: nat, xp: nat, yp: nat, tp: nat, n: nat, W: int, C: int)
    requires W >= 2 && C >= 1 && PowerOfTwo(n)
    requires zp + 2 * n <= m.Length && tp + 2 * n <= m.Length && xp + n <= m.Length && yp + n <= m.Length
    requires Apart(zp, 2 * n, xp, n) && Apart(zp, 2 * n, yp, n)
    requires Apart(tp, 2 * n, xp, n) && Apart(tp, 2 * n, yp, n) && Apart(zp, 2 * n, tp, 2 * n)
    modifies m
    ensures SameBut2(old(m[..]), m[..], zp, 2 * n, tp, 2 * n)
    ensures IsProduct(Num(m[..], zp, 2 * n, W), old(Num(m[..], xp, n, W)), old(Num(m[..], yp, n, W)))
    ensures NormAt(m[..], zp, 2 * n - 1, W)
    decreases n
  {
    hide Num;
    hide IsProduct;
    hide Pow;
    hide Parts;
    ghost var m0 := m[..];
    if n == 1 {
      SingleValue(m[..], xp, W);
      SingleValue(m[..], yp, W);
      MulDigit(m, zp, xp, yp, tp, W, C);
      return;
    }
    var h := n / 2;
    assert 2 * h == n;
    KarMulParts(m, zp, xp, yp, tp, n, W, C);
    ghost var m3 := m[..];
    Combine(m, zp, tp, n, W);
    KarMulValue(m0, m3, m[..], zp, xp, yp, tp, n, W);
  }

  /** t holds (x0+x1)(y0+y1); the halves of z hold x0*y0 and x1*y1. x and y are read in m0. */
  ghost predicate Parts(m0: seq<int>, m: seq<int>, zp: nat, xp: nat, yp: nat, tp: nat, n: nat, W: int) {
    && n >= 2 && n % 2 == 0 && |m0| == |m|
    && zp + 2 * n <= |m0| && tp + n <= |m0| && xp + n <= |m0| && yp + n <= |m0|
    && var h := n / 2;
       && IsProduct(Num(m, tp, n, W), Num(m0, xp, h, W) + Num(m0, xp + h, h, W), Num(m0, yp, h, W) + Num(m0, yp + h, h, W))
       && IsProduct(Num(m, zp, n, W), Num(m0, xp, h, W), Num(m0, yp, h, W))
       && IsProduct(Num(m, zp + n, n, W), Num(m0, xp + h, h, W), Num(m0, yp + h, h, W))
  }

  method KarMulParts(m: array<int>, zp: nat, xp: nat, yp: nat, tp: nat, n: nat, W: int, C: int)
    requires W >= 2 && C >= 1 && PowerOfTwo(n) && n >= 2
    requires zp + 2 * n <= m.Length && tp + 2 * n <= m.Length && xp + n <= m.Length && yp + n <= m.Length
    requires Apart(zp, 2 * n, xp, n) && Apart(zp, 2 * n, yp, n)
    requires Apart(tp, 2 * n, xp, n) && Apart(tp, 2 * n, yp, n) && Apart(zp, 2 * n, tp, 2 * n)
    modifies m
    ensures SameBut2(old(m[..]), m[..], zp, 2 * n, tp, 2 * n)
    ensures Parts(old(m[..]), m[..], zp, xp, yp, tp, n, W)
    decreases n, 1
  {
    hide Num;
    hide IsProduct;
    hide Pow;
    ghost var m0 := m[..];
    var h := n / 2;
    OperandSums(m, zp, xp, yp, h, W);
    KarMul(m, tp, zp, zp + h, tp + n, h, W, C);
    ghost var m2 := m[..];
    KarMulHalves(m, zp, xp, yp, tp + n, n, W, C, m0);
    NumKept2(m2, m[..], zp, 2 * n, tp + n, n, tp, n, W);
  }

  /** The two half products x0*y0 and x1*y1, written to the two halves of z. */
  method KarMulHalves(m: array<int>, zp: nat, xp: nat, yp: nat, tp: nat, n: nat, W: int, C: int, ghost m0: seq<int>)
    requires W >= 2 && C >= 1 && PowerOfTwo(n) && n >= 2
    requires zp + 2 * n <= m.Length && tp + n <= m.Length && xp + n <= m.Length && yp + n <= m.Length
    requires Apart(zp, 2 * n, xp, n) && Apart(zp, 2 * n, yp, n)
    requires Apart(tp, n, xp, n) && Apart(tp, n, yp, n) && Apart(zp, 2 * n, tp, n)
    requires |m0| == m.Length && forall i :: xp <= i < xp + n || yp <= i < yp + n ==> m[i] == m0[i]
    modifies m
    ensures SameBut2(old(m[..]), m[..], zp, 2 * n, tp, n)
    ensures IsProduct(Num(m[..], zp, n, W), Num(m0, xp, n / 2, W), Num(m0, yp, n / 2, W))
    ensures IsProduct(Num(m[..], zp + n, n, W), Num(m0, xp + n / 2, n / 2, W), Num(m0, yp + n / 2, n / 2, W))
    decreases n, 0
  {
    hide Num;
    hide IsProduct;
    hide Pow;
    var h := n / 2;
    NumAgree(m[..], m0, xp, h, W);
    NumAgree(m[..], m0, yp, h, W);
    KarMul(m, zp, xp, yp, tp, h, W, C);
    ghost var m1 := m[..];
    NumAgree(m1, m0, xp + h, h, W);
    NumAgree(m1, m0, yp + h, h, W);
    KarMul(m, zp + n, xp + h, yp + h, tp, h, W, C);
    NumKept2(m1, m[..], zp + n, n, tp, n, zp, n, W);
  }

  lemma KarMulValue(m0: seq<int>, m3: seq<int>, m4: seq<int>, zp: nat, xp: nat, yp: nat, tp: nat, n: nat, W: int)
    requires Parts(m0, m3, zp, xp, yp, tp, n, W) && |m4| == |m0|
    requires Num(m4, zp, 2 * n, W) == Num(m3, zp, 2 * n, W) + Pow(W, n / 2) *
             (Num(m3, tp, n, W) - Num(m3, zp, n, W) - Num(m3, zp + n, n, W))
    ensures IsProduct(Num(m4, zp, 2 * n, W), Num(m0, xp, n, W), Num(m0, yp, n, W))
  {
    hide Num;
    hide Pow;
    var h := n / 2;
    Halves(n, W);
    NumSplit(m3, zp, n, 2 * n, W);
    NumSplit(m0, xp, h, n, W);
    NumSplit(m0, yp, h, n, W);
    KaratsubaIdentity(Num(m0, xp, h, W), Num(m0, xp + h, h, W), Num(m0, yp, h, W), Num(m0, yp + h, h, W), Pow(W, h));
  }

  /** Normalises k digits in the middle of the n digits at zp, from digit a; the number stays. */
  method NormaliseMiddle(m: array<int>, zp: nat, a: nat, n: nat, k: nat, W: int)
    requires W >= 2 && k >= 1 && zp + n <= m.Length && a + k <= n
    modifies m
    ensures SameBut(old(m[..]), m[..], zp + a, k)
    ensures Num(m[..], zp, n, W) == old(Num(m[..], zp, n, W)) && NormAt(m[..], zp + a, k - 1, W)
  {
    hide Num;
    hide IsProduct;
    hide Pow;
    ghost var m0 := m[..];
    Normalise(m, zp + a, k, W);
    NumDelta(m0, m[..], zp, n, a, k, W);
    assert Pow(W, a) * 0 == 0;
  }

  // ----- FF_karsqr -------------------------------------------------------------------------

  /** z = x*x, the number KarMul(x, x) gives. Only the lower half of z is sure to be normalised. */
  method KarSqr(m: array<int>, zp: nat, xp: nat, tp: nat, n: nat, W: int, C: int)
    requires W >= 2 && C >= 1 && PowerOfTwo(n)
    requires zp + 2 * n <= m.Length && tp + 2 * n <= m.Length && xp + n <= m.Length
    requires Apart(zp, 2 * n, xp, n) && Apart(tp, 2 * n, xp, n) && Apart(zp, 2 * n, tp, 2 * n)
    modifies m
    ensures SameBut2(old(m[..]), m[..], zp, 2 * n, tp, 2 * n)
    ensures IsProduct(Num(m[..], zp, 2 * n, W), old(Num(m[..], xp, n, W)), old(Num(m[..], xp, n, W)))
    ensures NormAt(m[..], zp, n, W)
    decreases n
  {
    hide Num;
    hide IsProduct;
    hide Pow;
    ghost var m0 := m[..];
    if n == 1 {
      SingleValue(m[..], xp, W);
      MulDigit(m, zp, xp, xp, tp, W, C);
      return;
    }
    var h := n / 2;
    assert 2 * h == n;
    KarSqrParts(m, zp, xp, tp, n, W, C);
    ghost var m3 := m[..];
    KarSqrJoin(m, zp, tp, n, W);
    KarSqrValue(m0, m3, m[..], zp, xp, tp, n, W);
  }

  /** The two half squares, written to z, and the cross product, written to t. */
  method KarSqrParts(m: array<int>, zp: nat, xp: nat, tp: nat, n: nat, W: int, C: int)
    requires W >= 2 && C >= 1 && PowerOfTwo(n) && n >= 2
    requires zp + 2 * n <= m.Length && tp + 2 * n <= m.Length && xp + n <= m.Length
    requires Apart(zp, 2 * n, xp, n) && Apart(tp, 2 * n, xp, n) && Apart(zp, 2 * n, tp, 2 * n)
    modifies m
    ensures SameBut2(old(m[..]), m[..], zp, 2 * n, tp, 2 * n)
    ensures IsProduct(Num(m[..], zp, n, W), old(Num(m[..], xp, n / 2, W)), old(Num(m[..], xp, n / 2, W)))
    ensures IsProduct(Num(m[..], zp + n, n, W), old(Num(m[..], xp + n / 2, n / 2, W)), old(Num(m[..], xp + n / 2, n / 2, W)))
    ensures IsProduct(Num(m[..], tp, n, W), old(Num(m[..], xp, n / 2, W)), old(Num(m[..], xp + n / 2, n / 2, W)))
    ensures NormAt(m[..], zp, n / 2, W)
    decreases n, 0
  {
    hide Num;
    hide IsProduct;
    hide Pow;
    ghost var m0 := m[..];
    var h := n / 2;
    KarSqr(m, zp, xp, tp + n, h, W, C);
    ghost var m1 := m[..];
    NumAgree(m0, m1, xp + h, h, W);
    KarSqr(m, zp + n, xp + h, tp + n, h, W, C);
    ghost var m2 := m[..];
    NumAgree(m1, m2, zp, n, W);
    KarSqrCross(m, xp, tp, n, W, C, m0);
    NumAgree(m2, m[..], zp, n, W);
    NumAgree(m2, m[..], zp + n, n, W);
  }

  method KarSqrCross(m: array<int>, xp: nat, tp: nat, n: nat, W: int, C: int, ghost m0: seq<int>)
    requires W >= 2 && C >= 1 && PowerOfTwo(n) && n >= 2
    requires tp + 2 * n <= m.Length && xp + n <= m.Length && Apart(tp, 2 * n, xp, n)
    requires |m0| == m.Length && forall i :: xp <= i < xp + n ==> m[i] == m0[i]
    modifies m
    ensures SameBut(old(m[..]), m[..], tp, 2 * n)
    ensures IsProduct(Num(m[..], tp, n, W), Num(m0, xp, n / 2, W), Num(m0, xp + n / 2, n / 2, W))
  {
    hide Num;
    hide IsProduct;
    hide Pow;
    var h := n / 2;
    NumAgree(m[..], m0, xp, h, W);
    NumAgree(m[..], m0, xp + h, h, W);
    KarMul(m, tp, xp, xp + h, tp + n, h, W, C);
  }

  /** z += 2*t at digit n/2, then the middle n digits are normalised. */
  method KarSqrJoin(m: array<int>, zp: nat, tp: nat, n: nat, W: int)
    requires W >= 2 && n >= 2 && n % 2 == 0 && zp + 2 * n <= m.Length && tp + n <= m.Length
    requires Apart(zp, 2 * n, tp, n) && NormAt(m[..], zp, n / 2, W)
    modifies m
    ensures SameBut2(old(m[..]), m[..], zp, 2 * n, tp, n)
    ensures Num(m[..], zp, 2 * n, W) ==
            old(Num(m[..], zp, 2 * n, W)) + Pow(W, n / 2) * old(Num(m[..], tp, n, W)) + Pow(W, n / 2) * old(Num(m[..], tp, n, W))
    ensures NormAt(m[..], zp, n, W)
  {
    hide Num;
    hide IsProduct;
    hide Pow;
    ghost var m0 := m[..];
    AddMiddle(m, zp, n / 2, 2 * n, tp, n, W);
    NumAgree(m0, m[..], tp, n, W);
    AddMiddle(m, zp, n / 2, 2 * n, tp, n, W);
    NormaliseMiddle(m, zp, n / 2, 2 * n, n, W);
  }

  lemma KarSqrValue(m0: seq<int>, m3: seq<int>, m4: seq<int>, zp: nat, xp: nat, tp: nat, n: nat, W: int)
    requires n >= 2 && n % 2 == 0 && |m0| == |m3| == |m4|
    requires zp + 2 * n <= |m0| && tp + n <= |m0| && xp + n <= |m0|
    requires var h := n / 2;
      && IsProduct(Num(m3, tp, n, W), Num(m0, xp, h, W), Num(m0, xp + h, h, W))
      && IsProduct(Num(m3, zp, n, W), Num(m0, xp, h, W), Num(m0, xp, h, W))
      && IsProduct(Num(m3, zp + n, n, W), Num(m0, xp + h, h, W), Num(m0, xp + h, h, W))
    requires Num(m4, zp, 2 * n, W) ==
             Num(m3, zp, 2 * n, W) + Pow(W, n / 2) * Num(m3, tp, n, W) + Pow(W, n / 2) * Num(m3, tp, n, W)
    ensures IsProduct(Num(m4, zp, 2 * n, W), Num(m0, xp, n, W), Num(m0, xp, n, W))
  {
    hide Num;
    hide Pow;
    var h := n / 2;
    Halves(n, W);
    NumSplit(m3, zp, n, 2 * n, W);
    NumSplit(m0, xp, h, n, W);
    SquareIdentity(Num(m0, xp, h, W), Num(m0, xp + h, h, W), Pow(W, h));
  }

  lemma SquareIdentity(x0: int, x1: int, p: int)
    ensures x0 * x0 + p * p * (x1 * x1) + p * (x0 * x1) + p * (x0 * x1) == (x0 + p * x1) * (x0 + p * x1)
  {
    assert (p * x1) * (p * x1) == p * p * (x1 * x1);
    assert x0 * (p * x1) == p * (x0 * x1);
    assert (x0 + p * x1) * (x0 + p * x1) == x0 * x0 + x0 * (p * x1) + x0 * (p * x1) + (p * x1) * (p * x1);
  }

  // ----- FF_karmul_lower -------------------------------------------------------------------

  /** z = x*y mod W^n, exactly, for n >= 2; a single digit only agrees with x*y mod W. */
  method KarMulLower(m: array<int>, zp: nat, xp: nat, yp: nat, tp: nat, n: nat, W: int, C: int)
    requires W >= 2 && C >= 1 && C % W == 0 && PowerOfTwo(n)
    requires zp + n <= m.Length && tp + 2 * n <= m.Length && xp + n <= m.Length && yp + n <= m.Length
    requires Apart(zp, n, xp, n) && Apart(zp, n, yp, n)
    requires Apart(tp, 2 * n, xp, n) && Apart(tp, 2 * n, yp, n) && Apart(zp, n, tp, 2 * n)
    modifies m
    ensures SameBut2(old(m[..]), m[..], zp, n, tp, 2 * n)
    ensures Pow(W, n) > 0
    ensures Cong(Num(m[..], zp, n, W), old(Num(m[..], xp, n, W)) * old(Num(m[..], yp, n, W)), Pow(W, n))
    ensures n >= 2 ==> NormAt(m[..], zp, n, W)
    decreases n
  {
    hide Num;
    hide IsProduct;
    hide Pow;
    hide Cong;
    ghost var m0 := m[..];
    PowPos(W, n);
    if n == 1 {
      MulLowDigit(m, zp, xp, yp, W, C);
      return;
    }
    var h := n / 2;
    assert 2 * h == n;
    KarMul(m, zp, xp, yp, tp + n, h, W, C);
    ghost var m1 := m[..];
    ghost var t1 := AddCross(m, zp, xp + h, yp, tp, n, W, C, m0);
    ghost var m2 := m[..];
    ghost var t2 := AddCross(m, zp, xp, yp + h, tp, n, W, C, m0);
    ghost var m3 := m[..];
    Truncate(m, zp + h, h, W);
    KarMulLowerValue(m0, m1, m3, m[..], zp, xp, yp, h, t1, t2, W);
  }

  /** z[h..2h) += the low half of a cross product, computed in t. */
  method AddCross(m: array<int>, zp: nat, xp: nat, yp: nat, tp: nat, n: nat, W: int, C: int, ghost m0: seq<int>)
    returns (ghost t: int)
    requires W >= 2 && C >= 1 && C % W == 0 && PowerOfTwo(n) && n >= 2
    requires zp + n <= m.Length && tp + 2 * n <= m.Length && xp + n / 2 <= m.Length && yp + n / 2 <= m.Length
    requires Apart(tp, 2 * n, xp, n / 2) && Apart(tp, 2 * n, yp, n / 2) && Apart(zp, n, tp, 2 * n)
    requires |m0| == m.Length && forall i :: xp <= i < xp + n / 2 || yp <= i < yp + n / 2 ==> m[i] == m0[i]
    modifies m
    ensures SameBut2(old(m[..]), m[..], zp + n / 2, n / 2, tp, 2 * n)
    ensures Pow(W, n / 2) > 0 && Cong(t, Num(m0, xp, n / 2, W) * Num(m0, yp, n / 2, W), Pow(W, n / 2))
    ensures Num(m[..], zp + n / 2, n / 2, W) == old(Num(m[..], zp + n / 2, n / 2, W)) + t
    decreases n, 0
  {
    hide Num;
    hide IsProduct;
    hide Pow;
    hide Cong;
    var h := n / 2;
    ghost var m1 := m[..];
    NumAgree(m1, m0, xp, h, W);
    NumAgree(m1, m0, yp, h, W);
    KarMulLower(m, tp, xp, yp, tp + n, h, W, C);
    t := Num(m[..], tp, h, W);
    AddLower(m, zp, tp, h, W, m1);
  }

  /** z[h..2h) += t, where z still is what m1 held. */
  method AddLower(m: array<int>, zp: nat, tp: nat, h: nat, ghost W: int, ghost m1: seq<int>)
    requires zp + 2 * h <= m.Length && tp + h <= m.Length && Apart(zp, 2 * h, tp, h)
    requires |m1| == m.Length && forall i :: zp <= i < zp + 2 * h ==> m[i] == m1[i]
    modifies m
    ensures SameBut(old(m[..]), m[..], zp + h, h)
    ensures Num(m[..], zp + h, h, W) == Num(m1, zp + h, h, W) + old(Num(m[..], tp, h, W))
  {
    hide Num;
    hide IsProduct;
    NumAgree(m1, m[..], zp + h, h, W);
    Add(m, zp + h, zp + h, tp, h, W);
  }

  /** One BIG product cut off at the capacity C of a BIG. */
  method MulLowDigit(m: array<int>, zp: nat, xp: nat, yp: nat, W: int, C: int)
    requires W >= 2 && C >= 1 && C % W == 0 && zp < m.Length && xp < m.Length && yp < m.Length
    modifies m
    ensures SameBut(old(m[..]), m[..], zp, 1) && Pow(W, 1) > 0
    ensures Cong(Num(m[..], zp, 1, W), old(Num(m[..], xp, 1, W)) * old(Num(m[..], yp, 1, W)), Pow(W, 1))
  {
    hide Num;
    hide IsProduct;
    hide Pow;
    hide Cong;
    SingleValue(m[..], xp, W);
    SingleValue(m[..], yp, W);
    LowDigitProduct(m[xp] * m[yp], W, C);
    m[zp] := (m[xp] * m[yp]) % C;
    SingleValue(m[..], zp, W);
  }

  lemma LowDigitProduct(v: int, W: int, C: int)
    requires W >= 2 && C >= 1 && C % W == 0
    ensures Pow(W, 1) == W && Cong(v % C, v, W)
  {
    var k := C / W;
    assert C == k * W;
    assert v == (v / C) * C + v % C;
    assert (-(v / C)) * k * W == -((v / C) * C) by { assert (v / C) * (k * W) == (v / C) * k * W; }
    CongFrom(v % C, v, (-(v / C)) * k, W);
    assert Pow(W, 0) == 1;
  }

  lemma KarMulLowerValue(m0: seq<int>, m1: seq<int>, m3: seq<int>, m4: seq<int>, zp: nat, xp: nat, yp: nat, h: nat,
                         t1: int, t2: int, W: int)
    requires W >= 2 && h >= 1 && |m0| == |m1| == |m3| == |m4|
    requires zp + 2 * h <= |m0| && xp + 2 * h <= |m0| && yp + 2 * h <= |m0|
    requires Pow(W, h) > 0 && Pow(W, 2 * h) > 0
    requires IsProduct(Num(m1, zp, 2 * h, W), Num(m0, xp, h, W), Num(m0, yp, h, W))
    requires Cong(t1, Num(m0, xp + h, h, W) * Num(m0, yp, h, W), Pow(W, h))
    requires Cong(t2, Num(m0, xp, h, W) * Num(m0, yp + h, h, W), Pow(W, h))
    requires Num(m3, zp + h, h, W) == Num(m1, zp + h, h, W) + t1 + t2
    requires Num(m4, zp + h, h, W) == Num(m3, zp + h, h, W) % Pow(W, h)
    requires forall i :: zp <= i < zp + h ==> m4[i] == m1[i]
    ensures Cong(Num(m4, zp, 2 * h, W), Num(m0, xp, 2 * h, W) * Num(m0, yp, 2 * h, W), Pow(W, 2 * h))
  {
    hide Num;
    hide Pow;
    hide Cong;
    Halves(2 * h, W);
    NumAgree(m1, m4, zp, h, W);
    NumSplit(m1, zp, h, 2 * h, W);
    NumSplit(m4, zp, h, 2 * h, W);
    NumSplit(m0, xp, h, 2 * h, W);
    NumSplit(m0, yp, h, 2 * h, W);
    CongMod(Num(m3, zp + h, h, W), Pow(W, h));
    LowerIdentity(Num(m0, xp, h, W), Num(m0, xp + h, h, W), Num(m0, yp, h, W), Num(m0, yp + h, h, W), Pow(W, h),
                  Num(m1, zp, h, W), Num(m1, zp + h, h, W), t1, t2, Num(m4, zp + h, h, W));
  }

  /** lo + p*mid stands for the low half when mid is right mod p. */
  lemma LowerIdentity(x0: int, x1: int, y0: int, y1: int, p: int, z0: int, zh: int, t1: int, t2: int, z1: int)
    requires p > 0 && z0 + p * zh == x0 * y0
    requires Cong(t1, x1 * y0, p) && Cong(t2, x0 * y1, p) && Cong(z1, zh + t1 + t2, p)
    ensures p * p > 0 && Cong(z0 + p * z1, (x0 + p * x1) * (y0 + p * y1), p * p)
  {
    hide Cong;
    MulMono(1, p, p);
    CongFrom(zh, zh, 0, p);
    CongAdd(zh, zh, t1, x1 * y0, p);
    CongAdd(zh + t1, zh + x1 * y0, t2, x0 * y1, p);
    CongTrans(z1, zh + t1 + t2, zh + x1 * y0 + x0 * y1, p);
    var k := CongWitness(z1, zh + x1 * y0 + x0 * y1, p);
    LowerArith(x0, x1, y0, y1, p, z0, zh, z1, k);
    CongFrom(z0 + p * z1, (x0 + p * x1) * (y0 + p * y1), k - x1 * y1, p * p);
  }

  lemma LowerArith(x0: int, x1: int, y0: int, y1: int, p: int, z0: int, zh: int, z1: int, k: int)
    requires z0 + p * zh == x0 * y0 && z1 == zh + x1 * y0 + x0 * y1 + k * p
    ensures z0 + p * z1 == (x0 + p * x1) * (y0 + p * y1) + (k - x1 * y1) * (p * p)
  {
    assert p * z1 == p * zh + p * (x1 * y0) + p * (x0 * y1) + k * (p * p) by {
      assert p * (k * p) == k * (p * p);
    }
    KaratsubaIdentity(x0, x1, y0, y1, p);
    assert (x0 + x1) * (y0 + y1) - x0 * y0 - x1 * y1 == x0 * y1 + x1 * y0;
    assert p * (x0 * y1 + x1 * y0) == p * (x0 * y1) + p * (x1 * y0);
    assert (k - x1 * y1) * (p * p) == k * (p * p) - p * p * (x1 * y1);
  }

  // ----- FF_karmul_upper -------------------------------------------------------------------

  /**
   * Given the low half of x*y already in z, completes z to the whole product. Only two half-size products are
   * computed; the third one, x0*y0, is recovered from the low half.
   */
  method KarMulUpper(m: array<int>, zp: nat, xp: nat, yp: nat, tp: nat, n: nat, W: int, C: int)
    requires W >= 2 && C >= 1 && PowerOfTwo(n) && n >= 2
    requires zp + 2 * n <= m.Length && tp + 2 * n <= m.Length && xp + n <= m.Length && yp + n <= m.Length
    requires Apart(zp, 2 * n, xp, n) && Apart(zp, 2 * n, yp, n)
    requires Apart(tp, 2 * n, xp, n) && Apart(tp, 2 * n, yp, n) && Apart(zp, 2 * n, tp, 2 * n)
    requires NormAt(m[..], xp, n, W) && NormAt(m[..], yp, n, W)
    requires LowHalfOf(Num(m[..], zp, n, W), Num(m[..], xp, n, W), Num(m[..], yp, n, W), Pow(W, n))
    modifies m
    ensures SameBut2(old(m[..]), m[..], zp, 2 * n, tp, 2 * n)
    ensures IsProduct(Num(m[..], zp, 2 * n, W), old(Num(m[..], xp, n, W)), old(Num(m[..], yp, n, W)))
    ensures NormAt(m[..], zp, n, W)
  {
    hide Num;
    hide IsProduct;
    hide Pow;
    hide LowHalfOf;
    hide CutAt;
    hide CrossSum;
    ghost var m0 := m[..];
    UpperProducts(m, zp, xp, yp, tp, n, W, C);
    ghost var m1 := m[..];
    NumAgree(m0, m1, zp, n, W);
    UpperRecover(m, zp, tp, n, W);
    ghost var m2 := m[..];
    CrossSumIs(m0, m1, m2, zp, xp, yp, tp, n, W);
    UpperLow(m0, m1, m2, zp, xp, yp, tp, n, W);
    NumAgree(m1, m2, zp + n, n, W);
    UpperJoin(m, zp, tp, n, W);
    UpperValue(m0, m2, m[..], zp, xp, yp, tp, n, W);
  }

  /** t = (x0+x1)(y0+y1) and the high half of z = x1*y1; the low half of z is kept. */
  method UpperProducts(m: array<int>, zp: nat, xp: nat, yp: nat, tp: nat, n: nat, W: int, C: int)
    requires W >= 2 && C >= 1 && PowerOfTwo(n) && n >= 2
    requires zp + 2 * n <= m.Length && tp + 2 * n <= m.Length && xp + n <= m.Length && yp + n <= m.Length
    requires Apart(zp, 2 * n, xp, n) && Apart(zp, 2 * n, yp, n)
    requires Apart(tp, 2 * n, xp, n) && Apart(tp, 2 * n, yp, n) && Apart(zp, 2 * n, tp, 2 * n)
    modifies m
    ensures SameBut2(old(m[..]), m[..], zp + n, n, tp, 2 * n)
    ensures IsProduct(Num(m[..], tp, n, W), old(Num(m[..], yp, n / 2, W) + Num(m[..], yp + n / 2, n / 2, W)),
                      old(Num(m[..], xp, n / 2, W) + Num(m[..], xp + n / 2, n / 2, W)))
    ensures IsProduct(Num(m[..], zp + n, n, W), old(Num(m[..], xp + n / 2, n / 2, W)), old(Num(m[..], yp + n / 2, n / 2, W)))
  {
    hide Num;
    hide IsProduct;
    hide Pow;
    ghost var m0 := m[..];
    var h := n / 2;
    RawSums(m, zp + n, xp, yp, h, W);
    KarMul(m, tp, zp + n + h, zp + n, tp + n, h, W, C);
    ghost var m2 := m[..];
    NumAgree(m0, m2, xp + h, h, W);
    NumAgree(m0, m2, yp + h, h, W);
    KarMul(m, zp + n, xp + h, yp + h, tp + n, h, W, C);
    NumAgree(m2, m[..], tp, n, W);
  }

  /** The operand sums, not normalised: the digits may be oversized. */
  method RawSums(m: array<int>, zp: nat, xp: nat, yp: nat, h: nat, ghost W: int)
    requires zp + 2 * h <= m.Length && xp + 2 * h <= m.Length && yp + 2 * h <= m.Length
    requires Apart(zp, 2 * h, xp, 2 * h) && Apart(zp, 2 * h, yp, 2 * h)
    modifies m
    ensures SameBut(old(m[..]), m[..], zp, 2 * h)
    ensures Num(m[..], zp, h, W) == old(Num(m[..], xp, h, W) + Num(m[..], xp + h, h, W))
    ensures Num(m[..], zp + h, h, W) == old(Num(m[..], yp, h, W) + Num(m[..], yp + h, h, W))
  {
    hide Num;
    hide IsProduct;
    ghost var m0 := m[..];
    Add(m, zp, xp, xp + h, h, W);
    ghost var m1 := m[..];
    NumAgree(m0, m1, yp, h, W);
    NumAgree(m0, m1, yp + h, h, W);
    Add(m, zp + h, yp, yp + h, h, W);
    NumAgree(m1, m[..], zp, h, W);
  }

  /** t -= x1*y1; then z's second quarter gains its first one and loses t's low half; z's low half is cut to n digits. */
  method UpperRecover(m: array<int>, zp: nat, tp: nat, n: nat, W: int)
    requires W >= 2 && n >= 2 && n % 2 == 0 && zp + 2 * n <= m.Length && tp + n <= m.Length
    requires Apart(zp, 2 * n, tp, n)
    modifies m
    ensures SameBut2(old(m[..]), m[..], zp, n, tp, n)
    ensures Num(m[..], tp, n, W) == old(Num(m[..], tp, n, W)) - old(Num(m[..], zp + n, n, W))
    ensures CutAt(Num(m[..], zp, n, W), old(Num(m[..], zp, n, W)), Pow(W, n / 2), old(Num(m[..], zp, n / 2, W)),
                  Num(m[..], tp, n / 2, W), Pow(W, n))
    ensures NormAt(m[..], zp, n, W)
  {
    hide Num;
    hide IsProduct;
    hide Pow;
    ghost var m0 := m[..];
    var h := n / 2;
    Sub(m, tp, tp, zp + n, n, W);
    ghost var m1 := m[..];
    NumAgree(m0, m1, zp, n, W);
    NumAgree(m0, m1, zp, h, W);
    AddMiddle(m, zp, h, n, zp, h, W);
    ghost var m2 := m[..];
    NumAgree(m1, m2, tp, h, W);
    SubMiddle(m, zp, h, n, tp, h, W);
    ghost var m3 := m[..];
    assert Pow(W, h) * (Num(m0, zp, h, W) - Num(m1, tp, h, W)) == Pow(W, h) * Num(m0, zp, h, W) - Pow(W, h) * Num(m1, tp, h, W);
    Truncate(m, zp, n, W);
    NumAgree(m1, m[..], tp, h, W);
    NumAgree(m1, m[..], tp, n, W);
  }

  method SubMiddle(m: array<int>, zp: nat, a: nat, n: nat, tp: nat, k: nat, ghost W: int)
    requires zp + n <= m.Length && tp + k <= m.Length && a + k <= n && Apart(zp + a, k, tp, k)
    modifies m
    ensures SameBut(old(m[..]), m[..], zp + a, k)
    ensures Num(m[..], zp, n, W) == old(Num(m[..], zp, n, W)) - Pow(W, a) * old(Num(m[..], tp, k, W))
  {
    hide Num;
    hide IsProduct;
    hide Pow;
    ghost var m0 := m[..];
    Sub(m, zp + a, zp + a, tp, k, W);
    NumDelta(m0, m[..], zp, n, a, k, W);
    assert Pow(W, a) * (-Num(m0, tp, k, W)) == -(Pow(W, a) * Num(m0, tp, k, W));
  }

  /** x is made of the halves x0 and x1 at place p. */
  ghost predicate MadeOf(x: int, x0: int, x1: int, p: int) {
    x == x0 + p * x1
  }

  /** t holds (x0+x1)(y0+y1) - x1*y1. */
  ghost predicate CrossSum(t: int, x0: int, x1: int, y0: int, y1: int) {
    t == (y0 + y1) * (x0 + x1) - x1 * y1
  }

  /** v is z with p*(z0 - t0) added, cut at q. */
  ghost predicate CutAt(v: int, z: int, p: int, z0: int, t0: int, q: int) {
    q > 0 && v == (z + p * (z0 - t0)) % q
  }

  /** z agrees with x*y mod q. */
  ghost predicate LowHalfOf(z: int, x: int, y: int, q: int) {
    q > 0 && Cong(z, x * y, q)
  }

  /** After the recovery the low half of z is exactly x0*y0. */
  lemma UpperLow(m0: seq<int>, m1: seq<int>, m2: seq<int>, zp: nat, xp: nat, yp: nat, tp: nat, n: nat, W: int)
    requires W >= 2 && n >= 2 && n % 2 == 0 && |m0| == |m1| == |m2|
    requires zp + 2 * n <= |m0| && tp + n <= |m0| && xp + n <= |m0| && yp + n <= |m0|
    requires NormAt(m0, xp, n, W) && NormAt(m0, yp, n, W)
    requires LowHalfOf(Num(m1, zp, n, W), Num(m0, xp, n, W), Num(m0, yp, n, W), Pow(W, n))
    requires CrossSum(Num(m2, tp, n, W), Num(m0, xp, n / 2, W), Num(m0, xp + n / 2, n / 2, W),
                      Num(m0, yp, n / 2, W), Num(m0, yp + n / 2, n / 2, W))
    requires CutAt(Num(m2, zp, n, W), Num(m1, zp, n, W), Pow(W, n / 2), Num(m1, zp, n / 2, W), Num(m2, tp, n / 2, W), Pow(W, n))
    ensures IsProduct(Num(m2, zp, n, W), Num(m0, xp, n / 2, W), Num(m0, yp, n / 2, W))
  {
    hide *;
    var h := n / 2;
    SplitHalf(m1, zp, n, W);
    SplitHalf(m2, tp, n, W);
    SplitHalf(m0, xp, n, W);
    SplitHalf(m0, yp, n, W);
    RecoverNamed(Num(m0, xp, h, W), Num(m0, xp + h, h, W), Num(m0, xp, n, W),
                 Num(m0, yp, h, W), Num(m0, yp + h, h, W), Num(m0, yp, n, W), Pow(W, h), Pow(W, n),
                 Num(m1, zp, h, W), Num(m1, zp + h, h, W), Num(m1, zp, n, W),
                 Num(m2, tp, h, W), Num(m2, tp + h, h, W), Num(m2, tp, n, W), Num(m2, zp, n, W));
  }

  lemma CrossSumIs(m0: seq<int>, m1: seq<int>, m2: seq<int>, zp: nat, xp: nat, yp: nat, tp: nat, n: nat, W: int)
    requires n >= 2 && |m0| == |m1| == |m2| && zp + 2 * n <= |m0| && tp + n <= |m0| && xp + n <= |m0| && yp + n <= |m0|
    requires IsProduct(Num(m1, tp, n, W), Num(m0, yp, n / 2, W) + Num(m0, yp + n / 2, n / 2, W),
                       Num(m0, xp, n / 2, W) + Num(m0, xp + n / 2, n / 2, W))
    requires IsProduct(Num(m1, zp + n, n, W), Num(m0, xp + n / 2, n / 2, W), Num(m0, yp + n / 2, n / 2, W))
    requires Num(m2, tp, n, W) == Num(m1, tp, n, W) - Num(m1, zp + n, n, W)
    ensures CrossSum(Num(m2, tp, n, W), Num(m0, xp, n / 2, W), Num(m0, xp + n / 2, n / 2, W),
                     Num(m0, yp, n / 2, W), Num(m0, yp + n / 2, n / 2, W))
  {
    hide Num;
  }

  lemma SplitHalf(m: seq<int>, p: nat, n: nat, W: int)
    requires W >= 2 && n >= 2 && n % 2 == 0 && p + n <= |m|
    ensures Pow(W, n / 2) > 0 && MadeOf(Pow(W, n), 0, Pow(W, n / 2), Pow(W, n / 2))
    ensures MadeOf(Num(m, p, n, W), Num(m, p, n / 2, W), Num(m, p + n / 2, n / 2, W), Pow(W, n / 2))
    ensures NormAt(m, p, n, W) ==> 0 <= Num(m, p, n / 2, W) < Pow(W, n / 2)
  {
    hide Num;
    Halves(n, W);
    PowPos(W, n / 2);
    NumSplit(m, p, n / 2, n, W);
    if NormAt(m, p, n, W) { NumBound(m, p, n / 2, W); }
  }

  lemma RecoverNamed(x0: int, x1: int, x: int, y0: int, y1: int, y: int, p: int, q: int,
                     z0: int, zh: int, z: int, t0: int, th: int, t: int, v: int)
    requires MadeOf(x, x0, x1, p) && MadeOf(y, y0, y1, p) && MadeOf(z, z0, zh, p) && MadeOf(t, t0, th, p) && MadeOf(q, 0, p, p)
    requires p > 0 && 0 <= x0 < p && 0 <= y0 < p && LowHalfOf(z, x, y, q) && CrossSum(t, x0, x1, y0, y1)
    requires CutAt(v, z, p, z0, t0, q)
    ensures IsProduct(v, x0, y0)
  {
    RecoverIdentity(x0, x1, y0, y1, p, z0, zh, t0, th);
  }

  lemma RecoverIdentity(x0: int, x1: int, y0: int, y1: int, p: int, z0: int, zh: int, t0: int, th: int)
    requires p > 0 && 0 <= x0 < p && 0 <= y0 < p && p * p > 0
    requires Cong(z0 + p * zh, (x0 + p * x1) * (y0 + p * y1), p * p)
    requires t0 + p * th == (y0 + y1) * (x0 + x1) - x1 * y1
    ensures ((z0 + p * zh) + p * (z0 - t0)) % (p * p) == x0 * y0
  {
    hide Cong;
    var k := CongWitness(z0 + p * zh, (x0 + p * x1) * (y0 + p * y1), p * p);
    var a := x1 * y0 + x0 * y1;
    var j := RecoverArith(x0, x1, y0, y1, p, z0, zh, t0, th, k);
    MulMono(x0, p - 1, y0);
    MulMono(y0, p, p);
    MulMono(0, x0, y0);
    assert (p - 1) * y0 == p * y0 - y0;
    assert y0 * p == p * y0;
    assert 0 <= x0 * y0 < p * p by { if y0 == 0 { assert x0 * y0 == 0; } }
    DivModUnique((z0 + p * zh) + p * (z0 - t0), j, x0 * y0, p * p);
  }

  lemma RecoverArith(x0: int, x1: int, y0: int, y1: int, p: int, z0: int, zh: int, t0: int, th: int, k: int) returns (j: int)
    requires z0 + p * zh == (x0 + p * x1) * (y0 + p * y1) + k * (p * p)
    requires t0 + p * th == (y0 + y1) * (x0 + x1) - x1 * y1
    ensures (z0 + p * zh) + p * (z0 - t0) == j * (p * p) + x0 * y0
  {
    var mid := x0 * y1 + x1 * y0;
    KaratsubaIdentity(x0, x1, y0, y1, p);
    assert (x0 + x1) * (y0 + y1) - x0 * y0 - x1 * y1 == mid;
    assert (y0 + y1) * (x0 + x1) == (x0 + x1) * (y0 + y1);
    var v, c := (x0 + p * x1) * (y0 + p * y1), x1 * y1 + k;
    assert p * p * (x1 * y1) + k * (p * p) == c * (p * p);
    assert z0 + p * zh == x0 * y0 + p * mid + c * (p * p);
    j := RecoverLinear(x0 * y0, mid, p, z0, zh, t0, th, c);
  }

  lemma RecoverLinear(lo: int, mid: int, p: int, z0: int, zh: int, t0: int, th: int, c: int) returns (j: int)
    requires z0 + p * zh == lo + p * mid + c * (p * p) && t0 + p * th == mid + lo
    ensures (z0 + p * zh) + p * (z0 - t0) == j * (p * p) + lo
  {
    var d := mid + c * p - zh;
    assert z0 == lo + p * d by { assert p * (c * p) == c * (p * p); assert p * d == p * mid + p * (c * p) - p * zh; }
    assert z0 - t0 == p * (d + th) - mid by { assert p * (d + th) == p * d + p * th; }
    j := c + d + th;
    assert p * (p * (d + th) - mid) == (d + th) * (p * p) - p * mid by {
      assert p * (p * (d + th)) == (d + th) * (p * p);
    }
    assert j * (p * p) == c * (p * p) + (d + th) * (p * p);
  }

  lemma UpperValue(m0: seq<int>, m2: seq<int>, m3: seq<int>, zp: nat, xp: nat, yp: nat, tp: nat, n: nat, W: int)
    requires n >= 2 && n % 2 == 0 && |m0| == |m2| == |m3|
    requires zp + 2 * n <= |m0| && tp + n <= |m0| && xp + n <= |m0| && yp + n <= |m0|
    requires var h := n / 2; var (x0, x1) := (Num(m0, xp, h, W), Num(m0, xp + h, h, W));
      var (y0, y1) := (Num(m0, yp, h, W), Num(m0, yp + h, h, W));
      && CrossSum(Num(m2, tp, n, W), x0, x1, y0, y1)
      && IsProduct(Num(m2, zp, n, W), x0, y0) && IsProduct(Num(m2, zp + n, n, W), x1, y1)
    requires Num(m3, zp, 2 * n, W) ==
             Num(m2, zp, 2 * n, W) + Pow(W, n / 2) * (Num(m2, tp, n, W) - Num(m2, zp, n, W))
    ensures IsProduct(Num(m3, zp, 2 * n, W), Num(m0, xp, n, W), Num(m0, yp, n, W))
  {
    hide Num;
    hide Pow;
    var h := n / 2;
    Halves(n, W);
    NumSplit(m2, zp, n, 2 * n, W);
    NumSplit(m0, xp, h, n, W);
    NumSplit(m0, yp, h, n, W);
    var x0, x1, y0, y1, p := Num(m0, xp, h, W), Num(m0, xp + h, h, W), Num(m0, yp, h, W), Num(m0, yp + h, h, W), Pow(W, h);
    KaratsubaIdentity(x0, x1, y0, y1, p);
    assert (y0 + y1) * (x0 + x1) == (x0 + x1) * (y0 + y1);
  }

  /** t -= x0*y0 leaves the middle term, which is added at digit n/2; the middle n digits are normalised. */
  method UpperJoin(m: array<int>, zp: nat, tp: nat, n: nat, W: int)
    requires W >= 2 && n >= 2 && n % 2 == 0 && zp + 2 * n <= m.Length && tp + n <= m.Length
    requires Apart(zp, 2 * n, tp, n) && NormAt(m[..], zp, n, W)
    modifies m
    ensures SameBut2(old(m[..]), m[..], zp, 2 * n, tp, n)
    ensures Num(m[..], zp, 2 * n, W) ==
            old(Num(m[..], zp, 2 * n, W)) + Pow(W, n / 2) * (old(Num(m[..], tp, n, W)) - old(Num(m[..], zp, n, W)))
    ensures NormAt(m[..], zp, n, W)
  {
    hide Num;
    hide IsProduct;
    hide Pow;
    ghost var m0 := m[..];
    Sub(m, tp, tp, zp, n, W);
    NumAgree(m0, m[..], zp, 2 * n, W);
    AddMiddle(m, zp, n / 2, 2 * n, tp, n, W);
    NormaliseMiddle(m, zp, n / 2, 2 * n, n, W);
  }
}
