/** What the digit-level exponentiation rests on: the shift-and-subtract loop of MCL_FF_dmod, and the Montgomery domain. */
module MontgomeryDomain {
  import opened Arith
  import opened Montgomery
  import opened ShiftReduce

  // ----- reduction by shifting and subtracting ---------------------------------------------

  /** What MCL_FF_dmod makes of a: the quotient of a by b is cut to R - 1, and what is left to n digits. */
  ghost function DModValue(a: int, b: int, R: int): int
    requires b > 0 && R > 0
  {
    (if a < b * R then a % b else a - b * R + b) % R % b
  }

  /** The loop of MCL_FF_dmod with k shifts to go: m is b*2^k; x is a less a multiple of b, and below m unless a was too large. */
  ghost predicate Shifted(x: int, m: int, a: int, b: int, top: int, k: nat) {
    b > 0 && m == b * Pow(2, k) && m > 0 && x >= 0 && Cong(x, a, b) && (a < top ==> x < m) && (a >= top ==> x == a - top + m)
  }

  lemma ShiftedStart(a: int, b: int, bits: nat, top: int)
    requires a >= 0 && b > 0 && top == b * Pow(2, bits) && top > 0
    ensures Shifted(a, top, a, b, top, bits)
  {
    CongFrom(a, a, 0, b);
  }

  lemma ShiftedStep(x: int, m: int, a: int, b: int, top: int, k: nat)
    requires k > 0 && Shifted(x, m, a, b, top, k)
    ensures Shifted(if x >= m / 2 then x - m / 2 else x, m / 2, a, b, top, k - 1)
  {
    hide Pow;
    hide Cong;
    var h := b * Pow(2, k - 1);
    PowTwo(k - 1);
    PowPos(2, k - 1);
    Doubled(b, Pow(2, k - 1));
    MulMono(1, b, Pow(2, k - 1));
    SubtractMultiple(x, b, Pow(2, k - 1));
    CongTrans(x - h, x, a, b);
  }

  lemma ShiftedEnd(x: int, m: int, a: int, b: int, R: int)
    requires a >= 0 && 0 < b < R && Shifted(x, m, a, b, b * R, 0)
    ensures x % R % b == DModValue(a, b, R) && 0 <= x % R && (a < b * R - b + R ==> x % R % b == a % b)
  {
    PowTwo(0);
    if a < b * R {
      SmallMod(x, b);
      SmallMod(x, R);
    } else if x < R {
      SmallMod(x, R);
    }
  }

  /** It is a mod b exactly when nothing is cut off, or what is cut off is a multiple of b. */
  lemma DModExact(a: int, b: int, R: int)
    requires a >= 0 && 0 < b < R
    ensures DModValue(a, b, R) == a % b <==> a < b * R - b + R || ((a - b * R + b) / R * R) % b == 0
  {
    if a < b * R {
      SmallMod(a % b, R);
      CongMod(a, b);
      SmallMod(a % b, b);
    } else {
      var x := a - b * R + b;
      var cut := x / R * R;
      assert x == cut + x % R;
      CutOff(x, x % R, cut, b);
      assert a == x + (R - 1) * b;
      CongFrom(a, x, R - 1, b);
      if x < R { SmallMod(x, R); }
    }
  }

  lemma CutOff(x: int, y: int, cut: int, b: int)
    requires b > 0 && x == cut + y
    ensures y % b == x % b <==> cut % b == 0
  {
    SmallMod(0, b);
    if y % b == x % b {
      CongSub(x, y, y, y, b);
    } else if cut % b == 0 {
      CongAdd(cut, 0, y, y, b);
    }
  }

  /** The largest 2n-digit number and the largest n-digit modulus: the remainder is 0, the result R - 2. */
  lemma DModFails(R: int)
    requires R > 2
    ensures DModValue(R * R - 1, R - 1, R) == R - 2 && (R * R - 1) % (R - 1) == 0
  {
    var a, b := R * R - 1, R - 1;
    assert b * R == R * R - R;
    DivModUnique(a, R + 1, 0, b);
    DivModUnique(a - b * R + b, 1, R - 2, R);
    SmallMod(R - 2, b);
  }

  // ----- the Montgomery domain -------------------------------------------------------------

  /** v stands for x^e: it is x^e * R mod p. */
  ghost predicate Stands(v: int, x: int, e: nat, R: int, p: int) {
    p > 0 && v >= 0 && Cong(v, Pow(x, e) * R, p)
  }

  /** What the reduction needs: an odd modulus below R and its inverse mod R. */
  ghost predicate Modulus(p: int, ND: int, R: int) {
    1 < p < R && ND >= 0 && Cong(p * ND, 1, R)
  }

  /** z is a Montgomery product of x and y. */
  ghost predicate MontProduct(z: int, x: int, y: int, R: int, p: int) {
    p > 0 && z >= 0 && Cong(z * R, x * y, p)
  }

  /** R can be cancelled mod p. */
  lemma InverseOfR(p: int, ND: int, R: int) returns (i: int)
    requires Modulus(p, ND, R)
    ensures Cong(R * i, 1, p)
  {
    hide Cong;
    var k := CongWitness(p * ND, 1, R);
    i := -k;
    assert R * i == 1 + (-ND) * p by { assert (-ND) * p == -(p * ND) && R * (-k) == -(k * R); }
    CongFrom(R * i, 1, -ND, p);
  }

  /** Exponents add under a Montgomery product. */
  lemma ExponentsAdd(z: int, u: int, v: int, x: int, e: nat, f: nat, p: int, ND: int, R: int)
    requires Modulus(p, ND, R) && Stands(u, x, e, R, p) && Stands(v, x, f, R, p) && MontProduct(z, u, v, R, p)
    ensures Stands(z, x, e + f, R, p)
  {
    hide Cong;
    hide Pow;
    CongMul(u, Pow(x, e) * R, v, Pow(x, f) * R, p);
    PowAdd(x, e, f);
    Rearrange(Pow(x, e), Pow(x, f), R);
    CongTrans(z * R, u * v, (Pow(x, e + f) * R) * R, p);
    var i := InverseOfR(p, ND, R);
    CongCancel(z, Pow(x, e + f) * R, R, i, p);
  }

  lemma Rearrange(a: int, b: int, R: int)
    ensures (a * R) * (b * R) == ((a * b) * R) * R
  {
    assert (a * R) * (b * R) == a * (R * (b * R));
    assert ((a * b) * R) * R == a * (b * (R * R));
    assert R * (b * R) == b * (R * R);
  }

  lemma OutOfDomain(r: int, a: int, v: int, x: int, e: nat, p: int, ND: int, R: int)
    requires Modulus(p, ND, R) && Stands(v, x, e, R, p) && a == v % p && r == Reduced(a, p, ND, R)
    ensures r >= 0 && Cong(r, Pow(x, e), p)
  {
    hide Cong;
    hide Pow;
    hide Reduced;
    ReducedProperties(a, p, ND, R);
    CongMod(v, p);
    CongTrans(r * R, a, v, p);
    CongTrans(r * R, v, Pow(x, e) * R, p);
    var i := InverseOfR(p, ND, R);
    CongCancel(r, Pow(x, e), R, i, p);
    assert 0 * R == 0;
    MulStrict(0, r, R);
  }

  // ----- exponentiation --------------------------------------------------------------------

  lemma PowSmall(x: int)
    ensures Pow(x, 0) == 1 && Pow(x, 1) == x
  {}

  lemma TopZero(e: int, nb: nat)
    requires 0 <= e < Pow(2, nb)
    ensures e / Pow(2, nb) == 0
  {
    SmallMod(e, Pow(2, nb));
  }

  lemma DivOne(e: int)
    ensures Pow(2, 0) == 1 && e / 1 == e
  {}

  lemma StandsCong(v: int, u: int, x: int, e: nat, R: int, p: int)
    requires Stands(u, x, e, R, p) && v >= 0 && Cong(v, u, p)
    ensures Stands(v, x, e, R, p)
  {}

  lemma HalfExponent(g: nat, e: int)
    requires e >= 1
    ensures g * e == (if e % 2 == 1 then g else 0) + (2 * g) * (e / 2)
    ensures e / 2 == 0 ==> e == 1
  {
    assert e == 2 * (e / 2) + e % 2;
    assert g * (2 * (e / 2) + e % 2) == (2 * g) * (e / 2) + g * (e % 2);
  }
}
