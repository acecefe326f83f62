/** Integer facts shared by every layer: division with remainder, congruence, powers. */
module Arith {

  /** b to the power e. */
  function Pow(b: int, e: nat): int
    decreases e
  {
    if e == 0 then 1 else b * Pow(b, e - 1)
  }

  /** a and b leave the same remainder mod m. */
  ghost predicate Cong(a: int, b: int, m: int)
    requires m > 0
  {
    a % m == b % m
  }

  lemma MulMono(a: int, b: int, c: int)
    requires a <= b && 0 <= c
    ensures a * c <= b * c
  {}

  lemma MulStrict(a: int, b: int, c: int)
    requires a * c < b * c && 0 <= c
    ensures a < b
  {
    if b <= a { MulMono(b, a, c); }
  }

  /** Quotient and remainder are determined by their defining equation. */
  lemma DivModUnique(a: int, q: int, r: int, m: int)
    requires a == q * m + r && 0 <= r < m
    ensures a / m == q && a % m == r
  {
    var q0, r0 := a / m, a % m;
    assert a == q0 * m + r0;
    assert (q - q0) * m == r0 - r;
    if q - q0 >= 1 {
      MulMono(1, q - q0, m);
    } else if q - q0 <= -1 {
      MulMono(q - q0, -1, m);
    }
  }

  lemma CongFrom(a: int, b: int, k: int, m: int)
    requires m > 0 && a == b + k * m
    ensures Cong(a, b, m)
  {
    var q, r := b / m, b % m;
    assert b == q * m + r;
    assert a == (q + k) * m + r;
    DivModUnique(a, q + k, r, m);
  }

  lemma CongWitness(a: int, b: int, m: int) returns (k: int)
    requires m > 0 && Cong(a, b, m)
    ensures a == b + k * m
  {
    k := a / m - b / m;
    assert a == (a / m) * m + a % m;
    assert b == (b / m) * m + b % m;
    assert k * m == (a / m) * m - (b / m) * m;
  }

  lemma CongTrans(a: int, b: int, c: int, m: int)
    requires m > 0 && Cong(a, b, m) && Cong(b, c, m)
    ensures Cong(a, c, m)
  {}

  lemma CongSymTrans(a: int, b: int, c: int, m: int)
    requires m > 0 && Cong(a, b, m) && Cong(a, c, m)
    ensures Cong(b, c, m)
  {}

  lemma CongMod(a: int, m: int)
    requires m > 0
    ensures Cong(a % m, a, m)
  {
    assert a == (a / m) * m + a % m;
    assert a % m == a + (-(a / m)) * m by { assert (-(a / m)) * m == -((a / m) * m); }
    CongFrom(a % m, a, -(a / m), m);
  }

  lemma CongAdd(a: int, b: int, c: int, d: int, m: int)
    requires m > 0 && Cong(a, b, m) && Cong(c, d, m)
    ensures Cong(a + c, b + d, m)
  {
    var k := CongWitness(a, b, m);
    var l := CongWitness(c, d, m);
    assert (k + l) * m == k * m + l * m;
    CongFrom(a + c, b + d, k + l, m);
  }

  lemma CongSub(a: int, b: int, c: int, d: int, m: int)
    requires m > 0 && Cong(a, b, m) && Cong(c, d, m)
    ensures Cong(a - c, b - d, m)
  {
    var k := CongWitness(a, b, m);
    var l := CongWitness(c, d, m);
    assert (k - l) * m == k * m - l * m;
    CongFrom(a - c, b - d, k - l, m);
  }

  lemma CongMul(a: int, b: int, c: int, d: int, m: int)
    requires m > 0 && Cong(a, b, m) && Cong(c, d, m)
    ensures Cong(a * c, b * d, m)
  {
    var k := CongWitness(a, b, m);
    var l := CongWitness(c, d, m);
    hide Cong;
    ScaleCong(a, b, k, c, m);
    ScaleCong(c, d, l, b, m);
    assert c * b == b * c && d * b == b * d;
    CongTrans(a * c, b * c, b * d, m);
  }

  lemma ScaleCong(a: int, b: int, k: int, c: int, m: int)
    requires m > 0 && a == b + k * m
    ensures Cong(a * c, b * c, m)
  {
    assert (b + k * m) * c == b * c + (k * m) * c;
    assert (k * m) * c == (k * c) * m;
    CongFrom(a * c, b * c, k * c, m);
  }

  lemma CongScale(a: int, b: int, c: int, m: int)
    requires m > 0 && Cong(a, b, m)
    ensures Cong(c * a, c * b, m) && Cong(a * c, b * c, m)
  {
    CongMul(c, c, a, b, m);
    CongMul(a, b, c, c, m);
  }

  /** Two congruent residues in [0, m) are equal. */
  lemma CongUnique(a: int, b: int, m: int)
    requires m > 0 && Cong(a, b, m) && 0 <= a < m && 0 <= b < m
    ensures a == b
  {
    DivModUnique(a, 0, a, m);
    DivModUnique(b, 0, b, m);
  }

  lemma SmallMod(a: int, m: int)
    requires 0 <= a < m
    ensures a % m == a && a / m == 0
  {
    DivModUnique(a, 0, a, m);
  }

  /** A factor with an inverse cancels. */
  lemma CongCancel(a: int, b: int, f: int, inv: int, m: int)
    requires m > 0 && Cong(a * f, b * f, m) && Cong(f * inv, 1, m)
    ensures Cong(a, b, m)
  {
    CongScale(a * f, b * f, inv, m);
    assert (a * f) * inv == a * (f * inv);
    assert (b * f) * inv == b * (f * inv);
    CongScale(f * inv, 1, a, m);
    CongScale(f * inv, 1, b, m);
  }

  lemma PowSucc(b: int, e: nat)
    ensures Pow(b, 0) == 1 && Pow(b, e + 1) == b * Pow(b, e)
  {}

  lemma PowOne(b: int)
    ensures Pow(b, 1) == b
  {
    PowSucc(b, 0);
  }

  lemma PowPos(b: int, e: nat)
    requires b >= 1
    ensures Pow(b, e) >= 1
  {
    if e > 0 {
      PowPos(b, e - 1);
      MulMono(1, b, Pow(b, e - 1));
    }
  }

  lemma {:induction false} PowAdd(b: int, e: nat, f: nat)
    ensures Pow(b, e + f) == Pow(b, e) * Pow(b, f)
    decreases e
  {
    if e > 0 {
      PowAdd(b, e - 1, f);
      assert Pow(b, e + f) == b * Pow(b, e - 1 + f);
      assert b * (Pow(b, e - 1) * Pow(b, f)) == (b * Pow(b, e - 1)) * Pow(b, f);
    }
  }

  lemma {:induction false} PowMul(b: int, e: nat, f: nat)
    ensures e * f >= 0 && Pow(Pow(b, e), f) == Pow(b, e * f)
    decreases f
  {
    if f > 0 {
      PowMul(b, e, f - 1);
      assert e * f == e + e * (f - 1);
      PowAdd(b, e, e * (f - 1));
    } else {
      assert e * f == 0;
    }
  }

  lemma {:induction false} PowCong(a: int, b: int, e: nat, m: int)
    requires m > 0 && Cong(a, b, m)
    ensures Cong(Pow(a, e), Pow(b, e), m)
    decreases e
  {
    if e > 0 {
      PowCong(a, b, e - 1, m);
      CongMul(a, b, Pow(a, e - 1), Pow(b, e - 1), m);
    }
  }

  lemma {:induction false} PowMono(b: int, e: nat, f: nat)
    requires b >= 1 && e <= f
    ensures Pow(b, e) <= Pow(b, f)
  {
    PowAdd(b, e, f - e);
    PowPos(b, e);
    PowPos(b, f - e);
    MulMono(1, Pow(b, f - e), Pow(b, e));
  }

  lemma DivBound(t: int, b: int)
    requires b >= 1 && 0 <= t < b * b
    ensures 0 <= t / b < b && t == (t / b) * b + t % b
  {
    if t / b >= b { MulMono(b, t / b, b); }
    if t / b < 0 { MulMono(t / b, -1, b); }
  }

  /** Moving a carry one place up: t = d + c*b at place p is d at p and c at b*p. */
  lemma CarryUp(t: int, d: int, c: int, b: int, p: int)
    requires t == c * b + d
    ensures t * p == d * p + c * (b * p)
  {
    assert (c * b + d) * p == c * b * p + d * p;
    assert c * b * p == c * (b * p);
  }

  lemma ScaleSum(a: int, c: int, d: int, p: int)
    requires a == c + d
    ensures p * a == p * c + p * d
  {}

  lemma DivTwice(v: int, p: int, q: int)
    requires p >= 1 && q >= 1
    ensures p * q >= 1 && v / (p * q) == (v / p) / q
  {
    MulMono(1, p, q);
    var a := v / p;
    DivTwiceArith(v, p, q, a, v % p, a / q, a % q);
  }

  lemma DivTwiceArith(v: int, p: int, q: int, a: int, r: int, c: int, s: int)
    requires p >= 1 && q >= 1 && v == a * p + r && 0 <= r < p && a == c * q + s && 0 <= s < q
    ensures p * q >= 1 && v / (p * q) == c
  {
    MulMono(1, p, q);
    MulMono(s, q - 1, p);
    MulMono(0, s, p);
    assert (q - 1) * p == p * q - p;
    assert (c * q + s) * p == c * (p * q) + s * p;
    DivModUnique(v, c, s * p + r, p * q);
  }

  /** The next binary digit of C from the top. */
  lemma HalveQuotient(C: int, i: nat)
    requires C >= 0
    ensures Pow(2, i) > 0 && Pow(2, i + 1) > 0
    ensures C / Pow(2, i) == 2 * (C / Pow(2, i + 1)) + (C / Pow(2, i)) % 2
  {
    PowPos(2, i);
    PowPos(2, i + 1);
    DivTwice(C, Pow(2, i), 2);
    assert Pow(2, i) * 2 == Pow(2, i + 1);
  }
}
