/**
 * The field GF(2^128) of GCM: the shift-and-xor product of section 6.3 of NIST SP 800-38D on 128-bit
 * strings (read as integers, first bit on top), and carry-less polynomial multiplication modulo
 * x^128 + x^7 + x^2 + x + 1, which it is proved to compute.
 */
module Gf128 {
  import opened Arith
  import opened Bits

  const FIELD: nat := 0x1_0000_0000_0000_0000_0000_0000_0000_0000

  /** 11100001 followed by 120 zero bits. */
  const R: nat := 0xE100_0000_0000_0000_0000_0000_0000_0000

  type Elem = x: int | 0 <= x < FIELD

  lemma FieldSize()
    ensures Two(128) == FIELD && Two(127) == FIELD / 2 && R == 0xE1 * Two(120)
  {
    hide Pow;
    assert Pow(2, 8) == 256 by { EightBits(); }
    PowAdd(2, 8, 8);
    PowAdd(2, 16, 16);
    PowAdd(2, 32, 32);
    PowAdd(2, 64, 64);
    PowAdd(2, 120, 8);
    PowAdd(2, 127, 1);
    PowOne(2);
  }

  lemma EightBits()
    ensures Pow(2, 8) == 256
  {}

  function Xor128(x: Elem, y: Elem): Elem {
    FieldSize();
    BitsBound(x, y, 128);
    Xor(x, y)
  }

  /** V times x: one bit to the right, and R folded in when a bit falls off. */
  function TimesX(v: Elem): Elem {
    if v % 2 == 0 then v / 2 else Xor128(v / 2, R)
  }

  /** Bit i of a 128-bit string, counted from the left. */
  function BitOf(x: Elem, i: nat): nat
    requires i < 128
  {
    x / Two(127 - i) % 2
  }

  /** The steps from i on of the standard's product: z collects, v runs through y, xy, x^2 y, ... */
  function Steps(x: Elem, z: Elem, v: Elem, i: nat): Elem
    requires i <= 128
    decreases 128 - i
  {
    if i == 128 then z else Steps(x, if BitOf(x, i) == 1 then Xor128(z, v) else z, TimesX(v), i + 1)
  }

  function Mul(x: Elem, y: Elem): Elem { Steps(x, 0, y, 0) }

  // ----- polynomials over GF(2): bit i is the coefficient of x^i -----------------------------

  const G: nat := FIELD + 0x87

  ghost function Clmul(a: nat, b: nat): nat {
    if a == 0 then 0 else Xor(a % 2 * b, 2 * Clmul(a / 2, b))
  }

  /** The n bits of a string, reversed: from the string's order to the coefficients' order. */
  ghost function Rev(n: nat, x: nat): nat {
    if n == 0 then 0 else x % 2 * Two(n - 1) + Rev(n - 1, x / 2)
  }

  lemma {:induction false} RevBound(n: nat, x: nat)
    ensures Rev(n, x) < Two(n)
  {
    if n > 0 {
      RevBound(n - 1, x / 2);
    }
  }

  lemma {:induction false} RevXor(n: nat, x: nat, y: nat)
    ensures Rev(n, Xor(x, y)) == Xor(Rev(n, x), Rev(n, y))
  {
    hide Xor;
    if n > 0 {
      RevXor(n - 1, x / 2, y / 2);
      XorHalf(x, y);
      RevBound(n - 1, x / 2);
      RevBound(n - 1, y / 2);
      XorConcat(x % 2, y % 2, Rev(n - 1, x / 2), Rev(n - 1, y / 2), n - 1);
      BitXor(x % 2, y % 2);
    } else {
      XorZero(0);
    }
  }

  lemma BitXor(a: nat, b: nat)
    requires a < 2 && b < 2
    ensures Xor(a, b) == (a + b) % 2
  {}

  /** A string with a zero first bit has an even reversal. */
  lemma {:induction false} RevShort(n: nat, x: nat)
    requires x < Two(n)
    ensures Rev(n + 1, x) == 2 * Rev(n, x)
  {
    if n > 0 {
      RevShort(n - 1, x / 2);
      ShiftUp(x % 2, n);
    }
  }

  /** Trailing zeros reverse to nothing. */
  lemma {:induction false} RevTrailing(n: nat, k: nat, a: nat)
    ensures Rev(n + k, a * Two(k)) == Rev(n, a)
  {
    if k > 0 {
      ShiftUp(a, k);
      RevTrailing(n, k - 1, a);
      var h := a * Two(k - 1);
      assert a * Two(k) == 2 * h;
      assert 2 * h % 2 == 0 && 2 * h / 2 == h;
    }
  }

  lemma RevR()
    ensures Rev(128, R) == 0x87
  {
    FieldSize();
    RevTrailing(8, 120, 0xE1);
    RevConstant();
  }

  lemma RevConstant()
    ensures Rev(8, 0xE1) == 0x87
  {
    assert Rev(4, 0xE) == 7;
    assert Two(4) == 16 && Two(7) == 128;
  }

  /** Bit i from the left is the coefficient of x^i. */
  lemma {:induction false} RevBit(n: nat, x: nat, i: nat)
    requires i < n && x < Two(n)
    ensures Rev(n, x) / Two(i) % 2 == x / Two(n - 1 - i) % 2
    decreases n
  {
    if i == n - 1 {
      RevTopBit(n, x);
    } else {
      RevBit(n - 1, x / 2, i);
      RevLowerBit(n, x, i);
      DivTwice(x, 2, Two(n - 2 - i));
    }
  }

  lemma RevTopBit(n: nat, x: nat)
    requires n > 0
    ensures Rev(n, x) / Two(n - 1) == x % 2 && x / Two(0) == x
  {
    var r := Rev(n - 1, x / 2);
    RevBound(n - 1, x / 2);
    RevUnfold(n, x);
    hide Rev;
    DivModUnique(Rev(n, x), x % 2, r, Two(n - 1));
  }

  lemma RevLowerBit(n: nat, x: nat, i: nat)
    requires i < n - 1
    ensures Rev(n, x) / Two(i) % 2 == Rev(n - 1, x / 2) / Two(i) % 2
  {
    RevUnfold(n, x);
    hide Rev;
    hide Pow;
    PowAdd(2, i, n - 1 - i);
    PowSucc(2, n - 2 - i);
    HighBits(x % 2, Rev(n - 1, x / 2), Two(i), Two(n - 1 - i), Two(n - 2 - i));
  }

  lemma HighBits(b: nat, r: nat, p: nat, q: nat, h: nat)
    requires p > 0 && q == 2 * h
    ensures (b * (p * q) + r) / p % 2 == r / p % 2
  {
    var c, m := r / p, r % p;
    assert r == c * p + m;
    assert b * (p * q) + r == (b * q + c) * p + m;
    DivModUnique(b * (p * q) + r, b * q + c, m, p);
    assert b * q + c == 2 * (b * h) + c;
  }

  /** Multiplying the string by x multiplies the polynomial by x and takes off G when it reaches degree 128. */
  lemma TimesXPoly(v: Elem)
    ensures Rev(128, TimesX(v)) == Xor(2 * Rev(128, v), v % 2 * G)
  {
    hide Xor;
    hide Rev;
    FieldSize();
    var j, b := v / 2, v % 2;
    RevUnfold(128, v);
    RevShort(127, j);
    var low := 2 * Rev(127, j);
    RevBound(127, j);
    assert 2 * Rev(128, v) == b * Two(128) + low;
    XorConcat(b, b, low, b * 0x87, 128);
    XorZero(b);
    assert b * G == b * Two(128) + b * 0x87;
    if b == 0 {
      XorZero(low);
    } else {
      RevXor(128, j, R);
      RevR();
    }
  }

  lemma RevUnfold(n: nat, x: nat)
    requires n > 0
    ensures Rev(n, x) == x % 2 * Two(n - 1) + Rev(n - 1, x / 2)
  {}

  // ----- carry-less multiplication ---------------------------------------------------------------

  lemma ClmulUnfold(a: nat, b: nat)
    ensures Clmul(a, b) == Xor(a % 2 * b, 2 * Clmul(a / 2, b))
  {
    XorZero(0);
  }

  lemma {:induction false} ClmulDouble(a: nat, b: nat)
    ensures Clmul(a, 2 * b) == 2 * Clmul(a, b)
  {
    hide Xor;
    if a > 0 {
      ClmulDouble(a / 2, b);
      XorDouble(a % 2 * b, 2 * Clmul(a / 2, b));
    }
  }

  lemma {:induction false} ClmulXorRight(a: nat, b: nat, c: nat)
    ensures Clmul(a, Xor(b, c)) == Xor(Clmul(a, b), Clmul(a, c))
  {
    hide Xor;
    if a == 0 {
      XorZero(0);
    } else {
      var p, q := Clmul(a / 2, b), Clmul(a / 2, c);
      ClmulXorRight(a / 2, b, c);
      XorDouble(p, q);
      XorBits(a % 2, b, c);
      XorSwapMiddle(a % 2 * b, 2 * p, a % 2 * c, 2 * q);
    }
  }

  lemma XorBits(e: nat, b: nat, c: nat)
    requires e < 2
    ensures Xor(e * b, e * c) == e * Xor(b, c)
  {
    XorZero(0);
  }

  lemma {:induction false} ClmulXorLeft(a: nat, b: nat, c: nat)
    ensures Clmul(Xor(a, b), c) == Xor(Clmul(a, c), Clmul(b, c))
    decreases a + b
  {
    hide Xor;
    hide Clmul;
    if a + b == 0 {
      XorZero(0);
      XorZero(Clmul(0, c));
      ClmulNone(c);
    } else {
      var p, q := Clmul(a / 2, c), Clmul(b / 2, c);
      ClmulXorLeft(a / 2, b / 2, c);
      ClmulUnfold(a, c);
      ClmulUnfold(b, c);
      ClmulUnfold(Xor(a, b), c);
      XorHalf(a, b);
      XorDouble(p, q);
      XorScaled(a % 2, b % 2, c);
      XorSwapMiddle(a % 2 * c, 2 * p, b % 2 * c, 2 * q);
    }
  }

  lemma ClmulNone(c: nat)
    ensures Clmul(0, c) == 0
  {}

  lemma XorScaled(a: nat, b: nat, c: nat)
    requires a < 2 && b < 2
    ensures Xor(a * c, b * c) == (a + b) % 2 * c
  {
    XorZero(c);
    XorZero(0);
    XorComm(0, c);
  }

  lemma OneMoreStep(x: Elem, z: Elem, v: Elem, i: nat)
    requires i < 128
    ensures Steps(x, z, v, i) == Steps(x, if BitOf(x, i) == 1 then Xor128(z, v) else z, TimesX(v), i + 1)
  {
    hide BitOf;
    hide TimesX;
    hide Xor128;
  }

  lemma AllSteps(x: Elem, z: Elem, v: Elem)
    ensures Steps(x, z, v, 128) == z
  {}

  lemma NextBit(x: Elem, i: nat)
    requires i < 128
    ensures var p := Rev(128, x) / Two(i); p % 2 == BitOf(x, i) && p / 2 == Rev(128, x) / Two(i + 1)
  {
    hide Rev;
    FieldSize();
    RevBit(128, x, i);
    DivTwice(Rev(128, x), Two(i), 2);
    PowSucc(2, i);
  }

  /** The standard's steps and the polynomial product differ by a multiple of G. */
  lemma {:induction false} StepsPoly(x: Elem, z: Elem, v: Elem, i: nat) returns (q: nat)
    requires i <= 128
    ensures Rev(128, Steps(x, z, v, i)) == Xor(Xor(Rev(128, z), Clmul(Rev(128, x) / Two(i), Rev(128, v))), Clmul(q, G))
    decreases 128 - i
  {
    hide Xor;
    hide Clmul;
    hide Rev;
    hide Steps;
    hide Pow;
    hide BitOf;
    hide TimesX;
    FieldSize();
    var p, rz, rv := Rev(128, x) / Two(i), Rev(128, z), Rev(128, v);
    RevBound(128, x);
    if i == 128 {
      q := 0;
      AllSteps(x, z, v);
      assert p == 0;
      ClmulNone(rv);
      ClmulNone(G);
      XorZero(rz);
    } else {
      var b := BitOf(x, i);
      NextBit(x, i);
      OneMoreStep(x, z, v, i);
      var z', v' := if b == 1 then Xor128(z, v) else z, TimesX(v);
      var q0 := StepsPoly(x, z', v', i + 1);
      TimesXPoly(v);
      RevXor(128, z, v);
      q := OneStep(rz, rv, Rev(128, z'), Rev(128, v'), b, v % 2, p / 2, q0);
      ClmulUnfold(p, rv);
    }
  }

  /** The algebra of one step. */
  lemma OneStep(z: nat, v: nat, z': nat, v': nat, b: nat, c: nat, p: nat, q0: nat) returns (q: nat)
    requires b < 2 && c < 2 && v' == Xor(2 * v, c * G) && z' == if b == 1 then Xor(z, v) else z
    ensures Xor(Xor(z', Clmul(p, v')), Clmul(q0, G)) == Xor(Xor(z, Xor(b * v, 2 * Clmul(p, v))), Clmul(q, G))
  {
    hide Xor;
    hide Clmul;
    var m, r := Clmul(p, v), if c == 1 then p else 0;
    q := Xor(r, q0);
    ClmulXorRight(p, 2 * v, c * G);
    ClmulDouble(p, v);
    ClmulByZero(p);
    ClmulNone(G);
    assert Clmul(p, c * G) == Clmul(r, G);
    assert Clmul(p, v') == Xor(2 * m, Clmul(r, G));
    XorZero(z);
    assert z' == Xor(z, b * v);
    XorAssoc(z', 2 * m, Clmul(r, G));
    XorAssoc(z, b * v, 2 * m);
    XorAssoc(Xor(z', 2 * m), Clmul(r, G), Clmul(q0, G));
    ClmulXorLeft(r, q0, G);
  }

  lemma {:induction false} ClmulByZero(a: nat)
    ensures Clmul(a, 0) == 0
  {
    if a > 0 {
      ClmulByZero(a / 2);
      XorZero(0);
    }
  }

  /** The product on strings is the polynomial product modulo G. */
  lemma ProductIsPolynomial(x: Elem, y: Elem) returns (q: nat)
    ensures Clmul(Rev(128, x), Rev(128, y)) == Xor(Clmul(q, G), Rev(128, Mul(x, y)))
    ensures Rev(128, Mul(x, y)) < FIELD
  {
    hide Xor;
    hide Clmul;
    hide Rev;
    hide Steps;
    q := StepsPoly(x, 0, y, 0);
    var m, r, k := Clmul(Rev(128, x), Rev(128, y)), Rev(128, Mul(x, y)), Clmul(q, G);
    RevZero(128);
    XorZero(m);
    XorComm(0, m);
    Undivided(Rev(128, x));
    XorTwice(m, k);
    XorComm(k, r);
    RevBound(128, Mul(x, y));
    FieldSize();
  }

  lemma Undivided(a: nat)
    ensures a / Two(0) == a
  {}

  lemma {:induction false} RevZero(n: nat)
    ensures Rev(n, 0) == 0
  {
    if n > 0 { RevZero(n - 1); }
  }

  // ----- the remainder modulo G is unique, so the product is a commutative, distributive one ---

  lemma XorTop(r: nat, y: nat, m: nat)
    requires r < Two(m) && y < Two(m)
    ensures Two(m) <= Xor(Two(m) + r, y) < 2 * Two(m)
  {
    hide Xor;
    XorConcat(1, 0, r, y, m);
    XorZero(1);
    BitsBound(r, y, m);
  }

  lemma {:induction false} MultipleDegree(q: nat, k: nat)
    requires Two(k) <= q < 2 * Two(k)
    ensures Two(k + 128) <= Clmul(q, G) < 2 * Two(k + 128)
    decreases k
  {
    hide Xor;
    hide Clmul;
    FieldSize();
    ClmulUnfold(q, G);
    if k == 0 {
      assert Two(0) == 1 && q == 1;
      ClmulNone(G);
      XorZero(G);
    } else {
      var m := 2 * Clmul(q / 2, G);
      MultipleDegree(q / 2, k - 1);
      PowMono(2, 129, k + 128);
      PowAdd(2, 128, 1);
      PowOne(2);
      PowSucc(2, k + 127);
      XorTop(m - Two(k + 128), q % 2 * G, k + 128);
      XorComm(m, q % 2 * G);
    }
  }

  lemma Degree(q: nat) returns (k: nat)
    requires q > 0
    ensures Two(k) <= q < 2 * Two(k)
  {
    if q == 1 {
      k := 0;
    } else {
      k := Degree(q / 2);
      k := k + 1;
    }
  }

  /** Two remainders below G of one polynomial are equal. */
  lemma RemainderUnique(q: nat, r: nat, q': nat, r': nat)
    requires r < FIELD && r' < FIELD && Xor(Clmul(q, G), r) == Xor(Clmul(q', G), r')
    ensures r == r'
  {
    hide Xor;
    hide Clmul;
    FieldSize();
    var a, b, d := Clmul(q, G), Clmul(q', G), Xor(q, q');
    ClmulXorLeft(q, q', G);
    SwapSides(a, r, b, r');
    BitsBound(r, r', 128);
    if d != 0 {
      var k := Degree(d);
      MultipleDegree(d, k);
      PowMono(2, 128, k + 128);
    } else {
      ClmulNone(G);
      XorSame(r, r');
    }
  }

  lemma SwapSides(a: nat, r: nat, b: nat, s: nat)
    requires Xor(a, r) == Xor(b, s)
    ensures Xor(a, b) == Xor(r, s)
  {
    hide Xor;
    XorSwapMiddle(a, r, b, s);
    XorZero(Xor(a, r));
    XorSame(Xor(a, b), Xor(r, s));
  }

  lemma XorSame(a: nat, b: nat)
    requires Xor(a, b) == 0
    ensures a == b
  {
    XorTwice(a, b);
    XorComm(0, b);
    XorZero(b);
  }

  lemma {:induction false} ClmulOne(b: nat, e: nat)
    requires e < 2
    ensures Clmul(b, e) == e * b
  {
    hide Xor;
    if e == 0 {
      ClmulByZero(b);
    } else if b > 0 {
      ClmulOne(b / 2, e);
      XorLow(b / 2, b % 2);
      XorComm(b % 2, 2 * (b / 2));
    }
  }

  lemma XorLow(h: nat, e: nat)
    requires e < 2
    ensures Xor(2 * h, e) == 2 * h + e
  {
    hide Xor;
    XorHalf(2 * h, e);
    assert 2 * h / 2 == h && e / 2 == 0;
    XorZero(h);
  }

  lemma {:induction false} ClmulComm(a: nat, b: nat)
    ensures Clmul(a, b) == Clmul(b, a)
  {
    hide Xor;
    hide Clmul;
    if a == 0 {
      ClmulNone(b);
      ClmulByZero(b);
    } else {
      var h, e := a / 2, a % 2;
      ClmulUnfold(a, b);
      ClmulComm(h, b);
      XorLow(h, e);
      ClmulXorRight(b, 2 * h, e);
      ClmulDouble(b, h);
      ClmulOne(b, e);
      XorComm(e * b, 2 * Clmul(h, b));
    }
  }

  lemma {:induction false} RevInjective(n: nat, x: nat, y: nat)
    requires x < Two(n) && y < Two(n) && Rev(n, x) == Rev(n, y)
    ensures x == y
  {
    if n > 0 {
      RevBound(n - 1, x / 2);
      RevBound(n - 1, y / 2);
      DivModUnique(Rev(n, x), x % 2, Rev(n - 1, x / 2), Two(n - 1));
      DivModUnique(Rev(n, y), y % 2, Rev(n - 1, y / 2), Two(n - 1));
      RevInjective(n - 1, x / 2, y / 2);
    }
  }

  /** Any string whose polynomial is a remainder of the polynomial product is the standard's product. */
  lemma ProductUnique(x: Elem, y: Elem, z: Elem, q: nat)
    requires Clmul(Rev(128, x), Rev(128, y)) == Xor(Clmul(q, G), Rev(128, z))
    ensures z == Mul(x, y)
  {
    hide Xor;
    hide Clmul;
    hide Rev;
    hide Mul;
    FieldSize();
    var q' := ProductIsPolynomial(x, y);
    RevBound(128, z);
    RemainderUnique(q, Rev(128, z), q', Rev(128, Mul(x, y)));
    RevInjective(128, z, Mul(x, y));
  }

  lemma MulCommutes(x: Elem, y: Elem)
    ensures Mul(x, y) == Mul(y, x)
  {
    hide Xor;
    hide Clmul;
    hide Rev;
    hide Mul;
    var q := ProductIsPolynomial(y, x);
    ClmulComm(Rev(128, x), Rev(128, y));
    ProductUnique(x, y, Mul(y, x), q);
  }

  lemma MulDistributes(x: Elem, y: Elem, h: Elem)
    ensures Mul(Xor128(x, y), h) == Xor128(Mul(x, h), Mul(y, h))
  {
    hide Xor;
    hide Clmul;
    hide Rev;
    hide Mul;
    var q := ProductIsPolynomial(x, h);
    var p := ProductIsPolynomial(y, h);
    var z := Xor128(Mul(x, h), Mul(y, h));
    RevXor(128, x, y);
    RevXor(128, Mul(x, h), Mul(y, h));
    ClmulXorLeft(Rev(128, x), Rev(128, y), Rev(128, h));
    ClmulXorLeft(q, p, G);
    XorSwapMiddle(Clmul(q, G), Rev(128, Mul(x, h)), Clmul(p, G), Rev(128, Mul(y, h)));
    ProductUnique(Xor128(x, y), h, z, Xor(q, p));
  }
}
