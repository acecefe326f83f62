/** Modular inverse by the binary method, on the values of the numbers. */
module BinaryInverse {
  import opened Arith
  import opened ShiftReduce

  ghost predicate Divides(d: int, a: int)
    requires d > 0
  {
    a % d == 0
  }

  /** No divisor above 1 is shared. */
  ghost predicate Coprime(a: int, b: int) {
    forall d :: d > 1 ==> !(Divides(d, a) && Divides(d, b))
  }

  lemma DividesSum(d: int, a: int, b: int)
    requires d > 0 && Divides(d, a) && Divides(d, b)
    ensures Divides(d, a + b) && Divides(d, a - b)
  {
    CongAdd(a, 0, b, 0, d);
    CongSub(a, 0, b, 0, d);
  }

  lemma DividesTwice(d: int, a: int)
    requires d > 0 && Divides(d, a)
    ensures Divides(d, 2 * a)
  {
    DividesSum(d, a, a);
  }

  lemma CoprimeHalf(u: int, v: int)
    requires Coprime(u, v) && u % 2 == 0
    ensures Coprime(u / 2, v) && Coprime(v, u / 2)
  {
    forall d | d > 1 && Divides(d, u / 2) && Divides(d, v) ensures false {
      DividesTwice(d, u / 2);
    }
  }

  lemma CoprimeSub(u: int, v: int)
    requires Coprime(u, v)
    ensures Coprime(u - v, v)
  {
    forall d | d > 1 && Divides(d, u - v) && Divides(d, v) ensures false {
      DividesSum(d, u - v, v);
    }
  }

  lemma CoprimeSym(u: int, v: int)
    requires Coprime(u, v)
    ensures Coprime(v, u)
  {}

  lemma CoprimeMod(a: int, p: int)
    requires p > 1 && Coprime(a, p)
    ensures Coprime(a % p, p) && a % p >= 1
  {
    assert a == (a / p) * p + a % p;
    forall d | d > 1 && Divides(d, a % p) && Divides(d, p) ensures false {
      CongScale(p, 0, a / p, d);
      DividesSum(d, (a / p) * p, a % p);
    }
    if a % p == 0 {
      DivModUnique(p, 1, 0, p);
      assert Divides(p, a) && Divides(p, p);
    }
  }

  /** x is u/a mod p, reduced. */
  ghost predicate Quotient(x: int, u: int, a: int, p: int) {
    p > 0 && 0 <= x < p && Cong(a * x, u, p)
  }

  /** Halving u and x together, adding the odd p to an odd x first. */
  lemma HalveBoth(x: int, u: int, a: int, p: int)
    requires Quotient(x, u, a, p) && p % 2 == 1 && p > 1 && u % 2 == 0
    ensures Quotient(if x % 2 == 0 then x / 2 else (x + p) / 2, u / 2, a, p)
  {
    hide Cong;
    var odd := x % 2;
    var e := x + odd * p;
    var y := e / 2;
    assert e == 2 * y && 0 <= y < p;
    CongFrom(e, x, odd, p);
    HalvedCong(x, e, y, u, u / 2, a, p);
  }

  lemma HalvedCong(x: int, e: int, y: int, u: int, h: int, a: int, p: int)
    requires p > 1 && p % 2 == 1 && Cong(a * x, u, p) && Cong(e, x, p) && e == 2 * y && u == 2 * h
    ensures Cong(a * y, h, p)
  {
    hide Cong;
    CongScale(e, x, a, p);
    CongTrans(a * e, a * x, u, p);
    assert a * e == (a * y) * 2 && u == h * 2;
    var inv := (p + 1) / 2;
    CongFrom(2 * inv, 1, 1, p);
    CongCancel(a * y, h, 2, inv, p);
  }

  /** The difference of two such numbers. */
  lemma SubtractBoth(x: int, u: int, y: int, v: int, a: int, p: int)
    requires Quotient(x, u, a, p) && Quotient(y, v, a, p)
    ensures Quotient(if x >= y then x - y else x + (p - y), u - v, a, p)
  {
    hide Cong;
    CongSub(a * x, u, a * y, v, p);
    var z := if x >= y then x - y else x + (p - y);
    CongFrom(z, x - y, if x >= y then 0 else 1, p);
    CongScale(z, x - y, a, p);
    assert a * (x - y) == a * x - a * y;
    CongTrans(a * z, a * x - a * y, u - v, p);
  }

  /** The inner loop: divides all factors of two out of u, keeping x = u/a. */
  method StripTwos(u0: int, x0: int, ghost v: int, ghost a: int, p: int) returns (u: int, x: int)
    requires p % 2 == 1 && p > 1 && u0 >= 1 && Quotient(x0, u0, a, p) && Coprime(u0, v)
    ensures 1 <= u <= u0 && u % 2 == 1 && Quotient(x, u, a, p) && Coprime(u, v)
    ensures u0 % 2 == 1 ==> u == u0
  {
    u, x := u0, x0;
    while u % 2 == 0
      invariant 1 <= u <= u0 && Quotient(x, u, a, p) && Coprime(u, v) && (u0 % 2 == 1 ==> u == u0)
      decreases u
    {
      HalveBoth(x, u, a, p);
      CoprimeHalf(u, v);
      u := u / 2;
      if x % 2 != 0 { x := x + p; }
      x := x / 2;
    }
  }

  /** Odd numbers that share no divisor and are not both 1 differ. */
  lemma Different(u: int, v: int)
    requires Coprime(u, v) && u >= 1 && v >= 1 && !(u == 1 && v == 1)
    ensures u != v
  {
    if u == v {
      DivModUnique(u, 1, 0, u);
      assert Divides(u, u);
    }
  }

  lemma NotBothEven(u: int, v: int)
    requires Coprime(u, v)
    ensures u % 2 == 1 || v % 2 == 1
  {
    assert !(Divides(2, u) && Divides(2, v));
  }

  /** MCL_BIG_invmodp: r = 1/a mod p for odd p > 1 and every a coprime to it; it terminates. */
  method InvModP(a: int, p: int) returns (r: int)
    requires p > 1 && p % 2 == 1 && a >= 0 && Coprime(a, p)
    ensures 0 <= r < p && Cong(a * r, 1, p)
  {
    hide Coprime;
    hide Cong;
    hide Quotient;
    var u, kept := Mod(a, p);
    CoprimeMod(a, p);
    var v, x1, x2 := p, 1, 0;
    InverseStart(a, p);
    while u != 1 && v != 1
      invariant u >= 1 && v >= 1 && Coprime(u, v) && Quotient(x1, u, a, p) && Quotient(x2, v, a, p)
      decreases u + v
    {
      NotBothEven(u, v);
      ghost var u0, v0 := u, v;
      u, x1 := StripTwos(u, x1, v, a, p);
      CoprimeSym(u, v);
      v, x2 := StripTwos(v, x2, u, a, p);
      Different(v, u);
      if u >= v {
        SubtractBoth(x1, u, x2, v, a, p);
        CoprimeSym(v, u);
        CoprimeSub(u, v);
        u := u - v;
        if x1 >= x2 { x1 := x1 - x2; } else { x1 := x1 + (p - x2); }
      } else {
        SubtractBoth(x2, v, x1, u, a, p);
        CoprimeSub(v, u);
        v := v - u;
        CoprimeSym(v, u);
        if x2 >= x1 { x2 := x2 - x1; } else { x2 := x2 + (p - x1); }
      }
    }
    r := if u == 1 then x1 else x2;
    QuotientOfOne(r, a, p);
  }

  lemma QuotientOfOne(r: int, a: int, p: int)
    requires Quotient(r, 1, a, p)
    ensures 0 <= r < p && Cong(a * r, 1, p)
  {}

  lemma InverseStart(a: int, p: int)
    requires p > 1
    ensures Quotient(1, a % p, a, p) && Quotient(0, p, a, p)
  {
    CongMod(a, p);
    DivModUnique(p, 1, 0, p);
    assert a * 0 == 0;
    SmallMod(0, p);
  }

  // ----- the other half: without coprimality the loop does not end -------------------------------

  /** An odd divisor d > 1 shared by u and v survives every assignment of the loop. */
  lemma SharedDivisorStays(d: int, u: int, v: int)
    requires d > 1 && d % 2 == 1 && Divides(d, u) && Divides(d, v)
    ensures u != 1 && v != 1 && Divides(d, u - v) && Divides(d, v - u)
    ensures u % 2 == 0 ==> Divides(d, u / 2)
  {
    SmallMod(1, d);
    DividesSum(d, u, v);
    DividesSum(d, v, u);
    if u % 2 == 0 {
      hide Cong;
      assert (u / 2) * 2 == u && 0 * 2 == 0;
      CongFrom(u, 0, u / d, d) by { assert u == (u / d) * d + u % d; }
      CongFrom(2 * ((d + 1) / 2), 1, 1, d);
      CongCancel(u / 2, 0, 2, (d + 1) / 2, d);
      ZeroResidue(u / 2, d);
    }
  }

  lemma ZeroResidue(a: int, d: int)
    requires d > 0 && Cong(a, 0, d)
    ensures Divides(d, a)
  {
    SmallMod(0, d);
  }

  /** The assignments of the loop to u and v, each under its guard. */
  datatype Move = HalveU | HalveV | SubtractFromU | SubtractFromV

  ghost function Moved(s: (int, int), m: Move): (int, int) {
    var (u, v) := s;
    match m
    case HalveU => (if u % 2 == 0 then u / 2 else u, v)
    case HalveV => (u, if v % 2 == 0 then v / 2 else v)
    case SubtractFromU => (if u >= v then u - v else u, v)
    case SubtractFromV => (u, if u < v then v - u else v)
  }

  ghost function After(u: int, v: int, moves: seq<Move>): (int, int) {
    if |moves| == 0 then (u, v) else Moved(After(u, v, moves[..|moves| - 1]), moves[|moves| - 1])
  }

  lemma {:induction false} SharedDivisorSurvives(d: int, u: int, v: int, moves: seq<Move>)
    requires d > 1 && d % 2 == 1 && Divides(d, u) && Divides(d, v)
    ensures var (u', v') := After(u, v, moves); Divides(d, u') && Divides(d, v') && u' != 1 && v' != 1
    decreases |moves|
  {
    hide Divides;
    if |moves| == 0 {
      SharedDivisorStays(d, u, v);
    } else {
      SharedDivisorSurvives(d, u, v, moves[..|moves| - 1]);
      var (x, y) := After(u, v, moves[..|moves| - 1]);
      SharedDivisorStays(d, x, y);
      SharedDivisorStays(d, y, x);
      var (u', v') := Moved((x, y), moves[|moves| - 1]);
      SharedDivisorStays(d, u', v');
    }
  }

  /** For a and an odd p that are not coprime, no run of the loop, however long, makes u or v one. */
  lemma NeverEnds(a: int, p: int, moves: seq<Move>)
    requires p > 1 && p % 2 == 1 && a >= 0 && !Coprime(a, p)
    ensures var (u, v) := After(a % p, p, moves); u != 1 && v != 1
  {
    var d :| d > 1 && Divides(d, a) && Divides(d, p);
    OddDivisor(d, p);
    ResidueDivides(d, a, p);
    SharedDivisorSurvives(d, a % p, p, moves);
  }

  lemma OddDivisor(d: int, p: int)
    requires d > 1 && p % 2 == 1 && Divides(d, p)
    ensures d % 2 == 1
  {
    var q, h := p / d, d / 2;
    assert p == q * d;
    assert q * (2 * h) == 2 * (q * h);
  }

  lemma ResidueDivides(d: int, a: int, p: int)
    requires d > 1 && p > 0 && Divides(d, a) && Divides(d, p)
    ensures Divides(d, a % p)
  {
    assert a % p == a - (a / p) * p;
    CongScale(p, 0, a / p, d);
    DividesSum(d, a, (a / p) * p);
  }

  /** Two inputs on which MCL_BIG_invmodp never returns. */
  lemma NeverEndsAt(moves: seq<Move>)
    ensures var (u, v) := After(3 % 9, 9, moves); u != 1 && v != 1
    ensures var (u, v) := After(0 % 9, 9, moves); u != 1 && v != 1
  {
    assert Divides(3, 3) && Divides(3, 9) && Divides(3, 0);
    NeverEnds(3, 9, moves);
    NeverEnds(0, 9, moves);
  }
}
