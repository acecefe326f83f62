/** The C operators &, | and ^ on unsigned values, bit by bit. */
module Bits {
  import opened Arith

  function Two(k: nat): (p: nat)
    ensures p == Pow(2, k) && p > 0
  {
    PowPos(2, k);
    Pow(2, k)
  }

  /** Bit j of x. */
  function Bit(x: nat, j: nat): (b: nat)
    ensures b < 2
    decreases j
  {
    if j == 0 then x % 2 else Bit(x / 2, j - 1)
  }

  lemma {:induction false} BitDiv(x: nat, j: nat)
    ensures Bit(x, j) == x / Two(j) % 2
    decreases j
  {
    if j > 0 {
      BitDiv(x / 2, j - 1);
      DivTwice(x, 2, Two(j - 1));
    }
  }

  function And(x: nat, y: nat): nat
    decreases x + y
  {
    if x == 0 && y == 0 then 0 else (x % 2) * (y % 2) + 2 * And(x / 2, y / 2)
  }

  function Or(x: nat, y: nat): nat
    decreases x + y
  {
    if x == 0 && y == 0 then 0 else (x % 2 + y % 2 + 1) / 2 + 2 * Or(x / 2, y / 2)
  }

  function Xor(x: nat, y: nat): nat
    decreases x + y
  {
    if x == 0 && y == 0 then 0 else (x % 2 + y % 2) % 2 + 2 * Xor(x / 2, y / 2)
  }

  lemma {:induction false} BitsBound(x: nat, y: nat, k: nat)
    requires x < Pow(2, k) && y < Pow(2, k)
    ensures And(x, y) < Pow(2, k) && Or(x, y) < Pow(2, k) && Xor(x, y) < Pow(2, k)
  {
    if x == 0 && y == 0 {
      PowPos(2, k);
    } else {
      BitsBound(x / 2, y / 2, k - 1);
    }
  }

  /** Setting low bits where there are none is adding them. */
  lemma {:induction false} OrDisjoint(x: nat, y: nat, k: nat)
    requires y < Pow(2, k)
    ensures x * Pow(2, k) >= 0 && Or(x * Pow(2, k), y) == x * Pow(2, k) + y
  {
    PowPos(2, k);
    MulMono(0, x, Pow(2, k));
    if k == 0 {
      OrZero(x);
    } else {
      hide Or;
      var a := x * Pow(2, k - 1);
      OrDisjoint(x, y / 2, k - 1);
      ShiftUp(x, k);
      OrEven(a, y);
    }
  }

  lemma ShiftUp(x: nat, k: nat)
    requires k > 0
    ensures x * Pow(2, k) == 2 * (x * Pow(2, k - 1))
  {
    assert Pow(2, k) == 2 * Pow(2, k - 1);
  }

  lemma OrEven(a: nat, y: nat)
    ensures Or(2 * a, y) == y % 2 + 2 * Or(a, y / 2)
  {
    assert 2 * a / 2 == a;
  }

  lemma {:induction false} OrZero(x: nat)
    ensures Or(x, 0) == x
  {
    if x > 0 { OrZero(x / 2); }
  }

  lemma {:induction false} OrComm(x: nat, y: nat)
    ensures Or(x, y) == Or(y, x)
    decreases x + y
  {
    if x + y > 0 { OrComm(x / 2, y / 2); }
  }

  /** Masking with k ones is the remainder modulo 2^k. */
  lemma {:induction false} AndMask(x: nat, k: nat)
    ensures Pow(2, k) > 0 && And(x, Pow(2, k) - 1) == x % Pow(2, k)
    decreases k, x
  {
    PowPos(2, k);
    if k == 0 {
      AndZero(x);
    } else {
      hide And;
      var p := Pow(2, k - 1);
      PowPos(2, k - 1);
      AndMask(x / 2, k - 1);
      AndOdd(x, p - 1);
      HalvedRemainder(x, p);
    }
  }

  lemma AndOdd(x: nat, a: nat)
    ensures And(x, 2 * a + 1) == x % 2 + 2 * And(x / 2, a)
  {
    OddHalf(a);
  }

  lemma OddHalf(a: nat)
    ensures (2 * a + 1) / 2 == a && (2 * a + 1) % 2 == 1
  {}

  lemma HalvedRemainder(x: nat, p: nat)
    requires p > 0
    ensures x % (2 * p) == x % 2 + 2 * (x / 2 % p)
  {
    var h := x / 2;
    var q, r := h / p, h % p;
    assert h == q * p + r;
    assert q * (2 * p) == 2 * (q * p);
    DivModUnique(x, q, 2 * r + x % 2, 2 * p);
  }

  lemma {:induction false} AndZero(x: nat)
    ensures And(x, 0) == 0
  {
    if x > 0 { AndZero(x / 2); }
  }

  lemma {:induction false} XorComm(x: nat, y: nat)
    ensures Xor(x, y) == Xor(y, x)
    decreases x + y
  {
    if x + y > 0 { XorComm(x / 2, y / 2); }
  }

  lemma {:induction false} XorAssoc(x: nat, y: nat, z: nat)
    ensures Xor(Xor(x, y), z) == Xor(x, Xor(y, z))
    decreases x + y + z
  {
    hide Xor;
    if x + y + z > 0 {
      XorAssoc(x / 2, y / 2, z / 2);
      XorHalf(x, y);
      XorHalf(y, z);
      XorHalf(Xor(x, y), z);
      XorHalf(x, Xor(y, z));
      SameHalves(Xor(Xor(x, y), z), Xor(x, Xor(y, z)));
    } else {
      XorZero(0);
    }
  }

  lemma SameHalves(x: nat, y: nat)
    requires x / 2 == y / 2 && x % 2 == y % 2
    ensures x == y
  {}

  lemma XorHalf(x: nat, y: nat)
    ensures Xor(x, y) / 2 == Xor(x / 2, y / 2) && Xor(x, y) % 2 == (x % 2 + y % 2) % 2
  {
    assert Xor(0, 0) == 0;
  }

  lemma {:induction false} XorZero(x: nat)
    ensures Xor(x, 0) == x && Xor(x, x) == 0
  {
    if x > 0 { XorZero(x / 2); }
  }

  /** Xor undoes itself. */
  lemma XorTwice(x: nat, y: nat)
    ensures Xor(Xor(x, y), y) == x
  {
    XorAssoc(x, y, y);
    XorZero(y);
    XorZero(x);
  }

  /** Xor of two concatenations is the concatenation of the xors. */
  lemma {:induction false} XorConcat(a: nat, b: nat, c: nat, d: nat, k: nat)
    requires c < Pow(2, k) && d < Pow(2, k)
    ensures a * Pow(2, k) >= 0 && b * Pow(2, k) >= 0
    ensures Xor(a * Pow(2, k) + c, b * Pow(2, k) + d) == Xor(a, b) * Pow(2, k) + Xor(c, d)
    decreases k
  {
    hide Xor;
    PowPos(2, k);
    MulMono(0, a, Pow(2, k));
    MulMono(0, b, Pow(2, k));
    if k == 0 {
      XorZero(0);
    } else {
      XorConcat(a, b, c / 2, d / 2, k - 1);
      ShiftUp(a, k);
      ShiftUp(b, k);
      ShiftUp(Xor(a, b), k);
      var x, y := a * Pow(2, k) + c, b * Pow(2, k) + d;
      XorHalf(x, y);
      XorHalf(c, d);
      assert x / 2 == a * Pow(2, k - 1) + c / 2 && y / 2 == b * Pow(2, k - 1) + d / 2;
      assert x % 2 == c % 2 && y % 2 == d % 2;
    }
  }

  lemma XorDouble(a: nat, b: nat)
    ensures Xor(2 * a, 2 * b) == 2 * Xor(a, b)
  {
    assert 2 * a / 2 == a && 2 * b / 2 == b;
  }

  lemma XorSwapMiddle(a: nat, b: nat, c: nat, d: nat)
    ensures Xor(Xor(a, b), Xor(c, d)) == Xor(Xor(a, c), Xor(b, d))
  {
    hide Xor;
    XorAssoc(a, b, Xor(c, d));
    XorAssoc(b, c, d);
    XorComm(b, c);
    XorAssoc(c, b, d);
    XorAssoc(a, c, Xor(b, d));
  }

  lemma {:induction false} AndHigh(a: nat, b: nat, c: nat, k: nat)
    requires c < Two(k)
    ensures And(a * Two(k) + c, b * Two(k)) == And(a, b) * Two(k)
    decreases k
  {
    hide And;
    if k == 0 {
      assert Two(0) == 1;
    } else {
      var p := Two(k - 1);
      AndHigh(a, b, c / 2, k - 1);
      ShiftUp(a, k);
      ShiftUp(b, k);
      ShiftUp(And(a, b), k);
      AndHalf(a * Two(k) + c, b * p);
      assert (a * Two(k) + c) / 2 == a * p + c / 2;
    }
  }

  lemma AndHalf(x: nat, y: nat)
    ensures And(x, 2 * y) == 2 * And(x / 2, y)
  {
    assert 2 * y / 2 == y && 2 * y % 2 == 0;
  }

  /** The same for or. */
  lemma {:induction false} OrConcat(a: nat, b: nat, c: nat, d: nat, k: nat)
    requires c < Two(k) && d < Two(k)
    ensures Or(a * Two(k) + c, b * Two(k) + d) == Or(a, b) * Two(k) + Or(c, d)
    decreases k
  {
    hide Or;
    if k == 0 {
      OrZero(0);
    } else {
      OrConcat(a, b, c / 2, d / 2, k - 1);
      ShiftUp(a, k);
      ShiftUp(b, k);
      ShiftUp(Or(a, b), k);
      var x, y := a * Two(k) + c, b * Two(k) + d;
      OrHalf(x, y);
      OrHalf(c, d);
      assert x / 2 == a * Two(k - 1) + c / 2 && y / 2 == b * Two(k - 1) + d / 2;
      assert x % 2 == c % 2 && y % 2 == d % 2;
    }
  }

  lemma OrHalf(x: nat, y: nat)
    ensures Or(x, y) / 2 == Or(x / 2, y / 2) && Or(x, y) % 2 == (x % 2 + y % 2 + 1) / 2
  {
    OrUnfold(x, y);
    hide Or;
    DivModUnique(Or(x, y), Or(x / 2, y / 2), (x % 2 + y % 2 + 1) / 2, 2);
  }

  lemma OrUnfold(x: nat, y: nat)
    ensures Or(x, y) == (x % 2 + y % 2 + 1) / 2 + 2 * Or(x / 2, y / 2)
  {
    if x == 0 && y == 0 { OrZero(0); }
  }

  /** Clearing the byte of weight 2^k with and and xor, then setting it with or. */
  function PutByteBits(x: nat, v: nat, p: nat): nat {
    Or(Xor(x, And(x, 0xFF * p)), v * p)
  }

  lemma PutByteValue(h: nat, d: nat, lo: nat, v: nat, k: nat)
    requires d < 256 && v < 256 && lo < Two(k)
    ensures PutByteBits((h * 256 + d) * Two(k) + lo, v, Two(k)) == (h * 256 + v) * Two(k) + lo
  {
    hide And;
    hide Xor;
    hide Or;
    hide Pow;
    ByteTaken(h, d, lo, k);
    ByteCleared(h, d, lo, k);
    OrConcat(h * 256, v, lo, 0, k);
    EightBitsWide();
    OrDisjoint(h, v, 8);
    OrZero(lo);
  }

  lemma ByteTaken(h: nat, d: nat, lo: nat, k: nat)
    requires d < 256 && lo < Two(k)
    ensures And((h * 256 + d) * Two(k) + lo, 0xFF * Two(k)) == d * Two(k)
  {
    hide And;
    hide Pow;
    var x := h * 256 + d;
    EightBitsWide();
    AndHigh(x, 0xFF, lo, k);
    AndMask(x, 8);
    DivModUnique(x, h, d, 256);
  }

  lemma ByteCleared(h: nat, d: nat, lo: nat, k: nat)
    requires d < 256 && lo < Two(k)
    ensures Xor((h * 256 + d) * Two(k) + lo, d * Two(k)) == h * 256 * Two(k) + lo
  {
    hide Xor;
    hide Pow;
    EightBitsWide();
    XorConcat(h * 256 + d, d, lo, 0, k);
    XorConcat(h, 0, d, d, 8);
    XorZero(lo);
    XorZero(h);
    XorZero(d);
  }

  lemma EightBitsWide()
    ensures Two(8) == 256
  {}
}
