/** Inverses modulo powers of two by Hensel lifting (Arazi and Qi), from 8 bits to a whole digit. */
module Hensel {
  import opened Arith

  /**
   * One lifting round at S: with a = b + c*S + h*S*S, t = floor(U*b/S), e congruent to (t + U*c)*U and f to -e,
   * U + S*f inverts a mod S*S.
   */
  lemma LiftStep(U: int, a: int, b: int, c: int, h: int, t: int, e: int, f: int, S: int)
    requires S > 0 && S * S > 0 && Cong(U * a, 1, S)
    requires a == b + c * S + h * (S * S) && U * b == t * S + 1
    requires Cong(e, (t + U * c) * U, S) && Cong(f, -e, S)
    ensures Cong((U + S * f) * a, 1, S * S)
  {
    hide Cong;
    var g := t + U * c;
    CongScale(e, g * U, a, S);
    CongScale(U * a, 1, g, S);
    assert (g * U) * a == g * (U * a);
    CongTrans(e * a, (g * U) * a, g, S);
    CongScale(f, -e, a, S);
    assert (-e) * a == -(e * a);
    CongScale(e * a, g, -1, S);
    CongTrans(f * a, -(e * a), -g, S);
    var j := CongWitness(f * a, -g, S);
    LiftArith(U, a, b, c, h, t, f, j, S);
    CongFrom((U + S * f) * a, 1, U * h + j, S * S);
  }

  lemma LiftArith(U: int, a: int, b: int, c: int, h: int, t: int, f: int, j: int, S: int)
    requires a == b + c * S + h * (S * S) && U * b == t * S + 1 && f * a == -(t + U * c) + j * S
    ensures (U + S * f) * a == 1 + (U * h + j) * (S * S)
  {
    ExpandUa(U, a, b, c, h, S);
    ExpandSfa(f * a, t, U * c, j, S);
    assert (U + S * f) * a == U * a + S * (f * a) by { assert (S * f) * a == S * (f * a); }
    assert (U * h + j) * (S * S) == (U * h) * (S * S) + j * (S * S);
  }

  lemma ExpandUa(U: int, a: int, b: int, c: int, h: int, S: int)
    requires a == b + c * S + h * (S * S)
    ensures U * a == U * b + (U * c) * S + (U * h) * (S * S)
  {
    assert U * (b + c * S + h * (S * S)) == U * b + U * (c * S) + U * (h * (S * S));
    assert U * (c * S) == (U * c) * S && U * (h * (S * S)) == (U * h) * (S * S);
  }

  lemma ExpandSfa(x: int, t: int, v: int, j: int, S: int)
    requires x == -(t + v) + j * S
    ensures S * x == -(t * S) - v * S + j * (S * S)
  {
    assert S * (j * S) == j * (S * S);
    assert S * (-(t + v) + j * S) == -(S * t) - S * v + S * (j * S);
  }

  /** Low and next chunk of a at S, and what multiplying U by the low chunk gives. */
  lemma Chunks(U: int, a: int, S: int)
    requires S > 1 && a >= 0 && U >= 0 && Cong(U * a, 1, S)
    ensures S * S > 0
    ensures a == a % S + ((a / S) % S) * S + ((a / S) / S) * (S * S)
    ensures U * (a % S) == ((U * (a % S)) / S) * S + 1
  {
    hide Cong;
    var b, q := a % S, a / S;
    assert a == q * S + b;
    var c, h := q % S, q / S;
    assert q == h * S + c;
    assert (h * S + c) * S == h * (S * S) + c * S;
    CongMod(a, S);
    CongScale(b, a, U, S);
    CongTrans(U * b, U * a, 1, S);
    OneRemainder(U * b, S);
    MulMono(1, S, S);
  }

  lemma OneRemainder(v: int, S: int)
    requires S > 1 && Cong(v, 1, S)
    ensures v == (v / S) * S + 1
  {
    SmallMod(1, S);
  }

  /** One round as the program computes it: products cut at capacity cap, digits taken with / and %. */
  method Round(U: int, a: int, S: int, cap: int) returns (V: int)
    requires S >= 2 && a >= 0 && 0 <= U <= 2 * S && Cong(U * a, 1, S)
    requires cap >= 8 * (S * S)
    ensures S * S > 0 && Cong(V * a, 1, S * S) && 0 <= V <= 2 * (S * S)
  {
    hide Cong;
    Chunks(U, a, S);
    var b := a % S;
    BelowCap(U, b, S, cap);
    var t1 := ((U * b) % cap) / S;
    var c := (a / S) % S;
    var b' := ((U * c) % cap) % S;
    BelowCap(U, c, S, cap);
    var t2 := t1 + b';
    SumBelowCap(U, b, t1, b', S, cap);
    var e := ((t2 * U) % cap) % S;
    var f := S - e;
    V := U + f * S;
    RoundCong(U, a, b, c, t1, b', e, f, S);
    MulMono(f, S, S);
    MulMono(1, f, S);
    MulMono(2, S, S);
  }

  lemma BelowCap(U: int, b: int, S: int, cap: int)
    requires S >= 2 && 0 <= U <= 2 * S && 0 <= b < S && cap >= 8 * (S * S)
    ensures 0 <= U * b <= 2 * (S * S) && (U * b) % cap == U * b
  {
    MulMono(0, U, b);
    MulMono(U, 2 * S, b);
    MulMono(b, S, 2 * S);
    assert (2 * S) * b == b * (2 * S) && S * (2 * S) == 2 * (S * S);
    MulMono(1, S, S);
    SmallMod(U * b, cap);
  }

  lemma SumBelowCap(U: int, b: int, t1: int, b': int, S: int, cap: int)
    requires S >= 2 && 0 <= U <= 2 * S && 0 <= U * b <= 2 * (S * S) && 0 <= b' < S && cap >= 8 * (S * S)
    requires U * b == t1 * S + 1
    ensures 0 <= t1 <= 2 * S && 0 <= (t1 + b') * U < cap && ((t1 + b') * U) % cap == (t1 + b') * U
  {
    QuotientBound(t1, S);
    MulMono(0, t1 + b', U);
    MulMono(t1 + b', 3 * S, U);
    TripleDouble(U, S);
    SmallMod((t1 + b') * U, cap);
  }

  lemma QuotientBound(t1: int, S: int)
    requires S >= 2 && 0 <= t1 * S + 1 <= 2 * (S * S)
    ensures 0 <= t1 <= 2 * S
  {
    if t1 < 0 { MulMono(t1, -1, S); }
    assert (2 * S + 1) * S == 2 * (S * S) + S;
    if t1 > 2 * S { MulMono(2 * S + 1, t1, S); }
  }

  lemma TripleDouble(U: int, S: int)
    requires S >= 2 && 0 <= U <= 2 * S
    ensures (3 * S) * U <= 6 * (S * S) < 8 * (S * S)
  {
    MulMono(U, 2 * S, 3 * S);
    assert (3 * S) * U == U * (3 * S) && (2 * S) * (3 * S) == 6 * (S * S);
    MulMono(1, S, S);
  }

  lemma RoundCong(U: int, a: int, b: int, c: int, t1: int, b': int, e: int, f: int, S: int)
    requires S >= 2 && a >= 0 && S * S > 0 && Cong(U * a, 1, S)
    requires b == a % S && c == (a / S) % S && U * b == t1 * S + 1
    requires a == b + c * S + ((a / S) / S) * (S * S)
    requires b' == (U * c) % S && e == ((t1 + b') * U) % S && f == S - e
    ensures Cong((U + f * S) * a, 1, S * S)
  {
    hide Cong;
    CongMod(U * c, S);
    CongFrom(t1, t1, 0, S);
    CongAdd(t1, t1, b', U * c, S);
    CongScale(t1 + b', t1 + U * c, U, S);
    CongMod((t1 + b') * U, S);
    CongTrans(e, (t1 + b') * U, (t1 + U * c) * U, S);
    CongFrom(f, -e, 1, S);
    LiftStep(U, a, b, c, (a / S) / S, t1, e, f, S);
    assert S * f == f * S;
  }

  /** invmod256: three rounds, at 2, 4 and 16. */
  method InvMod256(a: int) returns (U: int)
    requires 0 <= a < 256 && a % 2 == 1
    ensures Cong(U * a, 1, 256) && 0 <= U <= 2 * 256
  {
    SmallMod(1, 2);
    assert Cong(1 * a, 1, 2);
    U := Round(1, a, 2, 1024);
    U := Round(U, a, 4, 1024);
    U := Round(U, a, 16, 2048);
  }

  /**
   * MCL_BIG_invmod2m: every round doubles the number of correct low bits, from 8 up to 2^k bits, and with three
   * spare bits above them no product is cut.
   */
  method InvMod2m(a: int, ghost k: nat, bits: nat, cap: int) returns (U: int)
    requires k >= 3 && bits == Pow(2, k) && a >= 0 && a % 2 == 1 && cap >= 8 * Pow(2, bits)
    ensures Pow(2, bits) > 0 && Cong(U * a, 1, Pow(2, bits)) && 0 <= U <= 2 * Pow(2, bits)
  {
    hide Cong;
    LowByte(a);
    U := InvMod256(a % 256);
    PowEight();
    CongMod(a, 256);
    CongScale(a % 256, a, U, 256);
    CongSymTrans(U * (a % 256), U * a, 1, 256);
    var i: nat, S := 8, 256;
    ghost var j: nat := 3;
    while i < bits
      invariant 3 <= j <= k && i == Pow(2, j) && S == Pow(2, i) && S >= 256
      invariant Cong(U * a, 1, S) && 0 <= U <= 2 * S
      decreases k - j
    {
      LiftBounds(i, j, k, S, bits);
      U := Round(U, a, S, cap);
      i, S, j := 2 * i, S * S, j + 1;
    }
    SamePower(i, j, k, bits);
  }

  lemma LowByte(a: int)
    requires a % 2 == 1
    ensures (a % 256) % 2 == 1
  {
    assert a == 256 * (a / 256) + a % 256;
    CongFrom(a, a % 256, 128 * (a / 256), 2);
  }

  lemma PowEight()
    ensures Pow(2, 3) == 8 && Pow(2, 8) == 256
  {}

  lemma LiftBounds(i: nat, j: nat, k: nat, S: int, bits: nat)
    requires i == Pow(2, j) && S == Pow(2, i) && bits == Pow(2, k) && i < bits && S >= 256
    ensures j < k && 2 * i == Pow(2, j + 1) && S * S == Pow(2, 2 * i) && S * S <= Pow(2, bits) && S * S >= 256
  {
    hide Pow;
    if j >= k { PowMono(2, k, j); }
    PowSucc(2, j);
    PowAdd(2, i, i);
    PowMono(2, j + 1, k);
    PowMono(2, 2 * i, bits);
    MulMono(1, S, S);
  }

  lemma SamePower(i: nat, j: nat, k: nat, bits: nat)
    requires i == Pow(2, j) && bits == Pow(2, k) && j <= k && i >= bits
    ensures i == bits
  {
    PowMono(2, j, k);
  }
}
