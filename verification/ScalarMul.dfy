/** Scalar multiplication by signed windows, jointly for two points, and by the ladder, over any abelian group. */
module ScalarMul {
  import opened Arith
  import opened Digits
  import opened Groups

  // ----- recoding --------------------------------------------------------------------------

  /** Number of bits of t. */
  function NBits(t: nat): nat {
    if t == 0 then 0 else 1 + NBits(t / 2)
  }

  lemma {:induction false} NBitsBound(t: nat)
    ensures t < Pow(2, NBits(t))
  {
    if t > 0 {
      NBitsBound(t / 2);
      assert t == 2 * (t / 2) + t % 2;
    }
  }

  lemma {:induction false} NBitsLeast(t: nat, L: nat)
    requires t < Pow(2, L)
    ensures NBits(t) <= L
    decreases L
  {
    if t > 0 {
      assert L > 0;
      NBitsLeast(t / 2, L - 1);
    }
  }

  /** Odd digit of a signed window of size base: |d| < base and d odd. */
  ghost predicate OddDigit(d: int, base: int) {
    -base < d < base && d % 2 == 1
  }

  /**
   * Recodes an odd t into nb signed odd digits of base 16 plus a leftover, which is exactly 1: the weighted digit
   * sum is t.
   */
  method Recode(t0: int, w: array<int>, nb: nat)
    requires t0 >= 1 && t0 % 2 == 1 && nb >= 1 && nb < w.Length && t0 < Pow(16, nb)
    modifies w
    ensures forall i :: 0 <= i < nb ==> OddDigit(w[i], 16)
    ensures w[nb] == 1
    ensures Val(w[..nb + 1], 16) == t0
  {
    hide Val;
    hide Pow;
    var t := t0;
    RecodeStart(t0, nb, 16);
    for i := 0 to nb
      invariant forall k :: 0 <= k < i ==> OddDigit(w[k], 16)
      invariant Recoded(w[..i], t, t0, nb, 16)
    {
      ghost var low := w[..i];
      w[i] := t % 32 - 16;
      RecodeNext(low, t, t0, nb, 16);
      t := (t - w[i]) / 16;
      assert w[..i + 1] == low + [w[i]];
    }
    RecodeEnd(w[..nb], t, t0, nb, 16);
    ghost var low := w[..nb];
    w[nb] := t % 32;
    assert w[..nb + 1] == low + [1];
  }

  /** Both scalars at once, in base 4: digit i of w packs the digits a and b of te and tf as 4a + b. */
  method RecodeJoint(te0: int, tf0: int, w: array<int>, nb: nat) returns (ghost a: seq<int>, ghost b: seq<int>)
    requires te0 >= 1 && te0 % 2 == 1 && te0 < Pow(4, nb) && tf0 >= 1 && tf0 % 2 == 1 && tf0 < Pow(4, nb)
    requires nb >= 1 && nb < w.Length
    modifies w
    ensures |a| == |b| == nb + 1 && a[nb] == b[nb] == 1
    ensures forall i :: 0 <= i < nb ==> OddDigit(a[i], 4) && OddDigit(b[i], 4)
    ensures forall i :: 0 <= i <= nb ==> w[i] == 4 * a[i] + b[i]
    ensures Val(a, 4) == te0 && Val(b, 4) == tf0
  {
    hide Val;
    hide Pow;
    hide Recoded;
    hide OddDigit;
    var te, tf := te0, tf0;
    a, b := [], [];
    RecodeStart(te0, nb, 4);
    RecodeStart(tf0, nb, 4);
    for i := 0 to nb
      invariant |a| == |b| == i
      invariant forall k :: 0 <= k < i ==> OddDigit(a[k], 4) && OddDigit(b[k], 4)
      invariant forall k :: 0 <= k < i ==> w[k] == 4 * a[k] + b[k]
      invariant Recoded(a, te, te0, nb, 4) && Recoded(b, tf, tf0, nb, 4)
    {
      var da := te % 8 - 4;
      RecodeNext(a, te, te0, nb, 4);
      te := (te - da) / 4;
      var db := tf % 8 - 4;
      RecodeNext(b, tf, tf0, nb, 4);
      tf := (tf - db) / 4;
      w[i] := 4 * da + db;
      a, b := a + [da], b + [db];
    }
    RecodeEnd(a, te, te0, nb, 4);
    RecodeEnd(b, tf, tf0, nb, 4);
    w[nb] := 4 * (te % 8) + tf % 8;
    a, b := a + [1], b + [1];
  }

  /** The digits so far and the rest t hold t0; t is odd and shrinks by the base until it is 1. */
  ghost predicate Recoded(digits: seq<int>, t: int, t0: int, nb: nat, base: int) {
    && |digits| <= nb && t >= 1 && t % 2 == 1 && (t == 1 || t < Pow(base, nb - |digits|))
    && Val(digits, base) + t * Pow(base, |digits|) == t0
  }

  lemma RecodeStart(t0: int, nb: nat, base: int)
    requires t0 >= 1 && t0 % 2 == 1 && t0 < Pow(base, nb)
    ensures Recoded([], t0, t0, nb, base)
  {}

  /** The next signed digit: the low five (three) bits less the base; and what is left after subtracting it and shifting. */
  function NextDigit(t: int, base: int): int { if base == 16 then t % 32 - 16 else t % 8 - 4 }
  function NextRest(t: int, base: int): int { if base == 16 then (t - (t % 32 - 16)) / 16 else (t - (t % 8 - 4)) / 4 }

  lemma RecodeNext(digits: seq<int>, t: int, t0: int, nb: nat, base: int)
    requires (base == 16 || base == 4) && Recoded(digits, t, t0, nb, base) && |digits| < nb
    ensures var d := NextDigit(t, base);
      OddDigit(d, base) && Recoded(digits + [d], NextRest(t, base), t0, nb, base)
  {
    hide Val;
    hide Pow;
    hide NextDigit;
    hide NextRest;
    var i, d := |digits|, NextDigit(t, base);
    PowEven(base, nb - i - 1);
    RecodeStep(t, base, Pow(base, nb - i - 1));
    PowSucc(base, nb - i - 1);
    PowSucc(base, i);
    ValSnoc(digits, d, base);
    WeightStep(t, NextRest(t, base), d, base, Pow(base, i));
  }

  lemma RecodeEnd(digits: seq<int>, t: int, t0: int, nb: nat, base: int)
    requires (base == 16 || base == 4) && Recoded(digits, t, t0, nb, base) && |digits| == nb
    ensures t == 1 && Val(digits + [1], base) == t0
  {
    PowSucc(base, 0);
    ValSnoc(digits, 1, base);
  }

  lemma PowEven(base: int, i: nat)
    requires base == 16 || base == 4
    ensures Pow(base, i) >= 1 && (Pow(base, i) == 1 || Pow(base, i) % 2 == 0)
  {
    PowPos(base, i);
    if i > 0 {
      var q := Pow(base, i - 1);
      assert Pow(base, i) == if base == 16 then 2 * (8 * q) else 2 * (2 * q);
    }
  }

  lemma WeightStep(t: int, t': int, d: int, base: int, p: int)
    requires t == base * t' + d
    ensures t * p == d * p + t' * (base * p)
  {
    assert (base * t' + d) * p == t' * (base * p) + d * p;
  }

  /** Subtracting the digit and shifting: the rest stays odd, and shrinks by the base until it is 1. */
  lemma RecodeStep(t: int, base: int, q: int)
    requires (base == 16 || base == 4) && t >= 1 && t % 2 == 1 && (q == 1 || (q > 1 && q % 2 == 0))
    ensures var d := NextDigit(t, base); var t' := NextRest(t, base);
      OddDigit(d, base) && t == base * t' + d && t' >= 1 && t' % 2 == 1 &&
      (t == 1 || t < base * q ==> t' == 1 || t' < q)
  {
    hide NextDigit;
    hide NextRest;
    var u, h := DigitParts(t, base);
    RecodeParts(t, base, q, u, h);
    assert (2 * h + 1) * base == base * (2 * h + 1);
  }

  lemma DigitParts(t: int, base: int) returns (u: int, h: int)
    requires base == 16 || base == 4
    ensures 0 <= u < 2 * base && t == 2 * (base * h) + u && NextDigit(t, base) == u - base && NextRest(t, base) == 2 * h + 1
  {
    if base == 16 {
      u, h := t % 32, t / 32;
      DivModUnique(t - (u - 16), 2 * h + 1, 0, 16);
    } else {
      u, h := t % 8, t / 8;
      DivModUnique(t - (u - 4), 2 * h + 1, 0, 4);
    }
  }

  lemma RecodeParts(t: int, base: int, q: int, u: int, h: int)
    requires (base == 16 || base == 4) && t >= 1 && t % 2 == 1 && (q == 1 || (q > 1 && q % 2 == 0))
    requires t == 2 * (base * h) + u && 0 <= u < 2 * base
    ensures OddDigit(u - base, base) && t - (u - base) == (2 * h + 1) * base && h >= 0
    ensures t == 1 || t < base * q ==> 2 * h + 1 == 1 || 2 * h + 1 < q
  {
    var bh := base * h;
    assert (2 * h + 1) * base == 2 * bh + base;
    SameParity(t, bh, u);
    RestShrinks(t, base, q, u, h, bh);
  }

  lemma SameParity(t: int, x: int, u: int)
    requires t == 2 * x + u && t % 2 == 1
    ensures u % 2 == 1
  {}

  lemma RestShrinks(t: int, base: int, q: int, u: int, h: int, bh: int)
    requires base > 0 && t >= 1 && bh == base * h && t == 2 * bh + u && 0 <= u < 2 * base && (q == 1 || (q > 1 && q % 2 == 0))
    ensures h >= 0 && (t == 1 || t < base * q ==> 2 * h + 1 == 1 || 2 * h + 1 < q)
  {
    if h < 0 { MulMono(h, -1, base); }
    if h >= 1 { MulMono(1, h, base); }
    if 2 * h >= q { MulMono(q, 2 * h, base); }
    assert h * base == bh && 2 * h * base == 2 * bh && q * base == base * q;
  }

  // ----- ECP_select ------------------------------------------------------------------------

  /** X is the table entry for the odd digit d, negated when d is negative. */
  ghost predicate Selected<T(!new)>(g: Group<T>, W: seq<T>, d: int, X: T) {
    && |W| == 8 && OddDigit(d, 16)
    && X == if d > 0 then W[(d - 1) / 2] else g.neg(W[(-d - 1) / 2])
  }

  /** Constant-time table look-up: all eight entries are tried; the sign is applied last. */
  method Select<T(!new)>(g: Group<T>, p: T, W: seq<T>, b: int) returns (q: T)
    requires |W| == 8 && OddDigit(b, 16)
    ensures Selected(g, W, b, q)
  {
    var babs := ((if b < 0 then -b else b) - 1) / 2;
    q := p;
    for j := 0 to 8
      invariant babs < j ==> q == W[babs]
    {
      if babs == j { q := W[j]; }
    }
    var mp := g.neg(q);
    if b < 0 { q := mp; }
  }

  // ----- MCL_ECP_mul -----------------------------------------------------------------------

  /** The odd multiples P, 3P, ..., 15P. */
  method OddTable<T(!new)>(g: Group<T>, P: T) returns (W: seq<T>, Q: T)
    requires Abelian(g)
    ensures |W| == 8 && forall i :: 0 <= i < 8 ==> W[i] == Times(g, 2 * i + 1, P)
    ensures Q == Times(g, 2, P)
  {
    hide Abelian;
    hide Times;
    TimesOne(g, P);
    Q := g.add(P, P);
    TimesAdd(g, 1, 1, P);
    W := [P];
    for i := 1 to 8
      invariant |W| == i && forall k :: 0 <= k < i ==> W[k] == Times(g, 2 * k + 1, P)
    {
      TimesAdd(g, 2 * (i - 1) + 1, 2, P);
      W := W + [g.add(W[i - 1], Q)];
    }
  }

  /**
   * e*P by fixed windows. nlb is the bit capacity of a BIG; the odd-adjusted scalar leaves four bits of it unused,
   * so that the digit array of 1 + (nlb+3)/4 entries is large enough.
   */
  method Multiply<T(!new, ==)>(g: Group<T>, P0: T, e: int, nlb: nat) returns (P: T)
    requires Abelian(g) && nlb >= 4 && 0 <= e && e + 2 < Pow(2, nlb - 4)
    ensures P == Times(g, e, P0)
  {
    hide Abelian;
    hide Times;
    hide Val;
    hide Pow;
    TimesZero(g, e);
    TimesOne(g, P0);
    if P0 == g.zero { return P0; }
    if e == 0 { return g.zero; }
    var W, Q := OddTable(g, P0);
    var t, twice := MakeOdd(e);
    if !twice { Q := P0; }
    var C := Q;
    P := OddMultiple(g, P0, W, t, nlb);
    P := g.add(P, g.neg(C));
    TimesNeg(g, t - e, P0);
    TimesAdd(g, t, -(t - e), P0);
  }

  /** t*P for the odd scalar t, by recoding and evaluating. */
  method OddMultiple<T(!new)>(g: Group<T>, ghost P0: T, W: seq<T>, t: int, nlb: nat) returns (P: T)
    requires Abelian(g) && |W| == 8 && forall i :: 0 <= i < 8 ==> W[i] == Times(g, 2 * i + 1, P0)
    requires nlb >= 4 && t >= 1 && t % 2 == 1 && t < Pow(2, nlb - 4)
    ensures P == Times(g, t, P0)
  {
    hide *;
    TimesOne(g, P0);
    var nb := 1 + (NBits(t) + 3) / 4;
    WindowCount(t, nlb);
    var w := new int[1 + (nlb + 3) / 4];
    Recode(t, w, nb);
    assert w[..nb + 1][nb] == 1;
    P := W[(w[nb] - 1) / 2];
    P := EvaluateWindows(g, P, W, w[..nb + 1], nb, P0);
  }

  lemma WindowCount(t: int, nlb: nat)
    requires t >= 1 && nlb >= 4 && t < Pow(2, nlb - 4)
    ensures var nb := 1 + (NBits(t) + 3) / 4; t < Pow(16, nb) && nb < 1 + (nlb + 3) / 4
  {
    hide Pow;
    var nb := 1 + (NBits(t) + 3) / 4;
    NBitsLeast(t, nlb - 4);
    NBitsBound(t);
    PowMul(2, 4, nb);
    PowSixteen();
    PowMono(2, NBits(t), 4 * nb);
  }

  lemma PowSixteen()
    ensures Pow(2, 4) == 16 && Pow(2, 2) == 4
  {}

  /** Four doublings and one addition per digit, from the top digit down. */
  method EvaluateWindows<T(!new)>(g: Group<T>, P1: T, W: seq<T>, w: seq<int>, nb: nat, ghost P0: T) returns (P: T)
    requires Abelian(g) && |W| == 8 && forall i :: 0 <= i < 8 ==> W[i] == Times(g, 2 * i + 1, P0)
    requires |w| == nb + 1 && w[nb] == 1 && P1 == P0 && forall i :: 0 <= i < nb ==> OddDigit(w[i], 16)
    ensures P == Times(g, Val(w, 16), P0)
  {
    hide Abelian;
    hide Times;
    hide Val;
    P := P1;
    TimesOne(g, P0);
    assert w[nb..] == [1];
    ValSingle(1, 16);
    var i := nb;
    while i > 0
      invariant 0 <= i <= nb && P == Times(g, Val(w[i..], 16), P0)
    {
      i := i - 1;
      ghost var v := Val(w[i + 1..], 16);
      var Q := Select(g, P, W, w[i]);
      assert Q == Times(g, w[i], P0) by { SelectedMultiple(g, W, w[i], P0, Q); }
      P := FourDoublings(g, P, v, P0);
      P := g.add(P, Q);
      TimesAdd(g, 16 * v, w[i], P0);
      assert w[i..] == [w[i]] + w[i + 1..];
      HeadDigit(w[i], w[i + 1..], 16);
    }
    assert w[0..] == w;
  }

  lemma HeadDigit(d: int, t: seq<int>, b: int)
    ensures Val([d] + t, b) == b * Val(t, b) + d
  {
    ValConcat([d], t, b);
    ValSingle(d, b);
    assert Pow(b, 1) == b * Pow(b, 0);
  }

  lemma SelectedMultiple<T(!new)>(g: Group<T>, W: seq<T>, d: int, P0: T, Q: T)
    requires Abelian(g) && |W| == 8 && forall i :: 0 <= i < 8 ==> W[i] == Times(g, 2 * i + 1, P0)
    requires Selected(g, W, d, Q)
    ensures Q == Times(g, d, P0)
  {
    hide Abelian;
    hide Times;
    if d < 0 {
      assert 2 * ((-d - 1) / 2) + 1 == -d;
      TimesNeg(g, -d, P0);
    } else {
      assert 2 * ((d - 1) / 2) + 1 == d;
    }
  }

  method FourDoublings<T(!new)>(g: Group<T>, P: T, ghost v: int, ghost P0: T) returns (R: T)
    requires Abelian(g) && P == Times(g, v, P0)
    ensures R == Times(g, 16 * v, P0)
  {
    hide Abelian;
    hide Times;
    R := g.add(P, P);
    TimesAdd(g, v, v, P0);
    R := g.add(R, R);
    TimesAdd(g, 2 * v, 2 * v, P0);
    R := g.add(R, R);
    TimesAdd(g, 4 * v, 4 * v, P0);
    R := g.add(R, R);
    TimesAdd(g, 8 * v, 8 * v, P0);
  }

  // ----- MCL_ECP_pinmul --------------------------------------------------------------------

  /** The ladder over bts bits: R1 is always one P ahead of R0. It gives the multiple the window form gives. */
  method Ladder<T(!new)>(g: Group<T>, P0: T, e: int, bts: nat) returns (P: T)
    requires Abelian(g) && 0 <= e < Pow(2, bts)
    ensures P == Times(g, e, P0)
  {
    hide Abelian;
    hide Times;
    hide Pow;
    var R0, R1 := g.zero, P0;
    TimesOne(g, P0);
    var i := bts;
    P := P0;
    ghost var h := 0;
    SmallMod(e, Pow(2, bts));
    while i > 0
      invariant 0 <= i <= bts && Pow(2, i) > 0 && h == e / Pow(2, i)
      invariant R0 == Times(g, h, P0) && R1 == Times(g, h + 1, P0)
    {
      i := i - 1;
      HalveQuotient(e, i);
      var b := (e / Pow(2, i)) % 2;
      P := g.add(R1, R0);
      TimesAdd(g, h + 1, h, P0);
      if b == 1 { R0, R1 := R1, R0; }
      R1 := P;
      R0 := g.add(R0, R0);
      TimesAdd(g, h + b, h + b, P0);
      if b == 1 { R0, R1 := R1, R0; }
      h := 2 * h + b;
    }
    P := R0;
    PowSucc(2, 0);
  }

  // ----- MCL_ECP_mul2 ----------------------------------------------------------------------

  /** The table of a*P + b*Q for a in {1, 3}, b in {-3, -1, 1, 3}, at index (4a + b - 1)/2. */
  ghost predicate JointTable<T(!new)>(g: Group<T>, W: seq<T>, P: T, Q: T) {
    && |W| == 8
    && W[0] == Comb(g, 1, P, -3, Q) && W[1] == Comb(g, 1, P, -1, Q)
    && W[2] == Comb(g, 1, P, 1, Q) && W[3] == Comb(g, 1, P, 3, Q)
    && W[4] == Comb(g, 3, P, -3, Q) && W[5] == Comb(g, 3, P, -1, Q)
    && W[6] == Comb(g, 3, P, 1, Q) && W[7] == Comb(g, 3, P, 3, Q)
  }

  method BuildJointTable<T(!new)>(g: Group<T>, P: T, Q: T) returns (W: seq<T>, S: T, D: T)
    requires Abelian(g)
    ensures JointTable(g, W, P, Q) && S == Comb(g, 0, P, 2, Q) && D == Comb(g, 2, P, 0, Q)
  {
    hide Abelian;
    hide Comb;
    CombOne(g, P, Q);
    var w1 := g.add(P, g.neg(Q));
    CombSub(g, 1, 0, P, 0, 1, Q);
    var w2 := g.add(P, Q);
    CombAdd(g, 1, 0, P, 0, 1, Q);
    S := g.add(Q, Q);
    CombAdd(g, 0, 0, P, 1, 1, Q);
    var w0 := g.add(w1, g.neg(S));
    CombSub(g, 1, 0, P, -1, 2, Q);
    var w3 := g.add(w2, S);
    CombAdd(g, 1, 0, P, 1, 2, Q);
    D := g.add(P, P);
    CombAdd(g, 1, 1, P, 0, 0, Q);
    var w5 := g.add(w1, D);
    CombAdd(g, 1, 2, P, -1, 0, Q);
    var w6 := g.add(w2, D);
    CombAdd(g, 1, 2, P, 1, 0, Q);
    var w4 := g.add(w5, g.neg(S));
    CombSub(g, 3, 0, P, -1, 2, Q);
    var w7 := g.add(w6, S);
    CombAdd(g, 3, 0, P, 1, 2, Q);
    W := [w0, w1, w2, w3, w4, w5, w6, w7];
  }

  /** A joint digit 4a + b selects a*P + b*Q. */
  lemma JointSelected<T(!new)>(g: Group<T>, W: seq<T>, P: T, Q: T, a: int, b: int, X: T)
    requires Abelian(g) && JointTable(g, W, P, Q) && OddDigit(a, 4) && OddDigit(b, 4)
    requires Selected(g, W, 4 * a + b, X)
    ensures X == Comb(g, a, P, b, Q)
  {
    hide Abelian;
    hide Comb;
    hide JointTable;
    if a > 0 {
      JointEntry(g, W, P, Q, a, b);
    } else {
      JointEntry(g, W, P, Q, -a, -b);
      assert 4 * (-a) + (-b) == -(4 * a + b);
      CombNeg(g, -a, P, -b, Q);
    }
  }

  lemma JointEntry<T(!new)>(g: Group<T>, W: seq<T>, P: T, Q: T, a: int, b: int)
    requires JointTable(g, W, P, Q) && OddDigit(a, 4) && OddDigit(b, 4) && a > 0
    ensures |W| == 8 && 0 < 4 * a + b < 16 && W[(4 * a + b - 1) / 2] == Comb(g, a, P, b, Q)
  {
    hide Comb;
    assert a == 1 || a == 3;
    assert b == -3 || b == -1 || b == 1 || b == 3;
  }

  /** e*P + f*Q by joint two-bit windows. */
  method Multiply2<T(!new)>(g: Group<T>, P0: T, Q0: T, e: int, f: int, nlb: nat) returns (P: T)
    requires Abelian(g) && nlb >= 4 && 0 <= e && 0 <= f && e + 2 < Pow(2, nlb - 4) && f + 2 < Pow(2, nlb - 4)
    ensures P == Comb(g, e, P0, f, Q0)
  {
    hide *;
    CombOne(g, P0, Q0);
    var W, S, T2 := BuildJointTable(g, P0, Q0);
    var te, twiceE := MakeOdd(e);
    if !twiceE { T2 := P0; }
    var tf, twiceF := MakeOdd(f);
    if !twiceF { S := Q0; }
    var C := g.add(T2, S);
    CombAdd(g, te - e, 0, P0, 0, tf - f, Q0);
    P := OddCombination(g, W, te, tf, nlb, P0, Q0);
    P := g.add(P, g.neg(C));
    CombSub(g, te, te - e, P0, tf, tf - f, Q0);
  }

  /** te*P + tf*Q for odd scalars, by joint recoding and evaluation. */
  method OddCombination<T(!new)>(g: Group<T>, W: seq<T>, te: int, tf: int, nlb: nat, ghost P0: T, ghost Q0: T) returns (P: T)
    requires Abelian(g) && JointTable(g, W, P0, Q0) && nlb >= 4
    requires te >= 1 && te % 2 == 1 && tf >= 1 && tf % 2 == 1 && te < Pow(2, nlb - 4) && tf < Pow(2, nlb - 4)
    ensures P == Comb(g, te, P0, tf, Q0)
  {
    hide *;
    var nb := 1 + (NBits(te + tf) + 1) / 2;
    JointCount(te, tf, nlb);
    var w := new int[1 + (nlb + 1) / 2];
    ghost var a, b := RecodeJoint(te, tf, w, nb);
    P := EvaluateJoint(g, W, w[..], a, b, nb, P0, Q0);
  }

  /** The scalar made odd, by two if it was odd and by one if it was even. */
  method MakeOdd(e: int) returns (t: int, twice: bool)
    ensures t % 2 == 1 && t == if twice then e + 2 else e + 1
    ensures twice <==> e % 2 == 1
  {
    twice := e % 2 == 1;
    t := if twice then e + 2 else e + 1;
  }

  lemma JointCount(te: int, tf: int, nlb: nat)
    requires te >= 1 && tf >= 1 && nlb >= 4 && te < Pow(2, nlb - 4) && tf < Pow(2, nlb - 4)
    ensures var nb := 1 + (NBits(te + tf) + 1) / 2;
      te < Pow(4, nb) && tf < Pow(4, nb) && nb < 1 + (nlb + 1) / 2
  {
    hide Pow;
    var nb := 1 + (NBits(te + tf) + 1) / 2;
    PowSucc(2, nlb - 4);
    NBitsLeast(te + tf, nlb - 3);
    NBitsBound(te + tf);
    PowMul(2, 2, nb);
    PowSixteen();
    PowMono(2, NBits(te + tf), 2 * nb);
  }

  /** Two doublings and one addition per joint digit. */
  method EvaluateJoint<T(!new)>(g: Group<T>, W: seq<T>, w: seq<int>, ghost a: seq<int>, ghost b: seq<int>, nb: nat,
                                ghost P0: T, ghost Q0: T) returns (P: T)
    requires Abelian(g) && JointTable(g, W, P0, Q0) && |a| == |b| == nb + 1 && a[nb] == b[nb] == 1
    requires |w| > nb && forall i :: 0 <= i <= nb ==> w[i] == 4 * a[i] + b[i]
    requires forall i :: 0 <= i < nb ==> OddDigit(a[i], 4) && OddDigit(b[i], 4)
    ensures P == Comb(g, Val(a, 4), P0, Val(b, 4), Q0)
  {
    hide Abelian;
    hide Comb;
    hide Val;
    hide JointTable;
    TableSize(g, W, P0, Q0);
    P := W[(w[nb] - 1) / 2];
    assert a[nb..] == [1] && b[nb..] == [1];
    ValSingle(1, 4);
    var i := nb;
    while i > 0
      invariant 0 <= i <= nb && P == Comb(g, Val(a[i..], 4), P0, Val(b[i..], 4), Q0)
    {
      i := i - 1;
      ghost var u, v := Val(a[i + 1..], 4), Val(b[i + 1..], 4);
      P := JointRound(g, P, W, w[i], a[i], b[i], u, v, P0, Q0);
      assert a[i..] == [a[i]] + a[i + 1..] && b[i..] == [b[i]] + b[i + 1..];
      HeadDigit(a[i], a[i + 1..], 4);
      HeadDigit(b[i], b[i + 1..], 4);
    }
    assert a[0..] == a && b[0..] == b;
  }

  method JointRound<T(!new)>(g: Group<T>, P1: T, W: seq<T>, d: int, ghost a: int, ghost b: int, ghost u: int, ghost v: int,
                             ghost P0: T, ghost Q0: T) returns (P: T)
    requires Abelian(g) && JointTable(g, W, P0, Q0) && OddDigit(a, 4) && OddDigit(b, 4) && d == 4 * a + b
    requires P1 == Comb(g, u, P0, v, Q0)
    ensures P == Comb(g, 4 * u + a, P0, 4 * v + b, Q0)
  {
    hide Abelian;
    hide Comb;
    hide JointTable;
    hide Selected;
    TableSize(g, W, P0, Q0);
    JointDigit(a, b);
    var X := Select(g, P1, W, d);
    JointSelected(g, W, P0, Q0, a, b, X);
    P := g.add(P1, P1);
    CombAdd(g, u, u, P0, v, v, Q0);
    P := g.add(P, P);
    CombAdd(g, 2 * u, 2 * u, P0, 2 * v, 2 * v, Q0);
    P := g.add(P, X);
    CombAdd(g, 4 * u, a, P0, 4 * v, b, Q0);
  }

  lemma TableSize<T(!new)>(g: Group<T>, W: seq<T>, P: T, Q: T)
    requires JointTable(g, W, P, Q)
    ensures |W| == 8 && W[2] == Comb(g, 1, P, 1, Q)
  {}

  lemma JointDigit(a: int, b: int)
    requires OddDigit(a, 4) && OddDigit(b, 4)
    ensures OddDigit(4 * a + b, 16)
  {}
}
