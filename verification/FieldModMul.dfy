/** Modular multiplication on the digits themselves, in the shared memory: full reduction, Karatsuba, Montgomery reduction. */
module FieldModMul {
  import opened Arith
  import opened Digits
  import opened FieldDigits
  import opened Karatsuba
  import opened Montgomery
  import opened MontgomeryDomain
  import opened RsaArithmetic

  /** Digits in range but for the top one, which is only not negative. */
  ghost predicate Settled(m: seq<int>, p: nat, n: nat, W: int)
    requires p + n <= |m| && n >= 1
  {
    NormAt(m, p, n - 1, W) && m[p + n - 1] >= 0
  }

  // ----- shifts ---------------------------------------------------------------------------------

  /** MCL_FF_shl: every digit doubled, the bit that leaves it entering the next; the top digit keeps what it gets. */
  method DigitShl(m: array<int>, p: nat, n: nat, W: int)
    requires W >= 2 && W % 2 == 0 && n >= 1 && p + n <= m.Length && Settled(m[..], p, n, W)
    modifies m
    ensures SameBut(old(m[..]), m[..], p, n) && Settled(m[..], p, n, W)
    ensures Num(m[..], p, n, W) == 2 * old(Num(m[..], p, n, W))
  {
    hide Num;
    hide Val;
    hide Pow;
    hide RowSum;
    ghost var m0 := m[..];
    ghost var s := m0[p..p + n];
    ghost var z := seq(n, _ => 0);
    var delay := 0;
    assert m[p..p + 0] == [];
    RowSumEmpty(m[p..p + 0], z[..0], 2, s[..0], W);
    for i := 0 to n - 1
      invariant SameBut(m0, m[..], p, n) && 0 <= delay <= 1
      invariant NormAt(m[..], p, i, W) && forall k :: p + i <= k < p + n ==> m[k] == m0[k]
      invariant RowSum(m[p..p + i], delay, z[..i], 2, s[..i], W)
    {
      ghost var low := m[p..p + i];
      var x := m[p + i];
      assert x == s[i] && 0 <= x < W;
      DoubledDigit(x, delay, W);
      RowSumStep(low, delay, z[..i], 2, s[..i], s[i], 0, 2 * x % W + delay, 2 * x / W, W);
      m[p + i] := 2 * x % W + delay;
      delay := 2 * x / W;
      assert m[p..p + i + 1] == low + [m[p + i]] && s[..i + 1] == s[..i] + [s[i]] && z[..i + 1] == z[..i] + [0];
    }
    ghost var low := m[p..p + n - 1];
    var x := m[p + n - 1];
    m[p + n - 1] := 2 * x + delay;
    assert m[p..p + n] == low + [2 * x + delay];
    LastDoubled(low, delay, z, s, x, W);
    NumIs(m[..], p, n, W);
    NumIs(m0, p, n, W);
  }

  lemma NumIs(m: seq<int>, p: nat, n: nat, W: int)
    requires p + n <= |m|
    ensures Num(m, p, n, W) == Val(m[p..p + n], W)
  {}

  lemma DoubledDigit(x: int, delay: int, W: int)
    requires W >= 2 && W % 2 == 0 && 0 <= x < W && 0 <= delay <= 1
    ensures 0 <= 2 * x / W <= 1 && 0 <= 2 * x % W + delay < W && 2 * x + delay == 2 * x / W * W + (2 * x % W + delay)
  {
    var q := if 2 * x < W then 0 else 1;
    DivModUnique(2 * x, q, 2 * x - q * W, W);
  }

  lemma LastDoubled(low: seq<int>, c: int, z: seq<int>, s: seq<int>, x: int, W: int)
    requires |s| == |z| == |low| + 1 && s[|low|] == x && (forall i :: 0 <= i < |z| ==> z[i] == 0)
    requires RowSum(low, c, z[..|low|], 2, s[..|low|], W)
    ensures Val(low + [2 * x + c], W) == 2 * Val(s, W)
  {
    hide Val;
    hide Pow;
    var n := |low|;
    ValZero(z[..n], W);
    ValSnoc(low, 2 * x + c, W);
    assert s == s[..n] + [x];
    ValSnoc(s[..n], x, W);
    TopDoubled(Val(low, W), c, Val(s[..n], W), x, Pow(W, n));
  }

  lemma TopDoubled(v: int, c: int, w: int, x: int, p: int)
    requires v + c * p == 2 * w
    ensures v + (2 * x + c) * p == 2 * (w + x * p)
  {
    assert (2 * x + c) * p == 2 * (x * p) + c * p;
  }

  /** MCL_FF_shr: from the top down, the bit that leaves a digit entering the one below. */
  method DigitShr(m: array<int>, p: nat, n: nat, W: int)
    requires W >= 2 && W % 2 == 0 && n >= 1 && p + n <= m.Length && Settled(m[..], p, n, W)
    modifies m
    ensures SameBut(old(m[..]), m[..], p, n) && Settled(m[..], p, n, W)
    ensures Num(m[..], p, n, W) == old(Num(m[..], p, n, W)) / 2
  {
    hide Num;
    hide Val;
    hide Pow;
    ghost var m0 := m[..];
    ghost var s := m0[p..p + n];
    var carry := 0;
    var i := n;
    assert m[p + n..p + n] == [] && s[n..] == [];
    ValEmpty(W);
    while i > 0
      invariant 0 <= i <= n && 0 <= carry <= 1 && SameBut(m0, m[..], p, n)
      invariant forall k :: p <= k < p + i ==> m[k] == m0[k]
      invariant forall k :: p + i <= k < p + n - 1 ==> 0 <= m[k] < W
      invariant i < n ==> m[p + n - 1] >= 0
      invariant i == n ==> carry == 0
      invariant 2 * Val(m[p + i..p + n], W) + carry == Val(s[i..], W)
    {
      i := i - 1;
      ghost var high := m[p + i + 1..p + n];
      var x := m[p + i] + carry * W;
      assert m[p + i] == s[i];
      HalvedDigit(s[i], carry, W, i < n - 1);
      m[p + i] := x / 2;
      assert m[p + i..p + n] == [x / 2] + high && s[i..] == [s[i]] + s[i + 1..];
      HeadOf(x / 2, high, W);
      HeadOf(s[i], s[i + 1..], W);
      HalvedHead(Val(high, W), carry, Val(s[i + 1..], W), s[i], x / 2, x % 2, W);
      carry := x % 2;
    }
    assert s[0..] == s && p + 0 == p;
    NumIs(m[..], p, n, W);
    NumIs(m0, p, n, W);
    DivModUnique(Val(s, W), Val(m[p..p + n], W), carry, 2);
  }

  lemma HalvedDigit(x: int, c: int, W: int, below: bool)
    requires W >= 2 && x >= 0 && 0 <= c <= 1 && (below ==> x < W)
    ensures x + c * W >= 0 && 0 <= (x + c * W) / 2 && (below ==> (x + c * W) / 2 < W)
  {
    if c == 1 { assert c * W == W; } else { assert c * W == 0; }
  }

  lemma HeadOf(d: int, t: seq<int>, W: int)
    ensures Val([d] + t, W) == d + W * Val(t, W)
  {
    ValConcat([d], t, W);
    ValSingle(d, W);
    PowOne(W);
  }

  lemma HalvedHead(v: int, c: int, w: int, x: int, h: int, r: int, W: int)
    requires 2 * v + c == w && x + c * W == 2 * h + r
    ensures 2 * (h + W * v) + r == x + W * w
  {
    assert W * (2 * v + c) == 2 * (W * v) + c * W;
  }

  // ----- comparison ---------------------------------------------------------------------------------

  /** MCL_FF_comp: from the top digit down. */
  method DigitComp(m: array<int>, a: nat, b: nat, n: nat, W: int) returns (r: int)
    requires W >= 1 && n >= 1 && a + n <= m.Length && b + n <= m.Length && Settled(m[..], a, n, W) && Settled(m[..], b, n, W)
    ensures r == -1 || r == 0 || r == 1
    ensures r == -1 <==> Num(m[..], a, n, W) < Num(m[..], b, n, W)
    ensures r == 1 <==> Num(m[..], a, n, W) > Num(m[..], b, n, W)
  {
    hide Num;
    hide Val;
    hide Pow;
    ghost var s := m[..];
    var i := n;
    assert s[a + n..a + n] == s[b + n..b + n];
    while i > 0
      invariant 0 <= i <= n && s[a + i..a + n] == s[b + i..b + n]
    {
      i := i - 1;
      if m[a + i] > m[b + i] {
        Decided(s, b, a, i, n, W);
        return 1;
      }
      if m[a + i] < m[b + i] {
        Decided(s, a, b, i, n, W);
        return -1;
      }
      assert s[a + i..a + n] == [s[a + i]] + s[a + i + 1..a + n] && s[b + i..b + n] == [s[b + i]] + s[b + i + 1..b + n];
    }
    NumIs(s, a, n, W);
    NumIs(s, b, n, W);
    return 0;
  }

  /** The first digit in which they differ decides. */
  lemma Decided(s: seq<int>, a: nat, b: nat, i: nat, n: nat, W: int)
    requires W >= 1 && i < n && a + n <= |s| && b + n <= |s| && Settled(s, a, n, W) && Settled(s, b, n, W)
    requires s[a + i + 1..a + n] == s[b + i + 1..b + n] && s[a + i] < s[b + i]
    ensures Num(s, a, n, W) < Num(s, b, n, W)
  {
    hide Num;
    hide Val;
    hide Pow;
    NumSplit(s, a, i, n, W);
    NumSplit(s, b, i, n, W);
    NumIs(s, a, i, W);
    NumIs(s, b, i, W);
    ValBound(s[a..a + i], W);
    ValBound(s[b..b + i], W);
    var t := s[a + i + 1..a + n];
    NumIs(s, a + i, n - i, W);
    NumIs(s, b + i, n - i, W);
    assert s[a + i..a + i + (n - i)] == [s[a + i]] + t && s[b + i..b + i + (n - i)] == [s[b + i]] + t;
    HeadOf(s[a + i], t, W);
    HeadOf(s[b + i], t, W);
    var p := Pow(W, i);
    MulMono(s[a + i] + W * Val(t, W) + 1, s[b + i] + W * Val(t, W), p);
    OneMore(s[a + i] + W * Val(t, W), p);
    assert p * (s[b + i] + W * Val(t, W)) == (s[b + i] + W * Val(t, W)) * p;
  }

  lemma OneMore(x: int, p: int)
    ensures (x + 1) * p == p * x + p
  {}

  // ----- MCL_FF_mod ---------------------------------------------------------------------------------

  /** A number that is not negative, normalised below its top digit, has a top digit that is not negative. */
  lemma TopNotNegative(m: seq<int>, p: nat, n: nat, W: int)
    requires W >= 1 && n >= 1 && p + n <= |m| && NormAt(m, p, n - 1, W) && Num(m, p, n, W) >= 0
    ensures Settled(m, p, n, W)
  {
    hide Num;
    hide Val;
    hide Pow;
    var q := Pow(W, n - 1);
    NumSplit(m, p, n - 1, n, W);
    NumIs(m, p, n - 1, W);
    ValBound(m[p..p + n - 1], W);
    NumIs(m, p + n - 1, 1, W);
    assert m[p + n - 1..p + n] == [m[p + n - 1]];
    ValSingle(m[p + n - 1], W);
    var x := m[p + n - 1];
    assert q * x == x * q;
    if x < 0 { MulMono(x, -1, q); }
  }

  /** Equal numbers, one normalised and the other settled, have equal digits. */
  lemma SameDigits(m: seq<int>, m': seq<int>, p: nat, n: nat, W: int)
    requires W >= 2 && n >= 1 && |m| == |m'| && p + n <= |m| && NormAt(m, p, n, W) && Settled(m', p, n, W)
    requires Num(m, p, n, W) == Num(m', p, n, W)
    ensures m[p..p + n] == m'[p..p + n]
  {
    hide Num;
    hide Val;
    hide Pow;
    NumIs(m, p, n, W);
    NumIs(m', p, n, W);
    var s, t := m[p..p + n], m'[p..p + n];
    ValBound(s, W);
    assert t == t[..n - 1] + [t[n - 1]];
    ValSnoc(t[..n - 1], t[n - 1], W);
    ValBound(t[..n - 1], W);
    PowSucc(W, n - 1);
    PowPos(W, n - 1);
    if t[n - 1] >= W { MulMono(W, t[n - 1], Pow(W, n - 1)); }
    ValInjective(s, t, W);
  }

  /** Subtracting at the same time as keeping the residue. */
  lemma ResidueKept(v: int, w: int, a: int, c: int, e: int)
    requires c > 0 && Cong(v, a, c) && w == c * e
    ensures Cong(v - w, a, c)
  {
    hide Cong;
    assert v - w == v + (-e) * c by { assert (-e) * c == -(c * e); }
    CongFrom(v - w, v, -e, c);
    CongTrans(v - w, v, a, c);
  }

  /** MCL_FF_mod: b becomes b mod c; c is shifted up and down again and ends with the digits it had. */
  method FfMod(m: array<int>, b: nat, c: nat, n: nat, W: int)
    requires W >= 2 && W % 2 == 0 && n >= 1 && b + n <= m.Length && c + n <= m.Length && Apart(b, n, c, n)
    requires NormAt(m[..], c, n, W) && Num(m[..], c, n, W) > 0 && Num(m[..], b, n, W) >= 0
    modifies m
    ensures SameBut(old(m[..]), m[..], b, n) && Settled(m[..], b, n, W)
    ensures Num(m[..], b, n, W) == old(Num(m[..], b, n, W)) % old(Num(m[..], c, n, W))
  {
    hide Num;
    hide Pow;
    hide Cong;
    ghost var m0 := m[..];
    ghost var b0, c0 := Num(m0, b, n, W), Num(m0, c, n, W);
    Normalise(m, b, n, W);
    TopNotNegative(m[..], b, n, W);
    NumKept(m0, m[..], b, n, c, n, W);
    SettledKept(m0, m[..], b, n, c, n, W);
    CongFrom(b0, b0, 0, c0);
    var cmp := DigitComp(m, b, c, n, W);
    if cmp < 0 {
      SmallMod(b0, c0);
      return;
    }
    var k := ShiftUp(m, b, c, n, W, b0, c0);
    k := ShiftDown(m, b, c, n, W, k, b0, c0);
    CongUniqueMod(Num(m[..], b, n, W), b0, c0);
    SameDigits(m0, m[..], c, n, W);
    Restored(m0, m[..], b, c, n);
  }

  lemma CongUniqueMod(v: int, a: int, c: int)
    requires c > 0 && Cong(v, a, c) && 0 <= v < c
    ensures v == a % c
  {
    SmallMod(v, c);
  }

  lemma SettledKept(m: seq<int>, m': seq<int>, p: nat, k: nat, q: nat, n: nat, W: int)
    requires SameBut(m, m', p, k) && Apart(p, k, q, n) && n >= 1 && q + n <= |m| && NormAt(m, q, n, W)
    ensures Settled(m', q, n, W)
  {}

  lemma SettledStays(m: seq<int>, m': seq<int>, p: nat, k: nat, q: nat, n: nat, W: int)
    requires SameBut(m, m', p, k) && Apart(p, k, q, n) && n >= 1 && q + n <= |m| && Settled(m, q, n, W)
    ensures Settled(m', q, n, W)
  {}

  lemma Restored(m: seq<int>, m': seq<int>, b: nat, c: nat, n: nat)
    requires SameBut2(m, m', b, n, c, n) && c + n <= |m| && m[c..c + n] == m'[c..c + n]
    ensures SameBut(m, m', b, n)
  {
    forall i | c <= i < c + n ensures m[i] == m'[i] { assert m[c..c + n][i - c] == m'[c..c + n][i - c]; }
  }

  /** The do-while: c doubled until it is above b. */
  method ShiftUp(m: array<int>, b: nat, c: nat, n: nat, W: int, ghost b0: int, ghost c0: int) returns (k: nat)
    requires W >= 2 && W % 2 == 0 && n >= 1 && b + n <= m.Length && c + n <= m.Length && Apart(b, n, c, n)
    requires Settled(m[..], b, n, W) && Settled(m[..], c, n, W) && c0 > 0 && Num(m[..], b, n, W) == b0 && Num(m[..], c, n, W) == c0
    modifies m
    ensures SameBut(old(m[..]), m[..], c, n) && Settled(m[..], b, n, W) && Settled(m[..], c, n, W)
    ensures Num(m[..], b, n, W) == b0 && Num(m[..], c, n, W) == c0 * Pow(2, k) && b0 < c0 * Pow(2, k)
  {
    hide Num;
    hide Pow;
    hide Settled;
    ghost var m0 := m[..];
    k := 0;
    ZeroShifts(c0);
    var cmp := 1;
    while cmp >= 0
      invariant SameBut(m0, m[..], c, n) && Settled(m[..], b, n, W) && Settled(m[..], c, n, W)
      invariant Num(m[..], b, n, W) == b0 && Num(m[..], c, n, W) == c0 * Pow(2, k) && c0 * Pow(2, k) > 0
      invariant cmp >= -1 && (cmp < 0 ==> b0 < c0 * Pow(2, k))
      invariant cmp >= 0 && k > 0 ==> b0 >= c0 * Pow(2, k)
      decreases if k == 0 then 1 else 0, if cmp >= 0 then (if b0 >= c0 * Pow(2, k) then b0 - c0 * Pow(2, k) + 1 else 1) else 0
    {
      ghost var m1 := m[..];
      DigitShl(m, c, n, W);
      NumKept(m1, m[..], c, n, b, n, W);
      SettledStays(m1, m[..], c, n, b, n, W);
      ApartSym(b, n, c, n);
      OneShiftMore(c0, k);
      k := k + 1;
      cmp := DigitComp(m, b, c, n, W);
    }
  }

  lemma ApartSym(p: nat, n: nat, q: nat, k: nat)
    requires Apart(p, n, q, k)
    ensures Apart(q, k, p, n)
  {}

  lemma ZeroShifts(c: int)
    ensures c * Pow(2, 0) == c
  {}

  lemma OneShiftMore(c: int, k: nat)
    requires c > 0
    ensures 2 * (c * Pow(2, k)) == c * Pow(2, k + 1) && c * Pow(2, k) > 0 && c * Pow(2, k + 1) > c * Pow(2, k)
  {
    PowPos(2, k);
    PowSucc(2, k);
    MulMono(1, c, Pow(2, k));
    assert c * (2 * Pow(2, k)) == 2 * (c * Pow(2, k));
  }

  /** And back: c halved k times, b reduced on the way. */
  method ShiftDown(m: array<int>, b: nat, c: nat, n: nat, W: int, k0: nat, ghost b0: int, ghost c0: int) returns (k: nat)
    requires W >= 2 && W % 2 == 0 && n >= 1 && b + n <= m.Length && c + n <= m.Length && Apart(b, n, c, n)
    requires Settled(m[..], b, n, W) && Settled(m[..], c, n, W) && c0 > 0
    requires Num(m[..], c, n, W) == c0 * Pow(2, k0) && 0 <= Num(m[..], b, n, W) < c0 * Pow(2, k0) && Cong(Num(m[..], b, n, W), b0, c0)
    modifies m
    ensures SameBut2(old(m[..]), m[..], b, n, c, n) && Settled(m[..], b, n, W) && Settled(m[..], c, n, W)
    ensures Num(m[..], c, n, W) == c0 && 0 <= Num(m[..], b, n, W) < c0 && Cong(Num(m[..], b, n, W), b0, c0)
  {
    hide Num;
    hide Pow;
    hide Settled;
    hide Cong;
    ghost var m0 := m[..];
    k := k0;
    while k > 0
      invariant SameBut2(m0, m[..], b, n, c, n) && Settled(m[..], b, n, W) && Settled(m[..], c, n, W)
      invariant Num(m[..], c, n, W) == c0 * Pow(2, k) && 0 <= Num(m[..], b, n, W) < c0 * Pow(2, k)
      invariant Cong(Num(m[..], b, n, W), b0, c0)
    {
      OneShiftMore(c0, k - 1);
      ResidueKept(Num(m[..], b, n, W), c0 * Pow(2, k - 1), b0, c0, Pow(2, k - 1));
      StepDown(m, b, c, n, W, c0 * Pow(2, k - 1));
      k := k - 1;
    }
    ZeroShifts(c0);
  }

  /** One step down: c halved, and taken from b if it goes. */
  method StepDown(m: array<int>, b: nat, c: nat, n: nat, W: int, ghost h: int)
    requires W >= 2 && W % 2 == 0 && n >= 1 && b + n <= m.Length && c + n <= m.Length && Apart(b, n, c, n)
    requires Settled(m[..], b, n, W) && Settled(m[..], c, n, W)
    requires h >= 0 && Num(m[..], c, n, W) == 2 * h && Num(m[..], b, n, W) >= 0
    modifies m
    ensures SameBut2(old(m[..]), m[..], b, n, c, n) && Settled(m[..], b, n, W) && Settled(m[..], c, n, W)
    ensures Num(m[..], c, n, W) == h
    ensures Num(m[..], b, n, W) == if old(Num(m[..], b, n, W)) >= h then old(Num(m[..], b, n, W)) - h else old(Num(m[..], b, n, W))
  {
    hide Num;
    hide Pow;
    hide Settled;
    ghost var m0 := m[..];
    ApartSym(b, n, c, n);
    DigitShr(m, c, n, W);
    ghost var m1 := m[..];
    NumKept(m0, m1, c, n, b, n, W);
    SettledStays(m0, m1, c, n, b, n, W);
    var cmp := DigitComp(m, b, c, n, W);
    if cmp >= 0 {
      Sub(m, b, b, c, n, W);
      ghost var m2 := m[..];
      Normalise(m, b, n, W);
      SameButTwice(m1, m2, m[..], b, n);
      TopNotNegative(m[..], b, n, W);
      NumKept(m1, m[..], b, n, c, n, W);
      SettledStays(m1, m[..], b, n, c, n, W);
    }
    BothChanged(m0, m1, m[..], b, c, n);
  }

  lemma SameButTwice(m: seq<int>, m1: seq<int>, m2: seq<int>, p: nat, n: nat)
    requires SameBut(m, m1, p, n) && SameBut(m1, m2, p, n)
    ensures SameBut(m, m2, p, n)
  {}

  lemma BothChanged(m: seq<int>, m1: seq<int>, m2: seq<int>, b: nat, c: nat, n: nat)
    requires SameBut(m, m1, c, n) && SameBut(m1, m2, b, n)
    ensures SameBut2(m, m2, b, n, c, n)
  {}

  // ----- MCL_FF_modmul and MCL_FF_modsqr ---------------------------------------------------------------

  /** The operand x, besides the regions of the reduction. */
  ghost predicate Operand(len: nat, x: nat, d: nat, p: nat, nd: nat, t: nat, q: nat, n: nat) {
    x + n <= len && Apart(x, n, d, 2 * n) && Apart(x, n, t, 2 * n) && Apart(x, n, p, n) && Apart(x, n, nd, n) && Apart(x, n, q, n)
  }

  /** p is an odd modulus with normalised digits, and nd holds its inverse modulo R. */
  ghost predicate ModulusAt(m: seq<int>, p: nat, nd: nat, n: nat, W: int)
    requires p + n <= |m| && nd + n <= |m| && n >= 1
  {
    NormAt(m, p, n, W) && Num(m, p, n, W) > 0 && Pow(W, n) > 0 && Cong(Num(m, p, n, W) * Num(m, nd, n, W), 1, Pow(W, n))
  }

  lemma ModulusKept(m: seq<int>, m': seq<int>, a: nat, i: nat, b: nat, j: nat, p: nat, nd: nat, n: nat, W: int)
    requires SameBut2(m, m', a, i, b, j) && n >= 1 && p + n <= |m| && nd + n <= |m| && ModulusAt(m, p, nd, n, W)
    requires Apart(a, i, p, n) && Apart(b, j, p, n) && Apart(a, i, nd, n) && Apart(b, j, nd, n)
    ensures ModulusAt(m', p, nd, n, W) && Num(m', p, n, W) == Num(m, p, n, W) && Num(m', nd, n, W) == Num(m, nd, n, W)
  {
    hide Num;
    hide Cong;
    NumKept2(m, m', a, i, b, j, p, n, W);
    NumKept2(m, m', a, i, b, j, nd, n, W);
  }

  lemma OneChange(m: seq<int>, m': seq<int>, a: nat, i: nat)
    requires SameBut(m, m', a, i)
    ensures SameBut2(m, m', a, i, a, i)
  {}

  /** Everything but x, z and the working space is as it was. */
  ghost predicate Untouched(m: seq<int>, m': seq<int>, x: nat, z: nat, d: nat, t: nat, q: nat, n: nat) {
    |m| == |m'| && forall i | 0 <= i < |m| ::
      x <= i < x + n || z <= i < z + n || d <= i < d + 2 * n || t <= i < t + 2 * n || q <= i < q + n || m[i] == m'[i]
  }

  lemma UntouchedFrom(m: seq<int>, m1: seq<int>, m2: seq<int>, m3: seq<int>, x: nat, z: nat, d: nat, t: nat, q: nat, n: nat)
    requires SameBut(m, m1, x, n) && SameBut2(m1, m2, d, 2 * n, t, 2 * n) && Framed(m2, m3, z, d, t, q, n)
    ensures Untouched(m, m3, x, z, d, t, q, n)
  {}

  /** The reduction of a product of x1 and y, x1 congruent to x, is a Montgomery product of x and y. */
  lemma IsMontProduct(r: int, T: int, x: int, x1: int, y: int, N: int, ND: int, R: int)
    requires R > 0 && N > 0 && Cong(N * ND, 1, R) && T == x1 * y && x1 >= 0 && y >= 0 && Cong(x1, x, N) && r == Reduced(T, N, ND, R)
    ensures MontProduct(r, x, y, R, N) && T < r * R <= T + N * R
  {
    hide Cong;
    hide Reduced;
    ReducedProperties(T, N, ND, R);
    CongScale(x1, x, y, N);
    CongTrans(r * R, x1 * y, x * y, N);
    MulMono(0, x1, y);
    if r < 0 { MulMono(r, -1, R); }
  }

  /** The optional full reduction of an operand. */
  method ReduceOperand(m: array<int>, x: nat, p: nat, nd: nat, n: nat, W: int, tooLarge: bool)
    requires W >= 2 && W % 2 == 0 && n >= 1 && x + n <= m.Length && p + n <= m.Length && nd + n <= m.Length
    requires Apart(x, n, p, n) && Apart(x, n, nd, n) && ModulusAt(m[..], p, nd, n, W) && Num(m[..], x, n, W) >= 0
    modifies m
    ensures SameBut(old(m[..]), m[..], x, n) && ModulusAt(m[..], p, nd, n, W)
    ensures Num(m[..], p, n, W) == old(Num(m[..], p, n, W)) && Num(m[..], nd, n, W) == old(Num(m[..], nd, n, W))
    ensures Num(m[..], x, n, W) >= 0 && Cong(Num(m[..], x, n, W), old(Num(m[..], x, n, W)), Num(m[..], p, n, W))
  {
    hide Num;
    hide Pow;
    hide NormAt;
    ghost var m0 := m[..];
    ghost var x0, N := Num(m0, x, n, W), Num(m0, p, n, W);
    if tooLarge {
      FfMod(m, x, p, n, W);
      OneChange(m0, m[..], x, n);
      ModulusKept(m0, m[..], x, n, x, n, p, nd, n, W);
      CongMod(x0, N);
    } else {
      CongFrom(x0, x0, 0, N);
    }
  }

  /**
   * MCL_FF_modmul on the digits: z*R is x*y modulo p. The preconditions of the multiplication and of the reduction hold at
   * their calls; x may be replaced by its residue, and besides it only z and the working space change.
   */
  method FfModMul(m: array<int>, z: nat, x: nat, y: nat, p: nat, nd: nat, d: nat, t: nat, q: nat, n: nat, W: int, C: int, fe: int)
    requires W >= 2 && W % 2 == 0 && C >= 1 && C % W == 0 && PowerOfTwo(n) && n >= 2 && Layout(m.Length, z, d, p, nd, t, q, n)
    requires Operand(m.Length, x, d, p, nd, t, q, n) && Operand(m.Length, y, d, p, nd, t, q, n) && Apart(x, n, y, n)
    requires ModulusAt(m[..], p, nd, n, W) && Num(m[..], x, n, W) >= 0 && Num(m[..], y, n, W) >= 0
    modifies m
    ensures Untouched(old(m[..]), m[..], x, z, d, t, q, n) && NormAt(m[..], z, n - 1, W)
    ensures MontProduct(Num(m[..], z, n, W), old(Num(m[..], x, n, W)), old(Num(m[..], y, n, W)), Pow(W, n), old(Num(m[..], p, n, W)))
    ensures old(Num(m[..], p, n, W)) > 0
    ensures Apart(x, n, z, n) ==> Num(m[..], x, n, W) >= 0 && Cong(Num(m[..], x, n, W), old(Num(m[..], x, n, W)), old(Num(m[..], p, n, W)))
  {
    hide Num;
    hide Pow;
    hide Cong;
    hide NormAt;
    hide Reduced;
    hide MontProduct;
    ghost var m0 := m[..];
    ghost var R, N, ND := Pow(W, n), Num(m0, p, n, W), Num(m0, nd, n, W);
    var ex, ey := m[x + n - 1] / W, m[y + n - 1] / W;
    ReduceOperand(m, x, p, nd, n, W, (ex + 1) * (ey + 1) + 1 >= fe);
    ghost var m1 := m[..];
    NumKept(m0, m1, x, n, y, n, W);
    ghost var x1, y1 := Num(m1, x, n, W), Num(m1, y, n, W);
    KarMul(m, d, x, y, t, n, W, C);
    ghost var m2 := m[..];
    ModulusKept(m1, m2, d, 2 * n, t, 2 * n, p, nd, n, W);
    LowerNorm(m2, d, n, 2 * n - 1, W);
    Reduce(m, z, d, p, nd, t, q, n, W, C);
    IsMontProduct(Num(m[..], z, n, W), x1 * y1, Num(m0, x, n, W), x1, y1, N, ND, R);
    if Apart(x, n, z, n) { OperandKept(m1, m2, m[..], x, z, d, t, q, n, W); }
    UntouchedFrom(m0, m1, m2, m[..], x, z, d, t, q, n);
  }

  lemma OperandKept(m1: seq<int>, m2: seq<int>, m3: seq<int>, x: nat, z: nat, d: nat, t: nat, q: nat, n: nat, W: int)
    requires SameBut2(m1, m2, d, 2 * n, t, 2 * n) && Framed(m2, m3, z, d, t, q, n) && x + n <= |m1|
    requires Apart(x, n, z, n) && Apart(x, n, d, 2 * n) && Apart(x, n, t, 2 * n) && Apart(x, n, q, n)
    ensures Num(m3, x, n, W) == Num(m1, x, n, W)
  {
    assert m3[x..x + n] == m1[x..x + n];
  }

  lemma LowerNorm(m: seq<int>, p: nat, j: nat, k: nat, W: int)
    requires j <= k && p + k <= |m| && NormAt(m, p, k, W)
    ensures NormAt(m, p, j, W)
  {}

  /** MCL_FF_modsqr on the digits; z may be x. */
  method FfModSqr(m: array<int>, z: nat, x: nat, p: nat, nd: nat, d: nat, t: nat, q: nat, n: nat, W: int, C: int, fe: int)
    requires W >= 2 && W % 2 == 0 && C >= 1 && C % W == 0 && PowerOfTwo(n) && n >= 2 && Layout(m.Length, z, d, p, nd, t, q, n)
    requires Operand(m.Length, x, d, p, nd, t, q, n) && ModulusAt(m[..], p, nd, n, W) && Num(m[..], x, n, W) >= 0
    modifies m
    ensures Untouched(old(m[..]), m[..], x, z, d, t, q, n) && NormAt(m[..], z, n - 1, W)
    ensures MontProduct(Num(m[..], z, n, W), old(Num(m[..], x, n, W)), old(Num(m[..], x, n, W)), Pow(W, n), old(Num(m[..], p, n, W)))
  {
    hide Num;
    hide Pow;
    hide Cong;
    hide NormAt;
    hide Reduced;
    hide MontProduct;
    ghost var m0 := m[..];
    ghost var R, N, ND, x0 := Pow(W, n), Num(m0, p, n, W), Num(m0, nd, n, W), Num(m0, x, n, W);
    var ex := m[x + n - 1] / W;
    ReduceOperand(m, x, p, nd, n, W, (ex + 1) * (ex + 1) + 1 >= fe);
    ghost var m1 := m[..];
    ghost var x1 := Num(m1, x, n, W);
    KarSqr(m, d, x, t, n, W, C);
    ghost var m2 := m[..];
    ModulusKept(m1, m2, d, 2 * n, t, 2 * n, p, nd, n, W);
    Reduce(m, z, d, p, nd, t, q, n, W, C);
    IsMontSquare(Num(m[..], z, n, W), x1 * x1, x0, x1, N, ND, R);
    UntouchedFrom(m0, m1, m2, m[..], x, z, d, t, q, n);
  }

  lemma IsMontSquare(r: int, T: int, x: int, x1: int, N: int, ND: int, R: int)
    requires R > 0 && N > 0 && Cong(N * ND, 1, R) && T == x1 * x1 && x1 >= 0 && Cong(x1, x, N) && r == Reduced(T, N, ND, R)
    ensures MontProduct(r, x, x, R, N)
  {
    hide Cong;
    hide Reduced;
    IsMontProduct(r, T, x1, x1, x1, N, ND, R) by { CongFrom(x1, x1, 0, N); }
    CongMul(x1, x, x1, x, N);
    CongTrans(r * R, x1 * x1, x * x, N);
  }
}
