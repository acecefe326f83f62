/** MCL_FF_invmodp on the digits; MCL_BIG_invmodp is the same loop with limbs for digits, after a full reduction. */
module FieldBinaryInverse {
  import opened Arith
  import opened FieldDigits
  import opened FieldModMul
  import opened FieldInverse
  import opened BinaryInverse

  /** Where the arrays lie: the result, the number, the modulus, and the local arrays. */
  datatype Desk = Desk(r: nat, a: nat, p: nat, u: nat, v: nat, x1: nat, x2: nat, t: nat, one: nat, n: nat)
  {
    ghost predicate Fits(len: nat) {
      n >= 1 && r + n <= len && a + n <= len && p + n <= len && u + n <= len && v + n <= len && x1 + n <= len && x2 + n <= len &&
      t + n <= len && one + n <= len
    }

    ghost predicate Disjoint() {
      Apart(p, n, u, n) && Apart(p, n, v, n) && Apart(p, n, x1, n) && Apart(p, n, x2, n) && Apart(p, n, t, n) && Apart(p, n, one, n) &&
      Apart(u, n, v, n) && Apart(u, n, x1, n) && Apart(u, n, x2, n) && Apart(u, n, t, n) && Apart(u, n, one, n) &&
      Apart(v, n, x1, n) && Apart(v, n, x2, n) && Apart(v, n, t, n) && Apart(v, n, one, n) &&
      Apart(x1, n, x2, n) && Apart(x1, n, t, n) && Apart(x1, n, one, n) && Apart(x2, n, t, n) && Apart(x2, n, one, n) && Apart(t, n, one, n) &&
      Apart(a, n, u, n) && Apart(a, n, v, n) && Apart(r, n, x1, n) && Apart(r, n, x2, n)
    }

    /** The same with the two halves of the account exchanged. */
    function Swapped(): Desk { Desk(r, a, p, v, u, x2, x1, t, one, n) }
  }

  // ----- one array at a time -----------------------------------------------------------------------------

  /** A number with its digits in order: settled and worth v. */
  ghost predicate At(m: seq<int>, x: nat, n: nat, W: int, v: int)
    requires n >= 1 && x + n <= |m|
  {
    Settled(m, x, n, W) && Num(m, x, n, W) == v
  }

  lemma AtKept(m: seq<int>, m': seq<int>, y: nat, x: nat, n: nat, W: int, v: int)
    requires SameBut(m, m', y, n) && Apart(y, n, x, n) && n >= 1 && x + n <= |m| && At(m, x, n, W, v)
    ensures At(m', x, n, W, v)
  {
    assert m'[x..x + n] == m[x..x + n];
  }

  /** MCL_FF_parity. */
  lemma LowParity(m: seq<int>, x: nat, n: nat, W: int)
    requires W % 2 == 0 && n >= 1 && x + n <= |m|
    ensures m[x] % 2 == Num(m, x, n, W) % 2
  {
    hide Num;
    hide Pow;
    NumSplit(m, x, 1, n, W);
    SingleValue(m, x, W);
    PowOneOf(W);
    EvenMultiple(Num(m, x, n, W), m[x], W, Num(m, x + 1, n - 1, W));
  }

  lemma EvenMultiple(v: int, d: int, W: int, h: int)
    requires W % 2 == 0 && v == d + W * h
    ensures v % 2 == d % 2
  {
    var k := W / 2;
    assert W * h == 2 * (k * h);
  }

  /** What the loop keeps: u/a is x1 and v/a is x2, modulo p, and u and v share no divisor. */
  ghost predicate Account(m: seq<int>, L: Desk, W: int, A: int, P: int, u: int, v: int, x1: int, x2: int)
    requires L.Fits(|m|)
  {
    At(m, L.u, L.n, W, u) && At(m, L.v, L.n, W, v) && At(m, L.x1, L.n, W, x1) && At(m, L.x2, L.n, W, x2) &&
    At(m, L.p, L.n, W, P) && At(m, L.one, L.n, W, 1) &&
    u >= 1 && v >= 1 && Coprime(u, v) && Quotient(x1, u, A, P) && Quotient(x2, v, A, P)
  }

  lemma Exchanged(m: seq<int>, L: Desk, W: int, A: int, P: int, u: int, v: int, x1: int, x2: int)
    requires L.Fits(|m|) && Account(m, L, W, A, P, u, v, x1, x2)
    ensures Account(m, L.Swapped(), W, A, P, v, u, x2, x1)
  {
    hide Quotient;
    hide Coprime;
    CoprimeSym(u, v);
  }

  /** Only the local arrays have changed. */
  ghost predicate LocalOnly(m: seq<int>, m': seq<int>, L: Desk) {
    |m| == |m'| && forall i | 0 <= i < |m| ::
      L.u <= i < L.u + L.n || L.v <= i < L.v + L.n || L.x1 <= i < L.x1 + L.n || L.x2 <= i < L.x2 + L.n || L.t <= i < L.t + L.n ||
      L.one <= i < L.one + L.n || m[i] == m'[i]
  }

  lemma LocalOne(m: seq<int>, m': seq<int>, x: nat, L: Desk)
    requires SameBut(m, m', x, L.n) && (x == L.u || x == L.v || x == L.x1 || x == L.x2 || x == L.t || x == L.one)
    ensures LocalOnly(m, m', L)
  {}

  lemma LocalTrans(m: seq<int>, m1: seq<int>, m2: seq<int>, L: Desk)
    requires LocalOnly(m, m1, L) && LocalOnly(m1, m2, L)
    ensures LocalOnly(m, m2, L)
  {}

  // ----- the inner loop ------------------------------------------------------------------------------------

  /** One halving of u and x1. */
  method HalveStep(m: array<int>, L: Desk, W: int, ghost A: int, ghost P: int, ghost u: int, ghost v: int, ghost x1: int, ghost x2: int)
    returns (ghost x: int)
    requires W >= 2 && W % 2 == 0 && P > 1 && P % 2 == 1 && u % 2 == 0
    requires L.Fits(m.Length) && L.Disjoint() && Account(m[..], L, W, A, P, u, v, x1, x2)
    modifies m
    ensures LocalOnly(old(m[..]), m[..], L) && Account(m[..], L, W, A, P, u / 2, v, x, x2) && 1 <= u / 2 < u
  {
    hide Num;
    hide Settled;
    hide Quotient;
    hide Coprime;
    ghost var m0 := m[..];
    DigitShr(m, L.u, L.n, W);
    ghost var m1 := m[..];
    OthersKept(m0, m1, L.u, L, W, u, v, x1, x2, P);
    LowParity(m1, L.x1, L.n, W);
    HalveBoth(x1, u, A, P);
    CoprimeHalf(u, v);
    RangeOf(x1, u, A, P);
    if m[L.x1] % 2 != 0 {
      Add(m, L.x1, L.p, L.x1, L.n, W);
      ghost var m2 := m[..];
      Normalise(m, L.x1, L.n, W);
      TopNotNegative(m[..], L.x1, L.n, W);
      SameButTwice(m1, m2, m[..], L.x1, L.n);
    }
    ghost var m3 := m[..];
    DigitShr(m, L.x1, L.n, W);
    SameButTwice(m1, m3, m[..], L.x1, L.n);
    x := Num(m[..], L.x1, L.n, W);
    OthersKept(m1, m[..], L.x1, L, W, u / 2, v, x1, x2, P);
    LocalOne(m0, m1, L.u, L);
    LocalOne(m1, m[..], L.x1, L);
    LocalTrans(m0, m1, m[..], L);
  }

  lemma RangeOf(x: int, u: int, a: int, p: int)
    requires Quotient(x, u, a, p)
    ensures 0 <= x < p
  {}

  /** A change of one array leaves the others. */
  lemma OthersKept(m: seq<int>, m': seq<int>, y: nat, L: Desk, W: int, u: int, v: int, x1: int, x2: int, P: int)
    requires L.Fits(|m|) && L.Disjoint() && SameBut(m, m', y, L.n) && (y == L.u || y == L.x1 || y == L.t)
    ensures |m'| == |m|
    ensures y != L.u && At(m, L.u, L.n, W, u) ==> At(m', L.u, L.n, W, u)
    ensures At(m, L.v, L.n, W, v) ==> At(m', L.v, L.n, W, v)
    ensures y != L.x1 && At(m, L.x1, L.n, W, x1) ==> At(m', L.x1, L.n, W, x1)
    ensures At(m, L.x2, L.n, W, x2) ==> At(m', L.x2, L.n, W, x2)
    ensures At(m, L.p, L.n, W, P) ==> At(m', L.p, L.n, W, P)
    ensures At(m, L.one, L.n, W, 1) ==> At(m', L.one, L.n, W, 1)
  {
    hide At;
    if y != L.u && At(m, L.u, L.n, W, u) { AtKept(m, m', y, L.u, L.n, W, u); }
    if At(m, L.v, L.n, W, v) { AtKept(m, m', y, L.v, L.n, W, v); }
    if y != L.x1 && At(m, L.x1, L.n, W, x1) { AtKept(m, m', y, L.x1, L.n, W, x1); }
    if At(m, L.x2, L.n, W, x2) { AtKept(m, m', y, L.x2, L.n, W, x2); }
    if At(m, L.p, L.n, W, P) { AtKept(m, m', y, L.p, L.n, W, P); }
    if At(m, L.one, L.n, W, 1) { AtKept(m, m', y, L.one, L.n, W, 1); }
  }

  /** All factors of two out of u. */
  method Strip(m: array<int>, L: Desk, W: int, ghost A: int, ghost P: int, ghost u0: int, ghost v: int, ghost y1: int, ghost x2: int)
    returns (ghost u: int, ghost x1: int)
    requires W >= 2 && W % 2 == 0 && P > 1 && P % 2 == 1
    requires L.Fits(m.Length) && L.Disjoint() && Account(m[..], L, W, A, P, u0, v, y1, x2)
    modifies m
    ensures LocalOnly(old(m[..]), m[..], L) && Account(m[..], L, W, A, P, u, v, x1, x2)
    ensures u <= u0 && u % 2 == 1 && (u0 % 2 == 1 ==> u == u0)
  {
    hide Num;
    hide LocalOnly;
    hide Account;
    ghost var m0 := m[..];
    u, x1 := u0, y1;
    LocalSelf(m0, L);
    UOf(m0, L, W, A, P, u, v, x1, x2);
    while m[L.u] % 2 == 0
      invariant LocalOnly(m0, m[..], L) && Account(m[..], L, W, A, P, u, v, x1, x2) && 1 <= u <= u0 && m[L.u] % 2 == u % 2
      invariant u0 % 2 == 1 ==> u == u0
      decreases u
    {
      ghost var m1 := m[..];
      x1 := HalveStep(m, L, W, A, P, u, v, x1, x2);
      u := u / 2;
      LocalTrans(m0, m1, m[..], L);
      UOf(m[..], L, W, A, P, u, v, x1, x2);
    }
  }

  lemma LocalSelf(m: seq<int>, L: Desk)
    ensures LocalOnly(m, m, L)
  {}

  lemma UOf(m: seq<int>, L: Desk, W: int, A: int, P: int, u: int, v: int, x1: int, x2: int)
    requires W % 2 == 0 && L.Fits(|m|) && Account(m, L, W, A, P, u, v, x1, x2)
    ensures m[L.u] % 2 == u % 2 && u >= 1 && v >= 1 && Coprime(u, v)
  {
    hide Num;
    hide Coprime;
    LowParity(m, L.u, L.n, W);
  }

  // ----- the subtraction --------------------------------------------------------------------------------------

  /** u - v for u, and x1 - x2 modulo p for x1. */
  method TakeAway(m: array<int>, L: Desk, W: int, ghost A: int, ghost P: int, ghost u: int, ghost v: int, ghost x1: int, ghost x2: int)
    returns (ghost x: int)
    requires W >= 2 && P > 1 && u > v && L.Fits(m.Length) && L.Disjoint() && Account(m[..], L, W, A, P, u, v, x1, x2)
    modifies m
    ensures LocalOnly(old(m[..]), m[..], L) && Account(m[..], L, W, A, P, u - v, v, x, x2)
  {
    hide Num;
    hide Settled;
    hide Quotient;
    hide Coprime;
    ghost var m0 := m[..];
    SubtractBoth(x1, u, x2, v, A, P);
    RangeOf(x1, u, A, P);
    CoprimeSub(u, v);
    Sub(m, L.u, L.u, L.v, L.n, W);
    ghost var m1 := m[..];
    Normalise(m, L.u, L.n, W);
    TopNotNegative(m[..], L.u, L.n, W);
    ghost var m2 := m[..];
    SameButTwice(m0, m1, m2, L.u, L.n);
    OthersKept(m0, m2, L.u, L, W, u, v, x1, x2, P);
    LocalOne(m0, m2, L.u, L);
    x := TakeQuotient(m, L, W, A, P, u - v, v, x1, x2);
    LocalTrans(m0, m2, m[..], L);
  }

  /** x1 - x2, or x1 + (p - x2). */
  method TakeQuotient(m: array<int>, L: Desk, W: int, ghost A: int, ghost P: int, ghost u: int, ghost v: int, ghost x1: int, ghost x2: int)
    returns (ghost x: int)
    requires W >= 2 && P > 1 && L.Fits(m.Length) && L.Disjoint() && u >= 1 && v >= 1 && Coprime(u, v) && Quotient(x2, v, A, P)
    requires At(m[..], L.u, L.n, W, u) && At(m[..], L.v, L.n, W, v) && At(m[..], L.x1, L.n, W, x1) && At(m[..], L.x2, L.n, W, x2)
    requires At(m[..], L.p, L.n, W, P) && At(m[..], L.one, L.n, W, 1)
    requires x1 >= 0 && Quotient(if x1 >= x2 then x1 - x2 else x1 + (P - x2), u, A, P)
    modifies m
    ensures LocalOnly(old(m[..]), m[..], L) && Account(m[..], L, W, A, P, u, v, x, x2)
  {
    hide Num;
    hide Settled;
    hide Quotient;
    hide Coprime;
    ghost var m0 := m[..];
    RangeOf(x2, v, A, P);
    var cmp := DigitComp(m, L.x1, L.x2, L.n, W);
    if cmp >= 0 {
      Sub(m, L.x1, L.x1, L.x2, L.n, W);
    } else {
      Sub(m, L.t, L.p, L.x2, L.n, W);
      OthersKept(m0, m[..], L.t, L, W, u, v, x1, x2, P);
      LocalOne(m0, m[..], L.t, L);
      ghost var m1 := m[..];
      Add(m, L.x1, L.x1, L.t, L.n, W);
      OthersKept(m1, m[..], L.x1, L, W, u, v, x1, x2, P);
      LocalOne(m1, m[..], L.x1, L);
      LocalTrans(m0, m1, m[..], L);
    }
    ghost var m2 := m[..];
    if cmp >= 0 {
      OthersKept(m0, m2, L.x1, L, W, u, v, x1, x2, P);
      LocalOne(m0, m2, L.x1, L);
    }
    Normalise(m, L.x1, L.n, W);
    TopNotNegative(m[..], L.x1, L.n, W);
    x := Num(m[..], L.x1, L.n, W);
    OthersKept(m2, m[..], L.x1, L, W, u, v, x1, x2, P);
    LocalOne(m2, m[..], L.x1, L);
    LocalTrans(m0, m2, m[..], L);
  }

  // ----- the whole --------------------------------------------------------------------------------------------

  /** One turn of the outer loop. */
  method Turn(m: array<int>, L: Desk, W: int, ghost A: int, ghost P: int, ghost u0: int, ghost v0: int, ghost y1: int, ghost y2: int)
    returns (ghost u: int, ghost v: int, ghost x1: int, ghost x2: int)
    requires W >= 2 && W % 2 == 0 && P > 1 && P % 2 == 1 && u0 != 1 && v0 != 1
    requires L.Fits(m.Length) && L.Disjoint() && Account(m[..], L, W, A, P, u0, v0, y1, y2)
    modifies m
    ensures LocalOnly(old(m[..]), m[..], L) && Account(m[..], L, W, A, P, u, v, x1, x2) && u + v < u0 + v0
  {
    hide Num;
    hide LocalOnly;
    hide Account;
    hide Coprime;
    ghost var m0 := m[..];
    var L' := L.Swapped();
    UOf(m0, L, W, A, P, u0, v0, y1, y2);
    NotBothEven(u0, v0);
    u, x1 := Strip(m, L, W, A, P, u0, v0, y1, y2);
    ghost var m1 := m[..];
    Exchanged(m1, L, W, A, P, u, v0, x1, y2);
    v, x2 := Strip(m, L', W, A, P, v0, u, y2, x1);
    ghost var m2 := m[..];
    LocalSwapped(m1, m2, L);
    LocalTrans(m0, m1, m2, L);
    Exchanged(m2, L', W, A, P, v, u, x2, x1);
    UOf(m2, L, W, A, P, u, v, x1, x2);
    Different(u, v);
    var larger := NotBelow(m, L, W, A, P, u, v, x1, x2);
    if larger {
      x1 := TakeAway(m, L, W, A, P, u, v, x1, x2);
      u := u - v;
    } else {
      x2 := TakeAway(m, L', W, A, P, v, u, x2, x1);
      v := v - u;
      LocalSwapped(m2, m[..], L);
      Exchanged(m[..], L', W, A, P, v, u, x2, x1);
    }
    LocalTrans(m0, m2, m[..], L);
  }

  method NotBelow(m: array<int>, L: Desk, W: int, ghost A: int, ghost P: int, ghost u: int, ghost v: int, ghost x1: int, ghost x2: int)
    returns (b: bool)
    requires W >= 2 && L.Fits(m.Length) && Account(m[..], L, W, A, P, u, v, x1, x2)
    ensures b <==> u >= v
  {
    hide Num;
    hide Settled;
    var cmp := DigitComp(m, L.u, L.v, L.n, W);
    b := cmp >= 0;
  }

  lemma LocalSwapped(m: seq<int>, m': seq<int>, L: Desk)
    requires LocalOnly(m, m', L.Swapped())
    ensures LocalOnly(m, m', L)
  {}

  /** The tests of the outer loop: is the number at y one? */
  method IsOne(m: array<int>, y: nat, L: Desk, W: int, ghost w: int) returns (b: bool)
    requires W >= 2 && L.Fits(m.Length) && y + L.n <= m.Length && At(m[..], y, L.n, W, w) && At(m[..], L.one, L.n, W, 1)
    ensures b <==> w == 1
  {
    hide Num;
    hide Settled;
    var cmp := DigitComp(m, y, L.one, L.n, W);
    b := cmp == 0;
  }

  lemma AccountParts(m: seq<int>, L: Desk, W: int, A: int, P: int, u: int, v: int, x1: int, x2: int)
    requires L.Fits(|m|) && Account(m, L, W, A, P, u, v, x1, x2)
    ensures At(m, L.u, L.n, W, u) && At(m, L.v, L.n, W, v) && At(m, L.one, L.n, W, 1) && u >= 1 && v >= 1
    ensures Num(m, L.x1, L.n, W) == x1 && Num(m, L.x2, L.n, W) == x2 && Quotient(x1, u, A, P) && Quotient(x2, v, A, P)
  {
    hide Num;
    hide Settled;
    hide Quotient;
    hide Coprime;
  }

  /** MCL_FF_invmodp: the inverse modulo an odd number of any number that shares no divisor with it. */
  method FfInvModP(m: array<int>, L: Desk, W: int, ghost A: int, ghost P: int)
    requires W >= 2 && W % 2 == 0 && L.Fits(m.Length) && L.Disjoint()
    requires NormAt(m[..], L.a, L.n, W) && Num(m[..], L.a, L.n, W) == A && NormAt(m[..], L.p, L.n, W) && Num(m[..], L.p, L.n, W) == P
    requires 1 < P && P % 2 == 1 && Coprime(A, P)
    modifies m
    ensures 0 <= Num(m[..], L.r, L.n, W) < P && Cong(A * Num(m[..], L.r, L.n, W), 1, P)
    ensures forall i :: 0 <= i < L.r && !InLocal(i, L) ==> m[i] == old(m[i])
    ensures forall i :: L.r + L.n <= i < m.Length && !InLocal(i, L) ==> m[i] == old(m[i])
  {
    hide Num;
    hide Cong;
    hide At;
    hide LocalOnly;
    hide Account;
    hide Coprime;
    hide NormAt;
    hide Quotient;
    ghost var m0 := m[..];
    Load(m, L, W, A, P);
    ghost var u, v, x1, x2 := A, P, 1, 0;
    AccountParts(m[..], L, W, A, P, u, v, x1, x2);
    var b1 := IsOne(m, L.u, L, W, u);
    var b2 := IsOne(m, L.v, L, W, v);
    while !b1 && !b2
      invariant LocalOnly(m0, m[..], L) && Account(m[..], L, W, A, P, u, v, x1, x2) && u >= 1 && v >= 1
      invariant (b1 <==> u == 1) && (b2 <==> v == 1)
      decreases u + v
    {
      ghost var m1 := m[..];
      u, v, x1, x2 := Turn(m, L, W, A, P, u, v, x1, x2);
      LocalTrans(m0, m1, m[..], L);
      AccountParts(m[..], L, W, A, P, u, v, x1, x2);
      b1 := IsOne(m, L.u, L, W, u);
      b2 := IsOne(m, L.v, L, W, v);
    }
    AccountParts(m[..], L, W, A, P, u, v, x1, x2);
    ghost var m1 := m[..];
    if b1 {
      QuotientOfOne(x1, A, P);
      Copy(m, L.r, L.x1, L.n, W);
    } else {
      QuotientOfOne(x2, A, P);
      Copy(m, L.r, L.x2, L.n, W);
    }
    Surroundings(m0, m1, m[..], L);
  }

  predicate InLocal(i: int, L: Desk) {
    L.u <= i < L.u + L.n || L.v <= i < L.v + L.n || L.x1 <= i < L.x1 + L.n || L.x2 <= i < L.x2 + L.n || L.t <= i < L.t + L.n ||
    L.one <= i < L.one + L.n
  }

  lemma Surroundings(m: seq<int>, m1: seq<int>, m2: seq<int>, L: Desk)
    requires LocalOnly(m, m1, L) && SameBut(m1, m2, L.r, L.n) && L.Fits(|m|)
    ensures |m2| == |m|
    ensures forall i :: 0 <= i < L.r && !InLocal(i, L) ==> m2[i] == m[i]
    ensures forall i :: L.r + L.n <= i < |m| && !InLocal(i, L) ==> m2[i] == m[i]
  {}

  /** u = a, v = p, one = 1, x1 = 1 and x2 = 0. */
  method Load(m: array<int>, L: Desk, W: int, ghost A: int, ghost P: int)
    requires W >= 2 && L.Fits(m.Length) && L.Disjoint()
    requires NormAt(m[..], L.a, L.n, W) && Num(m[..], L.a, L.n, W) == A && NormAt(m[..], L.p, L.n, W) && Num(m[..], L.p, L.n, W) == P
    requires 1 < P && Coprime(A, P)
    modifies m
    ensures LocalOnly(old(m[..]), m[..], L) && Account(m[..], L, W, A, P, A, P, 1, 0)
  {
    hide Num;
    hide NormAt;
    hide At;
    hide LocalOnly;
    hide Account;
    hide Coprime;
    hide Quotient;
    ghost var m0 := m[..];
    CopyBoth(m, L, W, A, P);
    ghost var m1 := m[..];
    LoadRest(m, L, W, A, P);
    LocalTrans(m0, m1, m[..], L);
    NumBound(m0, L.a, L.n, W);
    QuotientStart(A, P);
    CoprimePositive(A, P);
    AccountFrom(m[..], L, W, A, P);
  }

  /** u = a and v = p. */
  method CopyBoth(m: array<int>, L: Desk, W: int, ghost A: int, ghost P: int)
    requires L.Fits(m.Length) && L.Disjoint()
    requires NormAt(m[..], L.a, L.n, W) && Num(m[..], L.a, L.n, W) == A && NormAt(m[..], L.p, L.n, W) && Num(m[..], L.p, L.n, W) == P
    modifies m
    ensures LocalOnly(old(m[..]), m[..], L)
    ensures At(m[..], L.u, L.n, W, A) && At(m[..], L.v, L.n, W, P) && At(m[..], L.p, L.n, W, P)
  {
    hide Num;
    hide NormAt;
    hide At;
    hide LocalOnly;
    hide Apart;
    ghost var m0 := m[..];
    SourcesApart(L);
    AtNorm(m0, L.a, L.n, W, A);
    AtNorm(m0, L.p, L.n, W, P);
    CopyAt(m, L.u, L.a, L.n, W, A);
    ghost var m1 := m[..];
    AtKept(m0, m1, L.u, L.p, L.n, W, P);
    CopyAt(m, L.v, L.p, L.n, W, P);
    ghost var m2 := m[..];
    AtKept(m1, m2, L.v, L.p, L.n, W, P);
    AtKept(m1, m2, L.v, L.u, L.n, W, A);
    LocalOne(m0, m1, L.u, L);
    LocalOne(m1, m2, L.v, L);
    LocalTrans(m0, m1, m2, L);
  }

  method CopyAt(m: array<int>, y: nat, x: nat, n: nat, W: int, ghost v: int)
    requires n >= 1 && y + n <= m.Length && x + n <= m.Length && Apart(y, n, x, n) && At(m[..], x, n, W, v)
    modifies m
    ensures SameBut(old(m[..]), m[..], y, n) && At(m[..], y, n, W, v)
  {
    hide Num;
    hide At;
    ghost var m0 := m[..];
    Copy(m, y, x, n, W);
    AtCopied(m0, m[..], y, x, n, W, v);
  }

  lemma SourcesApart(L: Desk)
    requires L.Disjoint()
    ensures Apart(L.u, L.n, L.a, L.n) && Apart(L.u, L.n, L.p, L.n) && Apart(L.v, L.n, L.p, L.n) && Apart(L.v, L.n, L.u, L.n)
  {}

  lemma AtNorm(m: seq<int>, x: nat, n: nat, W: int, v: int)
    requires n >= 1 && x + n <= |m| && NormAt(m, x, n, W) && Num(m, x, n, W) == v
    ensures At(m, x, n, W, v)
  {}

  lemma AtCopied(m: seq<int>, m': seq<int>, y: nat, x: nat, n: nat, W: int, v: int)
    requires n >= 1 && x + n <= |m| && y + n <= |m'| && At(m, x, n, W, v) && forall i :: y <= i < y + n ==> m'[i] == m[i - y + x]
    ensures At(m', y, n, W, v)
  {
    assert m'[y..y + n] == m[x..x + n];
  }

  lemma AccountFrom(m: seq<int>, L: Desk, W: int, A: int, P: int)
    requires L.Fits(|m|) && At(m, L.u, L.n, W, A) && At(m, L.v, L.n, W, P) && At(m, L.x1, L.n, W, 1) && At(m, L.x2, L.n, W, 0)
    requires At(m, L.p, L.n, W, P) && At(m, L.one, L.n, W, 1) && A >= 1 && P > 1 && Coprime(A, P)
    requires Quotient(1, A, A, P) && Quotient(0, P, A, P)
    ensures Account(m, L, W, A, P, A, P, 1, 0)
  {}

  lemma QuotientStart(A: int, P: int)
    requires P > 1
    ensures Quotient(1, A, A, P) && Quotient(0, P, A, P)
  {
    CongFrom(A, A, 0, P);
    InverseStart(A, P);
  }

  /** 0 shares every divisor. */
  lemma CoprimePositive(A: int, P: int)
    requires P > 1 && A >= 0 && Coprime(A, P)
    ensures A >= 1
  {
    if A == 0 {
      SmallMod(0, P);
      DivModUnique(P, 1, 0, P);
      assert Divides(P, A) && Divides(P, P);
    }
  }

  /** one = 1, x1 = 1 and x2 = 0. */
  method LoadRest(m: array<int>, L: Desk, W: int, ghost A: int, ghost P: int)
    requires W >= 2 && L.Fits(m.Length) && L.Disjoint()
    requires At(m[..], L.u, L.n, W, A) && At(m[..], L.v, L.n, W, P) && At(m[..], L.p, L.n, W, P)
    modifies m
    ensures LocalOnly(old(m[..]), m[..], L)
    ensures At(m[..], L.u, L.n, W, A) && At(m[..], L.v, L.n, W, P) && At(m[..], L.p, L.n, W, P)
    ensures At(m[..], L.one, L.n, W, 1) && At(m[..], L.x1, L.n, W, 1) && At(m[..], L.x2, L.n, W, 0)
  {
    hide Num;
    hide At;
    hide LocalOnly;
    ghost var m0 := m[..];
    hide Apart;
    OnesApart(L);
    SettledOne(m, L.one, L.n, W);
    ghost var m1 := m[..];
    AtKept(m0, m1, L.one, L.u, L.n, W, A);
    AtKept(m0, m1, L.one, L.v, L.n, W, P);
    AtKept(m0, m1, L.one, L.p, L.n, W, P);
    CopyAt(m, L.x1, L.one, L.n, W, 1);
    ghost var m2 := m[..];
    OthersKept(m1, m2, L.x1, L, W, A, P, 1, 0, P);
    Zero(m, L.x2, L.n, W);
    AtZero(m[..], L.x2, L.n, W);
    OthersKept(m2, m[..], L.x2, L.Swapped(), W, P, A, 0, 1, P);
    LocalOne(m0, m1, L.one, L);
    LocalOne(m1, m2, L.x1, L);
    LocalOne(m2, m[..], L.x2, L);
    LocalTrans(m0, m1, m2, L);
    LocalTrans(m0, m2, m[..], L);
  }

  lemma OnesApart(L: Desk)
    requires L.Disjoint()
    ensures Apart(L.one, L.n, L.u, L.n) && Apart(L.one, L.n, L.v, L.n) && Apart(L.one, L.n, L.p, L.n) && Apart(L.x1, L.n, L.one, L.n)
    ensures L.Swapped().Disjoint()
  {}

  lemma AtZero(m: seq<int>, x: nat, n: nat, W: int)
    requires W >= 1 && n >= 1 && x + n <= |m| && Num(m, x, n, W) == 0 && forall i :: x <= i < x + n ==> m[i] == 0
    ensures At(m, x, n, W, 0)
  {}

  method SettledOne(m: array<int>, x: nat, n: nat, W: int)
    requires W >= 2 && n >= 1 && x + n <= m.Length
    modifies m
    ensures SameBut(old(m[..]), m[..], x, n) && At(m[..], x, n, W, 1)
  {
    hide Num;
    FfOne(m, x, n, W);
  }
}
