/** FF_invmod2m on the digits: the inverse of a field number modulo R, the number of correct digits doubling every round. */
module FieldInverse {
  import opened Arith
  import opened Digits
  import opened FieldDigits
  import opened Karatsuba
  import opened Hensel
  import opened FieldModMul

  /** Where the arrays lie: the inverse, the number, three local arrays and the workspace of the products. */
  datatype Room = Room(u: nat, a: nat, t: nat, b: nat, c: nat, w: nat, n: nat)
  {
    ghost predicate Fits(len: nat) {
      u + n <= len && a + n <= len && t + n <= len && b + n <= len && c + n <= len && w + 2 * n <= len
    }

    ghost predicate Disjoint() {
      Apart(u, n, a, n) && Apart(u, n, t, n) && Apart(u, n, b, n) && Apart(u, n, c, n) && Apart(u, n, w, 2 * n) &&
      Apart(a, n, t, n) && Apart(a, n, b, n) && Apart(a, n, c, n) && Apart(a, n, w, 2 * n) &&
      Apart(t, n, b, n) && Apart(t, n, c, n) && Apart(t, n, w, 2 * n) &&
      Apart(b, n, c, n) && Apart(b, n, w, 2 * n) && Apart(c, n, w, 2 * n)
    }
  }

  // ----- shifts by whole digits -----------------------------------------------------------------------

  /** MCL_FF_shrw: the upper half moves down, zeros follow. */
  method WordsDown(m: array<int>, x: nat, i: nat, ghost W: int)
    requires i >= 1 && x + 2 * i <= m.Length
    modifies m
    ensures SameBut(old(m[..]), m[..], x, 2 * i)
    ensures Num(m[..], x, i, W) == old(Num(m[..], x + i, i, W)) && Num(m[..], x, 2 * i, W) == old(Num(m[..], x + i, i, W))
    ensures forall j :: x <= j < x + i ==> m[j] == old(m[j + i])
    ensures forall j :: x + i <= j < x + 2 * i ==> m[j] == 0
  {
    hide Num;
    ghost var m0 := m[..];
    for k := 0 to i
      invariant forall j :: x <= j < x + k ==> m[j] == m0[j + i]
      invariant forall j :: x + i <= j < x + i + k ==> m[j] == 0
      invariant forall j :: 0 <= j < m.Length && !(x <= j < x + k) && !(x + i <= j < x + i + k) ==> m[j] == m0[j]
    {
      m[x + k] := m[x + i + k];
      m[x + i + k] := 0;
    }
    MovedDown(m0, m[..], x, i, W);
  }

  lemma MovedDown(m: seq<int>, m': seq<int>, x: nat, i: nat, W: int)
    requires |m| == |m'| && x + 2 * i <= |m|
    requires forall j :: x <= j < x + i ==> m'[j] == m[j + i]
    requires forall j :: x + i <= j < x + 2 * i ==> m'[j] == 0
    ensures Num(m', x, i, W) == Num(m, x + i, i, W) && Num(m', x, 2 * i, W) == Num(m, x + i, i, W)
  {
    hide Val;
    hide Pow;
    assert m'[x..x + i] == m[x + i..x + 2 * i];
    NumSplit(m', x, i, 2 * i, W);
    ValZero(m'[x + i..x + 2 * i], W);
    assert Pow(W, i) * 0 == 0;
  }

  /** MCL_FF_shlw: the lower half moves up, zeros take its place. */
  method WordsUp(m: array<int>, x: nat, i: nat, ghost W: int)
    requires i >= 1 && x + 2 * i <= m.Length
    modifies m
    ensures SameBut(old(m[..]), m[..], x, 2 * i)
    ensures Num(m[..], x, 2 * i, W) == Pow(W, i) * old(Num(m[..], x, i, W))
  {
    hide Num;
    hide Pow;
    ghost var m0 := m[..];
    for k := 0 to i
      invariant forall j :: x <= j < x + k ==> m[j] == 0
      invariant forall j :: x + i <= j < x + i + k ==> m[j] == m0[j - i]
      invariant forall j :: 0 <= j < m.Length && !(x <= j < x + k) && !(x + i <= j < x + i + k) ==> m[j] == m0[j]
    {
      m[x + i + k] := m[x + k];
      m[x + k] := 0;
    }
    MovedUp(m0, m[..], x, i, W);
  }

  lemma MovedUp(m: seq<int>, m': seq<int>, x: nat, i: nat, W: int)
    requires |m| == |m'| && x + 2 * i <= |m|
    requires forall j :: x <= j < x + i ==> m'[j] == 0
    requires forall j :: x + i <= j < x + 2 * i ==> m'[j] == m[j - i]
    ensures Num(m', x, 2 * i, W) == Pow(W, i) * Num(m, x, i, W)
  {
    hide Val;
    hide Pow;
    assert m'[x + i..x + 2 * i] == m[x..x + i];
    NumSplit(m', x, i, 2 * i, W);
    ValZero(m'[x..x + i], W);
  }

  // ----- the steps of a round ---------------------------------------------------------------------------

  /** A normalised low part is the remainder, what is above it the quotient. */
  lemma HalvesOf(m: seq<int>, x: nat, i: nat, k: nat, W: int)
    requires W >= 2 && i <= k && x + k <= |m| && NormAt(m, x, i, W)
    ensures Pow(W, i) > 0 && Num(m, x, i, W) == Num(m, x, k, W) % Pow(W, i)
    ensures Num(m, x + i, k - i, W) == Num(m, x, k, W) / Pow(W, i)
  {
    hide Num;
    hide Pow;
    PowPos(W, i);
    NumSplit(m, x, i, k, W);
    NumBound(m, x, i, W);
    assert Pow(W, i) * Num(m, x + i, k - i, W) == Num(m, x + i, k - i, W) * Pow(W, i);
    DivModUnique(Num(m, x, k, W), Num(m, x + i, k - i, W), Num(m, x, i, W), Pow(W, i));
  }

  /** The upper half of U times the lower i digits of a. */
  method UpperOfProduct(m: array<int>, L: Room, i: nat, W: int, C: int)
    requires W >= 2 && C >= 1 && PowerOfTwo(i) && i >= 1 && 2 * i <= L.n && L.Fits(m.Length) && L.Disjoint() && NormAt(m[..], L.a, L.n, W)
    modifies m
    ensures Inside(old(m[..]), m[..], L) && SameAt(old(m[..]), m[..], L.u, L.n) && Pow(W, i) > 0
    ensures Num(m[..], L.t, 2 * i, W) == old(Num(m[..], L.u, i, W)) * (old(Num(m[..], L.a, L.n, W)) % Pow(W, i)) / Pow(W, i)
    ensures forall j :: L.t + i <= j < L.t + 2 * i ==> m[j] == 0
  {
    hide Num;
    hide Pow;
    hide NormAt;
    hide IsProduct;
    ghost var m0 := m[..];
    NormLower(m0, L.a, i, L.n, W);
    HalvesOf(m0, L.a, i, L.n, W);
    Copy(m, L.b, L.a, i, W);
    ghost var m1 := m[..];
    NumKept(m0, m1, L.b, i, L.u, i, W);
    KarMul(m, L.t, L.u, L.b, L.w, i, W, C);
    ghost var m2 := m[..];
    ProductIs(Num(m2, L.t, 2 * i, W), Num(m1, L.u, i, W), Num(m1, L.b, i, W));
    NormLower(m2, L.t, i, 2 * i - 1, W);
    HalvesOf(m2, L.t, i, 2 * i, W);
    WordsDown(m, L.t, i, W);
    InsideOne(m0, m1, L.b, i, L);
    InsideTwo(m1, m2, L.t, 2 * i, L.w, 2 * i, L);
    InsideOne(m2, m[..], L.t, 2 * i, L);
    InsideTrans(m0, m1, m2, L);
    InsideTrans(m0, m2, m[..], L);
  }

  lemma ProductIs(z: int, x: int, y: int)
    requires IsProduct(z, x, y)
    ensures z == x * y
  {}

  lemma NormLower(m: seq<int>, p: nat, j: nat, k: nat, W: int)
    requires j <= k && p + k <= |m| && NormAt(m, p, k, W)
    ensures NormAt(m, p, j, W)
  {}

  /** The digits from i to 2i of a. */
  method NextDigits(m: array<int>, L: Room, i: nat, W: int)
    requires W >= 2 && i >= 1 && 2 * i <= L.n && L.Fits(m.Length) && L.Disjoint() && NormAt(m[..], L.a, L.n, W)
    modifies m
    ensures SameBut(old(m[..]), m[..], L.c, 2 * i) && Pow(W, i) > 0
    ensures Num(m[..], L.c, i, W) == (old(Num(m[..], L.a, L.n, W)) / Pow(W, i)) % Pow(W, i)
  {
    hide Num;
    hide Pow;
    hide NormAt;
    ghost var m0 := m[..];
    SecondPart(m0, L.a, i, L.n, W);
    Copy(m, L.c, L.a, 2 * i, W);
    ghost var m1 := m[..];
    WordsDown(m, L.c, i, W);
    CopiedPart(m0, m1, L.c, L.a, i, W);
    SameButTwice(m0, m1, m[..], L.c, 2 * i);
  }

  lemma SecondPart(m: seq<int>, a: nat, i: nat, n: nat, W: int)
    requires W >= 2 && 2 * i <= n && a + n <= |m| && NormAt(m, a, n, W)
    ensures Pow(W, i) > 0 && Num(m, a + i, i, W) == (Num(m, a, n, W) / Pow(W, i)) % Pow(W, i)
  {
    hide Num;
    hide Pow;
    HalvesOf(m, a, i, n, W);
    HalvesOf(m, a + i, i, n - i, W);
  }

  lemma CopiedPart(m: seq<int>, m': seq<int>, c: nat, a: nat, i: nat, W: int)
    requires |m| == |m'| && c + 2 * i <= |m| && a + 2 * i <= |m| && forall j :: c <= j < c + 2 * i ==> m'[j] == m[j - c + a]
    ensures Num(m', c + i, i, W) == Num(m, a + i, i, W)
  {
    assert m'[c + i..c + 2 * i] == m[a + i..a + 2 * i];
  }

  /** t + U*c, cut to i digits, times U: all modulo S, the value of i digits. */
  method Middle(m: array<int>, L: Room, i: nat, W: int, C: int)
    requires W >= 2 && C >= 1 && C % W == 0 && PowerOfTwo(i) && i >= 1 && 2 * i <= L.n && L.Fits(m.Length) && L.Disjoint()
    requires forall j :: L.t + i <= j < L.t + 2 * i ==> m[j] == 0
    modifies m
    ensures Inside(old(m[..]), m[..], L) && SameAt(old(m[..]), m[..], L.u, L.n) && Pow(W, i) > 0
    ensures Cong(Num(m[..], L.t, i, W),
                 (old(Num(m[..], L.t, 2 * i, W)) + old(Num(m[..], L.u, i, W)) * old(Num(m[..], L.c, i, W))) * old(Num(m[..], L.u, i, W)), Pow(W, i))
  {
    hide Num;
    hide Pow;
    hide Cong;
    hide NormAt;
    ghost var m0, S := m[..], Pow(W, i);
    ghost var b := AddProduct(m, L, i, W, C);
    ghost var m1 := m[..];
    NumAgree(m0, m1, L.u, i, W);
    KarMulLower(m, L.b, L.t, L.u, L.w, i, W, C);
    ghost var m2 := m[..];
    MiddleCong(Num(m2, L.b, i, W), Num(m1, L.t, i, W), Num(m0, L.t, 2 * i, W), b, Num(m0, L.u, i, W), Num(m0, L.c, i, W), S);
    Copy(m, L.t, L.b, i, W);
    InsideTwo(m1, m2, L.b, i, L.w, 2 * i, L);
    InsideOne(m2, m[..], L.t, i, L);
    InsideTrans(m0, m1, m2, L);
    InsideTrans(m0, m2, m[..], L);
  }

  /** t + U*c, cut to i digits; b stands for U*c. */
  method AddProduct(m: array<int>, L: Room, i: nat, W: int, C: int) returns (ghost b: int)
    requires W >= 2 && C >= 1 && C % W == 0 && PowerOfTwo(i) && i >= 1 && 2 * i <= L.n && L.Fits(m.Length) && L.Disjoint()
    requires forall j :: L.t + i <= j < L.t + 2 * i ==> m[j] == 0
    modifies m
    ensures Inside(old(m[..]), m[..], L) && SameAt(old(m[..]), m[..], L.u, L.n) && Pow(W, i) > 0
    ensures Cong(b, old(Num(m[..], L.u, i, W)) * old(Num(m[..], L.c, i, W)), Pow(W, i))
    ensures Num(m[..], L.t, i, W) == (old(Num(m[..], L.t, 2 * i, W)) + b) % Pow(W, i)
  {
    hide Num;
    hide Pow;
    hide Cong;
    hide NormAt;
    ghost var m0 := m[..];
    LowOnly(m0, L.t, i, W);
    KarMulLower(m, L.b, L.u, L.c, L.w, i, W, C);
    ghost var m1 := m[..];
    b := Num(m1, L.b, i, W);
    NumKept2(m0, m1, L.b, i, L.w, 2 * i, L.t, i, W);
    StillZero(m0, m1, L.b, i, L.w, 2 * i, L.t + i, i);
    InsideTwo(m0, m1, L.b, i, L.w, 2 * i, L);
    AddAndCut(m, L, i, W);
    InsideTrans(m0, m1, m[..], L);
  }

  /** t + b, cut to i digits. */
  method AddAndCut(m: array<int>, L: Room, i: nat, W: int)
    requires W >= 2 && i >= 1 && 2 * i <= L.n && L.Fits(m.Length) && L.Disjoint()
    requires forall j :: L.t + i <= j < L.t + 2 * i ==> m[j] == 0
    modifies m
    ensures Inside(old(m[..]), m[..], L) && SameAt(old(m[..]), m[..], L.u, L.n) && Pow(W, i) > 0
    ensures Num(m[..], L.t, i, W) == (old(Num(m[..], L.t, i, W)) + old(Num(m[..], L.b, i, W))) % Pow(W, i)
  {
    hide Num;
    hide Pow;
    hide NormAt;
    ghost var m1 := m[..];
    Add(m, L.t, L.t, L.b, i, W);
    ghost var m2 := m[..];
    StillZero2(m1, m2, L.t, i, L.t + i, i);
    LowOnly(m2, L.t, i, W);
    Normalise(m, L.t, 2 * i, W);
    ghost var m3 := m[..];
    NormLower(m3, L.t, i, 2 * i - 1, W);
    HalvesOf(m3, L.t, i, 2 * i, W);
    InsideOne(m1, m2, L.t, i, L);
    InsideOne(m2, m3, L.t, 2 * i, L);
    InsideTrans(m1, m2, m3, L);
  }

  lemma LowOnly(m: seq<int>, t: nat, i: nat, W: int)
    requires t + 2 * i <= |m| && forall j :: t + i <= j < t + 2 * i ==> m[j] == 0
    ensures Num(m, t, 2 * i, W) == Num(m, t, i, W)
  {
    hide Val;
    hide Pow;
    NumSplit(m, t, i, 2 * i, W);
    ValZero(m[t + i..t + 2 * i], W);
    assert Pow(W, i) * 0 == 0;
  }

  lemma StillZero(m: seq<int>, m': seq<int>, a: nat, k: nat, b: nat, j: nat, x: nat, i: nat)
    requires SameBut2(m, m', a, k, b, j) && x + i <= |m| && Apart(a, k, x, i) && Apart(b, j, x, i) && forall h :: x <= h < x + i ==> m[h] == 0
    ensures forall h :: x <= h < x + i ==> m'[h] == 0
  {}

  lemma StillZero2(m: seq<int>, m': seq<int>, a: nat, k: nat, x: nat, i: nat)
    requires SameBut(m, m', a, k) && x + i <= |m| && Apart(a, k, x, i) && forall h :: x <= h < x + i ==> m[h] == 0
    ensures forall h :: x <= h < x + i ==> m'[h] == 0
  {}

  lemma MiddleCong(e: int, s: int, t: int, b: int, U: int, c: int, S: int)
    requires S > 0 && Cong(b, U * c, S) && s == (t + b) % S && Cong(e, s * U, S)
    ensures Cong(e, (t + U * c) * U, S)
  {
    hide Cong;
    CongFrom(t, t, 0, S);
    CongAdd(t, t, b, U * c, S);
    CongMod(t + b, S);
    CongTrans(s, t + b, t + U * c, S);
    CongScale(s, t + U * c, U, S);
    CongTrans(e, s * U, (t + U * c) * U, S);
  }

  /** S less t, cut to i digits, moved up by i digits and added to U. */
  method Correct(m: array<int>, L: Room, i: nat, W: int)
    requires W >= 2 && i >= 1 && 2 * i <= L.n && L.Fits(m.Length) && L.Disjoint()
    requires forall j :: L.u + i <= j < L.u + 2 * i ==> m[j] == 0
    modifies m
    ensures Inside(old(m[..]), m[..], L) && Pow(W, i) > 0
    ensures forall j :: L.u + 2 * i <= j < L.u + L.n ==> m[j] == old(m[j])
    ensures Num(m[..], L.u, 2 * i, W) ==
      old(Num(m[..], L.u, i, W)) + Pow(W, i) * ((Pow(W, i) - old(Num(m[..], L.t, i, W))) % Pow(W, i))
  {
    hide Num;
    hide Pow;
    hide NormAt;
    ghost var m0 := m[..];
    LowOnly(m0, L.u, i, W);
    NegateUp(m, L, i, W);
    ghost var m1 := m[..];
    NumAgree(m0, m1, L.u, 2 * i, W);
    Add(m, L.u, L.u, L.t, 2 * i, W);
    InsideLast(m0, m1, m[..], i, L);
  }

  /** S less t, cut to i digits and moved up by i digits. */
  method NegateUp(m: array<int>, L: Room, i: nat, W: int)
    requires W >= 2 && i >= 1 && 2 * i <= L.n && L.Fits(m.Length) && L.Disjoint()
    modifies m
    ensures Inside(old(m[..]), m[..], L) && SameAt(old(m[..]), m[..], L.u, L.n) && Pow(W, i) > 0
    ensures Num(m[..], L.t, 2 * i, W) == Pow(W, i) * ((Pow(W, i) - old(Num(m[..], L.t, i, W))) % Pow(W, i))
  {
    hide Num;
    hide Pow;
    hide NormAt;
    ghost var m0, S := m[..], Pow(W, i);
    PowPos(W, i);
    OneUp(m, L.b, i, W);
    ghost var m1 := m[..];
    NumKept(m0, m1, L.b, 2 * i, L.t, i, W);
    NumSplit(m1, L.t, i, 2 * i, W);
    Sub(m, L.t, L.b, L.t, 2 * i, W);
    ghost var m2 := m[..];
    Normalise(m, L.t, 2 * i, W);
    ghost var m3 := m[..];
    NormLower(m3, L.t, i, 2 * i - 1, W);
    HalvesOf(m3, L.t, i, 2 * i, W);
    Negated(Num(m3, L.t, 2 * i, W), Num(m0, L.t, i, W), Num(m1, L.t + i, i, W), S);
    WordsUp(m, L.t, i, W);
    SameButTwice(m1, m2, m3, L.t, 2 * i);
    SameButTwice(m1, m3, m[..], L.t, 2 * i);
    InsideOne(m0, m1, L.b, 2 * i, L);
    InsideOne(m1, m[..], L.t, 2 * i, L);
    InsideTrans(m0, m1, m[..], L);
  }

  lemma Negated(v: int, e: int, carry: int, S: int)
    requires S > 0 && v == S - (e + S * carry)
    ensures v % S == (S - e) % S
  {
    assert S * carry == carry * S;
    CongFrom(S - e, v, carry, S);
  }

  /** MCL_FF_one and MCL_FF_shlw: b is S. */
  method OneUp(m: array<int>, b: nat, i: nat, W: int)
    requires i >= 1 && b + 2 * i <= m.Length
    modifies m
    ensures SameBut(old(m[..]), m[..], b, 2 * i) && Num(m[..], b, 2 * i, W) == Pow(W, i)
  {
    hide Num;
    hide Pow;
    ghost var m0 := m[..];
    FfOne(m, b, i, W);
    ghost var m1 := m[..];
    WordsUp(m, b, i, W);
    assert Pow(W, i) * 1 == Pow(W, i);
  }

  /** MCL_FF_one. */
  method FfOne(m: array<int>, x: nat, n: nat, W: int)
    requires n >= 1 && x + n <= m.Length
    modifies m
    ensures SameBut(old(m[..]), m[..], x, n) && Num(m[..], x, n, W) == 1
    ensures forall i :: x <= i < x + n ==> m[i] == if i == x then 1 else 0
  {
    hide Num;
    hide Pow;
    Zero(m, x, n, W);
    ghost var m1 := m[..];
    m[x] := 1;
    NumDelta(m1, m[..], x, n, 0, 1, W);
    SingleValue(m1, x, W);
    SingleValue(m[..], x, W);
    PowOneIs(W);
  }

  lemma PowOneIs(W: int)
    ensures Pow(W, 0) == 1
  {}

  // ----- the rounds -----------------------------------------------------------------------------------------

  /** At i digits: U inverts a modulo S = W^i, and its digits from i on are zero. */
  ghost predicate Inverts(m: seq<int>, L: Room, i: nat, A: int, W: int)
    requires L.Fits(|m|)
  {
    i <= L.n && NormAt(m, L.a, L.n, W) && Num(m, L.a, L.n, W) == A && Num(m, L.u, i, W) >= 0 && Pow(W, i) > 0 &&
    Cong(Num(m, L.u, i, W) * A, 1, Pow(W, i)) && forall j :: L.u + i <= j < L.u + L.n ==> m[j] == 0
  }

  /** One round: twice as many digits are right. */
  method Round(m: array<int>, L: Room, i: nat, W: int, C: int, ghost A: int)
    requires W >= 2 && C >= 1 && C % W == 0 && PowerOfTwo(i) && i >= 1 && 2 * i <= L.n && L.Fits(m.Length) && L.Disjoint()
    requires Inverts(m[..], L, i, A, W)
    modifies m
    ensures Inside(old(m[..]), m[..], L) && Inverts(m[..], L, 2 * i, A, W)
  {
    hide Num;
    hide Pow;
    hide Cong;
    hide NormAt;
    hide Inside;
    hide SameAt;
    ghost var m0, S := m[..], Pow(W, i);
    ghost var U := Num(m0, L.u, i, W);
    Products(m, L, i, W, C, A, U);
    ghost var m2 := m[..];
    KeptInside(m0, m2, L, i, W);
    Middle(m, L, i, W, C);
    ghost var m3 := m[..];
    InsideTrans(m0, m2, m3, L);
    KeptInside(m0, m3, L, i, W);
    Correct(m, L, i, W);
    ghost var m4 := m[..];
    InsideTrans(m0, m3, m4, L);
    NumberKept(m0, m4, L, W);
    NumBound(m0, L.a, L.n, W);
    Lifted(U, Num(m4, L.u, 2 * i, W), A, Num(m3, L.t, i, W), S, W, i);
  }

  /** What the round needs of U and a: the upper half of U times the lower digits, and the next digits. */
  method Products(m: array<int>, L: Room, i: nat, W: int, C: int, ghost A: int, ghost U: int)
    requires W >= 2 && C >= 1 && PowerOfTwo(i) && i >= 1 && 2 * i <= L.n && L.Fits(m.Length) && L.Disjoint()
    requires NormAt(m[..], L.a, L.n, W) && Num(m[..], L.a, L.n, W) == A && Num(m[..], L.u, i, W) == U
    modifies m
    ensures Inside(old(m[..]), m[..], L) && SameAt(old(m[..]), m[..], L.u, L.n) && Pow(W, i) > 0
    ensures Num(m[..], L.t, 2 * i, W) == U * (A % Pow(W, i)) / Pow(W, i) && Num(m[..], L.c, i, W) == A / Pow(W, i) % Pow(W, i)
    ensures forall j :: L.t + i <= j < L.t + 2 * i ==> m[j] == 0
  {
    hide Num;
    hide Pow;
    hide NormAt;
    ghost var m0 := m[..];
    UpperOfProduct(m, L, i, W, C);
    ghost var m1 := m[..];
    KeptInside(m0, m1, L, i, W);
    NextDigits(m, L, i, W);
    InsideOne(m1, m[..], L.c, 2 * i, L);
    InsideTrans(m0, m1, m[..], L);
    NumKept(m1, m[..], L.c, 2 * i, L.t, 2 * i, W);
  }

  lemma NumberKept(m: seq<int>, m': seq<int>, L: Room, W: int)
    requires Inside(m, m', L) && L.Fits(|m|) && L.Disjoint() && NormAt(m, L.a, L.n, W)
    ensures NormAt(m', L.a, L.n, W) && Num(m', L.a, L.n, W) == Num(m, L.a, L.n, W)
  {
    assert m'[L.a..L.a + L.n] == m[L.a..L.a + L.n];
    forall j | L.a <= j < L.a + L.n ensures m'[j] == m[j] {}
  }

  lemma KeptInside(m: seq<int>, m': seq<int>, L: Room, i: nat, W: int)
    requires Inside(m, m', L) && SameAt(m, m', L.u, L.n) && L.Fits(|m|) && L.Disjoint() && NormAt(m, L.a, L.n, W) && i <= L.n
    ensures NormAt(m', L.a, L.n, W) && Num(m', L.a, L.n, W) == Num(m, L.a, L.n, W) && Num(m', L.u, i, W) == Num(m, L.u, i, W)
    ensures (forall j :: L.u + i <= j < L.u + L.n ==> m[j] == 0) ==> forall j :: L.u + i <= j < L.u + L.n ==> m'[j] == 0
  {
    NumberKept(m, m', L, W);
    assert m'[L.u..L.u + i] == m[L.u..L.u + i];
  }

  lemma Lifted(U: int, V: int, A: int, e: int, S: int, W: int, i: nat)
    requires W >= 2 && i >= 1 && S == Pow(W, i) > 0 && A >= 0 && U >= 0 && Cong(U * A, 1, S)
    requires Cong(e, (U * (A % S) / S + U * (A / S % S)) * U, S) && V == U + S * ((S - e) % S)
    ensures Pow(W, 2 * i) > 0 && V >= 0 && Cong(V * A, 1, Pow(W, 2 * i))
  {
    hide Cong;
    PowAdd(W, i, i);
    PowPos(W, 2 * i);
    BaseAtLeast(W, i);
    Chunks(U, A, S);
    CongMod(S - e, S);
    CongFrom(S - e, -e, 1, S);
    CongTrans((S - e) % S, S - e, -e, S);
    LiftStep(U, A, A % S, A / S % S, A / S / S, U * (A % S) / S, e, (S - e) % S, S);
    MulMono(0, S, (S - e) % S);
  }

  lemma BaseAtLeast(W: int, i: nat)
    requires W >= 2 && i >= 1
    ensures Pow(W, i) >= 2
  {
    hide Pow;
    PowSucc(W, i - 1);
    PowPos(W, i - 1);
    MulMono(1, Pow(W, i - 1), W);
  }

  /** FF_invmod2m for digits of bits bits, bits a power of two, and an odd number; the array at u gets the inverse modulo R. */
  method FfInvMod2m(m: array<int>, L: Room, ghost k: nat, bits: nat, W: int, C: int, ghost A: int)
    requires k >= 3 && bits == Pow(2, k) && W >= 2 && W == Pow(2, bits) && C >= 8 * W && C % W == 0
    requires PowerOfTwo(L.n) && L.n >= 1 && L.Fits(m.Length) && L.Disjoint()
    requires NormAt(m[..], L.a, L.n, W) && Num(m[..], L.a, L.n, W) == A && m[L.a] % 2 == 1
    modifies m
    ensures Inside(old(m[..]), m[..], L) && NormAt(m[..], L.a, L.n, W) && Num(m[..], L.a, L.n, W) == A
    ensures Num(m[..], L.u, L.n, W) >= 0 && Pow(W, L.n) > 0 && Cong(Num(m[..], L.u, L.n, W) * A, 1, Pow(W, L.n))
  {
    hide Num;
    hide Pow;
    hide Cong;
    hide NormAt;
    hide Inverts;
    ghost var m0 := m[..];
    FirstDigit(m, L, k, bits, W, C, A);
    var i := 1;
    while i < L.n
      invariant 1 <= i <= L.n && PowerOfTwo(i) && Inside(m0, m[..], L) && Inverts(m[..], L, i, A, W)
      decreases L.n - i
    {
      ghost var m1 := m[..];
      TwiceFits(i, L.n);
      Round(m, L, i, W, C, A);
      InsideTrans(m0, m1, m[..], L);
      i := 2 * i;
    }
    ghost var m1 := m[..];
    InvertsIs(m1, L, A, W);
    Normalise(m, L.u, L.n, W);
    InverseKept(m0, m1, m[..], L, W);
  }

  lemma InvertsIs(m: seq<int>, L: Room, A: int, W: int)
    requires L.Fits(|m|) && Inverts(m, L, L.n, A, W)
    ensures NormAt(m, L.a, L.n, W) && Num(m, L.a, L.n, W) == A && Num(m, L.u, L.n, W) >= 0 && Pow(W, L.n) > 0
    ensures Cong(Num(m, L.u, L.n, W) * A, 1, Pow(W, L.n))
  {}

  lemma InverseKept(m0: seq<int>, m1: seq<int>, m2: seq<int>, L: Room, W: int)
    requires Inside(m0, m1, L) && SameBut(m1, m2, L.u, L.n) && L.Fits(|m0|) && L.Disjoint() && NormAt(m1, L.a, L.n, W)
    ensures Inside(m0, m2, L) && NormAt(m2, L.a, L.n, W) && Num(m2, L.a, L.n, W) == Num(m1, L.a, L.n, W)
  {
    assert m2[L.a..L.a + L.n] == m1[L.a..L.a + L.n];
    forall j | L.a <= j < L.a + L.n ensures m2[j] == m1[j] {}
  }

  lemma {:induction false} TwiceFits(i: nat, n: nat)
    requires PowerOfTwo(i) && PowerOfTwo(n) && i < n
    ensures 2 * i <= n && PowerOfTwo(2 * i)
    decreases n
  {
    assert (2 * i) / 2 == i;
    if i > 1 { TwiceFits(i / 2, n / 2); }
  }

  /** The first digit, by MCL_BIG_invmod2m; the others zero. */
  method FirstDigit(m: array<int>, L: Room, ghost k: nat, bits: nat, W: int, C: int, ghost A: int)
    requires k >= 3 && bits == Pow(2, k) && W >= 2 && W == Pow(2, bits) && C >= 8 * W && L.n >= 1 && L.Fits(m.Length) && L.Disjoint()
    requires NormAt(m[..], L.a, L.n, W) && Num(m[..], L.a, L.n, W) == A && m[L.a] % 2 == 1
    modifies m
    ensures Inside(old(m[..]), m[..], L) && Inverts(m[..], L, 1, A, W)
  {
    hide Num;
    hide Pow;
    hide Cong;
    ghost var m0 := m[..];
    Zero(m, L.u, L.n, W);
    m[L.u] := InvMod2m(m[L.a], k, bits, C);
    InsideFirst(m0, m[..], L);
    NumberKept(m0, m[..], L, W);
    SingleValue(m[..], L.u, W);
    LowDigit(m0, L.a, L.n, W);
    PowOneOf(W);
    InverseOfLow(m[L.u], m0[L.a], A, W);
  }

  lemma PowOneOf(W: int)
    ensures Pow(W, 1) == W
  {
    assert Pow(W, 0) == 1;
  }

  lemma InsideFirst(m: seq<int>, m': seq<int>, L: Room)
    requires SameBut(m, m', L.u, L.n)
    ensures Inside(m, m', L)
  {}

  lemma LowDigit(m: seq<int>, a: nat, n: nat, W: int)
    requires W >= 2 && n >= 1 && a + n <= |m| && NormAt(m, a, n, W)
    ensures m[a] == Num(m, a, n, W) % W && Num(m, a, n, W) >= 0
  {
    hide Num;
    hide Pow;
    NumBound(m, a, n, W);
    HalvesOf(m, a, 1, n, W);
    SingleValue(m, a, W);
    PowOneOf(W);
  }

  lemma InverseOfLow(U: int, a: int, A: int, W: int)
    requires W >= 2 && a == A % W && Cong(U * a, 1, W)
    ensures Cong(U * A, 1, W)
  {
    hide Cong;
    CongMod(A, W);
    CongScale(a, A, U, W);
    CongSymTrans(U * a, U * A, 1, W);
  }

  // ----- what is kept --------------------------------------------------------------------------------------

  /** Only the inverse and the local arrays may have changed. */
  ghost predicate Inside(m: seq<int>, m': seq<int>, L: Room) {
    |m| == |m'| && forall j | 0 <= j < |m| ::
      L.u <= j < L.u + L.n || L.t <= j < L.t + L.n || L.b <= j < L.b + L.n || L.c <= j < L.c + L.n || L.w <= j < L.w + 2 * L.n ||
      m[j] == m'[j]
  }

  ghost predicate SameAt(m: seq<int>, m': seq<int>, x: nat, n: nat) {
    |m| == |m'| && forall j | x <= j < x + n && j < |m| :: m[j] == m'[j]
  }

  lemma InsideTrans(m: seq<int>, m1: seq<int>, m2: seq<int>, L: Room)
    requires Inside(m, m1, L) && Inside(m1, m2, L)
    ensures Inside(m, m2, L) && (SameAt(m, m1, L.u, L.n) && SameAt(m1, m2, L.u, L.n) ==> SameAt(m, m2, L.u, L.n))
  {}

  lemma InsideOne(m: seq<int>, m': seq<int>, x: nat, k: nat, L: Room)
    requires SameBut(m, m', x, k) && k <= L.n && (x == L.t || x == L.b || x == L.c) && L.Disjoint()
    ensures Inside(m, m', L) && SameAt(m, m', L.u, L.n)
  {}

  lemma InsideTwo(m: seq<int>, m': seq<int>, x: nat, k: nat, w: nat, j: nat, L: Room)
    requires SameBut2(m, m', x, k, w, j) && k <= L.n && (x == L.t || x == L.b) && w == L.w && j <= 2 * L.n && L.Disjoint()
    ensures Inside(m, m', L) && SameAt(m, m', L.u, L.n)
  {}

  lemma InsideLast(m: seq<int>, m1: seq<int>, m2: seq<int>, i: nat, L: Room)
    requires Inside(m, m1, L) && SameAt(m, m1, L.u, L.n) && SameBut(m1, m2, L.u, 2 * i) && 2 * i <= L.n && L.Fits(|m|)
    ensures Inside(m, m2, L) && forall j :: L.u + 2 * i <= j < L.u + L.n ==> m2[j] == m[j]
  {}
}
