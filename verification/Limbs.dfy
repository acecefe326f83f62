/** Operations of the BIG layer on limb arrays in base B = 2^k: normalising, multiplying by a small number, shifting, splitting. */
module Limbs {
  import opened Arith
  import opened Bits
  import opened Digits
  import opened RsaArithmetic

  /** MCL_BIG_norm: carries are moved up, the last limb keeps the excess. */
  method NormLimbs(a: array<int>, n: nat, B: int)
    requires B >= 2 && n >= 1 && a.Length == n
    modifies a
    ensures Val(a[..], B) == old(Val(a[..], B)) && Norm(a[..n - 1], B)
  {
    hide Val;
    hide Pow;
    hide RowSum;
    ghost var s := a[..];
    var carry := 0;
    RowSumEmpty(a[..0], s[..0], 0, s[..0], B);
    for i := 0 to n - 1
      invariant Norm(a[..i], B) && forall k :: i <= k < n ==> a[k] == s[k]
      invariant RowSum(a[..i], carry, s[..i], 0, s[..i], B)
    {
      ghost var low := a[..i];
      var d := a[i] + carry;
      RowSumStep(low, carry, s[..i], 0, s[..i], s[i], s[i], d % B, d / B, B);
      a[i] := d % B;
      carry := d / B;
      assert a[..i + 1] == low + [a[i]] && s[..i + 1] == s[..i] + [s[i]];
    }
    ghost var low := a[..n - 1];
    LastCarry(low, carry, s, B);
    a[n - 1] := a[n - 1] + carry;
    assert a[..] == low + [s[n - 1] + carry] && a[..n - 1] == low;
  }

  lemma LastCarry(low: seq<int>, carry: int, s: seq<int>, B: int)
    requires |s| == |low| + 1 && RowSum(low, carry, s[..|low|], 0, s[..|low|], B)
    ensures Val(low + [s[|low|] + carry], B) == Val(s, B)
  {
    hide Val;
    hide Pow;
    var n := |low|;
    ValSnoc(low, s[n] + carry, B);
    assert s == s[..n] + [s[n]];
    ValSnoc(s[..n], s[n], B);
    Distribute(s[n], carry, Pow(B, n));
  }

  lemma Distribute(a: int, b: int, p: int)
    ensures (a + b) * p == a * p + b * p
  {}

  /** MCL_BIG_imul: every limb times c, without carries. */
  method Imul(a: array<int>, c: int, n: nat, B: int)
    requires a.Length == n
    modifies a
    ensures Val(a[..], B) == c * old(Val(a[..], B))
  {
    ghost var s := a[..];
    for i := 0 to n
      invariant forall k :: 0 <= k < i ==> a[k] == c * s[k]
      invariant forall k :: i <= k < n ==> a[k] == s[k]
    {
      a[i] := a[i] * c;
    }
    ScaledVal(a[..], s, c, B);
  }

  lemma {:induction false} ScaledVal(a: seq<int>, s: seq<int>, c: int, B: int)
    requires |a| == |s| && forall k :: 0 <= k < |s| ==> a[k] == c * s[k]
    ensures Val(a, B) == c * Val(s, B)
    decreases |s|
  {
    if |s| > 0 {
      var n := |s| - 1;
      ScaledVal(a[..n], s[..n], c, B);
      ScaledDigit(c, s[n], Val(s[..n], B), Pow(B, n));
    }
  }

  lemma ScaledDigit(c: int, d: int, v: int, p: int)
    ensures c * v + (c * d) * p == c * (v + d * p)
  {}

  /** MCL_BIG_pmul with the carry of MCL_muladd: the product in n normalised limbs and a carry above them. */
  method Pmul(a: array<int>, c: int, n: nat, B: int) returns (carry: int)
    requires B >= 2 && a.Length == n && c >= 0 && Norm(a[..], B)
    modifies a
    ensures Norm(a[..], B) && Val(a[..], B) + carry * Pow(B, n) == c * old(Val(a[..], B))
  {
    hide Val;
    hide Pow;
    hide RowSum;
    ghost var s, z := a[..], seq(n, _ => 0);
    carry := 0;
    RowSumEmpty(a[..0], z[..0], c, s[..0], B);
    for i := 0 to n
      invariant Norm(a[..i], B) && forall k :: i <= k < n ==> a[k] == s[k]
      invariant RowSum(a[..i], carry, z[..i], c, s[..i], B)
    {
      ghost var low := a[..i];
      var prod := a[i] * c + carry;
      RowSumStep(low, carry, z[..i], c, s[..i], s[i], 0, prod % B, prod / B, B);
      a[i] := prod % B;
      carry := prod / B;
      assert a[..i + 1] == low + [a[i]] && s[..i + 1] == s[..i] + [s[i]] && z[..i + 1] == z[..i] + [0];
    }
    assert a[..n] == a[..] && s[..n] == s && z[..n] == z;
    ValZero(z, B);
    RowSumScaled(a[..], carry, z, c, s, B);
  }

  lemma RowSumScaled(a: seq<int>, carry: int, z: seq<int>, c: int, s: seq<int>, B: int)
    requires RowSum(a, carry, z, c, s, B) && Val(z, B) == 0
    ensures Val(a, B) + carry * Pow(B, |a|) == c * Val(s, B)
  {}

  /** c = a + b, limb by limb. */
  method AddLimbs(c: array<int>, a: array<int>, b: array<int>, n: nat, B: int)
    requires a.Length == b.Length == c.Length == n
    modifies c
    ensures Val(c[..], B) == old(Val(a[..], B)) + old(Val(b[..], B))
  {
    ghost var s, t := a[..], b[..];
    for i := 0 to n
      invariant forall k :: 0 <= k < i ==> c[k] == s[k] + t[k]
      invariant forall k :: i <= k < n ==> a[k] == s[k] && b[k] == t[k]
    {
      c[i] := a[i] + b[i];
    }
    ValAdd(s, t, c[..], B);
  }

  // ----- shifting left ------------------------------------------------------------------------------

  /** The base cut into P below and Q above. */
  ghost predicate CutBase(P: int, Q: int, B: int) { P >= 1 && Q >= 1 && P * Q == B }

  /** One limb of a left shift by P: the low part of x moved up, and the top part of the limb below it. */
  function ShiftedLimb(x: int, below: int, P: int, Q: int): int
    requires Q > 0
  {
    x % Q * P + below / Q
  }

  lemma LimbShift(x: int, P: int, Q: int, B: int)
    requires CutBase(P, Q, B)
    ensures x % Q * P + x / Q * B == P * x && (x * P) % B == x % Q * P
  {
    var h, l := x / Q, x % Q;
    assert x == h * Q + l;
    assert h * B == P * (h * Q) by { assert h * (P * Q) == P * (h * Q); }
    assert P * x == P * (h * Q) + P * l;
    assert P * l == l * P;
    MulMono(0, l, P);
    MulMono(l, Q - 1, P);
    assert (Q - 1) * P == P * Q - P;
    DivModUnique(x * P, h, l * P, B) by { assert x * P == P * x; }
  }

  /** u is s shifted left by P inside its limbs, the top limb unmasked. */
  ghost predicate BitShifted(u: seq<int>, s: seq<int>, P: int, Q: int) {
    |u| == |s| >= 2 && Q > 0 && u[0] == s[0] % Q * P &&
    (forall i :: 0 < i < |s| - 1 ==> u[i] == ShiftedLimb(s[i], s[i - 1], P, Q)) &&
    u[|s| - 1] == s[|s| - 1] * P + s[|s| - 2] / Q
  }

  lemma {:induction false} ShiftRun(u: seq<int>, s: seq<int>, j: nat, P: int, Q: int, B: int)
    requires BitShifted(u, s, P, Q) && CutBase(P, Q, B) && 0 < j < |s|
    ensures Val(u[..j], B) + s[j - 1] / Q * Pow(B, j) == P * Val(s[..j], B)
    decreases j
  {
    hide Val;
    hide Pow;
    LimbShift(s[j - 1], P, Q, B);
    ValPrefix(u, j - 1, B);
    ValPrefix(s, j - 1, B);
    PowSucc(B, j - 1);
    if j == 1 {
      assert u[..0] == [] && s[..0] == [];
      ValEmpty(B);
      ShiftRunStep(0, u[0], s[0] / Q, 0, 0, s[0], Pow(B, 0), P, B);
    } else {
      ShiftRun(u, s, j - 1, P, Q, B);
      ShiftRunStep(Val(u[..j - 1], B), u[j - 1], s[j - 1] / Q, s[j - 2] / Q, Val(s[..j - 1], B), s[j - 1], Pow(B, j - 1), P, B);
    }
  }

  lemma ShiftRunStep(v: int, u: int, c': int, c: int, w: int, x: int, p: int, P: int, B: int)
    requires v + c * p == P * w && u + c' * B == P * x + c
    ensures v + u * p + c' * (B * p) == P * (w + x * p)
  {
    assert (u + c' * B) * p == u * p + c' * (B * p);
    assert (P * x + c) * p == P * (x * p) + c * p;
    assert P * (w + x * p) == P * w + P * (x * p);
  }

  lemma ShiftValue(u: seq<int>, s: seq<int>, P: int, Q: int, B: int)
    requires BitShifted(u, s, P, Q) && CutBase(P, Q, B)
    ensures Val(u, B) == P * Val(s, B)
  {
    hide Val;
    hide Pow;
    var n := |s| - 1;
    ShiftRun(u, s, n, P, Q, B);
    assert u[..n + 1] == u && s[..n + 1] == s;
    ValPrefix(u, n, B);
    ValPrefix(s, n, B);
    TopShift(Val(u[..n], B), u[n], s[n - 1] / Q, Val(s[..n], B), s[n], Pow(B, n), P);
  }

  lemma TopShift(v: int, u: int, c: int, w: int, x: int, p: int, P: int)
    requires v + c * p == P * w && u == x * P + c
    ensures v + u * p == P * (w + x * p)
  {
    assert (x * P + c) * p == P * (x * p) + c * p;
    assert P * (w + x * p) == P * w + P * (x * p);
  }

  ghost function ShiftBits(s: seq<int>, P: int, Q: int): (u: seq<int>)
    requires |s| >= 2 && Q > 0
    ensures |u| == |s|
  {
    seq(|s|, i requires 0 <= i < |s| =>
      if i == 0 then s[0] % Q * P else if i < |s| - 1 then ShiftedLimb(s[i], s[i - 1], P, Q) else s[i] * P + s[i - 1] / Q)
  }

  lemma ShiftBitsShifts(s: seq<int>, P: int, Q: int)
    requires |s| >= 2 && Q > 0
    ensures BitShifted(ShiftBits(s, P, Q), s, P, Q)
  {
    hide ShiftedLimb;
  }

  /** The bits of one limb put together with or; x may be a masked or an unmasked multiple of P. */
  lemma OrLimb(x: int, y: int, e: nat)
    requires x >= 0 && 0 <= y < Two(e)
    ensures x * Two(e) >= 0 && Or(x * Two(e), y) == x * Two(e) + y
  {
    MulMono(0, x, Two(e));
    OrDisjoint(x, y, e);
  }

  lemma TopPart(x: int, P: int, Q: int, B: int)
    requires CutBase(P, Q, B) && 0 <= x < B
    ensures 0 <= x / Q < P
  {
    var h := x / Q;
    assert x == h * Q + x % Q;
    assert P * Q == Q * P;
    if h >= P { MulMono(P, h, Q); }
    if h < 0 { MulMono(h, -1, Q); }
  }

  lemma Cut(k: nat, e: nat)
    requires e <= k
    ensures CutBase(Two(e), Two(k - e), Two(k)) && CutBase(Two(k - e), Two(e), Two(k))
  {
    hide Pow;
    PowAdd(2, e, k - e);
  }

  /** v' is v times 2^(w*k + e). */
  ghost predicate IsShift(v': int, v: int, w: nat, e: nat, k: nat) { v' == Pow(Two(k), w) * (Two(e) * v) }

  /** MCL_BIG_shl and MCL_BIG_dshl by e bits and w whole limbs; the w limbs that would be lost are zero. */
  method Shl(a: array<int>, w: nat, e: nat, k: nat, n: nat)
    requires a.Length == n && w + 2 <= n && e < k && Norm(a[..n - w - 1], Two(k)) && a[n - w - 1] >= 0
    requires forall i :: n - w <= i < n ==> a[i] == 0
    modifies a
    ensures IsShift(Val(a[..], Two(k)), old(Val(a[..], Two(k))), w, e, k)
    ensures Norm(a[..n - 1], Two(k)) && a[n - 1] >= 0
  {
    hide *;
    ghost var s0 := a[..];
    var P, Q, B := Two(e), Two(k - e), Two(k);
    Cut(k, e);
    ghost var s, z := s0[..n - w], seq(w, _ => 0);
    ghost var u := ShiftBits(s, P, Q);
    ShiftBitsShifts(s, P, Q);
    assert s[..n - w - 1] == a[..n - w - 1] && s[n - w - 1] == a[n - w - 1];
    ShiftInPlace(a, w, e, P, Q, B, n, s, u);
    assert a[..] == z + u;
    ShiftedAll(a[..], s0, z, s, u, Q, w, e, k);
    ShiftedRange(s, u, P, Q, B, e);
    PaddedNorm(z, u, B);
    assert a[..n - 1] == (z + u)[..n - 1] && a[n - 1] == (z + u)[n - 1];
  }

  lemma PaddedNorm(z: seq<int>, u: seq<int>, B: int)
    requires |u| >= 1 && B > 0 && (forall i :: 0 <= i < |z| ==> z[i] == 0) && Norm(u[..|u| - 1], B)
    ensures Norm((z + u)[..|z + u| - 1], B) && (z + u)[|z + u| - 1] == u[|u| - 1]
  {
    forall i | 0 <= i < |z + u| - 1 ensures 0 <= (z + u)[i] < B {
      if i >= |z| { assert (z + u)[i] == u[..|u| - 1][i - |z|]; }
    }
  }

  /** Its limb moves, from the top down. */
  method ShiftInPlace(a: array<int>, w: nat, e: nat, P: int, Q: int, B: int, n: nat, ghost s: seq<int>, ghost u: seq<int>)
    requires a.Length == n && w + 2 <= n && BitShifted(u, s, P, Q) && CutBase(P, Q, B) && P == Two(e) && Q > 0 && B > 0
    requires |s| == |u| == n - w && s == a[..n - w] && Norm(s[..|s| - 1], B) && s[|s| - 1] >= 0
    modifies a
    ensures forall j :: 0 <= j < w ==> a[j] == 0
    ensures forall j :: w <= j < n ==> a[j] == u[j - w]
  {
    hide BitShifted;
    hide CutBase;
    hide Or;
    hide Pow;
    hide Norm;
    ghost var s0 := a[..];
    ShiftedTop(s, u, P, Q, B, e);
    a[n - 1] := Or(a[n - 1 - w] * P, a[n - w - 2] / Q);
    var i := n - 2;
    while i > w
      invariant w <= i <= n - 2
      invariant forall j :: i < j < n ==> a[j] == u[j - w]
      invariant forall j :: 0 <= j <= i ==> a[j] == s0[j]
    {
      ShiftedMiddle(s, u, i - w, P, Q, B, e);
      assert a[i - w] == s[i - w] && a[i - w - 1] == s[i - w - 1];
      a[i] := Or(a[i - w] * P % B, a[i - w - 1] / Q);
      i := i - 1;
    }
    ShiftedFirst(s, u, P, Q, B);
    a[w] := a[0] * P % B;
    for j := 0 to w
      invariant forall x :: 0 <= x < j ==> a[x] == 0
      invariant forall x :: w <= x < n ==> a[x] == u[x - w]
    {
      a[j] := 0;
    }
  }

  lemma ShiftedRange(s: seq<int>, u: seq<int>, P: int, Q: int, B: int, e: nat)
    requires BitShifted(u, s, P, Q) && CutBase(P, Q, B) && P == Two(e) && Norm(s[..|s| - 1], B) && s[|s| - 1] >= 0
    ensures B > 0 && Norm(u[..|u| - 1], B) && u[|u| - 1] >= 0
  {
    hide Pow;
    hide Or;
    assert |u| == |s| >= 2;
    ShiftedTop(s, u, P, Q, B, e);
    ShiftedFirst(s, u, P, Q, B);
    forall i | 0 <= i < |u| - 1 ensures 0 <= u[i] < B {
      if i > 0 { ShiftedMiddle(s, u, i, P, Q, B, e); }
    }
  }

  lemma ShiftedTop(s: seq<int>, u: seq<int>, P: int, Q: int, B: int, e: nat)
    requires BitShifted(u, s, P, Q) && CutBase(P, Q, B) && P == Two(e) && Norm(s[..|s| - 1], B) && s[|s| - 1] >= 0
    ensures var n := |s|;
      s[n - 1] * P >= 0 && s[n - 2] / Q >= 0 && u[n - 1] == Or(s[n - 1] * P, s[n - 2] / Q) && u[n - 1] >= 0
  {
    hide Or;
    hide Pow;
    var n := |s|;
    assert s[..n - 1][n - 2] == s[n - 2];
    TopPart(s[n - 2], P, Q, B);
    OrLimb(s[n - 1], s[n - 2] / Q, e);
  }

  lemma ShiftedMiddle(s: seq<int>, u: seq<int>, i: nat, P: int, Q: int, B: int, e: nat)
    requires BitShifted(u, s, P, Q) && CutBase(P, Q, B) && P == Two(e) && Norm(s[..|s| - 1], B) && 0 < i < |s| - 1
    ensures B > 0 && s[i] * P % B >= 0 && s[i - 1] / Q >= 0 && u[i] == Or(s[i] * P % B, s[i - 1] / Q) && 0 <= u[i] < B
  {
    hide Or;
    hide Pow;
    var n := |s|;
    assert s[..n - 1][i] == s[i] && s[..n - 1][i - 1] == s[i - 1];
    TopPart(s[i - 1], P, Q, B);
    LimbShift(s[i], P, Q, B);
    OrLimb(s[i] % Q, s[i - 1] / Q, e);
    MulMono(s[i] % Q, Q - 1, P);
    assert (Q - 1) * P == P * Q - P;
  }

  lemma ShiftedFirst(s: seq<int>, u: seq<int>, P: int, Q: int, B: int)
    requires BitShifted(u, s, P, Q) && CutBase(P, Q, B)
    ensures B > 0 && u[0] == s[0] * P % B && 0 <= u[0] < B
  {
    LimbShift(s[0], P, Q, B);
    MulMono(1, P, Q);
  }

  lemma ShiftedAll(a: seq<int>, s0: seq<int>, z: seq<int>, s: seq<int>, u: seq<int>, Q: int, w: nat, e: nat, k: nat)
    requires BitShifted(u, s, Two(e), Q) && CutBase(Two(e), Q, Two(k)) && a == z + u && |s0| == |a| && s == s0[..|u|] && |z| == w
    requires (forall i :: 0 <= i < |z| ==> z[i] == 0) && forall i :: |u| <= i < |s0| ==> s0[i] == 0
    ensures IsShift(Val(a, Two(k)), Val(s0, Two(k)), w, e, k)
  {
    hide Val;
    hide Pow;
    hide BitShifted;
    var B := Two(k);
    ShiftValue(u, s, Two(e), Q, B);
    ValConcat(z, u, B);
    ValZero(z, B);
    ValPad(s0, |u|, B);
  }

  // ----- MCL_BIG_split ------------------------------------------------------------------------------

  /** t is e shifted right by T inside its limbs; e has one limb more, which goes unmasked into the top of t. */
  ghost predicate BitsDropped(t: seq<int>, e: seq<int>, T: int, Q: int) {
    |t| >= 2 && |e| == |t| + 1 && T > 0 &&
    (forall j :: 0 <= j < |t| - 1 ==> t[j] == e[j] / T + e[j + 1] % T * Q) &&
    t[|t| - 1] == e[|t| - 1] / T + e[|t|] * Q
  }

  lemma DroppedLimb(x: int, y: int, T: int, Q: int, B: int)
    requires CutBase(T, Q, B)
    ensures T * (x / T + y * Q) == x - x % T + y * B
  {
    assert x == x / T * T + x % T;
    assert T * (x / T + y * Q) == T * (x / T) + y * (T * Q);
  }

  lemma {:induction false} DropRun(t: seq<int>, e: seq<int>, j: nat, T: int, Q: int, B: int)
    requires BitsDropped(t, e, T, Q) && CutBase(T, Q, B) && j < |t|
    ensures T * Val(t[..j], B) + e[0] % T == Val(e[..j], B) + e[j] % T * Pow(B, j)
    decreases j
  {
    hide Val;
    hide Pow;
    if j == 0 {
      assert t[..0] == [] && e[..0] == [];
      ValEmpty(B);
    } else {
      DropRun(t, e, j - 1, T, Q, B);
      DroppedLimb(e[j - 1], e[j] % T, T, Q, B);
      ValPrefix(t, j - 1, B);
      ValPrefix(e, j - 1, B);
      PowSucc(B, j - 1);
      DropStep(T, Val(t[..j - 1], B), Val(e[..j - 1], B), e[0] % T, e[j - 1] % T, e[j] % T, t[j - 1], e[j - 1], Pow(B, j - 1), B);
    }
  }

  lemma DropStep(T: int, v: int, w: int, r: int, c: int, c': int, t: int, x: int, p: int, B: int)
    requires T * v + r == w + c * p && T * t == x - c + c' * B
    ensures T * (v + t * p) + r == w + x * p + c' * (B * p)
  {
    assert T * (v + t * p) == T * v + T * t * p;
    assert (x - c + c' * B) * p == x * p - c * p + c' * (B * p);
  }

  lemma DropValue(t: seq<int>, e: seq<int>, T: int, Q: int, B: int)
    requires BitsDropped(t, e, T, Q) && CutBase(T, Q, B)
    ensures T * Val(t, B) + e[0] % T == Val(e, B)
  {
    hide Val;
    hide Pow;
    var n := |t| - 1;
    DropRun(t, e, n, T, Q, B);
    TopLimbDropped(t, e, T, Q, B);
    hide BitsDropped;
    hide CutBase;
    assert t[..n + 1] == t && e[..n + 2] == e;
    ValPrefix(t, n, B);
    ValPrefix(e, n, B);
    ValPrefix(e, n + 1, B);
    PowSucc(B, n);
    DropStep(T, Val(t[..n], B), Val(e[..n], B), e[0] % T, e[n] % T, e[n + 1], t[n], e[n], Pow(B, n), B);
  }

  lemma TopLimbDropped(t: seq<int>, e: seq<int>, T: int, Q: int, B: int)
    requires BitsDropped(t, e, T, Q) && CutBase(T, Q, B)
    ensures |t| >= 2 && |e| == |t| + 1 && T > 0 && T * t[|t| - 1] == e[|t| - 1] - e[|t| - 1] % T + e[|t|] * B
  {
    DroppedLimb(e[|t| - 1], e[|t|], T, Q, B);
  }

  /** The low part: n - 1 limbs and the low bits of the next. */
  lemma SplitValue(d: seq<int>, t: seq<int>, b: seq<int>, n: nat, T: int, Q: int, B: int)
    requires n >= 2 && |d| == 2 * n && Norm(d, B) && CutBase(T, Q, B) && |b| == |t| == n && BitsDropped(t, d[n - 1..], T, Q)
    requires b[..n - 1] == d[..n - 1] && b[n - 1] == d[n - 1] % T
    ensures var M := Pow(B, n - 1) * T;
      M > 0 && Val(d, B) / M == Val(t, B) && Val(d, B) % M == Val(b, B)
  {
    hide Val;
    hide Pow;
    var e := d[n - 1..];
    DropValue(t, e, T, Q, B);
    ValSplit(d, n - 1, B);
    assert b == b[..n - 1] + [b[n - 1]];
    ValSnoc(b[..n - 1], b[n - 1], B);
    ValBound(d[..n - 1], B);
    SplitArith(Val(d, B), Val(d[..n - 1], B), Val(e, B), Val(t, B), e[0] % T, Pow(B, n - 1), T);
  }

  lemma SplitArith(d: int, lo: int, e: int, t: int, r: int, p: int, T: int)
    requires d == lo + p * e && T * t + r == e && 0 <= r < T && 0 <= lo < p
    ensures p * T > 0 && d / (p * T) == t && d % (p * T) == lo + r * p
  {
    MulMono(1, T, p);
    assert T * p == p * T;
    assert p * (T * t + r) == t * (p * T) + r * p;
    MulMono(r, T - 1, p);
    MulMono(0, r, p);
    assert (T - 1) * p == p * T - p;
    DivModUnique(d, t, lo + r * p, p * T);
  }

  /** t = d >> m and b = d mod 2^m, where bit m falls at bit s of limb n - 1, 0 < s < k. */
  method Split(t: array<int>, b: array<int>, d: array<int>, s: nat, k: nat, n: nat)
    requires n >= 2 && 0 < s < k && t.Length == b.Length == n && d.Length == 2 * n && t != b && t != d && b != d
    requires Norm(d[..], Two(k))
    modifies t, b
    ensures Pow(Two(k), n - 1) * Two(s) > 0
    ensures Val(t[..], Two(k)) == Val(d[..], Two(k)) / (Pow(Two(k), n - 1) * Two(s))
    ensures Val(b[..], Two(k)) == Val(d[..], Two(k)) % (Pow(Two(k), n - 1) * Two(s))
    ensures Norm(b[..], Two(k)) && Norm(t[..n - 1], Two(k)) && t[n - 1] >= 0
  {
    hide *;
    var T, Q, B := Two(s), Two(k - s), Two(k);
    Cut(k, s);
    ghost var ds := d[..];
    LowPart(b, d, n, T, B);
    TopPartOf(t, d, n, s, k, T, Q, B);
    assert d[..] == ds;
    SplitValue(ds, t[..], b[..], n, T, Q, B);
    LowNorm(ds, b[..], n, T, Q, B);
    DroppedNorm(t[..], ds, n, T, Q, B);
    assert t[..n - 1] == t[..][..n - 1] && t[n - 1] == t[..][n - 1];
  }

  method LowPart(b: array<int>, d: array<int>, n: nat, T: int, B: int)
    requires n >= 2 && b.Length == n && d.Length == 2 * n && b != d && T > 0
    modifies b
    ensures b[..][..n - 1] == d[..][..n - 1] && b[n - 1] == d[n - 1] % T
  {
    for i := 0 to n - 1
      invariant forall j :: 0 <= j < i ==> b[j] == d[j]
    {
      b[i] := d[i];
    }
    b[n - 1] := d[n - 1] % T;
  }

  /** The loop of MCL_BIG_split, from the top down, the low bits of one limb entering the next. */
  method TopPartOf(t: array<int>, d: array<int>, n: nat, s: nat, k: nat, T: int, Q: int, B: int)
    requires n >= 2 && s < k && t.Length == n && d.Length == 2 * n && t != d && T == Two(s) && Q == Two(k - s) && B == Two(k)
    requires CutBase(T, Q, B) && CutBase(Q, T, B) && Norm(d[..], B)
    modifies t
    ensures BitsDropped(t[..], d[..][n - 1..], T, Q)
  {
    hide Or;
    hide Pow;
    hide CutBase;
    ghost var ds := d[..];
    ghost var e := ds[n - 1..];
    var carry := d[2 * n - 1] * Q;
    MulMono(0, d[2 * n - 1], Q);
    var i := 2 * n - 2;
    while i >= n - 1
      invariant n - 2 <= i <= 2 * n - 2 && carry >= 0 && d[..] == ds
      invariant i == 2 * n - 2 ==> carry == e[n] * Q
      invariant i < 2 * n - 2 ==> carry == e[i - n + 2] % T * Q
      invariant i < 2 * n - 2 ==> t[n - 1] == e[n - 1] / T + e[n] * Q
      invariant forall j :: i - n + 1 < j < n - 1 ==> t[j] == e[j] / T + e[j + 1] % T * Q
    {
      var x := d[i];
      assert x == e[i - n + 1] && 0 <= x < B;
      TopPart(x, Q, T, B);
      JoinLimb(x / T, if i == 2 * n - 2 then e[n] else e[i - n + 2] % T, k - s);
      var nw := Or(x / T, carry);
      LimbShift(x, Q, T, B);
      carry := x * Q % B;
      MulMono(0, x % T, Q);
      t[i - n + 1] := nw;
      i := i - 1;
    }
  }

  lemma JoinLimb(y: int, x: int, e: nat)
    requires x >= 0 && 0 <= y < Two(e)
    ensures x * Two(e) >= 0 && Or(y, x * Two(e)) == y + x * Two(e)
  {
    hide Or;
    OrLimb(x, y, e);
    OrComm(y, x * Two(e));
  }

  lemma LowNorm(d: seq<int>, b: seq<int>, n: nat, T: int, Q: int, B: int)
    requires n >= 2 && |d| == 2 * n && |b| == n && Norm(d, B) && CutBase(T, Q, B)
    requires b[..n - 1] == d[..n - 1] && b[n - 1] == d[n - 1] % T
    ensures Norm(b, B)
  {
    MulMono(1, Q, T);
    assert T * Q == Q * T;
    forall i | 0 <= i < n ensures 0 <= b[i] < B {
      if i < n - 1 { assert b[i] == b[..n - 1][i]; }
    }
  }

  lemma DroppedNorm(t: seq<int>, d: seq<int>, n: nat, T: int, Q: int, B: int)
    requires n >= 2 && |d| == 2 * n && Norm(d, B) && CutBase(T, Q, B) && CutBase(Q, T, B) && |t| == n && BitsDropped(t, d[n - 1..], T, Q)
    ensures Norm(t[..n - 1], B) && t[n - 1] >= 0
  {
    var e := d[n - 1..];
    forall i | 0 <= i < n ensures t[i] >= 0 && (i < n - 1 ==> t[i] < B) {
      TopPart(e[i], Q, T, B);
      var c := e[i + 1] % T;
      MulMono(0, c, Q);
      MulMono(c, T - 1, Q);
      assert (T - 1) * Q == Q * T - Q;
      MulMono(0, e[i + 1], Q);
    }
  }
}
