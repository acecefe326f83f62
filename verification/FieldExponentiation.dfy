/** The exponentiations from the modulus alone, on the digits: the two ladders, square and multiply, and the small exponent. */
module FieldExponentiation {
  import opened Arith
  import opened Digits
  import opened FieldDigits
  import opened Karatsuba
  import opened Montgomery
  import opened MontgomeryDomain
  import opened FieldModMul
  import opened FieldInverse
  import opened FieldPow

  /** Digits of bb = 2^k bits, at least three spare bits in the array that holds a digit. */
  ghost predicate Config(k: nat, bb: nat, W: int, C: int) {
    k >= 3 && bb == Pow(2, k) && bb >= 1 && W == Pow(2, bb) && W >= 2 && W % 2 == 0 && C >= 8 * W && C % W == 0
  }

  /** Modulus and exponent are as they were. */
  ghost predicate InputsKept(m: seq<int>, m': seq<int>, L: Place)
    requires L.Fits(|m|)
  {
    |m'| == |m| && m'[L.p..L.p + L.n] == m[L.p..L.p + L.n] && m'[L.e..L.e + L.ne] == m[L.e..L.e + L.ne]
  }

  lemma InputsFrom(m: seq<int>, m1: seq<int>, m2: seq<int>, L: Place)
    requires L.Fits(|m|) && InputsKept(m, m1, L) && Kept(m1, m2, L)
    ensures InputsKept(m, m2, L)
  {}

  /** What x needs: it lies apart from the arrays that are written before it is read. */
  ghost predicate Base(L: Place, x: nat, len: nat) {
    x + L.n <= len && Apart(x, L.n, L.r0, L.n) && Apart(x, L.n, L.r1, L.n) && Apart(x, L.n, L.nd, L.n) && Apart(x, L.n, L.d, 2 * L.n) &&
    Apart(x, L.n, L.t, 2 * L.n) && Apart(x, L.n, L.u, 2 * L.n)
  }

  // ----- the Montgomery constant -------------------------------------------------------------------------

  /** nd is filled by FF_invmod2m, whose arrays are local. */
  method Setup(m: array<int>, L: Place, x: nat, ghost k: nat, bb: nat, W: int, C: int, ghost N: int) returns (ghost ND: int)
    requires Config(k, bb, W, C) && PowerOfTwo(L.n) && L.n >= 2 && L.Fits(m.Length) && L.Disjoint() && Base(L, x, m.Length)
    requires NormAt(m[..], L.p, L.n, W) && Num(m[..], L.p, L.n, W) == N && 1 < N && N % 2 == 1
    modifies m
    ensures InDomain(m[..], L, W, N, ND) && InputsKept(old(m[..]), m[..], L)
    ensures m[x..x + L.n] == old(m[x..x + L.n])
  {
    hide Num;
    hide Pow;
    hide Cong;
    hide NormAt;
    hide Inside;
    hide InputsKept;
    ghost var m0 := m[..];
    var L' := Room(L.nd, L.p, L.d, L.d + L.n, L.t, L.u, L.n);
    RoomApart(L);
    OddDigit(m0, L.p, L.n, W, N);
    FfInvMod2m(m, L', k, bb, W, C, N);
    ND := Num(m[..], L.nd, L.n, W);
    SetupKept(m0, m[..], L, x);
    assert N * ND == ND * N;
    BelowR(m[..], L.p, L.n, W);
  }

  lemma RoomApart(L: Place)
    requires L.Disjoint()
    ensures Room(L.nd, L.p, L.d, L.d + L.n, L.t, L.u, L.n).Disjoint()
  {}

  lemma OddDigit(m: seq<int>, p: nat, n: nat, W: int, N: int)
    requires W >= 2 && W % 2 == 0 && n >= 1 && p + n <= |m| && NormAt(m, p, n, W) && Num(m, p, n, W) == N && N % 2 == 1
    ensures m[p] % 2 == 1
  {
    hide Num;
    hide NormAt;
    LowDigit(m, p, n, W);
    var q, h := N / W, W / 2;
    assert N == q * W + N % W && q * W == 2 * (q * h);
  }

  lemma SetupKept(m: seq<int>, m': seq<int>, L: Place, x: nat)
    requires L.Fits(|m|) && L.Disjoint() && Base(L, x, |m|) && Inside(m, m', Room(L.nd, L.p, L.d, L.d + L.n, L.t, L.u, L.n))
    ensures InputsKept(m, m', L) && m'[x..x + L.n] == m[x..x + L.n]
  {
    hide Inside;
    InsideAt(m, m', L, L.p, L.n);
    InsideAt(m, m', L, L.e, L.ne);
    InsideAt(m, m', L, x, L.n);
  }

  lemma InsideAt(m: seq<int>, m': seq<int>, L: Place, a: nat, k: nat)
    requires Inside(m, m', Room(L.nd, L.p, L.d, L.d + L.n, L.t, L.u, L.n)) && a + k <= |m|
    requires Apart(L.nd, L.n, a, k) && Apart(L.d, 2 * L.n, a, k) && Apart(L.t, 2 * L.n, a, k) && Apart(L.u, 2 * L.n, a, k)
    ensures |m'| == |m| && m'[a..a + k] == m[a..a + k]
  {
    SliceKept(m, m', a, k);
  }

  // ----- into the domain and out of it -------------------------------------------------------------------

  /** 1 and x, in registers a and o, into the domain. */
  method EnterBoth(m: array<int>, L: Place, a: nat, o: nat, W: int, bits: nat, ghost X: int, ghost N: int, ghost ND: int)
    requires W >= 2 && W % 2 == 0 && L.n >= 2 && L.Fits(m.Length) && L.Disjoint() && Pow(W, L.n) == Pow(2, bits)
    requires (a == L.r0 && o == L.r1) || (a == L.r && o == L.r0)
    requires InDomain(m[..], L, W, N, ND) && 0 <= X < N
    requires Num(m[..], a, L.n, W) == 1 && Num(m[..], o, L.n, W) == X
    modifies m
    ensures Kept(old(m[..]), m[..], L) && InDomain(m[..], L, W, N, ND)
    ensures Holds(m[..], L, a, W, X, 0, N) && Holds(m[..], L, o, W, X, 1, N)
  {
    hide Num;
    hide Pow;
    hide Cong;
    hide Stands;
    hide Kept;
    hide NormAt;
    ghost var m0, R := m[..], Pow(W, L.n);
    RegistersApart(L);
    NresLayout(L, a);
    NresLayout(L, o);
    hide Apart;
    PowSmall(X);
    FfNres(m, a, L.p, L.d, L.t, L.u, L.n, W, bits, X, 0);
    ghost var m1 := m[..];
    KeptFour(m0, m1, a, L);
    DomainKept(m0, m1, L, W, N, ND);
    OtherKept(m0, m1, a, o, L, W);
    FfNres(m, o, L.p, L.d, L.t, L.u, L.n, W, bits, X, 1);
    ghost var m2 := m[..];
    KeptFour(m1, m2, o, L);
    DomainKept(m1, m2, L, W, N, ND);
    OtherKept(m1, m2, o, a, L, W);
    KeptTrans(m0, m1, m2, L);
  }

  /** The result out of the domain. */
  method Leave(m: array<int>, L: Place, W: int, C: int, ghost x: int, ghost h: nat, ghost N: int, ghost ND: int)
    requires W >= 2 && W % 2 == 0 && C >= 1 && C % W == 0 && PowerOfTwo(L.n) && L.n >= 2 && L.Fits(m.Length) && L.Disjoint()
    requires InDomain(m[..], L, W, N, ND) && Holds(m[..], L, L.r, W, x, h, N)
    modifies m
    ensures N > 0 && Num(m[..], L.r, L.n, W) == Pow(x, h) % N && Kept(old(m[..]), m[..], L)
  {
    hide Num;
    hide Pow;
    hide Cong;
    hide NormAt;
    hide Kept;
    hide Stands;
    hide ModulusAt;
    ghost var m0 := m[..];
    LayoutOf(L, m.Length, L.r);
    FfRedc(m, L.r, L.p, L.nd, L.d, L.t, L.q, L.n, W, C, x, h);
    KeptFramed(m0, m[..], L.r, L);
  }

  lemma HoldsKept(m: seq<int>, m': seq<int>, L: Place, a: nat, W: int, x: int, h: nat, N: int)
    requires |m| == |m'| && a + L.n <= |m| && Holds(m, L, a, W, x, h, N) && Num(m', a, L.n, W) == Num(m, a, L.n, W)
    ensures Holds(m', L, a, W, x, h, N)
  {}

  // ----- the ladders --------------------------------------------------------------------------------------

  /** The ladder over all bits of the exponent, from the domain on. */
  method Ladder(m: array<int>, L: Place, x: nat, bb: nat, W: int, C: int, fe: int, ghost X: int, ghost E: nat, ghost N: int, ghost ND: int)
    requires bb >= 1 && W == Pow(2, bb) && W >= 2 && W % 2 == 0 && C >= 1 && C % W == 0 && PowerOfTwo(L.n) && L.n >= 2
    requires L.Fits(m.Length) && L.Disjoint() && Base(L, x, m.Length) && L.ne >= 1
    requires InDomain(m[..], L, W, N, ND) && NormAt(m[..], L.e, L.ne, W)
    requires Num(m[..], x, L.n, W) == X && Num(m[..], L.e, L.ne, W) == E && 0 <= X < N
    modifies m
    ensures N > 0 && Num(m[..], L.r, L.n, W) == Pow(X, E) % N && Kept(old(m[..]), m[..], L)
  {
    hide Num;
    hide Pow;
    hide Cong;
    hide NormAt;
    hide Kept;
    hide OnLadder;
    hide InDomain;
    ghost var m0 := m[..];
    MulMono(0, L.ne, bb);
    var bits: nat := L.ne * bb;
    ExponentSize(m0, L, bb, bits, W);
    Begin(m, L, x, W, bb, X, N, ND);
    var i: nat := bits;
    ghost var h: nat := 0;
    while i > 0
      invariant i <= bits && Pow(2, i) > 0 && h == E / Pow(2, i)
      invariant Kept(m0, m[..], L) && OnLadder(m[..], L, W, X, h, N, ND)
    {
      i := i - 1;
      h := Rung(m, L, i, bb, W, C, fe, X, h, N, ND, m0);
    }
    DivOne(E);
    ghost var m1 := m[..];
    Finish(m, L, W, C, X, h, N, ND);
    KeptTrans(m0, m1, m[..], L);
  }

  lemma ExponentSize(m: seq<int>, L: Place, bb: nat, bits: nat, W: int)
    requires W >= 2 && W == Pow(2, bb) && bits == L.ne * bb && L.ne >= 1 && L.Fits(|m|) && NormAt(m, L.e, L.ne, W)
    ensures Pow(2, bits) > 0 && Num(m, L.e, L.ne, W) / Pow(2, bits) == 0
  {
    hide Num;
    hide Pow;
    BelowR(m, L.e, L.ne, W);
    PowMul(2, bb, L.ne);
    assert bb * L.ne == L.ne * bb;
    PowPos(2, bits);
    TopZero(Num(m, L.e, L.ne, W), bits);
  }

  /** R0 = 1 and R1 = x, both into the domain. */
  method Begin(m: array<int>, L: Place, x: nat, W: int, bb: nat, ghost X: int, ghost N: int, ghost ND: int)
    requires W >= 2 && W % 2 == 0 && bb >= 1 && W == Pow(2, bb) && L.n >= 2 && L.Fits(m.Length) && L.Disjoint() && Base(L, x, m.Length)
    requires InDomain(m[..], L, W, N, ND) && 0 <= Num(m[..], x, L.n, W) == X < N
    modifies m
    ensures Kept(old(m[..]), m[..], L) && OnLadder(m[..], L, W, X, 0, N, ND)
  {
    hide Num;
    hide Pow;
    hide Cong;
    hide Stands;
    hide Kept;
    hide InDomain;
    ghost var m0 := m[..];
    RegistersApart(L);
    FfOne(m, L.r0, L.n, W);
    ghost var m1 := m[..];
    KeptOne(m0, m1, L.r0, L);
    DomainKept(m0, m1, L, W, N, ND);
    ApartSym(x, L.n, L.r0, L.n);
    NumKept(m0, m1, L.r0, L.n, x, L.n, W);
    ApartSym(x, L.n, L.r1, L.n);
    Copy(m, L.r1, x, L.n, W);
    ghost var m2 := m[..];
    KeptOne(m1, m2, L.r1, L);
    DomainKept(m1, m2, L, W, N, ND);
    NumKept(m1, m2, L.r1, L.n, L.r0, L.n, W);
    var bits := FieldBits(L.n, bb, W);
    EnterBoth(m, L, L.r0, L.r1, W, bits, X, N, ND);
    KeptTrans(m0, m1, m2, L);
    KeptTrans(m0, m2, m[..], L);
  }

  /** The number of bits of R. */
  method FieldBits(n: nat, bb: nat, W: int) returns (bits: nat)
    requires W == Pow(2, bb)
    ensures Pow(W, n) == Pow(2, bits)
  {
    PowMul(2, bb, n);
    bits := bb * n;
  }

  /** One bit of the exponent: the account moves from the bits above i to those from i on. */
  method Rung(m: array<int>, L: Place, i: nat, bb: nat, W: int, C: int, fe: int, ghost X: int, ghost h: nat, ghost N: int, ghost ND: int,
              ghost m0: seq<int>)
    returns (ghost h': nat)
    requires bb >= 1 && W == Pow(2, bb) && W >= 2 && W % 2 == 0 && C >= 1 && C % W == 0 && PowerOfTwo(L.n) && L.n >= 2
    requires L.Fits(m.Length) && L.Disjoint() && |m0| == m.Length && NormAt(m0, L.e, L.ne, W) && i < L.ne * bb
    requires Pow(2, i + 1) > 0 && h == Num(m0, L.e, L.ne, W) / Pow(2, i + 1) && Kept(m0, m[..], L)
    requires OnLadder(m[..], L, W, X, h, N, ND)
    modifies m
    ensures Pow(2, i) > 0 && h' == Num(m0, L.e, L.ne, W) / Pow(2, i) && Kept(m0, m[..], L)
    ensures OnLadder(m[..], L, W, X, h', N, ND)
  {
    hide Num;
    hide Pow;
    hide Cong;
    hide NormAt;
    hide Kept;
    hide OnLadder;
    ghost var m1 := m[..];
    KeptMeans(m0, m1, L, W);
    ExponentKept(m0, m1, L, W);
    var b := ExponentBit(m, L.e, i, bb, L.ne, W);
    FfLadderRound(m, L, b, W, C, fe, X, h, N, ND);
    KeptTrans(m0, m1, m[..], L);
    h' := 2 * h + b;
  }

  /** The result copied out and taken out of the domain. */
  method Finish(m: array<int>, L: Place, W: int, C: int, ghost x: int, ghost h: nat, ghost N: int, ghost ND: int)
    requires W >= 2 && W % 2 == 0 && C >= 1 && C % W == 0 && PowerOfTwo(L.n) && L.n >= 2 && L.Fits(m.Length) && L.Disjoint()
    requires OnLadder(m[..], L, W, x, h, N, ND)
    modifies m
    ensures N > 0 && Num(m[..], L.r, L.n, W) == Pow(x, h) % N && Kept(old(m[..]), m[..], L)
  {
    hide Num;
    hide Pow;
    hide Kept;
    hide Stands;
    hide InDomain;
    ghost var m0 := m[..];
    RegistersApart(L);
    Copy(m, L.r, L.r0, L.n, W);
    ghost var m1 := m[..];
    KeptOne(m0, m1, L.r, L);
    DomainKept(m0, m1, L, W, N, ND);
    Leave(m, L, W, C, x, h, N, ND);
    KeptTrans(m0, m1, m[..], L);
  }

  /** MCL_FF_skpow: x^e mod p for an odd modulus and any exponent of n digits; r may be x. */
  method FfSkPow(m: array<int>, L: Place, x: nat, ghost k: nat, bb: nat, W: int, C: int, fe: int, ghost X: int, ghost E: nat, ghost N: int)
    requires Config(k, bb, W, C) && PowerOfTwo(L.n) && L.n >= 2 && L.ne == L.n && L.Fits(m.Length) && L.Disjoint() && Base(L, x, m.Length)
    requires NormAt(m[..], L.p, L.n, W) && Num(m[..], L.p, L.n, W) == N && 1 < N && N % 2 == 1
    requires NormAt(m[..], L.e, L.n, W) && Num(m[..], L.e, L.n, W) == E && 0 <= Num(m[..], x, L.n, W) == X < N
    modifies m
    ensures Num(m[..], L.r, L.n, W) == Pow(X, E) % N && InputsKept(old(m[..]), m[..], L)
  {
    hide Num;
    hide Pow;
    hide Kept;
    hide InDomain;
    ghost var m0 := m[..];
    ghost var ND := Setup(m, L, x, k, bb, W, C, N);
    ghost var m1 := m[..];
    SetupReads(m0, m1, L, x, W);
    Ladder(m, L, x, bb, W, C, fe, X, E, N, ND);
    InputsFrom(m0, m1, m[..], L);
  }

  lemma SetupReads(m: seq<int>, m': seq<int>, L: Place, x: nat, W: int)
    requires L.Fits(|m|) && x + L.n <= |m| && InputsKept(m, m', L) && m'[x..x + L.n] == m[x..x + L.n]
    ensures Num(m', x, L.n, W) == Num(m, x, L.n, W) && Num(m', L.e, L.ne, W) == Num(m, L.e, L.ne, W)
    ensures NormAt(m, L.e, L.ne, W) ==> NormAt(m', L.e, L.ne, W)
  {
    hide Val;
    forall i | L.e <= i < L.e + L.ne ensures m'[i] == m[i] {
      assert m'[L.e..L.e + L.ne][i - L.e] == m[L.e..L.e + L.ne][i - L.e];
    }
  }

  /** MCL_FF_skspow: the ladder over an exponent of one digit. */
  method FfSksPow(m: array<int>, L: Place, x: nat, ghost k: nat, bb: nat, W: int, C: int, fe: int, ghost X: int, ghost E: nat, ghost N: int)
    requires Config(k, bb, W, C) && PowerOfTwo(L.n) && L.n >= 2 && L.ne == 1 && L.Fits(m.Length) && L.Disjoint() && Base(L, x, m.Length)
    requires NormAt(m[..], L.p, L.n, W) && Num(m[..], L.p, L.n, W) == N && 1 < N && N % 2 == 1
    requires m[L.e] == E < W && 0 <= Num(m[..], x, L.n, W) == X < N
    modifies m
    ensures Num(m[..], L.r, L.n, W) == Pow(X, E) % N && InputsKept(old(m[..]), m[..], L)
  {
    hide Num;
    hide Pow;
    hide Kept;
    hide InDomain;
    ghost var m0 := m[..];
    ghost var ND := Setup(m, L, x, k, bb, W, C, N);
    ghost var m1 := m[..];
    SetupReads(m0, m1, L, x, W);
    SingleValue(m0, L.e, W);
    Ladder(m, L, x, bb, W, C, fe, X, E, N, ND);
    InputsFrom(m0, m1, m[..], L);
  }

  // ----- square and multiply --------------------------------------------------------------------------------

  /** z stands for twice the exponent of a; a third register is left alone. */
  method SquareInto(m: array<int>, L: Place, z: nat, a: nat, ghost o: nat, W: int, C: int, fe: int, ghost x: int, ghost h: nat, ghost N: int, ghost ND: int)
    requires W >= 2 && W % 2 == 0 && C >= 1 && C % W == 0 && PowerOfTwo(L.n) && L.n >= 2 && L.Fits(m.Length) && L.Disjoint()
    requires (z == L.r || z == L.r0) && (a == L.r || a == L.r0) && (o == L.r || o == L.r0)
    requires InDomain(m[..], L, W, N, ND) && Holds(m[..], L, a, W, x, h, N)
    modifies m
    ensures Kept(old(m[..]), m[..], L) && InDomain(m[..], L, W, N, ND) && Holds(m[..], L, z, W, x, 2 * h, N)
    ensures o != z && o != a ==> Num(m[..], o, L.n, W) == old(Num(m[..], o, L.n, W))
  {
    hide Num;
    hide Pow;
    hide Cong;
    hide NormAt;
    hide Stands;
    hide MontProduct;
    hide Modulus;
    hide ModulusAt;
    hide Layout;
    hide Operand;
    hide Untouched;
    hide Kept;
    ghost var m0, R := m[..], Pow(W, L.n);
    LayoutOf(L, m.Length, z);
    LayoutOf(L, m.Length, a);
    RegistersApart(L);
    hide Apart;
    StandsParts(Num(m0, a, L.n, W), x, h, R, N);
    FfModSqr(m, z, a, L.p, L.nd, L.d, L.t, L.q, L.n, W, C, fe);
    ghost var m1 := m[..];
    KeptUntouched(m0, m1, a, z, L);
    DomainKept(m0, m1, L, W, N, ND);
    if o != z && o != a { RegisterKept(m0, m1, o, a, z, L, W); }
    ExponentsAdd(Num(m1, z, L.n, W), Num(m0, a, L.n, W), Num(m0, a, L.n, W), x, h, h, N, ND, R);
    assert h + h == 2 * h;
  }

  /** r times the base in r0. */
  method TimesBase(m: array<int>, L: Place, W: int, C: int, fe: int, ghost x: int, ghost h: nat, ghost g: nat, ghost N: int, ghost ND: int)
    requires W >= 2 && W % 2 == 0 && C >= 1 && C % W == 0 && PowerOfTwo(L.n) && L.n >= 2 && L.Fits(m.Length) && L.Disjoint()
    requires InDomain(m[..], L, W, N, ND) && Holds(m[..], L, L.r, W, x, h, N) && Holds(m[..], L, L.r0, W, x, g, N)
    modifies m
    ensures Kept(old(m[..]), m[..], L) && InDomain(m[..], L, W, N, ND)
    ensures Holds(m[..], L, L.r, W, x, h + g, N) && Holds(m[..], L, L.r0, W, x, g, N)
  {
    hide Num;
    hide Pow;
    hide Cong;
    hide NormAt;
    hide Stands;
    hide MontProduct;
    hide Modulus;
    hide ModulusAt;
    hide Layout;
    hide Operand;
    hide Untouched;
    hide Kept;
    ghost var m0, R := m[..], Pow(W, L.n);
    LayoutOf(L, m.Length, L.r);
    LayoutOf(L, m.Length, L.r0);
    RegistersApart(L);
    hide Apart;
    StandsParts(Num(m0, L.r, L.n, W), x, h, R, N);
    StandsParts(Num(m0, L.r0, L.n, W), x, g, R, N);
    FfModMul(m, L.r, L.r, L.r0, L.p, L.nd, L.d, L.t, L.q, L.n, W, C, fe);
    ghost var m1 := m[..];
    KeptUntouched(m0, m1, L.r, L.r, L);
    DomainKept(m0, m1, L, W, N, ND);
    RegisterKept(m0, m1, L.r0, L.r, L.r, L, W);
    ExponentsAdd(Num(m1, L.r, L.n, W), Num(m0, L.r, L.n, W), Num(m0, L.r0, L.n, W), x, h, g, N, ND, R);
  }

  /** MCL_FF_pow: left-to-right square and multiply; r may be x, and w is r0. */
  method FfPow(m: array<int>, L: Place, x: nat, ghost k: nat, bb: nat, W: int, C: int, fe: int, ghost X: int, ghost E: nat, ghost N: int)
    requires Config(k, bb, W, C) && PowerOfTwo(L.n) && L.n >= 2 && L.ne == L.n && L.Fits(m.Length) && L.Disjoint() && Base(L, x, m.Length)
    requires NormAt(m[..], L.p, L.n, W) && Num(m[..], L.p, L.n, W) == N && 1 < N && N % 2 == 1
    requires NormAt(m[..], L.e, L.n, W) && Num(m[..], L.e, L.n, W) == E && 0 <= Num(m[..], x, L.n, W) == X < N
    modifies m
    ensures Num(m[..], L.r, L.n, W) == Pow(X, E) % N && InputsKept(old(m[..]), m[..], L)
  {
    hide Num;
    hide Pow;
    hide NormAt;
    hide Kept;
    hide InDomain;
    hide Holds;
    ghost var m0 := m[..];
    ghost var ND := Setup(m, L, x, k, bb, W, C, N);
    ghost var m1 := m[..];
    SetupReads(m0, m1, L, x, W);
    BeginPow(m, L, x, W, bb, X, N, ND);
    MulMono(0, L.ne, bb);
    var bits: nat := L.ne * bb;
    ExponentSize(m1, L, bb, bits, W);
    var i: nat := bits;
    ghost var h: nat := 0;
    while i > 0
      invariant i <= bits && Pow(2, i) > 0 && h == E / Pow(2, i)
      invariant Kept(m1, m[..], L) && InDomain(m[..], L, W, N, ND) && Holds(m[..], L, L.r, W, X, h, N) && Holds(m[..], L, L.r0, W, X, 1, N)
    {
      i := i - 1;
      h := PowStep(m, L, i, bb, W, C, fe, X, h, N, ND, m1);
    }
    DivOne(E);
    ghost var m2 := m[..];
    Leave(m, L, W, C, X, h, N, ND);
    KeptTrans(m1, m2, m[..], L);
    InputsFrom(m0, m1, m[..], L);
  }

  /** w = x and r = 1, both into the domain. */
  method BeginPow(m: array<int>, L: Place, x: nat, W: int, bb: nat, ghost X: int, ghost N: int, ghost ND: int)
    requires W >= 2 && W % 2 == 0 && bb >= 1 && W == Pow(2, bb) && L.n >= 2 && L.Fits(m.Length) && L.Disjoint() && Base(L, x, m.Length)
    requires InDomain(m[..], L, W, N, ND) && 0 <= Num(m[..], x, L.n, W) == X < N
    modifies m
    ensures Kept(old(m[..]), m[..], L) && InDomain(m[..], L, W, N, ND)
    ensures Holds(m[..], L, L.r, W, X, 0, N) && Holds(m[..], L, L.r0, W, X, 1, N)
  {
    hide Num;
    hide Pow;
    hide Kept;
    hide InDomain;
    hide Holds;
    ghost var m0 := m[..];
    RegistersApart(L);
    ApartSym(x, L.n, L.r0, L.n);
    Copy(m, L.r0, x, L.n, W);
    ghost var m1 := m[..];
    KeptOne(m0, m1, L.r0, L);
    DomainKept(m0, m1, L, W, N, ND);
    FfOne(m, L.r, L.n, W);
    ghost var m2 := m[..];
    KeptOne(m1, m2, L.r, L);
    DomainKept(m1, m2, L, W, N, ND);
    NumKept(m1, m2, L.r, L.n, L.r0, L.n, W);
    var bits := FieldBits(L.n, bb, W);
    EnterBoth(m, L, L.r, L.r0, W, bits, X, N, ND);
    KeptTrans(m0, m1, m2, L);
    KeptTrans(m0, m2, m[..], L);
  }

  /** One bit: a squaring, and a multiplication if the bit is set. */
  method PowStep(m: array<int>, L: Place, i: nat, bb: nat, W: int, C: int, fe: int, ghost X: int, ghost h: nat, ghost N: int, ghost ND: int,
                 ghost m0: seq<int>)
    returns (ghost h': nat)
    requires bb >= 1 && W == Pow(2, bb) && W >= 2 && W % 2 == 0 && C >= 1 && C % W == 0 && PowerOfTwo(L.n) && L.n >= 2
    requires L.Fits(m.Length) && L.Disjoint() && |m0| == m.Length && NormAt(m0, L.e, L.ne, W) && i < L.ne * bb
    requires Pow(2, i + 1) > 0 && h == Num(m0, L.e, L.ne, W) / Pow(2, i + 1) && Kept(m0, m[..], L)
    requires InDomain(m[..], L, W, N, ND) && Holds(m[..], L, L.r, W, X, h, N) && Holds(m[..], L, L.r0, W, X, 1, N)
    modifies m
    ensures Pow(2, i) > 0 && h' == Num(m0, L.e, L.ne, W) / Pow(2, i) && Kept(m0, m[..], L)
    ensures InDomain(m[..], L, W, N, ND) && Holds(m[..], L, L.r, W, X, h', N) && Holds(m[..], L, L.r0, W, X, 1, N)
  {
    hide Num;
    hide Pow;
    hide NormAt;
    hide Kept;
    hide InDomain;
    hide Holds;
    ghost var m1 := m[..];
    RegistersApart(L);
    SquareInto(m, L, L.r, L.r, L.r0, W, C, fe, X, h, N, ND);
    ghost var m2 := m[..];
    HoldsKept(m1, m2, L, L.r0, W, X, 1, N);
    KeptTrans(m0, m1, m2, L);
    KeptMeans(m0, m2, L, W);
    ExponentKept(m0, m2, L, W);
    var b := ExponentBit(m, L.e, i, bb, L.ne, W);
    if b == 1 {
      TimesBase(m, L, W, C, fe, X, 2 * h, 1, N, ND);
      KeptTrans(m0, m2, m[..], L);
    }
    h' := 2 * h + b;
  }

  // ----- small exponents --------------------------------------------------------------------------------------

  /** MCL_FF_power: right to left over a positive machine integer; w is r0, r may be x. */
  method FfPower(m: array<int>, L: Place, x: nat, e0: nat, ghost k: nat, bb: nat, W: int, C: int, fe: int, ghost X: int, ghost N: int)
    requires Config(k, bb, W, C) && PowerOfTwo(L.n) && L.n >= 2 && L.Fits(m.Length) && L.Disjoint() && Base(L, x, m.Length)
    requires NormAt(m[..], L.p, L.n, W) && Num(m[..], L.p, L.n, W) == N && 1 < N && N % 2 == 1
    requires e0 >= 1 && 0 <= Num(m[..], x, L.n, W) == X < N
    modifies m
    ensures Num(m[..], L.r, L.n, W) == Pow(X, e0) % N && InputsKept(old(m[..]), m[..], L)
  {
    hide Num;
    hide Pow;
    hide NormAt;
    hide Kept;
    hide InDomain;
    hide Holds;
    ghost var m0 := m[..];
    ghost var ND := Setup(m, L, x, k, bb, W, C, N);
    ghost var m1 := m[..];
    SetupReads(m0, m1, L, x, W);
    EnterBase(m, L, x, W, bb, X, N, ND);
    ghost var m2 := m[..];
    RegistersApart(L);
    if e0 == 2 {
      SquareInto(m, L, L.r, L.r0, L.r0, W, C, fe, X, 1, N, ND);
    } else {
      RightToLeft(m, L, e0, W, C, fe, X, N, ND);
    }
    ghost var m3 := m[..];
    Leave(m, L, W, C, X, e0, N, ND);
    KeptTrans(m1, m2, m3, L);
    KeptTrans(m1, m3, m[..], L);
    InputsFrom(m0, m1, m[..], L);
  }

  /** w = x into the domain. */
  method EnterBase(m: array<int>, L: Place, x: nat, W: int, bb: nat, ghost X: int, ghost N: int, ghost ND: int)
    requires W >= 2 && W % 2 == 0 && bb >= 1 && W == Pow(2, bb) && L.n >= 2 && L.Fits(m.Length) && L.Disjoint() && Base(L, x, m.Length)
    requires InDomain(m[..], L, W, N, ND) && 0 <= Num(m[..], x, L.n, W) == X < N
    modifies m
    ensures Kept(old(m[..]), m[..], L) && InDomain(m[..], L, W, N, ND) && Holds(m[..], L, L.r0, W, X, 1, N)
  {
    hide Num;
    hide Pow;
    hide Cong;
    hide Stands;
    hide Kept;
    hide NormAt;
    ghost var m0 := m[..];
    ApartSym(x, L.n, L.r0, L.n);
    Copy(m, L.r0, x, L.n, W);
    ghost var m1 := m[..];
    KeptOne(m0, m1, L.r0, L);
    DomainKept(m0, m1, L, W, N, ND);
    NresLayout(L, L.r0);
    hide Apart;
    PowSmall(X);
    var bits := FieldBits(L.n, bb, W);
    FfNres(m, L.r0, L.p, L.d, L.t, L.u, L.n, W, bits, X, 1);
    KeptFour(m1, m[..], L.r0, L);
    DomainKept(m1, m[..], L, W, N, ND);
    KeptTrans(m0, m1, m[..], L);
  }

  /** The loop: r collects x^done while r0 stands for x^g and done + g*e is the exponent. */
  method RightToLeft(m: array<int>, L: Place, e0: nat, W: int, C: int, fe: int, ghost X: int, ghost N: int, ghost ND: int)
    requires W >= 2 && W % 2 == 0 && C >= 1 && C % W == 0 && PowerOfTwo(L.n) && L.n >= 2 && L.Fits(m.Length) && L.Disjoint() && e0 >= 1
    requires InDomain(m[..], L, W, N, ND) && Holds(m[..], L, L.r0, W, X, 1, N)
    modifies m
    ensures Kept(old(m[..]), m[..], L) && InDomain(m[..], L, W, N, ND) && Holds(m[..], L, L.r, W, X, e0, N)
  {
    hide Num;
    hide Pow;
    hide Kept;
    hide InDomain;
    hide Holds;
    ghost var m0 := m[..];
    var e: nat, f := e0, true;
    ghost var g: nat, done: nat := 1, 0;
    KeptSelf(m0, L);
    RegistersApart(L);
    while true
      invariant e >= 1 && g >= 1 && done + g * e == e0
      invariant Kept(m0, m[..], L) && InDomain(m[..], L, W, N, ND) && Holds(m[..], L, L.r0, W, X, g, N)
      invariant if f then done == 0 else Holds(m[..], L, L.r, W, X, done, N)
      decreases e
    {
      HalfExponent(g, e);
      ghost var m1 := m[..];
      if e % 2 == 1 {
        Collect(m, L, f, W, C, fe, X, done, g, N, ND);
        KeptTrans(m0, m1, m[..], L);
        done := done + g;
        f := false;
      }
      e := e / 2;
      if e == 0 { break; }
      ghost var m2 := m[..];
      SquareInto(m, L, L.r0, L.r0, L.r, W, C, fe, X, g, N, ND);
      KeptTrans(m0, m2, m[..], L);
      if !f { HoldsKept(m2, m[..], L, L.r, W, X, done, N); }
      g := 2 * g;
    }
  }

  /** A set bit: the first one copies the power, the others multiply by it. */
  method Collect(m: array<int>, L: Place, f: bool, W: int, C: int, fe: int, ghost X: int, ghost done: nat, ghost g: nat, ghost N: int, ghost ND: int)
    requires W >= 2 && W % 2 == 0 && C >= 1 && C % W == 0 && PowerOfTwo(L.n) && L.n >= 2 && L.Fits(m.Length) && L.Disjoint()
    requires InDomain(m[..], L, W, N, ND) && Holds(m[..], L, L.r0, W, X, g, N)
    requires if f then done == 0 else Holds(m[..], L, L.r, W, X, done, N)
    modifies m
    ensures Kept(old(m[..]), m[..], L) && InDomain(m[..], L, W, N, ND)
    ensures Holds(m[..], L, L.r0, W, X, g, N) && Holds(m[..], L, L.r, W, X, done + g, N)
  {
    hide Num;
    hide Pow;
    hide Stands;
    hide Kept;
    hide InDomain;
    if f {
      ghost var m0 := m[..];
      RegistersApart(L);
      Copy(m, L.r, L.r0, L.n, W);
      KeptOne(m0, m[..], L.r, L);
      DomainKept(m0, m[..], L, W, N, ND);
      NumKept(m0, m[..], L.r, L.n, L.r0, L.n, W);
    } else {
      TimesBase(m, L, W, C, fe, X, done, g, N, ND);
    }
  }

  lemma KeptSelf(m: seq<int>, L: Place)
    requires L.Fits(|m|)
    ensures Kept(m, m, L)
  {}
}
