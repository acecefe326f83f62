/** COMBA multiplication and squaring of n-limb numbers in base B, with a double-word accumulator in [-D, D). */
module Comba {
  import opened Arith
  import opened Digits
  import opened Columns

  /** The value fits the double word. */
  ghost predicate InRange(x: int, D: int) {
    -D <= x < D
  }

  /** Double-word addition and multiplication; leaving the range is excluded at every use. */
  function DAdd(x: int, y: int, ghost D: int): int
    requires InRange(x + y, D)
  {
    x + y
  }

  function DMul(x: int, y: int, ghost D: int): int
    requires InRange(x * y, D)
  {
    x * y
  }

  /** The head room rule of the configuration: (n + 2) * B^2 is below half of D. */
  ghost predicate HeadRoom(n: nat, B: int, D: int) {
    n >= 2 && B >= 2 && 2 * ((n + 2) * (B * B)) < D
  }

  /** Anything up to n limb products plus a carry fits, with room to spare. */
  lemma Fits(x: int, k: int, n: nat, B: int, D: int)
    requires HeadRoom(n, B, D) && 0 <= k <= n + 1 && 0 <= x <= k * ((B - 1) * (B - 1)) + n * (B - 1)
    ensures InRange(x, D) && x < (n + 2) * (B * B)
  {
    var C, BB := (B - 1) * (B - 1), B * B;
    MulMono(0, B - 1, B - 1);
    MulMono(1, B, B);
    MulMono(k, n + 1, C);
    assert C + (B - 1) + B == BB by { SquareOfNext(B); }
    FitsArith(x, n, C, BB, B);
  }

  lemma SquareOfNext(B: int)
    ensures (B - 1) * (B - 1) + (B - 1) + B == B * B
  {}

  lemma FitsArith(x: int, n: nat, C: int, BB: int, B: int)
    requires B >= 2 && C >= 0 && C + (B - 1) + B == BB && x <= (n + 1) * C + n * (B - 1)
    ensures x < (n + 2) * BB
  {
    MulMono(C, BB, n + 1);
    assert C * (n + 1) == (n + 1) * C && BB * (n + 1) == (n + 1) * BB;
    assert (n + 1) * BB == (n + 1) * C + (n + 1) * (B - 1) + (n + 1) * B by { assert (n + 1) * (C + (B - 1) + B) == (n + 1) * C + (n + 1) * (B - 1) + (n + 1) * B; }
    assert (n + 1) * (B - 1) == n * (B - 1) + (B - 1);
    MulMono(0, n + 1, B);
    assert (n + 2) * BB == (n + 1) * BB + BB;
  }

  /** The sum of a[x]*b[x] for x in [lo, hi). */
  ghost function Diag(a: seq<int>, b: seq<int>, lo: int, hi: int): int
    requires 0 <= lo && hi <= |a| && hi <= |b|
    decreases hi - lo
  {
    if lo >= hi then 0 else Diag(a, b, lo, hi - 1) + a[hi - 1] * b[hi - 1]
  }

  lemma {:induction false} DiagFirst(a: seq<int>, b: seq<int>, lo: int, hi: int)
    requires 0 <= lo < hi <= |a| && hi <= |b|
    ensures Diag(a, b, lo, hi) == a[lo] * b[lo] + Diag(a, b, lo + 1, hi)
    decreases hi - lo
  {
    if lo + 1 < hi { DiagFirst(a, b, lo, hi - 1); }
  }

  lemma {:induction false} DiagBound(a: seq<int>, b: seq<int>, lo: int, hi: int, B: int)
    requires 0 <= lo <= hi <= |a| && hi <= |b| && B >= 1 && Norm(a, B) && Norm(b, B)
    ensures 0 <= Diag(a, b, lo, hi) <= (hi - lo) * ((B - 1) * (B - 1))
    decreases hi - lo
  {
    if lo < hi {
      DiagBound(a, b, lo, hi - 1, B);
      LimbProduct(a[hi - 1], b[hi - 1], B);
      assert (hi - lo) * ((B - 1) * (B - 1)) == (hi - 1 - lo) * ((B - 1) * (B - 1)) + (B - 1) * (B - 1);
    }
  }

  // ----- the pair loop ---------------------------------------------------------------------

  /** What the accumulator holds while pairs (i, k) with i + k = j are folded in from the outside. */
  ghost function Folded(a: seq<int>, b: seq<int>, j: int, lo: int, hi: int, i: int, k: int): int
    requires 0 <= lo <= i && i <= k + 1 && k < hi <= |a| == |b| && lo + hi - 1 == j == i + k
  {
    Conv(a, b, j, lo, i) + Diag(a, b, i, k + 1) + Conv(a, b, j, k + 1, hi)
  }

  lemma FoldedStep(a: seq<int>, b: seq<int>, j: int, lo: int, hi: int, i: int, k: int)
    requires 0 <= lo <= i < k < hi <= |a| == |b| && lo + hi - 1 == j == i + k
    ensures Folded(a, b, j, lo, hi, i + 1, k - 1) == Folded(a, b, j, lo, hi, i, k) + (a[i] - a[k]) * (b[k] - b[i])
  {
    assert Conv(a, b, j, lo, i + 1) == Conv(a, b, j, lo, i) + a[i] * b[k];
    ConvFirst(a, b, j, k, hi);
    DiagFirst(a, b, i, k + 1);
    assert Diag(a, b, i + 1, k + 1) == Diag(a, b, i + 1, k) + a[k] * b[k];
    PairIdentity(a[i], a[k], b[i], b[k]);
  }

  lemma PairIdentity(x: int, y: int, z: int, w: int)
    ensures (x - y) * (w - z) == x * w + y * z - x * z - y * w
  {}

  lemma FoldedBound(a: seq<int>, b: seq<int>, j: int, lo: int, hi: int, i: int, k: int, B: int)
    requires 0 <= lo <= i && i <= k + 1 && k < hi <= |a| == |b| && lo + hi - 1 == j == i + k
    requires B >= 1 && Norm(a, B) && Norm(b, B)
    ensures 0 <= Folded(a, b, j, lo, hi, i, k) <= (hi - lo) * ((B - 1) * (B - 1))
  {
    ConvBound(a, b, j, lo, i, B);
    DiagBound(a, b, i, k + 1, B);
    ConvBound(a, b, j, k + 1, hi, B);
    var q := (B - 1) * (B - 1);
    assert (hi - lo) * q == (i - lo) * q + (k + 1 - i) * q + (hi - k - 1) * q;
  }

  lemma FoldedStart(a: seq<int>, b: seq<int>, j: int, lo: int, hi: int)
    requires 0 <= lo < hi <= |a| == |b| && lo + hi - 1 == j
    ensures Folded(a, b, j, lo, hi, lo, hi - 1) == Diag(a, b, lo, hi)
  {}

  lemma FoldedEnd(a: seq<int>, b: seq<int>, j: int, lo: int, hi: int, i: int, k: int)
    requires 0 <= lo <= i && k <= i <= k + 1 && k < hi <= |a| == |b| && lo + hi - 1 == j == i + k && lo < hi
    ensures Folded(a, b, j, lo, hi, i, k) == Conv(a, b, j, lo, hi)
  {
    ConvSplit(a, b, j, lo, i, hi);
    if i == k {
      ConvFirst(a, b, j, i, hi);
      assert Diag(a, b, i, i) == 0;
    }
  }

  /** One column: t starts as carry plus diagonal sum and ends as carry plus the column's products. */
  method PairSum(t0: int, a: array<int>, b: array<int>, j: int, lo: int, hi: int, ghost co: int, ghost B: int, ghost D: int)
    returns (t: int)
    requires a.Length == b.Length && Norm(a[..], B) && Norm(b[..], B) && HeadRoom(a.Length, B, D)
    requires 0 <= lo < hi <= a.Length && lo + hi - 1 == j && 0 <= co <= a.Length * (B - 1)
    requires t0 == co + Diag(a[..], b[..], lo, hi)
    ensures t == co + Conv(a[..], b[..], j, lo, hi)
  {
    hide Conv;
    hide Diag;
    hide HeadRoom;
    hide Folded;
    ghost var n := a.Length;
    t := t0;
    var i, k := lo, hi - 1;
    FoldedStart(a[..], b[..], j, lo, hi);
    while i < k
      invariant lo <= i && i <= k + 1 && k < hi && i + k == j
      invariant t == co + Folded(a[..], b[..], j, lo, hi, i, k)
    {
      FoldedStep(a[..], b[..], j, lo, hi, i, k);
      FoldedBound(a[..], b[..], j, lo, hi, i + 1, k - 1, B);
      PairFits(a[i] - a[k], b[k] - b[i], t + (a[i] - a[k]) * (b[k] - b[i]), hi - lo, n, B, D);
      t := DAdd(t, DMul(a[i] - a[k], b[k] - b[i], D), D);
      i, k := i + 1, k - 1;
    }
    FoldedEnd(a[..], b[..], j, lo, hi, i, k);
  }

  lemma PairFits(x: int, y: int, s: int, w: int, n: nat, B: int, D: int)
    requires HeadRoom(n, B, D) && -B < x < B && -B < y < B && 0 <= w <= n
    requires 0 <= s <= w * ((B - 1) * (B - 1)) + n * (B - 1)
    ensures InRange(x * y, D) && InRange(s, D)
  {
    hide HeadRoom;
    Fits(s, w, n, B, D);
    SignedProduct(x, y, B);
    OneProductFits(n, B, D);
  }

  lemma OneProductFits(n: nat, B: int, D: int)
    requires HeadRoom(n, B, D)
    ensures B >= 2 && B * B < D
  {
    MulMono(1, B, B);
    MulMono(1, n + 2, B * B);
  }

  lemma SignedProduct(x: int, y: int, B: int)
    requires B >= 1 && -B < x < B && -B < y < B
    ensures -(B * B) <= x * y <= B * B
  {
    if x >= 0 {
      MulMono(-B, y, x);
      MulMono(y, B, x);
      MulMono(x, B, B);
    } else {
      MulMono(-B, y, -x);
      MulMono(y, B, -x);
      MulMono(-x, B, B);
      assert y * (-x) == -(x * y);
    }
  }

  // ----- MCL_BIG_mul -----------------------------------------------------------------------

  /** The carry left by a column stays below n*(B-1). */
  lemma CarryBound(t: int, n: nat, w: int, co: int, B: int)
    requires B >= 2 && 0 <= w <= n && 0 <= co <= n * (B - 1) && 0 <= t - co <= w * ((B - 1) * (B - 1))
    ensures 0 <= t / B <= n * (B - 1) && t == (t / B) * B + t % B && 0 <= t % B < B
  {
    var c := B - 1;
    MulMono(0, c, c);
    MulMono(w, n, c * c);
    SquareAndOne(n, c);
    QuotientAtMost(t, B, n * c);
    QuotientBack(t, B);
  }

  lemma SquareAndOne(n: int, c: int)
    ensures n * (c * c) + n * c == (n * c) * (c + 1)
  {
    assert (n * c) * c == n * (c * c);
  }

  lemma QuotientBack(t: int, B: int)
    requires B > 0
    ensures t == (t / B) * B + t % B && 0 <= t % B < B
  {}

  lemma QuotientAtMost(t: int, B: int, q: int)
    requires B >= 1 && 0 <= t <= q * B
    ensures 0 <= t / B <= q
  {
    var k := t / B;
    assert (q + 1) * B == q * B + B;
    if k > q { MulMono(q + 1, k, B); }
    if k < 0 { MulMono(k + 1, 0, B); }
  }

  /** c's first j limbs with carry co above hold the first j columns. */
  ghost predicate ColumnsDone(c: seq<int>, co: int, a: seq<int>, b: seq<int>, j: nat, B: int) {
    |c| == j && Norm(c, B) && Val(c, B) + co * Pow(B, j) == Cols(a, b, j, B)
  }

  lemma ColumnStep(c: seq<int>, co: int, a: seq<int>, b: seq<int>, j: nat, B: int, t: int)
    requires B >= 2 && ColumnsDone(c, co, a, b, j, B) && t == co + Col(a, b, j)
    ensures ColumnsDone(c + [t % B], t / B, a, b, j + 1, B)
  {
    hide Val;
    hide Pow;
    hide Col;
    ValSnoc(c, t % B, B);
    PowSucc(B, j);
    ColumnArith(Val(c, B), co, Col(a, b, j), t, B, Pow(B, j));
  }

  lemma ColumnArith(v: int, co: int, col: int, t: int, B: int, p: int)
    requires B >= 2 && t == co + col
    ensures (v + (t % B) * p) + (t / B) * (B * p) == (v + co * p) + col * p
  {
    CarryUp(t, t % B, t / B, B, p);
    assert (co + col) * p == co * p + col * p;
  }

  /** The prefix and suffix sums of the diagonal products, for the low and the high columns. */
  method DiagonalSums(a: array<int>, b: array<int>, ghost B: int, ghost D: int) returns (s: array<int>)
    requires a.Length == b.Length && Norm(a[..], B) && Norm(b[..], B) && HeadRoom(a.Length, B, D)
    ensures fresh(s) && s.Length == 2 * a.Length - 1
    ensures forall j :: 0 <= j < a.Length ==> s[j] == Diag(a[..], b[..], 0, j + 1)
    ensures forall j :: a.Length <= j < 2 * a.Length - 1 ==> s[j] == Diag(a[..], b[..], j - a.Length + 1, a.Length)
  {
    hide Diag;
    hide HeadRoom;
    HeadRoomSize(a.Length, B, D);
    var n := a.Length;
    s := new int[2 * n - 1];
    DiagFits(a[..], b[..], 0, 1, n, B, D);
    s[0] := DMul(a[0], b[0], D);
    for i := 1 to n
      modifies s
      invariant forall j :: 0 <= j < i ==> s[j] == Diag(a[..], b[..], 0, j + 1)
    {
      DiagFits(a[..], b[..], 0, i + 1, n, B, D);
      s[i] := DAdd(s[i - 1], DMul(a[i], b[i], D), D);
    }
    DiagFits(a[..], b[..], n - 1, n, n, B, D);
    s[2 * n - 2] := DMul(a[n - 1], b[n - 1], D);
    var i := 2 * n - 3;
    while i >= n
      modifies s
      invariant n - 1 <= i <= 2 * n - 3
      invariant forall j :: 0 <= j < n ==> s[j] == Diag(a[..], b[..], 0, j + 1)
      invariant forall j :: i < j < 2 * n - 1 && n <= j ==> s[j] == Diag(a[..], b[..], j - n + 1, n)
    {
      DiagFitsFirst(a[..], b[..], i - n + 1, n, B, D);
      s[i] := DAdd(s[i + 1], DMul(a[i - n + 1], b[i - n + 1], D), D);
      i := i - 1;
    }
  }

  lemma HeadRoomSize(n: nat, B: int, D: int)
    requires HeadRoom(n, B, D)
    ensures n >= 2 && B >= 2
  {}

  lemma DiagFits(a: seq<int>, b: seq<int>, lo: nat, hi: nat, n: nat, B: int, D: int)
    requires |a| == |b| == n && Norm(a, B) && Norm(b, B) && HeadRoom(n, B, D) && lo < hi <= n
    ensures Diag(a, b, lo, hi) == Diag(a, b, lo, hi - 1) + a[hi - 1] * b[hi - 1] && (lo == hi - 1 ==> Diag(a, b, lo, hi - 1) == 0)
    ensures InRange(a[hi - 1] * b[hi - 1], D) && InRange(Diag(a, b, lo, hi), D)
  {
    DiagBound(a, b, lo, hi, B);
    DiagRange(Diag(a, b, lo, hi), hi - lo, n, B, D);
    LimbProduct(a[hi - 1], b[hi - 1], B);
    DiagRange(a[hi - 1] * b[hi - 1], 1, n, B, D);
  }

  lemma DiagFitsFirst(a: seq<int>, b: seq<int>, lo: nat, n: nat, B: int, D: int)
    requires |a| == |b| == n && Norm(a, B) && Norm(b, B) && HeadRoom(n, B, D) && lo < n
    ensures Diag(a, b, lo, n) == Diag(a, b, lo + 1, n) + a[lo] * b[lo]
    ensures InRange(a[lo] * b[lo], D) && InRange(Diag(a, b, lo, n), D)
  {
    DiagFirst(a, b, lo, n);
    DiagBound(a, b, lo, n, B);
    DiagRange(Diag(a, b, lo, n), n - lo, n, B, D);
    LimbProduct(a[lo], b[lo], B);
    DiagRange(a[lo] * b[lo], 1, n, B, D);
  }

  lemma DiagRange(x: int, w: int, n: nat, B: int, D: int)
    requires HeadRoom(n, B, D) && 0 <= w <= n && 0 <= x <= w * ((B - 1) * (B - 1))
    ensures InRange(x, D)
  {
    MulMono(0, B - 1, n);
    assert 0 <= n * (B - 1) by { assert n * (B - 1) == (B - 1) * n; }
    Fits(x, w, n, B, D);
  }

  /** The range of indices i with i and j-i both in [0, n). */
  function Lo(j: int, n: int): int { if j < n then 0 else j - n + 1 }
  function Hi(j: int, n: int): int { if j < n then j + 1 else n }

  lemma ColumnRange(a: seq<int>, b: seq<int>, j: int, n: int, B: int)
    requires |a| == |b| == n && n >= 1 && 0 <= j <= 2 * n - 2 && B >= 1 && Norm(a, B) && Norm(b, B)
    ensures 0 <= Lo(j, n) < Hi(j, n) <= n && Lo(j, n) + Hi(j, n) - 1 == j
    ensures Col(a, b, j) == Conv(a, b, j, Lo(j, n), Hi(j, n))
    ensures 0 <= Col(a, b, j) <= (Hi(j, n) - Lo(j, n)) * ((B - 1) * (B - 1))
  {
    ColIsConv(a, b, j);
    ConvBound(a, b, j, Lo(j, n), Hi(j, n), B);
  }

  /** c = a*b for normalised operands; all 2n limbs of c are normalised. */
  method Mul(c: array<int>, a: array<int>, b: array<int>, B: int, ghost D: int)
    requires a.Length == b.Length && c.Length == 2 * a.Length && c != a && c != b
    requires Norm(a[..], B) && Norm(b[..], B) && HeadRoom(a.Length, B, D)
    modifies c
    ensures Norm(c[..], B) && Val(c[..], B) == Val(a[..], B) * Val(b[..], B)
  {
    hide Val;
    hide Pow;
    hide Diag;
    hide Conv;
    hide Col;
    hide HeadRoom;
    hide ColumnsDone;
    HeadRoomSize(a.Length, B, D);
    var n := a.Length;
    var s := DiagonalSums(a, b, B, D);
    var co := 0;
    MulMono(0, B - 1, n);
    assert n * (B - 1) == (B - 1) * n;
    NoColumns(c[..0], a[..], b[..], B);
    for j := 0 to 2 * n - 1
      invariant 0 <= co <= n * (B - 1)
      invariant ColumnsDone(c[..j], co, a[..], b[..], j, B)
      modifies c
    {
      ghost var done := c[..j];
      ColumnRange(a[..], b[..], j, n, B);
      StartFits(a[..], b[..], co, j, n, B, D);
      var t := DAdd(co, s[j], D);
      t := PairSum(t, a, b, j, Lo(j, n), Hi(j, n), co, B, D);
      CarryBound(t, n, Hi(j, n) - Lo(j, n), co, B);
      ColumnStep(done, co, a[..], b[..], j, B, t);
      c[j] := t % B;
      co := t / B;
      assert c[..j + 1] == done + [c[j]];
    }
    AllColumns(c[..2 * n - 1], co, a[..], b[..], n, B);
    ghost var done := c[..2 * n - 1];
    c[2 * n - 1] := co;
    assert c[..] == done + [co];
  }

  lemma StartFits(a: seq<int>, b: seq<int>, co: int, j: int, n: nat, B: int, D: int)
    requires |a| == |b| == n && Norm(a, B) && Norm(b, B) && HeadRoom(n, B, D) && 0 <= j <= 2 * n - 2
    requires 0 <= co <= n * (B - 1)
    ensures InRange(co + Diag(a, b, Lo(j, n), Hi(j, n)), D)
  {
    DiagBound(a, b, Lo(j, n), Hi(j, n), B);
    Fits(co + Diag(a, b, Lo(j, n), Hi(j, n)), Hi(j, n) - Lo(j, n), n, B, D);
  }

  lemma NoColumns(c: seq<int>, a: seq<int>, b: seq<int>, B: int)
    requires |c| == 0
    ensures ColumnsDone(c, 0, a, b, 0, B)
  {}

  /** With every column in place the carry is the top limb. */
  lemma AllColumns(c: seq<int>, co: int, a: seq<int>, b: seq<int>, n: nat, B: int)
    requires B >= 2 && n >= 1 && |a| == |b| == n && Norm(a, B) && Norm(b, B) && co >= 0
    requires ColumnsDone(c, co, a, b, 2 * n - 1, B)
    ensures Norm(c + [co], B) && Val(c + [co], B) == Val(a, B) * Val(b, B)
  {
    hide Val;
    hide Pow;
    ColBeyond(a, b, 2 * n - 1);
    assert Cols(a, b, 2 * n, B) == Cols(a, b, 2 * n - 1, B) + 0 * Pow(B, 2 * n - 1);
    ColsProduct(a, b, 2 * n, B);
    ValSnoc(c, co, B);
    ValBound(a, B);
    ValBound(b, B);
    ValBound(c, B);
    PowAdd(B, n, n);
    PowAdd(B, 1, 2 * n - 1);
    PowOne(B);
    ProductBound(Val(a, B), Val(b, B), Pow(B, n));
    TopLimb(Val(c, B), co, Pow(B, 2 * n - 1), B);
  }

  lemma ProductBound(x: int, y: int, p: int)
    requires 0 <= x < p && 0 <= y < p
    ensures x * y < p * p
  {
    MulMono(x, p, y);
    MulMono(y, p - 1, p);
    assert p * y == y * p && (p - 1) * p == p * p - p;
  }

  lemma TopLimb(v: int, co: int, p: int, B: int)
    requires 0 <= v < p && v + co * p < B * p
    ensures co < B
  {
    if co >= B { MulMono(B, co, p); }
  }

  // ----- MCL_BIG_sqr -----------------------------------------------------------------------

  /** Half of a symmetric column, doubled, and the middle square when the column is even. */
  lemma {:induction false} SquareColumn(a: seq<int>, j: int, lo: int, hi: int)
    requires 0 <= lo <= hi <= |a| && lo + hi - 1 == j && (lo < hi ==> j - lo < |a| && 0 <= j - hi + 1)
    ensures var half := lo + (hi - lo) / 2;
      Conv(a, a, j, lo, hi) == 2 * Conv(a, a, j, lo, half) + (if (hi - lo) % 2 == 1 then a[j / 2] * a[j / 2] else 0)
    decreases hi - lo
  {
    if hi - lo >= 2 {
      SquareColumn(a, j, lo + 1, hi - 1);
      ConvFirst(a, a, j, lo, hi);
      var half := lo + (hi - lo) / 2;
      assert half == lo + 1 + (hi - 1 - (lo + 1)) / 2;
      ConvFirst(a, a, j, lo, half);
      assert a[hi - 1] * a[j - hi + 1] == a[lo] * a[j - lo];
    } else if hi - lo == 1 {
      assert lo == j / 2 && j == 2 * lo;
    }
  }

  /** The products of one column of the square, summed once, doubled, with the carry and the middle square. */
  method SquareSum(co: int, a: array<int>, j: int, lo: int, hi: int, ghost B: int, ghost D: int) returns (t: int)
    requires Norm(a[..], B) && HeadRoom(a.Length, B, D) && 0 <= lo < hi <= a.Length && lo + hi - 1 == j
    requires 0 <= co <= a.Length * (B - 1)
    ensures t == co + Conv(a[..], a[..], j, lo, hi)
  {
    hide Conv;
    hide HeadRoom;
    ghost var n := a.Length;
    var half := lo + (hi - lo) / 2;
    t := 0;
    ConvNone(a[..], j, lo);
    for i := lo to half
      invariant t == Conv(a[..], a[..], j, lo, i)
    {
      ConvFits(a[..], j, lo, i + 1, n, B, D);
      t := DAdd(t, DMul(a[j - i], a[i], D), D);
    }
    SquareColumn(a[..], j, lo, hi);
    SquareFits(a[..], t, co, j, lo, hi, n, B, D);
    t := DAdd(t, t, D);
    t := DAdd(t, co, D);
    if j % 2 == 0 {
      t := DAdd(t, DMul(a[j / 2], a[j / 2], D), D);
    }
  }

  lemma ConvNone(a: seq<int>, j: int, lo: int)
    requires 0 <= lo <= |a|
    ensures Conv(a, a, j, lo, lo) == 0
  {}

  lemma ConvFits(a: seq<int>, j: int, lo: int, hi: int, n: nat, B: int, D: int)
    requires |a| == n && Norm(a, B) && HeadRoom(n, B, D) && 0 <= lo < hi <= n && j - lo < n && 0 <= j - hi + 1
    ensures Conv(a, a, j, lo, hi) == Conv(a, a, j, lo, hi - 1) + a[j - hi + 1] * a[hi - 1]
    ensures InRange(a[j - hi + 1] * a[hi - 1], D) && InRange(Conv(a, a, j, lo, hi), D)
  {
    ConvBound(a, a, j, lo, hi, B);
    DiagRange(Conv(a, a, j, lo, hi), hi - lo, n, B, D);
    LimbProduct(a[j - hi + 1], a[hi - 1], B);
    DiagRange(a[j - hi + 1] * a[hi - 1], 1, n, B, D);
    assert a[hi - 1] * a[j - hi + 1] == a[j - hi + 1] * a[hi - 1];
  }

  lemma SquareFits(a: seq<int>, t: int, co: int, j: int, lo: int, hi: int, n: nat, B: int, D: int)
    requires |a| == n && Norm(a, B) && HeadRoom(n, B, D) && 0 <= lo < hi <= n && lo + hi - 1 == j
    requires 0 <= co <= n * (B - 1)
    requires var sq := if (hi - lo) % 2 == 1 then a[j / 2] * a[j / 2] else 0;
      Conv(a, a, j, lo, hi) == 2 * t + sq && t == Conv(a, a, j, lo, lo + (hi - lo) / 2)
    ensures (hi - lo) % 2 == 1 <==> j % 2 == 0
    ensures InRange(2 * t, D) && InRange(2 * t + co, D) && InRange(Conv(a, a, j, lo, hi) + co, D)
    ensures 0 <= j / 2 < n && InRange(a[j / 2] * a[j / 2], D)
  {
    hide HeadRoom;
    hide Conv;
    ConvBound(a, a, j, lo, lo + (hi - lo) / 2, B);
    ConvBound(a, a, j, lo, hi, B);
    MiddleIndex(j, lo, hi);
    LimbProduct(a[j / 2], a[j / 2], B);
    PartialSumsFit(Conv(a, a, j, lo, hi), t, a[j / 2] * a[j / 2], co, hi - lo, n, B, D);
  }

  lemma MiddleIndex(j: int, lo: int, hi: int)
    requires 0 <= lo < hi && lo + hi - 1 == j
    ensures (hi - lo) % 2 == 1 <==> j % 2 == 0
    ensures 0 <= j / 2 < hi
  {}

  /** A column c that is twice t, plus possibly a square s: every partial sum is in range. */
  lemma PartialSumsFit(c: int, t: int, s: int, co: int, w: int, n: nat, B: int, D: int)
    requires HeadRoom(n, B, D) && 1 <= w <= n && 0 <= co <= n * (B - 1)
    requires 0 <= c <= w * ((B - 1) * (B - 1)) && 0 <= t && 0 <= s <= (B - 1) * (B - 1)
    requires c == 2 * t || c == 2 * t + s
    ensures InRange(2 * t, D) && InRange(2 * t + co, D) && InRange(c + co, D) && InRange(s, D)
  {
    hide HeadRoom;
    DiagRange(s, 1, n, B, D);
    Fits(c + co, w, n, B, D);
    Fits(2 * t + co, w, n, B, D);
    DiagRange(2 * t, w, n, B, D);
  }

  /** c = a*a, limb for limb what Mul(a, a) gives. */
  method Sqr(c: array<int>, a: array<int>, B: int, ghost D: int)
    requires c.Length == 2 * a.Length && c != a && Norm(a[..], B) && HeadRoom(a.Length, B, D)
    modifies c
    ensures Norm(c[..], B) && Val(c[..], B) == Val(a[..], B) * Val(a[..], B)
    ensures forall m: seq<int> :: |m| == c.Length && Norm(m, B) && Val(m, B) == Val(a[..], B) * Val(a[..], B) ==> c[..] == m
  {
    hide Val;
    hide Pow;
    hide Conv;
    hide Col;
    hide HeadRoom;
    hide ColumnsDone;
    HeadRoomSize(a.Length, B, D);
    var n := a.Length;
    var co := 0;
    MulMono(0, B - 1, n);
    assert n * (B - 1) == (B - 1) * n;
    NoColumns(c[..0], a[..], a[..], B);
    for j := 0 to 2 * n - 1
      invariant 0 <= co <= n * (B - 1)
      invariant ColumnsDone(c[..j], co, a[..], a[..], j, B)
      modifies c
    {
      ghost var done := c[..j];
      ColumnRange(a[..], a[..], j, n, B);
      var t := SquareSum(co, a, j, Lo(j, n), Hi(j, n), B, D);
      CarryBound(t, n, Hi(j, n) - Lo(j, n), co, B);
      ColumnStep(done, co, a[..], a[..], j, B, t);
      c[j] := t % B;
      co := t / B;
      assert c[..j + 1] == done + [c[j]];
    }
    AllColumns(c[..2 * n - 1], co, a[..], a[..], n, B);
    ghost var done := c[..2 * n - 1];
    c[2 * n - 1] := co;
    assert c[..] == done + [co];
    forall m: seq<int> | |m| == c.Length && Norm(m, B) && Val(m, B) == Val(a[..], B) * Val(a[..], B) ensures c[..] == m {
      ValInjective(c[..], m, B);
    }
  }
}
