/** Reduction of a double-length product: Montgomery by columns and by rows. */
module FieldReduction {
  import opened Arith
  import opened Digits
  import opened Columns
  import opened Comba
  import opened RsaArithmetic
  import opened FieldDigits

  /** r is (d + q*p)/R for some q in [0, R). */
  ghost predicate MontForm(r: int, d: int, p: int, R: int) {
    exists q :: MontWith(r, d, q, p, R)
  }

  ghost predicate MontWith(r: int, d: int, q: int, p: int, R: int) {
    0 <= q < R && r * R == d + q * p
  }

  /** Such an r is d/R mod p, and below 2p when d < p*R. */
  lemma MontFormProperties(r: int, d: int, p: int, R: int)
    requires MontForm(r, d, p, R) && p > 0 && R > 0
    ensures Cong(r * R, d, p)
    ensures 0 <= d < p * R ==> 0 <= r < 2 * p
  {
    var q :| MontWith(r, d, q, p, R);
    CongFrom(r * R, d, q, p);
    if 0 <= d < p * R { BelowTwice(r, d, q, p, R); }
  }

  lemma BelowTwice(r: int, d: int, q: int, p: int, R: int)
    requires p > 0 && R > 0 && 0 <= q < R && r * R == d + q * p && 0 <= d < p * R
    ensures 0 <= r < 2 * p
  {
    hide Cong;
    MulMono(0, q, p);
    MulMono(q, R, p);
    assert (2 * p) * R == p * R + R * p;
    if r >= 2 * p { MulMono(2 * p, r, R); }
    if r <= -1 { MulMono(r, -1, R); }
  }

  /** An inverse of p mod B lifts to every power of B. */
  lemma {:induction false} LiftInverse(p: int, x: int, B: int, n: nat) returns (y: int)
    requires B >= 1 && Cong(p * x, 1, B)
    ensures Pow(B, n) > 0 && Cong(p * y, 1, Pow(B, n))
    decreases n
  {
    hide Cong;
    PowPos(B, n);
    if n == 0 {
      y := 0;
      CongFrom(p * y, 1, -1, 1) by { assert p * 0 == 0; }
      PowSucc(B, 0);
    } else {
      var z := LiftInverse(p, x, B, n - 1);
      var M := Pow(B, n - 1);
      y := x + z - p * (x * z);
      var j := CongWitness(p * x, 1, B);
      var k := CongWitness(p * z, 1, M);
      LiftProduct(p, x, z, j, k, B, M);
      CongFrom(p * y, 1, -(j * k), B * M);
    }
  }

  lemma LiftProduct(p: int, x: int, z: int, j: int, k: int, B: int, M: int)
    requires p * x == 1 + j * B && p * z == 1 + k * M
    ensures p * (x + z - p * (x * z)) == 1 + (-(j * k)) * (B * M)
  {
    assert p * (p * (x * z)) == (p * x) * (p * z);
    assert (1 + j * B) * (1 + k * M) == 1 + j * B + k * M + (j * B) * (k * M);
    assert (j * B) * (k * M) == (j * k) * (B * M);
    assert p * (x + z - p * (x * z)) == p * x + p * z - p * (p * (x * z));
    assert (-(j * k)) * (B * M) == -((j * k) * (B * M));
  }

  /** The two branches cannot differ: the reduced value is determined by d, p and R. */
  lemma MontFormUnique(r: int, s: int, d: int, p: int, y: int, R: int)
    requires R > 0 && Cong(p * y, 1, R) && MontForm(r, d, p, R) && MontForm(s, d, p, R)
    ensures r == s
  {
    hide Cong;
    var q :| MontWith(r, d, q, p, R);
    var u :| MontWith(s, d, u, p, R);
    assert q * p == u * p + (r - s) * R by { assert (r - s) * R == r * R - s * R; }
    CongFrom(q * p, u * p, r - s, R);
    CongCancel(q, u, p, y, R);
    CongUnique(q, u, R);
    assert (r - s) * R == 0;
    if r > s { MulMono(1, r - s, R); }
    if r < s { MulMono(r - s, -1, R); }
  }

  // ----- column by column ------------------------------------------------------------------

  /** Low columns cancelled: d's first j limbs plus the first j columns of q*md are cy * B^j. */
  ghost predicate Cancelled(d: seq<int>, q: seq<int>, md: seq<int>, cy: int, B: int) {
    |q| <= |d| && Val(d[..|q|], B) + Cols(q, md, |q|, B) == cy * Pow(B, |q|)
  }

  lemma {:induction false} ColExtend(q: seq<int>, x: int, md: seq<int>, k: int)
    requires k < |q|
    ensures Col(q + [x], md, k) == Col(q, md, k)
  {
    assert (q + [x])[..|q|] == q;
  }

  lemma {:induction false} ColsExtend(q: seq<int>, x: int, md: seq<int>, m: nat, B: int)
    requires m <= |q|
    ensures Cols(q + [x], md, m, B) == Cols(q, md, m, B)
    decreases m
  {
    if m > 0 {
      ColsExtend(q, x, md, m - 1, B);
      ColExtend(q, x, md, m - 1);
    }
  }

  /** One more quotient digit makes one more column divisible by B. */
  lemma CancelStep(d: seq<int>, q: seq<int>, md: seq<int>, cy: int, sp: int, t: int, B: int)
    requires B >= 2 && |q| < |d| && |q| < |md| && Cancelled(d, q, md, cy, B)
    requires t == d[|q|] + cy + Col(q + [sp], md, |q|) && t % B == 0
    ensures Cancelled(d, q + [sp], md, t / B, B)
  {
    hide Val;
    hide Pow;
    hide Col;
    var j := |q|;
    ColsExtend(q, sp, md, j, B);
    ValPrefix(d, j, B);
    PowSucc(B, j);
    assert Cols(q + [sp], md, j + 1, B) == Cols(q + [sp], md, j, B) + Col(q + [sp], md, j) * Pow(B, j);
    CancelArith(d[j], cy, Col(q + [sp], md, j), t, B, Pow(B, j));
  }

  lemma CancelArith(dj: int, cy: int, col: int, t: int, B: int, p: int)
    requires B >= 2 && t == dj + cy + col && t % B == 0
    ensures dj * p + col * p + cy * p == (t / B) * (B * p)
  {
    assert t == (t / B) * B;
    assert (dj + cy + col) * p == dj * p + cy * p + col * p;
    assert ((t / B) * B) * p == (t / B) * (B * p);
  }

  /** The digit sum*mc mod B clears the low limb, when mc = -1/md[0] mod B. */
  lemma DigitClears(s: int, mc: int, m0: int, B: int)
    requires B >= 2 && Cong(mc * m0, -1, B)
    ensures var sp := (s * mc) % B; 0 <= sp < B && (s + sp * m0) % B == 0
  {
    hide Cong;
    var sp := (s * mc) % B;
    CongMod(s * mc, B);
    CongScale(sp, s * mc, m0, B);
    assert (s * mc) * m0 == s * (mc * m0);
    CongScale(mc * m0, -1, s, B);
    CongTrans(sp * m0, s * (mc * m0), -s, B);
    CongFrom(s, s, 0, B);
    CongAdd(s, s, sp * m0, -s, B);
    ZeroMod(s + sp * m0, B);
  }

  lemma ZeroMod(v: int, B: int)
    requires B >= 1 && Cong(v, 0, B)
    ensures v % B == 0
  {
    SmallMod(0, B);
  }

  /** Adds d[i]*md[j-i] for i in [lo, hi) to the accumulator. */
  method AddColumn(s0: int, d: array<int>, md: array<int>, j: int, lo: int, hi: int, ghost q: seq<int>, ghost B: int, ghost D: int)
    returns (s: int)
    requires md.Length == |q| <= d.Length && Norm(md[..], B) && Norm(q, B) && HeadRoom(|q|, B, D)
    requires 0 <= lo <= hi <= |q| && (lo < hi ==> j - lo < |q| && 0 <= j - hi + 1)
    requires forall i :: lo <= i < hi ==> d[i] == q[i]
    requires 0 <= s0 <= (|q| + 1) * (B - 1)
    ensures s == s0 + Conv(q, md[..], j, lo, hi)
  {
    hide Conv;
    hide HeadRoom;
    s := s0;
    NoTerms(q, md[..], j, lo);
    for i := lo to hi
      invariant s == s0 + Conv(q, md[..], j, lo, i)
    {
      TermFits(q, md[..], s0, j, lo, i + 1, |q|, B, D);
      s := DAdd(s, DMul(d[i], md[j - i], D), D);
    }
  }

  lemma NoTerms(q: seq<int>, md: seq<int>, j: int, lo: int)
    requires 0 <= lo <= |q|
    ensures Conv(q, md, j, lo, lo) == 0
  {}

  lemma TermFits(q: seq<int>, md: seq<int>, s0: int, j: int, lo: int, hi: int, n: nat, B: int, D: int)
    requires |q| == |md| == n && Norm(q, B) && Norm(md, B) && HeadRoom(n, B, D)
    requires 0 <= lo < hi <= n && j - lo < n && 0 <= j - hi + 1 && 0 <= s0 <= (n + 1) * (B - 1)
    ensures Conv(q, md, j, lo, hi) == Conv(q, md, j, lo, hi - 1) + q[hi - 1] * md[j - hi + 1]
    ensures InRange(q[hi - 1] * md[j - hi + 1], D) && InRange(s0 + Conv(q, md, j, lo, hi), D)
  {
    ConvBound(q, md, j, lo, hi, B);
    LimbProduct(q[hi - 1], md[j - hi + 1], B);
    DiagRange(q[hi - 1] * md[j - hi + 1], 1, n, B, D);
    SumFits(s0, Conv(q, md, j, lo, hi), hi - lo, n, B, D);
  }

  lemma SumFits(s0: int, c: int, w: int, n: nat, B: int, D: int)
    requires HeadRoom(n, B, D) && 0 <= w <= n && 0 <= s0 <= (n + 1) * (B - 1) && 0 <= c <= w * ((B - 1) * (B - 1))
    ensures InRange(s0 + c, D)
  {
    assert (n + 1) * (B - 1) == n * (B - 1) + (B - 1);
    MulMono(1, B - 1, B - 1);
    assert (w + 1) * ((B - 1) * (B - 1)) == w * ((B - 1) * (B - 1)) + (B - 1) * (B - 1);
    Fits(s0 + c, w + 1, n, B, D);
  }

  /** The carry into the next column stays at most n*(B-1). */
  lemma ReduceCarry(t: int, s0: int, w: int, n: nat, B: int)
    requires B >= 2 && 0 <= w <= n && 0 <= s0 <= (n + 1) * (B - 1) && 0 <= t - s0 <= w * ((B - 1) * (B - 1))
    ensures 0 <= t / B <= n * (B - 1)
  {
    MulMono(w, n, (B - 1) * (B - 1)) by { MulMono(0, B - 1, B - 1); }
    assert n * ((B - 1) * (B - 1)) + n * (B - 1) == (n * (B - 1)) * B;
    assert (n + 1) * (B - 1) == n * (B - 1) + (B - 1);
    QuotientBelow(t, B, n * (B - 1));
  }

  lemma QuotientBelow(t: int, B: int, q: int)
    requires B >= 1 && 0 <= t < q * B + B
    ensures 0 <= t / B <= q
  {
    var k := t / B;
    assert (q + 1) * B == q * B + B;
    if k > q { MulMono(q + 1, k, B); }
    if k < 0 { MulMono(k + 1, 0, B); }
  }

  /** The first half: each round finds the quotient digit of one column, stores it over d, and carries on. */
  method LowColumns(d: array<int>, md: array<int>, mc: int, B: int, ghost D: int) returns (sum: int, ghost cy: int)
    requires md.Length >= 1 && d.Length == 2 * md.Length && d != md && Norm(d[..], B) && Norm(md[..], B)
    requires HeadRoom(md.Length, B, D) && B >= 2 && Cong(mc * md[0], -1, B)
    modifies d
    ensures Norm(d[..], B) && forall i :: md.Length <= i < d.Length ==> d[i] == old(d[i])
    ensures Cancelled(old(d[..]), d[..md.Length], md[..], cy, B)
    ensures sum == d[md.Length] + cy && 0 <= cy <= md.Length * (B - 1)
  {
    hide Val;
    hide Pow;
    hide Col;
    hide Cols;
    hide Conv;
    hide Cong;
    hide HeadRoom;
    hide Cancelled;
    ghost var d0, n := d[..], md.Length;
    sum, cy := d[0], 0;
    NothingCancelled(d0, d[..0], md[..], B);
    MulNonneg(n, B - 1);
    for j := 0 to md.Length
      invariant Norm(d[..], B) && forall i :: j <= i < d.Length ==> d[i] == d0[i]
      invariant 0 <= cy <= n * (B - 1) && sum == d0[j] + cy
      invariant Cancelled(d0, d[..j], md[..], cy, B)
    {
      ghost var q, s0, dn := d[..j], sum, d[..n];
      StartBound(d0[j], cy, n, B);
      sum := AddLow(sum, d, md, j, B, D);
      DigitClears(sum, mc, md[0], B);
      var sp := (sum * mc) % B;
      LowColumn(dn, sp, md[..], s0, sum, j, n, B, D);
      assert dn[..j] == q;
      d[j] := sp;
      sum := DAdd(sum, DMul(sp, md[0], D), D);
      CancelStep(d0, q, md[..], cy, sp, sum, B);
      assert d[..j + 1] == q + [sp];
      cy := sum / B;
      sum := d[j + 1] + sum / B;
    }
  }

  lemma StartBound(dj: int, cy: int, n: nat, B: int)
    requires 0 <= dj < B && 0 <= cy <= n * (B - 1)
    ensures 0 <= dj + cy <= (n + 1) * (B - 1)
  {
    assert (n + 1) * (B - 1) == n * (B - 1) + (B - 1);
  }

  /** The sum with the new digit's product is the start value plus column j, and it fits. */
  lemma LowColumn(dn: seq<int>, sp: int, md: seq<int>, s0: int, s: int, j: nat, n: nat, B: int, D: int)
    requires |dn| == |md| == n && j < n && B >= 2 && Norm(dn, B) && Norm(md, B) && 0 <= sp < B && HeadRoom(n, B, D)
    requires 0 <= s0 <= (n + 1) * (B - 1) && s == s0 + Conv(dn, md, j, 0, j)
    ensures s + sp * md[0] == s0 + Col(dn[..j] + [sp], md, j)
    ensures InRange(sp * md[0], D) && InRange(s + sp * md[0], D)
    ensures 0 <= (s + sp * md[0]) / B <= n * (B - 1)
  {
    hide HeadRoom;
    hide Col;
    var q := dn[..j] + [sp];
    ColIsConv(q, md, j);
    ConvPrefix(dn, md, j, 0, j, j);
    ConvPrefix(q, md, j, 0, j, j);
    assert q[..j] == dn[..j];
    assert Conv(q, md, j, 0, j + 1) == Conv(q, md, j, 0, j) + sp * md[0];
    ConvBound(q, md, j, 0, j + 1, B);
    LimbProduct(sp, md[0], B);
    DiagRange(sp * md[0], 1, n, B, D);
    SumFits(s0, Conv(q, md, j, 0, j + 1), j + 1, n, B, D);
    ReduceCarry(s + sp * md[0], s0, j + 1, n, B);
  }

  lemma MulNonneg(x: int, y: int)
    requires x >= 0 && y >= 0
    ensures x * y >= 0
  {}

  lemma NothingCancelled(d: seq<int>, q: seq<int>, md: seq<int>, B: int)
    requires |q| == 0
    ensures Cancelled(d, q, md, 0, B)
  {
    assert d[..0] == [];
  }

  /** The products of the known quotient digits in column j. */
  method AddLow(s0: int, d: array<int>, md: array<int>, j: nat, ghost B: int, ghost D: int) returns (s: int)
    requires md.Length >= 1 && d.Length == 2 * md.Length && j < md.Length && Norm(d[..], B) && Norm(md[..], B)
    requires HeadRoom(md.Length, B, D) && 0 <= s0 <= (md.Length + 1) * (B - 1)
    ensures s == s0 + Conv(d[..md.Length], md[..], j, 0, j)
  {
    s := AddColumn(s0, d, md, j, 0, j, d[..md.Length], B, D);
  }

  /** High columns: the digits out and the carry cy stand for (d + q*md) / B^n up to column j. */
  ghost predicate Divided(d: seq<int>, q: seq<int>, md: seq<int>, out: seq<int>, cy: int, B: int) {
    && |q| + |out| <= |d| && Norm(out, B)
    && Val(d[..|q| + |out|], B) + Cols(q, md, |q| + |out|, B) == Pow(B, |q|) * (Val(out, B) + cy * Pow(B, |out|))
  }

  lemma DividedStart(d: seq<int>, q: seq<int>, md: seq<int>, cy: int, B: int)
    requires Cancelled(d, q, md, cy, B)
    ensures Divided(d, q, md, [], cy, B)
  {
    assert cy * Pow(B, |q|) == Pow(B, |q|) * (0 + cy * 1);
  }

  lemma DividedStep(d: seq<int>, q: seq<int>, md: seq<int>, out: seq<int>, cy: int, t: int, B: int)
    requires B >= 2 && |q| + |out| < |d| && Divided(d, q, md, out, cy, B)
    requires t == d[|q| + |out|] + cy + Col(q, md, |q| + |out|)
    ensures Divided(d, q, md, out + [t % B], t / B, B)
  {
    hide Val;
    hide Pow;
    hide Col;
    var j, k := |q| + |out|, |out|;
    ValPrefix(d, j, B);
    ValSnoc(out, t % B, B);
    PowSucc(B, k);
    PowAdd(B, |q|, k);
    assert Cols(q, md, j + 1, B) == Cols(q, md, j, B) + Col(q, md, j) * Pow(B, j);
    DividedArith(Val(d[..j], B), Cols(q, md, j, B), d[j], Col(q, md, j), cy, t, Val(out, B), Pow(B, |q|), Pow(B, k), Pow(B, j), B);
  }

  lemma DividedArith(v: int, c: int, dj: int, col: int, cy: int, t: int, w: int, R: int, p: int, pj: int, B: int)
    requires B >= 2 && pj == R * p && t == dj + cy + col && v + c == R * (w + cy * p)
    ensures (v + dj * pj) + (c + col * pj) == R * ((w + (t % B) * p) + (t / B) * (B * p))
  {
    CarryUp(t, t % B, t / B, B, p);
    assert R * ((w + cy * p) + (dj + col) * p) == R * (w + cy * p) + R * ((dj + col) * p);
    assert R * ((dj + col) * p) == dj * pj + col * pj by {
      assert R * ((dj + col) * p) == (dj + col) * (R * p);
      assert (dj + col) * pj == dj * pj + col * pj;
    }
    assert (dj + cy + col) * p == cy * p + (dj + col) * p;
  }

  /** The second half: the remaining columns are emitted as limbs. */
  method HighColumns(d: array<int>, md: array<int>, sum0: int, ghost cy0: int, ghost d0: seq<int>, B: int, ghost D: int)
    requires md.Length >= 2 && d.Length == 2 * md.Length == |d0| && d != md && Norm(d[..], B) && Norm(md[..], B) && Norm(d0, B)
    requires HeadRoom(md.Length, B, D) && B >= 2
    requires forall i :: md.Length <= i < d.Length ==> d[i] == d0[i]
    requires Cancelled(d0, d[..md.Length], md[..], cy0, B)
    requires sum0 == d[md.Length] + cy0 && 0 <= cy0 <= md.Length * (B - 1)
    modifies d
    ensures d[..md.Length] == old(d[..md.Length]) && Norm(d[..], B)
    ensures exists top :: top >= 0 && Finished(d0, d[..md.Length], md[..], d[md.Length..2 * md.Length - 1], top, B) && d[2 * md.Length - 1] == top % B
  {
    hide Val;
    hide Pow;
    hide Col;
    hide Cols;
    hide Conv;
    hide HeadRoom;
    hide Divided;
    ghost var n, q := md.Length, d[..md.Length];
    var sum := sum0;
    ghost var cy, out := cy0, [];
    DividedStart(d0, q, md[..], cy, B);
    for j := md.Length to 2 * md.Length - 1
      invariant Norm(d[..], B) && d[..n] == q && |out| == j - n && d[n..j] == out
      invariant forall i :: j <= i < d.Length ==> d[i] == d0[i]
      invariant 0 <= cy <= n * (B - 1) && sum == d0[j] + cy
      invariant Divided(d0, q, md[..], out, cy, B)
    {
      StartBound(d0[j], cy, n, B);
      ghost var s0 := sum;
      sum := AddColumn(sum, d, md, j, j - md.Length + 1, md.Length, q, B, D);
      HighColumn(q, md[..], s0, sum, j, n, B);
      DividedStep(d0, q, md[..], out, cy, sum, B);
      d[j] := sum % B;
      out := out + [sum % B];
      cy := sum / B;
      sum := d[j + 1] + sum / B;
    }
    ColBeyond(q, md[..], 2 * n - 1);
    d[2 * md.Length - 1] := sum % B;
    FinishedIs(d0, q, md[..], out, cy, sum, n, B);
    assert d[..n] == q && d[n..2 * n - 1] == out;
  }

  lemma HighColumn(q: seq<int>, md: seq<int>, s0: int, s: int, j: nat, n: nat, B: int)
    requires |q| == |md| == n && n <= j < 2 * n - 1 && B >= 2 && Norm(q, B) && Norm(md, B)
    requires 0 <= s0 <= (n + 1) * (B - 1) && s == s0 + Conv(q, md, j, j - n + 1, n)
    ensures s == s0 + Col(q, md, j) && 0 <= s / B <= n * (B - 1)
  {
    hide Col;
    ColIsConv(q, md, j);
    ConvBound(q, md, j, j - n + 1, n, B);
    ReduceCarry(s, s0, 2 * n - 1 - j, n, B);
  }

  /** Everything but the last limb is out; top is what remains at its place. */
  ghost predicate Finished(d: seq<int>, q: seq<int>, md: seq<int>, out: seq<int>, top: int, B: int) {
    |out| + 1 == |q| && Norm(out, B) && Val(d, B) + Val(q, B) * Val(md, B) == Pow(B, |q|) * (Val(out, B) + top * Pow(B, |out|))
  }

  lemma FinishedIs(d: seq<int>, q: seq<int>, md: seq<int>, out: seq<int>, cy: int, sum: int, n: nat, B: int)
    requires B >= 2 && n >= 1 && |q| == |md| == n && |d| == 2 * n && |out| == n - 1 && Divided(d, q, md, out, cy, B)
    requires sum == d[2 * n - 1] + cy && Col(q, md, 2 * n - 1) == 0
    ensures Finished(d, q, md, out, sum, B)
  {
    hide Val;
    hide Pow;
    hide Col;
    var j := 2 * n - 1;
    ValPrefix(d, j, B);
    assert d[..2 * n] == d;
    ColsProduct(q, md, 2 * n, B);
    assert Cols(q, md, 2 * n, B) == Cols(q, md, j, B) + Col(q, md, j) * Pow(B, j);
    PowAdd(B, n, n - 1);
    FinishArith(Val(d[..j], B), Cols(q, md, j, B), d[j], cy, sum, Val(out, B), Pow(B, n), Pow(B, n - 1), Pow(B, j));
  }

  lemma FinishArith(v: int, c: int, dj: int, cy: int, sum: int, w: int, R: int, p: int, pj: int)
    requires pj == R * p && sum == dj + cy && v + c == R * (w + cy * p)
    ensures (v + dj * pj) + (c + 0 * pj) == R * (w + sum * p)
  {
    assert R * (w + sum * p) == R * (w + cy * p) + R * (dj * p) by {
      assert sum * p == cy * p + dj * p;
    }
    assert R * (dj * p) == dj * (R * p);
  }

  /** The column form of the reduction: a = (d + q*p)/R, below 2p, every limb normalised. */
  method MontColumns(a: array<int>, d: array<int>, md: array<int>, mc: int, B: int, ghost D: int)
    requires md.Length >= 2 && a.Length == md.Length && d.Length == 2 * md.Length && d != md && a != d && a != md
    requires Norm(d[..], B) && Norm(md[..], B) && HeadRoom(md.Length, B, D) && B >= 2 && Cong(mc * md[0], -1, B)
    requires Val(d[..], B) < Val(md[..], B) * Pow(B, md.Length) && 2 * Val(md[..], B) <= Pow(B, md.Length)
    modifies a, d
    ensures Norm(a[..], B)
    ensures MontForm(Val(a[..], B), old(Val(d[..], B)), Val(md[..], B), Pow(B, md.Length))
    ensures Val(a[..], B) < 2 * Val(md[..], B)
  {
    hide Val;
    hide Pow;
    hide Cancelled;
    hide Finished;
    hide MontForm;
    hide HeadRoom;
    ghost var d0, n := d[..], md.Length;
    ghost var sm := md[..];
    var sum; ghost var cy;
    sum, cy := LowColumns(d, md, mc, B, D);
    assert md[..] == sm;
    HighColumns(d, md, sum, cy, d0, B, D);
    assert md[..] == sm;
    ghost var q, out := d[..n], d[n..2 * n - 1];
    ghost var top :| top >= 0 && Finished(d0, q, sm, out, top, B) && d[2 * n - 1] == top % B;
    TopIsLimb(d0, q, sm, out, top, n, B);
    assert d[n..] == out + [top % B];
    for i := 0 to md.Length
      invariant forall k :: 0 <= k < i ==> a[k] == d[md.Length + k]
      modifies a
    {
      a[i] := d[md.Length + i];
    }
    assert a[..] == d[n..] == out + [top % B] && md[..] == sm;
  }

  lemma TopIsLimb(d: seq<int>, q: seq<int>, md: seq<int>, out: seq<int>, top: int, n: nat, B: int)
    requires B >= 2 && |q| == |md| == n && |d| == 2 * n && n >= 1 && Norm(d, B) && Norm(q, B) && Norm(md, B) && top >= 0
    requires Finished(d, q, md, out, top, B) && Val(d, B) < Val(md, B) * Pow(B, n) && 2 * Val(md, B) <= Pow(B, n)
    ensures Norm(out + [top % B], B) && MontForm(Val(out + [top % B], B), Val(d, B), Val(md, B), Pow(B, n))
    ensures Val(out + [top % B], B) < 2 * Val(md, B)
  {
    hide Val;
    hide Pow;
    var R, P, Q := Pow(B, n), Val(md, B), Val(q, B);
    var r := Val(out, B) + top * Pow(B, n - 1);
    ValBound(q, B);
    ValBound(d, B);
    ValBound(out, B);
    ValBound(md, B);
    PowPos(B, n);
    assert r * R == R * r;
    assert MontWith(r, Val(d, B), Q, P, R);
    PositiveModulus(Val(d, B), P, R);
    MontFormProperties(r, Val(d, B), P, R);
    PowSucc(B, n - 1);
    TopLimb(Val(out, B), top, Pow(B, n - 1), B);
    SmallMod(top, B);
    ValSnoc(out, top, B);
  }

  lemma PositiveModulus(d: int, p: int, R: int)
    requires 0 <= d < p * R && R > 0
    ensures p > 0
  {
    if p <= 0 { MulMono(p, 0, R); }
  }

  // ----- row by row ------------------------------------------------------------------------

  /** One row of the plain loop: adds m*md to d at limb i; limb i becomes zero and limb n+i takes the carry. */
  method MontRow(d: array<int>, md: array<int>, i: nat, mc: int, B: int) returns (m: int)
    requires md.Length >= 1 && d.Length == 2 * md.Length && d != md && i < md.Length && B >= 2 && Cong(mc * md[0], -1, B)
    modifies d
    ensures 0 <= m < B && d[i] == 0
    ensures forall k :: 0 <= k < i || md.Length + i < k < d.Length ==> d[k] == old(d[k])
    ensures Val(d[..], B) == old(Val(d[..], B)) + Pow(B, i) * (m * Val(md[..], B))
  {
    hide Val;
    hide Pow;
    hide Cong;
    hide RowSum;
    ghost var d0, n := d[..], md.Length;
    DigitClears(d[i], mc, md[0], B);
    m := (d[i] * mc) % B;
    var carry := 0;
    RowSumEmpty(d[i..i], d0[i..i], m, md[..0], B);
    for j := 0 to md.Length
      invariant forall k :: 0 <= k < i || i + j <= k < d.Length ==> d[k] == d0[k]
      invariant RowSum(d[i..i + j], carry, d0[i..i + j], m, md[..j], B)
      invariant j > 0 ==> d[i] == 0
    {
      ghost var row := d[i..i + j];
      var prod := m * md[j] + carry + d[i + j];
      assert prod == (prod / B) * B + prod % B;
      assert j == 0 ==> prod == d0[i] + m * md[0] by { FirstCarry(row, carry, d0[i..i + j], m, md[..j], B); }
      d[i + j] := prod % B;
      RowSumStep(row, carry, d0[i..i + j], m, md[..j], md[j], d0[i + j], prod % B, prod / B, B);
      assert d[i..i + j + 1] == row + [prod % B];
      assert d0[i..i + j + 1] == d0[i..i + j] + [d0[i + j]];
      assert md[..j + 1] == md[..j] + [md[j]];
      carry := prod / B;
    }
    ghost var row := d[i..i + n];
    d[md.Length + i] := d[md.Length + i] + carry;
    assert md[..n] == md[..] && d[i..i + n] == row;
    RowValue(d0, d[..], md[..], i, n, m, carry, B);
  }

  lemma FirstCarry(s: seq<int>, c: int, s0: seq<int>, a: int, y: seq<int>, B: int)
    requires RowSum(s, c, s0, a, y, B)
    ensures |s| == 0 ==> c == 0
  {}

  lemma RowValue(d0: seq<int>, d1: seq<int>, md: seq<int>, i: nat, n: nat, m: int, carry: int, B: int)
    requires |d0| == |d1| == 2 * n && |md| == n && i < n
    requires forall k :: 0 <= k < i || n + i < k < 2 * n ==> d1[k] == d0[k]
    requires RowSum(d1[i..i + n], carry, d0[i..i + n], m, md, B) && d1[n + i] == d0[n + i] + carry
    ensures Val(d1, B) == Val(d0, B) + Pow(B, i) * (m * Val(md, B))
  {
    hide *;
    NumDelta(d0, d1, 0, 2 * n, i, n + 1, B);
    WholeNum(d0, B);
    WholeNum(d1, B);
    WindowGain(d0, d1, md, i, n, m, carry, B);
  }

  lemma WholeNum(d: seq<int>, B: int)
    ensures Num(d, 0, |d|, B) == Val(d, B)
  {
    assert d[0..|d|] == d;
  }

  lemma WindowGain(d0: seq<int>, d1: seq<int>, md: seq<int>, i: nat, n: nat, m: int, carry: int, B: int)
    requires |d0| == |d1| == 2 * n && |md| == n && i < n
    requires RowSum(d1[i..i + n], carry, d0[i..i + n], m, md, B) && d1[n + i] == d0[n + i] + carry
    ensures Num(d1, 0 + i, n + 1, B) - Num(d0, 0 + i, n + 1, B) == m * Val(md, B)
  {
    hide Pow;
    hide Val;
    assert d0[i..i + n + 1] == d0[i..i + n] + [d0[n + i]];
    assert d1[i..i + n + 1] == d1[i..i + n] + [d1[n + i]];
    ValSnoc(d0[i..i + n], d0[n + i], B);
    ValSnoc(d1[i..i + n], d1[n + i], B);
    assert (d0[n + i] + carry) * Pow(B, n) == d0[n + i] * Pow(B, n) + carry * Pow(B, n);
  }

  /** The plain-loop form: it leaves the limbs that the column form leaves. */
  method MontRows(a: array<int>, d: array<int>, md: array<int>, mc: int, B: int)
    requires md.Length >= 2 && a.Length == md.Length && d.Length == 2 * md.Length && d != md && a != d && a != md
    requires Norm(d[..], B) && Norm(md[..], B) && B >= 2 && Cong(mc * md[0], -1, B)
    requires Val(d[..], B) < Val(md[..], B) * Pow(B, md.Length) && 2 * Val(md[..], B) <= Pow(B, md.Length)
    modifies a, d
    ensures Norm(a[..], B)
    ensures MontForm(Val(a[..], B), old(Val(d[..], B)), Val(md[..], B), Pow(B, md.Length))
    ensures Val(a[..], B) < 2 * Val(md[..], B)
  {
    hide Val;
    hide Pow;
    hide Cong;
    hide MontForm;
    ghost var d0, n, sm := d[..], md.Length, md[..];
    ghost var q: seq<int> := [];
    RowsStart(d0, sm, B);
    for i := 0 to md.Length
      invariant |q| == i && Norm(q, B) && md[..] == sm
      invariant forall k :: 0 <= k < i ==> d[k] == 0
      invariant Val(d[..], B) == Val(d0, B) + Val(q, B) * Val(sm, B)
    {
      var m := MontRow(d, md, i, mc, B);
      RowsNext(q, m, Val(sm, B), B);
      q := q + [m];
    }
    ghost var high := d[n..];
    RowsEnd(Val(d0, B), d[..], q, Val(sm, B), n, B);
    ValBound(d0, B);
    PowPos(B, n);
    MontBound(Val(high, B), Val(d0, B), Val(sm, B), Pow(B, n));
    for i := 0 to md.Length
      invariant forall k :: 0 <= k < i ==> a[k] == d[md.Length + k]
      modifies a
    {
      a[i] := d[md.Length + i];
    }
    assert a[..] == d[n..] == high && md[..] == sm;
    Normalise(a, 0, md.Length, B);
    assert a[..][0..n] == a[..] && high[0..n] == high;
    NormalisedTop(a[..], n, B, Val(a[..], B));
    assert md[..] == sm;
  }

  lemma RowsStart(d: seq<int>, md: seq<int>, B: int)
    ensures Val(d, B) == Val(d, B) + Val([], B) * Val(md, B)
  {
    ValEmpty(B);
  }

  lemma RowsNext(q: seq<int>, m: int, P: int, B: int)
    ensures Val(q + [m], B) * P == Val(q, B) * P + Pow(B, |q|) * (m * P)
  {
    hide Val;
    hide Pow;
    ValSnoc(q, m, B);
    Distribute(Val(q, B), m, Pow(B, |q|), P);
  }

  lemma RowsEnd(d0: int, d: seq<int>, q: seq<int>, P: int, n: nat, B: int)
    requires B >= 2 && |d| == 2 * n && |q| == n && Norm(q, B) && forall k :: 0 <= k < n ==> d[k] == 0
    requires Val(d, B) == d0 + Val(q, B) * P
    ensures MontForm(Val(d[n..], B), d0, P, Pow(B, n))
  {
    hide Val;
    hide Pow;
    hide MontForm;
    ValSplit(d, n, B);
    ValZero(d[..n], B);
    ValBound(q, B);
    MontIntro(Val(d[n..], B), d0, Val(q, B), P, Pow(B, n), Val(d, B));
  }

  lemma MontBound(r: int, d: int, p: int, R: int)
    requires MontForm(r, d, p, R) && 0 <= d < p * R && R > 0
    ensures p > 0 && 0 <= r < 2 * p
  {
    PositiveModulus(d, p, R);
    MontFormProperties(r, d, p, R);
  }

  lemma MontIntro(r: int, d: int, q: int, p: int, R: int, v: int)
    requires 0 <= q < R && v == 0 + R * r && v == d + q * p
    ensures MontForm(r, d, p, R)
  {
    assert MontWith(r, d, q, p, R);
  }

  /** When the value fits n limbs, the top limb that holds the overflow is normalised too. */
  lemma NormalisedTop(s: seq<int>, n: nat, B: int, v: int)
    requires B >= 2 && n >= 1 && |s| == n && NormAt(s, 0, n - 1, B) && v == Val(s, B) && 0 <= v < Pow(B, n)
    ensures Norm(s, B)
  {
    hide Val;
    hide Pow;
    ValPrefix(s, n - 1, B);
    assert s[..n] == s;
    ValBound(s[..n - 1], B);
    PowSucc(B, n - 1);
    var low, top, p := Val(s[..n - 1], B), s[n - 1], Pow(B, n - 1);
    TopLimb(low, top, p, B);
    if top < 0 { MulMono(top, -1, p); }
  }

  /** Both forms leave the same limbs. */
  lemma BranchesAgree(x: seq<int>, y: seq<int>, d: int, md: seq<int>, mc: int, B: int)
    requires B >= 2 && |md| >= 1 && |x| == |y| == |md| && Norm(x, B) && Norm(y, B) && Norm(md, B)
    requires Cong(mc * md[0], -1, B)
    requires MontForm(Val(x, B), d, Val(md, B), Pow(B, |md|)) && MontForm(Val(y, B), d, Val(md, B), Pow(B, |md|))
    ensures x == y
  {
    hide Val;
    hide Pow;
    hide Cong;
    hide MontForm;
    InverseOfModulus(md, mc, B);
    var z := LiftInverse(Val(md, B), -mc, B, |md|);
    MontFormUnique(Val(x, B), Val(y, B), d, Val(md, B), z, Pow(B, |md|));
    ValInjective(x, y, B);
  }

  lemma InverseOfModulus(md: seq<int>, mc: int, B: int)
    requires B >= 2 && |md| >= 1 && Norm(md, B) && Cong(mc * md[0], -1, B)
    ensures Cong(Val(md, B) * (-mc), 1, B)
  {
    hide Val;
    hide Pow;
    hide Cong;
    assert md == [md[0]] + md[1..];
    ValConcat([md[0]], md[1..], B);
    ValSingle(md[0], B);
    PowOne(B);
    var h := Val(md[1..], B);
    assert B * h == h * B;
    CongFrom(Val(md, B), md[0], h, B);
    CongScale(Val(md, B), md[0], -mc, B);
    assert md[0] * (-mc) == (-1) * (mc * md[0]);
    CongScale(mc * md[0], -1, -1, B);
    CongTrans(Val(md, B) * (-mc), md[0] * (-mc), 1, B);
  }
}
