/** ECDSA over any group with a base point of prime order, and the signing loop as it is written. */
module Ecdsa {
  import opened Arith
  import opened Groups
  import opened ScalarMul
  import opened ShiftReduce
  import opened BinaryInverse

  datatype Option<T> = None | Some(value: T)
  datatype Signature = Signature(c: int, d: int)

  /** Domain parameters: the group, its base point G of order r, the x-coordinate, and the BIG capacity in bits. */
  datatype Curve<!T(!new)> = Curve(g: Group<T>, G: T, r: int, x: T -> int, nlb: nat)

  /** r is an odd prime, G has exactly that order, scalars mod r leave four spare bits. */
  ghost predicate WellFormed<T(!new)>(E: Curve<T>) {
    && Abelian(E.g) && E.r > 2 && E.r % 2 == 1 && E.nlb >= 4 && E.r + 2 < Pow(2, E.nlb - 4)
    && (forall k :: 0 < k < E.r ==> Coprime(k, E.r))
    && (forall k :: OrderAt(E, k))
    && (forall P :: XAt(E, P))
  }

  ghost predicate OrderAt<T(!new)>(E: Curve<T>, k: int) {
    E.r > 0 && (Times(E.g, k, E.G) == E.g.zero <==> k % E.r == 0)
  }

  ghost predicate XAt<T(!new)>(E: Curve<T>, P: T) {
    E.x(P) >= 0
  }

  /** Multiples of G depend on the scalar mod r only. */
  lemma SameMultiple<T(!new)>(E: Curve<T>, k: int, l: int)
    requires WellFormed(E) && Cong(k, l, E.r)
    ensures Times(E.g, k, E.G) == Times(E.g, l, E.G)
  {
    hide Abelian;
    hide Cong;
    hide Times;
    CongFrom(l, l, 0, E.r);
    CongSub(k, l, l, l, E.r);
    assert OrderAt(E, k - l) by { assert WellFormed(E); }
    MultipleOfOrder(E, k - l);
    TimesAdd(E.g, k - l, l, E.G);
    Unit(E.g, Times(E.g, l, E.G));
  }

  lemma MultipleOfOrder<T(!new)>(E: Curve<T>, k: int)
    requires E.r > 0 && OrderAt(E, k) && Cong(k, 0, E.r)
    ensures Times(E.g, k, E.G) == E.g.zero
  {
    SmallMod(0, E.r);
  }

  /** a*b mod m, both operands reduced first. */
  method ModMul(a: int, b: int, m: int) returns (r: int)
    requires a >= 0 && b >= 0 && m > 0
    ensures 0 <= r < m && Cong(r, a * b, m)
  {
    var a', k := Mod(a, m);
    var b', l := Mod(b, m);
    MulMono(0, a', b');
    var q;
    r, q := Mod(a' * b', m);
    CongMod(a, m);
    CongMod(b, m);
    CongMul(a', a, b', b, m);
    CongMod(a' * b', m);
  }

  /** The point and the number that a signature with nonce u is built from. */
  ghost predicate SignedWith<T(!new)>(E: Curve<T>, s: int, f: int, u: int, sig: Signature) {
    && 0 < u < E.r && E.r > 0
    && sig.c == E.x(Times(E.g, u, E.G)) % E.r
    && 0 <= sig.d < E.r && Cong(sig.d * u, f + s * sig.c, E.r)
  }

  /** One pass of the signing loop with nonce u; d is left alone when c is zero. */
  method SignOnce<T(!new, ==)>(E: Curve<T>, s: int, f: int, u: int, d0: int) returns (c: int, d: int)
    requires WellFormed(E) && s >= 0 && f >= 0 && 0 < u < E.r
    ensures c == E.x(Times(E.g, u, E.G)) % E.r
    ensures c == 0 ==> d == d0
    ensures c != 0 ==> SignedWith(E, s, f, u, Signature(c, d))
  {
    hide Abelian;
    hide Cong;
    hide Times;
    hide Pow;
    var V := ScalarMul.Multiply(E.g, E.G, u, E.nlb);
    var vx := E.x(V);
    assert XAt(E, V);
    var kept;
    c, kept := Mod(vx, E.r);
    d := d0;
    if c == 0 { return; }
    var ui := InvModP(u, E.r);
    d := ModMul(s, c, E.r);
    ghost var d1 := d;
    d := f + d;
    d := ModMul(ui, d, E.r);
    SignatureEquation(s, f, u, ui, c, d1, d, E.r);
  }

  lemma SignatureEquation(s: int, f: int, u: int, ui: int, c: int, d1: int, d: int, r: int)
    requires r > 0 && Cong(u * ui, 1, r) && Cong(d1, s * c, r) && Cong(d, ui * (f + d1), r)
    ensures Cong(d * u, f + s * c, r)
  {
    hide Cong;
    CongFrom(f, f, 0, r);
    CongAdd(f, f, d1, s * c, r);
    CongScale(d, ui * (f + d1), u, r);
    assert (ui * (f + d1)) * u == (u * ui) * (f + d1);
    CongScale(u * ui, 1, f + d1, r);
    CongTrans(d * u, (ui * (f + d1)) * u, f + d1, r);
    CongTrans(d * u, f + d1, f + s * c, r);
  }

  /**
   * The signing loop over the nonces drawn. d0 is what the variable d held before the loop. A continue in the
   * do-while jumps to the test of d, so a first nonce with c = 0 ends the loop whenever d0 is not zero.
   */
  method Sign<T(!new, ==)>(E: Curve<T>, s: int, f: int, nonces: seq<int>, d0: int) returns (out: Option<Signature>)
    requires WellFormed(E) && s >= 0 && f >= 0 && forall i :: 0 <= i < |nonces| ==> 0 < nonces[i] < E.r
    ensures out.Some? ==> out.value.d != 0 && |nonces| > 0
    ensures out.Some? && out.value.c != 0 ==> exists i :: 0 <= i < |nonces| && SignedWith(E, s, f, nonces[i], out.value)
    ensures out.Some? && out.value.c == 0 <==>
            |nonces| > 0 && E.x(Times(E.g, nonces[0], E.G)) % E.r == 0 && d0 != 0
  {
    hide Abelian;
    hide Times;
    hide WellFormed;
    hide SignedWith;
    PositiveOrder(E);
    var d, i := d0, 0;
    while i < |nonces|
      invariant 0 <= i <= |nonces|
      invariant i > 0 ==> d == 0
      invariant i > 0 ==> !(E.x(Times(E.g, nonces[0], E.G)) % E.r == 0 && d0 != 0)
      invariant i == 0 ==> d == d0
    {
      var c;
      c, d := SignOnce(E, s, f, nonces[i], d);
      if d != 0 { return Some(Signature(c, d)); }
      i := i + 1;
    }
    return None;
  }

  lemma PositiveOrder<T(!new)>(E: Curve<T>)
    requires WellFormed(E)
    ensures E.r > 0
  {}

  /** Verification of (c, d) on the digest f with the public point W. */
  method Verify<T(!new, ==)>(E: Curve<T>, W: T, f: int, sig: Signature) returns (ok: bool)
    requires WellFormed(E) && f >= 0 && sig.c >= 0 && sig.d >= 0
    ensures ok == Accepts(E, W, f, sig)
  {
    hide Abelian;
    hide Cong;
    hide Times;
    hide Pow;
    if sig.c == 0 || sig.c >= E.r || sig.d == 0 || sig.d >= E.r { return false; }
    var di := InvModP(sig.d, E.r);
    var f' := ModMul(f, di, E.r);
    var h2 := ModMul(sig.c, di, E.r);
    var P := ScalarMul.Multiply2(E.g, W, E.G, h2, f', E.nlb);
    InverseUnique(E, W, f, sig, di, f', h2);
    if P == E.g.zero { return false; }
    var x := E.x(P);
    assert XAt(E, P);
    var y, kept := Mod(x, E.r);
    ok := y == sig.c;
  }

  /** The inverse of d mod r, as a number in [0, r). */
  ghost predicate IsInverse(di: int, d: int, r: int) {
    r > 0 && 0 <= di < r && Cong(d * di, 1, r)
  }

  /** Section 6.4 of FIPS 186-4: range checks, then x((c/d)*W + (f/d)*G) mod r == c. */
  ghost predicate Accepts<T(!new)>(E: Curve<T>, W: T, f: int, sig: Signature) {
    && E.r > 0 && 0 < sig.c < E.r && 0 < sig.d < E.r
    && exists di :: IsInverse(di, sig.d, E.r) &&
         var P := Comb(E.g, (sig.c * di) % E.r, W, (f * di) % E.r, E.G);
         P != E.g.zero && E.x(P) % E.r == sig.c
  }

  lemma InverseUnique<T(!new)>(E: Curve<T>, W: T, f: int, sig: Signature, di: int, f': int, h2: int)
    requires E.r > 0 && 0 < sig.c < E.r && 0 < sig.d < E.r && 0 <= di < E.r && Cong(sig.d * di, 1, E.r)
    requires 0 <= f' < E.r && 0 <= h2 < E.r && Cong(f', f * di, E.r) && Cong(h2, sig.c * di, E.r)
    ensures var P := Comb(E.g, h2, W, f', E.G);
      Accepts(E, W, f, sig) <==> P != E.g.zero && E.x(P) % E.r == sig.c
  {
    hide Comb;
    SmallMod(f', E.r);
    SmallMod(h2, E.r);
    assert IsInverse(di, sig.d, E.r);
    forall dj | IsInverse(dj, sig.d, E.r) ensures dj == di {
      TwoInverses(sig.d, di, dj, E.r);
    }
  }

  lemma TwoInverses(d: int, i: int, j: int, r: int)
    requires IsInverse(i, d, r) && IsInverse(j, d, r)
    ensures i == j
  {
    hide Cong;
    CongScale(d * i, 1, j, r);
    CongScale(d * j, 1, i, r);
    assert (d * i) * j == (d * j) * i;
    CongSymTrans((d * i) * j, j, i, r);
    CongUnique(j, i, r);
  }

  /** Completeness: every signature made with the private key s is accepted for the public point s*G. */
  lemma Completeness<T(!new)>(E: Curve<T>, s: int, f: int, u: int, sig: Signature)
    requires WellFormed(E) && SignedWith(E, s, f, u, sig) && sig.c != 0 && sig.d != 0
    ensures Accepts(E, Times(E.g, s, E.G), f, sig)
  {
    hide Abelian;
    hide Cong;
    hide Times;
    hide Comb;
    var r, W := E.r, Times(E.g, s, E.G);
    assert Coprime(sig.d, r);
    var di := InverseOf(sig.d, r);
    var a, b := (sig.c * di) % r, (f * di) % r;
    NonceRecovered(s, f, u, sig.c, sig.d, di, r);
    CombOfMultiples(E, a, s, b);
    SameMultiple(E, a * s + b, u);
    assert OrderAt(E, u);
    SmallMod(u, r);
    assert IsInverse(di, sig.d, r);
  }

  lemma CombOfMultiples<T(!new)>(E: Curve<T>, a: int, s: int, b: int)
    requires Abelian(E.g)
    ensures Comb(E.g, a, Times(E.g, s, E.G), b, E.G) == Times(E.g, a * s + b, E.G)
  {
    hide Abelian;
    hide Times;
    TimesTimes(E.g, a, s, E.G);
    TimesAdd(E.g, a * s, b, E.G);
  }

  /** (c/d)*s + f/d is the nonce. */
  lemma NonceRecovered(s: int, f: int, u: int, c: int, d: int, di: int, r: int)
    requires r > 0 && Cong(d * u, f + s * c, r) && Cong(d * di, 1, r)
    ensures Cong(((c * di) % r) * s + (f * di) % r, u, r)
  {
    hide Cong;
    CongMod(c * di, r);
    CongScale((c * di) % r, c * di, s, r);
    CongMod(f * di, r);
    CongAdd(((c * di) % r) * s, (c * di) * s, (f * di) % r, f * di, r);
    Collected(c, di, s, f, d, u);
    CongScale(d * u, f + s * c, di, r);
    CongScale(d * di, 1, u, r);
    CongSymTrans((d * u) * di, (f + s * c) * di, u, r);
    CongTrans(((c * di) % r) * s + (f * di) % r, (f + s * c) * di, u, r);
  }

  lemma Collected(c: int, di: int, s: int, f: int, d: int, u: int)
    ensures (c * di) * s + f * di == (f + s * c) * di && (d * u) * di == (d * di) * u
  {}

  /** Every number coprime to r has an inverse in [0, r). */
  lemma InverseOf(d: int, r: int) returns (di: int)
    requires r > 1 && d >= 0 && Coprime(d, r)
    ensures 0 <= di < r && Cong(d * di, 1, r)
  {
    hide Cong;
    var x, y, w := Bezout(d, r);
    assert w == 1;
    di := x % r;
    CongMod(x, r);
    CongScale(x % r, x, d, r);
    CongFrom(d * x, 1, -y, r) by { assert (-y) * r == -(r * y); }
    CongTrans(d * di, d * x, 1, r);
  }

  /** A common divisor that is a combination of a and b. */
  lemma Bezout(a: int, b: int) returns (x: int, y: int, w: int)
    requires a >= 0 && b >= 0 && a + b > 0
    ensures w >= 1 && a * x + b * y == w && Divides(w, a) && Divides(w, b)
    decreases b
  {
    if b == 0 {
      x, y, w := 1, 0, a;
      DivModUnique(a, 1, 0, a);
      SmallMod(0, a);
    } else {
      var q, c := a / b, a % b;
      assert a == q * b + c;
      var u, v;
      u, v, w := Bezout(b, c);
      x, y := v, u - q * v;
      assert a * v + b * (u - q * v) == b * u + c * v by {
        assert a * v == (q * b) * v + c * v && b * (u - q * v) == b * u - b * (q * v);
        assert (q * b) * v == b * (q * v);
      }
      SumDivides(w, q, b, c);
    }
  }

  lemma SumDivides(w: int, q: int, b: int, c: int)
    requires w >= 1 && Divides(w, b) && Divides(w, c)
    ensures Divides(w, q * b + c)
  {
    SmallMod(0, w);
    CongScale(b, 0, q, w);
    DividesSum(w, q * b, c);
  }
}
