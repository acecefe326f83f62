/** The RSA signature check: byte packing, the fixed exponent, and the PKCS#1 v1.5 comparison. */
module RsaVerify {
  import opened Arith
  import opened Bits
  import opened Digits
  import opened RsaArithmetic

  const REGBYTES: nat := 4
  const MODSIZE: nat := 64
  const RSABYTES: nat := 256
  const EXPON: nat := 65537

  /** The DER prefix of a SHA-256 DigestInfo. */
  const SHA256ID: seq<int> :=
    [0x30, 0x31, 0x30, 0x0d, 0x06, 0x09, 0x60, 0x86, 0x48, 0x01, 0x65, 0x03, 0x04, 0x02, 0x01, 0x05, 0x00, 0x04, 0x20]

  // ----- octet strings ---------------------------------------------------------------------

  /** Octet string to integer, most significant octet first (section 4.2 of RFC 8017). */
  ghost function OS2IP(s: seq<int>): int
    decreases |s|
  {
    if |s| == 0 then 0 else OS2IP(s[..|s| - 1]) * 256 + s[|s| - 1]
  }

  ghost function Reverse(s: seq<int>): (r: seq<int>)
    ensures |r| == |s| && forall i :: 0 <= i < |s| ==> r[i] == s[|s| - 1 - i]
  {
    seq(|s|, i requires 0 <= i < |s| => s[|s| - 1 - i])
  }

  lemma {:induction false} ReversedValue(s: seq<int>)
    ensures Val(Reverse(s), 256) == OS2IP(s)
    decreases |s|
  {
    if |s| > 0 {
      var t := s[..|s| - 1];
      ReversedValue(t);
      assert Reverse(s) == [s[|s| - 1]] + Reverse(t);
      ValConcat([s[|s| - 1]], Reverse(t), 256);
      ValSingle(s[|s| - 1], 256);
      PowOne(256);
    }
  }

  /** EMSA-PKCS1-v1_5 with SHA-256 (section 9.2 of RFC 8017): 00 01 FF..FF 00 DigestInfo. */
  ghost function Encode(h: seq<int>, k: nat): seq<int>
    requires k >= 54
  {
    [0, 1] + seq(k - 54, _ => 0xff) + [0] + SHA256ID + h
  }

  /** pkcs_v15: fills the k-byte buffer m. */
  method PkcsV15(h: seq<int>, m: array<int>, k: nat)
    requires |h| == 32 && k >= 54 && m.Length == k
    modifies m
    ensures m[..] == Encode(h, k)
  {
    m[0] := 0;
    m[1] := 1;
    for i := 0 to 32
      invariant m[0] == 0 && m[1] == 1 && forall j :: 0 <= j < i ==> m[k - 32 + j] == h[j]
    {
      m[k + i - 32] := h[i];
    }
    for i := 0 to 19
      invariant m[0] == 0 && m[1] == 1 && forall j :: 0 <= j < 32 ==> m[k - 32 + j] == h[j]
      invariant forall j :: 0 <= j < i ==> m[k - 51 + j] == SHA256ID[j]
    {
      m[k + i - 51] := SHA256ID[i];
    }
    m[k - 52] := 0;
    for i := 52 to k - 2
      invariant m[0] == 0 && m[1] == 1 && m[k - 52] == 0
      invariant forall j :: 0 <= j < 32 ==> m[k - 32 + j] == h[j]
      invariant forall j :: 0 <= j < 19 ==> m[k - 51 + j] == SHA256ID[j]
      invariant forall j :: k - i <= j < k - 52 ==> m[j] == 0xff
    {
      m[k - 1 - i] := 0xff;
    }
  }

  // ----- limbs as bytes --------------------------------------------------------------------

  /** Each limb of x holds the next R of the bytes, least significant first. */
  ghost predicate Packed(x: seq<int>, bytes: seq<int>, R: nat)
    decreases |x|
  {
    if |x| == 0 then bytes == []
    else
      var k, c := |x| - 1, |bytes| - R;
      c >= 0 && Norm(bytes[c..], 256) && x[k] == Val(bytes[c..], 256) && Packed(x[..k], bytes[..c], R)
  }

  /** The R bytes of a limb. */
  ghost function ToBytes(v: int, R: nat): (s: seq<int>)
    requires 0 <= v < Pow(256, R)
    ensures |s| == R && Norm(s, 256) && Val(s, 256) == v
    decreases R
  {
    if R == 0 then []
    else
      var p := Pow(256, R - 1);
      PowPos(256, R - 1);
      TopByte(v, p, v / p);
      var s := ToBytes(v % p, R - 1);
      ValSnoc(s, v / p, 256);
      s + [v / p]
  }

  lemma TopByte(v: int, p: int, q: int)
    requires p >= 1 && 0 <= v < 256 * p && q == v / p
    ensures 0 <= q < 256 && 0 <= v % p < p && v % p + q * p == v
  {
    if q >= 256 { MulMono(256, q, p); }
    if q < 0 { MulMono(q + 1, 0, p); }
  }

  /** Whatever the limbs hold, they hold some bytes. */
  lemma {:induction false} Unpack(x: seq<int>, R: nat) returns (bytes: seq<int>)
    requires Norm(x, Pow(256, R))
    ensures Packed(x, bytes, R)
    decreases |x|
  {
    hide Pow;
    hide Val;
    if |x| == 0 {
      bytes := [];
    } else {
      var k := |x| - 1;
      var low := Unpack(x[..k], R);
      var top := ToBytes(x[k], R);
      bytes := low + top;
      assert bytes[..|bytes| - R] == low && bytes[|bytes| - R..] == top;
    }
  }

  /** The limb value and the byte value are the same number. */
  lemma {:induction false} PackedValue(x: seq<int>, bytes: seq<int>, R: nat)
    requires Packed(x, bytes, R)
    ensures |bytes| == |x| * R && Val(x, Pow(256, R)) == Val(bytes, 256) && Norm(x, Pow(256, R))
    decreases |x|
  {
    hide Pow;
    hide Val;
    ValEmpty(256);
    ValEmpty(Pow(256, R));
    if |x| > 0 {
      var k, c, P := |x| - 1, |bytes| - R, Pow(256, R);
      PackedValue(x[..k], bytes[..c], R);
      ValBound(bytes[c..], 256);
      ValSplit(bytes, c, 256);
      ValSnoc(x[..k], x[k], P);
      assert x == x[..k] + [x[k]];
      OneMoreLimb(R, k, c);
      Commute(Pow(256, c), x[k]);
    }
  }

  lemma Commute(a: int, b: int)
    ensures a * b == b * a
  {}

  lemma OneMoreLimb(R: nat, k: nat, c: int)
    requires c == k * R
    ensures c >= 0 && (k + 1) * R == c + R && Pow(Pow(256, R), k) == Pow(256, c)
  {
    PowMul(256, R, k);
    assert R * k == k * R;
  }

  /** Overwriting one byte inside one limb. */
  lemma {:induction false} PackedUpdate(x: seq<int>, bytes: seq<int>, R: nat, el: nat, bp: nat, v: int)
    requires Packed(x, bytes, R) && el < |x| && bp < R && 0 <= v < 256
    ensures 0 <= el * R + bp < |bytes| && Pow(256, bp) > 0
    ensures Packed(x[el := PutInLimb(x[el], v, Pow(256, bp))], bytes[el * R + bp := v], R)
    decreases |x|
  {
    hide Pow;
    hide Val;
    PowPos(256, bp);
    var k, c := |x| - 1, |bytes| - R;
    PackedValue(x[..k], bytes[..c], R);
    var x' := x[el := PutInLimb(x[el], v, Pow(256, bp))];
    MulMono(0, el, R);
    if el == k {
      var bytes' := bytes[c + bp := v];
      assert bytes'[..c] == bytes[..c] && bytes'[c..] == bytes[c..][bp := v] && x'[..k] == x[..k];
      PutInLimbBytes(bytes[c..], bp, v);
    } else {
      PackedUpdate(x[..k], bytes[..c], R, el, bp, v);
      var bytes' := bytes[el * R + bp := v];
      assert bytes'[..c] == bytes[..c][el * R + bp := v] && bytes'[c..] == bytes[c..];
      assert x'[..k] == x[..k][el := PutInLimb(x[el], v, Pow(256, bp))];
    }
  }

  /** Clear the byte at place p of a limb, then set it to v. */
  function PutInLimb(limb: int, v: int, p: int): int
    requires p > 0
  {
    limb - ((limb / p) % 256) * p + v * p
  }

  lemma PutInLimbBytes(s: seq<int>, bp: nat, v: int)
    requires Norm(s, 256) && bp < |s| && 0 <= v < 256
    ensures Pow(256, bp) > 0 && PutInLimb(Val(s, 256), v, Pow(256, bp)) == Val(s[bp := v], 256)
    ensures Norm(s[bp := v], 256)
  {
    hide Pow;
    hide Val;
    var p, t, s' := Pow(256, bp), s[bp..], s[bp := v];
    ValDivMod(s, bp, 256);
    LowDigit(t, 256);
    ValSplit(s, bp, 256);
    ValSplit(s', bp, 256);
    assert s'[..bp] == s[..bp] && s'[bp..] == [v] + t[1..];
    HeadValue(t, 256);
    HeadValue([v] + t[1..], 256);
    ReplaceDigit(p, t[0], v, Val(t[1..], 256));
  }

  lemma HeadValue(t: seq<int>, b: int)
    requires |t| > 0
    ensures Val(t, b) == t[0] + b * Val(t[1..], b)
  {
    assert t == [t[0]] + t[1..];
    ValConcat([t[0]], t[1..], b);
    ValSingle(t[0], b);
    PowOne(b);
  }

  lemma LowDigit(t: seq<int>, b: int)
    requires |t| > 0 && b > 0 && 0 <= t[0] < b
    ensures Val(t, b) % b == t[0]
  {
    HeadValue(t, b);
    DivModOf(Val(t, b), Val(t[1..], b), t[0], b);
  }

  lemma ReplaceDigit(p: int, d: int, v: int, h: int)
    ensures p * (v + 256 * h) == p * (d + 256 * h) - d * p + v * p
  {}

  /** The C operators do what PutInLimb says. */
  lemma PutInLimbBits(limb: nat, v: nat, bp: nat, p: nat)
    requires v < 256 && p == Pow(256, bp) && p > 0
    ensures PutByteBits(limb, v, p) == PutInLimb(limb, v, p)
  {
    hide Pow;
    hide PutByteBits;
    PowMul(2, 8, bp);
    EightBitsWide();
    var y, lo := limb / p, limb % p;
    var h, d := y / 256, y % 256;
    DivRangeNat(limb, p);
    PutByteValue(h, d, lo, v, 8 * bp);
    assert limb == y * p + lo && y == h * 256 + d;
    assert (h * 256 + v) * p == y * p - d * p + v * p by { assert (h * 256 + v) * p == (y - d + v) * p; }
  }

  lemma DivRangeNat(x: nat, p: nat)
    requires p > 0
    ensures x / p >= 0
  {
    if x / p < 0 { MulMono(x / p, -1, p); }
  }

  /** tr_putbyte. */
  method PutByte(v: int, index: nat, x: array<int>, R: nat, n: nat, ghost bytes: seq<int>)
    requires R > 0 && x.Length == n && 0 <= v < 256 && Packed(x[..], bytes, R)
    modifies x
    ensures |bytes| == n * R
    ensures index >= n * R ==> x[..] == old(x[..])
    ensures index < n * R ==> Packed(x[..], bytes[index := v], R)
  {
    hide Packed;
    hide Pow;
    PackedValue(x[..], bytes, R);
    if index >= n * R { return; }
    var el, bp := index / R, index % R;
    ByteIndex(index, R, n, el);
    var p := BytePlace(bp);
    PackedUpdate(x[..], bytes, R, el, bp, v);
    ghost var x' := x[..][el := PutInLimb(x[el], v, p)];
    LimbIsNat(x[..], bytes, R, el);
    PutInLimbBits(x[el], v, bp, p);
    hide PutInLimb;
    var w := And(x[el], 0xFF * p);
    x[el] := Or(Xor(x[el], w), v * p);
    assert x[..] == x';
  }

  lemma LimbIsNat(x: seq<int>, bytes: seq<int>, R: nat, el: nat)
    requires Packed(x, bytes, R) && el < |x|
    ensures x[el] >= 0
  {
    hide Val;
    hide Pow;
    PackedValue(x, bytes, R);
  }

  method BytePlace(bp: nat) returns (p: int)
    ensures p == Pow(256, bp) && p > 0
  {
    p := 1;
    for i := 0 to bp
      invariant p == Pow(256, i) && p > 0
    {
      p := 256 * p;
    }
  }

  lemma ByteIndex(i: nat, R: nat, n: nat, el: int)
    requires R >= 1 && i < n * R && el == i / R
    ensures 0 <= el < n && i == el * R + i % R && 0 <= i % R < R
  {
    if el >= n { MulMono(n, el, R); }
    if el < 0 { MulMono(el + 1, 0, R); }
  }

  /** tr_convert: whatever pk held before, it ends with the big-endian value of the octets s. */
  method Convert(s: seq<int>, pk: array<int>, R: nat, n: nat)
    requires R > 0 && pk.Length == n && |s| == n * R && Norm(s, 256) && Norm(pk[..], Pow(256, R))
    modifies pk
    ensures Norm(pk[..], Pow(256, R)) && Val(pk[..], Pow(256, R)) == OS2IP(s)
  {
    hide Packed;
    hide Pow;
    hide Val;
    ghost var bytes := Unpack(pk[..], R);
    PackedValue(pk[..], bytes, R);
    var k := n * R;
    for i := 0 to k
      invariant |bytes| == k && Packed(pk[..], bytes, R)
      invariant forall j :: 0 <= j < i ==> bytes[k - 1 - j] == s[j]
    {
      PutByte(s[i], k - i - 1, pk, R, n, bytes);
      bytes := bytes[k - i - 1 := s[i]];
    }
    PackedValue(pk[..], bytes, R);
    forall j | 0 <= j < k ensures bytes[j] == Reverse(s)[j] {
      assert bytes[k - 1 - (k - 1 - j)] == s[k - 1 - j];
    }
    assert bytes == Reverse(s);
    ReversedValue(s);
  }

  // ----- tr_rsa_pow ------------------------------------------------------------------------

  /** v is the residue of S^(2^e) mod M. */
  ghost predicate Squared(v: int, S: int, e: nat, M: int) {
    M > 0 && Pow(2, e) >= 0 && v == Pow(S, Pow(2, e)) % M
  }

  lemma SquareOnce(v: int, S: int, e: nat, M: int)
    requires Squared(v, S, e, M)
    ensures Squared((v * v) % M, S, e + 1, M)
  {
    hide Pow;
    var q := Pow(2, e);
    PowPos(2, e + 1);
    PowAdd(2, e, 1);
    PowOne(2);
    PowAdd(S, q, q);
    assert q * 2 == q + q;
    CongMod(Pow(S, q), M);
    CongMul(v, Pow(S, q), v, Pow(S, q), M);
  }

  lemma SquareFirst(S: int, M: int)
    requires M > 0
    ensures Squared((S * S) % M, S, 1, M)
  {
    assert Pow(2, 1) == 2 && Pow(S, 2) == S * S;
  }

  lemma LastMultiply(v: int, S: int, M: int)
    requires Squared(v, S, 16, M)
    ensures (S * v) % M == Pow(S, EXPON) % M
  {
    hide Pow;
    SixteenBits();
    CongMod(Pow(S, 65536), M);
    CongScale(v, Pow(S, 65536), S, M);
    PowAdd(S, 1, 65536);
    PowOne(S);
  }

  lemma SixteenBits()
    ensures Pow(2, 16) == 65536
  {
    PowAdd(2, 8, 8);
    assert Pow(2, 8) == 256;
  }

  /** c = s^65537 mod m by sixteen squarings and one multiplication. */
  method RsaPow(m: array<int>, s: array<int>, c: array<int>, n: nat, b: int)
    requires b >= 2 && n >= 2 && m.Length == n && s.Length == n && c.Length == n && c != m && c != s
    requires Norm(m[..], b) && Norm(s[..], b) && m[n - 1] > 0
    modifies c
    ensures Norm(c[..], b) && Val(m[..], b) > 0
    ensures Val(c[..], b) == Pow(Val(s[..], b), EXPON) % Val(m[..], b)
  {
    hide Val;
    hide Pow;
    hide Squared;
    ghost var sm, ss := m[..], s[..];
    ghost var M, S := Val(sm, b), Val(ss, b);
    var t := new int[n];
    ModMul(s, s, m, c, n, b);
    assert m[..] == sm && s[..] == ss;
    SquareFirst(S, M);
    for i := 0 to 7
      invariant m[..] == sm && s[..] == ss && Norm(c[..], b) && M > 0
      invariant Squared(Val(c[..], b), S, 1 + 2 * i, M)
    {
      SquareOnce(Val(c[..], b), S, 1 + 2 * i, M);
      ModMul(c, c, m, t, n, b);
      assert m[..] == sm && s[..] == ss;
      SquareOnce(Val(t[..], b), S, 2 + 2 * i, M);
      ModMul(t, t, m, c, n, b);
      assert m[..] == sm && s[..] == ss;
    }
    SquareOnce(Val(c[..], b), S, 15, M);
    ModMul(c, c, m, t, n, b);
    assert m[..] == sm && s[..] == ss;
    LastMultiply(Val(t[..], b), S, M);
    ModMul(s, t, m, c, n, b);
    assert m[..] == sm && s[..] == ss;
  }

  // ----- rsa_verify ------------------------------------------------------------------------

  /** The expected block is written limb by limb; its value is the one of the byte encoding. */
  method ExpectedBlock(h: seq<int>, d: array<int>, R: nat, n: nat)
    requires R > 0 && d.Length == n && n * R >= 54 && |h| == 32 && Norm(h, 256)
    modifies d
    ensures Norm(d[..], Pow(256, R)) && Val(d[..], Pow(256, R)) == OS2IP(Encode(h, n * R))
  {
    hide Packed;
    hide Pow;
    hide Val;
    hide OS2IP;
    var k := n * R;
    for i := 0 to n
      invariant forall j :: 0 <= j < i ==> d[j] == 0
    {
      d[i] := 0;
    }
    PowPos(256, R);
    ghost var bytes := Unpack(d[..], R);
    PackedValue(d[..], bytes, R);
    PutByte(0, k - 1, d, R, n, bytes);
    bytes := bytes[k - 1 := 0];
    PutByte(1, k - 2, d, R, n, bytes);
    bytes := bytes[k - 2 := 1];
    bytes := PutReversed(h, 31, d, R, n, bytes);
    bytes := PutReversed(SHA256ID, 50, d, R, n, bytes);
    PutByte(0, 51, d, R, n, bytes);
    bytes := bytes[51 := 0];
    ghost var head := bytes;
    for i := 52 to k - 2
      invariant |bytes| == k && Packed(d[..], bytes, R)
      invariant forall j :: 0 <= j < 52 || k - 2 <= j < k ==> bytes[j] == head[j]
      invariant forall j :: 52 <= j < i ==> bytes[j] == 0xff
    {
      PutByte(0xff, i, d, R, n, bytes);
      bytes := bytes[i := 0xff];
    }
    PackedValue(d[..], bytes, R);
    EncodedBytes(bytes, h, k);
    ReversedValue(Encode(h, k));
  }

  /** Writes s from byte index top downwards. */
  method PutReversed(s: seq<int>, top: nat, d: array<int>, R: nat, n: nat, ghost bytes: seq<int>)
    returns (ghost bytes': seq<int>)
    requires R > 0 && d.Length == n && |s| <= top + 1 && top < n * R && Norm(s, 256)
    requires Packed(d[..], bytes, R) && |bytes| == n * R
    modifies d
    ensures |bytes'| == n * R && Packed(d[..], bytes', R)
    ensures forall j :: 0 <= j < |s| ==> bytes'[top - j] == s[j]
    ensures forall j :: 0 <= j <= top - |s| || top < j < n * R ==> bytes'[j] == bytes[j]
  {
    hide Packed;
    bytes' := bytes;
    for i := 0 to |s|
      invariant |bytes'| == n * R && Packed(d[..], bytes', R)
      invariant forall j :: 0 <= j < i ==> bytes'[top - j] == s[j]
      invariant forall j :: 0 <= j <= top - i || top < j < n * R ==> bytes'[j] == bytes[j]
    {
      PutByte(s[i], top - i, d, R, n, bytes');
      bytes' := bytes'[top - i := s[i]];
    }
  }

  lemma EncodedBytes(bytes: seq<int>, h: seq<int>, k: nat)
    requires |h| == 32 && k >= 54 && |bytes| == k
    requires bytes[k - 1] == 0 && bytes[k - 2] == 1 && bytes[51] == 0
    requires forall j :: 0 <= j < 32 ==> bytes[31 - j] == h[j]
    requires forall j :: 0 <= j < 19 ==> bytes[50 - j] == SHA256ID[j]
    requires forall j :: 52 <= j < k - 2 ==> bytes[j] == 0xff
    ensures bytes == Reverse(Encode(h, k))
  {
    var e := Encode(h, k);
    assert |e| == k;
    forall j | 0 <= j < k ensures bytes[j] == e[k - 1 - j] {
      if j < 32 {
        assert bytes[31 - (31 - j)] == h[31 - j];
      } else if j < 51 {
        assert bytes[50 - (50 - j)] == SHA256ID[50 - j];
      }
    }
  }

  lemma WordBase()
    ensures Pow(256, REGBYTES) == 0x1_0000_0000
  {
    assert Pow(256, 2) == 65536;
    PowAdd(256, 2, 2);
  }

  /**
   * rsa_verify on 2048-bit keys. n0 and s0 are the stack arrays, with whatever they held before conversion.
   * The verdict is exactly the comparison of sig^65537 mod pub with the PKCS#1 v1.5 encoding of the digest.
   */
  method Verify(h: seq<int>, pub: seq<int>, sig: seq<int>, n0: array<int>, s0: array<int>) returns (r: int)
    requires |h| == 32 && |pub| == |sig| == RSABYTES && Norm(h, 256) && Norm(pub, 256) && Norm(sig, 256)
    requires OS2IP(pub) >= Pow(Pow(256, REGBYTES), MODSIZE - 1)
    requires n0.Length == s0.Length == MODSIZE && n0 != s0
    requires Norm(n0[..], Pow(256, REGBYTES)) && Norm(s0[..], Pow(256, REGBYTES))
    modifies n0, s0
    ensures r == 0 || r == 1
    ensures OS2IP(pub) > 0
    ensures r == 1 <==> Pow(OS2IP(sig), EXPON) % OS2IP(pub) == OS2IP(Encode(h, RSABYTES))
  {
    hide Pow;
    hide Val;
    hide OS2IP;
    WordBase();
    var b := 0x1_0000_0000;
    var c := new int[MODSIZE];
    var d := new int[MODSIZE];
    Convert(pub, n0, REGBYTES, MODSIZE);
    Convert(sig, s0, REGBYTES, MODSIZE);
    ExpectedBlock(h, d, REGBYTES, MODSIZE);
    TopLimbNonzero(n0[..], b);
    RsaPow(n0, s0, c, MODSIZE, b);
    var cmp := Compare(d, c, MODSIZE, b);
    r := if cmp == 0 then 1 else 0;
  }

  lemma TopLimbNonzero(x: seq<int>, b: int)
    requires b >= 2 && |x| >= 1 && Norm(x, b) && Val(x, b) >= Pow(b, |x| - 1)
    ensures x[|x| - 1] > 0
  {
    ValBound(x[..|x| - 1], b);
  }

  /**
   * The verdict depends on the signature only modulo the key: there is no test that the signature is below the modulus
   * (section 5.2.2, step 1, of RFC 8017 asks for one), so every representative of an accepted one is accepted.
   */
  lemma OnlyModuloTheKey(pub: seq<int>, sig: seq<int>, sig': seq<int>, block: int)
    requires OS2IP(pub) > 0 && Cong(OS2IP(sig), OS2IP(sig'), OS2IP(pub))
    ensures Pow(OS2IP(sig), EXPON) % OS2IP(pub) == block <==> Pow(OS2IP(sig'), EXPON) % OS2IP(pub) == block
  {
    hide Pow;
    hide OS2IP;
    PowCong(OS2IP(sig), OS2IP(sig'), EXPON, OS2IP(pub));
  }
}
