/** The padded CBC wrapper: zero initial vector, padding of section 6.3 of RFC 5652. */
module CbcWrapper {
  import opened Words
  import opened GcmTable
  import opened Gcm
  import opened BlockModes

  ghost function BlockAt(s: seq<Byte>, k: nat): Block
    requires 16 * k + 16 <= |s|
  {
    s[16 * k..16 * k + 16]
  }

  /** The chaining register after k blocks of ciphertext. */
  ghost function Register(f: Block, c: seq<Byte>, k: nat): Block
    requires 16 * k <= |c|
  {
    if k == 0 then f else BlockAt(c, k - 1)
  }

  /** The first k blocks of p, encrypted. */
  ghost function CbcEnc(e: Cipher, f: Block, p: seq<Byte>, k: nat): (c: seq<Byte>)
    requires 16 * k <= |p|
    ensures |c| == 16 * k
  {
    if k == 0 then [] else
    var q := CbcEnc(e, f, p, k - 1);
    q + e(XorFront(BlockAt(p, k - 1), Register(f, q, k - 1)))
  }

  ghost function CbcDec(d: Cipher, f: Block, c: seq<Byte>, k: nat): (p: seq<Byte>)
    requires 16 * k <= |c|
    ensures |p| == 16 * k
  {
    if k == 0 then [] else CbcDec(d, f, c, k - 1) + XorFront(d(BlockAt(c, k - 1)), Register(f, c, k - 1))
  }

  lemma {:induction false} DecPrefix(d: Cipher, f: Block, c: seq<Byte>, c': seq<Byte>, k: nat)
    requires 16 * k <= |c| && c <= c'
    ensures CbcDec(d, f, c, k) == CbcDec(d, f, c', k)
  {
    hide XorFront;
    if k > 0 {
      DecPrefix(d, f, c, c', k - 1);
      assert BlockAt(c, k - 1) == BlockAt(c', k - 1);
      assert k > 1 ==> BlockAt(c, k - 2) == BlockAt(c', k - 2);
    }
  }

  lemma {:induction false} CbcUndone(e: Cipher, d: Cipher, f: Block, p: seq<Byte>, k: nat)
    requires Inverse(e, d) && 16 * k <= |p|
    ensures CbcDec(d, f, CbcEnc(e, f, p, k), k) == p[..16 * k]
  {
    if k > 0 {
      hide XorFront;
      hide CbcEnc;
      hide CbcDec;
      hide Register;
      hide Inverse;
      hide BlockAt;
      var j := k - 1;
      CbcUndone(e, d, f, p, j);
      EncNext(e, f, p, j);
      var q := CbcEnc(e, f, p, j);
      var x := XorFront(BlockAt(p, j), Register(f, q, j));
      var c := q + e(x);
      DecPrefix(d, f, q, c, j);
      DecNext(d, f, c, j);
      LastBlockOf(q, e(x), j);
      Undo(e, d, x);
      RegisterPrefix(f, q, c, j);
      XorFrontTwice(BlockAt(p, j), Register(f, q, j));
      OneBlockOn(p, j);
    }
  }

  lemma LastBlockOf(q: seq<Byte>, b: Block, j: nat)
    requires |q| == 16 * j
    ensures BlockAt(q + b, j) == b
  {}

  lemma Undo(e: Cipher, d: Cipher, x: Block)
    requires Inverse(e, d)
    ensures d(e(x)) == x
  {}

  lemma OneBlockOn(p: seq<Byte>, j: nat)
    requires 16 * j + 16 <= |p|
    ensures p[..16 * (j + 1)] == p[..16 * j] + BlockAt(p, j)
  {}

  lemma RegisterPrefix(f: Block, q: seq<Byte>, c: seq<Byte>, k: nat)
    requires 16 * k == |q| && q <= c
    ensures Register(f, q, k) == Register(f, c, k)
  {}

  // ----- padding and truncation ---------------------------------------------------------------

  function PadLength(n: nat): (l: Byte)
    ensures 1 <= l <= 16 && n + l == 16 * (n / 16 + 1)
  {
    16 - n % 16
  }

  ghost function Pad(m: seq<Byte>): (p: seq<Byte>)
    ensures |p| == 16 * (|m| / 16 + 1)
  {
    m + seq(PadLength(|m|), _ => PadLength(|m|))
  }

  ghost predicate GoodPadding(b: Block) {
    1 <= b[15] <= 16 && forall i :: 16 - b[15] <= i < 16 ==> b[i] == b[15]
  }

  /** What fits into an octet of the given capacity. */
  ghost function Fit(s: seq<Byte>, max: nat): seq<Byte> { if |s| <= max then s else s[..max] }

  lemma FitMore(s: seq<Byte>, b: Byte, max: nat)
    ensures Fit(s + [b], max) == if |Fit(s, max)| < max then Fit(s, max) + [b] else Fit(s, max)
  {}

  /** Bytes go out one by one while there is room. */
  method Emit(out0: seq<Byte>, s: seq<Byte>, max: nat, ghost full: seq<Byte>) returns (out: seq<Byte>)
    requires out0 == Fit(full, max)
    ensures out == Fit(full + s, max)
  {
    hide Fit;
    out := out0;
    assert full + s[..0] == full;
    for i := 0 to |s|
      invariant out == Fit(full + s[..i], max)
    {
      FitMore(full + s[..i], s[i], max);
      assert full + s[..i] + [s[i]] == full + s[..i + 1];
      if |out| < max { out := out + [s[i]]; }
    }
    assert s[..|s|] == s;
  }

  // ----- the wrapper ---------------------------------------------------------------------------------

  /** One whole block in CBC mode. */
  method EncryptBlock(a: Aes, buff: array<Byte>)
    requires a.Valid() && a.mode == CBC && buff.Length == 16 && buff != a.f
    modifies a.f, buff
    ensures buff[..] == a.e(XorFront(old(buff[..]), old(a.f[..]))) && a.f[..] == buff[..]
  {
    hide XorFront;
    ghost var b := buff[..];
    assert buff[..16] == b && buff[16..] == [];
    var _ := a.Encrypt(buff);
  }

  method DecryptBlock(a: Aes, buff: array<Byte>)
    requires a.Valid() && a.mode == CBC && buff.Length == 16 && buff != a.f
    modifies a.f, buff
    ensures buff[..] == XorFront(a.d(old(buff[..])), old(a.f[..])) && a.f[..] == old(buff[..])
  {
    hide XorFront;
    ghost var b := buff[..];
    assert buff[..16] == b && buff[16..] == [];
    var _ := a.Decrypt(buff);
  }

  /** MCL_AES_CBC_IV0_ENCRYPT. */
  method Encrypt(e: Cipher, d: Cipher, m: seq<Byte>, max: nat) returns (c: seq<Byte>)
    ensures m == [] ==> c == []
    ensures m != [] ==> c == Fit(CbcEnc(e, Zeros(16), Pad(m), |m| / 16 + 1), max)
  {
    hide CbcEnc;
    hide Fit;
    hide XorFront;
    hide Pad;
    hide Xor8;
    c := [];
    if |m| == 0 { return; }
    var a := new Aes(e, d, CBC);
    var buff := new Byte[16];
    var ipt, i := 0, 0;
    ghost var p, k, full := Pad(m), 0, [];
    NothingYet(e, d, Zeros(16), p, max);
    while true
      invariant ipt == 16 * k <= |m| && a.Valid() && a.mode == CBC && a.e == e && buff.Length == 16
      invariant full == CbcEnc(e, Zeros(16), p, k) && a.f[..] == Register(Zeros(16), full, k) && c == Fit(full, max)
      modifies a.f, buff
      decreases |m| - ipt
    {
      ipt, i := Fill(buff, m, ipt);
      if i < 16 {
        assert buff[..i] == m[16 * k..];
        break;
      }
      PadInside(m, k);
      assert buff[..16] == buff[..];
      EncNext(e, Zeros(16), p, k);
      EncryptBlock(a, buff);
      c := Emit(c, buff[..], max, full);
      full, k := full + buff[..], k + 1;
    }
    c := FinalBlock(a, buff, i, m, c, max, k, full);
  }

  /** The last block, filled up with padding from index i on. */
  method FinalBlock(a: Aes, buff: array<Byte>, i: nat, m: seq<Byte>, c0: seq<Byte>, max: nat, ghost k: nat, ghost full: seq<Byte>)
    returns (c: seq<Byte>)
    requires a.Valid() && a.mode == CBC && buff.Length == 16 && buff != a.f && i < 16 && |m| == 16 * k + i
    requires buff[..i] == m[16 * k..] && full == CbcEnc(a.e, Zeros(16), Pad(m), k)
    requires a.f[..] == Register(Zeros(16), full, k) && c0 == Fit(full, max)
    modifies a.f, buff
    ensures c == Fit(CbcEnc(a.e, Zeros(16), Pad(m), |m| / 16 + 1), max)
  {
    hide CbcEnc;
    hide Fit;
    hide XorFront;
    hide Pad;
    hide Register;
    ghost var f := a.f[..];
    var padlen := 16 - i;
    for j := i to 16
      invariant buff[..i] == m[16 * k..] && forall x :: i <= x < j ==> buff[x] == padlen
      modifies buff
    {
      buff[j] := padlen;
    }
    assert buff[..][..i] == buff[..i];
    PadLast(m, k, buff[..]);
    EncNext(a.e, Zeros(16), Pad(m), k);
    assert a.f[..] == f;
    EncryptBlock(a, buff);
    c := Emit(c0, buff[..], max, full);
  }

  lemma PadInside(m: seq<Byte>, k: nat)
    requires 16 * k + 16 <= |m|
    ensures 16 * k + 16 <= |Pad(m)| && BlockAt(Pad(m), k) == m[16 * k..16 * k + 16]
  {}

  lemma PadLast(m: seq<Byte>, k: nat, b: Block)
    requires 16 * k <= |m| < 16 * k + 16
    requires b[..|m| - 16 * k] == m[16 * k..] && forall x :: |m| - 16 * k <= x < 16 ==> b[x] == 16 * k + 16 - |m|
    ensures k == |m| / 16 && BlockAt(Pad(m), k) == b
  {
    assert k == |m| / 16;
    assert PadLength(|m|) == 16 * k + 16 - |m|;
    var i := |m| - 16 * k;
    forall x | 0 <= x < 16 ensures BlockAt(Pad(m), k)[x] == b[x] {
      if x < i { assert b[x] == b[..i][x]; }
    }
  }

  lemma NothingYet(e: Cipher, d: Cipher, f: Block, p: seq<Byte>, max: nat)
    ensures CbcEnc(e, f, p, 0) == [] && CbcDec(d, f, p, 0) == [] && Fit([], max) == []
  {}

  lemma EncNext(e: Cipher, f: Block, p: seq<Byte>, k: nat)
    requires 16 * k + 16 <= |p|
    ensures var q := CbcEnc(e, f, p, k);
      var c := e(XorFront(BlockAt(p, k), Register(f, q, k)));
      CbcEnc(e, f, p, k + 1) == q + c && Register(f, q + c, k + 1) == c
  {}

  /** The inner loop: up to sixteen bytes of m. */
  method Fill(buff: array<Byte>, m: seq<Byte>, ipt0: nat) returns (ipt: nat, i: nat)
    requires buff.Length == 16 && ipt0 <= |m|
    modifies buff
    ensures i <= 16 && ipt == ipt0 + i <= |m| && (i < 16 ==> ipt == |m|)
    ensures buff[..i] == m[ipt0..ipt]
  {
    ipt, i := ipt0, 0;
    while i < 16 && ipt < |m|
      invariant 0 <= i <= 16 && ipt == ipt0 + i <= |m| && buff[..i] == m[ipt0..ipt]
      modifies buff
    {
      buff[i] := m[ipt];
      ipt, i := ipt + 1, i + 1;
    }
  }

  /** MCL_AES_CBC_IV0_DECRYPT: accepts exactly the empty octet and whole blocks that end in good padding. */
  method Decrypt(e: Cipher, d: Cipher, c: seq<Byte>, max: nat) returns (r: int, m: seq<Byte>)
    ensures c == [] ==> r == 1 && m == []
    ensures c != [] ==> (r == 1 <==> Accepts(d, c))
    ensures c != [] && r == 1 ==> m == Fit(Unpadded(d, c), max)
    ensures r == 0 || r == 1
  {
    hide CbcDec;
    hide Fit;
    hide XorFront;
    hide Xor8;
    m := [];
    if |c| == 0 { return 1, m; }
    var a := new Aes(e, d, CBC);
    var buff := new Byte[16];
    var ipt, ch, i, fin := 1, c[0], 0, false;
    ghost var k, full := 0, [];
    NothingYet(e, d, Zeros(16), c, max);
    while true
      invariant 16 * k < |c| && ipt == 16 * k + 1 && ch == c[16 * k] && a.Valid() && a.mode == CBC && a.d == d && buff.Length == 16
      invariant full == CbcDec(d, Zeros(16), c, k) && a.f[..] == Register(Zeros(16), c, k) && m == Fit(full, max)
      modifies a.f, buff
      decreases |c| - ipt
    {
      ipt, ch, i, fin := FillAhead(buff, c, ipt, ch);
      ghost var whole := 16 * k + 16 <= |c|;
      if whole {
        assert buff[..] == BlockAt(c, k);
        DecNext(d, Zeros(16), c, k);
      }
      DecryptBlock(a, buff);
      if fin { break; }
      m := Emit(m, buff[..], max, full);
      full, k := full + buff[..], k + 1;
    }
    var bad, padlen := BadPadding(buff, i);
    assert i == 15 <==> |c| == 16 * k + 16;
    if i == 15 {
      LastIs(d, c, k, buff[..]);
    } else {
      NotWhole(d, c, k, i);
    }
    hide GoodPadding;
    if bad { return 0, m; }
    m := Emit(m, buff[..16 - padlen], max, full);
    return 1, m;
  }

  /** The padding test; i is where the last block ended. */
  method BadPadding(buff: array<Byte>, i: nat) returns (bad: bool, padlen: Byte)
    requires buff.Length == 16
    ensures padlen == buff[15] && (bad <==> i != 15 || !GoodPadding(buff[..])) && (!bad ==> 1 <= padlen <= 16)
  {
    bad := false;
    padlen := buff[15];
    if i != 15 || padlen < 1 || padlen > 16 { bad := true; }
    if 2 <= padlen <= 16 {
      for j := 16 - padlen to 16
        invariant bad <==> (i != 15 || exists x :: 16 - padlen <= x < j && buff[x] != padlen)
      {
        if buff[j] != padlen { bad := true; }
      }
    }
  }

  lemma NotWhole(d: Cipher, c: seq<Byte>, k: nat, i: nat)
    requires |c| == 16 * k + i + 1 && i < 15
    ensures !Accepts(d, c)
  {
    assert |c| % 16 == i + 1;
  }

  /** The decrypted text, padding included. */
  ghost function Plain(d: Cipher, c: seq<Byte>): (p: seq<Byte>)
    ensures |p| == 16 * (|c| / 16)
  {
    CbcDec(d, Zeros(16), c, |c| / 16)
  }

  ghost predicate Accepts(d: Cipher, c: seq<Byte>) {
    |c| % 16 == 0 && |c| > 0 && GoodPadding(Plain(d, c)[|c| - 16..])
  }

  ghost function Unpadded(d: Cipher, c: seq<Byte>): seq<Byte>
    requires Accepts(d, c)
  {
    var p := Plain(d, c);
    p[..|p| - p[|p| - 1]]
  }

  lemma DecNext(d: Cipher, f: Block, c: seq<Byte>, k: nat)
    requires 16 * k + 16 <= |c|
    ensures CbcDec(d, f, c, k + 1) == CbcDec(d, f, c, k) + XorFront(d(BlockAt(c, k)), Register(f, c, k))
    ensures Register(f, c, k + 1) == BlockAt(c, k)
  {}

  /** The last block of the plaintext. */
  lemma LastIs(d: Cipher, c: seq<Byte>, k: nat, b: Block)
    requires |c| == 16 * k + 16 && b == XorFront(d(BlockAt(c, k)), Register(Zeros(16), c, k))
    ensures |c| % 16 == 0 && |Plain(d, c)| == |c| && Plain(d, c)[|c| - 16..] == b && Plain(d, c)[|c| - 1] == b[15]
    ensures b[15] <= 16 ==> Plain(d, c)[..|c| - b[15]] == CbcDec(d, Zeros(16), c, k) + b[..16 - b[15]]
  {
    hide CbcDec;
    hide XorFront;
    assert |c| / 16 == k + 1;
    DecNext(d, Zeros(16), c, k);
    assert Plain(d, c) == CbcDec(d, Zeros(16), c, k) + b;
  }

  /** The inner loop of the decryption, which keeps one byte in hand. */
  method FillAhead(buff: array<Byte>, c: seq<Byte>, ipt0: nat, ch0: Byte) returns (ipt: nat, ch: Byte, i: nat, fin: bool)
    requires buff.Length == 16 && 0 < ipt0 <= |c| && ch0 == c[ipt0 - 1]
    modifies buff
    ensures fin <==> |c| < ipt0 + 16
    ensures fin ==> i < 16 && |c| == ipt0 + i
    ensures !fin ==> i == 16 && ipt == ipt0 + 16 && ch == c[ipt - 1]
    ensures |c| >= ipt0 + 15 ==> buff[..] == c[ipt0 - 1..ipt0 + 15]
  {
    ipt, ch, i, fin := ipt0, ch0, 0, false;
    while i < 16
      invariant 0 <= i <= 16 && ipt == ipt0 + i <= |c| && ch == c[ipt - 1] && !fin
      invariant buff[..i] == c[ipt0 - 1..ipt0 + i - 1]
      modifies buff
    {
      buff[i] := ch;
      assert buff[..i + 1] == c[ipt0 - 1..ipt0 + i];
      if ipt >= |c| {
        fin := true;
        break;
      }
      ch, ipt, i := c[ipt], ipt + 1, i + 1;
    }
  }

  // ----- round trip ----------------------------------------------------------------------------------

  lemma PadIsGood(m: seq<Byte>)
    ensures GoodPadding(Pad(m)[|Pad(m)| - 16..]) && Pad(m)[..|Pad(m)| - Pad(m)[|Pad(m)| - 1]] == m
  {
    var p, l := Pad(m), PadLength(|m|);
    assert p[|p| - 1] == l;
  }

  /** Every message whose padded form fits the ciphertext buffer comes back. */
  method RoundTrip(e: Cipher, d: Cipher, m: seq<Byte>, maxC: nat, maxM: nat) returns (r: int, m': seq<Byte>)
    requires Inverse(e, d) && |m| <= maxM && (m != [] ==> 16 * (|m| / 16 + 1) <= maxC)
    ensures r == 1 && m' == m
  {
    hide CbcEnc;
    hide CbcDec;
    hide Inverse;
    hide Pad;
    hide GoodPadding;
    var c := Encrypt(e, d, m, maxC);
    if m != [] {
      ghost var k := |m| / 16 + 1;
      CbcUndone(e, d, Zeros(16), Pad(m), k);
      assert |c| / 16 == k && Plain(d, c) == Pad(m)[..16 * k] == Pad(m);
      PadIsGood(m);
    }
    r, m' := Decrypt(e, d, c, maxM);
  }
}
