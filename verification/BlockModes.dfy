/** The modes of operation of the AES object, over an abstract block cipher and its inverse. */
module BlockModes {
  import opened Bits
  import opened Words
  import opened GcmTable
  import opened Gcm

  const ECB: int := 0
  const CBC: int := 1
  const CFB1: int := 2
  const CFB2: int := 3
  const CFB4: int := 5
  const OFB1: int := 14
  const OFB2: int := 15
  const OFB4: int := 17
  const OFB8: int := 21
  const OFB16: int := 29

  predicate IsCfb(mode: int) { mode == CFB1 || mode == CFB2 || mode == CFB4 }
  predicate IsOfb(mode: int) { mode == OFB1 || mode == OFB2 || mode == OFB4 || mode == OFB8 || mode == OFB16 }

  /** The bytes of the buffer that a mode works on. */
  function Width(mode: int): (n: nat)
    ensures n <= 16 && (IsCfb(mode) ==> n <= 4)
  {
    if mode == ECB || mode == CBC then 16 else if IsCfb(mode) then mode - CFB1 + 1 else if IsOfb(mode) then mode - OFB1 + 1 else 0
  }

  /** Xor of the first bytes of a key block into a text. */
  ghost function XorFront(p: seq<Byte>, k: Block): (c: seq<Byte>)
    requires |p| <= 16
    ensures |c| == |p|
  {
    seq(|p|, i requires 0 <= i < |p| => Xor8(p[i], k[i]))
  }

  datatype Step = Step(text: seq<Byte>, f: Block)

  /** One encryption: sections 6.1 to 6.4 of NIST SP 800-38A, f being the chaining register. */
  ghost function Enc(e: Cipher, mode: int, f: Block, p: seq<Byte>): (r: Step)
    requires |p| == Width(mode)
    ensures |r.text| == |p|
  {
    if mode == ECB then Step(e(p), f)
    else if mode == CBC then var c := e(XorFront(p, f)); Step(c, c)
    else if IsCfb(mode) then var c := XorFront(p, e(f)); Step(c, f[|p|..] + c)
    else if IsOfb(mode) then Step(XorFront(p, e(f)), e(f))
    else Step(p, f)
  }

  ghost function Dec(e: Cipher, d: Cipher, mode: int, f: Block, c: seq<Byte>): (r: Step)
    requires |c| == Width(mode)
    ensures |r.text| == |c|
  {
    if mode == ECB then Step(d(c), f)
    else if mode == CBC then Step(XorFront(d(c), f), c)
    else if IsCfb(mode) then Step(XorFront(c, e(f)), f[|c|..] + c)
    else if IsOfb(mode) then Step(XorFront(c, e(f)), e(f))
    else Step(c, f)
  }

  ghost predicate Inverse(e: Cipher, d: Cipher) { forall x: Block :: d(e(x)) == x }

  lemma XorFrontTwice(p: seq<Byte>, k: Block)
    requires |p| <= 16
    ensures XorFront(XorFront(p, k), k) == p
  {
    forall i | 0 <= i < |p| ensures Xor8(Xor8(p[i], k[i]), k[i]) == p[i] {
      XorTwice(p[i], k[i]);
    }
  }

  /** Decryption undoes encryption and leaves the same chaining register. */
  lemma StepUndone(e: Cipher, d: Cipher, mode: int, f: Block, p: seq<Byte>)
    requires Inverse(e, d) && |p| == Width(mode)
    ensures Dec(e, d, mode, f, Enc(e, mode, f, p).text) == Step(p, Enc(e, mode, f, p).f)
  {
    hide XorFront;
    if mode == CBC {
      XorFrontTwice(p, f);
      assert d(e(XorFront(p, f))) == XorFront(p, f);
    } else if mode != ECB && Width(mode) <= 16 {
      XorFrontTwice(p, e(f));
    }
  }

  datatype Run = Run(texts: seq<seq<Byte>>, f: Block)

  ghost function EncAll(e: Cipher, mode: int, f: Block, ps: seq<seq<Byte>>): (r: Run)
    requires forall i :: 0 <= i < |ps| ==> |ps[i]| == Width(mode)
    ensures |r.texts| == |ps| && forall i :: 0 <= i < |ps| ==> |r.texts[i]| == Width(mode)
    decreases |ps|
  {
    if |ps| == 0 then Run([], f)
    else
      var s := Enc(e, mode, f, ps[0]);
      var r := EncAll(e, mode, s.f, ps[1..]);
      Run([s.text] + r.texts, r.f)
  }

  ghost function DecAll(e: Cipher, d: Cipher, mode: int, f: Block, cs: seq<seq<Byte>>): (r: Run)
    requires forall i :: 0 <= i < |cs| ==> |cs[i]| == Width(mode)
    decreases |cs|
  {
    if |cs| == 0 then Run([], f)
    else
      var s := Dec(e, d, mode, f, cs[0]);
      var r := DecAll(e, d, mode, s.f, cs[1..]);
      Run([s.text] + r.texts, r.f)
  }

  /** Any sequence of blocks, in any mode. */
  lemma {:induction false} RunUndone(e: Cipher, d: Cipher, mode: int, f: Block, ps: seq<seq<Byte>>)
    requires Inverse(e, d) && forall i :: 0 <= i < |ps| ==> |ps[i]| == Width(mode)
    ensures DecAll(e, d, mode, f, EncAll(e, mode, f, ps).texts) == Run(ps, EncAll(e, mode, f, ps).f)
    decreases |ps|
  {
    hide Enc;
    hide Dec;
    hide Width;
    hide Inverse;
    if |ps| > 0 {
      var s := Enc(e, mode, f, ps[0]);
      StepUndone(e, d, mode, f, ps[0]);
      RunUndone(e, d, mode, s.f, ps[1..]);
      var r := EncAll(e, mode, s.f, ps[1..]);
      assert ([s.text] + r.texts)[1..] == r.texts;
    }
  }

  /** The bytes that leave the register, as a number. */
  ghost function BigValue(s: seq<Byte>): int { if |s| == 0 then 0 else Append(BigValue(s[..|s| - 1]), s[|s| - 1]) }

  /** The cipher object with its mode and chaining register. */
  class Aes {
    const e: Cipher
    const d: Cipher
    const f: array<Byte>
    var mode: int

    ghost predicate Valid()
      reads this
    {
      f.Length == 16
    }

    constructor (e: Cipher, d: Cipher, mode: int)
      ensures Valid() && this.e == e && this.d == d && this.mode == mode && fresh(f) && f[..] == Zeros(16)
    {
      this.e, this.d, this.mode := e, d, mode;
      f := new Byte[16](_ => 0);
      new;
      assert f[..] == Zeros(16);
    }

    /** The register's first n bytes as the return value, each read as an unsigned char; the source declares the register as plain char. */
    method FallOff(n: nat) returns (r: Word)
      requires Valid() && n <= 4
      ensures r == BigValue(f[..n])
    {
      hide ShiftIn;
      r := 0;
      for j := 0 to n
        invariant r == BigValue(f[..j]) && 0 <= r && (j == 0 ==> r == 0) && (j == 1 ==> r < 0x100) && (j == 2 ==> r < 0x1_0000) && (j == 3 ==> r < 0x100_0000)
      {
        ShiftInValue(r, f[j]);
        assert f[..j + 1][..j] == f[..j];
        r := ShiftIn(r, f[j]);
      }
    }

    /** buff[j] ^= k[j] for the first n bytes. */
    static method XorInto(buff: array<Byte>, k: seq<Byte>, n: nat)
      requires n <= buff.Length && n <= 16 == |k|
      modifies buff
      ensures buff[..] == XorFront(old(buff[..n]), k) + old(buff[n..])
    {
      hide Xor8;
      for j := 0 to n
        invariant forall i :: 0 <= i < j ==> buff[i] == Xor8(old(buff[i]), k[i])
        invariant forall i :: j <= i < buff.Length ==> buff[i] == old(buff[i])
        modifies buff
      {
        buff[j] := Xor8(buff[j], k[j]);
      }
    }

    /** dst[at + j] = s[j]. */
    static method Store(dst: array<Byte>, at: nat, s: seq<Byte>)
      requires at + |s| <= dst.Length
      modifies dst
      ensures dst[..] == old(dst[..at]) + s + old(dst[at + |s|..])
    {
      for j := 0 to |s|
        invariant forall i :: 0 <= i < j ==> dst[at + i] == s[i]
        invariant forall i :: 0 <= i < dst.Length && (i < at || at + j <= i) ==> dst[i] == old(dst[i])
        modifies dst
      {
        dst[at + j] := s[j];
      }
    }

    /** MCL_AES_encrypt; only the first Width(mode) bytes of the buffer change. */
    method Encrypt(buff: array<Byte>) returns (fellOff: Word)
      requires Valid() && buff.Length >= Width(mode) && buff != f
      modifies f, buff
      ensures var r := Enc(e, mode, old(f[..]), old(buff[..Width(mode)]));
        f[..] == r.f && buff[..] == r.text + old(buff[Width(mode)..])
      ensures fellOff == if IsCfb(mode) then BigValue(old(f[..Width(mode)])) else 0
    {
      hide XorFront;
      hide BigValue;
      fellOff := 0;
      ghost var n, f0, b0 := Width(mode), f[..], buff[..];
      if mode == ECB {
        Store(buff, 0, e(buff[..16]));
        assert buff[..16] == e(b0[..16]) && buff[16..] == b0[16..];
      } else if mode == CBC {
        XorInto(buff, f[..], 16);
        Store(buff, 0, e(buff[..16]));
        assert buff[16..] == b0[16..];
        Store(f, 0, buff[..16]);
      } else if IsCfb(mode) {
        var bytes := mode - CFB1 + 1;
        fellOff := FallOff(bytes);
        var st := e(f[..]);
        Shift(f, bytes);
        XorInto(buff, st, bytes);
        Store(f, 16 - bytes, buff[..bytes]);
      } else if IsOfb(mode) {
        Store(f, 0, e(f[..]));
        XorInto(buff, f[..], mode - OFB1 + 1);
      }
    }

    /** MCL_AES_decrypt. */
    method Decrypt(buff: array<Byte>) returns (fellOff: Word)
      requires Valid() && buff.Length >= Width(mode) && buff != f
      modifies f, buff
      ensures var r := Dec(e, d, mode, old(f[..]), old(buff[..Width(mode)]));
        f[..] == r.f && buff[..] == r.text + old(buff[Width(mode)..])
      ensures fellOff == if IsCfb(mode) then BigValue(old(f[..Width(mode)])) else 0
    {
      hide XorFront;
      hide BigValue;
      fellOff := 0;
      ghost var n, f0, b0 := Width(mode), f[..], buff[..];
      if mode == ECB {
        Store(buff, 0, d(buff[..16]));
      } else if mode == CBC {
        var st := f[..];
        Store(f, 0, buff[..16]);
        assert buff[..16] == b0[..16];
        Store(buff, 0, d(buff[..16]));
        assert buff[..16] == d(b0[..16]) && buff[16..] == b0[16..];
        XorInto(buff, st, 16);
      } else if IsCfb(mode) {
        var bytes := mode - CFB1 + 1;
        fellOff := FallOff(bytes);
        var st := e(f[..]);
        Shift(f, bytes);
        Store(f, 16 - bytes, buff[..bytes]);
        XorInto(buff, st, bytes);
      } else if IsOfb(mode) {
        Store(f, 0, e(f[..]));
        XorInto(buff, f[..], mode - OFB1 + 1);
      }
    }
  }

  /** The register moves down by n bytes; its last n are left as they were. */
  method Shift(f: array<Byte>, n: nat)
    requires f.Length == 16 && 0 < n <= 4
    modifies f
    ensures f[..16 - n] == old(f[n..])
  {
    for j := n to 16
      invariant forall i :: 0 <= i < j - n ==> f[i] == old(f[i + n])
      invariant forall i :: j - n <= i < 16 ==> f[i] == old(f[i])
      modifies f
    {
      f[j - n] := f[j];
    }
  }
}
