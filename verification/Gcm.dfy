/** AES-GCM as a streaming object, against the one-shot definition of NIST SP 800-38D. */
module Gcm {
  import opened Arith
  import opened Bits
  import opened Words
  import opened Gf128
  import opened GcmTable

  // ----- the definition ------------------------------------------------------------------------

  function Xor8(x: Byte, y: Byte): Byte {
    ByteBits(x, y);
    Xor(x, y)
  }

  lemma ByteBits(x: Byte, y: Byte)
    ensures Xor(x, y) < 256
  {
    hide Pow;
    WordSize();
    BitsBound(x, y, 8);
  }

  ghost function XorBlock(a: Block, b: Block): Block { seq(16, i requires 0 <= i < 16 => Xor8(a[i], b[i])) }

  /** Zero bytes up to a whole number of blocks. */
  ghost function Pad16(d: seq<Byte>): (p: seq<Byte>)
    ensures |p| % 16 == 0
  {
    PadSize(|d|);
    d + Zeros((0 - |d|) % 16)
  }

  lemma PadSize(n: int)
    requires n >= 0
    ensures (n + (0 - n) % 16) % 16 == 0
    ensures n % 16 == 0 ==> (0 - n) % 16 == 0
    ensures 0 < n <= 16 ==> (0 - n) % 16 == 16 - n
  {
    var q, r := (0 - n) / 16, (0 - n) % 16;
    DivModUnique(n + r, -q, 0, 16);
  }

  /** Section 6.4: the blocks of s, each xored in and multiplied by h. */
  ghost function Ghash(h: Elem, s: seq<Byte>): Block {
    if |s| < 16 then Zeros(16) else MulBlock(XorBlock(Ghash(h, s[..|s| - 16]), s[|s| - 16..]), h)
  }

  /** A byte count as a 64-bit number of bits. */
  ghost function BitLength(n: nat): (s: seq<Byte>)
    ensures |s| == 8
  {
    Bytes4(8 * n / WORD % WORD) + Bytes4(8 * n % WORD)
  }

  /** Section 6.2: the last 32 bits count modulo 2^32. */
  ghost function Inc(f: Block): Block { f[..12] + Bytes4(Wrap(WordOf(f, 3) + 1)) }

  ghost function IncBy(f: Block, n: nat): Block {
    if n == 0 then f else Inc(IncBy(f, n - 1))
  }

  /** A whole number of blocks. */
  predicate Whole(n: nat) { n % 16 == 0 }

  lemma WholeSum(m: nat, n: nat)
    requires Whole(m)
    ensures Whole(m + n) <==> Whole(n)
  {
    var q, r := n / 16, n % 16;
    DivModUnique(m + n, m / 16 + q, r, 16);
  }

  /** Blocks begun by n bytes. */
  function BlocksIn(n: nat): nat { (n + 15) / 16 }

  type Cipher = Block -> Block

  ghost function HashKey(e: Cipher): Elem { ToElem(e(Zeros(16))) }

  /** Section 7.1, step 2. */
  ghost function InitialCounter(e: Cipher, iv: seq<Byte>): Block {
    if |iv| == 12 then iv + [0, 0, 0, 1] else Ghash(HashKey(e), Pad16(iv) + Zeros(8) + BitLength(|iv|))
  }

  /** Byte k of the key stream. */
  ghost function KeyByte(e: Cipher, j0: Block, k: nat): Byte { e(IncBy(j0, k / 16 + 1))[k % 16] }

  /** Section 6.5: encryption and decryption are the same xor; at is the position in the stream. */
  ghost function Gctr(e: Cipher, j0: Block, at: nat, d: seq<Byte>): (c: seq<Byte>)
    ensures |c| == |d|
  {
    seq(|d|, k requires 0 <= k < |d| => Xor8(d[k], KeyByte(e, j0, at + k)))
  }

  /** Section 7.1, steps 5 and 6. */
  ghost function Tag(e: Cipher, j0: Block, a: seq<Byte>, c: seq<Byte>): Block {
    XorBlock(e(j0), Ghash(HashKey(e), Pad16(a) + Pad16(c) + BitLength(|a|) + BitLength(|c|)))
  }

  // ----- round trip and cutting ----------------------------------------------------------------

  lemma GctrTwice(e: Cipher, j0: Block, at: nat, d: seq<Byte>)
    ensures Gctr(e, j0, at, Gctr(e, j0, at, d)) == d
  {
    forall k | 0 <= k < |d| ensures Xor8(Xor8(d[k], KeyByte(e, j0, at + k)), KeyByte(e, j0, at + k)) == d[k] {
      XorTwice(d[k], KeyByte(e, j0, at + k));
    }
  }

  lemma GctrCut(e: Cipher, j0: Block, at: nat, d: seq<Byte>, d': seq<Byte>)
    ensures Gctr(e, j0, at, d + d') == Gctr(e, j0, at, d) + Gctr(e, j0, at + |d|, d')
  {
    hide KeyByte;
    hide Xor8;
  }

  /** The text is its own encryption if and only if the key stream is zero all along it. */
  lemma GctrSame(e: Cipher, j0: Block, at: nat, d: seq<Byte>)
    ensures Gctr(e, j0, at, d) == d <==> forall i :: at <= i < at + |d| ==> KeyByte(e, j0, i) == 0
  {
    hide KeyByte;
    var g := Gctr(e, j0, at, d);
    forall i | at <= i < at + |d| ensures g[i - at] == d[i - at] <==> KeyByte(e, j0, i) == 0 {
      XorSame(d[i - at], KeyByte(e, j0, i));
    }
    if forall i :: at <= i < at + |d| ==> KeyByte(e, j0, i) == 0 {
      forall k | 0 <= k < |d| ensures g[k] == d[k] { assert KeyByte(e, j0, at + k) == 0; }
    }
  }

  lemma XorSame(x: Byte, y: Byte)
    ensures Xor8(x, y) == x <==> y == 0
  {
    hide Xor;
    XorZero(x);
    XorComm(x, y);
    XorTwice(y, x);
  }

  lemma PadWhole(d: seq<Byte>)
    requires Whole(|d|)
    ensures Pad16(d) == d
  {
    PadSize(|d|);
  }

  /** A last chunk, with zeros after it. */
  ghost function LastBlock(c: seq<Byte>): Block
    requires |c| <= 16
  {
    c + Zeros(16 - |c|)
  }

  lemma PadTail(d: seq<Byte>, c: seq<Byte>)
    requires Whole(|d|) && 0 < |c| <= 16
    ensures Pad16(d + c) == d + LastBlock(c)
  {
    PadSize(|c|);
    PadSize(|d + c|);
    var q, r := |d| / 16, (0 - |c|) % 16;
    assert 0 - |d + c| == 16 * (-q) - |c|;
    DivModUnique(0 - |d + c|, -q + (0 - |c|) / 16, r, 16);
  }

  /** One more chunk hashed. */
  lemma GhashMore(h: Elem, front: seq<Byte>, d: seq<Byte>, c: seq<Byte>)
    requires Whole(|d|) && 0 < |c| <= 16
    ensures Ghash(h, front + Pad16(d + c)) == MulBlock(XorBlock(Ghash(h, front + Pad16(d)), LastBlock(c)), h)
  {
    hide MulBlock;
    hide XorBlock;
    hide Pad16;
    hide LastBlock;
    hide Ghash;
    PadTail(d, c);
    PadWhole(d);
    GhashBlock(h, front + d, LastBlock(c));
    assert front + (d + LastBlock(c)) == front + d + LastBlock(c);
  }

  lemma GhashBlock(h: Elem, s: seq<Byte>, b: Block)
    ensures Ghash(h, s + b) == MulBlock(XorBlock(Ghash(h, s), b), h)
  {
    hide MulBlock;
    hide XorBlock;
    var t := s + b;
    assert t[..|t| - 16] == s && t[|t| - 16..] == b;
  }

  // ----- the counters -------------------------------------------------------------------------

  datatype Count = Count(hi: Word, lo: Word)

  function Tick(c: Count): Count {
    var lo := Wrap(c.lo + 1);
    Count(if lo == 0 then Wrap(c.hi + 1) else c.hi, lo)
  }

  ghost function CountOf(n: nat): Count { Count(n / WORD % WORD, n % WORD) }

  lemma TickCounts(n: nat)
    ensures Tick(CountOf(n)) == CountOf(n + 1)
  {
    var q, r := n / WORD, n % WORD;
    if r == WORD - 1 {
      DivModUnique(n + 1, q + 1, 0, WORD);
    } else {
      DivModUnique(n + 1, q, r + 1, WORD);
    }
  }

  /** MCL_GCM_wrap's conversion from bytes to bits. */
  function BitsHigh(c: Count): Word { Or32(Shl(3, c.hi), Shr(29, And32(c.lo, 0xE000_0000))) }

  lemma BitsOfCount(n: nat)
    ensures BitsHigh(CountOf(n)) == 8 * n / WORD % WORD && Shl(3, CountOf(n).lo) == 8 * n % WORD
  {
    hide Or;
    hide And;
    hide Pow;
    var c := CountOf(n);
    TopBits(c.lo);
    EightTimes(n);
    assert Two(3) == 8 by { EightIsPower(); }
    var a := c.hi * 8 % WORD;
    OrDisjoint(c.hi % 0x2000_0000, c.lo / 0x2000_0000, 3);
  }

  lemma EightIsPower()
    ensures Pow(2, 3) == 8
  {}

  lemma EightTimes(n: nat)
    ensures 8 * n % WORD == n % WORD * 8 % WORD
    ensures 8 * n / WORD % WORD == n / WORD % WORD % 0x2000_0000 * 8 + n % WORD / 0x2000_0000
    ensures n / WORD % WORD * 8 % WORD == n / WORD % WORD % 0x2000_0000 * 8
  {
    var q, lo := n / WORD, n % WORD;
    var t, u := lo / 0x2000_0000, lo % 0x2000_0000;
    DivModUnique(8 * n, 8 * q + t, 8 * u, WORD);
    DivModUnique(8 * lo, t, 8 * u, WORD);
    var k, hi := q / WORD, q % WORD;
    var a, b := hi / 0x2000_0000, hi % 0x2000_0000;
    DivModUnique(8 * q + t, 8 * k + a, 8 * b + t, WORD);
    DivModUnique(8 * hi, a, 8 * b, WORD);
  }

  lemma TopBits(x: Word)
    ensures Shr(29, And32(x, 0xE000_0000)) == x / 0x2000_0000
  {
    hide And;
    hide Pow;
    WordSize();
    PowAdd(2, 29, 3);
    EightIsPower();
    var a, c := x / 0x2000_0000, x % 0x2000_0000;
    AndHigh(a, 7, c, 29);
    AndMask(a, 3);
    SmallMod(a, 8);
  }

  // ----- one block of input ---------------------------------------------------------------------

  /** The inner loop of MCL_GCM_add_header and MCL_GCM_ghash: up to sixteen bytes into stateX. */
  method MixBlock(stateX: array<Byte>, data: seq<Byte>, j0: nat, len0: Count, ghost n: nat) returns (j: nat, len: Count)
    requires stateX.Length == 16 && j0 < |data| && len0 == CountOf(n)
    modifies stateX
    ensures j0 < j <= |data| && (j == |data| || j == j0 + 16) && j - j0 <= 16
    ensures len == CountOf(n + j - j0)
    ensures stateX[..] == XorBlock(old(stateX[..]), LastBlock(data[j0..j]))
  {
    hide CountOf;
    hide Xor8;
    hide Tick;
    var i := 0;
    j, len := j0, len0;
    ghost var x := stateX[..];
    while i < 16 && j < |data|
      invariant 0 <= i <= 16 && j == j0 + i <= |data| && len == CountOf(n + i)
      invariant forall k :: 0 <= k < i ==> stateX[k] == Xor8(x[k], data[j0 + k])
      invariant forall k :: i <= k < 16 ==> stateX[k] == x[k]
      modifies stateX
    {
      stateX[i] := Xor8(stateX[i], data[j]);
      j := j + 1;
      TickCounts(n + i);
      len := Tick(len);
      i := i + 1;
    }
    Mixed(x, stateX[..], data[j0..j]);
  }

  lemma Mixed(x: Block, y: Block, c: seq<Byte>)
    requires 0 < |c| <= 16
    requires forall k :: 0 <= k < |c| ==> y[k] == Xor8(x[k], c[k])
    requires forall k :: |c| <= k < 16 ==> y[k] == x[k]
    ensures y == XorBlock(x, LastBlock(c))
  {
    forall k | 0 <= k < 16 ensures y[k] == XorBlock(x, LastBlock(c))[k] {
      XorZero(x[k]);
    }
  }

  /**
   * The inner loop of MCL_GCM_add_plain and MCL_GCM_add_cipher: dst = src xor b, and one of the two into
   * stateX. add_plain absorbs what it wrote; add_cipher absorbs its source, read after the write.
   */
  method CryptBlock(dst: array<Byte>, src: array<Byte>, j0: nat, end: nat, b: Block, stateX: array<Byte>,
                    absorbSource: bool, len0: Count, ghost n: nat) returns (j: nat, len: Count)
    requires stateX.Length == 16 && stateX != dst && stateX != src && j0 < end <= dst.Length && end <= src.Length
    requires len0 == CountOf(n)
    modifies dst, stateX
    ensures j0 < j <= end && (j == end || j == j0 + 16) && j - j0 <= 16
    ensures len == CountOf(n + j - j0)
    ensures forall k :: j0 <= k < j ==> dst[k] == Xor8(old(src[k]), b[k - j0])
    ensures forall k :: 0 <= k < dst.Length && !(j0 <= k < j) ==> dst[k] == old(dst[k])
    ensures var c := if absorbSource && src != dst then old(src[..])[j0..j] else dst[j0..j];
      stateX[..] == XorBlock(old(stateX[..]), LastBlock(c))
  {
    hide CountOf;
    hide Xor8;
    hide Tick;
    var i := 0;
    j, len := j0, len0;
    ghost var x, s := stateX[..], src[..];
    while i < 16 && j < end
      invariant 0 <= i <= 16 && j == j0 + i <= end && len == CountOf(n + i)
      invariant forall k :: j0 <= k < j ==> dst[k] == Xor8(s[k], b[k - j0])
      invariant forall k :: 0 <= k < dst.Length && !(j0 <= k < j) ==> dst[k] == old(dst[k])
      invariant forall k :: 0 <= k < i ==> stateX[k] == Xor8(x[k], if absorbSource && src != dst then s[j0 + k] else dst[j0 + k])
      invariant forall k :: i <= k < 16 ==> stateX[k] == x[k]
      modifies dst, stateX
    {
      dst[j] := Xor8(src[j], b[i]);
      stateX[i] := Xor8(stateX[i], if absorbSource then src[j] else dst[j]);
      j := j + 1;
      TickCounts(n + i);
      len := Tick(len);
      i := i + 1;
    }
    Mixed(x, stateX[..], if absorbSource && src != dst then s[j0..j] else dst[j0..j]);
  }
}
