/**
 * SHA-256: the standard's definition (pad, split into blocks, compress) and the byte-at-a-time
 * implementation, which keeps a half-built word on top of stale schedule words and counts bits in two
 * wrapping 32-bit words.
 */
module Sha256 {
  import opened Arith
  import opened Bits
  import opened Words

  const K: seq<Word> := [
    0x428a2f98, 0x71374491, 0xb5c0fbcf, 0xe9b5dba5, 0x3956c25b, 0x59f111f1, 0x923f82a4, 0xab1c5ed5,
    0xd807aa98, 0x12835b01, 0x243185be, 0x550c7dc3, 0x72be5d74, 0x80deb1fe, 0x9bdc06a7, 0xc19bf174,
    0xe49b69c1, 0xefbe4786, 0x0fc19dc6, 0x240ca1cc, 0x2de92c6f, 0x4a7484aa, 0x5cb0a9dc, 0x76f988da,
    0x983e5152, 0xa831c66d, 0xb00327c8, 0xbf597fc7, 0xc6e00bf3, 0xd5a79147, 0x06ca6351, 0x14292967,
    0x27b70a85, 0x2e1b2138, 0x4d2c6dfc, 0x53380d13, 0x650a7354, 0x766a0abb, 0x81c2c92e, 0x92722c85,
    0xa2bfe8a1, 0xa81a664b, 0xc24b8b70, 0xc76c51a3, 0xd192e819, 0xd6990624, 0xf40e3585, 0x106aa070,
    0x19a4c116, 0x1e376c08, 0x2748774c, 0x34b0bcb5, 0x391c0cb3, 0x4ed8aa4a, 0x5b9cca4f, 0x682e6ff3,
    0x748f82ee, 0x78a5636f, 0x84c87814, 0x8cc70208, 0x90befffa, 0xa4506ceb, 0xbef9a3f7, 0xc67178f2]

  function RoundConstant(t: nat): Word
    requires t < 64
  {
    K[t]
  }

  const IV: seq<Word> :=
    [0x6A09E667, 0xBB67AE85, 0x3C6EF372, 0xA54FF53A, 0x510E527F, 0x9B05688C, 0x1F83D9AB, 0x5BE0CD19]

  // ----- the functions of section 4.1.2 of FIPS 180-4 --------------------------------------

  /** Circular right shift: the low n bits move to the top. */
  function Rotr(n: nat, x: Word): (r: Word)
    requires 0 < n < 32
  {
    RotrRange(n, x);
    x / Two(n) + (x % Two(n)) * Two(32 - n)
  }

  lemma RotrRange(n: nat, x: Word)
    requires 0 < n < 32
    ensures 0 <= x / Two(n) < Two(32 - n) && 0 <= x % Two(n) < Two(n) && Two(n) * Two(32 - n) == WORD
    ensures 0 <= x / Two(n) + (x % Two(n)) * Two(32 - n) < WORD
  {
    hide Pow;
    WordSize();
    PowAdd(2, n, 32 - n);
    RotrBound(x, Two(n), Two(32 - n), x / Two(n), x % Two(n));
  }

  lemma RotrBound(x: int, p: int, q: int, hi: int, lo: int)
    requires p > 0 && q > 0 && p * q == WORD && 0 <= x < WORD && x == hi * p + lo && 0 <= lo < p
    ensures 0 <= hi < q && 0 <= hi + lo * q < WORD
  {
    assert q * p == p * q;
    if hi >= q { MulMono(q, hi, p); }
    if hi < 0 { MulMono(hi, -1, p); }
    MulMono(lo, p - 1, q);
    MulMono(0, lo, q);
    assert (p - 1) * q == p * q - q;
  }

  function Ch(x: Word, y: Word, z: Word): Word { Xor32(And32(x, y), And32(Not32(x), z)) }
  function Maj(x: Word, y: Word, z: Word): Word { Xor32(Xor32(And32(x, y), And32(x, z)), And32(y, z)) }
  function BigSigma0(x: Word): Word { Xor32(Xor32(Rotr(2, x), Rotr(13, x)), Rotr(22, x)) }
  function BigSigma1(x: Word): Word { Xor32(Xor32(Rotr(6, x), Rotr(11, x)), Rotr(25, x)) }
  function SmallSigma0(x: Word): Word { Xor32(Xor32(Rotr(7, x), Rotr(18, x)), Shr(3, x)) }
  function SmallSigma1(x: Word): Word { Xor32(Xor32(Rotr(17, x), Rotr(19, x)), Shr(10, x)) }

  // ----- section 6.2.2 of FIPS 180-4 ----------------------------------------------------------

  /** Word t of the message schedule of a 16-word block. */
  ghost function Schedule(m: seq<Word>, t: nat): Word
    requires |m| == 16
  {
    if t < 16 then m[t] else
    Wrap(SmallSigma1(Schedule(m, t - 2)) + Schedule(m, t - 7) + SmallSigma0(Schedule(m, t - 15)) + Schedule(m, t - 16))
  }

  datatype Vars = Vars(a: Word, b: Word, c: Word, d: Word, e: Word, f: Word, g: Word, h: Word)

  ghost function Round(v: Vars, k: Word, w: Word): Vars {
    var t1 := Wrap(v.h + BigSigma1(v.e) + Ch(v.e, v.f, v.g) + k + w);
    var t2 := Wrap(BigSigma0(v.a) + Maj(v.a, v.b, v.c));
    Vars(Wrap(t1 + t2), v.a, v.b, v.c, Wrap(v.d + t1), v.e, v.f, v.g)
  }

  ghost function Rounds(v: Vars, m: seq<Word>, t: nat): Vars
    requires |m| == 16 && t <= 64
  {
    if t == 0 then v else Round(Rounds(v, m, t - 1), RoundConstant(t - 1), Schedule(m, t - 1))
  }

  ghost function VarsOf(h: seq<Word>): Vars
    requires |h| == 8
  {
    Vars(h[0], h[1], h[2], h[3], h[4], h[5], h[6], h[7])
  }

  ghost function Compress(h: seq<Word>, m: seq<Word>): (r: seq<Word>)
    requires |h| == 8 && |m| == 16
    ensures |r| == 8
  {
    var v := Rounds(VarsOf(h), m, 64);
    [Wrap(h[0] + v.a), Wrap(h[1] + v.b), Wrap(h[2] + v.c), Wrap(h[3] + v.d),
     Wrap(h[4] + v.e), Wrap(h[5] + v.f), Wrap(h[6] + v.g), Wrap(h[7] + v.h)]
  }

  ghost function WordAt(s: seq<Byte>, i: nat): Word
    requires 4 * i + 4 <= |s|
  {
    BigEndian(s[4 * i], s[4 * i + 1], s[4 * i + 2], s[4 * i + 3])
  }

  ghost function BlockWords(s: seq<Byte>): (m: seq<Word>)
    requires |s| == 64
    ensures |m| == 16 && forall i :: 0 <= i < 16 ==> m[i] == WordAt(s, i)
  {
    seq(16, i requires 0 <= i < 16 => WordAt(s, i))
  }

  /** The chaining value after the blocks of p. */
  ghost function Chain(p: seq<Byte>): (h: seq<Word>)
    requires |p| % 64 == 0
    ensures |h| == 8
  {
    if |p| == 0 then IV else Compress(Chain(p[..|p| - 64]), BlockWords(p[|p| - 64..]))
  }

  /** The eight bytes of a 64-bit length. */
  ghost function LengthBytes(bits: nat): (s: seq<Byte>)
    ensures |s| == 8
  {
    var b := bits % 0x1_0000_0000_0000_0000;
    [b / 0x100_0000_0000_0000 % 256, b / 0x1_0000_0000_0000 % 256, b / 0x100_0000_0000 % 256, b / 0x1_0000_0000 % 256,
     b / 0x100_0000 % 256, b / 0x1_0000 % 256, b / 0x100 % 256, b % 256]
  }

  /** Section 5.1.1: a one bit, the fewest zeros that leave room for the length, and the length in bits. */
  ghost function Padded(m: seq<Byte>): (p: seq<Byte>)
    ensures |p| % 64 == 0
  {
    PadLength(|m|);
    m + [0x80] + Zeros((55 - |m|) % 64) + LengthBytes(8 * |m|)
  }

  lemma PadLength(n: nat)
    ensures (n + 1 + (55 - n) % 64) % 64 == 56 && (n + 1 + (55 - n) % 64 + 8) % 64 == 0
  {
    var q, z := (55 - n) / 64, (55 - n) % 64;
    assert n + 1 + z == (-q) * 64 + 56;
    DivModUnique(n + 1 + z, -q, 56, 64);
    DivModUnique(n + 1 + z + 8, 1 - q, 0, 64);
  }

  ghost function BytesOf(h: seq<Word>): (d: seq<Byte>)
    requires |h| == 8
    ensures |d| == 32
  {
    seq(32, i requires 0 <= i < 32 =>
      if i % 4 == 0 then h[i / 4] / 0x100_0000 % 256 else if i % 4 == 1 then h[i / 4] / 0x1_0000 % 256
      else if i % 4 == 2 then h[i / 4] / 0x100 % 256 else h[i / 4] % 256)
  }

  ghost function Digest(m: seq<Byte>): (d: seq<Byte>)
    ensures |d| == 32
  {
    BytesOf(Chain(Padded(m)))
  }

  // ----- the word macros of the implementation ------------------------------------------------

  /** S(n,x): two shifts and an or. */
  function S(n: nat, x: Word): Word
    requires 0 < n < 32
  {
    Or32(Shr(n, x), Shl(32 - n, x))
  }

  lemma RotateMacro(n: nat, x: Word)
    requires 0 < n < 32
    ensures S(n, x) == Rotr(n, x)
  {
    hide Pow;
    hide Or;
    var p, q := Two(n), Two(32 - n);
    var hi, lo := x / p, x % p;
    RotrRange(n, x);
    assert x == hi * p + lo;
    MulMono(0, lo, q);
    ShiftedOut(x, hi, lo, p, q);
    OrComm(hi, lo * q);
    OrDisjoint(lo, hi, 32 - n);
  }

  lemma ShiftedOut(x: int, hi: int, lo: int, p: int, q: int)
    requires p > 0 && q > 0 && p * q == WORD && x == hi * p + lo && 0 <= lo < p
    ensures (x * q) % WORD == lo * q
  {
    MulMono(lo, p - 1, q);
    MulMono(0, lo, q);
    assert (p - 1) * q == p * q - q;
    assert x * q == hi * (p * q) + lo * q;
    DivModUnique(x * q, hi, lo * q, WORD);
  }

  function Sig0(x: Word): Word { Xor32(Xor32(S(2, x), S(13, x)), S(22, x)) }
  function Sig1(x: Word): Word { Xor32(Xor32(S(6, x), S(11, x)), S(25, x)) }
  function Theta0(x: Word): Word { Xor32(Xor32(S(7, x), S(18, x)), Shr(3, x)) }
  function Theta1(x: Word): Word { Xor32(Xor32(S(17, x), S(19, x)), Shr(10, x)) }

  lemma Macros(x: Word)
    ensures Sig0(x) == BigSigma0(x) && Sig1(x) == BigSigma1(x)
    ensures Theta0(x) == SmallSigma0(x) && Theta1(x) == SmallSigma1(x)
  {
    hide S;
    hide Rotr;
    hide Xor32;
    hide Shr;
    RotateMacro(2, x); RotateMacro(13, x); RotateMacro(22, x);
    RotateMacro(6, x); RotateMacro(11, x); RotateMacro(25, x);
    RotateMacro(7, x); RotateMacro(18, x);
    RotateMacro(17, x); RotateMacro(19, x);
  }

  // ----- what the buffer w holds between calls --------------------------------------------------

  /** The low bytes of a word are the bytes of s; what is above them is left over from the last block. */
  ghost predicate Partial(w: Word, s: seq<Byte>)
    requires |s| < 4
  {
    (|s| == 1 ==> w % 0x100 == s[0]) &&
    (|s| == 2 ==> w % 0x1_0000 == Append(s[0], s[1])) &&
    (|s| == 3 ==> w % 0x100_0000 == Append(Append(s[0], s[1]), s[2]))
  }

  ghost predicate Holds(w: seq<Word>, s: seq<Byte>)
    requires |w| >= 16 && |s| <= 64
  {
    (forall i :: 0 <= i < |s| / 4 ==> w[i] == WordAt(s, i)) &&
    (|s| < 64 ==> Partial(w[|s| / 4], s[4 * (|s| / 4)..]))
  }

  lemma PartialStep(w: Word, s: seq<Byte>, b: Byte)
    requires |s| < 4 && Partial(w, s)
    ensures |s| < 3 ==> Partial(ShiftIn(w, b), s + [b])
    ensures |s| == 3 ==> ShiftIn(w, b) == BigEndian(s[0], s[1], s[2], b)
  {
    hide ShiftIn;
    ShiftInValue(w, b);
    AppendMod(w, b);
  }

  lemma AppendMod(w: int, b: Byte)
    requires w >= 0
    ensures var v := w % 0x100_0000 * 256 + b;
      v % 0x100 == b && v % 0x1_0000 == Append(w % 0x100, b) && v % 0x100_0000 == Append(w % 0x1_0000, b)
  {
    var x := w % 0x100_0000;
    var v := x * 256 + b;
    ModMod(w, 0x100, 0x1_0000);
    ModMod(w, 0x1_0000, 0x100);
    DivModUnique(v, x, b, 0x100);
    AppendTo(x, b, 0x100);
    AppendTo(x, b, 0x1_0000);
  }

  lemma AppendTo(x: int, b: Byte, p: int)
    requires p > 0
    ensures (x * 256 + b) % (p * 256) == x % p * 256 + b
  {
    var q, r := x / p, x % p;
    assert x == q * p + r;
    assert q * (p * 256) == q * p * 256;
    DivModUnique(x * 256 + b, q, r * 256 + b, p * 256);
  }

  lemma ModMod(w: int, p: int, k: int)
    requires p > 0 && k > 0
    ensures p * k > 0 && w % (p * k) % p == w % p
  {
    MulMono(1, k, p);
    assert p * k == k * p;
    var q, r := w / (p * k), w % (p * k);
    assert w == q * (p * k) + r;
    var a, c := r / p, r % p;
    assert r == a * p + c;
    assert q * (p * k) == q * k * p;
    assert (q * k + a) * p == q * k * p + a * p;
    DivModUnique(w, q * k + a, c, p);
  }

  lemma HoldsStep(w: seq<Word>, s: seq<Byte>, b: Byte)
    requires |w| >= 16 && |s| < 64 && Holds(w, s)
    ensures Holds(w[|s| / 4 := ShiftIn(w[|s| / 4], b)], s + [b])
  {
    hide ShiftIn;
    hide Partial;
    var c := |s| / 4;
    var t, s', w' := s[4 * c..], s + [b], w[c := ShiftIn(w[c], b)];
    PartialStep(w[c], t, b);
    forall i | 0 <= i < |s'| / 4 ensures w'[i] == WordAt(s', i) {
      if i < c { assert WordAt(s', i) == WordAt(s, i); }
    }
    if |s| % 4 < 3 {
      assert s'[4 * c..] == t + [b];
    } else if |s'| < 64 {
      assert s'[4 * (|s'| / 4)..] == [];
      PartialNone(w'[c + 1]);
    }
  }

  lemma PartialNone(w: Word)
    ensures Partial(w, [])
  {}

  /** How the two length words count: 8 more bits, with a carry out of the low word. */
  lemma LengthStep(n: nat)
    ensures var l0, l1 := 8 * n % WORD, 8 * n / WORD % WORD;
      var l0' := (l0 + 8) % WORD;
      var l1' := if l0' == 0 then (l1 + 1) % WORD else l1;
      l0' == 8 * (n + 1) % WORD && l1' == 8 * (n + 1) / WORD % WORD
  {
    var x := 8 * n;
    assert x % WORD % 8 == 0;
    if x % WORD + 8 == WORD {
      assert (x + 8) / WORD == x / WORD + 1;
    } else {
      assert (x + 8) / WORD == x / WORD;
    }
  }

  /** The position within the block, read off the low length word. */
  lemma Position(n: nat)
    ensures var l0 := 8 * n % WORD;
      l0 / 32 % 16 == n % 64 / 4 && (l0 % 512) == 8 * (n % 64)
  {
    var a, r, q := n / 64, n % 64, 8 * n / WORD;
    var l0, c := 8 * n % WORD, a - q * 0x80_0000;
    assert l0 == 512 * c + 8 * r;
    DivModUnique(l0, c, 8 * r, 512);
    DivModUnique(l0, 16 * c + r / 4, 8 * (r % 4), 32);
    DivModUnique(16 * c + r / 4, c, r / 4, 16);
  }
}
