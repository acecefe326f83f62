/** 32-bit words and bytes, with the C operators on unsigned words. */
module Words {
  import opened Arith
  import opened Bits

  const WORD: int := 0x1_0000_0000

  type Word = x: int | 0 <= x < 0x1_0000_0000

  type Byte = x: int | 0 <= x < 256

  function Xor32(x: Word, y: Word): Word {
    WordBits(x, y);
    Xor(x, y)
  }

  function And32(x: Word, y: Word): Word {
    WordBits(x, y);
    And(x, y)
  }

  function Or32(x: Word, y: Word): Word {
    WordBits(x, y);
    Or(x, y)
  }

  function Not32(x: Word): Word { WORD - 1 - x }

  function Wrap(x: nat): Word { x % WORD }

  lemma WrapTwice(x: nat, y: nat)
    ensures Wrap(Wrap(x) + y) == Wrap(x + y)
  {
    DivModUnique(x % WORD + y, (x + y) / WORD - x / WORD, (x + y) % WORD, WORD);
  }

  lemma WordBits(x: Word, y: Word)
    ensures Xor(x, y) < WORD && And(x, y) < WORD && Or(x, y) < WORD
  {
    WordSize();
    BitsBound(x, y, 32);
  }

  lemma WordSize()
    ensures Pow(2, 8) == 0x100 && Pow(2, 16) == 0x1_0000 && Pow(2, 24) == 0x100_0000 && Pow(2, 32) == WORD
  {
    assert Pow(2, 8) == 0x100;
    PowAdd(2, 8, 8);
    PowAdd(2, 16, 8);
    PowAdd(2, 16, 16);
  }

  /** x >> n. */
  function Shr(n: nat, x: Word): Word
    requires n < 32
  {
    DivRange(x, Two(n));
    x / Two(n)
  }

  lemma DivRange(x: int, p: int)
    requires x >= 0 && p > 0
    ensures 0 <= x / p <= x
  {
    var q := x / p;
    assert x == q * p + x % p;
    if q < 0 { MulMono(q, -1, p); }
    MulMono(1, p, if q < 0 then 0 else q);
    assert 1 * q == q && p * q == q * p;
  }

  /** x << n, bits beyond 32 dropped. */
  function Shl(n: nat, x: Word): Word
    requires n < 32
  {
    MulMono(0, x, Two(n));
    Wrap(x * Two(n))
  }

  /** w <<= 8; w |= b. */
  function ShiftIn(w: Word, b: Byte): Word { Or32(Shl(8, w), b) }

  lemma ShiftInValue(w: Word, b: Byte)
    ensures ShiftIn(w, b) == w % 0x100_0000 * 256 + b
  {
    hide Pow;
    hide Or;
    WordSize();
    OrDisjoint(w % 0x100_0000, b, 8);
  }

  /** Four bytes as a word, most significant first. */
  function BigEndian(a: Byte, b: Byte, c: Byte, d: Byte): Word { Append(Append(Append(a, b), c), d) }

  function Append(x: int, b: int): int { x * 256 + b }

  /** Bytes as a number, least significant first. */
  function LittleEndian(s: seq<Byte>): int {
    if |s| == 0 then 0 else s[0] + 256 * LittleEndian(s[1..])
  }

  lemma FourBytes(s: seq<Byte>)
    requires |s| == 4
    ensures LittleEndian(s) == BigEndian(s[3], s[2], s[1], s[0])
  {
    var t := s[1..];
    var u := t[1..];
    var v := u[1..];
    assert v[1..] == [];
    assert LittleEndian(v) == v[0];
    assert LittleEndian(u) == u[0] + 256 * LittleEndian(v);
    assert LittleEndian(t) == t[0] + 256 * LittleEndian(u);
  }

  /** A little-endian field. */
  function Le32(hdr: seq<Byte>, at: nat): Word
    requires at + 4 <= |hdr|
  {
    FourBytes(hdr[at..at + 4]);
    LittleEndian(hdr[at..at + 4])
  }

  lemma Le32Value(hdr: seq<Byte>, at: nat)
    requires at + 4 <= |hdr|
    ensures Le32(hdr, at) == BigEndian(hdr[at + 3], hdr[at + 2], hdr[at + 1], hdr[at])
  {
    FourBytes(hdr[at..at + 4]);
  }

  lemma Le32Copied(a: seq<Byte>, b: seq<Byte>, at: nat)
    requires at + 4 <= |a| && at + 4 <= |b| && forall k :: at <= k < at + 4 ==> a[k] == b[k]
    ensures Le32(a, at) == Le32(b, at)
  {
    assert a[at..at + 4] == b[at..at + 4];
  }

  lemma SplitWord(x: nat)
    ensures BigEndian(x / 0x100_0000 % 256, x / 0x1_0000 % 256, x / 0x100 % 256, x % 256) == x % WORD
  {
    var y := x / 256;
    var z := y / 256;
    var u := z / 256;
    assert y == x / 0x100 && z == x / 0x1_0000 && u == x / 0x100_0000;
    var q := u / 256;
    DivModUnique(x, q, Append(Append(Append(u % 256, z % 256), y % 256), x % 256), WORD);
  }

  ghost function Zeros(n: nat): (z: seq<Byte>)
    ensures |z| == n
  {
    seq(n, _ => 0)
  }

  /** The concatenation of pieces. */
  ghost function Flatten(pieces: seq<seq<Byte>>): seq<Byte> {
    if |pieces| == 0 then [] else Flatten(pieces[..|pieces| - 1]) + pieces[|pieces| - 1]
  }
}
