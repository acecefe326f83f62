/** GCM's table-driven field multiplication on sixteen-byte blocks. */
module GcmTable {
  import opened Arith
  import opened Bits
  import opened Words
  import opened Gf128

  type Block = s: seq<Byte> | |s| == 16 witness [0, 0, 0, 0, 0, 0, 0, 0, 0, 0, 0, 0, 0, 0, 0, 0]

  // ----- words, blocks and field elements ----------------------------------------------------

  function FromWords(a: Word, b: Word, c: Word, d: Word): Elem { ((a * WORD + b) * WORD + c) * WORD + d }

  function WordOf(s: seq<Byte>, i: nat): Word
    requires 4 * i + 4 <= |s|
  {
    BigEndian(s[4 * i], s[4 * i + 1], s[4 * i + 2], s[4 * i + 3])
  }

  /** A block as a 128-bit string. */
  function ToElem(s: Block): Elem { FromWords(WordOf(s, 0), WordOf(s, 1), WordOf(s, 2), WordOf(s, 3)) }

  function Bytes4(w: Word): (s: seq<Byte>)
    ensures |s| == 4
  {
    [w / 0x100_0000, w / 0x1_0000 % 256, w / 0x100 % 256, w % 256]
  }

  function FromElem(x: Elem): (s: Block) {
    Bytes4(x / (WORD * WORD * WORD)) + Bytes4(x / (WORD * WORD) % WORD) + Bytes4(x / WORD % WORD) + Bytes4(x % WORD)
  }

  function MulBlock(s: Block, h: Elem): Block { FromElem(Mul(ToElem(s), h)) }

  /** pack. */
  function Pack(a: Byte, b: Byte, c: Byte, d: Byte): Word { Or32(Or32(Or32(Shl(24, a), Shl(16, b)), Shl(8, c)), d) }

  lemma PackValue(a: Byte, b: Byte, c: Byte, d: Byte)
    ensures Pack(a, b, c, d) == BigEndian(a, b, c, d)
  {
    hide Pow;
    hide Or;
    WordSize();
    OrDisjoint(a, b * 0x1_0000, 24);
    OrDisjoint(a * 256 + b, c * 0x100, 16);
    OrDisjoint((a * 256 + b) * 256 + c, d, 8);
  }

  lemma FromWordsOf(a: Word, b: Word, c: Word, d: Word)
    ensures FromElem(FromWords(a, b, c, d)) == Bytes4(a) + Bytes4(b) + Bytes4(c) + Bytes4(d)
  {
    hide Bytes4;
    var x := FromWords(a, b, c, d);
    var y := (a * WORD + b) * WORD + c;
    DivModUnique(x, y, d, WORD);
    DivModUnique(y, a * WORD + b, c, WORD);
    DivModUnique(a * WORD + b, a, b, WORD);
    DivTwice(x, WORD, WORD);
    DivTwice(x, WORD * WORD, WORD);
  }

  lemma {:induction false} XorWords(a: Word, b: Word, c: Word, d: Word, e: Word, f: Word, g: Word, h: Word)
    ensures FromWords(Xor32(a, e), Xor32(b, f), Xor32(c, g), Xor32(d, h)) == Xor128(FromWords(a, b, c, d), FromWords(e, f, g, h))
  {
    hide Xor;
    hide Pow;
    WordSize();
    XorConcat(a, e, b, f, 32);
    XorConcat(a * WORD + b, e * WORD + f, c, g, 32);
    XorConcat((a * WORD + b) * WORD + c, (e * WORD + f) * WORD + g, d, h, 32);
  }

  // ----- precompute --------------------------------------------------------------------------

  /** x^i * h. */
  ghost function PowerOfX(h: Elem, i: nat): Elem {
    if i == 0 then h else TimesX(PowerOfX(h, i - 1))
  }

  ghost function Row(table: array2<Word>, i: nat): Elem
    requires table.Length0 == 128 && table.Length1 == 4 && i < 128
    reads table
  {
    FromWords(table[i, 0], table[i, 1], table[i, 2], table[i, 3])
  }

  /** Shifting four words one bit to the right, the bit that leaves one word entering the next. */
  lemma ShiftedRow(a: Word, b: Word, c: Word, d: Word)
    ensures var x := FromWords(Or32(0, Shr(1, a)), Or32(Shl(31, a), Shr(1, b)), Or32(Shl(31, b), Shr(1, c)), Or32(Shl(31, c), Shr(1, d)));
      x == FromWords(a, b, c, d) / 2 && (Shl(31, d) != 0 <==> FromWords(a, b, c, d) % 2 == 1)
  {
    hide Or32;
    ShiftedWord(0, a);
    ShiftedWord(a, b);
    ShiftedWord(b, c);
    ShiftedWord(c, d);
    ShiftedWord(d, 0);
    assert Shl(31, 0) == 0;
  }

  lemma ShiftedWord(a: Word, b: Word)
    ensures Or32(Shl(31, a), Shr(1, b)) == a % 2 * 0x8000_0000 + b / 2 && Shl(31, a) == a % 2 * 0x8000_0000
  {
    hide Or;
    hide Pow;
    WordSize();
    PowAdd(2, 1, 31);
    PowOne(2);
    DivModUnique(a * 0x8000_0000, a / 2, a % 2 * 0x8000_0000, WORD);
    OrDisjoint(a % 2, b / 2, 31);
  }

  lemma FoldR(a: Word, b: Word, c: Word, d: Word)
    ensures FromWords(Xor32(a, 0xE100_0000), b, c, d) == Xor128(FromWords(a, b, c, d), R)
  {
    XorZero(b);
    XorZero(c);
    XorZero(d);
    XorWords(a, b, c, d, 0xE100_0000, 0, 0, 0);
  }

  ghost predicate TableFor(table: array2<Word>, h: Elem)
    reads table
  {
    table.Length0 == 128 && table.Length1 == 4 && forall i :: 0 <= i < 128 ==> Row(table, i) == PowerOfX(h, i)
  }

  /** precompute: row i is x^i * h. */
  method Precompute(table: array2<Word>, hb: Block)
    requires table.Length0 == 128 && table.Length1 == 4
    modifies table
    ensures TableFor(table, ToElem(hb))
  {
    hide PowerOfX;
    hide FromWords;
    hide Pack;
    ghost var h := ToElem(hb);
    for i := 0 to 4
      invariant forall k :: 0 <= k < i ==> table[0, k] == WordOf(hb, k)
      modifies table
    {
      PackValue(hb[4 * i], hb[4 * i + 1], hb[4 * i + 2], hb[4 * i + 3]);
      table[0, i] := Pack(hb[4 * i], hb[4 * i + 1], hb[4 * i + 2], hb[4 * i + 3]);
    }
    FirstPower(h);
    for i := 1 to 128
      invariant forall k :: 0 <= k < i ==> Row(table, k) == PowerOfX(h, k)
      modifies table
    {
      NextRow(table, i);
      NextPower(h, i);
    }
  }

  lemma FirstPower(h: Elem)
    ensures PowerOfX(h, 0) == h
  {}

  lemma NextPower(h: Elem, i: nat)
    requires i > 0
    ensures PowerOfX(h, i) == TimesX(PowerOfX(h, i - 1))
  {}

  /** One pass of precompute's loop. */
  method NextRow(table: array2<Word>, i: nat)
    requires table.Length0 == 128 && table.Length1 == 4 && 0 < i < 128
    modifies table
    ensures Row(table, i) == TimesX(Row(table, i - 1))
    ensures forall k :: 0 <= k < 128 && k != i ==> Row(table, k) == old(Row(table, k))
  {
    hide FromWords;
    hide Or32;
    hide Shl;
    hide Shr;
    hide Xor32;
    hide Xor128;
    var b: Word := 0;
    ghost var last := [table[i - 1, 0], table[i - 1, 1], table[i - 1, 2], table[i - 1, 3]];
    for j := 0 to 4
      invariant b == if j == 0 then 0 else Shl(31, last[j - 1])
      invariant j > 0 ==> table[i, 0] == Or32(0, Shr(1, last[0]))
      invariant j > 1 ==> table[i, 1] == Or32(Shl(31, last[0]), Shr(1, last[1]))
      invariant j > 2 ==> table[i, 2] == Or32(Shl(31, last[1]), Shr(1, last[2]))
      invariant j > 3 ==> table[i, 3] == Or32(Shl(31, last[2]), Shr(1, last[3]))
      invariant last == [table[i - 1, 0], table[i - 1, 1], table[i - 1, 2], table[i - 1, 3]]
      invariant forall k, l :: 0 <= k < 128 && 0 <= l < 4 && k != i ==> table[k, l] == old(table[k, l])
      modifies table
    {
      table[i, j] := Or32(b, Shr(1, table[i - 1, j]));
      b := Shl(31, table[i - 1, j]);
    }
    ShiftedRow(last[0], last[1], last[2], last[3]);
    if b != 0 {
      FoldR(table[i, 0], table[i, 1], table[i, 2], table[i, 3]);
      table[i, 0] := Xor32(table[i, 0], 0xE100_0000);
    }
  }

  // ----- gf2mul --------------------------------------------------------------------------------

  /** A bit of x inside the bit string hi, x, lo. */
  lemma PickBit(hi: nat, x: nat, lo: nat, p: nat, q: nat, e: nat, s: nat)
    requires e < s && p == Two(s) && x < p && lo < q
    ensures 0 <= (hi * p + x) * q + lo && q * Two(e) > 0
    ensures ((hi * p + x) * q + lo) / (q * Two(e)) % 2 == x / Two(e) % 2
  {
    hide Pow;
    MulMono(0, hi, p);
    MulMono(0, hi * p + x, q);
    MulMono(1, q, Two(e));
    var y := hi * p + x;
    DivModUnique(y * q + lo, y, lo, q);
    DivTwice(y * q + lo, q, Two(e));
    PowAdd(2, e, s - e);
    PowSucc(2, s - e - 1);
    HighBits(hi, x, Two(e), Two(s - e), Two(s - e - 1));
  }

  /** Bit i of a block is bit 7 - i%8 of byte i/8. */
  lemma BlockBit(s: Block, i: nat)
    requires i < 128
    ensures BitOf(ToElem(s), i) == Bit(s[i / 8], 7 - i % 8)
  {
    hide Pow;
    hide FromWords;
    hide Bit;
    WordSize();
    var a, c := i / 32, i % 32;
    var e, f := c / 8, c % 8;
    ElemBit(WordOf(s, 0), WordOf(s, 1), WordOf(s, 2), WordOf(s, 3), a, c);
    var b0, b1, b2, b3 := s[4 * a], s[4 * a + 1], s[4 * a + 2], s[4 * a + 3];
    Indices(i);
    NoBits();
    WordPlaces(b0, b1, b2, b3);
    hide BigEndian;
    hide Append;
    match e
    case 0 => PlaceBit(WordOf(s, a), 0, b0, Append(Append(b1, b2), b3), 0x100_0000, 0, f);
    case 1 => PlaceBit(WordOf(s, a), b0, b1, Append(b2, b3), 0x1_0000, 1, f);
    case 2 => PlaceBit(WordOf(s, a), Append(b0, b1), b2, b3, 0x100, 2, f);
    case _ => PlaceBit(WordOf(s, a), Append(Append(b0, b1), b2), b3, 0, 1, 3, f);
  }

  lemma Indices(i: nat)
    ensures i / 8 == 4 * (i / 32) + i % 32 / 8 && i % 8 == i % 32 % 8 && i % 32 == 8 * (i % 32 / 8) + i % 32 % 8
  {}

  /** A word, cut around each of its bytes. */
  lemma WordPlaces(b0: Byte, b1: Byte, b2: Byte, b3: Byte)
    ensures var w := BigEndian(b0, b1, b2, b3);
      w == (0 * 256 + b0) * 0x100_0000 + Append(Append(b1, b2), b3) && 0 <= Append(Append(b1, b2), b3) < 0x100_0000 &&
      w == (b0 * 256 + b1) * 0x1_0000 + Append(b2, b3) && 0 <= Append(b2, b3) < 0x1_0000 &&
      w == (Append(b0, b1) * 256 + b2) * 0x100 + b3 && Append(b0, b1) >= 0 &&
      w == (Append(Append(b0, b1), b2) * 256 + b3) * 1 + 0 && Append(Append(b0, b1), b2) >= 0
  {}

  lemma NoBits()
    ensures Pow(2, 0) == 1
  {}

  lemma ElemBit(w0: Word, w1: Word, w2: Word, w3: Word, a: nat, c: nat)
    requires a < 4 && c < 32
    ensures BitOf(FromWords(w0, w1, w2, w3), 32 * a + c) == Bit([w0, w1, w2, w3][a], 31 - c)
  {
    hide Pow;
    WordSize();
    PowAdd(2, 32, 31 - c);
    PowAdd(2, 32, 63 - c);
    PowAdd(2, 32, 95 - c);
    var q := if a == 3 then 1 else if a == 2 then WORD else if a == 1 then WORD * WORD else WORD * WORD * WORD;
    var hi := if a == 0 then 0 else if a == 1 then w0 else if a == 2 then w0 * WORD + w1 else (w0 * WORD + w1) * WORD + w2;
    var lo := if a == 3 then 0 else if a == 2 then w3 else if a == 1 then w2 * WORD + w3 else (w1 * WORD + w2) * WORD + w3;
    PickBit(hi, [w0, w1, w2, w3][a], lo, WORD, q, 31 - c, 32);
    assert q * Two(31 - c) == Two(127 - (32 * a + c));
    BitDiv([w0, w1, w2, w3][a], 31 - c);
  }

  /** A bit of byte e of a word, counted from the top; q is the weight of that byte. */
  lemma PlaceBit(w: nat, hi: nat, x: Byte, lo: nat, q: nat, e: nat, f: nat)
    requires e < 4 && f < 8 && q == Two(24 - 8 * e) && lo < q && w == (hi * 256 + x) * q + lo
    ensures Bit(w, 31 - (8 * e + f)) == Bit(x, 7 - f)
  {
    hide Pow;
    hide Bit;
    WordSize();
    PowAdd(2, 24 - 8 * e, 7 - f);
    PickBit(hi, x, lo, 256, q, 7 - f, 8);
    BitDiv(w, 31 - (8 * e + f));
    BitDiv(x, 7 - f);
  }

  lemma BitAt(s: Block, i: nat, m: nat, j: nat)
    requires m < 16 && j < 8 && i == 8 * m + 7 - j
    ensures BitOf(ToElem(s), i) == Bit(s[m], j)
  {
    hide BitOf;
    hide ToElem;
    assert i / 8 == m && 7 - i % 8 == j;
    BlockBit(s, i);
  }

  /** gf2mul: the block times the element the table was made for. */
  method Gf2Mul(table: array2<Word>, stateX: array<Byte>, ghost h: Elem)
    requires TableFor(table, h) && stateX.Length == 16
    modifies stateX
    ensures stateX[..] == MulBlock(old(stateX[..]), h)
  {
    hide Pow;
    hide Two;
    hide Bit;
    hide ToElem;
    hide FromElem;
    hide Mul;
    hide FromWords;
    hide Steps;
    hide PowerOfX;
    hide TimesX;
    hide Xor32;
    hide Xor128;
    hide BitOf;
    ghost var s: Block := stateX[..];
    ghost var x := ToElem(s);
    var p0: Word, p1: Word, p2: Word, p3: Word := 0, 0, 0, 0;
    NoWords();
    FirstPower(h);
    FirstStep(x, h);
    var i, j, m := 0, 8, 0;
    while i < 128
      invariant 0 <= i <= 128
      invariant stateX[..] == s
      invariant i < 128 ==> 0 < j <= 8 && 0 <= m < 16 && i == 8 * m + 8 - j
      invariant Steps(x, FromWords(p0, p1, p2, p3), PowerOfX(h, i), i) == Mul(x, h)
      decreases 128 - i
    {
      j := j - 1;
      BitAt(s, i, m, j);
      OneMoreStep(x, FromWords(p0, p1, p2, p3), PowerOfX(h, i), i);
      NextPower(h, i + 1);
      var b := Bit(stateX[m], j);
      assert stateX[m] == s[m];
      assert b == BitOf(x, i);
      ghost var z := FromWords(p0, p1, p2, p3);
      assert Row(table, i) == PowerOfX(h, i);
      if b != 0 {
        XorWords(p0, p1, p2, p3, table[i, 0], table[i, 1], table[i, 2], table[i, 3]);
        p0, p1, p2, p3 := Xor32(p0, table[i, 0]), Xor32(p1, table[i, 1]), Xor32(p2, table[i, 2]), Xor32(p3, table[i, 3]);
      }
      assert FromWords(p0, p1, p2, p3) == if b == 1 then Xor128(z, PowerOfX(h, i)) else z;
      assert Steps(x, FromWords(p0, p1, p2, p3), PowerOfX(h, i + 1), i + 1) == Mul(x, h);
      i := i + 1;
      if j == 0 {
        j := 8;
        m := m + 1;
        if m == 16 { break; }
      }
    }
    AllSteps(x, FromWords(p0, p1, p2, p3), PowerOfX(h, 128));
    FromWordsOf(p0, p1, p2, p3);
    UnpackAll(p0, p1, p2, p3, stateX);
  }

  /** The four words of a block, stored big-endian. */
  method UnpackAll(p0: Word, p1: Word, p2: Word, p3: Word, b: array<Byte>)
    requires b.Length == 16
    modifies b
    ensures b[..] == Bytes4(p0) + Bytes4(p1) + Bytes4(p2) + Bytes4(p3)
  {
    hide Bytes4;
    Unpack(p0, b, 0);
    Unpack(p1, b, 4);
    Unpack(p2, b, 8);
    Unpack(p3, b, 12);
  }

  lemma NoWords()
    ensures FromWords(0, 0, 0, 0) == 0
  {}

  lemma FirstStep(x: Elem, h: Elem)
    ensures Mul(x, h) == Steps(x, 0, h, 0)
  {
    hide Steps;
  }

  /** unpack: four bytes of a word into place. */
  method Unpack(w: Word, b: array<Byte>, at: nat)
    requires at + 4 <= b.Length
    modifies b
    ensures b[..] == old(b[..at]) + Bytes4(w) + old(b[at + 4..])
  {
    hide Pow;
    WordSize();
    b[at + 3] := w % 256;
    b[at + 2] := Shr(8, w) % 256;
    b[at + 1] := Shr(16, w) % 256;
    b[at] := Shr(24, w) % 256;
  }
}
