/** The sha256 context and its operations, each proved to feed or finish the standard's digest. */
module Sha256Stream {
  import opened Arith
  import opened Sha256
  import opened Words

  /** What the context holds after the bytes m: the wrapped bit count, the blocks done, the block begun. */
  ghost predicate Represents(length0: Word, length1: Word, h: seq<Word>, w: seq<Word>, m: seq<Byte>) {
    length0 == LowLength(|m|) && length1 == HighLength(|m|) &&
    |w| == 80 && h == Chain(m[..WholeBlocks(|m|)]) && Holds(w, m[WholeBlocks(|m|)..])
  }

  /** The two words of the bit count, and the bytes in whole blocks. */
  ghost function LowLength(n: nat): Word { 8 * n % WORD }
  ghost function HighLength(n: nat): Word { 8 * n / WORD % WORD }

  ghost function WholeBlocks(n: nat): (c: nat)
    ensures c <= n < c + 64 && c % 64 == 0
  {
    n - n % 64
  }

  lemma SameBlocks(n: nat)
    requires (n + 1) % 64 != 0
    ensures WholeBlocks(n + 1) == WholeBlocks(n) && n - WholeBlocks(n) == n % 64 < 63
  {}

  lemma OneBlockMore(n: nat)
    requires (n + 1) % 64 == 0
    ensures WholeBlocks(n + 1) == n + 1 && WholeBlocks(n) == n - 63 && n % 64 == 63
  {}

  lemma NothingFed(h: seq<Word>, w: seq<Word>)
    requires |w| == 80 && h == IV
    ensures Represents(0, 0, h, w, [])
  {
    PartialNone(w[0]);
  }

  /** A byte that does not end a block. */
  lemma InsideBlock(l0: Word, l1: Word, h: seq<Word>, w: seq<Word>, m: seq<Byte>, b: Byte, l0': Word, l1': Word)
    requires Represents(l0, l1, h, w, m) && (|m| + 1) % 64 != 0
    requires l0' == LowLength(|m| + 1) && l1' == HighLength(|m| + 1)
    ensures var c := |m| % 64 / 4;
      Represents(l0', l1', h, w[c := ShiftIn(w[c], b)], m + [b])
  {
    hide Chain;
    hide ShiftIn;
    hide Holds;
    hide LowLength;
    hide HighLength;
    hide WholeBlocks;
    SameBlocks(|m|);
    var cut, m' := WholeBlocks(|m|), m + [b];
    HoldsStep(w, m[cut..], b);
    assert m'[..cut] == m[..cut] && m'[cut..] == m[cut..] + [b];
  }

  /** A byte that ends a block: the sixteen words are the block, and the tail is empty again. */
  lemma EndsBlock(l0: Word, l1: Word, h: seq<Word>, w: seq<Word>, m: seq<Byte>, b: Byte, l0': Word, l1': Word, w': seq<Word>)
    requires Represents(l0, l1, h, w, m) && (|m| + 1) % 64 == 0 && |w'| == 80
    requires l0' == LowLength(|m| + 1) && l1' == HighLength(|m| + 1)
    ensures var c := |m| % 64 / 4;
      Represents(l0', l1', Compress(h, w[c := ShiftIn(w[c], b)][..16]), w', m + [b])
  {
    hide ShiftIn;
    hide Compress;
    hide Chain;
    hide Holds;
    hide LowLength;
    hide HighLength;
    hide WholeBlocks;
    hide BlockWords;
    OneBlockMore(|m|);
    var cut, c, m' := WholeBlocks(|m|), |m| % 64 / 4, m + [b];
    HoldsStep(w, m[cut..], b);
    assert m[cut..] + [b] == m'[cut..];
    FullBlock(w[c := ShiftIn(w[c], b)], m'[cut..]);
    assert m'[..cut] == m[..cut] && m'[..|m'|] == m';
    ChainStep(m');
    assert m'[|m'|..] == [];
    HoldsNothing(w');
  }

  lemma FullBlock(w: seq<Word>, s: seq<Byte>)
    requires |w| == 80 && |s| == 64 && Holds(w, s)
    ensures w[..16] == BlockWords(s)
  {}

  lemma HoldsNothing(w: seq<Word>)
    requires |w| == 80
    ensures Holds(w, [])
  {
    PartialNone(w[0]);
  }

  lemma ChainStep(p: seq<Byte>)
    requires |p| % 64 == 0 && |p| > 0
    ensures Chain(p) == Compress(Chain(p[..|p| - 64]), BlockWords(p[|p| - 64..]))
  {
    hide Compress;
  }

  lemma RoundsBegin(h: seq<Word>, m: seq<Word>)
    requires |h| == 8 && |m| == 16
    ensures Rounds(VarsOf(h), m, 0) == Vars(h[0], h[1], h[2], h[3], h[4], h[5], h[6], h[7])
  {}

  lemma RoundStep(v: Vars, m: seq<Word>, j: nat)
    requires |m| == 16 && j < 64
    ensures Rounds(v, m, j + 1) == Round(Rounds(v, m, j), RoundConstant(j), Schedule(m, j))
  {
    hide Round;
  }

  /** The schedule loop of shs_transform. */
  method Expand(w: array<Word>, ghost M: seq<Word>)
    requires w.Length == 80 && |M| == 16 && w[..16] == M
    modifies w
    ensures forall t :: 0 <= t < 64 ==> w[t] == Schedule(M, t)
  {
    FirstWords(M, w[..16]);
    for j := 16 to 64
      invariant forall t :: 0 <= t < j ==> w[t] == Schedule(M, t)
      modifies w
    {
      hide *;
      NextWord(M, j);
      w[j] := Wrap(Theta1(w[j - 2]) + w[j - 7] + Theta0(w[j - 15]) + w[j - 16]);
    }
  }

  lemma FirstWords(M: seq<Word>, w: seq<Word>)
    requires |M| == 16 && w == M
    ensures forall t :: 0 <= t < 16 ==> w[t] == Schedule(M, t)
  {}

  lemma NextWord(M: seq<Word>, j: nat)
    requires |M| == 16 && 16 <= j
    ensures Schedule(M, j) == Wrap(Theta1(Schedule(M, j - 2)) + Schedule(M, j - 7) + Theta0(Schedule(M, j - 15)) + Schedule(M, j - 16))
  {
    hide SmallSigma0;
    hide SmallSigma1;
    hide Theta0;
    hide Theta1;
    hide BigSigma0;
    hide BigSigma1;
    hide Sig0;
    hide Sig1;
    hide Wrap;
    Macros(Schedule(M, j - 2));
    Macros(Schedule(M, j - 15));
  }

  lemma RoundAsWritten(v: Vars, k: Word, w: Word)
    ensures var t1 := Wrap(v.h + Sig1(v.e) + Ch(v.e, v.f, v.g) + k + w);
      var t2 := Wrap(Sig0(v.a) + Maj(v.a, v.b, v.c));
      Round(v, k, w) == Vars(Wrap(t1 + t2), v.a, v.b, v.c, Wrap(v.d + t1), v.e, v.f, v.g)
  {
    hide BigSigma0;
    hide BigSigma1;
    hide Sig0;
    hide Sig1;
    hide Ch;
    hide Maj;
    hide Wrap;
    hide SmallSigma0;
    hide SmallSigma1;
    hide Theta0;
    hide Theta1;
    Macros(v.a);
    Macros(v.e);
  }

  lemma CompressAsWritten(h: seq<Word>, m: seq<Word>, v: Vars)
    requires |h| == 8 && |m| == 16 && v == Rounds(VarsOf(h), m, 64)
    ensures Compress(h, m) ==
      [Wrap(h[0] + v.a), Wrap(h[1] + v.b), Wrap(h[2] + v.c), Wrap(h[3] + v.d),
       Wrap(h[4] + v.e), Wrap(h[5] + v.f), Wrap(h[6] + v.g), Wrap(h[7] + v.h)]
  {
    hide Rounds;
    hide Wrap;
  }

  /** The sha256 struct; fed is the message so far. */
  class Context {
    var length0: Word
    var length1: Word
    const h: array<Word>
    const w: array<Word>
    ghost var fed: seq<Byte>

    ghost predicate Shape()
      reads this
    {
      h.Length == 8 && w.Length == 80 && h != w
    }

    ghost predicate Valid()
      reads this, h, w
    {
      Shape() && Represents(length0, length1, h[..], w[..], fed)
    }

    constructor ()
      ensures Valid() && fed == [] && fresh(h) && fresh(w)
    {
      h := new Word[8];
      w := new Word[80];
      new;
      Init();
    }

    /** shs256_init. */
    method Init()
      requires Shape()
      modifies this, h, w
      ensures Valid() && fed == []
    {
      for i := 0 to 64
        modifies w
      {
        w[i] := 0;
      }
      length0, length1 := 0, 0;
      h[0], h[1], h[2], h[3] := 0x6A09E667, 0xBB67AE85, 0x3C6EF372, 0xA54FF53A;
      h[4], h[5], h[6], h[7] := 0x510E527F, 0x9B05688C, 0x1F83D9AB, 0x5BE0CD19;
      fed := [];
      assert h[..] == IV;
      NothingFed(h[..], w[..]);
    }

    /** shs_transform: one block, whose sixteen words are the first of w. */
    method Transform()
      requires Shape()
      modifies h, w
      ensures h[..] == Compress(old(h[..]), old(w[..16]))
    {
      hide Compress;
      hide Rounds;
      hide VarsOf;
      hide Schedule;
      hide Wrap;
      ghost var H, M := h[..], w[..16];
      Expand(w, M);
      var v := Mix(M);
      h[0], h[1], h[2], h[3] := Wrap(h[0] + v.a), Wrap(h[1] + v.b), Wrap(h[2] + v.c), Wrap(h[3] + v.d);
      h[4], h[5], h[6], h[7] := Wrap(h[4] + v.e), Wrap(h[5] + v.f), Wrap(h[6] + v.g), Wrap(h[7] + v.h);
      CompressAsWritten(H, M, v);
      assert h[..] == Compress(H, M);
    }

    /** The 64 rounds of shs_transform. */
    method Mix(ghost M: seq<Word>) returns (v: Vars)
      requires h.Length == 8 && w.Length == 80 && |M| == 16 && forall t :: 0 <= t < 64 ==> w[t] == Schedule(M, t)
      ensures v == Rounds(VarsOf(h[..]), M, 64)
    {
      hide *;
      var a: Word, b: Word, c: Word, d: Word := h[0], h[1], h[2], h[3];
      var e: Word, f: Word, g: Word, h1: Word := h[4], h[5], h[6], h[7];
      ghost var V := VarsOf(h[..]);
      RoundsBegin(h[..], M);
      for j := 0 to 64
        invariant Vars(a, b, c, d, e, f, g, h1) == Rounds(V, M, j)
      {
        RoundStep(V, M, j);
        RoundAsWritten(Vars(a, b, c, d, e, f, g, h1), RoundConstant(j), w[j]);
        var t1: int := Wrap(h1 + Sig1(e) + Ch(e, f, g) + RoundConstant(j) + w[j]);
        var t2: int := Wrap(Sig0(a) + Maj(a, b, c));
        h1, g, f := g, f, e;
        e := Wrap(d + t1);
        d, c, b := c, b, a;
        a := Wrap(t1 + t2);
      }
      v := Vars(a, b, c, d, e, f, g, h1);
    }

    /** shs256_process: one more byte, of which the low eight bits count. */
    method Process(byte: int)
      requires Valid()
      modifies this, h, w
      ensures Valid() && fed == old(fed) + [byte % 256]
    {
      hide Represents;
      ghost var m, n, l0, l1, H, W := fed, |fed|, length0, length1, h[..], w[..];
      Lengths(l0, l1, H, W, m);
      LengthStep(n);
      Position(n);
      Position(n + 1);
      var cnt := length0 / 32 % 16;
      w[cnt] := Shl(8, w[cnt]);
      w[cnt] := Or32(w[cnt], byte % 256);
      assert w[..] == W[cnt := ShiftIn(W[cnt], byte % 256)];
      length0 := Wrap(length0 + 8);
      if length0 == 0 {
        length1 := Wrap(length1 + 1);
        length0 := 0;
      }
      fed := fed + [byte % 256];
      if length0 % 512 == 0 {
        assert w[..16] == w[..][..16];
        Transform();
        EndsBlock(l0, l1, H, W, m, byte % 256, length0, length1, w[..]);
      } else {
        InsideBlock(l0, l1, H, W, m, byte % 256, length0, length1);
      }
    }

    /** The padding bytes of shs256_hash, up to the place of the length. */
    method PadOut() returns (ghost z: nat)
      requires Valid()
      modifies this, h, w
      ensures Valid() && z == (55 - |old(fed)|) % 64 && fed == old(fed) + [0x80] + Zeros(z)
    {
      hide *;
      ghost var m := fed;
      Process(0x80);
      z := 0;
      assert fed == m + [0x80] + Zeros(0);
      AtPosition();
      while length0 % 512 != 448
        invariant Valid() && fed == m + [0x80] + Zeros(z)
        invariant length0 % 512 == 8 * (|fed| % 64)
        invariant z + (56 - |fed|) % 64 == (55 - |m|) % 64
        decreases (56 - |fed|) % 64
      {
        OneZeroMore(|fed|, |m|, z);
        Process(0);
        MoreZeros(m + [0x80], z);
        z := z + 1;
        AtPosition();
      }
      assert |fed| % 64 == 56;
      PadPlace(|fed|);
    }

    lemma AtPosition()
      requires Valid()
      ensures length0 % 512 == 8 * (|fed| % 64)
    {
      Lengths(length0, length1, h[..], w[..], fed);
      Position(|fed|);
    }

    /** shs256_hash: the digest of everything fed, and a fresh context. */
    method Hash(hash: array<Byte>)
      requires Valid() && hash.Length == 32
      modifies this, h, w, hash
      ensures hash[..] == Digest(old(fed))
      ensures Valid() && fed == []
    {
      hide Represents;
      hide Digest;
      hide Compress;
      hide Chain;
      hide Padded;
      ghost var m := fed;
      Lengths(length0, length1, h[..], w[..], m);
      var len0, len1 := length0, length1;
      ghost var z := PadOut();
      ghost var W, H := w[..], h[..];
      LastBlock(length0, length1, H, W, m, z);
      w[14] := len1;
      w[15] := len0;
      assert w[..16] == W[14 := len1][15 := len0][..16];
      Transform();
      EmitBytes(h, hash);
      DigestIs(m, h[..], hash[..]);
      Init();
    }
  }

  lemma DigestIs(m: seq<Byte>, h: seq<Word>, d: seq<Byte>)
    requires h == Chain(Padded(m)) && d == BytesOf(h)
    ensures d == Digest(m)
  {
    hide Chain;
    hide Padded;
    hide BytesOf;
  }

  lemma Lengths(l0: Word, l1: Word, h: seq<Word>, w: seq<Word>, m: seq<Byte>)
    requires Represents(l0, l1, h, w, m)
    ensures l0 == 8 * |m| % WORD && l1 == 8 * |m| / WORD % WORD
  {}

  lemma PadPlace(n: nat)
    requires n % 64 == 56
    ensures (56 - n) % 64 == 0
  {
    DivModUnique(56 - n, -(n / 64), 0, 64);
  }

  lemma OneZeroMore(n: nat, m: nat, z: nat)
    requires n % 64 != 56 && z + (56 - n) % 64 == (55 - m) % 64
    ensures 0 <= (56 - (n + 1)) % 64 < (56 - n) % 64 && z + 1 + (56 - (n + 1)) % 64 == (55 - m) % 64
  {
    var q, r := (56 - n) / 64, (56 - n) % 64;
    assert r > 0;
    DivModUnique(55 - n, q, r - 1, 64);
  }

  lemma MoreZeros(s: seq<Byte>, z: nat)
    ensures s + Zeros(z) + [0] == s + Zeros(z + 1)
  {
    assert Zeros(z + 1) == Zeros(z) + [0];
  }

  /** The block that hash completes by hand is the last block of the padded message. */
  lemma LastBlock(l0: Word, l1: Word, h: seq<Word>, w: seq<Word>, m: seq<Byte>, z: nat)
    requires z == (55 - |m|) % 64 && Represents(l0, l1, h, w, m + [0x80] + Zeros(z))
    ensures |h| == 8 && Compress(h, w[14 := 8 * |m| / WORD % WORD][15 := 8 * |m| % WORD][..16]) == Chain(Padded(m))
  {
    hide Compress;
    hide Chain;
    hide Holds;
    hide LengthBytes;
    hide LowLength;
    hide HighLength;
    hide WholeBlocks;
    hide BlockWords;
    var s, p := m + [0x80] + Zeros(z), Padded(m);
    var cut := |s| - 56;
    PadLength(|m|);
    FiftySix(|s|);
    assert p == s + LengthBytes(8 * |m|);
    assert p[..cut] == s[..cut] && p[cut..] == s[cut..] + LengthBytes(8 * |m|);
    LastWords(w, s[cut..], 8 * |m|);
    ChainStep(p);
  }

  lemma FiftySix(n: nat)
    requires n % 64 == 56
    ensures WholeBlocks(n) == n - 56
  {}

  lemma LastWords(w: seq<Word>, s: seq<Byte>, bits: nat)
    requires |w| == 80 && |s| == 56 && Holds(w, s)
    ensures w[14 := bits / WORD % WORD][15 := bits % WORD][..16] == BlockWords(s + LengthBytes(bits))
  {
    hide LengthBytes;
    hide WordAt;
    hide BlockWords;
    LengthWords(bits);
    LastWordsAre(w, s, LengthBytes(bits), bits / WORD % WORD, bits % WORD);
  }

  lemma LastWordsAre(w: seq<Word>, s: seq<Byte>, l: seq<Byte>, hi: Word, lo: Word)
    requires |w| == 80 && |s| == 56 && |l| == 8 && Holds(w, s) && WordAt(l, 0) == hi && WordAt(l, 1) == lo
    ensures w[14 := hi][15 := lo][..16] == BlockWords(s + l)
  {
    hide BigEndian;
    hide Partial;
    var w2, t := w[14 := hi][15 := lo], s + l;
    forall i | 0 <= i < 16 ensures w2[i] == WordAt(t, i) {
      if i < 14 {
        assert WordAt(t, i) == WordAt(s, i);
      } else {
        assert WordAt(t, i) == WordAt(l, i - 14);
      }
    }
  }

  lemma LengthWords(bits: nat)
    ensures WordAt(LengthBytes(bits), 0) == bits / WORD % WORD
    ensures WordAt(LengthBytes(bits), 1) == bits % WORD
  {
    var b := bits % (WORD * WORD);
    var hi, lo := b / WORD, b % WORD;
    SplitLength(bits, b);
    HighBytes(b, hi);
    SplitWord(b);
    SplitWord(hi);
  }

  lemma SplitLength(bits: nat, b: nat)
    requires b == bits % (WORD * WORD)
    ensures b / WORD == bits / WORD % WORD && b % WORD == bits % WORD && b / WORD % WORD == b / WORD
  {
    var q, hi, lo := bits / (WORD * WORD), b / WORD, b % WORD;
    assert bits == (q * WORD + hi) * WORD + lo;
    DivModUnique(bits, q * WORD + hi, lo, WORD);
    DivModUnique(q * WORD + hi, q, hi, WORD);
  }

  lemma HighBytes(b: nat, hi: nat)
    requires hi == b / WORD
    ensures b / 0x100_0000_0000_0000 == hi / 0x100_0000 && b / 0x1_0000_0000_0000 == hi / 0x1_0000
    ensures b / 0x100_0000_0000 == hi / 0x100
  {
    DivTwice(b, WORD, 0x100_0000);
    DivTwice(b, WORD, 0x1_0000);
    DivTwice(b, WORD, 0x100);
  }

  /** The byte-extraction loop of shs256_hash. */
  method EmitBytes(h: array<Word>, hash: array<Byte>)
    requires h.Length == 8 && hash.Length == 32
    modifies hash
    ensures hash[..] == BytesOf(h[..])
  {
    for i := 0 to 32
      invariant forall j :: 0 <= j < i ==> hash[j] == BytesOf(h[..])[j]
      modifies hash
    {
      PlaceValue(h[i / 4], i);
      hash[i] := Shr(8 * (3 - i % 4), h[i / 4]) % 256;
    }
  }

  lemma PlaceValue(x: Word, i: nat)
    ensures Shr(8 * (3 - i % 4), x) ==
      if i % 4 == 0 then x / 0x100_0000 else if i % 4 == 1 then x / 0x1_0000 else if i % 4 == 2 then x / 0x100 else x
  {
    WordSize();
  }

  // ----- crypto.c -----------------------------------------------------------------------------

  /** hash_update. */
  method Update(sh: Context, data: seq<Byte>)
    requires sh.Valid()
    modifies sh, sh.h, sh.w
    ensures sh.Valid() && sh.fed == old(sh.fed) + data
  {
    hide *;
    assert data[..0] == [];
    for i := 0 to |data|
      invariant sh.Valid() && sh.fed == old(sh.fed) + data[..i]
    {
      ghost var before := sh.fed;
      sh.Process(data[i]);
      assert data[..i + 1] == data[..i] + [data[i]];
    }
    assert data[..|data|] == data;
  }

  /** hash_start, any number of hash_update calls, hash_final: the digest of the concatenation, however it was cut. */
  method HashPieces(sh: Context, pieces: seq<seq<Byte>>, digest: array<Byte>)
    requires sh.Shape() && digest.Length == 32
    modifies sh, sh.h, sh.w, digest
    ensures digest[..] == Digest(Flatten(pieces))
    ensures sh.Valid() && sh.fed == []
  {
    hide Represents;
    hide Digest;
    sh.Init();
    for i := 0 to |pieces|
      invariant sh.Valid() && sh.fed == Flatten(pieces[..i])
    {
      Update(sh, pieces[i]);
      assert pieces[..i + 1][..i] == pieces[..i];
    }
    assert pieces[..|pieces|] == pieces;
    sh.Hash(digest);
  }
}
