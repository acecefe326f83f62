/** The mcl_gcm object: its status, counters and hash state under any sequence of calls. */
module GcmStream {
  import opened Words
  import opened Gf128
  import opened GcmTable
  import opened Gcm

  const ACCEPTING_HEADER: int := 0
  const ACCEPTING_CIPHER: int := 1
  const NOT_ACCEPTING_MORE: int := 2
  const FINISHED: int := 3

  /** The outer loop of MCL_GCM_add_header and MCL_GCM_ghash. */
  method AbsorbAll(table: array2<Word>, stateX: array<Byte>, data: seq<Byte>, len0: Count,
                   ghost h: Elem, ghost front: seq<Byte>, ghost d: seq<Byte>) returns (len: Count)
    requires TableFor(table, h) && stateX.Length == 16 && Whole(|d|) && len0 == CountOf(|d|)
    requires stateX[..] == Ghash(h, front + Pad16(d))
    modifies stateX
    ensures len == CountOf(|d| + |data|) && stateX[..] == Ghash(h, front + Pad16(d + data))
  {
    hide CountOf;
    hide Ghash;
    hide Pad16;
    hide LastBlock;
    hide XorBlock;
    hide MulBlock;
    hide TableFor;
    var j := 0;
    len := len0;
    assert d + data[..0] == d;
    while j < |data|
      invariant 0 <= j <= |data| && (j < |data| ==> Whole(|d| + j)) && len == CountOf(|d| + j)
      invariant stateX[..] == Ghash(h, front + Pad16(d + data[..j]))
      modifies stateX
    {
      ghost var i := j;
      ghost var before := d + data[..i];
      j, len := MixBlock(stateX, data, j, len, |d| + i);
      Gf2Mul(table, stateX, h);
      GhashMore(h, front, before, data[i..j]);
      if j < |data| { Boundary(|d| + i); }
      assert before + data[i..j] == d + data[..j];
    }
    assert data[..j] == data;
  }

  /** MCL_GCM_wrap: the lengths, in bits, as the last block. */
  method WrapUp(table: array2<Word>, stateX: array<Byte>, lenA: Count, lenC: Count,
                ghost h: Elem, ghost s: seq<Byte>, ghost na: nat, ghost nc: nat)
    requires TableFor(table, h) && stateX.Length == 16 && lenA == CountOf(na) && lenC == CountOf(nc)
    requires stateX[..] == Ghash(h, s)
    modifies stateX
    ensures stateX[..] == Ghash(h, s + BitLength(na) + BitLength(nc))
  {
    hide Ghash;
    hide MulBlock;
    hide TableFor;
    hide Bytes4;
    hide BitsHigh;
    hide Shl;
    hide Xor8;
    ghost var x := stateX[..];
    BitsOfCount(na);
    BitsOfCount(nc);
    var l := new Byte[16];
    UnpackAll(BitsHigh(lenA), Shl(3, lenA.lo), BitsHigh(lenC), Shl(3, lenC.lo), l);
    ghost var last := BitLength(na) + BitLength(nc);
    assert l[..] == last;
    for i := 0 to 16
      invariant l[..] == last
      invariant forall k :: 0 <= k < i ==> stateX[k] == Xor8(x[k], last[k])
      invariant forall k :: i <= k < 16 ==> stateX[k] == x[k]
      modifies stateX
    {
      stateX[i] := Xor8(stateX[i], l[i]);
    }
    assert stateX[..] == XorBlock(x, last);
    Gf2Mul(table, stateX, h);
    GhashBlock(h, s, last);
    assert s + last == s + BitLength(na) + BitLength(nc);
  }

  /** Increment the counter block in place. */
  method NextCounter(f: array<Byte>)
    requires f.Length == 16
    modifies f
    ensures f[..] == Inc(old(f[..]))
  {
    hide Bytes4;
    hide Pack;
    PackValue(f[12], f[13], f[14], f[15]);
    var counter: int := Pack(f[12], f[13], f[14], f[15]);
    counter := Wrap(counter + 1);
    Unpack(counter, f, 12);
  }

  method CopyBlock(dst: array<Byte>, src: array<Byte>)
    requires dst.Length == src.Length == 16 && dst != src
    modifies dst
    ensures dst[..] == src[..]
  {
    for i := 0 to 16
      invariant forall k :: 0 <= k < i ==> dst[k] == src[k]
      modifies dst
    {
      dst[i] := src[i];
    }
  }

  method ClearBlock(dst: array<Byte>)
    requires dst.Length == 16
    modifies dst
    ensures dst[..] == Zeros(16)
  {
    for i := 0 to 16
      invariant forall k :: 0 <= k < i ==> dst[k] == 0
      modifies dst
    {
      dst[i] := 0;
    }
  }

  /** Counter arithmetic of one chunk of m bytes that starts at a block boundary p. */
  lemma ChunkCounter(f: Block, j0: Block, p: nat, m: nat)
    requires Whole(p) && 0 < m <= 16 && f == IncBy(j0, BlocksIn(p))
    ensures Inc(f) == IncBy(j0, BlocksIn(p + m)) && Inc(f) == IncBy(j0, p / 16 + 1)
  {
    hide Inc;
    assert (p + 15) / 16 == p / 16;
    assert (p + m + 15) / 16 == p / 16 + 1;
  }

  lemma ChunkKey(e: Cipher, f: Block, j0: Block, p: nat, k: nat)
    requires Whole(p) && k < 16 && f == IncBy(j0, p / 16 + 1)
    ensures KeyByte(e, j0, p + k) == e(f)[k]
  {
    hide IncBy;
    assert (p + k) / 16 == p / 16 && (p + k) % 16 == k;
  }

  /** One more chunk of output in place. */
  lemma ChunkOut(e: Cipher, j0: Block, n: nat, s: seq<Byte>, i: nat, j: nat, b: Block, t: seq<Byte>, dst: seq<Byte>, dst': seq<Byte>)
    requires i <= j <= |s| && |s| <= |t| == |dst| == |dst'| && j - i <= 16
    requires dst == Gctr(e, j0, n, s)[..i] + t[i..]
    requires forall k :: 0 <= k < j - i ==> KeyByte(e, j0, n + i + k) == b[k]
    requires forall k :: i <= k < j ==> dst'[k] == Xor8(s[k], b[k - i])
    requires forall k :: 0 <= k < |t| && !(i <= k < j) ==> dst'[k] == dst[k]
    ensures dst' == Gctr(e, j0, n, s)[..j] + t[j..] && dst'[i..j] == Gctr(e, j0, n, s)[i..j]
  {
    hide KeyByte;
    hide Xor8;
    var out := Gctr(e, j0, n, s);
    forall k | i <= k < j ensures dst'[k] == out[k] {
      assert KeyByte(e, j0, n + i + (k - i)) == b[k - i];
    }
  }

  lemma Boundary(p: nat)
    requires Whole(p)
    ensures Whole(p + 16)
  {}

  lemma Joined(d: seq<Byte>, a: seq<Byte>, i: nat, j: nat)
    requires i <= j <= |a|
    ensures d + a[..i] + a[i..j] == d + a[..j]
  {}

  /** One pass of the outer loop of MCL_GCM_add_plain and MCL_GCM_add_cipher; s is the source, t the destination as it was. */
  method CryptChunk(table: array2<Word>, stateX: array<Byte>, f: array<Byte>, dst: array<Byte>, src: array<Byte>, i: nat, len: nat,
                    absorbSource: bool, e: Cipher, count0: Count, ghost h: Elem, ghost n: nat, ghost j0: Block,
                    ghost s: seq<Byte>, ghost t: seq<Byte>, ghost absorbed: seq<Byte>) returns (j: nat, count: Count)
    requires stateX.Length == f.Length == 16 && stateX != f && dst != stateX && dst != f && src != stateX && src != f
    requires TableFor(table, h) && i < len == |s| && len <= dst.Length == |t| && len <= src.Length
    requires Whole(n + i) && count0 == CountOf(n + i) && f[..] == IncBy(j0, BlocksIn(n + i))
    requires dst[..] == Gctr(e, j0, n, s)[..i] + t[i..] && src[i..len] == s[i..]
    requires absorbed == if absorbSource && src != dst then s else Gctr(e, j0, n, s)
    modifies stateX, f, dst
    ensures i < j <= len && j - i <= 16 && (j < len ==> Whole(n + j))
    ensures count == CountOf(n + j) && f[..] == IncBy(j0, BlocksIn(n + j))
    ensures dst[..] == Gctr(e, j0, n, s)[..j] + t[j..]
    ensures stateX[..] == MulBlock(XorBlock(old(stateX[..]), LastBlock(absorbed[i..j])), h)
  {
    hide CountOf;
    hide LastBlock;
    hide XorBlock;
    hide MulBlock;
    hide TableFor;
    hide Inc;
    hide IncBy;
    hide KeyByte;
    hide Xor8;
    hide Gctr;
    hide BlocksIn;
    hide Whole;
    ghost var m := if len - i < 16 then len - i else 16;
    ChunkCounter(f[..], j0, n + i, m);
    NextCounter(f);
    var b := e(f[..]);
    forall k | 0 <= k < m ensures KeyByte(e, j0, n + i + k) == b[k] {
      ChunkKey(e, f[..], j0, n + i, k);
    }
    ghost var dst0, x, s0 := dst[..], stateX[..], src[..];
    assert forall k :: i <= k < len ==> s0[k] == s0[i..len][k - i] == s[i..][k - i] == s[k];
    j, count := CryptBlock(dst, src, i, len, b, stateX, absorbSource, count0, n + i);
    assert j == i + m;
    ChunkOut(e, j0, n, s, i, j, b, t, dst0, dst[..]);
    assert s0[i..j] == s[i..j];
    if j < len { Boundary(n + i); }
    Gf2Mul(table, stateX, h);
  }

  /** The same pass, with what the state is the hash of. */
  method CryptPart(table: array2<Word>, stateX: array<Byte>, f: array<Byte>, dst: array<Byte>, src: array<Byte>, i: nat, len: nat,
                   absorbSource: bool, e: Cipher, count0: Count, ghost h: Elem, ghost n: nat, ghost j0: Block,
                   ghost s: seq<Byte>, ghost t: seq<Byte>, ghost absorbed: seq<Byte>, ghost front: seq<Byte>, ghost d: seq<Byte>)
    returns (j: nat, count: Count)
    requires stateX.Length == f.Length == 16 && stateX != f && dst != stateX && dst != f && src != stateX && src != f
    requires TableFor(table, h) && i < len == |s| && len <= dst.Length == |t| && len <= src.Length && n == |d|
    requires Whole(n + i) && count0 == CountOf(n + i) && f[..] == IncBy(j0, BlocksIn(n + i))
    requires dst[..] == Gctr(e, j0, n, s)[..i] + t[i..] && src[i..len] == s[i..]
    requires absorbed == if absorbSource && src != dst then s else Gctr(e, j0, n, s)
    requires stateX[..] == Ghash(h, front + Pad16(d + absorbed[..i])) && (src == dst ==> s == t[..len])
    modifies stateX, f, dst
    ensures i < j <= len && (j < len ==> Whole(n + j)) && src[j..len] == s[j..]
    ensures count == CountOf(n + j) && f[..] == IncBy(j0, BlocksIn(n + j))
    ensures dst[..] == Gctr(e, j0, n, s)[..j] + t[j..]
    ensures stateX[..] == Ghash(h, front + Pad16(d + absorbed[..j]))
  {
    hide CountOf;
    hide Ghash;
    hide Pad16;
    hide LastBlock;
    hide XorBlock;
    hide MulBlock;
    hide TableFor;
    hide IncBy;
    hide Gctr;
    hide BlocksIn;
    hide Whole;
    j, count := CryptChunk(table, stateX, f, dst, src, i, len, absorbSource, e, count0, h, n, j0, s, t, absorbed);
    GhashMore(h, front, d + absorbed[..i], absorbed[i..j]);
    Joined(d, absorbed, i, j);
    if src == dst {
      StillAhead(src[..], Gctr(e, j0, n, s), t, s, j, len);
      assert src[..][j..len] == src[j..len];
    } else {
      assert src[j..len] == src[i..len][j - i..] && s[i..][j - i..] == s[j..];
    }
  }

  lemma StillAhead(d: seq<Byte>, out: seq<Byte>, t: seq<Byte>, s: seq<Byte>, j: nat, len: nat)
    requires j <= len <= |t| && |out| == len && s == t[..len] && d == out[..j] + t[j..]
    ensures |d| == |t| && d[j..len] == s[j..]
  {}

  /** MCL_GCM_add_plain and MCL_GCM_add_cipher once the status is right. */
  method CryptAll(table: array2<Word>, stateX: array<Byte>, f: array<Byte>, dst: array<Byte>, src: array<Byte>, len: nat,
                  absorbSource: bool, e: Cipher, count0: Count, ghost h: Elem, ghost front: seq<Byte>, ghost d: seq<Byte>,
                  ghost j0: Block, ghost absorbed: seq<Byte>) returns (count: Count)
    requires stateX.Length == f.Length == 16 && stateX != f && dst != stateX && dst != f && src != stateX && src != f
    requires TableFor(table, h) && len <= dst.Length && len <= src.Length && Whole(|d|) && count0 == CountOf(|d|)
    requires stateX[..] == Ghash(h, front + Pad16(d)) && f[..] == IncBy(j0, BlocksIn(|d|))
    requires absorbed == if absorbSource && src != dst then src[..len] else Gctr(e, j0, |d|, src[..len])
    modifies stateX, f, dst
    ensures dst[..len] == Gctr(e, j0, |d|, old(src[..len]))
    ensures forall k :: len <= k < dst.Length ==> dst[k] == old(dst[k])
    ensures stateX[..] == Ghash(h, front + Pad16(d + absorbed)) && f[..] == IncBy(j0, BlocksIn(|d| + len))
    ensures count == CountOf(|d| + len)
  {
    hide CountOf;
    hide Ghash;
    hide Pad16;
    hide LastBlock;
    hide XorBlock;
    hide MulBlock;
    hide TableFor;
    hide IncBy;
    hide Gctr;
    hide BlocksIn;
    hide Whole;
    ghost var s, t, n := src[..len], dst[..], |d|;
    ghost var out := Gctr(e, j0, n, s);
    var j := 0;
    count := count0;
    assert d + absorbed[..0] == d;
    while j < len
      invariant 0 <= j <= len && (j < len ==> Whole(n + j)) && count == CountOf(n + j)
      invariant dst[..] == out[..j] + t[j..] && src[j..len] == s[j..]
      invariant f[..] == IncBy(j0, BlocksIn(n + j))
      invariant TableFor(table, h) && stateX[..] == Ghash(h, front + Pad16(d + absorbed[..j]))
      modifies stateX, f, dst
    {
      j, count := CryptPart(table, stateX, f, dst, src, j, len, absorbSource, e, count, h, n, j0, s, t, absorbed, front, d);
    }
    assert absorbed[..j] == absorbed;
  }

  /** What the fields hold after header bytes a and cipher bytes c. */
  ghost predicate Represents(e: Cipher, j0: Block, a: seq<Byte>, c: seq<Byte>, x: Block, f: Block, lenA: Count, lenC: Count) {
    x == Ghash(HashKey(e), Pad16(a) + Pad16(c)) && f == IncBy(j0, BlocksIn(|c|)) &&
    lenA == CountOf(|a|) && lenC == CountOf(|c|)
  }

  /** The calls each status admits rely on whole blocks so far. */
  ghost predicate StatusOk(status: int, a: seq<Byte>, c: seq<Byte>) {
    0 <= status <= 3 && (status == ACCEPTING_HEADER ==> Whole(|a|) && c == []) && (status == ACCEPTING_CIPHER ==> Whole(|c|))
  }

  lemma NothingHashed(h: Elem)
    ensures Ghash(h, []) == Zeros(16) && Pad16([]) == []
  {
    PadWhole([]);
  }

  lemma Fresh(e: Cipher, j0: Block)
    ensures Represents(e, j0, [], [], Zeros(16), j0, Count(0, 0), Count(0, 0))
  {
    NothingHashed(HashKey(e));
    assert Pad16([]) + Pad16([]) == [];
  }

  /** MCL_GCM_ghash and MCL_GCM_wrap on an initialisation vector that is not twelve bytes long. */
  method HashIv(table: array2<Word>, stateX: array<Byte>, iv: seq<Byte>, ghost h: Elem)
    requires TableFor(table, h) && stateX.Length == 16 && stateX[..] == Zeros(16)
    modifies stateX
    ensures stateX[..] == Ghash(h, Pad16(iv) + Zeros(8) + BitLength(|iv|))
  {
    hide Ghash;
    hide TableFor;
    hide Pad16;
    NothingHashed(h);
    assert [] + Pad16([]) == [];
    var lenC := AbsorbAll(table, stateX, iv, Count(0, 0), h, [], []);
    assert [] + iv == iv && [] + Pad16(iv) == Pad16(iv);
    WrapUp(table, stateX, Count(0, 0), lenC, h, Pad16(iv), 0, |iv|);
    assert BitLength(0) == Zeros(8);
  }

  /** The counter part of MCL_GCM_init; the hash state is zero before and after. */
  method SetCounter(table: array2<Word>, stateX: array<Byte>, f: array<Byte>, Y0: array<Byte>, iv: seq<Byte>, ghost e: Cipher)
    requires TableFor(table, HashKey(e)) && stateX.Length == f.Length == Y0.Length == 16 && stateX[..] == Zeros(16)
    requires stateX != f && stateX != Y0 && f != Y0
    modifies stateX, f, Y0
    ensures stateX[..] == Zeros(16) && f[..] == InitialCounter(e, iv) && Y0[..] == f[..]
  {
    hide TableFor;
    hide HashKey;
    hide Ghash;
    hide Pad16;
    hide BitLength;
    if |iv| == 12 {
      for i := 0 to 12
        invariant forall k :: 0 <= k < i ==> f[k] == iv[k]
        modifies f
      {
        f[i] := iv[i];
      }
      Unpack(1, f, 12);
      assert f[..] == iv + [0, 0, 0, 1];
    } else {
      HashIv(table, stateX, iv, HashKey(e));
      CopyBlock(f, stateX);
      ClearBlock(stateX);
    }
    CopyBlock(Y0, f);
  }

  class Instance {
    const table: array2<Word>
    const stateX: array<Byte>
    const Y0: array<Byte>
    const f: array<Byte>
    var lenA: Count
    var lenC: Count
    var status: int
    var aes: Cipher
    ghost var A: seq<Byte>
    ghost var C: seq<Byte>
    ghost var J0: Block

    /** What the cipher computes once its key schedule has been cleared. */
    const erased: Cipher

    /** After finish: the hash key, and the string whose hash the state is. */
    ghost var spentKey: Elem
    ghost var spent: seq<Byte>

    constructor (erased: Cipher)
      ensures Shape() && fresh(table) && fresh(stateX) && fresh(Y0) && fresh(f)
    {
      this.erased := erased;
      aes, status, lenA, lenC := erased, FINISHED, Count(0, 0), Count(0, 0);
      table := new Word[128, 4];
      stateX, Y0, f := new Byte[16], new Byte[16], new Byte[16];
    }

    ghost predicate Shape()
      reads this
    {
      table.Length0 == 128 && table.Length1 == 4 && stateX.Length == Y0.Length == f.Length == 16 &&
      stateX != Y0 && stateX != f && Y0 != f
    }

    ghost predicate Valid()
      reads this, table, stateX, Y0, f
    {
      Shape() && StatusOk(status, A, C) &&
      (status != FINISHED ==>
        TableFor(table, HashKey(aes)) && Y0[..] == J0 && Represents(aes, J0, A, C, stateX[..], f[..], lenA, lenC)) &&
      (status == FINISHED ==>
        TableFor(table, spentKey) && stateX[..] == Ghash(spentKey, spent) && lenA == CountOf(|A|) && lenC == CountOf(|C|))
    }

    ghost function Key(): Elem
      reads this
    {
      if status == FINISHED then spentKey else HashKey(aes)
    }

    /** The string whose hash the state is. */
    ghost function Absorbed(): seq<Byte>
      reads this
    {
      if status == FINISHED then spent else Pad16(A) + Pad16(C)
    }

    /** MCL_GCM_init, for the block cipher e that the key selects. */
    method Init(e: Cipher, iv: seq<Byte>)
      requires Shape()
      modifies this, table, stateX, Y0, f
      ensures Valid() && status == ACCEPTING_HEADER && aes == e && A == [] && C == [] && J0 == InitialCounter(e, iv)
    {
      hide Ghash;
      hide TableFor;
      hide ToElem;
      hide Pad16;
      hide BitLength;
      hide Represents;
      hide BlocksIn;
      hide CountOf;
      var h := new Byte[16];
      ClearBlock(h);
      ClearBlock(stateX);
      aes := e;
      var hb: Block := e(h[..]);
      Precompute(table, hb);
      assert TableFor(table, HashKey(e));
      lenA, lenC := Count(0, 0), Count(0, 0);
      SetCounter(table, stateX, f, Y0, iv, e);
      A, C, J0 := [], [], f[..];
      Fresh(e, J0);
      status := ACCEPTING_HEADER;
    }

    /** MCL_GCM_add_header. */
    method AddHeader(header: seq<Byte>) returns (r: int)
      requires Valid()
      modifies this, stateX
      ensures Valid() && aes == old(aes) && J0 == old(J0) && C == old(C)
      ensures r == if old(status) == ACCEPTING_HEADER then 1 else 0
      ensures r == 1 ==> A == old(A) + header && status == if Whole(|header|) then ACCEPTING_HEADER else ACCEPTING_CIPHER
      ensures r == 0 ==> A == old(A) && status == old(status) && stateX[..] == old(stateX[..])
    {
      hide Ghash;
      hide TableFor;
      hide HashKey;
      hide Pad16;
      hide IncBy;
      if status != ACCEPTING_HEADER { return 0; }
      NothingHashed(HashKey(aes));
      assert Pad16(A) + [] == [] + Pad16(A);
      lenA := AbsorbAll(table, stateX, header, lenA, HashKey(aes), [], A);
      A := A + header;
      assert Pad16(A) + [] == [] + Pad16(A);
      WholeSum(|A| - |header|, |header|);
      if |header| % 16 != 0 { status := ACCEPTING_CIPHER; }
      return 1;
    }

    /** The common body of MCL_GCM_add_plain and MCL_GCM_add_cipher. */
    method Crypt(dst: array<Byte>, src: array<Byte>, len: nat, absorbSource: bool) returns (r: int)
      requires Valid() && len <= dst.Length && len <= src.Length
      requires dst != stateX && dst != Y0 && dst != f && src != stateX && src != Y0 && src != f
      modifies this, stateX, f, dst
      ensures Valid() && aes == old(aes) && J0 == old(J0) && A == old(A)
      ensures r == if old(status) == ACCEPTING_HEADER || old(status) == ACCEPTING_CIPHER then 1 else 0
      ensures r == 1 ==> dst[..len] == Gctr(aes, J0, |old(C)|, old(src[..len]))
      ensures r == 1 ==> C == old(C) + if absorbSource && src != dst then old(src[..len]) else dst[..len]
      ensures r == 1 ==> status == if Whole(len) then ACCEPTING_CIPHER else NOT_ACCEPTING_MORE
      ensures forall k :: len <= k < dst.Length ==> dst[k] == old(dst[k])
      ensures r == 0 ==> C == old(C) && status == old(status) && dst[..] == old(dst[..]) && stateX[..] == old(stateX[..])
    {
      hide Ghash;
      hide TableFor;
      hide HashKey;
      hide Pad16;
      hide IncBy;
      hide Gctr;
      hide CountOf;
      if status == ACCEPTING_HEADER { status := ACCEPTING_CIPHER; }
      if status != ACCEPTING_CIPHER { return 0; }
      ghost var s := src[..len];
      ghost var out := Gctr(aes, J0, |C|, s);
      ghost var absorbed := if absorbSource && src != dst then s else out;
      lenC := CryptAll(table, stateX, f, dst, src, len, absorbSource, aes, lenC, HashKey(aes), Pad16(A), C, J0, absorbed);
      WholeSum(|C|, len);
      C := C + absorbed;
      if len % 16 != 0 { status := NOT_ACCEPTING_MORE; }
      return 1;
    }

    /** MCL_GCM_add_plain; encrypting in place is allowed. */
    method AddPlain(cipher: array<Byte>, plain: array<Byte>, len: nat) returns (r: int)
      requires Valid() && len <= cipher.Length && len <= plain.Length
      requires cipher != stateX && cipher != Y0 && cipher != f && plain != stateX && plain != Y0 && plain != f
      modifies this, stateX, f, cipher
      ensures Valid() && aes == old(aes) && J0 == old(J0) && A == old(A)
      ensures r == if old(status) == ACCEPTING_HEADER || old(status) == ACCEPTING_CIPHER then 1 else 0
      ensures r == 1 ==> cipher[..len] == Gctr(aes, J0, |old(C)|, old(plain[..len])) && C == old(C) + cipher[..len]
      ensures r == 1 ==> status == if Whole(len) then ACCEPTING_CIPHER else NOT_ACCEPTING_MORE
      ensures r == 0 ==> C == old(C) && status == old(status) && cipher[..] == old(cipher[..])
    {
      hide *;
      r := Crypt(cipher, plain, len, false);
    }

    /** MCL_GCM_add_cipher; in place, what gets authenticated is the plaintext just written. */
    method AddCipher(plain: array<Byte>, cipher: array<Byte>, len: nat) returns (r: int)
      requires Valid() && len <= cipher.Length && len <= plain.Length
      requires cipher != stateX && cipher != Y0 && cipher != f && plain != stateX && plain != Y0 && plain != f
      modifies this, stateX, f, plain
      ensures Valid() && aes == old(aes) && J0 == old(J0) && A == old(A)
      ensures r == if old(status) == ACCEPTING_HEADER || old(status) == ACCEPTING_CIPHER then 1 else 0
      ensures r == 1 ==> plain[..len] == Gctr(aes, J0, |old(C)|, old(cipher[..len]))
      ensures r == 1 ==> C == old(C) + if plain != cipher then cipher[..len] else plain[..len]
      ensures r == 1 ==> status == if Whole(len) then ACCEPTING_CIPHER else NOT_ACCEPTING_MORE
      ensures r == 0 ==> C == old(C) && status == old(status) && plain[..] == old(plain[..])
    {
      hide *;
      r := Crypt(plain, cipher, len, true);
    }

    /**
     * MCL_GCM_finish. The source does not refuse a second call: that one works on what the first left, with the cleared key
     * schedule.
     */
    method Finish(tag: array?<Byte>)
      requires Valid()
      requires tag != null ==> tag.Length == 16 && tag != stateX && tag != Y0
      modifies this, stateX, Y0, tag
      ensures Valid() && status == FINISHED && aes == erased && A == old(A) && C == old(C) && J0 == old(J0)
      ensures tag != null ==> tag[..] == TagOf(old(aes), old(Y0[..]), old(Key()), old(Absorbed()), |A|, |C|)
      ensures tag != null && old(status) != FINISHED ==> tag[..] == Tag(old(aes), J0, A, C)
      ensures tag != null ==> Absorbed() == [] && Y0[..] == Zeros(16)
      ensures tag == null ==> Absorbed() == old(Absorbed()) + BitLength(|A|) + BitLength(|C|) && Y0[..] == old(Y0[..])
      ensures Key() == old(Key())
    {
      hide Ghash;
      hide TableFor;
      hide HashKey;
      hide Pad16;
      hide BitLength;
      hide CountOf;
      hide XorBlock;
      ghost var s, h := Absorbed(), Key();
      WrapUp(table, stateX, lenA, lenC, h, s, |A|, |C|);
      ghost var s' := s + BitLength(|A|) + BitLength(|C|);
      if tag != null {
        XorInto(Y0, aes(Y0[..]), stateX);
        CopyBlock(tag, Y0);
        ClearBlock(Y0);
        ClearBlock(stateX);
        NothingHashed(h);
        s' := [];
      }
      spentKey, spent := h, s';
      status := FINISHED;
      aes := erased;
    }
  }

  /** The tag as finish computes it, from the register y and the string s hashed so far. */
  ghost function TagOf(e: Cipher, y: Block, h: Elem, s: seq<Byte>, na: nat, nc: nat): Block {
    XorBlock(e(y), Ghash(h, s + BitLength(na) + BitLength(nc)))
  }

  /** y = k xor x. */
  method XorInto(y: array<Byte>, k: Block, x: array<Byte>)
    requires y.Length == x.Length == 16 && y != x
    modifies y
    ensures y[..] == XorBlock(k, x[..])
  {
    hide Xor8;
    for i := 0 to 16
      invariant forall j :: 0 <= j < i ==> y[j] == Xor8(k[j], x[j])
      modifies y
    {
      y[i] := Xor8(k[i], x[i]);
    }
  }

  // ----- whole runs ------------------------------------------------------------------------------

  /** Every piece but the last is a whole number of blocks. */
  ghost predicate Aligned(pieces: seq<seq<Byte>>) {
    forall i :: 0 <= i < |pieces| - 1 ==> Whole(|pieces[i]|)
  }

  lemma FlattenNext(pieces: seq<seq<Byte>>, i: nat)
    requires i < |pieces|
    ensures Flatten(pieces[..i + 1]) == Flatten(pieces[..i]) + pieces[i]
  {
    assert pieces[..i + 1][..i] == pieces[..i];
  }

  method FeedHeaders(g: Instance, headers: seq<seq<Byte>>) returns (ok: bool)
    requires g.Valid() && g.status == ACCEPTING_HEADER && g.A == []
    modifies g, g.stateX
    ensures g.Valid() && g.aes == old(g.aes) && g.J0 == old(g.J0) && g.C == old(g.C)
    ensures ok <==> Aligned(headers)
    ensures ok ==> g.A == Flatten(headers) && (g.status == ACCEPTING_HEADER || g.status == ACCEPTING_CIPHER)
  {
    hide Represents;
    hide StatusOk;
    hide TableFor;
    hide HashKey;
    for i := 0 to |headers|
      invariant g.Valid() && g.aes == old(g.aes) && g.J0 == old(g.J0) && g.C == old(g.C)
      invariant g.A == Flatten(headers[..i]) && forall k :: 0 <= k < i - 1 ==> Whole(|headers[k]|)
      invariant g.status == if i == 0 || Whole(|headers[i - 1]|) then ACCEPTING_HEADER else ACCEPTING_CIPHER
    {
      var r := g.AddHeader(headers[i]);
      if r == 0 {
        return false;
      }
      FlattenNext(headers, i);
    }
    assert headers[..|headers|] == headers;
    return true;
  }

  /** A run of MCL_GCM_add_plain or MCL_GCM_add_cipher calls into separate buffers. */
  method FeedPieces(g: Instance, pieces: seq<seq<Byte>>, decrypt: bool) returns (ok: bool, out: seq<Byte>)
    requires g.Valid() && (g.status == ACCEPTING_HEADER || g.status == ACCEPTING_CIPHER) && g.C == []
    modifies g, g.stateX, g.f
    ensures g.Valid() && g.aes == old(g.aes) && g.J0 == old(g.J0) && g.A == old(g.A)
    ensures ok <==> Aligned(pieces)
    ensures ok ==> out == Gctr(g.aes, g.J0, 0, Flatten(pieces)) && g.C == (if decrypt then Flatten(pieces) else out)
    ensures ok ==> g.status != FINISHED
  {
    hide Represents;
    hide StatusOk;
    hide TableFor;
    hide HashKey;
    hide Gctr;
    out := [];
    NoOutput(g.aes, g.J0);
    for i := 0 to |pieces|
      invariant g.Valid() && g.aes == old(g.aes) && g.J0 == old(g.J0) && g.A == old(g.A)
      invariant out == Gctr(g.aes, g.J0, 0, Flatten(pieces[..i])) && g.C == (if decrypt then Flatten(pieces[..i]) else out)
      invariant forall k :: 0 <= k < i - 1 ==> Whole(|pieces[k]|)
      invariant i == 0 ==> g.status == ACCEPTING_HEADER || g.status == ACCEPTING_CIPHER
      invariant i > 0 ==> g.status == if Whole(|pieces[i - 1]|) then ACCEPTING_CIPHER else NOT_ACCEPTING_MORE
    {
      var n := |pieces[i]|;
      var src, dst := new Byte[n](k requires 0 <= k < n => pieces[i][k]), new Byte[n];
      assert src[..n] == pieces[i];
      var r;
      if decrypt {
        r := g.AddCipher(dst, src, n);
      } else {
        r := g.AddPlain(dst, src, n);
      }
      if r == 0 {
        ok := false;
        return;
      }
      GctrCut(g.aes, g.J0, 0, Flatten(pieces[..i]), pieces[i]);
      FlattenNext(pieces, i);
      out := out + dst[..];
    }
    assert pieces[..|pieces|] == pieces;
    ok := true;
  }

  lemma NoOutput(e: Cipher, j0: Block)
    ensures Gctr(e, j0, 0, []) == []
  {}

  /**
   * A whole encryption (decrypt is false) or decryption: however header and text are cut, the run is accepted
   * exactly when the cuts are on block boundaries, and then output and tag are those of the one-shot definition.
   */
  method Run(g: Instance, e: Cipher, iv: seq<Byte>, headers: seq<seq<Byte>>, pieces: seq<seq<Byte>>, decrypt: bool, tag: array<Byte>)
    returns (ok: bool, out: seq<Byte>)
    requires g.Shape() && tag.Length == 16 && tag != g.stateX && tag != g.Y0 && tag != g.f
    modifies g, g.table, g.stateX, g.Y0, g.f, tag
    ensures g.Shape()
    ensures ok <==> Aligned(headers) && Aligned(pieces)
    ensures ok ==> out == Gctr(e, InitialCounter(e, iv), 0, Flatten(pieces))
    ensures ok ==> tag[..] == Tag(e, InitialCounter(e, iv), Flatten(headers), if decrypt then Flatten(pieces) else out)
  {
    hide Represents;
    hide StatusOk;
    hide TableFor;
    hide HashKey;
    hide InitialCounter;
    hide Gctr;
    hide Tag;
    hide Aligned;
    hide Flatten;
    out := [];
    g.Init(e, iv);
    ok := FeedHeaders(g, headers);
    if ok {
      ok, out := FeedPieces(g, pieces, decrypt);
      if ok {
        g.Finish(tag);
      }
    }
  }

  /** Decrypting what was encrypted, cut in any other way, gives the text back and the same tag. */
  method SealAndOpen(g: Instance, e: Cipher, iv: seq<Byte>, headers: seq<seq<Byte>>, pieces: seq<seq<Byte>>, tag: array<Byte>,
                     headers': seq<seq<Byte>>, pieces': seq<seq<Byte>>, tag': array<Byte>) returns (sealed: seq<Byte>, text: seq<Byte>)
    requires g.Shape() && tag.Length == tag'.Length == 16 && tag != tag'
    requires tag != g.stateX && tag != g.Y0 && tag != g.f && tag' != g.stateX && tag' != g.Y0 && tag' != g.f
    requires Aligned(headers) && Aligned(pieces) && Aligned(headers') && Aligned(pieces')
    requires Flatten(headers') == Flatten(headers)
    requires Flatten(pieces') == Gctr(e, InitialCounter(e, iv), 0, Flatten(pieces))
    modifies g, g.table, g.stateX, g.Y0, g.f, tag, tag'
    ensures sealed == Flatten(pieces') && text == Flatten(pieces) && tag[..] == tag'[..]
  {
    hide *;
    var ok;
    ok, sealed := Run(g, e, iv, headers, pieces, false, tag);
    ok, text := Run(g, e, iv, headers', pieces', true, tag');
    GctrTwice(e, InitialCounter(e, iv), 0, Flatten(pieces));
  }

  /**
   * What a call in place has authenticated differs from the ciphertext that was handed over if and only if the key stream is
   * not zero all along it.
   */
  method InPlace(g: Instance, buf: array<Byte>) returns (ghost handed: seq<Byte>)
    requires g.Valid() && (g.status == ACCEPTING_HEADER || g.status == ACCEPTING_CIPHER) && g.C == []
    requires buf != g.stateX && buf != g.Y0 && buf != g.f
    modifies g, g.stateX, g.f, buf
    ensures g.Valid() && g.aes == old(g.aes) && g.J0 == old(g.J0) && handed == old(buf[..]) && g.C == Gctr(g.aes, g.J0, 0, handed)
    ensures g.C == handed <==> forall i :: 0 <= i < |handed| ==> KeyByte(g.aes, g.J0, i) == 0
  {
    hide Represents;
    hide StatusOk;
    hide TableFor;
    hide HashKey;
    hide Gctr;
    hide KeyByte;
    handed := buf[..];
    var r := g.AddCipher(buf, buf, buf.Length);
    assert buf[..buf.Length] == buf[..] && handed[..buf.Length] == handed;
    GctrSame(g.aes, g.J0, 0, handed);
  }

  /** One such call: sixteen zero bytes under a cipher that is one everywhere. */
  method InPlaceFails() returns (g: Instance, ghost handed: seq<Byte>)
    ensures g.Valid() && handed == Zeros(16) && g.C != handed
  {
    hide Represents;
    hide StatusOk;
    hide TableFor;
    hide HashKey;
    hide Gctr;
    hide InitialCounter;
    var ones: Block := seq(16, _ => 1);
    var e: Cipher := (b: Block) => ones;
    g := new Instance(e);
    g.Init(e, seq(12, _ => 0));
    var buf := new Byte[16](_ => 0);
    assert buf[..] == Zeros(16);
    handed := InPlace(g, buf);
    assert KeyByte(g.aes, g.J0, 0) == 1;
  }
}
