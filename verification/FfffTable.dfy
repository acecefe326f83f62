/** The FFFF flash table: what its validator accepts, and what acceptance is worth. */
module FfffTable {
  import opened Arith
  import opened Bits
  import opened Words

  const HEADER_SIZE_MIN: nat := 512
  const HEADER_SIZE_MAX: nat := 4096
  const ERASE_BLOCK_SIZE_MAX: nat := 524288
  const SENTINEL_SIZE: nat := 16
  const ELEMENTS_AT: nat := 116
  const ELEMENT_SIZE: nat := 20
  const ELEMENT_END: int := 0xFE

  /** "FlashFormatForFW". */
  const SENTINEL: seq<Byte> :=
    [0x46, 0x6C, 0x61, 0x73, 0x68, 0x46, 0x6F, 0x72, 0x6D, 0x61, 0x74, 0x46, 0x6F, 0x72, 0x46, 0x57]

  type Header = s: seq<Byte> | |s| == 4096 witness seq(4096, _ => 0)

  function Capacity(h: Header): Word { Le32(h, 80) }
  function BlockSize(h: Header): Word { Le32(h, 84) }
  function HeaderSize(h: Header): Word { Le32(h, 88) }
  function ImageLength(h: Header): Word { Le32(h, 92) }
  function Generation(h: Header): Word { Le32(h, 96) }

  datatype Element = Element(kind: Byte, id: Word, length: Word, location: Word, generation: Word)

  function ElementOffset(i: nat): nat { ELEMENTS_AT + ELEMENT_SIZE * i }

  function ElementAt(h: Header, i: nat): Element
    requires ElementOffset(i) + ELEMENT_SIZE <= |h|
  {
    var at := ElementOffset(i);
    Element(h[at], Le32(h, at + 4), Le32(h, at + 8), Le32(h, at + 12), Le32(h, at + 16))
  }

  /** The negation of is_element_out_of_range. */
  predicate InRange(h: Header, i: nat) {
    ElementOffset(i) < HeaderSize(h) - (SENTINEL_SIZE + ELEMENT_SIZE) && HeaderSize(h) <= |h|
  }

  /** The last byte of an element, location + length - 1 in wrapping 32-bit arithmetic. */
  function LastByte(x: Element): Word {
    var last := x.location + x.length - 1;
    if last < 0 then last + WORD else if last >= WORD then last - WORD else last
  }

  /** Both headers come first. */
  function LowestLocation(h: Header): Word {
    if BlockSize(h) < HeaderSize(h) then Wrap(2 * HeaderSize(h)) else Wrap(2 * BlockSize(h))
  }

  /** block_aligned. */
  predicate BlockAligned(address: Word, block: Word) { And(address, (block - 1) % WORD) == 0 }

  // ----- what the validator decides ---------------------------------------------------------

  predicate Collides(x: Element, y: Element) { LastByte(y) >= x.location && y.location <= LastByte(x) }

  predicate Duplicates(x: Element, y: Element) { x.kind == y.kind && x.id == y.id && x.generation == y.generation }

  predicate Placed(h: Header, x: Element) {
    x.location >= LowestLocation(h) && LastByte(x) < ImageLength(h) && BlockAligned(x.location, BlockSize(h))
  }

  ghost predicate EndsAt(h: Header, e: nat) {
    InRange(h, e) && ElementAt(h, e).kind == ELEMENT_END && forall i :: 0 <= i < e ==> ElementAt(h, i).kind != ELEMENT_END
  }

  ghost predicate Apart(h: Header, i: nat, j: nat)
    requires InRange(h, i) && InRange(h, j)
  {
    !Collides(ElementAt(h, i), ElementAt(h, j)) && !Duplicates(ElementAt(h, i), ElementAt(h, j))
  }

  ghost predicate TableOk(h: Header, e: nat) {
    EndsAt(h, e) && (forall i :: 0 <= i < e ==> Placed(h, ElementAt(h, i))) &&
    forall i, j :: 0 <= i < j < e ==> Apart(h, i, j)
  }

  ghost predicate FrontOk(h: Header) {
    HEADER_SIZE_MIN <= HeaderSize(h) <= HEADER_SIZE_MAX &&
    h[HeaderSize(h) - SENTINEL_SIZE..HeaderSize(h)] == SENTINEL &&
    BlockSize(h) <= ERASE_BLOCK_SIZE_MAX && Capacity(h) >= 2 * BlockSize(h) && ImageLength(h) <= Capacity(h)
  }

  lemma EndUnique(h: Header, d: nat, e: nat)
    requires EndsAt(h, d) && EndsAt(h, e)
    ensures d == e
  {}

  // ----- the validator ----------------------------------------------------------------------------

  /** Elements i+1 to j are all in range and before the end marker. */
  ghost predicate Reaches(h: Header, i: nat, j: nat) {
    forall m :: i < m <= j ==> GoesOn(h, m)
  }

  /** The scan's loop condition. */
  predicate GoesOn(h: Header, j: nat) { InRange(h, j) && ElementAt(h, j).kind != ELEMENT_END }

  /** Element i is apart from every element that follows it before the end. */
  ghost predicate Cleared(h: Header, i: nat)
    requires InRange(h, i)
  {
    forall j :: i < j && Reaches(h, i, j) ==> InRange(h, j) && Apart(h, i, j)
  }

  /** The scan of the following elements in valid_ffff_element: forward only, up to the end marker. */
  method ScanFollowing(h: Header, i: nat) returns (ok: bool)
    requires InRange(h, i)
    ensures ok <==> Cleared(h, i)
  {
    hide Le32;
    hide ElementAt;
    hide LastByte;
    hide HeaderSize;
    hide Reaches;
    var x := ElementAt(h, i);
    var j := i + 1;
    ReachesNone(h, i);
    while GoesOn(h, j)
      invariant j > i && Reaches(h, i, j - 1)
      invariant forall m :: i < m < j ==> InRange(h, m) && Apart(h, i, m)
      decreases HeaderSize(h) - ElementOffset(j)
    {
      ReachesMore(h, i, j);
      var y := ElementAt(h, j);
      if LastByte(y) >= x.location && y.location <= LastByte(x) { return false; }
      if x.kind == y.kind && x.id == y.id && x.generation == y.generation { return false; }
      j := j + 1;
    }
    forall m | i < m && Reaches(h, i, m) ensures InRange(h, m) && Apart(h, i, m) { ReachesNoFurther(h, i, j, m); }
    return true;
  }

  lemma ReachesNone(h: Header, i: nat)
    ensures Reaches(h, i, i)
  {}

  lemma ReachesMore(h: Header, i: nat, j: nat)
    requires i < j && Reaches(h, i, j - 1) && GoesOn(h, j)
    ensures Reaches(h, i, j)
  {
    hide GoesOn;
  }

  lemma ReachesNoFurther(h: Header, i: nat, j: nat, m: nat)
    requires i < j && !GoesOn(h, j) && Reaches(h, i, m)
    ensures m < j
  {
    hide GoesOn;
  }

  /** valid_ffff_element; the flag is set, never cleared. */
  method ValidElement(h: Header, i: nat, end0: bool) returns (ok: bool, end: bool)
    requires InRange(h, i)
    ensures ok <==> ElementAt(h, i).kind == ELEMENT_END || (Placed(h, ElementAt(h, i)) && Cleared(h, i))
    ensures ok ==> (end <==> end0 || ElementAt(h, i).kind == ELEMENT_END)
  {
    hide Le32;
    hide ElementAt;
    hide LastByte;
    hide HeaderSize;
    hide BlockAligned;
    hide Cleared;
    end := end0;
    var x := ElementAt(h, i);
    var lowest := LowestLocation(h);
    if x.kind == ELEMENT_END { return true, true; }
    if x.location < lowest || LastByte(x) >= ImageLength(h) { return false, end; }
    if !BlockAligned(x.location, BlockSize(h)) { return false, end; }
    ok := ScanFollowing(h, i);
  }

  /** validate_ffff_header's loop: accepts exactly the tables that end in range with every pair of entries apart. */
  method ValidateElements(h: Header) returns (ok: bool, ghost e: nat)
    requires HeaderSize(h) <= HEADER_SIZE_MAX
    ensures ok <==> exists d: nat :: TableOk(h, d)
    ensures ok ==> TableOk(h, e)
  {
    hide Le32;
    hide ElementAt;
    hide HeaderSize;
    hide Placed;
    hide Cleared;
    hide TableOk;
    var end, i := false, 0;
    e := 0;
    while InRange(h, i) && !end
      invariant end ==> i > 0 && e == i - 1 && EndsAt(h, e)
      invariant !end ==> e == i && forall m :: 0 <= m < i ==> InRange(h, m) && ElementAt(h, m).kind != ELEMENT_END
      invariant forall m :: 0 <= m < e ==> InRange(h, m) && Placed(h, ElementAt(h, m)) && Cleared(h, m)
      decreases HeaderSize(h) - ElementOffset(i), !end
    {
      var good;
      good, end := ValidElement(h, i, end);
      if !good {
        forall d: nat ensures !TableOk(h, d) { Refused(h, i, d); }
        return false, e;
      }
      i := i + 1;
      e := if end then i - 1 else i;
    }
    if !end {
      forall d: nat ensures !TableOk(h, d) { NoEnd(h, i, d); }
      return false, e;
    }
    PairsApart(h, e);
    return true, e;
  }

  /** Forward scans from every element cover every pair. */
  lemma PairsApart(h: Header, e: nat)
    requires EndsAt(h, e) && forall m :: 0 <= m < e ==> Placed(h, ElementAt(h, m)) && Cleared(h, m)
    ensures TableOk(h, e)
  {
    hide Le32;
    hide ElementAt;
    hide HeaderSize;
    hide Placed;
    hide Apart;
    forall i, j | 0 <= i < j < e ensures Apart(h, i, j) {
      assert Cleared(h, i) && Reaches(h, i, j);
    }
  }

  lemma Refused(h: Header, i: nat, d: nat)
    requires InRange(h, i) && forall m :: 0 <= m < i ==> InRange(h, m) && ElementAt(h, m).kind != ELEMENT_END
    requires ElementAt(h, i).kind != ELEMENT_END && !(Placed(h, ElementAt(h, i)) && Cleared(h, i))
    ensures !TableOk(h, d)
  {
    hide Le32;
    hide ElementAt;
    hide HeaderSize;
    hide Placed;
    hide Apart;
    if EndsAt(h, d) && !Cleared(h, i) {
      var j :| i < j && Reaches(h, i, j) && !(InRange(h, j) && Apart(h, i, j));
      assert GoesOn(h, j);
      assert !GoesOn(h, d);
    }
  }

  lemma NoEnd(h: Header, i: nat, d: nat)
    requires !InRange(h, i) && HeaderSize(h) <= HEADER_SIZE_MAX
    requires forall m :: 0 <= m < i ==> InRange(h, m) && ElementAt(h, m).kind != ELEMENT_END
    ensures !TableOk(h, d)
  {
    hide Le32;
    hide ElementAt;
    hide HeaderSize;
  }

  /** validate_ffff_header. */
  method ValidateHeader(h: Header) returns (rc: int, ghost e: nat)
    requires HEADER_SIZE_MIN <= HeaderSize(h) <= HEADER_SIZE_MAX
    ensures rc == 0 ==> TableOk(h, e)
    ensures rc == 0 <==> FrontOk(h) && exists d: nat :: TableOk(h, d)
  {
    hide TableOk;
    hide Le32;
    e := 0;
    var size := HeaderSize(h);
    if h[size - SENTINEL_SIZE..size] != SENTINEL { return -1, e; }
    if BlockSize(h) > ERASE_BLOCK_SIZE_MAX { return -1, e; }
    if Capacity(h) < 2 * BlockSize(h) { return -1, e; }
    if ImageLength(h) > Capacity(h) { return -1, e; }
    var ok;
    ok, e := ValidateElements(h);
    rc := if ok then 0 else -1;
  }

  // ----- what acceptance is worth ------------------------------------------------------------------

  /** An accepted entry lies inside the image exactly when it does not run past 2^32. */
  lemma InBoundsIffNoWrap(h: Header, e: nat, i: nat)
    requires FrontOk(h) && TableOk(h, e) && i < e
    ensures var x := ElementAt(h, i);
      x.location + x.length <= ImageLength(h) <==> x.location + x.length <= WORD
    ensures ElementAt(h, i).location >= 2 * HeaderSize(h) && ElementAt(h, i).location >= 2 * BlockSize(h)
  {
    hide Le32;
    hide ElementAt;
    hide HeaderSize;
    hide BlockSize;
    hide Capacity;
    hide ImageLength;
    hide LowestLocation;
    hide BlockAligned;
    hide Apart;
    assert Placed(h, ElementAt(h, i));
    LowestBound(h);
    LastByteBound(ElementAt(h, i), ImageLength(h));
  }

  lemma LowestBound(h: Header)
    requires FrontOk(h)
    ensures LowestLocation(h) >= 2 * HeaderSize(h) && LowestLocation(h) >= 2 * BlockSize(h)
  {
    hide HeaderSize;
    hide BlockSize;
    SmallWrap(2 * HeaderSize(h));
    SmallWrap(2 * BlockSize(h));
  }

  lemma SmallWrap(x: nat)
    requires x < WORD
    ensures Wrap(x) == x
  {}

  lemma LastByteBound(x: Element, limit: Word)
    requires x.location > 0 && LastByte(x) < limit
    ensures x.location + x.length <= limit <==> x.location + x.length <= WORD
  {}

  /** Two accepted entries that do not run past 2^32 share no byte, and no two entries are duplicates. */
  lemma PairwiseDisjoint(h: Header, e: nat, i: nat, j: nat)
    requires FrontOk(h) && TableOk(h, e) && i < e && j < e && i != j
    ensures var x, y := ElementAt(h, i), ElementAt(h, j);
      x.length > 0 && y.length > 0 && x.location + x.length <= WORD && y.location + y.length <= WORD ==>
        x.location + x.length <= y.location || y.location + y.length <= x.location
    ensures !Duplicates(ElementAt(h, i), ElementAt(h, j))
  {
    hide Le32;
    hide ElementAt;
    hide HeaderSize;
    hide ImageLength;
    hide Placed;
    var x, y := ElementAt(h, i), ElementAt(h, j);
    InBoundsIffNoWrap(h, e, i);
    InBoundsIffNoWrap(h, e, j);
    if i < j { assert Apart(h, i, j); } else { assert Apart(h, j, i); }
    if x.location + x.length <= WORD && y.location + y.length <= WORD && x.length > 0 && y.length > 0 {
      assert LastByte(x) == x.location + x.length - 1 && LastByte(y) == y.location + y.length - 1;
    }
  }

  /** The mask test is divisibility when the block size is a power of two. */
  lemma AlignedIsDivisible(address: Word, block: Word, k: nat)
    requires block == Two(k)
    ensures BlockAligned(address, block) <==> address % block == 0
  {
    hide And;
    AndMask(address, k);
  }

  lemma AcceptedAligned(h: Header, e: nat, i: nat, k: nat)
    requires TableOk(h, e) && i < e && BlockSize(h) == Two(k)
    ensures ElementAt(h, i).location % BlockSize(h) == 0
  {
    hide Le32;
    assert Placed(h, ElementAt(h, i));
    AlignedIsDivisible(ElementAt(h, i).location, BlockSize(h), k);
  }

  /** A header of 512 bytes with one entry at 1024 that claims 2^32 - 1 bytes of a 1 MB image. */
  function WrappingByte(i: nat): Byte {
    if 496 <= i < 512 then SENTINEL[i - 496] else
    if i == 82 || i == 94 then 0x10 else
    if i == 85 || i == 89 then 0x02 else
    if i == 116 then 0x01 else
    if 124 <= i < 128 then 0xFF else
    if i == 129 then 0x04 else
    if i == 136 then 0xFE else 0
  }

  function WrappingHeader(): Header { seq(4096, i requires 0 <= i < 4096 => WrappingByte(i)) }

  /** The validator accepts it, though the entry runs far past the image. */
  lemma WrappingAccepted()
    ensures var h := WrappingHeader();
      FrontOk(h) && TableOk(h, 1) && ElementAt(h, 0).location + ElementAt(h, 0).length > ImageLength(h)
  {
    hide And;
    hide Le32;
    hide WrappingHeader;
    var h := WrappingHeader();
    WrappingFields();
    WrappingElements();
    AlignedIsDivisible(1024, 512, 9);
    assert LastByte(ElementAt(h, 0)) == 1022;
    assert Placed(h, ElementAt(h, 0));
  }

  lemma WrappingFields()
    ensures var h := WrappingHeader();
      HeaderSize(h) == BlockSize(h) == 512 == Two(9) && Capacity(h) == ImageLength(h) == 0x10_0000 && h[496..512] == SENTINEL
  {
    hide Le32;
    NineBits();
    WrappingField(80, 0x10_0000);
    WrappingField(84, 512);
    WrappingField(88, 512);
    WrappingField(92, 0x10_0000);
    assert forall i :: 496 <= i < 512 ==> WrappingHeader()[i] == SENTINEL[i - 496];
  }

  lemma WrappingElements()
    ensures ElementAt(WrappingHeader(), 0).kind == 1 && ElementAt(WrappingHeader(), 1).kind == ELEMENT_END
    ensures ElementAt(WrappingHeader(), 0).length == 0xFFFF_FFFF && ElementAt(WrappingHeader(), 0).location == 1024
  {
    hide WrappingHeader;
    hide Le32;
    WrappingKinds();
    WrappingLength();
    WrappingPlace();
    assert ElementOffset(0) == 116 && ElementOffset(1) == 136;
  }

  lemma WrappingKinds()
    ensures WrappingHeader()[116] == 1 && WrappingHeader()[136] == ELEMENT_END
  {}

  lemma WrappingPlace()
    ensures Le32(WrappingHeader(), 128) == 1024
  {
    hide Le32;
    WrappingField(128, 1024);
  }

  lemma WrappingLength()
    ensures Le32(WrappingHeader(), 124) == 0xFFFF_FFFF
  {
    hide Le32;
    assert BigEndian(0xFF, 0xFF, 0xFF, 0xFF) == 0xFFFF_FFFF;
    WrappingField(124, 0xFFFF_FFFF);
  }

  lemma WrappingField(at: nat, v: Word)
    requires at + 4 <= 4096
    requires v == BigEndian(WrappingByte(at + 3), WrappingByte(at + 2), WrappingByte(at + 1), WrappingByte(at))
    ensures Le32(WrappingHeader(), at) == v
  {
    hide Le32;
    Le32Value(WrappingHeader(), at);
  }

  lemma NineBits()
    ensures Pow(2, 9) == 512
  {
    assert Pow(2, 5) == 32;
  }
}
