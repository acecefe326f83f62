/** Finding the newest FFFF header on the flash and the newest element of a type in it. */
module FfffLocate {
  import opened Arith
  import opened Words
  import opened FfffTable

  type Image = Word -> Byte

  /** The 4096 bytes from addr on; reads past the end of the address space wrap. */
  ghost function HeaderOn(image: Image, addr: Word): Header { Stretch(image, addr, 4096) }

  ghost function Stretch(image: Image, addr: nat, n: nat): (s: seq<Byte>)
    ensures |s| == n
  {
    seq(n, i requires 0 <= i < n => ByteOn(image, addr, i))
  }

  function ByteOn(image: Image, addr: nat, i: nat): Byte { image(Wrap(addr + i)) }

  /** There is a valid header at addr. */
  ghost predicate GoodAt(image: Image, addr: Word) {
    var h := HeaderOn(image, addr);
    h[..SENTINEL_SIZE] == SENTINEL && FrontOk(h) && exists e: nat :: TableOk(h, e)
  }

  ghost function GenerationAt(image: Image, addr: Word): Word { Generation(HeaderOn(image, addr)) }

  /** Where the second copy is, when the first is good. */
  function SecondAddress(h: Header): Word { if BlockSize(h) < HeaderSize(h) then HeaderSize(h) else BlockSize(h) }

  /** The addresses tried when the first copy is bad. */
  ghost predicate Candidate(addr: int) {
    exists n: nat :: addr == 512 * Pow(2, n) && addr < 2 * ERASE_BLOCK_SIZE_MAX
  }

  /** The header the boot stage is to use. */
  ghost predicate Newest(image: Image, addr: Word) {
    GoodAt(image, addr) &&
    if GoodAt(image, 0) then
      var second := SecondAddress(HeaderOn(image, 0));
      if GoodAt(image, second) && GenerationAt(image, second) > GenerationAt(image, 0) then addr == second else addr == 0
    else
      Candidate(addr) && forall b: Word :: Candidate(b) && b < addr ==> !GoodAt(image, b)
  }

  ghost predicate NoneGood(image: Image) {
    !GoodAt(image, 0) && forall b: Word :: Candidate(b) ==> !GoodAt(image, b)
  }

  /** The buffer agrees with the flash over the header's own length, and beyond it is anything. */
  ghost predicate Copied(buf: Header, h: Header) {
    HEADER_SIZE_MIN <= HeaderSize(h) <= HEADER_SIZE_MAX && buf[..HeaderSize(h)] == h[..HeaderSize(h)]
  }

  /** All that validation looks at lies within the header's own length. */
  lemma FieldsCopied(a: Header, b: Header)
    requires Copied(a, b)
    ensures HeaderSize(a) == HeaderSize(b) && BlockSize(a) == BlockSize(b) && Capacity(a) == Capacity(b)
    ensures ImageLength(a) == ImageLength(b) && Generation(a) == Generation(b)
    ensures forall i: nat :: InRange(a, i) <==> InRange(b, i)
    ensures forall i: nat :: InRange(a, i) ==> ElementAt(a, i) == ElementAt(b, i)
    ensures a[..SENTINEL_SIZE] == b[..SENTINEL_SIZE]
  {
    hide ElementAt;
    var n := HeaderSize(b);
    assert forall k :: 0 <= k < n ==> a[k] == a[..n][k] == b[..n][k] == b[k];
    FirstFields(a, b);
    forall i: nat | InRange(a, i) ensures ElementAt(a, i) == ElementAt(b, i) {
      ElementCopied(a, b, i);
    }
  }

  lemma FirstFields(a: Header, b: Header)
    requires forall k :: 0 <= k < HEADER_SIZE_MIN ==> a[k] == b[k]
    ensures HeaderSize(a) == HeaderSize(b) && BlockSize(a) == BlockSize(b) && Capacity(a) == Capacity(b)
    ensures ImageLength(a) == ImageLength(b) && Generation(a) == Generation(b)
    ensures a[..SENTINEL_SIZE] == b[..SENTINEL_SIZE]
  {
    Le32Copied(a, b, 80);
    Le32Copied(a, b, 84);
    Le32Copied(a, b, 88);
    Le32Copied(a, b, 92);
    Le32Copied(a, b, 96);
  }

  lemma ElementCopied(a: Header, b: Header, i: nat)
    requires ElementOffset(i) + ELEMENT_SIZE <= |a| && forall k :: 0 <= k < ElementOffset(i) + ELEMENT_SIZE ==> a[k] == b[k]
    ensures ElementAt(a, i) == ElementAt(b, i)
  {
    var at := ElementOffset(i);
    Le32Copied(a, b, at + 4);
    Le32Copied(a, b, at + 8);
    Le32Copied(a, b, at + 12);
    Le32Copied(a, b, at + 16);
  }

  lemma TableCopied(a: Header, b: Header, e: nat)
    requires Copied(a, b)
    ensures TableOk(a, e) <==> TableOk(b, e)
  {
    FieldsCopied(a, b);
    OneWay(a, b, e);
    OneWay(b, a, e);
  }

  lemma OneWay(a: Header, b: Header, e: nat)
    requires HeaderSize(a) == HeaderSize(b) && BlockSize(a) == BlockSize(b) && ImageLength(a) == ImageLength(b)
    requires forall i: nat :: InRange(a, i) <==> InRange(b, i)
    requires forall i: nat :: InRange(a, i) ==> ElementAt(a, i) == ElementAt(b, i)
    ensures TableOk(a, e) ==> TableOk(b, e)
  {
    hide ElementAt;
    hide HeaderSize;
    hide BlockSize;
    hide ImageLength;
    hide LastByte;
    hide Duplicates;
    hide Collides;
    if TableOk(a, e) {
      forall i | 0 <= i < e ensures Placed(b, ElementAt(b, i)) {
        assert InRange(a, i) && Placed(a, ElementAt(a, i));
      }
      forall i, j | 0 <= i < j < e ensures Apart(b, i, j) {
        assert InRange(a, i) && InRange(a, j) && Apart(a, i, j);
      }
    }
  }

  lemma FrontCopied(a: Header, b: Header)
    requires Copied(a, b)
    ensures FrontOk(a) <==> FrontOk(b)
  {
    FieldsCopied(a, b);
    var n := HeaderSize(b);
    assert a[n - SENTINEL_SIZE..n] == a[..n][n - SENTINEL_SIZE..];
    assert b[n - SENTINEL_SIZE..n] == b[..n][n - SENTINEL_SIZE..];
  }

  /** A storage device: each read either fails or copies bytes. */
  class Flash {
    const image: Image
    var faults: seq<bool>

    constructor (image: Image, faults: seq<bool>)
      ensures this.image == image && this.faults == faults
    {
      this.image := image;
      this.faults := faults;
    }

    method Read(buf: array<Byte>, at: nat, addr: Word, len: nat) returns (rc: int)
      requires at + len <= buf.Length
      modifies this, buf
      ensures rc != 0 ==> true in old(faults)
      ensures true in faults ==> true in old(faults)
      ensures rc == 0 ==> buf[at..at + len] == Stretch(image, addr, len)
      ensures forall k :: 0 <= k < buf.Length && (k < at || at + len <= k) ==> buf[k] == old(buf[k])
    {
      if |faults| > 0 {
        var f := faults[0];
        faults := faults[1..];
        if f { return -1; }
      }
      for i := 0 to len
        invariant forall k :: at <= k < at + i ==> buf[k] == ByteOn(image, addr, k - at)
        invariant forall k :: 0 <= k < buf.Length && (k < at || at + len <= k) ==> buf[k] == old(buf[k])
        modifies buf
      {
        buf[at + i] := ByteOn(image, addr, i);
      }
      assert buf[at..at + len] == Stretch(image, addr, len);
      return 0;
    }
  }

  /** load_ffff_header. */
  method LoadHeader(flash: Flash, buf: array<Byte>, addr: Word) returns (rc: int, valid: bool)
    requires buf.Length == HEADER_SIZE_MAX
    modifies flash, buf
    ensures rc != 0 ==> true in old(flash.faults)
    ensures true in flash.faults ==> true in old(flash.faults)
    ensures rc == 0 ==> (valid <==> GoodAt(flash.image, addr))
    ensures rc == 0 && valid ==> Copied(buf[..], HeaderOn(flash.image, addr))
  {
    hide Le32;
    hide TableOk;
    hide FrontOk;
    hide ByteOn;
    hide HeaderSize;
    ghost var h := HeaderOn(flash.image, addr);
    valid := false;
    rc := flash.Read(buf, 0, addr, HEADER_SIZE_MIN);
    if rc != 0 { return -1, valid; }
    assert forall k :: 0 <= k < HEADER_SIZE_MIN ==> buf[k] == buf[0..HEADER_SIZE_MIN][k];
    FirstFields(buf[..], h);
    if buf[..SENTINEL_SIZE] != SENTINEL {
      return 0, valid;
    }
    var size := HeaderSize(buf[..]);
    if size < HEADER_SIZE_MIN || size > HEADER_SIZE_MAX {
      SizeMatters(h);
      return 0, valid;
    }
    if size != HEADER_SIZE_MIN {
      rc := flash.Read(buf, HEADER_SIZE_MIN, Wrap(addr + HEADER_SIZE_MIN), size - HEADER_SIZE_MIN);
      if rc != 0 { return -1, valid; }
      assert buf[..][HEADER_SIZE_MIN..size] == buf[HEADER_SIZE_MIN..size];
      SecondPart(flash.image, addr, buf[..], size);
    }
    assert buf[..][..size] == h[..size];
    FieldsCopied(buf[..], h);
    ghost var e;
    rc, e := ValidateHeader(buf[..]);
    JudgedByCopy(flash.image, addr, buf[..]);
    valid := rc == 0;
    rc := 0;
  }

  /** The copy in the buffer passes exactly when the header on the flash does. */
  lemma JudgedByCopy(image: Image, addr: Word, buf: Header)
    requires Copied(buf, HeaderOn(image, addr)) && buf[..SENTINEL_SIZE] == SENTINEL
    ensures GoodAt(image, addr) <==> FrontOk(buf) && exists d: nat :: TableOk(buf, d)
  {
    hide TableOk;
    hide FrontOk;
    var h := HeaderOn(image, addr);
    FieldsCopied(buf, h);
    FrontCopied(buf, h);
    forall d: nat ensures TableOk(buf, d) <==> TableOk(h, d) { TableCopied(buf, h, d); }
  }

  lemma SizeMatters(h: Header)
    requires HeaderSize(h) < HEADER_SIZE_MIN || HeaderSize(h) > HEADER_SIZE_MAX
    ensures !FrontOk(h)
  {}

  lemma SecondPart(image: Image, addr: Word, buf: Header, size: nat)
    requires HEADER_SIZE_MIN <= size <= HEADER_SIZE_MAX
    requires forall k :: 0 <= k < HEADER_SIZE_MIN ==> buf[k] == HeaderOn(image, addr)[k]
    requires buf[HEADER_SIZE_MIN..size] == Stretch(image, Wrap(addr + HEADER_SIZE_MIN), size - HEADER_SIZE_MIN)
    ensures forall k :: 0 <= k < size ==> buf[k] == HeaderOn(image, addr)[k]
  {
    forall k | HEADER_SIZE_MIN <= k < size ensures buf[k] == HeaderOn(image, addr)[k] {
      WrapTwice(addr + HEADER_SIZE_MIN, k - HEADER_SIZE_MIN);
      assert buf[k] == buf[HEADER_SIZE_MIN..size][k - HEADER_SIZE_MIN];
    }
  }

  /** No candidate lies strictly between one power-of-two address and the next. */
  lemma CandidateGap(n: nat, b: int)
    requires Candidate(b) && 512 * Pow(2, n) <= b < 512 * Pow(2, n + 1)
    ensures b == 512 * Pow(2, n)
  {
    var m: nat :| b == 512 * Pow(2, m) && b < 2 * ERASE_BLOCK_SIZE_MAX;
    if m < n {
      PowMono(2, m + 1, n);
      PowSucc(2, m);
      PowPos(2, m);
    } else if m > n {
      PowMono(2, n + 1, m);
    }
  }

  /** The element chosen for a type: the first among those of the highest generation before the end marker. */
  ghost predicate FirstNewest(h: Header, e: nat, kind: int, i: nat)
    requires EndsAt(h, e)
  {
    i < e && ElementAt(h, i).kind == kind &&
    forall j :: 0 <= j < e && ElementAt(h, j).kind == kind ==>
      ElementAt(h, j).generation <= ElementAt(h, i).generation && (j < i ==> ElementAt(h, j).generation < ElementAt(h, i).generation)
  }

  class Ffff {
    const flash: Flash
    const header1: array<Byte>
    const header2: array<Byte>
    var curHeader: array<Byte>

    ghost predicate Valid()
      reads this
    {
      header1.Length == header2.Length == HEADER_SIZE_MAX && header1 != header2 && (curHeader == header1 || curHeader == header2)
    }

    constructor (f: Flash)
      ensures Valid() && flash == f && fresh(header1) && fresh(header2)
    {
      flash := f;
      var a, b := new Byte[HEADER_SIZE_MAX], new Byte[HEADER_SIZE_MAX];
      header1, header2, curHeader := a, b, a;
    }

    /** locate_ffff_table: finds the newest good header, and fails only for a read fault or for want of one. */
    method LocateTable() returns (rc: int, ghost addr: Word)
      requires Valid()
      modifies this, flash, header1, header2
      ensures Valid()
      ensures rc == 0 ==> Newest(flash.image, addr) && Copied(curHeader[..], HeaderOn(flash.image, addr))
      ensures rc != 0 ==> true in old(flash.faults) || NoneGood(flash.image)
    {
      hide GoodAt;
      hide Copied;
      hide Candidate;
      hide Le32;
      curHeader := header1;
      addr := 0;
      ghost var image := flash.image;
      var valid;
      rc, valid := LoadHeader(flash, header1, 0);
      if rc != 0 { return -1, addr; }
      if !valid {
        rc, addr := SearchSecond();
        return;
      }
      FieldsCopied(header1[..], HeaderOn(image, 0));
      var address := SecondAddress(header1[..]);
      ghost var h1 := header1[..];
      rc, valid := LoadHeader(flash, header2, address);
      if rc != 0 { return -1, addr; }
      assert header1[..] == h1;
      if !valid { return 0, 0; }
      FieldsCopied(header2[..], HeaderOn(image, address));
      if Generation(header2[..]) > Generation(header1[..]) {
        curHeader := header2;
        return 0, address;
      }
      return 0, 0;
    }

    /** Its search on power-of-two boundaries, when the first header is bad. */
    method SearchSecond() returns (rc: int, ghost addr: Word)
      requires Valid() && !GoodAt(flash.image, 0)
      modifies this, flash, header2
      ensures Valid()
      ensures rc == 0 ==> Newest(flash.image, addr) && Copied(curHeader[..], HeaderOn(flash.image, addr))
      ensures rc != 0 ==> true in old(flash.faults) || NoneGood(flash.image)
    {
      hide GoodAt;
      hide Copied;
      hide HeaderOn;
      hide Candidate;
      hide Pow;
      addr := 0;
      var address: int := HEADER_SIZE_MIN;
      ghost var n, image := 0, flash.image;
      FirstCandidate();
      while address < 2 * ERASE_BLOCK_SIZE_MAX
        invariant Valid() && address == 512 * Pow(2, n) && 512 <= address < 4 * ERASE_BLOCK_SIZE_MAX
        invariant forall b: Word :: Candidate(b) && b < address ==> !GoodAt(image, b)
        invariant true in flash.faults ==> true in old(flash.faults)
        decreases 4 * ERASE_BLOCK_SIZE_MAX - address
      {
        var valid;
        rc, valid := LoadHeader(flash, header2, address);
        if rc != 0 { return -1, addr; }
        IsCandidate(n);
        if valid {
          curHeader := header2;
          return 0, address;
        }
        forall b: Word | Candidate(b) && b < 2 * address ensures !GoodAt(image, b) {
          PowSucc(2, n);
          if b >= address { CandidateGap(n, b); }
        }
        PowSucc(2, n);
        address := Wrap(2 * address);
        n := n + 1;
      }
      forall b: Word | Candidate(b) ensures !GoodAt(image, b) { CandidateBound(b); }
      return -1, addr;
    }

    /** locate_element, in a header that passed validation. */
    method LocateElement(kind: Word, ghost e: nat) returns (rc: int, i: nat, length: Word)
      requires Valid() && HeaderSize(curHeader[..]) <= HEADER_SIZE_MAX && TableOk(curHeader[..], e)
      ensures rc == 0 ==> FirstNewest(curHeader[..], e, kind, i) && length == ElementAt(curHeader[..], i).length
      ensures rc == 0 ==> ElementOffset(i) + ELEMENT_SIZE <= HEADER_SIZE_MAX
      ensures rc != 0 ==> length == 0 && forall j :: 0 <= j < e ==> ElementAt(curHeader[..], j).kind != kind
    {
      hide Le32;
      hide ElementAt;
      hide HeaderSize;
      hide Placed;
      hide Apart;
      var h: Header := curHeader[..];
      length, i := 0, 0;
      var found, j := false, 0;
      while ElementOffset(j) <= HeaderSize(h) - SENTINEL_SIZE - ELEMENT_SIZE
        invariant 0 <= j <= e
        invariant !found ==> forall m :: 0 <= m < j ==> ElementAt(h, m).kind != kind
        invariant found ==> i < j && ElementAt(h, i).kind == kind
        invariant found ==> forall m :: 0 <= m < j && ElementAt(h, m).kind == kind ==> ElementAt(h, m).generation <= ElementAt(h, i).generation
        invariant found ==> forall m :: 0 <= m < i && ElementAt(h, m).kind == kind ==> ElementAt(h, m).generation < ElementAt(h, i).generation
        decreases e - j
      {
        var x := ElementAt(h, j);
        if x.kind == ELEMENT_END { break; }
        if x.kind == kind {
          if !found || ElementAt(h, i).generation < x.generation {
            found, i := true, j;
          }
        }
        j := j + 1;
      }
      assert j == e;
      if !found { return -1, i, length; }
      length := ElementAt(h, i).length;
      return 0, i, length;
    }

    /** locate_ffff_element_on_storage: the newest element of the type in the newest header, and where it is. */
    method LocateOnStorage(kind: Word) returns (rc: int, location: Word, length: Word, ghost addr: Word, ghost e: nat, ghost i: nat)
      requires Valid()
      modifies this, flash, header1, header2
      ensures Valid()
      ensures rc == 0 ==> Newest(flash.image, addr) && Located(HeaderOn(flash.image, addr), kind, e, i, location, length)
      ensures rc != 0 ==> true in old(flash.faults) || Absent(flash.image, kind, addr, e)
    {
      hide Newest;
      hide TableOk;
      hide Copied;
      hide HeaderOn;
      hide FirstNewest;
      hide Located;
      hide ElementAt;
      hide EndsAt;
      hide HeaderSize;
      hide NoneGood;
      hide Lacks;
      location, length, e, i := 0, 0, 0, 0;
      rc, addr := LocateTable();
      if rc != 0 { return -1, location, length, addr, e, i; }
      ghost var h := HeaderOn(flash.image, addr);
      e := EndOf(flash.image, addr);
      TableCopied(curHeader[..], h, e);
      SizeCopied(curHeader[..], h);
      var k;
      rc, k, length := LocateElement(kind, e);
      if rc != 0 {
        SameLack(curHeader[..], h, e, kind);
        return -1, location, length, addr, e, i;
      }
      i := k;
      SameChoice(curHeader[..], h, e, kind, i, length);
      return 0, ElementAt(curHeader[..], k).location, length, addr, e, i;
    }
  }

  /** There is no good header, or none of its elements is of the kind. */
  ghost predicate Absent(image: Image, kind: int, addr: Word, e: nat) {
    NoneGood(image) || (Newest(image, addr) && Lacks(HeaderOn(image, addr), kind, e))
  }

  /** The table ends at e and has no element of the kind. */
  ghost predicate Lacks(h: Header, kind: int, e: nat) {
    EndsAt(h, e) && forall j :: 0 <= j < e ==> ElementAt(h, j).kind != kind
  }

  ghost predicate Located(h: Header, kind: int, e: nat, i: nat, location: Word, length: Word) {
    EndsAt(h, e) && FirstNewest(h, e, kind, i) && location == ElementAt(h, i).location && length == ElementAt(h, i).length
  }

  lemma FirstCandidate()
    ensures 512 == 512 * Pow(2, 0) && forall b: int :: Candidate(b) ==> b >= 512
  {
    forall b: int | Candidate(b) ensures b >= 512 {
      var m: nat :| b == 512 * Pow(2, m) && b < 2 * ERASE_BLOCK_SIZE_MAX;
      PowPos(2, m);
    }
  }

  lemma IsCandidate(n: nat)
    requires 512 * Pow(2, n) < 2 * ERASE_BLOCK_SIZE_MAX
    ensures Candidate(512 * Pow(2, n))
  {}

  lemma CandidateBound(b: int)
    requires Candidate(b)
    ensures b < 2 * ERASE_BLOCK_SIZE_MAX
  {}

  lemma EndOf(image: Image, addr: Word) returns (e: nat)
    requires Newest(image, addr)
    ensures FrontOk(HeaderOn(image, addr)) && TableOk(HeaderOn(image, addr), e)
  {
    hide TableOk;
    hide FrontOk;
    e :| TableOk(HeaderOn(image, addr), e);
  }

  lemma SizeCopied(a: Header, b: Header)
    requires Copied(a, b)
    ensures HeaderSize(a) <= HEADER_SIZE_MAX
  {
    FieldsCopied(a, b);
  }

  lemma SameLack(a: Header, b: Header, e: nat, kind: int)
    requires Copied(a, b) && TableOk(a, e) && forall j :: 0 <= j < e ==> ElementAt(a, j).kind != kind
    ensures Lacks(b, kind, e)
  {
    hide ElementAt;
    hide HeaderSize;
    hide Placed;
    hide Apart;
    FieldsCopied(a, b);
    assert forall j :: 0 <= j <= e ==> InRange(a, j);
  }

  lemma SameChoice(a: Header, b: Header, e: nat, kind: int, i: nat, length: Word)
    requires Copied(a, b) && TableOk(a, e) && FirstNewest(a, e, kind, i) && length == ElementAt(a, i).length
    ensures Located(b, kind, e, i, ElementAt(a, i).location, length)
  {
    hide ElementAt;
    hide HeaderSize;
    hide Placed;
    hide Apart;
    FieldsCopied(a, b);
    assert forall j :: 0 <= j <= e ==> InRange(a, j);
  }
}
