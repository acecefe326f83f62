/** The TFTF header: its fields, its section table, and the validator. */
module TftfHeader {
  import opened Words

  const HEADER_SIZE_MIN: nat := 512
  const HEADER_SIZE_MAX: nat := 4096
  const SECTIONS_AT: nat := 112
  const SECTION_SIZE: nat := 20

  const SECTION_RAW_CODE: int := 1
  const SECTION_COMPRESSED_CODE: int := 3
  const SECTION_COMPRESSED_DATA: int := 4
  const SECTION_MANIFEST: int := 5
  const SECTION_SIGNATURE: int := 0x80
  const SECTION_CERTIFICATE: int := 0x81
  const SECTION_END: int := 0xFE
  const ADDRESS_IGNORED: int := 0xFFFF_FFFF

  datatype Section = Section(kind: Byte, length: Word, address: Word, expanded: Word)

  /** A public key the boot stage knows. */
  datatype Key = Key(kind: Word, name: seq<Byte>, revoked: bool, modulus: seq<Byte>)

  /**
   * What the loader asks of the chip: the UniPro attribute reads with their return codes, the e-Fuse identifiers,
   * the memory map, the key table, and whatever lies in memory behind the header buffer.
   */
  datatype Env = Env(midRc: int, mid: Word, pidRc: int, pid: Word, araVid: Word, araPid: Word,
                     untrustedAllowed: bool, fits: (Word, Word) -> bool, keys: seq<Key>, outside: nat -> Section)

  type Header = s: seq<Byte> | |s| == 4096 witness seq(4096, _ => 0)

  function HeaderSize(hdr: Header): Word { Le32(hdr, 4) }
  function StartLocation(hdr: Header): Word { Le32(hdr, 76) }

  function SectionOffset(i: nat): nat { SECTIONS_AT + SECTION_SIZE * i }

  /** The descriptor at index i; behind the buffer, whatever memory holds. */
  function SectionAt(env: Env, hdr: Header, i: nat): Section {
    var at := SectionOffset(i);
    if at + SECTION_SIZE <= |hdr| then Section(hdr[at], Le32(hdr, at + 8), Le32(hdr, at + 12), Le32(hdr, at + 16))
    else env.outside(i)
  }

  /** is_section_out_of_range: a descriptor that ends at the very end of the header is out of range too. */
  predicate OutOfRange(hdr: Header, i: nat) { SectionOffset(i) >= HeaderSize(hdr) - SECTION_SIZE }

  /** is_section_hashed. */
  predicate IsHashed(kind: Byte) { kind < 0x80 }

  /** known_tftf_type. */
  predicate KnownType(kind: Byte) {
    SECTION_RAW_CODE <= kind <= SECTION_MANIFEST || kind == SECTION_SIGNATURE || kind == SECTION_CERTIFICATE || kind == SECTION_END
  }

  function EndAddress(s: Section): Word { Wrap(s.address + s.expanded) }

  // ----- what the validator is to decide -----------------------------------------------------

  /** Sections i+1 to j are all in range, before the end marker and not ignored. */
  ghost predicate ScanReaches(env: Env, hdr: Header, i: nat, j: nat) {
    forall m :: i < m <= j ==> GoesOn(env, hdr, m)
  }

  ghost predicate Disjoint(a: Section, b: Section) { EndAddress(b) <= a.address || b.address >= EndAddress(a) }

  ghost predicate SectionOk(env: Env, hdr: Header, i: nat) {
    var s := SectionAt(env, hdr, i);
    KnownType(s.kind) &&
    (s.kind != SECTION_END && s.address != ADDRESS_IGNORED ==>
      s.expanded >= s.length && env.fits(s.address, s.expanded) &&
      forall j {:trigger SectionAt(env, hdr, j)} :: i < j && ScanReaches(env, hdr, i, j) ==> Disjoint(s, SectionAt(env, hdr, j)))
  }

  ghost predicate HoldsStart(env: Env, hdr: Header, i: nat) {
    var s := SectionAt(env, hdr, i);
    s.kind == SECTION_RAW_CODE && s.address != ADDRESS_IGNORED && s.address <= StartLocation(hdr) < EndAddress(s)
  }

  /** e is the first end marker, and it is in range. */
  ghost predicate EndsAt(env: Env, hdr: Header, e: nat) {
    !OutOfRange(hdr, e) && SectionAt(env, hdr, e).kind == SECTION_END &&
    forall i :: 0 <= i < e ==> SectionAt(env, hdr, i).kind != SECTION_END
  }

  ghost predicate ValidTable(env: Env, hdr: Header, e: nat) {
    EndsAt(env, hdr, e) && (forall i :: 0 <= i < e ==> SectionOk(env, hdr, i)) &&
    (StartLocation(hdr) == 0 || exists i :: 0 <= i < e && HoldsStart(env, hdr, i))
  }

  lemma EndUnique(env: Env, hdr: Header, d: nat, e: nat)
    requires EndsAt(env, hdr, d) && EndsAt(env, hdr, e)
    ensures d == e
  {}

  // ----- the validator ---------------------------------------------------------------------------

  /** The collision scan of valid_tftf_section. */
  method CollisionFree(env: Env, hdr: Header, i: nat) returns (ok: bool)
    ensures ok <==> forall j {:trigger SectionAt(env, hdr, j)} :: i < j && ScanReaches(env, hdr, i, j) ==>
      Disjoint(SectionAt(env, hdr, i), SectionAt(env, hdr, j))
  {
    hide SectionAt;
    hide ScanReaches;
    hide HeaderSize;
    hide EndAddress;
    var s := SectionAt(env, hdr, i);
    var j := i + 1;
    ScanNothing(env, hdr, i);
    while GoesOn(env, hdr, j)
      invariant j > i && ScanReaches(env, hdr, i, j - 1)
      invariant forall m {:trigger SectionAt(env, hdr, m)} :: i < m < j ==> Disjoint(s, SectionAt(env, hdr, m))
      decreases HeaderSize(hdr) - SectionOffset(j)
    {
      var o := SectionAt(env, hdr, j);
      ScanStep(env, hdr, i, j);
      if !(EndAddress(o) <= s.address || o.address >= EndAddress(s)) {
        return false;
      }
      j := j + 1;
    }
    forall m {:trigger SectionAt(env, hdr, m)} | i < m && ScanReaches(env, hdr, i, m) ensures Disjoint(s, SectionAt(env, hdr, m)) {
      ScanStops(env, hdr, i, j, m);
    }
    return true;
  }

  /** The collision scan's loop condition. */
  predicate GoesOn(env: Env, hdr: Header, j: nat) {
    !OutOfRange(hdr, j) && SectionAt(env, hdr, j).kind != SECTION_END && SectionAt(env, hdr, j).address != ADDRESS_IGNORED
  }

  lemma ScanNothing(env: Env, hdr: Header, i: nat)
    ensures ScanReaches(env, hdr, i, i)
  {}

  lemma ScanStep(env: Env, hdr: Header, i: nat, j: nat)
    requires i < j && ScanReaches(env, hdr, i, j - 1) && GoesOn(env, hdr, j)
    ensures ScanReaches(env, hdr, i, j)
  {
    hide GoesOn;
  }

  lemma ScanStops(env: Env, hdr: Header, i: nat, j: nat, m: nat)
    requires i < j && !GoesOn(env, hdr, j) && ScanReaches(env, hdr, i, m)
    ensures m < j
  {
    hide GoesOn;
  }

  /** valid_tftf_section; the two flags are set, never cleared. */
  method ValidSection(env: Env, hdr: Header, i: nat, start0: bool, end0: bool) returns (ok: bool, start: bool, end: bool)
    ensures ok <==> SectionOk(env, hdr, i)
    ensures ok ==> start == (start0 || HoldsStart(env, hdr, i)) && end == (end0 || SectionAt(env, hdr, i).kind == SECTION_END)
  {
    hide ScanReaches;
    hide SectionAt;
    hide Le32;
    start, end := start0, end0;
    var s := SectionAt(env, hdr, i);
    if !KnownType(s.kind) { return false, start, end; }
    if s.kind == SECTION_END { return true, start, true; }
    if s.address == ADDRESS_IGNORED { return true, start, end; }
    if s.expanded < s.length { return false, start, end; }
    if !env.fits(s.address, s.expanded) { return false, start, end; }
    if s.address <= StartLocation(hdr) < EndAddress(s) && s.kind == SECTION_RAW_CODE { start := true; }
    ok := CollisionFree(env, hdr, i);
  }

  /** valid_tftf_header: accepts exactly the valid tables. */
  method ValidHeader(env: Env, hdr: Header) returns (ok: bool, ghost e: nat)
    ensures ok <==> exists d: nat :: ValidTable(env, hdr, d)
    ensures ok ==> ValidTable(env, hdr, e)
  {
    hide SectionOk;
    hide HoldsStart;
    hide Le32;
    hide SectionAt;
    var start, end := false, false;
    var i := 0;
    e := 0;
    while !OutOfRange(hdr, i) && !end
      invariant end ==> i > 0 && e == i - 1 && EndsAt(env, hdr, e)
      invariant !end ==> e == i && forall m :: 0 <= m < i ==> SectionAt(env, hdr, m).kind != SECTION_END
      invariant forall m :: 0 <= m < e ==> SectionOk(env, hdr, m)
      invariant start <==> exists m :: 0 <= m < e && HoldsStart(env, hdr, m)
      decreases HeaderSize(hdr) - SectionOffset(i), !end
    {
      var ok1;
      ok1, start, end := ValidSection(env, hdr, i, start, end);
      if !ok1 {
        forall d: nat ensures !ValidTable(env, hdr, d) {
          NotYetEnded(env, hdr, i, d);
        }
        return false, e;
      }
      EndHoldsNothing(env, hdr, i);
      i := i + 1;
      e := if end then i - 1 else i;
    }
    if !end {
      forall d: nat ensures !ValidTable(env, hdr, d) {
        NoEnd(env, hdr, i, d);
      }
      return false, e;
    }
    if StartLocation(hdr) != 0 && !start {
      forall d: nat ensures !ValidTable(env, hdr, d) {
        if ValidTable(env, hdr, d) { EndUnique(env, hdr, d, e); }
      }
      return false, e;
    }
    assert ValidTable(env, hdr, e);
    return true, e;
  }

  lemma EndHoldsNothing(env: Env, hdr: Header, i: nat)
    ensures SectionAt(env, hdr, i).kind == SECTION_END ==> !HoldsStart(env, hdr, i)
  {
    hide SectionAt;
    hide Le32;
  }

  lemma NotYetEnded(env: Env, hdr: Header, i: nat, d: nat)
    requires !SectionOk(env, hdr, i) && forall m :: 0 <= m < i ==> SectionAt(env, hdr, m).kind != SECTION_END
    ensures !ValidTable(env, hdr, d)
  {
    hide SectionAt;
    hide Le32;
    assert SectionAt(env, hdr, i).kind != SECTION_END;
  }

  lemma NoEnd(env: Env, hdr: Header, i: nat, d: nat)
    requires OutOfRange(hdr, i) && forall m :: 0 <= m < i ==> SectionAt(env, hdr, m).kind != SECTION_END
    ensures !ValidTable(env, hdr, d)
  {
    hide SectionAt;
    hide Le32;
  }
}
