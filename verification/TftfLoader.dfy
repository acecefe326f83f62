/** The static state of the TFTF loader and the functions that move it. */
module TftfLoader {
  import opened Words
  import opened Sha256
  import opened Sha256Stream
  import opened Greybus
  import opened TftfHeader
  import opened SignatureCheck
  import opened Tftf

  const TEMP_BUFFER_SIZE: nat := 2048

  // ----- when the loads of a run go through ----------------------------------------------------

  /** The link after a section of the given length has been read and thrown away, if that goes through. */
  ghost function Discarded(firmwareSize: Word, st: LinkState, length: nat): Option<LinkState>
    decreases length
  {
    if length == 0 then Some(st) else
    var n := if length > TEMP_BUFFER_SIZE then TEMP_BUFFER_SIZE else length;
    var r := Advanced(firmwareSize, st, n);
    if r.None? then None else Discarded(firmwareSize, r.value, length - n)
  }

  ghost function AfterSection(firmwareSize: Word, st: LinkState, s: Section): Option<LinkState> {
    if s.kind == SECTION_SIGNATURE then Advanced(firmwareSize, st, SIGNATURE_BLOCK)
    else if s.address == ADDRESS_IGNORED then Discarded(firmwareSize, st, s.length)
    else Advanced(firmwareSize, st, s.length)
  }

  /** The link after the sections from i on. */
  ghost function AfterSections(env: Env, hdr: Header, firmwareSize: Word, st: LinkState, i: nat): Option<LinkState>
    decreases HeaderSize(hdr) - SectionOffset(i)
  {
    if OutOfRange(hdr, i) || SectionAt(env, hdr, i).kind == SECTION_END then Some(st) else
    var r := AfterSection(firmwareSize, st, SectionAt(env, hdr, i));
    if r.None? then None else AfterSections(env, hdr, firmwareSize, r.value, i + 1)
  }

  /** The sentinel is right and the size is one the loader supports: only then does it look at the header further. */
  predicate Checkable(hdr: Header) {
    hdr[..4] == SENTINEL && HEADER_SIZE_MIN <= HeaderSize(hdr) <= HEADER_SIZE_MAX
  }

  /** The link after the header has been read. */
  ghost function AfterHeader(firmwareSize: Word, st: LinkState, hdr: Header): Option<LinkState> {
    var r := Advanced(firmwareSize, st, HEADER_SIZE_MIN);
    if r.None? || !Checkable(hdr) || HeaderSize(hdr) == HEADER_SIZE_MIN then r
    else Advanced(firmwareSize, r.value, HeaderSize(hdr) - HEADER_SIZE_MIN)
  }

  /** The part of the header buffer that is read. */
  function HeaderLength(hdr: Header): nat { if Checkable(hdr) then HeaderSize(hdr) else HEADER_SIZE_MIN }

  /** A header that load_tftf_header lets pass: one it does not look at, or one that satisfies all its checks. */
  ghost predicate Passes(env: Env, hdr: Header) {
    !Checkable(hdr) || (env.midRc == 0 && env.pidRc == 0 && exists e: nat, k: nat :: HeaderOk(env, hdr, e, k))
  }

  class Loader {
    const link: Link
    const header: array<Byte>
    const hash: array<Byte>
    const signature: array<Byte>
    var state: CryptoState
    var containSignature: bool
    ghost var moves: seq<CryptoState>

    ghost predicate Shape()
      reads this, link, link.sh, link.sh.h, link.sh.w
    {
      link.Valid() && header.Length == HEADER_SIZE_MAX && hash.Length == 32 && header != hash &&
      signature.Length == SIGNATURE_BLOCK && signature != header && signature != hash
    }

    ghost predicate Valid()
      reads this, link, link.sh, link.sh.h, link.sh.w
    {
      Shape() && Ordered(moves, state)
    }

    constructor (l: Link)
      requires l.Valid()
      ensures Valid() && link == l && fresh(header) && fresh(hash) && fresh(signature)
    {
      link := l;
      header := new Byte[HEADER_SIZE_MAX];
      hash := new Byte[32];
      signature := new Byte[SIGNATURE_BLOCK];
      state, containSignature, moves := Init, false, [Init];
    }

    ghost function Now(): Snap
      reads this, hash, link.sh
    {
      Snap(state, link.sh.fed, hash[..])
    }

    /** discard_section: the section goes through a small buffer, piece by piece. */
    method DiscardSection(length: Word, hashSection: bool) returns (rc: int, ghost data: seq<Byte>)
      requires link.Valid()
      modifies link`inbox, link`respondedOp, link`sends, link`offset, link.sh, link.sh.h, link.sh.w
      ensures link.Valid()
      ensures rc == 0 <==> Discarded(link.firmwareSize, old(link.State()), length).Some?
      ensures rc == 0 ==> Discarded(link.firmwareSize, old(link.State()), length) == Some(link.State())
      ensures rc == 0 ==> |data| == length && Took(old(link.inbox), link.inbox, data)
      ensures rc == 0 ==> link.sh.fed == old(link.sh.fed) + (if hashSection then data else [])
    {
      hide Represents;
      hide Took;
      hide Advanced;
      hide LoadRun;
      hide Discarded;
      var temp := new Byte[TEMP_BUFFER_SIZE];
      var len: int := length;
      data := [];
      ghost var r0, f0, st0 := link.inbox, link.sh.fed, link.State();
      TookNothing(r0);
      while len > 0
        invariant 0 <= len <= length && |data| == length - len && link.Valid()
        invariant Discarded(link.firmwareSize, st0, length) == Discarded(link.firmwareSize, link.State(), len)
        invariant Took(r0, link.inbox, data) && link.sh.fed == f0 + (if hashSection then data else [])
        modifies link`inbox, link`respondedOp, link`sends, link`offset, link.sh, link.sh.h, link.sh.w, temp
      {
        var blkLen := if len > TEMP_BUFFER_SIZE then TEMP_BUFFER_SIZE else len;
        ghost var r, st := link.inbox, link.State();
        DiscardedStep(link.firmwareSize, st, len);
        rc := link.Load(temp, 0, blkLen, hashSection);
        if rc != 0 {
          rc := -1;
          return;
        }
        TookMore(r0, r, link.inbox, data, temp[0..blkLen]);
        data := data + temp[0..blkLen];
        len := len - blkLen;
      }
      DiscardedAll(link.firmwareSize, link.State());
      rc := 0;
    }

    /** process_tftf_section. */
    method ProcessSection(env: Env, s: Section) returns (rc: int, ghost data: seq<Byte>)
      requires Valid() && KeysOk(env.keys)
      modifies this`state, this`moves, hash, signature, link`inbox, link`respondedOp, link`sends, link`offset, link.sh, link.sh.h, link.sh.w
      ensures Valid()
      ensures rc == 0 <==> AfterSection(link.firmwareSize, old(link.State()), s).Some?
      ensures rc == 0 ==> AfterSection(link.firmwareSize, old(link.State()), s) == Some(link.State())
      ensures rc == 0 ==> Stepped(env, s, old(Now()), Now(), data) && Took(old(link.inbox), link.inbox, data)
    {
      hide Represents;
      hide Took;
      hide Advanced;
      hide LoadRun;
      hide Digest;
      hide KeysOk;
      hide Accepted;
      hide Ordered;
      hide Discarded;
      ghost var a := Now();
      data := [];
      if !IsHashed(s.kind) && state == Hashing {
        link.sh.Hash(hash);
        Advance(moves, state, Hashed);
        state := Hashed;
        moves := moves + [Hashed];
      }
      ghost var c := Closed(s, a);
      assert Now() == c;
      if s.kind == SECTION_SIGNATURE {
        rc := link.Load(signature, 0, SIGNATURE_BLOCK, false);
        if rc != 0 { return -1, data; }
        assert signature[0..SIGNATURE_BLOCK] == signature[..];
        data := signature[..];
        if state == Hashed {
          var ret := VerifySignature(env.keys, hash[..], signature[..]);
          if ret == 0 {
            Advance(moves, state, Verified);
            state := Verified;
            moves := moves + [Verified];
          }
        }
        return 0, data;
      }
      var hashLoaded := state == Hashing;
      if s.address == ADDRESS_IGNORED {
        rc, data := DiscardSection(s.length, hashLoaded);
        if rc != 0 { return -1, data; }
      } else {
        var region := new Byte[s.length];
        rc := link.Load(region, 0, s.length, hashLoaded);
        if rc != 0 { return -1, data; }
        assert region[0..s.length] == region[..];
        data := region[..];
      }
      return 0, data;
    }

    /** The section loop of load_tftf_header; k is the first section that is not hashed. */
    method ScanSections(env: Env, ghost e: nat) returns (rc: int, ghost k: nat)
      requires Valid() && state == Init && !containSignature && ValidTable(env, header[..], e) && HeaderSize(header[..]) <= HEADER_SIZE_MAX
      modifies this`state, this`moves, this`containSignature, link.sh, link.sh.h, link.sh.w
      ensures Valid()
      ensures rc == 0 ==> Boundary(env, header[..], k, e) && Uncompressed(env, header[..], e)
      ensures rc == 0 ==> (containSignature <==> HasSignature(env, header[..], e))
      ensures rc == 0 && k == e ==> state == Init
      ensures rc == 0 && k < e ==> state == Hashing && link.sh.fed == Front(header[..], SectionOffset(k))
      ensures rc != 0 ==> !Uncompressed(env, header[..], e) || forall m: nat :: !Boundary(env, header[..], m, e)
    {
      hide Represents;
      hide SectionAt;
      hide Le32;
      hide SectionOk;
      hide HoldsStart;
      hide Ordered;
      ghost var hdr: Header := header[..];
      var i := 0;
      k := e;
      SizeBounds(hdr);
      while true
        invariant header[..] == hdr && Valid() && 0 <= i <= e && Uncompressed(env, hdr, i)
        invariant containSignature <==> HasSignature(env, hdr, i)
        invariant state == Init ==> k == e && forall j :: 0 <= j < i ==> IsHashed(SectionAt(env, hdr, j).kind)
        invariant state == Init || (state == Hashing && k < i && Boundary(env, hdr, k, i))
        invariant state == Hashing ==> link.sh.fed == Front(hdr, SectionOffset(k))
        decreases e - i
      {
        if OutOfRange(header[..], i) {
          assert false;
          return -1, k;
        }
        var s := SectionAt(env, header[..], i);
        if s.kind == SECTION_END { break; }
        assert i < e && SectionOk(env, hdr, i);
        OkIsKnown(env, hdr, i);
        MoreSignatures(env, hdr, i);
        if s.kind == SECTION_SIGNATURE || s.kind == SECTION_CERTIFICATE {
          if s.kind == SECTION_SIGNATURE { containSignature := true; }
          if state == Init {
            link.sh.Init();
            Advance(moves, state, Hashing);
            state := Hashing;
            moves := moves + [Hashing];
            k := i;
            Update(link.sh, header[..SectionOffset(i)]);
            assert header[..SectionOffset(i)] == hdr[..SectionOffset(i)];
          }
        } else if s.kind == SECTION_COMPRESSED_CODE || s.kind == SECTION_COMPRESSED_DATA {
          return -1, k;
        } else if state == Hashing {
          HashedAfterUnhashed(env, hdr, k, i, e);
          return -1, k;
        }
        i := i + 1;
      }
      return 0, k;
    }

    /**
     * load_tftf_header. On a mismatch of sentinel or size the function returns false, which its caller takes for success;
     * otherwise it returns 0 exactly when the loads go through and every check passes.
     */
    method LoadHeader(env: Env) returns (rc: int, ghost e: nat, ghost k: nat)
      requires Shape()
      modifies this, header, link`inbox, link`respondedOp, link`sends, link`offset, link.sh, link.sh.h, link.sh.w
      ensures Valid()
      ensures HeaderRead(old(link.State()), old(header[..]))
      ensures rc == 0 <==> AfterHeader(link.firmwareSize, old(link.State()), header[..]).Some? && Passes(env, header[..])
      ensures rc == 0 ==> AfterHeader(link.firmwareSize, old(link.State()), header[..]) == Some(link.State())
      ensures rc == 0 ==> Took(old(link.inbox), link.inbox, Front(header[..], HeaderLength(header[..])))
      ensures rc == 0 && !Checkable(header[..]) ==> state == Init && !containSignature
      ensures rc == 0 && Checkable(header[..]) ==> HeaderOk(env, header[..], e, k) && (containSignature <==> HasSignature(env, header[..], e))
      ensures rc == 0 && Checkable(header[..]) && k == e ==> state == Init
      ensures rc == 0 && Checkable(header[..]) && k < e ==> state == Hashing && link.sh.fed == Front(header[..], SectionOffset(k))
    {
      hide Represents;
      hide Took;
      hide ValidTable;
      hide Boundary;
      hide HasSignature;
      hide Uncompressed;
      hide Matches;
      hide HeaderSize;
      hide AfterHeader;
      hide LoadRun;
      hide Front;
      hide HeaderLength;
      state, moves, containSignature := Init, [Init], false;
      e, k := 0, 0;
      var proceed;
      rc, proceed := ReadHeader();
      if rc != 0 { return -1, e, k; }
      if proceed {
        var ok;
        ok, e := ValidHeader(env, header[..]);
        if !ok {
          assert forall d: nat, m: nat :: !HeaderOk(env, header[..], d, m);
          return -1, e, k;
        }
        if env.midRc != 0 || env.pidRc != 0 || !Matches(env, header[..]) { return -1, e, k; }
        rc, k := ScanSections(env, e);
        if rc == 0 {
          assert HeaderOk(env, header[..], e, k);
        } else {
          NoOtherEnd(env, header[..], e);
        }
      }
    }

    /** The first 512 bytes of the header buffer are what the first load puts there. */
    ghost predicate HeaderRead(st: LinkState, was: seq<Byte>)
      requires |was| == header.Length
      reads this, link, header
    {
      header.Length >= HEADER_SIZE_MIN &&
      var r := LoadRun(link.firmwareSize, st, was[..HEADER_SIZE_MIN]);
      r.Some? ==> header[..HEADER_SIZE_MIN] == r.value.text
    }

    /** The loads of load_tftf_header, with the sentinel and size tests that go between them. */
    method ReadHeader() returns (rc: int, checked: bool)
      requires Shape()
      modifies header, link`inbox, link`respondedOp, link`sends, link`offset, link.sh, link.sh.h, link.sh.w
      ensures Shape()
      ensures HeaderRead(old(link.State()), old(header[..]))
      ensures rc == 0 <==> AfterHeader(link.firmwareSize, old(link.State()), header[..]).Some?
      ensures rc == 0 ==> AfterHeader(link.firmwareSize, old(link.State()), header[..]) == Some(link.State())
      ensures rc == 0 ==> (checked <==> Checkable(header[..]))
      ensures rc == 0 ==> Took(old(link.inbox), link.inbox, Front(header[..], HeaderLength(header[..])))
    {
      hide Represents;
      hide Took;
      hide Advanced;
      hide LoadRun;
      hide Le32;
      checked := false;
      ghost var r0, was := link.inbox, header[..];
      assert header[0..HEADER_SIZE_MIN] == was[..HEADER_SIZE_MIN];
      rc := link.Load(header, 0, HEADER_SIZE_MIN, false);
      if rc != 0 { return -1, checked; }
      ghost var r1, first, h1 := link.inbox, header[0..HEADER_SIZE_MIN], header[..];
      assert first == header[..HEADER_SIZE_MIN];
      if header[..4] != SENTINEL {
        assert header[..4] == header[..][..4];
        return 0, checked;
      }
      var size := HeaderSize(header[..]);
      if size < HEADER_SIZE_MIN || size > HEADER_SIZE_MAX { return 0, checked; }
      checked := true;
      assert header[..4] == header[..][..4];
      if size != HEADER_SIZE_MIN {
        rc := link.Load(header, HEADER_SIZE_MIN, size - HEADER_SIZE_MIN, false);
        SameSize(h1, header[..]);
        assert header[..4] == header[..][..4] && h1[..4] == SENTINEL;
        assert header[..HEADER_SIZE_MIN] == first;
        if rc != 0 { return -1, checked; }
        TookMore(r0, r1, link.inbox, first, header[HEADER_SIZE_MIN..size]);
        assert first + header[HEADER_SIZE_MIN..size] == header[..size];
      }
    }

    /**
     * load_tftf_image. It returns 0 exactly when header and sections load, the header passes, and the image is verified or
     * carries no signature and needs none. The verdict is 1 only for a checked header and a digest, over exactly the
     * signed bytes, that some signature section confirms.
     */
    method LoadImage(env: Env) returns (rc: int, secure: int, ghost e: nat, ghost k: nat, ghost data: seq<seq<Byte>>)
      requires Shape() && KeysOk(env.keys)
      modifies this, header, hash, signature, link`inbox, link`respondedOp, link`sends, link`offset, link.sh, link.sh.h, link.sh.w
      ensures Valid() && (secure == 0 || secure == 1)
      ensures HeaderRead(old(link.State()), old(header[..]))
      ensures rc == 0 <==> Loads(env, header[..], link.firmwareSize, old(link.State())) && Acceptable(env, header[..], e, state)
      ensures secure == 1 ==> rc == 0 && Checkable(header[..]) && Trusted(env, header[..], e, k, data, hash[..])
      ensures rc == 0 ==> Took(old(link.inbox), link.inbox, Front(header[..], HeaderLength(header[..])) + Flatten(data))
      ensures rc == 0 ==> (secure == 1 <==> Checkable(header[..]) && HasSignature(env, header[..], e))
      ensures rc == 0 && secure == 0 ==> env.untrustedAllowed
    {
      hide Represents;
      hide Took;
      hide Boundary;
      hide HasSignature;
      hide HeaderOk;
      hide SectionAt;
      hide HeaderSize;
      hide KeysOk;
      hide Stepped;
      hide RunState;
      hide Trusted;
      hide Flatten;
      hide Ordered;
      hide Front;
      hide HeaderLength;
      hide Checkable;
      hide Passes;
      hide AfterHeader;
      hide AfterSection;
      hide AfterSections;
      hide LoadRun;
      secure, data := 0, [];
      ghost var st0 := link.State();
      rc, e, k := LoadHeader(env);
      ghost var hdr: Header, r0, fs := header[..], old(link.inbox), link.firmwareSize;
      if rc != 0 { return -1, secure, e, k, data; }
      ghost var front, checked, st1 := Front(hdr, HeaderLength(hdr)), Checkable(hdr), link.State();
      if checked { RunBegins(env, hdr, e, k, Now(), data); }
      assert front + Flatten([]) == front by { NoPieces(); }
      var i := 0;
      while !OutOfRange(header[..], i) && SectionAt(env, header[..], i).kind != SECTION_END
        invariant Valid() && header[..] == hdr && |data| == i && link.firmwareSize == fs
        invariant AfterSections(env, hdr, fs, st1, 0) == AfterSections(env, hdr, fs, link.State(), i)
        invariant Took(r0, link.inbox, front + Flatten(data))
        invariant checked ==> i <= e && RunState(env, hdr, k, e, data, Now())
        invariant !checked ==> state == Init && !containSignature
        invariant containSignature <==> checked && HasSignature(env, hdr, e)
        decreases HeaderSize(hdr) - SectionOffset(i)
      {
        ghost var a, r, st := Now(), link.inbox, link.State();
        ghost var d;
        SectionsStep(env, hdr, fs, st, i);
        rc, d := ProcessSection(env, SectionAt(env, header[..], i));
        if rc != 0 { return -1, secure, e, k, data; }
        if checked {
          NotAtEnd(env, hdr, e, k, i);
          HeaderOkBoundary(env, hdr, e, k);
          RunStep(env, hdr, k, e, data, a, Now(), d);
        } else {
          InitStays(env, SectionAt(env, hdr, i), a, Now(), d);
        }
        TookMore(r0, r, link.inbox, front + Flatten(data), d);
        FlattenSnoc(data, d);
        assert front + Flatten(data) + d == front + Flatten(data + [d]);
        data := data + [d];
        i := i + 1;
      }
      SectionsEnd(env, hdr, fs, link.State(), i);
      if checked {
        AtEnd(env, hdr, e, k, i);
        RunEnds(env, hdr, e, k, data, Now());
      }
      if state == Verified { secure := 1; }
      if state != Verified && containSignature {
        return -1, 0, e, k, data;
      }
      if !containSignature && !env.untrustedAllowed {
        return -1, secure, e, k, data;
      }
      return 0, secure, e, k, data;
    }
  }

  /** Verified, or without a signature where that is allowed. */
  ghost predicate Acceptable(env: Env, hdr: Header, e: nat, state: CryptoState) {
    state == Verified || (!(Checkable(hdr) && HasSignature(env, hdr, e)) && env.untrustedAllowed)
  }

  /** Header and sections load, and the header passes. */
  ghost predicate Loads(env: Env, hdr: Header, firmwareSize: Word, st: LinkState) {
    var r := AfterHeader(firmwareSize, st, hdr);
    r.Some? && Passes(env, hdr) && AfterSections(env, hdr, firmwareSize, r.value, 0).Some?
  }

  lemma DiscardedStep(firmwareSize: Word, st: LinkState, length: nat)
    requires length > 0
    ensures var n := if length > TEMP_BUFFER_SIZE then TEMP_BUFFER_SIZE else length;
      var r := Advanced(firmwareSize, st, n);
      Discarded(firmwareSize, st, length) == if r.None? then None else Discarded(firmwareSize, r.value, length - n)
  {
    hide Advanced;
  }

  lemma DiscardedAll(firmwareSize: Word, st: LinkState)
    ensures Discarded(firmwareSize, st, 0) == Some(st)
  {}

  lemma SectionsStep(env: Env, hdr: Header, firmwareSize: Word, st: LinkState, i: nat)
    requires !OutOfRange(hdr, i) && SectionAt(env, hdr, i).kind != SECTION_END
    ensures var r := AfterSection(firmwareSize, st, SectionAt(env, hdr, i));
      AfterSections(env, hdr, firmwareSize, st, i) == if r.None? then None else AfterSections(env, hdr, firmwareSize, r.value, i + 1)
  {
    hide SectionAt;
    hide AfterSection;
  }

  lemma SectionsEnd(env: Env, hdr: Header, firmwareSize: Word, st: LinkState, i: nat)
    requires OutOfRange(hdr, i) || SectionAt(env, hdr, i).kind == SECTION_END
    ensures AfterSections(env, hdr, firmwareSize, st, i) == Some(st)
  {
    hide SectionAt;
    hide AfterSection;
  }

  /** When the scan refuses the table that ends at e, no other reading of the header is accepted. */
  lemma NoOtherEnd(env: Env, hdr: Header, e: nat)
    requires ValidTable(env, hdr, e)
    requires !Uncompressed(env, hdr, e) || forall m: nat :: !Boundary(env, hdr, m, e)
    ensures forall d: nat, k: nat :: !HeaderOk(env, hdr, d, k)
  {
    hide SectionAt;
    hide Boundary;
    hide Uncompressed;
    forall d: nat, k: nat ensures !HeaderOk(env, hdr, d, k) {
      if ValidTable(env, hdr, d) { EndUnique(env, hdr, d, e); }
    }
  }

  // ----- a run that is not looked at --------------------------------------------------------------

  /** 512 zero bytes in a single answer: no sentinel, no sections, and yet return code 0 when untrusted images are allowed. */
  method AcceptedUnchecked(env: Env) returns (rc: int, secure: int)
    requires env.untrustedAllowed && KeysOk(env.keys)
    ensures rc == 0 && secure == 0
  {
    hide KeysOk;
    hide Represents;
    var zeros: seq<Byte> := seq(HEADER_SIZE_MIN, _ => 0);
    var link := new Link(HEADER_SIZE_MIN, OP_FIRMWARE_SIZE_RESPONSE, [], [Firmware(true, zeros)]);
    var loader := new Loader(link);
    ghost var st, was := link.State(), loader.header[..HEADER_SIZE_MIN];
    OneAnswer(HEADER_SIZE_MIN, st, was, zeros);
    AdvancedIs(HEADER_SIZE_MIN, st, was);
    assert loader.header[..][..HEADER_SIZE_MIN] == was;
    hide LoadRun;
    hide Advanced;
    hide AfterSections;
    ghost var e, k, data;
    rc, secure, e, k, data := loader.LoadImage(env);
    ghost var hdr: Header := loader.header[..];
    assert hdr[..HEADER_SIZE_MIN] == zeros;
    Unlooked(env, hdr, zeros);
    SectionsEnd(env, hdr, HEADER_SIZE_MIN, AfterHeader(HEADER_SIZE_MIN, st, hdr).value, 0);
  }

  /** A load of at most one block, answered at once. */
  lemma OneAnswer(firmwareSize: Word, st: LinkState, was: seq<Byte>, answer: seq<Byte>)
    requires st.offset == 0 && st.sends == [] && st.inbox == [Firmware(true, answer)]
    requires 0 < |was| == |answer| <= GB_MAX_PAYLOAD_SIZE && |was| <= firmwareSize
    ensures LoadRun(firmwareSize, st, was).Some? && LoadRun(firmwareSize, st, was).value.text == answer
  {
    assert was[..|was|] == was && was[|was|..] == [];
    var r := Request(st, was);
    assert r.Some? && r.value.text == answer;
    assert Run(r.value.st, []) == Some(Loaded(r.value.st, []));
    assert answer + [] == answer;
  }

  lemma Unlooked(env: Env, hdr: Header, zeros: seq<Byte>)
    requires |zeros| == HEADER_SIZE_MIN && hdr[..HEADER_SIZE_MIN] == zeros && forall i :: 0 <= i < HEADER_SIZE_MIN ==> zeros[i] == 0
    ensures !Checkable(hdr) && OutOfRange(hdr, 0)
  {
    assert forall i :: 0 <= i < HEADER_SIZE_MIN ==> hdr[i] == hdr[..HEADER_SIZE_MIN][i];
    assert hdr[0] != SENTINEL[0];
    Le32Value(hdr, 4);
  }

  lemma HashedAfterUnhashed(env: Env, hdr: Header, k: nat, i: nat, e: nat)
    requires k < i < e && !IsHashed(SectionAt(env, hdr, k).kind) && IsHashed(SectionAt(env, hdr, i).kind)
    ensures forall m: nat :: !Boundary(env, hdr, m, e)
  {
    hide SectionAt;
    forall m: nat ensures !Boundary(env, hdr, m, e) {
      if k < m { assert !Boundary(env, hdr, m, e); }
    }
  }

  lemma SizeBounds(hdr: Header)
    requires HeaderSize(hdr) <= HEADER_SIZE_MAX
    ensures forall i: nat :: !OutOfRange(hdr, i) ==> SectionOffset(i) <= HEADER_SIZE_MAX
  {}

  lemma OkIsKnown(env: Env, hdr: Header, i: nat)
    requires SectionOk(env, hdr, i)
    ensures KnownType(SectionAt(env, hdr, i).kind)
  {}

  lemma MoreSignatures(env: Env, hdr: Header, i: nat)
    ensures HasSignature(env, hdr, i + 1) <==> HasSignature(env, hdr, i) || SectionAt(env, hdr, i).kind == SECTION_SIGNATURE
  {}

  const SENTINEL: seq<Byte> := [0x54, 0x46, 0x54, 0x46]

  /** The image is for this chip; a zero field matches any. */
  predicate Matches(env: Env, hdr: Header) {
    Wild(Le32(hdr, 80), env.mid) && Wild(Le32(hdr, 84), env.pid) && Wild(Le32(hdr, 88), env.araVid) && Wild(Le32(hdr, 92), env.araPid)
  }

  predicate Wild(field: Word, chip: Word) { field == 0 || field == chip }

  /** What a fully checked header satisfies. */
  ghost predicate HeaderOk(env: Env, hdr: Header, e: nat, k: nat) {
    hdr[..4] == SENTINEL && HEADER_SIZE_MIN <= HeaderSize(hdr) <= HEADER_SIZE_MAX && Matches(env, hdr) &&
    ValidTable(env, hdr, e) && Boundary(env, hdr, k, e) && Uncompressed(env, hdr, e)
  }

  lemma SameSize(a: Header, b: Header)
    requires forall i :: 0 <= i < HEADER_SIZE_MIN ==> a[i] == b[i]
    ensures HeaderSize(a) == HeaderSize(b) && a[..4] == b[..4]
  {
    Le32Copied(a, b, 4);
  }

  /** A digest of exactly the signed bytes, confirmed by a signature section with a known key. */
  ghost predicate Trusted(env: Env, hdr: Header, e: nat, k: nat, data: seq<seq<Byte>>, digest: seq<Byte>)
    requires KeysOk(env.keys)
  {
    HeaderOk(env, hdr, e, k) && k < e == |data| &&
    (forall j :: 0 <= j < k ==> |data[j]| == SectionAt(env, hdr, j).length) &&
    digest == Digest(SignedBytes(hdr, k, data)) &&
    exists j :: k <= j < e && Confirms(env, hdr, data, j, digest)
  }

  lemma NoPieces()
    ensures Flatten([]) == []
  {}

  lemma RunBegins(env: Env, hdr: Header, e: nat, k: nat, a: Snap, data: seq<seq<Byte>>)
    requires KeysOk(env.keys) && HeaderOk(env, hdr, e, k) && data == []
    requires (k == e ==> a.state == Init) && (k < e ==> a.state == Hashing && a.fed == Front(hdr, SectionOffset(k)))
    ensures RunState(env, hdr, k, e, data, a)
  {
    hide SectionAt;
    NoPieces();
  }

  lemma HeaderOkBoundary(env: Env, hdr: Header, e: nat, k: nat)
    requires HeaderOk(env, hdr, e, k)
    ensures Boundary(env, hdr, k, e)
  {}

  lemma NotAtEnd(env: Env, hdr: Header, e: nat, k: nat, i: nat)
    requires HeaderOk(env, hdr, e, k) && i <= e && SectionAt(env, hdr, i).kind != SECTION_END
    ensures i < e
  {}

  lemma AtEnd(env: Env, hdr: Header, e: nat, k: nat, i: nat)
    requires HeaderOk(env, hdr, e, k) && i <= e && (OutOfRange(hdr, i) || SectionAt(env, hdr, i).kind == SECTION_END)
    ensures i == e
  {
    hide SectionAt;
  }

  lemma InitStays(env: Env, s: Section, a: Snap, b: Snap, d: seq<Byte>)
    requires KeysOk(env.keys) && a.state == Init && Stepped(env, s, a, b, d)
    ensures b.state == Init
  {}

  /** What the account of a finished run says. */
  lemma RunEnds(env: Env, hdr: Header, e: nat, k: nat, data: seq<seq<Byte>>, a: Snap)
    requires KeysOk(env.keys) && HeaderOk(env, hdr, e, k) && |data| == e && RunState(env, hdr, k, e, data, a)
    ensures a.state == Verified ==> Trusted(env, hdr, e, k, data, a.hash) && HasSignature(env, hdr, e)
  {
    hide SectionAt;
    hide Accepted;
    hide KeysOk;
    if a.state == Verified {
      var j :| k <= j < e && Confirms(env, hdr, data, j, a.hash);
      assert SectionAt(env, hdr, j).kind == SECTION_SIGNATURE;
      forall m | 0 <= m < k ensures |data[m]| == SectionAt(env, hdr, m).length {
        assert IsHashed(SectionAt(env, hdr, m).kind);
      }
    }
  }
}
