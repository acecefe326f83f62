/** Loading a TFTF image: the crypto state machine from the header scan to the trust verdict. */
module Tftf {
  import opened Words
  import opened Sha256
  import opened TftfHeader
  import opened SignatureCheck

  datatype CryptoState = Init | Hashing | Hashed | Verified

  const ORDER: seq<CryptoState> := [Init, Hashing, Hashed, Verified]

  /** The states entered so far are a beginning of INIT, HASHING, HASHED, VERIFIED, up to the present one. */
  ghost predicate Ordered(moves: seq<CryptoState>, state: CryptoState) {
    0 < |moves| <= 4 && moves == ORDER[..|moves|] && state == moves[|moves| - 1]
  }

  lemma Advance(moves: seq<CryptoState>, state: CryptoState, next: CryptoState)
    requires Ordered(moves, state)
    requires (state == Init && next == Hashing) || (state == Hashing && next == Hashed) || (state == Hashed && next == Verified)
    ensures Ordered(moves + [next], next)
  {}

  // ----- the header scan ---------------------------------------------------------------------

  /** Hashed sections first: the first unhashed one is k, and none of those up to the end marker e is hashed. */
  ghost predicate Boundary(env: Env, hdr: Header, k: nat, e: nat) {
    k <= e && (forall i :: 0 <= i < k ==> IsHashed(SectionAt(env, hdr, i).kind)) &&
    forall i :: k <= i < e ==> !IsHashed(SectionAt(env, hdr, i).kind)
  }

  ghost predicate HasSignature(env: Env, hdr: Header, e: nat) {
    exists i :: 0 <= i < e && SectionAt(env, hdr, i).kind == SECTION_SIGNATURE
  }

  ghost predicate Uncompressed(env: Env, hdr: Header, e: nat) {
    forall i :: 0 <= i < e ==> SectionAt(env, hdr, i).kind != SECTION_COMPRESSED_CODE && SectionAt(env, hdr, i).kind != SECTION_COMPRESSED_DATA
  }

  // ----- one section ------------------------------------------------------------------------------

  /** The part of the state that decides trust. */
  datatype Snap = Snap(state: CryptoState, fed: seq<Byte>, hash: seq<Byte>)

  /** The digest is taken when the first unhashed section is met. */
  ghost function Closed(s: Section, a: Snap): Snap {
    if !IsHashed(s.kind) && a.state == Hashing then Snap(Hashed, [], Digest(a.fed)) else a
  }

  /** What processing section s with contents data does. */
  ghost predicate Stepped(env: Env, s: Section, a: Snap, b: Snap, data: seq<Byte>)
    requires KeysOk(env.keys)
  {
    var c := Closed(s, a);
    if s.kind == SECTION_SIGNATURE then
      |data| == SIGNATURE_BLOCK &&
      b == (if c.state == Hashed && Accepted(env.keys, c.hash, data) then c.(state := Verified) else c)
    else
      |data| == s.length && b == (if c.state == Hashing then c.(fed := c.fed + data) else c)
  }

  // ----- whole runs --------------------------------------------------------------------------------

  /** Section j is a signature over the digest. */
  ghost predicate Confirms(env: Env, hdr: Header, data: seq<seq<Byte>>, j: nat, digest: seq<Byte>)
    requires KeysOk(env.keys) && j < |data|
  {
    SectionAt(env, hdr, j).kind == SECTION_SIGNATURE && |data[j]| == SIGNATURE_BLOCK && Accepted(env.keys, digest, data[j])
  }

  /** The header up to its first unhashed descriptor, then the contents of the hashed sections in table order. */
  ghost function SignedBytes(hdr: Header, k: nat, data: seq<seq<Byte>>): seq<Byte>
    requires k <= |data|
  {
    Front(hdr, SectionOffset(k)) + Flatten(data[..k])
  }

  ghost function Front(hdr: Header, n: nat): seq<Byte> { if n <= |hdr| then hdr[..n] else hdr }

  /** After the first i sections, whose contents are data. */
  ghost predicate RunState(env: Env, hdr: Header, k: nat, e: nat, data: seq<seq<Byte>>, a: Snap)
    requires KeysOk(env.keys)
  {
    var i := |data|;
    i <= e &&
    (forall j :: 0 <= j < i && SectionAt(env, hdr, j).kind != SECTION_SIGNATURE ==> |data[j]| == SectionAt(env, hdr, j).length) &&
    if k == e then a.state == Init
    else if i <= k then a.state == Hashing && a.fed == Front(hdr, SectionOffset(k)) + Flatten(data)
    else
      a.hash == Digest(SignedBytes(hdr, k, data)) &&
      (a.state == Hashed || a.state == Verified) &&
      (a.state == Verified <==> exists j :: k <= j < i && Confirms(env, hdr, data, j, a.hash))
  }

  lemma FlattenSnoc(data: seq<seq<Byte>>, d: seq<Byte>)
    ensures Flatten(data + [d]) == Flatten(data) + d
  {
    assert (data + [d])[..|data|] == data;
  }

  /** Processing one more section keeps the account of the run. */
  lemma RunStep(env: Env, hdr: Header, k: nat, e: nat, data: seq<seq<Byte>>, a: Snap, b: Snap, d: seq<Byte>)
    requires KeysOk(env.keys) && Boundary(env, hdr, k, e) && |data| < e && RunState(env, hdr, k, e, data, a)
    requires Stepped(env, SectionAt(env, hdr, |data|), a, b, d)
    ensures RunState(env, hdr, k, e, data + [d], b)
  {
    hide SectionAt;
    hide Accepted;
    hide KeysOk;
    hide Digest;
    hide Flatten;
    hide Front;
    var i, data' := |data|, data + [d];
    forall j | 0 <= j <= i && SectionAt(env, hdr, j).kind != SECTION_SIGNATURE ensures |data'[j]| == SectionAt(env, hdr, j).length {
      if j < i { assert data'[j] == data[j]; }
    }
    if k < e && i < k {
      FlattenSnoc(data, d);
      assert IsHashed(SectionAt(env, hdr, i).kind);
    } else if k < e {
      assert !IsHashed(SectionAt(env, hdr, i).kind);
      UnhashedStep(env, hdr, k, e, data, a, b, d);
    }
  }

  lemma UnhashedStep(env: Env, hdr: Header, k: nat, e: nat, data: seq<seq<Byte>>, a: Snap, b: Snap, d: seq<Byte>)
    requires KeysOk(env.keys) && k <= |data| < e && RunState(env, hdr, k, e, data, a)
    requires !IsHashed(SectionAt(env, hdr, |data|).kind) && Stepped(env, SectionAt(env, hdr, |data|), a, b, d)
    ensures b.hash == Digest(SignedBytes(hdr, k, data + [d])) && (b.state == Hashed || b.state == Verified)
    ensures b.state == Verified <==> exists j :: k <= j < |data| + 1 && Confirms(env, hdr, data + [d], j, b.hash)
  {
    hide SectionAt;
    hide Accepted;
    hide KeysOk;
    hide Digest;
    hide Flatten;
    hide Front;
    var i, data' := |data|, data + [d];
    assert data'[..k] == data[..k];
    if i == k { assert data[..k] == data; }
    var c := Closed(SectionAt(env, hdr, i), a);
    assert c.hash == b.hash == Digest(SignedBytes(hdr, k, data'));
    forall j | 0 <= j < i ensures Confirms(env, hdr, data', j, c.hash) <==> Confirms(env, hdr, data, j, c.hash) {
      assert data'[j] == data[j];
    }
    assert data'[i] == d;
    assert b.state == Verified <==> (c.state == Verified || Confirms(env, hdr, data', i, c.hash));
    assert c.state == Verified <==> exists j :: k <= j < i && Confirms(env, hdr, data, j, c.hash);
    if c.state == Verified {
      var j :| k <= j < i && Confirms(env, hdr, data, j, c.hash);
      assert Confirms(env, hdr, data', j, c.hash);
    }
  }
}
