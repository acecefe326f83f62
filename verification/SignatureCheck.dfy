/** verify_signature: finding the key by type and name, then the RSA check. */
module SignatureCheck {
  import opened Arith
  import opened RsaVerify
  import opened Words
  import opened TftfHeader

  const SIGNATURE_BLOCK: nat := 360
  const KEY_NAME_SIZE: nat := 96

  function SignatureKind(sig: seq<Byte>): Word
    requires |sig| == SIGNATURE_BLOCK
  {
    Le32(sig, 4)
  }

  function KeyName(sig: seq<Byte>): seq<Byte>
    requires |sig| == SIGNATURE_BLOCK
  {
    sig[8..104]
  }

  /** strncmp(a, b, |a|) == 0. */
  function SameName(a: seq<Byte>, b: seq<Byte>): bool
    requires |a| == |b|
  {
    |a| == 0 || (a[0] == b[0] && (a[0] == 0 || SameName(a[1..], b[1..])))
  }

  /** Names match when they agree up to and including the first NUL, or entirely. */
  lemma {:induction false} SameNameMeans(a: seq<Byte>, b: seq<Byte>)
    requires |a| == |b|
    ensures SameName(a, b) <==> forall i :: 0 <= i < |a| && (forall j :: 0 <= j < i ==> a[j] != 0) ==> a[i] == b[i]
    decreases |a|
  {
    if |a| > 0 {
      SameNameMeans(a[1..], b[1..]);
      if SameName(a, b) {
        forall i | 0 <= i < |a| && (forall j :: 0 <= j < i ==> a[j] != 0) ensures a[i] == b[i] {
          if i > 0 {
            assert forall j :: 0 <= j < i - 1 ==> a[1..][j] == a[j + 1];
            assert a[1..][i - 1] == b[1..][i - 1];
          }
        }
      } else if a[0] == b[0] && a[0] != 0 {
        var i :| 0 <= i < |a| - 1 && (forall j :: 0 <= j < i ==> a[1..][j] != 0) && a[1..][i] != b[1..][i];
        assert forall j :: 1 <= j < i + 1 ==> a[j] == a[1..][j - 1];
        assert a[i + 1] != b[i + 1];
      }
    }
  }

  ghost predicate KeyOk(key: Key) {
    |key.name| == KEY_NAME_SIZE && |key.modulus| == RSABYTES && OS2IP(key.modulus) >= Pow(Pow(256, REGBYTES), MODSIZE - 1)
  }

  /** The key table holds 96-byte names and 2048-bit moduli. */
  ghost predicate KeysOk(keys: seq<Key>) {
    forall k :: 0 <= k < |keys| ==> KeyOk(keys[k])
  }

  predicate Usable(key: Key, kind: Word, name: seq<Byte>)
    requires |key.name| == |name|
  {
    !key.revoked && key.kind == kind && SameName(key.name, name)
  }

  /** k is the key that find_public_key picks for the signature block. */
  ghost predicate Picked(keys: seq<Key>, sig: seq<Byte>, k: nat)
    requires KeysOk(keys) && |sig| == SIGNATURE_BLOCK
  {
    k < |keys| && Usable(keys[k], SignatureKind(sig), KeyName(sig)) &&
    forall j :: 0 <= j < k ==> !Usable(keys[j], SignatureKind(sig), KeyName(sig))
  }

  /** find_public_key. */
  method FindPublicKey(keys: seq<Key>, sig: seq<Byte>) returns (found: bool, k: nat)
    requires KeysOk(keys) && |sig| == SIGNATURE_BLOCK
    ensures found ==> Picked(keys, sig, k)
    ensures !found ==> forall j :: 0 <= j < |keys| ==> !Usable(keys[j], SignatureKind(sig), KeyName(sig))
  {
    hide OS2IP;
    hide Pow;
    k := 0;
    while k < |keys|
      invariant 0 <= k <= |keys| && forall j :: 0 <= j < k ==> !Usable(keys[j], SignatureKind(sig), KeyName(sig))
    {
      if !keys[k].revoked && keys[k].kind == SignatureKind(sig) && SameName(keys[k].name, KeyName(sig)) {
        return true, k;
      }
      k := k + 1;
    }
    return false, k;
  }

  /** The signature, raised to 65537 modulo the key, is the PKCS#1 v1.5 encoding of the digest. */
  ghost predicate Signs(modulus: seq<Byte>, signature: seq<Byte>, digest: seq<Byte>) {
    OS2IP(modulus) > 0 && Pow(OS2IP(signature), EXPON) % OS2IP(modulus) == OS2IP(Encode(digest, RSABYTES))
  }

  ghost predicate Accepted(keys: seq<Key>, digest: seq<Byte>, sig: seq<Byte>)
    requires KeysOk(keys) && |sig| == SIGNATURE_BLOCK
  {
    exists k: nat :: Picked(keys, sig, k) && Signs(keys[k].modulus, sig[104..], digest)
  }

  /** verify_signature. */
  method VerifySignature(keys: seq<Key>, digest: seq<Byte>, sig: seq<Byte>) returns (ret: int)
    requires KeysOk(keys) && |sig| == SIGNATURE_BLOCK && |digest| == 32
    ensures ret == 0 <==> Accepted(keys, digest, sig)
  {
    hide OS2IP;
    hide Pow;
    hide Encode;
    hide Usable;
    var found, k := FindPublicKey(keys, sig);
    if !found {
      assert forall j: nat :: !Picked(keys, sig, j);
      return -1;
    }
    var n, s := new int[MODSIZE](_ => 0), new int[MODSIZE](_ => 0);
    WordBase();
    var r := Verify(digest, keys[k].modulus, sig[104..], n, s);
    assert r == 1 <==> Signs(keys[k].modulus, sig[104..], digest);
    assert Signs(keys[k].modulus, sig[104..], digest) ==> Accepted(keys, digest, sig);
    forall j: nat | Picked(keys, sig, j) ensures j == k {}
    ret := if r != 0 then 0 else -1;
  }
}
