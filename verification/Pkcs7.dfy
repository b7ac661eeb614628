/**
 * Certificates, signed-info blocks and trusted keys of a PKCS#7 message
 * (compat/verification).  Certificates are named by their position in the
 * message's list.  Looking a key up in the keyring and checking a signature
 * are left abstract.
 */
module Pkcs7 {
  import opened Wrappers

  const ENOMEM := -12
  const ENOPKG := -65
  const ENOKEY := -126
  const EKEYREJECTED := -129

  type KeyId = string
  type Key = nat

  /** struct public_key_signature: the two identifiers of the signing authority and the data. */
  datatype Signature = Signature(auth0: Option<KeyId>, auth1: Option<KeyId>, data: string)

  /** The fields of struct x509_certificate that never change here. */
  datatype Cert = Cert(
    id: KeyId,
    skid: Option<KeyId>,
    pub: Key,
    sig: Signature,
    selfSigned: bool,
    unsupportedSig: bool)

  /** An error pointer carries a negative number. */
  datatype Lookup = Found(key: Key) | Missing(err: int)

  /** find_asymmetric_key on the trusted keys, and verify_signature. */
  datatype Keyring = Keyring(
    find: (Option<KeyId>, Option<KeyId>) -> Lookup,
    verify: (Key, Signature) -> int)

  /** asymmetric_key_id_same: a missing identifier is like no other. */
  predicate SameId(a: Option<KeyId>, b: Option<KeyId>) {
    a.Some? && b.Some? && a.value == b.value
  }

  /** How many certificates are not marked as seen. */
  function Unseen(seen: seq<bool>): nat {
    if seen == [] then 0 else (if seen[0] then 0 else 1) + Unseen(seen[1..])
  }

  lemma {:induction false} UnseenDrops(seen: seq<bool>, c: nat)
    requires c < |seen| && !seen[c]
    ensures Unseen(seen[c := true]) == Unseen(seen) - 1
  {
    if c == 0 {
      assert seen[c := true][1..] == seen[1..];
    } else {
      UnseenDrops(seen[1..], c - 1);
      assert seen[c := true][1..] == seen[1..][c - 1 := true];
    }
  }
}
