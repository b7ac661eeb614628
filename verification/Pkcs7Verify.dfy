/**
 * The certificate chain inside a PKCS#7 message
 * (compat/verification/pkcs7_verify.c): finding the signer of a block and
 * linking every certificate to an issuer whose key verifies it.
 */
module Pkcs7Verify {
  import opened Wrappers
  import opened Pkcs7
  import Trust = Pkcs7Trust

  /** public_key_verify_signature: negative for a bad signature. */
  type VerifyFn = (Key, Signature) -> int

  /** The first certificate whose identifier is auth. */
  function FirstById(certs: seq<Cert>, auth: Option<KeyId>): (r: Option<nat>)
    ensures r.Some? ==> r.value < |certs| && SameId(Some(certs[r.value].id), auth)
    ensures r.Some? ==> forall k | 0 <= k < r.value :: !SameId(Some(certs[k].id), auth)
    ensures r.None? ==> forall k | 0 <= k < |certs| :: !SameId(Some(certs[k].id), auth)
  {
    if certs == [] then None
    else if SameId(Some(certs[0].id), auth) then Some(0)
    else
      var r := FirstById(certs[1..], auth);
      assert forall k | 1 <= k < |certs| :: certs[k] == certs[1..][k - 1];
      if r.None? then None else Some(r.value + 1)
  }

  /** The first certificate whose subject key identifier is auth. */
  function FirstBySkid(certs: seq<Cert>, auth: Option<KeyId>): (r: Option<nat>)
    ensures r.Some? ==> r.value < |certs| && SameId(certs[r.value].skid, auth)
    ensures r.Some? ==> forall k | 0 <= k < r.value :: !SameId(certs[k].skid, auth)
    ensures r.None? ==> forall k | 0 <= k < |certs| :: !SameId(certs[k].skid, auth)
  {
    if certs == [] then None
    else if SameId(certs[0].skid, auth) then Some(0)
    else
      var r := FirstBySkid(certs[1..], auth);
      assert forall k | 1 <= k < |certs| :: certs[k] == certs[1..][k - 1];
      if r.None? then None else Some(r.value + 1)
  }

  /** The issuer named by a certificate's authority identifiers. */
  function IssuerOf(certs: seq<Cert>, c: nat): (r: Option<nat>)
    requires c < |certs|
    ensures r.Some? ==> r.value < |certs|
  {
    var sig := certs[c].sig;
    if sig.auth0.Some? then FirstById(certs, sig.auth0)
    else if sig.auth1.Some? then FirstBySkid(certs, sig.auth1)
    else None
  }

  /** Matched by issuer and serial number, but the key identifiers disagree. */
  predicate SkidMismatch(certs: seq<Cert>, c: nat, p: nat)
    requires c < |certs| && p < |certs|
  {
    var sig := certs[c].sig;
    sig.auth0.Some? && sig.auth1.Some? && !SameId(certs[p].skid, sig.auth1)
  }

  /** The authority identifiers of c fit certificate p: by issuer and serial number if given, else by key identifier. */
  ghost predicate Names(certs: seq<Cert>, c: nat, p: nat)
    requires c < |certs| && p < |certs|
  {
    var sig := certs[c].sig;
    if sig.auth0.Some? then certs[p].id == sig.auth0.value
    else sig.auth1.Some? && certs[p].skid == sig.auth1
  }

  /** The issuer of c is the first certificate of the message that fits. */
  ghost predicate Issues(certs: seq<Cert>, c: nat, p: nat)
    requires c < |certs|
  {
    p < |certs| && Names(certs, c, p) && forall k | 0 <= k < p :: !Names(certs, c, k)
  }

  /** A key identifier given along with issuer and serial number is that of p too. */
  ghost predicate KeyIdAgrees(certs: seq<Cert>, c: nat, p: nat)
    requires c < |certs| && p < |certs|
  {
    var sig := certs[c].sig;
    sig.auth0.Some? && sig.auth1.Some? ==> certs[p].skid == sig.auth1
  }

  lemma IssuerOfExact(certs: seq<Cert>, c: nat)
    requires c < |certs|
    ensures forall p: nat :: IssuerOf(certs, c) == Some(p) <==> Issues(certs, c, p)
    ensures IssuerOf(certs, c).None? <==> forall p | 0 <= p < |certs| :: !Names(certs, c, p)
    ensures forall p | 0 <= p < |certs| :: SkidMismatch(certs, c, p) <==> !KeyIdAgrees(certs, c, p)
  {
    hide FirstById, FirstBySkid;
    var sig := certs[c].sig;
    assert sig.auth0.Some? ==> forall p | 0 <= p < |certs| :: Names(certs, c, p) <==> SameId(Some(certs[p].id), sig.auth0);
    assert sig.auth0.None? && sig.auth1.Some? ==>
      forall p | 0 <= p < |certs| :: Names(certs, c, p) <==> SameId(certs[p].skid, sig.auth1);
  }

  /** A signer link the message itself proves. */
  predicate VerifiedLink(certs: seq<Cert>, verify: VerifyFn, c: nat, p: nat)
    requires c < |certs| && p < |certs|
  {
    if c == p then certs[c].selfSigned && !certs[c].unsupportedSig
    else IssuerOf(certs, c) == Some(p) && !SkidMismatch(certs, c, p) && verify(certs[p].pub, certs[c].sig) >= 0
  }

  /** The chain goes on to p, or stops with a result and perhaps a link to itself. */
  datatype Move = To(p: nat) | Stop(ret: int, selfLink: bool)

  function MoveFrom(certs: seq<Cert>, verify: VerifyFn, blacklisted: seq<bool>, path: seq<nat>, c: nat): (m: Move)
    requires c < |certs| == |blacklisted|
    ensures m.To? ==> m.p < |certs| && m.p !in path
  {
    if blacklisted[c] then Stop(0, false)
    else if certs[c].selfSigned then Stop(0, !certs[c].unsupportedSig)
    else
      match IssuerOf(certs, c)
      case None => Stop(0, false)
      case Some(p) =>
        if SkidMismatch(certs, c, p) then Stop(EKEYREJECTED, false)
        else if p in path then Stop(0, false)
        else if verify(certs[p].pub, certs[c].sig) < 0 then Stop(verify(certs[p].pub, certs[c].sig), false)
        else To(p)
  }

  /** path is the part of the chain from its first certificate on that was walked. */
  ghost predicate Climbed(certs: seq<Cert>, verify: VerifyFn, blacklisted: seq<bool>, path: seq<nat>)
    requires |blacklisted| == |certs|
  {
    && path != []
    && (forall k | 0 <= k < |path| :: path[k] < |certs|)
    && (forall k | 0 < k < |path| ::
          MoveFrom(certs, verify, blacklisted, path[..k], path[k - 1]) == To(path[k]))
  }

  lemma ClimbOn(certs: seq<Cert>, verify: VerifyFn, blacklisted: seq<bool>, path: seq<nat>, p: nat)
    requires |blacklisted| == |certs| && Climbed(certs, verify, blacklisted, path)
    requires MoveFrom(certs, verify, blacklisted, path, path[|path| - 1]) == To(p)
    ensures Climbed(certs, verify, blacklisted, path + [p])
    ensures p !in path && p < |certs|
  {
    var q := path + [p];
    forall k | 0 < k < |q|
      ensures MoveFrom(certs, verify, blacklisted, q[..k], q[k - 1]) == To(q[k])
    {
      assert q[..k] == path[..k];
      if k == |path| {
        assert path[..k] == path;
      }
    }
  }

  lemma {:induction false} ClimbedDistinct(certs: seq<Cert>, verify: VerifyFn, blacklisted: seq<bool>, path: seq<nat>, j: nat, k: nat)
    requires |blacklisted| == |certs| && Climbed(certs, verify, blacklisted, path) && j < k < |path|
    ensures path[j] != path[k]
  {
    assert MoveFrom(certs, verify, blacklisted, path[..k], path[k - 1]) == To(path[k]);
    assert path[j] == path[..k][j];
  }

  /** Every step of the path goes to the issuer, which agrees, is new on the path and verifies the signature. */
  ghost predicate ClimbSteps(certs: seq<Cert>, verify: VerifyFn, blacklisted: seq<bool>, path: seq<nat>)
    requires |blacklisted| == |certs| && forall k | 0 <= k < |path| :: path[k] < |certs|
  {
    forall k | 0 < k < |path| ::
      var c, p := path[k - 1], path[k];
      && !blacklisted[c] && !certs[c].selfSigned
      && Issues(certs, c, p) && KeyIdAgrees(certs, c, p) && p !in path[..k]
      && verify(certs[p].pub, certs[c].sig) >= 0
  }

  /**
   * Why the climb is over: nothing to object to at a blacklisted certificate,
   * a root, a certificate without an issuer here or a loop; else the key
   * identifiers disagree, or the signature is bad.
   */
  ghost predicate ClimbResult(certs: seq<Cert>, verify: VerifyFn, blacklisted: seq<bool>, path: seq<nat>, ret: int)
    requires |blacklisted| == |certs| && path != [] && path[|path| - 1] < |certs|
  {
    var last := path[|path| - 1];
    var ends := blacklisted[last] || certs[last].selfSigned || forall p | 0 <= p < |certs| :: !Names(certs, last, p);
    && (ret == 0 <==> ends || exists p | 0 <= p < |certs| :: Issues(certs, last, p) && KeyIdAgrees(certs, last, p) && p in path)
    && (!ends ==> forall p | 0 <= p < |certs| && Issues(certs, last, p) ::
          && (!KeyIdAgrees(certs, last, p) ==> ret == EKEYREJECTED)
          && (KeyIdAgrees(certs, last, p) && p !in path ==> ret < 0 && ret == verify(certs[p].pub, certs[last].sig)))
  }

  /** The certificate at the end of a climb is linked to itself: a root whose signature can be checked. */
  predicate EndsInRoot(certs: seq<Cert>, blacklisted: seq<bool>, c: nat)
    requires c < |certs| == |blacklisted|
  {
    !blacklisted[c] && certs[c].selfSigned && !certs[c].unsupportedSig
  }

  lemma ClimbExplained(certs: seq<Cert>, verify: VerifyFn, blacklisted: seq<bool>, path: seq<nat>)
    requires |blacklisted| == |certs| && Climbed(certs, verify, blacklisted, path)
    ensures ClimbSteps(certs, verify, blacklisted, path)
  {
    hide IssuerOf, SkidMismatch, Issues, KeyIdAgrees;
    forall k | 0 < k < |path|
      ensures var c, p := path[k - 1], path[k];
        && !blacklisted[c] && !certs[c].selfSigned
        && Issues(certs, c, p) && KeyIdAgrees(certs, c, p) && p !in path[..k]
        && verify(certs[p].pub, certs[c].sig) >= 0
    {
      IssuerOfExact(certs, path[k - 1]);
      assert MoveFrom(certs, verify, blacklisted, path[..k], path[k - 1]) == To(path[k]);
    }
  }

  lemma StopExplained(certs: seq<Cert>, verify: VerifyFn, blacklisted: seq<bool>, path: seq<nat>)
    requires |blacklisted| == |certs| && path != [] && path[|path| - 1] < |certs|
    ensures var last := path[|path| - 1];
      var m := MoveFrom(certs, verify, blacklisted, path, last);
      m.Stop? ==> ClimbResult(certs, verify, blacklisted, path, m.ret) && m.selfLink == EndsInRoot(certs, blacklisted, last)
  {
    hide IssuerOf, SkidMismatch, Names, KeyIdAgrees;
    var last := path[|path| - 1];
    IssuerOfExact(certs, last);
    if IssuerOf(certs, last).Some? {
      assert Issues(certs, last, IssuerOf(certs, last).value);
    }
  }

  /** The links of a walked path, put over the earlier ones. */
  ghost predicate LinkedAlong(before: seq<Option<nat>>, now: seq<Option<nat>>, path: seq<nat>)
    requires path != []
  {
    && |now| == |before|
    && (forall k | 0 <= k < |path| - 1 :: path[k] < |now| && now[path[k]] == Some(path[k + 1]))
    && (forall c | 0 <= c < |now| && c !in path[..|path| - 1] :: now[c] == before[c])
  }

  ghost predicate AllVerified(certs: seq<Cert>, verify: VerifyFn, signer: seq<Option<nat>>) {
    && |signer| == |certs|
    && forall c | 0 <= c < |signer| && signer[c].Some? ::
         signer[c].value < |certs| && VerifiedLink(certs, verify, c, signer[c].value)
  }

  lemma LinkVerified(certs: seq<Cert>, verify: VerifyFn, blacklisted: seq<bool>, signer: seq<Option<nat>>, path: seq<nat>, c: nat)
    requires c < |certs| == |blacklisted| && AllVerified(certs, verify, signer) && c in path
    ensures var m := MoveFrom(certs, verify, blacklisted, path, c);
      && (m.To? ==> AllVerified(certs, verify, signer[c := Some(m.p)]))
      && (m.Stop? && m.selfLink ==> AllVerified(certs, verify, signer[c := Some(c)]))
  {
    hide IssuerOf, SkidMismatch;
  }

  lemma LinkAppends(before: seq<Option<nat>>, now: seq<Option<nat>>, path: seq<nat>, p: nat)
    requires path != [] && LinkedAlong(before, now, path) && path[|path| - 1] < |now|
    requires forall j, k | 0 <= j < k < |path| :: path[j] != path[k]
    ensures LinkedAlong(before, now[path[|path| - 1] := Some(p)], path + [p])
  {
    var c, q := path[|path| - 1], path + [p];
    var next := now[c := Some(p)];
    assert q[..|q| - 1] == path;
    forall k | 0 <= k < |q| - 1 ensures q[k] < |next| && next[q[k]] == Some(q[k + 1]) {
      if k < |path| - 1 {
        assert path[k] != c;
      }
    }
    forall d | 0 <= d < |next| && d !in path ensures next[d] == before[d] {
      assert d !in path[..|path| - 1];
      assert c in path;
    }
  }

  /** The mutable fields of the certificates and blocks of one message. */
  class ChainCheck {
    const certs: seq<Cert>
    const verify: VerifyFn
    const sigs: seq<Signature>
    var seen: seq<bool>
    var blacklisted: seq<bool>
    var signer: seq<Option<nat>>
    var infoSigner: seq<Option<nat>>
    var infoBlacklisted: seq<bool>

    constructor (certs: seq<Cert>, verify: VerifyFn, sigs: seq<Signature>, blacklisted: seq<bool>)
      requires |blacklisted| == |certs|
      ensures this.certs == certs && this.verify == verify && this.sigs == sigs
      ensures Valid() && this.blacklisted == blacklisted
      ensures forall c | 0 <= c < |certs| :: signer[c].None?
    {
      this.certs, this.verify, this.sigs, this.blacklisted := certs, verify, sigs, blacklisted;
      seen := seq(|certs|, _ => false);
      signer := seq(|certs|, _ => None);
      infoSigner := seq(|sigs|, _ => None);
      infoBlacklisted := seq(|sigs|, _ => false);
    }

    /** Every signer link of the message is verified. */
    ghost predicate Valid()
      reads this
    {
      && |seen| == |blacklisted| == |signer| == |certs|
      && AllVerified(certs, verify, signer)
      && |infoSigner| == |infoBlacklisted| == |sigs|
      && forall i | 0 <= i < |sigs| && infoSigner[i].Some? :: infoSigner[i].value < |certs|
    }

    /** pkcs7_find_key: the first certificate that carries the block's issuer and serial number. */
    method FindKey(i: nat)
      requires Valid() && i < |sigs|
      modifies this`infoSigner
      ensures Valid()
      ensures infoSigner == if FirstById(certs, sigs[i].auth0).None? then old(infoSigner)
        else old(infoSigner)[i := FirstById(certs, sigs[i].auth0)]
    {
      hide FirstById, AllVerified;
      var x := 0;
      while x < |certs|
        invariant x <= |certs|
        invariant forall k | 0 <= k < x :: !SameId(Some(certs[k].id), sigs[i].auth0)
      {
        if SameId(Some(certs[x].id), sigs[i].auth0) {
          assert FirstById(certs, sigs[i].auth0) == Some(x);
          infoSigner := infoSigner[i := Some(x)];
          return;
        }
        x := x + 1;
      }
    }

    /** The two searches for the issuer of certificate c. */
    method FindIssuer(c: nat) returns (r: Option<nat>)
      requires c < |certs|
      ensures r == IssuerOf(certs, c)
    {
      hide FirstById, FirstBySkid;
      var sig := certs[c].sig;
      var p := 0;
      if sig.auth0.Some? {
        while p < |certs|
          invariant p <= |certs|
          invariant forall k | 0 <= k < p :: !SameId(Some(certs[k].id), sig.auth0)
        {
          if SameId(Some(certs[p].id), sig.auth0) {
            assert FirstById(certs, sig.auth0) == Some(p);
            return Some(p);
          }
          p := p + 1;
        }
      } else if sig.auth1.Some? {
        while p < |certs|
          invariant p <= |certs|
          invariant forall k | 0 <= k < p :: !SameId(certs[k].skid, sig.auth1)
        {
          if SameId(certs[p].skid, sig.auth1) {
            assert FirstBySkid(certs, sig.auth1) == Some(p);
            return Some(p);
          }
          p := p + 1;
        }
      }
      return None;
    }

    /** Everything that depends on the blacklisted end of a path is blacklisted too. */
    method BlacklistPath(i: nat, x: nat, ghost path: seq<nat>, ghost was: seq<Option<nat>>)
      requires Valid() && i < |sigs| && path != [] && infoSigner[i] == Some(path[0])
      requires x == path[|path| - 1] && LinkedAlong(was, signer, path)
      requires forall k | 0 <= k < |path| :: path[k] < |certs|
      requires forall j, k | 0 <= j < k < |path| :: path[j] != path[k]
      requires blacklisted[x]
      modifies this`blacklisted, this`infoBlacklisted
      ensures Valid()
      ensures infoBlacklisted == old(infoBlacklisted)[i := true]
      ensures forall c | 0 <= c < |certs| :: blacklisted[c] == (old(blacklisted[c]) || c in path)
    {
      hide AllVerified;
      infoBlacklisted := infoBlacklisted[i := true];
      var p := infoSigner[i].value;
      ghost var k := 0;
      while p != x
        invariant Valid() && infoBlacklisted == old(infoBlacklisted)[i := true]
        invariant k < |path| && p == path[k]
        invariant forall c | 0 <= c < |certs| :: blacklisted[c] == (old(blacklisted[c]) || c in path[..k])
        decreases |path| - k
      {
        blacklisted := blacklisted[p := true];
        assert path[..k + 1] == path[..k] + [path[k]];
        assert k < |path| - 1 && signer[path[k]] == Some(path[k + 1]);
        p := signer[p].value;
        k := k + 1;
      }
      assert k == |path| - 1 && path == path[..k] + [x];
    }

    /**
     * pkcs7_verify_sig_chain: path is the climb from the block's signer.  Its
     * steps are the new links; its end says why there are no more.
     */
    method VerifySigChain(i: nat) returns (ret: int, ghost path: seq<nat>)
      requires Valid() && i < |sigs| && infoSigner[i].Some?
      modifies this
      ensures Valid() && infoSigner == old(infoSigner)
      ensures Climbed(certs, verify, old(blacklisted), path) && infoSigner[i] == Some(path[0])
      ensures Stopped(certs, verify, old(blacklisted), path, old(signer), signer, ret)
      ensures ClimbSteps(certs, verify, old(blacklisted), path) && ClimbResult(certs, verify, old(blacklisted), path, ret)
      ensures var last := path[|path| - 1];
        LinkedAlong(old(signer), signer, if EndsInRoot(certs, old(blacklisted), last) then path + [last] else path)
      ensures var last := path[|path| - 1];
        && infoBlacklisted == (if old(blacklisted)[last] then old(infoBlacklisted)[i := true] else old(infoBlacklisted))
        && forall c | 0 <= c < |certs| ::
             blacklisted[c] == (old(blacklisted[c]) || (old(blacklisted)[last] && c in path))
    {
      hide AllVerified, LinkedAlong, Climbed, ClimbSteps, ClimbResult, EndsInRoot, Stopped, Unseen, MoveFrom;
      var x := infoSigner[i].value;
      ClearSeen();
      path := [x];
      FirstStep(certs, verify, blacklisted, x, signer);
      while true
        invariant Valid() && infoSigner == old(infoSigner) && blacklisted == old(blacklisted)
        invariant path != [] && x == path[|path| - 1] && x < |certs| == |seen| && !seen[x]
        invariant infoBlacklisted == old(infoBlacklisted)
        invariant Climbed(certs, verify, blacklisted, path) && infoSigner[i] == Some(path[0])
        invariant forall c | 0 <= c < |certs| && c != x :: seen[c] <==> c in path
        invariant LinkedAlong(old(signer), signer, path)
        decreases Unseen(seen)
      {
        UnseenDrops(seen, x);
        seen := seen[x := true];
        assert forall c | 0 <= c < |certs| :: seen[c] <==> c in path;
        PathFacts(certs, verify, blacklisted, path);
        var m := NextMove(x, path);
        LinkVerified(certs, verify, blacklisted, signer, path, x);
        if m.Stop? {
          ret := m.ret;
          if blacklisted[x] {
            StopsAtBlacklisted(certs, verify, blacklisted, path, x);
            BlacklistPath(i, x, path, old(signer));
          } else if m.selfLink {
            LinkAppends(old(signer), signer, path, x);
            signer := signer[x := Some(x)];
          }
          StoppedHere(certs, verify, old(blacklisted), path, old(signer), signer, ret);
          ClimbExplained(certs, verify, old(blacklisted), path);
          StopExplained(certs, verify, old(blacklisted), path);
          return;
        }
        ClimbOn(certs, verify, blacklisted, path, m.p);
        LinkAppends(old(signer), signer, path, m.p);
        signer := signer[x := Some(m.p)];
        path := path + [m.p];
        x := m.p;
      }
    }

    method ClearSeen()
      requires Valid()
      modifies this`seen
      ensures Valid() && forall c | 0 <= c < |certs| :: !seen[c]
    {
      var p := 0;
      while p < |certs|
        invariant Valid() && p <= |certs|
        invariant forall c | 0 <= c < p :: !seen[c]
      {
        seen := seen[p := false];
        p := p + 1;
      }
    }

    /** The body of the chain loop for certificate c, up to the change of its link. */
    method NextMove(c: nat, ghost path: seq<nat>) returns (m: Move)
      requires Valid() && c < |certs|
      requires forall d | 0 <= d < |certs| :: seen[d] <==> d in path
      ensures m == MoveFrom(certs, verify, blacklisted, path, c)
    {
      hide AllVerified, IssuerOf, SkidMismatch;
      if blacklisted[c] {
        return Stop(0, false);
      }
      if certs[c].selfSigned {
        if certs[c].unsupportedSig {
          return Stop(0, false);
        }
        return Stop(0, true);
      }
      var issuer := FindIssuer(c);
      if issuer.None? {
        return Stop(0, false);
      }
      var p := issuer.value;
      if SkidMismatch(certs, c, p) {
        return Stop(EKEYREJECTED, false);
      }
      if seen[p] {
        return Stop(0, false);
      }
      var ret := verify(certs[p].pub, certs[c].sig);
      if ret < 0 {
        return Stop(ret, false);
      }
      return To(p);
    }
  }

  /** The climb ends at the last certificate of path with this result and these links. */
  ghost predicate Stopped(certs: seq<Cert>, verify: VerifyFn, blacklisted: seq<bool>, path: seq<nat>,
                          before: seq<Option<nat>>, now: seq<Option<nat>>, ret: int)
    requires |blacklisted| == |certs| && Climbed(certs, verify, blacklisted, path)
  {
    var last := path[|path| - 1];
    var m := MoveFrom(certs, verify, blacklisted, path, last);
    m.Stop? && ret == m.ret && LinkedAlong(before, now, if m.selfLink then path + [last] else path)
  }

  lemma StoppedHere(certs: seq<Cert>, verify: VerifyFn, blacklisted: seq<bool>, path: seq<nat>,
                    before: seq<Option<nat>>, now: seq<Option<nat>>, ret: int)
    requires |blacklisted| == |certs| && Climbed(certs, verify, blacklisted, path)
    requires var last := path[|path| - 1];
      var m := MoveFrom(certs, verify, blacklisted, path, last);
      && m.Stop? && ret == m.ret
      && (if m.selfLink then LinkedAlong(before, now, path + [last]) else LinkedAlong(before, now, path))
    ensures Stopped(certs, verify, blacklisted, path, before, now, ret)
  {
  }

  lemma FirstStep(certs: seq<Cert>, verify: VerifyFn, blacklisted: seq<bool>, x: nat, signer: seq<Option<nat>>)
    requires x < |certs| == |blacklisted|
    ensures Climbed(certs, verify, blacklisted, [x]) && LinkedAlong(signer, signer, [x])
  {
  }

  lemma PathFacts(certs: seq<Cert>, verify: VerifyFn, blacklisted: seq<bool>, path: seq<nat>)
    requires |blacklisted| == |certs| && Climbed(certs, verify, blacklisted, path)
    ensures path != [] && path[|path| - 1] in path
    ensures forall k | 0 <= k < |path| :: path[k] < |certs|
    ensures forall j, k | 0 <= j < k < |path| :: path[j] != path[k]
  {
    forall j, k | 0 <= j < k < |path| ensures path[j] != path[k] {
      ClimbedDistinct(certs, verify, blacklisted, path, j, k);
    }
  }

  lemma StopsAtBlacklisted(certs: seq<Cert>, verify: VerifyFn, blacklisted: seq<bool>, path: seq<nat>, c: nat)
    requires c < |certs| == |blacklisted| && blacklisted[c]
    ensures MoveFrom(certs, verify, blacklisted, path, c) == Stop(0, false)
  {
  }

  /**
   * Both halves together: when the links of a message are the ones
   * VerifySigChain makes, a backed certificate reaches its anchor over links
   * that are all verified.
   */
  lemma BackedOverVerifiedLinks(w: Trust.World, verify: VerifyFn, c: nat) returns (p: seq<nat>)
    requires Trust.WellFormed(w) && AllVerified(w.certs, verify, w.signer)
    requires Trust.Backed(w, c)
    ensures Trust.LeadsToAnchor(w, c, p)
    ensures forall k | 0 <= k < |p| - 1 :: VerifiedLink(w.certs, verify, p[k], p[k + 1])
  {
    hide VerifiedLink, Trust.Anchor;
    p :| Trust.LeadsToAnchor(w, c, p);
    forall k | 0 <= k < |p| - 1 ensures VerifiedLink(w.certs, verify, p[k], p[k + 1]) {
      assert w.signer[p[k]] == Some(p[k + 1]);
    }
  }

  /**
   * Links can form a loop although each climb refuses to close one: two
   * certificates that name each other, climbed first from one, then from the
   * other, keep both links.
   */
  lemma TwoClimbsMakeALoop(a: Cert, b: Cert, verify: VerifyFn)
    requires a.id != b.id && !a.selfSigned && !b.selfSigned
    requires a.sig.auth0 == Some(b.id) && b.sig.auth0 == Some(a.id)
    requires a.sig.auth1.None? && b.sig.auth1.None?
    requires verify(b.pub, a.sig) >= 0 && verify(a.pub, b.sig) >= 0
    ensures var certs, no := [a, b], [false, false];
      var none, one, both := [None, None], [Some(1), None], [Some(1), Some(0)];
      && Climbed(certs, verify, no, [0, 1]) && Stopped(certs, verify, no, [0, 1], none, one, 0)
      && Climbed(certs, verify, no, [1, 0]) && Stopped(certs, verify, no, [1, 0], one, both, 0)
  {
    hide MoveFrom;
    TwoMoves(a, b, verify);
    assert [0, 1][..1] == [0] && [1, 0][..1] == [1];
  }

  lemma TwoMoves(a: Cert, b: Cert, verify: VerifyFn)
    requires a.id != b.id && !a.selfSigned && !b.selfSigned
    requires a.sig.auth0 == Some(b.id) && b.sig.auth0 == Some(a.id)
    requires a.sig.auth1.None? && b.sig.auth1.None?
    requires verify(b.pub, a.sig) >= 0 && verify(a.pub, b.sig) >= 0
    ensures var certs, no := [a, b], [false, false];
      && MoveFrom(certs, verify, no, [0], 0) == To(1) && MoveFrom(certs, verify, no, [0, 1], 1) == Stop(0, false)
      && MoveFrom(certs, verify, no, [1], 1) == To(0) && MoveFrom(certs, verify, no, [1, 0], 0) == Stop(0, false)
  {
    hide FirstById, FirstBySkid;
    FirstOfTwo(a, b);
    var certs := [a, b];
    assert IssuerOf(certs, 0) == Some(1) && IssuerOf(certs, 1) == Some(0);
  }

  lemma FirstOfTwo(a: Cert, b: Cert)
    requires a.id != b.id
    ensures FirstById([a, b], Some(a.id)) == Some(0)
    ensures FirstById([a, b], Some(b.id)) == Some(1)
  {
    hide FirstById;
    assert SameId(Some([a, b][0].id), Some(a.id));
    assert SameId(Some([a, b][1].id), Some(b.id));
    assert !SameId(Some([a, b][0].id), Some(b.id));
  }
}
