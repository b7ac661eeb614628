/**
 * Trust in a PKCS#7 message (compat/verification/pkcs7_trust.c): following
 * signer links until a trusted key is met, with the outcome kept on the
 * certificates for the signed-info blocks that come later.
 */
module Pkcs7Trust {
  import opened Wrappers
  import opened Pkcs7

  /** One signed-info block. */
  datatype Info = Info(signer: Option<nat>, unsupportedCrypto: bool, sig: Signature)

  /** The message as pkcs7_verify left it: certificates, their signer links, the blocks. */
  datatype World = World(
    certs: seq<Cert>,
    signer: seq<Option<nat>>,
    infos: seq<Info>,
    ring: Keyring)

  ghost predicate InRange(w: World, c: Option<nat>) {
    c.Some? ==> c.value < |w.certs|
  }

  /** Signer links stay inside the message.  They may form loops. */
  ghost predicate WellFormed(w: World) {
    && |w.signer| == |w.certs|
    && (forall c | 0 <= c < |w.certs| :: InRange(w, w.signer[c]))
    && (forall i | 0 <= i < |w.infos| :: InRange(w, w.infos[i].signer))
    && (forall a, b :: w.ring.find(a, b).Missing? ==> w.ring.find(a, b).err < 0)
  }

  /** The trusted key that claims to be certificate c. */
  function KeyFor(w: World, c: nat): Lookup
    requires c < |w.certs|
  {
    w.ring.find(Some(w.certs[c].id), w.certs[c].skid)
  }

  /** The trusted key that claims to have signed certificate c. */
  function KeyAbove(w: World, c: nat): Lookup
    requires c < |w.certs|
  {
    var sig := w.certs[c].sig;
    if sig.auth0.Some? || sig.auth1.Some? then w.ring.find(sig.auth0, sig.auth1) else Missing(ENOKEY)
  }

  // ---------------------------------------------------------------------
  // Trust
  // ---------------------------------------------------------------------

  /** A path along signer links. */
  ghost predicate Chain(w: World, p: seq<nat>)
    requires WellFormed(w)
  {
    && p != []
    && (forall i | 0 <= i < |p| :: p[i] < |w.certs|)
    && (forall i | 0 <= i < |p| - 1 :: w.signer[p[i]] == Some(p[i + 1]))
  }

  /** s is a signature made by certificate c: on a block or on another certificate. */
  ghost predicate SignedBy(w: World, c: nat, s: Signature)
    requires WellFormed(w)
  {
    || (exists i | 0 <= i < |w.infos| :: w.infos[i].signer == Some(c) && w.infos[i].sig == s)
    || (exists d | 0 <= d < |w.certs| :: w.signer[d] == Some(c) && w.certs[d].sig == s)
  }

  ghost predicate Verifies(w: World, k: Lookup, s: Signature) {
    k.Found? && w.ring.verify(k.key, s) >= 0
  }

  /**
   * A trusted key has verified a signature at c: one that c made, when the key
   * stands for c itself, or the one on c, when c is the top of its chain.
   */
  ghost predicate Anchor(w: World, c: nat)
    requires WellFormed(w) && c < |w.certs|
  {
    || (exists s :: SignedBy(w, c, s) && Verifies(w, KeyFor(w, c), s))
    || (w.signer[c].None? && Verifies(w, KeyAbove(w, c), w.certs[c].sig))
  }

  /** Signer links lead from c to an anchor. */
  ghost predicate Backed(w: World, c: nat)
    requires WellFormed(w)
  {
    exists p :: LeadsToAnchor(w, c, p)
  }

  ghost predicate LeadsToAnchor(w: World, c: nat, p: seq<nat>)
    requires WellFormed(w)
  {
    Chain(w, p) && p[0] == c && Anchor(w, p[|p| - 1])
  }

  /** No trusted key is known for c, nor above it when its chain ends there. */
  ghost predicate Unknown(w: World, c: nat)
    requires WellFormed(w) && c < |w.certs|
  {
    KeyFor(w, c).Missing? && (w.signer[c].None? ==> KeyAbove(w, c).Missing?)
  }

  /** No trusted key is known anywhere along the signer links from c. */
  ghost predicate Hopeless(w: World, c: nat)
    requires WellFormed(w)
  {
    forall p | Chain(w, p) && p[0] == c :: Unknown(w, p[|p| - 1])
  }

  lemma HopelessNotBacked(w: World, c: nat)
    requires WellFormed(w) && Hopeless(w, c)
    ensures !Backed(w, c)
  {
  }

  /** The block is backed by its chain or by a trusted key of its own. */
  ghost predicate Trusted(w: World, i: nat)
    requires WellFormed(w) && i < |w.infos|
  {
    || (w.infos[i].signer.Some? && Backed(w, w.infos[i].signer.value))
    || DirectlyTrusted(w, i)
  }

  lemma BackedAlong(w: World, p: seq<nat>, i: nat)
    requires WellFormed(w) && Chain(w, p) && i < |p| && Backed(w, p[|p| - 1])
    ensures Backed(w, p[i])
  {
    var q :| LeadsToAnchor(w, p[|p| - 1], q);
    var r := p[i..|p| - 1] + q;
    assert Chain(w, r) by {
      forall k | 0 <= k < |r| - 1 ensures w.signer[r[k]] == Some(r[k + 1]) {
        if k < |p| - 1 - i {
          assert r[k] == p[i + k] && r[k + 1] == p[i + k + 1];
        } else {
          assert r[k] == q[k - (|p| - 1 - i)] && r[k + 1] == q[k + 1 - (|p| - 1 - i)];
        }
      }
    }
    assert LeadsToAnchor(w, p[i], r);
  }

  lemma AnchorBacked(w: World, c: nat)
    requires WellFormed(w) && c < |w.certs| && Anchor(w, c)
    ensures Backed(w, c)
  {
    assert LeadsToAnchor(w, c, [c]);
  }

  /** c itself is unknown and its signer, if any, is in s. */
  ghost predicate LeadsInto(w: World, c: nat, s: set<nat>)
    requires WellFormed(w) && c < |w.certs|
  {
    Unknown(w, c) && (w.signer[c].Some? ==> w.signer[c].value in s)
  }

  /** A set closed under signer links without any known key is hopeless. */
  lemma {:induction false} ClosedHopeless(w: World, s: set<nat>, p: seq<nat>)
    requires WellFormed(w)
    requires forall c | c in s :: c < |w.certs| && (Hopeless(w, c) || LeadsInto(w, c, s))
    requires Chain(w, p) && p[0] in s
    ensures Unknown(w, p[|p| - 1])
    decreases |p|
  {
    if Hopeless(w, p[0]) {
    } else if |p| > 1 {
      assert w.signer[p[0]] == Some(p[1]);
      assert forall i | 0 <= i < |p[1..]| - 1 :: w.signer[p[1..][i]] == Some(p[1..][i + 1]);
      ClosedHopeless(w, s, p[1..]);
    }
  }

  // ---------------------------------------------------------------------
  // The walk
  // ---------------------------------------------------------------------

  /** The ways the search for a key ends: a key to try, a cached yes, or an error. */
  datatype Walk =
    | Matched(x: Option<nat>, key: Key, sig: Signature)
    | Cached(c: nat)
    | Ended(err: int)

  /** What the flags mean: verified is backed, seen but not verified is hopeless. */
  ghost predicate Sound(w: World, verified: seq<bool>)
    requires WellFormed(w)
  {
    |verified| == |w.certs| && forall c | 0 <= c < |verified| && verified[c] :: Backed(w, c)
  }

  ghost predicate Exhausted(w: World, seen: seq<bool>, verified: seq<bool>)
    requires WellFormed(w) && |seen| == |verified| == |w.certs|
  {
    forall c | 0 <= c < |seen| && seen[c] && !verified[c] :: Hopeless(w, c)
  }

  ghost predicate Distinct(path: seq<nat>) {
    forall j, k | 0 <= j < k < |path| :: path[j] != path[k]
  }

  /** Certificates of path, which had not been seen before, are seen now. */
  ghost predicate SeenAfter(before: seq<bool>, seen: seq<bool>, path: seq<nat>) {
    && |seen| == |before|
    && (forall i | 0 <= i < |path| :: path[i] < |before| && !before[path[i]])
    && (forall c | 0 <= c < |seen| :: seen[c] == (before[c] || c in path))
    && Distinct(path)
  }

  /** The position of a walk: path lies behind, x is next. */
  ghost predicate Walking(w: World, i: nat, path: seq<nat>, x: Option<nat>)
    requires WellFormed(w) && i < |w.infos|
  {
    && (path == [] ==> x == w.infos[i].signer)
    && (path != [] ==> Chain(w, path) && w.infos[i].signer == Some(path[0]) && x == w.signer[path[|path| - 1]])
    && (forall k | 0 <= k < |path| :: KeyFor(w, path[k]).Missing?)
    && InRange(w, x)
  }

  /** The signature the next key has to verify. */
  function PendingSig(w: World, i: nat, path: seq<nat>): Signature
    requires i < |w.infos| && forall k | 0 <= k < |path| :: path[k] < |w.certs|
  {
    if path == [] then w.infos[i].sig else w.certs[path[|path| - 1]].sig
  }

  lemma WalkingOn(w: World, i: nat, path: seq<nat>, c: nat)
    requires WellFormed(w) && i < |w.infos| && Walking(w, i, path, Some(c))
    ensures Chain(w, path + [c]) && w.infos[i].signer == Some((path + [c])[0])
    ensures KeyFor(w, c).Missing? ==> Walking(w, i, path + [c], w.signer[c])
    ensures SignedBy(w, c, PendingSig(w, i, path))
  {
    var p := path + [c];
    assert forall k | 0 <= k < |p| - 1 :: w.signer[p[k]] == Some(p[k + 1]);
    assert p[|p| - 1] == c;
    if path == [] {
      assert w.infos[i].signer == Some(c);
    } else {
      assert w.signer[path[|path| - 1]] == Some(c);
    }
  }

  lemma SeenOne(before: seq<bool>, seen: seq<bool>, path: seq<nat>, c: nat)
    requires SeenAfter(before, seen, path) && c < |seen| && !seen[c]
    ensures SeenAfter(before, seen[c := true], path + [c])
    ensures Unseen(seen[c := true]) < Unseen(seen)
  {
    UnseenDrops(seen, c);
    var now := seen[c := true];
    forall d | 0 <= d < |now| ensures now[d] == (before[d] || d in path + [c]) {
      assert d in path + [c] <==> d in path || d == c;
    }
  }

  /**
   * The search for a key from certificate x on, last being the certificate
   * before it: what the chain alone decides.
   */
  function Search(w: World, i: nat, seen: seq<bool>, verified: seq<bool>, last: Option<nat>, x: Option<nat>): Walk
    requires WellFormed(w) && i < |w.infos| && |seen| == |verified| == |w.certs|
    requires InRange(w, last) && InRange(w, x)
    decreases Unseen(seen)
  {
    if x.None? then AboveTop(w, i, last)
    else if seen[x.value] then (if verified[x.value] then Cached(x.value) else Ended(ENOKEY))
    else
      UnseenDrops(seen, x.value);
      match KeyFor(w, x.value)
      case Found(k) => Matched(x, k, if last.Some? then w.certs[last.value].sig else w.infos[i].sig)
      case Missing(e) =>
        if e == ENOMEM then Ended(e)
        else if w.signer[x.value] == x then Ended(ENOKEY)
        else Search(w, i, seen[x.value := true], verified, x, w.signer[x.value])
  }

  /** The end of the chain: a key above its top certificate, or one for the block itself. */
  function AboveTop(w: World, i: nat, last: Option<nat>): Walk
    requires i < |w.infos| && InRange(w, last)
  {
    var above := if last.Some? then KeyAbove(w, last.value) else Missing(ENOKEY);
    if above.Found? then Matched(last, above.key, w.certs[last.value].sig)
    else if above.err != ENOKEY then Ended(above.err)
    else
      match w.ring.find(w.infos[i].sig.auth0, None)
      case Found(k) => Matched(None, k, w.infos[i].sig)
      case Missing(e) => Ended(e)
  }

  /** The result of a block whose search ended with r. */
  function Verdict(w: World, r: Walk): int {
    match r
    case Ended(e) => e
    case Cached(_) => 0
    case Matched(_, k, s) =>
      var v := w.ring.verify(k, s);
      if v >= 0 then 0 else if v == ENOMEM then ENOMEM else EKEYREJECTED
  }

  // ---------------------------------------------------------------------
  // The last resort: a trusted key for the block itself
  // ---------------------------------------------------------------------

  /** What the block's own key decides. */
  function DirectWalk(w: World, i: nat): Walk
    requires i < |w.infos|
  {
    match w.ring.find(w.infos[i].sig.auth0, None)
    case Found(k) => Matched(None, k, w.infos[i].sig)
    case Missing(e) => Ended(e)
  }

  ghost predicate DirectlyTrusted(w: World, i: nat)
    requires i < |w.infos|
  {
    Verifies(w, w.ring.find(w.infos[i].sig.auth0, None), w.infos[i].sig)
  }

  /** The links from x reach a certificate without a signer over certificates not seen yet. */
  ghost predicate OpenFrom(w: World, seen: seq<bool>, x: Option<nat>)
    requires WellFormed(w) && |seen| == |w.certs|
  {
    x.None? || exists p :: OpenPath(w, seen, x.value, p)
  }

  ghost predicate OpenPath(w: World, seen: seq<bool>, c: nat, p: seq<nat>)
    requires WellFormed(w) && |seen| == |w.certs|
  {
    && Chain(w, p) && p[0] == c && w.signer[p[|p| - 1]].None?
    && forall k | 0 <= k < |p| :: !seen[p[k]]
  }

  lemma OpenAtTop(w: World, seen: seq<bool>)
    requires WellFormed(w) && |seen| == |w.certs|
    ensures OpenFrom(w, seen, None)
  {
  }

  lemma ChainTail(w: World, p: seq<nat>, k: nat)
    requires WellFormed(w) && Chain(w, p) && k < |p|
    ensures Chain(w, p[k..])
  {
    var q := p[k..];
    forall i | 0 <= i < |q| - 1
      ensures w.signer[q[i]] == Some(q[i + 1])
    {
      assert w.signer[p[k + i]] == Some(p[k + i + 1]);
    }
  }

  /** An open path goes on to the signer, and does not come back. */
  lemma {:induction false} OpenTail(w: World, seen: seq<bool>, c: nat, p: seq<nat>)
    requires WellFormed(w) && |seen| == |w.certs| && OpenPath(w, seen, c, p) && c < |seen|
    ensures !seen[c] && OpenFrom(w, seen[c := true], w.signer[c])
    decreases |p|
  {
    if |p| > 1 {
      assert w.signer[p[0]] == Some(p[1]);
      ChainTail(w, p, 1);
      var q := p[1..];
      if k :| 0 <= k < |q| && q[k] == c {
        ChainTail(w, q, k);
        OpenTail(w, seen, c, q[k..]);
      } else {
        assert OpenPath(w, seen[c := true], p[1], q);
      }
    }
  }

  lemma OpenStep(w: World, seen: seq<bool>, c: nat)
    requires WellFormed(w) && |seen| == |w.certs| && c < |seen|
    ensures OpenFrom(w, seen, Some(c)) <==> !seen[c] && OpenFrom(w, seen[c := true], w.signer[c])
  {
    if p :| OpenPath(w, seen, c, p) {
      OpenTail(w, seen, c, p);
    }
    if !seen[c] && OpenFrom(w, seen[c := true], w.signer[c]) {
      if w.signer[c].None? {
        assert OpenPath(w, seen, c, [c]);
      } else {
        var q :| OpenPath(w, seen[c := true], w.signer[c].value, q);
        var p := [c] + q;
        forall k | 0 <= k < |p| - 1
          ensures w.signer[p[k]] == Some(p[k + 1])
        {
          if k > 0 {
            assert w.signer[q[k - 1]] == Some(q[k]);
          }
        }
        assert p[|p| - 1] == q[|q| - 1];
        forall k | 0 <= k < |p|
          ensures !seen[p[k]]
        {
          if k > 0 {
            assert !seen[c := true][q[k - 1]];
          }
        }
        assert OpenPath(w, seen, c, p);
      }
    }
  }

  /** A self-signed certificate leads nowhere. */
  lemma SelfSignedNotOpen(w: World, seen: seq<bool>, c: nat)
    requires WellFormed(w) && |seen| == |w.certs| && c < |seen| && w.signer[c] == Some(c)
    ensures !OpenFrom(w, seen, Some(c))
  {
    OpenStep(w, seen, c);
    OpenStep(w, seen[c := true], c);
  }

  /**
   * The search comes down to the block's own key only over an open path; over
   * one, -ENOKEY means that there is no such key.
   */
  lemma {:induction false} SearchDirect(w: World, i: nat, seen: seq<bool>, verified: seq<bool>, last: Option<nat>, x: Option<nat>)
    requires WellFormed(w) && i < |w.infos| && |seen| == |verified| == |w.certs|
    requires InRange(w, last) && InRange(w, x)
    ensures var r := Search(w, i, seen, verified, last, x);
      && (r.Matched? && r.x.None? ==> OpenFrom(w, seen, x) && r == DirectWalk(w, i))
      && (r == Ended(ENOKEY) && OpenFrom(w, seen, x) ==> DirectWalk(w, i) == r)
    decreases Unseen(seen)
  {
    hide WellFormed, OpenFrom, Unseen;
    SignersInRange(w);
    OpenAtTop(w, seen);
    if x.Some? {
      var c := x.value;
      OpenStep(w, seen, c);
      if !seen[c] {
        UnseenDrops(seen, c);
        if w.signer[c] == x {
          SelfSignedNotOpen(w, seen, c);
        } else {
          SearchDirect(w, i, seen[c := true], verified, x, w.signer[c]);
        }
      }
    }
  }

  lemma BlockInRange(w: World, i: nat)
    requires WellFormed(w) && i < |w.infos|
    ensures InRange(w, w.infos[i].signer)
  {
  }

  lemma SignersInRange(w: World)
    requires WellFormed(w)
    ensures |w.signer| == |w.certs| && forall c | 0 <= c < |w.certs| :: InRange(w, w.signer[c])
  {
  }

  /** No key is known at c or above a top c, and the lookups fail no other way. */
  ghost predicate Silent(w: World, c: nat)
    requires WellFormed(w) && c < |w.certs|
  {
    && KeyFor(w, c).Missing? && KeyFor(w, c).err != ENOMEM
    && (w.signer[c].None? ==> KeyAbove(w, c) == Missing(ENOKEY))
  }

  /** The same all along the links from x. */
  ghost predicate AllSilent(w: World, x: Option<nat>)
    requires WellFormed(w)
  {
    forall p | Chain(w, p) && x == Some(p[0]) :: Silent(w, p[|p| - 1])
  }

  lemma SilentHere(w: World, c: nat)
    requires WellFormed(w) && c < |w.certs| && AllSilent(w, Some(c))
    ensures Silent(w, c) && AllSilent(w, w.signer[c]) && Hopeless(w, c)
  {
    assert Chain(w, [c]) && [c][|[c]| - 1] == c;
    forall q | Chain(w, q) && w.signer[c] == Some(q[0])
      ensures Silent(w, q[|q| - 1])
    {
      var p := [c] + q;
      forall k | 0 <= k < |p| - 1
        ensures w.signer[p[k]] == Some(p[k + 1])
      {
        if k > 0 {
          assert w.signer[q[k - 1]] == Some(q[k]);
        }
      }
      assert Chain(w, p) && p[|p| - 1] == q[|q| - 1];
    }
  }

  lemma {:induction false} LastResortFrom(w: World, i: nat, seen: seq<bool>, verified: seq<bool>, last: Option<nat>, x: Option<nat>)
    requires WellFormed(w) && i < |w.infos| && |seen| == |verified| == |w.certs|
    requires InRange(w, last) && InRange(w, x) && Sound(w, verified) && AllSilent(w, x)
    requires x.None? && last.Some? ==> KeyAbove(w, last.value) == Missing(ENOKEY)
    ensures Search(w, i, seen, verified, last, x)
         == if OpenFrom(w, seen, x) then DirectWalk(w, i) else Ended(ENOKEY)
    decreases Unseen(seen)
  {
    hide WellFormed, OpenFrom, Unseen, AllSilent, Hopeless, Backed;
    SignersInRange(w);
    OpenAtTop(w, seen);
    if x.Some? {
      var c := x.value;
      OpenStep(w, seen, c);
      SilentHere(w, c);
      HopelessNotBacked(w, c);
      if !seen[c] {
        UnseenDrops(seen, c);
        if w.signer[c] == x {
          SelfSignedNotOpen(w, seen, c);
        } else {
          LastResortFrom(w, i, seen[c := true], verified, x, w.signer[c]);
        }
      }
    }
  }

  /**
   * A block with no known key along its chain gets the verdict of its own key
   * if its links reach a top over certificates not seen yet, and -ENOKEY
   * otherwise.  So a block with a trusted key of its own is accepted exactly
   * in the first case.
   */
  lemma LastResort(w: World, i: nat, seen: seq<bool>, verified: seq<bool>)
    requires WellFormed(w) && i < |w.infos| && |seen| == |verified| == |w.certs| && Sound(w, verified)
    requires AllSilent(w, w.infos[i].signer)
    ensures InRange(w, w.infos[i].signer)
    ensures var ret := Verdict(w, Search(w, i, seen, verified, None, w.infos[i].signer));
      && ret == (if OpenFrom(w, seen, w.infos[i].signer) then Verdict(w, DirectWalk(w, i)) else ENOKEY)
      && (DirectlyTrusted(w, i) ==> (ret == 0 <==> OpenFrom(w, seen, w.infos[i].signer)))
  {
    hide OpenFrom, AllSilent, Sound;
    LastResortFrom(w, i, seen, verified, None, w.infos[i].signer);
  }

  /** A keyring that holds one key, found by the identifier "k" alone, whose signatures are all good. */
  function OneKey(): Keyring {
    Keyring(
      (a: Option<KeyId>, b: Option<KeyId>) => if a == Some("k") && b.None? then Found(0) else Missing(ENOKEY),
      (k, s) => 0)
  }

  function BareSignature(auth: Option<KeyId>): Signature {
    Signature(auth, None, "")
  }

  /** One certificate, with the given signer, and two blocks signed by it; the second has a trusted key. */
  function TwoBlocks(signer: Option<nat>): World {
    World(
      [Cert("k", Some("s"), 0, BareSignature(None), false, false)],
      [signer],
      [Info(Some(0), false, BareSignature(Some("other"))), Info(Some(0), false, BareSignature(Some("k")))],
      OneKey())
  }

  /** An unknown self-signed certificate ends the search before the block's own key is tried. */
  lemma SelfSignedExample()
    ensures var w := TwoBlocks(Some(0));
      && WellFormed(w) && DirectlyTrusted(w, 1) && Trusted(w, 1)
      && Search(w, 1, [false], [false], None, Some(0)) == Ended(ENOKEY)
  {
  }

  /** So does a certificate that an earlier block has gone over in vain. */
  lemma CachedFailureExample()
    ensures var w := TwoBlocks(None);
      && WellFormed(w) && DirectlyTrusted(w, 1) && Trusted(w, 1)
      && Search(w, 0, [false], [false], None, Some(0)) == Ended(ENOKEY)
      && Search(w, 1, [true], [false], None, Some(0)) == Ended(ENOKEY)
      && Verdict(w, Search(w, 1, [false], [false], None, Some(0))) == 0
  {
    var w := TwoBlocks(None);
    assert [false][0 := true] == [true];
    assert Search(w, 0, [true], [false], Some(0), None) == Ended(ENOKEY);
  }

  /** A walk that found no key leaves only hopeless certificates behind. */
  lemma DeadEnd(w: World, i: nat, path: seq<nat>, x: Option<nat>)
    requires WellFormed(w) && i < |w.infos| && Walking(w, i, path, x)
    requires x.None? && path != [] ==> KeyAbove(w, path[|path| - 1]).Missing?
    requires x.Some? ==> x.value in path || Hopeless(w, x.value)
    ensures forall k | 0 <= k < |path| :: Hopeless(w, path[k])
    ensures w.infos[i].signer.Some? ==> Hopeless(w, w.infos[i].signer.value)
  {
    if path == [] {
      return;
    }
    var s := (set k | 0 <= k < |path| :: path[k]) + if x.Some? then {x.value} else {};
    forall c | c in s
      ensures c < |w.certs|
      ensures Hopeless(w, c) || LeadsInto(w, c, s)
    {
      if c in path {
        var k :| 0 <= k < |path| && path[k] == c;
        if k < |path| - 1 {
          assert w.signer[path[k]] == Some(path[k + 1]);
        }
      }
    }
    forall k | 0 <= k < |path| ensures Hopeless(w, path[k]) {
      forall p | Chain(w, p) && p[0] == path[k] ensures Unknown(w, p[|p| - 1]) {
        ClosedHopeless(w, s, p);
      }
    }
  }

  lemma StillExhausted(w: World, before: seq<bool>, seen: seq<bool>, verified: seq<bool>, path: seq<nat>)
    requires WellFormed(w) && |before| == |verified| == |w.certs|
    requires Exhausted(w, before, verified) && SeenAfter(before, seen, path)
    requires forall k | 0 <= k < |path| :: Hopeless(w, path[k])
    ensures Exhausted(w, seen, verified)
  {
  }

  lemma StartWalk(w: World, i: nat, seen: seq<bool>)
    requires WellFormed(w) && i < |w.infos|
    ensures Walking(w, i, [], w.infos[i].signer) && SeenAfter(seen, seen, [])
  {
  }

  lemma WalkShape(w: World, i: nat, path: seq<nat>, x: Option<nat>)
    requires WellFormed(w) && i < |w.infos| && Walking(w, i, path, x)
    ensures |w.signer| == |w.certs| && InRange(w, x)
    ensures forall k | 0 <= k < |path| :: path[k] < |w.certs|
  {
  }

  /** A verified certificate is backed, so the walk did not come back to one it had just passed. */
  lemma CachedYes(w: World, i: nat, path: seq<nat>, c: nat, verified: seq<bool>)
    requires WellFormed(w) && i < |w.infos| && Walking(w, i, path, Some(c))
    requires Sound(w, verified) && c < |verified| && verified[c]
    ensures Backed(w, c) && c !in path
  {
    hide Hopeless, Backed;
    if c in path {
      DeadEnd(w, i, path, Some(c));
      HopelessNotBacked(w, c);
    }
  }

  lemma CachedNo(w: World, i: nat, path: seq<nat>, c: nat, before: seq<bool>, seen: seq<bool>, verified: seq<bool>)
    requires WellFormed(w) && i < |w.infos| && Walking(w, i, path, Some(c))
    requires |before| == |verified| == |w.certs| && Exhausted(w, before, verified)
    requires SeenAfter(before, seen, path) && seen[c] && !verified[c]
    ensures Exhausted(w, seen, verified)
    ensures w.infos[i].signer.Some? ==> Hopeless(w, w.infos[i].signer.value)
  {
    hide Hopeless;
    DeadEnd(w, i, path, Some(c));
    StillExhausted(w, before, seen, verified, path);
  }

  lemma MatchAtCert(w: World, c: nat, s: Signature)
    requires WellFormed(w) && c < |w.certs| && SignedBy(w, c, s)
    ensures Verifies(w, KeyFor(w, c), s) ==> Anchor(w, c)
  {
  }

  lemma TopPath(w: World, i: nat, path: seq<nat>)
    requires WellFormed(w) && i < |w.infos| && Walking(w, i, path, None) && path != []
    ensures Chain(w, path) && w.infos[i].signer == Some(path[0])
  {
  }

  lemma DistinctMore(before: seq<bool>, seen: seq<bool>, path: seq<nat>, c: nat)
    requires SeenAfter(before, seen, path)
    ensures Distinct(path) && |before| == |seen| && (c !in path ==> Distinct(path + [c]))
  {
  }

  lemma MarkOne(w: World, verified: seq<bool>, c: nat)
    requires WellFormed(w) && Sound(w, verified) && c < |w.certs| && Backed(w, c)
    ensures Sound(w, verified[c := true])
  {
  }

  lemma MarkedExhausted(w: World, before: seq<bool>, seen: seq<bool>, was: seq<bool>, verified: seq<bool>, path: seq<nat>)
    requires WellFormed(w) && |before| == |was| == |verified| == |w.certs|
    requires Exhausted(w, before, was) && SeenAfter(before, seen, path)
    requires forall c | 0 <= c < |was| :: was[c] ==> verified[c]
    requires forall c | 0 <= c < |verified| && c in path :: verified[c]
    ensures Exhausted(w, seen, verified)
  {
  }

  /** What makes a block good: its chain, or its own key over an open path. */
  ghost predicate Accepted(w: World, seen: seq<bool>, i: nat)
    requires WellFormed(w) && i < |w.infos| && |seen| == |w.certs|
  {
    || (w.infos[i].signer.Some? && Backed(w, w.infos[i].signer.value))
    || (OpenFrom(w, seen, w.infos[i].signer) && DirectlyTrusted(w, i))
  }

  /** -ENOKEY is only returned for a block that is not good. */
  lemma EndedNotAccepted(w: World, i: nat, seen: seq<bool>, verified: seq<bool>)
    requires WellFormed(w) && i < |w.infos| && |seen| == |verified| == |w.certs|
    requires InRange(w, w.infos[i].signer)
    requires Search(w, i, seen, verified, None, w.infos[i].signer) == Ended(ENOKEY)
    requires w.infos[i].signer.Some? ==> Hopeless(w, w.infos[i].signer.value)
    ensures !Accepted(w, seen, i)
  {
    hide Hopeless, Backed, OpenFrom, Search;
    SearchDirect(w, i, seen, verified, None, w.infos[i].signer);
    if w.infos[i].signer.Some? {
      HopelessNotBacked(w, w.infos[i].signer.value);
    }
  }

  lemma DirectAccepted(w: World, i: nat, seen: seq<bool>, verified: seq<bool>)
    requires WellFormed(w) && i < |w.infos| && |seen| == |verified| == |w.certs|
    requires InRange(w, w.infos[i].signer)
    requires var r := Search(w, i, seen, verified, None, w.infos[i].signer);
      r.Matched? && r.x.None? && w.ring.verify(r.key, r.sig) >= 0
    ensures Accepted(w, seen, i)
  {
    hide Backed, OpenFrom, Search;
    SearchDirect(w, i, seen, verified, None, w.infos[i].signer);
  }

  // ---------------------------------------------------------------------
  // What decides the result of a block
  // ---------------------------------------------------------------------

  /** The certificates from the block's signer on that the search passes: new, without a key, not their own signers. */
  ghost predicate Passed(w: World, i: nat, seen: seq<bool>, path: seq<nat>)
    requires WellFormed(w) && i < |w.infos| && |seen| == |w.certs|
  {
    && (path != [] ==> Chain(w, path) && w.infos[i].signer == Some(path[0]))
    && (forall k | 0 <= k < |path| ::
          && path[k] < |w.certs| && !seen[path[k]] && w.signer[path[k]] != Some(path[k])
          && KeyFor(w, path[k]).Missing? && KeyFor(w, path[k]).err != ENOMEM)
  }

  function After(w: World, i: nat, path: seq<nat>): Option<nat>
    requires i < |w.infos| && |w.signer| == |w.certs| && forall k | 0 <= k < |path| :: path[k] < |w.certs|
  {
    if path == [] then w.infos[i].signer else w.signer[path[|path| - 1]]
  }

  /** A key decides: its verification succeeds, runs out of memory, or rejects. */
  ghost predicate KeyDecides(w: World, k: Key, s: Signature, ret: int) {
    var v := w.ring.verify(k, s);
    if v >= 0 then ret == 0 else if v == ENOMEM then ret == ENOMEM else ret == EKEYREJECTED
  }

  /**
   * What decides after the certificates of path: the verdict on a certificate
   * seen before, the first trusted key with the signature below it, an unknown
   * root, or else a key above the last certificate or of the block itself.
   */
  ghost predicate TrustResult(w: World, i: nat, seen: seq<bool>, verified: seq<bool>, path: seq<nat>, ret: int)
    requires WellFormed(w) && i < |w.infos| && |seen| == |verified| == |w.certs| && Passed(w, i, seen, path)
  {
    match After(w, i, path)
    case Some(c) =>
      && c < |w.certs|
      && if seen[c] || c in path then ret == if verified[c] then 0 else ENOKEY
         else if KeyFor(w, c).Found? then KeyDecides(w, KeyFor(w, c).key, PendingSig(w, i, path), ret)
         else if KeyFor(w, c).err == ENOMEM then ret == ENOMEM
         else w.signer[c] == Some(c) && ret == ENOKEY
    case None =>
      var above := if path == [] then Missing(ENOKEY) else KeyAbove(w, path[|path| - 1]);
      var own := w.ring.find(w.infos[i].sig.auth0, None);
      if above.Found? then KeyDecides(w, above.key, w.certs[path[|path| - 1]].sig, ret)
      else if above.err != ENOKEY then ret == above.err
      else if own.Found? then KeyDecides(w, own.key, w.infos[i].sig, ret)
      else ret == own.err
  }

  lemma {:induction false} SearchExplainedFrom(w: World, i: nat, before: seq<bool>, seen: seq<bool>, verified: seq<bool>,
                                               path: seq<nat>) returns (all: seq<nat>)
    requires WellFormed(w) && i < |w.infos| && |before| == |verified| == |w.certs|
    requires Passed(w, i, before, path) && SeenAfter(before, seen, path)
    ensures var last := if path == [] then None else Some(path[|path| - 1]);
      && InRange(w, last) && InRange(w, After(w, i, path)) && Passed(w, i, before, all)
      && TrustResult(w, i, before, verified, all, Verdict(w, Search(w, i, seen, verified, last, After(w, i, path))))
    decreases Unseen(seen)
  {
    hide WellFormed, Unseen, KeyFor, KeyAbove, Distinct;
    SignersInRange(w);
    BlockInRange(w, i);
    var x := After(w, i, path);
    all := path;
    if x.Some? && !seen[x.value] && KeyFor(w, x.value).Missing?
       && KeyFor(w, x.value).err != ENOMEM && w.signer[x.value] != x {
      PassedOne(w, i, before, path);
      SeenOne(before, seen, path, x.value);
      all := SearchExplainedFrom(w, i, before, seen[x.value := true], verified, path + [x.value]);
    }
  }

  lemma PassedOne(w: World, i: nat, seen: seq<bool>, path: seq<nat>)
    requires WellFormed(w) && i < |w.infos| && |seen| == |w.certs| && Passed(w, i, seen, path)
    requires var x := After(w, i, path);
      && x.Some? && x.value < |w.certs| && !seen[x.value]
      && KeyFor(w, x.value).Missing? && KeyFor(w, x.value).err != ENOMEM && w.signer[x.value] != x
    ensures Passed(w, i, seen, path + [After(w, i, path).value])
  {
    hide WellFormed, KeyFor;
    SignersInRange(w);
    var c := After(w, i, path).value;
    var q := path + [c];
    forall k | 0 <= k < |q| - 1
      ensures w.signer[q[k]] == Some(q[k + 1])
    {
      if k < |path| - 1 {
        assert w.signer[path[k]] == Some(path[k + 1]);
      }
    }
  }

  /** The result of a block is decided at the end of the certificates it passes. */
  lemma SearchExplained(w: World, i: nat, seen: seq<bool>, verified: seq<bool>) returns (path: seq<nat>)
    requires WellFormed(w) && i < |w.infos| && |seen| == |verified| == |w.certs|
    ensures InRange(w, w.infos[i].signer) && Passed(w, i, seen, path)
    ensures TrustResult(w, i, seen, verified, path, Verdict(w, Search(w, i, seen, verified, None, w.infos[i].signer)))
  {
    hide TrustResult, Search, Verdict;
    path := SearchExplainedFrom(w, i, seen, seen, verified, []);
  }

  /** The flags x509->seen and x509->verified of a message whose links are settled. */
  class TrustCheck {
    const w: World
    var seen: seq<bool>
    var verified: seq<bool>

    constructor (w: World)
      requires WellFormed(w)
      ensures this.w == w && Valid() && verified == seq(|w.certs|, _ => false)
    {
      this.w := w;
      seen := seq(|w.certs|, _ => false);
      verified := seq(|w.certs|, _ => false);
    }

    ghost predicate Valid()
      reads this
    {
      WellFormed(w) && |seen| == |verified| == |w.certs| && Sound(w, verified)
    }

    /** The loop over the chain of block i, up to the labels `matched` and `verified`. */
    method WalkChain(i: nat) returns (r: Walk, ghost path: seq<nat>)
      requires Valid() && i < |w.infos| && Exhausted(w, seen, verified)
      modifies this`seen
      ensures Valid() && SeenAfter(old(seen), seen, path)
      ensures r == Search(w, i, old(seen), verified, None, w.infos[i].signer)
      ensures r.Matched? && r.x.Some? ==>
        Chain(w, path) && w.infos[i].signer == Some(path[0]) && r.x == Some(path[|path| - 1]) && r.x.value < |w.certs|
      ensures r.Matched? && r.x.Some? && w.ring.verify(r.key, r.sig) >= 0 ==> Anchor(w, r.x.value)
      ensures r.Matched? && r.x.None? ==>
        r.sig == w.infos[i].sig && w.ring.find(w.infos[i].sig.auth0, None) == Found(r.key)
      ensures r.Matched? && r.x.None? ==> Exhausted(w, seen, verified)
      ensures r.Cached? ==>
        Chain(w, path + [r.c]) && w.infos[i].signer == Some((path + [r.c])[0]) && Backed(w, r.c) && r.c !in path
      ensures r.Ended? ==> r.err < 0
      ensures r.Ended? && r.err != ENOMEM ==> Exhausted(w, seen, verified)
      ensures r.Ended? && r.err != ENOMEM && w.infos[i].signer.Some? ==> Hopeless(w, w.infos[i].signer.value)
    {
      hide WellFormed, Chain, Anchor, Exhausted, Sound, SeenAfter, Walking, Hopeless, Unseen, Backed;
      var info := w.infos[i];
      var x, last := info.signer, None;
      path := [];
      StartWalk(w, i, seen);
      while x.Some?
        invariant Valid() && SeenAfter(old(seen), seen, path) && Walking(w, i, path, x)
        invariant last == if path == [] then None else Some(path[|path| - 1])
        invariant InRange(w, last) && InRange(w, x)
        invariant Search(w, i, seen, verified, last, x) == Search(w, i, old(seen), verified, None, info.signer)
        decreases Unseen(seen)
      {
        var c := x.value;
        WalkShape(w, i, path, x);
        WalkingOn(w, i, path, c);
        if seen[c] {
          if verified[c] {
            CachedYes(w, i, path, c, verified);
            return Cached(c), path;
          }
          CachedNo(w, i, path, c, old(seen), seen, verified);
          return Ended(ENOKEY), path;
        }
        SeenOne(old(seen), seen, path, c);
        seen := seen[c := true];
        ghost var pending := PendingSig(w, i, path);
        path := path + [c];
        var key := KeyFor(w, c);
        if key.Found? {
          MatchAtCert(w, c, pending);
          return Matched(Some(c), key.key, if last.Some? then w.certs[last.value].sig else info.sig), path;
        }
        if key.err == ENOMEM {
          return Ended(ENOMEM), path;
        }
        if w.signer[c] == Some(c) {
          DeadEnd(w, i, path, Some(c));
          StillExhausted(w, old(seen), seen, verified, path);
          return Ended(ENOKEY), path;
        }
        last := Some(c);
        x := w.signer[c];
      }
      r := AboveTheTop(i, last, path);
      if r.Matched? && r.x.Some? {
        TopPath(w, i, path);
      } else if r.Matched? || r.err != ENOMEM {
        DeadEnd(w, i, path, None);
        StillExhausted(w, old(seen), seen, verified, path);
      }
    }

    /** After the loop: a key above the last certificate, or one for the block itself. */
    method AboveTheTop(i: nat, last: Option<nat>, ghost path: seq<nat>) returns (r: Walk)
      requires Valid() && i < |w.infos| && Walking(w, i, path, None)
      requires last == if path == [] then None else Some(path[|path| - 1])
      requires InRange(w, last)
      ensures r == AboveTop(w, i, last)
      ensures r.Matched? || r.Ended?
      ensures r.Matched? && r.x.Some? ==> path != [] && r.x == last
      ensures r.Matched? && r.x.Some? && w.ring.verify(r.key, r.sig) >= 0 ==> Anchor(w, path[|path| - 1])
      ensures r.Matched? && r.x.None? ==>
        r.sig == w.infos[i].sig && w.ring.find(w.infos[i].sig.auth0, None) == Found(r.key)
      ensures r.Ended? ==> r.err < 0
      ensures !(r.Matched? && r.x.Some?) && (r.Ended? ==> r.err != ENOMEM) && path != [] ==>
        KeyAbove(w, path[|path| - 1]).Missing?
    {
      if last.Some? {
        var c := last.value;
        assert c == path[|path| - 1];
        var sig := w.certs[c].sig;
        if sig.auth0.Some? || sig.auth1.Some? {
          var key := w.ring.find(sig.auth0, sig.auth1);
          if key.Found? {
            return Matched(last, key.key, sig);
          }
          if key.err != ENOKEY {
            return Ended(key.err);
          }
        }
      }
      var key := w.ring.find(w.infos[i].sig.auth0, None);
      if key.Found? {
        return Matched(None, key.key, w.infos[i].sig);
      }
      return Ended(key.err);
    }

    /** Mark the chain of block i as verified, up to and with its last certificate. */
    method MarkVerified(i: nat, x: nat, ghost path: seq<nat>)
      requires Valid() && i < |w.infos| && Chain(w, path)
      requires w.infos[i].signer == Some(path[0]) && x == path[|path| - 1] && Backed(w, x)
      requires Distinct(path)
      modifies this`verified
      ensures Valid()
      ensures forall c | 0 <= c < |verified| :: verified[c] == (old(verified[c]) || c in path)
      ensures Backed(w, path[0])
    {
      hide Backed, Sound;
      MarkOne(w, verified, x);
      verified := verified[x := true];
      var p := w.infos[i].signer.value;
      ghost var k := 0;
      while p != x
        invariant Valid() && verified[x]
        invariant k < |path| && p == path[k]
        invariant forall c | 0 <= c < |verified| :: verified[c] == (old(verified[c]) || c == x || c in path[..k])
        decreases |path| - k
      {
        assert k < |path| - 1;
        BackedAlong(w, path, k);
        MarkOne(w, verified, p);
        verified := verified[p := true];
        assert w.signer[path[k]] == Some(path[k + 1]);
        p := w.signer[p].value;
        k := k + 1;
        assert path[..k] == path[..k - 1] + [path[k - 1]];
      }
      assert k == |path| - 1 && path == path[..k] + [x];
      BackedAlong(w, path, 0);
    }

    /**
     * pkcs7_validate_trust_one.  Zero is only returned for a trusted block,
     * -ENOKEY only when no trusted key is known along its chain.
     */
    method ValidateTrustOne(i: nat) returns (ret: int, ghost path: seq<nat>)
      requires Valid() && i < |w.infos| && Exhausted(w, seen, verified)
      modifies this
      ensures Valid() && ret <= 0
      ensures ret == if w.infos[i].unsupportedCrypto then ENOPKG
        else Verdict(w, Search(w, i, old(seen), old(verified), None, w.infos[i].signer))
      ensures Passed(w, i, old(seen), path)
      ensures !w.infos[i].unsupportedCrypto ==> TrustResult(w, i, old(seen), old(verified), path, ret)
      ensures ret != 0 ==> verified == old(verified)
      ensures ret == 0 ==> Trusted(w, i) && !w.infos[i].unsupportedCrypto
      ensures ret == ENOKEY && w.infos[i].signer.Some? ==> Hopeless(w, w.infos[i].signer.value)
      ensures ret == 0 || ret == ENOKEY ==> (ret == 0 <==> Accepted(w, old(seen), i))
      ensures w.infos[i].unsupportedCrypto ==> ret == ENOPKG
      ensures ret == 0 || ret == ENOKEY || ret == ENOPKG ==> Exhausted(w, seen, verified)
    {
      hide WellFormed, Chain, Anchor, Exhausted, Sound, SeenAfter, Walking, Hopeless, Unseen, Backed, Search, OpenFrom,
        Passed, TrustResult;
      BlockInRange(w, i);
      path := SearchExplained(w, i, seen, verified);
      if w.infos[i].unsupportedCrypto {
        return ENOPKG, path;
      }
      ghost var before := seen;
      var r, walked := WalkChain(i);
      match r
      case Ended(err) =>
        ret := err;
        if err == ENOKEY {
          EndedNotAccepted(w, i, before, old(verified));
        }
      case Cached(c) =>
        DistinctMore(before, seen, walked, c);
        MarkVerified(i, c, walked + [c]);
        MarkedExhausted(w, before, seen, old(verified), verified, walked);
        ret := 0;
      case Matched(x, key, sig) =>
        var v := w.ring.verify(key, sig);
        if v < 0 {
          ret := if v == ENOMEM then v else EKEYREJECTED;
        } else {
          ret := 0;
          if x.Some? {
            AnchorBacked(w, x.value);
            DistinctMore(before, seen, walked, |w.certs|);
            MarkVerified(i, x.value, walked);
            MarkedExhausted(w, before, seen, old(verified), verified, walked);
          } else {
            DirectAccepted(w, i, before, old(verified));
          }
        }
    }

    /** pkcs7_validate_trust: the results of the blocks it looked at, and the overall one. */
    method ValidateTrust() returns (ret: int, ghost results: seq<int>)
      requires Valid()
      modifies this
      ensures Valid()
      ensures |results| <= |w.infos| && Overall(results, |w.infos|, ret)
      ensures forall i | 0 <= i < |results| ::
        && (results[i] == 0 ==> Trusted(w, i))
        && (results[i] == ENOKEY && w.infos[i].signer.Some? ==> !Backed(w, w.infos[i].signer.value))
    {
      hide WellFormed, Exhausted, Sound, Hopeless, Backed, Trusted;
      var p := 0;
      while p < |w.certs|
        invariant Valid() && p <= |w.certs|
        invariant forall c | 0 <= c < p :: !seen[c]
      {
        seen := seen[p := false];
        p := p + 1;
      }
      NothingSeen(w, seen, verified);
      var cached, i := ENOKEY, 0;
      results := [];
      while i < |w.infos|
        invariant Valid() && Exhausted(w, seen, verified)
        invariant i == |results| <= |w.infos|
        invariant forall r | r in results :: Soft(r)
        invariant cached == Best(results)
        invariant forall j | 0 <= j < i :: results[j] == 0 ==> Trusted(w, j)
        invariant forall j | 0 <= j < i ::
          results[j] == ENOKEY && w.infos[j].signer.Some? ==> !Backed(w, w.infos[j].signer.value)
      {
        ghost var path;
        ret, path := ValidateTrustOne(i);
        if ret == ENOKEY && w.infos[i].signer.Some? {
          HopelessNotBacked(w, w.infos[i].signer.value);
        }
        ghost var earlier := results;
        results := results + [ret];
        assert results[..|results| - 1] == earlier && ret in results;
        if ret == ENOPKG {
          if cached == ENOKEY {
            cached := ENOPKG;
          }
        } else if ret == 0 {
          cached := 0;
        } else if ret != ENOKEY {
          return;
        }
        i := i + 1;
      }
      ret := cached;
    }
  }

  predicate Soft(r: int) {
    r == 0 || r == ENOKEY || r == ENOPKG
  }

  /** Zero before -ENOPKG before -ENOKEY. */
  function Best(results: seq<int>): int {
    if 0 in results then 0 else if ENOPKG in results then ENOPKG else ENOKEY
  }

  /** The first hard error ends the run; without one every block counts. */
  ghost predicate Overall(results: seq<int>, blocks: nat, ret: int) {
    if forall r | r in results :: Soft(r) then |results| == blocks && ret == Best(results)
    else
      && results != [] && ret == results[|results| - 1] && !Soft(ret)
      && forall r | r in results[..|results| - 1] :: Soft(r)
  }

  /**
   * The overall result is 0 exactly when some block gave 0 and none a hard
   * error, -ENOKEY exactly when every block gave that, and a hard error exactly
   * when some block gave it.
   */
  lemma OverallZero(results: seq<int>, blocks: nat, ret: int)
    requires Overall(results, blocks, ret)
    ensures ret == 0 <==> 0 in results && forall r | r in results :: Soft(r)
    ensures ret == ENOKEY <==> forall r | r in results :: r == ENOKEY
    ensures !Soft(ret) <==> exists k :: 0 <= k < |results| && !Soft(results[k]) && ret == results[k]
    ensures |results| < blocks ==> !Soft(ret)
  {
  }

  lemma NothingSeen(w: World, seen: seq<bool>, verified: seq<bool>)
    requires WellFormed(w) && |seen| == |verified| == |w.certs|
    requires forall c | 0 <= c < |seen| :: !seen[c]
    ensures Exhausted(w, seen, verified)
  {
  }
}
