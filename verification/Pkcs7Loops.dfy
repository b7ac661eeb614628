/**
 * Loops of signer links (compat/verification/pkcs7_verify.c): when a climb of
 * the certificate chain leaves one behind.
 */
module Pkcs7Loops {
  import opened Wrappers
  import opened Pkcs7
  import opened Pkcs7Verify

  type Links = seq<Option<nat>>

  /** Where n links lead from c. */
  function Follow(s: Links, c: nat, n: nat): Option<nat>
    decreases n
  {
    if n == 0 then Some(c)
    else if c < |s| && s[c].Some? then Follow(s, s[c].value, n - 1)
    else None
  }

  /** Links lead back to a certificate only where it is linked to itself. */
  ghost predicate NoLoop(s: Links) {
    forall c: nat, n: nat | n > 0 && Follow(s, c, n) == Some(c) :: c < |s| && s[c] == Some(c)
  }

  lemma {:induction false} FollowSum(s: Links, c: nat, m: nat, n: nat)
    ensures Follow(s, c, m).None? ==> Follow(s, c, m + n).None?
    ensures Follow(s, c, m).Some? ==> Follow(s, c, m + n) == Follow(s, Follow(s, c, m).value, n)
    decreases m
  {
    if m > 0 && c < |s| && s[c].Some? {
      FollowSum(s, s[c].value, m - 1, n);
    }
  }

  /** The first n certificates met from c are not in p. */
  ghost predicate Avoids(s: Links, c: nat, n: nat, p: set<nat>) {
    forall m | 0 <= m < n && Follow(s, c, m).Some? :: Follow(s, c, m).value !in p
  }

  ghost predicate SameOutside(s: Links, s': Links, p: set<nat>) {
    |s| == |s'| && forall c | 0 <= c < |s| && c !in p :: s[c] == s'[c]
  }

  lemma {:induction false} FollowSame(s: Links, s': Links, c: nat, n: nat, p: set<nat>)
    requires SameOutside(s, s', p) && Avoids(s, c, n, p)
    ensures Follow(s', c, n) == Follow(s, c, n)
    decreases n
  {
    if n > 0 {
      assert Follow(s, c, 0) == Some(c);
      assert c !in p;
      if c < |s| && s[c].Some? {
        var d := s[c].value;
        forall m | 0 <= m < n - 1 && Follow(s, d, m).Some?
          ensures Follow(s, d, m).value !in p
        {
          assert Follow(s, c, m + 1) == Follow(s, d, m);
        }
        FollowSame(s, s', d, n - 1, p);
      }
    }
  }

  /** Links that lead into p enter it somewhere first. */
  lemma {:induction false} FirstHit(s: Links, c: nat, n: nat, p: set<nat>) returns (r: nat)
    requires Follow(s, c, n).Some? && Follow(s, c, n).value in p
    ensures r <= n && Follow(s, c, r).Some? && Follow(s, c, r).value in p && Avoids(s, c, r, p)
    decreases n
  {
    if m: nat :| m < n && Follow(s, c, m).Some? && Follow(s, c, m).value in p {
      r := FirstHit(s, c, m, p);
    } else {
      r := n;
    }
  }

  /** Links that lead back once do so again and again. */
  lemma {:induction false} LeadsBackAgain(s: Links, c: nat, n: nat, least: nat) returns (m: nat)
    requires n > 0 && Follow(s, c, n) == Some(c)
    ensures m >= least && Follow(s, c, m) == Some(c)
    decreases least
  {
    if least == 0 {
      m := 0;
    } else {
      var k := LeadsBackAgain(s, c, n, least - 1);
      FollowSum(s, c, k, n);
      m := k + n;
    }
  }

  // ----- one climb -----

  /** The certificates of a path but the last. */
  function Climbers(path: seq<nat>): set<nat>
    requires path != []
  {
    var front := path[..|path| - 1];
    set c | c in front
  }

  ghost predicate Distinct(path: seq<nat>) {
    forall j, k | 0 <= j < k < |path| :: path[j] != path[k]
  }

  /** The old links lead from the last certificate of the path to an earlier one. */
  ghost predicate LeadsBack(before: Links, path: seq<nat>)
    requires path != []
  {
    var last, climbers := path[|path| - 1], Climbers(path);
    exists n: nat :: Follow(before, last, n).Some? && Follow(before, last, n).value in climbers
  }

  /** The new links: those of the path, and perhaps one from its end to itself. */
  ghost predicate NewLinks(before: Links, now: Links, path: seq<nat>, selfLink: bool) {
    && path != [] && Distinct(path) && (forall k | 0 <= k < |path| :: path[k] < |before|)
    && LinkedAlong(before, now, if selfLink then path + [path[|path| - 1]] else path)
  }

  lemma NewLinksShape(before: Links, now: Links, path: seq<nat>, selfLink: bool)
    requires NewLinks(before, now, path, selfLink)
    ensures |now| == |before| && path != [] && forall k | 0 <= k < |path| :: path[k] < |now|
    ensures Distinct(path)
  {
  }

  lemma NewLinksAlong(before: Links, now: Links, path: seq<nat>, selfLink: bool, k: nat)
    requires NewLinks(before, now, path, selfLink) && k < |path| - 1
    ensures now[path[k]] == Some(path[k + 1])
  {
    var q := if selfLink then path + [path[|path| - 1]] else path;
    assert q[k] == path[k] && q[k + 1] == path[k + 1];
  }

  lemma NewSelfLink(before: Links, now: Links, path: seq<nat>)
    requires NewLinks(before, now, path, true)
    ensures now[path[|path| - 1]] == Some(path[|path| - 1])
  {
    var q := path + [path[|path| - 1]];
    assert q[|q| - 2] == path[|path| - 1] == q[|q| - 1];
  }

  lemma NewLinksOutside(before: Links, now: Links, path: seq<nat>, selfLink: bool)
    requires NewLinks(before, now, path, selfLink)
    ensures SameOutside(before, now, if selfLink then Climbers(path) + {path[|path| - 1]} else Climbers(path))
  {
    var last, front := path[|path| - 1], path[..|path| - 1];
    if selfLink {
      var q := path + [last];
      assert q[..|q| - 1] == path;
      assert path == front + [last];
    }
  }

  lemma NewLinksMeaning(before: Links, now: Links, path: seq<nat>, selfLink: bool)
    requires NewLinks(before, now, path, selfLink)
    ensures |now| == |before| && path != [] && forall k | 0 <= k < |path| :: path[k] < |now|
    ensures Distinct(path) && forall k | 0 <= k < |path| - 1 :: now[path[k]] == Some(path[k + 1])
    ensures selfLink ==> now[path[|path| - 1]] == Some(path[|path| - 1])
    ensures SameOutside(before, now, if selfLink then Climbers(path) + {path[|path| - 1]} else Climbers(path))
  {
    hide NewLinks, SameOutside, Climbers;
    NewLinksShape(before, now, path, selfLink);
    forall k | 0 <= k < |path| - 1
      ensures now[path[k]] == Some(path[k + 1])
    {
      NewLinksAlong(before, now, path, selfLink, k);
    }
    if selfLink {
      NewSelfLink(before, now, path);
    }
    NewLinksOutside(before, now, path, selfLink);
  }

  lemma {:induction false} FollowPath(now: Links, path: seq<nat>, j: nat)
    requires j < |path| && (forall k | 0 <= k < |path| :: path[k] < |now|)
    requires forall k | 0 <= k < |path| - 1 :: now[path[k]] == Some(path[k + 1])
    ensures Follow(now, path[j], |path| - 1 - j) == Some(path[|path| - 1])
    decreases |path| - j
  {
    if j < |path| - 1 {
      FollowPath(now, path, j + 1);
    }
  }

  /** Old links back into the path close a loop with it. */
  lemma BackLinkLoops(before: Links, now: Links, path: seq<nat>)
    requires NewLinks(before, now, path, false) && LeadsBack(before, path)
    ensures !NoLoop(now)
  {
    hide NewLinks, Follow, Avoids, SameOutside;
    NewLinksMeaning(before, now, path, false);
    var last, p := path[|path| - 1], Climbers(path);
    var n: nat :| Follow(before, last, n).Some? && Follow(before, last, n).value in p;
    var r := FirstHit(before, last, n, p);
    FollowSame(before, now, last, r, p);
    var c := Follow(before, last, r).value;
    var j :| 0 <= j < |path| - 1 && path[j] == c;
    FollowPath(now, path, j);
    FollowSum(now, c, |path| - 1 - j, r);
    assert Follow(now, c, |path| - 1 - j + r) == Some(c) && now[c] == Some(path[j + 1]);
  }

  /** A loop that touches none of the changed links was there before. */
  lemma OldLoop(before: Links, now: Links, p: set<nat>, c: nat, n: nat)
    requires NoLoop(before) && SameOutside(before, now, p) && n > 0
    requires Follow(now, c, n) == Some(c) && Avoids(now, c, n, p)
    ensures c < |now| && now[c] == Some(c)
  {
    FollowSame(now, before, c, n, p);
    assert Follow(now, c, 0) == Some(c);
  }

  /** A loop that touches the path can be followed from any of its certificates. */
  lemma LoopFrom(s: Links, c: nat, n: nat, m: nat)
    requires n > 0 && Follow(s, c, n) == Some(c) && Follow(s, c, m).Some?
    ensures Follow(s, Follow(s, c, m).value, n) == Follow(s, c, m)
  {
    FollowSum(s, c, m, n);
    FollowSum(s, c, n, m);
    assert m + n == n + m;
  }

  /** From a certificate of the path, a loop leads to its end and back again. */
  lemma LoopThroughEnd(now: Links, path: seq<nat>, j: nat, n: nat) returns (m: nat)
    requires j < |path| && (forall k | 0 <= k < |path| :: path[k] < |now|)
    requires forall k | 0 <= k < |path| - 1 :: now[path[k]] == Some(path[k + 1])
    requires n > 0 && Follow(now, path[j], n) == Some(path[j])
    ensures Follow(now, path[|path| - 1], m) == Some(path[j])
  {
    var d := |path| - 1 - j;
    var k := LeadsBackAgain(now, path[j], n, d);
    FollowPath(now, path, j);
    FollowSum(now, path[j], d, k - d);
    m := k - d;
  }

  lemma NoBackLinkNoLoop(before: Links, now: Links, path: seq<nat>, c: nat, n: nat)
    requires NewLinks(before, now, path, false) && NoLoop(before) && !LeadsBack(before, path)
    requires n > 0 && Follow(now, c, n) == Some(c)
    ensures c < |now| && now[c] == Some(c)
  {
    hide NoLoop, NewLinks, Follow;
    NewLinksMeaning(before, now, path, false);
    var last, p := path[|path| - 1], Climbers(path);
    if Avoids(now, c, n, p) {
      OldLoop(before, now, p, c, n);
    } else {
      var m :| 0 <= m < n && Follow(now, c, m).Some? && Follow(now, c, m).value in p;
      LoopFrom(now, c, n, m);
      var j :| 0 <= j < |path| - 1 && path[j] == Follow(now, c, m).value;
      var k := LoopThroughEnd(now, path, j, n);
      var r := FirstHit(now, last, k, p);
      FollowSame(now, before, last, r, p);
    }
  }

  lemma {:induction false} FollowSelf(s: Links, c: nat, n: nat)
    requires c < |s| && s[c] == Some(c)
    ensures Follow(s, c, n) == Some(c)
  {
    if n > 0 {
      FollowSelf(s, c, n - 1);
    }
  }

  lemma SelfLinkNoLoop(before: Links, now: Links, path: seq<nat>, c: nat, n: nat)
    requires NewLinks(before, now, path, true) && NoLoop(before)
    requires n > 0 && Follow(now, c, n) == Some(c)
    ensures c < |now| && now[c] == Some(c)
  {
    hide NoLoop, NewLinks, Follow, SameOutside;
    NewLinksMeaning(before, now, path, true);
    var last := path[|path| - 1];
    var p := Climbers(path) + {last};
    if Avoids(now, c, n, p) {
      OldLoop(before, now, p, c, n);
    } else {
      var m :| 0 <= m < n && Follow(now, c, m).Some? && Follow(now, c, m).value in p;
      LoopFrom(now, c, n, m);
      var j :| 0 <= j < |path| && path[j] == Follow(now, c, m).value;
      var k := LoopThroughEnd(now, path, j, n);
      FollowSelf(now, last, k);
      FollowSum(now, c, m, n - m);
      FollowSelf(now, last, n - m);
    }
  }

  /**
   * A climb over links without loops leaves no loop if and only if it ends in a
   * self-signed certificate or the old links do not lead from its end back to an
   * earlier certificate of the climb.
   */
  lemma ClimbLoopFree(certs: seq<Cert>, verify: VerifyFn, blacklisted: seq<bool>, path: seq<nat>,
                      before: Links, now: Links, ret: int)
    requires |blacklisted| == |certs| == |before| && Climbed(certs, verify, blacklisted, path)
    requires Stopped(certs, verify, blacklisted, path, before, now, ret) && NoLoop(before)
    ensures var last := path[|path| - 1];
      NoLoop(now) <==> MoveFrom(certs, verify, blacklisted, path, last).selfLink || !LeadsBack(before, path)
  {
    hide NoLoop, LeadsBack, MoveFrom, Climbed;
    PathFacts(certs, verify, blacklisted, path);
    var last := path[|path| - 1];
    var selfLink := MoveFrom(certs, verify, blacklisted, path, last).selfLink;
    assert NewLinks(before, now, path, selfLink);
    if !selfLink && LeadsBack(before, path) {
      BackLinkLoops(before, now, path);
    } else {
      forall c: nat, n: nat | n > 0 && Follow(now, c, n) == Some(c)
        ensures c < |now| && now[c] == Some(c)
      {
        if selfLink {
          SelfLinkNoLoop(before, now, path, c, n);
        } else {
          NoBackLinkNoLoop(before, now, path, c, n);
        }
      }
      AllLoopsTrivial(now);
    }
  }

  lemma AllLoopsTrivial(s: Links)
    requires forall c: nat, n: nat | n > 0 && Follow(s, c, n) == Some(c) :: c < |s| && s[c] == Some(c)
    ensures NoLoop(s)
  {
  }

  /** The first climb of a message leaves no loop. */
  lemma FirstClimbLoopFree(certs: seq<Cert>, verify: VerifyFn, blacklisted: seq<bool>, path: seq<nat>,
                           before: Links, now: Links, ret: int)
    requires |blacklisted| == |certs| == |before| && Climbed(certs, verify, blacklisted, path)
    requires Stopped(certs, verify, blacklisted, path, before, now, ret)
    requires forall c | 0 <= c < |before| :: before[c].None?
    ensures NoLoop(now)
  {
    hide MoveFrom, Climbed, Stopped;
    PathFacts(certs, verify, blacklisted, path);
    assert NoLoop(before);
    ClimbLoopFree(certs, verify, blacklisted, path, before, now, ret);
  }

  /** The links that two climbs over certificates naming each other leave behind do form a loop. */
  lemma TwoLinksLoop()
    ensures LeadsBack([Some(1), None], [1, 0]) && !NoLoop([Some(1), Some(0)])
  {
    var one, both: Links := [Some(1), None], [Some(1), Some(0)];
    var path: seq<nat> := [1, 0];
    var last, climbers := path[|path| - 1], Climbers(path);
    assert path[..1] == [1] && 1 in climbers;
    assert Follow(one, last, 1) == Follow(one, 1, 0) == Some(1);
    assert Follow(both, 0, 2) == Follow(both, 1, 1) == Follow(both, 0, 0) == Some(0);
  }
}
