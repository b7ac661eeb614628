/**
  The menu tree as linked nodes (kconf/menu.c). A node is named by its position
  in the order in which the parser created it, which is the preorder of the
  parsed tree; `next`, `list` and `parent` hold the pointers of every node.
*/
module MenuTree {
  import opened MenuShape

  /** The pointers of all nodes at one moment. */
  datatype Pointers = Pointers(next: seq<int>, list: seq<int>, parent: seq<int>)

  ghost predicate Sized(s: Pointers, n: nat) {
    |s.next| == n && |s.list| == n && |s.parent| == n
  }

  /** The pointers of node `i` are those of a tree with depths `d`. */
  ghost predicate Ok(s: Pointers, d: Depths, i: nat)
    requires Sized(s, |d|) && i < |d|
  {
    s.list[i] == ListOf(d, i) && s.next[i] == NextOf(d, i) && s.parent[i] == ParentOf(d, i)
  }

  ghost predicate Linked(s: Pointers, d: Depths, lo: nat, hi: nat) {
    Sized(s, |d|) && hi <= |d| && forall i | lo <= i < hi :: Ok(s, d, i)
  }

  /** The two states agree on node `i`. */
  ghost predicate SameAt(s: Pointers, s': Pointers, i: nat)
    requires Sized(s, |s.next|) && Sized(s', |s.next|) && i < |s.next|
  {
    s'.next[i] == s.next[i] && s'.list[i] == s.list[i] && s'.parent[i] == s.parent[i]
  }

  /** The two states agree on every node outside the range. */
  ghost predicate SameOutside(s: Pointers, s': Pointers, lo: nat, hi: nat) {
    && Sized(s, |s.next|) && Sized(s', |s.next|)
    && forall i | 0 <= i < |s.next| && !(lo <= i < hi) :: SameAt(s, s', i)
  }

  lemma SameOutsideTrans(s: Pointers, s': Pointers, s'': Pointers, lo: nat, hi: nat)
    requires SameOutside(s, s', lo, hi) && SameOutside(s', s'', lo, hi)
    ensures SameOutside(s, s'', lo, hi)
  {
    forall i | 0 <= i < |s.next| && !(lo <= i < hi)
      ensures SameAt(s, s'', i)
    {
      assert SameAt(s, s', i) && SameAt(s', s'', i);
    }
  }

  /** A local change below one node of a larger range leaves the whole range linked. */
  lemma LinkedAround(s: Pointers, s': Pointers, d: Depths, d': Depths, lo: nat, m: nat, e: nat, hi: nat)
    requires Linked(s, d, lo, hi) && Linked(s', d', m, e) && SameOutside(s, s', m, e)
    requires Local(d, d', m, e) && lo <= m && e <= hi
    ensures Linked(s', d', lo, hi)
  {
    forall i | lo <= i < hi
      ensures Ok(s', d', i)
    {
      if i < m {
        LocalBefore(d, d', m, e, i);
        assert Ok(s, d, i) && SameAt(s, s', i);
      } else if e <= i {
        LocalAfter(d, d', m, e, i);
        assert Ok(s, d, i) && SameAt(s, s', i);
      }
    }
  }

  // ----- flattening -----

  /** `m` is a child of `p` and has children of its own; `last` is the last of them. */
  ghost predicate FlattenSite(d: Depths, p: nat, m: nat, last: nat) {
    && p < m < last < |d| && CanLower(d, m)
    && d[m] == d[p] + 1 && m < End(d, p)
    && last < End(d, m) && d[last] == d[m] + 1 && NextOf(d, last) == NULL
  }

  /** What lines 496-503 of _menu_finalize do to the pointers. */
  ghost predicate FlattenEffect(s: Pointers, s': Pointers, d: Depths, p: nat, m: nat, last: nat)
    requires Sized(s, |d|) && FlattenSite(d, p, m, last)
  {
    && s'.next == s.next[last := s.next[m]][m := s.list[m]]
    && s'.list == s.list[m := NULL]
    && |s'.parent| == |d|
    && forall i | 0 <= i < |d| ::
         s'.parent[i] == if m < i < End(d, m) && d[i] == d[m] + 1 then p else s.parent[i]
  }

  /** The last child ends where its parent ends. */
  lemma LastChildEnd(d: Depths, m: nat, last: nat)
    requires m < last < |d| && last < End(d, m) && d[last] == d[m] + 1 && NextOf(d, last) == NULL
    ensures End(d, last) == End(d, m)
  {
    var e := End(d, last);
    ScanUnique(d, d[m], m + 1, e);
  }

  lemma FlattenInside(s: Pointers, s': Pointers, d: Depths, p: nat, m: nat, last: nat, i: nat)
    requires Sized(s, |d|) && FlattenSite(d, p, m, last) && FlattenEffect(s, s', d, p, m, last)
    requires m < i < End(d, m) && Ok(s, d, i) && Ok(s, d, m)
    ensures Ok(s', Lower(d, m + 1, End(d, m)), i)
  {
    LowerInside(d, m, i);
    LastChildEnd(d, m, last);
    assert i != last && d[i] == d[m] + 1 ==> End(d, i) != End(d, m) by {
      if i < last && d[i] == d[m] + 1 {
        assert End(d, i) <= last;
      } else if last < i {
        assert i < End(d, last);
        assert d[i] > d[last];
      }
    }
    BackUnique(d, d[m], m, p) by {
      assert forall k | p < k < m :: d[k] > d[p];
    }
  }

  lemma FlattenAt(s: Pointers, s': Pointers, d: Depths, p: nat, m: nat, last: nat, i: nat)
    requires Sized(s, |d|) && FlattenSite(d, p, m, last) && FlattenEffect(s, s', d, p, m, last)
    requires i < |d| && Ok(s, d, i) && Ok(s, d, m)
    ensures Ok(s', Lower(d, m + 1, End(d, m)), i)
  {
    hide NextOf, ParentOf, Scan;
    var d' := Lower(d, m + 1, End(d, m));
    LowerAtNode(d, m);
    if i < m {
      LocalBefore(d, d', m, End(d, m), i);
    } else if End(d, m) <= i {
      LocalAfter(d, d', m, End(d, m), i);
    } else if m < i {
      FlattenInside(s, s', d, p, m, last, i);
    }
  }

  lemma FlattenLinked(s: Pointers, s': Pointers, d: Depths, p: nat, m: nat, last: nat, hi: nat)
    requires Linked(s, d, p, hi) && FlattenSite(d, p, m, last) && FlattenEffect(s, s', d, p, m, last)
    requires End(d, p) <= hi
    ensures Linked(s', Lower(d, m + 1, End(d, m)), p, hi)
  {
    var d' := Lower(d, m + 1, End(d, m));
    assert Ok(s, d, m);
    forall i | p <= i < hi
      ensures Ok(s', d', i)
    {
      assert Ok(s, d, i);
      FlattenAt(s, s', d, p, m, last, i);
    }
  }

  // ----- automatic submenus -----

  /** The siblings of `p` from `p + 1` to `last` are to become its children; `hi` is where `last` ends. */
  ghost predicate AdoptSite(d: Depths, p: nat, last: nat, hi: nat) {
    && p < last < hi <= |d| && d[p + 1] == d[p] && d[last] == d[p] && End(d, last) == hi
    && forall i | p < i < hi :: d[i] >= d[p]
  }

  /** What lines 455-461 of _menu_finalize do to the pointers. */
  ghost predicate AdoptEffect(s: Pointers, s': Pointers, d: Depths, p: nat, last: nat, hi: nat)
    requires Sized(s, |d|) && AdoptSite(d, p, last, hi)
  {
    && s'.list == s.list[p := s.next[p]]
    && s'.next == s.next[p := s.next[last]][last := NULL]
    && |s'.parent| == |d|
    && forall i | 0 <= i < |d| :: s'.parent[i] == if p < i < hi && d[i] == d[p] then p else s.parent[i]
  }

  lemma AdoptInside(s: Pointers, s': Pointers, d: Depths, p: nat, last: nat, hi: nat, i: nat)
    requires Sized(s, |d|) && AdoptSite(d, p, last, hi) && AdoptEffect(s, s', d, p, last, hi)
    requires p < i < hi && Ok(s, d, i)
    ensures Ok(s', Raise(d, p + 1, hi), i)
  {
    RaiseInside(d, p, hi, i);
    assert i != last && d[i] == d[p] ==> End(d, i) != hi by {
      if i < last && d[i] == d[p] {
        assert End(d, i) <= last;
      } else if last < i {
        assert i < End(d, last);
        assert d[i] > d[last];
      }
    }
  }

  lemma AdoptBehind(s: Pointers, s': Pointers, d: Depths, p: nat, last: nat, hi: nat, i: nat)
    requires Sized(s, |d|) && AdoptSite(d, p, last, hi) && AdoptEffect(s, s', d, p, last, hi)
    requires hi <= i < |d| && Ok(s, d, i)
    ensures Ok(s', Raise(d, p + 1, hi), i)
  {
    hide ListOf, NextOf, ParentOf;
    RaiseAtNode(d, p, hi);
    LocalAfter(d, Raise(d, p + 1, hi), p, hi, i);
  }

  lemma AdoptHere(s: Pointers, s': Pointers, d: Depths, p: nat, last: nat, hi: nat)
    requires Sized(s, |d|) && AdoptSite(d, p, last, hi) && AdoptEffect(s, s', d, p, last, hi)
    requires Ok(s, d, p) && Ok(s, d, last)
    ensures Ok(s', Raise(d, p + 1, hi), p)
  {
    RaiseAtNode(d, p, hi);
    ScanUnique(d, d[p], p + 1, p + 1);
  }

  lemma AdoptAt(s: Pointers, s': Pointers, d: Depths, p: nat, last: nat, hi: nat, i: nat)
    requires Sized(s, |d|) && AdoptSite(d, p, last, hi) && AdoptEffect(s, s', d, p, last, hi)
    requires p <= i < |d| && Ok(s, d, i) && Ok(s, d, last)
    ensures Ok(s', Raise(d, p + 1, hi), i)
  {
    hide Ok, AdoptEffect;
    if hi <= i {
      AdoptBehind(s, s', d, p, last, hi, i);
    } else if p < i {
      AdoptInside(s, s', d, p, last, hi, i);
    } else {
      AdoptHere(s, s', d, p, last, hi);
    }
  }

  lemma AdoptLinked(s: Pointers, s': Pointers, d: Depths, p: nat, last: nat, hi: nat, top: nat)
    requires Linked(s, d, p, top) && AdoptSite(d, p, last, hi) && AdoptEffect(s, s', d, p, last, hi)
    requires hi <= top
    ensures Linked(s', Raise(d, p + 1, hi), p, top)
  {
    var d' := Raise(d, p + 1, hi);
    assert Ok(s, d, last);
    forall i | p <= i < top
      ensures Ok(s', d', i)
    {
      assert Ok(s, d, i);
      AdoptAt(s, s', d, p, last, hi, i);
    }
  }
}
