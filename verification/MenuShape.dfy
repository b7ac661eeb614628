/**
  The shape of a menu tree, seen as the depth of each node in preorder. The
  pointers of `struct menu` (kconf/expr.h) are functions of the depths, and the
  tree surgery of _menu_finalize (kconf/menu.c) raises or lowers the depths of a
  contiguous range of nodes.
*/
module MenuShape {

  /** The null pointer. */
  const NULL: int := -1

  type Depths = seq<nat>

  predicate Step(d: Depths, i: nat)
    requires i + 1 < |d|
  {
    d[i + 1] <= d[i] + 1
  }

  /** Depths of a tree: one root, and every node at most one level below its predecessor. */
  ghost predicate ValidDepths(d: Depths) {
    && |d| > 0 && d[0] == 0
    && (forall i | 0 < i < |d| :: d[i] >= 1)
    && (forall i: nat | i + 1 < |d| :: Step(d, i))
  }

  /** The first position from `j` on whose depth is at most `v`. */
  function Scan(d: Depths, v: int, j: nat): (k: nat)
    requires j <= |d|
    ensures j <= k <= |d|
    ensures forall i | j <= i < k :: d[i] > v
    ensures k < |d| ==> d[k] <= v
    decreases |d| - j
  {
    if j == |d| || d[j] <= v then j else Scan(d, v, j + 1)
  }

  /** The last position before `j` whose depth is below `v`, or NULL. */
  function Back(d: Depths, v: int, j: nat): (k: int)
    requires j <= |d|
    ensures NULL <= k < j
    ensures forall i | k < i < j :: d[i] >= v
    ensures k >= 0 ==> d[k] < v
  {
    if j == 0 then NULL else if d[j - 1] < v then j - 1 else Back(d, v, j - 1)
  }

  /** The position after the subtree of `i`. */
  function End(d: Depths, i: nat): (k: nat)
    requires i < |d|
    ensures i < k <= |d|
  {
    Scan(d, d[i], i + 1)
  }

  /** The position after `i` and everything that follows it under the same parent. */
  function RunEnd(d: Depths, i: nat): (k: nat)
    requires i < |d|
    ensures i < k <= |d|
  {
    var level: int := d[i];
    Scan(d, level - 1, i + 1)
  }

  function ListOf(d: Depths, i: nat): int
    requires i < |d|
  {
    if i + 1 < |d| && d[i + 1] > d[i] then i + 1 else NULL
  }

  function NextOf(d: Depths, i: nat): int
    requires i < |d|
  {
    var e := End(d, i);
    if e < |d| && d[e] == d[i] then e else NULL
  }

  function ParentOf(d: Depths, i: nat): int
    requires i < |d|
  {
    Back(d, d[i], i)
  }

  lemma ScanUnique(d: Depths, v: int, j: nat, k: nat)
    requires j <= k <= |d|
    requires forall i | j <= i < k :: d[i] > v
    requires k < |d| ==> d[k] <= v
    ensures Scan(d, v, j) == k
  {
    var s := Scan(d, v, j);
    assert k <= s <= k;
  }

  lemma BackUnique(d: Depths, v: int, j: nat, k: int)
    requires j <= |d| && NULL <= k < j
    requires forall i | k < i < j :: d[i] >= v
    requires k >= 0 ==> d[k] < v
    ensures Back(d, v, j) == k
  {
    var b := Back(d, v, j);
    assert k <= b <= k;
  }

  /** Every node but the root has a parent, one level above it. */
  lemma ParentDepth(d: Depths, i: nat)
    requires ValidDepths(d) && 0 < i < |d|
    ensures ParentOf(d, i) >= 0 && d[ParentOf(d, i)] == d[i] - 1
  {
    var b := ParentOf(d, i);
    assert b >= 0;
    assert Step(d, b);
  }

  /** A node without a next sibling ends where its parent ends. */
  lemma EndOfLastChild(d: Depths, root: nat, m: nat)
    requires ValidDepths(d) && root < m < |d| && m < End(d, root) && NextOf(d, m) == NULL
    ensures ParentOf(d, m) >= root && End(d, ParentOf(d, m)) == End(d, m)
  {
    ParentDepth(d, m);
    var b := ParentOf(d, m);
    assert d[m] > d[root];
    ScanUnique(d, d[b], b + 1, End(d, m));
  }

  /** The root spans the whole tree. */
  lemma RootSpansAll(d: Depths)
    requires ValidDepths(d)
    ensures End(d, 0) == |d| && RunEnd(d, 0) == |d|
  {
    ScanUnique(d, d[0], 1, |d|);
    var level: int := d[0];
    ScanUnique(d, level - 1, 1, |d|);
  }

  ghost predicate SameLinks(d: Depths, d': Depths, i: nat)
    requires |d| == |d'| && i < |d|
  {
    ListOf(d', i) == ListOf(d, i) && NextOf(d', i) == NextOf(d, i) && ParentOf(d', i) == ParentOf(d, i)
  }

  /** `d` and `d'` differ only in the range after `p` up to `hi`, which lies at or below the level of `p`. */
  ghost predicate Local(d: Depths, d': Depths, p: nat, hi: nat) {
    && p < hi <= |d| == |d'|
    && (forall i | 0 <= i <= p || hi <= i < |d| :: d'[i] == d[i])
    && (forall i | p < i < hi :: d[i] >= d[p] && d'[i] >= d[p])
    && (hi < |d| ==> d[hi] <= d[p])
  }

  lemma LocalBefore(d: Depths, d': Depths, p: nat, hi: nat, i: nat)
    requires Local(d, d', p, hi) && i < p
    ensures SameLinks(d, d', i)
    ensures End(d', i) == End(d, i)
  {
    assert d'[i + 1] == d[i + 1] && d'[i] == d[i];
    var e := End(d, i);
    assert forall k | i < k < e :: d'[k] > d[i] by {
      forall k | i < k < e
        ensures d'[k] > d[i]
      {
        assert d[k] > d[i];
        if p < k < hi {
          assert d[p] > d[i];
        }
      }
    }
    assert p < e ==> d[p] > d[i];
    ScanUnique(d', d'[i], i + 1, e);
    BackUnique(d', d'[i], i, ParentOf(d, i));
  }

  lemma LocalAfter(d: Depths, d': Depths, p: nat, hi: nat, i: nat)
    requires Local(d, d', p, hi) && hi <= i < |d|
    ensures SameLinks(d, d', i)
    ensures End(d', i) == End(d, i)
  {
    assert d'[i] == d[i];
    ScanUnique(d', d'[i], i + 1, End(d, i));
    var b := ParentOf(d, i);
    if b < hi {
      assert d[hi] >= d[i] || hi == i;
      assert b < p;
      forall k | b < k < i
        ensures d'[k] >= d[i]
      {
        assert d[k] >= d[i];
      }
    }
    BackUnique(d', d'[i], i, b);
  }

  // ----- making siblings children: automatic submenus -----

  function Raise(d: Depths, lo: nat, hi: nat): (d': Depths)
    ensures |d'| == |d|
    ensures forall i | 0 <= i < |d| :: d'[i] == if lo <= i < hi then d[i] + 1 else d[i]
  {
    seq(|d|, i requires 0 <= i < |d| => if lo <= i < hi then d[i] + 1 else d[i])
  }

  /** `p` has no children, and the siblings up to `hi` are to become its children. */
  ghost predicate CanRaise(d: Depths, p: nat, hi: nat) {
    && p + 1 < hi <= |d|
    && d[p + 1] == d[p]
    && (forall i | p < i < hi :: d[i] >= d[p])
    && (hi < |d| ==> d[hi] <= d[p])
  }

  lemma RaiseInside(d: Depths, p: nat, hi: nat, i: nat)
    requires CanRaise(d, p, hi) && p < i < hi
    ensures var d' := Raise(d, p + 1, hi);
            && End(d', i) == End(d, i) <= hi
            && ListOf(d', i) == ListOf(d, i)
            && NextOf(d', i) == (if d[i] == d[p] && End(d, i) == hi then NULL else NextOf(d, i))
            && ParentOf(d', i) == if d[i] == d[p] then p else ParentOf(d, i)
  {
    var d' := Raise(d, p + 1, hi);
    var e := End(d, i);
    assert e <= hi;
    ScanUnique(d', d'[i], i + 1, e);
    if d[i] == d[p] {
      BackUnique(d', d'[i], i, p);
    } else {
      var b := ParentOf(d, i);
      assert b >= p + 1;
      BackUnique(d', d'[i], i, b);
    }
  }

  lemma RaiseAtNode(d: Depths, p: nat, hi: nat)
    requires CanRaise(d, p, hi)
    ensures var d' := Raise(d, p + 1, hi);
            && Local(d, d', p, hi)
            && End(d', p) == hi
            && ListOf(d', p) == p + 1
            && NextOf(d', p) == (if hi < |d| && d[hi] == d[p] then hi else NULL)
            && ParentOf(d', p) == ParentOf(d, p)
  {
    var d' := Raise(d, p + 1, hi);
    ScanUnique(d', d'[p], p + 1, hi);
    BackUnique(d', d'[p], p, ParentOf(d, p));
  }

  lemma RaiseValid(d: Depths, p: nat, hi: nat)
    requires ValidDepths(d) && CanRaise(d, p, hi)
    ensures ValidDepths(Raise(d, p + 1, hi))
  {
    var d' := Raise(d, p + 1, hi);
    forall i: nat | i + 1 < |d'|
      ensures Step(d', i)
    {
      assert Step(d, i);
    }
  }

  // ----- making children siblings: flattening -----

  function Lower(d: Depths, lo: nat, hi: nat): (d': Depths)
    requires hi <= |d| && forall i | lo <= i < hi :: d[i] >= 1
    ensures |d'| == |d|
    ensures forall i | 0 <= i < |d| :: d'[i] == if lo <= i < hi then d[i] - 1 else d[i]
  {
    seq(|d|, i requires 0 <= i < |d| => if lo <= i < hi then d[i] - 1 else d[i])
  }

  /** `m` has children, which are to become its next siblings. */
  ghost predicate CanLower(d: Depths, m: nat) {
    m + 1 < |d| && d[m + 1] == d[m] + 1
  }

  lemma LowerInsideEnd(d: Depths, m: nat, i: nat)
    requires CanLower(d, m) && m < i < End(d, m)
    ensures End(d, i) <= End(d, m)
    ensures End(Lower(d, m + 1, End(d, m)), i) == End(d, i)
  {
    var hi := End(d, m);
    assert d[i] > d[m];
    assert End(d, i) <= hi;
    var d' := Lower(d, m + 1, hi);
    ScanUnique(d', d'[i], i + 1, End(d, i));
  }

  lemma LowerInsideParent(d: Depths, m: nat, i: nat)
    requires CanLower(d, m) && m < i < End(d, m)
    ensures ParentOf(Lower(d, m + 1, End(d, m)), i) == if d[i] == d[m] + 1 then ParentOf(d, m) else ParentOf(d, i)
  {
    var d' := Lower(d, m + 1, End(d, m));
    if d[i] == d[m] + 1 {
      var b := ParentOf(d, m);
      forall k | b < k < i
        ensures d'[k] >= d'[i]
      {
        if k < m {
          assert d[k] >= d[m];
        }
      }
      BackUnique(d', d'[i], i, b);
    } else {
      var b := ParentOf(d, i);
      assert b >= m + 1;
      BackUnique(d', d'[i], i, b);
    }
  }

  lemma LowerInside(d: Depths, m: nat, i: nat)
    requires CanLower(d, m) && m < i < End(d, m)
    ensures var d' := Lower(d, m + 1, End(d, m));
            && End(d', i) == End(d, i) <= End(d, m)
            && ListOf(d', i) == ListOf(d, i)
            && NextOf(d', i) == (if d[i] == d[m] + 1 && End(d, i) == End(d, m) then NextOf(d, m) else NextOf(d, i))
            && ParentOf(d', i) == if d[i] == d[m] + 1 then ParentOf(d, m) else ParentOf(d, i)
  {
    LowerInsideEnd(d, m, i);
    LowerInsideParent(d, m, i);
  }

  lemma LowerAtNode(d: Depths, m: nat)
    requires CanLower(d, m)
    ensures var d' := Lower(d, m + 1, End(d, m));
            && Local(d, d', m, End(d, m))
            && End(d', m) == m + 1
            && ListOf(d', m) == NULL
            && NextOf(d', m) == m + 1
            && ParentOf(d', m) == ParentOf(d, m)
  {
    var d' := Lower(d, m + 1, End(d, m));
    assert d'[m + 1] == d[m];
    ScanUnique(d', d'[m], m + 1, m + 1);
    BackUnique(d', d'[m], m, ParentOf(d, m));
  }

  lemma LowerValid(d: Depths, m: nat)
    requires ValidDepths(d) && CanLower(d, m) && m > 0
    ensures ValidDepths(Lower(d, m + 1, End(d, m)))
  {
    var d' := Lower(d, m + 1, End(d, m));
    forall i: nat | i + 1 < |d'|
      ensures Step(d', i)
    {
      assert Step(d, i);
      if i + 1 == End(d, m) {
        assert d'[i] >= d[m];
      }
    }
  }
}
