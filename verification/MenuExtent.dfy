/**
  The tree that _menu_finalize (kconf/menu.c) builds, as a function of the
  parsed menu: for every node, how far its submenu reaches.
*/
module MenuExtent {
  import opened Wrappers
  import opened Symbols
  import opened Expr
  import opened ExprTransform
  import opened MenuShape
  import opened MenuTree
  import opened MenuDeps
  import opened MenuProgress

  ghost predicate InsideChoice(m: Parsed, i: nat)
    requires WellFormed(m) && i < |m.nodes|
  {
    i > 0 && ParentOf(m.depths, i) >= 0
    && m.nodes[ParentOf(m.depths, i)].sym.Some? && m.nodes[ParentOf(m.depths, i)].isChoice
  }

  /** The final condition of a node's prompt, if it has one. */
  ghost function PromptOf(m: Parsed, i: nat): Option<Expr>
    requires WellFormed(m) && i < |m.nodes|
  {
    if m.nodes[i].prompt.Some? then FinalProps(m, i)[m.nodes[i].prompt.value].cond else None
  }

  /** What a node depends on: the final condition of its prompt, or its final dependency. */
  ghost function ItemOf(m: Parsed, i: nat): Option<Expr>
    requires WellFormed(m) && i < |m.nodes|
  {
    if m.nodes[i].prompt.Some? then FinalProps(m, i)[m.nodes[i].prompt.value].cond else FinalDep(m, i)
  }

  /**
    Where the submenu of `i` ends: where it ended when parsed, if it had one;
    otherwise after the following siblings that depend on its symbol, together
    with what those take in themselves.
  */
  ghost function Extent(m: Parsed, i: nat): (e: nat)
    requires WellFormed(m) && i < |m.nodes|
    ensures i < e <= RunEnd(m.depths, i)
    ensures e < RunEnd(m.depths, i) ==> m.depths[e] == m.depths[i]
    decreases |m.nodes| - i, 0
  {
    if ListOf(m.depths, i) != NULL then End(m.depths, i)
    else if InsideChoice(m, i) || m.nodes[i].sym.None? then i + 1
    else ChainEnd(m, i, i + 1)
  }

  /** The chain of dependent siblings of `i` from `c` on. */
  ghost function ChainEnd(m: Parsed, i: nat, c: nat): (e: nat)
    requires WellFormed(m) && i < c <= |m.nodes| && m.nodes[i].sym.Some?
    requires c <= RunEnd(m.depths, i) && (c < RunEnd(m.depths, i) ==> m.depths[c] == m.depths[i])
    ensures c <= e <= RunEnd(m.depths, i)
    ensures e < RunEnd(m.depths, i) ==> m.depths[e] == m.depths[i]
    decreases |m.nodes| - c, 1
  {
    if c == RunEnd(m.depths, i) || !ShouldAdopt(m.nodes[i].sym.value, PromptOf(m, i), ItemOf(m, c)) then c
    else
      RunEndOfSibling(m.depths, i, c);
      ChainEnd(m, i, Extent(m, c))
  }

  /** A node without a prompt has no submenu in the end. */
  ghost function FinalExtent(m: Parsed, i: nat): nat
    requires WellFormed(m) && i < |m.nodes|
  {
    if Prompted(m.nodes[i]) then Extent(m, i) else i + 1
  }

  lemma RunEndOfSibling(d: Depths, i: nat, c: nat)
    requires i < c < |d| && c < RunEnd(d, i) && d[c] == d[i]
    ensures RunEnd(d, c) == RunEnd(d, i)
  {
    var level: int := d[c];
    ScanUnique(d, level - 1, c + 1, RunEnd(d, i));
  }

  lemma RunEndOfChild(d: Depths, p: nat, c: nat)
    requires p < c < |d| && c < End(d, p) && d[c] == d[p] + 1
    ensures RunEnd(d, c) == End(d, p)
  {
    var level: int := d[c];
    ScanUnique(d, level - 1, c + 1, End(d, p));
  }

  // ----- where a call finds its node -----

  /** The run of `p` ends where it did when parsed, and is shaped as then. */
  ghost predicate InPlace(m: Parsed, d: Depths, p: nat) {
    && WellFormed(m) && p < |d| == |m.nodes|
    && RunEnd(d, p) == RunEnd(m.depths, p) && AsParsed(m, d, p, RunEnd(d, p))
  }

  lemma InPlaceEnd(m: Parsed, d: Depths, p: nat)
    requires InPlace(m, d, p)
    ensures End(d, p) == End(m.depths, p)
    ensures ListOf(d, p) == ListOf(m.depths, p)
  {
    var e, hi := End(d, p), RunEnd(d, p);
    assert e <= hi;
    assert End(m.depths, p) <= hi;
    forall i | p < i < hi
      ensures d[i] > d[p] <==> m.depths[i] > m.depths[p]
    {
      assert d[i] + m.depths[p] == m.depths[i] + d[p];
    }
    ScanUnique(m.depths, m.depths[p], p + 1, e);
  }

  lemma ChildInPlace(m: Parsed, d: Depths, d': Depths, p: nat, c: nat)
    requires InPlace(m, d, p) && |d'| == |d|
    requires p < c < End(d, p) == RunEnd(d', c) && d[c] == d[p] + 1
    requires forall i | c <= i < |d| :: d'[i] == d[i]
    ensures InPlace(m, d', c)
    ensures InsideChoice(m, c) <==> m.nodes[p].sym.Some? && m.nodes[p].isChoice
  {
    InPlaceEnd(m, d, p);
    var e := End(d, p);
    assert e <= RunEnd(d, p);
    ParsedParent(m, p, c, d);
    assert d[c] + m.depths[p] == m.depths[c] + d[p];
    RunEndOfChild(m.depths, p, c);
    forall i | c <= i < e
      ensures d'[i] + m.depths[c] == m.depths[i] + d'[c]
    {
      assert d[i] + m.depths[p] == m.depths[i] + d[p];
    }
  }

  lemma SiblingInPlace(m: Parsed, d: Depths, d': Depths, p: nat, c: nat)
    requires InPlace(m, d, p) && |d'| == |d|
    requires p < c < RunEnd(d, p) == RunEnd(d', c) && d[c] == d[p]
    requires forall i | c <= i < |d| :: d'[i] == d[i]
    ensures InPlace(m, d', c)
    ensures InsideChoice(m, c) <==> InsideChoice(m, p)
    ensures m.depths[c] == m.depths[p]
  {
    var hi := RunEnd(d, p);
    assert d[c] + m.depths[p] == m.depths[c] + d[p];
    RunEndOfSibling(m.depths, p, c);
    forall i | c <= i < hi
      ensures d'[i] + m.depths[c] == m.depths[i] + d'[c]
    {
      assert d[i] + m.depths[p] == m.depths[i] + d[p];
    }
    SiblingParent(m.depths, p, c);
  }

  lemma SiblingParent(d: Depths, p: nat, c: nat)
    requires p < c < |d| && c < RunEnd(d, p) && d[c] == d[p]
    ensures ParentOf(d, c) == ParentOf(d, p)
  {
    BackUnique(d, d[c], c, ParentOf(d, p));
  }

  // ----- how far the work has got -----

  /** Nodes on `level` reach as far as they are to; the deeper ones are already flattened. */
  ghost predicate Tops(m: Parsed, d: Depths, lo: nat, hi: nat, level: nat) {
    && WellFormed(m) && hi <= |d| == |m.nodes|
    && forall a | lo <= a < hi :: End(d, a) == if d[a] == level then Extent(m, a) else FinalExtent(m, a)
  }

  /** What a call for `p` leaves. */
  ghost predicate ShapeAfter(m: Parsed, d: Depths, p: nat) {
    && WellFormed(m) && p < |d| == |m.nodes| && End(d, p) == Extent(m, p)
    && forall a | p < a < End(d, p) :: End(d, a) == FinalExtent(m, a)
  }

  /** A sibling that `p` is about to take in, and the state of those before it. */
  ghost predicate ReadyToTake(m: Parsed, d: Depths, d1: Depths, p: nat, menu: nat) {
    InPlace(m, d, p) && !InsideChoice(m, p) && Tops(m, d1, p + 1, menu, d[p])
  }

  /** It has been taken in. */
  ghost predicate Taken(m: Parsed, d: Depths, d': Depths, p: nat, menu: nat) {
    && WellFormed(m) && p < |d| && menu < |d'| == |m.nodes| && End(d', menu) == Extent(m, menu)
    && Tops(m, d', p + 1, End(d', menu), d[p])
  }

  /** The same before the children of `p` are flattened. */
  ghost predicate ShapeReady(m: Parsed, d: Depths, p: nat) {
    && WellFormed(m) && p < |d| == |m.nodes| && End(d, p) == Extent(m, p)
    && Tops(m, d, p + 1, End(d, p), d[p] + 1)
  }

  lemma TopsStep(m: Parsed, d1: Depths, d2: Depths, p: nat, cur: nat, hi: nat, level: nat)
    requires WellFormed(m) && p < cur < |d1| == |d2| == |m.nodes| && d1[cur] == level
    requires Tops(m, d1, p + 1, cur, level) && Local(d1, d2, cur, hi) && ShapeAfter(m, d2, cur)
    ensures Tops(m, d2, p + 1, End(d2, cur), level)
  {
    hide Extent, FinalExtent;
    forall a | p + 1 <= a < End(d2, cur)
      ensures End(d2, a) == if d2[a] == level then Extent(m, a) else FinalExtent(m, a)
    {
      if a < cur {
        LocalBefore(d1, d2, cur, hi, a);
      } else if cur < a {
        assert d2[a] > d2[cur];
      }
    }
  }

  lemma TakenReady(m: Parsed, d: Depths, d': Depths, p: nat, menu: nat)
    requires InPlace(m, d, p) && !InsideChoice(m, p) && Taken(m, d, d', p, menu)
    ensures menu < |d'| && End(d', menu) == Extent(m, menu) && ReadyToTake(m, d, d', p, Extent(m, menu))
  {
  }

  /** What is needed for the call for a sibling. */
  lemma TakeBefore(m: Parsed, t: State, v: State, d: Depths, d1: Depths, p: nat, hi: nat, menu: nat, last: int)
    requires ReadyToTake(m, d, d1, p, menu) && AdoptedUpTo(m, t, v, d, d1, p, hi, menu, last)
    requires menu < hi == RunEnd(d1, menu)
    ensures InPlace(m, d1, menu) && !InsideChoice(m, menu)
  {
    SiblingInPlace(m, d, d1, p, menu);
  }

  lemma TakeAfter(m: Parsed, t: State, v: State, r: State, r': State, d: Depths, d1: Depths, d2: Depths,
                  p: nat, hi: nat, menu: nat, last: int)
    requires ReadyToTake(m, d, d1, p, menu) && AdoptedUpTo(m, t, v, d, d1, p, hi, menu, last)
    requires menu < hi == RunEnd(d1, menu) && After(m, r, r', d1, d2, menu) && ShapeAfter(m, d2, menu)
    ensures Taken(m, d, d2, p, menu)
  {
    hide Extent, FinalExtent, InsideChoice, WorkedOff;
    AfterIsLocal(m, r, r', d1, d2, menu, hi);
    TopsStep(m, d1, d2, p, menu, hi, d[p]);
  }

  lemma ReadyShape(m: Parsed, d: Depths, p: nat)
    requires ShapeReady(m, d, p)
    ensures WellFormed(m) && p < |d| == |m.nodes| && End(d, p) == Extent(m, p)
  {
  }

  /** The children of `p` before `cur` have been dealt with; `p` ends at `e`. */
  ghost predicate ChildSite(m: Parsed, d: Depths, d': Depths, p: nat, e: nat, cur: nat, inChoice: bool) {
    && InPlace(m, d, p) && End(d, p) == e && Tops(m, d', p + 1, cur, d[p] + 1)
    && (inChoice <==> m.nodes[p].sym.Some? && m.nodes[p].isChoice)
  }

  lemma ChildSiteStart(m: Parsed, d: Depths, p: nat, inChoice: bool)
    requires InPlace(m, d, p) && (inChoice <==> m.nodes[p].sym.Some? && m.nodes[p].isChoice)
    ensures ChildSite(m, d, d, p, End(d, p), p + 1, inChoice)
  {
  }

  lemma ChildSiteBefore(m: Parsed, d: Depths, d1: Depths, p: nat, e: nat, c: nat, inChoice: bool)
    requires ChildSite(m, d, d1, p, e, c, inChoice) && |d1| == |d|
    requires p < c < e == RunEnd(d1, c) && d[c] == d[p] + 1
    requires forall i | c <= i < |d| :: d1[i] == d[i]
    ensures InPlace(m, d1, c) && (inChoice <==> InsideChoice(m, c))
  {
    ChildInPlace(m, d, d1, p, c);
  }

  lemma ChildSiteAfter(m: Parsed, d: Depths, d1: Depths, d2: Depths, p: nat, e: nat, c: nat, inChoice: bool)
    requires ChildSite(m, d, d1, p, e, c, inChoice) && p < c < |d1| == |d2| == |d| && d1[c] == d[p] + 1
    requires Local(d1, d2, c, e) && ShapeAfter(m, d2, c)
    ensures ChildSite(m, d, d2, p, e, End(d2, c), inChoice)
  {
    hide Extent, FinalExtent;
    TopsStep(m, d1, d2, p, c, e, d[p] + 1);
  }

  /** All children have been dealt with. */
  lemma ChildrenReady(m: Parsed, d: Depths, d': Depths, p: nat, e: nat, inChoice: bool)
    requires ChildSite(m, d, d', p, e, e, inChoice) && ListOf(d, p) != NULL && |d'| == |d| && d'[p] == d[p]
    requires End(d', p) == e
    ensures ShapeReady(m, d', p)
  {
    InPlaceEnd(m, d, p);
  }

  /** The chain of adopted siblings of `p` has been followed up to `cur`. */
  ghost predicate Followed(m: Parsed, p: nat, cur: nat)
    requires WellFormed(m) && p < |m.nodes| && m.nodes[p].sym.Some?
  {
    && p < cur <= RunEnd(m.depths, p)
    && (cur < RunEnd(m.depths, p) ==> m.depths[cur] == m.depths[p])
    && ChainEnd(m, p, cur) == Extent(m, p)
  }

  lemma FollowStart(m: Parsed, d: Depths, p: nat)
    requires InPlace(m, d, p) && ListOf(d, p) == NULL && !InsideChoice(m, p) && m.nodes[p].sym.Some?
    ensures Followed(m, p, p + 1) && ReadyToTake(m, d, d, p, p + 1) && RunEnd(d, p) == RunEnd(m.depths, p)
  {
    InPlaceEnd(m, d, p);
  }

  /** A sibling that should be adopted carries the chain on to where its own submenu ends. */
  lemma FollowOn(m: Parsed, p: nat, cur: nat)
    requires WellFormed(m) && p < |m.nodes| && m.nodes[p].sym.Some? && Followed(m, p, cur)
    requires cur < RunEnd(m.depths, p) && ShouldAdopt(m.nodes[p].sym.value, PromptOf(m, p), ItemOf(m, cur))
    ensures Followed(m, p, Extent(m, cur))
  {
    hide ShouldAdopt, PromptOf, ItemOf;
    RunEndOfSibling(m.depths, p, cur);
  }

  lemma FollowEnd(m: Parsed, p: nat, cur: nat)
    requires WellFormed(m) && p < |m.nodes| && m.nodes[p].sym.Some? && Followed(m, p, cur)
    requires cur == RunEnd(m.depths, p) || !ShouldAdopt(m.nodes[p].sym.value, PromptOf(m, p), ItemOf(m, cur))
    ensures Extent(m, p) == cur
  {
    hide ShouldAdopt, PromptOf, ItemOf;
  }

  lemma AdoptReady(m: Parsed, d0: Depths, d: Depths, p: nat, cur: nat)
    requires ReadyToTake(m, d0, d, p, cur) && CanRaise(d, p, cur) && d[p] == d0[p] && Extent(m, p) == cur
    ensures ShapeReady(m, Raise(d, p + 1, cur), p)
  {
    hide Extent, FinalExtent;
    var d' := Raise(d, p + 1, cur);
    RaiseAtNode(d, p, cur);
    forall a | p + 1 <= a < cur
      ensures End(d', a) == if d'[a] == d'[p] + 1 then Extent(m, a) else FinalExtent(m, a)
    {
      RaiseInside(d, p, cur, a);
    }
  }

  lemma NothingReady(m: Parsed, d: Depths, p: nat)
    requires WellFormed(m) && p < |d| == |m.nodes| && End(d, p) == p + 1 == Extent(m, p)
    ensures ShapeReady(m, d, p)
  {
  }

  /** A node that cannot adopt reaches no further than itself. */
  lemma AloneExtent(m: Parsed, d: Depths, p: nat)
    requires InPlace(m, d, p) && ListOf(d, p) == NULL
    requires InsideChoice(m, p) || m.nodes[p].sym.None?
    ensures Extent(m, p) == p + 1
  {
    InPlaceEnd(m, d, p);
  }

  // ----- flattening -----

  /** The children of `p` from `menu` on may still reach as far as before flattening. */
  ghost predicate FlatTops(m: Parsed, d: Depths, p: nat, e: nat, menu: int) {
    && WellFormed(m) && p < e <= |d| == |m.nodes|
    && forall a | p < a < e && End(d, a) != FinalExtent(m, a) ::
      menu != NULL && a >= menu && d[a] == d[p] + 1 && End(d, a) == Extent(m, a)
  }

  lemma FlattenReady(m: Parsed, d: Depths, p: nat)
    requires ShapeReady(m, d, p)
    ensures p < End(d, p) <= |d| && FlatTops(m, d, p, End(d, p), if p + 1 < End(d, p) then p + 1 else NULL)
  {
    hide Extent, FinalExtent;
  }

  lemma FlattenDone(m: Parsed, d: Depths, p: nat, e: nat)
    requires WellFormed(m) && p < e <= |d| == |m.nodes| && FlatTops(m, d, p, e, NULL)
    requires End(d, p) == e == Extent(m, p)
    ensures ShapeAfter(m, d, p)
  {
    hide Extent, FinalExtent;
  }

  lemma LowerEnds(d: Depths, k: nat, i: nat)
    requires CanLower(d, k) && i < |d|
    ensures End(Lower(d, k + 1, End(d, k)), i) == if i == k then k + 1 else End(d, i)
  {
    var d' := Lower(d, k + 1, End(d, k));
    LowerAtNode(d, k);
    if i < k {
      LocalBefore(d, d', k, End(d, k), i);
    } else if End(d, k) <= i {
      LocalAfter(d, d', k, End(d, k), i);
    } else if k < i {
      LowerInsideEnd(d, k, i);
    }
  }

  lemma LoweredAt(m: Parsed, d: Depths, d': Depths, p: nat, e: nat, k: nat, a: nat)
    requires WellFormed(m) && p < k < e <= |d| == |m.nodes| && p < a < e
    requires CanLower(d, k) && d[k] == d[p] + 1 && !Prompted(m.nodes[k]) && FlatTops(m, d, p, e, k)
    requires d' == Lower(d, k + 1, End(d, k)) && End(d', a) != FinalExtent(m, a)
    ensures a >= k + 1 && d'[a] == d'[p] + 1 && End(d', a) == Extent(m, a)
  {
    hide Extent;
    LowerEnds(d, k, a);
    assert a != k && a >= k && d[a] == d[p] + 1;
    assert !(k < a < End(d, k)) by {
      assert d[a] == d[k];
    }
  }

  /** A child without a prompt gives its submenu up; the next to look at is the first of those nodes. */
  lemma FlatTopsLowered(m: Parsed, d: Depths, p: nat, e: nat, k: nat)
    requires WellFormed(m) && p < k < e <= |d| == |m.nodes|
    requires CanLower(d, k) && d[k] == d[p] + 1 && !Prompted(m.nodes[k]) && FlatTops(m, d, p, e, k)
    ensures FlatTops(m, Lower(d, k + 1, End(d, k)), p, e, k + 1)
  {
    hide Extent, FinalExtent, CanLower, Scan;
    var d' := Lower(d, k + 1, End(d, k));
    forall a | p < a < e && End(d', a) != FinalExtent(m, a)
      ensures a >= k + 1 && d'[a] == d'[p] + 1 && End(d', a) == Extent(m, a)
    {
      LoweredAt(m, d, d', p, e, k, a);
    }
  }

  lemma FlatTopsKept(m: Parsed, d: Depths, p: nat, e: nat, k: nat)
    requires WellFormed(m) && p < k < e <= |d| == |m.nodes| && End(d, p) == e
    requires d[k] == d[p] + 1 && FlatTops(m, d, p, e, k)
    requires ListOf(d, k) == NULL || Prompted(m.nodes[k])
    ensures FlatTops(m, d, p, e, NextOf(d, k))
  {
    hide Extent;
    NextInside(d, p, k);
    assert ListOf(d, k) == NULL ==> End(d, k) == k + 1;
    forall a | p < a < e && End(d, a) != FinalExtent(m, a)
      ensures NextOf(d, k) != NULL && a >= NextOf(d, k)
    {
      assert a >= k && d[a] == d[p] + 1;
      assert a != k;
    }
  }

  // ----- the extents determine the tree -----

  lemma ParentByExtent(d: Depths, i: nat, b: nat)
    requires ValidDepths(d) && b < i < |d|
    ensures ParentOf(d, i) == b <==> i < End(d, b) && forall a | b < a < i :: End(d, a) <= i
  {
    ParentDepth(d, i);
    var q := ParentOf(d, i);
    forall a | q < a < i
      ensures End(d, a) <= i
    {
      assert d[a] >= d[i];
    }
    assert i < End(d, q) by {
      assert forall k | q < k <= i :: d[k] > d[q];
    }
  }

  /** Two trees over the same nodes in which every submenu ends at the same place are the same. */
  lemma {:induction false} SameExtentsSameTree(d: Depths, d': Depths, i: nat)
    requires ValidDepths(d) && ValidDepths(d') && |d| == |d'| && i < |d|
    requires forall a | 0 <= a < |d| :: End(d, a) == End(d', a)
    ensures d[i] == d'[i] && (i > 0 ==> ParentOf(d, i) == ParentOf(d', i))
    decreases i
  {
    if i > 0 {
      ParentDepth(d, i);
      ParentDepth(d', i);
      var b := ParentOf(d, i);
      ParentByExtent(d, i, b);
      ParentByExtent(d', i, b);
      SameExtentsSameTree(d, d', b);
    }
  }

  // ----- why a node lies in a submenu -----

  /** The sibling `c` depends on the symbol of `a` or covers its prompt, so `a` takes it in. */
  ghost predicate Adopts(m: Parsed, a: nat, c: nat)
    requires WellFormed(m) && a < |m.nodes| && c < |m.nodes|
  {
    && ListOf(m.depths, a) == NULL && !InsideChoice(m, a) && m.nodes[a].sym.Some?
    && m.depths[a] == m.depths[c] && RunEnd(m.depths, a) == RunEnd(m.depths, c)
    && ShouldAdopt(m.nodes[a].sym.value, PromptOf(m, a), ItemOf(m, c))
  }

  /** `c` is `b` or was parsed below it, and `b` was adopted by a node from `i` on. */
  ghost predicate Explained(m: Parsed, i: nat, a: nat, b: nat, c: nat)
    requires WellFormed(m)
  {
    i <= a < b <= c && b < |m.nodes| && c < End(m.depths, b) && Adopts(m, a, b)
  }

  /** Every node that a node without parsed children takes in is explained by an adoption. */
  lemma {:induction false} ExtentExplained(m: Parsed, i: nat, c: nat) returns (a: nat, b: nat)
    requires WellFormed(m) && i < |m.nodes| && ListOf(m.depths, i) == NULL && i < c < Extent(m, i)
    ensures Explained(m, i, a, b, c)
    decreases |m.nodes| - i, 0
  {
    hide ShouldAdopt, PromptOf, ItemOf;
    a, b := ChainExplained(m, i, i + 1, c);
  }

  lemma {:induction false} ChainExplained(m: Parsed, i: nat, s: nat, c: nat) returns (a: nat, b: nat)
    requires WellFormed(m) && i < s < |m.nodes| && m.nodes[i].sym.Some?
    requires ListOf(m.depths, i) == NULL && !InsideChoice(m, i)
    requires s <= RunEnd(m.depths, i) && (s < RunEnd(m.depths, i) ==> m.depths[s] == m.depths[i])
    requires s <= c < ChainEnd(m, i, s)
    ensures Explained(m, i, a, b, c)
    decreases |m.nodes| - s, 1
  {
    hide ShouldAdopt, PromptOf, ItemOf, Extent;
    RunEndOfSibling(m.depths, i, s);
    if c >= Extent(m, s) {
      a, b := ChainExplained(m, i, Extent(m, s), c);
    } else if c < End(m.depths, s) {
      a, b := i, s;
    } else {
      LeafOrParsed(m, s);
      a, b := ExtentExplained(m, s, c);
    }
  }

  /** A node with parsed children reaches exactly over them. */
  lemma LeafOrParsed(m: Parsed, s: nat)
    requires WellFormed(m) && s < |m.nodes|
    ensures ListOf(m.depths, s) == NULL || Extent(m, s) == End(m.depths, s)
    ensures End(m.depths, s) > s
  {
  }

  /**
    In the finished tree, a node that lies below `i` without having been parsed
    below it is, or was parsed below, an item `b` that `a` took in, `a` being `i`
    or a node between them.
  */
  lemma SubmenuExplained(m: Parsed, d: Depths, i: nat, c: nat) returns (a: nat, b: nat)
    requires WellFormed(m) && |d| == |m.nodes| && i < c < |d|
    requires End(d, i) == FinalExtent(m, i) && c < End(d, i) && c >= End(m.depths, i)
    ensures Explained(m, i, a, b, c)
  {
    hide Extent;
    LeafOrParsed(m, i);
    a, b := ExtentExplained(m, i, c);
  }

  /** What an adoption means for the item's visibility. */
  lemma AdoptedHidden(m: Parsed, a: nat, b: nat, env: Env)
    requires WellFormed(m) && a < |m.nodes| && b < |m.nodes| && Adopts(m, a, b)
    ensures var sym, prompt, dep := m.nodes[a].sym.value, PromptOf(m, a), ItemOf(m, b);
            && dep.Some? && Contains(dep.value, sym)
            && (DependsOn(dep.value, sym) && IsLogical(sym) && TriOf(env, sym) == NO ==> EvalOpt(dep, env) == NO)
            && (!DependsOn(dep.value, sym) && ReadRight(dep, env) && ReadRight(prompt, env) && EvalOpt(prompt, env) == NO
                ==> EvalOpt(dep, env) == NO)
  {
    hide PromptOf, ItemOf, InsideChoice;
    AdoptionMeaning(m.nodes[a].sym.value, PromptOf(m, a), ItemOf(m, b), env);
  }

  // ----- which nodes a submenu cannot leave out -----

  /** The final condition of an item has a conjunct that requires the symbol. */
  ghost predicate Requires(item: Option<Expr>, sym: Symbol) {
    item.Some? && Conjuncts(item.value) * Requirements(sym) != {}
  }

  lemma RequiresAdopts(sym: Symbol, prompt: Option<Expr>, item: Option<Expr>)
    requires Requires(item, sym)
    ensures ShouldAdopt(sym, prompt, item)
  {
    hide CoversPrompt;
    DependsOnExact(item.value, sym);
  }

  /** A chain stops only at the end of the run or before an item that is not to be adopted. */
  lemma {:induction false} ChainStops(m: Parsed, i: nat, c: nat)
    requires WellFormed(m) && i < c <= |m.nodes| && m.nodes[i].sym.Some?
    requires c <= RunEnd(m.depths, i) && (c < RunEnd(m.depths, i) ==> m.depths[c] == m.depths[i])
    ensures var e := ChainEnd(m, i, c);
            e < RunEnd(m.depths, i) ==> !ShouldAdopt(m.nodes[i].sym.value, PromptOf(m, i), ItemOf(m, e))
    decreases |m.nodes| - c
  {
    hide ShouldAdopt, PromptOf, ItemOf, Extent;
    if c < RunEnd(m.depths, i) && ShouldAdopt(m.nodes[i].sym.value, PromptOf(m, i), ItemOf(m, c)) {
      RunEndOfSibling(m.depths, i, c);
      ChainStops(m, i, Extent(m, c));
    }
  }

  /** A node that makes a submenu out of the items behind it. */
  ghost predicate MakesSubmenu(m: Parsed, a: nat)
    requires WellFormed(m) && a < |m.nodes|
  {
    && Prompted(m.nodes[a]) && m.nodes[a].sym.Some? && !InsideChoice(m, a) && ListOf(m.depths, a) == NULL
  }

  /** A submenu of `a` that ends at `e` leaves out no item that requires its symbol or covers its prompt. */
  ghost predicate EndsBeforeStranger(m: Parsed, a: nat, e: nat)
    requires WellFormed(m) && a < |m.nodes| && m.nodes[a].sym.Some?
  {
    && e <= RunEnd(m.depths, a)
    && (e < RunEnd(m.depths, a) ==>
          && m.depths[e] == m.depths[a]
          && !Requires(ItemOf(m, e), m.nodes[a].sym.value)
          && !(ItemOf(m, e).Some? && m.nodes[a].sym.value in SymbolsIn(ItemOf(m, e).value)
               && CoversPrompt(PromptOf(m, a), ItemOf(m, e))))
  }

  /**
    In the finished tree a submenu ends only where its run of siblings ends or
    before a sibling that does not require the symbol and does not cover its
    prompt.
  */
  lemma SubmenuEnds(m: Parsed, d: Depths, a: nat)
    requires WellFormed(m) && |d| == |m.nodes| && a < |d| && MakesSubmenu(m, a) && End(d, a) == FinalExtent(m, a)
    ensures EndsBeforeStranger(m, a, End(d, a))
  {
    hide PromptOf, ItemOf, ChainEnd, CoversPrompt, InsideChoice;
    var e, sym := End(d, a), m.nodes[a].sym.value;
    ChainStops(m, a, a + 1);
    if e < RunEnd(m.depths, a) && ItemOf(m, e).Some? {
      ContainsExact(ItemOf(m, e).value, sym);
      if Requires(ItemOf(m, e), sym) {
        RequiresAdopts(sym, PromptOf(m, a), ItemOf(m, e));
      }
    }
  }

  /** So a run of siblings that all require the symbol ends up below it. */
  lemma DependentsTaken(m: Parsed, d: Depths, a: nat, c: nat)
    requires WellFormed(m) && |d| == |m.nodes| && a < |d| && MakesSubmenu(m, a) && End(d, a) == FinalExtent(m, a)
    requires a < c < RunEnd(m.depths, a) && m.depths[c] == m.depths[a]
    requires forall b | a < b <= c && m.depths[b] == m.depths[a] :: Requires(ItemOf(m, b), m.nodes[a].sym.value)
    ensures c < End(d, a)
  {
    hide ItemOf, FinalExtent, MakesSubmenu, Requires;
    SubmenuEnds(m, d, a);
  }

  /**
    What was parsed below a node with a prompt stays below it, and nothing is
    added to it; a member of a choice and a node without a symbol take nothing in.
  */
  lemma ParsedBelowStays(m: Parsed, d: Depths, i: nat)
    requires WellFormed(m) && |d| == |m.nodes| && i < |d| && Prompted(m.nodes[i]) && End(d, i) == FinalExtent(m, i)
    ensures End(m.depths, i) <= End(d, i)
    ensures ListOf(m.depths, i) != NULL || InsideChoice(m, i) || m.nodes[i].sym.None? ==> End(d, i) == End(m.depths, i)
  {
    hide ChainEnd, InsideChoice;
    LeafOrParsed(m, i);
    if ListOf(m.depths, i) == NULL {
      LeafEnd(m.depths, i);
    }
  }

  lemma LeafEnd(d: Depths, i: nat)
    requires i < |d| && ListOf(d, i) == NULL
    ensures End(d, i) == i + 1
  {
  }
}
