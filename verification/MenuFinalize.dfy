/**
  menu_next and _menu_finalize (kconf/menu.c) on linked menu nodes: dependencies
  are propagated, items that depend on a symbol become its submenu, and nodes
  without a prompt lose their submenu again.
*/
module MenuFinalize {
  import opened Wrappers
  import opened Symbols
  import opened Expr
  import opened MenuShape
  import opened MenuTree
  import opened MenuDeps
  import opened MenuProgress
  import opened MenuExtent

  class Menu {
    const parsed: Parsed
    var next: seq<int>
    var list: seq<int>
    var parent: seq<int>
    var dep: seq<Option<Expr>>
    var props: seq<seq<Prop>>
    var revDep: map<Symbol, Expr>
    var implied: map<Symbol, Expr>
    ghost var log: seq<Applied>

    ghost function Ptrs(): Pointers
      reads this
    {
      Pointers(next, list, parent)
    }

    /** The menu as the parser leaves it. */
    constructor (m: Parsed)
      requires WellFormed(m)
      ensures parsed == m && AsLeftByParser()
    {
      parsed := m;
      var n := |m.nodes|;
      next := seq(n, i requires 0 <= i < n => NextOf(m.depths, i));
      list := seq(n, i requires 0 <= i < n => ListOf(m.depths, i));
      parent := seq(n, i requires 0 <= i < n => ParentOf(m.depths, i));
      dep := seq(n, i requires 0 <= i < n => m.nodes[i].dep);
      props := seq(n, i requires 0 <= i < n => m.nodes[i].props);
      revDep, implied, log := map[], map[], [];
    }

    ghost predicate AsLeftByParser()
      reads this
    {
      && Shaped() && Linked(Ptrs(), parsed.depths, 0, |parsed.nodes|)
      && (forall i | 0 <= i < |parsed.nodes| :: PendingAt(parsed, dep, props, i))
      && revDep == map[] && implied == map[] && log == []
    }

    // ----- dependencies -----

    ghost predicate Shaped()
      reads this`dep, this`props
    {
      WellFormed(parsed) && |dep| == |parsed.nodes| && |props| == |parsed.nodes|
    }

    /** Lines 379-387: a select or imply is added to its target. */
    method ApplyProp(i: nat, k: nat, prop: Prop)
      requires WellFormed(parsed) && LogOk(parsed, revDep, implied, log)
      requires 0 < i < |parsed.nodes| && k < |parsed.nodes[i].props| && prop == FinalProps(parsed, i)[k]
      modifies this`revDep, this`implied, this`log
      ensures LogOk(parsed, revDep, implied, log) && old(log) <= log
      ensures !prop.kind.OtherKind? ==>
        parsed.nodes[i].sym.Some? && Applied(parsed.nodes[i].sym.value, prop) in log
    {
      assert Selects(parsed, i, k, prop.kind);
      match prop.kind
      case OtherKind =>
      case Select(target) =>
        var a := Applied(parsed.nodes[i].sym.value, prop);
        revDep := revDep[target := AllocOr(Lookup(revDep, target), Some(Term(a))).value];
        log := log + [a];
        ApplyAllSnoc(old(log), a);
        assert FromSomeNode(parsed, a) && log[..|old(log)|] == old(log);
      case Imply(target) =>
        var a := Applied(parsed.nodes[i].sym.value, prop);
        implied := implied[target := AllocOr(Lookup(implied, target), Some(Term(a))).value];
        log := log + [a];
        ApplyAllSnoc(old(log), a);
        assert FromSomeNode(parsed, a) && log[..|old(log)|] == old(log);
    }

    /** Lines 345-388 for one property of node `i`. */
    method FinishProp(i: nat, k: nat)
      requires Shaped() && LogOk(parsed, revDep, implied, log) && 0 < i < |parsed.nodes| && k < |parsed.nodes[i].props|
      requires dep[i] == FinalDep(parsed, i) && props[i] == Mixed(parsed, i, k)
      requires LoggedUpTo(parsed, log, i, k)
      modifies this`props, this`revDep, this`implied, this`log
      ensures Shaped() && LogOk(parsed, revDep, implied, log) && old(log) <= log && LoggedUpTo(parsed, log, i, k + 1)
      ensures props == old(props)[i := Mixed(parsed, i, k + 1)]
    {
      MixedStep(parsed, i, k);
      var prop := props[i][k].(cond := Restrict(dep[i], props[i][k].cond, parsed.modules));
      props := props[i := props[i][k := prop]];
      ApplyProp(i, k, prop);
      LoggedMore(parsed, old(log), log, i, k);
    }

    /** Lines 345-388: all properties of node `i`. */
    method FinishProps(i: nat)
      requires Shaped() && LogOk(parsed, revDep, implied, log) && 0 < i < |parsed.nodes|
      requires dep[i] == FinalDep(parsed, i) && props[i] == parsed.nodes[i].props
      modifies this`props, this`revDep, this`implied, this`log
      ensures Shaped() && LogOk(parsed, revDep, implied, log) && old(log) <= log
      ensures LoggedUpTo(parsed, log, i, |parsed.nodes[i].props|)
      ensures props == old(props)[i := FinalProps(parsed, i)]
    {
      hide LogOk, FinalDep;
      var k := 0;
      MixedEnds(parsed, i);
      while k < |props[i]|
        invariant Shaped() && LogOk(parsed, revDep, implied, log) && old(log) <= log
        invariant 0 <= k <= |parsed.nodes[i].props|
        invariant props == old(props)[i := Mixed(parsed, i, k)]
        invariant LoggedUpTo(parsed, log, i, k)
      {
        FinishProp(i, k);
        k := k + 1;
      }
    }

    /** Lines 325-388 for the child `i` of `p`: its dependency, then its properties. */
    method FinishNode(p: nat, i: nat)
      requires Shaped() && LogOk(parsed, revDep, implied, log) && 0 < i < |parsed.nodes| && ParentOf(parsed.depths, i) == p
      requires dep[p] == FinalDep(parsed, p) && PendingAt(parsed, dep, props, i)
      modifies this`dep, this`props, this`revDep, this`implied, this`log
      ensures Shaped() && LogOk(parsed, revDep, implied, log) && old(log) <= log && DoneAt(parsed, dep, props, log, i)
      ensures dep == old(dep)[i := FinalDep(parsed, i)] && props == old(props)[i := FinalProps(parsed, i)]
    {
      dep := dep[i := Restrict(dep[p], dep[i], parsed.modules)];
      FinishProps(i);
    }

    /** Lines 320-389: the children of `p` get their final dependencies and properties. */
    method PropagateDeps(p: nat, ghost d: Depths)
      requires Shaped() && LogOk(parsed, revDep, implied, log) && ValidDepths(d) && p < |d| == |parsed.nodes|
      requires Linked(Ptrs(), d, p, End(d, p)) && AsParsed(parsed, d, p, End(d, p))
      requires dep[p] == FinalDep(parsed, p)
      requires forall i | p < i < End(d, p) :: PendingAt(parsed, dep, props, i)
      modifies this`dep, this`props, this`revDep, this`implied, this`log
      ensures Shaped() && LogOk(parsed, revDep, implied, log) && old(log) <= log
      ensures Propagated(parsed, old(dep), old(props), dep, props, log, d, p, End(d, p), NULL)
    {
      ghost var e := End(d, p);
      assert Ok(Ptrs(), d, p);
      assert p + 1 < |d| ==> Step(d, p);
      var menu := list[p];
      while menu != NULL
        invariant Shaped() && LogOk(parsed, revDep, implied, log) && old(log) <= log
        invariant menu == NULL || (p < menu < e && d[menu] == d[p] + 1)
        invariant Propagated(parsed, old(dep), old(props), dep, props, log, d, p, e, menu)
        decreases if menu == NULL then 0 else e - menu
      {
        assert Ok(Ptrs(), d, menu);
        ParsedParent(parsed, p, menu, d);
        NextInside(d, p, menu);
        ghost var dep1, props1, log1 := dep, props, log;
        FinishNode(p, menu);
        PropagatedStep(parsed, old(dep), old(props), dep1, props1, log1, log, d, p, e, menu);
        menu := next[menu];
      }
    }

    // ----- traversal -----

    /** menu_next: the preorder successor inside the subtree of `root`, or NULL. */
    method MenuNext(menu: nat, root: nat, ghost d: Depths) returns (r: int)
      requires ValidDepths(d) && Linked(Ptrs(), d, 0, |d|)
      requires root <= menu < |d| && menu < End(d, root)
      ensures r == if menu + 1 < End(d, root) then menu + 1 else NULL
    {
      assert Ok(Ptrs(), d, menu);
      if list[menu] != NULL {
        assert d[menu + 1] > d[menu] >= d[root];
        return list[menu];
      }
      var m := menu;
      assert End(d, m) == menu + 1;
      while m != root && next[m] == NULL
        invariant root <= m < End(d, root) && End(d, m) == menu + 1
        decreases m
      {
        assert Ok(Ptrs(), d, m);
        EndOfLastChild(d, root, m);
        m := parent[m];
      }
      if m == root {
        return NULL;
      }
      assert Ok(Ptrs(), d, m);
      assert d[m] > d[root];
      r := next[m];
    }

    /** menu_for_each_sub_entry visits the nodes below `root` once each, in preorder. */
    method SubEntries(root: nat, ghost d: Depths) returns (visited: seq<int>)
      requires ValidDepths(d) && Linked(Ptrs(), d, 0, |d|) && root < |d|
      ensures visited == seq(End(d, root) - root - 1, i => root + 1 + i)
    {
      visited := [];
      var menu := MenuNext(root, root, d);
      while menu != NULL
        invariant |visited| < End(d, root) - root
        invariant visited == seq(|visited|, i => root + 1 + i)
        invariant menu == if root + 1 + |visited| < End(d, root) then root + 1 + |visited| else NULL
        decreases End(d, root) - root - |visited|
      {
        visited := visited + [menu];
        menu := MenuNext(menu, root, d);
      }
    }

    // ----- flattening -----

    /** Lines 496-500: the children of `m` get the parent `p`; the last of them is returned. */
    method Reparent(p: nat, m: nat, ghost d: Depths) returns (last: nat)
      requires ValidDepths(d) && m < |d| && CanLower(d, m) && Linked(Ptrs(), d, m, End(d, m))
      modifies this`parent
      ensures m < last < End(d, m) && d[last] == d[m] + 1 && NextOf(d, last) == NULL
      ensures |parent| == |d|
      ensures forall i | 0 <= i < |d| ::
        parent[i] == if m < i < End(d, m) && d[i] == d[m] + 1 then p else old(parent[i])
    {
      ghost var s := Ptrs();
      assert Ok(s, d, m);
      last := list[m];
      while true
        invariant |parent| == |d|
        invariant m < last < End(d, m) && d[last] == d[m] + 1
        invariant forall i | 0 <= i < |d| ::
          parent[i] == if m < i < last && d[i] == d[m] + 1 then p else old(parent[i])
        decreases End(d, m) - last
      {
        assert Ok(s, d, last);
        parent := parent[last := p];
        NextInside(d, m, last);
        if next[last] == NULL {
          break;
        }
        last := next[last];
      }
    }

    /** Lines 496-503: the children of `m`, itself a child of `p`, become the siblings that follow it. */
    method FlattenNode(p: nat, m: nat, ghost d: Depths, ghost hi: nat) returns (ghost d': Depths)
      requires ValidDepths(d) && Linked(Ptrs(), d, p, hi)
      requires p < m < |d| && m < End(d, p) <= hi && d[m] == d[p] + 1
      requires list[m] != NULL
      modifies this`next, this`list, this`parent
      ensures CanLower(d, m) && d' == Lower(d, m + 1, End(d, m)) && ValidDepths(d')
      ensures Linked(Ptrs(), d', p, hi) && SameOutside(old(Ptrs()), Ptrs(), p, hi)
      ensures list == old(list)[m := NULL]
    {
      ghost var s := Ptrs();
      assert Ok(s, d, m) && Step(d, m);
      InnerEnd(d, p, m);
      var last := Reparent(p, m, d);
      next := next[last := next[m]];
      next := next[m := list[m]];
      list := list[m := NULL];
      d' := Lower(d, m + 1, End(d, m));
      FlattenLinked(s, Ptrs(), d, p, m, last, hi);
      LowerValid(d, m);
    }

    /** One round of lines 466-505: deals with the child `menu` of `p` and moves on to the next one. */
    method FlattenStep(p: nat, menu: nat, ghost d: Depths, ghost e: nat, ghost hi: nat)
      returns (n: int, ghost d': Depths)
      requires ValidDepths(d) && |d| == |parsed.nodes| && Linked(Ptrs(), d, p, hi)
      requires p < menu < e <= hi && End(d, p) == e && d[menu] == d[p] + 1
      requires FlatBefore(parsed, list, d, p, e, menu)
      requires WellFormed(parsed) && FlatTops(parsed, d, p, e, menu)
      modifies this`next, this`list, this`parent
      ensures Reshaped(d, d', p, e) && FlatTops(parsed, d', p, e, n)
      ensures Linked(Ptrs(), d', p, hi) && SameOutside(old(Ptrs()), Ptrs(), p, hi)
      ensures n == NULL || (menu < n < e && d'[n] == d[p] + 1)
      ensures FlatBefore(parsed, list, d', p, e, n)
    {
      hide WellFormed, FlatTops, FlatBefore;
      d' := d;
      assert Ok(Ptrs(), d, menu);
      if list[menu] != NULL && !Prompted(parsed.nodes[menu]) {
        assert Step(d, menu);
        FlatTopsLowered(parsed, d, p, e, menu);
        FlatBeforeLowered(parsed, list, d, p, e, menu);
        LowerAtNode(d, menu);
        InnerEnd(d, p, menu);
        d' := FlattenNode(p, menu, d, hi);
        LowerReshapes(d, p, menu);
        assert Ok(Ptrs(), d', menu);
      } else {
        NextInside(d, p, menu);
        FlatTopsKept(parsed, d, p, e, menu);
        FlatBeforeKept(parsed, list, d, p, e, menu);
      }
      n := next[menu];
    }

    /** Lines 466-505: no child of `p` keeps a submenu without having a prompt. */
    method FlattenChildren(p: nat, ghost d: Depths, ghost hi: nat) returns (ghost d': Depths)
      requires ValidDepths(d) && |d| == |parsed.nodes| && Linked(Ptrs(), d, p, hi)
      requires p < |d| && End(d, p) <= hi
      requires forall i | p < i < End(d, p) && d[i] != d[p] + 1 :: FlatAt(parsed, list, i)
      requires ShapeReady(parsed, d, p)
      modifies this`next, this`list, this`parent
      ensures Reshaped(d, d', p, End(d, p)) && ShapeAfter(parsed, d', p)
      ensures Linked(Ptrs(), d', p, hi) && SameOutside(old(Ptrs()), Ptrs(), p, hi)
      ensures forall i | p < i < End(d, p) :: FlatAt(parsed, list, i)
    {
      hide WellFormed, FlatTops, ShapeReady, ShapeAfter, Extent;
      ReadyShape(parsed, d, p);
      FlattenReady(parsed, d, p);
      ghost var e := End(d, p);
      d' := d;
      assert Ok(Ptrs(), d, p);
      assert p + 1 < |d| ==> Step(d, p);
      var menu := list[p];
      while menu != NULL
        invariant Reshaped(d, d', p, e)
        invariant Linked(Ptrs(), d', p, hi) && SameOutside(old(Ptrs()), Ptrs(), p, hi)
        invariant menu == NULL || (p < menu < e && d'[menu] == d[p] + 1)
        invariant FlatBefore(parsed, list, d', p, e, menu) && FlatTops(parsed, d', p, e, menu)
        decreases if menu == NULL then 0 else e - menu
      {
        ghost var s := Ptrs();
        menu, d' := FlattenStep(p, menu, d', e, hi);
        SameOutsideTrans(old(Ptrs()), s, Ptrs(), p, hi);
      }
      FlattenDone(parsed, d', p, e);
    }

    // ----- _menu_finalize -----

    ghost function St(): State
      reads this
    {
      State(Ptrs(), dep, props, log)
    }

    /** Lines 395-396 for the child `menu` of `p`. */
    method FinalizeChild(p: nat, menu: nat, inChoice: bool, ghost t: State, ghost d: Depths, ghost d1: Depths,
                         ghost e: nat, ghost hi: nat)
      returns (n: int, ghost d': Depths)
      requires ChildrenUpTo(parsed, t, St(), d, d1, p, e, hi, menu) && menu < e && LogOk(parsed, revDep, implied, log)
      requires ChildSite(parsed, d, d1, p, e, menu, inChoice)
      modifies this
      ensures menu < |d'| && ChildrenUpTo(parsed, t, St(), d, d', p, e, hi, End(d', menu))
      ensures LogOk(parsed, revDep, implied, log)
      ensures ChildSite(parsed, d, d', p, e, End(d', menu), inChoice)
      ensures n == if End(d', menu) < e then End(d', menu) else NULL
      decreases e - menu, 2
    {
      hide LogOk, DoneAt, PendingAt, FlatAt, InPlace, ShapeAfter, InsideChoice, ChildSite;
      ghost var t1 := St();
      ChildBefore(parsed, t, t1, d, d1, p, e, hi, menu);
      ChildSiteBefore(parsed, d, d1, p, e, menu, inChoice);
      d' := Finalize(menu, inChoice, d1);
      AfterIsLocal(parsed, t1, St(), d1, d', menu, e);
      ChildSiteAfter(parsed, d, d1, d', p, e, menu, inChoice);
      ChildrenStep(parsed, t, t1, St(), d, d1, d', p, e, hi, menu);
      assert Ok(Ptrs(), d', menu);
      n := next[menu];
    }

    /** Lines 320-396: dependencies go down to the children, which are then finalized one by one. */
    method FinalizeChildren(p: nat, ghost d: Depths) returns (ghost d': Depths)
      requires Before(parsed, St(), d, p) && LogOk(parsed, revDep, implied, log) && list[p] != NULL
      requires InPlace(parsed, d, p)
      modifies this
      ensures ReadyToFlatten(parsed, old(St()), St(), d, d', p) && LogOk(parsed, revDep, implied, log)
      ensures ShapeReady(parsed, d', p)
      decreases RunEnd(d, p) - p, 0
    {
      hide LogOk, FinalDep, FinalProps, DoneAt, PendingAt, LoggedUpTo, InPlace, ShapeReady, ChildSite,
        Before, ChildrenUpTo, Propagated, ReadyToFlatten;
      ghost var t := St();
      BeforeNode(parsed, t, d, p);
      BeforePropagation(parsed, t, d, p);
      assert Step(d, p);
      PropagateDeps(p, d);
      ChildrenStart(parsed, t, St(), d, p);
      ghost var e, hi, cur := End(d, p), RunEnd(d, p), p + 1;
      var inChoice := parsed.nodes[p].sym.Some? && parsed.nodes[p].isChoice;
      var menu := list[p];
      d' := d;
      ChildSiteStart(parsed, d, p, inChoice);
      while menu != NULL
        invariant ChildrenUpTo(parsed, t, St(), d, d', p, e, hi, cur) && LogOk(parsed, revDep, implied, log)
        invariant ChildSite(parsed, d, d', p, e, cur, inChoice) && cur <= e
        invariant menu == if cur < e then cur else NULL
        decreases e - cur
      {
        menu, d' := FinalizeChild(p, menu, inChoice, t, d, d', e, hi);
        cur := End(d', cur);
        ChildrenFacts(parsed, t, St(), d, d', p, e, hi, cur);
      }
      ChildrenFacts(parsed, t, St(), d, d', p, e, hi, cur);
      ChildrenEnd(parsed, t, St(), d, d', p, hi);
      ChildrenReady(parsed, d, d', p, e, inChoice);
    }

    /** The condition of the prompt of `i`, or none. */
    function PromptCondition(i: nat): Option<Expr>
      requires i < |parsed.nodes| && i < |props|
      requires parsed.nodes[i].prompt.Some? ==> parsed.nodes[i].prompt.value < |props[i]|
      reads this`props
    {
      if parsed.nodes[i].prompt.Some? then props[i][parsed.nodes[i].prompt.value].cond else None
    }

    /** The dependency by which an item is judged: that of its prompt, or its own. */
    function ItemDep(i: nat): Option<Expr>
      requires i < |parsed.nodes| && i < |dep| && i < |props|
      requires parsed.nodes[i].prompt.Some? ==> parsed.nodes[i].prompt.value < |props[i]|
      reads this`dep, this`props
    {
      if parsed.nodes[i].prompt.Some? then props[i][parsed.nodes[i].prompt.value].cond else dep[i]
    }

    /** Lines 454-456 for the sibling `menu` of `p`; `virt` are the pointers without the new parents. */
    method TakeSibling(p: nat, menu: nat, ghost virt: Pointers, ghost t: State, ghost d: Depths, ghost d1: Depths,
                       ghost hi: nat, ghost last: int)
      returns (n: int, ghost virt': Pointers, ghost d': Depths)
      requires ParentsSet(Ptrs(), virt, d1, p, menu) && menu < hi
      requires AdoptedUpTo(parsed, t, St().(links := virt), d, d1, p, hi, menu, last)
      requires LogOk(parsed, revDep, implied, log)
      requires ReadyToTake(parsed, d, d1, p, menu)
      modifies this
      ensures Taken(parsed, d, d', p, menu)
      ensures menu < |d'| && ParentsSet(Ptrs(), virt', d', p, End(d', menu))
      ensures AdoptedUpTo(parsed, t, St().(links := virt'), d, d', p, hi, End(d', menu), menu)
      ensures LogOk(parsed, revDep, implied, log)
      ensures n == if End(d', menu) < hi then End(d', menu) else NULL
      decreases hi - menu, 2
    {
      hide LogOk, InPlace, ShapeAfter, InsideChoice, ReadyToTake, Taken, Before, After, AdoptedUpTo, ParentsSet;
      ghost var v, before := St().(links := virt), Ptrs();
      SiblingBefore(parsed, t, v, before, d, d1, p, hi, menu, last);
      TakeBefore(parsed, t, v, d, d1, p, hi, menu, last);
      d' := Finalize(menu, false, d1);
      TakeAfter(parsed, t, v, v.(links := before), St(), d, d1, d', p, hi, menu, last);
      SiblingTaken(parsed, t, v, before, St(), d, d1, d', p, hi, menu, last);
      virt' := Restored(virt, Ptrs(), menu);
      parent := parent[menu := p];
      n := next[menu];
    }

    /** Lines 458-462: the siblings up to `last` are linked below `p`. */
    method LinkAdopted(p: nat, last: nat, ghost virt: Pointers, ghost t: State, ghost d: Depths, ghost d1: Depths,
                       ghost hi: nat, ghost cur: nat)
      returns (ghost d': Depths)
      requires ParentsSet(Ptrs(), virt, d1, p, cur)
      requires AdoptedUpTo(parsed, t, St().(links := virt), d, d1, p, hi, cur, last)
      requires ReadyToTake(parsed, d, d1, p, cur) && Extent(parsed, p) == cur
      modifies this`list, this`next
      ensures ReadyToFlatten(parsed, t, St(), d, d', p) && ShapeReady(parsed, d', p)
    {
      hide DoneAt, PendingAt, FlatAt, ReadyToTake, Extent, ShapeReady;
      ghost var v := St().(links := virt);
      assert AdoptSite(d1, p, last, cur);
      list := list[p := next[p]];
      next := next[p := next[last]];
      next := next[last := NULL];
      AdoptEnd(parsed, t, v, St(), d, d1, p, hi, cur, last);
      AdoptReady(parsed, d, d1, p, cur);
      d' := Raise(d1, p + 1, cur);
    }

    /** Lines 420-462: the siblings that depend on the symbol of `p` become its submenu. */
    method AdoptSiblings(p: nat, sym: Symbol, ghost d: Depths) returns (ghost d': Depths)
      requires Before(parsed, St(), d, p) && LogOk(parsed, revDep, implied, log) && list[p] == NULL
      requires InPlace(parsed, d, p) && !InsideChoice(parsed, p) && parsed.nodes[p].sym == Some(sym)
      modifies this
      ensures ReadyToFlatten(parsed, old(St()), St(), d, d', p) && LogOk(parsed, revDep, implied, log)
      ensures ShapeReady(parsed, d', p)
      decreases RunEnd(d, p) - p, 0
    {
      hide LogOk, ShouldAdopt, ReadyToFlatten, InPlace, Extent, Followed, ReadyToTake, Taken, ShapeReady,
        Before, AdoptedUpTo, ParentsSet, FinalDep, FinalProps;
      BeforeNode(parsed, St(), d, p);
      ghost var t, hi, cur, virt := St(), RunEnd(d, p), p + 1, Ptrs();
      AdoptStart(parsed, t, d, p);
      ParentsSetStart(virt, d, p);
      FollowStart(parsed, d, p);
      d' := d;
      var prompt := PromptCondition(p);
      var last := NULL;
      var menu := next[p];
      while menu != NULL
        invariant ParentsSet(Ptrs(), virt, d', p, cur)
        invariant AdoptedUpTo(parsed, t, St().(links := virt), d, d', p, hi, cur, last)
        invariant LogOk(parsed, revDep, implied, log)
        invariant ReadyToTake(parsed, d, d', p, cur) && Followed(parsed, p, cur)
        invariant p < cur <= hi && last >= NULL && menu == if cur < hi then cur else NULL
        decreases hi - cur
      {
        SiblingItem(parsed, t, St().(links := virt), d, d', p, hi, cur, last);
        if !ShouldAdopt(sym, prompt, ItemDep(menu)) {
          break;
        }
        FollowOn(parsed, p, cur);
        var n;
        n, virt, d' := TakeSibling(p, menu, virt, t, d, d', hi, last);
        TakenReady(parsed, d, d', p, cur);
        cur := End(d', cur);
        last, menu := menu, n;
      }
      FollowEnd(parsed, p, cur);
      if last != NULL {
        d' := LinkAdopted(p, last, virt, t, d, d', hi, cur);
      } else {
        NothingMoved(parsed, t, St().(links := virt), Ptrs(), d, d', p, hi, cur);
        NothingReady(parsed, d', p);
      }
    }

    /** _menu_finalize. */
    method Finalize(p: nat, insideChoice: bool, ghost d: Depths) returns (ghost d': Depths)
      requires Before(parsed, St(), d, p) && LogOk(parsed, revDep, implied, log)
      requires InPlace(parsed, d, p) && (insideChoice <==> InsideChoice(parsed, p))
      modifies this
      ensures After(parsed, old(St()), St(), d, d', p) && LogOk(parsed, revDep, implied, log)
      ensures ShapeAfter(parsed, d', p)
      decreases RunEnd(d, p) - p, 1
    {
      hide LogOk, DoneAt, PendingAt, InPlace, InsideChoice, Extent, ShapeReady, ShapeAfter;
      ghost var t := St();
      assert Ok(Ptrs(), d, p);
      if list[p] != NULL {
        d' := FinalizeChildren(p, d);
      } else if !insideChoice && parsed.nodes[p].sym.Some? {
        d' := AdoptSiblings(p, parsed.nodes[p].sym.value, d);
      } else {
        d' := d;
        AdoptStart(parsed, t, d, p);
        AdoptNothing(parsed, t, t, d, d, p, RunEnd(d, p), p + 1);
        AloneExtent(parsed, d, p);
        NothingReady(parsed, d, p);
      }
      ghost var t1, d1 := St(), d';
      d' := FlattenChildren(p, d1, RunEnd(d, p));
      FlattenEnd(parsed, t, t1, St(), d, d1, d', p);
    }

    /**
      menu_finalize: the links still form one tree over the same nodes in the
      same preorder, every node has its final dependency and properties, the
      reverse dependencies collect all selects, and only nodes with a prompt
      have a submenu.
    */
    method FinalizeAll() returns (ghost d: Depths)
      requires AsLeftByParser()
      modifies this
      ensures ValidDepths(d) && Linked(Ptrs(), d, 0, |parsed.nodes|) && End(d, 0) == |parsed.nodes|
      ensures Shaped() && forall i | 0 <= i < |parsed.nodes| ::
        dep[i] == FinalDep(parsed, i) && props[i] == FinalProps(parsed, i)
      ensures Complete(parsed, log)
      ensures forall s ::
        Lookup(revDep, s) == Collected(log, Select(s)) && Lookup(implied, s) == Collected(log, Imply(s))
      ensures forall i | 0 < i < |parsed.nodes| :: FlatAt(parsed, list, i)
      ensures forall i | 0 < i < |parsed.nodes| :: End(d, i) == FinalExtent(parsed, i)
      ensures forall i | 0 < i < |parsed.nodes| && MakesSubmenu(parsed, i) :: EndsBeforeStranger(parsed, i, End(d, i))
    {
      hide LogOk, Before, After, Complete, FinalExtent, Extent, EndsBeforeStranger;
      ghost var t := St();
      RootBefore(parsed, t);
      assert Finished(parsed, t, 0) by { assert PendingAt(parsed, dep, props, 0); }
      assert LogOk(parsed, revDep, implied, log) by { EmptyLog(parsed); }
      assert InPlace(parsed, parsed.depths, 0) && !InsideChoice(parsed, 0);
      d := Finalize(0, false, parsed.depths);
      RootAfter(parsed, t, St(), d);
      AllDoneComplete(parsed, St(), revDep, implied);
      forall i | 0 < i < |parsed.nodes| && MakesSubmenu(parsed, i)
        ensures EndsBeforeStranger(parsed, i, End(d, i))
      {
        SubmenuEnds(parsed, d, i);
      }
    }
  }
}
