/**
  The state of _menu_finalize (kconf/menu.c) between its steps: which nodes have
  their final dependencies, which are flat, and how the tree is linked.
*/
module MenuProgress {
  import opened Wrappers
  import opened Symbols
  import opened Expr
  import opened MenuShape
  import opened MenuTree
  import opened MenuDeps

  predicate Prompted(n: Node) {
    n.prompt.Some? && n.promptHasText
  }

  /** Node `i` has no submenu, or it has a prompt. */
  predicate FlatAt(m: Parsed, list: seq<int>, i: nat)
    requires i < |m.nodes| && i < |list|
  {
    list[i] == NULL || Prompted(m.nodes[i])
  }

  /** The children of `p` before `menu` are flat, and so is everything deeper. */
  ghost predicate FlatBefore(m: Parsed, list: seq<int>, d: Depths, p: nat, e: nat, menu: int)
    requires |d| == |m.nodes| == |list| && p < e <= |d|
  {
    forall i | p < i < e && (menu == NULL || i < menu || d[i] != d[p] + 1) :: FlatAt(m, list, i)
  }

  lemma FlatBeforeLowered(m: Parsed, list: seq<int>, d: Depths, p: nat, e: nat, k: nat)
    requires |d| == |m.nodes| == |list| && p < k < e <= |d| && CanLower(d, k) && d[k] == d[p] + 1
    requires FlatBefore(m, list, d, p, e, k)
    ensures FlatBefore(m, list[k := NULL], Lower(d, k + 1, End(d, k)), p, e, k + 1)
  {
    var d', list' := Lower(d, k + 1, End(d, k)), list[k := NULL];
    forall i | p < i < e && (i < k + 1 || d'[i] != d'[p] + 1)
      ensures FlatAt(m, list', i)
    {
      if i != k {
        assert k < i < End(d, k) ==> d[i] > d[k];
        assert FlatAt(m, list, i);
      }
    }
    assert d'[p] == d[p];
  }

  lemma FlatBeforeKept(m: Parsed, list: seq<int>, d: Depths, p: nat, e: nat, k: nat)
    requires |d| == |m.nodes| == |list| && p < k < |d| && k < e == End(d, p) && d[k] == d[p] + 1
    requires FlatBefore(m, list, d, p, e, k) && FlatAt(m, list, k)
    ensures FlatBefore(m, list, d, p, e, NextOf(d, k))
  {
    var n := NextOf(d, k);
    NextInside(d, p, k);
    forall i | p < i < e && (n == NULL || i < n || d[i] != d[p] + 1)
      ensures FlatAt(m, list, i)
    {
      if i != k {
        assert i < k || d[i] != d[p] + 1;
      }
    }
  }

  /** The range is still shaped as parsed, moved up or down as a whole. */
  ghost predicate AsParsed(m: Parsed, d: Depths, p: nat, hi: nat)
    requires WellFormed(m) && p < hi <= |d| == |m.nodes|
  {
    forall i | p <= i < hi :: d[i] + m.depths[p] == m.depths[i] + d[p]
  }

  lemma ParsedParent(m: Parsed, p: nat, c: nat, d: Depths)
    requires WellFormed(m) && |d| == |m.nodes|
    requires p < c < |d| && c < End(d, p) && d[c] == d[p] + 1 && AsParsed(m, d, p, End(d, p))
    ensures ParentOf(m.depths, c) == p
  {
    forall i | p < i < c
      ensures m.depths[i] >= m.depths[c]
    {
      assert d[i] > d[p];
    }
    BackUnique(m.depths, m.depths[c], c, p);
  }

  /** `d'` differs from `d` only inside the subtree of `p`, which keeps its extent `e`. */
  ghost predicate Reshaped(d: Depths, d': Depths, p: nat, e: nat) {
    && p < e <= |d| == |d'| && ValidDepths(d')
    && (forall i | 0 <= i <= p || e <= i < |d| :: d'[i] == d[i])
    && End(d', p) == e
  }

  lemma LowerReshapes(d: Depths, p: nat, m: nat)
    requires ValidDepths(d) && p < m < |d| && m < End(d, p) && d[m] == d[p] + 1 && CanLower(d, m)
    ensures Reshaped(d, Lower(d, m + 1, End(d, m)), p, End(d, p))
    ensures m + 1 < End(d, p)
  {
    var e := End(d, p);
    var d' := Lower(d, m + 1, End(d, m));
    LowerValid(d, m);
    InnerEnd(d, p, m);
    LowerAtNode(d, m);
    LocalBefore(d, d', m, End(d, m), p);
  }

  /** The subtree of a node inside another one ends inside it. */
  lemma InnerEnd(d: Depths, p: nat, m: nat)
    requires p < m < |d| && m < End(d, p)
    ensures End(d, m) <= End(d, p)
  {
    assert d[m] > d[p];
  }

  /** The next sibling of a child of `m` is again a child of `m`. */
  lemma SiblingInside(d: Depths, m: nat, c: nat)
    requires m < c < |d| && c < End(d, m) && NextOf(d, c) != NULL
    ensures c < NextOf(d, c) < End(d, m) && d[NextOf(d, c)] == d[c]
    ensures forall i | c < i < NextOf(d, c) :: d[i] > d[c]
  {
    assert d[c] > d[m];
  }

  /** From a child of `p` to the next: in between there are only deeper nodes, also after the last one. */
  lemma NextInside(d: Depths, p: nat, m: nat)
    requires p < m < |d| && m < End(d, p) && d[m] == d[p] + 1
    ensures var n := NextOf(d, m);
            if n == NULL then forall i | m < i < End(d, p) :: d[i] > d[m]
            else m < n < End(d, p) && d[n] == d[m] && forall i | m < i < n :: d[i] > d[m]
  {
    if NextOf(d, m) == NULL {
      LastChildEnd(d, p, m);
    } else {
      SiblingInside(d, p, m);
    }
  }

  function Lookup(m: map<Symbol, Expr>, s: Symbol): Option<Expr> {
    if s in m then Some(m[s]) else None
  }

  // ----- the record of applied selects -----

  /** `rev_dep` and `implied` of all symbols. */
  datatype Reverse = Reverse(revDep: map<Symbol, Expr>, implied: map<Symbol, Expr>)

  function AddTo(deps: map<Symbol, Expr>, target: Symbol, a: Applied): map<Symbol, Expr> {
    deps[target := AllocOr(Lookup(deps, target), Some(Term(a))).value]
  }

  /** Lines 379-387. */
  function ApplyOne(r: Reverse, a: Applied): Reverse {
    match a.prop.kind
    case Select(target) => r.(revDep := AddTo(r.revDep, target, a))
    case Imply(target) => r.(implied := AddTo(r.implied, target, a))
    case OtherKind => r
  }

  function ApplyAll(log: seq<Applied>): Reverse {
    if log == [] then Reverse(map[], map[])
    else ApplyOne(ApplyAll(log[..|log| - 1]), log[|log| - 1])
  }

  lemma ApplyAllSnoc(log: seq<Applied>, a: Applied)
    ensures ApplyAll(log + [a]) == ApplyOne(ApplyAll(log), a)
  {
    assert (log + [a])[..|log|] == log;
  }

  /** Each target ends up with the disjunction of what was applied to it. */
  lemma {:induction false} ApplyAllCollects(log: seq<Applied>, s: Symbol)
    ensures Lookup(ApplyAll(log).revDep, s) == Collected(log, Select(s))
    ensures Lookup(ApplyAll(log).implied, s) == Collected(log, Imply(s))
  {
    if log != [] {
      ApplyAllCollects(log[..|log| - 1], s);
    }
  }

  ghost predicate FromSomeNode(m: Parsed, a: Applied)
    requires WellFormed(m)
  {
    exists i: nat, k: nat | Selects(m, i, k, a.prop.kind) ::
      m.nodes[i].sym == Some(a.selector) && a.prop == FinalProps(m, i)[k]
  }

  ghost predicate AllFromNodes(m: Parsed, log: seq<Applied>)
    requires WellFormed(m)
  {
    log == [] || (AllFromNodes(m, log[..|log| - 1]) && FromSomeNode(m, log[|log| - 1]))
  }

  lemma {:induction false} AllFromNodesMember(m: Parsed, log: seq<Applied>, a: Applied)
    requires WellFormed(m) && AllFromNodes(m, log) && a in log
    ensures FromSomeNode(m, a)
  {
    if a != log[|log| - 1] {
      AllFromNodesMember(m, log[..|log| - 1], a);
    }
  }

  /** The reverse dependencies are what the applied selects and implies add up to. */
  ghost predicate LogOk(m: Parsed, revDep: map<Symbol, Expr>, implied: map<Symbol, Expr>, log: seq<Applied>)
    requires WellFormed(m)
  {
    Reverse(revDep, implied) == ApplyAll(log) && AllFromNodes(m, log)
  }

  /** The selects and implies among the first `n` properties of node `i` have been applied. */
  ghost predicate LoggedUpTo(m: Parsed, log: seq<Applied>, i: nat, n: nat)
    requires WellFormed(m) && i < |m.nodes| && n <= |m.nodes[i].props|
  {
    forall k | 0 <= k < n && !m.nodes[i].props[k].kind.OtherKind? ::
      m.nodes[i].sym.Some? && Applied(m.nodes[i].sym.value, FinalProps(m, i)[k]) in log
  }

  lemma LoggedMore(m: Parsed, log: seq<Applied>, log': seq<Applied>, i: nat, n: nat)
    requires WellFormed(m) && 0 < i < |m.nodes| && n < |m.nodes[i].props|
    requires LoggedUpTo(m, log, i, n) && log <= log'
    requires !m.nodes[i].props[n].kind.OtherKind? ==>
      m.nodes[i].sym.Some? && Applied(m.nodes[i].sym.value, FinalProps(m, i)[n]) in log'
    ensures LoggedUpTo(m, log', i, n + 1)
  {
    assert forall a | a in log :: a in log';
  }

  lemma LoggedStays(m: Parsed, log: seq<Applied>, log': seq<Applied>)
    requires WellFormed(m) && log <= log'
    ensures forall i: nat, n: nat | i < |m.nodes| && n <= |m.nodes[i].props| && LoggedUpTo(m, log, i, n) ::
              LoggedUpTo(m, log', i, n)
  {
    assert forall a | a in log :: a in log';
  }

  /** The properties of node `i` when the first `k` have been finished. */
  ghost function Mixed(m: Parsed, i: nat, k: nat): (ps: seq<Prop>)
    requires WellFormed(m) && i < |m.nodes| && k <= |m.nodes[i].props|
    ensures |ps| == |m.nodes[i].props|
  {
    FinalProps(m, i)[..k] + m.nodes[i].props[k..]
  }

  lemma MixedEnds(m: Parsed, i: nat)
    requires WellFormed(m) && i < |m.nodes|
    ensures Mixed(m, i, 0) == m.nodes[i].props
    ensures Mixed(m, i, |m.nodes[i].props|) == FinalProps(m, i)
  {
  }

  lemma MixedStep(m: Parsed, i: nat, k: nat)
    requires WellFormed(m) && 0 < i < |m.nodes| && k < |m.nodes[i].props|
    ensures Mixed(m, i, k)[k] == m.nodes[i].props[k]
    ensures Mixed(m, i, k)[k := FinalProps(m, i)[k]] == Mixed(m, i, k + 1)
    ensures FinalProps(m, i)[k]
            == m.nodes[i].props[k].(cond := Restrict(FinalDep(m, i), m.nodes[i].props[k].cond, m.modules))
  {
  }

  // ----- progress of the propagation -----

  ghost predicate SizedAs(m: Parsed, dep: seq<Option<Expr>>, props: seq<seq<Prop>>) {
    WellFormed(m) && |dep| == |m.nodes| && |props| == |m.nodes|
  }

  /** Node `i` still has what the parser gave it. */
  ghost predicate PendingAt(m: Parsed, dep: seq<Option<Expr>>, props: seq<seq<Prop>>, i: nat)
    requires SizedAs(m, dep, props) && i < |m.nodes|
  {
    dep[i] == m.nodes[i].dep && props[i] == m.nodes[i].props
  }

  /** Node `i` has its final dependency and properties, and its selects have been applied. */
  ghost predicate DoneAt(m: Parsed, dep: seq<Option<Expr>>, props: seq<seq<Prop>>, log: seq<Applied>, i: nat)
    requires SizedAs(m, dep, props) && i < |m.nodes|
  {
    && dep[i] == FinalDep(m, i) && props[i] == FinalProps(m, i)
    && (i > 0 ==> LoggedUpTo(m, log, i, |m.nodes[i].props|))
  }

  /** The child `i` of `p` has been dealt with when the loop has reached `menu`. */
  predicate Reached(d: Depths, p: nat, menu: int, i: nat)
    requires p < |d| && i < |d|
  {
    d[i] == d[p] + 1 && (menu == NULL || i < menu)
  }

  ghost predicate Propagated(m: Parsed, dep0: seq<Option<Expr>>, props0: seq<seq<Prop>>,
                             dep: seq<Option<Expr>>, props: seq<seq<Prop>>, log: seq<Applied>,
                             d: Depths, p: nat, e: nat, menu: int)
  {
    && SizedAs(m, dep, props) && |dep0| == |dep| && |props0| == |props| && p < e <= |d| == |m.nodes|
    && (forall i | p < i < e && Reached(d, p, menu, i) :: DoneAt(m, dep, props, log, i))
    && (forall i | p < i < e && !Reached(d, p, menu, i) :: PendingAt(m, dep, props, i))
    && (forall i | 0 <= i < |d| && !(p < i < e) :: dep[i] == dep0[i] && props[i] == props0[i])
  }

  lemma DoneStays(m: Parsed, dep: seq<Option<Expr>>, props: seq<seq<Prop>>, log: seq<Applied>,
                  dep': seq<Option<Expr>>, props': seq<seq<Prop>>, log': seq<Applied>, i: nat)
    requires SizedAs(m, dep, props) && SizedAs(m, dep', props') && i < |m.nodes| && log <= log'
    requires DoneAt(m, dep, props, log, i) && dep'[i] == dep[i] && props'[i] == props[i]
    ensures DoneAt(m, dep', props', log', i)
  {
    LoggedStays(m, log, log');
  }

  lemma PropagatedStep(m: Parsed, dep0: seq<Option<Expr>>, props0: seq<seq<Prop>>,
                       dep: seq<Option<Expr>>, props: seq<seq<Prop>>, log: seq<Applied>, log': seq<Applied>,
                       d: Depths, p: nat, e: nat, menu: nat)
    requires Propagated(m, dep0, props0, dep, props, log, d, p, e, menu)
    requires p < menu < e == End(d, p) && d[menu] == d[p] + 1 && log <= log'
    requires LoggedUpTo(m, log', menu, |m.nodes[menu].props|)
    ensures Propagated(m, dep0, props0, dep[menu := FinalDep(m, menu)], props[menu := FinalProps(m, menu)], log',
                       d, p, e, NextOf(d, menu))
  {
    var dep', props', n := dep[menu := FinalDep(m, menu)], props[menu := FinalProps(m, menu)], NextOf(d, menu);
    NextInside(d, p, menu);
    forall i | p < i < e && Reached(d, p, n, i)
      ensures DoneAt(m, dep', props', log', i)
    {
      if i != menu {
        assert Reached(d, p, menu, i);
        DoneStays(m, dep, props, log, dep', props', log', i);
      }
    }
    forall i | p < i < e && !Reached(d, p, n, i)
      ensures PendingAt(m, dep', props', i)
    {
      assert !Reached(d, p, menu, i);
    }
  }

  // ----- finalizing one node and the siblings it adopts -----

  /** All that _menu_finalize changes. */
  datatype State = State(links: Pointers, dep: seq<Option<Expr>>, props: seq<seq<Prop>>, log: seq<Applied>)

  ghost predicate Fits(m: Parsed, t: State) {
    SizedAs(m, t.dep, t.props) && Sized(t.links, |m.nodes|)
  }

  ghost predicate Finished(m: Parsed, t: State, i: nat)
    requires Fits(m, t) && i < |m.nodes|
  {
    DoneAt(m, t.dep, t.props, t.log, i)
  }

  ghost predicate Untouched(m: Parsed, t: State, i: nat)
    requires Fits(m, t) && i < |m.nodes|
  {
    PendingAt(m, t.dep, t.props, i)
  }

  ghost predicate FlatNode(m: Parsed, t: State, i: nat)
    requires Fits(m, t) && i < |m.nodes|
  {
    FlatAt(m, t.links.list, i)
  }

  ghost predicate SameData(t: State, t': State, i: nat)
    requires i < |t.dep| == |t'.dep| && i < |t.props| == |t'.props|
  {
    t'.dep[i] == t.dep[i] && t'.props[i] == t.props[i]
  }

  /** A run of siblings from `lo` to `hi` that waits to be finalized: the siblings are finished, what is below them is not. */
  ghost predicate Waiting(m: Parsed, t: State, d: Depths, lo: nat, hi: nat, level: nat)
    requires Fits(m, t) && |d| == |m.nodes| && hi <= |d|
  {
    && (forall i | lo <= i < hi && d[i] == level :: Finished(m, t, i))
    && (forall i | lo <= i < hi && d[i] != level :: Untouched(m, t, i))
  }

  /** When _menu_finalize is called for `p`. */
  ghost predicate Before(m: Parsed, t: State, d: Depths, p: nat) {
    && Fits(m, t) && ValidDepths(d) && p < |d| == |m.nodes|
    && Linked(t.links, d, p, RunEnd(d, p)) && AsParsed(m, d, p, RunEnd(d, p))
    && Waiting(m, t, d, p, RunEnd(d, p), d[p])
  }

  /**
    What a step that works on `p` may have done so far: everything below `p` is
    finished, what was not taken into its submenu is as it was, and the links
    of the whole run are those of the new depths.
  */
  ghost predicate Built(m: Parsed, t: State, t': State, d: Depths, d': Depths, p: nat) {
    && Fits(m, t) && Fits(m, t') && p < |d| == |d'| == |m.nodes| && ValidDepths(d')
    && End(d', p) <= RunEnd(d, p)
    && (forall i | 0 <= i <= p || End(d', p) <= i < |d| :: d'[i] == d[i] && SameData(t, t', i))
    && Linked(t'.links, d', p, RunEnd(d, p)) && SameOutside(t.links, t'.links, p, RunEnd(d, p))
    && t.log <= t'.log
    && (forall i | p < i < End(d', p) :: Finished(m, t', i))
  }

  /** When _menu_finalize has returned: moreover, nothing below `p` lacks a prompt but has a submenu. */
  ghost predicate After(m: Parsed, t: State, t': State, d: Depths, d': Depths, p: nat) {
    && Built(m, t, t', d, d', p)
    && (forall i | p < i < End(d', p) :: FlatNode(m, t', i))
  }

  /** Only the children of `p` may still have a submenu without having a prompt. */
  ghost predicate ReadyToFlatten(m: Parsed, t: State, t': State, d: Depths, d': Depths, p: nat) {
    && Built(m, t, t', d, d', p)
    && (forall i | p < i < End(d', p) && d'[i] != d'[p] + 1 :: FlatNode(m, t', i))
  }

  /** After a call for `c`, its run still starts and ends where it did. */
  lemma AfterIsLocal(m: Parsed, t: State, t': State, d: Depths, d': Depths, c: nat, e: nat)
    requires After(m, t, t', d, d', c) && RunEnd(d, c) == e
    ensures Local(d, d', c, e) && SameOutside(t.links, t'.links, c, e) && Sized(t'.links, |d|)
  {
  }

  // ----- the loop over the children -----

  /** The depths when the children of `p` before `cur` have been finalized; `e` is where `p` ends. */
  ghost predicate ChildrenShape(d: Depths, d': Depths, p: nat, e: nat, cur: nat) {
    && p < cur <= e <= |d| == |d'| && ValidDepths(d') && End(d', p) == e
    && (forall i | 0 <= i <= p || cur <= i < |d| :: d'[i] == d[i])
    && (cur < e ==> d[cur] == d[p] + 1)
  }

  ghost predicate LinksSoFar(t: State, t': State, d': Depths, p: nat, hi: nat) {
    Linked(t'.links, d', p, hi) && SameOutside(t.links, t'.links, p, hi)
  }

  /**
    The nodes when the run of siblings on `level` has been worked off up to
    `cur`; `e` is where the run ends, and from `keep` on nothing has changed.
  */
  ghost predicate WorkedOff(m: Parsed, t: State, t': State, d: Depths, d': Depths,
                            p: nat, cur: nat, e: nat, keep: nat, level: nat) {
    && Fits(m, t) && Fits(m, t') && p < cur <= e <= |d| == |d'| == |m.nodes| && cur <= keep
    && (forall i | 0 <= i <= p || keep <= i < |d| :: SameData(t, t', i))
    && t.log <= t'.log
    && Waiting(m, t', d, cur, e, level)
    && (forall i | p < i < cur :: Finished(m, t', i))
    && (forall i | p < i < cur && d'[i] != level :: FlatNode(m, t', i))
  }

  ghost predicate ChildrenUpTo(m: Parsed, t: State, t': State, d: Depths, d': Depths, p: nat, e: nat, hi: nat, cur: nat) {
    && ChildrenShape(d, d', p, e, cur) && LinksSoFar(t, t', d', p, hi)
    && e <= hi && WorkedOff(m, t, t', d, d', p, cur, e, e, d[p] + 1) && AsParsed(m, d, p, e)
  }

  lemma FinishedStays(m: Parsed, t: State, t': State, i: nat)
    requires Fits(m, t) && Fits(m, t') && i < |m.nodes|
    requires Finished(m, t, i) && SameData(t, t', i) && t.log <= t'.log
    ensures Finished(m, t', i)
  {
    DoneStays(m, t.dep, t.props, t.log, t'.dep, t'.props, t'.log, i);
  }

  /** A finished node has all its properties, so its prompt can be looked up. */
  lemma FinishedPrompt(m: Parsed, t: State, i: nat)
    requires Fits(m, t) && i < |m.nodes| && Finished(m, t, i)
    ensures m.nodes[i].prompt.Some? ==> m.nodes[i].prompt.value < |t.props[i]|
    ensures t.dep[i] == FinalDep(m, i) && t.props[i] == FinalProps(m, i)
  {
  }

  /** The call for the child at `cur` may be made. */
  lemma ChildBefore(m: Parsed, t: State, t': State, d: Depths, d': Depths, p: nat, e: nat, hi: nat, cur: nat)
    requires ChildrenUpTo(m, t, t', d, d', p, e, hi, cur) && cur < e
    ensures RunEnd(d', cur) == e && Before(m, t', d', cur)
  {
    hide FinalDep, FinalProps, LoggedUpTo;
    var level: int := d'[cur];
    assert forall i | cur <= i < e :: d'[i] > d'[p];
    ScanUnique(d', level - 1, cur + 1, e);
    assert Linked(t'.links, d', cur, e) by {
      assert forall i | cur <= i < e :: Ok(t'.links, d', i);
    }
  }

  /** What PropagateDeps needs holds before the work on a node with children. */
  lemma BeforePropagation(m: Parsed, t: State, d: Depths, p: nat)
    requires Before(m, t, d, p)
    ensures End(d, p) <= RunEnd(d, p)
    ensures Linked(t.links, d, p, End(d, p)) && AsParsed(m, d, p, End(d, p))
    ensures t.dep[p] == FinalDep(m, p)
    ensures forall i | p < i < End(d, p) :: PendingAt(m, t.dep, t.props, i)
  {
    assert End(d, p) <= RunEnd(d, p);
    assert Finished(m, t, p);
    forall i | p < i < End(d, p)
      ensures PendingAt(m, t.dep, t.props, i)
    {
      assert Untouched(m, t, i);
    }
  }

  /** The loop over the children starts after their dependencies have been propagated. */
  lemma ChildrenStart(m: Parsed, t: State, t': State, d: Depths, p: nat)
    requires Before(m, t, d, p) && p + 1 < |d| && d[p + 1] == d[p] + 1
    requires Propagated(m, t.dep, t.props, t'.dep, t'.props, t'.log, d, p, End(d, p), NULL)
    requires t'.links == t.links && t.log <= t'.log
    ensures End(d, p) <= RunEnd(d, p)
    ensures ChildrenUpTo(m, t, t', d, d, p, End(d, p), RunEnd(d, p), p + 1)
  {
    var e := End(d, p);
    assert e <= RunEnd(d, p);
    forall i | p < i < e
      ensures if d[i] == d[p] + 1 then Finished(m, t', i) else Untouched(m, t', i)
    {
      assert Reached(d, p, NULL, i) <==> d[i] == d[p] + 1;
    }
  }

  /** The untouched rest of a run stays as it is when something before it is finalized. */
  lemma WaitingStays(m: Parsed, t: State, t': State, d: Depths, lo: nat, lo': nat, hi: nat, level: nat)
    requires Fits(m, t) && Fits(m, t') && |d| == |m.nodes| && lo <= lo' && hi <= |d|
    requires Waiting(m, t, d, lo, hi, level) && t.log <= t'.log
    requires forall i | lo' <= i < hi :: SameData(t, t', i)
    ensures Waiting(m, t', d, lo', hi, level)
  {
    hide FinalDep, FinalProps, LoggedUpTo;
    forall i | lo' <= i < hi && d[i] == level
      ensures Finished(m, t', i)
    {
      FinishedStays(m, t, t', i);
    }
    forall i | lo' <= i < hi && d[i] != level
      ensures Untouched(m, t', i)
    {
      assert Untouched(m, t, i) && SameData(t, t', i);
    }
  }

  lemma LinksStep(s0: Pointers, s: Pointers, s': Pointers, d: Depths, d': Depths, p: nat, c: nat, e: nat, hi: nat)
    requires Linked(s, d, p, hi) && SameOutside(s0, s, p, hi)
    requires Linked(s', d', c, e) && SameOutside(s, s', c, e) && Local(d, d', c, e)
    requires p <= c && e <= hi
    ensures Linked(s', d', p, hi) && SameOutside(s0, s', p, hi)
  {
    LinkedAround(s, s', d, d', p, c, e, hi);
    assert SameOutside(s, s', p, hi);
    SameOutsideTrans(s0, s, s', p, hi);
  }

  /** What was finished and flat before `c` is still so after the call for `c`. */
  lemma EarlierStays(m: Parsed, t: State, t': State, d: Depths, d': Depths, p: nat, c: nat)
    requires After(m, t, t', d, d', c) && p < c
    requires forall i | p < i < c :: Finished(m, t, i)
    requires Finished(m, t, c)
    ensures forall i | p < i < End(d', c) :: Finished(m, t', i)
    ensures forall i | p < i < c && FlatNode(m, t, i) :: FlatNode(m, t', i)
  {
    hide FinalDep, FinalProps, LoggedUpTo;
    forall i | p < i < End(d', c)
      ensures Finished(m, t', i)
    {
      if i <= c {
        FinishedStays(m, t, t', i);
      }
    }
    forall i | p < i < c && FlatNode(m, t, i)
      ensures FlatNode(m, t', i)
    {
      assert SameAt(t.links, t'.links, i);
    }
  }

  lemma WorkedOffStep(m: Parsed, t: State, t1: State, t2: State, d: Depths, d1: Depths, d2: Depths,
                      p: nat, cur: nat, e: nat, keep: nat, keep': nat, level: nat)
    requires WorkedOff(m, t, t1, d, d1, p, cur, e, keep, level) && cur < e && d[cur] == d1[cur] == level
    requires After(m, t1, t2, d1, d2, cur) && RunEnd(d1, cur) == e
    requires keep <= keep' && End(d2, cur) <= keep'
    ensures WorkedOff(m, t, t2, d, d2, p, End(d2, cur), e, keep', level)
  {
    hide DoneAt, PendingAt, FlatAt;
    var c := End(d2, cur);
    WaitingStays(m, t1, t2, d, cur, c, e, level);
    EarlierStays(m, t1, t2, d1, d2, p, cur);
    forall i | 0 <= i <= p || keep' <= i < |d|
      ensures SameData(t, t2, i)
    {
      assert SameData(t, t1, i) && SameData(t1, t2, i);
    }
    forall i | p < i < c && d2[i] != level
      ensures FlatNode(m, t2, i)
    {
      if i < cur {
        assert FlatNode(m, t1, i);
      }
    }
  }

  lemma ChildrenShapeStep(d: Depths, d1: Depths, d2: Depths, p: nat, e: nat, cur: nat)
    requires ChildrenShape(d, d1, p, e, cur) && cur < e
    requires Local(d1, d2, cur, e) && ValidDepths(d2) && End(d2, cur) <= e
    requires forall i | End(d2, cur) <= i < |d| :: d2[i] == d1[i]
    ensures ChildrenShape(d, d2, p, e, End(d2, cur))
    ensures NextOf(d2, cur) == if End(d2, cur) < e then End(d2, cur) else NULL
  {
    LocalBefore(d1, d2, cur, e, p);
    assert End(d2, cur) < e ==> d2[End(d2, cur)] > d2[p];
  }

  lemma ChildrenStep(m: Parsed, t: State, t1: State, t2: State, d: Depths, d1: Depths, d2: Depths,
                     p: nat, e: nat, hi: nat, cur: nat)
    requires ChildrenUpTo(m, t, t1, d, d1, p, e, hi, cur) && cur < e
    requires RunEnd(d1, cur) == e && After(m, t1, t2, d1, d2, cur)
    ensures ChildrenUpTo(m, t, t2, d, d2, p, e, hi, End(d2, cur))
    ensures NextOf(d2, cur) == if End(d2, cur) < e then End(d2, cur) else NULL
  {
    AfterIsLocal(m, t1, t2, d1, d2, cur, e);
    ChildrenShapeStep(d, d1, d2, p, e, cur);
    LinksStep(t.links, t1.links, t2.links, d1, d2, p, cur, e, hi);
    WorkedOffStep(m, t, t1, t2, d, d1, d2, p, cur, e, e, e, d[p] + 1);
  }

  lemma ChildrenEnd(m: Parsed, t: State, t': State, d: Depths, d': Depths, p: nat, hi: nat)
    requires p < |d| && RunEnd(d, p) == hi
    requires ChildrenUpTo(m, t, t', d, d', p, End(d, p), hi, End(d, p))
    ensures ReadyToFlatten(m, t, t', d, d', p)
  {
  }

  lemma ChildrenFacts(m: Parsed, t: State, t': State, d: Depths, d': Depths, p: nat, e: nat, hi: nat, cur: nat)
    requires ChildrenUpTo(m, t, t', d, d', p, e, hi, cur)
    ensures p < cur <= e <= |d'| == |d| && d'[p] == d[p] && End(d', p) == e
  {
  }

  /** Flattening the children completes the work on `p`. */
  lemma FlattenEnd(m: Parsed, t: State, t1: State, t2: State, d: Depths, d1: Depths, d2: Depths, p: nat)
    requires ReadyToFlatten(m, t, t1, d, d1, p) && Fits(m, t2)
    requires t2.dep == t1.dep && t2.props == t1.props && t2.log == t1.log
    requires Reshaped(d1, d2, p, End(d1, p))
    requires Linked(t2.links, d2, p, RunEnd(d, p)) && SameOutside(t1.links, t2.links, p, RunEnd(d, p))
    requires forall i | p < i < End(d1, p) :: FlatNode(m, t2, i)
    ensures After(m, t, t2, d, d2, p)
  {
    hide FinalDep, FinalProps, LoggedUpTo;
    SameOutsideTrans(t.links, t1.links, t2.links, p, RunEnd(d, p));
    forall i | p < i < End(d2, p)
      ensures Finished(m, t2, i)
    {
      assert Finished(m, t1, i);
    }
    forall i | 0 <= i <= p || End(d2, p) <= i < |d|
      ensures SameData(t, t2, i)
    {
      assert SameData(t, t1, i);
    }
  }

  // ----- the loop over the siblings that are adopted -----

  /** The depths when the siblings of `p` up to `last`, which ends at `cur`, have been finalized. */
  ghost predicate SiblingShape(d: Depths, d': Depths, p: nat, hi: nat, cur: nat, last: int) {
    && p < cur <= hi <= |d| == |d'| && ValidDepths(d') && hi == RunEnd(d, p)
    && (forall i | 0 <= i <= p || cur <= i < |d| :: d'[i] == d[i])
    && (forall i | p < i < cur :: d'[i] >= d[p])
    && (cur < hi ==> d[cur] == d[p])
    && (if last == NULL then cur == p + 1
        else p < last < cur && d'[last] == d[p] && End(d', last) == cur && d'[p + 1] == d[p])
  }

  /**
    The siblings of `p` before `cur` have been finalized and will be adopted.
    `v` is the state with their parent pointers as they were before the loop.
  */
  ghost predicate AdoptedUpTo(m: Parsed, t: State, v: State, d: Depths, d': Depths, p: nat, hi: nat, cur: nat, last: int) {
    && SiblingShape(d, d', p, hi, cur, last) && LinksSoFar(t, v, d', p, hi)
    && WorkedOff(m, t, v, d, d', p, cur, hi, cur, d[p]) && AsParsed(m, d, p, hi)
  }

  lemma AdoptStart(m: Parsed, t: State, d: Depths, p: nat)
    requires Before(m, t, d, p) && ListOf(d, p) == NULL
    ensures AdoptedUpTo(m, t, t, d, d, p, RunEnd(d, p), p + 1, NULL)
    ensures End(d, p) == p + 1
    ensures NextOf(d, p) == if p + 1 < RunEnd(d, p) then p + 1 else NULL
  {
    ScanUnique(d, d[p], p + 1, p + 1);
    assert p + 1 < RunEnd(d, p) ==> d[p + 1] >= d[p];
  }

  /** The pointers as they really are: the siblings before `cur` already have the parent `p`. */
  ghost predicate ParentsSet(actual: Pointers, virt: Pointers, d: Depths, p: nat, cur: nat) {
    && Sized(virt, |d|) && Sized(actual, |d|) && p < cur <= |d|
    && actual.next == virt.next && actual.list == virt.list
    && forall i | 0 <= i < |d| :: actual.parent[i] == if p < i < cur && d[i] == d[p] then p else virt.parent[i]
  }

  lemma ParentsSetStart(s: Pointers, d: Depths, p: nat)
    requires Sized(s, |d|) && p < |d|
    ensures ParentsSet(s, s, d, p, p + 1)
  {
  }

  /** The sibling at `cur` is finished, so its prompt and its dependency are the final ones. */
  lemma SiblingItem(m: Parsed, t: State, v: State, d: Depths, d': Depths, p: nat, hi: nat, cur: nat, last: int)
    requires AdoptedUpTo(m, t, v, d, d', p, hi, cur, last) && cur < hi
    ensures cur < |m.nodes| && Fits(m, v)
    ensures m.nodes[cur].prompt.Some? ==> m.nodes[cur].prompt.value < |v.props[cur]|
    ensures v.dep[cur] == FinalDep(m, cur) && v.props[cur] == FinalProps(m, cur)
  {
    assert Finished(m, v, cur);
    FinishedPrompt(m, v, cur);
  }

  /** What the call for `p` finds at `p` itself. */
  lemma BeforeNode(m: Parsed, t: State, d: Depths, p: nat)
    requires Before(m, t, d, p)
    ensures Fits(m, t) && ValidDepths(d) && p < |m.nodes| == |d| && Sized(t.links, |d|)
    ensures t.links.list[p] == ListOf(d, p) && t.links.next[p] == NextOf(d, p)
    ensures m.nodes[p].prompt.Some? ==> m.nodes[p].prompt.value < |t.props[p]|
    ensures t.dep[p] == FinalDep(m, p) && t.props[p] == FinalProps(m, p)
  {
    assert Ok(t.links, d, p);
    assert Finished(m, t, p);
    FinishedPrompt(m, t, p);
  }

  /** The call for the sibling at `cur` may be made. */
  lemma SiblingBefore(m: Parsed, t: State, v: State, actual: Pointers, d: Depths, d': Depths, p: nat, hi: nat, cur: nat, last: int)
    requires AdoptedUpTo(m, t, v, d, d', p, hi, cur, last) && cur < hi
    requires ParentsSet(actual, v.links, d', p, cur)
    ensures RunEnd(d', cur) == hi && Before(m, v.(links := actual), d', cur)
  {
    hide FinalDep, FinalProps, LoggedUpTo;
    var level: int := d'[cur];
    ScanUnique(d', level - 1, cur + 1, hi);
    assert Linked(actual, d', cur, hi) by {
      forall i | cur <= i < hi
        ensures Ok(actual, d', i)
      {
        assert Ok(v.links, d', i);
      }
    }
    var r := v.(links := actual);
    forall i | cur <= i < hi
      ensures if d'[i] == d'[cur] then Finished(m, r, i) else Untouched(m, r, i)
    {
      assert if d[i] == d[p] then Finished(m, v, i) else Untouched(m, v, i);
    }
  }

  /** The state after the call with the earlier parent pointers put back. */
  ghost function Restored(before: Pointers, after: Pointers, cur: nat): Pointers
    requires cur <= |before.parent| && cur <= |after.parent|
  {
    after.(parent := before.parent[..cur] + after.parent[cur..])
  }

  lemma RestoredAfter(m: Parsed, v: State, actual: Pointers, r': State, d: Depths, d': Depths, p: nat, cur: nat)
    requires Fits(m, v) && ParentsSet(actual, v.links, d, p, cur) && cur < |d|
    requires After(m, v.(links := actual), r', d, d', cur)
    ensures After(m, v, r'.(links := Restored(v.links, r'.links, cur)), d, d', cur)
  {
    hide FinalDep, FinalProps, LoggedUpTo;
    var hi := RunEnd(d, cur);
    var r := v.(links := actual);
    var v' := r'.(links := Restored(v.links, r'.links, cur));
    forall i | cur <= i < hi
      ensures Ok(v'.links, d', i)
    {
      assert Ok(r'.links, d', i);
    }
    forall i | 0 <= i < |d| && !(cur <= i < hi)
      ensures SameAt(v.links, v'.links, i)
    {
      assert SameAt(actual, r'.links, i);
    }
    forall i | 0 <= i <= cur || End(d', cur) <= i < |d|
      ensures SameData(v, v', i)
    {
      assert SameData(r, r', i);
    }
    forall i | cur < i < End(d', cur)
      ensures Finished(m, v', i) && FlatNode(m, v', i)
    {
      assert Finished(m, r', i) && FlatNode(m, r', i);
    }
  }

  lemma SiblingShapeStep(d: Depths, d1: Depths, d2: Depths, p: nat, hi: nat, cur: nat, last: int)
    requires SiblingShape(d, d1, p, hi, cur, last) && cur < hi
    requires Local(d1, d2, cur, hi) && ValidDepths(d2) && End(d2, cur) <= hi
    requires forall i | End(d2, cur) <= i < |d| :: d2[i] == d1[i]
    ensures SiblingShape(d, d2, p, hi, End(d2, cur), cur)
    ensures NextOf(d2, cur) == if End(d2, cur) < hi then End(d2, cur) else NULL
  {
  }

  lemma SiblingStep(m: Parsed, t: State, v: State, v': State, d: Depths, d1: Depths, d2: Depths,
                    p: nat, hi: nat, cur: nat, last: int)
    requires AdoptedUpTo(m, t, v, d, d1, p, hi, cur, last) && cur < hi
    requires RunEnd(d1, cur) == hi && After(m, v, v', d1, d2, cur)
    ensures AdoptedUpTo(m, t, v', d, d2, p, hi, End(d2, cur), cur)
    ensures NextOf(d2, cur) == if End(d2, cur) < hi then End(d2, cur) else NULL
  {
    AfterIsLocal(m, v, v', d1, d2, cur, hi);
    SiblingShapeStep(d, d1, d2, p, hi, cur, last);
    LinksStep(t.links, v.links, v'.links, d1, d2, p, cur, hi, hi);
    WorkedOffStep(m, t, v, v', d, d1, d2, p, cur, hi, cur, End(d2, cur), d[p]);
  }

  /** The pointers after `cur` got the parent `p`, too. */
  lemma ParentsSetStep(actual: Pointers, virt: Pointers, r': Pointers, d: Depths, d': Depths, p: nat, cur: nat, hi: nat)
    requires ParentsSet(actual, virt, d, p, cur) && cur < hi <= |d| == |d'|
    requires SameOutside(actual, r', cur, hi) && d[cur] == d[p]
    requires forall i | 0 <= i <= cur :: d'[i] == d[i]
    ensures ParentsSet(r'.(parent := r'.parent[cur := p]), Restored(virt, r', cur), d', p, End(d', cur))
  {
    var c := End(d', cur);
    var actual' := r'.(parent := r'.parent[cur := p]);
    var virt' := Restored(virt, r', cur);
    forall i | 0 <= i < |d|
      ensures actual'.parent[i] == if p < i < c && d'[i] == d'[p] then p else virt'.parent[i]
    {
      if i < cur {
        assert SameAt(actual, r', i);
      } else if cur < i < c {
        assert d'[i] > d'[cur];
      }
    }
  }

  /** The call for the sibling at `cur` has returned with `r'`, and the sibling gets its new parent. */
  lemma SiblingTaken(m: Parsed, t: State, v: State, actual: Pointers, r': State, d: Depths, d1: Depths, d2: Depths,
                     p: nat, hi: nat, cur: nat, last: int)
    requires AdoptedUpTo(m, t, v, d, d1, p, hi, cur, last) && cur < hi == RunEnd(d1, cur)
    requires ParentsSet(actual, v.links, d1, p, cur) && After(m, v.(links := actual), r', d1, d2, cur)
    ensures cur < |r'.links.parent| && cur <= |v.links.parent| && cur < |d2| == |r'.links.next|
    ensures var virt := Restored(v.links, r'.links, cur);
            && ParentsSet(r'.links.(parent := r'.links.parent[cur := p]), virt, d2, p, End(d2, cur))
            && AdoptedUpTo(m, t, r'.(links := virt), d, d2, p, hi, End(d2, cur), cur)
    ensures r'.links.next[cur] == if End(d2, cur) < hi then End(d2, cur) else NULL
  {
    hide WorkedOff;
    assert Fits(m, v) by {
      AdoptedFits(m, t, v, d, d1, p, hi, cur, last);
    }
    AfterIsLocal(m, v.(links := actual), r', d1, d2, cur, hi);
    RestoredAfter(m, v, actual, r', d1, d2, p, cur);
    ParentsSetStep(actual, v.links, r'.links, d1, d2, p, cur, hi);
    var virt := Restored(v.links, r'.links, cur);
    SiblingStep(m, t, v, r'.(links := virt), d, d1, d2, p, hi, cur, last);
    assert Ok(virt, d2, cur);
  }

  lemma AdoptedFits(m: Parsed, t: State, v: State, d: Depths, d': Depths, p: nat, hi: nat, cur: nat, last: int)
    requires AdoptedUpTo(m, t, v, d, d', p, hi, cur, last)
    ensures Fits(m, v)
  {
  }

  /** Nothing was adopted. */
  lemma AdoptNothing(m: Parsed, t: State, v: State, d: Depths, d': Depths, p: nat, hi: nat, cur: nat)
    requires AdoptedUpTo(m, t, v, d, d', p, hi, cur, NULL) && ListOf(d, p) == NULL
    ensures ReadyToFlatten(m, t, v, d, d', p) && d' == d
  {
    assert d' == d;
    ScanUnique(d, d[p], p + 1, p + 1);
  }

  /** Then the pointers are unchanged, too. */
  lemma NothingMoved(m: Parsed, t: State, v: State, actual: Pointers, d: Depths, d': Depths, p: nat, hi: nat, cur: nat)
    requires AdoptedUpTo(m, t, v, d, d', p, hi, cur, NULL) && ListOf(d, p) == NULL
    requires ParentsSet(actual, v.links, d', p, cur)
    ensures actual == v.links && d' == d && cur == p + 1 == End(d, p)
    ensures ReadyToFlatten(m, t, v, d, d, p)
  {
    assert actual.parent == v.links.parent;
    AdoptNothing(m, t, v, d, d', p, hi, cur);
    ScanUnique(d, d[p], p + 1, p + 1);
  }

  /** Linking the adopted siblings below `p`. */
  lemma AdoptEnd(m: Parsed, t: State, v: State, v': State, d: Depths, d': Depths, p: nat, hi: nat, cur: nat, last: nat)
    requires AdoptedUpTo(m, t, v, d, d', p, hi, cur, last)
    requires AdoptSite(d', p, last, cur) && AdoptEffect(v.links, v'.links, d', p, last, cur)
    requires v'.dep == v.dep && v'.props == v.props && v'.log == v.log
    ensures ReadyToFlatten(m, t, v', d, Raise(d', p + 1, cur), p)
  {
    hide FinalDep, FinalProps, LoggedUpTo;
    var d2 := Raise(d', p + 1, cur);
    AdoptLinked(v.links, v'.links, d', p, last, cur, hi);
    RaiseValid(d', p, cur);
    RaiseAtNode(d', p, cur);
    AdoptOutside(t.links, v.links, v'.links, d', p, last, cur, hi);
    AdoptData(m, t, v, v', d, d', p, hi, cur, last);
  }

  lemma AdoptOutside(s0: Pointers, s: Pointers, s': Pointers, d: Depths, p: nat, last: nat, cur: nat, hi: nat)
    requires SameOutside(s0, s, p, hi) && Sized(s, |d|) && cur <= hi
    requires AdoptSite(d, p, last, cur) && AdoptEffect(s, s', d, p, last, cur)
    ensures SameOutside(s0, s', p, hi)
  {
    forall i | 0 <= i < |d| && !(p <= i < hi)
      ensures SameAt(s0, s', i)
    {
      assert SameAt(s0, s, i);
    }
  }

  lemma AdoptData(m: Parsed, t: State, v: State, v': State, d: Depths, d': Depths, p: nat, hi: nat, cur: nat, last: nat)
    requires AdoptedUpTo(m, t, v, d, d', p, hi, cur, last)
    requires AdoptSite(d', p, last, cur) && AdoptEffect(v.links, v'.links, d', p, last, cur)
    requires v'.dep == v.dep && v'.props == v.props && v'.log == v.log
    ensures Fits(m, v')
    ensures forall i | p < i < cur :: Finished(m, v', i)
    ensures forall i | p < i < cur && d'[i] != d[p] :: FlatNode(m, v', i)
    ensures forall i | 0 <= i <= p || cur <= i < |d| :: d'[i] == d[i] && SameData(t, v', i)
  {
    hide FinalDep, FinalProps, LoggedUpTo;
    forall i | p < i < cur
      ensures Finished(m, v', i) && (d'[i] != d[p] ==> FlatNode(m, v', i))
    {
      assert Finished(m, v, i);
      if d'[i] != d[p] {
        assert FlatNode(m, v, i);
      }
    }
    forall i | 0 <= i <= p || cur <= i < |d|
      ensures SameData(t, v', i)
    {
      assert SameData(t, v, i);
    }
  }

  // ----- the whole tree -----

  lemma EmptyLog(m: Parsed)
    requires WellFormed(m)
    ensures LogOk(m, map[], map[], [])
  {
  }

  lemma RootBefore(m: Parsed, t: State)
    requires Fits(m, t) && Linked(t.links, m.depths, 0, |m.nodes|)
    requires forall i | 0 <= i < |m.nodes| :: PendingAt(m, t.dep, t.props, i)
    ensures Before(m, t, m.depths, 0)
  {
    RootSpansAll(m.depths);
    assert PendingAt(m, t.dep, t.props, 0);
    forall i | 0 < i < |m.nodes|
      ensures Untouched(m, t, i)
    {
      assert PendingAt(m, t.dep, t.props, i);
    }
  }

  lemma RootAfter(m: Parsed, t: State, t': State, d: Depths)
    requires Fits(m, t) && Finished(m, t, 0) && After(m, t, t', m.depths, d, 0)
    ensures ValidDepths(d) && End(d, 0) == |m.nodes| && Linked(t'.links, d, 0, |m.nodes|)
    ensures Fits(m, t')
    ensures forall i | 0 <= i < |m.nodes| :: Finished(m, t', i)
    ensures forall i | 0 < i < |m.nodes| :: FlatAt(m, t'.links.list, i)
  {
    RootSpansAll(d);
    RootSpansAll(m.depths);
    forall i | 0 <= i < |m.nodes|
      ensures Finished(m, t', i)
    {
      if i == 0 {
        FinishedStays(m, t, t', 0);
      }
    }
    forall i | 0 < i < |m.nodes|
      ensures FlatAt(m, t'.links.list, i)
    {
      assert FlatNode(m, t', i);
    }
  }

  /** When every node is finished, the record of selects is complete. */
  lemma AllDoneComplete(m: Parsed, t: State, revDep: map<Symbol, Expr>, implied: map<Symbol, Expr>)
    requires Fits(m, t) && LogOk(m, revDep, implied, t.log)
    requires forall i | 0 <= i < |m.nodes| :: Finished(m, t, i)
    ensures Complete(m, t.log)
    ensures forall s :: Lookup(revDep, s) == Collected(t.log, Select(s)) && Lookup(implied, s) == Collected(t.log, Imply(s))
    ensures forall i | 0 <= i < |m.nodes| :: t.dep[i] == FinalDep(m, i) && t.props[i] == FinalProps(m, i)
  {
    forall s
      ensures Lookup(revDep, s) == Collected(t.log, Select(s)) && Lookup(implied, s) == Collected(t.log, Imply(s))
    {
      ApplyAllCollects(t.log, s);
    }
    forall i | 0 <= i < |m.nodes|
      ensures t.dep[i] == FinalDep(m, i) && t.props[i] == FinalProps(m, i)
    {
      assert Finished(m, t, i);
    }
    forall a | a in t.log
      ensures FromSomeNode(m, a)
    {
      AllFromNodesMember(m, t.log, a);
    }
    forall i: nat, k: nat | i < |m.nodes| && k < |m.nodes[i].props| && Selects(m, i, k, m.nodes[i].props[k].kind)
                          && !m.nodes[i].props[k].kind.OtherKind?
      ensures m.nodes[i].sym.Some? && Applied(m.nodes[i].sym.value, FinalProps(m, i)[k]) in t.log
    {
      assert Finished(m, t, i);
    }
  }
}
