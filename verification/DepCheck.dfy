/**
  The check for recursive dependencies (kconf/symbol.c): a depth-first search
  over symbols in which a choice and its members count as one node.
*/
module DepCheck {
  import opened Wrappers
  import opened Symbols
  import opened Expr

  datatype PropKind = DefaultProp | SelectProp | ImplyProp | OtherProp

  datatype Prop = Prop(kind: PropKind, visible: Option<Expr>, expr: Option<Expr>)

  datatype SymbolInfo = SymbolInfo(
    dirDep: Option<Expr>, revDep: Option<Expr>, implied: Option<Expr>, props: seq<Prop>)

  /** The finalized symbols; `members` lists the members of each choice, `choiceOf` the choice of each member. */
  datatype Table = Table(
    info: map<Symbol, SymbolInfo>,
    members: map<Symbol, seq<Symbol>>,
    choiceOf: map<Symbol, Symbol>)

  // ----- the graph -----

  function Mentioned(e: Expr): set<Symbol> {
    match e
    case Sym(s) => {s}
    case Comp(_, a, b) => {a, b}
    case Not(x) => Mentioned(x)
    case Bin(_, l, r) => Mentioned(l) + Mentioned(r)
  }

  function MentionedOpt(e: Option<Expr>): set<Symbol> {
    match e
    case None => {}
    case Some(x) => Mentioned(x)
  }

  /** A property refers to symbols by its condition, and a default of a symbol by its value. */
  function PropRefs(p: Prop, isChoice: bool): set<Symbol> {
    if p.kind.SelectProp? || p.kind.ImplyProp? then {}
    else MentionedOpt(p.visible) + if p.kind.DefaultProp? && !isChoice then MentionedOpt(p.expr) else {}
  }

  function PropsRefs(ps: seq<Prop>, isChoice: bool): set<Symbol> {
    if ps == [] then {} else PropRefs(ps[0], isChoice) + PropsRefs(ps[1..], isChoice)
  }

  function ConditionRefs(i: SymbolInfo): set<Symbol> {
    MentionedOpt(i.dirDep) + MentionedOpt(i.revDep) + MentionedOpt(i.implied)
  }

  /** The symbols a symbol refers to; the bounds of a range are not among them. */
  function Refs(t: Table, s: Symbol): set<Symbol>
    requires s in t.info
  {
    ConditionRefs(t.info[s]) + PropsRefs(t.info[s].props, s in t.members)
  }

  /** The node of the graph a symbol belongs to: its choice, or itself. */
  function Group(t: Table, s: Symbol): Symbol {
    if s in t.choiceOf then t.choiceOf[s] else s
  }

  /** Choices and members fit together, and choices, which have no name, are never referred to. */
  ghost predicate WellFormed(t: Table) {
    && (forall c | c in t.members :: c in t.info && c !in t.choiceOf)
    && (forall c, s | c in t.members && s in t.members[c] :: s in t.choiceOf && t.choiceOf[s] == c)
    && (forall s | s in t.choiceOf ::
          s in t.info && s !in t.members && t.choiceOf[s] in t.members && s in t.members[t.choiceOf[s]])
    && (forall s, r | s in t.info && r in Refs(t, s) :: r in t.info && r !in t.members)
  }

  /** Some symbol of the group `g` refers to a symbol of the group `h`. */
  ghost predicate Edge(t: Table, g: Symbol, h: Symbol) {
    exists s, r :: s in t.info && Group(t, s) == g && r in Refs(t, s) && Group(t, r) == h
  }

  ghost predicate Uses(e: Option<Expr>, r: Symbol) {
    e.Some? && r in Mentioned(e.value)
  }

  /** `r` occurs in a dependency, in the condition of a property, or in the value of a default outside a choice. */
  ghost predicate RefersTo(i: SymbolInfo, isChoice: bool, r: Symbol) {
    || Uses(i.dirDep, r) || Uses(i.revDep, r) || Uses(i.implied, r)
    || exists p | p in i.props ::
         match p.kind
         case SelectProp => false
         case ImplyProp => false
         case DefaultProp => Uses(p.visible, r) || (!isChoice && Uses(p.expr, r))
         case OtherProp => Uses(p.visible, r)
  }

  lemma {:induction false} PropsRefsExact(ps: seq<Prop>, isChoice: bool, r: Symbol)
    ensures r in PropsRefs(ps, isChoice) <==> exists p | p in ps :: r in PropRefs(p, isChoice)
  {
    hide PropRefs;
    if ps != [] {
      PropsRefsExact(ps[1..], isChoice, r);
      assert ps[0] in ps;
    }
  }

  /** The edges are exactly the references that a change of value can travel along. */
  lemma EdgeExact(t: Table, g: Symbol, h: Symbol)
    ensures Edge(t, g, h) <==> exists s, r ::
      s in t.info && Group(t, s) == g && RefersTo(t.info[s], s in t.members, r) && Group(t, r) == h
  {
    forall s, r | s in t.info
      ensures r in Refs(t, s) <==> RefersTo(t.info[s], s in t.members, r)
    {
      RefsExact(t, s, r);
    }
  }

  lemma RefsExact(t: Table, s: Symbol, r: Symbol)
    requires s in t.info
    ensures r in Refs(t, s) <==> RefersTo(t.info[s], s in t.members, r)
  {
    hide PropsRefs, Mentioned;
    var i, isChoice := t.info[s], s in t.members;
    PropsRefsExact(i.props, isChoice, r);
    forall p | p in i.props
      ensures r in PropRefs(p, isChoice) <==>
        match p.kind
        case SelectProp => false
        case ImplyProp => false
        case DefaultProp => Uses(p.visible, r) || (!isChoice && Uses(p.expr, r))
        case OtherProp => Uses(p.visible, r)
    {
    }
  }

  ghost predicate IsPath(t: Table, p: seq<Symbol>) {
    forall i | 0 < i < |p| :: Edge(t, p[i - 1], p[i])
  }

  ghost predicate IsCycle(t: Table, p: seq<Symbol>) {
    p != [] && IsPath(t, p) && Edge(t, p[|p| - 1], p[0])
  }

  ghost predicate OnCycle(t: Table, g: Symbol) {
    exists p :: IsCycle(t, p) && p[0] == g
  }

  /** A path of edges, perhaps an empty one, leads from `g` to `h`. */
  ghost predicate Leads(t: Table, g: Symbol, h: Symbol) {
    exists p :: p != [] && IsPath(t, p) && p[0] == g && p[|p| - 1] == h
  }

  /** `g` is reached from the group of a listed symbol. */
  ghost predicate Reached(t: Table, syms: seq<Symbol>, g: Symbol) {
    exists s | s in syms :: Leads(t, Group(t, s), g)
  }

  lemma LeadsHere(t: Table, g: Symbol)
    ensures Leads(t, g, g)
  {
    assert IsPath(t, [g]) && [g][0] == g;
  }

  lemma LeadsOn(t: Table, g: Symbol, h: Symbol, k: Symbol)
    requires Edge(t, g, h) && Leads(t, h, k)
    ensures Leads(t, g, k)
  {
    var p :| p != [] && IsPath(t, p) && p[0] == h && p[|p| - 1] == k;
    var q := [g] + p;
    forall i | 0 < i < |q|
      ensures Edge(t, q[i - 1], q[i])
    {
      if i > 1 {
        assert Edge(t, p[i - 2], p[i - 1]);
      }
    }
    assert q[0] == g && q[|q| - 1] == k;
  }

  ghost predicate Acyclic(t: Table) {
    forall g :: !OnCycle(t, g)
  }

  /** Every group comes after all the groups it refers to. */
  ghost predicate Sorted(t: Table, order: seq<Symbol>) {
    forall i, h | 0 <= i < |order| && Edge(t, order[i], h) :: h in order[..i]
  }

  lemma SortedExtend(t: Table, order: seq<Symbol>, g: Symbol)
    requires Sorted(t, order) && forall h | Edge(t, g, h) :: h in order
    ensures Sorted(t, order + [g])
  {
    hide Edge;
    var order' := order + [g];
    forall i, h | 0 <= i < |order'| && Edge(t, order'[i], h)
      ensures h in order'[..i]
    {
      if i < |order| {
        assert order'[..i] == order[..i];
      } else {
        assert order'[..i] == order;
      }
    }
  }

  /** A path that starts in a sorted list runs towards its front. */
  lemma {:induction false} PathRunsDown(t: Table, order: seq<Symbol>, p: seq<Symbol>, k: nat)
    requires Sorted(t, order) && IsPath(t, p) && p != [] && k < |order| && order[k] == p[0]
    ensures p[|p| - 1] in order[..k + 1]
    decreases |p|
  {
    hide Edge;
    if |p| > 1 {
      assert Edge(t, p[0], p[1]);
      var j :| 0 <= j < k && order[j] == p[1];
      PathRunsDown(t, order, p[1..], j);
      assert order[..j + 1] <= order[..k + 1];
    }
  }

  /** A cycle through a sorted list would come round to an earlier place. */
  lemma CycleRunsDown(t: Table, order: seq<Symbol>, p: seq<Symbol>, k: nat)
    requires Sorted(t, order) && IsCycle(t, p) && k < |order| && order[k] == p[0]
    ensures p[0] in order[..k]
  {
    hide Edge;
    PathRunsDown(t, order, p, k);
    var j :| 0 <= j < k + 1 && order[j] == p[|p| - 1];
    assert p[0] in order[..j];
    assert order[..j] <= order[..k];
  }

  lemma {:induction false} SortedNoCycle(t: Table, order: seq<Symbol>, p: seq<Symbol>, k: nat)
    requires Sorted(t, order) && IsCycle(t, p) && k <= |order|
    ensures p[0] !in order[..k]
  {
    if k > 0 {
      SortedNoCycle(t, order, p, k - 1);
      assert order[..k] == order[..k - 1] + [order[k - 1]];
      if order[k - 1] == p[0] {
        CycleRunsDown(t, order, p, k - 1);
      }
    }
  }

  // ----- the flags -----

  /**
    The SYMBOL_CHECK and SYMBOL_CHECKED flags of all symbols; for the proof, also
    the groups that were reached and, in order, those that were finished.
  */
  datatype Flags = Flags(check: set<Symbol>, checked: set<Symbol>, visited: set<Symbol>, finished: seq<Symbol>)

  /** The flags say which groups are being checked, those on `stack`, and which have been reached. */
  ghost predicate Inv(t: Table, f: Flags, stack: seq<Symbol>) {
    && WellFormed(t)
    && (forall s | s in t.info && s !in t.members :: s in f.check <==> Group(t, s) in stack)
    && (forall s | s in f.check :: Group(t, s) in stack)
    && (forall s | s in t.info :: s in f.checked <==> Group(t, s) in f.visited)
    && (forall g | g in stack :: g in f.visited)
    && (forall g | g in f.finished :: g in f.visited)
    && IsPath(t, stack) && Sorted(t, f.finished)
  }

  /** Every group that was reached is finished or still being checked; nothing was abandoned. */
  ghost predicate NothingAbandoned(f: Flags, stack: seq<Symbol>) {
    forall g | g in f.visited :: g in f.finished || g in stack
  }

  ghost predicate AllFinished(t: Table, f: Flags, syms: set<Symbol>) {
    forall s | s in syms :: Group(t, s) in f.finished
  }

  ghost predicate Grown(f: Flags, f': Flags) {
    f.checked <= f'.checked && f.finished <= f'.finished && f'.check <= f.check
  }

  /** The number of symbols still to be reached. */
  ghost function Left(t: Table, f: Flags): nat {
    |t.info.Keys - f.checked|
  }

  lemma {:induction false} SubsetSize<T>(a: set<T>, b: set<T>)
    requires a <= b
    ensures |a| <= |b|
  {
    assert b == a + (b - a);
  }

  lemma LeftSame(t: Table, f: Flags, f': Flags)
    requires f'.checked == f.checked
    ensures Left(t, f') == Left(t, f)
  {
  }

  /** The outcome of a search below the groups on `stack` for the symbols `syms`. */
  ghost predicate Outcome(t: Table, f: Flags, f': Flags, stack: seq<Symbol>, syms: set<Symbol>, r: Option<Symbol>) {
    && Inv(t, f', stack) && Grown(f, f') && Left(t, f') <= Left(t, f)
    && (r.None? && NothingAbandoned(f, stack) ==> NothingAbandoned(f', stack) && AllFinished(t, f', syms))
    && (r.Some? ==> OnCycle(t, Group(t, r.value)) && LeadsFrom(t, syms, Group(t, r.value)))
  }

  ghost predicate LeadsFrom(t: Table, syms: set<Symbol>, g: Symbol) {
    exists s | s in syms :: Leads(t, Group(t, s), g)
  }

  lemma OutcomeThen(t: Table, f: Flags, f1: Flags, f2: Flags, stack: seq<Symbol>,
                    syms1: set<Symbol>, syms2: set<Symbol>, r: Option<Symbol>)
    requires Outcome(t, f, f1, stack, syms1, None) && Outcome(t, f1, f2, stack, syms2, r)
    ensures Outcome(t, f, f2, stack, syms1 + syms2, r)
  {
    assert forall g | g in f1.finished :: g in f2.finished;
  }

  lemma OutcomeFailed(t: Table, f: Flags, f': Flags, stack: seq<Symbol>, syms: set<Symbol>, syms': set<Symbol>, r: Option<Symbol>)
    requires Outcome(t, f, f', stack, syms, r) && if r.Some? then syms <= syms' else syms' <= syms
    ensures Outcome(t, f, f', stack, syms', r)
  {
  }

  lemma OutcomeStart(t: Table, f: Flags, stack: seq<Symbol>)
    requires Inv(t, f, stack)
    ensures Outcome(t, f, f, stack, {}, None)
  {
  }

  lemma OutcomeUse(t: Table, f: Flags, f': Flags, stack: seq<Symbol>, syms: set<Symbol>, r: Option<Symbol>)
    requires Outcome(t, f, f', stack, syms, r)
    ensures Inv(t, f', stack) && Left(t, f') <= Left(t, f)
  {
  }

  /** Meeting a group that is on the stack closes a cycle. */
  lemma StackCycle(t: Table, stack: seq<Symbol>, g: Symbol)
    requires IsPath(t, stack) && g in stack && Edge(t, stack[|stack| - 1], g)
    ensures OnCycle(t, g)
  {
    var k :| 0 <= k < |stack| && stack[k] == g;
    assert IsCycle(t, stack[k..]) && stack[k..][0] == g;
  }

  /** A symbol that is asked about while the groups on `stack` are being checked. */
  ghost predicate Asked(t: Table, stack: seq<Symbol>, s: Symbol) {
    && s in t.info && (s in t.members ==> s !in stack)
    && (stack != [] ==> Edge(t, stack[|stack| - 1], Group(t, s)))
  }

  lemma FoundOnStack(t: Table, f: Flags, stack: seq<Symbol>, s: Symbol)
    requires Inv(t, f, stack) && Asked(t, stack, s) && s in f.check
    ensures Outcome(t, f, f, stack, {s}, Some(s))
  {
    StackCycle(t, stack, Group(t, s));
    LeadsHere(t, Group(t, s));
  }

  lemma AlreadyChecked(t: Table, f: Flags, stack: seq<Symbol>, s: Symbol)
    requires Inv(t, f, stack) && Asked(t, stack, s) && s !in f.check && s in f.checked
    ensures Outcome(t, f, f, stack, {s}, None)
  {
  }

  /** The symbols of the group `g`. */
  ghost predicate IsGroup(t: Table, g: Symbol, syms: set<Symbol>) {
    && g in syms && (forall s | s in syms :: s in t.info && Group(t, s) == g)
    && (forall s | s in t.info && Group(t, s) == g :: s in syms)
  }

  ghost function Marked(f: Flags, g: Symbol, syms: set<Symbol>): Flags {
    f.(check := f.check + syms, checked := f.checked + syms, visited := f.visited + {g})
  }

  /** Marking all symbols of a new group. */
  lemma Push(t: Table, f: Flags, stack: seq<Symbol>, g: Symbol, syms: set<Symbol>)
    requires Inv(t, f, stack) && IsGroup(t, g, syms) && g !in f.checked && Asked(t, stack, g)
    ensures Inv(t, Marked(f, g, syms), stack + [g])
    ensures NothingAbandoned(f, stack) ==> NothingAbandoned(Marked(f, g, syms), stack + [g])
  {
    assert Group(t, g) == g && g !in f.visited;
    var path := stack + [g];
    forall i | 0 < i < |path|
      ensures Edge(t, path[i - 1], path[i])
    {
      if i < |stack| {
        assert Edge(t, stack[i - 1], stack[i]);
      }
    }
  }

  lemma PushLeft(t: Table, f: Flags, g: Symbol, syms: set<Symbol>)
    requires g in syms && g in t.info && g !in f.checked
    ensures Left(t, Marked(f, g, syms)) < Left(t, f)
  {
    SubsetSize(t.info.Keys - (f.checked + syms), t.info.Keys - f.checked - {g});
  }

  /** Unmarking them again, in the order of the C code. */
  lemma Pop(t: Table, f: Flags, stack: seq<Symbol>, g: Symbol, syms: set<Symbol>)
    requires Inv(t, f, stack + [g]) && IsGroup(t, g, syms) && g !in stack
    ensures Inv(t, f.(check := f.check - syms), stack)
  {
    var path := stack + [g];
    forall i | 0 < i < |stack|
      ensures Edge(t, stack[i - 1], stack[i])
    {
      assert Edge(t, path[i - 1], path[i]);
    }
  }

  /** When everything the group refers to is finished, the group is. */
  lemma Finish(t: Table, f: Flags, stack: seq<Symbol>, g: Symbol, syms: set<Symbol>)
    requires Inv(t, f, stack) && IsGroup(t, g, syms) && NothingAbandoned(f, stack + [g]) && g in f.visited
    requires forall s | s in syms :: AllFinished(t, f, Refs(t, s))
    ensures Inv(t, f.(finished := f.finished + [g]), stack)
    ensures NothingAbandoned(f.(finished := f.finished + [g]), stack)
  {
    SortedExtend(t, f.finished, g);
  }

  // ----- the search -----

  class Checker {
    const table: Table
    var check: set<Symbol>
    var checked: set<Symbol>
    ghost var visited: set<Symbol>
    ghost var finished: seq<Symbol>

    ghost function F(): Flags
      reads this
    {
      Flags(check, checked, visited, finished)
    }

    /** All flags cleared. */
    constructor (t: Table)
      requires WellFormed(t)
      ensures table == t && Inv(t, F(), []) && NothingAbandoned(F(), [])
    {
      table := t;
      check, checked, visited, finished := {}, {}, {}, [];
    }

    /** sym_check_expr_deps. */
    method CheckExpr(e: Expr, ghost stack: seq<Symbol>, ghost n: nat) returns (r: Option<Symbol>)
      requires Inv(table, F(), stack) && Left(table, F()) <= n
      requires forall s | s in Mentioned(e) :: s !in table.members && Asked(table, stack, s)
      modifies this
      ensures Outcome(table, old(F()), F(), stack, Mentioned(e), r)
      decreases n, 2, Size(e)
    {
      hide Inv, Outcome, OnCycle, Asked, NothingAbandoned, AllFinished, WellFormed, Edge, Left, Grown, IsGroup, Group;
      match e
      case Bin(_, a, b) =>
        r := CheckExpr(a, stack, n);
        ghost var f := F();
        OutcomeUse(table, old(F()), f, stack, Mentioned(a), r);
        if r.Some? {
          OutcomeFailed(table, old(F()), f, stack, Mentioned(a), Mentioned(e), r);
          return;
        }
        r := CheckExpr(b, stack, n);
        OutcomeThen(table, old(F()), f, F(), stack, Mentioned(a), Mentioned(b), r);
      case Not(x) =>
        r := CheckExpr(x, stack, n);
      case Comp(_, a, b) =>
        r := CheckSymbol(a, stack, n);
        ghost var f := F();
        OutcomeUse(table, old(F()), f, stack, {a}, r);
        if r.Some? {
          OutcomeFailed(table, old(F()), f, stack, {a}, Mentioned(e), r);
          return;
        }
        r := CheckSymbol(b, stack, n);
        OutcomeThen(table, old(F()), f, F(), stack, {a}, {b}, r);
        assert {a} + {b} == Mentioned(e);
      case Sym(s) =>
        r := CheckSymbol(s, stack, n);
    }

    /** sym_check_expr_deps with NULL. */
    method CheckOptional(e: Option<Expr>, ghost stack: seq<Symbol>, ghost n: nat) returns (r: Option<Symbol>)
      requires Inv(table, F(), stack) && Left(table, F()) <= n
      requires forall s | s in MentionedOpt(e) :: s !in table.members && Asked(table, stack, s)
      modifies this
      ensures Outcome(table, old(F()), F(), stack, MentionedOpt(e), r)
      decreases n, 3
    {
      hide Inv, Outcome, OnCycle, Asked, NothingAbandoned, AllFinished, WellFormed, Edge, Left, Grown, IsGroup, Group;
      OutcomeStart(table, F(), stack);
      r := None;
      if e.Some? {
        r := CheckExpr(e.value, stack, n);
      }
    }

    /** Lines 1240-1252 of sym_check_sym_deps: one property. */
    method CheckProp(sym: Symbol, prop: Prop, ghost stack: seq<Symbol>, ghost n: nat) returns (r: Option<Symbol>)
      requires Inv(table, F(), stack) && Left(table, F()) <= n
      requires forall s | s in PropRefs(prop, sym in table.members) :: s !in table.members && Asked(table, stack, s)
      modifies this
      ensures Outcome(table, old(F()), F(), stack, PropRefs(prop, sym in table.members), r)
      decreases n, 4
    {
      hide Inv, Outcome, OnCycle, Asked, NothingAbandoned, AllFinished, WellFormed, Edge, Left, Grown, IsGroup, Group;
      OutcomeStart(table, F(), stack);
      ghost var visible, refs := MentionedOpt(prop.visible), PropRefs(prop, sym in table.members);
      r := None;
      if prop.kind.SelectProp? || prop.kind.ImplyProp? {
        return;
      }
      r := CheckOptional(prop.visible, stack, n);
      ghost var f := F();
      OutcomeUse(table, old(F()), f, stack, visible, r);
      if r.Some? || !prop.kind.DefaultProp? || sym in table.members {
        OutcomeFailed(table, old(F()), f, stack, visible, refs, r);
        return;
      }
      r := CheckOptional(prop.expr, stack, n);
      OutcomeThen(table, old(F()), f, F(), stack, visible, MentionedOpt(prop.expr), r);
    }

    /** Lines 1222-1235 of sym_check_sym_deps: the three dependencies of a symbol. */
    method CheckConditions(info: SymbolInfo, ghost stack: seq<Symbol>, ghost n: nat) returns (r: Option<Symbol>)
      requires Inv(table, F(), stack) && Left(table, F()) <= n
      requires forall s | s in ConditionRefs(info) :: s !in table.members && Asked(table, stack, s)
      modifies this
      ensures Outcome(table, old(F()), F(), stack, ConditionRefs(info), r)
      decreases n, 4
    {
      hide Inv, Outcome, OnCycle, Asked, NothingAbandoned, AllFinished, WellFormed, Edge, Left, Grown, IsGroup, Group;
      ghost var d, v, i := MentionedOpt(info.dirDep), MentionedOpt(info.revDep), MentionedOpt(info.implied);
      r := CheckOptional(info.dirDep, stack, n);
      ghost var f := F();
      OutcomeUse(table, old(F()), f, stack, d, r);
      if r.Some? {
        OutcomeFailed(table, old(F()), f, stack, d, ConditionRefs(info), r);
        return;
      }
      r := CheckOptional(info.revDep, stack, n);
      OutcomeThen(table, old(F()), f, F(), stack, d, v, r);
      f := F();
      OutcomeUse(table, old(F()), f, stack, d + v, r);
      if r.Some? {
        OutcomeFailed(table, old(F()), f, stack, d + v, ConditionRefs(info), r);
        return;
      }
      r := CheckOptional(info.implied, stack, n);
      OutcomeThen(table, old(F()), f, F(), stack, d + v, i, r);
    }

    /** sym_check_sym_deps: everything `sym` refers to. */
    method CheckRefs(sym: Symbol, ghost stack: seq<Symbol>, ghost n: nat) returns (r: Option<Symbol>)
      requires Inv(table, F(), stack) && Left(table, F()) <= n
      requires stack != [] && sym in table.info && Group(table, sym) == stack[|stack| - 1]
      modifies this
      ensures Outcome(table, old(F()), F(), stack, Refs(table, sym), r)
      decreases n, 5
    {
      hide Inv, Outcome, OnCycle, Asked, NothingAbandoned, AllFinished, WellFormed, Edge, Left, Grown, IsGroup, Group, Refs, PropRefs, ConditionRefs;
      RefsAreAsked(table, F(), stack, sym);
      ConditionsInRefs(table, sym);
      var info := table.info[sym];
      ghost var isChoice, seen := sym in table.members, ConditionRefs(info);
      r := CheckConditions(info, stack, n);
      var k := 0;
      while r.None? && k < |info.props|
        invariant 0 <= k <= |info.props| && ConditionRefs(info) <= seen <= Refs(table, sym)
        invariant forall j | 0 <= j < k :: PropRefs(info.props[j], isChoice) <= seen
        invariant Outcome(table, old(F()), F(), stack, seen, r)
        decreases |info.props| - k
      {
        PropRefsInRefs(table, sym, k);
        ghost var f := F();
        OutcomeUse(table, old(F()), f, stack, seen, r);
        r := CheckProp(sym, info.props[k], stack, n);
        OutcomeThen(table, old(F()), f, F(), stack, seen, PropRefs(info.props[k], isChoice), r);
        seen := seen + PropRefs(info.props[k], isChoice);
        k := k + 1;
      }
      if r.None? {
        RefsCovered(table, sym, seen);
      }
      OutcomeFailed(table, old(F()), F(), stack, seen, Refs(table, sym), r);
    }

    /** sym_check_deps. */
    method CheckSymbol(sym: Symbol, ghost stack: seq<Symbol>, ghost n: nat) returns (r: Option<Symbol>)
      requires Inv(table, F(), stack) && Left(table, F()) <= n && Asked(table, stack, sym)
      modifies this
      ensures Outcome(table, old(F()), F(), stack, {sym}, r)
      decreases n, 1, if sym in table.choiceOf then 2 else 1
    {
      hide Inv, Outcome, OnCycle, Asked, NothingAbandoned, AllFinished, WellFormed, Edge, Left, Grown, IsGroup, Group;
      if sym in check {
        FoundOnStack(table, F(), stack, sym);
        return Some(sym);
      }
      if sym in checked {
        AlreadyChecked(table, F(), stack, sym);
        return None;
      }
      NotYetChecked(table, F(), stack, sym);
      if sym in table.choiceOf {
        r := CheckSymbol(table.choiceOf[sym], stack, n);
        SameGroup(table, old(F()), F(), stack, sym, r);
      } else if sym in table.members {
        r := CheckChoice(sym, stack, n);
      } else {
        r := CheckPlain(sym, stack, n);
      }
    }

    /** Lines 1330-1332 of sym_check_deps: a symbol outside all choices. */
    method CheckPlain(sym: Symbol, ghost stack: seq<Symbol>, ghost n: nat) returns (r: Option<Symbol>)
      requires Inv(table, F(), stack) && Left(table, F()) <= n && Asked(table, stack, sym)
      requires sym !in table.choiceOf && sym !in table.members && sym !in checked && sym !in stack
      modifies this
      ensures Outcome(table, old(F()), F(), stack, {sym}, r)
      decreases n, 1, 0
    {
      hide Inv, Outcome, OnCycle, Asked, NothingAbandoned, AllFinished, WellFormed, Edge, Left, Grown, IsGroup, Group, Refs;
      PlainGroup(table, F(), stack, sym);
      ghost var f0 := F();
      check, checked, visited := check + {sym}, checked + {sym}, visited + {sym};
      Push(table, f0, stack, sym, {sym});
      PushLeft(table, f0, sym, {sym});
      r := CheckRefs(sym, stack + [sym], n - 1);
      GroupDone(table, f0, F(), stack, sym, {sym}, Refs(table, sym), r);
      check := check - {sym};
      if r.None? && NothingAbandoned(f0, stack) {
        finished := finished + [sym];
      }
    }

    /** Lines 1282-1288 of sym_check_choice_deps: the members in turn. */
    method CheckMembers(choice: Symbol, ghost stack: seq<Symbol>, ghost n: nat) returns (r: Option<Symbol>)
      requires Inv(table, F(), stack) && Left(table, F()) <= n
      requires choice in table.members && stack != [] && stack[|stack| - 1] == choice
      modifies this
      ensures Outcome(table, old(F()), F(), stack, AllRefs(table, table.members[choice]), r)
      decreases n, 6
    {
      hide Inv, Outcome, OnCycle, Asked, NothingAbandoned, AllFinished, WellFormed, Edge, Left, Grown, IsGroup, Group, Refs, AllRefs;
      var members := table.members[choice];
      MembersOfGroup(table, F(), stack, choice);
      OutcomeStart(table, F(), stack);
      r := None;
      var k := 0;
      ghost var seen: set<Symbol> := {};
      while r.None? && k < |members|
        invariant 0 <= k <= |members| && Outcome(table, old(F()), F(), stack, seen, r)
        invariant forall j | 0 <= j < k :: Refs(table, members[j]) <= seen
        invariant seen <= AllRefs(table, members)
        decreases |members| - k
      {
        RefsInAllRefs(table, members, k);
        ghost var f := F();
        OutcomeUse(table, old(F()), f, stack, seen, r);
        r := CheckRefs(members[k], stack, n);
        OutcomeThen(table, old(F()), f, F(), stack, seen, Refs(table, members[k]), r);
        seen := seen + Refs(table, members[k]);
        k := k + 1;
      }
      if r.None? {
        AllRefsCovered(table, members, seen);
      }
      OutcomeFailed(table, old(F()), F(), stack, seen, AllRefs(table, members), r);
    }

    /** Lines 1276-1288 of sym_check_choice_deps: the choice itself, then its members. */
    method CheckChoiceRefs(choice: Symbol, ghost stack: seq<Symbol>, ghost n: nat) returns (r: Option<Symbol>)
      requires Inv(table, F(), stack) && Left(table, F()) <= n
      requires choice in table.members && stack != [] && stack[|stack| - 1] == choice
      requires Group(table, choice) == choice && choice in table.info
      modifies this
      ensures choice !in check
      ensures Outcome(table, old(F()), F(), stack, Refs(table, choice) + AllRefs(table, table.members[choice]), r)
      decreases n, 7
    {
      hide Inv, Outcome, OnCycle, Asked, NothingAbandoned, AllFinished, WellFormed, Edge, Left, Grown, IsGroup, Group, Refs, AllRefs;
      ghost var own, theirs := Refs(table, choice), AllRefs(table, table.members[choice]);
      r := CheckRefs(choice, stack, n);
      ChoiceUnmarked(table, old(F()), F(), stack, choice, own, r);
      check := check - {choice};
      ghost var f := F();
      OutcomeUse(table, old(F()), f, stack, own, r);
      if r.None? {
        r := CheckMembers(choice, stack, n);
        OutcomeShrinks(table, f, F(), stack, theirs, r);
        OutcomeThen(table, old(F()), f, F(), stack, own, theirs, r);
      } else {
        OutcomeFailed(table, old(F()), f, stack, own, own + theirs, r);
      }
    }

    /** sym_check_choice_deps: the choice and all its members are marked before anything is followed. */
    method CheckChoice(choice: Symbol, ghost stack: seq<Symbol>, ghost n: nat) returns (r: Option<Symbol>)
      requires Inv(table, F(), stack) && Left(table, F()) <= n && Asked(table, stack, choice)
      requires choice in table.members && choice !in checked && choice !in stack
      modifies this
      ensures Outcome(table, old(F()), F(), stack, {choice}, r)
      decreases n, 1, 0
    {
      hide Inv, Outcome, OnCycle, Asked, NothingAbandoned, AllFinished, WellFormed, Edge, Left, Grown, IsGroup, Group, Refs, AllRefs;
      var members := set s | s in table.members[choice];
      ghost var f0, syms := F(), {choice} + members;
      ChoiceGroup(table, f0, stack, choice);
      ghost var refs := Refs(table, choice) + AllRefs(table, table.members[choice]);
      ChoiceRefs(table, choice, syms, refs);
      check, checked, visited := check + members, checked + members, visited + {choice};
      check, checked := check + {choice}, checked + {choice};
      assert F() == Marked(f0, choice, syms);
      Push(table, f0, stack, choice, syms);
      PushLeft(table, f0, choice, syms);
      r := CheckChoiceRefs(choice, stack + [choice], n - 1);
      ghost var f := F();
      GroupDone(table, f0, f, stack, choice, syms, refs, r);
      check := check - members;
      assert check == f.check - syms;
      if r.None? && NothingAbandoned(f0, stack) {
        finished := finished + [choice];
      }
      if r.Some? && r.value in table.choiceOf && table.choiceOf[r.value] == choice {
        RenameResult(table, f0, F(), stack, choice, r.value);
        r := Some(choice);
      }
    }

    /**
      The loop of conf_parse over the symbols of all menu entries: it reports an
      error if and only if a group that depends on itself is reached from one of
      them, and every symbol it reports belongs to such a group.
    */
    method CheckAll(syms: seq<Symbol>) returns (errors: seq<Symbol>)
      requires Inv(table, F(), []) && NothingAbandoned(F(), [])
      requires forall s | s in syms :: s in table.info
      modifies this
      ensures errors == [] <==> forall g | OnCycle(table, g) :: !Reached(table, syms, g)
      ensures forall s | s in errors :: OnCycle(table, Group(table, s)) && Reached(table, syms, Group(table, s))
    {
      hide Inv, Outcome, OnCycle, Left, IsCycle, Leads, Reached;
      errors := [];
      OutcomeStart(table, F(), []);
      var k := 0;
      ghost var seen: set<Symbol> := {};
      while k < |syms|
        invariant 0 <= k <= |syms| && Inv(table, F(), [])
        invariant errors == [] ==> Outcome(table, old(F()), F(), [], seen, None)
        invariant seen == (set s | s in syms[..k])
        invariant forall s | s in errors :: OnCycle(table, Group(table, s)) && Reached(table, syms, Group(table, s))
      {
        ghost var f := F();
        var r := CheckSymbol(syms[k], [], Left(table, F()));
        OutcomeUse(table, f, F(), [], {syms[k]}, r);
        if r.Some? {
          OutcomeCycle(table, f, F(), [], syms, k, r);
          errors := errors + [r.value];
        } else if errors == [] {
          OutcomeThen(table, old(F()), f, F(), [], seen, {syms[k]}, r);
        }
        seen := seen + {syms[k]};
        assert syms[..k + 1] == syms[..k] + [syms[k]];
        k := k + 1;
      }
      assert syms[..|syms|] == syms;
      if errors == [] {
        AllSearched(table, old(F()), F(), syms);
      } else {
        assert OnCycle(table, Group(table, errors[0]));
      }
    }
  }

  lemma OutcomeCycle(t: Table, f: Flags, f': Flags, stack: seq<Symbol>, syms: seq<Symbol>, k: nat, r: Option<Symbol>)
    requires k < |syms| && Outcome(t, f, f', stack, {syms[k]}, r) && r.Some?
    ensures OnCycle(t, Group(t, r.value)) && Reached(t, syms, Group(t, r.value))
  {
    assert syms[k] in syms;
  }

  lemma AllSearched(t: Table, f: Flags, f': Flags, syms: seq<Symbol>)
    requires Outcome(t, f, f', [], (set s | s in syms), None) && NothingAbandoned(f, [])
    ensures forall g | OnCycle(t, g) :: !Reached(t, syms, g)
  {
    forall g | OnCycle(t, g)
      ensures !Reached(t, syms, g)
    {
      NotReached(t, f', syms, g);
    }
  }

  lemma NotReached(t: Table, f: Flags, syms: seq<Symbol>, g: Symbol)
    requires Sorted(t, f.finished) && AllFinished(t, f, (set s | s in syms)) && OnCycle(t, g)
    ensures !Reached(t, syms, g)
  {
    var order := f.finished;
    assert order[..|order|] == order;
    if Reached(t, syms, g) {
      var s :| s in syms && Leads(t, Group(t, s), g);
      ReachedIsSorted(t, order, Group(t, s), g);
      var p :| IsCycle(t, p) && p[0] == g;
      SortedNoCycle(t, order, p, |order|);
    }
  }

  lemma ReachedIsSorted(t: Table, order: seq<Symbol>, g: Symbol, h: Symbol)
    requires Sorted(t, order) && g in order && Leads(t, g, h)
    ensures h in order
  {
    var k :| 0 <= k < |order| && order[k] == g;
    var p :| p != [] && IsPath(t, p) && p[0] == g && p[|p| - 1] == h;
    PathRunsDown(t, order, p, k);
  }

  // ----- cycles that no menu entry reaches -----

  /** Every cycle passes through the group of a listed symbol. */
  ghost predicate Covers(t: Table, syms: seq<Symbol>) {
    forall p | IsCycle(t, p) :: exists s, k | s in syms && 0 <= k < |p| :: Group(t, s) == p[k]
  }

  lemma RotatedCycle(t: Table, p: seq<Symbol>, k: nat)
    requires IsCycle(t, p) && k < |p|
    ensures OnCycle(t, p[k])
  {
    var q := p[k..] + p[..k];
    forall i | 0 < i < |q|
      ensures Edge(t, q[i - 1], q[i])
    {
      if i < |p| - k {
        assert Edge(t, p[k + i - 1], p[k + i]);
      } else if i > |p| - k {
        assert Edge(t, p[k + i - 1 - |p|], p[k + i - |p|]);
      }
    }
    if k > 0 {
      assert Edge(t, p[k - 1], p[k]);
    }
    assert IsCycle(t, q) && q[0] == p[k];
  }

  /** When every cycle passes through a listed symbol, no report means no cycle. */
  lemma CoveredAcyclic(t: Table, syms: seq<Symbol>)
    requires Covers(t, syms)
    ensures (forall g | OnCycle(t, g) :: !Reached(t, syms, g)) <==> Acyclic(t)
  {
    if g :| OnCycle(t, g) {
      var p :| IsCycle(t, p) && p[0] == g;
      var s, k :| s in syms && 0 <= k < |p| && Group(t, s) == p[k];
      RotatedCycle(t, p, k);
      LeadsHere(t, p[k]);
      assert Reached(t, syms, p[k]);
    }
  }

  function SelectOf(target: Symbol, condition: Symbol): Prop {
    Prop(SelectProp, Some(Sym(condition)), Some(Sym(target)))
  }

  /** A symbol without a menu entry that `selector` selects under a condition. */
  function SelectedOnly(selector: Symbol, condition: Symbol): SymbolInfo {
    SymbolInfo(None, Some(Bin(AndOp, Sym(selector), Sym(condition))), None, [])
  }

  /** A menu entry `a` that selects `u` if `v`, and `v` if `u`. */
  function HiddenTable(a: Symbol, u: Symbol, v: Symbol): Table {
    Table(
      map[a := SymbolInfo(None, None, None, [SelectOf(u, v), SelectOf(v, u)]),
          u := SelectedOnly(a, v),
          v := SelectedOnly(a, u)],
      map[], map[])
  }

  lemma HiddenRefs(a: Symbol, u: Symbol, v: Symbol)
    requires a != u && a != v && u != v
    ensures var t := HiddenTable(a, u, v); Refs(t, u) == {a, v} && Refs(t, v) == {a, u} && Refs(t, a) == {}
  {
    var t := HiddenTable(a, u, v);
    assert Mentioned(Bin(AndOp, Sym(a), Sym(v))) == {a, v};
    assert Mentioned(Bin(AndOp, Sym(a), Sym(u))) == {a, u};
    PropsRefsMember(t.info[a].props, false);
    assert forall k | 0 <= k < 2 :: PropRefs(t.info[a].props[k], false) == {};
  }

  lemma HiddenEdges(a: Symbol, u: Symbol, v: Symbol)
    requires a != u && a != v && u != v
    ensures var t := HiddenTable(a, u, v);
            WellFormed(t) && Edge(t, u, v) && Edge(t, v, u) && forall h :: !Edge(t, a, h)
  {
    hide Refs;
    var t := HiddenTable(a, u, v);
    HiddenRefs(a, u, v);
    assert Group(t, u) == u && Group(t, v) == v;
  }

  /** The two symbols depend on each other, and no menu entry reaches them. */
  lemma HiddenCycleExample(a: Symbol, u: Symbol, v: Symbol)
    requires a != u && a != v && u != v
    ensures var t := HiddenTable(a, u, v); WellFormed(t) && OnCycle(t, u) && !Reached(t, [a], u)
  {
    hide WellFormed, Edge, Leads;
    var t := HiddenTable(a, u, v);
    HiddenEdges(a, u, v);
    assert IsCycle(t, [u, v]) && [u, v][0] == u;
    if Leads(t, a, u) {
      LeadsInside(t, {a}, a, u);
    }
  }

  /** Edges that stay inside a set lead to nothing outside of it. */
  lemma LeadsInside(t: Table, inside: set<Symbol>, g: Symbol, h: Symbol)
    requires forall x, y | x in inside && Edge(t, x, y) :: y in inside
    requires g in inside && Leads(t, g, h)
    ensures h in inside
  {
    var p :| p != [] && IsPath(t, p) && p[0] == g && p[|p| - 1] == h;
    PathInside(t, inside, p);
  }

  lemma {:induction false} PathInside(t: Table, inside: set<Symbol>, p: seq<Symbol>)
    requires forall x, y | x in inside && Edge(t, x, y) :: y in inside
    requires p != [] && IsPath(t, p) && p[0] in inside
    ensures p[|p| - 1] in inside
    decreases |p|
  {
    hide Edge;
    if |p| > 1 {
      assert Edge(t, p[0], p[1]);
      assert forall i | 0 < i < |p[1..]| :: p[1..][i - 1] == p[i] && p[1..][i] == p[i + 1];
      PathInside(t, inside, p[1..]);
    }
  }

  /** Everything the symbols of a list refer to. */
  function AllRefs(t: Table, syms: seq<Symbol>): set<Symbol> {
    set s, r | s in syms && s in t.info && r in Refs(t, s) :: r
  }

  lemma RefsInAllRefs(t: Table, syms: seq<Symbol>, k: nat)
    requires k < |syms| && syms[k] in t.info
    ensures Refs(t, syms[k]) <= AllRefs(t, syms)
  {
  }

  lemma AllRefsCovered(t: Table, syms: seq<Symbol>, seen: set<Symbol>)
    requires forall j | 0 <= j < |syms| :: syms[j] in t.info && Refs(t, syms[j]) <= seen
    ensures AllRefs(t, syms) <= seen
  {
  }

  lemma MembersOfGroup(t: Table, f: Flags, stack: seq<Symbol>, c: Symbol)
    requires Inv(t, f, stack) && c in t.members
    ensures forall s | s in t.members[c] :: s in t.info && Group(t, s) == c
  {
  }

  lemma OutcomeShrinks(t: Table, f: Flags, f': Flags, stack: seq<Symbol>, syms: set<Symbol>, r: Option<Symbol>)
    requires Outcome(t, f, f', stack, syms, r)
    ensures f'.check <= f.check
  {
  }

  /** A choice stands for its members. */
  lemma SameGroup(t: Table, f: Flags, f': Flags, stack: seq<Symbol>, s: Symbol, r: Option<Symbol>)
    requires s in t.choiceOf && t.choiceOf[s] !in t.choiceOf && Outcome(t, f, f', stack, {t.choiceOf[s]}, r)
    ensures Outcome(t, f, f', stack, {s}, r)
  {
  }

  lemma RenameResult(t: Table, f: Flags, f': Flags, stack: seq<Symbol>, c: Symbol, s: Symbol)
    requires Outcome(t, f, f', stack, {c}, Some(s)) && s in t.choiceOf && t.choiceOf[s] == c && c in t.members
    ensures Outcome(t, f, f', stack, {c}, Some(c))
  {
    assert Group(t, c) == c;
  }

  /** The C code clears SYMBOL_CHECK of the choice before it turns to the members. */
  lemma ChoiceUnmarked(t: Table, f: Flags, f': Flags, stack: seq<Symbol>, c: Symbol, syms: set<Symbol>, r: Option<Symbol>)
    requires Outcome(t, f, f', stack, syms, r) && c in t.members
    ensures Outcome(t, f, f'.(check := f'.check - {c}), stack, syms, r)
  {
    hide Inv, OnCycle, NothingAbandoned, AllFinished, Left;
    LeftSame(t, f', f'.(check := f'.check - {c}));
    UnmarkedInv(t, f', stack, c);
    UnmarkedRest(f', stack, c);
    UnmarkedFinished(t, f', syms, c);
  }

  lemma UnmarkedInv(t: Table, f: Flags, stack: seq<Symbol>, c: Symbol)
    requires Inv(t, f, stack) && c in t.members
    ensures Inv(t, f.(check := f.check - {c}), stack)
  {
    hide IsPath, Sorted, Refs;
  }

  lemma UnmarkedRest(f: Flags, stack: seq<Symbol>, c: Symbol)
    ensures NothingAbandoned(f, stack) <==> NothingAbandoned(f.(check := f.check - {c}), stack)
  {
  }

  lemma UnmarkedFinished(t: Table, f: Flags, syms: set<Symbol>, c: Symbol)
    ensures AllFinished(t, f, syms) <==> AllFinished(t, f.(check := f.check - {c}), syms)
  {
  }

  lemma ChoiceRefs(t: Table, c: Symbol, syms: set<Symbol>, refs: set<Symbol>)
    requires IsGroup(t, c, syms) && c in t.members && syms == {c} + (set s | s in t.members[c])
    requires refs == Refs(t, c) + AllRefs(t, t.members[c])
    ensures forall s | s in syms :: s in t.info && Refs(t, s) <= refs
    ensures forall q | q in refs :: Edge(t, c, Group(t, q))
  {
    hide Refs;
    forall q | q in refs
      ensures Edge(t, c, Group(t, q))
    {
      var s :| s in syms && q in Refs(t, s);
      assert Group(t, s) == c;
    }
  }

  /** A group, marked in `f0`, whose references `refs` have been followed. */
  lemma GroupDone(t: Table, f0: Flags, f: Flags, stack: seq<Symbol>, g: Symbol, syms: set<Symbol>, refs: set<Symbol>, r: Option<Symbol>)
    requires Inv(t, f0, stack) && IsGroup(t, g, syms) && g !in f0.checked && g !in stack && Asked(t, stack, g)
    requires Outcome(t, Marked(f0, g, syms), f, stack + [g], refs, r)
    requires forall s | s in syms :: Refs(t, s) <= refs
    requires forall q | q in refs :: Edge(t, g, Group(t, q))
    ensures var f' := f.(check := f.check - syms);
            Outcome(t, f0, if r.None? && NothingAbandoned(f0, stack) then f'.(finished := f'.finished + [g]) else f',
                    stack, {g}, r)
  {
    hide Inv, OnCycle, NothingAbandoned, AllFinished, Left, Edge, Leads;
    if r.Some? {
      var q :| q in refs && Leads(t, Group(t, q), Group(t, r.value));
      LeadsOn(t, g, Group(t, q), Group(t, r.value));
      assert g in {g} && Group(t, g) == g;
    }
    Pop(t, f, stack, g, syms);
    Push(t, f0, stack, g, syms);
    PushLeft(t, f0, g, syms);
    LeftSame(t, f, f.(check := f.check - syms));
    if r.None? && NothingAbandoned(f0, stack) {
      LeftSame(t, f, f.(check := f.check - syms, finished := f.finished + [g]));
      FinishReached(t, f, stack, g, syms, refs);
    }
  }

  lemma FinishReached(t: Table, f: Flags, stack: seq<Symbol>, g: Symbol, syms: set<Symbol>, refs: set<Symbol>)
    requires Inv(t, f, stack + [g]) && IsGroup(t, g, syms) && g !in stack && NothingAbandoned(f, stack + [g])
    requires AllFinished(t, f, refs) && forall s | s in syms :: Refs(t, s) <= refs
    ensures var f' := f.(check := f.check - syms, finished := f.finished + [g]);
            Inv(t, f', stack) && NothingAbandoned(f', stack) && AllFinished(t, f', {g})
  {
    var f' := f.(check := f.check - syms);
    Pop(t, f, stack, g, syms);
    assert g in (stack + [g]);
    Finish(t, f', stack, g, syms);
  }

  lemma NotYetChecked(t: Table, f: Flags, stack: seq<Symbol>, s: Symbol)
    requires Inv(t, f, stack) && Asked(t, stack, s) && s !in f.checked
    ensures Group(t, s) !in stack && Group(t, s) !in f.checked && Asked(t, stack, Group(t, s))
    ensures Group(t, s) == (if s in t.choiceOf then t.choiceOf[s] else s) && Group(t, s) !in t.choiceOf
  {
  }

  lemma PlainGroup(t: Table, f: Flags, stack: seq<Symbol>, s: Symbol)
    requires Inv(t, f, stack) && Asked(t, stack, s) && s !in t.choiceOf && s !in t.members
    ensures IsGroup(t, s, {s}) && Group(t, s) == s && s in t.info
    ensures forall q | q in Refs(t, s) :: Edge(t, s, Group(t, q))
  {
    hide Refs;
    forall q | q in Refs(t, s)
      ensures Edge(t, s, Group(t, q))
    {
      assert Group(t, s) == s;
    }
  }

  lemma ChoiceGroup(t: Table, f: Flags, stack: seq<Symbol>, c: Symbol)
    requires Inv(t, f, stack) && c in t.members
    ensures IsGroup(t, c, {c} + (set s | s in t.members[c])) && Group(t, c) == c && c in t.info
  {
  }

  lemma RefsAreAsked(t: Table, f: Flags, stack: seq<Symbol>, s: Symbol)
    requires Inv(t, f, stack) && s in t.info && stack != [] && Group(t, s) == stack[|stack| - 1]
    ensures forall r | r in Refs(t, s) :: r !in t.members && Asked(t, stack, r)
  {
    forall r | r in Refs(t, s)
      ensures r !in t.members && Asked(t, stack, r)
    {
      assert Edge(t, Group(t, s), Group(t, r));
    }
  }

  lemma {:induction false} PropsRefsMember(ps: seq<Prop>, isChoice: bool)
    ensures forall r :: r in PropsRefs(ps, isChoice) <==> exists k | 0 <= k < |ps| :: r in PropRefs(ps[k], isChoice)
  {
    if ps != [] {
      PropsRefsMember(ps[1..], isChoice);
      forall r
        ensures r in PropsRefs(ps, isChoice) <==> exists k | 0 <= k < |ps| :: r in PropRefs(ps[k], isChoice)
      {
        if r in PropsRefs(ps[1..], isChoice) {
          var k :| 0 <= k < |ps[1..]| && r in PropRefs(ps[1..][k], isChoice);
          assert r in PropRefs(ps[k + 1], isChoice);
        }
        if k :| 0 <= k < |ps| && r in PropRefs(ps[k], isChoice) {
          if k > 0 {
            assert ps[k] == ps[1..][k - 1];
          }
        }
      }
    }
  }

  lemma ConditionsInRefs(t: Table, s: Symbol)
    requires s in t.info
    ensures ConditionRefs(t.info[s]) <= Refs(t, s)
  {
  }

  lemma RefsCovered(t: Table, s: Symbol, seen: set<Symbol>)
    requires s in t.info && ConditionRefs(t.info[s]) <= seen
    requires forall k | 0 <= k < |t.info[s].props| :: PropRefs(t.info[s].props[k], s in t.members) <= seen
    ensures Refs(t, s) <= seen
  {
    PropsRefsMember(t.info[s].props, s in t.members);
  }

  lemma PropRefsInRefs(t: Table, s: Symbol, k: nat)
    requires s in t.info && k < |t.info[s].props|
    ensures PropRefs(t.info[s].props[k], s in t.members) <= Refs(t, s)
  {
    PropsRefsMember(t.info[s].props, s in t.members);
  }
}
