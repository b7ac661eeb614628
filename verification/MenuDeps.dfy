/**
  What _menu_finalize (kconf/menu.c) computes for the dependencies of menu
  nodes, their properties, and the reverse dependencies of selected symbols.
*/
module MenuDeps {
  import opened Wrappers
  import opened Symbols
  import opened Expr
  import opened ExprEquality
  import opened ExprForms
  import opened ExprDups
  import opened ExprReduced
  import opened ExprTransform
  import opened MenuShape

  datatype PropKind = Select(target: Symbol) | Imply(target: Symbol) | OtherKind

  /** A property: what it is, and the condition in `visible.expr`. */
  datatype Prop = Prop(kind: PropKind, cond: Option<Expr>)

  /** A menu node as parsed, with the properties that belong to it; `prompt` is one of them. */
  datatype Node = Node(
    sym: Option<Symbol>,
    isChoice: bool,
    prompt: Option<nat>,
    promptHasText: bool,
    dep: Option<Expr>,
    props: seq<Prop>)

  /** The parsed menu: nodes in preorder, their depths, and the MODULES symbol. */
  datatype Parsed = Parsed(nodes: seq<Node>, depths: Depths, modules: Symbol)

  ghost predicate WellFormed(m: Parsed) {
    && ValidDepths(m.depths) && |m.nodes| == |m.depths|
    && forall i | 0 <= i < |m.nodes| ::
         && (m.nodes[i].prompt.Some? ==> m.nodes[i].prompt.value < |m.nodes[i].props|)
         && (m.nodes[i].sym.None? ==> forall k | 0 <= k < |m.nodes[i].props| :: m.nodes[i].props[k].kind.OtherKind?)
  }

  /** A condition after m-rewriting, normalisation, and'ing to the enclosing one and deduplication. */
  function Restrict(outer: Option<Expr>, own: Option<Expr>, modules: Symbol): Option<Expr> {
    EliminateDupsOpt(AllocAnd(outer, TransformOpt(RewriteMOpt(own, modules))))
  }

  /** The final dependency of node `i`; the root keeps what it was parsed with. */
  ghost function FinalDep(m: Parsed, i: nat): Option<Expr>
    requires WellFormed(m) && i < |m.nodes|
    decreases i
  {
    if i == 0 then m.nodes[0].dep
    else
      ParentDepth(m.depths, i);
      Restrict(FinalDep(m, ParentOf(m.depths, i)), m.nodes[i].dep, m.modules)
  }

  ghost function FinalProps(m: Parsed, i: nat): (ps: seq<Prop>)
    requires WellFormed(m) && i < |m.nodes|
    ensures |ps| == |m.nodes[i].props|
  {
    var props := m.nodes[i].props;
    if i == 0 then props
    else seq(|props|, k requires 0 <= k < |props| =>
               props[k].(cond := Restrict(FinalDep(m, i), props[k].cond, m.modules)))
  }

  // ----- the value of a dependency -----

  /** `cs` holds all that the conditions of the menu compare. */
  ghost predicate AllWithin(m: Parsed, cs: Comparisons) {
    forall i | 0 <= i < |m.nodes| ::
      && WithinOpt(m.nodes[i].dep, cs)
      && forall k | 0 <= k < |m.nodes[i].props| :: WithinOpt(m.nodes[i].props[k].cond, cs)
  }

  /** The value of a node's own dependency, with m read as m && MODULES. */
  ghost function OwnValue(m: Parsed, e: Option<Expr>, env: Env): Tristate {
    EvalOpt(RewriteMOpt(e, m.modules), env)
  }

  /** The minimum of the dependencies of `i` and of all the nodes that enclosed it when parsed. */
  ghost function PathValue(m: Parsed, i: nat, env: Env): Tristate
    requires WellFormed(m) && i < |m.nodes|
    decreases i
  {
    if i == 0 then EvalOpt(m.nodes[0].dep, env)
    else
      ParentDepth(m.depths, i);
      Min(PathValue(m, ParentOf(m.depths, i), env), OwnValue(m, m.nodes[i].dep, env))
  }

  lemma RestrictMeaning(outer: Option<Expr>, own: Option<Expr>, modules: Symbol, env: Env, cs: Comparisons)
    requires NoClash(env, cs)
    requires WithinOpt(outer, cs) && WithinOpt(own, cs)
    ensures EvalOpt(Restrict(outer, own, modules), env)
            == Min(EvalOpt(outer, env), EvalOpt(RewriteMOpt(own, modules), env))
    ensures WithinOpt(Restrict(outer, own, modules), cs)
  {
    var rewritten := RewriteMOpt(own, modules);
    RewriteMWithin(own, modules, cs);
    TransformOptSound(rewritten, env, cs);
    EliminateDupsOptSound(AllocAnd(outer, TransformOpt(rewritten)), env, cs);
  }

  /** The final dependency has the value the enclosing nodes give it. */
  lemma {:induction false} FinalDepMeaning(m: Parsed, i: nat, env: Env, cs: Comparisons)
    requires WellFormed(m) && i < |m.nodes| && AllWithin(m, cs) && NoClash(env, cs)
    ensures EvalOpt(FinalDep(m, i), env) == PathValue(m, i, env)
    ensures WithinOpt(FinalDep(m, i), cs)
    decreases i
  {
    if i > 0 {
      ParentDepth(m.depths, i);
      var p := ParentOf(m.depths, i);
      FinalDepMeaning(m, p, env, cs);
      RestrictMeaning(FinalDep(m, p), m.nodes[i].dep, m.modules, env, cs);
    }
  }

  /** So has the final condition of every property. */
  lemma FinalPropMeaning(m: Parsed, i: nat, k: nat, env: Env, cs: Comparisons)
    requires WellFormed(m) && 0 < i < |m.nodes| && k < |m.nodes[i].props|
    requires AllWithin(m, cs) && NoClash(env, cs)
    ensures FinalProps(m, i)[k].kind == m.nodes[i].props[k].kind
    ensures EvalOpt(FinalProps(m, i)[k].cond, env)
            == Min(PathValue(m, i, env), OwnValue(m, m.nodes[i].props[k].cond, env))
  {
    FinalDepMeaning(m, i, env, cs);
    RestrictMeaning(FinalDep(m, i), m.nodes[i].props[k].cond, m.modules, env, cs);
  }

  // ----- reverse dependencies -----

  /** A select or imply that has been applied: the symbol that carries it, and the property. */
  datatype Applied = Applied(selector: Symbol, prop: Prop)

  function Term(a: Applied): Expr {
    AllocAnd(Some(Sym(a.selector)), a.prop.cond).value
  }

  /** The disjunction built up for one target, in the order of application. */
  function Collected(log: seq<Applied>, kind: PropKind): Option<Expr> {
    if log == [] then None
    else
      var rest := Collected(log[..|log| - 1], kind);
      var a := log[|log| - 1];
      if a.prop.kind == kind then AllocOr(rest, Some(Term(a))) else rest
  }

  /** The value of a reverse dependency: n when there is none. */
  function ReverseValue(e: Option<Expr>, env: Env): Tristate {
    match e
    case None => NO
    case Some(x) => Eval(x, env)
  }

  ghost predicate IsMaximum(log: seq<Applied>, kind: PropKind, env: Env, v: Tristate) {
    && (forall a | a in log && a.prop.kind == kind :: Eval(Term(a), env) <= v)
    && (v != NO ==> exists a | a in log :: a.prop.kind == kind && Eval(Term(a), env) == v)
  }

  lemma {:induction false} CollectedMaximum(log: seq<Applied>, kind: PropKind, env: Env)
    ensures IsMaximum(log, kind, env, ReverseValue(Collected(log, kind), env))
  {
    if log != [] {
      var init, a := log[..|log| - 1], log[|log| - 1];
      assert log == init + [a];
      CollectedMaximum(init, kind, env);
    }
  }

  /** The value of a select from node `i`: its symbol and its full condition. */
  ghost function SelectValue(m: Parsed, i: nat, k: nat, env: Env): Tristate
    requires WellFormed(m) && i < |m.nodes| && k < |m.nodes[i].props| && m.nodes[i].sym.Some?
  {
    Min(TriOf(env, m.nodes[i].sym.value), Min(PathValue(m, i, env), OwnValue(m, m.nodes[i].props[k].cond, env)))
  }

  lemma TermMeaning(m: Parsed, i: nat, k: nat, env: Env, cs: Comparisons)
    requires WellFormed(m) && 0 < i < |m.nodes| && k < |m.nodes[i].props| && m.nodes[i].sym.Some?
    requires AllWithin(m, cs) && NoClash(env, cs)
    ensures Eval(Term(Applied(m.nodes[i].sym.value, FinalProps(m, i)[k])), env) == SelectValue(m, i, k, env)
  {
    FinalPropMeaning(m, i, k, env, cs);
  }

  ghost predicate Selects(m: Parsed, i: nat, k: nat, kind: PropKind) {
    0 < i < |m.nodes| && k < |m.nodes[i].props| && m.nodes[i].props[k].kind == kind
  }

  /** The log holds exactly the selects and implies of all nodes below the root. */
  ghost predicate Complete(m: Parsed, log: seq<Applied>)
    requires WellFormed(m)
  {
    && (forall a | a in log :: exists i: nat, k: nat | Selects(m, i, k, a.prop.kind) ::
          m.nodes[i].sym == Some(a.selector) && a.prop == FinalProps(m, i)[k])
    && (forall i: nat, k: nat | i < |m.nodes| && k < |m.nodes[i].props| && Selects(m, i, k, m.nodes[i].props[k].kind)
                              && !m.nodes[i].props[k].kind.OtherKind? ::
          m.nodes[i].sym.Some? && Applied(m.nodes[i].sym.value, FinalProps(m, i)[k]) in log)
  }

  /**
    A reverse dependency is the maximum, over all selects of the symbol, of the
    minimum of the selecting symbol and the select's full condition.
  */
  lemma ReverseDependency(m: Parsed, log: seq<Applied>, kind: PropKind, env: Env, cs: Comparisons)
    requires WellFormed(m) && Complete(m, log) && AllWithin(m, cs) && NoClash(env, cs)
    requires !kind.OtherKind?
    ensures var v := ReverseValue(Collected(log, kind), env);
            && (forall i: nat, k: nat | Selects(m, i, k, kind) :: SelectValue(m, i, k, env) <= v)
            && (v != NO ==> exists i: nat, k: nat | Selects(m, i, k, kind) :: SelectValue(m, i, k, env) == v)
  {
    var v := ReverseValue(Collected(log, kind), env);
    CollectedMaximum(log, kind, env);
    forall i: nat, k: nat | Selects(m, i, k, kind)
      ensures SelectValue(m, i, k, env) <= v
    {
      TermMeaning(m, i, k, env, cs);
      FinalPropMeaning(m, i, k, env, cs);
    }
    if v != NO {
      var a :| a in log && a.prop.kind == kind && Eval(Term(a), env) == v;
      var i: nat, k: nat :| Selects(m, i, k, a.prop.kind)
        && m.nodes[i].sym == Some(a.selector) && a.prop == FinalProps(m, i)[k];
      TermMeaning(m, i, k, env, cs);
    }
  }

  // ----- which siblings become a submenu -----

  /** `e != n`. */
  function NotNo(e: Option<Expr>): Expr {
    TransCompareOpt(e, false, SymNo)
  }

  /** `e != n`, normalised and deduplicated. */
  function PresentWhen(e: Option<Expr>): Expr {
    EliminateDups(Transform(NotNo(e)))
  }

  /** The "superset" test: cancelling common operands leaves nothing of the prompt's condition. */
  predicate CoversPrompt(prompt: Option<Expr>, dep: Option<Expr>) {
    IsYes(Some(EliminateEq(PresentWhen(dep), PresentWhen(prompt)).e2))
  }

  /** Whether an item with dependency `dep` moves below `sym`, whose prompt has condition `prompt`. */
  predicate ShouldAdopt(sym: Symbol, prompt: Option<Expr>, dep: Option<Expr>) {
    && dep.Some? && Contains(dep.value, sym)
    && (DependsOn(dep.value, sym) || CoversPrompt(prompt, dep))
  }

  /**
    The superset test exactly: the prompt's condition is always met, or the
    item's condition is a conjunction that has all its conjuncts, as often as
    they occur. Both are taken in the form the code compares.
  */
  lemma CoversPromptExact(prompt: Option<Expr>, dep: Option<Expr>)
    requires Plain(PresentWhen(dep)) && (Plain(PresentWhen(prompt)) || PresentWhen(prompt) == Sym(SymYes))
    ensures var d, p := PresentWhen(dep), PresentWhen(prompt);
            CoversPrompt(prompt, dep) <==>
              p == Sym(SymYes) || (AtLevel(AndOp, d) && Operands(AndOp, p) <= Operands(AndOp, d))
  {
    hide PresentWhen, EliminateEq, Operands, Plain, AtLevel;
    var d, p := PresentWhen(dep), PresentWhen(prompt);
    if p == Sym(SymYes) {
      EliminateEqConstant(d, p);
    } else {
      SecondVanishes(d, p);
    }
  }

  /** Final dependencies and conditions are simplified: no constants inside, and nothing left to merge. */
  lemma FinalReduced(m: Parsed, i: nat, k: nat)
    requires WellFormed(m) && 0 < i < |m.nodes|
    ensures FinalDep(m, i).Some? ==> Settled(FinalDep(m, i).value) && Reduced(FinalDep(m, i).value)
    ensures k < |m.nodes[i].props| ==>
      var cond := FinalProps(m, i)[k].cond; cond.Some? ==> Settled(cond.value) && Reduced(cond.value)
  {
    hide Reduced, EliminateDups;
    ParentDepth(m.depths, i);
    RestrictReduced(FinalDep(m, ParentOf(m.depths, i)), m.nodes[i].dep, m.modules);
    if k < |m.nodes[i].props| {
      RestrictReduced(FinalDep(m, i), m.nodes[i].props[k].cond, m.modules);
    }
  }

  lemma RestrictReduced(outer: Option<Expr>, own: Option<Expr>, modules: Symbol)
    ensures var r := Restrict(outer, own, modules); r.Some? ==> Settled(r.value) && Reduced(r.value)
  {
    hide Reduced, EliminateDups;
    var e := AllocAnd(outer, TransformOpt(RewriteMOpt(own, modules)));
    if e.Some? {
      EliminateDupsReduced(e.value);
    }
  }

  lemma CompareWithNoMeaning(e: Option<Expr>, env: Env)
    requires e.Some? ==> Comparable(e.value, env)
    ensures Eval(NotNo(e), env) == FromBool(EvalOpt(e, env) != NO)
  {
    match e
    case Some(x) =>
      TransCompareExact(x, false, SymNo, env);
      assert ComparedValue(x, false, SymNo, env) == FromBool(Eval(x, env) != NO);
    case None =>
      assert Eval(Sym(SymNo), env) == NO;
      assert Eval(Not(Sym(SymNo)), env) == YES;
  }

  /** A condition that the superset test reads right: it compares with n exactly, and its constants do not clash. */
  ghost predicate ReadRight(e: Option<Expr>, env: Env) {
    && (e.Some? ==> Comparable(e.value, env))
    && NoClash(env, Compared(NotNo(e)))
  }

  lemma PresentWhenMeaning(e: Option<Expr>, env: Env)
    requires ReadRight(e, env)
    ensures Eval(PresentWhen(e), env) == FromBool(EvalOpt(e, env) != NO)
  {
    var c := NotNo(e);
    var cs := Compared(c);
    CompareWithNoMeaning(e, env);
    WithinCompared(c, cs);
    TransformSound(c, env);
    TransformWithin(c, cs);
    EliminateDupsSound(Transform(c), env, cs);
  }

  /**
    An item that is adopted because it depends on the symbol is hidden whenever
    the symbol is n. One that is adopted by the superset test is hidden whenever
    the prompt is, where the test reads both conditions right.
  */
  lemma AdoptionMeaning(sym: Symbol, prompt: Option<Expr>, dep: Option<Expr>, env: Env)
    requires ShouldAdopt(sym, prompt, dep)
    ensures DependsOn(dep.value, sym) && IsLogical(sym) && TriOf(env, sym) == NO ==> EvalOpt(dep, env) == NO
    ensures !DependsOn(dep.value, sym) && ReadRight(dep, env) && ReadRight(prompt, env) && EvalOpt(prompt, env) == NO
            ==> EvalOpt(dep, env) == NO
  {
    hide ReadRight, PresentWhen;
    if DependsOn(dep.value, sym) {
      if IsLogical(sym) && TriOf(env, sym) == NO {
        DependsOnSound(dep.value, sym, env);
      }
    } else if ReadRight(dep, env) && ReadRight(prompt, env) {
      SupersetTest(PresentWhen(dep), PresentWhen(prompt), env);
      PresentWhenMeaning(dep, env);
      PresentWhenMeaning(prompt, env);
    }
  }

  lemma PlainPair(e1: Expr, e2: Expr)
    requires e1.Comp? && e2.Comp? && e1.left != e2.left && e1 != e2
    ensures EliminateDups(Bin(AndOp, e1, e2)) == Bin(AndOp, e1, e2)
    ensures EliminateEq(Bin(AndOp, e1, e2), e1).e2 == Sym(SymYes)
  {
    assert JoinOperands(AndOp, e1, e2) == Pair(e1, e2, 0);
    var y := Sym(SymYes);
    assert CancelCommon(AndOp, e1, e1) == Pair(y, y, 1);
    assert CancelCommon(AndOp, e2, y) == Pair(e2, y, 0);
    assert CancelCommon(AndOp, Bin(AndOp, e1, e2), e1) == Pair(Bin(AndOp, y, e2), y, 1);
    assert CancelPasses(Bin(AndOp, e1, e2), e1) == Pair(Bin(AndOp, y, e2), y, 1);
  }

  lemma ComparisonWithNo(e: Expr)
    requires e.Comp?
    ensures TransCompare(e, true, SymNo) == Not(e) && TransCompare(e, false, SymNo) == e
  {
  }

  lemma MisreadForms(a: Symbol, b: Symbol)
    requires a.Config? && b.Config? && TypeOf(a) == TypeOf(b) == TristateType
    ensures var e1, e2 := Comp(Equal, b, SymNo), Comp(Unequal, a, SymYes);
            Transform(NotNo(Some(Bin(AndOp, Not(Sym(b)), e2)))) == Bin(AndOp, e1, e2) && Transform(NotNo(Some(e1))) == e1
  {
    var e1, e2 := Comp(Equal, b, SymNo), Comp(Unequal, a, SymYes);
    var b', a' := Comp(Unequal, b, SymNo), Comp(Equal, a, SymYes);
    ComparisonWithNo(e1);
    ComparisonWithNo(e2);
    assert TransCompare(Not(Sym(b)), true, SymNo) == b';
    assert NotNo(Some(Bin(AndOp, Not(Sym(b)), e2))) == Not(Bin(OrOp, b', Not(e2)));
    assert Transform(b') == b' && Transform(Not(e2)) == a';
    assert Transform(Bin(OrOp, b', Not(e2))) == Bin(OrOp, b', a');
    assert Transform(Not(b')) == e1 && Transform(Not(a')) == e2;
    assert Transform(PushNegation(OrOp, b', a')) == Bin(AndOp, e1, e2);
  }

  /**
    The test misreads a negation of m: with B at m and A at n, `!B && A!=y` is
    adopted by A under the prompt condition `B=n`, and is visible while the
    prompt is hidden.
  */
  lemma AdoptionMisreadExample(a: Symbol, b: Symbol, env: Env)
    requires a.Config? && b.Config? && a != b && TypeOf(a) == TypeOf(b) == TristateType
    requires TriOf(env, a) == NO && TriOf(env, b) == MOD
    ensures var prompt, dep := Some(Comp(Equal, b, SymNo)), Some(Bin(AndOp, Not(Sym(b)), Comp(Unequal, a, SymYes)));
            ShouldAdopt(a, prompt, dep) && EvalOpt(prompt, env) == NO && EvalOpt(dep, env) == MOD
  {
    var e1, e2 := Comp(Equal, b, SymNo), Comp(Unequal, a, SymYes);
    var dep := Bin(AndOp, Not(Sym(b)), e2);
    MisreadForms(a, b);
    PlainPair(e1, e2);
    CompareWithBuiltin(env, a, SymYes);
    CompareWithBuiltin(env, b, SymNo);
    assert Eval(Not(Sym(b)), env) == MOD && Eval(e2, env) == YES;
  }
}
