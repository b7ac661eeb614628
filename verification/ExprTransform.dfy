/**
  expr_transform, expr_trans_compare and the dependency tests (kconf/expr.c),
  and rewrite_m (kconf/menu.c).
*/
module ExprTransform {
  import opened Wrappers
  import opened Symbols
  import opened Expr

  // ----- expr_transform -----

  /** A comparison of a bool symbol with y, m or n by = or !=. */
  predicate Reducible(e: Expr) {
    && e.Comp? && (e.cmp == Equal || e.cmp == Unequal)
    && TypeOf(e.left) == BooleanType && !e.right.Config?
  }

  /** The comparison rules for bool symbols. */
  function ReduceComparison(e: Expr): Expr
    requires Reducible(e)
  {
    if e.right == SymMod then Sym(if e.cmp == Equal then SymNo else SymYes)
    else if (e.right == SymYes) == (e.cmp == Equal) then Sym(e.left)
    else Not(Sym(e.left))
  }

  function Negated(cmp: CompOp): CompOp {
    match cmp
    case Equal => Unequal
    case Unequal => Equal
    case LessEq => Greater
    case GreaterEq => Less
    case Less => GreaterEq
    case Greater => LessEq
  }

  function Dual(op: BinOp): BinOp { if op == AndOp then OrOp else AndOp }

  /** The weight that pushing a negation inwards strictly lowers. */
  function NegationWeight(e: Expr): (w: nat)
    ensures w >= 1
  {
    match e
    case Sym(_) => 1
    case Comp(_, _, _) => 2
    case Not(x) => 2 * NegationWeight(x)
    case Bin(_, l, r) => NegationWeight(l) + NegationWeight(r) + 1
  }

  /** De Morgan's rule, which leaves less weight than the negated operation had. */
  function PushNegation(op: BinOp, l: Expr, r: Expr): (e: Expr)
    ensures NegationWeight(e) < 2 * NegationWeight(Bin(op, l, r))
    ensures forall env :: Eval(e, env) == YES - Eval(Bin(op, l, r), env)
  {
    var e := Bin(Dual(op), Not(l), Not(r));
    assert NegationWeight(e) == NegationWeight(Not(l)) + NegationWeight(Not(r)) + 1;
    e
  }

  /** expr_transform on a present expression. */
  function Transform(e: Expr): (r: Expr)
    ensures NegationWeight(r) <= NegationWeight(e)
    decreases NegationWeight(e)
  {
    match e
    case Sym(_) => e
    case Comp(_, _, _) => if Reducible(e) then ReduceComparison(e) else e
    case Bin(op, l, r) => Bin(op, Transform(l), Transform(r))
    case Not(x) =>
      match Transform(x)
      case Not(y) => y
      case Comp(cmp, a, b) => Comp(Negated(cmp), a, b)
      case Bin(op, l, r) => Transform(PushNegation(op, l, r))
      case Sym(s) =>
        (match s
         case SymYes => Sym(SymNo)
         case SymMod => Sym(SymMod)
         case SymNo => Sym(SymYes)
         case Config(_, _, _, _) => Not(Sym(s)))
  }

  /** expr_transform. */
  function TransformOpt(e: Option<Expr>): Option<Expr> {
    match e
    case None => None
    case Some(x) => Some(Transform(x))
  }

  /** Negation only over ordinary symbols, and no comparison left that a bool symbol decides. */
  predicate Normal(e: Expr) {
    match e
    case Sym(_) => true
    case Comp(cmp, a, b) =>
      !((cmp.Equal? || cmp.Unequal?) && TypeOf(a) == BooleanType && (b == SymYes || b == SymMod || b == SymNo))
    case Not(x) => x.Sym? && x.sym.Config?
    case Bin(_, l, r) => Normal(l) && Normal(r)
  }

  lemma {:induction false} TransformNormal(e: Expr)
    ensures Normal(Transform(e))
    decreases NegationWeight(e)
  {
    match e
    case Sym(_) =>
    case Comp(_, _, _) =>
    case Bin(op, l, r) => TransformNormal(l); TransformNormal(r);
    case Not(x) =>
      TransformNormal(x);
      var t := Transform(x);
      if t.Bin? {
        TransformNormal(PushNegation(t.op, t.l, t.r));
      }
  }

  lemma {:induction false} TransformFixesNormal(e: Expr)
    requires Normal(e)
    ensures Transform(e) == e
  {
    match e
    case Sym(_) =>
    case Comp(_, _, _) =>
    case Not(_) =>
    case Bin(_, l, r) => TransformFixesNormal(l); TransformFixesNormal(r);
  }

  /** Transforming twice is transforming once, and the fixed points are the normal forms. */
  lemma TransformIdempotent(e: Expr)
    ensures Transform(Transform(e)) == Transform(e)
    ensures Transform(e) == e <==> Normal(e)
  {
    TransformNormal(e);
    TransformFixesNormal(Transform(e));
    if Normal(e) {
      TransformFixesNormal(e);
    }
  }

  lemma ReduceComparisonSound(e: Expr, env: Env)
    requires Reducible(e)
    ensures Eval(ReduceComparison(e), env) == Eval(e, env)
  {
    CompareWithBuiltin(env, e.left, e.right);
  }

  /** expr_transform keeps the value in every state. */
  lemma {:induction false} TransformSound(e: Expr, env: Env)
    ensures Eval(Transform(e), env) == Eval(e, env)
    decreases NegationWeight(e)
  {
    match e
    case Sym(_) =>
    case Comp(_, _, _) =>
      if Reducible(e) {
        ReduceComparisonSound(e, env);
      }
    case Bin(op, l, r) => TransformSound(l, env); TransformSound(r, env);
    case Not(x) =>
      TransformSound(x, env);
      var t := Transform(x);
      if t.Bin? {
        TransformSound(PushNegation(t.op, t.l, t.r), env);
      }
  }

  lemma {:induction false} TransformWithin(e: Expr, cs: Comparisons)
    requires Within(e, cs)
    ensures Within(Transform(e), cs)
    decreases NegationWeight(e)
  {
    match e
    case Sym(_) =>
    case Comp(_, _, _) =>
    case Bin(op, l, r) => TransformWithin(l, cs); TransformWithin(r, cs);
    case Not(x) =>
      TransformWithin(x, cs);
      var t := Transform(x);
      if t.Bin? {
        TransformWithin(PushNegation(t.op, t.l, t.r), cs);
      }
  }

  lemma TransformOptSound(e: Option<Expr>, env: Env, cs: Comparisons)
    requires WithinOpt(e, cs)
    ensures EvalOpt(TransformOpt(e), env) == EvalOpt(e, env)
    ensures WithinOpt(TransformOpt(e), cs)
  {
    if e.Some? {
      TransformSound(e.value, env);
      TransformWithin(e.value, cs);
    }
  }

  // ----- rewrite_m -----

  /** rewrite_m: the symbol m becomes m && MODULES. */
  function RewriteM(e: Expr, modules: Symbol): Expr {
    match e
    case Not(x) => Not(RewriteM(x, modules))
    case Bin(op, l, r) => Bin(op, RewriteM(l, modules), RewriteM(r, modules))
    case Sym(s) => if s == SymMod then Bin(AndOp, e, Sym(modules)) else e
    case Comp(_, _, _) => e
  }

  function RewriteMOpt(e: Option<Expr>, modules: Symbol): Option<Expr> {
    match e
    case None => None
    case Some(x) => Some(RewriteM(x, modules))
  }

  lemma RewriteMWithin(e: Option<Expr>, modules: Symbol, cs: Comparisons)
    requires WithinOpt(e, cs)
    ensures WithinOpt(RewriteMOpt(e, modules), cs)
  {
    if e.Some? {
      RewriteMWithinExpr(e.value, modules, cs);
    }
  }

  lemma RewriteMWithinExpr(e: Expr, modules: Symbol, cs: Comparisons)
    requires Within(e, cs)
    ensures Within(RewriteM(e, modules), cs)
  {
  }

  /** The value of an expression in which the symbol m stands for `m`. */
  function EvalWithM(e: Expr, env: Env, m: Tristate): Tristate {
    match e
    case Sym(s) => if s == SymMod then m else TriOf(env, s)
    case Comp(_, _, _) => Eval(e, env)
    case Not(x) => YES - EvalWithM(x, env, m)
    case Bin(op, l, r) => Apply(op, EvalWithM(l, env, m), EvalWithM(r, env, m))
  }

  /** After rewrite_m every bare m counts as n without modules, and as m otherwise. */
  lemma {:induction false} RewriteMMeaning(e: Expr, modules: Symbol, env: Env)
    ensures Eval(RewriteM(e, modules), env) == EvalWithM(e, env, Min(MOD, TriOf(env, modules)))
  {
    match e
    case Not(x) => RewriteMMeaning(x, modules, env);
    case Bin(op, l, r) => RewriteMMeaning(l, modules, env); RewriteMMeaning(r, modules, env);
    case Sym(_) =>
    case Comp(_, _, _) =>
  }

  // ----- expr_trans_compare -----

  /**
    expr_trans_compare with `sym` one of y, m, n; `equal` tells E_EQUAL from
    E_UNEQUAL. For m the and/or cases leave the operands as they are.
  */
  function TransCompare(e: Expr, equal: bool, sym: Symbol): Expr
    requires !sym.Config?
  {
    match e
    case Bin(op, l, r) =>
      var l', r' := TransCompare(l, true, sym), TransCompare(r, true, sym);
      var joined := match sym
        case SymYes => Bin(op, l', r')
        case SymNo => Bin(Dual(op), l', r')
        case SymMod => e;
      if equal then joined else Not(joined)
    case Not(x) => TransCompare(x, !equal, sym)
    case Comp(_, _, _) =>
      (match sym
       case SymYes => if equal then e else Not(e)
       case SymMod => Sym(if equal then SymNo else SymYes)
       case SymNo => if equal then Not(e) else e)
    case Sym(s) => Comp(if equal then Equal else Unequal, s, sym)
  }

  /** expr_trans_compare: NULL becomes the symbol itself, or its negation. */
  function TransCompareOpt(e: Option<Expr>, equal: bool, sym: Symbol): Expr
    requires !sym.Config?
  {
    match e
    case None => if equal then Sym(sym) else Not(Sym(sym))
    case Some(x) => TransCompare(x, equal, sym)
  }

  /** Every bare symbol is bool or tristate, and no negated operand evaluates to m. */
  predicate Comparable(e: Expr, env: Env) {
    match e
    case Sym(s) => IsLogical(s)
    case Comp(_, _, _) => true
    case Not(x) => Comparable(x, env) && Eval(x, env) != MOD
    case Bin(_, l, r) => Comparable(l, env) && Comparable(r, env)
  }

  /** The value the rewritten expression is meant to have. */
  function ComparedValue(e: Expr, equal: bool, sym: Symbol, env: Env): Tristate {
    FromBool((Eval(e, env) == TriOf(env, sym)) == equal)
  }

  lemma {:induction false} TransCompareExact(e: Expr, equal: bool, sym: Symbol, env: Env)
    requires sym == SymYes || sym == SymNo
    requires Comparable(e, env)
    ensures Eval(TransCompare(e, equal, sym), env) == ComparedValue(e, equal, sym, env)
  {
    match e
    case Sym(s) => CompareWithBuiltin(env, s, sym);
    case Comp(_, _, _) =>
    case Not(x) => TransCompareExact(x, !equal, sym, env);
    case Bin(op, l, r) =>
      TransCompareExact(l, true, sym, env);
      TransCompareExact(r, true, sym, env);
  }

  /** Below a negation the rewriting is right if and only if the operand is not m. */
  lemma TransCompareNotExact(x: Expr, equal: bool, sym: Symbol, env: Env)
    requires sym == SymYes || sym == SymNo
    requires Comparable(x, env)
    ensures Eval(TransCompare(Not(x), equal, sym), env) == ComparedValue(Not(x), equal, sym, env)
            <==> Eval(x, env) != MOD
  {
    TransCompareExact(x, !equal, sym, env);
  }

  /** An environment in which every tristate symbol is m. */
  function AllMod(): Env {
    Env(s => MOD, s => "", (t, base) => None, t => None)
  }

  /** `!A` is m when A is m, so it is not y; rewritten to compare A with y it comes out as y. */
  lemma NotOfModExample(a: Symbol)
    requires a.Config? && a.configType == TristateType
    ensures Eval(TransCompare(Not(Sym(a)), true, SymYes), AllMod()) == YES
    ensures ComparedValue(Not(Sym(a)), true, SymYes, AllMod()) == NO
  {
    TransCompareNotExact(Sym(a), true, SymYes, AllMod());
  }

  /** menu_add_dep's reading of "depends on X if Y": X unless Y is n, and then nothing. */
  lemma ConditionalDependency(x: Expr, y: Expr, env: Env)
    requires Comparable(y, env)
    ensures Eval(Bin(OrOp, x, TransCompare(y, true, SymNo)), env)
            == if Eval(y, env) == NO then YES else Eval(x, env)
  {
    TransCompareExact(y, true, SymNo, env);
  }

  // ----- dependency tests -----

  /** expr_contains_symbol on a present expression. */
  predicate Contains(e: Expr, s: Symbol) {
    match e
    case Sym(t) => t == s
    case Comp(_, a, b) => a == s || b == s
    case Not(x) => Contains(x, s)
    case Bin(_, l, r) => Contains(l, s) || Contains(r, s)
  }

  /** expr_depends_symbol on a present expression. */
  predicate DependsOn(e: Expr, s: Symbol) {
    match e
    case Sym(t) => t == s
    case Comp(cmp, a, b) =>
      a == s && ((cmp == Equal && (b == SymYes || b == SymMod)) || (cmp == Unequal && b == SymNo))
    case Not(_) => false
    case Bin(op, l, r) => op == AndOp && (DependsOn(l, s) || DependsOn(r, s))
  }

  /** An expression that depends on a logical symbol is n whenever that symbol is n. */
  lemma {:induction false} DependsOnSound(e: Expr, s: Symbol, env: Env)
    requires DependsOn(e, s) && IsLogical(s) && TriOf(env, s) == NO
    ensures Eval(e, env) == NO
  {
    match e
    case Sym(_) =>
    case Comp(_, a, b) => CompareWithBuiltin(env, a, b);
    case Bin(_, l, r) =>
      if DependsOn(l, s) {
        DependsOnSound(l, s, env);
      } else {
        DependsOnSound(r, s, env);
      }
  }

  /** The operands of the outermost AND level. */
  function Conjuncts(e: Expr): set<Expr> {
    if e.Bin? && e.op == AndOp then Conjuncts(e.l) + Conjuncts(e.r) else {e}
  }

  /** The ways to require a symbol to be m or y: `A`, `A=y`, `A=m` and `A!=n`. */
  function Requirements(s: Symbol): set<Expr> {
    {Sym(s), Comp(Equal, s, SymYes), Comp(Equal, s, SymMod), Comp(Unequal, s, SymNo)}
  }

  /** An expression depends on a symbol if and only if one of its conjuncts requires it. */
  lemma {:induction false} DependsOnExact(e: Expr, s: Symbol)
    ensures DependsOn(e, s) <==> Conjuncts(e) * Requirements(s) != {}
    ensures DependsOn(e, s) ==> Contains(e, s)
  {
    if e.Bin? && e.op == AndOp {
      DependsOnExact(e.l, s);
      DependsOnExact(e.r, s);
      assert Conjuncts(e) * Requirements(s) == Conjuncts(e.l) * Requirements(s) + Conjuncts(e.r) * Requirements(s);
    } else {
      assert Conjuncts(e) * Requirements(s) == if e in Requirements(s) then {e} else {};
    }
  }

  /** All symbols that occur in an expression. */
  function SymbolsIn(e: Expr): set<Symbol> {
    match e
    case Sym(s) => {s}
    case Comp(_, a, b) => {a, b}
    case Not(x) => SymbolsIn(x)
    case Bin(_, l, r) => SymbolsIn(l) + SymbolsIn(r)
  }

  lemma {:induction false} ContainsExact(e: Expr, s: Symbol)
    ensures Contains(e, s) <==> s in SymbolsIn(e)
  {
    match e
    case Sym(_) =>
    case Comp(_, _, _) =>
    case Not(x) => ContainsExact(x, s);
    case Bin(_, l, r) =>
      ContainsExact(l, s);
      ContainsExact(r, s);
  }
}
