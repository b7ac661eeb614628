/**
  expr_eq and expr_eliminate_eq (kconf/expr.c): comparing two expressions by
  cancelling the operands they have in common.
*/
module ExprEquality {
  import opened Wrappers
  import opened Symbols
  import opened Expr

  /** What a pass leaves of its two arguments, and how often it adds to trans_count. */
  datatype Pair = Pair(e1: Expr, e2: Expr, count: nat)

  predicate AtLevel(op: BinOp, e: Expr) { e.Bin? && e.op == op }

  /** __expr_eliminate_eq. */
  function CancelCommon(op: BinOp, e1: Expr, e2: Expr): (p: Pair)
    ensures Size(p.e1) <= Size(e1) && Size(p.e2) <= Size(e2)
    decreases Size(e1) + Size(e2), if AtLevel(op, e1) || AtLevel(op, e2) then 0 else 4
  {
    if AtLevel(op, e1) then
      var p := CancelCommon(op, e1.l, e2);
      var q := CancelCommon(op, e1.r, p.e2);
      Pair(Bin(op, p.e1, q.e1), q.e2, p.count + q.count)
    else if AtLevel(op, e2) then
      var p := CancelCommon(op, e1, e2.l);
      var q := CancelCommon(op, p.e1, e2.r);
      Pair(q.e1, Bin(op, p.e2, q.e2), p.count + q.count)
    else if e1 == e2 && IsConstLeaf(e1) then
      Pair(e1, e2, 0)
    else if !Equivalent(e1, e2) then
      Pair(e1, e2, 0)
    else
      Pair(Sym(Unit(op)), Sym(Unit(op)), 1)
  }

  /** The one or two passes of expr_eliminate_eq, before the constants are removed. */
  function CancelPasses(e1: Expr, e2: Expr): (p: Pair)
    decreases Size(e1) + Size(e2), 1
  {
    var p := if e1.Bin? then CancelCommon(e1.op, e1, e2) else Pair(e1, e2, 0);
    if p.e2.Bin? && !AtLevel(p.e2.op, p.e1) then
      var q := CancelCommon(p.e2.op, p.e1, p.e2);
      Pair(q.e1, q.e2, p.count + q.count)
    else
      p
  }

  /** expr_eliminate_eq on two present expressions. */
  function EliminateEq(e1: Expr, e2: Expr): (p: Pair)
    decreases Size(e1) + Size(e2), 2
  {
    var p := CancelPasses(e1, e2);
    Pair(EliminateYn(p.e1), EliminateYn(p.e2), p.count)
  }

  /** expr_eq on two present expressions. */
  predicate Equivalent(e1: Expr, e2: Expr)
    decreases Size(e1) + Size(e2), 3
  {
    match e1
    case Sym(_) => e1 == e2
    case Comp(_, _, _) => e1 == e2
    case Not(x) => e2.Not? && Equivalent(x, e2.arg)
    case Bin(op, _, _) =>
      && AtLevel(op, e2)
      && var p := EliminateEq(e1, e2);
         p.e1.Sym? && p.e1 == p.e2
  }

  /** expr_eq: NULL and the symbol y both mean yes. */
  predicate EquivalentOpt(e1: Option<Expr>, e2: Option<Expr>) {
    if e1.None? || e2.None? then IsYes(e1) && IsYes(e2) else Equivalent(e1.value, e2.value)
  }

  /** Both values contain the factor `f`; `rest1` and `rest2` are what remains. */
  predicate Splits(op: BinOp, f: Tristate, v1: Tristate, v2: Tristate, rest1: Tristate, rest2: Tristate) {
    v1 == Apply(op, f, rest1) && v2 == Apply(op, f, rest2)
  }

  lemma SplitsCompose(op: BinOp, g: Tristate, h: Tristate, l: Tristate, r: Tristate, x: Tristate,
                      l': Tristate, r': Tristate, x': Tristate, x'': Tristate)
    requires Splits(op, g, l, x, l', x') && Splits(op, h, r, x', r', x'')
    ensures Splits(op, Apply(op, g, h), Apply(op, l, r), x, Apply(op, l', r'), x'')
  {
  }

  /** One pass takes the same factor off both expressions. */
  lemma {:induction false} CancelCommonSplits(op: BinOp, e1: Expr, e2: Expr, env: Env) returns (f: Tristate)
    ensures var p := CancelCommon(op, e1, e2);
            Splits(op, f, Eval(e1, env), Eval(e2, env), Eval(p.e1, env), Eval(p.e2, env))
    decreases Size(e1) + Size(e2), if AtLevel(op, e1) || AtLevel(op, e2) then 0 else 4
  {
    if AtLevel(op, e1) {
      var p := CancelCommon(op, e1.l, e2);
      var q := CancelCommon(op, e1.r, p.e2);
      var g := CancelCommonSplits(op, e1.l, e2, env);
      var h := CancelCommonSplits(op, e1.r, p.e2, env);
      f := Apply(op, g, h);
      SplitsCompose(op, g, h, Eval(e1.l, env), Eval(e1.r, env), Eval(e2, env),
                    Eval(p.e1, env), Eval(q.e1, env), Eval(p.e2, env), Eval(q.e2, env));
    } else if AtLevel(op, e2) {
      var p := CancelCommon(op, e1, e2.l);
      var q := CancelCommon(op, p.e1, e2.r);
      var g := CancelCommonSplits(op, e1, e2.l, env);
      var h := CancelCommonSplits(op, p.e1, e2.r, env);
      f := Apply(op, g, h);
      SplitsCompose(op, g, h, Eval(e2.l, env), Eval(e2.r, env), Eval(e1, env),
                    Eval(p.e2, env), Eval(q.e2, env), Eval(p.e1, env), Eval(q.e1, env));
    } else if !(e1 == e2 && IsConstLeaf(e1)) && Equivalent(e1, e2) {
      EquivalentSound(e1, e2, env);
      f := Eval(e1, env);
    } else {
      f := TriOf(env, Unit(op));
    }
  }

  /** Passing over two operands of the same level leaves both at that level. */
  lemma CancelPassesSameLevel(op: BinOp, e1: Expr, e2: Expr)
    requires AtLevel(op, e1) && AtLevel(op, e2)
    ensures CancelPasses(e1, e2) == CancelCommon(op, e1, e2)
  {
    CancelKeepsLevel(op, e1, e2);
  }

  lemma CancelKeepsLevel(op: BinOp, e1: Expr, e2: Expr)
    ensures AtLevel(op, e1) ==> AtLevel(op, CancelCommon(op, e1, e2).e1)
    ensures AtLevel(op, e2) ==> AtLevel(op, CancelCommon(op, e1, e2).e2)
    decreases Size(e1)
  {
    if AtLevel(op, e1) {
      CancelKeepsLevel(op, e1.l, e2);
      CancelKeepsLevel(op, e1.r, CancelCommon(op, e1.l, e2).e2);
    }
  }

  /** expr_eq answers true only for expressions of equal value. */
  lemma {:induction false} EquivalentSound(e1: Expr, e2: Expr, env: Env)
    requires Equivalent(e1, e2)
    ensures Eval(e1, env) == Eval(e2, env)
    decreases Size(e1) + Size(e2), 3
  {
    match e1
    case Sym(_) =>
    case Comp(_, _, _) =>
    case Not(x) => EquivalentSound(x, e2.arg, env);
    case Bin(op, _, _) =>
      CancelPassesSameLevel(op, e1, e2);
      var f := CancelCommonSplits(op, e1, e2, env);
  }

  lemma EquivalentOptSound(e1: Option<Expr>, e2: Option<Expr>, env: Env)
    requires EquivalentOpt(e1, e2)
    ensures EvalOpt(e1, env) == EvalOpt(e2, env)
  {
    if e1.Some? && e2.Some? {
      EquivalentSound(e1.value, e2.value, env);
    }
  }

  /**
    The "superset" test: when expr_eliminate_eq leaves nothing but y of the
    second expression, the first never exceeds it.
  */
  lemma SupersetTest(e1: Expr, e2: Expr, env: Env)
    requires IsYes(Some(EliminateEq(e1, e2).e2))
    ensures Eval(e1, env) <= Eval(e2, env)
  {
    var p := CancelPasses(e1, e2);
    assert Eval(p.e2, env) == Eval(EliminateYn(p.e2), env) == YES;
    PassesReflectOrder(e1, e2, env);
  }

  lemma SplitsReflectOrder(op: BinOp, f: Tristate, v1: Tristate, v2: Tristate, rest1: Tristate, rest2: Tristate)
    requires Splits(op, f, v1, v2, rest1, rest2) && rest1 <= rest2
    ensures v1 <= v2
  {
  }

  lemma CancelReflectsOrder(op: BinOp, e1: Expr, e2: Expr, env: Env)
    requires var p := CancelCommon(op, e1, e2); Eval(p.e1, env) <= Eval(p.e2, env)
    ensures Eval(e1, env) <= Eval(e2, env)
  {
    var p := CancelCommon(op, e1, e2);
    var f := CancelCommonSplits(op, e1, e2, env);
    SplitsReflectOrder(op, f, Eval(e1, env), Eval(e2, env), Eval(p.e1, env), Eval(p.e2, env));
  }

  /** Whatever order holds between the two remainders also holds between the originals. */
  lemma PassesReflectOrder(e1: Expr, e2: Expr, env: Env)
    requires var p := CancelPasses(e1, e2); Eval(p.e1, env) <= Eval(p.e2, env)
    ensures Eval(e1, env) <= Eval(e2, env)
  {
    var p := if e1.Bin? then CancelCommon(e1.op, e1, e2) else Pair(e1, e2, 0);
    if p.e2.Bin? && !AtLevel(p.e2.op, p.e1) {
      CancelReflectsOrder(p.e2.op, p.e1, p.e2, env);
    }
    if e1.Bin? {
      CancelReflectsOrder(e1.op, e1, e2, env);
    }
  }
}
