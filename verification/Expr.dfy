/**
  Kconfig expressions and their value (kconf/expr.h, kconf/expr.c). An absent
  expression, NULL in C and None here, has the value yes.
*/
module Expr {
  import opened Wrappers
  import opened Symbols

  datatype BinOp = AndOp | OrOp

  datatype CompOp = Equal | Unequal | Less | LessEq | Greater | GreaterEq

  datatype Expr =
    | Sym(sym: Symbol)
    | Comp(cmp: CompOp, left: Symbol, right: Symbol)
    | Not(arg: Expr)
    | Bin(op: BinOp, l: Expr, r: Expr)

  function Apply(op: BinOp, a: Tristate, b: Tristate): Tristate {
    if op == AndOp then Min(a, b) else Max(a, b)
  }

  function FromBool(b: bool): Tristate { if b then YES else NO }

  /** How a comparison reads the sign of the three-way comparison. */
  predicate Holds(cmp: CompOp, sign: int) {
    match cmp
    case Equal => sign == 0
    case Unequal => sign != 0
    case Less => sign < 0
    case LessEq => sign <= 0
    case Greater => sign > 0
    case GreaterEq => sign >= 0
  }

  /** __expr_calc_value. */
  function Eval(e: Expr, env: Env): Tristate {
    match e
    case Sym(s) => TriOf(env, s)
    case Comp(cmp, a, b) => FromBool(Holds(cmp, Compare(env, a, b)))
    case Not(x) => YES - Eval(x, env)
    case Bin(op, l, r) => Apply(op, Eval(l, env), Eval(r, env))
  }

  /** expr_calc_value: NULL is yes. */
  function EvalOpt(e: Option<Expr>, env: Env): Tristate {
    match e
    case None => YES
    case Some(x) => Eval(x, env)
  }

  /** expr_is_yes. */
  predicate IsYes(e: Option<Expr>) {
    e == None || e == Some(Sym(SymYes))
  }

  /** expr_alloc_and. */
  function AllocAnd(a: Option<Expr>, b: Option<Expr>): Option<Expr> {
    if a.None? then b else if b.None? then a else Some(Bin(AndOp, a.value, b.value))
  }

  /** expr_alloc_or: here an absent operand is skipped, it does not mean yes. */
  function AllocOr(a: Option<Expr>, b: Option<Expr>): Option<Expr> {
    if a.None? then b else if b.None? then a else Some(Bin(OrOp, a.value, b.value))
  }

  /** The neutral element of an operator, as a symbol. */
  function Unit(op: BinOp): Symbol {
    if op == AndOp then SymYes else SymNo
  }

  /** The number of nodes. */
  function Size(e: Expr): (n: nat)
    ensures n >= 1
  {
    match e
    case Sym(_) => 1
    case Comp(_, _, _) => 1
    case Not(x) => 1 + Size(x)
    case Bin(_, l, r) => 1 + Size(l) + Size(r)
  }

  /** The comparisons with y, m or n: where one is made, the join rules may make the others. */
  function WithBuiltins(a: Symbol): Comparisons {
    {(a, SymYes), (a, SymMod), (a, SymNo)}
  }

  /** What the tests `A=b` and `A!=b` of tristate symbols in `e` compare. */
  function Compared(e: Expr): Comparisons {
    match e
    case Sym(_) => {}
    case Comp(cmp, a, b) =>
      if (cmp != Equal && cmp != Unequal) || TypeOf(a) != TristateType then {}
      else if b.Config? then {(a, b)} else WithBuiltins(a)
    case Not(x) => Compared(x)
    case Bin(_, l, r) => Compared(l) + Compared(r)
  }

  /** `cs` holds all that `e` compares. */
  ghost predicate Within(e: Expr, cs: Comparisons) {
    match e
    case Sym(_) => true
    case Comp(_, _, _) => Compared(e) <= cs
    case Not(x) => Within(x, cs)
    case Bin(_, l, r) => Within(l, cs) && Within(r, cs)
  }

  lemma {:induction false} WithinCompared(e: Expr, cs: Comparisons)
    ensures Within(e, cs) <==> Compared(e) <= cs
  {
    match e
    case Sym(_) =>
    case Comp(_, _, _) =>
    case Not(x) => WithinCompared(x, cs);
    case Bin(_, l, r) =>
      WithinCompared(l, cs);
      WithinCompared(r, cs);
  }

  ghost predicate WithinOpt(e: Option<Expr>, cs: Comparisons) {
    e.Some? ==> Within(e.value, cs)
  }

  /** A constant y or n. */
  predicate IsConstLeaf(e: Expr) {
    e.Sym? && IsYesNo(e.sym)
  }

  /** No operand of the and/or tree `e` is the constant y or n. */
  predicate Clean(e: Expr) {
    match e
    case Sym(s) => !IsYesNo(s)
    case Comp(_, _, _) => true
    case Not(_) => true
    case Bin(_, l, r) => Clean(l) && Clean(r)
  }

  /** What expr_eliminate_dups produces: a constant, or no constant operand at all. */
  predicate Settled(e: Expr) {
    Clean(e) || IsConstLeaf(e)
  }

  /** expr_eliminate_yn. */
  function EliminateYn(e: Expr): (r: Expr)
    ensures forall env :: Eval(r, env) == Eval(e, env)
    ensures Size(r) <= Size(e)
    ensures Settled(e) ==> r == e
  {
    match e
    case Sym(_) => e
    case Comp(_, _, _) => e
    case Not(_) => e
    case Bin(op, left, right) =>
      var l, r := EliminateYn(left), EliminateYn(right);
      var neutral := Sym(Unit(op));
      var absorbing := Sym(Unit(if op == AndOp then OrOp else AndOp));
      assert !Clean(neutral) && !Clean(absorbing);
      if l == absorbing then l
      else if l == neutral then r
      else if r == absorbing then r
      else if r == neutral then l
      else e
  }

  // ----- what comparisons mean -----

  predicate NumbersRelate(cmp: CompOp, x: int, y: int) {
    match cmp
    case Equal => x == y
    case Unequal => x != y
    case Less => x < y
    case LessEq => x <= y
    case Greater => x > y
    case GreaterEq => x >= y
  }

  ghost predicate TextsRelate(cmp: CompOp, a: string, b: string) {
    match cmp
    case Equal => a == b
    case Unequal => a != b
    case Less => TextBefore(a, b)
    case LessEq => a == b || TextBefore(a, b)
    case Greater => TextBefore(b, a)
    case GreaterEq => a == b || TextBefore(b, a)
  }

  /**
    A comparison is y exactly when it holds of the numbers its sides read as, or
    of the texts when both are strings or one side is no number. With a
    hexadecimal side both are read as unsigned 64-bit numbers.
  */
  lemma ComparisonMeaning(cmp: CompOp, a: Symbol, b: Symbol, env: Env)
    ensures var v, s, t := Eval(Comp(cmp, a, b), env), TextOf(env, a), TextOf(env, b);
            var x, y := ParseNumber(env, s, TypeOf(a)), ParseNumber(env, t, TypeOf(b));
            v == FromBool(
              if (TypeOf(a) == StringType && TypeOf(b) == StringType) || x.Textual? || y.Textual? then TextsRelate(cmp, s, t)
              else if x.Signed? && y.Signed? then NumbersRelate(cmp, x.s, y.s)
              else NumbersRelate(cmp, AsUnsigned(x), AsUnsigned(y)))
  {
    hide StrCmp, TextBefore, TextOf, ParseNumber;
    StrCmpOrder(TextOf(env, a), TextOf(env, b));
  }

  /** Against y, m or n it holds of the tristate values. */
  lemma BuiltinComparisonMeaning(cmp: CompOp, a: Symbol, b: Symbol, env: Env)
    requires IsLogical(a) && !b.Config?
    ensures Eval(Comp(cmp, a, b), env) == FromBool(NumbersRelate(cmp, TriOf(env, a), TriOf(env, b)))
  {
    hide TriOf, Compare;
    CompareWithBuiltin(env, a, b);
  }
}
