/**
  expr_eliminate_dups (kconf/expr.c): joining redundant operands until nothing
  changes any more.
*/
module ExprDups {
  import opened Wrappers
  import opened Symbols
  import opened Expr
  import opened ExprEquality

  /** Operand kinds the join rules look at. */
  predicate Joinable(e: Expr) {
    e.Sym? || e.Not? || (e.Comp? && (e.cmp == Equal || e.cmp == Unequal))
  }

  /** The symbol a join rule reads from its first operand. */
  function FirstSymbol(e: Expr): Option<Symbol> {
    match e
    case Sym(s) => Some(s)
    case Comp(_, a, _) => Some(a)
    case Not(Sym(s)) => Some(s)
    case Not(Comp(cmp, a, _)) => if cmp == Equal || cmp == Unequal then Some(a) else None
    case _ => None
  }

  /** The symbol a join rule reads from its second operand. */
  function SecondSymbol(e: Expr): Option<Symbol> {
    match e
    case Sym(s) => Some(s)
    case Comp(_, a, _) => Some(a)
    case Not(Sym(s)) => Some(s)
    case _ => None
  }

  /** The logical symbol both operands talk about, if the rules apply at all. */
  function SharedSymbol(e1: Expr, e2: Expr): Option<Symbol> {
    if Joinable(e1) && Joinable(e2) && FirstSymbol(e1).Some? && FirstSymbol(e1) == SecondSymbol(e2)
       && IsLogical(FirstSymbol(e1).value)
    then FirstSymbol(e1)
    else None
  }

  /** `e` compares with `b` by `cmp`. */
  predicate Compares(e: Expr, cmp: CompOp, b: Symbol) {
    e.Comp? && e.cmp == cmp && e.right == b
  }

  /** The operands compare, by `cmp`, with `b` and `c` in either order. */
  predicate ComparePair(e1: Expr, e2: Expr, cmp: CompOp, b: Symbol, c: Symbol) {
    || (Compares(e1, cmp, b) && Compares(e2, cmp, c))
    || (Compares(e1, cmp, c) && Compares(e2, cmp, b))
  }

  /** One operand is the bare symbol, the other compares it with `b`. */
  predicate BareAndCompare(e1: Expr, e2: Expr, cmp: CompOp, b: Symbol) {
    (e1.Sym? && Compares(e2, cmp, b)) || (e2.Sym? && Compares(e1, cmp, b))
  }

  /** The rules of expr_join_or for two operands about the symbol `a`. */
  function JoinOrRules(a: Symbol, e1: Expr, e2: Expr): Option<Expr> {
    if TypeOf(a) == TristateType then
      if ComparePair(e1, e2, Equal, SymYes, SymMod) then Some(Comp(Unequal, a, SymNo))
      else if ComparePair(e1, e2, Equal, SymYes, SymNo) then Some(Comp(Unequal, a, SymMod))
      else if ComparePair(e1, e2, Equal, SymMod, SymNo) then Some(Comp(Unequal, a, SymYes))
      else None
    else if (e1.Not? && e1.arg.Sym? && e2.Sym?) || (e2.Not? && e2.arg.Sym? && e1.Sym?) then
      Some(Sym(SymYes))
    else
      None
  }

  /** expr_join_or. */
  function JoinOr(e1: Expr, e2: Expr): Option<Expr> {
    if Equivalent(e1, e2) then Some(e1)
    else
      match SharedSymbol(e1, e2)
      case None => None
      case Some(a) => JoinOrRules(a, e1, e2)
  }

  /** `a = b && a != c` for constants b and c. */
  function JoinEqualUnequal(a: Symbol, b: Symbol, c: Symbol): Expr {
    if b != c then Comp(Equal, a, b) else Sym(SymNo)
  }

  /** The rules of expr_join_and for two operands about the symbol `a`. */
  function JoinAndRules(a: Symbol, e1: Expr, e2: Expr): Option<Expr> {
    if BareAndCompare(e1, e2, Equal, SymYes) then
      Some(Comp(Equal, a, SymYes))
    else if BareAndCompare(e1, e2, Unequal, SymNo) then
      Some(Sym(a))
    else if BareAndCompare(e1, e2, Unequal, SymMod) then
      Some(Comp(Equal, a, SymYes))
    else if TypeOf(a) != TristateType then
      None
    else if EqualUnequal(e1, e2) then
      Some(JoinEqualUnequal(a, e1.right, e2.right))
    else if EqualUnequal(e2, e1) then
      Some(JoinEqualUnequal(a, e2.right, e1.right))
    else if ComparePair(e1, e2, Unequal, SymYes, SymNo) then
      Some(Comp(Equal, a, SymMod))
    else if ComparePair(e1, e2, Unequal, SymYes, SymMod) then
      Some(Comp(Equal, a, SymNo))
    else if ComparePair(e1, e2, Unequal, SymMod, SymNo) then
      Some(Comp(Equal, a, SymYes))
    else
      None
  }

  /** expr_join_and. */
  function JoinAnd(e1: Expr, e2: Expr): Option<Expr> {
    if Equivalent(e1, e2) then Some(e1)
    else
      match SharedSymbol(e1, e2)
      case None => None
      case Some(a) => JoinAndRules(a, e1, e2)
  }

  /** `a = b` next to `a != c`, with constants b and c. */
  predicate EqualUnequal(e1: Expr, e2: Expr) {
    && e1.Comp? && e1.cmp == Equal && e2.Comp? && e2.cmp == Unequal
    && IsConst(e1.right) && IsConst(e2.right)
  }

  function Join(op: BinOp, e1: Expr, e2: Expr): Option<Expr> {
    if op == AndOp then JoinAnd(e1, e2) else JoinOr(e1, e2)
  }

  /** The number of operands of an and/or tree that are not y or n. */
  function Weight(e: Expr): (w: nat)
    ensures Clean(e) ==> w >= 1
    ensures IsConstLeaf(e) <==> w == 0 && !e.Bin?
  {
    match e
    case Sym(s) => if IsYesNo(s) then 0 else 1
    case Comp(_, _, _) => 1
    case Not(_) => 1
    case Bin(_, l, r) => Weight(l) + Weight(r)
  }

  // ----- soundness of the join rules -----

  /** The constants of a non-equivalent `a = b && a != c` clash in this state. */
  predicate ClashingPair(e1: Expr, e2: Expr, env: Env) {
    && EqualUnequal(e1, e2) && e1.left == e2.left && TypeOf(e1.left) == TristateType
    && e1.right != e2.right
    && Denotes(env, e1.right, TriOf(env, e1.left)) && Denotes(env, e2.right, TriOf(env, e1.left))
  }

  /** `a = b && a != c` is joined correctly unless b and c are different constants that both equal a. */
  lemma JoinEqualUnequalExact(e1: Expr, e2: Expr, env: Env)
    requires EqualUnequal(e1, e2) && e1.left == e2.left && TypeOf(e1.left) == TristateType
    ensures Eval(JoinEqualUnequal(e1.left, e1.right, e2.right), env) == Min(Eval(e1, env), Eval(e2, env))
            <==> !ClashingPair(e1, e2, env)
  {
    var v := TriOf(env, e1.left);
    assert Compare(env, e1.left, e1.right) == 0 <==> Denotes(env, e1.right, v);
    assert Compare(env, e2.left, e2.right) == 0 <==> Denotes(env, e2.right, v);
  }

  /** The value of a comparison of a logical symbol with y, m or n. */
  lemma BuiltinComparison(env: Env, e: Expr)
    requires e.Comp? && IsLogical(e.left) && !e.right.Config?
    ensures e.cmp == Equal ==> Eval(e, env) == FromBool(TriOf(env, e.left) == TriOf(env, e.right))
    ensures e.cmp == Unequal ==> Eval(e, env) == FromBool(TriOf(env, e.left) != TriOf(env, e.right))
  {
    CompareWithBuiltin(env, e.left, e.right);
  }

  lemma BareAndCompareSound(a: Symbol, e1: Expr, e2: Expr, env: Env)
    requires IsLogical(a) && e1 == Sym(a) && e2.Comp? && e2.left == a
    ensures Compares(e2, Equal, SymYes) ==> Eval(Comp(Equal, a, SymYes), env) == Min(Eval(e1, env), Eval(e2, env))
    ensures Compares(e2, Unequal, SymNo) ==> Eval(Sym(a), env) == Min(Eval(e1, env), Eval(e2, env))
    ensures Compares(e2, Unequal, SymMod) ==> Eval(Comp(Equal, a, SymYes), env) == Min(Eval(e1, env), Eval(e2, env))
  {
    BuiltinComparison(env, Comp(Equal, a, SymYes));
    BuiltinComparison(env, Comp(Unequal, a, SymNo));
    BuiltinComparison(env, Comp(Unequal, a, SymMod));
  }

  /** `b`, `c` and `d` are y, m and n in some order. */
  predicate Builtins(b: Symbol, c: Symbol, d: Symbol) {
    !b.Config? && !c.Config? && !d.Config? && b != c && b != d && c != d
  }

  lemma ComparePairSound(a: Symbol, b: Symbol, c: Symbol, d: Symbol, env: Env)
    requires TypeOf(a) == TristateType && Builtins(b, c, d)
    ensures Min(Eval(Comp(Unequal, a, b), env), Eval(Comp(Unequal, a, c), env)) == Eval(Comp(Equal, a, d), env)
    ensures Max(Eval(Comp(Equal, a, b), env), Eval(Comp(Equal, a, c), env)) == Eval(Comp(Unequal, a, d), env)
  {
    BuiltinComparison(env, Comp(Unequal, a, b));
    BuiltinComparison(env, Comp(Unequal, a, c));
    BuiltinComparison(env, Comp(Unequal, a, d));
    BuiltinComparison(env, Comp(Equal, a, b));
    BuiltinComparison(env, Comp(Equal, a, c));
    BuiltinComparison(env, Comp(Equal, a, d));
  }

  lemma JoinAndBareSound(a: Symbol, e1: Expr, e2: Expr, env: Env)
    requires IsLogical(a) && FirstSymbol(e1) == SecondSymbol(e2) == Some(a) && (e1.Sym? || e2.Sym?)
    requires JoinAndRules(a, e1, e2).Some?
    ensures Eval(JoinAndRules(a, e1, e2).value, env) == Min(Eval(e1, env), Eval(e2, env))
  {
    hide Eval;
    if e1.Sym? {
      BareAndCompareSound(a, e1, e2, env);
    } else {
      BareAndCompareSound(a, e2, e1, env);
    }
  }

  /** The symbol among y, m and n that is neither `b` nor `c`. */
  function Third(b: Symbol, c: Symbol): Symbol {
    if b != SymYes && c != SymYes then SymYes else if b != SymMod && c != SymMod then SymMod else SymNo
  }

  lemma JoinAndPairSound(a: Symbol, e1: Expr, e2: Expr, env: Env)
    requires IsLogical(a) && FirstSymbol(e1) == SecondSymbol(e2) == Some(a) && !e1.Sym? && !e2.Sym?
    requires JoinAndRules(a, e1, e2).Some?
    requires !EqualUnequal(e1, e2) && !EqualUnequal(e2, e1)
    ensures Eval(JoinAndRules(a, e1, e2).value, env) == Min(Eval(e1, env), Eval(e2, env))
  {
    hide Eval;
    assert e1 == Comp(Unequal, a, e1.right) && e2 == Comp(Unequal, a, e2.right);
    ComparePairSound(a, e1.right, e2.right, Third(e1.right, e2.right), env);
  }

  lemma JoinOrRulesSound(a: Symbol, e1: Expr, e2: Expr, env: Env)
    requires IsLogical(a) && FirstSymbol(e1) == SecondSymbol(e2) == Some(a)
    requires JoinOrRules(a, e1, e2).Some?
    ensures Eval(JoinOrRules(a, e1, e2).value, env) == Max(Eval(e1, env), Eval(e2, env))
  {
    hide Compare;
    if TypeOf(a) == TristateType {
      assert e1 == Comp(Equal, a, e1.right) && e2 == Comp(Equal, a, e2.right);
      ComparePairSound(a, e1.right, e2.right, Third(e1.right, e2.right), env);
    }
  }

  /** expr_join_or keeps the value of the disjunction. */
  lemma JoinOrSound(e1: Expr, e2: Expr, env: Env)
    requires JoinOr(e1, e2).Some?
    ensures Eval(JoinOr(e1, e2).value, env) == Max(Eval(e1, env), Eval(e2, env))
  {
    if Equivalent(e1, e2) {
      EquivalentSound(e1, e2, env);
    } else {
      JoinOrRulesSound(SharedSymbol(e1, e2).value, e1, e2, env);
    }
  }

  /** expr_join_and keeps the value of the conjunction exactly when no two constants clash. */
  lemma JoinAndExact(e1: Expr, e2: Expr, env: Env)
    requires JoinAnd(e1, e2).Some?
    ensures Eval(JoinAnd(e1, e2).value, env) == Min(Eval(e1, env), Eval(e2, env))
            <==> !ClashingPair(e1, e2, env) && !ClashingPair(e2, e1, env)
  {
    if Equivalent(e1, e2) {
      EquivalentSound(e1, e2, env);
    } else if EqualUnequal(e1, e2) {
      JoinEqualUnequalExact(e1, e2, env);
    } else if EqualUnequal(e2, e1) {
      JoinEqualUnequalExact(e2, e1, env);
    } else if e1.Sym? || e2.Sym? {
      JoinAndBareSound(SharedSymbol(e1, e2).value, e1, e2, env);
    } else {
      JoinAndPairSound(SharedSymbol(e1, e2).value, e1, e2, env);
    }
  }

  /** Under NoClash every join keeps the value. */
  lemma JoinSound(op: BinOp, e1: Expr, e2: Expr, env: Env, cs: Comparisons)
    requires Join(op, e1, e2).Some?
    requires NoClash(env, cs) && Within(e1, cs) && Within(e2, cs)
    ensures Eval(Join(op, e1, e2).value, env) == Apply(op, Eval(e1, env), Eval(e2, env))
  {
    if op == AndOp {
      JoinAndExact(e1, e2, env);
    } else {
      JoinOrSound(e1, e2, env);
    }
  }

  lemma JoinWithin(op: BinOp, e1: Expr, e2: Expr, cs: Comparisons)
    requires Join(op, e1, e2).Some?
    requires Within(e1, cs) && Within(e2, cs)
    ensures Within(Join(op, e1, e2).value, cs)
  {
    hide Equivalent, Compared, JoinAndRules, JoinOrRules;
    if !Equivalent(e1, e2) {
      var a := SharedSymbol(e1, e2).value;
      if op == AndOp {
        JoinAndRulesWithin(a, e1, e2, cs);
      } else {
        JoinOrRulesWithin(a, e1, e2, cs);
      }
    }
  }

  lemma JoinAndRulesWithin(a: Symbol, e1: Expr, e2: Expr, cs: Comparisons)
    requires FirstSymbol(e1) == SecondSymbol(e2) == Some(a) && JoinAndRules(a, e1, e2).Some?
    requires Within(e1, cs) && Within(e2, cs)
    ensures Within(JoinAndRules(a, e1, e2).value, cs)
  {
    BuiltinsWithin(a, e1, e2, cs);
  }

  lemma JoinOrRulesWithin(a: Symbol, e1: Expr, e2: Expr, cs: Comparisons)
    requires FirstSymbol(e1) == SecondSymbol(e2) == Some(a) && JoinOrRules(a, e1, e2).Some?
    requires Within(e1, cs) && Within(e2, cs)
    ensures Within(JoinOrRules(a, e1, e2).value, cs)
  {
    BuiltinsWithin(a, e1, e2, cs);
  }

  /** Where one of two tests of `a` is with y, m or n, every such test of `a` is covered. */
  lemma BuiltinsWithin(a: Symbol, e1: Expr, e2: Expr, cs: Comparisons)
    requires FirstSymbol(e1) == SecondSymbol(e2) == Some(a) && Within(e1, cs) && Within(e2, cs)
    ensures forall b: Symbol, cmp | !b.Config? && (TestsBuiltin(e1) || TestsBuiltin(e2)) :: Within(Comp(cmp, a, b), cs)
  {
  }

  /** An equality test with y, m or n. */
  predicate TestsBuiltin(e: Expr) {
    e.Comp? && (e.cmp == Equal || e.cmp == Unequal) && !e.right.Config?
  }

  /**
    A join never adds weight, and lowers it when neither operand is a constant.
    Joining a non-constant with the constant on the right lowers the weight or
    yields a comparison.
  */
  lemma JoinWeight(op: BinOp, e1: Expr, e2: Expr)
    requires Join(op, e1, e2).Some?
    ensures var j := Join(op, e1, e2).value;
            && Weight(j) <= Weight(e1) + Weight(e2)
            && (Clean(e1) && Clean(e2) ==> Weight(j) < Weight(e1) + Weight(e2))
            && (Clean(e1) && IsConstLeaf(e2) ==> Weight(j) < Weight(e1) + Weight(e2) || j.Comp?)
            && (IsConstLeaf(e1) ==> Size(j) <= Size(e2))
  {
    hide Equivalent, JoinAndRules, JoinOrRules;
    if Equivalent(e1, e2) {
      EquivalentConstants(e1, e2);
    } else {
      RulesWeight(op, SharedSymbol(e1, e2).value, e1, e2);
    }
  }

  lemma EquivalentConstants(e1: Expr, e2: Expr)
    requires Equivalent(e1, e2)
    ensures IsConstLeaf(e2) ==> !Clean(e1)
  {
  }

  /** The rules yield one operand without parts of its own. */
  lemma RulesWeight(op: BinOp, a: Symbol, e1: Expr, e2: Expr)
    requires FirstSymbol(e1) == SecondSymbol(e2) == Some(a)
    requires var r := if op == AndOp then JoinAndRules(a, e1, e2) else JoinOrRules(a, e1, e2); r.Some?
    ensures var j := (if op == AndOp then JoinAndRules(a, e1, e2) else JoinOrRules(a, e1, e2)).value;
            && (j.Sym? || j.Comp?) && Size(j) == 1 && Weight(j) <= 1
            && (Weight(j) == 0 || Weight(e1) + Weight(e2) >= 1)
            && (Clean(e1) && IsConstLeaf(e2) ==> Weight(j) == 0 || j.Comp?)
  {
  }

  lemma JoinNotHeavier(op: BinOp, e1: Expr, e2: Expr)
    requires Join(op, e1, e2).Some?
    ensures Weight(Join(op, e1, e2).value) <= Weight(e1) + Weight(e2)
  {
    JoinWeight(op, e1, e2);
  }

  // ----- one pass over all pairs of operands -----

  /** expr_eliminate_dups1. */
  function JoinOperands(op: BinOp, e1: Expr, e2: Expr): (p: Pair)
    ensures Size(p.e1) <= Size(e1)
    ensures p.count == 0 ==> p.e1 == e1 && p.e2 == e2
    decreases Size(e1), Size(e2)
  {
    if AtLevel(op, e1) then
      var p := JoinOperands(op, e1.l, e2);
      var q := JoinOperands(op, e1.r, p.e2);
      Pair(Bin(op, p.e1, q.e1), q.e2, p.count + q.count)
    else if AtLevel(op, e2) then
      var p := JoinOperands(op, e1, e2.l);
      var q := JoinOperands(op, p.e1, e2.r);
      Pair(q.e1, Bin(op, p.e2, q.e2), p.count + q.count)
    else
      match Join(op, e1, e2)
      case None => Pair(e1, e2, 0)
      case Some(j) => Pair(Sym(Unit(op)), j, 1)
  }

  lemma {:induction false} JoinOperandsWithin(op: BinOp, e1: Expr, e2: Expr, cs: Comparisons)
    requires Within(e1, cs) && Within(e2, cs)
    ensures var p := JoinOperands(op, e1, e2); Within(p.e1, cs) && Within(p.e2, cs)
    decreases Size(e1), Size(e2)
  {
    if AtLevel(op, e1) {
      JoinOperandsWithin(op, e1.l, e2, cs);
      JoinOperandsWithin(op, e1.r, JoinOperands(op, e1.l, e2).e2, cs);
    } else if AtLevel(op, e2) {
      JoinOperandsWithin(op, e1, e2.l, cs);
      JoinOperandsWithin(op, JoinOperands(op, e1, e2.l).e1, e2.r, cs);
    } else if Join(op, e1, e2).Some? {
      JoinWithin(op, e1, e2, cs);
    }
  }

  /** Associativity and commutativity, in the shape the recursion needs. */
  lemma Regroup(op: BinOp, l: Tristate, r: Tristate, x: Tristate,
                l': Tristate, r': Tristate, x': Tristate, x'': Tristate)
    requires Apply(op, l', x') == Apply(op, l, x) && Apply(op, r', x'') == Apply(op, r, x')
    ensures Apply(op, Apply(op, l', r'), x'') == Apply(op, Apply(op, l, r), x)
  {
  }

  lemma ApplyCommutes(op: BinOp, a: Tristate, b: Tristate)
    ensures Apply(op, a, b) == Apply(op, b, a)
  {
  }

  /** The value of the two operands joined by `op`. */
  function Joined(op: BinOp, e1: Expr, e2: Expr, env: Env): Tristate {
    Apply(op, Eval(e1, env), Eval(e2, env))
  }

  lemma RegroupLeft(op: BinOp, l: Expr, r: Expr, x: Expr, l': Expr, r': Expr, x': Expr, x'': Expr, env: Env)
    requires Joined(op, l', x', env) == Joined(op, l, x, env)
    requires Joined(op, r', x'', env) == Joined(op, r, x', env)
    ensures Joined(op, Bin(op, l', r'), x'', env) == Joined(op, Bin(op, l, r), x, env)
  {
    Regroup(op, Eval(l, env), Eval(r, env), Eval(x, env),
            Eval(l', env), Eval(r', env), Eval(x', env), Eval(x'', env));
    assert Eval(Bin(op, l', r'), env) == Apply(op, Eval(l', env), Eval(r', env));
    assert Eval(Bin(op, l, r), env) == Apply(op, Eval(l, env), Eval(r, env));
  }

  lemma JoinedCommutes(op: BinOp, e1: Expr, e2: Expr, env: Env)
    ensures Joined(op, e1, e2, env) == Joined(op, e2, e1, env)
  {
    ApplyCommutes(op, Eval(e1, env), Eval(e2, env));
  }

  /** A pass keeps the value of `e1 op e2`. */
  lemma {:induction false} JoinOperandsSound(op: BinOp, e1: Expr, e2: Expr, env: Env, cs: Comparisons)
    requires NoClash(env, cs) && Within(e1, cs) && Within(e2, cs)
    ensures Joined(op, JoinOperands(op, e1, e2).e1, JoinOperands(op, e1, e2).e2, env) == Joined(op, e1, e2, env)
    decreases Size(e1), Size(e2)
  {
    if AtLevel(op, e1) {
      var p := JoinOperands(op, e1.l, e2);
      var q := JoinOperands(op, e1.r, p.e2);
      JoinOperandsWithin(op, e1.l, e2, cs);
      JoinOperandsSound(op, e1.l, e2, env, cs);
      JoinOperandsSound(op, e1.r, p.e2, env, cs);
      RegroupLeft(op, e1.l, e1.r, e2, p.e1, q.e1, p.e2, q.e2, env);
    } else if AtLevel(op, e2) {
      var p := JoinOperands(op, e1, e2.l);
      var q := JoinOperands(op, p.e1, e2.r);
      JoinOperandsWithin(op, e1, e2.l, cs);
      JoinOperandsSound(op, e1, e2.l, env, cs);
      JoinOperandsSound(op, p.e1, e2.r, env, cs);
      JoinedCommutes(op, e1, e2.l, env);
      JoinedCommutes(op, p.e1, p.e2, env);
      JoinedCommutes(op, p.e1, e2.r, env);
      JoinedCommutes(op, q.e1, q.e2, env);
      RegroupLeft(op, e2.l, e2.r, e1, p.e2, q.e2, p.e1, q.e1, env);
      JoinedCommutes(op, q.e1, Bin(op, p.e2, q.e2), env);
      JoinedCommutes(op, e1, e2, env);
    } else if Join(op, e1, e2).Some? {
      JoinSound(op, e1, e2, env, cs);
    }
  }

  function PairWeight(p: Pair): nat { Weight(p.e1) + Weight(p.e2) }

  lemma WeightLeft(op: BinOp, l: Expr, r: Expr, x: Expr, p: Pair, q: Pair)
    requires PairWeight(p) <= Weight(l) + Weight(x) && PairWeight(q) <= Weight(r) + Weight(p.e2)
    ensures PairWeight(Pair(Bin(op, p.e1, q.e1), q.e2, p.count + q.count)) <= Weight(Bin(op, l, r)) + Weight(x)
  {
  }

  lemma WeightRight(op: BinOp, x: Expr, l: Expr, r: Expr, p: Pair, q: Pair)
    requires PairWeight(p) <= Weight(x) + Weight(l) && PairWeight(q) <= Weight(p.e1) + Weight(r)
    ensures PairWeight(Pair(q.e1, Bin(op, p.e2, q.e2), p.count + q.count)) <= Weight(x) + Weight(Bin(op, l, r))
  {
  }

  /** A pass never adds weight. */
  lemma {:induction false} JoinOperandsShrinks(op: BinOp, e1: Expr, e2: Expr)
    ensures PairWeight(JoinOperands(op, e1, e2)) <= Weight(e1) + Weight(e2)
    decreases Size(e1), Size(e2)
  {
    if AtLevel(op, e1) {
      var p := JoinOperands(op, e1.l, e2);
      JoinOperandsShrinks(op, e1.l, e2);
      JoinOperandsShrinks(op, e1.r, p.e2);
      WeightLeft(op, e1.l, e1.r, e2, p, JoinOperands(op, e1.r, p.e2));
    } else if AtLevel(op, e2) {
      var p := JoinOperands(op, e1, e2.l);
      JoinOperandsShrinks(op, e1, e2.l);
      JoinOperandsShrinks(op, p.e1, e2.r);
      WeightRight(op, e1, e2.l, e2.r, p, JoinOperands(op, p.e1, e2.r));
    } else if Join(op, e1, e2).Some? {
      JoinNotHeavier(op, e1, e2);
    }
  }

  /** Next to a constant on the left a pass adds no nodes, and the constant stays one. */
  lemma {:induction false} JoinOperandsFromConstant(op: BinOp, e1: Expr, e2: Expr)
    requires IsConstLeaf(e1)
    ensures var p := JoinOperands(op, e1, e2); IsConstLeaf(p.e1) && Size(p.e2) <= Size(e2)
    decreases Size(e2)
  {
    if AtLevel(op, e2) {
      JoinOperandsFromConstant(op, e1, e2.l);
      JoinOperandsFromConstant(op, JoinOperands(op, e1, e2.l).e1, e2.r);
    } else if Join(op, e1, e2).Some? {
      JoinWeight(op, e1, e2);
    }
  }

  /** The same bounds, one of which is strict. */
  lemma WeightLeftLowers(op: BinOp, l: Expr, r: Expr, x: Expr, p: Pair, q: Pair)
    requires PairWeight(p) + PairWeight(q) < Weight(l) + Weight(x) + (Weight(r) + Weight(p.e2))
    ensures PairWeight(Pair(Bin(op, p.e1, q.e1), q.e2, p.count + q.count)) < Weight(Bin(op, l, r)) + Weight(x)
  {
  }

  lemma WeightRightLowers(op: BinOp, x: Expr, l: Expr, r: Expr, p: Pair, q: Pair)
    requires PairWeight(p) + PairWeight(q) < Weight(x) + Weight(l) + (Weight(p.e1) + Weight(r))
    ensures PairWeight(Pair(q.e1, Bin(op, p.e2, q.e2), p.count + q.count)) < Weight(x) + Weight(Bin(op, l, r))
  {
  }

  lemma CleanOperands(e: Expr)
    requires e.Bin? && Clean(e)
    ensures Clean(e.l) && Clean(e.r) && Bin(e.op, e.l, e.r) == e
  {
  }

  lemma JoinLeft(op: BinOp, e1: Expr, e2: Expr, p: Pair, q: Pair)
    requires AtLevel(op, e1) && p == JoinOperands(op, e1.l, e2) && q == JoinOperands(op, e1.r, p.e2)
    ensures JoinOperands(op, e1, e2) == Pair(Bin(op, p.e1, q.e1), q.e2, p.count + q.count)
  {
    hide Join, Size;
  }

  lemma JoinRight(op: BinOp, e1: Expr, e2: Expr, p: Pair, q: Pair)
    requires !AtLevel(op, e1) && AtLevel(op, e2)
    requires p == JoinOperands(op, e1, e2.l) && q == JoinOperands(op, p.e1, e2.r)
    ensures JoinOperands(op, e1, e2) == Pair(q.e1, Bin(op, p.e2, q.e2), p.count + q.count)
  {
    hide Join, Size;
  }

  /** A pass that counts a change between operands without constants lowers the weight. */
  lemma {:induction false} JoinOperandsLowers(op: BinOp, e1: Expr, e2: Expr)
    requires Clean(e1) && Clean(e2) && JoinOperands(op, e1, e2).count > 0
    ensures PairWeight(JoinOperands(op, e1, e2)) < Weight(e1) + Weight(e2)
    decreases Size(e1), Size(e2)
  {
    hide JoinOperands, Weight, PairWeight, Clean;
    if AtLevel(op, e1) {
      var p := JoinOperands(op, e1.l, e2);
      var q := JoinOperands(op, e1.r, p.e2);
      JoinLeft(op, e1, e2, p, q);
      CleanOperands(e1);
      JoinOperandsShrinks(op, e1.l, e2);
      JoinOperandsShrinks(op, e1.r, p.e2);
      if p.count > 0 {
        JoinOperandsLowers(op, e1.l, e2);
      } else {
        JoinOperandsLowers(op, e1.r, e2);
      }
      WeightLeftLowers(op, e1.l, e1.r, e2, p, q);
    } else if AtLevel(op, e2) {
      var p := JoinOperands(op, e1, e2.l);
      var q := JoinOperands(op, p.e1, e2.r);
      JoinRight(op, e1, e2, p, q);
      CleanOperands(e2);
      JoinOperandsShrinks(op, e1, e2.l);
      JoinOperandsShrinks(op, p.e1, e2.r);
      if p.count > 0 {
        JoinOperandsLowers(op, e1, e2.l);
      } else {
        JoinOperandsLowers(op, e1, e2.r);
      }
      WeightRightLowers(op, e1, e2.l, e2.r, p, q);
    } else {
      LeavesLower(op, e1, e2);
    }
  }

  lemma LeavesLower(op: BinOp, e1: Expr, e2: Expr)
    requires !AtLevel(op, e1) && !AtLevel(op, e2) && Clean(e1) && Clean(e2) && JoinOperands(op, e1, e2).count > 0
    ensures PairWeight(JoinOperands(op, e1, e2)) < Weight(e1) + Weight(e2)
  {
    hide Join;
    JoinWeight(op, e1, e2);
  }

  /** Next to a constant on the right, a change lowers the weight or moves a comparison to the right. */
  lemma {:induction false} JoinOperandsWithConstant(op: BinOp, e1: Expr, e2: Expr)
    requires Clean(e1) && IsConstLeaf(e2) && JoinOperands(op, e1, e2).count > 0
    ensures var p := JoinOperands(op, e1, e2);
            PairWeight(p) < Weight(e1) + Weight(e2) || p.e2.Comp?
    decreases Size(e1), Size(e2)
  {
    if AtLevel(op, e1) {
      var p := JoinOperands(op, e1.l, e2);
      JoinOperandsShrinks(op, e1.l, e2);
      JoinOperandsShrinks(op, e1.r, p.e2);
      if p.count == 0 {
        JoinOperandsWithConstant(op, e1.r, e2);
      } else {
        JoinOperandsWithConstant(op, e1.l, e2);
        if p.e2.Comp? && JoinOperands(op, e1.r, p.e2).count > 0 {
          JoinOperandsLowers(op, e1.r, p.e2);
        }
      }
    } else {
      JoinWeight(op, e1, e2);
    }
  }

  // ----- the loop -----

  /** One round of the loop: both operands are already simplified. */
  function Round(op: BinOp, l: Expr, r: Expr): Expr {
    var p := JoinOperands(op, l, r);
    EliminateYn(Bin(op, p.e1, p.e2))
  }

  /** Not larger, in weight first and then in nodes. */
  predicate NotLarger(e: Expr, bound: Expr) {
    Weight(e) < Weight(bound) || (Weight(e) == Weight(bound) && Size(e) <= Size(bound))
  }

  function ConstantOnTheRight(e: Expr): nat {
    if e.Bin? && IsConstLeaf(e.r) then 1 else 0
  }

  /** `e` comes before `bound` in the order that makes the loop terminate. */
  predicate Smaller(e: Expr, bound: Expr) {
    || Weight(e) < Weight(bound)
    || (Weight(e) == Weight(bound)
        && (Size(e) < Size(bound)
            || (Size(e) == Size(bound) && ConstantOnTheRight(e) < ConstantOnTheRight(bound))))
  }

  lemma EliminateYnWeight(e: Expr)
    ensures Weight(EliminateYn(e)) <= Weight(e)
  {
  }

  /** A constant operand always disappears from the top. */
  lemma EliminateYnConstantLeft(op: BinOp, l: Expr, r: Expr)
    requires IsConstLeaf(l)
    ensures Size(EliminateYn(Bin(op, l, r))) <= Size(r)
  {
  }

  /** expr_eliminate_yn returns the node itself or something smaller. */
  lemma EliminateYnWholeOrSmaller(op: BinOp, l: Expr, r: Expr)
    ensures var e := EliminateYn(Bin(op, l, r)); e == Bin(op, l, r) || Size(e) <= Size(l) + Size(r)
  {
  }

  /** A round that changed something makes progress. */
  lemma RoundProgress(e: Expr, l: Expr, r: Expr)
    requires e.Bin? && Settled(l) && Settled(r) && NotLarger(l, e.l) && NotLarger(r, e.r)
    requires Size(r) == 1 && Size(e.r) == 1 && IsConstLeaf(r) ==> e.r == r
    requires JoinOperands(e.op, l, r).count > 0
    ensures Smaller(Round(e.op, l, r), e)
  {
    var p := JoinOperands(e.op, l, r);
    EliminateYnWeight(Bin(e.op, p.e1, p.e2));
    EliminateYnWholeOrSmaller(e.op, p.e1, p.e2);
    JoinOperandsShrinks(e.op, l, r);
    if IsConstLeaf(l) {
      JoinOperandsFromConstant(e.op, l, r);
      EliminateYnConstantLeft(e.op, p.e1, p.e2);
    } else if IsConstLeaf(r) {
      JoinOperandsWithConstant(e.op, l, r);
    } else {
      JoinOperandsLowers(e.op, l, r);
    }
  }

  /** A round that changed nothing yields a settled expression. */
  lemma RoundSettles(op: BinOp, l: Expr, r: Expr)
    requires Settled(l) && Settled(r) && JoinOperands(op, l, r).count == 0
    ensures Settled(Round(op, l, r))
  {
  }

  /** expr_eliminate_dups on a present expression: rounds until one changes nothing. */
  function EliminateDups(e: Expr): (r: Expr)
    ensures Settled(r) && NotLarger(r, e)
    ensures !e.Bin? ==> r == e
    decreases Weight(e), Size(e), ConstantOnTheRight(e)
  {
    if !e.Bin? then EliminateYn(e)
    else
      var l, r := EliminateDups(e.l), EliminateDups(e.r);
      var p := JoinOperands(e.op, l, r);
      var e' := EliminateYn(Bin(e.op, p.e1, p.e2));
      assert e' == Round(e.op, l, r);
      if p.count > 0 then
        RoundProgress(e, l, r);
        EliminateDups(e')
      else
        RoundSettles(e.op, l, r);
        EliminateYnWeight(Bin(e.op, p.e1, p.e2));
        e'
  }

  /** expr_eliminate_dups. */
  function EliminateDupsOpt(e: Option<Expr>): Option<Expr> {
    match e
    case None => None
    case Some(x) => Some(EliminateDups(x))
  }

  lemma EliminateYnWithin(e: Expr, cs: Comparisons)
    requires Within(e, cs)
    ensures Within(EliminateYn(e), cs)
  {
  }

  /** The loop keeps the value of every expression whose constants do not clash. */
  lemma {:induction false} EliminateDupsSound(e: Expr, env: Env, cs: Comparisons)
    requires NoClash(env, cs) && Within(e, cs)
    ensures Eval(EliminateDups(e), env) == Eval(e, env)
    ensures Within(EliminateDups(e), cs)
    decreases Weight(e), Size(e), ConstantOnTheRight(e)
  {
    if e.Bin? {
      var l, r := EliminateDups(e.l), EliminateDups(e.r);
      EliminateDupsSound(e.l, env, cs);
      EliminateDupsSound(e.r, env, cs);
      var p := JoinOperands(e.op, l, r);
      var e' := Round(e.op, l, r);
      JoinOperandsWithin(e.op, l, r, cs);
      EliminateYnWithin(Bin(e.op, p.e1, p.e2), cs);
      assert Eval(e', env) == Eval(e, env) by {
        JoinOperandsSound(e.op, l, r, env, cs);
        assert Eval(e', env) == Eval(Bin(e.op, p.e1, p.e2), env) == Joined(e.op, p.e1, p.e2, env);
      }
      if p.count > 0 {
        RoundProgress(e, l, r);
        EliminateDupsSound(e', env, cs);
      }
    }
  }

  lemma EliminateDupsOptSound(e: Option<Expr>, env: Env, cs: Comparisons)
    requires NoClash(env, cs) && WithinOpt(e, cs)
    ensures EvalOpt(EliminateDupsOpt(e), env) == EvalOpt(e, env)
    ensures WithinOpt(EliminateDupsOpt(e), cs)
  {
    if e.Some? {
      EliminateDupsSound(e.value, env, cs);
    }
  }

  /** A second run finds nothing left to join. */
  lemma {:induction false} EliminateDupsIdempotent(e: Expr)
    ensures EliminateDups(EliminateDups(e)) == EliminateDups(e)
    decreases Weight(e), Size(e), ConstantOnTheRight(e)
  {
    if e.Bin? {
      var l, r := EliminateDups(e.l), EliminateDups(e.r);
      EliminateDupsIdempotent(e.l);
      EliminateDupsIdempotent(e.r);
      var p := JoinOperands(e.op, l, r);
      var e' := Round(e.op, l, r);
      if p.count > 0 {
        RoundProgress(e, l, r);
        EliminateDupsIdempotent(e');
      } else {
        SettledOperands(e.op, l, r);
      }
    }
  }

  /** With settled operands, removing constants keeps the whole node or one of the operands. */
  lemma SettledOperands(op: BinOp, l: Expr, r: Expr)
    requires Settled(l) && Settled(r)
    ensures var e := EliminateYn(Bin(op, l, r)); e == l || e == r || e == Bin(op, l, r)
  {
  }

  /**
    The exact condition on the one rule that needs NoClash: A=b && A!=c becomes
    A=b, and the value is kept if and only if A does not equal both constants.
  */
  lemma EliminateDupsEqualUnequal(a: Symbol, b: Symbol, c: Symbol, env: Env)
    requires TypeOf(a) == TristateType && IsConst(b) && IsConst(c) && b != c
    ensures var e := Bin(AndOp, Comp(Equal, a, b), Comp(Unequal, a, c));
            && EliminateDups(e) == Comp(Equal, a, b)
            && (Eval(EliminateDups(e), env) == Eval(e, env)
                <==> !(Denotes(env, b, TriOf(env, a)) && Denotes(env, c, TriOf(env, a))))
  {
    hide EliminateDups, Eval, Denotes;
    var e1, e2 := Comp(Equal, a, b), Comp(Unequal, a, c);
    EqualUnequalJoined(a, b, c);
    assert EqualUnequal(e1, e2) && JoinEqualUnequal(a, b, c) == e1;
    JoinEqualUnequalExact(e1, e2, env);
    AndValue(e1, e2, env);
  }

  lemma AndValue(e1: Expr, e2: Expr, env: Env)
    ensures Eval(Bin(AndOp, e1, e2), env) == Min(Eval(e1, env), Eval(e2, env))
  {
  }

  /** The two comparisons are joined in one round, and the rest is already settled. */
  lemma EqualUnequalJoined(a: Symbol, b: Symbol, c: Symbol)
    requires TypeOf(a) == TristateType && IsConst(b) && IsConst(c) && b != c
    ensures EliminateDups(Bin(AndOp, Comp(Equal, a, b), Comp(Unequal, a, c))) == Comp(Equal, a, b)
  {
    hide Join, Equivalent;
    var e1, e2 := Comp(Equal, a, b), Comp(Unequal, a, c);
    assert Join(AndOp, e1, e2) == Some(e1) by {
      EqualUnequalRule(a, b, c);
    }
    assert JoinOperands(AndOp, e1, e2) == Pair(Sym(SymYes), e1, 1);
    assert Round(AndOp, e1, e2) == e1;
  }

  lemma EqualUnequalRule(a: Symbol, b: Symbol, c: Symbol)
    requires TypeOf(a) == TristateType && IsConst(b) && IsConst(c) && b != c
    ensures Join(AndOp, Comp(Equal, a, b), Comp(Unequal, a, c)) == Some(Comp(Equal, a, b))
  {
    assert !Equivalent(Comp(Equal, a, b), Comp(Unequal, a, c));
  }

  /** The condition can fail: A="1" && A!="0x1" is never true, A="1" is true when A is m. */
  lemma EliminateDupsClashExample(env: Env, a: Symbol)
    requires env.signedNumber("1", 0) == Some(1) && env.signedNumber("0x1", 0) == Some(1)
    requires TypeOf(a) == TristateType && TriOf(env, a) == MOD
    ensures var e := Bin(AndOp, Comp(Equal, a, Config(1, "1", UnknownType, true)),
                                Comp(Unequal, a, Config(2, "0x1", UnknownType, true)));
            Eval(EliminateDups(e), env) != Eval(e, env)
  {
    var one, hex := Config(1, "1", UnknownType, true), Config(2, "0x1", UnknownType, true);
    assert Denotes(env, one, MOD) && Denotes(env, hex, MOD) by {
      assert "m" != "n" by { assert "m"[0] != "n"[0]; }
      assert LogicalNumber(TriText(MOD)) == Signed(1);
    }
    EliminateDupsEqualUnequal(a, one, hex, env);
  }
}
