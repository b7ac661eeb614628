/**
  What expr_eliminate_dups (kconf/expr.c) leaves: on every and/or level no two
  operands that a join rule could merge, in particular no duplicates.
*/
module ExprReduced {
  import opened Wrappers
  import opened Symbols
  import opened Expr
  import opened ExprEquality
  import opened ExprForms
  import opened ExprDups

  /** The operands of the level `op`, from left to right. */
  function OperandList(op: BinOp, e: Expr): (r: seq<Expr>)
    ensures r != []
  {
    if AtLevel(op, e) then OperandList(op, e.l) + OperandList(op, e.r) else [e]
  }

  /** `A` and `!A` for a bool A, in this order. */
  predicate Opposite(x: Expr, y: Expr) {
    x.Sym? && y == Not(x) && TypeOf(x.sym) == BooleanType
  }

  /** Two tests of one tristate symbol by `cmp`, with different ones of y, m and n. */
  predicate TwoTests(x: Expr, y: Expr, cmp: CompOp) {
    && x.Comp? && y.Comp? && x.cmp == y.cmp == cmp && x.left == y.left && TypeOf(x.left) == TristateType
    && !x.right.Config? && !y.right.Config? && x.right != y.right
  }

  /** A bare bool or tristate symbol `A` and one of `A=y`, `A!=n` and `A!=m`. */
  predicate BareAndTest(x: Expr, y: Expr) {
    && x.Sym? && IsLogical(x.sym)
    && y in {Comp(Equal, x.sym, SymYes), Comp(Unequal, x.sym, SymNo), Comp(Unequal, x.sym, SymMod)}
  }

  /** `A=b` and `A!=c` for a tristate symbol and constants. */
  predicate SameAndOther(x: Expr, y: Expr) {
    && x.Comp? && y.Comp? && x.cmp == Equal && y.cmp == Unequal && x.left == y.left
    && TypeOf(x.left) == TristateType && IsConst(x.right) && IsConst(y.right)
  }

  /** The pairs of operands that can be merged. */
  predicate Mergeable(op: BinOp, x: Expr, y: Expr) {
    || Equivalent(x, y)
    || (op == OrOp && (Opposite(x, y) || Opposite(y, x) || TwoTests(x, y, Equal)))
    || (op == AndOp &&
        (BareAndTest(x, y) || BareAndTest(y, x) || TwoTests(x, y, Unequal) || SameAndOther(x, y) || SameAndOther(y, x)))
  }

  /** Two operands are joined if and only if they can be merged. */
  lemma JoinedExactly(op: BinOp, x: Expr, y: Expr)
    ensures Join(op, x, y).Some? <==> Mergeable(op, x, y)
  {
    hide Equivalent;
    if !Equivalent(x, y) {
      if op == AndOp {
        JoinedAnd(x, y);
      } else {
        JoinedOr(x, y);
      }
    }
  }

  lemma JoinedOr(x: Expr, y: Expr)
    requires !Equivalent(x, y)
    ensures JoinOr(x, y).Some? <==> Opposite(x, y) || Opposite(y, x) || TwoTests(x, y, Equal)
  {
  }

  lemma JoinedAnd(x: Expr, y: Expr)
    requires !Equivalent(x, y)
    ensures JoinAnd(x, y).Some? <==>
      BareAndTest(x, y) || BareAndTest(y, x) || TwoTests(x, y, Unequal) || SameAndOther(x, y) || SameAndOther(y, x)
  {
  }

  /** No two operands at different places of the level can be merged. */
  ghost predicate Separate(op: BinOp, ops: seq<Expr>) {
    forall i, j | 0 <= i < j < |ops| :: !Mergeable(op, ops[i], ops[j])
  }

  /** This holds of every and/or level outside NOT. */
  ghost predicate Reduced(e: Expr) {
    e.Bin? ==> Reduced(e.l) && Reduced(e.r) && Separate(e.op, OperandList(e.op, e))
  }

  /** A pass that counts nothing has found no pair to merge. */
  lemma {:induction false} NothingCounted(op: BinOp, e1: Expr, e2: Expr, x: Expr, y: Expr)
    requires JoinOperands(op, e1, e2).count == 0 && x in OperandList(op, e1) && y in OperandList(op, e2)
    ensures !Mergeable(op, x, y)
    decreases Size(e1), Size(e2)
  {
    hide Join, Mergeable;
    if AtLevel(op, e1) {
      if x in OperandList(op, e1.l) {
        NothingCounted(op, e1.l, e2, x, y);
      } else {
        NothingCounted(op, e1.r, e2, x, y);
      }
    } else if AtLevel(op, e2) {
      if y in OperandList(op, e2.l) {
        NothingCounted(op, e1, e2.l, x, y);
      } else {
        NothingCounted(op, e1, e2.r, x, y);
      }
    } else {
      JoinedExactly(op, e1, e2);
    }
  }

  lemma SeparateSide(op: BinOp, e: Expr)
    requires Reduced(e)
    ensures Separate(op, OperandList(op, e))
  {
  }

  lemma SeparateBoth(op: BinOp, a: seq<Expr>, b: seq<Expr>)
    requires Separate(op, a) && Separate(op, b)
    requires forall x, y | x in a && y in b :: !Mergeable(op, x, y)
    ensures Separate(op, a + b)
  {
    hide Mergeable;
    var ops := a + b;
    forall i, j | 0 <= i < j < |ops|
      ensures !Mergeable(op, ops[i], ops[j])
    {
      if j < |a| {
        assert ops[i] == a[i] && ops[j] == a[j];
      } else if i >= |a| {
        assert ops[i] == b[i - |a|] && ops[j] == b[j - |a|];
      } else {
        assert ops[i] in a && ops[j] in b;
      }
    }
  }

  /** Duplicates are eliminated: nothing on any level of the result can be merged. */
  lemma {:induction false} EliminateDupsReduced(e: Expr)
    ensures Reduced(EliminateDups(e))
    decreases Weight(e), Size(e), ConstantOnTheRight(e)
  {
    hide Mergeable, Join, JoinOperands;
    if e.Bin? {
      var l, r := EliminateDups(e.l), EliminateDups(e.r);
      EliminateDupsReduced(e.l);
      EliminateDupsReduced(e.r);
      var p := JoinOperands(e.op, l, r);
      if p.count > 0 {
        RoundProgress(e, l, r);
        EliminateDupsReduced(Round(e.op, l, r));
      } else {
        SettledOperands(e.op, l, r);
        forall x, y | x in OperandList(e.op, l) && y in OperandList(e.op, r)
          ensures !Mergeable(e.op, x, y)
        {
          NothingCounted(e.op, l, r, x, y);
        }
        SeparateSide(e.op, l);
        SeparateSide(e.op, r);
        SeparateBoth(e.op, OperandList(e.op, l), OperandList(e.op, r));
      }
    }
  }

  // ----- as multisets -----

  /** The form of an operand of the level, found in the multiset. */
  lemma {:induction false} OperandOfForm(op: BinOp, e: Expr, f: Form) returns (x: Expr)
    requires Pure(e) && !IsConstLeaf(e) && f in Operands(op, e)
    ensures x in OperandList(op, e) && FormOf(x) == f && Pure(x)
  {
    hide FormOf;
    if AtLevel(op, e) {
      if f in Operands(op, e.l) {
        x := OperandOfForm(op, e.l, f);
      } else {
        x := OperandOfForm(op, e.r, f);
      }
    } else {
      x := e;
    }
  }

  /** Every operand of a reduced level occurs once. */
  lemma {:induction false} ReducedOnce(op: BinOp, e: Expr, f: Form)
    requires Reduced(e) && Pure(e) && !IsConstLeaf(e)
    ensures Operands(op, e)[f] <= 1
  {
    hide FormOf, Equivalent;
    if AtLevel(op, e) {
      ReducedOnce(op, e.l, f);
      ReducedOnce(op, e.r, f);
      SidesApart(op, e);
      if f in Operands(op, e.l) && f in Operands(op, e.r) {
        var x := OperandOfForm(op, e.l, f);
        var y := OperandOfForm(op, e.r, f);
        EquivalentExact(x, y);
      }
    }
  }

  lemma SidesApart(op: BinOp, e: Expr)
    requires AtLevel(op, e) && Reduced(e)
    ensures forall x, y | x in OperandList(op, e.l) && y in OperandList(op, e.r) :: !Equivalent(x, y)
  {
    hide Equivalent;
    var a, b := OperandList(op, e.l), OperandList(op, e.r);
    forall x, y | x in a && y in b
      ensures !Equivalent(x, y)
    {
      var i :| 0 <= i < |a| && a[i] == x;
      var j :| 0 <= j < |b| && b[j] == y;
      var ops := OperandList(op, e);
      assert ops[i] == x && ops[|a| + j] == y;
      assert !Mergeable(op, ops[i], ops[|a| + j]);
    }
  }

  /** No operand stands twice on a level of a result of expr_eliminate_dups. */
  lemma EliminateDupsOnce(op: BinOp, e: Expr, f: Form)
    requires Pure(EliminateDups(e)) && !IsConstLeaf(EliminateDups(e))
    ensures Operands(op, EliminateDups(e))[f] <= 1
  {
    EliminateDupsReduced(e);
    ReducedOnce(op, EliminateDups(e), f);
  }
}
