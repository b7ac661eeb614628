/**
  The passes of kconf/expr.c that work in place: arguments passed by address
  become results, and the change counter `trans_count` is a field. Each pass is
  proved to compute the function that specifies it and to leave the counter as
  the next caller expects it.
*/
module ExprRewriter {
  import opened Wrappers
  import opened Symbols
  import opened Expr
  import opened ExprEquality
  import opened ExprDups
  import ExprReduced

  class Rewriter {
    var transCount: nat

    constructor ()
      ensures transCount == 0
    {
      transCount := 0;
    }

    /** __expr_eliminate_eq. */
    method CancelCommonInPlace(op: BinOp, ep1: Expr, ep2: Expr) returns (e1: Expr, e2: Expr)
      modifies this
      ensures var p := CancelCommon(op, ep1, ep2);
              e1 == p.e1 && e2 == p.e2 && transCount == old(transCount) + p.count
      decreases Size(ep1) + Size(ep2), if AtLevel(op, ep1) || AtLevel(op, ep2) then 0 else 4
    {
      e1, e2 := ep1, ep2;
      if AtLevel(op, e1) {
        var l, r := e1.l, e1.r;
        l, e2 := CancelCommonInPlace(op, l, e2);
        r, e2 := CancelCommonInPlace(op, r, e2);
        e1 := Bin(op, l, r);
        return;
      }
      if AtLevel(op, e2) {
        var l, r := e2.l, e2.r;
        e1, l := CancelCommonInPlace(op, e1, l);
        e1, r := CancelCommonInPlace(op, e1, r);
        e2 := Bin(op, l, r);
        return;
      }
      if e1 == e2 && IsConstLeaf(e1) {
        return;
      }
      var same := IsEquivalent(e1, e2);
      if !same {
        return;
      }
      transCount := transCount + 1;
      e1, e2 := Sym(Unit(op)), Sym(Unit(op));
    }

    /** expr_eliminate_eq on two present expressions. */
    method EliminateEqInPlace(ep1: Expr, ep2: Expr) returns (e1: Expr, e2: Expr)
      modifies this
      ensures var p := EliminateEq(ep1, ep2);
              e1 == p.e1 && e2 == p.e2 && transCount == old(transCount) + p.count
      decreases Size(ep1) + Size(ep2), 2
    {
      e1, e2 := ep1, ep2;
      if e1.Bin? {
        e1, e2 := CancelCommonInPlace(e1.op, e1, e2);
      }
      if e2.Bin? && !AtLevel(e2.op, e1) {
        e1, e2 := CancelCommonInPlace(e2.op, e1, e2);
      }
      e1 := EliminateYn(e1);
      e2 := EliminateYn(e2);
    }

    /** expr_eq on two present expressions: the counter is put back. */
    method IsEquivalent(e1: Expr, e2: Expr) returns (same: bool)
      modifies this
      ensures same == Equivalent(e1, e2) && transCount == old(transCount)
      decreases Size(e1) + Size(e2), 3
    {
      match e1
      case Sym(_) => same := e1 == e2;
      case Comp(_, _, _) => same := e1 == e2;
      case Not(x) =>
        if e2.Not? {
          same := IsEquivalent(x, e2.arg);
        } else {
          same := false;
        }
      case Bin(op, _, _) =>
        if !AtLevel(op, e2) {
          return false;
        }
        var oldCount := transCount;
        var r1, r2 := EliminateEqInPlace(e1, e2);
        same := r1.Sym? && r1 == r2;
        transCount := oldCount;
    }

    /** expr_join_or and expr_join_and. */
    method JoinInPlace(op: BinOp, e1: Expr, e2: Expr) returns (joined: Option<Expr>)
      modifies this
      ensures joined == Join(op, e1, e2) && transCount == old(transCount)
    {
      var same := IsEquivalent(e1, e2);
      if same {
        return Some(e1);
      }
      match SharedSymbol(e1, e2)
      case None => joined := None;
      case Some(a) => joined := if op == AndOp then JoinAndRules(a, e1, e2) else JoinOrRules(a, e1, e2);
    }

    /** expr_eliminate_dups1. */
    method JoinOperandsInPlace(op: BinOp, ep1: Expr, ep2: Expr) returns (e1: Expr, e2: Expr)
      modifies this
      ensures var p := JoinOperands(op, ep1, ep2);
              e1 == p.e1 && e2 == p.e2 && transCount == old(transCount) + p.count
      decreases Size(ep1), Size(ep2)
    {
      e1, e2 := ep1, ep2;
      if AtLevel(op, e1) {
        var l, r := e1.l, e1.r;
        l, e2 := JoinOperandsInPlace(op, l, e2);
        r, e2 := JoinOperandsInPlace(op, r, e2);
        e1 := Bin(op, l, r);
        return;
      }
      if AtLevel(op, e2) {
        var l, r := e2.l, e2.r;
        e1, l := JoinOperandsInPlace(op, e1, l);
        e1, r := JoinOperandsInPlace(op, e1, r);
        e2 := Bin(op, l, r);
        return;
      }
      var joined := JoinInPlace(op, e1, e2);
      if joined.Some? {
        e1 := Sym(Unit(op));
        e2 := joined.value;
        transCount := transCount + 1;
      }
    }

    /** expr_eliminate_dups on a present expression. */
    method EliminateDupsInPlace(ep: Expr) returns (e: Expr)
      modifies this
      ensures e == EliminateDups(ep) && transCount == old(transCount)
      ensures ExprReduced.Reduced(e)
      decreases Weight(ep), Size(ep), ConstantOnTheRight(ep)
    {
      e := ep;
      var oldCount := transCount;
      var again := true;
      while again
        invariant again ==> EliminateDups(e) == EliminateDups(ep)
        invariant again ==> e == ep || Smaller(e, ep)
        invariant !again ==> e == EliminateDups(ep)
        decreases again, Weight(e), Size(e), ConstantOnTheRight(e)
      {
        transCount := 0;
        ghost var before := e;
        if e.Bin? {
          var l := EliminateDupsInPlace(e.l);
          var r := EliminateDupsInPlace(e.r);
          l, r := JoinOperandsInPlace(e.op, l, r);
          e := Bin(e.op, l, r);
        }
        e := EliminateYn(e);
        if before.Bin? && transCount > 0 {
          RoundProgress(before, EliminateDups(before.l), EliminateDups(before.r));
        }
        again := transCount > 0;
      }
      transCount := oldCount;
      ExprReduced.EliminateDupsReduced(ep);
    }
  }
}
