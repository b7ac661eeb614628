/**
  What expr_eq (kconf/expr.c) decides: two expressions without constant
  operands compare equal exactly when, level by level, they have the same
  operands equally often.
*/
module ExprForms {
  import opened Wrappers
  import opened Symbols
  import opened Expr
  import opened ExprEquality

  /** An expression up to the grouping and the order of the operands of each level. */
  datatype Form =
    | Atom(e: Expr)
    | Negation(arg: Form)
    | Level(op: BinOp, operands: multiset<Form>)

  function FormOf(e: Expr): Form
    decreases e, 1
  {
    match e
    case Sym(_) => Atom(e)
    case Comp(_, _, _) => Atom(e)
    case Not(x) => Negation(FormOf(x))
    case Bin(op, _, _) => Level(op, Operands(op, e))
  }

  /** The operands of the level `op`; the unit that marks a cancelled operand does not count. */
  function Operands(op: BinOp, e: Expr): multiset<Form>
    decreases e, if AtLevel(op, e) then 0 else 2
  {
    if AtLevel(op, e) then Operands(op, e.l) + Operands(op, e.r)
    else if e == Sym(Unit(op)) then multiset{}
    else multiset{FormOf(e)}
  }

  /** No operand of an and/or level is the constant y or n, also below NOT. */
  predicate Pure(e: Expr) {
    match e
    case Sym(_) => true
    case Comp(_, _, _) => true
    case Not(x) => Pure(x)
    case Bin(_, l, r) => Pure(l) && Pure(r) && !IsConstLeaf(l) && !IsConstLeaf(r)
  }

  /** The operands of the level `op` are pure, or cancelled. */
  predicate Cancelled(op: BinOp, e: Expr) {
    if AtLevel(op, e) then Cancelled(op, e.l) && Cancelled(op, e.r)
    else e == Sym(Unit(op)) || (Pure(e) && !IsConstLeaf(e))
  }

  lemma {:induction false} PureIsClean(e: Expr)
    requires Pure(e) && !IsConstLeaf(e)
    ensures Clean(e)
  {
    if e.Bin? {
      PureIsClean(e.l);
      PureIsClean(e.r);
    }
  }

  lemma {:induction false} PureIsCancelled(op: BinOp, e: Expr)
    requires Pure(e) && !IsConstLeaf(e)
    ensures Cancelled(op, e) && Operands(op, e) != multiset{}
  {
    if AtLevel(op, e) {
      PureIsCancelled(op, e.l);
      PureIsCancelled(op, e.r);
    }
  }

  lemma DifferenceLeft<T>(l: multiset<T>, r: multiset<T>, x: multiset<T>)
    ensures (l - x) + (r - (x - l)) == (l + r) - x
    ensures (x - l) - r == x - (l + r)
  {
  }

  lemma OperandsOfLevel(op: BinOp, l: Expr, r: Expr)
    ensures Operands(op, Bin(op, l, r)) == Operands(op, l) + Operands(op, r)
    ensures Cancelled(op, Bin(op, l, r)) <==> Cancelled(op, l) && Cancelled(op, r)
  {
  }

  lemma CancelLeft(op: BinOp, e1: Expr, e2: Expr, p: Pair, q: Pair)
    requires AtLevel(op, e1) && p == CancelCommon(op, e1.l, e2) && q == CancelCommon(op, e1.r, p.e2)
    ensures CancelCommon(op, e1, e2) == Pair(Bin(op, p.e1, q.e1), q.e2, p.count + q.count)
  {
    hide Equivalent, EliminateEq, CancelPasses, EliminateYn, Size;
  }

  lemma CancelRight(op: BinOp, e1: Expr, e2: Expr, p: Pair, q: Pair)
    requires !AtLevel(op, e1) && AtLevel(op, e2)
    requires p == CancelCommon(op, e1, e2.l) && q == CancelCommon(op, p.e1, e2.r)
    ensures CancelCommon(op, e1, e2) == Pair(q.e1, Bin(op, p.e2, q.e2), p.count + q.count)
  {
    hide Equivalent, EliminateEq, CancelPasses, EliminateYn, Size;
  }

  lemma CancelLeaf(op: BinOp, e1: Expr, e2: Expr)
    requires !AtLevel(op, e1) && !AtLevel(op, e2)
    ensures CancelCommon(op, e1, e2)
            == if (e1 == e2 && IsConstLeaf(e1)) || !Equivalent(e1, e2) then Pair(e1, e2, 0)
               else Pair(Sym(Unit(op)), Sym(Unit(op)), 1)
  {
    hide Equivalent, EliminateEq, CancelPasses, EliminateYn, Size;
  }

  /** One pass leaves on each side the operands that the other side does not have as often. */
  lemma {:induction false} CancelledOperands(op: BinOp, e1: Expr, e2: Expr)
    requires Cancelled(op, e1) && Cancelled(op, e2)
    ensures var p := CancelCommon(op, e1, e2);
            && Cancelled(op, p.e1) && Cancelled(op, p.e2)
            && Operands(op, p.e1) == Operands(op, e1) - Operands(op, e2)
            && Operands(op, p.e2) == Operands(op, e2) - Operands(op, e1)
    decreases Size(e1) + Size(e2), if AtLevel(op, e1) || AtLevel(op, e2) then 0 else 4
  {
    hide CancelCommon, Cancelled, Operands, Equivalent, FormOf, Pure;
    if AtLevel(op, e1) {
      var p := CancelCommon(op, e1.l, e2);
      var q := CancelCommon(op, e1.r, p.e2);
      OperandsOfLevel(op, e1.l, e1.r);
      CancelledOperands(op, e1.l, e2);
      CancelledOperands(op, e1.r, p.e2);
      OperandsOfLevel(op, p.e1, q.e1);
      CancelLeft(op, e1, e2, p, q);
      DifferenceLeft(Operands(op, e1.l), Operands(op, e1.r), Operands(op, e2));
    } else if AtLevel(op, e2) {
      var p := CancelCommon(op, e1, e2.l);
      var q := CancelCommon(op, p.e1, e2.r);
      OperandsOfLevel(op, e2.l, e2.r);
      CancelledOperands(op, e1, e2.l);
      CancelledOperands(op, p.e1, e2.r);
      OperandsOfLevel(op, p.e2, q.e2);
      CancelRight(op, e1, e2, p, q);
      DifferenceLeft(Operands(op, e2.l), Operands(op, e2.r), Operands(op, e1));
    } else {
      LeafShape(op, e1);
      LeafShape(op, e2);
      if e1 != Sym(Unit(op)) && e2 != Sym(Unit(op)) {
        EquivalentExact(e1, e2);
      }
      CancelLeaves(op, e1, e2);
    }
  }

  lemma LeafShape(op: BinOp, e: Expr)
    requires Cancelled(op, e) && !AtLevel(op, e)
    ensures e != Sym(Unit(op)) ==> Pure(e) && !IsConstLeaf(e)
  {
  }

  /** Two operands: equal ones are cancelled, others stay. */
  lemma CancelLeaves(op: BinOp, e1: Expr, e2: Expr)
    requires Cancelled(op, e1) && Cancelled(op, e2) && !AtLevel(op, e1) && !AtLevel(op, e2)
    requires e1 != Sym(Unit(op)) && e2 != Sym(Unit(op)) ==> (Equivalent(e1, e2) <==> FormOf(e1) == FormOf(e2))
    ensures var p := CancelCommon(op, e1, e2);
            && Cancelled(op, p.e1) && Cancelled(op, p.e2)
            && Operands(op, p.e1) == Operands(op, e1) - Operands(op, e2)
            && Operands(op, p.e2) == Operands(op, e2) - Operands(op, e1)
  {
    hide CancelCommon, Equivalent, FormOf, Pure;
    CancelLeaf(op, e1, e2);
    LeafPair(op, e1, e2);
  }

  /** A cancelled operand equals no other. */
  lemma LeafPair(op: BinOp, e1: Expr, e2: Expr)
    ensures IsConstLeaf(Sym(Unit(op)))
    ensures e1 == Sym(Unit(op)) || e2 == Sym(Unit(op)) ==> (Equivalent(e1, e2) <==> e1 == e2)
  {
  }

  lemma EliminateYnLevel(op: BinOp, l: Expr, r: Expr)
    requires IsConstLeaf(EliminateYn(l)) ==> EliminateYn(l) == Sym(Unit(op))
    requires IsConstLeaf(EliminateYn(r)) ==> EliminateYn(r) == Sym(Unit(op))
    ensures EliminateYn(Bin(op, l, r))
            == if EliminateYn(l) == Sym(Unit(op)) then EliminateYn(r)
               else if EliminateYn(r) == Sym(Unit(op)) then EliminateYn(l)
               else Bin(op, l, r)
  {
    var l', r' := EliminateYn(l), EliminateYn(r);
    var other := Sym(Unit(if op == AndOp then OrOp else AndOp));
    assert IsConstLeaf(other) && other != Sym(Unit(op));
  }

  /** Removing the constants keeps the operands that are left. */
  lemma {:induction false} EliminateYnOperands(op: BinOp, e: Expr)
    requires Cancelled(op, e)
    ensures var r := EliminateYn(e);
            && Cancelled(op, r) && Operands(op, r) == Operands(op, e)
            && (Operands(op, e) == multiset{} <==> r == Sym(Unit(op)))
            && (IsConstLeaf(r) ==> r == Sym(Unit(op)))
  {
    hide FormOf, EliminateYn, Operands, Cancelled, Pure;
    if AtLevel(op, e) {
      OperandsOfLevel(op, e.l, e.r);
      EliminateYnOperands(op, e.l);
      EliminateYnOperands(op, e.r);
      EliminateYnLevel(op, e.l, e.r);
      UnitOperand(op);
    } else {
      EliminateYnLeaf(op, e);
    }
  }

  lemma UnitOperand(op: BinOp)
    ensures Operands(op, Sym(Unit(op))) == multiset{}
  {
  }

  lemma EliminateYnLeaf(op: BinOp, e: Expr)
    requires Cancelled(op, e) && !AtLevel(op, e)
    ensures EliminateYn(e) == e && (Operands(op, e) == multiset{} <==> e == Sym(Unit(op)))
    ensures IsConstLeaf(e) ==> e == Sym(Unit(op))
  {
    hide FormOf;
    if e != Sym(Unit(op)) {
      PureIsClean(e);
      assert FormOf(e) in Operands(op, e);
    }
  }

  lemma Disjoint<T>(a: multiset<T>, b: multiset<T>)
    requires a - b == b - a
    ensures a == b
  {
    forall x
      ensures a[x] == b[x]
    {
      assert (a - b)[x] == (b - a)[x];
    }
  }

  /** Two and/or expressions of one kind compare equal exactly when their operands do. */
  lemma {:induction false} SameLevelExact(op: BinOp, e1: Expr, e2: Expr)
    requires AtLevel(op, e1) && AtLevel(op, e2) && Pure(e1) && Pure(e2)
    ensures Equivalent(e1, e2) <==> Operands(op, e1) == Operands(op, e2)
    decreases Size(e1) + Size(e2), 1
  {
    hide CancelCommon, EliminateYn, Pure, FormOf, Operands;
    PureIsCancelled(op, e1);
    PureIsCancelled(op, e2);
    CancelPassesSameLevel(op, e1, e2);
    CancelledOperands(op, e1, e2);
    var p := CancelCommon(op, e1, e2);
    EliminateYnOperands(op, p.e1);
    EliminateYnOperands(op, p.e2);
    if EliminateYn(p.e1) == EliminateYn(p.e2) {
      Disjoint(Operands(op, e1), Operands(op, e2));
    }
  }

  /** expr_eq compares expressions without constant operands up to grouping and order. */
  lemma {:induction false} EquivalentExact(e1: Expr, e2: Expr)
    requires Pure(e1) && Pure(e2)
    ensures Equivalent(e1, e2) <==> FormOf(e1) == FormOf(e2)
    decreases Size(e1) + Size(e2), 3
  {
    match e1
    case Sym(_) =>
    case Comp(_, _, _) =>
    case Not(x) =>
      if e2.Not? {
        EquivalentExact(x, e2.arg);
      }
    case Bin(op, _, _) =>
      if AtLevel(op, e2) {
        SameLevelExact(op, e1, e2);
      }
  }

  /** So it is an equivalence on them. */
  lemma EquivalentIsEquivalence(e1: Expr, e2: Expr, e3: Expr)
    requires Pure(e1) && Pure(e2) && Pure(e3)
    ensures Equivalent(e1, e1)
    ensures Equivalent(e1, e2) ==> Equivalent(e2, e1)
    ensures Equivalent(e1, e2) && Equivalent(e2, e3) ==> Equivalent(e1, e3)
  {
    hide Equivalent, FormOf, Pure;
    EquivalentExact(e1, e1);
    EquivalentExact(e1, e2);
    EquivalentExact(e2, e1);
    EquivalentExact(e2, e3);
    EquivalentExact(e1, e3);
  }

  /** It counts: `a && (a && b)` and `a && (b && b)` have the same operands, but not equally often. */
  lemma RepeatedOperandExample(a: Symbol, b: Symbol)
    requires a != b && !IsYesNo(a) && !IsYesNo(b)
    ensures !Equivalent(Bin(AndOp, Sym(a), Bin(AndOp, Sym(a), Sym(b))), Bin(AndOp, Sym(a), Bin(AndOp, Sym(b), Sym(b))))
  {
    hide Equivalent, Operands, FormOf;
    var l, r := Bin(AndOp, Sym(a), Sym(b)), Bin(AndOp, Sym(b), Sym(b));
    var x, y := Atom(Sym(a)), Atom(Sym(b));
    SymbolOperand(AndOp, a);
    SymbolOperand(AndOp, b);
    OperandsOfLevel(AndOp, Sym(a), Sym(b));
    OperandsOfLevel(AndOp, Sym(b), Sym(b));
    OperandsOfLevel(AndOp, Sym(a), l);
    OperandsOfLevel(AndOp, Sym(a), r);
    SameLevelExact(AndOp, Bin(AndOp, Sym(a), l), Bin(AndOp, Sym(a), r));
    assert (multiset{x} + (multiset{x} + multiset{y}))[x] == 2 && (multiset{x} + (multiset{y} + multiset{y}))[x] == 1;
  }

  lemma SymbolOperand(op: BinOp, s: Symbol)
    requires !IsYesNo(s)
    ensures Operands(op, Sym(s)) == multiset{Atom(Sym(s))}
  {
  }

  // ----- what expr_eliminate_eq leaves -----

  /** A usable argument: no constant, and no constant operand anywhere. */
  predicate Plain(e: Expr) {
    Pure(e) && !IsConstLeaf(e)
  }

  /** A single operand of the level on the right is cancelled or stays as it is. */
  lemma {:induction false} CancelSingleRight(op: BinOp, e1: Expr, x: Expr)
    requires !AtLevel(op, x) && x != Sym(Unit(op))
    requires Cancelled(op, e1) && Plain(x)
    ensures var p := CancelCommon(op, e1, x);
            if FormOf(x) in Operands(op, e1) then p.e2 == Sym(Unit(op)) && Operands(op, p.e1) == Operands(op, e1) - multiset{FormOf(x)}
            else p.e2 == x && p.e1 == e1
  {
    hide FormOf, Pure, Equivalent, CancelCommon, Operands;
    PureIsCancelled(op, x);
    CancelledOperands(op, e1, x);
    SingleOperand(op, x);
    RightSide(op, e1, x);
    if FormOf(x) !in Operands(op, e1) {
      NothingOnTheLeft(op, e1, x);
    }
  }

  lemma SingleOperand(op: BinOp, x: Expr)
    requires !AtLevel(op, x) && x != Sym(Unit(op))
    ensures Operands(op, x) == multiset{FormOf(x)}
    ensures Operands(op, Sym(Unit(op))) == multiset{}
  {
  }

  lemma {:induction false} RightSide(op: BinOp, e1: Expr, x: Expr)
    requires !AtLevel(op, x) && Cancelled(op, e1) && Cancelled(op, x)
    ensures CancelCommon(op, e1, x).e2 == x || CancelCommon(op, e1, x).e2 == Sym(Unit(op))
    decreases e1
  {
    hide Equivalent, CancelCommon, Cancelled;
    if AtLevel(op, e1) {
      var p := CancelCommon(op, e1.l, x);
      var q := CancelCommon(op, e1.r, p.e2);
      CancelLeft(op, e1, x, p, q);
      OperandsOfLevel(op, e1.l, e1.r);
      UnitCancelled(op);
      RightSide(op, e1.l, x);
      RightSide(op, e1.r, p.e2);
    } else {
      CancelLeaf(op, e1, x);
    }
  }

  lemma UnitCancelled(op: BinOp)
    ensures Cancelled(op, Sym(Unit(op))) && !AtLevel(op, Sym(Unit(op)))
  {
  }

  lemma {:induction false} NothingOnTheLeft(op: BinOp, e1: Expr, x: Expr)
    requires !AtLevel(op, x) && x != Sym(Unit(op)) && Cancelled(op, e1) && Plain(x) && FormOf(x) !in Operands(op, e1)
    ensures CancelCommon(op, e1, x).e1 == e1 && CancelCommon(op, e1, x).e2 == x
    decreases e1
  {
    hide FormOf, Equivalent, CancelCommon, Operands, Pure;
    if AtLevel(op, e1) {
      var p := CancelCommon(op, e1.l, x);
      var q := CancelCommon(op, e1.r, p.e2);
      CancelLeft(op, e1, x, p, q);
      OperandsOfLevel(op, e1.l, e1.r);
      NothingOnTheLeft(op, e1.l, x);
      NothingOnTheLeft(op, e1.r, x);
    } else {
      CancelLeaf(op, e1, x);
      LeafPair(op, e1, x);
      if e1 != Sym(Unit(op)) {
        SingleOperand(op, e1);
        LeafShape(op, e1);
        EquivalentExact(e1, x);
      }
    }
  }

  /** The same for a single operand on the left. */
  lemma {:induction false} CancelSingleLeft(op: BinOp, x: Expr, e2: Expr)
    requires !AtLevel(op, x) && x != Sym(Unit(op))
    requires Cancelled(op, e2) && Plain(x)
    ensures var p := CancelCommon(op, x, e2);
            if FormOf(x) in Operands(op, e2) then p.e1 == Sym(Unit(op)) && Operands(op, p.e2) == Operands(op, e2) - multiset{FormOf(x)}
            else p.e1 == x && p.e2 == e2
  {
    hide FormOf, Pure, Equivalent, CancelCommon, Operands;
    PureIsCancelled(op, x);
    CancelledOperands(op, x, e2);
    SingleOperand(op, x);
    LeftSide(op, x, e2);
    if FormOf(x) !in Operands(op, e2) {
      NothingOnTheRight(op, x, e2);
    }
  }

  lemma {:induction false} LeftSide(op: BinOp, x: Expr, e2: Expr)
    requires !AtLevel(op, x) && Cancelled(op, x) && Cancelled(op, e2)
    ensures CancelCommon(op, x, e2).e1 == x || CancelCommon(op, x, e2).e1 == Sym(Unit(op))
    decreases e2
  {
    hide Equivalent, CancelCommon, Cancelled;
    if AtLevel(op, e2) {
      var p := CancelCommon(op, x, e2.l);
      var q := CancelCommon(op, p.e1, e2.r);
      CancelRight(op, x, e2, p, q);
      OperandsOfLevel(op, e2.l, e2.r);
      UnitCancelled(op);
      LeftSide(op, x, e2.l);
      LeftSide(op, p.e1, e2.r);
    } else {
      CancelLeaf(op, x, e2);
    }
  }

  lemma {:induction false} NothingOnTheRight(op: BinOp, x: Expr, e2: Expr)
    requires !AtLevel(op, x) && x != Sym(Unit(op)) && Cancelled(op, e2) && Plain(x) && FormOf(x) !in Operands(op, e2)
    ensures CancelCommon(op, x, e2).e1 == x && CancelCommon(op, x, e2).e2 == e2
    decreases e2
  {
    hide FormOf, Equivalent, CancelCommon, Operands, Pure;
    if AtLevel(op, e2) {
      var p := CancelCommon(op, x, e2.l);
      var q := CancelCommon(op, p.e1, e2.r);
      CancelRight(op, x, e2, p, q);
      OperandsOfLevel(op, e2.l, e2.r);
      NothingOnTheRight(op, x, e2.l);
      NothingOnTheRight(op, x, e2.r);
    } else {
      CancelLeaf(op, x, e2);
      LeafPair(op, x, e2);
      if e2 != Sym(Unit(op)) {
        SingleOperand(op, e2);
        LeafShape(op, e2);
        EquivalentExact(x, e2);
      }
    }
  }

  /** `x` is one operand of the level `op`, which `e` has. */
  predicate IsOperand(op: BinOp, x: Expr, e: Expr) {
    AtLevel(op, e) && !AtLevel(op, x) && FormOf(x) in Operands(op, e)
  }

  lemma KeepsPlain(e: Expr)
    requires Plain(e)
    ensures EliminateYn(e) == e
  {
    hide EliminateYn;
    PureIsClean(e);
  }

  /** Two expressions of one level keep the operands that the other does not have as often. */
  lemma EliminateEqSameLevel(op: BinOp, e1: Expr, e2: Expr)
    requires Plain(e1) && Plain(e2) && AtLevel(op, e1) && AtLevel(op, e2)
    ensures var p := EliminateEq(e1, e2);
            && Operands(op, p.e1) == Operands(op, e1) - Operands(op, e2)
            && Operands(op, p.e2) == Operands(op, e2) - Operands(op, e1)
            && (Operands(op, e2) <= Operands(op, e1) <==> p.e2 == Sym(Unit(op)))
            && (IsConstLeaf(p.e2) ==> p.e2 == Sym(Unit(op)))
  {
    hide CancelCommon, EliminateYn, Pure, FormOf, Operands;
    PureIsCancelled(op, e1);
    PureIsCancelled(op, e2);
    CancelPassesSameLevel(op, e1, e2);
    CancelledOperands(op, e1, e2);
    var p := CancelCommon(op, e1, e2);
    EliminateYnOperands(op, p.e1);
    EliminateYnOperands(op, p.e2);
    NoneLeft(Operands(op, e1), Operands(op, e2));
  }

  lemma NoneLeft<T>(a: multiset<T>, b: multiset<T>)
    ensures b <= a <==> b - a == multiset{}
  {
    if b - a == multiset{} {
      forall x
        ensures b[x] <= a[x]
      {
        assert (b - a)[x] == 0;
      }
    }
  }

  /** An expression that is one operand of the other is taken off it, and becomes the unit of that level. */
  lemma EliminateEqOperandRight(op: BinOp, e1: Expr, e2: Expr)
    requires Plain(e1) && Plain(e2) && IsOperand(op, e2, e1)
    ensures var p := EliminateEq(e1, e2);
            p.e2 == Sym(Unit(op)) && Operands(op, p.e1) == Operands(op, e1) - multiset{FormOf(e2)}
  {
    hide CancelCommon, EliminateYn, Pure, FormOf, Operands;
    PureIsCancelled(op, e1);
    PureIsCancelled(op, e2);
    CancelSingleRight(op, e1, e2);
    CancelledOperands(op, e1, e2);
    var p := CancelCommon(op, e1, e2);
    EliminateYnOperands(op, p.e1);
    EliminateYnOperands(op, p.e2);
    SingleOperand(op, e2);
  }

  lemma EliminateEqOperandLeft(op: BinOp, e1: Expr, e2: Expr)
    requires Plain(e1) && Plain(e2) && IsOperand(op, e1, e2) && !(e1.Bin? && IsOperand(e1.op, e2, e1))
    ensures var p := EliminateEq(e1, e2);
            && p.e1 == Sym(Unit(op)) && Operands(op, p.e2) == Operands(op, e2) - multiset{FormOf(e1)}
            && !(op == AndOp && p.e2 == Sym(SymYes)) && (IsConstLeaf(p.e2) ==> p.e2 == Sym(Unit(op)))
  {
    hide CancelCommon, EliminateYn, Pure, FormOf, Operands;
    PureIsCancelled(op, e2);
    if e1.Bin? {
      PureIsCancelled(e1.op, e1);
      CancelSingleRight(e1.op, e1, e2);
    }
    CancelSingleLeft(op, e1, e2);
    PureIsCancelled(op, e1);
    CancelledOperands(op, e1, e2);
    var p := CancelCommon(op, e1, e2);
    EliminateYnOperands(op, p.e1);
    EliminateYnOperands(op, p.e2);
    SingleOperand(op, e1);
    AtLeastTwo(op, e2);
  }

  lemma AtLeastTwo(op: BinOp, e: Expr)
    requires Plain(e) && AtLevel(op, e)
    ensures |Operands(op, e)| >= 2
  {
    hide FormOf, Operands;
    OperandsOfLevel(op, e.l, e.r);
    PureIsCancelled(op, e.l);
    PureIsCancelled(op, e.r);
  }

  /** A constant has nothing in common with an expression without constants. */
  lemma {:induction false} ConstantStays(op: BinOp, e: Expr, c: Expr)
    requires Plain(e) && IsConstLeaf(c)
    ensures CancelCommon(op, e, c).e1 == e && CancelCommon(op, e, c).e2 == c
  {
    hide CancelCommon;
    if AtLevel(op, e) {
      ConstantStays(op, e.l, c);
      ConstantStays(op, e.r, c);
      CancelLeft(op, e, c, CancelCommon(op, e.l, c), CancelCommon(op, e.r, c));
    } else {
      CancelLeaf(op, e, c);
    }
  }

  lemma EliminateEqConstant(e: Expr, c: Expr)
    requires Plain(e) && IsConstLeaf(c)
    ensures EliminateEq(e, c).e2 == c
  {
    hide CancelCommon, Pure;
    if e.Bin? {
      ConstantStays(e.op, e, c);
    }
  }

  /** Otherwise nothing is in common. */
  lemma EliminateEqNothing(e1: Expr, e2: Expr)
    requires Plain(e1) && Plain(e2)
    requires !(e1.Bin? && AtLevel(e1.op, e2))
    requires !(e1.Bin? && IsOperand(e1.op, e2, e1)) && !(e2.Bin? && IsOperand(e2.op, e1, e2))
    ensures EliminateEq(e1, e2).e1 == e1 && EliminateEq(e1, e2).e2 == e2
  {
    hide CancelCommon, EliminateYn, Pure, FormOf, Operands;
    KeepsPlain(e1);
    KeepsPlain(e2);
    if e1.Bin? {
      PureIsCancelled(e1.op, e1);
      CancelSingleRight(e1.op, e1, e2);
    }
    if e2.Bin? {
      PureIsCancelled(e2.op, e2);
      CancelSingleLeft(e2.op, e1, e2);
    }
  }

  /** When the second expression is cancelled altogether, as a conjunction that is always met. */
  lemma SecondVanishes(e1: Expr, e2: Expr)
    requires Plain(e1) && Plain(e2)
    ensures EliminateEq(e1, e2).e2 == Sym(SymYes) <==> AtLevel(AndOp, e1) && Operands(AndOp, e2) <= Operands(AndOp, e1)
  {
    hide EliminateEq, Operands, FormOf, Pure;
    if e1.Bin? && AtLevel(e1.op, e2) {
      EliminateEqSameLevel(e1.op, e1, e2);
    } else if e1.Bin? && IsOperand(e1.op, e2, e1) {
      EliminateEqOperandRight(e1.op, e1, e2);
      SingleOperand(e1.op, e2);
    } else {
      if e2.Bin? && IsOperand(e2.op, e1, e2) {
        EliminateEqOperandLeft(e2.op, e1, e2);
      } else {
        EliminateEqNothing(e1, e2);
      }
      if AtLevel(AndOp, e1) {
        NotASubset(e1, e2);
      }
    }
  }

  lemma NotASubset(e1: Expr, e2: Expr)
    requires AtLevel(AndOp, e1) && Plain(e2) && !AtLevel(AndOp, e2) && !IsOperand(AndOp, e2, e1)
    ensures !(Operands(AndOp, e2) <= Operands(AndOp, e1))
  {
    hide Operands, FormOf, Pure;
    SingleOperand(AndOp, e2);
    assert FormOf(e2) in Operands(AndOp, e2);
  }
}
