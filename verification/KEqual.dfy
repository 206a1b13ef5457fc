/** When expr_eq says yes to two AND or two OR expressions (support/kconfig/expr.c:150-249): exactly if their operands
    are the same up to order. */
module KEqual {
  import opened KExpr
  import opened KTransform
  import opened KEliminate
  import opened KDups
  import opened KComplete
  import opened KContradict

  /** The operands other than the unit. */
  function Live(op: Op, e: Expr): nat {
    if IsOp(e, op) then Live(op, e.left) + Live(op, e.right) else if e == Sym(Unit(op)) then 0 else 1
  }

  /** The elimination takes as many operands from the one side as from the other. */
  lemma {:induction false} ElimEqCounts(op: Op, e1: Expr, e2: Expr)
    ensures var r := ElimEq(op, e1, e2); Live(op, e1) + Live(op, r.snd) == Live(op, e2) + Live(op, r.fst)
    decreases Size(e1) + Size(e2)
  {
    if IsOp(e1, op) {
      ElimEqCounts(op, e1.left, e2);
      ElimEqCounts(op, e1.right, ElimEq(op, e1.left, e2).snd);
    } else if IsOp(e2, op) {
      ElimEqCounts(op, e1, e2.left);
      ElimEqCounts(op, ElimEq(op, e1, e2.left).fst, e2.right);
    } else if ExprEq(e1, e2) && (IsYn(e1) || IsYn(e2)) {
      EqualToYn(e1, e2);
    }
  }

  lemma {:induction false} LiveIsAll(op: Op, e: Expr)
    requires YnFree(op, e)
    ensures Live(op, e) == |Operands(op, e)|
  {
    if IsOp(e, op) {
      YnFreeParts(op, e);
      LiveIsAll(op, e.left);
      LiveIsAll(op, e.right);
    } else {
      assert e in Operands(op, e);
    }
  }

  lemma YnFreeParts(op: Op, e: Expr)
    requires YnFree(op, e) && IsOp(e, op)
    ensures YnFree(op, e.left) && YnFree(op, e.right)
  {
    assert forall x :: x in Operands(op, e.left) || x in Operands(op, e.right) ==> x in Operands(op, e);
  }

  lemma {:induction false} LiveIsNone(op: Op, e: Expr)
    ensures Live(op, e) == 0 <==> forall x :: x in Operands(op, e) ==> x == Sym(Unit(op))
  {
    if IsOp(e, op) {
      assert forall x :: x in Operands(op, e) <==> x in Operands(op, e.left) || x in Operands(op, e.right);
      LiveIsNone(op, e.left);
      LiveIsNone(op, e.right);
    } else {
      assert e in Operands(op, e);
    }
  }

  /** The operands are units, or have no y or n in them. */
  predicate UnitOrFree(op: Op, e: Expr) {
    forall x :: x in Operands(op, e) ==> x == Sym(Unit(op)) || (!IsYn(x) && !HasYn(x))
  }

  /** A symbol to which such an expression shrinks is one of its operands, unless it is the unit. */
  lemma {:induction false} SymbolRemains(op: Op, e: Expr, s: Symbol)
    requires UnitOrFree(op, e) && EliminateYn(e) == Sym(s) && s != Unit(op)
    ensures Sym(s) in Operands(op, e)
  {
    if IsOp(e, op) {
      assert forall x :: x in Operands(op, e.left) || x in Operands(op, e.right) ==> x in Operands(op, e);
      if EliminateYn(e.left) == Sym(s) {
        SymbolRemains(op, e.left, s);
      } else {
        SymbolRemains(op, e.right, s);
      }
    } else {
      assert e in Operands(op, e);
      EliminateYnShrinks(e);
    }
  }

  lemma {:induction false} AllGone(op: Op, e: Expr)
    requires UnitOrFree(op, e) && EliminateYn(e) == Sym(Unit(op))
    ensures Live(op, e) == 0
  {
    forall x | x in Operands(op, e) ensures x == Sym(Unit(op)) {
      UnitMeansAllUnits(op, e, x);
      EliminateYnShrinks(x);
    }
    LiveIsNone(op, e);
  }

  lemma SameOp(op: Op, e1: Expr, e2: Expr)
    requires IsOp(e1, op) && IsOp(e2, op)
    ensures var r := ElimEq(op, e1, e2); EliminateEq(e1, e2) == Rest(EliminateYn(r.fst), EliminateYn(r.snd))
  {
  }

  /** If the answer is yes, the elimination has taken everything away. */
  lemma EqualTakesAll(op: Op, e1: Expr, e2: Expr)
    requires IsOp(e1, op) && IsOp(e2, op) && YnFree(op, e1) && YnFree(op, e2) && ExprEq(e1, e2)
    ensures var r := ElimEq(op, e1, e2); Live(op, r.fst) == 0 && Live(op, r.snd) == 0
  {
    var r := ElimEq(op, e1, e2);
    SameOp(op, e1, e2);
    ElimEqOperands(op, e1, e2);
    var s := EliminateYn(r.fst).s;
    if s == Unit(op) {
      AllGone(op, r.fst);
      AllGone(op, r.snd);
    } else {
      SymbolRemains(op, r.fst, s);
      SymbolRemains(op, r.snd, s);
      ElimEqComplete(op, e1, e2, Sym(s), Sym(s));
      assert false;
    }
  }

  ghost predicate HasEqual(xs: seq<Expr>, y: Expr) {
    exists x :: x in xs && ExprEq(x, y)
  }

  /** Two AND, or two OR, expressions without constants are equal if and only if they have the same number of operands
      and each operand of the second has an equal one in the first. */
  lemma ExprEqExactly(op: Op, e1: Expr, e2: Expr)
    requires IsOp(e1, op) && IsOp(e2, op) && YnFree(op, e1) && YnFree(op, e2)
    requires MatchOnce(Operands(op, e1), Operands(op, e2))
    ensures ExprEq(e1, e2) <==>
            && |Operands(op, e1)| == |Operands(op, e2)|
            && forall y :: y in Operands(op, e2) ==> HasEqual(Operands(op, e1), y)
  {
    if ExprEq(e1, e2) {
      EqualOperands(op, e1, e2);
    }
    if |Operands(op, e1)| == |Operands(op, e2)| && forall y :: y in Operands(op, e2) ==> HasEqual(Operands(op, e1), y) {
      OperandsEqual(op, e1, e2);
    }
  }

  lemma UnmatchedStays(op: Op, e1: Expr, e2: Expr, y: Expr)
    requires y in Operands(op, e2) && forall x :: x in Operands(op, e1) ==> !Matches(x, y)
    ensures y in Operands(op, ElimEq(op, e1, e2).snd)
  {
    var ys := Operands(op, e2);
    var i :| 0 <= i < |ys| && ys[i] == y;
    OperandFacts(op, e1);
    OperandFacts(op, e2);
    ElimEqIsAllAgainst(op, e1, e2);
    NotTaken(op, Operands(op, e1), ys, i);
  }

  lemma EqualOperands(op: Op, e1: Expr, e2: Expr)
    requires IsOp(e1, op) && IsOp(e2, op) && YnFree(op, e1) && YnFree(op, e2) && ExprEq(e1, e2)
    ensures |Operands(op, e1)| == |Operands(op, e2)|
    ensures forall y :: y in Operands(op, e2) ==> HasEqual(Operands(op, e1), y)
  {
    var r := ElimEq(op, e1, e2);
    var xs, ys := Operands(op, e1), Operands(op, e2);
    EqualTakesAll(op, e1, e2);
    ElimEqCounts(op, e1, e2);
    LiveIsAll(op, e1);
    LiveIsAll(op, e2);
    LiveIsNone(op, r.snd);
    forall y | y in ys ensures HasEqual(xs, y) {
      if forall x :: x in xs ==> !Matches(x, y) {
        UnmatchedStays(op, e1, e2, y);
      }
    }
  }

  lemma OperandsEqual(op: Op, e1: Expr, e2: Expr)
    requires IsOp(e1, op) && IsOp(e2, op) && YnFree(op, e1) && YnFree(op, e2)
    requires MatchOnce(Operands(op, e1), Operands(op, e2)) && |Operands(op, e1)| == |Operands(op, e2)|
    requires forall y :: y in Operands(op, e2) ==> HasEqual(Operands(op, e1), y)
    ensures ExprEq(e1, e2)
  {
    var r := ElimEq(op, e1, e2);
    var xs, ys := Operands(op, e1), Operands(op, e2);
    forall y | y in ys ensures UnitOrMatched(op, xs, y) {
      var x :| x in xs && ExprEq(x, y);
      assert Matches(x, y);
    }
    OperandFacts(op, e1);
    OperandFacts(op, e2);
    AllTaken(op, xs, ys);
    ElimEqIsAllAgainst(op, e1, e2);
    LiveIsNone(op, r.snd);
    ElimEqCounts(op, e1, e2);
    LiveIsAll(op, e1);
    LiveIsAll(op, e2);
    LiveIsNone(op, r.fst);
    AllUnits(op, r.fst);
    AllUnits(op, r.snd);
    SameOp(op, e1, e2);
  }

  lemma TwoOperands(op: Op, a: Expr, b: Expr)
    requires !IsOp(a, op) && !IsOp(b, op)
    ensures Operands(op, Bin(op, a, b)) == [a, b]
  {
    assert Operands(op, a) == [a] && Operands(op, b) == [b];
  }

  /** The order of two different operands does not matter. */
  lemma OrderDoesNotMatter(op: Op, a: Expr, b: Expr)
    requires YnFree(op, Bin(op, a, b)) && !IsOp(a, op) && !IsOp(b, op) && !ExprEq(a, b) && !ExprEq(b, a)
    ensures ExprEq(Bin(op, a, b), Bin(op, b, a))
  {
    var e1, e2 := Bin(op, a, b), Bin(op, b, a);
    TwoOperands(op, a, b);
    TwoOperands(op, b, a);
    ExprEqReflexive(a);
    ExprEqReflexive(b);
    ExprEqExactly(op, e1, e2);
  }
}
