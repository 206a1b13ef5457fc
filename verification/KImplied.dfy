/** Exactly when the submenu test of menu_finalize is wrong (support/kconfig/menu.c:339-358): the test compares simplified
    conditions, and what it makes of the condition of an entry may be n where the condition is m. */
module KImplied {
  import opened KExpr
  import opened KTransform
  import opened KEliminate
  import opened KDups
  import opened KComplete
  import opened KMenu

  // ---------------------------------------------------------------------------------------------------------
  // What comparison with n makes of an expression
  // ---------------------------------------------------------------------------------------------------------

  /** Built from comparisons and boolean symbols, with negation only of the latter. */
  predicate Pushed(e: Expr) {
    match e
    case Bin(_, l, r) => Pushed(l) && Pushed(r)
    case Not(x) => x.Sym? && x.s.Type() == Boolean
    case Cmp(_, l, r) => !(l.Type() == Boolean && r.IsYmn())
    case Sym(s) => s.Type() == Boolean
  }

  /** The test `e != n`, before duplicates are removed. */
  function RawNotN(e: Expr): Expr {
    Transform(TransCompare(e, false, No))
  }

  lemma {:induction false} NegationIsPushed(e: Expr)
    requires Pushed(e)
    ensures Pushed(Transform(Not(e)))
  {
    PushedIsNormal(e);
    NormalIsFixed(e);
    match e
    case Bin(op, l, r) =>
      NegationIsPushed(l);
      NegationIsPushed(r);
      DeMorgan(op, l, r);
    case Not(_) =>
    case Cmp(_, _, _) =>
    case Sym(_) =>
  }

  lemma {:induction false} PushedIsNormal(e: Expr)
    requires Pushed(e)
    ensures Normal(e)
  {
    match e
    case Bin(_, l, r) =>
      PushedIsNormal(l);
      PushedIsNormal(r);
    case Not(_) =>
    case Cmp(_, _, _) =>
    case Sym(_) =>
  }

  lemma DeMorgan(op: Op, l: Expr, r: Expr)
    requires Transform(Bin(op, l, r)) == Bin(op, l, r)
    ensures Transform(Not(Bin(op, l, r))) == Bin(Dual(op), Transform(Not(l)), Transform(Not(r)))
  {
  }

  /** Pushing the comparison down gives such an expression. */
  lemma {:induction false} PushedOf(e: Expr)
    requires Normal(e) && WellTyped(e)
    ensures Pushed(Transform(TransCompare(e, true, No))) && Pushed(RawNotN(e))
  {
    match e
    case Bin(op, l, r) =>
      PushedOf(l);
      PushedOf(r);
      var both := Bin(Dual(op), TransCompare(l, true, No), TransCompare(r, true, No));
      TransformIdempotent(both);
      assert Pushed(Transform(both));
      NegationIsPushed(Transform(both));
      TransformOfNot(both);
    case Not(x) =>
      NotOfSymbol(x.s);
      LeafPushed(x.s, true);
      LeafPushed(x.s, false);
    case Cmp(_, _, _) =>
      NegationIsPushed(e);
    case Sym(x) =>
      LeafPushed(x, true);
      LeafPushed(x, false);
  }

  lemma NotOfSymbol(x: Symbol)
    ensures TransCompare(Not(Sym(x)), true, No) == Cmp(false, x, No)
    ensures TransCompare(Not(Sym(x)), false, No) == Cmp(true, x, No)
  {
    assert TransCompare(Sym(x), false, No) == Cmp(false, x, No) && TransCompare(Sym(x), true, No) == Cmp(true, x, No);
  }

  lemma LeafPushed(x: Symbol, equal: bool)
    ensures Pushed(Transform(Cmp(equal, x, No)))
  {
  }

  /** Negation looks only at what the operand is transformed into. */
  lemma TransformOfNot(x: Expr)
    ensures Transform(Not(x)) == Transform(Not(Transform(x)))
  {
    TransformIdempotent(x);
  }

  /** And such an expression is its own test. */
  lemma {:induction false} PushedIsFixed(e: Expr)
    requires Pushed(e)
    ensures RawNotN(e) == e && Transform(TransCompare(e, true, No)) == Transform(Not(e))
  {
    PushedIsNormal(e);
    NormalIsFixed(e);
    match e
    case Bin(op, l, r) =>
      PushedIsFixed(l);
      PushedIsFixed(r);
      var both := Bin(Dual(op), TransCompare(l, true, No), TransCompare(r, true, No));
      DeMorgan(op, l, r);
      assert Transform(both) == Transform(Not(e));
      TransformOfNot(both);
      TwiceNegated(e);
    case Not(x) =>
      NotOfSymbol(x.s);
    case Cmp(_, _, _) =>
    case Sym(_) =>
  }

  lemma {:induction false} TwiceNegated(e: Expr)
    requires Pushed(e)
    ensures Transform(Not(Transform(Not(e)))) == e
  {
    PushedIsNormal(e);
    NormalIsFixed(e);
    match e
    case Bin(op, l, r) =>
      TwiceNegated(l);
      TwiceNegated(r);
      DeMorgan(op, l, r);
      TransformIdempotent(Not(l));
      TransformIdempotent(Not(r));
      DeMorgan(Dual(op), Transform(Not(l)), Transform(Not(r)));
    case Not(_) =>
    case Cmp(_, _, _) =>
    case Sym(_) =>
  }

  // ---------------------------------------------------------------------------------------------------------
  // What is left after the elimination
  // ---------------------------------------------------------------------------------------------------------

  /** No operand is y. */
  predicate YesFree(e: Expr) {
    e != Sym(Yes) && (e.Bin? ==> YesFree(e.left) && YesFree(e.right))
  }

  lemma {:induction false} PushedIsYnFree(e: Expr)
    requires Pushed(e)
    ensures !IsYn(e) && !HasYn(e)
  {
    if e.Bin? {
      PushedIsYnFree(e.left);
      PushedIsYnFree(e.right);
    }
  }

  lemma {:induction false} YnFreeIsYesFree(e: Expr)
    requires e != Sym(Yes) && !HasYn(e)
    ensures YesFree(e)
  {
    if e.Bin? {
      YnFreeIsYesFree(e.left);
      YnFreeIsYesFree(e.right);
    }
  }

  lemma {:induction false} DupsYnFree(e: Expr)
    requires !HasYn(e)
    ensures !HasYn(EliminateDups(e))
    decreases Size(e)
  {
    var r := BothPasses(e);
    BothPassesShape(e);
    if r.n > 0 {
      TurnShrinks(e);
      EliminateYnShrinks(r.e);
      DupsYnFree(EliminateYn(r.e));
    }
  }

  /** The simplified test is n or y, or has no operand n or y. */
  lemma NotNShape(e: Option<Expr>)
    requires WellTypedOpt(e) && NormalOpt(e)
    ensures !HasYn(NotN(e))
  {
    if e.Some? {
      PushedOf(e.value);
      PushedIsYnFree(RawNotN(e.value));
    }
    DupsYnFree(Transform(TransCompareOpt(e, false, No)));
  }

  lemma {:induction false} YesFreeStays(e: Expr)
    requires YesFree(e)
    ensures EliminateYn(e) != Sym(Yes)
  {
    if e.Bin? {
      YesFreeStays(e.left);
      YesFreeStays(e.right);
    }
  }

  /** Elimination under OR leaves no y. */
  lemma {:induction false} OrLeavesNoYes(x: Expr, e: Expr)
    requires YesFree(e)
    ensures YesFree(ElimEq(Or, x, e).snd)
    decreases Size(x) + Size(e)
  {
    if IsOp(x, Or) {
      OrLeavesNoYes(x.left, e);
      OrLeavesNoYes(x.right, ElimEq(Or, x.left, e).snd);
    } else if IsOp(e, Or) {
      OrLeavesNoYes(x, e.left);
      OrLeavesNoYes(ElimEq(Or, x, e.left).fst, e.right);
    }
  }

  /** What is not a conjunction itself takes at most one operand out of a conjunction. */
  lemma {:induction false} OnlyOneGoes(x: Expr, e: Expr)
    requires !IsOp(x, And) && YesFree(e)
    ensures var r := ElimEq(And, x, e); r == Rest(x, e) || r.fst == Sym(Yes)
    ensures IsOp(e, And) ==> EliminateYn(ElimEq(And, x, e).snd) != Sym(Yes)
    decreases Size(e)
  {
    if IsOp(e, And) {
      var a := ElimEq(And, x, e.left);
      var b := ElimEq(And, a.fst, e.right);
      OnlyOneGoes(x, e.left);
      OnlyOneGoes(a.fst, e.right);
      YesFreeStays(e.left);
      YesFreeStays(e.right);
      if a != Rest(x, e.left) {
        YesMatchesNothing(e.right);
      }
      assert ElimEq(And, x, e).snd == Bin(And, a.snd, b.snd);
    }
  }

  lemma {:induction false} YesMatchesNothing(e: Expr)
    requires YesFree(e)
    ensures ElimEq(And, Sym(Yes), e) == Rest(Sym(Yes), e)
    decreases Size(e)
  {
    if IsOp(e, And) {
      YesMatchesNothing(e.left);
      YesMatchesNothing(e.right);
    }
  }

  /** So y is left only of y, or for a conjunction. */
  lemma OnlyForConjunctions(x: Expr, e: Expr)
    requires !IsOp(x, And) && YesFree(e)
    ensures EliminateEq(x, e).snd != Sym(Yes)
  {
    var p := FirstPhase(x, e);
    var q := SecondPhase(p.fst, p.snd);
    if x.Bin? {
      OrLeavesNoYes(x, e);
    }
    assert YesFree(p.snd) && !IsOp(p.fst, And);
    YesFreeStays(p.snd);
    if p.snd.Bin? && !IsOp(p.fst, p.snd.op) {
      if p.snd.op == Or {
        OrLeavesNoYes(p.fst, p.snd);
        YesFreeStays(q.snd);
      } else {
        OnlyOneGoes(p.fst, p.snd);
      }
    }
  }

  /** A conjunction without operands n and y is eliminated by itself. */
  lemma ConjunctionGoes(e: Expr)
    requires IsOp(e, And) && !HasYn(e)
    ensures EliminateEq(e, e).snd == Sym(Yes)
  {
    forall o | o in Operands(And, e) ensures ExprEq(o, o) {
      ExprEqReflexive(o);
    }
    NoOperandIsNo(e);
    ElimEqSelf(And, e);
    var r := ElimEq(And, e, e);
    YnOnly(And, r.snd);
    AllYesSecond(r.fst, r.snd);
    assert FirstPhase(e, e) == r;
  }

  lemma {:induction false} NoOperandIsNo(e: Expr)
    requires e != Sym(No) && !HasYn(e)
    ensures Sym(No) !in Operands(And, e)
  {
    if IsOp(e, And) {
      NoOperandIsNo(e.left);
      NoOperandIsNo(e.right);
    }
  }

  // ---------------------------------------------------------------------------------------------------------
  // When the test is wrong
  // ---------------------------------------------------------------------------------------------------------

  /** The test succeeds, and the entry is visible while the parent is not. */
  predicate Misplaced(parent: Option<Expr>, dep: Option<Expr>, c: Cfg) {
    && WellTypedOpt(parent) && NormalOpt(parent)
    && Implied(parent, dep) && EvalOpt(dep, c) != NO && EvalOpt(parent, c) == NO
  }

  /** For some parent the test is wrong if and only if the entry's condition goes unnoticed and its test is a
      conjunction; such a parent is the test itself, before duplicates are removed. */
  lemma ImpliedFailsExactly(dep: Option<Expr>, c: Cfg)
    requires WellTypedOpt(dep) && NormalOpt(dep)
    ensures (exists parent :: Misplaced(parent, dep, c)) <==> !Noticed(dep, c) && IsOp(NotN(dep), And)
  {
    if parent :| Misplaced(parent, dep, c) {
      if Noticed(dep, c) {
        ImpliedIsSound(parent, dep, c);
      }
      if !IsOp(NotN(dep), And) {
        TrivialParent(parent, dep, c);
      }
    }
    if !Noticed(dep, c) && IsOp(NotN(dep), And) {
      FailingParent(dep, c);
    }
  }

  lemma TrivialParent(parent: Option<Expr>, dep: Option<Expr>, c: Cfg)
    requires WellTypedOpt(parent) && NormalOpt(parent) && Implied(parent, dep) && !IsOp(NotN(dep), And)
    ensures EvalOpt(parent, c) != NO
  {
    NotNShape(parent);
    if NotN(parent) != Sym(Yes) {
      YnFreeIsYesFree(NotN(parent));
      OnlyForConjunctions(NotN(dep), NotN(parent));
    }
    NotNBelow(parent, c);
  }

  lemma FailingParent(dep: Option<Expr>, c: Cfg)
    requires WellTypedOpt(dep) && NormalOpt(dep) && !Noticed(dep, c) && IsOp(NotN(dep), And)
    ensures dep.Some? && Misplaced(Some(RawNotN(dep.value)), dep, c)
  {
    if dep.None? {
      NotNBelow(dep, c);
      NotNExact(dep, c);
    } else {
      var raw := RawNotN(dep.value);
      PushedOf(dep.value);
      PushedIsFixed(raw);
      PushedIsNormal(raw);
      PushedIsWellTyped(raw);
      assert NotN(Some(raw)) == EliminateDups(raw) == NotN(dep);
      NotNShape(dep);
      ConjunctionGoes(NotN(dep));
      RawIsExact(dep.value, c);
    }
  }

  lemma {:induction false} PushedIsWellTyped(e: Expr)
    requires Pushed(e)
    ensures WellTyped(e)
  {
    if e.Bin? {
      PushedIsWellTyped(e.left);
      PushedIsWellTyped(e.right);
    }
  }

  lemma RawIsExact(e: Expr, c: Cfg)
    requires WellTyped(e)
    ensures Eval(RawNotN(e), c) == Eval(NotN(Some(e)), c)
  {
    PushedOpposite(e, c);
    TransformKeepsValue(TransCompare(e, false, No), c);
    EliminateDupsRefines(RawNotN(e), c);
  }

  // ---------------------------------------------------------------------------------------------------------
  // Which entries belong
  // ---------------------------------------------------------------------------------------------------------

  lemma NoOperands(op: Op, e: Expr)
    ensures NoneOf(op, Operands(op, e))
  {
    OperandFacts(op, e);
  }

  /** For a conjunction d: elimination leaves y of p if and only if each operand of p equals one of d. */
  lemma EliminatedExactly(d: Expr, p: Expr)
    requires IsOp(d, And) && !IsYn(p) && !HasYn(p) && MatchOnce(Operands(And, d), Operands(And, p))
    ensures EliminateEq(d, p).snd == Sym(Yes) <==>
            forall y :: y in Operands(And, p) ==> exists x :: x in Operands(And, d) && ExprEq(x, y)
  {
    var xs, ys, r := Operands(And, d), Operands(And, p), ElimEq(And, d, p);
    NoOperands(And, d);
    NoOperands(And, p);
    ElimEqIsAllAgainst(And, d, p);
    OperandsYnFree(And, p);
    if forall y :: y in ys ==> exists x :: x in xs && ExprEq(x, y) {
      forall y | y in ys ensures UnitOrMatched(And, xs, y) {
        var x :| x in xs && ExprEq(x, y);
        assert Matches(x, y);
      }
      AllTaken(And, xs, ys);
      YnOnly(And, r.snd);
      AllYesSecond(r.fst, r.snd);
    }
    if y :| y in ys && forall x :: x in xs ==> !ExprEq(x, y) {
      var i :| 0 <= i < |ys| && ys[i] == y;
      NotTaken(And, xs, ys, i);
      OperandStays(d, p, y);
    }
  }

  lemma {:induction false} OperandsYnFree(op: Op, e: Expr)
    requires !IsYn(e) && !HasYn(e)
    ensures forall x :: x in Operands(op, e) ==> !IsYn(x) && !HasYn(x)
  {
    if IsOp(e, op) {
      OperandsYnFree(op, e.left);
      OperandsYnFree(op, e.right);
    }
  }

  /** An operand that is left keeps the rest from being y. */
  lemma OperandStays(d: Expr, p: Expr, y: Expr)
    requires IsOp(d, And) && y in Operands(And, p) && y in Operands(And, ElimEq(And, d, p).snd)
    requires !IsYn(y) && !HasYn(y) && !IsYn(p) && !HasYn(p)
    ensures EliminateEq(d, p).snd != Sym(Yes)
  {
    var r := ElimEq(And, d, p);
    var q := SecondPhase(r.fst, r.snd);
    assert FirstPhase(d, p) == r;
    EliminateYnShrinks(y);
    if IsOp(r.snd, Or) {
      ElimEqOperands(And, d, p);
      assert r.snd in Operands(And, r.snd);
      assert r.snd == y;
      YnFreeIsYesFree(y);
      OrLeavesNoYes(r.fst, r.snd);
      YesFreeStays(q.snd);
    } else {
      assert q == r;
      YesMeansAllYes(r.snd, y);
    }
  }

  lemma {:induction false} YesMeansAllYes(e: Expr, x: Expr)
    requires x in Operands(And, e)
    ensures EliminateYn(e) == Sym(Yes) ==> EliminateYn(x) == Sym(Yes)
  {
    if IsOp(e, And) {
      if x in Operands(And, e.left) {
        YesMeansAllYes(e.left, x);
      } else {
        YesMeansAllYes(e.right, x);
      }
    }
  }

  /** Elimination leaves y alone. */
  lemma YesIsImplied(x: Expr)
    ensures EliminateEq(x, Sym(Yes)).snd == Sym(Yes)
  {
    if x.Bin? {
      YesStays(x.op, x);
    }
    assert FirstPhase(x, Sym(Yes)).snd == Sym(Yes);
  }

  lemma {:induction false} YesStays(op: Op, x: Expr)
    ensures ElimEq(op, x, Sym(Yes)).snd == Sym(Yes)
  {
    if IsOp(x, op) {
      YesStays(op, x.left);
      YesStays(op, x.right);
    } else if ExprEq(x, Sym(Yes)) {
      EqualToYn(x, Sym(Yes));
    }
  }

  /** When the test succeeds: if the simplified test of the parent is y; or if that of the entry is a conjunction in which
      each operand of that of the parent occurs. */
  lemma ImpliedExactly(parent: Option<Expr>, dep: Option<Expr>)
    requires WellTypedOpt(parent) && NormalOpt(parent) && NotN(parent) != Sym(No)
    requires MatchOnce(Operands(And, NotN(dep)), Operands(And, NotN(parent)))
    ensures Implied(parent, dep) <==>
            || NotN(parent) == Sym(Yes)
            || (IsOp(NotN(dep), And)
                && forall y :: y in Operands(And, NotN(parent)) ==>
                                 exists x :: x in Operands(And, NotN(dep)) && ExprEq(x, y))
  {
    NotNShape(parent);
    if NotN(parent) == Sym(Yes) {
      YesIsImplied(NotN(dep));
    } else if IsOp(NotN(dep), And) {
      EliminatedExactly(NotN(dep), NotN(parent));
    } else {
      YnFreeIsYesFree(NotN(parent));
      OnlyForConjunctions(NotN(dep), NotN(parent));
    }
  }

  /** An entry belongs below a symbol only if its condition contains the symbol. */
  lemma BelongsContains(sym: Symbol, parent: Option<Expr>, dep: Option<Expr>)
    ensures BelongsBelow(sym, parent, dep) ==> dep.Some? && sym in SymbolsOf(dep.value)
  {
    if dep.Some? {
      ContainsIsMembership(dep.value, sym);
    }
  }

  /** Below a prompt without a condition this is all it takes. */
  lemma BelongsWithoutCondition(sym: Symbol, dep: Option<Expr>)
    ensures BelongsBelow(sym, None, dep) <==> dep.Some? && sym in SymbolsOf(dep.value)
  {
    if dep.Some? {
      ContainsIsMembership(dep.value, sym);
    }
    NothingIsYes();
    YesIsImplied(NotN(dep));
  }

  lemma NothingIsYes()
    ensures NotN(None) == Sym(Yes)
  {
    assert TransCompareOpt(None, false, No) == Not(Sym(No));
    assert Transform(Not(Sym(No))) == Sym(Yes);
    assert BothPasses(Sym(Yes)) == Counted(Sym(Yes), 0);
  }

  /** Below any prompt it is enough that one of the conjuncts tests the symbol, ... */
  lemma TestingConjunctBelongs(sym: Symbol, parent: Option<Expr>, dep: Expr, x: Expr)
    requires x in Operands(And, dep) && Tests(x, sym)
    ensures BelongsBelow(sym, parent, Some(dep))
  {
    DependsIsConjunct(dep, sym);
    DependsContains(dep, sym);
  }

  lemma {:induction false} DependsContains(e: Expr, s: Symbol)
    requires DependsSymbol(e, s)
    ensures ContainsSymbol(e, s)
  {
    if e.Bin? {
      if DependsSymbol(e.left, s) {
        DependsContains(e.left, s);
      } else {
        DependsContains(e.right, s);
      }
    }
  }

  /** ... or that the symbol occurs anywhere, and the simplified test of the prompt is part of that of the entry. */
  lemma ConjunctionBelongs(sym: Symbol, parent: Option<Expr>, dep: Option<Expr>, x: Expr)
    requires dep.Some? && sym in SymbolsOf(dep.value)
    requires NotN(dep) == Bin(And, NotN(parent), x) && Sym(No) !in Operands(And, NotN(parent))
    ensures BelongsBelow(sym, parent, dep)
  {
    ContainsIsMembership(dep.value, sym);
    ConjunctIsEliminated(NotN(parent), x);
  }
}
