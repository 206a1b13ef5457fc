/** Comparison with n, and what menu_finalize makes of dependencies
    (support/kconfig/expr.c:314-341, 773-824, 877-936 and support/kconfig/menu.c:311-363). */
module KMenu {
  import opened KExpr
  import opened KTransform
  import opened KEliminate
  import opened KDups
  import KComplete

  // ---------------------------------------------------------------------------------------------------------
  // expr_trans_compare
  // ---------------------------------------------------------------------------------------------------------

  /** expr_trans_compare for one of the symbols y, m and n: the expression `e = s`, or `e != s`. */
  function TransCompare(e: Expr, equal: bool, s: Symbol): Expr
    requires s.IsYmn()
  {
    match e
    case Bin(op, l, r) =>
      var l', r' := TransCompare(l, true, s), TransCompare(r, true, s);
      var both := if s == Yes then Bin(op, l', r') else if s == No then Bin(Dual(op), l', r') else e;
      if equal then both else Not(both)
    case Not(x) => TransCompare(x, !equal, s)
    case Cmp(_, _, _) =>
      if s == Mod then Sym(if equal then No else Yes)
      else if equal == (s == Yes) then e
      else Not(e)
    case Sym(x) => Cmp(equal, x, s)
  }

  function TransCompareOpt(e: Option<Expr>, equal: bool, s: Symbol): Expr
    requires s.IsYmn()
  {
    match e
    case None => if equal then Sym(s) else Not(Sym(s))
    case Some(x) => TransCompare(x, equal, s)
  }

  /** Symbols standing alone are boolean, tristate, y, m or n. */
  predicate WellTyped(e: Expr) {
    match e
    case Sym(s) => s.IsYmn() || s.Type() == Boolean || s.Type() == Tristate
    case Cmp(_, _, _) => true
    case Not(x) => WellTyped(x)
    case Bin(_, l, r) => WellTyped(l) && WellTyped(r)
  }

  predicate WellTypedOpt(e: Option<Expr>) {
    e.Some? ==> WellTyped(e.value)
  }

  /** No operand of a negation has the value m. */
  predicate NotsDefinite(e: Expr, c: Cfg) {
    match e
    case Sym(_) => true
    case Cmp(_, _, _) => true
    case Not(x) => Eval(x, c) != MOD && NotsDefinite(x, c)
    case Bin(_, l, r) => NotsDefinite(l, c) && NotsDefinite(r, c)
  }

  predicate NotsDefiniteOpt(e: Option<Expr>, c: Cfg) {
    e.Some? ==> NotsDefinite(e.value, c)
  }

  /** The truth of `v = s`, or of `v != s`. */
  function Holds(v: Tri, equal: bool, s: Symbol, c: Cfg): Tri {
    if (v == TriOf(c, s)) == equal then YES else NO
  }

  /** Comparison with y or n pushed down to the symbols is exact wherever no operand of a negation is m. */
  lemma {:induction false} TransCompareExact(e: Expr, equal: bool, s: Symbol, c: Cfg)
    requires (s == Yes || s == No) && WellTyped(e) && NotsDefinite(e, c)
    ensures Eval(TransCompare(e, equal, s), c) == Holds(Eval(e, c), equal, s, c)
  {
    match e
    case Bin(op, l, r) =>
      TransCompareExact(l, true, s, c);
      TransCompareExact(r, true, s, c);
    case Not(x) =>
      TransCompareExact(x, !equal, s, c);
    case Cmp(_, _, _) =>
    case Sym(x) =>
      assert TextOf(c, x) == TriText(TriOf(c, x));
  }

  /** Below a negation the comparison is right if and only if the operand is not m. */
  lemma TransCompareOfNot(x: Expr, equal: bool, s: Symbol, c: Cfg)
    requires (s == Yes || s == No) && WellTyped(x) && NotsDefinite(x, c)
    ensures Eval(TransCompare(Not(x), equal, s), c) == Holds(Eval(Not(x), c), equal, s, c) <==> Eval(x, c) != MOD
  {
    TransCompareExact(x, !equal, s, c);
  }

  /** Comparison with m is right for symbols and comparisons, right for an AND or OR node if and only if its value is n,
      and wrong for every negation of a symbol. */
  lemma TransCompareMod(e: Expr, equal: bool, c: Cfg)
    requires WellTyped(e) && (e.Not? ==> e.e.Sym?)
    ensures Eval(TransCompare(e, equal, Mod), c) == Holds(Eval(e, c), equal, Mod, c) <==>
            match e
            case Sym(_) => true
            case Cmp(_, _, _) => true
            case Bin(_, _, _) => Eval(e, c) == NO
            case Not(_) => false
  {
    match e
    case Sym(x) => CompareSymbol(x, equal, c);
    case Not(x) => CompareSymbol(x.s, !equal, c);
    case Bin(_, _, _) => assert Eval(Not(e), c) == 2 - Eval(e, c);
    case Cmp(_, _, _) =>
  }

  lemma CompareSymbol(x: Symbol, equal: bool, c: Cfg)
    requires WellTyped(Sym(x))
    ensures Eval(Cmp(equal, x, Mod), c) == Holds(TriOf(c, x), equal, Mod, c)
  {
    assert TextOf(c, x) == TriText(TriOf(c, x));
    assert "n"[0] == 'n' && "m"[0] == 'm' && "y"[0] == 'y';
  }

  // ---------------------------------------------------------------------------------------------------------
  // expr_trans_bool
  // ---------------------------------------------------------------------------------------------------------

  function TransBool(e: Expr): Expr {
    match e
    case Bin(op, l, r) => Bin(op, TransBool(l), TransBool(r))
    case Not(x) => Not(TransBool(x))
    case Cmp(equal, l, r) => if !equal && l.Type() == Tristate && r == No then Sym(l) else e
    case Sym(_) => e
  }

  /** On expressions in normal form `expr_trans_bool` keeps whether the value is n; a value that was m stays m. */
  lemma {:induction false} TransBoolKeepsVisible(e: Expr, c: Cfg)
    requires Normal(e)
    ensures Eval(TransBool(e), c) == NO <==> Eval(e, c) == NO
    ensures Eval(TransBool(e), c) <= Eval(e, c)
    ensures Normal(TransBool(e))
  {
    match e
    case Bin(_, l, r) =>
      TransBoolKeepsVisible(l, c);
      TransBoolKeepsVisible(r, c);
    case Cmp(_, l, r) =>
      assert l.Type() == Tristate ==> TextOf(c, l) == TriText(TriOf(c, l));
    case Not(_) =>
    case Sym(_) =>
  }

  predicate NoneCompared(e: Expr) {
    match e
    case Bin(_, l, r) => NoneCompared(l) && NoneCompared(r)
    case Not(x) => NoneCompared(x)
    case Cmp(equal, l, r) => equal || l.Type() != Tristate || r != No
    case Sym(_) => true
  }

  /** It leaves no comparison `!= n` of a tristate symbol, and changes nothing but such comparisons. */
  lemma {:induction false} TransBoolRemoves(e: Expr)
    ensures NoneCompared(TransBool(e)) && SymbolsOf(TransBool(e)) <= SymbolsOf(e)
    ensures TransBool(e) == e <==> NoneCompared(e)
  {
    match e
    case Bin(_, l, r) =>
      TransBoolRemoves(l);
      TransBoolRemoves(r);
    case Not(x) => TransBoolRemoves(x);
    case Cmp(_, _, _) =>
    case Sym(_) =>
  }

  /** Neither half is true without the normal form, and the value itself is not kept. */
  lemma TransBoolNeedsNormal(name: string, text: Symbol -> string)
    ensures var a := Config(name, Tristate);
            var c := Cfg(true, _ => MOD, text);
            var e := Cmp(false, a, No);
            && Eval(e, c) == YES && Eval(TransBool(e), c) == MOD
            && Eval(Not(e), c) == NO && Eval(TransBool(Not(e)), c) == MOD
  {
    var a := Config(name, Tristate);
    var c := Cfg(true, _ => MOD, text);
    assert TriOf(c, a) == MOD;
    assert TextOf(c, a) == "m" && TextOf(c, No) == "n";
    var e := Cmp(false, a, No);
    assert TransBool(e) == Sym(a) && TransBool(Not(e)) == Not(Sym(a));
    assert Eval(Not(e), c) == 2 - Eval(e, c) && Eval(Not(Sym(a)), c) == 2 - Eval(Sym(a), c);
  }

  /** A comparison that is dropped keeps its value if and only if the symbol is not m ... */
  lemma TransBoolOfCmp(s: Symbol, c: Cfg)
    requires s.Type() == Tristate
    ensures Eval(TransBool(Cmp(false, s, No)), c) == Eval(Cmp(false, s, No), c) <==> TriOf(c, s) != MOD
  {
    assert TextOf(c, s) == TriText(TriOf(c, s));
    assert "n"[0] == 'n' && "m"[0] == 'm' && "y"[0] == 'y';
  }

  /** No tristate symbol that is compared with `!= n` is m. */
  predicate ComparedDefinite(e: Expr, c: Cfg) {
    match e
    case Bin(_, l, r) => ComparedDefinite(l, c) && ComparedDefinite(r, c)
    case Not(x) => ComparedDefinite(x, c)
    case Cmp(equal, l, r) => equal || l.Type() != Tristate || r != No || TriOf(c, l) != MOD
    case Sym(_) => true
  }

  /** ... and so where none of these symbols is m, the value of the whole expression is kept, in whatever form it is. */
  lemma {:induction false} TransBoolExact(e: Expr, c: Cfg)
    requires ComparedDefinite(e, c)
    ensures Eval(TransBool(e), c) == Eval(e, c)
  {
    match e
    case Bin(_, l, r) =>
      TransBoolExact(l, c);
      TransBoolExact(r, c);
    case Not(x) =>
      TransBoolExact(x, c);
    case Cmp(_, l, _) =>
      if TransBool(e) != e {
        TransBoolOfCmp(l, c);
      }
    case Sym(_) =>
  }

  // ---------------------------------------------------------------------------------------------------------
  // expr_contains_symbol and expr_depends_symbol
  // ---------------------------------------------------------------------------------------------------------

  predicate ContainsSymbol(e: Expr, s: Symbol) {
    match e
    case Bin(_, l, r) => ContainsSymbol(l, s) || ContainsSymbol(r, s)
    case Sym(x) => x == s
    case Cmp(_, l, r) => l == s || r == s
    case Not(x) => ContainsSymbol(x, s)
  }

  predicate DependsSymbol(e: Expr, s: Symbol) {
    match e
    case Bin(op, l, r) => op == And && (DependsSymbol(l, s) || DependsSymbol(r, s))
    case Sym(x) => x == s
    case Cmp(true, l, r) => l == s && (r == Yes || r == Mod)
    case Cmp(false, l, r) => l == s && r == No
    case Not(_) => false
  }

  lemma {:induction false} ContainsIsMembership(e: Expr, s: Symbol)
    ensures ContainsSymbol(e, s) <==> s in SymbolsOf(e)
  {
    match e
    case Bin(_, l, r) =>
      ContainsIsMembership(l, s);
      ContainsIsMembership(r, s);
    case Not(x) => ContainsIsMembership(x, s);
    case Sym(_) =>
    case Cmp(_, _, _) =>
  }

  /** An expression that does not contain a symbol has the same value whatever that symbol's value is. */
  lemma {:induction false} ContainsIsComplete(e: Expr, s: Symbol, c: Cfg, d: Cfg)
    requires !ContainsSymbol(e, s) && c.modules == d.modules
    requires forall x :: x != s ==> c.raw(x) == d.raw(x) && c.text(x) == d.text(x)
    ensures Eval(e, c) == Eval(e, d)
  {
    match e
    case Bin(_, l, r) =>
      ContainsIsComplete(l, s, c, d);
      ContainsIsComplete(r, s, c, d);
    case Not(x) =>
      ContainsIsComplete(x, s, c, d);
    case Sym(x) =>
      assert TriOf(c, x) == TriOf(d, x);
    case Cmp(_, l, r) =>
      assert TextOf(c, l) == TextOf(d, l) && TextOf(c, r) == TextOf(d, r);
  }

  ghost predicate SomeTests(xs: seq<Expr>, s: Symbol) {
    exists x :: x in xs && Tests(x, s)
  }

  lemma SomeTestsConcat(l: seq<Expr>, r: seq<Expr>, s: Symbol)
    ensures SomeTests(l + r, s) <==> SomeTests(l, s) || SomeTests(r, s)
  {
    if x :| x in l && Tests(x, s) {
      assert x in l + r;
    }
    if x :| x in r && Tests(x, s) {
      assert x in l + r;
    }
    if x :| x in l + r && Tests(x, s) {
      assert x in l || x in r;
    }
  }

  /** The answer is yes if and only if one of the conjuncts is the symbol, or tests it for `= y`, `= m` or `!= n`. */
  lemma {:induction false} DependsIsConjunct(e: Expr, s: Symbol)
    ensures DependsSymbol(e, s) <==> SomeTests(KComplete.Operands(And, e), s)
  {
    if IsOp(e, And) {
      DependsIsConjunct(e.left, s);
      DependsIsConjunct(e.right, s);
      SomeTestsConcat(KComplete.Operands(And, e.left), KComplete.Operands(And, e.right), s);
    } else {
      assert e in [e];
    }
  }

  predicate Tests(x: Expr, s: Symbol) {
    x in {Sym(s), Cmp(true, s, Yes), Cmp(true, s, Mod), Cmp(false, s, No)}
  }

  /** An expression found to depend on a symbol is n whenever the symbol is. */
  lemma {:induction false} DependsIsSound(e: Expr, s: Symbol, c: Cfg)
    requires DependsSymbol(e, s) && (s.Type() == Boolean || s.Type() == Tristate)
    requires TriOf(c, s) == NO
    ensures Eval(e, c) == NO
  {
    match e
    case Bin(_, l, r) =>
      if DependsSymbol(l, s) {
        DependsIsSound(l, s, c);
      } else {
        DependsIsSound(r, s, c);
      }
    case Cmp(_, _, _) =>
      assert TextOf(c, s) == "n";
    case Sym(_) =>
    case Not(_) =>
  }

  // ---------------------------------------------------------------------------------------------------------
  // Dependency propagation
  // ---------------------------------------------------------------------------------------------------------

  /** expr_alloc_and. */
  function AllocAnd(a: Option<Expr>, b: Option<Expr>): Option<Expr> {
    if a.None? then b else if b.None? then a else Some(Bin(And, a.value, b.value))
  }

  /** The dependency menu_finalize stores: what is inherited, joined with the entry's own, without duplicates. */
  function Propagate(inherited: Option<Expr>, own: Option<Expr>): Option<Expr> {
    var e := AllocAnd(inherited, if own.Some? then Some(Transform(own.value)) else None);
    if e.Some? then Some(EliminateDups(e.value)) else None
  }

  /** The visibility of a property: the entry's dependency joined with the property's own condition. */
  function PropVisible(basedep: Option<Expr>, condition: Option<Expr>, tristate: bool): Option<Expr> {
    var e := Propagate(basedep, condition);
    if e.Some? && !tristate then Some(TransBool(e.value)) else e
  }

  predicate NormalOpt(e: Option<Expr>) {
    e.Some? ==> Normal(e.value)
  }

  /** Propagation means conjunction: a definite conjunction is kept, and the result is in normal form again. */
  lemma PropagateSound(inherited: Option<Expr>, own: Option<Expr>, c: Cfg)
    ensures Refines(Join(And, EvalOpt(inherited, c), EvalOpt(own, c)), EvalOpt(Propagate(inherited, own), c))
    ensures NormalOpt(inherited) ==> NormalOpt(Propagate(inherited, own))
  {
    if own.Some? {
      TransformKeepsValue(own.value, c);
      TransformNormal(own.value);
    }
    var e := AllocAnd(inherited, if own.Some? then Some(Transform(own.value)) else None);
    if e.Some? {
      assert Eval(e.value, c) == Join(And, EvalOpt(inherited, c), EvalOpt(own, c));
      EliminateDupsRefines(e.value, c);
      EliminateDupsFixpoint(e.value);
    }
  }

  /** The visibility of a property through both rounds of propagation: it is n wherever the inherited dependency,
      the entry's dependency or the condition is n, and it is not n where all three are y. */
  lemma PropVisibleSound(inherited: Option<Expr>, own: Option<Expr>, condition: Option<Expr>, tristate: bool, c: Cfg)
    requires NormalOpt(inherited)
    ensures var v := Join(And, Join(And, EvalOpt(inherited, c), EvalOpt(own, c)), EvalOpt(condition, c));
            var r := EvalOpt(PropVisible(Propagate(inherited, own), condition, tristate), c);
            && (v == YES ==> r != NO && (tristate ==> r == YES))
            && (v == NO ==> r == NO)
  {
    PropagateSound(inherited, own, c);
    var base := Propagate(inherited, own);
    PropagateSound(base, condition, c);
    var e := Propagate(base, condition);
    if e.Some? && !tristate {
      TransBoolKeepsVisible(e.value, c);
    }
  }

  /** What is stored is simplified: expr_eliminate_dups finds nothing more in it; and there is a dependency if there was
      one. */
  lemma PropagateSimplifies(inherited: Option<Expr>, own: Option<Expr>)
    ensures var r := Propagate(inherited, own);
            && (r.Some? <==> inherited.Some? || own.Some?)
            && (r.Some? ==> BothPasses(r.value) == Counted(r.value, 0))
  {
    var e := AllocAnd(inherited, if own.Some? then Some(Transform(own.value)) else None);
    if e.Some? {
      EliminateDupsFixpoint(e.value);
    }
  }

  /** So is the visibility of a tristate symbol; in that of another one, no tristate symbol is compared with `!= n`. */
  lemma PropVisibleSimplifies(basedep: Option<Expr>, condition: Option<Expr>, tristate: bool)
    ensures var r := PropVisible(basedep, condition, tristate);
            && (r.Some? <==> basedep.Some? || condition.Some?)
            && (r.Some? && tristate ==> BothPasses(r.value) == Counted(r.value, 0))
            && (r.Some? && !tristate ==> NoneCompared(r.value))
  {
    PropagateSimplifies(basedep, condition);
    var e := Propagate(basedep, condition);
    if e.Some? {
      TransBoolRemoves(e.value);
    }
  }

  // ---------------------------------------------------------------------------------------------------------
  // The automatic submenu
  // ---------------------------------------------------------------------------------------------------------

  /** The simplified expression `e != n`. */
  function NotN(e: Option<Expr>): Expr {
    EliminateDups(Transform(TransCompareOpt(e, false, No)))
  }

  lemma NotNExact(e: Option<Expr>, c: Cfg)
    requires WellTypedOpt(e) && NotsDefiniteOpt(e, c)
    ensures Eval(NotN(e), c) == if EvalOpt(e, c) != NO then YES else NO
  {
    var t := TransCompareOpt(e, false, No);
    if e.Some? {
      TransCompareExact(e.value, false, No, c);
    } else {
      assert Eval(Not(Sym(No)), c) == 2 - Eval(Sym(No), c);
    }
    TransformKeepsValue(t, c);
    EliminateDupsRefines(Transform(t), c);
  }

  lemma NotNSimplifies(e: Option<Expr>)
    ensures Normal(NotN(e)) && BothPasses(NotN(e)) == Counted(NotN(e), 0)
  {
    var t := TransCompareOpt(e, false, No);
    TransformNormal(t);
    EliminateDupsFixpoint(Transform(t));
  }

  /** The test with which an entry is moved below the preceding entry of symbol `sym`. */
  predicate Implied(parent: Option<Expr>, dep: Option<Expr>) {
    EliminateEq(NotN(dep), NotN(parent)).snd == Sym(Yes)
  }

  predicate BelongsBelow(sym: Symbol, parent: Option<Expr>, dep: Option<Expr>) {
    dep.Some? && ContainsSymbol(dep.value, sym) && (DependsSymbol(dep.value, sym) || Implied(parent, dep))
  }

  /** Comparisons pushed down are never m, and `= n` and `!= n` are opposites. */
  lemma {:induction false} PushedOpposite(e: Expr, c: Cfg)
    requires WellTyped(e)
    ensures Eval(TransCompare(e, true, No), c) != MOD
    ensures Eval(TransCompare(e, false, No), c) == 2 - Eval(TransCompare(e, true, No), c)
  {
    match e
    case Bin(op, l, r) =>
      PushedOpposite(l, c);
      PushedOpposite(r, c);
    case Not(x) =>
      PushedOpposite(x, c);
    case Cmp(_, _, _) =>
    case Sym(_) =>
  }

  /** For an expression in normal form, `!= n` pushed down is never y where the expression is n, whatever is m. */
  lemma {:induction false} PushedBelow(e: Expr, c: Cfg)
    requires WellTyped(e) && Normal(e) && Eval(TransCompare(e, true, No), c) == NO
    ensures Eval(e, c) != NO
  {
    match e
    case Bin(op, l, r) =>
      PushedOpposite(l, c);
      PushedOpposite(r, c);
      if Eval(TransCompare(l, true, No), c) == NO {
        PushedBelow(l, c);
      }
      if Eval(TransCompare(r, true, No), c) == NO {
        PushedBelow(r, c);
      }
    case Not(x) =>
      assert TextOf(c, x.s) == TriText(TriOf(c, x.s));
    case Cmp(_, _, _) =>
    case Sym(x) =>
      assert TextOf(c, x) == TriText(TriOf(c, x));
  }

  /** The simplified test `e != n` is y or n, and never y where an expression in normal form is n. */
  lemma NotNBelow(e: Option<Expr>, c: Cfg)
    requires WellTypedOpt(e)
    ensures Eval(NotN(e), c) != MOD
    ensures NormalOpt(e) && Eval(NotN(e), c) != NO ==> EvalOpt(e, c) != NO
  {
    var t := TransCompareOpt(e, false, No);
    if e.Some? {
      PushedOpposite(e.value, c);
      if Normal(e.value) && Eval(TransCompare(e.value, true, No), c) == NO {
        PushedBelow(e.value, c);
      }
    } else {
      assert Eval(Not(Sym(No)), c) == 2 - Eval(Sym(No), c);
    }
    TransformKeepsValue(t, c);
    EliminateDupsRefines(Transform(t), c);
  }

  /** The simplified test notices if the expression is not n. */
  predicate Noticed(e: Option<Expr>, c: Cfg) {
    EvalOpt(e, c) != NO ==> Eval(NotN(e), c) != NO
  }

  lemma DefiniteIsNoticed(e: Option<Expr>, c: Cfg)
    requires WellTypedOpt(e) && NotsDefiniteOpt(e, c)
    ensures Noticed(e, c)
  {
    NotNExact(e, c);
  }

  /** The test is a sound implication wherever the entry's condition is noticed: a visible entry has a visible parent. */
  lemma ImpliedIsSound(parent: Option<Expr>, dep: Option<Expr>, c: Cfg)
    requires Implied(parent, dep)
    requires WellTypedOpt(parent) && WellTypedOpt(dep) && NormalOpt(parent) && Noticed(dep, c)
    ensures EvalOpt(dep, c) != NO ==> EvalOpt(parent, c) != NO
  {
    NotNBelow(parent, c);
    EliminateEqImplies(NotN(dep), NotN(parent), c);
  }

  /** With an m below a negation of the entry it is not: for `!A && B` and the parent `A = n` the test succeeds, but where
      A is m and B is y, the entry is visible and the parent is not. */
  lemma ImpliedNeedsDefinite(a: Symbol, b: Symbol, c: Cfg)
    requires a.Type() == Tristate && TriOf(c, a) == MOD && b.Type() == Boolean && TriOf(c, b) == YES
    ensures var parent, dep := Some(Cmp(true, a, No)), Some(Bin(And, Not(Sym(a)), Sym(b)));
            Implied(parent, dep) && EvalOpt(dep, c) == MOD && EvalOpt(parent, c) == NO
  {
    var p, d := Cmp(true, a, No), Bin(And, Not(Sym(a)), Sym(b));
    NotNExample(a, b);
    EliminateExample(p, b);
    assert Eval(d, c) == MOD by {
      assert Eval(Not(Sym(a)), c) == 2 - Eval(Sym(a), c);
    }
    assert Eval(p, c) == NO by {
      assert TextOf(c, a)[0] == 'm' && TextOf(c, No)[0] == 'n';
    }
  }

  lemma NotNExample(a: Symbol, b: Symbol)
    requires a.Type() == Tristate && b.Type() == Boolean
    ensures NotN(Some(Cmp(true, a, No))) == Cmp(true, a, No)
    ensures NotN(Some(Bin(And, Not(Sym(a)), Sym(b)))) == Bin(And, Cmp(true, a, No), Sym(b))
  {
    var p, d := Cmp(true, a, No), Bin(And, Not(Sym(a)), Sym(b));
    var left, right, e := Cmp(false, a, No), Cmp(true, b, No), Bin(And, p, Sym(b));
    assert TransCompare(Not(Sym(a)), true, No) == left && TransCompare(Sym(b), true, No) == right;
    assert TransCompare(d, false, No) == Not(Bin(Or, left, right));
    assert Transform(right) == Not(Sym(b)) && Transform(Not(Sym(b))) == Not(Sym(b));
    assert Transform(Bin(Or, left, right)) == Bin(Or, left, Not(Sym(b)));
    assert Transform(Not(left)) == p && Transform(Not(Not(Sym(b)))) == Sym(b);
    assert Transform(Not(Bin(Or, left, right))) == e;
    QuietPair(And, e);
    QuietSecond(And, e);
  }

  lemma EliminateExample(p: Expr, b: Symbol)
    requires p.Cmp? && b.Config?
    ensures EliminateEq(Bin(And, p, Sym(b)), p).snd == Sym(Yes)
  {
    var e := Bin(And, p, Sym(b));
    assert ElimEq(And, p, p) == Rest(Sym(Yes), Sym(Yes));
    assert ElimEq(And, Sym(b), Sym(Yes)) == Rest(Sym(b), Sym(Yes));
    assert ElimEq(And, e, p) == Rest(Bin(And, Sym(Yes), Sym(b)), Sym(Yes));
    assert FirstPhase(e, p).snd == Sym(Yes);
  }

  /** An entry that is moved below another is hidden whenever the other's symbol is n and its prompt invisible. */
  lemma BelongsBelowIsSound(sym: Symbol, parent: Option<Expr>, dep: Option<Expr>, c: Cfg)
    requires BelongsBelow(sym, parent, dep)
    requires sym.Type() == Boolean || sym.Type() == Tristate
    requires WellTypedOpt(parent) && WellTypedOpt(dep) && NormalOpt(parent) && Noticed(dep, c)
    ensures EvalOpt(dep, c) != NO ==> TriOf(c, sym) != NO || EvalOpt(parent, c) != NO
  {
    if DependsSymbol(dep.value, sym) {
      if TriOf(c, sym) == NO {
        DependsIsSound(dep.value, sym, c);
      }
    } else {
      ImpliedIsSound(parent, dep, c);
    }
  }

  /** The loop over the entries that follow: how many of them form the submenu. */
  method SubmenuLength(sym: Symbol, parent: Option<Expr>, following: seq<Option<Expr>>) returns (k: nat)
    ensures k <= |following|
    ensures forall i :: 0 <= i < k ==> BelongsBelow(sym, parent, following[i])
    ensures k < |following| ==> !BelongsBelow(sym, parent, following[k])
  {
    var basedep := NotN(parent);
    k := 0;
    while k < |following|
      invariant k <= |following|
      invariant forall i :: 0 <= i < k ==> BelongsBelow(sym, parent, following[i])
    {
      if following[k].None? || !ContainsSymbol(following[k].value, sym) {
        break;
      }
      if !DependsSymbol(following[k].value, sym) {
        var rest := EliminateEq(NotN(following[k]), basedep);
        if rest.snd != Sym(Yes) {
          break;
        }
      }
      k := k + 1;
    }
  }
}
