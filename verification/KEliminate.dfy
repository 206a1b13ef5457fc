/** Constant elimination, equality up to reordering, and factoring of common parts
    (support/kconfig/expr.c:125-312 and 826-875). */
module KEliminate {
  import opened KExpr
  import opened KTransform

  // ---------------------------------------------------------------------------------------------------------
  // expr_eliminate_yn
  // ---------------------------------------------------------------------------------------------------------

  /** What becomes of an AND or OR node with these operands. */
  function DropYn(op: Op, l: Expr, r: Expr): Expr {
    if l == Sym(Zero(op)) then Sym(Zero(op))
    else if l == Sym(Unit(op)) then r
    else if r == Sym(Zero(op)) then Sym(Zero(op))
    else if r == Sym(Unit(op)) then l
    else Bin(op, l, r)
  }

  function EliminateYn(e: Expr): Expr {
    match e
    case Bin(op, l, r) => DropYn(op, EliminateYn(l), EliminateYn(r))
    case _ => e
  }

  predicate IsYn(e: Expr) {
    e == Sym(Yes) || e == Sym(No)
  }

  /** Somewhere on the spine of AND and OR nodes an operand is y or n. */
  predicate HasYn(e: Expr) {
    e.Bin? && (IsYn(e.left) || IsYn(e.right) || HasYn(e.left) || HasYn(e.right))
  }

  lemma {:induction false} EliminateYnExact(e: Expr, c: Cfg)
    ensures Eval(EliminateYn(e), c) == Eval(e, c)
  {
    if e.Bin? {
      EliminateYnExact(e.left, c);
      EliminateYnExact(e.right, c);
      var l', r' := EliminateYn(e.left), EliminateYn(e.right);
      assert Eval(e, c) == Join(e.op, Eval(l', c), Eval(r', c));
    }
  }

  lemma {:induction false} EliminateYnNormal(e: Expr)
    requires Normal(e)
    ensures Normal(EliminateYn(e))
  {
    if e.Bin? {
      EliminateYnNormal(e.left);
      EliminateYnNormal(e.right);
    }
  }

  /** Constant elimination leaves no y or n operand on the spine, and it changes an expression, by shrinking it,
      if and only if there was one. */
  lemma {:induction false} EliminateYnShrinks(e: Expr)
    ensures !HasYn(EliminateYn(e))
    ensures if HasYn(e) then Size(EliminateYn(e)) < Size(e) else EliminateYn(e) == e
  {
    if e.Bin? {
      EliminateYnShrinks(e.left);
      EliminateYnShrinks(e.right);
    }
  }

  // ---------------------------------------------------------------------------------------------------------
  // expr_eq and expr_eliminate_eq
  // ---------------------------------------------------------------------------------------------------------

  /** What remains of two expressions. */
  datatype Rest = Rest(fst: Expr, snd: Expr)

  /** __expr_eliminate_eq: wherever an operand of the first expression equals an operand of the second, both are
      replaced by the unit of the operator. */
  function ElimEq(op: Op, e1: Expr, e2: Expr): (r: Rest)
    ensures Size(r.fst) <= Size(e1) && Size(r.snd) <= Size(e2)
    ensures (IsOp(e1, op) ==> IsOp(r.fst, op)) && (IsOp(e2, op) ==> IsOp(r.snd, op))
    decreases Size(e1) + Size(e2), if IsOp(e1, op) || IsOp(e2, op) then 0 else 4
  {
    if IsOp(e1, op) then
      var a := ElimEq(op, e1.left, e2);
      var b := ElimEq(op, e1.right, a.snd);
      Rest(Bin(op, a.fst, b.fst), b.snd)
    else if IsOp(e2, op) then
      var a := ElimEq(op, e1, e2.left);
      var b := ElimEq(op, a.fst, e2.right);
      Rest(b.fst, Bin(op, a.snd, b.snd))
    else if e1 == e2 && IsYn(e1) then Rest(e1, e2)
    else if !ExprEq(e1, e2) then Rest(e1, e2)
    else Rest(Sym(Unit(op)), Sym(Unit(op)))
  }

  /** The phase of expr_eliminate_eq for the operator of the first expression ... */
  function FirstPhase(e1: Expr, e2: Expr): (r: Rest)
    ensures Size(r.fst) <= Size(e1) && Size(r.snd) <= Size(e2)
    decreases Size(e1) + Size(e2), 1
  {
    if e1.Bin? then ElimEq(e1.op, e1, e2) else Rest(e1, e2)
  }

  /** ... and the one for the operator of the second, if the two now differ in type. */
  function SecondPhase(e1: Expr, e2: Expr): (r: Rest)
    ensures Size(r.fst) <= Size(e1) && Size(r.snd) <= Size(e2)
    decreases Size(e1) + Size(e2), 1
  {
    if e2.Bin? && !IsOp(e1, e2.op) then ElimEq(e2.op, e1, e2) else Rest(e1, e2)
  }

  function EliminateEq(e1: Expr, e2: Expr): Rest
    decreases Size(e1) + Size(e2), 2
  {
    var p := FirstPhase(e1, e2);
    var q := SecondPhase(p.fst, p.snd);
    Rest(EliminateYn(q.fst), EliminateYn(q.snd))
  }

  predicate ExprEq(e1: Expr, e2: Expr)
    decreases Size(e1) + Size(e2), 3
  {
    match e1
    case Cmp(_, _, _) => e1 == e2
    case Sym(_) => e1 == e2
    case Not(x) => e2.Not? && ExprEq(x, e2.e)
    case Bin(op, _, _) =>
      IsOp(e2, op) &&
      var r := EliminateEq(e1, e2);
      r.fst.Sym? && r.fst == r.snd
  }

  /** The part __expr_eliminate_eq takes out of both expressions. */
  ghost function Common(op: Op, e1: Expr, e2: Expr): Expr
    decreases Size(e1) + Size(e2)
  {
    if IsOp(e1, op) then
      Bin(op, Common(op, e1.left, e2), Common(op, e1.right, ElimEq(op, e1.left, e2).snd))
    else if IsOp(e2, op) then
      Bin(op, Common(op, e1, e2.left), Common(op, ElimEq(op, e1, e2.left).fst, e2.right))
    else if e1 == e2 && IsYn(e1) then Sym(Unit(op))
    else if !ExprEq(e1, e2) then Sym(Unit(op))
    else e1
  }

  /** e1 and e2 are r1 and r2, each joined with k. */
  predicate Splits(op: Op, e1: Tri, e2: Tri, r1: Tri, r2: Tri, k: Tri) {
    e1 == Join(op, r1, k) && e2 == Join(op, r2, k)
  }

  lemma SplitsCompose(op: Op, l: Tri, r: Tri, e: Tri, l': Tri, r': Tri, e': Tri, e'': Tri, k: Tri, k': Tri)
    requires Splits(op, l, e, l', e', k) && Splits(op, r, e', r', e'', k')
    ensures Splits(op, Join(op, l, r), e, Join(op, l', r'), e'', Join(op, k, k'))
  {
  }

  /** ... for expressions: splitting off k from l and e, and then k' from r and what is left of e. */
  lemma BinSplits(op: Op, l: Expr, r: Expr, e: Expr, l': Expr, r': Expr, e': Expr, e'': Expr, k: Expr, k': Expr, c: Cfg)
    requires SplitsAt(op, l, e, l', e', k, c) && SplitsAt(op, r, e', r', e'', k', c)
    ensures SplitsAt(op, Bin(op, l, r), e, Bin(op, l', r'), e'', Bin(op, k, k'), c)
  {
    SplitsCompose(op, Eval(l, c), Eval(r, c), Eval(e, c), Eval(l', c), Eval(r', c), Eval(e', c), Eval(e'', c),
                  Eval(k, c), Eval(k', c));
  }

  predicate SplitsAt(op: Op, e1: Expr, e2: Expr, r1: Expr, r2: Expr, k: Expr, c: Cfg) {
    Splits(op, Eval(e1, c), Eval(e2, c), Eval(r1, c), Eval(r2, c), Eval(k, c))
  }

  /** Throughout the elimination, each side is what remains of it joined with one and the same common part. */
  lemma {:induction false} ElimEqSplits(op: Op, e1: Expr, e2: Expr, c: Cfg)
    ensures SplitsAt(op, e1, e2, ElimEq(op, e1, e2).fst, ElimEq(op, e1, e2).snd, Common(op, e1, e2), c)
    decreases Size(e1) + Size(e2), if IsOp(e1, op) || IsOp(e2, op) then 1 else 4
  {
    if IsOp(e1, op) {
      ElimFirstSplits(op, e1, e2, c);
    } else if IsOp(e2, op) {
      ElimSecondSplits(op, e1, e2, c);
    } else if ExprEq(e1, e2) {
      ExprEqSound(e1, e2, c);
    }
  }

  lemma {:induction false} ElimFirstSplits(op: Op, e1: Expr, e2: Expr, c: Cfg)
    requires IsOp(e1, op)
    ensures SplitsAt(op, e1, e2, ElimEq(op, e1, e2).fst, ElimEq(op, e1, e2).snd, Common(op, e1, e2), c)
    decreases Size(e1) + Size(e2), 0
  {
    var a := ElimEq(op, e1.left, e2);
    var b := ElimEq(op, e1.right, a.snd);
    ElimEqSplits(op, e1.left, e2, c);
    ElimEqSplits(op, e1.right, a.snd, c);
    BinSplits(op, e1.left, e1.right, e2, a.fst, b.fst, a.snd, b.snd,
              Common(op, e1.left, e2), Common(op, e1.right, a.snd), c);
  }

  lemma {:induction false} ElimSecondSplits(op: Op, e1: Expr, e2: Expr, c: Cfg)
    requires !IsOp(e1, op) && IsOp(e2, op)
    ensures SplitsAt(op, e1, e2, ElimEq(op, e1, e2).fst, ElimEq(op, e1, e2).snd, Common(op, e1, e2), c)
    decreases Size(e1) + Size(e2), 0
  {
    var a := ElimEq(op, e1, e2.left);
    var b := ElimEq(op, a.fst, e2.right);
    ElimEqSplits(op, e1, e2.left, c);
    ElimEqSplits(op, a.fst, e2.right, c);
    BinSplits(op, e2.left, e2.right, e1, a.snd, b.snd, a.fst, b.fst,
              Common(op, e1, e2.left), Common(op, a.fst, e2.right), c);
  }

  /** expr_eq answers yes only for expressions of equal value, in every configuration. */
  lemma {:induction false} ExprEqSound(e1: Expr, e2: Expr, c: Cfg)
    requires ExprEq(e1, e2)
    ensures Eval(e1, c) == Eval(e2, c)
    decreases Size(e1) + Size(e2), 3
  {
    match e1
    case Cmp(_, _, _) =>
    case Sym(_) =>
    case Not(x) => ExprEqSound(x, e2.e, c);
    case Bin(op, _, _) =>
      var p := ElimEq(op, e1, e2);
      ElimEqSplits(op, e1, e2, c);
      EliminateYnExact(p.fst, c);
      EliminateYnExact(p.snd, c);
      assert EliminateEq(e1, e2) == Rest(EliminateYn(p.fst), EliminateYn(p.snd));
  }

  /** Eliminating common operands loses no implication: if what remains of the first expression is nowhere above
      what remains of the second, the same holds of the expressions. */
  lemma ElimEqReflects(op: Op, e1: Expr, e2: Expr, c: Cfg)
    requires Eval(ElimEq(op, e1, e2).fst, c) <= Eval(ElimEq(op, e1, e2).snd, c)
    ensures Eval(e1, c) <= Eval(e2, c)
  {
    ElimEqSplits(op, e1, e2, c);
  }

  /** If the elimination leaves nothing but y of the second expression, the first implies the second: its value is
      nowhere larger.  This covers both phases of expr_eliminate_eq. */
  lemma EliminateEqImplies(e1: Expr, e2: Expr, c: Cfg)
    requires EliminateEq(e1, e2).snd == Sym(Yes)
    ensures Eval(e1, c) <= Eval(e2, c)
  {
    var p := FirstPhase(e1, e2);
    var q := SecondPhase(p.fst, p.snd);
    EliminateYnExact(q.snd, c);
    assert Eval(q.fst, c) <= Eval(q.snd, c);
    if p.snd.Bin? && !IsOp(p.fst, p.snd.op) {
      ElimEqReflects(p.snd.op, p.fst, p.snd, c);
    }
    if e1.Bin? {
      ElimEqReflects(e1.op, e1, e2, c);
    }
  }

  // ---------------------------------------------------------------------------------------------------------
  // expr_extract_eq
  // ---------------------------------------------------------------------------------------------------------

  /** What expr_extract_eq leaves of the two expressions, and the part it has collected. */
  datatype Extract = Extract(fst: Expr, snd: Expr, common: Option<Expr>)

  function Collect(op: Op, common: Option<Expr>, e: Expr): Option<Expr> {
    Some(if common.Some? then Bin(op, common.value, e) else e)
  }

  function ExtractEq(op: Op, common: Option<Expr>, e1: Expr, e2: Expr): (r: Extract)
    ensures Size(r.fst) <= Size(e1) && Size(r.snd) <= Size(e2)
    decreases Size(e1) + Size(e2)
  {
    if IsOp(e1, op) then
      var a := ExtractEq(op, common, e1.left, e2);
      var b := ExtractEq(op, a.common, e1.right, a.snd);
      Extract(Bin(op, a.fst, b.fst), b.snd, b.common)
    else if IsOp(e2, op) then
      var a := ExtractEq(op, common, e1, e2.left);
      var b := ExtractEq(op, a.common, a.fst, e2.right);
      Extract(b.fst, Bin(op, a.snd, b.snd), b.common)
    else if ExprEq(e1, e2) then
      Extract(Sym(Unit(op)), Sym(Unit(op)), Collect(op, common, e1))
    else Extract(e1, e2, common)
  }

  /** expr_extract_eq_and and expr_extract_eq_or. */
  function ExtractEqTop(op: Op, e1: Expr, e2: Expr): Extract {
    var r := ExtractEq(op, None, e1, e2);
    if r.common.Some? then Extract(EliminateYn(r.fst), EliminateYn(r.snd), r.common) else r
  }

  function EvalCommon(op: Op, common: Option<Expr>, c: Cfg): Tri {
    if common.Some? then Eval(common.value, c) else TriOf(c, Unit(op))
  }

  /** Both expressions, joined with what was collected before, are their remainders joined with what is collected
      now; nothing collected is lost. */
  predicate Extracts(op: Op, e1: Tri, e2: Tri, before: Tri, r1: Tri, r2: Tri, after: Tri) {
    && Join(op, e1, before) == Join(op, r1, after)
    && Join(op, e2, before) == Join(op, r2, after)
    && Join(op, before, after) == after
  }

  lemma ExtractsCompose(op: Op, l: Tri, r: Tri, e: Tri, l': Tri, r': Tri, e': Tri, e'': Tri, k: Tri, k': Tri, k'': Tri)
    requires Extracts(op, l, e, k, l', e', k') && Extracts(op, r, e', k', r', e'', k'')
    ensures Extracts(op, Join(op, l, r), e, k, Join(op, l', r'), e'', k'')
  {
  }

  predicate ExtractsAt(op: Op, e1: Expr, e2: Expr, before: Option<Expr>, r: Extract, c: Cfg) {
    Extracts(op, Eval(e1, c), Eval(e2, c), EvalCommon(op, before, c),
             Eval(r.fst, c), Eval(r.snd, c), EvalCommon(op, r.common, c))
  }

  lemma BinExtracts(op: Op, l: Expr, r: Expr, e: Expr, before: Option<Expr>, a: Extract, b: Extract, c: Cfg)
    requires ExtractsAt(op, l, e, before, a, c) && ExtractsAt(op, r, a.snd, a.common, b, c)
    ensures ExtractsAt(op, Bin(op, l, r), e, before, Extract(Bin(op, a.fst, b.fst), b.snd, b.common), c)
  {
    ExtractsCompose(op, Eval(l, c), Eval(r, c), Eval(e, c), Eval(a.fst, c), Eval(b.fst, c), Eval(a.snd, c),
                    Eval(b.snd, c), EvalCommon(op, before, c), EvalCommon(op, a.common, c), EvalCommon(op, b.common, c));
  }

  lemma ExtractsSwap(op: Op, e1: Expr, e2: Expr, before: Option<Expr>, r: Extract, c: Cfg)
    ensures ExtractsAt(op, e1, e2, before, r, c) <==> ExtractsAt(op, e2, e1, before, Extract(r.snd, r.fst, r.common), c)
  {
  }

  lemma BinExtractsSecond(op: Op, e: Expr, l: Expr, r: Expr, common: Option<Expr>, a: Extract, b: Extract, c: Cfg)
    requires ExtractsAt(op, e, l, common, a, c) && ExtractsAt(op, a.fst, r, a.common, b, c)
    ensures ExtractsAt(op, e, Bin(op, l, r), common, Extract(b.fst, Bin(op, a.snd, b.snd), b.common), c)
  {
    ExtractsSwap(op, e, l, common, a, c);
    ExtractsSwap(op, a.fst, r, a.common, b, c);
    BinExtracts(op, l, r, e, common, Extract(a.snd, a.fst, a.common), Extract(b.snd, b.fst, b.common), c);
    ExtractsSwap(op, e, Bin(op, l, r), common, Extract(b.fst, Bin(op, a.snd, b.snd), b.common), c);
  }

  lemma EqualExtracts(op: Op, common: Option<Expr>, e1: Expr, e2: Expr, c: Cfg)
    requires ExprEq(e1, e2)
    ensures ExtractsAt(op, e1, e2, common, Extract(Sym(Unit(op)), Sym(Unit(op)), Collect(op, common, e1)), c)
  {
    ExprEqSound(e1, e2, c);
  }

  lemma {:induction false} ExtractEqSplits(op: Op, common: Option<Expr>, e1: Expr, e2: Expr, c: Cfg)
    ensures ExtractsAt(op, e1, e2, common, ExtractEq(op, common, e1, e2), c)
    decreases Size(e1) + Size(e2)
  {
    if IsOp(e1, op) {
      var a := ExtractEq(op, common, e1.left, e2);
      var b := ExtractEq(op, a.common, e1.right, a.snd);
      ExtractEqSplits(op, common, e1.left, e2, c);
      ExtractEqSplits(op, a.common, e1.right, a.snd, c);
      BinExtracts(op, e1.left, e1.right, e2, common, a, b, c);
    } else if IsOp(e2, op) {
      var a := ExtractEq(op, common, e1, e2.left);
      var b := ExtractEq(op, a.common, a.fst, e2.right);
      ExtractEqSplits(op, common, e1, e2.left, c);
      ExtractEqSplits(op, a.common, a.fst, e2.right, c);
      BinExtractsSecond(op, e1, e2.left, e2.right, common, a, b, c);
    } else if ExprEq(e1, e2) {
      EqualExtracts(op, common, e1, e2, c);
    }
  }

  /** Factoring is exact: each expression is its remainder joined with the extracted part. */
  lemma ExtractEqExact(op: Op, e1: Expr, e2: Expr, c: Cfg)
    ensures var r := ExtractEqTop(op, e1, e2);
            && Eval(e1, c) == Join(op, Eval(r.fst, c), EvalCommon(op, r.common, c))
            && Eval(e2, c) == Join(op, Eval(r.snd, c), EvalCommon(op, r.common, c))
  {
    var r := ExtractEq(op, None, e1, e2);
    ExtractEqSplits(op, None, e1, e2, c);
    EliminateYnExact(r.fst, c);
    EliminateYnExact(r.snd, c);
  }
}
