/** Dependency expressions of the Kconfig tools and their three-valued meaning
    (support/kconfig/expr.h and expr_calc_value in support/kconfig/expr.c). */
module KExpr {

  /** Tristate values: n is 0, m is 1, y is 2. */
  type Tri = x: int | 0 <= x <= 2
  const NO: Tri := 0
  const MOD: Tri := 1
  const YES: Tri := 2

  datatype SymType = Unknown | Boolean | Tristate | IntNum | Hex | Str

  /** The text of a constant symbol; the lookup maps "y", "m" and "n" to the three built-in symbols. */
  type ConstText = t: string | t !in {"y", "m", "n"} witness ""

  /** A symbol.  Structural equality stands for pointer equality: the symbol table holds one symbol per name. */
  datatype Symbol =
    | Yes
    | Mod
    | No
    | Const(text: ConstText)
    | Config(name: string, ty: SymType)
  {
    function Type(): SymType {
      if Config? then ty else Unknown
    }

    predicate IsConst() {
      !Config?
    }

    predicate IsYmn() {
      Yes? || Mod? || No?
    }
  }

  datatype Op = And | Or

  datatype Expr =
    | Sym(s: Symbol)
    | Cmp(equal: bool, l: Symbol, r: Symbol)   // E_EQUAL, E_UNEQUAL
    | Not(e: Expr)
    | Bin(op: Op, left: Expr, right: Expr)     // E_AND, E_OR

  datatype Option<T> = None | Some(value: T)

  predicate IsOp(e: Expr, op: Op) {
    e.Bin? && e.op == op
  }

  function Size(e: Expr): nat {
    match e
    case Sym(_) => 1
    case Cmp(_, _, _) => 1
    case Not(x) => 1 + Size(x)
    case Bin(_, l, r) => 1 + Size(l) + Size(r)
  }

  /** The symbols an expression refers to. */
  function SymbolsOf(e: Expr): set<Symbol> {
    match e
    case Sym(s) => {s}
    case Cmp(_, l, r) => {l, r}
    case Not(x) => SymbolsOf(x)
    case Bin(_, l, r) => SymbolsOf(l) + SymbolsOf(r)
  }

  /** EXPR_AND and EXPR_OR. */
  function Join(op: Op, a: Tri, b: Tri): Tri {
    match op
    case And => if a < b then a else b
    case Or => if a > b then a else b
  }

  /** The symbol that does not change the other operand, and the one that overrides it. */
  function Unit(op: Op): Symbol {
    if op == And then Yes else No
  }

  function Zero(op: Op): Symbol {
    if op == And then No else Yes
  }

  /** A configuration: whether modules are enabled, and the values the symbols would take.  The accessors below
      cut it down to what sym_calc_value leaves behind: a boolean symbol is never m, a tristate symbol is m only
      with modules, a symbol of another type has the tristate value n. */
  datatype Cfg = Cfg(modules: bool, raw: Symbol -> Tri, text: Symbol -> string)

  function TriOf(c: Cfg, s: Symbol): Tri {
    match s
    case Yes => YES
    case Mod => MOD
    case No => NO
    case Const(_) => NO
    case Config(_, ty) =>
      if ty == Boolean || (ty == Tristate && !c.modules) then (if c.raw(s) == NO then NO else YES)
      else if ty == Tristate then c.raw(s)
      else NO
  }

  function TriText(v: Tri): string {
    if v == NO then "n" else if v == MOD then "m" else "y"
  }

  function TextOf(c: Cfg, s: Symbol): string {
    match s
    case Yes => "y"
    case Mod => "m"
    case No => "n"
    case Const(t) => t
    case Config(_, ty) => if ty == Boolean || ty == Tristate then TriText(TriOf(c, s)) else c.text(s)
  }

  /** expr_calc_value. */
  function Eval(e: Expr, c: Cfg): Tri {
    match e
    case Sym(s) => TriOf(c, s)
    case Cmp(equal, l, r) => if (TextOf(c, l) == TextOf(c, r)) == equal then YES else NO
    case Not(x) => 2 - Eval(x, c)
    case Bin(op, l, r) => Join(op, Eval(l, c), Eval(r, c))
  }

  /** A missing expression evaluates to y. */
  function EvalOpt(e: Option<Expr>, c: Cfg): Tri {
    match e
    case None => YES
    case Some(x) => Eval(x, c)
  }

  /** The information order with m below n and y: a definite value stays what it is. */
  predicate Refines(before: Tri, after: Tri) {
    before == MOD || after == before
  }
}

/** Normalisation: expr_transform (support/kconfig/expr.c:636-771). */
module KTransform {
  import opened KExpr

  /** The size that falls when a negation moves inward. */
  function Weight(e: Expr): nat {
    match e
    case Sym(_) => 1
    case Cmp(_, _, _) => 2
    case Not(x) => 2 * Weight(x)
    case Bin(_, l, r) => Weight(l) + Weight(r) + 1
  }

  function Dual(op: Op): Op {
    if op == And then Or else And
  }

  lemma WeightPositive(e: Expr)
    ensures Weight(e) >= 1
  {
  }

  lemma DeMorganIsLighter(op: Op, a: Expr, b: Expr)
    ensures Weight(Bin(Dual(op), Not(a), Not(b))) < 2 * Weight(Bin(op, a, b))
  {
    assert Weight(Not(a)) == 2 * Weight(a) && Weight(Not(b)) == 2 * Weight(b);
  }

  function Transform(e: Expr): (r: Expr)
    ensures Weight(r) <= Weight(e)
    decreases Weight(e)
  {
    match e
    case Sym(_) => e
    case Cmp(equal, l, r) =>
      if l.Type() != Boolean then e
      else if r == (if equal then No else Yes) then Not(Sym(l))
      else if r == Mod then Sym(if equal then No else Yes)
      else if r == (if equal then Yes else No) then Sym(l)
      else e
    case Bin(op, l, r) =>
      WeightPositive(l); WeightPositive(r);
      Bin(op, Transform(l), Transform(r))
    case Not(x) =>
      WeightPositive(x);
      match Transform(x)
      case Not(y) => WeightPositive(y); Transform(y)
      case Cmp(equal, l, r) => Cmp(!equal, l, r)
      case Bin(op, a, b) => DeMorganIsLighter(op, a, b); Transform(Bin(Dual(op), Not(a), Not(b)))
      case Sym(s) =>
        if s == Yes then Sym(No)
        else if s == Mod then Sym(Mod)
        else if s == No then Sym(Yes)
        else Not(Sym(s))
  }

  /** The shape expr_transform establishes: negation only on symbols other than y, m and n, and no boolean
      symbol compared with y, m or n. */
  predicate Normal(e: Expr) {
    match e
    case Sym(_) => true
    case Cmp(_, l, r) => !(l.Type() == Boolean && r.IsYmn())
    case Not(x) => x.Sym? && !x.s.IsYmn()
    case Bin(_, l, r) => Normal(l) && Normal(r)
  }

  lemma {:induction false} TransformNormal(e: Expr)
    ensures Normal(Transform(e))
    decreases Weight(e)
  {
    match e
    case Sym(_) =>
    case Cmp(_, _, _) =>
    case Bin(op, l, r) =>
      WeightPositive(l); WeightPositive(r);
      TransformNormal(l);
      TransformNormal(r);
    case Not(x) =>
      WeightPositive(x);
      TransformNormal(x);
      match Transform(x) {
        case Not(y) => WeightPositive(y); TransformNormal(y);
        case Bin(op, a, b) => DeMorganIsLighter(op, a, b); TransformNormal(Bin(Dual(op), Not(a), Not(b)));
        case Cmp(_, _, _) =>
        case Sym(_) =>
      }
  }

  /** expr_transform keeps the value in every configuration. */
  lemma {:induction false} TransformKeepsValue(e: Expr, c: Cfg)
    ensures Eval(Transform(e), c) == Eval(e, c)
    decreases Weight(e)
  {
    match e
    case Sym(_) =>
    case Cmp(_, _, _) =>
    case Bin(op, l, r) =>
      WeightPositive(l); WeightPositive(r);
      TransformKeepsValue(l, c);
      TransformKeepsValue(r, c);
    case Not(x) =>
      WeightPositive(x);
      TransformKeepsValue(x, c);
      match Transform(x) {
        case Not(y) => WeightPositive(y); TransformKeepsValue(y, c);
        case Bin(op, a, b) => DeMorganIsLighter(op, a, b); TransformKeepsValue(Bin(Dual(op), Not(a), Not(b)), c);
        case Cmp(_, _, _) =>
        case Sym(_) =>
      }
  }

  lemma {:induction false} NormalIsFixed(e: Expr)
    requires Normal(e)
    ensures Transform(e) == e
  {
    match e
    case Sym(_) =>
    case Cmp(_, _, _) =>
    case Not(x) =>
      NormalIsFixed(x);
    case Bin(_, l, r) =>
      NormalIsFixed(l);
      NormalIsFixed(r);
  }

  /** The result of expr_transform is in normal form, and exactly the expressions in normal form are left alone;
      so a second application changes nothing. */
  lemma TransformIdempotent(e: Expr)
    ensures Transform(Transform(e)) == Transform(e)
    ensures Transform(e) == e <==> Normal(e)
  {
    TransformNormal(e);
    NormalIsFixed(Transform(e));
    if Normal(e) {
      NormalIsFixed(e);
    }
  }
}
