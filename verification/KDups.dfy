/** Removal of duplicate operands: expr_join_or, expr_join_and, expr_eliminate_dups1/2 and expr_eliminate_dups
    (support/kconfig/expr.c:346-634).

    The two passes walk one tree through two pointers.  A pointer into the tree is a path from the root of the
    subtree being simplified, so that two pointers are equal when the paths are, however alike the operands. */
module KDups {
  import opened KExpr
  import opened KTransform
  import opened KEliminate

  // ---------------------------------------------------------------------------------------------------------
  // Joining two operands
  // ---------------------------------------------------------------------------------------------------------

  /** The symbol an operand of a join speaks about, if it has one of the admitted forms. */
  function SubjectOfFirst(e: Expr): Option<Symbol> {
    match e
    case Sym(s) => Some(s)
    case Cmp(_, l, _) => Some(l)
    case Not(Sym(s)) => Some(s)
    case Not(Cmp(_, l, _)) => Some(l)
    case _ => None
  }

  function SubjectOfSecond(e: Expr): Option<Symbol> {
    match e
    case Sym(s) => Some(s)
    case Cmp(_, l, _) => Some(l)
    case Not(Sym(s)) => Some(s)
    case _ => None
  }

  /** Both operands are about one boolean or tristate symbol. */
  function Subject(e1: Expr, e2: Expr): Option<Symbol> {
    var s := SubjectOfFirst(e1);
    if s.Some? && s == SubjectOfSecond(e2) && (s.value.Type() == Boolean || s.value.Type() == Tristate)
    then s else None
  }

  /** The two comparisons have the right-hand sides a and b, in either order. */
  predicate RightSides(e1: Expr, e2: Expr, a: Symbol, b: Symbol) {
    e1.Cmp? && e2.Cmp? && ((e1.r == a && e2.r == b) || (e1.r == b && e2.r == a))
  }

  predicate IsCmp(e: Expr, equal: bool) {
    e.Cmp? && e.equal == equal
  }

  /** One operand is a symbol and the other a comparison of the given kind with r. */
  predicate SymAndCmp(e1: Expr, e2: Expr, equal: bool, r: Symbol) {
    || (e1.Sym? && IsCmp(e2, equal) && e2.r == r)
    || (e2.Sym? && IsCmp(e1, equal) && e1.r == r)
  }

  function JoinOr(e1: Expr, e2: Expr): Option<Expr> {
    if ExprEq(e1, e2) then Some(e1)
    else
      var subject := Subject(e1, e2);
      if subject.None? then None
      else
        var s := subject.value;
        if s.Type() == Tristate && IsCmp(e1, true) && IsCmp(e2, true) && RightSides(e1, e2, Yes, Mod) then
          Some(Cmp(false, s, No))
        else if s.Type() == Tristate && IsCmp(e1, true) && IsCmp(e2, true) && RightSides(e1, e2, Yes, No) then
          Some(Cmp(false, s, Mod))
        else if s.Type() == Tristate && IsCmp(e1, true) && IsCmp(e2, true) && RightSides(e1, e2, Mod, No) then
          Some(Cmp(false, s, Yes))
        else if s.Type() == Boolean
                && ((e1.Not? && e1.e.Sym? && e2.Sym?) || (e2.Not? && e2.e.Sym? && e1.Sym?)) then
          Some(Sym(Yes))
        else None
  }

  /** (a == b) && (a != c), the equation given first. */
  function EqualAndUnequal(s: Symbol, b: Symbol, c: Symbol): Expr {
    if b != c then Cmp(true, s, b) else Sym(No)
  }

  function JoinAnd(e1: Expr, e2: Expr): Option<Expr> {
    if ExprEq(e1, e2) then Some(e1)
    else
      var subject := Subject(e1, e2);
      if subject.None? then None
      else
        var s := subject.value;
        if SymAndCmp(e1, e2, true, Yes) then Some(Cmp(true, s, Yes))
        else if SymAndCmp(e1, e2, false, No) then Some(Sym(s))
        else if SymAndCmp(e1, e2, false, Mod) then Some(Cmp(true, s, Yes))
        else if s.Type() != Tristate then None
        else if IsCmp(e1, true) && IsCmp(e2, false) && e1.r.IsConst() && e2.r.IsConst() then
          Some(EqualAndUnequal(s, e1.r, e2.r))
        else if IsCmp(e1, false) && IsCmp(e2, true) && e1.r.IsConst() && e2.r.IsConst() then
          Some(EqualAndUnequal(s, e2.r, e1.r))
        else if IsCmp(e1, false) && IsCmp(e2, false) && RightSides(e1, e2, Yes, No) then Some(Cmp(true, s, Mod))
        else if IsCmp(e1, false) && IsCmp(e2, false) && RightSides(e1, e2, Yes, Mod) then Some(Cmp(true, s, No))
        else if IsCmp(e1, false) && IsCmp(e2, false) && RightSides(e1, e2, Mod, No) then Some(Cmp(true, s, Yes))
        else None
  }

  function JoinExpr(op: Op, e1: Expr, e2: Expr): Option<Expr> {
    if op == Or then JoinOr(e1, e2) else JoinAnd(e1, e2)
  }

  lemma ConstTextsDiffer(a: Symbol, b: Symbol, c: Cfg)
    requires a.IsConst() && b.IsConst() && a != b
    ensures TextOf(c, a) != TextOf(c, b)
  {
  }

  lemma JoinOrIsExact(e1: Expr, e2: Expr, c: Cfg)
    requires JoinOr(e1, e2).Some?
    ensures Eval(JoinOr(e1, e2).value, c) == Join(Or, Eval(e1, c), Eval(e2, c))
  {
    if ExprEq(e1, e2) {
      ExprEqSound(e1, e2, c);
    } else {
      var s := Subject(e1, e2).value;
      assert TextOf(c, s) == TriText(TriOf(c, s));
    }
  }

  lemma JoinAndIsExact(e1: Expr, e2: Expr, c: Cfg)
    requires JoinAnd(e1, e2).Some?
    ensures Eval(JoinAnd(e1, e2).value, c) == Join(And, Eval(e1, c), Eval(e2, c))
  {
    if ExprEq(e1, e2) {
      ExprEqSound(e1, e2, c);
    } else {
      var s := Subject(e1, e2).value;
      assert TextOf(c, s) == TriText(TriOf(c, s));
      if e1.Cmp? && e2.Cmp? && e1.r.IsConst() && e2.r.IsConst() && e1.r != e2.r {
        ConstTextsDiffer(e1.r, e2.r, c);
      }
    }
  }

  /** Every rule replaces two operands by an expression of exactly their joint value. */
  lemma JoinIsExact(op: Op, e1: Expr, e2: Expr, c: Cfg)
    requires JoinExpr(op, e1, e2).Some?
    ensures Eval(JoinExpr(op, e1, e2).value, c) == Join(op, Eval(e1, c), Eval(e2, c))
  {
    if op == Or {
      JoinOrIsExact(e1, e2, c);
    } else {
      JoinAndIsExact(e1, e2, c);
    }
  }

  /** Which comparisons of one symbol are joined with each other and with the symbol.  Equal ones are.  For a tristate
      symbol, under OR: two equations with y, m or n; under AND: an equation and an inequation with constants, and two
      inequations with y, m or n.  For a tristate or boolean symbol, under AND: the symbol with `= y`, `!= n` or `!= m`. */
  lemma JoinFinds(s: Symbol, p: bool, a: Symbol, q: bool, b: Symbol)
    requires s.Type() == Tristate || s.Type() == Boolean
    ensures var e1, e2, tristate, ymn := Cmp(p, s, a), Cmp(q, s, b), s.Type() == Tristate, a.IsYmn() && b.IsYmn();
            && (JoinOr(e1, e2).Some? <==> e1 == e2 || (tristate && p && q && ymn))
            && (JoinAnd(e1, e2).Some? <==>
                  e1 == e2 || (tristate && if p != q then a.IsConst() && b.IsConst() else !p && ymn))
            && (JoinAnd(Sym(s), e2).Some? <==> if q then b == Yes else b == No || b == Mod)
            && (JoinAnd(e1, Sym(s)).Some? <==> if p then a == Yes else a == No || a == Mod)
            && JoinOr(Sym(s), e2).None? && JoinOr(e1, Sym(s)).None?
  {
  }

  /** Which negations are: the negation of a boolean symbol with the symbol, under OR; and nothing else, but equal ones. */
  lemma JoinFindsNegations(op: Op, s: Symbol, p: bool, a: Symbol, q: bool, b: Symbol)
    requires s.Type() == Tristate || s.Type() == Boolean
    ensures JoinExpr(op, Sym(s), Not(Sym(s))) == JoinExpr(op, Not(Sym(s)), Sym(s))
    ensures JoinExpr(op, Sym(s), Not(Sym(s))) == if op == Or && s.Type() == Boolean then Some(Sym(Yes)) else None
    ensures JoinExpr(op, Not(Sym(s)), Cmp(q, s, b)).None? && JoinExpr(op, Cmp(q, s, b), Not(Sym(s))).None?
    ensures forall x :: x in {Sym(s), Not(Sym(s)), Cmp(q, s, b), Not(Cmp(q, s, b))} ==>
                          OnlyItself(op, Not(Cmp(p, s, a)), x)
  {
    forall x | x in {Sym(s), Not(Sym(s)), Cmp(q, s, b), Not(Cmp(q, s, b))} ensures OnlyItself(op, Not(Cmp(p, s, a)), x) {
      NegatedCmpFinds(op, p, s, a, x);
    }
  }

  predicate OnlyItself(op: Op, e1: Expr, e2: Expr) {
    (JoinExpr(op, e1, e2).Some? <==> e1 == e2) && (JoinExpr(op, e2, e1).Some? <==> e1 == e2)
  }

  lemma NegatedCmpFinds(op: Op, p: bool, s: Symbol, a: Symbol, x: Expr)
    requires x.Sym? || x.Cmp? || (x.Not? && (x.e.Sym? || x.e.Cmp?))
    ensures OnlyItself(op, Not(Cmp(p, s, a)), x)
  {
    var e := Cmp(p, s, a);
    if x.Not? {
      assert ExprEq(Not(e), x) == ExprEq(e, x.e) && ExprEq(x, Not(e)) == ExprEq(x.e, e);
    }
  }

  lemma JoinKeepsShape(op: Op, e1: Expr, e2: Expr)
    requires JoinExpr(op, e1, e2).Some?
    requires !IsOp(e1, op) && !IsOp(e2, op)
    ensures var r := JoinExpr(op, e1, e2).value;
            && !IsOp(r, op)
            && Size(r) <= Size(e1)
            && (Normal(e1) && Normal(e2) ==> Normal(r))
  {
  }

  // ---------------------------------------------------------------------------------------------------------
  // The spine of an expression
  // ---------------------------------------------------------------------------------------------------------

  /** The way down from the root of a subtree, `true` for the right operand. */
  type Path = seq<bool>

  function Child(e: Expr, right: bool): Expr
    requires e.Bin?
  {
    if right then e.right else e.left
  }

  function WithChild(e: Expr, right: bool, x: Expr): Expr
    requires e.Bin?
  {
    if right then e.(right := x) else e.(left := x)
  }

  /** All nodes above the end of the path are `op` nodes. */
  predicate OnSpine(op: Op, t: Expr, p: Path) {
    p == [] || (IsOp(t, op) && OnSpine(op, Child(t, p[0]), p[1..]))
  }

  function At(op: Op, t: Expr, p: Path): Expr
    requires OnSpine(op, t, p)
  {
    if p == [] then t else At(op, Child(t, p[0]), p[1..])
  }

  /** The tree after `*p = x`. */
  function Put(op: Op, t: Expr, p: Path, x: Expr): Expr
    requires OnSpine(op, t, p)
  {
    if p == [] then x else WithChild(t, p[0], Put(op, Child(t, p[0]), p[1..], x))
  }

  function SpineSize(op: Op, t: Expr): nat {
    if IsOp(t, op) then 1 + SpineSize(op, t.left) + SpineSize(op, t.right) else 1
  }

  /** The two trees have the same arrangement of `op` nodes at the top. */
  predicate SameSpine(op: Op, t: Expr, u: Expr) {
    if IsOp(t, op) then IsOp(u, op) && SameSpine(op, t.left, u.left) && SameSpine(op, t.right, u.right)
    else !IsOp(u, op)
  }

  lemma {:induction false} SameSpineReflexive(op: Op, t: Expr)
    ensures SameSpine(op, t, t)
  {
    if IsOp(t, op) {
      SameSpineReflexive(op, t.left);
      SameSpineReflexive(op, t.right);
    }
  }

  lemma {:induction false} SameSpineTransitive(op: Op, t: Expr, u: Expr, v: Expr)
    requires SameSpine(op, t, u) && SameSpine(op, u, v)
    ensures SameSpine(op, t, v)
  {
    if IsOp(t, op) {
      SameSpineTransitive(op, t.left, u.left, v.left);
      SameSpineTransitive(op, t.right, u.right, v.right);
    }
  }

  lemma {:induction false} SameSpineSize(op: Op, t: Expr, u: Expr)
    requires SameSpine(op, t, u)
    ensures SpineSize(op, t) == SpineSize(op, u)
  {
    if IsOp(t, op) {
      SameSpineSize(op, t.left, u.left);
      SameSpineSize(op, t.right, u.right);
    }
  }

  lemma {:induction false} SameSpineAt(op: Op, t: Expr, u: Expr, p: Path)
    requires SameSpine(op, t, u) && OnSpine(op, t, p)
    ensures OnSpine(op, u, p) && SameSpine(op, At(op, t, p), At(op, u, p))
    ensures SpineSize(op, At(op, t, p)) == SpineSize(op, At(op, u, p))
    decreases |p|
  {
    if p == [] {
      SameSpineSize(op, t, u);
    } else {
      SameSpineAt(op, Child(t, p[0]), Child(u, p[0]), p[1..]);
    }
  }

  /** One step further down. */
  lemma {:induction false} Descend(op: Op, t: Expr, p: Path, right: bool)
    requires OnSpine(op, t, p) && IsOp(At(op, t, p), op)
    ensures OnSpine(op, t, p + [right]) && At(op, t, p + [right]) == Child(At(op, t, p), right)
    decreases |p|
  {
    if p == [] {
      assert OnSpine(op, Child(t, right), []);
      assert (p + [right])[1..] == [];
    } else {
      Descend(op, Child(t, p[0]), p[1..], right);
      assert (p + [right])[1..] == p[1..] + [right];
    }
  }

  lemma {:induction false} AtIsSmaller(op: Op, t: Expr, p: Path)
    requires OnSpine(op, t, p)
    ensures Size(At(op, t, p)) <= Size(t) && (p != [] ==> Size(At(op, t, p)) < Size(t))
    decreases |p|
  {
    if p != [] {
      AtIsSmaller(op, Child(t, p[0]), p[1..]);
    }
  }

  /** Storing an operand that is no `op` node over another one. */
  lemma {:induction false} PutOperand(op: Op, t: Expr, p: Path, x: Expr)
    requires OnSpine(op, t, p) && !IsOp(At(op, t, p), op) && !IsOp(x, op)
    ensures SameSpine(op, t, Put(op, t, p, x))
    ensures Size(Put(op, t, p, x)) == Size(t) - Size(At(op, t, p)) + Size(x)
    ensures x == At(op, t, p) ==> Put(op, t, p, x) == t
    decreases |p|
  {
    if p != [] {
      PutOperand(op, Child(t, p[0]), p[1..], x);
      SameSpineReflexive(op, Child(t, !p[0]));
    }
  }

  lemma {:induction false} PutElsewhere(op: Op, t: Expr, p: Path, q: Path, x: Expr)
    requires OnSpine(op, t, p) && !IsOp(At(op, t, p), op)
    requires OnSpine(op, t, q) && !IsOp(At(op, t, q), op)
    requires p != q
    ensures OnSpine(op, Put(op, t, p, x), q) && At(op, Put(op, t, p, x), q) == At(op, t, q)
    decreases |p|
  {
    if p != [] && q != [] && p[0] == q[0] {
      assert p == [p[0]] + p[1..] && q == [q[0]] + q[1..];
      PutElsewhere(op, Child(t, p[0]), p[1..], q[1..], x);
    }
  }

  /** The value of a tree is the value of one operand joined with that of the rest. */
  lemma {:induction false} PutValue(op: Op, t: Expr, p: Path, x: Expr, c: Cfg)
    requires OnSpine(op, t, p)
    ensures Eval(Put(op, t, p, x), c) == Join(op, Eval(Put(op, t, p, Sym(Unit(op))), c), Eval(x, c))
    decreases |p|
  {
    if p != [] {
      PutValue(op, Child(t, p[0]), p[1..], x, c);
    }
  }

  lemma {:induction false} PutBack(op: Op, t: Expr, p: Path)
    requires OnSpine(op, t, p)
    ensures Put(op, t, p, At(op, t, p)) == t
    decreases |p|
  {
    if p != [] {
      PutBack(op, Child(t, p[0]), p[1..]);
    }
  }

  /** An operand bounds the whole: nothing is above a conjunct or below a disjunct. */
  lemma {:induction false} SpineBound(op: Op, t: Expr, p: Path, c: Cfg)
    requires OnSpine(op, t, p)
    ensures Join(op, Eval(t, c), Eval(At(op, t, p), c)) == Eval(t, c)
    decreases |p|
  {
    if p != [] {
      SpineBound(op, Child(t, p[0]), p[1..], c);
    }
  }

  lemma {:induction false} AtNormal(op: Op, t: Expr, p: Path)
    requires OnSpine(op, t, p) && Normal(t)
    ensures Normal(At(op, t, p))
    decreases |p|
  {
    if p != [] {
      AtNormal(op, Child(t, p[0]), p[1..]);
    }
  }

  lemma {:induction false} PutNormal(op: Op, t: Expr, p: Path, x: Expr)
    requires OnSpine(op, t, p) && Normal(t) && Normal(x)
    ensures Normal(Put(op, t, p, x))
    decreases |p|
  {
    if p != [] {
      PutNormal(op, Child(t, p[0]), p[1..], x);
    }
  }

  lemma {:induction false} AtPut(op: Op, t: Expr, p: Path, x: Expr)
    requires OnSpine(op, t, p)
    ensures OnSpine(op, Put(op, t, p, x), p) && At(op, Put(op, t, p, x), p) == x
    decreases |p|
  {
    if p != [] {
      AtPut(op, Child(t, p[0]), p[1..], x);
    }
  }

  /** An operand that is y or n, or contains one on its own spine, is found by the constant elimination. */
  lemma {:induction false} AtHasYn(op: Op, t: Expr, p: Path)
    requires OnSpine(op, t, p) && p != [] && (IsYn(At(op, t, p)) || HasYn(At(op, t, p)))
    ensures HasYn(t)
    decreases |p|
  {
    if |p| > 1 {
      AtHasYn(op, Child(t, p[0]), p[1..]);
    }
  }

  // ---------------------------------------------------------------------------------------------------------
  // expr_eliminate_dups1
  // ---------------------------------------------------------------------------------------------------------

  /** A rewritten tree and the number of counted rewrites. */
  datatype Counted = Counted(e: Expr, n: nat)

  /** Without a counted rewrite the tree is left alone; with one, an operand y or n is left on its spine; and the
      normal form is kept. */
  predicate Proper(t: Expr, r: Counted) {
    && (if r.n == 0 then r.e == t else HasYn(r.e))
    && (Normal(t) ==> Normal(r.e))
  }

  lemma ProperCompose(t: Expr, a: Counted, b: Counted)
    requires Proper(t, a) && Proper(a.e, b)
    ensures Proper(t, Counted(b.e, a.n + b.n))
  {
  }

  /** expr_eliminate_dups1(op, p1, p2) on the tree t. */
  function Dups1(op: Op, t: Expr, p1: Path, p2: Path): (r: Counted)
    requires OnSpine(op, t, p1) && OnSpine(op, t, p2)
    ensures SameSpine(op, t, r.e) && Size(r.e) <= Size(t)
    decreases Size(t), SpineSize(op, At(op, t, p1)) + SpineSize(op, At(op, t, p2)), 1
  {
    if IsOp(At(op, t, p1), op) then
      Descend(op, t, p1, false);
      var a := Dups1(op, t, p1 + [false], p2);
      SameSpineAt(op, t, a.e, p1); SameSpineAt(op, t, a.e, p2);
      Descend(op, a.e, p1, true);
      var b := Dups1(op, a.e, p1 + [true], p2);
      SameSpineTransitive(op, t, a.e, b.e);
      Counted(b.e, a.n + b.n)
    else if IsOp(At(op, t, p2), op) then
      Descend(op, t, p2, false);
      var a := Dups1(op, t, p1, p2 + [false]);
      SameSpineAt(op, t, a.e, p1); SameSpineAt(op, t, a.e, p2);
      Descend(op, a.e, p2, true);
      var b := Dups1(op, a.e, p1, p2 + [true]);
      SameSpineTransitive(op, t, a.e, b.e);
      Counted(b.e, a.n + b.n)
    else if p1 == p2 then
      SameSpineReflexive(op, t);
      Counted(t, 0)
    else Dups1Pair(op, t, p1, p2)
  }

  /** Two different operands: the first is simplified by itself, then the two are joined if a rule applies. */
  function Dups1Pair(op: Op, t: Expr, p1: Path, p2: Path): (r: Counted)
    requires OnSpine(op, t, p1) && !IsOp(At(op, t, p1), op)
    requires OnSpine(op, t, p2) && !IsOp(At(op, t, p2), op)
    requires p1 != p2
    ensures SameSpine(op, t, r.e) && Size(r.e) <= Size(t)
    decreases Size(t), SpineSize(op, At(op, t, p1)) + SpineSize(op, At(op, t, p2)), 0
  {
    AtIsSmaller(op, t, p1);
    var e1, e2 := At(op, t, p1), At(op, t, p2);
    var s := if e1.Bin? then Dups1(e1.op, e1, [], []) else Counted(e1, 0);
    PutOperand(op, t, p1, s.e); PutOperand(op, t, p1, Sym(Unit(op)));
    PutElsewhere(op, t, p1, p2, Sym(Unit(op)));
    match JoinExpr(op, s.e, e2)
    case None => Counted(Put(op, t, p1, s.e), s.n)
    case Some(x) =>
      JoinKeepsShape(op, s.e, e2);
      var t1 := Put(op, t, p1, Sym(Unit(op)));
      PutOperand(op, t1, p2, x);
      SameSpineTransitive(op, t, t1, Put(op, t1, p2, x));
      Counted(Put(op, t1, p2, x), s.n + 1)
  }

  /** Replacing two operands by the unit and by their joint value. */
  lemma PutTwo(op: Op, t: Expr, p1: Path, p2: Path, x: Expr, c: Cfg)
    requires OnSpine(op, t, p1) && !IsOp(At(op, t, p1), op)
    requires OnSpine(op, t, p2) && !IsOp(At(op, t, p2), op)
    requires p1 != p2
    requires Eval(x, c) == Join(op, Eval(At(op, t, p1), c), Eval(At(op, t, p2), c))
    ensures var t1 := Put(op, t, p1, Sym(Unit(op)));
            OnSpine(op, t1, p2) && Eval(Put(op, t1, p2, x), c) == Eval(t, c)
  {
    var t1 := Put(op, t, p1, Sym(Unit(op)));
    PutElsewhere(op, t, p1, p2, Sym(Unit(op)));
    PutBack(op, t, p1);
    PutValue(op, t, p1, At(op, t, p1), c);
    PutBack(op, t1, p2);
    PutValue(op, t1, p2, At(op, t, p2), c);
    PutValue(op, t1, p2, x, c);
  }

  /** The first pass is exact: it keeps the value in every configuration. */
  lemma {:induction false} Dups1Exact(op: Op, t: Expr, p1: Path, p2: Path, c: Cfg)
    requires OnSpine(op, t, p1) && OnSpine(op, t, p2)
    ensures Eval(Dups1(op, t, p1, p2).e, c) == Eval(t, c)
    decreases Size(t), SpineSize(op, At(op, t, p1)) + SpineSize(op, At(op, t, p2)), 1
  {
    if IsOp(At(op, t, p1), op) {
      Descend(op, t, p1, false);
      var a := Dups1(op, t, p1 + [false], p2);
      Dups1Exact(op, t, p1 + [false], p2, c);
      SameSpineAt(op, t, a.e, p1); SameSpineAt(op, t, a.e, p2);
      Descend(op, a.e, p1, true);
      Dups1Exact(op, a.e, p1 + [true], p2, c);
    } else if IsOp(At(op, t, p2), op) {
      Descend(op, t, p2, false);
      var a := Dups1(op, t, p1, p2 + [false]);
      Dups1Exact(op, t, p1, p2 + [false], c);
      SameSpineAt(op, t, a.e, p1); SameSpineAt(op, t, a.e, p2);
      Descend(op, a.e, p2, true);
      Dups1Exact(op, a.e, p1, p2 + [true], c);
    } else if p1 != p2 {
      Dups1PairExact(op, t, p1, p2, c);
    }
  }

  lemma {:induction false} Dups1PairExact(op: Op, t: Expr, p1: Path, p2: Path, c: Cfg)
    requires OnSpine(op, t, p1) && !IsOp(At(op, t, p1), op)
    requires OnSpine(op, t, p2) && !IsOp(At(op, t, p2), op)
    requires p1 != p2
    ensures Eval(Dups1Pair(op, t, p1, p2).e, c) == Eval(t, c)
    decreases Size(t), SpineSize(op, At(op, t, p1)) + SpineSize(op, At(op, t, p2)), 0
  {
    AtIsSmaller(op, t, p1);
    var e1, e2 := At(op, t, p1), At(op, t, p2);
    var s := if e1.Bin? then Dups1(e1.op, e1, [], []) else Counted(e1, 0);
    if e1.Bin? {
      Dups1Exact(e1.op, e1, [], [], c);
    }
    match JoinExpr(op, s.e, e2)
    case None =>
      PutBack(op, t, p1);
      PutValue(op, t, p1, e1, c);
      PutValue(op, t, p1, s.e, c);
    case Some(x) =>
      JoinIsExact(op, s.e, e2, c);
      PutTwo(op, t, p1, p2, x, c);
  }

  /** Without a counted rewrite the first pass leaves the tree alone; with one, it leaves an operand y or n; and
      it keeps the normal form. */
  lemma {:induction false} Dups1Shape(op: Op, t: Expr, p1: Path, p2: Path)
    requires OnSpine(op, t, p1) && OnSpine(op, t, p2)
    ensures Proper(t, Dups1(op, t, p1, p2))
    decreases Size(t), SpineSize(op, At(op, t, p1)) + SpineSize(op, At(op, t, p2)), 1
  {
    if IsOp(At(op, t, p1), op) {
      Descend(op, t, p1, false);
      var a := Dups1(op, t, p1 + [false], p2);
      Dups1Shape(op, t, p1 + [false], p2);
      SameSpineAt(op, t, a.e, p1); SameSpineAt(op, t, a.e, p2);
      Descend(op, a.e, p1, true);
      Dups1Shape(op, a.e, p1 + [true], p2);
      ProperCompose(t, a, Dups1(op, a.e, p1 + [true], p2));
    } else if IsOp(At(op, t, p2), op) {
      Descend(op, t, p2, false);
      var a := Dups1(op, t, p1, p2 + [false]);
      Dups1Shape(op, t, p1, p2 + [false]);
      SameSpineAt(op, t, a.e, p1); SameSpineAt(op, t, a.e, p2);
      Descend(op, a.e, p2, true);
      Dups1Shape(op, a.e, p1, p2 + [true]);
      ProperCompose(t, a, Dups1(op, a.e, p1, p2 + [true]));
    } else if p1 != p2 {
      Dups1PairShape(op, t, p1, p2);
    }
  }

  lemma {:induction false} Dups1PairShape(op: Op, t: Expr, p1: Path, p2: Path)
    requires OnSpine(op, t, p1) && !IsOp(At(op, t, p1), op)
    requires OnSpine(op, t, p2) && !IsOp(At(op, t, p2), op)
    requires p1 != p2
    ensures Proper(t, Dups1Pair(op, t, p1, p2))
    decreases Size(t), SpineSize(op, At(op, t, p1)) + SpineSize(op, At(op, t, p2)), 0
  {
    AtIsSmaller(op, t, p1);
    var e1, e2 := At(op, t, p1), At(op, t, p2);
    var s := if e1.Bin? then Dups1(e1.op, e1, [], []) else Counted(e1, 0);
    if e1.Bin? {
      Dups1Shape(e1.op, e1, [], []);
    }
    if Normal(t) {
      AtNormal(op, t, p1);
      AtNormal(op, t, p2);
    }
    match JoinExpr(op, s.e, e2)
    case None =>
      PutBack(op, t, p1);
      AtPut(op, t, p1, s.e);
      if s.n > 0 {
        AtHasYn(op, Put(op, t, p1, s.e), p1);
      }
      if Normal(t) {
        PutNormal(op, t, p1, s.e);
      }
    case Some(x) =>
      JoinKeepsShape(op, s.e, e2);
      var unit := Sym(Unit(op));
      var t1 := Put(op, t, p1, unit);
      PutOperand(op, t, p1, unit);
      AtPut(op, t, p1, unit);
      PutElsewhere(op, t, p1, p2, unit);
      PutOperand(op, t1, p2, x);
      PutElsewhere(op, t1, p2, p1, x);
      AtHasYn(op, Put(op, t1, p2, x), p1);
      if Normal(t) {
        PutNormal(op, t, p1, unit);
        PutNormal(op, t1, p2, x);
      }
  }

  // ---------------------------------------------------------------------------------------------------------
  // expr_eliminate_dups2
  // ---------------------------------------------------------------------------------------------------------

  /** Nothing but the unit remains of the negated operand: its own operands all occur in e2. */
  predicate Contradicts(op: Op, negated: Expr, e2: Expr) {
    ExtractEqTop(op, negated, e2).fst == Sym(Unit(op))
  }

  /** expr_eliminate_dups2(op, p1, p2) on the tree t.  There is no return after the operands of the second
      expression: the first operand is afterwards compared with the whole `op` node at p2, which may contain it. */
  function Dups2(op: Op, t: Expr, p1: Path, p2: Path): (r: Counted)
    requires OnSpine(op, t, p1) && OnSpine(op, t, p2)
    ensures SameSpine(op, t, r.e) && Size(r.e) <= Size(t)
    decreases Size(t), SpineSize(op, At(op, t, p1)) + SpineSize(op, At(op, t, p2)), 1
  {
    if IsOp(At(op, t, p1), op) then
      Descend(op, t, p1, false);
      var a := Dups2(op, t, p1 + [false], p2);
      SameSpineAt(op, t, a.e, p1); SameSpineAt(op, t, a.e, p2);
      Descend(op, a.e, p1, true);
      var b := Dups2(op, a.e, p1 + [true], p2);
      SameSpineTransitive(op, t, a.e, b.e);
      Counted(b.e, a.n + b.n)
    else if IsOp(At(op, t, p2), op) then
      Descend(op, t, p2, false);
      var a := Dups2(op, t, p1, p2 + [false]);
      SameSpineAt(op, t, a.e, p1); SameSpineAt(op, t, a.e, p2);
      Descend(op, a.e, p2, true);
      var b := Dups2(op, a.e, p1, p2 + [true]);
      SameSpineTransitive(op, t, a.e, b.e);
      SameSpineAt(op, t, b.e, p1); SameSpineAt(op, t, b.e, p2);
      var d := Dups2Pair(op, b.e, p1, p2);
      SameSpineTransitive(op, t, b.e, d.e);
      Counted(d.e, a.n + b.n + d.n)
    else Dups2Pair(op, t, p1, p2)
  }

  function Dups2Pair(op: Op, t: Expr, p1: Path, p2: Path): (r: Counted)
    requires OnSpine(op, t, p1) && !IsOp(At(op, t, p1), op) && OnSpine(op, t, p2)
    ensures SameSpine(op, t, r.e) && Size(r.e) <= Size(t)
    decreases Size(t), SpineSize(op, At(op, t, p1)) + SpineSize(op, At(op, t, p2)), 0
  {
    SameSpineReflexive(op, t);
    var e1 := At(op, t, p1);
    if p1 == p2 || !e1.Bin? then Counted(t, 0)
    else
      AtIsSmaller(op, t, p1);
      assert p1 != [] by { FirstIsNested(op, t, p1, p2); }
      var s := Dups2(e1.op, e1, [], []);
      PutOperand(op, t, p1, s.e);
      var t1 := Put(op, t, p1, s.e);
      SameSpineAt(op, t, t1, p1); SameSpineAt(op, t, t1, p2);
      if Contradicts(op, Transform(Not(s.e)), At(op, t1, p2)) then
        PutOperand(op, t1, p1, Sym(Zero(op))); AtPut(op, t, p1, s.e);
        SameSpineTransitive(op, t, t1, Put(op, t1, p1, Sym(Zero(op))));
        Counted(Put(op, t1, p1, Sym(Zero(op))), s.n + 1)
      else Counted(t1, s.n)
  }

  lemma FirstIsNested(op: Op, t: Expr, p1: Path, p2: Path)
    requires OnSpine(op, t, p1) && !IsOp(At(op, t, p1), op) && OnSpine(op, t, p2) && p1 != p2
    ensures p1 != []
  {
  }

  /** A contradiction is sound up to m: with e1 in a conjunction, e2 implies the negation of e1. */
  lemma ContradictionSound(op: Op, negated: Expr, e2: Expr, c: Cfg)
    requires Contradicts(op, negated, e2)
    ensures Join(op, Eval(negated, c), Eval(e2, c)) == Eval(e2, c)
  {
    ExtractEqExact(op, negated, e2, c);
  }

  lemma PutRefines(op: Op, t: Expr, p: Path, x: Expr, c: Cfg)
    requires OnSpine(op, t, p) && Refines(Eval(At(op, t, p), c), Eval(x, c))
    ensures Refines(Eval(t, c), Eval(Put(op, t, p, x), c))
  {
    PutBack(op, t, p);
    PutValue(op, t, p, At(op, t, p), c);
    PutValue(op, t, p, x, c);
  }

  /** Replacing a contradicted operand: the whole is m at most (at least, for a disjunction), and becomes n (y);
      so its value is kept if and only if it is not m. */
  lemma ZeroRefines(op: Op, t: Expr, p1: Path, p2: Path, negated: Expr, c: Cfg)
    requires OnSpine(op, t, p1) && OnSpine(op, t, p2) && Contradicts(op, negated, At(op, t, p2))
    requires Eval(negated, c) == 2 - Eval(At(op, t, p1), c)
    ensures Refines(Eval(t, c), Eval(Put(op, t, p1, Sym(Zero(op))), c))
    ensures Eval(Put(op, t, p1, Sym(Zero(op))), c) == Eval(t, c) <==> Eval(t, c) != MOD
  {
    ContradictionSound(op, negated, At(op, t, p2), c);
    SpineBound(op, t, p1, c);
    SpineBound(op, t, p2, c);
    PutValue(op, t, p1, Sym(Zero(op)), c);
  }

  /** The second pass keeps every definite value: where the input is y or n, so is the output. */
  lemma {:induction false} Dups2Refines(op: Op, t: Expr, p1: Path, p2: Path, c: Cfg)
    requires OnSpine(op, t, p1) && OnSpine(op, t, p2)
    ensures Refines(Eval(t, c), Eval(Dups2(op, t, p1, p2).e, c))
    decreases Size(t), SpineSize(op, At(op, t, p1)) + SpineSize(op, At(op, t, p2)), 1
  {
    if IsOp(At(op, t, p1), op) {
      Descend(op, t, p1, false);
      var a := Dups2(op, t, p1 + [false], p2);
      Dups2Refines(op, t, p1 + [false], p2, c);
      SameSpineAt(op, t, a.e, p1); SameSpineAt(op, t, a.e, p2);
      Descend(op, a.e, p1, true);
      Dups2Refines(op, a.e, p1 + [true], p2, c);
    } else if IsOp(At(op, t, p2), op) {
      Descend(op, t, p2, false);
      var a := Dups2(op, t, p1, p2 + [false]);
      Dups2Refines(op, t, p1, p2 + [false], c);
      SameSpineAt(op, t, a.e, p1); SameSpineAt(op, t, a.e, p2);
      Descend(op, a.e, p2, true);
      var b := Dups2(op, a.e, p1, p2 + [true]);
      Dups2Refines(op, a.e, p1, p2 + [true], c);
      SameSpineTransitive(op, t, a.e, b.e);
      SameSpineAt(op, t, b.e, p1); SameSpineAt(op, t, b.e, p2);
      Dups2PairRefines(op, b.e, p1, p2, c);
    } else {
      Dups2PairRefines(op, t, p1, p2, c);
    }
  }

  lemma {:induction false} Dups2PairRefines(op: Op, t: Expr, p1: Path, p2: Path, c: Cfg)
    requires OnSpine(op, t, p1) && !IsOp(At(op, t, p1), op) && OnSpine(op, t, p2)
    ensures Refines(Eval(t, c), Eval(Dups2Pair(op, t, p1, p2).e, c))
    decreases Size(t), SpineSize(op, At(op, t, p1)) + SpineSize(op, At(op, t, p2)), 0
  {
    var e1 := At(op, t, p1);
    if p1 != p2 && e1.Bin? {
      AtIsSmaller(op, t, p1);
      FirstIsNested(op, t, p1, p2);
      var s := Dups2(e1.op, e1, [], []);
      Dups2Refines(e1.op, e1, [], [], c);
      PutOperand(op, t, p1, s.e);
      var t1 := Put(op, t, p1, s.e);
      PutRefines(op, t, p1, s.e, c);
      SameSpineAt(op, t, t1, p1); SameSpineAt(op, t, t1, p2);
      AtPut(op, t, p1, s.e);
      if Contradicts(op, Transform(Not(s.e)), At(op, t1, p2)) {
        TransformKeepsValue(Not(s.e), c);
        ZeroRefines(op, t1, p1, p2, Transform(Not(s.e)), c);
      }
    }
  }

  /** Like Dups1Shape, for the second pass. */
  lemma {:induction false} Dups2Shape(op: Op, t: Expr, p1: Path, p2: Path)
    requires OnSpine(op, t, p1) && OnSpine(op, t, p2)
    ensures Proper(t, Dups2(op, t, p1, p2))
    decreases Size(t), SpineSize(op, At(op, t, p1)) + SpineSize(op, At(op, t, p2)), 1
  {
    if IsOp(At(op, t, p1), op) {
      Descend(op, t, p1, false);
      var a := Dups2(op, t, p1 + [false], p2);
      Dups2Shape(op, t, p1 + [false], p2);
      SameSpineAt(op, t, a.e, p1); SameSpineAt(op, t, a.e, p2);
      Descend(op, a.e, p1, true);
      Dups2Shape(op, a.e, p1 + [true], p2);
      ProperCompose(t, a, Dups2(op, a.e, p1 + [true], p2));
    } else if IsOp(At(op, t, p2), op) {
      Descend(op, t, p2, false);
      var a := Dups2(op, t, p1, p2 + [false]);
      Dups2Shape(op, t, p1, p2 + [false]);
      SameSpineAt(op, t, a.e, p1); SameSpineAt(op, t, a.e, p2);
      Descend(op, a.e, p2, true);
      var b := Dups2(op, a.e, p1, p2 + [true]);
      Dups2Shape(op, a.e, p1, p2 + [true]);
      SameSpineTransitive(op, t, a.e, b.e);
      SameSpineAt(op, t, b.e, p1); SameSpineAt(op, t, b.e, p2);
      Dups2PairShape(op, b.e, p1, p2);
      ProperCompose(t, a, b);
      ProperCompose(t, Counted(b.e, a.n + b.n), Dups2Pair(op, b.e, p1, p2));
    } else {
      Dups2PairShape(op, t, p1, p2);
    }
  }

  lemma {:induction false} Dups2PairShape(op: Op, t: Expr, p1: Path, p2: Path)
    requires OnSpine(op, t, p1) && !IsOp(At(op, t, p1), op) && OnSpine(op, t, p2)
    ensures Proper(t, Dups2Pair(op, t, p1, p2))
    decreases Size(t), SpineSize(op, At(op, t, p1)) + SpineSize(op, At(op, t, p2)), 0
  {
    var e1 := At(op, t, p1);
    if p1 != p2 && e1.Bin? {
      AtIsSmaller(op, t, p1);
      FirstIsNested(op, t, p1, p2);
      var s := Dups2(e1.op, e1, [], []);
      Dups2Shape(e1.op, e1, [], []);
      PutOperand(op, t, p1, s.e);
      var t1, zero := Put(op, t, p1, s.e), Sym(Zero(op));
      SameSpineAt(op, t, t1, p1); SameSpineAt(op, t, t1, p2);
      AtPut(op, t, p1, s.e);
      if Normal(t) {
        AtNormal(op, t, p1);
        PutNormal(op, t, p1, s.e);
        PutNormal(op, t1, p1, zero);
      }
      if Contradicts(op, Transform(Not(s.e)), At(op, t1, p2)) {
        AtPut(op, t1, p1, zero);
        AtHasYn(op, Put(op, t1, p1, zero), p1);
      } else if s.n > 0 {
        AtHasYn(op, t1, p1);
      }
    }
  }

  // ---------------------------------------------------------------------------------------------------------
  // expr_eliminate_dups
  // ---------------------------------------------------------------------------------------------------------

  /** One turn of the loop: both passes, from the root against the root. */
  function BothPasses(e: Expr): Counted {
    if e.Bin? then
      var a := Dups1(e.op, e, [], []);
      var b := Dups2(e.op, a.e, [], []);
      Counted(b.e, a.n + b.n)
    else Counted(e, 0)
  }

  lemma BothPassesShape(e: Expr)
    ensures var r := BothPasses(e);
            && Size(r.e) <= Size(e)
            && Proper(e, r)
  {
    if e.Bin? {
      var a := Dups1(e.op, e, [], []);
      Dups1Shape(e.op, e, [], []);
      Dups2Shape(e.op, a.e, [], []);
    }
  }

  lemma BothPassesRefine(e: Expr, c: Cfg)
    ensures Refines(Eval(e, c), Eval(BothPasses(e).e, c))
  {
    if e.Bin? {
      var a := Dups1(e.op, e, [], []);
      Dups1Exact(e.op, e, [], [], c);
      Dups2Refines(e.op, a.e, [], [], c);
    }
  }

  /** Every turn that counts a rewrite ends in a smaller tree. */
  lemma TurnShrinks(e: Expr)
    requires BothPasses(e).n > 0
    ensures Size(EliminateYn(BothPasses(e).e)) < Size(e)
  {
    BothPassesShape(e);
    EliminateYnShrinks(BothPasses(e).e);
  }

  /** The result of the `while (1)` loop. */
  function EliminateDups(e: Expr): Expr
    decreases Size(e)
  {
    var r := BothPasses(e);
    if r.n == 0 then r.e
    else
      TurnShrinks(e);
      EliminateDups(EliminateYn(r.e))
  }

  /** expr_eliminate_dups keeps every definite value; only m can turn into something else. */
  lemma {:induction false} EliminateDupsRefines(e: Expr, c: Cfg)
    ensures Refines(Eval(e, c), Eval(EliminateDups(e), c))
    decreases Size(e)
  {
    var r := BothPasses(e);
    BothPassesRefine(e, c);
    if r.n > 0 {
      TurnShrinks(e);
      EliminateYnExact(r.e, c);
      EliminateDupsRefines(EliminateYn(r.e), c);
    }
  }

  /** The result never grows, stays in normal form, and neither pass finds anything more to do in it. */
  lemma {:induction false} EliminateDupsFixpoint(e: Expr)
    ensures var r := EliminateDups(e);
            && Size(r) <= Size(e)
            && BothPasses(r) == Counted(r, 0)
            && (Normal(e) ==> Normal(r))
    decreases Size(e)
  {
    var r := BothPasses(e);
    BothPassesShape(e);
    if r.n > 0 {
      TurnShrinks(e);
      if Normal(e) {
        EliminateYnNormal(r.e);
      }
      EliminateDupsFixpoint(EliminateYn(r.e));
    }
  }

  // ---------------------------------------------------------------------------------------------------------
  // Where the elimination is exact
  // ---------------------------------------------------------------------------------------------------------

  /** No symbol standing alone has the value m. */
  predicate LeavesDefinite(e: Expr, c: Cfg) {
    match e
    case Sym(s) => TriOf(c, s) != MOD
    case Cmp(_, _, _) => true
    case Not(x) => LeavesDefinite(x, c)
    case Bin(_, l, r) => LeavesDefinite(l, c) && LeavesDefinite(r, c)
  }

  lemma {:induction false} DefiniteValue(e: Expr, c: Cfg)
    requires LeavesDefinite(e, c)
    ensures Eval(e, c) != MOD
  {
    match e
    case Sym(_) =>
    case Cmp(_, _, _) =>
    case Not(x) => DefiniteValue(x, c);
    case Bin(_, l, r) =>
      DefiniteValue(l, c);
      DefiniteValue(r, c);
  }

  /** Among boolean symbols and comparisons, or with modules switched off, nothing is lost at all. */
  lemma EliminateDupsExact(e: Expr, c: Cfg)
    requires LeavesDefinite(e, c)
    ensures Eval(EliminateDups(e), c) == Eval(e, c)
  {
    DefiniteValue(e, c);
    EliminateDupsRefines(e, c);
  }

  /** Two operands on which no rule works are left alone. */
  lemma QuietPair(op: Op, t: Expr)
    requires IsOp(t, op) && !IsOp(t.left, op) && !IsOp(t.right, op)
    requires t.left.Bin? ==> Dups1(t.left.op, t.left, [], []) == Counted(t.left, 0)
    requires t.right.Bin? ==> Dups1(t.right.op, t.right, [], []) == Counted(t.right, 0)
    requires JoinExpr(op, t.left, t.right).None? && JoinExpr(op, t.right, t.left).None?
    ensures Dups1(op, t, [], []) == Counted(t, 0)
  {
    var l, r: Path := [false], [true];
    Descend(op, t, [], false);
    Descend(op, t, [], true);
    assert [] + l == l && [] + r == r;
    PutBack(op, t, l);
    PutBack(op, t, r);
    assert Dups1(op, t, l, l) == Counted(t, 0) && Dups1(op, t, r, r) == Counted(t, 0);
    assert Dups1(op, t, l, r) == Counted(t, 0) && Dups1(op, t, r, l) == Counted(t, 0);
    assert Dups1(op, t, l, []) == Counted(t, 0) && Dups1(op, t, r, []) == Counted(t, 0);
  }

  /** The second pass does nothing on a node with two operands that are neither AND nor OR nodes. */
  lemma QuietSecond(op: Op, t: Expr)
    requires IsOp(t, op) && !t.left.Bin? && !t.right.Bin?
    ensures Dups2(op, t, [], []) == Counted(t, 0)
  {
    var l, r: Path := [false], [true];
    Descend(op, t, [], false);
    Descend(op, t, [], true);
    assert [] + l == l && [] + r == r;
    assert At(op, t, l) == t.left && At(op, t, r) == t.right;
    assert Dups2(op, t, l, l) == Counted(t, 0);
    assert Dups2(op, t, r, r) == Counted(t, 0);
    assert Dups2(op, t, l, r) == Counted(t, 0) && Dups2(op, t, r, l) == Counted(t, 0);
    assert Dups2Pair(op, t, l, []) == Counted(t, 0) && Dups2Pair(op, t, r, []) == Counted(t, 0);
    assert Dups2(op, t, l, []) == Counted(t, 0);
    assert Dups2(op, t, r, []) == Counted(t, 0);
  }

  lemma PutLeft(op: Op, t: Expr, x: Expr)
    requires IsOp(t, op)
    ensures OnSpine(op, t, [false]) && Put(op, t, [false], x) == Bin(op, x, t.right)
  {
    var p: Path := [false];
    assert p[1..] == [];
    assert Put(op, t.left, p[1..], x) == x;
  }

  lemma ContradictionExample(a: Symbol)
    requires !a.IsYmn()
    ensures Contradicts(And, Transform(Not(Bin(Or, Sym(a), Sym(No)))), Not(Sym(a)))
  {
    var either, na := Bin(Or, Sym(a), Sym(No)), Not(Sym(a));
    var negated := Bin(And, na, Sym(Yes));
    assert Transform(Not(either)) == negated by {
      assert Transform(either) == either;
      assert Transform(na) == na && Transform(Not(Sym(No))) == Sym(Yes);
    }
    assert ExprEq(Sym(a), Sym(a)) && ExprEq(na, na) && ExprEq(Sym(Yes), Sym(Yes));
    assert ExtractEq(And, None, na, na) == Extract(Sym(Yes), Sym(Yes), Some(na));
    assert ExtractEq(And, None, negated, na).fst == Bin(And, Sym(Yes), Sym(Yes));
    assert EliminateYn(Bin(And, Sym(Yes), Sym(Yes))) == Sym(Yes);
    assert ExtractEqTop(And, negated, na).fst == Sym(Yes);
  }

  /** The second pass is not exact at m: (A || n) && !A is m where A is m, but is simplified to n. */
  lemma EliminateDupsMovesM(a: Symbol, c: Cfg)
    requires a.Type() == Tristate && TriOf(c, a) == MOD
    ensures var e := Bin(And, Bin(Or, Sym(a), Sym(No)), Not(Sym(a)));
            Eval(e, c) == MOD && EliminateDups(e) == Sym(No)
  {
    var either, na := Bin(Or, Sym(a), Sym(No)), Not(Sym(a));
    var e, e' := Bin(And, either, na), Bin(And, Sym(No), na);
    assert Eval(na, c) == MOD && Eval(either, c) == MOD;
    QuietPair(Or, either);
    QuietPair(And, e);
    QuietSecond(Or, either);
    ContradictionExample(a);
    var l, r: Path := [false], [true];
    Descend(And, e, [], false);
    Descend(And, e, [], true);
    Descend(And, e', [], true);
    assert [] + l == l && [] + r == r;
    assert At(And, e, l) == either && At(And, e, r) == na && At(And, e', l) == Sym(No) && At(And, e', r) == na;
    assert Dups2(And, e, l, l) == Counted(e, 0);
    PutLeft(And, e, either);
    PutLeft(And, e, Sym(No));
    assert Dups2Pair(And, e, l, r) == Counted(e', 1);
    assert Dups2(And, e, l, []) == Counted(e', 1);
    assert Dups2(And, e', r, l) == Counted(e', 0);
    assert Dups2(And, e', r, r) == Counted(e', 0);
    assert Dups2(And, e', r, []) == Counted(e', 0);
    assert BothPasses(e) == Counted(e', 1);
    assert EliminateYn(e') == Sym(No);
  }
}
