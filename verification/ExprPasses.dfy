/** expr_copy, expr_eq, expr_eliminate_eq and expr_extract_eq on linked nodes (support/kconfig/expr.c:62-229, 826-875),
    proved against the functions on values in KEliminate.

    A node stands for the slot that holds it: storing another expression into a slot overwrites the node. */
module ExprPasses {
  import opened KExpr
  import KEliminate
  import opened ExprNode

  /** expr_copy. */
  method Copy(n: Node) returns (c: Node)
    requires n.Valid()
    ensures c.Valid() && c.tree == n.tree && fresh(c.repr)
    decreases n.tree
  {
    if n.kind == ESymbol {
      c := new Node.Symbol(n.lsym);
    } else if n.kind == EEqual || n.kind == EUnequal {
      c := new Node.Comparison(n.kind == EEqual, n.lsym, n.rsym);
    } else {
      var l := Copy(n.left);
      if n.kind == ENot {
        c := new Node.Negation(l);
      } else {
        var r := Copy(n.right);
        c := new Node.Binary(if n.kind == EAnd then And else Or, l, r);
      }
    }
  }

  /** The expression at a node, for the rules that only look at their operands. */
  method Read(n: Node) returns (e: Expr)
    requires n.Valid()
    ensures e == n.tree
    decreases n.tree
  {
    match n.kind {
      case ESymbol => e := Sym(n.lsym);
      case EEqual => e := Cmp(true, n.lsym, n.rsym);
      case EUnequal => e := Cmp(false, n.lsym, n.rsym);
      case ENot =>
        var l := Read(n.left);
        e := Not(l);
      case _ =>
        var l := Read(n.left);
        var r := Read(n.right);
        e := Bin(n.GetOp(), l, r);
    }
  }

  /** The nodes for an expression. */
  method Build(e: Expr) returns (n: Node)
    ensures n.Valid() && n.tree == e && fresh(n.repr)
  {
    if e.Sym? {
      n := new Node.Symbol(e.s);
    } else if e.Cmp? {
      n := new Node.Comparison(e.equal, e.l, e.r);
    } else if e.Not? {
      var x := Build(e.e);
      n := new Node.Negation(x);
    } else {
      var l := Build(e.left);
      var r := Build(e.right);
      n := new Node.Binary(e.op, l, r);
    }
  }

  // ---------------------------------------------------------------------------------------------------------
  // expr_eliminate_eq and expr_eq
  // ---------------------------------------------------------------------------------------------------------

  ghost predicate TwoTrees(n1: Node, n2: Node)
    reads n1, n1.repr, n2, n2.repr
  {
    n1.Valid() && n2.Valid() && n1.repr !! n2.repr
  }

  /** __expr_eliminate_eq. */
  method ElimEq(op: Op, n1: Node, n2: Node)
    requires TwoTrees(n1, n2)
    modifies n1.repr, n2.repr
    ensures TwoTrees(n1, n2) && n1.repr <= old(n1.repr) && n2.repr <= old(n2.repr)
    ensures KEliminate.Rest(n1.tree, n2.tree) == KEliminate.ElimEq(op, old(n1.tree), old(n2.tree))
    decreases Size(n1.tree) + Size(n2.tree), if IsOp(n1.tree, op) || IsOp(n2.tree, op) then 0 else 5
  {
    if n1.kind == KindOf(op) {
      ElimFirst(op, n1.left, n1.right, n2);
      n1.Refresh();
    } else if n2.kind == KindOf(op) {
      ElimSecond(op, n1, n2.left, n2.right);
      n2.Refresh();
    } else {
      ElimLeaves(op, n1, n2);
    }
  }

  method ElimLeaves(op: Op, n1: Node, n2: Node)
    requires TwoTrees(n1, n2) && !IsOp(n1.tree, op) && !IsOp(n2.tree, op)
    modifies n1, n2
    ensures TwoTrees(n1, n2) && n1.repr <= old(n1.repr) && n2.repr <= old(n2.repr)
    ensures KEliminate.Rest(n1.tree, n2.tree) == KEliminate.ElimEq(op, old(n1.tree), old(n2.tree))
    decreases Size(n1.tree) + Size(n2.tree), 4
  {
    if n1.kind == ESymbol && n2.kind == ESymbol && n1.lsym == n2.lsym && (n1.lsym == Yes || n1.lsym == No) {
      return;
    }
    var equal := ExprEq(n1, n2);
    if equal {
      n1.BecomeSymbol(Unit(op));
      n2.BecomeSymbol(Unit(op));
    }
  }

  /** The operands of the first node in turn. */
  method ElimFirst(op: Op, l: Node, r: Node, n: Node)
    requires TwoTrees(l, r) && TwoTrees(l, n) && TwoTrees(r, n)
    modifies l.repr, r.repr, n.repr
    ensures TwoTrees(l, r) && TwoTrees(l, n) && TwoTrees(r, n)
    ensures l.repr <= old(l.repr) && r.repr <= old(r.repr) && n.repr <= old(n.repr)
    ensures var a := KEliminate.ElimEq(op, old(l.tree), old(n.tree));
            var b := KEliminate.ElimEq(op, old(r.tree), a.snd);
            l.tree == a.fst && r.tree == b.fst && n.tree == b.snd
    decreases Size(l.tree) + Size(r.tree) + Size(n.tree), 6
  {
    ElimEq(op, l, n);
    ElimEq(op, r, n);
  }

  method ElimSecond(op: Op, n: Node, l: Node, r: Node)
    requires TwoTrees(l, r) && TwoTrees(l, n) && TwoTrees(r, n)
    modifies l.repr, r.repr, n.repr
    ensures TwoTrees(l, r) && TwoTrees(l, n) && TwoTrees(r, n)
    ensures l.repr <= old(l.repr) && r.repr <= old(r.repr) && n.repr <= old(n.repr)
    ensures var a := KEliminate.ElimEq(op, old(n.tree), old(l.tree));
            var b := KEliminate.ElimEq(op, a.fst, old(r.tree));
            l.tree == a.snd && r.tree == b.snd && n.tree == b.fst
    decreases Size(l.tree) + Size(r.tree) + Size(n.tree), 6
  {
    ElimEq(op, n, l);
    ElimEq(op, n, r);
  }

  /** expr_eliminate_eq. */
  method EliminateEq(n1: Node, n2: Node)
    requires TwoTrees(n1, n2)
    modifies n1.repr, n2.repr
    ensures TwoTrees(n1, n2) && n1.repr <= old(n1.repr) && n2.repr <= old(n2.repr)
    ensures KEliminate.Rest(n1.tree, n2.tree) == KEliminate.EliminateEq(old(n1.tree), old(n2.tree))
    decreases Size(n1.tree) + Size(n2.tree), 2, 0
  {
    FirstPhase(n1, n2);
    SecondPhase(n1, n2);
    n1.EliminateYn();
    n2.EliminateYn();
  }

  method FirstPhase(n1: Node, n2: Node)
    requires TwoTrees(n1, n2)
    modifies n1.repr, n2.repr
    ensures TwoTrees(n1, n2) && n1.repr <= old(n1.repr) && n2.repr <= old(n2.repr)
    ensures KEliminate.Rest(n1.tree, n2.tree) == KEliminate.FirstPhase(old(n1.tree), old(n2.tree))
    decreases Size(n1.tree) + Size(n2.tree), 1
  {
    if n1.kind == EAnd || n1.kind == EOr {
      ElimEq(n1.GetOp(), n1, n2);
    }
  }

  method SecondPhase(n1: Node, n2: Node)
    requires TwoTrees(n1, n2)
    modifies n1.repr, n2.repr
    ensures TwoTrees(n1, n2) && n1.repr <= old(n1.repr) && n2.repr <= old(n2.repr)
    ensures KEliminate.Rest(n1.tree, n2.tree) == KEliminate.SecondPhase(old(n1.tree), old(n2.tree))
    decreases Size(n1.tree) + Size(n2.tree), 1
  {
    if n1.kind != n2.kind && (n2.kind == EAnd || n2.kind == EOr) {
      ElimEq(n2.GetOp(), n1, n2);
    }
  }

  /** expr_eq: works on copies and leaves both expressions alone. */
  method ExprEq(n1: Node, n2: Node) returns (equal: bool)
    requires n1.Valid() && n2.Valid()
    ensures equal == KEliminate.ExprEq(n1.tree, n2.tree)
    decreases Size(n1.tree) + Size(n2.tree), 3
  {
    if n1.kind != n2.kind {
      return false;
    }
    match n1.kind {
      case ESymbol => equal := n1.lsym == n2.lsym;
      case EEqual => equal := n1.lsym == n2.lsym && n1.rsym == n2.rsym;
      case EUnequal => equal := n1.lsym == n2.lsym && n1.rsym == n2.rsym;
      case ENot => equal := ExprEq(n1.left, n2.left);
      case _ => equal := NothingRemains(n1, n2);
    }
  }

  method NothingRemains(n1: Node, n2: Node) returns (equal: bool)
    requires n1.Valid() && n2.Valid()
    ensures var r := KEliminate.EliminateEq(n1.tree, n2.tree); equal == (r.fst.Sym? && r.fst == r.snd)
    decreases Size(n1.tree) + Size(n2.tree), 2, 1
  {
    var c1 := Copy(n1);
    var c2 := Copy(n2);
    EliminateEq(c1, c2);
    equal := c1.kind == ESymbol && c2.kind == ESymbol && c1.lsym == c2.lsym;
  }

  // ---------------------------------------------------------------------------------------------------------
  // expr_extract_eq
  // ---------------------------------------------------------------------------------------------------------

  ghost function OptTree(c: Node?): Option<Expr>
    reads c
  {
    if c == null then None else Some(c.tree)
  }

  ghost function OptRepr(c: Node?): set<Node>
    reads c
  {
    if c == null then {} else c.repr
  }

  ghost predicate Apart(c: Node?, n1: Node, n2: Node)
    reads c, OptRepr(c), n1, n2
  {
    c != null ==> c.Valid() && c.repr !! n1.repr && c.repr !! n2.repr
  }

  /** The contract of expr_extract_eq: both trees are what is left of them, and r, the tree of what is common, has
      grown by operands of the first. */
  twostate predicate Extracted(op: Op, common: Node?, n1: Node, n2: Node, new r: Node?)
    reads n1, n1.repr, n2, n2.repr, r, OptRepr(r)
  {
    && TwoTrees(n1, n2) && n1.repr <= old(n1.repr) && n2.repr <= old(n2.repr)
    && Apart(r, n1, n2) && fresh(OptRepr(r) - old(OptRepr(common)) - old(n1.repr))
    && KEliminate.Extract(n1.tree, n2.tree, OptTree(r))
       == KEliminate.ExtractEq(op, old(OptTree(common)), old(n1.tree), old(n2.tree))
  }

  /** expr_extract_eq: the equal operands are moved from the two trees to the tree of what is common. */
  method ExtractEq(op: Op, common: Node?, n1: Node, n2: Node) returns (r: Node?)
    requires TwoTrees(n1, n2) && Apart(common, n1, n2)
    modifies n1.repr, n2.repr
    ensures Extracted(op, common, n1, n2, r)
    decreases Size(n1.tree) + Size(n2.tree), 2
  {
    if n1.kind == KindOf(op) {
      r := ExtractUnder(op, common, n1, n2);
    } else if n2.kind == KindOf(op) {
      r := ExtractFrom(op, common, n1, n2);
    } else {
      r := ExtractLeaves(op, common, n1, n2);
    }
  }

  method ExtractUnder(op: Op, common: Node?, n1: Node, n2: Node) returns (r: Node?)
    requires TwoTrees(n1, n2) && Apart(common, n1, n2) && n1.kind == KindOf(op)
    modifies n1.repr, n2.repr
    ensures Extracted(op, common, n1, n2, r)
    decreases Size(n1.tree) + Size(n2.tree), 1
  {
    r := ExtractFirst(op, common, n1.left, n1.right, n2);
    n1.Refresh();
  }

  method ExtractFrom(op: Op, common: Node?, n1: Node, n2: Node) returns (r: Node?)
    requires TwoTrees(n1, n2) && Apart(common, n1, n2) && n1.kind != KindOf(op) && n2.kind == KindOf(op)
    modifies n1.repr, n2.repr
    ensures Extracted(op, common, n1, n2, r)
    decreases Size(n1.tree) + Size(n2.tree), 1
  {
    r := ExtractSecond(op, common, n1, n2.left, n2.right);
    n2.Refresh();
  }

  method ExtractFirst(op: Op, common: Node?, l: Node, r: Node, n: Node) returns (c: Node?)
    requires TwoTrees(l, r) && TwoTrees(l, n) && TwoTrees(r, n) && Apart(common, l, n) && Apart(common, r, n)
    modifies l.repr, r.repr, n.repr
    ensures TwoTrees(l, r) && TwoTrees(l, n) && TwoTrees(r, n) && Apart(c, l, n) && Apart(c, r, n)
    ensures l.repr <= old(l.repr) && r.repr <= old(r.repr) && n.repr <= old(n.repr)
    ensures fresh(OptRepr(c) - old(OptRepr(common)) - old(l.repr) - old(r.repr))
    ensures var a := KEliminate.ExtractEq(op, old(OptTree(common)), old(l.tree), old(n.tree));
            var b := KEliminate.ExtractEq(op, a.common, old(r.tree), a.snd);
            l.tree == a.fst && r.tree == b.fst && n.tree == b.snd && OptTree(c) == b.common
    decreases Size(l.tree) + Size(r.tree) + Size(n.tree), 3
  {
    var a := ExtractEq(op, common, l, n);
    c := ExtractEq(op, a, r, n);
  }

  method ExtractSecond(op: Op, common: Node?, n: Node, l: Node, r: Node) returns (c: Node?)
    requires TwoTrees(l, r) && TwoTrees(n, l) && TwoTrees(n, r) && Apart(common, n, l) && Apart(common, n, r)
    modifies l.repr, r.repr, n.repr
    ensures TwoTrees(l, r) && TwoTrees(n, l) && TwoTrees(n, r) && Apart(c, n, l) && Apart(c, n, r)
    ensures l.repr <= old(l.repr) && r.repr <= old(r.repr) && n.repr <= old(n.repr)
    ensures fresh(OptRepr(c) - old(OptRepr(common)) - old(n.repr))
    ensures var a := KEliminate.ExtractEq(op, old(OptTree(common)), old(n.tree), old(l.tree));
            var b := KEliminate.ExtractEq(op, a.common, a.fst, old(r.tree));
            l.tree == a.snd && r.tree == b.snd && n.tree == b.fst && OptTree(c) == b.common
    decreases Size(l.tree) + Size(r.tree) + Size(n.tree), 3
  {
    var a := ExtractEq(op, common, n, l);
    c := ExtractEq(op, a, n, r);
  }

  method ExtractLeaves(op: Op, common: Node?, n1: Node, n2: Node) returns (r: Node?)
    requires TwoTrees(n1, n2) && Apart(common, n1, n2) && !IsOp(n1.tree, op) && !IsOp(n2.tree, op)
    modifies n1, n2
    ensures Extracted(op, common, n1, n2, r)
  {
    r := common;
    var equal := ExprEq(n1, n2);
    if equal {
      r := MoveOut(op, common, n1, n2);
    }
  }

  method MoveOut(op: Op, common: Node?, n1: Node, n2: Node) returns (r: Node)
    requires TwoTrees(n1, n2) && Apart(common, n1, n2)
    modifies n1, n2
    ensures TwoTrees(n1, n2) && n1.repr == {n1} && n2.repr == {n2}
    ensures Apart(r, n1, n2) && fresh(r.repr - old(OptRepr(common)) - old(n1.repr))
    ensures n1.tree == Sym(Unit(op)) && n2.tree == Sym(Unit(op))
    ensures Some(r.tree) == KEliminate.Collect(op, old(OptTree(common)), old(n1.tree))
  {
    r := new Node.Moved(n1);
    if common != null {
      r := new Node.Binary(op, common, r);
    }
    n1.BecomeSymbol(Unit(op));
    n2.BecomeSymbol(Unit(op));
  }

  /** expr_extract_eq_and and expr_extract_eq_or. */
  method ExtractEqTop(op: Op, n1: Node, n2: Node) returns (r: Node?)
    requires TwoTrees(n1, n2)
    modifies n1.repr, n2.repr
    ensures TwoTrees(n1, n2) && n1.repr <= old(n1.repr) && n2.repr <= old(n2.repr) && Apart(r, n1, n2)
    ensures KEliminate.Extract(n1.tree, n2.tree, OptTree(r)) == KEliminate.ExtractEqTop(op, old(n1.tree), old(n2.tree))
  {
    r := ExtractEq(op, null, n1, n2);
    if r != null {
      n1.EliminateYn();
      n2.EliminateYn();
    }
  }
}
