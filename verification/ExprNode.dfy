/** The expression trees of support/kconfig/expr.c as linked nodes that are overwritten in place:
    expr_eliminate_yn, expr_trans_bool and expr_transform (lines 231-341 and 636-771), proved against the functions
    on values in KEliminate, KMenu and KTransform. */
module ExprNode {
  import opened KExpr
  import KEliminate
  import KMenu
  import KTransform

  datatype Kind = ESymbol | EEqual | EUnequal | ENot | EAnd | EOr

  function KindOf(op: Op): Kind {
    if op == And then EAnd else EOr
  }

  class Node {
    var kind: Kind
    var left: Node?
    var right: Node?
    var lsym: Symbol
    var rsym: Symbol
    ghost var repr: set<Node>
    ghost var tree: Expr        // the expression rooted here

    ghost predicate Valid()
      reads this, repr
      decreases repr
    {
      && this in repr
      && (kind == ENot || kind == EAnd || kind == EOr ==>
            left != null && left in repr && left.repr <= repr && this !in left.repr && left.Valid())
      && (kind == EAnd || kind == EOr ==>
            right != null && right in repr && right.repr <= repr && this !in right.repr && right.Valid()
            && left.repr !! right.repr)
      && tree == match kind
                 case ESymbol => Sym(lsym)
                 case EEqual => Cmp(true, lsym, rsym)
                 case EUnequal => Cmp(false, lsym, rsym)
                 case ENot => Not(left.tree)
                 case EAnd => Bin(And, left.tree, right.tree)
                 case EOr => Bin(Or, left.tree, right.tree)
    }

    constructor Symbol(s: Symbol)
      ensures Valid() && tree == Sym(s) && fresh(repr)
    {
      kind, lsym, rsym, left, right := ESymbol, s, s, null, null;
      repr, tree := {this}, Sym(s);
    }

    /** expr_alloc_one(E_NOT, n). */
    constructor Negation(n: Node)
      requires n.Valid()
      ensures Valid() && tree == Not(n.tree) && repr == n.repr + {this} && fresh(this)
    {
      kind, lsym, rsym, left, right := ENot, Yes, Yes, n, null;
      repr, tree := n.repr + {this}, Not(n.tree);
    }

    /** expr_alloc_comp. */
    constructor Comparison(equal: bool, l: Symbol, r: Symbol)
      ensures Valid() && tree == Cmp(equal, l, r) && fresh(repr)
    {
      kind, lsym, rsym, left, right := if equal then EEqual else EUnequal, l, r, null, null;
      repr, tree := {this}, Cmp(equal, l, r);
    }

    /** expr_alloc_two. */
    constructor Binary(op: Op, l: Node, r: Node)
      requires l.Valid() && r.Valid() && l.repr !! r.repr
      ensures Valid() && tree == Bin(op, l.tree, r.tree) && repr == l.repr + r.repr + {this} && fresh(this)
    {
      kind, lsym, rsym, left, right := if op == And then EAnd else EOr, Yes, Yes, l, r;
      repr, tree := l.repr + r.repr + {this}, Bin(op, l.tree, r.tree);
    }

    /** The content of n, taken out of its slot. */
    constructor Moved(n: Node)
      requires n.Valid()
      ensures Valid() && tree == n.tree && repr == n.repr - {n} + {this} && fresh(this)
    {
      kind, left, right, lsym, rsym := n.kind, n.left, n.right, n.lsym, n.rsym;
      repr, tree := n.repr - {n} + {this}, n.tree;
    }

    /** `*e = *n` for an operand n. */
    method Become(n: Node)
      requires this !in n.repr && n.Valid()
      modifies this
      ensures Valid() && tree == n.tree && repr == n.repr - {n} + {this}
    {
      kind, left, right, lsym, rsym := n.kind, n.left, n.right, n.lsym, n.rsym;
      repr, tree := n.repr - {n} + {this}, n.tree;
    }

    /** The node turns into a symbol. */
    method BecomeSymbol(s: Symbol)
      modifies this
      ensures Valid() && tree == Sym(s) && repr == {this}
    {
      kind, lsym, right := ESymbol, s, null;
      repr, tree := {this}, Sym(s);
    }

    /** An AND or OR node turns into the negation of its first operand. */
    method BecomeNegation()
      requires Valid() && IsBin()
      modifies this
      ensures Valid() && tree == Not(old(tree).left) && repr == {this} + old(left.repr)
    {
      kind, right := ENot, null;
      repr, tree := {this} + left.repr, Not(left.tree);
    }

    /** The operator of an AND or OR node. */
    function GetOp(): Op
      reads this
    {
      if kind == EAnd then And else Or
    }

    ghost predicate IsBin()
      reads this
    {
      kind == EAnd || kind == EOr
    }

    /** The node turns into an AND or OR node over its first operand and r. */
    method BecomeBinary(op: Op, r: Node)
      requires left != null && left.Valid() && r.Valid() && this !in left.repr && this !in r.repr && left.repr !! r.repr
      modifies this
      ensures left == old(left) && Valid() && repr == {this} + left.repr + r.repr && tree == Bin(op, left.tree, r.tree)
    {
      kind, right := KindOf(op), r;
      repr, tree := {this} + left.repr + r.repr, Bin(op, left.tree, r.tree);
    }

    /** The operands have changed below the node. */
    ghost method Refresh()
      requires IsBin() && left != null && right != null && left.Valid() && right.Valid()
      requires this !in left.repr && this !in right.repr && left.repr !! right.repr
      modifies this`repr, this`tree
      ensures Valid() && repr == {this} + left.repr + right.repr && tree == Bin(GetOp(), left.tree, right.tree)
    {
      repr, tree := {this} + left.repr + right.repr, Bin(GetOp(), left.tree, right.tree);
    }

    /** expr_eliminate_yn. */
    method EliminateYn()
      requires Valid()
      modifies repr
      ensures Valid() && repr <= old(repr)
      ensures tree == KEliminate.EliminateYn(old(tree))
      decreases repr, 1
    {
      if kind == EAnd || kind == EOr {
        EliminateInOperands();
        DropOperand();
      }
    }

    method EliminateInOperands()
      requires Valid() && IsBin()
      modifies repr
      ensures Valid() && repr <= old(repr) && kind == old(kind)
      ensures tree == Bin(GetOp(), KEliminate.EliminateYn(old(tree).left), KEliminate.EliminateYn(old(tree).right))
      decreases repr, 0
    {
      left.EliminateYn();
      right.EliminateYn();
      Refresh();
    }

    method DropOperand()
      requires Valid() && IsBin()
      modifies this
      ensures Valid() && repr <= old(repr)
      ensures tree == KEliminate.DropYn(old(tree).op, old(tree).left, old(tree).right)
    {
      var zero, unit := if kind == EAnd then No else Yes, if kind == EAnd then Yes else No;
      if left.kind == ESymbol && left.lsym == zero {
        BecomeSymbol(zero);
      } else if left.kind == ESymbol && left.lsym == unit {
        Become(right);
      } else if right.kind == ESymbol && right.lsym == zero {
        BecomeSymbol(zero);
      } else if right.kind == ESymbol && right.lsym == unit {
        Become(left);
      }
    }

    /** expr_trans_bool. */
    method TransBool()
      requires Valid()
      modifies repr
      ensures Valid() && repr <= old(repr)
      ensures tree == KMenu.TransBool(old(tree))
      decreases repr
    {
      if kind == EAnd || kind == EOr {
        left.TransBool();
        right.TransBool();
        Refresh();
      } else if kind == ENot {
        left.TransBool();
        repr, tree := {this} + left.repr, Not(left.tree);
      } else if kind == EUnequal && lsym.Type() == Tristate && rsym == No {
        BecomeSymbol(lsym);
      }
    }
  }

  // ---------------------------------------------------------------------------------------------------------
  // expr_transform
  // ---------------------------------------------------------------------------------------------------------

  /** expr_transform: returns the root of the rewritten tree, which may be another node of the old tree. */
  method Transform(e: Node) returns (r: Node)
    requires e.Valid()
    modifies e.repr
    ensures r.Valid() && fresh(r.repr - old(e.repr))
    ensures r.tree == KTransform.Transform(old(e.tree))
    decreases KTransform.Weight(e.tree), 1, 0
  {
    match e.kind {
      case ESymbol =>
        r := e;
      case EEqual =>
        TransformCompare(e);
        r := e;
      case EUnequal =>
        TransformCompare(e);
        r := e;
      case EAnd =>
        TransformOperands(e);
        r := e;
      case EOr =>
        TransformOperands(e);
        r := e;
      case ENot =>
        r := TransformNot(e);
    }
  }

  /** A boolean symbol compared with y, m or n. */
  method TransformCompare(e: Node)
    requires e.Valid() && (e.kind == EEqual || e.kind == EUnequal)
    modifies e
    ensures e.Valid() && fresh(e.repr - {e})
    ensures e.tree == KTransform.Transform(old(e.tree))
  {
    var equal := e.kind == EEqual;
    if e.lsym.Type() != Boolean {
      e.repr := {e};
    } else if e.rsym == (if equal then No else Yes) {
      var s := new Node.Symbol(e.lsym);
      e.kind, e.left := ENot, s;
      e.repr, e.tree := {e} + s.repr, Not(s.tree);
    } else if e.rsym == Mod {
      e.BecomeSymbol(if equal then No else Yes);
    } else if e.rsym == (if equal then Yes else No) {
      e.BecomeSymbol(e.lsym);
    } else {
      e.repr := {e};
    }
  }

  method TransformOperands(e: Node)
    requires e.Valid() && e.IsBin()
    modifies e.repr
    ensures e.Valid() && fresh(e.repr - old(e.repr))
    ensures e.tree == KTransform.Transform(old(e.tree))
    decreases KTransform.Weight(e.tree), 0, 0
  {
    KTransform.WeightPositive(e.left.tree);
    KTransform.WeightPositive(e.right.tree);
    e.left, e.right := TransformBoth(e.left, e.right);
    e.Refresh();
  }

  method TransformBoth(l: Node, r: Node) returns (l': Node, r': Node)
    requires l.Valid() && r.Valid() && l.repr !! r.repr
    modifies l.repr, r.repr
    ensures l'.Valid() && r'.Valid() && l'.repr !! r'.repr
    ensures fresh(l'.repr - old(l.repr)) && fresh(r'.repr - old(r.repr))
    ensures l'.tree == KTransform.Transform(old(l.tree)) && r'.tree == KTransform.Transform(old(r.tree))
    decreases KTransform.Weight(l.tree) + KTransform.Weight(r.tree), 1, 1
  {
    KTransform.WeightPositive(l.tree);
    KTransform.WeightPositive(r.tree);
    l' := Transform(l);
    r' := Transform(r);
  }

  method TransformNot(e: Node) returns (r: Node)
    requires e.Valid() && e.kind == ENot
    modifies e.repr
    ensures r.Valid() && fresh(r.repr - old(e.repr))
    ensures r.tree == KTransform.Transform(old(e.tree))
    decreases KTransform.Weight(e.tree), 0, 1
  {
    ghost var x := e.left.tree;
    KTransform.WeightPositive(x);
    var n := Transform(e.left);
    e.left := n;
    e.repr, e.tree := {e} + n.repr, Not(n.tree);
    r := FinishNot(e, x);
  }

  /** The inner switch, on the kind of the operand, which is the transformed x. */
  method FinishNot(e: Node, ghost x: Expr) returns (r: Node)
    requires e.Valid() && e.kind == ENot && e.tree == Not(KTransform.Transform(x))
    modifies e.repr
    ensures r.Valid() && fresh(r.repr - old(e.repr))
    ensures r.tree == KTransform.Transform(Not(x))
    decreases 2 * KTransform.Weight(x), 0, 0
  {
    var n := e.left;
    if n.kind == EAnd || n.kind == EOr {
      KTransform.DeMorganIsLighter(n.tree.op, n.tree.left, n.tree.right);
      DeMorgan(e);
      r := Transform(e);
    } else if n.kind == ENot {
      KTransform.WeightPositive(n.left.tree);
      r := Transform(n.left);
    } else {
      r := NegateLeaf(e);
    }
  }

  method NegateLeaf(e: Node) returns (r: Node)
    requires e.Valid() && e.kind == ENot
    requires e.left.kind == ESymbol || e.left.kind == EEqual || e.left.kind == EUnequal
    modifies e.repr
    ensures r.Valid() && r.repr <= old(e.repr)
    ensures match old(e.tree).e
            case Cmp(equal, a, b) => r.tree == Cmp(!equal, a, b)
            case Sym(s) => r.tree == if s == Yes then Sym(No) else if s == Mod then Sym(Mod)
                                     else if s == No then Sym(Yes) else old(e.tree)
            case _ => false
  {
    var n := e.left;
    r := n;
    if n.kind == EEqual {
      n.kind, n.repr, n.tree := EUnequal, {n}, Cmp(false, n.lsym, n.rsym);
    } else if n.kind == EUnequal {
      n.kind, n.repr, n.tree := EEqual, {n}, Cmp(true, n.lsym, n.rsym);
    } else if n.lsym == Yes || n.lsym == Mod || n.lsym == No {
      n.BecomeSymbol(if n.lsym == Yes then No else if n.lsym == Mod then Mod else Yes);
    } else {
      r := e;
    }
  }

  /** !(a || b) becomes !a && !b, and dually: the operand's node is reused for !a. */
  method DeMorgan(e: Node)
    requires e.kind == ENot && e.left != null && e.left.Valid() && e.left.IsBin() && e !in e.left.repr
    modifies e, e.left
    ensures e.Valid() && fresh(e.repr - {e} - old(e.left.repr))
    ensures old(e.left.tree).Bin?
    ensures e.tree == Bin(KTransform.Dual(old(e.left.tree).op), Not(old(e.left.tree).left), Not(old(e.left.tree).right))
  {
    var tmp := e.left;
    var op := tmp.GetOp();
    ghost var a, t, t' := tmp.left.repr, tmp.tree.left, tmp.tree.right;
    var b := new Node.Negation(tmp.right);
    tmp.BecomeNegation();
    assert tmp.repr == {tmp} + a && tmp.tree == Not(t);
    assert b.Valid() && b.tree == Not(t') && b.repr !! tmp.repr;
    e.BecomeBinary(if op == Or then And else Or, b);
  }
}
