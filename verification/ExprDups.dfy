/** expr_eliminate_dups on linked nodes (support/kconfig/expr.c:504-634): two pointers walk one tree that is rewritten in
    place, and a node is never compared with itself.  Proved against the functions on values and paths in KDups. */
module ExprDups {
  import opened KExpr
  import K = KDups
  import opened ExprNode
  import ExprPasses
  import KTransform

  // ---------------------------------------------------------------------------------------------------------
  // The spine of a linked tree
  // ---------------------------------------------------------------------------------------------------------

  /** The nodes of the spine under one operator; they stay where they are while the operands are rewritten. */
  datatype Spine = Leaf(node: Node) | Branch(node: Node, l: Spine, r: Spine)

  ghost function Nodes(s: Spine): set<Node> {
    match s
    case Leaf(n) => {n}
    case Branch(n, l, r) => {n} + Nodes(l) + Nodes(r)
  }

  /** All nodes of the tree. */
  ghost function Footprint(s: Spine): set<Node>
    reads Nodes(s)
  {
    match s
    case Leaf(n) => n.repr
    case Branch(n, l, r) => {n} + Footprint(l) + Footprint(r)
  }

  ghost predicate Linked(op: Op, s: Spine)
    reads Nodes(s), Footprint(s)
  {
    match s
    case Leaf(n) => n.Valid() && n.kind != KindOf(op)
    case Branch(n, l, r) =>
      && n.kind == KindOf(op) && n.left == l.node && n.right == r.node
      && Linked(op, l) && Linked(op, r)
      && n !in Footprint(l) && n !in Footprint(r) && Footprint(l) !! Footprint(r)
  }

  /** The expression it spells out. */
  ghost function Content(op: Op, s: Spine): Expr
    reads Nodes(s)
  {
    match s
    case Leaf(n) => n.tree
    case Branch(_, l, r) => Bin(op, Content(op, l), Content(op, r))
  }

  ghost predicate Leads(s: Spine, p: K.Path) {
    p == [] || (s.Branch? && Leads(if p[0] then s.r else s.l, p[1..]))
  }

  ghost function Sub(s: Spine, p: K.Path): Spine
    requires Leads(s, p)
  {
    if p == [] then s else Sub(if p[0] then s.r else s.l, p[1..])
  }

  lemma {:induction false} SubFacts(op: Op, s: Spine, p: K.Path)
    requires Linked(op, s) && Leads(s, p)
    ensures var t := Sub(s, p);
            && Linked(op, t) && Nodes(t) <= Nodes(s) && Footprint(t) <= Footprint(s)
            && K.OnSpine(op, Content(op, s), p) && K.At(op, Content(op, s), p) == Content(op, t)
            && (t.Branch? <==> IsOp(Content(op, t), op))
            && t.node in Footprint(t)
    decreases |p|
  {
    if p != [] {
      SubFacts(op, if p[0] then s.r else s.l, p[1..]);
    } else {
      assert s.Leaf? ==> !IsOp(s.node.tree, op);
    }
  }

  lemma {:induction false} LeadsOn(s: Spine, p: K.Path, right: bool)
    requires Leads(s, p) && Sub(s, p).Branch?
    ensures Leads(s, p + [right]) && Sub(s, p + [right]) == if right then Sub(s, p).r else Sub(s, p).l
    decreases |p|
  {
    if p == [] {
      assert (p + [right])[1..] == [];
    } else {
      assert (p + [right])[1..] == p[1..] + [right];
      LeadsOn(if p[0] then s.r else s.l, p[1..], right);
    }
  }

  /** Two pointers into the tree are equal if and only if the paths to them are. */
  lemma {:induction false} SameNode(op: Op, s: Spine, p: K.Path, q: K.Path)
    requires Linked(op, s) && Leads(s, p) && Leads(s, q)
    ensures Sub(s, p).node == Sub(s, q).node <==> p == q
    decreases |p| + |q|
  {
    SubFacts(op, s, p);
    SubFacts(op, s, q);
    if p != [] && q != [] {
      SubFacts(op, if p[0] then s.r else s.l, p[1..]);
      SubFacts(op, if q[0] then s.r else s.l, q[1..]);
      if p[0] == q[0] {
        SameNode(op, if p[0] then s.r else s.l, p[1..], q[1..]);
        assert p == [p[0]] + p[1..] && q == [q[0]] + q[1..];
      }
    } else if p != [] {
      SubFacts(op, if p[0] then s.r else s.l, p[1..]);
    } else if q != [] {
      SubFacts(op, if q[0] then s.r else s.l, q[1..]);
    }
  }

  // ---------------------------------------------------------------------------------------------------------
  // Rewriting one operand
  // ---------------------------------------------------------------------------------------------------------

  ghost function NodesAround(s: Spine, p: K.Path): set<Node>
    requires Leads(s, p)
  {
    if p == [] then {}
    else if p[0] then {s.node} + NodesAround(s.r, p[1..]) + Nodes(s.l)
    else {s.node} + NodesAround(s.l, p[1..]) + Nodes(s.r)
  }

  /** All nodes but those below p. */
  ghost function Around(s: Spine, p: K.Path): set<Node>
    requires Leads(s, p)
    reads NodesAround(s, p)
  {
    if p == [] then {}
    else if p[0] then {s.node} + Around(s.r, p[1..]) + Footprint(s.l)
    else {s.node} + Around(s.l, p[1..]) + Footprint(s.r)
  }

  /** Everything is linked, whatever is below p. */
  ghost predicate LinkedAround(op: Op, s: Spine, p: K.Path)
    requires Leads(s, p)
    reads NodesAround(s, p), Around(s, p)
  {
    p == [] ||
    var c, o := if p[0] then s.r else s.l, if p[0] then s.l else s.r;
    && s.node.kind == KindOf(op) && s.node.left == s.l.node && s.node.right == s.r.node
    && LinkedAround(op, c, p[1..]) && Linked(op, o)
    && s.node !in Around(c, p[1..]) && s.node !in Footprint(o) && Around(c, p[1..]) !! Footprint(o)
  }

  /** The expression it spells out if x is below p. */
  ghost function Filled(op: Op, s: Spine, p: K.Path, x: Expr): Expr
    requires Leads(s, p)
    reads NodesAround(s, p)
  {
    if p == [] then x
    else if p[0] then Bin(op, Content(op, s.l), Filled(op, s.r, p[1..], x))
    else Bin(op, Filled(op, s.l, p[1..], x), Content(op, s.r))
  }

  lemma {:induction false} Open(op: Op, s: Spine, p: K.Path)
    requires Linked(op, s) && Leads(s, p)
    ensures LinkedAround(op, s, p) && Footprint(Sub(s, p)) !! Around(s, p)
    ensures Footprint(s) == Footprint(Sub(s, p)) + Around(s, p) && NodesAround(s, p) <= Around(s, p)
    ensures K.OnSpine(op, Content(op, s), p)
    ensures forall x :: Filled(op, s, p, x) == K.Put(op, Content(op, s), p, x)
    decreases |p|
  {
    SubFacts(op, s, p);
    if p != [] {
      Open(op, if p[0] then s.r else s.l, p[1..]);
      NodesInside(op, if p[0] then s.l else s.r);
    }
  }

  lemma {:induction false} NodesInside(op: Op, s: Spine)
    requires Linked(op, s)
    ensures Nodes(s) <= Footprint(s)
  {
    if s.Branch? {
      NodesInside(op, s.l);
      NodesInside(op, s.r);
    }
  }

  lemma {:induction false} Close(op: Op, s: Spine, p: K.Path, n: Node)
    requires Leads(s, p) && Sub(s, p) == Leaf(n) && LinkedAround(op, s, p)
    requires n.Valid() && n.kind != KindOf(op) && n.repr !! Around(s, p)
    ensures Linked(op, s) && Footprint(s) == n.repr + Around(s, p) && Content(op, s) == Filled(op, s, p, n.tree)
    decreases |p|
  {
    if p != [] {
      Close(op, if p[0] then s.r else s.l, p[1..], n);
    }
  }

  /** The spine of a tree as it is found, ... */
  lemma {:induction false} SpineOf(op: Op, n: Node) returns (s: Spine)
    requires n.Valid()
    ensures s.node == n && Linked(op, s) && Content(op, s) == n.tree && Footprint(s) <= n.repr
    ensures s.Branch? <==> n.kind == KindOf(op)
    decreases n.tree
  {
    if n.kind == KindOf(op) {
      var l := SpineOf(op, n.left);
      var r := SpineOf(op, n.right);
      s := Branch(n, l, r);
    } else {
      s := Leaf(n);
    }
  }

  /** ... and the tree after its operands have been rewritten. */
  ghost method Restore(op: Op, s: Spine)
    requires Linked(op, s)
    modifies Nodes(s)`repr, Nodes(s)`tree
    ensures s.node.Valid() && s.node.tree == old(Content(op, s)) && s.node.repr == old(Footprint(s))
  {
    if s.Branch? {
      NodesInside(op, s.l);
      NodesInside(op, s.r);
      assert allocated(Footprint(s.l)) && allocated(Footprint(s.r));
      Restore(op, s.l);
      assert Linked(op, s.r);
      Restore(op, s.r);
      s.node.Refresh();
    }
  }

  /** The pointers n1 and n2 into the tree, and the paths to them. */
  ghost predicate Points(op: Op, s: Spine, p1: K.Path, n1: Node, p2: K.Path, n2: Node)
    reads Nodes(s), Footprint(s)
  {
    && Linked(op, s) && Leads(s, p1) && Sub(s, p1).node == n1 && Leads(s, p2) && Sub(s, p2).node == n2
    && K.OnSpine(op, Content(op, s), p1) && K.OnSpine(op, Content(op, s), p2)
  }

  // ---------------------------------------------------------------------------------------------------------
  // expr_eliminate_dups1
  // ---------------------------------------------------------------------------------------------------------

  /** expr_eliminate_dups1 from the root of a tree against itself. */
  method Dups1Root(n: Node) returns (count: nat)
    requires n.Valid() && n.IsBin()
    modifies n.repr
    ensures n.Valid() && n.kind == old(n.kind) && fresh(n.repr - old(n.repr))
    ensures K.Counted(n.tree, count) == K.Dups1(n.GetOp(), old(n.tree), [], [])
    decreases Size(n.tree), SpineSum(n.GetOp(), n.tree, [], []), 2
  {
    var op := n.GetOp();
    ghost var s := SpineOf(op, n);
    NodesInside(op, s);
    count := Dups1(op, n, n, s, [], []);
    Restore(op, s);
  }

  ghost function SpineSum(op: Op, t: Expr, p1: K.Path, p2: K.Path): nat
    requires K.OnSpine(op, t, p1) && K.OnSpine(op, t, p2)
  {
    K.SpineSize(op, K.At(op, t, p1)) + K.SpineSize(op, K.At(op, t, p2))
  }

  method Dups1(op: Op, n1: Node, n2: Node, ghost s: Spine, ghost p1: K.Path, ghost p2: K.Path) returns (count: nat)
    requires Points(op, s, p1, n1, p2, n2)
    modifies Footprint(s)
    ensures Linked(op, s) && fresh(Footprint(s) - old(Footprint(s)))
    ensures K.Counted(Content(op, s), count) == K.Dups1(op, old(Content(op, s)), p1, p2)
    decreases Size(Content(op, s)), SpineSum(op, Content(op, s), p1, p2), 1
  {
    SubFacts(op, s, p1);
    SubFacts(op, s, p2);
    if n1.kind == KindOf(op) {
      count := Dups1First(op, n1, n2, s, p1, p2);
    } else if n2.kind == KindOf(op) {
      count := Dups1Second(op, n1, n2, s, p1, p2);
    } else {
      SameNode(op, s, p1, p2);
      if n1 == n2 {
        return 0;
      }
      count := Dups1Pair(op, n1, n2, s, p1, p2);
    }
  }

  method Dups1First(op: Op, n1: Node, n2: Node, ghost s: Spine, ghost p1: K.Path, ghost p2: K.Path) returns (count: nat)
    requires Points(op, s, p1, n1, p2, n2) && Sub(s, p1).Branch? && IsOp(K.At(op, Content(op, s), p1), op)
    modifies Footprint(s)
    ensures Linked(op, s) && fresh(Footprint(s) - old(Footprint(s)))
    ensures K.Counted(Content(op, s), count) == K.Dups1(op, old(Content(op, s)), p1, p2)
    decreases Size(Content(op, s)), SpineSum(op, Content(op, s), p1, p2), 0
  {
    StepDown(op, s, p1, false);
    var a := Dups1(op, n1.left, n2, s, p1 + [false], p2);
    StillPoints(op, s, old(Content(op, s)), p1, n1, p2, n2);
    StepDown(op, s, p1, true);
    var b := Dups1(op, n1.right, n2, s, p1 + [true], p2);
    count := a + b;
  }

  method Dups1Second(op: Op, n1: Node, n2: Node, ghost s: Spine, ghost p1: K.Path, ghost p2: K.Path) returns (count: nat)
    requires Points(op, s, p1, n1, p2, n2) && Sub(s, p2).Branch?
    requires !IsOp(K.At(op, Content(op, s), p1), op) && IsOp(K.At(op, Content(op, s), p2), op)
    modifies Footprint(s)
    ensures Linked(op, s) && fresh(Footprint(s) - old(Footprint(s)))
    ensures K.Counted(Content(op, s), count) == K.Dups1(op, old(Content(op, s)), p1, p2)
    decreases Size(Content(op, s)), SpineSum(op, Content(op, s), p1, p2), 0
  {
    StepDown(op, s, p2, false);
    var a := Dups1(op, n1, n2.left, s, p1, p2 + [false]);
    StillPoints(op, s, old(Content(op, s)), p1, n1, p2, n2);
    StepDown(op, s, p2, true);
    var b := Dups1(op, n1, n2.right, s, p1, p2 + [true]);
    count := a + b;
  }

  /** An operand of the node at p. */
  lemma StepDown(op: Op, s: Spine, p: K.Path, right: bool)
    requires Linked(op, s) && Leads(s, p) && Sub(s, p).Branch? && K.OnSpine(op, Content(op, s), p)
    ensures Leads(s, p + [right])
    ensures Sub(s, p + [right]).node == if right then Sub(s, p).node.right else Sub(s, p).node.left
    ensures IsOp(K.At(op, Content(op, s), p), op)
    ensures K.OnSpine(op, Content(op, s), p + [right])
    ensures K.SpineSize(op, K.At(op, Content(op, s), p + [right])) < K.SpineSize(op, K.At(op, Content(op, s), p))
  {
    SubFacts(op, s, p);
    LeadsOn(s, p, right);
    K.Descend(op, Content(op, s), p, right);
  }

  /** The pointers stay where they are when the tree is rewritten. */
  lemma StillPoints(op: Op, s: Spine, t: Expr, p1: K.Path, n1: Node, p2: K.Path, n2: Node)
    requires Linked(op, s) && Leads(s, p1) && Sub(s, p1).node == n1 && Leads(s, p2) && Sub(s, p2).node == n2
    requires K.OnSpine(op, t, p1) && K.OnSpine(op, t, p2) && K.SameSpine(op, t, Content(op, s))
    ensures Points(op, s, p1, n1, p2, n2)
    ensures SpineSum(op, Content(op, s), p1, p2) == SpineSum(op, t, p1, p2)
  {
    SubFacts(op, s, p1);
    SubFacts(op, s, p2);
    K.SameSpineAt(op, t, Content(op, s), p1);
    K.SameSpineAt(op, t, Content(op, s), p2);
  }

  /** Two different operands. */
  method Dups1Pair(op: Op, n1: Node, n2: Node, ghost s: Spine, ghost p1: K.Path, ghost p2: K.Path) returns (count: nat)
    requires Points(op, s, p1, n1, p2, n2) && Sub(s, p1).Leaf? && Sub(s, p2).Leaf? && p1 != p2
    requires !IsOp(K.At(op, Content(op, s), p1), op) && !IsOp(K.At(op, Content(op, s), p2), op)
    modifies Footprint(s)
    ensures Linked(op, s) && fresh(Footprint(s) - old(Footprint(s)))
    ensures K.Counted(Content(op, s), count) == K.Dups1Pair(op, old(Content(op, s)), p1, p2)
    decreases Size(Content(op, s)), SpineSum(op, Content(op, s), p1, p2), 0
  {
    ghost var t := Content(op, s);
    count := SimplifyFirst(op, n1, n2, s, p1, p2);
    ghost var e := n1.tree;
    var joined := JoinPair(op, n1, n2, s, p1, p2);
    PairResult(op, t, p1, p2, K.Counted(e, count));
    if joined {
      count := count + 1;
    }
  }

  /** What becomes of two operands, once the first has been simplified to r. */
  lemma PairResult(op: Op, t: Expr, p1: K.Path, p2: K.Path, r: K.Counted)
    requires K.OnSpine(op, t, p1) && K.OnSpine(op, t, p2) && p1 != p2
    requires !IsOp(K.At(op, t, p1), op) && !IsOp(K.At(op, t, p2), op)
    requires var e := K.At(op, t, p1); r == if e.Bin? then K.Dups1(e.op, e, [], []) else K.Counted(e, 0)
    ensures match K.JoinExpr(op, r.e, K.At(op, t, p2))
            case None => K.Dups1Pair(op, t, p1, p2) == K.Counted(K.Put(op, t, p1, r.e), r.n)
            case Some(x) =>
              var t1 := K.Put(op, t, p1, Sym(Unit(op)));
              && K.OnSpine(op, K.Put(op, t, p1, r.e), p1) && K.Put(op, K.Put(op, t, p1, r.e), p1, Sym(Unit(op))) == t1
              && K.OnSpine(op, t1, p2) && K.Dups1Pair(op, t, p1, p2) == K.Counted(K.Put(op, t1, p2, x), r.n + 1)
  {
    K.FirstIsNested(op, t, p1, p2);
    K.PutElsewhere(op, t, p1, p2, Sym(Unit(op)));
    PutPut(op, t, p1, r.e, Sym(Unit(op)));
  }

  /** The first operand is simplified by itself, if it is an AND or OR node. */
  method SimplifyFirst(op: Op, n1: Node, n2: Node, ghost s: Spine, ghost p1: K.Path, ghost p2: K.Path)
    returns (count: nat)
    requires Points(op, s, p1, n1, p2, n2) && Sub(s, p1) == Leaf(n1) && Sub(s, p2) == Leaf(n2) && p1 != p2
    modifies Footprint(s)
    ensures fresh(Footprint(s) - old(Footprint(s))) && Points(op, s, p1, n1, p2, n2)
    ensures var e := K.At(op, old(Content(op, s)), p1);
            K.Counted(n1.tree, count) == if e.Bin? then K.Dups1(e.op, e, [], []) else K.Counted(e, 0)
    ensures n1.Valid() && n2.Valid() && !IsOp(n1.tree, op) && !IsOp(n2.tree, op) && {n1, n2} <= old(Footprint(s))
    ensures Content(op, s) == K.Put(op, old(Content(op, s)), p1, n1.tree)
    ensures n2.tree == K.At(op, old(Content(op, s)), p2)
    decreases Size(Content(op, s)), 1
  {
    ghost var t := Content(op, s);
    SubFacts(op, s, p1);
    SubFacts(op, s, p2);
    K.FirstIsNested(op, t, p1, p2);
    K.PutBack(op, t, p1);
    count := 0;
    if n1.kind == EAnd || n1.kind == EOr {
      count := Dups1Operand(op, n1, s, p1);
    }
    SubFacts(op, s, p1);
    SubFacts(op, s, p2);
    K.PutOperand(op, t, p1, n1.tree);
    K.PutElsewhere(op, t, p1, p2, n1.tree);
  }

  lemma {:induction false} PutPut(op: Op, t: Expr, p: K.Path, x: Expr, y: Expr)
    requires K.OnSpine(op, t, p)
    ensures K.OnSpine(op, K.Put(op, t, p, x), p) && K.Put(op, K.Put(op, t, p, x), p, y) == K.Put(op, t, p, y)
    decreases |p|
  {
    if p != [] {
      PutPut(op, K.Child(t, p[0]), p[1..], x, y);
    }
  }

  /** The first operand is simplified by itself. */
  method Dups1Operand(op: Op, n1: Node, ghost s: Spine, ghost p1: K.Path) returns (count: nat)
    requires Linked(op, s) && Leads(s, p1) && Sub(s, p1) == Leaf(n1) && n1.IsBin() && n1.Valid()
    requires p1 != [] && K.OnSpine(op, Content(op, s), p1)
    modifies n1.repr
    ensures Linked(op, s) && fresh(Footprint(s) - old(Footprint(s))) && n1.Valid()
    ensures K.Counted(n1.tree, count) == K.Dups1(old(n1.GetOp()), old(n1.tree), [], [])
    ensures Content(op, s) == K.Put(op, old(Content(op, s)), p1, n1.tree)
    decreases Size(Content(op, s)), 0
  {
    SubFacts(op, s, p1);
    K.AtIsSmaller(op, Content(op, s), p1);
    Open(op, s, p1);
    assert allocated(Around(s, p1)) && allocated(NodesAround(s, p1));
    count := Dups1Root(n1);
    Close(op, s, p1, n1);
  }

  /** The two operands are joined if a rule applies. */
  method JoinPair(op: Op, n1: Node, n2: Node, ghost s: Spine, ghost p1: K.Path, ghost p2: K.Path) returns (joined: bool)
    requires Points(op, s, p1, n1, p2, n2) && Sub(s, p1) == Leaf(n1) && Sub(s, p2) == Leaf(n2) && p1 != p2
    requires n1.Valid() && n2.Valid() && !IsOp(n1.tree, op) && !IsOp(n2.tree, op)
    modifies n1, n2
    ensures Linked(op, s) && fresh(Footprint(s) - old(Footprint(s)))
    ensures match K.JoinExpr(op, old(n1.tree), old(n2.tree))
            case None => !joined && Content(op, s) == old(Content(op, s))
            case Some(x) =>
              var t1 := K.Put(op, old(Content(op, s)), p1, Sym(Unit(op)));
              joined && K.OnSpine(op, t1, p2) && Content(op, s) == K.Put(op, t1, p2, x)
  {
    assert allocated(Footprint(s)) && allocated(Nodes(s));
    var tmp := JoinNodes(op, n1, n2);
    joined := tmp != null;
    if joined {
      StoreBoth(op, n1, n2, s, p1, p2, tmp);
    }
  }

  /** expr_join_or and expr_join_and: a new expression, or none. */
  method JoinNodes(op: Op, n1: Node, n2: Node) returns (tmp: Node?)
    requires n1.Valid() && n2.Valid() && !IsOp(n1.tree, op) && !IsOp(n2.tree, op)
    ensures match K.JoinExpr(op, n1.tree, n2.tree)
            case None => tmp == null
            case Some(x) => tmp != null && tmp.Valid() && tmp.tree == x && fresh(tmp.repr) && !IsOp(x, op)
  {
    var e1 := ExprPasses.Read(n1);
    var e2 := ExprPasses.Read(n2);
    var e := K.JoinExpr(op, e1, e2);
    if e.None? {
      return null;
    }
    K.JoinKeepsShape(op, e1, e2);
    tmp := ExprPasses.Build(e.value);
  }

  method StoreBoth(op: Op, n1: Node, n2: Node, ghost s: Spine, ghost p1: K.Path, ghost p2: K.Path, tmp: Node)
    requires Points(op, s, p1, n1, p2, n2) && Sub(s, p1) == Leaf(n1) && Sub(s, p2) == Leaf(n2) && p1 != p2
    requires tmp.Valid() && !IsOp(tmp.tree, op) && tmp.repr !! Footprint(s)
    modifies n1, n2
    ensures Linked(op, s) && Footprint(s) <= old(Footprint(s)) + tmp.repr
    ensures var t1 := K.Put(op, old(Content(op, s)), p1, Sym(Unit(op)));
            K.OnSpine(op, t1, p2) && Content(op, s) == K.Put(op, t1, p2, tmp.tree)
  {
    SubFacts(op, s, p1);
    SubFacts(op, s, p2);
    K.PutElsewhere(op, Content(op, s), p1, p2, Sym(Unit(op)));
    StoreSymbol(op, n1, s, p1, Unit(op));
    SubFacts(op, s, p2);
    StoreTree(op, n2, s, p2, tmp);
  }

  /** The operand at p is replaced by a symbol, ... */
  method StoreSymbol(op: Op, n: Node, ghost s: Spine, ghost p: K.Path, x: Symbol)
    requires Linked(op, s) && Leads(s, p) && Sub(s, p) == Leaf(n) && K.OnSpine(op, Content(op, s), p)
    modifies n
    ensures Linked(op, s) && Footprint(s) <= old(Footprint(s))
    ensures Content(op, s) == K.Put(op, old(Content(op, s)), p, Sym(x))
  {
    SubFacts(op, s, p);
    Open(op, s, p);
    assert n !in Around(s, p) && allocated(Around(s, p)) && allocated(NodesAround(s, p));
    n.BecomeSymbol(x);
    Close(op, s, p, n);
  }

  /** ... or by a new tree. */
  method StoreTree(op: Op, n: Node, ghost s: Spine, ghost p: K.Path, x: Node)
    requires Linked(op, s) && Leads(s, p) && Sub(s, p) == Leaf(n) && K.OnSpine(op, Content(op, s), p)
    requires x.Valid() && !IsOp(x.tree, op) && x.repr !! Footprint(s)
    modifies n
    ensures Linked(op, s) && Footprint(s) <= old(Footprint(s)) + x.repr
    ensures Content(op, s) == K.Put(op, old(Content(op, s)), p, x.tree)
  {
    SubFacts(op, s, p);
    Open(op, s, p);
    assert n !in Around(s, p) && allocated(Around(s, p)) && allocated(NodesAround(s, p));
    assert x.repr !! Around(s, p);
    n.Become(x);
    Close(op, s, p, n);
  }

  // ---------------------------------------------------------------------------------------------------------
  // expr_eliminate_dups2
  // ---------------------------------------------------------------------------------------------------------

  method Dups2Root(n: Node) returns (count: nat)
    requires n.Valid() && n.IsBin()
    modifies n.repr
    ensures n.Valid() && n.kind == old(n.kind) && fresh(n.repr - old(n.repr))
    ensures K.Counted(n.tree, count) == K.Dups2(n.GetOp(), old(n.tree), [], [])
    decreases Size(n.tree), SpineSum(n.GetOp(), n.tree, [], []), 3
  {
    var op := n.GetOp();
    ghost var s := SpineOf(op, n);
    NodesInside(op, s);
    count := Dups2(op, n, n, s, [], []);
    Restore(op, s);
  }

  method Dups2(op: Op, n1: Node, n2: Node, ghost s: Spine, ghost p1: K.Path, ghost p2: K.Path) returns (count: nat)
    requires Points(op, s, p1, n1, p2, n2)
    modifies Footprint(s)
    ensures Linked(op, s) && fresh(Footprint(s) - old(Footprint(s)))
    ensures K.Counted(Content(op, s), count) == K.Dups2(op, old(Content(op, s)), p1, p2)
    decreases Size(Content(op, s)), SpineSum(op, Content(op, s), p1, p2), 2
  {
    SubFacts(op, s, p1);
    SubFacts(op, s, p2);
    if n1.kind == KindOf(op) {
      count := Dups2First(op, n1, n2, s, p1, p2);
    } else if n2.kind == KindOf(op) {
      count := Dups2Second(op, n1, n2, s, p1, p2);
    } else {
      count := Dups2Pair(op, n1, n2, s, p1, p2);
    }
  }

  method Dups2First(op: Op, n1: Node, n2: Node, ghost s: Spine, ghost p1: K.Path, ghost p2: K.Path) returns (count: nat)
    requires Points(op, s, p1, n1, p2, n2) && Sub(s, p1).Branch? && IsOp(K.At(op, Content(op, s), p1), op)
    modifies Footprint(s)
    ensures Linked(op, s) && fresh(Footprint(s) - old(Footprint(s)))
    ensures K.Counted(Content(op, s), count) == K.Dups2(op, old(Content(op, s)), p1, p2)
    decreases Size(Content(op, s)), SpineSum(op, Content(op, s), p1, p2), 1
  {
    StepDown(op, s, p1, false);
    var a := Dups2(op, n1.left, n2, s, p1 + [false], p2);
    StillPoints(op, s, old(Content(op, s)), p1, n1, p2, n2);
    StepDown(op, s, p1, true);
    var b := Dups2(op, n1.right, n2, s, p1 + [true], p2);
    count := a + b;
  }

  /** The operands of the second node, and then the node itself. */
  method Dups2Second(op: Op, n1: Node, n2: Node, ghost s: Spine, ghost p1: K.Path, ghost p2: K.Path) returns (count: nat)
    requires Points(op, s, p1, n1, p2, n2) && Sub(s, p1).Leaf? && Sub(s, p2).Branch?
    requires !IsOp(K.At(op, Content(op, s), p1), op) && IsOp(K.At(op, Content(op, s), p2), op)
    modifies Footprint(s)
    ensures Linked(op, s) && fresh(Footprint(s) - old(Footprint(s)))
    ensures K.Counted(Content(op, s), count) == K.Dups2(op, old(Content(op, s)), p1, p2)
    decreases Size(Content(op, s)), SpineSum(op, Content(op, s), p1, p2), 1, 1
  {
    ghost var t := Content(op, s);
    count := Dups2Operands(op, n1, n2, s, p1, p2);
    StillPoints(op, s, t, p1, n1, p2, n2);
    SubFacts(op, s, p1);
    var d := Dups2Pair(op, n1, n2, s, p1, p2);
    count := count + d;
  }

  ghost function AfterOperands(op: Op, t: Expr, p1: K.Path, p2: K.Path): (r: K.Counted)
    requires K.OnSpine(op, t, p1) && K.OnSpine(op, t, p2)
    requires !IsOp(K.At(op, t, p1), op) && IsOp(K.At(op, t, p2), op)
    ensures K.SameSpine(op, t, r.e) && Size(r.e) <= Size(t)
  {
    K.Descend(op, t, p2, false);
    var a := K.Dups2(op, t, p1, p2 + [false]);
    K.SameSpineAt(op, t, a.e, p1); K.SameSpineAt(op, t, a.e, p2);
    K.Descend(op, a.e, p2, true);
    var b := K.Dups2(op, a.e, p1, p2 + [true]);
    K.SameSpineTransitive(op, t, a.e, b.e);
    K.Counted(b.e, a.n + b.n)
  }

  method Dups2Operands(op: Op, n1: Node, n2: Node, ghost s: Spine, ghost p1: K.Path, ghost p2: K.Path)
    returns (count: nat)
    requires Points(op, s, p1, n1, p2, n2) && Sub(s, p2).Branch?
    requires !IsOp(K.At(op, Content(op, s), p1), op) && IsOp(K.At(op, Content(op, s), p2), op)
    modifies Footprint(s)
    ensures Linked(op, s) && fresh(Footprint(s) - old(Footprint(s)))
    ensures K.Counted(Content(op, s), count) == AfterOperands(op, old(Content(op, s)), p1, p2)
    decreases Size(Content(op, s)), SpineSum(op, Content(op, s), p1, p2), 1, 0
  {
    StepDown(op, s, p2, false);
    var a := Dups2(op, n1, n2.left, s, p1, p2 + [false]);
    StillPoints(op, s, old(Content(op, s)), p1, n1, p2, n2);
    StepDown(op, s, p2, true);
    var b := Dups2(op, n1, n2.right, s, p1, p2 + [true]);
    count := a + b;
  }

  method Dups2Pair(op: Op, n1: Node, n2: Node, ghost s: Spine, ghost p1: K.Path, ghost p2: K.Path) returns (count: nat)
    requires Points(op, s, p1, n1, p2, n2) && Sub(s, p1) == Leaf(n1) && !IsOp(K.At(op, Content(op, s), p1), op)
    modifies Footprint(s)
    ensures Linked(op, s) && fresh(Footprint(s) - old(Footprint(s)))
    ensures K.Counted(Content(op, s), count) == K.Dups2Pair(op, old(Content(op, s)), p1, p2)
    decreases Size(Content(op, s)), SpineSum(op, Content(op, s), p1, p2), 0
  {
    count := 0;
    ghost var t := Content(op, s);
    SubFacts(op, s, p1);
    SameNode(op, s, p1, p2);
    if n1 != n2 && (n1.kind == EAnd || n1.kind == EOr) {
      K.FirstIsNested(op, t, p1, p2);
      count := Dups2Operand(op, n1, s, p1);
      K.PutOperand(op, t, p1, n1.tree);
      StillPoints(op, s, t, p1, n1, p2, n2);
      var contradicted := DropContradicted(op, n1, n2, s, p1, p2);
      if contradicted {
        count := count + 1;
      }
    }
  }

  /** The first operand is replaced if the second expression contradicts it. */
  method DropContradicted(op: Op, n1: Node, n2: Node, ghost s: Spine, ghost p1: K.Path, ghost p2: K.Path)
    returns (contradicted: bool)
    requires Points(op, s, p1, n1, p2, n2) && Sub(s, p1) == Leaf(n1) && n1.Valid()
    modifies Footprint(s)
    ensures Linked(op, s) && Footprint(s) <= old(Footprint(s))
    ensures var t := old(Content(op, s));
            && contradicted == K.Contradicts(op, KTransform.Transform(Not(old(n1.tree))), K.At(op, t, p2))
            && Content(op, s) == if contradicted then K.Put(op, t, p1, Sym(Zero(op))) else t
  {
    SubFacts(op, s, p1);
    SubFacts(op, s, p2);
    assert allocated(Footprint(s)) && allocated(Nodes(s));
    contradicted := IsContradicted(op, n1, n2, Sub(s, p2));
    if contradicted {
      StoreSymbol(op, n1, s, p1, Zero(op));
    }
  }

  method Dups2Operand(op: Op, n1: Node, ghost s: Spine, ghost p1: K.Path) returns (count: nat)
    requires Linked(op, s) && Leads(s, p1) && Sub(s, p1) == Leaf(n1) && n1.IsBin() && n1.Valid()
    requires p1 != [] && K.OnSpine(op, Content(op, s), p1)
    modifies n1.repr
    ensures Linked(op, s) && fresh(Footprint(s) - old(Footprint(s))) && n1.Valid() && n1.kind == old(n1.kind)
    ensures K.Counted(n1.tree, count) == K.Dups2(old(n1.GetOp()), old(n1.tree), [], [])
    ensures Content(op, s) == K.Put(op, old(Content(op, s)), p1, n1.tree)
    decreases Size(Content(op, s)), 0
  {
    SubFacts(op, s, p1);
    K.AtIsSmaller(op, Content(op, s), p1);
    Open(op, s, p1);
    assert allocated(Around(s, p1)) && allocated(NodesAround(s, p1));
    count := Dups2Root(n1);
    Close(op, s, p1, n1);
  }

  /** The test on copies of both expressions. */
  method IsContradicted(op: Op, n1: Node, n2: Node, ghost s2: Spine) returns (b: bool)
    requires n1.Valid() && Linked(op, s2) && s2.node == n2
    ensures b == K.Contradicts(op, KTransform.Transform(Not(old(n1.tree))), old(Content(op, s2)))
  {
    assert allocated(Footprint(s2)) && allocated(Nodes(s2));
    var tmp1 := Negated(n1);
    var tmp2 := CopySpine(op, n2, s2);
    b := OnlyUnitLeft(op, tmp1, tmp2);
  }

  method Negated(n: Node) returns (tmp: Node)
    requires n.Valid()
    ensures tmp.Valid() && fresh(tmp.repr) && tmp.tree == KTransform.Transform(Not(n.tree))
  {
    tmp := ExprPasses.Copy(n);
    tmp := new Node.Negation(tmp);
    tmp := Transform(tmp);
  }

  method OnlyUnitLeft(op: Op, tmp1: Node, tmp2: Node) returns (b: bool)
    requires ExprPasses.TwoTrees(tmp1, tmp2)
    modifies tmp1.repr, tmp2.repr
    ensures b == K.Contradicts(op, old(tmp1.tree), old(tmp2.tree))
  {
    var _ := ExprPasses.ExtractEqTop(op, tmp1, tmp2);
    b := tmp1.kind == ESymbol && tmp1.lsym == Unit(op);
  }

  method CopyOperands(op: Op, n: Node, ghost s: Spine) returns (l: Node, r: Node)
    requires Linked(op, s) && s.node == n && s.Branch?
    ensures l.Valid() && l.tree == old(Content(op, s.l)) && fresh(l.repr)
    ensures r.Valid() && r.tree == old(Content(op, s.r)) && fresh(r.repr) && l.repr !! r.repr
    decreases s, 0
  {
    assert allocated(Footprint(s.r)) && allocated(Nodes(s.r));
    l := CopySpine(op, n.left, s.l);
    r := CopySpine(op, n.right, s.r);
  }

  /** expr_copy for a node whose operands are being rewritten. */
  method CopySpine(op: Op, n: Node, ghost s: Spine) returns (c: Node)
    requires Linked(op, s) && s.node == n
    ensures c.Valid() && c.tree == old(Content(op, s)) && fresh(c.repr)
    decreases s, 1
  {
    if n.kind == KindOf(op) {
      assert s.Branch?;
      var l, r := CopyOperands(op, n, s);
      c := new Node.Binary(op, l, r);
    } else {
      assert s.Leaf?;
      c := ExprPasses.Copy(n);
    }
  }

  // ---------------------------------------------------------------------------------------------------------
  // expr_eliminate_dups
  // ---------------------------------------------------------------------------------------------------------

  method BothPasses(n: Node) returns (count: nat)
    requires n.Valid()
    modifies n.repr
    ensures n.Valid() && fresh(n.repr - old(n.repr)) && K.Counted(n.tree, count) == K.BothPasses(old(n.tree))
  {
    count := 0;
    if n.kind == EAnd || n.kind == EOr {
      count := Dups1Root(n);
      var more := Dups2Root(n);
      count := count + more;
    }
  }

  /** The loop, on the tree rooted at n. */
  method EliminateDups(n: Node)
    requires n.Valid()
    modifies n.repr
    ensures n.Valid() && fresh(n.repr - old(n.repr)) && n.tree == K.EliminateDups(old(n.tree))
  {
    while true
      invariant n.Valid() && fresh(n.repr - old(n.repr))
      invariant K.EliminateDups(n.tree) == K.EliminateDups(old(n.tree))
      decreases Size(n.tree)
    {
      ghost var before := n.tree;
      var count := BothPasses(n);
      if count == 0 {
        K.BothPassesShape(before);
        break;
      }
      K.TurnShrinks(before);
      n.EliminateYn();
    }
  }
}
