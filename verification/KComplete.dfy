/** What the simplifier does find: the converse side of the soundness lemmas in KEliminate and KDups. */
module KComplete {
  import opened KExpr
  import opened KTransform
  import opened KEliminate
  import opened KDups

  /** The operands of an expression under one operator, from left to right. */
  function Operands(op: Op, e: Expr): seq<Expr> {
    if IsOp(e, op) then Operands(op, e.left) + Operands(op, e.right) else [e]
  }

  lemma {:induction false} OperandFacts(op: Op, e: Expr)
    ensures Operands(op, e) != []
    ensures forall x :: x in Operands(op, e) ==> !IsOp(x, op) && Size(x) <= Size(e)
    ensures IsOp(e, op) ==> forall x :: x in Operands(op, e) ==> Size(x) < Size(e)
  {
    if IsOp(e, op) {
      OperandFacts(op, e.left);
      OperandFacts(op, e.right);
    }
  }

  // ---------------------------------------------------------------------------------------------------------
  // Nothing common is left
  // ---------------------------------------------------------------------------------------------------------

  lemma {:induction false} ElimEqOperands(op: Op, e1: Expr, e2: Expr)
    ensures var r := ElimEq(op, e1, e2);
            && (forall x :: x in Operands(op, r.fst) ==> x in Operands(op, e1) || x == Sym(Unit(op)))
            && (forall x :: x in Operands(op, r.snd) ==> x in Operands(op, e2) || x == Sym(Unit(op)))
    decreases Size(e1) + Size(e2)
  {
    if IsOp(e1, op) {
      ElimEqOperands(op, e1.left, e2);
      ElimEqOperands(op, e1.right, ElimEq(op, e1.left, e2).snd);
    } else if IsOp(e2, op) {
      ElimEqOperands(op, e1, e2.left);
      ElimEqOperands(op, ElimEq(op, e1, e2.left).fst, e2.right);
    }
  }

  lemma EqualToYn(x: Expr, y: Expr)
    requires ExprEq(x, y) && (IsYn(x) || IsYn(y))
    ensures x == y
  {
  }

  /** After the elimination no operand of one side equals an operand of the other, y and n aside. */
  lemma {:induction false} ElimEqComplete(op: Op, e1: Expr, e2: Expr, x: Expr, y: Expr)
    requires x in Operands(op, ElimEq(op, e1, e2).fst) && y in Operands(op, ElimEq(op, e1, e2).snd)
    ensures ExprEq(x, y) ==> IsYn(x) && x == y
    decreases Size(e1) + Size(e2)
  {
    if ExprEq(x, y) && (IsYn(x) || IsYn(y)) {
      EqualToYn(x, y);
    } else if IsOp(e1, op) {
      var a := ElimEq(op, e1.left, e2);
      var b := ElimEq(op, e1.right, a.snd);
      if x in Operands(op, b.fst) {
        ElimEqComplete(op, e1.right, a.snd, x, y);
      } else {
        ElimEqOperands(op, e1.right, a.snd);
        if y in Operands(op, a.snd) {
          ElimEqComplete(op, e1.left, e2, x, y);
        }
      }
    } else if IsOp(e2, op) {
      var a := ElimEq(op, e1, e2.left);
      var b := ElimEq(op, a.fst, e2.right);
      if y in Operands(op, b.snd) {
        ElimEqComplete(op, a.fst, e2.right, x, y);
      } else {
        ElimEqOperands(op, a.fst, e2.right);
        if x in Operands(op, a.fst) {
          ElimEqComplete(op, e1, e2.left, x, y);
        }
      }
    }
  }

  // ---------------------------------------------------------------------------------------------------------
  // The elimination on sequences of operands
  // ---------------------------------------------------------------------------------------------------------

  /** One operand against all operands of the other side. */
  function Against(op: Op, x: Expr, ys: seq<Expr>): (Expr, seq<Expr>)
    decreases |ys|
  {
    if ys == [] then (x, ys)
    else
      var r := ElimEq(op, x, ys[0]);
      var s := Against(op, r.fst, ys[1..]);
      (s.0, [r.snd] + s.1)
  }

  function AllAgainst(op: Op, xs: seq<Expr>, ys: seq<Expr>): (seq<Expr>, seq<Expr>)
    decreases |xs|
  {
    if xs == [] then (xs, ys)
    else
      var a := Against(op, xs[0], ys);
      var b := AllAgainst(op, xs[1..], a.1);
      ([a.0] + b.0, b.1)
  }

  lemma {:induction false} AgainstAppend(op: Op, x: Expr, ys: seq<Expr>, zs: seq<Expr>)
    ensures var a := Against(op, x, ys);
            var b := Against(op, a.0, zs);
            Against(op, x, ys + zs) == (b.0, a.1 + b.1)
    decreases |ys|
  {
    if ys == [] {
      assert ys + zs == zs;
      assert [] + Against(op, x, zs).1 == Against(op, x, zs).1;
    } else {
      var r := ElimEq(op, x, ys[0]);
      assert (ys + zs)[1..] == ys[1..] + zs;
      AgainstAppend(op, r.fst, ys[1..], zs);
      var s := Against(op, r.fst, ys[1..]);
      var b := Against(op, s.0, zs);
      assert [r.snd] + (s.1 + b.1) == ([r.snd] + s.1) + b.1;
    }
  }

  lemma {:induction false} AllAgainstAppend(op: Op, xs: seq<Expr>, us: seq<Expr>, ys: seq<Expr>)
    ensures var a := AllAgainst(op, xs, ys);
            var b := AllAgainst(op, us, a.1);
            AllAgainst(op, xs + us, ys) == (a.0 + b.0, b.1)
    decreases |xs|
  {
    if xs == [] {
      assert xs + us == us;
      assert [] + AllAgainst(op, us, ys).0 == AllAgainst(op, us, ys).0;
    } else {
      var a := Against(op, xs[0], ys);
      assert (xs + us)[1..] == xs[1..] + us;
      AllAgainstAppend(op, xs[1..], us, a.1);
      var b := AllAgainst(op, xs[1..], a.1);
      var c := AllAgainst(op, us, b.1);
      assert [a.0] + (b.0 + c.0) == ([a.0] + b.0) + c.0;
    }
  }

  lemma {:induction false} ElimEqAgainst(op: Op, x: Expr, e: Expr)
    requires !IsOp(x, op)
    ensures var r, s := ElimEq(op, x, e), Against(op, x, Operands(op, e));
            r.fst == s.0 && Operands(op, r.snd) == s.1 && !IsOp(r.fst, op)
    decreases Size(e)
  {
    if IsOp(e, op) {
      ElimEqAgainst(op, x, e.left);
      ElimEqAgainst(op, ElimEq(op, x, e.left).fst, e.right);
      AgainstAppend(op, x, Operands(op, e.left), Operands(op, e.right));
    } else {
      assert [e][1..] == [];
    }
  }

  /** The elimination on trees is the elimination on their sequences of operands. */
  lemma {:induction false} ElimEqIsAllAgainst(op: Op, e1: Expr, e2: Expr)
    ensures var r, s := ElimEq(op, e1, e2), AllAgainst(op, Operands(op, e1), Operands(op, e2));
            Operands(op, r.fst) == s.0 && Operands(op, r.snd) == s.1
    decreases Size(e1)
  {
    if IsOp(e1, op) {
      ElimEqIsAllAgainst(op, e1.left, e2);
      ElimEqIsAllAgainst(op, e1.right, ElimEq(op, e1.left, e2).snd);
      AllAgainstAppend(op, Operands(op, e1.left), Operands(op, e1.right), Operands(op, e2));
    } else {
      ElimEqAgainst(op, e1, e2);
      assert [e1][1..] == [];
    }
  }

  // ---------------------------------------------------------------------------------------------------------
  // An expression equals itself
  // ---------------------------------------------------------------------------------------------------------

  /** What an operand becomes when the other side contains it too. */
  function Matched(op: Op, x: Expr): Expr {
    if IsYn(x) then x else Sym(Unit(op))
  }

  function MatchedAll(op: Op, xs: seq<Expr>): seq<Expr> {
    if xs == [] then [] else [Matched(op, xs[0])] + MatchedAll(op, xs[1..])
  }

  lemma {:induction false} NothingMatches(op: Op, x: Expr, ys: seq<Expr>)
    requires !IsOp(x, op) && forall j :: 0 <= j < |ys| ==> !IsOp(ys[j], op) && (IsYn(x) || IsYn(ys[j]))
    ensures Against(op, x, ys) == (x, ys)
    decreases |ys|
  {
    if ys != [] {
      if ExprEq(x, ys[0]) {
        EqualToYn(x, ys[0]);
      }
      NothingMatches(op, x, ys[1..]);
      assert [ys[0]] + ys[1..] == ys;
    }
  }

  lemma OneMatches(op: Op, x: Expr)
    requires !IsOp(x, op) && ExprEq(x, x)
    ensures Against(op, x, [x]) == (Matched(op, x), [Matched(op, x)])
  {
    var r := ElimEq(op, x, x);
    assert [x][1..] == [] && [r.snd] + [] == [r.snd];
  }

  /** With the operands before it matched already, the next one finds its own counterpart. */
  lemma NextMatches(op: Op, before: seq<Expr>, x: Expr, after: seq<Expr>)
    requires !IsOp(x, op) && ExprEq(x, x)
    requires forall j :: 0 <= j < |before| ==> IsYn(before[j])
    requires forall j :: 0 <= j < |after| ==> !IsOp(after[j], op)
    ensures Against(op, x, before + [x] + after) == (Matched(op, x), before + [Matched(op, x)] + after)
  {
    var m := Matched(op, x);
    assert Against(op, x, before + [x]) == (m, before + [m]) by {
      AgainstAppend(op, x, before, [x]);
      NothingMatches(op, x, before);
      OneMatches(op, x);
    }
    AgainstAppend(op, x, before + [x], after);
    NothingMatches(op, m, after);
  }

  lemma {:induction false} AllMatch(op: Op, before: seq<Expr>, xs: seq<Expr>)
    requires forall j :: 0 <= j < |before| ==> IsYn(before[j])
    requires forall x :: x in xs ==> !IsOp(x, op) && ExprEq(x, x)
    ensures AllAgainst(op, xs, before + xs) == (MatchedAll(op, xs), before + MatchedAll(op, xs))
    decreases |xs|
  {
    if xs != [] {
      var x, rest := xs[0], xs[1..];
      var m := Matched(op, x);
      var next := before + [m];
      assert before + xs == before + [x] + rest;
      NextMatches(op, before, x, rest);
      assert Against(op, x, before + xs) == (m, next + rest);
      AllMatch(op, next, rest);
      assert AllAgainst(op, xs, before + xs) == ([m] + MatchedAll(op, rest), next + MatchedAll(op, rest));
      assert next + MatchedAll(op, rest) == before + ([m] + MatchedAll(op, rest));
    } else {
      assert before + xs == before;
    }
  }

  lemma {:induction false} MatchedAllYn(op: Op, xs: seq<Expr>)
    ensures forall x :: x in MatchedAll(op, xs) ==> IsYn(x)
    ensures Sym(Zero(op)) in MatchedAll(op, xs) <==> Sym(Zero(op)) in xs
  {
    if xs != [] {
      MatchedAllYn(op, xs[1..]);
    }
  }

  /** Constant elimination reduces an expression of y and n operands to one of them. */
  lemma {:induction false} YnOnly(op: Op, e: Expr)
    requires forall x :: x in Operands(op, e) ==> IsYn(x)
    ensures EliminateYn(e) == Sym(if Sym(Zero(op)) in Operands(op, e) then Zero(op) else Unit(op))
  {
    if IsOp(e, op) {
      YnOnly(op, e.left);
      YnOnly(op, e.right);
    } else {
      assert e in [e];
    }
  }

  /** What the elimination leaves of an expression and itself. */
  lemma ElimEqSelf(op: Op, e: Expr)
    requires forall x :: x in Operands(op, e) ==> ExprEq(x, x)
    ensures var r := ElimEq(op, e, e);
            && (forall x :: x in Operands(op, r.fst) || x in Operands(op, r.snd) ==> IsYn(x))
            && (Sym(Zero(op)) in Operands(op, r.fst) <==> Sym(Zero(op)) in Operands(op, e))
            && (Sym(Zero(op)) in Operands(op, r.snd) <==> Sym(Zero(op)) in Operands(op, e))
  {
    var xs := Operands(op, e);
    OperandFacts(op, e);
    ElimEqIsAllAgainst(op, e, e);
    AllMatch(op, [], xs);
    assert [] + xs == xs && [] + MatchedAll(op, xs) == MatchedAll(op, xs);
    MatchedAllYn(op, xs);
  }

  /** expr_eq answers yes for an expression and itself. */
  lemma {:induction false} ExprEqReflexive(e: Expr)
    ensures ExprEq(e, e)
    decreases Size(e)
  {
    match e
    case Sym(_) =>
    case Cmp(_, _, _) =>
    case Not(x) => ExprEqReflexive(x);
    case Bin(op, _, _) =>
      OperandFacts(op, e);
      forall x | x in Operands(op, e) ensures ExprEq(x, x) {
        ExprEqReflexive(x);
      }
      var r := ElimEq(op, e, e);
      ElimEqSelf(op, e);
      YnOnly(op, r.fst);
      YnOnly(op, r.snd);
      assert EliminateEq(e, e) == Rest(EliminateYn(r.fst), EliminateYn(r.snd));
  }

  /** The elimination proves the implication it is meant for: of a conjunction with p, nothing but y is left of p.
      (A p with an operand n is n itself, and implied by nothing.) */
  lemma ConjunctIsEliminated(p: Expr, x: Expr)
    requires Sym(No) !in Operands(And, p)
    ensures EliminateEq(Bin(And, p, x), p).snd == Sym(Yes)
  {
    forall o | o in Operands(And, p) ensures ExprEq(o, o) {
      ExprEqReflexive(o);
    }
    var a := ElimEq(And, p, p);
    var b := ElimEq(And, x, a.snd);
    ElimEqSelf(And, p);
    ElimEqOperands(And, x, a.snd);
    assert ElimEq(And, Bin(And, p, x), p) == Rest(Bin(And, a.fst, b.fst), b.snd);
    assert Sym(No) !in Operands(And, b.snd);
    YnOnly(And, b.snd);
    AllYesSecond(Bin(And, a.fst, b.fst), b.snd);
  }

  lemma AllYesSecond(fst: Expr, snd: Expr)
    requires IsOp(fst, And) && (forall x :: x in Operands(And, snd) ==> IsYn(x))
    ensures SecondPhase(fst, snd) == Rest(fst, snd)
  {
    if snd.Bin? && snd.op == Or {
      assert snd in Operands(And, snd);
    }
  }

  predicate SecondApplies(p: Rest) {
    p.snd.Bin? && !IsOp(p.fst, p.snd.op)
  }

  /** After expr_eliminate_eq no operand of one side equals an operand of the other, y and n aside: after the first phase
      under the operator of the first expression, and after the second under that of the second. */
  lemma EliminateEqComplete(e1: Expr, e2: Expr, x: Expr, y: Expr)
    requires ExprEq(x, y)
    ensures var p := FirstPhase(e1, e2);
            var q := SecondPhase(p.fst, p.snd);
            && (e1.Bin? && x in Operands(e1.op, p.fst) && y in Operands(e1.op, p.snd) ==> IsYn(x) && x == y)
            && (SecondApplies(p) && x in Operands(p.snd.op, q.fst) && y in Operands(p.snd.op, q.snd) ==>
                  IsYn(x) && x == y)
  {
    var p := FirstPhase(e1, e2);
    var q := SecondPhase(p.fst, p.snd);
    if e1.Bin? && x in Operands(e1.op, p.fst) && y in Operands(e1.op, p.snd) {
      ElimEqComplete(e1.op, e1, e2, x, y);
    }
    if SecondApplies(p) && x in Operands(p.snd.op, q.fst) && y in Operands(p.snd.op, q.snd) {
      ElimEqComplete(p.snd.op, p.fst, p.snd, x, y);
    }
  }

  // ---------------------------------------------------------------------------------------------------------
  // Which operands go
  // ---------------------------------------------------------------------------------------------------------

  predicate Matches(x: Expr, y: Expr) {
    ExprEq(x, y) && !IsYn(y)
  }

  ghost predicate NoneOf(op: Op, xs: seq<Expr>) {
    forall x :: x in xs ==> !IsOp(x, op)
  }

  /** No operand on the left equals two operands on the right. */
  ghost predicate MatchOnce(xs: seq<Expr>, ys: seq<Expr>) {
    forall x, i, j :: x in xs && 0 <= i < j < |ys| && Matches(x, ys[i]) ==> !Matches(x, ys[j])
  }

  /** An operand on the right that the one on the left does not equal stays; and the only one that it does equal goes. */
  lemma {:induction false} AgainstPointwise(op: Op, x: Expr, ys: seq<Expr>, i: nat)
    requires !IsOp(x, op) && NoneOf(op, ys) && i < |ys|
    ensures |Against(op, x, ys).1| == |ys|
    ensures Against(op, x, ys).1[i] == ys[i] || Against(op, x, ys).1[i] == Sym(Unit(op))
    ensures !Matches(x, ys[i]) ==> Against(op, x, ys).1[i] == ys[i]
    ensures MatchOnce([x], ys) && Matches(x, ys[i]) ==> Against(op, x, ys).1[i] == Sym(Unit(op))
    decreases |ys|
  {
    var r := ElimEq(op, x, ys[0]);
    var s := Against(op, r.fst, ys[1..]);
    assert ys[0] in ys && Against(op, x, ys).1 == [r.snd] + s.1;
    AgainstLength(op, r.fst, ys[1..]);
    if ExprEq(x, ys[0]) && (IsYn(x) || IsYn(ys[0])) {
      EqualToYn(x, ys[0]);
    }
    if i > 0 {
      if r.fst == x {
        MatchTail(x, ys);
        AgainstPointwise(op, x, ys[1..], i - 1);
      } else {
        if Matches(r.fst, ys[i]) {
          EqualToYn(r.fst, ys[i]);
        }
        assert x in [x] && Matches(x, ys[0]);
        AgainstPointwise(op, r.fst, ys[1..], i - 1);
      }
    }
  }

  lemma MatchTail(x: Expr, ys: seq<Expr>)
    requires ys != []
    ensures MatchOnce([x], ys) ==> MatchOnce([x], ys[1..])
  {
    if MatchOnce([x], ys) {
      forall z, i, j | z in [x] && 0 <= i < j < |ys[1..]| && Matches(z, ys[1..][i]) ensures !Matches(z, ys[1..][j]) {
        assert ys[1..][i] == ys[i + 1] && ys[1..][j] == ys[j + 1];
      }
    }
  }

  lemma {:induction false} AgainstLength(op: Op, x: Expr, ys: seq<Expr>)
    ensures |Against(op, x, ys).1| == |ys|
    decreases |ys|
  {
    if ys != [] {
      AgainstLength(op, ElimEq(op, x, ys[0]).fst, ys[1..]);
    }
  }

  lemma AgainstMembers(op: Op, x: Expr, ys: seq<Expr>)
    requires !IsOp(x, op) && NoneOf(op, ys)
    ensures |Against(op, x, ys).1| == |ys| && NoneOf(op, Against(op, x, ys).1)
  {
    AgainstLength(op, x, ys);
    forall y | y in Against(op, x, ys).1 ensures !IsOp(y, op) {
      var i :| 0 <= i < |ys| && Against(op, x, ys).1[i] == y;
      AgainstPointwise(op, x, ys, i);
      assert ys[i] in ys;
    }
  }

  /** What equals nothing on the left stays. */
  lemma {:induction false} NotTaken(op: Op, xs: seq<Expr>, ys: seq<Expr>, i: nat)
    requires NoneOf(op, xs) && NoneOf(op, ys) && i < |ys| && forall x :: x in xs ==> !Matches(x, ys[i])
    ensures |AllAgainst(op, xs, ys).1| == |ys| && AllAgainst(op, xs, ys).1[i] == ys[i]
    decreases |xs|
  {
    if xs != [] {
      assert xs[0] in xs;
      AgainstMembers(op, xs[0], ys);
      AgainstPointwise(op, xs[0], ys, i);
      NotTaken(op, xs[1..], Against(op, xs[0], ys).1, i);
    }
  }

  ghost predicate UnitOrMatched(op: Op, xs: seq<Expr>, y: Expr) {
    y == Sym(Unit(op)) || exists x :: x in xs && Matches(x, y)
  }

  /** And if all of the right equals something on the left, each with a partner of its own, all of it goes. */
  lemma {:induction false} AllTaken(op: Op, xs: seq<Expr>, ys: seq<Expr>)
    requires NoneOf(op, xs) && NoneOf(op, ys) && MatchOnce(xs, ys)
    requires forall y :: y in ys ==> UnitOrMatched(op, xs, y)
    ensures forall y :: y in AllAgainst(op, xs, ys).1 ==> y == Sym(Unit(op))
    decreases |xs|
  {
    if xs != [] {
      var x, ys' := xs[0], Against(op, xs[0], ys).1;
      assert x in xs;
      AgainstMembers(op, x, ys);
      forall i | 0 <= i < |ys| ensures UnitOrMatched(op, xs[1..], ys'[i]) {
        OneTaken(op, xs, ys, i);
      }
      MatchOnceStays(op, xs, ys, ys');
      AllTaken(op, xs[1..], ys');
    }
  }

  lemma OneTaken(op: Op, xs: seq<Expr>, ys: seq<Expr>, i: nat)
    requires NoneOf(op, xs) && NoneOf(op, ys) && MatchOnce(xs, ys) && xs != [] && i < |ys|
    requires UnitOrMatched(op, xs, ys[i])
    ensures |Against(op, xs[0], ys).1| == |ys| && UnitOrMatched(op, xs[1..], Against(op, xs[0], ys).1[i])
  {
    assert xs[0] in xs;
    AgainstPointwise(op, xs[0], ys, i);
    if !Matches(xs[0], ys[i]) && ys[i] != Sym(Unit(op)) {
      var x :| x in xs && Matches(x, ys[i]);
      assert xs == [xs[0]] + xs[1..];
      assert x in xs[1..];
    }
  }

  lemma MatchOnceStays(op: Op, xs: seq<Expr>, ys: seq<Expr>, ys': seq<Expr>)
    requires xs != [] && MatchOnce(xs, ys) && NoneOf(op, xs) && NoneOf(op, ys) && ys' == Against(op, xs[0], ys).1
    ensures MatchOnce(xs[1..], ys')
  {
    assert xs[0] in xs;
    AgainstLength(op, xs[0], ys);
    forall x, i, j | x in xs[1..] && 0 <= i < j < |ys'| && Matches(x, ys'[i]) ensures !Matches(x, ys'[j]) {
      AgainstPointwise(op, xs[0], ys, i);
      AgainstPointwise(op, xs[0], ys, j);
      assert x in xs;
    }
  }

  // ---------------------------------------------------------------------------------------------------------
  // Nothing is left for the two passes
  // ---------------------------------------------------------------------------------------------------------

  /** If the first pass counts nothing, no rule joins two of the operands it has compared. */
  lemma {:induction false} Dups1Complete(op: Op, t: Expr, p1: Path, p2: Path, q1: Path, q2: Path)
    requires OnSpine(op, t, p1) && OnSpine(op, t, p2) && Dups1(op, t, p1, p2).n == 0
    requires p1 <= q1 && OnSpine(op, t, q1) && !IsOp(At(op, t, q1), op)
    requires p2 <= q2 && OnSpine(op, t, q2) && !IsOp(At(op, t, q2), op)
    ensures q1 != q2 ==> JoinExpr(op, At(op, t, q1), At(op, t, q2)).None?
    decreases SpineSize(op, At(op, t, p1)) + SpineSize(op, At(op, t, p2))
  {
    if IsOp(At(op, t, p1), op) {
      assert p1 != q1;
      var right := q1[|p1|];
      Descend(op, t, p1, false);
      Descend(op, t, p1, true);
      Dups1Shape(op, t, p1 + [false], p2);
      assert p1 + [right] <= q1;
      Dups1Complete(op, t, p1 + [right], p2, q1, q2);
    } else if IsOp(At(op, t, p2), op) {
      LeafPath(op, t, p1, q1);
      assert p2 != q2;
      var right := q2[|p2|];
      Descend(op, t, p2, false);
      Descend(op, t, p2, true);
      Dups1Shape(op, t, p1, p2 + [false]);
      assert p2 + [right] <= q2;
      Dups1Complete(op, t, p1, p2 + [right], q1, q2);
    } else {
      LeafPath(op, t, p1, q1);
      LeafPath(op, t, p2, q2);
      if q1 != q2 {
        PairComplete(op, t, q1, q2);
      }
    }
  }

  lemma {:induction false} LeafPath(op: Op, t: Expr, p: Path, q: Path)
    requires OnSpine(op, t, p) && !IsOp(At(op, t, p), op) && OnSpine(op, t, q) && p <= q
    ensures p == q
    decreases |p|
  {
    if p != [] {
      LeafPath(op, Child(t, p[0]), p[1..], q[1..]);
      assert p == [p[0]] + p[1..] && q == [q[0]] + q[1..];
    }
  }

  lemma PairComplete(op: Op, t: Expr, p1: Path, p2: Path)
    requires OnSpine(op, t, p1) && !IsOp(At(op, t, p1), op)
    requires OnSpine(op, t, p2) && !IsOp(At(op, t, p2), op)
    requires p1 != p2 && Dups1Pair(op, t, p1, p2).n == 0
    ensures JoinExpr(op, At(op, t, p1), At(op, t, p2)).None?
  {
    var e1 := At(op, t, p1);
    if e1.Bin? {
      AtIsSmaller(op, t, p1);
      Dups1Shape(e1.op, e1, [], []);
    }
  }

  /** If the second pass counts nothing, no operand is contradicted by a node it has been compared with. */
  lemma {:induction false} Dups2Complete(op: Op, t: Expr, p1: Path, p2: Path, q1: Path, q2: Path)
    requires OnSpine(op, t, p1) && OnSpine(op, t, p2) && Dups2(op, t, p1, p2).n == 0
    requires p1 <= q1 && OnSpine(op, t, q1) && At(op, t, q1).Bin? && !IsOp(At(op, t, q1), op)
    requires p2 <= q2 && OnSpine(op, t, q2)
    ensures q1 != q2 ==> !Contradicts(op, Transform(Not(At(op, t, q1))), At(op, t, q2))
    decreases SpineSize(op, At(op, t, p1)) + SpineSize(op, At(op, t, p2))
  {
    if IsOp(At(op, t, p1), op) {
      assert p1 != q1;
      var right := q1[|p1|];
      Descend(op, t, p1, false);
      Descend(op, t, p1, true);
      Dups2Shape(op, t, p1 + [false], p2);
      assert p1 + [right] <= q1;
      Dups2Complete(op, t, p1 + [right], p2, q1, q2);
    } else {
      LeafPath(op, t, p1, q1);
      if IsOp(At(op, t, p2), op) {
        Descend(op, t, p2, false);
        Descend(op, t, p2, true);
        Dups2Shape(op, t, p1, p2 + [false]);
        Dups2Shape(op, t, p1, p2 + [true]);
        if p2 != q2 {
          var right := q2[|p2|];
          assert p2 + [right] <= q2;
          Dups2Complete(op, t, p1, p2 + [right], q1, q2);
        } else if q1 != q2 {
          Pair2Complete(op, t, q1, q2);
        }
      } else {
        LeafPath(op, t, p2, q2);
        if q1 != q2 {
          Pair2Complete(op, t, q1, q2);
        }
      }
    }
  }

  lemma Pair2Complete(op: Op, t: Expr, p1: Path, p2: Path)
    requires OnSpine(op, t, p1) && At(op, t, p1).Bin? && !IsOp(At(op, t, p1), op) && OnSpine(op, t, p2)
    requires p1 != p2 && Dups2Pair(op, t, p1, p2).n == 0
    ensures !Contradicts(op, Transform(Not(At(op, t, p1))), At(op, t, p2))
  {
    var e1 := At(op, t, p1);
    AtIsSmaller(op, t, p1);
    FirstIsNested(op, t, p1, p2);
    Dups2Shape(e1.op, e1, [], []);
    PutBack(op, t, p1);
  }

  /** In the result of expr_eliminate_dups no rule joins two different operands, and no operand is contradicted by
      another node of the spine. */
  lemma EliminateDupsComplete(e: Expr, q1: Path, q2: Path)
    requires EliminateDups(e).Bin? && q1 != q2
    requires var r := EliminateDups(e);
             OnSpine(r.op, r, q1) && OnSpine(r.op, r, q2) && !IsOp(At(r.op, r, q1), r.op)
    ensures var r := EliminateDups(e);
            && (!IsOp(At(r.op, r, q2), r.op) ==> JoinExpr(r.op, At(r.op, r, q1), At(r.op, r, q2)).None?)
            && (At(r.op, r, q1).Bin? ==> !Contradicts(r.op, Transform(Not(At(r.op, r, q1))), At(r.op, r, q2)))
  {
    var r := EliminateDups(e);
    EliminateDupsFixpoint(e);
    var a := Dups1(r.op, r, [], []);
    Dups1Shape(r.op, r, [], []);
    assert a.n == 0 && a.e == r;
    if !IsOp(At(r.op, r, q2), r.op) {
      Dups1Complete(r.op, r, [], [], q1, q2);
    }
    if At(r.op, r, q1).Bin? {
      Dups2Complete(r.op, r, [], [], q1, q2);
    }
  }
}
