/** What expr_extract_eq takes out, and what the second pass of expr_eliminate_dups makes of it
    (support/kconfig/expr.c:556-634, 826-875): the laws in terms of operands. */
module KContradict {
  import opened KExpr
  import opened KTransform
  import opened KEliminate
  import opened KDups
  import opened KComplete

  // ---------------------------------------------------------------------------------------------------------
  // Nothing common is left behind
  // ---------------------------------------------------------------------------------------------------------

  lemma {:induction false} ExtractOperands(op: Op, common: Option<Expr>, e1: Expr, e2: Expr)
    ensures var r := ExtractEq(op, common, e1, e2);
            && (forall x :: x in Operands(op, r.fst) ==> x in Operands(op, e1) || x == Sym(Unit(op)))
            && (forall x :: x in Operands(op, r.snd) ==> x in Operands(op, e2) || x == Sym(Unit(op)))
    decreases Size(e1) + Size(e2)
  {
    if IsOp(e1, op) {
      var a := ExtractEq(op, common, e1.left, e2);
      ExtractOperands(op, common, e1.left, e2);
      ExtractOperands(op, a.common, e1.right, a.snd);
    } else if IsOp(e2, op) {
      var a := ExtractEq(op, common, e1, e2.left);
      ExtractOperands(op, common, e1, e2.left);
      ExtractOperands(op, a.common, a.fst, e2.right);
    }
  }

  /** After the extraction no operand of one side equals an operand of the other, but for the unit that stands for what
      has been taken out. */
  lemma {:induction false} ExtractEqComplete(op: Op, common: Option<Expr>, e1: Expr, e2: Expr, x: Expr, y: Expr)
    requires var r := ExtractEq(op, common, e1, e2); x in Operands(op, r.fst) && y in Operands(op, r.snd)
    ensures ExprEq(x, y) ==> x == y == Sym(Unit(op))
    decreases Size(e1) + Size(e2)
  {
    var unit := Sym(Unit(op));
    if ExprEq(x, y) && (x == unit || y == unit) {
      EqualToYn(x, y);
    } else if IsOp(e1, op) {
      var a := ExtractEq(op, common, e1.left, e2);
      var b := ExtractEq(op, a.common, e1.right, a.snd);
      if x in Operands(op, b.fst) {
        ExtractEqComplete(op, a.common, e1.right, a.snd, x, y);
      } else {
        ExtractOperands(op, a.common, e1.right, a.snd);
        if y in Operands(op, a.snd) {
          ExtractEqComplete(op, common, e1.left, e2, x, y);
        }
      }
    } else if IsOp(e2, op) {
      var a := ExtractEq(op, common, e1, e2.left);
      var b := ExtractEq(op, a.common, a.fst, e2.right);
      if y in Operands(op, b.snd) {
        ExtractEqComplete(op, a.common, a.fst, e2.right, x, y);
      } else {
        ExtractOperands(op, a.common, a.fst, e2.right);
        if x in Operands(op, a.fst) {
          ExtractEqComplete(op, common, e1, e2.left, x, y);
        }
      }
    }
  }

  // ---------------------------------------------------------------------------------------------------------
  // Which operands are taken out
  // ---------------------------------------------------------------------------------------------------------

  /** Some operand of e equals x. */
  ghost predicate Occurs(op: Op, x: Expr, e: Expr) {
    exists y :: y in Operands(op, e) && ExprEq(x, y)
  }

  ghost predicate AllOccur(op: Op, xs: seq<Expr>, e: Expr) {
    forall x :: x in xs ==> Occurs(op, x, e)
  }

  /** No operand of e equals two of these. */
  ghost predicate Apart(op: Op, xs: seq<Expr>, e: Expr) {
    forall i, j, y :: 0 <= i < j < |xs| && y in Operands(op, e) && ExprEq(xs[i], y) ==> !ExprEq(xs[j], y)
  }

  lemma OccursEither(op: Op, x: Expr, e: Expr)
    requires IsOp(e, op)
    ensures Occurs(op, x, e) <==> Occurs(op, x, e.left) || Occurs(op, x, e.right)
  {
    if y :| y in Operands(op, e.left) && ExprEq(x, y) {
      assert y in Operands(op, e);
    }
    if y :| y in Operands(op, e.right) && ExprEq(x, y) {
      assert y in Operands(op, e);
    }
    if y :| y in Operands(op, e) && ExprEq(x, y) {
      assert y in Operands(op, e.left) || y in Operands(op, e.right);
    }
  }

  /** One operand against the other side: it is taken out if and only if it occurs there. */
  lemma {:induction false} OneIsTaken(op: Op, common: Option<Expr>, x: Expr, e: Expr)
    requires !IsOp(x, op)
    ensures var r := ExtractEq(op, common, x, e);
            if Occurs(op, x, e) then r.fst == Sym(Unit(op)) else r == Extract(x, e, common)
    decreases Size(e)
  {
    if IsOp(e, op) {
      var a := ExtractEq(op, common, x, e.left);
      OneIsTaken(op, common, x, e.left);
      OneIsTaken(op, a.common, a.fst, e.right);
      OccursEither(op, x, e);
    } else {
      assert e in Operands(op, e);
    }
  }

  /** What equals no operand of the first side is still there in the second. */
  lemma {:induction false} SecondStays(op: Op, common: Option<Expr>, e1: Expr, e2: Expr, y: Expr)
    requires y in Operands(op, e2) && forall x :: x in Operands(op, e1) ==> !ExprEq(x, y)
    ensures y in Operands(op, ExtractEq(op, common, e1, e2).snd)
    decreases Size(e1) + Size(e2)
  {
    if IsOp(e1, op) {
      var a := ExtractEq(op, common, e1.left, e2);
      SecondStays(op, common, e1.left, e2, y);
      SecondStays(op, a.common, e1.right, a.snd, y);
    } else {
      assert e1 in Operands(op, e1);
      if IsOp(e2, op) {
        var a := ExtractEq(op, common, e1, e2.left);
        var b := ExtractEq(op, a.common, a.fst, e2.right);
        OneIsTaken(op, common, e1, e2.left);
        if y in Operands(op, e2.left) {
          SecondStays(op, common, e1, e2.left, y);
        } else if y == Sym(Unit(op)) {
          UnitStays(op, a.common, a.fst, e2.right);
        } else {
          if a.fst == Sym(Unit(op)) && ExprEq(a.fst, y) {
            EqualToYn(a.fst, y);
          }
          assert Operands(op, a.fst) == [a.fst];
          SecondStays(op, a.common, a.fst, e2.right, y);
        }
        assert y in Operands(op, Bin(op, a.snd, b.snd));
      }
    }
  }

  lemma {:induction false} UnitStays(op: Op, common: Option<Expr>, x: Expr, e: Expr)
    requires !IsOp(x, op) && Sym(Unit(op)) in Operands(op, e)
    ensures Sym(Unit(op)) in Operands(op, ExtractEq(op, common, x, e).snd)
    decreases Size(e)
  {
    if IsOp(e, op) {
      var a := ExtractEq(op, common, x, e.left);
      OneIsTaken(op, common, x, e.left);
      if Sym(Unit(op)) in Operands(op, e.left) {
        UnitStays(op, common, x, e.left);
      } else {
        UnitStays(op, a.common, a.fst, e.right);
      }
    }
  }

  /** What equals no operand of the second side is still there in the first. */
  lemma {:induction false} FirstStays(op: Op, common: Option<Expr>, e1: Expr, e2: Expr, x: Expr)
    requires x in Operands(op, e1) && x != Sym(Unit(op)) && !Occurs(op, x, e2)
    ensures x in Operands(op, ExtractEq(op, common, e1, e2).fst)
    decreases Size(e1)
  {
    if IsOp(e1, op) {
      var a := ExtractEq(op, common, e1.left, e2);
      if x in Operands(op, e1.left) {
        FirstStays(op, common, e1.left, e2, x);
      } else {
        ExtractOperands(op, common, e1.left, e2);
        if y :| y in Operands(op, a.snd) && ExprEq(x, y) {
          if y == Sym(Unit(op)) {
            EqualToYn(x, y);
          }
        }
        FirstStays(op, a.common, e1.right, a.snd, x);
      }
    } else {
      OneIsTaken(op, common, e1, e2);
    }
  }

  /** If all operands of the first side occur in the second, each with a partner of its own, all are taken out. */
  lemma {:induction false} AllAreTaken(op: Op, common: Option<Expr>, e1: Expr, e2: Expr)
    requires AllOccur(op, Operands(op, e1), e2) && Apart(op, Operands(op, e1), e2)
    requires Sym(Unit(op)) !in Operands(op, e1)
    ensures forall x :: x in Operands(op, ExtractEq(op, common, e1, e2).fst) ==> x == Sym(Unit(op))
    decreases Size(e1)
  {
    if IsOp(e1, op) {
      var l, r := Operands(op, e1.left), Operands(op, e1.right);
      var a := ExtractEq(op, common, e1.left, e2);
      ApartParts(op, l, r, e2);
      AllAreTaken(op, common, e1.left, e2);
      ExtractOperands(op, common, e1.left, e2);
      forall x | x in r ensures Occurs(op, x, a.snd) {
        PartnerStays(op, common, e1, e2, x);
      }
      UnitApart(op, r, e2, a.snd);
      AllAreTaken(op, a.common, e1.right, a.snd);
    } else {
      assert e1 in Operands(op, e1);
      OneIsTaken(op, common, e1, e2);
    }
  }

  lemma ApartParts(op: Op, l: seq<Expr>, r: seq<Expr>, e: Expr)
    requires Apart(op, l + r, e)
    ensures Apart(op, l, e) && Apart(op, r, e)
    ensures forall x, z, y :: x in l && z in r && y in Operands(op, e) && ExprEq(x, y) ==> !ExprEq(z, y)
  {
    var xs := l + r;
    forall i, j, y | 0 <= i < j < |l| && y in Operands(op, e) && ExprEq(l[i], y) ensures !ExprEq(l[j], y) {
      assert xs[i] == l[i] && xs[j] == l[j];
    }
    forall i, j, y | 0 <= i < j < |r| && y in Operands(op, e) && ExprEq(r[i], y) ensures !ExprEq(r[j], y) {
      assert xs[|l| + i] == r[i] && xs[|l| + j] == r[j];
    }
    forall x, z, y | x in l && z in r && y in Operands(op, e) && ExprEq(x, y) ensures !ExprEq(z, y) {
      var i :| 0 <= i < |l| && l[i] == x;
      var j :| 0 <= j < |r| && r[j] == z;
      assert xs[i] == x && xs[|l| + j] == z;
    }
  }

  lemma PartnerStays(op: Op, common: Option<Expr>, e1: Expr, e2: Expr, x: Expr)
    requires IsOp(e1, op) && x in Operands(op, e1.right) && Occurs(op, x, e2)
    requires forall z, y ::
               z in Operands(op, e1.left) && y in Operands(op, e2) && ExprEq(z, y) ==> !ExprEq(x, y)
    ensures Occurs(op, x, ExtractEq(op, common, e1.left, e2).snd)
  {
    var y :| y in Operands(op, e2) && ExprEq(x, y);
    SecondStays(op, common, e1.left, e2, y);
  }

  lemma UnitApart(op: Op, xs: seq<Expr>, e: Expr, f: Expr)
    requires Apart(op, xs, e) && Sym(Unit(op)) !in xs
    requires forall y :: y in Operands(op, f) ==> y in Operands(op, e) || y == Sym(Unit(op))
    ensures Apart(op, xs, f)
  {
    forall i, j, y | 0 <= i < j < |xs| && y in Operands(op, f) && ExprEq(xs[i], y) ensures !ExprEq(xs[j], y) {
      if y == Sym(Unit(op)) {
        EqualToYn(xs[i], y);
      }
    }
  }

  // ---------------------------------------------------------------------------------------------------------
  // When an operand is contradicted
  // ---------------------------------------------------------------------------------------------------------

  lemma {:induction false} UnitMeansAllUnits(op: Op, e: Expr, x: Expr)
    requires EliminateYn(e) == Sym(Unit(op)) && x in Operands(op, e)
    ensures EliminateYn(x) == Sym(Unit(op))
  {
    if IsOp(e, op) {
      if x in Operands(op, e.left) {
        UnitMeansAllUnits(op, e.left, x);
      } else {
        UnitMeansAllUnits(op, e.right, x);
      }
    }
  }

  lemma {:induction false} AllUnits(op: Op, e: Expr)
    requires forall x :: x in Operands(op, e) ==> x == Sym(Unit(op))
    ensures EliminateYn(e) == Sym(Unit(op))
  {
    if IsOp(e, op) {
      assert forall x :: x in Operands(op, e.left) || x in Operands(op, e.right) ==> x in Operands(op, e);
      AllUnits(op, e.left);
      AllUnits(op, e.right);
    } else {
      assert e in Operands(op, e);
    }
  }

  lemma {:induction false} NothingCollected(op: Op, common: Option<Expr>, e1: Expr, e2: Expr)
    ensures var r := ExtractEq(op, common, e1, e2);
            && (common.Some? ==> r.common.Some?) && (r.common.None? ==> r.fst == e1 && r.snd == e2)
    decreases Size(e1) + Size(e2)
  {
    if IsOp(e1, op) {
      var a := ExtractEq(op, common, e1.left, e2);
      NothingCollected(op, common, e1.left, e2);
      NothingCollected(op, a.common, e1.right, a.snd);
    } else if IsOp(e2, op) {
      var a := ExtractEq(op, common, e1, e2.left);
      NothingCollected(op, common, e1, e2.left);
      NothingCollected(op, a.common, a.fst, e2.right);
    }
  }

  /** What the negated operand has taken out of it completely occurs in the other expression, operand for operand. */
  lemma ContradictedOccurs(op: Op, negated: Expr, e: Expr, x: Expr)
    requires Contradicts(op, negated, e) && x in Operands(op, negated)
    requires negated != Sym(Unit(op)) && x != Sym(Unit(op)) && !HasYn(x)
    ensures Occurs(op, x, e)
  {
    var r := ExtractEq(op, None, negated, e);
    NothingCollected(op, None, negated, e);
    if !Occurs(op, x, e) {
      FirstStays(op, None, negated, e, x);
      UnitMeansAllUnits(op, r.fst, x);
      EliminateYnShrinks(x);
    }
  }

  /** And what occurs so, each operand with a partner of its own, is contradicted. */
  lemma OccursContradicted(op: Op, negated: Expr, e: Expr)
    requires AllOccur(op, Operands(op, negated), e) && Apart(op, Operands(op, negated), e)
    requires Sym(Unit(op)) !in Operands(op, negated)
    ensures Contradicts(op, negated, e)
  {
    var r := ExtractEq(op, None, negated, e);
    NothingCollected(op, None, negated, e);
    AllAreTaken(op, None, negated, e);
    AllUnits(op, r.fst);
    OperandFacts(op, negated);
    var first := Operands(op, negated)[0];
    assert first in Operands(op, negated);
    assert r.common.None? ==> first in Operands(op, r.fst);
  }

  predicate YnFree(op: Op, e: Expr) {
    forall x :: x in Operands(op, e) ==> !IsYn(x) && !HasYn(x)
  }

  /** Together: an expression without y and n is contradicted if and only if all operands of its negation occur. */
  lemma ContradictsExactly(op: Op, negated: Expr, e: Expr)
    requires YnFree(op, negated) && Apart(op, Operands(op, negated), e)
    ensures Contradicts(op, negated, e) <==> AllOccur(op, Operands(op, negated), e)
  {
    if Contradicts(op, negated, e) {
      assert negated == Sym(Unit(op)) ==> negated in Operands(op, negated);
      forall x | x in Operands(op, negated) ensures Occurs(op, x, e) {
        ContradictedOccurs(op, negated, e, x);
      }
    }
    if AllOccur(op, Operands(op, negated), e) {
      OccursContradicted(op, negated, e);
    }
  }

  // ---------------------------------------------------------------------------------------------------------
  // Negated operands
  // ---------------------------------------------------------------------------------------------------------

  function NegatedAll(xs: seq<Expr>): seq<Expr> {
    if xs == [] then [] else [Transform(Not(xs[0]))] + NegatedAll(xs[1..])
  }

  lemma {:induction false} NegatedAppend(xs: seq<Expr>, ys: seq<Expr>)
    ensures NegatedAll(xs + ys) == NegatedAll(xs) + NegatedAll(ys)
    decreases |xs|
  {
    if xs == [] {
      assert xs + ys == ys;
    } else {
      assert (xs + ys)[1..] == xs[1..] + ys;
      NegatedAppend(xs[1..], ys);
    }
  }

  /** The operands of the negation of an AND or OR node are the negations of its operands. */
  lemma {:induction false} NegatedOperands(op: Op, e: Expr)
    requires Normal(e)
    ensures Operands(op, Transform(Not(e))) == NegatedAll(Operands(Dual(op), e))
  {
    NormalIsFixed(e);
    if IsOp(e, Dual(op)) {
      NegatedOperands(op, e.left);
      NegatedOperands(op, e.right);
      NegatedAppend(Operands(Dual(op), e.left), Operands(Dual(op), e.right));
      assert Transform(Not(e)) == Bin(op, Transform(Not(e.left)), Transform(Not(e.right)));
    } else {
      assert !IsOp(Transform(Not(e)), op);
      assert [e][1..] == [] && NegatedAll([e]) == [Transform(Not(e))] + NegatedAll([]);
    }
  }

  // ---------------------------------------------------------------------------------------------------------
  // The second pass
  // ---------------------------------------------------------------------------------------------------------

  /** By itself, the operand is left alone by the second pass. */
  predicate Quiet(e: Expr) {
    e.Bin? ==> Dups2(e.op, e, [], []).n == 0
  }

  /** The position p is `top` or below. */
  predicate Under(top: Path, p: Path) {
    top <= p
  }

  predicate IsOperand(op: Op, t: Expr, p: Path) {
    OnSpine(op, t, p) && !IsOp(At(op, t, p), op)
  }

  /** The operand at p is contradicted by the node at q. */
  predicate ContradictedBy(op: Op, t: Expr, p: Path, q: Path) {
    && IsOperand(op, t, p) && OnSpine(op, t, q) && p != q && At(op, t, p).Bin?
    && Contradicts(op, Transform(Not(At(op, t, p))), At(op, t, q))
  }

  ghost predicate ContradictedBelow(op: Op, t: Expr, p: Path, top: Path) {
    exists q :: Under(top, q) && ContradictedBy(op, t, p, q)
  }

  lemma ContradictedSplit(op: Op, t: Expr, p: Path, top: Path)
    requires OnSpine(op, t, top) && IsOp(At(op, t, top), op) && IsOperand(op, t, p)
    ensures ContradictedBelow(op, t, p, top) <==>
            || ContradictedBelow(op, t, p, top + [false]) || ContradictedBelow(op, t, p, top + [true])
            || ContradictedBy(op, t, p, top)
  {
    forall q: Path | Under(top, q) && ContradictedBy(op, t, p, q) && q != top
      ensures ContradictedBelow(op, t, p, top + [false]) || ContradictedBelow(op, t, p, top + [true])
    {
      var right := q[|top|];
      assert Under(top + [right], q);
    }
    PartsAreUnder(top, false);
    PartsAreUnder(top, true);
    assert Under(top, top);
  }

  lemma PartsAreUnder(top: Path, right: bool)
    ensures forall p :: Under(top + [right], p) ==> Under(top, p)
  {
  }

  lemma LeafSplit(op: Op, t: Expr, p: Path, top: Path)
    requires IsOperand(op, t, top) && IsOperand(op, t, p)
    ensures ContradictedBelow(op, t, p, top) <==> ContradictedBy(op, t, p, top)
  {
    if q :| Under(top, q) && ContradictedBy(op, t, p, q) {
      LeafPath(op, t, top, q);
    }
    assert Under(top, top);
  }

  lemma {:induction false} LeafPath(op: Op, t: Expr, p: Path, q: Path)
    requires IsOperand(op, t, p) && OnSpine(op, t, q) && p <= q
    ensures p == q
  {
    KComplete.LeafPath(op, t, p, q);
  }

  /** One operand against the nodes below `top`: it is replaced if and only if one of them contradicts it. */
  lemma {:induction false} OperandPass(op: Op, t: Expr, p: Path, top: Path)
    requires IsOperand(op, t, p) && OnSpine(op, t, top) && Quiet(At(op, t, p))
    ensures Dups2(op, t, p, top) ==
            if ContradictedBelow(op, t, p, top) then Counted(Put(op, t, p, Sym(Zero(op))), 1) else Counted(t, 0)
    decreases SpineSize(op, At(op, t, top)), 1
  {
    if IsOp(At(op, t, top), op) {
      Descend(op, t, top, false);
      Descend(op, t, top, true);
      ContradictedSplit(op, t, p, top);
      OperandPass(op, t, p, top + [false]);
      if ContradictedBelow(op, t, p, top + [false]) {
        ReplacedEarly(op, t, p, top);
      } else {
        OperandPass(op, t, p, top + [true]);
        if ContradictedBelow(op, t, p, top + [true]) {
          ReplacedOperand(op, t, p);
        } else {
          PairPass(op, t, p, top);
        }
      }
    } else {
      LeafSplit(op, t, p, top);
      PairPass(op, t, p, top);
    }
  }

  /** Once it is replaced, nothing more happens to it. */
  lemma {:induction false} ReplacedEarly(op: Op, t: Expr, p: Path, top: Path)
    requires IsOperand(op, t, p) && OnSpine(op, t, top) && IsOp(At(op, t, top), op) && OnSpine(op, t, top + [false])
    requires Dups2(op, t, p, top + [false]) == Counted(Put(op, t, p, Sym(Zero(op))), 1)
    ensures Dups2(op, t, p, top) == Counted(Put(op, t, p, Sym(Zero(op))), 1)
    decreases SpineSize(op, At(op, t, top)), 0
  {
    Descend(op, t, top, false);
    var a := Dups2(op, t, p, top + [false]);
    ReplacedOperand(op, t, p);
    SameSpineAt(op, t, a.e, p); SameSpineAt(op, t, a.e, top);
    Descend(op, a.e, top, true);
    OperandPass(op, a.e, p, top + [true]);
    NotContradicted(op, a.e, p, top + [true]);
  }

  lemma PairPass(op: Op, t: Expr, p: Path, q: Path)
    requires IsOperand(op, t, p) && OnSpine(op, t, q) && Quiet(At(op, t, p))
    ensures Dups2Pair(op, t, p, q) ==
            if ContradictedBy(op, t, p, q) then Counted(Put(op, t, p, Sym(Zero(op))), 1) else Counted(t, 0)
  {
    var e := At(op, t, p);
    if p != q && e.Bin? {
      Dups2Shape(e.op, e, [], []);
      PutBack(op, t, p);
    }
  }

  lemma ReplacedOperand(op: Op, t: Expr, p: Path)
    requires IsOperand(op, t, p)
    ensures var r := Put(op, t, p, Sym(Zero(op))); IsOperand(op, r, p) && At(op, r, p) == Sym(Zero(op))
  {
    AtPut(op, t, p, Sym(Zero(op)));
  }

  lemma NotContradicted(op: Op, t: Expr, p: Path, top: Path)
    requires IsOperand(op, t, p) && !At(op, t, p).Bin?
    ensures !ContradictedBelow(op, t, p, top)
  {
  }

  /** An operand that is y or n already stays what it is. */
  lemma {:induction false} ZeroStays(op: Op, t: Expr, p1: Path, p2: Path, z: Path)
    requires OnSpine(op, t, p1) && OnSpine(op, t, p2) && IsOperand(op, t, z) && At(op, t, z) == Sym(Zero(op))
    ensures var r := Dups2(op, t, p1, p2).e; IsOperand(op, r, z) && At(op, r, z) == Sym(Zero(op))
    decreases SpineSize(op, At(op, t, p1)) + SpineSize(op, At(op, t, p2)), 1
  {
    if IsOp(At(op, t, p1), op) {
      Descend(op, t, p1, false);
      var a := Dups2(op, t, p1 + [false], p2);
      ZeroStays(op, t, p1 + [false], p2, z);
      SameSpineAt(op, t, a.e, p1); SameSpineAt(op, t, a.e, p2);
      Descend(op, a.e, p1, true);
      ZeroStays(op, a.e, p1 + [true], p2, z);
    } else if IsOp(At(op, t, p2), op) {
      Descend(op, t, p2, false);
      var a := Dups2(op, t, p1, p2 + [false]);
      ZeroStays(op, t, p1, p2 + [false], z);
      SameSpineAt(op, t, a.e, p1); SameSpineAt(op, t, a.e, p2);
      Descend(op, a.e, p2, true);
      var b := Dups2(op, a.e, p1, p2 + [true]);
      ZeroStays(op, a.e, p1, p2 + [true], z);
      SameSpineTransitive(op, t, a.e, b.e);
      SameSpineAt(op, t, b.e, p1); SameSpineAt(op, t, b.e, p2);
      ZeroStaysInPair(op, b.e, p1, p2, z);
    } else {
      ZeroStaysInPair(op, t, p1, p2, z);
    }
  }

  lemma ZeroStaysInPair(op: Op, t: Expr, p1: Path, p2: Path, z: Path)
    requires IsOperand(op, t, p1) && OnSpine(op, t, p2) && IsOperand(op, t, z) && At(op, t, z) == Sym(Zero(op))
    ensures var r := Dups2Pair(op, t, p1, p2).e; IsOperand(op, r, z) && At(op, r, z) == Sym(Zero(op))
  {
    var e := At(op, t, p1);
    if p1 != p2 && e.Bin? {
      FirstIsNested(op, t, p1, p2);
      AtIsSmaller(op, t, p1);
      var s := Dups2(e.op, e, [], []);
      var t1 := Put(op, t, p1, s.e);
      PutOperand(op, t, p1, s.e);
      AtPut(op, t, p1, s.e);
      SameSpineAt(op, t, t1, p1);
      PutElsewhere(op, t, p1, z, s.e);
      PutElsewhere(op, t1, p1, z, Sym(Zero(op)));
    }
  }

  /** Some operand below `top` is contradicted by another node of the tree. */
  ghost predicate SomeContradicted(op: Op, t: Expr, top: Path) {
    exists p :: Under(top, p) && IsOperand(op, t, p) && ContradictedBelow(op, t, p, [])
  }

  ghost predicate HasZero(op: Op, t: Expr) {
    exists z :: IsOperand(op, t, z) && At(op, t, z) == Sym(Zero(op))
  }

  ghost predicate AllQuiet(op: Op, t: Expr, top: Path) {
    forall p :: Under(top, p) && IsOperand(op, t, p) ==> Quiet(At(op, t, p))
  }

  lemma SomeSplit(op: Op, t: Expr, top: Path)
    requires OnSpine(op, t, top) && IsOp(At(op, t, top), op)
    ensures SomeContradicted(op, t, top) <==>
            SomeContradicted(op, t, top + [false]) || SomeContradicted(op, t, top + [true])
    ensures AllQuiet(op, t, top) ==> AllQuiet(op, t, top + [false]) && AllQuiet(op, t, top + [true])
  {
    forall p: Path | Under(top, p) && IsOperand(op, t, p)
      ensures Under(top + [false], p) || Under(top + [true], p)
    {
      assert p != top;
      var right := p[|top|];
      assert Under(top + [right], p);
    }
    PartsAreUnder(top, false);
    PartsAreUnder(top, true);
  }

  /** All operands below `top` against the whole tree: nothing happens, or some operand ends up y or n. */
  lemma {:induction false} WholePass(op: Op, t: Expr, top: Path)
    requires OnSpine(op, t, top) && AllQuiet(op, t, top)
    ensures var r := Dups2(op, t, top, []);
            if SomeContradicted(op, t, top) then r.n > 0 && HasZero(op, r.e) else r == Counted(t, 0)
    decreases SpineSize(op, At(op, t, top))
  {
    if IsOp(At(op, t, top), op) {
      Descend(op, t, top, false);
      Descend(op, t, top, true);
      SomeSplit(op, t, top);
      WholePass(op, t, top + [false]);
      var a := Dups2(op, t, top + [false], []);
      SameSpineAt(op, t, a.e, top);
      Descend(op, a.e, top, true);
      if SomeContradicted(op, t, top + [false]) {
        var z :| IsOperand(op, a.e, z) && At(op, a.e, z) == Sym(Zero(op));
        ZeroStays(op, a.e, top + [true], [], z);
      } else {
        WholePass(op, t, top + [true]);
      }
    } else {
      OperandPass(op, t, top, []);
      OnlyItself(op, t, top);
      if ContradictedBelow(op, t, top, []) {
        ReplacedOperand(op, t, top);
      }
    }
  }

  lemma OnlyItself(op: Op, t: Expr, top: Path)
    requires IsOperand(op, t, top)
    ensures SomeContradicted(op, t, top) <==> ContradictedBelow(op, t, top, [])
  {
    assert Under(top, top);
    if p :| Under(top, p) && IsOperand(op, t, p) && ContradictedBelow(op, t, p, []) {
      LeafPath(op, t, top, p);
    }
  }

  lemma {:induction false} ZeroWins(op: Op, t: Expr, z: Path)
    requires OnSpine(op, t, z) && At(op, t, z) == Sym(Zero(op))
    ensures EliminateYn(t) == Sym(Zero(op))
    decreases |z|
  {
    if z != [] {
      ZeroWins(op, Child(t, z[0]), z[1..]);
    }
  }

  /** If the first pass finds nothing, and the second finds nothing within the operands: then expr_eliminate_dups makes n of
      a conjunction (y of a disjunction) if and only if an operand is contradicted by another node, and otherwise leaves
      it alone. */
  lemma SecondPassExactly(t: Expr)
    requires t.Bin? && Dups1(t.op, t, [], []).n == 0 && AllQuiet(t.op, t, [])
    ensures EliminateDups(t) == if SomeContradicted(t.op, t, []) then Sym(Zero(t.op)) else t
  {
    FoundFrom(t, []);
  }

  lemma FoundFrom(t: Expr, root: Path)
    requires t.Bin? && root == [] && Dups1(t.op, t, root, root).n == 0 && AllQuiet(t.op, t, root)
    ensures EliminateDups(t) == if SomeContradicted(t.op, t, root) then Sym(Zero(t.op)) else t
  {
    var op := t.op;
    var r := Dups2(op, t, root, root);
    FirstFoundNothing(t, root);
    WholePass(op, t, root);
    if SomeContradicted(op, t, root) {
      var z :| IsOperand(op, r.e, z) && At(op, r.e, z) == Sym(Zero(op));
      ZeroWins(op, r.e, z);
    }
    AfterOneTurn(t, r);
  }

  lemma FirstFoundNothing(t: Expr, root: Path)
    requires t.Bin? && root == [] && Dups1(t.op, t, root, root).n == 0
    ensures BothPasses(t) == Dups2(t.op, t, root, root)
  {
    Dups1Shape(t.op, t, root, root);
  }

  lemma AfterOneTurn(t: Expr, r: Counted)
    requires BothPasses(t) == r
    ensures r.n == 0 ==> EliminateDups(t) == r.e
    ensures r.n > 0 && EliminateYn(r.e).Sym? ==> EliminateDups(t) == EliminateYn(r.e)
  {
    if r.n > 0 && EliminateYn(r.e).Sym? {
      SymbolIsFixed(EliminateYn(r.e));
    }
  }

  lemma SymbolIsFixed(e: Expr)
    requires e.Sym?
    ensures EliminateDups(e) == e
  {
    assert BothPasses(e) == Counted(e, 0);
  }

  /** By itself, the operand is left alone by the first pass. */
  predicate QuietFirst(e: Expr) {
    e.Bin? ==> Dups1(e.op, e, [], []).n == 0
  }

  ghost predicate NothingToJoin(op: Op, t: Expr, p1: Path, p2: Path) {
    forall p, q :: Under(p1, p) && Under(p2, q) && p != q && IsOperand(op, t, p) && IsOperand(op, t, q) ==>
                     QuietFirst(At(op, t, p)) && JoinExpr(op, At(op, t, p), At(op, t, q)).None?
  }

  lemma JoinParts(op: Op, t: Expr, p1: Path, p2: Path)
    requires NothingToJoin(op, t, p1, p2)
    ensures forall right :: NothingToJoin(op, t, p1 + [right], p2) && NothingToJoin(op, t, p1, p2 + [right])
  {
    forall right ensures NothingToJoin(op, t, p1 + [right], p2) && NothingToJoin(op, t, p1, p2 + [right]) {
      PartsAreUnder(p1, right);
      PartsAreUnder(p2, right);
    }
  }

  /** The first pass finds nothing if no rule joins two operands, and none is simplified by itself.  (The converse is
      KComplete.Dups1Complete.) */
  lemma {:induction false} FirstPassFindsNothing(op: Op, t: Expr, p1: Path, p2: Path)
    requires OnSpine(op, t, p1) && OnSpine(op, t, p2) && NothingToJoin(op, t, p1, p2)
    ensures Dups1(op, t, p1, p2) == Counted(t, 0)
    decreases SpineSize(op, At(op, t, p1)) + SpineSize(op, At(op, t, p2))
  {
    if IsOp(At(op, t, p1), op) {
      Descend(op, t, p1, false);
      Descend(op, t, p1, true);
      JoinParts(op, t, p1, p2);
      FirstPassFindsNothing(op, t, p1 + [false], p2);
      FirstPassFindsNothing(op, t, p1 + [true], p2);
    } else if IsOp(At(op, t, p2), op) {
      Descend(op, t, p2, false);
      Descend(op, t, p2, true);
      JoinParts(op, t, p1, p2);
      FirstPassFindsNothing(op, t, p1, p2 + [false]);
      FirstPassFindsNothing(op, t, p1, p2 + [true]);
    } else if p1 != p2 {
      assert Under(p1, p1) && Under(p2, p2);
      NothingInPair(op, t, p1, p2);
    }
  }

  lemma NothingInPair(op: Op, t: Expr, p1: Path, p2: Path)
    requires IsOperand(op, t, p1) && IsOperand(op, t, p2) && p1 != p2
    requires QuietFirst(At(op, t, p1)) && JoinExpr(op, At(op, t, p1), At(op, t, p2)).None?
    ensures Dups1Pair(op, t, p1, p2) == Counted(t, 0)
  {
    var e := At(op, t, p1);
    if e.Bin? {
      Dups1Shape(e.op, e, [], []);
    }
    PutBack(op, t, p1);
  }

  // ---------------------------------------------------------------------------------------------------------
  // The same in terms of operands
  // ---------------------------------------------------------------------------------------------------------

  /** The negations of all operands of e1 occur in e2, each with a partner of its own. */
  ghost predicate Opposed(op: Op, e1: Expr, e2: Expr) {
    var negated := NegatedAll(Operands(Dual(op), e1));
    && IsOp(e1, Dual(op)) && Normal(e1) && Sym(Unit(op)) !in negated
    && AllOccur(op, negated, e2) && Apart(op, negated, e2)
  }

  lemma OpposedContradicts(op: Op, e1: Expr, e2: Expr)
    requires Opposed(op, e1, e2)
    ensures Contradicts(op, Transform(Not(e1)), e2)
  {
    NegatedOperands(op, e1);
    OccursContradicted(op, Transform(Not(e1)), e2);
  }

  /** A conjunction of a disjunction with the negations of all its operands is n, and a disjunction of a conjunction with
      the negations of all its operands is y. */
  lemma OppositesCancel(t: Expr, p: Path, q: Path)
    requires t.Bin? && Dups1(t.op, t, [], []).n == 0 && AllQuiet(t.op, t, [])
    requires OnSpine(t.op, t, p) && OnSpine(t.op, t, q) && p != q && Opposed(t.op, At(t.op, t, p), At(t.op, t, q))
    ensures EliminateDups(t) == Sym(Zero(t.op))
  {
    var op := t.op;
    OpposedContradicts(op, At(op, t, p), At(op, t, q));
    assert ContradictedBy(op, t, p, q) && Under([], q) && Under([], p);
    SecondPassExactly(t);
  }

  /** Whatever the input, no such opposites are left in the result. */
  lemma NoOppositesLeft(e: Expr, p: Path, q: Path)
    requires EliminateDups(e).Bin? && p != q
    requires var r := EliminateDups(e); OnSpine(r.op, r, p) && OnSpine(r.op, r, q)
    ensures var r := EliminateDups(e); !Opposed(r.op, At(r.op, r, p), At(r.op, r, q))
  {
    var r := EliminateDups(e);
    if Opposed(r.op, At(r.op, r, p), At(r.op, r, q)) {
      OpposedContradicts(r.op, At(r.op, r, p), At(r.op, r, q));
      EliminateDupsComplete(e, p, q);
    }
  }

  /** (A || B) && (!A && !B) is simplified to n, and (A && B) || (!A || !B) to y. */
  lemma OppositesExample(op: Op, a: Symbol, b: Symbol)
    requires a.Config? && b.Config? && a != b
    ensures EliminateDups(Opposites(op, a, b)) == Sym(Zero(op))
  {
    var t := Opposites(op, a, b);
    ExamplePaths(op, a, b);
    ExampleIsQuiet(op, a, b, []);
    FirstPassFindsNothing(op, t, [], []);
    ExampleOpposed(op, a, b);
    OppositesCancel(t, [false], [true]);
  }

  function Opposites(op: Op, a: Symbol, b: Symbol): Expr {
    Bin(op, Bin(Dual(op), Sym(a), Sym(b)), Bin(op, Not(Sym(a)), Not(Sym(b))))
  }

  lemma ExamplePaths(op: Op, a: Symbol, b: Symbol)
    ensures forall p :: IsOperand(op, Opposites(op, a, b), p) ==> p == [false] || p == [true, false] || p == [true, true]
    ensures var t := Opposites(op, a, b);
            && OnSpine(op, t, [false]) && At(op, t, [false]) == t.left
            && OnSpine(op, t, [true]) && At(op, t, [true]) == t.right
            && OnSpine(op, t, [true, false]) && At(op, t, [true, false]) == Not(Sym(a))
            && OnSpine(op, t, [true, true]) && At(op, t, [true, true]) == Not(Sym(b))
  {
    var t := Opposites(op, a, b);
    OnePath(op, t, false);
    OnePath(op, t, true);
    OnePath(op, t.right, false);
    OnePath(op, t.right, true);
    assert [true, false][1..] == [false] && [true, true][1..] == [true];
    forall p | IsOperand(op, t, p) ensures p == [false] || p == [true, false] || p == [true, true] {
      Deeper(op, t, p);
      if p[0] {
        Deeper(op, t.right, p[1..]);
      }
    }
  }

  /** An operand of a node lies below one of its two sides. */
  lemma Deeper(op: Op, t: Expr, p: Path)
    requires IsOp(t, op) && IsOperand(op, t, p)
    ensures p != [] && p == [p[0]] + p[1..] && IsOperand(op, Child(t, p[0]), p[1..])
    ensures !IsOp(Child(t, p[0]), op) ==> p == [p[0]]
  {
  }

  lemma OnePath(op: Op, t: Expr, right: bool)
    requires IsOp(t, op)
    ensures OnSpine(op, t, [right]) && At(op, t, [right]) == Child(t, right)
  {
    assert [right][1..] == [];
  }

  lemma ExampleIsQuiet(op: Op, a: Symbol, b: Symbol, root: Path)
    requires a.Config? && b.Config? && a != b && root == []
    ensures var t := Opposites(op, a, b); AllQuiet(op, t, root) && NothingToJoin(op, t, root, root)
  {
    var t := Opposites(op, a, b);
    ExamplePaths(op, a, b);
    QuietPair(Dual(op), t.left);
    QuietSecond(Dual(op), t.left);
    ExampleRules(op, a, b);
    assert At(op, t, [false]) == t.left && At(op, t, [true, false]) == Not(Sym(a));
  }

  lemma ExampleRules(op: Op, a: Symbol, b: Symbol)
    requires a.Config? && b.Config? && a != b
    ensures var e, na, nb := Bin(Dual(op), Sym(a), Sym(b)), Not(Sym(a)), Not(Sym(b));
            && JoinExpr(op, e, na).None? && JoinExpr(op, e, nb).None? && JoinExpr(op, na, e).None?
            && JoinExpr(op, nb, e).None? && JoinExpr(op, na, nb).None? && JoinExpr(op, nb, na).None?
  {
    NotEqual(a, b);
  }

  lemma ExampleOpposed(op: Op, a: Symbol, b: Symbol)
    requires a.Config? && b.Config? && a != b
    ensures var t := Opposites(op, a, b); Opposed(op, t.left, t.right)
  {
    var t, na, nb := Opposites(op, a, b), Not(Sym(a)), Not(Sym(b));
    NotIsFixed(a);
    NotIsFixed(b);
    NotEqual(a, b);
    OpposedPair(op, t.left, Sym(a), Sym(b), na, nb);
  }

  lemma OpposedPair(op: Op, e: Expr, x: Expr, y: Expr, nx: Expr, ny: Expr)
    requires e == Bin(Dual(op), x, y) && Normal(e) && !IsOp(x, Dual(op)) && !IsOp(y, Dual(op))
    requires nx == Transform(Not(x)) && ny == Transform(Not(y)) && !IsOp(nx, op) && !IsOp(ny, op)
    requires Sym(Unit(op)) !in [nx, ny]
    requires ExprEq(nx, nx) && ExprEq(ny, ny) && !ExprEq(nx, ny) && !ExprEq(ny, nx)
    ensures Opposed(op, e, Bin(op, nx, ny))
  {
    TwoOperands(Dual(op), x, y);
    NegatedTwo(x, y);
    TwoOccur(op, nx, ny);
  }

  lemma NotIsFixed(a: Symbol)
    requires !a.IsYmn()
    ensures Transform(Not(Sym(a))) == Not(Sym(a))
  {
    NormalIsFixed(Not(Sym(a)));
  }

  lemma NotEqual(a: Symbol, b: Symbol)
    requires a != b
    ensures ExprEq(Not(Sym(a)), Not(Sym(a))) && ExprEq(Not(Sym(b)), Not(Sym(b)))
    ensures !ExprEq(Not(Sym(a)), Not(Sym(b))) && !ExprEq(Not(Sym(b)), Not(Sym(a)))
  {
    assert ExprEq(Not(Sym(a)), Not(Sym(b))) == ExprEq(Sym(a), Sym(b));
    assert ExprEq(Not(Sym(b)), Not(Sym(a))) == ExprEq(Sym(b), Sym(a));
    assert ExprEq(Not(Sym(a)), Not(Sym(a))) == ExprEq(Sym(a), Sym(a));
    assert ExprEq(Not(Sym(b)), Not(Sym(b))) == ExprEq(Sym(b), Sym(b));
  }

  lemma TwoOccur(op: Op, x: Expr, y: Expr)
    requires !IsOp(x, op) && !IsOp(y, op) && ExprEq(x, x) && ExprEq(y, y) && !ExprEq(x, y) && !ExprEq(y, x)
    ensures AllOccur(op, [x, y], Bin(op, x, y)) && Apart(op, [x, y], Bin(op, x, y))
  {
    TwoOperands(op, x, y);
    var e, xs := Bin(op, x, y), [x, y];
    forall z | z in xs ensures Occurs(op, z, e) {
      assert z in Operands(op, e);
    }
    forall i, j, z | 0 <= i < j < |xs| && z in Operands(op, e) && ExprEq(xs[i], z) ensures !ExprEq(xs[j], z) {
      assert i == 0 && j == 1 && (z == x || z == y);
    }
  }

  lemma TwoOperands(op: Op, x: Expr, y: Expr)
    requires !IsOp(x, op) && !IsOp(y, op)
    ensures Operands(op, Bin(op, x, y)) == [x, y]
  {
    assert Operands(op, x) == [x] && Operands(op, y) == [y];
  }

  lemma NegatedTwo(x: Expr, y: Expr)
    ensures NegatedAll([x, y]) == [Transform(Not(x)), Transform(Not(y))]
  {
    assert [x, y][1..] == [y] && [y][1..] == [];
    assert NegatedAll([y]) == [Transform(Not(y))] + NegatedAll([]);
  }
}
