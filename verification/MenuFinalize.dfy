/** How menu_finalize rearranges the menu tree (support/kconfig/menu.c:336-422): entries that depend on the entry
    before them move below it, and the entries below an entry without a prompt move up behind it.

    The decisions are parameters: whether an entry has a symbol, whether it has a prompt, and whether a following
    entry belongs below it (KMenu.BelongsBelow). */
module MenuFinalize {
  import opened MenuTree

  datatype Rules<!M> = Rules(isSym: M -> bool, hasPrompt: M -> bool, belongs: (M, M) -> bool)

  function Count<M>(forest: seq<Tree<M>>): nat {
    |Preorder(forest)|
  }

  lemma {:induction false} PreorderAppend<M>(a: seq<Tree<M>>, b: seq<Tree<M>>)
    ensures Preorder(a + b) == Preorder(a) + Preorder(b)
  {
    if a == [] {
      assert a + b == b;
    } else {
      assert (a + b)[1..] == a[1..] + b;
      PreorderAppend(a[1..], b);
    }
  }

  lemma {:induction false} PreorderOne<M>(t: Tree<M>)
    ensures Preorder([t]) == [t.menu] + Preorder(t.kids)
  {
    assert [t][1..] == [] && Preorder([t][1..]) == [];
  }

  /** The loop that lifts the entries below entries without a prompt; it runs on over what it has lifted. */
  function Lift<M>(rules: Rules<M>, forest: seq<Tree<M>>): seq<Tree<M>>
    decreases Count(forest)
  {
    if forest == [] then []
    else
      var t := forest[0];
      if t.kids != [] && !rules.hasPrompt(t.menu) then
        PreorderAppend(t.kids, forest[1..]);
        [Node(t.menu, [])] + Lift(rules, t.kids + forest[1..])
      else [t] + Lift(rules, forest[1..])
  }

  /** menu_finalize for the entry t, followed by the siblings `rest`: the entry with its new subtree, and the siblings
      that still follow it. */
  function FinalizeOne<M>(rules: Rules<M>, t: Tree<M>, rest: seq<Tree<M>>): (r: (Tree<M>, seq<Tree<M>>))
    ensures Count(r.1) <= Count(rest)
    decreases Count([t]) + Count(rest), 0
  {
    PreorderOne(t);
    if t.kids != [] then (Node(t.menu, Lift(rules, FinalizeAll(rules, t.kids))), rest)
    else if rules.isSym(t.menu) then
      var r := Nest(rules, t.menu, rest);
      (Node(t.menu, Lift(rules, r.0)), r.1)
    else (t, rest)
  }

  /** The loop over the following entries: those that belong below m, each finalized in turn, and the others. */
  function Nest<M>(rules: Rules<M>, m: M, rest: seq<Tree<M>>): (r: (seq<Tree<M>>, seq<Tree<M>>))
    ensures Count(r.1) <= Count(rest)
    decreases Count(rest), 1
  {
    if rest == [] || !rules.belongs(m, rest[0].menu) then ([], rest)
    else
      PreorderOne(rest[0]);
      var a := FinalizeOne(rules, rest[0], rest[1..]);
      var b := Nest(rules, m, a.1);
      ([a.0] + b.0, b.1)
  }

  /** The loop over the entries below a menu. */
  function FinalizeAll<M>(rules: Rules<M>, forest: seq<Tree<M>>): seq<Tree<M>>
    decreases Count(forest), 1
  {
    if forest == [] then []
    else
      PreorderOne(forest[0]);
      var a := FinalizeOne(rules, forest[0], forest[1..]);
      [a.0] + FinalizeAll(rules, a.1)
  }

  lemma {:induction false} LiftKeepsOrder<M>(rules: Rules<M>, forest: seq<Tree<M>>)
    ensures Preorder(Lift(rules, forest)) == Preorder(forest)
    decreases Count(forest)
  {
    if forest != [] {
      var t := forest[0];
      if t.kids != [] && !rules.hasPrompt(t.menu) {
        PreorderAppend(t.kids, forest[1..]);
        LiftKeepsOrder(rules, t.kids + forest[1..]);
        PreorderAppend([Node(t.menu, [])], Lift(rules, t.kids + forest[1..]));
        PreorderOne(Node(t.menu, []));
      } else {
        LiftKeepsOrder(rules, forest[1..]);
        PreorderAppend([t], Lift(rules, forest[1..]));
        PreorderOne(t);
      }
    }
  }

  /** Whatever is moved below or lifted out, the order in which the entries are listed stays that of the source. */
  lemma {:induction false} FinalizeOneKeepsOrder<M>(rules: Rules<M>, t: Tree<M>, rest: seq<Tree<M>>)
    ensures var r := FinalizeOne(rules, t, rest);
            Preorder([r.0]) + Preorder(r.1) == Preorder([t]) + Preorder(rest)
    decreases Count([t]) + Count(rest), 0
  {
    PreorderOne(t);
    var r := FinalizeOne(rules, t, rest);
    PreorderOne(r.0);
    if t.kids != [] {
      FinalizeAllKeepsOrder(rules, t.kids);
      LiftKeepsOrder(rules, FinalizeAll(rules, t.kids));
    } else if rules.isSym(t.menu) {
      var n := Nest(rules, t.menu, rest);
      NestKeepsOrder(rules, t.menu, rest);
      LiftKeepsOrder(rules, n.0);
    }
  }

  lemma {:induction false} NestKeepsOrder<M>(rules: Rules<M>, m: M, rest: seq<Tree<M>>)
    ensures var r := Nest(rules, m, rest); Preorder(r.0) + Preorder(r.1) == Preorder(rest)
    decreases Count(rest), 1
  {
    if rest != [] && rules.belongs(m, rest[0].menu) {
      PreorderOne(rest[0]);
      var a := FinalizeOne(rules, rest[0], rest[1..]);
      var b := Nest(rules, m, a.1);
      FinalizeOneKeepsOrder(rules, rest[0], rest[1..]);
      NestKeepsOrder(rules, m, a.1);
      PreorderAppend([a.0], b.0);
      Regroup(Preorder([a.0]), Preorder(b.0), Preorder(b.1), Preorder(a.1));
      assert Preorder(rest) == Preorder([rest[0]]) + Preorder(rest[1..]);
    }
  }

  lemma Regroup<M>(a: seq<M>, b: seq<M>, c: seq<M>, bc: seq<M>)
    requires b + c == bc
    ensures (a + b) + c == a + bc
  {
  }

  lemma {:induction false} FinalizeAllKeepsOrder<M>(rules: Rules<M>, forest: seq<Tree<M>>)
    ensures Preorder(FinalizeAll(rules, forest)) == Preorder(forest)
    decreases Count(forest), 1
  {
    if forest != [] {
      PreorderOne(forest[0]);
      var a := FinalizeOne(rules, forest[0], forest[1..]);
      FinalizeOneKeepsOrder(rules, forest[0], forest[1..]);
      FinalizeAllKeepsOrder(rules, a.1);
      PreorderAppend([a.0], FinalizeAll(rules, a.1));
    }
  }

  // ---------------------------------------------------------------------------------------------------------
  // The shape of the result
  // ---------------------------------------------------------------------------------------------------------

  /** Every entry that has entries below it, at any depth, has a prompt. */
  predicate Prompted<M>(rules: Rules<M>, forest: seq<Tree<M>>) {
    forest == [] ||
    var t := forest[0];
    (t.kids != [] ==> rules.hasPrompt(t.menu)) && Prompted(rules, t.kids) && Prompted(rules, forest[1..])
  }

  /** ... except perhaps the entries at the top. */
  predicate PromptedBelow<M>(rules: Rules<M>, forest: seq<Tree<M>>) {
    forest == [] || (Prompted(rules, forest[0].kids) && PromptedBelow(rules, forest[1..]))
  }

  lemma {:induction false} PromptedIsBelow<M>(rules: Rules<M>, a: seq<Tree<M>>, b: seq<Tree<M>>)
    requires Prompted(rules, a) && PromptedBelow(rules, b)
    ensures PromptedBelow(rules, a + b)
  {
    if a == [] {
      assert a + b == b;
    } else {
      assert (a + b)[1..] == a[1..] + b;
      PromptedIsBelow(rules, a[1..], b);
    }
  }

  lemma {:induction false} LiftPrompted<M>(rules: Rules<M>, forest: seq<Tree<M>>)
    requires PromptedBelow(rules, forest)
    ensures Prompted(rules, Lift(rules, forest))
    decreases Count(forest)
  {
    if forest != [] {
      var t := forest[0];
      if t.kids != [] && !rules.hasPrompt(t.menu) {
        PreorderAppend(t.kids, forest[1..]);
        PromptedIsBelow(rules, t.kids, forest[1..]);
        LiftPrompted(rules, t.kids + forest[1..]);
        assert Lift(rules, forest)[1..] == Lift(rules, t.kids + forest[1..]);
      } else {
        LiftPrompted(rules, forest[1..]);
        assert Lift(rules, forest)[1..] == Lift(rules, forest[1..]);
      }
    }
  }

  lemma {:induction false} FinalizeOnePrompted<M>(rules: Rules<M>, t: Tree<M>, rest: seq<Tree<M>>)
    ensures Prompted(rules, FinalizeOne(rules, t, rest).0.kids)
    decreases Count([t]) + Count(rest), 0
  {
    PreorderOne(t);
    if t.kids != [] {
      FinalizeAllPrompted(rules, t.kids);
      LiftPrompted(rules, FinalizeAll(rules, t.kids));
    } else if rules.isSym(t.menu) {
      NestPrompted(rules, t.menu, rest);
      LiftPrompted(rules, Nest(rules, t.menu, rest).0);
    }
  }

  lemma {:induction false} NestPrompted<M>(rules: Rules<M>, m: M, rest: seq<Tree<M>>)
    ensures PromptedBelow(rules, Nest(rules, m, rest).0)
    decreases Count(rest), 1
  {
    if rest != [] && rules.belongs(m, rest[0].menu) {
      PreorderOne(rest[0]);
      var a := FinalizeOne(rules, rest[0], rest[1..]);
      FinalizeOnePrompted(rules, rest[0], rest[1..]);
      NestPrompted(rules, m, a.1);
      assert Nest(rules, m, rest).0[1..] == Nest(rules, m, a.1).0;
    }
  }

  lemma {:induction false} FinalizeAllPrompted<M>(rules: Rules<M>, forest: seq<Tree<M>>)
    ensures PromptedBelow(rules, FinalizeAll(rules, forest))
    decreases Count(forest), 1
  {
    if forest != [] {
      PreorderOne(forest[0]);
      var a := FinalizeOne(rules, forest[0], forest[1..]);
      FinalizeOnePrompted(rules, forest[0], forest[1..]);
      FinalizeAllPrompted(rules, a.1);
      assert FinalizeAll(rules, forest)[1..] == FinalizeAll(rules, a.1);
    }
  }

  // ---------------------------------------------------------------------------------------------------------
  // What moves
  // ---------------------------------------------------------------------------------------------------------

  /** Exactly the longest run of entries that belong below m is taken from the front of its siblings. */
  lemma {:induction false} NestIsMaximal<M>(rules: Rules<M>, m: M, rest: seq<Tree<M>>)
    ensures var r := Nest(rules, m, rest);
            && (forall t :: t in r.0 ==> rules.belongs(m, t.menu))
            && (r.1 == [] || !rules.belongs(m, r.1[0].menu))
    decreases Count(rest)
  {
    if rest != [] && rules.belongs(m, rest[0].menu) {
      PreorderOne(rest[0]);
      var a := FinalizeOne(rules, rest[0], rest[1..]);
      NestIsMaximal(rules, m, a.1);
      assert Nest(rules, m, rest).0 == [a.0] + Nest(rules, m, a.1).0;
    }
  }

  /** Entries are finalized in the same way whether they move or stay: the entries that move below m are a front part
      of what the loop over all these siblings would make of them. */
  lemma {:induction false} NestIsFront<M>(rules: Rules<M>, m: M, rest: seq<Tree<M>>)
    ensures var r := Nest(rules, m, rest); FinalizeAll(rules, rest) == r.0 + FinalizeAll(rules, r.1)
    decreases Count(rest)
  {
    if rest != [] && rules.belongs(m, rest[0].menu) {
      PreorderOne(rest[0]);
      var a := FinalizeOne(rules, rest[0], rest[1..]);
      var b := Nest(rules, m, a.1);
      NestIsFront(rules, m, a.1);
      assert [a.0] + (b.0 + FinalizeAll(rules, b.1)) == [a.0] + b.0 + FinalizeAll(rules, b.1);
    }
  }

  /** A symbol without entries below it is not followed by an entry that belongs below it. */
  predicate Settled<M>(rules: Rules<M>, forest: seq<Tree<M>>) {
    forall k :: 0 < k < |forest| && forest[k - 1].kids == [] && rules.isSym(forest[k - 1].menu) ==>
      !rules.belongs(forest[k - 1].menu, forest[k].menu)
  }

  lemma LiftKeepsSome<M>(rules: Rules<M>, forest: seq<Tree<M>>)
    requires forest != []
    ensures Lift(rules, FinalizeAll(rules, forest)) != []
  {
    CountPositive(forest);
    FinalizeAllKeepsOrder(rules, forest);
    LiftKeepsOrder(rules, FinalizeAll(rules, forest));
  }

  /** A symbol that ends up without entries below it has left its siblings alone, and the next does not belong. */
  lemma KidlessStops<M>(rules: Rules<M>, t: Tree<M>, rest: seq<Tree<M>>)
    requires FinalizeOne(rules, t, rest).0.kids == [] && rules.isSym(t.menu)
    ensures FinalizeOne(rules, t, rest).1 == rest
    ensures rest == [] || !rules.belongs(t.menu, rest[0].menu)
  {
    if t.kids != [] {
      LiftKeepsSome(rules, t.kids);
    } else if rest != [] && rules.belongs(t.menu, rest[0].menu) {
      var moved := Nest(rules, t.menu, rest).0;
      LiftKeepsOrder(rules, moved);
      CountPositive(moved);
    }
  }

  lemma FinalizeAllFront<M>(rules: Rules<M>, forest: seq<Tree<M>>)
    ensures FinalizeAll(rules, forest) == [] <==> forest == []
    ensures forest != [] ==> FinalizeAll(rules, forest)[0].menu == forest[0].menu
  {
  }

  /** Before lifting, no entry of a level is left that would still have to move below the one before it. */
  lemma {:induction false} FinalizeAllSettled<M>(rules: Rules<M>, forest: seq<Tree<M>>)
    ensures Settled(rules, FinalizeAll(rules, forest))
    decreases Count(forest)
  {
    if forest != [] {
      PreorderOne(forest[0]);
      var a := FinalizeOne(rules, forest[0], forest[1..]);
      var others := FinalizeAll(rules, a.1);
      FinalizeAllSettled(rules, a.1);
      FinalizeAllFront(rules, a.1);
      if a.0.kids == [] && rules.isSym(a.0.menu) {
        KidlessStops(rules, forest[0], forest[1..]);
      }
      SettledCons(rules, a.0, others);
    }
  }

  lemma SettledCons<M>(rules: Rules<M>, t: Tree<M>, forest: seq<Tree<M>>)
    requires Settled(rules, forest)
    requires forest != [] && t.kids == [] && rules.isSym(t.menu) ==> !rules.belongs(t.menu, forest[0].menu)
    ensures Settled(rules, [t] + forest)
  {
    var all := [t] + forest;
    forall k | 0 < k < |all| && all[k - 1].kids == [] && rules.isSym(all[k - 1].menu)
      ensures !rules.belongs(all[k - 1].menu, all[k].menu)
    {
      if k > 1 {
        assert all[k - 1] == forest[k - 2] && all[k] == forest[k - 1];
      }
    }
  }

  /** The same for the entries that move below m. */
  lemma NestSettled<M>(rules: Rules<M>, m: M, rest: seq<Tree<M>>)
    ensures Settled(rules, Nest(rules, m, rest).0)
  {
    var r := Nest(rules, m, rest);
    var all := FinalizeAll(rules, rest);
    NestIsFront(rules, m, rest);
    FinalizeAllSettled(rules, rest);
    forall k | 0 < k < |r.0| && r.0[k - 1].kids == [] && rules.isSym(r.0[k - 1].menu)
      ensures !rules.belongs(r.0[k - 1].menu, r.0[k].menu)
    {
      assert all[k - 1] == r.0[k - 1] && all[k] == r.0[k];
    }
  }

  /** Entries with a prompt, and those with nothing below them, stay on their level with all that is below them. */
  lemma {:induction false} LiftLeavesPrompted<M>(rules: Rules<M>, forest: seq<Tree<M>>, t: Tree<M>)
    requires t in forest && (rules.hasPrompt(t.menu) || t.kids == [])
    ensures t in Lift(rules, forest)
    decreases Count(forest)
  {
    var u := forest[0];
    assert forest == [u] + forest[1..];
    if u.kids != [] && !rules.hasPrompt(u.menu) {
      PreorderAppend(u.kids, forest[1..]);
      LiftLeavesPrompted(rules, u.kids + forest[1..], t);
    } else if t != u {
      LiftLeavesPrompted(rules, forest[1..], t);
    }
  }

  /** Finalizing the root keeps the order of all entries, and afterwards only entries with a prompt have entries
      below them. */
  lemma FinalizeRoot<M>(rules: Rules<M>, root: Tree<M>)
    ensures var r := FinalizeOne(rules, root, []);
            && Preorder([r.0]) == Preorder([root])
            && r.1 == []
            && Prompted(rules, r.0.kids)
  {
    FinalizeOneKeepsOrder(rules, root, []);
    FinalizeOnePrompted(rules, root, []);
    NothingLeft(FinalizeOne(rules, root, []).1);
    PreorderAppend([FinalizeOne(rules, root, []).0], []);
  }

  lemma CountPositive<M>(forest: seq<Tree<M>>)
    requires forest != []
    ensures Count(forest) >= 1
  {
  }

  lemma NothingLeft<M>(forest: seq<Tree<M>>)
    requires Count(forest) <= Count<M>([])
    ensures forest == []
  {
    assert Preorder<M>([]) == [];
    if forest != [] {
      CountPositive(forest);
    }
  }
}
