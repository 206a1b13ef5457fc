/** menu_finalize on the linked entries themselves: `list`, `next` and `parent` are rewritten in place
    (support/kconfig/menu.c:334-422), and spell out the trees of module MenuFinalize afterwards. */
module MenuLinks {
  import opened MenuTree
  import opened MenuFinalize

  lemma AllAllocated(forest: seq<Tree<Menu>>)
    ensures allocated(Entries(forest))
  {
    assert allocated(forest) && allocated(Preorder(forest));
  }

  ghost predicate NoDup(s: seq<Menu>) {
    forall i, j :: 0 <= i < j < |s| ==> s[i] != s[j]
  }

  lemma NoDupParts(a: seq<Menu>, b: seq<Menu>)
    requires NoDup(a + b)
    ensures NoDup(a) && NoDup(b) && forall x :: x in a ==> x !in b
  {
    assert forall i :: 0 <= i < |a| ==> (a + b)[i] == a[i];
    assert forall j :: 0 <= j < |b| ==> (a + b)[|a| + j] == b[j];
  }

  /** The first entry, what is below it and what follows it have no entry in common. */
  lemma Apart(forest: seq<Tree<Menu>>)
    requires forest != [] && NoDup(Preorder(forest))
    ensures var m, kids, rest := forest[0].menu, forest[0].kids, forest[1..];
            && NoDup(Preorder(kids)) && NoDup(Preorder(rest))
            && m !in Entries(kids) && m !in Entries(rest) && Entries(kids) !! Entries(rest)
            && Entries(forest) == {m} + Entries(kids) + Entries(rest)
            && Count(forest) == 1 + Count(kids) + Count(rest)
  {
    var m, kids, rest := forest[0].menu, forest[0].kids, forest[1..];
    assert Preorder(forest) == [m] + Preorder(kids) + Preorder(rest);
    NoDupParts([m] + Preorder(kids), Preorder(rest));
    NoDupParts([m], Preorder(kids));
    assert m in [m];
  }

  lemma ApartConcat(a: seq<Tree<Menu>>, b: seq<Tree<Menu>>)
    requires NoDup(Preorder(a + b))
    ensures NoDup(Preorder(a)) && NoDup(Preorder(b)) && Entries(a) !! Entries(b)
    ensures Entries(a + b) == Entries(a) + Entries(b)
  {
    PreorderAppend(a, b);
    NoDupParts(Preorder(a), Preorder(b));
  }

  lemma {:induction false} LinkedConcat(a: seq<Tree<Menu>>, b: seq<Tree<Menu>>, first: Menu?, parent: Menu,
                                        mid: Menu?, tail: Menu?)
    requires Linked(a, first, parent, mid) && Linked(b, mid, parent, tail)
    ensures Linked(a + b, first, parent, tail)
  {
    if a == [] {
      assert a + b == b;
    } else {
      assert (a + b)[1..] == a[1..] + b;
      LinkedConcat(a[1..], b, a[0].menu.next, parent, mid, tail);
    }
  }

  lemma {:induction false} LinkedOne(t: Tree<Menu>, parent: Menu, tail: Menu?)
    requires t.menu.parent == parent && t.menu.next == tail && Linked(t.kids, t.menu.list, t.menu, null)
    ensures Linked([t], t.menu, parent, tail)
  {
    assert [t][1..] == [];
  }

  lemma LastIsEntry(forest: seq<Tree<Menu>>)
    requires forest != []
    ensures forest[|forest| - 1].menu in Entries(forest)
  {
    var front, t := forest[..|forest| - 1], forest[|forest| - 1];
    assert forest == front + [t];
    PreorderAppend(front, [t]);
    PreorderOne(t);
  }

  /** The last of several siblings. */
  lemma {:induction false} LinkedLast(forest: seq<Tree<Menu>>, first: Menu?, parent: Menu, tail: Menu?)
    requires Linked(forest, first, parent, tail) && forest != []
    ensures var last := |forest| - 1; var t := forest[last];
            && Linked(forest[..last], first, parent, t.menu)
            && t.menu.next == tail && t.menu.parent == parent && Linked(t.kids, t.menu.list, t.menu, null)
  {
    var last := |forest| - 1;
    if last == 0 {
      assert forest[1..] == [];
    } else {
      LinkedLast(forest[1..], first.next, parent, tail);
      assert forest[1..][last - 1] == forest[last];
      assert forest[1..][..last - 1] == forest[..last][1..];
    }
  }

  // ---------------------------------------------------------------------------------------------------------
  // Half-way through a list of siblings
  // ---------------------------------------------------------------------------------------------------------

  /** A loop over siblings has come to `at`: what is done is linked under one entry, and what is left to do under
      another (or the same). */
  ghost predicate Cut(done: seq<Tree<Menu>>, todo: seq<Tree<Menu>>, first: Menu?, parent: Menu, at: Menu?, under: Menu)
    reads Entries(done), Entries(todo)
  {
    Linked(done, first, parent, at) && Linked(todo, at, under, null) && NoDup(Preorder(done + todo))
  }

  lemma CutApart(done: seq<Tree<Menu>>, todo: seq<Tree<Menu>>, first: Menu?, parent: Menu, at: Menu?, under: Menu)
    requires Cut(done, todo, first, parent, at, under)
    ensures NoDup(Preorder(todo)) && Entries(done) !! Entries(todo) && allocated(Entries(done))
    ensures Entries(done + todo) == Entries(done) + Entries(todo)
    ensures if at == null then todo == [] else todo != [] && todo[0].menu == at
  {
    ApartConcat(done, todo);
    AllAllocated(done);
    LinkedEmpty(todo, at, under);
  }

  /** From done and todo to done + [t] and rest, where [t] + rest lists the entries of todo. */
  lemma CutStep(done: seq<Tree<Menu>>, todo: seq<Tree<Menu>>, first: Menu?, parent: Menu, at: Menu, under: Menu,
                t: Tree<Menu>, rest: seq<Tree<Menu>>)
    requires Linked(done, first, parent, at) && NoDup(Preorder(done + todo)) && Preorder([t] + rest) == Preorder(todo)
    requires at == t.menu && at.parent == parent && Linked(t.kids, at.list, at, null)
    requires Linked(rest, at.next, under, null)
    ensures Cut(done + [t], rest, first, parent, at.next, under)
    ensures Entries(done + [t] + rest) == Entries(done + todo) && Count(rest) < Count(todo)
  {
    assert done + [t] + rest == done + ([t] + rest);
    PreorderAppend(done, [t] + rest);
    PreorderAppend(done, todo);
    PreorderAppend([t], rest);
    PreorderOne(t);
    LinkedOne(t, parent, at.next);
    LinkedConcat(done, [t], first, parent, at, at.next);
  }

  lemma CutStart(forest: seq<Tree<Menu>>, first: Menu?, parent: Menu, under: Menu)
    requires Linked(forest, first, under, null) && NoDup(Preorder(forest))
    ensures Cut([], forest, first, parent, first, under) && Entries([] + forest) == Entries(forest)
  {
    assert [] + forest == forest;
  }

  lemma LinkedFront(t: Tree<Menu>, rest: seq<Tree<Menu>>, first: Menu?, parent: Menu)
    requires Linked([t] + rest, first, parent, null)
    ensures first == t.menu && first.parent == parent && Linked(t.kids, first.list, first, null)
    ensures Linked(rest, first.next, parent, null)
  {
    assert ([t] + rest)[1..] == rest;
  }

  lemma Associate<T>(a: seq<T>, x: T, b: seq<T>)
    ensures a + ([x] + b) == (a + [x]) + b
  {
  }

  // ---------------------------------------------------------------------------------------------------------
  // menu_finalize
  // ---------------------------------------------------------------------------------------------------------

  /** menu_finalize for the entry m, below which and behind which the forest is linked. */
  method Finalize(rules: Rules<Menu>, m: Menu, ghost forest: seq<Tree<Menu>>, ghost parent: Menu)
    requires forest != [] && Linked(forest, m, parent, null) && NoDup(Preorder(forest))
    modifies Entries(forest)
    ensures var r := FinalizeOne(rules, forest[0], forest[1..]);
            Linked([r.0] + r.1, m, parent, null) && Preorder([r.0] + r.1) == Preorder(forest)
    decreases Count(forest), 1
  {
    ghost var t, rest := forest[0], forest[1..];
    Apart(forest);
    OrderKept(rules, forest);
    LinkedEmpty(t.kids, m.list, m);
    ghost var kids, after := Expected(rules, forest);
    AllAllocated(after);
    if m.list != null {
      FinalizeSiblings(rules, m.list, t.kids, m);
    } else if rules.isSym(m) {
      NestFollowing(rules, m, forest, parent);
    }
    LiftChildren(rules, m, kids);
    LinkedOne(Node(m, Lift(rules, kids)), parent, m.next);
    LinkedConcat([Node(m, Lift(rules, kids))], after, m, parent, m.next, null);
  }

  /** What is below m before the lifting, and what follows it. */
  lemma Expected(rules: Rules<Menu>, forest: seq<Tree<Menu>>) returns (kids: seq<Tree<Menu>>, after: seq<Tree<Menu>>)
    requires forest != [] && NoDup(Preorder(forest))
    ensures var t, rest := forest[0], forest[1..];
            && FinalizeOne(rules, t, rest) == (Node(t.menu, Lift(rules, kids)), after)
            && (kids, after) == (if t.kids != [] then (FinalizeAll(rules, t.kids), rest)
                                 else if rules.isSym(t.menu) then Nest(rules, t.menu, rest) else ([], rest))
            && t.menu !in Entries(kids) && Entries(kids) !! Entries(after) && NoDup(Preorder(kids))
            && Entries(kids) <= Entries(forest)
  {
    var t, rest := forest[0], forest[1..];
    if t.kids != [] {
      kids, after := FinalizeAll(rules, t.kids), rest;
      FinalizeAllKeepsOrder(rules, t.kids);
    } else if rules.isSym(t.menu) {
      var n := Nest(rules, t.menu, rest);
      kids, after := n.0, n.1;
      NestKeepsOrder(rules, t.menu, rest);
    } else {
      kids, after := [], rest;
    }
    var below, behind := Preorder(kids), Preorder(after);
    assert Preorder(forest) == [t.menu] + (below + behind);
    NoDupParts([t.menu], below + behind);
    NoDupParts(below, behind);
    assert t.menu in [t.menu];
  }

  lemma OrderKept(rules: Rules<Menu>, forest: seq<Tree<Menu>>)
    requires forest != []
    ensures var r := FinalizeOne(rules, forest[0], forest[1..]); Preorder([r.0] + r.1) == Preorder(forest)
  {
    var r := FinalizeOne(rules, forest[0], forest[1..]);
    FinalizeOneKeepsOrder(rules, forest[0], forest[1..]);
    PreorderAppend([r.0], r.1);
    PreorderAppend([forest[0]], forest[1..]);
    assert [forest[0]] + forest[1..] == forest;
  }

  /** The loop over the siblings from `first` on. */
  method FinalizeSiblings(rules: Rules<Menu>, first: Menu?, ghost forest: seq<Tree<Menu>>, ghost parent: Menu)
    requires Linked(forest, first, parent, null) && NoDup(Preorder(forest))
    modifies Entries(forest)
    ensures Linked(FinalizeAll(rules, forest), first, parent, null)
    decreases Count(forest), 2
  {
    var menu := first;
    ghost var done, todo := [], forest;
    CutStart(forest, first, parent, parent);
    assert done + FinalizeAll(rules, todo) == FinalizeAll(rules, forest);
    while menu != null
      invariant Cut(done, todo, first, parent, menu, parent)
      invariant done + FinalizeAll(rules, todo) == FinalizeAll(rules, forest)
      invariant Entries(done + todo) == Entries(forest) && Count(todo) <= Count(forest)
      decreases Count(todo)
    {
      CutApart(done, todo, first, parent, menu, parent);
      ghost var r := FinalizeOne(rules, todo[0], todo[1..]);
      Finalize(rules, menu, todo, parent);
      LinkedFront(r.0, r.1, menu, parent);
      CutStep(done, todo, first, parent, menu, parent, r.0, r.1);
      Associate(done, r.0, FinalizeAll(rules, r.1));
      done, todo := done + [r.0], r.1;
      menu := menu.next;
    }
    CutApart(done, todo, first, parent, menu, parent);
    assert done + [] == done;
  }

  /** The part of menu_finalize for an entry without entries below it: those that belong below it are moved there. */
  method NestFollowing(rules: Rules<Menu>, m: Menu, ghost forest: seq<Tree<Menu>>, ghost parent: Menu)
    requires forest != [] && forest[0].kids == [] && Linked(forest, m, parent, null) && NoDup(Preorder(forest))
    modifies Entries(forest)
    ensures var r := Nest(rules, m, forest[1..]);
            m.parent == parent && Linked(r.0, m.list, m, null) && Linked(r.1, m.next, parent, null)
    decreases Count(forest), 0
  {
    Apart(forest);
    LinkedEmpty(forest[0].kids, m.list, m);
    var menu, last, done, todo := CollectFollowing(rules, m, forest[1..], parent);
    CutApart(done, todo, m.next, m, menu, parent);
    if last != null {
      LastIsEntry(done);
      CutOff(m, last, menu, done, todo, parent);
    }
  }

  /** What the loop has collected is the first part of the result. */
  ghost predicate Collected(rules: Rules<Menu>, m: Menu, rest: seq<Tree<Menu>>, done: seq<Tree<Menu>>,
                            todo: seq<Tree<Menu>>)
  {
    Nest(rules, m, rest) == (done + Nest(rules, m, todo).0, Nest(rules, m, todo).1)
  }

  lemma CollectStep(rules: Rules<Menu>, m: Menu, rest: seq<Tree<Menu>>, done: seq<Tree<Menu>>, todo: seq<Tree<Menu>>)
    requires Collected(rules, m, rest, done, todo)
    ensures if todo == [] || !rules.belongs(m, todo[0].menu) then Nest(rules, m, rest) == (done, todo)
            else var r := FinalizeOne(rules, todo[0], todo[1..]); Collected(rules, m, rest, done + [r.0], r.1)
  {
    if todo == [] || !rules.belongs(m, todo[0].menu) {
      assert done + [] == done;
    } else {
      var r := FinalizeOne(rules, todo[0], todo[1..]);
      Associate(done, r.0, Nest(rules, m, r.1).0);
    }
  }

  /** The loop over the entries that follow m; the last one that belongs below it, and the first that does not. */
  method CollectFollowing(rules: Rules<Menu>, m: Menu, ghost rest: seq<Tree<Menu>>, ghost parent: Menu)
    returns (menu: Menu?, last: Menu?, ghost done: seq<Tree<Menu>>, ghost todo: seq<Tree<Menu>>)
    requires Linked(rest, m.next, parent, null) && NoDup(Preorder(rest)) && m !in Entries(rest)
    modifies Entries(rest)
    ensures (done, todo) == Nest(rules, m, rest) && Entries(done + todo) == Entries(rest)
    ensures Cut(done, todo, m.next, m, menu, parent)
    ensures if done == [] then last == null else last == done[|done| - 1].menu
    decreases Count(rest), 3
  {
    menu, last, done, todo := m.next, null, [], rest;
    CutStart(rest, m.next, m, parent);
    assert Collected(rules, m, rest, done, todo) by {
      assert done + Nest(rules, m, rest).0 == Nest(rules, m, rest).0;
    }
    while menu != null && rules.belongs(m, menu)
      invariant Cut(done, todo, m.next, m, menu, parent)
      invariant if done == [] then last == null else last == done[|done| - 1].menu
      invariant Collected(rules, m, rest, done, todo)
      invariant Entries(done + todo) == Entries(rest) && Count(todo) <= Count(rest)
      decreases Count(todo)
    {
      CutApart(done, todo, m.next, m, menu, parent);
      ghost var r := FinalizeOne(rules, todo[0], todo[1..]);
      NestOne(rules, menu, m, todo, parent);
      CutStep(done, todo, m.next, m, menu, parent, r.0, r.1);
      CollectStep(rules, m, rest, done, todo);
      done, todo := done + [r.0], r.1;
      menu, last := menu.next, menu;
    }
    CutApart(done, todo, m.next, m, menu, parent);
    CollectStep(rules, m, rest, done, todo);
  }

  /** The body of the loop. */
  method NestOne(rules: Rules<Menu>, menu: Menu, m: Menu, ghost todo: seq<Tree<Menu>>, ghost parent: Menu)
    requires todo != [] && Linked(todo, menu, parent, null) && NoDup(Preorder(todo))
    modifies Entries(todo)
    ensures var r := FinalizeOne(rules, todo[0], todo[1..]);
            && Preorder([r.0] + r.1) == Preorder(todo)
            && menu == r.0.menu && menu.parent == m && Linked(r.0.kids, menu.list, menu, null)
            && Linked(r.1, menu.next, parent, null)
    decreases Count(todo), 2
  {
    ghost var r := FinalizeOne(rules, todo[0], todo[1..]);
    Finalize(rules, menu, todo, parent);
    LinkedFront(r.0, r.1, menu, parent);
    Apart([r.0] + r.1);
    assert ([r.0] + r.1)[1..] == r.1;
    assert menu in Preorder([r.0] + r.1);
    menu.parent := m;
  }

  /** The entries from m.next to `last` become the entries below m. */
  method CutOff(m: Menu, last: Menu, ghost at: Menu?, ghost done: seq<Tree<Menu>>, ghost todo: seq<Tree<Menu>>,
                ghost parent: Menu)
    requires done != [] && last == done[|done| - 1].menu && m !in Entries(done + todo)
    requires Cut(done, todo, m.next, m, at, parent)
    modifies m`list, m`next, last`next
    ensures Linked(done, m.list, m, null) && Linked(todo, m.next, parent, null)
  {
    ghost var front, t := done[..|done| - 1], done[|done| - 1];
    assert done == front + [t];
    ApartConcat(done, todo);
    ApartConcat(front, [t]);
    Apart([t]);
    LinkedLast(done, m.next, m, at);
    MoveLinks(m, last, front, t.kids, todo, parent);
    LinkedOne(t, m, null);
    LinkedConcat(front, [t], m.list, m, last, null);
  }

  method MoveLinks(m: Menu, last: Menu, ghost front: seq<Tree<Menu>>, ghost kids: seq<Tree<Menu>>,
                   ghost todo: seq<Tree<Menu>>, ghost parent: Menu)
    requires Linked(front, m.next, m, last) && Linked(kids, last.list, last, null)
    requires Linked(todo, last.next, parent, null)
    requires m != last && m !in Entries(front) && m !in Entries(kids) && m !in Entries(todo)
    requires last !in Entries(front) && last !in Entries(kids) && last !in Entries(todo)
    modifies m`list, m`next, last`next
    ensures Linked(front, m.list, m, last) && Linked(kids, last.list, last, null) && last.next == null
    ensures Linked(todo, m.next, parent, null)
  {
    m.list := m.next;
    m.next := last.next;
    last.next := null;
  }

  // ---------------------------------------------------------------------------------------------------------
  // Lifting
  // ---------------------------------------------------------------------------------------------------------

  /** The loop that lifts what is below the entries without a prompt. */
  method LiftChildren(rules: Rules<Menu>, m: Menu, ghost forest: seq<Tree<Menu>>)
    requires Linked(forest, m.list, m, null) && NoDup(Preorder(forest)) && m !in Entries(forest)
    modifies Entries(forest)
    ensures Linked(Lift(rules, forest), m.list, m, null)
  {
    var menu := m.list;
    ghost var done, todo := [], forest;
    CutStart(forest, menu, m, m);
    assert done + Lift(rules, todo) == Lift(rules, forest);
    while menu != null
      invariant Cut(done, todo, m.list, m, menu, m)
      invariant done + Lift(rules, todo) == Lift(rules, forest)
      invariant Entries(done + todo) == Entries(forest)
      decreases Count(todo)
    {
      CutApart(done, todo, m.list, m, menu, m);
      ghost var t, rest := LiftFront(rules, menu, m, todo);
      CutStep(done, todo, m.list, m, menu, m, t, rest);
      Associate(done, t, Lift(rules, rest));
      done, todo := done + [t], rest;
      menu := menu.next;
    }
    CutApart(done, todo, m.list, m, menu, m);
    assert done + [] == done;
  }

  /** The body of the loop. */
  method LiftFront(rules: Rules<Menu>, menu: Menu, m: Menu, ghost todo: seq<Tree<Menu>>)
    returns (ghost t: Tree<Menu>, ghost rest: seq<Tree<Menu>>)
    requires todo != [] && Linked(todo, menu, m, null) && NoDup(Preorder(todo))
    modifies Entries(todo)
    ensures Lift(rules, todo) == [t] + Lift(rules, rest) && Preorder([t] + rest) == Preorder(todo)
    ensures menu == t.menu && menu.parent == m
    ensures Linked(t.kids, menu.list, menu, null) && Linked(rest, menu.next, m, null)
  {
    t, rest := todo[0], todo[1..];
    LinkedEmpty(todo, menu, m);
    LinkedEmpty(t.kids, menu.list, menu);
    assert [t] + rest == todo;
    if menu.list != null && !rules.hasPrompt(menu) {
      LiftOne(menu, m, todo);
      LiftOrder(t, rest);
      t, rest := Node(menu, []), t.kids + rest;
    }
  }

  lemma LiftOrder(t: Tree<Menu>, rest: seq<Tree<Menu>>)
    ensures Preorder([Node(t.menu, [])] + (t.kids + rest)) == Preorder([t] + rest)
  {
    PreorderAppend([Node(t.menu, [])], t.kids + rest);
    PreorderAppend(t.kids, rest);
    PreorderAppend([t], rest);
    PreorderOne(t);
    PreorderOne(Node(t.menu, []));
  }

  lemma AllTogether(todo: seq<Tree<Menu>>)
    requires todo != [] && NoDup(Preorder(todo))
    ensures var t, rest := todo[0], todo[1..];
            && NoDup(Preorder(t.kids + rest)) && Entries(t.kids + rest) == Entries(t.kids) + Entries(rest)
            && (t.kids != [] ==> t.kids[|t.kids| - 1].menu in Entries(t.kids))
  {
    var t, rest := todo[0], todo[1..];
    PreorderAppend(t.kids, rest);
    PreorderFront(todo);
    NoDupParts([t.menu], Preorder(t.kids + rest));
    ApartConcat(t.kids, rest);
    if t.kids != [] {
      LastIsEntry(t.kids);
    }
  }

  lemma PreorderFront(todo: seq<Tree<Menu>>)
    requires todo != []
    ensures Preorder(todo) == [todo[0].menu] + (Preorder(todo[0].kids) + Preorder(todo[1..]))
  {
  }

  /** The entries below `menu` move up behind it. */
  method LiftOne(menu: Menu, m: Menu, ghost todo: seq<Tree<Menu>>)
    requires todo != [] && todo[0].kids != [] && Linked(todo, menu, m, null) && NoDup(Preorder(todo))
    modifies Entries(todo)
    ensures menu.parent == m && menu.list == null && Linked(todo[0].kids + todo[1..], menu.next, m, null)
  {
    ghost var kids, rest := todo[0].kids, todo[1..];
    Apart(todo);
    LinkedEmpty(todo, menu, m);
    LinkedEmpty(kids, menu.list, menu);
    AllAllocated(rest);
    AllTogether(todo);
    var last := Reparent(menu.list, menu, m, kids);
    Append(menu.list, last, menu.next, m, kids, rest);
    assert menu !in Entries(kids + rest);
    Unhook(menu, m, kids + rest);
  }

  method Unhook(menu: Menu, ghost m: Menu, ghost forest: seq<Tree<Menu>>)
    requires Linked(forest, menu.list, m, null) && menu !in Entries(forest)
    modifies menu`next, menu`list
    ensures menu.list == null && Linked(forest, menu.next, m, null)
  {
    menu.next := menu.list;
    menu.list := null;
  }

  /** The loop to the last of the entries that are lifted. */
  method Reparent(first: Menu, ghost menu: Menu, m: Menu, ghost kids: seq<Tree<Menu>>) returns (last: Menu)
    requires kids != [] && Linked(kids, first, menu, null) && NoDup(Preorder(kids))
    modifies Entries(kids)
    ensures Linked(kids, first, m, null) && last == kids[|kids| - 1].menu
  {
    last := first;
    ghost var done, todo := [], kids;
    CutStart(kids, first, m, menu);
    while true
      invariant todo != [] && done + todo == kids
      invariant Cut(done, todo, first, m, last, menu)
      decreases |todo|
    {
      CutApart(done, todo, first, m, last, menu);
      ghost var t, rest := todo[0], todo[1..];
      assert [t] + rest == todo;
      Adopt(last, menu, m, todo);
      CutStep(done, todo, first, m, last, menu, t, rest);
      CutApart(done + [t], rest, first, m, last.next, menu);
      Associate(done, t, rest);
      if last.next == null {
        assert rest == [] && kids == done + [t];
        break;
      }
      done, todo := done + [t], rest;
      last := last.next;
    }
  }

  method Adopt(last: Menu, ghost menu: Menu, m: Menu, ghost todo: seq<Tree<Menu>>)
    requires todo != [] && Linked(todo, last, menu, null) && NoDup(Preorder(todo))
    modifies last`parent
    ensures last == todo[0].menu && last.parent == m
    ensures Linked(todo[0].kids, last.list, last, null) && Linked(todo[1..], last.next, menu, null)
    ensures last in Entries(todo)
  {
    Apart(todo);
    LinkedEmpty(todo, last, menu);
    last.parent := m;
  }

  /** The lifted entries are put in front of the others. */
  method Append(first: Menu, last: Menu, next: Menu?, ghost m: Menu, ghost kids: seq<Tree<Menu>>,
                ghost rest: seq<Tree<Menu>>)
    requires kids != [] && last == kids[|kids| - 1].menu && NoDup(Preorder(kids + rest))
    requires Linked(kids, first, m, null) && Linked(rest, next, m, null)
    modifies last`next
    ensures Linked(kids + rest, first, m, null)
  {
    ghost var front, t := kids[..|kids| - 1], kids[|kids| - 1];
    assert kids == front + [t];
    ApartConcat(kids, rest);
    ApartConcat(front, [t]);
    Apart([t]);
    LinkedLast(kids, first, m, null);
    last.next := next;
    LinkedOne(t, m, next);
    LinkedConcat(front, [t], first, m, last, next);
    LinkedConcat(kids, rest, first, m, next, null);
  }

  // ---------------------------------------------------------------------------------------------------------
  // The root
  // ---------------------------------------------------------------------------------------------------------

  /** menu_finalize for the root entry, followed by the walk of conf_write: however the entries were rearranged, they
      are visited once each, in the order in which they were read. */
  method FinalizeAndWalk(rules: Rules<Menu>, root: Menu, ghost forest: seq<Tree<Menu>>, flags: set<nat>)
    returns (visited: seq<Menu>, out: seq<Item>)
    requires root.next == null && root.parent == null && Linked(forest, root.list, root, null)
    requires NoDup(Preorder(forest)) && root !in Entries(forest)
    modifies Entries(forest)
    ensures var r := Lift(rules, FinalizeAll(rules, forest)); Linked(r, root.list, root, null) && Prompted(rules, r)
    ensures visited == Preorder(forest) && out == Print(visited, flags)
  {
    ghost var all, r := Rearranged(rules, forest);
    FinalizeSiblings(rules, root.list, forest, root);
    LiftChildren(rules, root, all);
    AllAllocated(r);
    visited, out := ConfWriteWalk(root, r, flags);
  }

  lemma Rearranged(rules: Rules<Menu>, forest: seq<Tree<Menu>>) returns (all: seq<Tree<Menu>>, r: seq<Tree<Menu>>)
    ensures all == FinalizeAll(rules, forest) && r == Lift(rules, all)
    ensures Preorder(all) == Preorder(forest) && Preorder(r) == Preorder(forest) && Entries(all) == Entries(forest)
    ensures Prompted(rules, r)
  {
    all := FinalizeAll(rules, forest);
    r := Lift(rules, all);
    FinalizeAllKeepsOrder(rules, forest);
    FinalizeAllPrompted(rules, forest);
    LiftKeepsOrder(rules, all);
    LiftPrompted(rules, all);
  }
}
