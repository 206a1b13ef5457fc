/** The walk over the linked menu tree with which conf_write visits the entries (support/kconfig/confdata.c:786-819). */
module MenuTree {

  class Menu {
    var next: Menu?
    var list: Menu?
    var parent: Menu?
    const isSymbol: bool      // menu->sym is set
    const isChoice: bool      // ... and names a choice
    const symbol: nat         // the identity of the symbol
    const visible: bool       // menu_is_visible

    constructor (isSymbol: bool, isChoice: bool, symbol: nat, visible: bool)
    {
      this.isSymbol, this.isChoice, this.symbol, this.visible := isSymbol, isChoice, symbol, visible;
      next, list, parent := null, null, null;
    }
  }

  /** An entry with the entries below it. */
  datatype Tree<M> = Node(menu: M, kids: seq<Tree<M>>)

  function Preorder<M>(forest: seq<Tree<M>>): seq<M> {
    if forest == [] then [] else [forest[0].menu] + Preorder(forest[0].kids) + Preorder(forest[1..])
  }

  ghost function Entries(forest: seq<Tree<Menu>>): set<Menu> {
    set m | m in Preorder(forest)
  }

  /** The pointers of a list of siblings up to `tail`, and of everything below them, spell out the forest. */
  ghost predicate Linked(forest: seq<Tree<Menu>>, first: Menu?, parent: Menu, tail: Menu?)
    reads Entries(forest)
  {
    if forest == [] then first == tail
    else
      var m := forest[0].menu;
      && first == m && m.parent == parent
      && Linked(forest[0].kids, m.list, m, null)
      && Linked(forest[1..], m.next, parent, tail)
  }

  // ---------------------------------------------------------------------------------------------------------
  // What conf_write prints
  // ---------------------------------------------------------------------------------------------------------

  /** A heading for a visible menu or comment, or the line of a symbol. */
  datatype Item = Heading(menu: Menu) | Line(symbol: nat)

  /** The symbol an entry can print. */
  predicate Names(m: Menu, s: nat) {
    m.isSymbol && !m.isChoice && m.symbol == s
  }

  function PrintEntry(m: Menu, write: set<nat>): seq<Item> {
    if !m.isSymbol then (if m.visible then [Heading(m)] else [])
    else if !m.isChoice && m.symbol in write then [Line(m.symbol)]
    else []
  }

  /** The SYMBOL_WRITE flags after an entry. */
  function FlagsAfter(m: Menu, write: set<nat>): set<nat> {
    if m.isSymbol && !m.isChoice then write - {m.symbol} else write
  }

  function Print(entries: seq<Menu>, write: set<nat>): seq<Item> {
    if entries == [] then []
    else PrintEntry(entries[0], write) + Print(entries[1..], FlagsAfter(entries[0], write))
  }

  predicate HasEntry(entries: seq<Menu>, s: nat) {
    exists m :: m in entries && Names(m, s)
  }

  /** Each flagged symbol that has an entry is printed exactly once, and no other symbol is printed. */
  lemma {:induction false} PrintedOnce(entries: seq<Menu>, write: set<nat>, s: nat)
    ensures multiset(Print(entries, write))[Line(s)] == if s in write && HasEntry(entries, s) then 1 else 0
  {
    if entries != [] {
      var m := entries[0];
      PrintedOnce(entries[1..], FlagsAfter(m, write), s);
      assert entries == [m] + entries[1..];
      assert HasEntry(entries, s) == (Names(m, s) || HasEntry(entries[1..], s));
      assert multiset(Print(entries, write))
          == multiset(PrintEntry(m, write)) + multiset(Print(entries[1..], FlagsAfter(m, write)));
    }
  }

  /** The heading of a visible menu or comment is printed as often as it is visited; no other heading is printed. */
  lemma {:induction false} HeadingsPrinted(entries: seq<Menu>, write: set<nat>, m: Menu)
    ensures multiset(Print(entries, write))[Heading(m)] == if !m.isSymbol && m.visible then multiset(entries)[m] else 0
  {
    if entries != [] {
      var first := entries[0];
      HeadingsPrinted(entries[1..], FlagsAfter(first, write), m);
      assert entries == [first] + entries[1..];
      assert multiset(Print(entries, write))
          == multiset(PrintEntry(first, write)) + multiset(Print(entries[1..], FlagsAfter(first, write)));
    }
  }

  lemma {:induction false} PrintJoin(a: seq<Menu>, b: seq<Menu>, write: set<nat>)
    ensures Print(a + b, write) == Print(a, write) + Print(b, FlagsAfterAll(a, write))
  {
    if a == [] {
      assert a + b == b;
    } else {
      assert (a + b)[1..] == a[1..] + b;
      PrintJoin(a[1..], b, FlagsAfter(a[0], write));
    }
  }

  lemma {:induction false} FlagsLeft(entries: seq<Menu>, write: set<nat>, s: nat)
    ensures s in FlagsAfterAll(entries, write) <==> s in write && !HasEntry(entries, s)
  {
    if entries != [] {
      FlagsLeft(entries[1..], FlagsAfter(entries[0], write), s);
      assert entries == [entries[0]] + entries[1..];
      assert HasEntry(entries, s) == (Names(entries[0], s) || HasEntry(entries[1..], s));
    }
  }

  /** The line of a symbol stands at the place of its first entry: behind what the entries before it print, and in
      front of what those behind it print. */
  lemma PrintedAtFirst(entries: seq<Menu>, write: set<nat>, s: nat, k: nat)
    requires k < |entries| && Names(entries[k], s) && !HasEntry(entries[..k], s) && s in write
    ensures Print(entries, write)
         == Print(entries[..k], write) + [Line(s)] + Print(entries[k + 1..], FlagsAfterAll(entries[..k + 1], write))
  {
    var flags := FlagsAfterAll(entries[..k], write);
    assert entries == entries[..k] + entries[k..];
    PrintJoin(entries[..k], entries[k..], write);
    FlagsLeft(entries[..k], write, s);
    assert Print(entries[k..], flags) == [Line(s)] + Print(entries[k + 1..], FlagsAfter(entries[k], flags));
    assert entries[..k + 1] == entries[..k] + [entries[k]];
    PrintAppend(entries[..k], entries[k], write);
    Insert(Print(entries[..k], write), [Line(s)], Print(entries[k + 1..], FlagsAfter(entries[k], flags)));
  }

  lemma Insert(a: seq<Item>, b: seq<Item>, c: seq<Item>)
    ensures a + (b + c) == a + b + c
  {
  }

  lemma {:induction false} PrintAppend(a: seq<Menu>, m: Menu, write: set<nat>)
    ensures Print(a + [m], write) == Print(a, write) + PrintEntry(m, FlagsAfterAll(a, write))
    ensures FlagsAfterAll(a + [m], write) == FlagsAfter(m, FlagsAfterAll(a, write))
  {
    if a == [] {
      assert a + [m] == [m];
      assert [m][1..] == [];
    } else {
      assert (a + [m])[1..] == a[1..] + [m];
      PrintAppend(a[1..], m, FlagsAfter(a[0], write));
    }
  }

  /** `out` and `write` are the output and the flags after the given entries. */
  predicate Printed(entries: seq<Menu>, flags: set<nat>, out: seq<Item>, write: set<nat>) {
    out == Print(entries, flags) && write == FlagsAfterAll(entries, flags)
  }

  lemma PrintStep(entries: seq<Menu>, flags: set<nat>, out: seq<Item>, write: set<nat>, m: Menu)
    requires Printed(entries, flags, out, write)
    ensures Printed(entries + [m], flags, out + PrintEntry(m, write), FlagsAfter(m, write))
  {
    PrintAppend(entries, m, flags);
  }

  function FlagsAfterAll(entries: seq<Menu>, write: set<nat>): set<nat> {
    if entries == [] then write else FlagsAfterAll(entries[1..], FlagsAfter(entries[0], write))
  }

  // ---------------------------------------------------------------------------------------------------------
  // The walk
  // ---------------------------------------------------------------------------------------------------------

  /** A position in the walk, seen as the siblings still to come on each level, the current level first, with the
      entry under which each list of siblings hangs. */
  datatype Level = Level(rest: seq<Tree<Menu>>, parent: Menu)

  function Ahead(levels: seq<Level>): seq<Menu> {
    if levels == [] then [] else Preorder(levels[0].rest) + Ahead(levels[1..])
  }

  /** The pointers agree with the position: `first` is the next sibling on the current level, and on the level above
      the walk goes on with the sibling after the parent. */
  ghost predicate Position(levels: seq<Level>, first: Menu?, root: Menu)
    reads set m | m in Ahead(levels), set k | 0 <= k < |levels| :: levels[k].parent
    decreases |levels|
  {
    && levels != []
    && Linked(levels[0].rest, first, levels[0].parent, null)
    && (if |levels| == 1 then levels[0].parent == root
        else levels[0].parent.parent == levels[1].parent && Position(levels[1..], levels[0].parent.next, root))
  }

  /** The entry at the front of the current level, what is below it, and what follows. */
  lemma {:induction false} AheadFront(levels: seq<Level>)
    requires levels != [] && levels[0].rest != []
    ensures Ahead(levels) == [levels[0].rest[0].menu] + (Preorder(levels[0].rest[0].kids)
                             + (Preorder(levels[0].rest[1..]) + Ahead(levels[1..])))
  {
  }

  lemma {:induction false} AheadCons(level: Level, levels: seq<Level>)
    ensures Ahead([level] + levels) == Preorder(level.rest) + Ahead(levels)
  {
    assert ([level] + levels)[1..] == levels;
  }

  lemma {:induction false} LinkedEmpty(forest: seq<Tree<Menu>>, first: Menu?, parent: Menu)
    requires Linked(forest, first, parent, null)
    ensures forest == [] <==> first == null
    ensures first != null ==>
              Linked(forest[0].kids, first.list, first, null) && Linked(forest[1..], first.next, parent, null)
  {
  }

  /** Going down or along. */
  lemma {:induction false} PositionDown(levels: seq<Level>, menu: Menu, root: Menu)
    requires Position(levels, menu, root)
    ensures var here := levels[0];
            && here.rest != [] && here.rest[0].menu == menu && menu.parent == here.parent
            && (menu.list == null <==> here.rest[0].kids == [])
            && (menu.next == null <==> here.rest[1..] == [])
            && Position([Level(here.rest[1..], here.parent)] + levels[1..], menu.next, root)
            && Position([Level(here.rest[0].kids, menu), Level(here.rest[1..], here.parent)] + levels[1..], menu.list, root)
  {
    var here := levels[0];
    var along := [Level(here.rest[1..], here.parent)] + levels[1..];
    var down := [Level(here.rest[0].kids, menu)] + along;
    assert along[1..] == levels[1..];
    assert down[1..] == along;
    assert down == [Level(here.rest[0].kids, menu), Level(here.rest[1..], here.parent)] + levels[1..];
    LinkedEmpty(here.rest, menu, here.parent);
    LinkedEmpty(here.rest[0].kids, menu.list, menu);
    LinkedEmpty(here.rest[1..], menu.next, here.parent);
  }

  /** Going up from a level with nothing left. */
  lemma {:induction false} PositionUp(levels: seq<Level>, root: Menu)
    requires root.next == null && root.parent == null
    requires Position(levels, null, root)
    ensures var m := levels[0].parent;
            && levels[0].rest == [] && Ahead(levels) == Ahead(levels[1..])
            && (|levels| > 1 ==> m.parent == levels[1].parent && Position(levels[1..], m.next, root))
            && (|levels| == 1 ==> m == root)
  {
    LinkedEmpty(levels[0].rest, null, levels[0].parent);
    assert Preorder(levels[0].rest) == [];
  }

  /** The menu walk of conf_write below the root entry: it ends, having visited every entry once, in preorder. */
  method ConfWriteWalk(root: Menu, ghost forest: seq<Tree<Menu>>, flags: set<nat>)
    returns (visited: seq<Menu>, out: seq<Item>)
    requires root.next == null && root.parent == null
    requires Linked(forest, root.list, root, null)
    ensures visited == Preorder(forest)
    ensures out == Print(Preorder(forest), flags)
  {
    visited, out := [], [];
    var write := flags;
    var menu := root.list;
    ghost var levels := [Level(forest, root)];
    assert Ahead(levels) == Preorder(forest) + Ahead([]);
    LinkedEmpty(forest, root.list, root);
    while menu != null
      invariant visited + Ahead(levels) == Preorder(forest)
      invariant if menu == null then Ahead(levels) == [] else Position(levels, menu, root)
      invariant Printed(visited, flags, out, write)
      decreases |Ahead(levels)|
    {
      var entry: Menu := menu;
      ghost var before := levels;
      menu, levels := NextEntry(entry, root, before);
      assert visited + ([entry] + Ahead(levels)) == (visited + [entry]) + Ahead(levels);
      PrintStep(visited, flags, out, write, entry);
      visited, out, write := visited + [entry], out + PrintEntry(entry, write), FlagsAfter(entry, write);
    }
  }

  /** The end of the loop body: the entry to visit next. */
  method NextEntry(menu: Menu, root: Menu, ghost levels: seq<Level>) returns (m: Menu?, ghost after: seq<Level>)
    requires root.next == null && root.parent == null
    requires Position(levels, menu, root)
    ensures Ahead(levels) == [menu] + Ahead(after)
    ensures if m == null then Ahead(after) == [] else Position(after, m, root)
  {
    PositionDown(levels, menu, root);
    AheadFront(levels);
    ghost var here := levels[0];
    ghost var kids, along := Level(here.rest[0].kids, menu), [Level(here.rest[1..], here.parent)] + levels[1..];
    AheadCons(along[0], levels[1..]);
    assert Ahead(levels) == [menu] + (Preorder(kids.rest) + Ahead(along));
    if menu.list != null {
      after := [kids] + along;
      AheadCons(kids, along);
      assert after == [kids, along[0]] + levels[1..];
      m := menu.list;
    } else if menu.next != null {
      assert Preorder(kids.rest) + Ahead(along) == Ahead(along);
      after := along;
      m := menu.next;
    } else {
      assert Preorder(kids.rest) + Ahead(along) == Ahead(along);
      m, after := Climb(menu.parent, root, along);
    }
  }

  /** The inner loop: up to the nearest level on which there is a next sibling. */
  method Climb(from: Menu?, root: Menu, ghost levels: seq<Level>) returns (m: Menu?, ghost after: seq<Level>)
    requires root.next == null && root.parent == null
    requires Position(levels, null, root) && levels[0].parent == from
    ensures Ahead(levels) == Ahead(after)
    ensures if m == null then Ahead(after) == [] else Position(after, m, root)
  {
    m, after := from, levels;
    while m != null && m.next == null
      invariant Ahead(levels) == Ahead(after)
      invariant if m == null then Ahead(after) == [] else Position(after, null, root) && after[0].parent == m
      decreases |after|
    {
      PositionUp(after, root);
      after := after[1..];
      m := m.parent;
    }
    if m != null {
      PositionUp(after, root);
      after := after[1..];
      m := m.next;
    }
  }
}
