/** The automatic submenus of menu_finalize (support/kconfig/menu.c:340-370, 411-420): the rearrangement of MenuFinalize
    with the tests of KMenu as its decisions. */
module KSubmenu {
  import opened KExpr
  import opened KMenu
  import opened MenuTree
  import opened MenuFinalize

  /** What the tests look at: the symbol, the prompt with its condition, and the dependency of an entry. */
  datatype Entry = Entry(sym: Option<Symbol>, prompt: Option<Option<Expr>>, dep: Option<Expr>)

  /** The condition under which a following entry is shown. */
  function Shown(e: Entry): Option<Expr> {
    if e.prompt.Some? then e.prompt.value else e.dep
  }

  /** The condition of the prompt of the entry that others are moved below; without a prompt there is none. */
  function Prompting(e: Entry): Option<Expr> {
    if e.prompt.Some? then e.prompt.value else None
  }

  function MenuRules(): Rules<Entry> {
    Rules((e: Entry) => e.sym.Some?,
          (e: Entry) => e.prompt.Some?,
          (m: Entry, e: Entry) => m.sym.Some? && BelongsBelow(m.sym.value, Prompting(m), Shown(e)))
  }

  predicate WellTypedEntry(e: Entry) {
    && WellTypedOpt(Shown(e)) && WellTypedOpt(Prompting(e))
    && (e.sym.Some? ==> e.sym.value.Type() == Boolean || e.sym.value.Type() == Tristate)
  }

  /** Whenever e is shown, the symbol of m is not n or its prompt is shown. */
  predicate Follows(m: Entry, e: Entry, c: Cfg) {
    EvalOpt(Shown(e), c) != NO ==> (m.sym.Some? && TriOf(c, m.sym.value) != NO) || EvalOpt(Prompting(m), c) != NO
  }

  /** The submenu of a symbol: every entry moved below it that has a prompt, or nothing below itself, ends up directly
      below it, and is hidden whenever the symbol is n and its prompt is hidden. */
  lemma SubmenuIsHidden(m: Entry, rest: seq<Tree<Entry>>, t: Tree<Entry>, c: Cfg)
    requires m.sym.Some? && t in Nest(MenuRules(), m, rest).0
    requires WellTypedEntry(m) && WellTypedEntry(t.menu) && NormalOpt(Prompting(m)) && Noticed(Shown(t.menu), c)
    ensures Follows(m, t.menu, c)
    ensures t.menu.prompt.Some? || t.kids == [] ==> t in FinalizeOne(MenuRules(), Node(m, []), rest).0.kids
  {
    NestIsMaximal(MenuRules(), m, rest);
    BelongsBelowIsSound(m.sym.value, Prompting(m), Shown(t.menu), c);
    if t.menu.prompt.Some? || t.kids == [] {
      LiftLeavesPrompted(MenuRules(), Nest(MenuRules(), m, rest).0, t);
    }
  }
}
