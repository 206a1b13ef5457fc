/** Where the values of symbols surprise: tables without dependency cycles for which modules_val never settles, an
    accepted value is lost, or a value set again is lost (support/kconfig/symbol.c:63-74, 414-419, 442-452, 474-527,
    760-781). */
module SymExamples {
  import opened KExpr
  import opened CycleCheck
  import opened SymCalc
  import opened SymValues
  import KDups

  // ---------------------------------------------------------------------------------------------------------
  // Small tables
  // ---------------------------------------------------------------------------------------------------------

  function Nothing(): SymInfo {
    SymInfo(None, [], None)
  }

  /** A symbol with one prompt, visible under the given condition. */
  function Shown(condition: Option<Expr>): SymInfo {
    SymInfo(None, [Prop(Prompt, condition, None)], None)
  }

  /** A symbol without a prompt, y by default under the given condition. */
  function YesIf(condition: Expr): SymInfo {
    SymInfo(None, [Prop(Default, Some(condition), Some(Sym(Yes)))], None)
  }

  /** A symbol with default y whose prompt is visible as far as x is. */
  function DefaultYes(x: Symbol): SymInfo {
    SymInfo(None, [Prop(Prompt, Some(Sym(x)), None), Prop(Default, None, Some(Sym(Yes)))], None)
  }

  /** One property, ... */
  lemma OneProp(p: Prop, c: Cfg, on: bool)
    ensures PromptVisibility([p], c, on) == if IsPrompt(p) then EvalOptAs(p.visible, c, on) else NO
    ensures DefaultProp([p], c, on) == if Applies(p, c, on) then Some(p) else None
    ensures PromptUsed([p]) == if IsPrompt(p) then SymbolsOfOpt(p.visible) else {}
    ensures DefaultUsed([p], c, on, true) ==
            if p.kind != Default then {}
            else SymbolsOfOpt(p.visible) + if Applies(p, c, on) then SymbolsOfOpt(p.expr) else {}
    ensures PropsDeps([p]) == PropDeps(p)
  {
    assert [p][..0] == [] && [p][1..] == [];
    assert PromptVisibility([p][..0], c, on) == NO && DefaultProp([p][1..], c, on) == None && PropsDeps([p][..0]) == {};
    assert PromptUsed([p][..0]) == {} && DefaultUsed([p][1..], c, on, true) == {};
  }

  /** ... and two. */
  lemma TwoProps(x: Symbol, c: Cfg, on: bool)
    ensures var props := DefaultYes(x).props;
            && PromptVisibility(props, c, on) == TriOf(c, x)
            && DefaultProp(props, c, on) == Some(props[1]) && PropsDeps(props) == {x, Yes}
  {
    var p, q := Prop(Prompt, Some(Sym(x)), None), Prop(Default, None, Some(Sym(Yes)));
    OneProp(p, c, on);
    OneProp(q, c, on);
    assert [p, q][..1] == [p] && [p, q][1..] == [q];
  }

  lemma ExampleDeps(condition: Option<Expr>, e: Expr, x: Symbol)
    ensures AllDeps(Nothing()) == {} && AllDeps(Shown(condition)) == SymbolsOfOpt(condition)
    ensures AllDeps(YesIf(e)) == SymbolsOf(e) + {Yes} && AllDeps(DefaultYes(x)) == {x, Yes}
  {
    var c := Cfg(true, _ => NO, _ => "");
    OneProp(Shown(condition).props[0], c, true);
    OneProp(YesIf(e).props[0], c, true);
    TwoProps(x, c, true);
  }

  /** What is calculated for these symbols. */
  lemma ShownValue(s: Symbol, condition: Option<Expr>, c: Cfg, user: User, mode: Mode)
    requires IsTriType(s.Type())
    ensures var info, v := Shown(condition), EvalOptAs(condition, c, mode.on);
            var visible := if v == MOD && (s.Type() != Tristate || !mode.mod) then YES else v;
            && Visible(s, info, c, mode) == visible && Selected(s, info, c, mode) == NO
            && Used(s, info, c, user, mode) == VisibilityAsks(s, info) == SymbolsOfOpt(condition)
            && CalcTri(s, info, c, user, mode) ==
               if visible == NO || s !in user.tri then NO
               else
                 var own := Join(And, user.tri[s], visible);
                 if own == MOD && GetType(s, mode.mod) == Boolean then YES else own
  {
    OneProp(Shown(condition).props[0], c, mode.on);
    OneProp(Shown(condition).props[0], c, mode.later);
  }

  lemma YesIfValue(m: Symbol, e: Expr, c: Cfg, user: User, mode: Mode)
    requires m.Type() == Boolean
    ensures CalcTri(m, YesIf(e), c, user, mode) == if EvalAs(e, c, mode.later) == NO then NO else YES
    ensures VisibilityAsks(m, YesIf(e)) == {} && SymbolsOf(e) <= Used(m, YesIf(e), c, user, mode) <= SymbolsOf(e) + {Yes}
  {
    OneProp(YesIf(e).props[0], c, mode.on);
    OneProp(YesIf(e).props[0], c, mode.later);
  }

  lemma {:induction false} TopologicalOf(g: Graph, order: seq<Symbol>)
    requires forall i :: 0 <= i < |order| ==> order[i] !in order[..i] && Next(g, order[i]) <= ToSet(order[..i])
    ensures Topological(g, order)
  {
    if order != [] {
      var last := |order| - 1;
      forall i | 0 <= i < last
        ensures order[..last][i] !in order[..last][..i] && Next(g, order[..last][i]) <= ToSet(order[..last][..i])
      {
        assert order[..last][..i] == order[..i] && order[..last][i] == order[i];
      }
      TopologicalOf(g, order[..last]);
    }
  }

  ghost predicate Three(x: Symbol, s: Symbol, m: Symbol) {
    x.Type() == Tristate && s.Type() == Tristate && m.Type() == Boolean && x != s
  }

  /** A table of the constants and three more symbols, each depending only on those before it, has no cycles. */
  lemma InOrder(table: Table, x: Symbol, s: Symbol, m: Symbol)
    requires Three(x, s, m) && table.Keys == {Yes, No, Mod, x, s, m}
    requires table[Yes] == table[No] == table[Mod] == Nothing()
    requires AllDeps(table[x]) <= {Yes, No, Mod} && AllDeps(table[s]) <= {Yes, No, Mod, x}
    requires AllDeps(table[m]) <= {Yes, No, Mod, x, s}
    ensures NoCycles(table)
  {
    var g, order := AllGraph(table), [Yes, No, Mod, x, s, m];
    forall i | 0 <= i < |order| ensures order[i] !in order[..i] && Next(g, order[i]) <= ToSet(order[..i]) {
      assert Next(g, order[i]) == AllDeps(table[order[i]]);
      PrefixOf(x, s, m, i);
    }
    TopologicalOf(g, order);
    AllListed(g, order);
  }

  lemma AllListed(g: Graph, order: seq<Symbol>)
    requires Topological(g, order) && g.Keys <= ToSet(order)
    ensures Acyclic(g)
  {
    forall s | s in g ensures s in order {
      assert s in ToSet(order);
    }
    TopologicalIsAcyclic(g, order);
  }

  lemma PrefixOf(x: Symbol, s: Symbol, m: Symbol, i: nat)
    requires Three(x, s, m) && i < 6
    ensures var order := [Yes, No, Mod, x, s, m];
            && order[i] !in order[..i]
            && (i == 3 ==> ToSet(order[..i]) == {Yes, No, Mod}) && (i == 4 ==> ToSet(order[..i]) == {Yes, No, Mod, x})
            && (i == 5 ==> ToSet(order[..i]) == {Yes, No, Mod, x, s})
  {
    var order := [Yes, No, Mod, x, s, m];
    assert order[..3] == [Yes, No, Mod] && order[..4] == [Yes, No, Mod, x] && order[..5] == [Yes, No, Mod, x, s];
  }

  lemma TextsDiffer()
    ensures "n" != "m" && "n" != "y" && "m" != "y"
  {
    assert "n"[0] == 'n' && "m"[0] == 'm' && "y"[0] == 'y';
  }

  /** The user has set x to m and MODULES to y. */
  function Chosen(x: Symbol, m: Symbol): User {
    User(map[x := MOD, m := YES], map[])
  }

  // ---------------------------------------------------------------------------------------------------------
  // modules_val never settles
  // ---------------------------------------------------------------------------------------------------------

  /** A tristate symbol x that is always visible, another one s, and the symbol m of MODULES, visible only if x is y. */
  function Flipping(x: Symbol, s: Symbol, m: Symbol): Table {
    map[Yes := Nothing(), No := Nothing(), Mod := Nothing(), x := Shown(None), s := Shown(None),
        m := Shown(Some(Cmp(true, x, Yes)))]
  }

  lemma FlippingHasNoCycles(x: Symbol, s: Symbol, m: Symbol)
    requires Three(x, s, m)
    ensures NoCycles(Flipping(x, s, m))
  {
    var table := Flipping(x, s, m);
    ExampleDeps(None, Cmp(true, x, Yes), x);
    ExampleDeps(Some(Cmp(true, x, Yes)), Cmp(true, x, Yes), x);
    assert table[x] == Shown(None) && table[s] == Shown(None) && table[m] == Shown(Some(Cmp(true, x, Yes)));
    assert table[Yes] == Nothing() && table[No] == Nothing() && table[Mod] == Nothing();
    InOrder(table, x, s, m);
  }

  /** With modules on, x is m, and MODULES falls back to n; with modules off, x is y, and MODULES is y again. */
  lemma ModulesFlips(x: Symbol, s: Symbol, m: Symbol, user: User, r: Recalc, c: Cfg)
    requires Three(x, s, m) && Recalculation(Flipping(x, s, m), m, user, r, c)
    requires x in user.tri && user.tri[x] == MOD && m in user.tri && user.tri[m] == YES
    ensures r.next != r.mod && s !in r.kept
  {
    var table, e := Flipping(x, s, m), Cmp(true, x, Yes);
    assert table[x] == Shown(None) && table[s] == Shown(None) && table[m] == Shown(Some(e));
    assert Computed(x, table[x], c, user, ModeOf(r, m, x)) && Computed(m, table[m], c, user, ModeOf(r, m, m));
    ShownValue(x, None, c, user, ModeOf(r, m, x));
    ShownValue(m, Some(e), c, user, ModeOf(r, m, m));
    assert Asks(table, c, user, ModesOf(r, m), m) <= r.kept;
    assert x in r.early && x in r.kept && m in r.kept;
    TextsDiffer();
    FlippingClosed(x, s, m, user, r, c);
  }

  lemma FlippingClosed(x: Symbol, s: Symbol, m: Symbol, user: User, r: Recalc, c: Cfg)
    requires Three(x, s, m) && Recalculation(Flipping(x, s, m), m, user, r, c)
    ensures s !in r.kept
  {
    var table, e, k := Flipping(x, s, m), Cmp(true, x, Yes), {Yes, x, m};
    assert table[x] == Shown(None) && table[m] == Shown(Some(e)) && table[Yes] == Nothing();
    ShownValue(x, None, c, user, ModeOf(r, m, x));
    ShownValue(m, Some(e), c, user, ModeOf(r, m, m));
    forall y | y in k ensures Asks(table, c, user, ModesOf(r, m), y) <= k {
    }
    assert UsedClosed(table, c, user, ModesOf(r, m), k);
  }

  /** No values at all are stable, although there is no dependency cycle. */
  lemma NoStableConfiguration(x: Symbol, s: Symbol, m: Symbol, r: Recalc, c: Cfg)
    requires Three(x, s, m)
    ensures NoCycles(Flipping(x, s, m)) && !Stable(Flipping(x, s, m), m, Chosen(x, m), r, c)
  {
    FlippingHasNoCycles(x, s, m);
    if Recalculation(Flipping(x, s, m), m, Chosen(x, m), r, c) {
      ModulesFlips(x, s, m, Chosen(x, m), r, c);
    }
  }

  // The same through the default of MODULES, and only because an m is read as n there.

  /** MODULES has no prompt, and is y by default if x is not n. */
  function FlippingDefault(x: Symbol, s: Symbol, m: Symbol): Table {
    map[Yes := Nothing(), No := Nothing(), Mod := Nothing(), x := Shown(None), s := Shown(None),
        m := YesIf(Cmp(false, x, No))]
  }

  /** With modules on, x is m, which is not n; but it is read as n, and MODULES falls back to n.  With modules off, x is y,
      and MODULES is y again. */
  lemma DefaultFlips(x: Symbol, s: Symbol, m: Symbol, r: Recalc, c: Cfg)
    requires Three(x, s, m) && Recalculation(FlippingDefault(x, s, m), m, User(map[x := MOD], map[]), r, c)
    ensures r.next != r.mod && (r.mod ==> EvalAs(Cmp(false, x, No), c, true) == YES)
  {
    var table, user, e := FlippingDefault(x, s, m), User(map[x := MOD], map[]), Cmp(false, x, No);
    assert table[x] == Shown(None) && table[m] == YesIf(e);
    assert Computed(x, table[x], c, user, ModeOf(r, m, x)) && Computed(m, table[m], c, user, ModeOf(r, m, m));
    ShownValue(x, None, c, user, ModeOf(r, m, x));
    YesIfValue(m, e, c, user, ModeOf(r, m, m));
    assert Asks(table, c, user, ModesOf(r, m), m) <= r.kept;
    assert UsedClosed(table, c, user, ModesOf(r, m), {});
    assert r.early == {} && x in r.kept && m in r.kept;
    TextsDiffer();
  }

  lemma ReadAsN(x: Symbol, s: Symbol, m: Symbol, r: Recalc, c: Cfg)
    requires Three(x, s, m)
    ensures var table := FlippingDefault(x, s, m);
            NoCycles(table) && !Stable(table, m, User(map[x := MOD], map[]), r, c)
  {
    var table, e := FlippingDefault(x, s, m), Cmp(false, x, No);
    ExampleDeps(None, e, x);
    assert table[x] == Shown(None) && table[s] == Shown(None) && table[m] == YesIf(e);
    assert table[Yes] == Nothing() && table[No] == Nothing() && table[Mod] == Nothing();
    InOrder(table, x, s, m);
    if Recalculation(table, m, User(map[x := MOD], map[]), r, c) {
      DefaultFlips(x, s, m, r, c);
    }
  }

  /** While an m is read as n, the simplifier does not keep values: a && a != m is m, and what it is joined to is n. */
  lemma JoinedWhileReadAsN(a: Symbol, c: Cfg)
    requires a.Type() == Tristate && TriOf(c, a) == MOD
    ensures KDups.JoinAnd(Sym(a), Cmp(false, a, Mod)) == Some(Cmp(true, a, Yes))
    ensures EvalAs(Bin(And, Sym(a), Cmp(false, a, Mod)), c, false) == MOD && EvalAs(Cmp(true, a, Yes), c, false) == NO
  {
    TextsDiffer();
    assert EvalAs(Cmp(false, a, Mod), c, false) == YES;
  }

  // ---------------------------------------------------------------------------------------------------------
  // An accepted value is lost
  // ---------------------------------------------------------------------------------------------------------

  /** After a recalculation that has turned modules_val to y, setting s to m is accepted; but the recalculation that this
      starts turns modules_val to n again, and leaves s at y. */
  lemma AcceptedButLost(x: Symbol, s: Symbol, m: Symbol) returns (r: Recalc, c: Cfg, r': Recalc, c': Cfg)
    requires Three(x, s, m)
    ensures var table, user := Flipping(x, s, m), Chosen(x, m);
            && NoCycles(table) && Recalculation(table, m, user, r, c)
            && TriOf(c, s) == NO && Accepts(table, m, r, c, s, MOD)
            && Recalculation(table, m, SetUser(user, s, MOD), r', c') && r'.mod == r.next && TriOf(c', s) == YES
  {
    var table, user, user' := Flipping(x, s, m), Chosen(x, m), SetUser(Chosen(x, m), s, MOD);
    FlippingHasNoCycles(x, s, m);
    r, c := RecalculationExists(table, m, user, false);
    ModulesFlips(x, s, m, user, r, c);
    r', c' := RecalculationExists(table, m, user', true);
    ModulesFlips(x, s, m, user', r', c');
    assert table[s] == Shown(None);
    assert Computed(s, table[s], c, user, ModeOf(r, m, s)) && Computed(s, table[s], c', user', ModeOf(r', m, s));
    ShownValue(s, None, c, user, ModeOf(r, m, s));
    ShownValue(s, None, c', user', ModeOf(r', m, s));
  }

  /** s is visible as far as x is, and MODULES if x is y and s is not m. */
  function Intertwined(x: Symbol, s: Symbol, m: Symbol): Table {
    map[Yes := Nothing(), No := Nothing(), Mod := Nothing(), x := Shown(None), s := Shown(Some(Sym(x))),
        m := Shown(Some(Condition(x, s)))]
  }

  function Condition(x: Symbol, s: Symbol): Expr {
    Bin(And, Cmp(true, x, Yes), Cmp(false, s, Mod))
  }

  lemma IntertwinedHasNoCycles(x: Symbol, s: Symbol, m: Symbol)
    requires Three(x, s, m)
    ensures NoCycles(Intertwined(x, s, m))
  {
    var table := Intertwined(x, s, m);
    ExampleDeps(None, Sym(x), x);
    ExampleDeps(Some(Sym(x)), Sym(x), x);
    ExampleDeps(Some(Condition(x, s)), Sym(x), x);
    assert table[x] == Shown(None) && table[s] == Shown(Some(Sym(x))) && table[m] == Shown(Some(Condition(x, s)));
    assert table[Yes] == Nothing() && table[No] == Nothing() && table[Mod] == Nothing();
    assert SymbolsOf(Condition(x, s)) == {x, Yes} + {s, Mod};
    InOrder(table, x, s, m);
  }

  /** MODULES asks for both symbols while its visibility is calculated; with modules on, both are m if s is set to y. */
  lemma IntertwinedValues(x: Symbol, s: Symbol, m: Symbol, user: User, r: Recalc, c: Cfg)
    requires Three(x, s, m) && Recalculation(Intertwined(x, s, m), m, user, r, c)
    requires x in user.tri && user.tri[x] == MOD && m in user.tri && user.tri[m] == YES
    ensures s in r.kept && ModeOf(r, m, s) == Mode(r.mod, r.mod, r.mod)
    ensures Visible(s, Shown(Some(Sym(x))), c, ModeOf(r, m, s)) == (if r.mod then MOD else YES)
    ensures Selected(s, Shown(Some(Sym(x))), c, ModeOf(r, m, s)) == NO
    ensures s !in user.tri ==> TriOf(c, s) == NO && (!r.mod ==> r.next)
    ensures s in user.tri && user.tri[s] == YES && r.mod ==> TriOf(c, s) == MOD
  {
    var table, e := Intertwined(x, s, m), Condition(x, s);
    assert table[x] == Shown(None) && table[s] == Shown(Some(Sym(x))) && table[m] == Shown(Some(e));
    IntertwinedPhase(x, s, m, user, r, c);
    assert Computed(x, table[x], c, user, ModeOf(r, m, x)) && Computed(m, table[m], c, user, ModeOf(r, m, m));
    assert Computed(s, table[s], c, user, ModeOf(r, m, s));
    IntertwinedComputed(x, s, m, user, r.mod, c);
  }

  lemma IntertwinedPhase(x: Symbol, s: Symbol, m: Symbol, user: User, r: Recalc, c: Cfg)
    requires Three(x, s, m) && Recalculation(Intertwined(x, s, m), m, user, r, c)
    ensures forall y :: y in {x, s} ==> y in r.kept && ModeOf(r, m, y) == Mode(r.mod, r.mod, r.mod)
    ensures ModeOf(r, m, m) == Mode(r.mod, r.mod, false)
  {
    var table, e := Intertwined(x, s, m), Condition(x, s);
    assert table[m] == Shown(Some(e));
    ShownValue(m, Some(e), c, user, ModeOf(r, m, m));
    assert Asks(table, c, user, ModesOf(r, m), m) <= r.kept;
    assert SymbolsOf(e) == {x, Yes} + {s, Mod};
    assert m in r.kept && x in r.early && s in r.early;
  }

  lemma IntertwinedComputed(x: Symbol, s: Symbol, m: Symbol, user: User, mod: bool, c: Cfg)
    requires Three(x, s, m) && x in user.tri && user.tri[x] == MOD && m in user.tri && user.tri[m] == YES
    requires Computed(x, Shown(None), c, user, Mode(mod, mod, mod))
    requires Computed(s, Shown(Some(Sym(x))), c, user, Mode(mod, mod, mod))
    requires Computed(m, Shown(Some(Condition(x, s))), c, user, Mode(mod, mod, false))
    ensures Visible(s, Shown(Some(Sym(x))), c, Mode(mod, mod, mod)) == (if mod then MOD else YES)
    ensures Selected(s, Shown(Some(Sym(x))), c, Mode(mod, mod, mod)) == NO
    ensures s !in user.tri ==> TriOf(c, s) == NO && (!mod ==> TriOf(c, m) == YES)
    ensures s in user.tri && user.tri[s] == YES && mod ==> TriOf(c, s) == MOD
  {
    ShownValue(x, None, c, user, Mode(mod, mod, mod));
    ShownValue(s, Some(Sym(x)), c, user, Mode(mod, mod, mod));
    ShownValue(m, Some(Condition(x, s)), c, user, Mode(mod, mod, false));
    var p, q := Cmp(true, x, Yes), Cmp(false, s, Mod);
    assert EvalAs(Condition(x, s), c, mod) == Join(And, EvalAs(p, c, mod), EvalAs(q, c, mod));
    TextsDiffer();
  }

  /** The range is tested with the visibility from when the symbol was calculated.  After a recalculation that has turned
      modules_val to y, s still has the visibility y from before; so y is accepted, and yields only m. */
  lemma KeptRangeIsOld(x: Symbol, s: Symbol, m: Symbol) returns (r: Recalc, c: Cfg, r': Recalc, c': Cfg)
    requires Three(x, s, m)
    ensures var table, user := Intertwined(x, s, m), Chosen(x, m);
            && NoCycles(table) && Recalculation(table, m, user, r, c) && s in r.kept
            && TriOf(c, s) == NO && Accepts(table, m, r, c, s, YES)
            && Recalculation(table, m, SetUser(user, s, YES), r', c') && r'.mod == r.next && TriOf(c', s) == MOD
  {
    var table, user, user' := Intertwined(x, s, m), Chosen(x, m), SetUser(Chosen(x, m), s, YES);
    IntertwinedHasNoCycles(x, s, m);
    r, c := RecalculationExists(table, m, user, false);
    IntertwinedValues(x, s, m, user, r, c);
    r', c' := RecalculationExists(table, m, user', true);
    IntertwinedValues(x, s, m, user', r', c');
    assert table[s] == Shown(Some(Sym(x)));
  }

  // ---------------------------------------------------------------------------------------------------------
  // A value set again is lost
  // ---------------------------------------------------------------------------------------------------------

  function Defaulting(x: Symbol, s: Symbol, m: Symbol): Table {
    map[Yes := Nothing(), No := Nothing(), Mod := Nothing(), x := Shown(None), s := DefaultYes(x), m := Shown(None)]
  }

  lemma DefaultingHasNoCycles(x: Symbol, s: Symbol, m: Symbol)
    requires Three(x, s, m)
    ensures NoCycles(Defaulting(x, s, m))
  {
    var table := Defaulting(x, s, m);
    ExampleDeps(None, Sym(x), x);
    assert table[x] == Shown(None) && table[s] == DefaultYes(x) && table[m] == Shown(None);
    assert table[Yes] == Nothing() && table[No] == Nothing() && table[Mod] == Nothing();
    InOrder(table, x, s, m);
  }

  lemma DefaultingValues(x: Symbol, s: Symbol, m: Symbol, user: User, r: Recalc, c: Cfg)
    requires Three(x, s, m) && Recalculation(Defaulting(x, s, m), m, user, r, c) && r.mod
    requires x in user.tri && user.tri[x] == MOD && m in user.tri && user.tri[m] == YES
    ensures r.next && TriOf(c, s) == if s in user.tri then Join(And, user.tri[s], MOD) else YES
  {
    var table := Defaulting(x, s, m);
    assert table[x] == Shown(None) && table[s] == DefaultYes(x) && table[m] == Shown(None);
    assert Computed(x, table[x], c, user, ModeOf(r, m, x)) && Computed(m, table[m], c, user, ModeOf(r, m, m));
    assert Computed(s, table[s], c, user, ModeOf(r, m, s));
    ShownValue(x, None, c, user, ModeOf(r, m, x));
    ShownValue(m, None, c, user, ModeOf(r, m, m));
    assert UsedClosed(table, c, user, ModesOf(r, m), {m});
    assert r.kept == {m};
    TwoProps(x, c, true);
  }

  /** With modules on, s is y by default although its visibility is only m.  Setting it to y, the value it has, is
      accepted without a check, and the next recalculation yields m. */
  lemma SetAgainLost(x: Symbol, s: Symbol, m: Symbol) returns (r: Recalc, c: Cfg, r': Recalc, c': Cfg)
    requires Three(x, s, m)
    ensures var table, user := Defaulting(x, s, m), Chosen(x, m);
            && NoCycles(table) && Stable(table, m, user, r, c) && TriOf(c, s) == YES
            && Stable(table, m, SetUser(user, s, YES), r', c') && r'.mod == r.next && TriOf(c', s) == MOD
  {
    var table, user, user' := Defaulting(x, s, m), Chosen(x, m), SetUser(Chosen(x, m), s, YES);
    DefaultingHasNoCycles(x, s, m);
    r, c := RecalculationExists(table, m, user, true);
    DefaultingValues(x, s, m, user, r, c);
    r', c' := RecalculationExists(table, m, user', true);
    DefaultingValues(x, s, m, user', r', c');
  }
}
