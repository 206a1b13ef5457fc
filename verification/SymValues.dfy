/** The values of all symbols: when they are consistent, what sym_clear_all_valid and the calculation of all symbols make
    of them, and what setting a value does (support/kconfig/symbol.c:293-440, 442-452, 474-527, 760-781).

    sym_clear_all_valid first calculates the symbol of MODULES, and whatever that asks for, under the old modules_val.
    While the visibility of MODULES is calculated its old value is still stored; while its default is looked at, n is.
    The symbols calculated in these two phases keep their values, and all others are calculated under the new
    modules_val. */
module SymValues {
  import opened KExpr
  import opened CycleCheck
  import opened SymCalc

  // ---------------------------------------------------------------------------------------------------------
  // Consistent values
  // ---------------------------------------------------------------------------------------------------------

  /** The check for recursive dependencies finds nothing. */
  ghost predicate NoCycles(table: Table) {
    Closed(AllGraph(table)) && Acyclic(AllGraph(table))
  }

  ghost predicate Ordered(table: Table, order: seq<Symbol>) {
    && Closed(AllGraph(table)) && Topological(AllGraph(table), order)
    && forall s :: s in table ==> s in order
  }

  ghost function OrderFor(table: Table): (order: seq<Symbol>)
    requires NoCycles(table)
    ensures Ordered(table, order)
  {
    OrderCovers(table);
    OrderOf(AllGraph(table))
  }

  lemma OrderCovers(table: Table)
    requires NoCycles(table)
    ensures Ordered(table, OrderOf(AllGraph(table)))
  {
    var order := OrderOf(AllGraph(table));
    forall s | s in table ensures s in order {
      assert s in ToSet(order);
    }
  }

  /** When each symbol is calculated. */
  type Modes = Symbol -> Mode

  /** Every value is what sym_calc_value computes from the others. */
  ghost predicate Consistent(table: Table, c: Cfg, user: User, modes: Modes) {
    c.modules && forall s :: s in table ==> Computed(s, table[s], c, user, modes(s))
  }

  function Asks(table: Table, c: Cfg, user: User, modes: Modes, s: Symbol): set<Symbol>
    requires s in table
  {
    Used(s, table[s], c, user, modes(s))
  }

  /** What the calculation of a symbol in the set has asked for is in the set. */
  ghost predicate UsedClosed(table: Table, c: Cfg, user: User, modes: Modes, k: set<Symbol>) {
    k <= table.Keys && forall x :: x in k ==> Asks(table, c, user, modes, x) <= k
  }

  ghost predicate SameInputs(k: set<Symbol>, u: User, v: User, f: Modes, g: Modes) {
    forall x :: x in k ==> SameUserAt(x, u, v) && f(x) == g(x)
  }

  /** Values agree on a set that asks for nothing else, if what the user has set and the modes agree there. */
  lemma {:induction false} ClosedSame(table: Table, order: seq<Symbol>, k: set<Symbol>, c: Cfg, d: Cfg, u: User, v: User,
                                      f: Modes, g: Modes, s: Symbol)
    requires Ordered(table, order) && Consistent(table, c, u, f) && Consistent(table, d, v, g)
    requires UsedClosed(table, c, u, f, k) && SameInputs(k, u, v, f, g) && s in k
    ensures SameAt(s, c, d) && Asks(table, c, u, f, s) == Asks(table, d, v, g, s)
    decreases Rank(order, s)
  {
    var info := table[s];
    UsedIsDep(s, info, c, u, f(s));
    assert Next(AllGraph(table), s) == AllDeps(info);
    forall x | x in Asks(table, c, u, f, s) ensures SameAt(x, c, d) {
      DependencyRank(AllGraph(table), order, s, x);
      ClosedSame(table, order, k, c, d, u, v, f, g, x);
    }
    UsedDecides(s, info, c, d, u, v, f(s));
  }

  lemma AllSame(table: Table, k: set<Symbol>, c: Cfg, d: Cfg, u: User, v: User, f: Modes, g: Modes)
    requires NoCycles(table) && Consistent(table, c, u, f) && Consistent(table, d, v, g)
    requires UsedClosed(table, c, u, f, k) && SameInputs(k, u, v, f, g)
    ensures SameOn(k, c, d) && UsedClosed(table, d, v, g, k)
    ensures forall s :: s in k ==> Asks(table, c, u, f, s) == Asks(table, d, v, g, s)
  {
    forall s | s in k ensures SameAt(s, c, d) && Asks(table, c, u, f, s) == Asks(table, d, v, g, s) {
      ClosedSame(table, OrderFor(table), k, c, d, u, v, f, g, s);
    }
  }

  lemma DepClosed(table: Table, c: Cfg, user: User, modes: Modes, k: set<Symbol>)
    requires k <= table.Keys && forall x :: x in k ==> AllDeps(table[x]) <= k
    ensures UsedClosed(table, c, user, modes, k)
  {
    forall x | x in k ensures Asks(table, c, user, modes, x) <= k {
      UsedIsDep(x, table[x], c, user, modes(x));
    }
  }

  lemma KeysClosed(table: Table, c: Cfg, user: User, modes: Modes)
    requires NoCycles(table)
    ensures UsedClosed(table, c, user, modes, table.Keys)
  {
    forall x | x in table ensures AllDeps(table[x]) <= table.Keys {
      assert AllGraph(table)[x] == AllDeps(table[x]);
    }
    DepClosed(table, c, user, modes, table.Keys);
  }

  /** Without dependency cycles the user's choices and the modes determine every value. */
  lemma ValuesAreUnique(table: Table, c: Cfg, d: Cfg, user: User, modes: Modes)
    requires NoCycles(table) && Consistent(table, c, user, modes) && Consistent(table, d, user, modes)
    ensures SameOn(table.Keys, c, d)
  {
    KeysClosed(table, c, user, modes);
    AllSame(table, table.Keys, c, d, user, user, modes, modes);
  }

  // ---------------------------------------------------------------------------------------------------------
  // Consistent values exist
  // ---------------------------------------------------------------------------------------------------------

  function Update(c: Cfg, s: Symbol, tri: Tri, text: string): Cfg {
    Cfg(c.modules, x => if x == s then tri else c.raw(x), x => if x == s then text else c.text(x))
  }

  /** The values calculated in the given order. */
  function Solve(table: Table, order: seq<Symbol>, user: User, modes: Modes): (c: Cfg)
    ensures c.modules
  {
    if order == [] then Cfg(true, _ => NO, _ => "")
    else
      var last := |order| - 1;
      var s, c := order[last], Solve(table, order[..last], user, modes);
      if s in table then
        Update(c, s, CalcTri(s, table[s], c, user, modes(s)), CalcText(s, table[s], c, user, modes(s)))
      else c
  }

  lemma UpdateComputed(s: Symbol, info: SymInfo, c: Cfg, user: User, mode: Mode)
    requires s !in AllDeps(info) && c.modules
    ensures Computed(s, info, Update(c, s, CalcTri(s, info, c, user, mode), CalcText(s, info, c, user, mode)), user, mode)
  {
    var d := Update(c, s, CalcTri(s, info, c, user, mode), CalcText(s, info, c, user, mode));
    forall x | x in AllDeps(info) ensures SameAt(x, c, d) {
    }
    if IsTriType(s.Type()) {
      CalcSame(s, info, c, d, user, mode);
      CalcNeverModForBoolean(s, info, c, user, mode);
    } else {
      TextSame(s, info, c, d, user, mode);
    }
  }

  lemma TextSame(s: Symbol, info: SymInfo, c: Cfg, d: Cfg, user: User, mode: Mode)
    requires !IsTriType(s.Type()) && SameOn(AllDeps(info), c, d)
    ensures CalcText(s, info, c, user, mode) == CalcText(s, info, d, user, mode)
  {
    if s.Type() != Unknown {
      UsedIsDep(s, info, c, user, mode);
      TextAgrees(s, info, c, d, user, user, mode);
    }
  }

  lemma UpdateKeepsComputed(x: Symbol, info: SymInfo, c: Cfg, user: User, mode: Mode, s: Symbol, tri: Tri, text: string)
    requires Computed(x, info, c, user, mode) && x != s && s !in AllDeps(info)
    ensures Computed(x, info, Update(c, s, tri, text), user, mode)
  {
    var d := Update(c, s, tri, text);
    forall y | y in AllDeps(info) ensures SameAt(y, c, d) {
    }
    if IsTriType(x.Type()) {
      CalcSame(x, info, c, d, user, mode);
    } else {
      TextSame(x, info, c, d, user, mode);
    }
    assert SameAt(x, c, d);
  }

  /** Calculating in order yields the values. */
  lemma {:induction false} SolveComputes(table: Table, order: seq<Symbol>, user: User, modes: Modes, x: Symbol)
    requires Topological(AllGraph(table), order) && x in order && x in table
    ensures Computed(x, table[x], Solve(table, order, user, modes), user, modes(x))
  {
    var g, last := AllGraph(table), |order| - 1;
    var s, c := order[last], Solve(table, order[..last], user, modes);
    assert Next(g, x) == AllDeps(table[x]);
    if x == s {
      assert s !in ToSet(order[..last]);
      UpdateComputed(s, table[s], c, user, modes(s));
    } else {
      assert x in order[..last];
      SolveComputes(table, order[..last], user, modes, x);
      if s in table {
        if s in AllDeps(table[x]) {
          DependencyRank(g, order[..last], x, s);
        }
        UpdateKeepsComputed(x, table[x], c, user, modes(x), s, CalcTri(s, table[s], c, user, modes(s)),
                            CalcText(s, table[s], c, user, modes(s)));
      }
    }
  }

  /** ... and so they exist. */
  lemma ValuesExist(table: Table, user: User, modes: Modes)
    requires NoCycles(table)
    ensures Consistent(table, Solve(table, OrderFor(table), user, modes), user, modes)
  {
    var order := OrderFor(table);
    forall s | s in table ensures Computed(s, table[s], Solve(table, order, user, modes), user, modes(s)) {
      SolveComputes(table, order, user, modes, s);
    }
  }

  ghost function Values(table: Table, user: User, modes: Modes): (c: Cfg)
    requires NoCycles(table)
    ensures Consistent(table, c, user, modes)
  {
    ValuesExist(table, user, modes);
    Solve(table, OrderFor(table), user, modes)
  }

  // ---------------------------------------------------------------------------------------------------------
  // What is asked for
  // ---------------------------------------------------------------------------------------------------------

  /** k is what the calculation of the roots comes to calculate. */
  ghost predicate AskedFor(table: Table, c: Cfg, user: User, modes: Modes, roots: set<Symbol>, k: set<Symbol>) {
    && UsedClosed(table, c, user, modes, k) && roots <= k
    && forall j :: UsedClosed(table, c, user, modes, j) && roots <= j ==> k <= j
  }

  ghost predicate InEvery(table: Table, c: Cfg, user: User, modes: Modes, roots: set<Symbol>, x: Symbol) {
    forall j :: UsedClosed(table, c, user, modes, j) && roots <= j ==> x in j
  }

  ghost function Reached(table: Table, c: Cfg, user: User, modes: Modes, roots: set<Symbol>): set<Symbol> {
    set x | x in table.Keys && InEvery(table, c, user, modes, roots, x)
  }

  lemma ReachedIsAskedFor(table: Table, c: Cfg, user: User, modes: Modes, roots: set<Symbol>)
    requires NoCycles(table) && roots <= table.Keys
    ensures AskedFor(table, c, user, modes, roots, Reached(table, c, user, modes, roots))
  {
    var k := Reached(table, c, user, modes, roots);
    KeysClosed(table, c, user, modes);
    forall x | x in k ensures Asks(table, c, user, modes, x) <= k {
      forall y | y in Asks(table, c, user, modes, x) ensures y in k {
        forall j | UsedClosed(table, c, user, modes, j) && roots <= j ensures y in j {
          assert x in j;
        }
      }
    }
    forall x | x in roots ensures x in k {
      assert InEvery(table, c, user, modes, roots, x);
    }
    forall j | UsedClosed(table, c, user, modes, j) && roots <= j ensures k <= j {
      forall x | x in k ensures x in j {
        assert InEvery(table, c, user, modes, roots, x);
      }
    }
  }

  /** The same is asked for where what the user has set and the modes agree. */
  lemma AskedForMoves(table: Table, c: Cfg, d: Cfg, u: User, v: User, f: Modes, g: Modes, roots: set<Symbol>,
                      k: set<Symbol>)
    requires NoCycles(table) && Consistent(table, c, u, f) && Consistent(table, d, v, g)
    requires AskedFor(table, c, u, f, roots, k) && SameInputs(k, u, v, f, g)
    ensures AskedFor(table, d, v, g, roots, k) && SameOn(k, c, d)
    ensures forall s :: s in k ==> Asks(table, c, u, f, s) == Asks(table, d, v, g, s)
  {
    AllSame(table, k, c, d, u, v, f, g);
    forall j | UsedClosed(table, d, v, g, j) && roots <= j ensures k <= j {
      var both := k * j;
      forall x | x in both ensures Asks(table, c, u, f, x) <= both {
        assert Asks(table, d, v, g, x) <= j;
      }
      assert UsedClosed(table, c, u, f, both);
    }
  }

  lemma AskedForUnique(table: Table, c: Cfg, user: User, modes: Modes, roots: set<Symbol>, k: set<Symbol>, j: set<Symbol>)
    requires AskedFor(table, c, user, modes, roots, k) && AskedFor(table, c, user, modes, roots, j)
    ensures k == j
  {
  }

  // ---------------------------------------------------------------------------------------------------------
  // Recalculation
  // ---------------------------------------------------------------------------------------------------------

  /** sym_clear_all_valid and the calculation of all symbols: modules_val before; what the visibility of MODULES asks for;
      what MODULES asks for altogether, with MODULES itself; and modules_val afterwards. */
  datatype Recalc = Recalc(mod: bool, early: set<Symbol>, kept: set<Symbol>, next: bool)

  /** Before modules_val is set, with m the symbol of MODULES: an old value that is not n stays stored while the visibility
      of m is calculated, and n is stored while its default is looked at. */
  function ModeBefore(mod: bool, early: set<Symbol>, m: Symbol, s: Symbol): Mode {
    if s == m then Mode(mod, mod, false)
    else if s in early then Mode(mod, mod, mod)
    else Mode(mod, false, false)
  }

  function ModeOf(r: Recalc, m: Symbol, s: Symbol): Mode {
    if s in r.kept then ModeBefore(r.mod, r.early, m, s) else Mode(r.next, r.next, r.next)
  }

  function ModesOf(r: Recalc, m: Symbol): Modes {
    s => ModeOf(r, m, s)
  }

  /** What the visibility of a symbol asks for. */
  function VisibilityAsks(s: Symbol, info: SymInfo): set<Symbol> {
    if s.Type() == Unknown then {} else FirstAsked(info)
  }

  /** modules_val is not n. */
  predicate On(c: Cfg, m: Symbol) {
    TriOf(c, m) != NO
  }

  /** The values c are what a recalculation leaves. */
  ghost predicate Recalculation(table: Table, m: Symbol, user: User, r: Recalc, c: Cfg)
    requires m in table
  {
    && Consistent(table, c, user, ModesOf(r, m)) && r.next == On(c, m)
    && AskedFor(table, c, user, ModesOf(r, m), VisibilityAsks(m, table[m]), r.early)
    && AskedFor(table, c, user, ModesOf(r, m), {m}, r.kept)
  }

  // The same phase by phase: the values as if modules_val never changed, and then as if only n were stored for MODULES
  // while its default is looked at.

  function Uniform(mod: bool): Modes {
    _ => Mode(mod, mod, mod)
  }

  function Late(mod: bool, early: set<Symbol>, m: Symbol): Modes {
    s => ModeBefore(mod, early, m, s)
  }

  ghost function First(table: Table, user: User, mod: bool): Cfg
    requires NoCycles(table)
  {
    Values(table, user, Uniform(mod))
  }

  ghost function Early(table: Table, m: Symbol, user: User, mod: bool): set<Symbol>
    requires NoCycles(table) && m in table
  {
    Reached(table, First(table, user, mod), user, Uniform(mod), VisibilityAsks(m, table[m]))
  }

  ghost function Second(table: Table, m: Symbol, user: User, mod: bool): Cfg
    requires NoCycles(table) && m in table
  {
    Values(table, user, Late(mod, Early(table, m, user, mod), m))
  }

  ghost function Kept(table: Table, m: Symbol, user: User, mod: bool): set<Symbol>
    requires NoCycles(table) && m in table
  {
    Reached(table, Second(table, m, user, mod), user, Late(mod, Early(table, m, user, mod), m), {m})
  }

  /** The modules_val that a recalculation leaves. */
  ghost function NextModules(table: Table, m: Symbol, user: User, mod: bool): bool
    requires NoCycles(table) && m in table
  {
    On(Second(table, m, user, mod), m)
  }

  ghost function RecalcOf(table: Table, m: Symbol, user: User, mod: bool): Recalc
    requires NoCycles(table) && m in table
  {
    Recalc(mod, Early(table, m, user, mod), Kept(table, m, user, mod), NextModules(table, m, user, mod))
  }

  lemma VisibilityIsDep(table: Table, m: Symbol)
    requires NoCycles(table) && m in table
    ensures VisibilityAsks(m, table[m]) <= AllDeps(table[m]) <= table.Keys
  {
    PromptUsedIsDep(table[m].props);
    assert AllGraph(table)[m] == AllDeps(table[m]);
  }

  lemma EarlyIs(table: Table, m: Symbol, user: User, mod: bool)
    requires NoCycles(table) && m in table
    ensures AskedFor(table, First(table, user, mod), user, Uniform(mod), VisibilityAsks(m, table[m]),
                     Early(table, m, user, mod))
  {
    VisibilityIsDep(table, m);
    ReachedIsAskedFor(table, First(table, user, mod), user, Uniform(mod), VisibilityAsks(m, table[m]));
  }

  lemma KeptIs(table: Table, m: Symbol, user: User, mod: bool)
    requires NoCycles(table) && m in table
    ensures AskedFor(table, Second(table, m, user, mod), user, Late(mod, Early(table, m, user, mod), m), {m},
                     Kept(table, m, user, mod))
  {
    ReachedIsAskedFor(table, Second(table, m, user, mod), user, Late(mod, Early(table, m, user, mod), m), {m});
  }

  /** The symbols that come before s. */
  ghost function Below(table: Table, s: Symbol): set<Symbol>
    requires NoCycles(table) && s in table
  {
    set x | x in table.Keys && Rank(OrderFor(table), x) < Rank(OrderFor(table), s)
  }

  lemma BelowClosed(table: Table, s: Symbol)
    requires NoCycles(table) && s in table
    ensures AllDeps(table[s]) <= Below(table, s) && s !in Below(table, s)
    ensures forall x :: x in Below(table, s) ==> AllDeps(table[x]) <= Below(table, s)
  {
    DepsAreBelow(table, s);
    forall x | x in Below(table, s) ensures AllDeps(table[x]) <= Below(table, s) {
      DepsAreBelow(table, x);
    }
  }

  lemma DepsAreBelow(table: Table, s: Symbol)
    requires NoCycles(table) && s in table
    ensures AllDeps(table[s]) <= Below(table, s)
  {
    assert Next(AllGraph(table), s) == AllDeps(table[s]);
    forall y | y in AllDeps(table[s]) ensures y in Below(table, s) {
      DependencyRank(AllGraph(table), OrderFor(table), s, y);
    }
  }

  /** The visibility of MODULES does not ask for MODULES itself. */
  lemma NotEarly(table: Table, m: Symbol, c: Cfg, user: User, modes: Modes, early: set<Symbol>)
    requires NoCycles(table) && m in table
    requires AskedFor(table, c, user, modes, VisibilityAsks(m, table[m]), early)
    ensures m !in early
  {
    var below := Below(table, m);
    VisibilityIsDep(table, m);
    BelowClosed(table, m);
    DepClosed(table, c, user, modes, below);
    assert early <= below;
  }

  lemma EarlyInKept(table: Table, m: Symbol, c: Cfg, user: User, modes: Modes, early: set<Symbol>, kept: set<Symbol>)
    requires m in table && AskedFor(table, c, user, modes, VisibilityAsks(m, table[m]), early)
    requires AskedFor(table, c, user, modes, {m}, kept)
    ensures early <= kept
  {
    assert Asks(table, c, user, modes, m) <= kept;
    assert VisibilityAsks(m, table[m]) <= Asks(table, c, user, modes, m);
  }

  /** The first phase, seen with the values of the second. */
  lemma EarlyIsSecond(table: Table, m: Symbol, user: User, mod: bool)
    requires NoCycles(table) && m in table
    ensures var early, second := Early(table, m, user, mod), Second(table, m, user, mod);
            && m !in early && early <= Kept(table, m, user, mod) && SameOn(early, First(table, user, mod), second)
            && AskedFor(table, second, user, Late(mod, early, m), VisibilityAsks(m, table[m]), early)
            && (forall s :: s in early ==> Asks(table, First(table, user, mod), user, Uniform(mod), s)
                                           == Asks(table, second, user, Late(mod, early, m), s))
  {
    var early, first, second := Early(table, m, user, mod), First(table, user, mod), Second(table, m, user, mod);
    EarlyIs(table, m, user, mod);
    NotEarly(table, m, first, user, Uniform(mod), early);
    AskedForMoves(table, first, second, user, user, Uniform(mod), Late(mod, early, m), VisibilityAsks(m, table[m]), early);
    KeptIs(table, m, user, mod);
    EarlyInKept(table, m, second, user, Late(mod, early, m), early, Kept(table, m, user, mod));
  }

  /** The outcome of a recalculation depends on nothing but the user's choices and modules_val before. */
  lemma RecalculationIs(table: Table, m: Symbol, user: User, r: Recalc, c: Cfg)
    requires NoCycles(table) && m in table
    ensures Recalculation(table, m, user, r, c) <==>
            r == RecalcOf(table, m, user, r.mod) && Consistent(table, c, user, ModesOf(r, m))
  {
    if Recalculation(table, m, user, r, c) {
      RecalculationFollows(table, m, user, r, c);
    }
    if r == RecalcOf(table, m, user, r.mod) && Consistent(table, c, user, ModesOf(r, m)) {
      RecalculationComplete(table, m, user, r, c);
    }
  }

  lemma RecalculationFollows(table: Table, m: Symbol, user: User, r: Recalc, c: Cfg)
    requires NoCycles(table) && m in table && Recalculation(table, m, user, r, c)
    ensures r == RecalcOf(table, m, user, r.mod) && m !in r.early && r.early <= r.kept
    ensures SameOn(r.early, c, First(table, user, r.mod)) && SameOn(r.kept, c, Second(table, m, user, r.mod))
    ensures forall s :: s in r.early ==>
                          Asks(table, c, user, ModesOf(r, m), s)
                          == Asks(table, First(table, user, r.mod), user, Uniform(r.mod), s)
    ensures forall s :: s in r.kept ==>
                          Asks(table, c, user, ModesOf(r, m), s)
                          == Asks(table, Second(table, m, user, r.mod), user, Late(r.mod, r.early, m), s)
  {
    EarlyFollows(table, m, user, r, c);
    var late := Late(r.mod, r.early, m);
    KeptIs(table, m, user, r.mod);
    AskedForMoves(table, c, Second(table, m, user, r.mod), user, user, ModesOf(r, m), late, {m}, r.kept);
    AskedForUnique(table, Second(table, m, user, r.mod), user, late, {m}, r.kept, Kept(table, m, user, r.mod));
    assert SameAt(m, c, Second(table, m, user, r.mod));
  }

  lemma EarlyFollows(table: Table, m: Symbol, user: User, r: Recalc, c: Cfg)
    requires NoCycles(table) && m in table && Recalculation(table, m, user, r, c)
    ensures r.early == Early(table, m, user, r.mod) && m !in r.early && r.early <= r.kept
    ensures SameOn(r.early, c, First(table, user, r.mod))
    ensures forall s :: s in r.early ==>
                          Asks(table, c, user, ModesOf(r, m), s)
                          == Asks(table, First(table, user, r.mod), user, Uniform(r.mod), s)
  {
    var first, roots := First(table, user, r.mod), VisibilityAsks(m, table[m]);
    NotEarly(table, m, c, user, ModesOf(r, m), r.early);
    EarlyInKept(table, m, c, user, ModesOf(r, m), r.early, r.kept);
    EarlyIs(table, m, user, r.mod);
    AskedForMoves(table, c, first, user, user, ModesOf(r, m), Uniform(r.mod), roots, r.early);
    AskedForUnique(table, first, user, Uniform(r.mod), roots, r.early, Early(table, m, user, r.mod));
  }

  lemma RecalculationComplete(table: Table, m: Symbol, user: User, r: Recalc, c: Cfg)
    requires NoCycles(table) && m in table
    requires r == RecalcOf(table, m, user, r.mod) && Consistent(table, c, user, ModesOf(r, m))
    ensures Recalculation(table, m, user, r, c)
  {
    var second, late := Second(table, m, user, r.mod), Late(r.mod, r.early, m);
    EarlyIsSecond(table, m, user, r.mod);
    KeptIs(table, m, user, r.mod);
    AskedForMoves(table, second, c, user, user, late, ModesOf(r, m), {m}, r.kept);
    AskedForMoves(table, second, c, user, user, late, ModesOf(r, m), VisibilityAsks(m, table[m]), r.early);
    assert SameAt(m, c, second);
  }

  /** The values that a recalculation leaves. */
  ghost function Recalculated(table: Table, m: Symbol, user: User, mod: bool): (c: Cfg)
    requires NoCycles(table) && m in table
    ensures Recalculation(table, m, user, RecalcOf(table, m, user, mod), c)
  {
    var r := RecalcOf(table, m, user, mod);
    var c := Values(table, user, ModesOf(r, m));
    RecalculationIs(table, m, user, r, c);
    c
  }

  lemma RecalculationExists(table: Table, m: Symbol, user: User, mod: bool) returns (r: Recalc, c: Cfg)
    requires NoCycles(table) && m in table
    ensures Recalculation(table, m, user, r, c) && r.mod == mod
  {
    r, c := RecalcOf(table, m, user, mod), Recalculated(table, m, user, mod);
  }

  /** Two recalculations from the same modules_val leave the same values. */
  lemma RecalculationIsUnique(table: Table, m: Symbol, user: User, r: Recalc, c: Cfg, r': Recalc, c': Cfg)
    requires NoCycles(table) && m in table && r.mod == r'.mod
    requires Recalculation(table, m, user, r, c) && Recalculation(table, m, user, r', c')
    ensures r == r' && SameOn(table.Keys, c, c')
  {
    RecalculationFollows(table, m, user, r, c);
    RecalculationFollows(table, m, user, r', c');
    ValuesAreUnique(table, c, c', user, ModesOf(r, m));
  }

  // ---------------------------------------------------------------------------------------------------------
  // Stable values
  // ---------------------------------------------------------------------------------------------------------

  /** The values are what a recalculation has left, and it did not change modules_val. */
  ghost predicate Stable(table: Table, m: Symbol, user: User, r: Recalc, c: Cfg)
    requires m in table
  {
    Recalculation(table, m, user, r, c) && r.next == r.mod
  }

  /** Another recalculation leaves them as they are. */
  lemma StableStays(table: Table, m: Symbol, user: User, r: Recalc, c: Cfg, r': Recalc, c': Cfg)
    requires NoCycles(table) && m in table && Stable(table, m, user, r, c)
    requires Recalculation(table, m, user, r', c') && r'.mod == r.next
    ensures Stable(table, m, user, r', c') && SameOn(table.Keys, c, c')
  {
    RecalculationIsUnique(table, m, user, r, c, r', c');
  }

  /** Stable values are a configuration, with or without modules as modules_val says, and expressions are read as they are
      evaluated in it. */
  lemma StableIsConfiguration(table: Table, m: Symbol, user: User, r: Recalc, c: Cfg, s: Symbol)
    requires m in table && Stable(table, m, user, r, c) && s in table
    ensures SameAt(s, c, Cfg(r.next, c.raw, c.text)) && ReadText(c, s, r.next) == TextOf(c, s)
  {
    if s.Config? && IsTriType(s.Type()) {
      assert Computed(s, table[s], c, user, ModeOf(r, m, s));
      CalcNeverModForBoolean(s, table[s], c, user, ModeOf(r, m, s));
    }
  }

  /** There are stable values if and only if a recalculation with modules on leaves MODULES not n, or one with modules off
      leaves it n; that is, unless modules_val flips for ever. */
  lemma StableExists(table: Table, m: Symbol, user: User)
    requires NoCycles(table) && m in table
    ensures (exists r, c :: Stable(table, m, user, r, c))
            <==> NextModules(table, m, user, true) || !NextModules(table, m, user, false)
  {
    if r, c :| Stable(table, m, user, r, c) {
      RecalculationFollows(table, m, user, r, c);
    }
    if NextModules(table, m, user, true) {
      assert Stable(table, m, user, RecalcOf(table, m, user, true), Recalculated(table, m, user, true));
    }
    if !NextModules(table, m, user, false) {
      assert Stable(table, m, user, RecalcOf(table, m, user, false), Recalculated(table, m, user, false));
    }
  }

  /** If there are stable values at all, one recalculation settles modules_val, whatever it was. */
  lemma SettlesAtOnce(table: Table, m: Symbol, user: User)
    requires NoCycles(table) && m in table
    ensures (exists r, c :: Stable(table, m, user, r, c))
            <==> forall mod :: var next := NextModules(table, m, user, mod); NextModules(table, m, user, next) == next
  {
    StableExists(table, m, user);
    var t, f := NextModules(table, m, user, true), NextModules(table, m, user, false);
    if (t || !f) {
      forall mod ensures var next := NextModules(table, m, user, mod); NextModules(table, m, user, next) == next {
        assert mod == true || mod == false;
      }
    }
  }

  /** The symbols in the set depend on nothing outside of it, and none of them is tristate. */
  ghost predicate NoTristateBelow(table: Table, k: set<Symbol>) {
    k <= table.Keys && NoTristate(k) && forall x :: x in k ==> AllDeps(table[x]) <= k
  }

  /** If MODULES depends on no tristate symbol, directly or indirectly, its value does not depend on modules_val, and so
      there are stable values. */
  lemma StableWithoutTristate(table: Table, m: Symbol, user: User, k: set<Symbol>)
    requires NoCycles(table) && m in k && NoTristateBelow(table, k)
    ensures exists r, c :: Stable(table, m, user, r, c)
  {
    var f, g := Late(true, Early(table, m, user, true), m), Late(false, Early(table, m, user, false), m);
    IndependentOfModules(table, OrderFor(table), Second(table, m, user, true), Second(table, m, user, false), user, f, g,
                         k, m);
    StableExists(table, m, user);
  }

  lemma {:induction false} IndependentOfModules(table: Table, order: seq<Symbol>, c: Cfg, d: Cfg, user: User, f: Modes,
                                                g: Modes, k: set<Symbol>, s: Symbol)
    requires Ordered(table, order) && s in k && NoTristateBelow(table, k)
    requires Consistent(table, c, user, f) && Consistent(table, d, user, g)
    ensures SameAt(s, c, d)
    decreases Rank(order, s)
  {
    var info := table[s];
    UsedIsDep(s, info, c, user, f(s));
    assert Next(AllGraph(table), s) == AllDeps(info);
    forall x | x in Asks(table, c, user, f, s) ensures SameAt(x, c, d) {
      DependencyRank(AllGraph(table), order, s, x);
      IndependentOfModules(table, order, c, d, user, f, g, k, x);
    }
    AnyMode(s, info, d, user, f(s), g(s));
    UsedDecides(s, info, c, d, user, user, f(s));
  }

  // ---------------------------------------------------------------------------------------------------------
  // Setting a value
  // ---------------------------------------------------------------------------------------------------------

  /** sym_tristate_within_range, on a stored visibility and selection. */
  predicate InRange(visible: Tri, selected: Tri, ty: SymType, val: Tri) {
    visible != NO && IsTriType(ty) && !(ty == Boolean && val == MOD) && visible > selected && selected <= val <= visible
  }

  /** The test that is made of a symbol: with the visibility and the selection from when it was calculated, and the type
      that it has now. */
  predicate Accepts(table: Table, m: Symbol, r: Recalc, c: Cfg, s: Symbol, val: Tri)
    requires s in table
  {
    InRange(Visible(s, table[s], c, ModeOf(r, m, s)), Selected(s, table[s], c, ModeOf(r, m, s)), GetType(s, r.next), val)
  }

  /** What the user has set comes out, of a symbol with the given fields: it is in range, if the symbol is more visible
      than selected; otherwise it is what the symbol has anyway, or what it is selected to. */
  predicate Yields(visible: Tri, selected: Tri, ty: SymType, without: Tri, val: Tri) {
    if visible > selected then InRange(visible, selected, ty, val)
    else if visible == NO then val == without
    else val == selected
  }

  /** ... of the symbol as a recalculation leaves it. */
  predicate Lasts(table: Table, m: Symbol, r: Recalc, c: Cfg, s: Symbol, val: Tri)
    requires s in table
  {
    var mode := ModeOf(r, m, s);
    Yields(Visible(s, table[s], c, mode), Selected(s, table[s], c, mode), GetType(s, mode.mod), TriOf(c, s), val)
  }

  /** If modules_val has not changed, then what is accepted lasts. */
  lemma AcceptedLasts(table: Table, m: Symbol, r: Recalc, c: Cfg, s: Symbol, val: Tri)
    requires s in table && r.next == r.mod
    ensures Accepts(table, m, r, c, s, val) ==> Lasts(table, m, r, c, s, val)
    ensures Visible(s, table[s], c, ModeOf(r, m, s)) > Selected(s, table[s], c, ModeOf(r, m, s)) ==>
              (Accepts(table, m, r, c, s, val) <==> Lasts(table, m, r, c, s, val))
  {
  }

  lemma OwnLasts(table: Table, m: Symbol, r: Recalc, c: Cfg, user: User, s: Symbol)
    requires s in table && s.Config? && IsTriType(s.Type()) && Computed(s, table[s], c, user, ModeOf(r, m, s))
    ensures var visible, selected := Visible(s, table[s], c, ModeOf(r, m, s)), Selected(s, table[s], c, ModeOf(r, m, s));
            Lasts(table, m, r, c, s, TriOf(c, s)) <==>
            visible == NO || TriOf(c, s) <= visible || TriOf(c, s) <= selected
  {
  }

  function SetUser(user: User, s: Symbol, val: Tri): User {
    user.(tri := user.tri[s := val])
  }

  ghost predicate OthersSame(s: Symbol, u: User, v: User) {
    forall y: Symbol {:trigger SameUserAt(y, u, v)} :: y != s ==> SameUserAt(y, u, v)
  }

  lemma OthersSymmetric(s: Symbol, u: User, v: User)
    requires OthersSame(s, u, v)
    ensures OthersSame(s, v, u)
  {
    forall y | y != s ensures SameUserAt(y, v, u) {
      assert SameUserAt(y, u, v);
    }
  }

  lemma OthersStay(s: Symbol, user: User, val: Tri)
    ensures OthersSame(s, user, SetUser(user, s, val))
  {
    forall y | y != s ensures SameUserAt(y, user, SetUser(user, s, val)) {
    }
  }

  lemma OthersInputs(k: set<Symbol>, s: Symbol, u: User, v: User, modes: Modes)
    requires OthersSame(s, u, v) && s !in k
    ensures SameInputs(k, u, v, modes, modes)
  {
    forall x | x in k ensures SameUserAt(x, u, v) && modes(x) == modes(x) {
      assert x != s;
    }
  }

  /** Setting s does not touch what comes before s. */
  lemma BelowSame(table: Table, s: Symbol, c: Cfg, d: Cfg, u: User, v: User, modes: Modes)
    requires NoCycles(table) && s in table && OthersSame(s, u, v)
    requires Consistent(table, c, u, modes) && Consistent(table, d, v, modes)
    ensures SameOn(AllDeps(table[s]), c, d)
  {
    BelowClosed(table, s);
    DepClosed(table, c, u, modes, Below(table, s));
    OthersInputs(Below(table, s), s, u, v, modes);
    AllSame(table, Below(table, s), c, d, u, v, modes, modes);
  }

  /** Whether s is calculated in the first phase does not depend on s, ... */
  lemma EarlyUntouched(table: Table, m: Symbol, s: Symbol, u: User, v: User, mod: bool)
    requires NoCycles(table) && m in table && OthersSame(s, u, v)
    ensures s in Early(table, m, u, mod) <==> s in Early(table, m, v, mod)
    ensures s !in Early(table, m, u, mod) ==> Early(table, m, u, mod) == Early(table, m, v, mod)
  {
    if s !in Early(table, m, u, mod) {
      EarlyMoves(table, m, s, u, v, mod);
    }
    if s !in Early(table, m, v, mod) {
      OthersSymmetric(s, u, v);
      EarlyMoves(table, m, s, v, u, mod);
    }
  }

  lemma EarlyMoves(table: Table, m: Symbol, s: Symbol, u: User, v: User, mod: bool)
    requires NoCycles(table) && m in table && OthersSame(s, u, v) && s !in Early(table, m, u, mod)
    ensures Early(table, m, u, mod) == Early(table, m, v, mod)
  {
    var roots, early := VisibilityAsks(m, table[m]), Early(table, m, u, mod);
    EarlyIs(table, m, u, mod);
    EarlyIs(table, m, v, mod);
    OthersInputs(early, s, u, v, Uniform(mod));
    AskedForMoves(table, First(table, u, mod), First(table, v, mod), u, v, Uniform(mod), Uniform(mod), roots, early);
    AskedForUnique(table, First(table, v, mod), v, Uniform(mod), roots, early, Early(table, m, v, mod));
  }

  /** ... and neither does whether it is calculated in the second. */
  lemma KeptUntouched(table: Table, m: Symbol, s: Symbol, u: User, v: User, mod: bool)
    requires NoCycles(table) && m in table && OthersSame(s, u, v)
    requires Early(table, m, u, mod) == Early(table, m, v, mod)
    ensures s in Kept(table, m, u, mod) <==> s in Kept(table, m, v, mod)
    ensures s !in Kept(table, m, u, mod) ==> RecalcOf(table, m, u, mod) == RecalcOf(table, m, v, mod)
  {
    if s !in Kept(table, m, u, mod) {
      KeptMoves(table, m, s, u, v, mod);
    }
    if s !in Kept(table, m, v, mod) {
      OthersSymmetric(s, u, v);
      KeptMoves(table, m, s, v, u, mod);
    }
  }

  lemma KeptMoves(table: Table, m: Symbol, s: Symbol, u: User, v: User, mod: bool)
    requires NoCycles(table) && m in table && OthersSame(s, u, v)
    requires Early(table, m, u, mod) == Early(table, m, v, mod) && s !in Kept(table, m, u, mod)
    ensures RecalcOf(table, m, u, mod) == RecalcOf(table, m, v, mod)
  {
    var late, kept := Late(mod, Early(table, m, u, mod), m), Kept(table, m, u, mod);
    var c, d := Second(table, m, u, mod), Second(table, m, v, mod);
    KeptIs(table, m, u, mod);
    KeptIs(table, m, v, mod);
    OthersInputs(kept, s, u, v, late);
    AskedForMoves(table, c, d, u, v, late, late, {m}, kept);
    AskedForUnique(table, d, v, late, {m}, kept, Kept(table, m, v, mod));
    assert SameAt(m, c, d);
  }

  /** The phase in which s is calculated: the values and modes of all symbols as that phase has them. */
  ghost function PhaseValues(table: Table, m: Symbol, user: User, r: Recalc, c: Cfg, s: Symbol): Cfg
    requires NoCycles(table) && m in table
  {
    if s in r.early then First(table, user, r.mod) else if s in r.kept then Second(table, m, user, r.mod) else c
  }

  function PhaseModes(m: Symbol, r: Recalc, s: Symbol): Modes {
    if s in r.early then Uniform(r.mod) else if s in r.kept then Late(r.mod, r.early, m) else ModesOf(r, m)
  }

  lemma PhaseIs(table: Table, m: Symbol, user: User, r: Recalc, c: Cfg, s: Symbol)
    requires NoCycles(table) && m in table && s in table && Recalculation(table, m, user, r, c)
    ensures var d, mode := PhaseValues(table, m, user, r, c, s), ModeOf(r, m, s);
            && Consistent(table, d, user, PhaseModes(m, r, s)) && PhaseModes(m, r, s)(s) == mode && SameAt(s, c, d)
            && SameOn(Asks(table, c, user, ModesOf(r, m), s), c, d)
  {
    RecalculationFollows(table, m, user, r, c);
  }

  lemma SameFields(s: Symbol, info: SymInfo, c: Cfg, d: Cfg, user: User, mode: Mode)
    requires IsTriType(s.Type()) && SameOn(Used(s, info, c, user, mode), c, d)
    ensures Visible(s, info, c, mode) == Visible(s, info, d, mode)
    ensures Selected(s, info, c, mode) == Selected(s, info, d, mode)
  {
    AnswersAgree(s, info, c, d, user, user, mode);
  }

  /** The value that a symbol gets from the user. */
  lemma RangeDecides(s: Symbol, val: Tri, info: SymInfo, c: Cfg, d: Cfg, user: User, mode: Mode)
    requires s.Config? && IsTriType(s.Type()) && SameOn(AllDeps(info), c, d)
    requires Computed(s, info, c, user, mode) && Computed(s, info, d, SetUser(user, s, val), mode)
    ensures TriOf(d, s) == val <==>
            Yields(Visible(s, info, c, mode), Selected(s, info, c, mode), GetType(s, mode.mod), TriOf(c, s), val)
  {
    CalcSame(s, info, c, d, user, mode);
    CalcSame(s, info, c, d, SetUser(user, s, val), mode);
  }

  ghost predicate SamePhase(r: Recalc, r': Recalc, s: Symbol) {
    && r.mod == r'.mod && r.early <= r.kept && r'.early <= r'.kept && (s in r.early <==> s in r'.early)
    && (s !in r.early ==> r.early == r'.early && (s in r.kept <==> s in r'.kept))
    && (s !in r.kept ==> r == r')
  }

  lemma SamePhaseModes(m: Symbol, s: Symbol, r: Recalc, r': Recalc)
    requires SamePhase(r, r', s)
    ensures PhaseModes(m, r, s) == PhaseModes(m, r', s) && ModeOf(r, m, s) == ModeOf(r', m, s)
  {
  }

  lemma PhaseUntouched(table: Table, m: Symbol, s: Symbol, u: User, v: User, r: Recalc, c: Cfg, r': Recalc, c': Cfg)
    requires NoCycles(table) && m in table && s in table && OthersSame(s, u, v) && r.mod == r'.mod
    requires Recalculation(table, m, u, r, c) && Recalculation(table, m, v, r', c')
    ensures SamePhase(r, r', s)
  {
    RecalculationFollows(table, m, u, r, c);
    RecalculationFollows(table, m, v, r', c');
    EarlyUntouched(table, m, s, u, v, r.mod);
    if s !in r.early {
      KeptUntouched(table, m, s, u, v, r.mod);
    }
  }

  /** Setting a value and recalculating, whatever state the symbols were in.  Let c be the values that a recalculation
      without the change would leave.  The symbol then has the value that was set if and only if it is in range under c;
      or c has it already, if the symbol is invisible; or it is selected to it, if it is at least as strongly selected as
      it is visible. */
  lemma SetThenRecalculate(table: Table, m: Symbol, user: User, s: Symbol, val: Tri, r: Recalc, c: Cfg, r': Recalc, c': Cfg)
    requires NoCycles(table) && m in table && s in table && s.Config? && IsTriType(s.Type())
    requires Recalculation(table, m, user, r, c) && Recalculation(table, m, SetUser(user, s, val), r', c')
    requires r.mod == r'.mod
    ensures TriOf(c', s) == val <==> Lasts(table, m, r, c, s, val)
  {
    var user', mode, modes := SetUser(user, s, val), ModeOf(r, m, s), PhaseModes(m, r, s);
    var d, d' := PhaseValues(table, m, user, r, c, s), PhaseValues(table, m, user', r', c', s);
    PhaseIs(table, m, user, r, c, s);
    PhaseIs(table, m, user', r', c', s);
    OthersStay(s, user, val);
    PhaseUntouched(table, m, s, user, user', r, c, r', c');
    SamePhaseModes(m, s, r, r');
    BelowSame(table, s, d, d', user, user', modes);
    RangeDecides(s, val, table[s], d, d', user, mode);
    SameFields(s, table[s], c, d, user, mode);
  }

  /** From stable values: a new value that sym_set_tristate_value accepts is exactly the value that the next recalculation
      yields; and of a symbol that the user can influence at all, no other value is. */
  lemma SetThenCalc(table: Table, m: Symbol, user: User, s: Symbol, val: Tri, r: Recalc, c: Cfg, r': Recalc, c': Cfg)
    requires NoCycles(table) && m in table && s in table && s.Config? && IsTriType(s.Type())
    requires Stable(table, m, user, r, c) && Recalculation(table, m, SetUser(user, s, val), r', c') && r'.mod == r.next
    ensures Accepts(table, m, r, c, s, val) ==> TriOf(c', s) == val
    ensures Visible(s, table[s], c, ModeOf(r, m, s)) > Selected(s, table[s], c, ModeOf(r, m, s)) ==>
              (TriOf(c', s) == val <==> Accepts(table, m, r, c, s, val))
  {
    AcceptedLasts(table, m, r, c, s, val);
    SetThenRecalculate(table, m, user, s, val, r, c, r', c');
  }

  /** From any values that a recalculation has left: an accepted value is yielded if and only if it would be after a
      recalculation without the change; and that is always so if the present values are stable. */
  lemma AcceptedIsYielded(table: Table, m: Symbol, user: User, s: Symbol, val: Tri, r0: Recalc, c0: Cfg, r: Recalc, c: Cfg,
                          r': Recalc, c': Cfg)
    requires NoCycles(table) && m in table && s in table && s.Config? && IsTriType(s.Type())
    requires Recalculation(table, m, user, r0, c0) && Accepts(table, m, r0, c0, s, val)
    requires Recalculation(table, m, user, r, c) && Recalculation(table, m, SetUser(user, s, val), r', c')
    requires r.mod == r'.mod == r0.next
    ensures TriOf(c', s) == val <==> Lasts(table, m, r, c, s, val)
    ensures r0.mod == r0.next ==> TriOf(c', s) == val
  {
    SetThenRecalculate(table, m, user, s, val, r, c, r', c');
    if r0.mod == r0.next {
      SetThenCalc(table, m, user, s, val, r0, c0, r', c');
    }
  }

  /** sym_tristate_within_range refuses every value of a symbol that is selected at least as strongly as it is visible,
      and of no other: the user's value makes no difference there. */
  lemma UserHasNoSay(s: Symbol, info: SymInfo, c: Cfg, user: User, mode: Mode)
    requires IsTriType(s.Type())
    ensures Visible(s, info, c, mode) <= Selected(s, info, c, mode) <==>
            forall v: Tri, w: Tri ::
              CalcTri(s, info, c, SetUser(user, s, v), mode) == CalcTri(s, info, c, SetUser(user, s, w), mode)
    ensures Visible(s, info, c, mode) <= Selected(s, info, c, mode) <==>
            forall v: Tri :: !InRange(Visible(s, info, c, mode), Selected(s, info, c, mode), GetType(s, mode.mod), v)
  {
    var visible, selected := Visible(s, info, c, mode), Selected(s, info, c, mode);
    if visible > selected {
      assert CalcTri(s, info, c, SetUser(user, s, visible), mode) == visible;
      assert CalcTri(s, info, c, SetUser(user, s, NO), mode) == selected;
      assert InRange(visible, selected, GetType(s, mode.mod), visible);
    }
  }

  /** A value that is set again is accepted without a check of the range, and takes part in the next recalculation.  It
      lasts if and only if it would come out of one without the change, as for any other value.  If the present values are
      stable, that is if the symbol is invisible, or the value lies within what visibility or selection allow: a default
      may exceed the visibility. */
  lemma SetSameThenCalc(table: Table, m: Symbol, user: User, s: Symbol, r0: Recalc, c0: Cfg, r: Recalc, c: Cfg,
                        r': Recalc, c': Cfg)
    requires NoCycles(table) && m in table && s in table && s.Config? && IsTriType(s.Type())
    requires Recalculation(table, m, user, r0, c0) && Recalculation(table, m, user, r, c)
    requires Recalculation(table, m, SetUser(user, s, TriOf(c0, s)), r', c') && r.mod == r'.mod == r0.next
    ensures TriOf(c', s) == TriOf(c0, s) <==> Lasts(table, m, r, c, s, TriOf(c0, s))
    ensures r0.mod == r0.next ==>
              var mode := ModeOf(r0, m, s);
              var visible, selected := Visible(s, table[s], c0, mode), Selected(s, table[s], c0, mode);
              (TriOf(c', s) == TriOf(c0, s) <==>
               visible == NO || TriOf(c0, s) <= visible || TriOf(c0, s) <= selected)
  {
    SetThenRecalculate(table, m, user, s, TriOf(c0, s), r, c, r', c');
    if r0.mod == r0.next {
      SetThenRecalculate(table, m, user, s, TriOf(c0, s), r0, c0, r', c');
      OwnLasts(table, m, r0, c0, user, s);
    }
  }
}
