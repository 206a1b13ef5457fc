/** The search for recursive dependencies, sym_check_deps and its helpers, for symbols outside choice groups
    (support/kconfig/symbol.c:1059-1216 and 1255-1287). */
module CycleCheck {
  import opened KExpr

  datatype PropKind = Prompt | Comment | MenuProp | Default | Choice | Select | Range | Env | SymbolProp

  datatype Prop = Prop(kind: PropKind, visible: Option<Expr>, expr: Option<Expr>)

  /** A symbol: who selects it, its properties in order, and its direct dependencies, which the check does not read. */
  datatype SymInfo = SymInfo(revDep: Option<Expr>, props: seq<Prop>, dirDep: Option<Expr>)

  type Table = map<Symbol, SymInfo>

  // ---------------------------------------------------------------------------------------------------------
  // The dependency graph
  // ---------------------------------------------------------------------------------------------------------

  function SizeOpt(e: Option<Expr>): nat {
    if e.Some? then 1 + Size(e.value) else 0
  }

  function SymbolsOfOpt(e: Option<Expr>): set<Symbol> {
    if e.Some? then SymbolsOf(e.value) else {}
  }

  /** Choice and select properties do not count; the expression of a property counts only for defaults. */
  function PropDeps(p: Prop): set<Symbol> {
    if p.kind == Choice || p.kind == Select then {}
    else SymbolsOfOpt(p.visible) + (if p.kind == Default then SymbolsOfOpt(p.expr) else {})
  }

  function PropsDeps(props: seq<Prop>): set<Symbol> {
    if props == [] then {} else PropsDeps(props[..|props| - 1]) + PropDeps(props[|props| - 1])
  }

  function Deps(info: SymInfo): set<Symbol> {
    SymbolsOfOpt(info.revDep) + PropsDeps(info.props)
  }

  /** What each symbol depends on. */
  type Graph = map<Symbol, set<Symbol>>

  function GraphOf(table: Table): Graph {
    map s | s in table :: Deps(table[s])
  }

  function Next(g: Graph, s: Symbol): set<Symbol> {
    if s in g then g[s] else {}
  }

  /** Every symbol an expression mentions exists. */
  ghost predicate Closed(g: Graph) {
    forall s :: s in g ==> g[s] <= g.Keys
  }

  /** Each symbol of p depends on the next. */
  ghost predicate Chain(g: Graph, p: seq<Symbol>) {
    forall i :: 0 < i < |p| ==> p[i] in Next(g, p[i - 1])
  }

  ghost predicate Cycle(g: Graph, p: seq<Symbol>) {
    p != [] && Chain(g, p) && p[0] in Next(g, p[|p| - 1])
  }

  ghost predicate Acyclic(g: Graph) {
    forall p: seq<Symbol> :: !Cycle(g, p)
  }

  // ---------------------------------------------------------------------------------------------------------
  // Finishing orders
  // ---------------------------------------------------------------------------------------------------------

  ghost function ToSet(p: seq<Symbol>): set<Symbol> {
    set s | s in p
  }

  /** No symbol is listed twice, and each comes after everything it depends on. */
  ghost predicate Topological(g: Graph, order: seq<Symbol>) {
    order == [] ||
    var last := |order| - 1;
    Topological(g, order[..last]) && order[last] !in order[..last] && Next(g, order[last]) <= ToSet(order[..last])
  }

  /** The position of a symbol in the order. */
  ghost function Rank(order: seq<Symbol>, s: Symbol): (i: nat)
    requires s in order
    ensures i < |order|
  {
    var last := |order| - 1;
    if order[last] == s then last else Rank(order[..last], s)
  }

  lemma {:induction false} DependencyRank(g: Graph, order: seq<Symbol>, s: Symbol, d: Symbol)
    requires Topological(g, order) && s in order && d in Next(g, s)
    ensures d in order && Rank(order, d) < Rank(order, s)
  {
    var last := |order| - 1;
    if order[last] == s {
      assert d in order[..last];
    } else {
      DependencyRank(g, order[..last], s, d);
    }
  }

  lemma {:induction false} ChainRank(g: Graph, order: seq<Symbol>, p: seq<Symbol>, i: nat)
    requires Topological(g, order) && Chain(g, p) && i < |p| && p[0] in order
    ensures p[i] in order && Rank(order, p[i]) + i <= Rank(order, p[0])
  {
    if i > 0 {
      ChainRank(g, order, p, i - 1);
      DependencyRank(g, order, p[i - 1], p[i]);
    }
  }

  /** If all symbols with dependencies appear in a topological order, there is no cycle. */
  lemma TopologicalIsAcyclic(g: Graph, order: seq<Symbol>)
    requires Topological(g, order) && forall s :: s in g && g[s] != {} ==> s in order
    ensures Acyclic(g)
  {
    forall p: seq<Symbol> ensures !Cycle(g, p) {
      if Cycle(g, p) {
        var last := |p| - 1;
        assert last > 0 ==> p[1] in Next(g, p[0]);
        ChainRank(g, order, p, last);
        DependencyRank(g, order, p[last], p[0]);
      }
    }
  }

  lemma ChainSnoc(g: Graph, stack: seq<Symbol>, s: Symbol)
    requires Chain(g, stack) && (stack == [] || s in Next(g, stack[|stack| - 1]))
    ensures Chain(g, stack + [s])
    ensures ToSet(stack + [s]) == ToSet(stack) + {s}
  {
  }

  lemma StackCycle(g: Graph, stack: seq<Symbol>, k: nat)
    requires Chain(g, stack) && k < |stack| && stack[k] in Next(g, stack[|stack| - 1])
    ensures Cycle(g, stack[k..])
  {
    var p := stack[k..];
    assert forall i | 0 < i < |p| :: p[i] == stack[k + i];
  }

  /** These are symbols that the symbol on top of the stack, if any, depends on. */
  ghost predicate Reachable(g: Graph, stack: seq<Symbol>, symbols: set<Symbol>) {
    symbols <= g.Keys && (stack == [] || symbols <= Next(g, stack[|stack| - 1]))
  }

  ghost predicate AllCycles(g: Graph, reports: seq<seq<Symbol>>) {
    forall p :: p in reports ==> Cycle(g, p)
  }

  // ---------------------------------------------------------------------------------------------------------
  // Without cycles there is an order
  // ---------------------------------------------------------------------------------------------------------

  /** A walk along dependencies inside `rest` ends at a symbol with no dependency there, if it cannot run into a
      cycle. */
  lemma {:induction false} WalkEnds(g: Graph, rest: set<Symbol>, p: seq<Symbol>) returns (s: Symbol)
    requires Acyclic(g) && Chain(g, p) && p != [] && ToSet(p) <= rest
    requires forall i, j :: 0 <= i < j < |p| ==> p[i] != p[j]
    ensures s in rest && Next(g, s) * rest == {}
    decreases |rest - ToSet(p)|
  {
    s := p[|p| - 1];
    if d :| d in Next(g, s) * rest {
      if d in p {
        var k :| 0 <= k < |p| && p[k] == d;
        StackCycle(g, p, k);
      }
      ChainSnoc(g, p, d);
      assert rest - ToSet(p + [d]) == rest - ToSet(p) - {d} && d in rest - ToSet(p);
      s := WalkEnds(g, rest, p + [d]);
    }
  }

  /** Any order of finished symbols extends to one of all symbols. */
  lemma {:induction false} OrderExtends(g: Graph, order: seq<Symbol>) returns (all: seq<Symbol>)
    requires Closed(g) && Acyclic(g) && Topological(g, order) && ToSet(order) <= g.Keys
    ensures Topological(g, all) && ToSet(all) == g.Keys
    decreases |g.Keys - ToSet(order)|
  {
    all := order;
    var rest := g.Keys - ToSet(order);
    if first :| first in rest {
      assert ToSet([first]) == {first};
      var s := WalkEnds(g, rest, [first]);
      forall d | d in Next(g, s) ensures d in ToSet(order) {
        assert d in rest ==> d in Next(g, s) * rest;
      }
      FinishOne(g, order, s);
      assert g.Keys - ToSet(order + [s]) == rest - {s};
      all := OrderExtends(g, order + [s]);
    }
  }

  /** The symbols of a table without cycles can be listed with every symbol after its dependencies. */
  ghost function OrderOf(g: Graph): (order: seq<Symbol>)
    requires Closed(g) && Acyclic(g)
    ensures Topological(g, order) && ToSet(order) == g.Keys
  {
    AcyclicHasOrder(g);
    var order :| Topological(g, order) && ToSet(order) == g.Keys;
    order
  }

  /** No cycle if and only if there is such an order. */
  lemma AcyclicHasOrder(g: Graph)
    requires Closed(g)
    ensures Acyclic(g) <==> exists order :: Topological(g, order) && ToSet(order) == g.Keys
  {
    if Acyclic(g) {
      var all := OrderExtends(g, []);
      assert Topological(g, all);
    }
    if order :| Topological(g, order) && ToSet(order) == g.Keys {
      forall s | s in g ensures s in order {
        assert s in ToSet(order);
      }
      TopologicalIsAcyclic(g, order);
    }
  }

  // ---------------------------------------------------------------------------------------------------------
  // The check
  // ---------------------------------------------------------------------------------------------------------

  class Checker {
    const table: Table
    ghost const g: Graph
    var check: set<Symbol>       // SYMBOL_CHECK: being looked at
    var checked: set<Symbol>     // SYMBOL_CHECKED: looked at before or now
    var stack: seq<Symbol>       // the symbols on the stack of dep_stack entries, check_top last
    var reports: seq<seq<Symbol>>
    ghost var finished: seq<Symbol>

    constructor (table: Table)
      ensures this.table == table && check == {} && checked == {} && stack == [] && reports == []
      ensures g == GraphOf(table) && finished == []
    {
      this.table := table;
      g := GraphOf(table);
      check, checked, stack, reports, finished := {}, {}, [], [], [];
    }

    ghost predicate Consistent() {
      g == GraphOf(table) && Closed(g)
    }

    /** The symbols being looked at are those of `open`; as long as nothing was reported, all other symbols looked
        at are finished. */
    ghost predicate ValidFor(open: set<Symbol>)
      reads this
    {
      && check == open && check <= checked <= g.Keys
      && Chain(g, stack)
      && AllCycles(g, reports)
      && (reports == [] ==> Topological(g, finished) && ToSet(finished) == checked - check)
    }

    ghost predicate Valid()
      reads this
    {
      ValidFor(ToSet(stack))
    }

    /** What every part of the search leaves as it was, and how the rest may grow. */
    twostate predicate Extends()
      reads this
    {
      check == old(check) && stack == old(stack) && old(checked) <= checked && old(reports) <= reports
    }

    /** Without a report so far, these symbols and all they depend on are finished. */
    ghost predicate Settled(symbols: set<Symbol>)
      reads this
    {
      reports == [] ==> symbols <= checked - check
    }

    /** sym_check_print_recursive: the part of the stack from the symbol met again up to the top. */
    method Report(s: Symbol)
      requires Valid() && s in check && Reachable(g, stack, {s})
      modifies this`reports
      ensures Valid() && old(reports) <= reports && |reports| == |old(reports)| + 1
      ensures reports[|old(reports)|] != [] && reports[|old(reports)|][0] == s
    {
      var k := FindOnStack(s);
      StackCycle(g, stack, k);
      reports := reports + [stack[k..]];
    }

    method FindOnStack(s: Symbol) returns (k: nat)
      requires s in stack
      ensures k < |stack| && stack[k] == s && s !in stack[k + 1..]
    {
      k := |stack| - 1;
      while stack[k] != s
        invariant 0 <= k < |stack| && s !in stack[k + 1..]
        invariant exists i :: 0 <= i <= k && stack[i] == s
        decreases k
      {
        k := k - 1;
      }
    }

    /** sym_check_expr_deps. */
    method CheckExprDeps(e: Option<Expr>) returns (r: Option<Symbol>)
      requires Consistent() && Valid() && stack != [] && Reachable(g, stack, SymbolsOfOpt(e))
      modifies this
      ensures Valid() && Extends() && Settled(SymbolsOfOpt(e))
      ensures r.Some? ==> reports != [] && r.value in check
      decreases g.Keys - checked, 1, SizeOpt(e)
    {
      if e.None? {
        return None;
      }
      match e.value {
        case Bin(_, left, right) =>
          assert Reachable(g, stack, SymbolsOfOpt(Some(left))) && Reachable(g, stack, SymbolsOfOpt(Some(right)));
          r := CheckExprDeps(Some(left));
          assert g.Keys - checked <= old(g.Keys - checked);
          if r.None? {
            r := CheckExprDeps(Some(right));
          }
        case Not(x) =>
          r := CheckExprDeps(Some(x));
        case Cmp(_, left, right) =>
          assert SymbolsOfOpt(e) == {left} + {right};
          assert Reachable(g, stack, {left}) && Reachable(g, stack, {right});
          r := CheckDeps(left);
          assert g.Keys - checked <= old(g.Keys - checked);
          if r.None? {
            r := CheckDeps(right);
          }
        case Sym(s) =>
          assert SymbolsOfOpt(e) == {s};
          r := CheckDeps(s);
      }
    }

    /** The loop of sym_check_sym_deps over the properties, for the symbol on top of the stack. */
    method CheckProps(props: seq<Prop>) returns (r: Option<Symbol>)
      requires Consistent() && Valid() && stack != [] && Reachable(g, stack, PropsDeps(props))
      modifies this
      ensures Valid() && Extends() && Settled(PropsDeps(props))
      ensures r.Some? ==> reports != [] && r.value in check
      decreases g.Keys - checked, 2, 1
    {
      r := None;
      var i := 0;
      while i < |props| && r.None?
        invariant 0 <= i <= |props|
        invariant Valid() && Extends() && Settled(PropsDeps(props[..i]))
        invariant r.Some? ==> reports != [] && r.value in check
      {
        r := CheckNext(props, i);
        i := i + 1;
      }
      assert i == |props| ==> props[..i] == props;
    }

    /** The body of the loop. */
    method CheckNext(props: seq<Prop>, i: nat) returns (r: Option<Symbol>)
      requires Consistent() && Valid() && stack != [] && Reachable(g, stack, PropsDeps(props)) && i < |props|
      requires Settled(PropsDeps(props[..i]))
      modifies this
      ensures Valid() && Extends() && Settled(PropsDeps(props[..i + 1]))
      ensures r.Some? ==> reports != [] && r.value in check
      decreases g.Keys - checked, 2, 0
    {
      PropsDepsStep(props, i);
      r := CheckProp(props[i]);
    }

    method CheckProp(p: Prop) returns (r: Option<Symbol>)
      requires Consistent() && Valid() && stack != [] && Reachable(g, stack, PropDeps(p))
      modifies this
      ensures Valid() && Extends() && Settled(PropDeps(p))
      ensures r.Some? ==> reports != [] && r.value in check
      decreases g.Keys - checked, 1, SizeOpt(p.visible) + SizeOpt(p.expr) + 1
    {
      if p.kind == Choice || p.kind == Select {
        return None;
      }
      assert Reachable(g, stack, SymbolsOfOpt(p.visible));
      assert p.kind == Default ==> Reachable(g, stack, SymbolsOfOpt(p.expr));
      r := CheckExprDeps(p.visible);
      assert g.Keys - checked <= old(g.Keys - checked);
      if r.None? && p.kind == Default {
        r := CheckExprDeps(p.expr);
      }
    }

    /** sym_check_sym_deps, for a symbol that is flagged but not yet on the stack. */
    method CheckSymDeps(s: Symbol) returns (r: Option<Symbol>)
      requires Consistent() && ValidFor(ToSet(stack) + {s}) && Reachable(g, stack, {s})
      modifies this
      ensures ValidFor(ToSet(stack) + {s}) && Extends() && Settled(Next(g, s))
      ensures r.Some? ==> reports != [] && r.value in check
      decreases g.Keys - checked, 4
    {
      ghost var below := stack;
      ChainSnoc(g, below, s);
      stack := stack + [s];
      r := CheckParts(s);
      assert stack == below + [s] && ValidFor(ToSet(below) + {s});
      stack := stack[..|stack| - 1];
      assert stack == below;
    }

    /** The reverse dependencies and the properties of the symbol on top of the stack. */
    method CheckParts(s: Symbol) returns (r: Option<Symbol>)
      requires Consistent() && Valid() && stack != [] && s == stack[|stack| - 1] && s in table
      modifies this
      ensures Valid() && Extends() && Settled(Next(g, s))
      ensures r.Some? ==> reports != [] && r.value in check
      decreases g.Keys - checked, 3
    {
      var info := table[s];
      assert Next(g, s) == SymbolsOfOpt(info.revDep) + PropsDeps(info.props);
      r := CheckExprDeps(info.revDep);
      assert g.Keys - checked <= old(g.Keys - checked);
      if r.None? {
        r := CheckProps(info.props);
      }
    }

    /** sym_check_deps: nothing wrong is found, or the symbol whose cycle is still being unwound. */
    method CheckDeps(s: Symbol) returns (r: Option<Symbol>)
      requires Consistent() && Valid() && Reachable(g, stack, {s})
      modifies this
      ensures Valid() && Extends() && Settled({s})
      ensures r.Some? ==> reports != [] && r.value in check
      decreases g.Keys - checked, 0, 1
    {
      if s in check {
        Report(s);
        return Some(s);
      }
      if s in checked {
        return None;
      }
      r := CheckNew(s);
      if r == Some(s) {
        r := None;
      }
    }

    /** ... for a symbol that has not been looked at. */
    method CheckNew(s: Symbol) returns (r: Option<Symbol>)
      requires Consistent() && Valid() && Reachable(g, stack, {s}) && s !in checked
      modifies this
      ensures Valid() && Extends() && Settled({s})
      ensures r.Some? ==> reports != [] && (r.value == s || r.value in check)
      decreases g.Keys - checked, 0, 0
    {
      check, checked := check + {s}, checked + {s};
      r := CheckSymDeps(s);
      check := check - {s};
      assert s !in ToSet(stack) && check == ToSet(stack);
      if reports == [] {
        Finish(s);
      }
    }

    ghost method Finish(s: Symbol)
      requires reports == [] && Topological(g, finished) && s in checked - check
      requires ToSet(finished) == checked - check - {s} && Next(g, s) <= ToSet(finished)
      modifies this`finished
      ensures Topological(g, finished) && ToSet(finished) == checked - check
    {
      FinishOne(g, finished, s);
      finished := finished + [s];
    }

    /** The check of all symbols, from cleared flags: nothing is reported exactly if there is no recursive
        dependency, and then the symbols have been finished in an order of dependency; whatever is reported is a
        cycle.  Symbols without dependencies, such as the constants, need not be listed. */
    method CheckAll(symbols: seq<Symbol>)
      requires Consistent() && check == {} && checked == {} && stack == [] && reports == [] && finished == []
      requires ToSet(symbols) <= g.Keys && forall s :: s in g && g[s] != {} ==> s in symbols
      modifies this
      ensures reports == [] <==> Acyclic(g)
      ensures reports == [] ==> Topological(g, finished) && ToSet(symbols) <= ToSet(finished)
      ensures AllCycles(g, reports)
    {
      var i := 0;
      while i < |symbols|
        invariant 0 <= i <= |symbols|
        invariant Valid() && stack == []
        invariant reports == [] ==> ToSet(symbols[..i]) <= checked
      {
        assert symbols[i] in ToSet(symbols);
        assert ToSet(symbols[..i + 1]) == ToSet(symbols[..i]) + {symbols[i]};
        var _ := CheckDeps(symbols[i]);
        i := i + 1;
      }
      assert symbols[..i] == symbols;
      if reports == [] {
        forall s | s in g && g[s] != {} ensures s in finished {
          assert s in ToSet(symbols) && s in ToSet(finished);
        }
        TopologicalIsAcyclic(g, finished);
      } else {
        assert reports[0] in reports;
      }
    }
  }

  lemma FinishOne(g: Graph, order: seq<Symbol>, s: Symbol)
    requires Topological(g, order) && s !in ToSet(order) && Next(g, s) <= ToSet(order)
    ensures Topological(g, order + [s]) && ToSet(order + [s]) == ToSet(order) + {s}
  {
    assert (order + [s])[..|order|] == order;
  }

  lemma {:induction false} PropsDepsStep(props: seq<Prop>, i: nat)
    requires i < |props|
    ensures PropsDeps(props[..i + 1]) == PropsDeps(props[..i]) + PropDeps(props[i])
    ensures PropDeps(props[i]) <= PropsDeps(props)
    decreases |props|
  {
    assert props[..i + 1][..i] == props[..i];
    var last := |props| - 1;
    if i < last {
      PropsDepsStep(props[..last], i);
      assert props[..last][..i + 1] == props[..i + 1] && props[..last][..i] == props[..i];
    } else {
      assert props[..i + 1] == props;
    }
  }

  // ---------------------------------------------------------------------------------------------------------
  // Which edges there are
  // ---------------------------------------------------------------------------------------------------------

  lemma {:induction false} PropsDepsAre(props: seq<Prop>, d: Symbol)
    ensures d in PropsDeps(props) <==> exists p :: p in props && d in PropDeps(p)
  {
    if props != [] {
      var last := |props| - 1;
      PropsDepsAre(props[..last], d);
      assert props == props[..last] + [props[last]];
    }
  }

  /** The expression mentions the symbol. */
  predicate Mentions(e: Option<Expr>, d: Symbol) {
    e.Some? && d in SymbolsOf(e.value)
  }

  /** A symbol depends exactly on what selects it, on what its prompts, defaults and other properties except choices
      and selects are visible by, and on what its defaults are made of. */
  lemma EdgesAre(table: Table, s: Symbol, d: Symbol)
    ensures d in Next(GraphOf(table), s) <==>
            s in table &&
            (|| Mentions(table[s].revDep, d)
             || (exists p :: p in table[s].props && p.kind != Choice && p.kind != Select && Mentions(p.visible, d))
             || (exists p :: p in table[s].props && p.kind == Default && Mentions(p.expr, d)))
  {
    if s in table {
      var props := table[s].props;
      PropsDepsAre(props, d);
      forall p | p in props
        ensures d in PropDeps(p) <==> || (p.kind != Choice && p.kind != Select && Mentions(p.visible, d))
                                      || (p.kind == Default && Mentions(p.expr, d))
      {
      }
    }
  }

  /** The properties other than choices and selects, in their order. */
  function Unselecting(props: seq<Prop>): seq<Prop> {
    if props == [] then []
    else (if props[0].kind == Select || props[0].kind == Choice then [] else [props[0]]) + Unselecting(props[1..])
  }

  lemma {:induction false} UnselectingKeeps(props: seq<Prop>, p: Prop)
    ensures p in Unselecting(props) <==> p in props && p.kind != Select && p.kind != Choice
  {
    if props != [] {
      UnselectingKeeps(props[1..], p);
      assert props == [props[0]] + props[1..];
    }
  }

  function WithoutSelects(table: Table): Table {
    map s | s in table :: table[s].(props := Unselecting(table[s].props))
  }

  /** Who is selected by what is known from the reverse dependencies alone: the select properties, and the choices,
      have no part in the dependencies, nor in the answer of the check. */
  lemma SelectsDoNotCount(table: Table)
    ensures GraphOf(WithoutSelects(table)) == GraphOf(table)
    ensures Acyclic(GraphOf(WithoutSelects(table))) == Acyclic(GraphOf(table))
  {
    var without := WithoutSelects(table);
    forall s | s in table ensures Deps(without[s]) == Deps(table[s]) {
      forall d ensures d in Deps(without[s]) <==> d in Deps(table[s]) {
        PropsDepsAre(table[s].props, d);
        PropsDepsAre(without[s].props, d);
        forall p: Prop
          ensures p in without[s].props && d in PropDeps(p) <==> p in table[s].props && d in PropDeps(p)
        {
          UnselectingKeeps(table[s].props, p);
        }
      }
    }
  }

  /** One symbol selecting another is no recursive dependency. */
  lemma SelectIsNoCycle(a: Symbol, b: Symbol)
    requires a != b
    ensures Acyclic(GraphOf(map[a := SymInfo(None, [Prop(Select, None, Some(Sym(b)))], None),
                                b := SymInfo(Some(Sym(a)), [], None)]))
  {
    var select := Prop(Select, None, Some(Sym(b)));
    var table: Table := map[a := SymInfo(None, [select], None), b := SymInfo(Some(Sym(a)), [], None)];
    assert PropsDeps([select][..0]) == {};
    assert Next(GraphOf(table), a) == {} && Next(GraphOf(table), b) == {a};
    assert [a, b][..1] == [a] && [a][..0] == [];
    assert Topological(GraphOf(table), [a]);
    TopologicalIsAcyclic(GraphOf(table), [a, b]);
  }
}
