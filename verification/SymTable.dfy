/** sym_calc_value as it runs: values are kept with the symbols and marked valid, a symbol is marked before the symbols it
    depends on are calculated, what is stored for MODULES decides how an m is read, and the calculation of MODULES changes
    modules_val for all that is calculated later (support/kconfig/symbol.c:189-227, 293-440, 442-452, 474-527, 760-781). */
module SymTable {
  import opened KExpr
  import opened CycleCheck
  import opened SymCalc
  import opened SymValues

  /** What sym_calc_visibility sets: visible, dir_dep.tri and rev_dep.tri. */
  datatype Fields = Fields(visible: Tri, direct: Tri, selected: Tri)

  /** The fields of a symbol that the calculation sets: SYMBOL_VALID, curr.tri, curr.val (the text, for symbols other
      than boolean and tristate ones), and these. */
  datatype Entry = Entry(valid: bool, tri: Tri, val: string, fields: Fields)

  type Entries = map<Symbol, Entry>

  /** The stored value is that of the configuration. */
  predicate Good(s: Symbol, v: Entry, c: Cfg) {
    v.tri == TriOf(c, s) && (!IsTriType(s.Type()) ==> v.val == TextOf(c, s))
  }

  /** sym_get_string_value, where `on` says that the value stored for MODULES is not n. */
  function StringValue(s: Symbol, v: Entry, on: bool): string {
    if !IsTriType(s.Type()) then v.val
    else if v.tri == MOD && !on then "n"
    else TriText(v.tri)
  }

  lemma GoodText(s: Symbol, v: Entry, c: Cfg, on: bool)
    requires Good(s, v, c)
    ensures StringValue(s, v, on) == ReadText(c, s, on)
  {
  }

  /** The value of y, m, n, of a constant, or of a symbol without a type. */
  function ConstantValue(s: Symbol, v: Entry): Entry {
    match s
    case Yes => v.(tri := YES, val := "y")
    case Mod => v.(tri := MOD, val := "m")
    case No => v.(tri := NO, val := "n")
    case Const(t) => v.(tri := NO, val := t)
    case Config(name, _) => v.(tri := NO, val := name)
  }

  // ---------------------------------------------------------------------------------------------------------
  // How the stored values grow
  // ---------------------------------------------------------------------------------------------------------

  /** What a calculation is for: the values c that are right for the user's choices, the modes in which the symbols are
      calculated, and the symbols that may be asked for. */
  datatype Basis = Basis(table: Table, c: Cfg, user: User, modes: Modes, bound: set<Symbol>)

  function FieldsOf(basis: Basis, x: Symbol): Fields
    requires x in basis.table
  {
    var info, mode := basis.table[x], basis.modes(x);
    Fields(Visible(x, info, basis.c, mode), Direct(info, basis.c, mode.on), Selected(x, info, basis.c, mode))
  }

  /** The stored visibility, direct dependency and selection are right too. */
  predicate Stored(basis: Basis, x: Symbol, v: Entry)
    requires x in basis.table
  {
    x.Type() != Unknown ==> v.fields == FieldsOf(basis, x)
  }

  predicate AllValid(symbols: set<Symbol>, st: Entries) {
    forall y :: y in symbols ==> y in st && st[y].valid
  }

  ghost predicate Keeps(a: Entries, b: Entries) {
    a.Keys == b.Keys && forall x :: x in a && a[x].valid ==> b[x] == a[x]
  }

  /** The entry is right, and all that was asked for to calculate it is valid. */
  ghost predicate Right(basis: Basis, x: Symbol, v: Entry, st: Entries)
    requires x in basis.table
  {
    && Good(x, v, basis.c) && Stored(basis, x, v)
    && AllValid(Asks(basis.table, basis.c, basis.user, basis.modes, x), st)
  }

  /** What became valid is right, and might be asked for. */
  ghost predicate Adds(basis: Basis, a: Entries, b: Entries)
    requires a.Keys == b.Keys == basis.table.Keys
  {
    forall x :: x in b && b[x].valid && !a[x].valid ==> x in basis.bound && Right(basis, x, b[x], b)
  }

  ghost predicate Grown(basis: Basis, a: Entries, b: Entries) {
    a.Keys == basis.table.Keys && Keeps(a, b) && Adds(basis, a, b)
  }

  lemma RightStays(basis: Basis, x: Symbol, v: Entry, a: Entries, b: Entries)
    requires x in basis.table && Right(basis, x, v, a) && forall y :: y in a && a[y].valid ==> y in b && b[y].valid
    ensures Right(basis, x, v, b)
  {
  }

  lemma GrownTwice(basis: Basis, a: Entries, b: Entries, d: Entries)
    requires Grown(basis, a, b) && Grown(basis, b, d)
    ensures Grown(basis, a, d)
  {
    forall x | x in d && d[x].valid && !a[x].valid ensures x in basis.bound && Right(basis, x, d[x], d) {
      if b[x].valid {
        RightStays(basis, x, b[x], b, d);
      }
    }
  }

  lemma ValidStays(basis: Basis, a: Entries, b: Entries, symbols: set<Symbol>)
    requires Grown(basis, a, b) && AllValid(symbols, a)
    ensures AllValid(symbols, b)
  {
  }

  /** Of the symbols before position n of the order, those marked valid have their value. */
  ghost predicate Memo(order: seq<Symbol>, n: nat, st: Entries, c: Cfg) {
    forall x :: x in st && x in order && st[x].valid && Rank(order, x) < n ==> Good(x, st[x], c)
  }

  lemma MemoStays(basis: Basis, order: seq<Symbol>, n: nat, a: Entries, b: Entries)
    requires Grown(basis, a, b) && Memo(order, n, a, basis.c)
    ensures Memo(order, n, b, basis.c)
  {
    forall x | x in b && x in order && b[x].valid && Rank(order, x) < n ensures Good(x, b[x], basis.c) {
      if a[x].valid {
        assert b[x] == a[x];
      }
    }
  }

  // A symbol is calculated in steps: it is marked valid, its visibility is calculated, n or the empty text is stored for
  // the time being, what else is needed is calculated, and the value is stored.

  function Marked(a: Entries, s: Symbol): Entries
    requires s in a
  {
    a[s := a[s].(valid := true)]
  }

  function Reset(a: Entries, s: Symbol): Entries
    requires s in a
  {
    a[s := a[s].(tri := NO, val := if IsTriType(s.Type()) then "n" else "")]
  }

  lemma KeepsByOne(before: Entries, mid: Entries, b: Entries, s: Symbol, v: Entry)
    requires s in before && !before[s].valid && s in mid
    requires Keeps(Marked(before, s), mid) && Keeps(Reset(mid, s), b)
    ensures Keeps(before, b[s := v]) && mid[s].valid && b[s].valid
  {
    assert Marked(before, s)[s].valid && Reset(mid, s)[s].valid;
    forall x | x in before && before[x].valid ensures b[s := v][x] == before[x] {
      assert Marked(before, s)[x] == before[x] && mid[x] == before[x] && Reset(mid, s)[x] == before[x];
    }
  }

  /** One more symbol becomes valid, after all that was asked for. */
  lemma GrownByOne(first: Basis, basis: Basis, before: Entries, mid: Entries, b: Entries, s: Symbol, v: Entry)
    requires basis == first.(bound := basis.bound) && first.bound <= basis.bound && s in basis.bound
    requires s in before && !before[s].valid && s in mid && v.valid
    requires Grown(first, Marked(before, s), mid) && Grown(basis, Reset(mid, s), b) && Right(basis, s, v, b)
    ensures Grown(basis, before, b[s := v])
  {
    var d := b[s := v];
    KeepsByOne(before, mid, b, s, v);
    assert forall y :: y in b && b[y].valid ==> d[y].valid;
    forall x | x in d && d[x].valid && !before[x].valid ensures x in basis.bound && Right(basis, x, d[x], d) {
      if x == s {
        RightStays(basis, x, v, b, d);
      } else {
        OtherAdded(first, basis, before, mid, b, s, x);
        RightStays(basis, x, b[x], b, d);
      }
    }
  }

  lemma OtherAdded(first: Basis, basis: Basis, before: Entries, mid: Entries, b: Entries, s: Symbol, x: Symbol)
    requires basis == first.(bound := basis.bound) && first.bound <= basis.bound
    requires s in before && s in mid && x != s && x in before && !before[x].valid && x in b && b[x].valid
    requires Grown(first, Marked(before, s), mid) && Grown(basis, Reset(mid, s), b)
    ensures x in basis.bound && Right(basis, x, b[x], b)
  {
    var reset := Reset(mid, s);
    if mid[x].valid {
      assert !Marked(before, s)[x].valid && reset[x] == mid[x] && b[x] == mid[x];
      assert forall y :: y in mid && mid[y].valid ==> reset[y].valid;
      assert Right(first, x, mid[x], mid);
      RightStays(first, x, mid[x], mid, b);
    }
  }

  ghost function ValidOnes(st: Entries): set<Symbol> {
    set x | x in st && st[x].valid
  }

  function Invalid(st: Entries): (r: Entries)
    ensures r.Keys == st.Keys && ValidOnes(r) == {}
    ensures forall x :: x in r ==> !r[x].valid && r[x].tri == st[x].tri
  {
    map x | x in st :: st[x].(valid := false)
  }

  lemma NoneValid(order: seq<Symbol>, n: nat, st: Entries, c: Cfg)
    requires ValidOnes(st) == {}
    ensures Memo(order, n, st, c)
  {
    forall x | x in st ensures !st[x].valid {
      assert x !in ValidOnes(st);
    }
  }

  function PromptAsks(p: Prop): set<Symbol> {
    if IsPrompt(p) then SymbolsOfOpt(p.visible) else {}
  }

  lemma {:induction false} PromptUsedPrefix(props: seq<Prop>, i: nat)
    requires i <= |props|
    ensures PromptUsed(props[..i]) <= PromptUsed(props)
    decreases |props|
  {
    if i == |props| {
      assert props[..i] == props;
    } else {
      var last := |props| - 1;
      assert props[..last][..i] == props[..i];
      PromptUsedPrefix(props[..last], i);
    }
  }

  lemma PromptStep(props: seq<Prop>, i: nat, c: Cfg, on: bool)
    requires i < |props|
    ensures PromptUsed(props[..i + 1]) == PromptUsed(props[..i]) + PromptAsks(props[i])
    ensures PromptVisibility(props[..i + 1], c, on) ==
            Join(Or, PromptVisibility(props[..i], c, on),
                 if IsPrompt(props[i]) then EvalOptAs(props[i].visible, c, on) else NO)
    ensures PromptAsks(props[i]) <= PromptUsed(props)
  {
    PromptUsedPrefix(props, i + 1);
    assert props[..i + 1][..i] == props[..i];
  }

  // ---------------------------------------------------------------------------------------------------------
  // The search for a default
  // ---------------------------------------------------------------------------------------------------------

  function DefaultAsks(p: Prop): set<Symbol> {
    if p.kind == Default then SymbolsOfOpt(p.visible) else {}
  }

  /** The default is still to be found from property i on. */
  ghost predicate StillToAsk(props: seq<Prop>, i: nat, c: Cfg, on: bool, tri: bool, asked: set<Symbol>, now: set<Symbol>)
    requires i <= |props|
  {
    && DefaultProp(props, c, on) == DefaultProp(props[i..], c, on)
    && asked + DefaultUsed(props, c, on, tri) == now + DefaultUsed(props[i..], c, on, tri)
  }

  /** The search has ended, and all but the expression of the default has been asked for. */
  ghost predicate Found(props: seq<Prop>, r: Option<Prop>, c: Cfg, on: bool, tri: bool, asked: set<Symbol>,
                        now: set<Symbol>) {
    && r == DefaultProp(props, c, on)
    && asked + DefaultUsed(props, c, on, tri) == now + if r.Some? then ExprUsed(r.value, tri) else {}
  }

  lemma AskFirst(props: seq<Prop>, c: Cfg, on: bool, tri: bool, asked: set<Symbol>)
    ensures StillToAsk(props, 0, c, on, tri, asked, asked)
  {
    assert props[0..] == props;
  }

  lemma AskedAll(props: seq<Prop>, c: Cfg, on: bool, tri: bool, asked: set<Symbol>, now: set<Symbol>)
    requires StillToAsk(props, |props|, c, on, tri, asked, now)
    ensures Found(props, None, c, on, tri, asked, now)
  {
  }

  lemma AskNext(props: seq<Prop>, i: nat, c: Cfg, on: bool, tri: bool, asked: set<Symbol>, now: set<Symbol>)
    requires i < |props| && StillToAsk(props, i, c, on, tri, asked, now)
    ensures var p := props[i];
            if Applies(p, c, on) then Found(props, Some(p), c, on, tri, asked, now + DefaultAsks(p))
            else StillToAsk(props, i + 1, c, on, tri, asked, now + DefaultAsks(p))
    ensures DefaultAsks(props[i]) <= DefaultUsed(props[i..], c, on, tri)
    ensures if Applies(props[i], c, on) then ExprUsed(props[i], tri) <= DefaultUsed(props[i..], c, on, tri)
            else DefaultUsed(props[i + 1..], c, on, tri) <= DefaultUsed(props[i..], c, on, tri)
  {
    assert props[i..][0] == props[i] && props[i..][1..] == props[i + 1..];
  }

  // ---------------------------------------------------------------------------------------------------------
  // Calculating one symbol
  // ---------------------------------------------------------------------------------------------------------

  /** The value stored for MODULES is not n. */
  predicate OnIn(a: Entries, m: Symbol) {
    m in a && a[m].tri != NO
  }

  /** The calculation of the symbol at position n of the order, or of a part of it, from the entries a on, with m the symbol
      of MODULES and the given modules_val. */
  datatype Job = Job(basis: Basis, m: Symbol, mod: bool, order: seq<Symbol>, n: nat, a: Entries)
  {
    ghost function Goal(): Cfg {
      basis.c
    }

    predicate On() {
      OnIn(a, m)
    }
  }

  /** What the calculation may rely on: MODULES is valid, at least it is marked so; the symbols that may be asked for ask for
      no others, and are calculated in the present state; and the valid ones before position n have their values. */
  ghost predicate Sound(j: Job) {
    var basis := j.basis;
    && NoCycles(basis.table) && Ordered(basis.table, j.order) && j.m in basis.table && j.a.Keys == basis.table.Keys
    && Consistent(basis.table, basis.c, basis.user, basis.modes)
    && UsedClosed(basis.table, basis.c, basis.user, basis.modes, basis.bound)
    && j.a[j.m].valid && Memo(j.order, j.n, j.a, basis.c)
    && forall x :: x in basis.bound && x in j.a && !j.a[x].valid ==> basis.modes(x) == Mode(j.mod, j.On(), j.On())
  }

  /** So far these symbols have been asked for. */
  ghost predicate Since(j: Job, asked: set<Symbol>, st: Entries) {
    Grown(j.basis, j.a, st) && AllValid(asked, st)
  }

  /** These symbols come before and may be asked for. */
  ghost predicate Before(j: Job, symbols: set<Symbol>) {
    forall x :: x in symbols ==> x in j.basis.table && x in j.order && Rank(j.order, x) < j.n && x in j.basis.bound
  }

  /** The job of calculating a symbol that is asked for. */
  ghost function JobFor(j: Job, s: Symbol, st: Entries): Job
    requires s in j.order
  {
    j.(n := Rank(j.order, s), a := st)
  }

  lemma JobIsSound(j: Job, s: Symbol, st: Entries, asked: set<Symbol>)
    requires Sound(j) && Since(j, asked, st) && Before(j, {s})
    ensures Sound(JobFor(j, s, st)) && OnIn(st, j.m) == j.On()
    ensures st[s].valid ==> Good(s, st[s], j.basis.c)
  {
    assert st[j.m] == j.a[j.m];
    assert s in {s};
    MemoStays(j.basis, j.order, j.n, j.a, st);
    forall x | x in j.basis.bound && x in st && !st[x].valid
      ensures j.basis.modes(x) == Mode(j.mod, j.On(), j.On())
    {
      assert !j.a[x].valid;
    }
  }

  lemma OnStays(j: Job, st: Entries)
    requires Sound(j) && Grown(j.basis, j.a, st)
    ensures j.m in st && OnIn(st, j.m) == j.On()
  {
    assert st[j.m] == j.a[j.m];
  }

  lemma AskedOne(j: Job, s: Symbol, asked: set<Symbol>, before: Entries, st: Entries)
    requires Since(j, asked, before) && Grown(j.basis, before, st) && s in st && st[s].valid
    ensures Since(j, asked + {s}, st)
  {
    GrownTwice(j.basis, j.a, before, st);
    ValidStays(j.basis, before, st, asked);
  }

  lemma BeforePart(j: Job, part: set<Symbol>, symbols: set<Symbol>)
    requires Before(j, symbols) && part <= symbols
    ensures Before(j, part)
  {
  }

  /** The calculation of s is at its visibility. */
  ghost predicate AtStart(j: Job, s: Symbol) {
    && s in j.basis.table && s.Type() != Unknown && Before(j, VisibilityAsks(s, j.basis.table[s]))
    && j.basis.modes(s).mod == j.mod && j.basis.modes(s).on == j.On()
  }

  /** What is asked for after the visibility. */
  ghost function RestAsked(j: Job, s: Symbol): set<Symbol>
    requires s in j.basis.table
  {
    var info, mode := j.basis.table[s], j.basis.modes(s);
    if UserCounts(s, info, j.Goal(), j.basis.user, mode.on) then {}
    else DefaultUsed(info.props, j.Goal(), mode.later, IsTriType(s.Type()))
  }

  /** The calculation of s has come to its default. */
  ghost predicate AtDefault(j: Job, s: Symbol, f: Fields) {
    var mode := j.basis.modes(s);
    && s in j.basis.table && s.Config? && s.Type() != Unknown && Before(j, RestAsked(j, s))
    && mode.mod == j.mod && mode.later == j.On() && f == FieldsOf(j.basis, s)
  }

  // ---------------------------------------------------------------------------------------------------------
  // The steps of one calculation
  // ---------------------------------------------------------------------------------------------------------

  /** sym_calc_value of MODULES is about to start, with all symbols invalid. */
  ghost predicate Starting(j: Job, r: Recalc) {
    var b := j.basis;
    && NoCycles(b.table) && Ordered(b.table, j.order) && j.m in b.table && j.a.Keys == b.table.Keys
    && b.modes == ModesOf(r, j.m) && b.bound == r.kept && Recalculation(b.table, j.m, b.user, r, b.c)
    && r.mod == j.mod == OnIn(j.a, j.m) && ValidOnes(j.a) == {}
  }

  /** The calculation of s is about to start: of MODULES, or of another symbol that may be asked for. */
  ghost predicate Opening(j: Job, r: Recalc, s: Symbol) {
    && s in j.order && j.n == Rank(j.order, s) && s in j.a && !j.a[s].valid && s in j.basis.bound && s in j.basis.table
    && if s == j.m then Starting(j, r) else Sound(j)
  }

  /** What may be asked for by the visibility. */
  ghost function FirstBound(j: Job, r: Recalc, s: Symbol): set<Symbol> {
    if s == j.m then r.early else j.basis.bound
  }

  ghost function FirstJob(j: Job, r: Recalc, s: Symbol): Job
    requires s in j.a
  {
    j.(a := Marked(j.a, s), basis := j.basis.(bound := FirstBound(j, r, s)))
  }

  ghost function SecondJob(j: Job, s: Symbol, mid: Entries): Job
    requires s in mid
  {
    j.(a := Reset(mid, s))
  }

  lemma RanksBelow(j: Job, s: Symbol)
    requires NoCycles(j.basis.table) && Ordered(j.basis.table, j.order) && s in j.basis.table && j.n == Rank(j.order, s)
    ensures forall x :: x in AllDeps(j.basis.table[s]) ==> x in j.basis.table && x in j.order && Rank(j.order, x) < j.n
  {
    var g := AllGraph(j.basis.table);
    assert Next(g, s) == AllDeps(j.basis.table[s]);
    forall x | x in AllDeps(j.basis.table[s]) ensures x in j.basis.table && x in j.order && Rank(j.order, x) < j.n {
      DependencyRank(g, j.order, s, x);
    }
  }

  /** What a symbol asks for comes before it. */
  lemma AskedBefore(j: Job, s: Symbol, k: set<Symbol>)
    requires NoCycles(j.basis.table) && Ordered(j.basis.table, j.order) && s in j.basis.table && j.n == Rank(j.order, s)
    requires s.Type() != Unknown && k <= Asks(j.basis.table, j.basis.c, j.basis.user, j.basis.modes, s)
    requires k <= j.basis.bound
    ensures Before(j, k)
  {
    RanksBelow(j, s);
    UsedIsDep(s, j.basis.table[s], j.basis.c, j.basis.user, j.basis.modes(s));
  }

  lemma MemoOfMarked(j: Job, s: Symbol, st: Entries)
    requires s in j.order && s in st && Memo(j.order, Rank(j.order, s), st, j.basis.c)
    ensures Memo(j.order, Rank(j.order, s), Marked(st, s), j.basis.c)
    ensures Memo(j.order, Rank(j.order, s), Reset(st, s), j.basis.c)
  {
  }

  lemma StartFirst(j: Job, r: Recalc, s: Symbol)
    requires Opening(j, r, s) && s.Type() != Unknown
    ensures var j1 := FirstJob(j, r, s); Sound(j1) && AtStart(j1, s) && Since(j1, {}, j1.a)
  {
    if s == j.m {
      RecalculationFollows(j.basis.table, j.m, j.basis.user, r, j.basis.c);
      ModulesFirst(j, r);
    } else {
      OtherFirst(j, r, s);
    }
  }

  lemma OtherFirst(j: Job, r: Recalc, s: Symbol)
    requires Opening(j, r, s) && s.Type() != Unknown && s != j.m
    ensures var j1 := FirstJob(j, r, s); Sound(j1) && AtStart(j1, s) && Since(j1, {}, j1.a)
  {
    var j1 := FirstJob(j, r, s);
    OtherFirstSound(j, r, s);
    assert Asks(j.basis.table, j.basis.c, j.basis.user, j.basis.modes, s) <= j.basis.bound;
    AskedBefore(j1, s, VisibilityAsks(s, j.basis.table[s]));
  }

  lemma OtherFirstSound(j: Job, r: Recalc, s: Symbol)
    requires Opening(j, r, s) && s != j.m
    ensures Sound(FirstJob(j, r, s)) && j.basis.modes(s) == Mode(j.mod, FirstJob(j, r, s).On(), FirstJob(j, r, s).On())
  {
    MemoOfMarked(j, s, j.a);
    assert FirstJob(j, r, s).a[j.m] == j.a[j.m];
  }

  lemma ModulesFirst(j: Job, r: Recalc)
    requires Opening(j, r, j.m) && j.m.Type() != Unknown && j.m !in r.early && r.early <= r.kept
    ensures var j1 := FirstJob(j, r, j.m); Sound(j1) && AtStart(j1, j.m) && Since(j1, {}, j1.a)
  {
    var j1 := FirstJob(j, r, j.m);
    NoneValid(j.order, j.n, j.a, j.basis.c);
    MemoOfMarked(j, j.m, j.a);
    AskedBefore(j1, j.m, VisibilityAsks(j.m, j.basis.table[j.m]));
    assert j.m in r.kept;
    forall x | x in r.early && x in j1.a && !j1.a[x].valid
      ensures j.basis.modes(x) == Mode(j.mod, j1.On(), j1.On())
    {
      assert x in r.kept && x != j.m;
    }
  }

  lemma StartSecond(j: Job, r: Recalc, s: Symbol, mid: Entries, f: Fields)
    requires Opening(j, r, s) && s.Type() != Unknown && Since(FirstJob(j, r, s), VisibilityAsks(s, j.basis.table[s]), mid)
    requires f == FieldsOf(j.basis, s)
    ensures s in mid
    ensures var j2 := SecondJob(j, s, mid);
            Sound(j2) && AtDefault(j2, s, f) && Since(j2, VisibilityAsks(s, j.basis.table[s]), j2.a)
  {
    if s == j.m {
      RecalculationFollows(j.basis.table, j.m, j.basis.user, r, j.basis.c);
      SecondIsSoundForModules(j, r, mid);
    } else {
      SecondIsSound(j, r, s, mid);
    }
    AtDefaultNow(j, r, s, mid, f);
    NothingYet(SecondJob(j, s, mid), VisibilityAsks(s, j.basis.table[s]), mid, s);
  }

  lemma NothingYet(j2: Job, asked: set<Symbol>, mid: Entries, s: Symbol)
    requires s in mid && j2.a == Reset(mid, s) && j2.a.Keys == j2.basis.table.Keys && AllValid(asked, mid)
    ensures Since(j2, asked, j2.a)
  {
  }

  lemma AtDefaultNow(j: Job, r: Recalc, s: Symbol, mid: Entries, f: Fields)
    requires Opening(j, r, s) && s.Type() != Unknown && s in mid
    requires f == FieldsOf(j.basis, s)
    requires j.basis.modes(s).mod == j.mod && j.basis.modes(s).later == SecondJob(j, s, mid).On()
    ensures AtDefault(SecondJob(j, s, mid), s, f)
  {
    var j2 := SecondJob(j, s, mid);
    assert RestAsked(j2, s) <= Asks(j.basis.table, j.basis.c, j.basis.user, j.basis.modes, s) <= j.basis.bound;
    AskedBefore(j2, s, RestAsked(j2, s));
  }

  lemma SecondIsSound(j: Job, r: Recalc, s: Symbol, mid: Entries)
    requires Opening(j, r, s) && s != j.m && Grown(j.basis, Marked(j.a, s), mid)
    ensures s in mid && Sound(SecondJob(j, s, mid))
    ensures j.basis.modes(s) == Mode(j.mod, SecondJob(j, s, mid).On(), SecondJob(j, s, mid).On())
  {
    MemoOfMarked(j, s, j.a);
    MemoStays(j.basis, j.order, j.n, Marked(j.a, s), mid);
    MemoOfMarked(j, s, mid);
    OtherSecond(j, r, s, mid);
  }

  lemma SecondIsSoundForModules(j: Job, r: Recalc, mid: Entries)
    requires Opening(j, r, j.m) && j.m !in r.early && r.early <= r.kept && j.m.Type() != Unknown
    requires Since(FirstJob(j, r, j.m), VisibilityAsks(j.m, j.basis.table[j.m]), mid)
    ensures j.m in mid && Sound(SecondJob(j, j.m, mid))
    ensures j.basis.modes(j.m) == Mode(j.mod, j.mod, SecondJob(j, j.m, mid).On())
  {
    NoneValid(j.order, j.n, j.a, j.basis.c);
    MemoOfMarked(j, j.m, j.a);
    MemoStays(FirstJob(j, r, j.m).basis, j.order, j.n, Marked(j.a, j.m), mid);
    MemoOfMarked(j, j.m, mid);
    ModulesSecond(j, r, mid);
    assert j.m in r.kept;
  }

  lemma OtherSecond(j: Job, r: Recalc, s: Symbol, mid: Entries)
    requires Opening(j, r, s) && s != j.m && Grown(j.basis, Marked(j.a, s), mid)
    ensures j.basis.modes(s) == Mode(j.mod, j.On(), j.On()) && j.m in mid && OnIn(Reset(mid, s), j.m) == j.On()
    ensures forall x :: x in j.basis.bound && x in mid && !Reset(mid, s)[x].valid ==>
                          j.basis.modes(x) == Mode(j.mod, j.On(), j.On())
  {
    assert Marked(j.a, s)[j.m] == j.a[j.m] == mid[j.m];
    assert mid[s] == Marked(j.a, s)[s];
    forall x | x in j.basis.bound && x in mid && !Reset(mid, s)[x].valid
      ensures j.basis.modes(x) == Mode(j.mod, j.On(), j.On())
    {
      assert x != s && !Marked(j.a, s)[x].valid;
      assert !j.a[x].valid;
    }
  }

  /** All that the visibility of MODULES has asked for is valid now, and only n is stored for MODULES. */
  lemma ModulesSecond(j: Job, r: Recalc, mid: Entries)
    requires Opening(j, r, j.m) && j.m !in r.early && r.early <= r.kept
    requires Since(FirstJob(j, r, j.m), VisibilityAsks(j.m, j.basis.table[j.m]), mid)
    ensures j.m in mid && Reset(mid, j.m)[j.m].valid && !OnIn(Reset(mid, j.m), j.m)
    ensures forall x :: x in r.kept && x in mid && !Reset(mid, j.m)[x].valid ==>
                          j.basis.modes(x) == Mode(j.mod, false, false)
  {
    assert Marked(j.a, j.m)[j.m].valid && mid[j.m] == Marked(j.a, j.m)[j.m];
    EarlyIsValid(j, r, mid);
    assert forall x :: x in r.early ==> mid[x].valid;
  }

  lemma EarlyIsValid(j: Job, r: Recalc, mid: Entries)
    requires Opening(j, r, j.m) && j.m !in r.early
    requires Since(FirstJob(j, r, j.m), VisibilityAsks(j.m, j.basis.table[j.m]), mid)
    ensures AllValid(r.early, mid)
  {
    var b := j.basis;
    var valid := set x | x in mid && mid[x].valid && x != j.m;
    forall x | x in valid ensures x in r.early && Asks(b.table, b.c, b.user, b.modes, x) <= valid {
      NotValid(j.a, x);
      assert !Marked(j.a, j.m)[x].valid;
      assert Right(FirstJob(j, r, j.m).basis, x, mid[x], mid);
      assert Asks(b.table, b.c, b.user, b.modes, x) <= r.early;
    }
    assert UsedClosed(b.table, b.c, b.user, b.modes, valid);
    assert r.early <= valid;
  }

  lemma NotValid(a: Entries, x: Symbol)
    requires ValidOnes(a) == {} && x in a
    ensures !a[x].valid
  {
    assert x !in ValidOnes(a);
  }

  /** What the last step needs to know of the beginning. */
  ghost predicate Closing(j: Job, first: Basis, s: Symbol) {
    && s in j.a && !j.a[s].valid && s in j.basis.bound && s in j.basis.table
    && j.basis == first.(bound := j.basis.bound) && first.bound <= j.basis.bound
  }

  lemma OpeningCloses(j: Job, r: Recalc, s: Symbol)
    requires Opening(j, r, s)
    ensures Closing(j, FirstJob(j, r, s).basis, s)
  {
    if s == j.m {
      RecalculationFollows(j.basis.table, j.m, j.basis.user, r, j.basis.c);
    }
  }

  lemma LastStep(j: Job, first: Basis, s: Symbol, mid: Entries, st: Entries, v: Entry)
    requires Closing(j, first, s) && s.Type() != Unknown && Grown(first, Marked(j.a, s), mid) && s in mid
    requires Since(SecondJob(j, s, mid), VisibilityAsks(s, j.basis.table[s]) + RestAsked(SecondJob(j, s, mid), s), st)
    requires v.valid && Good(s, v, j.Goal()) && Stored(j.basis, s, v)
    ensures s in st && Grown(j.basis, j.a, st[s := v])
  {
    var b := j.basis;
    assert Asks(b.table, b.c, b.user, b.modes, s)
           == VisibilityAsks(s, b.table[s]) + RestAsked(SecondJob(j, s, mid), s);
    GrownByOne(first, b, j.a, mid, st, s, v);
  }

  lemma UnknownStep(j: Job, r: Recalc, s: Symbol)
    requires Opening(j, r, s) && s.Type() == Unknown
    ensures var v := ConstantValue(s, j.a[s].(valid := true));
            v.valid && Good(s, v, j.Goal()) && Grown(j.basis, j.a, j.a[s := v])
  {
    var b := j.basis;
    assert Computed(s, b.table[s], b.c, b.user, b.modes(s));
    OnlyOne(b, j.a, s, ConstantValue(s, j.a[s].(valid := true)), b.modes(s));
  }

  lemma OnlyOne(basis: Basis, a: Entries, s: Symbol, e: Entry, mode: Mode)
    requires s.Type() == Unknown && s in a && !a[s].valid && s in basis.bound && a.Keys == basis.table.Keys
    requires e == ConstantValue(s, a[s].(valid := true)) && Computed(s, basis.table[s], basis.c, basis.user, mode)
    ensures e.valid && Good(s, e, basis.c) && Grown(basis, a, a[s := e])
  {
    assert Right(basis, s, e, a[s := e]);
  }

  /** What MODULES has asked for, and nothing else, is valid after its calculation. */
  lemma KeptIsValid(j: Job, r: Recalc, st: Entries)
    requires Starting(j, r) && Grown(j.basis, j.a, st) && st[j.m].valid
    ensures ValidOnes(st) == r.kept
    ensures forall x :: x in r.kept ==> x in j.basis.table && x in st && Right(j.basis, x, st[x], st)
  {
    var b, valid := j.basis, ValidOnes(st);
    forall x | x in valid
      ensures x in r.kept && Right(b, x, st[x], st) && Asks(b.table, b.c, b.user, b.modes, x) <= valid
    {
      NotValid(j.a, x);
    }
    assert UsedClosed(b.table, b.c, b.user, b.modes, valid);
    assert r.kept <= valid;
  }

  /** The values before a value is set, and those that a recalculation without the change would leave. */
  datatype Setting = Setting(user: User, run: Recalc, goal: Cfg, r: Recalc, c: Cfg)

  // ---------------------------------------------------------------------------------------------------------
  // The calculation
  // ---------------------------------------------------------------------------------------------------------

  class Symbols {
    const table: Table
    const modulesSym: Symbol      // modules_sym; `n` if no symbol is marked as the one of MODULES
    var modules: bool             // modules_val is not n
    var user: User
    var st: Entries
    ghost var run: Recalc         // the recalculation under way, or the last one
    ghost var goal: Cfg           // ... and the values that it comes to

    constructor (table: Table, modulesSym: Symbol, user: User)
      requires NoCycles(table) && modulesSym in table
      requires modulesSym == No || (modulesSym.Config? && IsTriType(modulesSym.Type()))
      ensures this.table == table && this.modulesSym == modulesSym && this.user == user
      ensures Fixed() && Synced() && !modules && forall s :: s in st ==> !st[s].valid
    {
      this.table, this.modulesSym, this.user := table, modulesSym, user;
      modules := false;
      st := map s | s in table :: Entry(false, NO, "", Fields(NO, NO, NO));
    }

    ghost predicate Fixed() {
      && NoCycles(table) && modulesSym in table
      && (modulesSym == No || (modulesSym.Config? && IsTriType(modulesSym.Type())))
    }

    /** modules_val is the value that is stored for MODULES. */
    ghost predicate Synced()
      reads this`st, this`modules
    {
      st.Keys == table.Keys && modulesSym in st && modules == OnIn(st, modulesSym)
    }

    /** The job is done here. */
    ghost predicate Here(j: Job)
      reads this`user, this`modules
    {
      j.basis.table == table && j.m == modulesSym && j.basis.user == user && j.mod == modules
    }

    /** expr_calc_value. */
    method EvalExpr(e: Expr, ghost j: Job, ghost asked: set<Symbol>) returns (v: Tri)
      requires Here(j) && Sound(j) && Since(j, asked, st) && Before(j, SymbolsOf(e))
      modifies `st, `modules
      ensures Here(j) && Since(j, asked + SymbolsOf(e), st) && v == EvalAs(e, j.Goal(), j.On())
      decreases j.n, 1, Size(e)
    {
      match e {
        case Sym(s) =>
          var entry := Ask(s, j, asked);
          v := entry.tri;
        case Cmp(equal, l, r) =>
          v := EvalCmp(equal, l, r, j, asked);
        case Not(x) =>
          var w := EvalExpr(x, j, asked);
          v := 2 - w;
        case Bin(op, l, r) =>
          BeforePart(j, SymbolsOf(l), SymbolsOf(e));
          BeforePart(j, SymbolsOf(r), SymbolsOf(e));
          var w1 := EvalExpr(l, j, asked);
          var w2 := EvalExpr(r, j, asked + SymbolsOf(l));
          assert asked + SymbolsOf(l) + SymbolsOf(r) == asked + SymbolsOf(e);
          v := Join(op, w1, w2);
      }
    }

    method EvalCmp(equal: bool, l: Symbol, r: Symbol, ghost j: Job, ghost asked: set<Symbol>) returns (v: Tri)
      requires Here(j) && Sound(j) && Since(j, asked, st) && Before(j, {l, r})
      modifies `st, `modules
      ensures Here(j) && Since(j, asked + {l, r}, st) && v == EvalAs(Cmp(equal, l, r), j.Goal(), j.On())
      decreases j.n, 1, 0
    {
      var tl, tr := AskTexts(l, r, j, asked);
      v := if (tl == tr) == equal then YES else NO;
    }

    method AskTexts(l: Symbol, r: Symbol, ghost j: Job, ghost asked: set<Symbol>) returns (tl: string, tr: string)
      requires Here(j) && Sound(j) && Since(j, asked, st) && Before(j, {l, r})
      modifies `st, `modules
      ensures Here(j) && Since(j, asked + {l, r}, st)
      ensures tl == ReadText(j.Goal(), l, j.On()) && tr == ReadText(j.Goal(), r, j.On())
      decreases j.n, 0, 2
    {
      BeforePart(j, {l}, {l, r});
      BeforePart(j, {r}, {l, r});
      tl := AskText(l, j, asked);
      tr := AskText(r, j, asked + {l});
      assert asked + {l, r} == asked + {l} + {r};
    }

    /** sym_calc_value and sym_get_string_value.  MODULES is valid, so that sym_calc_value has nothing more to do for it. */
    method AskText(s: Symbol, ghost j: Job, ghost asked: set<Symbol>) returns (t: string)
      requires Here(j) && Sound(j) && Since(j, asked, st) && Before(j, {s})
      modifies `st, `modules
      ensures Here(j) && Since(j, asked + {s}, st) && t == ReadText(j.Goal(), s, j.On())
      decreases j.n, 0, 1
    {
      var entry := Ask(s, j, asked);
      GoodText(s, entry, j.Goal(), j.On());
      OnStays(j, st);
      t := StringValue(s, entry, st[modulesSym].tri != NO);
    }

    /** sym_calc_value for a symbol that comes before. */
    method Ask(s: Symbol, ghost j: Job, ghost asked: set<Symbol>) returns (entry: Entry)
      requires Here(j) && Sound(j) && Since(j, asked, st) && Before(j, {s})
      modifies `st, `modules
      ensures Here(j) && Since(j, asked + {s}, st) && Good(s, entry, j.Goal())
      decreases j.n, 0, 0
    {
      assert s in {s};
      ghost var before := st;
      JobIsSound(j, s, st, asked);
      assert s == modulesSym ==> st[s].valid;
      CalcValue(s, JobFor(j, s, st));
      AskedOne(j, s, asked, before, st);
      entry := st[s];
    }

    method EvalExprOpt(e: Option<Expr>, ghost j: Job, ghost asked: set<Symbol>) returns (v: Tri)
      requires Here(j) && Sound(j) && Since(j, asked, st) && Before(j, SymbolsOfOpt(e))
      modifies `st, `modules
      ensures Here(j) && Since(j, asked + SymbolsOfOpt(e), st) && v == EvalOptAs(e, j.Goal(), j.On())
      decreases j.n, 2, 0
    {
      if e.None? {
        assert asked + SymbolsOfOpt(e) == asked;
        return YES;
      }
      v := EvalExpr(e.value, j, asked);
    }

    /** The loop over the prompts in sym_calc_visibility. */
    method CalcPrompts(props: seq<Prop>, ghost j: Job) returns (v: Tri)
      requires Here(j) && Sound(j) && Since(j, {}, st) && Before(j, PromptUsed(props))
      modifies `st, `modules
      ensures Here(j) && Since(j, PromptUsed(props), st) && v == PromptVisibility(props, j.Goal(), j.On())
      decreases j.n, 3
    {
      v := NO;
      var i := 0;
      while i < |props|
        invariant 0 <= i <= |props| && v == PromptVisibility(props[..i], j.Goal(), j.On())
        invariant Here(j) && Since(j, PromptUsed(props[..i]), st)
      {
        PromptStep(props, i, j.Goal(), j.On());
        BeforePart(j, PromptAsks(props[i]), PromptUsed(props));
        var tri := PromptTri(props[i], j, PromptUsed(props[..i]));
        v := Join(Or, v, tri);
        i := i + 1;
      }
      assert props[..i] == props;
    }

    /** The visibility of a property; one without a prompt does not count. */
    method PromptTri(p: Prop, ghost j: Job, ghost asked: set<Symbol>) returns (v: Tri)
      requires Here(j) && Sound(j) && Since(j, asked, st) && Before(j, PromptAsks(p))
      modifies `st, `modules
      ensures Here(j) && Since(j, asked + PromptAsks(p), st)
      ensures v == if IsPrompt(p) then EvalOptAs(p.visible, j.Goal(), j.On()) else NO
      decreases j.n, 2, 1
    {
      v := NO;
      if IsPrompt(p) {
        v := EvalExprOpt(p.visible, j, asked);
      } else {
        assert asked + PromptAsks(p) == asked;
      }
    }

    /** sym_get_default_prop, with the visibility it stores in the property; `now` is what has been asked for. */
    method GetDefaultProp(props: seq<Prop>, ghost j: Job, ghost asked: set<Symbol>, ghost tri: bool)
      returns (r: Option<Prop>, v: Tri, ghost now: set<Symbol>)
      requires Here(j) && Sound(j) && Since(j, asked, st) && Before(j, DefaultUsed(props, j.Goal(), j.On(), tri))
      modifies `st, `modules
      ensures Here(j) && Since(j, now, st) && Found(props, r, j.Goal(), j.On(), tri, asked, now)
      ensures r.Some? ==> v == EvalOptAs(r.value.visible, j.Goal(), j.On()) && Before(j, ExprUsed(r.value, tri))
      decreases j.n, 3
    {
      r, v, now := None, NO, asked;
      var i := 0;
      AskFirst(props, j.Goal(), j.On(), tri, asked);
      assert props[0..] == props;
      while i < |props| && r.None?
        invariant i <= |props| && Here(j) && Since(j, now, st)
        invariant if r.Some? then Found(props, r, j.Goal(), j.On(), tri, asked, now)
                  else StillToAsk(props, i, j.Goal(), j.On(), tri, asked, now)
                       && Before(j, DefaultUsed(props[i..], j.Goal(), j.On(), tri))
        invariant r.Some? ==> v == EvalOptAs(r.value.visible, j.Goal(), j.On()) && Before(j, ExprUsed(r.value, tri))
      {
        AskNext(props, i, j.Goal(), j.On(), tri, asked, now);
        v := DefaultVisibility(props[i], j, now);
        now := now + DefaultAsks(props[i]);
        if v != NO {
          r := Some(props[i]);
        }
        i := i + 1;
      }
      if r.None? {
        AskedAll(props, j.Goal(), j.On(), tri, asked, now);
      }
    }

    method DefaultVisibility(p: Prop, ghost j: Job, ghost asked: set<Symbol>) returns (v: Tri)
      requires Here(j) && Sound(j) && Since(j, asked, st) && Before(j, DefaultAsks(p))
      modifies `st, `modules
      ensures Here(j) && Since(j, asked + DefaultAsks(p), st)
      ensures v == if p.kind == Default then EvalOptAs(p.visible, j.Goal(), j.On()) else NO
      decreases j.n, 2, 1
    {
      v := NO;
      if p.kind == Default {
        v := EvalExprOpt(p.visible, j, asked);
      } else {
        assert asked + DefaultAsks(p) == asked;
      }
    }

    /** sym_calc_visibility: the visibility, the direct dependencies, and how strongly the symbol is selected. */
    method CalcVisibility(s: Symbol, ghost j: Job) returns (f: Fields)
      requires Here(j) && Sound(j) && Since(j, {}, st) && AtStart(j, s)
      modifies `st, `modules
      ensures Here(j) && Since(j, VisibilityAsks(s, table[s]), st) && f == FieldsOf(j.basis, s)
      decreases j.n, 4
    {
      var vis := CalcPrompts(table[s].props, j);
      if vis == MOD && (s.Type() != Tristate || !modules) {
        vis := YES;
      }
      var dir := CalcDirect(s, j, PromptUsed(table[s].props));
      var sel := CalcSelected(s, j, PromptUsed(table[s].props) + SymbolsOfOpt(table[s].dirDep));
      f := Fields(vis, dir, sel);
    }

    method CalcDirect(s: Symbol, ghost j: Job, ghost asked: set<Symbol>) returns (dir: Tri)
      requires Here(j) && Sound(j) && Since(j, asked, st) && AtStart(j, s)
      modifies `st, `modules
      ensures Here(j) && Since(j, asked + SymbolsOfOpt(table[s].dirDep), st)
      ensures dir == Direct(table[s], j.Goal(), j.On())
      decreases j.n, 3
    {
      dir := EvalExprOpt(table[s].dirDep, j, asked);
      if dir == MOD {
        dir := YES;
      }
    }

    method CalcSelected(s: Symbol, ghost j: Job, ghost asked: set<Symbol>) returns (sel: Tri)
      requires Here(j) && Sound(j) && Since(j, asked, st) && AtStart(j, s)
      modifies `st, `modules
      ensures Here(j) && Since(j, asked + SymbolsOfOpt(table[s].revDep), st)
      ensures sel == Selected(s, table[s], j.Goal(), j.basis.modes(s))
      decreases j.n, 3
    {
      sel := NO;
      if table[s].revDep.Some? {
        sel := EvalExprOpt(table[s].revDep, j, asked);
      } else {
        assert asked + SymbolsOfOpt(table[s].revDep) == asked;
      }
      if sel == MOD && (s.Type() == Boolean || (s.Type() == Tristate && !modules)) {
        sel := YES;
      }
    }

    /** The default of a boolean or tristate symbol. */
    method DefaultTriValue(s: Symbol, ghost j: Job, ghost asked: set<Symbol>) returns (v: Tri)
      requires Here(j) && Sound(j) && Since(j, asked, st) && s in table
      requires Before(j, DefaultUsed(table[s].props, j.Goal(), j.On(), true))
      modifies `st, `modules
      ensures Here(j) && Since(j, asked + DefaultUsed(table[s].props, j.Goal(), j.On(), true), st)
      ensures v == DefaultTri(table[s], j.Goal(), j.On())
      decreases j.n, 5
    {
      v := NO;
      var p, shown, now := GetDefaultProp(table[s].props, j, asked, true);
      if p.Some? {
        var tri := EvalExprOpt(p.value.expr, j, now);
        v := Join(And, tri, shown);
      }
    }

    /** The part of sym_calc_value for boolean and tristate symbols. */
    method CalcTriValue(s: Symbol, f: Fields, ghost j: Job, ghost asked: set<Symbol>) returns (v: Tri)
      requires Here(j) && Sound(j) && Since(j, asked, st) && AtDefault(j, s, f) && IsTriType(s.Type())
      modifies `st, `modules
      ensures Here(j) && Since(j, asked + RestAsked(j, s), st)
      ensures v == CalcTri(s, table[s], j.Goal(), user, j.basis.modes(s))
      decreases j.n, 6, 0
    {
      if f.visible != NO && s in user.tri {
        assert asked + RestAsked(j, s) == asked;
        v := Join(And, user.tri[s], f.visible);
      } else {
        v := DefaultTriValue(s, j, asked);
      }
      v := Join(Or, v, f.selected);
      if v == MOD && (s.Type() == Boolean || !modules) {
        v := YES;
      }
    }

    /** The part of sym_calc_value for the other types, before the range check. */
    method CalcTextValue(s: Symbol, f: Fields, ghost j: Job, ghost asked: set<Symbol>) returns (v: string)
      requires Here(j) && Sound(j) && Since(j, asked, st) && AtDefault(j, s, f) && !IsTriType(s.Type())
      modifies `st, `modules
      ensures Here(j) && Since(j, asked + RestAsked(j, s), st)
      ensures v == CalcText(s, table[s], j.Goal(), user, j.basis.modes(s))
      decreases j.n, 6, 0
    {
      if f.visible != NO && s in user.text {
        assert asked + RestAsked(j, s) == asked;
        v := user.text[s];
      } else {
        v := DefaultText(s, j, asked);
      }
    }

    /** The text of the symbol that is the default. */
    method DefaultText(s: Symbol, ghost j: Job, ghost asked: set<Symbol>) returns (v: string)
      requires Here(j) && Sound(j) && Since(j, asked, st) && s in table
      requires Before(j, DefaultUsed(table[s].props, j.Goal(), j.On(), false))
      modifies `st, `modules
      ensures Here(j) && Since(j, asked + DefaultUsed(table[s].props, j.Goal(), j.On(), false), st)
      ensures v == match DefaultProp(table[s].props, j.Goal(), j.On())
                   case None => ""
                   case Some(p) => if p.expr.Some? && p.expr.value.Sym? then CurrVal(p.expr.value.s, j.Goal()) else ""
      decreases j.n, 5
    {
      v := "";
      var p, _, now := GetDefaultProp(table[s].props, j, asked, false);
      if p.Some? && p.value.expr.Some? && p.value.expr.value.Sym? {
        var ds := p.value.expr.value.s;
        var entry := Ask(ds, j, now);
        v := if IsTriType(ds.Type()) then "n" else entry.val;
      }
    }

    /** The value, after n or the empty text has been stored for the time being. */
    method CalcCurr(s: Symbol, f: Fields, ghost j: Job, ghost asked: set<Symbol>) returns (v: Entry)
      requires Here(j) && Sound(j) && Since(j, asked, st) && AtDefault(j, s, f)
      modifies `st, `modules
      ensures Here(j) && Since(j, asked + RestAsked(j, s), st)
      ensures v.valid && Good(s, v, j.Goal()) && Stored(j.basis, s, v)
      decreases j.n, 6, 1
    {
      assert Computed(s, table[s], j.Goal(), user, j.basis.modes(s));
      if IsTriType(s.Type()) {
        var tri := CalcTriValue(s, f, j, asked);
        v := Entry(true, tri, "n", f);
      } else {
        var text := CalcTextValue(s, f, j, asked);
        v := Entry(true, NO, text, f);
      }
    }

    /** sym_calc_value.  Only the calculation of MODULES can change modules_val. */
    method CalcValue(s: Symbol, ghost j: Job)
      requires Here(j) && j.a == st && s in st
      requires if st[s].valid then Good(s, st[s], j.Goal()) && j.a.Keys == table.Keys else Opening(j, run, s)
      modifies `st, `modules
      ensures Grown(j.basis, old(st), st) && s in st && st[s].valid && Good(s, st[s], j.Goal())
      ensures s != modulesSym || old(st)[s].valid ==> modules == old(modules)
      ensures s == modulesSym && !old(st)[s].valid ==> modules == On(j.Goal(), s)
      decreases j.n, 9
    {
      if st[s].valid {
        return;
      }
      var before := st[s];
      Calculate(s, j);
      if s == modulesSym && (st[s].tri != before.tri || st[s].val != before.val) {
        modules := st[s].tri != NO;
      }
    }

    /** ... before that. */
    method Calculate(s: Symbol, ghost j: Job)
      requires Here(j) && j.a == st && s in st && Opening(j, run, s)
      modifies `st, `modules
      ensures Here(j) && Grown(j.basis, old(st), st) && s in st && st[s].valid && Good(s, st[s], j.Goal())
      decreases j.n, 8
    {
      if s.Type() == Unknown {
        UnknownStep(j, run, s);
        st := st[s := ConstantValue(s, st[s].(valid := true))];
      } else {
        CalcKnown(s, j);
      }
    }

    method CalcKnown(s: Symbol, ghost j: Job)
      requires Here(j) && j.a == st && s in st && Opening(j, run, s) && s.Type() != Unknown
      modifies `st, `modules
      ensures Here(j) && Grown(j.basis, old(st), st) && s in st && st[s].valid && Good(s, st[s], j.Goal())
      decreases j.n, 7, 1
    {
      StartFirst(j, run, s);
      OpeningCloses(j, run, s);
      var f := CalcFirst(s, FirstJob(j, run, s));
      StartSecond(j, run, s, st, f);
      CalcSecond(s, j, FirstJob(j, run, s).basis, f);
    }

    /** The symbol is marked as valid, and its visibility is calculated. */
    method CalcFirst(s: Symbol, ghost first: Job) returns (f: Fields)
      requires Here(first) && s in st && first.a == Marked(st, s)
      requires Sound(first) && AtStart(first, s) && Since(first, {}, first.a)
      modifies `st, `modules
      ensures Here(first) && Since(first, VisibilityAsks(s, table[s]), st) && f == FieldsOf(first.basis, s)
      decreases first.n, 7, 0
    {
      st := Marked(st, s);
      f := CalcVisibility(s, first);
    }

    /** The default value is stored for the time being, and then the value. */
    method CalcSecond(s: Symbol, ghost j: Job, ghost first: Basis, f: Fields)
      requires Here(j) && Closing(j, first, s) && Grown(first, Marked(j.a, s), st) && s in st
      requires var second := SecondJob(j, s, st);
               Sound(second) && AtDefault(second, s, f) && Since(second, VisibilityAsks(s, table[s]), second.a)
      modifies `st, `modules
      ensures Here(j) && Grown(j.basis, j.a, st) && s in st && st[s].valid && Good(s, st[s], j.Goal())
      decreases j.n, 7, 0
    {
      ghost var mid := st;
      st := Reset(st, s);
      var v := CalcCurr(s, f, SecondJob(j, s, mid), VisibilityAsks(s, table[s]));
      LastStep(j, first, s, mid, st, v);
      st := st[s := v];
    }

    ghost function FullBasis(): Basis
      reads this`user, this`run, this`goal
    {
      Basis(table, goal, user, ModesOf(run, modulesSym), table.Keys)
    }

    /** Every symbol is as the last recalculation has it, or not calculated yet. */
    ghost predicate Usable()
      reads this
    {
      && Fixed() && Synced() && Recalculation(table, modulesSym, user, run, goal) && modules == run.next
      && run.kept <= ValidOnes(st)
      && forall x :: x in st && st[x].valid ==> Right(FullBasis(), x, st[x], st)
    }

    /** The state that sym_clear_all_valid leaves, from the given modules_val: exactly the symbols that MODULES has asked
        for are valid, and modules_val is now the value of MODULES. */
    ghost predicate Cleared(mod: bool)
      reads this
    {
      Usable() && run.mod == mod && ValidOnes(st) == run.kept
    }

    /** The calculation of a symbol with k as what may be asked for. */
    ghost function JobHere(s: Symbol, k: set<Symbol>): Job
      requires NoCycles(table) && s in table
      reads this
    {
      Job(Basis(table, goal, user, ModesOf(run, modulesSym), k), modulesSym, modules, OrderFor(table),
          Rank(OrderFor(table), s), st)
    }

    /** sym_clear_all_valid. */
    method ClearAllValid()
      requires Fixed() && Synced()
      modifies `st, `modules, `run, `goal
      ensures Cleared(old(modules))
    {
      Invalidate();
      run, goal := RecalculationExists(table, modulesSym, user, modules);
      JobStarts();
      CalcModules();
    }

    /** The loop that makes all symbols invalid. */
    method Invalidate()
      requires Fixed() && Synced()
      modifies `st
      ensures Synced() && ValidOnes(st) == {}
    {
      st := Invalid(st);
    }

    lemma JobStarts()
      requires Fixed() && Synced() && ValidOnes(st) == {} && run.mod == modules
      requires Recalculation(table, modulesSym, user, run, goal)
      ensures Opening(JobHere(modulesSym, run.kept), run, modulesSym)
    {
      NotValid(st, modulesSym);
    }

    method CalcModules()
      requires Fixed() && modulesSym in st && Opening(JobHere(modulesSym, run.kept), run, modulesSym)
      modifies `st, `modules
      ensures Cleared(old(modules))
    {
      ghost var j := JobHere(modulesSym, run.kept);
      CalcValue(modulesSym, j);
      NowUsable(j);
    }

    lemma NowUsable(j: Job)
      requires Fixed() && Starting(j, run) && j.basis == Basis(table, goal, user, ModesOf(run, modulesSym), run.kept)
      requires j.m == modulesSym && Grown(j.basis, j.a, st) && modulesSym in st && st[modulesSym].valid
      requires modules == On(goal, modulesSym)
      ensures Usable() && ValidOnes(st) == run.kept
    {
      KeptIsValid(j, run, st);
      assert Good(modulesSym, st[modulesSym], goal);
      forall x | x in st && st[x].valid ensures Right(FullBasis(), x, st[x], st) {
        assert x in ValidOnes(st);
      }
    }

    /** sym_calc_value after sym_clear_all_valid.  In whatever order the symbols are calculated, all values belong to one
        and the same recalculation. */
    method Calc(s: Symbol)
      requires Usable() && s in table
      modifies `st, `modules
      ensures Usable() && modules == old(modules) && st[s].valid && Good(s, st[s], goal)
      ensures Keeps(old(st), st)
    {
      ghost var j := JobHere(s, table.Keys);
      ReadyFor(s);
      CalcValue(s, j);
      StillUsable(j);
    }

    lemma ReadyFor(s: Symbol)
      requires Usable() && s in table
      ensures var j := JobHere(s, table.Keys);
              if st[s].valid then Good(s, st[s], j.Goal()) else s != modulesSym && Opening(j, run, s)
      ensures modulesSym in st && st[modulesSym].valid
    {
      assert modulesSym in run.kept && modulesSym in ValidOnes(st);
      assert s in OrderFor(table);
      KeysClosed(table, goal, user, ModesOf(run, modulesSym));
      forall x | x in st && !st[x].valid ensures ModeOf(run, modulesSym, x) == Mode(modules, modules, modules) {
        assert x !in ValidOnes(st);
      }
    }

    lemma StillUsable(j: Job)
      requires Fixed() && Recalculation(table, modulesSym, user, run, goal) && modules == run.next
      requires j.basis == FullBasis() && Grown(j.basis, j.a, st) && modules == OnIn(j.a, modulesSym)
      requires run.kept <= ValidOnes(j.a) && modulesSym in j.a && j.a[modulesSym].valid
      requires forall x :: x in j.a && j.a[x].valid ==> Right(FullBasis(), x, j.a[x], j.a)
      ensures Usable()
    {
      assert st[modulesSym] == j.a[modulesSym];
      forall x | x in run.kept ensures x in ValidOnes(st) {
        assert x in ValidOnes(j.a);
      }
      assert forall y :: y in j.a && j.a[y].valid ==> y in st && st[y].valid;
      forall x | x in st && st[x].valid ensures Right(FullBasis(), x, st[x], st) {
        if j.a[x].valid {
          RightStays(FullBasis(), x, j.a[x], j.a, st);
        }
      }
    }

    /** sym_tristate_within_range, on the stored visibility and selection. */
    predicate TristateWithinRange(s: Symbol, val: Tri)
      reads this`st, this`modules
      requires s in st
    {
      InRange(st[s].fields.visible, st[s].fields.selected, GetType(s, modules), val)
    }

    /** sym_set_tristate_value: a new value must lie within the range; setting one starts a recalculation. */
    method SetTristateValue(s: Symbol, val: Tri) returns (ok: bool)
      requires Fixed() && Synced() && s in table
      modifies this
      ensures ok <==> old(st)[s].tri == val || old(TristateWithinRange(s, val))
      ensures user == if ok then SetUser(old(user), s, val) else old(user)
      ensures if ok && old(st)[s].tri != val then Cleared(old(modules))
              else st == old(st) && modules == old(modules) && run == old(run) && goal == old(goal)
    {
      var oldval := st[s].tri;
      if oldval != val && !TristateWithinRange(s, val) {
        return false;
      }
      user := SetUser(user, s, val);
      if oldval != val {
        ClearAllValid();
      }
      ok := true;
    }

    /** sym_set_tristate_value and then sym_calc_value, for a symbol that has been calculated in the last recalculation; r
        and c are what another one without the change would leave.  A new value is accepted if and only if it lies within
        the range as stored, and it is the value of the symbol then if and only if it lasts; that is always so if the last
        recalculation did not change modules_val. */
    method SetAndCalc(s: Symbol, val: Tri, ghost r: Recalc, ghost c: Cfg) returns (ok: bool)
      requires Usable() && s in table && s.Config? && IsTriType(s.Type()) && st[s].valid
      requires Recalculation(table, modulesSym, user, r, c) && r.mod == modules
      modifies this
      ensures ok <==> TriOf(old(goal), s) == val || Accepts(table, modulesSym, old(run), old(goal), s, val)
      ensures ok && TriOf(old(goal), s) != val ==>
                && Usable() && st[s].valid && (st[s].tri == val <==> Lasts(table, modulesSym, r, c, s, val))
                && (old(run).mod == old(run).next ==> st[s].tri == val)
    {
      StoredRange(s, val);
      var oldval := st[s].tri;
      ghost var before := Setting(user, run, goal, r, c);
      ok := SetTristateValue(s, val);
      if ok && oldval != val {
        AcceptedIsYielded(table, modulesSym, before.user, s, val, before.run, before.goal, r, c, run, goal);
        CalcSet(s, val, before);
      }
    }

    /** The second half of that. */
    method CalcSet(s: Symbol, val: Tri, ghost b: Setting)
      requires Usable() && s in table && Outcome(b, s, val)
      modifies `st, `modules
      ensures Usable() && st[s].valid && (st[s].tri == val <==> Lasts(table, modulesSym, b.r, b.c, s, val))
      ensures b.run.mod == b.run.next ==> st[s].tri == val
    {
      Calc(s);
    }

    ghost predicate Outcome(b: Setting, s: Symbol, val: Tri)
      requires s in table
      reads this`goal
    {
      && (TriOf(goal, s) == val <==> Lasts(table, modulesSym, b.r, b.c, s, val))
      && (b.run.mod == b.run.next ==> TriOf(goal, s) == val)
    }

    lemma StoredRange(s: Symbol, val: Tri)
      requires Usable() && s in table && s.Config? && IsTriType(s.Type()) && st[s].valid
      ensures st[s].tri == TriOf(goal, s) && Synced()
      ensures TristateWithinRange(s, val) == Accepts(table, modulesSym, run, goal, s, val)
    {
      assert Right(FullBasis(), s, st[s], st);
    }
  }
}
