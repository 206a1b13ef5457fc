/** The value of a symbol: sym_calc_visibility, sym_calc_value and sym_get_string_value for symbols outside choice groups
    (support/kconfig/symbol.c:63-74, 115-125, 189-227, 293-440, 760-781).

    The stored values are a configuration (KExpr.Cfg) with modules, so that a tristate symbol can be any of n, m and y.
    What the calculation of a symbol takes from MODULES is a parameter of its own. */
module SymCalc {
  import opened KExpr
  import opened CycleCheck

  /** The values the user has set: SYMBOL_DEF_USER and def[S_DEF_USER]. */
  datatype User = User(tri: map<Symbol, Tri>, text: map<Symbol, string>)

  /** The state of MODULES when a symbol is calculated: whether modules_val is not n; and whether the value stored for
      MODULES is not n, while the visibility and then while the default of the symbol is looked at. */
  datatype Mode = Mode(mod: bool, on: bool, later: bool)

  // ---------------------------------------------------------------------------------------------------------
  // Reading values
  // ---------------------------------------------------------------------------------------------------------

  /** sym_get_string_value: as long as MODULES is n, an m is read as n. */
  function ReadText(c: Cfg, s: Symbol, on: bool): string {
    if s.Type() == Tristate && TriOf(c, s) == MOD && !on then "n" else TextOf(c, s)
  }

  /** expr_calc_value on stored values. */
  function EvalAs(e: Expr, c: Cfg, on: bool): Tri {
    match e
    case Sym(s) => TriOf(c, s)
    case Cmp(equal, l, r) => if (ReadText(c, l, on) == ReadText(c, r, on)) == equal then YES else NO
    case Not(x) => 2 - EvalAs(x, c, on)
    case Bin(op, l, r) => Join(op, EvalAs(l, c, on), EvalAs(r, c, on))
  }

  function EvalOptAs(e: Option<Expr>, c: Cfg, on: bool): Tri {
    match e
    case None => YES
    case Some(x) => EvalAs(x, c, on)
  }

  /** As long as MODULES is not n, expressions have their values in the configuration. */
  lemma {:induction false} EvalAsOn(e: Expr, c: Cfg)
    ensures EvalAs(e, c, true) == Eval(e, c)
  {
    match e
    case Sym(_) =>
    case Cmp(_, _, _) =>
    case Not(x) =>
      EvalAsOn(x, c);
    case Bin(_, l, r) =>
      EvalAsOn(l, c);
      EvalAsOn(r, c);
  }

  /** Without tristate symbols it makes no difference. */
  lemma {:induction false} EvalAsAny(e: Expr, c: Cfg, on: bool)
    requires forall s :: s in SymbolsOf(e) ==> s.Type() != Tristate
    ensures EvalAs(e, c, on) == EvalAs(e, c, true)
  {
    match e
    case Sym(_) =>
    case Cmp(_, l, r) =>
      assert l in SymbolsOf(e) && r in SymbolsOf(e);
    case Not(x) =>
      EvalAsAny(x, c, on);
    case Bin(_, l, r) =>
      EvalAsAny(l, c, on);
      EvalAsAny(r, c, on);
  }

  // ---------------------------------------------------------------------------------------------------------
  // One symbol
  // ---------------------------------------------------------------------------------------------------------

  predicate IsTriType(ty: SymType) {
    ty == Boolean || ty == Tristate
  }

  /** sym_get_type: without modules a tristate symbol is boolean. */
  function GetType(s: Symbol, mod: bool): SymType {
    if s.Type() == Tristate && !mod then Boolean else s.Type()
  }

  predicate IsPrompt(p: Prop) {
    p.kind == Prompt || p.kind == Comment || p.kind == MenuProp
  }

  function PromptVisibility(props: seq<Prop>, c: Cfg, on: bool): Tri {
    if props == [] then NO
    else
      var rest := PromptVisibility(props[..|props| - 1], c, on);
      var p := props[|props| - 1];
      if IsPrompt(p) then Join(Or, rest, EvalOptAs(p.visible, c, on)) else rest
  }

  /** sym->visible. */
  function Visible(s: Symbol, info: SymInfo, c: Cfg, mode: Mode): Tri {
    var v := PromptVisibility(info.props, c, mode.on);
    if v == MOD && (s.Type() != Tristate || !mode.mod) then YES else v
  }

  /** sym->rev_dep.tri. */
  function Selected(s: Symbol, info: SymInfo, c: Cfg, mode: Mode): Tri {
    var v := if info.revDep.Some? then EvalAs(info.revDep.value, c, mode.on) else NO;
    if v == MOD && GetType(s, mode.mod) == Boolean then YES else v
  }

  /** sym->dir_dep.tri, which decides only about a warning. */
  function Direct(info: SymInfo, c: Cfg, on: bool): Tri {
    var v := EvalOptAs(info.dirDep, c, on);
    if v == MOD then YES else v
  }

  /** A default that can be used. */
  predicate Applies(p: Prop, c: Cfg, on: bool) {
    p.kind == Default && EvalOptAs(p.visible, c, on) != NO
  }

  /** sym_get_default_prop: the first default that is visible. */
  function DefaultProp(props: seq<Prop>, c: Cfg, on: bool): Option<Prop> {
    if props == [] then None
    else if Applies(props[0], c, on) then Some(props[0])
    else DefaultProp(props[1..], c, on)
  }

  function DefaultTri(info: SymInfo, c: Cfg, on: bool): Tri {
    match DefaultProp(info.props, c, on)
    case None => NO
    case Some(p) => Join(And, EvalOptAs(p.expr, c, on), EvalOptAs(p.visible, c, on))
  }

  /** sym_calc_value for a boolean or tristate symbol. */
  function CalcTri(s: Symbol, info: SymInfo, c: Cfg, user: User, mode: Mode): Tri {
    var visible := Visible(s, info, c, mode);
    var own := if visible != NO && s in user.tri then Join(And, user.tri[s], visible) else DefaultTri(info, c, mode.later);
    var v := Join(Or, own, Selected(s, info, c, mode));
    if v == MOD && GetType(s, mode.mod) == Boolean then YES else v
  }

  /** What `curr.val` of a symbol holds; for a boolean or tristate symbol it stays "n". */
  function CurrVal(s: Symbol, c: Cfg): string {
    if IsTriType(s.Type()) then "n" else TextOf(c, s)
  }

  /** sym_calc_value for a symbol of another type. */
  function CalcText(s: Symbol, info: SymInfo, c: Cfg, user: User, mode: Mode): string {
    if s.Type() == Unknown then (if s.Config? then s.name else "")
    else if PromptVisibility(info.props, c, mode.on) != NO && s in user.text then user.text[s]
    else
      match DefaultProp(info.props, c, mode.later)
      case None => ""
      case Some(p) => if p.expr.Some? && p.expr.value.Sym? then CurrVal(p.expr.value.s, c) else ""
  }

  /** The value of s is what sym_calc_value computes. */
  predicate Computed(s: Symbol, info: SymInfo, c: Cfg, user: User, mode: Mode) {
    s.Config? ==>
      if IsTriType(s.Type()) then TriOf(c, s) == CalcTri(s, info, c, user, mode)
      else TextOf(c, s) == CalcText(s, info, c, user, mode)
  }

  /** The calculation never leaves m in a symbol that is effectively boolean. */
  lemma CalcNeverModForBoolean(s: Symbol, info: SymInfo, c: Cfg, user: User, mode: Mode)
    requires IsTriType(s.Type())
    ensures CalcTri(s, info, c, user, mode) == MOD ==> s.Type() == Tristate && mode.mod
  {
    assert GetType(s, mode.mod) != Boolean ==> s.Type() == Tristate && mode.mod;
  }

  /** A symbol is never below what selects it; an invisible one ignores the user; and where the user has set a visible
      one, its value is at most the larger of its visibility and what selects it. */
  lemma CalcTriBounds(s: Symbol, info: SymInfo, c: Cfg, user: User, user': User, mode: Mode)
    requires IsTriType(s.Type())
    ensures Selected(s, info, c, mode) <= CalcTri(s, info, c, user, mode)
    ensures Visible(s, info, c, mode) == NO ==> CalcTri(s, info, c, user, mode) == CalcTri(s, info, c, user', mode)
    ensures Visible(s, info, c, mode) != NO && s in user.tri ==>
              CalcTri(s, info, c, user, mode) <= Join(Or, Visible(s, info, c, mode), Selected(s, info, c, mode))
  {
  }

  /** The visibility of the prompts is the strongest of them: of the prompts proper, of comments and of menus. */
  lemma {:induction false} PromptIsMaximum(props: seq<Prop>, c: Cfg, on: bool)
    ensures forall p :: p in props && p.kind in {Prompt, Comment, MenuProp} ==>
                          EvalOptAs(p.visible, c, on) <= PromptVisibility(props, c, on)
    ensures PromptVisibility(props, c, on) != NO ==>
              exists p :: p in props && p.kind in {Prompt, Comment, MenuProp}
                          && EvalOptAs(p.visible, c, on) == PromptVisibility(props, c, on)
  {
    if props != [] {
      var last := |props| - 1;
      PromptIsMaximum(props[..last], c, on);
      assert props == props[..last] + [props[last]];
      var v, rest := PromptVisibility(props, c, on), PromptVisibility(props[..last], c, on);
      if v == rest && v != NO {
        var p :| p in props[..last] && p.kind in {Prompt, Comment, MenuProp} && EvalOptAs(p.visible, c, on) == rest;
        assert p in props;
      }
    }
  }

  /** m stands for y unless the symbol can be m. */
  function Promoted(v: Tri, definite: bool): Tri {
    if v == MOD && definite then YES else v
  }

  /** Visibility, selection and direct dependency are the values of what they come from, up to m for y. */
  lemma FieldsAre(s: Symbol, info: SymInfo, c: Cfg, mode: Mode)
    ensures var definite := s.Type() != Tristate || !mode.mod;
            && Visible(s, info, c, mode) == Promoted(PromptVisibility(info.props, c, mode.on), definite)
            && (IsTriType(s.Type()) ==>
                  Selected(s, info, c, mode) ==
                  Promoted(if info.revDep.None? then NO else EvalAs(info.revDep.value, c, mode.on), definite))
            && (Direct(info, c, mode.on) == NO <==> EvalOptAs(info.dirDep, c, mode.on) == NO)
            && Direct(info, c, mode.on) != MOD
  {
  }

  /** What a default is worth: where no value of the user counts, and p is the default that applies, the value is at most
      what p is visible, and at most what its expression is, unless the symbol is selected more strongly; and it is at
      least the smaller of the two. */
  lemma DefaultBounds(s: Symbol, info: SymInfo, c: Cfg, user: User, mode: Mode, p: Prop)
    requires IsTriType(s.Type()) && !UserCounts(s, info, c, user, mode.on)
    requires DefaultProp(info.props, c, mode.later) == Some(p)
    ensures var v, selected := CalcTri(s, info, c, user, mode), Selected(s, info, c, mode);
            var shown, worth := EvalOptAs(p.visible, c, mode.later), EvalOptAs(p.expr, c, mode.later);
            var definite := s.Type() != Tristate || !mode.mod;
            && v <= Promoted(Join(Or, selected, shown), definite) && v <= Promoted(Join(Or, selected, worth), definite)
            && v >= Join(And, shown, worth)
  {
    UserIsVisible(s, info, c, user, mode);
  }

  /** Without a default that applies it is what the symbol is selected to. */
  lemma NoDefault(s: Symbol, info: SymInfo, c: Cfg, user: User, mode: Mode)
    requires IsTriType(s.Type()) && !UserCounts(s, info, c, user, mode.on)
    requires forall p :: p in info.props ==> !Applies(p, c, mode.later)
    ensures CalcTri(s, info, c, user, mode) == Selected(s, info, c, mode)
  {
    UserIsVisible(s, info, c, user, mode);
    NothingApplies(info.props, c, mode.later);
  }

  lemma UserIsVisible(s: Symbol, info: SymInfo, c: Cfg, user: User, mode: Mode)
    requires IsTriType(s.Type())
    ensures UserCounts(s, info, c, user, mode.on) <==> Visible(s, info, c, mode) != NO && s in user.tri
  {
  }

  lemma {:induction false} NothingApplies(props: seq<Prop>, c: Cfg, on: bool)
    ensures DefaultProp(props, c, on).None? <==> forall p :: p in props ==> !Applies(p, c, on)
  {
    if props != [] {
      assert props == [props[0]] + props[1..];
      NothingApplies(props[1..], c, on);
    }
  }

  /** A symbol of another type has the text that the user has set, if it is visible; whatever that is, if it is not; and by
      default the text of the symbol that its default names. */
  lemma TextIs(s: Symbol, info: SymInfo, c: Cfg, user: User, user': User, mode: Mode)
    requires !IsTriType(s.Type()) && s.Type() != Unknown
    ensures UserCounts(s, info, c, user, mode.on) ==> CalcText(s, info, c, user, mode) == user.text[s]
    ensures PromptVisibility(info.props, c, mode.on) == NO ==>
              CalcText(s, info, c, user, mode) == CalcText(s, info, c, user', mode)
    ensures forall p :: !UserCounts(s, info, c, user, mode.on) && DefaultProp(info.props, c, mode.later) == Some(p)
                        && p.expr.Some? && p.expr.value.Sym? && !IsTriType(p.expr.value.s.Type()) ==>
                          CalcText(s, info, c, user, mode) == TextOf(c, p.expr.value.s)
    ensures !UserCounts(s, info, c, user, mode.on) && (forall p :: p in info.props ==> !Applies(p, c, mode.later)) ==>
              CalcText(s, info, c, user, mode) == ""
  {
    NothingApplies(info.props, c, mode.later);
  }

  /** The default that applies is the first one in the list that is visible. */
  lemma {:induction false} DefaultIsFirst(props: seq<Prop>, c: Cfg, on: bool, i: nat)
    requires i < |props| && forall j :: 0 <= j < i ==> !Applies(props[j], c, on)
    ensures Applies(props[i], c, on) ==> DefaultProp(props, c, on) == Some(props[i])
    ensures DefaultProp(props, c, on).None? ==> !Applies(props[i], c, on)
    decreases i
  {
    if i > 0 {
      assert !Applies(props[0], c, on);
      DefaultIsFirst(props[1..], c, on, i - 1);
    } else if DefaultProp(props, c, on).None? {
      assert !Applies(props[0], c, on);
    }
  }

  // ---------------------------------------------------------------------------------------------------------
  // What a value depends on
  // ---------------------------------------------------------------------------------------------------------

  /** The two configurations give the symbol the same value. */
  predicate SameAt(s: Symbol, c: Cfg, d: Cfg) {
    TriOf(c, s) == TriOf(d, s) && TextOf(c, s) == TextOf(d, s)
  }

  ghost predicate SameOn(symbols: set<Symbol>, c: Cfg, d: Cfg) {
    forall s :: s in symbols ==> SameAt(s, c, d)
  }

  function PromptUsed(props: seq<Prop>): set<Symbol> {
    if props == [] then {}
    else
      var p := props[|props| - 1];
      PromptUsed(props[..|props| - 1]) + if IsPrompt(p) then SymbolsOfOpt(p.visible) else {}
  }

  function ExprUsed(p: Prop, tri: bool): set<Symbol> {
    if tri then SymbolsOfOpt(p.expr)
    else if p.expr.Some? && p.expr.value.Sym? then {p.expr.value.s}
    else {}
  }

  /** Defaults are looked at only up to the first that is visible. */
  function DefaultUsed(props: seq<Prop>, c: Cfg, on: bool, tri: bool): set<Symbol> {
    if props == [] then {}
    else if props[0].kind != Default then DefaultUsed(props[1..], c, on, tri)
    else
      SymbolsOfOpt(props[0].visible)
      + if Applies(props[0], c, on) then ExprUsed(props[0], tri) else DefaultUsed(props[1..], c, on, tri)
  }

  /** The user has set the symbol, and it is visible. */
  predicate UserCounts(s: Symbol, info: SymInfo, c: Cfg, user: User, on: bool) {
    PromptVisibility(info.props, c, on) != NO && if IsTriType(s.Type()) then s in user.tri else s in user.text
  }

  /** What sym_calc_visibility asks for. */
  function FirstAsked(info: SymInfo): set<Symbol> {
    PromptUsed(info.props) + SymbolsOfOpt(info.dirDep) + SymbolsOfOpt(info.revDep)
  }

  /** The symbols that sym_calc_value asks for while it calculates s. */
  function Used(s: Symbol, info: SymInfo, c: Cfg, user: User, mode: Mode): set<Symbol> {
    if s.Type() == Unknown then {}
    else
      FirstAsked(info)
      + if UserCounts(s, info, c, user, mode.on) then {}
        else DefaultUsed(info.props, c, mode.later, IsTriType(s.Type()))
  }

  lemma {:induction false} EvalSame(e: Expr, c: Cfg, d: Cfg, on: bool)
    requires SameOn(SymbolsOf(e), c, d)
    ensures EvalAs(e, c, on) == EvalAs(e, d, on)
  {
    match e
    case Sym(s) =>
      assert SameAt(s, c, d);
    case Cmp(_, l, r) =>
      assert SameAt(l, c, d) && SameAt(r, c, d);
    case Not(x) =>
      EvalSame(x, c, d, on);
    case Bin(_, l, r) =>
      EvalSame(l, c, d, on);
      EvalSame(r, c, d, on);
  }

  lemma EvalOptSame(e: Option<Expr>, c: Cfg, d: Cfg, on: bool)
    requires SameOn(SymbolsOfOpt(e), c, d)
    ensures EvalOptAs(e, c, on) == EvalOptAs(e, d, on)
  {
    if e.Some? {
      EvalSame(e.value, c, d, on);
    }
  }

  lemma {:induction false} PromptsSame(props: seq<Prop>, c: Cfg, d: Cfg, on: bool)
    requires SameOn(PromptUsed(props), c, d)
    ensures PromptVisibility(props, c, on) == PromptVisibility(props, d, on)
  {
    if props != [] {
      var last := |props| - 1;
      PromptsSame(props[..last], c, d, on);
      if IsPrompt(props[last]) {
        EvalOptSame(props[last].visible, c, d, on);
      }
    }
  }

  /** The default is the same, and so is what is made of it. */
  lemma {:induction false} DefaultSame(props: seq<Prop>, c: Cfg, d: Cfg, on: bool, tri: bool)
    requires SameOn(DefaultUsed(props, c, on, tri), c, d)
    ensures DefaultProp(props, c, on) == DefaultProp(props, d, on)
    ensures DefaultUsed(props, c, on, tri) == DefaultUsed(props, d, on, tri)
    ensures var p := DefaultProp(props, c, on);
            p.Some? ==>
              && SameOn(ExprUsed(p.value, tri), c, d)
              && EvalOptAs(p.value.visible, c, on) == EvalOptAs(p.value.visible, d, on)
  {
    if props != [] {
      if props[0].kind == Default {
        EvalOptSame(props[0].visible, c, d, on);
      }
      if !Applies(props[0], c, on) {
        DefaultSame(props[1..], c, d, on, tri);
      }
    }
  }

  ghost predicate SameUserAt(s: Symbol, u: User, v: User) {
    && (s in u.tri <==> s in v.tri) && (s in u.tri ==> u.tri[s] == v.tri[s])
    && (s in u.text <==> s in v.text) && (s in u.text ==> u.text[s] == v.text[s])
  }

  /** What is asked for gives the same answers, ... */
  lemma AnswersAgree(s: Symbol, info: SymInfo, c: Cfg, d: Cfg, user: User, user': User, mode: Mode)
    requires SameOn(Used(s, info, c, user, mode), c, d) && SameUserAt(s, user, user') && s.Type() != Unknown
    ensures PromptVisibility(info.props, c, mode.on) == PromptVisibility(info.props, d, mode.on)
    ensures EvalOptAs(info.revDep, c, mode.on) == EvalOptAs(info.revDep, d, mode.on)
    ensures UserCounts(s, info, c, user, mode.on) == UserCounts(s, info, d, user', mode.on)
    ensures !UserCounts(s, info, c, user, mode.on) ==>
              SameOn(DefaultUsed(info.props, c, mode.later, IsTriType(s.Type())), c, d)
  {
    PromptsSame(info.props, c, d, mode.on);
    EvalOptSame(info.revDep, c, d, mode.on);
  }

  lemma TextAgrees(s: Symbol, info: SymInfo, c: Cfg, d: Cfg, user: User, user': User, mode: Mode)
    requires SameOn(Used(s, info, c, user, mode), c, d) && SameUserAt(s, user, user')
    requires !IsTriType(s.Type()) && s.Type() != Unknown
    ensures CalcText(s, info, c, user, mode) == CalcText(s, info, d, user', mode)
  {
    AnswersAgree(s, info, c, d, user, user', mode);
    if !UserCounts(s, info, c, user, mode.on) {
      DefaultsAgree(s, info, c, d, mode.later);
    }
  }

  lemma TriAgrees(s: Symbol, info: SymInfo, c: Cfg, d: Cfg, user: User, user': User, mode: Mode)
    requires SameOn(Used(s, info, c, user, mode), c, d) && SameUserAt(s, user, user') && IsTriType(s.Type())
    ensures CalcTri(s, info, c, user, mode) == CalcTri(s, info, d, user', mode)
  {
    AnswersAgree(s, info, c, d, user, user', mode);
    if !UserCounts(s, info, c, user, mode.on) {
      DefaultsAgree(s, info, c, d, mode.later);
    }
  }

  /** ... and so values agree if they agree for the symbols asked for, and then the same symbols are asked for. */
  lemma UsedDecides(s: Symbol, info: SymInfo, c: Cfg, d: Cfg, user: User, user': User, mode: Mode)
    requires SameOn(Used(s, info, c, user, mode), c, d) && SameUserAt(s, user, user')
    ensures Computed(s, info, c, user, mode) && Computed(s, info, d, user', mode) ==> SameAt(s, c, d)
    ensures Used(s, info, c, user, mode) == Used(s, info, d, user', mode)
  {
    if s.Type() != Unknown {
      AnswersAgree(s, info, c, d, user, user', mode);
      if !UserCounts(s, info, c, user, mode.on) {
        DefaultsAgree(s, info, c, d, mode.later);
      }
      if IsTriType(s.Type()) {
        TriAgrees(s, info, c, d, user, user', mode);
      } else {
        TextAgrees(s, info, c, d, user, user', mode);
      }
    }
  }

  lemma DefaultsAgree(s: Symbol, info: SymInfo, c: Cfg, d: Cfg, on: bool)
    requires SameOn(DefaultUsed(info.props, c, on, IsTriType(s.Type())), c, d)
    ensures DefaultUsed(info.props, c, on, IsTriType(s.Type())) == DefaultUsed(info.props, d, on, IsTriType(s.Type()))
    ensures DefaultProp(info.props, c, on) == DefaultProp(info.props, d, on)
    ensures IsTriType(s.Type()) ==> DefaultTri(info, c, on) == DefaultTri(info, d, on)
    ensures var p := DefaultProp(info.props, c, on);
            !IsTriType(s.Type()) && p.Some? && p.value.expr.Some? && p.value.expr.value.Sym? ==>
              CurrVal(p.value.expr.value.s, c) == CurrVal(p.value.expr.value.s, d)
  {
    DefaultSame(info.props, c, d, on, IsTriType(s.Type()));
    var p := DefaultProp(info.props, c, on);
    if p.Some? {
      if IsTriType(s.Type()) {
        EvalOptSame(p.value.expr, c, d, on);
      } else if p.value.expr.Some? && p.value.expr.value.Sym? {
        assert SameAt(p.value.expr.value.s, c, d);
      }
    }
  }

  lemma {:induction false} PromptUsedIsDep(props: seq<Prop>)
    ensures PromptUsed(props) <= PropsDeps(props)
  {
    if props != [] {
      PromptUsedIsDep(props[..|props| - 1]);
    }
  }

  lemma {:induction false} DefaultUsedIsDep(props: seq<Prop>, all: seq<Prop>, c: Cfg, on: bool, tri: bool)
    requires forall i :: 0 <= i < |props| ==> PropDeps(props[i]) <= PropsDeps(all)
    ensures DefaultUsed(props, c, on, tri) <= PropsDeps(all)
  {
    if props != [] {
      DefaultUsedIsDep(props[1..], all, c, on, tri);
      assert props[0].kind == Default ==>
               SymbolsOfOpt(props[0].visible) + ExprUsed(props[0], tri) <= PropDeps(props[0]);
    }
  }

  /** The direct dependencies count as well. */
  function AllDeps(info: SymInfo): set<Symbol> {
    Deps(info) + SymbolsOfOpt(info.dirDep)
  }

  function AllGraph(table: Table): Graph {
    map s | s in table :: AllDeps(table[s])
  }

  /** If they are among the dependencies that the check reads, then this is the graph that is checked. */
  lemma GraphIsChecked(table: Table)
    requires forall s :: s in table ==> SymbolsOfOpt(table[s].dirDep) <= Deps(table[s])
    ensures AllGraph(table) == GraphOf(table)
  {
    forall s | s in table ensures AllDeps(table[s]) == Deps(table[s]) {
    }
  }

  /** Only dependencies are asked for. */
  lemma UsedIsDep(s: Symbol, info: SymInfo, c: Cfg, user: User, mode: Mode)
    ensures Used(s, info, c, user, mode) <= AllDeps(info)
  {
    PromptUsedIsDep(info.props);
    forall i | 0 <= i < |info.props| ensures PropDeps(info.props[i]) <= PropsDeps(info.props) {
      PropsDepsStep(info.props, i);
    }
    DefaultUsedIsDep(info.props, info.props, c, mode.later, IsTriType(s.Type()));
  }

  /** Visibility, selection and value of a tristate symbol depend only on its dependencies. */
  lemma CalcSame(s: Symbol, info: SymInfo, c: Cfg, d: Cfg, user: User, mode: Mode)
    requires IsTriType(s.Type()) && SameOn(Deps(info), c, d)
    ensures Visible(s, info, c, mode) == Visible(s, info, d, mode)
    ensures Selected(s, info, c, mode) == Selected(s, info, d, mode)
    ensures CalcTri(s, info, c, user, mode) == CalcTri(s, info, d, user, mode)
  {
    PromptUsedIsDep(info.props);
    PromptsSame(info.props, c, d, mode.on);
    EvalOptSame(info.revDep, c, d, mode.on);
    forall i | 0 <= i < |info.props| ensures PropDeps(info.props[i]) <= PropsDeps(info.props) {
      PropsDepsStep(info.props, i);
    }
    DefaultUsedIsDep(info.props, info.props, c, mode.later, true);
    DefaultsAgree(s, info, c, d, mode.later);
  }

  // ---------------------------------------------------------------------------------------------------------
  // Symbols without tristate dependencies
  // ---------------------------------------------------------------------------------------------------------

  ghost predicate NoTristate(symbols: set<Symbol>) {
    forall x :: x in symbols ==> x.Type() != Tristate
  }

  lemma OptAny(e: Option<Expr>, c: Cfg, on: bool)
    requires NoTristate(SymbolsOfOpt(e))
    ensures EvalOptAs(e, c, on) == EvalOptAs(e, c, true)
  {
    if e.Some? {
      EvalAsAny(e.value, c, on);
    }
  }

  lemma {:induction false} PromptsAny(props: seq<Prop>, c: Cfg, on: bool)
    requires NoTristate(PromptUsed(props))
    ensures PromptVisibility(props, c, on) == PromptVisibility(props, c, true)
  {
    if props != [] {
      var last := |props| - 1;
      PromptsAny(props[..last], c, on);
      if IsPrompt(props[last]) {
        OptAny(props[last].visible, c, on);
      }
    }
  }

  lemma {:induction false} DefaultsAny(props: seq<Prop>, all: seq<Prop>, c: Cfg, on: bool, tri: bool)
    requires NoTristate(PropsDeps(all)) && forall i :: 0 <= i < |props| ==> PropDeps(props[i]) <= PropsDeps(all)
    ensures DefaultProp(props, c, on) == DefaultProp(props, c, true)
    ensures DefaultUsed(props, c, on, tri) == DefaultUsed(props, c, true, tri)
    ensures var p := DefaultProp(props, c, on);
            p.Some? ==> p.value.kind == Default && PropDeps(p.value) <= PropsDeps(all)
  {
    if props != [] {
      if props[0].kind == Default {
        OptAny(props[0].visible, c, on);
      }
      DefaultsAny(props[1..], all, c, on, tri);
    }
  }

  /** What such a symbol asks for and its value do not depend on MODULES. */
  lemma AnyMode(s: Symbol, info: SymInfo, c: Cfg, user: User, mode: Mode, mode': Mode)
    requires s.Type() != Tristate && NoTristate(Deps(info))
    ensures Computed(s, info, c, user, mode) == Computed(s, info, c, user, mode')
    ensures Used(s, info, c, user, mode) == Used(s, info, c, user, mode')
  {
    LikeOn(s, info, c, user, mode);
    LikeOn(s, info, c, user, mode');
  }

  lemma LikeOn(s: Symbol, info: SymInfo, c: Cfg, user: User, mode: Mode)
    requires s.Type() != Tristate && NoTristate(Deps(info))
    ensures Computed(s, info, c, user, mode) == Computed(s, info, c, user, Mode(true, true, true))
    ensures Used(s, info, c, user, mode) == Used(s, info, c, user, Mode(true, true, true))
  {
    AnswersLikeOn(s, info, c, mode);
    if IsTriType(s.Type()) {
      assert CalcTri(s, info, c, user, mode) == CalcTri(s, info, c, user, Mode(true, true, true));
    } else {
      assert CalcText(s, info, c, user, mode) == CalcText(s, info, c, user, Mode(true, true, true));
    }
  }

  lemma AnswersLikeOn(s: Symbol, info: SymInfo, c: Cfg, mode: Mode)
    requires s.Type() != Tristate && NoTristate(Deps(info))
    ensures PromptVisibility(info.props, c, mode.on) == PromptVisibility(info.props, c, true)
    ensures EvalOptAs(info.revDep, c, mode.on) == EvalOptAs(info.revDep, c, true)
    ensures DefaultProp(info.props, c, mode.later) == DefaultProp(info.props, c, true)
    ensures DefaultUsed(info.props, c, mode.later, IsTriType(s.Type()))
            == DefaultUsed(info.props, c, true, IsTriType(s.Type()))
    ensures DefaultTri(info, c, mode.later) == DefaultTri(info, c, true)
  {
    PromptUsedIsDep(info.props);
    PromptsAny(info.props, c, mode.on);
    OptAny(info.revDep, c, mode.on);
    forall i | 0 <= i < |info.props| ensures PropDeps(info.props[i]) <= PropsDeps(info.props) {
      PropsDepsStep(info.props, i);
    }
    AnyDefault(s, info, c, mode.later);
  }

  lemma AnyDefault(s: Symbol, info: SymInfo, c: Cfg, on: bool)
    requires NoTristate(Deps(info))
    requires forall i :: 0 <= i < |info.props| ==> PropDeps(info.props[i]) <= PropsDeps(info.props)
    ensures DefaultProp(info.props, c, on) == DefaultProp(info.props, c, true)
    ensures DefaultUsed(info.props, c, on, IsTriType(s.Type())) == DefaultUsed(info.props, c, true, IsTriType(s.Type()))
    ensures DefaultTri(info, c, on) == DefaultTri(info, c, true)
  {
    DefaultsAny(info.props, info.props, c, on, IsTriType(s.Type()));
    var p := DefaultProp(info.props, c, on);
    if p.Some? {
      OptAny(p.value.visible, c, on);
      OptAny(p.value.expr, c, on);
    }
  }
}
