/**
 A choice-free configuration: the properties of every symbol and the equation that fixes each
 symbol's value in terms of the others (support/kconfig/symbol.c). MODULES is fixed, as are the
 C library's number conversions.
 */
module Config {
  import opened Tristates
  import opened Expressions

  datatype PropKind = Prompt | Comment | Menu | Default | Choice | Select | Range | Env | Definition

  datatype Body = Nothing | Value(expr: Expr) | Bounds(low: Symbol, high: Symbol)

  /** struct property; `hasText` is true of prompts, menus and comments */
  datatype Property = Property(kind: PropKind, hasText: bool, visible: Option<Expr>, body: Body)

  /** The parts of struct symbol that evaluation does not change. */
  datatype Def = Def(props: seq<Property>, dirDep: Option<Expr>, revDep: Option<Expr>, isAuto: bool)

  /** struct symbol_value */
  datatype SymbolValue = SymbolValue(str: string, tri: Tristate)

  datatype Model = Model(
    cfg: map<Symbol, Def>,
    user: map<Symbol, SymbolValue>,
    modules: Tristate,
    strtoll: (string, nat) -> int,
    show: (SymbolType, int) -> string)

  type Assignment = map<Symbol, SymbolValue>

  // ----- the symbols an expression or a symbol's properties mention -----

  function Syms(e: Expr): set<Symbol> {
    match e
    case Sym(s) => {s}
    case Not(a) => Syms(a)
    case Bin(_, l, r) => Syms(l) + Syms(r)
    case Cmp(_, a, b) => {a, b}
  }

  function SymsOpt(e: Option<Expr>): set<Symbol> {
    match e
    case None => {}
    case Some(x) => Syms(x)
  }

  function BodySyms(b: Body): set<Symbol> {
    match b
    case Nothing => {}
    case Value(e) => Syms(e)
    case Bounds(l, h) => {l, h}
  }

  predicate IsRead(p: Property) { p.hasText || p.kind == Default || p.kind == Range }

  function PropSyms(p: Property): set<Symbol> {
    if IsRead(p) then SymsOpt(p.visible) + BodySyms(p.body) else {}
  }

  /** Everything sym_calc_value may look at while it computes a symbol with this definition. */
  function Reads(d: Def): set<Symbol> {
    SymsOpt(d.dirDep) + SymsOpt(d.revDep) + set p, t | p in d.props && t in PropSyms(p) :: t
  }

  predicate Closed(cfg: map<Symbol, Def>) {
    && symbolYes in cfg && symbolMod in cfg && symbolNo in cfg && (forall s :: s in cfg ==> s.typ != Other)
    && (forall s {:trigger Reads(cfg[s])} :: s in cfg ==> Reads(cfg[s]) <= cfg.Keys)
    && (forall s, p {:trigger p in cfg[s].props} :: s in cfg && p in cfg[s].props ==> WellFormed(p))
  }

  /** A default has a value and a range has bounds. */
  predicate WellFormed(p: Property) { (p.kind == Default ==> p.body.Value?) && (p.kind == Range ==> p.body.Bounds?) }

  /** Values flow from lower to higher ranks only. */
  ghost predicate Ordered(cfg: map<Symbol, Def>, rank: Symbol -> nat) {
    forall s, t {:trigger t in Reads(cfg[s])} :: s in cfg && t in Reads(cfg[s]) ==> rank(t) < rank(s)
  }

  // ----- the equation of one symbol -----

  predicate IsTruthType(t: SymbolType) { t == Boolean || t == Tri }
  predicate IsTextType(t: SymbolType) { t == Int || t == Hex || t == Str }

  predicate IsConstTriSymbol(s: Symbol) { s == symbolYes || s == symbolMod || s == symbolNo }

  /** sym_get_type is S_BOOLEAN */
  predicate ActsBoolean(m: Model, s: Symbol) { s.typ == Boolean || (s.typ == Tri && m.modules == NO) }

  /** sym_get_string_value */
  function StringOf(modules: Tristate, s: Symbol, x: SymbolValue): string {
    if !IsTruthType(s.typ) then x.str
    else if x.tri == MOD then (if modules == NO then "n" else "m")
    else TriString(x.tri)
  }

  /** A symbol nobody defined has its name for value. */
  function Lookup(a: Assignment, s: Symbol): SymbolValue { if s in a then a[s] else SymbolValue(s.name, NO) }

  function Valuate(modules: Tristate, a: Assignment): Valuation {
    Valuation(s => Lookup(a, s).tri, s => StringOf(modules, s, Lookup(a, s)))
  }

  function ValuationOf(m: Model, a: Assignment): Valuation { Valuate(m.modules, a) }

  /** The strongest condition among the prompts of the first `n` properties. */
  function PromptMax(ps: seq<Property>, v: Valuation, n: nat): Tristate
    requires n <= |ps|
  {
    if n == 0 then NO
    else if ps[n - 1].hasText then Max(PromptMax(ps, v, n - 1), EvalOpt(ps[n - 1].visible, v))
    else PromptMax(ps, v, n - 1)
  }

  /** The first property of a kind, from index `i` on, whose condition is not n. */
  function FirstActive(ps: seq<Property>, kind: PropKind, v: Valuation, i: nat): Option<nat>
    requires i <= |ps|
    decreases |ps| - i
  {
    if i == |ps| then None
    else if ps[i].kind == kind && EvalOpt(ps[i].visible, v) != NO then Some(i)
    else FirstActive(ps, kind, v, i + 1)
  }

  lemma {:induction false} FirstActiveInRange(ps: seq<Property>, kind: PropKind, v: Valuation, i: nat)
    requires i <= |ps|
    ensures var r := FirstActive(ps, kind, v, i); r.Some? ==> r.value < |ps| && ps[r.value].kind == kind
    decreases |ps| - i
  {
    if i < |ps| { FirstActiveInRange(ps, kind, v, i + 1); }
  }

  function VisibleOf(m: Model, v: Valuation, s: Symbol): Tristate
    requires s in m.cfg
  {
    var t := PromptMax(m.cfg[s].props, v, |m.cfg[s].props|);
    if t == MOD && (s.typ != Tri || m.modules == NO) then YES else t
  }

  function DirOf(m: Model, v: Valuation, s: Symbol): Tristate
    requires s in m.cfg
  {
    if EvalOpt(m.cfg[s].dirDep, v) == NO then NO else YES
  }

  function RevOf(m: Model, v: Valuation, s: Symbol): Tristate
    requires s in m.cfg
  {
    var t := if m.cfg[s].revDep.None? then NO else Eval(m.cfg[s].revDep.value, v);
    if t == MOD && ActsBoolean(m, s) then YES else t
  }

  function ActiveProp(m: Model, v: Valuation, s: Symbol, kind: PropKind): (r: Option<Property>)
    requires s in m.cfg
    ensures r.Some? ==> r.value in m.cfg[s].props && r.value.kind == kind
  {
    var i := FirstActive(m.cfg[s].props, kind, v, 0);
    FirstActiveInRange(m.cfg[s].props, kind, v, 0);
    if i.None? then None else Some(m.cfg[s].props[i.value])
  }

  predicate UsesUserValue(m: Model, v: Valuation, s: Symbol)
    requires s in m.cfg
  {
    VisibleOf(m, v, s) != NO && s in m.user
  }

  /** The value of a boolean or tristate symbol before reverse dependencies. */
  function Wanted(m: Model, v: Valuation, s: Symbol): Tristate
    requires s in m.cfg
  {
    if UsesUserValue(m, v, s) then Min(m.user[s].tri, VisibleOf(m, v, s))
    else
      var d := ActiveProp(m, v, s, Default);
      if d.None? || !d.value.body.Value? then NO
      else Min(Eval(d.value.body.expr, v), EvalOpt(d.value.visible, v))
  }

  function TruthOf(m: Model, v: Valuation, s: Symbol): Tristate
    requires s in m.cfg
  {
    var t := Max(Wanted(m, v, s), RevOf(m, v, s));
    if t == MOD && ActsBoolean(m, s) then YES else t
  }

  /** prop_get_symbol of the active default */
  function DefaultSymbol(m: Model, v: Valuation, s: Symbol): Option<Symbol>
    requires s in m.cfg
  {
    var d := ActiveProp(m, v, s, Default);
    if d.Some? && d.value.body.Value? && d.value.body.expr.Sym? then Some(d.value.body.expr.sym) else None
  }

  function TextOf(m: Model, a: Assignment, s: Symbol): string
    requires s in m.cfg
  {
    var v := ValuationOf(m, a);
    if UsesUserValue(m, v, s) then m.user[s].str
    else
      var d := DefaultSymbol(m, v, s);
      if d.Some? then Lookup(a, d.value).str else ""
  }

  function BaseOf(t: SymbolType, base: nat): nat { if t == Int then 10 else if t == Hex then 16 else base }

  /** sym_validate_range on the text a symbol has got so far */
  function InRange(m: Model, a: Assignment, s: Symbol, text: string): string
    requires s in m.cfg
  {
    var r := ActiveProp(m, ValuationOf(m, a), s, Range);
    if (s.typ != Int && s.typ != Hex) || r.None? || !r.value.body.Bounds? then text
    else Clamped(m, a, s, r.value, text)
  }

  function Clamped(m: Model, a: Assignment, s: Symbol, range: Property, text: string): string
    requires range.body.Bounds?
  {
    var base := BaseOf(s.typ, 0);
    var x := m.strtoll(text, base);
    var low := BoundOf(m, a, range.body.low, base);
    var high := BoundOf(m, a, range.body.high, base);
    if x < low then m.show(s.typ, low) else if x > high then m.show(s.typ, high) else text
  }

  function BoundOf(m: Model, a: Assignment, b: Symbol, base: nat): int {
    m.strtoll(Lookup(a, b).str, BaseOf(b.typ, base))
  }

  /** The value sym_calc_value has to give `s` when the others have the values in `a`. */
  function ValueFor(m: Model, a: Assignment, s: Symbol): SymbolValue
    requires s in m.cfg
  {
    if IsConstTriSymbol(s) then
      SymbolValue(s.name, if s == symbolYes then YES else if s == symbolMod then MOD else NO)
    else if IsTruthType(s.typ) then SymbolValue("n", TruthOf(m, ValuationOf(m, a), s))
    else if IsTextType(s.typ) then SymbolValue(InRange(m, a, s, TextOf(m, a, s)), NO)
    else SymbolValue(s.name, NO)
  }

  /** The SYMBOL_WRITE flag of a symbol that has a type. */
  predicate WriteOf(m: Model, v: Valuation, s: Symbol)
    requires s in m.cfg
  {
    && !m.cfg[s].isAuto
    && (|| VisibleOf(m, v, s) != NO
        || (IsTruthType(s.typ) && (RevOf(m, v, s) != NO || ActiveProp(m, v, s, Default).Some?))
        || (IsTextType(s.typ) && DefaultSymbol(m, v, s).Some?))
  }

  // ----- the equations have exactly one solution when values can be ordered -----

  ghost predicate Solution(m: Model, a: Assignment) {
    a.Keys == m.cfg.Keys && forall s {:trigger ValueFor(m, a, s)} :: s in m.cfg ==> a[s] == ValueFor(m, a, s)
  }

  ghost predicate AgreeOn(a: Assignment, b: Assignment, ss: set<Symbol>) {
    forall t :: t in ss ==> t in a && t in b && a[t] == b[t]
  }

  lemma {:induction false} EvalLocal(e: Expr, v: Valuation, w: Valuation)
    requires forall t :: t in Syms(e) ==> v.tri(t) == w.tri(t) && v.str(t) == w.str(t)
    ensures Eval(e, v) == Eval(e, w)
  {
    match e
    case Not(a) => EvalLocal(a, v, w);
    case Bin(_, l, r) =>
      EvalLocal(l, v, w);
      EvalLocal(r, v, w);
    case Sym(s) => assert s in Syms(e);
    case Cmp(_, a, b) => assert a in Syms(e) && b in Syms(e);
  }

  lemma EvalOptLocal(e: Option<Expr>, v: Valuation, w: Valuation)
    requires forall t :: t in SymsOpt(e) ==> v.tri(t) == w.tri(t) && v.str(t) == w.str(t)
    ensures EvalOpt(e, v) == EvalOpt(e, w)
  {
    if e.Some? { EvalLocal(e.value, v, w); }
  }

  /** Conditions of all properties that matter have the same value in `v` and `w`. */
  ghost predicate SameConditions(ps: seq<Property>, v: Valuation, w: Valuation) {
    forall p :: p in ps && IsRead(p) ==> EvalOpt(p.visible, v) == EvalOpt(p.visible, w)
  }

  lemma {:induction false} PromptMaxLocal(ps: seq<Property>, v: Valuation, w: Valuation, n: nat)
    requires SameConditions(ps, v, w) && n <= |ps|
    ensures PromptMax(ps, v, n) == PromptMax(ps, w, n)
  {
    if n > 0 {
      PromptMaxLocal(ps, v, w, n - 1);
      assert ps[n - 1] in ps;
    }
  }

  lemma {:induction false} FirstActiveLocal(ps: seq<Property>, kind: PropKind, v: Valuation, w: Valuation, i: nat)
    requires SameConditions(ps, v, w) && (kind == Default || kind == Range) && i <= |ps|
    ensures FirstActive(ps, kind, v, i) == FirstActive(ps, kind, w, i)
    decreases |ps| - i
  {
    if i < |ps| {
      assert ps[i] in ps;
      FirstActiveLocal(ps, kind, v, w, i + 1);
    }
  }

  lemma ConditionsLocal(m: Model, a: Assignment, b: Assignment, s: Symbol)
    requires s in m.cfg && AgreeOn(a, b, Reads(m.cfg[s]))
    ensures SameConditions(m.cfg[s].props, ValuationOf(m, a), ValuationOf(m, b))
  {
    var d := m.cfg[s];
    forall p | p in d.props && IsRead(p)
      ensures EvalOpt(p.visible, ValuationOf(m, a)) == EvalOpt(p.visible, ValuationOf(m, b))
    {
      assert forall t :: t in PropSyms(p) ==> t in Reads(d);
      EvalOptLocal(p.visible, ValuationOf(m, a), ValuationOf(m, b));
    }
  }

  /** What a symbol shows and what selects it depends on the symbols it reads alone. */
  lemma StatusLocal(m: Model, a: Assignment, b: Assignment, s: Symbol)
    requires s in m.cfg && AgreeOn(a, b, Reads(m.cfg[s]))
    ensures var v, w := ValuationOf(m, a), ValuationOf(m, b);
            && VisibleOf(m, v, s) == VisibleOf(m, w, s)
            && DirOf(m, v, s) == DirOf(m, w, s)
            && RevOf(m, v, s) == RevOf(m, w, s)
            && ActiveProp(m, v, s, Default) == ActiveProp(m, w, s, Default)
            && ActiveProp(m, v, s, Range) == ActiveProp(m, w, s, Range)
  {
    var v, w, d := ValuationOf(m, a), ValuationOf(m, b), m.cfg[s];
    ConditionsLocal(m, a, b, s);
    PromptMaxLocal(d.props, v, w, |d.props|);
    FirstActiveLocal(d.props, Default, v, w, 0);
    FirstActiveLocal(d.props, Range, v, w, 0);
    EvalOptLocal(d.dirDep, v, w);
    EvalOptLocal(d.revDep, v, w);
  }

  /** So does the value of the active default and of its condition. */
  lemma DefaultLocal(m: Model, a: Assignment, b: Assignment, s: Symbol)
    requires s in m.cfg && AgreeOn(a, b, Reads(m.cfg[s]))
    ensures var v, w := ValuationOf(m, a), ValuationOf(m, b);
            var def := ActiveProp(m, v, s, Default);
            def.Some? && def.value.body.Value? ==>
              Eval(def.value.body.expr, v) == Eval(def.value.body.expr, w) &&
                EvalOpt(def.value.visible, v) == EvalOpt(def.value.visible, w)
  {
    var v, w := ValuationOf(m, a), ValuationOf(m, b);
    ConditionsLocal(m, a, b, s);
    var def := ActiveProp(m, v, s, Default);
    if def.Some? && def.value.body.Value? {
      assert forall t :: t in PropSyms(def.value) ==> t in Reads(m.cfg[s]);
      EvalLocal(def.value.body.expr, v, w);
    }
  }

  lemma TruthLocal(m: Model, a: Assignment, b: Assignment, s: Symbol)
    requires s in m.cfg && AgreeOn(a, b, Reads(m.cfg[s]))
    ensures TruthOf(m, ValuationOf(m, a), s) == TruthOf(m, ValuationOf(m, b), s)
  {
    StatusLocal(m, a, b, s);
    DefaultLocal(m, a, b, s);
  }

  lemma TextLocal(m: Model, a: Assignment, b: Assignment, s: Symbol)
    requires s in m.cfg && AgreeOn(a, b, Reads(m.cfg[s]))
    ensures TextOf(m, a, s) == TextOf(m, b, s)
  {
    StatusLocal(m, a, b, s);
    var def := ActiveProp(m, ValuationOf(m, a), s, Default);
    if def.Some? && def.value.body.Value? && def.value.body.expr.Sym? {
      assert def.value.body.expr.sym in PropSyms(def.value);
      assert def.value.body.expr.sym in Reads(m.cfg[s]);
    }
  }

  lemma ClampedLocal(m: Model, a: Assignment, b: Assignment, s: Symbol, rng: Property, text: string)
    requires s in m.cfg && AgreeOn(a, b, Reads(m.cfg[s])) && rng in m.cfg[s].props && rng.kind == Range &&
             rng.body.Bounds?
    ensures Clamped(m, a, s, rng, text) == Clamped(m, b, s, rng, text)
  {
    assert rng.body.low in PropSyms(rng) && rng.body.high in PropSyms(rng);
    assert rng.body.low in Reads(m.cfg[s]) && rng.body.high in Reads(m.cfg[s]);
  }

  lemma RangeLocal(m: Model, a: Assignment, b: Assignment, s: Symbol, text: string)
    requires s in m.cfg && AgreeOn(a, b, Reads(m.cfg[s]))
    ensures InRange(m, a, s, text) == InRange(m, b, s, text)
  {
    StatusLocal(m, a, b, s);
    var rng := ActiveProp(m, ValuationOf(m, a), s, Range);
    if rng.Some? && rng.value.body.Bounds? {
      ClampedLocal(m, a, b, s, rng.value, text);
    }
  }

  /** So does its value. */
  lemma ValueLocal(m: Model, a: Assignment, b: Assignment, s: Symbol)
    requires s in m.cfg && AgreeOn(a, b, Reads(m.cfg[s]))
    ensures ValueFor(m, a, s) == ValueFor(m, b, s)
  {
    TruthLocal(m, a, b, s);
    TextLocal(m, a, b, s);
    RangeLocal(m, a, b, s, TextOf(m, a, s));
  }

  lemma {:induction false} SolutionsAgree(m: Model, rank: Symbol -> nat, a: Assignment, b: Assignment, s: Symbol)
    requires Closed(m.cfg) && Ordered(m.cfg, rank) && Solution(m, a) && Solution(m, b) && s in m.cfg
    ensures a[s] == b[s]
    decreases rank(s)
  {
    forall t | t in Reads(m.cfg[s])
      ensures t in a && t in b && a[t] == b[t]
    {
      SolutionsAgree(m, rank, a, b, t);
    }
    ValueLocal(m, a, b, s);
  }

  /** At most one assignment satisfies all equations. */
  lemma SolutionUnique(m: Model, rank: Symbol -> nat, a: Assignment, b: Assignment)
    requires Closed(m.cfg) && Ordered(m.cfg, rank) && Solution(m, a) && Solution(m, b)
    ensures a == b
  {
    forall s | s in m.cfg
      ensures a[s] == b[s]
    {
      SolutionsAgree(m, rank, a, b, s);
    }
  }

  /** The values of all symbols of rank below `n`, computed rank by rank. */
  ghost function SolveBelow(m: Model, rank: Symbol -> nat, n: nat): (a: Assignment)
    ensures a.Keys == set s | s in m.cfg && rank(s) < n
  {
    if n == 0 then map[]
    else
      var below := SolveBelow(m, rank, n - 1);
      map s | s in m.cfg && rank(s) < n :: if rank(s) < n - 1 then below[s] else ValueFor(m, below, s)
  }

  lemma {:induction false} SolveBelowSolves(m: Model, rank: Symbol -> nat, n: nat, s: Symbol)
    requires Closed(m.cfg) && Ordered(m.cfg, rank) && s in m.cfg && rank(s) < n
    ensures SolveBelow(m, rank, n)[s] == ValueFor(m, SolveBelow(m, rank, n), s)
  {
    var below := SolveBelow(m, rank, n - 1);
    if rank(s) < n - 1 {
      SolveBelowSolves(m, rank, n - 1, s);
    }
    ValueLocal(m, below, SolveBelow(m, rank, n), s);
  }

  lemma {:induction false} RankBound(ss: set<Symbol>, rank: Symbol -> nat) returns (n: nat)
    ensures forall s :: s in ss ==> rank(s) < n
  {
    if ss == {} {
      n := 0;
    } else {
      var x :| x in ss;
      n := RankBound(ss - {x}, rank);
      n := if rank(x) < n then n else rank(x) + 1;
    }
  }

  /** At least one assignment satisfies all equations. */
  lemma SolutionExists(m: Model, rank: Symbol -> nat) returns (a: Assignment)
    requires Closed(m.cfg) && Ordered(m.cfg, rank)
    ensures Solution(m, a)
  {
    var n := RankBound(m.cfg.Keys, rank);
    a := SolveBelow(m, rank, n);
    forall s | s in m.cfg
      ensures a[s] == ValueFor(m, a, s)
    {
      SolveBelowSolves(m, rank, n, s);
    }
  }

  // ----- what every solution satisfies -----

  /** A boolean or tristate symbol is at least what selects it. */
  lemma SelectedValue(m: Model, a: Assignment, s: Symbol)
    requires Solution(m, a) && s in m.cfg && IsTruthType(s.typ)
    ensures m.cfg[s].revDep.Some? ==> a[s].tri >= Eval(m.cfg[s].revDep.value, ValuationOf(m, a))
    ensures a[s].tri >= RevOf(m, ValuationOf(m, a), s)
    ensures ActsBoolean(m, s) ==> a[s].tri != MOD
  {
    assert a[s] == ValueFor(m, a, s);
  }

  lemma TypedValue(m: Model, a: Assignment, s: Symbol)
    requires Closed(m.cfg) && Solution(m, a)
    ensures IsTruthType(s.typ) && (s.typ == Boolean || m.modules == NO) ==> Lookup(a, s).tri != MOD
    ensures s.Constant? ==> Lookup(a, s).str == s.name
  {
    if s in m.cfg {
      assert a[s] == ValueFor(m, a, s);
    }
  }

  /** The computed values are typed as the rewriting of expressions assumes. */
  lemma SolutionWellTyped(m: Model, a: Assignment)
    requires Closed(m.cfg) && Solution(m, a)
    ensures WellTyped(ValuationOf(m, a))
  {
    var v := ValuationOf(m, a);
    assert a[symbolYes] == ValueFor(m, a, symbolYes);
    assert a[symbolMod] == ValueFor(m, a, symbolMod);
    assert a[symbolNo] == ValueFor(m, a, symbolNo);
    forall s: Symbol
      ensures IsTruthType(s.typ) ==> v.str(s) == TriString(v.tri(s))
      ensures s.typ == Boolean ==> v.tri(s) != MOD
      ensures s.Constant? ==> v.str(s) == s.name
    {
      TypedValue(m, a, s);
    }
  }

  // ----- assigning a user value -----

  /** The configuration with the user value `x` for `s`. */
  function WithUser(m: Model, s: Symbol, x: SymbolValue): Model { m.(user := m.user[s := x]) }

  /** The configuration after the user has set a boolean or tristate symbol. */
  function Assigned(m: Model, s: Symbol, val: Tristate): Model {
    WithUser(m, s, SymbolValue(if s in m.user then m.user[s].str else "", val))
  }

  /** sym_tristate_within_range for a symbol with visibility `vis` and reverse dependency `rev` */
  predicate WithinRange(m: Model, s: Symbol, vis: Tristate, rev: Tristate, val: Tristate) {
    && vis != NO && IsTruthType(s.typ) && !(ActsBoolean(m, s) && val == MOD)
    && vis > rev && rev <= val <= vis
  }

  /** Symbols of lower rank do not notice the assignment. */
  lemma {:induction false} AssignedFrame(m: Model, rank: Symbol -> nat, a: Assignment, a': Assignment,
                                         s: Symbol, x: SymbolValue, t: Symbol)
    requires Closed(m.cfg) && Ordered(m.cfg, rank) && s in m.cfg && t in m.cfg
    requires Solution(m, a) && Solution(WithUser(m, s, x), a')
    requires rank(t) < rank(s)
    ensures a'[t] == a[t]
    decreases rank(t)
  {
    var m' := WithUser(m, s, x);
    forall u | u in Reads(m.cfg[t])
      ensures u in a && u in a' && a'[u] == a[u]
    {
      AssignedFrame(m, rank, a, a', s, x, u);
    }
    ValueLocal(m, a, a', t);
    OtherUser(m, s, x, a', t);
    assert a[t] == ValueFor(m, a, t) && a'[t] == ValueFor(m', a', t);
  }

  lemma OtherUser(m: Model, s: Symbol, x: SymbolValue, a: Assignment, t: Symbol)
    requires t in m.cfg && t != s
    ensures ValueFor(WithUser(m, s, x), a, t) == ValueFor(m, a, t)
  {
    var m' := WithUser(m, s, x);
    var v := ValuationOf(m, a);
    assert ValuationOf(m', a) == v;
    assert UsesUserValue(m', v, t) == UsesUserValue(m, v, t);
    assert TruthOf(m', v, t) == TruthOf(m, v, t);
    assert TextOf(m', a, t) == TextOf(m, a, t);
    assert InRange(m', a, t, TextOf(m, a, t)) == InRange(m, a, t, TextOf(m, a, t));
  }

  /** Neither does the status of the symbol itself. */
  lemma AssignedStatus(m: Model, rank: Symbol -> nat, a: Assignment, a': Assignment, s: Symbol, x: SymbolValue)
    requires Closed(m.cfg) && Ordered(m.cfg, rank) && s in m.cfg
    requires Solution(m, a) && Solution(WithUser(m, s, x), a')
    ensures var m', v, v' := WithUser(m, s, x), ValuationOf(m, a), ValuationOf(m, a');
            && VisibleOf(m', v', s) == VisibleOf(m, v, s)
            && RevOf(m', v', s) == RevOf(m, v, s)
            && (!UsesUserValue(m', v', s) ==> Wanted(m', v', s) == Wanted(m, v, s))
  {
    forall u | u in Reads(m.cfg[s])
      ensures u in a && u in a' && a'[u] == a[u]
    {
      AssignedFrame(m, rank, a, a', s, x, u);
    }
    StatusLocal(m, a, a', s);
    DefaultLocal(m, a, a', s);
    assert ActiveProp(WithUser(m, s, x), ValuationOf(m, a'), s, Default) ==
           ActiveProp(m, ValuationOf(m, a), s, Default);
  }

  /** A value that is in range is the value the symbol has after the next calculation. */
  lemma AcceptedValueSticks(m: Model, rank: Symbol -> nat, a: Assignment, a': Assignment, s: Symbol, val: Tristate)
    requires Closed(m.cfg) && Ordered(m.cfg, rank) && s in m.cfg && !IsConstTriSymbol(s)
    requires Solution(m, a) && Solution(Assigned(m, s, val), a')
    requires WithinRange(m, s, VisibleOf(m, ValuationOf(m, a), s), RevOf(m, ValuationOf(m, a), s), val)
    ensures a'[s].tri == val
  {
    AssignedStatus(m, rank, a, a', s, Assigned(m, s, val).user[s]);
    assert a'[s] == ValueFor(Assigned(m, s, val), a', s);
  }

  /**
   The values in range are exactly those that stick, where the symbol is shown above what selects it; where it is shown
   but no higher than that, every assignment leads to the value that selects it.
   */
  lemma WithinRangeIff(m: Model, rank: Symbol -> nat, a: Assignment, a': Assignment, s: Symbol, val: Tristate)
    requires Closed(m.cfg) && Ordered(m.cfg, rank) && s in m.cfg && IsTruthType(s.typ)
    requires Solution(m, a) && Solution(Assigned(m, s, val), a')
    ensures var vis, rev := VisibleOf(m, ValuationOf(m, a), s), RevOf(m, ValuationOf(m, a), s);
            && (WithinRange(m, s, vis, rev, val) <==> vis > rev && a'[s].tri == val)
            && (vis != NO && vis <= rev ==> a'[s].tri == rev)
  {
    AssignedStatus(m, rank, a, a', s, Assigned(m, s, val).user[s]);
    assert a'[s] == ValueFor(Assigned(m, s, val), a', s);
  }

  /**
   sym_set_tristate_value also takes, without looking at the range, the value a symbol has already.
   The next calculation then finds it again exactly if the symbol is invisible, or the value is
   within the visibility, or the symbol is selected to it.
   */
  lemma SameValueKept(m: Model, rank: Symbol -> nat, a: Assignment, a': Assignment, s: Symbol, val: Tristate)
    requires Closed(m.cfg) && Ordered(m.cfg, rank) && s in m.cfg && IsTruthType(s.typ)
    requires Solution(m, a) && Solution(Assigned(m, s, val), a')
    requires a[s].tri == val
    ensures var vis, rev := VisibleOf(m, ValuationOf(m, a), s), RevOf(m, ValuationOf(m, a), s);
            a'[s].tri == val <==> vis == NO || val <= vis || val == rev
  {
    AssignedStatus(m, rank, a, a', s, Assigned(m, s, val).user[s]);
    assert a'[s] == ValueFor(Assigned(m, s, val), a', s);
    assert a[s] == ValueFor(m, a, s);
  }
}
