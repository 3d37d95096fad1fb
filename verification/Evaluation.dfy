/** Evaluation arrives at the solution of the equations when values can be ordered. */
module Evaluation {
  import opened Tristates
  import opened Expressions
  import opened Config
  import opened Evaluate

  /** An order of evaluation, the values to arrive at, and the symbols whose evaluation is under way. */
  datatype Plan = Plan(rank: Symbol -> nat, sol: Assignment, busy: set<Symbol>)

  ghost predicate Below(g: Plan, ss: set<Symbol>) {
    forall t, b :: t in ss && b in g.busy ==> g.rank(t) < g.rank(b)
  }

  ghost predicate Status(m: Model, c: Cell, s: Symbol, v: Valuation)
    requires s in m.cfg
  {
    c.visible == VisibleOf(m, v, s) && c.dir == DirOf(m, v, s) && c.rev == RevOf(m, v, s)
  }

  /** All that is remembered of `s` is right with respect to `sol`. */
  ghost predicate UpToDate(m: Model, c: Cell, s: Symbol, sol: Assignment)
    requires s in m.cfg && s in sol
  {
    var v := ValuationOf(m, sol);
    && c.curr == sol[s]
    && (IsTruthType(s.typ) || IsTextType(s.typ) ==> Status(m, c, s, v) && c.write == WriteOf(m, v, s))
  }

  ghost predicate Coherent(m: Model, st: State, g: Plan)
    requires Inv(m, st) && g.sol.Keys == m.cfg.Keys
  {
    forall s {:trigger UpToDate(m, st.cells[s], s, g.sol)} :: s in st.valid && s !in g.busy ==>
        UpToDate(m, st.cells[s], s, g.sol)
  }

  ghost predicate Fits(m: Model, st: State, g: Plan)
    requires Inv(m, st)
  {
    Ordered(m.cfg, g.rank) && Solution(m, g.sol) && Coherent(m, st, g)
  }

  /** What is valid and not under evaluation fits, and so does what `s` reads. */
  ghost predicate FitsFor(m: Model, st: State, g: Plan, s: Symbol)
    requires Inv(m, st)
  {
    s in m.cfg && Fits(m, st, g) && Below(g, Reads(m.cfg[s]))
  }

  // ----- single steps -----

  /** Nothing is claimed of a symbol under evaluation, so it may be written. */
  lemma BusyFits(m: Model, st: State, g: Plan, s: Symbol, c: Cell)
    requires Inv(m, st) && s in st.valid && !IsConstTriSymbol(s) && s in g.busy && Fits(m, st, g)
    ensures Fits(m, Busy(m, st, s, c), g)
  {}

  lemma ReadValid(m: Model, st: State, g: Plan, s: Symbol)
    requires Inv(m, st) && s in st.valid && Fits(m, st, g) && Below(g, {s})
    ensures st.cells[s].curr == g.sol[s]
  {
    assert s !in g.busy;
    assert UpToDate(m, st.cells[s], s, g.sol);
  }

  /** Setting SYMBOL_VALID before the value is known. */
  lemma Begin(m: Model, st: State, g: Plan, s: Symbol)
    requires Inv(m, st) && s in m.cfg && s !in st.valid && Fits(m, st, g) && Below(g, {s})
    ensures var st', g' := st.(valid := st.valid + {s}), g.(busy := g.busy + {s});
            Inv(m, st') && FitsFor(m, st', g', s)
  {
    forall t | t in Reads(m.cfg[s])
      ensures forall b :: b in g.busy + {s} ==> g.rank(t) < g.rank(b)
    {}
  }

  /** The value is known. */
  lemma Finish(m: Model, st: State, g: Plan, s: Symbol)
    requires Inv(m, st) && s in st.valid && s in m.cfg && s in g.sol
    requires var g' := g.(busy := g.busy + {s}); Fits(m, st, g') && UpToDate(m, st.cells[s], s, g.sol)
    ensures Fits(m, st, g)
  {}

  lemma BelowMore(g: Plan, ss: set<Symbol>, tt: set<Symbol>)
    requires Below(g, tt) && ss <= tt
    ensures Below(g, ss)
  {}

  // ----- all functions of evaluation -----

  lemma {:induction false} ExprFits(m: Model, st: State, g: Plan, e: Expr)
    requires Inv(m, st) && Syms(e) <= m.cfg.Keys && Fits(m, st, g) && Below(g, Syms(e))
    ensures var r := CalcExpr(m, st, e); Fits(m, r.st, g) && r.val == Eval(e, ValuationOf(m, g.sol))
    decreases m.cfg.Keys - st.valid, 1, e
  {
    match e
    case Sym(s) => ValueFits(m, st, g, s);
    case Not(a) => ExprFits(m, st, g, a);
    case Bin(op, l, r) =>
      ExprFits(m, st, g, l);
      ExprFits(m, CalcExpr(m, st, l).st, g, r);
    case Cmp(equal, a, b) =>
      ValueFits(m, st, g, a);
      ValueFits(m, CalcValue(m, st, a), g, b);
  }

  lemma {:induction false} OptFits(m: Model, st: State, g: Plan, e: Option<Expr>)
    requires Inv(m, st) && SymsOpt(e) <= m.cfg.Keys && Fits(m, st, g) && Below(g, SymsOpt(e))
    ensures var r := CalcOpt(m, st, e); Fits(m, r.st, g) && r.val == EvalOpt(e, ValuationOf(m, g.sol))
    decreases m.cfg.Keys - st.valid, 1
  {
    if e.Some? {
      ExprFits(m, st, g, e.value);
    }
  }

  /** The condition of a property that is looked at. */
  lemma {:induction false} CondFits(m: Model, st: State, g: Plan, s: Symbol, p: Property)
    requires Inv(m, st) && FitsFor(m, st, g, s) && p in m.cfg[s].props && IsRead(p)
    ensures SymsOpt(p.visible) <= m.cfg.Keys
    ensures var r := CalcOpt(m, st, p.visible);
            FitsFor(m, r.st, g, s) && r.val == EvalOpt(p.visible, ValuationOf(m, g.sol))
    decreases m.cfg.Keys - st.valid, 2
  {
    PropReads(m.cfg[s], p);
    BelowMore(g, SymsOpt(p.visible), Reads(m.cfg[s]));
    OptFits(m, st, g, p.visible);
  }

  /** The prompts from index `i` on raise `t` to the strongest condition. */
  ghost predicate PromptsDo(m: Model, st: State, g: Plan, s: Symbol, i: nat, t: Tristate)
    requires Inv(m, st) && s in m.cfg && i <= |m.cfg[s].props|
  {
    var r := CalcPrompts(m, st, s, i, t);
    Fits(m, r.st, g) && r.val == PromptMax(m.cfg[s].props, ValuationOf(m, g.sol), |m.cfg[s].props|)
  }

  lemma PromptStep(ps: seq<Property>, v: Valuation, i: nat, t: Tristate)
    requires i < |ps| && t == PromptMax(ps, v, i)
    ensures PromptMax(ps, v, i + 1) == if ps[i].hasText then Max(t, EvalOpt(ps[i].visible, v)) else t
  {}

  /** One round of the loop over prompts. */
  ghost function AfterPrompt(m: Model, st: State, s: Symbol, i: nat, t: Tristate): (r: Out<Tristate>)
    requires Inv(m, st) && s in m.cfg && i < |m.cfg[s].props|
    ensures Inv(m, r.st) && st.valid <= r.st.valid
    ensures CalcPrompts(m, st, s, i, t) == CalcPrompts(m, r.st, s, i + 1, r.val)
  {
    var p := m.cfg[s].props[i];
    if p.hasText then
      PropReads(m.cfg[s], p);
      var u := CalcOpt(m, st, p.visible);
      Out(u.st, Max(t, u.val))
    else Out(st, t)
  }

  lemma {:induction false} PromptFits(m: Model, st: State, g: Plan, s: Symbol, i: nat, t: Tristate)
    requires Inv(m, st) && FitsFor(m, st, g, s) && i < |m.cfg[s].props|
    requires t == PromptMax(m.cfg[s].props, ValuationOf(m, g.sol), i)
    ensures var r := AfterPrompt(m, st, s, i, t);
            FitsFor(m, r.st, g, s) && r.val == PromptMax(m.cfg[s].props, ValuationOf(m, g.sol), i + 1)
    decreases m.cfg.Keys - st.valid, 3, 0
  {
    if m.cfg[s].props[i].hasText {
      CondFits(m, st, g, s, m.cfg[s].props[i]);
    }
    PromptStep(m.cfg[s].props, ValuationOf(m, g.sol), i, t);
  }

  lemma {:induction false} PromptsFit(m: Model, st: State, g: Plan, s: Symbol, i: nat, t: Tristate)
    requires Inv(m, st) && FitsFor(m, st, g, s) && i <= |m.cfg[s].props|
    requires t == PromptMax(m.cfg[s].props, ValuationOf(m, g.sol), i)
    ensures PromptsDo(m, st, g, s, i, t)
    decreases m.cfg.Keys - st.valid, 3, |m.cfg[s].props| - i + 1
  {
    if i < |m.cfg[s].props| {
      PromptFits(m, st, g, s, i, t);
      var r := AfterPrompt(m, st, s, i, t);
      PromptsFit(m, r.st, g, s, i + 1, r.val);
    }
  }

  /** What FindProp should find, from index `i` on. */
  ghost function Active(m: Model, v: Valuation, s: Symbol, kind: PropKind, i: nat): Found
    requires s in m.cfg && i <= |m.cfg[s].props|
  {
    var j := FirstActive(m.cfg[s].props, kind, v, i);
    FirstActiveInRange(m.cfg[s].props, kind, v, i);
    if j.None? then NotFound else Found(m.cfg[s].props[j.value], EvalOpt(m.cfg[s].props[j.value].visible, v))
  }

  /** One step of the search. */
  lemma FindNext(m: Model, st: State, s: Symbol, kind: PropKind, i: nat)
    requires Inv(m, st) && s in m.cfg && i < |m.cfg[s].props| && (kind == Default || kind == Range)
    ensures var p := m.cfg[s].props[i];
            if p.kind != kind then FindProp(m, st, s, kind, i) == FindProp(m, st, s, kind, i + 1)
            else
              && SymsOpt(p.visible) <= m.cfg.Keys
              && var u := CalcOpt(m, st, p.visible);
                 FindProp(m, st, s, kind, i) ==
                 if u.val != NO then Out(u.st, Found(p, u.val)) else FindProp(m, u.st, s, kind, i + 1)
  {
    if m.cfg[s].props[i].kind == kind {
      PropReads(m.cfg[s], m.cfg[s].props[i]);
    }
  }

  lemma ActiveNext(m: Model, v: Valuation, s: Symbol, kind: PropKind, i: nat)
    requires s in m.cfg && i < |m.cfg[s].props|
    ensures var p := m.cfg[s].props[i];
            Active(m, v, s, kind, i) ==
            if p.kind == kind && EvalOpt(p.visible, v) != NO then Found(p, EvalOpt(p.visible, v))
            else Active(m, v, s, kind, i + 1)
  {}

  lemma {:induction false} FindFits(m: Model, st: State, g: Plan, s: Symbol, kind: PropKind, i: nat)
    requires Inv(m, st) && FitsFor(m, st, g, s) && i <= |m.cfg[s].props| && (kind == Default || kind == Range)
    ensures var r := FindProp(m, st, s, kind, i);
            Fits(m, r.st, g) && r.val == Active(m, ValuationOf(m, g.sol), s, kind, i)
    decreases m.cfg.Keys - st.valid, 3, |m.cfg[s].props| - i
  {
    var ps := m.cfg[s].props;
    if i < |ps| {
      ActiveNext(m, ValuationOf(m, g.sol), s, kind, i);
      FindNext(m, st, s, kind, i);
      if ps[i].kind == kind {
        CondFits(m, st, g, s, ps[i]);
        var u := CalcOpt(m, st, ps[i].visible);
        if u.val == NO {
          FindFits(m, u.st, g, s, kind, i + 1);
        }
      } else {
        FindFits(m, st, g, s, kind, i + 1);
      }
    }
  }

  lemma {:induction false} DirFits(m: Model, st: State, g: Plan, s: Symbol)
    requires Inv(m, st) && FitsFor(m, st, g, s)
    ensures var r := CalcDir(m, st, s); Fits(m, r.st, g) && r.val == DirOf(m, ValuationOf(m, g.sol), s)
    decreases m.cfg.Keys - st.valid, 4
  {
    assert SymsOpt(m.cfg[s].dirDep) <= Reads(m.cfg[s]);
    OptFits(m, st, g, m.cfg[s].dirDep);
  }

  lemma {:induction false} RevFits(m: Model, st: State, g: Plan, s: Symbol)
    requires Inv(m, st) && FitsFor(m, st, g, s)
    ensures var r := CalcRev(m, st, s); Fits(m, r.st, g) && r.val == RevOf(m, ValuationOf(m, g.sol), s)
    decreases m.cfg.Keys - st.valid, 4
  {
    assert SymsOpt(m.cfg[s].revDep) <= Reads(m.cfg[s]);
    if m.cfg[s].revDep.Some? {
      ExprFits(m, st, g, m.cfg[s].revDep.value);
    }
  }

  lemma {:induction false} VisibilityFits(m: Model, st: State, g: Plan, s: Symbol)
    requires Inv(m, st) && s in st.valid && !IsConstTriSymbol(s) && s in g.busy && FitsFor(m, st, g, s)
    ensures var st' := CalcVisibility(m, st, s); Fits(m, st', g) && Status(m, st'.cells[s], s, ValuationOf(m, g.sol))
    decreases m.cfg.Keys - st.valid, 6
  {
    PromptsFit(m, st, g, s, 0, NO);
    var p := CalcPrompts(m, st, s, 0, NO);
    var vis := if p.val == MOD && (s.typ != Tri || m.modules == NO) then YES else p.val;
    DirFits(m, p.st, g, s);
    var d := CalcDir(m, p.st, s);
    RevFits(m, d.st, g, s);
    var r := CalcRev(m, d.st, s);
    BusyFits(m, r.st, g, s, r.st.cells[s].(visible := vis, dir := d.val, rev := r.val));
  }

  lemma {:induction false} DefaultFits(m: Model, st: State, g: Plan, s: Symbol)
    requires Inv(m, st) && FitsFor(m, st, g, s)
    ensures var v, r := ValuationOf(m, g.sol), CalcDefault(m, st, s);
            var f := Active(m, v, s, Default, 0);
            && Fits(m, r.st, g) && (r.val.None? <==> f.NotFound?)
            && (r.val.Some? ==> f.prop.body.Value? && r.val.value == Min(Eval(f.prop.body.expr, v), f.cond))
    decreases m.cfg.Keys - st.valid, 4
  {
    FindFits(m, st, g, s, Default, 0);
    var f := FindProp(m, st, s, Default, 0);
    if f.val.Found? {
      PropReads(m.cfg[s], f.val.prop);
      BelowMore(g, Syms(f.val.prop.body.expr), Reads(m.cfg[s]));
      ExprFits(m, f.st, g, f.val.prop.body.expr);
    }
  }

  lemma TruthFrom(m: Model, v: Valuation, s: Symbol, d: Option<Tristate>)
    requires s in m.cfg && !UsesUserValue(m, v, s)
    requires var f := Active(m, v, s, Default, 0);
             (d.None? <==> f.NotFound?) &&
               (d.Some? ==> f.prop.body.Value? && d.value == Min(Eval(f.prop.body.expr, v), f.cond))
    ensures TruthOf(m, v, s) == Promoted(m, s, Max(if d.None? then NO else d.value, RevOf(m, v, s)))
    ensures ActiveProp(m, v, s, Default).Some? == d.Some?
  {}

  lemma {:induction false} TruthFits(m: Model, st: State, g: Plan, s: Symbol, vis: Tristate, rev: Tristate)
    requires Inv(m, st) && FitsFor(m, st, g, s)
    requires vis == VisibleOf(m, ValuationOf(m, g.sol), s) && rev == RevOf(m, ValuationOf(m, g.sol), s)
    ensures var v, r := ValuationOf(m, g.sol), CalcTruth(m, st, s, vis, rev);
            && Fits(m, r.st, g) && r.val.tri == TruthOf(m, v, s)
            && r.val.write == (vis != NO || rev != NO || ActiveProp(m, v, s, Default).Some?)
    decreases m.cfg.Keys - st.valid, 5
  {
    if !(vis != NO && s in m.user) {
      DefaultFits(m, st, g, s);
      TruthFrom(m, ValuationOf(m, g.sol), s, CalcDefault(m, st, s).val);
    }
  }

  lemma {:induction false} TextFits(m: Model, st: State, g: Plan, s: Symbol, vis: Tristate)
    requires Inv(m, st) && FitsFor(m, st, g, s) && vis == VisibleOf(m, ValuationOf(m, g.sol), s)
    ensures var v, r := ValuationOf(m, g.sol), CalcText(m, st, s, vis);
            && Fits(m, r.st, g) && r.val.str == TextOf(m, g.sol, s)
            && r.val.write == (vis != NO || DefaultSymbol(m, v, s).Some?)
    decreases m.cfg.Keys - st.valid, 4
  {
    if !(vis != NO && s in m.user) {
      FindFits(m, st, g, s, Default, 0);
      var f := FindProp(m, st, s, Default, 0);
      if f.val.Found? && f.val.prop.body.expr.Sym? {
        PropReads(m.cfg[s], f.val.prop);
        assert f.val.prop.body.expr.sym in Syms(f.val.prop.body.expr);
        ValueFits(m, f.st, g, f.val.prop.body.expr.sym);
      }
    }
  }

  lemma {:induction false} RangeValFits(m: Model, st: State, g: Plan, b: Symbol, base: nat)
    requires Inv(m, st) && b in m.cfg && Fits(m, st, g) && Below(g, {b})
    ensures var r := RangeVal(m, st, b, base); Fits(m, r.st, g) && r.val == BoundOf(m, g.sol, b, base)
    decreases m.cfg.Keys - st.valid, 1
  {
    ValueFits(m, st, g, b);
  }

  lemma {:induction false} ClampFits(m: Model, st: State, g: Plan, s: Symbol, text: string, p: Property)
    requires Inv(m, st) && FitsFor(m, st, g, s) && p in m.cfg[s].props && p.kind == Range && p.body.Bounds?
    ensures var r := Clamp(m, st, s, text, p); Fits(m, r.st, g) && r.val == Clamped(m, g.sol, s, p, text)
    decreases m.cfg.Keys - st.valid, 3
  {
    PropReads(m.cfg[s], p);
    assert p.body.low in Reads(m.cfg[s]) && p.body.high in Reads(m.cfg[s]);
    var base := BaseOf(s.typ, 0);
    RangeValFits(m, st, g, p.body.low, base);
    RangeValFits(m, RangeVal(m, st, p.body.low, base).st, g, p.body.high, base);
  }

  lemma {:induction false} RangeFits(m: Model, st: State, g: Plan, s: Symbol, text: string)
    requires Inv(m, st) && FitsFor(m, st, g, s)
    ensures var r := CalcRange(m, st, s, text); Fits(m, r.st, g) && r.val == InRange(m, g.sol, s, text)
    decreases m.cfg.Keys - st.valid, 4
  {
    if s.typ == Int || s.typ == Hex {
      FindFits(m, st, g, s, Range, 0);
      var f := FindProp(m, st, s, Range, 0);
      if f.val.Found? {
        ClampFits(m, f.st, g, s, text, f.val.prop);
      }
    }
  }

  lemma TruthDone(m: Model, st: State, g: Plan, s: Symbol, c: Cell, t: Truth)
    requires Inv(m, st) && s in st.valid && IsTruthType(s.typ) && !IsConstTriSymbol(s) && s in g.busy && Fits(m, st, g)
    requires var v := ValuationOf(m, g.sol);
             && Status(m, c, s, v) && t.tri == TruthOf(m, v, s)
             && t.write == (c.visible != NO || c.rev != NO || ActiveProp(m, v, s, Default).Some?)
    ensures var st' := Busy(m, st, s, c.(curr := SymbolValue("n", t.tri), write := t.write && !m.cfg[s].isAuto));
            Fits(m, st', g) && UpToDate(m, st'.cells[s], s, g.sol)
  {
    BusyFits(m, st, g, s, c.(curr := SymbolValue("n", t.tri), write := t.write && !m.cfg[s].isAuto));
    assert g.sol[s] == ValueFor(m, g.sol, s);
  }

  lemma {:induction false} FinishTruthFits(m: Model, st: State, g: Plan, s: Symbol)
    requires Inv(m, st) && s in st.valid && IsTruthType(s.typ) && !IsConstTriSymbol(s) && s in g.busy &&
             FitsFor(m, st, g, s)
    requires Status(m, st.cells[s], s, ValuationOf(m, g.sol))
    ensures var st' := FinishTruth(m, st, s); Fits(m, st', g) && UpToDate(m, st'.cells[s], s, g.sol)
    decreases m.cfg.Keys - st.valid, 7
  {
    var c := st.cells[s];
    var c1 := c.(curr := SymbolValue("n", NO), write := false);
    BusyFits(m, st, g, s, c1);
    var st1 := Busy(m, st, s, c1);
    TruthFits(m, st1, g, s, c.visible, c.rev);
    var r := CalcTruth(m, st1, s, c.visible, c.rev);
    TruthDone(m, r.st, g, s, c, r.val);
  }

  lemma {:induction false} PlainTextFits(m: Model, st: State, g: Plan, s: Symbol)
    requires Inv(m, st) && s in st.valid && IsTextType(s.typ) && s in g.busy && FitsFor(m, st, g, s)
    requires st.cells[s].visible == VisibleOf(m, ValuationOf(m, g.sol), s)
    ensures var v, r := ValuationOf(m, g.sol), PlainText(m, st, s);
            && Fits(m, r.st, g) && r.val.str == TextOf(m, g.sol, s)
            && r.val.write == (st.cells[s].visible != NO || DefaultSymbol(m, v, s).Some?)
    decreases m.cfg.Keys - st.valid, 5
  {
    var c := st.cells[s];
    var c1 := c.(curr := SymbolValue("", NO), write := false);
    BusyFits(m, st, g, s, c1);
    TextFits(m, Busy(m, st, s, c1), g, s, c.visible);
  }

  lemma {:induction false} RangedTextFits(m: Model, st: State, g: Plan, s: Symbol, c: Cell, text: string)
    requires Inv(m, st) && s in st.valid && IsTextType(s.typ) && s in g.busy && FitsFor(m, st, g, s)
    ensures var r := RangedText(m, st, s, c, text); Fits(m, r.st, g) && r.val == InRange(m, g.sol, s, text)
    decreases m.cfg.Keys - st.valid, 5
  {
    var c1 := c.(curr := SymbolValue(text, NO), write := false);
    BusyFits(m, st, g, s, c1);
    RangeFits(m, Busy(m, st, s, c1), g, s, text);
  }

  lemma TextUpToDate(m: Model, sol: Assignment, s: Symbol, c: Cell, x: string, w: bool)
    requires Solution(m, sol) && s in m.cfg && IsTextType(s.typ) && Status(m, c, s, ValuationOf(m, sol))
    requires x == InRange(m, sol, s, TextOf(m, sol, s))
    requires w == (c.visible != NO || DefaultSymbol(m, ValuationOf(m, sol), s).Some?)
    ensures UpToDate(m, c.(curr := SymbolValue(x, NO), write := w && !m.cfg[s].isAuto), s, sol)
  {
    assert sol[s] == ValueFor(m, sol, s);
  }

  lemma TextDone(m: Model, st: State, g: Plan, s: Symbol, c: Cell, x: string, w: bool)
    requires Inv(m, st) && s in st.valid && IsTextType(s.typ) && s in g.busy && Fits(m, st, g)
    requires Status(m, c, s, ValuationOf(m, g.sol)) && x == InRange(m, g.sol, s, TextOf(m, g.sol, s))
    requires w == (c.visible != NO || DefaultSymbol(m, ValuationOf(m, g.sol), s).Some?)
    ensures var st' := Busy(m, st, s, c.(curr := SymbolValue(x, NO), write := w && !m.cfg[s].isAuto));
            Fits(m, st', g) && UpToDate(m, st'.cells[s], s, g.sol)
  {
    TextUpToDate(m, g.sol, s, c, x, w);
    BusyFits(m, st, g, s, c.(curr := SymbolValue(x, NO), write := w && !m.cfg[s].isAuto));
  }

  lemma {:induction false} FinishTextFits(m: Model, st: State, g: Plan, s: Symbol)
    requires Inv(m, st) && s in st.valid && IsTextType(s.typ) && s in g.busy && FitsFor(m, st, g, s)
    requires Status(m, st.cells[s], s, ValuationOf(m, g.sol))
    ensures var st' := FinishText(m, st, s); Fits(m, st', g) && UpToDate(m, st'.cells[s], s, g.sol)
    decreases m.cfg.Keys - st.valid, 7
  {
    var c := st.cells[s];
    PlainTextFits(m, st, g, s);
    var r := PlainText(m, st, s);
    RangedTextFits(m, r.st, g, s, c, r.val.str);
    var x := RangedText(m, r.st, s, c, r.val.str);
    TextDone(m, x.st, g, s, c, x.val, r.val.write);
  }

  /** A symbol without a type is worth its name. */
  lemma NameFits(m: Model, st: State, g: Plan, s: Symbol)
    requires Inv(m, st) && s in st.valid && !IsConstTriSymbol(s) && s in g.busy && Fits(m, st, g)
    requires !IsTruthType(s.typ) && !IsTextType(s.typ)
    ensures var st' := Recalculate(m, st, s); Fits(m, st', g) && UpToDate(m, st'.cells[s], s, g.sol)
  {
    BusyFits(m, st, g, s, st.cells[s].(curr := SymbolValue(s.name, NO)));
    assert g.sol[s] == ValueFor(m, g.sol, s);
  }

  lemma RecalculateTruth(m: Model, st: State, s: Symbol)
    requires Inv(m, st) && s in st.valid && !IsConstTriSymbol(s) && IsTruthType(s.typ)
    ensures Recalculate(m, st, s) == FinishTruth(m, CalcVisibility(m, st, s), s)
  {}

  lemma RecalculateText(m: Model, st: State, s: Symbol)
    requires Inv(m, st) && s in st.valid && !IsConstTriSymbol(s) && IsTextType(s.typ)
    ensures Recalculate(m, st, s) == FinishText(m, CalcVisibility(m, st, s), s)
  {}

  lemma {:induction false} TruthRecalculated(m: Model, st: State, g: Plan, s: Symbol)
    requires Inv(m, st) && s in st.valid && !IsConstTriSymbol(s) && s in g.busy && FitsFor(m, st, g, s)
    requires IsTruthType(s.typ)
    ensures var st' := Recalculate(m, st, s); Fits(m, st', g) && UpToDate(m, st'.cells[s], s, g.sol)
    decreases m.cfg.Keys - st.valid, 8, 0
  {
    RecalculateTruth(m, st, s);
    VisibilityFits(m, st, g, s);
    FinishTruthFits(m, CalcVisibility(m, st, s), g, s);
  }

  lemma {:induction false} TextRecalculated(m: Model, st: State, g: Plan, s: Symbol)
    requires Inv(m, st) && s in st.valid && !IsConstTriSymbol(s) && s in g.busy && FitsFor(m, st, g, s)
    requires IsTextType(s.typ)
    ensures var st' := Recalculate(m, st, s); Fits(m, st', g) && UpToDate(m, st'.cells[s], s, g.sol)
    decreases m.cfg.Keys - st.valid, 8, 0
  {
    RecalculateText(m, st, s);
    VisibilityFits(m, st, g, s);
    FinishTextFits(m, CalcVisibility(m, st, s), g, s);
  }

  lemma {:induction false} RecalculateFits(m: Model, st: State, g: Plan, s: Symbol)
    requires Inv(m, st) && s in st.valid && !IsConstTriSymbol(s) && s in g.busy && FitsFor(m, st, g, s)
    ensures var st' := Recalculate(m, st, s); Fits(m, st', g) && UpToDate(m, st'.cells[s], s, g.sol)
    decreases m.cfg.Keys - st.valid, 8, 1
  {
    if IsTruthType(s.typ) {
      TruthRecalculated(m, st, g, s);
    } else if IsTextType(s.typ) {
      TextRecalculated(m, st, g, s);
    } else {
      NameFits(m, st, g, s);
    }
  }

  /** sym_calc_value gives a symbol its value in the solution, and all it remembers is right. */
  lemma {:induction false} ValueFits(m: Model, st: State, g: Plan, s: Symbol)
    requires Inv(m, st) && s in m.cfg && Fits(m, st, g) && Below(g, {s})
    ensures var st' := CalcValue(m, st, s); Fits(m, st', g) && st'.cells[s].curr == g.sol[s]
    decreases m.cfg.Keys - st.valid, 0
  {
    if s in st.valid {
      ReadValid(m, st, g, s);
    } else {
      Begin(m, st, g, s);
      var st1 := st.(valid := st.valid + {s});
      RecalculateFits(m, st1, g.(busy := g.busy + {s}), s);
      Finish(m, Recalculate(m, st1, s), g, s);
    }
  }

  lemma OnlyConstants(m: Model, st: State, g: Plan)
    requires Inv(m, st) && st.valid == {symbolYes, symbolMod, symbolNo}
    requires Ordered(m.cfg, g.rank) && Solution(m, g.sol)
    ensures Fits(m, st, g)
  {
    assert g.sol[symbolYes] == ValueFor(m, g.sol, symbolYes);
    assert g.sol[symbolMod] == ValueFor(m, g.sol, symbolMod);
    assert g.sol[symbolNo] == ValueFor(m, g.sol, symbolNo);
  }

  /** The table after the symbols have been asked for one after the other. */
  function CalcEach(m: Model, st: State, order: seq<Symbol>): (st': State)
    requires Inv(m, st) && forall s :: s in order ==> s in m.cfg
    ensures Inv(m, st') && Kept(st, st') && forall s :: s in order ==> s in st'.valid
    decreases order
  {
    if order == [] then st else CalcEach(m, CalcValue(m, st, order[0]), order[1..])
  }

  lemma {:induction false} EachFits(m: Model, st: State, g: Plan, order: seq<Symbol>)
    requires Inv(m, st) && Fits(m, st, g) && g.busy == {} && forall s :: s in order ==> s in m.cfg
    ensures Fits(m, CalcEach(m, st, order), g)
    decreases order
  {
    if order != [] {
      ValueFits(m, st, g, order[0]);
      EachFits(m, CalcValue(m, st, order[0]), g, order[1..]);
    }
  }

  /** What a table says of all symbols. */
  function ValuesOf(st: State): Assignment { map s | s in st.cells :: st.cells[s].curr }

  /** Asking for all symbols, in whatever order and whatever was valid before, arrives at the one solution. */
  lemma EachSolves(m: Model, st: State, g: Plan, order: seq<Symbol>)
    requires Inv(m, st) && Fits(m, st, g) && g.busy == {} && forall s :: s in m.cfg <==> s in order
    ensures CalcEach(m, st, order).valid == m.cfg.Keys && ValuesOf(CalcEach(m, st, order)) == g.sol
  {
    EachFits(m, st, g, order);
    var st' := CalcEach(m, st, order);
    forall s | s in m.cfg
      ensures st'.cells[s].curr == g.sol[s]
    {
      ReadValid(m, st', g, s);
    }
  }
}
