/**
 What evaluation does to the table of symbols, as functions of the table (support/kconfig/symbol.c:
 sym_calc_visibility, sym_calc_value, sym_validate_range; expr.c: expr_calc_value). They are defined for every
 configuration, also where a symbol is asked for while its own evaluation is under way.
 */
module Evaluate {
  import opened Tristates
  import opened Expressions
  import opened Config

  /** The parts of struct symbol that evaluation writes: curr, visible, dir_dep.tri, rev_dep.tri, SYMBOL_WRITE. */
  datatype Cell = Cell(curr: SymbolValue, visible: Tristate, dir: Tristate, rev: Tristate, write: bool)

  /** The symbols with SYMBOL_VALID set, and what is remembered of each symbol. */
  datatype State = State(valid: set<Symbol>, cells: map<Symbol, Cell>)

  datatype Out<T> = Out(st: State, val: T)

  datatype Found = NotFound | Found(prop: Property, cond: Tristate)

  ghost predicate Inv(m: Model, st: State) {
    && Closed(m.cfg) && st.valid <= m.cfg.Keys && st.cells.Keys == m.cfg.Keys
    && symbolYes in st.valid && st.cells[symbolYes].curr == SymbolValue("y", YES)
    && symbolMod in st.valid && st.cells[symbolMod].curr == SymbolValue("m", MOD)
    && symbolNo in st.valid && st.cells[symbolNo].curr == SymbolValue("n", NO)
  }

  /** Evaluation adds valid symbols and leaves alone those that were valid. */
  ghost predicate Kept(st: State, st': State) {
    && st.valid <= st'.valid
    && forall t {:trigger st'.cells[t]} {:trigger t in st'.cells} :: t in st.valid && t in st.cells ==>
       t in st'.cells && st'.cells[t] == st.cells[t]
  }

  /** As Kept, but for `s`. */
  ghost predicate KeptOthers(st: State, st': State, s: Symbol) {
    && st.valid <= st'.valid
    && forall t {:trigger st'.cells[t]} {:trigger t in st'.cells} :: t in st.valid && t in st.cells && t != s ==>
       t in st'.cells && st'.cells[t] == st.cells[t]
  }

  lemma PropReads(d: Def, p: Property)
    requires p in d.props && IsRead(p)
    ensures SymsOpt(p.visible) <= Reads(d) && BodySyms(p.body) <= Reads(d)
  {
    assert forall t :: t in PropSyms(p) ==> t in Reads(d);
  }

  /** Write a symbol whose evaluation is under way. */
  function Busy(m: Model, st: State, s: Symbol, c: Cell): (st': State)
    requires Inv(m, st) && s in st.valid && !IsConstTriSymbol(s)
    ensures Inv(m, st') && KeptOthers(st, st', s) && st'.valid == st.valid && st'.cells[s] == c
  {
    assert st.cells[s := c].Keys == st.cells.Keys;
    st.(cells := st.cells[s := c])
  }

  /** expr_calc_value */
  function CalcExpr(m: Model, st: State, e: Expr): (r: Out<Tristate>)
    requires Inv(m, st) && Syms(e) <= m.cfg.Keys
    ensures Inv(m, r.st) && Kept(st, r.st)
    decreases m.cfg.Keys - st.valid, 1, e
  {
    match e
    case Sym(s) =>
      var st1 := CalcValue(m, st, s);
      Out(st1, st1.cells[s].curr.tri)
    case Not(a) =>
      var r := CalcExpr(m, st, a);
      Out(r.st, Negate(r.val))
    case Bin(op, l, r) =>
      var x := CalcExpr(m, st, l);
      var y := CalcExpr(m, x.st, r);
      Out(y.st, Apply(op, x.val, y.val))
    case Cmp(equal, a, b) =>
      var st1 := CalcValue(m, st, a);
      var st2 := CalcValue(m, st1, b);
      var same := StringOf(m.modules, a, st2.cells[a].curr) == StringOf(m.modules, b, st2.cells[b].curr);
      Out(st2, if same == equal then YES else NO)
  }

  function CalcOpt(m: Model, st: State, e: Option<Expr>): (r: Out<Tristate>)
    requires Inv(m, st) && SymsOpt(e) <= m.cfg.Keys
    ensures Inv(m, r.st) && Kept(st, r.st)
    decreases m.cfg.Keys - st.valid, 2
  {
    if e.None? then Out(st, YES) else CalcExpr(m, st, e.value)
  }

  /** The loop over prompts in sym_calc_visibility, from index `i` on. */
  function CalcPrompts(m: Model, st: State, s: Symbol, i: nat, t: Tristate): (r: Out<Tristate>)
    requires Inv(m, st) && s in m.cfg && i <= |m.cfg[s].props|
    ensures Inv(m, r.st) && Kept(st, r.st)
    decreases m.cfg.Keys - st.valid, 3, |m.cfg[s].props| - i
  {
    var ps := m.cfg[s].props;
    if i == |ps| then Out(st, t)
    else if ps[i].hasText then
      PropReads(m.cfg[s], ps[i]);
      var u := CalcOpt(m, st, ps[i].visible);
      CalcPrompts(m, u.st, s, i + 1, Max(t, u.val))
    else CalcPrompts(m, st, s, i + 1, t)
  }

  /** sym_get_default_prop and sym_get_range_prop, from index `i` on */
  function FindProp(m: Model, st: State, s: Symbol, kind: PropKind, i: nat): (r: Out<Found>)
    requires Inv(m, st) && s in m.cfg && i <= |m.cfg[s].props| && (kind == Default || kind == Range)
    ensures Inv(m, r.st) && Kept(st, r.st)
    ensures r.val.Found? ==> r.val.prop in m.cfg[s].props && r.val.prop.kind == kind
    decreases m.cfg.Keys - st.valid, 3, |m.cfg[s].props| - i
  {
    var ps := m.cfg[s].props;
    if i == |ps| then Out(st, NotFound)
    else if ps[i].kind == kind then
      PropReads(m.cfg[s], ps[i]);
      var u := CalcOpt(m, st, ps[i].visible);
      if u.val != NO then Out(u.st, Found(ps[i], u.val)) else FindProp(m, u.st, s, kind, i + 1)
    else FindProp(m, st, s, kind, i + 1)
  }

  /** The direct dependency as sym_calc_visibility computes it. */
  function CalcDir(m: Model, st: State, s: Symbol): (r: Out<Tristate>)
    requires Inv(m, st) && s in m.cfg
    ensures Inv(m, r.st) && Kept(st, r.st)
    decreases m.cfg.Keys - st.valid, 4
  {
    assert SymsOpt(m.cfg[s].dirDep) <= Reads(m.cfg[s]);
    var r := CalcOpt(m, st, m.cfg[s].dirDep);
    Out(r.st, if r.val == NO then NO else YES)
  }

  /** The reverse dependency as sym_calc_visibility computes it. */
  function CalcRev(m: Model, st: State, s: Symbol): (r: Out<Tristate>)
    requires Inv(m, st) && s in m.cfg
    ensures Inv(m, r.st) && Kept(st, r.st)
    decreases m.cfg.Keys - st.valid, 4
  {
    assert SymsOpt(m.cfg[s].revDep) <= Reads(m.cfg[s]);
    if m.cfg[s].revDep.None? then Out(st, NO)
    else
      var r := CalcExpr(m, st, m.cfg[s].revDep.value);
      Out(r.st, if r.val == MOD && ActsBoolean(m, s) then YES else r.val)
  }

  /** sym_calc_visibility */
  function CalcVisibility(m: Model, st: State, s: Symbol): (st': State)
    requires Inv(m, st) && s in st.valid && !IsConstTriSymbol(s)
    ensures Inv(m, st') && KeptOthers(st, st', s)
    decreases m.cfg.Keys - st.valid, 6
  {
    var p := CalcPrompts(m, st, s, 0, NO);
    var vis := if p.val == MOD && (s.typ != Tri || m.modules == NO) then YES else p.val;
    var d := CalcDir(m, p.st, s);
    var r := CalcRev(m, d.st, s);
    Busy(m, r.st, s, r.st.cells[s].(visible := vis, dir := d.val, rev := r.val))
  }

  datatype Truth = Truth(tri: Tristate, write: bool)
  datatype Text = Text(str: string, write: bool)

  /** The active default of a boolean or tristate symbol, limited by its condition. */
  function CalcDefault(m: Model, st: State, s: Symbol): (r: Out<Option<Tristate>>)
    requires Inv(m, st) && s in m.cfg
    ensures Inv(m, r.st) && Kept(st, r.st)
    decreases m.cfg.Keys - st.valid, 4
  {
    var f := FindProp(m, st, s, Default, 0);
    if f.val.NotFound? then Out(f.st, None)
    else
      PropReads(m.cfg[s], f.val.prop);
      var r := CalcExpr(m, f.st, f.val.prop.body.expr);
      Out(r.st, Some(Min(r.val, f.val.cond)))
  }

  /** The boolean and tristate case of sym_calc_value: the new value, and whether SYMBOL_WRITE gets set. */
  function CalcTruth(m: Model, st: State, s: Symbol, vis: Tristate, rev: Tristate): (r: Out<Truth>)
    requires Inv(m, st) && s in m.cfg
    ensures Inv(m, r.st) && Kept(st, r.st)
    decreases m.cfg.Keys - st.valid, 5
  {
    if vis != NO && s in m.user then Out(st, Truth(Promoted(m, s, Max(Min(m.user[s].tri, vis), rev)), true))
    else
      var d := CalcDefault(m, st, s);
      if d.val.None? then Out(d.st, Truth(Promoted(m, s, rev), vis != NO || rev != NO))
      else Out(d.st, Truth(Promoted(m, s, Max(d.val.value, rev)), true))
  }

  /** Booleans are never m. */
  function Promoted(m: Model, s: Symbol, t: Tristate): Tristate { if t == MOD && ActsBoolean(m, s) then YES else t }

  /** The string, hex and int case of sym_calc_value, before the range is looked at. */
  function CalcText(m: Model, st: State, s: Symbol, vis: Tristate): (r: Out<Text>)
    requires Inv(m, st) && s in m.cfg
    ensures Inv(m, r.st) && Kept(st, r.st)
    decreases m.cfg.Keys - st.valid, 4
  {
    if vis != NO && s in m.user then Out(st, Text(m.user[s].str, true))
    else
      var f := FindProp(m, st, s, Default, 0);
      if f.val.NotFound? || !f.val.prop.body.expr.Sym? then Out(f.st, Text("", vis != NO))
      else
        PropReads(m.cfg[s], f.val.prop);
        var d := f.val.prop.body.expr.sym;
        assert d in Syms(f.val.prop.body.expr);
        var st1 := CalcValue(m, f.st, d);
        Out(st1, Text(st1.cells[d].curr.str, true))
  }

  /** sym_get_range_val */
  function RangeVal(m: Model, st: State, b: Symbol, base: nat): (r: Out<int>)
    requires Inv(m, st) && b in m.cfg
    ensures Inv(m, r.st) && Kept(st, r.st)
    decreases m.cfg.Keys - st.valid, 1
  {
    var st1 := CalcValue(m, st, b);
    Out(st1, m.strtoll(st1.cells[b].curr.str, BaseOf(b.typ, base)))
  }

  /** The end of sym_validate_range: the text moved into the range `p`. */
  function Clamp(m: Model, st: State, s: Symbol, text: string, p: Property): (r: Out<string>)
    requires Inv(m, st) && s in m.cfg && p in m.cfg[s].props && p.kind == Range && p.body.Bounds?
    ensures Inv(m, r.st) && Kept(st, r.st)
    decreases m.cfg.Keys - st.valid, 3
  {
    PropReads(m.cfg[s], p);
    assert p.body.low in Reads(m.cfg[s]) && p.body.high in Reads(m.cfg[s]);
    var base := BaseOf(s.typ, 0);
    var low := RangeVal(m, st, p.body.low, base);
    if m.strtoll(text, base) < low.val then Out(low.st, m.show(s.typ, low.val))
    else
      var high := RangeVal(m, low.st, p.body.high, base);
      Out(high.st, if m.strtoll(text, base) <= high.val then text else m.show(s.typ, high.val))
  }

  /** sym_validate_range: the text to keep */
  function CalcRange(m: Model, st: State, s: Symbol, text: string): (r: Out<string>)
    requires Inv(m, st) && s in m.cfg
    ensures Inv(m, r.st) && Kept(st, r.st)
    decreases m.cfg.Keys - st.valid, 4
  {
    if s.typ != Int && s.typ != Hex then Out(st, text)
    else
      var f := FindProp(m, st, s, Range, 0);
      if f.val.NotFound? then Out(f.st, text) else Clamp(m, f.st, s, text, f.val.prop)
  }

  /** The boolean and tristate part of sym_calc_value; until it is done the symbol is seen as n. */
  function FinishTruth(m: Model, st: State, s: Symbol): (st': State)
    requires Inv(m, st) && s in st.valid && IsTruthType(s.typ) && !IsConstTriSymbol(s)
    ensures Inv(m, st') && KeptOthers(st, st', s)
    decreases m.cfg.Keys - st.valid, 7
  {
    var c := st.cells[s];
    var st1 := Busy(m, st, s, c.(curr := SymbolValue("n", NO), write := false));
    var r := CalcTruth(m, st1, s, c.visible, c.rev);
    Busy(m, r.st, s, c.(curr := SymbolValue("n", r.val.tri), write := r.val.write && !m.cfg[s].isAuto))
  }

  /** The text of a symbol; it is seen as empty meanwhile. */
  function PlainText(m: Model, st: State, s: Symbol): (r: Out<Text>)
    requires Inv(m, st) && s in st.valid && IsTextType(s.typ)
    ensures Inv(m, r.st) && KeptOthers(st, r.st, s)
    decreases m.cfg.Keys - st.valid, 5
  {
    var c := st.cells[s];
    CalcText(m, Busy(m, st, s, c.(curr := SymbolValue("", NO), write := false)), s, c.visible)
  }

  /** The text moved into its range; the text itself is seen meanwhile. */
  function RangedText(m: Model, st: State, s: Symbol, c: Cell, text: string): (r: Out<string>)
    requires Inv(m, st) && s in st.valid && IsTextType(s.typ)
    ensures Inv(m, r.st) && KeptOthers(st, r.st, s)
    decreases m.cfg.Keys - st.valid, 5
  {
    CalcRange(m, Busy(m, st, s, c.(curr := SymbolValue(text, NO), write := false)), s, text)
  }

  /** The string, hex and int part of sym_calc_value. */
  function FinishText(m: Model, st: State, s: Symbol): (st': State)
    requires Inv(m, st) && s in st.valid && IsTextType(s.typ)
    ensures Inv(m, st') && KeptOthers(st, st', s)
    decreases m.cfg.Keys - st.valid, 7
  {
    var c := st.cells[s];
    var r := PlainText(m, st, s);
    var x := RangedText(m, r.st, s, c, r.val.str);
    Busy(m, x.st, s, c.(curr := SymbolValue(x.val, NO), write := r.val.write && !m.cfg[s].isAuto))
  }

  /** sym_calc_value once SYMBOL_VALID is set */
  function Recalculate(m: Model, st: State, s: Symbol): (st': State)
    requires Inv(m, st) && s in st.valid && !IsConstTriSymbol(s)
    ensures Inv(m, st') && KeptOthers(st, st', s)
    decreases m.cfg.Keys - st.valid, 8
  {
    if IsTruthType(s.typ) then FinishTruth(m, CalcVisibility(m, st, s), s)
    else if IsTextType(s.typ) then FinishText(m, CalcVisibility(m, st, s), s)
    else Busy(m, st, s, st.cells[s].(curr := SymbolValue(s.name, NO)))
  }

  /** sym_calc_value */
  function CalcValue(m: Model, st: State, s: Symbol): (st': State)
    requires Inv(m, st) && s in m.cfg
    ensures Inv(m, st') && Kept(st, st') && s in st'.valid
    decreases m.cfg.Keys - st.valid, 0
  {
    if s in st.valid then st else Recalculate(m, st.(valid := st.valid + {s}), s)
  }
}
