/**
 Memoised evaluation of symbols (support/kconfig/symbol.c: sym_calc_visibility, sym_calc_value,
 sym_clear_all_valid, sym_tristate_within_range, sym_set_tristate_value; expr.c: expr_calc_value). Each method does to
 the table what the function of the same name says.
 */
module SymbolTable {
  import opened Tristates
  import opened Expressions
  import opened Config
  import E = Evaluate
  import opened Evaluation
  import opened Meaning
  import opened Calculated
  import opened Texts

  type Cell = E.Cell
  type State = E.State

  /** Reading a symbol gives its value in the solution, and all that is remembered of it means what it should. */
  lemma ReadFits(m: Model, st: State, g: Plan, s: Symbol)
    requires E.Inv(m, st) && Fits(m, st, g) && g.busy == {} && s in m.cfg
    ensures var c := E.CalcValue(m, st, s).cells[s];
            && c.curr == g.sol[s] && Means(m, g.sol, s, c.curr)
            && (IsTruthType(s.typ) || IsTextType(s.typ) ==> CellMeans(m, ValuationOf(m, g.sol), s, c))
  {
    ValueFits(m, st, g, s);
    ReadValid(m, E.CalcValue(m, st, s), g, s);
    CellIs(m, E.CalcValue(m, st, s), g, s);
  }

  /** What will be read after a text has been accepted. */
  lemma TextAfterSet(m: Model, m': Model, st: State, g: Plan, s: Symbol, t: string) returns (h: Plan)
    requires s in m.cfg && IsTextType(s.typ) && PrefixIgnored(m) && m' == AssignedText(m, s, t) && E.Inv(m', st)
    requires Ordered(m.cfg, g.rank) && Solution(m, g.sol) && g.busy == {} && AcceptsText(m, g.sol, s, t)
    requires st.valid == {symbolYes, symbolMod, symbolNo} || Fits(m', st, g)
    ensures Fits(m', st, h) && h.busy == {}
    ensures h.sol[s].str == Stored(s.typ, t) <==>
            VisibleOf(m, ValuationOf(m, g.sol), s) != NO || g.sol[s].str == Stored(s.typ, t)
  {
    VisibleIs(m, ValuationOf(m, g.sol), s);
    h := g;
    if st.valid == {symbolYes, symbolMod, symbolNo} {
      var sol := SolutionExists(m', g.rank);
      h := Plan(g.rank, sol, {});
      OnlyConstants(m', st, h);
    }
    AcceptedTextSticks(m, g.rank, g.sol, h.sol, s, t);
  }

  class Table {
    const cfg: map<Symbol, Def>
    const modules: Tristate
    const strtoll: (string, nat) -> int
    const show: (SymbolType, int) -> string
    var valid: set<Symbol>
    var cells: map<Symbol, Cell>
    var user: map<Symbol, SymbolValue>

    ghost function Mod(): Model
      reads this
    {
      Model(cfg, user, modules, strtoll, show)
    }

    ghost function Now(): State
      reads this
    {
      E.State(valid, cells)
    }

    ghost predicate Inv()
      reads this
    {
      E.Inv(Mod(), Now())
    }

    /** sym_get_type is S_BOOLEAN */
    method IsBoolean(s: Symbol) returns (b: bool)
      ensures b == ActsBoolean(Mod(), s)
    {
      b := s.typ == Boolean || (s.typ == Tri && modules == NO);
    }

    /** Write a symbol whose evaluation is under way. */
    method Store(s: Symbol, c: Cell)
      requires Inv() && s in valid && !IsConstTriSymbol(s)
      modifies this`cells
      ensures Inv() && Now() == old(E.Busy(Mod(), Now(), s, c))
    {
      cells := cells[s := c];
    }

    /** expr_calc_value */
    method CalcExpr(e: Expr) returns (t: Tristate)
      requires Inv() && Syms(e) <= cfg.Keys
      modifies this`valid, this`cells
      ensures Inv() && E.Out(Now(), t) == old(E.CalcExpr(Mod(), Now(), e))
      decreases cfg.Keys - valid, 1, e
    {
      match e
      case Sym(s) =>
        CalcValue(s);
        t := cells[s].curr.tri;
      case Not(a) =>
        t := CalcExpr(a);
        t := Negate(t);
      case Bin(op, l, r) =>
        t := CalcExpr(l);
        var u := CalcExpr(r);
        t := Apply(op, t, u);
      case Cmp(equal, a, b) =>
        CalcValue(a);
        CalcValue(b);
        var x := StringOf(modules, a, cells[a].curr);
        var y := StringOf(modules, b, cells[b].curr);
        t := if (x == y) == equal then YES else NO;
    }

    /** expr_calc_value of an optional condition */
    method CalcOpt(e: Option<Expr>) returns (t: Tristate)
      requires Inv() && SymsOpt(e) <= cfg.Keys
      modifies this`valid, this`cells
      ensures Inv() && E.Out(Now(), t) == old(E.CalcOpt(Mod(), Now(), e))
      decreases cfg.Keys - valid, 1
    {
      t := YES;
      if e.Some? {
        t := CalcExpr(e.value);
      }
    }

    /** The condition of a property that is looked at. */
    method CalcCond(s: Symbol, p: Property) returns (t: Tristate)
      requires Inv() && s in cfg && p in cfg[s].props && IsRead(p)
      modifies this`valid, this`cells
      ensures Inv() && old(valid) <= valid && SymsOpt(p.visible) <= cfg.Keys
      ensures E.Out(Now(), t) == old(E.CalcOpt(Mod(), Now(), p.visible))
      decreases cfg.Keys - valid, 2
    {
      E.PropReads(cfg[s], p);
      t := CalcOpt(p.visible);
    }

    /** The loop over prompts in sym_calc_visibility. */
    method CalcPrompts(s: Symbol) returns (t: Tristate)
      requires Inv() && s in cfg
      modifies this`valid, this`cells
      ensures Inv() && E.Out(Now(), t) == old(E.CalcPrompts(Mod(), Now(), s, 0, NO))
      decreases cfg.Keys - valid, 4
    {
      var ps := cfg[s].props;
      ghost var result := E.CalcPrompts(Mod(), Now(), s, 0, NO);
      t := NO;
      for i := 0 to |ps|
        invariant Inv() && old(valid) <= valid && E.CalcPrompts(Mod(), Now(), s, i, t) == result
      {
        if ps[i].hasText {
          var u := CalcCond(s, ps[i]);
          t := Max(t, u);
        }
      }
    }

    /** sym_get_default_prop and sym_get_range_prop: the first property of a kind whose condition is not n. */
    method FindActive(s: Symbol, kind: PropKind) returns (f: E.Found)
      requires Inv() && s in cfg && (kind == Default || kind == Range)
      modifies this`valid, this`cells
      ensures Inv() && E.Out(Now(), f) == old(E.FindProp(Mod(), Now(), s, kind, 0))
      decreases cfg.Keys - valid, 3
    {
      var ps := cfg[s].props;
      ghost var found := E.FindProp(Mod(), Now(), s, kind, 0);
      for i := 0 to |ps|
        invariant Inv() && old(valid) <= valid && E.FindProp(Mod(), Now(), s, kind, i) == found
      {
        if ps[i].kind == kind {
          var t := CalcCond(s, ps[i]);
          if t != NO {
            return E.Found(ps[i], t);
          }
        }
      }
      f := E.NotFound;
    }

    /** The direct dependency as sym_calc_visibility computes it. */
    method CalcDir(s: Symbol) returns (dir: Tristate)
      requires Inv() && s in cfg
      modifies this`valid, this`cells
      ensures Inv() && E.Out(Now(), dir) == old(E.CalcDir(Mod(), Now(), s))
      decreases cfg.Keys - valid, 4
    {
      assert SymsOpt(cfg[s].dirDep) <= Reads(cfg[s]);
      dir := CalcOpt(cfg[s].dirDep);
      dir := if dir == NO then NO else YES;
    }

    /** The reverse dependency as sym_calc_visibility computes it. */
    method CalcRev(s: Symbol) returns (rev: Tristate)
      requires Inv() && s in cfg
      modifies this`valid, this`cells
      ensures Inv() && E.Out(Now(), rev) == old(E.CalcRev(Mod(), Now(), s))
      decreases cfg.Keys - valid, 4
    {
      assert SymsOpt(cfg[s].revDep) <= Reads(cfg[s]);
      rev := NO;
      if cfg[s].revDep.Some? {
        rev := CalcExpr(cfg[s].revDep.value);
        var boolean := IsBoolean(s);
        rev := if rev == MOD && boolean then YES else rev;
      }
    }

    /** sym_calc_visibility */
    method CalcVisibility(s: Symbol)
      requires Inv() && s in valid && !IsConstTriSymbol(s)
      modifies this`valid, this`cells
      ensures Inv() && Now() == old(E.CalcVisibility(Mod(), Now(), s))
      decreases cfg.Keys - valid, 6
    {
      var vis := CalcPrompts(s);
      vis := if vis == MOD && (s.typ != Tri || modules == NO) then YES else vis;
      var dir := CalcDir(s);
      var rev := CalcRev(s);
      Store(s, cells[s].(visible := vis, dir := dir, rev := rev));
    }

    /** The active default of a boolean or tristate symbol, limited by its condition. */
    method CalcDefault(s: Symbol) returns (t: Option<Tristate>)
      requires Inv() && s in cfg
      modifies this`valid, this`cells
      ensures Inv() && E.Out(Now(), t) == old(E.CalcDefault(Mod(), Now(), s))
      decreases cfg.Keys - valid, 4
    {
      var f := FindActive(s, Default);
      if f.NotFound? {
        return None;
      }
      E.PropReads(cfg[s], f.prop);
      var u := CalcExpr(f.prop.body.expr);
      t := Some(Min(u, f.cond));
    }

    /** The boolean and tristate case of sym_calc_value: the new value, and whether SYMBOL_WRITE gets set. */
    method CalcTruth(s: Symbol, vis: Tristate, rev: Tristate) returns (t: Tristate, write: bool)
      requires Inv() && s in cfg
      modifies this`valid, this`cells
      ensures Inv() && E.Out(Now(), E.Truth(t, write)) == old(E.CalcTruth(Mod(), Now(), s, vis, rev))
      decreases cfg.Keys - valid, 5
    {
      t := NO;
      write := vis != NO;
      if vis != NO && s in user {
        t := Min(user[s].tri, vis);
      } else {
        write := write || rev != NO;
        var d := CalcDefault(s);
        if d.Some? {
          write := true;
          t := d.value;
        }
      }
      t := Max(t, rev);
      var boolean := IsBoolean(s);
      if t == MOD && boolean {
        t := YES;
      }
    }

    /** The string, hex and int case of sym_calc_value, before the range is looked at. */
    method CalcText(s: Symbol, vis: Tristate) returns (x: string, write: bool)
      requires Inv() && s in cfg
      modifies this`valid, this`cells
      ensures Inv() && E.Out(Now(), E.Text(x, write)) == old(E.CalcText(Mod(), Now(), s, vis))
      decreases cfg.Keys - valid, 4
    {
      x := "";
      write := vis != NO;
      if vis != NO && s in user {
        x := user[s].str;
      } else {
        var f := FindActive(s, Default);
        if f.Found? && f.prop.body.expr.Sym? {
          write := true;
          E.PropReads(cfg[s], f.prop);
          var d := f.prop.body.expr.sym;
          assert d in Syms(f.prop.body.expr);
          CalcValue(d);
          x := cells[d].curr.str;
        }
      }
    }

    /** sym_get_range_val */
    method RangeVal(b: Symbol, base: nat) returns (x: int)
      requires Inv() && b in cfg
      modifies this`valid, this`cells
      ensures Inv() && E.Out(Now(), x) == old(E.RangeVal(Mod(), Now(), b, base))
      decreases cfg.Keys - valid, 1
    {
      CalcValue(b);
      x := strtoll(cells[b].curr.str, BaseOf(b.typ, base));
    }

    /** The end of sym_validate_range: the text moved into the range `p`. */
    method Clamp(s: Symbol, text: string, p: Property) returns (x: string)
      requires Inv() && s in cfg && p in cfg[s].props && p.kind == Range && p.body.Bounds?
      modifies this`valid, this`cells
      ensures Inv() && E.Out(Now(), x) == old(E.Clamp(Mod(), Now(), s, text, p))
      decreases cfg.Keys - valid, 3
    {
      E.PropReads(cfg[s], p);
      assert p.body.low in Reads(cfg[s]) && p.body.high in Reads(cfg[s]);
      var base := BaseOf(s.typ, 0);
      var val := strtoll(text, base);
      var val2 := RangeVal(p.body.low, base);
      if val >= val2 {
        val2 := RangeVal(p.body.high, base);
        if val <= val2 {
          return text;
        }
      }
      x := show(s.typ, val2);
    }

    /** sym_validate_range: the text to keep */
    method CalcRange(s: Symbol, text: string) returns (x: string)
      requires Inv() && s in cfg
      modifies this`valid, this`cells
      ensures Inv() && E.Out(Now(), x) == old(E.CalcRange(Mod(), Now(), s, text))
      decreases cfg.Keys - valid, 4
    {
      if s.typ != Int && s.typ != Hex {
        return text;
      }
      var f := FindActive(s, Range);
      if f.NotFound? {
        return text;
      }
      x := Clamp(s, text, f.prop);
    }

    /** The boolean and tristate part of sym_calc_value, once the visibility is known. */
    method FinishTruth(s: Symbol)
      requires Inv() && s in valid && IsTruthType(s.typ) && !IsConstTriSymbol(s)
      modifies this`valid, this`cells
      ensures Inv() && Now() == old(E.FinishTruth(Mod(), Now(), s))
      decreases cfg.Keys - valid, 7
    {
      var c := cells[s];
      // the value seen if s is asked for again before it is done
      Store(s, c.(curr := SymbolValue("n", NO), write := false));
      var t, w := CalcTruth(s, c.visible, c.rev);
      Store(s, c.(curr := SymbolValue("n", t), write := w && !cfg[s].isAuto));
    }

    /** The text of a symbol, shown as empty while it is looked for. */
    method PlainText(s: Symbol) returns (x: string, w: bool)
      requires Inv() && s in valid && IsTextType(s.typ)
      modifies this`valid, this`cells
      ensures Inv() && E.Out(Now(), E.Text(x, w)) == old(E.PlainText(Mod(), Now(), s))
      decreases cfg.Keys - valid, 5
    {
      var c := cells[s];
      Store(s, c.(curr := SymbolValue("", NO), write := false));
      x, w := CalcText(s, c.visible);
    }

    /** The text moved into its range, the unchecked text being shown meanwhile. */
    method RangedText(s: Symbol, c: Cell, text: string) returns (x: string)
      requires Inv() && s in valid && IsTextType(s.typ)
      modifies this`valid, this`cells
      ensures Inv() && E.Out(Now(), x) == old(E.RangedText(Mod(), Now(), s, c, text))
      decreases cfg.Keys - valid, 5
    {
      Store(s, c.(curr := SymbolValue(text, NO), write := false));
      x := CalcRange(s, text);
    }

    /** The string, hex and int part of sym_calc_value, once the visibility is known. */
    method FinishText(s: Symbol)
      requires Inv() && s in valid && IsTextType(s.typ)
      modifies this`valid, this`cells
      ensures Inv() && Now() == old(E.FinishText(Mod(), Now(), s))
      decreases cfg.Keys - valid, 7
    {
      var c := cells[s];
      var text, w := PlainText(s);
      var x := RangedText(s, c, text);
      Store(s, c.(curr := SymbolValue(x, NO), write := w && !cfg[s].isAuto));
    }

    /** sym_calc_value once SYMBOL_VALID is set */
    method Recalculate(s: Symbol)
      requires Inv() && s in valid && !IsConstTriSymbol(s)
      modifies this`valid, this`cells
      ensures Inv() && Now() == old(E.Recalculate(Mod(), Now(), s))
      decreases cfg.Keys - valid, 8
    {
      if IsTruthType(s.typ) {
        CalcVisibility(s);
        FinishTruth(s);
      } else if IsTextType(s.typ) {
        CalcVisibility(s);
        FinishText(s);
      } else {
        Store(s, cells[s].(curr := SymbolValue(s.name, NO)));
      }
    }

    /** sym_calc_value */
    method CalcValue(s: Symbol)
      requires Inv() && s in cfg
      modifies this`valid, this`cells
      ensures Inv() && Now() == old(E.CalcValue(Mod(), Now(), s))
      decreases cfg.Keys - valid, 0
    {
      if s in valid {
        return;
      }
      valid := valid + {s};
      Recalculate(s);
    }

    /** Asking for symbols one after the other, whether values can be ordered or not. */
    method CalcEach(order: seq<Symbol>)
      requires Inv() && forall s :: s in order ==> s in cfg
      modifies this`valid, this`cells
      ensures Inv() && Now() == old(Evaluation.CalcEach(Mod(), Now(), order))
    {
      for i := 0 to |order|
        invariant Inv() &&
                  Evaluation.CalcEach(Mod(), Now(), order[i..]) == old(Evaluation.CalcEach(Mod(), Now(), order))
      {
        assert order[i] in order && order[i..][0] == order[i] && order[i..][1..] == order[i + 1..];
        CalcValue(order[i]);
      }
      assert order[|order|..] == [];
    }

    /** Evaluating all symbols, in whatever order and whatever was valid before, arrives at the one solution. */
    method CalcAll(order: seq<Symbol>, ghost g: Plan)
      requires Inv() && Fits(Mod(), Now(), g) && g.busy == {}
      requires forall s :: s in cfg <==> s in order
      modifies this`valid, this`cells
      ensures Inv() && Fits(Mod(), Now(), g) && valid == cfg.Keys
      ensures ValuesOf(Now()) == g.sol && Solution(Mod(), ValuesOf(Now())) && AllMean(Mod(), Now())
    {
      EachFits(Mod(), Now(), g, order);
      EachSolves(Mod(), Now(), g, order);
      CalcEach(order);
      FitsMean(Mod(), Now(), g);
    }

    /** sym_clear_all_valid: only y, m and n, which are in no hash chain, stay valid */
    method ClearAllValid()
      requires Inv()
      modifies this`valid
      ensures Inv() && valid == {symbolYes, symbolMod, symbolNo}
      ensures forall g: Plan :: Ordered(cfg, g.rank) && Solution(Mod(), g.sol) ==> Fits(Mod(), Now(), g)
    {
      valid := {symbolYes, symbolMod, symbolNo};
      forall g: Plan | Ordered(cfg, g.rank) && Solution(Mod(), g.sol)
        ensures Fits(Mod(), Now(), g)
      {
        OnlyConstants(Mod(), Now(), g);
      }
    }

    /** sym_set_tristate_value on a symbol of a choice-free configuration */
    method SetTristate(s: Symbol, val: Tristate) returns (ok: bool)
      requires Inv() && s in cfg && !IsConstTriSymbol(s)
      modifies this`valid, this`user
      ensures Inv()
      ensures ok == (old(cells[s].curr.tri) == val || WithinRange(old(Mod()), s, cells[s].visible, cells[s].rev, val))
      ensures !ok ==> Now() == old(Now()) && user == old(user)
      ensures ok ==> Mod() == Assigned(old(Mod()), s, val)
      ensures ok ==> valid == if old(cells[s].curr.tri) == val then old(valid) else {symbolYes, symbolMod, symbolNo}
    {
      var oldval := cells[s].curr.tri;
      var c := cells[s];
      var boolean := s.typ == Boolean || (s.typ == Tri && modules == NO);
      var inRange := c.visible != NO && IsTruthType(s.typ) && !(boolean && val == MOD)
                     && c.visible > c.rev && val >= c.rev && val <= c.visible;
      if oldval != val && !inRange {
        return false;
      }
      user := user[s := SymbolValue(if s in user then user[s].str else "", val)];
      if oldval != val {
        ClearAllValid();
      }
      return true;
    }

    /** Setting a value that is in range, then asking for it. */
    method SetAndRead(s: Symbol, val: Tristate, ghost g: Plan) returns (ok: bool, t: Tristate)
      requires Inv() && Fits(Mod(), Now(), g) && g.busy == {} && s in valid
      requires !IsConstTriSymbol(s) && IsTruthType(s.typ)
      modifies this
      ensures Inv()
      ensures ok ==> t == val
      ensures ok == (old(cells[s].curr.tri) == val || old(WithinRange(Mod(), s, cells[s].visible, cells[s].rev, val)))
    {
      ReadValid(Mod(), Now(), g, s);
      assert UpToDate(Mod(), cells[s], s, g.sol);
      ghost var m := Mod();
      ghost var kept := cells[s].curr.tri == val;
      ok := SetTristate(s, val);
      if ok && !kept {
        ghost var sol := SolutionExists(Mod(), g.rank);
        var h := Plan(g.rank, sol, {});
        OnlyConstants(Mod(), Now(), h);
        AcceptedValueSticks(m, g.rank, g.sol, sol, s, val);
        ValueFits(Mod(), Now(), h, s);
      }
      CalcValue(s);
      t := cells[s].curr.tri;
    }

    /** The end of sym_string_within_range: whether a number lies within the range `p`. */
    method WithinBounds(s: Symbol, t: string, p: Property, ghost g: Plan) returns (ok: bool)
      requires Inv() && Fits(Mod(), Now(), g) && g.busy == {} && s in cfg
      requires p in cfg[s].props && p.kind == Range && p.body.Bounds?
      modifies this`valid, this`cells
      ensures Inv() && Fits(Mod(), Now(), g) && E.Kept(old(Now()), Now())
      ensures var base := BaseOf(s.typ, 0);
              ok <==> BoundOf(Mod(), g.sol, p.body.low, base) <= strtoll(t, base) <=
                      BoundOf(Mod(), g.sol, p.body.high, base)
    {
      E.PropReads(cfg[s], p);
      assert p.body.low in Reads(cfg[s]) && p.body.high in Reads(cfg[s]);
      var base := BaseOf(s.typ, 0);
      var val := strtoll(t, base);
      RangeValFits(Mod(), Now(), g, p.body.low, base);
      var val2 := RangeVal(p.body.low, base);
      if val < val2 {
        return false;
      }
      RangeValFits(Mod(), Now(), g, p.body.high, base);
      val2 := RangeVal(p.body.high, base);
      ok := val <= val2;
    }

    /** sym_string_within_range for symbols that are no booleans and tristates */
    method StringWithinRange(s: Symbol, t: string, ghost g: Plan) returns (ok: bool)
      requires Inv() && Fits(Mod(), Now(), g) && g.busy == {} && s in cfg && !IsTruthType(s.typ)
      modifies this`valid, this`cells
      ensures Inv() && Fits(Mod(), Now(), g) && E.Kept(old(Now()), Now())
      ensures ok == AcceptsText(Mod(), g.sol, s, t)
    {
      ok := StringValid(s.typ, t);
      if !ok || s.typ == Str {
        return;
      }
      FindsFirst(Mod(), Now(), g, s, Range);
      var f := FindActive(s, Range);
      if f.Found? {
        ok := WithinBounds(s, t, f.prop, g);
      }
    }

    /** sym_set_string_value on a string, int or hex symbol */
    method SetString(s: Symbol, t: string, ghost g: Plan) returns (ok: bool)
      requires Inv() && Fits(Mod(), Now(), g) && g.busy == {} && s in cfg && IsTextType(s.typ)
      modifies this
      ensures Inv() && ok == old(AcceptsText(Mod(), g.sol, s, t))
      ensures !ok ==> user == old(user) && Fits(Mod(), Now(), g) && E.Kept(old(Now()), Now())
      ensures ok ==> Mod() == AssignedText(old(Mod()), s, t)
      ensures ok ==> valid == {symbolYes, symbolMod, symbolNo} || Fits(Mod(), Now(), g)
    {
      ok := StringWithinRange(s, t, g);
      if !ok {
        return;
      }
      var stored := Stored(s.typ, t);
      if s in user && stored == t && user[s].str == t {
        assert user[s := user[s]] == user;
        return;
      }
      user := user[s := SymbolValue(stored, if s in user then user[s].tri else NO)];
      ClearAllValid();
    }

    /** Giving a text to a symbol, then asking for it. */
    method SetStringAndRead(s: Symbol, t: string, ghost g: Plan) returns (ok: bool, x: string)
      requires Inv() && Fits(Mod(), Now(), g) && g.busy == {} && s in valid && IsTextType(s.typ)
      requires PrefixIgnored(Mod())
      modifies this
      ensures Inv() && ok == old(AcceptsText(Mod(), g.sol, s, t))
      ensures !ok ==> x == old(cells[s].curr.str)
      ensures ok ==> (x == Stored(s.typ, t) <==>
                      old(cells[s].visible) != NO || old(cells[s].curr.str) == Stored(s.typ, t))
    {
      ghost var m := Mod();
      ReadValid(m, Now(), g, s);
      assert UpToDate(m, cells[s], s, g.sol);
      ok := SetString(s, t, g);
      ghost var h := g;
      if ok {
        h := TextAfterSet(m, Mod(), Now(), g, s, t);
      }
      ReadFits(Mod(), Now(), h, s);
      CalcValue(s);
      x := cells[s].curr.str;
    }
  }
}
