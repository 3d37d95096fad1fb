/**
 Range bounds are read by sym_validate_range but not looked at by sym_check_deps (support/kconfig/symbol.c), so two
 numbers may bound each other. What they end up as then depends on which is asked for first.
 */
module RangeLoop {
  import opened Tristates
  import opened Expressions
  import opened Config
  import opened Graphs
  import opened DepCheck
  import opened ConfigTheorems
  import E = Evaluate
  import opened Evaluation
  import opened SymbolTable

  /** An int with a constant for default and one symbol for both bounds of its range. */
  ghost predicate Bounded(m: Model, s: Symbol, d: Symbol, b: Symbol) {
    && s in m.cfg && s.typ == Int && s !in m.user && d in m.cfg && d.Constant? && !IsConstTriSymbol(d) && b in m.cfg &&
       b != s && b.typ == Int
    && m.cfg[s] == Def([Property(Default, false, None, Value(Sym(d))), Property(Range, false, None, Bounds(b, b))],
       None, None, false)
  }

  /** The number `d` stands for is shown so that it is read back. */
  predicate Readable(m: Model, d: Symbol) { var x := m.strtoll(d.name, 10); m.strtoll(m.show(Int, x), 10) == x }

  /** The text `x` moved to the number `v`. */
  function Fit(m: Model, x: string, v: int): string { if m.strtoll(x, 10) == v then x else m.show(Int, v) }

  lemma BoundedVisibility(m: Model, st: E.State, s: Symbol, d: Symbol, b: Symbol)
    requires E.Inv(m, st) && Bounded(m, s, d, b) && s in st.valid
    ensures E.CalcVisibility(m, st, s) == E.Busy(m, st, s, st.cells[s].(visible := NO, dir := YES, rev := NO))
  {
    assert E.CalcPrompts(m, st, s, 2, NO) == E.Out(st, NO);
    assert E.CalcPrompts(m, st, s, 1, NO) == E.Out(st, NO);
    assert E.CalcPrompts(m, st, s, 0, NO) == E.Out(st, NO);
    assert E.CalcDir(m, st, s) == E.Out(st, YES);
    assert E.CalcRev(m, st, s) == E.Out(st, NO);
  }

  /** A constant is worth its name. */
  ghost predicate ConstantOk(st: E.State, d: Symbol) {
    d in st.cells && (d in st.valid ==> st.cells[d].curr.str == d.name)
  }

  lemma ConstantValue(m: Model, st: E.State, d: Symbol)
    requires E.Inv(m, st) && d in m.cfg && d.Constant? && !IsConstTriSymbol(d) && ConstantOk(st, d)
    ensures var st' := E.CalcValue(m, st, d);
            st'.valid == st.valid + {d} && st'.cells[d].curr.str == d.name
  {}

  lemma BoundedText(m: Model, st: E.State, s: Symbol, d: Symbol, b: Symbol)
    requires E.Inv(m, st) && Bounded(m, s, d, b) && s in st.valid && st.cells[s].visible == NO && ConstantOk(st, d)
    ensures var r := E.PlainText(m, st, s);
            r.val.str == d.name && r.st.valid == st.valid + {d}
  {
    var c := st.cells[s];
    var st1 := E.Busy(m, st, s, c.(curr := SymbolValue("", NO), write := false));
    assert E.FindProp(m, st1, s, Default, 0) == E.Out(st1, E.Found(m.cfg[s].props[0], YES));
    ConstantValue(m, st1, d);
  }

  lemma BoundedFind(m: Model, st: E.State, s: Symbol, d: Symbol, b: Symbol)
    requires E.Inv(m, st) && Bounded(m, s, d, b)
    ensures E.FindProp(m, st, s, Range, 0) == E.Out(st, E.Found(m.cfg[s].props[1], YES))
  {
    assert E.FindProp(m, st, s, Range, 1) == E.Out(st, E.Found(m.cfg[s].props[1], YES));
  }

  lemma ReadTwice(m: Model, st: E.State, b: Symbol)
    requires E.Inv(m, st) && b in m.cfg && b.typ == Int
    ensures var after := E.CalcValue(m, st, b);
            var v := m.strtoll(after.cells[b].curr.str, 10);
            E.RangeVal(m, st, b, 10) == E.Out(after, v) && E.RangeVal(m, after, b, 10) == E.Out(after, v)
  {
    var after := E.CalcValue(m, st, b);
    assert E.CalcValue(m, after, b) == after;
  }

  lemma BoundedClamp(m: Model, st: E.State, s: Symbol, d: Symbol, b: Symbol, text: string)
    requires E.Inv(m, st) && Bounded(m, s, d, b)
    ensures var after := E.CalcValue(m, st, b);
            E.Clamp(m, st, s, text, m.cfg[s].props[1]) == E.Out(after,
              Fit(m, text, m.strtoll(after.cells[b].curr.str, 10)))
  {
    ReadTwice(m, st, b);
  }

  /** While the range is looked at, `mid` is the table the bound is asked for in. */
  lemma BoundedRange(m: Model, st: E.State, s: Symbol, d: Symbol, b: Symbol, c: E.Cell, text: string)
    requires E.Inv(m, st) && Bounded(m, s, d, b) && s in st.valid
    ensures var mid := E.Busy(m, st, s, c.(curr := SymbolValue(text, NO), write := false));
            var after := E.CalcValue(m, mid, b);
            E.RangedText(m, st, s, c, text) == E.Out(after, Fit(m, text, m.strtoll(after.cells[b].curr.str, 10)))
  {
    var mid := E.Busy(m, st, s, c.(curr := SymbolValue(text, NO), write := false));
    BoundedFind(m, mid, s, d, b);
    BoundedClamp(m, mid, s, d, b, text);
  }

  /**
   The table `mid` in which the bound of `s` is asked for shows the default of `s`; in the table `done` that results,
   `s` is moved to that bound.
   */
  ghost predicate Moves(m: Model, s: Symbol, d: Symbol, b: Symbol, mid: E.State, done: E.State) {
    && E.Inv(m, mid) && s in mid.valid && mid.cells[s].curr.str == d.name && b in m.cfg && b != s && b in done.cells &&
       s in done.cells
    && var after := E.CalcValue(m, mid, b);
       && done.valid == after.valid && done.cells[b] == after.cells[b]
       && done.cells[s].curr.str == Fit(m, d.name, m.strtoll(after.cells[b].curr.str, 10))
  }

  /** The end of the evaluation of `s`, once its visibility is known. */
  lemma BoundedFinish(m: Model, st: E.State, s: Symbol, d: Symbol, b: Symbol) returns (mid: E.State, done: E.State)
    requires E.Inv(m, st) && Bounded(m, s, d, b) && s in st.valid && st.cells[s].visible == NO && ConstantOk(st, d)
    ensures mid.valid == st.valid + {d} && E.KeptOthers(st, mid, s)
    ensures Moves(m, s, d, b, mid, done) && done == E.FinishText(m, st, s)
  {
    var c := st.cells[s];
    BoundedText(m, st, s, d, b);
    var r := E.PlainText(m, st, s);
    BoundedRange(m, r.st, s, d, b, c, d.name);
    mid := E.Busy(m, r.st, s, c.(curr := SymbolValue(d.name, NO), write := false));
    done := E.FinishText(m, st, s);
  }

  /** The start of the evaluation of `s`. */
  lemma BoundedStart(m: Model, st: E.State, s: Symbol, d: Symbol, b: Symbol) returns (st1: E.State)
    requires E.Inv(m, st) && Bounded(m, s, d, b) && s !in st.valid && ConstantOk(st, d)
    ensures E.Inv(m, st1) && st1.valid == st.valid + {s} && st1.cells[s].visible == NO && ConstantOk(st1, d) &&
            E.Kept(st, st1)
    ensures E.CalcValue(m, st, s) == E.FinishText(m, st1, s)
  {
    var st0 := st.(valid := st.valid + {s});
    BoundedVisibility(m, st0, s, d, b);
    NewValue(m, st, s);
    TextValue(m, st0, s);
    st1 := E.Busy(m, st0, s, st0.cells[s].(visible := NO, dir := YES, rev := NO));
  }

  lemma NewValue(m: Model, st: E.State, s: Symbol)
    requires E.Inv(m, st) && s in m.cfg && s !in st.valid
    ensures var st0 := st.(valid := st.valid + {s});
            E.Inv(m, st0) && !IsConstTriSymbol(s) && E.CalcValue(m, st, s) == E.Recalculate(m, st0, s)
  {}

  lemma TextValue(m: Model, st: E.State, s: Symbol)
    requires E.Inv(m, st) && s in st.valid && IsTextType(s.typ)
    ensures E.Recalculate(m, st, s) == E.FinishText(m, E.CalcVisibility(m, st, s), s)
  {}

  lemma KeptThrough(st: E.State, st1: E.State, mid: E.State, s: Symbol)
    requires E.Kept(st, st1) && E.KeptOthers(st1, mid, s) && s !in st.valid
    ensures E.Kept(st, mid)
  {
    forall t | t in st.valid && t in st.cells
      ensures t in mid.cells && mid.cells[t] == st.cells[t]
    {
      assert t in st1.cells && st1.cells[t] == st.cells[t];
    }
  }

  lemma BoundedValue(m: Model, st: E.State, s: Symbol, d: Symbol, b: Symbol) returns (mid: E.State)
    requires E.Inv(m, st) && Bounded(m, s, d, b) && s !in st.valid && ConstantOk(st, d)
    ensures mid.valid == st.valid + {s, d} && E.Kept(st, mid) && Moves(m, s, d, b, mid, E.CalcValue(m, st, s))
  {
    var st1 := BoundedStart(m, st, s, d, b);
    var done: E.State;
    mid, done := BoundedFinish(m, st1, s, d, b);
    KeptThrough(st, st1, mid, s);
  }

  // ----- two numbers that bound each other -----

  ghost predicate Loop(m: Model, s: Symbol, t: Symbol, d: Symbol, e: Symbol) {
    Bounded(m, s, d, t) && Bounded(m, t, e, s) && d != e && Readable(m, d) && Readable(m, e)
  }

  /** Nothing but y, m and n is valid. */
  ghost predicate Cleared(m: Model, st: E.State) { E.Inv(m, st) && st.valid == {symbolYes, symbolMod, symbolNo} }

  lemma ValidValue(m: Model, st: E.State, s: Symbol)
    requires E.Inv(m, st) && s in st.valid
    ensures s in m.cfg && E.CalcValue(m, st, s) == st
  {}

  /** `t` is asked for while `s` shows its default. */
  lemma SecondMoves(m: Model, mid: E.State, s: Symbol, t: Symbol, d: Symbol, e: Symbol)
    requires E.Inv(m, mid) && Loop(m, s, t, d, e) && s in mid.valid && t !in mid.valid && ConstantOk(mid, e)
    ensures E.CalcValue(m, mid, t).cells[t].curr.str == Fit(m, e.name, m.strtoll(mid.cells[s].curr.str, 10))
  {
    var last := BoundedValue(m, mid, t, e, s);
    ValidValue(m, last, s);
    assert last.cells[s] == mid.cells[s];
  }

  /** Whichever is asked for first keeps its default; the other is moved to it. */
  lemma FirstWins(m: Model, st: E.State, s: Symbol, t: Symbol, d: Symbol, e: Symbol)
    requires Cleared(m, st) && Loop(m, s, t, d, e)
    ensures var st' := E.CalcValue(m, st, s);
            && t in st'.valid && st'.cells[s].curr.str == d.name
            && m.strtoll(st'.cells[t].curr.str, 10) == m.strtoll(d.name, 10)
  {
    LoopNotValid(m, st, s, t, d, e);
    var mid := BoundedValue(m, st, s, d, t);
    SecondMoves(m, mid, s, t, d, e);
    FitReads(m, e.name, d);
  }

  lemma LoopNotValid(m: Model, st: E.State, s: Symbol, t: Symbol, d: Symbol, e: Symbol)
    requires Cleared(m, st) && Loop(m, s, t, d, e)
    ensures s !in st.valid && ConstantOk(st, d) && t !in st.valid + {s, d} && e !in st.valid + {s, d}
  {}

  lemma FitReads(m: Model, x: string, d: Symbol)
    requires Readable(m, d)
    ensures m.strtoll(Fit(m, x, m.strtoll(d.name, 10)), 10) == m.strtoll(d.name, 10)
  {}

  // ----- the check does not object -----

  const PLAIN := Def([], None, None, false)

  /** The two numbers, their defaults and the constants y, m and n are all there is. */
  ghost predicate OnlyLoop(m: Model, s: Symbol, t: Symbol, d: Symbol, e: Symbol) {
    && Loop(m, s, t, d, e) && m.cfg.Keys == {symbolYes, symbolMod, symbolNo, s, t, d, e}
    && forall x {:trigger m.cfg[x]} :: x in m.cfg && x != s && x != t ==> m.cfg[x] == PLAIN
  }

  lemma BoundedEdges(m: Model, s: Symbol, d: Symbol, b: Symbol)
    requires Bounded(m, s, d, b)
    ensures Edges(m.cfg[s]) == {d} && Reads(m.cfg[s]) == {d, b}
  {
    var ps := m.cfg[s].props;
    assert ps[0] in ps && ps[1] in ps;
    assert PropEdges(ps[0]) == {d} && PropEdges(ps[1]) == {};
    assert PropSyms(ps[0]) == {d} && PropSyms(ps[1]) == {b};
    assert d in PropSyms(ps[0]) && b in PropSyms(ps[1]);
  }

  lemma TwoRootsNoCycle(g: Graph, s: Symbol, t: Symbol)
    requires forall x {:trigger g[x]} :: x in g && x != s && x != t ==> g[x] == {}
    requires forall x {:trigger g[x]} :: x in g ==> g[x] <= g.Keys && s !in g[x] && t !in g[x]
    ensures !HasCycle(g)
  {
    NumberedHasNoCycle(g, map x | x in g :: if x == s || x == t then 1 else 0);
  }

  lemma LoopEdges(m: Model, s: Symbol, t: Symbol, d: Symbol, e: Symbol, x: Symbol)
    requires OnlyLoop(m, s, t, d, e) && x in m.cfg
    ensures Edges(m.cfg[x]) == if x == s then {d} else if x == t then {e} else {}
  {
    if x == s {
      BoundedEdges(m, s, d, t);
    } else if x == t {
      BoundedEdges(m, t, e, s);
    } else {
      assert Edges(PLAIN) == {};
    }
  }

  /** No recursion is reported. */
  lemma LoopAccepted(m: Model, s: Symbol, t: Symbol, d: Symbol, e: Symbol)
    requires OnlyLoop(m, s, t, d, e)
    ensures !HasCycle(GraphOf(m.cfg))
  {
    var g := GraphOf(m.cfg);
    forall x {:trigger g[x]} | x in g
      ensures g[x] == if x == s then {d} else if x == t then {e} else {}
    {
      LoopEdges(m, s, t, d, e, x);
    }
    assert d !in {s, t} && e !in {s, t};
    TwoRootsNoCycle(g, s, t);
  }

  /** But what the numbers read is circular. */
  lemma LoopCircular(m: Model, s: Symbol, t: Symbol, d: Symbol, e: Symbol)
    requires Loop(m, s, t, d, e)
    ensures HasCycle(ReadGraph(m.cfg))
  {
    BoundedEdges(m, s, d, t);
    BoundedEdges(m, t, e, s);
    TwoCycle(ReadGraph(m.cfg), s, t);
  }

  /** The two orders end in different tables: each number ends up at the default of the one asked for first. */
  method TwoOrders(p: Table, q: Table, s: Symbol, t: Symbol, d: Symbol, e: Symbol)
    requires p != q && p.Mod() == q.Mod() && p.Now() == q.Now() && p.cfg == q.cfg
    requires Cleared(p.Mod(), p.Now()) && Loop(p.Mod(), s, t, d, e) && p.strtoll(d.name, 10) != p.strtoll(e.name, 10)
    modifies p`valid, p`cells, q`valid, q`cells
    ensures p.Inv() && q.Inv() && s in p.valid && t in p.valid && s in q.valid && t in q.valid
    ensures p.cells[s].curr.str == d.name && q.cells[t].curr.str == e.name
    ensures p.strtoll(p.cells[s].curr.str, 10) == p.strtoll(p.cells[t].curr.str, 10) == p.strtoll(d.name, 10)
    ensures p.strtoll(q.cells[s].curr.str, 10) == p.strtoll(q.cells[t].curr.str, 10) == p.strtoll(e.name, 10)
  {
    FirstWins(p.Mod(), p.Now(), s, t, d, e);
    p.CalcValue(s);
    p.CalcValue(t);
    FirstWins(q.Mod(), q.Now(), t, s, e, d);
    q.CalcValue(t);
    q.CalcValue(s);
  }

  // ----- a symbol asked for during its own evaluation -----

  /** A symbol whose only property is a default on itself. */
  ghost predicate SelfDefault(m: Model, s: Symbol) {
    && s in m.cfg && (IsTruthType(s.typ) || IsTextType(s.typ))
    && m.cfg[s] == Def([Property(Default, false, None, Value(Sym(s)))], None, None, false)
  }

  lemma SelfVisibility(m: Model, st: E.State, s: Symbol)
    requires E.Inv(m, st) && SelfDefault(m, s) && s in st.valid
    ensures E.CalcVisibility(m, st, s) == E.Busy(m, st, s, st.cells[s].(visible := NO, dir := YES, rev := NO))
  {
    assert E.CalcPrompts(m, st, s, 1, NO) == E.Out(st, NO);
    assert E.CalcPrompts(m, st, s, 0, NO) == E.Out(st, NO);
    assert E.CalcDir(m, st, s) == E.Out(st, YES);
    assert E.CalcRev(m, st, s) == E.Out(st, NO);
  }

  lemma SelfFound(m: Model, st: E.State, s: Symbol)
    requires E.Inv(m, st) && SelfDefault(m, s) && s in st.valid
    ensures E.FindProp(m, st, s, Default, 0) == E.Out(st, E.Found(m.cfg[s].props[0], YES))
    ensures E.FindProp(m, st, s, Range, 0) == E.Out(st, E.NotFound)
    ensures E.CalcExpr(m, st, Sym(s)) == E.Out(st, st.cells[s].curr.tri) && E.CalcValue(m, st, s) == st
  {
    assert E.FindProp(m, st, s, Range, 1) == E.Out(st, E.NotFound);
  }

  lemma SelfTruth(m: Model, st: E.State, s: Symbol)
    requires E.Inv(m, st) && SelfDefault(m, s) && s in st.valid && IsTruthType(s.typ)
    requires st.cells[s].visible == NO && st.cells[s].rev == NO
    ensures E.FinishTruth(m, st, s).cells[s].curr == SymbolValue("n", NO) && E.FinishTruth(m, st, s).cells[s].write
  {
    var st1 := E.Busy(m, st, s, st.cells[s].(curr := SymbolValue("n", NO), write := false));
    SelfFound(m, st1, s);
    assert E.CalcDefault(m, st1, s) == E.Out(st1, Some(NO));
  }

  lemma SelfText(m: Model, st: E.State, s: Symbol)
    requires E.Inv(m, st) && SelfDefault(m, s) && s in st.valid && IsTextType(s.typ) && st.cells[s].visible == NO
    ensures E.FinishText(m, st, s).cells[s].curr == SymbolValue("", NO) && E.FinishText(m, st, s).cells[s].write
  {
    var c := st.cells[s];
    var st1 := E.Busy(m, st, s, c.(curr := SymbolValue("", NO), write := false));
    SelfFound(m, st1, s);
    assert E.PlainText(m, st, s) == E.Out(st1, E.Text("", true));
    var st2 := E.Busy(m, st1, s, c.(curr := SymbolValue("", NO), write := false));
    SelfFound(m, st2, s);
    assert E.RangedText(m, st1, s, c, "") == E.Out(st2, "");
  }

  /** Evaluation of such a symbol ends, with n or the empty text, whatever it was before. */
  lemma SelfDefaultEmpty(m: Model, st: E.State, s: Symbol)
    requires E.Inv(m, st) && SelfDefault(m, s) && s !in st.valid
    ensures var c := E.CalcValue(m, st, s).cells[s];
            c.write && c.curr == SymbolValue(if IsTruthType(s.typ) then "n" else "", NO)
  {
    var st1 := st.(valid := st.valid + {s});
    SelfVisibility(m, st1, s);
    var st2 := E.CalcVisibility(m, st1, s);
    if IsTruthType(s.typ) {
      SelfTruth(m, st2, s);
    } else {
      SelfText(m, st2, s);
    }
  }
}
