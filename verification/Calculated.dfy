/** What the table means that evaluation arrives at (support/kconfig/symbol.c: sym_calc_visibility, sym_calc_value). */
module Calculated {
  import opened Tristates
  import opened Expressions
  import opened Config
  import opened Evaluate
  import opened Evaluation
  import opened Meaning

  /** The visibility, the dependencies and the flag SYMBOL_WRITE remembered of a symbol mean what they should. */
  ghost predicate CellMeans(m: Model, v: Valuation, s: Symbol, c: Cell)
    requires s in m.cfg
  {
    && WriteMeans(m, v, s, c.write)
    && (c.visible >= MOD <==> PromptAt(m.cfg[s].props, v, MOD))
    && (c.visible == YES <==> PromptAt(m.cfg[s].props, v, if s.typ == Tri && m.modules != NO then YES else MOD))
    && (c.rev >= MOD <==> SelectedAt(m, v, s, MOD))
    && (c.rev == YES <==> SelectedAt(m, v, s, if ActsBoolean(m, s) then MOD else YES))
    && (c.dir == YES <==> m.cfg[s].dirDep.None? || Eval(m.cfg[s].dirDep.value, v) >= MOD) && c.dir != MOD
  }

  /** Everything a table remembers means what it should, given the values of the table. */
  ghost predicate AllMean(m: Model, st: State)
    requires Inv(m, st)
  {
    && (forall s :: s in m.cfg ==> Means(m, ValuesOf(st), s, st.cells[s].curr))
    && (forall s :: s in m.cfg && (IsTruthType(s.typ) || IsTextType(s.typ)) ==>
          CellMeans(m, ValuationOf(m, ValuesOf(st)), s, st.cells[s]))
  }

  lemma CellIs(m: Model, st: State, g: Plan, s: Symbol)
    requires Inv(m, st) && Fits(m, st, g) && s in st.valid && s !in g.busy
    ensures Means(m, g.sol, s, st.cells[s].curr)
    ensures IsTruthType(s.typ) || IsTextType(s.typ) ==> CellMeans(m, ValuationOf(m, g.sol), s, st.cells[s])
  {
    var v := ValuationOf(m, g.sol);
    assert UpToDate(m, st.cells[s], s, g.sol);
    SolutionMeans(m, g.sol);
    if IsTruthType(s.typ) || IsTextType(s.typ) {
      WriteIs(m, v, s);
      VisibleIs(m, v, s);
      DependenciesAre(m, v, s);
    }
  }

  /** So it is in the table that evaluation arrives at. */
  lemma FitsMean(m: Model, st: State, g: Plan)
    requires Inv(m, st) && Fits(m, st, g) && g.busy == {} && st.valid == m.cfg.Keys && ValuesOf(st) == g.sol
    ensures AllMean(m, st)
  {
    forall s | s in m.cfg
      ensures Means(m, g.sol, s, st.cells[s].curr)
      ensures IsTruthType(s.typ) || IsTextType(s.typ) ==> CellMeans(m, ValuationOf(m, g.sol), s, st.cells[s])
    {
      CellIs(m, st, g, s);
    }
  }

  /** The property found is the first whose condition is not n. */
  lemma FindsFirst(m: Model, st: State, g: Plan, s: Symbol, kind: PropKind)
    requires Inv(m, st) && FitsFor(m, st, g, s) && (kind == Default || kind == Range)
    ensures var r := FindProp(m, st, s, kind, 0);
            && Fits(m, r.st, g)
            && (forall p :: IsFirst(m.cfg[s].props, kind, ValuationOf(m, g.sol), p) <==>
                            r.val.Found? && r.val.prop == p)
  {
    FindFits(m, st, g, s, kind, 0);
    ActiveIs(m, ValuationOf(m, g.sol), s, kind);
  }
}
