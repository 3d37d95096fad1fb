/** Results that join evaluation, dependency checking and the rewriting of expressions. */
module ConfigTheorems {
  import opened Tristates
  import opened Expressions
  import opened ExprTransform
  import opened ExprDups
  import opened Config
  import opened Graphs
  import opened DepCheck

  /** The dependency check looks at everything evaluation reads. */
  ghost predicate CheckCovers(cfg: map<Symbol, Def>) {
    forall s {:trigger Reads(cfg[s])} :: s in cfg ==> Reads(cfg[s]) <= Edges(cfg[s])
  }

  /** The numbers the search gave are an order of evaluation. */
  lemma CheckedIsOrdered(cfg: map<Symbol, Def>, num: map<Symbol, nat>) returns (rank: Symbol -> nat)
    requires Closed(cfg) && CheckCovers(cfg) && Descending(GraphOf(cfg), cfg.Keys, num)
    ensures Ordered(cfg, rank)
  {
    rank := s => if s in num then num[s] else 0;
    forall s, t {:trigger t in Reads(cfg[s])} | s in cfg && t in Reads(cfg[s])
      ensures rank(t) < rank(s)
    {
      assert t in GraphOf(cfg)[s];
    }
  }

  // ----- when values can be ordered -----

  /** What each symbol reads. */
  function ReadGraph(cfg: map<Symbol, Def>): Graph { map s | s in cfg :: Reads(cfg[s]) }

  /** An order of evaluation exists exactly if no symbol reads itself, directly or by way of others. */
  lemma OrderedIffAcyclic(cfg: map<Symbol, Def>)
    requires Closed(cfg)
    ensures (exists rank :: Ordered(cfg, rank)) <==> !HasCycle(ReadGraph(cfg))
  {
    var g := ReadGraph(cfg);
    if rank :| Ordered(cfg, rank) {
      var num: map<Symbol, nat> := map s | s in cfg :: rank(s);
      assert Descending(g, g.Keys, num);
      NumberedHasNoCycle(g, num);
    }
    if !HasCycle(g) {
      var num := AcyclicNumbered(g);
      var rank := s => if s in num then num[s] else 0;
      assert Ordered(cfg, rank);
    }
  }

  /** A configuration in which no recursion was reported has exactly one meaning. */
  lemma CheckedHasOneSolution(m: Model, num: map<Symbol, nat>) returns (a: Assignment)
    requires Closed(m.cfg) && CheckCovers(m.cfg) && Descending(GraphOf(m.cfg), m.cfg.Keys, num)
    ensures Solution(m, a) && forall b :: Solution(m, b) ==> b == a
  {
    var rank := CheckedIsOrdered(m.cfg, num);
    a := SolutionExists(m, rank);
    forall b | Solution(m, b)
      ensures b == a
    {
      SolutionUnique(m, rank, a, b);
    }
  }

  /** So has every configuration in which no symbol reads itself. */
  lemma AcyclicHasOneSolution(m: Model) returns (a: Assignment)
    requires Closed(m.cfg) && !HasCycle(ReadGraph(m.cfg))
    ensures Solution(m, a) && forall b :: Solution(m, b) ==> b == a
  {
    OrderedIffAcyclic(m.cfg);
    var rank :| Ordered(m.cfg, rank);
    a := SolutionExists(m, rank);
    forall b | Solution(m, b)
      ensures b == a
    {
      SolutionUnique(m, rank, a, b);
    }
  }

  lemma NoModComputed(m: Model, a: Assignment, e: Expr)
    requires Closed(m.cfg) && Solution(m, a) && m.modules == NO && !MentionsMod(e)
    ensures Eval(e, ValuationOf(m, a)) != MOD
  {
    var v := ValuationOf(m, a);
    forall s: Symbol | s != symbolMod
      ensures v.tri(s) != MOD
    {
      TypedValue(m, a, s);
      if s in m.cfg {
        assert a[s] == ValueFor(m, a, s);
      }
    }
    TwoValuedEval(e, v);
  }

  /**
   The condition of an entry becomes the simplified conjunction of that of its parent and its own, transformed. On
   computed values this never turns y into n or n into y; without modules it changes nothing.
   */
  lemma SimplifyComputed(m: Model, a: Assignment, parent: Expr, e: Expr)
    requires Closed(m.cfg) && Solution(m, a)
    ensures Refines(Eval(Bin(And, parent, e), ValuationOf(m, a)),
                    Eval(Simplified(Bin(And, parent, Transform(e))), ValuationOf(m, a)))
    ensures m.modules == NO && !MentionsMod(Bin(And, parent, e)) ==>
              Eval(Simplified(Bin(And, parent, Transform(e))), ValuationOf(m, a)) ==
              Eval(Bin(And, parent, e), ValuationOf(m, a))
  {
    var v := ValuationOf(m, a);
    SolutionWellTyped(m, a);
    TransformPreservesValue(e, v);
    assert Eval(Bin(And, parent, Transform(e)), v) == Eval(Bin(And, parent, e), v);
    SimplifiedRefines(Bin(And, parent, Transform(e)), v);
    if m.modules == NO && !MentionsMod(Bin(And, parent, e)) {
      NoModComputed(m, a, Bin(And, parent, e));
    }
  }

  // ----- a value can be accepted and then change -----

  /** A tristate whose prompt is limited to m but whose default is y. */
  const limited := Def([Property(Prompt, true, Some(Sym(symbolMod)), Nothing),
    Property(Default, false, None, Value(Sym(symbolYes)))],
                       None, None, false)

  lemma LimitedStatus(m: Model, a: Assignment, s: Symbol)
    requires Closed(m.cfg) && Solution(m, a) && s in m.cfg && m.cfg[s] == limited
    requires s.typ == Tri && m.modules != NO
    ensures var v := ValuationOf(m, a);
            && VisibleOf(m, v, s) == MOD && RevOf(m, v, s) == NO
            && (s !in m.user ==> Wanted(m, v, s) == YES)
  {
    var v, ps := ValuationOf(m, a), limited.props;
    assert a[symbolMod] == ValueFor(m, a, symbolMod) && a[symbolYes] == ValueFor(m, a, symbolYes);
    assert PromptMax(ps, v, 0) == NO && PromptMax(ps, v, 1) == MOD && PromptMax(ps, v, 2) == MOD;
    assert FirstActive(ps, Default, v, 1) == Some(1) && FirstActive(ps, Default, v, 0) == Some(1);
  }

  /** Such a symbol is y; setting it to y succeeds, since it has that value; from then on it is m. */
  lemma AcceptedValueLost(m: Model, a: Assignment, a': Assignment, s: Symbol)
    requires Closed(m.cfg) && s in m.cfg && m.cfg[s] == limited && s.typ == Tri && m.modules != NO && s !in m.user
    requires Solution(m, a) && Solution(Assigned(m, s, YES), a')
    ensures a[s].tri == YES && a'[s].tri == MOD
  {
    LimitedStatus(m, a, s);
    LimitedStatus(Assigned(m, s, YES), a', s);
    assert a[s] == ValueFor(m, a, s) && a'[s] == ValueFor(Assigned(m, s, YES), a', s);
  }

  /** An int or hex symbol ends up inside its first active range. */
  lemma RangeRespected(m: Model, a: Assignment, s: Symbol)
    requires Solution(m, a) && s in m.cfg && (s.typ == Int || s.typ == Hex)
    requires forall x {:trigger m.show(s.typ, x)} :: m.strtoll(m.show(s.typ, x), BaseOf(s.typ, 0)) == x
    ensures var base := BaseOf(s.typ, 0);
            var r := ActiveProp(m, ValuationOf(m, a), s, Range);
            r.Some? && r.value.body.Bounds? ==>
              var low, high := BoundOf(m, a, r.value.body.low, base), BoundOf(m, a, r.value.body.high, base);
              low <= high ==> low <= m.strtoll(a[s].str, base) <= high
  {
    assert a[s] == ValueFor(m, a, s);
    assert a[s].str == InRange(m, a, s, TextOf(m, a, s));
  }
}
