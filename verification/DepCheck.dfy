/**
 The search for recursive dependencies (support/kconfig/symbol.c: sym_check_expr_deps,
 sym_check_sym_deps, sym_check_deps; zconf.y: the loop over all symbols), without choices.
 */
module DepCheck {
  import opened Tristates
  import opened Expressions
  import opened Config
  import opened Graphs

  // ----- the graph that is searched -----

  function PropEdges(p: Property): set<Symbol> {
    if p.kind == Choice || p.kind == Select then {}
    else SymsOpt(p.visible) + (if p.kind == Default then BodySyms(p.body) else {})
  }

  function Edges(d: Def): set<Symbol> {
    SymsOpt(d.revDep) + set p, t | p in d.props && t in PropEdges(p) :: t
  }

  function GraphOf(cfg: map<Symbol, Def>): Graph { map s | s in cfg :: Edges(cfg[s]) }

  /** `g` is the graph of `cfg`, stated so that edges are looked up in `g`. */
  ghost predicate Matches(cfg: map<Symbol, Def>, g: Graph) {
    && g.Keys == cfg.Keys && IsClosed(g)
    && (forall s {:trigger Edges(cfg[s])} :: s in cfg ==> g[s] == Edges(cfg[s]))
    && (forall s, p {:trigger p in cfg[s].props} :: s in cfg && p in cfg[s].props ==> WellFormed(p))
  }

  lemma PropEdgesInGraph(cfg: map<Symbol, Def>, g: Graph, s: Symbol, p: Property)
    requires Matches(cfg, g) && s in cfg && p in cfg[s].props
    ensures PropEdges(p) <= g[s]
  {
    assert forall t :: t in PropEdges(p) ==> t in Edges(cfg[s]);
  }

  /** The edges of the first `n` properties lead to finished symbols. */
  predicate Covered(ps: seq<Property>, n: nat, finished: set<Symbol>)
    requires n <= |ps|
  {
    n == 0 || (PropEdges(ps[n - 1]) <= finished && Covered(ps, n - 1, finished))
  }

  lemma {:induction false} CoveredGrows(ps: seq<Property>, n: nat, finished: set<Symbol>, more: set<Symbol>)
    requires n <= |ps| && Covered(ps, n, finished) && finished <= more
    ensures Covered(ps, n, more)
  {
    if n > 0 { CoveredGrows(ps, n - 1, finished, more); }
  }

  lemma {:induction false} CoveredProp(ps: seq<Property>, n: nat, finished: set<Symbol>, i: nat)
    requires n <= |ps| && Covered(ps, n, finished) && i < n
    ensures PropEdges(ps[i]) <= finished
  {
    if i < n - 1 { CoveredProp(ps, n - 1, finished, i); }
  }

  lemma EdgesCovered(d: Def, finished: set<Symbol>)
    requires SymsOpt(d.revDep) <= finished && Covered(d.props, |d.props|, finished)
    ensures Edges(d) <= finished
  {
    forall p | p in d.props
      ensures PropEdges(p) <= finished
    {
      var i :| 0 <= i < |d.props| && d.props[i] == p;
      CoveredProp(d.props, |d.props|, finished, i);
    }
  }

  function Elems(p: seq<Symbol>): set<Symbol> {
    if p == [] then {} else Elems(p[..|p| - 1]) + {p[|p| - 1]}
  }

  lemma {:induction false} ElemIndex(p: seq<Symbol>, s: Symbol) returns (k: nat)
    requires s in Elems(p)
    ensures k < |p| && p[k] == s
  {
    if s == p[|p| - 1] {
      k := |p| - 1;
    } else {
      k := ElemIndex(p[..|p| - 1], s);
    }
  }

  // ----- what the search keeps -----

  /** Flags and stack agree; a report means a cycle; without one, finished symbols are numbered downhill. */
  ghost predicate Consistent(g: Graph, check: set<Symbol>, checked: set<Symbol>,
                             stack: seq<Symbol>, reports: nat, num: map<Symbol, nat>)
  {
    && check <= checked <= g.Keys && IsPath(g, stack)
    && (reports > 0 ==> HasCycle(g))
    && (reports == 0 ==> Numbered(g, checked - check, num))
  }

  lemma EnterSymbol(g: Graph, check: set<Symbol>, checked: set<Symbol>,
                    stack: seq<Symbol>, reports: nat, num: map<Symbol, nat>, s: Symbol)
    requires Consistent(g, check, checked, stack, reports, num) && s in g && s !in checked
    ensures Consistent(g, check + {s}, checked + {s}, stack, reports, num)
  {
    assert (checked + {s}) - (check + {s}) == checked - check;
  }

  lemma LeaveSymbol(g: Graph, check: set<Symbol>, checked: set<Symbol>,
                    stack: seq<Symbol>, reports: nat, num: map<Symbol, nat>, s: Symbol)
    requires Consistent(g, check, checked, stack, reports, num) && s in check
    requires reports == 0 ==> g[s] <= checked - check
    ensures Consistent(g, check - {s}, checked, stack, reports, if reports == 0 then num[s := |num|] else num)
  {
    assert checked - (check - {s}) == (checked - check) + {s};
    if reports == 0 {
      NumberNext(g, checked - check, num, s);
    }
  }

  class Checker {
    const cfg: map<Symbol, Def>
    ghost const graph: Graph
    var check: set<Symbol>           // SYMBOL_CHECK
    var checked: set<Symbol>         // SYMBOL_CHECKED
    var stack: seq<Symbol>           // the dep_stack chain, check_top last
    var reports: nat                 // "recursive dependency detected" messages
    ghost var num: map<Symbol, nat>  // the order in which symbols were finished

    constructor (cfg: map<Symbol, Def>)
      requires IsClosed(GraphOf(cfg))
      requires forall s, p :: s in cfg && p in cfg[s].props ==> WellFormed(p)
      ensures this.cfg == cfg && graph == GraphOf(cfg) && Inv()
      ensures check == {} && checked == {} && stack == [] && reports == 0
    {
      this.cfg := cfg;
      graph := GraphOf(cfg);
      check, checked, stack, reports, num := {}, {}, [], 0, map[];
    }

    ghost predicate Inv()
      reads this
    {
      Matches(cfg, graph) && Consistent(graph, check, checked, stack, reports, num)
    }

    /** The stack holds exactly the symbols under check; its top depends on all of `ss`. */
    ghost predicate Ready(ss: set<Symbol>)
      reads this
    {
      Inv() && check == Elems(stack) && ss <= cfg.Keys && (stack != [] ==> ss <= graph[stack[|stack| - 1]])
    }

    /**
     Afterwards: flags and stack restored; an answer is a symbol under check and comes with a report;
     without reports so far, all of `ss` is finished.
     */
    twostate predicate Searched(new ss: set<Symbol>, new r: Option<Symbol>)
      reads this
    {
      && Inv() && check == old(check) && stack == old(stack) && old(checked) <= checked
      && old(reports) <= reports && (r.Some? ==> r.value in check && reports > 0)
      && (reports == 0 ==> ss <= checked - check)
    }

    /** sym_check_expr_deps */
    method CheckExpr(e: Expr) returns (r: Option<Symbol>)
      requires Ready(Syms(e))
      modifies this
      ensures Searched(Syms(e), r)
      decreases cfg.Keys - checked, 2, e
    {
      match e
      case Sym(s) =>
        r := CheckDeps(s);
      case Not(a) =>
        r := CheckExpr(a);
      case Bin(_, left, right) =>
        r := CheckExpr(left);
        if r.Some? {
          return;
        }
        r := CheckExpr(right);
      case Cmp(_, a, b) =>
        r := CheckDeps(a);
        if r.Some? {
          return;
        }
        r := CheckDeps(b);
    }

    /** sym_check_expr_deps of an optional expression */
    method CheckOpt(e: Option<Expr>) returns (r: Option<Symbol>)
      requires Ready(SymsOpt(e))
      modifies this
      ensures Searched(SymsOpt(e), r)
      decreases cfg.Keys - checked, 3
    {
      r := None;
      if e.Some? {
        r := CheckExpr(e.value);
      }
    }

    /** The dependencies of one property in sym_check_sym_deps. */
    method CheckProp(p: Property) returns (r: Option<Symbol>)
      requires Ready(PropEdges(p)) && WellFormed(p)
      modifies this
      ensures Searched(PropEdges(p), r)
      decreases cfg.Keys - checked, 4
    {
      if p.kind == Choice || p.kind == Select {
        return None;
      }
      r := CheckOpt(p.visible);
      if r.Some? || p.kind != Default {
        return;
      }
      r := CheckExpr(p.body.expr);
    }

    /** One round of the loop over the properties in sym_check_sym_deps. */
    method CheckNext(s: Symbol, i: nat) returns (r: Option<Symbol>)
      requires Ready({}) && stack != [] && stack[|stack| - 1] == s && s in cfg && i < |cfg[s].props|
      modifies this
      ensures Searched({}, r)
      ensures old(reports == 0 ==> Covered(cfg[s].props, i, checked - check)) ==>
                (reports == 0 ==> Covered(cfg[s].props, i + 1, checked - check))
      decreases cfg.Keys - checked, 5
    {
      PropEdgesInGraph(cfg, graph, s, cfg[s].props[i]);
      ghost var finished := checked - check;
      ghost var covered := reports == 0 ==> Covered(cfg[s].props, i, checked - check);
      r := CheckProp(cfg[s].props[i]);
      if covered && reports == 0 {
        CoveredGrows(cfg[s].props, i, finished, checked - check);
      }
    }

    /** The loop over the properties in sym_check_sym_deps. */
    method CheckProps(s: Symbol) returns (r: Option<Symbol>)
      requires Ready({}) && stack != [] && stack[|stack| - 1] == s && s in cfg
      modifies this
      ensures Searched({}, r)
      ensures reports == 0 ==> Covered(cfg[s].props, |cfg[s].props|, checked - check)
      decreases cfg.Keys - checked, 6
    {
      for i := 0 to |cfg[s].props|
        invariant Searched({}, None) && (reports == 0 ==> Covered(cfg[s].props, i, checked - check))
      {
        r := CheckNext(s, i);
        if r.Some? {
          return;
        }
      }
      r := None;
    }

    /** sym_check_sym_deps */
    method CheckSymDeps(s: Symbol) returns (r: Option<Symbol>)
      requires Inv() && s in check && check == Elems(stack) + {s}
      requires stack != [] ==> s in graph[stack[|stack| - 1]]
      modifies this
      ensures Searched(graph[s], r)
      decreases cfg.Keys - checked, 7
    {
      ghost var st := stack;
      PathPush(graph, stack, s);
      stack := stack + [s];
      assert stack[|stack| - 1] == s && stack[..|stack| - 1] == st;
      assert graph[s] == Edges(cfg[s]);
      r := CheckOpt(cfg[s].revDep);
      if r.None? {
        r := CheckProps(s);
      }
      if reports == 0 {
        EdgesCovered(cfg[s], checked - check);
      }
      stack := stack[..|stack| - 1];
    }

    /** sym_check_deps on a symbol it has not seen yet */
    method Explore(s: Symbol) returns (r: Option<Symbol>)
      requires Ready({s}) && s !in checked
      modifies this
      ensures Inv() && check == old(check) && stack == old(stack) && old(checked) + {s} <= checked
      ensures old(reports) <= reports && (r.Some? ==> r.value in check + {s} && reports > 0)
      decreases cfg.Keys - checked, 0
    {
      EnterSymbol(graph, check, checked, stack, reports, num, s);
      check, checked := check + {s}, checked + {s};
      r := CheckSymDeps(s);
      LeaveSymbol(graph, check, checked, stack, reports, num, s);
      check := check - {s};
      num := if reports == 0 then num[s := |num|] else num;
    }

    /** sym_check_deps */
    method CheckDeps(s: Symbol) returns (r: Option<Symbol>)
      requires Ready({s})
      modifies this
      ensures Searched({s}, r) && s in checked
      decreases cfg.Keys - checked, 1
    {
      if s in check {
        ghost var k := ElemIndex(stack, s);
        ClosedPath(graph, stack, k);
        reports := reports + 1;
        return Some(s);
      }
      if s in checked {
        return None;
      }
      r := Explore(s);
      if r == Some(s) {
        r := None;
      }
    }

    /**
     The loop over all symbols: a recursion is reported exactly if there is one. The return value
     of the outermost call never says so, hence the error count of the caller stays zero.
     */
    method CheckAll(order: seq<Symbol>) returns (errors: int)
      requires Inv() && check == {} && checked == {} && stack == [] && reports == 0
      requires forall s :: s in cfg <==> s in order
      modifies this
      ensures reports > 0 <==> HasCycle(graph)
      ensures reports == 0 ==> Descending(graph, cfg.Keys, num)
      ensures errors == 0
    {
      errors := 0;
      for i := 0 to |order|
        invariant Inv() && check == {} && stack == [] && errors == 0
        invariant forall j :: 0 <= j < i ==> order[j] in checked
      {
        assert order[i] in order;
        var r := CheckDeps(order[i]);
        if r.Some? {
          errors := errors + 1;
        }
      }
      assert checked - check == cfg.Keys;
      if reports == 0 {
        NumberedHasNoCycle(graph, num);
      }
    }
  }
}
