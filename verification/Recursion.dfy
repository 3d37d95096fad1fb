/**
 What a report of sym_check_deps (support/kconfig/symbol.c) means for evaluation: in configurations whose ranges have
 constant bounds, recursion is reported exactly if no order of evaluation exists.
 */
module Recursion {
  import opened Tristates
  import opened Expressions
  import opened Config
  import opened Graphs
  import opened DepCheck
  import opened ConfigTheorems

  /** What evaluation reads of a property although the check does not look at it. */
  function OverlookedIn(p: Property): set<Symbol> {
    if !IsRead(p) then {}
    else
      (if p.kind == Default then {} else BodySyms(p.body)) +
      (if p.kind == Choice || p.kind == Select then SymsOpt(p.visible) else {})
  }

  /** Direct dependencies, the bounds of ranges, and what the parser puts nowhere. */
  function Overlooked(d: Def): set<Symbol> {
    SymsOpt(d.dirDep) + set p, t | p in d.props && t in OverlookedIn(p) :: t
  }

  /** What the check looks at although evaluation reads nothing of the property: conditions without prompt or value. */
  function Aside(d: Def): set<Symbol> {
    set p, t | p in d.props && !IsRead(p) && p.kind != Choice && p.kind != Select && t in SymsOpt(p.visible) :: t
  }

  lemma ReadsSplit(d: Def)
    ensures Reads(d) <= Edges(d) + Overlooked(d) && Overlooked(d) <= Reads(d)
    ensures Edges(d) <= Reads(d) + Aside(d)
  {
    forall t | t in Reads(d)
      ensures t in Edges(d) + Overlooked(d)
    {
      if t !in SymsOpt(d.dirDep) + SymsOpt(d.revDep) {
        var p :| p in d.props && t in PropSyms(p);
        assert t in PropEdges(p) || t in OverlookedIn(p);
      }
    }
    forall t | t in Overlooked(d)
      ensures t in Reads(d)
    {
      if t !in SymsOpt(d.dirDep) {
        var p :| p in d.props && t in OverlookedIn(p);
        assert t in PropSyms(p);
      }
    }
    forall t | t in Edges(d)
      ensures t in Reads(d) + Aside(d)
    {
      if t !in SymsOpt(d.revDep) {
        var p :| p in d.props && t in PropEdges(p);
        if IsRead(p) {
          assert t in PropSyms(p);
        }
      }
    }
  }

  /** The check follows selecting expressions, conditions of all but choices and selects, defaults, and nothing else. */
  lemma EdgesExactly(d: Def, t: Symbol)
    ensures t in Edges(d) <==>
            || t in SymsOpt(d.revDep)
            || (exists p :: p in d.props && p.kind !in {Choice, Select} && t in SymsOpt(p.visible))
            || (exists p :: p in d.props && p.kind == Default && t in BodySyms(p.body))
  {
    if t in Edges(d) && t !in SymsOpt(d.revDep) {
      var p :| p in d.props && t in PropEdges(p);
      assert t in SymsOpt(p.visible) || t in BodySyms(p.body);
    }
    forall p | p in d.props && p.kind !in {Choice, Select} && t in SymsOpt(p.visible)
      ensures t in Edges(d)
    {
      assert t in PropEdges(p);
    }
    forall p | p in d.props && p.kind == Default && t in BodySyms(p.body)
      ensures t in Edges(d)
    {
      assert t in PropEdges(p);
    }
  }

  /** Symbols that depend on each other by direct dependencies alone are never reported. */
  lemma DirectUnreported(cfg: map<Symbol, Def>)
    requires forall s {:trigger cfg[s]} :: s in cfg ==> cfg[s].props == [] && cfg[s].revDep.None?
    ensures !HasCycle(GraphOf(cfg))
  {
    var g := GraphOf(cfg);
    forall s | s in cfg
      ensures g[s] == {}
    {
      forall t { EdgesExactly(cfg[s], t); }
    }
    NumberedHasNoCycle(g, map s | s in cfg :: 0);
  }

  /** The check looks at everything evaluation reads exactly if it finds there what it overlooks elsewhere. */
  lemma CoversIff(cfg: map<Symbol, Def>)
    ensures CheckCovers(cfg) <==> forall s {:trigger Overlooked(cfg[s])} :: s in cfg ==>
              Overlooked(cfg[s]) <= Edges(cfg[s])
  {
    forall s | s in cfg
      ensures Overlooked(cfg[s]) <= Edges(cfg[s]) <==> Reads(cfg[s]) <= Edges(cfg[s])
    {
      ReadsSplit(cfg[s]);
    }
  }

  /**
   What the check overlooks is looked at elsewhere or reads nothing, as a constant does; and it looks at nothing that
   evaluation does not read.
   */
  ghost predicate Plain(cfg: map<Symbol, Def>) {
    && (forall s, t {:trigger t in Overlooked(cfg[s])} :: s in cfg && t in Overlooked(cfg[s]) ==>
          t in Edges(cfg[s]) || (t in cfg && Reads(cfg[t]) == {}))
    && (forall s {:trigger Aside(cfg[s])} :: s in cfg ==> Aside(cfg[s]) <= Reads(cfg[s]))
  }

  lemma PlainRead(cfg: map<Symbol, Def>, s: Symbol, t: Symbol)
    requires Plain(cfg) && s in cfg && t in Reads(cfg[s])
    ensures t in Edges(cfg[s]) || (t in cfg && Reads(cfg[t]) == {})
  {
    ReadsSplit(cfg[s]);
    assert t in Edges(cfg[s]) || t in Overlooked(cfg[s]);
  }

  lemma PlainEdges(cfg: map<Symbol, Def>)
    requires Closed(cfg) && Plain(cfg)
    ensures IsClosed(GraphOf(cfg)) && forall s :: s in cfg ==> Edges(cfg[s]) <= Reads(cfg[s])
  {
    forall s | s in cfg
      ensures Edges(cfg[s]) <= Reads(cfg[s]) <= cfg.Keys
    {
      ReadsSplit(cfg[s]);
      assert Aside(cfg[s]) <= Reads(cfg[s]);
    }
  }

  lemma OrderedNotRecursive(cfg: map<Symbol, Def>, rank: Symbol -> nat)
    requires Closed(cfg) && Plain(cfg) && Ordered(cfg, rank)
    ensures !HasCycle(GraphOf(cfg))
  {
    var g := GraphOf(cfg);
    PlainEdges(cfg);
    var num: map<Symbol, nat> := map s | s in cfg :: rank(s);
    forall s, t {:trigger t in g[s]} | s in g && t in g[s]
      ensures t in num && num[t] < num[s]
    {
      assert t in Reads(cfg[s]);
    }
    NumberedHasNoCycle(g, num);
  }

  /** Whatever reads nothing comes first, the others as they are numbered. */
  function RankOf(cfg: map<Symbol, Def>, num: map<Symbol, nat>, s: Symbol): nat {
    if s in num && s in cfg && Reads(cfg[s]) != {} then num[s] + 1 else 0
  }

  lemma RankDescends(cfg: map<Symbol, Def>, num: map<Symbol, nat>, s: Symbol, t: Symbol)
    requires Plain(cfg) && Descending(GraphOf(cfg), cfg.Keys, num) && s in cfg && t in Reads(cfg[s])
    ensures RankOf(cfg, num, t) < RankOf(cfg, num, s)
  {
    PlainRead(cfg, s, t);
    if t in Edges(cfg[s]) {
      assert t in GraphOf(cfg)[s];
    }
  }

  lemma NumberedIsOrdered(cfg: map<Symbol, Def>, num: map<Symbol, nat>) returns (rank: Symbol -> nat)
    requires Plain(cfg) && Descending(GraphOf(cfg), cfg.Keys, num)
    ensures Ordered(cfg, rank)
  {
    rank := s => RankOf(cfg, num, s);
    forall s, t {:trigger t in Reads(cfg[s])} | s in cfg && t in Reads(cfg[s])
      ensures RankOf(cfg, num, t) < RankOf(cfg, num, s)
    {
      RankDescends(cfg, num, s, t);
    }
  }

  lemma AcyclicIsOrdered(cfg: map<Symbol, Def>) returns (rank: Symbol -> nat)
    requires Closed(cfg) && Plain(cfg) && !HasCycle(GraphOf(cfg))
    ensures Ordered(cfg, rank)
  {
    PlainEdges(cfg);
    var num := AcyclicNumbered(GraphOf(cfg));
    rank := NumberedIsOrdered(cfg, num);
  }

  /** Recursion is there to be reported exactly if no order of evaluation exists. */
  lemma RecursiveIffUnordered(cfg: map<Symbol, Def>)
    requires Closed(cfg) && Plain(cfg)
    ensures HasCycle(GraphOf(cfg)) <==> !exists rank :: Ordered(cfg, rank)
  {
    if rank :| Ordered(cfg, rank) {
      OrderedNotRecursive(cfg, rank);
    }
    if !HasCycle(GraphOf(cfg)) {
      var rank := AcyclicIsOrdered(cfg);
    }
  }

  // ----- what must be reported -----

  /** The symbol `s` is shown, defaulted or selected depending on `t`. */
  ghost predicate DependsOn(cfg: map<Symbol, Def>, s: Symbol, t: Symbol)
    requires s in cfg
  {
    || t in SymsOpt(cfg[s].revDep)
    || (exists p :: p in cfg[s].props && p.kind == Prompt && t in SymsOpt(p.visible))
    || (exists p :: p in cfg[s].props && p.kind == Default && t in SymsOpt(p.visible) + BodySyms(p.body))
  }

  /** Each symbol of the ring depends on the next, the last on the first. */
  ghost predicate IsRing(cfg: map<Symbol, Def>, ring: seq<Symbol>) {
    && ring != [] && (forall i :: 0 <= i < |ring| ==> ring[i] in cfg)
    && forall i {:trigger ring[i]} :: 0 <= i < |ring| ==>
         DependsOn(cfg, ring[i], if i + 1 < |ring| then ring[i + 1] else ring[0])
  }

  lemma DependsIsEdge(cfg: map<Symbol, Def>, s: Symbol, t: Symbol)
    requires s in cfg && DependsOn(cfg, s, t)
    ensures t in GraphOf(cfg)[s]
  {
    if t !in SymsOpt(cfg[s].revDep) {
      if p :| p in cfg[s].props && p.kind == Prompt && t in SymsOpt(p.visible) {
        assert t in PropEdges(p);
      } else {
        var p :| p in cfg[s].props && p.kind == Default && t in SymsOpt(p.visible) + BodySyms(p.body);
        assert t in PropEdges(p);
      }
    }
  }

  /** Every ring of dependencies is recursion, such as two symbols whose prompts depend on each other. */
  lemma RingIsRecursive(cfg: map<Symbol, Def>, ring: seq<Symbol>)
    requires IsRing(cfg, ring)
    ensures HasCycle(GraphOf(cfg))
  {
    var g := GraphOf(cfg);
    forall i {:trigger ring[i]} | 0 <= i < |ring|
      ensures (if i + 1 < |ring| then ring[i + 1] else ring[0]) in g[ring[i]]
    {
      DependsIsEdge(cfg, ring[i], if i + 1 < |ring| then ring[i + 1] else ring[0]);
    }
    ClosedPath(g, ring, 0);
  }

  /** The check of a whole configuration: silence means that it has exactly one meaning. */
  method CheckConfiguration(m: Model, order: seq<Symbol>) returns (reported: bool)
    requires Closed(m.cfg) && Plain(m.cfg) && forall s :: s in m.cfg <==> s in order
    ensures reported <==> !exists rank :: Ordered(m.cfg, rank)
    ensures !reported ==> exists a :: Solution(m, a) && forall b :: Solution(m, b) ==> b == a
    ensures forall ring :: IsRing(m.cfg, ring) ==> reported
  {
    PlainEdges(m.cfg);
    var checker := new Checker(m.cfg);
    var errors := checker.CheckAll(order);
    reported := checker.reports > 0;
    RecursiveIffUnordered(m.cfg);
    forall ring | IsRing(m.cfg, ring)
      ensures reported
    {
      RingIsRecursive(m.cfg, ring);
    }
    if !reported {
      OrderedIffAcyclic(m.cfg);
      ghost var a := AcyclicHasOneSolution(m);
    }
  }
}
