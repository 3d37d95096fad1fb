/** Cycles in a finite graph of symbols, and numberings that rule them out. */
module Graphs {
  import opened Expressions

  type Graph = map<Symbol, set<Symbol>>

  /** Each symbol of the sequence has an edge to the next. */
  ghost predicate IsPath(g: Graph, p: seq<Symbol>) {
    && (forall i :: 0 <= i < |p| ==> p[i] in g)
    && forall i {:trigger g[p[i]]} :: 0 <= i < |p| - 1 ==> p[i + 1] in g[p[i]]
  }

  ghost predicate IsCycle(g: Graph, p: seq<Symbol>) { IsPath(g, p) && |p| >= 2 && p[0] == p[|p| - 1] }

  ghost predicate HasCycle(g: Graph) { exists p :: IsCycle(g, p) }

  predicate IsClosed(g: Graph) { forall s :: s in g ==> g[s] <= g.Keys }

  /** Edges that leave `ss` stay in it and go to smaller numbers. */
  ghost predicate Descending(g: Graph, ss: set<Symbol>, num: map<Symbol, nat>) {
    && ss <= g.Keys && num.Keys == ss
    && forall s, t {:trigger t in g[s]} :: s in ss && t in g[s] ==> t in ss && num[t] < num[s]
  }

  ghost predicate Numbered(g: Graph, ss: set<Symbol>, num: map<Symbol, nat>) {
    Descending(g, ss, num) && forall t :: t in num ==> num[t] < |num|
  }

  lemma PathPush(g: Graph, p: seq<Symbol>, s: Symbol)
    requires IsPath(g, p) && s in g && (p != [] ==> s in g[p[|p| - 1]])
    ensures IsPath(g, p + [s])
  {}

  lemma TwoCycle(g: Graph, s: Symbol, t: Symbol)
    requires s in g && t in g && t in g[s] && s in g[t]
    ensures HasCycle(g)
  {
    assert IsCycle(g, [s, t, s]);
  }

  /** A path that comes back to one of its own symbols contains a cycle. */
  lemma ClosedPath(g: Graph, p: seq<Symbol>, k: nat)
    requires IsPath(g, p) && k < |p| && p[k] in g[p[|p| - 1]]
    ensures HasCycle(g)
  {
    var c := p[k..] + [p[k]];
    forall i {:trigger g[c[i]]} | 0 <= i < |c| - 1
      ensures c[i + 1] in g[c[i]]
    {
      assert c[i] == p[k + i];
      if i < |c| - 2 {
        assert c[i + 1] == p[k + i + 1];
      }
    }
    assert IsCycle(g, c);
  }

  lemma {:induction false} PathDescends(g: Graph, ss: set<Symbol>, num: map<Symbol, nat>, p: seq<Symbol>, i: nat)
    requires Descending(g, ss, num) && IsPath(g, p) && 0 < i < |p| && p[0] in ss
    ensures p[i] in ss && num[p[i]] < num[p[0]]
  {
    if i > 1 {
      PathDescends(g, ss, num, p, i - 1);
    }
    assert p[(i - 1) + 1] in g[p[i - 1]];
  }

  lemma NumberedHasNoCycle(g: Graph, num: map<Symbol, nat>)
    requires Descending(g, g.Keys, num)
    ensures !HasCycle(g)
  {
    if HasCycle(g) {
      var p :| IsCycle(g, p);
      PathDescends(g, g.Keys, num, p, |p| - 1);
    }
  }

  /** A symbol whose successors are all numbered gets the next number. */
  lemma NumberNext(g: Graph, ss: set<Symbol>, num: map<Symbol, nat>, s: Symbol)
    requires Numbered(g, ss, num) && s in g && s !in ss && g[s] <= ss
    ensures Numbered(g, ss + {s}, num[s := |num|])
  {
    var num' := num[s := |num|];
    assert num'.Keys == num.Keys + {s};
    assert |num'.Keys| == |num.Keys| + 1;
  }

  // ----- a graph without cycles can be numbered -----

  /** The symbols of the path are different and have no number yet. */
  ghost predicate Fresh(ss: set<Symbol>, p: seq<Symbol>) {
    (forall i :: 0 <= i < |p| ==> p[i] !in ss) && forall i, j :: 0 <= i < j < |p| ==> p[i] != p[j]
  }

  lemma {:induction false} DifferentFit(p: seq<Symbol>, all: set<Symbol>)
    requires (forall i :: 0 <= i < |p| ==> p[i] in all) && forall i, j :: 0 <= i < j < |p| ==> p[i] != p[j]
    ensures |p| <= |all|
  {
    if p != [] {
      var last := p[|p| - 1];
      DifferentFit(p[..|p| - 1], all - {last});
    }
  }

  /** Following edges among symbols without number ends at one whose successors all have numbers. */
  lemma {:induction false} FindSink(g: Graph, ss: set<Symbol>, p: seq<Symbol>) returns (s: Symbol)
    requires IsClosed(g) && !HasCycle(g) && IsPath(g, p) && p != [] && Fresh(ss, p)
    ensures s in g && s !in ss && g[s] <= ss
    decreases |g.Keys| - |p|
  {
    DifferentFit(p, g.Keys);
    s := p[|p| - 1];
    if t :| t in g[s] && t !in ss {
      if k :| 0 <= k < |p| && p[k] == t {
        ClosedPath(g, p, k);
        assert false;
      }
      PathPush(g, p, t);
      DifferentFit(p + [t], g.Keys);
      s := FindSink(g, ss, p + [t]);
    }
  }

  lemma {:induction false} NumberRest(g: Graph, ss: set<Symbol>, num: map<Symbol, nat>) returns (all: map<Symbol, nat>)
    requires IsClosed(g) && !HasCycle(g) && Numbered(g, ss, num)
    ensures Descending(g, g.Keys, all)
    decreases |g.Keys - ss|
  {
    all := num;
    if ss != g.Keys {
      var x :| x in g && x !in ss;
      var s := FindSink(g, ss, [x]);
      NumberNext(g, ss, num, s);
      assert g.Keys - (ss + {s}) < g.Keys - ss;
      SmallerSet(g.Keys - (ss + {s}), g.Keys - ss);
      all := NumberRest(g, ss + {s}, num[s := |num|]);
    }
  }

  lemma SmallerSet(a: set<Symbol>, b: set<Symbol>)
    requires a < b
    ensures |a| < |b|
  {
    assert b == a + (b - a);
  }

  lemma AcyclicNumbered(g: Graph) returns (num: map<Symbol, nat>)
    requires IsClosed(g) && !HasCycle(g)
    ensures Descending(g, g.Keys, num)
  {
    num := NumberRest(g, {}, map[]);
  }
}
