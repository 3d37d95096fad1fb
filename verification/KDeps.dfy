/**
 Which symbols a change can reach (support/scripts/kconfiglib.py: _build_dep, Symbol._get_dependent,
 Symbol._add_dependent_ignore_siblings).
 */
module KDeps {
  import opened Tristates
  import opened KExpr
  import opened KModel
  import opened KSolve
  import opened KFrame

  /** The `dep` sets after `sym` has been added to those of the symbols in `names`. */
  function Linked(dep: map<string, set<string>>, names: set<string>, sym: string): map<string, set<string>> {
    map t | t in dep :: if t in names then dep[t] + {sym} else dep[t]
  }

  lemma LinkedTwice(dep: map<string, set<string>>, names: set<string>, more: set<string>, sym: string)
    ensures Linked(Linked(dep, names, sym), more, sym) == Linked(dep, names + more, sym)
  {}

  lemma {:induction false} PromptNamesStep(ps: seq<Cond>, i: nat)
    requires i < |ps|
    ensures PromptNames(ps[..i + 1]) == PromptNames(ps[..i]) + CondNames(ps[i])
  {
    if i > 0 {
      assert ps[..i + 1][1..] == ps[1..][..i] && ps[..i][1..] == ps[1..][..i - 1];
      PromptNamesStep(ps[1..], i - 1);
    }
  }

  lemma {:induction false} DefaultNamesStep(ds: seq<Default>, i: nat)
    requires i < |ds|
    ensures DefaultNames(ds[..i + 1]) == DefaultNames(ds[..i]) + (Names(ds[i].val) + CondNames(ds[i].cond))
  {
    if i > 0 {
      assert ds[..i + 1][1..] == ds[1..][..i] && ds[..i][1..] == ds[1..][..i - 1];
      DefaultNamesStep(ds[1..], i - 1);
    }
  }

  lemma {:induction false} RangeNamesStep(rs: seq<Range>, i: nat)
    requires i < |rs|
    ensures RangeNames(rs[..i + 1]) == RangeNames(rs[..i]) +
            (AtomNames(rs[i].low) + AtomNames(rs[i].high) + CondNames(rs[i].cond))
  {
    if i > 0 {
      assert rs[..i + 1][1..] == rs[1..][..i] && rs[..i][1..] == rs[1..][..i - 1];
      RangeNamesStep(rs[1..], i - 1);
    }
  }

  lemma {:induction false} ChoiceDefaultNamesStep(ds: seq<ChoiceDefault>, i: nat)
    requires i < |ds|
    ensures ChoiceDefaultNames(ds[..i + 1]) == ChoiceDefaultNames(ds[..i]) + CondNames(ds[i].cond)
  {
    if i > 0 {
      assert ds[..i + 1][1..] == ds[1..][..i] && ds[..i][1..] == ds[1..][..i - 1];
      ChoiceDefaultNamesStep(ds[1..], i - 1);
    }
  }

  /** A closed set of symbols that a change of `x` can reach. */
  ghost predicate Reached(k: Kconf, x: string, N: set<string>) {
    ClosedUnder(k, N) && forall B {:trigger ClosedUnder(k, B)} :: x in B && ClosedUnder(k, B) ==> N <= B
  }

  lemma ReachedMore(k: Kconf, x: string, N: set<string>, s: string, more: set<string>)
    requires Reached(k, x, N) && x in k.syms && s in Mentioning(k, x) && IsClosure(k, s, more + {s})
    ensures Reached(k, x, N + (more + {s}))
  {
    UnionClosed(k, N, more + {s});
    forall B {:trigger ClosedUnder(k, B)} | x in B && ClosedUnder(k, B)
      ensures N + (more + {s}) <= B
    {
      assert Mentioning(k, x) <= B;
    }
  }

  lemma UnionClosed(k: Kconf, A: set<string>, B: set<string>)
    requires ClosedUnder(k, A) && ClosedUnder(k, B)
    ensures ClosedUnder(k, A + B)
  {}

  /** What a change of one member can reach, its choice aside, a change of any other member can reach. */
  lemma ReachedTogether(k: Kconf, s: string, N: set<string>, x: string, more: set<string>)
    requires s in k.syms && x in Group(k, s) && Reached(k, s, N) && Reached(k, x, more)
    ensures Reached(k, s, N + more)
  {
    UnionClosed(k, N, more);
    forall B {:trigger ClosedUnder(k, B)} | s in B && ClosedUnder(k, B)
      ensures N + more <= B
    {
      assert Group(k, s) <= B;
    }
  }

  lemma GroupClosure(k: Kconf, s: string, N: set<string>)
    requires WellFormed(k) && s in k.syms && Reached(k, s, N) && forall x :: x in Group(k, s) ==> Mentioning(k, x) <= N
    ensures IsClosure(k, s, Group(k, s) + N)
  {
    forall t | t in Group(k, s) + N && t in k.syms
      ensures Mentioning(k, t) <= Group(k, s) + N && Group(k, t) <= Group(k, s) + N
    {
      if t in Group(k, s) {
        GroupTogether(k, s, t);
      }
    }
  }

  /** `done` holds members of the group other than `s`, the first `n` among them. */
  ghost predicate SiblingsOf(group: set<string>, members: seq<string>, n: nat, s: string, done: set<string>)
    requires n <= |members|
  {
    && done <= group - {s}
    && (forall j {:trigger members[j]} :: 0 <= j < n && members[j] != s ==> members[j] in done)
  }

  /** The loop over the other members has dealt with the first `n`. */
  ghost predicate Collected(k: Kconf, s: string, members: seq<string>, n: nat, to: set<string>, res: set<string>,
                            added: set<string>, done: set<string>)
    requires n <= |members| && s in k.syms
  {
    && Reached(k, s, added) && res == to + done + added && SiblingsOf(Group(k, s), members, n, s, done)
    && (forall j {:trigger members[j]} :: 0 <= j < n && members[j] != s ==> Mentioning(k, members[j]) <= added)
  }

  lemma CollectedStep(k: Kconf, s: string, members: seq<string>, n: nat, to: set<string>, res: set<string>,
                      added: set<string>, done: set<string>, more: set<string>)
    requires n < |members| && s in k.syms && Collected(k, s, members, n, to, res, added, done)
    requires members[n] != s && members[n] in Group(k, s) && Reached(k, members[n], more) &&
             Mentioning(k, members[n]) <= more
    ensures Collected(k, s, members, n + 1, to, res + {members[n]} + more, added + more, done + {members[n]})
  {
    ReachedTogether(k, s, added, members[n], more);
  }

  /** The loop over a `dep` set has the symbols in `todo` left. */
  ghost predicate Gathered(k: Kconf, x: string, todo: set<string>, to: set<string>, res: set<string>,
                           added: set<string>) {
    todo <= Mentioning(k, x) <= todo + added && res == to + added && Reached(k, x, added)
  }

  lemma GatheredStep(k: Kconf, x: string, todo: set<string>, to: set<string>, res: set<string>, added: set<string>,
                     s: string, more: set<string>)
    requires Gathered(k, x, todo, to, res, added) && x in k.syms && s in todo && IsClosure(k, s, more + {s})
    ensures Gathered(k, x, todo - {s}, to, res + {s} + more, added + (more + {s}))
  {
    ReachedMore(k, x, added, s, more);
  }

  /** The siblings, with what mentions them or the symbol itself, complete the closure of a member. */
  lemma WholeGroup(k: Kconf, s: string, all: set<string>, more: set<string>, done: set<string>)
    requires WellFormed(k) && s in k.syms && k.syms[s].choice.Some?
    requires Reached(k, s, all) && Mentioning(k, s) <= all && Reached(k, s, more)
    requires var ms := k.choices[k.syms[s].choice.value].members;
      SiblingsOf(Group(k, s), ms, |ms|, s, done) && forall j {:trigger ms[j]} :: 0 <= j < |ms| && ms[j] != s ==>
        Mentioning(k, ms[j]) <= more
    ensures IsClosure(k, s, all + done + more + {s})
  {
    var ms := k.choices[k.syms[s].choice.value].members;
    assert done + {s} == Group(k, s);
    UnionClosed(k, all, more);
    forall x | x in Group(k, s)
      ensures Mentioning(k, x) <= all + more
    {
      var j :| 0 <= j < |ms| && ms[j] == x;
    }
    GroupClosure(k, s, all + more);
    assert all + done + more + {s} == Group(k, s) + (all + more);
  }

  /** Ranks grow along mentions, stay below `top`, and are shared by the members of a choice. */
  ghost predicate Ranked(k: Kconf, rank: string -> nat, top: nat) {
    && (forall t, s {:trigger s in Mentioning(k, t)} :: s in Mentioning(k, t) ==> rank(t) < rank(s))
    && (forall s, t {:trigger t in Group(k, s)} :: s in k.syms && t in Group(k, s) ==>
       t in k.syms && rank(t) == rank(s))
    && (forall s {:trigger rank(s)} :: s in k.syms ==> rank(s) < top)
  }

  lemma OrderedIsRanked(k: Kconf, rank: string -> nat) returns (top: nat)
    requires WellFormed(k) && Ordered(k, rank)
    ensures Ranked(k, rank, top)
  {
    top := TopRank(k.syms.Keys, rank);
    forall t, s | s in Mentioning(k, t)
      ensures rank(t) < rank(s)
    {
      assert t in Reads(k, s);
    }
    forall s, t | s in k.syms && t in Group(k, s)
      ensures t in k.syms && rank(t) == rank(s)
    {
      GroupTogether(k, s, t);
    }
  }

  /** Every symbol has its `dep` set, and it is the set of symbols that mention it. */
  ghost predicate DepBuilt(k: Kconf, dep: map<string, set<string>>) {
    dep.Keys == k.syms.Keys && forall t {:trigger dep[t]} :: t in dep ==> dep[t] == Mentioning(k, t)
  }

  /** cached_deps is the transitive closure of a symbol, without the symbol. */
  ghost predicate CachedOk(k: Kconf, cached: map<string, set<string>>) {
    forall s {:trigger cached[s]} :: s in cached ==> s in k.syms && IsClosure(k, s, cached[s] + {s})
  }

  /** The `dep` sets when the symbols in `todo` are still to be added. */
  ghost function DepsFrom(k: Kconf, todo: set<string>): map<string, set<string>> {
    map t | t in k.syms :: set s | s in k.syms && s !in todo && t in OwnReads(k, s)
  }

  lemma DepsFromStep(k: Kconf, todo: set<string>, s: string)
    requires s in k.syms
    ensures Linked(DepsFrom(k, todo), OwnReads(k, s), s) == DepsFrom(k, todo - {s})
  {
    forall t | t in k.syms
      ensures Linked(DepsFrom(k, todo), OwnReads(k, s), s)[t] == DepsFrom(k, todo - {s})[t]
    {}
  }

  lemma DepsFromNone(k: Kconf, dep: map<string, set<string>>)
    requires dep.Keys == k.syms.Keys && forall t {:trigger dep[t]} :: t in dep ==> dep[t] == {}
    ensures dep == DepsFrom(k, k.syms.Keys)
  {
    forall t | t in k.syms
      ensures DepsFrom(k, k.syms.Keys)[t] == {}
    {}
  }

  lemma DepsFromAll(k: Kconf)
    ensures DepBuilt(k, DepsFrom(k, {}))
  {
    forall t | t in k.syms
      ensures DepsFrom(k, {})[t] == Mentioning(k, t)
    {}
  }

  class Graph {
    const k: Kconf
    var dep: map<string, set<string>>
    var cached: map<string, set<string>>

    constructor (k: Kconf)
      requires WellFormed(k)
      ensures this.k == k && DepBuilt(k, dep) && cached == map[]
    {
      this.k := k;
      cached := map[];
      new;
      BuildDep();
    }

    // ----- _build_dep -----

    /** add_expr_deps */
    method AddExprDeps(names: set<string>, sym: string)
      requires names <= dep.Keys
      modifies this`dep
      ensures dep == Linked(old(dep), names, sym)
    {
      var todo := names;
      while todo != {}
        invariant todo <= names && dep == Linked(old(dep), names - todo, sym)
        decreases |todo|
      {
        var n :| n in todo;
        dep := dep[n := dep[n] + {sym}];
        todo := todo - {n};
      }
      assert names - {} == names;
    }

    method AddPrompts(ps: seq<Cond>, sym: string)
      requires PromptNames(ps) <= dep.Keys
      modifies this`dep
      ensures dep == Linked(old(dep), PromptNames(ps), sym)
    {
      for i := 0 to |ps|
        invariant dep == Linked(old(dep), PromptNames(ps[..i]), sym)
      {
        PromptNamesHave(ps, i);
        PromptNamesStep(ps, i);
        LinkedTwice(old(dep), PromptNames(ps[..i]), CondNames(ps[i]), sym);
        AddExprDeps(CondNames(ps[i]), sym);
      }
      assert ps[..|ps|] == ps;
    }

    method AddDefaults(ds: seq<Default>, sym: string)
      requires DefaultNames(ds) <= dep.Keys
      modifies this`dep
      ensures dep == Linked(old(dep), DefaultNames(ds), sym)
    {
      for i := 0 to |ds|
        invariant dep == Linked(old(dep), DefaultNames(ds[..i]), sym)
      {
        DefaultNamesHave(ds, i);
        DefaultNamesStep(ds, i);
        LinkedTwice(dep, Names(ds[i].val), CondNames(ds[i].cond), sym);
        LinkedTwice(old(dep), DefaultNames(ds[..i]), Names(ds[i].val) + CondNames(ds[i].cond), sym);
        AddExprDeps(Names(ds[i].val), sym);
        AddExprDeps(CondNames(ds[i].cond), sym);
      }
      assert ds[..|ds|] == ds;
    }

    method AddRanges(rs: seq<Range>, sym: string)
      requires RangeNames(rs) <= dep.Keys
      modifies this`dep
      ensures dep == Linked(old(dep), RangeNames(rs), sym)
    {
      for i := 0 to |rs|
        invariant dep == Linked(old(dep), RangeNames(rs[..i]), sym)
      {
        RangeNamesHave(rs, i);
        RangeNamesStep(rs, i);
        LinkedTwice(dep, AtomNames(rs[i].low), AtomNames(rs[i].high), sym);
        LinkedTwice(dep, AtomNames(rs[i].low) + AtomNames(rs[i].high), CondNames(rs[i].cond), sym);
        LinkedTwice(old(dep), RangeNames(rs[..i]), AtomNames(rs[i].low) + AtomNames(rs[i].high) + CondNames(rs[i].cond),
          sym);
        AddExprDeps(AtomNames(rs[i].low), sym);
        AddExprDeps(AtomNames(rs[i].high), sym);
        AddExprDeps(CondNames(rs[i].cond), sym);
      }
      assert rs[..|rs|] == rs;
    }

    method AddChoiceDefaults(ds: seq<ChoiceDefault>, sym: string)
      requires ChoiceDefaultNames(ds) <= dep.Keys
      modifies this`dep
      ensures dep == Linked(old(dep), ChoiceDefaultNames(ds), sym)
    {
      for i := 0 to |ds|
        invariant dep == Linked(old(dep), ChoiceDefaultNames(ds[..i]), sym)
      {
        ChoiceDefaultNamesHave(ds, i);
        ChoiceDefaultNamesStep(ds, i);
        LinkedTwice(old(dep), ChoiceDefaultNames(ds[..i]), CondNames(ds[i].cond), sym);
        AddExprDeps(CondNames(ds[i].cond), sym);
      }
      assert ds[..|ds|] == ds;
    }

    /** Adds `sym` to the `dep` set of every symbol that its choice mentions. */
    method AddChoice(ch: ChoiceDef, sym: string)
      requires ChoiceNames(ch) <= dep.Keys
      modifies this`dep
      ensures dep == Linked(old(dep), ChoiceNames(ch), sym)
    {
      LinkedTwice(dep, PromptNames(ch.prompts), ChoiceDefaultNames(ch.defaults), sym);
      AddPrompts(ch.prompts, sym);
      AddChoiceDefaults(ch.defaults, sym);
    }

    /** Adds `sym` to the `dep` set of every symbol that its own properties mention. */
    method AddProperties(d: SymDef, sym: string)
      requires PropertyNames(d) <= dep.Keys
      modifies this`dep
      ensures dep == Linked(old(dep), PropertyNames(d), sym)
    {
      LinkedTwice(dep, PromptNames(d.prompts), DefaultNames(d.defaults), sym);
      LinkedTwice(dep, PromptNames(d.prompts) + DefaultNames(d.defaults), Names(d.revDep), sym);
      LinkedTwice(dep, PromptNames(d.prompts) + DefaultNames(d.defaults) + Names(d.revDep), RangeNames(d.ranges), sym);
      AddPrompts(d.prompts, sym);
      AddDefaults(d.defaults, sym);
      AddExprDeps(Names(d.revDep), sym);
      AddRanges(d.ranges, sym);
    }

    /** Adds `sym` to the `dep` set of every symbol that it or its choice mentions. */
    method AddSymbol(sym: string)
      requires WellFormed(k) && sym in k.syms && dep.Keys == k.syms.Keys
      modifies this`dep
      ensures dep == Linked(old(dep), OwnReads(k, sym), sym)
    {
      assert OwnReads(k, sym) <= k.syms.Keys;
      AddProperties(k.syms[sym], sym);
      if k.syms[sym].choice.Some? {
        LinkedTwice(old(dep), PropertyNames(k.syms[sym]), ChoiceNames(k.choices[k.syms[sym].choice.value]), sym);
        AddChoice(k.choices[k.syms[sym].choice.value], sym);
      } else {
        assert OwnReads(k, sym) == PropertyNames(k.syms[sym]);
      }
    }

    /** _build_dep: afterwards every `dep` set holds exactly the symbols that mention its symbol. */
    method BuildDep()
      requires WellFormed(k)
      modifies this`dep
      ensures DepBuilt(k, dep)
    {
      dep := map t | t in k.syms :: {};
      var todo := k.syms.Keys;
      DepsFromNone(k, dep);
      while todo != {}
        invariant todo <= k.syms.Keys && dep == DepsFrom(k, todo)
        decreases |todo|
      {
        var s :| s in todo;
        DepsFromStep(k, todo, s);
        AddSymbol(s);
        todo := todo - {s};
      }
      DepsFromAll(k);
    }

    // ----- _get_dependent -----

    /** _add_dependent_ignore_siblings: adds what mentions `x` and all that a change of it can reach */
    method AddDependent(x: string, to: set<string>, ghost rank: string -> nat, ghost top: nat)
      returns (res: set<string>, ghost added: set<string>)
      requires WellFormed(k) && Ranked(k, rank, top) && DepBuilt(k, dep) && CachedOk(k, cached) && x in k.syms
      modifies this`cached
      ensures CachedOk(k, cached) && res == to + added && Reached(k, x, added) && Mentioning(k, x) <= added
      decreases top - rank(x), 0
    {
      res, added := to, {};
      var todo := dep[x];
      while todo != {}
        invariant CachedOk(k, cached) && Gathered(k, x, todo, to, res, added)
        decreases |todo|
      {
        var s :| s in todo;
        assert s in Mentioning(k, x);
        var more := GetDependent(s, rank, top);
        GatheredStep(k, x, todo, to, res, added, s, more);
        res := res + {s} + more;
        added := added + (more + {s});
        todo := todo - {s};
      }
    }

    /** One step of the loop over the members of the choice in _get_dependent. */
    method AddSibling(s: string, members: seq<string>, i: nat, ghost to: set<string>, res: set<string>,
                      ghost added: set<string>, ghost done: set<string>, ghost rank: string -> nat, ghost top: nat)
      returns (res': set<string>, ghost added': set<string>, ghost done': set<string>)
      requires WellFormed(k) && Ranked(k, rank, top) && DepBuilt(k, dep) && CachedOk(k, cached) && s in k.syms
      requires i < |members| && members[i] in Group(k, s) && Collected(k, s, members, i, to, res, added, done)
      modifies this`cached
      ensures CachedOk(k, cached) && Collected(k, s, members, i + 1, to, res', added', done')
      decreases top - rank(s), 1
    {
      res', added', done' := res, added, done;
      if members[i] != s {
        ghost var more;
        res', more := AddDependent(members[i], res + {members[i]}, rank, top);
        CollectedStep(k, s, members, i, to, res, added, done, more);
        added', done' := added + more, done + {members[i]};
      }
    }

    /** The loop over the members of the choice in _get_dependent. */
    method AddSiblings(s: string, c: nat, to: set<string>, ghost rank: string -> nat, ghost top: nat)
      returns (res: set<string>, ghost added: set<string>, ghost done: set<string>)
      requires WellFormed(k) && Ranked(k, rank, top) && DepBuilt(k, dep) && CachedOk(k, cached) && s in k.syms
      requires c in k.choices && k.syms[s].choice == Some(c)
      modifies this`cached
      ensures CachedOk(k, cached) && Collected(k, s, k.choices[c].members, |k.choices[c].members|, to, res, added, done)
      decreases top - rank(s), 2
    {
      var members := k.choices[c].members;
      res, added, done := to, {}, {};
      for i := 0 to |members|
        invariant CachedOk(k, cached) && Collected(k, s, members, i, to, res, added, done)
      {
        assert members[i] in Group(k, s);
        res, added, done := AddSibling(s, members, i, to, res, added, done, rank, top);
      }
    }

    /** The dependent symbols of a symbol for which they are not cached. */
    method CalcDependent(s: string, ghost rank: string -> nat, ghost top: nat) returns (res: set<string>)
      requires WellFormed(k) && Ranked(k, rank, top) && DepBuilt(k, dep) && CachedOk(k, cached) && s in k.syms
      modifies this`cached
      ensures CachedOk(k, cached) && IsClosure(k, s, res + {s})
      decreases top - rank(s), 3
    {
      ghost var all;
      res, all := AddDependent(s, {}, rank, top);
      if k.syms[s].choice.Some? {
        ghost var more, done;
        res, more, done := AddSiblings(s, k.syms[s].choice.value, res, rank, top);
        WholeGroup(k, s, all, more, done);
      } else {
        GroupClosure(k, s, all);
        assert res + {s} == Group(k, s) + all;
      }
    }

    /** _get_dependent: with `s` itself, the closure of `s` */
    method GetDependent(s: string, ghost rank: string -> nat, ghost top: nat) returns (res: set<string>)
      requires WellFormed(k) && Ranked(k, rank, top) && DepBuilt(k, dep) && CachedOk(k, cached) && s in k.syms
      modifies this`cached
      ensures CachedOk(k, cached) && IsClosure(k, s, res + {s})
      decreases top - rank(s), 4
    {
      if s in cached {
        return cached[s];
      }
      res := CalcDependent(s, rank, top);
      cached := cached[s := res];
    }
  }
}
