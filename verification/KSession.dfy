/**
 Kconfiglib as its clients see it (support/scripts/kconfiglib.py: Symbol.get_value, set_user_value,
 unset_user_value, _invalidate_all): when caching and selective invalidation cannot be observed.
 */
module KSession {
  import opened Tristates
  import opened KExpr
  import opened KModel
  import opened KSolve
  import opened KFrame
  import opened KDeps
  import opened KCaches
  import opened KCache
  import opened KMeaning

  datatype Command = Get(sym: string) | Set(sym: string, val: string) | Unset(sym: string)

  function After(k: Kconf, u: User, cmd: Command): User
    requires cmd.sym in k.syms
  {
    match cmd
    case Get(_) => u
    case Set(s, v) => AfterSet(k, u, s, v)
    case Unset(s) => AfterUnset(k, u, s)
  }

  ghost predicate ReachContained(k: Kconf, s: string) {
    forall A {:trigger IsClosure(k, s, A)} :: IsClosure(k, s, A) ==> Contained(k, A)
  }

  ghost predicate NoSpecialPrompts(k: Kconf) {
    forall x {:trigger k.syms[x]} :: x in k.syms && k.syms[x].special.Some? ==> k.syms[x].prompts == []
  }

  /**
   What a client can check before a command: reading and refused assignments are safe; assigning MODULES is, since
   it drops all caches; any other change is when it stays inside the symbols that depend on the one changed.
   */
  ghost predicate Safe(k: Kconf, cmd: Command) {
    cmd.sym in k.syms &&
    match cmd
    case Get(_) => true
    case Set(s, v) => !Accepts(k, s, v) || (if s == "MODULES" then NoSpecialPrompts(k) else ReachContained(k, s))
    case Unset(s) => ReachContained(k, s)
  }

  ghost predicate AllSafe(k: Kconf, cmds: seq<Command>) {
    forall i {:trigger cmds[i]} :: 0 <= i < |cmds| ==> Safe(k, cmds[i])
  }

  /** In an ordinary configuration only changes that reach MODULES, other than assigning it, are not safe. */
  lemma OrdinarySafe(k: Kconf, cmd: Command)
    requires WellFormed(k) && Ordinary(k) && cmd.sym in k.syms
    requires forall A {:trigger IsClosure(k, cmd.sym, A)} :: IsClosure(k, cmd.sym, A) ==>
               "MODULES" !in A || cmd.Get? || (cmd.Set? && cmd.sym == "MODULES")
    ensures Safe(k, cmd)
  {
    forall A | IsClosure(k, cmd.sym, A) && "MODULES" !in A
      ensures Contained(k, A)
    {
      OrdinaryContained(k, A);
    }
  }

  /** The user values after the first `n` commands. */
  ghost function UserAfter(k: Kconf, u: User, cmds: seq<Command>, n: nat): User
    requires n <= |cmds| && AllSafe(k, cmds)
  {
    if n == 0 then u else After(k, UserAfter(k, u, cmds, n - 1), cmds[n - 1])
  }

  /** A read gives the value that every solution for the user values `u` has. */
  ghost predicate Answers(k: Kconf, u: User, cmd: Command, v: string)
    requires cmd.sym in k.syms
  {
    cmd.Get? ==> forall a {:trigger Solution(k, u, a)} :: Solution(k, u, a) ==> v == a[cmd.sym]
  }

  /** Each answer is right for the user values at the time of its command. */
  ghost predicate Answered(k: Kconf, u: User, cmds: seq<Command>, out: seq<string>)
    requires AllSafe(k, cmds)
  {
    |out| <= |cmds| && forall i {:trigger out[i]} :: 0 <= i < |out| ==>
      Answers(k, UserAfter(k, u, cmds, i), cmds[i], out[i])
  }

  lemma AnsweredMore(k: Kconf, u: User, cmds: seq<Command>, out: seq<string>, v: string)
    requires AllSafe(k, cmds) && Answered(k, u, cmds, out) && |out| < |cmds|
    requires Answers(k, UserAfter(k, u, cmds, |out|), cmds[|out|], v)
    ensures Answered(k, u, cmds, out + [v])
  {}

  /** The caches are right for the values that `u` gives rise to. */
  ghost predicate Fresh(k: Kconf, u: User, m: Caches) {
    forall a {:trigger Solution(k, u, a)} :: Solution(k, u, a) ==> Coherent(k, u, a, m)
  }

  /** A value and its flag mean what they should, given the values that `u` gives rise to. */
  ghost predicate ReadMeans(k: Kconf, u: User, s: string, r: Result)
    requires s in k.syms
  {
    forall a {:trigger Solution(k, u, a)} :: Solution(k, u, a) ==> Means(k, u, s, EnvOf(k, a), r)
  }

  lemma ReadIs(k: Kconf, u: User, m: Caches, s: string)
    requires s in k.syms
    ensures Fresh(k, u, m) && k.syms[s].special.None? && s in m.value ==> ReadMeans(k, u, s, m.value[s])
  {
    if Fresh(k, u, m) && k.syms[s].special.None? && s in m.value {
      forall a | Solution(k, u, a)
        ensures Means(k, u, s, EnvOf(k, a), m.value[s])
      {
        assert ValueOk(k, u, a, s, m.value[s]);
        ResultIs(k, u, s, EnvOf(k, a), m.value[s]);
      }
    }
  }

  /** A change of user values inside a closed set whose caches are dropped. */
  lemma ChangeKeepsFresh(k: Kconf, rank: string -> nat, u: User, u': User, m: Caches, A: set<string>)
    requires WellFormed(k) && Ordered(k, rank) && Users(k, u) && Users(k, u') && Fresh(k, u, m)
    requires ClosedUnder(k, A) && Contained(k, A) && SameUserOutside(k, u, u', A)
    ensures Fresh(k, u', Without(k, m, A))
  {
    var a := SolutionExists(k, u, rank);
    forall a' | Solution(k, u', a')
      ensures Coherent(k, u', a', Without(k, m, A))
    {
      ContainedRestores(k, rank, u, a, u', a', m, A);
    }
  }

  /** Any change of user values when all caches are dropped. */
  lemma DroppingAllKeepsFresh(k: Kconf, rank: string -> nat, u: User, u': User, m: Caches)
    requires WellFormed(k) && Ordered(k, rank) && Users(k, u) && Fresh(k, u, m) && NoSpecialPrompts(k)
    ensures Fresh(k, u', Without(k, m, k.syms.Keys))
  {
    var a := SolutionExists(k, u, rank);
    forall a' | Solution(k, u', a')
      ensures Coherent(k, u', a', Without(k, m, k.syms.Keys))
    {
      forall x | x in m.vis && x in k.syms && k.syms[x].special.Some?
        ensures Vis(k, x, EnvOf(k, a')) == Vis(k, x, EnvOf(k, a))
      {
        SpecialOutside(k, x);
      }
      DroppingAllExact(k, u, a, u', a', m);
    }
  }

  lemma DroppingKeepsFresh(k: Kconf, u: User, m: Caches, A: set<string>)
    requires Fresh(k, u, m)
    ensures Fresh(k, u, Without(k, m, A))
  {
    forall a | Solution(k, u, a)
      ensures Coherent(k, u, a, Without(k, m, A))
    {
      DroppingOnly(k, u, a, m, A);
    }
  }

  /** What is dropped when the symbol gets or loses its user value. */
  ghost predicate Drops(k: Kconf, cmd: Command, A: set<string>) {
    if cmd.Set? && cmd.sym == "MODULES" then A == k.syms.Keys else IsClosure(k, cmd.sym, A)
  }

  /** The state after a safe command is right again. */
  lemma SafeKeepsFresh(k: Kconf, rank: string -> nat, u: User, m: Caches, cmd: Command, A: set<string>)
    requires WellFormed(k) && Ordered(k, rank) && Users(k, u) && Fresh(k, u, m) && Safe(k, cmd) && !cmd.Get? &&
             Drops(k, cmd, A)
    ensures Fresh(k, After(k, u, cmd), Without(k, m, A))
  {
    if cmd.Set? && !Accepts(k, cmd.sym, cmd.val) {
      DroppingKeepsFresh(k, u, m, A);
    } else if cmd.Set? && cmd.sym == "MODULES" {
      DroppingAllKeepsFresh(k, rank, u, After(k, u, cmd), m);
    } else {
      if cmd.Set? {
        SetReaches(k, u, cmd.sym, cmd.val, A);
      } else {
        UnsetReaches(k, u, cmd.sym, A);
      }
      ChangeKeepsFresh(k, rank, u, After(k, u, cmd), m, A);
    }
  }

  /** The closure of a known symbol has known symbols only. */
  lemma ClosureKnown(k: Kconf, s: string, A: set<string>)
    requires WellFormed(k) && s in k.syms && IsClosure(k, s, A)
    ensures A <= k.syms.Keys
  {
    forall t | t in k.syms
      ensures Mentioning(k, t) <= k.syms.Keys && Group(k, t) <= k.syms.Keys
    {
      forall x | x in Group(k, t)
        ensures x in k.syms
      {
        GroupTogether(k, t, x);
      }
    }
    assert ClosedUnder(k, k.syms.Keys);
  }

  class Config {
    const k: Kconf
    const cache: Cache
    const graph: Graph
    ghost const rank: string -> nat

    /** A parsed configuration: nothing assigned, nothing cached, dependencies linked. */
    constructor (k: Kconf, ghost rank: string -> nat)
      requires WellFormed(k) && Ordered(k, rank)
      ensures Linked() && UpToDate() && this.k == k && this.rank == rank && cache.user == User(map[], map[], map[]) &&
              fresh(cache) && fresh(graph)
      ensures cache.m == Caches(map[], map[], map[], map[])
    {
      this.k := k;
      this.rank := rank;
      cache := new Cache(k);
      graph := new Graph(k);
    }

    /** What every operation keeps, whether the caches are right or not. */
    ghost predicate Linked()
      reads cache, graph
    {
      && cache.k == k && graph.k == k && WellFormed(k) && Ordered(k, rank)
      && DepBuilt(k, graph.dep) && CachedOk(k, graph.cached) && Users(k, cache.user)
    }

    ghost predicate UpToDate()
      reads cache
    {
      Fresh(k, cache.user, cache.m)
    }

    /** Symbol.get_value: the value in the one solution for the current user values, or else what is cached */
    method GetValue(s: string) returns (v: string)
      requires Linked() && s in k.syms && (UpToDate() || s in cache.m.value)
      modifies cache`m
      ensures Linked() && (old(UpToDate()) ==> UpToDate() && Answers(k, cache.user, Get(s), v))
      ensures k.syms[s].special.None? ==> s in cache.m.value && v == cache.m.value[s].val
      ensures k.syms[s].special.None? && s in old(cache.m).value ==> cache.m == old(cache.m)
      ensures old(UpToDate()) && k.syms[s].special.None? ==> ReadMeans(k, cache.user, s, cache.m.value[s])
    {
      ghost var a := SolutionExists(k, cache.user, rank);
      v := cache.GetValue(s, rank, a);
      ReadIs(k, cache.user, cache.m, s);
      forall b | Solution(k, cache.user, b)
        ensures b == a
      {
        SolutionUnique(k, cache.user, rank, a, b);
      }
    }

    /** Symbol.set_user_value, with the set of symbols whose caches it drops */
    method SetUserValue(s: string, v: string) returns (ghost A: set<string>)
      requires Linked() && s in k.syms
      modifies cache`user, cache`m, graph`cached
      ensures Linked() && cache.user == AfterSet(k, old(cache.user), s, v)
      ensures Drops(k, Set(s, v), A) && cache.m == Without(k, old(cache.m), A)
    {
      SetReaches(k, cache.user, s, v, {s});
      cache.Assign(s, v);
      if s == "MODULES" {
        cache.InvalidateAll(k.syms.Keys);
        return k.syms.Keys;
      }
      ghost var top := OrderedIsRanked(k, rank);
      cache.Invalidate(s);
      var deps := graph.GetDependent(s, rank, top);
      A := deps + {s};
      ClosureKnown(k, s, A);
      cache.InvalidateAll(deps);
      WithoutMore(k, old(cache.m), {s}, deps);
      assert {s} + deps == A;
    }

    /** Symbol.unset_user_value, with the set of symbols whose caches it drops */
    method UnsetUserValue(s: string) returns (ghost A: set<string>)
      requires Linked() && s in k.syms
      modifies cache`user, cache`m, graph`cached
      ensures Linked() && cache.user == AfterUnset(k, old(cache.user), s)
      ensures Drops(k, Unset(s), A) && cache.m == Without(k, old(cache.m), A)
    {
      UnsetReaches(k, cache.user, s, {s});
      ghost var top := OrderedIsRanked(k, rank);
      cache.Unassign(s);
      var deps := graph.GetDependent(s, rank, top);
      A := deps + {s};
      ClosureKnown(k, s, A);
      cache.InvalidateAll(deps);
      WithoutMore(k, old(cache.m), {s}, deps);
      assert {s} + deps == A;
    }

    method Step(cmd: Command) returns (v: string)
      requires Linked() && UpToDate() && Safe(k, cmd)
      modifies cache`user, cache`m, graph`cached
      ensures Linked() && UpToDate() && cache.user == After(k, old(cache.user), cmd) &&
              Answers(k, old(cache.user), cmd, v)
    {
      v := "";
      ghost var A: set<string>;
      match cmd
      case Get(s) => v := GetValue(s);
      case Set(s, w) =>
        A := SetUserValue(s, w);
        SafeKeepsFresh(k, rank, old(cache.user), old(cache.m), cmd, A);
      case Unset(s) =>
        A := UnsetUserValue(s);
        SafeKeepsFresh(k, rank, old(cache.user), old(cache.m), cmd, A);
    }

    /** Whatever safe commands come in between, every read gives the freshly evaluated value. */
    method Run(cmds: seq<Command>) returns (out: seq<string>)
      requires Linked() && UpToDate() && AllSafe(k, cmds)
      modifies cache`user, cache`m, graph`cached
      ensures Linked() && UpToDate() && |out| == |cmds| && cache.user == UserAfter(k, old(cache.user), cmds, |cmds|)
      ensures Answered(k, old(cache.user), cmds, out)
    {
      out := [];
      for i := 0 to |cmds|
        invariant Linked() && UpToDate() && |out| == i && cache.user == UserAfter(k, old(cache.user), cmds, i)
        invariant Answered(k, old(cache.user), cmds, out)
      {
        var v := Step(cmds[i]);
        AnsweredMore(k, old(cache.user), cmds, out, v);
        out := out + [v];
      }
    }
  }
}
