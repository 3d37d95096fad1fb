/**
 Runs of Kconfiglib in which a read gives an outdated value (support/scripts/kconfiglib.py:
 set_user_value, unset_user_value, _build_dep): nothing links MODULES to the symbols it matters to, nor a choice
 to what its defaults depend on.
 */
module KStale {
  import opened Tristates
  import opened KExpr
  import opened KModel
  import opened KSolve
  import opened KFrame
  import opened KCaches
  import opened KSession

  const NEVER := Leaf(Text("n"))
  const NOTHING := Caches(map[], map[], map[], map[])

  /** A symbol with a prompt and nothing else. */
  function Plain(typ: KType, choice: Option<nat>): SymDef { SymDef(typ, [None], [], NEVER, [], choice, None) }

  lemma NothingCached(k: Kconf, u: User, A: set<string>)
    ensures Fresh(k, u, NOTHING) && Without(k, NOTHING, A) == NOTHING
  {}

  /** What a symbol with a prompt and nothing else is worth. */
  lemma PlainValue(k: Kconf, u: User, s: string, env: Env)
    requires s in k.syms && k.syms[s] == Plain(k.syms[s].typ, None) && k.syms[s].typ in {Bool, Tri}
    ensures s !in u.val ==> ResultIn(k, u, s, env).val == "n"
    ensures s in u.val ==>
              ResultIn(k, u, s, env).val ==
              if u.val[s] != "m" then TriText(TriOf(u.val[s]))
              else if k.syms[s].typ == Tri && env.modules then "m" else "y"
  {
    assert PromptVis(k.syms[s].prompts, 0, NO, env) == YES;
    assert Lift(env, Eval(k.syms[s].revDep, env)) == NO;
  }

  /** Such a symbol takes any value of its type. */
  lemma PlainSet(k: Kconf, u: User, s: string, v: string)
    requires s in k.syms && k.syms[s].special.None? && k.syms[s].choice.None?
    requires if k.syms[s].typ == Tri then v in {"n", "m", "y"} else k.syms[s].typ == Bool && v in {"n", "y"}
    ensures AfterSet(k, u, s, v) == User(u.val[s := v], u.sel, u.mode)
  {}

  /** `t` is read, `s` is assigned, `t` is read again: the cache answers when `t` is not known to depend on `s`. */
  method ReadSetRead(c: Config, s: string, v: string, t: string) returns (before: string, after: string)
    requires c.Linked() && c.UpToDate() && s in c.k.syms && s != "MODULES" && t in c.k.syms && c.k.syms[t].special.None?
    requires forall A {:trigger IsClosure(c.k, s, A)} :: IsClosure(c.k, s, A) ==> t !in A
    modifies c.cache, c.graph
    ensures c.Linked() && c.cache.user == AfterSet(c.k, old(c.cache.user), s, v)
    ensures before == after && Answers(c.k, old(c.cache.user), Get(t), before)
  {
    before := c.GetValue(t);
    ghost var A := c.SetUserValue(s, v);
    after := c.GetValue(t);
  }

  method ReadUnsetRead(c: Config, s: string, t: string) returns (before: string, after: string)
    requires c.Linked() && c.UpToDate() && s in c.k.syms && t in c.k.syms && c.k.syms[t].special.None?
    requires forall A {:trigger IsClosure(c.k, s, A)} :: IsClosure(c.k, s, A) ==> t !in A
    modifies c.cache, c.graph
    ensures c.Linked() && c.cache.user == AfterUnset(c.k, old(c.cache.user), s)
    ensures before == after && Answers(c.k, old(c.cache.user), Get(t), before)
  {
    before := c.GetValue(t);
    ghost var A := c.UnsetUserValue(s);
    after := c.GetValue(t);
  }

  /** An assignment while nothing is cached. */
  method SetEarly(c: Config, s: string, v: string)
    requires c.Linked() && s in c.k.syms && c.cache.m == NOTHING
    modifies c.cache, c.graph
    ensures c.Linked() && c.cache.user == AfterSet(c.k, old(c.cache.user), s, v) && c.UpToDate() && c.cache.m == NOTHING
  {
    ghost var A := c.SetUserValue(s, v);
    NothingCached(c.k, c.cache.user, A);
  }

  /** A configuration of bools and tristates with at most one choice. */
  lemma TruthsWellFormed(k: Kconf)
    requires k.choices.Keys <= {0}
    requires forall s {:trigger k.syms[s]} :: s in k.syms ==>
             OwnReads(k, s) <= k.syms.Keys && k.syms[s].typ in {Bool, Tri}
    requires forall s {:trigger k.syms[s]} :: s in k.syms && k.syms[s].choice.Some? ==>
               k.syms[s].choice == Some(0) && 0 in k.choices && s in k.choices[0].members
    requires 0 in k.choices ==> forall s {:trigger s in k.choices[0].members} :: s in k.choices[0].members ==>
               s in k.syms && k.syms[s].choice == Some(0) && k.syms[s].special.None?
    requires 0 in k.choices ==> forall d {:trigger d in k.choices[0].defaults} :: d in k.choices[0].defaults ==>
             d.sym in k.syms
    ensures WellFormed(k)
  {}

  // ----- MODULES -----

  /** BAR is a tristate; MODULES can be assigned, and is y by default once FOO is. */
  ghost predicate ModConfig(k: Kconf) {
    && k.syms.Keys == {"FOO", "BAR", "MODULES"} && k.choices == map[]
    && k.syms["FOO"] == Plain(Bool, None) && k.syms["BAR"] == Plain(Tri, None)
    && k.syms["MODULES"] == Plain(Bool, None).(defaults := [Default(Leaf(Text("y")), Some(Leaf(Ref("FOO"))))])
  }

  ghost predicate ModRank(rank: string -> nat) { rank("FOO") < rank("MODULES") < rank("BAR") }

  lemma ModReads(k: Kconf, s: string)
    requires ModConfig(k) && s in k.syms
    ensures OwnReads(k, s) == (if s == "MODULES" then {"FOO"} else {}) && Group(k, s) == {s}
    ensures s != "BAR" ==> TwoValued(k, s)
  {
    assert Names(NEVER) == {} && Names(Leaf(Ref("FOO"))) == {"FOO"} && Names(Leaf(Text("y"))) == {};
    assert PromptNames(k.syms[s].prompts) == {};
    assert RangeNames(k.syms[s].ranges) == {};
    if s == "MODULES" {
      assert k.syms[s].defaults[1..] == [];
      assert DefaultNames(k.syms[s].defaults) == {"FOO"};
    }
  }

  lemma ModWellFormed(k: Kconf)
    requires ModConfig(k)
    ensures WellFormed(k)
  {
    forall s | s in k.syms
      ensures OwnReads(k, s) <= k.syms.Keys && k.syms[s].typ in {Bool, Tri} && k.syms[s].choice.None?
    {
      ModReads(k, s);
    }
    TruthsWellFormed(k);
  }

  lemma ModOrdered(k: Kconf, rank: string -> nat)
    requires ModConfig(k) && ModRank(rank)
    ensures Ordered(k, rank)
  {
    forall s, n | s in k.syms && n in Reads(k, s)
      ensures rank(n) < rank(s)
    {
      ModReads(k, s);
      assert PlainReads(k, s) == OwnReads(k, s);
    }
    forall s, t | s in k.syms && t in Group(k, s)
      ensures rank(t) == rank(s)
    {
      ModReads(k, s);
    }
  }

  /** What depends on FOO, and on MODULES, as far as Kconfiglib knows. */
  lemma ModReach(k: Kconf, s: string)
    requires ModConfig(k) && s in {"FOO", "MODULES"}
    ensures forall A {:trigger IsClosure(k, s, A)} :: IsClosure(k, s, A) ==> "BAR" !in A
  {
    forall t | t in k.syms
      ensures OwnReads(k, t) == (if t == "MODULES" then {"FOO"} else {}) && Group(k, t) == {t}
    {
      ModReads(k, t);
    }
    assert Mentioning(k, "FOO") == {"MODULES"} && Mentioning(k, "MODULES") == {};
    assert ClosedUnder(k, {"FOO", "MODULES"});
  }

  /** MODULES is what the user says, else y when FOO is. */
  function ModulesFlag(u: User): string
    requires "FOO" in u.val
  {
    if "MODULES" in u.val then u.val["MODULES"] else u.val["FOO"]
  }

  lemma ModulesValue(k: Kconf, u: User, env: Env)
    requires ModConfig(k) && "FOO" in u.val && u.val["FOO"] in {"n", "y"} && env.tri("FOO") == TriOf(u.val["FOO"])
    requires "MODULES" in u.val ==> u.val["MODULES"] in {"n", "y"}
    ensures ResultIn(k, u, "MODULES", env).val == ModulesFlag(u)
  {
    var d := k.syms["MODULES"];
    assert PromptVis(d.prompts, 0, NO, env) == YES;
    assert Lift(env, Eval(d.revDep, env)) == NO;
    assert EvalCond(d.defaults[0].cond, env) == TriOf(u.val["FOO"]);
    assert ActiveDefault(d.defaults, 0, env) == if u.val["FOO"] == "y" then Some(0) else None;
  }

  lemma ModValues(k: Kconf, rank: string -> nat, u: User)
    requires ModConfig(k) && Users(k, u) && WellFormed(k) && Ordered(k, rank)
    requires "FOO" in u.val && u.val["FOO"] in {"n", "y"} && "BAR" in u.val && u.val["BAR"] == "m"
    requires "MODULES" in u.val ==> u.val["MODULES"] in {"n", "y"}
    ensures exists a :: Solution(k, u, a)
    ensures forall a {:trigger Solution(k, u, a)} :: Solution(k, u, a) ==>
            a["BAR"] == if ModulesFlag(u) == "y" then "m" else "y"
  {
    var a := SolutionExists(k, u, rank);
    forall a | Solution(k, u, a)
      ensures a["BAR"] == if ModulesFlag(u) == "y" then "m" else "y"
    {
      var env := EnvOf(k, a);
      assert a["FOO"] == ResultIn(k, u, "FOO", env).val;
      PlainValue(k, u, "FOO", env);
      assert a["BAR"] == ResultIn(k, u, "BAR", env).val;
      PlainValue(k, u, "BAR", env);
      assert a["MODULES"] == ResultIn(k, u, "MODULES", env).val;
      ModulesValue(k, u, env);
    }
  }

  /** FOO and BAR are assigned before anything is read. */
  method ModSetUp(k: Kconf, ghost rank: string -> nat, foo: string) returns (c: Config)
    requires ModConfig(k) && ModRank(rank) && foo in {"n", "y"}
    ensures fresh(c.cache) && fresh(c.graph) && c.k == k && c.rank == rank && c.Linked() && c.UpToDate() &&
            c.cache.m == NOTHING
    ensures c.cache.user == User(map["FOO" := foo, "BAR" := "m"], map[], map[])
  {
    ModWellFormed(k);
    ModOrdered(k, rank);
    c := new Config(k, rank);
    PlainSet(k, c.cache.user, "FOO", foo);
    SetEarly(c, "FOO", foo);
    PlainSet(k, c.cache.user, "BAR", "m");
    SetEarly(c, "BAR", "m");
    assert c.cache.user.val == map["FOO" := foo, "BAR" := "m"];
  }

  /** After FOO goes back to n, BAR is still read as m although modules are off. */
  method StaleAfterSet(k: Kconf, ghost rank: string -> nat) returns (before: string, after: string, ghost u: User)
    requires ModConfig(k) && ModRank(rank)
    ensures before == after == "m" && u == User(map["FOO" := "n", "BAR" := "m"], map[], map[])
    ensures forall a {:trigger Solution(k, u, a)} :: Solution(k, u, a) ==> a["BAR"] == "y"
  {
    var c := ModSetUp(k, rank, "y");
    ModValues(k, rank, c.cache.user);
    ModReach(k, "FOO");
    PlainSet(k, c.cache.user, "FOO", "n");
    before, after := ReadSetRead(c, "FOO", "n", "BAR");
    u := c.cache.user;
    ModValues(k, rank, u);
  }

  method ModSetUpOn(k: Kconf, ghost rank: string -> nat) returns (c: Config)
    requires ModConfig(k) && ModRank(rank)
    ensures fresh(c.cache) && fresh(c.graph) && c.k == k && c.rank == rank && c.Linked() && c.UpToDate()
    ensures c.cache.user == User(map["FOO" := "n", "BAR" := "m", "MODULES" := "y"], map[], map[])
  {
    c := ModSetUp(k, rank, "n");
    PlainSet(k, c.cache.user, "MODULES", "y");
    SetEarly(c, "MODULES", "y");
    assert c.cache.user.val == map["FOO" := "n", "BAR" := "m", "MODULES" := "y"];
  }

  /** set_user_value drops every cache when the symbol is MODULES; unset_user_value does not. */
  method StaleAfterUnset(k: Kconf, ghost rank: string -> nat) returns (before: string, after: string, ghost u: User)
    requires ModConfig(k) && ModRank(rank)
    ensures before == after == "m" && u == User(map["FOO" := "n", "BAR" := "m"], map[], map[])
    ensures forall a {:trigger Solution(k, u, a)} :: Solution(k, u, a) ==> a["BAR"] == "y"
  {
    var c := ModSetUpOn(k, rank);
    ModValues(k, rank, c.cache.user);
    ModReach(k, "MODULES");
    before, after := ReadUnsetRead(c, "MODULES", "BAR");
    u := c.cache.user;
    assert u.val == map["FOO" := "n", "BAR" := "m"];
    ModValues(k, rank, u);
  }

  // ----- a default that is not a member -----

  /** A choice of A and B whose default is X, which is visible when Y is y. */
  ghost predicate PickConfig(k: Kconf) {
    && k.syms.Keys == {"A", "B", "X", "Y"} && k.choices.Keys == {0}
    && k.syms["A"] == Plain(Bool, Some(0)) && k.syms["B"] == Plain(Bool, Some(0)) && k.syms["Y"] == Plain(Bool, None)
    && k.syms["X"] == Plain(Bool, None).(prompts := [Some(Leaf(Ref("Y")))])
    && k.choices[0] == ChoiceDef(Bool, [None], [ChoiceDefault("X", None)], false, ["A", "B"])
  }

  ghost predicate PickRank(rank: string -> nat) { rank("Y") < rank("X") && rank("Y") < rank("A") == rank("B") }

  lemma PickReads(k: Kconf, s: string)
    requires PickConfig(k) && s in k.syms
    ensures OwnReads(k, s) == if s == "X" then {"Y"} else {}
    ensures Group(k, s) == if s in {"A", "B"} then {"A", "B"} else {s}
  {
    assert Names(NEVER) == {} && Names(Leaf(Ref("Y"))) == {"Y"};
    assert k.syms[s].prompts[1..] == [] && k.choices[0].prompts[1..] == [] && k.choices[0].defaults[1..] == [];
    assert PromptNames(k.syms[s].prompts) == if s == "X" then {"Y"} else {};
    assert PromptNames(k.choices[0].prompts) == {} && ChoiceDefaultNames(k.choices[0].defaults) == {};
    assert ChoiceNames(k.choices[0]) == {};
  }

  lemma PickMemberReads(k: Kconf, s: string, n: string)
    requires PickConfig(k) && s in {"A", "B"} && n in PlainReads(k, s)
    ensures n == "Y"
  {
    PickReads(k, s);
    var c := k.choices[0];
    if n in AllVisReads(k, c.members) {
      var i := AllVisReadsFrom(k, c.members, n);
      PickReads(k, c.members[i]);
    } else if n in AllVisReads(k, DefaultSyms(c.defaults)) {
      var i := AllVisReadsFrom(k, DefaultSyms(c.defaults), n);
      PickReads(k, DefaultSyms(c.defaults)[i]);
    }
  }

  lemma PickMember(k: Kconf, s: string)
    requires PickConfig(k) && s in k.choices[0].members
    ensures s in k.syms && k.syms[s].choice == Some(0) && k.syms[s].special.None?
  {}

  lemma PickWellFormed(k: Kconf)
    requires PickConfig(k)
    ensures WellFormed(k)
  {
    forall s | s in k.syms
      ensures OwnReads(k, s) <= k.syms.Keys && k.syms[s].typ in {Bool, Tri}
      ensures k.syms[s].choice.Some? ==> k.syms[s].choice == Some(0) && s in k.choices[0].members
    {
      PickReads(k, s);
    }
    forall s | s in k.choices[0].members
      ensures s in k.syms && k.syms[s].choice == Some(0) && k.syms[s].special.None?
    {
      PickMember(k, s);
    }
    TruthsWellFormed(k);
  }

  lemma PickOrdered(k: Kconf, rank: string -> nat)
    requires PickConfig(k) && PickRank(rank)
    ensures Ordered(k, rank)
  {
    forall s, n | s in k.syms && n in Reads(k, s)
      ensures rank(n) < rank(s)
    {
      PickReads(k, s);
      if s in {"A", "B"} {
        PickMemberReads(k, s, n);
      } else {
        assert PlainReads(k, s) == OwnReads(k, s);
      }
    }
    forall s, t | s in k.syms && t in Group(k, s)
      ensures rank(t) == rank(s)
    {
      PickReads(k, s);
    }
  }

  /** As far as Kconfiglib knows, X depends on Y and nothing else does. */
  lemma PickMentioning(k: Kconf)
    requires PickConfig(k)
    ensures Mentioning(k, "Y") == {"X"} && Mentioning(k, "X") == {}
  {
    forall t | t in k.syms
      ensures OwnReads(k, t) == if t == "X" then {"Y"} else {}
    {
      PickReads(k, t);
    }
  }

  lemma PickReach(k: Kconf)
    requires PickConfig(k)
    ensures forall A {:trigger IsClosure(k, "Y", A)} :: IsClosure(k, "Y", A) ==> "A" !in A
  {
    PickReads(k, "Y");
    PickReads(k, "X");
    PickMentioning(k);
    var B := {"X", "Y"};
    assert ClosedUnder(k, B);
  }

  lemma PickSelection(k: Kconf, u: User, env: Env)
    requires PickConfig(k) && "Y" in u.val && env.tri("Y") == TriOf(u.val["Y"]) && u.val["Y"] in {"n", "y"} &&
             u.sel == map[] && u.mode == map[]
    ensures Vis(k, "A", env) == YES && Mode(k, u, 0, env) == YES
    ensures Selection(k, u, 0, env) == Some(if u.val["Y"] == "y" then "X" else "A")
  {
    var c := k.choices[0];
    assert PromptVis(c.prompts, 0, NO, env) == YES && ChoiceVis(c, env) == YES;
    assert PromptVis(k.syms["A"].prompts, 0, NO, env) == YES && Vis(k, "A", env) == YES;
    assert PromptVis(k.syms["X"].prompts, 0, NO, env) == TriOf(u.val["Y"]) && Vis(k, "X", env) == TriOf(u.val["Y"]);
    assert Preferred(c, 0, env) == "X" && FirstVisible(k, c.members, 0, env) == Some("A");
  }

  lemma PickResult(k: Kconf, u: User, env: Env)
    requires PickConfig(k) && "Y" in u.val && env.tri("Y") == TriOf(u.val["Y"]) && u.val["Y"] in {"n", "y"} &&
             u.sel == map[] && u.mode == map[]
    ensures ResultIn(k, u, "A", env).val == if u.val["Y"] == "y" then "n" else "y"
  {
    PickSelection(k, u, env);
  }

  lemma PickValues(k: Kconf, rank: string -> nat, u: User)
    requires PickConfig(k) && Users(k, u) && WellFormed(k) && Ordered(k, rank)
    requires "Y" in u.val && u.val["Y"] in {"n", "y"} && u.sel == map[] && u.mode == map[]
    ensures exists a :: Solution(k, u, a)
    ensures forall a {:trigger Solution(k, u, a)} :: Solution(k, u, a) ==>
            a["A"] == if u.val["Y"] == "y" then "n" else "y"
  {
    var a := SolutionExists(k, u, rank);
    forall a | Solution(k, u, a)
      ensures a["A"] == if u.val["Y"] == "y" then "n" else "y"
    {
      var env := EnvOf(k, a);
      assert a["Y"] == ResultIn(k, u, "Y", env).val;
      PlainValue(k, u, "Y", env);
      PickResult(k, u, env);
      assert a["A"] == ResultIn(k, u, "A", env).val;
    }
  }

  method PickSetUp(k: Kconf, ghost rank: string -> nat) returns (c: Config)
    requires PickConfig(k) && PickRank(rank)
    ensures fresh(c.cache) && fresh(c.graph) && c.k == k && c.rank == rank && c.Linked() && c.UpToDate()
    ensures c.cache.user == User(map["Y" := "y"], map[], map[])
  {
    PickWellFormed(k);
    PickOrdered(k, rank);
    c := new Config(k, rank);
    PlainSet(k, c.cache.user, "Y", "y");
    SetEarly(c, "Y", "y");
    assert c.cache.user.val == map["Y" := "y"];
  }

  /** Once Y goes to n the choice falls back to A, but A is still read as n. */
  method StaleSelection(k: Kconf, ghost rank: string -> nat) returns (before: string, after: string, ghost u: User)
    requires PickConfig(k) && PickRank(rank)
    ensures before == after == "n" && u == User(map["Y" := "n"], map[], map[])
    ensures forall a {:trigger Solution(k, u, a)} :: Solution(k, u, a) ==> a["A"] == "y"
  {
    var c := PickSetUp(k, rank);
    PickValues(k, rank, c.cache.user);
    PlainSet(k, c.cache.user, "Y", "n");
    PickReach(k);
    before, after := ReadSetRead(c, "Y", "n", "A");
    u := c.cache.user;
    PickValues(k, rank, u);
  }
}
