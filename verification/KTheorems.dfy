/**
 What Kconfiglib's documentation promises about values (support/scripts/kconfiglib.py: class Choice,
 Symbol.get_assignable_values, Symbol.set_user_value), proved of the one solution, with the exact
 conditions where the code keeps less than the promise.
 */
module KTheorems {
  import opened Tristates
  import opened KExpr
  import opened KModel
  import opened KSolve
  import opened KFrame
  import opened KCaches
  import opened KMeaning

  /** Without modules nothing is m, and bools never are. */
  lemma NeverMod(k: Kconf, u: User, s: string, env: Env)
    requires s in k.syms && k.syms[s].special.None? && (k.syms[s].typ == Bool || k.syms[s].typ == Tri)
    ensures ResultIn(k, u, s, env).val in {"n", "m", "y"}
    ensures ResultIn(k, u, s, env).val == "m" ==> k.syms[s].typ == Tri && env.modules
  {}

  // ----- choices -----

  /** The members are bool or tristate symbols. */
  ghost predicate TruthMembers(k: Kconf, c: nat)
    requires c in k.choices
  {
    forall s {:trigger s in k.choices[c].members} :: s in k.choices[c].members ==>
      s in k.syms && (k.syms[s].typ == Bool || k.syms[s].typ == Tri)
  }

  predicate UserSet(u: User, s: string) { s in u.val && (u.val[s] == "m" || u.val[s] == "y") }

  /** The value of a member by the mode of its choice. */
  lemma MemberByMode(k: Kconf, u: User, a: Assignment, c: nat, s: string)
    requires WellFormed(k) && Solution(k, u, a) && c in k.choices && s in k.choices[c].members && s in k.syms &&
             TruthMembers(k, c)
    ensures var env := EnvOf(k, a);
            var mode := Mode(k, u, c, env);
            && (a[s] == "y" <==> Vis(k, s, env) != NO && (mode == YES ==> Selection(k, u, c, env) == Some(s))
                                 && (mode != YES ==> mode == MOD && UserSet(u, s) && k.syms[s].typ == Bool))
            && (a[s] == "m" <==> Vis(k, s, env) != NO && mode == MOD && UserSet(u, s) && k.syms[s].typ == Tri)
            && (a[s] != "y" && a[s] != "m" ==> a[s] == "n")
  {
    assert a[s] == ResultIn(k, u, s, EnvOf(k, a)).val;
    assert k.syms[s].choice == Some(c);
  }

  /**
   Two members of a choice are y together exactly if the choice is in m mode and both are bools that are
   visible and assigned; the documented rule, one y or any number of m, holds everywhere else.
   */
  lemma MembersTogether(k: Kconf, u: User, a: Assignment, c: nat, s: string, t: string)
    requires WellFormed(k) && Solution(k, u, a) && c in k.choices && TruthMembers(k, c)
    requires s in k.choices[c].members && t in k.choices[c].members && s != t
    ensures s in k.syms && t in k.syms
    ensures var env := EnvOf(k, a);
            a[s] == "y" && a[t] == "y" <==>
              Mode(k, u, c, env) == MOD && k.syms[s].typ == Bool && k.syms[t].typ == Bool
              && Vis(k, s, env) != NO && Vis(k, t, env) != NO && UserSet(u, s) && UserSet(u, t)
  {
    MemberByMode(k, u, a, c, s);
    MemberByMode(k, u, a, c, t);
  }

  lemma {:induction false} FirstVisibleIs(k: Kconf, members: seq<string>, i: nat, env: Env)
    requires i <= |members| && forall j :: 0 <= j < |members| ==> members[j] in k.syms
    ensures var r := FirstVisible(k, members, i, env);
            && (r.Some? ==> r.value in members && r.value in k.syms && Vis(k, r.value, env) != NO)
            && (r.None? <==> forall j :: i <= j < |members| ==> Vis(k, members[j], env) == NO)
    decreases |members| - i
  {
    if i < |members| {
      FirstVisibleIs(k, members, i + 1, env);
    }
  }

  ghost predicate SomeVisible(k: Kconf, c: nat, env: Env)
    requires c in k.choices
  {
    exists t {:trigger t in k.choices[c].members} :: t in k.choices[c].members && t in k.syms && Vis(k, t, env) != NO
  }

  /** The default selection is a visible symbol, and a member unless the preferred default is none and is visible. */
  lemma SelectionVisible(k: Kconf, c: nat, env: Env)
    requires WellFormed(k) && c in k.choices && k.choices[c].members != []
    ensures var r := DefaultSelection(k, k.choices[c], env);
            var p := Preferred(k.choices[c], 0, env);
            && p in k.syms
            && (r.Some? <==> Vis(k, p, env) != NO || SomeVisible(k, c, env))
            && (r.Some? ==> r.value in k.syms && Vis(k, r.value, env) != NO)
            && (r.Some? ==> (r.value in k.choices[c].members <==> Vis(k, p, env) == NO || p in k.choices[c].members))
  {
    var ch := k.choices[c];
    forall j | 0 <= j < |ch.members|
      ensures ch.members[j] in k.syms
    {
      assert ch.members[j] in k.choices[c].members;
    }
    FirstVisibleIs(k, ch.members, 0, env);
    PreferredKnown(k, c, 0, env);
  }

  /** When the default selection is one of the members. */
  ghost predicate DefaultsToMember(k: Kconf, c: nat, env: Env)
    requires c in k.choices && k.choices[c].members != []
  {
    var p := Preferred(k.choices[c], 0, env);
    if p in k.syms && Vis(k, p, env) != NO then p in k.choices[c].members else SomeVisible(k, c, env)
  }

  /**
   In y mode some member is y exactly if the user's selection is visible as y, or a choice that is not
   optional defaults to a member.
   */
  lemma SomeMemberSelected(k: Kconf, u: User, a: Assignment, c: nat)
    requires WellFormed(k) && Solution(k, u, a) && UserSelOk(k, u) && c in k.choices && TruthMembers(k, c)
    requires k.choices[c].members != [] && Mode(k, u, c, EnvOf(k, a)) == YES
    ensures (exists t {:trigger a[t]} :: t in k.choices[c].members && t in a && a[t] == "y") <==>
            (c in u.sel && u.sel[c] in k.syms && Vis(k, u.sel[c], EnvOf(k, a)) == YES)
            || (!k.choices[c].isOptional && DefaultsToMember(k, c, EnvOf(k, a)))
  {
    var env := EnvOf(k, a);
    var sel := Selection(k, u, c, env);
    SelectionVisible(k, c, env);
    forall t | t in k.choices[c].members
      ensures t in k.syms && t in a && (a[t] == "y" <==> Vis(k, t, env) != NO && sel == Some(t))
    {
      MemberByMode(k, u, a, c, t);
    }
    if sel.Some? && sel.value in k.choices[c].members {
      assert a[sel.value] == "y";
    }
  }

  /** A tristate choice that is visible as m, with two bool members, while modules are on. */
  ghost predicate Mixed(k: Kconf) {
    && k.choices.Keys == {0} && k.choices[0] == ChoiceDef(Tri, [Some(Leaf(Text("m")))], [], false, ["A", "B"])
    && k.syms.Keys == {"A", "B", "MODULES"}
    && k.syms["A"] == k.syms["B"] == SymDef(Bool, [None], [], Leaf(Text("n")), [], Some(0), None)
    && k.syms["MODULES"] == SymDef(Bool, [], [Default(Leaf(Text("y")), None)], Leaf(Text("n")), [], None, None)
  }

  lemma MixedResult(k: Kconf, u: User, env: Env, s: string)
    requires Mixed(k) && s in {"A", "B"} && s in u.val && u.val[s] == "y" && 0 in u.mode && u.mode[0] == YES &&
             env.modules
    ensures ResultIn(k, u, s, env).val == "y"
  {
    assert PromptVis(k.choices[0].prompts, 0, NO, env) == MOD;
    assert ChoiceVis(k.choices[0], env) == MOD;
    assert PromptVis(k.syms[s].prompts, 0, NO, env) == YES;
    assert Vis(k, s, env) == YES;
    assert Mode(k, u, 0, env) == MOD;
  }

  lemma MixedModules(k: Kconf, u: User, env: Env)
    requires Mixed(k)
    ensures ResultIn(k, u, "MODULES", env).val == "y"
  {
    assert Vis(k, "MODULES", env) == NO;
    assert ActiveDefault(k.syms["MODULES"].defaults, 0, env) == Some(0);
  }

  /** Once both have been assigned y, both are y. */
  lemma TwoMembersSelected(k: Kconf)
    requires Mixed(k)
    ensures var u := AfterSet(k, AfterSet(k, User(map[], map[], map[]), "A", "y"), "B", "y");
            Solution(k, u, map["A" := "y", "B" := "y", "MODULES" := "y"])
  {
    var u := AfterSet(k, AfterSet(k, User(map[], map[], map[]), "A", "y"), "B", "y");
    assert u.val["A"] == "y" && u.val["B"] == "y" && u.mode[0] == YES;
    var a: Assignment := map["A" := "y", "B" := "y", "MODULES" := "y"];
    MixedResult(k, u, EnvOf(k, a), "A");
    MixedResult(k, u, EnvOf(k, a), "B");
    MixedModules(k, u, EnvOf(k, a));
  }

  // ----- assigning -----

  /** get_assignable_values */
  function AssignableValues(k: Kconf, s: string, env: Env): seq<string>
    requires s in k.syms
  {
    var d := k.syms[s];
    var rev := ForType(d.typ, Lift(env, Eval(d.revDep, env)));
    var vis := Vis(k, s, env);
    if (d.typ != Bool && d.typ != Tri) || vis <= rev then [] else ["n", "m", "y"][rev..vis + 1]
  }

  /** The symbols that come no earlier than `s`. */
  ghost function From(k: Kconf, rank: string -> nat, s: string): set<string> {
    set t | t in k.syms && rank(t) >= rank(s)
  }

  lemma FromClosed(k: Kconf, rank: string -> nat, s: string)
    requires WellFormed(k) && Ordered(k, rank) && s in k.syms
    ensures ClosedUnder(k, From(k, rank, s))
  {
    var above := From(k, rank, s);
    forall t | t in above
      ensures Mentioning(k, t) <= above && Group(k, t) <= above
    {
      forall x | x in Mentioning(k, t)
        ensures x in above
      {
        assert t in Reads(k, x);
      }
      forall x | x in Group(k, t)
        ensures x in above
      {
        GroupTogether(k, t, x);
      }
    }
  }

  lemma FromDefaults(k: Kconf, rank: string -> nat, s: string, c: nat)
    requires WellFormed(k) && Ordered(k, rank) && s in k.syms && c in k.choices && k.choices[c].members != []
    requires !Touches(k, From(k, rank, s), c)
    ensures DefaultsApart(k, From(k, rank, s), c)
  {
    var t := k.choices[c].members[0];
    assert t in k.choices[c].members && t in k.syms && rank(t) < rank(s);
    forall n | n in AllVisReads(k, DefaultSyms(k.choices[c].defaults))
      ensures n !in From(k, rank, s)
    {
      ChoiceReadsLower(k, rank, c, n);
    }
  }

  /** What comes before a symbol is not changed by assigning it. */
  lemma SetKeepsEarlier(k: Kconf, rank: string -> nat, u: User, a: Assignment, a': Assignment, s: string, v: string,
                        n: string)
    requires WellFormed(k) && Ordered(k, rank) && Users(k, u) && s in k.syms
    requires Solution(k, u, a) && Solution(k, AfterSet(k, u, s, v), a') && n in k.syms && rank(n) < rank(s)
    ensures a'[n] == a[n]
  {
    var above, u' := From(k, rank, s), AfterSet(k, u, s, v);
    FromClosed(k, rank, s);
    SetReaches(k, u, s, v, above);
    forall c | c in k.choices && !Touches(k, above, c) && k.choices[c].members != []
      ensures DefaultsApart(k, above, c)
    {
      FromDefaults(k, rank, s, c);
    }
    if "MODULES" !in above {
      ModulesUnaffected(k, rank, u, a, u', a', above);
    }
    Unaffected(k, rank, u, a, u', a', above, n);
  }

  lemma SetKeepsRead(k: Kconf, rank: string -> nat, u: User, a: Assignment, a': Assignment, s: string, v: string,
                     n: string)
    requires WellFormed(k) && Ordered(k, rank) && Users(k, u) && s in k.syms && n in Reads(k, s)
    requires Solution(k, u, a) && Solution(k, AfterSet(k, u, s, v), a')
    ensures (n in a <==> n in a') && (n in a ==> a'[n] == a[n])
  {
    if n in k.syms {
      SetKeepsEarlier(k, rank, u, a, a', s, v, n);
    }
  }

  /** In particular what the symbol reads. */
  lemma SetKeepsReads(k: Kconf, rank: string -> nat, u: User, a: Assignment, a': Assignment, s: string, v: string)
    requires WellFormed(k) && Ordered(k, rank) && Users(k, u) && s in k.syms
    requires Solution(k, u, a) && Solution(k, AfterSet(k, u, s, v), a')
    ensures Agree(EnvOf(k, a'), EnvOf(k, a), PlainReads(k, s))
    ensures EnvOf(k, a').modules == EnvOf(k, a).modules || TwoValued(k, s)
  {
    forall n | n in PlainReads(k, s)
      ensures EnvOf(k, a').tri(n) == EnvOf(k, a).tri(n) && EnvOf(k, a').str(n) == EnvOf(k, a).str(n)
    {
      SetKeepsRead(k, rank, u, a, a', s, v, n);
    }
    if !TwoValued(k, s) && "MODULES" in k.syms {
      SetKeepsRead(k, rank, u, a, a', s, v, "MODULES");
    }
  }

  /** The new value of an assigned symbol is what the old values of the others make of the new user value. */
  lemma SetSees(k: Kconf, rank: string -> nat, u: User, a: Assignment, a': Assignment, s: string, v: string)
    requires WellFormed(k) && Ordered(k, rank) && Users(k, u) && s in k.syms
    requires Solution(k, u, a) && Solution(k, AfterSet(k, u, s, v), a')
    ensures a'[s] == ResultIn(k, AfterSet(k, u, s, v), s, EnvOf(k, a)).val
  {
    var u' := AfterSet(k, u, s, v);
    SetReaches(k, u, s, v, {s});
    SetKeepsReads(k, rank, u, a, a', s, v);
    SolutionClean(k, u', a');
    ValueLocal(k, u', s, EnvOf(k, a'), EnvOf(k, a));
    assert a'[s] == ResultIn(k, u', s, EnvOf(k, a')).val;
  }

  /** m has no effect on bools, without modules, or in a bool choice; n does not deselect the selected member. */
  predicate Sticks(k: Kconf, u: User, s: string, v: string, env: Env)
    requires s in k.syms
  {
    && (v == "m" ==>
       k.syms[s].typ == Tri && env.modules && (InChoice(k, s) ==> k.choices[k.syms[s].choice.value].typ != Bool))
    && (v == "n" && InChoice(k, s) && Mode(k, u, k.syms[s].choice.value, env) == YES ==>
          Selection(k, u, k.syms[s].choice.value, env) != Some(s))
  }

  lemma PlainSticks(k: Kconf, u: User, s: string, v: string, env: Env)
    requires s in k.syms && k.syms[s].special.None? && k.syms[s].choice.None? && v in AssignableValues(k, s, env)
    ensures ResultIn(k, AfterSet(k, u, s, v), s, env).val == v <==> Sticks(k, u, s, v, env)
  {
    var u' := AfterSet(k, u, s, v);
    NeverMod(k, u', s, env);
    if Accepts(k, s, v) {
      assert u'.val[s] == v;
      assert PlainTruth(k, u', s, env) == Truth(LiftMin(env, TriOf(v), Vis(k, s, env)), true);
    }
  }

  lemma MemberVisible(k: Kconf, s: string, c: nat, env: Env)
    requires s in k.syms && k.syms[s].choice == Some(c) && c in k.choices && Vis(k, s, env) != NO
    ensures ChoiceVis(k.choices[c], env) != NO
    ensures Vis(k, s, env) == YES && k.syms[s].typ == Tri ==> Lift(env, ChoiceVis(k.choices[c], env)) == YES
  {}

  lemma MemberTakesY(k: Kconf, u: User, s: string, c: nat, env: Env)
    requires WellFormed(k) && s in k.syms && k.syms[s].special.None? && k.syms[s].choice == Some(c) && c in k.choices
    requires k.syms[s].typ in {Bool, Tri} && Vis(k, s, env) == YES
    ensures ResultIn(k, AfterSet(k, u, s, "y"), s, env).val == "y"
  {
    var u' := AfterSet(k, u, s, "y");
    MemberVisible(k, s, c, env);
    assert u'.sel[c] == s && u'.mode[c] == YES && u'.val[s] == "y";
    assert Mode(k, u', c, env) == YES ==> Selection(k, u', c, env) == Some(s);
  }

  lemma MemberTakesM(k: Kconf, u: User, s: string, c: nat, env: Env)
    requires WellFormed(k) && s in k.syms && k.syms[s].special.None? && k.syms[s].choice == Some(c) && c in k.choices
    requires k.syms[s].typ in {Bool, Tri} && Vis(k, s, env) != NO
    ensures ResultIn(k, AfterSet(k, u, s, "m"), s, env).val == "m" <==>
            k.syms[s].typ == Tri && env.modules && k.choices[c].typ != Bool
  {
    var u' := AfterSet(k, u, s, "m");
    NeverMod(k, u', s, env);
    MemberVisible(k, s, c, env);
    if k.syms[s].typ == Tri {
      assert u'.mode[c] == MOD && u'.val[s] == "m";
    }
  }

  lemma MemberTakesN(k: Kconf, u: User, s: string, c: nat, env: Env)
    requires WellFormed(k) && s in k.syms && k.syms[s].special.None? && k.syms[s].choice == Some(c) && c in k.choices
    requires k.syms[s].typ in {Bool, Tri} && Vis(k, s, env) != NO
    ensures ResultIn(k, AfterSet(k, u, s, "n"), s, env).val == "n" <==>
            (Mode(k, u, c, env) == YES ==> Selection(k, u, c, env) != Some(s))
  {
    var u' := AfterSet(k, u, s, "n");
    assert u'.val[s] == "n" && u'.sel == u.sel && u'.mode == u.mode;
    assert Mode(k, u', c, env) == Mode(k, u, c, env) && Selection(k, u', c, env) == Selection(k, u, c, env);
  }

  /** A value that get_assignable_values lists is the value of the symbol once it is assigned, exactly if it sticks. */
  lemma AssignableSticks(k: Kconf, rank: string -> nat, u: User, a: Assignment, a': Assignment, s: string, v: string)
    requires WellFormed(k) && Ordered(k, rank) && Users(k, u) && s in k.syms && k.syms[s].special.None?
    requires Solution(k, u, a) && Solution(k, AfterSet(k, u, s, v), a')
    requires v in AssignableValues(k, s, EnvOf(k, a))
    ensures a'[s] == v <==> Sticks(k, u, s, v, EnvOf(k, a))
  {
    var env := EnvOf(k, a);
    SetSees(k, rank, u, a, a', s, v);
    if k.syms[s].choice.None? {
      PlainSticks(k, u, s, v, env);
    } else {
      var c := k.syms[s].choice.value;
      assert s in k.choices[c].members;
      assert v in {"n", "m", "y"} && (v == "y" ==> Vis(k, s, env) == YES);
      MemberTakesN(k, u, s, c, env);
      MemberTakesM(k, u, s, c, env);
      if v == "y" {
        MemberTakesY(k, u, s, c, env);
      }
    }
  }

  /** Some value is listed exactly if the symbol is shown above what selects it. */
  lemma AssignableWhen(k: Kconf, s: string, env: Env)
    requires s in k.syms && k.syms[s].typ in {Bool, Tri}
    ensures AssignableValues(k, s, env) != [] <==>
            || (ShownAt(k, s, env, MOD) && !SelectedAt(k, s, env, MOD))
            || (k.syms[s].typ == Tri && ShownAt(k, s, env, YES) && !SelectedAt(k, s, env, YES))
  {
    VisIs(k, s, env);
  }

  /** Outside choices no other value sticks: where any is listed, the value assigned is kept exactly if it is listed. */
  lemma AssignableComplete(k: Kconf, rank: string -> nat, u: User, a: Assignment, a': Assignment, s: string, v: string)
    requires WellFormed(k) && Ordered(k, rank) && Users(k, u) && s in k.syms && k.syms[s].special.None?
    requires k.syms[s].choice.None? && k.syms[s].typ in {Bool, Tri}
    requires Solution(k, u, a) && Solution(k, AfterSet(k, u, s, v), a') && AssignableValues(k, s, EnvOf(k, a)) != []
    ensures a'[s] == v && Accepts(k, s, v) <==>
            v in AssignableValues(k, s, EnvOf(k, a)) && (v == "m" ==> k.syms[s].typ == Tri && EnvOf(k, a).modules)
  {
    var env := EnvOf(k, a);
    SetSees(k, rank, u, a, a', s, v);
    VisIs(k, s, env);
    if v in AssignableValues(k, s, env) {
      PlainSticks(k, u, s, v, env);
    } else if Accepts(k, s, v) {
      NotListed(k, u, s, v, env);
    }
  }

  lemma NotListed(k: Kconf, u: User, s: string, v: string, env: Env)
    requires s in k.syms && k.syms[s].special.None? && k.syms[s].choice.None? && k.syms[s].typ in {Bool, Tri}
    requires Accepts(k, s, v) && AssignableValues(k, s, env) != [] && v !in AssignableValues(k, s, env)
    ensures ResultIn(k, AfterSet(k, u, s, v), s, env).val != v
  {
    var u', vis := AfterSet(k, u, s, v), Vis(k, s, env);
    var rev := ForType(k.syms[s].typ, Lift(env, Eval(k.syms[s].revDep, env)));
    VisIs(k, s, env);
    var names := ["n", "m", "y"];
    assert AssignableValues(k, s, env) == names[rev..vis + 1];
    forall i | rev <= i <= vis
      ensures names[i] != v
    {
      assert names[rev..vis + 1][i - rev] == names[i];
    }
    assert names[TriOf(v)] == v;
    assert PlainTruth(k, u', s, env) == Truth(LiftMin(env, TriOf(v), vis), true);
  }

  /** m is listed for every bool that can be assigned at all; the assignment is refused. */
  lemma BoolListsM(k: Kconf, u: User, s: string, env: Env)
    requires s in k.syms && k.syms[s].special.None? && k.syms[s].typ == Bool
    ensures "m" in AssignableValues(k, s, env) <==> AssignableValues(k, s, env) != []
    ensures !Accepts(k, s, "m") && AfterSet(k, u, s, "m") == u
  {
    var r := AssignableValues(k, s, env);
    assert r != [] ==> r == ["n", "m", "y"] && r[1] == "m";
  }

  // ----- numbers -----

  /** Numbers are shown so that they are read back, and no number is shown as nothing. */
  ghost predicate ShowParses(k: Kconf) {
    && (forall typ, x {:trigger k.show(typ, x)} :: k.parse(k.show(typ, x), BaseOf(typ)) == Some(x))
    && (forall base {:trigger k.parse("", base)} :: k.parse("", base) == None)
  }

  predicate InBounds(k: Kconf, text: string, base: nat, b: Bounds) {
    k.parse(text, base).Some? && b.Within? ==> b.low <= k.parse(text, base).value <= b.high
  }

  lemma {:induction false} DefaultInBounds(k: Kconf, typ: KType, ds: seq<Default>, i: nat, b: Bounds, cur: Result,
                                           env: Env)
    requires i <= |ds| && ShowParses(k) && (b.Within? ==> b.low <= b.high) && k.parse(cur.val, BaseOf(typ)).None?
    ensures InBounds(k, NumberDefault(k, typ, ds, i, b, cur, env).val, BaseOf(typ), b)
    decreases |ds| - i
  {
    if i < |ds| {
      var text := LeafStr(ds[i].val, env);
      if EvalLifted(ds[i].cond, env) == NO {
        DefaultInBounds(k, typ, ds, i + 1, b, cur, env);
      } else if k.parse(text, BaseOf(typ)).None? {
        DefaultInBounds(k, typ, ds, i + 1, b, Result(text, true), env);
      }
    }
  }

  /** An int or hex value that is a number lies within the first active range. */
  lemma NumberInRange(k: Kconf, u: User, a: Assignment, s: string)
    requires Solution(k, u, a) && s in k.syms && k.syms[s].special.None? &&
             (k.syms[s].typ == Int || k.syms[s].typ == Hex)
    requires ShowParses(k)
    ensures var d := k.syms[s];
            var b := ActiveBounds(k, d.ranges, 0, BaseOf(d.typ), EnvOf(k, a));
            (b.Within? ==> b.low <= b.high) ==> InBounds(k, a[s], BaseOf(d.typ), b)
  {
    var d, env := k.syms[s], EnvOf(k, a);
    var b := ActiveBounds(k, d.ranges, 0, BaseOf(d.typ), env);
    assert a[s] == ResultIn(k, u, s, env).val;
    if b.Within? ==> b.low <= b.high {
      DefaultInBounds(k, d.typ, d.defaults, 0, b, Result("", Vis(k, s, env) != NO), env);
    }
  }

  // ----- texts -----

  /** A string that is assigned is the value from then on exactly if the symbol is shown or had that value before. */
  lemma StringSticks(k: Kconf, rank: string -> nat, u: User, a: Assignment, a': Assignment, s: string, v: string)
    requires WellFormed(k) && Ordered(k, rank) && Users(k, u) && s in k.syms && k.syms[s].special.None? &&
             k.syms[s].typ == Str
    requires Solution(k, u, a) && Solution(k, AfterSet(k, u, s, v), a')
    ensures a'[s] == v <==> ShownAt(k, s, EnvOf(k, a), MOD) || a[s] == v
  {
    SetSees(k, rank, u, a, a', s, v);
    VisIs(k, s, EnvOf(k, a));
    assert a[s] == ResultIn(k, u, s, EnvOf(k, a)).val;
  }

  lemma NumberTaken(k: Kconf, u: User, s: string, v: string, env: Env, b: Bounds)
    requires s in k.syms && k.syms[s].special.None? && k.syms[s].typ in {Int, Hex}
    requires k.parse(v, BaseOf(k.syms[s].typ)).Some? && BoundsAre(k, s, env, b)
    ensures ResultIn(k, AfterSet(k, u, s, v), s, env).val ==
            if ShownAt(k, s, env, MOD) && (b.Within? ==> b.low <= Number(k, v, BaseOf(k.syms[s].typ)) <= b.high) then v
            else ResultIn(k, AfterUnset(k, u, s), s, env).val
  {
    VisIs(k, s, env);
    BoundsIs(k, s, env, b);
    assert AfterSet(k, u, s, v).val[s] == v && s !in AfterUnset(k, u, s).val;
  }

  /**
   A number that is assigned is the value from then on exactly if the symbol is shown and the number lies within the
   first active range, or the symbol would have that value without being assigned at all.
   */
  lemma NumberSticks(k: Kconf, rank: string -> nat, u: User, a: Assignment, a': Assignment, s: string, v: string,
                     b: Bounds)
    requires WellFormed(k) && Ordered(k, rank) && Users(k, u) && s in k.syms && k.syms[s].special.None? &&
             k.syms[s].typ in {Int, Hex} && k.parse(v, BaseOf(k.syms[s].typ)).Some?
    requires Solution(k, u, a) && Solution(k, AfterSet(k, u, s, v), a') && BoundsAre(k, s, EnvOf(k, a), b)
    ensures a'[s] == v <==>
            || (ShownAt(k, s, EnvOf(k, a), MOD) &&
                (b.Within? ==> b.low <= Number(k, v, BaseOf(k.syms[s].typ)) <= b.high))
            || ResultIn(k, AfterUnset(k, u, s), s, EnvOf(k, a)).val == v
  {
    SetSees(k, rank, u, a, a', s, v);
    NumberTaken(k, u, s, v, EnvOf(k, a), b);
  }

  // ----- undoing an assignment -----

  /** Unassigning a symbol forgets whatever it was assigned before. */
  lemma SetThenUnset(k: Kconf, u: User, s: string, v: string)
    requires s in k.syms
    ensures AfterUnset(k, AfterSet(k, u, s, v), s) == AfterUnset(k, u, s)
  {}

  lemma NothingToUnset(k: Kconf, u: User, s: string)
    requires s in k.syms && s !in u.val
    requires k.syms[s].choice.Some? ==> k.syms[s].choice.value !in u.sel && k.syms[s].choice.value !in u.mode
    ensures AfterUnset(k, u, s) == u
  {
    assert u.val - {s} == u.val;
    if k.syms[s].choice.Some? {
      var c := k.syms[s].choice.value;
      assert u.sel - {c} == u.sel && u.mode - {c} == u.mode;
    }
  }

  /** So an assignment is undone completely if neither the symbol nor its choice was assigned before. */
  lemma UnsetRestoresValues(k: Kconf, rank: string -> nat, u: User, a: Assignment, a': Assignment, s: string, v: string)
    requires WellFormed(k) && Ordered(k, rank) && Users(k, u) && s in k.syms && s !in u.val
    requires k.syms[s].choice.Some? ==> k.syms[s].choice.value !in u.sel && k.syms[s].choice.value !in u.mode
    requires Solution(k, u, a) && Solution(k, AfterUnset(k, AfterSet(k, u, s, v), s), a')
    ensures a' == a
  {
    SetThenUnset(k, u, s, v);
    NothingToUnset(k, u, s);
    SolutionUnique(k, u, rank, a, a');
  }

  /** Assigning m to a member forgets the selection: what is selected then is the default. */
  lemma MForgetsSelection(k: Kconf, u: User, s: string, c: nat, env: Env, t: string)
    requires s in k.syms && k.syms[s].choice == Some(c) && c in k.choices && Accepts(k, s, "m") && k.syms[s].typ == Tri
    ensures IsSelected(k, AfterSet(k, u, s, "m"), c, env, t) <==>
            && (k.choices[c].typ == Bool || !env.modules)
            && PromptAt(k.choices[c].prompts, env, if k.choices[c].typ == Tri then YES else MOD)
            && !k.choices[c].isOptional && DefaultsTo(k, k.choices[c], env, t)
  {}
}
