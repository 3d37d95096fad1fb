/**
 Kconfiglib's caches as a value, what makes them right, and which changes of user values keep them right
 (support/scripts/kconfiglib.py: _set_user_value_no_invalidate, _unset_user_value_no_recursive_invalidate,
 _invalidate, _invalidate_dependent).
 */
module KCaches {
  import opened Tristates
  import opened KExpr
  import opened KModel
  import opened KSolve
  import opened KFrame

  /** cached_value with write_to_conf, cached_visibility of symbols and choices, cached_selection. */
  datatype Caches = Caches(value: map<string, Result>, vis: map<string, Tristate>,
                           choiceVis: map<nat, Tristate>, choiceSel: map<nat, Option<string>>)

  /** The value of a special symbol is fixed and not in the cache. */
  ghost predicate ValueOk(k: Kconf, u: User, a: Assignment, s: string, r: Result) {
    s in k.syms && k.syms[s].special.None? && r == ResultIn(k, u, s, EnvOf(k, a))
  }

  ghost predicate VisOk(k: Kconf, a: Assignment, s: string, t: Tristate) { s in k.syms && t == Vis(k, s, EnvOf(k, a)) }

  /** Choice caches are filled on behalf of a member. */
  ghost predicate ChoiceVisOk(k: Kconf, a: Assignment, c: nat, t: Tristate) {
    c in k.choices && k.choices[c].members != [] && t == ChoiceVis(k.choices[c], EnvOf(k, a))
  }

  ghost predicate ChoiceSelOk(k: Kconf, u: User, a: Assignment, c: nat, r: Option<string>) {
    c in k.choices && k.choices[c].members != [] && r == Selection(k, u, c, EnvOf(k, a))
  }

  /** Every cached value equals a fresh evaluation. */
  ghost predicate Coherent(k: Kconf, u: User, a: Assignment, m: Caches) {
    && (forall s {:trigger m.value[s]} :: s in m.value ==> ValueOk(k, u, a, s, m.value[s]))
    && (forall s {:trigger m.vis[s]} :: s in m.vis ==> VisOk(k, a, s, m.vis[s]))
    && (forall c {:trigger m.choiceVis[c]} :: c in m.choiceVis ==> ChoiceVisOk(k, a, c, m.choiceVis[c]))
    && (forall c {:trigger m.choiceSel[c]} :: c in m.choiceSel ==> ChoiceSelOk(k, u, a, c, m.choiceSel[c]))
  }

  // ----- user values -----

  /** The type check of _set_user_value_no_invalidate; special and undefined symbols refuse every value. */
  predicate Accepts(k: Kconf, s: string, v: string)
    requires s in k.syms
  {
    k.syms[s].special.None? &&
    match k.syms[s].typ
    case Bool => v == "n" || v == "y"
    case Tri => v == "n" || v == "m" || v == "y"
    case Str => true
    case Int => k.parse(v, 10).Some?
    case Hex => k.parse(v, 16).Some?
    case Unknown => false
  }

  function AfterSet(k: Kconf, u: User, s: string, v: string): User
    requires s in k.syms
  {
    if !Accepts(k, s, v) then u
    else
      var u1 := u.(val := u.val[s := v]);
      if k.syms[s].choice.None? || (k.syms[s].typ != Bool && k.syms[s].typ != Tri) then u1
      else
        var c := k.syms[s].choice.value;
        if v == "y" then u1.(sel := u.sel[c := s], mode := u.mode[c := YES])
        else if v == "m" then u1.(sel := u.sel - {c}, mode := u.mode[c := MOD])
        else u1
  }

  function AfterUnset(k: Kconf, u: User, s: string): User
    requires s in k.syms
  {
    if k.syms[s].choice.None? then User(u.val - {s}, u.sel, u.mode)
    else User(u.val - {s}, u.sel - {k.syms[s].choice.value}, u.mode - {k.syms[s].choice.value})
  }

  lemma SetReaches(k: Kconf, u: User, s: string, v: string, A: set<string>)
    requires WellFormed(k) && Users(k, u) && s in k.syms && s in A
    ensures SameUserOutside(k, u, AfterSet(k, u, s, v), A) && Users(k, AfterSet(k, u, s, v))
  {
    if k.syms[s].choice.Some? {
      assert s in k.choices[k.syms[s].choice.value].members && Touches(k, A, k.syms[s].choice.value);
    }
    forall c | c in k.choices && !Touches(k, A, c)
      ensures SameChoiceUser(u, AfterSet(k, u, s, v), c)
    {}
  }

  lemma UnsetReaches(k: Kconf, u: User, s: string, A: set<string>)
    requires WellFormed(k) && Users(k, u) && s in k.syms && s in A
    ensures SameUserOutside(k, u, AfterUnset(k, u, s), A) && Users(k, AfterUnset(k, u, s))
  {
    if k.syms[s].choice.Some? {
      assert s in k.choices[k.syms[s].choice.value].members && Touches(k, A, k.syms[s].choice.value);
    }
    forall c | c in k.choices && !Touches(k, A, c)
      ensures SameChoiceUser(u, AfterUnset(k, u, s), c)
    {}
  }

  // ----- invalidation -----

  /** The caches without those of the symbols in `A` and of their choices; special symbols keep theirs. */
  function Without(k: Kconf, m: Caches, A: set<string>): Caches {
    Caches(map s | s in m.value && !Dropped(k, A, s) :: m.value[s],
           map s | s in m.vis && !Dropped(k, A, s) :: m.vis[s],
           map c | c in m.choiceVis && !ChoiceDropped(k, A, c) :: m.choiceVis[c],
           map c | c in m.choiceSel && !ChoiceDropped(k, A, c) :: m.choiceSel[c])
  }

  predicate Dropped(k: Kconf, A: set<string>, s: string) { s in A && s in k.syms && k.syms[s].special.None? }

  predicate ChoiceDropped(k: Kconf, A: set<string>, c: nat) {
    exists s :: s in A && s in k.syms && k.syms[s].special.None? && k.syms[s].choice == Some(c)
  }

  lemma WithoutMore(k: Kconf, m: Caches, A: set<string>, B: set<string>)
    ensures Without(k, Without(k, m, A), B) == Without(k, m, A + B)
  {
    assert forall c: nat :: ChoiceDropped(k, A + B, c) <==> ChoiceDropped(k, A, c) || ChoiceDropped(k, B, c);
  }

  lemma KeptChoice(k: Kconf, A: set<string>, c: nat)
    requires WellFormed(k) && c in k.choices
    ensures ChoiceDropped(k, A, c) <==> Touches(k, A, c)
  {}

  // ----- which changes keep the caches right -----

  /** The cached visibilities of special symbols, which are never dropped, are as before. */
  ghost predicate SpecialsKept(k: Kconf, v: Env, w: Env, m: Caches) {
    forall x {:trigger m.vis[x]} :: x in m.vis && x in k.syms && k.syms[x].special.Some? ==>
        Vis(k, x, w) == Vis(k, x, v)
  }

  lemma ValuesKept(k: Kconf, rank: string -> nat, u: User, a: Assignment, u': User, a': Assignment, m: Caches,
                   A: set<string>, n: nat, s: string)
    requires Change(k, rank, u, a, u', a', A) && Coherent(k, u, a, m) && EnvOf(k, a).modules == EnvOf(k, a').modules
    requires DefaultsKept(k, rank, u, EnvOf(k, a), EnvOf(k, a'), A, n) && (forall s :: s in k.syms ==> rank(s) <= n)
    ensures s in Without(k, m, A).value ==> ValueOk(k, u', a', s, m.value[s])
  {
    if s in Without(k, m, A).value {
      assert ValueOk(k, u, a, s, m.value[s]);
      Unaffected(k, rank, u, a, u', a', A, s);
    }
  }

  lemma VisKept(k: Kconf, rank: string -> nat, u: User, a: Assignment, u': User, a': Assignment, m: Caches,
                A: set<string>, n: nat, s: string)
    requires Change(k, rank, u, a, u', a', A) && Coherent(k, u, a, m) && EnvOf(k, a).modules == EnvOf(k, a').modules
    requires DefaultsKept(k, rank, u, EnvOf(k, a), EnvOf(k, a'), A, n) && (forall s :: s in k.syms ==> rank(s) <= n)
    requires SpecialsKept(k, EnvOf(k, a), EnvOf(k, a'), m)
    ensures s in Without(k, m, A).vis ==> VisOk(k, a', s, m.vis[s])
  {
    if s in Without(k, m, A).vis {
      assert VisOk(k, a, s, m.vis[s]);
      if k.syms[s].special.None? {
        forall x | x in VisReads(k, s)
          ensures x !in A
        {
          assert s in Group(k, s) && x in OwnReads(k, s);
          OutsideReads(k, A, s, s, x);
        }
        VisUnaffected(k, rank, u, a, u', a', A, s);
      }
    }
  }

  lemma ChoicesKept(k: Kconf, rank: string -> nat, u: User, a: Assignment, u': User, a': Assignment, m: Caches,
                    A: set<string>, n: nat, c: nat)
    requires Change(k, rank, u, a, u', a', A) && Coherent(k, u, a, m) && EnvOf(k, a).modules == EnvOf(k, a').modules
    requires DefaultsKept(k, rank, u, EnvOf(k, a), EnvOf(k, a'), A, n) && (forall s :: s in k.syms ==> rank(s) <= n)
    ensures c in Without(k, m, A).choiceVis ==> ChoiceVisOk(k, a', c, m.choiceVis[c])
    ensures c in Without(k, m, A).choiceSel ==> ChoiceSelOk(k, u', a', c, m.choiceSel[c])
  {
    if c in k.choices && !Touches(k, A, c) && k.choices[c].members != [] {
      assert k.choices[c].members[0] in k.choices[c].members;
      ChoiceUnaffected(k, rank, u, a, u', a', A, c, n);
    }
    if c in Without(k, m, A).choiceVis {
      assert ChoiceVisOk(k, a, c, m.choiceVis[c]);
      KeptChoice(k, A, c);
    }
    if c in Without(k, m, A).choiceSel {
      assert ChoiceSelOk(k, u, a, c, m.choiceSel[c]);
      KeptChoice(k, A, c);
    }
  }

  /**
   When user values change only inside a closed set, modules stay as they are, and no choice outside sees its
   preferred default come or go, dropping the caches of that set makes every remaining entry right for the new values.
   */
  lemma DroppingRestores(k: Kconf, rank: string -> nat, u: User, a: Assignment, u': User, a': Assignment, m: Caches,
                         A: set<string>, n: nat)
    requires Change(k, rank, u, a, u', a', A) && Coherent(k, u, a, m) && EnvOf(k, a).modules == EnvOf(k, a').modules
    requires DefaultsKept(k, rank, u, EnvOf(k, a), EnvOf(k, a'), A, n) && (forall s :: s in k.syms ==> rank(s) <= n)
    requires SpecialsKept(k, EnvOf(k, a), EnvOf(k, a'), m)
    ensures Coherent(k, u', a', Without(k, m, A))
  {
    var m' := Without(k, m, A);
    forall s | s in m'.value
      ensures ValueOk(k, u', a', s, m'.value[s])
    {
      ValuesKept(k, rank, u, a, u', a', m, A, n, s);
    }
    forall s | s in m'.vis
      ensures VisOk(k, a', s, m'.vis[s])
    {
      VisKept(k, rank, u, a, u', a', m, A, n, s);
    }
    forall c | c in m'.choiceVis
      ensures ChoiceVisOk(k, a', c, m'.choiceVis[c])
    {
      ChoicesKept(k, rank, u, a, u', a', m, A, n, c);
    }
    forall c | c in m'.choiceSel
      ensures ChoiceSelOk(k, u', a', c, m'.choiceSel[c])
    {
      ChoicesKept(k, rank, u, a, u', a', m, A, n, c);
    }
  }

  // ----- and that these conditions are exact -----

  /** The selection of every choice has been asked for. */
  ghost predicate SelectionsCached(k: Kconf, m: Caches) {
    forall c {:trigger k.choices[c]} :: c in k.choices && k.choices[c].members != [] ==> c in m.choiceSel
  }

  /** Right caches that hold the selection of every choice outside `A` show that no preferred default came or went. */
  lemma {:induction false} RightSelections(k: Kconf, rank: string -> nat, u: User, a: Assignment, u': User,
                                           a': Assignment, m: Caches, A: set<string>, n: nat)
    requires Change(k, rank, u, a, u', a', A) && Coherent(k, u, a, m) && EnvOf(k, a).modules == EnvOf(k, a').modules
    requires Coherent(k, u', a', Without(k, m, A))
    requires SelectionsCached(k, m)
    ensures DefaultsKept(k, rank, u, EnvOf(k, a), EnvOf(k, a'), A, n)
  {
    if n > 0 {
      RightSelections(k, rank, u, a, u', a', m, A, n - 1);
    }
    forall c | c in k.choices && !Touches(k, A, c) && k.choices[c].members != [] && rank(k.choices[c].members[0]) <= n
      ensures SamePreferred(k, u, c, EnvOf(k, a), EnvOf(k, a'))
    {
      KeptChoice(k, A, c);
      assert ChoiceSelOk(k, u, a, c, m.choiceSel[c]) && ChoiceSelOk(k, u', a', c, Without(k, m, A).choiceSel[c]);
      if rank(k.choices[c].members[0]) > 0 {
        ChoiceUnaffected(k, rank, u, a, u', a', A, c, rank(k.choices[c].members[0]) - 1);
      } else {
        FirstRank(k, rank, u, a, u', a', A, c);
      }
    }
  }

  /** A choice of the lowest rank reads nothing. */
  lemma FirstRank(k: Kconf, rank: string -> nat, u: User, a: Assignment, u': User, a': Assignment, A: set<string>,
                  c: nat)
    requires Change(k, rank, u, a, u', a', A) && c in k.choices && !Touches(k, A, c) && k.choices[c].members != []
    requires EnvOf(k, a).modules == EnvOf(k, a').modules && rank(k.choices[c].members[0]) == 0
    ensures SamePreferred(k, u, c, EnvOf(k, a), EnvOf(k, a'))
  {
    var v, w := EnvOf(k, a), EnvOf(k, a');
    if x :| x in ChoiceReads(k, c) {
      ChoiceReadsLower(k, rank, c, x);
      assert false;
    }
    assert AllVisReads(k, DefaultSyms(k.choices[c].defaults)) <= ChoiceReads(k, c);
    ChoiceKept(k, u, v, w, A, c);
  }

  lemma RightSpecials(k: Kconf, u: User, a: Assignment, u': User, a': Assignment, m: Caches, A: set<string>)
    requires Coherent(k, u, a, m) && Coherent(k, u', a', Without(k, m, A))
    ensures SpecialsKept(k, EnvOf(k, a), EnvOf(k, a'), m)
  {
    forall x | x in m.vis && x in k.syms && k.syms[x].special.Some?
      ensures Vis(k, x, EnvOf(k, a')) == Vis(k, x, EnvOf(k, a))
    {
      assert VisOk(k, a, x, m.vis[x]) && VisOk(k, a', x, Without(k, m, A).vis[x]);
    }
  }

  /**
   With modules unchanged and the selections of all choices cached, the caches are right afterwards if and only if
   no choice outside the set, left to its defaults, sees the preferred one come or go, and no special symbol does.
   */
  lemma DroppingExact(k: Kconf, rank: string -> nat, u: User, a: Assignment, u': User, a': Assignment, m: Caches,
                      A: set<string>, n: nat)
    requires Change(k, rank, u, a, u', a', A) && Coherent(k, u, a, m) && EnvOf(k, a).modules == EnvOf(k, a').modules
    requires forall s :: s in k.syms ==> rank(s) <= n
    requires SelectionsCached(k, m)
    ensures Coherent(k, u', a', Without(k, m, A)) <==>
            DefaultsKept(k, rank, u, EnvOf(k, a), EnvOf(k, a'), A, n) && SpecialsKept(k, EnvOf(k, a), EnvOf(k, a'), m)
  {
    var m' := Without(k, m, A);
    if DefaultsKept(k, rank, u, EnvOf(k, a), EnvOf(k, a'), A, n) && SpecialsKept(k, EnvOf(k, a), EnvOf(k, a'), m) {
      DroppingRestores(k, rank, u, a, u', a', m, A, n);
    }
    if Coherent(k, u', a', m') {
      RightSelections(k, rank, u, a, u', a', m, A, n);
      RightSpecials(k, u, a, u', a', m, A);
    }
  }

  /** A tristate symbol that is always visible, not selected, and assigned m. */
  predicate PlainM(k: Kconf, u: User, t: string) {
    && t in k.syms && t in u.val && u.val[t] == "m"
    && k.syms[t].(defaults := [], ranges := []) == SymDef(Tri, [None], [], Leaf(Text("n")), [], None, None)
  }

  lemma PlainMValue(k: Kconf, u: User, t: string, env: Env)
    requires PlainM(k, u, t)
    ensures ResultIn(k, u, t, env).val == if env.modules then "m" else "y"
  {
    assert PromptVis(k.syms[t].prompts, 0, NO, env) == YES;
    assert PlainTruth(k, u, t, env).tri == Lift(env, MOD);
  }

  /**
   Whatever the change, once such a symbol outside the set is cached, the caches are right afterwards only if
   modules are enabled as before.
   */
  lemma ModulesExact(k: Kconf, u: User, a: Assignment, u': User, a': Assignment, m: Caches, A: set<string>, t: string)
    requires Coherent(k, u, a, m) && SameUserOutside(k, u, u', A) && PlainM(k, u, t) && t in m.value && t !in A
    requires Coherent(k, u', a', Without(k, m, A))
    ensures EnvOf(k, a).modules == EnvOf(k, a').modules
  {
    var m' := Without(k, m, A);
    assert t in m'.value && ValueOk(k, u, a, t, m.value[t]) && ValueOk(k, u', a', t, m'.value[t]);
    PlainMValue(k, u, t, EnvOf(k, a));
    PlainMValue(k, u', t, EnvOf(k, a'));
  }

  /** Both conditions at once, for caches that hold such a symbol and the selections of all choices. */
  lemma InvalidationExact(k: Kconf, rank: string -> nat, u: User, a: Assignment, u': User, a': Assignment, m: Caches,
                          A: set<string>, n: nat, t: string)
    requires Change(k, rank, u, a, u', a', A) && Coherent(k, u, a, m) && (forall s :: s in k.syms ==> rank(s) <= n)
    requires SelectionsCached(k, m) && PlainM(k, u, t) && t in m.value && t !in A
    ensures Coherent(k, u', a', Without(k, m, A)) <==>
            EnvOf(k, a).modules == EnvOf(k, a').modules && DefaultsKept(k, rank, u, EnvOf(k, a), EnvOf(k, a'), A, n) &&
            SpecialsKept(k, EnvOf(k, a), EnvOf(k, a'), m)
  {
    if Coherent(k, u', a', Without(k, m, A)) {
      ModulesExact(k, u, a, u', a', m, A, t);
    }
    if EnvOf(k, a).modules == EnvOf(k, a').modules {
      DroppingExact(k, rank, u, a, u', a', m, A, n);
    }
  }

  // ----- changes that are safe whatever the values are -----

  /**
   A change inside `A` stays inside: MODULES is not in it, and no default of a choice outside, and no special
   symbol, is visible depending on it.
   */
  ghost predicate Contained(k: Kconf, A: set<string>) {
    && "MODULES" !in A
    && (forall c {:trigger DefaultsApart(k, A, c)} :: c in k.choices && !Touches(k, A, c) ==> DefaultsApart(k, A, c))
    && (forall x {:trigger VisReads(k, x)} :: x in k.syms && k.syms[x].special.Some? ==> VisReads(k, x) !! A)
  }

  lemma ContainedRestores(k: Kconf, rank: string -> nat, u: User, a: Assignment, u': User, a': Assignment, m: Caches,
                          A: set<string>)
    requires Change(k, rank, u, a, u', a', A) && Coherent(k, u, a, m) && Contained(k, A)
    ensures Coherent(k, u', a', Without(k, m, A))
  {
    var v, w := EnvOf(k, a), EnvOf(k, a');
    var n := TopRank(k.syms.Keys, rank);
    ModulesUnaffected(k, rank, u, a, u', a', A);
    forall x | x in m.vis && x in k.syms && k.syms[x].special.Some?
      ensures Vis(k, x, w) == Vis(k, x, v)
    {
      VisUnaffected(k, rank, u, a, u', a', A, x);
    }
    DroppingRestores(k, rank, u, a, u', a', m, A, n);
  }

  /** The usual case: the defaults of choices are members, and special symbols have no prompt. */
  ghost predicate Ordinary(k: Kconf) {
    && (forall c, d {:trigger d in k.choices[c].defaults} :: c in k.choices && d in k.choices[c].defaults ==>
          d.sym in k.choices[c].members)
    && (forall x {:trigger k.syms[x]} :: x in k.syms && k.syms[x].special.Some? ==> k.syms[x].prompts == [])
  }

  lemma OrdinaryDefault(k: Kconf, c: nat, n: string)
    requires Ordinary(k) && c in k.choices && n in AllVisReads(k, DefaultSyms(k.choices[c].defaults))
    ensures n in AllVisReads(k, k.choices[c].members)
  {
    var ds := k.choices[c].defaults;
    if ds != [] {
      DefaultSymsAt(ds, 0);
    }
    var i := AllVisReadsFrom(k, DefaultSyms(ds), n);
    DefaultSymsAt(ds, i);
    assert ds[i] in ds;
    var j :| 0 <= j < |k.choices[c].members| && k.choices[c].members[j] == ds[i].sym;
    AllVisReadsHave(k, k.choices[c].members, j);
  }

  /** There every change that does not reach MODULES stays inside. */
  lemma OrdinaryContained(k: Kconf, A: set<string>)
    requires WellFormed(k) && Ordinary(k) && ClosedUnder(k, A) && "MODULES" !in A
    ensures Contained(k, A)
  {
    forall c | c in k.choices && !Touches(k, A, c)
      ensures DefaultsApart(k, A, c)
    {
      forall n | n in AllVisReads(k, DefaultSyms(k.choices[c].defaults))
        ensures n !in A
      {
        OrdinaryDefault(k, c, n);
        OutsideMembers(k, A, c, n);
      }
    }
    forall x | x in k.syms && k.syms[x].special.Some?
      ensures VisReads(k, x) == {}
    {
      SpecialOutside(k, x);
    }
  }

  lemma SpecialOutside(k: Kconf, x: string)
    requires WellFormed(k) && x in k.syms && k.syms[x].special.Some?
    ensures k.syms[x].choice.None?
  {
    if k.syms[x].choice.Some? {
      assert x in k.choices[k.syms[x].choice.value].members;
    }
  }

  /** _invalidate_all: nothing is left but the visibility of special symbols */
  lemma DroppingAllExact(k: Kconf, u: User, a: Assignment, u': User, a': Assignment, m: Caches)
    requires WellFormed(k) && Coherent(k, u, a, m)
    ensures Coherent(k, u', a', Without(k, m, k.syms.Keys)) <==> SpecialsKept(k, EnvOf(k, a), EnvOf(k, a'), m)
  {
    var m' := Without(k, m, k.syms.Keys);
    forall s | s in m.value
      ensures Dropped(k, k.syms.Keys, s)
    {
      assert ValueOk(k, u, a, s, m.value[s]);
    }
    forall c | c in m.choiceVis || c in m.choiceSel
      ensures ChoiceDropped(k, k.syms.Keys, c)
    {
      assert c in m.choiceVis ==> ChoiceVisOk(k, a, c, m.choiceVis[c]);
      assert c in m.choiceSel ==> ChoiceSelOk(k, u, a, c, m.choiceSel[c]);
      assert k.choices[c].members[0] in k.choices[c].members;
    }
    forall s | s in m'.vis
      ensures VisOk(k, a', s, m'.vis[s]) <==> Vis(k, s, EnvOf(k, a')) == Vis(k, s, EnvOf(k, a))
    {
      assert VisOk(k, a, s, m.vis[s]);
    }
    if Coherent(k, u', a', m') {
      RightSpecials(k, u, a, u', a', m, k.syms.Keys);
    }
  }

  /** Caches of which some are dropped stay right when nothing else changes. */
  lemma DroppingOnly(k: Kconf, u: User, a: Assignment, m: Caches, A: set<string>)
    requires Coherent(k, u, a, m)
    ensures Coherent(k, u, a, Without(k, m, A))
  {
    var m' := Without(k, m, A);
    forall s | s in m'.value ensures ValueOk(k, u, a, s, m'.value[s]) { assert ValueOk(k, u, a, s, m.value[s]); }
    forall s | s in m'.vis ensures VisOk(k, a, s, m'.vis[s]) { assert VisOk(k, a, s, m.vis[s]); }
    forall c | c in m'.choiceVis
      ensures ChoiceVisOk(k, a, c, m'.choiceVis[c])
    {
      assert ChoiceVisOk(k, a, c, m.choiceVis[c]);
    }
    forall c | c in m'.choiceSel
      ensures ChoiceSelOk(k, u, a, c, m'.choiceSel[c])
    {
      assert ChoiceSelOk(k, u, a, c, m.choiceSel[c]);
    }
  }
}
