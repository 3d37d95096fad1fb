/**
 How far a change of user values reaches (support/scripts/kconfiglib.py: _build_dep, _get_dependent): a set
 of symbols that is closed under "mentions" and under membership in one choice contains everything that can
 change, with two exceptions. Whether modules are enabled is read without being mentioned, and so is what
 makes the preferred default of a choice visible.
 */
module KFrame {
  import opened Tristates
  import opened KExpr
  import opened KModel
  import opened KSolve

  /** The symbols that mention `t` (Symbol.dep). */
  function Mentioning(k: Kconf, t: string): set<string> { set s | s in k.syms && t in OwnReads(k, s) }

  ghost predicate ClosedUnder(k: Kconf, A: set<string>) {
    forall t {:trigger Mentioning(k, t)} {:trigger Group(k, t)} :: t in A && t in k.syms ==>
      Mentioning(k, t) <= A && Group(k, t) <= A
  }

  /** The smallest closed set that contains `t`. */
  ghost predicate IsClosure(k: Kconf, t: string, A: set<string>) {
    t in A && ClosedUnder(k, A) && forall B {:trigger ClosedUnder(k, B)} :: t in B && ClosedUnder(k, B) ==> A <= B
  }

  /** The choice has a member in `A`. */
  predicate Touches(k: Kconf, A: set<string>, c: nat)
    requires c in k.choices
  {
    exists s :: s in k.choices[c].members && s in A
  }

  /** The user values differ at most for symbols in `A` and their choices. */
  ghost predicate SameUserOutside(k: Kconf, u: User, u': User, A: set<string>) {
    && (forall s {:trigger s in u'.val} :: s in k.syms && s !in A ==>
          (s in u.val <==> s in u'.val) && (s in u.val ==> u.val[s] == u'.val[s]))
    && (forall c {:trigger c in u'.sel} :: c in k.choices && !Touches(k, A, c) ==> SameChoiceUser(u, u', c))
  }

  /** Nothing in `A` has a say in whether a default of the choice is visible. */
  ghost predicate DefaultsApart(k: Kconf, A: set<string>, c: nat)
    requires c in k.choices
  {
    AllVisReads(k, DefaultSyms(k.choices[c].defaults)) !! A
  }

  /**
   For each choice outside `A`, up to the rank `n`: its defaults are out of reach, or its preferred default is
   as visible as before.
   */
  ghost predicate DefaultsKept(k: Kconf, rank: string -> nat, u: User, v: Env, w: Env, A: set<string>, n: nat) {
    forall c {:trigger DefaultsApart(k, A, c)} ::
      c in k.choices && !Touches(k, A, c) && k.choices[c].members != [] && rank(k.choices[c].members[0]) <= n ==>
        DefaultsApart(k, A, c) || SamePreferred(k, u, c, v, w)
  }

  ghost predicate Users(k: Kconf, u: User) { UserSelOk(k, u) && UserTyped(k, u) }

  /** User values change inside the closed set `A`; `a` and `a'` are the values before and after. */
  ghost predicate Change(k: Kconf, rank: string -> nat, u: User, a: Assignment, u': User, a': Assignment,
                         A: set<string>) {
    && WellFormed(k) && Ordered(k, rank) && Users(k, u) && Users(k, u') && Solution(k, u, a) && Solution(k, u', a')
    && ClosedUnder(k, A) && SameUserOutside(k, u, u', A)
  }

  lemma GroupTogether(k: Kconf, s: string, t: string)
    requires WellFormed(k) && s in k.syms && t in Group(k, s)
    ensures t in k.syms && Group(k, t) == Group(k, s) && s in Group(k, t)
  {
    var d := k.syms[s];
    if d.choice.Some? {
      assert t in k.choices[d.choice.value].members;
    }
  }

  /** A symbol outside a closed set mentions nothing inside it, and none of its choice does. */
  lemma OutsideReads(k: Kconf, A: set<string>, s: string, t: string, n: string)
    requires WellFormed(k) && ClosedUnder(k, A) && s in k.syms && s !in A && t in Group(k, s) && t in k.syms &&
             n in OwnReads(k, t)
    ensures n !in A && n in k.syms
  {
    GroupTogether(k, s, t);
    assert t in Mentioning(k, n);
  }

  lemma OutsideGroup(k: Kconf, A: set<string>, s: string, c: nat)
    requires WellFormed(k) && ClosedUnder(k, A) && s in k.syms && s !in A && k.syms[s].choice == Some(c)
    ensures c in k.choices && !Touches(k, A, c)
  {
    forall t | t in k.choices[c].members
      ensures t !in A
    {
      assert s in Group(k, t);
    }
  }

  lemma {:induction false} AllVisReadsFrom(k: Kconf, ss: seq<string>, n: string) returns (i: nat)
    requires n in AllVisReads(k, ss)
    ensures i < |ss| && ss[i] in k.syms && n in VisReads(k, ss[i])
  {
    if ss[0] in k.syms && n in VisReads(k, ss[0]) {
      i := 0;
    } else {
      i := AllVisReadsFrom(k, ss[1..], n);
      i := i + 1;
    }
  }

  /** What makes fellow members visible is mentioned by them, so it is outside too. */
  lemma OutsideMembers(k: Kconf, A: set<string>, c: nat, n: string)
    requires WellFormed(k) && ClosedUnder(k, A) && c in k.choices && !Touches(k, A, c)
    requires n in AllVisReads(k, k.choices[c].members) || (n in ChoiceNames(k.choices[c]) && k.choices[c].members != [])
    ensures n !in A && n in k.syms
  {
    var i := 0;
    if n in AllVisReads(k, k.choices[c].members) {
      i := AllVisReadsFrom(k, k.choices[c].members, n);
    }
    var t := k.choices[c].members[i];
    assert t in k.choices[c].members && t in Group(k, t) && n in OwnReads(k, t);
    OutsideReads(k, A, t, t, n);
  }

  lemma DefaultVisReadsKnown(k: Kconf, c: nat, n: string)
    requires WellFormed(k) && c in k.choices && n in AllVisReads(k, DefaultSyms(k.choices[c].defaults))
    ensures n in k.syms
  {
    var i := AllVisReadsFrom(k, DefaultSyms(k.choices[c].defaults), n);
    assert n in OwnReads(k, DefaultSyms(k.choices[c].defaults)[i]);
  }

  /** The result of a symbol depends on its own user value and on the user state of its choice. */
  lemma UserLocal(k: Kconf, u: User, u': User, s: string, env: Env)
    requires s in k.syms
    requires (s in u.val <==> s in u'.val) && (s in u.val ==> u.val[s] == u'.val[s])
    requires InChoice(k, s) ==> SameChoiceUser(u, u', k.syms[s].choice.value)
    ensures ResultIn(k, u, s, env) == ResultIn(k, u', s, env)
  {
    if InChoice(k, s) {
      var c := k.syms[s].choice.value;
      assert Mode(k, u, c, env) == Mode(k, u', c, env);
      assert MemberResult(k, u, s, c, env) == MemberResult(k, u', s, c, env);
    }
    assert PlainTruth(k, u, s, env) == PlainTruth(k, u', s, env);
    assert StringResult(k, u, s, env) == StringResult(k, u', s, env);
    assert NumberResult(k, u, s, env) == NumberResult(k, u', s, env);
  }

  /** A symbol that does not come after MODULES never asks whether modules are enabled. */
  lemma EarlyIsTwoValued(k: Kconf, rank: string -> nat, s: string)
    requires Ordered(k, rank) && s in k.syms && "MODULES" in k.syms && rank(s) <= rank("MODULES")
    ensures TwoValued(k, s)
  {
    assert "MODULES" in Reads(k, s) <==> "MODULES" in PlainReads(k, s) || !TwoValued(k, s);
  }

  lemma MemberRank(k: Kconf, rank: string -> nat, s: string)
    requires WellFormed(k) && Ordered(k, rank) && s in k.syms && InChoice(k, s)
    ensures var ms := k.choices[k.syms[s].choice.value].members; ms != [] && rank(ms[0]) == rank(s)
  {
    var ms := k.choices[k.syms[s].choice.value].members;
    assert s in ms;
    assert ms[0] in Group(k, s);
  }

  /** Modules are enabled in both or in neither, or `s` comes before that is known. */
  ghost predicate ModulesKept(k: Kconf, rank: string -> nat, v: Env, w: Env, s: string) {
    v.modules == w.modules || ("MODULES" in k.syms && rank(s) <= rank("MODULES"))
  }

  ghost predicate SameValueAt(v: Env, w: Env, n: string) { v.tri(n) == w.tri(n) && v.str(n) == w.str(n) }

  /** One step of the induction below: everything `s` reads, and is not in `A`, is unaffected. */
  lemma UnaffectedStep(k: Kconf, rank: string -> nat, u: User, a: Assignment, u': User, a': Assignment, A: set<string>,
                       s: string)
    requires Change(k, rank, u, a, u', a', A) && s in k.syms && s !in A
    requires ModulesKept(k, rank, EnvOf(k, a), EnvOf(k, a'), s)
    requires DefaultsKept(k, rank, u, EnvOf(k, a), EnvOf(k, a'), A, rank(s))
    requires forall n {:trigger SameValueAt(EnvOf(k, a), EnvOf(k, a'), n)} :: n in PlainReads(k, s) && n !in A ==>
               SameValueAt(EnvOf(k, a), EnvOf(k, a'), n)
    ensures ResultIn(k, u', s, EnvOf(k, a')) == ResultIn(k, u, s, EnvOf(k, a))
  {
    var v, w := EnvOf(k, a), EnvOf(k, a');
    SolutionClean(k, u, a);
    forall n | n in OwnReads(k, s)
      ensures v.tri(n) == w.tri(n) && v.str(n) == w.str(n)
    {
      assert s in Group(k, s);
      OutsideReads(k, A, s, s, n);
      assert SameValueAt(v, w, n);
    }
    if v.modules != w.modules {
      EarlyIsTwoValued(k, rank, s);
    }
    if InChoice(k, s) {
      OutsideGroup(k, A, s, k.syms[s].choice.value);
      MemberRank(k, rank, s);
      ChoiceKept(k, u, v, w, A, k.syms[s].choice.value);
    }
    ResultSame(k, u, s, v, w);
    UserLocal(k, u, u', s, w);
  }

  /** The symbols that the selection of a choice is computed from. */
  function ChoiceReads(k: Kconf, c: nat): set<string>
    requires c in k.choices
  {
    var ch := k.choices[c];
    ChoiceNames(ch) + AllVisReads(k, ch.members) + AllVisReads(k, DefaultSyms(ch.defaults))
  }

  lemma ChoiceLooksSame(k: Kconf, v: Env, w: Env, A: set<string>, c: nat)
    requires WellFormed(k) && ClosedUnder(k, A) && c in k.choices && !Touches(k, A, c) && k.choices[c].members != []
    requires v.modules == w.modules
    requires forall n {:trigger SameValueAt(v, w, n)} :: n in ChoiceReads(k, c) && n !in A ==> SameValueAt(v, w, n)
    ensures SameChoice(k, c, v, w)
  {
    forall n | n in ChoiceNames(k.choices[c]) || n in AllVisReads(k, k.choices[c].members)
      ensures v.tri(n) == w.tri(n) && v.str(n) == w.str(n)
    {
      OutsideMembers(k, A, c, n);
      assert SameValueAt(v, w, n);
    }
  }

  /** For a choice outside `A` all that its members read is unaffected, or its preferred default is known to be. */
  lemma ChoiceKept(k: Kconf, u: User, v: Env, w: Env, A: set<string>, c: nat)
    requires WellFormed(k) && ClosedUnder(k, A) && c in k.choices && !Touches(k, A, c) && k.choices[c].members != []
    requires v.modules == w.modules && (DefaultsApart(k, A, c) || SamePreferred(k, u, c, v, w))
    requires forall n {:trigger SameValueAt(v, w, n)} :: n in ChoiceReads(k, c) && n !in A ==> SameValueAt(v, w, n)
    ensures SameChoice(k, c, v, w) && SamePreferred(k, u, c, v, w)
  {
    ChoiceLooksSame(k, v, w, A, c);
    if DefaultsApart(k, A, c) {
      forall n | n in AllVisReads(k, DefaultSyms(k.choices[c].defaults))
        ensures v.tri(n) == w.tri(n) && v.str(n) == w.str(n)
      {
        assert SameValueAt(v, w, n);
      }
      PreferredVisSame(k, c, v, w);
    }
  }

  lemma DefaultsKeptLess(k: Kconf, rank: string -> nat, u: User, v: Env, w: Env, A: set<string>, n: nat, m: nat)
    requires DefaultsKept(k, rank, u, v, w, A, n) && m <= n
    ensures DefaultsKept(k, rank, u, v, w, A, m)
  {}

  lemma SameValue(k: Kconf, a: Assignment, a': Assignment, n: string)
    requires n in a && n in a' && a[n] == a'[n]
    ensures SameValueAt(EnvOf(k, a), EnvOf(k, a'), n)
  {}

  /** Outside a closed set no value changes. */
  lemma {:induction false} Unaffected(k: Kconf, rank: string -> nat, u: User, a: Assignment, u': User, a': Assignment,
                                      A: set<string>, s: string)
    requires Change(k, rank, u, a, u', a', A) && s in k.syms && s !in A
    requires ModulesKept(k, rank, EnvOf(k, a), EnvOf(k, a'), s)
    requires DefaultsKept(k, rank, u, EnvOf(k, a), EnvOf(k, a'), A, rank(s))
    ensures a'[s] == a[s] && ResultIn(k, u', s, EnvOf(k, a')) == ResultIn(k, u, s, EnvOf(k, a))
    decreases rank(s)
  {
    forall n {:trigger SameValueAt(EnvOf(k, a), EnvOf(k, a'), n)} | n in PlainReads(k, s) && n !in A
      ensures SameValueAt(EnvOf(k, a), EnvOf(k, a'), n)
    {
      assert n in Reads(k, s) && rank(n) < rank(s);
      if n in k.syms {
        DefaultsKeptLess(k, rank, u, EnvOf(k, a), EnvOf(k, a'), A, rank(s), rank(n));
        Unaffected(k, rank, u, a, u', a', A, n);
        SameValue(k, a, a', n);
      }
    }
    UnaffectedStep(k, rank, u, a, u', a', A, s);
    assert a[s] == ResultIn(k, u, s, EnvOf(k, a)).val && a'[s] == ResultIn(k, u', s, EnvOf(k, a')).val;
  }

  /** If MODULES is out of reach, modules stay as they are. */
  lemma ModulesUnaffected(k: Kconf, rank: string -> nat, u: User, a: Assignment, u': User, a': Assignment,
                          A: set<string>)
    requires Change(k, rank, u, a, u', a', A) && "MODULES" !in A
    requires DefaultsKept(k, rank, u, EnvOf(k, a), EnvOf(k, a'), A, rank("MODULES"))
    ensures EnvOf(k, a).modules == EnvOf(k, a').modules
  {
    if "MODULES" in k.syms {
      Unaffected(k, rank, u, a, u', a', A, "MODULES");
    }
  }

  lemma VisReadLower(k: Kconf, rank: string -> nat, s: string, n: string)
    requires WellFormed(k) && Ordered(k, rank) && s in k.syms && n in VisReads(k, s)
    ensures n in k.syms && rank(n) < rank(s)
  {
    assert n in OwnReads(k, s) && n in Reads(k, s);
  }

  /** What makes a symbol visible is as before if it is not in the set. */
  lemma VisReadUnaffected(k: Kconf, rank: string -> nat, u: User, a: Assignment, u': User, a': Assignment,
                          A: set<string>, s: string, n: string)
    requires Change(k, rank, u, a, u', a', A) && s in k.syms && n in VisReads(k, s) && n !in A
    requires EnvOf(k, a).modules == EnvOf(k, a').modules
    requires DefaultsKept(k, rank, u, EnvOf(k, a), EnvOf(k, a'), A, rank(s))
    ensures SameValueAt(EnvOf(k, a), EnvOf(k, a'), n)
  {
    VisReadLower(k, rank, s, n);
    DefaultsKeptLess(k, rank, u, EnvOf(k, a), EnvOf(k, a'), A, rank(s), rank(n));
    Unaffected(k, rank, u, a, u', a', A, n);
  }

  /** A symbol is as visible as before if nothing that makes it visible is in the set. */
  lemma VisUnaffected(k: Kconf, rank: string -> nat, u: User, a: Assignment, u': User, a': Assignment, A: set<string>,
                      s: string)
    requires Change(k, rank, u, a, u', a', A) && s in k.syms && VisReads(k, s) !! A
    requires EnvOf(k, a).modules == EnvOf(k, a').modules
    requires DefaultsKept(k, rank, u, EnvOf(k, a), EnvOf(k, a'), A, rank(s))
    ensures Vis(k, s, EnvOf(k, a')) == Vis(k, s, EnvOf(k, a))
  {
    forall n | n in VisReads(k, s)
      ensures EnvOf(k, a).tri(n) == EnvOf(k, a').tri(n) && EnvOf(k, a).str(n) == EnvOf(k, a').str(n)
    {
      VisReadUnaffected(k, rank, u, a, u', a', A, s, n);
      assert SameValueAt(EnvOf(k, a), EnvOf(k, a'), n);
    }
    VisSame(k, s, EnvOf(k, a), EnvOf(k, a'));
  }

  /** What the members of a choice read comes before them. */
  lemma ChoiceReadsLower(k: Kconf, rank: string -> nat, c: nat, n: string)
    requires WellFormed(k) && Ordered(k, rank) && c in k.choices && k.choices[c].members != [] && n in ChoiceReads(k, c)
    ensures n in k.syms && rank(n) < rank(k.choices[c].members[0])
  {
    var s := k.choices[c].members[0];
    assert s in k.choices[c].members && InChoice(k, s);
    assert n in PlainReads(k, s) && n in Reads(k, s);
    if n in AllVisReads(k, DefaultSyms(k.choices[c].defaults)) {
      DefaultVisReadsKnown(k, c, n);
    } else if n in AllVisReads(k, k.choices[c].members) {
      var i := AllVisReadsFrom(k, k.choices[c].members, n);
      assert n in OwnReads(k, k.choices[c].members[i]);
    } else {
      assert n in OwnReads(k, s);
    }
  }

  /**
   A choice outside the set looks the same; its selection is the same exactly if its preferred default is as visible as
   before.
   */
  lemma ChoiceUnaffected(k: Kconf, rank: string -> nat, u: User, a: Assignment, u': User, a': Assignment,
                         A: set<string>, c: nat, n: nat)
    requires Change(k, rank, u, a, u', a', A) && c in k.choices && !Touches(k, A, c) && k.choices[c].members != []
    requires EnvOf(k, a).modules == EnvOf(k, a').modules && rank(k.choices[c].members[0]) <= n + 1
    requires DefaultsKept(k, rank, u, EnvOf(k, a), EnvOf(k, a'), A, n)
    ensures ChoiceVis(k.choices[c], EnvOf(k, a')) == ChoiceVis(k.choices[c], EnvOf(k, a))
    ensures Selection(k, u', c, EnvOf(k, a')) == Selection(k, u, c, EnvOf(k, a)) <==>
            SamePreferred(k, u, c, EnvOf(k, a), EnvOf(k, a'))
    ensures DefaultsApart(k, A, c) ==> SamePreferred(k, u, c, EnvOf(k, a), EnvOf(k, a'))
  {
    var v, w := EnvOf(k, a), EnvOf(k, a');
    forall x {:trigger SameValueAt(v, w, x)} | x in ChoiceReads(k, c) && x !in A
      ensures SameValueAt(v, w, x)
    {
      ChoiceReadsLower(k, rank, c, x);
      Unaffected(k, rank, u, a, u', a', A, x);
    }
    ChoiceLooksSame(k, v, w, A, c);
    if DefaultsApart(k, A, c) {
      ChoiceKept(k, u, v, w, A, c);
    }
    ChoiceVisSame(k, c, v, w);
    SelectionExact(k, u, u', c, v, w);
  }
}
