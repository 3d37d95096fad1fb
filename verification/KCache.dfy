/**
 Evaluation with caches (support/scripts/kconfiglib.py: Symbol.get_value, _eval_expr, _has_modules,
 _get_visibility, Choice.get_mode, Choice.get_selection, _invalidate). MODULES is a symbol like any other; its value
 is asked for, and cached, whenever something evaluates to m.
 */
module KCache {
  import opened Tristates
  import opened KExpr
  import opened KModel
  import opened KSolve
  import opened KFrame
  import opened KCaches

  /** `a` is the one assignment that solves the equations for the user values `u`. */
  ghost predicate Meaning(k: Kconf, u: User, rank: string -> nat, a: Assignment) {
    WellFormed(k) && Ordered(k, rank) && Users(k, u) && Solution(k, u, a)
  }

  /** The symbols are known and come before `bound`. */
  ghost predicate Below(k: Kconf, rank: string -> nat, names: set<string>, bound: nat) {
    names <= k.syms.Keys && forall n :: n in names ==> rank(n) < bound
  }

  ghost predicate ModBelow(k: Kconf, rank: string -> nat, bound: nat) {
    "MODULES" in k.syms ==> rank("MODULES") < bound
  }

  lemma OwnBelow(k: Kconf, rank: string -> nat, s: string)
    requires WellFormed(k) && Ordered(k, rank) && s in k.syms
    ensures Below(k, rank, OwnReads(k, s), rank(s)) && VisReads(k, s) <= OwnReads(k, s)
    ensures TwoValued(k, s) || ModBelow(k, rank, rank(s))
  {
    forall n | n in OwnReads(k, s)
      ensures rank(n) < rank(s)
    {
      assert n in Reads(k, s);
    }
    if !TwoValued(k, s) && "MODULES" in k.syms {
      assert "MODULES" in Reads(k, s);
    }
  }

  /** Everything a choice is computed from comes before `bound`. */
  ghost predicate ChoiceBelow(k: Kconf, rank: string -> nat, c: nat, bound: nat) {
    c in k.choices && k.choices[c].members != [] && Below(k, rank, ChoiceReads(k, c), bound) && ModBelow(k, rank, bound)
  }

  lemma MemberBelow(k: Kconf, rank: string -> nat, s: string)
    requires WellFormed(k) && Ordered(k, rank) && s in k.syms && InChoice(k, s)
    ensures ChoiceBelow(k, rank, k.syms[s].choice.value, rank(s))
  {
    var c := k.syms[s].choice.value;
    MemberRank(k, rank, s);
    OwnBelow(k, rank, s);
    forall n | n in ChoiceReads(k, c)
      ensures n in k.syms && rank(n) < rank(s)
    {
      ChoiceReadsLower(k, rank, c, n);
    }
  }

  lemma MemberVisBelow(k: Kconf, rank: string -> nat, c: nat, x: string, bound: nat)
    requires WellFormed(k) && ChoiceBelow(k, rank, c, bound) && x in k.choices[c].members
    ensures x in k.syms && Below(k, rank, VisReads(k, x), bound)
  {
    var i :| 0 <= i < |k.choices[c].members| && k.choices[c].members[i] == x;
    AllVisReadsHave(k, k.choices[c].members, i);
    assert VisReads(k, x) <= ChoiceReads(k, c);
  }

  /** The preferred symbol is a member or one of the defaults. */
  lemma {:induction false} PreferredVisBelow(k: Kconf, rank: string -> nat, c: nat, i: nat, bound: nat, env: Env)
    requires WellFormed(k) && ChoiceBelow(k, rank, c, bound) && i <= |k.choices[c].defaults|
    ensures var x := Preferred(k.choices[c], i, env); x in k.syms && Below(k, rank, VisReads(k, x), bound)
    decreases |k.choices[c].defaults| - i
  {
    var ch := k.choices[c];
    if i == |ch.defaults| {
      MemberVisBelow(k, rank, c, ch.members[0], bound);
    } else if EvalLifted(ch.defaults[i].cond, env) != NO {
      assert ch.defaults[i] in ch.defaults;
      DefaultSymsAt(ch.defaults, i);
      AllVisReadsHave(k, DefaultSyms(ch.defaults), i);
      assert VisReads(k, ch.defaults[i].sym) <= ChoiceReads(k, c);
    } else {
      PreferredVisBelow(k, rank, c, i + 1, bound, env);
    }
  }

  /** Conditions of defaults that are never m. */
  predicate FlatDefaults(k: Kconf, ds: seq<Default>) {
    forall i {:trigger ds[i]} :: 0 <= i < |ds| ==> NoModCond(k, ds[i].cond)
  }

  predicate FlatTruths(k: Kconf, ds: seq<Default>) {
    FlatDefaults(k, ds) && forall i {:trigger ds[i]} :: 0 <= i < |ds| ==> NoMod(k, ds[i].val)
  }

  /** The value of the first active default, limited by its condition. */
  function DefaultTruth(ds: seq<Default>, env: Env): Option<Tristate> {
    var i := ActiveDefault(ds, 0, env);
    if i.None? then None else Some(LiftMin(env, Eval(ds[i.value].val, env), EvalLifted(ds[i.value].cond, env)))
  }

  predicate FlatRanges(k: Kconf, rs: seq<Range>) {
    forall i {:trigger rs[i]} :: 0 <= i < |rs| ==> NoModCond(k, rs[i].cond)
  }

  /** What a bool or tristate symbol outside choices is computed from. */
  lemma TruthBelow(k: Kconf, rank: string -> nat, u: User, s: string)
    requires WellFormed(k) && Ordered(k, rank) && Users(k, u) && s in k.syms && k.syms[s].choice.None? &&
             k.syms[s].typ in {Bool, Tri}
    ensures Below(k, rank, VisReads(k, s), rank(s)) && Below(k, rank, DefaultNames(k.syms[s].defaults), rank(s))
    ensures Below(k, rank, Names(k.syms[s].revDep), rank(s))
    ensures ModBelow(k, rank, rank(s)) ||
            (k.syms[s].typ == Bool && FlatVis(k, s) && FlatTruths(k, k.syms[s].defaults) && NoMod(k, k.syms[s].revDep))
    ensures s in u.val && u.val[s] == "m" ==> ModBelow(k, rank, rank(s))
  {
    OwnBelow(k, rank, s);
  }

  lemma FlatCond(k: Kconf, u: User, a: Assignment, c: Cond)
    requires WellFormed(k) && Users(k, u) && Solution(k, u, a) && NoModCond(k, c)
    ensures EvalCond(c, EnvOf(k, a)) != MOD
  {
    SolutionClean(k, u, a);
    if c.Some? {
      NoModValue(k, c.value, EnvOf(k, a));
    }
  }

  lemma StoreValue(k: Kconf, u: User, a: Assignment, m: Caches, s: string, r: Result)
    requires Coherent(k, u, a, m) && ValueOk(k, u, a, s, r)
    ensures Coherent(k, u, a, m.(value := m.value[s := r]))
  {}

  lemma StoreVis(k: Kconf, u: User, a: Assignment, m: Caches, s: string, t: Tristate)
    requires Coherent(k, u, a, m) && VisOk(k, a, s, t)
    ensures Coherent(k, u, a, m.(vis := m.vis[s := t]))
  {}

  lemma StoreChoiceVis(k: Kconf, u: User, a: Assignment, m: Caches, c: nat, t: Tristate)
    requires Coherent(k, u, a, m) && ChoiceVisOk(k, a, c, t)
    ensures Coherent(k, u, a, m.(choiceVis := m.choiceVis[c := t]))
  {}

  lemma StoreSelection(k: Kconf, u: User, a: Assignment, m: Caches, c: nat, r: Option<string>)
    requires Coherent(k, u, a, m) && ChoiceSelOk(k, u, a, c, r)
    ensures Coherent(k, u, a, m.(choiceSel := m.choiceSel[c := r]))
  {}

  class Cache {
    const k: Kconf
    var user: User
    var m: Caches

    /** Nothing is assigned and nothing is cached. */
    constructor (k: Kconf)
      ensures this.k == k && user == User(map[], map[], map[]) && m == Caches(map[], map[], map[], map[])
    {
      this.k := k;
      user := User(map[], map[], map[]);
      m := Caches(map[], map[], map[], map[]);
    }

    /** The caches are right, and what they should hold is well defined. */
    ghost predicate Ready(rank: string -> nat, a: Assignment)
      reads this
    {
      Meaning(k, user, rank, a) && Coherent(k, user, a, m)
    }

    /** _set_user_value_no_invalidate */
    method Assign(s: string, v: string)
      requires WellFormed(k) && s in k.syms
      modifies this`user
      ensures user == AfterSet(k, old(user), s, v)
    {
      if !Accepts(k, s, v) {
        return;
      }
      user := user.(val := user.val[s := v]);
      if k.syms[s].choice.Some? && (k.syms[s].typ == Bool || k.syms[s].typ == Tri) {
        var c := k.syms[s].choice.value;
        if v == "y" {
          user := user.(sel := user.sel[c := s], mode := user.mode[c := YES]);
        } else if v == "m" {
          user := user.(sel := user.sel - {c}, mode := user.mode[c := MOD]);
        }
      }
    }

    /** Choice._invalidate */
    method InvalidateChoice(c: nat)
      modifies this`m
      ensures m == old(m).(choiceVis := old(m).choiceVis - {c}, choiceSel := old(m).choiceSel - {c})
    {
      m := m.(choiceVis := m.choiceVis - {c});
      m := m.(choiceSel := m.choiceSel - {c});
    }

    /** Symbol._invalidate */
    method Invalidate(s: string)
      requires s in k.syms
      modifies this`m
      ensures m == Without(k, old(m), {s})
    {
      if k.syms[s].special.Some? {
        assert forall c: nat :: !ChoiceDropped(k, {s}, c);
        return;
      }
      if k.syms[s].choice.Some? {
        InvalidateChoice(k.syms[s].choice.value);
      }
      m := m.(vis := m.vis - {s});
      m := m.(value := m.value - {s});
      assert forall c: nat {:trigger ChoiceDropped(k, {s}, c)} :: ChoiceDropped(k, {s}, c) <==>
          k.syms[s].choice == Some(c) by {
        assert s in {s};
      }
    }

    /** The loop of _invalidate_dependent. */
    method InvalidateAll(A: set<string>)
      requires A <= k.syms.Keys
      modifies this`m
      ensures m == Without(k, old(m), A)
    {
      var todo := A;
      assert A - todo == {};
      while todo != {}
        invariant todo <= A && m == Without(k, old(m), A - todo)
        decreases |todo|
      {
        var s :| s in todo;
        WithoutMore(k, old(m), A - todo, {s});
        assert A - (todo - {s}) == A - todo + {s};
        Invalidate(s);
        todo := todo - {s};
      }
      assert A - {} == A;
    }

    /** _unset_user_value_no_recursive_invalidate */
    method Unassign(s: string)
      requires WellFormed(k) && s in k.syms
      modifies this`user, this`m
      ensures user == AfterUnset(k, old(user), s) && m == Without(k, old(m), {s})
    {
      Invalidate(s);
      user := User(user.val - {s}, user.sel, user.mode);
      if k.syms[s].choice.Some? {
        var c := k.syms[s].choice.value;
        InvalidateChoice(c);
        assert ChoiceDropped(k, {s}, c);
        user := User(user.val, user.sel - {c}, user.mode - {c});
      }
    }

    /** _has_modules */
    method HasModules(ghost bound: nat, ghost rank: string -> nat, ghost a: Assignment) returns (b: bool)
      requires Ready(rank, a) && ModBelow(k, rank, bound)
      modifies this`m
      ensures Ready(rank, a) && b == EnvOf(k, a).modules
      decreases bound, 0
    {
      b := false;
      if "MODULES" in k.syms {
        var v := GetValue("MODULES", rank, a);
        b := v == "y";
      }
    }

    /** _eval_expr of a constant */
    method EvalConst(x: Tristate, ghost bound: nat, ghost rank: string -> nat,
                    ghost a: Assignment) returns (t: Tristate)
      requires Ready(rank, a) && (x == MOD ==> ModBelow(k, rank, bound))
      modifies this`m
      ensures Ready(rank, a) && t == Lift(EnvOf(k, a), x)
      decreases bound, 1
    {
      t := x;
      if x == MOD {
        var b := HasModules(bound, rank, a);
        if !b {
          t := YES;
        }
      }
    }

    /** _eval_min of two constants */
    method EvalMin(x: Tristate, y: Tristate, ghost bound: nat, ghost rank: string -> nat,
                  ghost a: Assignment) returns (t: Tristate)
      requires Ready(rank, a) && (x == MOD || y == MOD ==> ModBelow(k, rank, bound))
      modifies this`m
      ensures Ready(rank, a) && t == LiftMin(EnvOf(k, a), x, y) && (t == MOD ==> x == MOD || y == MOD)
      decreases bound, 2
    {
      var v := EvalConst(x, bound, rank, a);
      var w := EvalConst(y, bound, rank, a);
      t := Min(v, w);
    }

    /** _eval_max of two constants */
    method EvalMax(x: Tristate, y: Tristate, ghost bound: nat, ghost rank: string -> nat,
                  ghost a: Assignment) returns (t: Tristate)
      requires Ready(rank, a) && (x == MOD || y == MOD ==> ModBelow(k, rank, bound))
      modifies this`m
      ensures Ready(rank, a) && t == LiftMax(EnvOf(k, a), x, y) && (t == MOD ==> x == MOD || y == MOD)
      decreases bound, 2
    {
      var v := EvalConst(x, bound, rank, a);
      var w := EvalConst(y, bound, rank, a);
      t := Max(v, w);
    }

    /** The symbol or string operand of an expression, as a tristate. */
    method AtomTriValue(x: Atom, ghost bound: nat, ghost rank: string -> nat,
                       ghost a: Assignment) returns (t: Tristate)
      requires Ready(rank, a) && Below(k, rank, AtomNames(x), bound)
      modifies this`m
      ensures Ready(rank, a) && t == AtomTri(x, EnvOf(k, a))
      decreases bound, 0
    {
      match x
      case Text(v) => t := TriOf(v);
      case Ref(n) =>
        assert n in AtomNames(x);
        t := NO;
        if k.syms[n].typ == Bool || k.syms[n].typ == Tri {
          var r := GetValue(n, rank, a);
          t := TriOf(r);
        }
    }

    /** _get_str_value */
    method AtomStrValue(x: Atom, ghost bound: nat, ghost rank: string -> nat, ghost a: Assignment) returns (v: string)
      requires Ready(rank, a) && Below(k, rank, AtomNames(x), bound)
      modifies this`m
      ensures Ready(rank, a) && v == AtomStr(x, EnvOf(k, a))
      decreases bound, 0
    {
      match x
      case Text(w) => v := w;
      case Ref(n) =>
        assert n in AtomNames(x);
        v := GetValue(n, rank, a);
    }

    /** _eval_expr_2, with its early returns */
    method EvalExpr(e: Expr, ghost bound: nat, ghost rank: string -> nat, ghost a: Assignment) returns (t: Tristate)
      requires Ready(rank, a) && Below(k, rank, Names(e), bound)
      modifies this`m
      ensures Ready(rank, a) && t == Eval(e, EnvOf(k, a))
      decreases bound, 1, e
    {
      match e
      case Leaf(x) => t := AtomTriValue(x, bound, rank, a);
      case Not(x) =>
        t := EvalExpr(x, bound, rank, a);
        t := Negate(t);
      case Rel(equal, x, y) =>
        var v := AtomStrValue(x, bound, rank, a);
        var w := AtomStrValue(y, bound, rank, a);
        t := if (v == w) == equal then YES else NO;
      case Nary(op, es) =>
        t := Neutral(op);
        ghost var env := EnvOf(k, a);
        for i := 0 to |es|
          invariant Ready(rank, a) && Below(k, rank, NamesAll(es[i..]), bound)
          invariant t != Absorbing(op)
          invariant EvalAll(op, es, env) == Apply(op, t, EvalAll(op, es[i..], env))
        {
          assert es[i..][0] == es[i] && es[i..][1..] == es[i + 1..];
          var ev := EvalExpr(es[i], bound, rank, a);
          if ev == Absorbing(op) {
            return ev;
          }
          if ev == MOD {
            t := MOD;
          }
        }
        assert es[|es|..] == [];
    }

    /** _eval_expr of an optional condition */
    method EvalOpt(c: Cond, ghost bound: nat, ghost rank: string -> nat, ghost a: Assignment) returns (t: Tristate)
      requires Ready(rank, a) && Below(k, rank, CondNames(c), bound)
      requires ModBelow(k, rank, bound) || NoModCond(k, c)
      modifies this`m
      ensures Ready(rank, a) && t == EvalLifted(c, EnvOf(k, a))
      decreases bound, 2
    {
      t := YES;
      if c.Some? {
        t := EvalExpr(c.value, bound, rank, a);
      }
      if NoModCond(k, c) {
        FlatCond(k, user, a, c);
      }
      t := EvalConst(t, bound, rank, a);
    }

    /** The loop over prompts in _get_visibility. */
    method EvalPrompts(ps: seq<Cond>, ghost bound: nat, ghost rank: string -> nat,
                      ghost a: Assignment) returns (t: Tristate)
      requires Ready(rank, a) && Below(k, rank, PromptNames(ps), bound)
      requires ModBelow(k, rank, bound) || NoModPrompts(k, ps)
      modifies this`m
      ensures Ready(rank, a) && t == PromptVis(ps, 0, NO, EnvOf(k, a))
      decreases bound, 3
    {
      t := NO;
      for i := 0 to |ps|
        invariant Ready(rank, a) && PromptVis(ps, 0, NO, EnvOf(k, a)) == PromptVis(ps, i, t, EnvOf(k, a))
        invariant ModBelow(k, rank, bound) || t != MOD
      {
        PromptNamesHave(ps, i);
        var x := EvalConst(t, bound, rank, a);
        var y := EvalOpt(ps[i], bound, rank, a);
        if NoModCond(k, ps[i]) {
          FlatCond(k, user, a, ps[i]);
        }
        t := Max(x, y);
      }
    }

    /** Choice._get_visibility */
    method GetChoiceVis(c: nat, ghost bound: nat, ghost rank: string -> nat,
                       ghost a: Assignment) returns (t: Tristate)
      requires Ready(rank, a) && c in k.choices && k.choices[c].members != []
      requires Below(k, rank, PromptNames(k.choices[c].prompts), bound) && ModBelow(k, rank, bound)
      modifies this`m
      ensures Ready(rank, a) && t == ChoiceVis(k.choices[c], EnvOf(k, a))
      decreases bound, 4
    {
      if c in m.choiceVis {
        return m.choiceVis[c];
      }
      t := EvalPrompts(k.choices[c].prompts, bound, rank, a);
      t := ForType(k.choices[c].typ, t);
      StoreChoiceVis(k, user, a, m, c, t);
      m := m.(choiceVis := m.choiceVis[c := t]);
    }

    /** The visibility of a symbol that is not cached. */
    method CalcVis(s: string, ghost bound: nat, ghost rank: string -> nat, ghost a: Assignment) returns (t: Tristate)
      requires Ready(rank, a) && s in k.syms
      requires Below(k, rank, VisReads(k, s), bound) && (ModBelow(k, rank, bound) || FlatVis(k, s))
      modifies this`m
      ensures Ready(rank, a) && t == Vis(k, s, EnvOf(k, a))
      decreases bound, 5
    {
      t := EvalPrompts(k.syms[s].prompts, bound, rank, a);
      if k.syms[s].choice.Some? {
        assert s in k.choices[k.syms[s].choice.value].members;
        var cv := GetChoiceVis(k.syms[s].choice.value, bound, rank, a);
        t := EvalMin(t, cv, bound, rank, a);
      }
      t := ForType(k.syms[s].typ, t);
    }

    /** Symbol._get_visibility */
    method GetVis(s: string, ghost bound: nat, ghost rank: string -> nat, ghost a: Assignment) returns (t: Tristate)
      requires Ready(rank, a) && s in k.syms
      requires Below(k, rank, VisReads(k, s), bound) && (ModBelow(k, rank, bound) || FlatVis(k, s))
      modifies this`m
      ensures Ready(rank, a) && t == Vis(k, s, EnvOf(k, a))
      decreases bound, 6
    {
      if s in m.vis {
        return m.vis[s];
      }
      t := CalcVis(s, bound, rank, a);
      StoreVis(k, user, a, m, s, t);
      m := m.(vis := m.vis[s := t]);
    }

    /** Choice.get_mode */
    method GetMode(c: nat, ghost bound: nat, ghost rank: string -> nat, ghost a: Assignment) returns (t: Tristate)
      requires Ready(rank, a) && ChoiceBelow(k, rank, c, bound)
      modifies this`m
      ensures Ready(rank, a) && t == Mode(k, user, c, EnvOf(k, a))
      decreases bound, 5
    {
      t := if c in user.mode then user.mode[c] else if k.choices[c].isOptional then NO else MOD;
      var cv := GetChoiceVis(c, bound, rank, a);
      t := EvalMin(t, cv, bound, rank, a);
      if t == MOD && k.choices[c].typ == Bool {
        t := YES;
      }
    }

    /** The default that get_selection_from_defaults starts from. */
    method FindPreferred(c: nat, ghost bound: nat, ghost rank: string -> nat, ghost a: Assignment) returns (x: string)
      requires Ready(rank, a) && ChoiceBelow(k, rank, c, bound)
      modifies this`m
      ensures Ready(rank, a) && x == Preferred(k.choices[c], 0, EnvOf(k, a))
      decreases bound, 3
    {
      var ds := k.choices[c].defaults;
      for i := 0 to |ds|
        invariant Ready(rank, a) && Preferred(k.choices[c], 0, EnvOf(k, a)) == Preferred(k.choices[c], i, EnvOf(k, a))
      {
        ChoiceDefaultNamesHave(ds, i);
        var ev := EvalOpt(ds[i].cond, bound, rank, a);
        if ev != NO {
          return ds[i].sym;
        }
      }
      return k.choices[c].members[0];
    }

    /** The loop over members that get_selection_from_defaults falls back to. */
    method FindVisible(c: nat, ghost bound: nat, ghost rank: string -> nat,
                      ghost a: Assignment) returns (r: Option<string>)
      requires Ready(rank, a) && ChoiceBelow(k, rank, c, bound)
      modifies this`m
      ensures Ready(rank, a) && r == FirstVisible(k, k.choices[c].members, 0, EnvOf(k, a))
      decreases bound, 7
    {
      var members := k.choices[c].members;
      for j := 0 to |members|
        invariant Ready(rank, a) && FirstVisible(k, members, 0, EnvOf(k, a)) == FirstVisible(k, members, j, EnvOf(k, a))
      {
        MemberVisBelow(k, rank, c, members[j], bound);
        var w := GetVis(members[j], bound, rank, a);
        if w != NO {
          return Some(members[j]);
        }
      }
      return None;
    }

    /** Choice.get_selection_from_defaults; the preferred symbol need not be a member */
    method GetDefaultSelection(c: nat, ghost bound: nat, ghost rank: string -> nat,
                              ghost a: Assignment) returns (r: Option<string>)
      requires Ready(rank, a) && ChoiceBelow(k, rank, c, bound)
      modifies this`m
      ensures Ready(rank, a) && r == DefaultSelection(k, k.choices[c], EnvOf(k, a))
      decreases bound, 8
    {
      var x := FindPreferred(c, bound, rank, a);
      PreferredVisBelow(k, rank, c, 0, bound, EnvOf(k, a));
      var v := GetVis(x, bound, rank, a);
      if v != NO {
        return Some(x);
      }
      r := FindVisible(c, bound, rank, a);
    }

    /** The selection of a choice that is not cached. */
    method CalcSelection(c: nat, ghost bound: nat, ghost rank: string -> nat,
                        ghost a: Assignment) returns (r: Option<string>)
      requires Ready(rank, a) && ChoiceBelow(k, rank, c, bound)
      modifies this`m
      ensures Ready(rank, a) && r == Selection(k, user, c, EnvOf(k, a))
      decreases bound, 9
    {
      var mode := GetMode(c, bound, rank, a);
      if mode != YES {
        return None;
      }
      if c in user.sel {
        MemberVisBelow(k, rank, c, user.sel[c], bound);
        var v := GetVis(user.sel[c], bound, rank, a);
        if v == YES {
          return Some(user.sel[c]);
        }
      }
      if k.choices[c].isOptional {
        return None;
      }
      r := GetDefaultSelection(c, bound, rank, a);
    }

    /** Choice.get_selection */
    method GetSelection(c: nat, ghost bound: nat, ghost rank: string -> nat,
                       ghost a: Assignment) returns (r: Option<string>)
      requires Ready(rank, a) && ChoiceBelow(k, rank, c, bound)
      modifies this`m
      ensures Ready(rank, a) && r == Selection(k, user, c, EnvOf(k, a))
      decreases bound, 10
    {
      if c in m.choiceSel {
        return m.choiceSel[c];
      }
      r := CalcSelection(c, bound, rank, a);
      StoreSelection(k, user, a, m, c, r);
      m := m.(choiceSel := m.choiceSel[c := r]);
    }

    /** The loop over defaults up to the first active one. */
    method FindDefault(ds: seq<Default>, ghost bound: nat, ghost rank: string -> nat,
                      ghost a: Assignment) returns (r: Option<nat>)
      requires Ready(rank, a) && Below(k, rank, DefaultNames(ds), bound)
      requires ModBelow(k, rank, bound) || FlatDefaults(k, ds)
      modifies this`m
      ensures Ready(rank, a) && r == ActiveDefault(ds, 0, EnvOf(k, a))
      decreases bound, 3
    {
      for i := 0 to |ds|
        invariant Ready(rank, a) && ActiveDefault(ds, 0, EnvOf(k, a)) == ActiveDefault(ds, i, EnvOf(k, a))
      {
        DefaultNamesHave(ds, i);
        var ev := EvalOpt(ds[i].cond, bound, rank, a);
        if ev != NO {
          return Some(i);
        }
      }
      return None;
    }

    /** The loop over ranges up to the first active one. */
    method FindBounds(rs: seq<Range>, base: nat, ghost bound: nat, ghost rank: string -> nat,
                     ghost a: Assignment) returns (r: Bounds)
      requires Ready(rank, a) && Below(k, rank, RangeNames(rs), bound)
      requires ModBelow(k, rank, bound) || FlatRanges(k, rs)
      modifies this`m
      ensures Ready(rank, a) && r == ActiveBounds(k, rs, 0, base, EnvOf(k, a))
      decreases bound, 3
    {
      for i := 0 to |rs|
        invariant Ready(rank, a) &&
                  ActiveBounds(k, rs, 0, base, EnvOf(k, a)) == ActiveBounds(k, rs, i, base, EnvOf(k, a))
      {
        RangeNamesHave(rs, i);
        var ev := EvalOpt(rs[i].cond, bound, rank, a);
        if ev != NO {
          var low := AtomStrValue(rs[i].low, bound, rank, a);
          var high := AtomStrValue(rs[i].high, bound, rank, a);
          return Within(Number(k, low, base), Number(k, high, base));
        }
      }
      return Unbounded;
    }

    /** The string a default of a string, int or hex symbol stands for. */
    method LeafStrValue(e: Expr, ghost bound: nat, ghost rank: string -> nat, ghost a: Assignment) returns (v: string)
      requires Ready(rank, a) && Below(k, rank, Names(e), bound)
      modifies this`m
      ensures Ready(rank, a) && v == LeafStr(e, EnvOf(k, a))
      decreases bound, 1
    {
      v := "";
      if e.Leaf? {
        v := AtomStrValue(e.atom, bound, rank, a);
      }
    }

    /** The loop over defaults of an int or hex symbol. */
    method NumberFromDefaults(typ: KType, ds: seq<Default>, b: Bounds, start: Result, ghost bound: nat,
                              ghost rank: string -> nat, ghost a: Assignment) returns (r: Result)
      requires Ready(rank, a) && Below(k, rank, DefaultNames(ds), bound)
      requires ModBelow(k, rank, bound) || FlatDefaults(k, ds)
      modifies this`m
      ensures Ready(rank, a) && r == NumberDefault(k, typ, ds, 0, b, start, EnvOf(k, a))
      decreases bound, 3
    {
      r := start;
      for i := 0 to |ds|
        invariant Ready(rank, a)
        invariant NumberDefault(k, typ, ds, 0, b, start, EnvOf(k, a)) == NumberDefault(k, typ, ds, i, b, r, EnvOf(k, a))
      {
        DefaultNamesHave(ds, i);
        var ev := EvalOpt(ds[i].cond, bound, rank, a);
        if ev != NO {
          var text := LeafStrValue(ds[i].val, bound, rank, a);
          if k.parse(text, BaseOf(typ)).Some? {
            return Result(Clamp(k, typ, text, b), true);
          }
          r := Result(text, true);
        }
      }
      if b.Within? && b.low > 0 {
        r := Result(k.show(typ, b.low), r.write);
      }
    }

    /** The value of a default of a bool or tristate symbol, limited by its condition. */
    method EvalDefault(d: Default, ghost bound: nat, ghost rank: string -> nat,
                      ghost a: Assignment) returns (t: Tristate)
      requires Ready(rank, a) && Below(k, rank, Names(d.val) + CondNames(d.cond), bound)
      requires ModBelow(k, rank, bound) || (NoModCond(k, d.cond) && NoMod(k, d.val))
      modifies this`m
      ensures Ready(rank, a) && t == LiftMin(EnvOf(k, a), Eval(d.val, EnvOf(k, a)), EvalLifted(d.cond, EnvOf(k, a))) &&
              (t == MOD ==> ModBelow(k, rank, bound))
      decreases bound, 3
    {
      var cond := EvalOpt(d.cond, bound, rank, a);
      if NoModCond(k, d.cond) {
        FlatCond(k, user, a, d.cond);
      }
      t := EvalExpr(d.val, bound, rank, a);
      if NoMod(k, d.val) {
        FlatCond(k, user, a, Some(d.val));
      }
      t := EvalMin(t, cond, bound, rank, a);
    }

    /** The value of the first active default of a bool or tristate symbol. */
    method EvalDefaults(ds: seq<Default>, ghost bound: nat, ghost rank: string -> nat,
                       ghost a: Assignment) returns (t: Option<Tristate>)
      requires Ready(rank, a) && Below(k, rank, DefaultNames(ds), bound)
      requires ModBelow(k, rank, bound) || FlatTruths(k, ds)
      modifies this`m
      ensures Ready(rank, a) && t == DefaultTruth(ds, EnvOf(k, a)) && (t == Some(MOD) ==> ModBelow(k, rank, bound))
      decreases bound, 4
    {
      var i := FindDefault(ds, bound, rank, a);
      if i.None? {
        return None;
      }
      DefaultNamesHave(ds, i.value);
      var v := EvalDefault(ds[i.value], bound, rank, a);
      t := Some(v);
    }

    /** get_value for an int or hex symbol */
    method CalcNumber(s: string, ghost rank: string -> nat, ghost a: Assignment) returns (r: Result)
      requires Ready(rank, a) && s in k.syms && k.syms[s].special.None?
      modifies this`m
      ensures Ready(rank, a) && r == NumberResult(k, user, s, EnvOf(k, a))
      decreases rank(s), 11
    {
      ghost var bound := rank(s);
      OwnBelow(k, rank, s);
      var d := k.syms[s];
      var vis := GetVis(s, bound, rank, a);
      var b := FindBounds(d.ranges, BaseOf(d.typ), bound, rank, a);
      if vis != NO && s in user.val && UserNumberOk(k, user.val[s], BaseOf(d.typ), b) {
        return Result(user.val[s], true);
      }
      r := NumberFromDefaults(d.typ, d.defaults, b, Result("", vis != NO), bound, rank, a);
    }

    /** get_value for a string symbol */
    method CalcString(s: string, ghost rank: string -> nat, ghost a: Assignment) returns (r: Result)
      requires Ready(rank, a) && s in k.syms && k.syms[s].special.None?
      modifies this`m
      ensures Ready(rank, a) && r == StringResult(k, user, s, EnvOf(k, a))
      decreases rank(s), 11
    {
      ghost var bound := rank(s);
      OwnBelow(k, rank, s);
      var d := k.syms[s];
      var vis := GetVis(s, bound, rank, a);
      if vis != NO && s in user.val {
        return Result(user.val[s], true);
      }
      var i := FindDefault(d.defaults, bound, rank, a);
      if i.None? {
        return Result("", vis != NO);
      }
      DefaultNamesHave(d.defaults, i.value);
      var v := LeafStrValue(d.defaults[i.value].val, bound, rank, a);
      r := Result(v, true);
    }

    /** The user value or the default of a bool or tristate symbol outside choices. */
    method CalcPlain(s: string, ghost rank: string -> nat, ghost a: Assignment) returns (r: Truth)
      requires Ready(rank, a) && s in k.syms && k.syms[s].special.None? && k.syms[s].choice.None? &&
               k.syms[s].typ in {Bool, Tri}
      modifies this`m
      ensures Ready(rank, a) && r == PlainTruth(k, user, s, EnvOf(k, a)) &&
              (r.tri == MOD ==> ModBelow(k, rank, rank(s)))
      decreases rank(s), 11
    {
      ghost var bound := rank(s);
      TruthBelow(k, rank, user, s);
      var vis := GetVis(s, bound, rank, a);
      if vis != NO && s in user.val {
        var t := EvalMin(TriOf(user.val[s]), vis, bound, rank, a);
        return Truth(t, true);
      }
      var t := EvalDefaults(k.syms[s].defaults, bound, rank, a);
      r := if t.None? then Truth(NO, vis != NO) else Truth(t.value, true);
    }

    /** get_value for a bool or tristate symbol outside choices */
    method CalcTruth(s: string, ghost rank: string -> nat, ghost a: Assignment) returns (r: Result)
      requires Ready(rank, a) && s in k.syms && k.syms[s].special.None? && k.syms[s].choice.None? &&
               k.syms[s].typ in {Bool, Tri}
      modifies this`m
      ensures Ready(rank, a) && r == TruthResult(k, user, s, EnvOf(k, a))
      decreases rank(s), 12
    {
      ghost var bound := rank(s);
      TruthBelow(k, rank, user, s);
      var p := CalcPlain(s, rank, a);
      var rev := EvalOpt(Some(k.syms[s].revDep), bound, rank, a);
      if NoMod(k, k.syms[s].revDep) {
        FlatCond(k, user, a, Some(k.syms[s].revDep));
      }
      if rev != NO {
        var t := EvalMax(p.tri, rev, bound, rank, a);
        return Result(TriText(t), true);
      }
      r := Result(TriText(p.tri), p.write);
    }

    /** get_value for a member of a choice */
    method CalcMember(s: string, c: nat, ghost rank: string -> nat, ghost a: Assignment) returns (r: Result)
      requires Ready(rank, a) && s in k.syms && k.syms[s].special.None? && k.syms[s].choice == Some(c) && c in k.choices
      modifies this`m
      ensures Ready(rank, a) && r == MemberResult(k, user, s, c, EnvOf(k, a))
      decreases rank(s), 11
    {
      ghost var bound := rank(s);
      OwnBelow(k, rank, s);
      MemberBelow(k, rank, s);
      var vis := GetVis(s, bound, rank, a);
      if vis == NO {
        return Result("n", false);
      }
      var mode := GetMode(c, bound, rank, a);
      if mode == YES {
        var sel := GetSelection(c, bound, rank, a);
        return Result(if sel == Some(s) then "y" else "n", true);
      }
      if mode == MOD {
        return Result(if s in user.val && (user.val[s] == "m" || user.val[s] == "y") then "m" else "n", true);
      }
      return Result("n", false);
    }

    /** get_value for a symbol whose value is not cached */
    method CalcResult(s: string, ghost rank: string -> nat, ghost a: Assignment) returns (r: Result)
      requires Ready(rank, a) && s in k.syms && k.syms[s].special.None?
      modifies this`m
      ensures Ready(rank, a) && r == ResultIn(k, user, s, EnvOf(k, a))
      decreases rank(s), 13
    {
      match k.syms[s].typ
      case Unknown => r := Result(s, false);
      case Str => r := CalcString(s, rank, a);
      case Hex => r := CalcNumber(s, rank, a);
      case Int => r := CalcNumber(s, rank, a);
      case _ =>
        if k.syms[s].choice.Some? {
          r := CalcMember(s, k.syms[s].choice.value, rank, a);
        } else {
          r := CalcTruth(s, rank, a);
        }
        if r.val == "m" && k.syms[s].typ == Bool {
          r := Result("y", r.write);
        }
    }

    /**
     Symbol.get_value. What is cached is returned as it is; right caches give the value in the solution and stay right.
     */
    method GetValue(s: string, ghost rank: string -> nat, ghost a: Assignment) returns (v: string)
      requires s in k.syms && (k.syms[s].special.None? && s !in m.value ==> Ready(rank, a))
      modifies this`m
      ensures old(Ready(rank, a)) ==> Ready(rank, a) && v == a[s]
      ensures k.syms[s].special.None? ==> s in m.value && v == m.value[s].val
      ensures k.syms[s].special.None? && s in old(m).value ==> m == old(m)
      decreases rank(s), 14
    {
      if k.syms[s].special.Some? {
        assert Ready(rank, a) ==> a[s] == ResultIn(k, user, s, EnvOf(k, a)).val;
        return k.syms[s].special.value;
      }
      if s in m.value {
        return m.value[s].val;
      }
      var r := CalcResult(s, rank, a);
      StoreValue(k, user, a, m, s, r);
      m := m.(value := m.value[s := r]);
      v := r.val;
    }
  }
}
