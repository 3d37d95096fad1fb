/**
 The value of a symbol depends on what its properties and its choice mention, and on whether modules are
 enabled; so an acyclic configuration has exactly one solution (support/scripts/kconfiglib.py:
 _eval_expr, _get_visibility, get_value, get_mode, get_selection).
 */
module KSolve {
  import opened Tristates
  import opened KExpr
  import opened KModel

  /** Symbols that are never m are not m here. */
  ghost predicate Clean(k: Kconf, env: Env) { forall n {:trigger env.tri(n)} :: NeverM(k, n) ==> env.tri(n) != MOD }

  /** User values are of the type of their symbol (_set_user_value_no_invalidate). */
  ghost predicate UserTyped(k: Kconf, u: User) {
    forall s {:trigger u.val[s]} :: s in u.val && s in k.syms && k.syms[s].typ == Bool ==> u.val[s] != "m"
  }

  lemma {:induction false} NoModValue(k: Kconf, e: Expr, env: Env)
    requires NoMod(k, e) && Clean(k, env)
    ensures Eval(e, env) != MOD
    decreases e
  {
    match e
    case Not(x) => NoModValue(k, x, env);
    case Nary(op, es) => AllNoModValue(k, op, es, env);
    case _ =>
  }

  lemma {:induction false} AllNoModValue(k: Kconf, op: Op, es: seq<Expr>, env: Env)
    requires AllNoMod(k, es) && Clean(k, env)
    ensures EvalAll(op, es, env) != MOD
    decreases es
  {
    if es != [] {
      NoModValue(k, es[0], env);
      AllNoModValue(k, op, es[1..], env);
    }
  }

  // ----- conditions with the same outcome -----

  predicate SameTri(v: Env, w: Env, t: Tristate) { Lift(v, t) == Lift(w, t) }

  ghost predicate SameCond(c: Cond, v: Env, w: Env) {
    EvalCond(c, v) == EvalCond(c, w) && SameTri(v, w, EvalCond(c, v))
  }

  /** The names have the same values; modules are the same too, or `flat` conditions do not ask. */
  ghost predicate Alike(k: Kconf, v: Env, w: Env, names: set<string>, flat: bool) {
    Agree(v, w, names) && (v.modules == w.modules || (flat && Clean(k, v)))
  }

  lemma CondAlike(k: Kconf, c: Cond, v: Env, w: Env)
    requires Alike(k, v, w, CondNames(c), NoModCond(k, c))
    ensures SameCond(c, v, w)
  {
    if c.Some? {
      EvalLocal(c.value, v, w);
      if NoMod(k, c.value) && Clean(k, v) {
        NoModValue(k, c.value, v);
      }
    }
  }

  lemma {:induction false} PromptNamesHave(ps: seq<Cond>, i: nat)
    requires i < |ps|
    ensures CondNames(ps[i]) <= PromptNames(ps)
  {
    if i > 0 { PromptNamesHave(ps[1..], i - 1); }
  }

  lemma {:induction false} DefaultNamesHave(ds: seq<Default>, i: nat)
    requires i < |ds|
    ensures CondNames(ds[i].cond) <= DefaultNames(ds) && Names(ds[i].val) <= DefaultNames(ds)
  {
    if i > 0 { DefaultNamesHave(ds[1..], i - 1); }
  }

  lemma {:induction false} RangeNamesHave(rs: seq<Range>, i: nat)
    requires i < |rs|
    ensures CondNames(rs[i].cond) <= RangeNames(rs)
    ensures AtomNames(rs[i].low) <= RangeNames(rs) && AtomNames(rs[i].high) <= RangeNames(rs)
  {
    if i > 0 { RangeNamesHave(rs[1..], i - 1); }
  }

  lemma {:induction false} ChoiceDefaultNamesHave(ds: seq<ChoiceDefault>, i: nat)
    requires i < |ds|
    ensures CondNames(ds[i].cond) <= ChoiceDefaultNames(ds)
  {
    if i > 0 { ChoiceDefaultNamesHave(ds[1..], i - 1); }
  }

  lemma {:induction false} AllVisReadsHave(k: Kconf, ss: seq<string>, i: nat)
    requires i < |ss| && ss[i] in k.syms
    ensures VisReads(k, ss[i]) <= AllVisReads(k, ss)
  {
    if i > 0 { AllVisReadsHave(k, ss[1..], i - 1); }
  }

  lemma {:induction false} DefaultSymsAt(ds: seq<ChoiceDefault>, i: nat)
    requires i < |ds|
    ensures |DefaultSyms(ds)| == |ds| && DefaultSyms(ds)[i] == ds[i].sym
  {
    if |ds| > 1 { DefaultSymsAt(ds[1..], if i > 0 then i - 1 else 0); }
  }

  // ----- visibility -----

  ghost predicate SamePrompts(ps: seq<Cond>, v: Env, w: Env) {
    forall i {:trigger ps[i]} :: 0 <= i < |ps| ==> SameCond(ps[i], v, w)
  }

  lemma PromptsAlike(k: Kconf, ps: seq<Cond>, v: Env, w: Env)
    requires Alike(k, v, w, PromptNames(ps), NoModPrompts(k, ps))
    ensures SamePrompts(ps, v, w)
  {
    forall i | 0 <= i < |ps|
      ensures SameCond(ps[i], v, w)
    {
      PromptNamesHave(ps, i);
      CondAlike(k, ps[i], v, w);
    }
  }

  lemma {:induction false} PromptVisSame(ps: seq<Cond>, i: nat, acc: Tristate, v: Env, w: Env)
    requires i <= |ps| && SamePrompts(ps, v, w) && SameTri(v, w, acc)
    ensures PromptVis(ps, i, acc, v) == PromptVis(ps, i, acc, w) && SameTri(v, w, PromptVis(ps, i, acc, v))
    decreases |ps| - i
  {
    if i < |ps| {
      assert SameCond(ps[i], v, w);
      PromptVisSame(ps, i + 1, LiftMax(v, acc, EvalCond(ps[i], v)), v, w);
    }
  }

  /**
   The visibility of a symbol outside choices, and that of a choice, never asks for modules if no condition can be m.
   */
  predicate FlatVis(k: Kconf, s: string)
    requires s in k.syms
  {
    k.syms[s].choice.None? && NoModPrompts(k, k.syms[s].prompts)
  }

  lemma ChoiceVisSame(k: Kconf, c: nat, v: Env, w: Env)
    requires c in k.choices && Agree(v, w, PromptNames(k.choices[c].prompts)) && v.modules == w.modules
    ensures ChoiceVis(k.choices[c], v) == ChoiceVis(k.choices[c], w)
  {
    PromptsAlike(k, k.choices[c].prompts, v, w);
    PromptVisSame(k.choices[c].prompts, 0, NO, v, w);
  }

  lemma VisSame(k: Kconf, s: string, v: Env, w: Env)
    requires s in k.syms && Alike(k, v, w, VisReads(k, s), FlatVis(k, s))
    ensures Vis(k, s, v) == Vis(k, s, w)
  {
    var d := k.syms[s];
    PromptsAlike(k, d.prompts, v, w);
    PromptVisSame(d.prompts, 0, NO, v, w);
    if InChoice(k, s) {
      ChoiceVisSame(k, d.choice.value, v, w);
    }
  }

  // ----- defaults and ranges -----

  ghost predicate SameDefaults(ds: seq<Default>, v: Env, w: Env) {
    forall i {:trigger ds[i]} :: 0 <= i < |ds| ==> SameCond(ds[i].cond, v, w)
  }

  lemma {:induction false} ActiveDefaultSame(ds: seq<Default>, i: nat, v: Env, w: Env)
    requires i <= |ds| && SameDefaults(ds, v, w)
    ensures ActiveDefault(ds, i, v) == ActiveDefault(ds, i, w)
    decreases |ds| - i
  {
    if i < |ds| {
      assert SameCond(ds[i].cond, v, w);
      ActiveDefaultSame(ds, i + 1, v, w);
    }
  }

  lemma {:induction false} ActiveBoundsSame(k: Kconf, rs: seq<Range>, i: nat, base: nat, v: Env, w: Env)
    requires i <= |rs| && Agree(v, w, RangeNames(rs))
    requires forall j {:trigger rs[j]} :: 0 <= j < |rs| ==> SameCond(rs[j].cond, v, w)
    ensures ActiveBounds(k, rs, i, base, v) == ActiveBounds(k, rs, i, base, w)
    decreases |rs| - i
  {
    if i < |rs| {
      assert SameCond(rs[i].cond, v, w);
      RangeNamesHave(rs, i);
      assert rs[i].low.Ref? ==> rs[i].low.name in AtomNames(rs[i].low);
      assert rs[i].high.Ref? ==> rs[i].high.name in AtomNames(rs[i].high);
      ActiveBoundsSame(k, rs, i + 1, base, v, w);
    }
  }

  lemma LeafStrSame(e: Expr, v: Env, w: Env)
    requires Agree(v, w, Names(e))
    ensures LeafStr(e, v) == LeafStr(e, w)
  {
    if e.Leaf? && e.atom.Ref? {
      assert e.atom.name in Names(e);
    }
  }

  lemma {:induction false} NumberDefaultSame(k: Kconf, typ: KType, ds: seq<Default>, i: nat, b: Bounds, cur: Result,
                                             v: Env, w: Env)
    requires i <= |ds| && SameDefaults(ds, v, w) && Agree(v, w, DefaultNames(ds))
    ensures NumberDefault(k, typ, ds, i, b, cur, v) == NumberDefault(k, typ, ds, i, b, cur, w)
    decreases |ds| - i
  {
    if i < |ds| {
      assert SameCond(ds[i].cond, v, w);
      DefaultNamesHave(ds, i);
      LeafStrSame(ds[i].val, v, w);
      NumberDefaultSame(k, typ, ds, i + 1, b, cur, v, w);
      NumberDefaultSame(k, typ, ds, i + 1, b, Result(LeafStr(ds[i].val, v), true), v, w);
    }
  }

  /** What `get_value` evaluates for `s`, apart from its visibility, comes out the same. */
  ghost predicate SameProps(k: Kconf, s: string, v: Env, w: Env)
    requires s in k.syms
  {
    var d := k.syms[s];
    && Vis(k, s, v) == Vis(k, s, w) && SameDefaults(d.defaults, v, w) && SameCond(Some(d.revDep), v, w)
    && (forall j {:trigger d.ranges[j]} :: 0 <= j < |d.ranges| ==> SameCond(d.ranges[j].cond, v, w))
    && Agree(v, w, PropertyNames(d))
  }

  lemma PropsAlike(k: Kconf, s: string, v: Env, w: Env)
    requires s in k.syms && Alike(k, v, w, OwnReads(k, s), TwoValued(k, s))
    ensures SameProps(k, s, v, w)
  {
    var d := k.syms[s];
    VisSame(k, s, v, w);
    CondAlike(k, Some(d.revDep), v, w);
    forall i | 0 <= i < |d.defaults|
      ensures SameCond(d.defaults[i].cond, v, w)
    {
      DefaultNamesHave(d.defaults, i);
      CondAlike(k, d.defaults[i].cond, v, w);
    }
    forall i | 0 <= i < |d.ranges|
      ensures SameCond(d.ranges[i].cond, v, w)
    {
      RangeNamesHave(d.ranges, i);
      CondAlike(k, d.ranges[i].cond, v, w);
    }
  }

  // ----- values outside choices -----

  /** Modules are the same in both, or nothing about `s` is ever m. */
  ghost predicate SameModules(k: Kconf, u: User, s: string, v: Env, w: Env)
    requires s in k.syms
  {
    v.modules == w.modules || (TwoValued(k, s) && Clean(k, v) && UserTyped(k, u))
  }

  lemma PlainTruthSame(k: Kconf, u: User, s: string, v: Env, w: Env)
    requires s in k.syms && SameProps(k, s, v, w) && SameModules(k, u, s, v, w) &&
             (k.syms[s].typ == Bool || k.syms[s].typ == Tri)
    ensures PlainTruth(k, u, s, v) == PlainTruth(k, u, s, w)
    ensures SameTri(v, w, PlainTruth(k, u, s, v).tri)
  {
    var ds := k.syms[s].defaults;
    ActiveDefaultSame(ds, 0, v, w);
    var i := ActiveDefault(ds, 0, v);
    if i.Some? {
      assert SameCond(ds[i.value].cond, v, w);
      DefaultNamesHave(ds, i.value);
      EvalLocal(ds[i.value].val, v, w);
      if v.modules != w.modules {
        NoModValue(k, ds[i.value].val, v);
      }
    }
  }

  lemma TruthSame(k: Kconf, u: User, s: string, v: Env, w: Env)
    requires s in k.syms && SameProps(k, s, v, w) && SameModules(k, u, s, v, w) &&
             (k.syms[s].typ == Bool || k.syms[s].typ == Tri)
    ensures TruthResult(k, u, s, v) == TruthResult(k, u, s, w)
  {
    PlainTruthSame(k, u, s, v, w);
  }

  lemma NumberSame(k: Kconf, u: User, s: string, v: Env, w: Env)
    requires s in k.syms && SameProps(k, s, v, w)
    ensures NumberResult(k, u, s, v) == NumberResult(k, u, s, w)
  {
    var d := k.syms[s];
    ActiveBoundsSame(k, d.ranges, 0, BaseOf(d.typ), v, w);
    NumberDefaultSame(k, d.typ, d.defaults, 0, ActiveBounds(k, d.ranges, 0, BaseOf(d.typ), v),
      Result("", Vis(k, s, v) != NO), v, w);
  }

  lemma StringSame(k: Kconf, u: User, s: string, v: Env, w: Env)
    requires s in k.syms && SameProps(k, s, v, w)
    ensures StringResult(k, u, s, v) == StringResult(k, u, s, w)
  {
    var ds := k.syms[s].defaults;
    ActiveDefaultSame(ds, 0, v, w);
    var i := ActiveDefault(ds, 0, v);
    if i.Some? {
      DefaultNamesHave(ds, i.value);
      LeafStrSame(ds[i.value].val, v, w);
    }
  }

  // ----- choices -----

  /** The user's selection in a choice is one of its members. */
  ghost predicate UserSelOk(k: Kconf, u: User) {
    forall c {:trigger u.sel[c]} :: c in u.sel && c in k.choices ==> u.sel[c] in k.choices[c].members
  }

  predicate SameChoiceUser(u: User, u': User, c: nat) {
    && (c in u.sel <==> c in u'.sel) && (c in u.sel ==> u.sel[c] == u'.sel[c])
    && (c in u.mode <==> c in u'.mode) && (c in u.mode ==> u.mode[c] == u'.mode[c])
  }

  /** The selection is left to the defaults of the choice. */
  predicate FallsBack(k: Kconf, u: User, c: nat, env: Env)
    requires c in k.choices
  {
    && Mode(k, u, c, env) == YES && !(c in u.sel && u.sel[c] in k.syms && Vis(k, u.sel[c], env) == YES)
    && !k.choices[c].isOptional && k.choices[c].members != []
  }

  predicate Hidden(k: Kconf, x: string, env: Env) { x in k.syms ==> Vis(k, x, env) == NO }

  /** If the choice is left to its defaults, the preferred one is hidden in both or in neither. */
  predicate SamePreferred(k: Kconf, u: User, c: nat, v: Env, w: Env)
    requires c in k.choices
  {
    FallsBack(k, u, c, v) ==>
      (Hidden(k, Preferred(k.choices[c], 0, v), v) <==> Hidden(k, Preferred(k.choices[c], 0, v), w))
  }

  /** The members of a choice and its conditions look the same in both. */
  ghost predicate SameChoice(k: Kconf, c: nat, v: Env, w: Env)
    requires c in k.choices
  {
    v.modules == w.modules && Agree(v, w, ChoiceNames(k.choices[c])) &&
      Agree(v, w, AllVisReads(k, k.choices[c].members))
  }

  lemma MemberVisSame(k: Kconf, c: nat, s: string, v: Env, w: Env)
    requires WellFormed(k) && c in k.choices && SameChoice(k, c, v, w) && s in k.choices[c].members
    ensures s in k.syms && Vis(k, s, v) == Vis(k, s, w)
  {
    var i :| 0 <= i < |k.choices[c].members| && k.choices[c].members[i] == s;
    AllVisReadsHave(k, k.choices[c].members, i);
    VisSame(k, s, v, w);
  }

  lemma {:induction false} PreferredSame(k: Kconf, ch: ChoiceDef, i: nat, v: Env, w: Env)
    requires i <= |ch.defaults| && ch.members != [] && Agree(v, w, ChoiceDefaultNames(ch.defaults)) &&
             v.modules == w.modules
    ensures Preferred(ch, i, v) == Preferred(ch, i, w)
    decreases |ch.defaults| - i
  {
    if i < |ch.defaults| {
      ChoiceDefaultNamesHave(ch.defaults, i);
      CondAlike(k, ch.defaults[i].cond, v, w);
      PreferredSame(k, ch, i + 1, v, w);
    }
  }

  lemma {:induction false} PreferredKnown(k: Kconf, c: nat, i: nat, env: Env)
    requires WellFormed(k) && c in k.choices && k.choices[c].members != [] && i <= |k.choices[c].defaults|
    ensures Preferred(k.choices[c], i, env) in k.syms
    decreases |k.choices[c].defaults| - i
  {
    if i < |k.choices[c].defaults| {
      assert k.choices[c].defaults[i] in k.choices[c].defaults;
      PreferredKnown(k, c, i + 1, env);
    } else {
      assert k.choices[c].members[0] in k.choices[c].members;
    }
  }

  lemma {:induction false} FirstVisibleSame(k: Kconf, members: seq<string>, i: nat, v: Env, w: Env)
    requires i <= |members| && forall j {:trigger members[j]} :: 0 <= j < |members| ==>
             members[j] in k.syms && Vis(k, members[j], v) == Vis(k, members[j], w)
    ensures FirstVisible(k, members, i, v) == FirstVisible(k, members, i, w)
    ensures FirstVisible(k, members, i, v).Some? ==> FirstVisible(k, members, i, v).value in members
    decreases |members| - i
  {
    if i < |members| {
      FirstVisibleSame(k, members, i + 1, v, w);
    }
  }

  lemma ModeSame(k: Kconf, u: User, u': User, c: nat, v: Env, w: Env)
    requires c in k.choices && SameChoice(k, c, v, w) && SameChoiceUser(u, u', c)
    ensures Mode(k, u, c, v) == Mode(k, u', c, w)
  {
    ChoiceVisSame(k, c, v, w);
  }

  /** Exactly then the default selection is the same: the preferred default is hidden in both or in neither. */
  lemma DefaultSelectionExact(k: Kconf, c: nat, v: Env, w: Env)
    requires WellFormed(k) && c in k.choices && SameChoice(k, c, v, w) && k.choices[c].members != []
    ensures var p := Preferred(k.choices[c], 0, v);
            DefaultSelection(k, k.choices[c], v) == DefaultSelection(k, k.choices[c], w) <==>
              (Hidden(k, p, v) <==> Hidden(k, p, w))
  {
    var ch := k.choices[c];
    var p := Preferred(ch, 0, v);
    PreferredSame(k, ch, 0, v, w);
    PreferredKnown(k, c, 0, v);
    forall j | 0 <= j < |ch.members|
      ensures ch.members[j] in k.syms && Vis(k, ch.members[j], v) == Vis(k, ch.members[j], w)
    {
      assert ch.members[j] in k.choices[c].members;
      MemberVisSame(k, c, ch.members[j], v, w);
    }
    FirstVisibleSame(k, ch.members, 0, v, w);
    if p in ch.members {
      MemberVisSame(k, c, p, v, w);
    }
  }

  /** Exactly then the selection is the same. */
  lemma SelectionExact(k: Kconf, u: User, u': User, c: nat, v: Env, w: Env)
    requires WellFormed(k) && c in k.choices && SameChoice(k, c, v, w) && SameChoiceUser(u, u', c) && UserSelOk(k, u)
    ensures Selection(k, u, c, v) == Selection(k, u', c, w) <==> SamePreferred(k, u, c, v, w)
  {
    ModeSame(k, u, u', c, v, w);
    if c in u.sel {
      MemberVisSame(k, c, u.sel[c], v, w);
    }
    if k.choices[c].members != [] {
      DefaultSelectionExact(k, c, v, w);
    }
  }

  /** A member's value is the same if the selection is. */
  lemma MemberSame(k: Kconf, u: User, s: string, v: Env, w: Env)
    requires WellFormed(k) && s in k.syms && InChoice(k, s) && UserSelOk(k, u)
    requires SameChoice(k, k.syms[s].choice.value, v, w) && SamePreferred(k, u, k.syms[s].choice.value, v, w)
    ensures MemberResult(k, u, s, k.syms[s].choice.value, v) == MemberResult(k, u, s, k.syms[s].choice.value, w)
  {
    var c := k.syms[s].choice.value;
    assert s in k.choices[c].members;
    MemberVisSame(k, c, s, v, w);
    ModeSame(k, u, u, c, v, w);
    SelectionExact(k, u, u, c, v, w);
  }

  // ----- the value of a symbol -----

  /**
   The value of `s` is determined by its own expressions, those of its choice, what makes fellow members
   visible, and, where it is left to that, whether the preferred default is visible.
   */
  lemma ResultSame(k: Kconf, u: User, s: string, v: Env, w: Env)
    requires WellFormed(k) && s in k.syms && UserSelOk(k, u) && Agree(v, w, OwnReads(k, s)) &&
             SameModules(k, u, s, v, w)
    requires InChoice(k, s) ==>
             SameChoice(k, k.syms[s].choice.value, v, w) && SamePreferred(k, u, k.syms[s].choice.value, v, w)
    ensures ResultIn(k, u, s, v) == ResultIn(k, u, s, w)
  {
    PropsAlike(k, s, v, w);
    NumberSame(k, u, s, v, w);
    StringSame(k, u, s, v, w);
    if k.syms[s].typ == Bool || k.syms[s].typ == Tri {
      TruthSame(k, u, s, v, w);
    }
    if InChoice(k, s) {
      MemberSame(k, u, s, v, w);
    }
    ResultFrom(k, u, s, v, w);
  }

  /** The cases of get_value. */
  lemma ResultFrom(k: Kconf, u: User, s: string, v: Env, w: Env)
    requires s in k.syms && NumberResult(k, u, s, v) == NumberResult(k, u, s, w)
    requires StringResult(k, u, s, v) == StringResult(k, u, s, w)
    requires k.syms[s].typ == Bool || k.syms[s].typ == Tri ==> TruthResult(k, u, s, v) == TruthResult(k, u, s, w)
    requires InChoice(k, s) ==>
             MemberResult(k, u, s, k.syms[s].choice.value, v) == MemberResult(k, u, s, k.syms[s].choice.value, w)
    ensures ResultIn(k, u, s, v) == ResultIn(k, u, s, w)
  {}

  /** Only what is named, and modules, matter. */
  lemma ValueLocal(k: Kconf, u: User, s: string, v: Env, w: Env)
    requires WellFormed(k) && s in k.syms && UserSelOk(k, u) && Agree(v, w, PlainReads(k, s)) &&
             SameModules(k, u, s, v, w)
    ensures ResultIn(k, u, s, v) == ResultIn(k, u, s, w)
  {
    if InChoice(k, s) {
      var c := k.syms[s].choice.value;
      PreferredVisSame(k, c, v, w);
    }
    ResultSame(k, u, s, v, w);
  }

  lemma {:induction false} PreferredVisSame(k: Kconf, c: nat, v: Env, w: Env)
    requires WellFormed(k) && c in k.choices && v.modules == w.modules
    requires Agree(v, w, AllVisReads(k, DefaultSyms(k.choices[c].defaults))) &&
             Agree(v, w, AllVisReads(k, k.choices[c].members))
    ensures k.choices[c].members != [] ==>
            (Hidden(k, Preferred(k.choices[c], 0, v), v) <==> Hidden(k, Preferred(k.choices[c], 0, v), w))
  {
    var ch := k.choices[c];
    if ch.members != [] {
      PreferredWhere(ch, 0, v);
      var p := Preferred(ch, 0, v);
      PreferredKnown(k, c, 0, v);
      if p == ch.members[0] {
        AllVisReadsHave(k, ch.members, 0);
      } else {
        var i :| 0 <= i < |ch.defaults| && ch.defaults[i].sym == p;
        DefaultSymsAt(ch.defaults, i);
        AllVisReadsHave(k, DefaultSyms(ch.defaults), i);
      }
      VisSame(k, p, v, w);
    }
  }

  lemma {:induction false} PreferredWhere(ch: ChoiceDef, i: nat, env: Env)
    requires i <= |ch.defaults| && ch.members != []
    ensures Preferred(ch, i, env) == ch.members[0] ||
            exists j :: 0 <= j < |ch.defaults| && ch.defaults[j].sym == Preferred(ch, i, env)
    decreases |ch.defaults| - i
  {
    if i < |ch.defaults| {
      PreferredWhere(ch, i + 1, env);
    }
  }

  // ----- solutions -----

  /** A symbol that is no tristate never gets the value m. */
  lemma ResultNeverM(k: Kconf, u: User, s: string, env: Env)
    requires s in k.syms && NeverM(k, s) && (k.syms[s].typ == Bool || k.syms[s].typ == Tri)
    ensures ResultIn(k, u, s, env).val != "m"
  {}

  /** Values that come from the equations, for the symbols that have one. */
  ghost predicate Computed(k: Kconf, a: Assignment) {
    forall n {:trigger a[n]} ::
      n in a && n in k.syms && NeverM(k, n) && (k.syms[n].typ == Bool || k.syms[n].typ == Tri) ==> a[n] != "m"
  }

  lemma ComputedClean(k: Kconf, a: Assignment)
    requires Computed(k, a)
    ensures Clean(k, EnvOf(k, a))
  {}

  lemma SolutionClean(k: Kconf, u: User, a: Assignment)
    requires Solution(k, u, a)
    ensures Computed(k, a) && Clean(k, EnvOf(k, a))
  {
    forall n | n in a && n in k.syms && NeverM(k, n) && (k.syms[n].typ == Bool || k.syms[n].typ == Tri)
      ensures a[n] != "m"
    {
      ResultNeverM(k, u, n, EnvOf(k, a));
    }
    ComputedClean(k, a);
  }

  ghost predicate AgreeOn(a: Assignment, b: Assignment, names: set<string>) {
    forall n {:trigger n in names} :: n in names ==> (n in a <==> n in b) && (n in a ==> a[n] == b[n])
  }

  /** Two assignments that agree on everything `s` depends on give it the same value. */
  lemma ReadsDetermine(k: Kconf, u: User, a: Assignment, b: Assignment, s: string)
    requires WellFormed(k) && UserSelOk(k, u) && UserTyped(k, u) && s in k.syms && AgreeOn(a, b, Reads(k, s)) &&
             Computed(k, a)
    ensures ResultIn(k, u, s, EnvOf(k, a)) == ResultIn(k, u, s, EnvOf(k, b))
  {
    var v, w := EnvOf(k, a), EnvOf(k, b);
    ComputedClean(k, a);
    forall n | n in PlainReads(k, s)
      ensures v.tri(n) == w.tri(n) && v.str(n) == w.str(n)
    {
      assert n in Reads(k, s);
    }
    if !TwoValued(k, s) && "MODULES" in k.syms {
      assert "MODULES" in Reads(k, s);
    }
    ValueLocal(k, u, s, v, w);
  }

  lemma {:induction false} SolutionsAgree(k: Kconf, u: User, rank: string -> nat, a: Assignment, b: Assignment,
                                          s: string)
    requires WellFormed(k) && UserSelOk(k, u) && UserTyped(k, u) && Ordered(k, rank) && Solution(k, u, a) &&
             Solution(k, u, b) && s in k.syms
    ensures a[s] == b[s]
    decreases rank(s)
  {
    forall n | n in Reads(k, s)
      ensures (n in a <==> n in b) && (n in a ==> a[n] == b[n])
    {
      if n in k.syms {
        SolutionsAgree(k, u, rank, a, b, n);
      }
    }
    SolutionClean(k, u, a);
    ReadsDetermine(k, u, a, b, s);
    assert a[s] == ResultIn(k, u, s, EnvOf(k, a)).val && b[s] == ResultIn(k, u, s, EnvOf(k, b)).val;
  }

  /** At most one assignment satisfies all equations. */
  lemma SolutionUnique(k: Kconf, u: User, rank: string -> nat, a: Assignment, b: Assignment)
    requires WellFormed(k) && UserSelOk(k, u) && UserTyped(k, u) && Ordered(k, rank) && Solution(k, u, a) &&
             Solution(k, u, b)
    ensures a == b
  {
    forall s | s in k.syms
      ensures a[s] == b[s]
    {
      SolutionsAgree(k, u, rank, a, b, s);
    }
  }

  /** The equations hold for the symbols of rank below `n`, and only those have a value. */
  ghost predicate SolvesBelow(k: Kconf, u: User, rank: string -> nat, n: nat, a: Assignment) {
    && (forall s {:trigger s in a} :: s in a <==> s in k.syms && rank(s) < n)
    && forall s {:trigger ResultIn(k, u, s, EnvOf(k, a))} :: s in a ==> a[s] == ResultIn(k, u, s, EnvOf(k, a)).val
  }

  /** `b` extends `a` to the symbols of rank `n`. */
  ghost predicate Extends(k: Kconf, u: User, rank: string -> nat, n: nat, a: Assignment, b: Assignment)
    requires forall s {:trigger s in a} :: s in a <==> s in k.syms && rank(s) < n
  {
    && (forall s {:trigger s in b} :: s in b <==> s in k.syms && rank(s) <= n)
    && forall s {:trigger b[s]} :: s in b ==> b[s] == if rank(s) < n then a[s] else ResultIn(k, u, s, EnvOf(k, a)).val
  }

  lemma ExtendsSolves(k: Kconf, u: User, rank: string -> nat, n: nat, a: Assignment, b: Assignment, s: string)
    requires WellFormed(k) && UserSelOk(k, u) && UserTyped(k, u) && Ordered(k, rank) && s in k.syms && rank(s) <= n
    requires SolvesBelow(k, u, rank, n, a) && Computed(k, a) && Extends(k, u, rank, n, a, b)
    ensures b[s] == ResultIn(k, u, s, EnvOf(k, b)).val
  {
    forall x | x in Reads(k, s)
      ensures (x in a <==> x in b) && (x in a ==> a[x] == b[x])
    {
      assert rank(x) < rank(s);
    }
    ReadsDetermine(k, u, a, b, s);
  }

  lemma ExtendsComputed(k: Kconf, u: User, rank: string -> nat, n: nat, a: Assignment, b: Assignment)
    requires SolvesBelow(k, u, rank, n, a) && Computed(k, a) && Extends(k, u, rank, n, a, b)
    ensures Computed(k, b)
  {
    forall x | x in b && x in k.syms && NeverM(k, x) && (k.syms[x].typ == Bool || k.syms[x].typ == Tri)
      ensures b[x] != "m"
    {
      ResultNeverM(k, u, x, EnvOf(k, a));
    }
  }

  lemma {:induction false} Solve(k: Kconf, u: User, rank: string -> nat, n: nat) returns (a: Assignment)
    requires WellFormed(k) && UserSelOk(k, u) && UserTyped(k, u) && Ordered(k, rank)
    ensures SolvesBelow(k, u, rank, n, a) && Computed(k, a)
  {
    a := map[];
    if n > 0 {
      var below := Solve(k, u, rank, n - 1);
      a := map s | s in k.syms && rank(s) < n ::
             if rank(s) < n - 1 then below[s] else ResultIn(k, u, s, EnvOf(k, below)).val;
      ExtendsComputed(k, u, rank, n - 1, below, a);
      forall s | s in a
        ensures a[s] == ResultIn(k, u, s, EnvOf(k, a)).val
      {
        ExtendsSolves(k, u, rank, n - 1, below, a, s);
      }
    }
  }

  lemma {:induction false} TopRank(ss: set<string>, rank: string -> nat) returns (n: nat)
    ensures forall s :: s in ss ==> rank(s) < n
  {
    n := 0;
    if ss != {} {
      var x :| x in ss;
      n := TopRank(ss - {x}, rank);
      n := if rank(x) < n then n else rank(x) + 1;
    }
  }

  /** At least one assignment satisfies all equations. */
  lemma SolutionExists(k: Kconf, u: User, rank: string -> nat) returns (a: Assignment)
    requires WellFormed(k) && UserSelOk(k, u) && UserTyped(k, u) && Ordered(k, rank)
    ensures Solution(k, u, a)
  {
    var n := TopRank(k.syms.Keys, rank);
    a := Solve(k, u, rank, n);
    assert a.Keys == k.syms.Keys;
  }
}
