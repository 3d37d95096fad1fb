/**
 What Symbol.get_value (support/scripts/kconfiglib.py) promises, said without following its loops: which prompts,
 defaults, user values, choices and reverse dependencies lift a symbol to m or to y, which text a string or number has,
 and when write_to_conf is set.
 */
module KMeaning {
  import opened Tristates
  import opened KExpr
  import opened KModel

  /** At least `t`, where m is as good as y without modules. */
  predicate At(env: Env, x: Tristate, t: Tristate) { x >= t || (x == MOD && !env.modules) }

  ghost predicate PromptAt(ps: seq<Cond>, env: Env, t: Tristate) {
    exists c :: c in ps && At(env, EvalCond(c, env), t)
  }

  /** The symbol and the choice around it have a prompt at `t` or above; only tristates tell m from y. */
  ghost predicate ShownAt(k: Kconf, s: string, env: Env, t: Tristate)
    requires s in k.syms
  {
    var own := if k.syms[s].typ == Tri then t else MOD;
    && PromptAt(k.syms[s].prompts, env, own)
    && (InChoice(k, s) ==>
          var ch := k.choices[k.syms[s].choice.value];
          PromptAt(ch.prompts, env, if ch.typ == Tri then own else MOD))
  }

  // ----- bool and tristate symbols -----

  /** Default `i` is the first whose condition is not n. */
  predicate IsFirstDefault(ds: seq<Default>, env: Env, i: int) {
    0 <= i < |ds| && EvalCond(ds[i].cond, env) != NO && forall j :: 0 <= j < i ==> EvalCond(ds[j].cond, env) == NO
  }

  ghost predicate SomeDefault(ds: seq<Default>, env: Env) {
    exists d :: d in ds && EvalCond(d.cond, env) != NO
  }

  /** The first active default and its condition are both at `t` or above. */
  ghost predicate DefaultAt(ds: seq<Default>, env: Env, t: Tristate) {
    exists i :: IsFirstDefault(ds, env, i) && At(env, EvalCond(ds[i].cond, env), t) && At(env, Eval(ds[i].val, env), t)
  }

  ghost predicate SelectedAt(k: Kconf, s: string, env: Env, t: Tristate)
    requires s in k.syms
  {
    At(env, Eval(k.syms[s].revDep, env), t)
  }

  /** Selected, or assigned and shown, or else by default. */
  ghost predicate Reaches(k: Kconf, u: User, s: string, env: Env, t: Tristate)
    requires s in k.syms
  {
    || SelectedAt(k, s, env, t)
    || if s in u.val && ShownAt(k, s, env, MOD) then At(env, TriOf(u.val[s]), t) && ShownAt(k, s, env, t)
       else DefaultAt(k.syms[s].defaults, env, t)
  }

  /** A tristate outside choices has the highest value it reaches; a bool is y as soon as it reaches m. */
  ghost predicate TruthMeans(k: Kconf, u: User, s: string, env: Env, r: Result)
    requires s in k.syms
  {
    && r.val in {"n", "m", "y"}
    && (r.val != "n" <==> Reaches(k, u, s, env, MOD))
    && (r.val == "y" <==> Reaches(k, u, s, env, if k.syms[s].typ == Bool then MOD else YES))
    && (r.write <==> SelectedAt(k, s, env, MOD) || ShownAt(k, s, env, MOD) || SomeDefault(k.syms[s].defaults, env))
  }

  // ----- members of choices -----

  /** The mode of the choice is `t` or above. */
  ghost predicate ModeAt(k: Kconf, u: User, c: nat, env: Env, t: Tristate)
    requires c in k.choices
  {
    var ch := k.choices[c];
    var wanted := if c in u.mode then u.mode[c] else if ch.isOptional then NO else MOD;
    && At(env, wanted, if ch.typ == Bool then MOD else t)
    && PromptAt(ch.prompts, env, if ch.typ == Tri then t else MOD)
  }

  predicate IsFirstChoiceDefault(ds: seq<ChoiceDefault>, env: Env, i: int) {
    0 <= i < |ds| && EvalCond(ds[i].cond, env) != NO && forall j :: 0 <= j < i ==> EvalCond(ds[j].cond, env) == NO
  }

  /** The symbol of the first active default, or the first member if no default is active. */
  ghost predicate IsPreferred(ch: ChoiceDef, env: Env, p: string)
    requires ch.members != []
  {
    if exists i :: IsFirstChoiceDefault(ch.defaults, env, i)
    then exists i :: IsFirstChoiceDefault(ch.defaults, env, i) && p == ch.defaults[i].sym
    else p == ch.members[0]
  }

  ghost predicate Shown(k: Kconf, s: string, env: Env) { s in k.syms && ShownAt(k, s, env, MOD) }

  ghost predicate IsFirstShown(k: Kconf, members: seq<string>, env: Env, i: int) {
    0 <= i < |members| && Shown(k, members[i], env) && forall j :: 0 <= j < i ==> !Shown(k, members[j], env)
  }

  /** The symbol `p` if it is shown, else the first member that is. */
  ghost predicate Instead(k: Kconf, ch: ChoiceDef, env: Env, p: string, s: string) {
    if Shown(k, p, env) then s == p else exists i :: IsFirstShown(k, ch.members, env, i) && s == ch.members[i]
  }

  /** The choice defaults to its preferred symbol if that is shown, else to the first member that is. */
  ghost predicate DefaultsTo(k: Kconf, ch: ChoiceDef, env: Env, s: string) {
    ch.members != [] && exists p :: IsPreferred(ch, env, p) && Instead(k, ch, env, p, s)
  }

  /** In y mode the user's symbol is selected if it is shown as y, else the default unless the choice is optional. */
  ghost predicate IsSelected(k: Kconf, u: User, c: nat, env: Env, s: string)
    requires c in k.choices
  {
    && ModeAt(k, u, c, env, YES)
    && if c in u.sel && u.sel[c] in k.syms && ShownAt(k, u.sel[c], env, YES) then s == u.sel[c]
       else !k.choices[c].isOptional && DefaultsTo(k, k.choices[c], env, s)
  }

  /** In y mode a shown member is y if it is selected; in m mode if the user has set it, it is m, or y if a bool. */
  ghost predicate MemberMeans(k: Kconf, u: User, s: string, c: nat, env: Env, r: Result)
    requires s in k.syms && c in k.choices
  {
    var inM := ModeAt(k, u, c, env, MOD) && !ModeAt(k, u, c, env, YES) && s in u.val && u.val[s] in {"m", "y"};
    && r.val in {"n", "m", "y"}
    && (r.val == "y" <==> Shown(k, s, env) && (IsSelected(k, u, c, env, s) || (inM && k.syms[s].typ == Bool)))
    && (r.val == "m" <==> Shown(k, s, env) && inM && k.syms[s].typ != Bool)
    && (r.write <==> Shown(k, s, env) && ModeAt(k, u, c, env, MOD))
  }

  // ----- strings and numbers -----

  /** The user's text if a prompt is shown, else that of the first active default, else nothing. */
  ghost predicate StringMeans(k: Kconf, u: User, s: string, env: Env, r: Result)
    requires s in k.syms
  {
    var ds := k.syms[s].defaults;
    && (if s in u.val && ShownAt(k, s, env, MOD) then r.val == u.val[s]
        else
          && (forall i :: IsFirstDefault(ds, env, i) ==> r.val == LeafStr(ds[i].val, env))
          && (!SomeDefault(ds, env) ==> r.val == ""))
    && (r.write <==> ShownAt(k, s, env, MOD) || SomeDefault(ds, env))
  }

  predicate IsFirstRange(rs: seq<Range>, env: Env, i: int) {
    0 <= i < |rs| && EvalCond(rs[i].cond, env) != NO && forall j :: 0 <= j < i ==> EvalCond(rs[j].cond, env) == NO
  }

  /** The bounds of the first active range. */
  ghost predicate BoundsAre(k: Kconf, s: string, env: Env, b: Bounds)
    requires s in k.syms
  {
    var rs, base := k.syms[s].ranges, BaseOf(k.syms[s].typ);
    if exists i :: IsFirstRange(rs, env, i)
    then exists i :: IsFirstRange(rs, env, i) &&
           b == Within(Number(k, AtomStr(rs[i].low, env), base), Number(k, AtomStr(rs[i].high, env), base))
    else b == Unbounded
  }

  /** Default `i` is active and a number. */
  predicate IsNumber(k: Kconf, typ: KType, ds: seq<Default>, env: Env, i: int) {
    0 <= i < |ds| && EvalCond(ds[i].cond, env) != NO && k.parse(LeafStr(ds[i].val, env), BaseOf(typ)).Some?
  }

  /** `text` moved into the bounds, the lower one first. */
  predicate MovedInto(k: Kconf, typ: KType, text: string, b: Bounds, x: string) {
    var n := Number(k, text, BaseOf(typ));
    if b.Within? && n < b.low then x == k.show(typ, b.low)
    else if b.Within? && n > b.high then x == k.show(typ, b.high)
    else x == text
  }

  /** Default `j` is the first from index `i` on that is a number. */
  ghost predicate IsFirstNumber(k: Kconf, typ: KType, ds: seq<Default>, env: Env, i: nat, j: int) {
    i <= j && IsNumber(k, typ, ds, env, j) && forall l :: i <= l < j ==> !IsNumber(k, typ, ds, env, l)
  }

  ghost predicate SomeNumber(k: Kconf, typ: KType, ds: seq<Default>, env: Env, i: nat) {
    exists j :: i <= j && IsNumber(k, typ, ds, env, j)
  }

  ghost predicate SomeFrom(ds: seq<Default>, env: Env, i: nat) {
    exists j :: i <= j < |ds| && EvalCond(ds[j].cond, env) != NO
  }

  /** `x` is the text of the last active default from index `i` on, or `cur` if there is none. */
  ghost predicate IsLastText(ds: seq<Default>, env: Env, i: nat, cur: string, x: string) {
    if SomeFrom(ds, env, i)
    then exists j :: i <= j < |ds| && EvalCond(ds[j].cond, env) != NO && !SomeFrom(ds, env, j + 1) &&
                     x == LeafStr(ds[j].val, env)
    else x == cur
  }

  /**
   What the defaults give a number from index `i` on: the first that is one, else a positive lower bound, else the last
   active default as it is. `cur` is the text and the flag before.
   */
  ghost predicate DefaultMeans(k: Kconf, typ: KType, ds: seq<Default>, i: nat, b: Bounds, cur: Result, env: Env,
                               r: Result)
  {
    && (if SomeNumber(k, typ, ds, env, i)
        then exists j :: IsFirstNumber(k, typ, ds, env, i, j) && MovedInto(k, typ, LeafStr(ds[j].val, env), b, r.val)
        else if b.Within? && b.low > 0 then r.val == k.show(typ, b.low)
        else IsLastText(ds, env, i, cur.val, r.val))
    && (r.write <==> cur.write || SomeFrom(ds, env, i))
  }

  /** The user's number if a prompt is shown and it lies within the bounds, else what the defaults give. */
  ghost predicate NumberMeans(k: Kconf, u: User, s: string, env: Env, r: Result)
    requires s in k.syms
  {
    var d, shown := k.syms[s], ShownAt(k, s, env, MOD);
    exists b :: BoundsAre(k, s, env, b) &&
      if shown && s in u.val && UserNumberOk(k, u.val[s], BaseOf(d.typ), b) then r == Result(u.val[s], true)
      else DefaultMeans(k, d.typ, d.defaults, 0, b, Result("", shown), env, r)
  }

  /** The value and the flag of a symbol that is not special. */
  ghost predicate Means(k: Kconf, u: User, s: string, env: Env, r: Result)
    requires s in k.syms
  {
    match k.syms[s].typ
    case Unknown => r.val == s && !r.write
    case Str => StringMeans(k, u, s, env, r)
    case Hex => NumberMeans(k, u, s, env, r)
    case Int => NumberMeans(k, u, s, env, r)
    case _ =>
      if InChoice(k, s) then MemberMeans(k, u, s, k.syms[s].choice.value, env, r) else TruthMeans(k, u, s, env, r)
  }

  // ----- the loops compute it: prompts and truth values -----

  lemma {:induction false} PromptVisIs(ps: seq<Cond>, i: nat, acc: Tristate, env: Env, t: Tristate)
    requires i <= |ps| && t != NO && (acc == MOD ==> env.modules)
    ensures PromptVis(ps, i, acc, env) >= t <==> acc >= t || PromptAt(ps[i..], env, t)
    ensures PromptVis(ps, i, acc, env) == MOD ==> env.modules
    decreases |ps| - i
  {
    if i < |ps| {
      PromptVisIs(ps, i + 1, LiftMax(env, acc, EvalCond(ps[i], env)), env, t);
      assert ps[i..] == [ps[i]] + ps[i + 1..];
      assert forall c :: c in ps[i + 1..] ==> c in ps[i..];
      assert ps[i] in ps[i..];
    }
  }

  lemma PromptsAre(ps: seq<Cond>, env: Env)
    ensures var v := PromptVis(ps, 0, NO, env);
            && (v >= MOD <==> PromptAt(ps, env, MOD)) && (v == YES <==> PromptAt(ps, env, YES))
            && (v == MOD ==> env.modules)
  {
    assert ps[0..] == ps;
    PromptVisIs(ps, 0, NO, env, MOD);
    PromptVisIs(ps, 0, NO, env, YES);
  }

  lemma VisIs(k: Kconf, s: string, env: Env)
    requires s in k.syms
    ensures Vis(k, s, env) >= MOD <==> ShownAt(k, s, env, MOD)
    ensures Vis(k, s, env) == YES <==> ShownAt(k, s, env, YES)
    ensures Vis(k, s, env) == MOD ==> env.modules && k.syms[s].typ == Tri
  {
    PromptsAre(k.syms[s].prompts, env);
    if InChoice(k, s) {
      PromptsAre(k.choices[k.syms[s].choice.value].prompts, env);
    }
  }

  lemma {:induction false} ActiveDefaultIs(ds: seq<Default>, i: nat, env: Env)
    requires i <= |ds| && forall j :: 0 <= j < i ==> EvalCond(ds[j].cond, env) == NO
    ensures var r := ActiveDefault(ds, i, env);
            if r.Some? then IsFirstDefault(ds, env, r.value)
            else forall j :: 0 <= j < |ds| ==> EvalCond(ds[j].cond, env) == NO
    decreases |ds| - i
  {
    if i < |ds| && EvalCond(ds[i].cond, env) == NO {
      ActiveDefaultIs(ds, i + 1, env);
    }
  }

  lemma DefaultsAre(ds: seq<Default>, env: Env)
    ensures var r := ActiveDefault(ds, 0, env);
            && (r.Some? <==> SomeDefault(ds, env))
            && (forall i :: IsFirstDefault(ds, env, i) <==> r == Some(i))
  {
    ActiveDefaultIs(ds, 0, env);
    var r := ActiveDefault(ds, 0, env);
    if r.Some? {
      assert ds[r.value] in ds;
    }
  }

  lemma TruthIs(k: Kconf, u: User, s: string, env: Env)
    requires s in k.syms && k.syms[s].typ in {Bool, Tri} && k.syms[s].special.None? && !InChoice(k, s)
    ensures TruthMeans(k, u, s, env, ResultIn(k, u, s, env))
  {
    VisIs(k, s, env);
    DefaultsAre(k.syms[s].defaults, env);
  }

  // ----- members of choices -----

  lemma {:induction false} PreferredIs(ch: ChoiceDef, i: nat, env: Env)
    requires i <= |ch.defaults| && ch.members != []
    requires forall j :: 0 <= j < i ==> EvalCond(ch.defaults[j].cond, env) == NO
    ensures IsPreferred(ch, env, Preferred(ch, i, env))
    decreases |ch.defaults| - i
  {
    if i < |ch.defaults| {
      if EvalCond(ch.defaults[i].cond, env) == NO {
        PreferredIs(ch, i + 1, env);
      } else {
        assert IsFirstChoiceDefault(ch.defaults, env, i);
      }
    }
  }

  lemma OnePreferred(ch: ChoiceDef, env: Env, p: string, q: string)
    requires ch.members != [] && IsPreferred(ch, env, p) && IsPreferred(ch, env, q)
    ensures p == q
  {
    if exists i :: IsFirstChoiceDefault(ch.defaults, env, i) {
      var i :| IsFirstChoiceDefault(ch.defaults, env, i) && p == ch.defaults[i].sym;
      var j :| IsFirstChoiceDefault(ch.defaults, env, j) && q == ch.defaults[j].sym;
      assert i == j;
    }
  }

  lemma {:induction false} FirstVisibleIs(k: Kconf, members: seq<string>, i: nat, env: Env)
    requires i <= |members| && forall j :: 0 <= j < i ==> !Shown(k, members[j], env)
    ensures var r := FirstVisible(k, members, i, env);
            if r.Some? then exists j :: IsFirstShown(k, members, env, j) && r.value == members[j]
            else forall j :: 0 <= j < |members| ==> !Shown(k, members[j], env)
    decreases |members| - i
  {
    if i < |members| {
      if members[i] in k.syms {
        VisIs(k, members[i], env);
      }
      if Shown(k, members[i], env) {
        assert IsFirstShown(k, members, env, i);
      } else {
        FirstVisibleIs(k, members, i + 1, env);
      }
    }
  }

  lemma OneFirstShown(k: Kconf, members: seq<string>, env: Env, i: int, j: int)
    requires IsFirstShown(k, members, env, i) && IsFirstShown(k, members, env, j)
    ensures i == j
  {}

  lemma InsteadIs(k: Kconf, ch: ChoiceDef, env: Env, p: string, s: string)
    ensures Instead(k, ch, env, p, s) <==>
            Some(s) == if p in k.syms && Vis(k, p, env) != NO then Some(p) else FirstVisible(k, ch.members, 0, env)
  {
    if p in k.syms {
      VisIs(k, p, env);
    }
    FirstVisibleIs(k, ch.members, 0, env);
    if !Shown(k, p, env) && Instead(k, ch, env, p, s) {
      var i :| IsFirstShown(k, ch.members, env, i) && s == ch.members[i];
      var r := FirstVisible(k, ch.members, 0, env);
      var j :| IsFirstShown(k, ch.members, env, j) && r.value == ch.members[j];
      OneFirstShown(k, ch.members, env, i, j);
    }
  }

  /** Choice._get_default_selection */
  lemma DefaultSelectionIs(k: Kconf, ch: ChoiceDef, env: Env, s: string)
    ensures DefaultSelection(k, ch, env) == Some(s) <==> DefaultsTo(k, ch, env, s)
  {
    if ch.members != [] {
      var p := Preferred(ch, 0, env);
      PreferredIs(ch, 0, env);
      InsteadIs(k, ch, env, p, s);
      if DefaultsTo(k, ch, env, s) {
        var q :| IsPreferred(ch, env, q) && Instead(k, ch, env, q, s);
        OnePreferred(ch, env, p, q);
      }
    }
  }

  lemma ModeIs(k: Kconf, u: User, c: nat, env: Env)
    requires c in k.choices
    ensures Mode(k, u, c, env) >= MOD <==> ModeAt(k, u, c, env, MOD)
    ensures Mode(k, u, c, env) == YES <==> ModeAt(k, u, c, env, YES)
  {
    PromptsAre(k.choices[c].prompts, env);
  }

  /** Choice.get_selection */
  lemma SelectionIs(k: Kconf, u: User, c: nat, env: Env, s: string)
    requires c in k.choices
    ensures Selection(k, u, c, env) == Some(s) <==> IsSelected(k, u, c, env, s)
  {
    ModeIs(k, u, c, env);
    DefaultSelectionIs(k, k.choices[c], env, s);
    if c in u.sel && u.sel[c] in k.syms {
      VisIs(k, u.sel[c], env);
    }
  }

  lemma MemberIs(k: Kconf, u: User, s: string, env: Env)
    requires s in k.syms && k.syms[s].typ in {Bool, Tri} && k.syms[s].special.None? && InChoice(k, s)
    ensures MemberMeans(k, u, s, k.syms[s].choice.value, env, ResultIn(k, u, s, env))
  {
    var c := k.syms[s].choice.value;
    VisIs(k, s, env);
    ModeIs(k, u, c, env);
    SelectionIs(k, u, c, env, s);
  }

  // ----- strings and numbers -----

  lemma StringIs(k: Kconf, u: User, s: string, env: Env)
    requires s in k.syms
    ensures forall r :: StringMeans(k, u, s, env, r) <==> r == StringResult(k, u, s, env)
  {
    VisIs(k, s, env);
    DefaultsAre(k.syms[s].defaults, env);
  }

  lemma {:induction false} ActiveBoundsIs(k: Kconf, rs: seq<Range>, i: nat, base: nat, env: Env)
    requires i <= |rs| && forall j :: 0 <= j < i ==> EvalCond(rs[j].cond, env) == NO
    ensures var b := ActiveBounds(k, rs, i, base, env);
            if b.Within?
            then exists j :: IsFirstRange(rs, env, j) &&
                   b == Within(Number(k, AtomStr(rs[j].low, env), base), Number(k, AtomStr(rs[j].high, env), base))
            else forall j :: 0 <= j < |rs| ==> EvalCond(rs[j].cond, env) == NO
    decreases |rs| - i
  {
    if i < |rs| {
      if EvalCond(rs[i].cond, env) == NO {
        ActiveBoundsIs(k, rs, i + 1, base, env);
      } else {
        assert IsFirstRange(rs, env, i);
      }
    }
  }

  lemma BoundsIs(k: Kconf, s: string, env: Env, b: Bounds)
    requires s in k.syms
    ensures BoundsAre(k, s, env, b) <==> b == ActiveBounds(k, k.syms[s].ranges, 0, BaseOf(k.syms[s].typ), env)
  {
    var rs, base := k.syms[s].ranges, BaseOf(k.syms[s].typ);
    ActiveBoundsIs(k, rs, 0, base, env);
    if i :| IsFirstRange(rs, env, i) {
      assert forall j :: IsFirstRange(rs, env, j) ==> j == i;
    }
  }

  lemma SomeNumberNext(k: Kconf, typ: KType, ds: seq<Default>, env: Env, i: nat)
    ensures SomeNumber(k, typ, ds, env, i) <==> IsNumber(k, typ, ds, env, i) || SomeNumber(k, typ, ds, env, i + 1)
  {}

  lemma SomeFromNext(ds: seq<Default>, env: Env, i: nat)
    requires i < |ds|
    ensures SomeFrom(ds, env, i) <==> EvalCond(ds[i].cond, env) != NO || SomeFrom(ds, env, i + 1)
  {}

  lemma FirstNumberNext(k: Kconf, typ: KType, ds: seq<Default>, env: Env, i: nat, j: int)
    requires !IsNumber(k, typ, ds, env, i)
    ensures IsFirstNumber(k, typ, ds, env, i, j) <==> IsFirstNumber(k, typ, ds, env, i + 1, j)
  {
    assert IsFirstNumber(k, typ, ds, env, i, j) ==> i != j;
  }

  lemma FirstNumberHere(k: Kconf, typ: KType, ds: seq<Default>, env: Env, i: nat, j: int)
    requires IsNumber(k, typ, ds, env, i)
    ensures IsFirstNumber(k, typ, ds, env, i, j) <==> j == i
  {}

  lemma LastTextNext(ds: seq<Default>, env: Env, i: nat, cur: string, x: string)
    requires i < |ds|
    ensures IsLastText(ds, env, i, cur, x) <==>
            IsLastText(ds, env, i + 1, if EvalCond(ds[i].cond, env) != NO then LeafStr(ds[i].val, env) else cur, x)
  {
    SomeFromNext(ds, env, i);
    if EvalCond(ds[i].cond, env) != NO && !SomeFrom(ds, env, i + 1) {
      forall j | i <= j < |ds| && EvalCond(ds[j].cond, env) != NO
        ensures j == i
      {
        assert j < i + 1;
      }
    }
  }

  /** A default that is no number is remembered if it is active. */
  lemma DefaultPassed(k: Kconf, typ: KType, ds: seq<Default>, i: nat, b: Bounds, cur: Result, env: Env, r: Result)
    requires i < |ds| && !IsNumber(k, typ, ds, env, i)
    ensures var next := if EvalCond(ds[i].cond, env) == NO then cur else Result(LeafStr(ds[i].val, env), true);
            DefaultMeans(k, typ, ds, i, b, cur, env, r) <==> DefaultMeans(k, typ, ds, i + 1, b, next, env, r)
  {
    SomeNumberNext(k, typ, ds, env, i);
    SomeFromNext(ds, env, i);
    LastTextNext(ds, env, i, cur.val, r.val);
    forall j { FirstNumberNext(k, typ, ds, env, i, j); }
  }

  lemma DefaultTaken(k: Kconf, typ: KType, ds: seq<Default>, i: nat, b: Bounds, cur: Result, env: Env, r: Result)
    requires i < |ds| && IsNumber(k, typ, ds, env, i)
    ensures DefaultMeans(k, typ, ds, i, b, cur, env, r) <==>
            r == Result(Clamp(k, typ, LeafStr(ds[i].val, env), b), true)
  {
    SomeNumberNext(k, typ, ds, env, i);
    SomeFromNext(ds, env, i);
    forall j { FirstNumberHere(k, typ, ds, env, i, j); }
  }

  lemma {:induction false} NumberDefaultIs(k: Kconf, typ: KType, ds: seq<Default>, i: nat, b: Bounds, cur: Result,
                                           env: Env, r: Result)
    requires i <= |ds|
    ensures DefaultMeans(k, typ, ds, i, b, cur, env, r) <==> r == NumberDefault(k, typ, ds, i, b, cur, env)
    decreases |ds| - i
  {
    if i < |ds| {
      var text := LeafStr(ds[i].val, env);
      if IsNumber(k, typ, ds, env, i) {
        DefaultTaken(k, typ, ds, i, b, cur, env, r);
      } else {
        DefaultPassed(k, typ, ds, i, b, cur, env, r);
        NumberDefaultIs(k, typ, ds, i + 1, b,
                        if EvalCond(ds[i].cond, env) == NO then cur else Result(text, true), env, r);
      }
    }
  }

  lemma NumberIs(k: Kconf, u: User, s: string, env: Env, r: Result)
    requires s in k.syms
    ensures NumberMeans(k, u, s, env, r) <==> r == NumberResult(k, u, s, env)
  {
    var d := k.syms[s];
    var b := ActiveBounds(k, d.ranges, 0, BaseOf(d.typ), env);
    VisIs(k, s, env);
    forall b' { BoundsIs(k, s, env, b'); }
    NumberDefaultIs(k, d.typ, d.defaults, 0, b, Result("", ShownAt(k, s, env, MOD)), env, r);
  }

  /** get_value gives exactly this. */
  lemma ResultIs(k: Kconf, u: User, s: string, env: Env, r: Result)
    requires s in k.syms && k.syms[s].special.None?
    ensures r == ResultIn(k, u, s, env) <==> Means(k, u, s, env, r)
  {
    match k.syms[s].typ
    case Unknown =>
    case Str => StringIs(k, u, s, env);
    case Hex => NumberIs(k, u, s, env, r);
    case Int => NumberIs(k, u, s, env, r);
    case _ =>
      if InChoice(k, s) {
        MemberIs(k, u, s, env);
      } else {
        TruthIs(k, u, s, env);
      }
  }

  /** The value of a symbol means what it should, given the values of the others. */
  ghost predicate ValueMeans(k: Kconf, u: User, a: Assignment, s: string)
    requires s in k.syms && s in a
  {
    match k.syms[s].special
    case Some(v) => a[s] == v
    case None => exists w :: Means(k, u, s, EnvOf(k, a), Result(a[s], w))
  }

  lemma ValueIs(k: Kconf, u: User, a: Assignment, s: string)
    requires s in k.syms && s in a
    ensures a[s] == ResultIn(k, u, s, EnvOf(k, a)).val <==> ValueMeans(k, u, a, s)
  {
    var env := EnvOf(k, a);
    if k.syms[s].special.None? {
      var r := ResultIn(k, u, s, env);
      ResultIs(k, u, s, env, r);
      ResultIs(k, u, s, env, Result(a[s], true));
      ResultIs(k, u, s, env, Result(a[s], false));
      if a[s] == r.val {
        assert Means(k, u, s, env, Result(a[s], r.write));
      }
    }
  }

  /** The values are a solution exactly if each means what it should. */
  lemma SolutionMeans(k: Kconf, u: User, a: Assignment)
    ensures Solution(k, u, a) <==> a.Keys == k.syms.Keys && forall s :: s in k.syms ==> ValueMeans(k, u, a, s)
  {
    if a.Keys == k.syms.Keys {
      forall s | s in k.syms
        ensures a[s] == ResultIn(k, u, s, EnvOf(k, a)).val <==> ValueMeans(k, u, a, s)
      {
        ValueIs(k, u, a, s);
      }
    }
  }

  // ----- reverse dependencies -----

  /** A symbol outside choices is at least what selects it, and is then written. */
  lemma SelectedValue(k: Kconf, u: User, a: Assignment, s: string)
    requires Solution(k, u, a) && s in k.syms && k.syms[s].special.None? && !InChoice(k, s) &&
             k.syms[s].typ in {Bool, Tri}
    ensures var env := EnvOf(k, a);
            var rev := Lift(env, Eval(k.syms[s].revDep, env));
            && TriOf(a[s]) >= rev
            && (rev != NO ==> ResultIn(k, u, s, env).write)
  {
    var env := EnvOf(k, a);
    TruthIs(k, u, s, env);
    assert a[s] == ResultIn(k, u, s, env).val;
  }

  /** Without shown prompt and active default it is what selects it, m raised to y for bools. */
  lemma OnlySelected(k: Kconf, u: User, a: Assignment, s: string)
    requires Solution(k, u, a) && s in k.syms && k.syms[s].special.None? && !InChoice(k, s) &&
             k.syms[s].typ in {Bool, Tri}
    requires var env := EnvOf(k, a); !ShownAt(k, s, env, MOD) && !SomeDefault(k.syms[s].defaults, env)
    ensures var env := EnvOf(k, a);
            var rev := Lift(env, Eval(k.syms[s].revDep, env));
            && TriOf(a[s]) == (if rev == MOD && k.syms[s].typ == Bool then YES else rev)
            && (ResultIn(k, u, s, env).write <==> rev != NO)
  {
    var env := EnvOf(k, a);
    TruthIs(k, u, s, env);
    DefaultsAre(k.syms[s].defaults, env);
    assert a[s] == ResultIn(k, u, s, env).val;
  }
}
