/**
 What the value of a symbol is, in Kconfiglib's terms (support/scripts/kconfiglib.py: Symbol.get_value,
 _HasVisibility._get_visibility, Choice.get_mode, Choice.get_selection). Each value is given by an
 equation over the values of other symbols; caching does not appear here.
 */
module KModel {
  import opened Tristates
  import opened KExpr

  datatype KType = Unknown | Bool | Tri | Str | Hex | Int

  datatype Default = Default(val: Expr, cond: Cond)
  datatype Range = Range(low: Atom, high: Atom, cond: Cond)
  datatype ChoiceDefault = ChoiceDefault(sym: string, cond: Cond)

  /** `special` is the fixed value of n, m, y and of symbols from the environment. */
  datatype SymDef = SymDef(typ: KType, prompts: seq<Cond>, defaults: seq<Default>, revDep: Expr, ranges: seq<Range>,
                           choice: Option<nat>, special: Option<string>)

  datatype ChoiceDef = ChoiceDef(typ: KType, prompts: seq<Cond>, defaults: seq<ChoiceDefault>, isOptional: bool,
                                 members: seq<string>)

  /** The parsed configuration; int() and its inverse are given. */
  datatype Kconf = Kconf(syms: map<string, SymDef>, choices: map<nat, ChoiceDef>,
                         parse: (string, nat) -> Option<int>, show: (KType, int) -> string)

  /** Everything users can assign: values of symbols, and the selection and mode of choices. */
  datatype User = User(val: map<string, string>, sel: map<nat, string>, mode: map<nat, Tristate>)

  type Assignment = map<string, string>

  // ----- what a symbol can depend on -----

  function PromptNames(ps: seq<Cond>): set<string> { if ps == [] then {} else CondNames(ps[0]) + PromptNames(ps[1..]) }

  function DefaultNames(ds: seq<Default>): set<string> {
    if ds == [] then {} else Names(ds[0].val) + CondNames(ds[0].cond) + DefaultNames(ds[1..])
  }

  function RangeNames(rs: seq<Range>): set<string> {
    if rs == [] then {} else AtomNames(rs[0].low) + AtomNames(rs[0].high) + CondNames(rs[0].cond) + RangeNames(rs[1..])
  }

  function ChoiceDefaultNames(ds: seq<ChoiceDefault>): set<string> {
    if ds == [] then {} else CondNames(ds[0].cond) + ChoiceDefaultNames(ds[1..])
  }

  function ChoiceNames(c: ChoiceDef): set<string> { PromptNames(c.prompts) + ChoiceDefaultNames(c.defaults) }

  function PropertyNames(d: SymDef): set<string> {
    PromptNames(d.prompts) + DefaultNames(d.defaults) + Names(d.revDep) + RangeNames(d.ranges)
  }

  /** The symbols that get `s` into their `dep` set in _build_dep. */
  function OwnReads(k: Kconf, s: string): set<string>
    requires s in k.syms
  {
    var d := k.syms[s];
    PropertyNames(d) +
    if d.choice.Some? && d.choice.value in k.choices then ChoiceNames(k.choices[d.choice.value]) else {}
  }

  /** The symbols of the choice `s` is a member of, or `s` alone. */
  function Group(k: Kconf, s: string): set<string>
    requires s in k.syms
  {
    var d := k.syms[s];
    if d.choice.Some? && d.choice.value in k.choices then set t | t in k.choices[d.choice.value].members else {s}
  }

  function GroupReads(k: Kconf, s: string): set<string>
    requires s in k.syms
  {
    set t, n | t in Group(k, s) && t in k.syms && n in OwnReads(k, t) :: n
  }

  predicate InChoice(k: Kconf, s: string)
    requires s in k.syms
  {
    k.syms[s].choice.Some? && k.syms[s].choice.value in k.choices
  }

  /** The symbols that the visibility of `s` is computed from. */
  function VisReads(k: Kconf, s: string): set<string>
    requires s in k.syms
  {
    PromptNames(k.syms[s].prompts) +
    if InChoice(k, s) then PromptNames(k.choices[k.syms[s].choice.value].prompts) else {}
  }

  function AllVisReads(k: Kconf, ss: seq<string>): set<string> {
    if ss == [] then {} else (if ss[0] in k.syms then VisReads(k, ss[0]) else {}) + AllVisReads(k, ss[1..])
  }

  function DefaultSyms(ds: seq<ChoiceDefault>): seq<string> {
    if ds == [] then [] else [ds[0].sym] + DefaultSyms(ds[1..])
  }

  /** The symbols the value of `s` is computed from, as named in expressions. */
  function PlainReads(k: Kconf, s: string): set<string>
    requires s in k.syms
  {
    OwnReads(k, s) +
    if !InChoice(k, s) then {}
    else
      var ch := k.choices[k.syms[s].choice.value];
      AllVisReads(k, ch.members) + AllVisReads(k, DefaultSyms(ch.defaults))
  }

  // ----- expressions that are never m -----

  /** The symbol is never m: it is no tristate, or it is special and another constant. */
  predicate NeverM(k: Kconf, n: string) {
    n in k.syms ==> match k.syms[n].special
                    case Some(v) => v != "m"
                    case None => k.syms[n].typ != Tri
  }

  predicate NoMod(k: Kconf, e: Expr)
    decreases e
  {
    match e
    case Leaf(Ref(n)) => NeverM(k, n)
    case Leaf(Text(t)) => t != "m"
    case Not(x) => NoMod(k, x)
    case Nary(_, es) => AllNoMod(k, es)
    case Rel(_, _, _) => true
  }

  predicate AllNoMod(k: Kconf, es: seq<Expr>)
    decreases es
  {
    es == [] || (NoMod(k, es[0]) && AllNoMod(k, es[1..]))
  }

  predicate NoModCond(k: Kconf, c: Cond) { c.None? || NoMod(k, c.value) }

  predicate NoModPrompts(k: Kconf, ps: seq<Cond>) { forall i {:trigger ps[i]} :: 0 <= i < |ps| ==> NoModCond(k, ps[i]) }

  /** Nothing that is evaluated for `s` is ever m, so whether modules are enabled makes no difference to it. */
  predicate TwoValued(k: Kconf, s: string)
    requires s in k.syms
  {
    var d := k.syms[s];
    && d.choice.None? && d.typ != Tri && NoModPrompts(k, d.prompts) && NoMod(k, d.revDep)
    && (forall i {:trigger d.defaults[i]} :: 0 <= i < |d.defaults| ==>
          NoModCond(k, d.defaults[i].cond) && (d.typ == Bool ==> NoMod(k, d.defaults[i].val)))
    && (forall i {:trigger d.ranges[i]} :: 0 <= i < |d.ranges| ==> NoModCond(k, d.ranges[i].cond))
  }

  /** All symbols the value of `s` depends on: those it names, and MODULES where something may be m. */
  function Reads(k: Kconf, s: string): set<string>
    requires s in k.syms
  {
    PlainReads(k, s) + if TwoValued(k, s) || "MODULES" !in k.syms then {} else {"MODULES"}
  }

  /** References are to known symbols, and symbols and choices agree on membership. */
  ghost predicate WellFormed(k: Kconf) {
    && (forall s {:trigger OwnReads(k, s)} :: s in k.syms ==> OwnReads(k, s) <= k.syms.Keys)
    && (forall s {:trigger k.syms[s]} :: s in k.syms && k.syms[s].choice.Some? ==>
          k.syms[s].choice.value in k.choices && s in k.choices[k.syms[s].choice.value].members)
    && (forall c, s {:trigger s in k.choices[c].members} :: c in k.choices && s in k.choices[c].members ==>
          s in k.syms && k.syms[s].choice == Some(c) && k.syms[s].special.None?)
    && (forall c, d {:trigger d in k.choices[c].defaults} :: c in k.choices && d in k.choices[c].defaults ==>
       d.sym in k.syms)
    && (forall s, d {:trigger d in k.syms[s].defaults} ::
          s in k.syms && d in k.syms[s].defaults && k.syms[s].typ in {Str, Hex, Int} ==> d.val.Leaf?)
  }

  /** Once each choice counts as one, values flow from lower to higher ranks only. */
  ghost predicate Ordered(k: Kconf, rank: string -> nat) {
    && (forall s, n {:trigger n in Reads(k, s)} :: s in k.syms && n in Reads(k, s) ==> rank(n) < rank(s))
    && (forall s, t {:trigger t in Group(k, s)} :: s in k.syms && t in Group(k, s) ==> rank(t) == rank(s))
  }

  // ----- the equations -----

  function EnvOf(k: Kconf, a: Assignment): Env {
    Env(n => if n in a && n in k.syms && (k.syms[n].typ == Bool || k.syms[n].typ == Tri) then TriOf(a[n]) else NO,
        n => if n in a then a[n] else "",
        "MODULES" in k.syms && "MODULES" in a && a["MODULES"] == "y")
  }

  /** "m" is as good as "y" when modules are off (_eval_expr). */
  function Lift(env: Env, t: Tristate): Tristate { if t == MOD && !env.modules then YES else t }

  function EvalLifted(c: Cond, env: Env): Tristate { Lift(env, EvalCond(c, env)) }

  function LiftMin(env: Env, a: Tristate, b: Tristate): Tristate { Min(Lift(env, a), Lift(env, b)) }

  function LiftMax(env: Env, a: Tristate, b: Tristate): Tristate { Max(Lift(env, a), Lift(env, b)) }

  /** Only tristates can be m. */
  function ForType(typ: KType, t: Tristate): Tristate { if t == MOD && typ != Tri then YES else t }

  /** The maximum of `acc` and the conditions of the prompts from index `i` on. */
  function PromptVis(ps: seq<Cond>, i: nat, acc: Tristate, env: Env): Tristate
    requires i <= |ps|
    decreases |ps| - i
  {
    if i == |ps| then acc else PromptVis(ps, i + 1, LiftMax(env, acc, EvalCond(ps[i], env)), env)
  }

  function ChoiceVis(c: ChoiceDef, env: Env): Tristate {
    ForType(c.typ, PromptVis(c.prompts, 0, NO, env))
  }

  function Vis(k: Kconf, s: string, env: Env): Tristate
    requires s in k.syms
  {
    var d := k.syms[s];
    var t := PromptVis(d.prompts, 0, NO, env);
    ForType(d.typ, if InChoice(k, s) then LiftMin(env, t, ChoiceVis(k.choices[d.choice.value], env)) else t)
  }

  function Mode(k: Kconf, u: User, c: nat, env: Env): Tristate
    requires c in k.choices
  {
    var base := if c in u.mode then u.mode[c] else if k.choices[c].isOptional then NO else MOD;
    var t := LiftMin(env, base, ChoiceVis(k.choices[c], env));
    if t == MOD && k.choices[c].typ == Bool then YES else t
  }

  /** The symbol of the first default whose condition is not n, else the first member. */
  function Preferred(c: ChoiceDef, i: nat, env: Env): string
    requires i <= |c.defaults| && c.members != []
    decreases |c.defaults| - i
  {
    if i == |c.defaults| then c.members[0]
    else if EvalLifted(c.defaults[i].cond, env) != NO then c.defaults[i].sym
    else Preferred(c, i + 1, env)
  }

  function FirstVisible(k: Kconf, members: seq<string>, i: nat, env: Env): Option<string>
    requires i <= |members|
    decreases |members| - i
  {
    if i == |members| then None
    else if members[i] in k.syms && Vis(k, members[i], env) != NO then Some(members[i])
    else FirstVisible(k, members, i + 1, env)
  }

  function DefaultSelection(k: Kconf, c: ChoiceDef, env: Env): Option<string> {
    if c.members == [] then None
    else
      var p := Preferred(c, 0, env);
      if p in k.syms && Vis(k, p, env) != NO then Some(p) else FirstVisible(k, c.members, 0, env)
  }

  function Selection(k: Kconf, u: User, c: nat, env: Env): Option<string>
    requires c in k.choices
  {
    if Mode(k, u, c, env) != YES then None
    else if c in u.sel && u.sel[c] in k.syms && Vis(k, u.sel[c], env) == YES then Some(u.sel[c])
    else if k.choices[c].isOptional then None
    else DefaultSelection(k, k.choices[c], env)
  }

  /** A value together with the write_to_conf flag. */
  datatype Result = Result(val: string, write: bool)

  /** The first default, from index `i` on, whose condition is not n. */
  function ActiveDefault(ds: seq<Default>, i: nat, env: Env): (r: Option<nat>)
    requires i <= |ds|
    ensures r.Some? ==> r.value < |ds|
    decreases |ds| - i
  {
    if i == |ds| then None
    else if EvalLifted(ds[i].cond, env) != NO then Some(i)
    else ActiveDefault(ds, i + 1, env)
  }

  function MemberResult(k: Kconf, u: User, s: string, c: nat, env: Env): Result
    requires s in k.syms && c in k.choices
  {
    if Vis(k, s, env) == NO then Result("n", false)
    else
      var mode := Mode(k, u, c, env);
      if mode == YES then Result(if Selection(k, u, c, env) == Some(s) then "y" else "n", true)
      else if mode == MOD then Result(if s in u.val && (u.val[s] == "m" || u.val[s] == "y") then "m" else "n", true)
      else Result("n", false)
  }

  /** The user value or default of a bool or tristate symbol outside choices, before reverse dependencies. */
  datatype Truth = Truth(tri: Tristate, write: bool)

  function PlainTruth(k: Kconf, u: User, s: string, env: Env): Truth
    requires s in k.syms
  {
    var vis := Vis(k, s, env);
    if vis != NO && s in u.val then Truth(LiftMin(env, TriOf(u.val[s]), vis), true)
    else
      var i := ActiveDefault(k.syms[s].defaults, 0, env);
      if i.None? then Truth(NO, vis != NO)
      else
        var d := k.syms[s].defaults[i.value];
        Truth(LiftMin(env, Eval(d.val, env), EvalLifted(d.cond, env)), true)
  }

  function TruthResult(k: Kconf, u: User, s: string, env: Env): Result
    requires s in k.syms
  {
    var p := PlainTruth(k, u, s, env);
    var rev := Lift(env, Eval(k.syms[s].revDep, env));
    if rev != NO then Result(TriText(LiftMax(env, p.tri, rev)), true) else Result(TriText(p.tri), p.write)
  }

  function LeafStr(e: Expr, env: Env): string { if e.Leaf? then AtomStr(e.atom, env) else "" }

  function StringResult(k: Kconf, u: User, s: string, env: Env): Result
    requires s in k.syms
  {
    var vis := Vis(k, s, env);
    if vis != NO && s in u.val then Result(u.val[s], true)
    else
      var i := ActiveDefault(k.syms[s].defaults, 0, env);
      if i.None? then Result("", vis != NO) else Result(LeafStr(k.syms[s].defaults[i.value].val, env), true)
  }

  datatype Bounds = Unbounded | Within(low: int, high: int)

  function Number(k: Kconf, text: string, base: nat): int {
    match k.parse(text, base)
    case None => 0
    case Some(x) => x
  }

  /** The bounds of the first range, from index `i` on, whose condition is not n. */
  function ActiveBounds(k: Kconf, rs: seq<Range>, i: nat, base: nat, env: Env): Bounds
    requires i <= |rs|
    decreases |rs| - i
  {
    if i == |rs| then Unbounded
    else if EvalLifted(rs[i].cond, env) != NO then
      Within(Number(k, AtomStr(rs[i].low, env), base), Number(k, AtomStr(rs[i].high, env), base))
    else ActiveBounds(k, rs, i + 1, base, env)
  }

  function BaseOf(typ: KType): nat { if typ == Hex then 16 else 10 }

  predicate UserNumberOk(k: Kconf, text: string, base: nat, b: Bounds) {
    k.parse(text, base).Some? && (b.Within? ==> b.low <= k.parse(text, base).value <= b.high)
  }

  function Clamp(k: Kconf, typ: KType, text: string, b: Bounds): string {
    if b.Unbounded? then text
    else
      var x := Number(k, text, BaseOf(typ));
      if x < b.low then k.show(typ, b.low) else if x > b.high then k.show(typ, b.high) else text
  }

  /** The defaults of an int or hex symbol from index `i` on; a default that is no number is kept but passed over. */
  function NumberDefault(k: Kconf, typ: KType, ds: seq<Default>, i: nat, b: Bounds, cur: Result, env: Env): Result
    requires i <= |ds|
    decreases |ds| - i
  {
    if i == |ds| then (if b.Within? && b.low > 0 then Result(k.show(typ, b.low), cur.write) else cur)
    else if EvalLifted(ds[i].cond, env) == NO then NumberDefault(k, typ, ds, i + 1, b, cur, env)
    else
      var text := LeafStr(ds[i].val, env);
      if k.parse(text, BaseOf(typ)).Some? then Result(Clamp(k, typ, text, b), true)
      else NumberDefault(k, typ, ds, i + 1, b, Result(text, true), env)
  }

  function NumberResult(k: Kconf, u: User, s: string, env: Env): Result
    requires s in k.syms
  {
    var d := k.syms[s];
    var b := ActiveBounds(k, d.ranges, 0, BaseOf(d.typ), env);
    var vis := Vis(k, s, env);
    if vis != NO && s in u.val && UserNumberOk(k, u.val[s], BaseOf(d.typ), b) then Result(u.val[s], true)
    else NumberDefault(k, d.typ, d.defaults, 0, b, Result("", vis != NO), env)
  }

  /** Symbol.get_value and the flag it sets, for the values `env` of the other symbols */
  function ResultIn(k: Kconf, u: User, s: string, env: Env): Result
    requires s in k.syms
  {
    var d := k.syms[s];
    if d.special.Some? then Result(d.special.value, false)
    else if d.typ == Unknown then Result(s, false)
    else if d.typ == Bool || d.typ == Tri then
      var r := if InChoice(k, s) then MemberResult(k, u, s, d.choice.value, env)
               else TruthResult(k, u, s, env);
      if r.val == "m" && d.typ == Bool then Result("y", r.write) else r
    else if d.typ == Str then StringResult(k, u, s, env)
    else NumberResult(k, u, s, env)
  }

  ghost predicate Solution(k: Kconf, u: User, a: Assignment) {
    a.Keys == k.syms.Keys && forall s {:trigger ResultIn(k, u, s, EnvOf(k, a))} :: s in k.syms ==>
      a[s] == ResultIn(k, u, s, EnvOf(k, a)).val
  }
}
