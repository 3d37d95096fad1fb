/**
 What sym_calc_value (support/kconfig/symbol.c) promises, said without following its loops: which prompts, defaults
 and reverse dependencies lift a symbol to m or to y, which text a string or number has, and which symbols are written.
 */
module Meaning {
  import opened Tristates
  import opened Expressions
  import opened Config

  /** Some prompt is shown at `t` or above. */
  ghost predicate PromptAt(ps: seq<Property>, v: Valuation, t: Tristate) {
    exists p :: p in ps && p.hasText && EvalOpt(p.visible, v) >= t
  }

  /** The condition of some property of the kind is not n. */
  ghost predicate SomeActive(ps: seq<Property>, kind: PropKind, v: Valuation) {
    exists p :: p in ps && p.kind == kind && EvalOpt(p.visible, v) != NO
  }

  /** `p` is the first such property. */
  ghost predicate IsFirst(ps: seq<Property>, kind: PropKind, v: Valuation, p: Property) {
    exists i :: 0 <= i < |ps| && ps[i] == p && p.kind == kind && EvalOpt(p.visible, v) != NO &&
                !SomeActive(ps[..i], kind, v)
  }

  /** The user has given a value, and some prompt is shown. */
  ghost predicate Given(m: Model, v: Valuation, s: Symbol)
    requires s in m.cfg
  {
    s in m.user && PromptAt(m.cfg[s].props, v, MOD)
  }

  /** The symbol is selected at `t` or above. */
  ghost predicate SelectedAt(m: Model, v: Valuation, s: Symbol, t: Tristate)
    requires s in m.cfg
  {
    m.cfg[s].revDep.Some? && Eval(m.cfg[s].revDep.value, v) >= t
  }

  /** The first active default and its condition are both at `t` or above. */
  ghost predicate DefaultAt(m: Model, v: Valuation, s: Symbol, t: Tristate)
    requires s in m.cfg
  {
    exists p :: IsFirst(m.cfg[s].props, Default, v, p) && EvalOpt(p.visible, v) >= t &&
                p.body.Value? && Eval(p.body.expr, v) >= t
  }

  /** Selected, or given by the user and shown, or else by default. */
  ghost predicate Reaches(m: Model, v: Valuation, s: Symbol, t: Tristate)
    requires s in m.cfg
  {
    || SelectedAt(m, v, s, t)
    || (if Given(m, v, s) then m.user[s].tri >= t && PromptAt(m.cfg[s].props, v, t) else DefaultAt(m, v, s, t))
  }

  /** A tristate is the highest value it reaches; whatever acts as a boolean is y as soon as it reaches m. */
  ghost predicate TruthMeans(m: Model, v: Valuation, s: Symbol, x: Tristate)
    requires s in m.cfg
  {
    && (x >= MOD <==> Reaches(m, v, s, MOD))
    && (x >= YES <==> Reaches(m, v, s, if ActsBoolean(m, s) then MOD else YES))
  }

  /** The user's text if a prompt is shown, else that of the symbol the first active default names, else nothing. */
  ghost predicate PlainMeans(m: Model, a: Assignment, s: Symbol, x: string)
    requires s in m.cfg
  {
    var v, ps := ValuationOf(m, a), m.cfg[s].props;
    if Given(m, v, s) then x == m.user[s].str
    else
      && (forall p :: IsFirst(ps, Default, v, p) && p.body.Value? && p.body.expr.Sym? ==>
            x == Lookup(a, p.body.expr.sym).str)
      && (!SomeActive(ps, Default, v) ==> x == "")
      && (forall p :: IsFirst(ps, Default, v, p) && !(p.body.Value? && p.body.expr.Sym?) ==> x == "")
  }

  /** A number outside the first active range is replaced by the bound it violates, the lower one first. */
  ghost predicate RangeMeans(m: Model, a: Assignment, s: Symbol, plain: string, x: string)
    requires s in m.cfg
  {
    var v, ps, base := ValuationOf(m, a), m.cfg[s].props, BaseOf(s.typ, 0);
    if s.typ == Str || !SomeActive(ps, Range, v) then x == plain
    else
      forall p :: IsFirst(ps, Range, v, p) && p.body.Bounds? ==>
        var low, high := BoundOf(m, a, p.body.low, base), BoundOf(m, a, p.body.high, base);
        var n := m.strtoll(plain, base);
        && (n < low ==> x == m.show(s.typ, low))
        && (low <= n && high < n ==> x == m.show(s.typ, high))
        && (low <= n <= high ==> x == plain)
  }

  ghost predicate TextMeans(m: Model, a: Assignment, s: Symbol, x: string)
    requires s in m.cfg
  {
    exists plain :: PlainMeans(m, a, s, plain) && RangeMeans(m, a, s, plain, x)
  }

  /** The value of a symbol that has a type. */
  ghost predicate Means(m: Model, a: Assignment, s: Symbol, x: SymbolValue)
    requires s in m.cfg
  {
    && (IsTruthType(s.typ) ==> x.str == "n" && TruthMeans(m, ValuationOf(m, a), s, x.tri))
    && (IsTextType(s.typ) ==> x.tri == NO && TextMeans(m, a, s, x.str))
    && (!IsTruthType(s.typ) && !IsTextType(s.typ) ==> x.str == s.name && (!IsConstTriSymbol(s) ==> x.tri == NO))
    && (s == symbolYes ==> x.tri == YES) && (s == symbolMod ==> x.tri == MOD) && (s == symbolNo ==> x.tri == NO)
  }

  /** A symbol is written unless it is automatic, if it is shown, selected, or has an active default. */
  ghost predicate WriteMeans(m: Model, v: Valuation, s: Symbol, w: bool)
    requires s in m.cfg
  {
    var ps := m.cfg[s].props;
    w <==>
    && !m.cfg[s].isAuto
    && (|| PromptAt(ps, v, MOD)
        || (IsTruthType(s.typ) && (SelectedAt(m, v, s, MOD) || SomeActive(ps, Default, v)))
        || (IsTextType(s.typ) && exists p :: IsFirst(ps, Default, v, p) && p.body.Value? && p.body.expr.Sym?))
  }

  // ----- the loops compute it -----

  lemma {:induction false} PromptMaxIs(ps: seq<Property>, v: Valuation, n: nat, t: Tristate)
    requires n <= |ps| && t != NO
    ensures PromptMax(ps, v, n) >= t <==> PromptAt(ps[..n], v, t)
  {
    if n > 0 {
      PromptMaxIs(ps, v, n - 1, t);
      assert ps[..n] == ps[..n - 1] + [ps[n - 1]];
      if PromptAt(ps[..n - 1], v, t) {
        var p :| p in ps[..n - 1] && p.hasText && EvalOpt(p.visible, v) >= t;
        assert p in ps[..n];
      }
      assert ps[n - 1] in ps[..n];
    }
  }

  lemma VisibleIs(m: Model, v: Valuation, s: Symbol)
    requires s in m.cfg
    ensures VisibleOf(m, v, s) >= MOD <==> PromptAt(m.cfg[s].props, v, MOD)
    ensures VisibleOf(m, v, s) == YES <==>
            PromptAt(m.cfg[s].props, v, if s.typ == Tri && m.modules != NO then YES else MOD)
  {
    var ps := m.cfg[s].props;
    assert ps[..|ps|] == ps;
    PromptMaxIs(ps, v, |ps|, MOD);
    PromptMaxIs(ps, v, |ps|, YES);
  }

  /** What sym_calc_visibility remembers of direct and reverse dependencies; none at all counts as y and as n. */
  lemma DependenciesAre(m: Model, v: Valuation, s: Symbol)
    requires s in m.cfg
    ensures DirOf(m, v, s) == YES <==> m.cfg[s].dirDep.None? || Eval(m.cfg[s].dirDep.value, v) >= MOD
    ensures DirOf(m, v, s) != MOD
    ensures RevOf(m, v, s) >= MOD <==> SelectedAt(m, v, s, MOD)
    ensures RevOf(m, v, s) == YES <==> SelectedAt(m, v, s, if ActsBoolean(m, s) then MOD else YES)
  {}

  lemma NotActive(ps: seq<Property>, kind: PropKind, v: Valuation, i: nat)
    requires i < |ps| && !SomeActive(ps[..i], kind, v) && !(ps[i].kind == kind && EvalOpt(ps[i].visible, v) != NO)
    ensures !SomeActive(ps[..i + 1], kind, v)
  {
    assert ps[..i + 1] == ps[..i] + [ps[i]];
  }

  lemma {:induction false} FirstActiveIs(ps: seq<Property>, kind: PropKind, v: Valuation, i: nat)
    requires i <= |ps| && !SomeActive(ps[..i], kind, v)
    ensures var r := FirstActive(ps, kind, v, i);
            && (r.None? ==> !SomeActive(ps, kind, v))
            && (r.Some? ==> r.value < |ps| && IsFirst(ps, kind, v, ps[r.value]))
    decreases |ps| - i
  {
    if i == |ps| {
      assert ps[..i] == ps;
    } else if !(ps[i].kind == kind && EvalOpt(ps[i].visible, v) != NO) {
      NotActive(ps, kind, v, i);
      FirstActiveIs(ps, kind, v, i + 1);
    }
  }

  lemma ActiveBefore(ps: seq<Property>, kind: PropKind, v: Valuation, i: nat, n: nat)
    requires i < |ps| && n <= |ps| && ps[i].kind == kind && EvalOpt(ps[i].visible, v) != NO
    ensures i < n ==> SomeActive(ps[..n], kind, v)
  {
    if i < n {
      assert ps[..n][i] == ps[i];
    }
  }

  lemma OneFirst(ps: seq<Property>, kind: PropKind, v: Valuation, p: Property, q: Property)
    requires IsFirst(ps, kind, v, p) && IsFirst(ps, kind, v, q)
    ensures p == q
  {
    var i :| 0 <= i < |ps| && ps[i] == p && p.kind == kind && EvalOpt(p.visible, v) != NO &&
       !SomeActive(ps[..i], kind, v);
    var j :| 0 <= j < |ps| && ps[j] == q && q.kind == kind && EvalOpt(q.visible, v) != NO &&
       !SomeActive(ps[..j], kind, v);
    ActiveBefore(ps, kind, v, i, j);
    ActiveBefore(ps, kind, v, j, i);
  }

  /** The property sym_get_default_prop and sym_get_range_prop find. */
  lemma ActiveIs(m: Model, v: Valuation, s: Symbol, kind: PropKind)
    requires s in m.cfg
    ensures var r := ActiveProp(m, v, s, kind);
            && (r.Some? <==> SomeActive(m.cfg[s].props, kind, v))
            && (forall p :: IsFirst(m.cfg[s].props, kind, v, p) <==> r == Some(p))
  {
    var ps, r := m.cfg[s].props, ActiveProp(m, v, s, kind);
    assert ps[..0] == [];
    FirstActiveIs(ps, kind, v, 0);
    forall p | IsFirst(ps, kind, v, p)
      ensures r == Some(p)
    {
      assert p in ps;
      OneFirst(ps, kind, v, p, r.value);
    }
  }

  lemma WantedIs(m: Model, v: Valuation, s: Symbol, t: Tristate)
    requires s in m.cfg && IsTruthType(s.typ) && t != NO && (t == YES ==> !ActsBoolean(m, s))
    ensures Wanted(m, v, s) >= t <==>
            if Given(m, v, s) then m.user[s].tri >= t && PromptAt(m.cfg[s].props, v, t) else DefaultAt(m, v, s, t)
  {
    VisibleIs(m, v, s);
    ActiveIs(m, v, s, Default);
  }

  lemma TruthIs(m: Model, v: Valuation, s: Symbol)
    requires s in m.cfg && IsTruthType(s.typ)
    ensures TruthMeans(m, v, s, TruthOf(m, v, s))
  {
    WantedIs(m, v, s, MOD);
    if !ActsBoolean(m, s) {
      WantedIs(m, v, s, YES);
    }
  }

  lemma PlainIs(m: Model, a: Assignment, s: Symbol)
    requires s in m.cfg
    ensures forall x :: PlainMeans(m, a, s, x) <==> x == TextOf(m, a, s)
  {
    var v := ValuationOf(m, a);
    VisibleIs(m, v, s);
    ActiveIs(m, v, s, Default);
  }

  lemma RangeIs(m: Model, a: Assignment, s: Symbol, plain: string)
    requires Closed(m.cfg) && s in m.cfg && IsTextType(s.typ)
    ensures forall x :: RangeMeans(m, a, s, plain, x) <==> x == InRange(m, a, s, plain)
  {
    ActiveIs(m, ValuationOf(m, a), s, Range);
  }

  lemma TextIs(m: Model, a: Assignment, s: Symbol)
    requires Closed(m.cfg) && s in m.cfg && IsTextType(s.typ)
    ensures forall x :: TextMeans(m, a, s, x) <==> x == InRange(m, a, s, TextOf(m, a, s))
  {
    PlainIs(m, a, s);
    RangeIs(m, a, s, TextOf(m, a, s));
    assert PlainMeans(m, a, s, TextOf(m, a, s));
  }

  /** The equation of a symbol says exactly this. */
  lemma ValueIs(m: Model, a: Assignment, s: Symbol, x: SymbolValue)
    requires Closed(m.cfg) && s in m.cfg
    ensures x == ValueFor(m, a, s) <==> Means(m, a, s, x)
  {
    if IsTruthType(s.typ) {
      TruthIs(m, ValuationOf(m, a), s);
    } else if IsTextType(s.typ) {
      TextIs(m, a, s);
    }
  }

  /** The values are a solution exactly if each means what it should. */
  lemma SolutionMeans(m: Model, a: Assignment)
    requires Closed(m.cfg)
    ensures Solution(m, a) <==> a.Keys == m.cfg.Keys && forall s :: s in m.cfg ==> Means(m, a, s, a[s])
  {
    if a.Keys == m.cfg.Keys {
      forall s | s in m.cfg
        ensures a[s] == ValueFor(m, a, s) <==> Means(m, a, s, a[s])
      {
        ValueIs(m, a, s, a[s]);
      }
    }
  }

  /** The flag SYMBOL_WRITE says exactly this. */
  lemma WriteIs(m: Model, v: Valuation, s: Symbol)
    requires s in m.cfg && (IsTruthType(s.typ) || IsTextType(s.typ))
    ensures forall w :: WriteMeans(m, v, s, w) <==> w == WriteOf(m, v, s)
  {
    VisibleIs(m, v, s);
    ActiveIs(m, v, s, Default);
  }

  // ----- reverse dependencies -----

  /** A symbol without shown prompt and active default is what selects it, m raised to y where it acts as a boolean. */
  lemma OnlySelected(m: Model, a: Assignment, s: Symbol)
    requires Closed(m.cfg) && Solution(m, a) && s in m.cfg && IsTruthType(s.typ)
    requires var v := ValuationOf(m, a);
             !PromptAt(m.cfg[s].props, v, MOD) && !SomeActive(m.cfg[s].props, Default, v)
    ensures var rev := if m.cfg[s].revDep.None? then NO else Eval(m.cfg[s].revDep.value, ValuationOf(m, a));
            a[s].tri == if rev == MOD && ActsBoolean(m, s) then YES else rev
  {
    var v := ValuationOf(m, a);
    SolutionMeans(m, a);
    assert TruthMeans(m, v, s, a[s].tri);
    ActiveIs(m, v, s, Default);
  }
}
