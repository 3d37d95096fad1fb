/**
 When menu_finalize (support/kconfig/menu.c) lets an entry follow another into a submenu, and what that says about their
 conditions (support/kconfig/expr.c: expr_trans_compare, expr_contains_symbol, expr_depends_symbol).
 */
module Submenus {
  import opened Tristates
  import opened Expressions
  import opened Spine
  import opened ExprCompare
  import opened ExprTransform
  import opened ExprJoin
  import opened ExprDups
  import opened ExprCancel

  /** expr_trans_compare against the constant n: the condition as a test of whether it is n. */
  function CompareNo(e: Expr, equal: bool): Expr {
    match e
    case Bin(op, l, r) =>
      var x := Bin(Dual(op), CompareNo(l, true), CompareNo(r, true));
      if equal then x else Not(x)
    case Not(a) => CompareNo(a, !equal)
    case Cmp(_, _, _) => if equal then Not(e) else e
    case Sym(s) => Cmp(equal, s, symbolNo)
  }

  /** expr_contains_symbol */
  predicate Contains(e: Expr, s: Symbol) {
    match e
    case Bin(_, l, r) => Contains(l, s) || Contains(r, s)
    case Not(a) => Contains(a, s)
    case Sym(t) => t == s
    case Cmp(_, a, b) => a == s || b == s
  }

  /** expr_depends_symbol */
  predicate DependsOn(e: Expr, s: Symbol) {
    match e
    case Bin(And, l, r) => DependsOn(l, s) || DependsOn(r, s)
    case Sym(t) => t == s
    case Cmp(true, a, b) => a == s && (b == symbolYes || b == symbolMod)
    case Cmp(false, a, b) => a == s && b == symbolNo
    case _ => false
  }

  /** A condition made ready for comparing; none at all is y. */
  function Prepared(e: Option<Expr>): Expr {
    Simplified(Transform(if e.None? then Not(Sym(symbolNo)) else CompareNo(e.value, false)))
  }

  /** The test in the loop of menu_finalize, for the conditions of the parent's prompt and of the entry. */
  predicate Follows(base: Option<Expr>, dep: Option<Expr>, s: Symbol) {
    && dep.Some? && Contains(dep.value, s)
    && (DependsOn(dep.value, s) || EliminateEq(Prepared(dep), Prepared(base)).snd == Sym(symbolYes))
  }

  // ----- what the test against n keeps -----

  /** The text of a symbol that is an operand says whether it is y or n; so it is for booleans and tristates. */
  ghost predicate TellsNo(e: Expr, v: Valuation) {
    match e
    case Bin(_, l, r) => TellsNo(l, v) && TellsNo(r, v)
    case Not(a) => TellsNo(a, v)
    case Sym(s) => (v.tri(s) == NO ==> v.str(s) == "n") && (v.tri(s) == YES ==> v.str(s) != "n")
    case Cmp(_, _, _) => true
  }

  predicate TruthOperands(e: Expr) {
    match e
    case Bin(_, l, r) => TruthOperands(l) && TruthOperands(r)
    case Not(a) => TruthOperands(a)
    case Sym(s) => s.typ == Boolean || s.typ == Tri || s in {symbolYes, symbolMod, symbolNo}
    case Cmp(_, _, _) => true
  }

  lemma {:induction false} TruthsTell(e: Expr, v: Valuation)
    requires WellTyped(v) && TruthOperands(e)
    ensures TellsNo(e, v)
  {
    match e
    case Bin(_, l, r) =>
      TruthsTell(l, v);
      TruthsTell(r, v);
    case Not(a) => TruthsTell(a, v);
    case _ =>
  }

  /** The test decides what it must: y becomes y and n becomes n; only m may become either. */
  lemma {:induction false} CompareNoRefines(e: Expr, v: Valuation)
    requires WellTyped(v) && TellsNo(e, v)
    ensures Refines(Eval(e, v), Eval(CompareNo(e, false), v)) && Eval(CompareNo(e, false), v) != MOD
    ensures Refines(Negate(Eval(e, v)), Eval(CompareNo(e, true), v)) && Eval(CompareNo(e, true), v) != MOD
  {
    match e
    case Bin(op, l, r) =>
      CompareNoRefines(l, v);
      CompareNoRefines(r, v);
    case Not(a) => CompareNoRefines(a, v);
    case _ =>
  }

  /** No negation. */
  predicate Positive(e: Expr) {
    match e
    case Bin(_, l, r) => Positive(l) && Positive(r)
    case Not(_) => false
    case _ => true
  }

  /** Without negations m becomes y as well, for symbols whose text is n only if they are. */
  lemma {:induction false} CompareNoExact(e: Expr, v: Valuation)
    requires WellTyped(v) && TruthOperands(e) && Positive(e)
    ensures Eval(CompareNo(e, false), v) == if Eval(e, v) == NO then NO else YES
    ensures Eval(CompareNo(e, true), v) == if Eval(e, v) == NO then YES else NO
  {
    match e
    case Bin(op, l, r) =>
      CompareNoExact(l, v);
      CompareNoExact(r, v);
    case _ =>
  }

  /** A lone symbol is tested rightly exactly if its text tells. */
  lemma LoneSymbol(s: Symbol, v: Valuation)
    requires WellTyped(v)
    ensures Refines(Eval(Sym(s), v), Eval(CompareNo(Sym(s), false), v)) <==> TellsNo(Sym(s), v)
  {}

  // ----- what follows from following -----

  lemma {:induction false} DependsShown(e: Expr, s: Symbol, v: Valuation)
    requires WellTyped(v) && DependsOn(e, s) && Eval(e, v) != NO && (s.typ == Boolean || s.typ == Tri)
    ensures v.tri(s) != NO
  {
    match e
    case Bin(And, l, r) =>
      if DependsOn(l, s) {
        DependsShown(l, s, v);
      } else {
        DependsShown(r, s, v);
      }
    case _ =>
  }

  lemma PreparedRefines(e: Option<Expr>, v: Valuation)
    requires WellTyped(v) && (e.Some? ==> TellsNo(e.value, v))
    ensures Refines(EvalOpt(e, v), Eval(Prepared(e), v)) && Eval(Prepared(e), v) != MOD
  {
    var x := if e.None? then Not(Sym(symbolNo)) else CompareNo(e.value, false);
    if e.Some? {
      CompareNoRefines(e.value, v);
    }
    TransformPreservesValue(x, v);
    SimplifiedRefines(Transform(x), v);
  }

  lemma SplitYes(op: Op, e1: Expr, e2: Expr, p: Pair, v: Valuation, m: Tristate)
    requires WellTyped(v) && Split(op, e1, e2, p, v, m) && p.snd == Sym(symbolYes)
    ensures Eval(e1, v) <= Eval(e2, v)
  {
    assert Eval(p.snd, v) == YES;
  }

  lemma RemainderYes(e1: Expr, e2: Expr, v: Valuation)
    requires WellTyped(v) && EliminateEq(e1, e2).snd == Sym(symbolYes)
    ensures Eval(e1, v) <= Eval(e2, v)
  {
    var m := EliminateEqSplits(e1, e2, v);
    SplitYes(SplitOp(e1, e2), e1, e2, EliminateEq(e1, e2), v, m);
  }

  /**
   An entry that follows a boolean or tristate symbol into its submenu: where the entry is shown at y, the symbol is not
   n, or its prompt is shown. Where the condition of the entry has no negations, that is so wherever it is shown at all.
   */
  lemma FollowsShown(base: Option<Expr>, dep: Option<Expr>, s: Symbol, v: Valuation)
    requires WellTyped(v) && Follows(base, dep, s) && (s.typ == Boolean || s.typ == Tri)
    requires TruthOperands(dep.value) && (base.Some? ==> TruthOperands(base.value))
    requires if Positive(dep.value) then Eval(dep.value, v) != NO else Eval(dep.value, v) == YES
    ensures v.tri(s) != NO || EvalOpt(base, v) != NO
  {
    if DependsOn(dep.value, s) {
      DependsShown(dep.value, s, v);
    } else {
      TruthsTell(dep.value, v);
      PreparedRefines(dep, v);
      if base.Some? {
        TruthsTell(base.value, v);
      }
      PreparedRefines(base, v);
      RemainderYes(Prepared(dep), Prepared(base), v);
      if Positive(dep.value) {
        PreparedExact(dep.value, v);
      }
    }
  }

  lemma PreparedExact(e: Expr, v: Valuation)
    requires WellTyped(v) && TruthOperands(e) && Positive(e)
    ensures Eval(Prepared(Some(e)), v) == if Eval(e, v) == NO then NO else YES
  {
    CompareNoExact(e, v);
    TransformPreservesValue(CompareNo(e, false), v);
    SimplifiedRefines(Transform(CompareNo(e, false)), v);
  }

  // ----- an entry shown at m beside a hidden symbol -----

  function IsNo(x: Symbol): Expr { Cmp(true, x, symbolNo) }

  function BothNo(a: Symbol, b: Symbol): Expr { Bin(And, IsNo(a), IsNo(b)) }

  lemma BothOperands(a: Symbol, b: Symbol, p: Path)
    requires InSpine(And, BothNo(a, b), p) && !IsOp(And, At(And, BothNo(a, b), p))
    ensures p == [Left] || p == [Right]
    ensures At(And, BothNo(a, b), p) == if p == [Left] then IsNo(a) else IsNo(b)
  {
    if p != [] {
      assert p == [p[0]] + p[1..];
    }
  }

  lemma BothQuiet(a: Symbol, b: Symbol)
    requires a != b
    ensures Dups1(And, BothNo(a, b), [], []) == Rewrite(BothNo(a, b), 0)
  {
    var t := BothNo(a, b);
    assert !ExprEq(IsNo(a), IsNo(b)) && !ExprEq(IsNo(b), IsNo(a));
    forall p: Path, q: Path {:trigger JoinablePair(And, t, p, q)}
      ensures !JoinablePair(And, t, p, q)
    {
      if JoinablePair(And, t, p, q) {
        BothOperands(a, b, p);
        BothOperands(a, b, q);
      }
    }
    forall p: Path {:trigger At(And, t, p)} | InSpine(And, t, p)
      ensures !IsOp(Or, At(And, t, p))
    {
      if IsOp(Or, At(And, t, p)) {
        BothOperands(a, b, p);
      }
    }
    Dups1Quiet(And, t, [], []);
  }

  lemma BothKept(a: Symbol, b: Symbol)
    requires a != b
    ensures Simplified(BothNo(a, b)) == BothNo(a, b)
  {
    var t := BothNo(a, b);
    BothQuiet(a, b);
    Descend(And, t, [], Left);
    Descend(And, t, [], Right);
    Dups2Simple(And, t, [Left], []);
    Dups2Simple(And, t, [Right], []);
    assert [] + [Left] == [Left] && [] + [Right] == [Right];
    assert Dups2(And, t, [], []) == Rewrite(t, 0);
  }

  lemma NegationCompared(a: Symbol)
    ensures CompareNo(Not(Sym(a)), true) == Cmp(false, a, symbolNo)
  {
    assert CompareNo(Sym(a), false) == Cmp(false, a, symbolNo);
  }

  lemma TestStays(equal: bool, a: Symbol)
    requires a.typ == Tri
    ensures Transform(Cmp(equal, a, symbolNo)) == Cmp(equal, a, symbolNo)
    ensures Transform(Not(Cmp(equal, a, symbolNo))) == Cmp(!equal, a, symbolNo)
  {}

  lemma NegationsPrepared(a: Symbol, b: Symbol)
    requires a != b && a.typ == Tri && b.typ == Tri
    ensures Prepared(Some(Neither(a, b))) == BothNo(a, b) && Prepared(Some(IsNo(a))) == IsNo(a)
  {
    var l, r := Cmp(false, a, symbolNo), Cmp(false, b, symbolNo);
    NegationCompared(a);
    NegationCompared(b);
    assert CompareNo(Neither(a, b), false) == Not(Bin(Or, l, r));
    TestStays(false, a);
    TestStays(false, b);
    TestStays(true, a);
    assert Transform(Bin(Or, l, r)) == Bin(Or, l, r);
    assert Transform(Bin(And, Not(l), Not(r))) == BothNo(a, b);
    BothKept(a, b);
    assert Simplified(IsNo(a)) == IsNo(a);
  }

  /**
   With negations an entry can be shown at m where the symbol it follows is n and hidden: the prompt of `s` asks for
   `b` = n, the entry depends on !b && !s, and `b` is m.
   */
  lemma ShownBesideHidden(b: Symbol, s: Symbol, v: Valuation)
    requires b != s && b.typ == Tri && s.typ == Tri && WellTyped(v) && v.tri(b) == MOD && v.tri(s) == NO
    ensures Follows(Some(IsNo(b)), Some(Neither(b, s)), s)
    ensures Eval(Neither(b, s), v) == MOD && EvalOpt(Some(IsNo(b)), v) == NO
  {
    NegationsPrepared(b, s);
    assert Eval(Not(Sym(b)), v) == MOD && Eval(Not(Sym(s)), v) == YES;
    assert Contains(Not(Sym(s)), s) && Contains(Neither(b, s), s);
    assert ExprEq(IsNo(b), IsNo(b)) && !ExprEq(IsNo(s), Sym(symbolYes));
    assert CutEq(And, IsNo(b), IsNo(b)) == Pair(Sym(symbolYes), Sym(symbolYes), 1);
    assert CutEq(And, IsNo(s), Sym(symbolYes)) == Pair(IsNo(s), Sym(symbolYes), 0);
    assert CutEq(And, BothNo(b, s), IsNo(b)).snd == Sym(symbolYes);
  }
}
