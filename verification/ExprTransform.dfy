/** Negation normal form (support/kconfig/expr.c: expr_transform). */
module ExprTransform {
  import opened Tristates
  import opened Expressions

  /** A De Morgan step copies the negation but removes the node below it, so it lowers this weight. */
  function Weight(e: Expr): nat {
    match e
    case Sym(_) => 1
    case Not(a) => 2 * Weight(a)
    case Bin(_, l, r) => Weight(l) + Weight(r) + 1
    case Cmp(_, _, _) => 2
  }

  lemma WeightPositive(e: Expr)
    ensures Weight(e) >= 1
  {}

  lemma DeMorganLighter(op: Op, l: Expr, r: Expr)
    ensures Weight(Bin(Dual(op), Not(l), Not(r))) < Weight(Not(Bin(op, l, r)))
  {
    assert Weight(Not(l)) == 2 * Weight(l) && Weight(Not(r)) == 2 * Weight(r);
  }

  predicate IsConstTri(s: Symbol) { s == symbolYes || s == symbolMod || s == symbolNo }

  /** A boolean symbol compared with y, m or n. */
  predicate BooleanTest(e: Expr) { e.Cmp? && e.lhs.typ == Boolean && IsConstTri(e.rhs) }

  /** The E_EQUAL and E_UNEQUAL cases of expr_transform. */
  function TransformCmp(e: Expr): (r: Expr)
    requires e.Cmp?
    ensures Weight(r) <= Weight(e)
  {
    if !BooleanTest(e) then e
    else if e.rhs == symbolNo then (if e.equal then Not(Sym(e.lhs)) else Sym(e.lhs))
    else if e.rhs == symbolMod then Sym(if e.equal then symbolNo else symbolYes)
    else (if e.equal then Sym(e.lhs) else Not(Sym(e.lhs)))
  }

  function NegateConst(s: Symbol): Symbol {
    if s == symbolYes then symbolNo else if s == symbolNo then symbolYes else s
  }

  /** expr_transform on a non-NULL expression */
  function Transform(e: Expr): (r: Expr)
    ensures Weight(r) <= Weight(e)
    decreases Weight(e)
  {
    WeightPositive(e);
    match e
    case Sym(_) => e
    case Cmp(_, _, _) => TransformCmp(e)
    case Bin(op, l, r) => Bin(op, Transform(l), Transform(r))
    case Not(a) =>
      WeightPositive(a);
      var t := Transform(a);
      match t
      case Not(b) => WeightPositive(b); Transform(b)
      case Cmp(equal, x, y) => Cmp(!equal, x, y)
      case Bin(op, l, r) => DeMorganLighter(op, l, r); Transform(Bin(Dual(op), Not(l), Not(r)))
      case Sym(s) => if IsConstTri(s) then Sym(NegateConst(s)) else Not(t)
  }

  /** Negations stand only before symbols other than y, m and n; no boolean symbol is compared with these. */
  predicate NegationNormal(e: Expr) {
    match e
    case Sym(_) => true
    case Not(a) => a.Sym? && !IsConstTri(a.sym)
    case Bin(_, l, r) => NegationNormal(l) && NegationNormal(r)
    case Cmp(_, _, _) => !BooleanTest(e)
  }

  lemma {:induction false} TransformNormalizes(e: Expr)
    ensures NegationNormal(Transform(e))
    decreases Weight(e)
  {
    WeightPositive(e);
    match e
    case Sym(_) =>
    case Cmp(_, _, _) =>
    case Bin(op, l, r) =>
      TransformNormalizes(l);
      TransformNormalizes(r);
    case Not(a) =>
      WeightPositive(a);
      TransformNormalizes(a);
      var t := Transform(a);
      match t
      case Not(b) => TransformNormalizes(b);
      case Bin(op, l, r) =>
        DeMorganLighter(op, l, r);
        TransformNormalizes(Bin(Dual(op), Not(l), Not(r)));
      case _ =>
  }

  lemma {:induction false} TransformPreservesValue(e: Expr, v: Valuation)
    requires WellTyped(v)
    ensures Eval(Transform(e), v) == Eval(e, v)
    decreases Weight(e)
  {
    WeightPositive(e);
    match e
    case Sym(_) =>
    case Cmp(_, a, _) => assert v.str(a) == TriString(v.tri(a)) || a.typ != Boolean;
    case Bin(op, l, r) =>
      TransformPreservesValue(l, v);
      TransformPreservesValue(r, v);
    case Not(a) =>
      WeightPositive(a);
      TransformPreservesValue(a, v);
      var t := Transform(a);
      match t
      case Not(b) => TransformPreservesValue(b, v);
      case Bin(op, l, r) =>
        DeMorganLighter(op, l, r);
        TransformPreservesValue(Bin(Dual(op), Not(l), Not(r)), v);
      case _ =>
  }

  /** A normal form is left alone. */
  lemma {:induction false} TransformFixesNormal(e: Expr)
    requires NegationNormal(e)
    ensures Transform(e) == e
  {
    match e
    case Bin(_, l, r) =>
      TransformFixesNormal(l);
      TransformFixesNormal(r);
    case Not(a) => assert Transform(a) == a;
    case _ =>
  }

  lemma TransformIdempotent(e: Expr)
    ensures Transform(Transform(e)) == Transform(e)
  {
    TransformNormalizes(e);
    TransformFixesNormal(Transform(e));
  }
}
