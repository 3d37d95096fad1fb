/** Joining two operands into one (support/kconfig/expr.c: expr_join_or, expr_join_and). */
module ExprJoin {
  import opened Tristates
  import opened Expressions
  import opened ExprCompare

  /** The symbol the first operand of a join is about. */
  function FirstSubject(e: Expr): Option<Symbol> {
    match e
    case Sym(s) => Some(s)
    case Cmp(_, s, _) => Some(s)
    case Not(Sym(s)) => Some(s)
    case Not(Cmp(_, s, _)) => Some(s)
    case _ => None
  }

  /** The symbol the second operand is about; a negated comparison is not looked into here. */
  function SecondSubject(e: Expr): Option<Symbol> {
    match e
    case Not(Cmp(_, _, _)) => None
    case _ => FirstSubject(e)
  }

  /** One of `e1`, `e2` is the bare symbol, the other compares it with `c`. */
  predicate SymbolAndTest(e1: Expr, e2: Expr, equal: bool, c: Symbol) {
    || (e1.Sym? && e2.Cmp? && e2.equal == equal && e2.rhs == c)
    || (e2.Sym? && e1.Cmp? && e1.equal == equal && e1.rhs == c)
  }

  /** Both operands are tests of the same kind, one against `c` and one against `d`. */
  predicate TwoTests(e1: Expr, e2: Expr, equal: bool, c: Symbol, d: Symbol) {
    && e1.Cmp? && e2.Cmp? && e1.equal == equal && e2.equal == equal
    && ((e1.rhs == c && e2.rhs == d) || (e1.rhs == d && e2.rhs == c))
  }

  function JoinOr(e1: Expr, e2: Expr): Option<Expr> {
    if ExprEq(e1, e2) then Some(e1)
    else if FirstSubject(e1).None? || FirstSubject(e1) != SecondSubject(e2) then None
    else
      var s := FirstSubject(e1).value;
      if s.typ == Tri && TwoTests(e1, e2, true, symbolYes, symbolMod) then Some(Cmp(false, s, symbolNo))
      else if s.typ == Tri && TwoTests(e1, e2, true, symbolYes, symbolNo) then Some(Cmp(false, s, symbolMod))
      else if s.typ == Tri && TwoTests(e1, e2, true, symbolMod, symbolNo) then Some(Cmp(false, s, symbolYes))
      else if s.typ == Boolean && ((e1 == Not(Sym(s)) && e2.Sym?) || (e2 == Not(Sym(s)) && e1.Sym?))
        then Some(Sym(symbolYes))
      else None
  }

  /** (a='b') && (a!='c') with constants b and c. */
  function JoinTests(s: Symbol, b: Symbol, c: Symbol): Option<Expr> {
    if c.Constant? && b.Constant? then Some(if b != c then Cmp(true, s, b) else Sym(symbolNo)) else None
  }

  function JoinAnd(e1: Expr, e2: Expr): Option<Expr> {
    if ExprEq(e1, e2) then Some(e1)
    else if FirstSubject(e1).None? || FirstSubject(e1) != SecondSubject(e2) then None
    else
      var s := FirstSubject(e1).value;
      if s.typ != Boolean && s.typ != Tri then None
      else if SymbolAndTest(e1, e2, true, symbolYes) then Some(Cmp(true, s, symbolYes))
      else if SymbolAndTest(e1, e2, false, symbolNo) then Some(Sym(s))
      else if SymbolAndTest(e1, e2, false, symbolMod) then Some(Cmp(true, s, symbolYes))
      else if s.typ == Boolean then None
      else if e1.Cmp? && e2.Cmp? && e1.equal && !e2.equal && JoinTests(s, e1.rhs, e2.rhs).Some?
        then JoinTests(s, e1.rhs, e2.rhs)
      else if e1.Cmp? && e2.Cmp? && !e1.equal && e2.equal && JoinTests(s, e2.rhs, e1.rhs).Some?
        then JoinTests(s, e2.rhs, e1.rhs)
      else if TwoTests(e1, e2, false, symbolYes, symbolNo) then Some(Cmp(true, s, symbolMod))
      else if TwoTests(e1, e2, false, symbolYes, symbolMod) then Some(Cmp(true, s, symbolNo))
      else if TwoTests(e1, e2, false, symbolMod, symbolNo) then Some(Cmp(true, s, symbolYes))
      else None
  }

  function Join(op: Op, e1: Expr, e2: Expr): Option<Expr> {
    match op
    case And => JoinAnd(e1, e2)
    case Or => JoinOr(e1, e2)
  }

  lemma JoinOrExact(e1: Expr, e2: Expr, v: Valuation)
    requires WellTyped(v) && JoinOr(e1, e2).Some?
    ensures Eval(JoinOr(e1, e2).value, v) == Max(Eval(e1, v), Eval(e2, v))
  {
    if ExprEq(e1, e2) {
      ExprEqSound(e1, e2, v);
    } else {
      var s := FirstSubject(e1).value;
      assert v.str(s) == TriString(v.tri(s));
    }
  }

  lemma JoinAndExact(e1: Expr, e2: Expr, v: Valuation)
    requires WellTyped(v) && JoinAnd(e1, e2).Some?
    ensures Eval(JoinAnd(e1, e2).value, v) == Min(Eval(e1, v), Eval(e2, v))
  {
    if ExprEq(e1, e2) {
      ExprEqSound(e1, e2, v);
    } else {
      var s := FirstSubject(e1).value;
      assert v.str(s) == TriString(v.tri(s));
    }
  }

  /** A join has exactly the value of the two operands it stands for, also when symbols are m. */
  lemma JoinExact(op: Op, e1: Expr, e2: Expr, v: Valuation)
    requires WellTyped(v) && Join(op, e1, e2).Some?
    ensures Eval(Join(op, e1, e2).value, v) == Apply(op, Eval(e1, v), Eval(e2, v))
  {
    match op
    case And => JoinAndExact(e1, e2, v);
    case Or => JoinOrExact(e1, e2, v);
  }

  /** A join is a copy of the first operand or a single node. */
  lemma JoinShape(op: Op, e1: Expr, e2: Expr)
    requires Join(op, e1, e2).Some?
    ensures Join(op, e1, e2).value == e1 || !Join(op, e1, e2).value.Bin?
    ensures Size(Join(op, e1, e2).value) + 1 <= Size(e1) + Size(e2)
  {
    SizePositive(e1);
    SizePositive(e2);
  }

  /** Every expression joins with a copy of itself. */
  lemma JoinSelf(op: Op, e: Expr)
    ensures Join(op, e, e) == Some(e)
  {
    ExprEqReflexive(e);
  }

  /** Testing one tristate symbol for two of its values is joined to the test against the third. */
  lemma JoinCoversTests(s: Symbol, a: Symbol, b: Symbol, c: Symbol)
    requires s.typ == Tri
    requires {a, b, c} == {symbolYes, symbolMod, symbolNo}
    ensures Join(Or, Cmp(true, s, a), Cmp(true, s, b)) == Some(Cmp(false, s, c))
    ensures Join(And, Cmp(false, s, a), Cmp(false, s, b)) == Some(Cmp(true, s, c))
    ensures Join(And, Cmp(true, s, a), Cmp(false, s, b)) == Some(Cmp(true, s, a))
  {
    assert a in {symbolYes, symbolMod, symbolNo} && b in {symbolYes, symbolMod, symbolNo};
    assert symbolYes in {a, b, c} && symbolMod in {a, b, c} && symbolNo in {a, b, c};
  }
}
