/** An expression that expr_eliminate_dups turns from m into n (support/kconfig/expr.c: expr_eliminate_dups2). */
module ExprCancel {
  import opened Tristates
  import opened Expressions
  import opened ExprCompare
  import opened ExprTransform
  import opened ExprJoin
  import opened Spine
  import opened ExprDups

  // ----- when expr_eliminate_dups1 changes nothing -----

  /** No two operands can be joined, and nothing is left to do inside an operand. */
  ghost predicate NothingToJoin(op: Op, t: Expr) {
    && (forall p: Path, q: Path {:trigger JoinablePair(op, t, p, q)} :: !JoinablePair(op, t, p, q))
    && (forall p: Path {:trigger At(op, t, p)} :: InSpine(op, t, p) && IsOp(Dual(op), At(op, t, p)) ==>
          Dups1(Dual(op), At(op, t, p), [], []).count == 0)
  }

  lemma {:induction false} Dups1Quiet(op: Op, t: Expr, p: Path, q: Path)
    requires InSpine(op, t, p) && InSpine(op, t, q) && NothingToJoin(op, t)
    ensures Dups1(op, t, p, q) == Rewrite(t, 0)
    decreases Span(op, At(op, t, p)) + Span(op, At(op, t, q))
  {
    if IsOp(op, At(op, t, p)) {
      Descend(op, t, p, Left);
      Descend(op, t, p, Right);
      Dups1Quiet(op, t, p + [Left], q);
      Dups1Quiet(op, t, p + [Right], q);
    } else if IsOp(op, At(op, t, q)) {
      Descend(op, t, q, Left);
      Descend(op, t, q, Right);
      Dups1Quiet(op, t, p, q + [Left]);
      Dups1Quiet(op, t, p, q + [Right]);
    } else if p != q {
      assert !JoinablePair(op, t, p, q);
      PutSame(op, t, p);
    }
  }

  // ----- the expression -----

  function Either(a: Symbol, b: Symbol): Expr { Bin(Or, Sym(a), Sym(b)) }

  function Neither(a: Symbol, b: Symbol): Expr { Bin(And, Not(Sym(a)), Not(Sym(b))) }

  function Contradiction(a: Symbol, b: Symbol): Expr { Bin(And, Either(a, b), Neither(a, b)) }

  lemma EitherOperands(a: Symbol, b: Symbol, p: Path)
    requires InSpine(Or, Either(a, b), p) && !IsOp(Or, At(Or, Either(a, b), p))
    ensures p == [Left] || p == [Right]
    ensures At(Or, Either(a, b), p) == if p == [Left] then Sym(a) else Sym(b)
  {
    if p != [] {
      assert p == [p[0]] + p[1..];
    }
  }

  lemma NeitherOperands(a: Symbol, b: Symbol, p: Path)
    requires InSpine(And, Neither(a, b), p) && !IsOp(And, At(And, Neither(a, b), p))
    ensures p == [Left] || p == [Right]
    ensures At(And, Neither(a, b), p) == if p == [Left] then Not(Sym(a)) else Not(Sym(b))
  {
    if p != [] {
      assert p == [p[0]] + p[1..];
    }
  }

  lemma ContradictionOperands(a: Symbol, b: Symbol, p: Path)
    requires InSpine(And, Contradiction(a, b), p) && !IsOp(And, At(And, Contradiction(a, b), p))
    ensures p == [Left] || p == [Right, Left] || p == [Right, Right]
    ensures At(And, Contradiction(a, b), p) ==
            if p == [Left] then Either(a, b) else if p == [Right, Left] then Not(Sym(a)) else Not(Sym(b))
  {
    assert p != [] && p == [p[0]] + p[1..];
    if p[0] == Right {
      NeitherOperands(a, b, p[1..]);
    }
  }

  /** The operands are about different things. */
  lemma NoJoins(a: Symbol, b: Symbol, x: Expr, y: Expr)
    requires a != b && x != y
    ensures x in {Sym(a), Sym(b)} && y in {Sym(a), Sym(b)} ==> Join(Or, x, y).None?
    ensures x in {Either(a, b), Not(Sym(a)), Not(Sym(b))} && y in {Either(a, b), Not(Sym(a)), Not(Sym(b))} ==>
            Join(And, x, y).None?
  {
    assert !ExprEq(Sym(a), Sym(b)) && !ExprEq(Sym(b), Sym(a));
    assert !ExprEq(Not(Sym(a)), Not(Sym(b))) && !ExprEq(Not(Sym(b)), Not(Sym(a)));
  }

  lemma EitherQuiet(a: Symbol, b: Symbol)
    requires a != b
    ensures Dups1(Or, Either(a, b), [], []) == Rewrite(Either(a, b), 0)
  {
    var t := Either(a, b);
    forall p: Path, q: Path {:trigger JoinablePair(Or, t, p, q)}
      ensures !JoinablePair(Or, t, p, q)
    {
      if JoinablePair(Or, t, p, q) {
        EitherOperands(a, b, p);
        EitherOperands(a, b, q);
        NoJoins(a, b, At(Or, t, p), At(Or, t, q));
      }
    }
    forall p: Path {:trigger At(Or, t, p)} | InSpine(Or, t, p)
      ensures !IsOp(And, At(Or, t, p))
    {
      if IsOp(And, At(Or, t, p)) {
        EitherOperands(a, b, p);
      }
    }
    Dups1Quiet(Or, t, [], []);
  }

  lemma ContradictionQuiet(a: Symbol, b: Symbol)
    requires a != b
    ensures Dups1(And, Contradiction(a, b), [], []) == Rewrite(Contradiction(a, b), 0)
  {
    var t := Contradiction(a, b);
    forall p: Path, q: Path {:trigger JoinablePair(And, t, p, q)}
      ensures !JoinablePair(And, t, p, q)
    {
      if JoinablePair(And, t, p, q) {
        ContradictionOperands(a, b, p);
        ContradictionOperands(a, b, q);
        NoJoins(a, b, At(And, t, p), At(And, t, q));
      }
    }
    forall p: Path {:trigger At(And, t, p)} | InSpine(And, t, p) && IsOp(Or, At(And, t, p))
      ensures Dups1(Or, At(And, t, p), [], []).count == 0
    {
      ContradictionOperands(a, b, p);
      EitherQuiet(a, b);
    }
    Dups1Quiet(And, t, [], []);
  }

  // ----- expr_eliminate_dups2 -----

  /** An operand that is no chain is left alone. */
  lemma {:induction false} Dups2Simple(op: Op, t: Expr, p: Path, q: Path)
    requires InSpine(op, t, p) && InSpine(op, t, q) && !At(op, t, p).Bin?
    ensures Dups2(op, t, p, q) == Rewrite(t, 0)
    decreases Span(op, At(op, t, q))
  {
    if IsOp(op, At(op, t, q)) {
      Descend(op, t, q, Left);
      Descend(op, t, q, Right);
      Dups2Simple(op, t, p, q + [Left]);
      Dups2Simple(op, t, p, q + [Right]);
    }
  }

  lemma EitherKept(a: Symbol, b: Symbol)
    ensures Dups2(Or, Either(a, b), [], []) == Rewrite(Either(a, b), 0)
  {
    var t := Either(a, b);
    Descend(Or, t, [], Left);
    Descend(Or, t, [], Right);
    Dups2Simple(Or, t, [Left], []);
    Dups2Simple(Or, t, [Right], []);
    assert [] + [Left] == [Left] && [] + [Right] == [Right];
  }

  lemma ExtractSelf(a: Symbol, b: Symbol)
    requires a != b
    ensures ExtractEq(And, Neither(a, b), Neither(a, b)).fst == Sym(symbolYes)
  {
    var na, nb := Not(Sym(a)), Not(Sym(b));
    var neg := Neither(a, b);
    var yes := Sym(symbolYes);
    DifferentKinds(symbolYes, Sym(b));
    assert ExprEq(na, na) && ExprEq(nb, nb);
    assert Extract(And, None, na, na) == Extraction(Some(na), yes, yes);
    assert Extract(And, Some(na), yes, nb) == Extraction(Some(na), yes, nb);
    assert Extract(And, Some(na), nb, yes) == Extraction(Some(na), nb, yes);
    assert Extract(And, Some(na), nb, nb) == Extraction(Some(neg), yes, yes);
    assert Extract(And, None, na, neg) == Extraction(Some(na), yes, Bin(And, yes, nb));
    assert Extract(And, Some(na), nb, Bin(And, yes, nb)) == Extraction(Some(neg), yes, Bin(And, yes, yes));
    assert EliminateYn(Bin(And, yes, yes)) == yes;
  }

  lemma DifferentKinds(s: Symbol, a: Expr)
    ensures !ExprEq(Sym(s), Not(a)) && !ExprEq(Not(a), Sym(s))
  {}

  lemma NegatedEither(a: Symbol, b: Symbol)
    requires a.typ == Tri && b.typ == Tri
    ensures Transform(Not(Either(a, b))) == Neither(a, b)
  {
    assert Transform(Sym(a)) == Sym(a) && Transform(Sym(b)) == Sym(b);
    assert Transform(Either(a, b)) == Either(a, b);
    assert NegationNormal(Not(Sym(a))) && NegationNormal(Not(Sym(b)));
    TransformFixesNormal(Neither(a, b));
  }

  lemma Places(a: Symbol, b: Symbol)
    ensures var t := Contradiction(a, b);
            && InSpine(And, t, [Left]) && At(And, t, [Left]) == Either(a, b)
            && InSpine(And, t, [Right]) && At(And, t, [Right]) == Neither(a, b)
  {
    var t := Contradiction(a, b);
    Descend(And, t, [], Left);
    Descend(And, t, [], Right);
    assert [] + [Left] == [Left] && [] + [Right] == [Right];
  }

  lemma ContradictionMod(a: Symbol, b: Symbol, v: Valuation)
    requires v.tri(a) == MOD && v.tri(b) == MOD
    ensures Eval(Contradiction(a, b), v) == MOD
  {
    assert Eval(Not(Sym(a)), v) == MOD && Eval(Not(Sym(b)), v) == MOD;
    assert Eval(Neither(a, b), v) == MOD && Eval(Either(a, b), v) == MOD;
  }

  function Cancelled(a: Symbol, b: Symbol): Expr { Bin(And, Sym(symbolNo), Neither(a, b)) }

  lemma PutFirst(a: Symbol, b: Symbol)
    ensures InSpine(And, Contradiction(a, b), [Left])
    ensures Put(And, Contradiction(a, b), [Left], Sym(symbolNo)) == Cancelled(a, b)
  {
    assert [Left][1..] == [] && [Left][0] == Left;
    assert InSpine(And, Either(a, b), [Left][1..]);
    assert Put(And, Either(a, b), [Left][1..], Sym(symbolNo)) == Sym(symbolNo);
  }

  /** The test of the first operand against any place: it cancels or nothing happens. */
  lemma FirstTested(a: Symbol, b: Symbol, q: Path)
    requires InSpine(And, Contradiction(a, b), q)
    ensures var t := Contradiction(a, b);
            && InSpine(And, t, [Left]) && IsOp(Or, At(And, t, [Left]))
            && CancelAt(And, t, [Left], q).tree in {t, Cancelled(a, b)}
            && PutPass(And, t, [Left], Dups2(Or, At(And, t, [Left]), [], [])) == Rewrite(t, 0)
  {
    Places(a, b);
    EitherKept(a, b);
    PutSame(And, Contradiction(a, b), [Left]);
    PutFirst(a, b);
  }

  /** Against the chain of the others it does. */
  lemma FirstCancels(a: Symbol, b: Symbol)
    requires a != b && a.typ == Tri && b.typ == Tri
    ensures var t := Contradiction(a, b);
            && InSpine(And, t, [Left]) && InSpine(And, t, [Right]) && IsOp(Or, At(And, t, [Left]))
            && CancelAt(And, t, [Left], [Right]) == Rewrite(Cancelled(a, b), 1)
  {
    Places(a, b);
    NegatedEither(a, b);
    ExtractSelf(a, b);
    PutFirst(a, b);
  }

  /** One call of expr_eliminate_dups2 with the first operand on an operand of the rest. */
  lemma FirstOnOperand(a: Symbol, b: Symbol, q: Path)
    requires InSpine(And, Contradiction(a, b), q) && !IsOp(And, At(And, Contradiction(a, b), q))
    ensures InSpine(And, Contradiction(a, b), [Left])
    ensures Dups2(And, Contradiction(a, b), [Left], q).tree in {Contradiction(a, b), Cancelled(a, b)}
  {
    Places(a, b);
    FirstTested(a, b, q);
  }

  lemma CancelledPlaces(a: Symbol, b: Symbol)
    ensures var t := Cancelled(a, b);
            && InSpine(And, t, [Left]) && At(And, t, [Left]) == Sym(symbolNo)
            && InSpine(And, t, [Right]) && At(And, t, [Right]) == Neither(a, b)
            && InSpine(And, t, [Right, Left]) && At(And, t, [Right, Left]) == Not(Sym(a))
            && InSpine(And, t, [Right, Right]) && At(And, t, [Right, Right]) == Not(Sym(b))
  {
    var t := Cancelled(a, b);
    Descend(And, t, [], Left);
    Descend(And, t, [], Right);
    assert [] + [Left] == [Left] && [] + [Right] == [Right];
    Descend(And, t, [Right], Left);
    Descend(And, t, [Right], Right);
    assert [Right] + [Left] == [Right, Left] && [Right] + [Right] == [Right, Right];
  }

  lemma RestPlaces(a: Symbol, b: Symbol)
    ensures var t := Contradiction(a, b);
            && InSpine(And, t, [Right, Left]) && !IsOp(And, At(And, t, [Right, Left]))
            && InSpine(And, t, [Right, Right]) && !IsOp(And, At(And, t, [Right, Right]))
  {
    var t := Contradiction(a, b);
    Places(a, b);
    Descend(And, t, [Right], Left);
    Descend(And, t, [Right], Right);
    assert [Right] + [Left] == [Right, Left] && [Right] + [Right] == [Right, Right];
  }

  /** The first operand on the operands of the rest, one after the other. */
  lemma FirstOnEach(a: Symbol, b: Symbol) returns (t1: Expr, t2: Expr)
    ensures var t := Contradiction(a, b);
            && InSpine(And, t, [Left]) && InSpine(And, t, [Right, Left]) &&
               t1 == Dups2(And, t, [Left], [Right, Left]).tree
            && InSpine(And, t1, [Left]) && InSpine(And, t1, [Right, Right]) &&
               t2 == Dups2(And, t1, [Left], [Right, Right]).tree
            && t2 in {t, Cancelled(a, b)}
  {
    var t := Contradiction(a, b);
    Places(a, b);
    RestPlaces(a, b);
    CancelledPlaces(a, b);
    FirstOnOperand(a, b, [Right, Left]);
    FirstOnOperand(a, b, [Right, Right]);
    Dups2Simple(And, Cancelled(a, b), [Left], [Right, Right]);
    t1 := Dups2(And, t, [Left], [Right, Left]).tree;
    t2 := Dups2(And, t1, [Left], [Right, Right]).tree;
  }

  lemma FirstOnRest(a: Symbol, b: Symbol)
    requires a != b && a.typ == Tri && b.typ == Tri
    ensures InSpine(And, Contradiction(a, b), [Left]) && InSpine(And, Contradiction(a, b), [Right])
    ensures Dups2(And, Contradiction(a, b), [Left], [Right]).tree == Cancelled(a, b)
  {
    Places(a, b);
    CancelledPlaces(a, b);
    var t1, t2 := FirstOnEach(a, b);
    assert [Right] + [Left] == [Right, Left] && [Right] + [Right] == [Right, Right];
    FirstTested(a, b, [Right]);
    FirstCancels(a, b);
  }

  lemma FirstOnAll(a: Symbol, b: Symbol)
    requires a != b && a.typ == Tri && b.typ == Tri
    ensures InSpine(And, Contradiction(a, b), [Left])
    ensures Dups2(And, Contradiction(a, b), [Left], []).tree == Cancelled(a, b)
  {
    var t := Contradiction(a, b);
    Places(a, b);
    CancelledPlaces(a, b);
    assert [] + [Left] == [Left] && [] + [Right] == [Right];
    assert Dups2(And, t, [Left], [Left]) == Rewrite(t, 0);
    FirstOnRest(a, b);
  }

  lemma RestKept(a: Symbol, b: Symbol)
    ensures InSpine(And, Cancelled(a, b), [Right]) &&
            Dups2(And, Cancelled(a, b), [Right], []) == Rewrite(Cancelled(a, b), 0)
  {
    CancelledPlaces(a, b);
    assert [Right] + [Left] == [Right, Left] && [Right] + [Right] == [Right, Right];
    Dups2Simple(And, Cancelled(a, b), [Right, Left], []);
    Dups2Simple(And, Cancelled(a, b), [Right, Right], []);
  }

  lemma ContradictionPass(a: Symbol, b: Symbol)
    requires a != b && a.typ == Tri && b.typ == Tri
    ensures Pass(Contradiction(a, b)).tree == Cancelled(a, b) && Pass(Contradiction(a, b)).count > 0
  {
    var t := Contradiction(a, b);
    ContradictionQuiet(a, b);
    FirstOnAll(a, b);
    RestKept(a, b);
    assert [] + [Left] == [Left] && [] + [Right] == [Right];
    assert Dups2(And, t, [], []).tree == Cancelled(a, b);
  }

  /** With both symbols m the expression is m, but what it is simplified to is n. */
  lemma CancelDecidesMod(a: Symbol, b: Symbol, v: Valuation)
    requires a != b && a.typ == Tri && b.typ == Tri && WellTyped(v) && v.tri(a) == MOD && v.tri(b) == MOD
    ensures Eval(Contradiction(a, b), v) == MOD
    ensures Simplified(Contradiction(a, b)) == Sym(symbolNo) && Eval(Simplified(Contradiction(a, b)), v) == NO
  {
    ContradictionMod(a, b, v);
    ContradictionPass(a, b);
    assert EliminateYn(Cancelled(a, b)) == Sym(symbolNo);
    assert Simplified(Sym(symbolNo)) == Sym(symbolNo);
  }
}
