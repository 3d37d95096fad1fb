/**
 Constant folding, comparison and common-part extraction of expressions
 (support/kconfig/expr.c: expr_eliminate_yn, expr_eq, expr_eliminate_eq, expr_extract_eq).
 The C code rewrites two trees in place; here each function returns both new trees.
 */
module ExprCompare {
  import opened Tristates
  import opened Expressions

  // ----- expr_eliminate_yn -----

  /** One node of expr_eliminate_yn, its operands being folded already. */
  function FoldNode(op: Op, l: Expr, r: Expr): Expr {
    if l == Sym(AbsorbingSym(op)) then l
    else if l == Sym(NeutralSym(op)) then r
    else if r == Sym(AbsorbingSym(op)) then r
    else if r == Sym(NeutralSym(op)) then l
    else Bin(op, l, r)
  }

  function EliminateYn(e: Expr): (r: Expr)
    ensures Size(r) <= Size(e)
  {
    match e
    case Bin(op, l, r) => FoldNode(op, EliminateYn(l), EliminateYn(r))
    case _ => e
  }

  /** No "and"/"or" outside a negation has y or n as an operand. */
  predicate Folded(e: Expr) {
    e.Bin? ==> !IsYesOrNo(e.left) && !IsYesOrNo(e.right) && Folded(e.left) && Folded(e.right)
  }

  lemma {:induction false} EliminateYnCorrect(e: Expr, v: Valuation)
    requires WellTyped(v)
    ensures Eval(EliminateYn(e), v) == Eval(e, v)
    ensures Folded(EliminateYn(e))
  {
    match e
    case Bin(op, l, r) =>
      EliminateYnCorrect(l, v);
      EliminateYnCorrect(r, v);
    case _ =>
  }

  lemma {:induction false} EliminateYnIdempotent(e: Expr)
    requires Folded(e)
    ensures EliminateYn(e) == e
  {
    if e.Bin? {
      EliminateYnIdempotent(e.left);
      EliminateYnIdempotent(e.right);
    }
  }

  /** An expression that is not folded loses nodes. */
  lemma {:induction false} EliminateYnShrinks(e: Expr)
    requires !Folded(e)
    ensures Size(EliminateYn(e)) < Size(e)
  {
    if !Folded(e.left) {
      EliminateYnShrinks(e.left);
    }
    if !Folded(e.right) {
      EliminateYnShrinks(e.right);
    }
  }

  // ----- expr_eq and expr_eliminate_eq -----

  /** Two trees after a common part has been cut out of both; `count` is the growth of trans_count. */
  datatype Pair = Pair(fst: Expr, snd: Expr, count: nat)

  /** expr_eq */
  predicate ExprEq(e1: Expr, e2: Expr)
    decreases Size(e1) + Size(e2), 2
  {
    match (e1, e2)
    case (Cmp(q1, a1, b1), Cmp(q2, a2, b2)) => q1 == q2 && a1 == a2 && b1 == b2
    case (Sym(s1), Sym(s2)) => s1 == s2
    case (Not(a1), Not(a2)) => ExprEq(a1, a2)
    case (Bin(op1, _, _), Bin(op2, _, _)) =>
      && op1 == op2
      && var p := EliminateEq(e1, e2);
         p.fst.Sym? && p.snd.Sym? && p.fst == p.snd
    case _ => false
  }

  /** __expr_eliminate_eq */
  function CutEq(op: Op, e1: Expr, e2: Expr): (p: Pair)
    ensures Size(p.fst) <= Size(e1) && Size(p.snd) <= Size(e2)
    ensures IsOp(op, p.fst) == IsOp(op, e1) && IsOp(op, p.snd) == IsOp(op, e2)
    ensures p.count == 0 ==> p.fst == e1 && p.snd == e2
    ensures !IsOp(op, e1) && p.count > 0 ==> p.fst == Sym(NeutralSym(op))
    ensures !IsOp(op, e2) && p.count > 0 ==> p.snd == Sym(NeutralSym(op))
    decreases Size(e1) + Size(e2), if IsOp(op, e1) || IsOp(op, e2) then 0 else 3
  {
    if IsOp(op, e1) then
      var p := CutEq(op, e1.left, e2);
      var q := CutEq(op, e1.right, p.snd);
      Pair(Bin(op, p.fst, q.fst), q.snd, p.count + q.count)
    else if IsOp(op, e2) then
      var p := CutEq(op, e1, e2.left);
      var q := CutEq(op, p.fst, e2.right);
      Pair(q.fst, Bin(op, p.snd, q.snd), p.count + q.count)
    else if e1 == e2 && IsYesOrNo(e1) then Pair(e1, e2, 0)
    else if !ExprEq(e1, e2) then Pair(e1, e2, 0)
    else Pair(Sym(NeutralSym(op)), Sym(NeutralSym(op)), 1)
  }

  /** expr_eliminate_eq on two non-NULL expressions */
  function EliminateEq(e1: Expr, e2: Expr): (p: Pair)
    decreases Size(e1) + Size(e2), 1
  {
    var p := if e1.Bin? then CutEq(e1.op, e1, e2) else Pair(e1, e2, 0);
    var sameType := p.fst.Bin? && p.snd.Bin? && p.fst.op == p.snd.op;
    var q := if p.snd.Bin? && !sameType then CutEq(p.snd.op, p.fst, p.snd) else Pair(p.fst, p.snd, 0);
    Pair(EliminateYn(q.fst), EliminateYn(q.snd), p.count + q.count)
  }

  /** `m` combined with each of the new values gives back the old ones. */
  ghost predicate Split(op: Op, e1: Expr, e2: Expr, p: Pair, v: Valuation, m: Tristate) {
    && Eval(e1, v) == Apply(op, m, Eval(p.fst, v))
    && Eval(e2, v) == Apply(op, m, Eval(p.snd, v))
  }

  /** expr_eq is sound: it holds only of expressions with equal values. */
  lemma {:induction false} ExprEqSound(e1: Expr, e2: Expr, v: Valuation)
    requires WellTyped(v)
    requires ExprEq(e1, e2)
    ensures Eval(e1, v) == Eval(e2, v)
    decreases Size(e1) + Size(e2), 2
  {
    match (e1, e2)
    case (Not(a1), Not(a2)) => ExprEqSound(a1, a2, v);
    case (Bin(op, _, _), Bin(_, _, _)) => var m := EliminateEqSplits(e1, e2, v);
    case _ =>
  }

  lemma {:induction false} CutEqSplits(op: Op, e1: Expr, e2: Expr, v: Valuation) returns (m: Tristate)
    requires WellTyped(v)
    ensures Split(op, e1, e2, CutEq(op, e1, e2), v, m)
    decreases Size(e1) + Size(e2), if IsOp(op, e1) || IsOp(op, e2) then 0 else 3
  {
    if IsOp(op, e1) {
      var p := CutEq(op, e1.left, e2);
      var m1 := CutEqSplits(op, e1.left, e2, v);
      var m2 := CutEqSplits(op, e1.right, p.snd, v);
      var q := CutEq(op, e1.right, p.snd);
      m := Apply(op, m1, m2);
      Regroup(op, m1, m2, Eval(p.fst, v), Eval(q.fst, v));
      Regroup(op, m1, m2, Eval(q.snd, v), Eval(q.snd, v));
    } else if IsOp(op, e2) {
      var p := CutEq(op, e1, e2.left);
      var m1 := CutEqSplits(op, e1, e2.left, v);
      var m2 := CutEqSplits(op, p.fst, e2.right, v);
      var q := CutEq(op, p.fst, e2.right);
      m := Apply(op, m1, m2);
      Regroup(op, m1, m2, Eval(p.snd, v), Eval(q.snd, v));
      Regroup(op, m1, m2, Eval(q.fst, v), Eval(q.fst, v));
    } else {
      m := Neutral(op);
      if CutEq(op, e1, e2).count == 1 {
        ExprEqSound(e1, e2, v);
        m := Eval(e1, v);
      }
    }
  }

  /** The connective along which expr_eliminate_eq splits its two arguments. */
  function SplitOp(e1: Expr, e2: Expr): Op {
    if e1.Bin? && (CutEq(e1.op, e1, e2).count > 0 || !e2.Bin?) then e1.op
    else if e2.Bin? then e2.op
    else And
  }

  lemma {:induction false} EliminateEqSplits(e1: Expr, e2: Expr, v: Valuation) returns (m: Tristate)
    requires WellTyped(v)
    ensures Split(SplitOp(e1, e2), e1, e2, EliminateEq(e1, e2), v, m)
    decreases Size(e1) + Size(e2), 1
  {
    m := Neutral(SplitOp(e1, e2));
    if e1.Bin? {
      m := CutEqSplits(e1.op, e1, e2, v);
    }
    var p := if e1.Bin? then CutEq(e1.op, e1, e2) else Pair(e1, e2, 0);
    var q := p;
    if p.snd.Bin? && !(p.fst.Bin? && p.fst.op == p.snd.op) {
      q := CutEq(p.snd.op, p.fst, p.snd);
      var m2 := CutEqSplits(p.snd.op, p.fst, p.snd, v);
      if p.count == 0 { m := m2; }
    }
    EliminateYnCorrect(q.fst, v);
    EliminateYnCorrect(q.snd, v);
  }

  // ----- what is left after cutting -----

  /** The maximal subexpressions below the `op` nodes at the root. */
  function Operands(op: Op, e: Expr): set<Expr> {
    if IsOp(op, e) then Operands(op, e.left) + Operands(op, e.right) else {e}
  }

  /** Two remainders share no operand but the constants y and n. */
  ghost predicate NothingShared(op: Op, e1: Expr, e2: Expr) {
    forall x, y :: x in Operands(op, e1) && y in Operands(op, e2) && ExprEq(x, y) ==> IsYesOrNo(x)
  }

  /** Cutting leaves operands that were there before, or the neutral constant. */
  lemma {:induction false} CutEqOperands(op: Op, e1: Expr, e2: Expr)
    ensures Operands(op, CutEq(op, e1, e2).fst) <= Operands(op, e1) + {Sym(NeutralSym(op))}
    ensures Operands(op, CutEq(op, e1, e2).snd) <= Operands(op, e2) + {Sym(NeutralSym(op))}
    decreases Size(e1) + Size(e2)
  {
    if IsOp(op, e1) {
      CutEqOperands(op, e1.left, e2);
      CutEqOperands(op, e1.right, CutEq(op, e1.left, e2).snd);
    } else if IsOp(op, e2) {
      CutEqOperands(op, e1, e2.left);
      CutEqOperands(op, CutEq(op, e1, e2.left).fst, e2.right);
    }
  }

  /** What shares nothing with `e` shares nothing with a part of `e`. */
  lemma SharedLess(op: Op, x: Expr, y: Expr, y': Expr)
    requires NothingShared(op, x, y) && Operands(op, y') <= Operands(op, y) + {Sym(NeutralSym(op))}
    ensures NothingShared(op, x, y')
  {}

  lemma SharedLessLeft(op: Op, x: Expr, y: Expr, x': Expr)
    requires NothingShared(op, x, y) && Operands(op, x') <= Operands(op, x) + {Sym(NeutralSym(op))}
    ensures NothingShared(op, x', y)
  {}

  /** __expr_eliminate_eq cuts out everything the two expressions share. */
  lemma {:induction false} CutEqMaximal(op: Op, e1: Expr, e2: Expr)
    ensures NothingShared(op, CutEq(op, e1, e2).fst, CutEq(op, e1, e2).snd)
    decreases Size(e1) + Size(e2)
  {
    if IsOp(op, e1) {
      var p := CutEq(op, e1.left, e2);
      CutEqMaximal(op, e1.left, e2);
      CutEqMaximal(op, e1.right, p.snd);
      CutEqOperands(op, e1.right, p.snd);
      SharedLess(op, p.fst, p.snd, CutEq(op, e1.right, p.snd).snd);
    } else if IsOp(op, e2) {
      var p := CutEq(op, e1, e2.left);
      CutEqMaximal(op, e1, e2.left);
      CutEqMaximal(op, p.fst, e2.right);
      CutEqOperands(op, p.fst, e2.right);
      SharedLessLeft(op, p.fst, p.snd, CutEq(op, p.fst, e2.right).fst);
    }
  }

  // ----- expr_eq is reflexive -----

  /** Every operand has been cut out or is a constant. */
  predicate Consumed(op: Op, e: Expr) {
    if IsOp(op, e) then Consumed(op, e.left) && Consumed(op, e.right) else IsYesOrNo(e)
  }

  lemma {:induction false} CutConsumed(op: Op, c: Expr, e: Expr)
    requires Consumed(op, c)
    ensures CutEq(op, c, e) == Pair(c, e, 0)
    ensures CutEq(op, e, c) == Pair(e, c, 0)
    decreases Size(c) + Size(e)
  {
    if IsOp(op, c) {
      CutConsumed(op, c.left, e);
      CutConsumed(op, c.right, e);
    }
    if IsOp(op, e) {
      CutConsumed(op, c, e.left);
      CutConsumed(op, c, e.right);
    }
  }

  /** Cutting against `a op b` is cutting against `a`, then against `b`. */
  lemma {:induction false} CutInTurn(op: Op, x: Expr, a: Expr, b: Expr)
    ensures var s := CutEq(op, x, a);
            var t := CutEq(op, s.fst, b);
            CutEq(op, x, Bin(op, a, b)) == Pair(t.fst, Bin(op, s.snd, t.snd), s.count + t.count)
    decreases Size(x)
  {
    if IsOp(op, x) {
      var s := CutEq(op, x.left, a);
      var t := CutEq(op, s.fst, b);
      CutInTurn(op, x.left, a, b);
      CutInTurn(op, x.right, s.snd, t.snd);
    }
  }

  lemma {:induction false} CutSelf(op: Op, e: Expr)
    ensures var p := CutEq(op, e, e); p.fst == p.snd && Consumed(op, p.fst)
    decreases Size(e), if IsOp(op, e) then 0 else 2
  {
    if IsOp(op, e) {
      var c := CutEq(op, e.left, e.left).fst;
      CutSelf(op, e.left);
      CutSelf(op, e.right);
      CutInTurn(op, e.left, e.left, e.right);
      CutConsumed(op, c, e.right);
      CutInTurn(op, e.right, c, e.right);
    } else {
      ExprEqReflexive(e);
    }
  }

  lemma {:induction false} FoldConsumed(op: Op, e: Expr)
    requires Consumed(op, e)
    ensures IsYesOrNo(EliminateYn(e))
  {
    if IsOp(op, e) {
      FoldConsumed(op, e.left);
      FoldConsumed(op, e.right);
    }
  }

  lemma {:induction false} ExprEqReflexive(e: Expr)
    ensures ExprEq(e, e)
    decreases Size(e), 1
  {
    match e
    case Not(a) => ExprEqReflexive(a);
    case Bin(op, _, _) =>
      CutSelf(op, e);
      FoldConsumed(op, CutEq(op, e, e).fst);
    case _ =>
  }

  // ----- expr_extract_eq -----

  /** `common` is the part taken out of both expressions; None while nothing has been found. */
  datatype Extraction = Extraction(common: Option<Expr>, fst: Expr, snd: Expr)

  /** expr_extract_eq, with `acc` the common part found so far */
  function Extract(op: Op, acc: Option<Expr>, e1: Expr, e2: Expr): (x: Extraction)
    ensures Size(x.fst) <= Size(e1) && Size(x.snd) <= Size(e2)
    decreases Size(e1) + Size(e2)
  {
    if IsOp(op, e1) then
      var a := Extract(op, acc, e1.left, e2);
      var b := Extract(op, a.common, e1.right, a.snd);
      Extraction(b.common, Bin(op, a.fst, b.fst), b.snd)
    else if IsOp(op, e2) then
      var a := Extract(op, acc, e1, e2.left);
      var b := Extract(op, a.common, a.fst, e2.right);
      Extraction(b.common, b.fst, Bin(op, a.snd, b.snd))
    else if ExprEq(e1, e2) then
      Extraction(Alloc(op, acc, Some(e1)), Sym(NeutralSym(op)), Sym(NeutralSym(op)))
    else
      Extraction(acc, e1, e2)
  }

  /** expr_extract_eq_and and expr_extract_eq_or */
  function ExtractEq(op: Op, e1: Expr, e2: Expr): Extraction {
    var x := Extract(op, None, e1, e2);
    if x.common.None? then x else Extraction(x.common, EliminateYn(x.fst), EliminateYn(x.snd))
  }

  /** The value of a common part: nothing found so far is the neutral value. */
  function CommonValue(op: Op, common: Option<Expr>, v: Valuation): Tristate {
    match common
    case None => Neutral(op)
    case Some(e) => Eval(e, v)
  }

  lemma {:induction false} ExtractSplits(op: Op, acc: Option<Expr>, e1: Expr, e2: Expr, v: Valuation)
    requires WellTyped(v)
    ensures var x := Extract(op, acc, e1, e2);
            && Apply(op, CommonValue(op, acc, v), Eval(e1, v)) ==
               Apply(op, CommonValue(op, x.common, v), Eval(x.fst, v))
            && Apply(op, CommonValue(op, acc, v), Eval(e2, v)) ==
               Apply(op, CommonValue(op, x.common, v), Eval(x.snd, v))
    decreases Size(e1) + Size(e2)
  {
    if IsOp(op, e1) {
      var a := Extract(op, acc, e1.left, e2);
      ExtractSplits(op, acc, e1.left, e2, v);
      ExtractSplits(op, a.common, e1.right, a.snd, v);
      var b := Extract(op, a.common, e1.right, a.snd);
      Exchange(op, CommonValue(op, acc, v), CommonValue(op, a.common, v), CommonValue(op, b.common, v),
               Eval(e1.left, v), Eval(e1.right, v), Eval(a.fst, v), Eval(b.fst, v));
    } else if IsOp(op, e2) {
      var a := Extract(op, acc, e1, e2.left);
      ExtractSplits(op, acc, e1, e2.left, v);
      ExtractSplits(op, a.common, a.fst, e2.right, v);
      var b := Extract(op, a.common, a.fst, e2.right);
      Exchange(op, CommonValue(op, acc, v), CommonValue(op, a.common, v), CommonValue(op, b.common, v),
               Eval(e2.left, v), Eval(e2.right, v), Eval(a.snd, v), Eval(b.snd, v));
    } else if ExprEq(e1, e2) {
      ExprEqSound(e1, e2, v);
    }
  }

  /** Both inputs are the common part combined with their remainder. */
  lemma ExtractEqSplits(op: Op, e1: Expr, e2: Expr, v: Valuation)
    requires WellTyped(v)
    ensures var x := ExtractEq(op, e1, e2);
            && Eval(e1, v) == Apply(op, CommonValue(op, x.common, v), Eval(x.fst, v))
            && Eval(e2, v) == Apply(op, CommonValue(op, x.common, v), Eval(x.snd, v))
  {
    var x := Extract(op, None, e1, e2);
    ExtractSplits(op, None, e1, e2, v);
    EliminateYnCorrect(x.fst, v);
    EliminateYnCorrect(x.snd, v);
  }

  lemma {:induction false} ExtractMaximal(op: Op, acc: Option<Expr>, e1: Expr, e2: Expr)
    ensures NothingShared(op, Extract(op, acc, e1, e2).fst, Extract(op, acc, e1, e2).snd)
    ensures Operands(op, Extract(op, acc, e1, e2).fst) <= Operands(op, e1) + {Sym(NeutralSym(op))}
    ensures Operands(op, Extract(op, acc, e1, e2).snd) <= Operands(op, e2) + {Sym(NeutralSym(op))}
    decreases Size(e1) + Size(e2)
  {
    if IsOp(op, e1) {
      var a := Extract(op, acc, e1.left, e2);
      ExtractMaximal(op, acc, e1.left, e2);
      ExtractMaximal(op, a.common, e1.right, a.snd);
    } else if IsOp(op, e2) {
      var a := Extract(op, acc, e1, e2.left);
      ExtractMaximal(op, acc, e1, e2.left);
      ExtractMaximal(op, a.common, a.fst, e2.right);
    }
  }
}
