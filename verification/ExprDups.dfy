/** Removing duplicate operands (support/kconfig/expr.c: expr_eliminate_dups1, dups2 and dups). */
module ExprDups {
  import opened Tristates
  import opened Expressions
  import opened ExprCompare
  import opened ExprTransform
  import opened ExprJoin
  import opened Spine

  /** A tree after a pass; `count` is what the pass adds to trans_count. */
  datatype Rewrite = Rewrite(tree: Expr, count: nat)

  /** What every pass keeps; an actual change leaves a constant for expr_eliminate_yn. */
  predicate Sound(op: Op, t: Expr, r: Rewrite) {
    && SameSpine(op, t, r.tree)
    && Size(r.tree) <= Size(t)
    && (r.count == 0 ==> r.tree == t)
    && (r.count > 0 ==> !Folded(r.tree))
  }

  lemma SoundTransitive(op: Op, t: Expr, r: Rewrite, r': Rewrite)
    requires Sound(op, t, r) && Sound(op, r.tree, r')
    ensures Sound(op, t, Rewrite(r'.tree, r.count + r'.count))
  {
    SameSpineTransitive(op, t, r.tree, r'.tree);
  }

  // ----- expr_eliminate_dups1 -----

  /** The work on two different operands once the first has been cleaned up itself. */
  function JoinAt(op: Op, t: Expr, p: Path, q: Path): (r: Rewrite)
    requires InSpine(op, t, p) && !IsOp(op, At(op, t, p))
    requires InSpine(op, t, q) && !IsOp(op, At(op, t, q)) && p != q
    ensures Sound(op, t, r)
  {
    var j := Join(op, At(op, t, p), At(op, t, q));
    SameSpineReflexive(op, t);
    if j.None? then Rewrite(t, 0)
    else
      var n := Sym(NeutralSym(op));
      JoinShape(op, At(op, t, p), At(op, t, q));
      PutElsewhere(op, t, p, q, n);
      PutAt(op, t, p, n);
      var u := Put(op, t, p, n);
      PutAt(op, u, q, j.value);
      PutElsewhere(op, u, q, p, j.value);
      var w := Put(op, u, q, j.value);
      PutAt(op, w, p, n);
      SameSpineTransitive(op, t, u, w);
      ConstantOperand(op, w, p);
      Rewrite(w, 1)
  }

  lemma {:induction false} ConstantOperand(op: Op, t: Expr, p: Path)
    requires InSpine(op, t, p) && p != [] && IsYesOrNo(At(op, t, p))
    ensures !Folded(t)
  {
    assert At(op, t, p) == At(op, Child(t, p[0]), p[1..]);
    if p[1..] != [] {
      ConstantOperand(op, Child(t, p[0]), p[1..]);
    }
  }

  /** Replace the operand at `p`, a tree with the other connective, by what a pass made of it. */
  function PutPass(op: Op, t: Expr, p: Path, s: Rewrite): (r: Rewrite)
    requires InSpine(op, t, p) && p != [] && IsOp(Dual(op), At(op, t, p))
    requires Sound(Dual(op), At(op, t, p), s)
    ensures Sound(op, t, r) && InSpine(op, r.tree, p) && At(op, r.tree, p) == s.tree
  {
    PutAt(op, t, p, s.tree);
    PutSame(op, t, p);
    Rewrite(Put(op, t, p, s.tree), s.count)
  }

  lemma {:induction false} PutSame(op: Op, t: Expr, p: Path)
    requires InSpine(op, t, p)
    ensures Put(op, t, p, At(op, t, p)) == t
  {
    if p != [] {
      PutSame(op, Child(t, p[0]), p[1..]);
    }
  }

  lemma {:induction false} OperandSmaller(op: Op, t: Expr, p: Path)
    requires InSpine(op, t, p) && p != []
    ensures Size(At(op, t, p)) < Size(t)
  {
    if p[1..] != [] {
      OperandSmaller(op, Child(t, p[0]), p[1..]);
    }
  }

  /** expr_eliminate_dups1, both pointers inside the `op` chain of `t` */
  function Dups1(op: Op, t: Expr, p: Path, q: Path): (r: Rewrite)
    requires InSpine(op, t, p) && InSpine(op, t, q)
    ensures Sound(op, t, r)
    decreases Size(t), Span(op, At(op, t, p)) + Span(op, At(op, t, q))
  {
    SameSpineReflexive(op, t);
    if IsOp(op, At(op, t, p)) then
      Descend(op, t, p, Left);
      Descend(op, t, p, Right);
      var r1 := Dups1(op, t, p + [Left], q);
      SameSpineAt(op, t, r1.tree, p + [Right]);
      SameSpineAt(op, t, r1.tree, q);
      var r2 := Dups1(op, r1.tree, p + [Right], q);
      SoundTransitive(op, t, r1, r2);
      Rewrite(r2.tree, r1.count + r2.count)
    else if IsOp(op, At(op, t, q)) then
      Descend(op, t, q, Left);
      Descend(op, t, q, Right);
      var r1 := Dups1(op, t, p, q + [Left]);
      SameSpineAt(op, t, r1.tree, q + [Right]);
      SameSpineAt(op, t, r1.tree, p);
      var r2 := Dups1(op, r1.tree, p, q + [Right]);
      SoundTransitive(op, t, r1, r2);
      Rewrite(r2.tree, r1.count + r2.count)
    else if p == q then Rewrite(t, 0)
    else
      var e1 := At(op, t, p);
      PutElsewhere(op, t, p, q, Sym(NeutralSym(op)));
      OperandSmaller(op, t, p);
      var r1 := if e1.Bin? then PutPass(op, t, p, Dups1(e1.op, e1, [], [])) else Rewrite(t, 0);
      SameSpineAt(op, t, r1.tree, p);
      SameSpineAt(op, t, r1.tree, q);
      var r2 := JoinAt(op, r1.tree, p, q);
      SoundTransitive(op, t, r1, r2);
      Rewrite(r2.tree, r1.count + r2.count)
  }

  /** expr_eliminate_dups1 keeps the value exactly, in three-valued logic. */
  lemma {:induction false} Dups1Exact(op: Op, t: Expr, p: Path, q: Path, v: Valuation)
    requires WellTyped(v) && InSpine(op, t, p) && InSpine(op, t, q)
    ensures Eval(Dups1(op, t, p, q).tree, v) == Eval(t, v)
    decreases Size(t), Span(op, At(op, t, p)) + Span(op, At(op, t, q))
  {
    if IsOp(op, At(op, t, p)) {
      Descend(op, t, p, Left);
      Descend(op, t, p, Right);
      var r1 := Dups1(op, t, p + [Left], q);
      SameSpineAt(op, t, r1.tree, p + [Right]);
      SameSpineAt(op, t, r1.tree, q);
      Dups1Exact(op, t, p + [Left], q, v);
      Dups1Exact(op, r1.tree, p + [Right], q, v);
    } else if IsOp(op, At(op, t, q)) {
      Descend(op, t, q, Left);
      Descend(op, t, q, Right);
      var r1 := Dups1(op, t, p, q + [Left]);
      SameSpineAt(op, t, r1.tree, q + [Right]);
      SameSpineAt(op, t, r1.tree, p);
      Dups1Exact(op, t, p, q + [Left], v);
      Dups1Exact(op, r1.tree, p, q + [Right], v);
    } else if p != q {
      var e1 := At(op, t, p);
      PutElsewhere(op, t, p, q, Sym(NeutralSym(op)));
      OperandSmaller(op, t, p);
      var r1 := Rewrite(t, 0);
      SameSpineReflexive(op, t);
      if e1.Bin? {
        var s := Dups1(e1.op, e1, [], []);
        r1 := PutPass(op, t, p, s);
        Dups1Exact(e1.op, e1, [], [], v);
        EvalAt(op, t, p, s.tree, v);
      }
      SameSpineAt(op, t, r1.tree, p);
      SameSpineAt(op, t, r1.tree, q);
      JoinAtExact(op, r1.tree, p, q, v);
    }
  }

  lemma JoinAtExact(op: Op, t: Expr, p: Path, q: Path, v: Valuation)
    requires WellTyped(v)
    requires InSpine(op, t, p) && !IsOp(op, At(op, t, p))
    requires InSpine(op, t, q) && !IsOp(op, At(op, t, q)) && p != q
    ensures Eval(JoinAt(op, t, p, q).tree, v) == Eval(t, v)
  {
    var e1, e2 := At(op, t, p), At(op, t, q);
    var j := Join(op, e1, e2);
    if j.Some? {
      JoinExact(op, e1, e2, v);
      EvalPutTwo(op, t, p, q, Sym(NeutralSym(op)), j.value, v);
    }
  }

  /** Two different operands, one below `p` and one below `q`, that could be joined. */
  ghost predicate Joinable(op: Op, t: Expr, p: Path, q: Path) {
    exists a: Path, b: Path :: JoinablePair(op, t, p + a, q + b)
  }

  predicate JoinablePair(op: Op, t: Expr, p: Path, q: Path) {
    && InSpine(op, t, p) && InSpine(op, t, q) && p != q
    && !IsOp(op, At(op, t, p)) && !IsOp(op, At(op, t, q))
    && Join(op, At(op, t, p), At(op, t, q)).Some?
  }

  /** A pass that changes nothing has seen every pair of operands and found none to join. */
  lemma {:induction false} Dups1Complete(op: Op, t: Expr, p: Path, q: Path, a: Path, b: Path)
    requires InSpine(op, t, p) && InSpine(op, t, q)
    requires JoinablePair(op, t, p + a, q + b)
    ensures Dups1(op, t, p, q).count > 0
    decreases Span(op, At(op, t, p)) + Span(op, At(op, t, q))
  {
    if IsOp(op, At(op, t, p)) {
      assert p + [] == p && a != [];
      assert p + a == (p + [a[0]]) + a[1..];
      Descend(op, t, p, Left);
      Descend(op, t, p, Right);
      var r1 := Dups1(op, t, p + [Left], q);
      if a[0] == Left {
        Dups1Complete(op, t, p + [Left], q, a[1..], b);
      } else if r1.count == 0 {
        Dups1Complete(op, t, p + [Right], q, a[1..], b);
      }
    } else if IsOp(op, At(op, t, q)) {
      assert q + [] == q && b != [];
      assert q + b == (q + [b[0]]) + b[1..];
      Descend(op, t, q, Left);
      Descend(op, t, q, Right);
      var r1 := Dups1(op, t, p, q + [Left]);
      if b[0] == Left {
        Dups1Complete(op, t, p, q + [Left], a, b[1..]);
      } else if r1.count == 0 {
        Dups1Complete(op, t, p, q + [Right], a, b[1..]);
      }
    } else {
      OnlyOperand(op, t, p, a);
      OnlyOperand(op, t, q, b);
      assert p + a == p && q + b == q;
    }
  }

  /** Nothing of the chain lies below an operand. */
  lemma {:induction false} OnlyOperand(op: Op, t: Expr, p: Path, a: Path)
    requires InSpine(op, t, p) && !IsOp(op, At(op, t, p)) && InSpine(op, t, p + a)
    ensures a == []
  {
    if p == [] {
      assert p + a == a;
    } else {
      assert (p + a)[1..] == p[1..] + a && (p + a)[0] == p[0];
      OnlyOperand(op, Child(t, p[0]), p[1..], a);
    }
  }

  // ----- expr_eliminate_dups2 -----

  /**
   The test on an operand with the other connective: if all of its negation is found among the
   operands the second place leads to, the operand contradicts them and decides the chain. The
   second place may be anywhere in the chain, also above the first.
   */
  function CancelAt(op: Op, t: Expr, p: Path, q: Path): (r: Rewrite)
    requires InSpine(op, t, p) && p != [] && IsOp(Dual(op), At(op, t, p)) && InSpine(op, t, q)
    ensures Sound(op, t, r)
  {
    SameSpineReflexive(op, t);
    SizePositive(At(op, t, p));
    PutAt(op, t, p, Sym(AbsorbingSym(op)));
    if ExtractEq(op, Transform(Not(At(op, t, p))), At(op, t, q)).fst == Sym(NeutralSym(op))
    then Rewrite(Put(op, t, p, Sym(AbsorbingSym(op))), 1)
    else Rewrite(t, 0)
  }

  /** expr_eliminate_dups2; unlike dups1 it goes on to test a chain node after its two operands */
  function Dups2(op: Op, t: Expr, p: Path, q: Path): (r: Rewrite)
    requires InSpine(op, t, p) && InSpine(op, t, q)
    ensures Sound(op, t, r)
    decreases Size(t), Span(op, At(op, t, p)) + Span(op, At(op, t, q))
  {
    SameSpineReflexive(op, t);
    if IsOp(op, At(op, t, p)) then
      Descend(op, t, p, Left);
      Descend(op, t, p, Right);
      var r1 := Dups2(op, t, p + [Left], q);
      SameSpineAt(op, t, r1.tree, p + [Right]);
      SameSpineAt(op, t, r1.tree, q);
      var r2 := Dups2(op, r1.tree, p + [Right], q);
      SoundTransitive(op, t, r1, r2);
      Rewrite(r2.tree, r1.count + r2.count)
    else
      var r1 :=
        if IsOp(op, At(op, t, q)) then
          Descend(op, t, q, Left);
          Descend(op, t, q, Right);
          var s1 := Dups2(op, t, p, q + [Left]);
          SameSpineAt(op, t, s1.tree, q + [Right]);
          SameSpineAt(op, t, s1.tree, p);
          var s2 := Dups2(op, s1.tree, p, q + [Right]);
          SoundTransitive(op, t, s1, s2);
          Rewrite(s2.tree, s1.count + s2.count)
        else Rewrite(t, 0);
      SameSpineAt(op, t, r1.tree, p);
      SameSpineAt(op, t, r1.tree, q);
      var e1 := At(op, r1.tree, p);
      if p == q || !e1.Bin? then r1
      else
        OperandSmaller(op, r1.tree, p);
        var r2 := PutPass(op, r1.tree, p, Dups2(e1.op, e1, [], []));
        SameSpineAt(op, r1.tree, r2.tree, q);
        var r3 := CancelAt(op, r2.tree, p, q);
        SoundTransitive(op, t, r1, r2);
        SoundTransitive(op, t, Rewrite(r2.tree, r1.count + r2.count), r3);
        Rewrite(r3.tree, r1.count + r2.count + r3.count)
  }

  /** A cancelled operand decides the whole chain; the value is kept unless it was m. */
  lemma CancelAtRefines(op: Op, t: Expr, p: Path, q: Path, v: Valuation)
    requires WellTyped(v)
    requires InSpine(op, t, p) && p != [] && IsOp(Dual(op), At(op, t, p)) && InSpine(op, t, q)
    ensures Refines(Eval(t, v), Eval(CancelAt(op, t, p, q).tree, v))
    ensures CancelAt(op, t, p, q).count > 0 ==>
              (Eval(CancelAt(op, t, p, q).tree, v) == Eval(t, v) <==> Eval(t, v) != MOD)
  {
    if CancelAt(op, t, p, q).count > 0 {
      var e1, e2 := At(op, t, p), At(op, t, q);
      var x := ExtractEq(op, Transform(Not(e1)), e2);
      ExtractEqSplits(op, Transform(Not(e1)), e2, v);
      TransformPreservesValue(Not(e1), v);
      EvalAt(op, t, p, Sym(AbsorbingSym(op)), v);
      EvalAt(op, t, q, e2, v);
    }
  }

  lemma {:induction false} Dups2Refines(op: Op, t: Expr, p: Path, q: Path, v: Valuation)
    requires WellTyped(v) && InSpine(op, t, p) && InSpine(op, t, q)
    ensures Refines(Eval(t, v), Eval(Dups2(op, t, p, q).tree, v))
    decreases Size(t), Span(op, At(op, t, p)) + Span(op, At(op, t, q))
  {
    if IsOp(op, At(op, t, p)) {
      Descend(op, t, p, Left);
      Descend(op, t, p, Right);
      var r1 := Dups2(op, t, p + [Left], q);
      SameSpineAt(op, t, r1.tree, p + [Right]);
      SameSpineAt(op, t, r1.tree, q);
      Dups2Refines(op, t, p + [Left], q, v);
      Dups2Refines(op, r1.tree, p + [Right], q, v);
    } else {
      var r1 := Rewrite(t, 0);
      if IsOp(op, At(op, t, q)) {
        Descend(op, t, q, Left);
        Descend(op, t, q, Right);
        var s1 := Dups2(op, t, p, q + [Left]);
        SameSpineAt(op, t, s1.tree, q + [Right]);
        SameSpineAt(op, t, s1.tree, p);
        Dups2Refines(op, t, p, q + [Left], v);
        Dups2Refines(op, s1.tree, p, q + [Right], v);
        var s2 := Dups2(op, s1.tree, p, q + [Right]);
        SoundTransitive(op, t, s1, s2);
        r1 := Rewrite(s2.tree, s1.count + s2.count);
      } else {
        SameSpineReflexive(op, t);
      }
      SameSpineAt(op, t, r1.tree, p);
      SameSpineAt(op, t, r1.tree, q);
      var e1 := At(op, r1.tree, p);
      if p != q && e1.Bin? {
        OperandSmaller(op, r1.tree, p);
        var s := Dups2(e1.op, e1, [], []);
        Dups2Refines(e1.op, e1, [], [], v);
        EvalAt(op, r1.tree, p, s.tree, v);
        RefinesMonotone(op, Eval(e1, v), Rest(op, r1.tree, p, v), Eval(s.tree, v), Rest(op, r1.tree, p, v));
        var r2 := PutPass(op, r1.tree, p, s);
        SameSpineAt(op, r1.tree, r2.tree, q);
        CancelAtRefines(op, r2.tree, p, q, v);
      }
    }
  }

  // ----- expr_eliminate_dups -----

  /** One round of the loop in expr_eliminate_dups, before the constants are folded away. */
  function Pass(e: Expr): (r: Rewrite)
    ensures Size(r.tree) <= Size(e)
    ensures r.count == 0 ==> r.tree == e
    ensures r.count > 0 ==> Size(EliminateYn(r.tree)) < Size(e)
  {
    if !e.Bin? then Rewrite(e, 0)
    else
      var r1 := Dups1(e.op, e, [], []);
      var r2 := Dups2(e.op, r1.tree, [], []);
      SoundTransitive(e.op, e, r1, r2);
      var r := Rewrite(r2.tree, r1.count + r2.count);
      if r.count > 0 then EliminateYnShrinks(r.tree); r else r
  }

  /** What the loop arrives at. */
  function Simplified(e: Expr): Expr
    decreases Size(e)
  {
    if Pass(e).count == 0 then e else Simplified(EliminateYn(Pass(e).tree))
  }

  /** expr_eliminate_dups. Each round that rewrites anything removes nodes, so the loop ends. */
  method EliminateDups(e0: Option<Expr>) returns (r: Option<Expr>)
    ensures r.Some? == e0.Some?
    ensures r.Some? ==> r.value == Simplified(e0.value)
  {
    if e0.None? {
      return None;
    }
    var e := e0.value;
    while true
      invariant Simplified(e) == Simplified(e0.value)
      decreases Size(e)
    {
      var transCount := 0;
      var before := e;
      if e.Bin? {
        var r1 := Dups1(e.op, e, [], []);
        var r2 := Dups2(e.op, r1.tree, [], []);
        transCount := r1.count + r2.count;
        e := r2.tree;
      }
      assert Pass(before) == Rewrite(e, transCount);
      if transCount == 0 {
        break;
      }
      e := EliminateYn(e);
    }
    return Some(e);
  }

  lemma PassRefines(e: Expr, v: Valuation)
    requires WellTyped(v)
    ensures Refines(Eval(e, v), Eval(EliminateYn(Pass(e).tree), v))
    ensures Cancels(e) == 0 ==> Eval(EliminateYn(Pass(e).tree), v) == Eval(e, v)
  {
    EliminateYnCorrect(Pass(e).tree, v);
    if e.Bin? {
      var r1 := Dups1(e.op, e, [], []);
      Dups1Exact(e.op, e, [], [], v);
      Dups2Refines(e.op, r1.tree, [], [], v);
    }
  }

  /** The rewrites of expr_eliminate_dups2 in one round. */
  function Cancels(e: Expr): nat {
    if e.Bin? then Dups2(e.op, Dups1(e.op, e, [], []).tree, [], []).count else 0
  }

  /** No round of the loop takes the branch that replaces an operand by its contradiction. */
  predicate NeverCancels(e: Expr)
    decreases Size(e)
  {
    Cancels(e) == 0 && (Pass(e).count > 0 ==> NeverCancels(EliminateYn(Pass(e).tree)))
  }

  /** Simplification never loses information: an n or y stays what it was, only an m may be decided. */
  lemma {:induction false} SimplifiedRefines(e: Expr, v: Valuation)
    requires WellTyped(v)
    ensures Refines(Eval(e, v), Eval(Simplified(e), v))
    ensures NeverCancels(e) ==> Eval(Simplified(e), v) == Eval(e, v)
    decreases Size(e)
  {
    if Pass(e).count > 0 {
      PassRefines(e, v);
      SimplifiedRefines(EliminateYn(Pass(e).tree), v);
    }
  }

  lemma {:induction false} TwoValuedEval(e: Expr, v: Valuation)
    requires TwoValued(v) && !MentionsMod(e)
    ensures Eval(e, v) != MOD
  {
    match e
    case Not(a) => TwoValuedEval(a, v);
    case Bin(_, l, r) =>
      TwoValuedEval(l, v);
      TwoValuedEval(r, v);
    case _ =>
  }

  /** Without m in sight the value is kept exactly. */
  lemma SimplifiedExactTwoValued(e: Expr, v: Valuation)
    requires WellTyped(v) && TwoValued(v) && !MentionsMod(e)
    ensures Eval(Simplified(e), v) == Eval(e, v)
  {
    SimplifiedRefines(e, v);
    TwoValuedEval(e, v);
  }

  /** The result is simplified: the loop has nothing left to do, and no two operands can be joined. */
  lemma {:induction false} SimplifiedStable(e: Expr)
    ensures Simplified(Simplified(e)) == Simplified(e)
    ensures Simplified(e).Bin? ==> !Joinable(Simplified(e).op, Simplified(e), [], [])
    ensures Size(Simplified(e)) <= Size(e)
    decreases Size(e)
  {
    if Pass(e).count > 0 {
      SimplifiedStable(EliminateYn(Pass(e).tree));
    } else if e.Bin? && Joinable(e.op, e, [], []) {
      var a: Path, b: Path :| JoinablePair(e.op, e, [] + a, [] + b);
      Dups1Complete(e.op, e, [], [], a, b);
    }
  }
}
