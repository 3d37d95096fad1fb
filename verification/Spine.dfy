/**
 Addresses inside one expression tree. The rewriters of expr.c hold two pointers into the same
 tree, both below the chain of equal connectives at its root. Such a pointer is a path, a store
 through it is `Put`, and two pointers are equal when their paths are.
 */
module Spine {
  import opened Tristates
  import opened Expressions
  import opened ExprCompare

  datatype Dir = Left | Right
  type Path = seq<Dir>

  function Child(e: Expr, d: Dir): Expr
    requires e.Bin?
  {
    match d
    case Left => e.left
    case Right => e.right
  }

  /** Every node strictly above `p` is an `op` node. */
  predicate InSpine(op: Op, t: Expr, p: Path) {
    p == [] || (IsOp(op, t) && InSpine(op, Child(t, p[0]), p[1..]))
  }

  function At(op: Op, t: Expr, p: Path): Expr
    requires InSpine(op, t, p)
  {
    if p == [] then t else At(op, Child(t, p[0]), p[1..])
  }

  function Put(op: Op, t: Expr, p: Path, x: Expr): Expr
    requires InSpine(op, t, p)
  {
    if p == [] then x
    else if p[0] == Left then Bin(op, Put(op, t.left, p[1..], x), t.right)
    else Bin(op, t.left, Put(op, t.right, p[1..], x))
  }

  /** The number of `op` nodes in the chain at the root. */
  function Span(op: Op, t: Expr): nat {
    if IsOp(op, t) then 1 + Span(op, t.left) + Span(op, t.right) else 0
  }

  /** The two trees have their `op` chains in the same places. */
  predicate SameSpine(op: Op, t: Expr, u: Expr) {
    if IsOp(op, t) then IsOp(op, u) && SameSpine(op, t.left, u.left) && SameSpine(op, t.right, u.right)
    else !IsOp(op, u)
  }

  lemma {:induction false} Descend(op: Op, t: Expr, p: Path, d: Dir)
    requires InSpine(op, t, p) && IsOp(op, At(op, t, p))
    ensures InSpine(op, t, p + [d])
    ensures At(op, t, p + [d]) == Child(At(op, t, p), d)
  {
    if p == [] {
      assert ([] + [d])[1..] == [];
    } else {
      assert (p + [d])[1..] == p[1..] + [d];
      Descend(op, Child(t, p[0]), p[1..], d);
    }
  }

  lemma {:induction false} SameSpineReflexive(op: Op, t: Expr)
    ensures SameSpine(op, t, t)
  {
    if IsOp(op, t) {
      SameSpineReflexive(op, t.left);
      SameSpineReflexive(op, t.right);
    }
  }

  lemma {:induction false} SameSpineTransitive(op: Op, t: Expr, u: Expr, w: Expr)
    requires SameSpine(op, t, u) && SameSpine(op, u, w)
    ensures SameSpine(op, t, w)
  {
    if IsOp(op, t) {
      SameSpineTransitive(op, t.left, u.left, w.left);
      SameSpineTransitive(op, t.right, u.right, w.right);
    }
  }

  /** Paths and chain lengths carry over between trees with the same chains. */
  lemma {:induction false} SameSpineAt(op: Op, t: Expr, u: Expr, p: Path)
    requires SameSpine(op, t, u) && InSpine(op, t, p)
    ensures InSpine(op, u, p)
    ensures IsOp(op, At(op, u, p)) == IsOp(op, At(op, t, p))
    ensures Span(op, At(op, u, p)) == Span(op, At(op, t, p))
  {
    if p == [] {
      SameSpan(op, t, u);
    } else {
      SameSpineAt(op, Child(t, p[0]), Child(u, p[0]), p[1..]);
    }
  }

  lemma {:induction false} SameSpan(op: Op, t: Expr, u: Expr)
    requires SameSpine(op, t, u)
    ensures Span(op, u) == Span(op, t)
  {
    if IsOp(op, t) {
      SameSpan(op, t.left, u.left);
      SameSpan(op, t.right, u.right);
    }
  }

  /** A store below the chain keeps the chain, is read back, and changes the size by the difference. */
  lemma {:induction false} PutAt(op: Op, t: Expr, p: Path, x: Expr)
    requires InSpine(op, t, p) && !IsOp(op, At(op, t, p)) && !IsOp(op, x)
    ensures SameSpine(op, t, Put(op, t, p, x))
    ensures InSpine(op, Put(op, t, p, x), p) && At(op, Put(op, t, p, x), p) == x
    ensures Size(Put(op, t, p, x)) + Size(At(op, t, p)) == Size(t) + Size(x)
    ensures p != [] && (IsYesOrNo(x) || !Folded(x)) ==> !Folded(Put(op, t, p, x))
  {
    if p != [] {
      PutAt(op, Child(t, p[0]), p[1..], x);
      SameSpineReflexive(op, t.left);
      SameSpineReflexive(op, t.right);
    }
  }

  /** A store does not disturb another operand. */
  lemma {:induction false} PutElsewhere(op: Op, t: Expr, p: Path, q: Path, x: Expr)
    requires InSpine(op, t, p) && !IsOp(op, At(op, t, p)) && !IsOp(op, x)
    requires InSpine(op, t, q) && !IsOp(op, At(op, t, q)) && p != q
    ensures InSpine(op, Put(op, t, p, x), q) && At(op, Put(op, t, p, x), q) == At(op, t, q)
    ensures p != [] && q != []
  {
    assert p != [] && q != [];
    if p[0] == q[0] {
      assert p[1..] != q[1..] by {
        assert p == [p[0]] + p[1..] && q == [q[0]] + q[1..];
      }
      PutElsewhere(op, Child(t, p[0]), p[1..], q[1..], x);
    }
  }

  /** The `op`-combination of all operands but the one at `p`. */
  function Rest(op: Op, t: Expr, p: Path, v: Valuation): Tristate
    requires InSpine(op, t, p)
  {
    if p == [] then Neutral(op)
    else Apply(op, Rest(op, Child(t, p[0]), p[1..], v), Eval(if p[0] == Left then t.right else t.left, v))
  }

  lemma {:induction false} EvalAt(op: Op, t: Expr, p: Path, x: Expr, v: Valuation)
    requires InSpine(op, t, p)
    ensures Eval(t, v) == Apply(op, Eval(At(op, t, p), v), Rest(op, t, p, v))
    ensures Eval(Put(op, t, p, x), v) == Apply(op, Eval(x, v), Rest(op, t, p, v))
  {
    if p != [] {
      var c := Child(t, p[0]);
      var other := Eval(if p[0] == Left then t.right else t.left, v);
      EvalAt(op, c, p[1..], x, v);
      ApplyLaws(op, Eval(At(op, t, p), v), Rest(op, c, p[1..], v), other);
      ApplyLaws(op, Eval(x, v), Rest(op, c, p[1..], v), other);
      ApplyLaws(op, Eval(c, v), other, other);
      ApplyLaws(op, Eval(Put(op, c, p[1..], x), v), other, other);
    }
  }

  /** Replacing two operands by two others with the same combined value. */
  lemma {:induction false} EvalPutTwo(op: Op, t: Expr, p: Path, q: Path, x: Expr, y: Expr, v: Valuation)
    requires InSpine(op, t, p) && !IsOp(op, At(op, t, p)) && !IsOp(op, x)
    requires InSpine(op, t, q) && !IsOp(op, At(op, t, q)) && p != q
    requires Apply(op, Eval(x, v), Eval(y, v)) == Apply(op, Eval(At(op, t, p), v), Eval(At(op, t, q), v))
    ensures InSpine(op, Put(op, t, p, x), q)
    ensures Eval(Put(op, Put(op, t, p, x), q, y), v) == Eval(t, v)
  {
    PutElsewhere(op, t, p, q, x);
    if p[0] == q[0] {
      assert p == [p[0]] + p[1..] && q == [q[0]] + q[1..];
      EvalPutTwo(op, Child(t, p[0]), p[1..], q[1..], x, y, v);
    } else {
      var tp, tq := Child(t, p[0]), Child(t, q[0]);
      EvalAt(op, tp, p[1..], x, v);
      EvalAt(op, tq, q[1..], y, v);
      var rp, rq := Rest(op, tp, p[1..], v), Rest(op, tq, q[1..], v);
      Regroup(op, Eval(x, v), Eval(y, v), rp, rq);
      Regroup(op, Eval(At(op, t, p), v), Eval(At(op, t, q), v), rp, rq);
      ApplyLaws(op, Eval(tp, v), Eval(tq, v), NO);
      ApplyLaws(op, Apply(op, Eval(x, v), rp), Apply(op, Eval(y, v), rq), NO);
    }
  }
}
