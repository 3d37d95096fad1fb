/**
 The two implementations of Kconfig agree on expressions: what support/scripts/kconfiglib.py makes of an expression of
 support/kconfig/expr.c, with chains of one connective as one list of operands, has the same value.
 */
module Engines {
  import opened Tristates
  import C = Expressions
  import K = KExpr

  function ToAtom(s: C.Symbol): K.Atom {
    match s
    case Constant(name) => K.Text(name)
    case Entry(name, _) => K.Ref(name)
  }

  /** The operands of a chain of `op`, in order. */
  function Flatten(op: Op, e: C.Expr): seq<K.Expr>
    decreases e, 1
  {
    if C.IsOp(op, e) then Flatten(op, e.left) + Flatten(op, e.right) else [Translate(e)]
  }

  function Translate(e: C.Expr): K.Expr
    decreases e, 0
  {
    match e
    case Sym(s) => K.Leaf(ToAtom(s))
    case Not(a) => K.Not(Translate(a))
    case Bin(op, l, r) => K.Nary(op, Flatten(op, l) + Flatten(op, r))
    case Cmp(equal, a, b) => K.Rel(equal, ToAtom(a), ToAtom(b))
  }

  /** Both see the same values, and a constant is worth what it says. */
  ghost predicate SameValues(v: C.Valuation, env: K.Env) {
    && (forall s: C.Symbol :: s.Entry? ==> v.tri(s) == env.tri(s.name) && v.str(s) == env.str(s.name))
    && (forall s: C.Symbol :: s.Constant? ==> v.tri(s) == K.TriOf(s.name) && v.str(s) == s.name)
  }

  lemma {:induction false} EvalAppend(op: Op, a: seq<K.Expr>, b: seq<K.Expr>, env: K.Env)
    ensures K.EvalAll(op, a + b, env) == Apply(op, K.EvalAll(op, a, env), K.EvalAll(op, b, env))
  {
    if a == [] {
      assert a + b == b;
    } else {
      assert (a + b)[0] == a[0] && (a + b)[1..] == a[1..] + b;
      EvalAppend(op, a[1..], b, env);
      ApplyLaws(op, K.Eval(a[0], env), K.EvalAll(op, a[1..], env), K.EvalAll(op, b, env));
    }
  }

  lemma {:induction false} FlattenValue(op: Op, e: C.Expr, v: C.Valuation, env: K.Env)
    requires SameValues(v, env)
    ensures K.EvalAll(op, Flatten(op, e), env) == C.Eval(e, v)
    decreases e, 1
  {
    if C.IsOp(op, e) {
      FlattenValue(op, e.left, v, env);
      FlattenValue(op, e.right, v, env);
      EvalAppend(op, Flatten(op, e.left), Flatten(op, e.right), env);
    } else {
      TranslateValue(e, v, env);
      var one := [Translate(e)];
      assert one[1..] == [] && K.EvalAll(op, one[1..], env) == Neutral(op);
      ApplyLaws(op, K.Eval(one[0], env), Neutral(op), Neutral(op));
    }
  }

  /** The value of the translated expression in Kconfiglib is the value of the expression in the C tools. */
  lemma {:induction false} TranslateValue(e: C.Expr, v: C.Valuation, env: K.Env)
    requires SameValues(v, env)
    ensures K.Eval(Translate(e), env) == C.Eval(e, v)
    decreases e, 0
  {
    match e
    case Sym(s) =>
    case Not(a) => TranslateValue(a, v, env);
    case Bin(op, l, r) =>
      FlattenValue(op, l, v, env);
      FlattenValue(op, r, v, env);
      EvalAppend(op, Flatten(op, l), Flatten(op, r), env);
    case Cmp(_, _, _) =>
  }
}
