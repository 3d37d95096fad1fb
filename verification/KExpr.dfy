/** Kconfiglib's n-ary expressions and their value (support/scripts/kconfiglib.py: _eval_expr_2). */
module KExpr {
  import opened Tristates

  /** A symbol, by name, or a string constant. */
  datatype Atom = Ref(name: string) | Text(text: string)

  datatype Expr =
    | Leaf(atom: Atom)
    | Not(arg: Expr)
    | Nary(op: Op, args: seq<Expr>)
    | Rel(equal: bool, lhs: Atom, rhs: Atom)

  datatype Option<+T> = None | Some(value: T)

  /** A condition; a missing one holds. */
  type Cond = Option<Expr>

  /** The value of every symbol, as a tristate and as a string, and whether modules are enabled. */
  datatype Env = Env(tri: string -> Tristate, str: string -> string, modules: bool)

  function TriOf(s: string): Tristate { if s == "y" then YES else if s == "m" then MOD else NO }

  function TriText(t: Tristate): string { if t == NO then "n" else if t == MOD then "m" else "y" }

  function AtomTri(a: Atom, env: Env): Tristate {
    match a
    case Ref(n) => env.tri(n)
    case Text(s) => TriOf(s)
  }

  function AtomStr(a: Atom, env: Env): string {
    match a
    case Ref(n) => env.str(n)
    case Text(s) => s
  }

  /** _eval_expr_2 */
  function Eval(e: Expr, env: Env): Tristate
    decreases e
  {
    match e
    case Leaf(a) => AtomTri(a, env)
    case Not(x) => Negate(Eval(x, env))
    case Nary(op, es) => EvalAll(op, es, env)
    case Rel(equal, a, b) => if (AtomStr(a, env) == AtomStr(b, env)) == equal then YES else NO
  }

  function EvalAll(op: Op, es: seq<Expr>, env: Env): Tristate
    decreases es
  {
    if es == [] then Neutral(op) else Apply(op, Eval(es[0], env), EvalAll(op, es[1..], env))
  }

  function EvalCond(c: Cond, env: Env): Tristate {
    match c
    case None => YES
    case Some(e) => Eval(e, env)
  }

  // ----- the symbols of an expression (_get_expr_syms) -----

  function AtomNames(a: Atom): set<string> {
    match a
    case Ref(n) => {n}
    case Text(_) => {}
  }

  function Names(e: Expr): set<string> {
    match e
    case Leaf(a) => AtomNames(a)
    case Not(x) => Names(x)
    case Nary(_, es) => NamesAll(es)
    case Rel(_, a, b) => AtomNames(a) + AtomNames(b)
  }

  function NamesAll(es: seq<Expr>): set<string> {
    if es == [] then {} else Names(es[0]) + NamesAll(es[1..])
  }

  function CondNames(c: Cond): set<string> {
    match c
    case None => {}
    case Some(e) => Names(e)
  }

  ghost predicate Agree(v: Env, w: Env, names: set<string>) {
    forall n :: n in names ==> v.tri(n) == w.tri(n) && v.str(n) == w.str(n)
  }

  lemma {:induction false} EvalLocal(e: Expr, v: Env, w: Env)
    requires Agree(v, w, Names(e))
    ensures Eval(e, v) == Eval(e, w)
    decreases e
  {
    match e
    case Not(x) => EvalLocal(x, v, w);
    case Nary(op, es) => EvalAllLocal(op, es, v, w);
    case Leaf(Ref(n)) => assert n in Names(e);
    case Rel(_, a, b) =>
      assert a.Ref? ==> a.name in Names(e);
      assert b.Ref? ==> b.name in Names(e);
    case _ =>
  }

  lemma {:induction false} EvalAllLocal(op: Op, es: seq<Expr>, v: Env, w: Env)
    requires Agree(v, w, NamesAll(es))
    ensures EvalAll(op, es, v) == EvalAll(op, es, w)
    decreases es
  {
    if es != [] {
      EvalLocal(es[0], v, w);
      EvalAllLocal(op, es[1..], v, w);
    }
  }

  // ----- laws of the three-valued logic -----

  function NotAll(es: seq<Expr>): seq<Expr> { if es == [] then [] else [Not(es[0])] + NotAll(es[1..]) }

  lemma {:induction false} DeMorganAll(op: Op, es: seq<Expr>, env: Env)
    ensures Negate(EvalAll(op, es, env)) == EvalAll(Dual(op), NotAll(es), env)
    decreases es
  {
    if es != [] {
      DeMorganAll(op, es[1..], env);
      assert NotAll(es)[0] == Not(es[0]) && NotAll(es)[1..] == NotAll(es[1..]);
      assert Eval(Not(es[0]), env) == Negate(Eval(es[0], env));
    }
  }

  /** De Morgan: a negated conjunction is the disjunction of the negations, and the other way round. */
  lemma DeMorgan(op: Op, es: seq<Expr>, env: Env)
    ensures Eval(Not(Nary(op, es)), env) == Eval(Nary(Dual(op), NotAll(es)), env)
  {
    DeMorganAll(op, es, env);
    assert Eval(Nary(op, es), env) == EvalAll(op, es, env);
  }

  predicate AtLeast(e: Expr, env: Env, t: Tristate) { Eval(e, env) >= t }

  lemma {:induction false} ExtremeAll(es: seq<Expr>, env: Env, t: Tristate)
    ensures EvalAll(And, es, env) >= t <==> forall e :: e in es ==> AtLeast(e, env, t)
    ensures t != NO ==> (EvalAll(Or, es, env) >= t <==> exists e :: e in es && AtLeast(e, env, t))
    decreases es
  {
    if es != [] {
      ExtremeAll(es[1..], env, t);
      assert forall e :: e in es <==> e == es[0] || e in es[1..];
      assert AtLeast(es[0], env, t) <==> Eval(es[0], env) >= t;
    }
  }

  /** A conjunction is the least of its operands, a disjunction the greatest. */
  lemma Extreme(es: seq<Expr>, env: Env, t: Tristate)
    ensures Eval(Nary(And, es), env) >= t <==> forall e :: e in es ==> AtLeast(e, env, t)
    ensures t != NO ==> (Eval(Nary(Or, es), env) >= t <==> exists e :: e in es && AtLeast(e, env, t))
  {
    ExtremeAll(es, env, t);
  }

  /** Negation turns the order round and undoes itself; of two opposite comparisons exactly one is y. */
  lemma Opposites(d: Expr, e: Expr, x: Atom, y: Atom, env: Env)
    ensures Eval(Not(d), env) <= Eval(Not(e), env) <==> Eval(e, env) <= Eval(d, env)
    ensures Eval(Not(Not(e)), env) == Eval(e, env)
    ensures Eval(Not(Leaf(Text("n"))), env) == YES && Eval(Not(Leaf(Text("m"))), env) == MOD
    ensures Eval(Rel(true, x, y), env) == YES <==> AtomStr(x, env) == AtomStr(y, env)
    ensures Eval(Rel(false, x, y), env) == Eval(Not(Rel(true, x, y)), env) != MOD
  {}
}
