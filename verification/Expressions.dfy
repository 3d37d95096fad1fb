/** Dependency expressions and their value (support/kconfig/expr.h, expr.c). */
module Expressions {
  import opened Tristates

  datatype SymbolType = Unknown | Boolean | Tri | Int | Hex | Str | Other

  /** A symbol is a constant (SYMBOL_CONST, of no type) or an entry with a name and a type. */
  datatype Symbol = Constant(name: string) | Entry(name: string, kind: SymbolType) {
    const typ: SymbolType := if Constant? then Unknown else kind
  }

  const symbolYes := Constant("y")
  const symbolMod := Constant("m")
  const symbolNo := Constant("n")

  /** E_SYMBOL, E_NOT, E_AND/E_OR and E_EQUAL/E_UNEQUAL nodes. */
  datatype Expr =
    | Sym(sym: Symbol)
    | Not(arg: Expr)
    | Bin(op: Op, left: Expr, right: Expr)
    | Cmp(equal: bool, lhs: Symbol, rhs: Symbol)

  datatype Option<+T> = None | Some(value: T)

  predicate IsOp(op: Op, e: Expr) { e.Bin? && e.op == op }

  /** The constant symbol y or n that is neutral for `op`. */
  function NeutralSym(op: Op): Symbol {
    match op
    case And => symbolYes
    case Or => symbolNo
  }

  function AbsorbingSym(op: Op): Symbol { NeutralSym(Dual(op)) }

  predicate IsYesOrNo(e: Expr) { e == Sym(symbolYes) || e == Sym(symbolNo) }

  /** The number of `struct expr` nodes. */
  function Size(e: Expr): nat {
    match e
    case Sym(_) => 1
    case Not(a) => 1 + Size(a)
    case Bin(_, l, r) => 1 + Size(l) + Size(r)
    case Cmp(_, _, _) => 1
  }

  lemma SizePositive(e: Expr)
    ensures Size(e) >= 1
  {}

  /** The calculated tristate and string value of every symbol. */
  datatype Valuation = Valuation(tri: Symbol -> Tristate, str: Symbol -> string)

  function TriString(t: Tristate): string {
    if t == NO then "n" else if t == MOD then "m" else "y"
  }

  /** What sym_calc_value guarantees of the values it computes. */
  ghost predicate WellTyped(v: Valuation) {
    && v.tri(symbolYes) == YES && v.str(symbolYes) == "y"
    && v.tri(symbolMod) == MOD && v.str(symbolMod) == "m"
    && v.tri(symbolNo) == NO && v.str(symbolNo) == "n"
    && (forall s: Symbol :: s.typ == Boolean ==> v.tri(s) != MOD)
    && (forall s: Symbol :: s.typ == Boolean || s.typ == Tri ==> v.str(s) == TriString(v.tri(s)))
    && (forall s: Symbol, t: Symbol :: s.Constant? && t.Constant? && v.str(s) == v.str(t) ==> s == t)
  }

  ghost predicate TwoValued(v: Valuation) {
    forall s: Symbol :: s != symbolMod ==> v.tri(s) != MOD
  }

  /** expr_calc_value on a non-NULL expression. */
  function Eval(e: Expr, v: Valuation): Tristate {
    match e
    case Sym(s) => v.tri(s)
    case Not(a) => Negate(Eval(a, v))
    case Bin(op, l, r) => Apply(op, Eval(l, v), Eval(r, v))
    case Cmp(equal, a, b) => if (v.str(a) == v.str(b)) == equal then YES else NO
  }

  /** expr_calc_value: NULL is "yes". */
  function EvalOpt(e: Option<Expr>, v: Valuation): Tristate {
    match e
    case None => YES
    case Some(x) => Eval(x, v)
  }

  /** expr_alloc_and and expr_alloc_or: NULL is dropped under both connectives. */
  function Alloc(op: Op, e1: Option<Expr>, e2: Option<Expr>): Option<Expr> {
    match (e1, e2)
    case (None, _) => e2
    case (_, None) => e1
    case (Some(a), Some(b)) => Some(Bin(op, a, b))
  }

  /** True when the constant m occurs as an operand. */
  predicate MentionsMod(e: Expr) {
    match e
    case Sym(s) => s == symbolMod
    case Not(a) => MentionsMod(a)
    case Bin(_, l, r) => MentionsMod(l) || MentionsMod(r)
    case Cmp(_, _, _) => false
  }
}
