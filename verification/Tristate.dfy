/** The three-valued logic of Kconfig (support/kconfig/expr.h): n = 0, m = 1, y = 2. */
module Tristates {

  type Tristate = t: int | 0 <= t <= 2

  const NO: Tristate := 0
  const MOD: Tristate := 1
  const YES: Tristate := 2

  /** The two binary connectives. */
  datatype Op = And | Or

  function Min(a: Tristate, b: Tristate): Tristate { if a < b then a else b }
  function Max(a: Tristate, b: Tristate): Tristate { if a > b then a else b }
  function Negate(a: Tristate): Tristate { 2 - a }

  /** EXPR_AND and EXPR_OR, selected by the connective. */
  function Apply(op: Op, a: Tristate, b: Tristate): Tristate {
    match op
    case And => Min(a, b)
    case Or => Max(a, b)
  }

  /** The value that changes nothing under `op`: y for "and", n for "or". */
  function Neutral(op: Op): Tristate {
    match op
    case And => YES
    case Or => NO
  }

  /** The value that decides `op` on its own: n for "and", y for "or". */
  function Absorbing(op: Op): Tristate { Negate(Neutral(op)) }

  function Dual(op: Op): Op {
    match op
    case And => Or
    case Or => And
  }

  /** The Kleene information order: m carries less information than n and than y. */
  predicate Refines(a: Tristate, b: Tristate) { a == b || a == MOD }

  lemma ApplyLaws(op: Op, a: Tristate, b: Tristate, c: Tristate)
    ensures Apply(op, a, b) == Apply(op, b, a)
    ensures Apply(op, Apply(op, a, b), c) == Apply(op, a, Apply(op, b, c))
    ensures Apply(op, a, a) == a
    ensures Apply(op, Neutral(op), a) == a
    ensures Apply(op, Absorbing(op), a) == Absorbing(op)
  {}

  /** Factoring `m` out of `x` and out of `y` factors it out of both at once. */
  lemma Regroup(op: Op, m: Tristate, n: Tristate, x: Tristate, y: Tristate)
    ensures Apply(op, Apply(op, m, x), Apply(op, n, y)) == Apply(op, Apply(op, m, n), Apply(op, x, y))
    ensures Apply(op, m, Apply(op, n, x)) == Apply(op, Apply(op, m, n), x)
  {}

  /** Replacing the left, then the right operand beside a changing third one. */
  lemma Exchange(op: Op, c: Tristate, c': Tristate, c'': Tristate,
                 x: Tristate, y: Tristate, x': Tristate, y': Tristate)
    requires Apply(op, c, x) == Apply(op, c', x')
    requires Apply(op, c', y) == Apply(op, c'', y')
    ensures Apply(op, c, Apply(op, x, y)) == Apply(op, c'', Apply(op, x', y'))
  {
    assert Apply(op, c, Apply(op, x, y)) == Apply(op, Apply(op, c, x), y);
    assert Apply(op, Apply(op, c', x'), y) == Apply(op, x', Apply(op, c', y));
    assert Apply(op, x', Apply(op, c'', y')) == Apply(op, c'', Apply(op, x', y'));
  }

  /** Every connective is monotone in the information order. */
  lemma RefinesMonotone(op: Op, a: Tristate, b: Tristate, a': Tristate, b': Tristate)
    requires Refines(a, a') && Refines(b, b')
    ensures Refines(Apply(op, a, b), Apply(op, a', b'))
    ensures Refines(Negate(a), Negate(a'))
  {}
}
