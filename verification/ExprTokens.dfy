/**
 No token is lost or made up: what the printer and the parser of Kconfiglib do with each operator, negation, relation
 and parenthesis (support/scripts/kconfiglib.py: _expr_to_str_rec, _intersperse, _parse_expr_2, _parse_factor).
 */
module ExprTokens {
  import opened Tristates
  import opened KExpr
  import opened ExprText

  // ----- the printer -----

  /** How often a token occurs. */
  function Count(ts: seq<Token>, t: Token): nat { multiset(ts)[t] }

  /** The joints of `op` in an expression: one between any two neighbours in a list. */
  function Joints(e: Expr, op: Op): nat
    decreases e
  {
    match e
    case Leaf(_) => 0
    case Rel(_, _, _) => 0
    case Not(x) => Joints(x, op)
    case Nary(o, es) => JointsAll(es, op) + if o == op && es != [] then |es| - 1 else 0
  }

  function JointsAll(es: seq<Expr>, op: Op): nat
    decreases es
  {
    if es == [] then 0 else Joints(es[0], op) + JointsAll(es[1..], op)
  }

  lemma CountJoin(a: seq<Token>, b: seq<Token>, t: Token)
    ensures Count(a + b, t) == Count(a, t) + Count(b, t)
  {}

  lemma CountInside(a: seq<Token>, b: seq<Token>, c: seq<Token>, t: Token)
    ensures Count(a + b + c, t) == Count(a, t) + Count(b, t) + Count(c, t)
  {
    CountJoin(a + b, c, t);
    CountJoin(a, b, t);
  }

  lemma NoOperators(ts: seq<Token>, op: Op)
    requires forall t :: t in ts ==> !t.Oper?
    ensures Count(ts, Oper(op)) == 0
  {
    assert Oper(op) !in ts;
  }

  lemma NegatedCount(x: Expr, t: Token)
    requires t.Oper?
    ensures Count(Print(Not(x)), t) == Count(Print(x), t)
  {
    CountJoin([Bang], Print(x), t);
    CountInside([Bang, Open], Print(x), [Close], t);
  }

  /** Every joint is printed as its operator, and no operator is printed elsewhere. */
  lemma {:induction false} PrintedJoints(e: Expr, op: Op)
    ensures Count(Print(e), Oper(op)) == Joints(e, op)
    decreases e, 0
  {
    match e
    case Not(x) =>
      PrintedJoints(x, op);
      NegatedCount(x, Oper(op));
    case Nary(o, es) => InterspersedJoints(o, es, op);
    case Leaf(_) => NoOperators(Print(e), op);
    case Rel(_, _, _) => NoOperators(Print(e), op);
  }

  lemma {:induction false} InterspersedJoints(o: Op, es: seq<Expr>, op: Op)
    ensures Count(Intersperse(o, es), Oper(op)) == JointsAll(es, op) + if o == op && es != [] then |es| - 1 else 0
    decreases es
  {
    if es != [] {
      PrintedJoints(es[0], op);
      InterspersedJoints(o, es[1..], op);
      CountInside([Open], Print(es[0]), [Close], Oper(op));
      CountInside(PrintTerm(o, es[0]), [Oper(o)], Intersperse(o, es[1..]), Oper(op));
      assert Count(PrintTerm(o, es[0]), Oper(op)) == Joints(es[0], op);
      if |es| == 1 {
        assert es[1..] == [];
      }
    }
  }

  // ----- the parser -----

  function Negations(e: Expr): nat
    decreases e
  {
    match e
    case Not(x) => 1 + Negations(x)
    case Nary(_, es) => NegationsAll(es)
    case _ => 0
  }

  function NegationsAll(es: seq<Expr>): nat
    decreases es
  {
    if es == [] then 0 else Negations(es[0]) + NegationsAll(es[1..])
  }

  function Relations(e: Expr, equal: bool): nat
    decreases e
  {
    match e
    case Rel(q, _, _) => if q == equal then 1 else 0
    case Not(x) => Relations(x, equal)
    case Nary(_, es) => RelationsAll(es, equal)
    case _ => 0
  }

  function RelationsAll(es: seq<Expr>, equal: bool): nat
    decreases es
  {
    if es == [] then 0 else Relations(es[0], equal) + RelationsAll(es[1..], equal)
  }

  lemma {:induction false} CountsAppend(a: seq<Expr>, e: Expr, op: Op, equal: bool)
    ensures JointsAll(a + [e], op) == JointsAll(a, op) + Joints(e, op)
    ensures NegationsAll(a + [e]) == NegationsAll(a) + Negations(e)
    ensures RelationsAll(a + [e], equal) == RelationsAll(a, equal) + Relations(e, equal)
  {
    if a == [] {
      assert a + [e] == [e] && [e][1..] == [];
    } else {
      assert (a + [e])[0] == a[0] && (a + [e])[1..] == a[1..] + [e];
      CountsAppend(a[1..], e, op, equal);
    }
  }

  /** The tokens consumed between `ts` and `rest` have these operators, negations and relations; parentheses match. */
  ghost predicate Spent(ts: seq<Token>, rest: seq<Token>, op: Op, equal: bool, joints: int, negations: int,
                        relations: int)
  {
    && Count(ts, Oper(op)) == Count(rest, Oper(op)) + joints
    && Count(ts, Bang) == Count(rest, Bang) + negations
    && Count(ts, Relation(equal)) == Count(rest, Relation(equal)) + relations
    && Count(ts, Open) - Count(ts, Close) == Count(rest, Open) - Count(rest, Close)
  }

  lemma CountFirst(ts: seq<Token>, t: Token)
    requires ts != []
    ensures Count(ts, t) == Count(ts[1..], t) + if ts[0] == t then 1 else 0
  {
    assert ts == [ts[0]] + ts[1..];
    assert multiset(ts) == multiset{ts[0]} + multiset(ts[1..]);
  }

  lemma CountAll(ts: seq<Token>, op: Op, equal: bool)
    requires ts != []
    ensures forall t :: t in {Oper(op), Bang, Relation(equal), Open, Close} ==>
              Count(ts, t) == Count(ts[1..], t) + if ts[0] == t then 1 else 0
  {
    forall t { CountFirst(ts, t); }
  }

  lemma {:induction false} ChainSpends(chain: Op, ts: seq<Token>, op: Op, equal: bool)
    ensures var r := ParseChain(false, chain, ts);
            r.Ok? ==> Spent(ts, r.rest, op, equal, Joints(r.expr, op), Negations(r.expr), Relations(r.expr, equal))
    decreases |ts|, if chain == Or then 4 else 2
  {
    NextSpends(chain, [], ts, op, equal);
    match ParseNext(false, chain, [], ts)
    case FailedList(_) =>
    case OkList(es, _) =>
      if |es| == 1 {
        CountsAppend([], es[0], op, equal);
        assert [] + [es[0]] == es;
      }
  }

  /** What the terms `es` beyond those of `acc` were read from. */
  ghost predicate SpentOn(ts: seq<Token>, r: ParsedList, chain: Op, acc: seq<Expr>, op: Op, equal: bool)
    requires r.OkList?
  {
    && |r.exprs| >= |acc|
    && Spent(ts, r.rest, op, equal,
             JointsAll(r.exprs, op) - JointsAll(acc, op) + if chain == op then |r.exprs| - |acc| else 0,
             NegationsAll(r.exprs) - NegationsAll(acc), RelationsAll(r.exprs, equal) - RelationsAll(acc, equal))
  }

  lemma {:induction false} NextSpends(chain: Op, acc: seq<Expr>, ts: seq<Token>, op: Op, equal: bool)
    ensures var r := ParseNext(false, chain, acc, ts);
            r.OkList? ==>
              && |r.exprs| > |acc|
              && Spent(ts, r.rest, op, equal,
                       JointsAll(r.exprs, op) - JointsAll(acc, op) + if chain == op then |r.exprs| - |acc| - 1 else 0,
                       NegationsAll(r.exprs) - NegationsAll(acc),
                       RelationsAll(r.exprs, equal) - RelationsAll(acc, equal))
    decreases |ts|, if chain == Or then 3 else 1
  {
    if chain == Or {
      ChainSpends(And, ts, op, equal);
    } else {
      FactorSpends(ts, op, equal);
    }
    match (if chain == Or then ParseChain(false, And, ts) else ParseFactor(false, ts))
    case Failed(_) =>
    case Ok(e, rest) =>
      CountsAppend(acc, e, op, equal);
      MoreSpends(chain, acc + [e], rest, op, equal);
  }

  lemma {:induction false} MoreSpends(chain: Op, acc: seq<Expr>, ts: seq<Token>, op: Op, equal: bool)
    ensures var r := ParseMore(false, chain, acc, ts); r.OkList? ==> SpentOn(ts, r, chain, acc, op, equal)
    decreases |ts|, 0
  {
    if ts != [] && ts[0] == Oper(chain) {
      CountAll(ts, op, equal);
      NextSpends(chain, acc, ts[1..], op, equal);
    }
  }

  lemma {:induction false} ParenthesisSpends(ts: seq<Token>, op: Op, equal: bool)
    requires ts != [] && ts[0] == Open
    ensures var r := ParseFactor(false, ts);
            r.Ok? ==> Spent(ts, r.rest, op, equal, Joints(r.expr, op), Negations(r.expr), Relations(r.expr, equal))
    decreases |ts|, 0, 0
  {
    CountAll(ts, op, equal);
    ChainSpends(Or, ts[1..], op, equal);
    var r := ParseChain(false, Or, ts[1..]);
    if r.Ok? && r.rest != [] {
      CountAll(r.rest, op, equal);
    }
  }

  lemma {:induction false} NegationSpends(ts: seq<Token>, op: Op, equal: bool)
    requires ts != [] && ts[0] == Bang
    ensures var r := ParseFactor(false, ts);
            r.Ok? ==> Spent(ts, r.rest, op, equal, Joints(r.expr, op), Negations(r.expr), Relations(r.expr, equal))
    decreases |ts|, 0, 0
  {
    CountAll(ts, op, equal);
    FactorSpends(ts[1..], op, equal);
  }

  lemma RelationSpends(ts: seq<Token>, op: Op, equal: bool)
    requires |ts| > 2 && ts[0].Word? && ts[1].Relation? && ts[2].Word?
    ensures Spent(ts, ts[3..], op, equal, 0, 0, if ts[1].equal == equal then 1 else 0)
  {
    CountAll(ts, op, equal);
    CountAll(ts[1..], op, equal);
    CountAll(ts[2..], op, equal);
    assert ts[1..][1..] == ts[2..] && ts[2..][1..] == ts[3..];
  }

  lemma WordSpends(ts: seq<Token>, op: Op, equal: bool)
    requires ts != [] && ts[0].Word?
    ensures var r := ParseFactor(false, ts);
            r.Ok? ==> Spent(ts, r.rest, op, equal, Joints(r.expr, op), Negations(r.expr), Relations(r.expr, equal))
  {
    if |ts| > 2 && ts[1].Relation? && ts[2].Word? {
      RelationSpends(ts, op, equal);
    } else {
      CountAll(ts, op, equal);
    }
  }

  lemma {:induction false} FactorSpends(ts: seq<Token>, op: Op, equal: bool)
    ensures var r := ParseFactor(false, ts);
            r.Ok? ==> Spent(ts, r.rest, op, equal, Joints(r.expr, op), Negations(r.expr), Relations(r.expr, equal))
    decreases |ts|, 0, 1
  {
    if ts != [] {
      match ts[0]
      case Open => ParenthesisSpends(ts, op, equal);
      case Bang => NegationSpends(ts, op, equal);
      case Word(_) => WordSpends(ts, op, equal);
      case _ =>
    }
  }

  /**
   Whatever text is read outside a condition, the expression has exactly the operators, negations and relations of the
   tokens consumed, and these have as many opening as closing parentheses.
   */
  lemma ParsedFaithfully(ts: seq<Token>, op: Op, equal: bool)
    ensures var r := ParseChain(false, Or, ts);
            r.Ok? ==> Spent(ts, r.rest, op, equal, Joints(r.expr, op), Negations(r.expr), Relations(r.expr, equal))
  {
    ChainSpends(Or, ts, op, equal);
  }
}
