/**
 Kconfiglib's expression printer and its recursive-descent parser (support/scripts/kconfiglib.py:
 _expr_to_str_rec, _intersperse, _parse_expr_2, _parse_or_term, _parse_factor, _Feed).
 */
module ExprText {
  import opened Tristates
  import opened KExpr

  datatype Token = Oper(op: Op) | Bang | Open | Close | Relation(equal: bool) | Word(atom: Atom) | Other(kind: nat)

  datatype Fault = MissingParenthesis | Malformed | NoOperand

  /** An expression with the tokens left over. */
  datatype Parsed = Ok(expr: Expr, rest: seq<Token>) | Failed(fault: Fault)
  datatype ParsedList = OkList(exprs: seq<Expr>, rest: seq<Token>) | FailedList(fault: Fault)

  // ----- the printer -----

  /** _expr_to_str_rec, as the tokens of the printed text */
  function Print(e: Expr): seq<Token>
    decreases e, 0
  {
    match e
    case Leaf(a) => [Word(a)]
    case Not(x) => if x.Leaf? then [Bang] + Print(x) else [Bang, Open] + Print(x) + [Close]
    case Rel(equal, a, b) => [Word(a), Relation(equal), Word(b)]
    case Nary(op, es) => Intersperse(op, es)
  }

  /** Parentheses are needed exactly for a disjunction inside a conjunction. */
  predicate NeedsParens(op: Op, e: Expr) { op == And && e.Nary? && e.op == Or }

  function PrintTerm(op: Op, e: Expr): seq<Token>
    decreases e, 1
  {
    if NeedsParens(op, e) then [Open] + Print(e) + [Close] else Print(e)
  }

  /** _intersperse */
  function Intersperse(op: Op, es: seq<Expr>): seq<Token>
    decreases es
  {
    if es == [] then []
    else if |es| == 1 then PrintTerm(op, es[0])
    else PrintTerm(op, es[0]) + [Oper(op)] + Intersperse(op, es[1..])
  }

  // ----- the parser, on the tokens that are left -----

  function Combine(op: Op, es: seq<Expr>): Expr { if |es| == 1 then es[0] else Nary(op, es) }

  predicate IsM(a: Atom) { a == Ref("m") || a == Text("m") }

  /** The symbol m is replaced by its text as an operand of a relation. */
  function Operand(a: Atom): Atom { if a == Ref("m") then Text("m") else a }

  /** A lone operand; conditions read m as "m" && MODULES. */
  function Single(transformM: bool, a: Atom): Expr {
    if transformM && IsM(a) then Nary(And, [Leaf(Text("m")), Leaf(Ref("MODULES"))]) else Leaf(a)
  }

  /** _parse_expr_2 for `||`, _parse_or_term for `&&` */
  function ParseChain(tm: bool, op: Op, ts: seq<Token>): (r: Parsed)
    ensures r.Ok? ==> |r.rest| < |ts|
    decreases |ts|, if op == Or then 4 else 2
  {
    match ParseNext(tm, op, [], ts)
    case FailedList(f) => Failed(f)
    case OkList(es, rest) => Ok(Combine(op, es), rest)
  }

  /** One more term of a chain, then the rest of the chain. */
  function ParseNext(tm: bool, op: Op, acc: seq<Expr>, ts: seq<Token>): (r: ParsedList)
    ensures r.OkList? ==> |r.rest| < |ts|
    decreases |ts|, if op == Or then 3 else 1
  {
    match (if op == Or then ParseChain(tm, And, ts) else ParseFactor(tm, ts))
    case Failed(f) => FailedList(f)
    case Ok(e, rest) => ParseMore(tm, op, acc + [e], rest)
  }

  /** The loop that goes on while the lookahead is the operator. */
  function ParseMore(tm: bool, op: Op, acc: seq<Expr>, ts: seq<Token>): (r: ParsedList)
    ensures r.OkList? ==> |r.rest| <= |ts|
    decreases |ts|, 0
  {
    if ts != [] && ts[0] == Oper(op) then ParseNext(tm, op, acc, ts[1..]) else OkList(acc, ts)
  }

  /** _parse_factor */
  function ParseFactor(tm: bool, ts: seq<Token>): (r: Parsed)
    ensures r.Ok? ==> |r.rest| < |ts|
    decreases |ts|, 0
  {
    if ts == [] then Failed(Malformed)
    else match ts[0]
      case Open =>
        (match ParseChain(tm, Or, ts[1..])
         case Failed(f) => Failed(f)
         case Ok(e, rest) => if rest != [] && rest[0] == Close then Ok(e, rest[1..]) else Failed(MissingParenthesis))
      case Bang =>
        (match ParseFactor(tm, ts[1..])
         case Failed(f) => Failed(f)
         case Ok(e, rest) => Ok(Not(e), rest))
      case Word(a) =>
        if |ts| == 1 || !ts[1].Relation? then Ok(Single(tm, a), ts[1..])
        else if |ts| == 2 || !ts[2].Word? then Failed(NoOperand)
        else Ok(Rel(ts[1].equal, Operand(a), Operand(ts[2].atom)), ts[3..])
      case _ => Failed(Malformed)
  }

  // ----- what comes back -----

  /** No list of terms is empty; an empty one prints as nothing. */
  predicate Printable(e: Expr)
    decreases e
  {
    match e
    case Not(x) => Printable(x)
    case Nary(_, es) => es != [] && AllPrintable(es)
    case _ => true
  }

  predicate AllPrintable(es: seq<Expr>)
    decreases es
  {
    es == [] || (Printable(es[0]) && AllPrintable(es[1..]))
  }

  /** The expression that is read back: a chain directly inside a chain of the same operator is merged into it. */
  function Reread(tm: bool, e: Expr): Expr
    decreases e, 2
  {
    Combine(Or, Terms(tm, Or, e))
  }

  /** The terms `e` contributes to a chain of `op`. */
  function Terms(tm: bool, op: Op, e: Expr): seq<Expr>
    decreases e, if op == Or then 1 else if NeedsParens(And, e) then 3 else 0
  {
    if e.Nary? && e.op == op then AllTerms(tm, op, e.args)
    else if op == Or then [Combine(And, Terms(tm, And, e))]
    else
      match e
      case Leaf(a) => [Single(tm, a)]
      case Not(x) => [Not(Reread(tm, x))]
      case Rel(equal, a, b) => [Rel(equal, Operand(a), Operand(b))]
      case Nary(_, _) => [Reread(tm, e)]
  }

  function AllTerms(tm: bool, op: Op, es: seq<Expr>): seq<Expr>
    decreases es
  {
    if es == [] then [] else Terms(tm, op, es[0]) + AllTerms(tm, op, es[1..])
  }

  /** What may follow a term of a chain of `op` so that the term ends there. */
  predicate Follows(op: Op, rest: seq<Token>) {
    rest == [] || !(rest[0].Relation? || (op == Or && rest[0] == Oper(And)))
  }

  lemma FirstTerm(op: Op, es: seq<Expr>, rest: seq<Token>) returns (more: seq<Token>)
    requires |es| > 1
    ensures Intersperse(op, es) + rest == PrintTerm(op, es[0]) + more
    ensures more != [] && more[0] == Oper(op) && more[1..] == Intersperse(op, es[1..]) + rest
  {
    more := [Oper(op)] + (Intersperse(op, es[1..]) + rest);
  }

  lemma AllTermsSplit(tm: bool, op: Op, es: seq<Expr>, acc: seq<Expr>)
    requires es != []
    ensures acc + Terms(tm, op, es[0]) + AllTerms(tm, op, es[1..]) == acc + AllTerms(tm, op, es)
  {}

  lemma {:induction false} TermReread(tm: bool, op: Op, e: Expr, acc: seq<Expr>, rest: seq<Token>)
    requires Printable(e) && Follows(op, rest)
    ensures ParseNext(tm, op, acc, PrintTerm(op, e) + rest) == ParseMore(tm, op, acc + Terms(tm, op, e), rest)
    decreases e, if op == Or then 2 else if NeedsParens(And, e) then 6 else 1
  {
    if e.Nary? && e.op == op {
      ChainReread(tm, op, e.args, acc, rest);
    } else if op == Or {
      TermReread(tm, And, e, [], rest);
      assert [] + Terms(tm, And, e) == Terms(tm, And, e);
    } else {
      FactorReread(tm, e, rest);
    }
  }

  lemma {:induction false} ChainReread(tm: bool, op: Op, es: seq<Expr>, acc: seq<Expr>, rest: seq<Token>)
    requires es != [] && AllPrintable(es) && Follows(op, rest)
    ensures ParseNext(tm, op, acc, Intersperse(op, es) + rest) == ParseMore(tm, op, acc + AllTerms(tm, op, es), rest)
    decreases es
  {
    if |es| == 1 {
      TermReread(tm, op, es[0], acc, rest);
      assert AllTerms(tm, op, es) == Terms(tm, op, es[0]);
    } else {
      var more := FirstTerm(op, es, rest);
      TermReread(tm, op, es[0], acc, more);
      ChainReread(tm, op, es[1..], acc + Terms(tm, op, es[0]), rest);
      AllTermsSplit(tm, op, es, acc);
    }
  }

  lemma NegatedLeaf(tm: bool, a: Atom, rest: seq<Token>)
    requires Follows(And, rest)
    ensures ParseFactor(tm, Print(Not(Leaf(a))) + rest) == Ok(Not(Reread(tm, Leaf(a))), rest)
  {
    assert Print(Not(Leaf(a))) == [Bang, Word(a)];
    assert ([Bang, Word(a)] + rest)[1..] == [Word(a)] + rest;
    assert ([Word(a)] + rest)[1..] == rest;
    assert Terms(tm, Or, Leaf(a)) == [Combine(And, Terms(tm, And, Leaf(a)))];
  }

  lemma NegatedParens(tm: bool, x: Expr, rest: seq<Token>)
    requires !x.Leaf? && ParseFactor(tm, [Open] + Print(x) + [Close] + rest) == Ok(Reread(tm, x), rest)
    ensures ParseFactor(tm, Print(Not(x)) + rest) == Ok(Not(Reread(tm, x)), rest)
  {
    var inner := [Open] + Print(x) + [Close] + rest;
    assert Print(Not(x)) == [Bang, Open] + Print(x) + [Close];
    assert Print(Not(x)) + rest == [Bang] + inner && ([Bang] + inner)[1..] == inner;
  }

  lemma {:induction false} FactorReread(tm: bool, e: Expr, rest: seq<Token>)
    requires Printable(e) && Follows(And, rest) && !(e.Nary? && e.op == And)
    ensures ParseFactor(tm, PrintTerm(And, e) + rest) == Ok(Terms(tm, And, e)[0], rest)
    decreases e, if NeedsParens(And, e) then 5 else 0
  {
    match e
    case Leaf(a) => assert ([Word(a)] + rest)[1..] == rest;
    case Rel(equal, a, b) => assert ([Word(a), Relation(equal), Word(b)] + rest)[3..] == rest;
    case Not(x) =>
      if x.Leaf? {
        NegatedLeaf(tm, x.atom, rest);
      } else {
        ParensReread(tm, x, [Open] + Print(x) + [Close] + rest, rest);
        NegatedParens(tm, x, rest);
      }
    case Nary(_, _) => ParensReread(tm, e, PrintTerm(And, e) + rest, rest);
  }

  lemma {:induction false} ParensReread(tm: bool, e: Expr, ts: seq<Token>, rest: seq<Token>)
    requires Printable(e) && ts == [Open] + Print(e) + [Close] + rest
    ensures ParseFactor(tm, ts) == Ok(Reread(tm, e), rest)
    decreases e, 4
  {
    assert ts[1..] == Print(e) + ([Close] + rest);
    RereadBefore(tm, e, [Close] + rest);
    assert ([Close] + rest)[1..] == rest;
  }

  lemma {:induction false} RereadBefore(tm: bool, e: Expr, rest: seq<Token>)
    requires Printable(e) && Follows(Or, rest) && (rest == [] || rest[0] != Oper(Or))
    ensures ParseChain(tm, Or, Print(e) + rest) == Ok(Reread(tm, e), rest)
    decreases e, 3
  {
    TermReread(tm, Or, e, [], rest);
    assert [] + Terms(tm, Or, e) == Terms(tm, Or, e);
  }

  /**
   Parse after print: every expression without empty lists is read back as `Reread`, up to the end of
   its own tokens, whatever follows that is not an operator or a relation.
   */
  lemma ParsePrinted(tm: bool, e: Expr, rest: seq<Token>)
    requires Printable(e) && (rest == [] || !(rest[0].Oper? || rest[0].Relation?))
    ensures ParseChain(tm, Or, Print(e) + rest) == Ok(Reread(tm, e), rest)
  {
    RereadBefore(tm, e, rest);
  }

  // ----- when that is the same expression -----

  /** Lists have at least two terms, none of them a list of the same operator; no relation on the symbol m. */
  predicate InForm(e: Expr)
    decreases e
  {
    match e
    case Leaf(_) => true
    case Not(x) => InForm(x)
    case Rel(_, a, b) => a != Ref("m") && b != Ref("m")
    case Nary(op, es) => |es| > 1 && AllInForm(op, es)
  }

  predicate AllInForm(op: Op, es: seq<Expr>)
    decreases es
  {
    es == [] || (InForm(es[0]) && !(es[0].Nary? && es[0].op == op) && AllInForm(op, es[1..]))
  }

  function Size(e: Expr): nat
    decreases e
  {
    match e
    case Not(x) => 1 + Size(x)
    case Nary(_, es) => 1 + Sum(es)
    case _ => 1
  }

  function Sum(es: seq<Expr>): nat
    decreases es
  {
    if es == [] then 0 else Size(es[0]) + Sum(es[1..])
  }

  lemma {:induction false} SumJoin(a: seq<Expr>, b: seq<Expr>)
    ensures Sum(a + b) == Sum(a) + Sum(b)
  {
    if a == [] {
      assert a + b == b;
    } else {
      assert (a + b)[1..] == a[1..] + b;
      SumJoin(a[1..], b);
    }
  }

  lemma CombineSize(op: Op, es: seq<Expr>)
    ensures Size(Combine(op, es)) <= 1 + Sum(es)
    ensures |es| == 1 ==> Sum(es) == Size(es[0])
  {
    if |es| == 1 {
      assert es[1..] == [];
    }
  }

  /** Reading back never makes an expression larger. */
  lemma {:induction false} TermsSize(op: Op, e: Expr)
    ensures Sum(Terms(false, op, e)) <= Size(e)
    decreases e, if op == Or then 1 else if NeedsParens(And, e) then 3 else 0
  {
    if e.Nary? && e.op == op {
      AllTermsSize(op, e.args);
    } else if op == Or {
      TermsSize(And, e);
      CombineSize(And, Terms(false, And, e));
      if e.Nary? {
        AllTermsSize(And, e.args);
      }
    } else {
      match e
      case Not(x) => RereadSize(x);
      case Nary(_, _) => RereadSize(e);
      case _ =>
    }
  }

  lemma {:induction false} AllTermsSize(op: Op, es: seq<Expr>)
    ensures Sum(AllTerms(false, op, es)) <= Sum(es)
    decreases es
  {
    if es != [] {
      TermsSize(op, es[0]);
      AllTermsSize(op, es[1..]);
      SumJoin(Terms(false, op, es[0]), AllTerms(false, op, es[1..]));
    }
  }

  lemma {:induction false} RereadSize(e: Expr)
    ensures Size(Reread(false, e)) <= Size(e)
    decreases e, 2
  {
    CombineSize(Or, Terms(false, Or, e));
    if e.Nary? && e.op == Or {
      AllTermsSize(Or, e.args);
    } else {
      TermsSize(Or, e);
    }
  }

  lemma {:induction false} SomeTerms(op: Op, e: Expr)
    requires Printable(e)
    ensures |Terms(false, op, e)| >= 1
    decreases e
  {
    if e.Nary? && e.op == op {
      ManyTerms(op, e.args);
    }
  }

  lemma {:induction false} ManyTerms(op: Op, es: seq<Expr>)
    requires AllPrintable(es)
    ensures |AllTerms(false, op, es)| >= |es|
    decreases es
  {
    if es != [] {
      SomeTerms(op, es[0]);
      ManyTerms(op, es[1..]);
    }
  }

  /** A term that is not a list of the chain's operator is read back as it would be alone. */
  lemma TermAlone(op: Op, e: Expr)
    requires !(e.Nary? && e.op == op)
    ensures Terms(false, op, e) == [Reread(false, e)]
  {
    if op == And && !e.Nary? {
      assert Terms(false, Or, e) == [Combine(And, Terms(false, And, e))];
    }
  }

  /** A term that contributes just itself is in form and not a list of the chain's operator. */
  lemma {:induction false} TermFixed(op: Op, e: Expr)
    requires Printable(e) && Terms(false, op, e) == [e]
    ensures InForm(e) && !(e.Nary? && e.op == op)
    decreases e, 1
  {
    if e.Nary? && e.op == op {
      AllTermsSize(op, e.args);
      CombineSize(op, [e]);
    } else {
      TermAlone(op, e);
      FixedInForm(e);
    }
  }

  lemma {:induction false} TermsFixed(op: Op, es: seq<Expr>)
    requires AllPrintable(es) && AllTerms(false, op, es) == es
    ensures AllInForm(op, es)
    decreases es
  {
    if es != [] {
      var ts, more := Terms(false, op, es[0]), AllTerms(false, op, es[1..]);
      SomeTerms(op, es[0]);
      ManyTerms(op, es[1..]);
      assert |ts| + |more| == |es|;
      assert ts == es[..1] && more == es[1..];
      TermFixed(op, es[0]);
      TermsFixed(op, es[1..]);
    }
  }

  lemma {:induction false} FixedInForm(e: Expr)
    requires Printable(e) && Reread(false, e) == e
    ensures InForm(e)
    decreases e, 0
  {
    match e
    case Leaf(_) =>
    case Rel(_, _, _) => assert Terms(false, Or, e) == [Combine(And, Terms(false, And, e))];
    case Not(x) =>
      assert Terms(false, Or, e) == [Combine(And, Terms(false, And, e))];
      FixedInForm(x);
    case Nary(op, es) =>
      AllTermsSize(op, es);
      CombineSize(op, AllTerms(false, op, es));
      ManyTerms(op, es);
      assert Reread(false, e) == Combine(op, AllTerms(false, op, es));
      TermsFixed(op, es);
  }

  lemma {:induction false} InFormTerms(op: Op, es: seq<Expr>)
    requires AllInForm(op, es)
    ensures AllTerms(false, op, es) == es && AllPrintable(es)
    decreases es
  {
    if es != [] {
      InFormFixed(es[0]);
      TermAlone(op, es[0]);
      InFormTerms(op, es[1..]);
      assert [es[0]] + es[1..] == es;
    }
  }

  lemma {:induction false} InFormFixed(e: Expr)
    requires InForm(e)
    ensures Printable(e) && Reread(false, e) == e
    decreases e
  {
    match e
    case Leaf(_) =>
    case Rel(_, _, _) => assert Terms(false, Or, e) == [Combine(And, Terms(false, And, e))];
    case Not(x) =>
      assert Terms(false, Or, e) == [Combine(And, Terms(false, And, e))];
      InFormFixed(x);
    case Nary(op, es) =>
      InFormTerms(op, es);
      assert Terms(false, op, e) == AllTerms(false, op, es);
      if op == And {
        assert Terms(false, Or, e) == [Combine(And, Terms(false, And, e))];
      }
  }

  /** Parse after print is the identity exactly on expressions in form (with m not rewritten). */
  lemma ParsePrintedSame(e: Expr, rest: seq<Token>)
    requires Printable(e) && (rest == [] || !(rest[0].Oper? || rest[0].Relation?))
    ensures ParseChain(false, Or, Print(e) + rest) == Ok(e, rest) <==> InForm(e)
  {
    ParsePrinted(false, e, rest);
    if InForm(e) {
      InFormFixed(e);
    }
    if Reread(false, e) == e {
      FixedInForm(e);
    }
  }

  // ----- and it always means the same -----

  lemma {:induction false} EvalJoin(op: Op, a: seq<Expr>, b: seq<Expr>, env: Env)
    ensures EvalAll(op, a + b, env) == Apply(op, EvalAll(op, a, env), EvalAll(op, b, env))
  {
    if a == [] {
      assert a + b == b;
    } else {
      assert (a + b)[1..] == a[1..] + b;
      EvalJoin(op, a[1..], b, env);
    }
  }

  lemma CombineValue(op: Op, es: seq<Expr>, env: Env)
    ensures Eval(Combine(op, es), env) == EvalAll(op, es, env)
  {
    if |es| == 1 {
      assert es[1..] == [];
    }
  }

  /** What a condition that is read stands for: each lone m means m && MODULES. */
  function Rewritten(tm: bool, e: Expr): Expr
    decreases e
  {
    match e
    case Leaf(a) => Single(tm, a)
    case Not(x) => Not(Rewritten(tm, x))
    case Nary(op, es) => Nary(op, RewrittenAll(tm, es))
    case Rel(_, _, _) => e
  }

  function RewrittenAll(tm: bool, es: seq<Expr>): seq<Expr>
    decreases es
  {
    if es == [] then [] else [Rewritten(tm, es[0])] + RewrittenAll(tm, es[1..])
  }

  /** Elsewhere nothing is rewritten, so the value is the same. */
  lemma {:induction false} RewrittenOff(e: Expr)
    ensures Rewritten(false, e) == e
    decreases e
  {
    match e
    case Not(x) => RewrittenOff(x);
    case Nary(_, es) => RewrittenAllOff(es);
    case _ =>
  }

  lemma {:induction false} RewrittenAllOff(es: seq<Expr>)
    ensures RewrittenAll(false, es) == es
    decreases es
  {
    if es != [] {
      RewrittenOff(es[0]);
      RewrittenAllOff(es[1..]);
    }
  }

  lemma {:induction false} TermsValue(tm: bool, op: Op, e: Expr, env: Env)
    requires env.str("m") == "m"
    ensures EvalAll(op, Terms(tm, op, e), env) == Eval(Rewritten(tm, e), env)
    decreases e, if op == Or then 1 else if NeedsParens(And, e) then 3 else 0
  {
    if e.Nary? && e.op == op {
      AllTermsValue(tm, op, e.args, env);
    } else if op == Or {
      TermsValue(tm, And, e, env);
      CombineValue(And, Terms(tm, And, e), env);
    } else {
      match e
      case Not(x) => RereadValue(tm, x, env);
      case Nary(_, _) => RereadValue(tm, e, env);
      case _ =>
    }
  }

  lemma {:induction false} AllTermsValue(tm: bool, op: Op, es: seq<Expr>, env: Env)
    requires env.str("m") == "m"
    ensures EvalAll(op, AllTerms(tm, op, es), env) == EvalAll(op, RewrittenAll(tm, es), env)
    decreases es
  {
    if es != [] {
      TermsValue(tm, op, es[0], env);
      AllTermsValue(tm, op, es[1..], env);
      EvalJoin(op, Terms(tm, op, es[0]), AllTerms(tm, op, es[1..]), env);
    }
  }

  /** Whatever its shape, an expression read back has the value it had, but for lone m where conditions are read. */
  lemma {:induction false} RereadValue(tm: bool, e: Expr, env: Env)
    requires env.str("m") == "m"
    ensures Eval(Reread(tm, e), env) == Eval(Rewritten(tm, e), env)
    decreases e, 2
  {
    TermsValue(tm, Or, e, env);
    CombineValue(Or, Terms(tm, Or, e), env);
  }

  // ----- the parser as it runs, on a feed whose index advances -----

  class Feed {
    const items: seq<Token>
    var i: nat

    constructor (items: seq<Token>)
      ensures this.items == items && i == 0
    {
      this.items := items;
      i := 0;
    }

    ghost predicate Valid() reads this { i <= |items| }

    function Left(): seq<Token>
      requires Valid()
      reads this
    {
      items[i..]
    }

    /** Consumes the next token if it is `t`. */
    method Check(t: Token) returns (b: bool)
      requires Valid()
      modifies this`i
      ensures Valid() && b == (old(Left()) != [] && old(Left())[0] == t)
      ensures if b then i == old(i) + 1 && Left() == old(Left())[1..] else i == old(i)
    {
      b := i < |items| && items[i] == t;
      if b {
        i := i + 1;
      }
    }

    method GetNext() returns (t: Option<Token>)
      requires Valid()
      modifies this`i
      ensures Valid() && (t.None? <==> old(Left()) == [])
      ensures t.Some? ==> t.value == old(Left())[0] && i == old(i) + 1 && Left() == old(Left())[1..]
    {
      if i >= |items| {
        return None;
      }
      t := Some(items[i]);
      i := i + 1;
    }

    /** _parse_expr_2 and _parse_or_term */
    method ReadChain(tm: bool, op: Op) returns (r: Parsed)
      requires Valid()
      modifies this`i
      ensures Valid() && r == ParseChain(tm, op, old(Left())) && (r.Ok? ==> r.rest == Left())
      decreases |items| - i, if op == Or then 4 else 2
    {
      ghost var start := Left();
      r := ReadTerm(tm, op);
      if r.Failed? {
        return;
      }
      var es := [r.expr];
      assert ParseNext(tm, op, [], start) == ParseMore(tm, op, es, Left()) by { assert [] + es == es; }
      var more := Check(Oper(op));
      while more
        invariant Valid() && i > old(i)
        invariant ParseNext(tm, op, [], start) == if more then ParseNext(tm, op, es, Left()) else OkList(es, Left())
        decreases |items| - i, more
      {
        r := ReadTerm(tm, op);
        if r.Failed? {
          return;
        }
        es := es + [r.expr];
        more := Check(Oper(op));
      }
      r := Ok(Combine(op, es), Left());
    }

    /** One term: an `&&` chain inside `||`, a factor inside `&&` */
    method ReadTerm(tm: bool, op: Op) returns (r: Parsed)
      requires Valid()
      modifies this`i
      ensures Valid() && r == (if op == Or then ParseChain(tm, And, old(Left())) else ParseFactor(tm, old(Left())))
      ensures r.Ok? ==> r.rest == Left() && i > old(i)
      decreases |items| - i, if op == Or then 3 else 1
    {
      if op == Or {
        r := ReadChain(tm, And);
      } else {
        r := ReadFactor(tm);
      }
    }

    /** _parse_factor */
    method ReadFactor(tm: bool) returns (r: Parsed)
      requires Valid()
      modifies this`i
      ensures Valid() && r == ParseFactor(tm, old(Left())) && (r.Ok? ==> r.rest == Left())
      decreases |items| - i, 0
    {
      var open := Check(Open);
      if open {
        r := ReadChain(tm, Or);
        if r.Failed? {
          return;
        }
        var close := Check(Close);
        return if close then Ok(r.expr, Left()) else Failed(MissingParenthesis);
      }
      var bang := Check(Bang);
      if bang {
        r := ReadFactor(tm);
        return if r.Failed? then r else Ok(Not(r.expr), Left());
      }
      var t := GetNext();
      if t.None? || !t.value.Word? {
        return Failed(Malformed);
      }
      if i == |items| || !items[i].Relation? {
        return Ok(Single(tm, t.value.atom), Left());
      }
      var rel := GetNext();
      var u := GetNext();
      if u.None? || !u.value.Word? {
        return Failed(NoOperand);
      }
      r := Ok(Rel(rel.value.equal, Operand(t.value.atom), Operand(u.value.atom)), Left());
    }
  }
}
