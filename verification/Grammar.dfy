/** The language of queries: operands joined by operators of equal rank, with braces. */
module Grammar {
  // Operators associate to the left.  The language is defined as derivations and as a scan from left to right.

  import opened Basics

  datatype Op = Unite | Difference | Intersect | SymmetricDifference

  /** An operand is a search string or a call of a registered function. */
  datatype Atom = Text(str: string) | Function(name: string, argument: string)

  datatype Token = OPERAND(atom: Atom) | OPERATOR(op: Op) | BRACE_OPEN | BRACE_CLOSE | ENDOFINPUT

  datatype Tree = Leaf(atom: Atom) | Node(op: Op, left: Tree, right: Tree)

  datatype Term = Operand(atom: Atom) | Braced(e: Infix)
  datatype Infix = Single(t: Term) | More(e: Infix, op: Op, t: Term)

  function TermTokens(t: Term): (r: seq<Token>)
    ensures r != []
  {
    match t
    case Operand(atom) => [OPERAND(atom)]
    case Braced(e) => [BRACE_OPEN] + InfixTokens(e) + [BRACE_CLOSE]
  }

  function InfixTokens(e: Infix): (r: seq<Token>)
    ensures r != []
  {
    match e
    case Single(t) => TermTokens(t)
    case More(e1, op, t) => InfixTokens(e1) + [OPERATOR(op)] + TermTokens(t)
  }

  function TermTree(t: Term): Tree {
    match t
    case Operand(atom) => Leaf(atom)
    case Braced(e) => InfixTree(e)
  }

  function InfixTree(e: Infix): Tree {
    match e
    case Single(t) => TermTree(t)
    case More(e1, op, t) => Node(op, InfixTree(e1), TermTree(t))
  }

  /** Why a scan ends. */
  datatype Verdict = Accept | OperandMissing | OperatorMissing

  /** Reads tokens with `depth` open braces. */
  function Scan(ts: seq<Token>, depth: nat, expectOperand: bool): Verdict {
    if expectOperand then
      if ts == [] then OperandMissing
      else match ts[0]
        case OPERAND(_) => Scan(ts[1..], depth, false)
        case BRACE_OPEN => Scan(ts[1..], depth + 1, true)
        case _ => OperandMissing
    else
      if ts == [] then (if depth == 0 then Accept else OperatorMissing)
      else match ts[0]
        case OPERATOR(_) => Scan(ts[1..], depth, true)
        case BRACE_CLOSE => if depth > 0 then Scan(ts[1..], depth - 1, false) else OperatorMissing
        case _ => OperatorMissing
  }

  lemma {:induction false} ScanTerm(t: Term, rest: seq<Token>, depth: nat)
    ensures Scan(TermTokens(t) + rest, depth, true) == Scan(rest, depth, false)
    decreases t
  {
    match t
    case Operand(_) =>
      assert (TermTokens(t) + rest)[1..] == rest;
    case Braced(e) =>
      var inner := InfixTokens(e) + ([BRACE_CLOSE] + rest);
      assert TermTokens(t) + rest == [BRACE_OPEN] + inner;
      assert ([BRACE_OPEN] + inner)[1..] == inner;
      ScanInfix(e, [BRACE_CLOSE] + rest, depth + 1);
      assert ([BRACE_CLOSE] + rest)[1..] == rest;
  }

  lemma {:induction false} ScanInfix(e: Infix, rest: seq<Token>, depth: nat)
    ensures Scan(InfixTokens(e) + rest, depth, true) == Scan(rest, depth, false)
    decreases e
  {
    match e
    case Single(t) => ScanTerm(t, rest, depth);
    case More(e1, op, t) =>
      var tail := TermTokens(t) + rest;
      assert InfixTokens(e) + rest == InfixTokens(e1) + ([OPERATOR(op)] + tail);
      ScanInfix(e1, [OPERATOR(op)] + tail, depth);
      assert ([OPERATOR(op)] + tail)[1..] == tail;
      ScanTerm(t, rest, depth);
  }

  lemma TwoOperands(a: Atom, op: Op, b: Atom)
    ensures var e := More(Single(Operand(a)), op, Operand(b));
            InfixTokens(e) == [OPERAND(a), OPERATOR(op), OPERAND(b)] && InfixTree(e) == Node(op, Leaf(a), Leaf(b))
  {
    var e := Single(Operand(a));
    assert InfixTokens(e) == TermTokens(Operand(a)) == [OPERAND(a)];
    assert InfixTree(e) == TermTree(Operand(a)) == Leaf(a);
  }

  predicate EndsWithOperator(ts: seq<Token>) {
    ts != [] && ts[|ts| - 1].OPERATOR?
  }

  /** Read from the right, the last term is determined. */
  lemma {:induction false} UniqueTerm(t: Term, t2: Term, x: seq<Token>, x2: seq<Token>)
    requires x + TermTokens(t) == x2 + TermTokens(t2)
    ensures t == t2 && x == x2
    decreases t
  {
    var all := x + TermTokens(t);
    assert all[|all| - 1] == TermTokens(t)[|TermTokens(t)| - 1] == TermTokens(t2)[|TermTokens(t2)| - 1];
    match t
    case Operand(_) =>
      assert x == all[..|all| - 1] == x2;
    case Braced(e) =>
      assert t2.Braced?;
      var y, y2 := x + [BRACE_OPEN], x2 + [BRACE_OPEN];
      assert y + InfixTokens(e) == all[..|all| - 1] == y2 + InfixTokens(t2.e);
      UniqueInfix(e, t2.e, y, y2);
      assert x == y[..|y| - 1] && x2 == y2[..|y2| - 1];
  }

  /** No two derivations yield the same tokens. */
  lemma {:induction false} UniqueInfix(e: Infix, e2: Infix, x: seq<Token>, x2: seq<Token>)
    requires x + InfixTokens(e) == x2 + InfixTokens(e2)
    requires !EndsWithOperator(x) && !EndsWithOperator(x2)
    ensures e == e2 && x == x2
    decreases e
  {
    var y := if e.Single? then x else x + InfixTokens(e.e) + [OPERATOR(e.op)];
    var y2 := if e2.Single? then x2 else x2 + InfixTokens(e2.e) + [OPERATOR(e2.op)];
    assert y + TermTokens(e.t) == x + InfixTokens(e);
    assert y2 + TermTokens(e2.t) == x2 + InfixTokens(e2);
    UniqueTerm(e.t, e2.t, y, y2);
    if e.More? && e2.More? {
      assert e.op == y[|y| - 1].op == e2.op;
      assert x + InfixTokens(e.e) == y[..|y| - 1] == x2 + InfixTokens(e2.e);
      UniqueInfix(e.e, e2.e, x, x2);
    } else if e.More? {
      assert EndsWithOperator(y);
    }
  }

  // ---- the tree of any tokens ---------------------------------------------------------------

  /** The longest phrase at the front. */
  ghost predicate Longest(ts: seq<Token>, e: Infix) {
    && InfixTokens(e) <= ts
    && forall e2: Infix :: InfixTokens(e2) <= ts ==> |InfixTokens(e2)| <= |InfixTokens(e)|
  }

  /** The tree of the longest phrase at the front; if there is none, of what follows an opening brace. */
  ghost function TreeOfTokens(ts: seq<Token>): Option<Tree> {
    if exists e: Infix :: Longest(ts, e) then
      var e: Infix :| Longest(ts, e);
      Some(InfixTree(e))
    else if ts != [] && ts[0].BRACE_OPEN? then TreeOfTokens(ts[1..])
    else None
  }

  lemma LongestIsTaken(ts: seq<Token>, e: Infix)
    requires Longest(ts, e)
    ensures TreeOfTokens(ts) == Some(InfixTree(e))
  {
    forall e2: Infix | Longest(ts, e2) ensures e2 == e {
      assert InfixTokens(e2) == ts[..|InfixTokens(e)|] == InfixTokens(e);
      assert [] + InfixTokens(e2) == [] + InfixTokens(e);
      UniqueInfix(e2, e, [], []);
    }
  }

  /** Opening minus closing braces. */
  function Balance(ts: seq<Token>): int {
    if ts == [] then 0
    else (match ts[0] case BRACE_OPEN => 1 case BRACE_CLOSE => -1 case _ => 0) + Balance(ts[1..])
  }

  lemma {:induction false} BalanceJoin(x: seq<Token>, y: seq<Token>)
    ensures Balance(x + y) == Balance(x) + Balance(y)
  {
    if x == [] {
      assert x + y == y;
    } else {
      assert (x + y)[1..] == x[1..] + y;
      BalanceJoin(x[1..], y);
    }
  }

  /** Accepted tokens never close more braces than are open, and close all of them in the end. */
  lemma {:induction false} AcceptedBalance(x: seq<Token>, y: seq<Token>, depth: nat, expectOperand: bool)
    requires Scan(x + y, depth, expectOperand) == Accept
    ensures depth + Balance(x) >= 0
    ensures y == [] ==> depth + Balance(x) == 0
    decreases |x|
  {
    if x == [] {
      assert x + y == y;
    } else {
      assert (x + y)[1..] == x[1..] + y;
      match x[0]
      case BRACE_OPEN => AcceptedBalance(x[1..], y, depth + 1, true);
      case BRACE_CLOSE => AcceptedBalance(x[1..], y, depth - 1, false);
      case OPERAND(_) => AcceptedBalance(x[1..], y, depth, false);
      case OPERATOR(_) => AcceptedBalance(x[1..], y, depth, true);
      case ENDOFINPUT =>
    }
  }

  lemma PhraseBalance(e: Infix, part: seq<Token>)
    requires part <= InfixTokens(e)
    ensures Balance(part) >= 0 && Balance(InfixTokens(e)) == 0
  {
    var all := InfixTokens(e);
    ScanInfix(e, [], 0);
    AcceptedBalance(all, [], 0, true);
    assert all + [] == part + all[|part|..];
    AcceptedBalance(part, all[|part|..], 0, true);
  }

  /** The layout in which a tree is printed: braces around every node. */
  function Printed(t: Tree): Term {
    match t
    case Leaf(atom) => Braced(Single(Operand(atom)))
    case Node(op, l, r) => Braced(More(Single(Printed(l)), op, Printed(r)))
  }

  lemma {:induction false} PrintedTree(t: Tree)
    ensures TermTree(Printed(t)) == t
  {
    match t
    case Leaf(atom) =>
      assert InfixTree(Single(Operand(atom))) == Leaf(atom);
    case Node(_, l, r) =>
      PrintedTree(l);
      PrintedTree(r);
      assert InfixTree(Single(Printed(l))) == l;
  }
}
