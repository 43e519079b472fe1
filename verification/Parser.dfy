/** The shift/reduce automaton over three stacks that turns the tokens of a query into its tree. */
module Parser {
  import opened Basics
  import opened Grammar
  import T = Tokenizer
  import Q = QueryText

  datatype State =
    | PS_INIT | PS_BRACE_OPENED | PS_TERMINAL | PS_BEFORE_OP_OR_DONE | PS_BEFORE_OP_OR_BRACE
    | PS_AFTER_OP | PS_BRACE_CLOSED | PS_OP_COMPLETED_OR_BEFORE_OP

  datatype Symbol = Tok(t: Token) | NT_SA

  predicate ExpectsOperand(p: State) {
    p.PS_INIT? || p.PS_BRACE_OPENED? || p.PS_AFTER_OP?
  }

  /** The state on top of a reduced operand, given the state below it. */
  function Goto(below: State): State
    requires ExpectsOperand(below)
  {
    match below
    case PS_INIT => PS_BEFORE_OP_OR_DONE
    case PS_BRACE_OPENED => PS_BEFORE_OP_OR_BRACE
    case _ => PS_OP_COMPLETED_OR_BEFORE_OP
  }

  /** The state after a token is put on the parse stack. */
  function Shift(token: Token): State
    requires !token.ENDOFINPUT?
  {
    match token
    case OPERAND(_) => PS_TERMINAL
    case BRACE_OPEN => PS_BRACE_OPENED
    case OPERATOR(_) => PS_AFTER_OP
    case BRACE_CLOSE => PS_BRACE_CLOSED
  }

  /** Symbol x with the state above it, on top of state `below`. */
  predicate Link(below: State, x: Symbol, above: State, last: bool) {
    match x
    case NT_SA => ExpectsOperand(below) && above == Goto(below) && (below.PS_AFTER_OP? ==> last)
    case Tok(OPERAND(_)) => ExpectsOperand(below) && above.PS_TERMINAL? && last
    case Tok(BRACE_OPEN) => ExpectsOperand(below) && above.PS_BRACE_OPENED?
    case Tok(OPERATOR(_)) => (below.PS_BEFORE_OP_OR_DONE? || below.PS_BEFORE_OP_OR_BRACE?) && above.PS_AFTER_OP?
    case Tok(BRACE_CLOSE) => below.PS_BEFORE_OP_OR_BRACE? && above.PS_BRACE_CLOSED? && last
    case _ => false
  }

  ghost predicate StacksOk(states: seq<State>, parse: seq<Symbol>) {
    && |states| == |parse| + 1 && states[0] == PS_INIT
    && forall i :: 0 <= i < |parse| ==> Link(states[i], parse[i], states[i + 1], i == |parse| - 1)
  }

  function CountOperands(parse: seq<Symbol>): nat {
    if parse == [] then 0
    else CountOperands(parse[..|parse| - 1]) + if parse[|parse| - 1].NT_SA? then 1 else 0
  }

  /** The tokens behind the parse stack: each reduced operand stands for the tokens of its derivation. */
  function Spelled(parse: seq<Symbol>, items: seq<Infix>): seq<Token>
    requires |items| == CountOperands(parse)
  {
    if parse == [] then []
    else match parse[|parse| - 1]
      case NT_SA => Spelled(parse[..|parse| - 1], items[..|items| - 1]) + InfixTokens(items[|items| - 1])
      case Tok(t) => Spelled(parse[..|parse| - 1], items) + [t]
  }

  function OpenBraces(parse: seq<Symbol>): int {
    if parse == [] then 0
    else OpenBraces(parse[..|parse| - 1])
         + match parse[|parse| - 1] case Tok(BRACE_OPEN) => 1 case Tok(BRACE_CLOSE) => -1 case _ => 0
  }

  function Trees(items: seq<Infix>): seq<Tree> {
    seq(|items|, i requires 0 <= i < |items| => InfixTree(items[i]))
  }

  /** Between two rounds of the automaton: the stacks spell the tokens consumed, the node stack holds the
      trees of the reduced operands, and the verdict on all tokens is the verdict on those left. */
  ghost predicate Running(all: seq<Token>, pos: nat, states: seq<State>, parse: seq<Symbol>,
                          nodes: seq<Tree>, items: seq<Infix>) {
    && pos <= |all| && StacksOk(states, parse)
    && |items| == CountOperands(parse) && nodes == Trees(items)
    && (states[|parse|].PS_OP_COMPLETED_OR_BEFORE_OP? ==> items != [] && items[|items| - 1].Single?)
    && Spelled(parse, items) == all[..pos]
    && OpenBraces(parse) >= 0
    && Scan(all, 0, true) == Scan(all[pos..], OpenBraces(parse), ExpectsOperand(states[|parse|]))
  }

  lemma PushSymbol(all: seq<Token>, pos: nat, states: seq<State>, parse: seq<Symbol>,
                   nodes: seq<Tree>, items: seq<Infix>, above: State)
    requires Running(all, pos, states, parse, nodes, items) && pos < |all|
    requires Link(states[|parse|], Tok(all[pos]), above, true)
    requires states[|parse|].PS_BEFORE_OP_OR_BRACE? ==> OpenBraces(parse) > 0
    ensures Running(all, pos + 1, states + [above], parse + [Tok(all[pos])], nodes, items)
  {
    var parse2 := parse + [Tok(all[pos])];
    assert parse2[..|parse2| - 1] == parse;
    assert all[..pos + 1] == all[..pos] + [all[pos]];
    assert all[pos..][1..] == all[pos + 1..];
    forall i | 0 <= i < |parse|
      ensures Link((states + [above])[i], parse2[i], (states + [above])[i + 1], i == |parse2| - 1)
    {
      assert Link(states[i], parse[i], states[i + 1], i == |parse| - 1);
    }
  }

  /** A new operand replaces the top of the parse stack above position n. */
  lemma LinksBelow(states: seq<State>, parse: seq<Symbol>, n: nat)
    requires StacksOk(states, parse) && n < |parse| && ExpectsOperand(states[n])
    ensures StacksOk(states[..n + 1] + [Goto(states[n])], parse[..n] + [NT_SA])
  {
    var states2, parse2 := states[..n + 1] + [Goto(states[n])], parse[..n] + [NT_SA];
    forall i | 0 <= i < |parse2| ensures Link(states2[i], parse2[i], states2[i + 1], i == |parse2| - 1) {
      if i < n {
        assert Link(states[i], parse[i], states[i + 1], i == |parse| - 1);
      }
    }
  }

  lemma CountPush(parse: seq<Symbol>, x: Symbol)
    ensures CountOperands(parse + [x]) == CountOperands(parse) + if x.NT_SA? then 1 else 0
    ensures OpenBraces(parse + [x])
            == OpenBraces(parse) + match x case Tok(BRACE_OPEN) => 1 case Tok(BRACE_CLOSE) => -1 case _ => 0
  {
    assert (parse + [x])[..|parse|] == parse;
  }

  lemma SpellPush(parse: seq<Symbol>, items: seq<Infix>, x: Symbol, e: Infix)
    requires |items| == CountOperands(parse)
    ensures CountOperands(parse + [NT_SA]) == |items + [e]|
    ensures Spelled(parse + [NT_SA], items + [e]) == Spelled(parse, items) + InfixTokens(e)
    ensures x.Tok? ==> CountOperands(parse + [x]) == |items| && Spelled(parse + [x], items) == Spelled(parse, items) + [x.t]
  {
    CountPush(parse, NT_SA);
    CountPush(parse, x);
    assert (parse + [NT_SA])[..|parse|] == parse && (parse + [x])[..|parse|] == parse;
    assert (items + [e])[..|items|] == items;
  }

  /** The symbols above position n are replaced by the operand e that they spell. */
  lemma Reduced(all: seq<Token>, pos: nat, states: seq<State>, parse: seq<Symbol>, nodes: seq<Tree>, items: seq<Infix>,
                n: nat, rest: seq<Infix>, e: Infix)
    requires Running(all, pos, states, parse, nodes, items) && !ExpectsOperand(states[|parse|])
    requires n < |parse| && ExpectsOperand(states[n]) && (states[n].PS_AFTER_OP? ==> e.Single?)
    requires |rest| == CountOperands(parse[..n]) && OpenBraces(parse[..n]) == OpenBraces(parse)
    requires Spelled(parse, items) == Spelled(parse[..n], rest) + InfixTokens(e)
    ensures Running(all, pos, states[..n + 1] + [Goto(states[n])], parse[..n] + [NT_SA], Trees(rest + [e]), rest + [e])
  {
    LinksBelow(states, parse, n);
    SpellPush(parse[..n], rest, NT_SA, e);
    CountPush(parse[..n], NT_SA);
  }

  lemma TreesOf(rest: seq<Infix>, e: Infix)
    ensures Trees(rest + [e]) == Trees(rest) + [InfixTree(e)]
  {
  }

  lemma ReduceTerminal(all: seq<Token>, pos: nat, states: seq<State>, parse: seq<Symbol>, nodes: seq<Tree>, items: seq<Infix>)
    requires Running(all, pos, states, parse, nodes, items) && states[|parse|].PS_TERMINAL?
    ensures var n := |parse| - 1;
            && n >= 0 && parse[n].Tok? && parse[n].t.OPERAND? && ExpectsOperand(states[n])
            && Running(all, pos, states[..n + 1] + [Goto(states[n])], parse[..n] + [NT_SA],
                       nodes + [Leaf(parse[n].t.atom)], items + [Single(Operand(parse[n].t.atom))])
  {
    var n := |parse| - 1;
    assert Link(states[n], parse[n], states[n + 1], true);
    var e := Single(Operand(parse[n].t.atom));
    assert parse == parse[..n] + [parse[n]];
    CountPush(parse[..n], parse[n]);
    SpellPush(parse[..n], items, parse[n], e);
    Reduced(all, pos, states, parse, nodes, items, n, items, e);
    TreesOf(items, e);
  }

  /** The link below a state other than the first. */
  lemma TopLink(states: seq<State>, parse: seq<Symbol>, k: nat)
    requires StacksOk(states, parse) && k <= |parse| && !states[k].PS_INIT?
    ensures k > 0 && Link(states[k - 1], parse[k - 1], states[k], k == |parse|)
  {
  }

  lemma InitIsBottom(states: seq<State>, parse: seq<Symbol>)
    requires StacksOk(states, parse)
    ensures forall i :: 1 <= i <= |parse| ==> !states[i].PS_INIT?
  {
    forall i | 1 <= i <= |parse| ensures !states[i].PS_INIT? {
      assert Link(states[i - 1], parse[i - 1], states[i], i - 1 == |parse| - 1);
    }
  }

  lemma Count3(p: seq<Symbol>, x: Symbol, y: Symbol, z: Symbol)
    ensures CountOperands(p + [x] + [y] + [z])
            == CountOperands(p) + (if x.NT_SA? then 1 else 0) + (if y.NT_SA? then 1 else 0) + if z.NT_SA? then 1 else 0
    ensures OpenBraces(p + [x] + [y] + [z])
            == OpenBraces(p) + (match x case Tok(BRACE_OPEN) => 1 case Tok(BRACE_CLOSE) => -1 case _ => 0)
               + (match y case Tok(BRACE_OPEN) => 1 case Tok(BRACE_CLOSE) => -1 case _ => 0)
               + (match z case Tok(BRACE_OPEN) => 1 case Tok(BRACE_CLOSE) => -1 case _ => 0)
  {
    CountPush(p, x);
    CountPush(p + [x], y);
    CountPush(p + [x] + [y], z);
  }

  /** The symbols below a closing brace. */
  lemma BraceShape(states: seq<State>, parse: seq<Symbol>)
    requires StacksOk(states, parse) && states[|parse|].PS_BRACE_CLOSED?
    ensures var n := |parse| - 3;
            && n >= 0 && ExpectsOperand(states[n])
            && parse == parse[..n] + [Tok(BRACE_OPEN)] + [NT_SA] + [Tok(BRACE_CLOSE)]
  {
    TopLink(states, parse, |parse|);
    TopLink(states, parse, |parse| - 1);
    TopLink(states, parse, |parse| - 2);
  }

  lemma BracedTokens(before: seq<Token>, e: Infix)
    ensures before + [BRACE_OPEN] + InfixTokens(e) + [BRACE_CLOSE] == before + InfixTokens(Single(Braced(e)))
  {
    var tokens := InfixTokens(e);
    assert TermTokens(Braced(e)) == [BRACE_OPEN] + tokens + [BRACE_CLOSE];
    assert InfixTokens(Single(Braced(e))) == TermTokens(Braced(e));
    assert before + [BRACE_OPEN] + tokens + [BRACE_CLOSE] == before + ([BRACE_OPEN] + tokens + [BRACE_CLOSE]);
  }

  lemma MoreTokens(before: seq<Token>, e: Infix, op: Op, t: Term)
    ensures before + InfixTokens(e) + [OPERATOR(op)] + InfixTokens(Single(t)) == before + InfixTokens(More(e, op, t))
  {
    var tokens, last := InfixTokens(e), TermTokens(t);
    assert InfixTokens(Single(t)) == last && InfixTokens(More(e, op, t)) == tokens + [OPERATOR(op)] + last;
    assert before + tokens + [OPERATOR(op)] + last == before + (tokens + [OPERATOR(op)] + last);
  }

  lemma BraceSpells(p: seq<Symbol>, rest: seq<Infix>, e: Infix)
    requires |rest| == CountOperands(p)
    ensures CountOperands(p + [Tok(BRACE_OPEN)] + [NT_SA] + [Tok(BRACE_CLOSE)]) == |rest + [e]|
    ensures Spelled(p + [Tok(BRACE_OPEN)] + [NT_SA] + [Tok(BRACE_CLOSE)], rest + [e])
            == Spelled(p, rest) + InfixTokens(Single(Braced(e)))
  {
    SpellPush(p, rest, Tok(BRACE_OPEN), e);
    SpellPush(p + [Tok(BRACE_OPEN)], rest, Tok(BRACE_OPEN), e);
    SpellPush(p + [Tok(BRACE_OPEN)] + [NT_SA], rest + [e], Tok(BRACE_CLOSE), e);
    BracedTokens(Spelled(p, rest), e);
  }

  /** What the three symbols of a braced operand spell. */
  lemma BraceOnTop(parse: seq<Symbol>, items: seq<Infix>)
    requires |parse| >= 3 && |items| == CountOperands(parse)
    requires parse == parse[..|parse| - 3] + [Tok(BRACE_OPEN)] + [NT_SA] + [Tok(BRACE_CLOSE)]
    ensures var p := parse[..|parse| - 3];
            && items != [] && CountOperands(p) == |items| - 1 && OpenBraces(p) == OpenBraces(parse)
            && Spelled(parse, items) == Spelled(p, items[..|items| - 1]) + InfixTokens(Single(Braced(items[|items| - 1])))
  {
    var p := parse[..|parse| - 3];
    Count3(p, Tok(BRACE_OPEN), NT_SA, Tok(BRACE_CLOSE));
    var e, rest := items[|items| - 1], items[..|items| - 1];
    assert items == rest + [e];
    BraceSpells(p, rest, e);
  }

  lemma ReduceBrace(all: seq<Token>, pos: nat, states: seq<State>, parse: seq<Symbol>, nodes: seq<Tree>, items: seq<Infix>)
    requires Running(all, pos, states, parse, nodes, items) && states[|parse|].PS_BRACE_CLOSED?
    ensures var n := |parse| - 3;
            && n >= 0 && items != [] && ExpectsOperand(states[n])
            && Running(all, pos, states[..n + 1] + [Goto(states[n])], parse[..n] + [NT_SA], nodes,
                       items[..|items| - 1] + [Single(Braced(items[|items| - 1]))])
  {
    BraceShape(states, parse);
    BraceOnTop(parse, items);
    var e, rest := items[|items| - 1], items[..|items| - 1];
    Reduced(all, pos, states, parse, nodes, items, |parse| - 3, rest, Single(Braced(e)));
    BracedTree(rest, e, items);
  }

  lemma BracedTree(rest: seq<Infix>, e: Infix, items: seq<Infix>)
    requires items == rest + [e]
    ensures Trees(rest + [Single(Braced(e))]) == Trees(items)
  {
    TreesOf(rest, e);
    TreesOf(rest, Single(Braced(e)));
  }

  /** The symbols below the right operand of an operator. */
  lemma OperatorShape(states: seq<State>, parse: seq<Symbol>)
    requires StacksOk(states, parse) && states[|parse|].PS_OP_COMPLETED_OR_BEFORE_OP?
    ensures var n := |parse| - 3;
            && n >= 0 && ExpectsOperand(states[n]) && !states[n].PS_AFTER_OP?
            && parse[n + 1].Tok? && parse[n + 1].t.OPERATOR?
            && parse == parse[..n] + [NT_SA] + [parse[n + 1]] + [NT_SA]
  {
    TopLink(states, parse, |parse|);
    TopLink(states, parse, |parse| - 1);
    TopLink(states, parse, |parse| - 2);
  }

  lemma OperatorSpells(p: seq<Symbol>, rest: seq<Infix>, e: Infix, op: Op, t: Term)
    requires |rest| == CountOperands(p)
    ensures CountOperands(p + [NT_SA] + [Tok(OPERATOR(op))] + [NT_SA]) == |rest + [e] + [Single(t)]|
    ensures Spelled(p + [NT_SA] + [Tok(OPERATOR(op))] + [NT_SA], rest + [e] + [Single(t)])
            == Spelled(p, rest) + InfixTokens(More(e, op, t))
  {
    SpellPush(p, rest, NT_SA, e);
    SpellPush(p + [NT_SA], rest + [e], Tok(OPERATOR(op)), e);
    SpellPush(p + [NT_SA] + [Tok(OPERATOR(op))], rest + [e], NT_SA, Single(t));
    MoreTokens(Spelled(p, rest), e, op, t);
  }

  /** What the three symbols of an operation spell. */
  lemma OperatorOnTop(parse: seq<Symbol>, items: seq<Infix>, op: Op)
    requires |parse| >= 3 && |items| == CountOperands(parse) && items != [] && items[|items| - 1].Single?
    requires parse == parse[..|parse| - 3] + [NT_SA] + [Tok(OPERATOR(op))] + [NT_SA]
    ensures var p, m := parse[..|parse| - 3], |items| - 2;
            && m >= 0 && CountOperands(p) == m && OpenBraces(p) == OpenBraces(parse)
            && Spelled(parse, items) == Spelled(p, items[..m]) + InfixTokens(More(items[m], op, items[m + 1].t))
  {
    var p, m := parse[..|parse| - 3], |items| - 2;
    Count3(p, NT_SA, Tok(OPERATOR(op)), NT_SA);
    assert items == items[..m] + [items[m]] + [Single(items[m + 1].t)];
    OperatorSpells(p, items[..m], items[m], op, items[m + 1].t);
  }

  lemma JoinedTrees(items: seq<Infix>, m: nat, op: Op)
    requires m + 2 == |items| && items[m + 1].Single?
    ensures var nodes := Trees(items);
            Trees(items[..m] + [More(items[m], op, items[m + 1].t)]) == nodes[..m] + [Node(op, nodes[m], nodes[m + 1])]
  {
    TreesOf(items[..m], More(items[m], op, items[m + 1].t));
    assert Trees(items)[..m] == Trees(items[..m]);
    assert InfixTree(items[m + 1]) == TermTree(items[m + 1].t);
  }

  lemma ReduceOperator(all: seq<Token>, pos: nat, states: seq<State>, parse: seq<Symbol>, nodes: seq<Tree>, items: seq<Infix>)
    requires Running(all, pos, states, parse, nodes, items) && states[|parse|].PS_OP_COMPLETED_OR_BEFORE_OP?
    ensures var n, m := |parse| - 3, |items| - 2;
            && n >= 0 && m >= 0 && ExpectsOperand(states[n]) && |nodes| == |items|
            && parse[n + 1].Tok? && parse[n + 1].t.OPERATOR? && items[m + 1].Single?
            && Running(all, pos, states[..n + 1] + [Goto(states[n])], parse[..n] + [NT_SA],
                       nodes[..m] + [Node(parse[n + 1].t.op, nodes[m], nodes[m + 1])],
                       items[..m] + [More(items[m], parse[n + 1].t.op, items[m + 1].t)])
  {
    OperatorShape(states, parse);
    var n := |parse| - 3;
    var op := parse[n + 1].t.op;
    OperatorOnTop(parse, items, op);
    var m := |items| - 2;
    JoinedTrees(items, m, op);
    Reduced(all, pos, states, parse, nodes, items, n, items[..m], More(items[m], op, items[m + 1].t));
  }

  lemma {:induction false} OpenIsPositive(parse: seq<Symbol>)
    requires forall i :: 0 <= i < |parse| ==> parse[i] != Tok(BRACE_CLOSE)
    ensures OpenBraces(parse) >= 0
    ensures (exists i :: 0 <= i < |parse| && parse[i] == Tok(BRACE_OPEN)) ==> OpenBraces(parse) > 0
  {
    if parse != [] {
      OpenIsPositive(parse[..|parse| - 1]);
      if i :| 0 <= i < |parse| && parse[i] == Tok(BRACE_OPEN) {
        assert i < |parse| - 1 ==> parse[..|parse| - 1][i] == Tok(BRACE_OPEN);
      }
    }
  }

  /** How deep the automaton is inside braces when it may see an operator. */
  lemma DepthOf(states: seq<State>, parse: seq<Symbol>)
    requires StacksOk(states, parse)
    ensures states[|parse|].PS_BEFORE_OP_OR_BRACE? ==> OpenBraces(parse) > 0
    ensures states[|parse|].PS_BEFORE_OP_OR_DONE? ==> |parse| == 1 && OpenBraces(parse) == 0 && CountOperands(parse) == 1
  {
    var n := |parse|;
    if states[n].PS_BEFORE_OP_OR_BRACE? {
      TopLink(states, parse, n);
      assert states[n - 1].PS_BRACE_OPENED?;
      TopLink(states, parse, n - 1);
      forall i | 0 <= i < n ensures parse[i] != Tok(BRACE_CLOSE) {
        assert Link(states[i], parse[i], states[i + 1], i == n - 1);
      }
      assert parse[n - 2] == Tok(BRACE_OPEN);
      OpenIsPositive(parse);
    } else if states[n].PS_BEFORE_OP_OR_DONE? {
      TopLink(states, parse, n);
      InitIsBottom(states, parse);
      assert parse == [NT_SA];
      assert parse[..0] == [];
    }
  }

  // ---- what a run ends with -----------------------------------------------------------------

  /** The automaton has no step for this token in this state. */
  predicate Stuck(s: State, token: Token) {
    match s
    case PS_BEFORE_OP_OR_DONE => !token.OPERATOR?
    case PS_BEFORE_OP_OR_BRACE => !token.OPERATOR? && !token.BRACE_CLOSE?
    case _ => ExpectsOperand(s) && !token.OPERAND? && !token.BRACE_OPEN?
  }

  predicate Lookahead(all: seq<Token>, pos: nat, token: Token, rest: seq<Token>) {
    if pos < |all| then token == all[pos] && token != ENDOFINPUT && rest == all[pos + 1..]
    else pos == |all| && token == ENDOFINPUT && rest == []
  }

  /** An operand follows the opening braces at the front. */
  predicate StartsWithOperand(ts: seq<Token>) {
    ts != [] && (ts[0].OPERAND? || (ts[0].BRACE_OPEN? && StartsWithOperand(ts[1..])))
  }

  lemma {:induction false} TermStarts(t: Term, rest: seq<Token>)
    ensures StartsWithOperand(TermTokens(t) + rest)
    decreases t
  {
    if t.Braced? {
      InfixStarts(t.e, [BRACE_CLOSE] + rest);
      assert (TermTokens(t) + rest)[1..] == InfixTokens(t.e) + ([BRACE_CLOSE] + rest);
    }
  }

  lemma {:induction false} InfixStarts(e: Infix, rest: seq<Token>)
    ensures StartsWithOperand(InfixTokens(e) + rest)
    decreases e
  {
    match e
    case Single(t) => TermStarts(t, rest);
    case More(e1, op, t) =>
      InfixStarts(e1, [OPERATOR(op)] + TermTokens(t) + rest);
      assert InfixTokens(e) + rest == InfixTokens(e1) + ([OPERATOR(op)] + TermTokens(t) + rest);
  }

  lemma {:induction false} TreeStarts(ts: seq<Token>)
    requires TreeOfTokens(ts).Some?
    ensures StartsWithOperand(ts)
  {
    if e: Infix :| Longest(ts, e) {
      InfixStarts(e, ts[|InfixTokens(e)|..]);
      assert ts == InfixTokens(e) + ts[|InfixTokens(e)|..];
    } else {
      TreeStarts(ts[1..]);
    }
  }

  lemma {:induction false} OpenOnly(states: seq<State>, parse: seq<Symbol>)
    requires StacksOk(states, parse) && CountOperands(parse) == 0
    ensures forall i :: 0 <= i < |parse| ==> parse[i] == Tok(BRACE_OPEN) || (i == |parse| - 1 && states[i + 1].PS_TERMINAL?)
    ensures states[|parse|].PS_INIT? || states[|parse|].PS_BRACE_OPENED? || states[|parse|].PS_TERMINAL?
  {
    if parse != [] {
      var n := |parse| - 1;
      PrefixOk(states, parse);
      OpenOnly(states[..n + 1], parse[..n]);
      assert Link(states[n], parse[n], states[n + 1], true);
      if n > 0 {
        assert Link(states[n - 1], parse[n - 1], states[n], false);
      }
      forall i | 0 <= i < n ensures parse[i] == Tok(BRACE_OPEN) {
        assert parse[i] == parse[..n][i];
      }
    }
  }

  lemma PrefixOk(states: seq<State>, parse: seq<Symbol>)
    requires StacksOk(states, parse) && parse != []
    ensures StacksOk(states[..|parse|], parse[..|parse| - 1])
  {
    forall i | 0 <= i < |parse| - 1 ensures Link(states[i], parse[i], states[i + 1], i == |parse| - 2) {
      assert Link(states[i], parse[i], states[i + 1], false);
    }
  }

  lemma {:induction false} BehindOpen(parse: seq<Symbol>, ts: seq<Token>)
    requires forall i :: 0 <= i < |parse| ==> parse[i] == Tok(BRACE_OPEN)
    ensures CountOperands(parse) == 0
    ensures StartsWithOperand(Spelled(parse, []) + ts) == StartsWithOperand(ts)
  {
    if parse == [] {
      assert Spelled(parse, []) + ts == ts;
    } else {
      var p := parse[..|parse| - 1];
      assert ([BRACE_OPEN] + ts)[1..] == ts;
      BehindOpen(p, [BRACE_OPEN] + ts);
      assert Spelled(parse, []) + ts == Spelled(p, []) + ([BRACE_OPEN] + ts);
    }
  }

  // ---- which operand lies at the bottom ------------------------------------------------------

  /** The tokens of the symbol on top, and the operands below it. */
  function TopTokens(x: Symbol, items: seq<Infix>): seq<Token>
    requires x.NT_SA? ==> items != []
  {
    if x.NT_SA? then InfixTokens(items[|items| - 1]) else [x.t]
  }

  function ItemsBelow(x: Symbol, items: seq<Infix>): seq<Infix>
    requires x.NT_SA? ==> items != []
  {
    if x.NT_SA? then items[..|items| - 1] else items
  }

  /** The tokens behind the symbols from position m on. */
  function Above(parse: seq<Symbol>, items: seq<Infix>, m: nat): seq<Token>
    requires |items| == CountOperands(parse) && m <= |parse|
  {
    if m == |parse| then []
    else
      var x := parse[|parse| - 1];
      Above(parse[..|parse| - 1], ItemsBelow(x, items), m) + TopTokens(x, items)
  }

  lemma {:induction false} AllAbove(parse: seq<Symbol>, items: seq<Infix>)
    requires |items| == CountOperands(parse)
    ensures Above(parse, items, 0) == Spelled(parse, items)
  {
    if parse != [] {
      AllAbove(parse[..|parse| - 1], ItemsBelow(parse[|parse| - 1], items));
    }
  }

  /** The tokens of symbol x, if it is an operand that of items[c]. */
  function TokensOf(x: Symbol, items: seq<Infix>, c: nat): seq<Token>
    requires x.NT_SA? ==> c < |items|
  {
    if x.NT_SA? then InfixTokens(items[c]) else [x.t]
  }

  /** The symbol at position m comes first. */
  lemma {:induction false} AboveFirst(parse: seq<Symbol>, items: seq<Infix>, m: nat)
    requires |items| == CountOperands(parse) && m < |parse|
    ensures parse[m].NT_SA? ==> CountOperands(parse[..m]) < |items|
    ensures Above(parse, items, m) == TokensOf(parse[m], items, CountOperands(parse[..m])) + Above(parse, items, m + 1)
  {
    var n := |parse| - 1;
    var x := parse[n];
    if m < n {
      var p, below := parse[..n], ItemsBelow(x, items);
      assert p[..m] == parse[..m] && p[m] == parse[m];
      AboveFirst(p, below, m);
      Regroup(TokensOf(p[m], below, CountOperands(p[..m])), Above(p, below, m + 1), TopTokens(x, items));
    } else {
      assert Above(parse[..n], ItemsBelow(x, items), m) == [] && Above(parse, items, m + 1) == [];
    }
  }

  lemma {:induction false} NoOperands(parse: seq<Symbol>)
    requires forall i :: 0 <= i < |parse| ==> parse[i] == Tok(BRACE_OPEN)
    ensures CountOperands(parse) == 0
  {
    if parse != [] {
      NoOperands(parse[..|parse| - 1]);
    }
  }

  /** Neither an operand nor a closing brace is on the stack. */
  ghost predicate Pending(parse: seq<Symbol>) {
    forall i :: 0 <= i < |parse| ==> parse[i].NT_SA? || parse[i].t.BRACE_OPEN? || parse[i].t.OPERATOR?
  }

  /** The automaton has no step left. */
  ghost predicate AtEnd(states: seq<State>, parse: seq<Symbol>, items: seq<Infix>, rest: seq<Token>) {
    && StacksOk(states, parse) && |items| == CountOperands(parse)
    && Stuck(states[|parse|], if rest == [] then ENDOFINPUT else rest[0])
  }

  lemma EndPends(states: seq<State>, parse: seq<Symbol>, items: seq<Infix>, rest: seq<Token>)
    requires AtEnd(states, parse, items, rest)
    ensures Pending(parse)
  {
    forall i | 0 <= i < |parse| ensures parse[i].NT_SA? || parse[i].t.BRACE_OPEN? || parse[i].t.OPERATOR? {
      assert Link(states[i], parse[i], states[i + 1], i == |parse| - 1);
    }
  }

  /** Scanning what the symbols from position m on spell. */
  lemma {:induction false} ScanAbove(states: seq<State>, parse: seq<Symbol>, items: seq<Infix>, m: nat, w: seq<Token>)
    requires StacksOk(states, parse) && |items| == CountOperands(parse) && Pending(parse) && m <= |parse|
    ensures var a := Above(parse, items, m);
            Balance(a) >= 0 && Scan(a + w, 0, ExpectsOperand(states[m])) == Scan(w, Balance(a), ExpectsOperand(states[|parse|]))
    decreases |parse|
  {
    var n := |parse| - 1;
    if m == |parse| {
      assert [] + w == w;
    } else {
      PrefixOk(states, parse);
      assert Link(states[n], parse[n], states[n + 1], true);
      var below, last := ItemsBelow(parse[n], items), TopTokens(parse[n], items);
      var a := Above(parse[..n], below, m);
      ScanAbove(states[..n + 1], parse[..n], below, m, last + w);
      Regroup(a, last, w);
      BalanceJoin(a, last);
      if parse[n].NT_SA? {
        PhraseBalance(items[|items| - 1], last);
        ScanInfix(items[|items| - 1], w, Balance(a));
      } else {
        assert ([parse[n].t] + w)[1..] == w;
      }
    }
  }

  lemma TopBalance(x: Symbol, items: seq<Infix>, y: seq<Token>)
    requires (x.NT_SA? && items != []) || (x.Tok? && (x.t.BRACE_OPEN? || x.t.OPERATOR?))
    requires y <= TopTokens(x, items)
    ensures Balance(y) >= 0 && (x == Tok(BRACE_OPEN) && y != [] ==> Balance(y) > 0)
  {
    if x.NT_SA? {
      PhraseBalance(items[|items| - 1], y);
    } else if y != [] {
      assert y == [x.t];
      assert y[1..] == [];
    }
  }

  /** A brace that is open on the stack is open after any of the tokens behind it. */
  lemma {:induction false} StaysOpen(parse: seq<Symbol>, items: seq<Infix>, m: nat, x: seq<Token>)
    requires |items| == CountOperands(parse) && Pending(parse) && m < |parse| && parse[m] == Tok(BRACE_OPEN)
    requires x != [] && x <= Above(parse, items, m)
    ensures Balance(x) > 0
    decreases |parse|
  {
    var n := |parse| - 1;
    var below, last := ItemsBelow(parse[n], items), TopTokens(parse[n], items);
    var a := Above(parse[..n], below, m);
    assert Above(parse, items, m) == a + last;
    if m < n {
      AboveFirst(parse[..n], below, m);
      StaysOpen(parse[..n], below, m, if |x| <= |a| then x else a);
    }
    if |x| > |a| {
      var y := x[|a|..];
      assert x == a + y && y <= last;
      BalanceJoin(a, y);
      TopBalance(parse[n], items, y);
    }
  }

  /** No operand begins with a brace that is still open at the end. */
  lemma NeverClosed(states: seq<State>, parse: seq<Symbol>, items: seq<Infix>, rest: seq<Token>, m: nat, x: seq<Token>)
    requires AtEnd(states, parse, items, rest) && m < |parse| && parse[m] == Tok(BRACE_OPEN)
    requires x <= Above(parse, items, m) + rest
    ensures Scan(x, 0, true) != Accept
  {
    var a := Above(parse, items, m);
    EndPends(states, parse, items, rest);
    AboveFirst(parse, items, m);
    assert Link(states[m], parse[m], states[m + 1], m == |parse| - 1);
    if x != [] && Scan(x, 0, true) == Accept {
      if |x| <= |a| {
        StaysOpen(parse, items, m, x);
        assert x + [] == x;
        AcceptedBalance(x, [], 0, true);
      } else {
        var w := x[|a|..];
        assert x == a + w && w[0] == rest[0];
        StaysOpen(parse, items, m, a);
        ScanAbove(states, parse, items, m, w);
        DepthOf(states, parse);
      }
    }
  }

  /** The first reduced operand does not go on. */
  lemma OperandEnds(states: seq<State>, parse: seq<Symbol>, items: seq<Infix>, rest: seq<Token>, m: nat, y: seq<Token>)
    requires AtEnd(states, parse, items, rest) && m < |parse| && parse[m].NT_SA? && !states[m].PS_AFTER_OP?
    requires y != [] && y <= Above(parse, items, m + 1) + rest
    ensures Scan(y, 0, false) != Accept
  {
    EndPends(states, parse, items, rest);
    assert Link(states[m], parse[m], states[m + 1], m == |parse| - 1);
    if m + 1 < |parse| {
      AboveFirst(parse, items, m + 1);
      assert Link(states[m + 1], parse[m + 1], states[m + 2], m + 1 == |parse| - 1);
      var z := y[1..];
      assert y[0] == parse[m + 1].t && z <= Above(parse, items, m + 2) + rest;
      if m + 2 < |parse| {
        assert Link(states[m + 2], parse[m + 2], states[m + 3], m + 2 == |parse| - 1);
        NeverClosed(states, parse, items, rest, m + 2, z);
      }
    }
  }

  lemma FirstIsLongest(states: seq<State>, parse: seq<Symbol>, items: seq<Infix>, rest: seq<Token>, m: nat)
    requires AtEnd(states, parse, items, rest) && m < |parse| && parse[m].NT_SA? && !states[m].PS_AFTER_OP?
    requires forall i :: 0 <= i < m ==> parse[i] == Tok(BRACE_OPEN)
    ensures items != [] && Longest(Above(parse, items, m) + rest, items[0])
  {
    NoOperands(parse[..m]);
    AboveFirst(parse, items, m);
    var e, tail := items[0], Above(parse, items, m + 1) + rest;
    Regroup(InfixTokens(e), Above(parse, items, m + 1), rest);
    forall e2: Infix | InfixTokens(e2) <= Above(parse, items, m) + rest
      ensures |InfixTokens(e2)| <= |InfixTokens(e)|
    {
      if |InfixTokens(e2)| > |InfixTokens(e)| {
        var x := InfixTokens(e2);
        var y := x[|InfixTokens(e)|..];
        assert x <= InfixTokens(e) + tail;
        assert x == InfixTokens(e) + y && y <= tail;
        ScanInfix(e2, [], 0);
        assert x + [] == x;
        ScanInfix(e, y, 0);
        OperandEnds(states, parse, items, rest, m, y);
      }
    }
  }

  lemma BraceIsPassed(states: seq<State>, parse: seq<Symbol>, items: seq<Infix>, rest: seq<Token>, m: nat)
    requires AtEnd(states, parse, items, rest) && m < |parse| && parse[m] == Tok(BRACE_OPEN)
    ensures TreeOfTokens(Above(parse, items, m) + rest) == TreeOfTokens(Above(parse, items, m + 1) + rest)
  {
    AboveFirst(parse, items, m);
    var tail := Above(parse, items, m) + rest;
    forall e: Infix ensures !(InfixTokens(e) <= tail) {
      if InfixTokens(e) <= tail {
        ScanInfix(e, [], 0);
        assert InfixTokens(e) + [] == InfixTokens(e);
        NeverClosed(states, parse, items, rest, m, InfixTokens(e));
      }
    }
    assert tail[0] == BRACE_OPEN && tail[1..] == Above(parse, items, m + 1) + rest;
  }

  /** The tree at the bottom of the node stack is that of the tokens. */
  lemma {:induction false} BottomTree(states: seq<State>, parse: seq<Symbol>, items: seq<Infix>, rest: seq<Token>, m: nat)
    requires AtEnd(states, parse, items, rest) && m <= |parse|
    requires forall i :: 0 <= i < m ==> parse[i] == Tok(BRACE_OPEN)
    ensures TreeOfTokens(Above(parse, items, m) + rest) == if items == [] then None else Some(InfixTree(items[0]))
    decreases |parse| - m
  {
    if m > 0 {
      assert Link(states[m - 1], parse[m - 1], states[m], m - 1 == |parse| - 1);
    }
    if m == |parse| {
      NoOperands(parse);
      assert Above(parse, items, m) + rest == rest;
      NoPhrase(rest);
    } else {
      assert Link(states[m], parse[m], states[m + 1], m == |parse| - 1);
      if parse[m].NT_SA? {
        FirstIsLongest(states, parse, items, rest, m);
        LongestIsTaken(Above(parse, items, m) + rest, items[0]);
      } else {
        EndPends(states, parse, items, rest);
        BraceIsPassed(states, parse, items, rest, m);
        BottomTree(states, parse, items, rest, m + 1);
      }
    }
  }

  lemma NoPhrase(ts: seq<Token>)
    requires ts == [] || (!ts[0].OPERAND? && !ts[0].BRACE_OPEN?)
    ensures TreeOfTokens(ts) == None
  {
    forall e: Infix ensures !(InfixTokens(e) <= ts) {
      if InfixTokens(e) <= ts {
        var rest := ts[|InfixTokens(e)|..];
        assert ts == InfixTokens(e) + rest;
        InfixStarts(e, rest);
      }
    }
  }

  /** What a run has found when it stops. */
  ghost predicate Found(all: seq<Token>, r: Option<Tree>) {
    && (Scan(all, 0, true).Accept? <==> exists e: Infix :: InfixTokens(e) == all)
    && (forall e: Infix :: InfixTokens(e) == all ==> r == Some(InfixTree(e)))
    && (r.Some? <==> StartsWithOperand(all))
    && r == TreeOfTokens(all)
  }

  lemma Stopped(all: seq<Token>, pos: nat, states: seq<State>, parse: seq<Symbol>, nodes: seq<Tree>, items: seq<Infix>)
    requires Running(all, pos, states, parse, nodes, items)
    requires Stuck(states[|parse|], if pos < |all| then all[pos] else ENDOFINPUT)
    ensures |nodes| == |items| && Found(all, if nodes == [] then None else Some(nodes[0]))
  {
    var r := if nodes == [] then None else Some(nodes[0]);
    assert all == Spelled(parse, items) + all[pos..];
    DepthOf(states, parse);
    AllAbove(parse, items);
    BottomTree(states, parse, items, all[pos..], 0);
    if items == [] {
      OpenOnly(states, parse);
      BehindOpen(parse, all[pos..]);
    } else {
      TreeStarts(all);
    }
    forall e: Infix | InfixTokens(e) == all
      ensures Scan(all, 0, true).Accept? && r == Some(InfixTree(e))
    {
      ScanInfix(e, [], 0);
      assert InfixTokens(e) + [] == all;
      Accepted(all, pos, states, parse, nodes, items);
      UniqueInfix(e, items[0], [], []);
    }
    if Scan(all, 0, true).Accept? {
      Accepted(all, pos, states, parse, nodes, items);
      assert InfixTokens(items[0]) == all;
    }
  }

  lemma AcceptingState(s: State, tail: seq<Token>, depth: nat)
    requires Stuck(s, if tail == [] then ENDOFINPUT else tail[0]) && Scan(tail, depth, ExpectsOperand(s)).Accept?
    requires s.PS_BEFORE_OP_OR_BRACE? ==> depth > 0
    ensures s.PS_BEFORE_OP_OR_DONE? && (depth == 0 ==> tail == [])
  {
  }

  lemma OneOperand(parse: seq<Symbol>, items: seq<Infix>)
    requires |parse| == 1 && parse[0].NT_SA? && |items| == CountOperands(parse)
    ensures |items| == 1 && Spelled(parse, items) == InfixTokens(items[0])
  {
    assert parse[..0] == [];
    assert CountOperands(parse[..0]) == 0 && items[..0] == [];
    assert Spelled([], []) + InfixTokens(items[0]) == InfixTokens(items[0]);
  }

  lemma Accepted(all: seq<Token>, pos: nat, states: seq<State>, parse: seq<Symbol>, nodes: seq<Tree>, items: seq<Infix>)
    requires Running(all, pos, states, parse, nodes, items)
    requires Stuck(states[|parse|], if pos < |all| then all[pos] else ENDOFINPUT)
    requires Scan(all, 0, true).Accept?
    ensures |items| == 1 && InfixTokens(items[0]) == all && nodes == [InfixTree(items[0])]
  {
    DepthOf(states, parse);
    AcceptingState(states[|parse|], all[pos..], OpenBraces(parse));
    assert Link(states[0], parse[0], states[1], true);
    OneOperand(parse, items);
  }

  // ---- the automaton ------------------------------------------------------------------------

  predicate Reduces(s: State) {
    s.PS_TERMINAL? || s.PS_BRACE_CLOSED? || s.PS_OP_COMPLETED_OR_BEFORE_OP?
  }

  /** A terminal becomes an operand. */
  method CloseTerminal(states: seq<State>, parse: seq<Symbol>, nodes: seq<Tree>,
                       ghost all: seq<Token>, ghost pos: nat, ghost items: seq<Infix>)
    returns (states2: seq<State>, parse2: seq<Symbol>, nodes2: seq<Tree>, ghost items2: seq<Infix>)
    requires Running(all, pos, states, parse, nodes, items) && states[|parse|].PS_TERMINAL?
    ensures Running(all, pos, states2, parse2, nodes2, items2) && !states2[|parse2|].PS_TERMINAL?
    ensures |parse2| == |parse|
  {
    ReduceTerminal(all, pos, states, parse, nodes, items);
    var below := |parse| - 1;
    var atom := parse[below].t.atom;
    nodes2, states2 := nodes + [Leaf(atom)], states[..below + 1] + [Goto(states[below])];
    parse2, items2 := parse[..below] + [NT_SA], items + [Single(Operand(atom))];
  }

  /** An operand in braces becomes an operand. */
  method CloseBrace(states: seq<State>, parse: seq<Symbol>, nodes: seq<Tree>,
                    ghost all: seq<Token>, ghost pos: nat, ghost items: seq<Infix>)
    returns (states2: seq<State>, parse2: seq<Symbol>, nodes2: seq<Tree>, ghost items2: seq<Infix>)
    requires Running(all, pos, states, parse, nodes, items) && states[|parse|].PS_BRACE_CLOSED?
    ensures Running(all, pos, states2, parse2, nodes2, items2) && !states2[|parse2|].PS_TERMINAL?
    ensures |parse2| == |parse| - 2
  {
    ReduceBrace(all, pos, states, parse, nodes, items);
    var below := |parse| - 3;
    nodes2, states2 := nodes, states[..below + 1] + [Goto(states[below])];
    parse2, items2 := parse[..below] + [NT_SA], items[..|items| - 1] + [Single(Braced(items[|items| - 1]))];
  }

  /** An operator between two operands becomes an operand. */
  method CloseOperator(states: seq<State>, parse: seq<Symbol>, nodes: seq<Tree>,
                       ghost all: seq<Token>, ghost pos: nat, ghost items: seq<Infix>)
    returns (states2: seq<State>, parse2: seq<Symbol>, nodes2: seq<Tree>, ghost items2: seq<Infix>)
    requires Running(all, pos, states, parse, nodes, items) && states[|parse|].PS_OP_COMPLETED_OR_BEFORE_OP?
    ensures Running(all, pos, states2, parse2, nodes2, items2) && !states2[|parse2|].PS_TERMINAL?
    ensures |parse2| == |parse| - 2
  {
    ReduceOperator(all, pos, states, parse, nodes, items);
    var below, m := |parse| - 3, |nodes| - 2;
    var op := parse[below + 1].t.op;
    nodes2, states2 := nodes[..m] + [Node(op, nodes[m], nodes[m + 1])], states[..below + 1] + [Goto(states[below])];
    parse2, items2 := parse[..below] + [NT_SA], items[..m] + [More(items[m], op, items[m + 1].t)];
  }

  /** Replaces the symbols on top of the parse stack by an operand. */
  method Reduce(states: seq<State>, parse: seq<Symbol>, nodes: seq<Tree>,
                ghost all: seq<Token>, ghost pos: nat, ghost items: seq<Infix>)
    returns (states2: seq<State>, parse2: seq<Symbol>, nodes2: seq<Tree>, ghost items2: seq<Infix>)
    requires Running(all, pos, states, parse, nodes, items) && Reduces(states[|parse|])
    ensures Running(all, pos, states2, parse2, nodes2, items2) && !states2[|parse2|].PS_TERMINAL?
    ensures |parse2| == if states[|parse|].PS_TERMINAL? then |parse| else |parse| - 2
  {
    if states[|parse|].PS_TERMINAL? {
      states2, parse2, nodes2, items2 := CloseTerminal(states, parse, nodes, all, pos, items);
    } else if states[|parse|].PS_BRACE_CLOSED? {
      states2, parse2, nodes2, items2 := CloseBrace(states, parse, nodes, all, pos, items);
    } else {
      states2, parse2, nodes2, items2 := CloseOperator(states, parse, nodes, all, pos, items);
    }
  }

  /** Parses all tokens that the tokenizer has left. */
  method Parse(tokenizer: T.Tokenizer) returns (r: Option<Tree>)
    requires tokenizer.Valid()
    modifies tokenizer
    ensures tokenizer.Valid() && Found(old(tokenizer.Remaining()), r)
  {
    ghost var all, pos, items: seq<Infix> := tokenizer.Remaining(), 0, [];
    var stateStack: seq<State>, parseStack: seq<Symbol>, nodeStack: seq<Tree> := [PS_INIT], [], [];
    var token := tokenizer.Next();
    var done := false;
    while !done
      invariant tokenizer.Valid() && Lookahead(all, pos, token, tokenizer.Remaining())
      invariant Running(all, pos, stateStack, parseStack, nodeStack, items)
      invariant done ==> Stuck(stateStack[|parseStack|], token)
      decreases |all| - pos, |parseStack|, if stateStack[|parseStack|].PS_TERMINAL? then 1 else 0, !done
    {
      var state := stateStack[|parseStack|];
      if Reduces(state) {
        stateStack, parseStack, nodeStack, items := Reduce(stateStack, parseStack, nodeStack, all, pos, items);
      } else if Stuck(state, token) {
        done := true;
      } else {
        DepthOf(stateStack, parseStack);
        PushSymbol(all, pos, stateStack, parseStack, nodeStack, items, Shift(token));
        stateStack, parseStack := stateStack + [Shift(token)], parseStack + [Tok(token)];
        pos := pos + 1;
        token := tokenizer.Next();
      }
    }
    Stopped(all, pos, stateStack, parseStack, nodeStack, items);
    r := if nodeStack == [] then None else Some(nodeStack[0]);
  }

  /** The tree of a query. */
  method Build(query: string) returns (r: Option<Tree>)
    ensures Found(T.QueryTokens(query), r)
    ensures forall t :: Q.WrittenAs(query, t) ==> r == Some(t)
  {
    forall t | Q.WrittenAs(query, t) ensures TreeOfTokens(T.QueryTokens(query)) == Some(t) {
      Q.WrittenAsTree(query, t);
    }
    var tokenizer := new T.Tokenizer(query);
    if tokenizer.HasNext() {
      r := Parse(tokenizer);
    } else {
      r := None;
      NoTokens();
    }
  }

  lemma NoTokens()
    ensures Found([], None)
  {
    NoPhrase([]);
  }

  /** Parsing what a tree is printed as gives the tree back. */
  lemma PrintedIsRead(t: Tree, r: Option<Tree>)
    requires Found(InfixTokens(Single(Printed(t))), r)
    ensures r == Some(t)
  {
    PrintedTree(t);
    assert InfixTree(Single(Printed(t))) == t;
  }
}
