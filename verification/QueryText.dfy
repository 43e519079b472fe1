/** How queries are written: every sequence of tokens of the language has a text that is read as these tokens. */
module QueryText {
  // The signs of the operators, the blank that stands for the default operator and the escapes are spelled out
  // here once more, apart from the sanitizer and the tokenizer.

  import opened Basics
  import opened Grammar
  import opened T = Tokenizer

  predicate Special(c: char) {
    c == '\\' || c == '+' || c == '-' || c == '/' || c == '^' || c == '(' || c == ')' || c == '$' || c == ' '
  }

  /** A word with an escape before every special character. */
  function Escaped(w: string): string {
    if w == "" then "" else (if Special(w[0]) then ['\\', w[0]] else [w[0]]) + Escaped(w[1..])
  }

  /** Nothing but special characters. */
  predicate Hidden(w: string) {
    w == "" || (Special(w[0]) && Hidden(w[1..]))
  }

  function Blanks(n: nat): string {
    seq(n, _ => ' ')
  }

  /** The intersection may be written with its sign, as a blank, or not at all before a brace or a call. */
  datatype Style = Signs | Blank | Nothing

  /** The blanks before each operand, and the style of intersections. */
  datatype Layout = Layout(gap: nat, style: Style)

  predicate IsCall(t: Token) {
    t.OPERAND? && t.atom.Function?
  }

  function AtomText(atom: Atom): string {
    match atom
    case Text(w) => Escaped(w)
    case Function(name, argument) => "$" + name + "[" + argument + "]"
  }

  function TokenText(t: Token, next: seq<Token>, lay: Layout): string {
    match t
    case OPERAND(atom) => Blanks(lay.gap) + AtomText(atom)
    case OPERATOR(Unite) => "+"
    case OPERATOR(Difference) => "-"
    case OPERATOR(SymmetricDifference) => "^"
    case OPERATOR(Intersect) =>
      if lay.style.Signs? then "/"
      else if lay.style.Nothing? && next != [] && (next[0].BRACE_OPEN? || IsCall(next[0])) then ""
      else " "
    case BRACE_OPEN => "("
    case BRACE_CLOSE => ")"
    case ENDOFINPUT => ""
  }

  function Written(ts: seq<Token>, lay: Layout): string {
    if ts == [] then "" else TokenText(ts[0], ts[1..], lay) + Written(ts[1..], lay)
  }

  /** What the sanitizer passes over. */
  ghost predicate Plain(x: string) {
    forall k :: 0 <= k < |x| ==>
      x[k] != '\\' && x[k] != '+' && x[k] != '-' && x[k] != '/' && x[k] != '^' && x[k] != '(' && x[k] != ')'
  }

  /** Words are not empty and, unless blanks precede them, not made of special characters only; calls contain
      neither those nor their own brackets. */
  ghost predicate AtomCanBeWritten(atom: Atom, lay: Layout) {
    match atom
    case Text(w) => w != "" && (lay.gap > 0 || !Hidden(w))
    case Function(name, argument) => CallCanBeWritten(name, argument)
  }

  ghost predicate CallCanBeWritten(name: string, argument: string) {
    Plain(name) && Plain(argument) && '[' !in name && ' ' !in name && ']' !in argument
  }

  ghost predicate CanBeWritten(t: Token, lay: Layout) {
    t.OPERAND? ==> AtomCanBeWritten(t.atom, lay)
  }

  ghost predicate Writable(ts: seq<Token>, lay: Layout) {
    forall k :: 0 <= k < |ts| ==> CanBeWritten(ts[k], lay)
  }

  // ---- the sanitizer leaves them alone ------------------------------------------------------

  lemma {:induction false} NeatBlanks(n: nat, rest: string, depth: nat, op: bool)
    requires Neat(rest, depth, if n > 0 then false else op)
    ensures Neat(Blanks(n) + rest, depth, op)
  {
    if n > 0 {
      NeatBlanks(n - 1, rest, depth, false);
      assert (Blanks(n) + rest)[1..] == Blanks(n - 1) + rest;
    } else {
      assert Blanks(n) + rest == rest;
    }
  }

  lemma {:induction false} NeatPlain(x: string, rest: string, depth: nat, op: bool)
    requires Plain(x) && Neat(rest, depth, if x == "" then op else false)
    ensures Neat(x + rest, depth, op)
  {
    if x == "" {
      assert x + rest == rest;
    } else {
      NeatPlain(x[1..], rest, depth, false);
      assert (x + rest)[1..] == x[1..] + rest;
    }
  }

  lemma {:induction false} NeatWord(w: string, rest: string, depth: nat, op: bool)
    requires Neat(rest, depth, op && Hidden(w))
    ensures Neat(Escaped(w) + rest, depth, op)
  {
    if w == "" {
      assert Escaped(w) + rest == rest;
    } else {
      NeatWord(w[1..], rest, depth, op && Special(w[0]));
      var all, behind := Escaped(w) + rest, Escaped(w[1..]) + rest;
      if Special(w[0]) {
        assert all == ['\\', w[0]] + behind && all[2..] == behind;
      } else {
        assert all == [w[0]] + behind && all[1..] == behind;
      }
    }
  }

  lemma NeatOperand(atom: Atom, rest: string, lay: Layout, depth: nat, op: bool)
    requires AtomCanBeWritten(atom, lay) && Neat(rest, depth, false)
    ensures Neat(Blanks(lay.gap) + AtomText(atom) + rest, depth, op)
  {
    var o := lay.gap == 0 && op;
    match atom {
      case Text(w) => NeatWord(w, rest, depth, o);
      case Function(name, argument) => NeatPlain(AtomText(atom), rest, depth, o);
    }
    NeatBlanks(lay.gap, AtomText(atom) + rest, depth, op);
    Regroup(Blanks(lay.gap), AtomText(atom), rest);
  }

  lemma {:induction false} WrittenIsNeat(ts: seq<Token>, lay: Layout, depth: nat, expectOperand: bool, op: bool)
    requires Scan(ts, depth, expectOperand) == Accept && Writable(ts, lay) && (op ==> expectOperand)
    ensures Neat(Written(ts, lay), depth, op)
    decreases |ts|
  {
    if ts != [] {
      var rest := Written(ts[1..], lay);
      assert CanBeWritten(ts[0], lay);
      match ts[0]
      case OPERAND(atom) =>
        WrittenIsNeat(ts[1..], lay, depth, false, false);
        NeatOperand(atom, rest, lay, depth, op);
      case OPERATOR(_) =>
        WrittenIsNeat(ts[1..], lay, depth, true, TokenText(ts[0], ts[1..], lay) != " " && TokenText(ts[0], ts[1..], lay) != "");
        OneCharacter(ts, lay);
      case BRACE_OPEN =>
        WrittenIsNeat(ts[1..], lay, depth + 1, true, op);
        OneCharacter(ts, lay);
      case BRACE_CLOSE =>
        WrittenIsNeat(ts[1..], lay, depth - 1, false, false);
        OneCharacter(ts, lay);
    }
  }

  lemma OneCharacter(ts: seq<Token>, lay: Layout)
    requires ts != [] && |TokenText(ts[0], ts[1..], lay)| <= 1
    ensures Written(ts, lay)[|TokenText(ts[0], ts[1..], lay)|..] == Written(ts[1..], lay)
    ensures TokenText(ts[0], ts[1..], lay) != "" ==> Written(ts, lay)[0] == TokenText(ts[0], ts[1..], lay)[0]
    ensures TokenText(ts[0], ts[1..], lay) == "" ==> Written(ts, lay) == Written(ts[1..], lay)
  {
  }

  // ---- the tokenizer reads them -------------------------------------------------------------

  lemma {:induction false} BlanksAreSkipped(s: string, i: nat, n: nat, before: bool)
    requires i + n <= |s| && forall k :: i <= k < i + n ==> s[k] == ' '
    ensures TokensFrom(s, i, before) == TokensFrom(s, i + n, before)
    ensures NextToken(s, i, before) == NextToken(s, i + n, before)
    decreases n
  {
    if n > 0 {
      BlanksAreSkipped(s, i + 1, n - 1, before);
    }
  }

  /** Between operands the default operator appears. */
  lemma {:induction false} DefaultAppears(s: string, i: nat)
    requires i <= |s| && BeginsOperand(NextToken(s, i, false).token)
    ensures TokensFrom(s, i, true) == [OPERATOR(Op.Intersect)] + TokensFrom(s, i, false)
    decreases |s| - i
  {
    if s[i] == ' ' {
      DefaultAppears(s, i + 1);
      BlanksAreSkipped(s, i, 1, true);
      BlanksAreSkipped(s, i, 1, false);
    }
  }

  lemma TextAt(s: string, i: nat, text: string, rest: string)
    requires i <= |s| && s[i..] == text + rest
    ensures i + |text| <= |s| && s[i + |text|..] == rest && forall k :: 0 <= k < |text| ==> s[i + k] == text[k]
  {
    assert s[i + |text|..] == s[i..][|text|..];
    assert forall k :: 0 <= k < |text| ==> s[i + k] == s[i..][k];
  }

  lemma {:induction false} WordIsRead(s: string, i: nat, w: string, rest: string)
    requires i <= |s| && s[i..] == Escaped(w) + rest && (rest == "" || EndsString(rest[0]))
    ensures StringAt(s, i) == (w, i + |Escaped(w)|)
    decreases |w|
  {
    if w == "" {
      assert s[i..] == rest + "";
      TextAt(s, i, rest, "");
    } else {
      var head := if Special(w[0]) then ['\\', w[0]] else [w[0]];
      Regroup(head, Escaped(w[1..]), rest);
      TextAt(s, i, head, Escaped(w[1..]) + rest);
      WordIsRead(s, i + |head|, w[1..], rest);
      assert [w[0]] + w[1..] == w;
    }
  }

  lemma {:induction false} NameIsRead(s: string, i: nat, name: string, rest: string)
    requires i <= |s| && s[i..] == name + ("[" + rest) && '[' !in name && ' ' !in name
    ensures NameAt(s, i) == (name, i + |name| + 1, true) && i + |name| < |s| && s[i + |name| + 1..] == rest
    decreases |name|
  {
    if name != "" {
      assert name == [name[0]] + name[1..] && name[0] in name;
      Regroup([name[0]], name[1..], "[" + rest);
      TextAt(s, i, [name[0]], name[1..] + ("[" + rest));
      NameIsRead(s, i + 1, name[1..], rest);
    } else {
      assert "" + ("[" + rest) == "[" + rest;
      TextAt(s, i, "[", rest);
    }
  }

  lemma {:induction false} ArgumentIsRead(s: string, i: nat, argument: string, rest: string)
    requires i <= |s| && s[i..] == argument + ("]" + rest) && Plain(argument) && ']' !in argument
    ensures ArgumentAt(s, i) == (argument, i + |argument| + 1) && i + |argument| < |s| && s[i + |argument| + 1..] == rest
    decreases |argument|
  {
    if argument != "" {
      assert argument == [argument[0]] + argument[1..] && argument[0] in argument;
      Regroup([argument[0]], argument[1..], "]" + rest);
      TextAt(s, i, [argument[0]], argument[1..] + ("]" + rest));
      ArgumentIsRead(s, i + 1, argument[1..], rest);
    } else {
      assert "" + ("]" + rest) == "]" + rest;
      TextAt(s, i, "]", rest);
    }
  }

  lemma CallIsRead(s: string, i: nat, name: string, argument: string, rest: string)
    requires i <= |s| && s[i..] == "$" + (name + ("[" + (argument + ("]" + rest)))) && CallCanBeWritten(name, argument)
    ensures var r := NextToken(s, i, false);
            r.token == OPERAND(Function(name, argument)) && r.beforeWasTerminal && s[r.next..] == rest
  {
    TextAt(s, i, "$", name + ("[" + (argument + ("]" + rest))));
    NameIsRead(s, i + 1, name, argument + ("]" + rest));
    ArgumentIsRead(s, i + 1 + |name| + 1, argument, rest);
  }

  /** What is written behind an operand ends a word. */
  lemma OperandEnds(ts: seq<Token>, lay: Layout, depth: nat)
    requires Scan(ts, depth, false) == Accept
    ensures Written(ts, lay) == "" || EndsString(Written(ts, lay)[0])
  {
    if ts != [] {
      OneCharacter(ts, lay);
      if TokenText(ts[0], ts[1..], lay) == "" {
        var next := ts[1..];
        assert Written(next, lay)[0] == TokenText(next[0], next[1..], lay)[0];
      }
    }
  }

  lemma OperandIsRead(s: string, i: nat, atom: Atom, lay: Layout, rest: string)
    requires i <= |s| && s[i..] == Blanks(lay.gap) + AtomText(atom) + rest && AtomCanBeWritten(atom, lay)
    requires rest == "" || EndsString(rest[0])
    ensures var r := NextToken(s, i, false);
            r.token == OPERAND(atom) && r.beforeWasTerminal && s[r.next..] == rest
  {
    BlanksBefore(s, i, lay.gap, AtomText(atom), rest);
    AtomIsRead(s, i + lay.gap, atom, rest);
  }

  lemma CallText(name: string, argument: string, rest: string)
    ensures "$" + name + "[" + argument + "]" + rest == "$" + (name + ("[" + (argument + ("]" + rest))))
  {
  }

  lemma AtomIsRead(s: string, i: nat, atom: Atom, rest: string)
    requires i <= |s| && s[i..] == AtomText(atom) + rest && (rest == "" || EndsString(rest[0]))
    requires if atom.Text? then atom.str != "" else CallCanBeWritten(atom.name, atom.argument)
    ensures var r := NextToken(s, i, false);
            r.token == OPERAND(atom) && r.beforeWasTerminal && s[r.next..] == rest
  {
    match atom
    case Text(w) => WordTokenIsRead(s, i, w, rest);
    case Function(name, argument) =>
      CallText(name, argument, rest);
      CallIsRead(s, i, name, argument, rest);
  }

  lemma BlanksBefore(s: string, i: nat, n: nat, text: string, rest: string)
    requires i <= |s| && s[i..] == Blanks(n) + text + rest
    ensures i + n <= |s| && s[i + n..] == text + rest
    ensures NextToken(s, i, false) == NextToken(s, i + n, false)
  {
    Regroup(Blanks(n), text, rest);
    TextAt(s, i, Blanks(n), text + rest);
    forall k | i <= k < i + n ensures s[k] == ' ' {
      assert s[i + (k - i)] == Blanks(n)[k - i];
    }
    BlanksAreSkipped(s, i, n, false);
  }

  lemma WordTokenIsRead(s: string, i: nat, w: string, rest: string)
    requires i <= |s| && w != "" && s[i..] == Escaped(w) + rest && (rest == "" || EndsString(rest[0]))
    ensures var r := NextToken(s, i, false);
            r.token == OPERAND(Text(w)) && r.beforeWasTerminal && s[r.next..] == rest
  {
    WordIsRead(s, i, w, rest);
    TextAt(s, i, Escaped(w), rest);
    EscapedHead(w);
    assert s[i + 0] == Escaped(w)[0];
    StringToken(s, i);
  }

  lemma StringToken(s: string, i: nat)
    requires i < |s| && !EndsString(s[i])
    ensures NextToken(s, i, false) == Read(OPERAND(Text(StringAt(s, i).0)), StringAt(s, i).1, true)
  {
  }

  lemma EscapedHead(w: string)
    requires w != ""
    ensures Escaped(w) != "" && !EndsString(Escaped(w)[0])
  {
    assert Escaped(w)[0] == if Special(w[0]) then '\\' else w[0];
  }

  lemma SignIsRead(s: string, i: nat, op: Op, before: bool)
    requires i < |s|
    requires s[i] == match op case Unite => '+' case Difference => '-' case Intersect => '/' case SymmetricDifference => '^'
    ensures TokensFrom(s, i, before) == [OPERATOR(op)] + TokensFrom(s, i + 1, false)
  {
    assert NextToken(s, i, before) == Read(OPERATOR(op), i + 1, false);
  }

  lemma OperatorIsRead(s: string, i: nat, op: Op, next: seq<Token>, lay: Layout)
    requires var text := TokenText(OPERATOR(op), next, lay);
             && i + |text| <= |s| && (text != "" ==> s[i] == text[0])
             && TokensFrom(s, i + |text|, false) == next
    requires next != [] && BeginsOperand(next[0])
    ensures TokensFrom(s, i, true) == [OPERATOR(op)] + next
  {
    var text := TokenText(OPERATOR(op), next, lay);
    if text == "" || text == " " {
      DefaultAppears(s, i + |text|);
      BlanksAreSkipped(s, i, |text|, true);
    } else {
      SignIsRead(s, i, op, true);
    }
  }

  lemma SignOrBraceIsRead(s: string, i: nat, t: Token, next: seq<Token>, lay: Layout, before: bool)
    requires var text := TokenText(t, next, lay);
             && i + |text| <= |s| && (text != "" ==> s[i] == text[0])
             && TokensFrom(s, i + |text|, t.BRACE_CLOSE?) == next
    requires match t
             case OPERATOR(_) => before && next != [] && BeginsOperand(next[0])
             case BRACE_OPEN => !before
             case BRACE_CLOSE => true
             case _ => false
    ensures TokensFrom(s, i, before) == [t] + next
  {
    if t.OPERATOR? {
      OperatorIsRead(s, i, t.op, next, lay);
    }
  }

  /** The first token is read, and then the text of the others lies ahead. */
  lemma FirstIsRead(s: string, i: nat, ts: seq<Token>, lay: Layout, depth: nat, before: bool) returns (p: nat)
    requires i <= |s| && ts != [] && s[i..] == Written(ts, lay)
    requires Scan(ts, depth, !before) == Accept && CanBeWritten(ts[0], lay)
    ensures p <= |s| && s[p..] == Written(ts[1..], lay)
    ensures TokensFrom(s, p, EndsOperand(ts[0])) == ts[1..] ==> TokensFrom(s, i, before) == [ts[0]] + ts[1..]
  {
    var t, next := ts[0], ts[1..];
    if t.OPERAND? {
      OperandEnds(next, lay, depth);
      OperandIsRead(s, i, t.atom, lay, Written(next, lay));
      p := NextToken(s, i, false).next;
    } else {
      var text := TokenText(t, next, lay);
      TextAt(s, i, text, Written(next, lay));
      p := i + |text|;
      if TokensFrom(s, p, EndsOperand(t)) == next {
        SignOrBraceIsRead(s, i, t, next, lay, before);
      }
    }
  }

  lemma {:induction false} WrittenIsRead(s: string, i: nat, ts: seq<Token>, lay: Layout, depth: nat, before: bool)
    requires i <= |s| && s[i..] == Written(ts, lay)
    requires Scan(ts, depth, !before) == Accept && Writable(ts, lay)
    ensures TokensFrom(s, i, before) == ts
    decreases |ts|
  {
    if ts != [] {
      var t := ts[0];
      assert ts == [t] + ts[1..] && CanBeWritten(t, lay);
      var p := FirstIsRead(s, i, ts, lay, depth, before);
      var depth2 := if t.BRACE_OPEN? then depth + 1 else if t.BRACE_CLOSE? then depth - 1 else depth;
      WrittenIsRead(s, p, ts[1..], lay, depth2, EndsOperand(t));
    }
  }

  /** The query that is written for the tokens of a phrase has these tokens, and its tree. */
  lemma PhraseIsRead(e: Infix, lay: Layout)
    requires Writable(InfixTokens(e), lay)
    ensures QueryTokens(Written(InfixTokens(e), lay)) == InfixTokens(e)
    ensures TreeOfTokens(QueryTokens(Written(InfixTokens(e), lay))) == Some(InfixTree(e))
  {
    var ts := InfixTokens(e);
    var s := Written(ts, lay);
    ScanInfix(e, [], 0);
    assert ts + [] == ts;
    WrittenIsNeat(ts, lay, 0, true, false);
    NeatIff(s, 0, false);
    assert s[0..] == s;
    WrittenIsRead(s, 0, ts, lay, 0, false);
    LongestIsTaken(ts, e);
  }

  /** Every tree can be written, and is read back, in any layout. */
  lemma TreeIsRead(t: Tree, lay: Layout)
    requires Writable(TermTokens(Printed(t)), lay)
    ensures TreeOfTokens(QueryTokens(Written(TermTokens(Printed(t)), lay))) == Some(t)
  {
    assert InfixTokens(Single(Printed(t))) == TermTokens(Printed(t));
    PhraseIsRead(Single(Printed(t)), lay);
    PrintedTree(t);
  }

  /** The query is a text of some phrase with this tree. */
  ghost predicate WrittenAs(query: string, t: Tree) {
    exists e: Infix, lay :: Writable(InfixTokens(e), lay) && query == Written(InfixTokens(e), lay) && InfixTree(e) == t
  }

  lemma WrittenAsTree(query: string, t: Tree)
    requires WrittenAs(query, t)
    ensures TreeOfTokens(QueryTokens(query)) == Some(t)
  {
    var e: Infix, lay :| Writable(InfixTokens(e), lay) && query == Written(InfixTokens(e), lay) && InfixTree(e) == t;
    PhraseIsRead(e, lay);
  }

  // ---- the shortest queries -----------------------------------------------------------------

  /** A word that is written as it is. */
  ghost predicate Word(w: string) {
    w != "" && forall k :: 0 <= k < |w| ==>
      && w[k] != '\\' && w[k] != '+' && w[k] != '-' && w[k] != '/' && w[k] != '^'
      && w[k] != '(' && w[k] != ')' && w[k] != '$' && w[k] != ' '
  }

  lemma {:induction false} WordAsItIs(w: string)
    requires Word(w)
    ensures Escaped(w) == w && !Hidden(w)
  {
    assert !Special(w[0]) && w == [w[0]] + w[1..];
    if |w| > 1 {
      WordAsItIs(w[1..]);
    }
  }

  lemma TwoWordsIn(v: string, op: Op, w: string, style: Style)
    requires v != "" && !Hidden(v) && w != "" && !Hidden(w)
    ensures QueryTokens(Escaped(v) + TokenText(OPERATOR(op), [OPERAND(Text(w))], Layout(0, style)) + Escaped(w))
            == [OPERAND(Text(v)), OPERATOR(op), OPERAND(Text(w))]
  {
    var e, lay := More(Single(Operand(Text(v))), op, Operand(Text(w))), Layout(0, style);
    TwoOperands(Text(v), op, Text(w));
    ThreeTokens(OPERAND(Text(v)), OPERATOR(op), OPERAND(Text(w)), lay);
    NoGap(v, [OPERATOR(op), OPERAND(Text(w))], style);
    NoGap(w, [], style);
    assert forall k :: 0 <= k < 3 ==> CanBeWritten(InfixTokens(e)[k], lay);
    PhraseIsRead(e, lay);
  }

  lemma NoGap(w: string, next: seq<Token>, style: Style)
    ensures TokenText(OPERAND(Text(w)), next, Layout(0, style)) == Escaped(w)
  {
    assert Blanks(0) + Escaped(w) == Escaped(w);
  }

  lemma ThreeTokens(a: Token, b: Token, c: Token, lay: Layout)
    ensures Written([a, b, c], lay)
            == TokenText(a, [b, c], lay) + TokenText(b, [c], lay) + TokenText(c, [], lay)
  {
    assert [a, b, c][1..] == [b, c] && [b, c][1..] == [c] && [c][1..] == [];
    assert Written([c], lay) == TokenText(c, [], lay);
    assert Written([b, c], lay) == TokenText(b, [c], lay) + Written([c], lay);
  }

  /** What each sign between two words means, and that a blank means the intersection. */
  lemma TwoWords(v: string, w: string)
    requires Word(v) && Word(w)
    ensures QueryTokens(v + "+" + w) == [OPERAND(Text(v)), OPERATOR(Op.Unite), OPERAND(Text(w))]
    ensures QueryTokens(v + "-" + w) == [OPERAND(Text(v)), OPERATOR(Op.Difference), OPERAND(Text(w))]
    ensures QueryTokens(v + "/" + w) == [OPERAND(Text(v)), OPERATOR(Op.Intersect), OPERAND(Text(w))]
    ensures QueryTokens(v + "^" + w) == [OPERAND(Text(v)), OPERATOR(Op.SymmetricDifference), OPERAND(Text(w))]
    ensures QueryTokens(v + " " + w) == [OPERAND(Text(v)), OPERATOR(Op.Intersect), OPERAND(Text(w))]
  {
    WordAsItIs(v);
    WordAsItIs(w);
    TwoWordsIn(v, Op.Unite, w, Signs);
    TwoWordsIn(v, Op.Difference, w, Signs);
    TwoWordsIn(v, Op.Intersect, w, Signs);
    TwoWordsIn(v, Op.SymmetricDifference, w, Signs);
    TwoWordsIn(v, Op.Intersect, w, Blank);
  }

  /** A call by itself. */
  lemma OneCall(name: string, argument: string)
    requires Plain(name) && Plain(argument) && '[' !in name && ' ' !in name && ']' !in argument
    ensures QueryTokens("$" + name + "[" + argument + "]") == [OPERAND(Function(name, argument))]
  {
    var e, t := Single(Operand(Function(name, argument))), OPERAND(Function(name, argument));
    assert InfixTokens(e) == [t] && [t][1..] == [];
    assert Written([t], Layout(0, Signs)) == "$" + name + "[" + argument + "]";
    PhraseIsRead(e, Layout(0, Signs));
  }

  /** Why a word of special characters only needs a blank in front: the sanitizer passes over escapes without a
      trace, takes the two operators around it for a double one and drops the second. */
  lemma HiddenWord()
    ensures Escaped("-") == "\\-" && Hidden("-")
    ensures QueryTokens("a+\\-+b") == [OPERAND(Text("a")), OPERATOR(Op.Unite), OPERAND(Text("-b"))]
  {
    assert "-"[1..] == "" && "-b"[1..] == "b" && "b"[1..] == "" && "a"[1..] == "";
    assert Escaped("a") == "a" && Escaped("b") == "b" && Escaped("-b") == "\\-b" && Hidden("");
    SecondIsDropped();
    SanitizeIdempotent("a+\\-+b", 0, false);
    TwoWordsIn("a", Op.Unite, "-b", Signs);
    assert "a" + "+" + "\\-b" == "a+\\-b";
  }

  lemma SecondIsDropped()
    ensures Sanitized("a+\\-+b", 0, false) == "a+\\-b"
  {
    var q := "a+\\-+b";
    assert q[1..] == "+\\-+b" && "+\\-+b"[1..] == "\\-+b" && "\\-+b"[2..] == "+b" && "+b"[1..] == "b";
    assert Sanitized("b", 0, true) == "b" && Sanitized("+b", 0, true) == "b";
    assert Sanitized("\\-+b", 0, true) == "\\-b" && Sanitized("+\\-+b", 0, false) == "+\\-b";
  }
}
