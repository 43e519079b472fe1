/** The sanitizer, which repairs a query string, and the tokenizer. */
module Tokenizer {
  // The tokenizer inserts a default operator between adjacent operands.

  import opened Basics
  import opened Grammar

  predicate IsOp(c: char) {
    c == '+' || c == '-' || c == '/' || c == '^'
  }

  function OpOf(c: char): Op
    requires IsOp(c)
  {
    if c == '+' then Op.Unite else if c == '-' then Op.Difference else if c == '/' then Op.Intersect
    else Op.SymmetricDifference
  }

  function Closing(n: nat): string {
    seq(n, _ => ')')
  }

  /** What sanitizing makes of the rest of a query, with `braces` open braces, and with an operator
      as the last operator or operand character if `op`. */
  function Sanitized(s: string, braces: nat, op: bool): string {
    if s == "" then Closing(braces)
    else if s[0] == '\\' then
      if |s| > 1 then s[..2] + Sanitized(s[2..], braces, op) else Closing(braces)
    else if s[0] == ')' then
      if braces == 0 then Sanitized(s[1..], 0, op) else [s[0]] + Sanitized(s[1..], braces - 1, op)
    else if IsOp(s[0]) then
      if op then Sanitized(s[1..], braces, op) else [s[0]] + Sanitized(s[1..], braces, true)
    else if s[0] == '(' then [s[0]] + Sanitized(s[1..], braces + 1, op)
    else [s[0]] + Sanitized(s[1..], braces, false)
  }

  method Sanitize(str: string) returns (ostr: string)
    ensures ostr == Sanitized(str, 0, false)
  {
    var braceCount: nat, beforeWasOp, it := 0, false, 0;
    ostr := "";
    while it < |str|
      invariant 0 <= it <= |str|
      invariant ostr + Sanitized(str[it..], braceCount, beforeWasOp) == Sanitized(str, 0, false)
    {
      ghost var rest, out, braces, op := str[it..], ostr, braceCount, beforeWasOp;
      assert rest[0] == str[it] && rest[1..] == str[it + 1..];
      if str[it] == '\\' {
        it := it + 1;
        if it < |str| {
          ostr := ostr + ['\\'] + [str[it]];
          assert rest[..2] == ['\\'] + [str[it]] && rest[2..] == str[it + 1..];
        } else {
          break;
        }
      } else if str[it] == ')' {
        if braceCount != 0 {
          braceCount := braceCount - 1;
          ostr := ostr + [str[it]];
        }
      } else if IsOp(str[it]) {
        if !beforeWasOp {
          beforeWasOp := true;
          ostr := ostr + [str[it]];
        }
      } else if str[it] == '(' {
        braceCount := braceCount + 1;
        ostr := ostr + [str[it]];
      } else {
        beforeWasOp := false;
        ostr := ostr + [str[it]];
      }
      it := it + 1;
      Regroup(out, ostr[|out|..], Sanitized(str[it..], braceCount, beforeWasOp));
      assert ostr == out + ostr[|out|..];
      assert Sanitized(rest, braces, op) == ostr[|out|..] + Sanitized(str[it..], braceCount, beforeWasOp);
    }
    if braceCount > 0 {
      ostr := ostr + Closing(braceCount);
    }
  }

  /** Nothing is to be repaired: no escape is cut off, every brace has its partner, and no operator follows an
      operator with nothing but braces and escapes between them. */
  predicate Neat(s: string, braces: nat, op: bool) {
    if s == "" then braces == 0
    else if s[0] == '\\' then |s| > 1 && Neat(s[2..], braces, op)
    else if s[0] == ')' then braces > 0 && Neat(s[1..], braces - 1, op)
    else if s[0] == '+' || s[0] == '-' || s[0] == '/' || s[0] == '^' then !op && Neat(s[1..], braces, true)
    else if s[0] == '(' then Neat(s[1..], braces + 1, op)
    else Neat(s[1..], braces, false)
  }

  lemma {:induction false} ClosingNeat(n: nat, op: bool)
    ensures Neat(Closing(n), n, op)
  {
    if n > 0 {
      assert Closing(n)[1..] == Closing(n - 1);
      ClosingNeat(n - 1, op);
    }
  }

  lemma {:induction false} SanitizedIsNeat(s: string, braces: nat, op: bool)
    ensures Neat(Sanitized(s, braces, op), braces, op)
    decreases |s|
  {
    if s == "" || s == "\\" {
      ClosingNeat(braces, op);
    } else if s[0] == '\\' {
      SanitizedIsNeat(s[2..], braces, op);
      assert (s[..2] + Sanitized(s[2..], braces, op))[2..] == Sanitized(s[2..], braces, op);
    } else {
      var b: nat := if s[0] == '(' then braces + 1 else if s[0] == ')' && braces > 0 then braces - 1 else braces;
      var o := IsOp(s[0]) || ((s[0] == '(' || s[0] == ')') && op);
      SanitizedIsNeat(s[1..], b, o);
      assert ([s[0]] + Sanitized(s[1..], b, o))[1..] == Sanitized(s[1..], b, o);
    }
  }

  /** Exactly the queries in order are left as they are. */
  lemma {:induction false} NeatIff(s: string, braces: nat, op: bool)
    ensures Sanitized(s, braces, op) == s <==> Neat(s, braces, op)
    decreases |s|
  {
    SanitizedIsNeat(s, braces, op);
    if s == "" {
      assert Closing(braces) == "" <==> braces == 0;
    } else if s[0] == '\\' {
      if |s| > 1 {
        NeatIff(s[2..], braces, op);
        assert s == s[..2] + s[2..];
      }
    } else {
      var b: nat := if s[0] == '(' then braces + 1 else if s[0] == ')' && braces > 0 then braces - 1 else braces;
      NeatIff(s[1..], b, IsOp(s[0]) || ((s[0] == '(' || s[0] == ')') && op));
      assert s == [s[0]] + s[1..];
    }
  }

  /** Sanitizing twice is sanitizing once. */
  lemma SanitizeIdempotent(s: string, braces: nat, op: bool)
    ensures Sanitized(Sanitized(s, braces, op), braces, op) == Sanitized(s, braces, op)
  {
    SanitizedIsNeat(s, braces, op);
    NeatIff(Sanitized(s, braces, op), braces, op);
  }

  /** Unescaped braces match, with `depth` of them still open, and no escape is cut off. */
  predicate Balanced(s: string, depth: nat) {
    if s == "" then depth == 0
    else if s[0] == '\\' then |s| > 1 && Balanced(s[2..], depth)
    else if s[0] == ')' then depth > 0 && Balanced(s[1..], depth - 1)
    else if s[0] == '(' then Balanced(s[1..], depth + 1)
    else Balanced(s[1..], depth)
  }

  lemma {:induction false} NeatIsBalanced(s: string, braces: nat, op: bool)
    requires Neat(s, braces, op)
    ensures Balanced(s, braces)
  {
    if s != "" {
      if s[0] == '\\' {
        NeatIsBalanced(s[2..], braces, op);
      } else {
        NeatIsBalanced(s[1..], if s[0] == '(' then braces + 1 else if s[0] == ')' then braces - 1 else braces,
                       IsOp(s[0]) || ((s[0] == '(' || s[0] == ')') && op));
      }
    }
  }

  lemma SanitizedIsBalanced(s: string, braces: nat, op: bool)
    ensures Balanced(Sanitized(s, braces, op), braces)
  {
    SanitizedIsNeat(s, braces, op);
    NeatIsBalanced(Sanitized(s, braces, op), braces, op);
  }

  /** No function is called: a dollar sign only follows an escape. */
  predicate NoCalls(s: string) {
    if s == "" then true
    else if s[0] == '\\' then |s| > 1 ==> NoCalls(s[2..])
    else s[0] != '$' && NoCalls(s[1..])
  }

  lemma {:induction false} ClosingCallsNothing(n: nat)
    ensures NoCalls(Closing(n))
  {
    if n > 0 {
      assert Closing(n)[1..] == Closing(n - 1);
      ClosingCallsNothing(n - 1);
    }
  }

  lemma {:induction false} SanitizedCallsNothing(s: string, braces: nat, op: bool)
    requires NoCalls(s)
    ensures NoCalls(Sanitized(s, braces, op))
    decreases |s|
  {
    if s == "" || s == "\\" {
      ClosingCallsNothing(braces);
    } else if s[0] == '\\' {
      SanitizedCallsNothing(s[2..], braces, op);
      assert (s[..2] + Sanitized(s[2..], braces, op))[2..] == Sanitized(s[2..], braces, op);
    } else {
      var b: nat := if s[0] == '(' then braces + 1 else if s[0] == ')' && braces > 0 then braces - 1 else braces;
      var o := IsOp(s[0]) || ((s[0] == '(' || s[0] == ')') && op);
      SanitizedCallsNothing(s[1..], b, o);
      assert ([s[0]] + Sanitized(s[1..], b, o))[1..] == Sanitized(s[1..], b, o);
    }
  }

  // ---- tokens -------------------------------------------------------------------------------

  predicate EndsString(c: char) {
    IsOp(c) || c == '$' || c == ' ' || c == '(' || c == ')'
  }

  /** The search string that starts at i, without escapes, and where it ends. */
  function StringAt(s: string, i: nat): (r: (string, nat))
    requires i <= |s|
    ensures i <= r.1 <= |s|
    ensures i < |s| && !EndsString(s[i]) ==> i < r.1
    decreases |s| - i
  {
    if i == |s| || EndsString(s[i]) then ("", i)
    else if s[i] != '\\' then
      var r := StringAt(s, i + 1); ([s[i]] + r.0, r.1)
    else if i + 1 == |s| then ("", i + 1)
    else
      var r := StringAt(s, i + 2); ([s[i + 1]] + r.0, r.1)
  }

  /** The name of a function; the flag says whether an argument may follow. */
  function NameAt(s: string, i: nat): (r: (string, nat, bool))
    requires i <= |s|
    ensures i <= r.1 <= |s|
    decreases |s| - i
  {
    if i == |s| then ("", i, true)
    else if s[i] == '[' then ("", i + 1, true)
    else if s[i] == ' ' then ("", i, false)
    else var r := NameAt(s, i + 1); ([s[i]] + r.0, r.1, r.2)
  }

  /** The argument of a function.  The character after an escape is taken and then looked at again. */
  function ArgumentAt(s: string, i: nat): (r: (string, nat))
    requires i <= |s|
    ensures i <= r.1 <= |s|
    decreases |s| - i
  {
    if i == |s| then ("", i)
    else if s[i] == '\\' then
      if i + 1 == |s| then ("", i + 1) else var r := ArgumentAt(s, i + 1); ([s[i + 1]] + r.0, r.1)
    else if s[i] == ']' then ("", i + 1)
    else var r := ArgumentAt(s, i + 1); ([s[i]] + r.0, r.1)
  }

  function ExternalAt(s: string, i: nat): (r: (Atom, nat))
    requires i < |s|
    ensures i < r.1 <= |s|
  {
    var name := NameAt(s, i + 1);
    if !name.2 then (Function("", ""), name.1)
    else var value := ArgumentAt(s, name.1); (Function(name.0, value.0), value.1)
  }

  datatype Read = Read(token: Token, next: nat, beforeWasTerminal: bool)

  /** The next token; an operand directly after an operand yields the default operator first. */
  function NextToken(s: string, i: nat, before: bool): (r: Read)
    requires i <= |s|
    ensures i <= r.next <= |s|
    ensures r.token.ENDOFINPUT? || i < r.next || (before && !r.beforeWasTerminal)
    decreases |s| - i
  {
    if i == |s| then Read(ENDOFINPUT, i, before)
    else if s[i] == ' ' then NextToken(s, i + 1, before)
    else if IsOp(s[i]) then Read(OPERATOR(OpOf(s[i])), i + 1, false)
    else if s[i] == ')' then Read(BRACE_CLOSE, i + 1, true)
    else if before then Read(OPERATOR(Op.Intersect), i, false)
    else if s[i] == '(' then Read(BRACE_OPEN, i + 1, false)
    else if s[i] == '$' then Read(OPERAND(ExternalAt(s, i).0), ExternalAt(s, i).1, true)
    else Read(OPERAND(Text(StringAt(s, i).0)), StringAt(s, i).1, true)
  }

  /** All tokens from position i on. */
  function TokensFrom(s: string, i: nat, before: bool): seq<Token>
    requires i <= |s|
    decreases |s| - i, before
  {
    var r := NextToken(s, i, before);
    if r.token.ENDOFINPUT? then [] else [r.token] + TokensFrom(s, r.next, r.beforeWasTerminal)
  }

  function QueryTokens(query: string): seq<Token> {
    TokensFrom(Sanitized(query, 0, false), 0, false)
  }

  class Tokenizer {
    const parseString: string
    var strIt: nat
    var beforeWasTerminal: bool

    ghost predicate Valid() reads this {
      strIt <= |parseString|
    }

    /** The tokens that have not been read yet. */
    ghost function Remaining(): seq<Token>
      requires Valid()
      reads this
    {
      TokensFrom(parseString, strIt, beforeWasTerminal)
    }

    constructor (query: string)
      ensures Valid() && parseString == Sanitized(query, 0, false)
      ensures Remaining() == QueryTokens(query)
    {
      var sane := Sanitize(query);
      parseString, strIt, beforeWasTerminal := sane, 0, false;
    }

    predicate HasNext() reads this {
      strIt != |parseString|
    }

    method ReadString() returns (text: string)
      requires Valid()
      modifies this`strIt
      ensures Valid() && (text, strIt) == StringAt(parseString, old(strIt))
    {
      text := "";
      ghost var all := StringAt(parseString, strIt);
      while strIt < |parseString|
        invariant Valid()
        invariant all.0 == text + StringAt(parseString, strIt).0 && all.1 == StringAt(parseString, strIt).1
      {
        ghost var before := text;
        if parseString[strIt] == '\\' {
          strIt := strIt + 1;
          if strIt < |parseString| {
            text := text + [parseString[strIt]];
            strIt := strIt + 1;
          } else {
            break;
          }
        } else if EndsString(parseString[strIt]) {
          break;
        } else {
          text := text + [parseString[strIt]];
          strIt := strIt + 1;
        }
        Regroup(before, text[|before|..], StringAt(parseString, strIt).0);
      }
      assert text + "" == text;
    }

    /** A call: the name up to the bracket, then the argument; without a bracket before a blank there is neither. */
    method ReadExternal() returns (external: Atom)
      requires Valid() && strIt < |parseString|
      modifies this`strIt
      ensures Valid() && (external, strIt) == ExternalAt(parseString, old(strIt))
    {
      strIt := strIt + 1;
      var efName, named := ReadName();
      if !named {
        return Function("", "");
      }
      var efValue := ReadArgument();
      external := Function(efName, efValue);
    }

    method ReadName() returns (efName: string, named: bool)
      requires Valid()
      modifies this`strIt
      ensures Valid() && (efName, strIt, named) == NameAt(parseString, old(strIt))
    {
      efName := "";
      ghost var all := NameAt(parseString, strIt);
      while strIt < |parseString|
        invariant Valid()
        invariant all.0 == efName + NameAt(parseString, strIt).0
        invariant all.1 == NameAt(parseString, strIt).1 && all.2 == NameAt(parseString, strIt).2
      {
        assert efName + "" == efName;
        if parseString[strIt] == '[' {
          strIt := strIt + 1;
          return efName, true;
        } else if parseString[strIt] == ' ' {
          return efName, false;
        }
        ghost var before := efName;
        efName := efName + [parseString[strIt]];
        strIt := strIt + 1;
        Regroup(before, efName[|before|..], NameAt(parseString, strIt).0);
      }
      named := true;
      assert efName + "" == efName;
    }

    method ReadArgument() returns (efValue: string)
      requires Valid()
      modifies this`strIt
      ensures Valid() && (efValue, strIt) == ArgumentAt(parseString, old(strIt))
    {
      efValue := "";
      ghost var all := ArgumentAt(parseString, strIt);
      while strIt < |parseString|
        invariant Valid()
        invariant all.0 == efValue + ArgumentAt(parseString, strIt).0 && all.1 == ArgumentAt(parseString, strIt).1
      {
        assert efValue + "" == efValue;
        ghost var before := efValue;
        if parseString[strIt] == '\\' {
          strIt := strIt + 1;
          if strIt == |parseString| {
            return efValue;
          }
          efValue := efValue + [parseString[strIt]];
        } else if parseString[strIt] == ']' {
          strIt := strIt + 1;
          return efValue;
        } else {
          efValue := efValue + [parseString[strIt]];
          strIt := strIt + 1;
        }
        Regroup(before, efValue[|before|..], ArgumentAt(parseString, strIt).0);
      }
      assert efValue + "" == efValue;
    }

    method Next() returns (token: Token)
      requires Valid()
      modifies this
      ensures Valid()
      ensures if old(Remaining()) == [] then token == ENDOFINPUT && Remaining() == []
              else old(Remaining()) == [token] + Remaining() && token != ENDOFINPUT
    {
      ghost var r := NextToken(parseString, strIt, beforeWasTerminal);
      token := ENDOFINPUT;
      while strIt < |parseString| && parseString[strIt] == ' '
        invariant Valid() && beforeWasTerminal == old(beforeWasTerminal)
        invariant NextToken(parseString, strIt, beforeWasTerminal) == r
      {
        strIt := strIt + 1;
      }
      if strIt < |parseString| {
        var c := parseString[strIt];
        if IsOp(c) {
          token := OPERATOR(OpOf(c));
          strIt := strIt + 1;
          beforeWasTerminal := false;
        } else if c == ')' {
          token := BRACE_CLOSE;
          strIt := strIt + 1;
          beforeWasTerminal := true;
        } else if beforeWasTerminal {
          token := OPERATOR(Op.Intersect);
          beforeWasTerminal := false;
        } else if c == '(' {
          token := BRACE_OPEN;
          strIt := strIt + 1;
        } else if c == '$' {
          var external := ReadExternal();
          token := OPERAND(external);
          beforeWasTerminal := true;
        } else {
          var text := ReadString();
          token := OPERAND(Text(text));
          beforeWasTerminal := true;
        }
      }
      assert r == Read(token, strIt, beforeWasTerminal);
    }
  }

  predicate BeginsOperand(t: Token) {
    t.OPERAND? || t.BRACE_OPEN?
  }

  predicate EndsOperand(t: Token) {
    t.OPERAND? || t.BRACE_CLOSE?
  }

  /** No operand begins directly behind an operand. */
  predicate Apart(ts: seq<Token>) {
    forall k :: 0 <= k < |ts| - 1 ==> EndsOperand(ts[k]) ==> !BeginsOperand(ts[k + 1])
  }

  /** Whatever the query calls, no operand follows another directly. */
  lemma {:induction false} OperandsApart(s: string, i: nat, before: bool)
    requires i <= |s|
    ensures Apart(TokensFrom(s, i, before))
    ensures before && TokensFrom(s, i, before) != [] ==> !BeginsOperand(TokensFrom(s, i, before)[0])
    decreases |s| - i, before
  {
    var r := NextToken(s, i, before);
    if !r.token.ENDOFINPUT? {
      OperandsApart(s, r.next, r.beforeWasTerminal);
      AfterOperand(s, i, before);
      var rest := TokensFrom(s, r.next, r.beforeWasTerminal);
      JoinApart(r.token, rest);
    }
  }

  lemma JoinApart(t: Token, rest: seq<Token>)
    requires Apart(rest) && (EndsOperand(t) && rest != [] ==> !BeginsOperand(rest[0]))
    ensures Apart([t] + rest)
  {
    var ts := [t] + rest;
    forall k | 0 <= k < |ts| - 1 && EndsOperand(ts[k]) ensures !BeginsOperand(ts[k + 1]) {
      if k > 0 {
        assert ts[k] == rest[k - 1] && ts[k + 1] == rest[k - 1 + 1];
      }
    }
  }

  lemma {:induction false} AfterOperand(s: string, i: nat, before: bool)
    requires i <= |s|
    ensures var r := NextToken(s, i, before);
            && (EndsOperand(r.token) ==> r.beforeWasTerminal)
            && (before ==> !BeginsOperand(r.token))
    decreases |s| - i
  {
    if i < |s| && s[i] == ' ' {
      AfterOperand(s, i + 1, before);
    }
  }

  /** Outside of function calls, as the tokenizer finds them, unescaped braces match; `depth` of them are
      open at position i. */
  predicate BalancedOutside(s: string, i: nat, depth: nat)
    requires i <= |s|
    decreases |s| - i
  {
    if i == |s| then depth == 0
    else if s[i] == '\\' then BalancedOutside(s, if i + 1 < |s| then i + 2 else i + 1, depth)
    else if s[i] == '$' then BalancedOutside(s, ExternalAt(s, i).1, depth)
    else if s[i] == ')' then depth > 0 && BalancedOutside(s, i + 1, depth - 1)
    else if s[i] == '(' then BalancedOutside(s, i + 1, depth + 1)
    else BalancedOutside(s, i + 1, depth)
  }

  lemma {:induction false} StringKeepsBalance(s: string, i: nat, depth: nat)
    requires i <= |s|
    ensures BalancedOutside(s, StringAt(s, i).1, depth) == BalancedOutside(s, i, depth)
    decreases |s| - i
  {
    if i < |s| && !EndsString(s[i]) {
      if s[i] != '\\' {
        StringKeepsBalance(s, i + 1, depth);
      } else if i + 1 < |s| {
        StringKeepsBalance(s, i + 2, depth);
      }
    }
  }

  /** If the braces outside of calls match, an operator or closing brace is always at hand where one is
      needed, so only an operand can be missing; if they do not, the tokens are not accepted. */
  lemma {:induction false} VerdictFrom(s: string, i: nat, before: bool, depth: nat)
    requires i <= |s|
    ensures BalancedOutside(s, i, depth) ==> Scan(TokensFrom(s, i, before), depth, !before) != OperatorMissing
    ensures !BalancedOutside(s, i, depth) ==> Scan(TokensFrom(s, i, before), depth, !before) != Accept
    decreases |s| - i, before
  {
    if i < |s| {
      var r := NextToken(s, i, before);
      if s[i] == ' ' {
        VerdictFrom(s, i + 1, before, depth);
        assert TokensFrom(s, i, before) == TokensFrom(s, i + 1, before);
      } else {
        assert TokensFrom(s, i, before) == [r.token] + TokensFrom(s, r.next, r.beforeWasTerminal);
        if IsOp(s[i]) {
          VerdictFrom(s, i + 1, false, depth);
        } else if s[i] == ')' {
          if depth > 0 {
            VerdictFrom(s, i + 1, true, depth - 1);
          }
        } else if before {
          VerdictFrom(s, i, false, depth);
        } else if s[i] == '(' {
          VerdictFrom(s, i + 1, false, depth + 1);
        } else if s[i] == '$' {
          VerdictFrom(s, r.next, true, depth);
        } else {
          StringKeepsBalance(s, i, depth);
          VerdictFrom(s, r.next, true, depth);
        }
      }
    }
  }

  /** The braces of the sanitized query match outside of its calls. */
  predicate CallsKeepBraces(query: string) {
    BalancedOutside(Sanitized(query, 0, false), 0, 0)
  }

  /** Where no operand is missing, exactly the braces outside of calls decide. */
  lemma QueryVerdict(query: string)
    ensures CallsKeepBraces(query) ==> Scan(QueryTokens(query), 0, true) != OperatorMissing
    ensures !CallsKeepBraces(query) ==> Scan(QueryTokens(query), 0, true) != Accept
    ensures Scan(QueryTokens(query), 0, true) != OperandMissing ==>
              (Scan(QueryTokens(query), 0, true) == OperatorMissing <==> !CallsKeepBraces(query))
  {
    VerdictFrom(Sanitized(query, 0, false), 0, false, 0);
  }

  lemma {:induction false} BalancedThroughout(s: string, i: nat, depth: nat)
    requires i <= |s| && NoCalls(s[i..])
    ensures Balanced(s[i..], depth) ==> BalancedOutside(s, i, depth)
    decreases |s| - i
  {
    if i < |s| && Balanced(s[i..], depth) {
      if s[i] == '\\' {
        assert s[i..][2..] == s[i + 2..];
        BalancedThroughout(s, i + 2, depth);
      } else {
        assert s[i..][1..] == s[i + 1..];
        BalancedThroughout(s, i + 1, if s[i] == ')' then depth - 1 else if s[i] == '(' then depth + 1 else depth);
      }
    }
  }

  /** Without calls the sanitizer does its work. */
  lemma PlainQuery(query: string)
    requires NoCalls(query)
    ensures CallsKeepBraces(query)
  {
    var s := Sanitized(query, 0, false);
    SanitizedIsBalanced(query, 0, false);
    SanitizedCallsNothing(query, 0, false);
    assert s[0..] == s;
    BalancedThroughout(s, 0, 0);
  }

  /** A query whose call brings the braces out of balance: the sanitizer counts the one inside the argument. */
  lemma CallUnbalances()
    ensures !CallsKeepBraces("$a[(]") && Scan(QueryTokens("$a[(]"), 0, true) == OperatorMissing
  {
    var q, s := "$a[(]", "$a[(])";
    assert Sanitized(q, 0, false) == s by {
      assert Sanitized("", 1, false) == Closing(1) == ")";
      assert "]"[1..] == "" && "(]"[1..] == "]" && "[(]"[1..] == "(]" && "a[(]"[1..] == "[(]" && q[1..] == "a[(]";
    }
    assert [s[1]] + "" == "a" && [s[3]] + "" == "(";
    assert NameAt(s, 2) == ("", 3, true) && NameAt(s, 1) == ("a", 3, true);
    assert ArgumentAt(s, 4) == ("", 5) && ArgumentAt(s, 3) == ("(", 5);
    assert NextToken(s, 0, false) == Read(OPERAND(Function("a", "(")), 5, true);
    assert TokensFrom(s, 5, true) == [BRACE_CLOSE] + TokensFrom(s, 6, true);
    assert TokensFrom(s, 0, false)[1..] == TokensFrom(s, 5, true);
  }
}
