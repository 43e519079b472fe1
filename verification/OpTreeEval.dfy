/** Evaluation of operator trees, afresh and as an update of an earlier evaluation. */
module OpTreeEval {
  // An update takes values over from the nodes of the tree of the previous query, which keep them.  No
  // external functions are registered.

  import opened Basics
  import opened Grammar
  import Parser
  import T = Tokenizer
  import Q = QueryText

  datatype Kind = Exact | Prefix | Suffix | Substring

  /** What the completer is asked for. */
  datatype Lookup = Lookup(str: string, kind: Kind, anyCase: bool)

  type Items = set<nat>
  type Completer = Lookup -> Items

  /** The node of an operation or a completion holds its value once it is evaluated. */
  datatype Node =
    | Invalid
    | Complete(look: Lookup, index: Option<Items>)
    | Operation(op: Op, left: Node, right: Node, index: Option<Items>)

  // ---- from query text to nodes -------------------------------------------------------------

  /** Quotes and asterisks around a search string select the kind of lookup. */
  method Completion(text: string) returns (look: Lookup)
    ensures look == LookupOf(text)
  {
    if text == "" {
      return Lookup("", Prefix, false);
    }
    var t, str := 1, text;
    if str[0] == '"' {
      str := str[1..];
      if |str| > 0 && str[|str| - 1] == '"' {
        str := str[..|str| - 1];
      }
    } else {
      if str[0] == '*' {
        t := t * 4;
        str := str[1..];
      }
      if |str| > 0 && str[|str| - 1] == '*' {
        t := t * 2;
        str := str[..|str| - 1];
      }
      if t == 1 {
        t := 8;
      }
    }
    var kind := match t case 1 => Exact case 2 => Prefix case 4 => Suffix case _ => Substring;
    look := Lookup(str, kind, true);
  }

  function Chomp(s: string, c: char): string {
    if s != "" && s[|s| - 1] == c then s[..|s| - 1] else s
  }

  function LookupOf(text: string): Lookup {
    if text == "" then Lookup("", Prefix, false)
    else if text[0] == '"' then Lookup(Chomp(text[1..], '"'), Exact, true)
    else
      var s := if text[0] == '*' then text[1..] else text;
      var before, behind := text[0] == '*', Chomp(s, '*') != s;
      Lookup(Chomp(s, '*'), if before && !behind then Suffix else if behind && !before then Prefix else Substring, true)
  }

  /** Every kind of lookup can be asked for, for every word. */
  lemma KindsOfLookup(w: string)
    requires w != "" && w[0] != '*' && w[0] != '"' && w[|w| - 1] != '*' && w[|w| - 1] != '"'
    ensures LookupOf("\"" + w + "\"") == Lookup(w, Exact, true)
    ensures LookupOf(w + "*") == Lookup(w, Prefix, true)
    ensures LookupOf("*" + w) == Lookup(w, Suffix, true)
    ensures LookupOf("*" + w + "*") == LookupOf(w) == Lookup(w, Substring, true)
  {
    assert ("\"" + w + "\"")[1..] == w + "\"" && (w + "\"")[..|w|] == w;
    assert (w + "*")[..|w|] == w;
    assert ("*" + w)[1..] == w;
    assert ("*" + w + "*")[1..] == w + "*";
  }

  function Leaf(atom: Atom): Node {
    match atom
    case Text(str) => Complete(LookupOf(str), None)
    case Function(_, _) => Invalid
  }

  function FromTree(t: Tree): Node {
    match t
    case Leaf(atom) => Leaf(atom)
    case Node(op, l, r) => Operation(op, FromTree(l), FromTree(r), None)
  }

  // ---- meaning ------------------------------------------------------------------------------

  function ApplyOp(op: Op, a: Items, b: Items): Items {
    match op
    case Unite => a + b
    case Difference => a - b
    case Intersect => a * b
    case SymmetricDifference => (a - b) + (b - a)
  }

  /** The value of a node, evaluated afresh. */
  function Value(n: Node, complete: Completer): Items {
    match n
    case Invalid => {}
    case Complete(look, _) => complete(look)
    case Operation(op, l, r, _) => ApplyOp(op, Value(l, complete), Value(r, complete))
  }

  /** Item x is in the answer to a query with this tree, by what the completer finds for its words. */
  ghost predicate InTree(t: Tree, complete: Completer, x: nat) {
    match t
    case Leaf(Text(word)) => x in complete(LookupOf(word))
    case Leaf(Function(_, _)) => false
    case Node(Unite, l, r) => InTree(l, complete, x) || InTree(r, complete, x)
    case Node(Difference, l, r) => InTree(l, complete, x) && !InTree(r, complete, x)
    case Node(Intersect, l, r) => InTree(l, complete, x) && InTree(r, complete, x)
    case Node(SymmetricDifference, l, r) => InTree(l, complete, x) != InTree(r, complete, x)
  }

  lemma {:induction false} TreeItems(t: Tree, complete: Completer)
    ensures forall x :: x in Value(FromTree(t), complete) <==> InTree(t, complete, x)
  {
    if t.Node? {
      TreeItems(t.left, complete);
      TreeItems(t.right, complete);
    }
  }

  /** The same for the text of a query; without an operand at its front it has no tree and no answer. */
  ghost predicate InQuery(query: string, complete: Completer, x: nat) {
    var tree := TreeOfTokens(T.QueryTokens(query));
    tree.Some? && InTree(tree.value, complete, x)
  }

  function Lookups(n: Node): set<Lookup> {
    match n
    case Invalid => {}
    case Complete(look, _) => {look}
    case Operation(_, l, r, _) => Lookups(l) + Lookups(r)
  }

  /** Same tree, whatever values are kept in it. */
  predicate SameTree(n: Node, m: Node) {
    match n
    case Invalid => m.Invalid?
    case Complete(look, _) => m.Complete? && m.look == look
    case Operation(op, l, r, _) => m.Operation? && m.op == op && SameTree(l, m.left) && SameTree(r, m.right)
  }

  predicate Unevaluated(n: Node) {
    n.Invalid? || (n.index == None && (n.Operation? ==> Unevaluated(n.left) && Unevaluated(n.right)))
  }

  /** Every value kept is that of its node. */
  predicate RightWhereKept(n: Node, complete: Completer) {
    n.Invalid? || ((n.index.Some? ==> n.index.value == Value(n, complete))
                   && (n.Operation? ==> RightWhereKept(n.left, complete) && RightWhereKept(n.right, complete)))
  }

  /** Every node keeps a value. */
  predicate AllKept(n: Node) {
    n.Invalid? || (n.index.Some? && (n.Operation? ==> AllKept(n.left) && AllKept(n.right)))
  }

  function Kept(n: Node): Items {
    if n.Invalid? || n.index.None? then {} else n.index.value
  }

  lemma {:induction false} SameTreeSameValue(n: Node, m: Node, complete: Completer)
    requires SameTree(n, m)
    ensures Value(n, complete) == Value(m, complete) && Lookups(n) == Lookups(m)
  {
    if n.Operation? {
      SameTreeSameValue(n.left, m.left, complete);
      SameTreeSameValue(n.right, m.right, complete);
    }
  }

  lemma {:induction false} SameTreeSelf(n: Node)
    ensures SameTree(n, n)
  {
    if n.Operation? {
      SameTreeSelf(n.left);
      SameTreeSelf(n.right);
    }
  }

  lemma {:induction false} FromTreeUnevaluated(t: Tree, complete: Completer)
    ensures Unevaluated(FromTree(t)) && RightWhereKept(FromTree(t), complete)
  {
    if t.Node? {
      FromTreeUnevaluated(t.left, complete);
      FromTreeUnevaluated(t.right, complete);
    }
  }

  // ---- differences between queries ----------------------------------------------------------

  datatype Change = EQUAL | SUBSET | SUPERSET | DIFFERENT

  method CompletionStringDifference(newString: string, oldString: string) returns (diff: Change)
    ensures diff == EQUAL <==> newString == oldString
    ensures diff == SUBSET <==> oldString < newString
    ensures diff == SUPERSET <==> newString < oldString
  {
    var i := 0;
    while i < |newString| && i < |oldString| && newString[i] == oldString[i]
      invariant i <= |newString| && i <= |oldString| && newString[..i] == oldString[..i]
    {
      i := i + 1;
    }
    if i < |newString| && i < |oldString| {
      diff := DIFFERENT;
    } else if i < |newString| {
      diff := SUBSET;
    } else if i < |oldString| {
      diff := SUPERSET;
    } else {
      assert newString == newString[..i] && oldString == oldString[..i];
      diff := EQUAL;
    }
  }

  function ChangeOf(n: Node, ref: Node): Change {
    if !n.Complete? || !ref.Complete? || n.look.kind != ref.look.kind || n.look.anyCase != ref.look.anyCase then DIFFERENT
    else if n.look.str == ref.look.str then EQUAL
    else if ref.look.str < n.look.str then SUBSET
    else if n.look.str < ref.look.str then SUPERSET
    else DIFFERENT
  }

  predicate BothIntersect(n: Node, ref: Node) {
    n.Operation? && ref.Operation? && n.op.Intersect? && ref.op.Intersect?
  }

  /** The operands are the same as before: the update takes the old value of the whole. */
  predicate Taken(n: Node, ref: Node) {
    BothIntersect(n, ref) && ChangeOf(n.left, ref.left) == EQUAL && ChangeOf(n.right, ref.right) == EQUAL
  }

  /** The left search string is extended: the update intersects its value with the old value of the whole. */
  predicate Narrowed(n: Node, ref: Node) {
    BothIntersect(n, ref) && ChangeOf(n.left, ref.left) == SUBSET && ChangeOf(n.right, ref.right) == EQUAL
  }

  /** Wherever an update uses an old value the outcome is the value of the new node. */
  predicate ReusedRightly(n: Node, ref: Node, complete: Completer) {
    BothIntersect(n, ref) ==>
      && (Taken(n, ref) ==> Kept(ref) == Value(n, complete))
      && (Narrowed(n, ref) ==> Value(n.left, complete) * Kept(ref) == Value(n, complete))
      && ReusedRightly(n.left, ref.left, complete) && ReusedRightly(n.right, ref.right, complete)
  }

  /** Wherever an update narrows an old value, nothing of the new value lies outside the old left operand. */
  predicate NarrowedRightly(n: Node, ref: Node, complete: Completer) {
    BothIntersect(n, ref) ==>
      && (Narrowed(n, ref) ==> Value(n, complete) <= Value(ref.left, complete))
      && NarrowedRightly(n.left, ref.left, complete) && NarrowedRightly(n.right, ref.right, complete)
  }

  /** Beside a tree that is evaluated only narrowing can go wrong. */
  lemma {:induction false} ReuseOfRight(n: Node, ref: Node, complete: Completer)
    requires AllKept(ref) && RightWhereKept(ref, complete)
    ensures ReusedRightly(n, ref, complete) <==> NarrowedRightly(n, ref, complete)
  {
    if BothIntersect(n, ref) {
      ReuseOfRight(n.left, ref.left, complete);
      ReuseOfRight(n.right, ref.right, complete);
      assert Kept(ref) == Value(ref.left, complete) * Value(ref.right, complete);
      assert Value(n, complete) == Value(n.left, complete) * Value(n.right, complete);
      assert ChangeOf(n.right, ref.right) == EQUAL ==> Value(n.right, complete) == Value(ref.right, complete);
      assert ChangeOf(n.left, ref.left) == EQUAL ==> Value(n.left, complete) == Value(ref.left, complete);
      if Narrowed(n, ref) {
        NarrowIff(Value(n.left, complete), Value(ref.left, complete), Value(n.right, complete));
      }
    }
  }

  lemma NarrowIff(a: Items, b: Items, c: Items)
    ensures a * (b * c) == a * c <==> a * c <= b
  {
    if a * (b * c) == a * c {
      assert a * c <= b * c;
    }
  }

  /** The completer never finds more for a longer search string. */
  ghost predicate Narrowing(complete: Completer, kind: Kind, anyCase: bool) {
    forall s: string, t: string :: s <= t ==> complete(Lookup(t, kind, anyCase)) <= complete(Lookup(s, kind, anyCase))
  }

  /** All completions in a tree are of kinds for which the completer narrows. */
  ghost predicate AllNarrowing(n: Node, complete: Completer) {
    forall look :: look in Lookups(n) ==> Narrowing(complete, look.kind, look.anyCase)
  }

  lemma {:induction false} NarrowingIsEnough(n: Node, ref: Node, complete: Completer)
    requires AllNarrowing(n, complete)
    ensures NarrowedRightly(n, ref, complete)
  {
    if n.Operation? && ref.Operation? && n.op.Intersect? && ref.op.Intersect? {
      NarrowingIsEnough(n.left, ref.left, complete);
      NarrowingIsEnough(n.right, ref.right, complete);
      if Narrowed(n, ref) {
        assert n.left.look in Lookups(n);
        assert ref.left.look.str <= n.left.look.str;
      }
    }
  }

  // ---- evaluation ---------------------------------------------------------------------------

  ghost predicate LeavesRight(n: Node, completions: map<Lookup, Items>, complete: Completer) {
    forall look :: look in Lookups(n) ==> look in completions && completions[look] == complete(look)
  }

  function LookupsOf(root: Option<Node>): set<Lookup> {
    if root.Some? then Lookups(root.value) else {}
  }

  predicate SameRoot(a: Option<Node>, b: Option<Node>) {
    if a.Some? then b.Some? && SameTree(a.value, b.value) else b.None?
  }

  /** The fresh tree of a query; for a query of the language it is that of its one derivation. */
  ghost function ParsedAs(query: string): Option<Node> {
    var tree := TreeOfTokens(T.QueryTokens(query));
    if tree.Some? then Some(FromTree(tree.value)) else None
  }

  lemma ParsedIsDerived(query: string, e: Infix)
    requires T.QueryTokens(query) == InfixTokens(e)
    ensures ParsedAs(query) == Some(FromTree(InfixTree(e)))
  {
    LongestIsTaken(InfixTokens(e), e);
  }

  lemma {:induction false} Unkept(n: Node, complete: Completer)
    requires Unevaluated(n)
    ensures RightWhereKept(n, complete)
  {
    if n.Operation? {
      Unkept(n.left, complete);
      Unkept(n.right, complete);
    }
  }

  class SetOpTree {
    const complete: Completer
    var rootNode: Option<Node>
    var queryString: string
    var completions: map<Lookup, Items>

    /** Every lookup in the tree has an entry. */
    predicate Valid() reads this {
      rootNode.Some? ==> Lookups(rootNode.value) <= completions.Keys
    }

    /** Every completion is that of the completer, and the tree is evaluated. */
    predicate Settled() reads this {
      && Valid() && (forall look :: look in completions ==> completions[look] == complete(look))
      && (rootNode.Some? ==> AllKept(rootNode.value) && RightWhereKept(rootNode.value, complete))
    }

    constructor (complete: Completer)
      ensures Settled() && rootNode == None && this.complete == complete && completions == map[]
    {
      this.complete, rootNode, queryString, completions := complete, None, "", map[];
    }

    method Evaluate(n: Node) returns (index: Items, n2: Node)
      requires Lookups(n) <= completions.Keys
      ensures SameTree(n, n2) && (n2.Invalid? || n2.index.Some?) && Kept(n2) == index
      ensures Unevaluated(n) || AllKept(n) ==> AllKept(n2)
      ensures RightWhereKept(n, complete) && LeavesRight(n, completions, complete) ==> RightWhereKept(n2, complete)
      ensures Unevaluated(n) && RightWhereKept(n2, complete) ==> LeavesRight(n, completions, complete)
      decreases n
    {
      if n.Invalid? {
        index, n2 := {}, n;
      } else if n.index.Some? {
        index, n2 := n.index.value, n;
        SameTreeSelf(n);
      } else if n.Complete? {
        index := completions[n.look];
        n2 := Complete(n.look, Some(index));
      } else {
        var l, left := Evaluate(n.left);
        var r, right := Evaluate(n.right);
        index := ApplyOp(n.op, l, r);
        n2 := Operation(n.op, left, right, Some(index));
        SameTreeSameValue(n, n2, complete);
      }
    }

    /** Evaluates the fresh tree n beside the tree of the previous query.  All values come out right
        exactly if the completions are right and old values are reused rightly. */
    method EvaluateUpdate(n: Node, ref: Option<Node>) returns (index: Items, n2: Node, diff: Change)
      requires Lookups(n) <= completions.Keys && Unevaluated(n)
      ensures SameTree(n, n2) && AllKept(n2) && Kept(n2) == index
      ensures diff == if ref.Some? then ChangeOf(n, ref.value) else DIFFERENT
      ensures RightWhereKept(n2, complete)
          <==> LeavesRight(n, completions, complete) && (ref.Some? ==> ReusedRightly(n, ref.value, complete))
      decreases n
    {
      diff := DIFFERENT;
      if n.Invalid? {
        index, n2 := {}, n;
      } else if n.Complete? {
        if ref.Some? && ref.value.Complete? && ref.value.look.kind == n.look.kind && ref.value.look.anyCase == n.look.anyCase {
          diff := CompletionStringDifference(n.look.str, ref.value.look.str);
        }
        index := completions[n.look];
        n2 := Complete(n.look, Some(index));
      } else if n.op.Intersect? && ref.Some? && ref.value.Operation? && ref.value.op.Intersect? {
        var was := ref.value;
        var l, left, lDiff := EvaluateUpdate(n.left, Some(was.left));
        var r, right, rDiff := EvaluateUpdate(n.right, Some(was.right));
        if lDiff == EQUAL && rDiff == EQUAL {
          index := Kept(was);
        } else if lDiff == SUBSET && rDiff == EQUAL {
          index := l * Kept(was);
        } else {
          index := l * r;
        }
        n2 := Operation(n.op, left, right, Some(index));
        SameTreeSameValue(n.left, n2.left, complete);
        SameTreeSameValue(n.right, n2.right, complete);
      } else {
        Unkept(n, complete);
        index, n2 := Evaluate(n);
      }
    }

    method ParseQuery(query: string) returns (root: Option<Node>)
      ensures root == ParsedAs(query)
    {
      var tree := Parser.Build(query);
      root := if tree.Some? then Some(FromTree(tree.value)) else None;
    }

    method ClearTree()
      modifies this`rootNode
      ensures rootNode == None
    {
      rootNode := None;
    }

    /** Replaces the tree, unless this query was the last to be built: then it does nothing. */
    method BuildTree(query: string)
      requires Valid()
      modifies this
      ensures Valid()
      ensures if old(rootNode.Some? && queryString == query)
              then rootNode == old(rootNode) && queryString == old(queryString) && completions == old(completions)
              else rootNode == ParsedAs(query) && queryString == query
                   && completions.Keys == old(completions.Keys) + LookupsOf(rootNode)
                   && forall look :: look in completions ==>
                        completions[look] == if look in LookupsOf(rootNode) then {} else old(completions)[look]
    {
      if !(rootNode.Some? && queryString == query) {
        ClearTree();
        rootNode := ParseQuery(query);
        completions := completions + map look | look in LookupsOf(rootNode) :: {};
        queryString := query;
      }
    }

    method DoCompletions()
      modifies this`completions
      ensures completions == map look | look in old(completions) :: complete(look)
    {
      ghost var were := completions;
      var todo := completions.Keys;
      while todo != {}
        invariant todo <= completions.Keys == were.Keys
        invariant forall look :: look in completions && look !in todo ==> completions[look] == complete(look)
      {
        var look :| look in todo;
        completions := completions[look := complete(look)];
        todo := todo - {look};
      }
    }

    method DoSetOperations() returns (index: Items)
      requires Valid()
      modifies this`rootNode
      ensures Valid() && SameRoot(old(rootNode), rootNode)
      ensures index == if rootNode.Some? then Kept(rootNode.value) else {}
      ensures rootNode.Some? && RightWhereKept(old(rootNode).value, complete) && LeavesRight(rootNode.value, completions, complete)
              ==> RightWhereKept(rootNode.value, complete) && index == Value(rootNode.value, complete)
      ensures rootNode.Some? && (Unevaluated(old(rootNode).value) || AllKept(old(rootNode).value)) ==> AllKept(rootNode.value)
    {
      index := {};
      if rootNode.Some? {
        var root;
        index, root := Evaluate(rootNode.value);
        SameTreeSameValue(rootNode.value, root, complete);
        rootNode := Some(root);
      }
    }

    /** Evaluates a query with the help of the one before.  Completions of the last query are kept. */
    method Update(query: string) returns (index: Items)
      modifies this
      ensures Valid() && queryString == old(queryString)
      ensures SameRoot(ParsedAs(query), rootNode)
      ensures index == if rootNode.Some? then Kept(rootNode.value) else {}
      ensures rootNode.Some? ==> AllKept(rootNode.value)
      ensures rootNode.Some? ==>
                (RightWhereKept(rootNode.value, complete)
                 <==> && (forall look :: look in Lookups(rootNode.value) && look in old(completions) ==>
                           old(completions)[look] == complete(look))
                      && (old(rootNode).Some? ==> ReusedRightly(rootNode.value, old(rootNode).value, complete)))
      ensures old(Settled()) && rootNode.Some? ==>
                (Settled() <==> (old(rootNode).Some? ==> NarrowedRightly(rootNode.value, old(rootNode).value, complete)))
      ensures old(Settled()) && (rootNode.Some? ==> AllNarrowing(rootNode.value, complete)) ==> Settled()
      ensures Settled() && rootNode.Some? ==> index == Value(rootNode.value, complete)
      ensures Settled() ==> forall x :: x in index <==> InQuery(query, complete, x)
    {
      var root := ParseQuery(query);
      var was := rootNode;
      var todo := LookupsOf(root);
      var newCompletions: map<Lookup, Items> := map[];
      while todo != {}
        invariant todo + newCompletions.Keys == LookupsOf(root)
        invariant forall look :: look in newCompletions ==>
                    newCompletions[look] == if look in completions then completions[look] else complete(look)
      {
        var look :| look in todo;
        newCompletions := newCompletions[look := if look in completions then completions[look] else complete(look)];
        todo := todo - {look};
      }
      completions := newCompletions;
      index := {};
      rootNode := root;
      if root.Some? {
        FromTreeUnevaluated(TreeOfTokens(T.QueryTokens(query)).value, complete);
        var root2, diff;
        index, root2, diff := EvaluateUpdate(root.value, was);
        rootNode := Some(root2);
        UpdatedRoot(root.value, root2, was, complete);
        if was.Some? && AllNarrowing(root2, complete) {
          NarrowingIsEnough(root2, was.value, complete);
        }
        SameTreeSameValue(root.value, root2, complete);
      }
      AnswerItems(query, complete);
    }
  }

  /** What holds of the fresh tree holds of the evaluated one. */
  lemma {:induction false} SameTreeSameReuse(n: Node, n2: Node, ref: Node, complete: Completer)
    requires SameTree(n, n2)
    ensures ReusedRightly(n, ref, complete) <==> ReusedRightly(n2, ref, complete)
  {
    SameTreeSameValue(n, n2, complete);
    if BothIntersect(n, ref) {
      SameTreeSameValue(n.left, n2.left, complete);
      SameTreeSameReuse(n.left, n2.left, ref.left, complete);
      SameTreeSameReuse(n.right, n2.right, ref.right, complete);
    }
  }

  lemma UpdatedRoot(n: Node, n2: Node, was: Option<Node>, complete: Completer)
    requires SameTree(n, n2) && AllKept(n2)
    ensures Lookups(n) == Lookups(n2)
    ensures was.Some? ==> (ReusedRightly(n, was.value, complete) <==> ReusedRightly(n2, was.value, complete))
    ensures was.Some? && AllKept(was.value) && RightWhereKept(was.value, complete)
            ==> (ReusedRightly(n2, was.value, complete) <==> NarrowedRightly(n2, was.value, complete))
  {
    SameTreeSameValue(n, n2, complete);
    if was.Some? {
      SameTreeSameReuse(n, n2, was.value, complete);
      if AllKept(was.value) && RightWhereKept(was.value, complete) {
        ReuseOfRight(n2, was.value, complete);
      }
    }
  }

  // ---- which completers narrow --------------------------------------------------------------

  function Folded(s: string, fold: char -> char): string {
    seq(|s|, i requires 0 <= i < |s| => fold(s[i]))
  }

  ghost predicate Matches(entry: string, str: string, kind: Kind) {
    match kind
    case Exact => entry == str
    case Prefix => str <= entry
    case Suffix => |str| <= |entry| && entry[|entry| - |str|..] == str
    case Substring => exists i :: 0 <= i <= |entry| && str <= entry[i..]
  }

  /** Completion in a list of entries, with `fold` to make letters alike. */
  ghost function Dictionary(entries: seq<string>, fold: char -> char): Completer {
    (look: Lookup) => set i | 0 <= i < |entries| &&
        if look.anyCase then Matches(Folded(entries[i], fold), Folded(look.str, fold), look.kind)
        else Matches(entries[i], look.str, look.kind)
  }

  lemma MatchesShorter(entry: string, s: string, t: string, kind: Kind)
    requires s <= t && Matches(entry, t, kind) && (kind.Prefix? || kind.Substring?)
    ensures Matches(entry, s, kind)
  {
    if kind.Substring? {
      var i :| 0 <= i <= |entry| && t <= entry[i..];
      assert s <= entry[i..];
    }
  }

  /** Looking up prefixes and substrings narrows in every dictionary, and no other kind does. */
  lemma KindsThatNarrow(kind: Kind, anyCase: bool, fold: char -> char)
    requires fold('a') != fold('b')
    ensures (forall entries :: Narrowing(Dictionary(entries, fold), kind, anyCase)) <==> kind.Prefix? || kind.Substring?
  {
    if kind.Prefix? || kind.Substring? {
      forall entries, s: string, t: string | s <= t
        ensures Dictionary(entries, fold)(Lookup(t, kind, anyCase)) <= Dictionary(entries, fold)(Lookup(s, kind, anyCase))
      {
        var d := Dictionary(entries, fold);
        forall i | i in d(Lookup(t, kind, anyCase)) ensures i in d(Lookup(s, kind, anyCase)) {
          if anyCase {
            assert Folded(s, fold) <= Folded(t, fold);
            MatchesShorter(Folded(entries[i], fold), Folded(s, fold), Folded(t, fold), kind);
          } else {
            MatchesShorter(entries[i], s, t, kind);
          }
        }
      }
    } else {
      var entries, s, t := ["ab"], "a", "ab";
      var d := Dictionary(entries, fold);
      assert t[0..] == t && Folded(t, fold)[0..] == Folded(t, fold);
      assert 0 in d(Lookup(t, kind, anyCase));
      assert t[1..][0] != s[0] && Folded(t, fold)[1..][0] != Folded(s, fold)[0];
      assert 0 !in d(Lookup(s, kind, anyCase));
      assert s <= t;
    }
  }

  // ---- sessions -----------------------------------------------------------------------------

  predicate NarrowKind(kind: Kind) {
    kind.Prefix? || kind.Substring?
  }

  /** No search string of the query is in quotes or has an asterisk in front only. */
  ghost predicate Unquoted(ts: seq<Token>) {
    forall k :: 0 <= k < |ts| && ts[k].OPERAND? && ts[k].atom.Text? ==> NarrowKind(LookupOf(ts[k].atom.str).kind)
  }

  ghost predicate AllNarrowKind(n: Node) {
    forall look :: look in Lookups(n) ==> NarrowKind(look.kind)
  }

  lemma {:induction false} UnquotedTerm(t: Term)
    requires Unquoted(TermTokens(t))
    ensures AllNarrowKind(FromTree(TermTree(t)))
    decreases t
  {
    match t
    case Operand(atom) =>
      assert TermTokens(t)[0] == OPERAND(atom);
    case Braced(e) =>
      assert TermTokens(t) == [BRACE_OPEN] + InfixTokens(e) + [BRACE_CLOSE];
      UnquotedPart([BRACE_OPEN], InfixTokens(e), [BRACE_CLOSE]);
      UnquotedInfix(e);
  }

  lemma UnquotedPart(x: seq<Token>, y: seq<Token>, z: seq<Token>)
    requires Unquoted(x + y + z)
    ensures Unquoted(x) && Unquoted(y) && Unquoted(z)
  {
    assert forall k :: 0 <= k < |x| ==> x[k] == (x + y + z)[k];
    assert forall k :: 0 <= k < |y| ==> y[k] == (x + y + z)[|x| + k];
    assert forall k :: 0 <= k < |z| ==> z[k] == (x + y + z)[|x| + |y| + k];
  }

  lemma {:induction false} UnquotedInfix(e: Infix)
    requires Unquoted(InfixTokens(e))
    ensures AllNarrowKind(FromTree(InfixTree(e)))
    decreases e
  {
    match e
    case Single(t) =>
      UnquotedTerm(t);
    case More(e1, op, t) =>
      UnquotedPart(InfixTokens(e1), [OPERATOR(op)], TermTokens(t));
      UnquotedInfix(e1);
      UnquotedTerm(t);
  }

  lemma {:induction false} UnquotedTree(ts: seq<Token>)
    requires Unquoted(ts) && TreeOfTokens(ts).Some?
    ensures AllNarrowKind(FromTree(TreeOfTokens(ts).value))
  {
    if e: Infix :| Longest(ts, e) {
      LongestIsTaken(ts, e);
      assert ts == [] + InfixTokens(e) + ts[|InfixTokens(e)|..];
      UnquotedPart([], InfixTokens(e), ts[|InfixTokens(e)|..]);
      UnquotedInfix(e);
    } else {
      assert ts == [] + [ts[0]] + ts[1..];
      UnquotedPart([], [ts[0]], ts[1..]);
      UnquotedTree(ts[1..]);
    }
  }

  /** The value of the tree of a query, evaluated afresh. */
  ghost function Answer(query: string, complete: Completer): Items {
    var root := ParsedAs(query);
    if root.Some? then Value(root.value, complete) else {}
  }

  lemma AnswerItems(query: string, complete: Completer)
    ensures forall x :: x in Answer(query, complete) <==> InQuery(query, complete, x)
  {
    var tree := TreeOfTokens(T.QueryTokens(query));
    if tree.Some? {
      TreeItems(tree.value, complete);
    }
  }

  /** A query that is a text of a tree is answered by that tree. */
  lemma WrittenAnswer(query: string, t: Tree, complete: Completer)
    requires Q.WrittenAs(query, t)
    ensures forall x :: x in Answer(query, complete) <==> InTree(t, complete, x)
  {
    Q.WrittenAsTree(query, t);
    AnswerItems(query, complete);
  }

  ghost predicate Unmarked(w: string) {
    Q.Word(w) && w[0] != '*' && w[0] != '"' && w[|w| - 1] != '*' && w[|w| - 1] != '"'
  }

  /** What the queries with two words ask for. */
  lemma TwoWordAnswers(v: string, w: string, complete: Completer)
    requires Unmarked(v) && Unmarked(w)
    ensures var a, b := complete(Lookup(v, Substring, true)), complete(Lookup(w, Substring, true));
            && Answer(v + "+" + w, complete) == a + b
            && Answer(v + "-" + w, complete) == a - b
            && Answer(v + "/" + w, complete) == Answer(v + " " + w, complete) == a * b
            && Answer(v + "^" + w, complete) == (a - b) + (b - a)
  {
    Q.TwoWords(v, w);
    KindsOfLookup(v);
    KindsOfLookup(w);
    TwoOperandAnswer(v + "+" + w, v, Op.Unite, w, complete);
    TwoOperandAnswer(v + "-" + w, v, Op.Difference, w, complete);
    TwoOperandAnswer(v + "/" + w, v, Op.Intersect, w, complete);
    TwoOperandAnswer(v + " " + w, v, Op.Intersect, w, complete);
    TwoOperandAnswer(v + "^" + w, v, Op.SymmetricDifference, w, complete);
  }

  lemma TwoOperandAnswer(query: string, v: string, op: Op, w: string, complete: Completer)
    requires T.QueryTokens(query) == [OPERAND(Text(v)), OPERATOR(op), OPERAND(Text(w))]
    ensures Answer(query, complete) == ApplyOp(op, complete(LookupOf(v)), complete(LookupOf(w)))
  {
    var e := More(Single(Operand(Text(v))), op, Operand(Text(w)));
    TwoOperands(Text(v), op, Text(w));
    ParsedIsDerived(query, e);
    var a, b := Complete(LookupOf(v), None), Complete(LookupOf(w), None);
    assert FromTree(Tree.Leaf(Text(v))) == a && FromTree(Tree.Leaf(Text(w))) == b;
    assert Value(a, complete) == complete(LookupOf(v)) && Value(b, complete) == complete(LookupOf(w));
  }

  /** Any number of updates answer unquoted queries as fresh evaluations do. */
  method Session(complete: Completer, queries: seq<string>) returns (answers: seq<Items>)
    requires forall kind, anyCase :: NarrowKind(kind) ==> Narrowing(complete, kind, anyCase)
    requires forall i :: 0 <= i < |queries| ==> Unquoted(T.QueryTokens(queries[i]))
    ensures |answers| == |queries|
    ensures forall i :: 0 <= i < |queries| ==> answers[i] == Answer(queries[i], complete)
    ensures forall i, x :: 0 <= i < |queries| ==> (x in answers[i] <==> InQuery(queries[i], complete, x))
  {
    var tree := new SetOpTree(complete);
    answers := [];
    for i := 0 to |queries|
      invariant fresh(tree) && tree.Settled() && tree.complete == complete && |answers| == i
      invariant forall k :: 0 <= k < i ==> answers[k] == Answer(queries[k], complete)
    {
      var answer := tree.Update(queries[i]);
      UpdateAnswers(queries[i], tree.rootNode, answer, complete);
      answers := answers + [answer];
    }
    forall i | 0 <= i < |queries| ensures forall x :: x in answers[i] <==> InQuery(queries[i], complete, x) {
      AnswerItems(queries[i], complete);
    }
  }

  lemma UpdateAnswers(query: string, evaluated: Option<Node>, answer: Items, complete: Completer)
    requires SameRoot(ParsedAs(query), evaluated)
    requires forall kind, anyCase :: NarrowKind(kind) ==> Narrowing(complete, kind, anyCase)
    requires Unquoted(T.QueryTokens(query))
    requires evaluated.None? ==> answer == {}
    ensures evaluated.Some? ==> AllNarrowing(evaluated.value, complete)
    ensures evaluated.Some? && answer == Value(evaluated.value, complete) ==> answer == Answer(query, complete)
    ensures evaluated.None? ==> answer == Answer(query, complete)
  {
    if evaluated.Some? {
      SameTreeSameValue(ParsedAs(query).value, evaluated.value, complete);
      UnquotedTree(T.QueryTokens(query));
    }
  }

  // ---- where updates go wrong ---------------------------------------------------------------

  /** After a quoted word that is extended the update may find less than a fresh evaluation. */
  lemma ExtendedWord(fold: char -> char)
    requires fold('a') == 'a' && fold('b') == 'b'
    ensures var d := Dictionary(["ab"], fold);
            var was := Operation(Op.Intersect, Complete(Lookup("a", Exact, true), Some({})),
                                 Complete(Lookup("b", Substring, true), Some({0})), Some({}));
            var n := Operation(Op.Intersect, Complete(Lookup("ab", Exact, true), None),
                               Complete(Lookup("b", Substring, true), None), None);
            AllKept(was) && RightWhereKept(was, d) && Unevaluated(n)
            && Value(n, d) == {0} && !NarrowedRightly(n, was, d)
  {
    var d := Dictionary(["ab"], fold);
    assert Folded("a", fold) == "a" && Folded("b", fold) == "b" && Folded("ab", fold) == "ab";
    assert "ab"[1..] == "b" && "b" <= "ab"[1..];
    assert d(Lookup("a", Exact, true)) == {};
    assert d(Lookup("b", Substring, true)) == {0};
    assert d(Lookup("ab", Exact, true)) == {0};
  }

  /** A tree that was built but not completed leaves empty completions behind, which an update takes. */
  method BuiltThenUpdated(complete: Completer, query: string) returns (tree: SetOpTree, answer: Items)
    ensures tree.complete == complete && tree.Valid() && SameRoot(ParsedAs(query), tree.rootNode)
    ensures tree.rootNode.Some? && (exists look :: look in Lookups(tree.rootNode.value) && complete(look) != {})
            ==> !RightWhereKept(tree.rootNode.value, complete)
    ensures tree.rootNode.Some? && tree.rootNode.value.Complete?
            ==> (answer == Answer(query, complete) <==> complete(tree.rootNode.value.look) == {})
  {
    tree := new SetOpTree(complete);
    tree.BuildTree(query);
    ghost var built := tree.rootNode;
    answer := tree.Update(query);
    if built.Some? {
      SameTreeSameValue(built.value, tree.rootNode.value, complete);
    }
  }
}
