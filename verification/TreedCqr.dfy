/** The lazy query result, whose set operations are kept as flat expression trees. */
module TreedCqr {
  // The trees of all cells lie in one shared vector and are evaluated later.

  import opened CellAlgebra
  import opened FlatTree

  const NOTREE := 0xFFFFFFFF

  datatype CellDesc = CellDesc(fullMatch: bool, hasFetchedNode: bool, cellId: CellId, pmIdxId: IdxId,
                               treeBegin: nat, treeEnd: nat)
  {
    function TreeSize(): int { treeEnd - treeBegin }
    predicate HasTree() { TreeSize() != 0 }
  }

  function PlainDesc(fullMatch: bool, cellId: CellId, pmIdxId: IdxId): CellDesc {
    CellDesc(fullMatch, false, cellId, pmIdxId, NOTREE, NOTREE)
  }

  /** The three vectors of a lazy result. */
  datatype Plan = Plan(desc: seq<CellDesc>, trees: seq<FlatNode>, fetched: seq<ItemIndex>)

  ghost predicate TreeRangeOk(p: Plan, d: CellDesc) {
    d.treeBegin < d.treeEnd <= |p.trees|
  }

  ghost function TreeOf(p: Plan, d: CellDesc): seq<FlatNode> {
    if TreeRangeOk(p, d) then p.trees[d.treeBegin..d.treeEnd] else []
  }

  ghost predicate NoFetchedLeaf(t: seq<FlatNode>) {
    forall k :: 0 <= k < |t| ==> !t[k].FetchedLeaf?
  }

  ghost predicate DescOk(st: CellStore, p: Plan, d: CellDesc) {
    && d.cellId < |st.cellPtr|
    && if d.HasTree() then
         && !d.fullMatch
         && TreeRangeOk(p, d)
         && WellFormed(st, p.trees[d.treeBegin..d.treeEnd], p.fetched, d.cellId)
         && !p.trees[d.treeBegin].FmLeaf?
         && (d.hasFetchedNode || NoFetchedLeaf(p.trees[d.treeBegin..d.treeEnd]))
       else d.fullMatch || st.PartialOk(d.pmIdxId, d.cellId)
  }

  /** Cell ids ascend strictly; tree ranges are disjoint and ascend in descriptor order. */
  ghost predicate PlanOk(st: CellStore, p: Plan) {
    && (forall i {:trigger DescOk(st, p, p.desc[i])} :: 0 <= i < |p.desc| ==> DescOk(st, p, p.desc[i]))
    && (forall i, j :: 0 <= i < j < |p.desc| ==> p.desc[i].cellId < p.desc[j].cellId)
    && (forall i, j :: 0 <= i < j < |p.desc| && p.desc[i].HasTree() && p.desc[j].HasTree()
                       ==> p.desc[i].treeEnd <= p.desc[j].treeBegin)
  }

  ghost function DescItems(st: CellStore, p: Plan, d: CellDesc): ItemIndex {
    if d.HasTree() then
      if TreeRangeOk(p, d) then Eval(st, p.trees[d.treeBegin..d.treeEnd], p.fetched, d.cellId) else {}
    else if d.fullMatch then st.Full(d.cellId)
    else st.At(d.pmIdxId)
  }

  ghost function CellOf(st: CellStore, p: Plan, d: CellDesc): Cell {
    Cell(d.cellId, DescItems(st, p, d))
  }

  ghost function CellsOf(st: CellStore, p: Plan): (r: seq<Cell>)
    ensures |r| == |p.desc|
  {
    seq(|p.desc|, i requires 0 <= i < |p.desc| => CellOf(st, p, p.desc[i]))
  }

  lemma CellsSorted(st: CellStore, p: Plan)
    requires PlanOk(st, p)
    ensures Sorted(CellsOf(st, p))
  {
  }

  lemma DescInCell(st: CellStore, p: Plan, d: CellDesc)
    requires DescOk(st, p, d)
    ensures DescItems(st, p, d) <= st.Full(d.cellId)
  {
    if d.HasTree() {
      EvalInCell(st, p.trees[d.treeBegin..d.treeEnd], p.fetched, d.cellId);
    }
  }

  /** The tree of d begins with a widening node. */
  ghost predicate RootWidens(p: Plan, d: CellDesc) {
    d.HasTree() && TreeRangeOk(p, d) && p.trees[d.treeBegin].ToFm?
  }

  ghost predicate NoRootWidens(p: Plan) {
    forall i {:trigger p.desc[i]} :: 0 <= i < |p.desc| ==> !RootWidens(p, p.desc[i])
  }

  /** p2 has p's vectors as prefixes. */
  ghost predicate Extends(p: Plan, p2: Plan) {
    p.desc <= p2.desc && p.trees <= p2.trees && p.fetched <= p2.fetched
  }

  lemma ExtendKeepsDesc(st: CellStore, p: Plan, p2: Plan, d: CellDesc)
    requires DescOk(st, p, d) && p.trees <= p2.trees && p.fetched <= p2.fetched
    ensures DescOk(st, p2, d) && CellOf(st, p2, d) == CellOf(st, p, d)
    ensures RootWidens(p2, d) <==> RootWidens(p, d)
  {
    if d.HasTree() {
      assert p2.trees[d.treeBegin..d.treeEnd] == p.trees[d.treeBegin..d.treeEnd];
      GrowFetched(st, p.trees[d.treeBegin..d.treeEnd], p.fetched, p2.fetched, d.cellId);
    }
  }

  /** Appending one descriptor whose tree, if any, lies behind all earlier trees. */
  lemma PushKeepsPlan(st: CellStore, p: Plan, p2: Plan, d: CellDesc)
    requires PlanOk(st, p) && Extends(p, p2) && p2.desc == p.desc + [d] && DescOk(st, p2, d)
    requires forall i :: 0 <= i < |p.desc| ==> p.desc[i].cellId < d.cellId
    requires d.HasTree() ==> |p.trees| <= d.treeBegin
    ensures PlanOk(st, p2)
    ensures CellsOf(st, p2) == CellsOf(st, p) + [CellOf(st, p2, d)]
    ensures NoRootWidens(p) && !RootWidens(p2, d) ==> NoRootWidens(p2)
  {
    forall i | 0 <= i < |p.desc|
      ensures DescOk(st, p2, p2.desc[i]) && CellOf(st, p2, p2.desc[i]) == CellOf(st, p, p.desc[i])
      ensures p.desc[i].HasTree() ==> TreeRangeOk(p, p.desc[i])
    {
      assert DescOk(st, p, p.desc[i]);
      ExtendKeepsDesc(st, p, p2, p.desc[i]);
    }
  }

  /** A renumbered copy of a cell's tree stands for the same set. */
  lemma CopiedTree(st: CellStore, p: Plan, d: CellDesc, t: seq<FlatNode>, f: seq<ItemIndex>)
    requires DescOk(st, p, d) && d.HasTree()
    requires Renumbered(p.trees[d.treeBegin..d.treeEnd], p.fetched, t, f)
    ensures WellFormed(st, t, f, d.cellId)
    ensures Eval(st, t, f, d.cellId) == DescItems(st, p, d)
    ensures d.hasFetchedNode || NoFetchedLeaf(t)
  {
    var s := p.trees[d.treeBegin..d.treeEnd];
    RenumberKeepsTree(st, s, p.fetched, t, f, d.cellId);
    if !d.hasFetchedNode {
      forall k | 0 <= k < |t| ensures !t[k].FetchedLeaf? {
        assert SameNode(s[k], p.fetched, t[k], f);
      }
    }
  }

  lemma CopiedRoot(p: Plan, d: CellDesc, t: seq<FlatNode>, f: seq<ItemIndex>)
    requires TreeRangeOk(p, d) && Renumbered(p.trees[d.treeBegin..d.treeEnd], p.fetched, t, f)
    ensures t != [] && (t[0].ToFm? <==> p.trees[d.treeBegin].ToFm?) && (t[0].FmLeaf? <==> p.trees[d.treeBegin].FmLeaf?)
  {
    assert SameNode(p.trees[d.treeBegin..d.treeEnd][0], p.fetched, t[0], f);
  }

  /** A widening node in front of a copied tree. */
  lemma WidenedTree(st: CellStore, p: Plan, d: CellDesc, t: seq<FlatNode>, f: seq<ItemIndex>)
    requires DescOk(st, p, d) && d.HasTree()
    requires Renumbered(p.trees[d.treeBegin..d.treeEnd], p.fetched, t, f)
    ensures WellFormed(st, [ToFm] + t, f, d.cellId)
    ensures Eval(st, [ToFm] + t, f, d.cellId) == WidenItems(st, CellOf(st, p, d))
    ensures d.hasFetchedNode || NoFetchedLeaf([ToFm] + t)
  {
    CopiedTree(st, p, d, t, f);
    CopiedRoot(p, d, t, f);
    assert ([ToFm] + t)[1..] == t;
  }

  /** What follows the last node of s in t. */
  lemma BehindHead(s: seq<FlatNode>, n: nat, t: seq<FlatNode>)
    requires s <= t && |s| == n + 1
    ensures t[n] == s[n] && t[n..] == [s[n]] + t[n + 1..] && t[n + 1..] == t[|s|..] && s[..n] <= t
  {
  }

  /** Replacing the node behind s in t leaves s and what follows alone. */
  lemma HeadReplaced(s: seq<FlatNode>, x: FlatNode, t: seq<FlatNode>, y: FlatNode)
    requires s + [x] <= t
    ensures var n, t2 := |s|, t[|s| := y]; s < t2 && t2[n] == y && t2[n + 1..] == t[n + 1..] && t2[n + 1..] == t[|s + [x]|..]
  {
    assert (s + [x])[..|s|] == s;
  }

  /** An operator at position n of t, its left operand behind it, and the right operand appended
      in t2, together form one tree. */
  lemma JoinedTree(st: CellStore, op: SetOp, t: seq<FlatNode>, n: nat, f: seq<ItemIndex>,
                   t2: seq<FlatNode>, f2: seq<ItemIndex>, c: CellId)
    requires n < |t| && t[n] == OpNode(op, |t| - n) && WellFormed(st, t[n + 1..], f, c)
    requires t <= t2 && f <= f2 && WellFormed(st, t2[|t|..], f2, c)
    requires !(t[n + 1].FmLeaf? && t2[|t|].FmLeaf?)
    ensures WellFormed(st, t2[n..], f2, c)
    ensures Eval(st, t2[n..], f2, c)
            == Apply(op, Eval(st, t[n + 1..], f, c), Eval(st, t2[|t|..], f2, c))
    ensures NoFetchedLeaf(t[n + 1..]) && NoFetchedLeaf(t2[|t|..]) ==> NoFetchedLeaf(t2[n..])
  {
    var ta, tb := t[n + 1..], t2[|t|..];
    GrowFetched(st, ta, f, f2, c);
    assert t2[n..] == [OpNode(op, 1 + |ta|)] + ta + tb;
    assert t2[n..][1..1 + |ta|] == ta && t2[n..][1 + |ta|..] == tb;
  }

  /** d2 in p2 is the descriptor d of p with its tree, if any, moved back by `offset`, behind
      position `from`, and renumbered. */
  ghost predicate CopyOf(p: Plan, d: CellDesc, p2: Plan, d2: CellDesc, from: nat, offset: int) {
    if d.HasTree() then
      && d2 == d.(treeBegin := d2.treeBegin, treeEnd := d2.treeEnd)
      && d2.treeBegin == d.treeBegin - offset && d2.treeEnd == d.treeEnd - offset
      && from <= d2.treeBegin
      && TreeRangeOk(p, d) && TreeRangeOk(p2, d2)
      && Renumbered(p.trees[d.treeBegin..d.treeEnd], p.fetched, p2.trees[d2.treeBegin..d2.treeEnd], p2.fetched)
    else d2 == d
  }

  lemma CopyKept(p: Plan, d: CellDesc, p2: Plan, p3: Plan, d2: CellDesc, from: nat, offset: int)
    requires CopyOf(p, d, p2, d2, from, offset)
    requires d.HasTree() ==>
               && |p3.trees| == |p2.trees|
               && (forall x :: d2.treeBegin <= x < d2.treeEnd ==> p3.trees[x] == p2.trees[x])
    requires p2.fetched <= p3.fetched
    ensures CopyOf(p, d, p3, d2, from, offset)
  {
    if d.HasTree() {
      assert p3.trees[d2.treeBegin..d2.treeEnd] == p2.trees[d2.treeBegin..d2.treeEnd];
      var s, t := p.trees[d.treeBegin..d.treeEnd], p2.trees[d2.treeBegin..d2.treeEnd];
      assert forall k :: 0 <= k < |s| ==> SameNode(s[k], p.fetched, t[k], p2.fetched);
    }
  }

  /** The descriptors of q from i on stand in p from position n on; those before k have been moved
      to their place in p.trees, the others still have the ranges of q. */
  ghost predicate Shifting(q: Plan, i: nat, p: Plan, n: nat, k: nat, from: nat, offset: int) {
    && i <= |q.desc| && n <= k <= |p.desc| == n + |q.desc| - i && |p.trees| == |q.trees| - offset
    && (forall m :: k <= m < |p.desc| ==> p.desc[m] == q.desc[m - n + i])
    && (forall m :: n <= m < k ==> CopyOf(q, q.desc[m - n + i], p, p.desc[m], from, offset))
    && (forall m :: k <= m < |p.desc| && p.desc[m].HasTree() ==> TailAt(q, p, p.desc[m].treeBegin, from, offset))
  }

  /** The trees of q from `begin` on stand in p, `offset` positions earlier and not before `from`. */
  ghost predicate TailAt(q: Plan, p: Plan, begin: nat, from: nat, offset: int) {
    forall x {:trigger q.trees[x]} :: begin <= x < |q.trees| ==>
      from <= x - offset < |p.trees| && p.trees[x - offset] == q.trees[x]
  }

  /** Right after the block copy nothing has been moved yet. */
  lemma BlockCopied(st: CellStore, p: Plan, q: Plan, i: nat, p1: Plan, k: nat, offset: int)
    requires PlanOk(st, q) && i <= |q.desc| && p1.desc == p.desc + q.desc[i..]
    requires |p.desc| <= k < |p1.desc| && forall m :: |p.desc| <= m < k ==> !p1.desc[m].HasTree()
    requires p1.desc[k].HasTree() && offset == p1.desc[k].treeBegin - |p.trees|
    requires p1.desc[k].treeBegin <= |q.trees| && p1.trees == p.trees + q.trees[p1.desc[k].treeBegin..]
    ensures Shifting(q, i, p1, |p.desc|, k, |p.trees|, offset)
  {
    var n := |p.desc|;
    assert p1.desc[k] == q.desc[k - n + i];
    forall m | k <= m < |p1.desc| && p1.desc[m].HasTree()
      ensures p1.desc[k].treeBegin <= p1.desc[m].treeBegin
    {
      assert p1.desc[m] == q.desc[m - n + i];
      assert DescOk(st, q, p1.desc[k]);
    }
    assert forall x :: p1.desc[k].treeBegin <= x < |q.trees| ==> p1.trees[x - offset] == q.trees[x];
  }

  /** Moving descriptor k touches neither the trees already moved nor those still to be moved. */
  lemma ShiftingStep(st: CellStore, q: Plan, i: nat, p: Plan, p2: Plan, n: nat, k: nat, from: nat, offset: int)
    requires PlanOk(st, q) && Shifting(q, i, p, n, k, from, offset) && k < |p.desc|
    requires |p2.desc| == |p.desc| && forall m :: 0 <= m < |p.desc| && m != k ==> p2.desc[m] == p.desc[m]
    requires p.fetched <= p2.fetched && |p2.trees| == |p.trees|
    requires CopyOf(q, p.desc[k], p2, p2.desc[k], from, offset)
    requires forall x :: 0 <= x < |p.trees| ==>
               (p.desc[k].HasTree() && p2.desc[k].treeBegin <= x < p2.desc[k].treeEnd) || p2.trees[x] == p.trees[x]
    ensures Shifting(q, i, p2, n, k + 1, from, offset)
  {
    var d := q.desc[k - n + i];
    assert p.desc[k] == d && DescOk(st, q, d);
    forall m | n <= m < k + 1
      ensures CopyOf(q, q.desc[m - n + i], p2, p2.desc[m], from, offset)
    {
      if m < k {
        CopyKept(q, q.desc[m - n + i], p, p2, p.desc[m], from, offset);
      }
    }
    forall m | k + 1 <= m < |p2.desc| ensures p2.desc[m] == q.desc[m - n + i] {
      assert p2.desc[m] == p.desc[m];
    }
    forall m | k + 1 <= m < |p2.desc| && p2.desc[m].HasTree()
      ensures TailAt(q, p2, p2.desc[m].treeBegin, from, offset)
    {
      assert p.desc[m] == q.desc[m - n + i] && DescOk(st, q, q.desc[m - n + i]);
      assert d.HasTree() ==> d.treeEnd <= p.desc[m].treeBegin;
      assert TailAt(q, p, p.desc[m].treeBegin, from, offset);
    }
  }

  /** A copied descriptor keeps its cell. */
  lemma CopyKeepsCell(st: CellStore, p: Plan, d: CellDesc, p2: Plan, d2: CellDesc, from: nat, offset: int)
    requires DescOk(st, p, d) && CopyOf(p, d, p2, d2, from, offset)
    ensures DescOk(st, p2, d2) && CellOf(st, p2, d2) == CellOf(st, p, d)
    ensures RootWidens(p2, d2) <==> RootWidens(p, d)
  {
    if d.HasTree() {
      CopiedTree(st, p, d, p2.trees[d2.treeBegin..d2.treeEnd], p2.fetched);
      CopiedRoot(p, d, p2.trees[d2.treeBegin..d2.treeEnd], p2.fetched);
    }
  }

  /** Appending shifted copies of the descriptors of q from i on to p gives the cells of both. */
  lemma RestKeepsPlan(st: CellStore, p: Plan, q: Plan, i: nat, p2: Plan, offset: int)
    requires PlanOk(st, p) && PlanOk(st, q) && i <= |q.desc|
    requires Extends(p, p2) && |p2.desc| == |p.desc| + |q.desc| - i
    requires forall k :: |p.desc| <= k < |p2.desc| ==>
               CopyOf(q, q.desc[k - |p.desc| + i], p2, p2.desc[k], |p.trees|, offset)
    requires i < |q.desc| ==> forall k :: 0 <= k < |p.desc| ==> p.desc[k].cellId < q.desc[i].cellId
    ensures PlanOk(st, p2)
    ensures CellsOf(st, p2) == CellsOf(st, p) + CellsOf(st, q)[i..]
    ensures NoRootWidens(p) && NoRootWidens(q) ==> NoRootWidens(p2)
  {
    var n := |p.desc|;
    forall k | 0 <= k < n
      ensures DescOk(st, p2, p2.desc[k]) && CellOf(st, p2, p2.desc[k]) == CellOf(st, p, p.desc[k])
      ensures RootWidens(p2, p2.desc[k]) <==> RootWidens(p, p.desc[k])
    {
      ExtendKeepsDesc(st, p, p2, p.desc[k]);
    }
    forall k | n <= k < |p2.desc|
      ensures DescOk(st, p2, p2.desc[k]) && CellOf(st, p2, p2.desc[k]) == CellOf(st, q, q.desc[k - n + i])
      ensures RootWidens(p2, p2.desc[k]) <==> RootWidens(q, q.desc[k - n + i])
    {
      CopyKeepsCell(st, q, q.desc[k - n + i], p2, p2.desc[k], |p.trees|, offset);
    }
    assert NoRootWidens(p) && NoRootWidens(q) ==> NoRootWidens(p2) by {
      assert forall k :: n <= k < |p2.desc| ==> RootWidens(p2, p2.desc[k]) == RootWidens(q, q.desc[k - n + i]);
    }
    RestOrder(st, p, q, i, p2, offset);
  }

  lemma RestOrder(st: CellStore, p: Plan, q: Plan, i: nat, p2: Plan, offset: int)
    requires PlanOk(st, p) && PlanOk(st, q) && i <= |q.desc|
    requires Extends(p, p2) && |p2.desc| == |p.desc| + |q.desc| - i
    requires forall k :: |p.desc| <= k < |p2.desc| ==>
               CopyOf(q, q.desc[k - |p.desc| + i], p2, p2.desc[k], |p.trees|, offset)
    requires i < |q.desc| ==> forall k :: 0 <= k < |p.desc| ==> p.desc[k].cellId < q.desc[i].cellId
    ensures forall a, b :: 0 <= a < b < |p2.desc| ==> p2.desc[a].cellId < p2.desc[b].cellId
    ensures forall a, b :: 0 <= a < b < |p2.desc| && p2.desc[a].HasTree() && p2.desc[b].HasTree() ==>
              p2.desc[a].treeEnd <= p2.desc[b].treeBegin
  {
    var n := |p.desc|;
    forall a, b | 0 <= a < b < |p2.desc|
      ensures p2.desc[a].cellId < p2.desc[b].cellId
      ensures p2.desc[a].HasTree() && p2.desc[b].HasTree() ==> p2.desc[a].treeEnd <= p2.desc[b].treeBegin
    {
      if n <= b {
        assert CopyOf(q, q.desc[b - n + i], p2, p2.desc[b], |p.trees|, offset);
        if n <= a {
          assert CopyOf(q, q.desc[a - n + i], p2, p2.desc[a], |p.trees|, offset);
        } else {
          assert DescOk(st, p, p.desc[a]);
        }
      }
    }
  }

  /** The next cell of d, if any, comes after everything in rd. */
  ghost predicate Before(rd: seq<CellDesc>, d: seq<CellDesc>, i: nat) {
    i < |d| ==> forall k :: 0 <= k < |rd| ==> rd[k].cellId < d[i].cellId
  }

  lemma SubRange<T>(s: seq<T>, n: nat, end: nat, a: nat, b: nat)
    requires n <= end <= |s| && a <= b <= end - n
    ensures s[n..end][a..b] == s[n + a..n + b]
  {
    forall k | 0 <= k < b - a ensures s[n..end][a..b][k] == s[n + a..n + b][k] {
      assert s[n..end][a + k] == s[n + a + k];
    }
  }

  /** Flattening an operator node: the ranges of its operands, given by `childB`, and what they flatten to. */
  lemma FlattenOp(st: CellStore, trees: seq<FlatNode>, n: nat, end: nat, f: seq<ItemIndex>, c: CellId, idx0: ItemIndex)
    returns (a: Outcome, b: Outcome)
    requires n < end <= |trees| && trees[n].OpNode? && WellFormed(st, trees[n..end], f, c)
    ensures n + 1 < n + trees[n].childB < end
    ensures Flattens(st, trees, n + 1, n + trees[n].childB, f, c, a, {}, FetchedItems(a))
    ensures Flattens(st, trees, n + trees[n].childB, end, f, c, b, {}, FetchedItems(b))
    ensures var o := CombineOutcomes(st, trees[n].op, a, b, c);
            Flattens(st, trees, n, end, f, c, o, idx0, if Decided(trees[n].op, a, b) then idx0 else FetchedItems(o))
  {
    var t, childB := trees[n..end], trees[n].childB;
    SubRange(trees, n, end, 1, childB);
    SubRange(trees, n, end, childB, end - n);
    assert t[childB..] == t[childB..end - n];
    FreshIdx(st, t[1..childB], f, c);
    FreshIdx(st, t[childB..], f, c);
    a, b := Flatten(st, t[1..childB], f, c), Flatten(st, t[childB..], f, c);
  }

  /** The tree in the range flattens to o and turns the index variable from idx0 to idx. */
  ghost predicate Flattens(st: CellStore, trees: seq<FlatNode>, n: nat, end: nat, f: seq<ItemIndex>, c: CellId,
                           o: Outcome, idx0: ItemIndex, idx: ItemIndex) {
    && n < end <= |trees| && WellFormed(st, trees[n..end], f, c)
    && o == Flatten(st, trees[n..end], f, c) && idx == IdxAfter(st, trees[n..end], f, c, idx0)
  }

  /** Flattening a node that widens the tree behind it. */
  lemma FlattenToFm(st: CellStore, trees: seq<FlatNode>, n: nat, end: nat, f: seq<ItemIndex>, c: CellId, idx0: ItemIndex)
    requires n < end <= |trees| && trees[n].ToFm? && WellFormed(st, trees[n..end], f, c)
    ensures n + 1 < end && WellFormed(st, trees[n + 1..end], f, c)
    ensures var a := Flatten(st, trees[n + 1..end], f, c);
            && Flatten(st, trees[n..end], f, c) == WidenOutcome(a)
            && IdxAfter(st, trees[n..end], f, c, idx0) == idx0
            && IdxAfter(st, trees[n + 1..end], f, c, {}) == FetchedItems(a)
  {
    assert trees[n..end][1..] == trees[n + 1..end];
    FreshIdx(st, trees[n + 1..end], f, c);
  }

  /** Flattening a leaf. */
  lemma FlattenLeaf(st: CellStore, trees: seq<FlatNode>, n: nat, end: nat, f: seq<ItemIndex>, c: CellId, idx0: ItemIndex)
    requires n < end <= |trees| && WellFormed(st, trees[n..end], f, c)
    ensures match trees[n]
            case PmLeaf(id) => Flatten(st, trees[n..end], f, c) == Pm(id) && IdxAfter(st, trees[n..end], f, c, idx0) == idx0
            case FmLeaf => Flatten(st, trees[n..end], f, c) == Fm && IdxAfter(st, trees[n..end], f, c, idx0) == idx0
            case FetchedLeaf(k) =>
              k < |f| && Flatten(st, trees[n..end], f, c) == Fetched(f[k]) && IdxAfter(st, trees[n..end], f, c, idx0) == f[k]
            case _ => true
  {
  }

  datatype FlattenResultType = FT_PM | FT_FM | FT_FETCHED | FT_EMPTY

  ghost predicate Reports(frt: FlattenResultType, pmIdxId: IdxId, o: Outcome) {
    match o
    case Pm(id) => frt == FT_PM && pmIdxId == id
    case Fm => frt == FT_FM
    case Fetched(_) => frt == FT_FETCHED
    case Empty => frt == FT_EMPTY
  }

  class TreedCqr {
    const store: CellStore
    var desc: seq<CellDesc>
    var trees: seq<FlatNode>
    var fetchedIdx: seq<ItemIndex>

    ghost function Vectors(): Plan reads this {
      Plan(desc, trees, fetchedIdx)
    }

    ghost predicate Valid() reads this {
      PlanOk(store, Vectors())
    }

    ghost predicate Unwidened() reads this {
      NoRootWidens(Vectors())
    }

    ghost function Cells(): seq<Cell> reads this {
      CellsOf(store, Vectors())
    }

    /** The cell result this plan stands for. */
    ghost function Result(): map<CellId, ItemIndex> reads this {
      Meaning(Cells())
    }

    constructor (store: CellStore)
      ensures this.store == store && desc == [] && trees == [] && fetchedIdx == []
      ensures Valid() && Cells() == [] && Unwidened()
    {
      this.store := store;
      desc, trees, fetchedIdx := [], [], [];
    }

    /** Merges full matches with partial matches whose indices are given: each of these becomes a tree
        of one fetched leaf. */
    constructor FromMatches(store: CellStore, fm: seq<CellId>, pm: seq<CellId>, items: seq<ItemIndex>)
      requires MatchesOk(store, fm, pm, items)
      ensures this.store == store && Valid()
      ensures Result() == MatchResult(store, fm, pm, items) && Unwidened()
    {
      this.store := store;
      desc, trees, fetchedIdx := [], [], [];
      new;
      StartMerge(SetOp.Unite, FullCells(store, fm), PartialCells(pm, items));
      var f, p := 0, 0;
      while f < |fm| || p < |pm|
        invariant f <= |fm| && p <= |pm| && MatchLoop(fm, pm, items, f, p) && Unwidened()
        decreases |fm| - f + |pm| - p
      {
        f, p := MatchStep(fm, pm, items, f, p);
      }
      FinishMerge(SetOp.Unite, FullCells(store, fm), PartialCells(pm, items), f, p, Cells(), Cells());
    }

    ghost predicate MatchLoop(fm: seq<CellId>, pm: seq<CellId>, items: seq<ItemIndex>, f: nat, p: nat)
      requires |items| == |pm|
      reads this
    {
      && Valid()
      && MatchesAhead(Cells(), fm, pm, f, p)
      && Merging(SetOp.Unite, FullCells(store, fm), PartialCells(pm, items), f, p, Cells())
    }

    method MatchStep(fm: seq<CellId>, pm: seq<CellId>, items: seq<ItemIndex>, f: nat, p: nat)
      returns (fmIt: nat, pmIt: nat)
      requires MatchesOk(store, fm, pm, items) && (f < |fm| || p < |pm|) && MatchLoop(fm, pm, items, f, p)
      modifies this
      ensures f <= fmIt <= |fm| && p <= pmIt <= |pm| && f + p < fmIt + pmIt
      ensures MatchLoop(fm, pm, items, fmIt, pmIt) && (old(Unwidened()) ==> Unwidened())
    {
      fmIt, pmIt := f, p;
      if p == |pm| || (f < |fm| && fm[f] <= pm[p]) {
        fmIt := f + 1;
        if p < |pm| && fm[f] == pm[p] {
          pmIt := p + 1;
        }
        MatchFull(fm, pm, items, f, p, pmIt);
      } else {
        MatchPartial(fm, pm, items, f, p);
        pmIt := p + 1;
      }
    }

    /** The next full match; a partial match of the same cell is passed over. */
    method MatchFull(fm: seq<CellId>, pm: seq<CellId>, items: seq<ItemIndex>, f: nat, p: nat, pmIt: nat)
      requires MatchesOk(store, fm, pm, items) && MatchLoop(fm, pm, items, f, p) && p <= |pm|
      requires f < |fm| && (p < |pm| ==> fm[f] <= pm[p])
      requires pmIt == if p < |pm| && fm[f] == pm[p] then p + 1 else p
      modifies this
      ensures MatchLoop(fm, pm, items, f + 1, pmIt) && (old(Unwidened()) ==> Unwidened())
    {
      ghost var out := Cells();
      assert forall k :: 0 <= k < |desc| ==> desc[k].cellId == out[k].id;
      PushFull(fm[f], this);
      StillAhead(out, Cells(), fm, pm, f, p, f + 1, pmIt);
      TakeFull(store, fm, pm, items, f, p, out, Cells());
    }

    /** The next partial match. */
    method MatchPartial(fm: seq<CellId>, pm: seq<CellId>, items: seq<ItemIndex>, f: nat, p: nat)
      requires MatchesOk(store, fm, pm, items) && MatchLoop(fm, pm, items, f, p) && f <= |fm|
      requires p < |pm| && (f < |fm| ==> pm[p] < fm[f])
      modifies this
      ensures MatchLoop(fm, pm, items, f, p + 1) && (old(Unwidened()) ==> Unwidened())
    {
      ghost var out := Cells();
      assert forall k :: 0 <= k < |desc| ==> desc[k].cellId == out[k].id;
      PushFetched(pm[p], items[p], this);
      StillAhead(out, Cells(), fm, pm, f, p, f, p + 1);
      TakePartial(store, fm, pm, items, f, p, out, Cells());
    }

    /** Appends a cell whose items are known. */
    static method PushFetched(c: CellId, items: ItemIndex, r: TreedCqr)
      requires r.Valid() && c < |r.store.cellPtr| && IndexOk(r.store, items, c)
      requires forall k :: 0 <= k < |r.desc| ==> r.desc[k].cellId < c
      modifies r
      ensures r.Valid() && Extends(old(r.Vectors()), r.Vectors()) && |r.desc| == |old(r.desc)| + 1
      ensures r.desc[|old(r.desc)|].cellId == c
      ensures r.Cells() == old(r.Cells()) + [Cell(c, items)]
      ensures old(r.Unwidened()) ==> r.Unwidened()
    {
      ghost var p := r.Vectors();
      var treeBegin := |r.trees|;
      r.trees := r.trees + [FetchedLeaf(|r.fetchedIdx|)];
      r.fetchedIdx := r.fetchedIdx + [items];
      var d := CellDesc(false, true, c, 0, treeBegin, |r.trees|);
      r.desc := r.desc + [d];
      assert r.trees[treeBegin..|r.trees|] == [FetchedLeaf(|p.fetched|)];
      PushKeepsPlan(r.store, p, r.Vectors(), d);
    }

    /** Gives the fetched leaves in destCD's range their own entries in dest; before the call
        they name entries of src. */
    static method CopyFetchedIndices(src: TreedCqr, dest: TreedCqr, destCD: CellDesc)
      requires src != dest
      requires destCD.treeBegin <= destCD.treeEnd <= |dest.trees|
      requires var t := dest.trees[destCD.treeBegin..destCD.treeEnd];
               && (forall k :: 0 <= k < |t| && t[k].FetchedLeaf? ==> t[k].internalIdxId < |src.fetchedIdx|)
               && (destCD.hasFetchedNode || NoFetchedLeaf(t))
      modifies dest`trees, dest`fetchedIdx
      ensures |dest.trees| == |old(dest.trees)| && old(dest.fetchedIdx) <= dest.fetchedIdx
      ensures forall k :: 0 <= k < |dest.trees| && !(destCD.treeBegin <= k < destCD.treeEnd) ==>
                dest.trees[k] == old(dest.trees)[k]
      ensures Renumbered(old(dest.trees)[destCD.treeBegin..destCD.treeEnd], src.fetchedIdx,
                         dest.trees[destCD.treeBegin..destCD.treeEnd], dest.fetchedIdx)
    {
      ghost var t0, f0 := dest.trees, dest.fetchedIdx;
      ghost var t := t0[destCD.treeBegin..destCD.treeEnd];
      assert forall k :: 0 <= k < |t| ==> t0[destCD.treeBegin + k] == t[k];
      if !destCD.hasFetchedNode {
        return;
      }
      for i := destCD.treeBegin to destCD.treeEnd
        invariant |dest.trees| == |t0| && f0 <= dest.fetchedIdx
        invariant forall k :: 0 <= k < |t0| && !(destCD.treeBegin <= k < i) ==> dest.trees[k] == t0[k]
        invariant forall k :: 0 <= k < i - destCD.treeBegin ==>
                    SameNode(t[k], src.fetchedIdx, dest.trees[destCD.treeBegin + k], dest.fetchedIdx)
      {
        var n := dest.trees[i];
        assert n == t[i - destCD.treeBegin];
        if n.FetchedLeaf? {
          dest.trees := dest.trees[i := FetchedLeaf(|dest.fetchedIdx|)];
          dest.fetchedIdx := dest.fetchedIdx + [src.fetchedIdx[n.internalIdxId]];
        }
      }
    }

    /** Copies the tree of cd behind dest's trees and moves its fetched indices along. */
    static method CopyTree(src: TreedCqr, cd: CellDesc, dest: TreedCqr)
      requires src != dest && src.store == dest.store
      requires DescOk(src.store, src.Vectors(), cd) && cd.HasTree()
      modifies dest`trees, dest`fetchedIdx
      ensures old(dest.trees) <= dest.trees && old(dest.fetchedIdx) <= dest.fetchedIdx
      ensures |dest.trees| == |old(dest.trees)| + cd.treeEnd - cd.treeBegin
      ensures Renumbered(src.trees[cd.treeBegin..cd.treeEnd], src.fetchedIdx,
                         dest.trees[|old(dest.trees)|..], dest.fetchedIdx)
    {
      var dTreeBegin := |dest.trees|;
      ghost var t := src.trees[cd.treeBegin..cd.treeEnd];
      LeavesInRange(src.store, t, src.fetchedIdx, cd.cellId);
      dest.trees := dest.trees + src.trees[cd.treeBegin..cd.treeEnd];
      assert dest.trees[dTreeBegin..|dest.trees|] == t;
      CopyFetchedIndices(src, dest, cd.(treeBegin := dTreeBegin, treeEnd := |dest.trees|));
      assert dest.trees[dTreeBegin..] == dest.trees[dTreeBegin..|dest.trees|];
    }

    /** Appends the operand of an operator node: a copy of the cell's tree, or one leaf. */
    static method AppendOperand(src: TreedCqr, cd: CellDesc, r: TreedCqr)
      requires src != r && src.store == r.store
      requires DescOk(src.store, src.Vectors(), cd)
      modifies r`trees, r`fetchedIdx
      ensures old(r.trees) <= r.trees && old(r.fetchedIdx) <= r.fetchedIdx
      ensures |r.trees| - |old(r.trees)| == if cd.HasTree() then cd.TreeSize() else 1
      ensures WellFormed(r.store, r.trees[|old(r.trees)|..], r.fetchedIdx, cd.cellId)
      ensures Eval(r.store, r.trees[|old(r.trees)|..], r.fetchedIdx, cd.cellId)
              == DescItems(src.store, src.Vectors(), cd)
      ensures cd.hasFetchedNode || NoFetchedLeaf(r.trees[|old(r.trees)|..])
      ensures r.trees[|old(r.trees)|].FmLeaf? ==> cd.fullMatch
    {
      ghost var n := |r.trees|;
      if cd.HasTree() {
        CopyTree(src, cd, r);
        CopiedTree(src.store, src.Vectors(), cd, r.trees[n..], r.fetchedIdx);
      } else if cd.fullMatch {
        r.trees := r.trees + [FmLeaf];
        assert r.trees[n..] == [FmLeaf];
      } else {
        r.trees := r.trees + [PmLeaf(cd.pmIdxId)];
        assert r.trees[n..] == [PmLeaf(cd.pmIdxId)];
      }
    }

    /** Appends an operator and its left operand, then notes the distance to the right operand. */
    static method AppendOpHead(op: SetOp, a: TreedCqr, aCD: CellDesc, r: TreedCqr)
      requires a != r && a.store == r.store
      requires DescOk(a.store, a.Vectors(), aCD)
      modifies r`trees, r`fetchedIdx
      ensures old(r.trees) < r.trees && old(r.fetchedIdx) <= r.fetchedIdx
      ensures r.trees[|old(r.trees)|] == OpNode(op, |r.trees| - |old(r.trees)|)
      ensures WellFormed(r.store, r.trees[|old(r.trees)| + 1..], r.fetchedIdx, aCD.cellId)
      ensures Eval(r.store, r.trees[|old(r.trees)| + 1..], r.fetchedIdx, aCD.cellId)
              == DescItems(a.store, a.Vectors(), aCD)
      ensures aCD.hasFetchedNode || NoFetchedLeaf(r.trees[|old(r.trees)| + 1..])
      ensures r.trees[|old(r.trees)| + 1].FmLeaf? ==> aCD.fullMatch
    {
      var treeBegin := |r.trees|;
      ghost var before := r.trees;
      r.trees := r.trees + [OpNode(op, 0)];
      AppendOperand(a, aCD, r);
      var head := OpNode(op, if aCD.HasTree() then 1 + aCD.TreeSize() else 2);
      HeadReplaced(before, OpNode(op, 0), r.trees, head);
      r.trees := r.trees[treeBegin := head];
    }

    /** Appends the tree of an operation on a cell of a and the same cell of b. */
    static method AppendOpTree(op: SetOp, a: TreedCqr, aCD: CellDesc, b: TreedCqr, bCD: CellDesc, r: TreedCqr)
      requires a != r && b != r && a.store == b.store == r.store
      requires DescOk(a.store, a.Vectors(), aCD) && DescOk(b.store, b.Vectors(), bCD)
      requires aCD.cellId == bCD.cellId && !(aCD.fullMatch && bCD.fullMatch)
      modifies r`trees, r`fetchedIdx
      ensures old(r.trees) <= r.trees && old(r.fetchedIdx) <= r.fetchedIdx
      ensures WellFormed(r.store, r.trees[|old(r.trees)|..], r.fetchedIdx, aCD.cellId)
      ensures Eval(r.store, r.trees[|old(r.trees)|..], r.fetchedIdx, aCD.cellId)
              == Apply(op, DescItems(a.store, a.Vectors(), aCD), DescItems(b.store, b.Vectors(), bCD))
      ensures aCD.hasFetchedNode || bCD.hasFetchedNode || NoFetchedLeaf(r.trees[|old(r.trees)|..])
      ensures |old(r.trees)| < |r.trees| && r.trees[|old(r.trees)|].OpNode?
    {
      ghost var n := |r.trees|;
      AppendOpHead(op, a, aCD, r);
      ghost var t, f := r.trees, r.fetchedIdx;
      AppendOperand(b, bCD, r);
      JoinedTree(r.store, op, t, n, f, r.trees, r.fetchedIdx, aCD.cellId);
    }

    /** Appends a cell that is the operation of a cell of a and the same cell of b. */
    static method PushOp(op: SetOp, a: TreedCqr, aCD: CellDesc, b: TreedCqr, bCD: CellDesc, r: TreedCqr)
      requires a != r && b != r && a.store == b.store == r.store
      requires DescOk(a.store, a.Vectors(), aCD) && DescOk(b.store, b.Vectors(), bCD)
      requires aCD.cellId == bCD.cellId && !(aCD.fullMatch && bCD.fullMatch)
      requires r.Valid() && forall i :: 0 <= i < |r.desc| ==> r.desc[i].cellId < aCD.cellId
      modifies r
      ensures r.Valid() && Extends(old(r.Vectors()), r.Vectors()) && |r.desc| == |old(r.desc)| + 1
      ensures r.desc[|old(r.desc)|].cellId == aCD.cellId
      ensures r.Cells() == old(r.Cells()) + [Cell(aCD.cellId,
        Apply(op, DescItems(a.store, a.Vectors(), aCD), DescItems(b.store, b.Vectors(), bCD)))]
      ensures old(r.Unwidened()) ==> r.Unwidened()
    {
      ghost var p := r.Vectors();
      var treeBegin := |r.trees|;
      AppendOpTree(op, a, aCD, b, bCD, r);
      var d := CellDesc(false, aCD.hasFetchedNode || bCD.hasFetchedNode, aCD.cellId, 0, treeBegin, |r.trees|);
      r.desc := r.desc + [d];
      assert r.trees[treeBegin..|r.trees|] == r.trees[treeBegin..];
      PushKeepsPlan(r.store, p, r.Vectors(), d);
    }

    /** Appends a copy of one cell of src. */
    static method PushCell(src: TreedCqr, cd: CellDesc, r: TreedCqr)
      requires src != r && src.store == r.store
      requires DescOk(src.store, src.Vectors(), cd)
      requires r.Valid() && forall i :: 0 <= i < |r.desc| ==> r.desc[i].cellId < cd.cellId
      modifies r
      ensures r.Valid() && Extends(old(r.Vectors()), r.Vectors()) && |r.desc| == |old(r.desc)| + 1
      ensures r.desc[|old(r.desc)|].cellId == cd.cellId
      ensures r.Cells() == old(r.Cells()) + [CellOf(src.store, src.Vectors(), cd)]
      ensures old(r.Unwidened()) && !RootWidens(src.Vectors(), cd) ==> r.Unwidened()
    {
      ghost var p := r.Vectors();
      var d := cd;
      if cd.HasTree() {
        var treeBegin := |r.trees|;
        CopyTree(src, cd, r);
        d := cd.(treeBegin := treeBegin, treeEnd := |r.trees|);
        assert r.trees[treeBegin..|r.trees|] == r.trees[treeBegin..];
        CopiedTree(src.store, src.Vectors(), cd, r.trees[treeBegin..], r.fetchedIdx);
        CopiedRoot(src.Vectors(), cd, r.trees[treeBegin..], r.fetchedIdx);
      }
      r.desc := r.desc + [d];
      PushKeepsPlan(r.store, p, r.Vectors(), d);
    }

    /** Appends the cells of src from position i on. */
    static method AppendRest(src: TreedCqr, i: nat, r: TreedCqr)
      requires src != r && src.store == r.store && src.Valid() && r.Valid()
      requires i <= |src.desc|
      requires i < |src.desc| ==> forall k :: 0 <= k < |r.desc| ==> r.desc[k].cellId < src.desc[i].cellId
      modifies r
      ensures r.Valid()
      ensures r.Cells() == old(r.Cells()) + src.Cells()[i..]
      ensures old(r.Unwidened()) && src.Unwidened() ==> r.Unwidened()
    {
      ghost var p := r.Vectors();
      ghost var offset := CopyRest(src, i, r);
      RestKeepsPlan(r.store, p, src.Vectors(), i, r.Vectors(), offset);
    }

    /** The next cell that has a tree. */
    static method FirstTree(desc: seq<CellDesc>, from: nat) returns (k: nat)
      requires from <= |desc|
      ensures from <= k <= |desc|
      ensures forall q :: from <= q < k ==> !desc[q].HasTree()
      ensures k < |desc| ==> desc[k].HasTree()
    {
      k := from;
      while k < |desc| && !desc[k].HasTree()
        invariant from <= k <= |desc|
        invariant forall q :: from <= q < k ==> !desc[q].HasTree()
      {
        k := k + 1;
      }
    }

    /** Descriptors and trees are copied in one block each, then ranges are shifted and fetched
        indices moved along. */
    static method CopyRest(src: TreedCqr, i: nat, r: TreedCqr) returns (ghost off: int)
      requires src != r && src.store == r.store && src.Valid()
      requires i <= |src.desc|
      modifies r
      ensures Extends(old(r.Vectors()), r.Vectors()) && |r.desc| == |old(r.desc)| + |src.desc| - i
      ensures forall k :: |old(r.desc)| <= k < |r.desc| ==>
                CopyOf(src.Vectors(), src.desc[k - |old(r.desc)| + i], r.Vectors(), r.desc[k], |old(r.trees)|, off)
    {
      ghost var p, n := r.Vectors(), |r.desc|;
      off := 0;
      var rDescBegin := |r.desc|;
      r.desc := r.desc + src.desc[i..];
      rDescBegin := FirstTree(r.desc, rDescBegin);
      var myI := i + rDescBegin - (|r.desc| - |src.desc[i..]|);
      if myI < |src.desc| {
        off := CopyBlock(src, i, myI, r, rDescBegin, p);
      }
    }

    /** Copies the trees from that of src's descriptor myI on, which is r's descriptor rDescBegin, in one block. */
    static method CopyBlock(src: TreedCqr, ghost i: nat, myI: nat, r: TreedCqr, rDescBegin: nat, ghost p: Plan)
      returns (ghost off: int)
      requires src != r && src.store == r.store && src.Valid() && i <= myI < |src.desc|
      requires r.desc == p.desc + src.desc[i..] && r.trees == p.trees && r.fetchedIdx == p.fetched
      requires rDescBegin == |p.desc| + myI - i && src.desc[myI].HasTree()
      requires forall m :: |p.desc| <= m < rDescBegin ==> !r.desc[m].HasTree()
      modifies r
      ensures Extends(p, r.Vectors()) && |r.desc| == |p.desc| + |src.desc| - i
      ensures forall k :: |p.desc| <= k < |r.desc| ==>
                CopyOf(src.Vectors(), src.desc[k - |p.desc| + i], r.Vectors(), r.desc[k], |p.trees|, off)
    {
      assert r.desc[rDescBegin] == src.desc[myI];
      assert DescOk(src.store, src.Vectors(), src.desc[myI]);
      var rTreesBegin := |r.trees|;
      var offset := src.desc[myI].treeBegin - rTreesBegin;
      r.trees := r.trees + src.trees[src.desc[myI].treeBegin..];
      BlockCopied(r.store, p, src.Vectors(), i, r.Vectors(), rDescBegin, offset);
      ShiftTrees(src, i, r, |p.desc|, rDescBegin, offset);
      off := offset;
      assert p.desc == r.desc[..|p.desc|];
    }

    /** Moves one descriptor's range to where its tree was copied and takes its fetched indices along. */
    static method ShiftTree(src: TreedCqr, r: TreedCqr, k: nat, offset: int)
      requires src != r && k < |r.desc| && r.desc[k].HasTree()
      requires DescOk(src.store, src.Vectors(), r.desc[k])
      requires 0 <= r.desc[k].treeBegin - offset && r.desc[k].treeEnd - offset <= |r.trees|
      requires forall x :: r.desc[k].treeBegin <= x < r.desc[k].treeEnd ==> r.trees[x - offset] == src.trees[x]
      modifies r
      ensures |r.desc| == |old(r.desc)| && forall q :: 0 <= q < |r.desc| && q != k ==> r.desc[q] == old(r.desc)[q]
      ensures |r.trees| == |old(r.trees)| && old(r.fetchedIdx) <= r.fetchedIdx
      ensures forall x :: 0 <= x < |r.trees| && !(r.desc[k].treeBegin <= x < r.desc[k].treeEnd) ==>
                r.trees[x] == old(r.trees)[x]
      ensures CopyOf(src.Vectors(), old(r.desc)[k], r.Vectors(), r.desc[k],
                     old(r.desc)[k].treeBegin - offset, offset)
    {
      var cd := r.desc[k];
      ghost var s := src.trees[cd.treeBegin..cd.treeEnd];
      LeavesInRange(src.store, s, src.fetchedIdx, cd.cellId);
      cd := cd.(treeBegin := cd.treeBegin - offset, treeEnd := cd.treeEnd - offset);
      r.desc := r.desc[k := cd];
      assert r.trees[cd.treeBegin..cd.treeEnd] == s;
      CopyFetchedIndices(src, r, cd);
    }

    /** Adjusts the ranges of the descriptors from rDescBegin on, whose trees were copied as one block. */
    static method ShiftTrees(src: TreedCqr, ghost i: nat, r: TreedCqr, ghost n: nat, rDescBegin: nat, offset: int)
      requires src != r && src.store == r.store && src.Valid()
      requires i <= |src.desc| && n <= rDescBegin < |r.desc|
      requires r.desc[rDescBegin].HasTree() && 0 <= r.desc[rDescBegin].treeBegin - offset <= |r.trees|
      requires Shifting(src.Vectors(), i, r.Vectors(), n, rDescBegin, r.desc[rDescBegin].treeBegin - offset, offset)
      modifies r
      ensures |r.desc| == |old(r.desc)| && |r.trees| == |old(r.trees)|
      ensures r.desc[..n] == old(r.desc)[..n] && old(r.fetchedIdx) <= r.fetchedIdx
      ensures forall x :: 0 <= x < old(r.desc)[rDescBegin].treeBegin - offset ==> r.trees[x] == old(r.trees)[x]
      ensures Shifting(src.Vectors(), i, r.Vectors(), n, |r.desc|,
                       old(r.desc)[rDescBegin].treeBegin - offset, offset)
    {
      ghost var p, q, from := r.Vectors(), src.Vectors(), r.desc[rDescBegin].treeBegin - offset;
      for k := rDescBegin to |r.desc|
        invariant |r.desc| == |p.desc| && r.desc[..n] == p.desc[..n] && p.fetched <= r.fetchedIdx
        invariant Shifting(q, i, r.Vectors(), n, k, from, offset)
        invariant forall x :: 0 <= x < from ==> r.trees[x] == p.trees[x]
      {
        assert p.desc[k] == r.desc[k] == q.desc[k - n + i];
        assert p.desc[rDescBegin] == q.desc[rDescBegin - n + i];
        assert DescOk(src.store, q, q.desc[k - n + i]) && DescOk(src.store, q, q.desc[rDescBegin - n + i]);
        ghost var p1 := r.Vectors();
        if r.desc[k].HasTree() {
          ShiftTree(src, r, k, offset);
        }
        ShiftingStep(r.store, q, i, p1, r.Vectors(), n, k, from, offset);
      }
    }

    /** The two descriptors describe the same cell, and r is ready to receive it. */
    ghost predicate SameCell(o: TreedCqr, myCD: CellDesc, oCD: CellDesc, r: TreedCqr)
      reads this, o, r
    {
      && r != this && r != o && o.store == store == r.store
      && DescOk(store, Vectors(), myCD) && DescOk(store, o.Vectors(), oCD)
      && myCD.cellId == oCD.cellId
      && r.Valid() && forall k :: 0 <= k < |r.desc| ==> r.desc[k].cellId < myCD.cellId
    }

    ghost predicate PlainCells(o: TreedCqr, myCD: CellDesc, oCD: CellDesc) reads this, o {
      !RootWidens(Vectors(), myCD) && !RootWidens(o.Vectors(), oCD)
    }

    /** Appends a fully matched cell. */
    static method PushFull(c: CellId, r: TreedCqr)
      requires r.Valid() && c < |r.store.cellPtr|
      requires forall k :: 0 <= k < |r.desc| ==> r.desc[k].cellId < c
      modifies r`desc
      ensures r.Valid() && Extends(old(r.Vectors()), r.Vectors()) && |r.desc| == |old(r.desc)| + 1
      ensures r.desc[|old(r.desc)|].cellId == c
      ensures r.Cells() == old(r.Cells()) + [Cell(c, r.store.Full(c))]
      ensures old(r.Unwidened()) ==> r.Unwidened()
    {
      ghost var p := r.Vectors();
      r.desc := r.desc + [PlainDesc(true, c, 0)];
      PushKeepsPlan(r.store, p, r.Vectors(), PlainDesc(true, c, 0));
    }

    /** A full match on one side hands on the other side; otherwise an operator node is needed. */
    method IntersectCell(o: TreedCqr, myCD: CellDesc, oCD: CellDesc, r: TreedCqr)
      requires SameCell(o, myCD, oCD, r)
      modifies r
      ensures r.Valid() && forall k :: 0 <= k < |r.desc| ==> r.desc[k].cellId <= myCD.cellId
      ensures Produces(old(r.Cells()), r.Cells(), myCD.cellId,
        Apply(SetOp.Intersect, DescItems(store, Vectors(), myCD), DescItems(store, o.Vectors(), oCD)))
      ensures old(r.Unwidened()) && PlainCells(o, myCD, oCD) ==> r.Unwidened()
    {
      DescInCell(store, Vectors(), myCD);
      DescInCell(store, o.Vectors(), oCD);
      ApplyLaws(store.Full(myCD.cellId), DescItems(store, Vectors(), myCD));
      ApplyLaws(store.Full(myCD.cellId), DescItems(store, o.Vectors(), oCD));
      if myCD.fullMatch && oCD.fullMatch {
        PushFull(myCD.cellId, r);
      } else if myCD.fullMatch {
        PushCell(o, oCD, r);
      } else if oCD.fullMatch {
        PushCell(this, myCD, r);
      } else {
        PushOp(SetOp.Intersect, this, myCD, o, oCD, r);
      }
    }

    /** A full match on either side absorbs the other side. */
    method UniteCell(o: TreedCqr, myCD: CellDesc, oCD: CellDesc, r: TreedCqr)
      requires SameCell(o, myCD, oCD, r)
      modifies r
      ensures r.Valid() && forall k :: 0 <= k < |r.desc| ==> r.desc[k].cellId <= myCD.cellId
      ensures Produces(old(r.Cells()), r.Cells(), myCD.cellId,
        Apply(SetOp.Unite, DescItems(store, Vectors(), myCD), DescItems(store, o.Vectors(), oCD)))
      ensures old(r.Unwidened()) && PlainCells(o, myCD, oCD) ==> r.Unwidened()
    {
      DescInCell(store, Vectors(), myCD);
      DescInCell(store, o.Vectors(), oCD);
      ApplyLaws(store.Full(myCD.cellId), DescItems(store, Vectors(), myCD));
      ApplyLaws(store.Full(myCD.cellId), DescItems(store, o.Vectors(), oCD));
      if myCD.fullMatch || oCD.fullMatch {
        PushFull(myCD.cellId, r);
      } else {
        PushOp(SetOp.Unite, this, myCD, o, oCD, r);
      }
    }

    /** A cell fully matched on the right is dropped without looking at the left. */
    method DiffCell(o: TreedCqr, myCD: CellDesc, oCD: CellDesc, r: TreedCqr)
      requires SameCell(o, myCD, oCD, r)
      modifies r
      ensures r.Valid() && forall k :: 0 <= k < |r.desc| ==> r.desc[k].cellId <= myCD.cellId
      ensures Produces(old(r.Cells()), r.Cells(), myCD.cellId,
        Apply(SetOp.Diff, DescItems(store, Vectors(), myCD), DescItems(store, o.Vectors(), oCD)))
      ensures old(r.Unwidened()) && PlainCells(o, myCD, oCD) ==> r.Unwidened()
    {
      DescInCell(store, Vectors(), myCD);
      DescInCell(store, o.Vectors(), oCD);
      ApplyLaws(store.Full(myCD.cellId), DescItems(store, Vectors(), myCD));
      ApplyLaws(store.Full(myCD.cellId), DescItems(store, o.Vectors(), oCD));
      if !oCD.fullMatch {
        PushOp(SetOp.Diff, this, myCD, o, oCD, r);
      }
    }

    /** A cell fully matched on both sides is dropped. */
    method SymDiffCell(o: TreedCqr, myCD: CellDesc, oCD: CellDesc, r: TreedCqr)
      requires SameCell(o, myCD, oCD, r)
      modifies r
      ensures r.Valid() && forall k :: 0 <= k < |r.desc| ==> r.desc[k].cellId <= myCD.cellId
      ensures Produces(old(r.Cells()), r.Cells(), myCD.cellId,
        Apply(SetOp.SymDiff, DescItems(store, Vectors(), myCD), DescItems(store, o.Vectors(), oCD)))
      ensures old(r.Unwidened()) && PlainCells(o, myCD, oCD) ==> r.Unwidened()
    {
      DescInCell(store, Vectors(), myCD);
      DescInCell(store, o.Vectors(), oCD);
      ApplyLaws(store.Full(myCD.cellId), DescItems(store, Vectors(), myCD));
      ApplyLaws(store.Full(myCD.cellId), DescItems(store, o.Vectors(), oCD));
      if !myCD.fullMatch || !oCD.fullMatch {
        PushOp(SetOp.SymDiff, this, myCD, o, oCD, r);
      }
    }

    /** A cell that both results have. */
    method CombineCell(op: SetOp, o: TreedCqr, myCD: CellDesc, oCD: CellDesc, r: TreedCqr)
      requires SameCell(o, myCD, oCD, r)
      modifies r
      ensures r.Valid() && forall k :: 0 <= k < |r.desc| ==> r.desc[k].cellId <= myCD.cellId
      ensures Produces(old(r.Cells()), r.Cells(), myCD.cellId,
        Apply(op, DescItems(store, Vectors(), myCD), DescItems(store, o.Vectors(), oCD)))
      ensures old(r.Unwidened()) && PlainCells(o, myCD, oCD) ==> r.Unwidened()
    {
      match op
      case Intersect => IntersectCell(o, myCD, oCD, r);
      case Unite => UniteCell(o, myCD, oCD, r);
      case Diff => DiffCell(o, myCD, oCD, r);
      case SymDiff => SymDiffCell(o, myCD, oCD, r);
    }

    /** A merge loop at positions myI and oI that has written the cells of r. */
    ghost predicate MergeLoop(op: SetOp, o: TreedCqr, myI: nat, oI: nat, r: TreedCqr)
      reads this, o, r
    {
      && r != this && r != o && o.store == store == r.store
      && Valid() && o.Valid() && r.Valid()
      && Before(r.desc, desc, myI) && Before(r.desc, o.desc, oI)
      && Merging(op, Cells(), o.Cells(), myI, oI, r.Cells())
      && (Unwidened() && o.Unwidened() ==> r.Unwidened())
    }

    /** One round of the merge loop. */
    method MergeStep(op: SetOp, o: TreedCqr, i: nat, j: nat, r: TreedCqr) returns (myI: nat, oI: nat)
      requires MergeLoop(op, o, i, j, r) && i < |desc| && j < |o.desc|
      modifies r
      ensures MergeLoop(op, o, myI, oI, r) && i <= myI <= |desc| && j <= oI <= |o.desc| && i + j < myI + oI
    {
      myI, oI := i, j;
      if desc[i].cellId < o.desc[j].cellId {
        StepMine(op, o, i, j, r);
        myI := i + 1;
      } else if o.desc[j].cellId < desc[i].cellId {
        StepOther(op, o, i, j, r);
        oI := j + 1;
      } else {
        StepSame(op, o, i, j, r);
        myI, oI := i + 1, j + 1;
      }
    }

    /** Copies the cell at position j of o. */
    static method PushOne(o: TreedCqr, j: nat, r: TreedCqr)
      requires r != o && o.Valid() && r.Valid() && r.store == o.store && j < |o.desc|
      requires Before(r.desc, o.desc, j)
      modifies r
      ensures r.Valid() && r.Cells() == old(r.Cells()) + [o.Cells()[j]]
      ensures old(r.Unwidened()) && o.Unwidened() ==> r.Unwidened()
      ensures forall k :: 0 <= k < |r.desc| ==> r.desc[k].cellId <= o.desc[j].cellId
    {
      assert DescOk(o.store, o.Vectors(), o.desc[j]);
      PushCell(o, o.desc[j], r);
    }

    method StepSame(op: SetOp, o: TreedCqr, i: nat, j: nat, r: TreedCqr)
      requires MergeLoop(op, o, i, j, r) && i < |desc| && j < |o.desc| && desc[i].cellId == o.desc[j].cellId
      modifies r
      ensures MergeLoop(op, o, i + 1, j + 1, r)
    {
      ghost var xs, ys, out := Cells(), o.Cells(), r.Cells();
      assert DescOk(store, Vectors(), desc[i]) && DescOk(store, o.Vectors(), o.desc[j]);
      CombineCell(op, o, desc[i], o.desc[j], r);
      StepBoth(op, xs, ys, i, j, out, r.Cells());
    }

    method StepMine(op: SetOp, o: TreedCqr, i: nat, j: nat, r: TreedCqr)
      requires MergeLoop(op, o, i, j, r) && i < |desc| && j < |o.desc| && desc[i].cellId < o.desc[j].cellId
      modifies r
      ensures MergeLoop(op, o, i + 1, j, r)
    {
      ghost var xs, ys, out := Cells(), o.Cells(), r.Cells();
      if op != SetOp.Intersect {
        PushOne(this, i, r);
      }
      OnlyLeft(op, xs, ys, i, j, out, r.Cells());
    }

    method StepOther(op: SetOp, o: TreedCqr, i: nat, j: nat, r: TreedCqr)
      requires MergeLoop(op, o, i, j, r) && i < |desc| && j < |o.desc| && o.desc[j].cellId < desc[i].cellId
      modifies r
      ensures MergeLoop(op, o, i, j + 1, r)
    {
      ghost var xs, ys, out := Cells(), o.Cells(), r.Cells();
      assert ys[j] == CellOf(store, o.Vectors(), o.desc[j]);
      assert DescOk(store, o.Vectors(), o.desc[j]);
      if op == SetOp.Unite || op == SetOp.SymDiff {
        PushOne(o, j, r);
      }
      OnlyRight(op, xs, ys, i, j, out, r.Cells());
    }

    /** The set operation on two results, as a plan: one merge loop over both descriptor lists, then
        the rest of the side that the operation keeps. */
    method Combine(op: SetOp, o: TreedCqr) returns (r: TreedCqr)
      requires Valid() && o.Valid() && o.store == store
      ensures fresh(r) && r.store == store && r.Valid()
      ensures r.Result() == Pointwise(op, Result(), o.Result())
      ensures Selects(op, Result(), o.Result(), {}, r.Result())
      ensures Unwidened() && o.Unwidened() ==> r.Unwidened()
    {
      r := new TreedCqr(store);
      ghost var xs, ys := Cells(), o.Cells();
      StartMerge(op, xs, ys);
      var myI, oI := 0, 0;
      while myI < |desc| && oI < |o.desc|
        invariant fresh(r) && r.store == store && MergeLoop(op, o, myI, oI, r)
        decreases |desc| - myI + |o.desc| - oI
      {
        myI, oI := MergeStep(op, o, myI, oI, r);
      }
      ghost var out := r.Cells();
      if myI < |desc| && op != SetOp.Intersect {
        AppendRest(this, myI, r);
      } else if oI < |o.desc| && (op == SetOp.Unite || op == SetOp.SymDiff) {
        AppendRest(o, oI, r);
      }
      CellsSorted(store, Vectors());
      CellsSorted(store, o.Vectors());
      FinishMerge(op, xs, ys, myI, oI, out, r.Cells());
    }

    /** Every cell becomes a full match, or, where that is not yet known, a widening node on its tree. */
    method AllToFull() returns (r: TreedCqr)
      requires Valid()
      ensures fresh(r) && r.store == store && r.Valid()
      ensures r.Result() == Widen(store, Result())
    {
      r := new TreedCqr(store);
      ghost var xs := Cells();
      assert xs[0..] == xs;
      for myI := 0 to |desc|
        invariant fresh(r) && r.store == store && r.Valid() && Before(r.desc, desc, myI)
        invariant Widening(store, xs, myI, r.Cells())
      {
        ghost var out := r.Cells();
        PushWidened(this, desc[myI], r);
        WideningStep(store, xs, myI, out, r.Cells());
      }
      CellsSorted(store, Vectors());
      forall k | 0 <= k < |xs| ensures xs[k].items <= store.Full(xs[k].id) {
        DescInCell(store, Vectors(), desc[k]);
      }
      FinishWidening(store, xs, r.Cells());
    }

    static method PushWidened(src: TreedCqr, cd: CellDesc, r: TreedCqr)
      requires src != r && src.store == r.store && DescOk(src.store, src.Vectors(), cd)
      requires r.Valid() && forall k :: 0 <= k < |r.desc| ==> r.desc[k].cellId < cd.cellId
      modifies r
      ensures r.Valid() && Extends(old(r.Vectors()), r.Vectors()) && |r.desc| == |old(r.desc)| + 1
      ensures r.desc[|old(r.desc)|].cellId == cd.cellId
      ensures r.Cells() == old(r.Cells()) + [Cell(cd.cellId, WidenItems(r.store, CellOf(src.store, src.Vectors(), cd)))]
    {
      if cd.HasTree() {
        ghost var p := r.Vectors();
        var treeBegin := |r.trees|;
        AppendWidened(src, cd, r);
        var d := CellDesc(false, cd.hasFetchedNode, cd.cellId, 0, treeBegin, |r.trees|);
        r.desc := r.desc + [d];
        assert r.trees[treeBegin..|r.trees|] == r.trees[treeBegin..];
        PushKeepsPlan(r.store, p, r.Vectors(), d);
      } else {
        PushFull(cd.cellId, r);
      }
    }

    static method AppendWidened(src: TreedCqr, cd: CellDesc, r: TreedCqr)
      requires src != r && src.store == r.store && DescOk(src.store, src.Vectors(), cd) && cd.HasTree()
      modifies r`trees, r`fetchedIdx
      ensures old(r.trees) <= r.trees && old(r.fetchedIdx) <= r.fetchedIdx && |old(r.trees)| < |r.trees|
      ensures WellFormed(r.store, r.trees[|old(r.trees)|..], r.fetchedIdx, cd.cellId)
      ensures Eval(r.store, r.trees[|old(r.trees)|..], r.fetchedIdx, cd.cellId)
              == WidenItems(r.store, CellOf(src.store, src.Vectors(), cd))
      ensures cd.hasFetchedNode || NoFetchedLeaf(r.trees[|old(r.trees)|..])
      ensures r.trees[|old(r.trees)|].ToFm?
    {
      ghost var n := |r.trees|;
      r.trees := r.trees + [ToFm];
      ghost var head := r.trees;
      CopyTree(src, cd, r);
      BehindHead(head, n, r.trees);
      WidenedTree(r.store, src.Vectors(), cd, r.trees[n + 1..], r.fetchedIdx);
    }

    method FmIdx(cellId: CellId) returns (idx: ItemIndex)
      ensures idx == store.Full(cellId)
    {
      idx := store.Full(cellId);
    }

    /** Evaluates the tree that starts at node n; `idx0` is what the caller's index variable holds. */
    method FlattenCell(n: nat, ghost end: nat, cellId: CellId, idx0: ItemIndex, pm0: IdxId)
      returns (idx: ItemIndex, pmIdxId: IdxId, frt: FlattenResultType)
      requires n < end <= |trees| && WellFormed(store, trees[n..end], fetchedIdx, cellId)
      ensures Reports(frt, pmIdxId, Flatten(store, trees[n..end], fetchedIdx, cellId))
      ensures idx == IdxAfter(store, trees[n..end], fetchedIdx, cellId, idx0)
      decreases end - n, 1
    {
      idx, pmIdxId := idx0, pm0;
      FlattenLeaf(store, trees, n, end, fetchedIdx, cellId, idx0);
      match trees[n]
      case PmLeaf(id) =>
        pmIdxId, frt := id, FT_PM;
      case FetchedLeaf(k) =>
        frt := FT_FETCHED;
        idx := fetchedIdx[k];
      case FmLeaf =>
        frt := FT_FM;
      case ToFm =>
        FlattenToFm(store, trees, n, end, fetchedIdx, cellId, idx0);
        var aIdx, _, frtA := FlattenCell(n + 1, end, cellId, {}, 0);
        if frtA == FT_PM || (frtA == FT_FETCHED && aIdx != {}) {
          frtA := FT_FM;
        }
        frt := frtA;
      case OpNode(_, _) =>
        idx, pmIdxId, frt := FlattenOperator(n, end, cellId, idx0, pm0);
    }

    /** Evaluates the operator at node n after both of its operands. */
    method FlattenOperator(n: nat, ghost end: nat, cellId: CellId, idx0: ItemIndex, pm0: IdxId)
      returns (idx: ItemIndex, pmIdxId: IdxId, frt: FlattenResultType)
      requires n < end <= |trees| && WellFormed(store, trees[n..end], fetchedIdx, cellId) && trees[n].OpNode?
      ensures Reports(frt, pmIdxId, Flatten(store, trees[n..end], fetchedIdx, cellId))
      ensures idx == IdxAfter(store, trees[n..end], fetchedIdx, cellId, idx0)
      decreases end - n, 0
    {
      var op, childB := trees[n].op, trees[n].childB;
      ghost var a, b := FlattenOp(store, trees, n, end, fetchedIdx, cellId, idx0);
      var aIdx, pmIdxIdA, frtA := FlattenCell(n + 1, n + childB, cellId, {}, 0);
      var bIdx, pmIdxIdB, frtB := FlattenCell(n + childB, end, cellId, {}, 0);
      idx, pmIdxId, frt := CombineFlattened(op, cellId, aIdx, pmIdxIdA, frtA, bIdx, pmIdxIdB, frtB, idx0, pm0, a, b);
    }

    /** The index behind a reported result that is not a full match. */
    method Load(frt: FlattenResultType, pmIdxId: IdxId, idx: ItemIndex, ghost o: Outcome, ghost c: CellId)
      returns (r: ItemIndex)
      requires Reports(frt, pmIdxId, o) && idx == FetchedItems(o) && frt != FT_FM
      ensures r == Items(store, o, c)
    {
      r := if frt == FT_PM then store.At(pmIdxId) else idx;
    }

    method CombineFlattened(op: SetOp, cellId: CellId, aIdx: ItemIndex, pmIdxIdA: IdxId, frtA: FlattenResultType,
                            bIdx: ItemIndex, pmIdxIdB: IdxId, frtB: FlattenResultType,
                            idx0: ItemIndex, pm0: IdxId, ghost a: Outcome, ghost b: Outcome)
      returns (idx: ItemIndex, pmIdxId: IdxId, frt: FlattenResultType)
      requires Reports(frtA, pmIdxIdA, a) && aIdx == FetchedItems(a)
      requires Reports(frtB, pmIdxIdB, b) && bIdx == FetchedItems(b)
      ensures Reports(frt, pmIdxId, CombineOutcomes(store, op, a, b, cellId))
      ensures idx == if Decided(op, a, b) then idx0 else FetchedItems(CombineOutcomes(store, op, a, b, cellId))
    {
      idx, pmIdxId := idx0, pm0;
      match op
      case Intersect =>
        if frtA == FT_FM && frtB == FT_FM {
          frt := FT_FM;
        } else if frtA == FT_FM {
          idx, pmIdxId, frt := bIdx, pmIdxIdB, frtB;
        } else if frtB == FT_FM {
          idx, pmIdxId, frt := aIdx, pmIdxIdA, frtA;
        } else {
          var x := Load(frtA, pmIdxIdA, aIdx, a, cellId);
          var y := Load(frtB, pmIdxIdB, bIdx, b, cellId);
          idx := x * y;
          frt := if idx != {} then FT_FETCHED else FT_EMPTY;
        }
      case Unite =>
        if frtA == FT_FM || frtB == FT_FM {
          frt := FT_FM;
        } else {
          var x := Load(frtA, pmIdxIdA, aIdx, a, cellId);
          var y := Load(frtB, pmIdxIdB, bIdx, b, cellId);
          idx := x + y;
          frt := FT_FETCHED;
        }
      case Diff =>
        if frtB == FT_FM || frtA == FT_EMPTY {
          frt := FT_EMPTY;
        } else {
          var x;
          if frtA == FT_FM { x := FmIdx(cellId); } else { x := Load(frtA, pmIdxIdA, aIdx, a, cellId); }
          var y := Load(frtB, pmIdxIdB, bIdx, b, cellId);
          idx := x - y;
          frt := if idx != {} then FT_FETCHED else FT_EMPTY;
        }
      case SymDiff =>
        if !(frtA == FT_FM && frtB == FT_FM) {
          var x, y;
          if frtA == FT_FM { x := FmIdx(cellId); } else { x := Load(frtA, pmIdxIdA, aIdx, a, cellId); }
          if frtB == FT_FM { y := FmIdx(cellId); } else { y := Load(frtB, pmIdxIdB, bIdx, b, cellId); }
          idx := Apply(SetOp.SymDiff, x, y);
          frt := if idx != {} then FT_FETCHED else FT_EMPTY;
        } else {
          frt := FT_EMPTY;
        }
    }
  }
}
