/** Whether a lazy result has hits at all, without flattening it where its trees only intersect. */
module HasHits {
  import opened CellAlgebra
  import opened FlatTree
  import T = TreedCqr

  predicate NiceNode(n: FlatNode) {
    n.PmLeaf? || n.FmLeaf? || n.FetchedLeaf? || (n.OpNode? && n.op.Intersect?)
  }

  /** A tree of intersections only. */
  predicate Nice(t: seq<FlatNode>) {
    forall k :: 0 <= k < |t| ==> NiceNode(t[k])
  }

  predicate HasIndex(n: FlatNode) {
    n.PmLeaf? || n.FetchedLeaf?
  }

  function IndexOf(st: CellStore, n: FlatNode, f: seq<ItemIndex>): ItemIndex
    requires HasIndex(n)
  {
    match n
    case PmLeaf(id) => st.At(id)
    case FetchedLeaf(k) => if k < |f| then f[k] else {}
  }

  /** The indices of all leaves but full matches, from left to right. */
  function Indices(st: CellStore, t: seq<FlatNode>, f: seq<ItemIndex>): seq<ItemIndex> {
    if t == [] then []
    else (if HasIndex(t[0]) then [IndexOf(st, t[0], f)] else []) + Indices(st, t[1..], f)
  }

  lemma {:induction false} IndicesJoin(st: CellStore, a: seq<FlatNode>, b: seq<FlatNode>, f: seq<ItemIndex>)
    ensures Indices(st, a + b, f) == Indices(st, a, f) + Indices(st, b, f)
  {
    if a == [] {
      assert a + b == b;
    } else {
      IndicesJoin(st, a[1..], b, f);
      assert (a + b)[1..] == a[1..] + b && (a + b)[0] == a[0];
    }
  }

  /** The items in all of the indices and in the cell. */
  function InAll(xs: seq<ItemIndex>, full: ItemIndex): ItemIndex {
    if xs == [] then full else xs[0] * InAll(xs[1..], full)
  }

  lemma {:induction false} InAllJoin(a: seq<ItemIndex>, b: seq<ItemIndex>, full: ItemIndex)
    ensures InAll(a + b, full) == InAll(a, full) * InAll(b, full)
    ensures InAll(b, full) <= full
  {
    InAllInside(b, full);
    if a == [] {
      assert a + b == b;
    } else {
      InAllJoin(a[1..], b, full);
      assert (a + b)[1..] == a[1..] + b && (a + b)[0] == a[0];
      assert InAll(a + b, full) == a[0] * (InAll(a[1..], full) * InAll(b, full));
    }
  }

  lemma {:induction false} InAllInside(b: seq<ItemIndex>, full: ItemIndex)
    ensures InAll(b, full) <= full
  {
    if b != [] {
      InAllInside(b[1..], full);
    }
  }

  lemma NiceParts(t: seq<FlatNode>, b: nat)
    requires Nice(t) && 1 < b < |t|
    ensures Nice(t[1..b]) && Nice(t[b..]) && t[1..b] + t[b..] == t[1..]
  {
  }

  /** A tree of intersections stands for what all of its leaves have in common. */
  lemma {:induction false} NiceEval(st: CellStore, t: seq<FlatNode>, f: seq<ItemIndex>, c: CellId)
    requires WellFormed(st, t, f, c) && Nice(t)
    ensures Eval(st, t, f, c) == InAll(Indices(st, t, f), st.Full(c))
    decreases |t|
  {
    assert NiceNode(t[0]);
    match t[0]
    case OpNode(op, b) =>
      NiceParts(t, b);
      NiceEval(st, t[1..b], f, c);
      NiceEval(st, t[b..], f, c);
      IndicesJoin(st, t[1..b], t[b..], f);
      InAllJoin(Indices(st, t[1..b], f), Indices(st, t[b..], f), st.Full(c));
      assert Indices(st, t, f) == Indices(st, t[1..], f);
      assert Eval(st, t, f, c) == Apply(SetOp.Intersect, Eval(st, t[1..b], f, c), Eval(st, t[b..], f, c));
    case FmLeaf =>
    case PmLeaf(_) => OneIndex(IndexOf(st, t[0], f), st.Full(c));
    case FetchedLeaf(_) => OneIndex(IndexOf(st, t[0], f), st.Full(c));
    case ToFm =>
  }

  lemma OneIndex(x: ItemIndex, full: ItemIndex)
    requires x <= full
    ensures InAll([x], full) == x && [x] + [] == [x]
  {
    assert InAll([x], full) == x * InAll([], full);
  }

  /** The intersection of several indices; nothing, if there are none. */
  function IntersectionOf(xs: seq<ItemIndex>): ItemIndex {
    if xs == [] then {} else if |xs| == 1 then xs[0] else xs[0] * IntersectionOf(xs[1..])
  }

  lemma {:induction false} IntersectionInCell(xs: seq<ItemIndex>, full: ItemIndex)
    requires xs != [] && forall k :: 0 <= k < |xs| ==> xs[k] <= full
    ensures IntersectionOf(xs) == InAll(xs, full)
  {
    if |xs| == 1 {
      assert InAll(xs[1..], full) == full;
    } else {
      IntersectionInCell(xs[1..], full);
    }
  }

  /** Every tree but a lone full match has an index, and its indices are in the cell. */
  lemma {:induction false} IndicesInCell(st: CellStore, t: seq<FlatNode>, f: seq<ItemIndex>, c: CellId)
    requires WellFormed(st, t, f, c)
    ensures forall k :: 0 <= k < |Indices(st, t, f)| ==> IndexOk(st, Indices(st, t, f)[k], c)
    ensures t[0].FmLeaf? || Indices(st, t, f) != []
    decreases |t|
  {
    match t[0]
    case OpNode(op, b) =>
      assert t[1..] == t[1..b] + t[b..];
      IndicesJoin(st, t[1..b], t[b..], f);
      IndicesInCell(st, t[1..b], f, c);
      IndicesInCell(st, t[b..], f, c);
    case ToFm =>
      IndicesInCell(st, t[1..], f, c);
    case _ =>
      assert Indices(st, t[1..], f) == [];
  }

  /** What is reported for the tree of a cell. */
  ghost predicate Reported(st: CellStore, t: seq<FlatNode>, f: seq<ItemIndex>, c: CellId) {
    if Nice(t) && Indices(st, t, f) != [] then
      |Indices(st, t, f)| == 1 || IntersectionOf(Indices(st, t, f)) != {}
    else if Nice(t) then false
    else Flatten(st, t, f, c) != Empty
  }

  /** Flattening ends with a union of which nothing is left: at the root, below widening nodes, or
      intersected with a full match. */
  predicate UnionInVain(st: CellStore, t: seq<FlatNode>, f: seq<ItemIndex>, c: CellId)
    decreases |t|
  {
    && t != []
    && match t[0]
       case ToFm => UnionInVain(st, t[1..], f, c)
       case OpNode(op, b) =>
         && 1 < b < |t|
         && (op.Unite? || op.Intersect?)
         && if op.Unite? then Eval(st, t, f, c) == {}
            else || (Flatten(st, t[1..b], f, c).Fm? && UnionInVain(st, t[b..], f, c))
                 || (Flatten(st, t[b..], f, c).Fm? && UnionInVain(st, t[1..b], f, c))
       case _ => false
  }

  lemma {:induction false} EmptyIndexIff(st: CellStore, t: seq<FlatNode>, f: seq<ItemIndex>, c: CellId)
    requires WellFormed(st, t, f, c) && st.Full(c) != {}
    ensures Flatten(st, t, f, c) == Fetched({}) <==> UnionInVain(st, t, f, c)
    decreases |t|
  {
    match t[0]
    case ToFm => EmptyIndexIff(st, t[1..], f, c);
    case OpNode(op, b) =>
      EmptyIndexIff(st, t[1..b], f, c);
      EmptyIndexIff(st, t[b..], f, c);
      FlattenIsEval(st, t, f, c);
    case _ =>
  }

  lemma {:induction false} NiceHasNoUnion(st: CellStore, t: seq<FlatNode>, f: seq<ItemIndex>, c: CellId)
    requires WellFormed(st, t, f, c) && Nice(t)
    ensures !UnionInVain(st, t, f, c)
    decreases |t|
  {
    assert NiceNode(t[0]);
    if t[0].OpNode? {
      NiceParts(t, t[0].childB);
      NiceHasNoUnion(st, t[1..t[0].childB], f, c);
      NiceHasNoUnion(st, t[t[0].childB..], f, c);
    }
  }

  /** The report on a tree of intersections is right. */
  lemma NiceReport(st: CellStore, t: seq<FlatNode>, f: seq<ItemIndex>, c: CellId)
    requires WellFormed(st, t, f, c) && !t[0].FmLeaf? && Nice(t) && st.Full(c) != {}
    ensures Reported(st, t, f, c) <==> Eval(st, t, f, c) != {}
  {
    NiceEval(st, t, f, c);
    IndicesInCell(st, t, f, c);
    var xs := Indices(st, t, f);
    IntersectionInCell(xs, st.Full(c));
    assert IndexOk(st, xs[0], c);
  }

  /** A hit is never missed; one is invented exactly for a union in vain, unless the cell has no items. */
  lemma TreeReport(st: CellStore, t: seq<FlatNode>, f: seq<ItemIndex>, c: CellId)
    requires WellFormed(st, t, f, c) && !t[0].FmLeaf?
    ensures Eval(st, t, f, c) != {} ==> Reported(st, t, f, c)
    ensures st.Full(c) != {} ==>
              (Reported(st, t, f, c) && Eval(st, t, f, c) == {} <==> UnionInVain(st, t, f, c))
  {
    EvalInCell(st, t, f, c);
    if st.Full(c) != {} {
      EmptyIndexIff(st, t, f, c);
      FlattenIsEval(st, t, f, c);
      FlattenPmOk(st, t, f, c);
      if Nice(t) {
        NiceReport(st, t, f, c);
        NiceHasNoUnion(st, t, f, c);
      }
    }
  }

  /** A union of two empty operands is reported as a hit. */
  lemma EmptyUnionReported(st: CellStore, a: seq<FlatNode>, b: seq<FlatNode>, f: seq<ItemIndex>, c: CellId)
    requires WellFormed(st, a, f, c) && WellFormed(st, b, f, c) && st.Full(c) != {}
    requires Eval(st, a, f, c) == {} == Eval(st, b, f, c)
    ensures var t := [OpNode(SetOp.Unite, 1 + |a|)] + a + b;
            WellFormed(st, t, f, c) && Eval(st, t, f, c) == {} && Reported(st, t, f, c)
  {
    var t := [OpNode(SetOp.Unite, 1 + |a|)] + a + b;
    assert t[1..1 + |a|] == a && t[1 + |a|..] == b;
    TreeReport(st, t, f, c);
  }

  method OnlyIntersects(src: T.TreedCqr, cd: T.CellDesc) returns (nice: bool)
    requires T.TreeRangeOk(src.Vectors(), cd)
    ensures nice <==> Nice(T.TreeOf(src.Vectors(), cd))
  {
    ghost var t := T.TreeOf(src.Vectors(), cd);
    nice := true;
    var tit := cd.treeBegin;
    while tit < cd.treeEnd && nice
      invariant cd.treeBegin <= tit <= cd.treeEnd
      invariant nice ==> forall k :: 0 <= k < tit - cd.treeBegin ==> NiceNode(t[k])
      invariant !nice ==> exists k :: 0 <= k < |t| && !NiceNode(t[k])
      decreases cd.treeEnd - tit, nice
    {
      assert src.trees[tit] == t[tit - cd.treeBegin];
      nice := NiceNode(src.trees[tit]);
      tit := tit + 1;
    }
  }

  method CollectIndices(src: T.TreedCqr, cd: T.CellDesc) returns (tmp: seq<ItemIndex>)
    requires T.TreeRangeOk(src.Vectors(), cd)
    ensures tmp == Indices(src.store, T.TreeOf(src.Vectors(), cd), src.fetchedIdx)
  {
    ghost var t := T.TreeOf(src.Vectors(), cd);
    tmp := [];
    var tit := cd.treeBegin;
    assert t[0..] == t;
    while tit < cd.treeEnd
      invariant cd.treeBegin <= tit <= cd.treeEnd
      invariant tmp + Indices(src.store, t[tit - cd.treeBegin..], src.fetchedIdx) == Indices(src.store, t, src.fetchedIdx)
    {
      var n := src.trees[tit];
      assert n == t[tit - cd.treeBegin] && t[tit - cd.treeBegin..][1..] == t[tit + 1 - cd.treeBegin..];
      if HasIndex(n) {
        tmp := tmp + [IndexOf(src.store, n, src.fetchedIdx)];
      }
      tit := tit + 1;
    }
  }

  method CellHasHits(src: T.TreedCqr, cd: T.CellDesc) returns (hits: bool)
    requires T.DescOk(src.store, src.Vectors(), cd) && cd.HasTree()
    ensures hits == Reported(src.store, T.TreeOf(src.Vectors(), cd), src.fetchedIdx, cd.cellId)
  {
    var nice := OnlyIntersects(src, cd);
    if nice {
      var tmp := CollectIndices(src, cd);
      hits := |tmp| == 1 || IntersectionOf(tmp) != {};
    } else {
      var idx, pmIdxId, frt := src.FlattenCell(cd.treeBegin, cd.treeEnd, cd.cellId, {}, 0);
      hits := frt == T.FT_FETCHED || frt == T.FT_FM || frt == T.FT_PM;
    }
  }

  /** A cell without a tree is a full or a partial match and has hits. */
  ghost predicate CellReported(st: CellStore, p: T.Plan, d: T.CellDesc) {
    d.HasTree() ==> Reported(st, T.TreeOf(p, d), p.fetched, d.cellId)
  }

  method AnyReported(src: T.TreedCqr) returns (hits: bool)
    requires src.Valid()
    ensures hits <==> exists i :: 0 <= i < |src.desc| && CellReported(src.store, src.Vectors(), src.desc[i])
  {
    hits := false;
    for i := 0 to |src.desc|
      invariant !hits
      invariant forall k :: 0 <= k < i ==> src.desc[k].HasTree()
    {
      if !src.desc[i].HasTree() {
        assert CellReported(src.store, src.Vectors(), src.desc[i]);
        return true;
      }
    }
    for i := 0 to |src.desc|
      invariant forall k :: 0 <= k < i ==> !CellReported(src.store, src.Vectors(), src.desc[k])
    {
      assert T.DescOk(src.store, src.Vectors(), src.desc[i]);
      hits := CellHasHits(src, src.desc[i]);
      if hits {
        return true;
      }
    }
    hits := false;
  }

  /** The cell is reported although it has no items: one that cannot have any, or a union in vain. */
  ghost predicate Invented(st: CellStore, p: T.Plan, d: T.CellDesc) {
    if st.Full(d.cellId) == {} then CellReported(st, p, d)
    else d.HasTree() && UnionInVain(st, T.TreeOf(p, d), p.fetched, d.cellId)
  }

  lemma CellReport(st: CellStore, p: T.Plan, d: T.CellDesc)
    requires T.DescOk(st, p, d)
    ensures CellReported(st, p, d) <==> T.DescItems(st, p, d) != {} || Invented(st, p, d)
  {
    T.DescInCell(st, p, d);
    if d.HasTree() {
      TreeReport(st, T.TreeOf(p, d), p.fetched, d.cellId);
    }
  }

  lemma {:induction false} AnyItems(xs: seq<Cell>)
    ensures Meaning(xs) != map[] <==> exists k :: 0 <= k < |xs| && xs[k].items != {}
  {
    if xs != [] {
      AnyItems(xs[1..]);
      if xs[0].items != {} {
        assert xs[0].id in Meaning(xs);
      }
      assert forall k :: 1 <= k < |xs| ==> xs[k] == xs[1..][k - 1];
    }
  }

  /** What is reported of the whole result. */
  lemma ResultReport(st: CellStore, p: T.Plan)
    requires T.PlanOk(st, p)
    ensures (exists i :: 0 <= i < |p.desc| && CellReported(st, p, p.desc[i]))
       <==> Meaning(T.CellsOf(st, p)) != map[] || exists i :: 0 <= i < |p.desc| && Invented(st, p, p.desc[i])
  {
    var xs := T.CellsOf(st, p);
    AnyItems(xs);
    forall i | 0 <= i < |p.desc|
      ensures CellReported(st, p, p.desc[i]) <==> xs[i].items != {} || Invented(st, p, p.desc[i])
    {
      CellReport(st, p, p.desc[i]);
    }
  }

  /** No hit is missed, and the answer is wrong exactly if there is none but some cell is invented. */
  method AnyHits(src: T.TreedCqr) returns (hits: bool)
    requires src.Valid()
    ensures src.Result() != map[] ==> hits
    ensures hits <==> src.Result() != map[]
                      || exists i :: 0 <= i < |src.desc| && Invented(src.store, src.Vectors(), src.desc[i])
  {
    ResultReport(src.store, src.Vectors());
    hits := AnyReported(src);
  }
}
