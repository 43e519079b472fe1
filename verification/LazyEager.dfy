/** Evaluating a query lazily and flattening it gives what the eager engine gives. */
module LazyEager {
  import opened CellAlgebra
  import opened FlatTree
  import T = TreedCqr
  import E = EagerCqr

  /** Flattening cell d with `idx` in the index variable reports a fetched index but leaves the variable
      alone: a widening node on top of a union that came out empty.  What is stored is `idx`. */
  ghost predicate StaleWith(st: CellStore, p: T.Plan, d: T.CellDesc, idx: ItemIndex) {
    && d.HasTree() && T.TreeOf(p, d) != [] && T.TreeOf(p, d)[0].ToFm?
    && Flatten(st, T.TreeOf(p, d), p.fetched, d.cellId).Fetched?
    && idx != {}
  }

  ghost function IdxAfterCell(st: CellStore, p: T.Plan, d: T.CellDesc, idx: ItemIndex): ItemIndex {
    if d.HasTree() then IdxAfter(st, T.TreeOf(p, d), p.fetched, d.cellId, idx) else idx
  }

  /** The index variable after the first i cells have been flattened one after the other. */
  ghost function Carried(st: CellStore, p: T.Plan, i: nat): ItemIndex
    requires i <= |p.desc|
  {
    if i == 0 then {} else IdxAfterCell(st, p, p.desc[i - 1], Carried(st, p, i - 1))
  }

  ghost predicate Stale(st: CellStore, p: T.Plan, i: nat)
    requires i < |p.desc|
  {
    StaleWith(st, p, p.desc[i], Carried(st, p, i))
  }

  lemma StaleCellIsEmpty(st: CellStore, p: T.Plan, d: T.CellDesc, idx: ItemIndex)
    requires T.DescOk(st, p, d) && StaleWith(st, p, d, idx)
    ensures T.DescItems(st, p, d) == {}
  {
    FlattenIsEval(st, T.TreeOf(p, d), p.fetched, d.cellId);
  }

  /** Flattens one cell; `keep` is false if nothing of it is left. */
  method FlattenDesc(src: T.TreedCqr, i: nat, idx0: ItemIndex, pm0: IdxId)
    returns (keep: bool, d: E.CellDesc, x: E.IndexDesc, idx: ItemIndex, pmIdxId: IdxId)
    requires src.Valid() && i < |src.desc|
    ensures idx == IdxAfterCell(src.store, src.Vectors(), src.desc[i], idx0)
    ensures d.cellId == src.desc[i].cellId && !(d.fullMatch && d.fetched)
    ensures !StaleWith(src.store, src.Vectors(), src.desc[i], idx0) ==>
              if keep then
                && E.EntryOk(src.store, d, x)
                && E.EntryItems(src.store, d, x) == T.DescItems(src.store, src.Vectors(), src.desc[i])
              else T.DescItems(src.store, src.Vectors(), src.desc[i]) == {}
    ensures StaleWith(src.store, src.Vectors(), src.desc[i], idx0) ==> keep && x == E.Idx(idx0)
  {
    var cd := src.desc[i];
    assert T.DescOk(src.store, src.Vectors(), cd);
    idx, pmIdxId := idx0, pm0;
    var word: IdxId := *;
    keep, d, x := true, E.CellDesc(cd.fullMatch, false, cd.cellId), E.Ptr(word);
    if !cd.HasTree() {
      if !cd.fullMatch {
        x := E.Ptr(cd.pmIdxId);
      }
    } else {
      var frt;
      idx, pmIdxId, frt := src.FlattenCell(cd.treeBegin, cd.treeEnd, cd.cellId, idx0, pm0);
      ghost var t := src.trees[cd.treeBegin..cd.treeEnd];
      FlattenIsEval(src.store, t, src.fetchedIdx, cd.cellId);
      FlattenPmOk(src.store, t, src.fetchedIdx, cd.cellId);
      EvalInCell(src.store, t, src.fetchedIdx, cd.cellId);
      FetchedUnlessWidened(src.store, t, src.fetchedIdx, cd.cellId, idx0);
      if frt == T.FT_FM {
        d, x := E.CellDesc(true, false, cd.cellId), E.Ptr(word);
      } else if frt == T.FT_PM {
        d, x := E.CellDesc(false, false, cd.cellId), E.Ptr(pmIdxId);
      } else if frt == T.FT_FETCHED && idx != {} {
        d, x := E.CellDesc(false, true, cd.cellId), E.Idx(idx);
      } else {
        keep := false;
      }
    }
  }

  /** A reported fetched index is in the index variable, unless the root is a widening node; then the
      outcome is empty and the variable untouched. */
  lemma FetchedUnlessWidened(st: CellStore, t: seq<FlatNode>, f: seq<ItemIndex>, c: CellId, idx: ItemIndex)
    requires WellFormed(st, t, f, c)
    ensures var o := Flatten(st, t, f, c);
            o.Fetched? ==>
              if t[0].ToFm? then o.items == {} && IdxAfter(st, t, f, c, idx) == idx
              else IdxAfter(st, t, f, c, idx) == o.items
  {
  }

  /** r holds an index for cell k, of which nothing is left. */
  ghost predicate HoldsLeftover(st: CellStore, p: T.Plan, k: nat, r: E.Table, at: nat) {
    && k < |p.desc| && Stale(st, p, k)
    && at < |r.desc| && at < |r.idx|
    && r.desc[at].cellId == p.desc[k].cellId && r.idx[at].Idx? && r.idx[at].idx != {}
  }

  /** The first i cells have been written correctly. */
  ghost predicate Flushed(st: CellStore, p: T.Plan, i: nat, r: E.Table) {
    E.TableOk(st, r) && Copying(T.CellsOf(st, p), i, E.CellsOf(st, r))
  }

  ghost predicate AllBelow(rd: seq<E.CellDesc>, d: seq<T.CellDesc>, i: nat) {
    i < |d| ==> forall k :: 0 <= k < |rd| ==> rd[k].cellId < d[i].cellId
  }

  lemma StillBelow(st: CellStore, p: T.Plan, i: nat, rd: seq<E.CellDesc>, rd2: seq<E.CellDesc>, d: E.CellDesc)
    requires T.PlanOk(st, p) && i < |p.desc| && AllBelow(rd, p.desc, i)
    requires d.cellId == p.desc[i].cellId && (rd2 == rd || rd2 == rd + [d])
    ensures AllBelow(rd2, p.desc, i + 1)
  {
  }

  /** The loop of the sequential form after i cells: either no cell was stale and all are right, or a
      leftover has been stored. */
  ghost predicate Flushing(st: CellStore, p: T.Plan, i: nat, r: E.Table, broken: bool, bad: nat, at: nat) {
    && |r.desc| == |r.idx| && i <= |p.desc|
    && AllBelow(r.desc, p.desc, i)
    && if broken then bad < i && HoldsLeftover(st, p, bad, r, at)
       else Flushed(st, p, i, r) && forall k :: 0 <= k < i ==> !Stale(st, p, k)
  }

  lemma FlushStep(st: CellStore, p: T.Plan, i: nat, r: E.Table, broken: bool, bad: nat, at: nat,
                  keep: bool, d: E.CellDesc, x: E.IndexDesc, r2: E.Table)
    requires T.PlanOk(st, p) && Flushing(st, p, i, r, broken, bad, at) && i < |p.desc|
    requires d.cellId == p.desc[i].cellId
    requires r2 == if keep then E.Table(r.desc + [d], r.idx + [x]) else r
    requires if Stale(st, p, i) then keep && x == E.Idx(Carried(st, p, i))
             else if keep then E.EntryOk(st, d, x) && E.EntryItems(st, d, x) == T.DescItems(st, p, p.desc[i])
             else T.DescItems(st, p, p.desc[i]) == {}
    ensures if broken then Flushing(st, p, i + 1, r2, true, bad, at)
            else if Stale(st, p, i) then Flushing(st, p, i + 1, r2, true, i, |r.desc|)
            else Flushing(st, p, i + 1, r2, false, 0, 0)
  {
    StillBelow(st, p, i, r.desc, r2.desc, d);
    if !broken && !Stale(st, p, i) {
      FlushedStep(st, p, i, r, keep, d, x, r2);
    }
  }

  lemma FlushedStep(st: CellStore, p: T.Plan, i: nat, r: E.Table, keep: bool, d: E.CellDesc, x: E.IndexDesc, r2: E.Table)
    requires i < |p.desc| && d.cellId == p.desc[i].cellId && Flushed(st, p, i, r)
    requires forall k :: 0 <= k < |r.desc| ==> r.desc[k].cellId < d.cellId
    requires r2 == if keep then E.Table(r.desc + [d], r.idx + [x]) else r
    requires if keep then E.EntryOk(st, d, x) && E.EntryItems(st, d, x) == T.DescItems(st, p, p.desc[i])
             else T.DescItems(st, p, p.desc[i]) == {}
    ensures Flushed(st, p, i + 1, r2)
  {
    if keep {
      E.PushKeepsTable(st, r, d, x);
    }
    assert T.CellsOf(st, p)[i] == T.CellOf(st, p, p.desc[i]);
    CopyingStep(T.CellsOf(st, p), i, E.CellsOf(st, r), E.CellsOf(st, r2));
  }

  lemma LeftoverIsWrong(st: CellStore, p: T.Plan, k: nat, r: E.Table, at: nat)
    requires T.PlanOk(st, p) && E.TableOk(st, r) && HoldsLeftover(st, p, k, r, at)
    ensures Meaning(E.CellsOf(st, r)) != Meaning(T.CellsOf(st, p))
  {
    StaleCellIsEmpty(st, p, p.desc[k], Carried(st, p, k));
    T.CellsSorted(st, p);
    E.CellsSorted(st, r);
    Disagree(E.CellsOf(st, r), T.CellsOf(st, p), at, k);
  }

  /** Only a tree that begins with a widening node can be stale. */
  lemma NeverStale(st: CellStore, p: T.Plan)
    requires T.NoRootWidens(p)
    ensures forall i :: 0 <= i < |p.desc| ==> !Stale(st, p, i)
  {
    forall i | 0 <= i < |p.desc| ensures !Stale(st, p, i) {
      assert !T.RootWidens(p, p.desc[i]);
    }
  }

  /** Flattens all cells in order with one index variable.  The result is right exactly when no cell is
      stale: a stale cell is stored with the index of an earlier cell. */
  method ToCqr(src: T.TreedCqr) returns (r: E.EagerCqr)
    requires src.Valid()
    ensures fresh(r) && r.store == src.store
    ensures (r.Valid() && r.Result() == src.Result()) <==>
            forall i :: 0 <= i < |src.desc| ==> !Stale(src.store, src.Vectors(), i)
    ensures src.Unwidened() ==> r.Valid() && r.Result() == src.Result()
  {
    r := new E.EagerCqr(src.store);
    ghost var st, p, broken := src.store, src.Vectors(), false;
    ghost var bad: nat, at: nat := 0, 0;
    var idx, pmIdxId := {}, 0;
    FlushStart(st, p, r.Vectors());
    for i := 0 to |src.desc|
      invariant fresh(r) && r.store == st && idx == Carried(st, p, i)
      invariant Flushing(st, p, i, r.Vectors(), broken, bad, at)
    {
      idx, pmIdxId, broken, bad, at := ToCqrCell(src, i, idx, pmIdxId, r, broken, bad, at);
    }
    FlushEnd(st, p, r.Vectors(), broken, bad, at);
    if src.Unwidened() {
      NeverStale(st, p);
    }
  }

  /** Flattens one cell and stores it behind the cells before it. */
  method ToCqrCell(src: T.TreedCqr, i: nat, idx: ItemIndex, pmIdxId: IdxId, r: E.EagerCqr,
                   ghost broken: bool, ghost bad: nat, ghost at: nat)
    returns (idx2: ItemIndex, pmIdxId2: IdxId, ghost broken2: bool, ghost bad2: nat, ghost at2: nat)
    requires src.Valid() && r.store == src.store && i < |src.desc|
    requires idx == Carried(src.store, src.Vectors(), i)
    requires Flushing(src.store, src.Vectors(), i, r.Vectors(), broken, bad, at)
    modifies r
    ensures idx2 == Carried(src.store, src.Vectors(), i + 1)
    ensures Flushing(src.store, src.Vectors(), i + 1, r.Vectors(), broken2, bad2, at2)
  {
    ghost var t, p := r.Vectors(), src.Vectors();
    broken2, bad2, at2 := broken, bad, at;
    var keep, d, x;
    keep, d, x, idx2, pmIdxId2 := FlattenDesc(src, i, idx, pmIdxId);
    if keep {
      r.desc, r.idx := r.desc + [d], r.idx + [x];
    }
    FlushStep(src.store, p, i, t, broken, bad, at, keep, d, x, r.Vectors());
    if !broken && Stale(src.store, p, i) {
      broken2, bad2, at2 := true, i, |t.desc|;
    }
  }

  lemma FlushStart(st: CellStore, p: T.Plan, r: E.Table)
    requires E.TableOk(st, r) && r.desc == []
    ensures Flushing(st, p, 0, r, false, 0, 0)
  {
    assert E.CellsOf(st, r) == [];
  }

  lemma FlushEnd(st: CellStore, p: T.Plan, r: E.Table, broken: bool, bad: nat, at: nat)
    requires T.PlanOk(st, p) && Flushing(st, p, |p.desc|, r, broken, bad, at)
    ensures E.TableOk(st, r) && Meaning(E.CellsOf(st, r)) == Meaning(T.CellsOf(st, p))
       <==> forall i :: 0 <= i < |p.desc| ==> !Stale(st, p, i)
  {
    if !broken {
      FinishCopying(T.CellsOf(st, p), E.CellsOf(st, r));
    } else if E.TableOk(st, r) {
      LeftoverIsWrong(st, p, bad, r, at);
    }
  }

  /** The parallel form: every cell starts with a fresh index variable and goes to its own position, in any
      order; cells of which nothing is left are marked, then removed unless they are to be kept. */
  method ToCqrParallel(src: T.TreedCqr, order: seq<nat>, keepEmpty: bool) returns (r: E.EagerCqr)
    requires src.Valid() && src.store.At(0) == {}
    requires forall i: nat :: i in order <==> i < |src.desc|
    ensures fresh(r) && r.store == src.store
    ensures !keepEmpty ==> r.Valid() && r.Result() == src.Result()
    ensures keepEmpty ==> E.Marked(r.store, r.Vectors()) && E.CellsOf(r.store, r.Vectors()) == src.Cells()
  {
    var dest := new E.EagerCqr(src.store);
    dest.desc := seq(|src.desc|, _ => E.CellDesc(false, false, 0));
    assert |seq(|src.desc|, _ => E.Ptr(0))| == |src.desc|;
    var words: seq<E.IndexDesc> :| |words| == |src.desc|;
    dest.idx := words;
    var anyEmpty := ProcessAll(src, order, dest);
    AllProcessed(src.store, src.Vectors(), dest.Vectors());
    if keepEmpty || !anyEmpty {
      r := dest;
    } else {
      r := dest.RemoveEmpty();
    }
  }

  method ProcessAll(src: T.TreedCqr, order: seq<nat>, dest: E.EagerCqr) returns (anyEmpty: bool)
    requires src.Valid() && src.store.At(0) == {} && |src.desc| == |dest.desc| == |dest.idx|
    requires forall i: nat :: i in order <==> i < |src.desc|
    modifies dest`desc, dest`idx
    ensures |src.desc| == |dest.desc| == |dest.idx|
    ensures forall i: nat :: i < |src.desc| ==> Processed(src.store, src.Vectors(), dest.Vectors(), i)
    ensures !anyEmpty ==> forall i: nat :: i < |src.desc| ==> E.EntryOk(src.store, dest.desc[i], dest.idx[i])
  {
    anyEmpty := false;
    for k := 0 to |order|
      invariant |dest.desc| == |dest.idx| == |src.desc|
      invariant forall i: nat :: i in order[..k] ==> Processed(src.store, src.Vectors(), dest.Vectors(), i)
      invariant !anyEmpty ==> forall i: nat :: i in order[..k] && i < |src.desc| ==>
                  E.EntryOk(src.store, dest.desc[i], dest.idx[i])
    {
      ghost var before := dest.Vectors();
      assert order[k] in order && order[..k + 1] == order[..k] + [order[k]];
      var empty := Process(src, order[k], dest);
      anyEmpty := anyEmpty || empty;
      forall i: nat | i in order[..k + 1] ensures Processed(src.store, src.Vectors(), dest.Vectors(), i) {
        assert i == order[k] || Processed(src.store, src.Vectors(), before, i);
      }
    }
    assert order[..|order|] == order;
  }

  /** One cell in the parallel form. */
  method Process(src: T.TreedCqr, i: nat, dest: E.EagerCqr) returns (empty: bool)
    requires src.Valid() && src.store.At(0) == {} && i < |src.desc| == |dest.desc| == |dest.idx|
    modifies dest`desc, dest`idx
    ensures |dest.desc| == |dest.idx| == |src.desc|
    ensures forall q :: 0 <= q < |dest.desc| && q != i ==>
              dest.desc[q] == old(dest.desc)[q] && dest.idx[q] == old(dest.idx)[q]
    ensures Processed(src.store, src.Vectors(), dest.Vectors(), i)
    ensures !empty ==> E.EntryOk(src.store, dest.desc[i], dest.idx[i])
  {
    var keep, d, x, _, _ := FlattenDesc(src, i, {}, 0);
    if keep {
      dest.desc, dest.idx := dest.desc[i := d], dest.idx[i := x];
    } else {
      dest.desc := dest.desc[i := E.CellDesc(false, false, src.desc[i].cellId)];
      dest.idx := dest.idx[i := E.Ptr(0)];
    }
    empty := !keep;
  }

  /** Position i of the destination holds cell i of the plan, or the mark of an empty cell. */
  ghost predicate Processed(st: CellStore, p: T.Plan, t: E.Table, i: nat) {
    && i < |p.desc| && i < |t.desc| && i < |t.idx|
    && t.desc[i].cellId == p.desc[i].cellId
    && !(t.desc[i].fullMatch && t.desc[i].fetched)
    && E.EntryItems(st, t.desc[i], t.idx[i]) == T.DescItems(st, p, p.desc[i])
    && (E.EntryOk(st, t.desc[i], t.idx[i]) || (t.desc[i] == E.CellDesc(false, false, t.desc[i].cellId) && t.idx[i] == E.Ptr(0)))
  }

  lemma AllProcessed(st: CellStore, p: T.Plan, t: E.Table)
    requires T.PlanOk(st, p) && st.At(0) == {} && |t.desc| == |t.idx| == |p.desc|
    requires forall i: nat :: i < |p.desc| ==> Processed(st, p, t, i)
    ensures E.Marked(st, t) && E.CellsOf(st, t) == T.CellsOf(st, p)
    ensures forall i :: 0 <= i < |t.desc| ==> !E.NotForCopying(t.desc[i], t.idx[i])
  {
    forall i, j | 0 <= i < j < |t.desc| ensures t.desc[i].cellId < t.desc[j].cellId {
      assert Processed(st, p, t, i) && Processed(st, p, t, j);
    }
    forall i | 0 <= i < |t.desc|
      ensures E.CellsOf(st, t)[i] == T.CellsOf(st, p)[i]
      ensures E.EntryMarked(st, t.desc[i], t.idx[i]) && !E.NotForCopying(t.desc[i], t.idx[i])
    {
      assert Processed(st, p, t, i);
    }
  }

  /** An eager result as a plan: fetched indices become fetched leaves. */
  method FromCqr(cqr: E.EagerCqr) returns (r: T.TreedCqr)
    requires cqr.Valid()
    ensures fresh(r) && r.store == cqr.store && r.Valid()
    ensures r.Cells() == cqr.Cells()
  {
    r := new T.TreedCqr(cqr.store);
    ghost var xs := cqr.Cells();
    for i := 0 to |cqr.desc|
      invariant fresh(r) && r.store == cqr.store && r.Valid()
      invariant forall k :: 0 <= k < |r.desc| && i < |cqr.desc| ==> r.desc[k].cellId < cqr.desc[i].cellId
      invariant r.Cells() == xs[..i]
    {
      var cd, x := cqr.desc[i], cqr.idx[i];
      E.EntryInCell(cqr.store, cd, x);
      assert xs[..i + 1] == xs[..i] + [xs[i]];
      if cd.fetched {
        T.TreedCqr.PushFetched(cd.cellId, x.idx, r);
      } else if cd.fullMatch {
        T.TreedCqr.PushFull(cd.cellId, r);
      } else {
        ghost var p := r.Vectors();
        r.desc := r.desc + [T.PlainDesc(false, cd.cellId, x.idxPtr)];
        T.PushKeepsPlan(r.store, p, r.Vectors(), T.PlainDesc(false, cd.cellId, x.idxPtr));
      }
    }
    assert xs[..|cqr.desc|] == xs;
  }

  datatype Query =
    | Input(k: nat)
    | Op(op: SetOp, a: Query, b: Query)
    | AllToFull(a: Query)

  /** The meaning of a query over cell maps. */
  function Answer(st: CellStore, q: Query, env: seq<map<CellId, ItemIndex>>): map<CellId, ItemIndex> {
    match q
    case Input(k) => if k < |env| then env[k] else map[]
    case Op(op, a, b) => Pointwise(op, Answer(st, a, env), Answer(st, b, env))
    case AllToFull(a) => Widen(st, Answer(st, a, env))
  }

  /** Item x of cell c is in the answer: what a reader of the query expects, item by item. */
  ghost predicate InAnswer(st: CellStore, q: Query, env: seq<map<CellId, ItemIndex>>, c: CellId, x: nat) {
    match q
    case Input(k) => k < |env| && c in env[k] && x in env[k][c]
    case Op(Intersect, a, b) => InAnswer(st, a, env, c, x) && InAnswer(st, b, env, c, x)
    case Op(Unite, a, b) => InAnswer(st, a, env, c, x) || InAnswer(st, b, env, c, x)
    case Op(Diff, a, b) => InAnswer(st, a, env, c, x) && !InAnswer(st, b, env, c, x)
    case Op(SymDiff, a, b) => InAnswer(st, a, env, c, x) != InAnswer(st, b, env, c, x)
    case AllToFull(a) => x in st.Full(c) && exists y :: InAnswer(st, a, env, c, y)
  }

  ghost predicate NoEmptyCells(env: seq<map<CellId, ItemIndex>>) {
    forall k, c :: 0 <= k < |env| && c in env[k] ==> env[k][c] != {}
  }

  lemma {:induction false} AnswerItems(st: CellStore, q: Query, env: seq<map<CellId, ItemIndex>>)
    requires NoEmptyCells(env)
    ensures forall c, x :: Holds(Answer(st, q, env), c, x) <==> InAnswer(st, q, env, c, x)
    ensures forall c :: c in Answer(st, q, env) && Answer(st, q, env)[c] == {} ==> st.Full(c) == {}
  {
    match q
    case Input(_) =>
    case Op(op, a, b) =>
      AnswerItems(st, a, env);
      AnswerItems(st, b, env);
      NothingLost(op, Answer(st, a, env), Answer(st, b, env));
    case AllToFull(a) =>
      AnswerItems(st, a, env);
      var f := Answer(st, a, env);
      forall c, x | c in f && x in st.Full(c) ensures exists y :: InAnswer(st, a, env, c, y) {
        var y :| y in f[c];
        assert Holds(f, c, y);
      }
      assert forall c, y :: InAnswer(st, a, env, c, y) ==> Holds(f, c, y);
  }

  predicate HasDifference(q: Query) {
    match q
    case Input(_) => false
    case Op(op, a, b) => op.Diff? || op.SymDiff? || HasDifference(a) || HasDifference(b)
    case AllToFull(a) => HasDifference(a)
  }

  predicate Widens(q: Query) {
    match q
    case Input(_) => false
    case Op(_, a, b) => Widens(a) || Widens(b)
    case AllToFull(_) => true
  }

  /** Nothing has been widened on the left of a difference or on either side of a symmetric difference. */
  predicate WidensOutside(q: Query) {
    match q
    case Input(_) => true
    case Op(op, a, b) => WidensOutside(a) && WidensOutside(b) && (op.Diff? || op.SymDiff? ==> !Widens(a)) && (op.SymDiff? ==> !Widens(b))
    case AllToFull(a) => WidensOutside(a)
  }

  // ---- what an eager evaluation does --------------------------------------------------------

  /** The tables of an evaluation: the result of each operation when it was made, and its operands when they
      were combined. */
  datatype Trace =
    | AtInput(t: E.Table)
    | AtOp(t: E.Table, mine: E.Table, other: E.Table, a: Trace, b: Trace)
    | AtFull(t: E.Table, a: Trace)

  /** r is the operation on t and o without the cells that the comparison of words loses, and its words come
      from their slots. */
  ghost predicate Combined(st: CellStore, op: SetOp, t: E.Table, o: E.Table, r: E.Table) {
    && E.TableOk(st, t) && E.TableOk(st, o) && E.TableOk(st, r) && E.SlotsFrom(st, r, t, o)
    && Meaning(E.CellsOf(st, r)) == Pointwise(op, Meaning(E.CellsOf(st, t)), Meaning(E.CellsOf(st, o))) - E.Clashes(op, t, o)
  }

  /** The trace is that of an evaluation of q over the tables; between operations indices may be fetched. */
  ghost predicate Traced(st: CellStore, q: Query, tables: seq<E.Table>, tr: Trace)
    decreases q
  {
    match q
    case Input(k) =>
      tr.AtInput? && if k < |tables| then E.Since(st, tables[k], tr.t) else tr.t == E.Table([], [])
    case Op(op, a, b) =>
      && tr.AtOp? && Traced(st, a, tables, tr.a) && Traced(st, b, tables, tr.b)
      && E.Since(st, tr.a.t, tr.mine) && tr.other == tr.b.t && Combined(st, op, tr.mine, tr.other, tr.t)
    case AllToFull(a) =>
      && tr.AtFull? && Traced(st, a, tables, tr.a)
      && E.TableOk(st, tr.a.t) && E.TableOk(st, tr.t)
      && Meaning(E.CellsOf(st, tr.t)) == Widen(st, Meaning(E.CellsOf(st, tr.a.t)))
  }

  /** The inputs as cell maps. */
  ghost function Meanings(st: CellStore, tables: seq<E.Table>): seq<map<CellId, ItemIndex>>
    requires forall k :: 0 <= k < |tables| ==> E.TableOk(st, tables[k])
  {
    seq(|tables|, k requires 0 <= k < |tables| && E.TableOk(st, tables[k]) => Meaning(E.CellsOf(st, tables[k])))
  }

  /** No operation loses a cell; E.DiffExactness says when one does. */
  ghost predicate Harmless(st: CellStore, q: Query, tr: Trace)
    decreases q
  {
    match q
    case Input(_) => true
    case Op(op, a, b) =>
      && tr.AtOp? && Harmless(st, a, tr.a) && Harmless(st, b, tr.b)
      && E.TableOk(st, tr.mine) && E.TableOk(st, tr.other) && E.LosesNothing(st, op, tr.mine, tr.other)
    case AllToFull(a) => tr.AtFull? && Harmless(st, a, tr.a)
  }

  lemma {:induction false} HarmlessIsExact(st: CellStore, q: Query, tables: seq<E.Table>, tr: Trace)
    requires forall k :: 0 <= k < |tables| ==> E.TableOk(st, tables[k])
    requires Traced(st, q, tables, tr) && Harmless(st, q, tr)
    ensures E.TableOk(st, tr.t) && Meaning(E.CellsOf(st, tr.t)) == Answer(st, q, Meanings(st, tables))
    decreases q
  {
    match q
    case Input(k) =>
      if k >= |tables| {
        assert E.CellsOf(st, tr.t) == [];
      }
    case Op(op, a, b) =>
      HarmlessIsExact(st, a, tables, tr.a);
      HarmlessIsExact(st, b, tables, tr.b);
    case AllToFull(a) =>
      HarmlessIsExact(st, a, tables, tr.a);
  }

  ghost predicate AllWritten(st: CellStore, tables: seq<E.Table>) {
    forall k :: 0 <= k < |tables| ==> E.Written(st, tables[k])
  }

  /** Without widening, slots that are written stay written. */
  lemma {:induction false} StaysWritten(st: CellStore, q: Query, tables: seq<E.Table>, tr: Trace)
    requires Traced(st, q, tables, tr) && AllWritten(st, tables) && !Widens(q)
    ensures E.Written(st, tr.t)
    decreases q
  {
    match q
    case Input(k) =>
      if k < |tables| {
        E.LaterWritten(st, tables[k], tr.t);
      }
    case Op(op, a, b) =>
      StaysWritten(st, a, tables, tr.a);
      StaysWritten(st, b, tables, tr.b);
      E.LaterWritten(st, tr.a.t, tr.mine);
      E.FromWritten(st, tr.t, tr.mine, tr.other);
    case AllToFull(_) =>
  }

  /** The condition that a caller can check: what differences compare comes, without widening, from inputs
      with written slots. */
  ghost predicate Safe(st: CellStore, q: Query, tables: seq<E.Table>) {
    HasDifference(q) ==> WidensOutside(q) && AllWritten(st, tables)
  }

  lemma {:induction false} SafeIsHarmless(st: CellStore, q: Query, tables: seq<E.Table>, tr: Trace)
    requires Traced(st, q, tables, tr) && Safe(st, q, tables)
    ensures Harmless(st, q, tr)
    decreases q
  {
    match q
    case Input(_) =>
    case Op(op, a, b) =>
      SafeIsHarmless(st, a, tables, tr.a);
      SafeIsHarmless(st, b, tables, tr.b);
      if op.Diff? || op.SymDiff? {
        StaysWritten(st, a, tables, tr.a);
        E.LaterWritten(st, tr.a.t, tr.mine);
      }
      if op.SymDiff? {
        StaysWritten(st, b, tables, tr.b);
      }
      E.WrittenLosesNothing(st, op, tr.mine, tr.other);
    case AllToFull(a) =>
      SafeIsHarmless(st, a, tables, tr.a);
  }

  ghost predicate LazyInputs(st: CellStore, inputs: seq<T.TreedCqr>, env: seq<map<CellId, ItemIndex>>)
    reads inputs
  {
    && |inputs| == |env|
    && forall k :: 0 <= k < |inputs| ==>
         inputs[k].store == st && inputs[k].Valid() && inputs[k].Result() == env[k]
  }

  ghost function Tables(inputs: seq<E.EagerCqr>): seq<E.Table>
    reads inputs
  {
    seq(|inputs|, k requires 0 <= k < |inputs| reads inputs => inputs[k].Vectors())
  }

  ghost predicate AllSince(st: CellStore, tables: seq<E.Table>, later: seq<E.Table>) {
    |tables| == |later| && forall k :: 0 <= k < |tables| ==> E.Since(st, tables[k], later[k])
  }

  lemma AllSinceAgain(st: CellStore, tables: seq<E.Table>, later: seq<E.Table>, last: seq<E.Table>)
    requires AllSince(st, tables, later) && AllSince(st, later, last)
    ensures AllSince(st, tables, last)
  {
    forall k | 0 <= k < |tables| ensures E.Since(st, tables[k], last[k]) {
      E.LaterStill(tables[k], later[k], last[k]);
    }
  }

  /** The inputs are the given tables, but for indices fetched since. */
  ghost predicate EagerInputs(st: CellStore, inputs: seq<E.EagerCqr>, tables: seq<E.Table>)
    reads inputs
  {
    (forall k :: 0 <= k < |inputs| ==> inputs[k].store == st) && AllSince(st, tables, Tables(inputs))
  }

  method EvalLazy(st: CellStore, q: Query, inputs: seq<T.TreedCqr>, ghost env: seq<map<CellId, ItemIndex>>)
    returns (r: T.TreedCqr)
    requires LazyInputs(st, inputs, env)
    ensures r.store == st && r.Valid() && r.Result() == Answer(st, q, env)
    ensures LazyInputs(st, inputs, env)
    ensures !Widens(q) && (forall k :: 0 <= k < |inputs| ==> inputs[k].Unwidened()) ==> r.Unwidened()
    decreases q
  {
    match q
    case Input(k) =>
      if k < |inputs| { r := inputs[k]; } else { r := new T.TreedCqr(st); }
    case Op(op, a, b) =>
      var x := EvalLazy(st, a, inputs, env);
      var y := EvalLazy(st, b, inputs, env);
      r := x.Combine(op, y);
    case AllToFull(a) =>
      var x := EvalLazy(st, a, inputs, env);
      r := x.AllToFull();
  }

  /** Eager evaluation. */
  method EvalEager(st: CellStore, q: Query, inputs: seq<E.EagerCqr>, ghost tables: seq<E.Table>)
    returns (r: E.EagerCqr, ghost tr: Trace)
    requires EagerInputs(st, inputs, tables)
    modifies inputs
    ensures EagerInputs(st, inputs, tables) && AllSince(st, old(Tables(inputs)), Tables(inputs))
    ensures r.store == st && (fresh(r) || r in inputs)
    ensures Traced(st, q, tables, tr) && tr.t == r.Vectors() && r.Valid()
    decreases q, 2
  {
    match q
    case Input(k) =>
      if k < |inputs| { r := inputs[k]; } else { r := new E.EagerCqr(st); }
      tr := AtInput(r.Vectors());
      assert k < |inputs| ==> Tables(inputs)[k] == r.Vectors();
    case Op(op, a, b) =>
      r, tr := EvalEagerOp(st, op, a, b, inputs, tables);
    case AllToFull(a) =>
      var x;
      x, tr := EvalEager(st, a, inputs, tables);
      r := x.AllToFull();
      tr := AtFull(r.Vectors(), tr);
  }

  method EvalEagerOp(st: CellStore, op: SetOp, a: Query, b: Query, inputs: seq<E.EagerCqr>, ghost tables: seq<E.Table>)
    returns (r: E.EagerCqr, ghost tr: Trace)
    requires EagerInputs(st, inputs, tables)
    modifies inputs
    ensures EagerInputs(st, inputs, tables) && AllSince(st, old(Tables(inputs)), Tables(inputs))
    ensures r.store == st && fresh(r)
    ensures Traced(st, Op(op, a, b), tables, tr) && tr.t == r.Vectors() && r.Valid()
    decreases Op(op, a, b), 1
  {
    ghost var t0 := Tables(inputs);
    var x, y, trA, trB := EvalOperands(st, op, a, b, inputs, tables);
    ghost var t1, t, o := Tables(inputs), x.Vectors(), y.Vectors();
    InputsValid(st, inputs, tables);
    r := CombineKept(st, op, x, y, inputs);
    AllSinceAgain(st, tables, t1, Tables(inputs));
    AllSinceAgain(st, t0, t1, Tables(inputs));
    tr := AtOp(r.Vectors(), t, o, trA, trB);
    TracedOp(st, op, a, b, tables, trA, trB, t, r.Vectors());
  }

  lemma InputsValid(st: CellStore, inputs: seq<E.EagerCqr>, tables: seq<E.Table>)
    requires EagerInputs(st, inputs, tables)
    ensures forall k :: 0 <= k < |inputs| ==> inputs[k].store == st && inputs[k].Valid()
  {
    assert forall k :: 0 <= k < |inputs| ==> Tables(inputs)[k] == inputs[k].Vectors();
  }

  lemma TracedOp(st: CellStore, op: SetOp, a: Query, b: Query, tables: seq<E.Table>, trA: Trace, trB: Trace, t: E.Table, r: E.Table)
    requires Traced(st, a, tables, trA) && Traced(st, b, tables, trB)
    requires E.Since(st, trA.t, t) && Combined(st, op, t, trB.t, r)
    ensures Traced(st, Op(op, a, b), tables, AtOp(r, t, trB.t, trA, trB))
  {
  }

  /** Both operands; evaluating the second may fetch indices of the first. */
  method EvalOperands(st: CellStore, op: SetOp, a: Query, b: Query, inputs: seq<E.EagerCqr>, ghost tables: seq<E.Table>)
    returns (x: E.EagerCqr, y: E.EagerCqr, ghost trA: Trace, ghost trB: Trace)
    requires EagerInputs(st, inputs, tables)
    modifies inputs
    ensures EagerInputs(st, inputs, tables) && AllSince(st, old(Tables(inputs)), Tables(inputs))
    ensures x.store == st == y.store && (fresh(x) || x in inputs) && (fresh(y) || y in inputs)
    ensures Traced(st, a, tables, trA) && Traced(st, b, tables, trB)
    ensures E.Since(st, trA.t, x.Vectors()) && trB.t == y.Vectors() && y.Valid()
    decreases Op(op, a, b), 0
  {
    ghost var t0 := Tables(inputs);
    x, trA := EvalEager(st, a, inputs, tables);
    ghost var t1, mine := Tables(inputs), x.Vectors();
    y, trB := EvalEager(st, b, inputs, tables);
    AllSinceAgain(st, t0, t1, Tables(inputs));
    if x in inputs {
      ghost var k :| 0 <= k < |inputs| && inputs[k] == x;
      assert t1[k] == mine && Tables(inputs)[k] == x.Vectors();
    } else {
      assert x.Vectors() == mine;
    }
  }

  /** Fetching indices on the way leaves the inputs what they are. */
  method CombineKept(st: CellStore, op: SetOp, x: E.EagerCqr, y: E.EagerCqr, inputs: seq<E.EagerCqr>) returns (r: E.EagerCqr)
    requires forall k :: 0 <= k < |inputs| ==> inputs[k].store == st && inputs[k].Valid()
    requires x.Valid() && y.Valid() && x.store == st == y.store
    modifies x`desc, x`idx, y`desc, y`idx
    ensures AllSince(st, old(Tables(inputs)), Tables(inputs))
    ensures fresh(r) && r.store == st && r.Valid()
    ensures Combined(st, op, old(x.Vectors()), old(y.Vectors()), r.Vectors())
  {
    ghost var tables := Tables(inputs);
    r := x.Combine(op, y);
    forall k | 0 <= k < |inputs| ensures E.Since(st, tables[k], Tables(inputs)[k]) {
      assert inputs[k] == x || inputs[k] == y || inputs[k].Vectors() == old(inputs[k].Vectors());
    }
  }

  /** The lazy plan of a query and both of its conversions. */
  method EvalAndFlatten(st: CellStore, q: Query, inputs: seq<T.TreedCqr>, ghost env: seq<map<CellId, ItemIndex>>)
    returns (plan: T.TreedCqr, parallel: E.EagerCqr, sequential: E.EagerCqr)
    requires LazyInputs(st, inputs, env) && st.At(0) == {}
    ensures plan.store == parallel.store == sequential.store == st
    ensures plan.Valid() && plan.Result() == Answer(st, q, env)
    ensures parallel.Valid() && parallel.Result() == Answer(st, q, env)
    ensures (sequential.Valid() && sequential.Result() == Answer(st, q, env)) <==>
              forall i :: 0 <= i < |plan.desc| ==> !Stale(st, plan.Vectors(), i)
    ensures !Widens(q) && (forall k :: 0 <= k < |inputs| ==> inputs[k].Unwidened())
            ==> sequential.Valid() && sequential.Result() == Answer(st, q, env)
  {
    plan := EvalLazy(st, q, inputs, env);
    sequential := ToCqr(plan);
    parallel := ToCqrParallel(plan, UpTo(|plan.desc|), false);
  }

  lemma InputsHaveItems(st: CellStore, inputs: seq<T.TreedCqr>, env: seq<map<CellId, ItemIndex>>)
    requires LazyInputs(st, inputs, env)
    ensures NoEmptyCells(env)
  {
    forall k | 0 <= k < |env| ensures forall c :: c in env[k] ==> env[k][c] != {} {
      MeaningNonEmpty(inputs[k].Cells());
    }
  }

  /** Lazy evaluation followed by flattening and eager evaluation, for every query over the same inputs.
      The plan and its parallel flattening give the answer.  Sequential flattening gives it exactly if no
      cell is stale; nothing is stale if nothing is widened.  The eager engine gives it without what its
      differences lose; they lose nothing if the query is safe. */
  method LazyAgreesWithEager(st: CellStore, q: Query, lazy: seq<T.TreedCqr>, eager: seq<E.EagerCqr>,
                             ghost env: seq<map<CellId, ItemIndex>>)
    returns (plan: T.TreedCqr, parallel: E.EagerCqr, sequential: E.EagerCqr, direct: E.EagerCqr, ghost tr: Trace)
    requires LazyInputs(st, lazy, env) && st.At(0) == {}
    requires EagerInputs(st, eager, Tables(eager)) && Meanings(st, Tables(eager)) == env
    modifies eager
    ensures plan.store == parallel.store == sequential.store == direct.store == st
    ensures plan.Valid() && plan.Result() == Answer(st, q, env)
    ensures parallel.Valid() && parallel.Result() == Answer(st, q, env)
    ensures (sequential.Valid() && sequential.Result() == Answer(st, q, env)) <==>
              forall i :: 0 <= i < |plan.desc| ==> !Stale(st, plan.Vectors(), i)
    ensures !Widens(q) && (forall k :: 0 <= k < |lazy| ==> lazy[k].Unwidened())
            ==> sequential.Valid() && sequential.Result() == Answer(st, q, env)
    ensures forall c, x :: Holds(Answer(st, q, env), c, x) <==> InAnswer(st, q, env, c, x)
    ensures direct.Valid() && Traced(st, q, old(Tables(eager)), tr) && tr.t == direct.Vectors()
    ensures Harmless(st, q, tr) ==> direct.Result() == Answer(st, q, env)
    ensures Safe(st, q, old(Tables(eager))) ==> direct.Result() == Answer(st, q, env)
  {
    ghost var tables := Tables(eager);
    direct, tr := EvalEager(st, q, eager, tables);
    TraceAnswers(st, q, tables, tr);
    InputsHaveItems(st, lazy, env);
    AnswerItems(st, q, env);
    plan, parallel, sequential := EvalAndFlatten(st, q, lazy, env);
  }

  lemma TraceAnswers(st: CellStore, q: Query, tables: seq<E.Table>, tr: Trace)
    requires (forall k :: 0 <= k < |tables| ==> E.TableOk(st, tables[k])) && Traced(st, q, tables, tr)
    ensures Safe(st, q, tables) ==> Harmless(st, q, tr)
    ensures Harmless(st, q, tr) ==> E.TableOk(st, tr.t) && Meaning(E.CellsOf(st, tr.t)) == Answer(st, q, Meanings(st, tables))
  {
    if Safe(st, q, tables) {
      SafeIsHarmless(st, q, tables, tr);
    }
    if Harmless(st, q, tr) {
      HarmlessIsExact(st, q, tables, tr);
    }
  }

  function UpTo(n: nat): (r: seq<nat>)
    ensures forall i: nat :: i in r <==> i < n
  {
    if n == 0 then [] else UpTo(n - 1) + [n - 1]
  }

  /** A plan with a stale cell: the first cell is an intersection with a hit, the second is the widened
      union of two intersections without one. */
  lemma StaleExample() returns (st: CellStore, p: T.Plan)
    ensures T.PlanOk(st, p) && |p.desc| == 2 && Stale(st, p, 1)
    ensures T.DescItems(st, p, p.desc[1]) == {} && Carried(st, p, 1) == {7}
  {
    st := CellStore([{}, {7}, {1, 2}, {1}, {2}], [1, 2], false);
    var first := [OpNode(SetOp.Intersect, 2), PmLeaf(1), PmLeaf(1)];
    var none := [OpNode(SetOp.Intersect, 2), PmLeaf(3), PmLeaf(4)];
    assert st.At(1) * st.At(1) == {7} && st.At(3) * st.At(4) == {};
    LeafPair(st, first, 1, 1, 0);
    LeafPair(st, none, 3, 4, 1);
    EmptyUnionWidened(st, none, 1);
    p := TwoCells(st, first, WidenedUnion(none));
    StaleCellIsEmpty(st, p, p.desc[1], Carried(st, p, 1));
  }

  /** Cells 0 and 1 with the given trees. */
  lemma TwoCells(st: CellStore, first: seq<FlatNode>, second: seq<FlatNode>) returns (p: T.Plan)
    requires 2 <= |st.cellPtr|
    requires WellFormed(st, first, [], 0) && WellFormed(st, second, [], 1)
    requires !first[0].FmLeaf? && !second[0].FmLeaf?
    ensures T.PlanOk(st, p) && |p.desc| == 2 && p.fetched == []
    ensures p.desc[1].HasTree() && p.desc[1].cellId == 1 && T.TreeOf(p, p.desc[1]) == second
    ensures Carried(st, p, 1) == IdxAfter(st, first, [], 0, {})
  {
    p := T.Plan([T.CellDesc(false, true, 0, 0, 0, |first|),
                 T.CellDesc(false, true, 1, 0, |first|, |first| + |second|)], first + second, []);
    assert p.trees[0..|first|] == first && p.trees[|first|..|first| + |second|] == second;
    assert Carried(st, p, 0) == {};
  }

  function WidenedUnion(t: seq<FlatNode>): seq<FlatNode> {
    [ToFm, OpNode(SetOp.Unite, 1 + |t|)] + t + t
  }

  lemma EmptyUnionWidened(st: CellStore, t: seq<FlatNode>, c: CellId)
    requires WellFormed(st, t, [], c) && Flatten(st, t, [], c) == Empty
    ensures WellFormed(st, WidenedUnion(t), [], c) && Flatten(st, WidenedUnion(t), [], c) == Fetched({})
  {
    var u := WidenedUnion(t)[1..];
    assert u == [OpNode(SetOp.Unite, 1 + |t|)] + t + t;
    assert u[1..1 + |t|] == t && u[1 + |t|..] == t;
  }

  /** An intersection of two partial matches. */
  lemma LeafPair(st: CellStore, t: seq<FlatNode>, a: IdxId, b: IdxId, c: CellId)
    requires t == [OpNode(SetOp.Intersect, 2), PmLeaf(a), PmLeaf(b)]
    requires st.PartialOk(a, c) && st.PartialOk(b, c)
    ensures WellFormed(st, t, [], c)
    ensures Flatten(st, t, [], c) == FetchedOrEmpty(st.At(a) * st.At(b))
    ensures IdxAfter(st, t, [], c, {}) == st.At(a) * st.At(b)
  {
    assert t[1..2] == [PmLeaf(a)] && t[2..] == [PmLeaf(b)];
  }

  /** A full match whose unwritten slot holds the id of the partial match it is compared with: the
      difference should be the rest of the cell and comes out empty. */
  lemma ClashExample() returns (st: CellStore, t: E.Table, o: E.Table)
    ensures E.TableOk(st, t) && E.TableOk(st, o) && !E.LosesNothing(st, SetOp.Diff, t, o)
    ensures st.Full(0) == {1, 2} && E.Written(st, o)
    ensures E.CellsOf(st, t) == [Cell(0, {1, 2})] && E.CellsOf(st, o) == [Cell(0, {1})]
    ensures E.Clashes(SetOp.Diff, t, o) == {0}
  {
    st := CellStore([{}, {1, 2}, {1}], [1], false);
    t := E.Table([E.CellDesc(true, false, 0)], [E.Ptr(2)]);
    o := E.Table([E.CellDesc(false, false, 0)], [E.Ptr(2)]);
    assert E.SlotClash(SetOp.Diff, t.desc[0], t.idx[0], o.desc[0], o.idx[0]);
    assert st.Full(0) == {1, 2} && st.At(2) == {1};
    assert 2 in st.Full(0) && 2 !in st.At(2);
    E.DiffExactness(st, SetOp.Diff, t, o);
  }

  lemma OneCell(x: ItemIndex)
    requires x != {}
    ensures Meaning([Cell(0, x)]) == map[0 := x] && Meaning([]) == map[]
  {
    assert [Cell(0, x)][1..] == [];
  }

  /** Why nothing may be widened on the left of a difference: the inputs have written slots only, but widening leaves
      any word in the slot of the full match. */
  lemma WidenedClashes() returns (st: CellStore, tables: seq<E.Table>, tr: Trace)
    ensures var q := Op(SetOp.Diff, AllToFull(Input(0)), Input(1));
            && (forall k :: 0 <= k < |tables| ==> E.TableOk(st, tables[k]))
            && AllWritten(st, tables) && Traced(st, q, tables, tr)
            && Meaning(E.CellsOf(st, tr.t)) != Answer(st, q, Meanings(st, tables))
  {
    var full, part;
    st, full, part := ClashExample();
    OneCell({1});
    OneCell({1, 2});
    tables := [part, part];
    var f, g, none := map[0 := {1, 2}], map[0 := {1}], E.Table([], []);
    assert E.CellsOf(st, none) == [];
    assert Widen(st, g) == f;
    DifferenceOfOne(f, g);
    tr := AtOp(none, full, part, AtFull(full, AtInput(part)), AtInput(part));
    TracedDifference(st, full, part, none, tables);
    assert Meanings(st, tables) == [g, g];
    assert Answer(st, AllToFull(Input(0)), [g, g]) == Widen(st, Answer(st, Input(0), [g, g])) == f;
  }

  lemma DifferenceOfOne(f: map<CellId, ItemIndex>, g: map<CellId, ItemIndex>)
    requires f == map[0 := {1, 2}] && g == map[0 := {1}]
    ensures 0 in Pointwise(SetOp.Diff, f, g) && Pointwise(SetOp.Diff, f, g) - {0} == map[]
  {
    assert 2 in Apply(SetOp.Diff, ItemsAt(f, 0), ItemsAt(g, 0));
  }

  lemma TracedDifference(st: CellStore, full: E.Table, part: E.Table, none: E.Table, tables: seq<E.Table>)
    requires tables == [part, part] && E.TableOk(st, part)
    requires E.TableOk(st, full) && Meaning(E.CellsOf(st, full)) == Widen(st, Meaning(E.CellsOf(st, part)))
    requires Combined(st, SetOp.Diff, full, part, none)
    ensures Traced(st, Op(SetOp.Diff, AllToFull(Input(0)), Input(1)), tables,
                   AtOp(none, full, part, AtFull(full, AtInput(part)), AtInput(part)))
  {
    assert Traced(st, Input(0), tables, AtInput(part)) && Traced(st, Input(1), tables, AtInput(part));
    assert Traced(st, AllToFull(Input(0)), tables, AtFull(full, AtInput(part)));
  }
}
