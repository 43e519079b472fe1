/** The eager query result: cell descriptors with one index slot per cell. */
module EagerCqr {
  // Every set operation is performed at once.

  import opened CellAlgebra

  datatype CellDesc = CellDesc(fullMatch: bool, fetched: bool, cellId: CellId)

  /** The slot of a cell holds either the id of an index or, once fetched, the index itself. */
  datatype IndexDesc = Ptr(idxPtr: IdxId) | Idx(idx: ItemIndex)

  datatype Table = Table(desc: seq<CellDesc>, idx: seq<IndexDesc>)

  /** The word in the slot of an unfetched full match is arbitrary: most operations never write it. */
  ghost predicate EntryOk(st: CellStore, d: CellDesc, x: IndexDesc) {
    && d.cellId < |st.cellPtr|
    && d.fetched == x.Idx?
    && if d.fullMatch then x.Idx? ==> x.idx == st.Full(d.cellId)
       else match x
            case Ptr(id) => st.PartialOk(id, d.cellId)
            case Idx(items) => items != {} && items <= st.Full(d.cellId)
  }

  ghost predicate TableOk(st: CellStore, t: Table) {
    && |t.desc| == |t.idx|
    && (forall i {:trigger EntryOk(st, t.desc[i], t.idx[i])} :: 0 <= i < |t.desc| ==> EntryOk(st, t.desc[i], t.idx[i]))
    && (forall i, j :: 0 <= i < j < |t.desc| ==> t.desc[i].cellId < t.desc[j].cellId)
  }

  function EntryItems(st: CellStore, d: CellDesc, x: IndexDesc): ItemIndex {
    match x
    case Idx(items) => items
    case Ptr(id) => if d.fullMatch then st.Full(d.cellId) else st.At(id)
  }

  ghost function CellsOf(st: CellStore, t: Table): (r: seq<Cell>)
    requires |t.desc| == |t.idx|
    ensures |r| == |t.desc|
  {
    seq(|t.desc|, i requires 0 <= i < |t.desc| => Cell(t.desc[i].cellId, EntryItems(st, t.desc[i], t.idx[i])))
  }

  lemma CellsSorted(st: CellStore, t: Table)
    requires TableOk(st, t)
    ensures Sorted(CellsOf(st, t))
  {
  }

  lemma EntryInCell(st: CellStore, d: CellDesc, x: IndexDesc)
    requires EntryOk(st, d, x)
    ensures EntryItems(st, d, x) <= st.Full(d.cellId)
    ensures d.fullMatch ==> EntryItems(st, d, x) == st.Full(d.cellId)
  {
  }

  /** The entry is as it was, or its index has been fetched. */
  predicate EntryLater(d: CellDesc, x: IndexDesc, d2: CellDesc, x2: IndexDesc) {
    (d2 == d && x2 == x) || (d2 == d.(fetched := true) && x2.Idx?)
  }

  /** t2 is what t is after some of its indices have been fetched. */
  ghost predicate Later(t: Table, t2: Table) {
    && |t2.desc| == |t.desc| == |t.idx| == |t2.idx|
    && forall k :: 0 <= k < |t.desc| ==> EntryLater(t.desc[k], t.idx[k], t2.desc[k], t2.idx[k])
  }

  lemma LaterStill(t: Table, t2: Table, t3: Table)
    requires Later(t, t2) && Later(t2, t3)
    ensures Later(t, t3)
  {
    forall k | 0 <= k < |t.desc| ensures EntryLater(t.desc[k], t.idx[k], t3.desc[k], t3.idx[k]) {
      assert EntryLater(t.desc[k], t.idx[k], t2.desc[k], t2.idx[k]);
    }
  }

  /** The same, for valid tables; fetching changes no cell. */
  ghost predicate Since(st: CellStore, t: Table, t2: Table) {
    TableOk(st, t) && TableOk(st, t2) && Later(t, t2) && CellsOf(st, t2) == CellsOf(st, t)
  }

  /** The slot of an unfetched full match holds the id of the cell's own index, as a union that comes out
      complete writes it. */
  predicate SlotWritten(st: CellStore, d: CellDesc, x: IndexDesc) {
    d.fullMatch && x.Ptr? ==> d.cellId < |st.cellPtr| && x.idxPtr == st.cellPtr[d.cellId]
  }

  ghost predicate Written(st: CellStore, t: Table) {
    |t.desc| == |t.idx| && forall k :: 0 <= k < |t.desc| ==> SlotWritten(st, t.desc[k], t.idx[k])
  }

  /** Where a slot that holds a word has it from: from the slot of one of the two entries, or it is the id
      of the cell's own index. */
  predicate SlotFrom(st: CellStore, d: CellDesc, x: IndexDesc, d1: CellDesc, x1: IndexDesc, d2: CellDesc, x2: IndexDesc) {
    x.Idx? || (d == d1 && x == x1) || (d == d2 && x == x2) || (d.fullMatch && SlotWritten(st, d, x))
  }

  ghost predicate Has(t: Table, d: CellDesc, x: IndexDesc) {
    |t.desc| == |t.idx| && exists k :: 0 <= k < |t.desc| && t.desc[k] == d && t.idx[k] == x
  }

  ghost predicate EntryFrom(st: CellStore, d: CellDesc, x: IndexDesc, t: Table, t2: Table) {
    x.Idx? || Has(t, d, x) || Has(t2, d, x) || (d.fullMatch && SlotWritten(st, d, x))
  }

  /** Every word in a slot of w comes from a slot of the same cell in t or t2, or is that of the cell's own index. */
  ghost predicate SlotsFrom(st: CellStore, w: Table, t: Table, t2: Table) {
    |w.desc| == |w.idx| && forall k :: 0 <= k < |w.desc| ==> EntryFrom(st, w.desc[k], w.idx[k], t, t2)
  }

  lemma FromWritten(st: CellStore, w: Table, t: Table, t2: Table)
    requires SlotsFrom(st, w, t, t2) && Written(st, t) && Written(st, t2)
    ensures Written(st, w)
  {
    forall k | 0 <= k < |w.desc| ensures SlotWritten(st, w.desc[k], w.idx[k]) {
      assert EntryFrom(st, w.desc[k], w.idx[k], t, t2);
    }
  }

  lemma LaterWritten(st: CellStore, t: Table, t2: Table)
    requires Written(st, t) && Later(t, t2)
    ensures Written(st, t2)
  {
    forall k | 0 <= k < |t2.desc| ensures SlotWritten(st, t2.desc[k], t2.idx[k]) {
      assert EntryLater(t.desc[k], t.idx[k], t2.desc[k], t2.idx[k]) && SlotWritten(st, t.desc[k], t.idx[k]);
    }
  }

  /** One more entry, or none, whose word comes from one of the two. */
  ghost predicate Grown(st: CellStore, w: Table, w2: Table, d1: CellDesc, x1: IndexDesc, d2: CellDesc, x2: IndexDesc) {
    w2 == w ||
    (&& |w2.desc| == |w.desc| + 1 && |w2.idx| == |w.idx| + 1 && |w.desc| == |w.idx|
     && w2.desc[..|w.desc|] == w.desc && w2.idx[..|w.idx|] == w.idx
     && SlotFrom(st, w2.desc[|w.desc|], w2.idx[|w.idx|], d1, x1, d2, x2))
  }

  lemma GrownFrom(st: CellStore, w: Table, w2: Table, t: Table, i: nat, t2: Table, j: nat)
    requires SlotsFrom(st, w, t, t2) && i < |t.desc| == |t.idx| && j < |t2.desc| == |t2.idx|
    requires Grown(st, w, w2, t.desc[i], t.idx[i], t2.desc[j], t2.idx[j])
    ensures SlotsFrom(st, w2, t, t2)
  {
    forall k | 0 <= k < |w2.desc| ensures EntryFrom(st, w2.desc[k], w2.idx[k], t, t2) {
      if k < |w.desc| {
        assert w2.desc[k] == w.desc[k] && w2.idx[k] == w.idx[k];
      }
    }
  }

  /** t2 is t, except that the index of the cell at pos may have been fetched. */
  ghost predicate FetchedAt(st: CellStore, t: Table, t2: Table, pos: nat) {
    && |t2.desc| == |t.desc| == |t.idx| == |t2.idx| && pos < |t.desc|
    && TableOk(st, t2) && CellsOf(st, t2) == CellsOf(st, t)
    && (forall k :: 0 <= k < |t.desc| && k != pos ==> t2.desc[k] == t.desc[k] && t2.idx[k] == t.idx[k])
    && EntryLater(t.desc[pos], t.idx[pos], t2.desc[pos], t2.idx[pos])
  }

  /** The pointer comparison of the difference operators meets a full match whose slot happens to
      hold the id of the other side's partial match. */
  predicate SlotClash(op: SetOp, d: CellDesc, x: IndexDesc, d2: CellDesc, x2: IndexDesc) {
    && x.Ptr? && x2.Ptr? && x.idxPtr == x2.idxPtr
    && (op.Diff? || op.SymDiff?)
    && ((d.fullMatch && !d2.fullMatch) || (op.SymDiff? && !d.fullMatch && d2.fullMatch))
  }

  /** The cells in which the difference operators compare an unwritten word. */
  ghost function Clashes(op: SetOp, t: Table, o: Table): set<CellId>
    requires |t.desc| == |t.idx| && |o.desc| == |o.idx|
  {
    set i, j | 0 <= i < |t.desc| && 0 <= j < |o.desc| && t.desc[i].cellId == o.desc[j].cellId
               && SlotClash(op, t.desc[i], t.idx[i], o.desc[j], o.idx[j]) :: t.desc[i].cellId
  }

  ghost predicate Before(rd: seq<CellDesc>, d: seq<CellDesc>, i: nat) {
    i < |d| ==> forall k :: 0 <= k < |rd| ==> rd[k].cellId < d[i].cellId
  }

  /** The cell at positions i and j is a full match in the outcome: an intersection takes two full matches, a union
      one, or partial matches under different ids that make up the cell.  A difference has no full matches. */
  ghost predicate FullOutcome(st: CellStore, op: SetOp, t: Table, i: nat, t2: Table, j: nat)
    requires i < |t.desc| == |t.idx| && j < |t2.desc| == |t2.idx|
  {
    var d, x, d2, x2 := t.desc[i], t.idx[i], t2.desc[j], t2.idx[j];
    match op
    case Intersect => d.fullMatch && d2.fullMatch
    case Unite =>
      || d.fullMatch || d2.fullMatch
      || (!(x.Ptr? && x2.Ptr? && x.idxPtr == x2.idxPtr)
          && forall y :: y in st.Full(d.cellId) ==> y in EntryItems(st, d, x) || y in EntryItems(st, d2, x2))
    case Diff => false
    case SymDiff => false
  }

  /** A union of partial matches under different ids is complete if it has as many items as the cell. */
  lemma CompleteUnion(st: CellStore, t: Table, i: nat, t2: Table, j: nat, res: ItemIndex)
    requires TableOk(st, t) && TableOk(st, t2) && i < |t.desc| && j < |t2.desc| && t.desc[i].cellId == t2.desc[j].cellId
    requires !t.desc[i].fullMatch && !t2.desc[j].fullMatch
    requires !(t.idx[i].Ptr? && t2.idx[j].Ptr? && t.idx[i].idxPtr == t2.idx[j].idxPtr)
    requires res == EntryItems(st, t.desc[i], t.idx[i]) + EntryItems(st, t2.desc[j], t2.idx[j])
    ensures |res| == st.CellItemsCount(t.desc[i].cellId) <==> res == st.Full(t.desc[i].cellId)
    ensures |res| == st.CellItemsCount(t.desc[i].cellId) <==> FullOutcome(st, SetOp.Unite, t, i, t2, j)
  {
    EntryInCell(st, t.desc[i], t.idx[i]);
    EntryInCell(st, t2.desc[j], t2.idx[j]);
    SubsetOfSameSize(res, st.Full(t.desc[i].cellId));
  }

  lemma PushKeepsTable(st: CellStore, t: Table, d: CellDesc, x: IndexDesc)
    requires TableOk(st, t) && EntryOk(st, d, x)
    requires forall k :: 0 <= k < |t.desc| ==> t.desc[k].cellId < d.cellId
    ensures TableOk(st, Table(t.desc + [d], t.idx + [x]))
    ensures CellsOf(st, Table(t.desc + [d], t.idx + [x])) == CellsOf(st, t) + [Cell(d.cellId, EntryItems(st, d, x))]
  {
  }

  /** Ids ascend, so a pair of positions with the same cell is the only such pair. */
  lemma ClashIff(st: CellStore, op: SetOp, t: Table, o: Table, i: nat, j: nat)
    requires TableOk(st, t) && TableOk(st, o) && i < |t.desc| && j < |o.desc|
    requires t.desc[i].cellId == o.desc[j].cellId
    ensures t.desc[i].cellId in Clashes(op, t, o) <==> SlotClash(op, t.desc[i], t.idx[i], o.desc[j], o.idx[j])
  {
    if k, l :| 0 <= k < |t.desc| && 0 <= l < |o.desc| && t.desc[k].cellId == o.desc[l].cellId == t.desc[i].cellId
               && SlotClash(op, t.desc[k], t.idx[k], o.desc[l], o.idx[l]) {
      assert k == i && l == j;
    }
  }

  /** Everything o has before position j comes before the cell at i. */
  ghost predicate Behind(t: Table, i: nat, o: Table, j: nat) {
    i < |t.desc| ==> forall q :: 0 <= q < j && q < |o.desc| ==> o.desc[q].cellId < t.desc[i].cellId
  }

  lemma NoClash(st: CellStore, op: SetOp, t: Table, o: Table, i: nat, j: nat, k: nat)
    requires TableOk(st, t) && TableOk(st, o) && Behind(t, i, o, j) && i <= k < |t.desc| && j <= |o.desc|
    requires j < |o.desc| ==> t.desc[k].cellId < o.desc[j].cellId
    ensures t.desc[k].cellId !in Clashes(op, t, o)
  {
    forall l | 0 <= l < |o.desc| ensures o.desc[l].cellId != t.desc[k].cellId {
      if l < j { assert o.desc[l].cellId < t.desc[i].cellId; }
    }
  }

  /** The cell of t at position i and all later ones are untouched since t0. */
  ghost predicate SameFrom(t0: Table, t: Table, i: nat) {
    && |t.desc| == |t0.desc| == |t.idx| == |t0.idx|
    && (forall k :: i <= k < |t.desc| ==> t.desc[k] == t0.desc[k] && t.idx[k] == t0.idx[k])
    && (forall k :: 0 <= k < |t.desc| ==> t.desc[k].cellId == t0.desc[k].cellId)
  }

  /** A merge loop at positions i and j over what was t and t2 at its start and is now u and u2; it has
      written w. */
  ghost predicate Looping(st: CellStore, op: SetOp, t: Table, u: Table, i: nat, t2: Table, u2: Table, j: nat, w: Table) {
    && TableOk(st, t) && TableOk(st, u) && TableOk(st, t2) && TableOk(st, u2) && TableOk(st, w)
    && SameFrom(t, u, i) && SameFrom(t2, u2, j)
    && CellsOf(st, u) == CellsOf(st, t) && CellsOf(st, u2) == CellsOf(st, t2)
    && Before(w.desc, t.desc, i) && Before(w.desc, t2.desc, j)
    && Behind(t, i, t2, j)
    && Merging(op, Mistake(CellsOf(st, t), CellsOf(st, t2), Clashes(op, t, t2)), CellsOf(st, t2), i, j, CellsOf(st, w))
  }

  /** What a merge loop does to the slots: those of the operands are fetched at most, and words are handed on. */
  ghost predicate Handing(st: CellStore, t: Table, u: Table, t2: Table, u2: Table, w: Table) {
    Later(t, u) && Later(t2, u2) && SlotsFrom(st, w, t, t2)
  }

  lemma HandingSame(st: CellStore, t: Table, u: Table, u': Table, i: nat, t2: Table, u2: Table, u2': Table, j: nat, w: Table, w': Table)
    requires Handing(st, t, u, t2, u2, w) && SameFrom(t, u, i) && SameFrom(t2, u2, j) && i < |u.desc| && j < |u2.desc|
    requires FetchedAt(st, u, u', i) && FetchedAt(st, u2, u2', j)
    requires Grown(st, w, w', u.desc[i], u.idx[i], u2.desc[j], u2.idx[j])
    ensures Handing(st, t, u', t2, u2', w')
  {
    LaterStill(t, u, u');
    LaterStill(t2, u2, u2');
    GrownFrom(st, w, w', t, i, t2, j);
  }

  lemma LoopSame(st: CellStore, op: SetOp, t: Table, u: Table, u': Table, i: nat,
                 t2: Table, u2: Table, u2': Table, j: nat, w: Table, w': Table)
    requires Looping(st, op, t, u, i, t2, u2, j, w)
    requires i < |u.desc| && j < |u2.desc| && u.desc[i].cellId == u2.desc[j].cellId
    requires FetchedAt(st, u, u', i) && FetchedAt(st, u2, u2', j) && TableOk(st, w')
    requires forall k :: 0 <= k < |w'.desc| ==> w'.desc[k].cellId <= u.desc[i].cellId
    requires Produces(CellsOf(st, w), CellsOf(st, w'), u.desc[i].cellId,
               if SlotClash(op, u.desc[i], u.idx[i], u2.desc[j], u2.idx[j]) then {}
               else Apply(op, CellsOf(st, u)[i].items, CellsOf(st, u2)[j].items))
    ensures Looping(st, op, t, u', i + 1, t2, u2', j + 1, w')
  {
    var xs, ys, same := CellsOf(st, t), CellsOf(st, t2), Clashes(op, t, t2);
    ClashIff(st, op, t, t2, i, j);
    CellsSorted(st, t2);
    ItemsAtIndex(ys, j);
    assert Apply(Diff, ys[j].items, ys[j].items) == {} == Apply(SetOp.SymDiff, ys[j].items, ys[j].items);
    StepBoth(op, Mistake(xs, ys, same), ys, i, j, CellsOf(st, w), CellsOf(st, w'));
  }

  /** Copied entries keep their words. */
  lemma RestFrom(st: CellStore, w: Table, w2: Table, t: Table, t2: Table, src: Table, u: Table, i: nat)
    requires SlotsFrom(st, w, t, t2) && (src == t || src == t2) && SameFrom(src, u, i) && i <= |u.desc|
    requires w2.desc == w.desc + u.desc[i..] && w2.idx == w.idx + u.idx[i..]
    ensures SlotsFrom(st, w2, t, t2)
  {
    forall k | 0 <= k < |w2.desc| ensures EntryFrom(st, w2.desc[k], w2.idx[k], t, t2) {
      if k < |w.desc| {
        assert EntryFrom(st, w.desc[k], w.idx[k], t, t2);
      } else {
        var m := i + k - |w.desc|;
        assert w2.desc[k] == u.desc[m] == src.desc[m] && w2.idx[k] == u.idx[m] == src.idx[m];
      }
    }
  }

  lemma OneMore<T>(w: seq<T>, s: seq<T>, i: nat, k: nat)
    requires i <= k < |s|
    ensures w + s[i..k] + [s[k]] == w + s[i..k + 1]
  {
    assert s[i..k + 1] == s[i..k] + [s[k]];
  }

  lemma CellsJoin(st: CellStore, w: Table, u: Table, i: nat)
    requires |w.desc| == |w.idx| && i <= |u.desc| == |u.idx|
    ensures CellsOf(st, Table(w.desc + u.desc[i..], w.idx + u.idx[i..])) == CellsOf(st, w) + CellsOf(st, u)[i..]
  {
  }

  /** One copied entry. */
  lemma OneFrom(st: CellStore, w: Table, d: CellDesc, x: IndexDesc, t: Table, t2: Table)
    requires SlotsFrom(st, w, t, t2) && (Has(t, d, x) || Has(t2, d, x))
    ensures SlotsFrom(st, Table(w.desc + [d], w.idx + [x]), t, t2)
  {
    var w2 := Table(w.desc + [d], w.idx + [x]);
    forall k | 0 <= k < |w2.desc| ensures EntryFrom(st, w2.desc[k], w2.idx[k], t, t2) {
      if k < |w.desc| {
        assert EntryFrom(st, w.desc[k], w.idx[k], t, t2);
      }
    }
  }

  ghost predicate OneMoreOf(w: Table, w2: Table, u: Table, i: nat)
    requires i < |u.desc| == |u.idx|
  {
    w2 == Table(w.desc + [u.desc[i]], w.idx + [u.idx[i]])
  }

  lemma LoopMine(st: CellStore, op: SetOp, t: Table, u: Table, i: nat, t2: Table, u2: Table, j: nat, w: Table, w2: Table)
    requires Looping(st, op, t, u, i, t2, u2, j, w) && i < |u.desc| && j < |u2.desc| && u.desc[i].cellId < u2.desc[j].cellId
    requires if op == SetOp.Intersect then w2 == w else OneMoreOf(w, w2, u, i)
    ensures Looping(st, op, t, u, i + 1, t2, u2, j, w2)
  {
    var xs, ys, same := CellsOf(st, u), CellsOf(st, u2), Clashes(op, t, t2);
    NoClash(st, op, t, t2, i, j, i);
    if op != SetOp.Intersect {
      assert EntryOk(st, u.desc[i], u.idx[i]);
      PushKeepsTable(st, w, u.desc[i], u.idx[i]);
    }
    OnlyLeft(op, Mistake(xs, ys, same), ys, i, j, CellsOf(st, w), CellsOf(st, w2));
  }

  lemma LoopOther(st: CellStore, op: SetOp, t: Table, u: Table, i: nat, t2: Table, u2: Table, j: nat, w: Table, w2: Table)
    requires Looping(st, op, t, u, i, t2, u2, j, w) && i < |u.desc| && j < |u2.desc| && u2.desc[j].cellId < u.desc[i].cellId
    requires if op == SetOp.Unite || op == SetOp.SymDiff then OneMoreOf(w, w2, u2, j) else w2 == w
    ensures Looping(st, op, t, u, i, t2, u2, j + 1, w2)
  {
    var xs, ys, same := CellsOf(st, u), CellsOf(st, u2), Clashes(op, t, t2);
    if op == SetOp.Unite || op == SetOp.SymDiff {
      assert EntryOk(st, u2.desc[j], u2.idx[j]);
      PushKeepsTable(st, w, u2.desc[j], u2.idx[j]);
    }
    OnlyRight(op, Mistake(xs, ys, same), ys, i, j, CellsOf(st, w), CellsOf(st, w2));
  }

  lemma HandingOne(st: CellStore, t: Table, u: Table, t2: Table, u2: Table, w: Table, w2: Table, src: Table, k: nat)
    requires Handing(st, t, u, t2, u2, w) && (src == t || src == t2) && k < |src.desc| == |src.idx|
    requires w2 == w || OneMoreOf(w, w2, src, k)
    ensures Handing(st, t, u, t2, u2, w2)
  {
    if w2 != w {
      OneFrom(st, w, src.desc[k], src.idx[k], t, t2);
    }
  }

  lemma CombineMeaning(st: CellStore, op: SetOp, t: Table, t2: Table, i: nat, j: nat, out: seq<Cell>, out2: seq<Cell>)
    requires TableOk(st, t) && TableOk(st, t2)
    requires var ys := CellsOf(st, t2);
             var xs := Mistake(CellsOf(st, t), ys, Clashes(op, t, t2));
             && Merging(op, xs, ys, i, j, out) && (i == |xs| || j == |ys|)
             && if i < |xs| && op != Intersect then out2 == out + xs[i..]
                else if j < |ys| && op != Intersect && op != Diff then out2 == out + ys[j..]
                else out2 == out
    ensures Meaning(out2) == Pointwise(op, Meaning(CellsOf(st, t)), Meaning(CellsOf(st, t2))) - Clashes(op, t, t2)
  {
    var xs, ys, same := CellsOf(st, t), CellsOf(st, t2), Clashes(op, t, t2);
    CellsSorted(st, t);
    CellsSorted(st, t2);
    FinishMerge(op, Mistake(xs, ys, same), ys, i, j, out, out2);
    forall c | c in same ensures exists k :: 0 <= k < |xs| && xs[k].id == c {
      var k, l :| 0 <= k < |t.desc| && 0 <= l < |t2.desc| && t.desc[k].cellId == t2.desc[l].cellId == c
                  && SlotClash(op, t.desc[k], t.idx[k], t2.desc[l], t2.idx[l]);
      assert xs[k].id == c;
    }
    MistakeLosesCells(op, xs, ys, same);
  }

  /** The lost cells matter exactly when the compared word names something smaller than the cell. */
  lemma DiffExactness(st: CellStore, op: SetOp, t: Table, o: Table)
    requires TableOk(st, t) && TableOk(st, o)
    ensures var exact := Pointwise(op, Meaning(CellsOf(st, t)), Meaning(CellsOf(st, o)));
            exact - Clashes(op, t, o) == exact <==>
            (forall i, j | 0 <= i < |t.desc| && 0 <= j < |o.desc| && t.desc[i].cellId == o.desc[j].cellId
                           && SlotClash(op, t.desc[i], t.idx[i], o.desc[j], o.idx[j])
              :: st.At(t.idx[i].idxPtr) == st.Full(t.desc[i].cellId))
  {
    var f, g := Meaning(CellsOf(st, t)), Meaning(CellsOf(st, o));
    var exact := Pointwise(op, f, g);
    CellsSorted(st, t);
    CellsSorted(st, o);
    forall i, j | 0 <= i < |t.desc| && 0 <= j < |o.desc| && t.desc[i].cellId == o.desc[j].cellId
      && SlotClash(op, t.desc[i], t.idx[i], o.desc[j], o.idx[j])
      ensures t.desc[i].cellId in exact <==> st.At(t.idx[i].idxPtr) != st.Full(t.desc[i].cellId)
      ensures t.desc[i].cellId in Clashes(op, t, o)
    {
      var c := t.desc[i].cellId;
      PointwiseAt(op, f, g, c);
      ItemsAtIndex(CellsOf(st, t), i);
      ItemsAtIndex(CellsOf(st, o), j);
      assert EntryOk(st, t.desc[i], t.idx[i]) && EntryOk(st, o.desc[j], o.idx[j]);
      assert c in exact <==> ItemsAt(exact, c) != {};
      DiffOfPart(op, st.Full(c), st.At(t.idx[i].idxPtr));
    }
    if exact - Clashes(op, t, o) != exact {
      var c :| c in exact && c in Clashes(op, t, o);
    }
  }

  lemma DiffOfPart(op: SetOp, full: ItemIndex, part: ItemIndex)
    requires part <= full
    ensures Apply(Diff, full, part) == {} <==> part == full
    ensures Apply(SetOp.SymDiff, full, part) == {} <==> part == full
    ensures Apply(SetOp.SymDiff, part, full) == {} <==> part == full
  {
    assert forall x :: x in full - part <==> x in full && x !in part;
    assert part - full == {};
  }

  /** The index of a cell, taken for one of its partial matches, has all of its items. */
  lemma OwnIndexIsFull(st: CellStore, c: CellId)
    requires c < |st.cellPtr| && st.PartialOk(st.cellPtr[c], c)
    ensures st.At(st.cellPtr[c]) == st.Full(c)
  {
    SubsetOfSameSize(st.At(st.cellPtr[c]), st.Full(c));
  }

  ghost predicate LosesNothing(st: CellStore, op: SetOp, t: Table, o: Table)
    requires TableOk(st, t) && TableOk(st, o)
  {
    var exact := Pointwise(op, Meaning(CellsOf(st, t)), Meaning(CellsOf(st, o)));
    exact - Clashes(op, t, o) == exact
  }

  /** If the slots that are compared are written, what clashes is complete, and nothing is lost.  A difference
      compares only full matches on the left. */
  lemma WrittenLosesNothing(st: CellStore, op: SetOp, t: Table, o: Table)
    requires TableOk(st, t) && TableOk(st, o)
    requires (op.Diff? || op.SymDiff? ==> Written(st, t)) && (op.SymDiff? ==> Written(st, o))
    ensures LosesNothing(st, op, t, o)
  {
    if op.Diff? || op.SymDiff? {
      forall i, j | 0 <= i < |t.desc| && 0 <= j < |o.desc| && t.desc[i].cellId == o.desc[j].cellId
                    && SlotClash(op, t.desc[i], t.idx[i], o.desc[j], o.idx[j])
        ensures st.At(t.idx[i].idxPtr) == st.Full(t.desc[i].cellId)
      {
        assert EntryOk(st, t.desc[i], t.idx[i]) && EntryOk(st, o.desc[j], o.idx[j]);
        assert SlotWritten(st, t.desc[i], t.idx[i]) && (op.SymDiff? ==> SlotWritten(st, o.desc[j], o.idx[j]));
        OwnIndexIsFull(st, t.desc[i].cellId);
      }
      DiffExactness(st, op, t, o);
    } else {
      assert Clashes(op, t, o) == {};
    }
  }

  /** An entry of a conversion that is under way: a cell without items may be marked by index id 0, which
      always names the empty index, or by an empty index. */
  ghost predicate EntryMarked(st: CellStore, d: CellDesc, x: IndexDesc) {
    || EntryOk(st, d, x)
    || (d == CellDesc(false, false, d.cellId) && x == Ptr(0))
    || (d == CellDesc(false, true, d.cellId) && x == Idx({}))
  }

  ghost predicate Marked(st: CellStore, t: Table) {
    && |t.desc| == |t.idx| && st.At(0) == {}
    && (forall i {:trigger EntryMarked(st, t.desc[i], t.idx[i])} :: 0 <= i < |t.desc| ==> EntryMarked(st, t.desc[i], t.idx[i]))
    && (forall i, j :: 0 <= i < j < |t.desc| ==> t.desc[i].cellId < t.desc[j].cellId)
  }

  /** Only the empty marker is dropped, and only full matches lose what is in their slot. */
  ghost predicate KeptOrDropped(d: CellDesc, x: IndexDesc, t: Table, t2: Table) {
    if !d.fullMatch && x == Ptr(0) then t2 == t
    else
      && t2.desc == t.desc + [d] && |t2.idx| == |t.idx| + 1 && t2.idx[..|t.idx|] == t.idx
      && if d.fullMatch then t2.idx[|t.idx|].Ptr? else t2.idx[|t.idx|] == x
  }

  /** What copying cannot use: the index of a fetched full match is not copied, and an empty index is. */
  predicate NotForCopying(d: CellDesc, x: IndexDesc) {
    d.fetched && (d.fullMatch || x == Idx({}))
  }

  /** The first i entries have been copied or dropped; the entry at `at` shows that the copy cannot be used. */
  ghost predicate Removing(st: CellStore, u: Table, i: nat, r: Table, broken: bool, at: nat) {
    && |r.desc| == |r.idx| && i <= |u.desc| == |u.idx| && Before(r.desc, u.desc, i)
    && (broken <==> exists k :: 0 <= k < i && NotForCopying(u.desc[k], u.idx[k]))
    && (if broken then at < |r.desc| && !EntryOk(st, r.desc[at], r.idx[at]) else TableOk(st, r))
    && (NoFetchedFull(u, i) ==> Copying(CellsOf(st, u), i, CellsOf(st, r)))
  }

  ghost predicate NoFetchedFull(u: Table, i: nat) {
    forall k :: 0 <= k < i && k < |u.desc| ==> !(u.desc[k].fullMatch && u.desc[k].fetched)
  }

  lemma RemovingStep(st: CellStore, u: Table, i: nat, r: Table, broken: bool, at: nat, r2: Table)
    requires Marked(st, u) && Removing(st, u, i, r, broken, at) && i < |u.desc|
    requires KeptOrDropped(u.desc[i], u.idx[i], r, r2)
    ensures var broken2 := broken || NotForCopying(u.desc[i], u.idx[i]);
            Removing(st, u, i + 1, r2, broken2, if broken then at else |r.desc|)
  {
    assert EntryMarked(st, u.desc[i], u.idx[i]);
    assert r.desc <= r2.desc && r.idx <= r2.idx;
    if !(u.desc[i].fullMatch && u.desc[i].fetched) && (NoFetchedFull(u, i) || !broken) {
      if !broken {
        assert NoFetchedFull(u, i);
      }
      KeptCell(st, u, i, r, r2);
    }
  }

  lemma KeptCell(st: CellStore, u: Table, i: nat, t: Table, t2: Table)
    requires Marked(st, u) && i < |u.desc| && KeptOrDropped(u.desc[i], u.idx[i], t, t2)
    requires !(u.desc[i].fullMatch && u.desc[i].fetched)
    requires |t.desc| == |t.idx| && Copying(CellsOf(st, u), i, CellsOf(st, t))
    ensures |t2.desc| == |t2.idx| && Copying(CellsOf(st, u), i + 1, CellsOf(st, t2))
    ensures TableOk(st, t) && Before(t.desc, u.desc, i) && !NotForCopying(u.desc[i], u.idx[i]) ==> TableOk(st, t2)
  {
    assert EntryMarked(st, u.desc[i], u.idx[i]);
    if t2 != t {
      var y := t2.idx[|t.idx|];
      assert t2 == Table(t.desc + [u.desc[i]], t.idx + [y]);
      assert CellsOf(st, t2) == CellsOf(st, t) + [CellsOf(st, u)[i]];
      if TableOk(st, t) && Before(t.desc, u.desc, i) && !NotForCopying(u.desc[i], u.idx[i]) {
        PushKeepsTable(st, t, u.desc[i], y);
      }
    }
    CopyingStep(CellsOf(st, u), i, CellsOf(st, t), CellsOf(st, t2));
  }

  /** The cells of full matches are full and not fetched, all others are partial and fetched. */
  ghost predicate ByKind(fm: seq<CellId>, desc: seq<CellDesc>) {
    forall k :: 0 <= k < |desc| ==> desc[k] == CellDesc(desc[k].cellId in fm, desc[k].cellId !in fm, desc[k].cellId)
  }

  class EagerCqr {
    const store: CellStore
    var desc: seq<CellDesc>
    var idx: seq<IndexDesc>

    ghost function Vectors(): Table reads this {
      Table(desc, idx)
    }

    ghost predicate Valid() reads this {
      TableOk(store, Vectors())
    }

    ghost function Cells(): seq<Cell>
      requires Valid()
      reads this
    {
      CellsOf(store, Vectors())
    }

    ghost function Result(): map<CellId, ItemIndex>
      requires Valid()
      reads this
    {
      Meaning(Cells())
    }

    constructor (store: CellStore)
      ensures this.store == store && desc == [] && idx == []
      ensures Valid() && Cells() == []
    {
      this.store := store;
      desc, idx := [], [];
    }

    /** Merges the full matches with the partial matches, whose indices are given. */
    constructor FromMatches(store: CellStore, fm: seq<CellId>, pm: seq<CellId>, items: seq<ItemIndex>)
      requires MatchesOk(store, fm, pm, items)
      ensures this.store == store && Valid()
      ensures Result() == MatchResult(store, fm, pm, items)
      ensures ByKind(fm, desc)
      ensures fm == [] ==> Written(store, Vectors())
    {
      this.store := store;
      desc, idx := [], [];
      new;
      StartMerge(SetOp.Unite, FullCells(store, fm), PartialCells(pm, items));
      var f, p := 0, 0;
      while f < |fm| || p < |pm|
        invariant f <= |fm| && p <= |pm| && MatchLoop(fm, pm, items, f, p)
        invariant fm == [] ==> Written(store, Vectors())
        decreases |fm| - f + |pm| - p
      {
        f, p := MatchStep(fm, pm, items, f, p);
      }
      FinishMerge(SetOp.Unite, FullCells(store, fm), PartialCells(pm, items), f, p, Cells(), Cells());
    }

    ghost predicate MatchLoop(fm: seq<CellId>, pm: seq<CellId>, items: seq<ItemIndex>, f: nat, p: nat)
      requires |items| == |pm|
      reads this
    {
      && Valid()
      && MatchesAhead(Cells(), fm, pm, f, p)
      && ByKind(fm, desc) && (f <= |fm| && p < |pm| ==> forall a :: 0 <= a < f ==> fm[a] < pm[p])
      && Merging(SetOp.Unite, FullCells(store, fm), PartialCells(pm, items), f, p, Cells())
    }

    method MatchStep(fm: seq<CellId>, pm: seq<CellId>, items: seq<ItemIndex>, f: nat, p: nat)
      returns (fmIt: nat, pmIt: nat)
      requires MatchesOk(store, fm, pm, items) && (f < |fm| || p < |pm|) && MatchLoop(fm, pm, items, f, p)
      modifies this
      ensures f <= fmIt <= |fm| && p <= pmIt <= |pm| && f + p < fmIt + pmIt
      ensures MatchLoop(fm, pm, items, fmIt, pmIt)
      ensures fm == [] && old(Written(store, Vectors())) ==> Written(store, Vectors())
    {
      fmIt, pmIt := f, p;
      if p == |pm| || (f < |fm| && fm[f] <= pm[p]) {
        fmIt := f + 1;
        if p < |pm| && fm[f] == pm[p] {
          pmIt := p + 1;
        }
        MatchFull(fm, pm, items, f, p, pmIt);
      } else {
        MatchPartial(fm, pm, items, f, p);
        pmIt := p + 1;
      }
    }

    /** The next full match, whose slot is not written; a partial match of the same cell is passed over. */
    method MatchFull(fm: seq<CellId>, pm: seq<CellId>, items: seq<ItemIndex>, f: nat, p: nat, pmIt: nat)
      requires MatchesOk(store, fm, pm, items) && MatchLoop(fm, pm, items, f, p) && p <= |pm|
      requires f < |fm| && (p < |pm| ==> fm[f] <= pm[p])
      requires pmIt == if p < |pm| && fm[f] == pm[p] then p + 1 else p
      modifies this
      ensures MatchLoop(fm, pm, items, f + 1, pmIt)
    {
      ghost var out := Cells();
      assert forall k :: 0 <= k < |desc| ==> desc[k].cellId == out[k].id;
      var word: IdxId := *;
      Push(CellDesc(true, false, fm[f]), Ptr(word));
      StillAhead(out, Cells(), fm, pm, f, p, f + 1, pmIt);
      TakeFull(store, fm, pm, items, f, p, out, Cells());
    }

    /** The next partial match. */
    method MatchPartial(fm: seq<CellId>, pm: seq<CellId>, items: seq<ItemIndex>, f: nat, p: nat)
      requires MatchesOk(store, fm, pm, items) && MatchLoop(fm, pm, items, f, p) && f <= |fm|
      requires p < |pm| && (f < |fm| ==> pm[p] < fm[f])
      modifies this
      ensures MatchLoop(fm, pm, items, f, p + 1)
      ensures old(Written(store, Vectors())) ==> Written(store, Vectors())
    {
      ghost var out := Cells();
      assert forall k :: 0 <= k < |desc| ==> desc[k].cellId == out[k].id;
      assert pm[p] !in fm;
      Push(CellDesc(false, true, pm[p]), Idx(items[p]));
      StillAhead(out, Cells(), fm, pm, f, p, f, p + 1);
      TakePartial(store, fm, pm, items, f, p, out, Cells());
    }

    /** The index of the cell at pos; it is fetched on first use. */
    method Fetch(pos: nat) returns (items: ItemIndex)
      requires Valid() && pos < |desc|
      modifies this`desc, this`idx
      ensures FetchedAt(store, old(Vectors()), Vectors(), pos)
      ensures items == old(Cells())[pos].items
    {
      var cd := desc[pos];
      assert EntryOk(store, cd, idx[pos]);
      if cd.fetched {
        return idx[pos].idx;
      }
      if cd.fullMatch {
        items := store.Full(cd.cellId);
      } else {
        items := store.At(idx[pos].idxPtr);
      }
      desc := desc[pos := cd.(fetched := true)];
      idx := idx[pos := Idx(items)];
    }

    method Push(d: CellDesc, x: IndexDesc)
      requires Valid() && EntryOk(store, d, x)
      requires forall k :: 0 <= k < |desc| ==> desc[k].cellId < d.cellId
      modifies this`desc, this`idx
      ensures Valid() && desc == old(desc) + [d] && idx == old(idx) + [x]
      ensures Cells() == old(Cells()) + [Cell(d.cellId, EntryItems(store, d, x))]
    {
      PushKeepsTable(store, Vectors(), d, x);
      desc, idx := desc + [d], idx + [x];
    }

    /** The two positions hold the same cell, and r is ready to receive it. */
    ghost predicate SameCell(i: nat, o: EagerCqr, j: nat, r: EagerCqr)
      reads this, o, r
    {
      && r != this && r != o && o.store == store == r.store
      && Valid() && o.Valid() && r.Valid()
      && i < |desc| && j < |o.desc| && desc[i].cellId == o.desc[j].cellId
      && (o == this ==> i == j)
      && forall k :: 0 <= k < |r.desc| ==> r.desc[k].cellId < desc[i].cellId
    }

    /** Both indices are fetched and combined; an empty outcome is not stored. */
    method Compute(op: SetOp, i: nat, o: EagerCqr, j: nat, r: EagerCqr) returns (res: ItemIndex)
      requires SameCell(i, o, j, r)
      modifies this`desc, this`idx, o`desc, o`idx
      ensures SameCell(i, o, j, r)
      ensures FetchedAt(store, old(Vectors()), Vectors(), i) && FetchedAt(store, old(o.Vectors()), o.Vectors(), j)
      ensures res == Apply(op, old(Cells())[i].items, old(o.Cells())[j].items)
    {
      var mine := Fetch(i);
      var other := o.Fetch(j);
      res := Apply(op, mine, other);
    }

    method StoreResult(c: CellId, items: ItemIndex, r: EagerCqr)
      requires r.Valid() && c < |r.store.cellPtr| && items <= r.store.Full(c)
      requires forall k :: 0 <= k < |r.desc| ==> r.desc[k].cellId < c
      modifies r`desc, r`idx
      ensures r.Valid() && forall k :: 0 <= k < |r.desc| ==> r.desc[k].cellId <= c
      ensures Produces(old(r.Cells()), r.Cells(), c, items)
      ensures r.Vectors() == old(r.Vectors())
              || (r.desc == old(r.desc) + [CellDesc(false, true, c)] && r.idx == old(r.idx) + [Idx(items)])
    {
      if items != {} {
        r.Push(CellDesc(false, true, c), Idx(items));
      }
    }

    /** The cell has been combined into r, which was w; at most the indices of the two
        operands have been fetched meanwhile. */
    ghost predicate CellDone(op: SetOp, i: nat, t: Table, o: EagerCqr, j: nat, t2: Table, r: EagerCqr, w: Table)
      requires TableOk(store, t) && TableOk(store, t2) && i < |t.desc| && j < |t2.desc| && |w.desc| == |w.idx|
      reads this, o, r
    {
      && FetchedAt(store, t, Vectors(), i) && FetchedAt(store, t2, o.Vectors(), j)
      && r.Valid() && (forall k :: 0 <= k < |r.desc| ==> r.desc[k].cellId <= t.desc[i].cellId)
      && Grown(store, w, r.Vectors(), t.desc[i], t.idx[i], t2.desc[j], t2.idx[j])
      && (r.desc == w.desc || (r.desc[|w.desc|].fullMatch <==> FullOutcome(store, op, t, i, t2, j)))
      && Produces(CellsOf(store, w), r.Cells(), t.desc[i].cellId,
           if SlotClash(op, t.desc[i], t.idx[i], t2.desc[j], t2.idx[j]) then {}
           else Apply(op, CellsOf(store, t)[i].items, CellsOf(store, t2)[j].items))
    }

    /** One of the two entries is the outcome. */
    method HandOn(op: SetOp, i: nat, o: EagerCqr, j: nat, mine: bool, r: EagerCqr)
      requires SameCell(i, o, j, r) && !SlotClash(op, desc[i], idx[i], o.desc[j], o.idx[j])
      requires (if mine then desc[i] else o.desc[j]).fullMatch <==> FullOutcome(store, op, Vectors(), i, o.Vectors(), j)
      requires Apply(op, EntryItems(store, desc[i], idx[i]), EntryItems(store, o.desc[j], o.idx[j]))
               == if mine then EntryItems(store, desc[i], idx[i]) else EntryItems(store, o.desc[j], o.idx[j])
      modifies r`desc, r`idx
      ensures CellDone(op, i, old(Vectors()), o, j, old(o.Vectors()), r, old(r.Vectors()))
    {
      var d, x := if mine then desc[i] else o.desc[j], if mine then idx[i] else o.idx[j];
      assert EntryOk(store, desc[i], idx[i]) && EntryOk(store, o.desc[j], o.idx[j]);
      r.Push(d, x);
    }

    /** The full match that two full matches make: an index that one of them has already fetched is kept. */
    method BothFull(op: SetOp, i: nat, o: EagerCqr, j: nat, r: EagerCqr)
      requires SameCell(i, o, j, r) && desc[i].fullMatch && o.desc[j].fullMatch && (op.Intersect? || op.Unite?)
      modifies r`desc, r`idx
      ensures CellDone(op, i, old(Vectors()), o, j, old(o.Vectors()), r, old(r.Vectors()))
    {
      EntryInCell(store, desc[i], idx[i]);
      EntryInCell(store, o.desc[j], o.idx[j]);
      ApplyLaws(store.Full(desc[i].cellId), store.Full(desc[i].cellId));
      HandOn(op, i, o, j, !o.desc[j].fetched && (desc[i].fetched || op.Unite?), r);
    }

    /** Both indices are combined, and the outcome is stored if there is any. */
    method ComputeCell(op: SetOp, i: nat, o: EagerCqr, j: nat, r: EagerCqr)
      requires SameCell(i, o, j, r) && !SlotClash(op, desc[i], idx[i], o.desc[j], o.idx[j])
      requires !FullOutcome(store, op, Vectors(), i, o.Vectors(), j)
      modifies this`desc, this`idx, o`desc, o`idx, r`desc, r`idx
      ensures CellDone(op, i, old(Vectors()), o, j, old(o.Vectors()), r, old(r.Vectors()))
    {
      var c := desc[i].cellId;
      EntryInCell(store, desc[i], idx[i]);
      EntryInCell(store, o.desc[j], o.idx[j]);
      var res := Compute(op, i, o, j, r);
      StoreResult(c, res, r);
    }

    /** Equal ids stand for equal indices; a union that has all items of the cell becomes a full match. */
    method UnitePartial(i: nat, o: EagerCqr, j: nat, r: EagerCqr)
      requires SameCell(i, o, j, r) && !desc[i].fullMatch && !o.desc[j].fullMatch
      modifies this`desc, this`idx, o`desc, o`idx, r`desc, r`idx
      ensures CellDone(SetOp.Unite, i, old(Vectors()), o, j, old(o.Vectors()), r, old(r.Vectors()))
    {
      var c := desc[i].cellId;
      EntryInCell(store, desc[i], idx[i]);
      EntryInCell(store, o.desc[j], o.idx[j]);
      if !desc[i].fetched && !o.desc[j].fetched && idx[i].idxPtr == o.idx[j].idxPtr {
        ApplyLaws(EntryItems(store, desc[i], idx[i]), EntryItems(store, desc[i], idx[i]));
        HandOn(SetOp.Unite, i, o, j, true, r);
      } else {
        ghost var t, t2 := Vectors(), o.Vectors();
        var res := Compute(SetOp.Unite, i, o, j, r);
        CompleteUnion(store, t, i, t2, j, res);
        if |res| == store.CellItemsCount(c) {
          r.Push(CellDesc(true, false, c), Ptr(store.cellPtr[c]));
        } else {
          StoreResult(c, res, r);
        }
      }
    }

    /** A full match hands on the other side; equal ids stand for equal indices. */
    method IntersectCell(i: nat, o: EagerCqr, j: nat, r: EagerCqr)
      requires SameCell(i, o, j, r)
      modifies this`desc, this`idx, o`desc, o`idx, r`desc, r`idx
      ensures CellDone(SetOp.Intersect, i, old(Vectors()), o, j, old(o.Vectors()), r, old(r.Vectors()))
    {
      var myCD, oCD, c := desc[i], o.desc[j], desc[i].cellId;
      EntryInCell(store, myCD, idx[i]);
      EntryInCell(store, oCD, o.idx[j]);
      ApplyLaws(store.Full(c), EntryItems(store, myCD, idx[i]));
      ApplyLaws(store.Full(c), EntryItems(store, oCD, o.idx[j]));
      if !myCD.fullMatch && !oCD.fullMatch {
        if !myCD.fetched && !oCD.fetched && idx[i].idxPtr == o.idx[j].idxPtr {
          ApplyLaws(EntryItems(store, myCD, idx[i]), EntryItems(store, myCD, idx[i]));
          HandOn(SetOp.Intersect, i, o, j, true, r);
        } else {
          ComputeCell(SetOp.Intersect, i, o, j, r);
        }
      } else if !myCD.fullMatch {
        HandOn(SetOp.Intersect, i, o, j, true, r);
      } else if !oCD.fullMatch {
        HandOn(SetOp.Intersect, i, o, j, false, r);
      } else {
        BothFull(SetOp.Intersect, i, o, j, r);
      }
    }

    /** A full match absorbs the other side. */
    method UniteCell(i: nat, o: EagerCqr, j: nat, r: EagerCqr)
      requires SameCell(i, o, j, r)
      modifies this`desc, this`idx, o`desc, o`idx, r`desc, r`idx
      ensures CellDone(SetOp.Unite, i, old(Vectors()), o, j, old(o.Vectors()), r, old(r.Vectors()))
    {
      var myCD, oCD, c := desc[i], o.desc[j], desc[i].cellId;
      EntryInCell(store, myCD, idx[i]);
      EntryInCell(store, oCD, o.idx[j]);
      ApplyLaws(store.Full(c), EntryItems(store, myCD, idx[i]));
      ApplyLaws(store.Full(c), EntryItems(store, oCD, o.idx[j]));
      if !myCD.fullMatch && !oCD.fullMatch {
        UnitePartial(i, o, j, r);
      } else if !oCD.fullMatch {
        HandOn(SetOp.Unite, i, o, j, true, r);
      } else if !myCD.fullMatch {
        HandOn(SetOp.Unite, i, o, j, false, r);
      } else {
        BothFull(SetOp.Unite, i, o, j, r);
      }
    }

    /** Nothing is left of a cell that is fully matched on the right or named by the same id. */
    method DiffCell(i: nat, o: EagerCqr, j: nat, r: EagerCqr)
      requires SameCell(i, o, j, r)
      modifies this`desc, this`idx, o`desc, o`idx, r`desc, r`idx
      ensures CellDone(SetOp.Diff, i, old(Vectors()), o, j, old(o.Vectors()), r, old(r.Vectors()))
    {
      var myCD, oCD, c := desc[i], o.desc[j], desc[i].cellId;
      EntryInCell(store, myCD, idx[i]);
      EntryInCell(store, oCD, o.idx[j]);
      ApplyLaws(store.Full(c), EntryItems(store, myCD, idx[i]));
      ApplyLaws(store.Full(c), EntryItems(store, oCD, o.idx[j]));
      if !oCD.fullMatch && (myCD.fetched || oCD.fetched || idx[i].idxPtr != o.idx[j].idxPtr) {
        ComputeCell(SetOp.Diff, i, o, j, r);
      }
    }

    /** Nothing is left of a cell that is fully matched, or named by the same id, on both sides. */
    method SymDiffCell(i: nat, o: EagerCqr, j: nat, r: EagerCqr)
      requires SameCell(i, o, j, r)
      modifies this`desc, this`idx, o`desc, o`idx, r`desc, r`idx
      ensures CellDone(SetOp.SymDiff, i, old(Vectors()), o, j, old(o.Vectors()), r, old(r.Vectors()))
      ensures var a, b := old(Cells())[i].items, old(o.Cells())[j].items;
              Produces(old(r.Cells()), r.Cells(), old(desc[i].cellId),
                if SlotClash(SetOp.SymDiff, old(desc[i]), old(idx[i]), old(o.desc[j]), old(o.idx[j])) then {}
                else InOne(a, b))
    {
      var myCD, oCD, c := desc[i], o.desc[j], desc[i].cellId;
      EntryInCell(store, myCD, idx[i]);
      EntryInCell(store, oCD, o.idx[j]);
      ApplyLaws(store.Full(c), EntryItems(store, myCD, idx[i]));
      ApplyLaws(store.Full(c), EntryItems(store, oCD, o.idx[j]));
      SymDiffItems(Cells()[i].items, o.Cells()[j].items);
      if !(myCD.fullMatch && oCD.fullMatch) && (myCD.fetched || oCD.fetched || idx[i].idxPtr != o.idx[j].idxPtr) {
        ComputeCell(SetOp.SymDiff, i, o, j, r);
      }
    }

    method CombineCell(op: SetOp, i: nat, o: EagerCqr, j: nat, r: EagerCqr)
      requires SameCell(i, o, j, r)
      modifies this`desc, this`idx, o`desc, o`idx, r`desc, r`idx
      ensures CellDone(op, i, old(Vectors()), o, j, old(o.Vectors()), r, old(r.Vectors()))
    {
      match op
      case Intersect => IntersectCell(i, o, j, r);
      case Unite => UniteCell(i, o, j, r);
      case Diff => DiffCell(i, o, j, r);
      case SymDiff => SymDiffCell(i, o, j, r);
    }

    ghost predicate MergeLoop(op: SetOp, t: Table, i: nat, o: EagerCqr, t2: Table, j: nat, r: EagerCqr)
      reads this, o, r
    {
      && r != this && r != o && o.store == store == r.store && (o == this ==> i == j)
      && Looping(store, op, t, Vectors(), i, t2, o.Vectors(), j, r.Vectors())
      && Handing(store, t, Vectors(), t2, o.Vectors(), r.Vectors())
    }

    method MergeStep(op: SetOp, ghost t: Table, i: nat, o: EagerCqr, ghost t2: Table, j: nat, r: EagerCqr)
      returns (myI: nat, oI: nat)
      requires MergeLoop(op, t, i, o, t2, j, r) && i < |desc| && j < |o.desc|
      modifies this`desc, this`idx, o`desc, o`idx, r`desc, r`idx
      ensures MergeLoop(op, t, myI, o, t2, oI, r)
      ensures i <= myI <= i + 1 && j <= oI <= j + 1 && i + j < myI + oI
      ensures |desc| == |old(desc)| && |o.desc| == |old(o.desc)|
    {
      var mine, other := desc[i].cellId, o.desc[j].cellId;
      myI, oI := if mine <= other then i + 1 else i, if other <= mine then j + 1 else j;
      if mine < other {
        StepMine(op, t, i, o, t2, j, r);
      } else if other < mine {
        StepOther(op, t, i, o, t2, j, r);
      } else {
        StepSame(op, t, i, o, t2, j, r);
      }
    }

    method StepMine(op: SetOp, ghost t: Table, i: nat, o: EagerCqr, ghost t2: Table, j: nat, r: EagerCqr)
      requires MergeLoop(op, t, i, o, t2, j, r) && i < |desc| && j < |o.desc| && desc[i].cellId < o.desc[j].cellId
      modifies r`desc, r`idx
      ensures MergeLoop(op, t, i + 1, o, t2, j, r)
    {
      ghost var w := r.Vectors();
      if op != SetOp.Intersect {
        r.Push(desc[i], idx[i]);
      }
      LoopMine(store, op, t, Vectors(), i, t2, o.Vectors(), j, w, r.Vectors());
      HandingOne(store, t, Vectors(), t2, o.Vectors(), w, r.Vectors(), t, i);
    }

    method StepOther(op: SetOp, ghost t: Table, i: nat, o: EagerCqr, ghost t2: Table, j: nat, r: EagerCqr)
      requires MergeLoop(op, t, i, o, t2, j, r) && i < |desc| && j < |o.desc| && o.desc[j].cellId < desc[i].cellId
      modifies r`desc, r`idx
      ensures MergeLoop(op, t, i, o, t2, j + 1, r)
    {
      ghost var w := r.Vectors();
      if op == SetOp.Unite || op == SetOp.SymDiff {
        r.Push(o.desc[j], o.idx[j]);
      }
      LoopOther(store, op, t, Vectors(), i, t2, o.Vectors(), j, w, r.Vectors());
      HandingOne(store, t, Vectors(), t2, o.Vectors(), w, r.Vectors(), t2, j);
    }

    method StepSame(op: SetOp, ghost t: Table, i: nat, o: EagerCqr, ghost t2: Table, j: nat, r: EagerCqr)
      requires MergeLoop(op, t, i, o, t2, j, r) && i < |desc| && j < |o.desc| && o.desc[j].cellId == desc[i].cellId
      modifies this`desc, this`idx, o`desc, o`idx, r`desc, r`idx
      ensures MergeLoop(op, t, i + 1, o, t2, j + 1, r)
      ensures |desc| == |old(desc)| && |o.desc| == |old(o.desc)|
    {
      ghost var u, u2, w := Vectors(), o.Vectors(), r.Vectors();
      CombineCell(op, i, o, j, r);
      LoopSame(store, op, t, u, Vectors(), i, t2, u2, o.Vectors(), j, w, r.Vectors());
      HandingSame(store, t, u, Vectors(), i, t2, u2, o.Vectors(), j, w, r.Vectors());
    }

    /** Copies the cells from position i on. */
    method AppendRest(i: nat, r: EagerCqr)
      requires r != this && r.store == store && Valid() && r.Valid() && i <= |desc| && Before(r.desc, desc, i)
      modifies r`desc, r`idx
      ensures r.Valid() && r.Cells() == old(r.Cells()) + Cells()[i..]
      ensures r.desc == old(r.desc) + desc[i..] && r.idx == old(r.idx) + idx[i..]
    {
      ghost var w := r.Vectors();
      assert desc[i..i] == [] && idx[i..i] == [];
      for k := i to |desc|
        invariant r.Valid() && Before(r.desc, desc, k)
        invariant r.desc == w.desc + desc[i..k] && r.idx == w.idx + idx[i..k]
      {
        r.Push(desc[k], idx[k]);
        OneMore(w.desc, desc, i, k);
        OneMore(w.idx, idx, i, k);
      }
      assert desc[i..|desc|] == desc[i..] && idx[i..|desc|] == idx[i..];
      CellsJoin(store, w, Vectors(), i);
    }

    /** The set operation on two results.  Cells in which an unwritten word is compared and found equal
        are lost; see DiffExactness for when that matters. */
    method Combine(op: SetOp, o: EagerCqr) returns (r: EagerCqr)
      requires Valid() && o.Valid() && o.store == store
      modifies this`desc, this`idx, o`desc, o`idx
      ensures fresh(r) && r.store == store && r.Valid()
      ensures Valid() && Cells() == old(Cells()) && o.Valid() && o.Cells() == old(o.Cells())
      ensures r.Result() == Pointwise(op, old(Result()), old(o.Result())) - Clashes(op, old(Vectors()), old(o.Vectors()))
      ensures Selects(op, old(Result()), old(o.Result()), Clashes(op, old(Vectors()), old(o.Vectors())), r.Result())
      ensures Since(store, old(Vectors()), Vectors()) && Since(store, old(o.Vectors()), o.Vectors())
      ensures SlotsFrom(store, r.Vectors(), old(Vectors()), old(o.Vectors()))
    {
      r := new EagerCqr(store);
      ghost var t, t2, same := Vectors(), o.Vectors(), Clashes(op, Vectors(), o.Vectors());
      ghost var xs, ys := Cells(), o.Cells();
      StartMerge(op, Mistake(xs, ys, same), ys);
      var myI, oI := 0, 0;
      while myI < |desc| && oI < |o.desc|
        invariant fresh(r) && r.store == store && MergeLoop(op, t, myI, o, t2, oI, r)
        invariant myI <= |desc| == |t.desc| && oI <= |o.desc| == |t2.desc|
        decreases |desc| - myI + |o.desc| - oI
      {
        myI, oI := MergeStep(op, t, myI, o, t2, oI, r);
      }
      Finish(op, t, myI, o, t2, oI, r);
      PointwiseSelects(op, Meaning(xs), Meaning(ys), same);
    }

    method Finish(op: SetOp, ghost t: Table, myI: nat, o: EagerCqr, ghost t2: Table, oI: nat, r: EagerCqr)
      requires MergeLoop(op, t, myI, o, t2, oI, r)
      requires myI <= |desc| && oI <= |o.desc| && (myI == |desc| || oI == |o.desc|)
      modifies r`desc, r`idx
      ensures r.Valid()
      ensures r.Result() == Pointwise(op, Meaning(CellsOf(store, t)), Meaning(CellsOf(store, t2))) - Clashes(op, t, t2)
      ensures SlotsFrom(store, r.Vectors(), t, t2)
    {
      ghost var w := r.Vectors();
      ghost var xs, ys, same := Cells(), o.Cells(), Clashes(op, t, t2);
      ghost var out := r.Cells();
      if myI < |desc| && op != SetOp.Intersect {
        AppendRest(myI, r);
        RestFrom(store, w, r.Vectors(), t, t2, t, Vectors(), myI);
        forall k | myI <= k < |xs| ensures Mistake(xs, ys, same)[k] == xs[k] {
          NoClash(store, op, t, t2, myI, oI, k);
        }
        assert Mistake(xs, ys, same)[myI..] == xs[myI..];
      } else if oI < |o.desc| && (op == SetOp.Unite || op == SetOp.SymDiff) {
        o.AppendRest(oI, r);
        RestFrom(store, w, r.Vectors(), t, t2, t2, o.Vectors(), oI);
      }
      CombineMeaning(store, op, t, t2, myI, oI, out, r.Cells());
    }

    /** All cells become full matches whose slots are never written. */
    method AllToFull() returns (r: EagerCqr)
      requires Valid()
      ensures fresh(r) && r.store == store && r.Valid()
      ensures r.Result() == Widen(store, Result())
      ensures |r.desc| == |desc|
      ensures forall k :: 0 <= k < |desc| ==> r.desc[k] == CellDesc(true, false, desc[k].cellId)
    {
      r := new EagerCqr(store);
      ghost var xs := Cells();
      assert xs[0..] == xs;
      for i := 0 to |desc|
        invariant fresh(r) && r.store == store && r.Valid() && Before(r.desc, desc, i)
        invariant Widening(store, xs, i, r.Cells())
        invariant |r.desc| == i && forall k :: 0 <= k < i ==> r.desc[k] == CellDesc(true, false, desc[k].cellId)
      {
        WidenCell(i, r);
      }
      CellsSorted(store, Vectors());
      forall k | 0 <= k < |xs| ensures xs[k].items <= store.Full(xs[k].id) {
        EntryInCell(store, desc[k], idx[k]);
      }
      FinishWidening(store, xs, r.Cells());
    }

    method WidenCell(i: nat, r: EagerCqr)
      requires r != this && r.store == store && Valid() && r.Valid() && i < |desc| && Before(r.desc, desc, i)
      requires Widening(store, Cells(), i, r.Cells())
      modifies r`desc, r`idx
      ensures r.Valid() && Before(r.desc, desc, i + 1) && Widening(store, Cells(), i + 1, r.Cells())
      ensures r.desc == old(r.desc) + [CellDesc(true, false, desc[i].cellId)]
    {
      ghost var out := r.Cells();
      var word: IdxId := *;
      EntryInCell(store, desc[i], idx[i]);
      r.Push(CellDesc(true, false, desc[i].cellId), Ptr(word));
      WideningStep(store, Cells(), i, out, r.Cells());
    }

    /** Drops the cells that index id 0 marks as empty.  The slot of a full match is not copied, and a cell
        with an empty index is: the copy is usable exactly when there is neither a full match that has
        fetched its index nor an empty index.  The latter does not change what the copy means. */
    method RemoveEmpty() returns (r: EagerCqr)
      requires Marked(store, Vectors())
      ensures fresh(r) && r.store == store && |r.desc| == |r.idx|
      ensures r.Valid() <==> forall i :: 0 <= i < |desc| ==> !NotForCopying(desc[i], idx[i])
      ensures NoFetchedFull(Vectors(), |desc|) ==> Meaning(CellsOf(store, r.Vectors())) == Meaning(CellsOf(store, Vectors()))
    {
      r := new EagerCqr(store);
      ghost var u, broken := Vectors(), false;
      ghost var at: nat := 0;
      assert CellsOf(store, r.Vectors()) == [];
      for i := 0 to |desc|
        invariant fresh(r) && r.store == store && Removing(store, u, i, r.Vectors(), broken, at)
      {
        ghost var t := r.Vectors();
        KeepMarked(i, r);
        RemovingStep(store, u, i, t, broken, at, r.Vectors());
        at := if broken then at else |t.desc|;
        broken := broken || NotForCopying(desc[i], idx[i]);
      }
      if NoFetchedFull(u, |desc|) {
        FinishCopying(CellsOf(store, u), CellsOf(store, r.Vectors()));
      }
    }

    method KeepMarked(i: nat, r: EagerCqr)
      requires r != this && i < |desc| && Marked(store, Vectors())
      modifies r`desc, r`idx
      ensures KeptOrDropped(desc[i], idx[i], old(r.Vectors()), r.Vectors())
    {
      assert EntryMarked(store, desc[i], idx[i]);
      if desc[i].fullMatch {
        var word: IdxId := *;
        r.desc, r.idx := r.desc + [desc[i]], r.idx + [Ptr(word)];
      } else if !desc[i].fetched {
        if idx[i].idxPtr != 0 {
          r.desc, r.idx := r.desc + [desc[i]], r.idx + [idx[i]];
        }
      } else {
        r.desc, r.idx := r.desc + [desc[i]], r.idx + [idx[i]];
      }
    }
  }
}
