/** What a cell query result means: a finite map from cells to non-empty item sets. */
module CellAlgebra {
  // Both engines, the eager one and the lazy one, are proved against the pointwise set operations on it.

  import opened Basics

  type CellId = nat
  type IdxId = nat
  type ItemIndex = set<nat>

  /** The item index store together with the cell information.  `localIds` is the flag that
      says whether partial matches hold positions inside the cell or global item ids. */
  datatype CellStore = CellStore(idx: seq<ItemIndex>, cellPtr: seq<IdxId>, localIds: bool)
  {
    /** Reading an index that does not exist yields the empty index. */
    function At(id: IdxId): ItemIndex {
      if id < |idx| then idx[id] else {}
    }

    function CellItemsCount(c: CellId): nat {
      if c < |cellPtr| then |At(cellPtr[c])| else 0
    }

    /** The items of a fully matched cell. */
    function Full(c: CellId): (r: ItemIndex)
      ensures |r| == CellItemsCount(c)
    {
      if c >= |cellPtr| then {}
      else if localIds then Range(CellItemsCount(c))
      else At(cellPtr[c])
    }

    /** A partial match must be non-empty and stay inside its cell. */
    ghost predicate PartialOk(id: IdxId, c: CellId) {
      At(id) != {} && At(id) <= Full(c)
    }
  }

  /** The positions 0 .. n-1 inside a cell of n items. */
  function Range(n: nat): (r: ItemIndex)
    ensures forall i: nat :: i in r <==> i < n
    ensures |r| == n
  {
    if n == 0 then {} else Range(n - 1) + {n - 1}
  }

  lemma {:induction false} SubsetOfSameSize(a: ItemIndex, b: ItemIndex)
    requires a <= b
    ensures |a| <= |b|
    ensures |a| == |b| ==> a == b
  {
    assert b == a + (b - a);
    assert |b| == |a| + |b - a|;
  }

  /** With global ids a full match is the index of the cell; with positions it is those below the size of that
      index.  An index that does not exist has no items. */
  lemma FullItems(st: CellStore, c: CellId, x: nat)
    requires c < |st.cellPtr|
    ensures var own := st.cellPtr[c];
            x in st.Full(c) <==>
              own < |st.idx| && if st.localIds then x < |st.idx[own]| else x in st.idx[own]
    ensures st.Full(|st.cellPtr|) == {}
  {
  }

  datatype SetOp = Intersect | Unite | Diff | SymDiff

  function Apply(op: SetOp, a: ItemIndex, b: ItemIndex): ItemIndex {
    match op
    case Intersect => a * b
    case Unite => a + b
    case Diff => a - b
    case SymDiff => (a - b) + (b - a)
  }

  /** Which of the items of two operands an operation keeps. */
  lemma ApplyItems(a: ItemIndex, b: ItemIndex, x: nat)
    ensures x in Apply(Intersect, a, b) <==> x in a && x in b
    ensures x in Apply(Unite, a, b) <==> x in a || x in b
    ensures x in Apply(Diff, a, b) <==> x in a && x !in b
    ensures x in Apply(SymDiff, a, b) <==> (x in a && x !in b) || (x in b && x !in a)
  {
  }

  /** The items that one of the two has. */
  ghost function InOne(a: ItemIndex, b: ItemIndex): ItemIndex {
    set x | x in a + b && (x in a <==> x !in b)
  }

  lemma SymDiffItems(a: ItemIndex, b: ItemIndex)
    ensures Apply(SymDiff, a, b) == InOne(a, b)
  {
  }

  /** Item x is in cell c of the result f. */
  ghost predicate Holds(f: map<CellId, ItemIndex>, c: CellId, x: nat) {
    c in f && x in f[c]
  }

  /** r has the items that the operation selects from f and g, except those of the lost cells, and no cell
      without items. */
  ghost predicate Selects(op: SetOp, f: map<CellId, ItemIndex>, g: map<CellId, ItemIndex>, lost: set<CellId>,
                          r: map<CellId, ItemIndex>) {
    && (forall c :: c in r ==> r[c] != {})
    && forall c: CellId, x: nat :: Holds(r, c, x) <==>
         && c !in lost
         && match op
            case Intersect => Holds(f, c, x) && Holds(g, c, x)
            case Unite => Holds(f, c, x) || Holds(g, c, x)
            case Diff => Holds(f, c, x) && !Holds(g, c, x)
            case SymDiff => (Holds(f, c, x) && !Holds(g, c, x)) || (Holds(g, c, x) && !Holds(f, c, x))
  }

  lemma PointwiseSelects(op: SetOp, f: map<CellId, ItemIndex>, g: map<CellId, ItemIndex>, lost: set<CellId>)
    ensures Selects(op, f, g, lost, Pointwise(op, f, g) - lost)
  {
    forall c: CellId, x: nat
      ensures Holds(Pointwise(op, f, g) - lost, c, x) <==>
                c !in lost && x in Apply(op, ItemsAt(f, c), ItemsAt(g, c))
      ensures (Holds(f, c, x) <==> x in ItemsAt(f, c)) && (Holds(g, c, x) <==> x in ItemsAt(g, c))
    {
      PointwiseAt(op, f, g, c);
      assert Holds(Pointwise(op, f, g), c, x) <==> x in ItemsAt(Pointwise(op, f, g), c);
    }
  }

  lemma NothingLost(op: SetOp, f: map<CellId, ItemIndex>, g: map<CellId, ItemIndex>)
    ensures Selects(op, f, g, {}, Pointwise(op, f, g))
  {
    PointwiseSelects(op, f, g, {});
    assert Pointwise(op, f, g) - {} == Pointwise(op, f, g);
  }

  /** That determines the result. */
  lemma SelectsOne(op: SetOp, f: map<CellId, ItemIndex>, g: map<CellId, ItemIndex>, lost: set<CellId>,
                   r: map<CellId, ItemIndex>, r2: map<CellId, ItemIndex>)
    requires Selects(op, f, g, lost, r) && Selects(op, f, g, lost, r2)
    ensures r == r2
  {
    forall c: CellId ensures ItemsAt(r, c) == ItemsAt(r2, c) {
      forall x: nat ensures x in ItemsAt(r, c) <==> x in ItemsAt(r2, c) {
        assert Holds(r, c, x) <==> Holds(r2, c, x);
      }
    }
    SameMap(r, r2);
  }

  /** How full matches and missing cells behave under the operations. */
  lemma ApplyLaws(full: ItemIndex, x: ItemIndex)
    requires x <= full
    ensures Apply(Intersect, full, x) == x == Apply(Intersect, x, full)
    ensures Apply(Unite, full, x) == full == Apply(Unite, x, full)
    ensures Apply(Diff, x, full) == {} == Apply(SymDiff, full, full)
    ensures Apply(Intersect, x, {}) == {} == Apply(Intersect, {}, x)
    ensures Apply(Unite, x, {}) == x == Apply(Unite, {}, x)
    ensures Apply(Diff, x, {}) == x && Apply(Diff, {}, x) == {}
    ensures Apply(SymDiff, x, {}) == x == Apply(SymDiff, {}, x)
  {
  }

  datatype Cell = Cell(id: CellId, items: ItemIndex)

  ghost predicate Sorted(xs: seq<Cell>) {
    forall i, j :: 0 <= i < j < |xs| ==> xs[i].id < xs[j].id
  }

  function Emit(c: CellId, items: ItemIndex): seq<Cell> {
    if items == {} then [] else [Cell(c, items)]
  }

  /** The cells that have an item. */
  function Strip(xs: seq<Cell>): seq<Cell> {
    if xs == [] then [] else Emit(xs[0].id, xs[0].items) + Strip(xs[1..])
  }

  /** The meaning of a list of cells: cells without items are not part of the result. */
  function Meaning(xs: seq<Cell>): map<CellId, ItemIndex> {
    if xs == [] then map[]
    else if xs[0].items == {} then Meaning(xs[1..])
    else Meaning(xs[1..])[xs[0].id := xs[0].items]
  }

  function ItemsAt(m: map<CellId, ItemIndex>, c: CellId): ItemIndex {
    if c in m then m[c] else {}
  }

  /** The set operation applied cell by cell. */
  function Pointwise(op: SetOp, f: map<CellId, ItemIndex>, g: map<CellId, ItemIndex>): map<CellId, ItemIndex> {
    map c | c in f.Keys + g.Keys && Apply(op, ItemsAt(f, c), ItemsAt(g, c)) != {}
      :: Apply(op, ItemsAt(f, c), ItemsAt(g, c))
  }

  /** Every cell that has a hit becomes a full match. */
  function Widen(st: CellStore, f: map<CellId, ItemIndex>): map<CellId, ItemIndex> {
    map c | c in f :: st.Full(c)
  }

  /** One pass over two ascending cell lists. */
  function Merge(op: SetOp, xs: seq<Cell>, ys: seq<Cell>): seq<Cell>
    decreases |xs| + |ys|
  {
    if xs == [] && ys == [] then []
    else if ys == [] || (xs != [] && xs[0].id < ys[0].id) then
      Emit(xs[0].id, Apply(op, xs[0].items, {})) + Merge(op, xs[1..], ys)
    else if xs == [] || ys[0].id < xs[0].id then
      Emit(ys[0].id, Apply(op, {}, ys[0].items)) + Merge(op, xs, ys[1..])
    else
      Emit(xs[0].id, Apply(op, xs[0].items, ys[0].items)) + Merge(op, xs[1..], ys[1..])
  }

  function WidenCells(st: CellStore, xs: seq<Cell>): seq<Cell> {
    if xs == [] then []
    else Emit(xs[0].id, WidenItems(st, xs[0])) + WidenCells(st, xs[1..])
  }

  lemma {:induction false} StripConcat(xs: seq<Cell>, ys: seq<Cell>)
    ensures Strip(xs + ys) == Strip(xs) + Strip(ys)
  {
    if xs == [] {
      assert xs + ys == ys;
    } else {
      assert (xs + ys)[1..] == xs[1..] + ys;
      StripConcat(xs[1..], ys);
    }
  }

  lemma {:induction false} StripMeaning(xs: seq<Cell>)
    ensures Meaning(Strip(xs)) == Meaning(xs)
  {
    if xs != [] {
      StripMeaning(xs[1..]);
      EmitThen(xs[0].id, xs[0].items, Strip(xs[1..]));
    }
  }

  lemma {:induction false} MeaningKeys(xs: seq<Cell>, lo: nat)
    requires forall k :: 0 <= k < |xs| ==> lo <= xs[k].id
    ensures forall c :: c in Meaning(xs) ==> lo <= c
  {
    if xs != [] {
      MeaningKeys(xs[1..], lo);
    }
  }

  lemma {:induction false} MeaningNonEmpty(xs: seq<Cell>)
    ensures forall c :: c in Meaning(xs) ==> Meaning(xs)[c] != {}
  {
    if xs != [] {
      MeaningNonEmpty(xs[1..]);
    }
  }

  lemma TailAbove(xs: seq<Cell>)
    requires Sorted(xs) && xs != []
    ensures Sorted(xs[1..])
    ensures forall c :: c in Meaning(xs[1..]) ==> xs[0].id < c
    ensures ItemsAt(Meaning(xs), xs[0].id) == xs[0].items
    ensures forall c :: c != xs[0].id ==> ItemsAt(Meaning(xs), c) == ItemsAt(Meaning(xs[1..]), c)
    ensures forall c :: c in Meaning(xs) ==> xs[0].id <= c
  {
    MeaningKeys(xs[1..], xs[0].id + 1);
  }

  /** Merging ascending lists is the pointwise operation on their meanings. */
  lemma {:induction false} MergeIsPointwise(op: SetOp, xs: seq<Cell>, ys: seq<Cell>)
    requires Sorted(xs) && Sorted(ys)
    ensures forall c :: ItemsAt(Meaning(Merge(op, xs, ys)), c)
                        == Apply(op, ItemsAt(Meaning(xs), c), ItemsAt(Meaning(ys), c))
    decreases |xs| + |ys|
  {
    if xs == [] && ys == [] {
    } else if ys == [] || (xs != [] && xs[0].id < ys[0].id) {
      TailAbove(xs);
      if ys != [] { TailAbove(ys); }
      MergeIsPointwise(op, xs[1..], ys);
      EmitThen(xs[0].id, Apply(op, xs[0].items, {}), Merge(op, xs[1..], ys));
    } else if xs == [] || ys[0].id < xs[0].id {
      TailAbove(ys);
      if xs != [] { TailAbove(xs); }
      MergeIsPointwise(op, xs, ys[1..]);
      EmitThen(ys[0].id, Apply(op, {}, ys[0].items), Merge(op, xs, ys[1..]));
    } else {
      TailAbove(xs);
      TailAbove(ys);
      MergeIsPointwise(op, xs[1..], ys[1..]);
      EmitThen(xs[0].id, Apply(op, xs[0].items, ys[0].items), Merge(op, xs[1..], ys[1..]));
    }
  }

  lemma EmitThen(c: CellId, items: ItemIndex, rest: seq<Cell>)
    ensures items == {} ==> Meaning(Emit(c, items) + rest) == Meaning(rest)
    ensures items != {} ==> Meaning(Emit(c, items) + rest) == Meaning(rest)[c := items]
  {
    if items == {} {
      assert Emit(c, items) + rest == rest;
    } else {
      assert (Emit(c, items) + rest)[1..] == rest;
    }
  }

  /** The main law both engines are held to. */
  lemma MergeMeaning(op: SetOp, xs: seq<Cell>, ys: seq<Cell>)
    requires Sorted(xs) && Sorted(ys)
    ensures Meaning(Merge(op, xs, ys)) == Pointwise(op, Meaning(xs), Meaning(ys))
  {
    MergeIsPointwise(op, xs, ys);
    MeaningNonEmpty(Merge(op, xs, ys));
    forall c: CellId
      ensures ItemsAt(Meaning(Merge(op, xs, ys)), c) == ItemsAt(Pointwise(op, Meaning(xs), Meaning(ys)), c)
    {
      PointwiseAt(op, Meaning(xs), Meaning(ys), c);
    }
    SameMap(Meaning(Merge(op, xs, ys)), Pointwise(op, Meaning(xs), Meaning(ys)));
  }

  /** Once one list is used up, what remains of the other is copied or dropped. */
  lemma {:induction false} MergeRest(op: SetOp, xs: seq<Cell>)
    ensures op != Intersect ==> Merge(op, xs, []) == Strip(xs)
    ensures op == Intersect ==> Merge(op, xs, []) == []
    ensures op == Unite || op == SymDiff ==> Merge(op, [], xs) == Strip(xs)
    ensures op == Intersect || op == Diff ==> Merge(op, [], xs) == []
  {
    if xs != [] {
      MergeRest(op, xs[1..]);
      ApplyLaws(xs[0].items, xs[0].items);
    }
  }

  lemma {:induction false} WidenMeaning(st: CellStore, xs: seq<Cell>)
    requires Sorted(xs)
    requires forall k :: 0 <= k < |xs| ==> xs[k].items <= st.Full(xs[k].id)
    ensures Meaning(WidenCells(st, xs)) == Widen(st, Meaning(xs))
  {
    if xs != [] {
      TailAbove(xs);
      WidenMeaning(st, xs[1..]);
      EmitThen(xs[0].id, WidenItems(st, xs[0]), WidenCells(st, xs[1..]));
    }
  }

  /** A merge loop that has consumed xs[..i] and ys[..j] and produced the cells out. */
  ghost predicate Merging(op: SetOp, xs: seq<Cell>, ys: seq<Cell>, i: nat, j: nat, out: seq<Cell>) {
    && i <= |xs| && j <= |ys|
    && Strip(out) + Merge(op, xs[i..], ys[j..]) == Merge(op, xs, ys)
  }

  /** out2 has at most the cell (c, items) more than out; it may leave out an empty cell. */
  ghost predicate Produces(out: seq<Cell>, out2: seq<Cell>, c: CellId, items: ItemIndex) {
    out2 == out + [Cell(c, items)] || (out2 == out && items == {})
  }

  lemma ProducedStrip(out: seq<Cell>, out2: seq<Cell>, c: CellId, items: ItemIndex)
    requires Produces(out, out2, c, items)
    ensures Strip(out2) == Strip(out) + Emit(c, items)
  {
    StripConcat(out, [Cell(c, items)]);
    assert Strip([Cell(c, items)]) == Emit(c, items);
  }

  lemma StepLeft(op: SetOp, xs: seq<Cell>, ys: seq<Cell>, i: nat, j: nat, out: seq<Cell>, out2: seq<Cell>)
    requires Merging(op, xs, ys, i, j, out)
    requires i < |xs| && (j == |ys| || xs[i].id < ys[j].id)
    requires Produces(out, out2, xs[i].id, Apply(op, xs[i].items, {}))
    ensures Merging(op, xs, ys, i + 1, j, out2)
  {
    var e := Emit(xs[i].id, Apply(op, xs[i].items, {}));
    ProducedStrip(out, out2, xs[i].id, Apply(op, xs[i].items, {}));
    assert Merge(op, xs[i..], ys[j..]) == e + Merge(op, xs[i + 1..], ys[j..]) by {
      assert xs[i..][1..] == xs[i + 1..];
    }
    Regroup(Strip(out), e, Merge(op, xs[i + 1..], ys[j..]));
  }

  lemma StepRight(op: SetOp, xs: seq<Cell>, ys: seq<Cell>, i: nat, j: nat, out: seq<Cell>, out2: seq<Cell>)
    requires Merging(op, xs, ys, i, j, out)
    requires j < |ys| && (i == |xs| || ys[j].id < xs[i].id)
    requires Produces(out, out2, ys[j].id, Apply(op, {}, ys[j].items))
    ensures Merging(op, xs, ys, i, j + 1, out2)
  {
    var e := Emit(ys[j].id, Apply(op, {}, ys[j].items));
    ProducedStrip(out, out2, ys[j].id, Apply(op, {}, ys[j].items));
    assert Merge(op, xs[i..], ys[j..]) == e + Merge(op, xs[i..], ys[j + 1..]) by {
      assert ys[j..][1..] == ys[j + 1..];
    }
    Regroup(Strip(out), e, Merge(op, xs[i..], ys[j + 1..]));
  }

  /** A cell found only on the left is kept, unless the operation is the intersection. */
  lemma OnlyLeft(op: SetOp, xs: seq<Cell>, ys: seq<Cell>, i: nat, j: nat, out: seq<Cell>, out2: seq<Cell>)
    requires Merging(op, xs, ys, i, j, out)
    requires i < |xs| && j < |ys| && xs[i].id < ys[j].id
    requires out2 == if op == Intersect then out else out + [xs[i]]
    ensures Merging(op, xs, ys, i + 1, j, out2)
  {
    ApplyLaws(xs[i].items, xs[i].items);
    StepLeft(op, xs, ys, i, j, out, out2);
  }

  /** A cell found only on the right is kept by the symmetric operations other than the intersection. */
  lemma OnlyRight(op: SetOp, xs: seq<Cell>, ys: seq<Cell>, i: nat, j: nat, out: seq<Cell>, out2: seq<Cell>)
    requires Merging(op, xs, ys, i, j, out)
    requires i < |xs| && j < |ys| && ys[j].id < xs[i].id
    requires out2 == if op == Intersect || op == Diff then out else out + [ys[j]]
    ensures Merging(op, xs, ys, i, j + 1, out2)
  {
    ApplyLaws(ys[j].items, ys[j].items);
    StepRight(op, xs, ys, i, j, out, out2);
  }

  lemma StepBoth(op: SetOp, xs: seq<Cell>, ys: seq<Cell>, i: nat, j: nat, out: seq<Cell>, out2: seq<Cell>)
    requires Merging(op, xs, ys, i, j, out)
    requires i < |xs| && j < |ys| && xs[i].id == ys[j].id
    requires Produces(out, out2, xs[i].id, Apply(op, xs[i].items, ys[j].items))
    ensures Merging(op, xs, ys, i + 1, j + 1, out2)
  {
    var e := Emit(xs[i].id, Apply(op, xs[i].items, ys[j].items));
    ProducedStrip(out, out2, xs[i].id, Apply(op, xs[i].items, ys[j].items));
    assert Merge(op, xs[i..], ys[j..]) == e + Merge(op, xs[i + 1..], ys[j + 1..]) by {
      assert xs[i..][1..] == xs[i + 1..] && ys[j..][1..] == ys[j + 1..];
    }
    Regroup(Strip(out), e, Merge(op, xs[i + 1..], ys[j + 1..]));
  }

  /** The end of a merge loop: the rest of one side is copied where the operation keeps it. */
  lemma FinishMerge(op: SetOp, xs: seq<Cell>, ys: seq<Cell>, i: nat, j: nat, out: seq<Cell>, out2: seq<Cell>)
    requires Sorted(xs) && Sorted(ys) && Merging(op, xs, ys, i, j, out)
    requires i == |xs| || j == |ys|
    requires if i < |xs| && op != Intersect then out2 == out + xs[i..]
             else if j < |ys| && op != Intersect && op != Diff then out2 == out + ys[j..]
             else out2 == out
    ensures Meaning(out2) == Pointwise(op, Meaning(xs), Meaning(ys))
    ensures Selects(op, Meaning(xs), Meaning(ys), {}, Meaning(out2))
  {
    MergeRest(op, xs[i..]);
    MergeRest(op, ys[j..]);
    StripConcat(out, xs[i..]);
    StripConcat(out, ys[j..]);
    assert Strip(out2) == Merge(op, xs, ys);
    StripMeaning(out2);
    MergeMeaning(op, xs, ys);
    NothingLost(op, Meaning(xs), Meaning(ys));
  }

  lemma StartMerge(op: SetOp, xs: seq<Cell>, ys: seq<Cell>)
    ensures Merging(op, xs, ys, 0, 0, [])
  {
    assert xs[0..] == xs && ys[0..] == ys;
  }

  function WidenItems(st: CellStore, x: Cell): ItemIndex {
    if x.items == {} then {} else st.Full(x.id)
  }

  /** A widening loop that has consumed xs[..i] and produced the cells out. */
  ghost predicate Widening(st: CellStore, xs: seq<Cell>, i: nat, out: seq<Cell>) {
    i <= |xs| && Strip(out) + WidenCells(st, xs[i..]) == WidenCells(st, xs)
  }

  lemma WideningStep(st: CellStore, xs: seq<Cell>, i: nat, out: seq<Cell>, out2: seq<Cell>)
    requires Widening(st, xs, i, out) && i < |xs|
    requires out2 == out + [Cell(xs[i].id, WidenItems(st, xs[i]))]
    ensures Widening(st, xs, i + 1, out2)
  {
    var e := Emit(xs[i].id, WidenItems(st, xs[i]));
    ProducedStrip(out, out2, xs[i].id, WidenItems(st, xs[i]));
    assert xs[i..][1..] == xs[i + 1..];
    Regroup(Strip(out), e, WidenCells(st, xs[i + 1..]));
  }

  lemma FinishWidening(st: CellStore, xs: seq<Cell>, out: seq<Cell>)
    requires Sorted(xs) && Widening(st, xs, |xs|, out)
    requires forall k :: 0 <= k < |xs| ==> xs[k].items <= st.Full(xs[k].id)
    ensures Meaning(out) == Widen(st, Meaning(xs))
  {
    assert Strip(out) == WidenCells(st, xs);
    StripMeaning(out);
    WidenMeaning(st, xs);
  }

  lemma {:induction false} ItemsAtIndex(xs: seq<Cell>, k: nat)
    requires Sorted(xs) && k < |xs|
    ensures ItemsAt(Meaning(xs), xs[k].id) == xs[k].items
  {
    TailAbove(xs);
    if k > 0 {
      ItemsAtIndex(xs[1..], k - 1);
    }
  }

  lemma {:induction false} ItemsAtNoIndex(xs: seq<Cell>, c: CellId)
    requires forall k :: 0 <= k < |xs| ==> xs[k].id != c
    ensures ItemsAt(Meaning(xs), c) == {}
  {
    if xs != [] {
      assert xs[0].id != c;
      ItemsAtNoIndex(xs[1..], c);
    }
  }

  /** xs, except that the cells in `same` are taken for the cells of ys. */
  function Mistake(xs: seq<Cell>, ys: seq<Cell>, same: set<CellId>): seq<Cell> {
    seq(|xs|, k requires 0 <= k < |xs| =>
      if xs[k].id in same then Cell(xs[k].id, ItemsAt(Meaning(ys), xs[k].id)) else xs[k])
  }

  lemma MistakeAt(xs: seq<Cell>, ys: seq<Cell>, same: set<CellId>, c: CellId)
    requires Sorted(xs)
    requires c in same ==> exists k :: 0 <= k < |xs| && xs[k].id == c
    ensures Sorted(Mistake(xs, ys, same))
    ensures ItemsAt(Meaning(Mistake(xs, ys, same)), c)
            == if c in same then ItemsAt(Meaning(ys), c) else ItemsAt(Meaning(xs), c)
  {
    var zs := Mistake(xs, ys, same);
    if k :| 0 <= k < |xs| && xs[k].id == c {
      ItemsAtIndex(xs, k);
      ItemsAtIndex(zs, k);
    } else {
      ItemsAtNoIndex(xs, c);
      forall k | 0 <= k < |zs| ensures zs[k].id != c { assert zs[k].id == xs[k].id; }
      ItemsAtNoIndex(zs, c);
    }
  }

  /** Taking a cell for equal to its partner loses exactly that cell from a difference. */
  lemma MistakeLosesCells(op: SetOp, xs: seq<Cell>, ys: seq<Cell>, same: set<CellId>)
    requires Sorted(xs) && Sorted(ys)
    requires same != {} ==> op == Diff || op == SymDiff
    requires forall c :: c in same ==> exists k :: 0 <= k < |xs| && xs[k].id == c
    ensures Pointwise(op, Meaning(Mistake(xs, ys, same)), Meaning(ys))
            == Pointwise(op, Meaning(xs), Meaning(ys)) - same
  {
    var f, f2, g := Meaning(xs), Meaning(Mistake(xs, ys, same)), Meaning(ys);
    forall c: CellId
      ensures ItemsAt(Pointwise(op, f2, g), c) == ItemsAt(Pointwise(op, f, g) - same, c)
    {
      MistakeAt(xs, ys, same, c);
      PointwiseAt(op, f, g, c);
      PointwiseAt(op, f2, g, c);
      var y := ItemsAt(g, c);
      assert Apply(Diff, y, y) == {} == Apply(SymDiff, y, y);
    }
    SameMap(Pointwise(op, f2, g), Pointwise(op, f, g) - same);
  }

  /** Maps without empty entries are determined by their items. */
  lemma SameMap(f: map<CellId, ItemIndex>, g: map<CellId, ItemIndex>)
    requires forall c :: c in f ==> f[c] != {}
    requires forall c :: c in g ==> g[c] != {}
    requires forall c: CellId :: ItemsAt(f, c) == ItemsAt(g, c)
    ensures f == g
  {
    assert forall c: CellId :: (ItemsAt(f, c) != {} <==> c in f) && (ItemsAt(g, c) != {} <==> c in g);
    assert forall c :: c in f <==> c in g;
    forall c | c in f ensures f[c] == g[c] {
      assert ItemsAt(f, c) == ItemsAt(g, c);
    }
  }

  lemma PointwiseAt(op: SetOp, f: map<CellId, ItemIndex>, g: map<CellId, ItemIndex>, c: CellId)
    ensures ItemsAt(Pointwise(op, f, g), c) == Apply(op, ItemsAt(f, c), ItemsAt(g, c))
  {
    assert Apply(op, {}, {}) == {};
  }

  /** Full and partial matches as a query delivers them: ascending cell ids, and one index per partial match. */
  ghost predicate MatchesOk(st: CellStore, fm: seq<CellId>, pm: seq<CellId>, items: seq<ItemIndex>) {
    && |items| == |pm|
    && (forall k :: 0 <= k < |fm| ==> fm[k] < |st.cellPtr|)
    && (forall k :: 0 <= k < |pm| ==> pm[k] < |st.cellPtr| && items[k] != {} && items[k] <= st.Full(pm[k]))
    && (forall a, b :: 0 <= a < b < |fm| ==> fm[a] < fm[b])
    && (forall a, b :: 0 <= a < b < |pm| ==> pm[a] < pm[b])
  }

  ghost function FullCells(st: CellStore, fm: seq<CellId>): seq<Cell> {
    seq(|fm|, k requires 0 <= k < |fm| => Cell(fm[k], st.Full(fm[k])))
  }

  ghost function PartialCells(pm: seq<CellId>, items: seq<ItemIndex>): seq<Cell>
    requires |items| == |pm|
  {
    seq(|pm|, k requires 0 <= k < |pm| => Cell(pm[k], items[k]))
  }

  /** A cell that is listed in both ways is a full match. */
  ghost function MatchResult(st: CellStore, fm: seq<CellId>, pm: seq<CellId>, items: seq<ItemIndex>): map<CellId, ItemIndex>
    requires |items| == |pm|
  {
    Pointwise(Unite, Meaning(FullCells(st, fm)), Meaning(PartialCells(pm, items)))
  }

  /** The matches to come are in later cells. */
  ghost predicate MatchesAhead(out: seq<Cell>, fm: seq<CellId>, pm: seq<CellId>, f: nat, p: nat) {
    forall k :: 0 <= k < |out| ==> (f < |fm| ==> out[k].id < fm[f]) && (p < |pm| ==> out[k].id < pm[p])
  }

  lemma StillAhead(out: seq<Cell>, out2: seq<Cell>, fm: seq<CellId>, pm: seq<CellId>, f: nat, p: nat, f2: nat, p2: nat)
    requires MatchesAhead(out, fm, pm, f, p) && out <= out2 && |out2| == |out| + 1
    requires f <= f2 <= |fm| && p <= p2 <= |pm|
    requires (forall a, b :: 0 <= a < b < |fm| ==> fm[a] < fm[b]) && (forall a, b :: 0 <= a < b < |pm| ==> pm[a] < pm[b])
    requires f2 < |fm| ==> out2[|out|].id < fm[f2]
    requires p2 < |pm| ==> out2[|out|].id < pm[p2]
    ensures MatchesAhead(out2, fm, pm, f2, p2)
  {
    forall k | 0 <= k < |out| ensures out2[k] == out[k] {
    }
  }

  /** The next full match is taken; a partial match of the same cell is passed over. */
  lemma TakeFull(st: CellStore, fm: seq<CellId>, pm: seq<CellId>, items: seq<ItemIndex>, f: nat, p: nat,
                 out: seq<Cell>, out2: seq<Cell>)
    requires MatchesOk(st, fm, pm, items) && f < |fm| && p <= |pm| && (p < |pm| ==> fm[f] <= pm[p])
    requires Merging(Unite, FullCells(st, fm), PartialCells(pm, items), f, p, out)
    requires out2 == out + [Cell(fm[f], st.Full(fm[f]))]
    ensures Merging(Unite, FullCells(st, fm), PartialCells(pm, items), f + 1,
                    if p < |pm| && fm[f] == pm[p] then p + 1 else p, out2)
  {
    var xs, ys := FullCells(st, fm), PartialCells(pm, items);
    ApplyLaws(xs[f].items, xs[f].items);
    if p < |pm| && fm[f] == pm[p] {
      ApplyLaws(xs[f].items, ys[p].items);
      StepBoth(Unite, xs, ys, f, p, out, out2);
    } else {
      StepLeft(Unite, xs, ys, f, p, out, out2);
    }
  }

  lemma TakePartial(st: CellStore, fm: seq<CellId>, pm: seq<CellId>, items: seq<ItemIndex>, f: nat, p: nat,
                    out: seq<Cell>, out2: seq<Cell>)
    requires MatchesOk(st, fm, pm, items) && f <= |fm| && p < |pm| && (f < |fm| ==> pm[p] < fm[f])
    requires Merging(Unite, FullCells(st, fm), PartialCells(pm, items), f, p, out)
    requires out2 == out + [Cell(pm[p], items[p])]
    ensures Merging(Unite, FullCells(st, fm), PartialCells(pm, items), f, p + 1, out2)
  {
    var xs, ys := FullCells(st, fm), PartialCells(pm, items);
    ApplyLaws(ys[p].items, ys[p].items);
    StepRight(Unite, xs, ys, f, p, out, out2);
  }

  /** A copying loop that has consumed xs[..i], left out empty cells only, and produced the cells out. */
  ghost predicate Copying(xs: seq<Cell>, i: nat, out: seq<Cell>) {
    i <= |xs| && Strip(out) == Strip(xs[..i])
  }

  lemma CopyingStep(xs: seq<Cell>, i: nat, out: seq<Cell>, out2: seq<Cell>)
    requires Copying(xs, i, out) && i < |xs| && Produces(out, out2, xs[i].id, xs[i].items)
    ensures Copying(xs, i + 1, out2)
  {
    ProducedStrip(out, out2, xs[i].id, xs[i].items);
    assert xs[..i + 1] == xs[..i] + [xs[i]];
    StripConcat(xs[..i], [xs[i]]);
    assert Strip([xs[i]]) == Emit(xs[i].id, xs[i].items);
  }

  lemma FinishCopying(xs: seq<Cell>, out: seq<Cell>)
    requires Copying(xs, |xs|, out)
    ensures Meaning(out) == Meaning(xs)
  {
    assert xs[..|xs|] == xs;
    StripMeaning(xs);
    StripMeaning(out);
  }

  /** Two cell lists that disagree on one cell do not mean the same. */
  lemma Disagree(xs: seq<Cell>, ys: seq<Cell>, k: nat, l: nat)
    requires Sorted(xs) && Sorted(ys) && k < |xs| && l < |ys| && xs[k].id == ys[l].id
    requires xs[k].items != ys[l].items
    ensures Meaning(xs) != Meaning(ys)
  {
    ItemsAtIndex(xs, k);
    ItemsAtIndex(ys, l);
  }
}
