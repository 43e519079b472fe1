/** The flat pre-order expression tree of one cell. */
module FlatTree {
  // Which node sequences are well formed, what they mean, and how flattening computes that meaning.

  import opened CellAlgebra

  /** `childB` is the distance from an operator to its right operand; the left operand
      always follows the operator directly. */
  datatype FlatNode =
    | PmLeaf(pmIdxId: IdxId)
    | FmLeaf
    | FetchedLeaf(internalIdxId: nat)
    | ToFm
    | OpNode(op: SetOp, childB: nat)

  /** An index fetched for cell c. */
  ghost predicate IndexOk(st: CellStore, items: ItemIndex, c: CellId) {
    items <= st.Full(c) && (items == {} ==> st.Full(c) == {})
  }

  /** `t` is exactly one pre-order tree for cell c: every left subtree fills the gap in front
      of `childB`, and every leaf names a match that lies inside the cell and has items if the cell has
      any.  Nothing is computed from full matches alone. */
  ghost predicate WellFormed(st: CellStore, t: seq<FlatNode>, fetched: seq<ItemIndex>, c: CellId)
    decreases |t|
  {
    && t != []
    && match t[0]
       case PmLeaf(id) => |t| == 1 && st.PartialOk(id, c)
       case FmLeaf => |t| == 1
       case FetchedLeaf(k) => |t| == 1 && k < |fetched| && IndexOk(st, fetched[k], c)
       case ToFm => WellFormed(st, t[1..], fetched, c) && !t[1].FmLeaf?
       case OpNode(_, b) =>
         && 1 < b < |t|
         && WellFormed(st, t[1..b], fetched, c)
         && WellFormed(st, t[b..], fetched, c)
         && !(t[1].FmLeaf? && t[b].FmLeaf?)
  }

  /** The set a tree stands for. */
  function Eval(st: CellStore, t: seq<FlatNode>, fetched: seq<ItemIndex>, c: CellId): ItemIndex
    decreases |t|
  {
    if t == [] then {}
    else match t[0]
      case PmLeaf(id) => st.At(id)
      case FmLeaf => st.Full(c)
      case FetchedLeaf(k) => if k < |fetched| then fetched[k] else {}
      case ToFm => if Eval(st, t[1..], fetched, c) == {} then {} else st.Full(c)
      case OpNode(op, b) =>
        if 1 < b < |t| then Apply(op, Eval(st, t[1..b], fetched, c), Eval(st, t[b..], fetched, c)) else {}
  }

  /** A subtree never leaves its cell. */
  lemma {:induction false} EvalInCell(st: CellStore, t: seq<FlatNode>, fetched: seq<ItemIndex>, c: CellId)
    requires WellFormed(st, t, fetched, c)
    ensures Eval(st, t, fetched, c) <= st.Full(c)
    decreases |t|
  {
    match t[0]
    case OpNode(op, b) =>
      EvalInCell(st, t[1..b], fetched, c);
      EvalInCell(st, t[b..], fetched, c);
    case _ =>
  }

  /** t2 is t with its fetched leaves renumbered to entries of another table that hold the same items. */
  ghost predicate Renumbered(t: seq<FlatNode>, f: seq<ItemIndex>, t2: seq<FlatNode>, f2: seq<ItemIndex>) {
    && |t2| == |t|
    && forall k :: 0 <= k < |t| ==> SameNode(t[k], f, t2[k], f2)
  }

  ghost predicate SameNode(n: FlatNode, f: seq<ItemIndex>, n2: FlatNode, f2: seq<ItemIndex>) {
    if n.FetchedLeaf? then
      && n2.FetchedLeaf?
      && n.internalIdxId < |f| && n2.internalIdxId < |f2|
      && f2[n2.internalIdxId] == f[n.internalIdxId]
    else n2 == n
  }

  /** Renumbering keeps a tree well formed and keeps its meaning. */
  lemma {:induction false} RenumberKeepsTree(st: CellStore, t: seq<FlatNode>, f: seq<ItemIndex>,
                                             t2: seq<FlatNode>, f2: seq<ItemIndex>, c: CellId)
    requires WellFormed(st, t, f, c) && Renumbered(t, f, t2, f2)
    ensures WellFormed(st, t2, f2, c)
    ensures Eval(st, t2, f2, c) == Eval(st, t, f, c)
    decreases |t|
  {
    assert SameNode(t[0], f, t2[0], f2);
    match t[0]
    case ToFm =>
      RenumberKeepsTree(st, t[1..], f, t2[1..], f2, c);
    case OpNode(op, b) =>
      RenumberKeepsTree(st, t[1..b], f, t2[1..b], f2, c);
      RenumberKeepsTree(st, t[b..], f, t2[b..], f2, c);
    case _ =>
  }

  /** Fetched leaves of a well formed tree name existing table entries. */
  lemma {:induction false} LeavesInRange(st: CellStore, t: seq<FlatNode>, f: seq<ItemIndex>, c: CellId)
    requires WellFormed(st, t, f, c)
    ensures forall k :: 0 <= k < |t| && t[k].FetchedLeaf? ==> t[k].internalIdxId < |f|
    decreases |t|
  {
    match t[0]
    case ToFm =>
      LeavesInRange(st, t[1..], f, c);
      assert forall k :: 1 <= k < |t| ==> t[k] == t[1..][k - 1];
    case OpNode(op, b) =>
      LeavesInRange(st, t[1..b], f, c);
      LeavesInRange(st, t[b..], f, c);
      assert forall k :: 1 <= k < b ==> t[k] == t[1..b][k - 1];
      assert forall k :: b <= k < |t| ==> t[k] == t[b..][k - b];
    case _ =>
  }

  /** A longer fetched table changes nothing. */
  lemma GrowFetched(st: CellStore, t: seq<FlatNode>, f: seq<ItemIndex>, f2: seq<ItemIndex>, c: CellId)
    requires WellFormed(st, t, f, c) && f <= f2
    ensures WellFormed(st, t, f2, c)
    ensures Eval(st, t, f2, c) == Eval(st, t, f, c)
  {
    LeavesInRange(st, t, f, c);
    RenumberKeepsTree(st, t, f, t, f2, c);
  }

  /** What flattening reports about a subtree. */
  datatype Outcome = Pm(id: IdxId) | Fm | Fetched(items: ItemIndex) | Empty

  function Items(st: CellStore, o: Outcome, c: CellId): ItemIndex {
    match o
    case Pm(id) => st.At(id)
    case Fm => st.Full(c)
    case Fetched(items) => items
    case Empty => {}
  }

  function FetchedOrEmpty(items: ItemIndex): Outcome {
    if items == {} then Empty else Fetched(items)
  }

  function CombineOutcomes(st: CellStore, op: SetOp, a: Outcome, b: Outcome, c: CellId): Outcome {
    match op
    case Intersect =>
      if a.Fm? && b.Fm? then Fm
      else if a.Fm? then b
      else if b.Fm? then a
      else FetchedOrEmpty(Items(st, a, c) * Items(st, b, c))
    case Unite =>
      if a.Fm? || b.Fm? then Fm else Fetched(Items(st, a, c) + Items(st, b, c))
    case Diff =>
      if b.Fm? || a.Empty? then Empty else FetchedOrEmpty(Items(st, a, c) - Items(st, b, c))
    case SymDiff =>
      if a.Fm? && b.Fm? then Empty else FetchedOrEmpty(Apply(SymDiff, Items(st, a, c), Items(st, b, c)))
  }

  function WidenOutcome(a: Outcome): Outcome {
    if a.Pm? || (a.Fetched? && a.items != {}) then Fm else a
  }

  /** The case distinction of flattening: set operations are only performed where full matches do
      not decide the result. */
  function Flatten(st: CellStore, t: seq<FlatNode>, fetched: seq<ItemIndex>, c: CellId): Outcome
    decreases |t|
  {
    if t == [] then Empty
    else match t[0]
      case PmLeaf(id) => Pm(id)
      case FmLeaf => Fm
      case FetchedLeaf(k) => if k < |fetched| then Fetched(fetched[k]) else Empty
      case ToFm => WidenOutcome(Flatten(st, t[1..], fetched, c))
      case OpNode(op, b) =>
        if 1 < b < |t| then
          CombineOutcomes(st, op, Flatten(st, t[1..b], fetched, c), Flatten(st, t[b..], fetched, c), c)
        else Empty
  }

  /** A reported partial match is a leaf of the tree, hence non-empty and inside the cell. */
  lemma {:induction false} FlattenPmOk(st: CellStore, t: seq<FlatNode>, fetched: seq<ItemIndex>, c: CellId)
    requires WellFormed(st, t, fetched, c)
    ensures Flatten(st, t, fetched, c).Pm? ==> st.PartialOk(Flatten(st, t, fetched, c).id, c)
    decreases |t|
  {
    match t[0]
    case OpNode(op, b) =>
      FlattenPmOk(st, t[1..b], fetched, c);
      FlattenPmOk(st, t[b..], fetched, c);
    case _ =>
  }

  /** Full matches decide as the set operation does. */
  lemma CombineIsApply(st: CellStore, op: SetOp, a: Outcome, b: Outcome, c: CellId)
    requires Items(st, a, c) <= st.Full(c) && Items(st, b, c) <= st.Full(c)
    ensures Items(st, CombineOutcomes(st, op, a, b, c), c) == Apply(op, Items(st, a, c), Items(st, b, c))
  {
    ApplyLaws(st.Full(c), Items(st, a, c));
    ApplyLaws(st.Full(c), Items(st, b, c));
  }

  /** All the shortcuts together compute the meaning of the tree. */
  lemma {:induction false} FlattenIsEval(st: CellStore, t: seq<FlatNode>, fetched: seq<ItemIndex>, c: CellId)
    requires WellFormed(st, t, fetched, c)
    ensures Items(st, Flatten(st, t, fetched, c), c) == Eval(st, t, fetched, c)
    decreases |t|
  {
    match t[0]
    case ToFm =>
      FlattenIsEval(st, t[1..], fetched, c);
      FlattenPmOk(st, t[1..], fetched, c);
    case OpNode(op, b) =>
      FlattenIsEval(st, t[1..b], fetched, c);
      FlattenIsEval(st, t[b..], fetched, c);
      EvalInCell(st, t[1..b], fetched, c);
      EvalInCell(st, t[b..], fetched, c);
      CombineIsApply(st, op, Flatten(st, t[1..b], fetched, c), Flatten(st, t[b..], fetched, c), c);
    case _ =>
  }

  /** The operands decide the result without any index being computed. */
  predicate Decided(op: SetOp, a: Outcome, b: Outcome) {
    match op
    case Intersect => a.Fm? && b.Fm?
    case Unite => a.Fm? || b.Fm?
    case Diff => b.Fm? || a.Empty?
    case SymDiff => a.Fm? && b.Fm?
  }

  function FetchedItems(o: Outcome): ItemIndex {
    if o.Fetched? then o.items else {}
  }

  /** What flattening leaves in the caller's index variable, which held `idx` before: only fetched
      leaves and operators that compute an index write to it. */
  function IdxAfter(st: CellStore, t: seq<FlatNode>, fetched: seq<ItemIndex>, c: CellId, idx: ItemIndex): ItemIndex {
    if t == [] then idx
    else match t[0]
      case FetchedLeaf(k) => if k < |fetched| then fetched[k] else idx
      case OpNode(op, b) =>
        if 1 < b < |t| then
          var oa, ob := Flatten(st, t[1..b], fetched, c), Flatten(st, t[b..], fetched, c);
          if Decided(op, oa, ob) then idx else FetchedItems(CombineOutcomes(st, op, oa, ob, c))
        else idx
      case _ => idx
  }

  /** With a fresh index variable, the index is exactly the fetched outcome. */
  lemma FreshIdx(st: CellStore, t: seq<FlatNode>, fetched: seq<ItemIndex>, c: CellId)
    requires WellFormed(st, t, fetched, c)
    ensures IdxAfter(st, t, fetched, c, {}) == FetchedItems(Flatten(st, t, fetched, c))
  {
    match t[0]
    case OpNode(op, b) =>
      var oa, ob := Flatten(st, t[1..b], fetched, c), Flatten(st, t[b..], fetched, c);
      assert Decided(op, oa, ob) ==> !CombineOutcomes(st, op, oa, ob, c).Fetched?;
    case _ =>
  }
}
