/** Iterators that combine the ids of other iterators while they advance. */
module Iterators {
  // Handles copy an iterator before they change a shared one, so an iterator is a value here.

  import opened Grammar
  import E = OpTreeEval

  type Id = x: nat | x <= 0xFFFF_FFFF

  datatype Iter =
    | Empty
    | Index(items: seq<Id>, pos: nat, cur: Id)
    | SetOp(op: Op, first: Iter, second: Iter, val: Id, valid: bool)
    | Intersecting(idx: seq<Iter>, least: Id, more: bool)

  function IdsIn(s: seq<nat>): set<nat> {
    set x | x in s
  }

  predicate Ascending(s: seq<nat>) {
    forall i, j :: 0 <= i < j < |s| ==> s[i] < s[j]
  }

  function IsValid(it: Iter): bool {
    match it
    case Empty => false
    case Index(items, pos, _) => pos < |items|
    case SetOp(_, _, _, _, valid) => valid
    case Intersecting(_, _, more) => more
  }

  function Current(it: Iter): Id {
    match it
    case Empty => 0
    case Index(_, _, cur) => cur
    case SetOp(_, _, _, val, _) => val
    case Intersecting(_, least, _) => least
  }

  /** The ids still to come, the current one among them. */
  ghost function Pending(it: Iter): set<nat> {
    match it
    case Empty => {}
    case Index(items, pos, _) => set i | pos <= i < |items| :: items[i]
    case SetOp(op, first, second, val, valid) =>
      if valid then {val} + E.ApplyOp(op, Pending(first), Pending(second)) else {}
    case Intersecting(idx, least, more) =>
      if more then {least} + Common(idx) else {}
  }

  ghost function Common(idx: seq<Iter>): set<nat> {
    if idx == [] then {}
    else set x | x in Pending(idx[0]) && forall i :: 0 <= i < |idx| ==> x in Pending(idx[i])
  }

  /** All ids that the iterator gives from its beginning. */
  ghost function All(it: Iter): set<nat> {
    match it
    case Empty => {}
    case Index(items, _, _) => IdsIn(items)
    case SetOp(op, first, second, _, _) => E.ApplyOp(op, All(first), All(second))
    case Intersecting(idx, _, _) => AllCommon(idx)
  }

  ghost function AllCommon(idx: seq<Iter>): set<nat> {
    if idx == [] then {}
    else set x | x in All(idx[0]) && forall i :: 0 <= i < |idx| ==> x in All(idx[i])
  }

  /** Ids among which all that the iterator gives are to be found. */
  ghost function Upper(it: Iter): set<nat> {
    match it
    case Empty => {}
    case Index(items, _, _) => IdsIn(items)
    case SetOp(op, first, second, _, _) =>
      (match op
       case Intersect => Upper(first) * Upper(second)
       case Difference => Upper(first)
       case _ => Upper(first) + Upper(second))
    case Intersecting(idx, _, _) => UpperCommon(idx)
  }

  ghost function UpperCommon(idx: seq<Iter>): set<nat> {
    if idx == [] then {}
    else set x | x in Upper(idx[0]) && forall i :: 0 <= i < |idx| ==> x in Upper(idx[i])
  }

  function Height(it: Iter): nat {
    match it
    case SetOp(_, first, second, _, _) => 1 + Max(Height(first), Height(second))
    case Intersecting(idx, _, _) => 1 + MaxHeight(idx)
    case _ => 0
  }

  function MaxHeight(idx: seq<Iter>): (h: nat)
    ensures forall i :: 0 <= i < |idx| ==> Height(idx[i]) <= h
  {
    if idx == [] then 0 else Max(Height(idx[0]), MaxHeight(idx[1..]))
  }

  function Max(a: nat, b: nat): nat {
    if a < b then b else a
  }

  /** What is left of a set operation lies above its current id. */
  ghost predicate WF(it: Iter) {
    match it
    case Empty => true
    case Index(items, pos, cur) => Ascending(items) && (pos < |items| ==> cur == items[pos])
    case SetOp(op, first, second, val, valid) =>
      && WF(first) && WF(second)
      && var rest := E.ApplyOp(op, Pending(first), Pending(second));
         if valid then val in Upper(it) && forall x :: x in rest ==> val < x else rest == {}
    case Intersecting(idx, least, more) =>
      && idx != [] && (forall i :: 0 <= i < |idx| ==> WF(idx[i]))
      && if more then least in UpperCommon(idx) && forall x :: x in Common(idx) ==> least < x else Common(idx) == {}
  }

  /** Same iterator at perhaps another position. */
  ghost predicate Same(a: Iter, b: Iter) {
    All(a) == All(b) && Upper(a) == Upper(b) && Height(a) == Height(b)
  }

  lemma CurrentIsLeast(it: Iter)
    requires WF(it)
    ensures IsValid(it) <==> Pending(it) != {}
    ensures IsValid(it) ==> Current(it) in Pending(it)
    ensures forall x :: x in Pending(it) ==> Current(it) <= x
  {
    if it.Index? && it.pos < |it.items| {
      assert it.items[it.pos] in Pending(it);
    }
  }

  lemma {:induction false} PendingInUpper(it: Iter)
    requires WF(it)
    ensures Pending(it) <= Upper(it)
    decreases it
  {
    if it.SetOp? {
      PendingInUpper(it.first);
      PendingInUpper(it.second);
    } else if it.Intersecting? {
      forall i | 0 <= i < |it.idx| ensures Pending(it.idx[i]) <= Upper(it.idx[i]) {
        PendingInUpper(it.idx[i]);
      }
    }
  }

  // ---- advancing ----------------------------------------------------------------------------

  /** One step of a set operation from operands f and s to f2 and s2. */
  ghost predicate Stepped(op: Op, f: Iter, s: Iter, f2: Iter, s2: Iter, val: Id, valid: bool) {
    && Same(f, f2) && Same(s, s2) && WF(SetOp(op, f2, s2, val, valid))
    && Pending(SetOp(op, f2, s2, val, valid)) == E.ApplyOp(op, Pending(f), Pending(s))
  }

  /** The ids of both iterators that are not below c. */
  ghost predicate AtLeast(c: Id, f: Iter, s: Iter) {
    (forall x :: x in Pending(f) ==> c <= x) && (forall x :: x in Pending(s) ==> c <= x)
  }

  /** Within a step from `first` and `second`: nothing of the result is passed over. */
  ghost predicate Reached(op: Op, first: Iter, second: Iter, f: Iter, s: Iter, val: Id, valid: bool) {
    && WF(f) && WF(s) && Same(first, f) && Same(second, s)
    && (valid ==> Stepped(op, first, second, f, s, val, valid))
    && (!valid ==> val == 0 && E.ApplyOp(op, Pending(f), Pending(s)) == E.ApplyOp(op, Pending(first), Pending(second)))
  }

  function InResult(op: Op, a: bool, b: bool): bool {
    match op
    case Unite => a || b
    case Difference => a && !b
    case Intersect => a && b
    case SymmetricDifference => a != b
  }

  /** Removing the least id from both operands removes it from the result. */
  lemma LeastRemoved(op: Op, a: set<nat>, b: set<nat>, c: nat)
    requires forall x :: x in a || x in b ==> c <= x
    ensures var all, rest := E.ApplyOp(op, a, b), E.ApplyOp(op, a - {c}, b - {c});
            && (forall x :: x in rest ==> c < x)
            && all == if InResult(op, c in a, c in b) then {c} + rest else rest
  {
  }

  /** The iterators at the least id c have advanced, and c is given out if it is in the result. */
  lemma Advance(op: Op, first: Iter, second: Iter, f0: Iter, s0: Iter, f: Iter, s: Iter, c: Id, val: Id, valid: bool)
    requires Reached(op, first, second, f0, s0, 0, false)
    requires WF(f) && WF(s) && Same(f0, f) && Same(s0, s)
    requires (IsValid(f0) && Current(f0) == c && Pending(f) == Pending(f0) - {c}) || (f == f0 && c !in Pending(f0))
    requires (IsValid(s0) && Current(s0) == c && Pending(s) == Pending(s0) - {c}) || (s == s0 && c !in Pending(s0))
    requires AtLeast(c, f0, s0)
    requires valid <==> InResult(op, c in Pending(f0), c in Pending(s0))
    requires val == if valid then c else 0
    ensures Reached(op, first, second, f, s, val, valid)
  {
    var a, b := Pending(f0), Pending(s0);
    assert Pending(f) == a - {c} && Pending(s) == b - {c};
    LeastRemoved(op, a, b, c);
    PendingInUpper(f0);
    PendingInUpper(s0);
  }

  /** What the currents of two iterators say about their ids. */
  lemma Currents(f: Iter, s: Iter)
    requires WF(f) && WF(s)
    ensures IsValid(f) ==> Current(f) in Pending(f)
    ensures IsValid(s) ==> Current(s) in Pending(s)
    ensures IsValid(f) && IsValid(s) ==>
              var c: Id := if Current(f) < Current(s) then Current(f) else Current(s);
              AtLeast(c, f, s) && (c in Pending(f) <==> c == Current(f)) && (c in Pending(s) <==> c == Current(s))
    ensures IsValid(f) && !IsValid(s) ==> AtLeast(Current(f), f, s)
    ensures IsValid(s) && !IsValid(f) ==> AtLeast(Current(s), f, s)
    ensures !IsValid(f) ==> Pending(f) == {}
    ensures !IsValid(s) ==> Pending(s) == {}
  {
    CurrentIsLeast(f);
    CurrentIsLeast(s);
  }

  method UniteNext(first: Iter, second: Iter) returns (f: Iter, s: Iter, val: Id, valid: bool)
    requires WF(first) && WF(second)
    ensures Stepped(Op.Unite, first, second, f, s, val, valid)
    decreases Max(Height(first), Height(second)), 1
  {
    Currents(first, second);
    f, s, val, valid := first, second, 0, true;
    if !IsValid(first) && !IsValid(second) {
      valid := false;
    } else {
      if IsValid(first) && IsValid(second) {
        if Current(first) < Current(second) {
          val := Current(first);
          f := Next(first);
        } else if Current(first) > Current(second) {
          val := Current(second);
          s := Next(second);
        } else {
          val := Current(first);
          f := Next(first);
          s := Next(second);
        }
      } else if IsValid(first) {
        val := Current(first);
        f := Next(first);
      } else {
        val := Current(second);
        s := Next(second);
      }
      Advance(Op.Unite, first, second, first, second, f, s, val, val, valid);
    }
  }

  method IntersectNext(first: Iter, second: Iter) returns (f: Iter, s: Iter, val: Id, valid: bool)
    requires WF(first) && WF(second)
    ensures Stepped(Op.Intersect, first, second, f, s, val, valid)
    decreases Max(Height(first), Height(second)), 1
  {
    f, s, val, valid := first, second, 0, false;
    while IsValid(f) && IsValid(s) && !valid
      invariant Reached(Op.Intersect, first, second, f, s, val, valid)
      decreases Pending(f) + Pending(s), !valid
    {
      Currents(f, s);
      var f0, s0 := f, s;
      var a, b := Current(f), Current(s);
      if a == b {
        val, valid := a, true;
        f := Next(f);
        s := Next(s);
      } else if a < b {
        f := Next(f);
      } else {
        s := Next(s);
      }
      Advance(Op.Intersect, first, second, f0, s0, f, s, if a < b then a else b, val, valid);
    }
    Currents(f, s);
  }

  method DiffNext(first: Iter, second: Iter) returns (f: Iter, s: Iter, val: Id, valid: bool)
    requires WF(first) && WF(second)
    ensures Stepped(Op.Difference, first, second, f, s, val, valid)
    decreases Max(Height(first), Height(second)), 1
  {
    f, s, val, valid := first, second, 0, false;
    while IsValid(f) && IsValid(s) && !valid
      invariant Reached(Op.Difference, first, second, f, s, val, valid)
      decreases Pending(f) + Pending(s), !valid
    {
      Currents(f, s);
      var f0, s0 := f, s;
      var a, b := Current(f), Current(s);
      if a == b {
        f := Next(f);
        s := Next(s);
      } else if a < b {
        val, valid := a, true;
        f := Next(f);
      } else {
        s := Next(s);
      }
      Advance(Op.Difference, first, second, f0, s0, f, s, if a < b then a else b, val, valid);
    }
    Currents(f, s);
    if !valid && IsValid(f) {
      var f0 := f;
      val, valid := Current(f), true;
      f := Next(f);
      Advance(Op.Difference, first, second, f0, s, f, s, val, val, valid);
    }
  }

  method XorNext(first: Iter, second: Iter) returns (f: Iter, s: Iter, val: Id, valid: bool)
    requires WF(first) && WF(second)
    ensures Stepped(Op.SymmetricDifference, first, second, f, s, val, valid)
    decreases Max(Height(first), Height(second)), 2
  {
    f, s, val, valid := XorCommon(first, second);
    Currents(f, s);
    if !valid && (IsValid(f) || IsValid(s)) {
      var f0, s0 := f, s;
      if IsValid(f) {
        val, valid := Current(f), true;
        f := Next(f);
      } else {
        val, valid := Current(s), true;
        s := Next(s);
      }
      Advance(Op.SymmetricDifference, first, second, f0, s0, f, s, val, val, valid);
    }
  }

  /** As long as both iterators go on. */
  method XorCommon(first: Iter, second: Iter) returns (f: Iter, s: Iter, val: Id, valid: bool)
    requires WF(first) && WF(second)
    ensures Reached(Op.SymmetricDifference, first, second, f, s, val, valid)
    ensures valid || !IsValid(f) || !IsValid(s)
    decreases Max(Height(first), Height(second)), 1
  {
    f, s, val, valid := first, second, 0, false;
    while IsValid(f) && IsValid(s) && !valid
      invariant Reached(Op.SymmetricDifference, first, second, f, s, val, valid)
      decreases Pending(f) + Pending(s), !valid
    {
      Currents(f, s);
      var f0, s0 := f, s;
      var a, b := Current(f), Current(s);
      if a == b {
        f := Next(f);
        s := Next(s);
      } else if a < b {
        val, valid := a, true;
        f := Next(f);
      } else {
        val, valid := b, true;
        s := Next(s);
      }
      Advance(Op.SymmetricDifference, first, second, f0, s0, f, s, if a < b then a else b, val, valid);
    }
  }

  method SetOpNext(op: Op, first: Iter, second: Iter) returns (f: Iter, s: Iter, val: Id, valid: bool)
    requires WF(first) && WF(second)
    ensures Stepped(op, first, second, f, s, val, valid)
    decreases Max(Height(first), Height(second)), 3
  {
    match op
    case Unite => f, s, val, valid := UniteNext(first, second);
    case Intersect => f, s, val, valid := IntersectNext(first, second);
    case Difference => f, s, val, valid := DiffNext(first, second);
    case SymmetricDifference => f, s, val, valid := XorNext(first, second);
  }

  /** The least current id, if all iterators are valid. */
  method Smallest(idx: seq<Iter>) returns (smallest: Id, allValid: bool)
    requires forall i :: 0 <= i < |idx| ==> WF(idx[i])
    ensures allValid <==> forall i :: 0 <= i < |idx| ==> IsValid(idx[i])
    ensures forall i :: 0 <= i < |idx| ==> smallest <= Current(idx[i])
    ensures idx != [] ==> exists i :: 0 <= i < |idx| && smallest == Current(idx[i])
  {
    smallest, allValid := 0xFFFF_FFFF, true;
    for i := 0 to |idx|
      invariant allValid <==> forall k :: 0 <= k < i ==> IsValid(idx[k])
      invariant forall k :: 0 <= k < i ==> smallest <= Current(idx[k])
      invariant if i == 0 then smallest == 0xFFFF_FFFF else exists k :: 0 <= k < i && smallest == Current(idx[k])
    {
      allValid := allValid && IsValid(idx[i]);
      if Current(idx[i]) <= smallest {
        smallest := Current(idx[i]);
      }
    }
  }

  /** Iterators idx2 after those of idx that stood at `smallest` have advanced. */
  ghost predicate Moved(idx: seq<Iter>, idx2: seq<Iter>, smallest: Id) {
    |idx2| == |idx| && forall i :: 0 <= i < |idx| ==> MovedOne(idx[i], idx2[i], smallest)
  }

  ghost predicate MovedOne(it: Iter, it2: Iter, smallest: Id) {
    WF(it2) && Same(it, it2) && Pending(it2) == Pending(it) - {smallest}
  }

  lemma {:induction false} SameHeights(idx: seq<Iter>, idx2: seq<Iter>)
    requires |idx| == |idx2| && forall i :: 0 <= i < |idx| ==> Same(idx[i], idx2[i])
    ensures MaxHeight(idx) == MaxHeight(idx2)
  {
    if idx != [] {
      assert Same(idx[0], idx2[0]);
      SameHeights(idx[1..], idx2[1..]);
    }
  }

  lemma MovedCommon(idx: seq<Iter>, idx2: seq<Iter>, smallest: Id)
    requires Moved(idx, idx2, smallest)
    ensures Common(idx2) == Common(idx) - {smallest}
    ensures AllCommon(idx2) == AllCommon(idx) && UpperCommon(idx2) == UpperCommon(idx) && MaxHeight(idx2) == MaxHeight(idx)
  {
    assert forall i :: 0 <= i < |idx| ==> MovedOne(idx[i], idx2[i], smallest);
    SameHeights(idx, idx2);
    if idx != [] {
      forall x | x in Common(idx) && x != smallest ensures x in Common(idx2) {
        assert x in Pending(idx[0]);
      }
      forall x ensures x in AllCommon(idx2) <==> x in AllCommon(idx) {
        assert All(idx[0]) == All(idx2[0]);
      }
      forall x ensures x in UpperCommon(idx2) <==> x in UpperCommon(idx) {
        assert Upper(idx[0]) == Upper(idx2[0]);
      }
    }
  }

  method MoveSmallest(idx: seq<Iter>, smallest: Id) returns (idx2: seq<Iter>, moveCount: nat, allValid: bool)
    requires forall i :: 0 <= i < |idx| ==> WF(idx[i]) && IsValid(idx[i]) && smallest <= Current(idx[i])
    ensures Moved(idx, idx2, smallest)
    ensures moveCount == |idx| <==> forall i :: 0 <= i < |idx| ==> smallest in Pending(idx[i])
    ensures !allValid ==> exists i :: 0 <= i < |idx| && Pending(idx2[i]) == {}
    decreases MaxHeight(idx), 1
  {
    idx2, moveCount, allValid := idx, 0, true;
    for i := 0 to |idx|
      invariant |idx2| == |idx| && forall k :: 0 <= k < i ==> MovedOne(idx[k], idx2[k], smallest)
      invariant forall k :: i <= k < |idx| ==> idx2[k] == idx[k]
      invariant moveCount <= i && (moveCount == i <==> forall k :: 0 <= k < i ==> smallest in Pending(idx[k]))
      invariant !allValid ==> exists k :: 0 <= k < i && Pending(idx2[k]) == {}
    {
      CurrentIsLeast(idx[i]);
      if Current(idx[i]) == smallest {
        var moved := Next(idx[i]);
        CurrentIsLeast(moved);
        idx2 := idx2[i := moved];
        allValid := allValid && IsValid(moved);
        moveCount := moveCount + 1;
      }
      assert MovedOne(idx[i], idx2[i], smallest);
    }
  }

  ghost predicate AllFrom(lo: nat, idx: seq<Iter>) {
    forall i, x :: 0 <= i < |idx| && x in Pending(idx[i]) ==> lo <= x
  }

  /** Same iterators at perhaps other positions. */
  ghost predicate SameAll(idx: seq<Iter>, idx2: seq<Iter>) {
    && |idx2| == |idx| && MaxHeight(idx2) == MaxHeight(idx)
    && AllCommon(idx2) == AllCommon(idx) && UpperCommon(idx2) == UpperCommon(idx)
    && forall i :: 0 <= i < |idx2| ==> WF(idx2[i])
  }

  /** One round: all iterators that stand at the least id advance. */
  method Round(idx: seq<Iter>, ghost lo: nat) returns (idx2: seq<Iter>, val: Id, valid: bool, done: bool, ghost lo2: nat)
    requires idx != [] && (forall i :: 0 <= i < |idx| ==> WF(idx[i])) && AllFrom(lo, idx) && lo <= 0x1_0000_0000
    ensures SameAll(idx, idx2) && AllFrom(lo2, idx2) && lo2 <= 0x1_0000_0000
    ensures valid ==> done && Common(idx) == {val} + Common(idx2) && forall x :: x in Common(idx2) ==> val < x
    ensures valid ==> val in UpperCommon(idx2)
    ensures !valid ==> Common(idx2) == Common(idx) && (done ==> Common(idx) == {})
    ensures lo <= lo2 && (!done ==> lo < lo2)
    decreases MaxHeight(idx), 2
  {
    var smallest, allValid := Smallest(idx);
    idx2, val, valid, done, lo2 := idx, 0, false, !allValid, lo;
    if !allValid {
      NoneCommon(idx);
    } else {
      AllLeast(idx, smallest);
      var moveCount;
      idx2, moveCount, allValid := MoveSmallest(idx, smallest);
      Above(idx, idx2, smallest);
      CommonInUpper(idx);
      lo2 := 1 + (smallest as int);
      if moveCount == |idx| {
        val, valid, done := smallest, true, true;
      } else if !allValid {
        NoneCommon(idx2);
        done := true;
      }
    }
  }

  lemma Above(idx: seq<Iter>, idx2: seq<Iter>, smallest: Id)
    requires idx != [] && Moved(idx, idx2, smallest)
    requires forall i, x :: 0 <= i < |idx| && x in Pending(idx[i]) ==> smallest <= x
    ensures SameAll(idx, idx2) && AllFrom(smallest as int + 1, idx2)
    ensures (forall i :: 0 <= i < |idx| ==> smallest in Pending(idx[i])) ==> Common(idx) == {smallest} + Common(idx2)
    ensures !(forall i :: 0 <= i < |idx| ==> smallest in Pending(idx[i])) ==> Common(idx) == Common(idx2)
    ensures forall x :: x in Common(idx2) ==> smallest < x
  {
    MovedCommon(idx, idx2, smallest);
    CommonLeast(idx, smallest);
    assert forall i :: 0 <= i < |idx| ==> MovedOne(idx[i], idx2[i], smallest);
  }

  lemma CommonInUpper(idx: seq<Iter>)
    requires forall i :: 0 <= i < |idx| ==> WF(idx[i])
    ensures Common(idx) <= UpperCommon(idx)
  {
    forall i | 0 <= i < |idx| ensures Pending(idx[i]) <= Upper(idx[i]) {
      PendingInUpper(idx[i]);
    }
  }

  /** Advances n iterators to the next id that all of them have. */
  method MoveToNext(idx: seq<Iter>) returns (idx2: seq<Iter>, val: Id, valid: bool)
    requires idx != [] && forall i :: 0 <= i < |idx| ==> WF(idx[i])
    ensures WF(Intersecting(idx2, val, valid)) && SameAll(idx, idx2)
    ensures Pending(Intersecting(idx2, val, valid)) == Common(idx)
    decreases MaxHeight(idx), 3
  {
    idx2, val, valid := idx, 0, false;
    var done := false;
    ghost var lo: nat := 0;
    while !done
      invariant SameAll(idx, idx2) && AllFrom(lo, idx2) && lo <= 0x1_0000_0000
      invariant valid ==> done && Common(idx) == {val} + Common(idx2) && forall x :: x in Common(idx2) ==> val < x
      invariant valid ==> val in UpperCommon(idx2)
      invariant !valid ==> Common(idx2) == Common(idx) && (done ==> Common(idx) == {})
      decreases 0x1_0000_0000 - lo, !done
    {
      idx2, val, valid, done, lo := Round(idx2, lo);
    }
  }

  lemma NoneCommon(idx: seq<Iter>)
    requires forall i :: 0 <= i < |idx| ==> WF(idx[i])
    requires exists i :: 0 <= i < |idx| && (!IsValid(idx[i]) || Pending(idx[i]) == {})
    ensures Common(idx) == {}
  {
    var i :| 0 <= i < |idx| && (!IsValid(idx[i]) || Pending(idx[i]) == {});
    CurrentIsLeast(idx[i]);
  }

  lemma AllLeast(idx: seq<Iter>, smallest: Id)
    requires forall i :: 0 <= i < |idx| ==> WF(idx[i]) && IsValid(idx[i]) && smallest <= Current(idx[i])
    requires exists i :: 0 <= i < |idx| && smallest == Current(idx[i])
    ensures forall i, x :: 0 <= i < |idx| && x in Pending(idx[i]) ==> smallest <= x
    ensures exists i :: 0 <= i < |idx| && smallest in Pending(idx[i])
  {
    forall i | 0 <= i < |idx|
      ensures Current(idx[i]) in Pending(idx[i]) && forall x :: x in Pending(idx[i]) ==> smallest <= x
    {
      CurrentIsLeast(idx[i]);
    }
  }

  lemma CommonLeast(idx: seq<Iter>, smallest: Id)
    requires idx != [] && forall i, x :: 0 <= i < |idx| && x in Pending(idx[i]) ==> smallest <= x
    ensures forall x :: x in Common(idx) ==> smallest <= x
    ensures smallest in Common(idx) <==> forall i :: 0 <= i < |idx| ==> smallest in Pending(idx[i])
  {
    forall x | x in Common(idx) ensures smallest <= x {
      assert x in Pending(idx[0]);
    }
  }

  /** Advances an iterator by one id; at its end it stays there. */
  method Next(it: Iter) returns (it2: Iter)
    requires WF(it)
    ensures WF(it2) && Same(it, it2) && Pending(it2) == Pending(it) - {Current(it)}
    decreases Height(it), 0
  {
    CurrentIsLeast(it);
    match it
    case Empty => it2 := it;
    case Index(items, pos, _) =>
      if pos + 1 < |items| {
        it2 := Index(items, pos + 1, items[pos + 1]);
      } else {
        it2 := Index(items, |items|, 0);
      }
      assert pos < |items| ==> Pending(it) == {items[pos]} + Pending(it2);
    case SetOp(op, first, second, val, valid) =>
      var f, s, v, ok := SetOpNext(op, first, second);
      it2 := SetOp(op, f, s, v, ok);
    case Intersecting(idx, least, more) =>
      if more {
        var idx2, v, ok := MoveToNext(idx);
        it2 := Intersecting(idx2, v, ok);
      } else {
        it2 := it;
      }
  }

  // ---- making and reading iterators ---------------------------------------------------------

  method FromIndex(items: seq<Id>) returns (it: Iter)
    requires Ascending(items)
    ensures WF(it) && Pending(it) == All(it) == IdsIn(items)
  {
    it := if |items| > 0 then Index(items, 0, items[0]) else Index(items, 1, 0);
  }

  method Combine(op: Op, first: Iter, second: Iter) returns (it: Iter)
    requires WF(first) && WF(second)
    ensures WF(it) && Pending(it) == E.ApplyOp(op, Pending(first), Pending(second))
    ensures All(it) == E.ApplyOp(op, All(first), All(second))
  {
    var f, s, val, valid := SetOpNext(op, first, second);
    it := SetOp(op, f, s, val, valid);
  }

  /** For at least one iterator; for none the source has an iterator that never ends. */
  method IntersectAll(idx: seq<Iter>) returns (it: Iter)
    requires idx != [] && forall i :: 0 <= i < |idx| ==> WF(idx[i])
    ensures WF(it) && Pending(it) == Common(idx) && All(it) == AllCommon(idx)
  {
    var idx2, val, valid := MoveToNext(idx);
    it := Intersecting(idx2, val, valid);
  }

  /** Back to the beginning. */
  method Reset(it: Iter) returns (it2: Iter)
    requires WF(it)
    ensures WF(it2) && All(it2) == All(it) && Pending(it2) == All(it)
    decreases it
  {
    match it
    case Empty => it2 := it;
    case Index(items, _, _) => it2 := Index(items, 0, if |items| > 0 then items[0] else 0);
    case SetOp(op, first, second, _, _) =>
      var f := Reset(first);
      var s := Reset(second);
      it2 := Combine(op, f, s);
    case Intersecting(idx, _, _) =>
      var again := idx;
      for i := 0 to |idx|
        invariant |again| == |idx|
        invariant forall k :: 0 <= k < i ==> WF(again[k]) && All(again[k]) == All(idx[k]) == Pending(again[k])
        invariant forall k :: i <= k < |idx| ==> again[k] == idx[k]
      {
        var a := Reset(idx[i]);
        again := again[i := a];
      }
      assert Common(again) == AllCommon(idx) && AllCommon(again) == AllCommon(idx) by {
        assert forall x :: x in Common(again) <==> x in AllCommon(idx);
      }
      it2 := IntersectAll(again);
  }

  /** An upper bound on the number of ids. */
  function MaxSize(it: Iter): nat {
    match it
    case Empty => 0
    case Index(items, _, _) => |items|
    case SetOp(op, first, second, _, _) =>
      (match op
       case Intersect => if MaxSize(first) < MaxSize(second) then MaxSize(first) else MaxSize(second)
       case Difference => MaxSize(first)
       case _ => MaxSize(first) + MaxSize(second))
    case Intersecting(idx, _, _) => MinMaxSize(idx)
  }

  function MinMaxSize(idx: seq<Iter>): nat {
    if idx == [] then 0
    else if |idx| == 1 then MaxSize(idx[0])
    else
      var rest := MinMaxSize(idx[1..]);
      if MaxSize(idx[0]) < rest then MaxSize(idx[0]) else rest
  }

  lemma AppendId(items: seq<nat>, x: nat)
    ensures IdsIn(items + [x]) == IdsIn(items) + {x}
    ensures Ascending(items) && (forall y :: y in IdsIn(items) ==> y < x) ==> Ascending(items + [x])
    ensures Ascending(items + [x]) ==> Ascending(items) && x !in IdsIn(items)
  {
    if Ascending(items) && forall y :: y in IdsIn(items) ==> y < x {
      forall i, j | 0 <= i < j < |items| + 1 ensures (items + [x])[i] < (items + [x])[j] {
        assert items[i] in IdsIn(items);
      }
    }
    if Ascending(items + [x]) {
      var n := |items|;
      assert forall i :: 0 <= i < n ==> items[i] == (items + [x])[i] < (items + [x])[n];
    }
  }

  lemma SmallerSet(a: set<nat>, b: set<nat>)
    requires a <= b
    ensures |a| <= |b|
  {
    assert b == a + (b - a);
  }

  lemma {:induction false} IndexSize(items: seq<nat>)
    ensures |IdsIn(items)| <= |items|
  {
    if items != [] {
      var front := items[..|items| - 1];
      AppendId(front, items[|items| - 1]);
      assert items == front + [items[|items| - 1]];
      IndexSize(front);
      var a, b := IdsIn(items), IdsIn(front);
      SmallerSet(a, b + {items[|items| - 1]});
    }
  }

  lemma UpperWithin(idx: seq<Iter>, i: nat)
    requires i < |idx|
    ensures UpperCommon(idx) <= Upper(idx[i])
  {
  }

  lemma {:induction false} UpperFits(it: Iter)
    ensures |Upper(it)| <= MaxSize(it)
    decreases it
  {
    match it
    case Empty =>
    case Index(items, _, _) => IndexSize(items);
    case SetOp(op, first, second, _, _) =>
      UpperFits(first);
      UpperFits(second);
      if op.Intersect? {
        SmallerSet(Upper(it), Upper(first));
        SmallerSet(Upper(it), Upper(second));
      }
    case Intersecting(idx, _, _) =>
      forall i | 0 <= i < |idx| ensures |Upper(it)| <= MaxSize(idx[i]) {
        UpperFits(idx[i]);
        UpperWithin(idx, i);
        SmallerSet(Upper(it), Upper(idx[i]));
      }
      assert Upper(it) == UpperCommon(idx) && UpperCommon([]) == {};
      MinIsOne(idx, |Upper(it)|);
  }

  /** No smaller size would do: there are operands of any sizes for which the operation has that many ids. */
  lemma BoundIsTight(op: Op, m: nat, n: nat) returns (first: Iter, second: Iter)
    requires m + n <= 0x1_0000_0000
    ensures HasSize(first, m) && HasSize(second, n)
    ensures |All(SetOp(op, first, second, 0, false))| == MaxSize(SetOp(op, first, second, 0, false))
    ensures op.Intersect? ==> |All(Intersecting([first, second], 0, false))| == MaxSize(Intersecting([first, second], 0, false))
  {
    first, second := Counting(0, m), Counting(if op.Intersect? then 0 else m, n);
    CountingIds(0, m);
    CountingIds(if op.Intersect? then 0 else m, n);
    if op.Intersect? {
      TightCommon(first, second, m, n);
    } else {
      TightApart(op, first, second, m, n);
    }
  }

  lemma TightCommon(first: Iter, second: Iter, m: nat, n: nat)
    requires HasSize(first, m) && HasSize(second, n)
    requires (forall x: nat :: x in All(first) <==> x < m) && (forall x: nat :: x in All(second) <==> x < n)
    ensures |All(SetOp(Op.Intersect, first, second, 0, false))| == MaxSize(SetOp(Op.Intersect, first, second, 0, false))
    ensures |All(Intersecting([first, second], 0, false))| == MaxSize(Intersecting([first, second], 0, false))
  {
    Overlapping(All(first), All(second), m, n);
    TwoIterators(first, second);
  }

  lemma TightApart(op: Op, first: Iter, second: Iter, m: nat, n: nat)
    requires HasSize(first, m) && HasSize(second, n) && !op.Intersect? && All(first) !! All(second)
    ensures |All(SetOp(op, first, second, 0, false))| == MaxSize(SetOp(op, first, second, 0, false))
  {
    Disjoint(All(first), All(second));
    var a, b := All(first), All(second);
    assert All(SetOp(op, first, second, 0, false)) == if op.Difference? then a else a + b;
  }

  /** An iterator over n ids. */
  ghost predicate HasSize(it: Iter, n: nat) {
    WF(it) && |All(it)| == n == MaxSize(it)
  }

  ghost function UpFrom(from: nat, n: nat): seq<Id>
    requires from + n <= 0x1_0000_0000
  {
    seq(n, i requires 0 <= i < n => (from + i) as Id)
  }

  ghost function Counting(from: nat, n: nat): Iter
    requires from + n <= 0x1_0000_0000
  {
    Index(UpFrom(from, n), n, 0)
  }

  lemma CountingIds(from: nat, n: nat)
    requires from + n <= 0x1_0000_0000
    ensures HasSize(Counting(from, n), n)
    ensures forall x: nat :: x in All(Counting(from, n)) <==> from <= x < from + n
  {
    var s := UpFrom(from, n);
    forall x: nat | from <= x < from + n ensures x in s {
      assert s[x - from] == x;
    }
    DistinctCount(s);
  }

  lemma Overlapping(a: set<nat>, b: set<nat>, m: nat, n: nat)
    requires (forall x: nat :: x in a <==> x < m) && (forall x: nat :: x in b <==> x < n) && |a| == m && |b| == n
    ensures |a * b| == if m < n then m else n
  {
    assert a * b == if m < n then a else b;
  }

  lemma Disjoint(a: set<nat>, b: set<nat>)
    requires a !! b
    ensures |a + b| == |a| + |b| && a - b == a && (a - b) + (b - a) == a + b
  {
  }

  lemma TwoIterators(first: Iter, second: Iter)
    ensures AllCommon([first, second]) == All(first) * All(second)
    ensures MinMaxSize([first, second]) == if MaxSize(first) < MaxSize(second) then MaxSize(first) else MaxSize(second)
  {
    var idx := [first, second];
    assert idx[1..] == [second];
    assert forall x :: x in AllCommon(idx) <==> x in All(idx[0]) && x in All(idx[1]);
  }

  lemma {:induction false} MinIsOne(idx: seq<Iter>, n: nat)
    requires forall i :: 0 <= i < |idx| ==> n <= MaxSize(idx[i])
    requires idx == [] ==> n == 0
    ensures n <= MinMaxSize(idx)
  {
    if |idx| > 1 {
      MinIsOne(idx[1..], n);
    }
  }

  /** The ids of `all` below those of `rest`, in order. */
  ghost predicate Listed(items: seq<nat>, rest: set<nat>, all: set<nat>) {
    Ascending(items) && (forall y, x :: y in IdsIn(items) && x in rest ==> y < x) && IdsIn(items) + rest == all
  }

  lemma ListNext(items: seq<nat>, rest: set<nat>, all: set<nat>, m: nat)
    requires Listed(items, rest, all) && m in rest && forall x :: x in rest ==> m <= x
    ensures Listed(items + [m], rest - {m}, all)
  {
    AppendId(items, m);
  }

  /** Reads an iterator to its end: the ids ascend, and the announced size is enough for them. */
  method ToItemIndex(it: Iter) returns (items: seq<Id>)
    requires WF(it)
    ensures Ascending(items) && IdsIn(items) == Pending(it)
    ensures |items| <= MaxSize(it)
  {
    items := [];
    var temp := it;
    while IsValid(temp)
      invariant WF(temp) && Listed(items, Pending(temp), Pending(it))
      decreases Pending(temp)
    {
      CurrentIsLeast(temp);
      ListNext(items, Pending(temp), Pending(it), Current(temp));
      items := items + [Current(temp)];
      temp := Next(temp);
    }
    CurrentIsLeast(temp);
    PendingFits(it);
    DistinctCount(items);
  }

  lemma PendingFits(it: Iter)
    requires WF(it)
    ensures |Pending(it)| <= MaxSize(it)
  {
    PendingInUpper(it);
    UpperFits(it);
    SmallerSet(Pending(it), Upper(it));
  }

  lemma {:induction false} DistinctCount(items: seq<nat>)
    requires Ascending(items)
    ensures |IdsIn(items)| == |items|
  {
    if items != [] {
      var front, last := items[..|items| - 1], items[|items| - 1];
      assert items == front + [last];
      AppendId(front, last);
      DistinctCount(front);
      OneLarger(IdsIn(front), last);
    }
  }

  lemma OneLarger(s: set<nat>, x: nat)
    requires x !in s
    ensures |s + {x}| == |s| + 1
  {
  }

  // ---- iterators for operator trees ---------------------------------------------------------

  /** What a completer gives piece by piece. */
  ghost predicate PartialOf(partial: E.Lookup -> seq<Id>, complete: E.Completer) {
    forall look :: Ascending(partial(look)) && IdsIn(partial(look)) == complete(look)
  }

  lemma {:induction false} ValueIsIds(n: E.Node, partial: E.Lookup -> seq<Id>, complete: E.Completer)
    requires PartialOf(partial, complete)
    ensures forall x :: x in E.Value(n, complete) ==> x <= 0xFFFF_FFFF
  {
    if n.Operation? {
      ValueIsIds(n.left, partial, complete);
      ValueIsIds(n.right, partial, complete);
    } else if n.Complete? {
      assert IdsIn(partial(n.look)) == complete(n.look);
    }
  }

  lemma {:induction false} LeastExists(s: set<nat>)
    requires s != {}
    ensures exists m :: IsLeast(s, m)
  {
    var y :| y in s;
    if s == {y} {
      assert IsLeast(s, y);
    } else {
      LeastExists(s - {y});
      var m :| IsLeast(s - {y}, m);
      LeastOfBoth(s, y, m);
    }
  }

  predicate IsLeast(s: set<nat>, m: nat) {
    m in s && forall x :: x in s ==> m <= x
  }

  lemma LeastOfBoth(s: set<nat>, y: nat, m: nat)
    requires y in s && IsLeast(s - {y}, m)
    ensures IsLeast(s, if m < y then m else y)
  {
    forall x | x in s ensures (if m < y then m else y) <= x {
      assert x == y || x in s - {y};
    }
  }

  method Least(s: set<nat>) returns (m: nat)
    requires s != {}
    ensures m in s && forall x :: x in s ==> m <= x
  {
    LeastExists(s);
    m :| m in s && IsLeast(s, m);
  }

  /** The ids of an index in order. */
  method InOrder(ids: set<nat>) returns (items: seq<Id>)
    requires forall x :: x in ids ==> x <= 0xFFFF_FFFF
    ensures Ascending(items) && IdsIn(items) == ids
  {
    var rest := ids;
    items := [];
    while rest != {}
      invariant rest <= ids && Listed(items, rest, ids)
      decreases rest
    {
      var m := Least(rest);
      ListNext(items, rest, ids, m);
      items := items + [m];
      rest := rest - {m};
    }
  }

  /** The iterator of a node: its value if it is kept, and otherwise one made of those of its operands. */
  method CreateItemIndexIteratorTree(n: E.Node, partial: E.Lookup -> seq<Id>, ghost complete: E.Completer) returns (it: Iter)
    requires PartialOf(partial, complete) && E.RightWhereKept(n, complete)
    ensures WF(it) && Pending(it) == E.Value(n, complete)
  {
    if n.Invalid? {
      it := Empty;
    } else if n.index.Some? {
      ValueIsIds(n, partial, complete);
      var items := InOrder(n.index.value);
      it := FromIndex(items);
    } else if n.Complete? {
      it := FromIndex(partial(n.look));
    } else {
      var first := CreateItemIndexIteratorTree(n.left, partial, complete);
      var second := CreateItemIndexIteratorTree(n.right, partial, complete);
      it := Combine(n.op, first, second);
    }
  }

  /** Iterating over a tree gives what evaluating it gives. */
  method IterateAndEvaluate(tree: E.SetOpTree, partial: E.Lookup -> seq<Id>) returns (listed: seq<Id>, index: E.Items)
    requires tree.Valid() && PartialOf(partial, tree.complete)
    requires tree.rootNode.Some? ==> E.RightWhereKept(tree.rootNode.value, tree.complete)
                                     && E.LeavesRight(tree.rootNode.value, tree.completions, tree.complete)
    modifies tree`rootNode
    ensures Ascending(listed) && IdsIn(listed) == index
  {
    var it := Empty;
    ghost var root := tree.rootNode;
    if tree.rootNode.Some? {
      it := CreateItemIndexIteratorTree(tree.rootNode.value, partial, tree.complete);
    }
    listed := ToItemIndex(it);
    index := tree.DoSetOperations();
    if root.Some? {
      E.SameTreeSameValue(root.value, tree.rootNode.value, tree.complete);
    }
  }
}
