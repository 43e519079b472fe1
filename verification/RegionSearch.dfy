/** Cells that a rectangle meets, found by a search through the regions of a hierarchy. */
module RegionSearch {
  import opened Iterators

  datatype Rect = Rect(minLat: real, maxLat: real, minLon: real, maxLon: real)

  predicate Overlap(a: Rect, b: Rect) {
    !(a.minLat > b.maxLat || a.maxLat < b.minLat || a.minLon > b.maxLon || a.maxLon < b.minLon)
  }

  predicate ContainsPoint(a: Rect, lat: real, lon: real) {
    a.minLat <= lat <= a.maxLat && a.minLon <= lon <= a.maxLon
  }

  predicate Contains(a: Rect, b: Rect) {
    ContainsPoint(a, b.minLat, b.minLon) && ContainsPoint(a, b.maxLat, b.maxLon)
  }

  /** The point (lat, lon) lies in the rectangle or on its border. */
  ghost predicate HasPoint(r: Rect, lat: real, lon: real) {
    r.minLat <= lat && lat <= r.maxLat && r.minLon <= lon && lon <= r.maxLon
  }

  predicate Proper(r: Rect) {
    r.minLat <= r.maxLat && r.minLon <= r.maxLon
  }

  lemma OverlapIff(a: Rect, b: Rect)
    requires Proper(a) && Proper(b)
    ensures Overlap(a, b) <==> exists lat, lon :: HasPoint(a, lat, lon) && HasPoint(b, lat, lon)
  {
    var lat := if a.minLat < b.minLat then b.minLat else a.minLat;
    var lon := if a.minLon < b.minLon then b.minLon else a.minLon;
    assert Overlap(a, b) ==> HasPoint(a, lat, lon) && HasPoint(b, lat, lon);
  }

  lemma ContainsIff(a: Rect, b: Rect)
    requires Proper(b)
    ensures Contains(a, b) <==> forall lat, lon :: HasPoint(b, lat, lon) ==> HasPoint(a, lat, lon)
  {
    assert HasPoint(b, b.minLat, b.minLon) && HasPoint(b, b.maxLat, b.maxLon);
  }

  /** A rectangle that contains a region overlaps what the region contains, and one that overlaps
      a part of a region overlaps the region. */
  lemma RectanglesNest(rect: Rect, region: Rect, cell: Rect)
    requires Contains(region, cell)
    ensures Contains(rect, region) ==> Overlap(rect, cell)
    ensures Overlap(rect, cell) ==> Overlap(rect, region)
  {
  }

  datatype Cell = Cell(boundary: Rect, parents: seq<nat>)
  datatype Region = Region(boundary: Rect, cells: seq<nat>, children: seq<nat>)

  /** The root region has the regions without parents as children. */
  datatype Hierarchy = Hierarchy(regions: seq<Region>, cells: seq<Cell>, rootChildren: seq<nat>)

  predicate HasCell(h: Hierarchy, i: nat, c: nat) {
    i < |h.regions| && c < |h.cells| && c in h.regions[i].cells
  }

  ghost predicate IsChild(h: Hierarchy, i: nat, k: nat) {
    i < |h.regions| && k < |h.regions| && k in h.regions[i].children
  }

  /** What is checked of a hierarchy when it is made. */
  ghost predicate Consistent(h: Hierarchy) {
    && (forall i, c :: 0 <= i < |h.regions| && c in h.regions[i].cells ==> c < |h.cells|)
    && (forall i, k :: 0 <= i < |h.regions| && k in h.regions[i].children ==> k < i)
    && (forall k :: k in h.rootChildren ==> k < |h.regions|)
    && (forall c :: 0 <= c < |h.cells| ==> Ascending(h.cells[c].parents))
    && (forall c, i: nat :: 0 <= c < |h.cells| ==> (i in h.cells[c].parents <==> HasCell(h, i, c)))
    && (forall i: nat, c: nat :: HasCell(h, i, c) ==> Contains(h.regions[i].boundary, h.cells[c].boundary))
    && (forall i: nat, k: nat, c: nat :: IsChild(h, i, k) && HasCell(h, k, c) ==> HasCell(h, i, c))
    && (forall k: nat :: k < |h.regions| && k !in h.rootChildren ==> exists i: nat :: IsChild(h, i, k))
  }

  /** The cells of a region that are searched there and not below it: all of them if it has no
      children, and otherwise those of which it is the first parent. */
  predicate IsExclusive(h: Hierarchy, i: nat, c: nat) {
    HasCell(h, i, c) && (h.regions[i].children == [] || (h.cells[c].parents != [] && h.cells[c].parents[0] == i))
  }

  method ExclusiveCells(h: Hierarchy, i: nat) returns (exclusive: seq<nat>)
    requires Consistent(h) && i < |h.regions|
    ensures forall c: nat :: c in exclusive <==> IsExclusive(h, i, c)
  {
    var r := h.regions[i];
    if r.children != [] {
      exclusive := [];
      for j := 0 to |r.cells|
        invariant forall c: nat :: c in exclusive <==> c in r.cells[..j] && IsExclusive(h, i, c)
      {
        var c := r.cells[j];
        assert c in r.cells && HasCell(h, i, c);
        assert i in h.cells[c].parents;
        if h.cells[c].parents[0] == i {
          exclusive := exclusive + [c];
        }
      }
      assert r.cells[..|r.cells|] == r.cells;
    } else {
      exclusive := r.cells;
    }
  }

  /** The cells in some region that the rectangle overlaps. */
  ghost predicate Wanted(h: Hierarchy, rect: Rect, c: nat) {
    c < |h.cells| && Overlap(rect, h.cells[c].boundary) && exists i: nat :: HasCell(h, i, c)
  }

  /** Region i is done: everything wanted in it is found or lies in a child that is visited, or is
      exclusive to another region. */
  ghost predicate Searched(h: Hierarchy, rect: Rect, visited: set<nat>, found: seq<nat>, i: nat)
    requires i < |h.regions|
  {
    if Contains(rect, h.regions[i].boundary) then forall c: nat :: HasCell(h, i, c) ==> c in found
    else
      && (forall k: nat :: IsChild(h, i, k) && Overlap(rect, h.regions[k].boundary) ==> k in visited)
      && (forall c: nat :: IsExclusive(h, i, c) && Overlap(rect, h.cells[c].boundary) ==> c in found)
  }

  ghost predicate Searching(h: Hierarchy, rect: Rect, queue: seq<nat>, visited: set<nat>, found: seq<nat>) {
    && (forall i :: i in visited ==> i < |h.regions|)
    && (forall i :: i in queue ==> i in visited)
    && (forall k :: k in h.rootChildren && k < |h.regions| && Overlap(rect, h.regions[k].boundary) ==> k in visited)
    && (forall i :: i in visited && i !in queue ==> Searched(h, rect, visited, found, i))
    && (forall c :: c in found ==> Wanted(h, rect, c))
  }

  /** On the way from the root to a region with a wanted cell every region is visited, unless the cell
      is found on the way. */
  lemma {:induction false} OnTheWay(h: Hierarchy, rect: Rect, visited: set<nat>, found: seq<nat>, i: nat, c: nat)
    requires Consistent(h) && Searching(h, rect, [], visited, found) && HasCell(h, i, c)
    requires Overlap(rect, h.cells[c].boundary)
    ensures i in visited || c in found
    decreases |h.regions| - i
  {
    RectanglesNest(rect, h.regions[i].boundary, h.cells[c].boundary);
    if i !in h.rootChildren {
      var j :| IsChild(h, j, i);
      OnTheWay(h, rect, visited, found, j, c);
    }
  }

  /** When the queue is empty every wanted cell is found. */
  lemma AllFound(h: Hierarchy, rect: Rect, visited: set<nat>, found: seq<nat>, c: nat)
    requires Consistent(h) && Searching(h, rect, [], visited, found) && Wanted(h, rect, c)
    ensures c in found
  {
    var i :| HasCell(h, i, c);
    assert i in h.cells[c].parents;
    var first := h.cells[c].parents[0];
    assert first in h.cells[c].parents;
    assert HasCell(h, first, c);
    OnTheWay(h, rect, visited, found, first, c);
    assert IsExclusive(h, first, c);
  }

  method SortUnique(s: seq<nat>) returns (sorted: seq<nat>)
    ensures Ascending(sorted) && IdsIn(sorted) == IdsIn(s)
  {
    var rest := IdsIn(s);
    sorted := [];
    while rest != {}
      invariant Listed(sorted, rest, IdsIn(s))
      decreases rest
    {
      var m := Least(rest);
      ListNext(sorted, rest, IdsIn(s), m);
      sorted := sorted + [m];
      rest := rest - {m};
    }
  }

  ghost function Overlapped(h: Hierarchy, rect: Rect, ks: seq<nat>): set<nat> {
    set k | k in ks && k < |h.regions| && Overlap(rect, h.regions[k].boundary)
  }

  /** Puts the children that the rectangle overlaps into the queue, if they are new. */
  method Enqueue(h: Hierarchy, rect: Rect, children: seq<nat>, queue: seq<nat>, visited: set<nat>, unlessVisited: bool)
    returns (queue2: seq<nat>, visited2: set<nat>)
    requires forall k :: k in children ==> k < |h.regions|
    ensures visited2 == visited + Overlapped(h, rect, children)
    ensures forall k :: k in queue2 ==> k in queue || k in visited2
    ensures queue <= queue2
    ensures forall k :: k in visited2 && k !in visited ==> k in queue2
    ensures unlessVisited && visited2 == visited ==> queue2 == queue
  {
    queue2, visited2 := queue, visited;
    for i := 0 to |children|
      invariant visited2 == visited + Overlapped(h, rect, children[..i])
      invariant forall k :: k in queue2 ==> k in queue || k in visited2
      invariant queue <= queue2
      invariant forall k :: k in visited2 && k !in visited ==> k in queue2
      invariant unlessVisited && visited2 == visited ==> queue2 == queue
    {
      var childId := children[i];
      assert childId in children && children[..i + 1] == children[..i] + [childId];
      if !(unlessVisited && childId in visited2) && Overlap(rect, h.regions[childId].boundary) {
        queue2 := queue2 + [childId];
        visited2 := visited2 + {childId};
      }
    }
    assert children[..|children|] == children;
  }

  method OverlappedCells(h: Hierarchy, rect: Rect, ids: seq<nat>) returns (found: seq<nat>)
    requires forall c :: c in ids ==> c < |h.cells|
    ensures forall c :: c in found <==> c in ids && Overlap(rect, h.cells[c].boundary)
  {
    found := [];
    for i := 0 to |ids|
      invariant forall c :: c in found <==> c in ids[..i] && c < |h.cells| && Overlap(rect, h.cells[c].boundary)
    {
      assert ids[i] in ids;
      if Overlap(rect, h.cells[ids[i]].boundary) {
        found := found + [ids[i]];
      }
    }
    assert ids[..|ids|] == ids;
  }

  /** Once its region is searched, the front of the queue is done. */
  lemma FrontDone(h: Hierarchy, rect: Rect, queue: seq<nat>, visited: set<nat>, found: seq<nat>,
                  queue2: seq<nat>, visited2: set<nat>, more: seq<nat>)
    requires queue != [] && Searching(h, rect, queue, visited, found) && visited <= visited2
    requires queue[1..] <= queue2 && (forall k :: k in queue2 ==> k in queue[1..] || k in visited2)
    requires forall k :: k in visited2 && k !in visited ==> k in queue2 && k < |h.regions|
    requires forall c :: c in more ==> Wanted(h, rect, c)
    requires queue[0] < |h.regions| && Searched(h, rect, visited2, found + more, queue[0])
    ensures Searching(h, rect, queue2, visited2, found + more)
  {
    assert forall k :: k in queue ==> k == queue[0] || k in queue[1..];
    forall i | i in visited2 && i !in queue2 ensures Searched(h, rect, visited2, found + more, i) {
      if i != queue[0] {
        assert i in visited && i !in queue;
        assert Searched(h, rect, visited, found, i);
      }
    }
  }

  lemma ContainedWanted(h: Hierarchy, rect: Rect, i: nat, c: nat)
    requires Consistent(h) && HasCell(h, i, c) && Contains(rect, h.regions[i].boundary)
    ensures Wanted(h, rect, c)
  {
    RectanglesNest(rect, h.regions[i].boundary, h.cells[c].boundary);
  }

  function Below(n: nat): (r: set<nat>)
    ensures forall i: nat :: i in r <==> i < n
  {
    if n == 0 then {} else Below(n - 1) + {n - 1}
  }

  /** Takes the front of the queue and searches its region. */
  method SearchFront(h: Hierarchy, rect: Rect, queue: seq<nat>, visited: set<nat>, found: seq<nat>)
    returns (queue2: seq<nat>, visited2: set<nat>, found2: seq<nat>)
    requires Consistent(h) && queue != [] && Searching(h, rect, queue, visited, found)
    ensures Searching(h, rect, queue2, visited2, found2)
    ensures visited <= visited2 && (visited2 == visited ==> |queue2| < |queue|)
  {
    var i := queue[0];
    assert i in queue && i in visited;
    var r := h.regions[i];
    queue2, visited2 := queue[1..], visited;
    var more := r.cells;
    if Contains(rect, r.boundary) {
      forall c | c in more ensures Wanted(h, rect, c) {
        ContainedWanted(h, rect, i, c);
      }
    } else {
      queue2, visited2 := Enqueue(h, rect, r.children, queue2, visited, true);
      var exclusive := ExclusiveCells(h, i);
      more := OverlappedCells(h, rect, exclusive);
    }
    found2 := found + more;
    FrontDone(h, rect, queue, visited, found, queue2, visited2, more);
  }

  /** Cell c of some region has a point in common with the rectangle. */
  ghost predicate Meets(h: Hierarchy, rect: Rect, c: nat) {
    && c < |h.cells|
    && (exists i: nat :: i < |h.regions| && c in h.regions[i].cells)
    && exists lat, lon :: HasPoint(rect, lat, lon) && HasPoint(h.cells[c].boundary, lat, lon)
  }

  lemma WantedMeets(h: Hierarchy, rect: Rect, c: nat)
    requires Proper(rect) && (c < |h.cells| ==> Proper(h.cells[c].boundary))
    ensures Wanted(h, rect, c) <==> Meets(h, rect, c)
  {
    if c < |h.cells| {
      OverlapIff(rect, h.cells[c].boundary);
      assert forall i: nat :: HasCell(h, i, c) <==> i < |h.regions| && c in h.regions[i].cells;
    }
  }

  /** The ids of all cells that the rectangle overlaps, in order: of proper cells those that have a point in
      common with a proper rectangle. */
  method IntersectingCells(h: Hierarchy, rect: Rect) returns (cells: seq<nat>)
    requires Consistent(h)
    ensures Ascending(cells) && forall c: nat :: c in cells <==> Wanted(h, rect, c)
    ensures forall c: nat :: Proper(rect) && (c < |h.cells| ==> Proper(h.cells[c].boundary)) ==>
              (c in cells <==> Meets(h, rect, c))
  {
    var queue, visited := Enqueue(h, rect, h.rootChildren, [], {}, false);
    var found: seq<nat> := [];
    while queue != []
      invariant Searching(h, rect, queue, visited, found)
      decreases Below(|h.regions|) - visited, |queue|
    {
      ghost var before := visited;
      queue, visited, found := SearchFront(h, rect, queue, visited, found);
      assert visited != before ==> exists i :: i in visited && i !in before;
    }
    forall c: nat | Wanted(h, rect, c) ensures c in found {
      AllFound(h, rect, visited, found, c);
    }
    cells := SortUnique(found);
    forall c: nat ensures c in cells <==> Wanted(h, rect, c) {
      assert c in cells <==> c in IdsIn(cells);
      assert c in found <==> c in IdsIn(found);
    }
    forall c: nat | Proper(rect) && (c < |h.cells| ==> Proper(h.cells[c].boundary))
      ensures Wanted(h, rect, c) <==> Meets(h, rect, c)
    {
      WantedMeets(h, rect, c);
    }
  }
}
