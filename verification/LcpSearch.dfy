/** Binary search in sorted strings which skips bytes that are known to agree with the query: the
    length of the common prefix is kept for both ends of the interval, and what lies between
    them shares the shorter of the two. */
module LcpSearch {
  import opened Basics

  type Str = seq<byte>

  predicate Less(a: Str, b: Str) {
    b != [] && (a == [] || a[0] < b[0] || (a[0] == b[0] && Less(a[1..], b[1..])))
  }

  /** The length of the longest common prefix. */
  function Lcp(a: Str, b: Str): (n: nat)
    ensures n <= |a| && n <= |b|
  {
    if a != [] && b != [] && a[0] == b[0] then 1 + Lcp(a[1..], b[1..]) else 0
  }

  predicate Sorted(entries: seq<Str>) {
    forall i, j :: 0 <= i < j < |entries| ==> Less(entries[i], entries[j])
  }

  // ---- order and common prefixes ------------------------------------------------------------

  lemma {:induction false} LcpAgrees(a: Str, b: Str)
    ensures a[..Lcp(a, b)] == b[..Lcp(a, b)]
    ensures Lcp(a, b) < |a| && Lcp(a, b) < |b| ==> a[Lcp(a, b)] != b[Lcp(a, b)]
    ensures Less(a, b) <==> Lcp(a, b) < |b| && (Lcp(a, b) == |a| || a[Lcp(a, b)] < b[Lcp(a, b)])
  {
    if a != [] && b != [] && a[0] == b[0] {
      LcpAgrees(a[1..], b[1..]);
      var n := Lcp(a[1..], b[1..]);
      assert a[..n + 1] == [a[0]] + a[1..][..n] && b[..n + 1] == [b[0]] + b[1..][..n];
    }
  }

  lemma {:induction false} LcpIsLongest(a: Str, b: Str, n: nat)
    requires n <= |a| && n <= |b| && a[..n] == b[..n]
    ensures n <= Lcp(a, b)
  {
    if n > 0 {
      assert a[0] == a[..n][0] == b[..n][0] == b[0];
      assert a[1..][..n - 1] == a[..n][1..] && b[1..][..n - 1] == b[..n][1..];
      LcpIsLongest(a[1..], b[1..], n - 1);
    }
  }

  lemma StartsIff(a: Str, str: Str)
    ensures str <= a <==> Lcp(a, str) == |str|
    ensures str <= a ==> !Less(a, str)
    ensures Lcp(a, str) == Lcp(str, a)
  {
    LcpAgrees(a, str);
    LcpSymmetric(a, str);
    if str <= a {
      LcpIsLongest(a, str, |str|);
    }
  }

  lemma {:induction false} LcpSymmetric(a: Str, b: Str)
    ensures Lcp(a, b) == Lcp(b, a)
  {
    if a != [] && b != [] && a[0] == b[0] {
      LcpSymmetric(a[1..], b[1..]);
    }
  }

  lemma {:induction false} Trichotomy(a: Str, b: Str)
    ensures (if Less(a, b) then 1 else 0) + (if a == b then 1 else 0) + (if Less(b, a) then 1 else 0) == 1
  {
    if a != [] && b != [] && a[0] == b[0] {
      Trichotomy(a[1..], b[1..]);
      assert a == b <==> a[1..] == b[1..] by {
        assert a == [a[0]] + a[1..] && b == [b[0]] + b[1..];
      }
    }
  }

  /** What lies between two strings shares with str what both of them share with it. */
  lemma {:induction false} Between(x: Str, y: Str, z: Str, str: Str, n: nat)
    requires Less(x, y) && Less(y, z) && n <= Lcp(x, str) && n <= Lcp(z, str)
    ensures n <= Lcp(y, str)
  {
    if n > 0 {
      Between(x[1..], y[1..], z[1..], str[1..], n - 1);
    }
  }

  /** Below a string that is less than str nothing starts with str. */
  lemma {:induction false} NotBelow(x: Str, y: Str, str: Str)
    requires Less(x, y) && Less(y, str)
    ensures !(str <= x)
  {
    if str <= x {
      if y != [] && y[0] == str[0] {
        assert x[0] == str[0];
        assert str[1..] <= x[1..];
        NotBelow(x[1..], y[1..], str[1..]);
      }
    }
  }

  /** Above a string that is greater than str and does not start with it nothing starts with it. */
  lemma {:induction false} NotAbove(x: Str, y: Str, str: Str)
    requires Less(str, x) && !(str <= x) && Less(x, y)
    ensures !(str <= y)
  {
    if str <= y {
      if str[0] == x[0] {
        assert y[0] == str[0];
        assert str[1..] <= y[1..];
        assert str[1..] <= x[1..] ==> str <= x by {
          assert str == [str[0]] + str[1..] && x == [x[0]] + x[1..];
        }
        NotAbove(x[1..], y[1..], str[1..]);
      }
    }
  }

  // ---- comparing ----------------------------------------------------------------------------

  method CalcLcp(a: Str, b: Str) returns (n: nat)
    ensures n == Lcp(a, b)
  {
    var len := if |b| < |a| then |b| else |a|;
    n := 0;
    while n < len && a[n] == b[n]
      invariant n <= len && a[..n] == b[..n]
    {
      n := n + 1;
    }
    LcpIsLongest(a, b, n);
    LcpAgrees(a, b);
    assert forall i :: 0 <= i < Lcp(a, b) ==> a[i] == a[..Lcp(a, b)][i] == b[..Lcp(a, b)][i];
  }

  datatype Cmp = Smaller | Same | Greater

  /** Compares from byte lcp0 on; this changes nothing when that many bytes agree. */
  method Compare(a: Str, b: Str, lcp0: nat) returns (cmp: Cmp, lcp: nat)
    ensures lcp0 <= Lcp(a, b) ==> lcp == Lcp(a, b) && (cmp.Smaller? <==> Less(a, b)) && (cmp.Same? <==> a == b)
  {
    var len := if |b| < |a| then |b| else |a|;
    lcp := lcp0;
    while lcp < len && a[lcp] == b[lcp]
      invariant lcp0 <= Lcp(a, b) ==> lcp0 <= lcp <= Lcp(a, b)
      decreases len - lcp
    {
      ghost var n := Lcp(a, b);
      LcpAgrees(a, b);
      lcp := lcp + 1;
    }
    LcpAgrees(a, b);
    if lcp < len {
      cmp := if a[lcp] < b[lcp] then Smaller else Greater;
    } else {
      cmp := if |a| < |b| then Smaller else if |a| == |b| then Same else Greater;
    }
    Trichotomy(a, b);
  }

  // ---- searching ----------------------------------------------------------------------------

  /** The first entry that starts with str, or that there is none. */
  ghost predicate FirstWith(entries: seq<Str>, str: Str, r: int) {
    if r == -1 then forall i :: 0 <= i < |entries| ==> !(str <= entries[i])
    else 0 <= r < |entries| && str <= entries[r] && forall i :: 0 <= i < r ==> !(str <= entries[i])
  }

  /** The entry equal to str, or that there is none. */
  ghost predicate EntryOf(entries: seq<Str>, str: Str, r: int) {
    if r == -1 then str !in entries else 0 <= r < |entries| && entries[r] == str
  }

  function Min(a: nat, b: nat): nat {
    if a < b then a else b
  }

  /** Between two rounds: up to left nothing starts with str, from right on only a greater entry can. */
  ghost predicate Searching(entries: seq<Str>, str: Str, left: nat, right: nat, lLcp: nat, rLcp: nat) {
    && left <= right < |entries|
    && lLcp == Lcp(entries[left], str) && rLcp == Lcp(entries[right], str)
    && (forall i :: 0 <= i <= left ==> !(str <= entries[i]))
    && (right < |entries| - 1 ==> Less(str, entries[right]))
  }

  /** The bytes skipped at the next middle agree with str. */
  lemma Skipped(entries: seq<Str>, str: Str, left: nat, right: nat, lLcp: nat, rLcp: nat, mid: nat)
    requires Sorted(entries) && Searching(entries, str, left, right, lLcp, rLcp) && left < mid < right
    ensures Min(lLcp, rLcp) <= Lcp(entries[mid], str)
  {
    Between(entries[left], entries[mid], entries[right], str, Min(lLcp, rLcp));
  }

  lemma MoveLeft(entries: seq<Str>, str: Str, left: nat, right: nat, lLcp: nat, rLcp: nat, mid: nat)
    requires Sorted(entries) && Searching(entries, str, left, right, lLcp, rLcp) && left < mid < right
    requires Less(entries[mid], str)
    ensures Searching(entries, str, mid, right, Lcp(entries[mid], str), rLcp)
  {
    forall i | 0 <= i <= mid ensures !(str <= entries[i]) {
      StartsIff(entries[i], str);
      if left < i < mid {
        NotBelow(entries[i], entries[mid], str);
      }
    }
  }

  /** When the search has ended, only the entry at right can be the first that starts with str. */
  lemma AtRight(entries: seq<Str>, str: Str, left: nat, right: nat, lLcp: nat, rLcp: nat)
    requires Sorted(entries) && Searching(entries, str, left, right, lLcp, rLcp) && right - left <= 1
    ensures lLcp != |str|
    ensures FirstWith(entries, str, if rLcp == |str| then right else -1)
  {
    StartsIff(entries[left], str);
    StartsIff(entries[right], str);
    if rLcp != |str| {
      forall i | 0 <= i < |entries| ensures !(str <= entries[i]) {
        if i > right {
          NotAbove(entries[right], entries[i], str);
        }
      }
    }
  }

  lemma EqualIsFirst(entries: seq<Str>, str: Str, mid: nat)
    requires Sorted(entries) && mid < |entries| && entries[mid] == str
    ensures FirstWith(entries, str, mid)
  {
    forall i | 0 <= i < mid ensures !(str <= entries[i]) {
      StartsIff(entries[i], str);
    }
  }

  /** An entry equal to str is the first that starts with it. */
  lemma FirstIsEntry(entries: seq<Str>, str: Str, r: int)
    requires Sorted(entries) && FirstWith(entries, str, r)
    ensures EntryOf(entries, str, if r >= 0 && |entries[r]| == |str| then r else -1)
  {
    if str in entries {
      var k :| 0 <= k < |entries| && entries[k] == str;
      EqualIsFirst(entries, str, k);
      assert r == k;
    }
  }

  method LowerBound(entries: seq<Str>, str: Str, exact: bool) returns (r: int)
    requires Sorted(entries)
    ensures !exact ==> FirstWith(entries, str, r)
    ensures exact ==> (EntryOf(entries, str, r) <==> !(entries != [] && str < entries[0]))
    ensures exact && entries != [] && str < entries[0] ==> r == 0
  {
    if |entries| == 0 {
      return -1;
    }
    var left, right: nat := 0, |entries| - 1;
    var mid := (right - left) / 2 + left;
    var lLcp := CalcLcp(entries[left], str);
    StartsIff(entries[0], str);
    if lLcp == |str| {
      FirstIsEntry(entries, str, 0);
      return 0;
    }
    var rLcp := CalcLcp(entries[right], str);
    var cmp, mLcp := Compare(entries[mid], str, 0);
    while right - left > 1
      invariant Searching(entries, str, left, right, lLcp, rLcp) && mid < |entries|
      invariant cmp.Same? ==> entries[mid] == str && right - left > 1
      invariant mLcp == Min(lLcp, rLcp) || (mid == (right - left) / 2 + left && mLcp == Lcp(entries[mid], str))
      decreases right - left
    {
      mid := (right - left) / 2 + left;
      Skipped(entries, str, left, right, lLcp, rLcp, mid);
      cmp, mLcp := Compare(entries[mid], str, mLcp);
      Trichotomy(entries[mid], str);
      if cmp.Smaller? {
        MoveLeft(entries, str, left, right, lLcp, rLcp, mid);
        lLcp := mLcp;
        mLcp := Min(lLcp, rLcp);
        left := mid;
      } else if cmp.Greater? {
        rLcp := mLcp;
        mLcp := Min(lLcp, rLcp);
        right := mid;
      } else {
        break;
      }
    }
    if !cmp.Same? {
      AtRight(entries, str, left, right, lLcp, rLcp);
      if lLcp == |str| || rLcp == |str| {
        mid, mLcp := if lLcp == |str| then left else right, if lLcp == |str| then lLcp else rLcp;
        cmp, mLcp := Compare(entries[mid], str, mLcp);
      }
    } else {
      EqualIsFirst(entries, str, mid);
    }
    r := -1;
    StartsIff(entries[mid], str);
    FirstIsEntry(entries, str, if mLcp == |str| then mid else -1);
    if mLcp == |str| && (!exact || |entries[mid]| == |str|) {
      r := mid;
    }
  }

  lemma LessOneWay(a: Str, b: Str)
    requires Less(a, b)
    ensures !(b <= a)
  {
    LcpAgrees(a, b);
    if b <= a {
      StartsIff(a, b);
    }
  }

  /** The position from which a completion is answered; a match at position 0 is dropped.  For exact queries
      this also hides the wrong answer 0, as no entry is equal to the string then. */
  method Completed(entries: seq<Str>, str: Str, exact: bool) returns (pos: int)
    requires Sorted(entries)
    ensures pos > 0 ==> if exact then EntryOf(entries, str, pos) else FirstWith(entries, str, pos)
    ensures !exact ==> (pos <= 0 <==> (forall i :: 0 <= i < |entries| ==> !(str <= entries[i]))
                                      || (entries != [] && str <= entries[0]))
    ensures exact ==> (pos <= 0 <==> str !in entries || entries[0] == str)
  {
    pos := LowerBound(entries, str, exact);
    if exact && entries != [] && str < entries[0] && str in entries {
      var i :| 0 <= i < |entries| && entries[i] == str;
      LessOneWay(entries[0], str);
    }
    if exact && pos > 0 && !(str < entries[0]) {
      Trichotomy(entries[0], str);
    }
  }
}
