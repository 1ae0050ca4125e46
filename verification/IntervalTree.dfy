/**
 The interval tree: intervals that contain a node's centre stay in the node, those to the
 left and to the right of it go to its children. Scalars are mathematical integers.
 */
module IntervalTree {
  datatype Interval<V> = Interval(start: int, stop: int, value: V)

  /** A null pointer is `Nil`. */
  datatype Tree<V> = Nil | Node(intervals: seq<Interval<V>>, left: Tree<V>, right: Tree<V>, center: int)

  predicate WellFormed<V>(s: seq<Interval<V>>) {
    forall i | 0 <= i < |s| :: s[i].start <= s[i].stop
  }

  predicate SortedByStart<V>(s: seq<Interval<V>>) {
    forall i, j | 0 <= i < j < |s| :: s[i].start <= s[j].start
  }

  /** All intervals in the order in which `visit_near` gets to them. */
  function All<V>(t: Tree<V>): seq<Interval<V>> {
    match t
    case Nil => []
    case Node(intervals, left, right, _) => intervals + All(left) + All(right)
  }

  function Filter<V>(s: seq<Interval<V>>, keep: Interval<V> -> bool): seq<Interval<V>> {
    if s == [] then [] else (if keep(s[0]) then [s[0]] else []) + Filter(s[1..], keep)
  }

  // ----- filtering -----

  lemma {:induction false} FilterConcat<V>(a: seq<Interval<V>>, b: seq<Interval<V>>, keep: Interval<V> -> bool)
    ensures Filter(a + b, keep) == Filter(a, keep) + Filter(b, keep)
  {
    hide Filter;
    if a == [] {
      assert a + b == b;
      FilterNothing(keep);
    } else {
      var rest := a[1..];
      assert a + b == [a[0]] + (rest + b);
      FilterStep(a[0], rest + b, keep);
      assert a == [a[0]] + rest;
      FilterStep(a[0], rest, keep);
      FilterConcat(rest, b, keep);
    }
  }

  lemma FilterStep<V>(x: Interval<V>, s: seq<Interval<V>>, keep: Interval<V> -> bool)
    ensures Filter([x] + s, keep) == (if keep(x) then [x] else []) + Filter(s, keep)
  {
    assert ([x] + s)[1..] == s;
  }

  lemma FilterNothing<V>(keep: Interval<V> -> bool)
    ensures Filter([], keep) == []
  {
  }

  lemma {:induction false} FilterNone<V>(s: seq<Interval<V>>, keep: Interval<V> -> bool)
    requires forall i | 0 <= i < |s| :: !keep(s[i])
    ensures Filter(s, keep) == []
  {
    if s != [] {
      FilterNone(s[1..], keep);
    }
  }

  /** Filtering keeps every copy of what it keeps and nothing else. */
  lemma {:induction false} FilterCount<V>(s: seq<Interval<V>>, keep: Interval<V> -> bool, x: Interval<V>)
    ensures multiset(Filter(s, keep))[x] == if keep(x) then multiset(s)[x] else 0
  {
    if s != [] {
      FilterCount(s[1..], keep, x);
      assert s == [s[0]] + s[1..];
    }
  }

  lemma {:induction false} FilterIn<V>(s: seq<Interval<V>>, keep: Interval<V> -> bool)
    ensures forall k | 0 <= k < |Filter(s, keep)| ::
              keep(Filter(s, keep)[k]) && exists i :: 0 <= i < |s| && s[i] == Filter(s, keep)[k]
  {
    if s != [] {
      FilterIn(s[1..], keep);
      var r, rest := Filter(s, keep), Filter(s[1..], keep);
      forall k | 0 <= k < |r|
        ensures keep(r[k]) && exists i :: 0 <= i < |s| && s[i] == r[k]
      {
        if keep(s[0]) && k == 0 {
          assert s[0] == r[k];
        } else {
          var k' := if keep(s[0]) then k - 1 else k;
          var i :| 0 <= i < |s[1..]| && s[1..][i] == rest[k'];
          assert s[i + 1] == r[k];
        }
      }
    }
  }

  /** Sorted and well formed intervals stay so when some are left out. */
  lemma {:induction false} FilterSorted<V>(s: seq<Interval<V>>, keep: Interval<V> -> bool)
    requires SortedByStart(s) && WellFormed(s)
    ensures SortedByStart(Filter(s, keep)) && WellFormed(Filter(s, keep))
  {
    if s != [] {
      FilterSorted(s[1..], keep);
      FilterIn(s[1..], keep);
      assert forall i | 0 <= i < |s[1..]| :: s[0].start <= s[1..][i].start;
    }
  }

  lemma {:induction false} FilterShorter<V>(s: seq<Interval<V>>, keep: Interval<V> -> bool)
    ensures |Filter(s, keep)| <= |s|
    ensures (exists i :: 0 <= i < |s| && !keep(s[i])) ==> |Filter(s, keep)| < |s|
  {
    if s != [] {
      FilterShorter(s[1..], keep);
      if i :| 0 <= i < |s| && !keep(s[i]) {
        assert i > 0 ==> !keep(s[1..][i - 1]);
      }
    }
  }

  // ----- trees -----

  predicate Before<V>(s: seq<Interval<V>>, c: int) {
    forall i | 0 <= i < |s| :: s[i].stop < c
  }

  predicate After<V>(s: seq<Interval<V>>, c: int) {
    forall i | 0 <= i < |s| :: c < s[i].start
  }

  ghost predicate WellBuilt<V>(t: Tree<V>) {
    t.Node? ==>
      && SortedByStart(t.intervals) && WellFormed(t.intervals)
      && WellBuilt(t.left) && WellBuilt(t.right)
      && (t.left.Node? ==> All(t.left) != []) && (t.right.Node? ==> All(t.right) != [])
      && WellFormed(All(t.left)) && WellFormed(All(t.right))
      && Before(All(t.left), t.center) && After(All(t.right), t.center)
  }

  predicate Overlaps<V>(i: Interval<V>, start: int, stop: int) {
    i.stop >= start && i.start <= stop
  }

  predicate Contained<V>(i: Interval<V>, start: int, stop: int) {
    start <= i.start && i.stop <= stop
  }

  /** What can be asked about a range: whatever is kept overlaps it, or lies in it. */
  ghost predicate Near<V(!new)>(keep: Interval<V> -> bool, start: int, stop: int) {
    forall i: Interval<V> | i.start <= i.stop && keep(i) :: i.start <= stop && i.stop >= start
  }

  /** `visit_near` with a callback that collects what `keep` accepts. */
  method VisitNear<V(!new)>(t: Tree<V>, start: int, stop: int, keep: Interval<V> -> bool, found: seq<Interval<V>>)
    returns (r: seq<Interval<V>>)
    requires t.Node? && WellBuilt(t) && Near(keep, start, stop)
    ensures r == found + Filter(All(t), keep)
    decreases t
  {
    NodeParts(t);
    FilterThree(t.intervals, All(t.left), All(t.right), keep);
    hide Filter, WellBuilt, All, Near, WellFormed, SortedByStart, Before, After;
    ghost var a, b, c := Filter(t.intervals, keep), Filter(All(t.left), keep), Filter(All(t.right), keep);
    InOrder(found, a, b, c);
    r := found;
    if t.intervals != [] && !(stop < t.intervals[0].start) {
      r := VisitAll(t.intervals, keep, r);
    } else {
      NoneStarts(t.intervals, start, stop, keep);
    }
    assert r == found + a;
    if t.left.Node? && start <= t.center {
      r := VisitNear(t.left, start, stop, keep, r);
    } else {
      NoneBefore(t.left, t.center, start, stop, keep);
    }
    assert r == (found + a) + b;
    if t.right.Node? && stop >= t.center {
      r := VisitNear(t.right, start, stop, keep, r);
    } else {
      NoneAfter(t.right, t.center, start, stop, keep);
    }
  }

  lemma InOrder<V>(found: seq<Interval<V>>, a: seq<Interval<V>>, b: seq<Interval<V>>, c: seq<Interval<V>>)
    ensures found + (a + b + c) == ((found + a) + b) + c
    ensures found + [] == found && (found + a) + [] == found + a && ((found + a) + b) + [] == (found + a) + b
  {
  }

  lemma NodeParts<V>(t: Tree<V>)
    requires t.Node? && WellBuilt(t)
    ensures All(t) == t.intervals + All(t.left) + All(t.right)
    ensures SortedByStart(t.intervals) && WellFormed(t.intervals)
    ensures WellBuilt(t.left) && WellFormed(All(t.left)) && Before(All(t.left), t.center)
    ensures WellBuilt(t.right) && WellFormed(All(t.right)) && After(All(t.right), t.center)
  {
  }

  lemma FilterThree<V>(a: seq<Interval<V>>, b: seq<Interval<V>>, c: seq<Interval<V>>, keep: Interval<V> -> bool)
    ensures Filter(a + b + c, keep) == Filter(a, keep) + Filter(b, keep) + Filter(c, keep)
  {
    hide Filter;
    FilterConcat(a + b, c, keep);
    FilterConcat(a, b, keep);
  }

  /** Intervals sorted by start, of which the first starts too late. */
  lemma NoneStarts<V(!new)>(s: seq<Interval<V>>, start: int, stop: int, keep: Interval<V> -> bool)
    requires SortedByStart(s) && WellFormed(s) && Near(keep, start, stop) && (s == [] || stop < s[0].start)
    ensures Filter(s, keep) == []
  {
    forall i | 0 <= i < |s|
      ensures !keep(s[i])
    {
      assert s[0].start <= s[i].start;
    }
    FilterNone(s, keep);
  }

  /** Intervals to the left of the centre, for a range to the right of it. */
  lemma NoneBefore<V(!new)>(t: Tree<V>, center: int, start: int, stop: int, keep: Interval<V> -> bool)
    requires WellFormed(All(t)) && Before(All(t), center) && Near(keep, start, stop) && (t.Nil? || center < start)
    ensures Filter(All(t), keep) == []
  {
    FilterNone(All(t), keep);
  }

  lemma NoneAfter<V(!new)>(t: Tree<V>, center: int, start: int, stop: int, keep: Interval<V> -> bool)
    requires WellFormed(All(t)) && After(All(t), center) && Near(keep, start, stop) && (t.Nil? || stop < center)
    ensures Filter(All(t), keep) == []
  {
    FilterNone(All(t), keep);
  }

  method VisitAll<V>(s: seq<Interval<V>>, keep: Interval<V> -> bool, found: seq<Interval<V>>)
    returns (r: seq<Interval<V>>)
    ensures r == found + Filter(s, keep)
  {
    r := found;
    for i := 0 to |s|
      invariant r + Filter(s[i..], keep) == found + Filter(s, keep)
    {
      assert s[i..][1..] == s[i + 1..];
      if keep(s[i]) {
        r := r + [s[i]];
      }
    }
    assert r + [] == r;
  }

  /** `findOverlapping`. */
  method FindOverlapping<V(!new)>(t: Tree<V>, start: int, stop: int) returns (r: seq<Interval<V>>)
    requires t.Node? && WellBuilt(t)
    ensures multiset(r) == multiset(Filter(All(t), i => Overlaps(i, start, stop)))
  {
    r := VisitNear(t, start, stop, i => Overlaps(i, start, stop), []);
  }

  /** `findContained`. */
  method FindContained<V(!new)>(t: Tree<V>, start: int, stop: int) returns (r: seq<Interval<V>>)
    requires t.Node? && WellBuilt(t)
    ensures multiset(r) == multiset(Filter(All(t), i => Contained(i, start, stop)))
  {
    r := VisitNear(t, start, stop, i => Contained(i, start, stop), []);
  }

  // ----- sorting -----

  /** `std::sort` by start: any order of equal starts would do. */
  method SortByStart<V>(s: seq<Interval<V>>) returns (r: seq<Interval<V>>)
    ensures SortedByStart(r) && multiset(r) == multiset(s)
  {
    r := [];
    for i := 0 to |s|
      invariant SortedByStart(r) && multiset(r) == multiset(s[..i])
    {
      assert s[..i + 1] == s[..i] + [s[i]];
      r := InsertByStart(r, s[i]);
    }
    assert s[..|s|] == s;
  }

  method InsertByStart<V>(s: seq<Interval<V>>, x: Interval<V>) returns (r: seq<Interval<V>>)
    requires SortedByStart(s)
    ensures SortedByStart(r) && multiset(r) == multiset(s) + multiset{x}
  {
    var k := 0;
    while k < |s| && s[k].start <= x.start
      invariant k <= |s|
      invariant forall i | 0 <= i < k :: s[i].start <= x.start
    {
      k := k + 1;
    }
    r := s[..k] + [x] + s[k..];
    assert s == s[..k] + s[k..];
  }

  // ----- building -----

  const SIZE_MAX := 0xFFFF_FFFF_FFFF_FFFF

  /** Integer division by two, rounding towards zero. */
  function Half(x: int): int {
    if x >= 0 then x / 2 else -((-x) / 2)
  }

  function MinStart<V>(s: seq<Interval<V>>): (m: int)
    requires s != []
    ensures forall i | 0 <= i < |s| :: m <= s[i].start
    ensures exists i :: 0 <= i < |s| && s[i].start == m
  {
    if |s| == 1 then s[0].start
    else
      var m := MinStart(s[1..]);
      assert forall i | 0 < i < |s| :: s[i] == s[1..][i - 1];
      if s[0].start < m then s[0].start else
        assert exists i :: 0 <= i < |s[1..]| && s[1..][i].start == m && s[i + 1].start == m;
        m
  }

  function MaxStop<V>(s: seq<Interval<V>>): (m: int)
    requires s != []
    ensures forall i | 0 <= i < |s| :: s[i].stop <= m
    ensures exists i :: 0 <= i < |s| && s[i].stop == m
  {
    if |s| == 1 then s[0].stop
    else
      var m := MaxStop(s[1..]);
      assert forall i | 0 < i < |s| :: s[i] == s[1..][i - 1];
      if s[0].stop > m then s[0].stop else
        assert exists i :: 0 <= i < |s[1..]| && s[1..][i].stop == m && s[i + 1].stop == m;
        m
  }

  predicate GoesLeft<V>(i: Interval<V>, center: int) {
    i.stop < center
  }

  predicate GoesRight<V>(i: Interval<V>, center: int) {
    !(i.stop < center) && i.start > center
  }

  predicate Stays<V>(i: Interval<V>, center: int) {
    !GoesLeft(i, center) && !GoesRight(i, center)
  }

  /** The loop that hands intervals to the left, to the right and to the node itself. */
  method Partition<V>(ivals: seq<Interval<V>>, center: int)
    returns (lefts: seq<Interval<V>>, mids: seq<Interval<V>>, rights: seq<Interval<V>>)
    ensures lefts == Filter(ivals, i => GoesLeft(i, center))
    ensures mids == Filter(ivals, i => Stays(i, center))
    ensures rights == Filter(ivals, i => GoesRight(i, center))
  {
    ghost var goesLeft: Interval<V> -> bool := i => GoesLeft(i, center);
    ghost var stays: Interval<V> -> bool := i => Stays(i, center);
    ghost var goesRight: Interval<V> -> bool := i => GoesRight(i, center);
    lefts, mids, rights := [], [], [];
    for n := 0 to |ivals|
      invariant lefts == Filter(ivals[..n], goesLeft)
      invariant mids == Filter(ivals[..n], stays)
      invariant rights == Filter(ivals[..n], goesRight)
    {
      FilterNext(ivals, n, goesLeft);
      FilterNext(ivals, n, stays);
      FilterNext(ivals, n, goesRight);
      var interval := ivals[n];
      if interval.stop < center {
        lefts := lefts + [interval];
      } else if interval.start > center {
        rights := rights + [interval];
      } else {
        mids := mids + [interval];
      }
    }
    assert ivals[..|ivals|] == ivals;
  }

  lemma FilterNext<V>(s: seq<Interval<V>>, n: nat, keep: Interval<V> -> bool)
    requires n < |s|
    ensures Filter(s[..n + 1], keep) == Filter(s[..n], keep) + (if keep(s[n]) then [s[n]] else [])
  {
    assert s[..n + 1] == s[..n] + [s[n]];
    FilterConcat(s[..n], [s[n]], keep);
    assert [s[n]][1..] == [];
  }

  /** Nothing is lost in handing out. */
  lemma PartitionAll<V(!new)>(s: seq<Interval<V>>, center: int)
    ensures multiset(s) ==
            multiset(Filter(s, i => Stays(i, center))) + multiset(Filter(s, i => GoesLeft(i, center)))
            + multiset(Filter(s, i => GoesRight(i, center)))
  {
    var goesLeft: Interval<V> -> bool := i => GoesLeft(i, center);
    var stays: Interval<V> -> bool := i => Stays(i, center);
    var goesRight: Interval<V> -> bool := i => GoesRight(i, center);
    forall x: Interval<V>
      ensures multiset(s)[x] ==
              multiset(Filter(s, stays))[x] + multiset(Filter(s, goesLeft))[x] + multiset(Filter(s, goesRight))[x]
    {
      FilterCount(s, goesLeft, x);
      FilterCount(s, stays, x);
      FilterCount(s, goesRight, x);
    }
  }

  lemma CenterInside(a: int, b: int)
    requires a <= b
    ensures a <= Half(a + b) <= b
  {
  }

  /** The last interval to stop does not go left, the first to start does not go right. */
  lemma BothSmaller<V>(s: seq<Interval<V>>, center: int)
    requires s != [] && MinStart(s) <= center <= MaxStop(s)
    ensures |Filter(s, i => GoesLeft(i, center))| < |s|
    ensures |Filter(s, i => GoesRight(i, center))| < |s|
  {
    FilterShorter(s, i => GoesLeft(i, center));
    FilterShorter(s, i => GoesRight(i, center));
    hide Filter;
    var a :| 0 <= a < |s| && s[a].stop == MaxStop(s);
    var b :| 0 <= b < |s| && s[b].start == MinStart(s);
    assert !GoesLeft(s[a], center);
    assert !GoesRight(s[b], center);
  }

  lemma MinBelowMax<V>(s: seq<Interval<V>>)
    requires s != [] && WellFormed(s)
    ensures MinStart(s) <= MaxStop(s)
  {
    assert MinStart(s) <= s[0].start <= s[0].stop <= MaxStop(s);
  }

  // ----- permutations -----

  lemma Permuted<V>(a: seq<Interval<V>>, b: seq<Interval<V>>)
    requires multiset(a) == multiset(b)
    ensures |a| == |b|
    ensures forall i | 0 <= i < |b| :: exists j :: 0 <= j < |a| && a[j] == b[i]
  {
    assert |a| == |multiset(a)| && |b| == |multiset(b)|;
    forall i | 0 <= i < |b|
      ensures exists j :: 0 <= j < |a| && a[j] == b[i]
    {
      assert b[i] in multiset(b);
      assert b[i] in a;
    }
  }

  lemma PermutedWellFormed<V>(a: seq<Interval<V>>, b: seq<Interval<V>>)
    requires multiset(a) == multiset(b) && WellFormed(a)
    ensures WellFormed(b)
  {
    Permuted(a, b);
  }

  lemma PermutedSides<V>(a: seq<Interval<V>>, b: seq<Interval<V>>, c: int)
    requires multiset(a) == multiset(b)
    ensures Before(a, c) ==> Before(b, c)
    ensures After(a, c) ==> After(b, c)
  {
    Permuted(a, b);
  }

  lemma SameExtent<V>(a: seq<Interval<V>>, b: seq<Interval<V>>)
    requires multiset(a) == multiset(b) && a != [] && b != []
    ensures MinStart(a) == MinStart(b) && MaxStop(a) == MaxStop(b)
  {
    ExtentWithin(a, b);
    ExtentWithin(b, a);
  }

  lemma ExtentWithin<V>(a: seq<Interval<V>>, b: seq<Interval<V>>)
    requires multiset(a) == multiset(b) && a != [] && b != []
    ensures MinStart(a) <= MinStart(b) && MaxStop(b) <= MaxStop(a)
  {
    Permuted(a, b);
    hide MinStart, MaxStop;
    var i :| 0 <= i < |b| && b[i].start == MinStart(b);
    var j :| 0 <= j < |b| && b[j].stop == MaxStop(b);
  }

  lemma PartitionGood<V>(s: seq<Interval<V>>, center: int)
    requires SortedByStart(s) && WellFormed(s)
    ensures SortedByStart(Filter(s, i => GoesLeft(i, center))) && WellFormed(Filter(s, i => GoesLeft(i, center)))
    ensures SortedByStart(Filter(s, i => GoesRight(i, center))) && WellFormed(Filter(s, i => GoesRight(i, center)))
    ensures SortedByStart(Filter(s, i => Stays(i, center))) && WellFormed(Filter(s, i => Stays(i, center)))
    ensures Before(Filter(s, i => GoesLeft(i, center)), center)
    ensures After(Filter(s, i => GoesRight(i, center)), center)
    ensures AtCentre(Filter(s, i => Stays(i, center)), center)
  {
    FilterIn(s, i => Stays(i, center));
    FilterSorted(s, i => GoesLeft(i, center));
    FilterSorted(s, i => GoesRight(i, center));
    FilterSorted(s, i => Stays(i, center));
    FilterIn(s, i => GoesLeft(i, center));
    FilterIn(s, i => GoesRight(i, center));
  }

  /** The depth that is left below a node, with the wrap-around of an unsigned size. */
  function Below(depth: nat): nat {
    if depth == 0 then SIZE_MAX else depth - 1
  }

  /** Every interval contains the centre. */
  predicate AtCentre<V>(s: seq<Interval<V>>, center: int) {
    forall i | 0 <= i < |s| :: s[i].start <= center <= s[i].stop
  }

  /**
   The shape of a tree over its intervals: the centre is the middle of their extent; a node is a
   leaf exactly when the depth is used up or the intervals are fewer than both bucket sizes, and
   otherwise keeps those that contain the centre.
   */
  ghost predicate Shaped<V>(t: Tree<V>, depth: nat, minBucket: nat, maxBucket: nat)
    decreases t
  {
    t.Node? ==>
      && (All(t) != [] ==> t.center == Half(MinStart(All(t)) + MaxStop(All(t))))
      && if IsLeaf(|All(t)|, depth, minBucket, maxBucket) then t.left.Nil? && t.right.Nil?
         else
           && AtCentre(t.intervals, t.center)
           && Shaped(t.left, Below(depth), minBucket, maxBucket)
           && Shaped(t.right, Below(depth), minBucket, maxBucket)
  }

  predicate IsLeaf(size: nat, depth: nat, minBucket: nat, maxBucket: nat) {
    Below(depth) == 0 || (size < minBucket && size < maxBucket)
  }

  function Height<V>(t: Tree<V>): nat {
    if t.Nil? then 0 else 1 + if Height(t.left) < Height(t.right) then Height(t.right) else Height(t.left)
  }

  /** A tree is never higher than the depth asked for. */
  lemma {:induction false} HeightBound<V>(t: Tree<V>, depth: nat, minBucket: nat, maxBucket: nat)
    requires depth > 0 && Shaped(t, depth, minBucket, maxBucket)
    ensures Height(t) <= depth
    decreases t
  {
    hide AtCentre, All, Half, MinStart, MaxStop;
    if t.Node? && !IsLeaf(|All(t)|, depth, minBucket, maxBucket) {
      HeightBound(t.left, depth - 1, minBucket, maxBucket);
      HeightBound(t.right, depth - 1, minBucket, maxBucket);
    }
  }

  lemma NodeBuilt<V>(t: Tree<V>, lefts: seq<Interval<V>>, rights: seq<Interval<V>>)
    requires t.Node? && SortedByStart(t.intervals) && WellFormed(t.intervals)
    requires WellBuilt(t.left) && WellBuilt(t.right)
    requires multiset(All(t.left)) == multiset(lefts) && multiset(All(t.right)) == multiset(rights)
    requires (t.left.Node? ==> lefts != []) && (t.right.Node? ==> rights != [])
    requires WellFormed(lefts) && WellFormed(rights) && Before(lefts, t.center) && After(rights, t.center)
    ensures WellBuilt(t)
    ensures multiset(All(t)) == multiset(t.intervals) + multiset(lefts) + multiset(rights)
  {
    PermutedWellFormed(lefts, All(t.left));
    PermutedWellFormed(rights, All(t.right));
    PermutedSides(lefts, All(t.left), t.center);
    PermutedSides(rights, All(t.right), t.center);
    Permuted(lefts, All(t.left));
    Permuted(rights, All(t.right));
  }

  /** The building constructor; extents other than zero say that the intervals are sorted. */
  method Build<V(!new)>(ivals: seq<Interval<V>>, depth: nat, minBucket: nat, maxBucket: nat,
                        leftExtent: int, rightExtent: int) returns (t: Tree<V>)
    requires WellFormed(ivals) && depth <= SIZE_MAX
    requires ivals != [] || depth == 1 || (minBucket > 0 && maxBucket > 0)
    requires leftExtent != 0 || rightExtent != 0 ==> SortedByStart(ivals)
    ensures t.Node? && WellBuilt(t) && multiset(All(t)) == multiset(ivals)
    ensures Shaped(t, depth, minBucket, maxBucket)
    decreases |ivals|
  {
    hide WellFormed, WellBuilt, Shaped, All, Half, MinStart, MaxStop;
    var below := Below(depth);
    var center := 0;
    if ivals != [] {
      center := Half(MinStart(ivals) + MaxStop(ivals));
    }
    var sorted := ivals;
    if leftExtent == 0 && rightExtent == 0 {
      sorted := SortByStart(ivals);
    }
    Permuted(ivals, sorted);
    PermutedWellFormed(ivals, sorted);
    if below == 0 || (|sorted| < minBucket && |sorted| < maxBucket) {
      sorted := SortByStart(sorted);
      PermutedWellFormed(ivals, sorted);
      t := Node(sorted, Nil, Nil, center);
      LeafBuilt(t);
      LeafShaped(t, ivals, depth, minBucket, maxBucket);
      return;
    }
    var leftp, rightp := leftExtent, rightExtent;
    if leftExtent == 0 && rightExtent == 0 {
      leftp, rightp := sorted[0].start, MaxStop(sorted);
    }
    MinBelowMax(ivals);
    CenterInside(MinStart(ivals), MaxStop(ivals));
    SameExtent(ivals, sorted);
    t := BuildInner(sorted, depth, minBucket, maxBucket, leftp, rightp, center);
  }

  lemma LeafShaped<V>(t: Tree<V>, ivals: seq<Interval<V>>, depth: nat, minBucket: nat, maxBucket: nat)
    requires t.Node? && t.left.Nil? && t.right.Nil? && All(t) == t.intervals && multiset(t.intervals) == multiset(ivals)
    requires ivals != [] ==> t.center == Half(MinStart(ivals) + MaxStop(ivals))
    requires IsLeaf(|ivals|, depth, minBucket, maxBucket)
    ensures Shaped(t, depth, minBucket, maxBucket)
  {
    hide Half, MinStart, MaxStop, All;
    Permuted(ivals, t.intervals);
    if ivals != [] {
      SameExtent(ivals, t.intervals);
    }
  }

  lemma NodeShaped<V>(t: Tree<V>, ivals: seq<Interval<V>>, depth: nat, minBucket: nat, maxBucket: nat)
    requires t.Node? && ivals != [] && multiset(All(t)) == multiset(ivals) && AtCentre(t.intervals, t.center)
    requires t.center == Half(MinStart(ivals) + MaxStop(ivals)) && !IsLeaf(|ivals|, depth, minBucket, maxBucket)
    requires Shaped(t.left, Below(depth), minBucket, maxBucket) && Shaped(t.right, Below(depth), minBucket, maxBucket)
    ensures Shaped(t, depth, minBucket, maxBucket)
  {
    hide Half, MinStart, MaxStop, All, AtCentre;
    Permuted(ivals, All(t));
    SameExtent(ivals, All(t));
  }

  lemma LeafBuilt<V>(t: Tree<V>)
    requires t.Node? && t.left.Nil? && t.right.Nil? && SortedByStart(t.intervals) && WellFormed(t.intervals)
    ensures WellBuilt(t) && All(t) == t.intervals
  {
  }

  /** The intervals left of, around and right of the centre. */
  method Divide<V(!new)>(sorted: seq<Interval<V>>, center: int)
    returns (lefts: seq<Interval<V>>, mids: seq<Interval<V>>, rights: seq<Interval<V>>)
    requires WellFormed(sorted) && SortedByStart(sorted) && sorted != []
    requires MinStart(sorted) <= center <= MaxStop(sorted)
    ensures |lefts| < |sorted| && |rights| < |sorted|
    ensures multiset(sorted) == multiset(mids) + multiset(lefts) + multiset(rights)
    ensures WellFormed(lefts) && SortedByStart(lefts) && Before(lefts, center)
    ensures WellFormed(mids) && SortedByStart(mids) && AtCentre(mids, center)
    ensures WellFormed(rights) && SortedByStart(rights) && After(rights, center)
  {
    BothSmaller(sorted, center);
    PartitionGood(sorted, center);
    PartitionAll(sorted, center);
    hide Filter, WellFormed, SortedByStart, Before, After, AtCentre;
    lefts, mids, rights := Partition(sorted, center);
  }

  /** The part of the constructor that makes children. */
  method BuildInner<V(!new)>(sorted: seq<Interval<V>>, depth: nat, minBucket: nat, maxBucket: nat,
                             leftp: int, rightp: int, center: int) returns (t: Tree<V>)
    requires WellFormed(sorted) && SortedByStart(sorted) && sorted != [] && depth <= SIZE_MAX
    requires MinStart(sorted) <= center <= MaxStop(sorted) && center == Half(MinStart(sorted) + MaxStop(sorted))
    requires !IsLeaf(|sorted|, depth, minBucket, maxBucket)
    ensures t.Node? && WellBuilt(t) && multiset(All(t)) == multiset(sorted)
    ensures Shaped(t, depth, minBucket, maxBucket)
    decreases |sorted|, 0
  {
    hide WellFormed, SortedByStart, Before, After, AtCentre;
    var lefts, mids, rights := Divide(sorted, center);
    var left, right := Nil, Nil;
    EmptyBuilt<V>(Below(depth), minBucket, maxBucket);
    hide WellBuilt, All, Shaped, Half, MinStart, MaxStop;
    if lefts != [] {
      left := Build(lefts, Below(depth), minBucket, maxBucket, leftp, center);
    }
    if rights != [] {
      right := Build(rights, Below(depth), minBucket, maxBucket, center, rightp);
    }
    t := Node(mids, left, right, center);
    NodeBuilt(t, lefts, rights);
    NodeShaped(t, sorted, depth, minBucket, maxBucket);
  }

  lemma EmptyBuilt<V>(depth: nat, minBucket: nat, maxBucket: nat)
    ensures WellBuilt<V>(Nil) && All<V>(Nil) == [] && Shaped<V>(Nil, depth, minBucket, maxBucket)
  {
  }

  // ----- the linear scan -----

  /** Building and asking is the same as looking at every interval. */
  method IndexOverlapping<V(!new)>(ivals: seq<Interval<V>>, depth: nat, minBucket: nat, maxBucket: nat,
                                   start: int, stop: int) returns (r: seq<Interval<V>>)
    requires WellFormed(ivals) && depth <= SIZE_MAX
    requires ivals != [] || depth == 1 || (minBucket > 0 && maxBucket > 0)
    ensures forall x :: multiset(r)[x] == if x.stop >= start && x.start <= stop then multiset(ivals)[x] else 0
  {
    var t := Build(ivals, depth, minBucket, maxBucket, 0, 0);
    r := FindOverlapping(t, start, stop);
    ghost var keep := (i: Interval<V>) => Overlaps(i, start, stop);
    forall x
      ensures multiset(Filter(All(t), keep))[x] == if keep(x) then multiset(ivals)[x] else 0
    {
      FilterCount(All(t), keep, x);
    }
  }

  method IndexContained<V(!new)>(ivals: seq<Interval<V>>, depth: nat, minBucket: nat, maxBucket: nat,
                                 start: int, stop: int) returns (r: seq<Interval<V>>)
    requires WellFormed(ivals) && depth <= SIZE_MAX
    requires ivals != [] || depth == 1 || (minBucket > 0 && maxBucket > 0)
    ensures forall x :: multiset(r)[x] == if start <= x.start && x.stop <= stop then multiset(ivals)[x] else 0
  {
    var t := Build(ivals, depth, minBucket, maxBucket, 0, 0);
    r := FindContained(t, start, stop);
    ghost var keep := (i: Interval<V>) => Contained(i, start, stop);
    forall x
      ensures multiset(Filter(All(t), keep))[x] == if keep(x) then multiset(ivals)[x] else 0
    {
      FilterCount(All(t), keep, x);
    }
  }

  // ----- the validity check -----

  function Min(a: int, b: int): int {
    if b < a then b else a
  }

  datatype Validity = Validity(ok: bool, first: int, second: int)

  /** `is_valid` for scalars from `lo` to `hi`; the upper extent is folded with the minimum. */
  function IsValid<V>(t: Tree<V>, lo: int, hi: int): Validity
    requires t.Node?
  {
    var own :=
      if t.intervals == [] then Validity(true, hi, lo)
      else Validity(true, Min(hi, MinStart(t.intervals)), Min(lo, MaxStop(t.intervals)));
    var l := if t.left.Node? then WithLeft(own, IsValid(t.left, lo, hi), t.center) else own;
    var r := if l.ok && t.right.Node? then WithRight(l, IsValid(t.right, lo, hi), t.center) else l;
    r.(ok := r.ok && SortedByStart(t.intervals))
  }

  function Folded(a: Validity, b: Validity): Validity {
    Validity(a.ok && b.ok, Min(a.first, b.first), Min(a.second, b.second))
  }

  function WithLeft(own: Validity, left: Validity, center: int): Validity {
    var r := Folded(own, left);
    if left.second >= center then r.(ok := false) else r
  }

  function WithRight(own: Validity, right: Validity, center: int): Validity {
    var r := Folded(own, right);
    if right.first <= center then r.(ok := false) else r
  }

  predicate Bounded<V>(s: seq<Interval<V>>, lo: int, hi: int) {
    forall i | 0 <= i < |s| :: lo <= s[i].stop && s[i].start <= hi
  }

  /** The check holds of every tree that is built. */
  lemma {:induction false} BuiltIsValid<V>(t: Tree<V>, lo: int, hi: int, c: int)
    requires t.Node? && WellBuilt(t) && Bounded(All(t), lo, hi)
    ensures IsValid(t, lo, hi).ok && IsValid(t, lo, hi).second == lo
    ensures After(All(t), c) && c < hi ==> IsValid(t, lo, hi).first > c
  {
    PartsBounded(t, lo, hi, c);
    if t.left.Node? {
      BuiltIsValid(t.left, lo, hi, c);
      assert All(t.left)[0].stop < t.center;
    }
    if t.right.Node? {
      BuiltIsValid(t.right, lo, hi, c);
      BuiltIsValid(t.right, lo, hi, t.center);
      assert All(t.right)[0].start > t.center;
    }
    hide All, WellBuilt;
  }

  lemma PartsBounded<V>(t: Tree<V>, lo: int, hi: int, c: int)
    requires t.Node? && Bounded(All(t), lo, hi)
    ensures Bounded(t.intervals, lo, hi) && Bounded(All(t.left), lo, hi) && Bounded(All(t.right), lo, hi)
    ensures After(All(t), c) ==> After(t.intervals, c) && After(All(t.left), c) && After(All(t.right), c)
  {
    hide Bounded, After;
    var a, b, d := t.intervals, All(t.left), All(t.right);
    BoundedConcat(a + b, d, lo, hi, c);
    BoundedConcat(a, b, lo, hi, c);
  }

  lemma BoundedConcat<V>(a: seq<Interval<V>>, b: seq<Interval<V>>, lo: int, hi: int, c: int)
    ensures Bounded(a + b, lo, hi) ==> Bounded(a, lo, hi) && Bounded(b, lo, hi)
    ensures After(a + b, c) ==> After(a, c) && After(b, c)
  {
    assert forall i | 0 <= i < |a| :: a[i] == (a + b)[i];
    assert forall i | 0 <= i < |b| :: b[i] == (a + b)[|a| + i];
  }
}
