/**
 * One corridor path of a tunnel network (the nested `IPath` class of
 * src/core/Tunnel.cs): an ordered list of grid points with an optional room
 * at each end. The getters that build lists with loops are methods proved
 * against the specification functions of this module; the lemmas state what
 * those functions mean.
 */
module TunnelPath {
  import opened Wrappers
  import opened Geometry

  /** A room, compared by value; `doorways` are its entry coordinates. */
  datatype Room = Room(id: int, doorways: set<Vec2>)

  // ---------------------------------------------------------------------
  // Corners

  /** Index `i` is an interior point whose two neighbours differ in both x and y. */
  predicate IsCorner(pts: seq<Vec2>, i: int) {
    0 < i < |pts| - 1 && pts[i - 1].x != pts[i + 1].x && pts[i - 1].y != pts[i + 1].y
  }

  /** The corner indices below `k`, in increasing order. */
  function CornersBelow(pts: seq<Vec2>, k: int): seq<int>
    decreases k
  {
    if k <= 1 then []
    else CornersBelow(pts, k - 1) + (if IsCorner(pts, k - 1) then [k - 1] else [])
  }

  /** All corner indices of a point list. */
  function Corners(pts: seq<Vec2>): seq<int> {
    CornersBelow(pts, |pts| - 1)
  }

  /** The corner indices framed by the first and the last index (the last is -1 on an empty list). */
  function CornersWithEnds(pts: seq<Vec2>): seq<int> {
    [0] + Corners(pts) + [|pts| - 1]
  }

  predicate Increasing(s: seq<int>) {
    forall i, j :: 0 <= i < j < |s| ==> s[i] < s[j]
  }

  lemma {:induction false} CornersBelowSpec(pts: seq<Vec2>, k: int)
    ensures Increasing(CornersBelow(pts, k))
    ensures forall j :: 0 <= j < |CornersBelow(pts, k)| ==> 1 <= CornersBelow(pts, k)[j] < k
    ensures forall i :: i in CornersBelow(pts, k) <==> i < k && IsCorner(pts, i)
    decreases k
  {
    if k > 1 {
      CornersBelowSpec(pts, k - 1);
    }
  }

  /**
   * The corner list is strictly increasing, lies in [1, n-2], and holds an
   * index exactly when the neighbours of that index differ in both x and y.
   */
  lemma CornersSpec(pts: seq<Vec2>)
    ensures Increasing(Corners(pts))
    ensures forall j :: 0 <= j < |Corners(pts)| ==> 1 <= Corners(pts)[j] <= |pts| - 2
    ensures forall i :: 0 < i < |pts| - 1 ==>
              (i in Corners(pts) <==> pts[i - 1].x != pts[i + 1].x && pts[i - 1].y != pts[i + 1].y)
  {
    CornersBelowSpec(pts, |pts| - 1);
  }

  /** When every interior point is a corner, the corner list is 1, 2, ..., k-1. */
  lemma {:induction false} AllCornersBelow(pts: seq<Vec2>, k: int)
    requires 1 <= k <= |pts| - 1
    requires forall i :: 0 < i < |pts| - 1 ==> IsCorner(pts, i)
    ensures |CornersBelow(pts, k)| == k - 1
    ensures forall j :: 0 <= j < k - 1 ==> CornersBelow(pts, k)[j] == j + 1
    decreases k
  {
    if k > 1 {
      AllCornersBelow(pts, k - 1);
    }
  }

  // ---------------------------------------------------------------------
  // Segments

  predicate IndicesIn(idxs: seq<int>, lo: int, hi: int) {
    forall j :: 0 <= j < |idxs| ==> lo <= idxs[j] < hi
  }

  /** The framed corner list of a non-empty point list holds valid indices only. */
  lemma CornersWithEndsIn(pts: seq<Vec2>)
    requires |pts| >= 1
    ensures IndicesIn(CornersWithEnds(pts), 0, |pts|)
  {
    CornersBelowSpec(pts, |pts| - 1);
    var w := CornersWithEnds(pts);
    forall j | 0 <= j < |w|
      ensures 0 <= w[j] < |pts|
    {
      if 0 < j < |w| - 1 {
        assert w[j] == Corners(pts)[j - 1];
      }
    }
  }

  /** One edge `(pts[t], pts[t+1])` for each listed index `t` other than the last index. */
  function EdgesAt(pts: seq<Vec2>, idxs: seq<int>): seq<Segment>
    requires IndicesIn(idxs, 0, |pts|)
  {
    if |idxs| == 0 then []
    else
      var t := idxs[|idxs| - 1];
      EdgesAt(pts, idxs[..|idxs| - 1]) + (if t != |pts| - 1 then [Segment(pts[t], pts[t + 1])] else [])
  }

  /** The segment list of a path: an edge at the start and at each corner. */
  function SegmentsOf(pts: seq<Vec2>): seq<Segment>
    requires |pts| >= 1
  {
    CornersWithEndsIn(pts);
    EdgesAt(pts, CornersWithEnds(pts))
  }

  lemma {:induction false} EdgesAtAll(pts: seq<Vec2>, idxs: seq<int>)
    requires IndicesIn(idxs, 0, |pts| - 1)
    ensures |EdgesAt(pts, idxs)| == |idxs|
    ensures forall k :: 0 <= k < |idxs| ==> EdgesAt(pts, idxs)[k] == Segment(pts[idxs[k]], pts[idxs[k] + 1])
  {
    if |idxs| > 0 {
      EdgesAtAll(pts, idxs[..|idxs| - 1]);
    }
  }

  /**
   * For a path of at least two points there is one segment more than there are
   * corners, and segment k is the single edge starting at the k-th entry of
   * CornersWithEnds.
   */
  lemma SegmentsShape(pts: seq<Vec2>)
    requires |pts| >= 2
    ensures |SegmentsOf(pts)| == |Corners(pts)| + 1
    ensures forall k :: 0 <= k < |SegmentsOf(pts)| ==> 0 <= CornersWithEnds(pts)[k] < |pts| - 1
    ensures forall k :: 0 <= k < |SegmentsOf(pts)| ==>
              SegmentsOf(pts)[k] == Segment(pts[CornersWithEnds(pts)[k]], pts[CornersWithEnds(pts)[k] + 1])
  {
    var w := CornersWithEnds(pts);
    CornersSpec(pts);
    var front := w[..|w| - 1];
    assert front == [0] + Corners(pts);
    EdgesAtAll(pts, front);
    assert SegmentsOf(pts) == EdgesAt(pts, front);
  }

  /** When every interior point is a corner, the segments are exactly the consecutive edges. */
  lemma AllCornersSegments(pts: seq<Vec2>)
    requires |pts| >= 2
    requires forall i :: 0 < i < |pts| - 1 ==> IsCorner(pts, i)
    ensures |SegmentsOf(pts)| == |pts| - 1
    ensures forall k :: 0 <= k < |pts| - 1 ==> SegmentsOf(pts)[k] == Segment(pts[k], pts[k + 1])
  {
    AllCornersBelow(pts, |pts| - 1);
    SegmentsShape(pts);
    var w := CornersWithEnds(pts);
    forall k | 0 <= k < |pts| - 1
      ensures w[k] == k
    {
      if k > 0 {
        assert w[k] == Corners(pts)[k - 1];
      }
    }
  }

  // ---------------------------------------------------------------------
  // Shared points, doorways

  /** Some point of `pts` also occurs in `others` (a search that stops at the first hit). */
  function SharesPoint(pts: seq<Vec2>, others: seq<Vec2>): (r: bool)
    ensures r <==> exists i :: 0 <= i < |pts| && pts[i] in others
  {
    if |pts| == 0 then false
    else if pts[0] in others then true
    else
      var rest := SharesPoint(pts[1..], others);
      assert forall i :: 1 <= i < |pts| ==> pts[i] == pts[1..][i - 1];
      rest
  }

  /** The index of the first occurrence of `x` in `s`. */
  function FirstIndex(s: seq<Vec2>, x: Vec2): (i: nat)
    requires x in s
    ensures i < |s| && s[i] == x && x !in s[..i]
  {
    if s[0] == x then 0
    else
      assert x in s[1..] by { assert s == [s[0]] + s[1..]; }
      var j := FirstIndex(s[1..], x);
      assert s[..j + 1] == [s[0]] + s[1..][..j];
      j + 1
  }

  /** `List.Remove`: drops the first occurrence of `x`, if any. */
  function RemoveFirst(s: seq<Vec2>, x: Vec2): (r: seq<Vec2>)
    ensures multiset(r) == multiset(s) - multiset{x}
    ensures x !in s ==> r == s
  {
    if |s| == 0 then []
    else
      assert s == [s[0]] + s[1..];
      if s[0] == x then s[1..] else [s[0]] + RemoveFirst(s[1..], x)
  }

  /** `RemoveFirst` deletes exactly the first occurrence and keeps the order of the rest. */
  lemma {:induction false} RemoveFirstAt(s: seq<Vec2>, x: Vec2)
    requires x in s
    ensures RemoveFirst(s, x) == s[..FirstIndex(s, x)] + s[FirstIndex(s, x) + 1..]
  {
    if s[0] != x {
      var t := s[1..];
      var i :| 0 <= i < |s| && s[i] == x;
      assert t[i - 1] == x;
      var j := FirstIndex(t, x);
      assert FirstIndex(s, x) == j + 1;
      assert RemoveFirst(s, x) == [s[0]] + RemoveFirst(t, x);
      RemoveFirstAt(t, x);
      DropShift(s, j);
    }
  }

  /** Dropping index `j + 1` of `s` is keeping `s[0]` and dropping index `j` of the tail. */
  lemma DropShift(s: seq<Vec2>, j: nat)
    requires j + 1 < |s|
    ensures s[..j + 1] + s[j + 2..] == [s[0]] + (s[1..][..j] + s[1..][j + 1..])
  {
    assert s[..j + 1] == [s[0]] + s[1..][..j];
    assert s[j + 2..] == s[1..][j + 1..];
  }

  /** The doorways of an end room as a bag with one copy of each; nothing for an open end. */
  function DoorBag(room: Option<Room>): multiset<Vec2> {
    if room.Some? then multiset(room.value.doorways) else multiset{}
  }

  lemma BagStep(m: multiset<Vec2>, done: set<Vec2>, d: Vec2)
    requires d !in done
    ensures m - multiset(done) - multiset{d} == m - multiset(done + {d})
  {
    assert multiset(done + {d}) == multiset(done) + multiset{d};
  }

  /** Removes the first occurrence of every doorway, visiting the set in any order. */
  method RemoveEach(s: seq<Vec2>, doors: set<Vec2>) returns (r: seq<Vec2>)
    ensures multiset(r) == multiset(s) - multiset(doors)
  {
    r := s;
    var rest := doors;
    while rest != {}
      invariant rest <= doors
      invariant multiset(r) == multiset(s) - multiset(doors - rest)
      decreases |rest|
    {
      var d :| d in rest;
      BagStep(multiset(s), doors - rest, d);
      assert doors - (rest - {d}) == (doors - rest) + {d};
      r := RemoveFirst(r, d);
      rest := rest - {d};
    }
    assert doors - rest == doors;
  }

  // ---------------------------------------------------------------------
  // Cut

  /**
   * The points that the cutting loop appends from loop index `i` on, with
   * `copy` telling whether copying has begun. On an edge that contains `from`,
   * `from` is appended and copying goes on from the next point (the `i++`
   * inside the loop body).
   */
  function CutWalk(pts: seq<Vec2>, from: Vec2, to: Vec2, i: nat, copy: bool): seq<Vec2>
    decreases |pts| - i, 1
  {
    if i + 1 >= |pts| then []
    else if Segment(pts[i], pts[i + 1]).Contains(from) then [from] + CopyAt(pts, from, to, i + 1)
    else if copy then CopyAt(pts, from, to, i)
    else CutWalk(pts, from, to, i + 1, false)
  }

  /**
   * The copying step at point `j`: the point is appended, and the walk stops
   * at the last point or once the edge from `j` contains `to` (which is then
   * appended).
   */
  function CopyAt(pts: seq<Vec2>, from: Vec2, to: Vec2, j: nat): seq<Vec2>
    requires j < |pts|
    decreases |pts| - j, 0
  {
    if j + 1 >= |pts| then [pts[j]]
    else if Segment(pts[j], pts[j + 1]).Contains(to) then [pts[j], to]
    else [pts[j]] + CutWalk(pts, from, to, j + 1, true)
  }

  /** The cutting loop: walks the edges, starts copying at `from`, stops after `to`. */
  method CutPoints(pts: seq<Vec2>, f: Vec2, t: Vec2) returns (newPath: seq<Vec2>)
    ensures newPath == CutWalk(pts, f, t, 0, false)
  {
    newPath := [];
    var copy := false;
    var i: nat := 0;
    while i < |pts| - 1
      invariant newPath + CutWalk(pts, f, t, i, copy) == CutWalk(pts, f, t, 0, false)
    {
      if Segment(pts[i], pts[i + 1]).Contains(f) {
        copy := true;
        newPath := newPath + [f];
        i := i + 1;
      }
      if copy {
        ghost var mid := newPath;
        assert mid + CopyAt(pts, f, t, i) == CutWalk(pts, f, t, 0, false);
        newPath := newPath + [pts[i]];
        if i >= |pts| - 1 {
          assert newPath == mid + [pts[i]];
          break;
        }
        var lastSeg := Segment(newPath[|newPath| - 1], pts[i + 1]);
        if lastSeg.Contains(t) {
          newPath := newPath + [t];
          assert newPath == mid + [pts[i], t];
          break;
        }
        assert newPath + CutWalk(pts, f, t, i + 1, true) == mid + CopyAt(pts, f, t, i);
      }
      i := i + 1;
    }
  }

  /** No edge from index `i` on contains `q`. */
  predicate NoEdgeContains(pts: seq<Vec2>, q: Vec2, i: nat) {
    forall k :: i <= k < |pts| - 1 ==> !Segment(pts[k], pts[k + 1]).Contains(q)
  }

  /** Before copying has begun, the cut is empty exactly when no edge contains `from`; otherwise it starts with `from`. */
  lemma {:induction false} CutWalkStart(pts: seq<Vec2>, from: Vec2, to: Vec2, i: nat)
    ensures CutWalk(pts, from, to, i, false) == [] <==> NoEdgeContains(pts, from, i)
    ensures CutWalk(pts, from, to, i, false) != [] ==> CutWalk(pts, from, to, i, false)[0] == from
    decreases |pts| - i
  {
    if i + 1 < |pts| && !Segment(pts[i], pts[i + 1]).Contains(from) {
      CutWalkStart(pts, from, to, i + 1);
    }
  }

  /** Pairwise distinct points. */
  predicate Distinct(s: seq<Vec2>) {
    forall i, j :: 0 <= i < j < |s| ==> s[i] != s[j]
  }

  /** Consecutive points one grid step apart. */
  predicate UnitSteps(s: seq<Vec2>) {
    forall i :: 0 <= i < |s| - 1 ==> Adjacent(s[i], s[i + 1])
  }

  lemma {:induction false} CutWalkCopiesTail(pts: seq<Vec2>, i: nat)
    requires UnitSteps(pts) && Distinct(pts)
    requires 1 <= i <= |pts| - 2
    ensures CutWalk(pts, pts[0], pts[|pts| - 1], i, true) == pts[i..]
    decreases |pts| - i
  {
    UnitSegmentContains(pts[i], pts[i + 1], pts[0]);
    UnitSegmentContains(pts[i], pts[i + 1], pts[|pts| - 1]);
    if i + 1 < |pts| - 1 {
      CutWalkCopiesTail(pts, i + 1);
      assert pts[i..] == [pts[i]] + pts[i + 1..];
    } else {
      assert pts[i..] == [pts[i], pts[i + 1]];
    }
  }

  /** Cutting from the first to the last point of a path of distinct unit steps gives back every point. */
  lemma CutWalkWhole(pts: seq<Vec2>)
    requires UnitSteps(pts) && Distinct(pts)
    requires |pts| >= 2
    ensures CutWalk(pts, pts[0], pts[|pts| - 1], 0, false) == pts
  {
    var first, last := pts[0], pts[|pts| - 1];
    ContainsEnds(Segment(pts[0], pts[1]));
    assert CutWalk(pts, first, last, 0, false) == [first] + CopyAt(pts, first, last, 1);
    if |pts| == 2 {
      assert CopyAt(pts, first, last, 1) == [pts[1]];
    } else if |pts| == 3 {
      ContainsEnds(Segment(pts[1], pts[2]));
      assert CopyAt(pts, first, last, 1) == [pts[1], last];
    } else {
      UnitSegmentContains(pts[1], pts[2], last);
      CutWalkCopiesTail(pts, 2);
      assert CopyAt(pts, first, last, 1) == [pts[1]] + pts[2..];
      assert pts == [pts[0], pts[1]] + pts[2..];
    }
  }

  lemma {:induction false} CutWalkSkipsTo(pts: seq<Vec2>, k: nat, to: Vec2, i: nat)
    requires UnitSteps(pts) && Distinct(pts)
    requires 1 <= k < |pts| && i <= k - 1
    ensures CutWalk(pts, pts[k], to, i, false) == CutWalk(pts, pts[k], to, k - 1, false)
    decreases k - i
  {
    if i < k - 1 {
      UnitSegmentContains(pts[i], pts[i + 1], pts[k]);
      CutWalkSkipsTo(pts, k, to, i + 1);
    }
  }

  /**
   * Once copying is under way at index `i` and `from` is a point at or before
   * `i`, the walk copies points up to and including `to = pts[m]` and stops.
   */
  lemma {:induction false} CopyAtEndsAt(pts: seq<Vec2>, k: nat, m: nat, i: nat)
    requires UnitSteps(pts) && Distinct(pts)
    requires k <= i < m < |pts|
    ensures CopyAt(pts, pts[k], pts[m], i) == pts[i..m + 1]
    decreases m - i
  {
    UnitSegmentContains(pts[i], pts[i + 1], pts[m]);
    if i + 1 < m {
      UnitSegmentContains(pts[i + 1], pts[i + 2], pts[k]);
      assert CutWalk(pts, pts[k], pts[m], i + 1, true) == CopyAt(pts, pts[k], pts[m], i + 1);
      CopyAtEndsAt(pts, k, m, i + 1);
      assert pts[i..m + 1] == [pts[i]] + pts[i + 1..m + 1];
    } else {
      assert pts[i..m + 1] == [pts[i], pts[i + 1]];
    }
  }

  /** Cutting distinct unit steps from the first point to a point `pts[m]`, m >= 2, ends exactly at `pts[m]`. */
  lemma CutWalkEndsAt(pts: seq<Vec2>, m: nat)
    requires UnitSteps(pts) && Distinct(pts)
    requires 2 <= m < |pts|
    ensures CutWalk(pts, pts[0], pts[m], 0, false) == pts[..m + 1]
  {
    ContainsEnds(Segment(pts[0], pts[1]));
    assert CutWalk(pts, pts[0], pts[m], 0, false) == [pts[0]] + CopyAt(pts, pts[0], pts[m], 1);
    CopyAtEndsAt(pts, 0, m, 1);
    assert pts[..m + 1] == [pts[0]] + pts[1..m + 1];
  }

  /**
   * Cutting distinct unit steps from an interior point `pts[k]` to a later
   * point `pts[m]` gives `pts[k..m]` with its first point repeated.
   */
  lemma CutWalkBetween(pts: seq<Vec2>, k: nat, m: nat)
    requires UnitSteps(pts) && Distinct(pts)
    requires 1 <= k < m < |pts|
    ensures CutWalk(pts, pts[k], pts[m], 0, false) == [pts[k]] + pts[k..m + 1]
  {
    CutWalkSkipsTo(pts, k, pts[m], 0);
    ContainsEnds(Segment(pts[k - 1], pts[k]));
    assert CutWalk(pts, pts[k], pts[m], k - 1, false) == [pts[k]] + CopyAt(pts, pts[k], pts[m], k);
    CopyAtEndsAt(pts, k, m, k);
  }

  /**
   * Cutting a path of distinct unit steps at one of its points other than the
   * first repeats that point: the cut starts with `pts[k], pts[k]`.
   */
  lemma CutAtVertexRepeatsStart(pts: seq<Vec2>, k: nat, to: Vec2)
    requires UnitSteps(pts) && Distinct(pts)
    requires 1 <= k < |pts|
    ensures |CutWalk(pts, pts[k], to, 0, false)| >= 2
    ensures CutWalk(pts, pts[k], to, 0, false)[0] == pts[k]
    ensures CutWalk(pts, pts[k], to, 0, false)[1] == pts[k]
  {
    CutWalkSkipsTo(pts, k, to, 0);
    ContainsEnds(Segment(pts[k - 1], pts[k]));
  }

  // ---------------------------------------------------------------------
  // The path

  /** A corridor path: its points and the rooms at its two ends (`None` for an open end). */
  datatype Path = Path(points: seq<Vec2>, fromRoom: Option<Room>, toRoom: Option<Room>) {

    /** The two end rooms, always a two-element list (open ends included). */
    function Rooms(): (r: seq<Option<Room>>)
      ensures |r| == 2 && r[0] == fromRoom && r[1] == toRoom
    {
      [fromRoom, toRoom]
    }

    /** The points without the end rooms' doorways, as a bag. */
    function DoorlessPoints(): multiset<Vec2> {
      multiset(points) - DoorBag(fromRoom) - DoorBag(toRoom)
    }

    /** The points in reverse order. */
    method PointsReverse() returns (r: seq<Vec2>)
      ensures |r| == |points|
      ensures forall i :: 0 <= i < |points| ==> r[i] == points[|points| - 1 - i]
    {
      r := [];
      var i := |points| - 1;
      while i >= 0
        invariant -1 <= i < |points|
        invariant |r| == |points| - 1 - i
        invariant forall k :: 0 <= k < |r| ==> r[k] == points[|points| - 1 - k]
      {
        r := r + [points[i]];
        i := i - 1;
      }
    }

    /**
     * The points with the first occurrence of each doorway of the from-room
     * removed, then the same for the to-room.
     */
    method PointsNoDoors() returns (r: seq<Vec2>)
      ensures multiset(r) == DoorlessPoints()
    {
      r := points;
      if fromRoom.Some? {
        r := RemoveEach(r, fromRoom.value.doorways);
      }
      assert multiset(r) == multiset(points) - DoorBag(fromRoom);
      if toRoom.Some? {
        r := RemoveEach(r, toRoom.value.doorways);
      }
    }

    /** The corner indices, in order. */
    method CornerIndices() returns (r: seq<int>)
      ensures r == Corners(points)
    {
      r := [];
      var idx := 1;
      while idx < |points| - 1
        invariant 1 <= idx <= Max(1, |points| - 1)
        invariant r == CornersBelow(points, idx)
      {
        var prevCoord := points[idx - 1];
        var nextCoord := points[idx + 1];
        if prevCoord.x != nextCoord.x && prevCoord.y != nextCoord.y {
          r := r + [idx];
        }
        idx := idx + 1;
      }
    }

    /** The corner indices with index 0 in front and the last index behind. */
    method CornerIndicesWithEnds() returns (r: seq<int>)
      ensures r == CornersWithEnds(points)
    {
      r := [0];
      var idx := 1;
      while idx < |points| - 1
        invariant 1 <= idx <= Max(1, |points| - 1)
        invariant r == [0] + CornersBelow(points, idx)
      {
        var prevCoord := points[idx - 1];
        var nextCoord := points[idx + 1];
        if prevCoord.x != nextCoord.x && prevCoord.y != nextCoord.y {
          r := r + [idx];
        }
        idx := idx + 1;
      }
      r := r + [|points| - 1];
    }

    /** The segment list: one edge for every entry of CornerIndicesWithEnds but the last index. */
    method Segments() returns (r: seq<Segment>)
      requires |points| >= 1
      ensures r == SegmentsOf(points)
    {
      var ends := CornerIndicesWithEnds();
      CornersWithEndsIn(points);
      r := [];
      for k := 0 to |ends|
        invariant r == EdgesAt(points, ends[..k])
      {
        var turnIdx := ends[k];
        assert ends[..k + 1][..k] == ends[..k];
        if turnIdx != |points| - 1 {
          r := r + [Segment(points[turnIdx], points[turnIdx + 1])];
        }
      }
      assert ends[..|ends|] == ends;
    }

    /** Whether the point at `index` is interior and its neighbours share x or y. */
    function IsStraightaway(index: int): (r: bool)
      ensures r ==> 0 < index < |points| - 1
      ensures 0 < index < |points| - 1 ==> (r <==> index !in Corners(points))
    {
      if index <= 0 || index >= |points| - 1 then false
      else
        CornersSpec(points);
        var prevCoord := points[index - 1];
        var nextCoord := points[index + 1];
        prevCoord.x == nextCoord.x || prevCoord.y == nextCoord.y
    }

    /** Some point of this path is also a point of `other`. */
    function Intersects(other: Path): (r: bool)
      ensures r <==> exists i :: 0 <= i < |points| && points[i] in other.points
    {
      SharesPoint(points, other.points)
    }

    /**
     * The single-point crossings of every segment of this path with every
     * segment of `other`, in order; `meet` is the segment library's
     * intersection test, which is not part of this model.
     */
    method GetIntersections(other: Path, meet: (Segment, Segment) -> Option<Vec2>) returns (r: seq<Vec2>)
      requires |points| >= 1
      requires |SegmentsOf(points)| > 0 ==> |other.points| >= 1
      ensures |SegmentsOf(points)| == 0 ==> r == []
      ensures |SegmentsOf(points)| > 0 ==> r == Crossings(SegmentsOf(points), SegmentsOf(other.points), meet)
    {
      var mine := Segments();
      r := [];
      for i := 0 to |mine|
        invariant i == 0 ==> r == []
        invariant i > 0 ==> r == Crossings(mine[..i], SegmentsOf(other.points), meet)
      {
        var theirs := other.Segments();
        ghost var before := r;
        for j := 0 to |theirs|
          invariant r == before + HitsWith(mine[i], theirs[..j], meet)
        {
          var possibleInt := meet(mine[i], theirs[j]);
          assert theirs[..j + 1][..j] == theirs[..j];
          if possibleInt.Some? {
            r := r + [possibleInt.value];
          }
        }
        assert theirs[..|theirs|] == theirs;
        assert mine[..i + 1][..i] == mine[..i];
        assert Crossings(mine[..i + 1], theirs, meet) == Crossings(mine[..i], theirs, meet) + HitsWith(mine[i], theirs, meet);
      }
      assert mine[..|mine|] == mine;
    }

    /**
     * The sub-path from `from` (this path's first point when absent) to `to`
     * (its last point when absent). The from-room is kept when `from` is absent
     * or `cutRooms` is false, and likewise the to-room.
     */
    method Cut(from: Option<Vec2>, to: Option<Vec2>, cutRooms: bool) returns (r: Path)
      requires (from.None? || to.None?) ==> |points| >= 1
      ensures var f := if from.Some? then from.value else points[0];
              var t := if to.Some? then to.value else points[|points| - 1];
              r.points == CutWalk(points, f, t, 0, false)
      ensures r.fromRoom == if from.None? || !cutRooms then fromRoom else None
      ensures r.toRoom == if to.None? || !cutRooms then toRoom else None
      ensures var f := if from.Some? then from.value else points[0];
              (r.points == [] <==> NoEdgeContains(points, f, 0)) &&
              (r.points != [] ==> r.points[0] == f)
      ensures from.None? && to.None? && |points| >= 2 && UnitSteps(points) && Distinct(points) ==> r == this
    {
      var f: Vec2;
      var fromR: Option<Room> := None;
      var t: Vec2;
      var toR: Option<Room> := None;
      if from.None? {
        f := points[0];
        fromR := fromRoom;
      } else {
        f := from.value;
        if !cutRooms { fromR := fromRoom; }
      }
      if to.None? {
        t := points[|points| - 1];
        toR := toRoom;
      } else {
        t := to.value;
        if !cutRooms { toR := toRoom; }
      }

      var newPath := CutPoints(points, f, t);
      CutWalkStart(points, f, t, 0);
      r := Path(newPath, fromR, toR);
      if from.None? && to.None? && |points| >= 2 && UnitSteps(points) && Distinct(points) {
        CutWalkWhole(points);
      }
    }

    /** Either end room equals `room` (an open end matches `None`). */
    function ConnectsTo(room: Option<Room>): (r: bool)
      ensures r <==> room == fromRoom || room == toRoom
    {
      room in Rooms()
    }
  }

  /** Sharing a point is symmetric. */
  lemma IntersectsSymmetric(p: Path, q: Path)
    ensures p.Intersects(q) <==> q.Intersects(p)
  {
    if p.Intersects(q) {
      var i :| 0 <= i < |p.points| && p.points[i] in q.points;
      var j :| 0 <= j < |q.points| && q.points[j] == p.points[i];
    }
    if q.Intersects(p) {
      var j :| 0 <= j < |q.points| && q.points[j] in p.points;
      var i :| 0 <= i < |p.points| && p.points[i] == q.points[j];
    }
  }

  // ---------------------------------------------------------------------
  // Crossings of two segment lists

  /** The crossings of `a` with each of `bs`, in order. */
  function HitsWith(a: Segment, bs: seq<Segment>, meet: (Segment, Segment) -> Option<Vec2>): seq<Vec2> {
    if |bs| == 0 then []
    else
      var m := meet(a, bs[|bs| - 1]);
      HitsWith(a, bs[..|bs| - 1], meet) + (if m.Some? then [m.value] else [])
  }

  /** The crossings of each of `ss` with each of `bs`, outer list first. */
  function Crossings(ss: seq<Segment>, bs: seq<Segment>, meet: (Segment, Segment) -> Option<Vec2>): seq<Vec2> {
    if |ss| == 0 then []
    else Crossings(ss[..|ss| - 1], bs, meet) + HitsWith(ss[|ss| - 1], bs, meet)
  }

  /** A point is among the crossings of `a` with `bs` exactly when `meet` yields it for some `b` of `bs`. */
  lemma {:induction false} HitsWithMember(a: Segment, bs: seq<Segment>, meet: (Segment, Segment) -> Option<Vec2>, x: Vec2)
    ensures x in HitsWith(a, bs, meet) <==> exists j :: 0 <= j < |bs| && meet(a, bs[j]) == Some(x)
  {
    if |bs| > 0 {
      var front := bs[..|bs| - 1];
      HitsWithMember(a, front, meet, x);
      if exists j :: 0 <= j < |bs| && meet(a, bs[j]) == Some(x) {
        var j :| 0 <= j < |bs| && meet(a, bs[j]) == Some(x);
        if j < |bs| - 1 {
          assert front[j] == bs[j];
        }
      }
      if x in HitsWith(a, front, meet) {
        var j :| 0 <= j < |front| && meet(a, front[j]) == Some(x);
        assert front[j] == bs[j];
      }
    }
  }

  /**
   * A point is among the crossings exactly when it is among the crossings of
   * some segment of `ss` with `bs` (and so, by HitsWithMember, when `meet`
   * yields it for some pair).
   */
  lemma {:induction false} CrossingsMember(ss: seq<Segment>, bs: seq<Segment>, meet: (Segment, Segment) -> Option<Vec2>, x: Vec2)
    ensures x in Crossings(ss, bs, meet) <==> exists i :: 0 <= i < |ss| && x in HitsWith(ss[i], bs, meet)
  {
    if |ss| > 0 {
      var front := ss[..|ss| - 1];
      CrossingsMember(front, bs, meet, x);
      if exists i :: 0 <= i < |ss| && x in HitsWith(ss[i], bs, meet) {
        var i :| 0 <= i < |ss| && x in HitsWith(ss[i], bs, meet);
        if i < |ss| - 1 {
          assert front[i] == ss[i];
        }
      }
      if x in Crossings(front, bs, meet) {
        var i :| 0 <= i < |front| && x in HitsWith(front[i], bs, meet);
        assert front[i] == ss[i];
      }
    }
  }
}
