/**
 * The tunnel network of src/core/Tunnel.cs: a growing list of corridor paths.
 * `Add` splits an incoming path at the points where it meets coordinates the
 * network already had and appends one sub-path per run between those points.
 * `AddedFrom` follows the loop of `Add` index by index; `AddedFromRuns`
 * shows it equals the slices of the runs given by `RunsFrom`/`Runs`, and the
 * lemmas below state which runs come out and which rooms each sub-path
 * receives.
 */
module TunnelNetworks {
  import opened Wrappers
  import opened Geometry
  import opened TunnelPath

  /** The exceptions the network code throws. */
  datatype NetworkError = NullRoom | PathDoesNotIntersect

  function PointSet(pts: seq<Vec2>): set<Vec2> {
    set c | c in pts
  }

  /** The distinct elements of a bag. */
  function Support(m: multiset<Vec2>): set<Vec2> {
    set c | c in m
  }

  // ---------------------------------------------------------------------
  // Folds over the path list

  /** The union of `f` over the paths, taken front to back. */
  function UnionOver(ps: seq<Path>, f: Path -> set<Vec2>): set<Vec2> {
    if |ps| == 0 then {} else UnionOver(ps[..|ps| - 1], f) + f(ps[|ps| - 1])
  }

  lemma {:induction false} UnionOverMember(ps: seq<Path>, f: Path -> set<Vec2>, c: Vec2)
    ensures c in UnionOver(ps, f) <==> exists k :: 0 <= k < |ps| && c in f(ps[k])
  {
    if |ps| > 0 {
      var front := ps[..|ps| - 1];
      UnionOverMember(front, f, c);
      if c in UnionOver(front, f) {
        var k :| 0 <= k < |front| && c in f(front[k]);
        assert front[k] == ps[k];
      }
      if exists k :: 0 <= k < |ps| && c in f(ps[k]) {
        var k :| 0 <= k < |ps| && c in f(ps[k]);
        if k < |ps| - 1 {
          assert front[k] == ps[k];
        }
      }
    }
  }

  /** The coordinates of one path. */
  function PathCoords(p: Path): set<Vec2> {
    PointSet(p.points)
  }

  /** The coordinates of one path once its end rooms' doorways are taken out. */
  function DoorlessCoords(p: Path): set<Vec2> {
    Support(p.DoorlessPoints())
  }

  /** Every coordinate of every path, doorways included. */
  function AllCoords(ps: seq<Path>): set<Vec2> {
    UnionOver(ps, PathCoords)
  }

  /** Every coordinate left on some path once its end rooms' doorways are taken out. */
  function AllDoorlessCoords(ps: seq<Path>): set<Vec2> {
    UnionOver(ps, DoorlessCoords)
  }

  /** A coordinate is in the network exactly when some path goes through it. */
  lemma AllCoordsMember(ps: seq<Path>, c: Vec2)
    ensures c in AllCoords(ps) <==> exists k :: 0 <= k < |ps| && c in ps[k].points
  {
    UnionOverMember(ps, PathCoords, c);
  }

  /**
   * A coordinate is in the doorless coordinate set exactly when some path
   * keeps it once its end rooms' doorways are taken out.
   */
  lemma AllDoorlessCoordsMember(ps: seq<Path>, c: Vec2)
    ensures c in AllDoorlessCoords(ps) <==>
            exists k :: 0 <= k < |ps| && c in multiset(ps[k].points) - DoorBag(ps[k].fromRoom) - DoorBag(ps[k].toRoom)
  {
    UnionOverMember(ps, DoorlessCoords, c);
  }

  /** Every end room of every path, open ends (`None`) included. */
  function RoomSet(ps: seq<Path>): (r: set<Option<Room>>)
    ensures forall x :: x in r <==> exists k :: 0 <= k < |ps| && x in ps[k].Rooms()
  {
    if |ps| == 0 then {}
    else
      var front := RoomSet(ps[..|ps| - 1]);
      assert forall k :: 0 <= k < |ps| - 1 ==> ps[..|ps| - 1][k] == ps[k];
      front + {ps[|ps| - 1].fromRoom, ps[|ps| - 1].toRoom}
  }

  predicate NonEmptyPaths(ps: seq<Path>) {
    forall k :: 0 <= k < |ps| ==> |ps[k].points| >= 1
  }

  /** The segment lists of all paths, one after the other. */
  function NetSegments(ps: seq<Path>): seq<Segment>
    requires NonEmptyPaths(ps)
  {
    if |ps| == 0 then [] else NetSegments(ps[..|ps| - 1]) + SegmentsOf(ps[|ps| - 1].points)
  }

  /** Some path of `ps` shares a point with `p` (searched front to back). */
  function AnyIntersects(ps: seq<Path>, p: Path): (r: bool)
    ensures r <==> exists k :: 0 <= k < |ps| && ps[k].Intersects(p)
  {
    if |ps| == 0 then false
    else if ps[0].Intersects(p) then true
    else
      var rest := AnyIntersects(ps[1..], p);
      assert forall k :: 1 <= k < |ps| ==> ps[k] == ps[1..][k - 1];
      rest
  }

  /** Some path of `ps` has `room` at one of its ends. */
  function AnyConnects(ps: seq<Path>, room: Room): (r: bool)
    ensures r <==> exists k :: 0 <= k < |ps| && (ps[k].fromRoom == Some(room) || ps[k].toRoom == Some(room))
  {
    if |ps| == 0 then false
    else if ps[0].ConnectsTo(Some(room)) then true
    else
      var rest := AnyConnects(ps[1..], room);
      assert forall k :: 1 <= k < |ps| ==> ps[k] == ps[1..][k - 1];
      rest
  }

  lemma {:induction false} AllCoordsAppend(a: seq<Path>, b: seq<Path>)
    ensures AllCoords(a + b) == AllCoords(a) + AllCoords(b)
  {
    forall c
      ensures c in AllCoords(a + b) <==> c in AllCoords(a) + AllCoords(b)
    {
      AllCoordsMember(a + b, c);
      AllCoordsMember(a, c);
      AllCoordsMember(b, c);
      if c in AllCoords(a + b) {
        var k :| 0 <= k < |a + b| && c in (a + b)[k].points;
        if k >= |a| {
          assert (a + b)[k] == b[k - |a|];
        }
      }
      if c in AllCoords(b) {
        var k :| 0 <= k < |b| && c in b[k].points;
        assert (a + b)[|a| + k] == b[k];
      }
      if c in AllCoords(a) {
        var k :| 0 <= k < |a| && c in a[k].points;
        assert (a + b)[k] == a[k];
      }
    }
  }

  lemma NonEmptyPathsAppend(a: seq<Path>, b: seq<Path>)
    requires NonEmptyPaths(a) && NonEmptyPaths(b)
    ensures NonEmptyPaths(a + b)
  {
    forall k | 0 <= k < |a + b|
      ensures |(a + b)[k].points| >= 1
    {
      if k >= |a| {
        assert (a + b)[k] == b[k - |a|];
      }
    }
  }

  lemma {:induction false} NetSegmentsAppend(a: seq<Path>, b: seq<Path>)
    requires NonEmptyPaths(a) && NonEmptyPaths(b)
    ensures NonEmptyPaths(a + b)
    ensures NetSegments(a + b) == NetSegments(a) + NetSegments(b)
    decreases |b|
  {
    NonEmptyPathsAppend(a, b);
    if |b| == 0 {
      assert a + b == a;
    } else {
      var b' := b[..|b| - 1];
      NetSegmentsAppend(a, b');
      assert (a + b)[..|a + b| - 1] == a + b';
    }
  }

  /** One more path adds its coordinates to both folds. */
  lemma CoordsPrefixStep(ps: seq<Path>, i: int)
    requires 0 <= i < |ps|
    ensures AllCoords(ps[..i + 1]) == AllCoords(ps[..i]) + PointSet(ps[i].points)
    ensures AllDoorlessCoords(ps[..i + 1]) == AllDoorlessCoords(ps[..i]) + DoorlessCoords(ps[i])
  {
    assert ps[..i + 1][..i] == ps[..i];
    assert ps[..i + 1][i] == ps[i];
  }

  /** Coordinates without doorways are coordinates. */
  lemma DoorlessWithinAll(ps: seq<Path>)
    ensures AllDoorlessCoords(ps) <= AllCoords(ps)
  {
    forall c | c in AllDoorlessCoords(ps)
      ensures c in AllCoords(ps)
    {
      UnionOverMember(ps, DoorlessCoords, c);
      AllCoordsMember(ps, c);
      var k :| 0 <= k < |ps| && c in DoorlessCoords(ps[k]);
      assert c in multiset(ps[k].points);
    }
  }

  // ---------------------------------------------------------------------
  // The runs of Add

  /** A run of an incoming path: the indices `lo` through `hi`. */
  datatype Span = Span(lo: int, hi: int)

  /** Index `j` ends a run: its point was already in the network, or it is the last index. */
  predicate IsAnchor(pts: seq<Vec2>, coords: set<Vec2>, j: int)
    requires 0 <= j < |pts|
  {
    pts[j] in coords || j == |pts| - 1
  }

  /**
   * The runs `Add` emits from loop state (`start`, `idx`) on. At an anchor one
   * step past `start` only `start` moves; at any other anchor the run from
   * `start` to the anchor is emitted and `start` moves to the anchor.
   */
  function RunsFrom(pts: seq<Vec2>, coords: set<Vec2>, start: int, idx: int): (rs: seq<Span>)
    requires 0 <= start < idx
    ensures forall k :: 0 <= k < |rs| ==> start <= rs[k].lo && rs[k].lo + 2 <= rs[k].hi < |pts|
    decreases |pts| - idx
  {
    if idx >= |pts| then []
    else if pts[idx] in coords || idx == |pts| - 1 then
      if idx == start + 1 then RunsFrom(pts, coords, idx, idx + 1)
      else [Span(start, idx)] + RunsFrom(pts, coords, idx, idx + 1)
    else RunsFrom(pts, coords, start, idx + 1)
  }

  /** The runs of a whole incoming path. */
  function Runs(pts: seq<Vec2>, coords: set<Vec2>): seq<Span> {
    RunsFrom(pts, coords, 0, 1)
  }

  /** Where the run before run `k` ended (`start` for the first run). */
  function PrevEnd(rs: seq<Span>, start: int, k: int): int
    requires 0 <= k <= |rs|
  {
    if k == 0 then start else rs[k - 1].hi
  }

  /** No index strictly between `start` and `idx` is an anchor. */
  predicate NoAnchorsBetween(pts: seq<Vec2>, coords: set<Vec2>, start: int, idx: int) {
    forall j :: start < j < idx && 0 <= j < |pts| ==> !IsAnchor(pts, coords, j)
  }

  lemma {:induction false} RunEndsAtAnchor(pts: seq<Vec2>, coords: set<Vec2>, start: int, idx: int, k: int)
    requires 0 <= start < idx
    requires 0 <= k < |RunsFrom(pts, coords, start, idx)|
    ensures IsAnchor(pts, coords, RunsFrom(pts, coords, start, idx)[k].hi)
    decreases |pts| - idx
  {
    if pts[idx] in coords || idx == |pts| - 1 {
      if idx == start + 1 {
        RunEndsAtAnchor(pts, coords, idx, idx + 1, k);
      } else if k > 0 {
        RunEndsAtAnchor(pts, coords, idx, idx + 1, k - 1);
      }
    } else {
      RunEndsAtAnchor(pts, coords, start, idx + 1, k);
    }
  }

  lemma {:induction false} RunsOrdered(pts: seq<Vec2>, coords: set<Vec2>, start: int, idx: int, k: int)
    requires 0 <= start < idx
    requires 0 <= k < |RunsFrom(pts, coords, start, idx)| - 1
    ensures RunsFrom(pts, coords, start, idx)[k].hi <= RunsFrom(pts, coords, start, idx)[k + 1].lo
    decreases |pts| - idx
  {
    if pts[idx] in coords || idx == |pts| - 1 {
      if idx == start + 1 {
        RunsOrdered(pts, coords, idx, idx + 1, k);
      } else if k > 0 {
        RunsOrdered(pts, coords, idx, idx + 1, k - 1);
      }
    } else {
      RunsOrdered(pts, coords, start, idx + 1, k);
    }
  }

  lemma {:induction false} RunInterior(pts: seq<Vec2>, coords: set<Vec2>, start: int, idx: int, k: int, j: int)
    requires 0 <= start < idx
    requires NoAnchorsBetween(pts, coords, start, idx)
    requires 0 <= k < |RunsFrom(pts, coords, start, idx)|
    requires RunsFrom(pts, coords, start, idx)[k].lo < j < RunsFrom(pts, coords, start, idx)[k].hi
    ensures pts[j] !in coords
    decreases |pts| - idx
  {
    if pts[idx] in coords || idx == |pts| - 1 {
      if idx == start + 1 {
        RunInterior(pts, coords, idx, idx + 1, k, j);
      } else if k > 0 {
        RunInterior(pts, coords, idx, idx + 1, k - 1, j);
      } else {
        assert !IsAnchor(pts, coords, j);
      }
    } else {
      RunInterior(pts, coords, start, idx + 1, k, j);
    }
  }

  lemma {:induction false} RunGap(pts: seq<Vec2>, coords: set<Vec2>, start: int, idx: int, k: int, j: int)
    requires 0 <= start < idx
    requires 0 <= k < |RunsFrom(pts, coords, start, idx)|
    requires PrevEnd(RunsFrom(pts, coords, start, idx), start, k) < j <= RunsFrom(pts, coords, start, idx)[k].lo
    ensures IsAnchor(pts, coords, j)
    decreases |pts| - idx
  {
    var rs := RunsFrom(pts, coords, start, idx);
    if pts[idx] in coords || idx == |pts| - 1 {
      var rest := RunsFrom(pts, coords, idx, idx + 1);
      if idx == start + 1 {
        if j > idx || k > 0 {
          assert rs == rest;
          RunGap(pts, coords, idx, idx + 1, k, j);
        }
      } else if k > 0 {
        assert rs == [Span(start, idx)] + rest;
        assert PrevEnd(rs, start, k) == PrevEnd(rest, idx, k - 1);
        RunGap(pts, coords, idx, idx + 1, k - 1, j);
      }
    } else {
      assert rs == RunsFrom(pts, coords, start, idx + 1);
      RunGap(pts, coords, start, idx + 1, k, j);
    }
  }

  lemma {:induction false} RunsTail(pts: seq<Vec2>, coords: set<Vec2>, start: int, idx: int, j: int)
    requires 0 <= start < idx
    requires idx <= |pts| - 1 || start >= |pts| - 1
    requires NoAnchorsBetween(pts, coords, start, idx)
    requires PrevEnd(RunsFrom(pts, coords, start, idx), start, |RunsFrom(pts, coords, start, idx)|) < j < |pts|
    ensures IsAnchor(pts, coords, j)
    decreases |pts| - idx
  {
    var rs := RunsFrom(pts, coords, start, idx);
    if idx < |pts| {
      if pts[idx] in coords || idx == |pts| - 1 {
        var rest := RunsFrom(pts, coords, idx, idx + 1);
        if idx == start + 1 {
          assert rs == rest;
          if j > idx || |rest| > 0 {
            RunsTail(pts, coords, idx, idx + 1, j);
          }
        } else {
          assert rs == [Span(start, idx)] + rest;
          assert PrevEnd(rs, start, |rs|) == PrevEnd(rest, idx, |rest|);
          RunsTail(pts, coords, idx, idx + 1, j);
        }
      } else {
        RunsTail(pts, coords, start, idx + 1, j);
      }
    }
  }

  /**
   * The runs of a whole incoming path: each covers at least two edges, they
   * come in order, no point strictly inside a run was in the network, each run
   * ends at an anchor, and every index between two runs (or before the first
   * one, or after the last one) is an anchor.
   */
  lemma RunsShape(pts: seq<Vec2>, coords: set<Vec2>)
    ensures var rs := Runs(pts, coords);
            forall k :: 0 <= k < |rs| ==> 0 <= rs[k].lo && rs[k].lo + 2 <= rs[k].hi < |pts|
    ensures var rs := Runs(pts, coords);
            forall k :: 0 <= k < |rs| - 1 ==> rs[k].hi <= rs[k + 1].lo
    ensures var rs := Runs(pts, coords);
            forall k, j :: 0 <= k < |rs| && rs[k].lo < j < rs[k].hi ==> pts[j] !in coords
    ensures var rs := Runs(pts, coords);
            forall k :: 0 <= k < |rs| ==> pts[rs[k].hi] in coords || rs[k].hi == |pts| - 1
    ensures var rs := Runs(pts, coords);
            forall k, j :: 0 <= k < |rs| && PrevEnd(rs, 0, k) < j <= rs[k].lo ==> IsAnchor(pts, coords, j)
    ensures var rs := Runs(pts, coords);
            forall j :: PrevEnd(rs, 0, |rs|) < j < |pts| ==> IsAnchor(pts, coords, j)
  {
    var rs := Runs(pts, coords);
    forall k | 0 <= k < |rs| - 1
      ensures rs[k].hi <= rs[k + 1].lo
    {
      RunsOrdered(pts, coords, 0, 1, k);
    }
    forall k, j | 0 <= k < |rs| && rs[k].lo < j < rs[k].hi
      ensures pts[j] !in coords
    {
      RunInterior(pts, coords, 0, 1, k, j);
    }
    forall k | 0 <= k < |rs|
      ensures pts[rs[k].hi] in coords || rs[k].hi == |pts| - 1
    {
      RunEndsAtAnchor(pts, coords, 0, 1, k);
    }
    forall k, j | 0 <= k < |rs| && PrevEnd(rs, 0, k) < j <= rs[k].lo
      ensures IsAnchor(pts, coords, j)
    {
      RunGap(pts, coords, 0, 1, k, j);
    }
    forall j | PrevEnd(rs, 0, |rs|) < j < |pts|
      ensures IsAnchor(pts, coords, j)
    {
      RunsTail(pts, coords, 0, 1, j);
    }
  }

  // ---------------------------------------------------------------------
  // The sub-paths of Add

  predicate SpansIn(rs: seq<Span>, n: int) {
    forall k :: 0 <= k < |rs| ==> 0 <= rs[k].lo <= rs[k].hi < n
  }

  /**
   * The sub-path of `p` for one run: its points, the from-room only when the
   * run starts at index 0, and the to-room only when the run holds the value
   * of the last point.
   */
  function SliceOf(p: Path, s: Span): Path
    requires 0 <= s.lo <= s.hi < |p.points|
  {
    var pts := p.points[s.lo..s.hi + 1];
    Path(pts,
         if s.lo == 0 then p.Rooms()[0] else None,
         if p.points[|p.points| - 1] in pts then p.Rooms()[1] else None)
  }

  /** The sub-paths for a list of runs, one per run and in the same order. */
  function SlicesOf(p: Path, rs: seq<Span>): seq<Path>
    requires SpansIn(rs, |p.points|)
  {
    if |rs| == 0 then [] else [SliceOf(p, rs[0])] + SlicesOf(p, rs[1..])
  }

  lemma {:induction false} SlicesOfIndex(p: Path, rs: seq<Span>)
    requires SpansIn(rs, |p.points|)
    ensures |SlicesOf(p, rs)| == |rs|
    ensures forall k :: 0 <= k < |rs| ==> SlicesOf(p, rs)[k] == SliceOf(p, rs[k])
  {
    if |rs| > 0 {
      SlicesOfIndex(p, rs[1..]);
    }
  }

  /** The sub-paths `Add` appends for `p` when the network held `coords`: the slices of the runs. */
  function AddedPaths(p: Path, coords: set<Vec2>): seq<Path> {
    SlicesOf(p, Runs(p.points, coords))
  }

  /**
   * The sub-paths the loop of `Add` appends from loop state (`start`, `idx`)
   * on, step by step as the loop takes them.
   */
  function AddedFrom(p: Path, coords: set<Vec2>, start: int, idx: int): seq<Path>
    requires 0 <= start < idx
    decreases |p.points| - idx
  {
    if idx >= |p.points| then []
    else if IsAnchor(p.points, coords, idx) then
      if idx == start + 1 then AddedFrom(p, coords, idx, idx + 1)
      else [SliceOf(p, Span(start, idx))] + AddedFrom(p, coords, idx, idx + 1)
    else AddedFrom(p, coords, start, idx + 1)
  }

  /** The loop's sub-paths are the slices of the runs. */
  lemma {:induction false} AddedFromRuns(p: Path, coords: set<Vec2>, start: int, idx: int)
    requires 0 <= start < idx
    ensures AddedFrom(p, coords, start, idx) == SlicesOf(p, RunsFrom(p.points, coords, start, idx))
    decreases |p.points| - idx
  {
    if idx < |p.points| {
      if IsAnchor(p.points, coords, idx) {
        AddedFromRuns(p, coords, idx, idx + 1);
        if idx > start + 1 {
          var rest := RunsFrom(p.points, coords, idx, idx + 1);
          assert RunsFrom(p.points, coords, start, idx) == [Span(start, idx)] + rest;
          assert ([Span(start, idx)] + rest)[1..] == rest;
        }
      } else {
        AddedFromRuns(p, coords, start, idx + 1);
      }
    }
  }

  lemma AppendOne(a: seq<Path>, x: Path, b: seq<Path>)
    ensures (a + [x]) + b == a + ([x] + b)
  {
  }

  lemma SliceParts(p: Path, s: Span, q: Path)
    requires 0 <= s.lo <= s.hi < |p.points|
    requires q.points == p.points[s.lo..s.hi + 1]
    requires q.fromRoom == (if s.lo == 0 then p.fromRoom else None)
    requires q.toRoom == (if p.points[|p.points| - 1] in q.points then p.toRoom else None)
    ensures q == SliceOf(p, s)
  {
  }

  /**
   * Each appended sub-path is the slice of its run, has at least three points,
   * gets the incoming from-room only when its run starts at index 0 (so only
   * the first one can), and gets the incoming to-room exactly when it holds the
   * incoming last point by value.
   */
  lemma AddedPathsShape(p: Path, coords: set<Vec2>)
    ensures var rs := Runs(p.points, coords);
            var added := AddedPaths(p, coords);
            |added| == |rs| &&
            forall k :: 0 <= k < |rs| ==>
              && 0 <= rs[k].lo && rs[k].lo + 2 <= rs[k].hi < |p.points|
              && added[k].points == p.points[rs[k].lo..rs[k].hi + 1]
              && |added[k].points| >= 3
              && added[k].fromRoom == (if rs[k].lo == 0 then p.fromRoom else None)
              && added[k].toRoom == (if p.points[|p.points| - 1] in added[k].points then p.toRoom else None)
    ensures forall k :: 0 < k < |AddedPaths(p, coords)| ==> AddedPaths(p, coords)[k].fromRoom == None
  {
    var rs := Runs(p.points, coords);
    var added := AddedPaths(p, coords);
    SlicesOfIndex(p, rs);
    forall k | 0 < k < |added|
      ensures added[k].fromRoom == None
    {
      RunsOrdered(p.points, coords, 0, 1, k - 1);
    }
  }

  /** An incoming path of two points or fewer appends nothing. */
  lemma AddShortPathNothing(p: Path, coords: set<Vec2>)
    requires |p.points| <= 2
    ensures AddedPaths(p, coords) == []
  {
    if |p.points| == 2 {
      assert RunsFrom(p.points, coords, 0, 1) == RunsFrom(p.points, coords, 1, 2);
    }
  }

  lemma {:induction false} UntouchedRunsFrom(pts: seq<Vec2>, coords: set<Vec2>, idx: int)
    requires |pts| >= 3 && 1 <= idx <= |pts| - 1
    requires forall j :: 0 < j < |pts| - 1 ==> pts[j] !in coords
    ensures RunsFrom(pts, coords, 0, idx) == [Span(0, |pts| - 1)]
    decreases |pts| - idx
  {
    if idx < |pts| - 1 {
      UntouchedRunsFrom(pts, coords, idx + 1);
    } else {
      assert RunsFrom(pts, coords, idx, idx + 1) == [];
    }
  }

  /**
   * An incoming path of three or more points none of whose interior points was
   * in the network is appended whole, rooms included.
   */
  lemma AddUntouchedPathWhole(p: Path, coords: set<Vec2>)
    requires |p.points| >= 3
    requires forall j :: 0 < j < |p.points| - 1 ==> p.points[j] !in coords
    ensures AddedPaths(p, coords) == [p]
  {
    UntouchedRunsFrom(p.points, coords, 1);
    var whole := Span(0, |p.points| - 1);
    assert [whole][1..] == [];
    assert p.points[0..|p.points|] == p.points;
    assert SliceOf(p, whole) == p;
    assert AddedPaths(p, coords) == SlicesOf(p, [whole]);
    assert SlicesOf(p, [whole]) == [SliceOf(p, whole)] + SlicesOf(p, []);
  }

  /**
   * When the second point was already in the network, the first step is
   * skipped and no appended sub-path gets the incoming from-room.
   */
  lemma AddSecondPointKnownLosesFromRoom(p: Path, coords: set<Vec2>)
    requires |p.points| >= 2 && p.points[1] in coords
    ensures forall k :: 0 <= k < |AddedPaths(p, coords)| ==> AddedPaths(p, coords)[k].fromRoom == None
  {
    var rs := Runs(p.points, coords);
    assert rs == RunsFrom(p.points, coords, 1, 2);
    SlicesOfIndex(p, rs);
  }

  /**
   * When the second-to-last point was already in the network, the final edge
   * is a one-edge run and is dropped: no appended sub-path reaches the last
   * index, and on a path of distinct points none gets the incoming to-room.
   */
  lemma AddDropsFinalEdge(p: Path, coords: set<Vec2>)
    requires |p.points| >= 3 && p.points[|p.points| - 2] in coords
    ensures var rs := Runs(p.points, coords);
            forall k :: 0 <= k < |rs| ==> rs[k].hi <= |p.points| - 2
    ensures Distinct(p.points) ==>
              forall k :: 0 <= k < |AddedPaths(p, coords)| ==> AddedPaths(p, coords)[k].toRoom == None
  {
    var n := |p.points|;
    var rs := Runs(p.points, coords);
    RunsShape(p.points, coords);
    AddedPathsShape(p, coords);
    forall k | 0 <= k < |rs|
      ensures rs[k].hi <= n - 2
    {
      assert !(rs[k].lo < n - 2 < rs[k].hi);
    }
    if Distinct(p.points) {
      var added := AddedPaths(p, coords);
      forall k | 0 <= k < |added|
        ensures added[k].toRoom == None
      {
        var s := rs[k];
        forall j | s.lo <= j <= s.hi
          ensures p.points[j] != p.points[n - 1]
        {
        }
        assert p.points[n - 1] !in added[k].points;
      }
    }
  }

  /** The appended sub-paths only use points of the incoming path. */
  lemma AddedCoordsFromPath(p: Path, coords: set<Vec2>)
    ensures AllCoords(AddedPaths(p, coords)) <= PointSet(p.points)
  {
    var rs := Runs(p.points, coords);
    var added := AddedPaths(p, coords);
    SlicesOfIndex(p, rs);
    forall c | c in AllCoords(added)
      ensures c in p.points
    {
      AllCoordsMember(added, c);
      var k :| 0 <= k < |added| && c in added[k].points;
      var slice := p.points[rs[k].lo..rs[k].hi + 1];
      assert added[k].points == slice;
      var i :| 0 <= i < |slice| && slice[i] == c;
      assert slice[i] == p.points[rs[k].lo + i];
    }
  }

  // ---------------------------------------------------------------------
  // The network

  /** All paths of the given networks, in order. */
  function PathsOf(nets: seq<TunnelNetwork>): seq<Path>
    reads nets
  {
    if |nets| == 0 then [] else PathsOf(nets[..|nets| - 1]) + nets[|nets| - 1].paths
  }

  class TunnelNetwork {
    var paths: seq<Path>

    /**
     * A network of one path. The source rejects a path whose room list does
     * not have two entries; that list always has two, so this never fails.
     */
    constructor FromPath(path: Path)
      ensures paths == [path]
    {
      assert |path.Rooms()| == 2;
      paths := [path];
    }

    /** A network with no path yet: the state the multi-network constructor starts from. */
    constructor Empty()
      ensures paths == []
    {
      paths := [];
    }

    /**
     * The network made of the paths of `nets` (in order) and the bridge path
     * added to them; fails when the bridge shares no point with those paths.
     */
    static method Combine(nets: seq<TunnelNetwork>, bridge: Path) returns (r: Result<TunnelNetwork, NetworkError>)
      ensures r.Failure? <==> !AnyIntersects(PathsOf(nets), bridge)
      ensures r.Failure? ==> r.error == PathDoesNotIntersect
      ensures r.Success? ==>
                fresh(r.value) &&
                r.value.paths == PathsOf(nets) + AddedPaths(bridge, AllCoords(PathsOf(nets)))
    {
      var net := new TunnelNetwork.Empty();
      for i := 0 to |nets|
        invariant net.paths == PathsOf(nets[..i])
      {
        assert nets[..i + 1][..i] == nets[..i];
        net.paths := net.paths + nets[i].paths;
      }
      assert nets[..|nets|] == nets;
      if !net.IntersectsPath(bridge) {
        return Failure(PathDoesNotIntersect);
      }
      net.Add(bridge);
      r := Success(net);
    }

    /** Some path of the network shares a point with `path`. */
    function IntersectsPath(path: Path): (r: bool)
      reads this
      ensures r <==> exists k :: 0 <= k < |paths| && paths[k].Intersects(path)
    {
      AnyIntersects(paths, path)
    }

    /** Some path of the network ends at `room`; a null room is rejected. */
    function ConnectsTo(room: Option<Room>): (r: Result<bool, NetworkError>)
      reads this
      ensures r.Failure? <==> room.None?
      ensures r.Failure? ==> r.error == NullRoom
      ensures room.Some? ==>
                (r.Success? && r.value <==>
                   exists k :: 0 <= k < |paths| && (paths[k].fromRoom == room || paths[k].toRoom == room))
    {
      if room.None? then Failure(NullRoom) else Success(AnyConnects(paths, room.value))
    }

    /** The coordinate set of the network, with or without the end rooms' doorways. */
    method GetAllPathCoords(includeDoorways: bool) returns (r: set<Vec2>)
      ensures r == if includeDoorways then AllCoords(paths) else AllDoorlessCoords(paths)
    {
      r := {};
      if includeDoorways {
        for i := 0 to |paths|
          invariant r == AllCoords(paths[..i])
        {
          CoordsPrefixStep(paths, i);
          r := r + PointSet(paths[i].points);
        }
      } else {
        for i := 0 to |paths|
          invariant r == AllDoorlessCoords(paths[..i])
        {
          var noDoors := paths[i].PointsNoDoors();
          assert PointSet(noDoors) == DoorlessCoords(paths[i]) by {
            forall c ensures c in noDoors <==> c in multiset(noDoors) { }
          }
          CoordsPrefixStep(paths, i);
          r := r + PointSet(noDoors);
        }
      }
      assert paths[..|paths|] == paths;
    }

    /** The segment lists of all paths, one after the other. */
    method Segments() returns (r: seq<Segment>)
      requires NonEmptyPaths(paths)
      ensures r == NetSegments(paths)
    {
      r := [];
      for i := 0 to |paths|
        invariant r == NetSegments(paths[..i])
      {
        var pathSegs := paths[i].Segments();
        assert paths[..i + 1][..i] == paths[..i];
        r := r + pathSegs;
      }
      assert paths[..|paths|] == paths;
    }

    /** The set of end rooms of all paths; open ends are not filtered out. */
    method ConnectedRooms() returns (r: set<Option<Room>>)
      ensures r == RoomSet(paths)
    {
      r := {};
      for i := 0 to |paths|
        invariant r == RoomSet(paths[..i])
      {
        assert paths[..i + 1][..i] == paths[..i];
        var rooms := paths[i].Rooms();
        r := r + {rooms[0], rooms[1]};
      }
      assert paths[..|paths|] == paths;
    }

    /**
     * Some segment of this network crosses some segment of `other`; `crosses`
     * is the segment library's intersection test, not part of this model.
     */
    method IntersectsNetwork(other: TunnelNetwork, crosses: (Segment, Segment) -> bool) returns (r: bool)
      requires NonEmptyPaths(paths)
      requires |NetSegments(paths)| > 0 ==> NonEmptyPaths(other.paths)
      ensures r <==> |NetSegments(paths)| > 0 &&
                     exists i, j :: 0 <= i < |NetSegments(paths)| && 0 <= j < |NetSegments(other.paths)| &&
                                    crosses(NetSegments(paths)[i], NetSegments(other.paths)[j])
    {
      var mine := Segments();
      for i := 0 to |mine|
        invariant i > 0 ==> forall a, b :: 0 <= a < i && 0 <= b < |NetSegments(other.paths)| ==>
                              !crosses(mine[a], NetSegments(other.paths)[b])
      {
        var theirs := other.Segments();
        for j := 0 to |theirs|
          invariant forall b :: 0 <= b < j ==> !crosses(mine[i], theirs[b])
        {
          if crosses(mine[i], theirs[j]) {
            return true;
          }
        }
      }
      return false;
    }

    /**
     * Appends the sub-paths of `path` between the points where it meets
     * coordinates the network held before the call (or its last point).
     */
    method Add(path: Path)
      modifies this
      ensures paths == old(paths) + AddedPaths(path, AllCoords(old(paths)))
      ensures old(paths) <= paths
    {
      var tCoords := GetAllPathCoords(true);
      var start := 0;
      var end := |path.points| - 1;
      var pathIdx := 1;
      ghost var target := old(paths) + AddedFrom(path, tCoords, 0, 1);
      while pathIdx <= end
        invariant 0 <= start < pathIdx
        invariant paths + AddedFrom(path, tCoords, start, pathIdx) == target
      {
        if path.points[pathIdx] in tCoords || pathIdx == end {
          if pathIdx == start + 1 {
            start := start + 1;
          } else {
            var newPathCoords: seq<Vec2> := [];
            var fromRoom: Option<Room> := None;
            var toRoom: Option<Room> := None;
            if start == 0 {
              fromRoom := path.Rooms()[0];
            }
            for newPathIdx := start to pathIdx + 1
              invariant newPathCoords == path.points[start..newPathIdx]
            {
              newPathCoords := newPathCoords + [path.points[newPathIdx]];
            }
            if path.points[end] in newPathCoords {
              toRoom := path.Rooms()[1];
            }
            var newPath := Path(newPathCoords, fromRoom, toRoom);
            SliceParts(path, Span(start, pathIdx), newPath);
            AppendOne(paths, newPath, AddedFrom(path, tCoords, pathIdx, pathIdx + 1));
            paths := paths + [newPath];
            start := pathIdx;
          }
        }
        pathIdx := pathIdx + 1;
      }
      AddedFromRuns(path, tCoords, 0, 1);
    }
  }

  /** After `Add`, the network holds every coordinate it held before. */
  lemma AddKeepsCoords(before: seq<Path>, p: Path)
    ensures AllCoords(before) <= AllCoords(before + AddedPaths(p, AllCoords(before)))
  {
    AllCoordsAppend(before, AddedPaths(p, AllCoords(before)));
  }

  /** After `Add`, the network's segments are the old ones followed by those of the appended sub-paths. */
  lemma AddExtendsSegments(before: seq<Path>, p: Path)
    requires NonEmptyPaths(before)
    ensures NonEmptyPaths(AddedPaths(p, AllCoords(before)))
    ensures NonEmptyPaths(before + AddedPaths(p, AllCoords(before)))
    ensures NetSegments(before + AddedPaths(p, AllCoords(before))) ==
            NetSegments(before) + NetSegments(AddedPaths(p, AllCoords(before)))
  {
    AddedPathsShape(p, AllCoords(before));
    NetSegmentsAppend(before, AddedPaths(p, AllCoords(before)));
  }

  /** The connected rooms include `None` exactly when some path has an open end. */
  lemma OpenEndsInConnectedRooms(ps: seq<Path>)
    ensures None in RoomSet(ps) <==> exists k :: 0 <= k < |ps| && (ps[k].fromRoom.None? || ps[k].toRoom.None?)
  {
    if None in RoomSet(ps) {
      var k :| 0 <= k < |ps| && None in ps[k].Rooms();
      assert ps[k].fromRoom == None || ps[k].toRoom == None;
    }
    if exists k :: 0 <= k < |ps| && (ps[k].fromRoom.None? || ps[k].toRoom.None?) {
      var k :| 0 <= k < |ps| && (ps[k].fromRoom.None? || ps[k].toRoom.None?);
      assert None in ps[k].Rooms();
    }
  }
}
