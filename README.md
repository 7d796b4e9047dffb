# Tunnel network model

A Dafny model of the corridor network of a grid map generator, `src/core/Tunnel.cs`.

A **path** (`IPath` in the source) is an ordered list of integer grid points. It has an optional room at each end. The path can list its corners and its segments, reverse itself, drop its rooms' doorways, test whether it shares a point with another path, and cut out a sub-path between two points.

A **tunnel network** is a growing list of paths. Its central operation is `Add`:
- it takes one snapshot of every coordinate the network already holds;
- it walks the incoming path and treats as an anchor every point that is in the snapshot, and the last point;
- it appends one sub-path for each run that spans at least two edges. A run goes from index 0 or an anchor to the next anchor.

The model has four modules:

- `Wrappers` (`wrappers.dfy`): `Option` for nullable values and `Result` for operations that throw in the source.
- `Geometry` (`geometry.dfy`): the grid vector `Vec2` and the segment `Segment` with its containment test `Contains`.
- `TunnelPath` (`tunnel_path.dfy`): the path as the datatype `Path`. The specification functions of its getters are `Corners`, `CornersWithEnds`, `SegmentsOf`, `CutWalk`/`CopyAt` and `Crossings`. The getters that build lists with loops are methods proved equal to those functions.
- `TunnelNetworks` (`tunnel_network.dfy`): the network as the class `TunnelNetwork`. Its field `paths: seq<Path>` is what `Add` and the constructors change.
  - `Runs` gives the anchor-delimited runs of an incoming path; `AddedPaths` gives their slices.
  - `AddedFrom` follows the loop of `Add` step by step, and `AddedFromRuns` proves the two descriptions equal.

Rooms, vectors and paths are values compared structurally. A null room is `None`.

## Model

| member | source | states |
|---|---|---|
| TunnelPath.CornersSpec | src/core/Tunnel.cs:161-176 | the corner list is strictly increasing and lies in [1, n-2]; an interior index is in it iff its two neighbours differ in both x and y |
| TunnelPath.AllCornersBelow | src/core/Tunnel.cs:166-172 | when every interior point is a corner, the corners below k are exactly 1 .. k-1 |
| TunnelPath.Path.CornerIndices | src/core/Tunnel.cs:161-176 | the loop returns exactly the corner list `Corners(points)` |
| TunnelPath.Path.CornerIndicesWithEnds | src/core/Tunnel.cs:190-207 | the loop returns `[0] + Corners(points) + [n-1]` |
| TunnelPath.CornersWithEndsIn | src/core/Tunnel.cs:183-185 | on a non-empty path every entry of the framed corner list is a valid index, so the segment getter never indexes out of range |
| TunnelPath.Path.IsStraightaway | src/core/Tunnel.cs:209-219 | true only at interior indices; at an interior index it is true iff the index is not a corner |
| TunnelPath.SegmentsShape | src/core/Tunnel.cs:178-188 | for n >= 2 there are exactly \|Corners\| + 1 segments; segment k is the single edge (P[c_k], P[c_k + 1]) for the k-th entry c_k of the framed corner list, with c_k < n-1 |
| TunnelPath.AllCornersSegments | src/core/Tunnel.cs:178-188 | when every interior point is a corner, the segments are exactly the n-1 consecutive edges |
| TunnelPath.Path.Segments | src/core/Tunnel.cs:178-188 | the loop over the framed corner list returns `SegmentsOf(points)`, the edges whose shape SegmentsShape states |
| TunnelPath.Path.PointsReverse | src/core/Tunnel.cs:149-157 | same length, and entry i is P[n-1-i] |
| TunnelPath.RemoveFirst | src/core/Tunnel.cs:138 | `List.Remove` takes exactly one copy of the value out of the bag of points; an absent value leaves the list unchanged |
| TunnelPath.RemoveFirstAt | src/core/Tunnel.cs:138 | when the value occurs, `List.Remove` deletes exactly its first occurrence and keeps the rest in order |
| TunnelPath.FirstIndex | src/core/Tunnel.cs:138 | the index `List.Remove` deletes at: it holds the value, and no earlier index does |
| TunnelPath.RemoveEach | src/core/Tunnel.cs:136-142 | removing every doorway of a room, in any visiting order, leaves the bag of points minus one copy of each doorway |
| TunnelPath.Path.PointsNoDoors | src/core/Tunnel.cs:130-147 | the result's bag is the points minus one copy of each from-room doorway and each to-room doorway; an open end removes nothing |
| TunnelPath.Path.Rooms | src/core/Tunnel.cs:159 | always two entries: the from-room, then the to-room (open ends included) |
| TunnelPath.SharesPoint | src/core/Tunnel.cs:230-237 | the early-exit search is true iff some point of the first list occurs in the second |
| TunnelPath.Path.Intersects | src/core/Tunnel.cs:230-237 | true iff some point of this path is a point of the other |
| TunnelPath.IntersectsSymmetric | src/core/Tunnel.cs:230-237 | sharing a point is symmetric |
| TunnelPath.Path.GetIntersections | src/core/Tunnel.cs:239-249 | the nested loops return the crossings of every segment of this path with every segment of the other, outer segment first, skipping pairs with no crossing; with no segment on this side the result is empty, and the other path is then never inspected |
| TunnelPath.HitsWithMember | src/core/Tunnel.cs:243-247 | a point is among one segment's crossings iff the intersection test yields it for some segment of the other list |
| TunnelPath.CrossingsMember | src/core/Tunnel.cs:242-247 | a point is among all crossings iff it is among the crossings of some segment of this path |
| TunnelPath.CutPoints | src/core/Tunnel.cs:289-312 | the cutting loop, with its index bumped inside the body and its two breaks, returns exactly `CutWalk` from index 0 with copying off |
| TunnelPath.Path.Cut | src/core/Tunnel.cs:259-316 | the cut points are `CutWalk` with an absent `from` defaulting to the first point and an absent `to` to the last point; the from-room is kept iff `from` is absent or `cutRooms` is false, and likewise the to-room; the result is empty iff no edge contains `from`, and otherwise starts with `from`; with both ends absent, on distinct unit-step points, the result is this path. Where it ends follows from `CutWalkEndsAt` and `CutWalkBetween` |
| TunnelPath.CutWalkStart | src/core/Tunnel.cs:292-300 | before copying has begun, the cut is empty iff no edge from the current index on contains `from`; otherwise its first point is `from` |
| TunnelPath.CutWalkCopiesTail | src/core/Tunnel.cs:301-311 | on distinct unit-step points, for the cut from the first point P[0] to the last point P[n-1] only: once copying has begun at an interior index i, the walk copies P[i..] to the end |
| TunnelPath.CopyAtEndsAt | src/core/Tunnel.cs:301-311 | on distinct unit-step points, once copying is under way at index i with `from` at or before i, the walk copies P[i..m] and stops at `to` = P[m] |
| TunnelPath.CutWalkEndsAt | src/core/Tunnel.cs:251-312 | on distinct unit-step points, cutting from the first point to P[m], m >= 2, gives exactly P[0..m]: the cut ends at `to` |
| TunnelPath.CutWalkBetween | src/core/Tunnel.cs:251-312 | on distinct unit-step points, cutting from an interior P[k] to a later P[m] gives P[k] followed by P[k..m]: it starts at `from`, ends at `to`, and repeats `from` |
| TunnelPath.CutWalkWhole | src/core/Tunnel.cs:266-313 | cutting distinct unit-step points from their first to their last point gives back every point |
| TunnelPath.CutWalkSkipsTo | src/core/Tunnel.cs:292-295 | on distinct unit-step points, cutting at P[k] skips every edge before the one that ends at P[k] |
| TunnelPath.CutAtVertexRepeatsStart | src/core/Tunnel.cs:295-303 | on distinct unit-step points, cutting at a point P[k] other than the first gives a result that starts P[k], P[k] |
| TunnelPath.Path.ConnectsTo | src/core/Tunnel.cs:318-325 | true iff the room equals the from-room or the to-room (an open end matches a null room) |
| TunnelNetworks.TunnelNetwork.FromPath | src/core/Tunnel.cs:42-48 | the network holds exactly the one path; the two-room check cannot fail |
| TunnelNetworks.PathsOf | src/core/Tunnel.cs:52-54 | the input networks' paths, concatenated in order |
| TunnelNetworks.TunnelNetwork.Combine | src/core/Tunnel.cs:50-61 | fails (with PathDoesNotIntersect) iff no path of the input networks shares a point with the bridge; otherwise the new network holds the input paths in order followed by what `Add` appends for the bridge |
| TunnelNetworks.AnyIntersects | src/core/Tunnel.cs:71-79 | the early-exit search is true iff some path shares a point with the given path |
| TunnelNetworks.TunnelNetwork.IntersectsPath | src/core/Tunnel.cs:71-79 | true iff some path of the network shares a point with the given path |
| TunnelNetworks.TunnelNetwork.IntersectsNetwork | src/core/Tunnel.cs:63-69 | true iff this network has a segment and some segment of it crosses some segment of the other under the segment library's test; with no segment on this side the other network is never inspected |
| TunnelNetworks.AnyConnects | src/core/Tunnel.cs:85 | true iff some path has the room at one of its ends |
| TunnelNetworks.TunnelNetwork.ConnectsTo | src/core/Tunnel.cs:81-86 | a null room fails with NullRoom; otherwise true iff some path has the room at one of its ends |
| TunnelNetworks.TunnelNetwork.Add | src/core/Tunnel.cs:88-118 | the new path list is the old one followed by the slices of the runs of the incoming path against the pre-call coordinate snapshot; the old list is a prefix of the new one |
| TunnelNetworks.AddedFromRuns | src/core/Tunnel.cs:95-116 | the sub-paths the loop appends from any loop state are exactly the slices of the runs from that state |
| TunnelNetworks.RunsShape | src/core/Tunnel.cs:95-116 | every run spans at least two edges (hi >= lo + 2) inside the path; runs come in order (each starts at or after the previous end); no point strictly inside a run is in the snapshot; each run ends at an anchor; every index between runs, before the first or after the last is an anchor |
| TunnelNetworks.RunsOrdered | src/core/Tunnel.cs:100-114 | from any loop state, consecutive runs do not overlap: each ends at or before the next one starts |
| TunnelNetworks.RunEndsAtAnchor | src/core/Tunnel.cs:98 | from any loop state, every run ends at a point in the snapshot or at the last index |
| TunnelNetworks.RunInterior | src/core/Tunnel.cs:95-98 | from any loop state with no anchor passed since `start`, no point strictly inside a run is in the snapshot |
| TunnelNetworks.RunGap | src/core/Tunnel.cs:100-104 | from any loop state, every index after the previous run's end and up to a run's start is an anchor (the one-edge steps that are skipped) |
| TunnelNetworks.RunsTail | src/core/Tunnel.cs:95-104 | from any loop state with no anchor passed since `start`, every index after the last run's end is an anchor |
| TunnelNetworks.AddedPathsShape | src/core/Tunnel.cs:105-113 | one sub-path per run; its points are the slice P[lo..hi] of at least three points; it gets the incoming from-room iff lo = 0, else none; it gets the incoming to-room iff it contains the incoming last point by value, else none; only the first sub-path can have a from-room |
| TunnelNetworks.AddShortPathNothing | src/core/Tunnel.cs:94-104 | an incoming path of at most two points appends nothing |
| TunnelNetworks.AddUntouchedPathWhole | src/core/Tunnel.cs:95-113 | an incoming path of at least three points whose interior points are all new is appended whole, rooms included |
| TunnelNetworks.AddSecondPointKnownLosesFromRoom | src/core/Tunnel.cs:100-108 | when the second point is already in the network, no appended sub-path gets the incoming from-room |
| TunnelNetworks.AddDropsFinalEdge | src/core/Tunnel.cs:95-104 | when the second-to-last point is already in the network, no run reaches the last index, and on distinct points no appended sub-path gets the incoming to-room |
| TunnelNetworks.AddedCoordsFromPath | src/core/Tunnel.cs:109-110 | the appended sub-paths only use points of the incoming path |
| TunnelNetworks.AddKeepsCoords | src/core/Tunnel.cs:88-118 | after `Add` the network holds every coordinate it held before |
| TunnelNetworks.AddExtendsSegments | src/core/Tunnel.cs:19-28 | after `Add` the network's segments are the old ones followed by those of the appended sub-paths |
| TunnelNetworks.TunnelNetwork.GetAllPathCoords | src/core/Tunnel.cs:340-356 | with doorways: the union of all paths' points; without: the union of each path's points left after its end rooms' doorways are removed |
| TunnelNetworks.AllCoordsMember | src/core/Tunnel.cs:343-347 | a coordinate is in the network's set iff some path goes through it |
| TunnelNetworks.AllDoorlessCoordsMember | src/core/Tunnel.cs:348-352 | a coordinate is in the doorless set iff some path still holds it once its end rooms' doorways are removed |
| TunnelNetworks.DoorlessWithinAll | src/core/Tunnel.cs:340-356 | the doorless set is a subset of the full set |
| TunnelNetworks.AllCoordsAppend | src/core/Tunnel.cs:343-347 | the coordinate set of two path lists one after the other is the union of their sets |
| TunnelNetworks.TunnelNetwork.Segments | src/core/Tunnel.cs:19-28 | the loop returns the in-order concatenation of the paths' segment lists |
| TunnelNetworks.NetSegmentsAppend | src/core/Tunnel.cs:19-28 | the segments of two path lists one after the other are the first list's segments followed by the second's |
| TunnelNetworks.TunnelNetwork.ConnectedRooms | src/core/Tunnel.cs:30-39 | the loop returns `RoomSet(paths)` |
| TunnelNetworks.RoomSet | src/core/Tunnel.cs:30-39 | a room is in the set iff it is an end room of some path |
| TunnelNetworks.OpenEndsInConnectedRooms | src/core/Tunnel.cs:34-37 | the set contains a null room iff some path has an open end |

## Behaviour worth knowing

These facts about the code follow from the proved lemmas.

- `Segments` emits only the single edge (P[c], P[c+1]) at the start and at each corner, not the whole straight run that follows it (`SegmentsShape`).
- `Cut` keeps or drops an end room by its arguments alone: a room is kept when that end's argument is absent or `cutRooms` is false. Endpoints are never compared (`Path.Cut`).
- The doc comment of `Cut` (src/core/Tunnel.cs:251-253) says the result starts at `from` and ends at `to`. On distinct unit steps:
  - the start half holds in general (`CutWalkStart`);
  - the end half holds from the first point to any P[m] with m >= 2 (`CutWalkEndsAt`);
  - from an interior point P[k] to a later P[m], the result is P[k..m] with P[k] written twice (`CutWalkBetween`, `CutAtVertexRepeatsStart`).
  Gluing a cut that ends at P[k] to a cut that starts at P[k], with one copy of P[k] dropped, therefore still holds P[k] twice.
- `Cut(null, null, _)` gives back the path when its points are pairwise distinct, joined by unit steps and at least two (`Path.Cut`, `CutWalkWhole`).
- `ConnectedRooms` keeps null rooms (`OpenEndsInConnectedRooms`).
- The single-path constructor's two-room check can never fail: the room list always has two entries.
- `Add` drops the final edge when the point before the last one is already in the network (`AddDropsFinalEdge`).

## Left out

- `ToString` (src/core/Tunnel.cs:327-335): string formatting through the vector library.
- The commented-out static `Combine` (src/core/Tunnel.cs:358-379): dead code.
- The segment library's `Intersects` and `GetIntersection` are not part of this model. They are parameters of `IntersectsNetwork` (`crosses`) and `GetIntersections` (`meet`), so their results are only related to those tests.
- `Segment.Contains` is also from the segment library. It is defined here as inclusive containment on an axis-aligned segment; on a diagonal segment only the two ends count. This is an assumption, and the `Cut` lemmas depend on it.
- `IVector2` is replaced by a pair of unbounded integers with structural equality. Coordinates are only compared, never computed, so integer width plays no part.
- `Room` is reduced to an identifier and a set of doorways, and it is compared by value rather than by reference.
- Reference identity and aliasing are not modelled:
  - the `Paths` getter returns the live list;
  - the multi-network constructor shares `IPath` objects with the input networks;
  - the internal `Points` setter is not modelled.
- Exceptions become results:
  - the null-room `ArgumentNullException` becomes `NullRoom`;
  - the bridge `ArgumentException` becomes `PathDoesNotIntersect`.
  Messages and `TAG_DEBUG` are dropped.
- Indexing an empty point list throws in the source. The model turns each of these into a precondition:
  - `Path.Cut` with an absent end needs at least one point;
  - `Path.Segments` and `TunnelNetwork.Segments` need non-empty paths;
  - `GetIntersections` and `IntersectsNetwork` need a non-empty path on this side. They need one on the other side only when this side has a segment, because the source builds the other side's segments inside its outer loop.
- `HashSet` iteration order. Coordinate and room sets are sets, and `RemoveEach` visits the doorways in an arbitrary order.
- TunnelPath.Path.PointsNoDoors: the contract states the bag of remaining points, not their order. The source keeps the order of the points that stay.
- TunnelPath.RemoveEach: the contract states the bag of remaining points, not their order.
- The default value `true` of `Cut`'s `_cutRooms` argument: the model always passes the flag explicitly.
