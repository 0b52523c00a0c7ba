# Room segmentation and room adjacency on floor-plan label grids

This project is a Dafny model of the core of an indoor-topology pipeline that works on a floor-plan raster. The core has two parts.

- **`extract_rooms`** takes a 2-D grid of category codes.
  - Every pixel whose code is not in the excluded set {0, 1, 2, 8, 50} gets a room id.
  - Ids are assigned by an explicit-stack 4-connected flood fill. A row-by-row scan seeds each fill, so room ids are dense 1..n in row-major order of each room's first pixel.
  - Each room then gets a record: its id, its area (pixel count) and a room type. The type comes from the room's most frequent non-excluded code.
- **`detect_adjacency`** fills one dictionary. The dictionary is keyed by a room pair with the smaller id first. Each entry holds `connection_types`, `num_door_window`, `area_door_window`, `num_wall` and `area_wall`. There are three sibling detectors, and each chains a door pass, a window pass and a wall pass:
  - **The main detector** (`indoor_topology/detect_adjacency.py`):
    - Each 4-connected door or window component is recorded when its one-pixel ring holds exactly two room ids.
    - Then come breadth-first wall searches, started from each room's boundary pixels.
    - These searches share one visited grid, so no wall pixel joins two segments.
  - **The second detector** (`indoor_topology/detect_adjacency_v2.py`):
    - The same door and window pass.
    - Then a directed ray through wall pixels from every boundary pixel, followed by sideways extension of the segment found.
    - A segment touching an exterior code {0, 1, 8, 50} is dropped.
    - Otherwise the room pair with the smallest count of straddling pixels is kept.
  - **The first detector** (`test/detect_adjacency_v1.py`):
    - Doors and windows take the two smallest room ids on the dilated component.
    - Then comes a multi-source distance search inside the wall mask, which is the wall pixels carrying no icon.
    - Each contact with another room records one wall connection whose extent is the contact's distance.

## How the model is organised

- **`grid.dfy`** (module `Grid`):
  - positions, the four directions and their scan orders;
  - grid access on `array2`;
  - small set and sequence facts.
- **`edges.dfy`** (module `Edges`): the adjacency dictionary as a `map<Key, Edge>`.
  - Every pass is described by a log of connections (`Conn`), which the pass keeps as a ghost value.
  - The dictionary a pass returns is `Replay(edges0, log)`: each logged connection applied in order by `Add`, which is `ensure_edge_entry` followed by the counter updates.
  - Properties of whole passes are proved once, about `Replay`:
    - conservation of counts and areas;
    - validity of every entry;
    - positive keys;
    - total wall extent.
- **`components.dfy`** (module `Components`):
  - The flood fill of `extract_rooms`, as imperative Dafny over an `array2<int>`, with the explicit stack and the neighbour order of the source.
  - It also stands in for the 4-connected component labelling of door and window pixels. That labelling numbers components in the same row-major order, and the door and window passes only add per component.
- **`rooms.dfy`** (module `Rooms`): the eligibility mask, the room records, the histogram of codes and the room type.
- **`boundary.dfy`** (module `Boundary`):
  - The boundary mask (`get_boundary_mask`): the room minus its cross erosion with border value 0.
  - The sorted list of room ids.
- **`openings.dfy`** (module `Openings`): the door and window passes under the two rules.
  - *exactly two ids on the ring* is used by the main and second detectors.
  - *the two smallest ids on the dilation* is used by the first detector.
- **`wallbfs.dfy`** (module `WallBfs`): the breadth-first wall pass of the main detector.
- **`wallscan.dfy`** (module `WallScan`): the ray scan of the second detector, which is:
  - the ray;
  - the sideways extension;
  - the exterior test;
  - the pair counts and the minimum pair.
- **`walldistance.dfy`** (module `WallDistance`): the distance search of the first detector.
- **`adjacency.dfy`** (module `Adjacency`): the three detectors, each composed from the passes above.

Modelling conventions:

- **Grids.** Integer and boolean grids are `array2`.
  - Visited grids and distance grids are updated in place. They stay in step with ghost sets and maps, so the invariants can be stated.
  - The `edges` dictionary is a value of type `map<Key, Edge>`.
  - The region-id map is any integer grid. Claims that need positive ids are stated under `NonNegative(region)`, which holds on `extract_rooms` output.
- **The scipy and numpy helpers** are specified grid helpers rather than library calls:
  - `label` with the cross structure is `Components.Label`.
  - `binary_dilation` and `binary_erosion` with the cross structure and border value 0 become the sets `Openings.Halo` and `Openings.Ring` and the predicate `Boundary.IsBoundary`.
  - `np.unique` is `Boundary.RoomIdList`, `Openings.RoomIds` and `Rooms.Histogram`.

Where the code settles a question, the model follows the code:

- **Room-type ties.** A room-type tie goes to the smallest code. The candidate codes come from `np.unique` in increasing order, and `max` keeps the first maximum (`indoor_topology/extract_rooms.py:61-72`).
- **Pair choice in the second detector.** It keeps only the minimum-count pair within one segment's own pair counts. An attribution made for an earlier segment is never revisited.
- **Ties among minimum pairs.** Among pairs with equal minimum count, the one chosen depends on the iteration order of a Python set and dictionary. The model leaves that choice open (see `WallScan.MinPair`) instead of assuming determinism.
- **All three detectors are modelled,** not only the most complete one.

## Model

| member | source | states |
|---|---|---|
| Rooms.Eligibility | indoor_topology/extract_rooms.py:12-16 | a pixel is eligible exactly when its code is not one of 0, 1, 2, 8, 50 |
| Components.Label | indoor_topology/extract_rooms.py:19-39 | the fill is a complete labelling: out-of-mask pixels keep 0, every in-mask pixel gets a label in 1..n, 4-adjacent in-mask pixels share a label, label k is grown from seed k, seeds are strictly increasing in row-major order and each is the row-major first pixel of its label; every in-mask pixel is pushed exactly once over the whole scan |
| Components.Grow | indoor_topology/extract_rooms.py:24-38 | one seed opens label n+1; labels already given are never overwritten; the seed is labelled; the labelling stays partial-correct with the new seed appended; the pushed pixels are exactly the labelled ones, each once |
| Components.Fill | indoor_topology/extract_rooms.py:27-38 | a pixel changes only if it was unlabelled, and then only to the current label; the pushed pixels are exactly those with the current label, each once; every such pixel has a 4-adjacent in-mask route from the seed; on exit no labelled pixel has an unlabelled in-mask neighbour |
| Components.Claim | indoor_topology/extract_rooms.py:35-38 | an in-grid, in-mask, unlabelled neighbour is labelled with the current id and pushed; no other pixel changes; the unlabelled set strictly shrinks, so the fill terminates |
| Components.LabelIsComponent | indoor_topology/extract_rooms.py:24-38 | in a complete labelling, a pixel carries the label of a labelled pixel p if and only if a 4-connected in-mask route joins it to p: each id is one whole connected component |
| Rooms.Histogram | indoor_topology/extract_rooms.py:58 | the histogram holds exactly the codes present in the room, each with its number of pixels, which is at least 1 |
| Rooms.MainCategory | indoor_topology/extract_rooms.py:61-72 | none exactly when every code present is excluded; otherwise a non-excluded code that no other non-excluded code outnumbers, and the smallest such code on a tie |
| Rooms.MainUnique | indoor_topology/extract_rooms.py:70 | the main category is unique, so the room type does not depend on order |
| Rooms.RoomTypeName | indoor_topology/extract_rooms.py:75-81 | the type is "Other" exactly when there is no main category or it is not one of 3, 4, 5, 6, 7, 9, 10 (the keys of the category table at lines 42-50) |
| Rooms.RoomRecords | indoor_topology/extract_rooms.py:53-82 | exactly n records, record i describing id i+1 with its area, the number of pixels carrying that id, and its type |
| Rooms.AreasAddUp | indoor_topology/extract_rooms.py:53-56 | the areas of records 1..k add up to the number of pixels whose id is in 1..k |
| Rooms.AreasCoverEligible | indoor_topology/extract_rooms.py:53-82 | for a complete labelling of the eligibility mask, the areas add up to the number of eligible pixels |
| Rooms.ExtractRooms | indoor_topology/extract_rooms.py:4-83 | the region map is a complete labelling of the eligible pixels (excluded codes get 0, all others a positive id, ids 1..n without gaps, components grown from row-major seeds); each pixel is pushed once; record i is room i+1; the areas add up to the eligible pixel count |
| Edges.Canon | indoor_topology/detect_adjacency.py:19 | the key holds the same two ids, smaller first |
| Edges.EnsureEntry | indoor_topology/detect_adjacency.py:17-28 | the returned key is the canonical pair and has an entry; only that key is added; existing entries are unchanged; a new entry is all zeros with no types |
| Edges.AddValid | indoor_topology/detect_adjacency.py:51-55 | recording one valid connection keeps every entry well formed: canonical key of two distinct non-zero ids, 'door' or 'window' listed iff `num_door_window` >= 1, 'wall' listed iff `num_wall` >= 1, each area at least its count; the pair's entry lists the connection's kind |
| Edges.ReplayValid | indoor_topology/detect_adjacency.py:203-207 | any sequence of valid connections keeps the whole dictionary well formed in that sense |
| Edges.ReplayPositive | indoor_topology/detect_adjacency.py:47-51 | connections between positive ids only ever create keys of positive ids |
| Edges.ReplayTotals | indoor_topology/detect_adjacency.py:17-28 | nothing is lost or invented: each pair's four counters after a log are its starting counters plus the counts and extents the log records for that pair, and a pair has an entry iff it had one or the log mentions it |
| Edges.ReplayTotalWallArea | indoor_topology/detect_adjacency.py:205-207 | the sum of `area_wall` over all entries grows by exactly the wall extent the log records |
| Openings.ValueMask | indoor_topology/detect_adjacency.py:37 | the mask is true exactly at pixels of icon value `val` |
| Openings.IconComponents | indoor_topology/detect_adjacency.py:37-38 | the label grid is a complete labelling of the pixels holding `val`: exactly those pixels carry a non-zero label, labels lie in 0..n, and two such pixels share a label if and only if a 4-connected path of pixels holding `val` joins them |
| Openings.Ring | indoor_topology/detect_adjacency.py:44-45 | the ring is exactly the in-grid pixels outside the component with a 4-neighbour in it |
| Openings.Halo | test/detect_adjacency_v1.py:40 | the dilation is exactly the component plus the in-grid pixels with a 4-neighbour in it |
| Openings.RoomIds | indoor_topology/detect_adjacency.py:46-48 | exactly the positive ids found on the given pixels |
| Openings.ExactlyTwoFacts | indoor_topology/detect_adjacency.py:49-55 | a component is recorded iff it is non-empty and its ring holds exactly two positive ids; it then links those two ids, smaller first, with the component's pixel count as area |
| Openings.TwoSmallestFacts | test/detect_adjacency_v1.py:43-50 | a component is recorded iff its dilation holds at least two positive ids; it then links the smallest and the second smallest of them, smaller first, with the component's pixel count as area |
| Openings.OpeningConnValid | test/detect_adjacency_v1.py:40-63 | whatever a component records, under either rule, links two distinct positive ids, smaller first, with area at least 1 |
| Openings.CandidatesAt | indoor_topology/detect_adjacency.py:39-55 | there is one candidate per label 1..k, candidate i being what component i+1 records under the rule |
| Openings.PassLogFacts | indoor_topology/detect_adjacency.py:39-55 | a pass records exactly the connections of the components its rule accepts, each valid and between two positive ids, smaller first |
| Openings.OpeningStep | indoor_topology/detect_adjacency.py:40-55 | the loop body for one label gives exactly that component's connection under the rule |
| Openings.OpeningRecord | indoor_topology/detect_adjacency.py:39-55 | one more label appends its accepted connection, if any, to the log, and the dictionary replays the longer log |
| Openings.RecordAll | indoor_topology/detect_adjacency.py:39-55 | the loop over labels 1..n records exactly the accepted connections in label order, and the dictionary is the input with them replayed |
| Openings.OpeningPass | indoor_topology/detect_adjacency.py:36-55 | the labelling is that of the icon pixels holding the value; the connections recorded are those of components 1..n in label order under the rule; the dictionary is the input with them replayed |
| Adjacency.OpeningPasses | test/detect_adjacency_v1.py:31-88 | the doors are exactly the accepted components of icon value 1 in label order and the windows those of value 2, each a valid connection of its kind; the dictionary is both logs replayed from empty, every entry is well formed with positive ids, no pair has a wall connection and the total wall extent is 0 |
| Boundary.BoundaryMask | indoor_topology/detect_adjacency_v2.py:5-16 | exactly the pixels of the room with a 4-neighbour off the grid or in another room; all false when the room is absent (also the helper at indoor_topology/detect_adjacency.py:66-73) |
| Boundary.RoomIdList | indoor_topology/detect_adjacency.py:59-60 | every non-zero id on the map exactly once, in increasing order |
| WallBfs.Classify | indoor_topology/detect_adjacency.py:96-117 | the start is judged outer exactly when a 4-neighbour is off the grid or a non-wall pixel with id 0; otherwise the rooms found are exactly the ids other than 0 and `rid` on non-wall 4-neighbours |
| WallBfs.Admit | indoor_topology/detect_adjacency.py:164-191 | a neighbour's rooms are accepted iff there is at most one and it agrees with the room already met; the room met afterwards is the old one if any, else the new one |
| WallBfs.Test | indoor_topology/detect_adjacency.py:138-191 | a neighbour is taken exactly when it is an in-grid, unvisited wall pixel, not outside, whose rooms other than `rid` the rule admits; the target afterwards is the admitted one, unchanged once set |
| WallBfs.Look | indoor_topology/detect_adjacency.py:137-194 | a neighbour joins the queue exactly when the search takes it, and is then marked visited with the target the rule gives; a neighbour not taken changes nothing; a target once set never changes; the segment followed by the queue stays listed so that each pixel is a 4-neighbour of one listed before it |
| WallBfs.LinkedSnoc | indoor_topology/detect_adjacency.py:137-194 | appending a 4-neighbour of a listed pixel to a listing in which each pixel is a 4-neighbour of an earlier one keeps that property |
| WallBfs.Segment | indoor_topology/detect_adjacency.py:119-194 | the segment starts at the start pixel and each later pixel is a 4-neighbour of one listed before it, so it is 4-connected from the start; its pixels are distinct wall pixels that were unvisited, none outside, each touching no room but `rid` and the target, and they are exactly the newly visited pixels; the target, once set, stays and is a room the segment touches; no neighbour of a segment pixel is one the search would still take, so given its target the segment is the whole closure from the start |
| WallBfs.Mark | indoor_topology/detect_adjacency.py:115-117 | a start that is outer or sees two or more other rooms is only marked visited, and nothing is recorded |
| WallBfs.Recorded | indoor_topology/detect_adjacency.py:196-207 | a finished search records at most one connection, and none exactly when it met no target |
| WallBfs.Search | indoor_topology/detect_adjacency.py:119-207 | the segment is grown as `Segment` states, 4-connected from the start and closed under the search's rule; the log gains exactly one wall connection from `rid` to the target, of extent the number of distinct segment pixels, when a target was met, and nothing otherwise; the pass invariant holds and every logged connection stays backed by its own segment |
| WallBfs.BackedRecord | indoor_topology/detect_adjacency.py:196-207 | the connection a search records stands for its segment: extent its pixel count, every pixel admitted between the two rooms, one touching the target, and a listing of the pixels that starts next to the boundary of `rid` with each later pixel a 4-neighbour of an earlier one; the segment is disjoint from every earlier one |
| WallBfs.RecordFacts | indoor_topology/detect_adjacency.py:201-207 | recording the search's connection is one update of the replayed dictionary, and keeps the log valid and its total extent at most the number of visited pixels |
| WallBfs.Launch | indoor_topology/detect_adjacency.py:93-207 | an unvisited wall start that is outer or sees two or more other rooms only becomes visited, with nothing recorded; any other start grows a segment 4-connected from it and closed under the search's rule, and records exactly what that search records |
| WallBfs.TryStart | indoor_topology/detect_adjacency.py:82-207 | a neighbour that is off the grid, not a wall pixel or already visited changes nothing; otherwise it behaves as `Launch` states, growing a connected, closed segment from that neighbour; every logged connection stays backed |
| WallBfs.PixelWalls | indoor_topology/detect_adjacency.py:80-207 | the four starts of one boundary pixel keep the pass invariant and the backing of every logged connection by its own 4-connected segment, listed from a pixel next to the boundary of its first room |
| WallBfs.RoomWalls | indoor_topology/detect_adjacency.py:76-207 | all starts of one room keep the pass invariant and the backing of every logged connection by its own 4-connected segment, listed from a pixel next to the boundary of its first room |
| WallBfs.WallPass | indoor_topology/detect_adjacency.py:57-207 | the dictionary is the input with a log of valid wall connections replayed, positive ids on a non-negative map; every connection stands for its own 4-connected segment of wall pixels, listed from a pixel next to the boundary of its first room, the segments pairwise disjoint, so the total wall extent is at most the number of wall pixels |
| Adjacency.WallStage | indoor_topology/detect_adjacency.py:57-209 | the wall log replayed on top of the opening log keeps every entry well formed, keys positive on a non-negative map, each wall connection backed by its own disjoint 4-connected segment and the total wall extent at most the number of wall pixels |
| Adjacency.DetectAdjacency | indoor_topology/detect_adjacency.py:1-209 | the dictionary is the door, window and wall logs replayed from empty; the doors and windows are the components of icon values 1 and 2 accepted under the exactly-two rule, in label order; each wall connection is backed by its own disjoint segment, 4-connected from a pixel next to the boundary of its first room; every entry is well formed, keys are positive on a non-negative map, and the sum of `area_wall` is at most the number of wall pixels |
| WallScan.RaySteps | indoor_topology/detect_adjacency_v2.py:81-92 | from an in-grid pixel the ray covers at most max(h, w) wall pixels before it stops |
| WallScan.RayEndFacts | indoor_topology/detect_adjacency_v2.py:81-92 | the ray passes only wall pixels and stops at the first pixel that is off the grid or not a wall pixel |
| WallScan.Ray | indoor_topology/detect_adjacency_v2.py:77-95 | `seg` is exactly the consecutive wall pixels along the ray from its first step; the other room is the id of the stopping pixel when in the grid and not 0 or `rid`; `last` is the final wall pixel exactly when another room was found |
| WallScan.AsWrittenRayMisses | indoor_topology/detect_adjacency_v2.py:78-92 | with the ray starting at t = 0 on a boundary pixel of a map whose wall pixels carry id 0, the ray is empty and finds no other room |
| WallScan.CorrectedRayFinds | indoor_topology/detect_adjacency_v2.py:78-92 | started at t = 1, a run of wall pixels followed by a pixel of another room yields exactly that run and that room |
| WallScan.RayCounterexample | indoor_topology/detect_adjacency_v2.py:78-92 | on a 1x3 map, room 1, one wall pixel, room 2, the as-written ray from room 1's boundary finds nothing, while the corrected ray finds room 2 |
| WallScan.Extend | indoor_topology/detect_adjacency_v2.py:108-124 | the extension absorbs pixels 1..k along the direction, each an in-grid, unvisited wall pixel with id `rid` on side A and `other` on side B; pixel k+1 fails that test; exactly those pixels join the segment and become visited |
| WallScan.MarkAll | indoor_topology/detect_adjacency_v2.py:99 | the ray's pixels are marked visited and nothing else |
| WallScan.WidenedAbsorbs | indoor_topology/detect_adjacency_v2.py:108-124 | in a widened segment each extension absorbed exactly its first k pixels, each an in-grid unvisited wall pixel between `rid` and `other`, and refused pixel k+1; the second extension is judged against the pixels the first one took |
| WallScan.Widen | indoor_topology/detect_adjacency_v2.py:98-124 | the segment is the ray's run plus the pixels the two extensions absorbed from the last wall pixel, in the orientations of the ray's direction, each stopping at the first pixel it may not absorb; exactly those pixels become visited |
| WallScan.Touches | indoor_topology/detect_adjacency_v2.py:129-133 | true exactly when an in-grid 4-neighbour has a wall-label code in {0, 1, 8, 50} |
| WallScan.IsExterior | indoor_topology/detect_adjacency_v2.py:126-137 | true exactly when some pixel of the segment touches an exterior code |
| WallScan.CountPixel | indoor_topology/detect_adjacency_v2.py:141-155 | after one more segment pixel, each pair's count is still the number of pixels seen so far that straddle it across their row, plus those across their column |
| WallScan.PairCounts | indoor_topology/detect_adjacency_v2.py:140-157 | each pair's count is the number of segment pixels whose row neighbours, plus those whose column neighbours, are that pair of distinct positive ids; keys are exactly the pairs with a positive count, smaller id first |
| WallScan.MinPair | indoor_topology/detect_adjacency_v2.py:158 | the chosen pair is in the counts and no pair has a smaller count |
| WallScan.Judge | indoor_topology/detect_adjacency_v2.py:126-163 | nothing is recorded iff the segment is exterior or no pair straddles it; otherwise a wall connection between two positive ids, smaller first, whose extent is that pair's count, at least 1 and minimal among the positive counts |
| WallScan.NoVerdict | indoor_topology/detect_adjacency_v2.py:94-95 | a ray that gives no segment records nothing: the empty segment judges to no connection |
| WallScan.Settle | indoor_topology/detect_adjacency_v2.py:126-163 | the segment is judged as `Judge` states and the log gains exactly the judged connection, if any |
| WallScan.JudgedGrow | indoor_topology/detect_adjacency_v2.py:126-163 | appending a visited segment and what it judges to keeps every logged connection judged from its own visited segment |
| WallScan.Found | indoor_topology/detect_adjacency_v2.py:97-163 | the segment is the ray's run widened as `Widen` states, it is exactly what became visited, it is judged, and the log gains exactly its judged connection |
| WallScan.Land | indoor_topology/detect_adjacency_v2.py:94-163 | a ray that found no room changes nothing; one that found room `other` gives the widened, judged and recorded segment of its run |
| WallScan.Cast | indoor_topology/detect_adjacency_v2.py:77-163 | from an opening wall pixel, the ray's end and room are those `RayEnd` and `RayHit` give, and what follows is as `Land` states |
| WallScan.ScanStart | indoor_topology/detect_adjacency_v2.py:70-163 | a neighbour that is not an unvisited wall pixel, or whose ray finds no room, changes nothing; otherwise the ray's run is widened from its last wall pixel, judged, and its connection, if any, recorded; with the ray as written on a map whose wall pixels carry id 0, nothing is recorded and nothing becomes visited |
| WallScan.PixelStart | indoor_topology/detect_adjacency_v2.py:70-163 | one start keeps the scan invariant and every logged connection judged from its own visited segment |
| WallScan.PixelScan | indoor_topology/detect_adjacency_v2.py:69-163 | the four starts of one boundary pixel keep the scan invariant and every logged connection judged from its own visited segment |
| WallScan.ScanRoom | indoor_topology/detect_adjacency_v2.py:66-163 | all starts of one room keep the scan invariant and every logged connection judged from its own visited segment; with the ray as written on a map whose wall pixels carry id 0, the room records nothing |
| WallScan.ScanPass | indoor_topology/detect_adjacency_v2.py:58-164 | the dictionary is the input with a log of wall connections between positive ids replayed, every connection being the verdict on its own segment of wall pixels; with the ray as written on a map whose wall pixels carry id 0 the log is empty |
| Adjacency.DetectAdjacencyV2 | indoor_topology/detect_adjacency_v2.py:19-164 | with the corrected ray, the dictionary is the door, window and wall logs replayed from empty; the openings are the components accepted under the exactly-two rule, in label order; every wall connection is the verdict on its own segment; every entry is well formed and every key holds two positive ids, whatever the sign of the map |
| Adjacency.DetectAdjacencyV2AsWritten | indoor_topology/detect_adjacency_v2.py:19-164 | as written, on a map whose wall pixels carry id 0, no wall connection is ever recorded and the result is the door and window logs replayed from empty |
| WallDistance.MaskSet | test/detect_adjacency_v1.py:92 | the search mask is exactly the non-zero wall pixels with icon value 0, so no icon pixel is ever searched |
| WallDistance.Starts | test/detect_adjacency_v1.py:100-106 | the starts are exactly the unvisited mask pixels in the room's 4-dilation, in strict row-major order |
| WallDistance.NearIdAgree | test/detect_adjacency_v1.py:104 | the room's 4-dilation read from the region map and from its id-grid snapshot agree |
| WallDistance.StartsPinned | test/detect_adjacency_v1.py:100-106 | the starts are exactly the mask pixels in the room's 4-dilation, read from the id-grid snapshot, that are not yet visited |
| WallDistance.Seed | test/detect_adjacency_v1.py:108-117 | a fresh distance grid of the map's shape holding -1 everywhere is made, then the starts are queued, marked visited and given distance 1, and nothing else changes |
| WallDistance.ContactsFacts | test/detect_adjacency_v1.py:125-185 | a dequeued pixel at distance d records at most four connections, each a valid wall connection from `rid` of extent d, and one for every in-grid 4-neighbour with a positive id other than `rid` |
| WallDistance.ContactsGrid | test/detect_adjacency_v1.py:125-185 | the contacts read from the region map and from its id-grid snapshot are the same connections in the same order |
| WallDistance.Touch | test/detect_adjacency_v1.py:125-185 | the connections recorded for one dequeued pixel are exactly its contacts north, south, west, east, and the dictionary replays them |
| WallDistance.PopFacts | test/detect_adjacency_v1.py:121-123 | every dequeued pixel has a distance of at least 1 |
| WallDistance.Dequeue | test/detect_adjacency_v1.py:120-185 | the head of the queue is dequeued with its distance, and exactly its contacts at that distance are appended to the log |
| WallDistance.LayeredExtend | test/detect_adjacency_v1.py:188-203 | a pixel reached from a 4-neighbour at distance d gets distance d+1, and the distances stay layered |
| WallDistance.Push | test/detect_adjacency_v1.py:188-203 | an unvisited mask neighbour is marked visited, queued and given its parent's distance plus 1; existing distances are unchanged |
| WallDistance.Fan | test/detect_adjacency_v1.py:187-203 | the four expansions keep the search state and never change a distance already given; afterwards every mask 4-neighbour of the dequeued pixel is visited |
| WallDistance.Visit | test/detect_adjacency_v1.py:120-203 | one dequeued pixel is appended to the dequeue order and its contacts at its distance to the log; every mask 4-neighbour of it is then visited; new distances go only to pixels not visited before the room; the search state is kept and the unvisited mask pixels plus the queue strictly shrink |
| WallDistance.ContactLogSnoc | test/detect_adjacency_v1.py:120-185 | one more dequeued pixel appends exactly its contacts at its distance to the room's contact log |
| WallDistance.ContactLogAgree | test/detect_adjacency_v1.py:187-203 | the contact log depends only on the distances of the pixels it lists, which later expansions never change |
| WallDistance.LoggedStep | test/detect_adjacency_v1.py:120-203 | dequeuing one more pixel and appending its contacts at its distance keeps the log equal to the contacts of the dequeue order, while new distances are added |
| WallDistance.SweptEnd | test/detect_adjacency_v1.py:120-203 | when the queue is empty, the pixels given distances are exactly the dequeued ones, none visited before the room, and every mask 4-neighbour of a dequeued pixel was visited before or is dequeued |
| WallDistance.Search | test/detect_adjacency_v1.py:120-203 | the search empties the queue; distances stay 1 at the starts and parent plus 1 elsewhere; each reached pixel is visited and pushed once; every mask 4-neighbour of a dequeued pixel ends visited; the log grows by exactly the contacts of the pixels dequeued, in dequeue order, each at its distance |
| WallDistance.Flood | test/detect_adjacency_v1.py:108-203 | from the starts at distance 1, the pixels given distances are exactly the dequeued ones, all mask pixels unvisited before, with layered distances; every mask 4-neighbour of a dequeued pixel was visited before or is dequeued too, so the order is the whole unvisited mask region reached from the starts; the enqueued list grows by the dequeue order, and the log by the contacts of that order |
| WallDistance.RoomSearch | test/detect_adjacency_v1.py:98-203 | the starts are exactly the mask pixels of the room's dilation that were unvisited when the room began; the dequeued pixels are exactly those given distances, layered from the starts, and every unvisited mask 4-neighbour of one of them is dequeued too; that order is appended to the pass's enqueued list, and exactly its contacts, each at its distance, to the log |
| WallDistance.AllDoneAt | test/detect_adjacency_v1.py:98-203 | every room of the pass left what `RoomSearch` states, measured against the pixels the rooms before it enqueued: its starts exactly its dilation's mask pixels not enqueued before, its order exactly its pixels with distances, layered and closed under mask 4-adjacency |
| WallDistance.NextRoom | test/detect_adjacency_v1.py:98-203 | one more room extends the per-room accounts: its starts, order and distances are as `RoomSearch` states against the pixels the earlier rooms enqueued; its order is appended to the enqueued list and its contact log to the pass log |
| WallDistance.Rooms | test/detect_adjacency_v1.py:98-203 | over all rooms in id order, each room's starts, order and distances are as `RoomSearch` states against the pixels the earlier rooms enqueued; the enqueued list is the rooms' dequeue orders one after the other, and the log is the rooms' contact logs one after the other |
| WallDistance.DistancePass | test/detect_adjacency_v1.py:90-203 | the dictionary is the input with a log of valid wall connections replayed; each pixel is enqueued at most once over the whole call, across all rooms, and only mask pixels are; at most four connections per enqueued pixel; room by room in increasing id order, the starts are the room's dilation mask pixels not enqueued before, the order is the closed mask region reached from them, and the log is the contacts of that order at its layered distances |
| Adjacency.DistanceStage | test/detect_adjacency_v1.py:90-204 | the distance log replayed on top of the opening logs keeps every entry well formed and keys positive on a non-negative map, with the log accounted for room by room: pinned starts, closed orders and their contacts |
| Adjacency.DetectAdjacencyV1 | test/detect_adjacency_v1.py:5-204 | the dictionary is the door, window and wall logs replayed from empty; the openings are the components accepted under the two-smallest rule, in label order; the wall log is the rooms' contact logs in id order, each room searching exactly the mask region reached from its dilation's unvisited mask pixels; every entry is well formed, keys are positive on a non-negative map, and the number of wall connections is at most four times the number of mask pixels |

## Left out

- The rest of the repository is not part of this model. That covers:
  - image rendering, graph export and spreadsheet export (`save_topology_image.py`);
  - image loading, palettes, the process pool and the debug display (`main.py`, `debug_topology.py`);
  - power-map loading and plotting (`room_power_visualizer.py`, `compute_room_power.py`);
  - SVG rasterisation (`Replace_with_CubiCasa/ImgRasterization.py`).

  These are input, output and foreign-library layers around the core.
- **scipy and numpy are not modelled themselves.** `label`, `binary_dilation`, `binary_erosion` and `np.unique` are replaced by the specified helpers named above. Component labels from `label` are taken to be the row-major numbering that `Components.Label` produces. The opening passes only add per component, so the numbering order does not change the dictionary's contents.
- **Dictionary insertion order is not modelled.** The dictionary is a Dafny `map`, which has no order. Nothing in the core reads that order except the minimum-pair choice below.
- **`WallScan.MinPair`** states only that the chosen pair has the minimum count. When several pairs tie, `min` over the dictionary takes the first in insertion order. That order depends on how a Python `set` of pixels is iterated, so the model leaves the tie open.
- **The order of the segment set.** The exterior test and the pair counts iterate a Python `set`. Both are modelled as order-independent functions of the set (`WallScan.Exterior`, `WallScan.PairCount`), which is what their results are.
- **`WallDistance.RoomSearch`** states that distances are layered: 1 at the starts, and each other reached pixel one more than the neighbour it was reached from. It does not prove that they are shortest-path distances, nor that the dequeue order is first in, first out. The set of pixels dequeued is pinned; their order and the extents recorded with them are any the layering allows. The code relies only on each dequeued distance being at least 1.
- **`WallDistance.Flood`** inherits that gap from `WallDistance.RoomSearch`: layered, not shortest, distances, and an order not pinned to first in, first out.
- **`WallDistance.Search`** inherits that gap from `WallDistance.RoomSearch`: layered, not shortest, distances, and an order not pinned to first in, first out.
- **`WallDistance.NextRoom`** inherits that gap from `WallDistance.RoomSearch`: layered, not shortest, distances, and an order not pinned to first in, first out.
- **`WallDistance.Rooms`** inherits that gap from `WallDistance.RoomSearch`: layered, not shortest, distances, and an order not pinned to first in, first out.
- **`WallDistance.DistancePass`** inherits the same gap, so the wall log's order and extents are those of some layered search of each room.
- **`Adjacency.DistanceStage`** inherits the same gap, so the wall log's order and extents are those of some layered search of each room.
- **`Adjacency.DetectAdjacencyV1`** inherits the same gap, so the wall log's order and extents are those of some layered search of each room.
- **Integer width.** `num_rooms`, ids and counters are unbounded integers. numpy's `int32` region map cannot overflow for any grid whose pixel count fits in 32 bits.
- **Region maps with negative ids.** `extract_rooms` never produces them. The detectors are modelled for any integer map, and positivity of keys is claimed only under `NonNegative(region)`. The exception is the second detector: its pair count keeps a pair only when both ids are positive (`a > 0 and b > 0`, `indoor_topology/detect_adjacency_v2.py:146` and `:153`), so its keys are positive on any map.
- **`comp_mask.any()` and `room_mask.any()`.** In the main detector, `comp_mask.any()` is modelled as the component being non-empty. The per-room `room_mask.any()` skip of the first detector is not modelled, because every listed id occurs on the map.
- **`WallBfs.Segment`** does not model the order in which the queue is served, nor the `ScanOrder` in which neighbours are tried. It states the segment as a 4-connected listing from the start, closed under the search's rule for the target it ends with. That target, and with it the segment and the recorded pair and extent, can depend on that order: on a straight wall run between room 2 at one end and room 3 at the other, searched for room 1 from the pixel midway between them, whichever of rooms 2 and 3 the search meets first becomes the target. The model leaves the choice open among the closures the search could reach; it does not say which one the code's order picks.
- **`WallBfs.Search`** inherits that open choice of target from `WallBfs.Segment`.
- **`WallBfs.Launch`** inherits that open choice of target from `WallBfs.Segment`.
- **`WallBfs.TryStart`** inherits that open choice of target from `WallBfs.Segment`.
- **`WallBfs.WallPass`** states that every logged connection stands for its own segment. It does not state the converse at pass level, that every start the loops reach contributes its connection. That is stated start by start, in `WallBfs.TryStart`, and the pass contract does not enumerate the starts. It also inherits the open choice of target from `WallBfs.Segment`.
- **`WallBfs.PixelWalls`** states the same backing of the log for the four starts of one pixel, not the converse; it is stated per start in `WallBfs.TryStart`. It also inherits the open choice of target from `WallBfs.Segment`.
- **`WallBfs.RoomWalls`** states the backing for all starts of one room, not the converse, for the same reason. It also inherits the open choice of target from `WallBfs.Segment`.
- **`Adjacency.WallStage`** inherits the missing pass-level converse from `WallBfs.WallPass`. It also inherits the open choice of target from `WallBfs.Segment`.
- **`Adjacency.DetectAdjacency`** inherits the missing pass-level converse from `WallBfs.WallPass`. It also inherits the open choice of target from `WallBfs.Segment`.
- **`WallScan.ScanPass`** states that every logged connection is the verdict on its own visited segment. The converse is likewise stated start by start, in `WallScan.ScanStart`, and not at pass level.
- **`WallScan.PixelStart`** states the same judging of the log for one start, not that the start's own verdict is recorded; that is stated in `WallScan.ScanStart`.
- **`WallScan.PixelScan`** states the judging for the four starts of one pixel, not the converse, for the same reason.
- **`WallScan.ScanRoom`** states the judging for all starts of one room, not the converse, for the same reason.
- **`Adjacency.DetectAdjacencyV2`** inherits the missing pass-level converse from `WallScan.ScanPass`.
- **`WallScan.MarkAll`** marks exactly the pixels of the ray's run. That is what `visited[list(zip(*seg))] = True` (`indoor_topology/detect_adjacency_v2.py:99`) does when numpy reads the list of the two coordinate tuples as a tuple of index arrays, which is the meaning numpy gave it before release 1.23. From 1.23 on, a list index is one array on the first axis, so whole rows are marked or an `IndexError` is raised; that meaning is not modelled.
- **`WallDistance.Search`** models the `while queue` loop of `test/detect_adjacency_v1.py:120-203` as a method that handles the head of the queue and then calls itself on the rest: one call per dequeued pixel, with the same effect on the grids, the queue and the dictionary.
- **The id grid.** The distance pass states its log over `WallDistance.IdGrid`, a value copy of the region map taken before the pass. The pass never writes the region map, so the copy and the map agree throughout (`WallDistance.ContactsGrid`, `WallDistance.NearIdAgree`).
- **The ghost logs and the ghost visited sets** exist only to state the contracts. The code keeps no such lists.
- **Debug printing** in the detectors is not modelled.

## Findings

| source | as written | input that shows it | evidently intended | confidence | as-written member | corrected member |
|---|---|---|---|---|---|---|
| indoor_topology/detect_adjacency_v2.py:77-92 | the ray starts at `t = 0`, on the boundary pixel itself; that pixel is a room pixel, not a wall pixel, so the loop stops at once with no other room, whenever wall pixels carry id 0 (as `extract_rooms` makes them, since wall code 2 is excluded) | region map `[[1, 0, 2]]` with wall mask `[[0, 1, 0]]`: from room 1's boundary pixel (0, 0) going east, the ray as written finds no room; started at `t = 1` it passes the wall pixel and finds room 2 | start the ray at `t = 1`, the wall pixel the guard at lines 72-75 has just checked | not executed | WallScan.RayCounterexample | WallScan.CorrectedRayFinds |

Both halves are modelled:

- `WallScan.ScanPass` takes the first ray step as a parameter.
- **As written (0):**
  - `WallScan.AsWrittenRayMisses` proves that on such maps the ray always misses.
  - `WallScan.ScanStart`, `WallScan.ScanRoom` and `WallScan.ScanPass` prove that the pass then records nothing.
  - `Adjacency.DetectAdjacencyV2AsWritten` proves that the second detector then returns openings only.
- **Corrected (1):** `Adjacency.DetectAdjacencyV2` uses the corrected ray.
