# A verified model of the catchment-delineation helpers

This project is a Dafny model of the deterministic core of the catchment
delineation tools. It covers two parts. The first is the bounding-box
fault-isolation search of `bbox-test.py`. The second is the pure algorithms
of the Java helpers that the pipeline calls. Each model states its
behaviour as contracts, and the proofs check them for all inputs.

- **Fault-isolation search** (`BBoxSearch`). A LIFO stack of sample
  areas. For each area it prepares an input file: the segment records with
  an end point inside the area, then a padded boundary rectangle. It runs
  the external Voronoi tool on that file. An area on which the tool fails
  is recorded and split into a k-by-k grid.
- **Segment text format** (`SegmentText`, `VoronoiScripts`, `FilterSpec`).
  The `s x1 y1  x2 y2` writer and the positional reader. Also the bounding
  polygon and the two-point check of the Voronoi input, the conversion of
  the tool's output to WKT with skipping of bad lines, the splitting of
  lines into segment features, and the `attr:v1,v2` whitelist/blacklist
  filters.
- **Polyline operations** (`Geom`, `SpatialUtils`, `MidpointSmoother`,
  `EliminationSmoother`, `LineSegmenter`, `JunctionFinder`, `VectorUtils`).
  Smoothing, de-duplication, slicing, indexed access, segmentation,
  junction detection and compass angles.
- **Routing** (`Router`, `RouteEdit`, `WaterRouter`). Greedy routing
  through the TIN (triangulated irregular network), truncation, end-point
  tests and junction moves. Also re-routing around a moved vertex, which
  must respect confluences of the water network.
- **TIN triangle assembly** (`TinEdge`, `TinTriangle`, `TriangleBuilder`).
  A triangle accepts at most three edges, and its count of distinct
  vertices must match its count of edges.
- **Voronoi cleanup** (`VoronoiCleaner`, `KeptAndDiscarded`). Around a
  confluence, water features and Voronoi edges should alternate in angle
  order. A Voronoi edge that follows another Voronoi edge is a doubled edge
  and is discarded. The result keeps the original edges minus the
  discarded ones.
- **Improvement bookkeeping** (`Metrics`, `SetImprover`, `Junctions`,
  `Coverage`, `Modification`, `Catchments`, `SetImprovement`,
  `RadiusImprover`, `Fitness`, `UnionTracker`, `RidgeGrowth`). Counters
  with Java integer wrap-around, and no-improvement counters per key.
  Order-independent junction identifiers. Replace-by-FID (feature
  identifier) collections that always answer with a section's latest
  version. The confluence-first improvement order, candidate vertices
  sorted by elevation, fitness sums, the union tracking of the ridge
  cleaner, and the ridge-growth tests.
- **Arithmetic helpers** (`Uncertainty`, `BufferAlg`, `ElevationAdjuster`,
  `GridBuilder`). Comparisons within an uncertainty, buffer-distance
  interpolation, elevation adjustment by distance to water, and grid
  construction.

Some conventions hold throughout:

- Things the core only calls into are function-typed parameters. These are
  the external Voronoi tool, TIN adjacency, water predicates, fitness
  functions, JTS geometric predicates, `atan2` angles, and number rendering
  and parsing.
- Exceptions are the `Err` side of a `Result`. `null` is `None`.
- JTS `Coordinate.equals` compares x and y only. So list membership of
  coordinates is membership up to `SameXY`.
- Where the source has a defect, the module models both a variant
  `AsWritten` and a variant `Corrected`. The rest of the model uses the
  corrected one (see Findings).
- `writeGeometry` and the filter parsers are copied verbatim into several
  scripts: `PrepCgalVoronoiInput.java`, `SegmentLinestrings.java` and
  `FilterEdgeCodes.java`. One model covers every copy.

Where the design documentation and the code disagree, the model follows
the code:

- The search records every failing area. It does not record only the
  irreducible ones.
- `GridBuilder.getGridCells` gives a cell to a partial slot at the far
  edge, although its comment says partial cells are skipped.
- `isCoordinateMovable` never looks at the previous vertex.
- The partial route of `PartialSumTouchingJunctionFitness` keeps every
  point of the section.
- `splitIntoSegments` numbers its pieces `fid-2` to `fid-n`, by the
  position of each piece's second coordinate.
- Java's `String.split` drops trailing empty strings.
- Every area's file is prepared from the master input file
  (`bbox-test.py:70` passes `args.in_filename`), not from its parent's
  file. Only the initial area honours `--in-file-excludes-bbox-header`
  (`bbox-test.py:63-64`); every child is created with the flag off
  (`bbox-test.py:21`). So when the master file carries the four-line
  header, a child reads those four lines as records, and a header that is
  not a segment line makes its preparation fail.

## Model

| member | source | states |
|---|---|---|
| BBoxSearch.ISqrt | bbox-test/bbox-test.py:85 | `int(math.sqrt(n))` computed exactly: the largest k with k·k ≤ n |
| BBoxSearch.Grid | bbox-test/bbox-test.py:94-106 | the k² children in row-major order, child i holding cell (i / k, i % k) and the next id, without header |
| BBoxSearch.Subdivide | bbox-test/bbox-test.py:84-106 | fails exactly when the division is below 1 (math domain error or zero width divisor); otherwise yields int(sqrt(division))² new areas and advances the id counter by that many |
| BBoxSearch.Slot | bbox-test/bbox-test.py:94-102 | every coordinate of an axis interval falls in the closed span of some grid step r < k |
| BBoxSearch.SubdivideCovers | bbox-test/bbox-test.py:94-106 | the children tile the parent: every point of the parent box lies in some child box |
| BBoxSearch.SubdivideWithin | bbox-test/bbox-test.py:97-103 | every child box lies inside its parent box |
| BBoxSearch.CellWithin | bbox-test/bbox-test.py:99-102 | cell (row, col) spans xmin + row·w/k .. + w/k and ymin + col·h/k .. + h/k, inside the parent |
| BBoxSearch.DefaultDivisionIsTwoByTwo | bbox-test/bbox-test.py:42-86 | the default division of 4 splits a failing area into a 2-by-2 grid |
| BBoxSearch.ParseRecord | bbox-test/bbox-test.py:177-181 | a record line parses exactly when its fields 1, 2, 4, 5 are numbers; otherwise the first of those fields, in that order, that is missing is an IndexError and the first that is present but not a number a ValueError |
| BBoxSearch.ParseRecordOrder | bbox-test/bbox-test.py:177-178 | `s abc` fails with a ValueError on its first number although it is also too short, and `s` with an IndexError |
| BBoxSearch.Records | bbox-test/bbox-test.py:171-181 | parsing the body succeeds exactly when every line parses, and then pairs each line with its segment, in order |
| BBoxSearch.Body | bbox-test/bbox-test.py:175-176 | with the header flag the first four lines are skipped (all of a shorter file); without it every line is read |
| BBoxSearch.Select | bbox-test/bbox-test.py:189-191 | the kept records are an ordered subsequence of the input, each with an end point in the box, and every record with an end point in the box is kept |
| BBoxSearch.Lower | bbox-test/bbox-test.py:193-196 | the new bound is the old one or the new value, the value when no bound is set; corrected, or as written with a non-zero bound, it is the smaller of the two; as written, a bound of 0.0 is replaced by the value |
| BBoxSearch.Upper | bbox-test/bbox-test.py:197-200 | the new bound is the old one or the new value, the value when no bound is set; corrected, or as written with a non-zero bound, it is the larger of the two; as written, a bound of 0.0 is replaced by the value |
| BBoxSearch.Extent | bbox-test/bbox-test.py:184-200 | after at least one kept record all four bounds are set |
| BBoxSearch.ExtentEncloses | bbox-test/bbox-test.py:184-200 | with the corrected test, the bounds enclose both end points of every kept record |
| BBoxSearch.ExtentTight | bbox-test/bbox-test.py:184-200 | with the corrected test, each of the four bounds is the matching end point coordinate of some kept record |
| BBoxSearch.BoundaryRing | bbox-test/bbox-test.py:203-211 | four segments padded by 10 that form a closed rectangle, counter-clockwise from the lower-left corner |
| BBoxSearch.PrepareInFile | bbox-test/bbox-test.py:159-214 | fails exactly when a body line does not parse; otherwise the file holds the kept records, followed by four boundary records exactly when at least one record was kept |
| BBoxSearch.PreparedRecords | bbox-test/bbox-test.py:189-191 | the file starts with the text of the selected records, in input order |
| BBoxSearch.PrepareKeeps | bbox-test/bbox-test.py:174-191 | every record line written is a well-formed body line with an end point in the box |
| BBoxSearch.PrepareFinds | bbox-test/bbox-test.py:174-191 | every body line with an end point in the box is written |
| BBoxSearch.BoundaryOf | bbox-test/bbox-test.py:203-211 | the boundary adds exactly four lines |
| BBoxSearch.BoundaryReadsBack | bbox-test/bbox-test.py:204-211 | when the number format reads the padded bounds back exactly, each boundary line parses as the ring side it was written from |
| BBoxSearch.PreparedBoundary | bbox-test/bbox-test.py:203-211 | the record count written is the number of kept records; with none the file is empty, otherwise the lines after the records are the boundary of the kept records |
| BBoxSearch.PreparedFileEncloses | bbox-test/bbox-test.py:184-211 | corrected, the lines after the records read back as a ring whose x- and y-ranges strictly enclose both end points of every record line of the file |
| BBoxSearch.RecordLineParses | bbox-test/bbox-test.py:177-190 | the text of a selected record parses back as its segment |
| BBoxSearch.NumLinesInFile | bbox-test/bbox-test.py:138-143 | the line count, except that an empty file also counts as 1 |
| BBoxSearch.NumSegments | bbox-test/bbox-test.py:73-114 | as written, a file with one kept record already counts more than 1 (the boundary records are counted); corrected, only two or more kept records do |
| BBoxSearch.Init | bbox-test/bbox-test.py:63-66 | the loop starts with one area, id 1, whose header flag is the negation of `--in-file-excludes-bbox-header`, no failures, and the id counter at 2 |
| BBoxSearch.StepIsLifo | bbox-test/bbox-test.py:68-75 | one iteration takes the newest area, leaves the older ones in place, and records it as a failure exactly when the tool fails |
| BBoxSearch.StepStack | bbox-test/bbox-test.py:68-75 | after one iteration the stack has lost its top and gained the children of a failing area that counts more than one segment, and the step fails only if such a split has a division below 1 |
| BBoxSearch.StepKeepsIdsFresh | bbox-test/bbox-test.py:17-23 | every queued or failed area keeps an id below the counter, and the counter never decreases |
| BBoxSearch.Step | bbox-test/bbox-test.py:68-75 | one iteration leaves the older areas of the stack in place, adds at most one failure to the end of the list, never lowers the id counter, and fails only when preparing the area's file fails or a split has a division below 1 |
| BBoxSearch.Run | bbox-test/bbox-test.py:67-75 | the loop only appends to the failure list; an empty stack finishes at once; a crash happens only on a step; running out of fuel leaves areas queued |
| BBoxSearch.PopPush | bbox-test/bbox-test.py:69-75 | popping the top area and pushing header-less children keeps a point trapped when some child holds it |
| BBoxSearch.OneRecordPrepared | bbox-test/bbox-test.py:171-192 | with a one-record input read without header, the prepared file keeps the record exactly when the box holds one of its end points |
| BBoxSearch.OneRecordKids | bbox-test/bbox-test.py:68-75 | with a one-record input and a failing tool, a step replaces the top area by header-less children, one of which holds the record's first end point whenever the top area did |
| BBoxSearch.TrappedStep | bbox-test/bbox-test.py:68-75 | as written, such a step keeps the record's first end point inside some queued header-less area |
| BBoxSearch.SingleSegmentNeverFinishes | bbox-test/bbox-test.py:68-143 | as written, a one-segment input on which the tool always fails never empties the stack, however many iterations are allowed |
| BBoxSearch.InitTrapped | bbox-test/bbox-test.py:63-66 | the start state traps every point of the initial box |
| BBoxSearch.CorrectedStopsAtOneSegment | bbox-test/bbox-test.py:71-75 | corrected, a failing area with at most one kept record is recorded but not split, so the stack shrinks by one |
| BBoxSearch.CorrectedSplitsMany | bbox-test/bbox-test.py:71-75 | corrected, a failing area with two or more kept records is replaced by int(sqrt(division))² children |
| BBoxSearch.ZeroBoundIsForgotten | bbox-test/bbox-test.py:193-194 | as written, a first kept minimum x of 0.0 is overwritten by a later larger minimum, so the padded boundary no longer encloses the point (0, 0) |
| BBoxSearch.CorrectedRingEncloses | bbox-test/bbox-test.py:193-211 | corrected, every end point of every kept record lies strictly inside the boundary ring |
| BufferAlg.Fraction | catchment-delineation-helpers/src/main/java/ca/bc/gov/catchment/algorithms/BufferAlg.java:123-132 | the clamped fraction lies in [0, 1]: 0 for a slope of -0.5 or more, 1 for -10 or less, and the linear position of the slope in between |
| BufferAlg.ScaleBounds | catchment-delineation-helpers/src/main/java/ca/bc/gov/catchment/algorithms/BufferAlg.java:133 | scaling the distance range by a fraction keeps the result between zero and the range |
| BufferAlg.BufferDistance | catchment-delineation-helpers/src/main/java/ca/bc/gov/catchment/algorithms/BufferAlg.java:115-139 | the post-condition exception is thrown exactly when the maximum distance is below the minimum; otherwise the distance lies in [min, max], is min for gentle ridges and max for steep ones |
| BufferAlg.SteeperIsWider | catchment-delineation-helpers/src/main/java/ca/bc/gov/catchment/algorithms/BufferAlg.java:118-133 | the distance is monotone: a steeper ridge (smaller maximum slope) never gets a narrower buffer |
| BufferAlg.Interpolates | catchment-delineation-helpers/src/main/java/ca/bc/gov/catchment/algorithms/BufferAlg.java:120-133 | inside the sloped band the distance is the linear interpolation between the bounds |
| ElevationAdjuster.Adjustment | catchment-delineation-helpers/src/main/java/ca/bc/gov/catchment/algorithms/ElevationAdjuster.java:84-89 | the adjustment is a twentieth of the distance, capped at a twentieth of 500, and lies between 0 and 25 for any non-negative distance |
| ElevationAdjuster.AdjustmentMonotone | catchment-delineation-helpers/src/main/java/ca/bc/gov/catchment/algorithms/ElevationAdjuster.java:84-89 | farther from water never means a smaller adjustment |
| ElevationAdjuster.AddZ | catchment-delineation-helpers/src/main/java/ca/bc/gov/catchment/algorithms/ElevationAdjuster.java:60 | the new elevation differs from the old by the adjustment; a NaN elevation stays NaN |
| ElevationAdjuster.AdjustCoord | catchment-delineation-helpers/src/main/java/ca/bc/gov/catchment/algorithms/ElevationAdjuster.java:43-65 | x and y are kept, z is raised by the adjustment of the cached or queried distance, the cache only gains this position, keeps its old entries, and stays consistent with the water query |
| ElevationAdjuster.CacheIsTransparent | catchment-delineation-helpers/src/main/java/ca/bc/gov/catchment/algorithms/ElevationAdjuster.java:45-57 | a cache that agrees with the water query does not change any adjusted coordinate |
| ElevationAdjuster.AdjustCoordUncached | catchment-delineation-helpers/src/main/java/ca/bc/gov/catchment/algorithms/ElevationAdjuster.java:46-60 | without a cache, a point near water is raised by the adjustment of its distance; with no water at all it is raised by 25 when corrected and by 1.25 as written |
| ElevationAdjuster.NoWaterIsFarthest | catchment-delineation-helpers/src/main/java/ca/bc/gov/catchment/algorithms/ElevationAdjuster.java:49-50 | corrected, a point with no water anywhere is raised at least as much as a point at any distance from water |
| ElevationAdjuster.NoWaterRaisedTooLittle | catchment-delineation-helpers/src/main/java/ca/bc/gov/catchment/algorithms/ElevationAdjuster.java:49-59 | as written, a point with no water is raised by 1.25 while a point 100 units from water is raised by 5 |
| ElevationAdjuster.AdjustAllStep | catchment-delineation-helpers/src/main/java/ca/bc/gov/catchment/algorithms/ElevationAdjuster.java:69-72 | one loop step with a consistent cache gives the uncached result |
| ElevationAdjuster.AdjustAll | catchment-delineation-helpers/src/main/java/ca/bc/gov/catchment/algorithms/ElevationAdjuster.java:68-72 | every coordinate is adjusted in order, keeping its x and y, each as if no cache existed, and the cache stays consistent |
| ElevationAdjuster.AdjustGeometry | catchment-delineation-helpers/src/main/java/ca/bc/gov/catchment/algorithms/ElevationAdjuster.java:67-82 | line strings keep all coordinates and points their first, each adjusted; other geometry types are refused with IllegalArgumentException and an empty point has no first coordinate |
| EliminationSmoother.SmoothImpl | catchment-delineation-helpers/src/main/java/ca/bc/gov/catchment/algorithms/EliminationSmoother.java:31-53 | the index-skipping scan returns exactly the vertices of the independent keep rule, in order: a vertex is dropped exactly when its predecessor is kept and its successor is higher |
| EliminationSmoother.NeverTwoDropped | catchment-delineation-helpers/src/main/java/ca/bc/gov/catchment/algorithms/EliminationSmoother.java:37-48 | of two consecutive vertices at least one is kept |
| EliminationSmoother.DropRule | catchment-delineation-helpers/src/main/java/ca/bc/gov/catchment/algorithms/EliminationSmoother.java:37-45 | vertex i + 1 is dropped exactly when vertex i is kept and vertex i + 2 is higher than i + 1 |
| EliminationSmoother.KeptPrefixSubseq | catchment-delineation-helpers/src/main/java/ca/bc/gov/catchment/algorithms/EliminationSmoother.java:32-50 | the kept vertices form a subsequence of the input |
| EliminationSmoother.KeptPrefixStart | catchment-delineation-helpers/src/main/java/ca/bc/gov/catchment/algorithms/EliminationSmoother.java:33-36 | the first vertex is always kept first |
| EliminationSmoother.KeptPrefixShape | catchment-delineation-helpers/src/main/java/ca/bc/gov/catchment/algorithms/EliminationSmoother.java:31-53 | the kept vertices of the whole line form a subsequence with the line's first and last vertex, two or more when the line has two or more |
| EliminationSmoother.Eliminate | catchment-delineation-helpers/src/main/java/ca/bc/gov/catchment/algorithms/EliminationSmoother.java:31-53 | one pass keeps a subsequence of the line with both its end points, and at least two vertices of a line of two or more |
| EliminationSmoother.EliminateShape | catchment-delineation-helpers/src/main/java/ca/bc/gov/catchment/algorithms/EliminationSmoother.java:31-53 | one pass keeps a subsequence that starts and ends with the input's end points, and at least two points of a line of two or more |
| EliminationSmoother.SmoothShape | catchment-delineation-helpers/src/main/java/ca/bc/gov/catchment/algorithms/EliminationSmoother.java:23-29 | any number of passes keeps a subsequence with the same first and last points |
| EliminationSmoother.Smooth | catchment-delineation-helpers/src/main/java/ca/bc/gov/catchment/algorithms/EliminationSmoother.java:23-29 | any number of passes keeps a subsequence of the line with both its end points |
| EliminationSmoother.SmoothAdds | catchment-delineation-helpers/src/main/java/ca/bc/gov/catchment/algorithms/EliminationSmoother.java:23-29 | a passes followed by b passes equal a + b passes |
| GridBuilder.Clamp01 | catchment-delineation-helpers/src/main/java/ca/bc/gov/catchment/algorithms/GridBuilder.java:36 | the gutter fraction is clamped to [0, 1] and a fraction already inside is kept |
| GridBuilder.SlotCount | catchment-delineation-helpers/src/main/java/ca/bc/gov/catchment/algorithms/GridBuilder.java:33-44 | the number of loop iterations is the least whole number not below extent / resolution (none when that quotient is not positive) |
| GridBuilder.Column | catchment-delineation-helpers/src/main/java/ca/bc/gov/catchment/algorithms/GridBuilder.java:44-52 | a column holds one cell per row slot, in row order |
| GridBuilder.Cell | catchment-delineation-helpers/src/main/java/ca/bc/gov/catchment/algorithms/GridBuilder.java:36-48 | the cell lies within slot (i, j), centred in it, and with a gutter fraction in [0, 1] its sides are (1 - gutter)·res |
| GridBuilder.SlotIndex | catchment-delineation-helpers/src/main/java/ca/bc/gov/catchment/algorithms/GridBuilder.java:43-53 | slot (i, j) of a column-by-column listing lies inside the list |
| GridBuilder.Columns | catchment-delineation-helpers/src/main/java/ca/bc/gov/catchment/algorithms/GridBuilder.java:43-53 | the list holds the cell of slot (i, j) at position i·ny + j, and nothing else |
| GridBuilder.GridGrows | catchment-delineation-helpers/src/main/java/ca/bc/gov/catchment/algorithms/GridBuilder.java:43-53 | appending the next column to a grid of nx - 1 columns gives the grid of nx columns |
| GridBuilder.GridSlot | catchment-delineation-helpers/src/main/java/ca/bc/gov/catchment/algorithms/GridBuilder.java:43-53 | slot (i, j) of the wider grid is the old grid's cell for earlier columns and the new column's cell for the last |
| GridBuilder.GridCells | catchment-delineation-helpers/src/main/java/ca/bc/gov/catchment/algorithms/GridBuilder.java:26-55 | the result lists, column by column, the cell of every slot of the slot counts along x and y |
| GridBuilder.SlotsCoverLength | catchment-delineation-helpers/src/main/java/ca/bc/gov/catchment/algorithms/GridBuilder.java:32-43 | the slots reach the far edge and none starts beyond it, so a partial slot at the end still gets a cell |
| GridBuilder.CellInSlot | catchment-delineation-helpers/src/main/java/ca/bc/gov/catchment/algorithms/GridBuilder.java:36-48 | each cell is a square of side (1 - gutter)·res centred in its slot, the gutter split evenly on both sides |
| GridBuilder.NoGutterCovers | catchment-delineation-helpers/src/main/java/ca/bc/gov/catchment/algorithms/GridBuilder.java:26-55 | without a gutter every point of a non-empty extent lies in the cell of some slot of the grid |
| GridBuilder.SlotOf | catchment-delineation-helpers/src/main/java/ca/bc/gov/catchment/algorithms/GridBuilder.java:43-46 | every offset along an axis lies in the span of some slot |
| JunctionFinder.Collect | catchment-delineation-helpers/src/main/java/ca/bc/gov/catchment/algorithms/JunctionFinder.java:80-92 | the collected list holds exactly the junction vertices among the first n: on the other line with at least one neighbour off it or missing |
| JunctionFinder.OneWay | catchment-delineation-helpers/src/main/java/ca/bc/gov/catchment/algorithms/JunctionFinder.java:76-94 | the one-way list holds exactly the vertices of g1 that are junctions with g2 |
| JunctionFinder.EndsOnLineAreJunctions | catchment-delineation-helpers/src/main/java/ca/bc/gov/catchment/algorithms/JunctionFinder.java:81-89 | an end vertex lying on the other line is always reported, since its missing neighbour counts as unconnected |
| JunctionFinder.AddAbsent | catchment-delineation-helpers/src/main/java/ca/bc/gov/catchment/algorithms/JunctionFinder.java:35-41 | the merged list keeps the first list as its prefix, holds every added coordinate in 2D, and each appended coordinate comes from the second list and was not yet present |
| JunctionFinder.JunctionsMerge | catchment-delineation-helpers/src/main/java/ca/bc/gov/catchment/algorithms/JunctionFinder.java:29-43 | the two-way result starts with g1's junctions, covers every junction of g2 with g1, and holds nothing else |
| JunctionFinder.Junctions | catchment-delineation-helpers/src/main/java/ca/bc/gov/catchment/algorithms/JunctionFinder.java:29-43 | the result starts with g1's one-way junctions unchanged and holds every one-way junction of g2 |
| LineSegmenter.Scan | catchment-delineation-helpers/src/main/java/ca/bc/gov/catchment/algorithms/LineSegmenter.java:35-48 | every closed piece has at least two points |
| LineSegmenter.Segment | catchment-delineation-helpers/src/main/java/ca/bc/gov/catchment/algorithms/LineSegmenter.java:26-51 | an empty line fails (it has no last coordinate); otherwise every piece has at least two points |
| LineSegmenter.SegmentAll | catchment-delineation-helpers/src/main/java/ca/bc/gov/catchment/algorithms/LineSegmenter.java:20-24 | splitting on every vertex fails exactly for an empty line, and otherwise every piece has at least two points |
| LineSegmenter.DistinctCons | catchment-delineation-helpers/src/main/java/ca/bc/gov/catchment/algorithms/LineSegmenter.java:35-38 | the tail of a line with distinct vertices is distinct and does not repeat the head |
| LineSegmenter.ScanAllVertices | catchment-delineation-helpers/src/main/java/ca/bc/gov/catchment/algorithms/LineSegmenter.java:35-48 | when every later vertex is a split point and the vertices are distinct, the scan emits the consecutive two-point segments |
| LineSegmenter.SegmentAllIsSegments | catchment-delineation-helpers/src/main/java/ca/bc/gov/catchment/algorithms/LineSegmenter.java:20-24 | splitting on all vertices of a line with distinct vertices gives its n - 1 consecutive segments |
| LineSegmenter.ScanChains | catchment-delineation-helpers/src/main/java/ca/bc/gov/catchment/algorithms/LineSegmenter.java:35-48 | with distinct vertices each piece ends at a split coordinate or the line's last coordinate, each next piece starts where the previous ended, and the first piece starts with the open piece |
| LineSegmenter.FreshNext | catchment-delineation-helpers/src/main/java/ca/bc/gov/catchment/algorithms/LineSegmenter.java:36-46 | with distinct vertices the next coordinate is new to the open piece, and both the grown piece and a piece restarted at it stay distinct from the rest |
| LineSegmenter.Number | catchment-delineation-helpers/src/main/java/ca/bc/gov/catchment/algorithms/LineSegmenter.java:53-65 | the pieces keep their order and get consecutive identifiers starting at startFid |
| MidpointSmoother.Mids | catchment-delineation-helpers/src/main/java/ca/bc/gov/catchment/algorithms/MidpointSmoother.java:48-54 | one midpoint per pair of consecutive points, in order |
| MidpointSmoother.Pass | catchment-delineation-helpers/src/main/java/ca/bc/gov/catchment/algorithms/MidpointSmoother.java:44-60 | a pass over n points yields n + 1: the first point, the midpoint of every consecutive pair, then the last point |
| MidpointSmoother.SmoothPass | catchment-delineation-helpers/src/main/java/ca/bc/gov/catchment/algorithms/MidpointSmoother.java:44-64 | the scan that remembers the previous point computes exactly that pass |
| MidpointSmoother.Iterate | catchment-delineation-helpers/src/main/java/ca/bc/gov/catchment/algorithms/MidpointSmoother.java:43-65 | passes never lose points |
| MidpointSmoother.IterateShape | catchment-delineation-helpers/src/main/java/ca/bc/gov/catchment/algorithms/MidpointSmoother.java:43-65 | k passes add k points and keep both end points; a non-positive count changes nothing |
| MidpointSmoother.Smooth | catchment-delineation-helpers/src/main/java/ca/bc/gov/catchment/algorithms/MidpointSmoother.java:31-70 | a non-line geometry throws IllegalStateException; a line of at most two points or zero passes is returned unchanged; otherwise k passes add k points and keep the end points |
| MidpointSmoother.PassStaysInBox | catchment-delineation-helpers/src/main/java/ca/bc/gov/catchment/algorithms/MidpointSmoother.java:48-58 | a pass never leaves any axis-parallel box holding its input |
| MidpointSmoother.IterateStaysInBox | catchment-delineation-helpers/src/main/java/ca/bc/gov/catchment/algorithms/MidpointSmoother.java:43-65 | any number of passes stays within that box |
| MidpointSmoother.IterateAdds | catchment-delineation-helpers/src/main/java/ca/bc/gov/catchment/algorithms/MidpointSmoother.java:43-65 | a passes then b passes equal a + b passes |
| Modification.New | catchment-delineation-helpers/src/main/java/ca/bc/gov/catchment/improvement/SectionModification.java:19-23 | a new modification has no touching sections and counts as unmodified |
| Modification.SetModifiedSection | catchment-delineation-helpers/src/main/java/ca/bc/gov/catchment/improvement/SectionModification.java:25-30 | a section with another FID is refused with IllegalArgumentException; otherwise it becomes the modified version and nothing else changes |
| Modification.AddModifiedTouchingSection | catchment-delineation-helpers/src/main/java/ca/bc/gov/catchment/improvement/SectionModification.java:32-34 | the touching list grows by the one section, at its end |
| Modification.SetModifiedTouchingSections | catchment-delineation-helpers/src/main/java/ca/bc/gov/catchment/improvement/SectionModification.java:36-41 | after clearing and refilling, the touching list is exactly the given list |
| Modification.AddAllTouching | catchment-delineation-helpers/src/main/java/ca/bc/gov/catchment/improvement/SectionModification.java:38-40 | adding a list one by one appends it in order |
| Modification.SetModifiedSectionIsModified | catchment-delineation-helpers/src/main/java/ca/bc/gov/catchment/improvement/SectionModification.java:25-58 | a section with the right FID is accepted, it counts as a modification exactly when it differs from the original, and setting the original back undoes it |
| Uncertainty.Interpretation | catchment-delineation-helpers/src/main/java/ca/bc/gov/catchment/uncertainty/UncertaintyHelpers.java:14-46 | "definitely higher (or same)" holds exactly when every pair of values within the uncertainty intervals is ordered that way, and "could be higher (or same)" exactly when some pair is |
| Uncertainty.Implications | catchment-delineation-helpers/src/main/java/ca/bc/gov/catchment/uncertainty/UncertaintyHelpers.java:14-46 | definite implies possible and strict implies non-strict; with zero uncertainty each could/definitely pair coincides |
| Uncertainty.Duality | catchment-delineation-helpers/src/main/java/ca/bc/gov/catchment/uncertainty/UncertaintyHelpers.java:14-46 | a could be higher than b exactly when b is not definitely at or above a, and likewise with strictness swapped |
| Uncertainty.NaNIsNeverHigher | catchment-delineation-helpers/src/main/java/ca/bc/gov/catchment/uncertainty/UncertaintyHelpers.java:14-46 | a NaN elevation on either side makes the tests false |
| Uncertainty.CouldBeHigherOrSame | catchment-delineation-helpers/src/main/java/ca/bc/gov/catchment/uncertainty/UncertaintyHelpers.java:14-16 | false when either elevation is NaN; true whenever a is actually at or above b |
| Uncertainty.CouldBeHigher | catchment-delineation-helpers/src/main/java/ca/bc/gov/catchment/uncertainty/UncertaintyHelpers.java:24-26 | implies "could be higher or same"; true whenever a is actually above b |
| Uncertainty.DefinitelyHigher | catchment-delineation-helpers/src/main/java/ca/bc/gov/catchment/uncertainty/UncertaintyHelpers.java:34-36 | implies "definitely higher or same" and, with a non-negative uncertainty, that a is actually above b; on two elevations it holds exactly when b could not be at or above a |
| Uncertainty.DefinitelyHigherOrSame | catchment-delineation-helpers/src/main/java/ca/bc/gov/catchment/uncertainty/UncertaintyHelpers.java:44-46 | with a non-negative uncertainty implies that a is actually at or above b and could be; on two elevations it holds exactly when b could not be higher than a |
| VectorUtils.CompassAngle | catchment-delineation-helpers/src/main/java/ca/bc/gov/catchment/utils/VectorUtils.java:45-51 | the result differs from the angle by whole turns; non-negative angles land in [0, 360) and are kept when already there, negative ones land in (0, 360] |
| VectorUtils.IntCast | catchment-delineation-helpers/src/main/java/ca/bc/gov/catchment/utils/VectorUtils.java:47 | the Java cast of a non-negative double truncates and saturates at the largest int |
| VectorUtils.JavaCompassAngle | catchment-delineation-helpers/src/main/java/ca/bc/gov/catchment/utils/VectorUtils.java:45-51 | with n and n*360 computed as Java ints, a non-negative angle is handled as in the exact model |
| VectorUtils.JavaCompassAngleAgrees | catchment-delineation-helpers/src/main/java/ca/bc/gov/catchment/utils/VectorUtils.java:45-51 | above -2147483520 degrees the Java int arithmetic gives exactly the compass angle |
| VectorUtils.JavaCompassAngleOverflows | catchment-delineation-helpers/src/main/java/ca/bc/gov/catchment/utils/VectorUtils.java:46-48 | at -2147483520 degrees n*360 wraps and the result is a large negative number instead of 360 |
| VectorUtils.CompassAngleExamples | catchment-delineation-helpers/src/main/java/ca/bc/gov/catchment/utils/VectorUtils.java:40-51 | -45 becomes 315 as documented, 405 becomes 45, and -360 becomes 360 rather than 0 |
| VectorUtils.TrajectoryDiff | catchment-delineation-helpers/src/main/java/ca/bc/gov/catchment/utils/VectorUtils.java:27-38 | the turn lies in [-180, 180] and differs from the difference of the compass angles by at most one whole turn |
| VectorUtils.TrajectoryDiffProperties | catchment-delineation-helpers/src/main/java/ca/bc/gov/catchment/utils/VectorUtils.java:27-38 | the same heading twice is no turn, and turning back is the opposite turn |
| VectorUtils.TrajectoryDiffExamples | catchment-delineation-helpers/src/main/java/ca/bc/gov/catchment/utils/VectorUtils.java:20-38 | from 45 to 60 is a left turn of 15 and from 60 to 340 a right turn of 80 |
| Geom.Midpoint | catchment-delineation-helpers/src/main/java/ca/bc/gov/catchment/algorithms/MidpointSmoother.java:49-52 | the midpoint is equidistant from both ends in x and y, and its elevation is the average (NaN when either is NaN) lying between the two |
| SegmentText.Split | bbox-test/bbox-test.py:177 | Python's split on one character yields at least one piece and no piece holds the separator |
| SegmentText.SplitJoin | bbox-test/bbox-test.py:177 | splitting a join recovers the parts when no part holds the separator |
| SegmentText.JoinSplit | bbox-test/bbox-test.py:177 | joining a split gives the text back |
| SegmentText.JavaSplit | catchment-delineation-helpers/src/main/java/ca/bc/gov/catchment/scripts/VoronoiInput2GeoPackage.java:250 | Java's split is a prefix of Python's split (trailing empty pieces dropped) whose pieces are free of the separator |
| SegmentText.DropTrailingEmpty | catchment-delineation-helpers/src/main/java/ca/bc/gov/catchment/scripts/VoronoiInput2GeoPackage.java:250 | the kept prefix does not end in an empty piece and only empty pieces were dropped |
| SegmentText.SegmentLineAsJoin | catchment-delineation-helpers/src/main/java/ca/bc/gov/catchment/scripts/PrepCgalVoronoiInput.java:276 | the written line `s x1 y1  x2 y2` is the space-join of six pieces, the fourth empty |
| SegmentText.Fields | bbox-test/bbox-test.py:177-181 | the four numeric fields exist exactly when the line splits into at least six pieces |
| SegmentText.JavaFields | catchment-delineation-helpers/src/main/java/ca/bc/gov/catchment/scripts/VoronoiInput2GeoPackage.java:250-254 | the Java reader also selects four fields |
| SegmentText.FieldsOfSegmentLine | catchment-delineation-helpers/src/main/java/ca/bc/gov/catchment/scripts/PrepCgalVoronoiInput.java:276 | reading a written line with either reader returns the four written tokens |
| SegmentText.ParseSeg | catchment-delineation-helpers/src/main/java/ca/bc/gov/catchment/scripts/VoronoiInput2GeoPackage.java:250-254 | a segment is read exactly when the fields exist and all four parse as numbers |
| SegmentText.ReadFields | catchment-delineation-helpers/src/main/java/ca/bc/gov/catchment/scripts/VoronoiInput2GeoPackage.java:250-253 | reading the fields from a given one on succeeds exactly when each is present and a number, gives their values in order, and otherwise fails as the first failing field does: missing is an index error, malformed the reader's number error |
| SegmentText.ReadSeg | catchment-delineation-helpers/src/main/java/ca/bc/gov/catchment/scripts/VoronoiInput2GeoPackage.java:250-253 | the segment of pieces 1, 2, 4, 5 when the line has six pieces and all four are numbers; otherwise the failure of the first of those pieces, in that order, that is missing or malformed |
| SegmentText.ReadSegPython | bbox-test/bbox-test.py:177-181 | over Python's split, reading in order succeeds exactly when the four selected fields parse, with the same segment |
| SegmentText.ReadSegJava | catchment-delineation-helpers/src/main/java/ca/bc/gov/catchment/scripts/VoronoiInput2GeoPackage.java:249-253 | over Java's split, reading in order succeeds exactly when the four selected fields parse, with the same segment |
| SegmentText.SegRoundTrip | catchment-delineation-helpers/src/main/java/ca/bc/gov/catchment/scripts/VoronoiInput2GeoPackage.java:246-255 | writing a segment and reading it back with either reader gives the segment, whenever the number codec reads back its own output |
| KeptAndDiscarded.Add | catchment-delineation-helpers/src/main/java/ca/bc/gov/catchment/voronoi/KeptAndDiscarded.java:27-29 | adding to a feature collection files the feature under its FID unless that FID is already held, in which case nothing changes; the size grows by one exactly for a new FID |
| KeptAndDiscarded.Fids | catchment-delineation-helpers/src/main/java/ca/bc/gov/catchment/voronoi/KeptAndDiscarded.java:31-33 | the FID set holds exactly the identifiers of the listed features |
| KeptAndDiscarded.AddAll | catchment-delineation-helpers/src/main/java/ca/bc/gov/catchment/voronoi/KeptAndDiscarded.java:31-33 | adding a list gains exactly the list's FIDs |
| KeptAndDiscarded.AddAllKeeps | catchment-delineation-helpers/src/main/java/ca/bc/gov/catchment/voronoi/KeptAndDiscarded.java:31-33 | adding a list never replaces a feature already held, so the collection only grows |
| KeptAndDiscarded.AddAllFrom | catchment-delineation-helpers/src/main/java/ca/bc/gov/catchment/voronoi/KeptAndDiscarded.java:31-33 | every feature gained comes from the list and is filed under its own FID |
| KeptAndDiscarded.New | catchment-delineation-helpers/src/main/java/ca/bc/gov/catchment/voronoi/KeptAndDiscarded.java:18-21 | a new object holds no kept and no discarded feature |
| KeptAndDiscarded.AddKept | catchment-delineation-helpers/src/main/java/ca/bc/gov/catchment/voronoi/KeptAndDiscarded.java:27-37 | the kept FIDs gain this one, the kept count grows exactly when it is new, and discarded is untouched |
| KeptAndDiscarded.AddKeptAll | catchment-delineation-helpers/src/main/java/ca/bc/gov/catchment/voronoi/KeptAndDiscarded.java:31-33 | the kept FIDs gain the list's, the count never shrinks, and discarded is untouched |
| KeptAndDiscarded.AddDiscarded | catchment-delineation-helpers/src/main/java/ca/bc/gov/catchment/voronoi/KeptAndDiscarded.java:43-53 | the discarded FIDs gain this one, the count grows exactly when it is new, and kept is untouched |
| KeptAndDiscarded.AddDiscardedAll | catchment-delineation-helpers/src/main/java/ca/bc/gov/catchment/voronoi/KeptAndDiscarded.java:47-49 | the discarded FIDs gain the list's, the count never shrinks, and kept is untouched |
| KeptAndDiscarded.Clean | catchment-delineation-helpers/src/main/java/ca/bc/gov/catchment/voronoi/KeptAndDiscarded.java:55-90 | the kept features become exactly those whose FID is not discarded, each unchanged; discarded is untouched |
| KeptAndDiscarded.CleanLaws | catchment-delineation-helpers/src/main/java/ca/bc/gov/catchment/voronoi/KeptAndDiscarded.java:55-90 | after cleaning nothing is both kept and discarded, cleaning again changes nothing, and the kept count never grows |
| KeptAndDiscarded.Dispose | catchment-delineation-helpers/src/main/java/ca/bc/gov/catchment/voronoi/KeptAndDiscarded.java:130-133 | both collections are emptied |
| KeptAndDiscarded.Merge | catchment-delineation-helpers/src/main/java/ca/bc/gov/catchment/voronoi/KeptAndDiscarded.java:92-128 | discarded becomes the union of both sides; as written, kept is this side's kept minus everything the other side kept or discarded; corrected, kept is what either side kept and neither discarded |
| KeptAndDiscarded.MergeRules | catchment-delineation-helpers/src/main/java/ca/bc/gov/catchment/voronoi/KeptAndDiscarded.java:92-99 | corrected, the two documented rules hold: a FID discarded on either side is discarded, nothing is both kept and discarded, and a FID kept on a side and discarded on neither stays kept |
| KeptAndDiscarded.MergeIsCleanOfUnion | catchment-delineation-helpers/src/main/java/ca/bc/gov/catchment/voronoi/KeptAndDiscarded.java:55-99 | corrected, merging equals cleaning the union, the faster route the source itself recommends |
| KeptAndDiscarded.MergeLosesOthersKept | catchment-delineation-helpers/src/main/java/ca/bc/gov/catchment/voronoi/KeptAndDiscarded.java:118-127 | as written, a feature kept by the other side and discarded nowhere ends up neither kept nor discarded; corrected, it is kept |
| Metrics.WrapInt | catchment-delineation-helpers/src/main/java/ca/bc/gov/catchment/improvement/ImprovementMetrics.java:5-8 | a Java int wrap-around lands in the 32-bit range and leaves in-range values alone |
| Metrics.WrapIntCongruent | catchment-delineation-helpers/src/main/java/ca/bc/gov/catchment/improvement/ImprovementMetrics.java:100-104 | the wrapped value differs from the exact one by a multiple of 2^32 |
| Metrics.WrapLong | catchment-delineation-helpers/src/main/java/ca/bc/gov/catchment/improvement/ImprovementMetrics.java:102 | a Java long wrap-around lands in the 64-bit range, differs by a multiple of 2^64, and leaves in-range values alone |
| Metrics.WrapSucc | catchment-delineation-helpers/src/main/java/ca/bc/gov/catchment/improvement/ImprovementMetrics.java:27-33 | bumping a wrapped counter is the wrap of the next value, so n increments from 0 read n modulo 2^32 |
| Metrics.New | catchment-delineation-helpers/src/main/java/ca/bc/gov/catchment/improvement/ImprovementMetrics.java:11-17 | every counter starts at zero |
| Metrics.IncImproved | catchment-delineation-helpers/src/main/java/ca/bc/gov/catchment/improvement/ImprovementMetrics.java:27-29 | only the improvement count changes: one more, or wrapped to the least int after the greatest |
| Metrics.IncAlternativesTested | catchment-delineation-helpers/src/main/java/ca/bc/gov/catchment/improvement/ImprovementMetrics.java:31-33 | only `numAlternativesTested` changes: one more, or wrapped after the greatest int |
| Metrics.IncImprovementRequests | catchment-delineation-helpers/src/main/java/ca/bc/gov/catchment/improvement/ImprovementMetrics.java:59-61 | only the request count changes: one more, or wrapped after the greatest int |
| Metrics.IncValidAlternativesTested | catchment-delineation-helpers/src/main/java/ca/bc/gov/catchment/improvement/ImprovementMetrics.java:71-73 | only `numValidAlternativesTested` changes: one more, or wrapped after the greatest int |
| Metrics.Merge | catchment-delineation-helpers/src/main/java/ca/bc/gov/catchment/improvement/ImprovementMetrics.java:91-105 | a null record changes nothing; otherwise every counter becomes the sum of both, modulo the width of its Java type |
| Metrics.MergeLaws | catchment-delineation-helpers/src/main/java/ca/bc/gov/catchment/improvement/ImprovementMetrics.java:96-105 | merging is symmetric, merging a fresh record changes nothing, and without overflow it is plain addition |
| Metrics.Round | catchment-delineation-helpers/src/main/java/ca/bc/gov/catchment/improvement/ImprovementMetrics.java:79-87 | Math.round gives the whole number within a half of its argument, halves rounded up |
| Metrics.AvgPerTest | catchment-delineation-helpers/src/main/java/ca/bc/gov/catchment/improvement/ImprovementMetrics.java:83-89 | -1 exactly when the runtime or the test count is not positive; otherwise a non-negative value r with runtime within half a test of r per test |
| Metrics.RoundBrackets | catchment-delineation-helpers/src/main/java/ca/bc/gov/catchment/improvement/ImprovementMetrics.java:79-87 | the rounded quotient brackets the runtime between the neighbouring half-way multiples of the divisor |
| Metrics.AvgPerRequest | catchment-delineation-helpers/src/main/java/ca/bc/gov/catchment/improvement/ImprovementMetrics.java:75-81 | as written, -1 when the runtime or the test count is not positive and Long.MAX_VALUE when tests exist but no request; corrected, -1 exactly when the runtime or the request count is not positive, else the rounded mean per request |
| Metrics.AvgPerRequestWithoutRequests | catchment-delineation-helpers/src/main/java/ca/bc/gov/catchment/improvement/ImprovementMetrics.java:76-79 | as written, 10 ms with one test and no request yields Long.MAX_VALUE; corrected, -1 |
| Metrics.AvgPerRequestAgree | catchment-delineation-helpers/src/main/java/ca/bc/gov/catchment/improvement/ImprovementMetrics.java:75-81 | the two versions agree whenever there was at least one request and one test |
| Coverage.New | catchment-delineation-helpers/src/main/java/ca/bc/gov/catchment/improvement/ImprovementCoverageItem.java:12-16 | a new item has both counters at zero and no FIDs |
| Coverage.Note | catchment-delineation-helpers/src/main/java/ca/bc/gov/catchment/improvement/ImprovementCoverageItem.java:20-24 | a null FID leaves the list alone; otherwise the list keeps its order and grows by at most one, at its end |
| Coverage.NoteSpec | catchment-delineation-helpers/src/main/java/ca/bc/gov/catchment/improvement/ImprovementCoverageItem.java:20-24 | after noting, a non-null FID is listed, nothing else new is listed, and the list stays free of repeats |
| Coverage.IncrementTotal | catchment-delineation-helpers/src/main/java/ca/bc/gov/catchment/improvement/ImprovementCoverageItem.java:18-25 | the total counter goes up by one as a Java int, the valid counter is untouched and the FID is noted |
| Coverage.IncrementValid | catchment-delineation-helpers/src/main/java/ca/bc/gov/catchment/improvement/ImprovementCoverageItem.java:27-34 | the valid counter goes up by one as a Java int, the total counter is untouched and the FID is noted |
| Coverage.ReplayCounts | catchment-delineation-helpers/src/main/java/ca/bc/gov/catchment/improvement/ImprovementCoverageItem.java:12-34 | after any sequence of calls on a new item, each counter is the number of calls of its kind modulo 2^32 |
| Coverage.ReplayLast | catchment-delineation-helpers/src/main/java/ca/bc/gov/catchment/improvement/ImprovementCoverageItem.java:18-34 | one more call bumps exactly its own counter and its own call count |
| Coverage.ReplayFids | catchment-delineation-helpers/src/main/java/ca/bc/gov/catchment/improvement/ImprovementCoverageItem.java:12-34 | after any sequence of calls the FID list holds each FID named by some call exactly once, and nothing else |
| Coverage.MentionedSnoc | catchment-delineation-helpers/src/main/java/ca/bc/gov/catchment/improvement/ImprovementCoverageItem.java:18-34 | a FID is named by the calls exactly when it is named before the last call or by the last call |
| Coverage.FidsAsString | catchment-delineation-helpers/src/main/java/ca/bc/gov/catchment/improvement/ImprovementCoverageItem.java:48-50 | the rendering is bracketed by "[" and "]" |
| Coverage.JoinCommaSnoc | catchment-delineation-helpers/src/main/java/ca/bc/gov/catchment/improvement/ImprovementCoverageItem.java:48-50 | listing one more FID appends ", fid" (just "fid" to an empty list) |
| Coverage.FidsAsStringAfterIncrement | catchment-delineation-helpers/src/main/java/ca/bc/gov/catchment/improvement/ImprovementCoverageItem.java:18-50 | an increment that lists a new FID inserts it before the closing bracket, with ", " after earlier FIDs; one that lists none leaves the rendering unchanged |
| Coverage.JoinCommaLength | catchment-delineation-helpers/src/main/java/ca/bc/gov/catchment/improvement/ImprovementCoverageItem.java:48-50 | the rendering's length is the FIDs' lengths plus two characters between neighbours |
| Fitness.GeomFitnessAppend | catchment-delineation-helpers/src/main/java/ca/bc/gov/catchment/fitness/SectionFitness.java:64-75 | the fitness of two joined lines is the sum of their fitnesses plus that of the joining pair |
| Fitness.GeomFitnessSnoc | catchment-delineation-helpers/src/main/java/ca/bc/gov/catchment/fitness/SectionFitness.java:64-75 | the loop's running sum: one more point adds the fitness of the last pair |
| Fitness.GeomFitnessReverse | catchment-delineation-helpers/src/main/java/ca/bc/gov/catchment/fitness/SectionFitness.java:64-75 | with a symmetric pair fitness, a line read backwards has the same fitness |
| Fitness.FitnessSumAppend | catchment-delineation-helpers/src/main/java/ca/bc/gov/catchment/fitness/SectionFitness.java:27-35 | the sum over two joined lists is the sum of the two sums |
| Fitness.FitnessSumIgnoresOrder | catchment-delineation-helpers/src/main/java/ca/bc/gov/catchment/fitness/SectionFitness.java:27-52 | the list and the collection forms agree: the sum does not depend on the order the sections are visited |
| Fitness.FitnessAvg | catchment-delineation-helpers/src/main/java/ca/bc/gov/catchment/fitness/SectionFitness.java:54-62 | an empty list yields NaN; otherwise the average times the count is the sum |
| Fitness.ToLineString | catchment-delineation-helpers/src/main/java/ca/bc/gov/catchment/utils/SpatialUtils.java:211-215 | a one-point list is refused with IllegalArgumentException; any other list becomes a line with the same coordinates |
| Fitness.TakeFirst | catchment-delineation-helpers/src/main/java/ca/bc/gov/catchment/fitness/PartialSumTouchingJunctionFitness.java:45-52 | the first n coordinates, or all of them when there are fewer |
| Fitness.PartialRoute | catchment-delineation-helpers/src/main/java/ca/bc/gov/catchment/fitness/PartialSumTouchingJunctionFitness.java:53-76 | a section with fewer than n points is returned whole; otherwise one touching the junction at neither end is refused; as written the result is the whole section read from the junction's end, corrected only its first n points; the route starts at the junction |
| Fitness.PartialRouteKeepsAllPoints | catchment-delineation-helpers/src/main/java/ca/bc/gov/catchment/fitness/PartialSumTouchingJunctionFitness.java:45-63 | as written, a four-point section with the default n of 3 yields all four points; corrected, the three nearest the junction |
| Fitness.PartialRouteCorrected | catchment-delineation-helpers/src/main/java/ca/bc/gov/catchment/fitness/PartialSumTouchingJunctionFitness.java:45-76 | corrected, the partial route is the first n points of the section read from the junction's end |
| Fitness.JunctionFitness | catchment-delineation-helpers/src/main/java/ca/bc/gov/catchment/fitness/PartialSumTouchingJunctionFitness.java:35-43 | the junction fitness is defined exactly when every touching section's partial route is; otherwise the route's exception |
| Fitness.FitnessOfJunction | catchment-delineation-helpers/src/main/java/ca/bc/gov/catchment/fitness/PartialSumTouchingJunctionFitness.java:26-43 | with the default n of 3, defined exactly when every partial route is |
| Fitness.AsWrittenIsWholeSections | catchment-delineation-helpers/src/main/java/ca/bc/gov/catchment/fitness/PartialSumTouchingJunctionFitness.java:35-76 | as written, with a symmetric pair fitness, a junction's fitness is the total fitness of its whole touching sections |
| Fitness.CorrectedSumsPrefixes | catchment-delineation-helpers/src/main/java/ca/bc/gov/catchment/fitness/PartialSumTouchingJunctionFitness.java:19-43 | corrected, a junction's fitness sums the fitness of the n vertices nearest the junction on each section |
| Junctions.StrLeTotal | catchment-delineation-helpers/src/main/java/ca/bc/gov/catchment/improvement/Junction.java:52-56 | String.compareTo orders any two FIDs one way or the other |
| Junctions.StrLeAntisymmetric | catchment-delineation-helpers/src/main/java/ca/bc/gov/catchment/improvement/Junction.java:52-56 | two FIDs each at or before the other are equal |
| Junctions.StrLeTransitive | catchment-delineation-helpers/src/main/java/ca/bc/gov/catchment/improvement/Junction.java:52-56 | the FID order is transitive |
| Junctions.Ids | catchment-delineation-helpers/src/main/java/ca/bc/gov/catchment/improvement/Junction.java:59-64 | the FID list has one entry per section, in order |
| Junctions.SortedCons | catchment-delineation-helpers/src/main/java/ca/bc/gov/catchment/improvement/Junction.java:52-56 | a FID at or before the head of a sorted list extends it to a sorted list |
| Junctions.Insert | catchment-delineation-helpers/src/main/java/ca/bc/gov/catchment/improvement/Junction.java:52-56 | inserting adds one section, at the front or behind the old head |
| Junctions.InsertSorted | catchment-delineation-helpers/src/main/java/ca/bc/gov/catchment/improvement/Junction.java:52-56 | inserting into a list sorted by FID keeps it sorted |
| Junctions.InsertPerm | catchment-delineation-helpers/src/main/java/ca/bc/gov/catchment/improvement/Junction.java:52-56 | inserting adds exactly the one section |
| Junctions.InsertPermIds | catchment-delineation-helpers/src/main/java/ca/bc/gov/catchment/improvement/Junction.java:52-56 | inserting adds exactly the one FID |
| Junctions.SortById | catchment-delineation-helpers/src/main/java/ca/bc/gov/catchment/improvement/Junction.java:52-56 | sorting keeps the number of sections |
| Junctions.SortByIdSorted | catchment-delineation-helpers/src/main/java/ca/bc/gov/catchment/improvement/Junction.java:52-56 | the sorted sections are ordered by FID |
| Junctions.SortByIdPerm | catchment-delineation-helpers/src/main/java/ca/bc/gov/catchment/improvement/Junction.java:52-56 | the sorted list holds the same sections, each as often |
| Junctions.SortByIdPermIds | catchment-delineation-helpers/src/main/java/ca/bc/gov/catchment/improvement/Junction.java:52-56 | the sorted list holds the same FIDs, each as often |
| Junctions.SortByIdSpec | catchment-delineation-helpers/src/main/java/ca/bc/gov/catchment/improvement/Junction.java:51-56 | sorting gives a permutation of the sections ordered by FID |
| Junctions.SortedHeads | catchment-delineation-helpers/src/main/java/ca/bc/gov/catchment/improvement/Junction.java:52-56 | two sorted FID lists with the same FIDs start with the same FID |
| Junctions.SortedUnique | catchment-delineation-helpers/src/main/java/ca/bc/gov/catchment/improvement/Junction.java:52-56 | two sorted FID lists holding the same FIDs are the same list |
| Junctions.JoinLoopIsJoinFromEmpty | catchment-delineation-helpers/src/main/java/ca/bc/gov/catchment/improvement/Junction.java:58-64 | with non-empty FIDs the concatenation loop puts exactly one '.' between neighbouring FIDs |
| Junctions.JoinLoopIsJoin | catchment-delineation-helpers/src/main/java/ca/bc/gov/catchment/improvement/Junction.java:58-64 | continuing the loop from non-empty text appends '.' and the joined FIDs |
| Junctions.GetId | catchment-delineation-helpers/src/main/java/ca/bc/gov/catchment/improvement/Junction.java:46-69 | the sections are left sorted by FID as a permutation of the input, and the identifier is "{}" with no section and otherwise the sorted FIDs joined by '.' inside braces |
| Junctions.SortedJoin | catchment-delineation-helpers/src/main/java/ca/bc/gov/catchment/improvement/Junction.java:58-64 | over non-empty FIDs, the loop on the sorted list is the '.'-join |
| Junctions.GetIdIgnoresOrder | catchment-delineation-helpers/src/main/java/ca/bc/gov/catchment/improvement/Junction.java:46-50 | the identifier depends only on which FIDs touch, not on their order |
| Junctions.GetIdStable | catchment-delineation-helpers/src/main/java/ca/bc/gov/catchment/improvement/Junction.java:31-56 | asking again, on the list the first call left sorted, gives the same identifier |
| Junctions.JunctionId | catchment-delineation-helpers/src/main/java/ca/bc/gov/catchment/improvement/Junction.java:19-33 | the junction keeps its coordinate, sections and degree (only their order changes), and the identifier is the one of its sections |
| Junctions.JunctionIdStable | catchment-delineation-helpers/src/main/java/ca/bc/gov/catchment/improvement/Junction.java:31-33 | the identifier survives the sort it performs |
| Junctions.EqualIsEquivalence | catchment-delineation-helpers/src/main/java/ca/bc/gov/catchment/improvement/Junction.java:35-44 | junction equality is reflexive, symmetric and transitive |
| Junctions.Equal | catchment-delineation-helpers/src/main/java/ca/bc/gov/catchment/improvement/Junction.java:35-44 | equal junctions share their 2D position; junctions at one position whose sections carry the same FIDs in any order are equal |
| Junctions.EqualIgnoresOrder | catchment-delineation-helpers/src/main/java/ca/bc/gov/catchment/improvement/Junction.java:35-44 | junctions at the same 2D position whose sections carry the same FIDs in any order are equal, including the junction left after asking for the identifier |
| RadiusImprover.AddCoordinate | catchment-delineation-helpers/src/main/java/ca/bc/gov/catchment/improvement/RadiusCatchmentSetImprover.java:474-487 | the route grows by the coordinate at its end unless its last coordinate already equals it in 2D, and it stays free of adjacent repeats |
| RadiusImprover.AddAllIsDedup | catchment-delineation-helpers/src/main/java/ca/bc/gov/catchment/improvement/RadiusCatchmentSetImprover.java:474-487 | adding the coordinates one by one to an empty route is the shared removal of adjacent duplicates |
| RadiusImprover.AddAllAfter | catchment-delineation-helpers/src/main/java/ca/bc/gov/catchment/improvement/RadiusCatchmentSetImprover.java:474-487 | adding to a route ending at p appends the input with its adjacent duplicates (and a leading copy of p) removed |
| RadiusImprover.HybridCoords | catchment-delineation-helpers/src/main/java/ca/bc/gov/catchment/improvement/RadiusCatchmentSetImprover.java:314-332 | more picked than original coordinates overruns the array; otherwise the result has the original's length, the picked coordinates first and the original's remaining ones after |
| RadiusImprover.UninspectedCoords | catchment-delineation-helpers/src/main/java/ca/bc/gov/catchment/improvement/RadiusCatchmentSetImprover.java:334-346 | the coordinates from the first one equal in 2D to the given one to the end; none when no coordinate equals it |
| RadiusImprover.TinCoordsInRadius | catchment-delineation-helpers/src/main/java/ca/bc/gov/catchment/improvement/RadiusCatchmentSetImprover.java:443-471 | the result lists, each position once, exactly the queried vertices within the radius |
| RadiusImprover.TooClose | catchment-delineation-helpers/src/main/java/ca/bc/gov/catchment/improvement/RadiusCatchmentSetImprover.java:384-389 | the avoid loop stops exactly when some avoided coordinate is strictly nearer the candidate than the original is |
| RadiusImprover.Filter | catchment-delineation-helpers/src/main/java/ca/bc/gov/catchment/improvement/RadiusCatchmentSetImprover.java:370-396 | a candidate without elevation throws; otherwise the kept candidates are distinct, each from the proposals, strictly higher than the original and not nearer an avoided coordinate, and every such proposal is kept |
| RadiusImprover.InsertZ | catchment-delineation-helpers/src/main/java/ca/bc/gov/catchment/improvement/RadiusCatchmentSetImprover.java:400-412 | inserting by elevation adds exactly the one coordinate |
| RadiusImprover.SortByZ | catchment-delineation-helpers/src/main/java/ca/bc/gov/catchment/improvement/RadiusCatchmentSetImprover.java:399-412 | sorting by elevation permutes the coordinates |
| RadiusImprover.InsertZSorted | catchment-delineation-helpers/src/main/java/ca/bc/gov/catchment/improvement/RadiusCatchmentSetImprover.java:400-412 | inserting into a list sorted highest first keeps it sorted |
| RadiusImprover.SortByZSorted | catchment-delineation-helpers/src/main/java/ca/bc/gov/catchment/improvement/RadiusCatchmentSetImprover.java:399-412 | the sorted list runs from highest to lowest |
| RadiusImprover.SameElementsDistinct | catchment-delineation-helpers/src/main/java/ca/bc/gov/catchment/improvement/RadiusCatchmentSetImprover.java:399-415 | a permutation of positions without repeats has none either |
| RadiusImprover.SuggestAlternatives | catchment-delineation-helpers/src/main/java/ca/bc/gov/catchment/improvement/RadiusCatchmentSetImprover.java:348-416 | an original without elevation throws IllegalArgumentException; with elevated proposals the call succeeds with distinct elevated candidates |
| RadiusImprover.SuggestionsDescend | catchment-delineation-helpers/src/main/java/ca/bc/gov/catchment/improvement/RadiusCatchmentSetImprover.java:399-412 | the suggestions run from highest to lowest |
| RadiusImprover.SuggestionsAdmissible | catchment-delineation-helpers/src/main/java/ca/bc/gov/catchment/improvement/RadiusCatchmentSetImprover.java:367-396 | every suggestion is a nearby vertex strictly higher than the original and not nearer an avoided coordinate |
| RadiusImprover.SuggestionsComplete | catchment-delineation-helpers/src/main/java/ca/bc/gov/catchment/improvement/RadiusCatchmentSetImprover.java:367-396 | every admissible nearby vertex is among the suggestions |
| RadiusImprover.Propose | catchment-delineation-helpers/src/main/java/ca/bc/gov/catchment/improvement/RadiusCatchmentSetImprover.java:279-288 | route by route, route i replaces the geometry of section i keeping its FID and is then scored; it succeeds exactly when no route overruns the sections and every fitness succeeds, and otherwise fails with an overrun or a fitness error |
| RadiusImprover.Evaluate | catchment-delineation-helpers/src/main/java/ca/bc/gov/catchment/improvement/RadiusCatchmentSetImprover.java:266-297 | a RouteException from the router or a move that touches water skips the alternative; any other router failure propagates, as does a failure while scoring; a candidate moves this junction to this alternative with the summed fitness of the moved routes |
| RadiusImprover.EvaluateAll | catchment-delineation-helpers/src/main/java/ca/bc/gov/catchment/improvement/RadiusCatchmentSetImprover.java:263-298 | every alternative is evaluated in order, and the loop fails exactly when evaluating some alternative fails |
| RadiusImprover.Pick | catchment-delineation-helpers/src/main/java/ca/bc/gov/catchment/improvement/RadiusCatchmentSetImprover.java:296-305 | the sorted map by fitness picks a candidate exactly when one exists: one of greatest fitness, later than any other of that fitness |
| RadiusImprover.PickUnique | catchment-delineation-helpers/src/main/java/ca/bc/gov/catchment/improvement/RadiusCatchmentSetImprover.java:296-305 | the pick is the only candidate with those properties |
| RadiusImprover.ImproveJunction | catchment-delineation-helpers/src/main/java/ca/bc/gov/catchment/improvement/RadiusCatchmentSetImprover.java:245-311 | a junction without elevation throws IllegalArgumentException; otherwise the call fails exactly when evaluating some suggested alternative fails, and the proposal moves this junction either nowhere or to one of the suggestions |
| RadiusImprover.ImproveJunctionPropagates | catchment-delineation-helpers/src/main/java/ca/bc/gov/catchment/improvement/RadiusCatchmentSetImprover.java:266-271 | a router failure other than a RouteException, at any suggested alternative, fails the whole call |
| RadiusImprover.ImproveJunctionBest | catchment-delineation-helpers/src/main/java/ca/bc/gov/catchment/improvement/RadiusCatchmentSetImprover.java:263-306 | when the call succeeds, the proposal comes from a valid move among the suggestions at least as fit as any other valid move |
| RadiusImprover.ImproveJunctionNoMove | catchment-delineation-helpers/src/main/java/ca/bc/gov/catchment/improvement/RadiusCatchmentSetImprover.java:266-309 | when every suggested alternative fails with a RouteException or touches water, the junction stays where it is |
| RidgeGrowth.RefIndex | catchment-delineation-helpers/src/main/java/ca/bc/gov/catchment/ridgegrowth/RidgeGrowthHelpers.java:32 | the reference index is the floor of three quarters of the point count, and inside the stem when the stem has points |
| RidgeGrowth.IsMovingAway | catchment-delineation-helpers/src/main/java/ca/bc/gov/catchment/ridgegrowth/RidgeGrowthHelpers.java:31-41 | an empty stem throws; otherwise true exactly when the next point is farther than the stem's end from the vertex three quarters along |
| RidgeGrowth.RefIndexPlacement | catchment-delineation-helpers/src/main/java/ca/bc/gov/catchment/ridgegrowth/RidgeGrowthHelpers.java:16-32 | the reference vertex is the end on stems of up to four points and an earlier vertex on longer ones |
| RidgeGrowth.ShortStemMovesAwayFromEnd | catchment-delineation-helpers/src/main/java/ca/bc/gov/catchment/ridgegrowth/RidgeGrowthHelpers.java:31-41 | on a short stem, moving away means being any distance from the end |
| RidgeGrowth.EndIsNotMovingAway | catchment-delineation-helpers/src/main/java/ca/bc/gov/catchment/ridgegrowth/RidgeGrowthHelpers.java:31-41 | returning to the stem's own end is never moving away |
| RidgeGrowth.IsCoordValidInRidge | catchment-delineation-helpers/src/main/java/ca/bc/gov/catchment/ridgegrowth/RidgeGrowthHelpers.java:51-67 | a point is valid exactly when no ridge point shares its x and y and it touches water only at a confluence |
| RidgeGrowth.OnRidge | catchment-delineation-helpers/src/main/java/ca/bc/gov/catchment/ridgegrowth/RidgeGrowthHelpers.java:55-59 | the loop finds a ridge point exactly when one shares the point's x and y |
| RidgeGrowth.Extend | catchment-delineation-helpers/src/main/java/ca/bc/gov/catchment/ridgegrowth/RidgeGrowthHelpers.java:75-81 | the stem keeps its points and holds the extension afterwards, growing by one point exactly when the extension was not yet on it; an empty stem yields a one-point line, which throws |
| RidgeGrowth.ExtendWithValidPoint | catchment-delineation-helpers/src/main/java/ca/bc/gov/catchment/ridgegrowth/RidgeGrowthHelpers.java:51-81 | extending a ridge with repeat-free positions by a valid point appends it and keeps the positions repeat-free |
| SetImprover.ResetStatistics | catchment-delineation-helpers/src/main/java/ca/bc/gov/catchment/improvement/SetImprover.java:24-27 | after a reset every section and junction counter reads 0 and every stored counter is an int |
| SetImprover.Increment | catchment-delineation-helpers/src/main/java/ca/bc/gov/catchment/improvement/SetImprover.java:54-81 | incrementing stores a counter under the key and under no new other key |
| SetImprover.ResetKey | catchment-delineation-helpers/src/main/java/ca/bc/gov/catchment/improvement/SetImprover.java:66-86 | resetting stores a counter under the key and under no new other key |
| SetImprover.IncrementAddsOne | catchment-delineation-helpers/src/main/java/ca/bc/gov/catchment/improvement/SetImprover.java:54-94 | both branches of the increment read back as the previous count plus one (unseen keys read 0); other keys keep their count |
| SetImprover.ResetKeyReadsZero | catchment-delineation-helpers/src/main/java/ca/bc/gov/catchment/improvement/SetImprover.java:66-94 | a reset key reads 0; other keys keep their count |
| SetImprover.IncrementWraps | catchment-delineation-helpers/src/main/java/ca/bc/gov/catchment/improvement/SetImprover.java:57-59 | the Java int counter wraps from its maximum to its minimum |
| SetImprover.ResetThenIncrements | catchment-delineation-helpers/src/main/java/ca/bc/gov/catchment/improvement/SetImprover.java:54-94 | after a reset, n increments read n while n fits in an int, and other keys are untouched |
| SetImprover.CountingKeepsValid | catchment-delineation-helpers/src/main/java/ca/bc/gov/catchment/improvement/SetImprover.java:54-86 | incrementing and resetting keep every stored counter a Java int |
| SetImprover.IncrementSection | catchment-delineation-helpers/src/main/java/ca/bc/gov/catchment/improvement/SetImprover.java:71-102 | the section's counter, keyed by its FID, goes up by one; the junction counters are untouched |
| SetImprover.ResetSection | catchment-delineation-helpers/src/main/java/ca/bc/gov/catchment/improvement/SetImprover.java:83-102 | the section's counter reads 0; the junction counters are untouched |
| SetImprover.IncrementJunction | catchment-delineation-helpers/src/main/java/ca/bc/gov/catchment/improvement/SetImprover.java:54-94 | the junction's counter, keyed by its identifier, goes up by one; the section counters are untouched |
| SetImprover.ResetJunction | catchment-delineation-helpers/src/main/java/ca/bc/gov/catchment/improvement/SetImprover.java:66-94 | the junction's counter reads 0; the section counters are untouched |
| SetImprover.JunctionCounterIgnoresOrder | catchment-delineation-helpers/src/main/java/ca/bc/gov/catchment/improvement/SetImprover.java:54-94 | junctions with the same section FIDs in any order share one counter |
| SetImprover.StartImprove | catchment-delineation-helpers/src/main/java/ca/bc/gov/catchment/improvement/SetImprover.java:29-32 | improve starts from counters that are all ints |
| SetImprover.ImproveForgets | catchment-delineation-helpers/src/main/java/ca/bc/gov/catchment/improvement/SetImprover.java:29-32 | nothing counted before improve survives into it |
| SpatialUtils.RemoveDuplicateCoordinates | catchment-delineation-helpers/src/main/java/ca/bc/gov/catchment/utils/SpatialUtils.java:178-190 | the loop, which compares each coordinate with the previous input coordinate, computes the recursive removal of adjacent 2D duplicates |
| SpatialUtils.DedupAfterShape | catchment-delineation-helpers/src/main/java/ca/bc/gov/catchment/utils/SpatialUtils.java:178-190 | what follows a given coordinate is a subsequence of the input without adjacent 2D repeats and does not start with a repeat of it |
| SpatialUtils.DedupShape | catchment-delineation-helpers/src/main/java/ca/bc/gov/catchment/utils/SpatialUtils.java:178-190 | the result is a subsequence of the input, has no adjacent 2D repeats, and starts with the input's first coordinate |
| SpatialUtils.DedupAfterKeeps | catchment-delineation-helpers/src/main/java/ca/bc/gov/catchment/utils/SpatialUtils.java:178-190 | a run without adjacent repeats after a coordinate is kept whole |
| SpatialUtils.DedupFixed | catchment-delineation-helpers/src/main/java/ca/bc/gov/catchment/utils/SpatialUtils.java:178-190 | a line without adjacent 2D repeats is unchanged |
| SpatialUtils.DedupIdempotent | catchment-delineation-helpers/src/main/java/ca/bc/gov/catchment/utils/SpatialUtils.java:178-190 | removing duplicates twice is removing them once |
| SpatialUtils.DedupAfterCovers | catchment-delineation-helpers/src/main/java/ca/bc/gov/catchment/utils/SpatialUtils.java:178-190 | every dropped coordinate is 2D-equal to one kept, and the last position is kept |
| SpatialUtils.DedupCovers | catchment-delineation-helpers/src/main/java/ca/bc/gov/catchment/utils/SpatialUtils.java:178-190 | every input coordinate's position is still in the result, and the result ends at the input's last position |
| SpatialUtils.Slice | catchment-delineation-helpers/src/main/java/ca/bc/gov/catchment/utils/SpatialUtils.java:503-518 | the slice exists exactly when 0 <= from < to <= n-1 (otherwise IllegalArgumentException) and holds the coordinates from..to inclusive |
| SpatialUtils.SliceOfSlice | catchment-delineation-helpers/src/main/java/ca/bc/gov/catchment/utils/SpatialUtils.java:503-518 | a slice of a slice is the slice with the offsets added, and exists exactly when the inner range fits |
| SpatialUtils.CoordAtIndex | catchment-delineation-helpers/src/main/java/ca/bc/gov/catchment/utils/SpatialUtils.java:346-367 | an empty array or an index past the length is out of bounds; a start matching neither end is an illegal argument; otherwise the coordinate counted from the matching end, the first end winning |
| SpatialUtils.CoordAtIndexReverse | catchment-delineation-helpers/src/main/java/ca/bc/gov/catchment/utils/SpatialUtils.java:346-367 | when only one end matches the start, reversing the array gives the same coordinate |
| SpatialUtils.IndexOfCoordinate | catchment-delineation-helpers/src/main/java/ca/bc/gov/catchment/utils/SpatialUtils.java:372-381 | the index of the first 2D-equal coordinate, or -1 exactly when there is none |
| SpatialUtils.ToSegments | catchment-delineation-helpers/src/main/java/ca/bc/gov/catchment/utils/SpatialUtils.java:217-228 | one two-point segment per consecutive pair of coordinates, in order |
| SpatialUtils.SegmentsRebuild | catchment-delineation-helpers/src/main/java/ca/bc/gov/catchment/utils/SpatialUtils.java:217-228 | chaining the segments gives the line back |
| SpatialUtils.LowestCoord | catchment-delineation-helpers/src/main/java/ca/bc/gov/catchment/utils/SpatialUtils.java:445-453 | null exactly when every elevation is NaN; otherwise the first coordinate of least elevation |
| SpatialUtils.HighestCoord | catchment-delineation-helpers/src/main/java/ca/bc/gov/catchment/utils/SpatialUtils.java:473-481 | null exactly when every elevation is NaN; otherwise the first coordinate of greatest elevation |
| SpatialUtils.FromNullable | catchment-delineation-helpers/src/main/java/ca/bc/gov/catchment/utils/SpatialUtils.java:244-267 | a null array or list converts to an empty one, any other to the same coordinates |
| SpatialUtils.ConvertRoundTrip | catchment-delineation-helpers/src/main/java/ca/bc/gov/catchment/utils/SpatialUtils.java:244-267 | converting an array to a list and back gives the same coordinates |
| Catchments.OriginalFeatures | catchment-delineation-helpers/src/main/java/ca/bc/gov/catchment/CatchmentLines.java:133-138 | the original features are exactly the source's features that pass the default filter, all of them when there is none |
| Catchments.Keep | catchment-delineation-helpers/src/main/java/ca/bc/gov/catchment/CatchmentLines.java:133-138 | filtering keeps exactly the features that pass |
| Catchments.Create | catchment-delineation-helpers/src/main/java/ca/bc/gov/catchment/CatchmentLines.java:44-60 | a source without a schema throws IllegalArgumentException; otherwise the instance keeps the source and filter, files every source feature under its FID, takes the counter's id, and the counter advances as a Java int |
| Catchments.IdsIncrease | catchment-delineation-helpers/src/main/java/ca/bc/gov/catchment/CatchmentLines.java:29-59 | instances created one after another get consecutive ids until the counter passes the int maximum |
| Catchments.GetLatest | catchment-delineation-helpers/src/main/java/ca/bc/gov/catchment/CatchmentLines.java:180-202 | the updated version with the section's FID when there is one, otherwise the section itself; either way the same FID |
| Catchments.AddOrUpdate | catchment-delineation-helpers/src/main/java/ca/bc/gov/catchment/CatchmentLines.java:213-236 | an update changes only the updated collection, never the source, filter or id |
| Catchments.Remove | catchment-delineation-helpers/src/main/java/ca/bc/gov/catchment/CatchmentLines.java:230-232 | removal drops exactly the FID and keeps every other feature |
| Catchments.AddOrUpdateSpec | catchment-delineation-helpers/src/main/java/ca/bc/gov/catchment/CatchmentLines.java:204-236 | afterwards the feature's FID reads the feature, every other FID reads what it read before, and the collection stays keyed by FID |
| Catchments.AddOrUpdateLastWins | catchment-delineation-helpers/src/main/java/ca/bc/gov/catchment/CatchmentLines.java:204-236 | of two updates to one FID, the later wins |
| Catchments.Candidates | catchment-delineation-helpers/src/main/java/ca/bc/gov/catchment/CatchmentLines.java:160-173 | a failure is an index out of bounds on an empty section |
| Catchments.CandidatesErr | catchment-delineation-helpers/src/main/java/ca/bc/gov/catchment/CatchmentLines.java:162-165 | listing the ends fails exactly when some section's latest version has no coordinates |
| Catchments.CandidatesSound | catchment-delineation-helpers/src/main/java/ca/bc/gov/catchment/CatchmentLines.java:162-172 | every listed coordinate is a non-confluence end of a section's latest version |
| Catchments.GetJunctions | catchment-delineation-helpers/src/main/java/ca/bc/gov/catchment/CatchmentLines.java:155-178 | throws exactly when some original section's latest version is empty; otherwise every junction is a non-confluence end of a latest original section |
| Catchments.GetJunctionsComplete | catchment-delineation-helpers/src/main/java/ca/bc/gov/catchment/CatchmentLines.java:155-178 | every non-confluence end of a latest original section is among the junctions, and no two junctions coincide in 2D |
| Catchments.CandidatesComplete | catchment-delineation-helpers/src/main/java/ca/bc/gov/catchment/CatchmentLines.java:160-173 | every non-confluence end of every section is listed |
| Catchments.SectionsTouching | catchment-delineation-helpers/src/main/java/ca/bc/gov/catchment/CatchmentLines.java:92-115 | exactly the updated sections that touch the junction, each in its latest version |
| Catchments.Copy | catchment-delineation-helpers/src/main/java/ca/bc/gov/catchment/CatchmentLines.java:66-86 | with no original sections the fresh collection has no schema and the constructor throws an illegal argument; otherwise the copy has no default filter, holds exactly the original FIDs keyed by FID, and takes the next id |
| Catchments.Latest | catchment-delineation-helpers/src/main/java/ca/bc/gov/catchment/CatchmentLines.java:71-77 | each section is replaced by its latest version, in order |
| Catchments.CopyKeepsLatest | catchment-delineation-helpers/src/main/java/ca/bc/gov/catchment/CatchmentLines.java:66-86 | when the original sections have distinct FIDs, the copy succeeds and answers every original section with the version the original instance gives |
| Catchments.AddAllFinds | catchment-delineation-helpers/src/main/java/ca/bc/gov/catchment/CatchmentLines.java:57-76 | adding features with distinct FIDs to a collection without them files each under its FID |
| SetImprovement.HasEndpoint | catchment-delineation-helpers/src/main/java/ca/bc/gov/catchment/improvement/CatchmentSetImprover.java:197-206 | an empty route throws; otherwise true exactly when its first or last coordinate equals the point in 2D |
| SetImprovement.HasInteriorPoint | catchment-delineation-helpers/src/main/java/ca/bc/gov/catchment/improvement/CatchmentSetImprover.java:208-221 | true exactly when a coordinate strictly between the ends equals the point in 2D |
| SetImprovement.EndOrInterior | catchment-delineation-helpers/src/main/java/ca/bc/gov/catchment/improvement/CatchmentSetImprover.java:197-221 | a route passes through a point exactly when the point is one of its ends or interior points |
| SetImprovement.WaterEnds | catchment-delineation-helpers/src/main/java/ca/bc/gov/catchment/improvement/CatchmentSetImprover.java:134-145 | a touching water line without coordinates throws; otherwise the count is positive exactly when some touching water line ends at the point |
| SetImprovement.EndpointTouchesConfluence | catchment-delineation-helpers/src/main/java/ca/bc/gov/catchment/improvement/CatchmentSetImprover.java:121-150 | throws exactly when a touching water line is empty; otherwise true exactly when some touching water line ends at the point |
| SetImprovement.NumEndsTouchingConfluence | catchment-delineation-helpers/src/main/java/ca/bc/gov/catchment/improvement/CatchmentSetImprover.java:108-119 | an empty route throws; otherwise 0, 1 or 2, being 0 exactly when neither end is at a confluence and 2 exactly when both are; it throws exactly when testing an end throws |
| SetImprovement.AddOrUpdate | catchment-delineation-helpers/src/main/java/ca/bc/gov/catchment/improvement/CatchmentSetImprover.java:173-195 | afterwards the feature's FID reads the feature, every other FID reads what it read before, and the collection stays keyed by FID |
| SetImprovement.GetLatest | catchment-delineation-helpers/src/main/java/ca/bc/gov/catchment/improvement/CatchmentSetImprover.java:155-171 | the collection's version with the section's FID, otherwise the section itself |
| SetImprovement.Apply | catchment-delineation-helpers/src/main/java/ca/bc/gov/catchment/improvement/CatchmentSetImprover.java:70-92 | recording a modification files the modified section and every modified touching section under their FIDs |
| SetImprovement.AddOrUpdateAll | catchment-delineation-helpers/src/main/java/ca/bc/gov/catchment/improvement/CatchmentSetImprover.java:71-92 | adding a list files each feature under its FID and keeps the collection keyed by FID |
| SetImprovement.Pass | catchment-delineation-helpers/src/main/java/ca/bc/gov/catchment/improvement/CatchmentSetImprover.java:77-94 | a pass keeps the collection keyed by FID and never loses a FID; it succeeds whenever every improvement does, and a failure is the exception of improving a version of one of its sections |
| SetImprovement.ConfluencePass | catchment-delineation-helpers/src/main/java/ca/bc/gov/catchment/improvement/CatchmentSetImprover.java:58-75 | the first loop succeeds only when no section's test throws, succeeds whenever additionally every improvement does, and otherwise fails with a test's index error or an improvement's exception |
| SetImprovement.ImproveThrowsTail | catchment-delineation-helpers/src/main/java/ca/bc/gov/catchment/improvement/CatchmentSetImprover.java:59-75 | an improvement exception of the later sections is one of the whole list |
| SetImprovement.PassAppend | catchment-delineation-helpers/src/main/java/ca/bc/gov/catchment/improvement/CatchmentSetImprover.java:58-94 | a pass over two lists is the pass over the first continued over the second, unless the first throws |
| SetImprovement.ConfluencePassIsPass | catchment-delineation-helpers/src/main/java/ca/bc/gov/catchment/improvement/CatchmentSetImprover.java:58-75 | when no test throws, the first loop is exactly a pass over the sections at a confluence |
| SetImprovement.ConfluenceGroup | catchment-delineation-helpers/src/main/java/ca/bc/gov/catchment/improvement/CatchmentSetImprover.java:58-66 | the first loop handles exactly the sections with an end at a confluence |
| SetImprovement.OtherGroup | catchment-delineation-helpers/src/main/java/ca/bc/gov/catchment/improvement/CatchmentSetImprover.java:77-85 | the second loop handles exactly the other sections |
| SetImprovement.Improve | catchment-delineation-helpers/src/main/java/ca/bc/gov/catchment/improvement/CatchmentSetImprover.java:52-97 | a section whose confluence test throws makes the call throw; with improvements that never throw that is the only failure; any failure is a test's index error or the exception of improving a version of one of the sections; a result is keyed by FID |
| SetImprovement.OtherThrows | catchment-delineation-helpers/src/main/java/ca/bc/gov/catchment/improvement/CatchmentSetImprover.java:77-94 | an improvement exception of the second loop is one of the whole set |
| SetImprovement.ImproveIsPass | catchment-delineation-helpers/src/main/java/ca/bc/gov/catchment/improvement/CatchmentSetImprover.java:52-97 | when no test throws, the call is one pass over the confluence sections followed by the others |
| SetImprovement.ImproveThrowsFirst | catchment-delineation-helpers/src/main/java/ca/bc/gov/catchment/improvement/CatchmentSetImprover.java:59-68 | a first section at a confluence whose improvement throws ends the call with that exception, whatever later tests would do |
| SetImprovement.OrderConfluenceFirst | catchment-delineation-helpers/src/main/java/ca/bc/gov/catchment/improvement/CatchmentSetImprover.java:58-94 | the two loops together visit every section as often as the input lists it, and every section at a confluence comes before every other |
| SetImprovement.KeepSplits | catchment-delineation-helpers/src/main/java/ca/bc/gov/catchment/improvement/CatchmentSetImprover.java:58-94 | the two groups together hold every section exactly as often as the input |
| SetImprovement.KeepIsSubsequence | catchment-delineation-helpers/src/main/java/ca/bc/gov/catchment/improvement/CatchmentSetImprover.java:59-80 | each loop keeps the input order |
| SetImprovement.PassCoversSections | catchment-delineation-helpers/src/main/java/ca/bc/gov/catchment/improvement/CatchmentSetImprover.java:59-75 | when each improvement succeeds and keeps its section's FID, a pass succeeds and files a version of every section it visits |
| SetImprovement.ImproveCoversSections | catchment-delineation-helpers/src/main/java/ca/bc/gov/catchment/improvement/CatchmentSetImprover.java:52-97 | when each improvement succeeds and keeps its section's FID, a successful call holds a version of every input section |
| SetImprovement.PassUnchanged | catchment-delineation-helpers/src/main/java/ca/bc/gov/catchment/improvement/CatchmentSetImprover.java:59-94 | an improver that changes nothing succeeds and gives back every section of a set with distinct FIDs, unchanged |
| SetImprovement.PassKeeps | catchment-delineation-helpers/src/main/java/ca/bc/gov/catchment/improvement/CatchmentSetImprover.java:59-94 | an improver that changes nothing succeeds and never alters a FID it is not given |
| SetImprovement.ApplyUnchanged | catchment-delineation-helpers/src/main/java/ca/bc/gov/catchment/improvement/CatchmentSetImprover.java:70-73 | recording an unmodified section files exactly that section under its FID |
| RouteEdit.TruncateCoordinates | catchment-delineation-helpers/src/main/java/ca/bc/gov/catchment/routes/LineStringRouter.java:236-263 | too large a count is an illegal argument, as is a start matching neither end; a negative count overruns the array; otherwise the route loses exactly that many coordinates from the end that matches the start, the first end winning |
| RouteEdit.TruncateReverse | catchment-delineation-helpers/src/main/java/ca/bc/gov/catchment/routes/LineStringRouter.java:236-263 | trimming does not depend on which way the route runs: the reversed route trims to the reversed result |
| RouteEdit.ReverseSlices | catchment-delineation-helpers/src/main/java/ca/bc/gov/catchment/routes/LineStringRouter.java:245-256 | dropping from the front of a reversed route is taking from the back of the route, and the other way round |
| RouteEdit.IsEndPointOf | catchment-delineation-helpers/src/main/java/ca/bc/gov/catchment/routes/LineStringRouter.java:294-301 | an empty route has no first point and throws; otherwise true exactly when the point is first found at the start of the route or of its reverse |
| RouteEdit.TruncateNeedsEndPoint | catchment-delineation-helpers/src/main/java/ca/bc/gov/catchment/routes/LineStringRouter.java:236-301 | a route can be trimmed from a point by any count short of its length exactly when the point is an end point of it |
| RouteEdit.AlternativeRoutesGuard | catchment-delineation-helpers/src/main/java/ca/bc/gov/catchment/routes/LineStringRouter.java:133-143 | an empty route throws index out of bounds, an end point to route around throws illegal argument, and the search goes ahead exactly when the point is not an end point |
| RouteEdit.RemoveEndpoints | catchment-delineation-helpers/src/main/java/ca/bc/gov/catchment/routes/LineStringRouter.java:573-582 | fewer than two coordinates give none; otherwise the first point, the result and the last point make up the route |
| RouteEdit.RemoveEndpointsOfLine | catchment-delineation-helpers/src/main/java/ca/bc/gov/catchment/routes/LineStringRouter.java:584-593 | fewer than four coordinates throw; otherwise the interior, of at least two points, between the two ends |
| RouteEdit.TouchInsideSymmetric | catchment-delineation-helpers/src/main/java/ca/bc/gov/catchment/routes/LineStringRouter.java:535-571 | touching at non-end points is symmetric |
| RouteEdit.TouchesAtNonEndpoints | catchment-delineation-helpers/src/main/java/ca/bc/gov/catchment/routes/LineStringRouter.java:558-571 | true exactly when some interior coordinate of one route equals in 2D some interior coordinate of the other |
| RouteEdit.JunctionCheck | catchment-delineation-helpers/src/main/java/ca/bc/gov/catchment/routes/LineStringRouter.java:195-206 | validation passes exactly when the junction is an end point of every route; otherwise the first offending route decides the exception |
| RouteEdit.Included | catchment-delineation-helpers/src/main/java/ca/bc/gov/catchment/routes/LineStringRouter.java:212-221 | the coordinates a moved route must pass through are the route without its loose vertices, with the new junction at the end where the old one was |
| RouteEdit.AllMovedCons | catchment-delineation-helpers/src/main/java/ca/bc/gov/catchment/routes/LineStringRouter.java:210-226 | a moved route followed by the moved rest is the moved list |
| RouteEdit.Reroute | catchment-delineation-helpers/src/main/java/ca/bc/gov/catchment/routes/LineStringRouter.java:210-226 | every route that could be re-routed starts or ends at the new junction as it did, keeps its far end, and passes through every vertex that was not let loose |
| RouteEdit.MovedKeeps | catchment-delineation-helpers/src/main/java/ca/bc/gov/catchment/routes/LineStringRouter.java:212-224 | a route through the included coordinates is a moved route |
| RouteEdit.MoveJunction | catchment-delineation-helpers/src/main/java/ca/bc/gov/catchment/routes/LineStringRouter.java:177-233 | fewer than one loose vertex or a route the junction is not an end of throws illegal argument; a success gives one moved route per route, and the moved routes never overlap |
| Router.XYs | catchment-delineation-helpers/src/main/java/ca/bc/gov/catchment/routes/LineStringRouter.java:366-367 | a coordinate is on a route exactly when its 2D position is in the route's position set |
| Router.BestAmong | catchment-delineation-helpers/src/main/java/ca/bc/gov/catchment/routes/LineStringRouter.java:412-443 | the pick is eligible, rated above the starting value, strictly better than every eligible candidate before it and no worse than any after it; with no pick, no eligible candidate beats the starting value |
| Router.FindEndpointClosestTo | catchment-delineation-helpers/src/main/java/ca/bc/gov/catchment/routes/LineStringRouter.java:396-446 | a point with no TIN neighbour throws IllegalArgumentException; otherwise the first best-rated eligible neighbour, or none when no eligible neighbour beats the starting value |
| Router.FoundIsEligible | catchment-delineation-helpers/src/main/java/ca/bc/gov/catchment/routes/LineStringRouter.java:431-437 | the finder only hands back a TIN neighbour that is neither on the route so far nor blacklisted |
| Router.Walk | catchment-delineation-helpers/src/main/java/ca/bc/gov/catchment/routes/LineStringRouter.java:357-385 | the loop fails only with a route exception or an illegal argument |
| Router.ContinuesStep | catchment-delineation-helpers/src/main/java/ca/bc/gov/catchment/routes/LineStringRouter.java:361-377 | a finished route that continues the partial route plus one eligible neighbour continues the partial route |
| Router.WalkShape | catchment-delineation-helpers/src/main/java/ca/bc/gov/catchment/routes/LineStringRouter.java:357-385 | a finished walk extends the partial route, ends at the end coordinate and steps only along TIN edges to eligible vertices |
| Router.HasXYInSuffix | catchment-delineation-helpers/src/main/java/ca/bc/gov/catchment/routes/LineStringRouter.java:364-367 | a coordinate on either part of the route so far is on the route so far |
| Router.WalkProgress | catchment-delineation-helpers/src/main/java/ca/bc/gov/catchment/routes/LineStringRouter.java:370-376 | each step visits a TIN vertex the route has not visited, so the loop ends |
| Router.PairRoute | catchment-delineation-helpers/src/main/java/ca/bc/gov/catchment/routes/LineStringRouter.java:357-385 | a pairwise route starts at the start, ends at the end, steps along TIN edges to eligible vertices only, never repeats a position, and a route from a point to itself fails |
| Router.WalkDistinct | catchment-delineation-helpers/src/main/java/ca/bc/gov/catchment/routes/LineStringRouter.java:357-378 | a pairwise route never visits a position twice |
| Router.RepeatCheckIsRedundant | catchment-delineation-helpers/src/main/java/ca/bc/gov/catchment/routes/LineStringRouter.java:371 | the test that the chosen vertex is already on the route never fires, since the finder refuses such vertices |
| Router.RouteThrough | catchment-delineation-helpers/src/main/java/ca/bc/gov/catchment/routes/LineStringRouter.java:85-96 | the loop over the included coordinates fails only with a route exception or an illegal argument |
| Router.MakeRoute | catchment-delineation-helpers/src/main/java/ca/bc/gov/catchment/routes/LineStringRouter.java:76-99 | fewer than two included coordinates throw; a route starts at the first included coordinate, ends at the last, passes through every included coordinate and has no adjacent 2D repeats |
| Router.RouteThroughShape | catchment-delineation-helpers/src/main/java/ca/bc/gov/catchment/routes/LineStringRouter.java:85-96 | after each pairwise route the joined route starts at the first included coordinate, ends at the latest, holds all included so far and has no adjacent repeats |
| Router.TwoApart | catchment-delineation-helpers/src/main/java/ca/bc/gov/catchment/routes/LineStringRouter.java:460-478 | a route holding two distinct positions has at least two points |
| Router.JoinStep | catchment-delineation-helpers/src/main/java/ca/bc/gov/catchment/routes/LineStringRouter.java:460-478 | joining the next pairwise route keeps the shape of the joined route |
| Router.JoinCovers | catchment-delineation-helpers/src/main/java/ca/bc/gov/catchment/routes/LineStringRouter.java:460-478 | the joined route holds every included coordinate up to the current one |
| TinEdge.NewEdge | catchment-delineation-helpers/src/main/java/ca/bc/gov/catchment/tin/Edge.java:9-15 | an edge exists exactly when both coordinates are present, and keeps them in order; otherwise IllegalArgumentException |
| TinEdge.EdgeOfArray | catchment-delineation-helpers/src/main/java/ca/bc/gov/catchment/tin/Edge.java:17-23 | an edge exists exactly when the array is present and holds two coordinates, which it keeps in order |
| TinEdge.EdgeEqualsLaws | catchment-delineation-helpers/src/main/java/ca/bc/gov/catchment/tin/Edge.java:37-46 | edge equality is reflexive, symmetric and transitive, ignores direction, and is false for null |
| TinEdge.SharedObjects | catchment-delineation-helpers/src/main/java/ca/bc/gov/catchment/tin/Edge.java:52-58 | at most two end points are shared |
| TinEdge.OneCommonPointInverted | catchment-delineation-helpers/src/main/java/ca/bc/gov/catchment/tin/Edge.java:48-60 | as written, two edges meeting at one vertex object are rejected and two disjoint edges accepted |
| TinEdge.OneCommonPointSymmetric | catchment-delineation-helpers/src/main/java/ca/bc/gov/catchment/tin/Edge.java:48-60 | the corrected test holds exactly when the edges share one end point object, whichever edge asks |
| TinEdge.OppositeDirection | catchment-delineation-helpers/src/main/java/ca/bc/gov/catchment/tin/Edge.java:114-125 | an edge not anchored at the origin is turned round; a vector at the origin is negated; either way the z rise changes sign |
| TinEdge.MakeZUp | catchment-delineation-helpers/src/main/java/ca/bc/gov/catchment/tin/Edge.java:127-132 | the result's z never falls and rises by the absolute value of the edge's rise; an edge not at the origin stays equal to itself |
| TinTriangle.Ends | catchment-delineation-helpers/src/main/java/ca/bc/gov/catchment/tin/Triangle.java:185-196 | the end points of the edges, a then b, edge by edge |
| TinTriangle.KeysFacts | catchment-delineation-helpers/src/main/java/ca/bc/gov/catchment/tin/Triangle.java:183-198 | the coordinate map's keys cover every end point position once, each a vertex object of the edges |
| TinTriangle.DistinctCard | catchment-delineation-helpers/src/main/java/ca/bc/gov/catchment/tin/Triangle.java:183-198 | vertices at distinct positions are as many as their positions |
| TinTriangle.Ones | catchment-delineation-helpers/src/main/java/ca/bc/gov/catchment/tin/Triangle.java:210-219 | exactly the keys counted once |
| TinTriangle.MissingEdge | catchment-delineation-helpers/src/main/java/ca/bc/gov/catchment/tin/Triangle.java:200-226 | anything but two edges throws IllegalStateException; a result joins two different positions, each touched by one edge only |
| TinTriangle.OnesDistinct | catchment-delineation-helpers/src/main/java/ca/bc/gov/catchment/tin/Triangle.java:210-219 | the keys counted once sit at distinct positions |
| TinTriangle.CanReceive | catchment-delineation-helpers/src/main/java/ca/bc/gov/catchment/tin/Triangle.java:322-340 | a held edge or a full triangle refuses; an empty one takes anything; with one edge only an edge passing the one-common-point test, with two only the missing edge |
| TinTriangle.FirstMinX | catchment-delineation-helpers/src/main/java/ca/bc/gov/catchment/tin/Triangle.java:259-268 | the first key of least x |
| TinTriangle.Normalize | catchment-delineation-helpers/src/main/java/ca/bc/gov/catchment/tin/Triangle.java:256-307 | three edges chained head to tail, around exactly the three keys, starting at a key of least x and going next to the higher of the other two |
| TinTriangle.NormalizeCoversPairs | catchment-delineation-helpers/src/main/java/ca/bc/gov/catchment/tin/Triangle.java:256-307 | every edge between two of the three positions equals one of the normalized edges |
| TinTriangle.NormalizeOrderFree | catchment-delineation-helpers/src/main/java/ca/bc/gov/catchment/tin/Triangle.java:256-299 | without ties on the least x or between the y of the other two keys, the normalized edges do not depend on the order in which the keys are listed |
| TinTriangle.AddEdge | catchment-delineation-helpers/src/main/java/ca/bc/gov/catchment/tin/Triangle.java:228-320 | an edge the triangle cannot receive throws IllegalArgumentException; an accepted edge was receivable, leaves the id alone, adds one edge and leaves the vertex count consistent; an incomplete triangle simply appends it |
| TinTriangle.NormalizeValid | catchment-delineation-helpers/src/main/java/ca/bc/gov/catchment/tin/Triangle.java:243-307 | a normalized triangle has three edges over three positions |
| TinTriangle.AddEdgeHoldsNew | catchment-delineation-helpers/src/main/java/ca/bc/gov/catchment/tin/Triangle.java:309-320 | a triangle that took an edge holds it, unless the edge's ends coincide |
| TinTriangle.AddEdgeKeeps | catchment-delineation-helpers/src/main/java/ca/bc/gov/catchment/tin/Triangle.java:309-320 | adding an edge keeps every edge already held, normalization included |
| TinTriangle.AddEdgeShape | catchment-delineation-helpers/src/main/java/ca/bc/gov/catchment/tin/Triangle.java:309-316 | the edges after adding are the old ones plus the new one, normalized on completion |
| TinTriangle.NormalizeKeeps | catchment-delineation-helpers/src/main/java/ca/bc/gov/catchment/tin/Triangle.java:256-307 | every edge of a valid three-edge triangle survives normalization |
| TinTriangle.TriangleEqualsIsSamePoints | catchment-delineation-helpers/src/main/java/ca/bc/gov/catchment/tin/Triangle.java:584-593 | two triangles are equal exactly when they have the same vertex positions |
| TinTriangle.NewTriangle | catchment-delineation-helpers/src/main/java/ca/bc/gov/catchment/tin/Triangle.java:19-27 | a new triangle has no edges and takes the counter's id, and the counter grows |
| TinTriangle.PairKeys | catchment-delineation-helpers/src/main/java/ca/bc/gov/catchment/tin/Triangle.java:183-198 | the two ends of an edge are the map's two keys |
| TinTriangle.PathKeys | catchment-delineation-helpers/src/main/java/ca/bc/gov/catchment/tin/Triangle.java:183-198 | along a two-edge path the shared vertex is counted twice and the other two once |
| TinTriangle.CountSingle | catchment-delineation-helpers/src/main/java/ca/bc/gov/catchment/tin/Triangle.java:183-198 | a single vertex is counted once at its own position and nowhere else |
| TinTriangle.MissingEdgeOfPath | catchment-delineation-helpers/src/main/java/ca/bc/gov/catchment/tin/Triangle.java:200-226 | two edges p-q, q-r miss the edge p-r |
| TinTriangle.PathEnds | catchment-delineation-helpers/src/main/java/ca/bc/gov/catchment/tin/Triangle.java:185-196 | the end points of a two-edge path, in order |
| TinTriangle.PathOnes | catchment-delineation-helpers/src/main/java/ca/bc/gov/catchment/tin/Triangle.java:213-219 | along a two-edge path only its two ends are counted once |
| TinTriangle.FirstEdge | catchment-delineation-helpers/src/main/java/ca/bc/gov/catchment/tin/Triangle.java:322-338 | an empty triangle takes any edge between two positions |
| TinTriangle.SecondEdge | catchment-delineation-helpers/src/main/java/ca/bc/gov/catchment/tin/Triangle.java:309-335 | with the corrected test, the edge q-r joins p-q |
| TinTriangle.SecondEdgeReceived | catchment-delineation-helpers/src/main/java/ca/bc/gov/catchment/tin/Triangle.java:332-335 | the corrected test lets q-r join p-q |
| TinTriangle.PathValid | catchment-delineation-helpers/src/main/java/ca/bc/gov/catchment/tin/Triangle.java:243-246 | the end points of a two-edge path fill three positions |
| TinTriangle.CycleValid | catchment-delineation-helpers/src/main/java/ca/bc/gov/catchment/tin/Triangle.java:243-246 | the end points of a closed three-edge path fill three positions |
| TinTriangle.ThirdEdgeReceived | catchment-delineation-helpers/src/main/java/ca/bc/gov/catchment/tin/Triangle.java:329-331 | the path p-q, q-r takes the closing edge r-p |
| TinTriangle.ThirdEdge | catchment-delineation-helpers/src/main/java/ca/bc/gov/catchment/tin/Triangle.java:309-320 | the closing edge completes the triangle, which holds all three edges |
| TinTriangle.CorrectedBuildsTriangle | catchment-delineation-helpers/src/main/java/ca/bc/gov/catchment/tin/Triangle.java:42-50 | with the corrected test, three edges around three positions, added in order, complete a triangle with the same id |
| TinTriangle.AsWrittenRefusesSecondEdge | catchment-delineation-helpers/src/main/java/ca/bc/gov/catchment/tin/Triangle.java:309-335 | as written, the second edge of any triangle, which shares one end with the first, is refused |
| TriangleBuilder.NewBuilder | catchment-delineation-helpers/src/main/java/ca/bc/gov/catchment/tin/TriangleBuilder.java:10-14 | a root edge whose ends coincide fails validation; otherwise one triangle holding the root edge, and the builder's invariant holds |
| TriangleBuilder.RootEdgeAlone | catchment-delineation-helpers/src/main/java/ca/bc/gov/catchment/tin/TriangleBuilder.java:13 | an empty triangle takes an edge exactly when its ends differ in 2D, and then holds just that edge |
| TriangleBuilder.RootEdgeDegenerate | catchment-delineation-helpers/src/main/java/ca/bc/gov/catchment/tin/TriangleBuilder.java:13 | an edge whose ends coincide in 2D fails validation with an illegal state |
| TriangleBuilder.StartHolds | catchment-delineation-helpers/src/main/java/ca/bc/gov/catchment/tin/TriangleBuilder.java:11-14 | the builder made from a root edge holds one valid triangle carrying that edge, with an id below the next one |
| TriangleBuilder.PairKeysSame | catchment-delineation-helpers/src/main/java/ca/bc/gov/catchment/tin/TriangleBuilder.java:13 | an edge whose ends coincide has one key |
| TriangleBuilder.Receivers | catchment-delineation-helpers/src/main/java/ca/bc/gov/catchment/tin/TriangleBuilder.java:36-44 | one flag per held triangle |
| TriangleBuilder.ReceiversAt | catchment-delineation-helpers/src/main/java/ca/bc/gov/catchment/tin/TriangleBuilder.java:36-44 | a triangle is flagged exactly when it can take the edge |
| TriangleBuilder.ReceiversOk | catchment-delineation-helpers/src/main/java/ca/bc/gov/catchment/tin/TriangleBuilder.java:36-44 | the flags are computed exactly when every test succeeds |
| TriangleBuilder.Distribute | catchment-delineation-helpers/src/main/java/ca/bc/gov/catchment/tin/TriangleBuilder.java:18-20 | one triangle out per triangle in |
| TriangleBuilder.DistributeAt | catchment-delineation-helpers/src/main/java/ca/bc/gov/catchment/tin/TriangleBuilder.java:18-20 | each flagged triangle gets the edge and the others stay as they were |
| TriangleBuilder.DistributeOk | catchment-delineation-helpers/src/main/java/ca/bc/gov/catchment/tin/TriangleBuilder.java:18-20 | the distribution succeeds exactly when every flagged triangle takes the edge |
| TriangleBuilder.DistributeUpdates | catchment-delineation-helpers/src/main/java/ca/bc/gov/catchment/tin/TriangleBuilder.java:17-23 | every triangle that can take the edge gets it and every other is unchanged; with no receiver nothing changes |
| TriangleBuilder.RootTriangle | catchment-delineation-helpers/src/main/java/ca/bc/gov/catchment/tin/TriangleBuilder.java:23-29 | a fresh triangle given the root edge and then the new edge, with the fresh id; none exactly when it cannot take the edge |
| TriangleBuilder.AddEdgeToBuilder | catchment-delineation-helpers/src/main/java/ca/bc/gov/catchment/tin/TriangleBuilder.java:16-34 | the root stays; every held triangle is updated; a triangle is added only when no held triangle could take the edge, and it is the fresh root triangle with the next id |
| TriangleBuilder.FromRoot | catchment-delineation-helpers/src/main/java/ca/bc/gov/catchment/tin/TriangleBuilder.java:23-33 | the held triangles stay; the fresh root triangle is appended when it takes the edge; its id is used up either way |
| TriangleBuilder.ReceiversGetTheEdge | catchment-delineation-helpers/src/main/java/ca/bc/gov/catchment/tin/TriangleBuilder.java:16-23 | when a held triangle can take the edge no triangle is added and it holds the edge afterwards |
| TriangleBuilder.UpdatedKeeps | catchment-delineation-helpers/src/main/java/ca/bc/gov/catchment/tin/TriangleBuilder.java:18-20 | an updated triangle still holds the root edge and keeps its id |
| TriangleBuilder.RootTriangleHolds | catchment-delineation-helpers/src/main/java/ca/bc/gov/catchment/tin/TriangleBuilder.java:24-28 | the fresh root triangle holds the root edge |
| TriangleBuilder.StepIds | catchment-delineation-helpers/src/main/java/ca/bc/gov/catchment/tin/TriangleBuilder.java:24 | ids stay increasing and below the next one |
| TriangleBuilder.AddEdgeKeepsOld | catchment-delineation-helpers/src/main/java/ca/bc/gov/catchment/tin/TriangleBuilder.java:16-34 | a triangle held before the step still holds the root edge and keeps its id |
| TriangleBuilder.AddEdgeKeepsNew | catchment-delineation-helpers/src/main/java/ca/bc/gov/catchment/tin/TriangleBuilder.java:23-29 | an added triangle holds the root edge and has the next id |
| TriangleBuilder.AddEdgeOldHold | catchment-delineation-helpers/src/main/java/ca/bc/gov/catchment/tin/TriangleBuilder.java:16-34 | every triangle held before the step still holds the root edge |
| TriangleBuilder.HoldExtend | catchment-delineation-helpers/src/main/java/ca/bc/gov/catchment/tin/TriangleBuilder.java:28 | appending one triangle that holds the root edge keeps them all holding it |
| TriangleBuilder.AddEdgeAllHold | catchment-delineation-helpers/src/main/java/ca/bc/gov/catchment/tin/TriangleBuilder.java:16-34 | after the step every held triangle holds the root edge |
| TriangleBuilder.AddEdgeIds | catchment-delineation-helpers/src/main/java/ca/bc/gov/catchment/tin/TriangleBuilder.java:16-34 | after the step ids are still increasing |
| TriangleBuilder.AddEdgeKeepsInv | catchment-delineation-helpers/src/main/java/ca/bc/gov/catchment/tin/TriangleBuilder.java:16-34 | adding an edge keeps the builder's invariant: every triangle is valid and holds the root edge, and ids increase |
| TriangleBuilder.CompleteTriangles | catchment-delineation-helpers/src/main/java/ca/bc/gov/catchment/tin/TriangleBuilder.java:46-54 | exactly the held triangles with three edges |
| UnionTracker.NewCatchment | catchment-delineation-helpers/src/main/java/ca/bc/gov/catchment/ridgeclean/Catchment.java:14-24 | a null id or polygon throws IllegalArgumentException; otherwise the catchment holds the polygon and exactly the one id |
| UnionTracker.Union | catchment-delineation-helpers/src/main/java/ca/bc/gov/catchment/ridgeclean/Catchment.java:26-33 | the catchment takes the merged polygon, keeps its own ids first and gains the other's, so its ids are those of both |
| UnionTracker.UnionContains | catchment-delineation-helpers/src/main/java/ca/bc/gov/catchment/ridgeclean/Catchment.java:30-45 | after a union the catchment holds an id exactly when either did |
| UnionTracker.NewTracker | catchment-delineation-helpers/src/main/java/ca/bc/gov/catchment/ridgeclean/CatchmentUnionTracker.java:23-27 | a new tracker tracks nothing and keeps the originals |
| UnionTracker.Matches | catchment-delineation-helpers/src/main/java/ca/bc/gov/catchment/ridgeclean/CatchmentUnionTracker.java:54-55 | exactly the originals with the id |
| UnionTracker.OriginalPolygon | catchment-delineation-helpers/src/main/java/ca/bc/gov/catchment/ridgeclean/CatchmentUnionTracker.java:52-74 | an unknown id throws IllegalArgumentException; a null polygon or several matches throw IllegalStateException; otherwise the polygon of the single original with the id |
| UnionTracker.Find | catchment-delineation-helpers/src/main/java/ca/bc/gov/catchment/ridgeclean/CatchmentUnionTracker.java:38-43 | the first tracked catchment holding the id, or none exactly when no tracked catchment holds it |
| UnionTracker.GetCatchment | catchment-delineation-helpers/src/main/java/ca/bc/gov/catchment/ridgeclean/CatchmentUnionTracker.java:36-50 | a tracked catchment holding the id is returned and nothing changes; otherwise a new catchment of the original is registered at the end, or the lookup's exception is thrown |
| UnionTracker.GetCatchmentKeeps | catchment-delineation-helpers/src/main/java/ca/bc/gov/catchment/ridgeclean/CatchmentUnionTracker.java:36-50 | getting a catchment keeps the tracked catchments distinct objects with disjoint ids |
| UnionTracker.GetCatchmentIdempotent | catchment-delineation-helpers/src/main/java/ca/bc/gov/catchment/ridgeclean/CatchmentUnionTracker.java:36-50 | asking again for the same id gives the same catchment and changes nothing |
| UnionTracker.FoundIsUnique | catchment-delineation-helpers/src/main/java/ca/bc/gov/catchment/ridgeclean/CatchmentUnionTracker.java:36-43 | with disjoint ids, the catchment returned for an id is the one holding it |
| UnionTracker.RemoveAt | catchment-delineation-helpers/src/main/java/ca/bc/gov/catchment/ridgeclean/CatchmentUnionTracker.java:33 | the list without the one position, the others kept in order |
| UnionTracker.TrackerUnion | catchment-delineation-helpers/src/main/java/ca/bc/gov/catchment/ridgeclean/CatchmentUnionTracker.java:29-34 | a union removes one catchment from the tracked list and leaves the originals alone |
| UnionTracker.TrackerUnionAt | catchment-delineation-helpers/src/main/java/ca/bc/gov/catchment/ridgeclean/CatchmentUnionTracker.java:29-34 | position by position, the merged catchment where the first was and the untouched ones elsewhere |
| UnionTracker.TrackerUnionMerges | catchment-delineation-helpers/src/main/java/ca/bc/gov/catchment/ridgeclean/CatchmentUnionTracker.java:29-34 | merging two different catchments keeps the merged one and every other, and drops the second object |
| UnionTracker.TrackerUnionValid | catchment-delineation-helpers/src/main/java/ca/bc/gov/catchment/ridgeclean/CatchmentUnionTracker.java:29-34 | merging keeps the tracked catchments distinct objects |
| UnionTracker.TrackerUnionIds | catchment-delineation-helpers/src/main/java/ca/bc/gov/catchment/ridgeclean/CatchmentUnionTracker.java:29-34 | after a merge a catchment holds the ids it held, plus the second's for the merged one |
| UnionTracker.TrackerUnionDisjoint | catchment-delineation-helpers/src/main/java/ca/bc/gov/catchment/ridgeclean/CatchmentUnionTracker.java:29-34 | merging two different catchments keeps the ids disjoint |
| UnionTracker.TrackerUnionKeepsIds | catchment-delineation-helpers/src/main/java/ca/bc/gov/catchment/ridgeclean/CatchmentUnionTracker.java:29-34 | merging two different catchments loses no id: an id is held after exactly when it was before |
| UnionTracker.UnionWithItselfDrops | catchment-delineation-helpers/src/main/java/ca/bc/gov/catchment/ridgeclean/CatchmentUnionTracker.java:29-34 | merging a catchment with itself removes it, so its ids are no longer held by any tracked catchment |
| VoronoiCleaner.Features | catchment-delineation-helpers/src/main/java/ca/bc/gov/catchment/voronoi/VoronoiDoubleEdgeCleaner.java:260-286 | the features of the touching lines, one per line in order |
| VoronoiCleaner.Items | catchment-delineation-helpers/src/main/java/ca/bc/gov/catchment/voronoi/VoronoiDoubleEdgeCleaner.java:259-286 | the angle-tagged entries of one kind, every water feature and only the Voronoi edges at least as long as the tolerance, all among the touching features |
| VoronoiCleaner.LongCount | catchment-delineation-helpers/src/main/java/ca/bc/gov/catchment/voronoi/VoronoiDoubleEdgeCleaner.java:271-288 | the number of touching Voronoi edges minus the too-short ones, at most their number |
| VoronoiCleaner.VoronoiItemsCount | catchment-delineation-helpers/src/main/java/ca/bc/gov/catchment/voronoi/VoronoiDoubleEdgeCleaner.java:271-288 | the Voronoi entries of the list are exactly the edges counted as not too short |
| VoronoiCleaner.CountKind | catchment-delineation-helpers/src/main/java/ca/bc/gov/catchment/voronoi/VoronoiDoubleEdgeCleaner.java:237-288 | the number of entries of a kind is at most the length of the list |
| VoronoiCleaner.CountKindAppend | catchment-delineation-helpers/src/main/java/ca/bc/gov/catchment/voronoi/VoronoiDoubleEdgeCleaner.java:257-286 | counting entries of a kind adds up over the water part and the Voronoi part of the list |
| VoronoiCleaner.CountKindAll | catchment-delineation-helpers/src/main/java/ca/bc/gov/catchment/voronoi/VoronoiDoubleEdgeCleaner.java:257-286 | a list of one kind counts fully for that kind and not at all for the other |
| VoronoiCleaner.Insert | catchment-delineation-helpers/src/main/java/ca/bc/gov/catchment/voronoi/VoronoiDoubleEdgeCleaner.java:299-305 | inserting into a list sorted by angle keeps it sorted and adds exactly the one entry |
| VoronoiCleaner.InsertAbove | catchment-delineation-helpers/src/main/java/ca/bc/gov/catchment/voronoi/VoronoiDoubleEdgeCleaner.java:299-305 | an entry with a larger angle goes after the smallest, which stays first |
| VoronoiCleaner.InsertCounts | catchment-delineation-helpers/src/main/java/ca/bc/gov/catchment/voronoi/VoronoiDoubleEdgeCleaner.java:299-305 | inserting adds one to the count of the inserted entry's kind and nothing to the other |
| VoronoiCleaner.CountKindCons | catchment-delineation-helpers/src/main/java/ca/bc/gov/catchment/voronoi/VoronoiDoubleEdgeCleaner.java:257-286 | a list's count is its head's contribution plus its tail's |
| VoronoiCleaner.SortByAngle | catchment-delineation-helpers/src/main/java/ca/bc/gov/catchment/voronoi/VoronoiDoubleEdgeCleaner.java:298-305 | the sorted list is ordered by angle and is a permutation of the input |
| VoronoiCleaner.SortCounts | catchment-delineation-helpers/src/main/java/ca/bc/gov/catchment/voronoi/VoronoiDoubleEdgeCleaner.java:298-305 | sorting keeps the length and the number of water features and of Voronoi edges |
| VoronoiCleaner.Judge | catchment-delineation-helpers/src/main/java/ca/bc/gov/catchment/voronoi/VoronoiDoubleEdgeCleaner.java:322-333 | an edge after another Voronoi edge is doubled and discarded; an edge after water is kept; water is passed over |
| VoronoiCleaner.Closed | catchment-delineation-helpers/src/main/java/ca/bc/gov/catchment/voronoi/VoronoiDoubleEdgeCleaner.java:314-316 | the list with its first entry copied to the end, so the last and first entries are compared |
| VoronoiCleaner.Record | catchment-delineation-helpers/src/main/java/ca/bc/gov/catchment/voronoi/VoronoiDoubleEdgeCleaner.java:327-332 | one verdict adds the edge to the kept or the discarded collection, or nothing, and keeps them keyed by id |
| VoronoiCleaner.PatternBounds | catchment-delineation-helpers/src/main/java/ca/bc/gov/catchment/voronoi/VoronoiDoubleEdgeCleaner.java:319-335 | the loop keeps the collections keyed by id and keeps at most one edge per Keep verdict |
| VoronoiCleaner.PatternGrows | catchment-delineation-helpers/src/main/java/ca/bc/gov/catchment/voronoi/VoronoiDoubleEdgeCleaner.java:319-335 | the loop only adds to the kept and discarded collections |
| VoronoiCleaner.PatternKeeps | catchment-delineation-helpers/src/main/java/ca/bc/gov/catchment/voronoi/VoronoiDoubleEdgeCleaner.java:330-331 | a Voronoi edge that follows water is kept |
| VoronoiCleaner.PatternDiscards | catchment-delineation-helpers/src/main/java/ca/bc/gov/catchment/voronoi/VoronoiDoubleEdgeCleaner.java:326-328 | a Voronoi edge that follows another Voronoi edge is discarded |
| VoronoiCleaner.PatternRecords | catchment-delineation-helpers/src/main/java/ca/bc/gov/catchment/voronoi/VoronoiDoubleEdgeCleaner.java:319-335 | every edge is recorded according to the entry before it in angle order |
| VoronoiCleaner.PatternOnly | catchment-delineation-helpers/src/main/java/ca/bc/gov/catchment/voronoi/VoronoiDoubleEdgeCleaner.java:319-335 | nothing is kept or discarded that was not judged so at some position |
| VoronoiCleaner.KeepAtMostWaterBefore | catchment-delineation-helpers/src/main/java/ca/bc/gov/catchment/voronoi/VoronoiDoubleEdgeCleaner.java:319-335 | the Keep verdicts are at most the positions whose predecessor is water |
| VoronoiCleaner.WaterBeforeIsCount | catchment-delineation-helpers/src/main/java/ca/bc/gov/catchment/voronoi/VoronoiDoubleEdgeCleaner.java:314-335 | over the closed list, the predecessor slots hold each water feature once |
| VoronoiCleaner.KeptAtMostWater | catchment-delineation-helpers/src/main/java/ca/bc/gov/catchment/voronoi/VoronoiDoubleEdgeCleaner.java:314-335 | no more Voronoi edges are kept at a point than there are water features around it |
| VoronoiCleaner.AlternatingKeepsAll | catchment-delineation-helpers/src/main/java/ca/bc/gov/catchment/voronoi/VoronoiDoubleEdgeCleaner.java:319-335 | where water and Voronoi edges alternate all round the point nothing is discarded |
| VoronoiCleaner.CleanAtPoint | catchment-delineation-helpers/src/main/java/ca/bc/gov/catchment/voronoi/VoronoiDoubleEdgeCleaner.java:205-339 | fewer than three water features keep every touching edge; more water than Voronoi edges is an illegal state; an angle that cannot be computed is an illegal argument; equal counts keep every edge; otherwise, going round the point in angle order, an edge after water is kept and an edge after another edge is discarded, and nothing else is recorded; at most as many edges are kept as water features, all of them touching |
| VoronoiCleaner.PatternExactly | catchment-delineation-helpers/src/main/java/ca/bc/gov/catchment/voronoi/VoronoiDoubleEdgeCleaner.java:314-335 | the loop over the closed list keeps exactly the edges that follow water and discards exactly those that follow another edge |
| VoronoiCleaner.NoDiscardKeepsAll | catchment-delineation-helpers/src/main/java/ca/bc/gov/catchment/voronoi/VoronoiDoubleEdgeCleaner.java:319-335 | with no discard verdict every Voronoi entry is a keep verdict |
| VoronoiCleaner.ClosedTailCount | catchment-delineation-helpers/src/main/java/ca/bc/gov/catchment/voronoi/VoronoiDoubleEdgeCleaner.java:314-316 | the positions judged in the closed list hold every entry of the list once |
| VoronoiCleaner.PatternDiscardsSome | catchment-delineation-helpers/src/main/java/ca/bc/gov/catchment/voronoi/VoronoiDoubleEdgeCleaner.java:314-335 | more Voronoi entries than water entries around a point force at least one discard |
| VoronoiCleaner.CleanAtPointDiscards | catchment-delineation-helpers/src/main/java/ca/bc/gov/catchment/voronoi/VoronoiDoubleEdgeCleaner.java:205-339 | at a confluence of at least three water features with more long edges than water features, the cleaning succeeds and discards at least one edge |
| VoronoiCleaner.PatternFids | catchment-delineation-helpers/src/main/java/ca/bc/gov/catchment/voronoi/VoronoiDoubleEdgeCleaner.java:319-335 | the loop records only Voronoi entries of the list |
| VoronoiCleaner.PatternFeatures | catchment-delineation-helpers/src/main/java/ca/bc/gov/catchment/voronoi/VoronoiDoubleEdgeCleaner.java:257-335 | the loop records only Voronoi edges that touch the point |
| VoronoiCleaner.ClosedMember | catchment-delineation-helpers/src/main/java/ca/bc/gov/catchment/voronoi/VoronoiDoubleEdgeCleaner.java:316 | every entry of the closed list is an entry of the list |
| VoronoiCleaner.VoronoiFromMix | catchment-delineation-helpers/src/main/java/ca/bc/gov/catchment/voronoi/VoronoiDoubleEdgeCleaner.java:257-286 | a Voronoi entry of the combined list is one of the touching edges |
| VoronoiCleaner.SameMembers | catchment-delineation-helpers/src/main/java/ca/bc/gov/catchment/voronoi/VoronoiDoubleEdgeCleaner.java:298-305 | the sorted list holds the same entries as before sorting |
| VoronoiCleaner.Positions | catchment-delineation-helpers/src/main/java/ca/bc/gov/catchment/voronoi/VoronoiDoubleEdgeCleaner.java:145-147 | one 2D point per coordinate, in order |
| VoronoiCleaner.WaterPoints | catchment-delineation-helpers/src/main/java/ca/bc/gov/catchment/voronoi/VoronoiDoubleEdgeCleaner.java:141-147 | every coordinate of every water feature is visited |
| VoronoiCleaner.Sweep | catchment-delineation-helpers/src/main/java/ca/bc/gov/catchment/voronoi/VoronoiDoubleEdgeCleaner.java:141-170 | the sweep only adds to what it collected, and fails only at a point whose cleaning fails |
| VoronoiCleaner.SweepFails | catchment-delineation-helpers/src/main/java/ca/bc/gov/catchment/voronoi/VoronoiDoubleEdgeCleaner.java:146-152 | the sweep fails exactly when some point's cleaning fails, repeated points included |
| VoronoiCleaner.SweepSound | catchment-delineation-helpers/src/main/java/ca/bc/gov/catchment/voronoi/VoronoiDoubleEdgeCleaner.java:146-152 | every edge the sweep collects was discarded at some point |
| VoronoiCleaner.SweepComplete | catchment-delineation-helpers/src/main/java/ca/bc/gov/catchment/voronoi/VoronoiDoubleEdgeCleaner.java:146-152 | every edge discarded at some point is collected |
| VoronoiCleaner.SweepCollects | catchment-delineation-helpers/src/main/java/ca/bc/gov/catchment/voronoi/VoronoiDoubleEdgeCleaner.java:146-152 | the edge discarded at a given point is collected, even when the point repeats later |
| VoronoiCleaner.SweepInvStep | catchment-delineation-helpers/src/main/java/ca/bc/gov/catchment/voronoi/VoronoiDoubleEdgeCleaner.java:148-151 | cleaning one more point keeps every processed point's discards collected |
| VoronoiCleaner.Undiscarded | catchment-delineation-helpers/src/main/java/ca/bc/gov/catchment/voronoi/VoronoiDoubleEdgeCleaner.java:178-186 | only original edges that were not discarded |
| VoronoiCleaner.UndiscardedFids | catchment-delineation-helpers/src/main/java/ca/bc/gov/catchment/voronoi/VoronoiDoubleEdgeCleaner.java:178-186 | an original edge is kept exactly when it was not discarded |
| VoronoiCleaner.CleanAll | catchment-delineation-helpers/src/main/java/ca/bc/gov/catchment/voronoi/VoronoiDoubleEdgeCleaner.java:132-189 | succeeds exactly when every water point is cleaned; an edge is discarded exactly when some point discards it; the kept edges are the original edges minus the discarded ones |
| VoronoiScripts.WriteGeometry | catchment-delineation-helpers/src/main/java/ca/bc/gov/catchment/scripts/PrepCgalVoronoiInput.java:271-281 | one segment line per pair of consecutive coordinates, none for fewer than two coordinates |
| VoronoiScripts.WriteGeometryLines | catchment-delineation-helpers/src/main/java/ca/bc/gov/catchment/scripts/PrepCgalVoronoiInput.java:271-281 | line i of the output is the segment from coordinate i to coordinate i + 1 |
| VoronoiScripts.WriteGeometryReadsBack | catchment-delineation-helpers/src/main/java/ca/bc/gov/catchment/scripts/PrepCgalVoronoiInput.java:271-281 | reading a written line back gives the same pair of coordinates, when numbers survive rendering |
| VoronoiScripts.BoundingRing | catchment-delineation-helpers/src/main/java/ca/bc/gov/catchment/scripts/PrepCgalVoronoiInput.java:200-210 | a closed ring of five axis-parallel corners, every corner 10 units outside the data bounds |
| VoronoiScripts.PrepVoronoiInput | catchment-delineation-helpers/src/main/java/ca/bc/gov/catchment/scripts/PrepCgalVoronoiInput.java:200-231 | any input geometry that is not a two-point segment is an illegal argument; otherwise the four sides of the bounding ring followed by one line per input segment |
| VoronoiScripts.WriteSegments | catchment-delineation-helpers/src/main/java/ca/bc/gov/catchment/scripts/PrepCgalVoronoiInput.java:222-231 | any geometry that is not a two-point segment is an illegal argument; otherwise one line per geometry, in order |
| VoronoiScripts.BoundaryIsClosed | catchment-delineation-helpers/src/main/java/ca/bc/gov/catchment/scripts/PrepCgalVoronoiInput.java:200-215 | the four written sides read back as a closed chain: each starts where the previous one ends, and the last ends where the first starts |
| VoronoiScripts.SplitIntoSegments | catchment-delineation-helpers/src/main/java/ca/bc/gov/catchment/scripts/SegmentLinestrings.java:294-321 | one two-point feature per pair of consecutive coordinates, named after the input feature and the 1-based position of the pair's second coordinate |
| VoronoiScripts.SplitIntoSegmentsRebuilds | catchment-delineation-helpers/src/main/java/ca/bc/gov/catchment/scripts/SegmentLinestrings.java:294-321 | chaining the segment features gives back the input line |
| VoronoiScripts.VoronoiLineToWkt | catchment-delineation-helpers/src/main/java/ca/bc/gov/catchment/scripts/VoronoiInput2GeoPackage.java:246-258 | the WKT line of the segment read from tokens 1, 2, 4 and 5 when all four are present and numbers; otherwise the first of those tokens, in that order, that is missing overruns the array and the first that is malformed throws an IllegalArgumentException |
| VoronoiScripts.VoronoiLineOrder | catchment-delineation-helpers/src/main/java/ca/bc/gov/catchment/scripts/VoronoiInput2GeoPackage.java:249-250 | `s abc` throws on its first number although it is also too short, and `s` overruns the array |
| VoronoiScripts.WrittenLineToWkt | catchment-delineation-helpers/src/main/java/ca/bc/gov/catchment/scripts/VoronoiInput2GeoPackage.java:246-258 | a segment line written for the Voronoi tool converts to the WKT of the same segment |
| VoronoiScripts.LineGeometry | catchment-delineation-helpers/src/main/java/ca/bc/gov/catchment/scripts/VoronoiInput2GeoPackage.java:185-205 | a line yields a geometry only when it converts to WKT |
| VoronoiScripts.Converted | catchment-delineation-helpers/src/main/java/ca/bc/gov/catchment/scripts/VoronoiInput2GeoPackage.java:180-216 | at most one geometry per line |
| VoronoiScripts.ConvertedStep | catchment-delineation-helpers/src/main/java/ca/bc/gov/catchment/scripts/VoronoiInput2GeoPackage.java:180-216 | one more line adds its geometry when it reads, and nothing otherwise |
| VoronoiScripts.ConvertedWhole | catchment-delineation-helpers/src/main/java/ca/bc/gov/catchment/scripts/VoronoiInput2GeoPackage.java:180-216 | the lines read in full give the same geometries |
| VoronoiScripts.ConvertedAllRead | catchment-delineation-helpers/src/main/java/ca/bc/gov/catchment/scripts/VoronoiInput2GeoPackage.java:180-216 | when every line reads nothing is skipped and the geometries are the lines', one for one |
| VoronoiScripts.ConvertedFromLines | catchment-delineation-helpers/src/main/java/ca/bc/gov/catchment/scripts/VoronoiInput2GeoPackage.java:180-216 | every geometry kept comes from a line that reads |
| VoronoiScripts.Numbered | catchment-delineation-helpers/src/main/java/ca/bc/gov/catchment/scripts/VoronoiInput2GeoPackage.java:181-215 | each geometry becomes a feature numbered by its position |
| VoronoiScripts.NumberedSnoc | catchment-delineation-helpers/src/main/java/ca/bc/gov/catchment/scripts/VoronoiInput2GeoPackage.java:181-215 | numbering one more geometry adds one feature with the next number |
| VoronoiScripts.ConvertLines | catchment-delineation-helpers/src/main/java/ca/bc/gov/catchment/scripts/VoronoiInput2GeoPackage.java:176-218 | skipped lines and features together account for every line, and the features are the readable lines' geometries numbered 0, 1, 2, ... |
| WaterRouter.IsCoordinateMovable | catchment-delineation-helpers/src/main/java/ca/bc/gov/catchment/routes/WaterAwareCatchmentRouter.java:148-176 | a position off the route is out of bounds; otherwise a vertex may move exactly when it is not a protected end point and neither it nor the next vertex is a confluence (the corrected variant also checks the previous vertex) |
| WaterRouter.MovableIgnoresPrevious | catchment-delineation-helpers/src/main/java/ca/bc/gov/catchment/routes/WaterAwareCatchmentRouter.java:149-173 | as written, in the route p, q, r with only p a confluence, q counts as movable although it is next to p; corrected, it does not |
| WaterRouter.MovableCorrected | catchment-delineation-helpers/src/main/java/ca/bc/gov/catchment/routes/WaterAwareCatchmentRouter.java:148-176 | a vertex the corrected test lets move has no confluence at it or on either side, and the test as written lets it move too |
| WaterRouter.Select | catchment-delineation-helpers/src/main/java/ca/bc/gov/catchment/routes/WaterAwareCatchmentRouter.java:52-73 | the selection over the first n positions has at most n entries |
| WaterRouter.SelectSpec | catchment-delineation-helpers/src/main/java/ca/bc/gov/catchment/routes/WaterAwareCatchmentRouter.java:52-73 | every selected coordinate is the new one or a kept vertex; every kept vertex is selected; the new coordinate is selected once the pivot is passed; only the new coordinate can repeat an entry |
| WaterRouter.SelectSpecStep | catchment-delineation-helpers/src/main/java/ca/bc/gov/catchment/routes/WaterAwareCatchmentRouter.java:54-73 | one position more keeps those properties of the selection |
| WaterRouter.SelectFirst | catchment-delineation-helpers/src/main/java/ca/bc/gov/catchment/routes/WaterAwareCatchmentRouter.java:54-72 | the selection starts with the first vertex, or with the new coordinate when the first vertex is the one moved |
| WaterRouter.SelectAroundPivot | catchment-delineation-helpers/src/main/java/ca/bc/gov/catchment/routes/WaterAwareCatchmentRouter.java:54-73 | the selection is the part before the pivot, then the new coordinate, then kept vertices after the pivot |
| WaterRouter.SelectUnfold | catchment-delineation-helpers/src/main/java/ca/bc/gov/catchment/routes/WaterAwareCatchmentRouter.java:54-73 | one step of the loop: the new coordinate at the pivot, nothing for a dropped or already-included vertex, and the vertex otherwise |
| WaterRouter.AroundPivotBase | catchment-delineation-helpers/src/main/java/ca/bc/gov/catchment/routes/WaterAwareCatchmentRouter.java:58-62 | right after the pivot the selection is what came before plus the new coordinate |
| WaterRouter.AroundPivotStep | catchment-delineation-helpers/src/main/java/ca/bc/gov/catchment/routes/WaterAwareCatchmentRouter.java:63-72 | a position after the pivot adds at most its own kept vertex |
| WaterRouter.SelectPrefix | catchment-delineation-helpers/src/main/java/ca/bc/gov/catchment/routes/WaterAwareCatchmentRouter.java:54-73 | the selection only ever appends |
| WaterRouter.SelectStep | catchment-delineation-helpers/src/main/java/ca/bc/gov/catchment/routes/WaterAwareCatchmentRouter.java:58-71 | appending the new coordinate at the pivot, or a kept vertex not yet included, keeps the properties of the selection |
| WaterRouter.SelectKeep | catchment-delineation-helpers/src/main/java/ca/bc/gov/catchment/routes/WaterAwareCatchmentRouter.java:63-70 | skipping a dropped or already-included vertex keeps the properties of the selection |
| WaterRouter.Reroute | catchment-delineation-helpers/src/main/java/ca/bc/gov/catchment/routes/WaterAwareCatchmentRouter.java:44-99 | an old coordinate off the route, or one that may not move, is an illegal argument; otherwise the new route has at least two vertices, passes through the new coordinate and every kept vertex, and starts where the selection starts |
| WaterRouter.RerouteCovers | catchment-delineation-helpers/src/main/java/ca/bc/gov/catchment/routes/WaterAwareCatchmentRouter.java:75-98 | a route through every selected coordinate passes through the new coordinate and every kept vertex |
| WaterRouter.RerouteFeature | catchment-delineation-helpers/src/main/java/ca/bc/gov/catchment/routes/WaterAwareCatchmentRouter.java:112-117 | the re-routed feature keeps its id and passes through the new junction; an old junction off its line is an illegal argument |
| WaterRouter.MapAll | catchment-delineation-helpers/src/main/java/ca/bc/gov/catchment/routes/WaterAwareCatchmentRouter.java:129-146 | on success, one result per feature |
| WaterRouter.MapAllOk | catchment-delineation-helpers/src/main/java/ca/bc/gov/catchment/routes/WaterAwareCatchmentRouter.java:129-146 | the batch succeeds exactly when every feature does, and a failure is some feature's error |
| WaterRouter.MapAllAt | catchment-delineation-helpers/src/main/java/ca/bc/gov/catchment/routes/WaterAwareCatchmentRouter.java:129-146 | on success the i-th result is the step applied to the i-th feature |
| WaterRouter.JobStep | catchment-delineation-helpers/src/main/java/ca/bc/gov/catchment/routes/WaterAwareCatchmentRouter.java:138-146 | the re-routing step applies to every feature |
| WaterRouter.RerouteFeatures | catchment-delineation-helpers/src/main/java/ca/bc/gov/catchment/routes/WaterAwareCatchmentRouter.java:138-146 | on success, one re-routed feature per input feature |
| WaterRouter.RerouteFeaturesOk | catchment-delineation-helpers/src/main/java/ca/bc/gov/catchment/routes/WaterAwareCatchmentRouter.java:138-146 | the batch succeeds exactly when every feature re-routes; a failure is some feature's error |
| WaterRouter.RerouteFeaturesAt | catchment-delineation-helpers/src/main/java/ca/bc/gov/catchment/routes/WaterAwareCatchmentRouter.java:138-146 | on success the i-th result is the i-th feature re-routed |
| FilterSpec.IndexOf | catchment-delineation-helpers/src/main/java/ca/bc/gov/catchment/scripts/FilterEdgeCodes.java:300-309 | the position of the first occurrence of the character, or -1 exactly when it does not occur |
| FilterSpec.ParseFilterProperty | catchment-delineation-helpers/src/main/java/ca/bc/gov/catchment/scripts/FilterEdgeCodes.java:299-306 | a filter without ':' is an illegal argument; otherwise the text before the first ':', which holds no ':' |
| FilterSpec.ParseFilterValues | catchment-delineation-helpers/src/main/java/ca/bc/gov/catchment/scripts/FilterEdgeCodes.java:308-316 | a filter without ':' is an illegal argument; otherwise the comma-separated values after the first ':', none holding a comma |
| FilterSpec.LastPieceNonEmpty | catchment-delineation-helpers/src/main/java/ca/bc/gov/catchment/scripts/FilterEdgeCodes.java:314 | a text not ending in the separator splits into pieces whose last is not empty |
| FilterSpec.JavaSplitKeepsAll | catchment-delineation-helpers/src/main/java/ca/bc/gov/catchment/scripts/FilterEdgeCodes.java:314 | when the text does not end in the separator, dropping trailing empty pieces drops nothing |
| FilterSpec.ParseThenBuild | catchment-delineation-helpers/src/main/java/ca/bc/gov/catchment/scripts/FilterEdgeCodes.java:299-316 | the property, a ':' and the values joined by ',' give back the filter text, unless the value list ends in an empty value |
| FilterSpec.Rejoin | catchment-delineation-helpers/src/main/java/ca/bc/gov/catchment/scripts/FilterEdgeCodes.java:304-313 | the text before a ':', the ':' and the text after it give back the text |
| FilterSpec.BuildThenParse | catchment-delineation-helpers/src/main/java/ca/bc/gov/catchment/scripts/FilterEdgeCodes.java:299-316 | a filter written from a property without ':' and values without ',' (not ending in an empty value) parses back to the same property and values |
| FilterSpec.IndexOfAfter | catchment-delineation-helpers/src/main/java/ca/bc/gov/catchment/scripts/FilterEdgeCodes.java:300-309 | the first ':' of a written filter is the one right after the property |
| FilterSpec.JoinNonEmpty | catchment-delineation-helpers/src/main/java/ca/bc/gov/catchment/scripts/FilterEdgeCodes.java:314 | values other than the single empty one join to a non-empty text |
| FilterSpec.Options | catchment-delineation-helpers/src/main/java/ca/bc/gov/catchment/scripts/FilterEdgeCodes.java:106-139 | giving both a whitelist and a blacklist ends the program; otherwise the filter given, or none |
| FilterSpec.Select | catchment-delineation-helpers/src/main/java/ca/bc/gov/catchment/scripts/FilterEdgeCodes.java:260-294 | the features whose attribute is one of the values (whitelist) or is not, or is null (blacklist), in order |
| FilterSpec.FilterFeatures | catchment-delineation-helpers/src/main/java/ca/bc/gov/catchment/scripts/FilterEdgeCodes.java:254-295 | no filter keeps every feature; a filter without ':' is an illegal argument; a filter on an attribute the schema lacks keeps every feature |
| FilterSpec.FilterMembership | catchment-delineation-helpers/src/main/java/ca/bc/gov/catchment/scripts/FilterEdgeCodes.java:260-294 | a whitelist keeps exactly the features whose attribute is listed, and a blacklist with the same text exactly the others, null attributes included |
| FilterSpec.SelectSplits | catchment-delineation-helpers/src/main/java/ca/bc/gov/catchment/scripts/FilterEdgeCodes.java:260-294 | a whitelist and a blacklist with the same values split the features between them, each feature exactly as often as in the input |
| FilterSpec.WhitelistBlacklistSplit | catchment-delineation-helpers/src/main/java/ca/bc/gov/catchment/scripts/FilterEdgeCodes.java:254-295 | the features a whitelist keeps and those the blacklist with the same text keeps are together the input, as a multiset |

## Left out

- I/O: reading and writing files, GeoPackage and datastore access, the command-line parsing, `System.exit` and printing. The model works on sequences of lines and features instead.
- The external Voronoi tool: the search takes it as the parameter `tool`, a predicate on the prepared file text.
- Float rendering and parsing (`str`, `float()`, `Double.toString`, `Float.parseFloat`) and the WKT reader: these are library routines. They are parameters, and round-trip results assume the rendering is faithful on the numbers involved.
- Floating-point rounding: doubles are modelled as exact reals and NaN elevations as a separate case. `atan2`, square roots of distances and the trigonometry of `getAngleDegrees` and `getTrajectory2D` are not modelled; angles and distances are inputs, or squared distances are compared.
- JTS and GeoTools geometry: `touches`, `dwithin`, `contains`, polygon union, nearest-feature queries, SRIDs and feature types. These are parameters or inputs.
- `BufferAlg`: only `calcVariableBufferDistance` is modelled. The buffering of the geometry itself is JTS work.
- `VectorUtils.getTrajectory2D`: it is `atan` of a quotient, which is floating-point work with no exact counterpart.
- `Edge` cross product, magnitude and `normalize`, and `Triangle` orthocenter, centroid, slope and aspect: these are floating-point geometry.
- `RadiusCatchmentSetImprover.improve(section)` (lines 74-237): this is the point-by-point loop that drives the modelled helpers through the datastore, the router and the validity test. Its helpers and `improveJunction` are modelled; the loop's own control flow is not.
- `getSectionsTouchingJunction` of the radius improver: it is a datastore query. The modelled counterpart is `Catchments.SectionsTouching`.
- `LineStringRouter`: the loop of `alternativeRoutes`, `replaceRouteCoordinate` and `doesRouteFollowTinEdges` are not modelled. The guard of `alternativeRoutes` is modelled. The last one is a datastore filter over TIN edges.
- `getConnectedCoords` (TIN adjacency) is the parameter `tin`. Routing requires the TIN to be closed over its finite vertex set, which is what makes the greedy walk terminate.
- `WaterAwareCatchmentRouter.reroute(List<LineString>, ...)` with a caller-chosen end-point flag: only `rerouteFeatures` is modelled, which always lets end points move. The per-route step is the same `Reroute`.
- The search loop (`BBoxSearch.Run`) carries a fuel bound. The script's loop is unbounded, and as written it can run for ever (see Findings); running out of fuel is a distinct outcome, not a verdict.
- `CatchmentUnionTracker.union` takes the two catchments by position in the tracked list rather than as objects. The tracker itself removes by identity, which the positions stand for.
- `ElevationAdjuster`: the LRU eviction of the distance cache at 500 entries and `getAdjustedZ` are left out. Eviction only drops entries, and the model proves the cache never changes a result.
- `JunctionFinder.getJunctionOld` and `getJunctionOld2`: these are dead code.
- `MidpointSmoother`: the geometry-type test compares strings with `==`. The model treats it as a comparison of the type names.
- `SectionModification`: the metrics getter and setter, and the aliasing of the touching-section list between caller and object, are not modelled.
- `ImprovementMetrics` setters: these are plain field writes.
- `SectionFitness.describe()`: it only produces text. The abstract two-point fitness is the parameter of `Fitness`.
- `SetImprover.checkGlobalFitness` and `toCatchmentLines`: these are feature-collection plumbing.
- TinTriangle.Normalize: the min-x tie-break and the y test follow insertion order where Java follows `HashMap` keySet order. When no two keys share an x or a y, the order does not matter (`TinTriangle.NormalizeOrderFree`).
- TinTriangle.MissingEdge: the direction of the returned edge follows insertion order where Java follows `HashMap` keySet order. Edge equality ignores direction.
- `improveJunction` keeps its candidates in a `TreeMap` keyed by fitness. Fitness values are reals here, so the map's ordering of NaN keys is not modelled.
- `DefaultFeatureCollection.contains`, used by the Voronoi cleaner to subtract discarded edges, is taken to compare FIDs. GeoTools is not part of this model. If it compares whole features, whose feature types differ there, the subtraction would keep every edge.
- GridBuilder.GridCells: requires a non-zero resolution, or an extent of zero width. With a zero resolution the Java loop bound is infinite, so it never ends.
- BBoxSearch.BoundaryOf: its own contract states only the line count. What the lines read back as is stated by `BBoxSearch.BoundaryReadsBack`, and where they sit in the file by `BBoxSearch.PreparedBoundary`.
- VectorUtils.CompassAngle: computes the whole turns exactly. Java computes them as an `int`, and `n*360` overflows below -2147483520 degrees. `VectorUtils.JavaCompassAngle` models that arithmetic, and `VectorUtils.JavaCompassAngleAgrees` shows that the two agree above that bound (see Findings).
- VectorUtils.TrajectoryDiff: is built on `VectorUtils.CompassAngle`, so for Java its contract holds for headings above -2147483520 degrees.
- RadiusImprover.ImproveJunction: the water validity test is a total parameter. Its datastore `IOException` is not modelled.
- BBoxSearch.PrepareInFile: its own contract states only success and line count. Which records it keeps is stated by `BBoxSearch.PrepareKeeps` and `BBoxSearch.PrepareFinds`.
- MidpointSmoother.Iterate: its own contract states only that the line does not shrink. The exact shape is stated by `MidpointSmoother.IterateShape`.
- TinTriangle.NewTriangle: models the static id counter as an unbounded natural. The Java `int` wrap-around after 2^31 triangles is not modelled.
- Catchments.SectionsTouching: answers with a set. The iteration order of the underlying collection is not modelled.
- VoronoiCleaner.CleanAll: the progress report after every 10 000th water feature (`VoronoiDoubleEdgeCleaner.java:155-168`) is left out with the clock. It divides `progressInterval` by the elapsed seconds rounded to a `long`. When those features take under half a second, that divisor is 0 and Java throws `ArithmeticException`. The source then fails where the model returns a result.
- Line terminators: lines are modelled without them. `prepare_in_file` writes each kept line with its own terminator (`bbox-test.py:191`) and the boundary lines after them. If the master file does not end in a newline and its last record is kept, that record and the first boundary line end up on one line of the prepared file. The model does not capture this.
- FilterSpec.FilterFeatures: keeps nothing for a whitelist whose value list is empty, and keeps everything for such a blacklist. An empty list arises for `attr:,` because Java drops the trailing empty strings. GeoTools' handling of an empty `or`/`and` is not part of this model.

## Findings

| source | as written | input that shows it | evidently intended | confidence | as-written member | corrected member |
|---|---|---|---|---|---|---|
| bbox-test/bbox-test.py:68-143 | an area is split again whenever its prepared file has more than one line, and that file holds the four boundary records as well as the kept segments | one segment on which the tool always fails: each area holding one of its end points counts 5 lines and is split again, so the queue never empties | an area with a single kept segment is recorded as a failure and not split | not executed | BBoxSearch.SingleSegmentNeverFinishes | BBoxSearch.CorrectedStopsAtOneSegment |
| bbox-test/bbox-test.py:193-200 | `not bounds_minx` treats a bound of 0.0 as not yet set | kept segments (0,0)-(1,1) then (20,0)-(21,1): the minimum x becomes 20, and the boundary ring leaves the first segment outside | a bound is replaced only when it is unset (`None`) or beaten | not executed | BBoxSearch.ZeroBoundIsForgotten | BBoxSearch.CorrectedRingEncloses |
| catchment-delineation-helpers/src/main/java/ca/bc/gov/catchment/tin/Edge.java:48-60 | `hasExactlyOneCommonPoint` returns `numCommonPoints == 0` | two edges sharing one end point give false and two disjoint edges give true, so `Triangle.addEdge` refuses the second edge of every triangle | the test returns `numCommonPoints == 1` | not executed | TinEdge.OneCommonPointInverted, TinTriangle.AsWrittenRefusesSecondEdge | TinEdge.OneCommonPointSymmetric, TinTriangle.CorrectedBuildsTriangle |
| catchment-delineation-helpers/src/main/java/ca/bc/gov/catchment/improvement/ImprovementMetrics.java:75-81 | the average per request is guarded by the number of tests but divides by the number of requests | one test, no request and a runtime of 10 ms: 10.0 / 0.0 is infinite and rounds to `Long.MAX_VALUE` | -1 when there is no request, as for the other averages | not executed | Metrics.AvgPerRequestWithoutRequests | Metrics.AvgPerRequest |
| catchment-delineation-helpers/src/main/java/ca/bc/gov/catchment/voronoi/KeptAndDiscarded.java:92-127 | the merge removes from this side's kept list every feature the other side keeps | a feature kept by the other side and nowhere discarded ends up neither kept nor discarded | the rules of the method's comment: whatever either side discards is discarded, nothing is both kept and discarded, and a feature kept by either side and discarded by neither stays kept | not executed | KeptAndDiscarded.MergeLosesOthersKept | KeptAndDiscarded.MergeRules |
| catchment-delineation-helpers/src/main/java/ca/bc/gov/catchment/algorithms/ElevationAdjuster.java:49-59 | with no water at all, the distance is set to the adjustment at the maximum distance, and that distance is then adjusted again | elevation 0 with no water gives 1.25, while a point 100 units from water gives 5.0 | a point with no water is treated as lying at the maximum distance and raised the most | not executed | ElevationAdjuster.NoWaterRaisedTooLittle | ElevationAdjuster.NoWaterIsFarthest |
| catchment-delineation-helpers/src/main/java/ca/bc/gov/catchment/routes/WaterAwareCatchmentRouter.java:148-176 | `prev` is always null when it is read, so a confluence just before the vertex is never seen | route p, q, r with only p a confluence: q, at index 1, is movable | the vertex at index - 1 is checked like the one at index + 1 | not executed | WaterRouter.MovableIgnoresPrevious | WaterRouter.MovableCorrected |
| catchment-delineation-helpers/src/main/java/ca/bc/gov/catchment/fitness/PartialSumTouchingJunctionFitness.java:45-76 | the loops copy every point of the section, starting from the junction end | a four-point section with n = 3 gives a partial route of four points | per the method's comment, the first n points from the junction end | not executed | Fitness.PartialRouteKeepsAllPoints | Fitness.PartialRouteCorrected |
| catchment-delineation-helpers/src/main/java/ca/bc/gov/catchment/utils/VectorUtils.java:47-48 | `n` and `n*360` are Java `int`s | -2147483520 degrees: `n*360` wraps to -2147483416 and the result is -4294966936, not a compass angle | 360, the angle raised by whole turns into (0, 360] | not executed; headings of this size do not arise from real coordinates | VectorUtils.JavaCompassAngleOverflows | VectorUtils.CompassAngle |
