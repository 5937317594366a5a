# Fantasy map viewer: geometry, region hierarchy, drawing session and file table

This project models the logic at the heart of a fantasy-map annotation editor
written in JavaScript and React. A user uploads a map image, drops location
markers on it and draws nested administrative regions (World, Continent,
Country, Province, Region) as polygons, vertex by vertex. The model has four
modules:

- `PolygonUtils` (`polygon_utils.dfy`): the geometry kernel. It has the strict
  segment-crossing test, the self-intersection scan of an open polyline, the
  closing-edge scan, even-odd ray-casting point-in-polygon and the vertex-only
  "polygon fully inside polygon" test. Coordinates are exact `real`s in the
  map's 0..100 percentage space. Each scan is a method with loop invariants,
  proved equal to a functional definition, and the definitions' meaning is
  proved as lemmas.
- `RegionHierarchy` (`region_hierarchy.dfy`): the parent-type table, the two
  "deepest region" descents that walk `parentId` links, `getDepth`, and the
  invariant the viewer keeps over its committed regions. Its parts are:
  - distinct ids;
  - parents listed before children, which makes every descent terminate;
  - the seeded World region first, and the only region without a parent, so
    it is the only World;
  - every other region accepted against a listed parent of an allowed type.
- `Viewer` (`map_viewer.dfy`): the component's state as a class `MapViewer`,
  one field per React state variable. Each handler is a method whose
  postcondition gives the whole new state, and every handler proves that it
  keeps the invariant `Valid()`. The finish step as written does not promise
  that a drawing is committed: for type Region it throws (see Findings).
- `WebFileSystem` (`web_file_system.dfy`): the in-memory file table as a class
  `FileTable`, with save/load/delete round trips, "nothing else changes"
  properties, and the exact contents of a directory listing. The table is a
  plain JavaScript object, and the model keeps its two quirks: a save under
  `__proto__` stores nothing, and a text stored under `hasOwnProperty` makes
  the existence test and both loads throw until it is deleted.
- `Basics` (`basics.dfy`): the nullable value and the `filter` / `find` / `map`
  array idioms the source leans on.

Notes on the source's behaviour that the model keeps:

- The parent table (src/components/MapViewer.jsx:31-37) lets a Region sit in
  a Continent, Country or Province, but not directly in the World.
- A right click may remove the only vertex of a drawing, leaving it empty.
- The finish step for type Region throws instead of recomputing the parent
  (see Findings).

## Model

| member | source | states |
|---|---|---|
| PolygonUtils.LinesIntersect | src/utils/PolygonUtils.js:1-10 | the segment test itself; its meaning is stated by LinesIntersectMeaning and the lemmas below |
| PolygonUtils.LinesIntersectMeaning | src/utils/PolygonUtils.js:1-10 | the segment test is true exactly when the segments are not parallel and meet at a point interior to both |
| PolygonUtils.CrossingParametersUnique | src/utils/PolygonUtils.js:3-7 | for non-parallel segments, any common point of the two lines has parameters lambda on ab and gamma on dc |
| PolygonUtils.CrossingParametersMeet | src/utils/PolygonUtils.js:3-7 | lambda and gamma name the same point on both lines |
| PolygonUtils.ParallelNeverIntersect | src/utils/PolygonUtils.js:3-4 | parallel, collinear and exactly overlapping segments are never reported |
| PolygonUtils.OverlapIsNotReported | src/utils/PolygonUtils.js:3-4 | two collinear segments overlapping along a stretch share interior points, yet are not reported |
| PolygonUtils.TouchingNeverIntersects | src/utils/PolygonUtils.js:6-9 | an endpoint of one segment lying on the other's line (a touch or a T-junction) gives false |
| PolygonUtils.SharedEndpointNeverIntersects | src/utils/PolygonUtils.js:6-9 | segments sharing an endpoint never cross |
| PolygonUtils.LinesIntersectSymmetric | src/utils/PolygonUtils.js:1-10 | the test does not depend on which segment is given first |
| PolygonUtils.ShortPolylineNeverSelfIntersects | src/utils/PolygonUtils.js:13-14 | fewer than four points never self-intersect |
| PolygonUtils.DoesSelfIntersect | src/utils/PolygonUtils.js:12-38 | the nested scan returns true exactly when some examined pair of edges (not equal, not adjacent, not first-with-last) crosses |
| PolygonUtils.ExclusionNeverMatters | src/utils/PolygonUtils.js:20-26 | skipping the pair (first edge, last edge) never changes the answer: self-intersection is exactly "some non-adjacent edges cross" |
| PolygonUtils.SelfIntersectsExtends | src/utils/PolygonUtils.js:16-33 | a self-intersecting point list stays self-intersecting when points are appended |
| PolygonUtils.BowtieSelfIntersects | src/utils/PolygonUtils.js:16-33 | the bowtie (0,0),(10,10),(10,0),(0,10) self-intersects through edges 2 and 0 |
| PolygonUtils.SquareDoesNotSelfIntersect | src/utils/PolygonUtils.js:16-33 | a square drawn in order does not self-intersect |
| PolygonUtils.OneSideNeverIntersects | src/utils/PolygonUtils.js:1-10 | a segment with both ends strictly on the same side of the other segment's line is never reported |
| PolygonUtils.ConvexNeverSelfIntersects | src/utils/PolygonUtils.js:12-64 | a strictly convex outline (every other vertex strictly on one side of each edge, the same side throughout) passes both the self-intersection scan and the closing-edge scan |
| PolygonUtils.DoesClosingEdgeIntersect | src/utils/PolygonUtils.js:40-64 | true exactly when there are at least three points and the edge last-to-first crosses one of edges 0 .. n-3; the skip of an edge equal to the closing edge never changes the result |
| PolygonUtils.PointInPolygon | src/utils/PolygonUtils.js:66-81 | the toggling loop returns the parity of the number of edges straddling the point's height to its right, with no division by zero |
| PolygonUtils.OddCrossingsParity | src/utils/PolygonUtils.js:66-81 | toggling a flag once per crossing edge leaves it set exactly when the count of crossing edges is odd |
| PolygonUtils.NoStraddleNoCrossing | src/utils/PolygonUtils.js:75-76 | when every vertex lies at or below the point's height, or every vertex strictly above it, no edge is crossed |
| PolygonUtils.OutsideBeyondVertices | src/utils/PolygonUtils.js:66-81 | such a point is reported outside |
| PolygonUtils.XAtBetween | src/utils/PolygonUtils.js:76 | where a straddling edge meets the point's horizontal line lies between the edge's endpoints |
| PolygonUtils.NothingRightNoCrossing | src/utils/PolygonUtils.js:75-76 | when no vertex lies right of the point, no edge is crossed |
| PolygonUtils.OutsideRightOfVertices | src/utils/PolygonUtils.js:66-81 | a point level with or right of every vertex is reported outside |
| PolygonUtils.CrossesLeftOfEnds | src/utils/PolygonUtils.js:75-76 | left of both endpoints, an edge is crossed exactly when it straddles the point's height |
| PolygonUtils.LeftOfVerticesTelescopes | src/utils/PolygonUtils.js:71-78 | left of every vertex, the parity after k edges says whether vertex k-1 and the last vertex lie on different sides of the point's height |
| PolygonUtils.OutsideLeftOfVertices | src/utils/PolygonUtils.js:66-81 | a point strictly left of every vertex is reported outside: a closed outline straddles its height an even number of times |
| PolygonUtils.OutsideBoundingBox | src/utils/PolygonUtils.js:66-81 | a point right of or level with the rightmost vertex, strictly left of the leftmost, at or beyond the largest y, or strictly below the smallest y, is reported outside |
| PolygonUtils.XAtTransformed | src/utils/PolygonUtils.js:76 | the crossing abscissa moves with a positive scaling and translation |
| PolygonUtils.StraddleTransformed | src/utils/PolygonUtils.js:75 | whether an edge straddles the point's height is unchanged by a positive scaling and translation |
| PolygonUtils.CrossesTransformedStraddling | src/utils/PolygonUtils.js:75-76 | for a straddling edge, the crossing test is unchanged by a positive scaling and translation |
| PolygonUtils.CrossesTransformed | src/utils/PolygonUtils.js:75-76 | the per-edge crossing test is unchanged by a positive scaling and translation |
| PolygonUtils.CrossingCountTransformed | src/utils/PolygonUtils.js:71-78 | the crossing count is unchanged by a positive scaling and translation |
| PolygonUtils.InsideTransformed | src/utils/PolygonUtils.js:66-81 | point-in-polygon is invariant under uniform positive scaling plus translation of point and polygon |
| PolygonUtils.PolygonFullyInsidePolygon | src/utils/PolygonUtils.js:83-85 | the vertex-only containment test; FullyInsideAppend and VertexOnlyContainment state what it means |
| PolygonUtils.FullyInsideAppend | src/utils/PolygonUtils.js:83-85 | containment of a concatenated vertex list is containment of both parts; an empty child is inside anything |
| PolygonUtils.UShapeNotchOutside | src/utils/PolygonUtils.js:66-81 | a point in the notch of a U-shaped polygon is outside it |
| PolygonUtils.VertexOnlyContainment | src/utils/PolygonUtils.js:83-85 | the vertex-only test accepts a triangle whose edge runs through the notch of a U, a point of that edge being outside |
| RegionHierarchy.AllowedParents | src/components/MapViewer.jsx:31-37 | every allowed parent type ranks below the child type; a type has parents exactly when it is Continent, Country, Province or Region; World is a parent only of Continent; only Region has more than one parent type |
| RegionHierarchy.LastIndexOf | src/components/MapViewer.jsx:228 | the position of the last region with an id, or -1 when there is none |
| RegionHierarchy.ChildComesLater | src/components/MapViewer.jsx:257-264 | with parents before children, a child's position is after its parent's: every descent step moves forward in the list |
| RegionHierarchy.WellOrderedFilter | src/components/MapViewer.jsx:167-179 | filtering a list keeps parents before children, so the deepest-region search may run on the allowed candidates alone |
| RegionHierarchy.Descend | src/components/MapViewer.jsx:254-266 | the descent ends at a listed region that contains the point when its start does, and no child of it contains the point |
| RegionHierarchy.DeepestContaining | src/components/MapViewer.jsx:251-266 | none exactly when no region contains the point; otherwise a listed region containing the point with no child containing it |
| RegionHierarchy.FindDeepestContainingRegion | src/components/MapViewer.jsx:225-267 | the filter and the `while (changed)` loop compute DeepestContaining, and terminate |
| RegionHierarchy.NestedChainResolvesToInnermost | src/components/MapViewer.jsx:251-266 | World, A in World, B in A: a point in B resolves to B, a point in A outside B to A, a point outside A to the World |
| RegionHierarchy.ChildrenOf | src/components/MapViewer.jsx:273-280 | exactly the regions whose parent id is the given id, in list order |
| RegionHierarchy.BuildChildrenMap | src/components/MapViewer.jsx:271-280 | the `forEach`/`push` pass maps every id to exactly its children, and a missing entry means none |
| RegionHierarchy.DescendFully | src/components/MapViewer.jsx:282-295 | the descent ends at a listed region that qualifies when its start does, and no child of it qualifies |
| RegionHierarchy.DeepestFullyContaining | src/components/MapViewer.jsx:269-306 | none exactly when no region of an allowed type contains every vertex; otherwise a listed region of an allowed type containing every vertex, with no qualifying child |
| RegionHierarchy.Recurse | src/components/MapViewer.jsx:282-295 | the recursive `recurse` over the children map computes DescendFully |
| RegionHierarchy.FindDeepestFullyContainingRegion | src/components/MapViewer.jsx:269-306 | the whole query computes DeepestFullyContaining |
| RegionHierarchy.NestedChainFullyResolvesToInnermost | src/components/MapViewer.jsx:269-306 | an outline inside Country B and Continent A (B in A) resolves to B, not A |
| RegionHierarchy.RegionMap | src/components/MapViewer.jsx:228 | `Object.fromEntries` maps every id to the last region carrying it |
| RegionHierarchy.GetDepth | src/components/MapViewer.jsx:307-315 | the loop returns the number of parent links followed, a last link to a missing region included |
| RegionHierarchy.ParentLinkStep | src/components/MapViewer.jsx:307-315 | a parent id found in the region map costs one link and hands the walk to a parent of lower rank; a parent id missing from the map is the last link counted |
| RegionHierarchy.DepthOfChild | src/components/MapViewer.jsx:307-315 | with distinct ids a child is exactly one level deeper than its parent |
| RegionHierarchy.DepthBoundedByRank | src/components/MapViewer.jsx:31-37 | in a committed hierarchy a region's depth never exceeds its type's rank: at most four levels below the World |
| RegionHierarchy.RootIsHierarchy | src/components/MapViewer.jsx:332-346 | the seeded World region alone is a valid hierarchy |
| RegionHierarchy.AppendKeepsRooted | src/components/MapViewer.jsx:215 | appending a region with a parent keeps the seeded World first and the only parentless region |
| RegionHierarchy.OnlyRootIsWorld | src/components/MapViewer.jsx:31-37 | in a hierarchy every World region is the seeded root at position 0, with no parent: no region can be placed in a World as a World |
| RegionHierarchy.AppendWellOrdered | src/components/MapViewer.jsx:215 | appending a fresh region whose parent is listed keeps parents before children |
| RegionHierarchy.AppendUniqueIds | src/components/MapViewer.jsx:215 | appending a fresh id keeps ids distinct |
| RegionHierarchy.HierarchyAppend | src/components/MapViewer.jsx:215 | appending a fresh region accepted against a listed parent keeps the hierarchy |
| RegionHierarchy.IdsAppend | src/components/MapViewer.jsx:215 | appending a region adds exactly its id |
| RegionHierarchy.RegionById | src/components/MapViewer.jsx:97 | `regions.find` by id: none exactly when the id is not listed, otherwise a listed region with that id |
| RegionHierarchy.RegionByIdUnique | src/components/MapViewer.jsx:97 | with distinct ids the lookup finds the one region carrying the id |
| Viewer.IsNearFirstPoint | src/components/MapViewer.jsx:219-223 | the closing test; NearBoundsEachAxis and HalfSquareIsNear bound what it accepts |
| Viewer.NearBoundsEachAxis | src/components/MapViewer.jsx:219-223 | a click near the first point is within 1 of it along each axis |
| Viewer.HalfSquareIsNear | src/components/MapViewer.jsx:219-223 | a click within 1/2 of the first point along both axes is near |
| Viewer.RegionIdAt | src/components/MapViewer.jsx:69-70 | a new marker's region tag is absent exactly when no region contains the click, otherwise a listed id |
| Viewer.RegionTag | src/components/MapViewer.jsx:69-70 | the search the handler runs yields the tag described by RegionIdAt: the deepest containing region's id, or none when no region contains the click |
| Viewer.ParentFor | src/components/MapViewer.jsx:166-179 | no parent exactly when no region of an allowed type contains the click; otherwise a listed region of an allowed type containing it, with no allowed-type child containing it |
| Viewer.ChooseParent | src/components/MapViewer.jsx:166-180 | the filter-then-search of the save step computes ParentFor |
| Viewer.ClassifyVertex | src/components/MapViewer.jsx:90-115 | the outcome of a click during a drawing, in the source's order: a rejection when the extended outline would cross itself, a throw when the parent is missing, a rejection when the vertex lies outside the parent (except for type Region), a close request when there are at least three points and the click is near the first, otherwise an append; AddVertex and AppendedKeepsDrawing state what each outcome does |
| Viewer.StartedDrawingOk | src/components/MapViewer.jsx:183-191 | the one-point drawing started at the click is valid against the hierarchy |
| Viewer.ParentFound | src/components/MapViewer.jsx:97-99 | for a valid drawing the parent lookup succeeds, so the click handler never throws |
| Viewer.AppendedKeepsDrawing | src/components/MapViewer.jsx:90-115 | an accepted vertex keeps the drawing free of self-crossings and, except for type Region, inside its parent |
| Viewer.UndoKeepsDrawing | src/components/MapViewer.jsx:76-82 | dropping the last vertex keeps the drawing valid |
| Viewer.CommitKeepsHierarchy | src/components/MapViewer.jsx:215 | appending a region accepted against a listed parent keeps the hierarchy and every marker's tag |
| Viewer.FinishedDrawingCommits | src/components/MapViewer.jsx:202-216 | a valid drawing of a type other than Region that passes the finish checks is accepted against the parent it was drawn in |
| Viewer.ReparentedDrawingCommits | src/components/MapViewer.jsx:211-216 | a valid drawing re-attached to a listed region of an allowed type containing all its vertices is accepted against it |
| Viewer.RegionTypedDrawingPassesChecks | src/components/MapViewer.jsx:201-213 | a Region-typed triangle inside a Continent passes every check before the throwing call |
| Viewer.MapViewer.constructor | src/components/MapViewer.jsx:11-24 | the initial state of the component, which is valid |
| Viewer.MapViewer.HandleMapClick | src/components/MapViewer.jsx:54-120 | locked: nothing changes; location tool: one marker appended, tagged with the deepest containing region, and an editor opened; right click: the last vertex dropped; first region click: the click kept and the metadata dialog opened; later clicks: the vertex appended, a close requested, rejected, or a throw on a missing parent; from a valid state no throw, and validity kept |
| Viewer.MapViewer.PlaceMarker | src/components/MapViewer.jsx:66-74 | the marker and the open editor carry the region tag of the click, and validity is kept |
| Viewer.MapViewer.AppendMarker | src/components/MapViewer.jsx:72 | the marker is appended last to the marker list and nothing else changes; a marker tagged with a listed region keeps validity |
| Viewer.MapViewer.UndoVertex | src/components/MapViewer.jsx:76-84 | exactly the last vertex is removed when there is one, nothing else changes |
| Viewer.MapViewer.AddVertex | src/components/MapViewer.jsx:89-116 | the outcome follows ClassifyVertex: append, close request, rejection or throw |
| Viewer.MapViewer.HandleSaveLocation | src/components/MapViewer.jsx:122-142 | an edited location replaces its namesake; a new one is appended with a fresh id and its marker's region tag, and the marker is linked to it |
| Viewer.MapViewer.HandleCancelEdit | src/components/MapViewer.jsx:144-149 | cancelling an unsaved location removes its temporary marker; the editor closes |
| Viewer.MapViewer.HandleDeleteMarker | src/components/MapViewer.jsx:151-161 | the selected marker and only its linked location are removed; the selection and dialog are cleared |
| Viewer.MapViewer.HandleSaveRegion | src/components/MapViewer.jsx:163-194 | without a pending click, or without an allowed parent containing it, nothing changes; otherwise a one-point drawing under ParentFor starts and the pending click is cleared; with a fresh id validity is kept |
| Viewer.MapViewer.StartDrawing | src/components/MapViewer.jsx:191-193 | the drawing is set and the dialog closed |
| Viewer.MapViewer.HandleCancelNewRegion | src/components/MapViewer.jsx:196-199 | the pending click is cleared and the dialog closed |
| Viewer.MapViewer.HandleFinishRegion | src/components/MapViewer.jsx:201-217 | no-op below three points or when the closing edge crosses; type Region throws with nothing committed; otherwise the drawing is appended unchanged as the last region and the session cleared, keeping validity |
| Viewer.MapViewer.HandleFinishRegionIntended | src/components/MapViewer.jsx:201-217 | as above, except that a Region-typed drawing is re-attached to DeepestFullyContaining and committed, or stays in progress when there is none; validity kept |
| Viewer.MapViewer.Commit | src/components/MapViewer.jsx:215-216 | the region is appended last and the session cleared |
| Viewer.MapViewer.KeyDown | src/components/MapViewer.jsx:318-328 | Escape during a drawing discards it and hides the editor; any other key changes nothing |
| Viewer.MapViewer.OnImageUpload | src/components/MapViewer.jsx:330-348 | the image is set and, on an empty map, exactly the World region covering 0..100 is seeded |
| WebFileSystem.DirPrefix | src/components/filesystem/WebFileSystem.js:33 | the prefix ends in '/' and extends the directory path by at most that '/' |
| WebFileSystem.DirPrefixIdempotent | src/components/filesystem/WebFileSystem.js:33 | normalising twice is normalising once |
| WebFileSystem.TrailingSlashIgnored | src/components/filesystem/WebFileSystem.js:31-35 | a directory named with or without its trailing '/' lists the same files |
| WebFileSystem.DoubledSlashDiffers | src/components/filesystem/WebFileSystem.js:31-35 | a name already ending in '/' is not normalised further: "a//" does not list "a/x" |
| WebFileSystem.FilterDistinct | src/components/filesystem/WebFileSystem.js:34 | filtering a list without repetitions keeps it without repetitions |
| WebFileSystem.FilterAll | src/components/filesystem/WebFileSystem.js:38 | a filter every element passes keeps the key list as it is |
| WebFileSystem.FileTable.constructor | src/components/filesystem/WebFileSystem.js:4 | the table starts empty |
| WebFileSystem.FileTable.LoadMarkdown | src/components/filesystem/WebFileSystem.js:23-25 | throws exactly when the existence test throws; otherwise null exactly when the file does not exist, and the stored text when it does |
| WebFileSystem.FileTable.LoadJSON | src/components/filesystem/WebFileSystem.js:10-17 | throws exactly when the existence test throws; otherwise null exactly when the file does not exist, and the stored text when it does |
| WebFileSystem.FileTable.Store | src/components/filesystem/WebFileSystem.js:19-29 | the assignment both savers make: the text replaces the path's content and a new path joins the key order last, except that under `__proto__` nothing is stored; storing `hasOwnProperty` makes every later load throw, any other path leaves every other load as it was |
| WebFileSystem.FileTable.SaveMarkdown | src/components/filesystem/WebFileSystem.js:27-29 | unless the loads throw, the path loads the saved text afterwards (null for `__proto__`, whose save is ignored); every other path loads as before unless the path is `hasOwnProperty`, after which every load throws; a new path joins the key order last |
| WebFileSystem.FileTable.SaveJSON | src/components/filesystem/WebFileSystem.js:19-21 | the same as SaveMarkdown, observed through LoadJSON |
| WebFileSystem.FileTable.DeleteFile | src/components/filesystem/WebFileSystem.js:37-39 | the path is no longer stored and, unless the loads throw, tests absent and loads as null; every other path loads as before, except that deleting `hasOwnProperty` makes the loads work again; the key order loses exactly that path |
| WebFileSystem.DeleteKeepsConsistent | src/components/filesystem/WebFileSystem.js:37-39 | deleting keeps the table and its key order in step (each stored path listed once), and deleting an absent path leaves the key order as it was |
| WebFileSystem.FileTable.ListFilesInDir | src/components/filesystem/WebFileSystem.js:31-35 | a path is listed exactly when it is stored and starts with the normalised prefix, and no path is listed twice |
| WebFileSystem.FileTable.NestedFilesListed | src/components/filesystem/WebFileSystem.js:31-35 | a stored file anywhere below a directory is in its listing, and so is every file a subdirectory's listing reports |
| WebFileSystem.FileTable.FileExists | src/components/filesystem/WebFileSystem.js:6-8 | throws exactly while a text is stored under `hasOwnProperty`, which hides the method it calls; otherwise true exactly for a stored path |

## Left out

- Pointer coordinates: the conversion of a mouse event to percentages, and
  the `mapRef` guard, are DOM work. The handlers receive the percentages.
- `Date.now()` ids are parameters: `markerId` for a marker and `newId` /
  `freshId` for a location or region. Fresh region ids are taken to be unused
  only where validity is claimed.
- `alert` and `console.log` calls have no effect on state and are not modelled.
- Floating point: coordinates are exact reals. IEEE rounding, the exact
  `det === 0` comparison and `Math.sqrt` are not modelled. `isNearFirstPoint`
  compares the squared distance with 1, which is the same test over the reals.
- JSON: `saveJSON` stores a given serialised string, and `loadJSON` returns
  the stored string. Serialisation and parse failures are not modelled.
- `Object.keys` order: the key order is insertion order. JavaScript lists
  integer-like keys first, in ascending order; this is not modelled.
- Empty ids: ids and parent ids are non-empty strings. The source tests them
  for truthiness, so an empty id would act like a missing one.
- Viewer.MapViewer.HandleMapClick: the handler is memoised with the
  dependency list `[locked, toolMode, drawingRegion]`
  (src/components/MapViewer.jsx:119), which omits `regions`. The model always
  reads the current list. In the source, the first image upload seeds the
  World with `setRegions` (src/components/MapViewer.jsx:332-346), which does
  not rebuild the handler. The location tool then still searches the empty
  list it captured. Markers placed after the upload are tagged with a null
  region, although the World contains them, until the tool or the lock
  changes. A commit does not leave the handler stale, because it also
  clears the drawing (src/components/MapViewer.jsx:215-216), which is one of
  the handler's dependencies.
- Viewer.MapViewer.HandleMapClick, HandleSaveRegion,
  HandleFinishRegionIntended, RegionHierarchy.FindDeepestContainingRegion,
  FindDeepestFullyContainingRegion and GetDepth require the regions to list
  parents before children, which the component's own updates keep. The
  source needs less to stop: its descents, and the
  `while (current && current.parentId)` loop of `getDepth`, loop forever
  only when parent links form a cycle, such as a region that is its own
  parent. `getDepth` has no caller in the source. The model requires the stronger
  parents-first order because it is what the updates keep and what the
  termination proofs use.
- Viewer.MapViewer.HandleSaveRegion: validity is claimed only for an id not
  already in use.
- Setters called only from the rendering code are not modelled: the tool
  mode, the lock, the marker selection, the delete dialog and the close
  confirmation. Their fields are public.
- The hover point and `handleMouseMove` are rendering.
- The unused `regionMap`, `childrenMap` and `recurse` inside
  `findDeepestContainingRegion`, and the unused `regionMap` in
  `findDeepestFullyContainingRegion`, compute nothing that is returned.
- RegionHierarchy.FindDeepestContainingRegion: siblings may overlap. The
  descent then takes the first containing child in list order, which the
  contract states; no claim is made that the choice is unique.
- The rendering of the component and the other UI components are not part
  of this model, nor are the Electron file system, environment detection,
  the Markdown front-matter helper or the world manager.

## Findings

| source | as written | input that shows it | evidently intended | confidence | as-written member | corrected member |
|---|---|---|---|---|---|---|
| src/components/MapViewer.jsx:211-213 | for a drawing of type Region, the finish step calls `findDeepestFullyContainingRegion()` with no arguments; `regions.map` at line 270 then throws on `undefined`, so a Region can never be committed | the Region-typed triangle (10,10),(20,10),(15,20) drawn in Continent "eu" with square (0,0)-(50,50): it passes every check before the call | re-attach the Region to the deepest region of type Continent, Country or Province that contains all its vertices, and keep the drawing in progress when there is none | high, not executed | Viewer.MapViewer.HandleFinishRegion, Viewer.RegionTypedDrawingPassesChecks | Viewer.MapViewer.HandleFinishRegionIntended |
