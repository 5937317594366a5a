/** The state machine of the map viewer component: placing location
    markers, saving, cancelling and deleting locations, and drawing a region
    vertex by vertex inside a parent region before committing it to the
    region list. Each React state variable is a field; each handler is a
    method that changes the fields its setters change. */
module Viewer {
  import opened Basics
  import opened PolygonUtils
  import opened RegionHierarchy

  datatype ToolMode = LocationTool | RegionTool

  /** Whether a handler ran to its end or stopped on a thrown error, in which
      case none of its setters ran. */
  datatype Status = Completed | Threw

  /** A pin on the map; `id` is the click's `Date.now()`. */
  datatype Marker = Marker(id: int, x: real, y: real, locationId: Option<Id>, regionId: Option<Id>)

  /** A named place. `id` is absent until the location is first saved;
      `tempMarkerId` names the marker it was created from. */
  datatype Location = Location(id: Option<Id>, tempMarkerId: Option<int>, name: string,
                               locationType: string, description: string, regionId: Option<Id>)

  /** All the state the component holds, in one value. */
  datatype ViewState = ViewState(
    mapImage: Option<string>,
    locations: seq<Location>,
    regions: seq<Region>,
    markers: seq<Marker>,
    locked: bool,
    selectedMarkerId: Option<int>,
    editingLocation: Option<Location>,
    toolMode: ToolMode,
    showDeleteModal: bool,
    drawingRegion: Option<Region>,
    showRegionEditor: bool,
    pendingClick: Option<Point>,
    confirmRegionModalOpen: bool)

  // ---------------------------------------------------------------------
  // Pure pieces of the handlers

  /** `isNearFirstPoint` with its default threshold 1, comparing squared
      distances so that no square root is needed. */
  predicate IsNearFirstPoint(clickX: real, clickY: real, first: Point) {
    var dx, dy := clickX - first.x, clickY - first.y;
    dx * dx + dy * dy <= 1.0
  }

  /** A near click is within 1 of the first point along each axis. */
  lemma NearBoundsEachAxis(clickX: real, clickY: real, first: Point)
    requires IsNearFirstPoint(clickX, clickY, first)
    ensures -1.0 <= clickX - first.x <= 1.0 && -1.0 <= clickY - first.y <= 1.0
  {
  }

  /** Any click within 1/2 of the first point along both axes is near. */
  lemma HalfSquareIsNear(clickX: real, clickY: real, first: Point)
    requires -0.5 <= clickX - first.x <= 0.5 && -0.5 <= clickY - first.y <= 0.5
    ensures IsNearFirstPoint(clickX, clickY, first)
  {
    var dx, dy := clickX - first.x, clickY - first.y;
    assert dx * dx <= 0.25 by {
      if dx >= 0.0 { assert dx * dx <= 0.5 * dx; } else { assert dx * dx <= -0.5 * dx; }
    }
    assert dy * dy <= 0.25 by {
      if dy >= 0.0 { assert dy * dy <= 0.5 * dy; } else { assert dy * dy <= -0.5 * dy; }
    }
  }

  /** `containingRegion?.id || null`: the id a new marker is tagged with. */
  function RegionIdAt(pt: Point, rs: seq<Region>): (r: Option<Id>)
    requires WellOrdered(rs)
    ensures r.None? <==> forall k :: 0 <= k < |rs| ==> !Inside(pt, rs[k].points)
    ensures r.Some? ==> r.value in Ids(rs)
  {
    match DeepestContaining(pt, rs)
    case None => None
    case Some(region) =>
      var k :| 0 <= k < |rs| && rs[k] == region;
      Some(region.id)
  }

  /** The search for a new marker's region tag. */
  method RegionTag(pt: Point, rs: seq<Region>) returns (regionId: Option<Id>)
    requires WellOrdered(rs)
    ensures regionId == RegionIdAt(pt, rs)
  {
    var containing := FindDeepestContainingRegion(pt, rs);
    regionId := if containing.Some? then Some(containing.value.id) else None;
  }

  /** The test `handleSaveRegion` filters the regions with. */
  function ParentCandidate(allowed: seq<string>, pt: Point): Region -> bool {
    (r: Region) => r.regionType in allowed && Inside(pt, r.points)
  }

  /** The parent `handleSaveRegion` records for a new region of type `t`
      started at `pt`: the deepest region among those of an allowed type
      containing the point, or none when there is no such region. */
  function ParentFor(pt: Point, rs: seq<Region>, t: string): (r: Option<Region>)
    requires WellOrdered(rs)
    ensures r.None? <==> forall k :: 0 <= k < |rs| ==> !(rs[k].regionType in AllowedParents(t) && Inside(pt, rs[k].points))
    ensures r.Some? ==> r.value in rs && r.value.regionType in AllowedParents(t) && Inside(pt, r.value.points)
    ensures r.Some? ==> forall k :: 0 <= k < |rs| && rs[k].parentId == Some(r.value.id) && rs[k].regionType in AllowedParents(t) ==>
              !Inside(pt, rs[k].points)
  {
    var p := ParentCandidate(AllowedParents(t), pt);
    var candidates := Filter(rs, p);
    WellOrderedFilter(rs, p);
    if |candidates| == 0 then None
    else
      DeepestContaining(pt, candidates)
  }

  /** The parent search of `handleSaveRegion`: keep the regions of an
      allowed type that contain the point, give up when there are none, and
      otherwise take the deepest of them. */
  method ChooseParent(pt: Point, rs: seq<Region>, t: string) returns (parent: Option<Region>)
    requires WellOrdered(rs)
    ensures parent == ParentFor(pt, rs, t)
  {
    var validParentTypes := AllowedParents(t);
    var validParentRegions := Filter(rs, ParentCandidate(validParentTypes, pt));
    if |validParentRegions| == 0 {
      return None;
    }
    WellOrderedFilter(rs, ParentCandidate(validParentTypes, pt));
    parent := FindDeepestContainingRegion(pt, validParentRegions);
  }

  /** `regions.find(r => r.id === drawingRegion.parentId)`. */
  function ParentOf(rs: seq<Region>, d: Region): Option<Region> {
    match d.parentId
    case None => None
    case Some(pid) => RegionById(rs, pid)
  }

  /** What a left click at `pt` does to a drawing in progress. */
  datatype VertexOutcome = SelfCrossing | ParentMissing | OutsideParent | CloseRequested | Appended

  /** The checks a left click goes through while drawing, in the source's
      order: the extended polyline must not cross itself, the recorded parent
      is looked up (reading its points throws when it is missing), the point
      must lie in the parent unless the type is Region, and a click near the
      first of at least three points asks to close instead of appending. */
  function ClassifyVertex(d: Region, rs: seq<Region>, pt: Point): VertexOutcome {
    if SelfIntersects(d.points + [pt]) then SelfCrossing
    else match ParentOf(rs, d)
      case None => ParentMissing
      case Some(parent) =>
        if !Inside(pt, parent.points) && d.regionType != "Region" then OutsideParent
        else if |d.points| >= 3 && IsNearFirstPoint(pt.x, pt.y, d.points[0]) then CloseRequested
        else Appended
  }

  /** A drawing's points relative to the parent it was started in: the type
      may be placed in the parent's type, the open polyline does not cross
      itself, and unless the type is Region every vertex lies in the parent. */
  predicate DrawnIn(d: Region, parent: Region) {
    && parent.regionType in AllowedParents(d.regionType)
    && !SelfIntersects(d.points)
    && (d.regionType != "Region" ==> PolygonFullyInsidePolygon(d.points, parent.points))
  }

  /** A drawing in progress: a fresh id and a listed parent it is drawn in. */
  ghost predicate DrawingOk(d: Region, rs: seq<Region>) {
    && d.id !in Ids(rs)
    && exists m :: 0 <= m < |rs| && d.parentId == Some(rs[m].id) && DrawnIn(d, rs[m])
  }

  /** The committed regions form a hierarchy and a drawing in progress is
      valid against them. */
  ghost predicate RegionsOk(rs: seq<Region>, drawing: Option<Region>) {
    && Hierarchy(rs)
    && (drawing.Some? ==> DrawingOk(drawing.value, rs))
  }

  /** Every marker's region tag names a listed region. */
  predicate MarkersTagged(ms: seq<Marker>, rs: seq<Region>) {
    forall k :: 0 <= k < |ms| && ms[k].regionId.Some? ==> ms[k].regionId.value in Ids(rs)
  }

  /** Appending a marker whose tag, if any, is listed keeps every tag listed. */
  lemma TaggedAppend(ms: seq<Marker>, rs: seq<Region>, m: Marker)
    requires m.regionId.Some? ==> m.regionId.value in Ids(rs)
    ensures MarkersTagged(ms, rs) ==> MarkersTagged(ms + [m], rs)
  {
  }

  /** Dropping markers keeps every remaining tag listed. */
  lemma TaggedFilter(ms: seq<Marker>, rs: seq<Region>, p: Marker -> bool)
    ensures MarkersTagged(ms, rs) ==> MarkersTagged(Filter(ms, p), rs)
  {
  }

  /** Linking a marker to a location leaves its tag alone. */
  lemma TaggedLink(ms: seq<Marker>, rs: seq<Region>, tempMarkerId: Option<int>, locationId: Id)
    ensures MarkersTagged(ms, rs) ==> MarkersTagged(Map(ms, LinkMarker(tempMarkerId, locationId)), rs)
  {
  }

  /** The one-point drawing `handleSaveRegion` starts is valid: its parent
      is listed, of an allowed type, and contains the point. */
  lemma StartedDrawingOk(d: Region, rs: seq<Region>, p: Region)
    requires p in rs && d.id !in Ids(rs) && d.parentId == Some(p.id) && |d.points| == 1
    requires p.regionType in AllowedParents(d.regionType) && Inside(d.points[0], p.points)
    ensures DrawingOk(d, rs)
  {
    ShortPolylineNeverSelfIntersects(d.points);
    var m :| 0 <= m < |rs| && rs[m] == p;
    assert DrawnIn(d, rs[m]);
  }

  /** A drawing in progress always finds its parent, so the lookup in the
      click handler never throws. */
  lemma ParentFound(d: Region, rs: seq<Region>, pt: Point)
    ensures DrawingOk(d, rs) ==> ClassifyVertex(d, rs, pt) != ParentMissing
  {
    if DrawingOk(d, rs) {
      var m :| 0 <= m < |rs| && d.parentId == Some(rs[m].id) && DrawnIn(d, rs[m]);
      assert rs[m].id in Ids(rs);
    }
  }

  /** An accepted vertex keeps the drawing valid: the longer polyline still
      does not cross itself and still lies in the parent. */
  lemma AppendedKeepsDrawing(d: Region, rs: seq<Region>, pt: Point)
    requires UniqueIds(rs) && DrawingOk(d, rs)
    requires ClassifyVertex(d, rs, pt) == Appended
    ensures DrawingOk(d.(points := d.points + [pt]), rs)
  {
    var m :| 0 <= m < |rs| && d.parentId == Some(rs[m].id) && DrawnIn(d, rs[m]);
    RegionByIdUnique(rs, m);
    FullyInsideAppend(d.points, [pt], rs[m].points);
    var d' := d.(points := d.points + [pt]);
    assert DrawnIn(d', rs[m]);
  }

  /** Removing the last vertex keeps the drawing valid: a polyline whose
      extension does not cross itself does not cross itself either. */
  lemma UndoKeepsDrawing(d: Region, rs: seq<Region>)
    requires DrawingOk(d, rs) && |d.points| > 0
    ensures DrawingOk(d.(points := d.points[..|d.points| - 1]), rs)
  {
    var m :| 0 <= m < |rs| && d.parentId == Some(rs[m].id) && DrawnIn(d, rs[m]);
    var prefix := d.points[..|d.points| - 1];
    assert prefix + [d.points[|d.points| - 1]] == d.points;
    if SelfIntersects(prefix) {
      SelfIntersectsExtends(prefix, [d.points[|d.points| - 1]]);
    }
    FullyInsideAppend(prefix, [d.points[|d.points| - 1]], rs[m].points);
    var d' := d.(points := prefix);
    assert DrawnIn(d', rs[m]);
  }

  /** A region may be appended to the list: its id is fresh and it was
      accepted against a listed parent. */
  ghost predicate CommitOk(r: Region, rs: seq<Region>) {
    && r.id !in Ids(rs)
    && exists m :: 0 <= m < |rs| && r.parentId == Some(rs[m].id) && Accepted(r, rs[m])
  }

  /** Committing keeps the hierarchy and every marker's tag. */
  lemma CommitKeepsHierarchy(r: Region, rs: seq<Region>, ms: seq<Marker>)
    requires Hierarchy(rs) && MarkersTagged(ms, rs) && CommitOk(r, rs)
    ensures Hierarchy(rs + [r]) && MarkersTagged(ms, rs + [r])
  {
    var m :| 0 <= m < |rs| && r.parentId == Some(rs[m].id) && Accepted(r, rs[m]);
    HierarchyAppend(rs, r, m);
    IdsAppend(rs, r);
  }

  /** A drawing of any type but Region that passes the finish checks is
      accepted against the parent it was drawn in. */
  lemma FinishedDrawingCommits(d: Region, rs: seq<Region>)
    requires DrawingOk(d, rs) && d.regionType != "Region"
    requires |d.points| >= 3 && !ClosingEdgeIntersects(d.points)
    ensures CommitOk(d, rs)
  {
    var m :| 0 <= m < |rs| && d.parentId == Some(rs[m].id) && DrawnIn(d, rs[m]);
    assert Accepted(d, rs[m]);
  }

  /** A drawing that passes the finish checks, re-attached to a listed
      region of an allowed type that holds all its vertices, is accepted
      against it. */
  lemma ReparentedDrawingCommits(d: Region, rs: seq<Region>, p: Region)
    requires DrawingOk(d, rs) && |d.points| >= 3 && !ClosingEdgeIntersects(d.points)
    requires p in rs && p.regionType in AllowedParents(d.regionType)
    requires PolygonFullyInsidePolygon(d.points, p.points)
    ensures CommitOk(d.(parentId := Some(p.id)), rs)
  {
    var m :| 0 <= m < |rs| && d.parentId == Some(rs[m].id) && DrawnIn(d, rs[m]);
    var k :| 0 <= k < |rs| && rs[k] == p;
    assert Accepted(d.(parentId := Some(p.id)), rs[k]);
  }

  /** A Region-typed triangle inside a Continent passes every check the
      finish step makes before the throwing call: the call alone keeps it
      from being committed. */
  lemma RegionTypedDrawingPassesChecks()
    ensures var d := Region("lake", "Lake", "Region", Some("eu"),
                            [Point(10.0, 10.0), Point(20.0, 10.0), Point(15.0, 20.0)]);
            var parent := Region("eu", "Europe", "Continent", Some("root"),
                                 [Point(0.0, 0.0), Point(50.0, 0.0), Point(50.0, 50.0), Point(0.0, 50.0)]);
            DrawnIn(d, parent) && |d.points| >= 3 && !ClosingEdgeIntersects(d.points)
  {
    var p0, p1, p2 := Point(10.0, 10.0), Point(20.0, 10.0), Point(15.0, 20.0);
    ShortPolylineNeverSelfIntersects([p0, p1, p2]);
    SharedEndpointNeverIntersects(p0, p1, p2, p0);
  }

  // ---------------------------------------------------------------------
  // The component

  class MapViewer {
    var mapImage: Option<string>
    var locations: seq<Location>
    var regions: seq<Region>
    var markers: seq<Marker>
    var locked: bool
    var selectedMarkerId: Option<int>
    var editingLocation: Option<Location>
    var toolMode: ToolMode
    var showDeleteModal: bool
    var drawingRegion: Option<Region>
    var showRegionEditor: bool
    var pendingClick: Option<Point>
    var confirmRegionModalOpen: bool

    function State(): ViewState
      reads this
    {
      ViewState(mapImage, locations, regions, markers, locked, selectedMarkerId, editingLocation,
                toolMode, showDeleteModal, drawingRegion, showRegionEditor, pendingClick, confirmRegionModalOpen)
    }

    /** The committed regions form a hierarchy, a drawing in progress is
        valid against them, and markers are tagged with listed regions. */
    ghost predicate Valid()
      reads this`regions, this`drawingRegion, this`markers
    {
      && RegionsOk(regions, drawingRegion)
      && MarkersTagged(markers, regions)
    }

    /** The initial values of the `useState` calls. */
    constructor()
      ensures State() == ViewState(None, [], [], [], false, None, None, LocationTool, false, None, false, None, false)
      ensures Valid()
    {
      mapImage := None;
      locations := [];
      regions := [];
      markers := [];
      locked := false;
      selectedMarkerId := None;
      editingLocation := None;
      toolMode := LocationTool;
      showDeleteModal := false;
      drawingRegion := None;
      showRegionEditor := false;
      pendingClick := None;
      confirmRegionModalOpen := false;
    }

    /** `handleMapClick` for a click at (`posX`, `posY`), in percent of the
        map, with mouse `button`; `markerId` is the click's timestamp. */
    method HandleMapClick(button: int, posX: real, posY: real, markerId: int) returns (status: Status)
      requires WellOrdered(regions)
      modifies this
      ensures old(locked) ==> status == Completed && State() == old(State())
      ensures !old(locked) && old(toolMode) == LocationTool ==>
        var regionId := RegionIdAt(Point(posX, posY), old(regions));
        status == Completed &&
        State() == old(State()).(markers := old(markers) + [Marker(markerId, posX, posY, None, regionId)],
                                 editingLocation := Some(Location(None, Some(markerId), "", "City", "", regionId)),
                                 selectedMarkerId := None)
      ensures !old(locked) && old(toolMode) == RegionTool && button == 2 ==>
        var d := old(drawingRegion);
        status == Completed &&
        if d.Some? && |d.value.points| > 0 then
          State() == old(State()).(drawingRegion := Some(d.value.(points := d.value.points[..|d.value.points| - 1])))
        else
          State() == old(State())
      ensures !old(locked) && old(toolMode) == RegionTool && button != 2 && old(drawingRegion).None? ==>
        status == Completed &&
        State() == old(State()).(pendingClick := Some(Point(posX, posY)), showRegionEditor := true)
      ensures !old(locked) && old(toolMode) == RegionTool && button != 2 && old(drawingRegion).Some? ==>
        var d := old(drawingRegion).value;
        var pt := Point(posX, posY);
        match ClassifyVertex(d, old(regions), pt)
        case Appended => status == Completed && State() == old(State()).(drawingRegion := Some(d.(points := d.points + [pt])))
        case CloseRequested => status == Completed && State() == old(State()).(confirmRegionModalOpen := true)
        case ParentMissing => status == Threw && State() == old(State())
        case _ => status == Completed && State() == old(State())
      ensures old(Valid()) ==> status == Completed && Valid()
    {
      status := Completed;
      if locked {
        return;
      }
      var pt := Point(posX, posY);
      if toolMode == LocationTool {
        PlaceMarker(pt, markerId);
      } else if button == 2 {
        UndoVertex();
      } else if drawingRegion.None? {
        pendingClick := Some(pt);
        showRegionEditor := true;
      } else {
        status := AddVertex(pt);
      }
    }

    /** The location-tool branch of the click handler. */
    method PlaceMarker(pt: Point, markerId: int)
      requires WellOrdered(regions)
      modifies this`markers, this`editingLocation, this`selectedMarkerId
      ensures var regionId := RegionIdAt(pt, old(regions));
        && markers == old(markers) + [Marker(markerId, pt.x, pt.y, None, regionId)]
        && editingLocation == Some(Location(None, Some(markerId), "", "City", "", regionId))
      ensures selectedMarkerId == None
      ensures old(Valid()) ==> Valid()
    {
      var regionId := RegionTag(pt, regions);
      editingLocation := Some(Location(None, Some(markerId), "", "City", "", regionId));
      selectedMarkerId := None;
      AppendMarker(Marker(markerId, pt.x, pt.y, None, regionId));
    }

    /** The marker setter of the location branch. */
    method AppendMarker(marker: Marker)
      requires marker.regionId.Some? ==> marker.regionId.value in Ids(regions)
      modifies this`markers
      ensures markers == old(markers) + [marker]
      ensures old(Valid()) ==> Valid()
    {
      TaggedAppend(markers, regions, marker);
      markers := markers + [marker];
    }

    /** A right click while drawing drops the last vertex. */
    method UndoVertex()
      modifies this
      ensures var d := old(drawingRegion);
        if d.Some? && |d.value.points| > 0 then
          State() == old(State()).(drawingRegion := Some(d.value.(points := d.value.points[..|d.value.points| - 1])))
        else
          State() == old(State())
      ensures old(Valid()) ==> Valid()
    {
      if drawingRegion.Some? && |drawingRegion.value.points| > 0 {
        var d := drawingRegion.value;
        if Valid() {
          UndoKeepsDrawing(d, regions);
        }
        drawingRegion := Some(d.(points := d.points[..|d.points| - 1]));
      }
    }

    /** A left click while drawing: the vertex is checked and appended, or a
        close is requested, or nothing changes. */
    method AddVertex(pt: Point) returns (status: Status)
      requires drawingRegion.Some?
      modifies this
      ensures var d := old(drawingRegion).value;
        match ClassifyVertex(d, old(regions), pt)
        case Appended => status == Completed && State() == old(State()).(drawingRegion := Some(d.(points := d.points + [pt])))
        case CloseRequested => status == Completed && State() == old(State()).(confirmRegionModalOpen := true)
        case ParentMissing => status == Threw && State() == old(State())
        case _ => status == Completed && State() == old(State())
      ensures old(Valid()) ==> status == Completed && Valid()
    {
      status := Completed;
      var d := drawingRegion.value;
      var newPoints := d.points + [pt];
      var crossing := DoesSelfIntersect(newPoints);
      if crossing {
        return;
      }
      var parent := ParentOf(regions, d);
      ParentFound(d, regions, pt);
      if parent.None? {
        status := Threw;
        return;
      }
      var inside := PointInPolygon(pt, parent.value.points);
      if !inside && d.regionType != "Region" {
        return;
      }
      if |d.points| >= 3 && IsNearFirstPoint(pt.x, pt.y, d.points[0]) {
        confirmRegionModalOpen := true;
        return;
      }
      if Valid() {
        AppendedKeepsDrawing(d, regions, pt);
      }
      drawingRegion := Some(d.(points := newPoints));
    }

    /** `handleSaveLocation(loc)`: an edited location replaces the one with
        its id; a new one gets the fresh id `newId`, takes its marker's
        region tag, and the marker is linked to it. */
    method HandleSaveLocation(loc: Location, newId: Id)
      modifies this`locations, this`markers, this`editingLocation
      ensures loc.id.Some? ==>
        locations == Map(old(locations), ReplaceLocation(loc)) && markers == old(markers)
      ensures loc.id.None? ==>
        var marker := Find(old(markers), HasMarkerId(loc.tempMarkerId));
        var regionId := if marker.Some? then marker.value.regionId else None;
        && locations == old(locations) + [loc.(id := Some(newId), regionId := regionId)]
        && markers == Map(old(markers), LinkMarker(loc.tempMarkerId, newId))
      ensures editingLocation == None
      ensures old(Valid()) ==> Valid()
    {
      if loc.id.Some? {
        locations := Map(locations, ReplaceLocation(loc));
      } else {
        var marker := Find(markers, HasMarkerId(loc.tempMarkerId));
        var regionId := if marker.Some? then marker.value.regionId else None;
        locations := locations + [loc.(id := Some(newId), regionId := regionId)];
        TaggedLink(markers, regions, loc.tempMarkerId, newId);
        markers := Map(markers, LinkMarker(loc.tempMarkerId, newId));
      }
      editingLocation := None;
    }

    /** `handleCancelEdit`: cancelling a location that was never saved also
        removes its marker. */
    method HandleCancelEdit()
      modifies this`markers, this`editingLocation
      ensures var e := old(editingLocation);
        markers == if e.Some? && e.value.id.None? then Filter(old(markers), MarkerIdIsNot(e.value.tempMarkerId))
                   else old(markers)
      ensures editingLocation == None
      ensures old(Valid()) ==> Valid()
    {
      if editingLocation.Some? && editingLocation.value.id.None? {
        TaggedFilter(markers, regions, MarkerIdIsNot(editingLocation.value.tempMarkerId));
        markers := Filter(markers, MarkerIdIsNot(editingLocation.value.tempMarkerId));
      }
      editingLocation := None;
    }

    /** `handleDeleteMarker`: remove the selected marker and the location
        linked to it, then clear the selection and close the dialog. */
    method HandleDeleteMarker()
      modifies this`markers, this`locations, this`selectedMarkerId, this`showDeleteModal
      ensures var marker := Find(old(markers), HasMarkerId(old(selectedMarkerId)));
        && markers == (if marker.Some? then Filter(old(markers), MarkerIdIsNot(Some(marker.value.id))) else old(markers))
        && locations == (if marker.Some? && marker.value.locationId.Some?
                         then Filter(old(locations), LocationIdIsNot(marker.value.locationId))
                         else old(locations))
      ensures selectedMarkerId == None && !showDeleteModal
      ensures old(Valid()) ==> Valid()
    {
      var marker := Find(markers, HasMarkerId(selectedMarkerId));
      if marker.Some? {
        TaggedFilter(markers, regions, MarkerIdIsNot(Some(marker.value.id)));
        markers := Filter(markers, MarkerIdIsNot(Some(marker.value.id)));
        if marker.value.locationId.Some? {
          locations := Filter(locations, LocationIdIsNot(marker.value.locationId));
        }
      }
      selectedMarkerId := None;
      showDeleteModal := false;
    }

    /** `handleSaveRegion(name, type)` after the metadata dialog: start a
        drawing at the pending click inside the deepest region of an allowed
        parent type, or keep everything when there is none. `freshId` is
        the `Date.now()` id. */
    method HandleSaveRegion(name: string, regionType: string, freshId: Id)
      requires WellOrdered(regions)
      modifies this
      ensures old(pendingClick).None? ==> State() == old(State())
      ensures old(pendingClick).Some? ==>
        var pc := old(pendingClick).value;
        match ParentFor(pc, old(regions), regionType)
        case None => State() == old(State())
        case Some(p) =>
          State() == old(State()).(drawingRegion := Some(Region(freshId, name, regionType, Some(p.id), [pc])),
                                   showRegionEditor := false, pendingClick := None)
      ensures old(Valid()) && freshId !in Ids(old(regions)) ==> Valid()
    {
      if pendingClick.None? {
        return;
      }
      var pc := pendingClick.value;
      var parentRegion := ChooseParent(pc, regions, regionType);
      if parentRegion.None? {
        return;
      }
      var p := parentRegion.value;
      var newRegion := Region(freshId, name, regionType, Some(p.id), [pc]);
      if freshId !in Ids(regions) {
        StartedDrawingOk(newRegion, regions, p);
      }
      StartDrawing(newRegion);
    }

    /** The three setters that open a drawing session. */
    method StartDrawing(d: Region)
      modifies this
      ensures State() == old(State()).(drawingRegion := Some(d), showRegionEditor := false, pendingClick := None)
      ensures old(Valid()) && DrawingOk(d, old(regions)) ==> Valid()
    {
      drawingRegion := Some(d);
      showRegionEditor := false;
      pendingClick := None;
    }

    /** `handleCancelNewRegion`: close the metadata dialog. */
    method HandleCancelNewRegion()
      modifies this
      ensures State() == old(State()).(pendingClick := None, showRegionEditor := false)
      ensures old(Valid()) ==> Valid()
    {
      pendingClick := None;
      showRegionEditor := false;
    }

    /** `handleFinishRegion` as written: with at least three points and a
        closing edge that crosses nothing, a drawing is appended to the
        regions and the session ends, except that for type Region the
        argument-less call to `findDeepestFullyContainingRegion` throws
        before anything is committed. */
    method HandleFinishRegion() returns (status: Status)
      modifies this
      ensures var d := old(drawingRegion);
        if d.None? || |d.value.points| < 3 || ClosingEdgeIntersects(d.value.points) then
          status == Completed && State() == old(State())
        else if d.value.regionType == "Region" then
          status == Threw && State() == old(State())
        else
          status == Completed && State() == old(State()).(regions := old(regions) + [d.value], drawingRegion := None)
      ensures old(Valid()) ==> Valid()
    {
      status := Completed;
      if drawingRegion.None? || |drawingRegion.value.points| < 3 {
        return;
      }
      var d := drawingRegion.value;
      var closing := DoesClosingEdgeIntersect(d.points);
      if closing {
        return;
      }
      if d.regionType == "Region" {
        status := Threw;
        return;
      }
      if Valid() {
        FinishedDrawingCommits(d, regions);
      }
      Commit(d);
    }

    /** The finish step as designed: a Region-typed drawing is re-attached
        to the deepest region of an allowed type holding all its vertices,
        and stays in progress when there is none; other types are committed
        as they are. */
    method HandleFinishRegionIntended()
      requires WellOrdered(regions)
      modifies this
      ensures var d := old(drawingRegion);
        if d.None? || |d.value.points| < 3 || ClosingEdgeIntersects(d.value.points) then
          State() == old(State())
        else if d.value.regionType == "Region" then
          match DeepestFullyContaining(d.value.points, old(regions), AllowedParents("Region"))
          case None => State() == old(State())
          case Some(p) =>
            State() == old(State()).(regions := old(regions) + [d.value.(parentId := Some(p.id))], drawingRegion := None)
        else
          State() == old(State()).(regions := old(regions) + [d.value], drawingRegion := None)
      ensures old(Valid()) ==> Valid()
    {
      if drawingRegion.None? || |drawingRegion.value.points| < 3 {
        return;
      }
      var d := drawingRegion.value;
      var closing := DoesClosingEdgeIntersect(d.points);
      if closing {
        return;
      }
      if d.regionType == "Region" {
        var parent := FindDeepestFullyContainingRegion(d.points, regions, AllowedParents("Region"));
        if parent.None? {
          return;
        }
        if Valid() {
          ReparentedDrawingCommits(d, regions, parent.value);
        }
        Commit(d.(parentId := Some(parent.value.id)));
      } else {
        if Valid() {
          FinishedDrawingCommits(d, regions);
        }
        Commit(d);
      }
    }

    /** The two setters that end a finished drawing: append the region and
        clear the session. */
    method Commit(r: Region)
      modifies this
      ensures State() == old(State()).(regions := old(regions) + [r], drawingRegion := None)
      ensures old(Valid()) && CommitOk(r, old(regions)) ==> Valid()
    {
      if Valid() && CommitOk(r, regions) {
        CommitKeepsHierarchy(r, regions, markers);
      }
      regions := regions + [r];
      drawingRegion := None;
    }

    /** The keydown listener: Escape abandons a drawing in progress. */
    method KeyDown(key: string)
      modifies this
      ensures key == "Escape" && old(drawingRegion).Some? ==>
        State() == old(State()).(drawingRegion := None, showRegionEditor := false)
      ensures !(key == "Escape" && old(drawingRegion).Some?) ==> State() == old(State())
      ensures old(Valid()) ==> Valid()
    {
      if key == "Escape" && drawingRegion.Some? {
        drawingRegion := None;
        showRegionEditor := false;
      }
    }

    /** `onImageUpload`: show the image and, on an empty map, seed the World
        region covering the whole image. */
    method OnImageUpload(image: string)
      modifies this
      ensures State() == old(State()).(mapImage := Some(image),
                                       regions := if |old(regions)| == 0 then [Root()] else old(regions))
      ensures old(Valid()) ==> Valid()
    {
      mapImage := Some(image);
      if |regions| == 0 {
        RootIsHierarchy();
        regions := [Root()];
      }
    }
  }

  // ---------------------------------------------------------------------
  // The callbacks handed to `map` and `filter`

  function ReplaceLocation(loc: Location): Location -> Location {
    (l: Location) => if l.id == loc.id then loc else l
  }

  function HasMarkerId(id: Option<int>): Marker -> bool {
    (m: Marker) => Some(m.id) == id
  }

  function MarkerIdIsNot(id: Option<int>): Marker -> bool {
    (m: Marker) => Some(m.id) != id
  }

  function LocationIdIsNot(id: Option<Id>): Location -> bool {
    (l: Location) => l.id != id
  }

  function LinkMarker(tempMarkerId: Option<int>, locationId: Id): Marker -> Marker {
    (m: Marker) => if Some(m.id) == tempMarkerId then m.(locationId := Some(locationId)) else m
  }
}
