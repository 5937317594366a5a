/** The region tree of the map viewer: the fixed table of which region types
    may contain which, the two "deepest region" queries that walk `parentId`
    links downwards, the depth of a region, and the invariant the viewer keeps
    over its committed regions. */
module RegionHierarchy {
  import opened Basics
  import opened PolygonUtils

  /** Region ids are non-empty strings: `Date.now().toString()` or `'root'`.
      The source tests ids and parent ids for truthiness, so an empty id
      would behave like a missing one; the type rules it out. */
  type Id = s: string | |s| > 0 witness "root"

  datatype Region = Region(id: Id, name: string, regionType: string, parentId: Option<Id>, points: seq<Point>)

  /** Nesting rank of the listed region types, outermost first. Unlisted
      types have no allowed parent, so their rank plays no role. */
  function Rank(t: string): nat {
    if t == "World" then 0
    else if t == "Continent" then 1
    else if t == "Country" then 2
    else if t == "Province" then 3
    else if t == "Region" then 4
    else 0
  }

  /** `REGION_HIERARCHY[type] || []`: the types a region of type `t` may be
      placed in. */
  function AllowedParents(t: string): (r: seq<string>)
    ensures forall k :: 0 <= k < |r| ==> Rank(r[k]) < Rank(t)
    ensures |r| > 0 <==> t in ["Continent", "Country", "Province", "Region"]
    ensures "World" in r <==> t == "Continent"
    ensures t != "Region" ==> |r| <= 1
  {
    if t == "World" then []
    else if t == "Continent" then ["World"]
    else if t == "Country" then ["Continent"]
    else if t == "Province" then ["Country"]
    else if t == "Region" then ["Continent", "Country", "Province"]
    else []
  }

  /** The ids used by a list of regions. */
  function Ids(rs: seq<Region>): set<Id> {
    set k | 0 <= k < |rs| :: rs[k].id
  }

  predicate UniqueIds(rs: seq<Region>) {
    forall m, k :: 0 <= m < k < |rs| ==> rs[m].id != rs[k].id
  }

  /** Every region that a region's `parentId` names sits before it: parents
      precede children, so `parentId` links cannot form a cycle. */
  predicate WellOrdered(rs: seq<Region>) {
    forall m, k :: 0 <= m < |rs| && 0 <= k < |rs| && rs[k].parentId == Some(rs[m].id) ==> m < k
  }

  /** Position of the last region carrying `id`, or -1. */
  function LastIndexOf(rs: seq<Region>, id: Id): (r: int)
    ensures -1 <= r < |rs|
    ensures r >= 0 ==> rs[r].id == id
    ensures forall j :: 0 <= j < |rs| && rs[j].id == id ==> j <= r
  {
    if |rs| == 0 then -1
    else if rs[|rs| - 1].id == id then |rs| - 1
    else LastIndexOf(rs[..|rs| - 1], id)
  }

  /** In a well-ordered list a child's last position is after its parent's:
      the measure every downward walk decreases. */
  lemma ChildComesLater(rs: seq<Region>, cur: Region, child: Region)
    requires WellOrdered(rs) && cur in rs && child in rs
    requires child.parentId == Some(cur.id)
    ensures 0 <= LastIndexOf(rs, cur.id) < LastIndexOf(rs, child.id)
  {
    var j :| 0 <= j < |rs| && rs[j] == child;
    var i :| 0 <= i < |rs| && rs[i] == cur;
    assert i <= LastIndexOf(rs, cur.id);
    assert rs[j].parentId == Some(rs[LastIndexOf(rs, cur.id)].id);
  }

  /** With distinct ids the last position of an id is its only position. */
  lemma LastIndexOfUnique(rs: seq<Region>, m: nat)
    requires UniqueIds(rs) && m < |rs|
    ensures LastIndexOf(rs, rs[m].id) == m
  {
  }

  /** A filtered list stays well ordered: `findDeepestContainingRegion` is
      also run on the allowed-parent candidates alone. */
  lemma {:induction false} WellOrderedFilter(rs: seq<Region>, p: Region -> bool)
    requires WellOrdered(rs)
    ensures WellOrdered(Filter(rs, p))
  {
    if rs != [] {
      WellOrderedTail(rs);
      WellOrderedFilter(rs[1..], p);
      if p(rs[0]) {
        WellOrderedPrepend(rs, Filter(rs[1..], p));
        assert Filter(rs, p) == [rs[0]] + Filter(rs[1..], p);
      } else {
        assert Filter(rs, p) == Filter(rs[1..], p);
      }
    }
  }

  /** Dropping the first region keeps parents before children. */
  lemma WellOrderedTail(rs: seq<Region>)
    requires |rs| > 0 && WellOrdered(rs)
    ensures WellOrdered(rs[1..])
  {
    var tail := rs[1..];
    forall m, k | 0 <= m < |tail| && 0 <= k < |tail| && tail[k].parentId == Some(tail[m].id)
      ensures m < k
    {
      assert rs[k + 1].parentId == Some(rs[m + 1].id);
    }
  }

  /** The first region may go back in front of any well-ordered selection
      of the others: none of them is its parent. */
  lemma WellOrderedPrepend(rs: seq<Region>, f: seq<Region>)
    requires |rs| > 0 && WellOrdered(rs) && WellOrdered(f)
    requires forall k :: 0 <= k < |f| ==> f[k] in rs[1..]
    ensures WellOrdered([rs[0]] + f)
  {
    var r := [rs[0]] + f;
    forall m, k | 0 <= m < |r| && 0 <= k < |r| && r[k].parentId == Some(r[m].id)
      ensures m < k
    {
      if k > 0 && m > 0 {
        assert f[k - 1].parentId == Some(f[m - 1].id);
      }
    }
  }

  // ---------------------------------------------------------------------
  // findDeepestContainingRegion

  /** The test `regions.filter` applies to pick the candidates. */
  function Contains(pt: Point): Region -> bool {
    (r: Region) => Inside(pt, r.points)
  }

  /** The test applied to pick the children of `id` that contain the point. */
  function ChildContaining(pt: Point, id: Id): Region -> bool {
    (r: Region) => r.parentId == Some(id) && Inside(pt, r.points)
  }

  /** From `cur`, repeatedly move to the first region in `rs` that is a child
      of the current one and contains the point, until there is none. */
  function Descend(pt: Point, rs: seq<Region>, cur: Region): (r: Region)
    requires WellOrdered(rs) && cur in rs
    ensures r in rs
    ensures Inside(pt, cur.points) ==> Inside(pt, r.points)
    ensures forall k :: 0 <= k < |rs| ==> !(rs[k].parentId == Some(r.id) && Inside(pt, rs[k].points))
    decreases |rs| - LastIndexOf(rs, cur.id)
  {
    var k := FirstIndex(rs, ChildContaining(pt, cur.id));
    if k == |rs| then cur
    else
      ChildComesLater(rs, cur, rs[k]);
      Descend(pt, rs, rs[k])
  }

  /** The region `findDeepestContainingRegion(point, rs)` returns: the
      descent from the first region containing the point, or none when no
      region contains it. */
  function DeepestContaining(pt: Point, rs: seq<Region>): (r: Option<Region>)
    requires WellOrdered(rs)
    ensures r.None? <==> forall k :: 0 <= k < |rs| ==> !Inside(pt, rs[k].points)
    ensures r.Some? ==> r.value in rs && Inside(pt, r.value.points)
    ensures r.Some? ==> forall k :: 0 <= k < |rs| ==> !(rs[k].parentId == Some(r.value.id) && Inside(pt, rs[k].points))
  {
    var k := FirstIndex(rs, Contains(pt));
    if k == |rs| then None else Some(Descend(pt, rs, rs[k]))
  }

  /** `findDeepestContainingRegion`: filter the containing regions, start
      at the first, and step to the first containing child while one exists. */
  method FindDeepestContainingRegion(pt: Point, rs: seq<Region>) returns (res: Option<Region>)
    requires WellOrdered(rs)
    ensures res == DeepestContaining(pt, rs)
  {
    var candidates := Filter(rs, Contains(pt));
    FilterHead(rs, Contains(pt));
    if |candidates| == 0 {
      return None;
    }
    var deepest := candidates[0];
    var changed := true;
    while changed
      invariant deepest in rs
      invariant Descend(pt, rs, deepest) == Descend(pt, rs, candidates[0])
      invariant !changed ==> Descend(pt, rs, deepest) == deepest
      decreases |rs| - LastIndexOf(rs, deepest.id), changed
    {
      changed := false;
      var children := Filter(rs, ChildContaining(pt, deepest.id));
      FilterHead(rs, ChildContaining(pt, deepest.id));
      if |children| > 0 {
        ChildComesLater(rs, deepest, children[0]);
        deepest := children[0];
        changed := true;
      }
    }
    return Some(deepest);
  }

  /** A chain World ⊃ A ⊃ B listed parents first: a point inside B is
      attributed to B, a point inside A only to A, and a point outside A to
      the World. */
  lemma NestedChainResolvesToInnermost(pt: Point, world: Region, a: Region, b: Region)
    requires world.parentId == None && a.parentId == Some(world.id) && b.parentId == Some(a.id)
    requires world.id != a.id && a.id != b.id && world.id != b.id
    requires Inside(pt, world.points)
    ensures WellOrdered([world, a, b])
    ensures Inside(pt, a.points) && Inside(pt, b.points) ==> DeepestContaining(pt, [world, a, b]) == Some(b)
    ensures Inside(pt, a.points) && !Inside(pt, b.points) ==> DeepestContaining(pt, [world, a, b]) == Some(a)
    ensures !Inside(pt, a.points) ==> DeepestContaining(pt, [world, a, b]) == Some(world)
  {
    var rs := [world, a, b];
    assert WellOrdered(rs);
    assert FirstIndex(rs, Contains(pt)) == 0;
    assert rs[1..] == [a, b] && rs[1..][1..] == [b] && [b][1..] == [];
    if Inside(pt, a.points) {
      assert FirstIndex(rs, ChildContaining(pt, world.id)) == 1;
      if Inside(pt, b.points) {
        assert FirstIndex([b], ChildContaining(pt, a.id)) == 0;
        assert FirstIndex([a, b], ChildContaining(pt, a.id)) == 1;
        assert FirstIndex([b], ChildContaining(pt, b.id)) == 1;
        assert FirstIndex([a, b], ChildContaining(pt, b.id)) == 2;
        assert FirstIndex(rs, ChildContaining(pt, b.id)) == 3;
      } else {
        assert FirstIndex([b], ChildContaining(pt, a.id)) == 1;
        assert FirstIndex([a, b], ChildContaining(pt, a.id)) == 2;
        assert FirstIndex(rs, ChildContaining(pt, a.id)) == 3;
      }
    } else {
      assert FirstIndex([b], ChildContaining(pt, world.id)) == 1;
      assert FirstIndex([a, b], ChildContaining(pt, world.id)) == 2;
      assert FirstIndex(rs, ChildContaining(pt, world.id)) == 3;
    }
  }

  // ---------------------------------------------------------------------
  // findDeepestFullyContainingRegion

  /** `childrenMap[id] || []`: the regions whose `parentId` is `id`, in list
      order, as the `forEach`/`push` pass collects them. */
  function ChildrenOf(rs: seq<Region>, id: Id): (r: seq<Region>)
    ensures forall k :: 0 <= k < |r| ==> r[k] in rs && r[k].parentId == Some(id)
    ensures forall k :: 0 <= k < |rs| && rs[k].parentId == Some(id) ==> rs[k] in r
  {
    if |rs| == 0 then []
    else
      var last := rs[|rs| - 1];
      ChildrenOf(rs[..|rs| - 1], id) + (if last.parentId == Some(id) then [last] else [])
  }

  /** The entry of the children map for `id`, or the empty list. */
  function Lookup(cm: map<Id, seq<Region>>, id: Id): seq<Region> {
    if id in cm then cm[id] else []
  }

  /** The `forEach` pass that groups regions under their parent's id. */
  method BuildChildrenMap(rs: seq<Region>) returns (cm: map<Id, seq<Region>>)
    ensures forall id :: Lookup(cm, id) == ChildrenOf(rs, id)
  {
    cm := map[];
    for i := 0 to |rs|
      invariant forall id :: Lookup(cm, id) == ChildrenOf(rs[..i], id)
    {
      assert rs[..i + 1][..i] == rs[..i];
      var region := rs[i];
      if region.parentId.Some? {
        var pid := region.parentId.value;
        cm := cm[pid := Lookup(cm, pid) + [region]];
      }
    }
    assert rs[..|rs|] == rs;
  }

  /** A region of an allowed type whose polygon contains every vertex. */
  function Qualifies(childPoints: seq<Point>, allowed: seq<string>): Region -> bool {
    (r: Region) => r.regionType in allowed && PolygonFullyInsidePolygon(childPoints, r.points)
  }

  /** `recurse`: move to the first qualifying child until there is none. */
  function DescendFully(childPoints: seq<Point>, rs: seq<Region>, allowed: seq<string>, cur: Region): (r: Region)
    requires WellOrdered(rs) && cur in rs
    ensures r in rs
    ensures Qualifies(childPoints, allowed)(cur) ==> Qualifies(childPoints, allowed)(r)
    ensures forall k :: 0 <= k < |rs| && rs[k].parentId == Some(r.id) ==> !Qualifies(childPoints, allowed)(rs[k])
    decreases |rs| - LastIndexOf(rs, cur.id)
  {
    var children := ChildrenOf(rs, cur.id);
    var k := FirstIndex(children, Qualifies(childPoints, allowed));
    if k == |children| then
      assert forall j :: 0 <= j < |rs| && rs[j].parentId == Some(cur.id) ==>
        !Qualifies(childPoints, allowed)(rs[j]) by {
        forall j | 0 <= j < |rs| && rs[j].parentId == Some(cur.id)
          ensures !Qualifies(childPoints, allowed)(rs[j])
        {
          var m :| 0 <= m < |children| && children[m] == rs[j];
        }
      }
      cur
    else
      ChildComesLater(rs, cur, children[k]);
      DescendFully(childPoints, rs, allowed, children[k])
  }

  /** The region `findDeepestFullyContainingRegion(childPoints, rs, allowed)`
      returns. */
  function DeepestFullyContaining(childPoints: seq<Point>, rs: seq<Region>, allowed: seq<string>): (r: Option<Region>)
    requires WellOrdered(rs)
    ensures r.None? <==> forall k :: 0 <= k < |rs| ==> !Qualifies(childPoints, allowed)(rs[k])
    ensures r.Some? ==> r.value in rs && r.value.regionType in allowed
    ensures r.Some? ==> PolygonFullyInsidePolygon(childPoints, r.value.points)
    ensures r.Some? ==> forall k :: 0 <= k < |rs| && rs[k].parentId == Some(r.value.id) ==>
              !Qualifies(childPoints, allowed)(rs[k])
  {
    var k := FirstIndex(rs, Qualifies(childPoints, allowed));
    if k == |rs| then None else Some(DescendFully(childPoints, rs, allowed, rs[k]))
  }

  /** A Region-typed outline lying inside Country B, which lies in
      Continent A, resolves to B rather than A. */
  lemma NestedChainFullyResolvesToInnermost(pts: seq<Point>, world: Region, a: Region, b: Region)
    requires world.regionType == "World" && a.regionType == "Continent" && b.regionType == "Country"
    requires world.parentId == None && a.parentId == Some(world.id) && b.parentId == Some(a.id)
    requires world.id != a.id && a.id != b.id && world.id != b.id
    requires PolygonFullyInsidePolygon(pts, a.points) && PolygonFullyInsidePolygon(pts, b.points)
    ensures WellOrdered([world, a, b])
    ensures DeepestFullyContaining(pts, [world, a, b], AllowedParents("Region")) == Some(b)
  {
    var rs := [world, a, b];
    var allowed := AllowedParents("Region");
    assert WellOrdered(rs);
    assert rs[1..] == [a, b] && rs[1..][1..] == [b] && [b][1..] == [];
    assert FirstIndex([a, b], Qualifies(pts, allowed)) == 0;
    assert FirstIndex(rs, Qualifies(pts, allowed)) == 1;
    DescendFullyLeaf(pts, rs, allowed, b);
    DescendFullyOnlyChild(pts, rs, allowed, a, b);
  }

  /** The walk stops at a region no region names as its parent. */
  lemma DescendFullyLeaf(childPoints: seq<Point>, rs: seq<Region>, allowed: seq<string>, cur: Region)
    requires WellOrdered(rs) && cur in rs
    requires forall k :: 0 <= k < |rs| ==> rs[k].parentId != Some(cur.id)
    ensures DescendFully(childPoints, rs, allowed, cur) == cur
  {
  }

  /** The walk moves into the only child of a region when that child
      qualifies. */
  lemma DescendFullyOnlyChild(childPoints: seq<Point>, rs: seq<Region>, allowed: seq<string>, cur: Region, child: Region)
    requires WellOrdered(rs) && cur in rs && child in rs && child.parentId == Some(cur.id)
    requires forall k :: 0 <= k < |rs| && rs[k].parentId == Some(cur.id) ==> rs[k] == child
    requires Qualifies(childPoints, allowed)(child)
    ensures DescendFully(childPoints, rs, allowed, cur) == DescendFully(childPoints, rs, allowed, child)
  {
    var children := ChildrenOf(rs, cur.id);
    assert child in children;
    assert children[0] in rs;
    assert FirstIndex(children, Qualifies(childPoints, allowed)) == 0;
  }

  /** The inner `recurse` of `findDeepestFullyContainingRegion`. */
  method Recurse(childPoints: seq<Point>, rs: seq<Region>, allowed: seq<string>, cm: map<Id, seq<Region>>, cur: Region)
    returns (res: Region)
    requires WellOrdered(rs) && cur in rs
    requires forall id :: Lookup(cm, id) == ChildrenOf(rs, id)
    ensures res == DescendFully(childPoints, rs, allowed, cur)
    decreases |rs| - LastIndexOf(rs, cur.id)
  {
    var children := Lookup(cm, cur.id);
    for i := 0 to |children|
      invariant forall m :: 0 <= m < i ==> !Qualifies(childPoints, allowed)(children[m])
    {
      var child := children[i];
      if child.regionType in allowed && PolygonFullyInsidePolygon(childPoints, child.points) {
        assert FirstIndex(children, Qualifies(childPoints, allowed)) == i;
        ChildComesLater(rs, cur, child);
        res := Recurse(childPoints, rs, allowed, cm, child);
        return;
      }
    }
    assert FirstIndex(children, Qualifies(childPoints, allowed)) == |children|;
    return cur;
  }

  /** `findDeepestFullyContainingRegion`: build the children map, take the
      first qualifying region and descend from it. */
  method FindDeepestFullyContainingRegion(childPoints: seq<Point>, rs: seq<Region>, allowed: seq<string>)
    returns (res: Option<Region>)
    requires WellOrdered(rs)
    ensures res == DeepestFullyContaining(childPoints, rs, allowed)
  {
    var cm := BuildChildrenMap(rs);
    var candidates := Filter(rs, Qualifies(childPoints, allowed));
    FilterHead(rs, Qualifies(childPoints, allowed));
    if |candidates| == 0 {
      return None;
    }
    var r := Recurse(childPoints, rs, allowed, cm, candidates[0]);
    return Some(r);
  }

  // ---------------------------------------------------------------------
  // getDepth

  /** `Object.fromEntries(rs.map(r => [r.id, r]))`: the last region with a
      given id wins. */
  function RegionMap(rs: seq<Region>): (r: map<Id, Region>)
    ensures forall k :: 0 <= k < |rs| ==> rs[k].id in r
    ensures forall id :: id in r ==> LastIndexOf(rs, id) >= 0 && r[id] == rs[LastIndexOf(rs, id)]
  {
    if |rs| == 0 then map[]
    else
      var last := rs[|rs| - 1];
      DropLastPositions(rs);
      RegionMap(rs[..|rs| - 1])[last.id := last]
  }

  /** Dropping the last region keeps every earlier position, and the last
      position of any other id. */
  lemma DropLastPositions(rs: seq<Region>)
    requires |rs| > 0
    ensures forall k :: 0 <= k < |rs| - 1 ==> rs[..|rs| - 1][k] == rs[k]
    ensures forall id :: id != rs[|rs| - 1].id ==> LastIndexOf(rs, id) == LastIndexOf(rs[..|rs| - 1], id)
  {
  }

  /** The measure of a parent link: 0 for none, otherwise two more than the
      last position of the parent id. */
  function LinkRank(rs: seq<Region>, pid: Option<Id>): nat {
    match pid
    case None => 0
    case Some(p) => LastIndexOf(rs, p) + 2
  }

  /** The number of `parentId` links followed from a region whose parent is
      `pid`: every link counts, including a last one naming a missing
      region. */
  function AncestorCount(rs: seq<Region>, pid: Option<Id>): nat
    requires WellOrdered(rs)
    decreases LinkRank(rs, pid)
  {
    match pid
    case None => 0
    case Some(p) =>
      var i := LastIndexOf(rs, p);
      if i < 0 then 1
      else
        assert LinkRank(rs, rs[i].parentId) < LinkRank(rs, pid) by {
          if rs[i].parentId.Some? && LastIndexOf(rs, rs[i].parentId.value) >= 0 {
            assert rs[i].parentId == Some(rs[LastIndexOf(rs, rs[i].parentId.value)].id);
          }
        }
        1 + AncestorCount(rs, rs[i].parentId)
  }

  /** `getDepth(region, regionMap)`: follow parent links through the map
      until a region without parent or a missing parent is reached. */
  method GetDepth(region: Region, regionMap: map<Id, Region>, ghost rs: seq<Region>) returns (depth: nat)
    requires WellOrdered(rs) && regionMap == RegionMap(rs)
    ensures depth == AncestorCount(rs, region.parentId)
  {
    depth := 0;
    var current: Option<Region> := Some(region);
    while current.Some? && current.value.parentId.Some?
      invariant current.Some? ==> depth + AncestorCount(rs, current.value.parentId) == AncestorCount(rs, region.parentId)
      invariant current.None? ==> depth == AncestorCount(rs, region.parentId)
      decreases if current.Some? then LinkRank(rs, current.value.parentId) else 0
    {
      var pid := current.value.parentId.value;
      ParentLinkStep(rs, pid);
      if pid in regionMap {
        current := Some(regionMap[pid]);
      } else {
        current := None;
      }
      depth := depth + 1;
    }
  }

  /** One step of the walk: a parent id found in the map costs one link and
      continues from that region's own parent, which ranks lower; a parent id
      missing from the map is the last link. */
  lemma ParentLinkStep(rs: seq<Region>, pid: Id)
    requires WellOrdered(rs)
    ensures pid in RegionMap(rs) ==>
      && LinkRank(rs, RegionMap(rs)[pid].parentId) < LinkRank(rs, Some(pid))
      && AncestorCount(rs, Some(pid)) == 1 + AncestorCount(rs, RegionMap(rs)[pid].parentId)
    ensures pid !in RegionMap(rs) ==> AncestorCount(rs, Some(pid)) == 1
  {
    var i := LastIndexOf(rs, pid);
    if i >= 0 {
      assert rs[i].id in RegionMap(rs);
      assert RegionMap(rs)[pid] == rs[i];
    }
  }

  /** With distinct ids a child is exactly one level below its parent. */
  lemma DepthOfChild(rs: seq<Region>, k: nat, m: nat)
    requires WellOrdered(rs) && UniqueIds(rs) && k < |rs| && m < |rs|
    requires rs[k].parentId == Some(rs[m].id)
    ensures AncestorCount(rs, rs[k].parentId) == 1 + AncestorCount(rs, rs[m].parentId)
  {
    LastIndexOfUnique(rs, m);
  }

  // ---------------------------------------------------------------------
  // The committed hierarchy

  /** What finishing a drawing establishes about a committed region and the
      parent it was drawn in. */
  predicate Accepted(r: Region, parent: Region) {
    && |r.points| >= 3
    && !SelfIntersects(r.points)
    && !ClosingEdgeIntersects(r.points)
    && parent.regionType in AllowedParents(r.regionType)
    && PolygonFullyInsidePolygon(r.points, parent.points)
  }

  /** The list starts with the seeded world region, and every later region
      has a parent. */
  predicate Rooted(rs: seq<Region>) {
    && (|rs| > 0 ==> rs[0] == Root())
    && (forall k :: 0 < k < |rs| ==> rs[k].parentId.Some?)
  }

  /** The shape the viewer's region list keeps: distinct ids, parents listed
      before their children, the seeded world region first and the only one
      without a parent, and every other region after a parent it was
      accepted against. */
  ghost predicate Hierarchy(rs: seq<Region>) {
    && WellOrdered(rs)
    && UniqueIds(rs)
    && Rooted(rs)
    && (forall k :: 0 <= k < |rs| && rs[k].parentId.Some? ==>
          exists m :: 0 <= m < k && rs[k].parentId == Some(rs[m].id) && Accepted(rs[k], rs[m]))
  }

  /** The world region seeded when a map image is first loaded. */
  function Root(): Region {
    Region("root", "World", "World", None,
           [Point(0.0, 0.0), Point(100.0, 0.0), Point(100.0, 100.0), Point(0.0, 100.0)])
  }

  lemma RootIsHierarchy()
    ensures Hierarchy([Root()])
  {
  }

  /** Appending a region whose id is fresh and whose parent is listed keeps
      parents before children. */
  lemma AppendWellOrdered(rs: seq<Region>, d: Region, m: nat)
    requires Hierarchy(rs) && m < |rs|
    requires d.id !in Ids(rs) && d.parentId == Some(rs[m].id)
    ensures WellOrdered(rs + [d])
  {
    var rs' := rs + [d];
    ParentsListed(rs);
    forall j, k | 0 <= j < |rs'| && 0 <= k < |rs'| && rs'[k].parentId == Some(rs'[j].id)
      ensures j < k
    {
      if k < |rs| {
        assert rs'[k] == rs[k];
        if j < |rs| {
          assert rs'[j] == rs[j];
        }
      }
    }
  }

  /** In a hierarchy every parent a region names is listed. */
  lemma ParentsListed(rs: seq<Region>)
    requires Hierarchy(rs)
    ensures forall k :: 0 <= k < |rs| && rs[k].parentId.Some? ==> rs[k].parentId.value in Ids(rs)
  {
    forall k | 0 <= k < |rs| && rs[k].parentId.Some?
      ensures rs[k].parentId.value in Ids(rs)
    {
      var m :| 0 <= m < k && rs[k].parentId == Some(rs[m].id) && Accepted(rs[k], rs[m]);
    }
  }

  /** Appending a region with a fresh id keeps the ids distinct. */
  lemma AppendUniqueIds(rs: seq<Region>, d: Region)
    requires UniqueIds(rs) && d.id !in Ids(rs)
    ensures UniqueIds(rs + [d])
  {
    var rs' := rs + [d];
    forall j, k | 0 <= j < k < |rs'|
      ensures rs'[j].id != rs'[k].id
    {
      assert rs'[j] == rs[j];
      if k == |rs| {
        assert rs[j].id in Ids(rs);
      } else {
        assert rs'[k] == rs[k];
      }
    }
  }

  /** Appending a region with a fresh id, accepted against an existing
      parent, keeps the hierarchy. */
  lemma HierarchyAppend(rs: seq<Region>, d: Region, m: nat)
    requires Hierarchy(rs) && m < |rs|
    requires d.id !in Ids(rs) && d.parentId == Some(rs[m].id) && Accepted(d, rs[m])
    ensures Hierarchy(rs + [d])
  {
    AppendWellOrdered(rs, d, m);
    AppendUniqueIds(rs, d);
    AppendKeepsRooted(rs, d);
    AppendKeepsParentsAccepted(rs, d, m);
  }

  /** Appending a region with a parent to a non-empty rooted list keeps it rooted. */
  lemma AppendKeepsRooted(rs: seq<Region>, d: Region)
    requires Rooted(rs) && |rs| > 0 && d.parentId.Some?
    ensures Rooted(rs + [d])
  {
    forall k | 0 < k < |rs + [d]|
      ensures (rs + [d])[k].parentId.Some?
    {
      if k < |rs| {
        assert (rs + [d])[k] == rs[k];
      }
    }
  }

  /** The world region is the only one of its kind: in a hierarchy every
      region of type World sits at position 0, and the region there is the
      parentless world. No other region can be a World, because a World has
      no allowed parent type. */
  lemma OnlyRootIsWorld(rs: seq<Region>, k: nat)
    requires Hierarchy(rs) && k < |rs| && rs[k].regionType == "World"
    ensures k == 0 && rs[k] == Root() && rs[k].parentId.None?
  {
  }

  /** Appending a region whose parent is listed and accepts it keeps every
      region's parent listed before it and accepting it. */
  lemma AppendKeepsParentsAccepted(rs: seq<Region>, d: Region, m: nat)
    requires m < |rs| && d.parentId == Some(rs[m].id) && Accepted(d, rs[m])
    requires forall k :: 0 <= k < |rs| && rs[k].parentId.Some? ==>
      exists p :: 0 <= p < k && rs[k].parentId == Some(rs[p].id) && Accepted(rs[k], rs[p])
    ensures forall k :: 0 <= k < |rs + [d]| && (rs + [d])[k].parentId.Some? ==>
      exists p :: 0 <= p < k && (rs + [d])[k].parentId == Some((rs + [d])[p].id) && Accepted((rs + [d])[k], (rs + [d])[p])
  {
    var rs' := rs + [d];
    forall k | 0 <= k < |rs'| && rs'[k].parentId.Some?
      ensures exists p :: 0 <= p < k && rs'[k].parentId == Some(rs'[p].id) && Accepted(rs'[k], rs'[p])
    {
      if k < |rs| {
        var p :| 0 <= p < k && rs[k].parentId == Some(rs[p].id) && Accepted(rs[k], rs[p]);
        assert rs'[p] == rs[p] && rs'[k] == rs[k];
      } else {
        assert rs'[m] == rs[m] && rs'[k] == d;
      }
    }
  }

  /** Each level down the committed hierarchy raises the rank of the type,
      so a region's depth never exceeds its type's rank: a committed tree is
      at most four levels deep below the World. */
  lemma {:induction false} DepthBoundedByRank(rs: seq<Region>, k: nat)
    requires Hierarchy(rs) && k < |rs|
    ensures AncestorCount(rs, rs[k].parentId) <= Rank(rs[k].regionType)
    decreases k
  {
    if rs[k].parentId.Some? {
      var m :| 0 <= m < k && rs[k].parentId == Some(rs[m].id) && Accepted(rs[k], rs[m]);
      DepthBoundedByRank(rs, m);
      DepthOfChild(rs, k, m);
      AcceptedParentRanksLower(rs[k], rs[m]);
    }
  }

  /** An accepted parent ranks strictly below its child. */
  lemma AcceptedParentRanksLower(r: Region, parent: Region)
    requires Accepted(r, parent)
    ensures Rank(parent.regionType) < Rank(r.regionType)
  {
    var allowed := AllowedParents(r.regionType);
    var i :| 0 <= i < |allowed| && allowed[i] == parent.regionType;
  }

  /** Appending a region adds exactly its id. */
  lemma IdsAppend(rs: seq<Region>, d: Region)
    ensures Ids(rs + [d]) == Ids(rs) + {d.id}
  {
    var rs' := rs + [d];
    forall id | id in Ids(rs') ensures id in Ids(rs) + {d.id} {
      var k :| 0 <= k < |rs'| && rs'[k].id == id;
      if k < |rs| { assert rs[k] == rs'[k]; }
    }
    forall id | id in Ids(rs) ensures id in Ids(rs') {
      var k :| 0 <= k < |rs| && rs[k].id == id;
      assert rs'[k] == rs[k];
    }
    assert rs'[|rs|] == d;
  }

  /** The region a parent id names, as `regions.find(r => r.id === id)`
      returns it. */
  function RegionById(rs: seq<Region>, id: Id): (r: Option<Region>)
    ensures r.None? <==> id !in Ids(rs)
    ensures r.Some? ==> r.value in rs && r.value.id == id
  {
    var k := FirstIndex(rs, (x: Region) => x.id == id);
    if k == |rs| then None else Some(rs[k])
  }

  /** With distinct ids the search finds the one region carrying the id. */
  lemma RegionByIdUnique(rs: seq<Region>, m: nat)
    requires UniqueIds(rs) && m < |rs|
    ensures RegionById(rs, rs[m].id) == Some(rs[m])
  {
    var k := FirstIndex(rs, (x: Region) => x.id == rs[m].id);
    assert k <= m;
  }
}
