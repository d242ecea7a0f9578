/** The route editor: a route is picked, one of its parts is picked, two points on that
    part are picked, and the stretch between them is cut out. The route is then replaced
    by its connected sections.

    The editor is a class whose fields are the session state: the route layer, the layer
    of exploded parts, the cut-point layer, the selected part and route, the four event
    handles (registered or not), the click count and the cut's start point. */
module RouteEdit {

  import opened Optional
  import opened Geometry
  import opened Grouping

  /** A graphic of the route layer: its geometry and whether it is drawn. */
  datatype RouteGraphic = RouteGraphic(geometry: Polyline, visible: bool)

  /** A graphic of the exploded-parts layer: one part of the selected route, with the
      `pathIndex` attribute saying which part of that route it is. */
  datatype PartGraphic = PartGraphic(geometry: Polyline, pathIndex: nat)

  // ---------------------------------------------------------------------------------
  // Specifications of the array logic

  /** The paths with the one at `idx` left out; all of them when `idx` is not an index. */
  function RemovedAt(ps: seq<Path>, idx: int): (r: seq<Path>)
    ensures 0 <= idx < |ps| ==>
      && |r| == |ps| - 1
      && (forall j :: 0 <= j < idx ==> r[j] == ps[j])
      && (forall j :: idx < j < |ps| ==> r[j - 1] == ps[j])
    ensures !(0 <= idx < |ps|) ==> r == ps
  {
    if 0 <= idx < |ps| then ps[..idx] + ps[idx + 1..] else ps
  }

  /** The edited route: the original parts except the cut one, in order, then every part
      left after the cut, in order. */
  function Spliced(original: Polyline, cutPathIndex: int, sliced: Polyline): Polyline
  {
    Polyline(RemovedAt(original.paths, cutPathIndex) + sliced.paths)
  }

  /** What is left of `pl` once the stretch between `start` and `end` along it is taken
      out: the library's difference of `pl` and the slice between the two points. */
  function CutPolyline(engine: Engine, start: Point, end: Point, pl: Polyline): Polyline
  {
    engine.difference(pl, Polyline([engine.lineSlice(start, end, pl)]))
  }

  /** The union of each group, in order. */
  function Unions(gs: seq<seq<Polyline>>): seq<Polyline>
  {
    seq(|gs|, k requires 0 <= k < |gs| => Union(gs[k]))
  }

  /** The connected sections of a polyline: its parts grouped by touching, each group
      unioned into one polyline. */
  function Sections(touches: (Polyline, Polyline) -> bool, pl: Polyline): seq<Polyline>
  {
    Unions(Dissolve(Exploded(pl), touches))
  }

  /** The exploded-parts layer for a list of parts: the k-th graphic carries `pathIndex` k. */
  function PartGraphics(polys: seq<Polyline>): seq<PartGraphic>
  {
    seq(|polys|, k requires 0 <= k < |polys| => PartGraphic(polys[k], k))
  }

  /** Route graphics for the given geometries, each drawn. */
  function DrawnGraphics(sections: seq<Polyline>): seq<RouteGraphic>
  {
    seq(|sections|, k requires 0 <= k < |sections| => RouteGraphic(sections[k], true))
  }

  /** The same route graphics, all drawn. */
  function AllVisible(rs: seq<RouteGraphic>): seq<RouteGraphic>
  {
    seq(|rs|, k requires 0 <= k < |rs| => rs[k].(visible := true))
  }

  // ---------------------------------------------------------------------------------
  // Properties of the specifications

  /** For a part index in range, the edited route has one part fewer than the original
      plus the parts left after the cut; the parts before the index keep their places,
      the ones after it move down by one, and the parts left after the cut come last. */
  lemma SplicedParts(original: Polyline, cutPathIndex: nat, sliced: Polyline)
    requires cutPathIndex < |original.paths|
    ensures var r := Spliced(original, cutPathIndex, sliced).paths;
      var n, m := |original.paths|, |sliced.paths|;
      && |r| == n - 1 + m
      && (forall j :: 0 <= j < cutPathIndex ==> r[j] == original.paths[j])
      && (forall j :: cutPathIndex < j < n ==> r[j - 1] == original.paths[j])
      && (forall k :: 0 <= k < m ==> r[n - 1 + k] == sliced.paths[k])
  {
  }

  /** Splicing back the very part that was taken out loses no part and adds none. */
  lemma SpliceBackRestores(original: Polyline, idx: nat)
    requires idx < |original.paths|
    ensures multiset(Spliced(original, idx, Polyline([original.paths[idx]])).paths) == multiset(original.paths)
  {
    var ps := original.paths;
    assert ps == ps[..idx] + [ps[idx]] + ps[idx + 1..];
  }

  /** The parts of the unions of some groups are the parts of all the groups' members. */
  lemma {:induction false} PathsOfUnions(gs: seq<seq<Polyline>>)
    ensures PathsOf(Unions(gs)) == PathsOf(Flatten(gs))
  {
    if gs != [] {
      assert Unions(gs)[1..] == Unions(gs[1..]);
      PathsOfUnions(gs[1..]);
      PathsOfAppend(gs[0], Flatten(gs[1..]));
    }
  }

  lemma {:induction false} MemberInFlatten<T>(gs: seq<seq<T>>, k: nat, x: T)
    requires k < |gs| && x in gs[k]
    ensures x in Flatten(gs)
  {
    if k > 0 {
      MemberInFlatten(gs[1..], k - 1, x);
    }
  }

  /** The sections of a polyline hold exactly its parts, each once, no section is empty,
      and there are no more sections than parts. */
  lemma SectionsPartition(touches: (Polyline, Polyline) -> bool, pl: Polyline)
    ensures multiset(PathsOf(Sections(touches, pl))) == multiset(pl.paths)
    ensures |Sections(touches, pl)| <= |pl.paths|
    ensures forall k :: 0 <= k < |Sections(touches, pl)| ==> |Sections(touches, pl)[k].paths| > 0
  {
    var parts := Exploded(pl);
    var gs := Dissolve(parts, touches);
    DissolvePartition(parts, touches);
    DissolveShape(parts, touches);
    PathsOfUnions(gs);
    PathsOfPermutation(Flatten(gs), parts);
    UnionOfExploded(pl);
    forall k | 0 <= k < |gs| ensures |Union(gs[k]).paths| > 0 {
      var x: Polyline := gs[k][0];
      MemberInFlatten(gs, k, x);
      assert x in multiset(parts);
      assert gs[k][0].paths == x.paths;
    }
  }

  /** `section` is the union of a linked group of `pl`'s parts: parts that touch each
      other in a chain. */
  ghost predicate LinkedSection(touches: (Polyline, Polyline) -> bool, pl: Polyline, section: Polyline)
  {
    exists g :: Linked(g, touches) && (forall q :: q in g ==> q in Exploded(pl)) && section == Union(g)
  }

  /** Each section is the union of a linked group of the polyline's parts. */
  lemma SectionsConnected(touches: (Polyline, Polyline) -> bool, pl: Polyline)
    ensures forall k :: 0 <= k < |Sections(touches, pl)| ==> LinkedSection(touches, pl, Sections(touches, pl)[k])
  {
    var parts := Exploded(pl);
    var gs := Dissolve(parts, touches);
    DissolveLinked(parts, touches);
    DissolvePartition(parts, touches);
    forall k | 0 <= k < |gs| ensures LinkedSection(touches, pl, Sections(touches, pl)[k]) {
      var g := gs[k];
      assert g in gs;
      forall q | q in g ensures q in parts {
        MemberInFlatten(gs, k, q);
        assert q in multiset(parts);
      }
      assert Sections(touches, pl)[k] == Union(g);
    }
  }

  // ---------------------------------------------------------------------------------
  // The editor

  class RouteEditor {

    /** The geometry library. */
    const engine: Engine

    /** The route layer. */
    var routes: seq<RouteGraphic>
    /** The layer of the selected route's parts, one graphic per part. */
    var explodedParts: seq<PartGraphic>
    /** The cut-point layer: the snapped start point once it is picked. */
    var cutPoints: seq<Point>

    var selectedGraphic: Option<PartGraphic>
    /** The selected route, as its index in the route layer. */
    var selectedOriginalGraphic: Option<nat>

    var routeFeatureClickHandle: bool
    var mapClickHandle: bool
    var mapMouseSnapHandle: bool
    var explodedPolylineClickHandle: bool

    var mapClickCount: nat
    var cutLineStartPoint: Option<Point>

    /** Nothing selected, nothing picked, every route drawn. */
    ghost predicate Unselected()
      reads this
    {
      && mapClickCount == 0 && cutLineStartPoint == None
      && selectedGraphic == None && selectedOriginalGraphic == None
      && cutPoints == [] && explodedParts == []
      && !mapClickHandle && !mapMouseSnapHandle && !explodedPolylineClickHandle
      && forall j :: 0 <= j < |routes| ==> routes[j].visible
    }

    /** Route `o` is selected: it is hidden, every other route is drawn, and the parts
        layer shows its parts. */
    ghost predicate RouteSelected(o: nat)
      reads this
    {
      && selectedOriginalGraphic == Some(o) && o < |routes|
      && explodedParts == PartGraphics(Exploded(routes[o].geometry))
      && forall j :: 0 <= j < |routes| ==> (routes[j].visible <==> j != o)
    }

    /** Not listening to anything. */
    ghost predicate Disabled()
      reads this
    {
      Unselected() && !routeFeatureClickHandle
    }

    /** Waiting for a click on a route. */
    ghost predicate SelectingRoute()
      reads this
    {
      Unselected() && routeFeatureClickHandle
    }

    /** Waiting for a click on one part of the selected route. */
    ghost predicate SelectingPart()
      reads this
    {
      && explodedPolylineClickHandle
      && !routeFeatureClickHandle && !mapClickHandle && !mapMouseSnapHandle
      && mapClickCount == 0 && cutLineStartPoint == None && selectedGraphic == None
      && cutPoints == []
      && selectedOriginalGraphic.Some? && RouteSelected(selectedOriginalGraphic.value)
    }

    /** A part is selected and the cut's start point picked; waiting for the end point. */
    ghost predicate PickingSecondPoint()
      reads this
    {
      && mapClickHandle && mapMouseSnapHandle
      && !routeFeatureClickHandle && !explodedPolylineClickHandle
      && mapClickCount == 1
      && selectedOriginalGraphic.Some? && RouteSelected(selectedOriginalGraphic.value)
      && selectedGraphic.Some? && selectedGraphic.value.pathIndex < |explodedParts|
      && explodedParts[selectedGraphic.value.pathIndex] == selectedGraphic.value
      && |cutPoints| == 1 && cutLineStartPoint == Some(cutPoints[0])
    }

    /** The editor is always in exactly one of its four phases. */
    ghost predicate Valid()
      reads this
    {
      Disabled() || SelectingRoute() || SelectingPart() || PickingSecondPoint()
    }

    /** The phases are told apart by which handlers are registered. */
    lemma OnePhase()
      requires Valid()
      ensures Disabled() <==> !routeFeatureClickHandle && !explodedPolylineClickHandle && !mapClickHandle
      ensures SelectingRoute() <==> routeFeatureClickHandle
      ensures SelectingPart() <==> explodedPolylineClickHandle
      ensures PickingSecondPoint() <==> mapClickHandle
    {
    }

    /** The part picked for cutting is the part of the selected route that the cut will
        replace: its `pathIndex` names that part, and it holds exactly that path. */
    lemma SelectedPartIsPath()
      requires PickingSecondPoint()
      ensures var g := selectedGraphic.value;
        var route := routes[selectedOriginalGraphic.value].geometry;
        g.pathIndex < |route.paths| && g.geometry == Polyline([route.paths[g.pathIndex]])
    {
    }

    /** The edited route the second click would produce. */
    ghost function EditedPolyline(end: Point): Polyline
      reads this`selectedGraphic, this`cutPoints, this`selectedOriginalGraphic, this`routes
      requires selectedGraphic.Some? && |cutPoints| > 0
      requires selectedOriginalGraphic.Some? && selectedOriginalGraphic.value < |routes|
    {
      var part := selectedGraphic.value;
      Spliced(routes[selectedOriginalGraphic.value].geometry, part.pathIndex,
        CutPolyline(engine, cutPoints[0], end, part.geometry))
    }

    constructor(engine: Engine, initial: seq<Polyline>)
      ensures this.engine == engine && Disabled()
      ensures routes == DrawnGraphics(initial)
    {
      this.engine := engine;
      routes := DrawnGraphics(initial);
      explodedParts := [];
      cutPoints := [];
      selectedGraphic := None;
      selectedOriginalGraphic := None;
      routeFeatureClickHandle := false;
      mapClickHandle := false;
      mapMouseSnapHandle := false;
      explodedPolylineClickHandle := false;
      mapClickCount := 0;
      cutLineStartPoint := None;
    }

    // -------------------------------------------------------------------------------
    // Handlers

    method AddMouseClickHandler()
      modifies this`mapClickHandle
      ensures mapClickHandle
    {
      mapClickHandle := true;
    }

    method RemoveMouseClickHandler()
      modifies this`mapClickHandle
      ensures !mapClickHandle
    {
      if mapClickHandle {
        mapClickHandle := false;
      }
    }

    method AddMapMouseSnapHandler()
      modifies this`mapMouseSnapHandle
      ensures mapMouseSnapHandle
    {
      mapMouseSnapHandle := true;
    }

    method RemoveMapMouseSnapHandler()
      modifies this`mapMouseSnapHandle
      ensures !mapMouseSnapHandle
    {
      if mapMouseSnapHandle {
        mapMouseSnapHandle := false;
      }
    }

    method AddRouteFeatureClickHandler()
      modifies this`routeFeatureClickHandle
      ensures routeFeatureClickHandle
    {
      routeFeatureClickHandle := true;
    }

    method RemoveRouteFeatureClickHandler()
      modifies this`routeFeatureClickHandle
      ensures !routeFeatureClickHandle
    {
      if routeFeatureClickHandle {
        routeFeatureClickHandle := false;
      }
    }

    method AddExplodedPolylineClickHandler()
      modifies this`explodedPolylineClickHandle
      ensures explodedPolylineClickHandle
    {
      explodedPolylineClickHandle := true;
    }

    method RemoveExplodedPolylineClickHandler()
      modifies this`explodedPolylineClickHandle
      ensures !explodedPolylineClickHandle
    {
      if explodedPolylineClickHandle {
        explodedPolylineClickHandle := false;
      }
    }

    // -------------------------------------------------------------------------------
    // Session

    /** Starts listening for a click on a route. */
    method Enable()
      modifies this`routeFeatureClickHandle
      ensures routeFeatureClickHandle
      ensures old(Disabled()) ==> SelectingRoute()
    {
      AddRouteFeatureClickHandler();
    }

    /** Drops every handler, the selections, the click count, the start point and both
        point and part layers, and draws every route again. */
    method Clear()
      modifies this
      ensures Disabled()
      ensures routes == AllVisible(old(routes))
    {
      RemoveMouseClickHandler();
      RemoveMapMouseSnapHandler();
      RemoveExplodedPolylineClickHandler();
      RemoveRouteFeatureClickHandler();

      selectedGraphic := None;
      selectedOriginalGraphic := None;
      ShowAllRoutes();
      mapClickCount := 0;
      cutLineStartPoint := None;

      cutPoints := [];
      explodedParts := [];
    }

    /** Makes every route graphic visible again, in place. */
    method ShowAllRoutes()
      modifies this`routes
      ensures routes == AllVisible(old(routes))
    {
      var i := 0;
      while i < |routes|
        invariant 0 <= i <= |routes| == |old(routes)|
        invariant forall j :: 0 <= j < i ==> routes[j] == old(routes)[j].(visible := true)
        invariant forall j :: i <= j < |routes| ==> routes[j] == old(routes)[j]
      {
        routes := routes[i := routes[i].(visible := true)];
        i := i + 1;
      }
    }

    /** A click on route `i`: hide it, show its parts, and wait for a click on one. */
    method OnRouteFeatureClicked(i: nat)
      requires Valid() && routeFeatureClickHandle && i < |routes|
      modifies this
      ensures SelectingPart() && selectedOriginalGraphic == Some(i)
      ensures routes == old(routes)[i := old(routes)[i].(visible := false)]
      ensures explodedParts == PartGraphics(Exploded(routes[i].geometry))
    {
      RemoveRouteFeatureClickHandler();

      selectedOriginalGraphic := Some(i);
      routes := routes[i := routes[i].(visible := false)];

      explodedParts := [];
      var pathPolys := ExplodePolyline(routes[i].geometry);
      var k := 0;
      while k < |pathPolys|
        modifies this`explodedParts
        invariant 0 <= k <= |pathPolys|
        invariant explodedParts == PartGraphics(pathPolys[..k])
      {
        explodedParts := explodedParts + [PartGraphic(pathPolys[k], k)];
        k := k + 1;
      }
      assert pathPolys[..k] == pathPolys;
      AddExplodedPolylineClickHandler();
    }

    /** A click on part `k` at `mapPoint`: select the part, listen to the map, and take
        the click as the first cut point. */
    method OnExplodedPolylineClicked(k: nat, mapPoint: Point)
      requires Valid() && explodedPolylineClickHandle && k < |explodedParts|
      modifies this
      ensures PickingSecondPoint()
      ensures selectedGraphic == Some(old(explodedParts[k]))
      ensures cutPoints == [engine.nearestCoordinate(old(explodedParts[k]).geometry, mapPoint)]
      ensures routes == old(routes) && explodedParts == old(explodedParts)
      ensures selectedOriginalGraphic == old(selectedOriginalGraphic)
    {
      selectedGraphic := Some(explodedParts[k]);
      RemoveExplodedPolylineClickHandler();
      AddMapMouseSnapHandler();
      AddMouseClickHandler();

      SnapAndCut(mapPoint);
    }

    /** A click on the map at `mapPoint`, which only arrives once a part is selected:
        the end point of the cut. */
    method OnMapClick(mapPoint: Point)
      requires Valid() && mapClickHandle
      requires PickingSecondPoint() ==> NoThreeWayMerge(Exploded(EditedPolyline(mapPoint)), engine.touches)
      modifies this
      ensures SelectingRoute()
      ensures var o := old(selectedOriginalGraphic).value;
        routes == AllVisible(old(routes)[..o] + old(routes)[o + 1..] +
          DrawnGraphics(Sections(engine.touches, old(EditedPolyline(mapPoint)))))
    {
      SnapAndCut(mapPoint);
    }

    /** The first call snaps the click onto the selected part and records it as the start
        point. A later call cuts the selected part between that start point and the
        click as given, not snapped; replaces the route by the connected sections of the
        edited route; and restarts the session. */
    method SnapAndCut(mapPoint: Point)
      requires selectedGraphic.Some?
      requires mapClickCount >= 1 ==>
        |cutPoints| > 0 && selectedOriginalGraphic.Some? && selectedOriginalGraphic.value < |routes| &&
        NoThreeWayMerge(Exploded(EditedPolyline(mapPoint)), engine.touches)
      modifies this
      ensures old(mapClickCount) == 0 ==>
        var snap := engine.nearestCoordinate(old(selectedGraphic).value.geometry, mapPoint);
        && mapClickCount == 1 && cutLineStartPoint == Some(snap)
        && cutPoints == old(cutPoints) + [snap]
        && routes == old(routes) && explodedParts == old(explodedParts)
        && selectedGraphic == old(selectedGraphic)
        && selectedOriginalGraphic == old(selectedOriginalGraphic)
        && routeFeatureClickHandle == old(routeFeatureClickHandle)
        && mapClickHandle == old(mapClickHandle) && mapMouseSnapHandle == old(mapMouseSnapHandle)
        && explodedPolylineClickHandle == old(explodedPolylineClickHandle)
      ensures old(mapClickCount) >= 1 ==>
        var o := old(selectedOriginalGraphic).value;
        && SelectingRoute()
        && routes == AllVisible(old(routes)[..o] + old(routes)[o + 1..] +
             DrawnGraphics(Sections(engine.touches, old(EditedPolyline(mapPoint)))))
    {
      mapClickCount := mapClickCount + 1;
      var clickPoint := mapPoint;

      if mapClickCount == 1 {
        var snapPoint := engine.nearestCoordinate(selectedGraphic.value.geometry, clickPoint);
        cutLineStartPoint := Some(snapPoint);
        cutPoints := cutPoints + [snapPoint];
      } else {
        CutAndReplaceRoute(mapPoint);
      }
    }

    /** The second map click: cut the selected part between the start point and the
        click, replace the selected route by the sections of the edited route, and
        restart the session. */
    method CutAndReplaceRoute(mapPoint: Point)
      requires selectedGraphic.Some? && |cutPoints| > 0
      requires selectedOriginalGraphic.Some? && selectedOriginalGraphic.value < |routes|
      requires NoThreeWayMerge(Exploded(EditedPolyline(mapPoint)), engine.touches)
      modifies this
      ensures var o := old(selectedOriginalGraphic).value;
        && SelectingRoute()
        && routes == AllVisible(old(routes)[..o] + old(routes)[o + 1..] +
             DrawnGraphics(Sections(engine.touches, old(EditedPolyline(mapPoint)))))
    {
      var clickPoint := mapPoint;
      ghost var edited := EditedPolyline(mapPoint);
      ghost var o0 := selectedOriginalGraphic.value;
      ghost var others := routes[..o0] + routes[o0 + 1..];
      RemoveMapMouseSnapHandler();
      RemoveMouseClickHandler();
      explodedParts := [];

      var startPoint := cutPoints[0];
      var endPoint := clickPoint;
      var part := selectedGraphic.value;
      var slicedPolylineSegment := CutPolyline(engine, startPoint, endPoint, part.geometry);

      var o := selectedOriginalGraphic.value;
      var original := routes[o].geometry;
      routes := routes[..o] + routes[o + 1..];
      var editedPolyline := SpliceInCutSegment(original, part.pathIndex, slicedPolylineSegment);
      assert editedPolyline == edited;
      var editedPolylineSections := MultiPartToSinglePart(editedPolyline);

      AddSections(editedPolylineSections);
      assert routes == others + DrawnGraphics(Sections(engine.touches, edited));
      cutPoints := [];
      Clear();
      Enable();
    }

    /** Adds one drawn route graphic per section to the route layer. */
    method AddSections(sections: seq<Polyline>)
      modifies this`routes
      ensures routes == old(routes) + DrawnGraphics(sections)
    {
      var i := 0;
      while i < |sections|
        invariant 0 <= i <= |sections|
        invariant routes == old(routes) + DrawnGraphics(sections[..i])
      {
        var section := sections[i];
        assert DrawnGraphics(sections[..i + 1]) == DrawnGraphics(sections[..i]) + [RouteGraphic(section, true)];
        routes := routes + [RouteGraphic(section, true)];
        i := i + 1;
      }
      assert sections[..i] == sections;
    }

    // -------------------------------------------------------------------------------
    // Array logic

    /** One single-path polyline per part of `polyline`, in order. */
    method ExplodePolyline(polyline: Polyline) returns (polys: seq<Polyline>)
      ensures |polys| == |polyline.paths|
      ensures forall i :: 0 <= i < |polys| ==> polys[i].paths == [polyline.paths[i]]
      ensures polys == Exploded(polyline)
    {
      polys := [];
      var i := 0;
      while i < |polyline.paths|
        invariant 0 <= i <= |polyline.paths|
        invariant polys == Exploded(polyline)[..i]
      {
        var path := polyline.paths[i];
        polys := polys + [Polyline([path])];
        i := i + 1;
      }
    }

    /** The original parts except the one at `cutPathIndex`, then the parts left after
        the cut. */
    method SpliceInCutSegment(originalPolyline: Polyline, cutPathIndex: int, slicedPolyline: Polyline)
      returns (editedPolyline: Polyline)
      ensures editedPolyline == Spliced(originalPolyline, cutPathIndex, slicedPolyline)
    {
      var paths: seq<Path> := [];
      var original := originalPolyline.paths;
      var i := 0;
      while i < |original|
        invariant 0 <= i <= |original|
        invariant paths == RemovedAt(original[..i], cutPathIndex)
      {
        var oPath := original[i];
        if i != cutPathIndex {
          paths := paths + [oPath];
        }
        RemovedAtStep(original, cutPathIndex, i);
        i := i + 1;
      }
      assert original[..i] == original;

      var sliced := slicedPolyline.paths;
      var j := 0;
      while j < |sliced|
        invariant 0 <= j <= |sliced|
        invariant paths == RemovedAt(original, cutPathIndex) + sliced[..j]
      {
        var path := sliced[j];
        paths := paths + [path];
        j := j + 1;
      }
      assert sliced[..j] == sliced;
      editedPolyline := Polyline(paths);
    }

    /** The parts of `polyline` grouped by touching, one union per group. */
    method MultiPartToSinglePart(polyline: Polyline) returns (polylineSegments: seq<Polyline>)
      requires NoThreeWayMerge(Exploded(polyline), engine.touches)
      ensures polylineSegments == Sections(engine.touches, polyline)
    {
      var parts := ExplodePolyline(polyline);
      var groups := GroupPolylines(parts);

      polylineSegments := [];
      var k := 0;
      while k < |groups|
        invariant 0 <= k <= |groups|
        invariant polylineSegments == Unions(groups)[..k]
      {
        var unioned := Union(groups[k]);
        assert Unions(groups)[..k + 1] == Unions(groups)[..k] + [unioned];
        polylineSegments := polylineSegments + [unioned];
        k := k + 1;
      }
      assert Unions(groups)[..k] == Unions(groups);
    }

    /** The dissolve, as the editor runs it: each polyline in turn is placed into the
        groups of the ones before it. */
    method GroupPolylines(polylines: seq<Polyline>) returns (groups: seq<seq<Polyline>>)
      requires NoThreeWayMerge(polylines, engine.touches)
      ensures groups == Dissolve(polylines, engine.touches)
    {
      groups := [];
      var i := 0;
      while i < |polylines|
        invariant 0 <= i <= |polylines|
        invariant groups == Dissolve(polylines[..i], engine.touches)
      {
        var polyline := polylines[i];
        var inclusiveGroupIndexes := ScanGroups(groups, polyline);
        assert AtMostTwoTouched(polylines, i, engine.touches);
        DissolveNext(polylines, i, engine.touches);
        groups := JoinGroups(groups, polyline, inclusiveGroupIndexes);
        i := i + 1;
      }
      assert polylines[..i] == polylines;
    }

    /** Places `polyline` by the groups it touches: a new group when none, the end of the
        one group when one, and when two, the end of the first, which then takes in the
        members of the second, which is spliced out. */
    method JoinGroups(groups: seq<seq<Polyline>>, polyline: Polyline, inclusiveGroupIndexes: seq<nat>)
      returns (joined: seq<seq<Polyline>>)
      requires inclusiveGroupIndexes == TouchingIndexes(groups, polyline, engine.touches, |groups|)
      requires |inclusiveGroupIndexes| <= 2
      ensures joined == Insert(groups, polyline, engine.touches)
    {
      var touches := engine.touches;
      joined := groups;
      if |inclusiveGroupIndexes| == 0 {
        InsertNewGroup(groups, polyline, touches);
        joined := joined + [[polyline]];
      } else if |inclusiveGroupIndexes| == 1 {
        InsertJoinGroup(groups, polyline, touches);
        var first := inclusiveGroupIndexes[0];
        joined := joined[first := joined[first] + [polyline]];
      } else {
        InsertMergeTwo(groups, polyline, touches);
        var firstInclusiveIndex := inclusiveGroupIndexes[0];
        joined := joined[firstInclusiveIndex := joined[firstInclusiveIndex] + [polyline]];
        var m := 1;
        while m < |inclusiveGroupIndexes|
          invariant 1 <= m <= |inclusiveGroupIndexes|
          invariant m == 1 ==> joined == groups[firstInclusiveIndex := groups[firstInclusiveIndex] + [polyline]]
          invariant m == 2 ==> joined == Insert(groups, polyline, touches)
        {
          var additionalInclusiveIndex := inclusiveGroupIndexes[m];
          joined := joined[firstInclusiveIndex := joined[firstInclusiveIndex] + joined[additionalInclusiveIndex]];
          joined := joined[..additionalInclusiveIndex] + joined[additionalInclusiveIndex + 1..];
          m := m + 1;
        }
      }
    }

    /** The indexes of the groups that `polyline` touches, each found by scanning the
        group's members up to the first touching one. */
    method ScanGroups(groups: seq<seq<Polyline>>, polyline: Polyline) returns (inclusiveGroupIndexes: seq<nat>)
      ensures inclusiveGroupIndexes == TouchingIndexes(groups, polyline, engine.touches, |groups|)
    {
      inclusiveGroupIndexes := [];
      var j := 0;
      while j < |groups|
        invariant 0 <= j <= |groups|
        invariant inclusiveGroupIndexes == TouchingIndexes(groups, polyline, engine.touches, j)
      {
        var group := groups[j];
        var k := 0;
        while k < |group|
          invariant 0 <= k <= |group|
          invariant forall l :: 0 <= l < k ==> !engine.touches(polyline, group[l])
          invariant inclusiveGroupIndexes == TouchingIndexes(groups, polyline, engine.touches, j)
        {
          var testPolyline := group[k];
          if engine.touches(polyline, testPolyline) {
            inclusiveGroupIndexes := inclusiveGroupIndexes + [j];
            break;
          }
          k := k + 1;
        }
        j := j + 1;
      }
    }
  }

  /** Taking one more original path into account. */
  lemma RemovedAtStep(ps: seq<Path>, idx: int, i: nat)
    requires i < |ps|
    ensures RemovedAt(ps[..i + 1], idx) == RemovedAt(ps[..i], idx) + (if i != idx then [ps[i]] else [])
  {
    var pre, next := ps[..i], ps[..i + 1];
    assert next == pre + [ps[i]];
    if 0 <= idx < i {
      assert next[..idx] == pre[..idx];
      assert next[idx + 1..] == pre[idx + 1..] + [ps[i]];
    } else if idx == i {
      assert next[..idx] == pre;
    }
  }
}
