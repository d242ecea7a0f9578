# Route editor: a Dafny model of `RouteEdit.js`

This project models the route-editing engine of a map application. On a map of fibre
routes, the user clicks a route, which is hidden and shown exploded into its parts. The
user then clicks one part. That click is also the first cut point, snapped onto the
part. A second map click gives the end point. The stretch of the part between the two
points is cut out, and the remaining paths are spliced back into the route. The edited
route is regrouped into connected sections, and these replace the route on the map.
The session then clears itself and waits for the next route click.

The project has five modules:

- `Optional` (`option.dfy`): the `Option` datatype.
- `Geometry` (`geometry.dfy`): points, paths and polylines, and the geometry library as
  an `Engine` of opaque functions. It also defines exploding a polyline into one
  polyline per part, and union as the concatenation of the parts.
- `Grouping` (`grouping.dfy`): the connectivity "dissolve" of `_groupPolylines`.
  - `Dissolve` is a fold of `Insert` over the input.
  - `Insert` adds one element, joining or merging every group it touches.
  - The lemmas prove that the editor's three branches (new group, join one, merge two)
    are `Insert`, that the grouping partitions its input, that the members of each
    group touch each other in a chain (`Linked`), and that distinct groups do not
    touch: the groups are the connected components.
  - The merge loop as written is modelled separately, for the finding below.
- `RouteEdit` (`route_edit.dfy`): the editor as the class `RouteEditor`.
  - Its fields are the session state: the route layer, the exploded-parts layer, the
    cut-point layer, the selected part and route, the four event handles (booleans),
    the click count and the cut's start point.
  - Its methods are the source's methods, with their loops. Each is proved against a
    specification function (`Exploded`, `Spliced`, `Dissolve`, `Sections`) or against
    the phase predicates of the session.
- `Fixtures` (`fixtures.dfy`): the two routes of the bundled route layer, grouped with a
  "shares a vertex" touching relation.

The model follows the code in these points, which a reader might not expect:

- The end point of the cut is the raw click point. It is not snapped onto the part.
- The click that selects a part is also the first cut point.
- Merging keeps the order first group, new part, second group (route 2 gives parts
  0, 3, 1, 2, 4). The members of a merged group are not kept in input order.
- Merging is correct only when at most two groups are touched (see Findings).

## Model

| member | source | states |
|---|---|---|
| Geometry.UnionOfExploded | src/js/RouteEdit.js:240-253 | Unioning the exploded parts of a polyline gives the polyline back. |
| Grouping.TouchingIndexes | src/js/RouteEdit.js:262-277 | The scan collects exactly the indexes of the groups the polyline touches, each once, strictly increasing, at most one per group. |
| Grouping.InsertNewGroup | src/js/RouteEdit.js:278-279 | A polyline touching no group becomes a new singleton group at the end. |
| Grouping.InsertJoinGroup | src/js/RouteEdit.js:280-281 | A polyline touching exactly one group is appended to that group, and nothing else changes. |
| Grouping.InsertMergeTwo | src/js/RouteEdit.js:282-292 | With exactly two touched groups, the earlier becomes old first, the polyline, then old second; the later is removed; the count drops by one. |
| Grouping.DissolveNext | src/js/RouteEdit.js:260-261 | The grouping of one more polyline is the insertion of that polyline into the grouping of those before it. |
| Grouping.InsertAddsOne | src/js/RouteEdit.js:260-293 | One pass of the outer loop adds exactly the new polyline to the grouped members. |
| Grouping.DissolvePartition | src/js/RouteEdit.js:259-295 | Every input is in exactly one group, as many times as it occurs. |
| Grouping.DissolveShape | src/js/RouteEdit.js:259-295 | No group is empty, and there are at most as many groups as inputs. |
| Grouping.InsertSeparated | src/js/RouteEdit.js:260-293 | With a symmetric touching relation, inserting keeps distinct groups apart. |
| Grouping.DissolveSeparated | src/js/RouteEdit.js:264-292 | With a symmetric touching relation, no member of one group touches a member of another. |
| Grouping.InsertLinked | src/js/RouteEdit.js:278-292 | Inserting keeps every group linked: a new singleton, an unchanged group, or the merged group, whose parts each touch the new polyline or chain to one that does. |
| Grouping.DissolveLinked | src/js/RouteEdit.js:254-295 | Every group is linked: however its members are split into two non-empty sides, a member of one side touches a member of the other, so the members of a group touch each other in a chain. |
| Grouping.DissolveComponents | src/js/RouteEdit.js:254-295 | With a symmetric touching relation, the groups are the connected components of the touching graph: each is linked and no two touch. |
| Grouping.ApartPairNotLinked | src/js/RouteEdit.js:256 | Two distinct polylines that touch neither way do not form a linked group, so linkedness rules out an arbitrary lumping of parts. |
| Grouping.InsertAsWritten | src/js/RouteEdit.js:262-292 | One pass of the outer loop as written: with nothing touched the polyline becomes a new last group; a completed pass with k touched groups leaves k - 1 fewer groups than before. |
| Grouping.InsertAsWrittenAddsOne | src/js/RouteEdit.js:278-292 | A completed pass as written still adds exactly the new polyline to the grouped members, even when it merges the wrong groups. |
| Grouping.MergeAsWrittenKeepsMembers | src/js/RouteEdit.js:286-292 | The concat-and-splice loop as written moves members between groups but never loses or duplicates one. |
| Grouping.MergeAsWritten | src/js/RouteEdit.js:286-292 | The merge loop as written: the list shrinks by one group per merged index, and the result is absent when an index runs past the end. |
| Grouping.InsertAsWrittenUpToTwo | src/js/RouteEdit.js:278-292 | With at most two touched groups, the loop as written equals the corrected insertion. |
| Grouping.ThreeTouched | src/js/RouteEdit.js:264-276 | In the counterexample, the scan finds groups 0, 1 and 2. |
| Grouping.SplicedMergeAsWritten | src/js/RouteEdit.js:288-292 | In the counterexample, the loop after the push merges group 3 in place of group 2. |
| Grouping.ThreeWayMergeAsWritten | src/js/RouteEdit.js:285-292 | As written, three touched groups give `[[0, 3, 1, 4], [2]]`, whose groups touch each other. |
| Grouping.ThreeWayMergeCorrected | src/js/RouteEdit.js:283-284 | The corrected insertion merges all three touched groups: `[[0, 3, 1, 2], [4]]`. |
| RouteEdit.RemovedAt | src/js/RouteEdit.js:203-208 | All original paths except the one at the index, in order; all of them when the index is out of range. |
| RouteEdit.SplicedParts | src/js/RouteEdit.js:194-215 | For an index in range, the edited route has n - 1 + m parts; other parts keep their order and are unchanged, and the cut's parts come last in order. |
| RouteEdit.SpliceBackRestores | src/js/RouteEdit.js:194-215 | Splicing back the very part that was removed gives the original parts as a multiset. |
| RouteEdit.PathsOfUnions | src/js/RouteEdit.js:220-225 | The parts of the unions of the groups are the parts of all group members. |
| RouteEdit.SectionsPartition | src/js/RouteEdit.js:216-226 | The sections hold exactly the polyline's parts, none empty, at most as many as parts. |
| RouteEdit.SectionsConnected | src/js/RouteEdit.js:216-226 | Each section is the union of a linked group of the polyline's parts. |
| RouteEdit.RouteEditor.OnePhase | src/js/RouteEdit.js:71-93 | In a valid session, the registered handlers decide the phase: none, route click, part click, or map click and snap. |
| RouteEdit.RouteEditor.SelectedPartIsPath | src/js/RouteEdit.js:111-116 | While picking the end point, the selected part's `pathIndex` names a part of the selected route, and the part is that path. |
| RouteEdit.RouteEditor.constructor | src/js/RouteEdit.js:37-70 | A new editor is disabled: no handler, no selection, count 0, no start point, all routes drawn. |
| RouteEdit.RouteEditor.AddMouseClickHandler | src/js/RouteEdit.js:297-300 | The map-click handle is registered; nothing else changes. |
| RouteEdit.RouteEditor.RemoveMouseClickHandler | src/js/RouteEdit.js:301-307 | The map-click handle is dropped; nothing else changes. |
| RouteEdit.RouteEditor.AddMapMouseSnapHandler | src/js/RouteEdit.js:308-311 | The mouse-move snap handle is registered; nothing else changes. |
| RouteEdit.RouteEditor.RemoveMapMouseSnapHandler | src/js/RouteEdit.js:312-318 | The mouse-move snap handle is dropped; nothing else changes. |
| RouteEdit.RouteEditor.AddRouteFeatureClickHandler | src/js/RouteEdit.js:319-322 | The route-click handle is registered; nothing else changes. |
| RouteEdit.RouteEditor.RemoveRouteFeatureClickHandler | src/js/RouteEdit.js:323-329 | The route-click handle is dropped; nothing else changes. |
| RouteEdit.RouteEditor.AddExplodedPolylineClickHandler | src/js/RouteEdit.js:330-333 | The part-click handle is registered; nothing else changes. |
| RouteEdit.RouteEditor.RemoveExplodedPolylineClickHandler | src/js/RouteEdit.js:334-340 | The part-click handle is dropped; nothing else changes. |
| RouteEdit.RouteEditor.Enable | src/js/RouteEdit.js:71-73 | Only the route-click handle is registered; from the disabled phase, the editor waits for a route click. |
| RouteEdit.RouteEditor.Clear | src/js/RouteEdit.js:74-93 | All handlers are dropped and selections, count, start point and both layers are reset; every route is drawn and otherwise unchanged. |
| RouteEdit.RouteEditor.ShowAllRoutes | src/js/RouteEdit.js:82-85 | Every route graphic becomes visible in place; the list keeps its length, order and geometries. |
| RouteEdit.RouteEditor.OnRouteFeatureClicked | src/js/RouteEdit.js:94-122 | A route click hides exactly that route, shows its parts with `pathIndex` k on the k-th, and waits for a part click. |
| RouteEdit.RouteEditor.OnExplodedPolylineClicked | src/js/RouteEdit.js:123-134 | A part click selects that part, registers the map-click and snap handlers, and records the click snapped onto the part as the only cut point. |
| RouteEdit.RouteEditor.OnMapClick | src/js/RouteEdit.js:135-137 | The second click replaces the route by the drawn sections of the edited route, keeps the other routes in order, and waits for a route click. |
| RouteEdit.RouteEditor.SnapAndCut | src/js/RouteEdit.js:138-176 | The first call only records the snapped start point. A later call cuts between that point and the raw click, replaces the route by the sections of the edited route, and restarts the session. |
| RouteEdit.RouteEditor.CutAndReplaceRoute | src/js/RouteEdit.js:147-174 | The second click cuts between the recorded start point and the raw click, replaces the selected route by the drawn sections of the edited route, keeps the other routes in order and visible, and leaves the editor waiting for a route click. |
| RouteEdit.RouteEditor.AddSections | src/js/RouteEdit.js:162-167 | One drawn route graphic per section is appended to the route layer, in order. |
| RouteEdit.RouteEditor.ExplodePolyline | src/js/RouteEdit.js:240-253 | One polyline per path, in order; the i-th holds only path i; no paths gives no polylines. |
| RouteEdit.RouteEditor.SpliceInCutSegment | src/js/RouteEdit.js:194-215 | The result is the original paths without the cut index, then the sliced paths. |
| RouteEdit.RouteEditor.MultiPartToSinglePart | src/js/RouteEdit.js:216-226 | One union per group of the exploded polyline, in group order. |
| RouteEdit.RouteEditor.GroupPolylines | src/js/RouteEdit.js:254-296 | With no three-way merge, the in-place loop computes exactly the dissolve. |
| RouteEdit.RouteEditor.ScanGroups | src/js/RouteEdit.js:264-277 | The nested scan, with its `break`, yields the touching indexes. |
| RouteEdit.RouteEditor.JoinGroups | src/js/RouteEdit.js:278-293 | The push, concat and splice branches compute the corrected insertion when at most two groups are touched. |
| Fixtures.Route1OneGroup | data/routes.js:4 | The three parts of route 1 meet at one vertex and form one group in input order; no part touches three earlier groups, so the editor's loop computes this grouping. |
| Fixtures.Route2MergedGroup | data/routes.js:4 | The five parts of route 2 form one group, ordered parts 0, 3, 1, 2, 4; no part touches three earlier groups, so the editor's loop computes this grouping. |

## Left out

- The geometry library (`disjoint`, `nearestCoordinate`, `difference`, `turf.lineSlice`,
  the Terraformer conversion) is not modelled. It is an `Engine` value of opaque total
  functions, because it is floating-point geometry in foreign code.
- `geometryEngine.union` is modelled as the concatenation of the group's parts, in
  order. No parts are merged.
- Web Mercator to geographic reprojection and the wkid 4326 checks are taken as the
  identity. They are floating-point coordinate conversions.
- `_onMapMouseSnap` and the snapping-preview layer are not modelled. The mouse-move
  handle survives only as a boolean.
- Map and UI plumbing is not modelled: layer creation, renderers and symbols, `redraw`,
  `show`, `emit`, `console.log`, `stopPropagation`.
- `src/js/mapStyles.js` and `src/js/rendererFactory.js` are not part of this model. They
  are static styling and random colour renderers that the editing logic does not read.
- `_cutLine` is not modelled, because the editor only ever assigns it `null`.
- Graphic identity is not modelled. The selected route is an index into the route
  layer, and removing it removes that index.
- Attributes of the new section graphics are not modelled (the source leaves them
  empty).
- The concatenation of `undefined` when an index runs past the end of the group list is
  not modelled. `MergeAsWritten` returns `None` there instead.
- RouteEdit.RouteEditor.GroupPolylines: requires that no polyline touches three or more
  earlier groups. This is the TODO in the source, and beyond it the loop is wrong (see
  Findings).
- RouteEdit.RouteEditor.JoinGroups: requires at most two touched groups, for the same
  reason.
- RouteEdit.RouteEditor.MultiPartToSinglePart: requires no three-way merge among the
  parts, for the same reason.
- RouteEdit.RouteEditor.SnapAndCut: requires a selected part, and for the second call a
  recorded start point, a selected route and no three-way merge in the edited route.
  Without the first three the source dereferences `null` or `undefined`
  (src/js/RouteEdit.js:143, 153 and 158-159). The fourth is the TODO at
  src/js/RouteEdit.js:285, as for `GroupPolylines`: with three touched groups the source
  runs on and merges the wrong group (see Findings).
- RouteEdit.RouteEditor.CutAndReplaceRoute: requires a selected part, a recorded start
  point, a selected route in range and no three-way merge in the edited route. Without
  the first three the source dereferences `null` or `undefined` (src/js/RouteEdit.js:153,
  155 and 158-159). The fourth is the TODO at src/js/RouteEdit.js:285, as for
  `GroupPolylines`: the source accepts that case and merges the wrong group.
- RouteEdit.RouteEditor.OnMapClick: requires no three-way merge in the edited route, for
  the same reason as `GroupPolylines`.
- RouteEdit.RouteEditor.OnRouteFeatureClicked: the handlers require their handle to be
  registered and a valid phase, because events arrive only through registered handles.
  The same holds for `OnExplodedPolylineClicked` and `OnMapClick`.
- RouteEdit.RouteEditor.Enable: from the disabled phase it starts the wait for a route
  click. Called while already waiting for a route click, the source subscribes a second
  time and overwrites only the handle variable (src/js/RouteEdit.js:321): it leaks the
  old listener, which stays registered and can no longer be removed, so a later route
  click runs `_onRouteFeatureClicked` twice. The model does not track listeners and
  only sets the handle again. Called while picking a part or the end point, the route-click
  handle was already dropped (src/js/RouteEdit.js:96), so the source adds one handler
  and drops nothing; source and model then both have two phases' handlers registered,
  and the model leaves `Valid()`. "Exactly one phase's handlers are active" holds only
  while the host calls `enable()` from the disabled phase.
- RouteEdit.CutPolyline: a plain definition with no contract. The cut's geometry is
  computed by the library, which is opaque here, so no property of what is left is
  stated. `EditedPolyline`, which the contract of `CutAndReplaceRoute` uses, fixes the
  points the cut is taken between: the recorded start point and the raw click.
- RouteEdit.RouteEditor.constructor: takes the route geometries as a parameter instead
  of loading the bundled feature layer.
- Fixtures.Route1OneGroup: stands in a "shares a vertex" relation for `!disjoint`. This
  agrees with it on these routes, whose parts meet only at vertices.

## Findings

| source | as written | input that shows it | evidently intended | confidence | as-written member | corrected member |
|---|---|---|---|---|---|---|
| src/js/RouteEdit.js:286-292 | Each later touched index is read after earlier splices have shifted the list, so with three or more touched groups the wrong group is merged, or an index runs past the end | groups `[[0], [1], [2], [4]]`, new element 3 touching only 0, 1 and 2: as written `[[0, 3, 1, 4], [2]]`, whose two groups touch | every touched group merged: `[[0, 3, 1, 2], [4]]`, distinct groups never touching | not executed | Grouping.ThreeWayMergeAsWritten | Grouping.InsertSeparated |
