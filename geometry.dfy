/** Geometry values the route editor handles, and the geometry library it calls.
    Coordinates are carried, never computed with: every computation on them happens
    inside the library, which the model receives as an `Engine` of opaque functions. */
module Geometry {

  /** A map coordinate (longitude, latitude in the editor's working frame). */
  datatype Point = Point(x: real, y: real)

  /** One continuous stroke. */
  type Path = seq<Point>

  /** An ordered list of paths, the "parts" of a route. The spatial reference is not
      modelled: the editor's reprojections are taken as the identity. */
  datatype Polyline = Polyline(paths: seq<Path>)

  /** The geometry library calls the editor makes, each an opaque total function:
      - touches(a, b): `!geometryEngine.disjoint(a, b)`;
      - nearestCoordinate(line, p): the `coordinate` of `geometryEngine.nearestCoordinate(line, p)`;
      - lineSlice(start, end, line): the coordinates of `turf.lineSlice(start, end, line)`;
      - difference(line, cutter): `geometryEngine.difference(line, cutter)`. */
  datatype Engine = Engine(
    touches: (Polyline, Polyline) -> bool,
    nearestCoordinate: (Polyline, Point) -> Point,
    lineSlice: (Point, Point, Polyline) -> Path,
    difference: (Polyline, Polyline) -> Polyline)

  /** One single-path polyline per part, in order: the specification of exploding. */
  function Exploded(pl: Polyline): seq<Polyline>
  {
    seq(|pl.paths|, i requires 0 <= i < |pl.paths| => Polyline([pl.paths[i]]))
  }

  /** All parts of a list of polylines, in order. */
  function PathsOf(polys: seq<Polyline>): seq<Path>
  {
    if polys == [] then [] else polys[0].paths + PathsOf(polys[1..])
  }

  /** `geometryEngine.union` of a group of polylines, taken as the polyline whose parts
      are all the group's parts in order. */
  function Union(polys: seq<Polyline>): Polyline
  {
    Polyline(PathsOf(polys))
  }

  lemma {:induction false} PathsOfAppend(xs: seq<Polyline>, ys: seq<Polyline>)
    ensures PathsOf(xs + ys) == PathsOf(xs) + PathsOf(ys)
  {
    if xs == [] {
      assert xs + ys == ys;
    } else {
      assert (xs + ys)[1..] == xs[1..] + ys;
      PathsOfAppend(xs[1..], ys);
    }
  }

  lemma PathsOfAround(before: seq<Polyline>, x: Polyline, after: seq<Polyline>)
    ensures PathsOf(before + [x] + after) == PathsOf(before) + x.paths + PathsOf(after)
    ensures PathsOf(before + after) == PathsOf(before) + PathsOf(after)
  {
    PathsOfAppend(before + [x], after);
    PathsOfAppend(before, [x]);
    PathsOfAppend(before, after);
    assert [x][1..] == [];
  }

  /** A sequence is the elements before `k`, the element at `k` and those after it. */
  lemma SplitAt<T>(ys: seq<T>, k: nat)
    requires k < |ys|
    ensures ys == ys[..k] + [ys[k]] + ys[k + 1..]
    ensures multiset(ys) == multiset(ys[..k] + ys[k + 1..]) + multiset{ys[k]}
  {
    assert ys == ys[..k] + [ys[k]] + ys[k + 1..];
  }

  /** A position of an element of a sequence. */
  lemma IndexOf<T>(ys: seq<T>, x: T) returns (k: nat)
    requires x in multiset(ys)
    ensures k < |ys| && ys[k] == x
  {
    assert x in ys;
    k :| 0 <= k < |ys| && ys[k] == x;
  }

  /** Taking the first element of `xs` out of `ys`, which has the same multiset. */
  lemma MultisetWithout<T>(xs: seq<T>, ys: seq<T>) returns (k: nat)
    requires multiset(xs) == multiset(ys) && xs != []
    ensures k < |ys| && ys[k] == xs[0]
    ensures ys == ys[..k] + [xs[0]] + ys[k + 1..]
    ensures multiset(xs[1..]) == multiset(ys[..k] + ys[k + 1..])
  {
    var x, tail := xs[0], xs[1..];
    assert x in multiset(xs);
    k := IndexOf(ys, x);
    var rest := ys[..k] + ys[k + 1..];
    SplitAt(ys, k);
    assert xs == [x] + tail;
    calc {
      multiset(tail);
      multiset(xs) - multiset{x};
      multiset(ys) - multiset{x};
      multiset(rest);
    }
  }

  /** The parts of a list of polylines depend, as a multiset, only on the multiset of
      polylines: reordering the polylines only reorders their parts. */
  lemma {:induction false} PathsOfPermutation(xs: seq<Polyline>, ys: seq<Polyline>)
    requires multiset(xs) == multiset(ys)
    ensures multiset(PathsOf(xs)) == multiset(PathsOf(ys))
    decreases |xs|
  {
    if xs == [] {
      assert |ys| == |multiset(ys)| == 0;
    } else {
      var k := MultisetWithout(xs, ys);
      var x, before, after := xs[0], ys[..k], ys[k + 1..];
      PathsOfPermutation(xs[1..], before + after);
      PathsOfAround(before, x, after);
      assert PathsOf(xs) == x.paths + PathsOf(xs[1..]);
      assert multiset(PathsOf(ys)) == multiset(PathsOf(before)) + multiset(x.paths) + multiset(PathsOf(after));
    }
  }

  /** Exploding a polyline and taking the union of its pieces gives the polyline back. */
  lemma {:induction false} UnionOfExploded(pl: Polyline)
    ensures Union(Exploded(pl)) == pl
    decreases |pl.paths|
  {
    if pl.paths != [] {
      var tail := Polyline(pl.paths[1..]);
      assert Exploded(pl)[1..] == Exploded(tail);
      UnionOfExploded(tail);
      assert pl.paths == [pl.paths[0]] + pl.paths[1..];
    }
  }
}
