/** The two routes of the bundled route layer, grouped with a touching relation that holds
    when two polylines share a vertex (their parts meet only at vertices). */
module Fixtures {

  import opened Geometry
  import opened Grouping

  /** All vertices of a polyline, part after part. */
  function Vertices(pl: Polyline): seq<Point>
  {
    Flatten(pl.paths)
  }

  /** Two polylines touch when some vertex of one is a vertex of the other. */
  predicate Touch(a: Polyline, b: Polyline)
  {
    var va, vb := Vertices(a), Vertices(b);
    exists i, j :: 0 <= i < |va| && 0 <= j < |vb| && va[i] == vb[j]
  }

  // Route with OID 1: three parts meeting at one vertex.
  const A1 := Point(-13626827.958, 4551767.421300001)
  const B1 := Point(-13626797.0905, 4551772.7766999975)
  const C1 := Point(-13626782.811999999, 4551687.605899997)
  const D1 := Point(-13626613.1907, 4551798.137000002)
  const E1 := Point(-13626614.4055, 4551806.239699997)

  const Route1 := Polyline([[A1, B1], [B1, C1], [B1, D1, E1]])

  // Route with OID 2: five parts; the fourth joins the first to the second and third.
  const A2 := Point(-13626582.826299999, 4551610.9991)
  const B2 := Point(-13626592.04, 4551667.954499997)
  const C2 := Point(-13626644.8539, 4551612.808200002)
  const D2 := Point(-13626651.9299, 4551660.205600001)
  const E2 := Point(-13626722.749499999, 4551651.202200003)
  const F2 := Point(-13626606.7342, 4551755.165399998)
  const G2 := Point(-13626701.6897, 4551737.2722999975)

  const Route2 := Polyline([[A2, B2], [C2, D2], [E2, D2], [B2, D2], [B2, F2, G2]])

  lemma SingleVertices(p: Path)
    ensures Vertices(Polyline([p])) == p
  {
    assert [p][1..] == [];
    assert Flatten<Point>([]) == [];
    assert p + [] == p;
  }

  /** A single-path polyline touches a group when it shares a vertex with a member. */
  lemma ShareAt(p: Path, q: Path, i: nat, j: nat)
    requires i < |p| && j < |q| && p[i] == q[j]
    ensures Touch(Polyline([p]), Polyline([q]))
  {
    SingleVertices(p);
    SingleVertices(q);
    assert Vertices(Polyline([p]))[i] == Vertices(Polyline([q]))[j];
  }

  lemma Disjoint(p: Path, q: Path)
    requires forall i, j :: 0 <= i < |p| && 0 <= j < |q| ==> p[i] != q[j]
    ensures !Touch(Polyline([p]), Polyline([q]))
  {
    SingleVertices(p);
    SingleVertices(q);
  }

  /** Inserting into a single group that the new element touches. */
  lemma JoinOnly(g: seq<Polyline>, p: Polyline)
    requires TouchesGroup(g, p, Touch)
    ensures Insert([g], p, Touch) == [g + [p]]
  {
    assert [g][1..] == [];
    assert TouchedMembers<Polyline>([], p, Touch) == [] && Untouched<Polyline>([], p, Touch) == [];
    assert g + [p] + [] == g + [p];
  }

  /** An element that comes after at most two groups cannot touch three of them. */
  lemma FewGroupsBefore(ps: seq<Polyline>, i: nat)
    requires i < |ps| && |Dissolve(ps[..i], Touch)| <= 2
    ensures AtMostTwoTouched(ps, i, Touch)
  {
  }

  /** All three parts of route 1 form one section, in their original order, and the
      editor's loop computes it, since no part touches three earlier groups. */
  lemma Route1OneGroup()
    ensures Dissolve(Exploded(Route1), Touch) == [Exploded(Route1)]
    ensures NoThreeWayMerge(Exploded(Route1), Touch)
  {
    var e := Exploded(Route1);
    forall i | 0 <= i < |e| ensures AtMostTwoTouched(e, i, Touch) {
      DissolveShape(e[..i], Touch);
      FewGroupsBefore(e, i);
    }
    var p0, p1, p2 := Polyline([[A1, B1]]), Polyline([[B1, C1]]), Polyline([[B1, D1, E1]]);
    assert e == [p0, p1, p2];
    assert e[..0] == [] && e[..1] == [p0] && e[..2] == [p0, p1] && e[..3] == e;
    DissolveNext(e, 0, Touch);
    assert Dissolve(e[..1], Touch) == [[p0]];
    DissolveNext(e, 1, Touch);
    assert TouchesGroup([p0], p1, Touch) by {
      ShareAt([B1, C1], [A1, B1], 0, 1);
      assert Touch(p1, [p0][0]);
    }
    JoinOnly([p0], p1);
    assert [p0] + [p1] == [p0, p1];
    assert Dissolve(e[..2], Touch) == [[p0, p1]];
    DissolveNext(e, 2, Touch);
    assert TouchesGroup([p0, p1], p2, Touch) by {
      ShareAt([B1, D1, E1], [A1, B1], 0, 1);
      assert Touch(p2, [p0, p1][0]);
    }
    JoinOnly([p0, p1], p2);
    assert [p0, p1] + [p2] == e;
  }

  // The parts of route 2, each as its own polyline.
  const Q0 := Polyline([[A2, B2]])
  const Q1 := Polyline([[C2, D2]])
  const Q2 := Polyline([[E2, D2]])
  const Q3 := Polyline([[B2, D2]])
  const Q4 := Polyline([[B2, F2, G2]])

  lemma Route2Parts()
    ensures Exploded(Route2) == [Q0, Q1, Q2, Q3, Q4]
  {
  }

  /** The second part touches nothing before it. */
  lemma Route2First2()
    ensures Dissolve([Q0, Q1], Touch) == [[Q0], [Q1]]
  {
    var e := [Q0, Q1];
    assert e[..0] == [] && e[..1] == [Q0] && e[..2] == e;
    DissolveNext(e, 0, Touch);
    DissolveNext(e, 1, Touch);
    assert !TouchesGroup([Q0], Q1, Touch) by {
      Disjoint([C2, D2], [A2, B2]);
    }
    assert Insert<Polyline>([], Q1, Touch) == [[Q1]];
    assert [[Q0]][1..] == [];
  }

  /** The third part joins the second. */
  lemma Route2First3()
    ensures Dissolve([Q0, Q1, Q2], Touch) == [[Q0], [Q1, Q2]]
  {
    var e := [Q0, Q1, Q2];
    assert e[..2] == [Q0, Q1] && e[..3] == e;
    Route2First2();
    DissolveNext(e, 2, Touch);
    assert !TouchesGroup([Q0], Q2, Touch) by {
      Disjoint([E2, D2], [A2, B2]);
    }
    assert TouchesGroup([Q1], Q2, Touch) by {
      ShareAt([E2, D2], [C2, D2], 1, 1);
      assert Touch(Q2, [Q1][0]);
    }
    JoinOnly([Q1], Q2);
    assert [Q1] + [Q2] == [Q1, Q2];
    assert [[Q0], [Q1]][1..] == [[Q1]];
  }

  /** The fourth part touches both groups, which merge with it between them. */
  lemma Route2First4()
    ensures Dissolve([Q0, Q1, Q2, Q3], Touch) == [[Q0, Q3, Q1, Q2]]
  {
    var e := [Q0, Q1, Q2, Q3];
    assert e[..3] == [Q0, Q1, Q2] && e[..4] == e;
    Route2First3();
    DissolveNext(e, 3, Touch);
    assert TouchesGroup([Q0], Q3, Touch) by {
      ShareAt([B2, D2], [A2, B2], 0, 1);
      assert Touch(Q3, [Q0][0]);
    }
    assert TouchesGroup([Q1, Q2], Q3, Touch) by {
      ShareAt([B2, D2], [C2, D2], 1, 1);
      assert Touch(Q3, [Q1, Q2][0]);
    }
    var rest := [[Q0], [Q1, Q2]][1..];
    assert rest == [[Q1, Q2]] && rest[1..] == [];
    assert TouchedMembers(rest, Q3, Touch) == [Q1, Q2];
    assert Untouched(rest, Q3, Touch) == [];
    assert [Q0] + [Q3] + [Q1, Q2] == [Q0, Q3, Q1, Q2];
  }

  /** Before each part of route 2 there are at most two groups. */
  lemma Route2FewGroups()
    ensures forall i :: 0 <= i < 5 ==> |Dissolve([Q0, Q1, Q2, Q3, Q4][..i], Touch)| <= 2
  {
    var e := [Q0, Q1, Q2, Q3, Q4];
    assert e[..3] == [Q0, Q1, Q2] && e[..4] == [Q0, Q1, Q2, Q3];
    Route2First3();
    Route2First4();
    DissolveShape(e[..0], Touch);
    DissolveShape(e[..1], Touch);
    DissolveShape(e[..2], Touch);
  }

  /** Route 2 forms one section: the fourth part touches the first group and the group of
      the second and third parts, so the two merge with the fourth part between them, and
      the fifth part joins the merged group. No part touches three earlier groups, so
      the editor's loop computes this grouping too. */
  lemma Route2MergedGroup()
    ensures var e := Exploded(Route2);
      Dissolve(e, Touch) == [[e[0], e[3], e[1], e[2], e[4]]]
    ensures NoThreeWayMerge(Exploded(Route2), Touch)
  {
    var e := [Q0, Q1, Q2, Q3, Q4];
    Route2Parts();
    Route2FewGroups();
    forall i | 0 <= i < |e| ensures AtMostTwoTouched(e, i, Touch) {
      FewGroupsBefore(e, i);
    }
    assert e[..4] == [Q0, Q1, Q2, Q3] && e[..5] == e;
    Route2First4();
    DissolveNext(e, 4, Touch);
    assert TouchesGroup([Q0, Q3, Q1, Q2], Q4, Touch) by {
      ShareAt([B2, F2, G2], [A2, B2], 0, 1);
      assert Touch(Q4, [Q0, Q3, Q1, Q2][0]);
    }
    JoinOnly([Q0, Q3, Q1, Q2], Q4);
    assert [Q0, Q3, Q1, Q2] + [Q4] == [Q0, Q3, Q1, Q2, Q4];
  }
}
