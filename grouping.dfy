/** The connectivity "dissolve" that regroups the parts of an edited route: each new
    part joins every existing group it touches, merging them when there are several.

    `Dissolve` is the specification: it folds `Insert` over the input, and `Insert`
    merges ALL groups the new element touches. The editor's own loop (see
    `RouteEdit.RouteEditor.GroupPolylines`) merges correctly only when at most two groups
    are touched; `NoThreeWayMerge` is that assumption, and `MergeAsWritten` and
    `InsertAsWritten` model what the loop does beyond it. */
module Grouping {

  import opened Optional

  /** The new element touches some member of the group (`!disjoint(p, g[k])`). */
  predicate TouchesGroup<T>(g: seq<T>, p: T, touches: (T, T) -> bool)
  {
    exists k :: 0 <= k < |g| && touches(p, g[k])
  }

  /** No group in `gs` is touched by `p`. */
  ghost predicate NoneTouched<T>(gs: seq<seq<T>>, p: T, touches: (T, T) -> bool)
  {
    forall j :: 0 <= j < |gs| ==> !TouchesGroup(gs[j], p, touches)
  }

  /** The indexes, among the first `n` groups, of the groups `p` touches, in the order the
      editor's scan collects them into `inclusiveGroupIndexes`. */
  function TouchingIndexes<T>(gs: seq<seq<T>>, p: T, touches: (T, T) -> bool, n: nat): (idx: seq<nat>)
    requires n <= |gs|
    ensures forall j {:trigger j in idx} :: j in idx <==> 0 <= j < n && TouchesGroup(gs[j], p, touches)
    ensures forall a, b :: 0 <= a < b < |idx| ==> idx[a] < idx[b]
    ensures |idx| <= n
  {
    if n == 0 then []
    else
      var before := TouchingIndexes(gs, p, touches, n - 1);
      assert forall a :: 0 <= a < |before| ==> before[a] in before;
      before + (if TouchesGroup(gs[n - 1], p, touches) then [n - 1] else [])
  }

  /** The groups `p` does not touch, in order. */
  function Untouched<T>(gs: seq<seq<T>>, p: T, touches: (T, T) -> bool): (r: seq<seq<T>>)
    ensures |r| <= |gs|
  {
    if gs == [] then []
    else (if TouchesGroup(gs[0], p, touches) then [] else [gs[0]]) + Untouched(gs[1..], p, touches)
  }

  /** The members of the groups `p` touches, group after group. */
  function TouchedMembers<T>(gs: seq<seq<T>>, p: T, touches: (T, T) -> bool): seq<T>
  {
    if gs == [] then []
    else (if TouchesGroup(gs[0], p, touches) then gs[0] else []) + TouchedMembers(gs[1..], p, touches)
  }

  /** Adds `p` to the grouping `gs`. If it touches no group it becomes a new last group;
      otherwise the first group it touches becomes that group, then `p`, then the members
      of every later touched group, and those later touched groups disappear. */
  function Insert<T>(gs: seq<seq<T>>, p: T, touches: (T, T) -> bool): (r: seq<seq<T>>)
    ensures |r| <= |gs| + 1
  {
    if gs == [] then [[p]]
    else if TouchesGroup(gs[0], p, touches) then
      [gs[0] + [p] + TouchedMembers(gs[1..], p, touches)] + Untouched(gs[1..], p, touches)
    else [gs[0]] + Insert(gs[1..], p, touches)
  }

  /** Every group kept by `Untouched` is an untouched group of the input. */
  lemma {:induction false} UntouchedMembers<T>(gs: seq<seq<T>>, p: T, touches: (T, T) -> bool)
    ensures forall h :: h in Untouched(gs, p, touches) ==> h in gs && !TouchesGroup(h, p, touches)
  {
    if gs != [] {
      UntouchedMembers(gs[1..], p, touches);
    }
  }

  /** Every member collected by `TouchedMembers` belongs to a touched group of the input. */
  lemma {:induction false} TouchedMembersOrigin<T>(gs: seq<seq<T>>, p: T, touches: (T, T) -> bool)
    ensures forall x :: x in TouchedMembers(gs, p, touches) ==>
      exists g :: g in gs && TouchesGroup(g, p, touches) && x in g
  {
    if gs != [] {
      TouchedMembersOrigin(gs[1..], p, touches);
      forall x | x in TouchedMembers(gs, p, touches)
        ensures exists g :: g in gs && TouchesGroup(g, p, touches) && x in g
      {
        if !(TouchesGroup(gs[0], p, touches) && x in gs[0]) {
          assert x in TouchedMembers(gs[1..], p, touches);
          var g :| g in gs[1..] && TouchesGroup(g, p, touches) && x in g;
          assert g in gs;
        }
      }
    }
  }

  /** The grouping of `ps`: each element, in order, inserted into the groups of the ones
      before it. */
  function Dissolve<T>(ps: seq<T>, touches: (T, T) -> bool): seq<seq<T>>
  {
    if ps == [] then [] else Insert(Dissolve(ps[..|ps| - 1], touches), ps[|ps| - 1], touches)
  }

  /** The grouping of one more element. */
  lemma DissolveNext<T>(ps: seq<T>, i: nat, touches: (T, T) -> bool)
    requires i < |ps|
    ensures Dissolve(ps[..i + 1], touches) == Insert(Dissolve(ps[..i], touches), ps[i], touches)
  {
    assert ps[..i + 1][..i] == ps[..i];
  }

  /** Element `i` touches at most two of the groups formed before it. */
  ghost predicate AtMostTwoTouched<T>(ps: seq<T>, i: nat, touches: (T, T) -> bool)
    requires i < |ps|
  {
    var gs := Dissolve(ps[..i], touches);
    |TouchingIndexes(gs, ps[i], touches, |gs|)| <= 2
  }

  /** The assumption under which the editor's loop is correct (the TODO at the merge):
      no element touches three or more of the groups formed before it. */
  ghost predicate NoThreeWayMerge<T>(ps: seq<T>, touches: (T, T) -> bool)
  {
    forall i :: 0 <= i < |ps| ==> AtMostTwoTouched(ps, i, touches)
  }

  /** All groups concatenated. */
  function Flatten<T>(gs: seq<seq<T>>): seq<T>
  {
    if gs == [] then [] else gs[0] + Flatten(gs[1..])
  }

  ghost predicate AllNonEmpty<T>(gs: seq<seq<T>>)
  {
    forall j :: 0 <= j < |gs| ==> |gs[j]| > 0
  }

  ghost predicate Symmetric<T(!new)>(touches: (T, T) -> bool)
  {
    forall x, y :: touches(x, y) == touches(y, x)
  }

  /** No member of `g` touches a member of `h`. */
  ghost predicate Apart<T>(g: seq<T>, h: seq<T>, touches: (T, T) -> bool)
  {
    forall x, y :: x in g && y in h ==> !touches(x, y)
  }

  /** Distinct groups do not touch each other. */
  ghost predicate Separated<T>(gs: seq<seq<T>>, touches: (T, T) -> bool)
  {
    forall a, b :: 0 <= a < |gs| && 0 <= b < |gs| && a != b ==> Apart(gs[a], gs[b], touches)
  }

  // ---------------------------------------------------------------------------------
  // One insertion, in the terms of the editor's three branches

  lemma {:induction false} NoneTouchedInsert<T>(gs: seq<seq<T>>, p: T, touches: (T, T) -> bool)
    requires NoneTouched(gs, p, touches)
    ensures Untouched(gs, p, touches) == gs
    ensures TouchedMembers(gs, p, touches) == []
    ensures Insert(gs, p, touches) == gs + [[p]]
  {
    if gs != [] {
      NoneTouchedInsert(gs[1..], p, touches);
      assert gs == [gs[0]] + gs[1..];
    }
  }

  /** Insertion passes over a prefix of untouched groups unchanged. */
  lemma {:induction false} InsertSkipsUntouched<T>(gs: seq<seq<T>>, p: T, touches: (T, T) -> bool, a: nat)
    requires a <= |gs| && NoneTouched(gs[..a], p, touches)
    ensures Insert(gs, p, touches) == gs[..a] + Insert(gs[a..], p, touches)
  {
    if a > 0 {
      assert !TouchesGroup(gs[..a][0], p, touches);
      var skipped := gs[1..][..a - 1];
      assert NoneTouched(skipped, p, touches) by {
        forall j | 0 <= j < a - 1 ensures !TouchesGroup(skipped[j], p, touches) {
          assert skipped[j] == gs[..a][j + 1];
        }
      }
      InsertSkipsUntouched(gs[1..], p, touches, a - 1);
      assert gs[1..][a - 1..] == gs[a..];
      assert gs[..a] == [gs[0]] + gs[1..a];
    }
  }

  lemma {:induction false} UntouchedAppend<T>(xs: seq<seq<T>>, ys: seq<seq<T>>, p: T, touches: (T, T) -> bool)
    ensures Untouched(xs + ys, p, touches) == Untouched(xs, p, touches) + Untouched(ys, p, touches)
  {
    if xs == [] {
      assert xs + ys == ys;
    } else {
      assert (xs + ys)[1..] == xs[1..] + ys;
      UntouchedAppend(xs[1..], ys, p, touches);
    }
  }

  lemma {:induction false} TouchedMembersAppend<T>(xs: seq<seq<T>>, ys: seq<seq<T>>, p: T, touches: (T, T) -> bool)
    ensures TouchedMembers(xs + ys, p, touches) == TouchedMembers(xs, p, touches) + TouchedMembers(ys, p, touches)
  {
    if xs == [] {
      assert xs + ys == ys;
    } else {
      assert (xs + ys)[1..] == xs[1..] + ys;
      TouchedMembersAppend(xs[1..], ys, p, touches);
    }
  }

  /** The groups from the first touched one on, when it is at index `a`. */
  lemma InsertAtFirstTouched<T>(gs: seq<seq<T>>, p: T, touches: (T, T) -> bool, a: nat)
    requires a < |gs| && NoneTouched(gs[..a], p, touches) && TouchesGroup(gs[a], p, touches)
    ensures Insert(gs, p, touches) ==
      gs[..a] + [gs[a] + [p] + TouchedMembers(gs[a + 1..], p, touches)] + Untouched(gs[a + 1..], p, touches)
  {
    InsertSkipsUntouched(gs, p, touches, a);
    assert gs[a..][0] == gs[a] && gs[a..][1..] == gs[a + 1..];
  }

  lemma UpdateAsSlices<X>(s: seq<X>, a: nat, v: X)
    requires a < |s|
    ensures s[a := v] == s[..a] + [v] + s[a + 1..]
  {
  }

  lemma RemoveAsSlices<X>(s: seq<X>, a: nat, b: nat, v: X)
    requires a < b < |s|
    ensures s[a := v][..b] + s[a := v][b + 1..] == s[..a] + [v] + (s[a + 1..b] + s[b + 1..])
  {
  }

  /** A new element touching no group becomes a new singleton group at the end. */
  lemma InsertNewGroup<T>(gs: seq<seq<T>>, p: T, touches: (T, T) -> bool)
    requires TouchingIndexes(gs, p, touches, |gs|) == []
    ensures Insert(gs, p, touches) == gs + [[p]]
  {
    assert NoneTouched(gs, p, touches) by {
      forall j | 0 <= j < |gs| ensures !TouchesGroup(gs[j], p, touches) {
        assert j !in TouchingIndexes(gs, p, touches, |gs|);
      }
    }
    NoneTouchedInsert(gs, p, touches);
  }

  /** `idx` lists exactly the indexes of the groups `p` touches, in increasing order: the
      postcondition of `TouchingIndexes`, for lemmas that read it without the function. */
  ghost predicate IndexesOfTouched<T>(idx: seq<nat>, gs: seq<seq<T>>, p: T, touches: (T, T) -> bool)
  {
    (forall j {:trigger j in idx} :: j in idx <==> 0 <= j < |gs| && TouchesGroup(gs[j], p, touches)) &&
    (forall i, k :: 0 <= i < k < |idx| ==> idx[i] < idx[k])
  }

  /** The scan's result, read as `IndexesOfTouched`. */
  lemma TouchingIndexesListed<T>(gs: seq<seq<T>>, p: T, touches: (T, T) -> bool)
    ensures IndexesOfTouched(TouchingIndexes(gs, p, touches, |gs|), gs, p, touches)
  {
  }

  /** The group a new element touches, when it touches exactly one. */
  lemma TouchedOnly<T>(gs: seq<seq<T>>, p: T, touches: (T, T) -> bool, idx: seq<nat>, a: nat)
    requires IndexesOfTouched(idx, gs, p, touches) && idx == [a]
    ensures a < |gs| && TouchesGroup(gs[a], p, touches)
    ensures forall j :: 0 <= j < |gs| && j != a ==> !TouchesGroup(gs[j], p, touches)
  {
    assert a in idx;
    forall j | 0 <= j < |gs| && j != a ensures !TouchesGroup(gs[j], p, touches) {
      assert j !in idx;
    }
  }

  /** Joining the one touched group at index `a`, the groups around it untouched. */
  lemma JoinAt<T>(gs: seq<seq<T>>, p: T, touches: (T, T) -> bool, a: nat)
    requires a < |gs| && TouchesGroup(gs[a], p, touches)
    requires NoneTouched(gs[..a], p, touches) && NoneTouched(gs[a + 1..], p, touches)
    ensures Insert(gs, p, touches) == gs[a := gs[a] + [p]]
  {
    InsertAtFirstTouched(gs, p, touches, a);
    NoneTouchedInsert(gs[a + 1..], p, touches);
    var joined := gs[a] + [p];
    assert joined + TouchedMembers(gs[a + 1..], p, touches) == joined;
    UpdateAsSlices(gs, a, joined);
  }

  /** A new element touching exactly one group is appended to the end of that group. */
  lemma InsertJoinGroup<T>(gs: seq<seq<T>>, p: T, touches: (T, T) -> bool)
    requires |TouchingIndexes(gs, p, touches, |gs|)| == 1
    ensures var a := TouchingIndexes(gs, p, touches, |gs|)[0];
      a < |gs| && Insert(gs, p, touches) == gs[a := gs[a] + [p]]
  {
    var idx := TouchingIndexes(gs, p, touches, |gs|);
    var a := idx[0];
    assert idx == [a];
    TouchingIndexesListed(gs, p, touches);
    TouchedOnly(gs, p, touches, idx, a);
    NoneTouchedSlice(gs, p, touches, 0, a);
    assert gs[..a] == gs[0..a];
    NoneTouchedSlice(gs, p, touches, a + 1, |gs|);
    assert gs[a + 1..] == gs[a + 1..|gs|];
    JoinAt(gs, p, touches, a);
  }

  /** Splitting groups around the single touched one. */
  lemma SplitAroundOne<T>(mid: seq<seq<T>>, g: seq<T>, tail: seq<seq<T>>, p: T, touches: (T, T) -> bool)
    requires NoneTouched(mid, p, touches) && NoneTouched(tail, p, touches) && TouchesGroup(g, p, touches)
    ensures Untouched(mid + [g] + tail, p, touches) == mid + tail
    ensures TouchedMembers(mid + [g] + tail, p, touches) == g
  {
    NoneTouchedInsert(mid, p, touches);
    NoneTouchedInsert(tail, p, touches);
    UntouchedAroundOne(mid, g, tail, p, touches);
    TouchedAroundOne(mid, g, tail, p, touches);
  }

  lemma UntouchedAroundOne<T>(mid: seq<seq<T>>, g: seq<T>, tail: seq<seq<T>>, p: T, touches: (T, T) -> bool)
    requires Untouched(mid, p, touches) == mid && Untouched(tail, p, touches) == tail
    requires TouchesGroup(g, p, touches)
    ensures Untouched(mid + [g] + tail, p, touches) == mid + tail
  {
    assert [g][1..] == [];
    UntouchedAppend(mid + [g], tail, p, touches);
    UntouchedAppend(mid, [g], p, touches);
    assert Untouched([g], p, touches) == [];
    assert mid + [] == mid;
  }

  lemma TouchedAroundOne<T>(mid: seq<seq<T>>, g: seq<T>, tail: seq<seq<T>>, p: T, touches: (T, T) -> bool)
    requires TouchedMembers(mid, p, touches) == [] && TouchedMembers(tail, p, touches) == []
    requires TouchesGroup(g, p, touches)
    ensures TouchedMembers(mid + [g] + tail, p, touches) == g
  {
    assert [g][1..] == [];
    TouchedMembersAppend(mid + [g], tail, p, touches);
    TouchedMembersAppend(mid, [g], p, touches);
    assert TouchedMembers([g], p, touches) == g + [];
    assert [] + g + [] == g;
  }

  /** The groups a new element touches, when it touches exactly two. */
  lemma TouchedExactly<T>(gs: seq<seq<T>>, p: T, touches: (T, T) -> bool, idx: seq<nat>, a: nat, b: nat)
    requires IndexesOfTouched(idx, gs, p, touches) && idx == [a, b]
    ensures a < b < |gs|
    ensures TouchesGroup(gs[a], p, touches) && TouchesGroup(gs[b], p, touches)
    ensures forall j :: 0 <= j < |gs| && j != a && j != b ==> !TouchesGroup(gs[j], p, touches)
  {
    assert idx[0] == a && idx[1] == b;
    assert a in idx && b in idx;
    forall j | 0 <= j < |gs| && j != a && j != b ensures !TouchesGroup(gs[j], p, touches) {
      assert j !in idx;
    }
  }

  /** A slice of untouched groups. */
  lemma NoneTouchedSlice<T>(gs: seq<seq<T>>, p: T, touches: (T, T) -> bool, lo: nat, hi: nat)
    requires lo <= hi <= |gs|
    requires forall j :: lo <= j < hi ==> !TouchesGroup(gs[j], p, touches)
    ensures NoneTouched(gs[lo..hi], p, touches)
  {
    var s := gs[lo..hi];
    forall j | 0 <= j < |s| ensures !TouchesGroup(s[j], p, touches) {
      assert s[j] == gs[lo + j];
    }
  }

  /** The groups before, between and after the two touched ones are untouched. */
  lemma AroundTwoUntouched<T>(gs: seq<seq<T>>, p: T, touches: (T, T) -> bool, a: nat, b: nat)
    requires a < b < |gs|
    requires forall j :: 0 <= j < |gs| && j != a && j != b ==> !TouchesGroup(gs[j], p, touches)
    ensures NoneTouched(gs[..a], p, touches) && NoneTouched(gs[a + 1..b], p, touches) && NoneTouched(gs[b + 1..], p, touches)
  {
    NoneTouchedSlice(gs, p, touches, 0, a);
    assert gs[..a] == gs[0..a];
    NoneTouchedSlice(gs, p, touches, a + 1, b);
    NoneTouchedSlice(gs, p, touches, b + 1, |gs|);
    assert gs[b + 1..] == gs[b + 1..|gs|];
  }

  /** The slice from `lo` on, around the element at `b`. */
  lemma SliceAround<X>(s: seq<X>, lo: nat, b: nat)
    requires lo <= b < |s|
    ensures s[lo..] == s[lo..b] + [s[b]] + s[b + 1..]
  {
  }

  /** Merging the two touched groups at `a` and `b`, as one list of groups. */
  lemma MergeTwoSlices<T>(gs: seq<seq<T>>, p: T, touches: (T, T) -> bool, a: nat, b: nat)
    requires a < b < |gs| && TouchesGroup(gs[a], p, touches) && TouchesGroup(gs[b], p, touches)
    requires NoneTouched(gs[..a], p, touches) && NoneTouched(gs[a + 1..b], p, touches) && NoneTouched(gs[b + 1..], p, touches)
    ensures Insert(gs, p, touches) == gs[..a] + [gs[a] + [p] + gs[b]] + (gs[a + 1..b] + gs[b + 1..])
  {
    var mid, tail := gs[a + 1..b], gs[b + 1..];
    InsertAtFirstTouched(gs, p, touches, a);
    SliceAround(gs, a + 1, b);
    SplitAroundOne(mid, gs[b], tail, p, touches);
  }

  lemma MergeTwoAt<T>(gs: seq<seq<T>>, p: T, touches: (T, T) -> bool, a: nat, b: nat)
    requires a < b < |gs| && TouchesGroup(gs[a], p, touches) && TouchesGroup(gs[b], p, touches)
    requires NoneTouched(gs[..a], p, touches) && NoneTouched(gs[a + 1..b], p, touches) && NoneTouched(gs[b + 1..], p, touches)
    ensures Insert(gs, p, touches) == gs[a := gs[a] + [p] + gs[b]][..b] + gs[a := gs[a] + [p] + gs[b]][b + 1..]
  {
    MergeTwoSlices(gs, p, touches, a, b);
    RemoveAsSlices(gs, a, b, gs[a] + [p] + gs[b]);
  }

  /** A new element touching exactly two groups merges them: the earlier becomes its old
      members, the new element, then the later group's members; the later group is gone. */
  lemma InsertMergeTwo<T>(gs: seq<seq<T>>, p: T, touches: (T, T) -> bool)
    requires |TouchingIndexes(gs, p, touches, |gs|)| == 2
    ensures var idx := TouchingIndexes(gs, p, touches, |gs|); idx[0] < idx[1] < |gs|
    ensures var idx := TouchingIndexes(gs, p, touches, |gs|);
      var a, b := idx[0], idx[1];
      var merged := gs[a := gs[a] + [p] + gs[b]];
      Insert(gs, p, touches) == merged[..b] + merged[b + 1..] && |Insert(gs, p, touches)| == |gs| - 1
  {
    var idx := TouchingIndexes(gs, p, touches, |gs|);
    var a, b := idx[0], idx[1];
    assert idx == [a, b];
    TouchingIndexesListed(gs, p, touches);
    TouchedExactly(gs, p, touches, idx, a, b);
    AroundTwoUntouched(gs, p, touches, a, b);
    MergeTwoAt(gs, p, touches, a, b);
  }

  // ---------------------------------------------------------------------------------
  // The grouping is a partition of the input

  lemma {:induction false} FlattenAppend<T>(xs: seq<seq<T>>, ys: seq<seq<T>>)
    ensures Flatten(xs + ys) == Flatten(xs) + Flatten(ys)
  {
    if xs == [] {
      assert xs + ys == ys;
    } else {
      assert (xs + ys)[1..] == xs[1..] + ys;
      FlattenAppend(xs[1..], ys);
    }
  }

  /** Splitting groups into touched and untouched loses and duplicates nothing. */
  lemma {:induction false} SplitPreservesMembers<T>(gs: seq<seq<T>>, p: T, touches: (T, T) -> bool)
    ensures multiset(Flatten(Untouched(gs, p, touches))) + multiset(TouchedMembers(gs, p, touches))
         == multiset(Flatten(gs))
  {
    if gs != [] {
      var rest := gs[1..];
      SplitPreservesMembers(rest, p, touches);
      assert Flatten(gs) == gs[0] + Flatten(rest);
      if TouchesGroup(gs[0], p, touches) {
        assert Untouched(gs, p, touches) == Untouched(rest, p, touches);
        assert TouchedMembers(gs, p, touches) == gs[0] + TouchedMembers(rest, p, touches);
      } else {
        assert [gs[0]][1..] == [];
        FlattenAppend([gs[0]], Untouched(rest, p, touches));
        assert Untouched(gs, p, touches) == [gs[0]] + Untouched(rest, p, touches);
        assert TouchedMembers(gs, p, touches) == TouchedMembers(rest, p, touches);
      }
    }
  }

  /** The branch of insertion that joins the first group and everything else it touches. */
  lemma JoinAddsOne<T>(gs: seq<seq<T>>, p: T, touches: (T, T) -> bool)
    requires gs != [] && TouchesGroup(gs[0], p, touches)
    ensures multiset(Flatten(Insert(gs, p, touches))) == multiset(Flatten(gs)) + multiset{p}
  {
    var rest := gs[1..];
    var m := gs[0] + [p] + TouchedMembers(rest, p, touches);
    var u := Untouched(rest, p, touches);
    assert Insert(gs, p, touches) == [m] + u;
    FlattenAppend([m], u);
    assert [m][1..] == [];
    assert Flatten([m] + u) == m + Flatten(u);
    SplitPreservesMembers(rest, p, touches);
    assert Flatten(gs) == gs[0] + Flatten(rest);
    assert multiset(m) == multiset(gs[0]) + multiset{p} + multiset(TouchedMembers(rest, p, touches));
  }

  /** Insertion adds exactly the new element to the grouped members. */
  lemma {:induction false} InsertAddsOne<T>(gs: seq<seq<T>>, p: T, touches: (T, T) -> bool)
    ensures multiset(Flatten(Insert(gs, p, touches))) == multiset(Flatten(gs)) + multiset{p}
  {
    if gs == [] {
      assert [[p]][1..] == [];
    } else if TouchesGroup(gs[0], p, touches) {
      JoinAddsOne(gs, p, touches);
    } else {
      var rest := Insert(gs[1..], p, touches);
      InsertAddsOne(gs[1..], p, touches);
      assert Insert(gs, p, touches) == [gs[0]] + rest;
      FlattenAppend([gs[0]], rest);
      assert [gs[0]][1..] == [];
      assert Flatten([gs[0]] + rest) == gs[0] + Flatten(rest);
      assert Flatten(gs) == gs[0] + Flatten(gs[1..]);
    }
  }

  /** Every input element is in exactly one group, as many times as it occurs. */
  lemma {:induction false} DissolvePartition<T>(ps: seq<T>, touches: (T, T) -> bool)
    ensures multiset(Flatten(Dissolve(ps, touches))) == multiset(ps)
  {
    if ps != [] {
      var init := ps[..|ps| - 1];
      DissolvePartition(init, touches);
      InsertAddsOne(Dissolve(init, touches), ps[|ps| - 1], touches);
      assert ps == init + [ps[|ps| - 1]];
    }
  }

  /** Insertion keeps every group non-empty. */
  lemma {:induction false} InsertNonEmpty<T>(gs: seq<seq<T>>, p: T, touches: (T, T) -> bool)
    requires AllNonEmpty(gs)
    ensures AllNonEmpty(Insert(gs, p, touches))
  {
    var r := Insert(gs, p, touches);
    if gs != [] && !TouchesGroup(gs[0], p, touches) {
      InsertNonEmpty(gs[1..], p, touches);
      assert r == [gs[0]] + Insert(gs[1..], p, touches);
      forall j | 0 <= j < |r| ensures |r[j]| > 0 {
        if j > 0 { assert r[j] == Insert(gs[1..], p, touches)[j - 1]; }
      }
    } else if gs != [] {
      var u := Untouched(gs[1..], p, touches);
      UntouchedMembers(gs[1..], p, touches);
      assert r == [gs[0] + [p] + TouchedMembers(gs[1..], p, touches)] + u;
      forall j | 0 <= j < |r| ensures |r[j]| > 0 {
        if j > 0 {
          assert r[j] == u[j - 1] && u[j - 1] in gs[1..];
        }
      }
    }
  }

  /** No group is empty, and there are never more groups than input elements. */
  lemma {:induction false} DissolveShape<T>(ps: seq<T>, touches: (T, T) -> bool)
    ensures AllNonEmpty(Dissolve(ps, touches))
    ensures |Dissolve(ps, touches)| <= |ps|
  {
    if ps != [] {
      var init := ps[..|ps| - 1];
      DissolveShape(init, touches);
      InsertNonEmpty(Dissolve(init, touches), ps[|ps| - 1], touches);
    }
  }

  // ---------------------------------------------------------------------------------
  // Distinct groups do not touch

  lemma {:induction false} UntouchedSeparated<T>(gs: seq<seq<T>>, p: T, touches: (T, T) -> bool)
    requires Separated(gs, touches)
    ensures Separated(Untouched(gs, p, touches), touches)
  {
    if gs != [] {
      var rest := gs[1..];
      assert Separated(rest, touches) by {
        forall a, b | 0 <= a < |rest| && 0 <= b < |rest| && a != b
          ensures Apart(rest[a], rest[b], touches)
        {
          assert Apart(gs[a + 1], gs[b + 1], touches);
        }
      }
      UntouchedSeparated(rest, p, touches);
      if !TouchesGroup(gs[0], p, touches) {
        var u := Untouched(rest, p, touches);
        UntouchedMembers(rest, p, touches);
        forall k | 0 <= k < |u| ensures Apart(gs[0], u[k], touches) && Apart(u[k], gs[0], touches) {
          assert u[k] in rest;
          var j :| 0 <= j < |rest| && rest[j] == u[k];
          assert Apart(gs[0], gs[j + 1], touches) && Apart(gs[j + 1], gs[0], touches);
        }
        SeparatedCons(gs[0], u, touches);
      }
    }
  }

  /** A group apart from every group of a separated list may be put in front of it. */
  lemma SeparatedCons<T>(g: seq<T>, gs: seq<seq<T>>, touches: (T, T) -> bool)
    requires Separated(gs, touches)
    requires forall k :: 0 <= k < |gs| ==> Apart(g, gs[k], touches) && Apart(gs[k], g, touches)
    ensures Separated([g] + gs, touches)
  {
    var r := [g] + gs;
    forall a, b | 0 <= a < |r| && 0 <= b < |r| && a != b ensures Apart(r[a], r[b], touches) {
      if a > 0 && b > 0 {
        assert r[a] == gs[a - 1] && r[b] == gs[b - 1];
      } else if a == 0 {
        assert r[b] == gs[b - 1];
      } else {
        assert r[a] == gs[a - 1];
      }
    }
  }

  /** When `p` touches no member of `h` and touching is symmetric, `p` is apart from `h`. */
  lemma UntouchedApart<T(!new)>(h: seq<T>, p: T, touches: (T, T) -> bool)
    requires Symmetric(touches) && !TouchesGroup(h, p, touches)
    ensures Apart([p], h, touches) && Apart(h, [p], touches)
  {
    forall x, y | x in [p] && y in h ensures !touches(x, y) {
      var k :| 0 <= k < |h| && h[k] == y;
    }
    forall x, y | x in h && y in [p] ensures !touches(x, y) {
      var k :| 0 <= k < |h| && h[k] == x;
      assert touches(x, y) == touches(y, x);
    }
  }

  /** The merged group, made of the first touched group, `p` and the later touched groups,
      is apart from every untouched group. */
  lemma MergedApart<T(!new)>(gs: seq<seq<T>>, p: T, touches: (T, T) -> bool)
    requires Symmetric(touches) && Separated(gs, touches) && gs != [] && TouchesGroup(gs[0], p, touches)
    ensures forall k :: 0 <= k < |Untouched(gs[1..], p, touches)| ==>
      Apart(gs[0] + [p] + TouchedMembers(gs[1..], p, touches), Untouched(gs[1..], p, touches)[k], touches) &&
      Apart(Untouched(gs[1..], p, touches)[k], gs[0] + [p] + TouchedMembers(gs[1..], p, touches), touches)
  {
    var rest := gs[1..];
    var m := gs[0] + [p] + TouchedMembers(rest, p, touches);
    var u := Untouched(rest, p, touches);
    UntouchedMembers(rest, p, touches);
    TouchedMembersOrigin(rest, p, touches);
    forall k | 0 <= k < |u| ensures Apart(m, u[k], touches) && Apart(u[k], m, touches) {
      var h := u[k];
      assert h in rest && !TouchesGroup(h, p, touches);
      var jh :| 0 <= jh < |rest| && rest[jh] == h;
      UntouchedApart(h, p, touches);
      forall x, y | x in m && y in h ensures !touches(x, y) && !touches(y, x) {
        if x in gs[0] {
          assert Apart(gs[0], gs[jh + 1], touches) && Apart(gs[jh + 1], gs[0], touches);
        } else if x == p {
          assert x in [p];
        } else {
          assert x in TouchedMembers(rest, p, touches);
          var g :| g in rest && TouchesGroup(g, p, touches) && x in g;
          var jg :| 0 <= jg < |rest| && rest[jg] == g;
          assert jg != jh;
          assert Apart(gs[jg + 1], gs[jh + 1], touches) && Apart(gs[jh + 1], gs[jg + 1], touches);
        }
      }
    }
  }

  /** Every member of a group after insertion is the new element or an old member. */
  lemma {:induction false} InsertMembers<T>(gs: seq<seq<T>>, p: T, touches: (T, T) -> bool)
    ensures forall h, y :: h in Insert(gs, p, touches) && y in h ==> y == p || exists g :: g in gs && y in g
  {
    if gs != [] && !TouchesGroup(gs[0], p, touches) {
      InsertMembers(gs[1..], p, touches);
      forall h, y | h in Insert(gs, p, touches) && y in h ensures y == p || exists g :: g in gs && y in g {
        if h != gs[0] {
          assert h in Insert(gs[1..], p, touches);
          if y != p {
            var g :| g in gs[1..] && y in g;
            assert g in gs;
          }
        }
      }
    } else if gs != [] {
      var rest := gs[1..];
      UntouchedMembers(rest, p, touches);
      TouchedMembersOrigin(rest, p, touches);
      forall h, y | h in Insert(gs, p, touches) && y in h ensures y == p || exists g :: g in gs && y in g {
        if h in Untouched(rest, p, touches) {
          assert h in rest;
          assert h in gs;
        } else {
          assert h == gs[0] + [p] + TouchedMembers(rest, p, touches);
          if y in TouchedMembers(rest, p, touches) {
            var g :| g in rest && TouchesGroup(g, p, touches) && y in g;
            assert g in gs;
          }
        }
      }
    }
  }

  /** Insertion keeps distinct groups apart. */
  lemma {:induction false} InsertSeparated<T(!new)>(gs: seq<seq<T>>, p: T, touches: (T, T) -> bool)
    requires Symmetric(touches) && Separated(gs, touches)
    ensures Separated(Insert(gs, p, touches), touches)
  {
    if gs == [] {
    } else {
      var rest := gs[1..];
      assert Separated(rest, touches) by {
        forall a, b | 0 <= a < |rest| && 0 <= b < |rest| && a != b
          ensures Apart(rest[a], rest[b], touches)
        {
          assert Apart(gs[a + 1], gs[b + 1], touches);
        }
      }
      if TouchesGroup(gs[0], p, touches) {
        UntouchedSeparated(rest, p, touches);
        var m := gs[0] + [p] + TouchedMembers(rest, p, touches);
        var u := Untouched(rest, p, touches);
        MergedApart(gs, p, touches);
        assert forall k :: 0 <= k < |u| ==> Apart(m, u[k], touches) && Apart(u[k], m, touches);
        SeparatedCons(m, u, touches);
      } else {
        InsertSeparated(rest, p, touches);
        InsertMembers(rest, p, touches);
        var r := Insert(rest, p, touches);
        UntouchedApart(gs[0], p, touches);
        forall k | 0 <= k < |r| ensures Apart(gs[0], r[k], touches) && Apart(r[k], gs[0], touches) {
          forall x, y | x in gs[0] && y in r[k] ensures !touches(x, y) && !touches(y, x) {
            if y == p {
              assert y in [p];
            } else {
              var g :| g in rest && y in g;
              var j :| 0 <= j < |rest| && rest[j] == g;
              assert Apart(gs[0], gs[j + 1], touches) && Apart(gs[j + 1], gs[0], touches);
            }
          }
        }
        SeparatedCons(gs[0], r, touches);
      }
    }
  }

  /** With a symmetric touching relation, no member of one group touches a member of
      another: the groups are unions of connected components. */
  lemma {:induction false} DissolveSeparated<T(!new)>(ps: seq<T>, touches: (T, T) -> bool)
    requires Symmetric(touches)
    ensures Separated(Dissolve(ps, touches), touches)
  {
    if ps != [] {
      var init := ps[..|ps| - 1];
      DissolveSeparated(init, touches);
      InsertSeparated(Dissolve(init, touches), ps[|ps| - 1], touches);
    }
  }

  // ---------------------------------------------------------------------------------
  // Every group is connected

  /** The set `s` cuts `g`: some member of `g` is in `s` and some is not. */
  ghost predicate Splits<T>(g: seq<T>, s: set<T>)
  {
    (exists x :: x in g && x in s) && (exists y :: y in g && y !in s)
  }

  /** Some member of `g` in `s` and some member of `g` outside `s` touch. */
  ghost predicate TouchAcross<T>(g: seq<T>, s: set<T>, touches: (T, T) -> bool)
  {
    exists x, y :: x in g && x in s && y in g && y !in s && (touches(x, y) || touches(y, x))
  }

  /** The members of `g` touch each other in a chain: however they are split into two
      non-empty sides, a member of one side touches a member of the other. */
  ghost predicate Linked<T(!new)>(g: seq<T>, touches: (T, T) -> bool)
  {
    forall s: set<T> :: Splits(g, s) ==> TouchAcross(g, s, touches)
  }

  /** Every group of `gs` is linked. */
  ghost predicate AllLinked<T(!new)>(gs: seq<seq<T>>, touches: (T, T) -> bool)
  {
    forall g :: g in gs ==> Linked(g, touches)
  }

  /** A linked group touched by `p` whose members all belong to `m`. */
  ghost predicate Spoke<T(!new)>(g: seq<T>, p: T, m: seq<T>, touches: (T, T) -> bool)
  {
    Linked(g, touches) && TouchesGroup(g, p, touches) && forall y :: y in g ==> y in m
  }

  /** A single element is linked: it cannot be split. */
  lemma SingletonLinked<T(!new)>(p: T, touches: (T, T) -> bool)
    ensures Linked([p], touches)
  {
    forall s: set<T> ensures !Splits([p], s) {
      if p in s {
        assert forall y :: y in [p] ==> y in s;
      } else {
        assert forall x :: x in [p] ==> x !in s;
      }
    }
  }

  /** A cut of `m` that separates `p` from a member of a spoke crosses an edge of `m`. */
  lemma SpokeCrossing<T(!new)>(m: seq<T>, p: T, g: seq<T>, s: set<T>, w: T, touches: (T, T) -> bool)
    requires p in m && Spoke(g, p, m, touches) && w in g && (p in s <==> w !in s)
    ensures TouchAcross(m, s, touches)
  {
    var k :| 0 <= k < |g| && touches(p, g[k]);
    var z := g[k];
    assert z in m;
    if p in s && z !in s {
      assert p in m && p in s && z in m && z !in s && touches(p, z);
    } else if p !in s && z in s {
      assert z in m && z in s && p in m && p !in s && touches(p, z);
    } else {
      assert Splits(g, s) by {
        if p in s { assert z in g && z in s && w in g && w !in s; }
        else { assert w in g && w in s && z in g && z !in s; }
      }
      var x, y :| x in g && x in s && y in g && y !in s && (touches(x, y) || touches(y, x));
      assert x in m && y in m;
    }
  }

  /** Two distinct elements that do not touch either way are not linked. */
  lemma ApartPairNotLinked<T(!new)>(x: T, y: T, touches: (T, T) -> bool)
    requires x != y && !touches(x, y) && !touches(y, x)
    ensures !Linked([x, y], touches)
  {
    var s := {x};
    assert x in [x, y] && y in [x, y];
    assert Splits([x, y], s);
    assert forall a, b :: a in [x, y] && a in s && b in [x, y] && b !in s ==> a == x && b == y;
  }

  /** A group made of `p` and the members of linked groups that `p` touches is linked. */
  lemma StarLinked<T(!new)>(m: seq<T>, p: T, touches: (T, T) -> bool)
    requires p in m
    requires forall x :: x in m && x != p ==> exists g :: Spoke(g, p, m, touches) && x in g
    ensures Linked(m, touches)
  {
    forall s: set<T> | Splits(m, s) ensures TouchAcross(m, s, touches) {
      if p in s {
        var y :| y in m && y !in s;
        var g :| Spoke(g, p, m, touches) && y in g;
        SpokeCrossing(m, p, g, s, y, touches);
      } else {
        var x :| x in m && x in s;
        var g :| Spoke(g, p, m, touches) && x in g;
        SpokeCrossing(m, p, g, s, x, touches);
      }
    }
  }

  /** Every member of a touched group is collected by `TouchedMembers`. */
  lemma {:induction false} TouchedMembersComplete<T>(gs: seq<seq<T>>, p: T, touches: (T, T) -> bool)
    ensures forall g, y :: g in gs && TouchesGroup(g, p, touches) && y in g ==> y in TouchedMembers(gs, p, touches)
  {
    if gs != [] {
      TouchedMembersComplete(gs[1..], p, touches);
      forall g, y | g in gs && TouchesGroup(g, p, touches) && y in g
        ensures y in TouchedMembers(gs, p, touches)
      {
        if g != gs[0] {
          assert g in gs[1..];
        }
      }
    }
  }

  /** The group formed when `p` joins the first group it touches and every later one. */
  lemma MergedLinked<T(!new)>(gs: seq<seq<T>>, p: T, touches: (T, T) -> bool)
    requires AllLinked(gs, touches) && gs != [] && TouchesGroup(gs[0], p, touches)
    ensures Linked(gs[0] + [p] + TouchedMembers(gs[1..], p, touches), touches)
  {
    var rest := gs[1..];
    var tm := TouchedMembers(rest, p, touches);
    var m := gs[0] + [p] + tm;
    TouchedMembersOrigin(rest, p, touches);
    TouchedMembersComplete(rest, p, touches);
    assert Spoke(gs[0], p, m, touches);
    forall x | x in m && x != p ensures exists g :: Spoke(g, p, m, touches) && x in g {
      if x !in gs[0] {
        assert x in tm;
        var g :| g in rest && TouchesGroup(g, p, touches) && x in g;
        assert g in gs;
        assert Spoke(g, p, m, touches);
      }
    }
    StarLinked(m, p, touches);
  }

  /** Insertion keeps every group linked. */
  lemma {:induction false} InsertLinked<T(!new)>(gs: seq<seq<T>>, p: T, touches: (T, T) -> bool)
    requires AllLinked(gs, touches)
    ensures AllLinked(Insert(gs, p, touches), touches)
  {
    if gs == [] {
      SingletonLinked(p, touches);
    } else if TouchesGroup(gs[0], p, touches) {
      var rest := gs[1..];
      MergedLinked(gs, p, touches);
      UntouchedMembers(rest, p, touches);
      forall h | h in Untouched(rest, p, touches) ensures Linked(h, touches) {
        assert h in gs;
      }
    } else {
      var rest := gs[1..];
      assert AllLinked(rest, touches) by {
        forall h | h in rest ensures Linked(h, touches) { assert h in gs; }
      }
      InsertLinked(rest, p, touches);
    }
  }

  /** Every group of the grouping is linked: its members touch each other in a chain. */
  lemma {:induction false} DissolveLinked<T(!new)>(ps: seq<T>, touches: (T, T) -> bool)
    ensures AllLinked(Dissolve(ps, touches), touches)
  {
    if ps != [] {
      var init := ps[..|ps| - 1];
      DissolveLinked(init, touches);
      InsertLinked(Dissolve(init, touches), ps[|ps| - 1], touches);
    }
  }

  /** With a symmetric touching relation, the groups are exactly the connected components
      of the touching graph on the input: each is linked, and no two touch. */
  lemma DissolveComponents<T(!new)>(ps: seq<T>, touches: (T, T) -> bool)
    requires Symmetric(touches)
    ensures AllLinked(Dissolve(ps, touches), touches) && Separated(Dissolve(ps, touches), touches)
  {
    DissolveLinked(ps, touches);
    DissolveSeparated(ps, touches);
  }

  // ---------------------------------------------------------------------------------
  // The merge as written, beyond two touched groups

  /** The merge loop as written: the first touched group absorbs `gs[rest[0]]`, which is
      then spliced out, and so on, with the indexes in `rest` taken as they were before
      any splice. `None` when an index has run past the end of the shortened list, where
      the source concatenates `undefined`. */
  function MergeAsWritten<T>(gs: seq<seq<T>>, first: nat, rest: seq<nat>): (r: Option<seq<seq<T>>>)
    requires first < |gs| && forall k :: 0 <= k < |rest| ==> first < rest[k]
    ensures r.Some? ==> |r.value| == |gs| - |rest|
    decreases |rest|
  {
    if rest == [] then Some(gs)
    else if |gs| <= rest[0] then None
    else
      var merged := gs[first := gs[first] + gs[rest[0]]];
      MergeAsWritten(merged[..rest[0]] + merged[rest[0] + 1..], first, rest[1..])
  }

  /** One pass of the outer loop as written: scan, then push, join or merge. A completed
      pass leaves the untouched groups and one merged group. */
  function InsertAsWritten<T>(gs: seq<seq<T>>, p: T, touches: (T, T) -> bool): (r: Option<seq<seq<T>>>)
    ensures var idx := TouchingIndexes(gs, p, touches, |gs|);
      (idx == [] ==> r == Some(gs + [[p]])) &&
      (r.Some? && idx != [] ==> |r.value| == |gs| + 1 - |idx|)
  {
    var idx := TouchingIndexes(gs, p, touches, |gs|);
    if |idx| == 0 then Some(gs + [[p]])
    else
      var first := idx[0];
      assert first in idx;
      var pushed := gs[first := gs[first] + [p]];
      MergeAsWritten(pushed, first, idx[1..])
  }

  /** The members of a list of groups with one group singled out. */
  lemma FlattenAround<T>(before: seq<seq<T>>, g: seq<T>, after: seq<seq<T>>)
    ensures Flatten(before + [g] + after) == Flatten(before) + g + Flatten(after)
  {
    FlattenAppend(before + [g], after);
    FlattenAppend(before, [g]);
    assert [g][1..] == [];
    assert Flatten([g]) == g + [];
  }

  /** The members of the list after the group at `b` is moved into the one at `a`. */
  lemma FlattenMerged<T>(gs: seq<seq<T>>, a: nat, b: nat)
    requires a < b < |gs|
    ensures Flatten(gs[a := gs[a] + gs[b]][..b] + gs[a := gs[a] + gs[b]][b + 1..])
         == Flatten(gs[..a]) + (gs[a] + gs[b]) + (Flatten(gs[a + 1..b]) + Flatten(gs[b + 1..]))
  {
    var before, between, after := gs[..a], gs[a + 1..b], gs[b + 1..];
    RemoveAsSlices(gs, a, b, gs[a] + gs[b]);
    FlattenAround(before, gs[a] + gs[b], between + after);
    FlattenAppend(between, after);
  }

  /** The members of the list, with the groups at `a` and `b` singled out. */
  lemma FlattenTwoAround<T>(gs: seq<seq<T>>, a: nat, b: nat)
    requires a < b < |gs|
    ensures Flatten(gs) == Flatten(gs[..a]) + gs[a] + (Flatten(gs[a + 1..b]) + gs[b] + Flatten(gs[b + 1..]))
  {
    var before, between, after := gs[..a], gs[a + 1..b], gs[b + 1..];
    SliceAround(gs, 0, a);
    assert gs[0..] == gs && gs[0..a] == before;
    SliceAround(gs, a + 1, b);
    FlattenAround(before, gs[a], gs[a + 1..]);
    FlattenAround(between, gs[b], after);
  }

  /** Moving a group's members into an earlier group keeps the members. */
  lemma MergeOnceKeepsMembers<T>(gs: seq<seq<T>>, a: nat, b: nat)
    requires a < b < |gs|
    ensures multiset(Flatten(gs[a := gs[a] + gs[b]][..b] + gs[a := gs[a] + gs[b]][b + 1..])) == multiset(Flatten(gs))
  {
    FlattenMerged(gs, a, b);
    FlattenTwoAround(gs, a, b);
    MovedKeepsMultiset(Flatten(gs[..a]), gs[a], Flatten(gs[a + 1..b]), gs[b], Flatten(gs[b + 1..]));
  }

  lemma MovedKeepsMultiset<T>(xs: seq<T>, g: seq<T>, ys: seq<T>, h: seq<T>, zs: seq<T>)
    ensures multiset(xs + (g + h) + (ys + zs)) == multiset(xs + g + (ys + h + zs))
  {
    calc {
      multiset(xs + (g + h) + (ys + zs));
      multiset(xs) + multiset(g) + multiset(h) + multiset(ys) + multiset(zs);
      multiset(xs + g + (ys + h + zs));
    }
  }

  /** The merge loop as written moves members between groups but never loses or
      duplicates one. */
  lemma {:induction false} MergeAsWrittenKeepsMembers<T>(gs: seq<seq<T>>, first: nat, rest: seq<nat>)
    requires first < |gs| && forall k :: 0 <= k < |rest| ==> first < rest[k]
    ensures MergeAsWritten(gs, first, rest).Some? ==>
      multiset(Flatten(MergeAsWritten(gs, first, rest).value)) == multiset(Flatten(gs))
    decreases |rest|
  {
    if rest != [] && rest[0] < |gs| {
      var b := rest[0];
      var merged := gs[first := gs[first] + gs[b]];
      var shorter := merged[..b] + merged[b + 1..];
      MergeOnceKeepsMembers(gs, first, b);
      MergeAsWrittenKeepsMembers(shorter, first, rest[1..]);
    }
  }

  /** Pushing `p` onto the group at `k` adds exactly `p` to the members. */
  lemma PushKeepsMembers<T>(gs: seq<seq<T>>, k: nat, p: T)
    requires k < |gs|
    ensures multiset(Flatten(gs[k := gs[k] + [p]])) == multiset(Flatten(gs)) + multiset{p}
  {
    var before, after := gs[..k], gs[k + 1..];
    UpdateAsSlices(gs, k, gs[k] + [p]);
    SliceAround(gs, 0, k);
    assert gs[0..] == gs && gs[0..k] == before;
    FlattenAround(before, gs[k] + [p], after);
    FlattenAround(before, gs[k], after);
  }

  /** A completed pass as written adds exactly the new element to the grouped members,
      even when it merges the wrong groups. */
  lemma InsertAsWrittenAddsOne<T>(gs: seq<seq<T>>, p: T, touches: (T, T) -> bool)
    ensures InsertAsWritten(gs, p, touches).Some? ==>
      multiset(Flatten(InsertAsWritten(gs, p, touches).value)) == multiset(Flatten(gs)) + multiset{p}
  {
    var idx := TouchingIndexes(gs, p, touches, |gs|);
    if |idx| == 0 {
      FlattenAppend(gs, [[p]]);
      assert [[p]][1..] == [];
      assert Flatten([[p]]) == [p] + [];
    } else {
      var first := idx[0];
      assert first in idx;
      var pushed := gs[first := gs[first] + [p]];
      PushKeepsMembers(gs, first, p);
      MergeAsWrittenKeepsMembers(pushed, first, idx[1..]);
    }
  }

  /** One round of the merge loop as written, with nothing after it. */
  lemma MergeAsWrittenOnce<T>(gs: seq<seq<T>>, a: nat, b: nat)
    requires a < b < |gs|
    ensures MergeAsWritten(gs, a, [b]) == Some(gs[a := gs[a] + gs[b]][..b] + gs[a := gs[a] + gs[b]][b + 1..])
  {
    assert [b][1..] == [];
  }

  /** The loop as written, for a new element that touches exactly two groups. */
  lemma AsWrittenMergeTwo<T>(gs: seq<seq<T>>, p: T, touches: (T, T) -> bool)
    requires |TouchingIndexes(gs, p, touches, |gs|)| == 2
    ensures InsertAsWritten(gs, p, touches) == Some(Insert(gs, p, touches))
  {
    var idx := TouchingIndexes(gs, p, touches, |gs|);
    InsertMergeTwo(gs, p, touches);
    var a, b := idx[0], idx[1];
    var pushed := gs[a := gs[a] + [p]];
    assert idx[1..] == [b];
    assert pushed[a := pushed[a] + pushed[b]] == gs[a := gs[a] + [p] + gs[b]];
    MergeAsWrittenOnce(pushed, a, b);
  }

  /** With at most two touched groups, the loop as written is the corrected insertion. */
  lemma InsertAsWrittenUpToTwo<T>(gs: seq<seq<T>>, p: T, touches: (T, T) -> bool)
    requires |TouchingIndexes(gs, p, touches, |gs|)| <= 2
    ensures InsertAsWritten(gs, p, touches) == Some(Insert(gs, p, touches))
  {
    var idx := TouchingIndexes(gs, p, touches, |gs|);
    if |idx| == 0 {
      InsertNewGroup(gs, p, touches);
    } else if |idx| == 1 {
      InsertJoinGroup(gs, p, touches);
      assert idx[1..] == [];
    } else {
      AsWrittenMergeTwo(gs, p, touches);
    }
  }

  /** Touching for the counterexample: 3 touches 0, 1 and 2, and nothing else touches. */
  function TouchesThree(x: int, y: int): bool
  {
    (x == 3 && y < 3) || (y == 3 && x < 3)
  }

  /** The new element 3 touches the first three of four singleton groups. */
  lemma ThreeTouched()
    ensures TouchingIndexes([[0], [1], [2], [4]], 3, TouchesThree, 4) == [0, 1, 2]
  {
    var gs := [[0], [1], [2], [4]];
    assert TouchesThree(3, gs[0][0]) && TouchesThree(3, gs[1][0]) && TouchesThree(3, gs[2][0]);
    assert !TouchesGroup(gs[3], 3, TouchesThree);
  }

  /** The merge loop as written, after 3 has been pushed onto the first group. */
  lemma SplicedMergeAsWritten()
    ensures MergeAsWritten([[0, 3], [1], [2], [4]], 0, [1, 2]) == Some([[0, 3, 1, 4], [2]])
  {
    var pushed := [[0, 3], [1], [2], [4]];
    var once := pushed[0 := [0, 3, 1]];
    assert [0, 3] + [1] == [0, 3, 1] && [0, 3, 1] + [4] == [0, 3, 1, 4];
    assert [2][1..] == [] && [1, 2][1..] == [2];
    assert once == pushed[0 := pushed[0] + pushed[1]];
    var shifted := once[..1] + once[2..];
    assert shifted == [[0, 3, 1], [2], [4]];
    var twice := shifted[0 := [0, 3, 1, 4]];
    assert twice == shifted[0 := shifted[0] + shifted[2]];
    assert twice[..2] + twice[3..] == [[0, 3, 1, 4], [2]];
    assert MergeAsWritten(twice[..2] + twice[3..], 0, []) == Some([[0, 3, 1, 4], [2]]);
    assert MergeAsWritten(shifted, 0, [2]) == Some([[0, 3, 1, 4], [2]]);
  }

  /** The result of the loop as written has two groups that touch. */
  lemma AsWrittenNotSeparated()
    ensures !Separated([[0, 3, 1, 4], [2]], TouchesThree)
  {
    var r := [[0, 3, 1, 4], [2]];
    assert r[0][1] == 3 && r[1][0] == 2 && TouchesThree(3, 2);
    assert !Apart(r[0], r[1], TouchesThree);
  }

  /** As written, the splice after the first merge shifts the third touched group down, so
      the loop merges the untouched fourth group instead and leaves a touched group on its
      own, touching the merged one. */
  lemma ThreeWayMergeAsWritten()
    ensures InsertAsWritten([[0], [1], [2], [4]], 3, TouchesThree) == Some([[0, 3, 1, 4], [2]])
    ensures !Separated([[0, 3, 1, 4], [2]], TouchesThree)
  {
    var gs := [[0], [1], [2], [4]];
    ThreeTouched();
    assert [0, 1, 2][1..] == [1, 2];
    assert [0] + [3] == [0, 3];
    assert gs[0 := gs[0] + [3]] == [[0, 3], [1], [2], [4]];
    SplicedMergeAsWritten();
    AsWrittenNotSeparated();
  }

  /** The corrected insertion merges all three touched groups and keeps the fourth. */
  lemma ThreeWayMergeCorrected()
    ensures Insert([[0], [1], [2], [4]], 3, TouchesThree) == [[0, 3, 1, 2], [4]]
  {
    var gs := [[0], [1], [2], [4]];
    assert TouchesGroup([0], 3, TouchesThree) by { assert TouchesThree(3, [0][0]); }
    assert TouchesGroup([1], 3, TouchesThree) by { assert TouchesThree(3, [1][0]); }
    assert TouchesGroup([2], 3, TouchesThree) by { assert TouchesThree(3, [2][0]); }
    assert !TouchesGroup([4], 3, TouchesThree);
    assert gs[1..] == [[1], [2], [4]] && gs[1..][1..] == [[2], [4]] && gs[1..][1..][1..] == [[4]];
    assert [[4]][1..] == [];
    assert Untouched([[4]], 3, TouchesThree) == [[4]];
    assert Untouched(gs[1..], 3, TouchesThree) == [[4]];
    assert TouchedMembers([[4]], 3, TouchesThree) == [];
    assert TouchedMembers([[2], [4]], 3, TouchesThree) == [2];
    assert [1] + [2] == [1, 2];
    assert TouchedMembers(gs[1..], 3, TouchesThree) == [1, 2];
    assert [0] + [3] + [1, 2] == [0, 3, 1, 2];
  }
}
