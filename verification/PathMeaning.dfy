// What the answer of the path search says about the relationships of the model.
module PathMeaning {
  import opened Ordering
  import opened PathSearch

  // The relationships recorded for s, or its own where none are, lead from s to t.
  ghost predicate Relates(m: Model, s: Id, relationshipType: string, t: Id) {
    && s in m.nodes && t in m.nodes
    && if s in m.relationshipsById
       then relationshipType in m.relationshipsById[s] && t in m.relationshipsById[s][relationshipType]
       else s in m.ownRelationships
            && relationshipType in m.ownRelationships[s] && t in m.ownRelationships[s][relationshipType]
  }

  ghost predicate LiesIn(relationshipType: string, plane: Plane) {
    match plane
    case Hierarchy => relationshipType == "HasParent" || relationshipType == "HasChildren"
    case Composition => relationshipType == "HasComponent" || relationshipType == "ComponentOf"
    case Graph =>
      && relationshipType != "HasParent" && relationshipType != "HasChildren"
      && relationshipType != "HasComponent" && relationshipType != "ComponentOf"
  }

  // One step along a relationship of a requested plane, or against one, as the direction allows.
  ghost predicate IsStep(m: Model, q: Query, from: Id, hop: Hop) {
    && LiesIn(hop.relationshipType, hop.plane) && hop.plane in q.planes
    && match hop.direction
       case Outgoing =>
         (q.traversal == Forward || q.traversal == Either) && Relates(m, from, hop.relationshipType, hop.neighbor)
       case Incoming =>
         (q.traversal == Backward || q.traversal == Either) && Relates(m, hop.neighbor, hop.relationshipType, from)
  }

  ghost predicate IsPath(m: Model, q: Query, source: Id, path: seq<Hop>, target: Id)
    decreases |path|
  {
    if path == [] then source == target
    else IsStep(m, q, source, path[0]) && IsPath(m, q, path[0].neighbor, path[1..], target)
  }

  // Of two steps to one element, the first by plane, then by relationship type, then the incoming one.
  ghost predicate ComesFirst(a: Hop, b: Hop) {
    || (a.plane == Hierarchy && b.plane != Hierarchy)
    || (a.plane == Composition && b.plane == Graph)
    || (a.plane == b.plane && a.relationshipType != b.relationshipType
        && IsBefore(a.relationshipType, b.relationshipType))
    || (a.plane == b.plane && a.relationshipType == b.relationshipType
        && (a.direction == Incoming || b.direction == Outgoing))
  }

  ghost predicate IsFirstStep(m: Model, q: Query, from: Id, hop: Hop) {
    forall other :: IsStep(m, q, from, other) && other.neighbor == hop.neighbor ==> ComesFirst(hop, other)
  }

  ghost predicate TakesFirstSteps(m: Model, q: Query, source: Id, path: seq<Hop>)
    decreases |path|
  {
    path == [] || (IsFirstStep(m, q, source, path[0]) && TakesFirstSteps(m, q, path[0].neighbor, path[1..]))
  }

  lemma StepIsHop(m: Model, q: Query, from: Id, hop: Hop)
    requires m.WellFormed()
    ensures IsStep(m, q, from, hop) <==> IsHop(m, q, from, hop)
  {
    assert LiesIn(hop.relationshipType, hop.plane) <==> hop.plane == PlaneOf(hop.relationshipType);
  }

  lemma FirstIsLeast(a: Hop, b: Hop)
    requires a.neighbor == b.neighbor
    ensures ComesFirst(a, b) <==> HopLe(a, b)
  {
    StringLeIsLexicographic(a.relationshipType, b.relationshipType);
  }

  // Positions of a path, counted from its second element.
  lemma FromSecond(source: Id, path: seq<Hop>, k: nat)
    requires 0 < k <= |path|
    ensures At(source, path, k) == At(path[0].neighbor, path[1..], k - 1)
    ensures k < |path| ==> path[k] == path[1..][k - 1]
  {
  }

  lemma WalkFromSecond(g: Space, source: Id, path: seq<Hop>, target: Id)
    requires path != []
    ensures IsWalk(g, source, path, target) <==>
      g.hop(source, path[0]) && IsWalk(g, path[0].neighbor, path[1..], target)
  {
    hide At;
    var second, rest := path[0].neighbor, path[1..];
    StartsThere(source, path);
    FromSecond(source, path, |path|);
    forall k: nat | 0 < k < |path|
      ensures g.hop(At(source, path, k), path[k]) <==> g.hop(At(second, rest, k - 1), rest[k - 1])
    {
      FromSecond(source, path, k);
    }
    if IsWalk(g, source, path, target) {
      forall i: nat | i < |rest| ensures g.hop(At(second, rest, i), rest[i]) {
        var k := i + 1;
        assert g.hop(At(source, path, k), path[k]);
      }
    }
    if g.hop(source, path[0]) && IsWalk(g, second, rest, target) {
      forall k: nat | k < |path| ensures g.hop(At(source, path, k), path[k]) {
        if k > 0 {
          var i := k - 1;
          assert g.hop(At(second, rest, i), rest[i]);
        }
      }
    }
  }

  lemma StartsThere(source: Id, path: seq<Hop>)
    ensures At(source, path, 0) == source
  {
  }

  ghost predicate IsLeastAt(g: Space, source: Id, path: seq<Hop>, k: nat)
    requires k < |path|
  {
    forall other :: g.hop(At(source, path, k), other) && other.neighbor == path[k].neighbor ==> HopLe(path[k], other)
  }

  lemma LeastAtEach(g: Space, source: Id, path: seq<Hop>)
    ensures TakesLeastHops(g, source, path) <==> forall k: nat :: k < |path| ==> IsLeastAt(g, source, path, k)
  {
    hide At, HopLe;
    if forall k: nat :: k < |path| ==> IsLeastAt(g, source, path, k) {
      forall i: nat, other: Hop | i < |path| && other.neighbor == path[i].neighbor && g.hop(At(source, path, i), other)
        ensures HopLe(path[i], other)
      {
        assert IsLeastAt(g, source, path, i);
      }
    }
  }

  lemma LeastFromSecond(g: Space, source: Id, path: seq<Hop>)
    requires path != []
    ensures TakesLeastHops(g, source, path) <==>
      && (forall other :: g.hop(source, other) && other.neighbor == path[0].neighbor ==> HopLe(path[0], other))
      && TakesLeastHops(g, path[0].neighbor, path[1..])
  {
    hide At, HopLe, TakesLeastHops;
    var second, rest := path[0].neighbor, path[1..];
    LeastAtEach(g, source, path);
    LeastAtEach(g, second, rest);
    StartsThere(source, path);
    forall k: nat | 0 < k < |path| ensures IsLeastAt(g, source, path, k) <==> IsLeastAt(g, second, rest, k - 1) {
      FromSecond(source, path, k);
    }
    if forall k: nat :: k < |path| ==> IsLeastAt(g, source, path, k) {
      forall i: nat | i < |rest| ensures IsLeastAt(g, second, rest, i) {
        var k := i + 1;
        assert IsLeastAt(g, source, path, k);
      }
      assert IsLeastAt(g, source, path, 0);
    }
    if IsLeastAt(g, source, path, 0) && forall i: nat :: i < |rest| ==> IsLeastAt(g, second, rest, i) {
      forall k: nat | k < |path| ensures IsLeastAt(g, source, path, k) {
        if k > 0 {
          var i := k - 1;
          assert IsLeastAt(g, second, rest, i);
        }
      }
    }
  }

  lemma {:induction false} PathIsWalk(m: Model, q: Query, source: Id, path: seq<Hop>, target: Id)
    requires m.WellFormed()
    ensures IsPath(m, q, source, path, target) <==> IsWalk(SpaceOf(m, q), source, path, target)
    ensures TakesFirstSteps(m, q, source, path) <==> TakesLeastHops(SpaceOf(m, q), source, path)
    decreases |path|
  {
    if path != [] {
      hide IsWalk, TakesLeastHops, HopLe, ComesFirst, IsStep, IsHop;
      PathIsWalk(m, q, path[0].neighbor, path[1..], target);
      WalkFromSecond(SpaceOf(m, q), source, path, target);
      LeastFromSecond(SpaceOf(m, q), source, path);
      forall hop ensures IsStep(m, q, source, hop) <==> SpaceOf(m, q).hop(source, hop) { StepIsHop(m, q, source, hop); }
      forall other: Hop | other.neighbor == path[0].neighbor
        ensures ComesFirst(path[0], other) <==> HopLe(path[0], other)
      {
        FirstIsLeast(path[0], other);
      }
    }
  }

  lemma ReachableByPath(m: Model, q: Query, source: Id, target: Id, n: nat)
    requires m.WellFormed()
    ensures Reachable(SpaceOf(m, q), source, target, n) <==>
      exists path :: |path| == n && IsPath(m, q, source, path, target)
  {
    hide IsWalk, IsPath;
    forall path ensures IsPath(m, q, source, path, target) <==> IsWalk(SpaceOf(m, q), source, path, target) {
      PathIsWalk(m, q, source, path, target);
    }
  }

  // Some element has paths from the source, the shortest of them one step too long.
  ghost predicate SomethingIsTooFar(m: Model, q: Query, source: Id) {
    exists v, path ::
      && |path| == q.maxDepth + 1 && IsPath(m, q, source, path, v)
      && forall other :: IsPath(m, q, source, other, v) ==> |other| > q.maxDepth
  }

  // A path that is found is one, within the limit, no shorter one exists, and among parallel relationships it takes the
  // first. Without a path and untruncated there is none at all. In a model of at most 5000 elements there is none
  // within the limit, and the answer is truncated exactly if some element was too far away.
  lemma AnswerIsExact(m: Model, q: Query, source: Id, target: Id, r: Answer)
    requires m.WellFormed() && IsExactAnswer(SpaceOf(m, q), source, target, r)
    ensures r.Found? ==>
      && r.pathLength == |r.path| <= q.maxDepth && IsPath(m, q, source, r.path, target)
      && (forall other :: IsPath(m, q, source, other, target) ==> |r.path| <= |other|)
      && TakesFirstSteps(m, q, source, r.path)
    ensures r == NoPath(false) ==> forall path :: !IsPath(m, q, source, path, target)
    ensures r.NoPath? && |m.nodes| <= 5000 ==>
      && (forall path :: IsPath(m, q, source, path, target) ==> |path| > q.maxDepth)
      && (r.truncated <==> SomethingIsTooFar(m, q, source))
    ensures !r.NotFoundError?
  {
    hide IsPath, IsWalk, TakesLeastHops, TakesFirstSteps, ReachableWithin, Reachable;
    var g := SpaceOf(m, q);
    forall v, path | IsPath(m, q, source, path, v) ensures Reachable(g, source, v, |path|) {
      ReachableByPath(m, q, source, v, |path|);
    }
    forall path ensures IsPath(m, q, source, path, target) <==> IsWalk(g, source, path, target) {
      PathIsWalk(m, q, source, path, target);
    }
    forall path ensures TakesFirstSteps(m, q, source, path) <==> TakesLeastHops(g, source, path) {
      PathIsWalk(m, q, source, path, target);
    }
    if r.NoPath? {
      TooFarIsBeyond(m, q, source);
    }
  }

  lemma TooFarIsBeyond(m: Model, q: Query, source: Id)
    requires m.WellFormed()
    ensures SomethingIsTooFar(m, q, source) <==> BeyondLimit(SpaceOf(m, q), source)
  {
    hide IsPath, IsWalk, Reachable;
    var g := SpaceOf(m, q);
    forall v, n: nat
      ensures Reachable(g, source, v, n) <==> exists path :: |path| == n && IsPath(m, q, source, path, v)
    {
      ReachableByPath(m, q, source, v, n);
    }
    if v, n :| n == g.maxDepth + 1 && DistanceIs(g, source, v, n) {
      var path :| |path| == n && IsPath(m, q, source, path, v);
      forall other | IsPath(m, q, source, other, v) ensures |other| > q.maxDepth {
        assert Reachable(g, source, v, |other|);
      }
    }
    if SomethingIsTooFar(m, q, source) {
      var v, path :|
        && |path| == q.maxDepth + 1 && IsPath(m, q, source, path, v)
        && forall other :: IsPath(m, q, source, other, v) ==> |other| > q.maxDepth;
      assert Reachable(g, source, v, |path|);
      assert DistanceIs(g, source, v, q.maxDepth + 1);
    }
  }
}
