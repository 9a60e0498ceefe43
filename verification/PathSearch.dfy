// Bounded breadth-first path search over the relationship planes of a cached model.
module PathSearch {
  import opened Ordering

  type Id = string
  datatype Plane = Hierarchy | Composition | Graph
  datatype Direction = Outgoing | Incoming
  datatype Traversal = Forward | Backward | Either

  // One traversed relationship and the element it arrives at.
  datatype Hop = Hop(neighbor: Id, relationshipType: string, plane: Plane, direction: Direction)

  datatype Model = Model(nodes: set<Id>, relationshipsById: map<Id, map<string, seq<Id>>>,
                         ownRelationships: map<Id, map<string, seq<Id>>>)
  {
    predicate WellFormed() { nodes <= ownRelationships.Keys }

    function Relationships(id: Id): map<string, seq<Id>>
      requires WellFormed() && id in nodes
    {
      if id in relationshipsById then relationshipsById[id] else ownRelationships[id]
    }
  }

  datatype Query = Query(planes: set<Plane>, traversal: Traversal, maxDepth: nat)

  datatype Answer =
    | NotFoundError(elementId: Id)
    | Found(pathLength: nat, path: seq<Hop>)
    | NoPath(truncated: bool)

  const MAX_NODES: nat := 5000

  function PlaneOf(relationshipType: string): Plane {
    if relationshipType in {"HasParent", "HasChildren"} then Hierarchy
    else if relationshipType in {"HasComponent", "ComponentOf"} then Composition
    else Graph
  }

  // ----- Specification: edges, walks, distance -----

  predicate IsEdge(m: Model, q: Query, source: Id, relationshipType: string, target: Id)
    requires m.WellFormed()
  {
    && source in m.nodes && target in m.nodes
    && relationshipType in m.Relationships(source)
    && target in m.Relationships(source)[relationshipType]
    && PlaneOf(relationshipType) in q.planes
  }

  predicate IsHop(m: Model, q: Query, from: Id, hop: Hop)
    requires m.WellFormed()
  {
    && hop.plane == PlaneOf(hop.relationshipType)
    && match hop.direction
       case Outgoing => q.traversal != Backward && IsEdge(m, q, from, hop.relationshipType, hop.neighbor)
       case Incoming => q.traversal != Forward && IsEdge(m, q, hop.neighbor, hop.relationshipType, from)
  }

  function At(source: Id, hops: seq<Hop>, i: nat): Id
    requires i <= |hops|
  {
    if i == 0 then source else hops[i - 1].neighbor
  }

  // The search theory below is about an arbitrary hop relation over a finite set of elements.
  datatype Space = Space(nodes: set<Id>, hop: (Id, Hop) -> bool, maxDepth: nat)
  {
    ghost predicate StaysInside() { forall v, h :: hop(v, h) ==> h.neighbor in nodes }
  }

  ghost function SpaceOf(m: Model, q: Query): Space
    requires m.WellFormed()
  {
    Space(m.nodes, (from, hop) => IsHop(m, q, from, hop), q.maxDepth)
  }

  predicate IsWalk(g: Space, source: Id, hops: seq<Hop>, target: Id)
  {
    && At(source, hops, |hops|) == target
    && forall i {:trigger At(source, hops, i)} :: 0 <= i < |hops| ==> g.hop(At(source, hops, i), hops[i])
  }

  ghost predicate Reachable(g: Space, source: Id, target: Id, length: nat)
  {
    exists hops :: |hops| == length && IsWalk(g, source, hops, target)
  }

  // Sort key of the adjacency list: neighbor, plane, relationship type, direction.
  function PlanePriority(p: Plane): int {
    match p case Hierarchy => 0 case Composition => 1 case Graph => 2
  }

  predicate HopLe(a: Hop, b: Hop) {
    if a.neighbor != b.neighbor then StringLe(a.neighbor, b.neighbor)
    else if a.plane != b.plane then PlanePriority(a.plane) < PlanePriority(b.plane)
    else if a.relationshipType != b.relationshipType then StringLe(a.relationshipType, b.relationshipType)
    else a.direction == b.direction || a.direction == Incoming
  }

  lemma HopLeIsTotalOrder()
    ensures TotalOrder(HopLe)
  {
    StringLeIsTotalOrder();
  }

  // Among parallel relationships to the same element the search reports the least one.
  ghost predicate TakesLeastHops(g: Space, source: Id, hops: seq<Hop>)
  {
    forall i, other: Hop {:trigger g.hop(At(source, hops, i), other)} :: 0 <= i < |hops|
      && other.neighbor == hops[i].neighbor && g.hop(At(source, hops, i), other)
      ==> HopLe(hops[i], other)
  }

  lemma ExtendWalk(g: Space, source: Id, hops: seq<Hop>, hop: Hop)
    requires IsWalk(g, source, hops, At(source, hops, |hops|))
    requires g.hop(At(source, hops, |hops|), hop)
    ensures IsWalk(g, source, hops + [hop], hop.neighbor)
    ensures Reachable(g, source, hop.neighbor, |hops| + 1)
  {
    var longer := hops + [hop];
    forall i | 0 <= i < |longer| ensures g.hop(At(source, longer, i), longer[i]) {
      assert At(source, longer, i) == At(source, hops, i);
    }
  }

  lemma LastHop(g: Space, source: Id, hops: seq<Hop>, target: Id) returns (before: Id)
    requires IsWalk(g, source, hops, target) && |hops| > 0
    ensures before == At(source, hops, |hops| - 1)
    ensures IsWalk(g, source, hops[..|hops| - 1], before)
    ensures g.hop(before, hops[|hops| - 1]) && hops[|hops| - 1].neighbor == target
  {
    before := At(source, hops, |hops| - 1);
    var shorter := hops[..|hops| - 1];
    assert At(source, shorter, |shorter|) == before;
    forall i | 0 <= i < |shorter| ensures g.hop(At(source, shorter, i), shorter[i]) {
      assert At(source, shorter, i) == At(source, hops, i);
    }
  }

  // A set that holds the source and is closed under hops holds everything reachable.
  lemma {:induction false} ClosedSetHoldsWalks(g: Space, source: Id, closed: set<Id>, hops: seq<Hop>, target: Id)
    requires source in closed
    requires forall v, hop :: v in closed && g.hop(v, hop) ==> hop.neighbor in closed
    requires IsWalk(g, source, hops, target)
    ensures target in closed
    decreases |hops|
  {
    if |hops| > 0 {
      var before := LastHop(g, source, hops, target);
      ClosedSetHoldsWalks(g, source, closed, hops[..|hops| - 1], before);
    }
  }

  // dist labels the visited elements; every element labelled below the bound has been expanded.
  ghost predicate ExpandedBelow(g: Space, dist: map<Id, nat>, bound: nat)
  {
    forall v, hop :: v in dist && dist[v] < bound && g.hop(v, hop)
      ==> hop.neighbor in dist && dist[hop.neighbor] <= dist[v] + 1
  }

  // Labels are upper bounds that no walk of at most `bound` hops can beat.
  lemma {:induction false} LabelsAreShortest(g: Space, source: Id, dist: map<Id, nat>, bound: nat,
                                             hops: seq<Hop>, target: Id)
    requires source in dist && dist[source] == 0
    requires ExpandedBelow(g, dist, bound)
    requires IsWalk(g, source, hops, target) && |hops| <= bound
    ensures target in dist && dist[target] <= |hops|
    decreases |hops|
  {
    if |hops| > 0 {
      var before := LastHop(g, source, hops, target);
      LabelsAreShortest(g, source, dist, bound, hops[..|hops| - 1], before);
    }
  }

  // ----- Implementation -----

  // One adjacency entry: the other end point of an edge of a requested plane.
  datatype Entry = Entry(other: Id, relationshipType: string, plane: Plane)
  type Adjacent = set<Entry>

  predicate Records(m: Model, q: Query, source: Id, e: Entry, target: Id)
    requires m.WellFormed()
  {
    e.plane == PlaneOf(e.relationshipType) && IsEdge(m, q, source, e.relationshipType, target)
  }

  // outgoing_by_id / incoming_by_id: the edges of the requested planes between model elements, by end point.
  method Adjacency(m: Model, q: Query) returns (outgoing: map<Id, Adjacent>, incoming: map<Id, Adjacent>)
    requires m.WellFormed()
    ensures outgoing.Keys == m.nodes == incoming.Keys
    ensures forall v, e: Entry {:trigger e in outgoing[v]} :: v in m.nodes ==>
      (e in outgoing[v] <==> Records(m, q, v, e, e.other))
    ensures forall v, e: Entry {:trigger e in incoming[v]} :: v in m.nodes ==>
      (e in incoming[v] <==> Records(m, q, e.other, e, v))
  {
    outgoing := map id | id in m.nodes :: {};
    incoming := map id | id in m.nodes :: {};
    var sources := m.nodes;
    while sources != {}
      invariant sources <= m.nodes
      invariant outgoing.Keys == m.nodes == incoming.Keys
      invariant forall v, e: Entry {:trigger e in outgoing[v]} :: v in m.nodes ==>
        (e in outgoing[v] <==> v !in sources && Records(m, q, v, e, e.other))
      invariant forall v, e: Entry {:trigger e in incoming[v]} :: v in m.nodes ==>
        (e in incoming[v] <==> e.other !in sources && Records(m, q, e.other, e, v))
      decreases sources
    {
      var source :| source in sources;
      outgoing, incoming := AddSource(m, q, outgoing, incoming, source);
      sources := sources - {source};
    }
  }

  method AddSource(m: Model, q: Query, outgoing: map<Id, Adjacent>, incoming: map<Id, Adjacent>, source: Id)
    returns (outgoing': map<Id, Adjacent>, incoming': map<Id, Adjacent>)
    requires m.WellFormed() && outgoing.Keys == m.nodes == incoming.Keys && source in m.nodes
    ensures outgoing'.Keys == m.nodes == incoming'.Keys
    ensures forall v, e: Entry {:trigger e in outgoing'[v]} :: v in m.nodes ==>
      (e in outgoing'[v] <==> e in outgoing[v] || (v == source && Records(m, q, source, e, e.other)))
    ensures forall v, e: Entry {:trigger e in incoming'[v]} :: v in m.nodes ==>
      (e in incoming'[v] <==> e in incoming[v] || (e.other == source && Records(m, q, source, e, v)))
  {
    outgoing', incoming' := outgoing, incoming;
    var relationships := m.Relationships(source);
    var types := relationships.Keys;
    while types != {}
      invariant types <= relationships.Keys
      invariant outgoing'.Keys == m.nodes == incoming'.Keys
      invariant forall v, e: Entry {:trigger e in outgoing'[v]} :: v in m.nodes ==>
        (e in outgoing'[v] <==>
          e in outgoing[v] || (v == source && e.relationshipType !in types && Records(m, q, source, e, e.other)))
      invariant forall v, e: Entry {:trigger e in incoming'[v]} :: v in m.nodes ==>
        (e in incoming'[v] <==>
          e in incoming[v] || (e.other == source && e.relationshipType !in types && Records(m, q, source, e, v)))
      decreases types
    {
      var relationshipType :| relationshipType in types;
      types := types - {relationshipType};
      if PlaneOf(relationshipType) in q.planes {
        outgoing', incoming' :=
          AddTargets(m, outgoing', incoming', source, relationshipType, relationships[relationshipType]);
      }
    }
  }

  method AddTargets(m: Model, outgoing: map<Id, Adjacent>, incoming: map<Id, Adjacent>,
                    source: Id, relationshipType: string, targets: seq<Id>)
    returns (outgoing': map<Id, Adjacent>, incoming': map<Id, Adjacent>)
    requires outgoing.Keys == m.nodes == incoming.Keys && source in m.nodes
    ensures outgoing'.Keys == m.nodes == incoming'.Keys
    ensures forall v, e: Entry {:trigger e in outgoing'[v]} :: v in m.nodes ==>
      (e in outgoing'[v] <==>
        e in outgoing[v] ||
        (v == source && e.relationshipType == relationshipType && e.plane == PlaneOf(e.relationshipType)
         && e.other in targets && e.other in m.nodes))
    ensures forall v, e: Entry {:trigger e in incoming'[v]} :: v in m.nodes ==>
      (e in incoming'[v] <==>
        e in incoming[v] ||
        (e.other == source && e.relationshipType == relationshipType && e.plane == PlaneOf(e.relationshipType)
         && v in targets))
  {
    outgoing', incoming' := outgoing, incoming;
    var plane := PlaneOf(relationshipType);
    for i := 0 to |targets|
      invariant outgoing'.Keys == m.nodes == incoming'.Keys
      invariant forall v, e: Entry {:trigger e in outgoing'[v]} :: v in m.nodes ==>
        (e in outgoing'[v] <==>
          e in outgoing[v] ||
          (v == source && e.relationshipType == relationshipType && e.plane == plane && e.other in targets[..i]
           && e.other in m.nodes))
      invariant forall v, e: Entry {:trigger e in incoming'[v]} :: v in m.nodes ==>
        (e in incoming'[v] <==>
          e in incoming[v] ||
          (e.other == source && e.relationshipType == relationshipType && e.plane == plane && v in targets[..i]))
    {
      var target := targets[i];
      assert targets[..i + 1] == targets[..i] + [target];
      if target in m.nodes {
        outgoing' := outgoing'[source := outgoing'[source] + {Entry(target, relationshipType, plane)}];
        incoming' := incoming'[target := incoming'[target] + {Entry(source, relationshipType, plane)}];
      }
    }
    assert targets[..|targets|] == targets;
  }

  method Neighbors(m: Model, q: Query, outgoing: Adjacent, incoming: Adjacent, id: Id) returns (adjacent: seq<Hop>)
    requires m.WellFormed()
    requires forall e: Entry :: e in outgoing <==> Records(m, q, id, e, e.other)
    requires forall e: Entry :: e in incoming <==> Records(m, q, e.other, e, id)
    ensures forall hop :: hop in adjacent <==> IsHop(m, q, id, hop)
    ensures forall i, j :: 0 <= i < j < |adjacent| ==> HopLe(adjacent[i], adjacent[j])
  {
    var found: set<Hop> := {};
    if q.traversal != Backward {
      found := found + set e <- outgoing :: Hop(e.other, e.relationshipType, e.plane, Outgoing);
    }
    if q.traversal != Forward {
      found := found + set e <- incoming :: Hop(e.other, e.relationshipType, e.plane, Incoming);
    }
    forall hop ensures hop in found <==> IsHop(m, q, id, hop) {
      var e := Entry(hop.neighbor, hop.relationshipType, hop.plane);
      assert hop.direction == Outgoing && q.traversal != Backward ==> (hop in found <==> e in outgoing);
      assert hop.direction == Incoming && q.traversal != Forward ==> (hop in found <==> e in incoming);
    }
    HopLeIsTotalOrder();
    adjacent := SortSet(found, HopLe);
  }

  // ----- The search loop -----

  // A queue entry: element, depth and the hops that led there.
  datatype Pending = Pending(id: Id, depth: nat, path: seq<Hop>)

  ghost predicate ValidPending(g: Space, source: Id, e: Pending, dist: map<Id, nat>)
  {
    && e.id in dist && dist[e.id] == e.depth == |e.path| && e.depth <= g.maxDepth
    && IsWalk(g, source, e.path, e.id) && TakesLeastHops(g, source, e.path)
  }

  ghost predicate IsOpen(open: seq<Pending>, v: Id) {
    exists i :: 0 <= i < |open| && open[i].id == v
  }

  // What the loop keeps: `open` are the entries still to be expanded, `dist` labels the visited elements.
  ghost predicate Frontier(g: Space, source: Id, open: seq<Pending>, dist: map<Id, nat>)
  {
    && dist.Keys <= g.nodes && source in dist && dist[source] == 0
    && (forall i :: 0 <= i < |open| ==> ValidPending(g, source, open[i], dist))
    && (forall i, j :: 0 <= i < j < |open| ==> open[i].id != open[j].id && open[i].depth <= open[j].depth)
    && (forall v :: v in dist ==> dist[v] <= g.maxDepth && Reachable(g, source, v, dist[v]))
    && (open != [] ==> forall v :: v in dist ==> dist[v] <= open[0].depth + 1)
    && forall v, hop :: v in dist && !IsOpen(open, v) && dist[v] < g.maxDepth && g.hop(v, hop)
         ==> hop.neighbor in dist && dist[hop.neighbor] <= dist[v] + 1
  }

  // Unless the search was truncated, expanded elements at the depth limit lead nowhere new either.
  ghost predicate ClosedAtLimit(g: Space, open: seq<Pending>, dist: map<Id, nat>)
  {
    forall v, hop :: v in dist && !IsOpen(open, v) && dist[v] == g.maxDepth && g.hop(v, hop) ==> hop.neighbor in dist
  }

  ghost predicate DistanceIs(g: Space, source: Id, target: Id, n: nat)
  {
    Reachable(g, source, target, n) && forall k :: 0 <= k < n ==> !Reachable(g, source, target, k)
  }

  // Some element is exactly one step beyond the depth limit.
  ghost predicate BeyondLimit(g: Space, source: Id)
  {
    exists v, n :: n == g.maxDepth + 1 && DistanceIs(g, source, v, n)
  }

  lemma OpenIsDeep(g: Space, source: Id, open: seq<Pending>, dist: map<Id, nat>, v: Id)
    requires Frontier(g, source, open, dist) && IsOpen(open, v)
    ensures v in dist && open != [] && dist[v] >= open[0].depth
  {
    var i :| 0 <= i < |open| && open[i].id == v;
    assert ValidPending(g, source, open[i], dist);
  }

  lemma FrontierBounds(g: Space, source: Id, open: seq<Pending>, dist: map<Id, nat>, bound: nat, x: Id, n: nat)
    requires Frontier(g, source, open, dist)
    requires bound <= if open == [] then g.maxDepth else open[0].depth
    requires n <= bound && Reachable(g, source, x, n)
    ensures x in dist && dist[x] <= n
  {
    forall v | IsOpen(open, v) ensures v in dist && dist[v] >= bound {
      OpenIsDeep(g, source, open, dist, v);
    }
    assert open != [] ==> ValidPending(g, source, open[0], dist);
    var hops :| |hops| == n && IsWalk(g, source, hops, x);
    LabelsAreShortest(g, source, dist, bound, hops, x);
  }

  lemma PendingAfter(g: Space, source: Id, first: Pending, dist: map<Id, nat>, hop: Hop, added: Pending)
    requires ValidPending(g, source, first, dist) && first.depth < g.maxDepth
    requires g.hop(first.id, hop) && hop.neighbor !in dist
    requires forall other: Hop :: g.hop(first.id, other) && other.neighbor == hop.neighbor ==> HopLe(hop, other)
    requires added == Pending(hop.neighbor, first.depth + 1, first.path + [hop])
    ensures ValidPending(g, source, added, dist[added.id := added.depth])
    ensures Reachable(g, source, added.id, added.depth)
  {
    ExtendWalk(g, source, first.path, hop);
    forall i, other: Hop | 0 <= i < |added.path| && other.neighbor == added.path[i].neighbor
                           && g.hop(At(source, added.path, i), other)
      ensures HopLe(added.path[i], other)
    {
      assert At(source, added.path, i) == At(source, first.path, i);
    }
  }

  lemma OpenGrows(open: seq<Pending>, added: Pending, v: Id)
    ensures IsOpen(open + [added], v) <==> IsOpen(open, v) || v == added.id
  {
    var open' := open + [added];
    assert open'[|open|] == added;
    assert forall i :: 0 <= i < |open| ==> open'[i] == open[i];
    if IsOpen(open, v) {
      var i :| 0 <= i < |open| && open[i].id == v;
      assert open'[i].id == v;
    }
  }

  lemma PendingStays(g: Space, source: Id, e: Pending, dist: map<Id, nat>, v: Id, depth: nat)
    requires ValidPending(g, source, e, dist) && v !in dist
    ensures ValidPending(g, source, e, dist[v := depth]) && e.id != v
  {
  }

  lemma ClosedStays(g: Space, open: seq<Pending>, dist: map<Id, nat>, added: Pending)
    requires ClosedAtLimit(g, open, dist)
    ensures ClosedAtLimit(g, open + [added], dist[added.id := added.depth])
  {
    forall v ensures IsOpen(open + [added], v) <==> IsOpen(open, v) || v == added.id { OpenGrows(open, added, v); }
    hide IsOpen;
  }

  lemma Enqueue(g: Space, source: Id, open: seq<Pending>, dist: map<Id, nat>, hop: Hop, added: Pending)
    requires g.StaysInside() && Frontier(g, source, open, dist)
    requires open != [] && open[0].depth < g.maxDepth
    requires g.hop(open[0].id, hop) && hop.neighbor !in dist
    requires forall other: Hop :: g.hop(open[0].id, other) && other.neighbor == hop.neighbor ==> HopLe(hop, other)
    requires added == Pending(hop.neighbor, open[0].depth + 1, open[0].path + [hop])
    ensures Frontier(g, source, open + [added], dist[added.id := added.depth])
    ensures ClosedAtLimit(g, open, dist) ==> ClosedAtLimit(g, open + [added], dist[added.id := added.depth])
  {
    hide IsWalk, TakesLeastHops, HopLe, Reachable;
    var open', dist' := open + [added], dist[added.id := added.depth];
    assert ValidPending(g, source, open[0], dist);
    PendingAfter(g, source, open[0], dist, hop, added);
    forall i | 0 <= i < |open|
      ensures ValidPending(g, source, open'[i], dist') && open[i].id != added.id && open[i].depth <= added.depth
    {
      PendingStays(g, source, open[i], dist, added.id, added.depth);
    }
    if ClosedAtLimit(g, open, dist) {
      ClosedStays(g, open, dist, added);
    }
    assert added.id in g.nodes;
    forall v ensures IsOpen(open', v) <==> IsOpen(open, v) || v == added.id { OpenGrows(open, added, v); }
  }

  // Once every hop of the first entry leads to a visited element, the entry is done.
  lemma Dequeue(g: Space, source: Id, open: seq<Pending>, dist: map<Id, nat>)
    requires Frontier(g, source, open, dist) && open != []
    requires open[0].depth < g.maxDepth ==> forall hop :: g.hop(open[0].id, hop) ==> hop.neighbor in dist
    ensures Frontier(g, source, open[1..], dist)
    ensures ClosedAtLimit(g, open, dist) && (forall hop :: g.hop(open[0].id, hop) ==> hop.neighbor in dist)
            ==> ClosedAtLimit(g, open[1..], dist)
  {
    forall v | IsOpen(open, v) ensures v == open[0].id || IsOpen(open[1..], v) {
      var i :| 0 <= i < |open| && open[i].id == v;
      assert i > 0 ==> open[1..][i - 1].id == v;
    }
    assert ValidPending(g, source, open[0], dist);
  }

  lemma FoundAtFirst(g: Space, source: Id, open: seq<Pending>, dist: map<Id, nat>, target: Id)
    requires Frontier(g, source, open, dist) && open != []
    requires target !in dist
    ensures forall n :: 0 <= n <= open[0].depth ==> !Reachable(g, source, target, n)
  {
    forall n | 0 <= n <= open[0].depth ensures !Reachable(g, source, target, n) {
      if Reachable(g, source, target, n) {
        FrontierBounds(g, source, open, dist, open[0].depth, target, n);
      }
    }
  }

  lemma Exhausted(g: Space, source: Id, dist: map<Id, nat>, target: Id)
    requires Frontier(g, source, [], dist) && target !in dist
    ensures forall n :: 0 <= n <= g.maxDepth ==> !Reachable(g, source, target, n)
    ensures ClosedAtLimit(g, [], dist) ==> !BeyondLimit(g, source)
    ensures ClosedAtLimit(g, [], dist) ==> forall n: nat :: !Reachable(g, source, target, n)
  {
    forall n | 0 <= n <= g.maxDepth ensures !Reachable(g, source, target, n) {
      if Reachable(g, source, target, n) {
        FrontierBounds(g, source, [], dist, g.maxDepth, target, n);
      }
    }
    if ClosedAtLimit(g, [], dist) {
      forall n: nat, x | Reachable(g, source, x, n) ensures x in dist {
        var hops :| |hops| == n && IsWalk(g, source, hops, x);
        ClosedSetHoldsWalks(g, source, dist.Keys, hops, x);
      }
    }
  }

  lemma AtLimit(g: Space, source: Id, open: seq<Pending>, dist: map<Id, nat>, hop: Hop)
    requires Frontier(g, source, open, dist)
    requires open != [] && open[0].depth == g.maxDepth
    requires g.hop(open[0].id, hop) && hop.neighbor !in dist
    ensures BeyondLimit(g, source)
  {
    assert ValidPending(g, source, open[0], dist);
    ExtendWalk(g, source, open[0].path, hop);
    FoundAtFirst(g, source, open, dist, hop.neighbor);
    assert DistanceIs(g, source, hop.neighbor, g.maxDepth + 1);
  }

  ghost function ReachableWithin(g: Space, source: Id): set<Id>
  {
    set v | v in g.nodes && exists n: nat :: n <= g.maxDepth && Reachable(g, source, v, n)
  }

  // adjacent lists the hops from an element in sort-key order.
  ghost predicate ListsHops(g: Space, from: Id, adjacent: seq<Hop>) {
    && (forall hop :: hop in adjacent <==> g.hop(from, hop))
    && forall i, j :: 0 <= i < j < |adjacent| ==> HopLe(adjacent[i], adjacent[j])
  }

  ghost predicate AllVisited(hops: seq<Hop>, visited: set<Id>) {
    forall hop :: hop in hops ==> hop.neighbor in visited
  }

  lemma AllVisitedGrows(hops: seq<Hop>, j: nat, visited: set<Id>, visited': set<Id>)
    requires j < |hops| && AllVisited(hops[..j], visited) && visited <= visited' && hops[j].neighbor in visited'
    ensures AllVisited(hops[..j + 1], visited')
  {
    assert hops[..j + 1] == hops[..j] + [hops[j]];
  }

  // The for loop over the neighbors of the first queue entry.
  method ExpandFirst(ghost g: Space, source: Id, target: Id, adjacent: seq<Hop>, queue: seq<Pending>,
                     visited: set<Id>, ghost dist: map<Id, nat>)
    returns (found: bool, capped: bool, path: seq<Hop>, queue': seq<Pending>, visited': set<Id>,
             ghost dist': map<Id, nat>)
    requires g.StaysInside() && dist.Keys == visited && target !in visited
    requires Frontier(g, source, queue, dist) && queue != [] && queue[0].depth < g.maxDepth && visited <= g.nodes
    requires ListsHops(g, queue[0].id, adjacent)
    ensures found ==> ShortestFound(g, source, target, queue[0].depth + 1, path)
    ensures !found ==> dist'.Keys == visited' && target !in visited'
    ensures !found && capped ==> |visited'| >= MAX_NODES && forall v :: v in visited' ==>
      v in ReachableWithin(g, source)
    ensures !found && !capped ==> Frontier(g, source, queue', dist')
    ensures !found && !capped ==>
      (visited' == visited && queue' == queue[1..]) || g.nodes - visited' < g.nodes - visited
    ensures !found && !capped && ClosedAtLimit(g, queue, dist) ==> ClosedAtLimit(g, queue', dist')
  {
    hide Frontier, ClosedAtLimit;
    var current := queue[0];
    queue', visited', dist', found, capped, path := queue, visited, dist, false, false, [];
    var j := 0;
    while j < |adjacent| && !capped
      invariant 0 <= j <= |adjacent| && dist'.Keys == visited' && visited <= visited' <= g.nodes
      invariant queue' != [] && queue'[0] == current && target !in visited'
      invariant Frontier(g, source, queue', dist')
      invariant visited' == visited ==> queue' == queue
      invariant AllVisited(adjacent[..j], visited')
      invariant ClosedAtLimit(g, queue, dist) ==> ClosedAtLimit(g, queue', dist')
      invariant capped ==> |visited'| >= MAX_NODES
    {
      var hop := adjacent[j];
      if hop.neighbor !in visited' {
        var added := Pending(hop.neighbor, current.depth + 1, current.path + [hop]);
        if hop.neighbor == target {
          VisitTarget(g, source, queue', dist', adjacent, j, added);
          found, path := true, added.path;
          return;
        }
        VisitNeighbor(g, source, queue', dist', adjacent, j, added);
        AllVisitedGrows(adjacent, j, visited', visited' + {hop.neighbor});
        visited', queue', dist' := visited' + {hop.neighbor}, queue' + [added], dist'[added.id := added.depth];
        capped := |visited'| >= MAX_NODES;
      } else {
        AllVisitedGrows(adjacent, j, visited', visited');
      }
      j := j + 1;
    }
    Progress(g.nodes, visited, visited');
    if capped {
      VisitedAreReachable(g, source, queue', dist');
    } else {
      assert adjacent[..j] == adjacent;
      Dequeue(g, source, queue', dist');
      queue' := queue'[1..];
    }
  }

  ghost predicate ShortestFound(g: Space, source: Id, target: Id, n: nat, path: seq<Hop>) {
    |path| == n <= g.maxDepth && IsWalk(g, source, path, target) && TakesLeastHops(g, source, path)
    && DistanceIs(g, source, target, n)
  }

  lemma LeastOfParallel(g: Space, from: Id, adjacent: seq<Hop>, visited: set<Id>, j: nat)
    requires j < |adjacent| && adjacent[j].neighbor !in visited
    requires ListsHops(g, from, adjacent) && AllVisited(adjacent[..j], visited)
    ensures g.hop(from, adjacent[j])
    ensures forall other: Hop :: g.hop(from, other) && other.neighbor == adjacent[j].neighbor ==>
      HopLe(adjacent[j], other)
  {
    assert adjacent[j] in adjacent;
    forall other: Hop | g.hop(from, other) && other.neighbor == adjacent[j].neighbor
      ensures HopLe(adjacent[j], other)
    {
      assert adjacent == adjacent[..j] + adjacent[j..];
      assert other in adjacent[j..];
      var k :| 0 <= k < |adjacent[j..]| && adjacent[j..][k] == other;
    }
  }

  lemma VisitNeighbor(g: Space, source: Id, open: seq<Pending>, dist: map<Id, nat>, adjacent: seq<Hop>, j: nat,
                      added: Pending)
    requires g.StaysInside() && Frontier(g, source, open, dist) && open != [] && open[0].depth < g.maxDepth
    requires ListsHops(g, open[0].id, adjacent) && j < |adjacent| && AllVisited(adjacent[..j], dist.Keys)
    requires adjacent[j].neighbor !in dist
    requires added == Pending(adjacent[j].neighbor, open[0].depth + 1, open[0].path + [adjacent[j]])
    ensures Frontier(g, source, open + [added], dist[added.id := added.depth])
    ensures ClosedAtLimit(g, open, dist) ==> ClosedAtLimit(g, open + [added], dist[added.id := added.depth])
    ensures added.id in g.nodes
  {
    LeastOfParallel(g, open[0].id, adjacent, dist.Keys, j);
    Enqueue(g, source, open, dist, adjacent[j], added);
  }

  lemma VisitTarget(g: Space, source: Id, open: seq<Pending>, dist: map<Id, nat>, adjacent: seq<Hop>, j: nat,
                    added: Pending)
    requires Frontier(g, source, open, dist) && open != [] && open[0].depth < g.maxDepth
    requires ListsHops(g, open[0].id, adjacent) && j < |adjacent| && AllVisited(adjacent[..j], dist.Keys)
    requires adjacent[j].neighbor !in dist
    requires added == Pending(adjacent[j].neighbor, open[0].depth + 1, open[0].path + [adjacent[j]])
    ensures ShortestFound(g, source, added.id, added.depth, added.path)
  {
    LeastOfParallel(g, open[0].id, adjacent, dist.Keys, j);
    assert ValidPending(g, source, open[0], dist);
    PendingAfter(g, source, open[0], dist, adjacent[j], added);
    FoundAtFirst(g, source, open, dist, added.id);
  }

  lemma Progress<T>(all: set<T>, before: set<T>, after: set<T>)
    ensures before <= after <= all ==> before == after || all - after < all - before
  {
    if before <= after <= all && before != after {
      assert exists x :: x in after && x !in before;
      var x :| x in after && x !in before;
      assert x in all - before && x !in all - after;
    }
  }

  lemma VisitedAreReachable(g: Space, source: Id, open: seq<Pending>, dist: map<Id, nat>)
    requires Frontier(g, source, open, dist)
    ensures forall v :: v in dist ==> v in ReachableWithin(g, source)
  {
    forall v | v in dist ensures v in ReachableWithin(g, source) {
      assert dist[v] <= g.maxDepth && Reachable(g, source, v, dist[v]);
    }
  }

  ghost predicate NoneWithin(g: Space, source: Id, target: Id)
  {
    forall n :: 0 <= n <= g.maxDepth ==> !Reachable(g, source, target, n)
  }

  lemma InitialFrontier(g: Space, source: Id)
    requires source in g.nodes
    ensures Frontier(g, source, [Pending(source, 0, [])], map[source := 0])
    ensures ClosedAtLimit(g, [Pending(source, 0, [])], map[source := 0])
  {
    assert IsWalk(g, source, [], source);
    assert [Pending(source, 0, [])][0].id == source;
    assert IsOpen([Pending(source, 0, [])], source);
  }

  lemma CapNeedsManyElements(g: Space, source: Id, target: Id, visited: set<Id>)
    requires target in g.nodes && target !in visited && |visited| >= MAX_NODES
    requires forall v :: v in visited ==> v in ReachableWithin(g, source)
    ensures |ReachableWithin(g, source) - {target}| >= MAX_NODES && |g.nodes| > MAX_NODES
  {
    var others := ReachableWithin(g, source) - {target};
    assert visited <= others && others + {target} <= g.nodes;
    SubsetIsSmaller(visited, others);
    SubsetIsSmaller(others + {target}, g.nodes);
  }

  lemma {:induction false} SubsetIsSmaller<T>(a: set<T>, b: set<T>)
    requires a <= b
    ensures |a| <= |b|
  {
    assert |b| == |a| + |b - a| by { assert b == a + (b - a); }
  }

  // The breadth-first loop; g is the hop relation the adjacency maps were built from.
  method Search(m: Model, q: Query, outgoing: map<Id, Adjacent>, incoming: map<Id, Adjacent>, source: Id, target: Id,
                ghost g: Space) returns (r: Answer)
    requires m.WellFormed() && g == SpaceOf(m, q) && g.StaysInside()
    requires source in m.nodes && target in m.nodes
    requires outgoing.Keys == m.nodes == incoming.Keys
    requires forall v, e: Entry {:trigger e in outgoing[v]} :: v in m.nodes ==>
      (e in outgoing[v] <==> Records(m, q, v, e, e.other))
    requires forall v, e: Entry {:trigger e in incoming[v]} :: v in m.nodes ==>
      (e in incoming[v] <==> Records(m, q, e.other, e, v))
    ensures IsExactAnswer(g, source, target, r)
  {
    var queue := [Pending(source, 0, [])];
    var visited := {source};
    var truncated := false;
    ghost var dist: map<Id, nat> := map[source := 0];
    InitialFrontier(g, source);
    while queue != []
      invariant dist.Keys == visited
      invariant Frontier(g, source, queue, dist)
      invariant target in visited ==> target == source && queue == [Pending(source, 0, [])]
      invariant truncated ==> BeyondLimit(g, source)
      invariant !truncated ==> ClosedAtLimit(g, queue, dist)
      decreases m.nodes - visited, |queue|
    {
      var current := queue[0];
      assert ValidPending(g, source, current, dist);
      if current.id == target {
        return Found(current.depth, current.path);
      }
      var adjacent := Neighbors(m, q, outgoing[current.id], incoming[current.id], current.id);
      assert ListsHops(g, current.id, adjacent) && visited <= g.nodes;
      if current.depth >= q.maxDepth {
        if exists hop :: hop in adjacent && hop.neighbor !in visited {
          var hop :| hop in adjacent && hop.neighbor !in visited;
          AtLimit(g, source, queue, dist, hop);
          truncated := true;
        }
        Dequeue(g, source, queue, dist);
        queue := queue[1..];
      } else {
        ghost var dist';
        var found, capped, path, queue', visited';
        found, capped, path, queue', visited', dist' := ExpandFirst(g, source, target, adjacent, queue, visited, dist);
        if found {
          return Found(current.depth + 1, path);
        }
        if capped {
          CapNeedsManyElements(g, source, target, visited');
          return NoPath(true);
        }
        queue, visited, dist := queue', visited', dist';
      }
    }
    Exhausted(g, source, dist, target);
    r := NoPath(truncated);
  }

  // A search that gives up although a short path exists has seen MAX_NODES elements.
  ghost predicate IsExactAnswer(g: Space, source: Id, target: Id, r: Answer) {
    match r
    case NotFoundError(_) => false
    case Found(n, path) => ShortestFound(g, source, target, n, path)
    case NoPath(truncated) =>
      && (!truncated ==> forall n: nat :: !Reachable(g, source, target, n))
      && (NoneWithin(g, source, target) || |ReachableWithin(g, source) - {target}| >= MAX_NODES)
      && (|g.nodes| <= MAX_NODES ==> NoneWithin(g, source, target) && (truncated <==> BeyondLimit(g, source)))
  }

  method TraceRelationshipPath(m: Model, q: Query, source: Id, target: Id) returns (r: Answer)
    requires m.WellFormed()
    ensures source !in m.nodes ==> r == NotFoundError(source)
    ensures source in m.nodes && target !in m.nodes ==> r == NotFoundError(target)
    ensures source in m.nodes && target in m.nodes ==> IsExactAnswer(SpaceOf(m, q), source, target, r)
  {
    if source !in m.nodes { return NotFoundError(source); }
    if target !in m.nodes { return NotFoundError(target); }
    var outgoing, incoming := Adjacency(m, q);
    r := Search(m, q, outgoing, incoming, source, target, SpaceOf(m, q));
  }
}
