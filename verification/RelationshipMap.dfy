// relationships_by_id: every hierarchy, composition and graph edge, written together with its inverse.
module RelationshipMap {
  import opened Ordering
  import opened ModelBuilder
  import opened Relationships

  datatype Edge = Edge(relation: string, target: ElementId)
  type Children = map<ElementId, seq<ElementId>>
  type Related = map<ElementId, seq<Edge>>
  type RelationMap = map<ElementId, map<string, seq<ElementId>>>

  function Targets(rel: RelationMap, source: ElementId, relation: string): seq<ElementId> {
    if source in rel && relation in rel[source] then rel[source][relation] else []
  }

  // append_relationship: create the nested entries on demand, add the target unless already listed.
  function AppendRelationship(rel: RelationMap, source: ElementId, relation: string, target: ElementId): RelationMap {
    var inner := if source in rel then rel[source] else map[];
    var targets := Listed(inner, relation);
    rel[source := inner[relation := if target in targets then targets else targets + [target]]]
  }

  // A set of directed labelled edges, as a predicate on (source, relation, target).
  type EdgeSet = (ElementId, string, ElementId) -> bool

  ghost predicate Holds(rel: RelationMap, edges: EdgeSet) {
    && (forall s, r :: NoDuplicates(Targets(rel, s, r)))
    && (forall s, r, t {:trigger t in Targets(rel, s, r)} {:trigger edges(s, r, t)} :: t in Targets(rel, s, r) <==>
      edges(s, r, t))
  }

  lemma AppendHolds(rel: RelationMap, edges: EdgeSet, source: ElementId, relation: string, target: ElementId,
                    edges': EdgeSet)
    requires Holds(rel, edges)
    requires forall s, r, t :: edges'(s, r, t) <==> edges(s, r, t) || (s == source && r == relation && t == target)
    ensures Holds(AppendRelationship(rel, source, relation, target), edges')
  {
    var rel' := AppendRelationship(rel, source, relation, target);
    forall s, r
      ensures Targets(rel', s, r) ==
        if s == source && r == relation && target !in Targets(rel, s, r) then Targets(rel, s, r) + [target]
        else Targets(rel, s, r)
    {
    }
    forall s, r ensures NoDuplicates(Targets(rel', s, r)) {
      assert NoDuplicates(Targets(rel, s, r));
    }
    forall s, r, t {:trigger t in Targets(rel', s, r)} ensures t in Targets(rel', s, r) <==> edges'(s, r, t) {
      assert t in Targets(rel, s, r) <==> edges(s, r, t);
    }
  }

  // One edge and its inverse.
  method WritePair(rel: RelationMap, source: ElementId, relation: string, target: ElementId, inverse: string,
                   ghost edges: EdgeSet, ghost edges': EdgeSet) returns (rel': RelationMap)
    requires Holds(rel, edges)
    requires forall s, r, t :: edges'(s, r, t) <==>
      edges(s, r, t) || (s == source && r == relation && t == target) || (s == target && r == inverse && t == source)
    ensures Holds(rel', edges')
  {
    ghost var middle: EdgeSet := (s, r, t) => edges(s, r, t) || (s == source && r == relation && t == target);
    AppendHolds(rel, edges, source, relation, target, middle);
    rel' := AppendRelationship(rel, source, relation, target);
    AppendHolds(rel', middle, target, inverse, source, edges');
    rel' := AppendRelationship(rel', target, inverse, source);
  }

  ghost predicate PlaneEdge(children: Children, forward: string, backward: string, s: ElementId, r: string,
                            t: ElementId) {
    (r == forward && t in Listed(children, s)) || (r == backward && s in Listed(children, t))
  }

  method WriteChildren(parent: ElementId, list: seq<ElementId>, forward: string, backward: string, rel: RelationMap,
                       ghost edges: EdgeSet, ghost edges': EdgeSet) returns (rel': RelationMap)
    requires Holds(rel, edges)
    requires forall s, r, t :: edges'(s, r, t) <==>
      edges(s, r, t) || (s == parent && r == forward && t in list) || (t == parent && r == backward && s in list)
    ensures Holds(rel', edges')
  {
    hide Holds;
    rel' := rel;
    ghost var done := edges;
    for i := 0 to |list|
      invariant Holds(rel', done)
      invariant forall s, r, t :: done(s, r, t) <==>
        edges(s, r, t) || (s == parent && r == forward && t in list[..i])
          || (t == parent && r == backward && s in list[..i])
    {
      assert list[..i + 1] == list[..i] + [list[i]];
      ghost var done': EdgeSet := (s, r, t) =>
        done(s, r, t) || (s == parent && r == forward && t == list[i])
          || (s == list[i] && r == backward && t == parent);
      rel' := WritePair(rel', parent, forward, list[i], backward, done, done');
      done := done';
    }
    assert list[..|list|] == list;
    SameEdges(rel', done, edges');
  }

  lemma SameEdges(rel: RelationMap, edges: EdgeSet, edges': EdgeSet)
    requires Holds(rel, edges)
    requires forall s, r, t :: edges(s, r, t) <==> edges'(s, r, t)
    ensures Holds(rel, edges')
  {
  }

  // for parent_id, child_ids in children_by_id.items(): for child_id in child_ids: ...
  method WritePlane(children: Children, forward: string, backward: string, rel: RelationMap,
                    ghost edges: EdgeSet, ghost edges': EdgeSet) returns (rel': RelationMap)
    requires Holds(rel, edges)
    requires forall s, r, t :: edges'(s, r, t) <==> edges(s, r, t) || PlaneEdge(children, forward, backward, s, r, t)
    ensures Holds(rel', edges')
  {
    hide Holds;
    rel' := rel;
    var rest := children.Keys;
    ghost var done := edges;
    while rest != {}
      invariant rest <= children.Keys
      invariant Holds(rel', done)
      invariant forall s, r, t :: done(s, r, t) <==>
        edges(s, r, t) || (r == forward && s !in rest && t in Listed(children, s))
          || (r == backward && t !in rest && s in Listed(children, t))
      decreases rest
    {
      var parent :| parent in rest;
      ghost var done': EdgeSet := (s, r, t) =>
        done(s, r, t) || (s == parent && r == forward && t in children[parent])
          || (t == parent && r == backward && s in children[parent]);
      rel' := WriteChildren(parent, children[parent], forward, backward, rel', done, done');
      rest, done := rest - {parent}, done';
    }
    SameEdges(rel', done, edges');
  }

  ghost predicate GraphEdge(related: Related, s: ElementId, r: string, t: ElementId) {
    Edge(r, t) in Listed(related, s) || (INVERSE <= r && Edge(r[|INVERSE|..], s) in Listed(related, t))
  }

  method WriteRelations(source: ElementId, list: seq<Edge>, rel: RelationMap, ghost edges: EdgeSet,
                        ghost edges': EdgeSet)
    returns (rel': RelationMap)
    requires Holds(rel, edges)
    requires forall s, r, t :: edges'(s, r, t) <==>
      edges(s, r, t) || (s == source && Edge(r, t) in list)
        || (t == source && INVERSE <= r && Edge(r[|INVERSE|..], s) in list)
    ensures Holds(rel', edges')
  {
    hide Holds;
    rel' := rel;
    ghost var done := edges;
    for i := 0 to |list|
      invariant Holds(rel', done)
      invariant forall s, r, t :: done(s, r, t) <==>
        edges(s, r, t) || (s == source && Edge(r, t) in list[..i])
          || (t == source && INVERSE <= r && Edge(r[|INVERSE|..], s) in list[..i])
    {
      var e := list[i];
      assert list[..i + 1] == list[..i] + [e];
      ghost var done': EdgeSet := (s, r, t) =>
        done(s, r, t) || (s == source && r == e.relation && t == e.target)
          || (s == e.target && r == InverseName(e.relation) && t == source);
      forall r ensures r == InverseName(e.relation) <==> INVERSE <= r && r[|INVERSE|..] == e.relation {
        InverseNameIsInjective(e.relation, e.relation);
        assert INVERSE <= r ==> r == INVERSE + r[|INVERSE|..];
      }
      rel' := WritePair(rel', source, e.relation, e.target, InverseName(e.relation), done, done');
      done := done';
    }
    assert list[..|list|] == list;
    SameEdges(rel', done, edges');
  }

  method WriteGraph(related: Related, rel: RelationMap, ghost edges: EdgeSet, ghost edges': EdgeSet)
    returns (rel': RelationMap)
    requires Holds(rel, edges)
    requires forall s, r, t :: edges'(s, r, t) <==> edges(s, r, t) || GraphEdge(related, s, r, t)
    ensures Holds(rel', edges')
  {
    hide Holds;
    rel' := rel;
    var rest := related.Keys;
    ghost var done := edges;
    while rest != {}
      invariant rest <= related.Keys
      invariant Holds(rel', done)
      invariant forall s, r, t :: done(s, r, t) <==>
        edges(s, r, t) || (s !in rest && Edge(r, t) in Listed(related, s))
          || (t !in rest && INVERSE <= r && Edge(r[|INVERSE|..], s) in Listed(related, t))
      decreases rest
    {
      var source :| source in rest;
      ghost var done': EdgeSet := (s, r, t) =>
        done(s, r, t) || (s == source && Edge(r, t) in related[source])
        || (t == source && INVERSE <= r && Edge(r[|INVERSE|..], s) in related[source]);
      rel' := WriteRelations(source, related[source], rel', done, done');
      rest, done := rest - {source}, done';
    }
    SameEdges(rel', done, edges');
  }

  // Everything the three write phases put into the map.
  ghost predicate Written(h: Children, c: Children, g: Related, s: ElementId, r: string, t: ElementId) {
    PlaneEdge(h, "HasChildren", "HasParent", s, r, t) || PlaneEdge(c, "HasComponent", "ComponentOf", s, r, t)
      || GraphEdge(g, s, r, t)
  }

  ghost function WrittenEdges(h: Children, c: Children, g: Related): EdgeSet {
    (s, r, t) => Written(h, c, g, s, r, t)
  }

  method WriteAll(ids: set<ElementId>, h: Children, c: Children, g: Related) returns (rel: RelationMap)
    ensures Holds(rel, WrittenEdges(h, c, g))
  {
    rel := map id | id in ids :: map[];
    ghost var e0: EdgeSet := (s, r, t) => false;
    ghost var e1: EdgeSet := (s, r, t) => PlaneEdge(h, "HasChildren", "HasParent", s, r, t);
    ghost var e2: EdgeSet := (s, r, t) => e1(s, r, t) || PlaneEdge(c, "HasComponent", "ComponentOf", s, r, t);
    assert forall s, r :: Targets(rel, s, r) == [];
    assert Holds(rel, e0);
    rel := WritePlane(h, "HasChildren", "HasParent", rel, e0, e1);
    rel := WritePlane(c, "HasComponent", "ComponentOf", rel, e1, e2);
    rel := WriteGraph(g, rel, e2, WrittenEdges(h, c, g));
  }

  // ----- Inverse closure -----

  // The reverse of a relationship type: built-in pairs, and "inverseOf_" added or removed for graph IDs.
  function ReverseOf(graphIds: set<string>, r: string): string {
    if r == "HasChildren" then "HasParent"
    else if r == "HasParent" then "HasChildren"
    else if r == "HasComponent" then "ComponentOf"
    else if r == "ComponentOf" then "HasComponent"
    else if r in graphIds then InverseName(r)
    else if INVERSE <= r then r[|INVERSE|..]
    else r
  }

  ghost predicate RelationsIn(g: Related, graphIds: set<string>) {
    forall s, e {:trigger e in Listed(g, s)} :: e in Listed(g, s) ==> e.relation in graphIds
  }

  ghost predicate PlainIds(graphIds: set<string>) {
    forall r :: r in graphIds ==> r !in BUILT_IN
  }

  // For every type of the catalogue, t is listed under r of s iff s is listed under r's reverse of t.
  ghost predicate InverseClosed(rel: RelationMap, graphIds: set<string>) {
    forall s, t, r :: r in BUILT_IN || r in graphIds ==>
      (t in Targets(rel, s, r) <==> s in Targets(rel, t, ReverseOf(graphIds, r)))
  }

  ghost predicate Apart(graphIds: set<string>) {
    forall r :: r in graphIds ==> InverseName(r) !in graphIds
  }

  lemma InverseOfBuiltIn(r: string)
    ensures InverseName(r) !in BUILT_IN && (r in BUILT_IN ==> !(INVERSE <= r))
  {
    assert InverseName(r)[0] == 'i';
    if INVERSE <= r { assert r[0] == 'i'; }
  }

  // What a graph ID and its inverse name list, spelled out.
  lemma GraphTargets(rel: RelationMap, h: Children, c: Children, g: Related, graphIds: set<string>, r: string,
                     s: ElementId, t: ElementId)
    requires Holds(rel, WrittenEdges(h, c, g))
    requires RelationsIn(g, graphIds) && PlainIds(graphIds) && r in graphIds
    ensures t in Targets(rel, s, r) <==>
      Edge(r, t) in Listed(g, s) || (INVERSE <= r && Edge(r[|INVERSE|..], s) in Listed(g, t))
    ensures s in Targets(rel, t, InverseName(r)) <==>
      Edge(r, t) in Listed(g, s) || Edge(InverseName(r), s) in Listed(g, t)
  {
    InverseOfBuiltIn(r);
    InverseNameIsInjective(r, r);
    var edges := WrittenEdges(h, c, g);
    assert edges(s, r, t) <==> GraphEdge(g, s, r, t);
    assert edges(t, InverseName(r), s) <==> GraphEdge(g, t, InverseName(r), s);
  }

  lemma BuiltInTargets(rel: RelationMap, h: Children, c: Children, g: Related, graphIds: set<string>, r: string,
                       s: ElementId, t: ElementId)
    requires Holds(rel, WrittenEdges(h, c, g))
    requires RelationsIn(g, graphIds) && PlainIds(graphIds) && r in BUILT_IN
    ensures t in Targets(rel, s, r) <==> s in Targets(rel, t, ReverseOf(graphIds, r))
    ensures t in Targets(rel, s, "HasParent") <==> s in Listed(h, t)
  {
    var edges := WrittenEdges(h, c, g);
    forall b, u, v | b in BUILT_IN ensures !GraphEdge(g, u, b, v) { InverseOfBuiltIn(b); }
    var back := ReverseOf(graphIds, r);
    assert edges(s, r, t) <==>
      PlaneEdge(h, "HasChildren", "HasParent", s, r, t) || PlaneEdge(c, "HasComponent", "ComponentOf", s, r, t);
    assert edges(t, back, s) <==>
      PlaneEdge(h, "HasChildren", "HasParent", t, back, s) || PlaneEdge(c, "HasComponent", "ComponentOf", t, back, s);
    assert edges(s, "HasParent", t) <==> PlaneEdge(h, "HasChildren", "HasParent", s, "HasParent", t);
  }

  // Where an ID is the inverse name of another, every edge of the one is matched by an edge of the other that
  // makes up for it.
  ghost predicate ClashesAreMatched(g: Related, graphIds: set<string>) {
    forall s, t, r {:trigger Edge(r, t), Edge(InverseName(r), s)} :: r in graphIds && Edge(r, t) !in Listed(g, s) ==>
      (MatchesBelow(g, r, s, t) <==> Edge(InverseName(r), s) in Listed(g, t))
  }

  // r is itself an inverse name, and the edge it is the inverse of leads from t to s.
  ghost predicate MatchesBelow(g: Related, r: string, s: ElementId, t: ElementId) {
    INVERSE <= r && Edge(r[|INVERSE|..], s) in Listed(g, t)
  }

  // One written map is inverse-closed exactly when its clashing edges are matched.
  lemma ClosedIffMatched(rel: RelationMap, h: Children, c: Children, g: Related, graphIds: set<string>)
    requires Holds(rel, WrittenEdges(h, c, g))
    requires RelationsIn(g, graphIds) && PlainIds(graphIds)
    ensures InverseClosed(rel, graphIds) <==> ClashesAreMatched(g, graphIds)
  {
    hide Holds, WrittenEdges, RelationsIn;
    forall r, s, t | r in graphIds
      ensures (t in Targets(rel, s, r) <==> s in Targets(rel, t, InverseName(r))) <==>
        (Edge(r, t) !in Listed(g, s) ==> (MatchesBelow(g, r, s, t) <==> Edge(InverseName(r), s) in Listed(g, t)))
    {
      GraphTargets(rel, h, c, g, graphIds, r, s, t);
    }
    forall r, s, t | r in BUILT_IN ensures t in Targets(rel, s, r) <==> s in Targets(rel, t, ReverseOf(graphIds, r)) {
      BuiltInTargets(rel, h, c, g, graphIds, r, s, t);
    }
    if InverseClosed(rel, graphIds) {
      forall s, t, r {:trigger Edge(r, t), Edge(InverseName(r), s)} | r in graphIds && Edge(r, t) !in Listed(g, s)
        ensures MatchesBelow(g, r, s, t) <==> Edge(InverseName(r), s) in Listed(g, t)
      {
        assert t in Targets(rel, s, r) <==> s in Targets(rel, t, ReverseOf(graphIds, r));
        GraphReverse(graphIds, r);
      }
    } else {
      var s, t, r :| (r in BUILT_IN || r in graphIds)
        && !(t in Targets(rel, s, r) <==> s in Targets(rel, t, ReverseOf(graphIds, r)));
      GraphReverse(graphIds, r);
      assert Edge(r, t) !in Listed(g, s) && !(MatchesBelow(g, r, s, t) <==> Edge(InverseName(r), s) in Listed(g, t));
    }
  }

  lemma GraphReverse(graphIds: set<string>, r: string)
    requires PlainIds(graphIds)
    ensures r in graphIds ==> ReverseOf(graphIds, r) == InverseName(r)
  {
  }

  lemma ApartIsClosed(rel: RelationMap, h: Children, c: Children, g: Related, graphIds: set<string>)
    requires Holds(rel, WrittenEdges(h, c, g))
    requires RelationsIn(g, graphIds) && PlainIds(graphIds) && Apart(graphIds)
    ensures InverseClosed(rel, graphIds)
  {
    ClosedIffMatched(rel, h, c, g, graphIds);
    hide Holds, WrittenEdges;
    forall s, t, r {:trigger Edge(r, t), Edge(InverseName(r), s)} | r in graphIds && Edge(r, t) !in Listed(g, s)
      ensures MatchesBelow(g, r, s, t) <==> Edge(InverseName(r), s) in Listed(g, t)
    {
      assert Edge(InverseName(r), s) !in Listed(g, t);
      if INVERSE <= r {
        assert r == InverseName(r[|INVERSE|..]);
      }
    }
  }

  // The last ID of a chain r, inverseOf_r, inverseOf_inverseOf_r, ... inside a finite set.
  lemma {:induction false} TopOfChain(graphIds: set<string>, r: string) returns (top: string)
    requires r in graphIds && InverseName(r) in graphIds
    ensures top in graphIds && InverseName(top) in graphIds && InverseName(InverseName(top)) !in graphIds
  {
    if InverseName(InverseName(r)) !in graphIds {
      top := r;
    } else {
      assert InverseName(InverseName(r)) != r && InverseName(r) != r by {
        assert |InverseName(r)| == |INVERSE| + |r|;
      }
      forall q | q in graphIds && |q| > |r| ensures q in graphIds - {r} {}
      var rest := set q | q in graphIds && |q| > |r|;
      top := TopOfChainAbove(graphIds, rest, InverseName(r));
    }
  }

  lemma {:induction false} TopOfChainAbove(graphIds: set<string>, longer: set<string>, r: string) returns (top: string)
    requires r in longer && InverseName(r) in graphIds && longer <= graphIds
    requires forall q :: q in graphIds && |q| >= |r| ==> q in longer
    ensures top in graphIds && InverseName(top) in graphIds && InverseName(InverseName(top)) !in graphIds
    decreases longer
  {
    if InverseName(InverseName(r)) !in graphIds {
      top := r;
    } else {
      assert |InverseName(r)| == |INVERSE| + |r|;
      var rest := set q | q in longer && |q| > |r|;
      assert r !in rest && rest < longer;
      top := TopOfChainAbove(graphIds, rest, InverseName(r));
    }
  }

  // Two IDs that clash: a single edge under the upper one of the chain is enough to break closure.
  lemma ClashBreaksClosure(graphIds: set<string>, p: string) returns (rel: RelationMap, g: Related)
    requires PlainIds(graphIds)
    requires p in graphIds && InverseName(p) in graphIds && InverseName(InverseName(p)) !in graphIds
    ensures RelationsIn(g, graphIds) && Holds(rel, WrittenEdges(map[], map[], g)) && !InverseClosed(rel, graphIds)
  {
    var s, t := "a", "b";
    g := map[s := [Edge(p, t)]];
    var back := InverseName(p);
    rel := map[s := map[p := [t]], t := map[back := [s]]];
    InverseNameIsInjective(p, p);
    assert |back| == |INVERSE| + |p|;
    forall u, r, v {:trigger v in Targets(rel, u, r)}
      ensures v in Targets(rel, u, r) <==> WrittenEdges(map[], map[], g)(u, r, v)
    {
      assert !PlaneEdge(map[], "HasChildren", "HasParent", u, r, v)
        && !PlaneEdge(map[], "HasComponent", "ComponentOf", u, r, v);
      assert INVERSE <= r ==> r == InverseName(r[|INVERSE|..]);
      assert GraphEdge(g, u, r, v) <==> (u == s && r == p && v == t) || (u == t && r == back && v == s);
    }
    InverseOfBuiltIn(p);
    assert s in Targets(rel, t, back);
    assert ReverseOf(graphIds, back) == InverseName(back) && t !in Targets(rel, s, ReverseOf(graphIds, back));
  }

  // Every graph over these IDs yields an inverse-closed map iff no ID is the inverse name of another.
  lemma InverseClosedIff(graphIds: set<string>)
    requires PlainIds(graphIds)
    ensures Apart(graphIds) <==>
      forall rel, h, c, g :: Holds(rel, WrittenEdges(h, c, g)) && RelationsIn(g, graphIds) ==>
        InverseClosed(rel, graphIds)
  {
    if Apart(graphIds) {
      forall rel, h, c, g | Holds(rel, WrittenEdges(h, c, g)) && RelationsIn(g, graphIds)
        ensures InverseClosed(rel, graphIds)
      {
        ApartIsClosed(rel, h, c, g, graphIds);
      }
    } else {
      var r :| r in graphIds && InverseName(r) in graphIds;
      var top := TopOfChain(graphIds, r);
      var rel, g := ClashBreaksClosure(graphIds, top);
    }
  }

  lemma FirstTwoDiffer<T(!new)>(list: seq<T>)
    requires NoDuplicates(list)
    ensures |list| < 2 || list[0] != list[1]
  {
  }

  // HasParent lists never hold more than one element, whatever the IDs.
  lemma AtMostOneParent(rel: RelationMap, h: Children, c: Children, g: Related, graphIds: set<string>,
                        parent: map<ElementId, ElementId>, s: ElementId)
    requires Holds(rel, WrittenEdges(h, c, g))
    requires RelationsIn(g, graphIds) && PlainIds(graphIds)
    requires forall p, d :: d in Listed(h, p) <==> d in parent && parent[d] == p
    ensures Targets(rel, s, "HasParent") == if s in parent then [parent[s]] else []
  {
    var list := Targets(rel, s, "HasParent");
    forall t ensures t in list <==> s in parent && parent[s] == t {
      BuiltInTargets(rel, h, c, g, graphIds, "HasParent", s, t);
    }
    assert NoDuplicates(list);
    if s in parent {
      assert parent[s] in list;
      forall i | 0 <= i < |list| ensures list[i] == parent[s] {
        assert list[i] in list;
      }
      FirstTwoDiffer(list);
    } else {
      HasElement(list);
    }
  }
}
