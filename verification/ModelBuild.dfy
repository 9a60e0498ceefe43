// ModelBuilder.build as a whole, and what holds of every model it returns.
module ModelBuild {
  import opened ModelBuilder
  import opened PlaneSelection
  import opened Relationships
  import opened RelationshipMap
  import opened Options

  datatype BuiltModel = BuiltModel(
    elementIds: set<ElementId>,
    hierarchyParent: map<ElementId, ElementId>, compositionParent: map<ElementId, ElementId>,
    hierarchyChildren: Children, compositionChildren: Children,
    related: Related, relationships: RelationMap, idTable: IdTable,
    parentById: map<ElementId, Option<ElementId>>, rootIds: seq<ElementId>)

  datatype Outcome = UnresolvedNamespace | AmbiguousRelationshipId | Built(model: BuiltModel)

  type Graph = map<ElementId, seq<GraphEntry>>

  // The intermediate results a build went through.
  datatype Trail = Trail(drafts: Drafts, hierarchyBest: map<ElementId, Candidate>,
                         compositionBest: map<ElementId, Candidate>,
                         ownGraph: Graph, graph: Graph, namespaces: Namespaces)

  // The last of the first n nodes that is mapped to the element is at position i.
  ghost predicate IsLastSource(m: Mapping, b: Browse, n: int, id: ElementId, i: int) {
    && 0 <= i < n <= |b.order| && b.order[i] in b.bySource && IdOf(m, b, b.order[i]) == id
    && forall j :: i < j < n && b.order[j] in b.bySource ==> IdOf(m, b, b.order[j]) != id
  }

  // Each element starts from the entries of its last source node; there is one unless two nodes share an element ID.
  ghost predicate OwnUpTo(m: Mapping, b: Browse, d: Drafts, n: int, own: Graph) {
    && (forall id :: id in own ==> exists i :: IsLastSource(m, b, n, id, i))
    && (forall id, i :: IsLastSource(m, b, n, id, i) ==> id in own && own[id] == Listed(d.graph, b.order[i]))
  }

  ghost predicate OwnEntries(m: Mapping, b: Browse, d: Drafts, own: Graph) {
    OwnUpTo(m, b, d, |b.order|, own)
  }

  ghost predicate RelatedIs(graph: Graph, t: IdTable, related: Related) {
    forall s, e {:trigger e in Listed(related, s)} :: e in Listed(related, s) <==>
      exists k :: k in t.ids && t.ids[k] == e.relation && GraphEntry(k.name, k.namespace, e.target) in Listed(graph, s)
  }

  function ParentOf(model: BuiltModel, id: ElementId): Option<ElementId> {
    if id in model.hierarchyParent then Some(model.hierarchyParent[id])
    else if id in model.compositionParent then Some(model.compositionParent[id])
    else None
  }

  ghost predicate ParentsResolved(m: Mapping, b: Browse, model: BuiltModel) {
    && (forall id :: id in model.elementIds <==> exists s :: s in b.bySource && IdOf(m, b, s) == id)
    && model.parentById.Keys == model.elementIds
    && (forall id :: id in model.elementIds ==> model.parentById[id] == ParentOf(model, id))
    && (forall id :: id in model.rootIds <==> id in model.elementIds && ParentOf(model, id) == None)
  }

  ghost predicate IsModelOf(m: Mapping, b: Browse, tr: Trail, model: BuiltModel) {
    && CompleteDrafts(m, b, tr.drafts)
    && PlaneFacts(m, b, tr.drafts.hierarchy, tr.hierarchyBest, model.hierarchyParent, model.hierarchyChildren)
    && PlaneFacts(m, b, tr.drafts.composition, tr.compositionBest, model.compositionParent, model.compositionChildren)
    && OwnEntries(m, b, tr.drafts, tr.ownGraph)
    && GraphExtended(m, b, tr.drafts.hierarchy, tr.hierarchyBest, tr.ownGraph, tr.graph)
    && NamespacesExtended(tr.drafts.hierarchy, tr.hierarchyBest, tr.drafts.namespaces, tr.namespaces)
    && CompleteIds(tr.namespaces, model.idTable)
    && RelatedIs(tr.graph, model.idTable, model.related)
    && Holds(model.relationships, WrittenEdges(model.hierarchyChildren, model.compositionChildren, model.related))
    && ParentsResolved(m, b, model)
  }

  // ----- Gluing the phases -----

  lemma CandidatesAreKnown(m: Mapping, b: Browse, d: Drafts)
    requires CompleteDrafts(m, b, d)
    ensures Nonempty(d.hierarchy) && KnownParents(b, d.hierarchy) && Nonempty(d.composition)
      && KnownParents(b, d.composition)
  {
    assert CandidatesOf(m, b, HierarchyClass, d.hierarchy, (s, r) => true);
    assert CandidatesOf(m, b, CompositionClass, d.composition, (s, r) => true);
  }

  lemma OwnOneMore(m: Mapping, b: Browse, d: Drafts, n: nat, own: Graph)
    requires OwnUpTo(m, b, d, n, own) && n < |b.order| && b.order[n] in b.bySource
    ensures OwnUpTo(m, b, d, n + 1, own[IdOf(m, b, b.order[n]) := Listed(d.graph, b.order[n])])
  {
    hide IdOf, Listed;
    var mine := IdOf(m, b, b.order[n]);
    assert IsLastSource(m, b, n + 1, mine, n);
    forall id, i
      ensures IsLastSource(m, b, n + 1, id, i) <==> (if id == mine then i == n else IsLastSource(m, b, n, id, i))
    {
      if i < n && id == mine {
        assert b.order[n] in b.bySource;
      }
    }
  }

  // graph_entries_by_id as built from the nodes in their order.
  method CollectOwnEntries(m: Mapping, b: Browse, d: Drafts) returns (own: Graph)
    requires b.Valid()
    ensures OwnEntries(m, b, d, own)
  {
    own := map[];
    for i := 0 to |b.order|
      invariant OwnUpTo(m, b, d, i, own)
    {
      hide OwnUpTo;
      assert b.order[i] in b.order;
      OwnOneMore(m, b, d, i, own);
      own := own[IdOf(m, b, b.order[i]) := Listed(d.graph, b.order[i])];
    }
  }

  ghost predicate EntriesRegistered(graph: Graph, namespaces: Namespaces) {
    forall s, e {:trigger e in Listed(graph, s)} :: e in Listed(graph, s) ==>
      e.namespace in Registered(namespaces, e.name)
  }

  lemma DraftEntryRegistered(m: Mapping, b: Browse, d: Drafts, s: NodeId, e: GraphEntry)
    requires CompleteDrafts(m, b, d) && e in Listed(d.graph, s)
    ensures e.namespace in Registered(d.namespaces, e.name)
  {
    var all: Progress := (s, r) => true;
    assert GraphOf(m, b, d.graph, all) && NamespacesOf(m, b, d.namespaces, all);
    var r :| all(s, r) && Yields(m, b, s, e, r);
    assert e == GraphEntry(e.name, e.namespace, e.target);
  }

  lemma AllRegistered(m: Mapping, b: Browse, tr: Trail, parent: map<ElementId, ElementId>, children: Children)
    requires CompleteDrafts(m, b, tr.drafts) && OwnEntries(m, b, tr.drafts, tr.ownGraph)
    requires PlaneFacts(m, b, tr.drafts.hierarchy, tr.hierarchyBest, parent, children)
    requires GraphExtended(m, b, tr.drafts.hierarchy, tr.hierarchyBest, tr.ownGraph, tr.graph)
    requires NamespacesExtended(tr.drafts.hierarchy, tr.hierarchyBest, tr.drafts.namespaces, tr.namespaces)
    ensures EntriesRegistered(tr.graph, tr.namespaces)
  {
    hide CompleteDrafts;
    forall s, e {:trigger e in Listed(tr.graph, s)} | e in Listed(tr.graph, s)
      ensures e.namespace in Registered(tr.namespaces, e.name)
    {
      if e in Listed(tr.ownGraph, s) {
        var i :| IsLastSource(m, b, |b.order|, s, i);
        DraftEntryRegistered(m, b, tr.drafts, b.order[i], e);
      } else {
        var d :| d in tr.drafts.hierarchy[s] && Loses(d, tr.hierarchyBest[s]);
        assert d in Listed(tr.drafts.hierarchy, s);
        assert SomeLoser(tr.drafts.hierarchy, tr.hierarchyBest);
      }
    }
  }

  function EdgesOf(entries: seq<GraphEntry>, t: IdTable): (edges: seq<Edge>)
    requires forall e :: e in entries ==> RelationKey(e.name, e.namespace) in t.ids
    ensures |edges| == |entries|
    ensures forall i :: 0 <= i < |edges| ==>
      edges[i] == Edge(t.ids[RelationKey(entries[i].name, entries[i].namespace)], entries[i].target)
  {
    seq(|entries|,
        i requires 0 <= i < |entries| => Edge(t.ids[RelationKey(entries[i].name, entries[i].namespace)],
                                              entries[i].target))
  }

  lemma EdgeMembership(entries: seq<GraphEntry>, t: IdTable, e: Edge)
    requires forall g :: g in entries ==> RelationKey(g.name, g.namespace) in t.ids
    ensures e in EdgesOf(entries, t) <==>
      exists k :: k in t.ids && t.ids[k] == e.relation && GraphEntry(k.name, k.namespace, e.target) in entries
  {
    var edges := EdgesOf(entries, t);
    if e in edges {
      var i :| 0 <= i < |edges| && edges[i] == e;
      var k := RelationKey(entries[i].name, entries[i].namespace);
      assert entries[i] in entries;
      assert k in t.ids && t.ids[k] == e.relation && GraphEntry(k.name, k.namespace, e.target) == entries[i];
    }
    if exists k :: k in t.ids && t.ids[k] == e.relation && GraphEntry(k.name, k.namespace, e.target) in entries {
      var k :| k in t.ids && t.ids[k] == e.relation && GraphEntry(k.name, k.namespace, e.target) in entries;
      var i :| 0 <= i < |entries| && entries[i] == GraphEntry(k.name, k.namespace, e.target);
      assert edges[i] == e;
    }
  }

  method Relate(graph: Graph, t: IdTable, namespaces: Namespaces) returns (related: Related)
    requires EntriesRegistered(graph, namespaces) && CompleteIds(namespaces, t)
    ensures RelatedIs(graph, t, related)
  {
    forall s, e | s in graph && e in graph[s] ensures RelationKey(e.name, e.namespace) in t.ids {
      assert e in Listed(graph, s);
      assert IsKey(namespaces, RelationKey(e.name, e.namespace));
    }
    related := map s | s in graph :: EdgesOf(graph[s], t);
    forall s, e {:trigger e in Listed(related, s)} ensures e in Listed(related, s) <==>
        exists k :: k in t.ids && t.ids[k] == e.relation
          && GraphEntry(k.name, k.namespace, e.target) in Listed(graph, s) {
      if s in graph {
        EdgeMembership(graph[s], t, e);
      }
    }
  }

  function Resolved(m: Mapping, b: Browse, hierarchyParent: map<ElementId, ElementId>,
                    parentSource: map<ElementId, NodeId>,
                    id: ElementId): Option<ElementId>
    requires forall c :: c in parentSource ==> parentSource[c] in b.bySource
  {
    if id in hierarchyParent then Some(hierarchyParent[id])
    else if id in parentSource then Some(IdOf(m, b, parentSource[id])) else None
  }

  method ResolveParents(m: Mapping, b: Browse, hierarchyParent: map<ElementId, ElementId>,
                        parentSource: map<ElementId, NodeId>)
    returns (parentById: map<ElementId, Option<ElementId>>, rootIds: seq<ElementId>)
    requires forall c :: c in parentSource ==> parentSource[c] in b.bySource
    ensures forall id :: id in parentById <==> exists s :: s in b.bySource && IdOf(m, b, s) == id
    ensures forall id :: id in parentById ==> parentById[id] == Resolved(m, b, hierarchyParent, parentSource, id)
    ensures forall id :: id in rootIds <==> id in parentById && parentById[id] == None
  {
    parentById, rootIds := map[], [];
    var rest := b.bySource.Keys;
    while rest != {}
      invariant rest <= b.bySource.Keys
      invariant forall id :: id in parentById <==> exists s :: s in b.bySource && s !in rest && IdOf(m, b, s) == id
      invariant forall id :: id in parentById ==> parentById[id] == Resolved(m, b, hierarchyParent, parentSource, id)
      invariant forall id :: id in rootIds <==> id in parentById && parentById[id] == None
      decreases rest
    {
      hide IdOf;
      var s :| s in rest;
      var id := IdOf(m, b, s);
      var resolved := if id in hierarchyParent then Some(hierarchyParent[id]) else None;
      if resolved == None && id in parentSource {
        resolved := Some(IdOf(m, b, parentSource[id]));
      }
      parentById := parentById[id := resolved];
      if resolved == None {
        rootIds := rootIds + [id];
      }
      rest := rest - {s};
    }
  }

  // The parent that map_node receives is the hierarchy parent, else the composition parent.
  lemma ResolvedIsParentOf(m: Mapping, b: Browse, model: BuiltModel, hierarchyBest: map<ElementId, Candidate>,
                           hierarchySource: map<ElementId, NodeId>, table: Table,
                           compositionBest: map<ElementId, Candidate>, parentSource: map<ElementId, NodeId>)
    requires ParentsAre(m, b, hierarchyBest, model.hierarchyParent, hierarchySource)
    requires PlaneFacts(m, b, table, compositionBest, model.compositionParent, model.compositionChildren)
    requires SourcesMerged(hierarchySource, compositionBest, parentSource)
    ensures forall c :: c in parentSource ==> parentSource[c] in b.bySource
    ensures forall id :: Resolved(m, b, model.hierarchyParent, parentSource, id) == ParentOf(model, id)
  {
  }

  lemma SourcesAreKnown(m: Mapping, b: Browse, table: Table, hierarchyBest: map<ElementId, Candidate>,
                        hierarchyParent: map<ElementId, ElementId>, hierarchySource: map<ElementId, NodeId>,
                        compositionBest: map<ElementId, Candidate>, compositionParent: map<ElementId, ElementId>,
                        compositionChildren: Children, parentSource: map<ElementId, NodeId>)
    requires ParentsAre(m, b, hierarchyBest, hierarchyParent, hierarchySource)
    requires PlaneFacts(m, b, table, compositionBest, compositionParent, compositionChildren)
    requires SourcesMerged(hierarchySource, compositionBest, parentSource)
    ensures forall c :: c in parentSource ==> parentSource[c] in b.bySource
  {
  }

  // ----- The registered relations, as the address space determines them -----

  // Two hierarchy candidates of one element that differ in parent or priority: one of them loses.
  ghost predicate HasLoser(m: Mapping, b: Browse) {
    exists child, c, d :: Competes(m, b, child, c, d)
  }

  ghost predicate Competes(m: Mapping, b: Browse, child: ElementId, c: Candidate, d: Candidate) {
    IsCandidate(m, b, HierarchyClass, child, c) && IsCandidate(m, b, HierarchyClass, child, d) && Loses(c, d)
  }

  // The relation is that of a graph reference, or OrganizedBy of a losing hierarchy parent.
  ghost predicate Registers(m: Mapping, b: Browse, k: RelationKey) {
    || (exists s, t, r :: Yields(m, b, s, GraphEntry(k.name, k.namespace, t), r))
    || (k == RelationKey("OrganizedBy", I3X_NAMESPACE) && HasLoser(m, b))
  }

  ghost predicate QualifiesIn(m: Mapping, b: Browse, name: string) {
    || (exists ns, other ::
          ns != other && Registers(m, b, RelationKey(name, ns)) && Registers(m, b, RelationKey(name, other)))
    || name in BUILT_IN || INVERSE <= name || ':' in name
  }

  ghost function IdIn(m: Mapping, b: Browse, k: RelationKey): string {
    if QualifiesIn(m, b, k.name) then k.namespace + ":" + k.name else k.name
  }

  // Two relations of the address space would share an ID.
  ghost predicate Collides(m: Mapping, b: Browse) {
    exists k, j :: k != j && Registers(m, b, k) && Registers(m, b, j) && IdIn(m, b, k) == IdIn(m, b, j)
  }

  // Some reference type has no namespace.
  ghost predicate Unresolved(m: Mapping, b: Browse) {
    exists s, e :: Unresolvable(m, b, s, e)
  }

  lemma LoserIffCompetition(m: Mapping, b: Browse, table: Table, best: map<ElementId, Candidate>)
    requires CandidatesOf(m, b, HierarchyClass, table, (s, r) => true)
    requires best.Keys == table.Keys && BestOfAll(table, best)
    ensures SomeLoser(table, best) <==> HasLoser(m, b)
  {
    hide CandidatesOf, IsCandidate;
    if SomeLoser(table, best) {
      var child, d :| child in best && d in Listed(table, child) && Loses(d, best[child]);
      TableIffCandidate(m, b, HierarchyClass, table, child);
      BestIsMember(best[child], table[child]);
      assert Competes(m, b, child, d, best[child]);
    }
    if child, c, d :| Competes(m, b, child, c, d) {
      TableIffCandidate(m, b, HierarchyClass, table, child);
      assert c in Listed(table, child) && d in Listed(table, child);
      assert Loses(c, best[child]) || Loses(d, best[child]);
    }
  }

  lemma TableIffCandidate(m: Mapping, b: Browse, plane: ReferenceClass, table: Table, child: ElementId)
    requires CandidatesOf(m, b, plane, table, (s, r) => true)
    ensures child in table <==> exists c :: IsCandidate(m, b, plane, child, c)
    ensures forall c :: c in Listed(table, child) <==> IsCandidate(m, b, plane, child, c)
  {
    var all: Progress := (s, r) => true;
    assert Tabulates(table, OffersIn(m, b, plane), all);
    forall c: Candidate ensures c in Listed(table, child) <==> IsCandidate(m, b, plane, child, c) {
      if IsCandidate(m, b, plane, child, c) {
        var r :| Offers(m, b, plane, child, c, r);
        assert all(c.parent, r) && OffersIn(m, b, plane)(child, c, r);
      }
    }
    if child in table {
      assert table[child] != [] && table[child][0] in Listed(table, child);
    }
  }

  // The namespace table of a build holds exactly the registered relations.
  lemma NamespacesAreRegistered(m: Mapping, b: Browse, d: Drafts, best: map<ElementId, Candidate>,
                                namespaces: Namespaces)
    requires CompleteDrafts(m, b, d) && best.Keys == d.hierarchy.Keys && BestOfAll(d.hierarchy, best)
    requires NamespacesExtended(d.hierarchy, best, d.namespaces, namespaces)
    ensures forall k :: IsKey(namespaces, k) <==> Registers(m, b, k)
  {
    LoserIffCompetition(m, b, d.hierarchy, best);
    var all: Progress := (s, r) => true;
    assert NamespacesOf(m, b, d.namespaces, all);
    hide SomeLoser, HasLoser, Yields, Registered;
    forall k ensures IsKey(namespaces, k) <==> Registers(m, b, k) {
      if s, t, r :| Yields(m, b, s, GraphEntry(k.name, k.namespace, t), r) {
        assert all(s, r);
      }
      assert k.namespace in Registered(namespaces, k.name) <==>
        k.namespace in Registered(d.namespaces, k.name)
          || (k == RelationKey("OrganizedBy", I3X_NAMESPACE) && HasLoser(m, b));
    }
  }

  lemma TwoNamespaces(names: set<string>)
    ensures |names| > 1 <==> exists n, o :: n in names && o in names && n != o
  {
    if |names| > 1 {
      var n :| n in names;
      assert |names - {n}| > 0;
      var o :| o in names - {n};
    }
    if n, o :| n in names && o in names && n != o {
      assert {n, o} <= names && |{n, o}| == 2;
      assert |names - {n, o}| + |{n, o}| == |names| by { assert names == (names - {n, o}) + {n, o}; }
    }
  }

  lemma SameIds(m: Mapping, b: Browse, namespaces: Namespaces)
    requires forall k :: IsKey(namespaces, k) <==> Registers(m, b, k)
    ensures forall k :: RelationId(namespaces, k) == IdIn(m, b, k)
    ensures Ambiguous(namespaces) <==> Collides(m, b)
  {
    hide Registers;
    forall name ensures Qualifies(namespaces, name) <==> QualifiesIn(m, b, name) {
      TwoNamespaces(Registered(namespaces, name));
      assert forall ns :: ns in Registered(namespaces, name) <==> IsKey(namespaces, RelationKey(name, ns));
    }
  }

  // A build fails exactly when a reference type has no namespace, or else when two relations share an ID;
  // in every other case it returns a model of the address space.
  method Build(m: Mapping, nodes: seq<BrowsedNode>) returns (r: Outcome, ghost tr: Trail)
    ensures r.UnresolvedNamespace? <==> Unresolved(m, BrowseOf(nodes))
    ensures r.AmbiguousRelationshipId? <==> !Unresolved(m, BrowseOf(nodes)) && Collides(m, BrowseOf(nodes))
    ensures r.Built? ==> IsModelOf(m, BrowseOf(nodes), tr, r.model)
  {
    hide Unresolvable, Ambiguous, CompleteDrafts, BrowseOf, InverseOf, GraphExtended, NamespacesExtended, OwnEntries,
      CompleteIds, RelatedIs, Holds,
      KnownParents, EntriesRegistered, IdOf, Collides, BestOfAll, PlaneFacts, ParentsAre, SourcesMerged, Resolved,
      ParentOf, WrittenEdges;
    var b := BrowseOf(nodes);
    BrowseIsValid(nodes);
    tr := Trail(Drafts(map[], map[], map[], map[]), map[], map[], map[], map[], map[]);
    var collected := Collect(m, b);
    if collected.None? {
      return UnresolvedNamespace, tr;
    }
    var drafts := collected.value;
    CandidatesAreKnown(m, b, drafts);
    var own := CollectOwnEntries(m, b, drafts);
    var hParent, hSource, hChildren, graph, namespaces;
    ghost var hBest;
    hParent, hSource, hChildren, graph, namespaces, hBest :=
      SelectHierarchy(m, b, drafts.hierarchy, own, drafts.namespaces);
    var cParent, parentSource, cChildren;
    ghost var cBest;
    cParent, parentSource, cChildren, cBest := SelectComposition(m, b, drafts.composition, hSource);
    tr := Trail(drafts, hBest, cBest, own, graph, namespaces);
    AllRegistered(m, b, tr, hParent, hChildren);
    BestOfPlane(m, b, drafts.hierarchy, hBest, hParent, hChildren);
    NamespacesAreRegistered(m, b, drafts, hBest, namespaces);
    SameIds(m, b, namespaces);
    var ids := AssignIds(namespaces);
    if ids.None? {
      return AmbiguousRelationshipId, tr;
    }
    var related := Relate(graph, ids.value, namespaces);
    SourcesAreKnown(m, b, drafts.composition, hBest, hParent, hSource, cBest, cParent, cChildren, parentSource);
    var parentById, rootIds := ResolveParents(m, b, hParent, parentSource);
    var relationships := WriteAll(parentById.Keys, hChildren, cChildren, related);
    var model :=
      BuiltModel(parentById.Keys, hParent, cParent, hChildren, cChildren, related, relationships, ids.value,
                 parentById, rootIds);
    ResolvedIsParentOf(m, b, model, hBest, hSource, drafts.composition, cBest, parentSource);
    r := Built(model);
  }

  lemma BestOfPlane(m: Mapping, b: Browse, table: Table, best: map<ElementId, Candidate>,
                    parent: map<ElementId, ElementId>, children: Children)
    requires PlaneFacts(m, b, table, best, parent, children)
    ensures best.Keys == table.Keys && BestOfAll(table, best)
  {
  }

  lemma BrowseIsValid(nodes: seq<BrowsedNode>)
    ensures BrowseOf(nodes).Valid()
  {
  }
}
