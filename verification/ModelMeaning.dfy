// The relationship map of every built model, told by the references of the address space alone.
module ModelMeaning {
  import opened Ordering
  import opened ModelBuilder
  import opened PlaneSelection
  import opened Relationships
  import opened RelationshipMap
  import opened RelationshipCatalogue
  import opened ModelBuild
  import opened ParentPreference
  import opened ModelTheorems
  import opened Options

  const I3X := "https://cesmii.org/i3x"

  // The namespace of the reference type, or that of the model for a reference without one.
  ghost predicate LiesIn(m: Mapping, r: Reference, namespace: string) {
    match r.typeId
    case None => namespace == I3X
    case Some(ty) => m.namespaceOf(ty) == Some(namespace)
  }

  // A kept reference of s that belongs to neither plane leads to t, by that name and in that namespace.
  ghost predicate References(m: Mapping, b: Browse, s: NodeId, name: string, namespace: string, t: ElementId) {
    exists r ::
      && IsEntry(b, s, r)
      && m.classify(b.bySource[s], b.bySource[r.target], r) !in {HierarchyClass, CompositionClass}
      && m.elementId(b.bySource[r.target]) == t
      && ReferenceName(b.bySource[r.target], r) == name
      && LiesIn(m, r, namespace)
  }

  // t is proposed as hierarchy parent of the element and is not what was chosen: another node, or the chosen one by
  // another kind of reference.
  ghost predicate OrganizesToo(m: Mapping, b: Browse, child: ElementId, t: ElementId) {
    exists p, name, q, kind ::
      && Proposes(m, b, HierarchyClass, child, p, name) && IsPreferred(m, b, HierarchyClass, child, q, kind)
      && (p != q || KindOf(m, name) != kind) && p in b.bySource && m.elementId(b.bySource[p]) == t
  }

  // The element is related to t: by a reference of its last source node, or because t organizes it too.
  ghost predicate Relates(m: Mapping, b: Browse, id: ElementId, k: RelationKey, t: ElementId) {
    || (exists i :: IsLastSource(m, b, |b.order|, id, i) && References(m, b, b.order[i], k.name, k.namespace, t))
    || (k == RelationKey("OrganizedBy", I3X) && OrganizesToo(m, b, id, t))
  }

  ghost predicate RelatesBy(m: Mapping, b: Browse, id: ElementId, relation: string, t: ElementId) {
    exists k :: IdIn(m, b, k) == relation && Relates(m, b, id, k, t)
  }

  // ----- The graph entries of a build -----

  lemma ReferenceYields(m: Mapping, b: Browse, s: NodeId, g: GraphEntry)
    ensures References(m, b, s, g.name, g.namespace, g.target) <==> exists r :: Yields(m, b, s, g, r)
  {
    if r :| Yields(m, b, s, g, r) {
      assert ReferenceName(b.bySource[r.target], r) == g.name;
    }
    if References(m, b, s, g.name, g.namespace, g.target) {
      var r :| && IsEntry(b, s, r)
               && m.classify(b.bySource[s], b.bySource[r.target], r) !in {HierarchyClass, CompositionClass}
               && m.elementId(b.bySource[r.target]) == g.target
               && ReferenceName(b.bySource[r.target], r) == g.name
               && LiesIn(m, r, g.namespace);
      assert Yields(m, b, s, g, r);
    }
  }

  lemma OwnGraphIff(m: Mapping, b: Browse, d: Drafts, own: Graph, id: ElementId, g: GraphEntry)
    requires CompleteDrafts(m, b, d) && OwnEntries(m, b, d, own)
    ensures g in Listed(own, id) <==>
      exists i :: IsLastSource(m, b, |b.order|, id, i) && References(m, b, b.order[i], g.name, g.namespace, g.target)
  {
    hide References;
    forall s ensures g in Listed(d.graph, s) <==> References(m, b, s, g.name, g.namespace, g.target) {
      DraftGraphIff(m, b, d, s, g);
    }
    if id in own {
      var i :| IsLastSource(m, b, |b.order|, id, i);
      assert Listed(own, id) == Listed(d.graph, b.order[i]);
    }
    if i :| IsLastSource(m, b, |b.order|, id, i) && References(m, b, b.order[i], g.name, g.namespace, g.target) {
      assert Listed(own, id) == Listed(d.graph, b.order[i]);
    }
  }

  lemma DraftGraphIff(m: Mapping, b: Browse, d: Drafts, s: NodeId, g: GraphEntry)
    requires CompleteDrafts(m, b, d)
    ensures g in Listed(d.graph, s) <==> References(m, b, s, g.name, g.namespace, g.target)
  {
    hide Yields, References;
    var all: Progress := (x, r) => true;
    assert GraphOf(m, b, d.graph, all);
    ReferenceYields(m, b, s, g);
    if r :| Yields(m, b, s, g, r) {
      assert all(s, r);
    }
  }

  // A losing candidate is a proposal beside the preferred one.
  lemma LoserOrganizesToo(m: Mapping, b: Browse, table: Table, best: map<ElementId, Candidate>,
                          parent: map<ElementId, ElementId>, children: Children, child: ElementId, t: ElementId)
    requires CandidatesOf(m, b, HierarchyClass, table, (s, r) => true)
    requires PlaneFacts(m, b, table, best, parent, children)
    ensures OrganizesToo(m, b, child, t) <==> child in best && LosesTo(m, b, table[child], best[child], t)
  {
    hide CandidatesOf, IsCandidate, IsPreferred, Priority, Proposes, LosesTo, OrganizesToo;
    PlaneFollowsPreference(m, b, HierarchyClass, table, best, parent, children);
    TableIffCandidate(m, b, HierarchyClass, table, child);
    if child in best {
      assert forall d :: d in table[child] <==> d in Listed(table, child);
      BestIsMember(best[child], table[child]);
      LosersAmongCandidates(m, b, table[child], best[child], child, t);
    } else if OrganizesToo(m, b, child, t) {
      OrganizedIsProposed(m, b, child, t);
    }
  }

  lemma OrganizedIsProposed(m: Mapping, b: Browse, child: ElementId, t: ElementId)
    requires OrganizesToo(m, b, child, t)
    ensures exists c :: IsCandidate(m, b, HierarchyClass, child, c)
  {
    hide IsCandidate, IsPreferred, Proposes;
    var p, name, q, kind :|
      && Proposes(m, b, HierarchyClass, child, p, name) && IsPreferred(m, b, HierarchyClass, child, q, kind)
      && (p != q || KindOf(m, name) != kind) && p in b.bySource && m.elementId(b.bySource[p]) == t;
    PreferredIsCandidate(m, b, HierarchyClass, child, q, kind);
  }

  lemma LosersAmongCandidates(m: Mapping, b: Browse, candidates: seq<Candidate>, best: Candidate, child: ElementId,
                              t: ElementId)
    requires forall c :: c in candidates <==> IsCandidate(m, b, HierarchyClass, child, c)
    requires best in candidates && IsPreferred(m, b, HierarchyClass, child, best.parent, KindOf(m, best.name))
    ensures OrganizesToo(m, b, child, t) <==> LosesTo(m, b, candidates, best, t)
  {
    hide IsCandidate, IsPreferred, KindOf, Priority, Proposes;
    CandidateIsProposal(m, b, HierarchyClass, child, best);
    if LosesTo(m, b, candidates, best, t) {
      var d :| d in candidates && Loses(d, best) && d.parent in b.bySource && IdOf(m, b, d.parent) == t;
      CandidateIsProposal(m, b, HierarchyClass, child, d);
      KindsInOrder(m, d.name, best.name);
      assert Proposes(m, b, HierarchyClass, child, d.parent, d.name);
    }
    if OrganizesToo(m, b, child, t) {
      var p, name, q, kind :|
        && Proposes(m, b, HierarchyClass, child, p, name) && IsPreferred(m, b, HierarchyClass, child, q, kind)
        && (p != q || KindOf(m, name) != kind) && p in b.bySource && m.elementId(b.bySource[p]) == t;
      OnePreferred(m, b, HierarchyClass, child, q, kind, best.parent, KindOf(m, best.name));
      ProposalIsCandidate(m, b, HierarchyClass, child, p, name);
      KindsInOrder(m, name, best.name);
      var d := Candidate(Priority(m, name), p, name);
      assert d in candidates && Loses(d, best);
    }
  }

  // ----- Built models -----

  lemma GraphIff(m: Mapping, b: Browse, tr: Trail, model: BuiltModel, id: ElementId, k: RelationKey, t: ElementId)
    requires IsModelOf(m, b, tr, model)
    ensures GraphEntry(k.name, k.namespace, t) in Listed(tr.graph, id) <==> Relates(m, b, id, k, t)
  {
    hide References, OrganizesToo, IsLastSource, LosesTo;
    var g := GraphEntry(k.name, k.namespace, t);
    OwnGraphIff(m, b, tr.drafts, tr.ownGraph, id, g);
    CandidateTables(m, b, tr.drafts);
    LoserOrganizesToo(m, b, tr.drafts.hierarchy, tr.hierarchyBest, model.hierarchyParent,
                      model.hierarchyChildren, id, t);
  }

  // Two registered keys never share a relation, and every relation is registered.
  lemma RelatedIff(m: Mapping, b: Browse, tr: Trail, model: BuiltModel, id: ElementId, relation: string, t: ElementId)
    requires IsModelOf(m, b, tr, model)
    ensures Edge(relation, t) in Listed(model.related, id) <==> RelatesBy(m, b, id, relation, t)
  {
    hide Relates, IdIn, Registers, CompleteDrafts, PlaneFacts, OwnEntries;
    ModelNamespaces(m, b, tr, model);
    forall k: RelationKey
      ensures GraphEntry(k.name, k.namespace, t) in Listed(tr.graph, id) <==> Relates(m, b, id, k, t)
    {
      GraphIff(m, b, tr, model, id, k, t);
    }
    forall k: RelationKey | Relates(m, b, id, k, t) ensures Registers(m, b, k) {
      RelatesRegisters(m, b, tr, model, id, k, t);
    }
  }

  lemma RelatesRegisters(m: Mapping, b: Browse, tr: Trail, model: BuiltModel, id: ElementId, k: RelationKey,
                         t: ElementId)
    requires IsModelOf(m, b, tr, model) && Relates(m, b, id, k, t)
    ensures Registers(m, b, k)
  {
    hide CompleteDrafts, Yields;
    CandidateTables(m, b, tr.drafts);
    if i :| IsLastSource(m, b, |b.order|, id, i) && References(m, b, b.order[i], k.name, k.namespace, t) {
      ReferenceYields(m, b, b.order[i], GraphEntry(k.name, k.namespace, t));
    } else {
      LoserOrganizesToo(m, b, tr.drafts.hierarchy, tr.hierarchyBest, model.hierarchyParent, model.hierarchyChildren,
                        id, t);
      LoserIffCompetition(m, b, tr.drafts.hierarchy, tr.hierarchyBest);
      LoserIsSome(m, b, tr.drafts.hierarchy, tr.hierarchyBest, id, t);
    }
  }

  lemma LoserIsSome(m: Mapping, b: Browse, table: Table, best: map<ElementId, Candidate>, id: ElementId, t: ElementId)
    requires id in best && id in table && LosesTo(m, b, table[id], best[id], t)
    ensures SomeLoser(table, best)
  {
    assert forall d :: d in table[id] <==> d in Listed(table, id);
  }

  // What the written edges come to, relation by relation.
  lemma TargetsByRelation(rel: RelationMap, h: Children, c: Children, g: Related, graphIds: set<string>, s: ElementId,
                          r: string, t: ElementId)
    requires Holds(rel, WrittenEdges(h, c, g)) && RelationsIn(g, graphIds) && PlainIds(graphIds)
    ensures t in Targets(rel, s, r) <==>
      match r
      case "HasParent" => s in Listed(h, t)
      case "HasChildren" => t in Listed(h, s)
      case "ComponentOf" => s in Listed(c, t)
      case "HasComponent" => t in Listed(c, s)
      case _ => Edge(r, t) in Listed(g, s) || (INVERSE <= r && Edge(r[|INVERSE|..], s) in Listed(g, t))
  {
    InverseOfBuiltIn(r);
    assert r in BUILT_IN ==> !GraphEdge(g, s, r, t);
    assert WrittenEdges(h, c, g)(s, r, t) <==> Written(h, c, g, s, r, t);
  }

  lemma ListedInverse(m: Mapping, b: Browse, table: Table, best: map<ElementId, Candidate>,
                      parent: map<ElementId, ElementId>, children: Children, p: ElementId, child: ElementId)
    requires PlaneFacts(m, b, table, best, parent, children)
    ensures child in Listed(children, p) <==> child in parent && parent[child] == p
  {
  }

  lemma ChildrenByParent(m: Mapping, b: Browse, tr: Trail, model: BuiltModel, p: ElementId, child: ElementId)
    requires IsModelOf(m, b, tr, model)
    ensures child in Listed(model.hierarchyChildren, p) <==>
      child in model.hierarchyParent && model.hierarchyParent[child] == p
    ensures child in Listed(model.compositionChildren, p) <==>
      child in model.compositionParent && model.compositionParent[child] == p
  {
    hide PlaneFacts;
    ListedInverse(m, b, tr.drafts.hierarchy, tr.hierarchyBest, model.hierarchyParent,
                  model.hierarchyChildren, p, child);
    ListedInverse(m, b, tr.drafts.composition, tr.compositionBest, model.compositionParent, model.compositionChildren,
                  p, child);
  }

  lemma MapByRelation(m: Mapping, b: Browse, tr: Trail, model: BuiltModel, s: ElementId, r: string, t: ElementId)
    requires IsModelOf(m, b, tr, model)
    ensures t in Targets(model.relationships, s, r) <==>
      match r
      case "HasParent" => s in Listed(model.hierarchyChildren, t)
      case "HasChildren" => t in Listed(model.hierarchyChildren, s)
      case "ComponentOf" => s in Listed(model.compositionChildren, t)
      case "HasComponent" => t in Listed(model.compositionChildren, s)
      case _ => RelatesBy(m, b, s, r, t) || (INVERSE <= r && RelatesBy(m, b, t, r[|INVERSE|..], s))
    ensures NoDuplicates(Targets(model.relationships, s, r))
  {
    hide RelatesBy, CompleteDrafts, OwnEntries, GraphExtended, NamespacesExtended, CompleteIds, ParentsResolved;
    hide RelatedIs, PlaneFacts, WrittenEdges, RelationsIn, PlainIds;
    GraphFacts(m, b, tr, model);
    RelatedIff(m, b, tr, model, s, r, t);
    if INVERSE <= r {
      RelatedIff(m, b, tr, model, t, r[|INVERSE|..], s);
    }
    TargetsByRelation(model.relationships, model.hierarchyChildren, model.compositionChildren, model.related,
                      GraphIds(model), s, r, t);
  }

  // The whole relationship map of a built model. HasParent and HasChildren follow the hierarchy parents, ComponentOf
  // and HasComponent the composition parents, and any other relationship type a relation of the address space or, by
  // its inverse name, one that leads back.
  lemma RelationshipsAreReferences(m: Mapping, b: Browse, tr: Trail, model: BuiltModel, s: ElementId, r: string,
                                   t: ElementId)
    requires IsModelOf(m, b, tr, model)
    ensures t in Targets(model.relationships, s, r) <==>
      match r
      case "HasParent" => s in model.hierarchyParent && model.hierarchyParent[s] == t
      case "HasChildren" => t in model.hierarchyParent && model.hierarchyParent[t] == s
      case "ComponentOf" => s in model.compositionParent && model.compositionParent[s] == t
      case "HasComponent" => t in model.compositionParent && model.compositionParent[t] == s
      case _ => RelatesBy(m, b, s, r, t) || ("inverseOf_" <= r && RelatesBy(m, b, t, r[|"inverseOf_"|..], s))
    ensures NoDuplicates(Targets(model.relationships, s, r))
  {
    hide IsModelOf, Listed, Targets, RelatesBy, NoDuplicates;
    MapByRelation(m, b, tr, model, s, r, t);
    ChildrenByParent(m, b, tr, model, s, t);
    ChildrenByParent(m, b, tr, model, t, s);
  }

  // ----- The catalogue of a built model -----

  ghost predicate IsBuiltInItem(x: TypeItem) {
    || x == TypeItem("HasParent", "HasParent", I3X, "HasChildren")
    || x == TypeItem("HasChildren", "HasChildren", I3X, "HasParent")
    || x == TypeItem("HasComponent", "HasComponent", I3X, "ComponentOf")
    || x == TypeItem("ComponentOf", "ComponentOf", I3X, "HasComponent")
  }

  // The entry of a registered relation, or that of its inverse.
  ghost predicate IsItemOf(m: Mapping, b: Browse, k: RelationKey, x: TypeItem) {
    var id := IdIn(m, b, k);
    || x == TypeItem(id, k.name, k.namespace, "inverseOf_" + id)
    || x == TypeItem("inverseOf_" + id, "inverseOf_" + k.name, k.namespace, id)
  }

  lemma BuiltInItems(x: TypeItem)
    ensures x in BUILT_IN_ITEMS <==> IsBuiltInItem(x)
  {
    assert BUILT_IN_ITEMS[0] == TypeItem("HasParent", "HasParent", I3X, "HasChildren");
    assert BUILT_IN_ITEMS[1] == TypeItem("HasChildren", "HasChildren", I3X, "HasParent");
    assert BUILT_IN_ITEMS[2] == TypeItem("HasComponent", "HasComponent", I3X, "ComponentOf");
    assert BUILT_IN_ITEMS[3] == TypeItem("ComponentOf", "ComponentOf", I3X, "HasComponent");
  }

  lemma ListedItems(items: seq<TypeItem>, t: IdTable, ids: seq<string>, x: TypeItem)
    requires Lists(items, t, ids)
    ensures x in items <==>
      x in BUILT_IN_ITEMS || exists i :: 0 <= i < |ids| && (x == GraphItem(t, ids[i]) || x == InverseItem(t, ids[i]))
  {
    hide BUILT_IN_ITEMS, GraphItem, InverseItem;
    if x in items {
      var k :| 0 <= k < |items| && items[k] == x;
      if k < 4 {
        assert items[..4][k] == x;
      } else {
        var i := (k - 4) / 2;
        assert 0 <= i < |ids| && (k == 4 + 2 * i || k == 5 + 2 * i);
        assert items[4 + 2 * i] == GraphItem(t, ids[i]) && items[5 + 2 * i] == InverseItem(t, ids[i]);
      }
    }
    if x in BUILT_IN_ITEMS {
      var k :| 0 <= k < 4 && items[..4][k] == x;
      assert items[k] == x;
    }
    if i :| 0 <= i < |ids| && (x == GraphItem(t, ids[i]) || x == InverseItem(t, ids[i])) {
      var even, odd := 4 + 2 * i, 5 + 2 * i;
      assert items[even] == GraphItem(t, ids[i]) && items[odd] == InverseItem(t, ids[i]);
    }
  }

  lemma ItemOfKey(m: Mapping, b: Browse, t: IdTable, k: RelationKey, id: string, x: TypeItem)
    requires k in t.ids && t.ids[k] == id == IdIn(m, b, k) && NamesFollow(t)
    ensures id in t.namespaceById
    ensures IsItemOf(m, b, k, x) <==> x == GraphItem(t, id) || x == InverseItem(t, id)
  {
    hide IdIn;
    assert id in t.ids.Values;
  }

  // The catalogue of a built model holds the four built-in types and, for every registered relation, its type and the
  // inverse one, each under the relation's name and namespace; nothing else.
  lemma CatalogueNamesRelations(m: Mapping, b: Browse, tr: Trail, model: BuiltModel, items: seq<TypeItem>,
                                ids: seq<string>, x: TypeItem)
    requires IsModelOf(m, b, tr, model)
    requires Lists(items, model.idTable, ids) && SortedListing(ids, GraphIds(model) - BUILT_IN, StringLe)
    ensures x in items <==> IsBuiltInItem(x) || exists k :: Registers(m, b, k) && IsItemOf(m, b, k, x)
  {
    hide IdIn, Registers, Lists, IsItemOf, IsBuiltInItem, BUILT_IN_ITEMS, BUILT_IN, GraphItem, InverseItem;
    var t := model.idTable;
    BuiltInItems(x);
    ListedItems(items, t, ids, x);
    ModelNamespaces(m, b, tr, model);
    KeysAndIds(m, b, tr, model);
    forall k | Registers(m, b, k)
      ensures k in t.ids && t.ids[k] == IdIn(m, b, k) && t.ids[k] in ids
      ensures IsItemOf(m, b, k, x) <==> x == GraphItem(t, t.ids[k]) || x == InverseItem(t, t.ids[k])
    {
      ItemOfKey(m, b, t, k, t.ids[k], x);
    }
    if i :| 0 <= i < |ids| && (x == GraphItem(t, ids[i]) || x == InverseItem(t, ids[i])) {
      assert ids[i] in ids;
      var k :| k in t.ids && t.ids[k] == ids[i];
      assert Registers(m, b, k);
    }
    if k :| Registers(m, b, k) && IsItemOf(m, b, k, x) {
      var i :| 0 <= i < |ids| && ids[i] == t.ids[k];
    }
  }

  lemma KeysAndIds(m: Mapping, b: Browse, tr: Trail, model: BuiltModel)
    requires IsModelOf(m, b, tr, model)
    ensures NamesFollow(model.idTable) && GraphIds(model) - BUILT_IN == GraphIds(model)
    ensures forall k :: k in model.idTable.ids <==> IsKey(tr.namespaces, k)
    ensures forall k :: k in model.idTable.ids ==> model.idTable.ids[k] == RelationId(tr.namespaces, k)
    ensures forall id :: id in GraphIds(model) <==> exists k :: k in model.idTable.ids && model.idTable.ids[k] == id
  {
    GraphFacts(m, b, tr, model);
  }
}
