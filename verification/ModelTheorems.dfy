// What a reader of a built model may rely on.
module ModelTheorems {
  import opened Ordering
  import opened ModelBuilder
  import opened PlaneSelection
  import opened Relationships
  import opened RelationshipMap
  import opened RelationshipCatalogue
  import opened ModelBuild
  import opened ParentPreference
  import opened Options

  function GraphIds(model: BuiltModel): set<string> {
    model.idTable.namespaceById.Keys
  }

  lemma IdOfKey(m: Mapping, b: Browse, tr: Trail, model: BuiltModel, r: string) returns (k: RelationKey)
    requires IsModelOf(m, b, tr, model) && r in GraphIds(model)
    ensures IsKey(tr.namespaces, k) && RelationId(tr.namespaces, k) == r
  {
    var t := model.idTable;
    assert r in t.ids.Values;
    k :| k in t.ids && t.ids[k] == r;
  }

  lemma GraphFacts(m: Mapping, b: Browse, tr: Trail, model: BuiltModel)
    requires IsModelOf(m, b, tr, model)
    ensures PlainIds(GraphIds(model)) && RelationsIn(model.related, GraphIds(model))
  {
    forall r | r in GraphIds(model) ensures r !in BUILT_IN {
      var k := IdOfKey(m, b, tr, model, r);
      IdIsNoBuiltIn(tr.namespaces, k);
    }
    var t := model.idTable;
    forall s, e {:trigger e in Listed(model.related, s)} | e in Listed(model.related, s)
      ensures e.relation in GraphIds(model)
    {
      var k :| k in t.ids && t.ids[k] == e.relation && GraphEntry(k.name, k.namespace, e.target) in Listed(tr.graph, s);
      assert t.ids[k] in t.ids.Values;
    }
  }

  lemma NamespacesKeepIdsApart(m: Mapping, b: Browse, tr: Trail, model: BuiltModel)
    requires IsModelOf(m, b, tr, model)
    ensures IdsApart(tr.namespaces) ==> Apart(GraphIds(model))
    ensures (forall k :: IsKey(tr.namespaces, k) ==> !(INVERSE <= k.namespace)) ==> Apart(GraphIds(model))
  {
    IdsApartIff(tr.namespaces);
    if IdsApart(tr.namespaces) {
      forall r | r in GraphIds(model) ensures InverseName(r) !in GraphIds(model) {
        if InverseName(r) in GraphIds(model) {
          var k := IdOfKey(m, b, tr, model, InverseName(r));
          var j := IdOfKey(m, b, tr, model, r);
          assert false;
        }
      }
    }
  }

  // No registered relation has a namespace that starts with "inverseOf_".
  ghost predicate NoShadows(m: Mapping, b: Browse) {
    forall k :: Registers(m, b, k) ==> !(INVERSE <= k.namespace)
  }

  // Following any relationship type of the model and then its reverse leads back to where one started.
  lemma ModelIsInverseClosed(m: Mapping, b: Browse, tr: Trail, model: BuiltModel)
    requires IsModelOf(m, b, tr, model) && NoShadows(m, b)
    ensures InverseClosed(model.relationships, GraphIds(model))
  {
    ModelNamespaces(m, b, tr, model);
    NamespacesKeepIdsApart(m, b, tr, model);
    ModelIsApartClosed(m, b, tr, model);
  }

  // The catalogue served for a model: its IDs are unique exactly if the model's IDs are apart from the inverse
  // names. Then, as without a shadowing namespace, reverseOf is an involution that agrees with the relationship map.
  lemma ModelCatalogue(m: Mapping, b: Browse, tr: Trail, model: BuiltModel, items: seq<TypeItem>, ids: seq<string>)
    requires IsModelOf(m, b, tr, model)
    requires Lists(items, model.idTable, ids) && SortedListing(ids, GraphIds(model) - BUILT_IN, StringLe)
    ensures UniqueIds(items) <==> Apart(GraphIds(model))
    ensures NoShadows(m, b) ==> UniqueIds(items)
    ensures UniqueIds(items) ==> ReversesBack(items) && ReversesInMap(items, model.relationships)
  {
    hide IsModelOf, Lists, InverseClosed;
    GraphFacts(m, b, tr, model);
    assert GraphIds(model) - BUILT_IN == GraphIds(model);
    UniqueElementIdsIff(items, model.idTable, ids);
    ModelNamespaces(m, b, tr, model);
    NamespacesKeepIdsApart(m, b, tr, model);
    if Apart(GraphIds(model)) {
      forall k: nat, l: nat | k < |items| && l < |items| && items[l].elementId == items[k].reverseOf
        ensures items[l].reverseOf == items[k].elementId
      {
        ReverseIsInvolution(items, model.idTable, ids, k, l);
      }
      ModelIsApartClosed(m, b, tr, model);
      forall k: nat, s, u | k < |items|
        ensures u in Targets(model.relationships, s, items[k].elementId) <==>
          s in Targets(model.relationships, u, items[k].reverseOf)
      {
        CatalogueMatchesMap(items, model.idTable, ids, model.relationships, k, s, u);
      }
    }
  }

  ghost predicate UniqueIds(items: seq<TypeItem>) {
    forall k, l :: 0 <= k < |items| && 0 <= l < |items| && items[k].elementId == items[l].elementId ==> k == l
  }

  ghost predicate ReversesBack(items: seq<TypeItem>) {
    forall k, l :: 0 <= k < |items| && 0 <= l < |items| && items[l].elementId == items[k].reverseOf ==>
      items[l].reverseOf == items[k].elementId
  }

  ghost predicate ReversesInMap(items: seq<TypeItem>, rel: RelationMap) {
    forall k, s, u :: 0 <= k < |items| ==>
      (u in Targets(rel, s, items[k].elementId) <==> s in Targets(rel, u, items[k].reverseOf))
  }

  lemma ModelIsApartClosed(m: Mapping, b: Browse, tr: Trail, model: BuiltModel)
    requires IsModelOf(m, b, tr, model) && Apart(GraphIds(model))
    ensures InverseClosed(model.relationships, GraphIds(model))
  {
    GraphFacts(m, b, tr, model);
    ApartIsClosed(model.relationships, model.hierarchyChildren, model.compositionChildren, model.related,
                  GraphIds(model));
  }

  // Exactly which models are closed: those whose clashing edges are matched.
  lemma ModelIsClosedIff(m: Mapping, b: Browse, tr: Trail, model: BuiltModel)
    requires IsModelOf(m, b, tr, model)
    ensures InverseClosed(model.relationships, GraphIds(model)) <==> ClashesAreMatched(model.related, GraphIds(model))
  {
    GraphFacts(m, b, tr, model);
    ClosedIffMatched(model.relationships, model.hierarchyChildren, model.compositionChildren, model.related,
                     GraphIds(model));
  }

  // The registered relations of a model are those its address space determines.
  lemma ModelNamespaces(m: Mapping, b: Browse, tr: Trail, model: BuiltModel)
    requires IsModelOf(m, b, tr, model)
    ensures forall k :: IsKey(tr.namespaces, k) <==> Registers(m, b, k)
    ensures forall k :: RelationId(tr.namespaces, k) == IdIn(m, b, k)
    ensures !Collides(m, b)
  {
    hide Registers, Collides;
    BestOfPlane(m, b, tr.drafts.hierarchy, tr.hierarchyBest, model.hierarchyParent, model.hierarchyChildren);
    NamespacesAreRegistered(m, b, tr.drafts, tr.hierarchyBest, tr.namespaces);
    SameIds(m, b, tr.namespaces);
    CompleteIsUnambiguous(tr.namespaces, model.idTable);
  }

  lemma EntriesOfSource(m: Mapping, b: Browse, tr: Trail, model: BuiltModel, i: int, g: GraphEntry)
    requires IsModelOf(m, b, tr, model) && 0 <= i < |b.order| && b.order[i] in b.bySource
    requires !HasLoser(m, b) && IsLastSource(m, b, |b.order|, IdOf(m, b, b.order[i]), i)
    ensures g in Listed(tr.graph, IdOf(m, b, b.order[i])) <==> exists r :: Yields(m, b, b.order[i], g, r)
  {
    hide IdOf, Yields, HasLoser, SomeLoser, LosesTo;
    var s, id := b.order[i], IdOf(m, b, b.order[i]);
    LoserIffCompetition(m, b, tr.drafts.hierarchy, tr.hierarchyBest);
    NoLoserNoEdge(m, b, tr.drafts.hierarchy, tr.hierarchyBest, id);
    var all: Progress := (x, r) => true;
    assert GraphOf(m, b, tr.drafts.graph, all);
    assert g in Listed(tr.ownGraph, id) <==> g in Listed(tr.drafts.graph, s);
    if r :| Yields(m, b, s, g, r) {
      assert all(s, r);
    }
  }

  // The related list of an element mapped from one source node only holds, beside OrganizedBy, its graph references.
  lemma RelatedOfSource(m: Mapping, b: Browse, tr: Trail, model: BuiltModel, i: int, e: Edge)
    requires IsModelOf(m, b, tr, model) && 0 <= i < |b.order| && b.order[i] in b.bySource
    requires !HasLoser(m, b) && IsLastSource(m, b, |b.order|, IdOf(m, b, b.order[i]), i)
    ensures e in Listed(model.related, IdOf(m, b, b.order[i])) <==>
      exists k, r :: IdIn(m, b, k) == e.relation
        && Yields(m, b, b.order[i], GraphEntry(k.name, k.namespace, e.target), r)
  {
    hide IdOf, Yields, IdIn, Registers, HasLoser, CompleteDrafts, GraphExtended, NamespacesExtended, OwnEntries;
    var s := b.order[i];
    var id := IdOf(m, b, s);
    ModelNamespaces(m, b, tr, model);
    forall g: GraphEntry ensures g in Listed(tr.graph, id) <==> exists r :: Yields(m, b, s, g, r) {
      EntriesOfSource(m, b, tr, model, i, g);
    }
    if e in Listed(model.related, id) {
      var k :| k in model.idTable.ids && model.idTable.ids[k] == e.relation
        && GraphEntry(k.name, k.namespace, e.target) in Listed(tr.graph, id);
    }
    if k, r :| IdIn(m, b, k) == e.relation && Yields(m, b, s, GraphEntry(k.name, k.namespace, e.target), r) {
      YieldsRegisters(m, b, s, k, e.target, r);
      assert k in model.idTable.ids;
      assert GraphEntry(k.name, k.namespace, e.target) in Listed(tr.graph, id);
    }
  }

  lemma YieldsRegisters(m: Mapping, b: Browse, s: NodeId, k: RelationKey, t: ElementId, r: Reference)
    requires Yields(m, b, s, GraphEntry(k.name, k.namespace, t), r)
    ensures Registers(m, b, k)
  {
  }

  lemma NoLoserNoEdge(m: Mapping, b: Browse, table: Table, best: map<ElementId, Candidate>, id: ElementId)
    requires !SomeLoser(table, best)
    ensures forall t :: id in best && id in table ==> !LosesTo(m, b, table[id], best[id], t)
  {
    if id in best && id in table {
      assert forall d :: d in table[id] <==> d in Listed(table, id);
    }
  }

  // ----- A model that is not closed -----

  const FEEDS := Reference("b", Some("t1"), Some("Feeds"))
  const SHADOW := Reference("b", Some("t2"), Some("Feeds"))
  const UNCLOSED := [BrowsedNode("a", None, false, [FEEDS, SHADOW]), BrowsedNode("b", None, false, [])]

  // Two reference types of one name, whose namespaces are "urn:a" and "inverseOf_urn:a".
  function Shadowing(): Mapping {
    Mapping((n: BrowsedNode) => n.nodeId, (s, t, r) => GraphClass,
            t => Some(if t == "t1" then "urn:a" else "inverseOf_urn:a"), s => s)
  }

  lemma UnclosedSources()
    ensures BySource(UNCLOSED) == map["a" := UNCLOSED[0], "b" := UNCLOSED[1]]
    ensures KeyOrder(UNCLOSED) == ["a", "b"]
  {
    var one := [UNCLOSED[0]];
    assert UNCLOSED[..1] == one && one[..0] == [];
    assert BySource(one) == map["a" := UNCLOSED[0]];
    assert KeyOrder([]) == [] && KeyOrder(one) == ["a"];
  }

  lemma UnclosedChildren()
    ensures ChildSources(UNCLOSED, "b") == []
  {
    forall n | n in UNCLOSED ensures n.parent == None {}
    HasElement(ChildSources(UNCLOSED, "b"));
  }

  lemma UnclosedPresent()
    ensures Present([FEEDS, SHADOW], {"a", "b"}) == [FEEDS, SHADOW]
  {
    var refs, one := [FEEDS, SHADOW], [FEEDS];
    assert refs[..1] == one && one[..0] == [];
    assert Present(one, {"a", "b"}) == one;
  }

  lemma UnclosedKept()
    ensures Kept([FEEDS, SHADOW]) == [FEEDS, SHADOW]
  {
    var refs, one := [FEEDS, SHADOW], [FEEDS];
    assert refs[..1] == one && one[..0] == [];
    assert Kept(one) == one;
    assert !SameEdge(FEEDS, SHADOW) by { assert "t1"[1] != "t2"[1]; }
  }

  lemma UnclosedEntries(s: NodeId, r: Reference)
    ensures BrowseOf(UNCLOSED).order == ["a", "b"]
    ensures BrowseOf(UNCLOSED).bySource == map["a" := UNCLOSED[0], "b" := UNCLOSED[1]]
    ensures IsEntry(BrowseOf(UNCLOSED), s, r) <==> s == "a" && (r == FEEDS || r == SHADOW)
  {
    hide BySource, KeyOrder, Present, Kept, ChildSources;
    UnclosedSources();
    UnclosedChildren();
    UnclosedPresent();
    UnclosedKept();
    var none: seq<Reference> := [];
    NothingKept(none);
    assert none[..0] == none;
    assert BySource(UNCLOSED).Keys == {"a", "b"};
    assert Entries(UNCLOSED, "a") == [FEEDS, SHADOW];
    assert Entries(UNCLOSED, "b") == [];
    assert Kept([]) == [];
  }

  lemma UnclosedYields(s: NodeId, e: GraphEntry, r: Reference)
    ensures Yields(Shadowing(), BrowseOf(UNCLOSED), s, e, r) <==>
      s == "a" && ((r == FEEDS && e == GraphEntry("Feeds", "urn:a", "b"))
        || (r == SHADOW && e == GraphEntry("Feeds", "inverseOf_urn:a", "b")))
  {
    UnclosedEntries(s, r);
    hide BrowseOf, Kept;
    assert "t1"[1] != "t2"[1];
    assert FEEDS.typeId.value == "t1" && SHADOW.typeId.value == "t2";
  }

  lemma UnclosedRegisters(k: RelationKey)
    ensures !HasLoser(Shadowing(), BrowseOf(UNCLOSED))
    ensures Registers(Shadowing(), BrowseOf(UNCLOSED), k) <==>
      k == RelationKey("Feeds", "urn:a") || k == RelationKey("Feeds", "inverseOf_urn:a")
    ensures k.name == "Feeds" ==> IdIn(Shadowing(), BrowseOf(UNCLOSED), k) == k.namespace + ":" + k.name
  {
    hide BrowseOf;
    var m, b := Shadowing(), BrowseOf(UNCLOSED);
    forall child, c ensures !IsCandidate(m, b, HierarchyClass, child, c) {}
    forall s, e, r ensures Yields(m, b, s, e, r) <==>
      s == "a" && ((r == FEEDS && e == GraphEntry("Feeds", "urn:a", "b"))
        || (r == SHADOW && e == GraphEntry("Feeds", "inverseOf_urn:a", "b")))
    {
      UnclosedYields(s, e, r);
    }
    assert Yields(m, b, "a", GraphEntry("Feeds", "urn:a", "b"), FEEDS);
    assert Yields(m, b, "a", GraphEntry("Feeds", "inverseOf_urn:a", "b"), SHADOW);
    assert Registers(m, b, RelationKey("Feeds", "urn:a")) && Registers(m, b, RelationKey("Feeds", "inverseOf_urn:a"));
    assert |"urn:a"| != |"inverseOf_urn:a"|;
    assert QualifiesIn(m, b, "Feeds");
  }

  // The address space builds: every reference type has a namespace and no two relations share an ID.
  lemma UnclosedModelIsBuilt()
    ensures !Unresolved(Shadowing(), BrowseOf(UNCLOSED)) && !Collides(Shadowing(), BrowseOf(UNCLOSED))
  {
    hide BrowseOf, Registers, IdIn;
    var m, b := Shadowing(), BrowseOf(UNCLOSED);
    forall k, j | k != j && Registers(m, b, k) && Registers(m, b, j) ensures IdIn(m, b, k) != IdIn(m, b, j) {
      UnclosedRegisters(k);
      UnclosedRegisters(j);
      assert |"urn:a" + ":" + "Feeds"| != |"inverseOf_urn:a" + ":" + "Feeds"|;
    }
  }

  // But its model is not closed: "b" is related to "a" by the inverse of a relation that does not relate "a" to "b".
  lemma UnclosedNames()
    ensures "urn:a" + ":" + "Feeds" == "urn:a:Feeds" && !(INVERSE <= "urn:a:Feeds")
    ensures "inverseOf_urn:a" + ":" + "Feeds" == InverseName("urn:a:Feeds")
  {
    assert "urn:a:Feeds"[0] != INVERSE[0];
  }

  lemma UnclosedModel(tr: Trail, model: BuiltModel)
    requires IsModelOf(Shadowing(), BrowseOf(UNCLOSED), tr, model)
    ensures !InverseClosed(model.relationships, GraphIds(model))
  {
    hide BrowseOf, Registers, IdIn, IsModelOf, Yields, InverseClosed;
    var m, b := Shadowing(), BrowseOf(UNCLOSED);
    var r, up := "urn:a:Feeds", InverseName("urn:a:Feeds");
    UnclosedNames();
    hide InverseName;
    UnclosedEntries("a", FEEDS);
    UnclosedRegisters(RelationKey("Feeds", "urn:a"));
    UnclosedRegisters(RelationKey("Feeds", "inverseOf_urn:a"));
    UnclosedYields("a", GraphEntry("Feeds", "inverseOf_urn:a", "b"), SHADOW);
    RelatedOfSource(m, b, tr, model, 0, Edge(up, "b"));
    assert IdIn(m, b, RelationKey("Feeds", "inverseOf_urn:a")) == up;
    assert Edge(up, "b") in Listed(model.related, "a");
    RelatedOfSource(m, b, tr, model, 1, Edge(r, "a"));
    forall e, x ensures !Yields(m, b, "b", e, x) { UnclosedYields("b", e, x); }
    assert Edge(r, "a") !in Listed(model.related, "b");
    RegisteredIsGraphId(m, b, tr, model, RelationKey("Feeds", "urn:a"));
    ModelIsClosedIff(m, b, tr, model);
    assert !MatchesBelow(model.related, r, "b", "a");
  }

  lemma RegisteredIsGraphId(m: Mapping, b: Browse, tr: Trail, model: BuiltModel, k: RelationKey)
    requires IsModelOf(m, b, tr, model) && Registers(m, b, k)
    ensures IdIn(m, b, k) in GraphIds(model)
  {
    hide Registers, IdIn;
    ModelNamespaces(m, b, tr, model);
    assert k in model.idTable.ids && model.idTable.ids[k] in model.idTable.ids.Values;
  }

  // HasParent lists exactly the selected hierarchy parent.
  lemma HasParentIsHierarchyParent(m: Mapping, b: Browse, tr: Trail, model: BuiltModel, s: ElementId)
    requires IsModelOf(m, b, tr, model)
    ensures Targets(model.relationships, s, "HasParent") ==
            if s in model.hierarchyParent then [model.hierarchyParent[s]] else []
  {
    GraphFacts(m, b, tr, model);
    AtMostOneParent(model.relationships, model.hierarchyChildren, model.compositionChildren, model.related,
                    GraphIds(model),
                    model.hierarchyParent, s);
  }

  // Every hierarchical reference to an element survives: as its HasParent or as an OrganizedBy relationship.
  lemma HierarchyReferencesSurvive(m: Mapping, b: Browse, tr: Trail, model: BuiltModel, child: ElementId, c: Candidate)
    requires IsModelOf(m, b, tr, model) && IsCandidate(m, b, HierarchyClass, child, c)
    ensures c.parent in b.bySource
    ensures IdOf(m, b, c.parent) in Targets(model.relationships, child, "HasParent")
         || exists k :: k == RelationKey("OrganizedBy", I3X_NAMESPACE) && k in model.idTable.ids
              && IdOf(m, b, c.parent) in Targets(model.relationships, child, model.idTable.ids[k])
  {
    var table := tr.drafts.hierarchy;
    TableIffCandidate(m, b, HierarchyClass, table, child);
    CandidatesAreKnown(m, b, tr.drafts);
    NoCandidateIsLost(m, b, table, tr.hierarchyBest, tr.ownGraph, tr.graph, child, c);
    if c.parent == tr.hierarchyBest[child].parent {
      HasParentIsHierarchyParent(m, b, tr, model, child);
    } else {
      LoserIsRelated(m, b, tr, model, child, IdOf(m, b, c.parent));
    }
  }

  lemma LoserIsRelated(m: Mapping, b: Browse, tr: Trail, model: BuiltModel, child: ElementId, target: ElementId)
    requires IsModelOf(m, b, tr, model) && OrganizedBy(target) in Listed(tr.graph, child)
    ensures var k := RelationKey("OrganizedBy", I3X_NAMESPACE);
      k in model.idTable.ids && target in Targets(model.relationships, child, model.idTable.ids[k])
  {
    hide CompleteDrafts, GraphExtended, NamespacesExtended, OwnEntries, ParentsResolved;
    var k := RelationKey("OrganizedBy", I3X_NAMESPACE);
    AllRegistered(m, b, tr, model.hierarchyParent, model.hierarchyChildren);
    assert IsKey(tr.namespaces, k);
    var id := model.idTable.ids[k];
    assert Edge(id, target) in Listed(model.related, child);
    assert WrittenEdges(model.hierarchyChildren, model.compositionChildren, model.related)(child, id, target);
  }

  // A parent exists in a plane exactly for the elements some reference of that plane points at.
  lemma ParentIffCandidate(m: Mapping, b: Browse, tr: Trail, model: BuiltModel, child: ElementId)
    requires IsModelOf(m, b, tr, model)
    ensures child in model.hierarchyParent <==> exists c :: IsCandidate(m, b, HierarchyClass, child, c)
    ensures child in model.compositionParent <==> exists c :: IsCandidate(m, b, CompositionClass, child, c)
  {
    TableIffCandidate(m, b, HierarchyClass, tr.drafts.hierarchy, child);
    TableIffCandidate(m, b, CompositionClass, tr.drafts.composition, child);
  }

  // Roots are the elements that no reference proposes a parent for, in either plane; where both planes propose
  // one, the stored parent is the preferred hierarchy parent.
  lemma RootsHaveNoParent(m: Mapping, b: Browse, tr: Trail, model: BuiltModel, id: ElementId)
    requires IsModelOf(m, b, tr, model) && id in model.elementIds
    ensures id in model.rootIds <==>
      forall p, name :: !Proposes(m, b, HierarchyClass, id, p, name) && !Proposes(m, b, CompositionClass, id, p, name)
    ensures id in model.rootIds <==> id !in model.hierarchyParent && id !in model.compositionParent
    ensures forall p, kind :: IsPreferred(m, b, HierarchyClass, id, p, kind) ==>
      p in b.bySource && model.parentById[id] == Some(m.elementId(b.bySource[p]))
    ensures forall p, kind :: id !in model.hierarchyParent && IsPreferred(m, b, CompositionClass, id, p, kind) ==>
      p in b.bySource && model.parentById[id] == Some(m.elementId(b.bySource[p]))
  {
    hide IsCandidate, CompleteDrafts, PlaneFacts, IsPreferred, Proposes;
    ParentIffCandidate(m, b, tr, model, id);
    ParentsArePreferred(m, b, tr, model);
    ProposedIffCandidate(m, b, HierarchyClass, id);
    ProposedIffCandidate(m, b, CompositionClass, id);
  }

  lemma ProposedIffCandidate(m: Mapping, b: Browse, plane: ReferenceClass, child: ElementId)
    ensures (exists p, name :: Proposes(m, b, plane, child, p, name)) <==>
      exists c :: IsCandidate(m, b, plane, child, c)
  {
    hide IsCandidate, Proposes;
    if p, name :| Proposes(m, b, plane, child, p, name) {
      ProposalIsCandidate(m, b, plane, child, p, name);
    }
    if c :| IsCandidate(m, b, plane, child, c) {
      CandidateIsProposal(m, b, plane, child, c);
    }
  }

  // ----- Order independence -----

  // Two address spaces that differ only in the order of their nodes and entries.
  ghost predicate SameBrowse(b: Browse, c: Browse) {
    && b.bySource == c.bySource && b.entries.Keys == c.entries.Keys
    && forall s, r :: s in b.entries ==> (r in Kept(b.entries[s]) <==> r in Kept(c.entries[s]))
  }

  lemma SameCandidacy(m: Mapping, b: Browse, c: Browse, plane: ReferenceClass, child: ElementId, x: Candidate)
    requires SameBrowse(b, c)
    ensures IsCandidate(m, b, plane, child, x) <==> IsCandidate(m, c, plane, child, x)
  {
    forall r ensures Offers(m, b, plane, child, x, r) <==> Offers(m, c, plane, child, x, r) {
      assert IsEntry(b, x.parent, r) <==> IsEntry(c, x.parent, r);
    }
  }

  lemma SamePlane(m: Mapping, b: Browse, c: Browse, plane: ReferenceClass, table: Table, other: Table,
                  best: map<ElementId, Candidate>, otherBest: map<ElementId, Candidate>,
                  parent: map<ElementId, ElementId>, otherParent: map<ElementId, ElementId>,
                  children: Children, otherChildren: Children)
    requires SameBrowse(b, c)
    requires CandidatesOf(m, b, plane, table, (s, r) => true) && CandidatesOf(m, c, plane, other, (s, r) => true)
    requires PlaneFacts(m, b, table, best, parent, children)
      && PlaneFacts(m, c, other, otherBest, otherParent, otherChildren)
    ensures parent == otherParent
    ensures forall p, d :: d in Listed(children, p) <==> d in Listed(otherChildren, p)
  {
    hide CandidatesOf, IsCandidate;
    forall child ensures child in table <==> child in other {
      TableIffCandidate(m, b, plane, table, child);
      TableIffCandidate(m, c, plane, other, child);
      forall x ensures IsCandidate(m, b, plane, child, x) <==> IsCandidate(m, c, plane, child, x) {
        SameCandidacy(m, b, c, plane, child, x);
      }
    }
    forall child | child in table ensures best[child] == otherBest[child] {
      TableIffCandidate(m, b, plane, table, child);
      TableIffCandidate(m, c, plane, other, child);
      forall x ensures x in table[child] <==> x in other[child] {
        SameCandidacy(m, b, c, plane, child, x);
        assert x in Listed(table, child) <==> x in Listed(other, child);
      }
      BestIsUnique(best[child], otherBest[child], table[child], other[child]);
    }
  }

  // The selected parents, in every plane, do not depend on the order in which nodes were browsed.
  lemma ParentsIgnoreOrder(m: Mapping, b: Browse, c: Browse, tr: Trail, other: Trail, model: BuiltModel,
                           otherModel: BuiltModel)
    requires SameBrowse(b, c) && IsModelOf(m, b, tr, model) && IsModelOf(m, c, other, otherModel)
    ensures model.hierarchyParent == otherModel.hierarchyParent
      && model.compositionParent == otherModel.compositionParent
    ensures model.elementIds == otherModel.elementIds && model.parentById == otherModel.parentById
    ensures forall id :: id in model.rootIds <==> id in otherModel.rootIds
  {
    hide CandidatesOf, PlaneFacts, GraphOf, NamespacesOf, CompleteIds, RelatedIs, Holds, GraphExtended,
      NamespacesExtended, OwnEntries;
    SamePlane(m, b, c, HierarchyClass, tr.drafts.hierarchy, other.drafts.hierarchy, tr.hierarchyBest,
              other.hierarchyBest,
              model.hierarchyParent, otherModel.hierarchyParent, model.hierarchyChildren, otherModel.hierarchyChildren);
    SamePlane(m, b, c, CompositionClass, tr.drafts.composition, other.drafts.composition, tr.compositionBest,
              other.compositionBest,
              model.compositionParent, otherModel.compositionParent, model.compositionChildren,
              otherModel.compositionChildren);
    SameResolvedParents(m, b, c, model, otherModel);
  }

  lemma SameResolvedParents(m: Mapping, b: Browse, c: Browse, model: BuiltModel, otherModel: BuiltModel)
    requires b.bySource == c.bySource && ParentsResolved(m, b, model) && ParentsResolved(m, c, otherModel)
    requires model.hierarchyParent == otherModel.hierarchyParent
      && model.compositionParent == otherModel.compositionParent
    ensures model.elementIds == otherModel.elementIds && model.parentById == otherModel.parentById
    ensures forall id :: id in model.rootIds <==> id in otherModel.rootIds
  {
    forall s | s in b.bySource ensures IdOf(m, b, s) == IdOf(m, c, s) {}
    forall id ensures id in model.elementIds <==> id in otherModel.elementIds {}
    assert forall id :: id in model.elementIds ==> ParentOf(model, id) == ParentOf(otherModel, id);
  }

  ghost predicate DistinctIds(nodes: seq<BrowsedNode>) {
    forall i, j :: 0 <= i < j < |nodes| ==> nodes[i].nodeId != nodes[j].nodeId
  }

  ghost predicate SameNodes(nodes: seq<BrowsedNode>, others: seq<BrowsedNode>) {
    forall n :: n in nodes <==> n in others
  }

  lemma {:induction false} BySourceOfDistinct(nodes: seq<BrowsedNode>, n: BrowsedNode)
    requires DistinctIds(nodes) && n in nodes
    ensures BySource(nodes)[n.nodeId] == n
  {
    var init, last := nodes[..|nodes| - 1], nodes[|nodes| - 1];
    if n != last {
      assert n in init;
      BySourceOfDistinct(init, n);
    }
  }

  lemma SameSources(nodes: seq<BrowsedNode>, others: seq<BrowsedNode>)
    requires DistinctIds(nodes) && DistinctIds(others) && SameNodes(nodes, others)
    ensures BySource(nodes) == BySource(others)
  {
    forall id ensures id in BySource(nodes) <==> id in BySource(others) {
      if id in BySource(nodes) { assert BySource(nodes)[id] in others; }
      if id in BySource(others) { assert BySource(others)[id] in nodes; }
    }
    forall id | id in BySource(nodes) ensures BySource(nodes)[id] == BySource(others)[id] {
      var n := BySource(nodes)[id];
      BySourceOfDistinct(nodes, n);
      BySourceOfDistinct(others, n);
    }
  }

  // Entries with pairwise different targets all survive the seen-edge check.
  lemma {:induction false} KeepsDistinctTargets(entries: seq<Reference>)
    requires forall i, j :: 0 <= i < j < |entries| ==> entries[i].target != entries[j].target
    ensures Kept(entries) == entries
  {
    if entries != [] {
      var init, last := entries[..|entries| - 1], entries[|entries| - 1];
      KeepsDistinctTargets(init);
      assert entries == init + [last];
      forall e | e in init ensures !SameEdge(e, last) {
        var i :| 0 <= i < |init| && init[i] == e;
      }
    }
  }

  lemma {:induction false} ChildrenAreDistinct(nodes: seq<BrowsedNode>, parent: NodeId)
    requires DistinctIds(nodes)
    ensures NoDuplicates(ChildSources(nodes, parent))
  {
    if nodes != [] {
      var init, last := nodes[..|nodes| - 1], nodes[|nodes| - 1];
      ChildrenAreDistinct(init, parent);
      assert last.nodeId !in ChildSources(init, parent);
    }
  }

  lemma FallbackKept(nodes: seq<BrowsedNode>, source: NodeId, r: Reference)
    requires DistinctIds(nodes) && source in BySource(nodes) && BySource(nodes)[source].outgoing == []
    ensures r in Kept(Entries(nodes, source)) <==>
      r.target in ChildSources(nodes, source)
        && r == Reference(r.target, None, Some(DefaultName(BySource(nodes)[r.target])))
  {
    hide BySource, ChildSources, Kept;
    var children := ChildSources(nodes, source);
    var entries := Fallback(BySource(nodes), children);
    ChildrenAreDistinct(nodes, source);
    KeepsDistinctTargets(entries);
    if r.target in children {
      var i :| 0 <= i < |children| && children[i] == r.target;
      assert entries[i] in entries;
    }
  }

  // Permuting distinct nodes permutes nothing the build looks at.
  lemma PermutedNodesSameBrowse(nodes: seq<BrowsedNode>, others: seq<BrowsedNode>)
    requires DistinctIds(nodes) && DistinctIds(others) && SameNodes(nodes, others)
    ensures SameBrowse(BrowseOf(nodes), BrowseOf(others))
  {
    SameSources(nodes, others);
    var b, c := BrowseOf(nodes), BrowseOf(others);
    forall s, r | s in b.entries ensures r in Kept(b.entries[s]) <==> r in Kept(c.entries[s]) {
      SameEntries(nodes, others, s, r);
    }
  }

  lemma SameEntries(nodes: seq<BrowsedNode>, others: seq<BrowsedNode>, s: NodeId, r: Reference)
    requires DistinctIds(nodes) && DistinctIds(others) && SameNodes(nodes, others)
    requires BySource(nodes) == BySource(others) && s in BySource(nodes)
    ensures r in Kept(Entries(nodes, s)) <==> r in Kept(Entries(others, s))
  {
    if BySource(nodes)[s].outgoing == [] {
      FallbackKept(nodes, s, r);
      FallbackKept(others, s, r);
      assert forall c :: c in ChildSources(nodes, s) <==> c in ChildSources(others, s);
    }
  }
}
