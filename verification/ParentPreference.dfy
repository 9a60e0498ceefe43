// Which parent a reference makes an element choose, told by the references alone.
module ParentPreference {
  import opened Ordering
  import opened ModelBuilder
  import opened PlaneSelection
  import opened RelationshipMap
  import opened ModelBuild
  import opened Options

  // The name a reference goes by: its own, or one that suits the kind of its target.
  function ReferenceName(target: BrowsedNode, r: Reference): string {
    match r.browseName
    case Some(name) =>
      if name != "" then name else if target.isVariable then "HasProperty" else "Organizes"
    case None => if target.isVariable then "HasProperty" else "Organizes"
  }

  // A kept reference of p, by that name, puts an element below p in the plane.
  ghost predicate Proposes(m: Mapping, b: Browse, plane: ReferenceClass, child: ElementId, p: NodeId, name: string) {
    exists r ::
      && IsEntry(b, p, r)
      && m.classify(b.bySource[p], b.bySource[r.target], r) == plane
      && m.elementId(b.bySource[r.target]) == child
      && ReferenceName(b.bySource[r.target], r) == name
  }

  // The reference types that are preferred, most preferred first, and "" for every other.
  function KindOf(m: Mapping, name: string): string {
    var normalized := m.normalize(name);
    if normalized in {"organizes", "hascomponent", "hasorderedcomponent"} then normalized else ""
  }

  ghost predicate ProposesAs(m: Mapping, b: Browse, plane: ReferenceClass, child: ElementId, p: NodeId, kind: string) {
    exists name :: Proposes(m, b, plane, child, p, name) && KindOf(m, name) == kind
  }

  ghost predicate SomeoneProposes(m: Mapping, b: Browse, plane: ReferenceClass, child: ElementId, kind: string) {
    exists p :: ProposesAs(m, b, plane, child, p, kind)
  }

  // p comes first among the parents proposed by the most preferred type of reference that proposes any.
  ghost predicate IsPreferred(m: Mapping, b: Browse, plane: ReferenceClass, child: ElementId, p: NodeId, kind: string) {
    && ProposesAs(m, b, plane, child, p, kind)
    && (forall q :: ProposesAs(m, b, plane, child, q, kind) ==> StringLe(p, q))
    && (kind != "organizes" ==> !SomeoneProposes(m, b, plane, child, "organizes"))
    && (kind == "hasorderedcomponent" || kind == "" ==> !SomeoneProposes(m, b, plane, child, "hascomponent"))
    && (kind == "" ==> !SomeoneProposes(m, b, plane, child, "hasorderedcomponent"))
  }

  // The parent map of a plane gives every proposed element its preferred parent, and no other element one.
  ghost predicate FollowsPreference(m: Mapping, b: Browse, plane: ReferenceClass, parent: map<ElementId, ElementId>) {
    forall child ::
      && (child in parent <==> exists p, kind :: IsPreferred(m, b, plane, child, p, kind))
      && forall p, kind :: IsPreferred(m, b, plane, child, p, kind) ==>
           p in b.bySource && child in parent && parent[child] == m.elementId(b.bySource[p])
  }

  // ----- Proposals and candidates -----

  lemma ProposalIsCandidate(m: Mapping, b: Browse, plane: ReferenceClass, child: ElementId, p: NodeId, name: string)
    ensures Proposes(m, b, plane, child, p, name) <==>
      IsCandidate(m, b, plane, child, Candidate(Priority(m, name), p, name))
    ensures Proposes(m, b, plane, child, p, name) ==> p in b.bySource
  {
    hide Priority;
    var c := Candidate(Priority(m, name), p, name);
    if r :| Offers(m, b, plane, child, c, r) {
      assert ReferenceName(b.bySource[r.target], r) == name;
    }
    if Proposes(m, b, plane, child, p, name) {
      var r :| && IsEntry(b, p, r)
               && m.classify(b.bySource[p], b.bySource[r.target], r) == plane
               && m.elementId(b.bySource[r.target]) == child
               && ReferenceName(b.bySource[r.target], r) == name;
      assert Offers(m, b, plane, child, c, r);
    }
  }

  lemma CandidateIsProposal(m: Mapping, b: Browse, plane: ReferenceClass, child: ElementId, c: Candidate)
    requires IsCandidate(m, b, plane, child, c)
    ensures Proposes(m, b, plane, child, c.parent, c.name) && c.priority == Priority(m, c.name)
  {
    hide Priority;
    var r :| Offers(m, b, plane, child, c, r);
    assert ReferenceName(b.bySource[r.target], r) == c.name;
  }

  lemma KindsInOrder(m: Mapping, a: string, b: string)
    ensures Priority(m, a) == Priority(m, b) <==> KindOf(m, a) == KindOf(m, b)
    ensures Priority(m, a) < Priority(m, b) <==>
      || (KindOf(m, a) == "organizes" && KindOf(m, b) != "organizes")
      || (KindOf(m, a) == "hascomponent" && (KindOf(m, b) == "hasorderedcomponent" || KindOf(m, b) == ""))
      || (KindOf(m, a) == "hasorderedcomponent" && KindOf(m, b) == "")
  {
    assert |"organizes"| == 9 && |"hascomponent"| == 12 && |"hasorderedcomponent"| == 19;
  }

  // The least candidate is the preferred proposal.
  lemma LeastIsPreferred(m: Mapping, b: Browse, plane: ReferenceClass, child: ElementId, c: Candidate)
    requires IsCandidate(m, b, plane, child, c)
    requires forall d :: IsCandidate(m, b, plane, child, d) ==> CandidateLe(c, d)
    ensures IsPreferred(m, b, plane, child, c.parent, KindOf(m, c.name))
  {
    hide IsCandidate, Proposes, Priority, KindOf, StringLe;
    CandidateIsProposal(m, b, plane, child, c);
    StringLeIsTotalOrder();
    forall q, name | Proposes(m, b, plane, child, q, name)
      ensures Priority(m, c.name) <= Priority(m, name)
      ensures Priority(m, c.name) == Priority(m, name) ==> StringLe(c.parent, q)
      ensures KindOf(m, c.name) == KindOf(m, name) <==> Priority(m, c.name) == Priority(m, name)
      ensures KindOf(m, name) == "organizes" ==> KindOf(m, c.name) == "organizes"
      ensures KindOf(m, name) == "hascomponent" ==>
        KindOf(m, c.name) == "organizes" || KindOf(m, c.name) == "hascomponent"
      ensures KindOf(m, name) == "hasorderedcomponent" ==> KindOf(m, c.name) != ""
    {
      ProposalIsCandidate(m, b, plane, child, q, name);
      var d := Candidate(Priority(m, name), q, name);
      assert CandidateLe(c, d);
      KindsInOrder(m, c.name, name);
      KindsInOrder(m, name, c.name);
      KindIsOneOf(m, name);
      KindIsOneOf(m, c.name);
    }
  }

  lemma KindIsOneOf(m: Mapping, name: string)
    ensures KindOf(m, name) in {"organizes", "hascomponent", "hasorderedcomponent", ""}
  {
  }

  lemma OnePreferred(m: Mapping, b: Browse, plane: ReferenceClass, child: ElementId, p: NodeId, kind: string,
                     q: NodeId, other: string)
    requires IsPreferred(m, b, plane, child, p, kind) && IsPreferred(m, b, plane, child, q, other)
    ensures p == q && kind == other
  {
    hide Proposes, KindOf, StringLe;
    StringLeIsTotalOrder();
    KindOfProposal(m, b, plane, child, p, kind);
    KindOfProposal(m, b, plane, child, q, other);
  }

  lemma KindOfProposal(m: Mapping, b: Browse, plane: ReferenceClass, child: ElementId, p: NodeId, kind: string)
    requires ProposesAs(m, b, plane, child, p, kind)
    ensures kind in {"organizes", "hascomponent", "hasorderedcomponent", ""}
  {
  }

  // ----- Built models -----

  lemma PlaneFollowsPreference(m: Mapping, b: Browse, plane: ReferenceClass, table: Table,
                               best: map<ElementId, Candidate>, parent: map<ElementId, ElementId>, children: Children)
    requires CandidatesOf(m, b, plane, table, (s, r) => true) && PlaneFacts(m, b, table, best, parent, children)
    ensures FollowsPreference(m, b, plane, parent)
    ensures forall child :: child in best ==>
      IsPreferred(m, b, plane, child, best[child].parent, KindOf(m, best[child].name))
  {
    hide CandidatesOf, IsCandidate, IsPreferred, KindOf, CandidateLe;
    forall child | child in best
      ensures IsPreferred(m, b, plane, child, best[child].parent, KindOf(m, best[child].name))
    {
      TableIffCandidate(m, b, plane, table, child);
      assert forall d :: d in table[child] <==> d in Listed(table, child);
      LeastIsPreferred(m, b, plane, child, best[child]);
    }
    forall child, p, kind | IsPreferred(m, b, plane, child, p, kind)
      ensures child in best && p == best[child].parent
    {
      TableIffCandidate(m, b, plane, table, child);
      PreferredIsCandidate(m, b, plane, child, p, kind);
      OnePreferred(m, b, plane, child, p, kind, best[child].parent, KindOf(m, best[child].name));
    }
  }

  lemma PreferredIsCandidate(m: Mapping, b: Browse, plane: ReferenceClass, child: ElementId, p: NodeId, kind: string)
    requires IsPreferred(m, b, plane, child, p, kind)
    ensures exists c :: IsCandidate(m, b, plane, child, c)
  {
    var name :| Proposes(m, b, plane, child, p, name) && KindOf(m, name) == kind;
    ProposalIsCandidate(m, b, plane, child, p, name);
  }

  // Every built model gives an element, in either plane, the parent its references prefer: the first by NodeId among
  // those that Organizes proposes, else HasComponent, else HasOrderedComponent, else any other reference.
  lemma ParentsArePreferred(m: Mapping, b: Browse, tr: Trail, model: BuiltModel)
    requires IsModelOf(m, b, tr, model)
    ensures FollowsPreference(m, b, HierarchyClass, model.hierarchyParent)
    ensures FollowsPreference(m, b, CompositionClass, model.compositionParent)
  {
    hide PlaneFacts, FollowsPreference;
    CandidateTables(m, b, tr.drafts);
    PlaneFollowsPreference(m, b, HierarchyClass, tr.drafts.hierarchy, tr.hierarchyBest, model.hierarchyParent,
                           model.hierarchyChildren);
    PlaneFollowsPreference(m, b, CompositionClass, tr.drafts.composition, tr.compositionBest, model.compositionParent,
                           model.compositionChildren);
  }

  lemma CandidateTables(m: Mapping, b: Browse, d: Drafts)
    requires CompleteDrafts(m, b, d)
    ensures CandidatesOf(m, b, HierarchyClass, d.hierarchy, (s, r) => true)
    ensures CandidatesOf(m, b, CompositionClass, d.composition, (s, r) => true)
  {
  }
}
