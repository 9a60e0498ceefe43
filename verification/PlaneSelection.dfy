// One parent per element and plane; hierarchy parents that lose become OrganizedBy edges.
module PlaneSelection {
  import opened Ordering
  import opened ModelBuilder

  // Sort key of a candidate: (priority, parent NodeId, relationship name).
  predicate CandidateLe(a: Candidate, b: Candidate) {
    if a.priority != b.priority then a.priority < b.priority
    else if a.parent != b.parent then StringLe(a.parent, b.parent)
    else StringLe(a.name, b.name)
  }

  lemma CandidateLeIsTotalOrder()
    ensures TotalOrder(CandidateLe)
  {
    StringLeIsTotalOrder();
  }

  ghost predicate IsBest(c: Candidate, candidates: seq<Candidate>) {
    c in candidates && forall d :: d in candidates ==> CandidateLe(c, d)
  }

  // sorted(candidates)[0]
  method Best(candidates: seq<Candidate>) returns (best: Candidate)
    requires candidates != []
    ensures IsBest(best, candidates)
    ensures best in candidates && forall d :: d in candidates ==> best.priority <= d.priority
    ensures forall d :: d in candidates && d.priority == best.priority ==> StringLe(best.parent, d.parent)
    ensures forall d :: d in candidates && d.priority == best.priority && d.parent == best.parent ==>
      StringLe(best.name, d.name)
  {
    CandidateLeIsTotalOrder();
    StringLeIsTotalOrder();
    best := candidates[0];
    for i := 1 to |candidates|
      invariant best in candidates
      invariant forall j :: 0 <= j < i ==> CandidateLe(best, candidates[j])
    {
      if !CandidateLe(best, candidates[i]) {
        best := candidates[i];
      }
    }
  }

  lemma BestIsUnique(c: Candidate, d: Candidate, candidates: seq<Candidate>, others: seq<Candidate>)
    requires IsBest(c, candidates) && IsBest(d, others)
    requires forall e :: e in candidates <==> e in others
    ensures c == d
  {
    CandidateLeIsTotalOrder();
  }

  type Table = map<ElementId, seq<Candidate>>

  ghost predicate KnownParents(b: Browse, table: Table) {
    forall child, c: Candidate {:trigger c in Listed(table, child)} :: c in Listed(table, child) ==>
      c.parent in b.bySource
  }

  ghost predicate BestOfAll(table: Table, best: map<ElementId, Candidate>) {
    best.Keys <= table.Keys && forall child :: child in best ==> IsBest(best[child], table[child])
  }

  // Each child list holds, once, exactly the elements whose parent is its key.
  ghost predicate InverseOf(children: map<ElementId, seq<ElementId>>, parent: map<ElementId, ElementId>) {
    && (forall p, c {:trigger c in Listed(children, p)} :: c in Listed(children, p) <==> c in parent && parent[c] == p)
    && (forall p :: NoDuplicates(Listed(children, p)))
  }

  lemma AddChild(children: map<ElementId, seq<ElementId>>, parent: map<ElementId, ElementId>, c: ElementId,
                 p: ElementId)
    requires InverseOf(children, parent) && c !in parent
    ensures InverseOf(Append(children, p, c), parent[c := p])
  {
    var children', parent' := Append(children, p, c), parent[c := p];
    forall q, d {:trigger d in Listed(children', q)}
      ensures d in Listed(children', q) <==> d in parent' && parent'[d] == q
    {
      assert d in Listed(children', q) <==> d in Listed(children, q) || (q == p && d == c);
    }
    forall q ensures NoDuplicates(Listed(children', q)) {
      assert NoDuplicates(Listed(children, q));
      assert c !in Listed(children, q);
    }
  }

  predicate Loses(d: Candidate, best: Candidate) {
    !(d.parent == best.parent && d.priority == best.priority)
  }

  function OrganizedBy(target: ElementId): GraphEntry {
    GraphEntry("OrganizedBy", I3X_NAMESPACE, target)
  }

  ghost predicate LosesTo(m: Mapping, b: Browse, candidates: seq<Candidate>, best: Candidate, target: ElementId) {
    exists d :: d in candidates && Loses(d, best) && d.parent in b.bySource && IdOf(m, b, d.parent) == target
  }

  ghost predicate AnyLoses(candidates: seq<Candidate>, best: Candidate) {
    exists d :: d in candidates && Loses(d, best)
  }

  // graph' adds an OrganizedBy edge from child to every losing candidate parent.
  ghost predicate LosersAdded(m: Mapping, b: Browse, child: ElementId, candidates: seq<Candidate>, best: Candidate,
                              graph: map<ElementId, seq<GraphEntry>>, graph': map<ElementId, seq<GraphEntry>>) {
    forall id, e {:trigger e in Listed(graph', id)} :: e in Listed(graph', id) <==>
      e in Listed(graph, id) || (id == child && e == OrganizedBy(e.target) && LosesTo(m, b, candidates, best, e.target))
  }

  ghost predicate NameAdded(added: bool, namespaces: map<string, set<string>>, namespaces': map<string, set<string>>) {
    forall name, ns {:trigger ns in Registered(namespaces', name)} :: ns in Registered(namespaces', name) <==>
      ns in Registered(namespaces, name) || (name == "OrganizedBy" && ns == I3X_NAMESPACE && added)
  }

  lemma OneMoreLoser(m: Mapping, b: Browse, candidates: seq<Candidate>, i: nat, best: Candidate)
    requires i < |candidates| && candidates[i].parent in b.bySource
    ensures forall t :: LosesTo(m, b, candidates[..i + 1], best, t) <==>
      LosesTo(m, b, candidates[..i], best, t) || (Loses(candidates[i], best) && IdOf(m, b, candidates[i].parent) == t)
    ensures AnyLoses(candidates[..i + 1], best) <==> AnyLoses(candidates[..i], best) || Loses(candidates[i], best)
  {
    hide IdOf;
    var longer, shorter, d := candidates[..i + 1], candidates[..i], candidates[i];
    assert longer == shorter + [d];
    assert forall e :: e in longer <==> e in shorter || e == d;
    forall t
      ensures LosesTo(m, b, longer, best, t) <==>
        LosesTo(m, b, shorter, best, t) || (Loses(d, best) && IdOf(m, b, d.parent) == t)
    {
      if LosesTo(m, b, shorter, best, t) {
        var e :| e in shorter && Loses(e, best) && e.parent in b.bySource && IdOf(m, b, e.parent) == t;
        assert e in longer;
      }
    }
  }

  // The OrganizedBy loop over the candidates of one child.
  method AddLosers(m: Mapping, b: Browse, child: ElementId, candidates: seq<Candidate>, best: Candidate,
                   graph: map<ElementId, seq<GraphEntry>>, namespaces: map<string, set<string>>)
    returns (graph': map<ElementId, seq<GraphEntry>>, namespaces': map<string, set<string>>)
    requires forall d :: d in candidates ==> d.parent in b.bySource
    requires best in candidates
    ensures LosersAdded(m, b, child, candidates, best, graph, graph')
    ensures NameAdded(AnyLoses(candidates, best), namespaces, namespaces')
  {
    hide IdOf, LosesTo, AnyLoses, Append, Register;
    graph', namespaces' := graph, namespaces;
    NoLoser(m, b, candidates, best);
    if |candidates| > 1 {
      for i := 0 to |candidates|
        invariant LosersAdded(m, b, child, candidates[..i], best, graph, graph')
        invariant NameAdded(AnyLoses(candidates[..i], best), namespaces, namespaces')
      {
        var d := candidates[i];
        OneMoreLoser(m, b, candidates, i, best);
        ghost var before := graph';
        if Loses(d, best) {
          RegisteredRegister(namespaces', "OrganizedBy", I3X_NAMESPACE);
          ListedAppend(graph', child, OrganizedBy(IdOf(m, b, d.parent)));
          namespaces' := Register(namespaces', "OrganizedBy", I3X_NAMESPACE);
          graph' := Append(graph', child, OrganizedBy(IdOf(m, b, d.parent)));
        }
        forall id, e {:trigger e in Listed(graph', id)} ensures e in Listed(graph', id) <==>
          e in Listed(before, id) || (id == child && Loses(d, best) && e == OrganizedBy(IdOf(m, b, d.parent))) {}
      }
      assert candidates[..|candidates|] == candidates;
    }
  }

  lemma NoLoser(m: Mapping, b: Browse, candidates: seq<Candidate>, best: Candidate)
    requires best in candidates
    ensures forall t :: !LosesTo(m, b, candidates[..0], best, t)
    ensures !AnyLoses(candidates[..0], best)
    ensures |candidates| <= 1 ==> !AnyLoses(candidates, best) && forall t :: !LosesTo(m, b, candidates, best, t)
  {
    assert |candidates| <= 1 ==> candidates == [best];
  }

  ghost predicate GraphExtended(m: Mapping, b: Browse, table: Table, best: map<ElementId, Candidate>,
                                graph: map<ElementId, seq<GraphEntry>>, graph': map<ElementId, seq<GraphEntry>>) {
    forall id, e {:trigger e in Listed(graph', id)} :: e in Listed(graph', id) <==> (e in Listed(graph, id)
      || (id in best && id in table && e == OrganizedBy(e.target) && LosesTo(m, b, table[id], best[id], e.target)))
  }

  lemma ExtendGraph(m: Mapping, b: Browse, table: Table, best: map<ElementId, Candidate>, child: ElementId,
                    selected: Candidate,
                    graph: map<ElementId, seq<GraphEntry>>, graph': map<ElementId, seq<GraphEntry>>,
                    graph'': map<ElementId, seq<GraphEntry>>)
    requires child in table && child !in best
    requires GraphExtended(m, b, table, best, graph, graph')
    requires LosersAdded(m, b, child, table[child], selected, graph', graph'')
    ensures GraphExtended(m, b, table, best[child := selected], graph, graph'')
  {
    hide LosesTo;
    forall id, e {:trigger e in Listed(graph'', id)}
      ensures e in Listed(graph'', id) ==> e in Listed(graph', id) || id == child
    {
    }
    forall id, e {:trigger e in Listed(graph', id)} ensures e in Listed(graph', id) ==> e in Listed(graph'', id) {}
  }

  ghost predicate NamespacesExtended(table: Table, best: map<ElementId, Candidate>,
                                     namespaces: map<string, set<string>>, namespaces': map<string, set<string>>) {
    NameAdded(SomeLoser(table, best), namespaces, namespaces')
  }

  ghost predicate SomeLoser(table: Table, best: map<ElementId, Candidate>) {
    exists id, d :: id in best && d in Listed(table, id) && Loses(d, best[id])
  }

  // One plane: the parent map holds the best candidates' elements and the child lists invert it.
  ghost predicate PlaneFacts(m: Mapping, b: Browse, table: Table, best: map<ElementId, Candidate>,
                             parent: map<ElementId, ElementId>, children: map<ElementId, seq<ElementId>>) {
    && best.Keys == table.Keys == parent.Keys && BestOfAll(table, best)
    && (forall c :: c in best ==> best[c].parent in b.bySource && parent[c] == IdOf(m, b, best[c].parent))
    && InverseOf(children, parent)
  }

  // parent_id_by_source keeps a hierarchy parent and falls back to the composition parent.
  ghost predicate SourcesMerged(hierarchySource: map<ElementId, NodeId>, best: map<ElementId, Candidate>,
                                parentSource: map<ElementId, NodeId>) {
    && parentSource.Keys == hierarchySource.Keys + best.Keys
    && forall c :: c in parentSource ==>
      parentSource[c] == if c in hierarchySource then hierarchySource[c] else best[c].parent
  }

  // hierarchy_parent_by_id and parent_id_by_source hold the best candidate's parent as ElementId and NodeId.
  ghost predicate ParentsAre(m: Mapping, b: Browse, best: map<ElementId, Candidate>,
                             parent: map<ElementId, ElementId>, parentSource: map<ElementId, NodeId>) {
    && parent.Keys == parentSource.Keys == best.Keys
    && forall c :: c in best ==>
      best[c].parent in b.bySource && parentSource[c] == best[c].parent && parent[c] == IdOf(m, b, best[c].parent)
  }

  lemma SelectOne(m: Mapping, b: Browse, table: Table, best: map<ElementId, Candidate>,
                  parent: map<ElementId, ElementId>,
                  parentSource: map<ElementId, NodeId>, child: ElementId, selected: Candidate)
    requires BestOfAll(table, best) && ParentsAre(m, b, best, parent, parentSource)
    requires child in table && IsBest(selected, table[child]) && selected.parent in b.bySource
    ensures BestOfAll(table, best[child := selected])
    ensures ParentsAre(m, b, best[child := selected], parent[child := IdOf(m, b, selected.parent)],
                       parentSource[child := selected.parent])
  {
  }

  lemma MakePlaneFacts(m: Mapping, b: Browse, table: Table, best: map<ElementId, Candidate>,
                       parent: map<ElementId, ElementId>,
                       parentSource: map<ElementId, NodeId>, children: map<ElementId, seq<ElementId>>)
    requires best.Keys == table.Keys && BestOfAll(table, best)
    requires ParentsAre(m, b, best, parent, parentSource) && InverseOf(children, parent)
    ensures PlaneFacts(m, b, table, best, parent, children)
  {
  }

  method SelectHierarchy(m: Mapping, b: Browse, table: Table, graph: map<ElementId, seq<GraphEntry>>,
                         namespaces: map<string, set<string>>)
    returns (parent: map<ElementId, ElementId>, parentSource: map<ElementId, NodeId>,
             children: map<ElementId, seq<ElementId>>,
             graph': map<ElementId, seq<GraphEntry>>, namespaces': map<string, set<string>>,
             ghost best: map<ElementId, Candidate>)
    requires Nonempty(table) && KnownParents(b, table)
    ensures parent.Keys == table.Keys && InverseOf(children, parent)
    ensures PlaneFacts(m, b, table, best, parent, children)
    ensures ParentsAre(m, b, best, parent, parentSource)
    ensures GraphExtended(m, b, table, best, graph, graph') && NamespacesExtended(table, best, namespaces, namespaces')
  {
    hide InverseOf, LosesTo, IdOf, GraphExtended, SomeLoser, IsBest, LosersAdded, KnownParents, BestOfAll,
      ParentsAre, PlaneFacts;
    NothingSelected(m, b, table, graph, namespaces);
    parent, parentSource, children, graph', namespaces', best := map[], map[], map[], graph, namespaces, map[];
    var rest := table.Keys;
    while rest != {}
      invariant rest <= table.Keys
      invariant best.Keys == parent.Keys == table.Keys - rest
      invariant BestOfAll(table, best) && ParentsAre(m, b, best, parent, parentSource)
      invariant InverseOf(children, parent)
      invariant GraphExtended(m, b, table, best, graph, graph')
        && NamespacesExtended(table, best, namespaces, namespaces')
      decreases rest
    {
      var child :| child in rest;
      var candidates := table[child];
      KnownParentsOf(b, table, child);
      var selected := Best(candidates);
      BestIsMember(selected, candidates);
      var parentId := IdOf(m, b, selected.parent);
      AddChild(children, parent, child, parentId);
      ghost var graphBefore := graph';
      graph', namespaces' := AddLosers(m, b, child, candidates, selected, graph', namespaces');
      ExtendGraph(m, b, table, best, child, selected, graph, graphBefore, graph');
      MoreLosers(table, best, child, selected);
      SelectOne(m, b, table, best, parent, parentSource, child, selected);
      parent, parentSource := parent[child := parentId], parentSource[child := selected.parent];
      children := Append(children, parentId, child);
      best := best[child := selected];
      rest := rest - {child};
    }
    MakePlaneFacts(m, b, table, best, parent, parentSource, children);
  }

  lemma NothingSelected(m: Mapping, b: Browse, table: Table, graph: map<ElementId, seq<GraphEntry>>,
                        namespaces: map<string, set<string>>)
    ensures InverseOf(map[], map[]) && BestOfAll(table, map[]) && ParentsAre(m, b, map[], map[], map[])
    ensures GraphExtended(m, b, table, map[], graph, graph) && NamespacesExtended(table, map[], namespaces, namespaces)
  {
    forall p: ElementId, c: ElementId {:trigger c in Listed(map[], p)} ensures c !in Listed(map[], p) {}
  }

  lemma KnownParentsOf(b: Browse, table: Table, child: ElementId)
    requires KnownParents(b, table) && child in table
    ensures forall c: Candidate :: c in table[child] ==> c.parent in b.bySource
  {
    assert table[child] == Listed(table, child);
  }

  lemma BestIsMember(c: Candidate, candidates: seq<Candidate>)
    requires IsBest(c, candidates)
    ensures c in candidates
  {
  }

  lemma MoreLosers(table: Table, best: map<ElementId, Candidate>, child: ElementId, selected: Candidate)
    requires child in table && child !in best
    ensures SomeLoser(table, best[child := selected]) <==>
            SomeLoser(table, best) || AnyLoses(table[child], selected)
  {
    var best' := best[child := selected];
    if SomeLoser(table, best) {
      var id, d :| id in best && d in Listed(table, id) && Loses(d, best[id]);
      assert id in best' && Loses(d, best'[id]);
    }
    if AnyLoses(table[child], selected) {
      var d :| d in table[child] && Loses(d, selected);
      assert child in best' && d in Listed(table, child) && Loses(d, best'[child]);
    }
  }

  lemma NothingMerged(sources: map<ElementId, NodeId>)
    ensures SourcesMerged(sources, map[], sources)
  {
  }

  lemma MergeOne(hierarchySource: map<ElementId, NodeId>, best: map<ElementId, Candidate>,
                 merged: map<ElementId, NodeId>, child: ElementId, selected: Candidate)
    requires SourcesMerged(hierarchySource, best, merged) && child !in best
    ensures SourcesMerged(hierarchySource, best[child := selected],
                          merged[child := if child in merged then merged[child] else selected.parent])
  {
  }

  method SelectComposition(m: Mapping, b: Browse, table: Table, parentSource: map<ElementId, NodeId>)
    returns (parent: map<ElementId, ElementId>, parentSource': map<ElementId, NodeId>,
             children: map<ElementId, seq<ElementId>>,
             ghost best: map<ElementId, Candidate>)
    requires Nonempty(table) && KnownParents(b, table)
    ensures parent.Keys == table.Keys && InverseOf(children, parent)
    ensures PlaneFacts(m, b, table, best, parent, children)
    ensures SourcesMerged(parentSource, best, parentSource')
  {
    hide InverseOf, LosesTo, IdOf, GraphExtended, SomeLoser, IsBest, LosersAdded, KnownParents, BestOfAll, ParentsAre;
    hide SourcesMerged, PlaneFacts;
    NothingSelected(m, b, table, map[], map[]);
    parent, parentSource', children, best := map[], parentSource, map[], map[];
    NothingMerged(parentSource);
    ghost var bestSource: map<ElementId, NodeId> := map[];
    var rest := table.Keys;
    while rest != {}
      invariant rest <= table.Keys
      invariant best.Keys == parent.Keys == table.Keys - rest
      invariant BestOfAll(table, best) && ParentsAre(m, b, best, parent, bestSource)
      invariant SourcesMerged(parentSource, best, parentSource')
      invariant InverseOf(children, parent)
      decreases rest
    {
      var child :| child in rest;
      var candidates := table[child];
      KnownParentsOf(b, table, child);
      var selected := Best(candidates);
      BestIsMember(selected, candidates);
      var parentId := IdOf(m, b, selected.parent);
      AddChild(children, parent, child, parentId);
      SelectOne(m, b, table, best, parent, bestSource, child, selected);
      MergeOne(parentSource, best, parentSource', child, selected);
      parent, children, best := parent[child := parentId], Append(children, parentId, child), best[child := selected];
      parentSource' := parentSource'[child := if child in parentSource' then parentSource'[child] else selected.parent];
      bestSource := bestSource[child := selected.parent];
      rest := rest - {child};
    }
    MakePlaneFacts(m, b, table, best, parent, bestSource, children);
  }

  // No hierarchy candidate is lost: it is the chosen parent or ends as an OrganizedBy entry.
  lemma NoCandidateIsLost(m: Mapping, b: Browse, table: Table, best: map<ElementId, Candidate>,
                          graph: map<ElementId, seq<GraphEntry>>, graph': map<ElementId, seq<GraphEntry>>,
                          child: ElementId, c: Candidate)
    requires GraphExtended(m, b, table, best, graph, graph') && KnownParents(b, table)
    requires child in table && child in best && c in table[child]
    ensures c.parent in b.bySource
    ensures c.parent == best[child].parent || OrganizedBy(IdOf(m, b, c.parent)) in Listed(graph', child)
  {
    KnownParentsOf(b, table, child);
    if c.parent != best[child].parent {
      assert LosesTo(m, b, table[child], best[child], IdOf(m, b, c.parent));
    }
  }
}
