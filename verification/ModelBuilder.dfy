// From browsed OPC UA nodes to the three relationship planes: candidate parents, parent selection,
// relationship IDs and the relationship map that records every edge with its inverse.
module ModelBuilder {
  import opened Ordering
  import opened Options

  type NodeId = string
  type ElementId = string

  datatype Reference = Reference(target: NodeId, typeId: Option<string>, browseName: Option<string>)
  datatype BrowsedNode = BrowsedNode(nodeId: NodeId, parent: Option<NodeId>, isVariable: bool, outgoing: seq<Reference>)
  datatype ReferenceClass = HierarchyClass | CompositionClass | GraphClass | TypeMetaClass | IgnoreClass

  // The pure parts of a build that depend on the OPC UA client, the semantic profiles and SHA-1.
  datatype Mapping = Mapping(
    elementId: BrowsedNode -> ElementId,
    classify: (BrowsedNode, BrowsedNode, Reference) -> ReferenceClass,
    namespaceOf: string -> Option<string>,
    normalize: string -> string)

  datatype Candidate = Candidate(priority: int, parent: NodeId, name: string)
  datatype GraphEntry = GraphEntry(name: string, namespace: string, target: ElementId)
  datatype RelationKey = RelationKey(name: string, namespace: string)

  const I3X_NAMESPACE := "https://cesmii.org/i3x"
  const INVERSE := "inverseOf_"
  const BUILT_IN := {"HasParent", "HasChildren", "HasComponent", "ComponentOf"}

  // ----- Dictionaries of lists -----

  function Listed<K, V>(m: map<K, seq<V>>, k: K): seq<V> {
    if k in m then m[k] else []
  }

  // m.setdefault(k, []).append(v)
  function Append<K, V>(m: map<K, seq<V>>, k: K, v: V): map<K, seq<V>> {
    m[k := Listed(m, k) + [v]]
  }

  lemma ListedAppend<K, V>(m: map<K, seq<V>>, k: K, v: V)
    ensures forall q {:trigger Listed(Append(m, k, v), q)} ::
      Listed(Append(m, k, v), q) == if q == k then Listed(m, k) + [v] else Listed(m, q)
  {
  }

  function Registered(m: map<string, set<string>>, name: string): set<string> {
    if name in m then m[name] else {}
  }

  // m.setdefault(name, set()).add(ns)
  function Register(m: map<string, set<string>>, name: string, ns: string): map<string, set<string>> {
    m[name := Registered(m, name) + {ns}]
  }

  lemma RegisteredRegister(m: map<string, set<string>>, name: string, ns: string)
    ensures forall q {:trigger Registered(Register(m, name, ns), q)} ::
      Registered(Register(m, name, ns), q) == if q == name then Registered(m, name) + {ns} else Registered(m, q)
  {
  }

  ghost predicate NoDuplicates<T(!new)>(s: seq<T>) {
    forall i, j :: 0 <= i < j < |s| ==> s[i] != s[j]
  }

  // ----- Browsed nodes and their reference entries -----

  // {node.node_id: node for node in nodes}: a repeated NodeId keeps its last node.
  function BySource(nodes: seq<BrowsedNode>): (m: map<NodeId, BrowsedNode>)
    ensures forall id :: id in m ==> m[id] in nodes && m[id].nodeId == id
    ensures forall n :: n in nodes ==> n.nodeId in m
  {
    if nodes == [] then map[] else
    var last := nodes[|nodes| - 1];
    BySource(nodes[..|nodes| - 1])[last.nodeId := last]
  }

  function ChildSources(nodes: seq<BrowsedNode>, parent: NodeId): (children: seq<NodeId>)
    ensures forall c :: c in children <==> exists n :: n in nodes && n.nodeId == c && n.parent == Some(parent)
  {
    if nodes == [] then [] else
    var last := nodes[|nodes| - 1];
    ChildSources(nodes[..|nodes| - 1], parent) + if last.parent == Some(parent) then [last.nodeId] else []
  }

  function DefaultName(n: BrowsedNode): string {
    if n.isVariable then "HasProperty" else "Organizes"
  }

  function Present(refs: seq<Reference>, known: set<NodeId>): (r: seq<Reference>)
    ensures forall e :: e in r <==> e in refs && e.target in known
  {
    if refs == [] then [] else
    var last := refs[|refs| - 1];
    Present(refs[..|refs| - 1], known) + if last.target in known then [last] else []
  }

  function Fallback(bySource: map<NodeId, BrowsedNode>, children: seq<NodeId>): (r: seq<Reference>)
    requires forall c :: c in children ==> c in bySource
    ensures |r| == |children|
    ensures forall i :: 0 <= i < |r| ==> r[i] == Reference(children[i], None, Some(DefaultName(bySource[children[i]])))
  {
    seq(|children|,
        i requires 0 <= i < |children| => Reference(children[i], None, Some(DefaultName(bySource[children[i]]))))
  }

  // Outgoing references to browsed nodes, or the browse tree when the node carries no references.
  function Entries(nodes: seq<BrowsedNode>, source: NodeId): (r: seq<Reference>)
    requires source in BySource(nodes)
    ensures forall e :: e in r ==> e.target in BySource(nodes)
  {
    var node := BySource(nodes)[source];
    if node.outgoing != [] then Present(node.outgoing, BySource(nodes).Keys)
    else Fallback(BySource(nodes), ChildSources(nodes, source))
  }

  // The keys of by_source_node in dictionary order: where each was first met.
  function KeyOrder(nodes: seq<BrowsedNode>): (order: seq<NodeId>)
    ensures forall id :: id in order <==> id in BySource(nodes)
    ensures NoDuplicates(order)
  {
    if nodes == [] then [] else
    var order, last := KeyOrder(nodes[..|nodes| - 1]), nodes[|nodes| - 1].nodeId;
    if last in order then order else order + [last]
  }

  // The i-th node is the last one with its NodeId.
  ghost predicate IsLastNode(nodes: seq<BrowsedNode>, i: int) {
    0 <= i < |nodes| && forall j :: i < j < |nodes| ==> nodes[j].nodeId != nodes[i].nodeId
  }

  // No node before the i-th has its NodeId.
  ghost predicate IsFirstNode(nodes: seq<BrowsedNode>, i: int) {
    0 <= i < |nodes| && forall j :: 0 <= j < i ==> nodes[j].nodeId != nodes[i].nodeId
  }

  lemma OneMoreNode(init: seq<BrowsedNode>, last: BrowsedNode)
    ensures BySource(init + [last]) == BySource(init)[last.nodeId := last]
    ensures KeyOrder(init + [last]) ==
      if last.nodeId in BySource(init) then KeyOrder(init) else KeyOrder(init) + [last.nodeId]
  {
    assert (init + [last])[..|init|] == init;
  }

  lemma {:induction false} LastNodeIsKept(nodes: seq<BrowsedNode>, i: int)
    requires IsLastNode(nodes, i)
    ensures BySource(nodes)[nodes[i].nodeId] == nodes[i]
    decreases |nodes|
  {
    hide BySource, KeyOrder;
    var init, last := nodes[..|nodes| - 1], nodes[|nodes| - 1];
    assert nodes == init + [last];
    OneMoreNode(init, last);
    if i < |init| {
      assert IsLastNode(init, i);
      LastNodeIsKept(init, i);
    }
  }

  // a is listed before b.
  ghost predicate Precedes(order: seq<NodeId>, a: NodeId, b: NodeId) {
    exists i, j :: 0 <= i < j < |order| && order[i] == a && order[j] == b
  }

  lemma PrecedesStill(order: seq<NodeId>, c: NodeId, a: NodeId, b: NodeId)
    ensures Precedes(order, a, b) ==> Precedes(order + [c], a, b)
    ensures a in order ==> Precedes(order + [c], a, c)
  {
    var longer := order + [c];
    if Precedes(order, a, b) {
      var i, j :| 0 <= i < j < |order| && order[i] == a && order[j] == b;
      assert longer[i] == a && longer[j] == b;
    }
    if a in order {
      var i :| 0 <= i < |order| && order[i] == a;
      assert longer[i] == a && longer[|order|] == c;
    }
  }

  // The dictionary lists NodeIds in the order in which they are first met.
  lemma {:induction false} KeysAsFirstMet(nodes: seq<BrowsedNode>, i: int, j: int)
    requires IsFirstNode(nodes, i) && IsFirstNode(nodes, j) && i < j
    ensures Precedes(KeyOrder(nodes), nodes[i].nodeId, nodes[j].nodeId)
    decreases |nodes|
  {
    hide BySource, KeyOrder, Precedes;
    var init, last := nodes[..|nodes| - 1], nodes[|nodes| - 1];
    assert nodes == init + [last];
    OneMoreNode(init, last);
    PrecedesStill(KeyOrder(init), last.nodeId, nodes[i].nodeId, nodes[j].nodeId);
    if j < |init| {
      KeysAsFirstMet(init, i, j);
    } else {
      assert nodes[i] in init;
      NotMetBefore(init, last);
    }
  }

  lemma NotMetBefore(init: seq<BrowsedNode>, last: BrowsedNode)
    requires IsFirstNode(init + [last], |init|)
    ensures last.nodeId !in BySource(init)
  {
    forall j | 0 <= j < |init| ensures init[j].nodeId != last.nodeId {
      assert (init + [last])[j] == init[j];
    }
  }

  // What the later phases see of the address space: the nodes, the reference entries of each, and the order
  // in which a loop over the nodes meets them.
  datatype Browse = Browse(bySource: map<NodeId, BrowsedNode>, entries: map<NodeId, seq<Reference>>, order: seq<NodeId>)
  {
    ghost predicate Valid() {
      && entries.Keys == bySource.Keys
      && (forall s :: s in order <==> s in bySource)
      && forall s, r :: s in entries && r in entries[s] ==> r.target in bySource
    }
  }

  function BrowseOf(nodes: seq<BrowsedNode>): (b: Browse)
    ensures b.Valid()
  {
    var bySource := BySource(nodes);
    Browse(bySource, map s | s in bySource :: Entries(nodes, s), KeyOrder(nodes))
  }

  predicate SameEdge(a: Reference, b: Reference) {
    a.target == b.target && a.typeId == b.typeId
  }

  // The entries that survive the seen-edge check: the first of every (target, type) pair.
  function Kept(entries: seq<Reference>): (r: seq<Reference>)
    ensures forall e :: e in r ==> e in entries
  {
    if entries == [] then [] else
    var kept := Kept(entries[..|entries| - 1]);
    var last := entries[|entries| - 1];
    if exists e :: e in kept && SameEdge(e, last) then kept else kept + [last]
  }

  lemma KeptOfOneMore(init: seq<Reference>, last: Reference)
    ensures Kept(init + [last]) ==
      if exists e :: e in Kept(init) && SameEdge(e, last) then Kept(init) else Kept(init) + [last]
  {
    assert (init + [last])[..|init|] == init;
  }

  // Every entry is kept or follows a kept one with its target and type.
  lemma {:induction false} KeptCovers(entries: seq<Reference>, e: Reference)
    requires e in entries
    ensures exists k :: k in Kept(entries) && SameEdge(k, e)
  {
    hide Kept;
    var init, last := entries[..|entries| - 1], entries[|entries| - 1];
    assert entries == init + [last];
    KeptOfOneMore(init, last);
    if e in init {
      KeptCovers(init, e);
      var k :| k in Kept(init) && SameEdge(k, e);
      assert k in Kept(entries);
    } else if !exists k :: k in Kept(init) && SameEdge(k, last) {
      assert last in Kept(entries) && SameEdge(last, e);
    }
  }

  ghost predicate IsFirstEdge(entries: seq<Reference>, i: int, e: Reference) {
    0 <= i < |entries| && entries[i] == e && forall j :: 0 <= j < i ==> !SameEdge(entries[j], e)
  }

  // What is kept is the first entry of each target and type, and nothing else.
  lemma {:induction false} KeptIsFirst(entries: seq<Reference>, e: Reference)
    ensures e in Kept(entries) <==> exists i :: IsFirstEdge(entries, i, e)
    decreases |entries|
  {
    hide Kept;
    if entries == [] {
      NothingKept(entries);
      assert entries[..0] == [];
    } else {
      var init, last := entries[..|entries| - 1], entries[|entries| - 1];
      assert entries == init + [last];
      KeptOfOneMore(init, last);
      KeptIsFirst(init, e);
      if i :| IsFirstEdge(init, i, e) {
        assert IsFirstEdge(entries, i, e);
      }
      if e == last {
        LastIsFirst(init, last);
      }
      forall i | IsFirstEdge(entries, i, e) ensures i == |init| || IsFirstEdge(init, i, e) {}
    }
  }

  // A last entry starts its own target and type exactly when nothing kept has them.
  lemma LastIsFirst(init: seq<Reference>, last: Reference)
    ensures IsFirstEdge(init + [last], |init|, last) <==> !exists k :: k in Kept(init) && SameEdge(k, last)
  {
    hide Kept;
    var entries := init + [last];
    if k :| k in Kept(init) && SameEdge(k, last) {
      assert k in init;
      var j :| 0 <= j < |init| && init[j] == k;
      assert entries[j] == k;
    } else {
      forall j | 0 <= j < |init| ensures !SameEdge(entries[j], last) {
        KeptCovers(init, init[j]);
      }
    }
  }

  function NameOf(target: BrowsedNode, r: Reference): string {
    if r.browseName.Some? && r.browseName.value != "" then r.browseName.value else DefaultName(target)
  }

  function Priority(m: Mapping, name: string): int {
    var normalized := m.normalize(name);
    if normalized == "organizes" then 0
    else if normalized == "hascomponent" then 1
    else if normalized == "hasorderedcomponent" then 2
    else 99
  }

  // ----- Specification of the drafts -----

  ghost predicate IsEntry(b: Browse, source: NodeId, r: Reference) {
    source in b.bySource && source in b.entries && r.target in b.bySource && r in Kept(b.entries[source])
  }

  function ClassOf(m: Mapping, b: Browse, source: NodeId, r: Reference): ReferenceClass
    requires source in b.bySource && r.target in b.bySource
  {
    m.classify(b.bySource[source], b.bySource[r.target], r)
  }

  function CandidateFor(m: Mapping, b: Browse, source: NodeId, r: Reference): Candidate
    requires r.target in b.bySource
  {
    var name := NameOf(b.bySource[r.target], r);
    Candidate(Priority(m, name), source, name)
  }

  function IdOf(m: Mapping, b: Browse, source: NodeId): ElementId
    requires source in b.bySource
  {
    m.elementId(b.bySource[source])
  }

  // The kept reference r of c.parent offers c as parent of `child` in the plane of class `plane`.
  ghost predicate Offers(m: Mapping, b: Browse, plane: ReferenceClass, child: ElementId, c: Candidate, r: Reference) {
    && IsEntry(b, c.parent, r)
    && ClassOf(m, b, c.parent, r) == plane
    && IdOf(m, b, r.target) == child
    && CandidateFor(m, b, c.parent, r) == c
  }

  ghost predicate IsCandidate(m: Mapping, b: Browse, plane: ReferenceClass, child: ElementId, c: Candidate) {
    exists r :: Offers(m, b, plane, child, c, r)
  }

  predicate IsGraphClass(c: ReferenceClass) {
    c != HierarchyClass && c != CompositionClass
  }

  function NamespaceFor(m: Mapping, r: Reference): Option<string> {
    if r.typeId.None? then Some(I3X_NAMESPACE) else m.namespaceOf(r.typeId.value)
  }

  ghost predicate Yields(m: Mapping, b: Browse, source: NodeId, e: GraphEntry, r: Reference) {
    && IsEntry(b, source, r)
    && IsGraphClass(ClassOf(m, b, source, r))
    && NamespaceFor(m, r) == Some(e.namespace)
    && e.name == NameOf(b.bySource[r.target], r)
    && e.target == IdOf(m, b, r.target)
  }

  // A graph reference whose type has no namespace: the build raises.
  ghost predicate Unresolvable(m: Mapping, b: Browse, source: NodeId, r: Reference) {
    IsEntry(b, source, r) && IsGraphClass(ClassOf(m, b, source, r)) && NamespaceFor(m, r).None?
  }

  datatype Drafts = Drafts(hierarchy: map<ElementId, seq<Candidate>>, composition: map<ElementId, seq<Candidate>>,
                           graph: map<NodeId, seq<GraphEntry>>, namespaces: map<string, set<string>>)

  // What one kept reference adds to the drafts; None when its namespace cannot be resolved.
  function AddEntry(m: Mapping, b: Browse, source: NodeId, r: Reference, d: Drafts): Option<Drafts>
    requires source in b.bySource && r.target in b.bySource
  {
    var child, name := IdOf(m, b, r.target), NameOf(b.bySource[r.target], r);
    var candidate := CandidateFor(m, b, source, r);
    match ClassOf(m, b, source, r)
    case HierarchyClass => Some(d.(hierarchy := Append(d.hierarchy, child, candidate)))
    case CompositionClass => Some(d.(composition := Append(d.composition, child, candidate)))
    case _ =>
      match NamespaceFor(m, r)
      case None => None
      case Some(ns) => Some(d.(
        graph := Append(d.graph, source, GraphEntry(name, ns, child)),
        namespaces := Register(d.namespaces, name, ns)))
  }

  ghost predicate Nonempty<K, V>(m: map<K, seq<V>>) {
    forall k :: k in m ==> m[k] != []
  }

  // The entries in `done` are the ones processed so far.
  type Progress = (NodeId, Reference) -> bool

  type Offer = (ElementId, Candidate, Reference) -> bool

  ghost function OffersIn(m: Mapping, b: Browse, plane: ReferenceClass): Offer {
    (child, c, r) => Offers(m, b, plane, child, c, r)
  }

  ghost predicate Tabulates(table: map<ElementId, seq<Candidate>>, offers: Offer, done: Progress) {
    && Nonempty(table)
    && forall child, c: Candidate {:trigger c in Listed(table, child)} :: c in Listed(table, child) <==>
      exists r :: done(c.parent, r) && offers(child, c, r)
  }

  ghost predicate CandidatesOf(m: Mapping, b: Browse, plane: ReferenceClass,
                               table: map<ElementId, seq<Candidate>>, done: Progress) {
    Tabulates(table, OffersIn(m, b, plane), done)
  }

  ghost predicate GraphOf(m: Mapping, b: Browse, graph: map<NodeId, seq<GraphEntry>>, done: Progress) {
    forall s, e :: e in Listed(graph, s) <==> exists r :: done(s, r) && Yields(m, b, s, e, r)
  }

  ghost predicate NamespacesOf(m: Mapping, b: Browse, namespaces: map<string, set<string>>, done: Progress) {
    forall name, ns :: ns in Registered(namespaces, name) <==>
      exists s, t, r :: done(s, r) && Yields(m, b, s, GraphEntry(name, ns, t), r)
  }

  // d holds exactly what the processed references contribute.
  ghost predicate DraftsOf(m: Mapping, b: Browse, d: Drafts, done: Progress) {
    && CandidatesOf(m, b, HierarchyClass, d.hierarchy, done)
    && CandidatesOf(m, b, CompositionClass, d.composition, done)
    && GraphOf(m, b, d.graph, done)
    && NamespacesOf(m, b, d.namespaces, done)
  }

  ghost predicate Extends(done: Progress, source: NodeId, r: Reference, done': Progress) {
    forall s, e :: done'(s, e) <==> done(s, e) || (s == source && e == r)
  }

  lemma AddOffer(table: map<ElementId, seq<Candidate>>, offers: Offer, source: NodeId, r: Reference,
                 child: ElementId, mine: Candidate, hit: bool, done: Progress, done': Progress)
    requires Tabulates(table, offers, done) && Extends(done, source, r, done')
    requires forall d, c: Candidate :: c.parent == source && offers(d, c, r) <==> hit && d == child && c == mine
    ensures Tabulates(if hit then Append(table, child, mine) else table, offers, done')
  {
    var table' := if hit then Append(table, child, mine) else table;
    forall d, c: Candidate {:trigger c in Listed(table', d)}
      ensures c in Listed(table', d) <==> exists e :: done'(c.parent, e) && offers(d, c, e)
    {
      assert offers(d, c, r) || !offers(d, c, r);
      if c in Listed(table, d) {
        var e :| done(c.parent, e) && offers(d, c, e);
        assert done'(c.parent, e);
      } else if hit && d == child && c == mine {
        assert done'(c.parent, r);
      }
    }
    assert Nonempty(table');
  }

  lemma AddCandidate(m: Mapping, b: Browse, plane: ReferenceClass, table: map<ElementId, seq<Candidate>>,
                     source: NodeId, r: Reference, done: Progress, done': Progress)
    requires CandidatesOf(m, b, plane, table, done) && IsEntry(b, source, r) && Extends(done, source, r, done')
    ensures CandidatesOf(m, b, plane,
              if ClassOf(m, b, source, r) == plane
              then Append(table, IdOf(m, b, r.target), CandidateFor(m, b, source, r)) else table, done')
  {
    AddOffer(table, OffersIn(m, b, plane), source, r, IdOf(m, b, r.target), CandidateFor(m, b, source, r),
             ClassOf(m, b, source, r) == plane, done, done');
  }

  lemma AddGraph(m: Mapping, b: Browse, graph: map<NodeId, seq<GraphEntry>>, source: NodeId, r: Reference,
                 entry: Option<GraphEntry>, done: Progress, done': Progress)
    requires GraphOf(m, b, graph, done) && IsEntry(b, source, r) && Extends(done, source, r, done')
    requires forall e :: entry == Some(e) <==> Yields(m, b, source, e, r)
    ensures GraphOf(m, b, if entry.Some? then Append(graph, source, entry.value) else graph, done')
  {
    hide Yields, IsEntry;
    var graph' := if entry.Some? then Append(graph, source, entry.value) else graph;
    forall s, g ensures g in Listed(graph', s) <==> exists e :: done'(s, e) && Yields(m, b, s, g, e) {
      assert g in Listed(graph', s) <==> g in Listed(graph, s) || (s == source && entry == Some(g));
      assert forall e :: done'(s, e) && Yields(m, b, s, g, e) ==> done(s, e) || (e == r && s == source);
      assert done'(source, r);
    }
  }

  lemma AddNamespace(m: Mapping, b: Browse, namespaces: map<string, set<string>>, source: NodeId, r: Reference,
                     entry: Option<GraphEntry>, done: Progress, done': Progress)
    requires NamespacesOf(m, b, namespaces, done) && IsEntry(b, source, r) && Extends(done, source, r, done')
    requires forall e :: entry == Some(e) <==> Yields(m, b, source, e, r)
    ensures NamespacesOf(m, b, if entry.Some?
              then Register(namespaces, entry.value.name, entry.value.namespace)
              else namespaces, done')
  {
    hide Yields, IsEntry;
    var namespaces' := if entry.Some?
      then Register(namespaces, entry.value.name, entry.value.namespace) else namespaces;
    forall n, ns ensures ns in Registered(namespaces', n) <==>
        exists s, t, e :: done'(s, e) && Yields(m, b, s, GraphEntry(n, ns, t), e) {
      assert ns in Registered(namespaces', n) <==>
        ns in Registered(namespaces, n) || (entry.Some? && entry.value.name == n && entry.value.namespace == ns);
      assert forall s, t, e :: done'(s, e) && Yields(m, b, s, GraphEntry(n, ns, t), e) ==>
          done(s, e) || (e == r && s == source && entry == Some(GraphEntry(n, ns, t)));
      assert done'(source, r);
      if entry.Some? && entry.value.name == n && entry.value.namespace == ns {
        assert Yields(m, b, source, GraphEntry(n, ns, entry.value.target), r);
      }
    }
  }

  lemma AddEntryKeepsDrafts(m: Mapping, b: Browse, source: NodeId, r: Reference, d: Drafts, d': Drafts,
                            done: Progress, done': Progress)
    requires DraftsOf(m, b, d, done) && IsEntry(b, source, r) && Extends(done, source, r, done')
    requires AddEntry(m, b, source, r, d) == Some(d')
    ensures DraftsOf(m, b, d', done')
  {
    hide CandidatesOf, GraphOf, NamespacesOf;
    AddCandidate(m, b, HierarchyClass, d.hierarchy, source, r, done, done');
    AddCandidate(m, b, CompositionClass, d.composition, source, r, done, done');
    var ns := NamespaceFor(m, r);
    var entry := if IsGraphClass(ClassOf(m, b, source, r)) && ns.Some?
      then Some(GraphEntry(NameOf(b.bySource[r.target], r), ns.value, IdOf(m, b, r.target))) else None;
    AddGraph(m, b, d.graph, source, r, entry, done, done');
    AddNamespace(m, b, d.namespaces, source, r, entry, done, done');
  }

  lemma NothingDone(m: Mapping, b: Browse, done: Progress)
    requires forall s, e :: !done(s, e)
    ensures DraftsOf(m, b, Drafts(map[], map[], map[], map[]), done)
  {
    assert forall child: ElementId, c: Candidate :: c !in Listed(map[], child);
    assert forall s: NodeId, e: GraphEntry :: e !in Listed(map[], s);
  }

  lemma AddEntryFails(m: Mapping, b: Browse, source: NodeId, r: Reference, d: Drafts)
    requires IsEntry(b, source, r)
    ensures AddEntry(m, b, source, r, d).None? <==> Unresolvable(m, b, source, r)
  {
  }

  lemma NothingKept(entries: seq<Reference>)
    ensures Kept(entries[..0]) == []
  {
  }

  // One pass of the reference loop over a single source node.
  method CollectSource(m: Mapping, b: Browse, source: NodeId, d: Drafts,
                       ghost done: Progress, ghost done': Progress)
    returns (r: Option<Drafts>)
    requires b.Valid() && source in b.bySource && DraftsOf(m, b, d, done)
    requires forall e :: !done(source, e)
    requires forall s, e :: done'(s, e) <==> done(s, e) || s == source
    ensures r.Some? ==> DraftsOf(m, b, r.value, done') && forall e :: !Unresolvable(m, b, source, e)
    ensures r.None? ==> exists e :: Unresolvable(m, b, source, e)
  {
    hide DraftsOf, Kept, AddEntry, ClassOf, IdOf, NameOf, NamespaceFor;
    var entries := b.entries[source];
    var seen: set<(NodeId, Option<string>)> := {};
    var drafts := d;
    ghost var before := done;
    NothingKept(entries);
    for i := 0 to |entries|
      invariant forall s, e :: before(s, e) <==> done(s, e) || (s == source && e in Kept(entries[..i]))
      invariant DraftsOf(m, b, drafts, before)
      invariant forall t, ty :: (t, ty) in seen <==>
        exists e :: e in Kept(entries[..i]) && e.target == t && e.typeId == ty
      invariant forall e :: e in Kept(entries[..i]) ==> !Unresolvable(m, b, source, e)
    {
      var entry := entries[i];
      KeptGrows(entries, i);
      if (entry.target, entry.typeId) !in seen {
        seen := seen + {(entry.target, entry.typeId)};
        KeptOfPrefix(entries, i + 1, entry);
        AddEntryFails(m, b, source, entry, drafts);
        var added := AddEntry(m, b, source, entry, drafts);
        if added.None? {
          return None;
        }
        ghost var after := (s, e) => before(s, e) || (s == source && e == entry);
        AddEntryKeepsDrafts(m, b, source, entry, drafts, added.value, before, after);
        drafts, before := added.value, after;
      }
    }
    assert entries[..|entries|] == entries;
    SameDone(m, b, source, drafts, before, done');
    r := Some(drafts);
  }

  lemma KeptGrows(entries: seq<Reference>, i: nat)
    requires i < |entries|
    ensures Kept(entries[..i + 1]) ==
            if exists e :: e in Kept(entries[..i]) && SameEdge(e, entries[i]) then Kept(entries[..i])
            else Kept(entries[..i]) + [entries[i]]
  {
    assert entries[..i + 1][..i] == entries[..i];
  }

  lemma {:induction false} KeptOfPrefix(entries: seq<Reference>, i: nat, e: Reference)
    requires i <= |entries| && e in Kept(entries[..i])
    ensures e in Kept(entries)
    decreases |entries| - i
  {
    if i < |entries| {
      KeptGrows(entries, i);
      KeptOfPrefix(entries, i + 1, e);
    } else {
      assert entries[..i] == entries;
    }
  }

  // Marking non-entries of a finished source as done changes nothing.
  lemma SameDone(m: Mapping, b: Browse, source: NodeId, d: Drafts,
                 done: Progress, done': Progress)
    requires DraftsOf(m, b, d, done)
    requires forall s, e :: done(s, e) ==> done'(s, e)
    requires forall s, e :: done'(s, e) && IsEntry(b, s, e) ==> done(s, e)
    ensures DraftsOf(m, b, d, done')
  {
    assert forall plane, child, c: Candidate, e :: Offers(m, b, plane, child, c, e) ==>
      (done'(c.parent, e) <==> done(c.parent, e));
    assert forall s, g, e :: Yields(m, b, s, g, e) ==> (done'(s, e) <==> done(s, e));
    SameCandidates(d.hierarchy, OffersIn(m, b, HierarchyClass), done, done');
    SameCandidates(d.composition, OffersIn(m, b, CompositionClass), done, done');
    forall name, ns, s, t, r | Yields(m, b, s, GraphEntry(name, ns, t), r) ensures done'(s, r) <==> done(s, r) {}
  }

  lemma SameCandidates(table: map<ElementId, seq<Candidate>>, offers: Offer, done: Progress, done': Progress)
    requires Tabulates(table, offers, done)
    requires forall child, c: Candidate, e :: offers(child, c, e) ==> (done'(c.parent, e) <==> done(c.parent, e))
    ensures Tabulates(table, offers, done')
  {
  }

  ghost predicate CompleteDrafts(m: Mapping, b: Browse, d: Drafts) {
    DraftsOf(m, b, d, (s, r) => true)
  }

  // The whole reference loop: it fails exactly when some graph reference has no resolvable namespace.
  method Collect(m: Mapping, b: Browse) returns (r: Option<Drafts>)
    requires b.Valid()
    ensures r.Some? ==> CompleteDrafts(m, b, r.value)
    ensures r.None? <==> exists s, e :: Unresolvable(m, b, s, e)
  {
    var drafts := Drafts(map[], map[], map[], map[]);
    hide DraftsOf;
    var rest := b.bySource.Keys;
    ghost var done: Progress := (s, r) => false;
    NothingDone(m, b, done);
    while rest != {}
      invariant rest <= b.bySource.Keys
      invariant forall s, e :: done(s, e) <==> s in b.bySource && s !in rest
      invariant DraftsOf(m, b, drafts, done)
      invariant forall s, e :: s in b.bySource && s !in rest ==> !Unresolvable(m, b, s, e)
      decreases rest
    {
      var source :| source in rest;
      ghost var done' := (s, e) => done(s, e) || s == source;
      var collected := CollectSource(m, b, source, drafts, done, done');
      if collected.None? {
        return None;
      }
      drafts, done, rest := collected.value, done', rest - {source};
    }
    SameDone(m, b, "", drafts, done, (s, r) => true);
    r := Some(drafts);
  }
}
