// From element IDs to NodeIds and back: the identity indexes of a built model and the two resolvers.
module NodeIdentity {
  import opened Options
  import opened NodeIds
  import opened NodeIdSenses
  import opened Texts

  type ElementId = string

  // nodes_by_id in its order, with the metadata fields the indexes read.
  datatype Node = Node(id: ElementId, uaNodeId: string, expandedNodeId: string)
  datatype Identity = Identity(byNodeId: map<string, ElementId>, byExpanded: map<string, ElementId>)
  datatype Model = Model(lib: Lib, uris: Uris, nodes: seq<Node>)

  function CanonicalOf(m: Model, text: string): Option<string> { Canonical(m.lib, m.uris, text) }

  // ----- Building the indexes -----

  // setdefault(key, id)
  function SetDefault(ids: map<string, ElementId>, key: string, id: ElementId): map<string, ElementId> {
    if key in ids then ids else ids[key := id]
  }

  function SetDefaults(ids: map<string, ElementId>, keys: set<string>, id: ElementId): map<string, ElementId> {
    map k | k in ids.Keys + keys :: if k in ids then ids[k] else id
  }

  // The keys a node is filed under among the expanded and canonical forms.
  function ExpandedKeys(m: Model, n: Node): set<string> {
    var c, e := CanonicalOf(m, n.uaNodeId), CanonicalOf(m, n.expandedNodeId);
    (if n.uaNodeId != "" && c.Some? && "nsu=" <= c.value then {c.value} else {})
    + (if n.expandedNodeId != "" then {n.expandedNodeId} + (if e.Some? then {e.value} else {}) else {})
  }

  // The keys it is filed under among the NodeIds as they were browsed.
  function RawKeys(m: Model, n: Node): set<string> {
    var c := CanonicalOf(m, n.uaNodeId);
    if n.uaNodeId == "" then {} else {n.uaNodeId} + if c.Some? && !("nsu=" <= c.value) then {c.value} else {}
  }

  // nodes[i] is the first node filed under the key.
  ghost predicate IsFirst(m: Model, keys: Node -> set<string>, i: int, key: string) {
    0 <= i < |m.nodes| && key in keys(m.nodes[i]) && forall j :: 0 <= j < i ==> key !in keys(m.nodes[j])
  }

  ghost predicate FiledUpTo(m: Model, keys: Node -> set<string>, ids: map<string, ElementId>, n: nat) {
    && (forall key :: key in ids ==> exists i :: 0 <= i < n && IsFirst(m, keys, i, key))
    && (forall i, key :: 0 <= i < n && IsFirst(m, keys, i, key) ==> key in ids && ids[key] == m.nodes[i].id)
  }

  lemma FiledMore(m: Model, keys: Node -> set<string>, ids: map<string, ElementId>, n: nat)
    requires n < |m.nodes| && FiledUpTo(m, keys, ids, n)
    requires forall j, key :: 0 <= j < n && key in keys(m.nodes[j]) ==> key in ids
    ensures FiledUpTo(m, keys, SetDefaults(ids, keys(m.nodes[n]), m.nodes[n].id), n + 1)
    ensures forall j, key :: 0 <= j < n + 1 && key in keys(m.nodes[j]) ==>
      key in SetDefaults(ids, keys(m.nodes[n]), m.nodes[n].id)
  {
    var after := SetDefaults(ids, keys(m.nodes[n]), m.nodes[n].id);
    forall key | key in after ensures exists i :: 0 <= i < n + 1 && IsFirst(m, keys, i, key) {
      if key in ids {
        var i :| 0 <= i < n && IsFirst(m, keys, i, key);
      } else {
        assert IsFirst(m, keys, n, key);
      }
    }
  }

  lemma OneMoreDefault(ids: map<string, ElementId>, keys: set<string>, key: string, id: ElementId)
    ensures SetDefault(SetDefaults(ids, keys, id), key, id) == SetDefaults(ids, keys + {key}, id)
  {
  }

  lemma NoDefaults(ids: map<string, ElementId>, id: ElementId)
    ensures SetDefaults(ids, {}, id) == ids
  {
  }

  // One round of the loop at the end of ModelBuilder.build.
  method FileNode(m: Model, n: Node, byNodeId: map<string, ElementId>, byExpanded: map<string, ElementId>)
    returns (raw: map<string, ElementId>, expanded: map<string, ElementId>)
    ensures raw == SetDefaults(byNodeId, RawKeys(m, n), n.id)
    ensures expanded == SetDefaults(byExpanded, ExpandedKeys(m, n), n.id)
  {
    hide Canonical, SetDefault, SetDefaults;
    raw, expanded := byNodeId, byExpanded;
    ghost var rawKeys: set<string>, expandedKeys: set<string> := {}, {};
    NoDefaults(byNodeId, n.id);
    NoDefaults(byExpanded, n.id);
    if n.uaNodeId != "" {
      OneMoreDefault(byNodeId, rawKeys, n.uaNodeId, n.id);
      raw, rawKeys := SetDefault(raw, n.uaNodeId, n.id), rawKeys + {n.uaNodeId};
      var canonical := CanonicalOf(m, n.uaNodeId);
      if canonical.Some? {
        if "nsu=" <= canonical.value {
          OneMoreDefault(byExpanded, expandedKeys, canonical.value, n.id);
          expanded, expandedKeys := SetDefault(expanded, canonical.value, n.id), expandedKeys + {canonical.value};
        } else {
          OneMoreDefault(byNodeId, rawKeys, canonical.value, n.id);
          raw, rawKeys := SetDefault(raw, canonical.value, n.id), rawKeys + {canonical.value};
        }
      }
    }
    if n.expandedNodeId != "" {
      OneMoreDefault(byExpanded, expandedKeys, n.expandedNodeId, n.id);
      expanded, expandedKeys := SetDefault(expanded, n.expandedNodeId, n.id), expandedKeys + {n.expandedNodeId};
      var canonical := CanonicalOf(m, n.expandedNodeId);
      if canonical.Some? {
        OneMoreDefault(byExpanded, expandedKeys, canonical.value, n.id);
        expanded, expandedKeys := SetDefault(expanded, canonical.value, n.id), expandedKeys + {canonical.value};
      }
    }
    assert rawKeys == RawKeys(m, n);
    assert expandedKeys == ExpandedKeys(m, n);
  }

  method BuildIdentity(m: Model) returns (identity: Identity)
    ensures IsIdentity(m, identity)
  {
    hide FiledUpTo, RawKeys, ExpandedKeys, SetDefaults;
    var byNodeId: map<string, ElementId>, byExpanded: map<string, ElementId> := map[], map[];
    ghost var raw, expanded := (n: Node) => RawKeys(m, n), (n: Node) => ExpandedKeys(m, n);
    NothingFiled(m, raw);
    NothingFiled(m, expanded);
    for i := 0 to |m.nodes|
      invariant FiledUpTo(m, raw, byNodeId, i) && FiledUpTo(m, expanded, byExpanded, i)
      invariant forall j, key :: 0 <= j < i && key in raw(m.nodes[j]) ==> key in byNodeId
      invariant forall j, key :: 0 <= j < i && key in expanded(m.nodes[j]) ==> key in byExpanded
    {
      FiledMore(m, raw, byNodeId, i);
      FiledMore(m, expanded, byExpanded, i);
      byNodeId, byExpanded := FileNode(m, m.nodes[i], byNodeId, byExpanded);
    }
    identity := Identity(byNodeId, byExpanded);
  }

  lemma NothingFiled(m: Model, keys: Node -> set<string>)
    ensures FiledUpTo(m, keys, map[], 0)
  {
  }

  // ----- Resolving -----

  datatype Answer<T> = Blank | BadFormat | Missing | Resolved(value: T)

  function Get(ids: map<string, ElementId>, key: string): Option<ElementId> {
    if key in ids then Some(ids[key]) else None
  }

  function FindNode(nodes: seq<Node>, id: ElementId): Option<Node> {
    if nodes == [] then None else if nodes[0].id == id then Some(nodes[0]) else FindNode(nodes[1..], id)
  }

  // One item of _resolve_element_ids_to_node_ids.
  function NodeIdOf(m: Model, id: ElementId): Answer<string> {
    if Strip(m.lib.isSpace, id) == "" then Blank else
    match FindNode(m.nodes, id)
    case None => Missing
    case Some(n) => if n.uaNodeId == "" then Missing else Resolved(n.uaNodeId)
  }

  // One item of _resolve_node_ids_to_element_ids.
  function ElementIdOf(m: Model, identity: Identity, nodeId: string): Answer<ElementId> {
    if Strip(m.lib.isSpace, nodeId) == "" then Blank else
    match CanonicalOf(m, nodeId)
    case None => BadFormat
    case Some(canonical) =>
      var expanded := Get(identity.byExpanded, canonical);
      var found := if expanded.Some? then expanded else Get(identity.byNodeId, Strip(m.lib.isSpace, nodeId));
      match found
      case None => Missing
      case Some(id) => match FindNode(m.nodes, id) { case None => Missing case Some(n) => Resolved(n.id) }
  }

  lemma {:induction false} FindsTheNode(nodes: seq<Node>, i: nat)
    requires i < |nodes| && forall j, k :: 0 <= j < k < |nodes| ==> nodes[j].id != nodes[k].id
    ensures FindNode(nodes, nodes[i].id) == Some(nodes[i])
  {
    if i > 0 {
      FindsTheNode(nodes[1..], i - 1);
    }
  }

  // A model as build leaves it: distinct element IDs, browsed NodeIds, and their expanded forms over the
  // namespaces the index maps.
  ghost predicate IsBuilt(m: Model, infos: seq<string>) {
    && IsLib(m.lib) && m.uris == UrisOf(infos)
    && (forall j, k :: 0 <= j < k < |m.nodes| ==> m.nodes[j].id != m.nodes[k].id)
    && (forall i :: 0 <= i < |m.nodes| ==>
          m.nodes[i].uaNodeId != "" && m.nodes[i].expandedNodeId == Expanded(infos, m.nodes[i].uaNodeId))
  }

  ghost predicate IsIdentity(m: Model, identity: Identity) {
    && FiledUpTo(m, n => RawKeys(m, n), identity.byNodeId, |m.nodes|)
    && FiledUpTo(m, n => ExpandedKeys(m, n), identity.byExpanded, |m.nodes|)
  }

  // The i-th node's canonical form is met for the first time there.
  ghost predicate IsFirstCanonical(m: Model, i: int) {
    && 0 <= i < |m.nodes| && CanonicalOf(m, m.nodes[i].uaNodeId).Some?
    && forall j :: 0 <= j < i ==> CanonicalOf(m, m.nodes[j].uaNodeId) != CanonicalOf(m, m.nodes[i].uaNodeId)
  }

  lemma ExpandedIsNotEmpty(infos: seq<string>, text: string)
    requires text != ""
    ensures Expanded(infos, text) != ""
  {
    hide ReadIndexed;
  }

  // A canonical form is a key of exactly the nodes that have it.
  lemma CanonicalKeys(m: Model, infos: seq<string>, text: string, j: nat)
    requires IsBuilt(m, infos) && PlainUris(m.uris) && j < |m.nodes|
    requires CanonicalOf(m, text).Some?
    ensures var c := CanonicalOf(m, text);
      c.value in ExpandedKeys(m, m.nodes[j]) <==> CanonicalOf(m, m.nodes[j].uaNodeId) == c
  {
    hide Canonical, Expanded, UrisOf;
    var n := m.nodes[j];
    var c := CanonicalOf(m, text).value;
    PlainUrisReadBack(m.lib, m.uris, text);
    CanonicalOfExpanded(m.lib, infos, n.uaNodeId);
    ExpandedIsNotEmpty(infos, n.uaNodeId);
    assert CanonicalOf(m, n.expandedNodeId) == CanonicalOf(m, n.uaNodeId);
    assert CanonicalOf(m, c) == Some(c);
  }

  lemma CanonicalIsNotBlank(m: Model, text: string)
    requires CanonicalOf(m, text).Some?
    ensures Strip(m.lib.isSpace, text) != ""
  {
    hide Strip;
    assert Strip(m.lib.isSpace, text) == "" ==> Read(Strip(m.lib.isSpace, text)) == None;
  }

  // A NodeId text leads to the first element with its canonical form.
  lemma NodeIdLeadsToFirst(m: Model, infos: seq<string>, identity: Identity, text: string, j: nat)
    requires IsBuilt(m, infos) && PlainUris(m.uris) && IsIdentity(m, identity)
    requires IsFirstCanonical(m, j) && CanonicalOf(m, text) == CanonicalOf(m, m.nodes[j].uaNodeId)
    ensures ElementIdOf(m, identity, text) == Resolved(m.nodes[j].id)
  {
    hide Canonical, Expanded, UrisOf, RawKeys, ExpandedKeys, Strip;
    var c := CanonicalOf(m, text).value;
    var keys := n => ExpandedKeys(m, n);
    forall k: nat | k < |m.nodes| ensures c in keys(m.nodes[k]) <==> CanonicalOf(m, m.nodes[k].uaNodeId) == Some(c) {
      CanonicalKeys(m, infos, text, k);
    }
    assert IsFirst(m, keys, j, c);
    CanonicalIsNotBlank(m, text);
    FindsTheNode(m.nodes, j);
  }

  // Element ID to NodeId to element ID is the identity exactly for the nodes whose canonical form is defined
  // and not met before.
  lemma IdentityRoundTrips(m: Model, infos: seq<string>, identity: Identity, i: nat)
    requires IsBuilt(m, infos) && PlainUris(m.uris) && IsIdentity(m, identity) && i < |m.nodes|
    requires Strip(m.lib.isSpace, m.nodes[i].id) != ""
    ensures NodeIdOf(m, m.nodes[i].id) == Resolved(m.nodes[i].uaNodeId)
    ensures ElementIdOf(m, identity, m.nodes[i].uaNodeId) == Resolved(m.nodes[i].id) <==> IsFirstCanonical(m, i)
  {
    hide Canonical, Expanded, UrisOf, IsIdentity, Strip;
    FindsTheNode(m.nodes, i);
    if CanonicalOf(m, m.nodes[i].uaNodeId).Some? {
      var j := FirstWith(m, i, i);
      NodeIdLeadsToFirst(m, infos, identity, m.nodes[i].uaNodeId, j);
    }
  }

  lemma {:induction false} FirstWith(m: Model, i: nat, k: nat) returns (j: nat)
    requires i < |m.nodes| && k <= i && CanonicalOf(m, m.nodes[i].uaNodeId).Some?
    requires CanonicalOf(m, m.nodes[k].uaNodeId) == CanonicalOf(m, m.nodes[i].uaNodeId)
    ensures j <= k && IsFirstCanonical(m, j)
      && CanonicalOf(m, m.nodes[j].uaNodeId) == CanonicalOf(m, m.nodes[i].uaNodeId)
    decreases k
  {
    hide Canonical;
    if l: nat :| l < k && CanonicalOf(m, m.nodes[l].uaNodeId) == CanonicalOf(m, m.nodes[k].uaNodeId) {
      j := FirstWith(m, i, l);
    } else {
      j := k;
    }
  }

  // With defined and distinct canonical forms every element comes back.
  lemma DistinctNodesRoundTrip(m: Model, infos: seq<string>, identity: Identity)
    requires IsBuilt(m, infos) && PlainUris(m.uris) && IsIdentity(m, identity)
    requires forall i :: 0 <= i < |m.nodes| ==> CanonicalOf(m, m.nodes[i].uaNodeId).Some?
    requires forall i, j :: 0 <= i < j < |m.nodes| ==>
      CanonicalOf(m, m.nodes[i].uaNodeId) != CanonicalOf(m, m.nodes[j].uaNodeId)
    ensures forall i: nat :: i < |m.nodes| ==> ElementIdOf(m, identity, m.nodes[i].uaNodeId) == Resolved(m.nodes[i].id)
  {
    hide Canonical, Expanded, UrisOf, IsIdentity, ElementIdOf;
    forall i: nat | i < |m.nodes| ensures ElementIdOf(m, identity, m.nodes[i].uaNodeId) == Resolved(m.nodes[i].id) {
      NodeIdLeadsToFirst(m, infos, identity, m.nodes[i].uaNodeId, i);
    }
  }

  // ----- Identity by what the NodeIds say -----

  // The text says a node with a valid identifier.
  ghost predicate Denotes(m: Model, text: string, s: Sense) {
    Means(m.lib, m.uris, text, s) && IsValid(m.lib, s)
  }

  ghost predicate IsNodeOf(m: Model, i: int, s: Sense) {
    0 <= i < |m.nodes| && exists t :: Denotes(m, m.nodes[i].uaNodeId, t) && SameNode(m.lib, s, t)
  }

  ghost predicate IsFirstNodeOf(m: Model, i: int, s: Sense) {
    IsNodeOf(m, i, s) && forall j :: 0 <= j < i ==> !IsNodeOf(m, j, s)
  }

  lemma SameCanonicalAsNode(m: Model, text: string, s: Sense, i: nat)
    requires IsLib(m.lib) && PlainUris(m.uris) && Denotes(m, text, s) && i < |m.nodes|
    ensures CanonicalOf(m, text).Some?
    ensures CanonicalOf(m, text) == CanonicalOf(m, m.nodes[i].uaNodeId) <==> IsNodeOf(m, i, s)
  {
    hide Canonical, Means, IsValid, SameNode;
    CanonicalOfSense(m.lib, m.uris, text, s);
    var other := m.nodes[i].uaNodeId;
    CanonicalIsDefinedIff(m.lib, m.uris, other);
    if t :| Means(m.lib, m.uris, other, t) && IsValid(m.lib, t) {
      SameCanonicalIff(m.lib, m.uris, text, other, s, t);
      forall u | Denotes(m, other, u) ensures u == t { OneSense(m.lib, m.uris, other, u, t); }
    }
  }

  lemma FirstNodeIsFirstCanonical(m: Model, text: string, s: Sense, i: int)
    requires IsLib(m.lib) && PlainUris(m.uris) && Denotes(m, text, s)
    ensures IsFirstNodeOf(m, i, s) <==>
      0 <= i < |m.nodes| && CanonicalOf(m, text) == CanonicalOf(m, m.nodes[i].uaNodeId) && IsFirstCanonical(m, i)
  {
    hide Canonical, IsNodeOf, Denotes;
    forall j: nat | j < |m.nodes|
      ensures CanonicalOf(m, text) == CanonicalOf(m, m.nodes[j].uaNodeId) <==> IsNodeOf(m, j, s)
      ensures CanonicalOf(m, text).Some?
    {
      SameCanonicalAsNode(m, text, s, j);
    }
    NodesAreListed(m);
  }

  lemma NodesAreListed(m: Model)
    ensures forall s, i :: IsNodeOf(m, i, s) ==> 0 <= i < |m.nodes|
  {
  }

  // A stripped text has the canonical form of the text.
  lemma CanonicalOfStripped(m: Model, text: string)
    requires Strip(m.lib.isSpace, text) != ""
    ensures CanonicalOf(m, Strip(m.lib.isSpace, text)) == CanonicalOf(m, text)
  {
    hide Strip, Read;
    StrippedIsCore(m.lib, text);
    var core := Strip(m.lib.isSpace, text);
    assert "" + (core + "") == core && AllSpace(m.lib, "");
    CoreIsStripped(m.lib, core, core);
  }

  // A NodeId text that no node shares is missing, also among the NodeIds as they were browsed.
  lemma NoNodeIsMissing(m: Model, infos: seq<string>, identity: Identity, text: string)
    requires IsBuilt(m, infos) && PlainUris(m.uris) && IsIdentity(m, identity) && CanonicalOf(m, text).Some?
    requires forall i :: 0 <= i < |m.nodes| ==> CanonicalOf(m, m.nodes[i].uaNodeId) != CanonicalOf(m, text)
    ensures ElementIdOf(m, identity, text) == Missing
  {
    hide Canonical, Expanded, UrisOf, ExpandedKeys, Strip;
    CanonicalIsNotBlank(m, text);
    CanonicalOfStripped(m, text);
    var c, stripped := CanonicalOf(m, text).value, Strip(m.lib.isSpace, text);
    var raw, expanded := (n: Node) => RawKeys(m, n), (n: Node) => ExpandedKeys(m, n);
    forall i: nat | i < |m.nodes| ensures c !in expanded(m.nodes[i]) && stripped !in raw(m.nodes[i]) {
      CanonicalKeys(m, infos, text, i);
      if CanonicalOf(m, m.nodes[i].uaNodeId).Some? {
        PlainUrisReadBack(m.lib, m.uris, m.nodes[i].uaNodeId);
      }
    }
    assert FiledUpTo(m, raw, identity.byNodeId, |m.nodes|) && FiledUpTo(m, expanded, identity.byExpanded, |m.nodes|);
  }

  // What a NodeId text is answered with: white space is blank, what says no valid node has a bad format, and a node
  // leads to the first element that is the same node, if there is one.
  lemma AnyTextResolves(m: Model, infos: seq<string>, identity: Identity, text: string)
    requires IsBuilt(m, infos) && PlainUris(m.uris) && IsIdentity(m, identity)
    ensures AllSpace(m.lib, text) ==> ElementIdOf(m, identity, text) == Blank
    ensures !AllSpace(m.lib, text) && (forall s :: !Denotes(m, text, s)) ==>
      ElementIdOf(m, identity, text) == BadFormat
    ensures forall s, i :: Denotes(m, text, s) && IsFirstNodeOf(m, i, s) ==>
      ElementIdOf(m, identity, text) == Resolved(m.nodes[i].id)
    ensures forall s :: Denotes(m, text, s) && (forall i :: !IsNodeOf(m, i, s)) ==>
      ElementIdOf(m, identity, text) == Missing
  {
    hide Canonical, Means, IsValid, Strip, IsIdentity, UrisOf, IsNodeOf;
    BlankIsSpace(m.lib, text);
    CanonicalIsDefinedIff(m.lib, m.uris, text);
    NodesAreListed(m);
    if CanonicalOf(m, text).Some? {
      var s :| Means(m.lib, m.uris, text, s) && IsValid(m.lib, s);
      assert Denotes(m, text, s);
    }
    forall s, i | Denotes(m, text, s) && IsFirstNodeOf(m, i, s)
      ensures ElementIdOf(m, identity, text) == Resolved(m.nodes[i].id)
    {
      FirstNodeIsFirstCanonical(m, text, s, i);
      NodeIdLeadsToFirst(m, infos, identity, text, i);
    }
    forall s | Denotes(m, text, s) && forall i :: !IsNodeOf(m, i, s)
      ensures ElementIdOf(m, identity, text) == Missing
    {
      CanonicalOfSense(m.lib, m.uris, text, s);
      forall i: nat | i < |m.nodes| ensures CanonicalOf(m, m.nodes[i].uaNodeId) != CanonicalOf(m, text) {
        SameCanonicalAsNode(m, text, s, i);
      }
      NoNodeIsMissing(m, infos, identity, text);
    }
  }

  // An element comes back from its NodeId exactly if that says a valid node which no earlier element is.
  lemma ElementComesBackIff(m: Model, infos: seq<string>, identity: Identity, i: nat)
    requires IsBuilt(m, infos) && PlainUris(m.uris) && IsIdentity(m, identity) && i < |m.nodes|
    ensures ElementIdOf(m, identity, m.nodes[i].uaNodeId) == Resolved(m.nodes[i].id) <==>
      exists s :: Denotes(m, m.nodes[i].uaNodeId, s) && IsFirstNodeOf(m, i, s)
  {
    hide Canonical, Means, IsValid, Strip, IsIdentity, UrisOf, IsNodeOf, ElementIdOf;
    var text := m.nodes[i].uaNodeId;
    AnyTextResolves(m, infos, identity, text);
    CanonicalIsDefinedIff(m.lib, m.uris, text);
    if ElementIdOf(m, identity, text) == Resolved(m.nodes[i].id) {
      ResolvedIsDefined(m, identity, text);
      var s :| Means(m.lib, m.uris, text, s) && IsValid(m.lib, s);
      assert Denotes(m, text, s);
      var j := FirstWith(m, i, i);
      FirstNodeIsFirstCanonical(m, text, s, j);
      assert m.nodes[j].id == m.nodes[i].id;
    }
  }

  lemma ResolvedIsDefined(m: Model, identity: Identity, text: string)
    requires ElementIdOf(m, identity, text).Resolved?
    ensures CanonicalOf(m, text).Some?
  {
  }

  // With NodeIds that say different valid nodes every element comes back.
  lemma DifferentNodesRoundTrip(m: Model, infos: seq<string>, identity: Identity)
    requires IsBuilt(m, infos) && PlainUris(m.uris) && IsIdentity(m, identity)
    requires forall i :: 0 <= i < |m.nodes| ==> exists s :: Denotes(m, m.nodes[i].uaNodeId, s)
    requires forall i, j, s, t ::
      0 <= i < j < |m.nodes| && Denotes(m, m.nodes[i].uaNodeId, s) && Denotes(m, m.nodes[j].uaNodeId, t) ==>
        !SameNode(m.lib, s, t)
    ensures forall i: nat :: i < |m.nodes| ==> ElementIdOf(m, identity, m.nodes[i].uaNodeId) == Resolved(m.nodes[i].id)
  {
    hide Canonical, Denotes, IsIdentity, UrisOf, ElementIdOf, SameNode;
    forall i: nat | i < |m.nodes| ensures ElementIdOf(m, identity, m.nodes[i].uaNodeId) == Resolved(m.nodes[i].id) {
      var s :| Denotes(m, m.nodes[i].uaNodeId, s);
      SameAsItself(m, m.nodes[i].uaNodeId, s);
      SameBothWays(m);
      ElementComesBackIff(m, infos, identity, i);
    }
  }

  lemma SameAsItself(m: Model, text: string, s: Sense)
    requires Denotes(m, text, s)
    ensures SameNode(m.lib, s, s)
  {
    hide Means;
  }

  lemma SameBothWays(m: Model)
    ensures forall s, t :: SameNode(m.lib, s, t) <==> SameNode(m.lib, t, s)
  {
  }

  // An element ID that no node has leads nowhere.
  lemma {:induction false} UnknownElementIsMissing(m: Model, id: ElementId)
    requires !AllSpace(m.lib, id) && forall i :: 0 <= i < |m.nodes| ==> m.nodes[i].id != id
    ensures NodeIdOf(m, id) == Missing
  {
    BlankIsSpace(m.lib, id);
    NotFound(m.nodes, id);
  }

  lemma {:induction false} NotFound(nodes: seq<Node>, id: ElementId)
    requires forall i :: 0 <= i < |nodes| ==> nodes[i].id != id
    ensures FindNode(nodes, id) == None
  {
    if nodes != [] {
      NotFound(nodes[1..], id);
    }
  }

  // ----- The tools, item by item -----

  method ResolveElementIdsToNodeIds(m: Model, ids: seq<ElementId>) returns (success: bool, items: seq<Answer<string>>)
    ensures |items| == |ids| && forall i :: 0 <= i < |ids| ==> items[i] == NodeIdOf(m, ids[i])
    ensures success <==> forall i :: 0 <= i < |items| ==> items[i].Resolved?
  {
    items, success := [], true;
    for i := 0 to |ids|
      invariant |items| == i && forall k :: 0 <= k < i ==> items[k] == NodeIdOf(m, ids[k])
      invariant success <==> forall k :: 0 <= k < i ==> items[k].Resolved?
    {
      var item := NodeIdOf(m, ids[i]);
      items := items + [item];
      success := success && item.Resolved?;
    }
  }

  method ResolveNodeIdsToElementIds(m: Model, identity: Identity, nodeIds: seq<string>)
    returns (success: bool, items: seq<Answer<ElementId>>)
    ensures |items| == |nodeIds| && forall i :: 0 <= i < |nodeIds| ==> items[i] == ElementIdOf(m, identity, nodeIds[i])
    ensures success <==> forall i :: 0 <= i < |items| ==> items[i].Resolved?
  {
    items, success := [], true;
    for i := 0 to |nodeIds|
      invariant |items| == i && forall k :: 0 <= k < i ==> items[k] == ElementIdOf(m, identity, nodeIds[k])
      invariant success <==> forall k :: 0 <= k < i ==> items[k].Resolved?
    {
      var item := ElementIdOf(m, identity, nodeIds[i]);
      items := items + [item];
      success := success && item.Resolved?;
    }
  }
}
