// _type_indexes: the instances of each object type, directly and through its subtypes.
module TypeIndex {
  import opened Options
  import opened ParentChains

  datatype TypeInfo = TypeInfo(nodeId: string, parentNodeId: Option<string>)
  datatype Node = Node(isInstance: bool, sourceTypeId: Option<string>, typeName: Option<string>)

  // How a type is named: the aliases of a context, and its two further spellings of a name.
  datatype Naming = Naming(aliases: map<string, Id>, lower: string -> string, expand: string -> string)

  // a or b
  function Or(a: Option<Id>, b: Option<Id>): Option<Id> {
    if a.Some? && a.value != "" then a else b
  }

  function Alias(n: Naming, source: string): Option<Id> {
    if source in n.aliases then Some(n.aliases[source]) else None
  }

  function TypeId(n: Naming, source: string): Option<Id> {
    var resolved := Or(Alias(n, source), Alias(n, n.lower(source)));
    if resolved.Some? then resolved else Or(Alias(n, n.expand(source)), Alias(n, n.lower(n.expand(source))))
  }

  // ----- Parents -----

  // The child and parent an entry of the context links, if both resolve.
  function Link(n: Naming, info: TypeInfo): Option<(Id, Id)> {
    var child := TypeId(n, info.nodeId);
    var named := info.parentNodeId.Some? && info.parentNodeId.value != "";
    var parent := if named then TypeId(n, info.parentNodeId.value) else None;
    if child.Some? && parent.Some? then Some((child.value, parent.value)) else None
  }

  predicate LinksChild(n: Naming, info: TypeInfo, c: Id) {
    Link(n, info).Some? && Link(n, info).value.0 == c
  }

  ghost predicate IsLastLink(n: Naming, infos: seq<TypeInfo>, i: int, c: Id) {
    0 <= i < |infos| && LinksChild(n, infos[i], c) && forall k :: i < k < |infos| ==> !LinksChild(n, infos[k], c)
  }

  // The last entry that links a child decides.
  ghost predicate Links(n: Naming, infos: seq<TypeInfo>, parents: map<Id, Id>) {
    && (forall c :: c in parents ==> exists i :: IsLastLink(n, infos, i, c))
    && (forall i, c :: IsLastLink(n, infos, i, c) ==> c in parents && parents[c] == Link(n, infos[i]).value.1)
  }

  lemma LinkAdded(n: Naming, infos: seq<TypeInfo>, info: TypeInfo, parents: map<Id, Id>)
    requires Links(n, infos, parents)
    ensures Links(n, infos + [info], match Link(n, info) { case None => parents case Some(l) => parents[l.0 := l.1] })
  {
    hide Link;
    var after := match Link(n, info) { case None => parents case Some(l) => parents[l.0 := l.1] };
    var all := infos + [info];
    forall c | c in after ensures exists i :: IsLastLink(n, all, i, c) {
      if LinksChild(n, info, c) {
        assert IsLastLink(n, all, |infos|, c);
      } else {
        var i :| IsLastLink(n, infos, i, c);
        assert IsLastLink(n, all, i, c);
      }
    }
    forall i, c | IsLastLink(n, all, i, c) ensures c in after && after[c] == Link(n, all[i]).value.1 {
      assert all[|infos|] == info;
      if i < |infos| {
        forall k | i < k < |infos| ensures !LinksChild(n, infos[k], c) { assert all[k] == infos[k]; }
        assert IsLastLink(n, infos, i, c);
      }
    }
  }

  method LinkTypes(n: Naming, infos: seq<TypeInfo>) returns (parents: map<Id, Id>)
    ensures Links(n, infos, parents)
  {
    parents := map[];
    assert infos[..0] == [];
    for i := 0 to |infos|
      invariant Links(n, infos[..i], parents)
    {
      hide Links, Link;
      LinkAdded(n, infos[..i], infos[i], parents);
      assert infos[..i + 1] == infos[..i] + [infos[i]];
      var link := Link(n, infos[i]);
      if link.Some? {
        parents := parents[link.value.0 := link.value.1];
      }
    }
    assert infos[..|infos|] == infos;
  }

  // ----- Direct instances -----

  function NodeType(n: Naming, node: Node): Option<Id> {
    Or(TypeId(n, if node.sourceTypeId.Some? then node.sourceTypeId.value else ""),
       TypeId(n, if node.typeName.Some? then node.typeName.value else ""))
  }

  // The node's own type: the one its type NodeId names, or else the one its type name does.
  ghost predicate IsOfType(n: Naming, node: Node, t: Id) {
    var bySource := TypeId(n, if node.sourceTypeId.Some? then node.sourceTypeId.value else "");
    if bySource.Some? && bySource.value != "" then bySource.value == t
    else TypeId(n, if node.typeName.Some? then node.typeName.value else "") == Some(t)
  }

  lemma NodeTypeIs(n: Naming, node: Node, t: Id)
    ensures NodeType(n, node) == Some(t) <==> IsOfType(n, node, t)
  {
    hide TypeId;
  }

  // e is an asset or event source that the instance table or the node itself files under t.
  ghost predicate IsDirect(n: Naming, nodes: map<Id, Node>, byType: map<string, seq<Id>>, t: Id, e: Id) {
    && e in nodes && nodes[e].isInstance
    && ((exists s :: s in byType && TypeId(n, s) == Some(t) && e in byType[s]) || IsOfType(n, nodes[e], t))
  }

  // The part of it that the entries of some sources account for.
  ghost predicate IsTabled(n: Naming, nodes: map<Id, Node>, byType: map<string, seq<Id>>, sources: set<string>, t: Id,
                           e: Id) {
    && e in nodes && nodes[e].isInstance
    && exists s :: s in sources && s in byType && TypeId(n, s) == Some(t) && e in byType[s]
  }

  lemma TabledMore(n: Naming, nodes: map<Id, Node>, byType: map<string, seq<Id>>, sources: set<string>, source: string,
                   t: Id, e: Id)
    requires source in byType
    ensures IsTabled(n, nodes, byType, sources + {source}, t, e) <==>
      IsTabled(n, nodes, byType, sources, t, e)
        || (TypeId(n, source) == Some(t) && e in byType[source] && e in nodes && nodes[e].isInstance)
  {
    hide TypeId;
  }

  method TabledInstances(n: Naming, listed: set<Id>, nodes: map<Id, Node>, byType: map<string, seq<Id>>)
    returns (direct: map<Id, set<Id>>)
    ensures direct.Keys == listed
    ensures forall t, e :: t in direct ==> (e in direct[t] <==> IsTabled(n, nodes, byType, byType.Keys, t, e))
  {
    hide TypeId, IsTabled;
    direct := map t | t in listed :: {};
    NothingTabled(n, nodes, byType);
    var sources := byType.Keys;
    assert byType.Keys - sources == {};
    while sources != {}
      invariant sources <= byType.Keys && direct.Keys == listed
      invariant forall t, e :: t in direct ==>
        (e in direct[t] <==> IsTabled(n, nodes, byType, byType.Keys - sources, t, e))
      decreases sources
    {
      var source :| source in sources;
      ghost var finished := byType.Keys - sources;
      sources := sources - {source};
      assert byType.Keys - sources == finished + {source};
      var resolved := TypeId(n, source);
      forall t, e { TabledMore(n, nodes, byType, finished, source, t, e); }
      if resolved.Some? && resolved.value in direct {
        var found := set e | e in byType[source] && e in nodes && nodes[e].isInstance;
        direct := direct[resolved.value := direct[resolved.value] + found];
      }
    }
    assert byType.Keys - sources == byType.Keys;
  }

  lemma NothingTabled(n: Naming, nodes: map<Id, Node>, byType: map<string, seq<Id>>)
    ensures forall t, e :: !IsTabled(n, nodes, byType, {}, t, e)
  {
  }

  method DirectInstances(n: Naming, listed: set<Id>, nodes: map<Id, Node>, byType: map<string, seq<Id>>)
    returns (direct: map<Id, set<Id>>)
    ensures direct.Keys == listed
    ensures forall t, e :: t in direct ==> (e in direct[t] <==> IsDirect(n, nodes, byType, t, e))
  {
    hide TypeId, NodeType, IsOfType;
    forall node, t { NodeTypeIs(n, node, t); }
    direct := TabledInstances(n, listed, nodes, byType);
    ghost var tabled := direct;
    var rest := nodes.Keys;
    while rest != {}
      invariant rest <= nodes.Keys && direct.Keys == listed
      invariant forall t, e :: t in direct ==> (e in direct[t] <==>
        e in tabled[t] || (e in nodes && e !in rest && nodes[e].isInstance && NodeType(n, nodes[e]) == Some(t)))
      decreases rest
    {
      var id :| id in rest;
      rest := rest - {id};
      if nodes[id].isInstance {
        var resolved := NodeType(n, nodes[id]);
        if resolved.Some? && resolved.value in direct {
          direct := direct[resolved.value := direct[resolved.value] + {id}];
        }
      }
    }
  }

  // ----- Instances through subtypes -----

  // The parents of every type that can be met, those without one included.
  function AllParents(listed: set<Id>, parents: map<Id, Id>): Parents {
    map t | t in listed + parents.Keys + parents.Values :: if t in parents then Some(parents[t]) else None
  }

  // a is t or is met on the way up from t.
  ghost predicate Reaches(parents: Parents, t: Id, a: Id) {
    a in parents && exists up :: Climbed(parents, up, t, Some(a))
  }

  lemma {:induction false} ClimbsAgree(parents: Parents, up: seq<Id>, t: Id, a: Id, all: seq<Id>)
    requires Climbed(parents, up, t, Some(a)) && Climbed(parents, all, t, None)
    ensures |up| < |all| && all[|up|] == a
    decreases |up|
  {
    if up != [] {
      var k := |up| - 1;
      assert Climbed(parents, up[..k], t, Some(up[k]));
      ClimbsAgree(parents, up[..k], t, up[k], all);
    }
  }

  lemma CompleteClimb(parents: Parents, all: seq<Id>, t: Id, a: Id)
    requires Climbed(parents, all, t, None)
    ensures Reaches(parents, t, a) <==> a in all
  {
    if Reaches(parents, t, a) {
      var up :| Climbed(parents, up, t, Some(a));
      ClimbsAgree(parents, up, t, a, all);
    }
    if a in all {
      var k :| 0 <= k < |all| && all[k] == a;
      assert Climbed(parents, all[..k], t, Some(a));
    }
  }

  lemma CompleteClimbEnds(parents: Parents, all: seq<Id>, t: Id)
    requires Climbed(parents, all, t, None)
    ensures Rooted(parents, t)
  {
    ClimbIsRooted(parents, all, t, None);
  }

  type Instances = map<Id, set<Id>>

  function At(instances: Instances, t: Id): set<Id> {
    if t in instances then instances[t] else {}
  }

  // expanded.setdefault(parent, set()).update(instance_ids)
  function Updated(instances: Instances, t: Id, found: set<Id>): Instances {
    instances[t := At(instances, t) + found]
  }

  // e is a direct instance of t itself or of a finished type that reaches t.
  ghost predicate Counted(parents: Parents, direct: Instances, finished: set<Id>, t: Id, e: Id) {
    (t in direct && e in direct[t])
      || exists s :: s in finished && s in direct && Reaches(parents, s, t) && e in direct[s]
  }

  ghost predicate Expanded(parents: Parents, direct: Instances, finished: set<Id>, expanded: Instances) {
    && (forall t :: t in expanded <==>
      t in direct || exists s :: s in finished && s in direct && Reaches(parents, s, t))
    && (forall t, e :: t in expanded ==> (e in expanded[t] <==> Counted(parents, direct, finished, t, e)))
  }

  // What one climb adds to the table.
  ghost predicate Spread(before: Instances, after: Instances, above: set<Id>, found: set<Id>) {
    && after.Keys == before.Keys + above
    && forall t :: t in after ==> after[t] == if t in above then At(before, t) + found else before[t]
  }

  lemma SpreadMore(before: Instances, after: Instances, above: set<Id>, found: set<Id>, t: Id)
    requires Spread(before, after, above, found) && t !in above
    ensures Spread(before, Updated(after, t, found), above + {t}, found)
  {
  }

  lemma ClimbCounts(parents: Parents, direct: Instances, finished: set<Id>, before: Instances, after: Instances,
                    all: seq<Id>, s: Id)
    requires Expanded(parents, direct, finished, before) && s in direct
    requires Climbed(parents, all, s, None) && Spread(before, after, (set t | t in all) - {s}, direct[s])
    ensures Expanded(parents, direct, finished + {s}, after)
  {
    hide Reaches;
    forall t ensures Reaches(parents, s, t) <==> t in all { CompleteClimb(parents, all, s, t); }
    forall t
      ensures t in after <==> t in direct || exists r :: r in finished + {s} && r in direct && Reaches(parents, r, t)
    {
      assert t in before <==> t in direct || exists r :: r in finished && r in direct && Reaches(parents, r, t);
    }
    forall t, e | t in after ensures e in after[t] <==> Counted(parents, direct, finished + {s}, t, e) {
      assert e in At(before, t) <==> Counted(parents, direct, finished, t, e);
      assert e in after[t] <==> e in At(before, t) || (t in all && e in direct[s]);
    }
  }

  lemma NothingExpanded(parents: Parents, direct: Instances)
    ensures Expanded(parents, direct, {}, direct)
  {
  }

  // None stands for the 500 response on a cycle.
  method ExpandSubtypes(direct: Instances, parents: map<Id, Id>) returns (r: Option<Instances>)
    ensures var all := AllParents(direct.Keys, parents);
      (r.None? <==> exists t :: t in direct && !Rooted(all, t))
      && (r.Some? ==> Expanded(all, direct, direct.Keys, r.value))
  {
    hide Expanded, Spread, Rooted, Climbed, Updated;
    ghost var all := AllParents(direct.Keys, parents);
    var expanded := direct;
    NothingExpanded(all, direct);
    var rest := direct.Keys;
    assert direct.Keys - rest == {};
    while rest != {}
      invariant rest <= direct.Keys && Expanded(all, direct, direct.Keys - rest, expanded)
      invariant forall t :: t in direct && t !in rest ==> Rooted(all, t)
      decreases rest
    {
      var t :| t in rest;
      ghost var finished := direct.Keys - rest;
      rest := rest - {t};
      ghost var before := expanded;
      var visited := {t};
      var parent := if t in parents then Some(parents[t]) else None;
      ghost var up := [t];
      ClimbStarts(all, t);
      ClimbOne(all, [], t, t);
      assert [] + [t] == [t];
      NothingSpread(before, direct[t]);
      assert visited - {t} == {};
      while parent.Some?
        invariant Climbed(all, up, t, parent) && up != [] && up[0] == t
        invariant visited == (set x | x in up) && visited <= all.Keys
        invariant parent.Some? ==> parent.value in all
        invariant Spread(before, expanded, visited - {t}, direct[t])
        decreases all.Keys - visited
      {
        var p := parent.value;
        ClimbGoesOn(all, up, t, p);
        if p in visited {
          return None;
        }
        SpreadMore(before, expanded, visited - {t}, direct[t], p);
        assert visited - {t} + {p} == visited + {p} - {t};
        ClimbOne(all, up, t, p);
        visited := visited + {p};
        expanded := Updated(expanded, p, direct[t]);
        up := up + [p];
        parent := if p in parents then Some(parents[p]) else None;
      }
      CompleteClimbEnds(all, up, t);
      ClimbCounts(all, direct, finished, before, expanded, up, t);
      assert finished + {t} == direct.Keys - rest;
    }
    assert direct.Keys - rest == direct.Keys;
    r := Some(expanded);
  }

  lemma NothingSpread(before: Instances, found: set<Id>)
    ensures Spread(before, before, {}, found)
  {
  }

  // The index is the transitive definition: the instances of t are those of every listed type that reaches t.
  lemma IndexIsTransitive(parents: Parents, direct: Instances, expanded: Instances, t: Id, e: Id)
    requires Expanded(parents, direct, direct.Keys, expanded) && t in expanded && direct.Keys <= parents.Keys
    ensures e in expanded[t] <==> exists s :: s in direct && Reaches(parents, s, t) && e in direct[s]
  {
    if t in direct {
      ClimbStarts(parents, t);
      assert Reaches(parents, t, t);
    }
    assert e in expanded[t] <==> Counted(parents, direct, direct.Keys, t, e);
  }

  // The index fails exactly when some listed type's parent chain enters a cycle.
  lemma IndexFailsOnCycle(direct: Instances, parents: map<Id, Id>)
    ensures var all := AllParents(direct.Keys, parents);
      (exists t :: t in direct && !Rooted(all, t)) <==> exists t :: t in direct && EntersCycle(all, t)
  {
    hide Rooted, EntersCycle;
    var all := AllParents(direct.Keys, parents);
    forall t | t in direct ensures Rooted(all, t) <==> !EntersCycle(all, t) {
      RootedUnlessCycle(all, t);
    }
  }

  // ----- The whole index, in terms of the context and the nodes -----

  // The entry is about the type c and names p as its parent.
  ghost predicate NamesParent(n: Naming, info: TypeInfo, c: Id, p: Id) {
    && TypeId(n, info.nodeId) == Some(c)
    && info.parentNodeId.Some? && info.parentNodeId.value != "" && TypeId(n, info.parentNodeId.value) == Some(p)
  }

  // p is the parent of c: the last entry of the context that names one for c names p.
  ghost predicate IsParent(n: Naming, infos: seq<TypeInfo>, c: Id, p: Id) {
    exists i :: 0 <= i < |infos| && NamesParent(n, infos[i], c, p)
                && forall k, q :: i < k < |infos| ==> !NamesParent(n, infos[k], c, q)
  }

  // A path of types from a type upwards.
  ghost predicate IsPath(n: Naming, infos: seq<TypeInfo>, path: seq<Id>, s: Id) {
    path != [] && path[0] == s && forall i :: 0 < i < |path| ==> IsParent(n, infos, path[i - 1], path[i])
  }

  // s is t or one of its subtypes.
  ghost predicate IsSubtype(n: Naming, infos: seq<TypeInfo>, s: Id, t: Id) {
    exists path :: IsPath(n, infos, path, s) && path[|path| - 1] == t
  }

  // Some path upwards from s meets a type twice.
  ghost predicate IsCyclic(n: Naming, infos: seq<TypeInfo>, s: Id) {
    exists path, i, j :: IsPath(n, infos, path, s) && 0 <= i < j < |path| && path[i] == path[j]
  }

  lemma ParentIsLinked(n: Naming, infos: seq<TypeInfo>, parents: map<Id, Id>, c: Id, p: Id)
    requires Links(n, infos, parents)
    ensures IsParent(n, infos, c, p) <==> c in parents && parents[c] == p
  {
    hide TypeId, NamesParent, Link;
    forall i, q | 0 <= i < |infos|
      ensures NamesParent(n, infos[i], c, q) <==>
        LinksChild(n, infos[i], c) && Link(n, infos[i]).value.1 == q
    {
      NamesIsLink(n, infos[i], c, q);
    }
    forall i | 0 <= i < |infos| && LinksChild(n, infos[i], c) ensures exists q :: NamesParent(n, infos[i], c, q) {
      NamesIsLink(n, infos[i], c, Link(n, infos[i]).value.1);
    }
    if IsParent(n, infos, c, p) {
      var i :| 0 <= i < |infos| && NamesParent(n, infos[i], c, p)
               && forall k, q :: i < k < |infos| ==> !NamesParent(n, infos[k], c, q);
      assert IsLastLink(n, infos, i, c);
    }
    if c in parents && parents[c] == p {
      var i :| IsLastLink(n, infos, i, c);
      assert NamesParent(n, infos[i], c, p);
    }
  }

  lemma NamesIsLink(n: Naming, info: TypeInfo, c: Id, p: Id)
    ensures NamesParent(n, info, c, p) <==> LinksChild(n, info, c) && Link(n, info).value.1 == p
  {
    hide TypeId;
  }

  lemma PathIsClimb(n: Naming, infos: seq<TypeInfo>, listed: set<Id>, parents: map<Id, Id>, s: Id, path: seq<Id>)
    requires Links(n, infos, parents) && s in listed && path != []
    ensures IsPath(n, infos, path, s) <==>
            Climbed(AllParents(listed, parents), path[..|path| - 1], s, Some(path[|path| - 1]))
  {
    hide Links, IsParent;
    var all, up, t := AllParents(listed, parents), path[..|path| - 1], path[|path| - 1];
    forall i | 0 < i < |path|
      ensures IsParent(n, infos, path[i - 1], path[i]) <==> path[i - 1] in parents && parents[path[i - 1]] == path[i]
    {
      ParentIsLinked(n, infos, parents, path[i - 1], path[i]);
    }
    if Climbed(all, up, s, Some(t)) {
      forall i | 0 <= i < |up| ensures up[i] in parents && parents[up[i]] == path[i + 1] {
        var j := i + 1;
        assert j < |up| ==> all[up[j - 1]] == Some(up[j]);
      }
      forall i | 0 < i < |path| ensures IsParent(n, infos, path[i - 1], path[i]) {
        assert path[i - 1] == up[i - 1];
      }
    }
    if IsPath(n, infos, path, s) {
      forall i | 0 <= i < |up| ensures up[i] in all && all[up[i]] == Some(path[i + 1]) {
        var j := i + 1;
        assert IsParent(n, infos, path[j - 1], path[j]);
      }
    }
  }

  lemma SubtypeReaches(n: Naming, infos: seq<TypeInfo>, listed: set<Id>, parents: map<Id, Id>, s: Id, t: Id)
    requires Links(n, infos, parents) && s in listed
    ensures IsSubtype(n, infos, s, t) <==> Reaches(AllParents(listed, parents), s, t)
  {
    hide Links, IsParent, Climbed;
    var all := AllParents(listed, parents);
    if path :| IsPath(n, infos, path, s) && path[|path| - 1] == t {
      PathIsClimb(n, infos, listed, parents, s, path);
      ClimbEndsInside(listed, parents, path[..|path| - 1], s, t);
    }
    if Reaches(all, s, t) {
      var up :| Climbed(all, up, s, Some(t));
      assert (up + [t])[..|up + [t]| - 1] == up;
      PathIsClimb(n, infos, listed, parents, s, up + [t]);
    }
  }

  lemma ClimbEndsInside(listed: set<Id>, parents: map<Id, Id>, up: seq<Id>, s: Id, t: Id)
    requires s in listed && Climbed(AllParents(listed, parents), up, s, Some(t))
    ensures t in AllParents(listed, parents)
  {
  }

  lemma CyclicEnters(n: Naming, infos: seq<TypeInfo>, listed: set<Id>, parents: map<Id, Id>, s: Id)
    requires Links(n, infos, parents) && s in listed && IsCyclic(n, infos, s)
    ensures EntersCycle(AllParents(listed, parents), s)
  {
    hide Links, IsParent;
    var path, i, j :| IsPath(n, infos, path, s) && 0 <= i < j < |path| && path[i] == path[j];
    PathIsClimb(n, infos, listed, parents, s, path);
    ClimbParts(AllParents(listed, parents), path, i, j, s);
  }

  lemma ClimbParts(parents: Parents, path: seq<Id>, i: nat, j: nat, s: Id)
    requires i < j < |path| && Climbed(parents, path[..|path| - 1], s, Some(path[|path| - 1]))
    ensures Climbed(parents, path[..i], s, Some(path[i])) && Climbed(parents, path[i..j], path[i], Some(path[j]))
  {
    var up := path[..|path| - 1];
    forall k | 0 <= k < |up| ensures path[k] in parents && parents[path[k]] == Some(path[k + 1]) {
      var m := k + 1;
      assert up[k] in parents && (m < |up| ==> parents[up[m - 1]] == Some(up[m]));
    }
  }

  lemma ClimbsJoin(parents: Parents, up: seq<Id>, loop: seq<Id>, s: Id, a: Id)
    requires Climbed(parents, up, s, Some(a)) && loop != [] && Climbed(parents, loop, a, Some(a))
    ensures Climbed(parents, up + loop, s, Some(a))
  {
    forall k | 0 < k < |up + loop| ensures parents[(up + loop)[k - 1]] == Some((up + loop)[k]) {}
  }

  lemma CycleIsCyclic(n: Naming, infos: seq<TypeInfo>, listed: set<Id>, parents: map<Id, Id>, s: Id)
    requires Links(n, infos, parents) && s in listed && EntersCycle(AllParents(listed, parents), s)
    ensures IsCyclic(n, infos, s)
  {
    hide Links, IsPath, Climbed;
    var all := AllParents(listed, parents);
    var a, up, loop :| Climbed(all, up, s, Some(a)) && loop != [] && Climbed(all, loop, a, Some(a));
    var path := up + loop + [a];
    assert path[..|path| - 1] == up + loop;
    ClimbsJoin(all, up, loop, s, a);
    PathIsClimb(n, infos, listed, parents, s, path);
    LoopStarts(all, loop, a);
    assert path[|up|] == path[|path| - 1];
  }

  lemma LoopStarts(parents: Parents, loop: seq<Id>, a: Id)
    requires loop != [] && Climbed(parents, loop, a, Some(a))
    ensures loop[0] == a
  {
  }

  lemma CyclicIsUnrooted(n: Naming, infos: seq<TypeInfo>, listed: set<Id>, parents: map<Id, Id>, s: Id)
    requires Links(n, infos, parents) && s in listed
    ensures IsCyclic(n, infos, s) <==> !Rooted(AllParents(listed, parents), s)
  {
    hide Links, IsCyclic, Rooted, EntersCycle;
    RootedUnlessCycle(AllParents(listed, parents), s);
    if IsCyclic(n, infos, s) {
      CyclicEnters(n, infos, listed, parents, s);
    }
    if EntersCycle(AllParents(listed, parents), s) {
      CycleIsCyclic(n, infos, listed, parents, s);
    }
  }

  datatype Indexes = Indexes(direct: Instances, subtypes: Instances)

  // t is listed or above a listed type.
  ghost predicate IsIndexed(n: Naming, infos: seq<TypeInfo>, listed: set<Id>, t: Id) {
    exists s :: s in listed && IsSubtype(n, infos, s, t)
  }

  // e is an instance of t or of a listed subtype of t.
  ghost predicate IsInstance(n: Naming, infos: seq<TypeInfo>, listed: set<Id>, nodes: map<Id, Node>,
                             byType: map<string, seq<Id>>, t: Id, e: Id) {
    exists s :: s in listed && IsSubtype(n, infos, s, t) && IsDirect(n, nodes, byType, s, e)
  }

  // _type_indexes as a whole; None stands for the 500 response on a cycle.
  method TypeIndexes(n: Naming, infos: seq<TypeInfo>, listed: set<Id>, nodes: map<Id, Node>,
                     byType: map<string, seq<Id>>) returns (r: Option<Indexes>)
    ensures r.None? <==> exists s :: s in listed && IsCyclic(n, infos, s)
    ensures r.Some? ==>
      && r.value.direct.Keys == listed
      && (forall t, e :: t in listed ==> (e in r.value.direct[t] <==> IsDirect(n, nodes, byType, t, e)))
      && (forall t :: t in r.value.subtypes <==> IsIndexed(n, infos, listed, t))
      && (forall t, e :: t in r.value.subtypes ==>
            (e in r.value.subtypes[t] <==> IsInstance(n, infos, listed, nodes, byType, t, e)))
  {
    hide Links, IsCyclic, Rooted, Expanded, IsSubtype, Reaches, IsDirect;
    var parents := LinkTypes(n, infos);
    var direct := DirectInstances(n, listed, nodes, byType);
    var expanded := ExpandSubtypes(direct, parents);
    ghost var all := AllParents(listed, parents);
    forall s | s in listed ensures IsCyclic(n, infos, s) <==> !Rooted(all, s) {
      CyclicIsUnrooted(n, infos, listed, parents, s);
    }
    if expanded.None? {
      return None;
    }
    var subtypes := expanded.value;
    forall s, t | s in listed ensures IsSubtype(n, infos, s, t) <==> Reaches(all, s, t) {
      SubtypeReaches(n, infos, listed, parents, s, t);
    }
    forall t ensures t in subtypes <==> IsIndexed(n, infos, listed, t) {
      IndexedIffReached(all, direct, subtypes, t);
    }
    forall t, e | t in subtypes
      ensures e in subtypes[t] <==> IsInstance(n, infos, listed, nodes, byType, t, e)
    {
      IndexIsTransitive(all, direct, subtypes, t, e);
    }
    r := Some(Indexes(direct, subtypes));
  }

  lemma IndexedIffReached(parents: Parents, direct: Instances, expanded: Instances, t: Id)
    requires Expanded(parents, direct, direct.Keys, expanded) && direct.Keys <= parents.Keys
    ensures t in expanded <==> exists s :: s in direct && Reaches(parents, s, t)
  {
    if t in direct {
      ClimbStarts(parents, t);
      assert Reaches(parents, t, t);
    }
  }

  // ----- How a type is found -----

  // The spellings under which a type is looked up, in order: as it is, in lower case, expanded, expanded in lower case.
  ghost function Spellings(n: Naming, source: string): seq<string> {
    [source, n.lower(source), n.expand(source), n.lower(n.expand(source))]
  }

  ghost predicate IsFirstKnown(n: Naming, source: string, i: int) {
    && 0 <= i < 4 && Spellings(n, source)[i] in n.aliases
    && forall k :: 0 <= k < i ==> Spellings(n, source)[k] !in n.aliases
  }

  // Unless an alias stands for the empty ID, a type is known exactly if one of its spellings is an alias, and the first
  // one that is decides. An empty alias of the lower-case spelling hides the expanded ones.
  lemma TypeIsFirstKnownSpelling(n: Naming, source: string)
    ensures (forall alias :: alias in n.aliases ==> n.aliases[alias] != "") ==>
      && (TypeId(n, source).Some? <==> exists i :: IsFirstKnown(n, source, i))
      && forall i :: IsFirstKnown(n, source, i) ==> TypeId(n, source) == Some(n.aliases[Spellings(n, source)[i]])
    ensures IsFirstKnown(n, source, 1) && n.aliases[n.lower(source)] == "" ==> TypeId(n, source) == Some("")
  {
    var s := Spellings(n, source);
    assert IsFirstKnown(n, source, 1) ==> s[0] !in n.aliases;
    if TypeId(n, source).Some? && forall alias :: alias in n.aliases ==> n.aliases[alias] != "" {
      if s[0] in n.aliases {
        assert IsFirstKnown(n, source, 0);
      } else if s[1] in n.aliases {
        assert IsFirstKnown(n, source, 1);
      } else if s[2] in n.aliases {
        assert IsFirstKnown(n, source, 2);
      } else {
        assert IsFirstKnown(n, source, 3);
      }
    }
  }
}
