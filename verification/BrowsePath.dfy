// getBrowsePath and resolveBrowsePath: the segments of an element and the trie that finds it again.
module BrowsePath {
  import opened Options
  import opened ParentChains
  import opened Texts

  datatype Node = Node(name: string, parentId: Option<Id>)
  datatype Model = Model(nodes: map<Id, Node>, hierarchyParent: map<Id, Id>, parentById: map<Id, Option<Id>>,
                         compositionParent: map<Id, Id>)

  function Get<V>(m: map<Id, V>, id: Id): Option<V> {
    if id in m then Some(m[id]) else None
  }

  // _parent: the first of four sources that is neither missing nor empty, the node's own field last.
  function ParentOf(m: Model, id: Id): Option<Id>
    requires id in m.nodes
  {
    var hierarchy, composition := Get(m.hierarchyParent, id), Get(m.compositionParent, id);
    var stored := if id in m.parentById then m.parentById[id] else None;
    if hierarchy.Some? && hierarchy.value != "" then hierarchy
    else if stored.Some? && stored.value != "" then stored
    else if composition.Some? && composition.value != "" then composition
    else m.nodes[id].parentId
  }

  function ParentsOf(m: Model): Parents {
    map id | id in m.nodes :: ParentOf(m, id)
  }

  function NameOf(m: Model, id: Id): string
    requires id in m.nodes
  {
    m.nodes[id].name
  }

  function Names(m: Model, chain: seq<Id>): seq<string>
    requires forall i :: 0 <= i < |chain| ==> chain[i] in m.nodes
  {
    seq(|chain|, i requires 0 <= i < |chain| => NameOf(m, chain[i]))
  }

  // The root-inclusive segments of an element.
  ghost predicate HasSegments(m: Model, id: Id, segments: seq<string>) {
    exists chain :: ChainTo(ParentsOf(m), chain, id) && segments == Names(m, chain)
  }

  // An element's segments are its parent's and its own name.
  lemma LastSegment(m: Model, id: Id, segments: seq<string>)
    requires segments != []
    ensures var front, last := segments[..|segments| - 1], segments[|segments| - 1];
      HasSegments(m, id, segments) <==>
      (id in m.nodes && NameOf(m, id) == last &&
       match ParentOf(m, id) { case None => front == [] case Some(p) => HasSegments(m, p, front) })
  {
    hide ParentOf;
    var parents := ParentsOf(m);
    var front, last := segments[..|segments| - 1], segments[|segments| - 1];
    if HasSegments(m, id, segments) {
      var chain :| ChainTo(parents, chain, id) && segments == Names(m, chain);
      if |chain| > 1 {
        PrefixIsChain(parents, chain, |chain| - 1);
        assert Names(m, chain[..|chain| - 1]) == front;
      }
    }
    if id in m.nodes && NameOf(m, id) == last {
      match ParentOf(m, id)
      case None =>
        if front == [] {
          assert ChainTo(parents, [id], id) && Names(m, [id]) == segments;
        }
      case Some(p) =>
        if HasSegments(m, p, front) {
          var chain :| ChainTo(parents, chain, p) && front == Names(m, chain);
          assert ChainTo(parents, chain + [id], id) && Names(m, chain + [id]) == segments;
        }
    }
  }

  lemma SegmentsAreUnique(m: Model, id: Id, s: seq<string>, t: seq<string>)
    requires HasSegments(m, id, s) && HasSegments(m, id, t)
    ensures s == t && s != []
  {
    var c :| ChainTo(ParentsOf(m), c, id) && s == Names(m, c);
    var d :| ChainTo(ParentsOf(m), d, id) && t == Names(m, d);
    ChainIsUnique(ParentsOf(m), c, d, id);
  }

  // ----- _segments -----

  type Memo = map<Id, seq<string>>

  ghost predicate IsMemo(m: Model, known: Memo) {
    forall id :: id in known ==> HasSegments(m, id, known[id])
  }

  function KnownOf(known: Option<Memo>): Memo {
    if known.Some? then known.value else map[]
  }

  // The segments of what a climb stands at: none above a root.
  ghost predicate Above(m: Model, current: Option<Id>, segments: seq<string>) {
    match current
    case None => segments == []
    case Some(x) => HasSegments(m, x, segments)
  }

  lemma NextSegment(m: Model, up: seq<Id>, id: Id, current: Option<Id>, i: nat, segments: seq<string>)
    requires Climbed(ParentsOf(m), up, id, current) && i < |up|
    requires Above(m, if i + 1 < |up| then Some(up[i + 1]) else current, segments)
    ensures up[i] in m.nodes && HasSegments(m, up[i], segments + [NameOf(m, up[i])])
  {
    assert ParentsOf(m)[up[i]] == if i + 1 < |up| then Some(up[i + 1]) else current;
    assert (segments + [NameOf(m, up[i])])[..|segments|] == segments;
    LastSegment(m, up[i], segments + [NameOf(m, up[i])]);
  }

  lemma MemoIsRooted(m: Model, id: Id, segments: seq<string>)
    requires HasSegments(m, id, segments)
    ensures Rooted(ParentsOf(m), id)
  {
    var c :| ChainTo(ParentsOf(m), c, id) && segments == Names(m, c);
  }

  // None stands for the 500 response on a broken chain.
  method Segments(m: Model, id: Id, known: Option<Memo>) returns (r: Option<seq<string>>, remembered: Option<Memo>)
    requires known.Some? ==> IsMemo(m, known.value)
    ensures r.Some? <==> Rooted(ParentsOf(m), id)
    ensures r.Some? ==> HasSegments(m, id, r.value)
    ensures remembered.Some? <==> known.Some?
    ensures known.Some? ==> IsMemo(m, remembered.value) && forall k :: k in known.value ==> k in remembered.value
    ensures known.Some? && r.Some? ==> id in remembered.value && remembered.value[id] == r.value
  {
    hide ParentOf, HasSegments, Climbed, Rooted;
    var memo := KnownOf(known);
    remembered := known;
    var chain: seq<Id> := [];
    var visited: set<Id> := {};
    var current := Some(id);
    ghost var parents := ParentsOf(m);
    ClimbStarts(parents, id);
    while current.Some? && current.value !in memo
      invariant Climbed(parents, chain, id, current)
      invariant visited <= m.nodes.Keys && forall x :: x in visited <==> x in chain
      decreases m.nodes.Keys - visited
    {
      var x := current.value;
      ClimbGoesOn(parents, chain, id, x);
      if x in visited || x !in m.nodes {
        return None, remembered;
      }
      ClimbOne(parents, chain, id, x);
      visited := visited + {x};
      chain := chain + [x];
      current := ParentOf(m, x);
    }
    var segments := if current.Some? then memo[current.value] else [];
    ClimbEnds(chain, id, current, m);
    assert Above(m, current, segments);
    var i := |chain|;
    while i > 0
      invariant 0 <= i <= |chain|
      invariant IsMemo(m, memo) && forall k :: k in KnownOf(known) ==> k in memo
      invariant Above(m, if i < |chain| then Some(chain[i]) else current, segments)
      invariant chain == [] ==> segments == memo[id]
      invariant i < |chain| ==> chain[i] in memo && memo[chain[i]] == segments
    {
      i := i - 1;
      NextSegment(m, chain, id, current, i, segments);
      segments := segments + [NameOf(m, chain[i])];
      memo := memo[chain[i] := segments];
    }
    MemoIsRooted(m, id, segments);
    r := Some(segments);
    remembered := if known.Some? then Some(memo) else None;
  }

  lemma ClimbEnds(up: seq<Id>, id: Id, current: Option<Id>, m: Model)
    requires Climbed(ParentsOf(m), up, id, current)
    ensures up == [] ==> current == Some(id)
    ensures up != [] ==> up[0] == id
  {
  }

  // ----- The trie behind resolveBrowsePath -----

  type Trie = map<Option<Id>, map<string, seq<Id>>>

  // path_children.get(parent, {}).get(segment, ())
  function Children(trie: Trie, parent: Option<Id>, segment: string): seq<Id> {
    if parent in trie && segment in trie[parent] then trie[parent][segment] else []
  }

  ghost predicate Distinct<T>(s: seq<T>) {
    forall i, j :: 0 <= i < j < |s| ==> s[i] != s[j]
  }

  ghost predicate ListsChildren(m: Model, ids: seq<Id>, trie: Trie) {
    forall parent, segment ::
      && Distinct(Children(trie, parent, segment))
      && forall id :: id in Children(trie, parent, segment) <==>
           id in ids && id in m.nodes && ParentOf(m, id) == parent && NameOf(m, id) == segment
  }

  // setdefault(parent, {}).setdefault(name, []).append(element_id)
  function Filed(trie: Trie, parent: Option<Id>, segment: string, id: Id): Trie {
    var below := if parent in trie then trie[parent] else map[];
    trie[parent := below[segment := Children(trie, parent, segment) + [id]]]
  }

  lemma FiledChildren(trie: Trie, parent: Option<Id>, segment: string, id: Id, p: Option<Id>, s: string)
    ensures Children(Filed(trie, parent, segment, id), p, s)
         == if p == parent && s == segment then Children(trie, p, s) + [id] else Children(trie, p, s)
  {
  }

  lemma FiledLists(m: Model, ids: seq<Id>, trie: Trie, id: Id)
    requires ListsChildren(m, ids, trie) && id in m.nodes && id !in ids
    ensures ListsChildren(m, ids + [id], Filed(trie, ParentOf(m, id), NameOf(m, id), id))
  {
    hide Children, Filed, ParentOf;
    var filed := Filed(trie, ParentOf(m, id), NameOf(m, id), id);
    forall parent, segment
      ensures Distinct(Children(filed, parent, segment))
      ensures forall k :: k in Children(filed, parent, segment) <==>
        k in ids + [id] && k in m.nodes && ParentOf(m, k) == parent && NameOf(m, k) == segment
    {
      FiledChildren(trie, ParentOf(m, id), NameOf(m, id), id, parent, segment);
    }
  }

  method BuildTrie(m: Model, ids: seq<Id>) returns (trie: Trie)
    requires Distinct(ids) && forall id :: id in ids ==> id in m.nodes
    ensures ListsChildren(m, ids, trie)
  {
    trie := map[];
    assert ids[..0] == [];
    for i := 0 to |ids|
      invariant ListsChildren(m, ids[..i], trie)
    {
      hide ListsChildren, Filed, ParentOf;
      var id := ids[i];
      FiledLists(m, ids[..i], trie, id);
      assert ids[..i + 1] == ids[..i] + [id];
      trie := Filed(trie, ParentOf(m, id), NameOf(m, id), id);
    }
    assert ids[..|ids|] == ids;
  }

  // The elements under any of some parents with one name.
  ghost predicate Under(m: Model, parents: seq<Option<Id>>, segment: string, matches: seq<Id>) {
    && Distinct(matches)
    && forall id :: id in matches <==> id in m.nodes && ParentOf(m, id) in parents && NameOf(m, id) == segment
  }

  lemma UnderOneMore(m: Model, parents: seq<Option<Id>>, parent: Option<Id>, segment: string, matches: seq<Id>,
                     children: seq<Id>)
    requires Under(m, parents, segment, matches) && parent !in parents && Distinct(children)
    requires forall id :: id in children <==> id in m.nodes && ParentOf(m, id) == parent && NameOf(m, id) == segment
    ensures Under(m, parents + [parent], segment, matches + children)
  {
    hide ParentOf;
    var all := matches + children;
    forall i, j | 0 <= i < j < |all| ensures all[i] != all[j] {
      if i < |matches| <= j {
        assert all[i] in matches && all[j] in children;
      }
    }
  }

  method NextMatches(m: Model, ghost ids: seq<Id>, trie: Trie, candidates: seq<Option<Id>>, segment: string)
    returns (matches: seq<Id>)
    requires ListsChildren(m, ids, trie) && (forall id :: id in m.nodes <==> id in ids) && Distinct(candidates)
    ensures Under(m, candidates, segment, matches)
  {
    matches := [];
    assert candidates[..0] == [];
    for i := 0 to |candidates|
      invariant Under(m, candidates[..i], segment, matches)
    {
      hide Under, Children, ParentOf;
      UnderOneMore(m, candidates[..i], candidates[i], segment, matches, Children(trie, candidates[i], segment));
      assert candidates[..i + 1] == candidates[..i] + [candidates[i]];
      matches := matches + Children(trie, candidates[i], segment);
    }
    assert candidates[..|candidates|] == candidates;
  }

  // Exactly the elements with these segments, once each.
  ghost predicate Matches(m: Model, segments: seq<string>, matches: seq<Id>) {
    Distinct(matches) && forall id :: id in matches <==> HasSegments(m, id, segments)
  }

  // The parents the next segment is looked up under: the place above the roots at first.
  function Candidates(matches: seq<Id>, first: bool): seq<Option<Id>> {
    if first then [None] else seq(|matches|, i requires 0 <= i < |matches| => Some(matches[i]))
  }

  lemma CandidateOf(matches: seq<Id>, first: bool, parent: Option<Id>)
    ensures parent in Candidates(matches, first) <==>
      if first then parent == None else parent.Some? && parent.value in matches
  {
    if !first && parent.Some? && parent.value in matches {
      var i :| 0 <= i < |matches| && matches[i] == parent.value;
      assert Candidates(matches, first)[i] == parent;
    }
  }

  lemma MatchesGrow(m: Model, segments: seq<string>, matches: seq<Id>, segment: string, next: seq<Id>)
    requires segments != [] ==> Matches(m, segments, matches)
    requires Under(m, Candidates(matches, segments == []), segment, next)
    ensures Matches(m, segments + [segment], next)
  {
    hide HasSegments, Candidates, ParentOf;
    forall id ensures id in next <==> HasSegments(m, id, segments + [segment]) {
      LastSegment(m, id, segments + [segment]);
      assert (segments + [segment])[..|segments|] == segments;
      if id in m.nodes {
        CandidateOf(matches, segments == [], ParentOf(m, id));
        SomeSegment(m, segments);
      }
    }
  }

  lemma SomeSegment(m: Model, segments: seq<string>)
    ensures (exists id :: HasSegments(m, id, segments)) ==> segments != []
  {
  }

  // No element has longer segments once none matches a prefix.
  lemma {:induction false} NoMatchBelow(m: Model, segments: seq<string>, n: nat)
    requires 0 < n <= |segments| && forall id :: !HasSegments(m, id, segments[..n])
    ensures forall id :: !HasSegments(m, id, segments)
    decreases |segments|
  {
    if n == |segments| {
      assert segments[..n] == segments;
    } else {
      var front := segments[..|segments| - 1];
      assert front[..n] == segments[..n];
      NoMatchBelow(m, front, n);
      forall id ensures !HasSegments(m, id, segments) {
        LastSegment(m, id, segments);
      }
    }
  }

  datatype Resolution = InvalidModel | AmbiguousPath | NotFound | Found(id: Id)

  // e is the only element with these segments.
  ghost predicate OnlyElement(m: Model, segments: seq<string>, id: Id) {
    HasSegments(m, id, segments) && forall other :: HasSegments(m, other, segments) ==> other == id
  }

  ghost predicate SeveralElements(m: Model, segments: seq<string>) {
    exists id, other :: id != other && HasSegments(m, id, segments) && HasSegments(m, other, segments)
  }

  ghost predicate IsResolution(m: Model, segments: seq<string>, r: Resolution) {
    && (r == InvalidModel <==> !IsForest(ParentsOf(m)))
    && (r != InvalidModel ==>
        && (forall id :: r == Found(id) <==> OnlyElement(m, segments, id))
        && (r == AmbiguousPath <==> SeveralElements(m, segments))
        && (r == NotFound <==> forall id :: !HasSegments(m, id, segments)))
  }

  function Outcome(matches: seq<Id>): Resolution {
    if |matches| > 1 then AmbiguousPath else if matches == [] then NotFound else Found(matches[0])
  }

  lemma MatchesResolve(m: Model, segments: seq<string>, matches: seq<Id>)
    requires IsForest(ParentsOf(m)) && Matches(m, segments, matches)
    ensures IsResolution(m, segments, Outcome(matches))
  {
    hide HasSegments, IsForest;
    if |matches| > 1 {
      assert matches[0] in matches && matches[1] in matches;
    } else if |matches| == 1 {
      assert matches[0] in matches;
    }
  }

  lemma NoSegments(m: Model)
    ensures Matches(m, [], [])
  {
  }

  class ModelAccessIndex {
    const model: Model
    const orderedIds: seq<Id>
    var pathChildren: Option<Trie>

    ghost predicate Valid()
      reads this
    {
      && Distinct(orderedIds) && (forall id :: id in model.nodes <==> id in orderedIds)
      && (pathChildren.Some? ==> ListsChildren(model, orderedIds, pathChildren.value) && IsForest(ParentsOf(model)))
    }

    constructor (model: Model, orderedIds: seq<Id>)
      requires Distinct(orderedIds) && forall id :: id in model.nodes <==> id in orderedIds
      ensures Valid() && this.model == model && pathChildren == None
    {
      this.model, this.orderedIds, pathChildren := model, orderedIds, None;
    }

    method ResolveBrowsePath(segments: seq<string>) returns (r: Resolution)
      requires Valid()
      modifies this
      ensures Valid() && IsResolution(model, segments, r)
    {
      hide HasSegments, IsForest, ListsChildren, IsResolution, Matches, Under;
      if pathChildren == None {
        var trie := BuildTrie(model, orderedIds);
        var ok := ValidateParentChains(ParentsOf(model));
        if !ok {
          BrokenModel(model, segments);
          return InvalidModel;
        }
        pathChildren := Some(trie);
      }
      var matches: seq<Id> := [];
      NoSegments(model);
      assert segments[..0] == [];
      for i := 0 to |segments|
        invariant Matches(model, segments[..i], matches)
        invariant pathChildren.Some? && Valid()
      {
        DistinctCandidates(model, segments[..i], matches, i == 0);
        var next := NextMatches(model, orderedIds, pathChildren.value, Candidates(matches, i == 0), segments[i]);
        MatchesGrow(model, segments[..i], matches, segments[i], next);
        assert segments[..i + 1] == segments[..i] + [segments[i]];
        matches := next;
        if matches == [] {
          NothingMatches(model, segments, i + 1);
          break;
        }
      }
      assert segments[..|segments|] == segments;
      MatchesResolve(model, segments, matches);
      r := Outcome(matches);
    }
  }

  lemma BrokenModel(m: Model, segments: seq<string>)
    requires !IsForest(ParentsOf(m))
    ensures IsResolution(m, segments, InvalidModel)
  {
  }

  lemma DistinctCandidates(m: Model, segments: seq<string>, matches: seq<Id>, first: bool)
    requires Matches(m, segments, matches)
    ensures Distinct(Candidates(matches, first))
  {
  }

  lemma NothingMatches(m: Model, segments: seq<string>, n: nat)
    requires 0 < n <= |segments| && Matches(m, segments[..n], [])
    ensures Matches(m, segments, [])
  {
    NoMatchBelow(m, segments, n);
  }

  // ----- The joined string form -----

  // The path argument, rejected with 400 when a segment is blank.
  function PathSegments(path: string, isBlank: string -> bool): Option<seq<string>> {
    if exists i :: 0 <= i < |Split('/', path)| && isBlank(Split('/', path)[i]) then None else Some(Split('/', path))
  }

  // The string getBrowsePath answers with leads resolveBrowsePath back to the element exactly when
  // no name on the way is blank or contains a slash and no other element has the same segments.
  lemma BrowsePathRoundTrips(m: Model, id: Id, segments: seq<string>, isBlank: string -> bool, resolved: Resolution)
    requires IsForest(ParentsOf(m)) && HasSegments(m, id, segments) && segments != []
    requires var s := PathSegments(Join('/', segments), isBlank); s.Some? ==> IsResolution(m, s.value, resolved)
    ensures PathSegments(Join('/', segments), isBlank) == Some(segments) <==>
      forall i :: 0 <= i < |segments| ==> '/' !in segments[i] && !isBlank(segments[i])
    ensures (forall i :: 0 <= i < |segments| ==> '/' !in segments[i] && !isBlank(segments[i])) ==>
      (resolved == Found(id) <==> forall other :: HasSegments(m, other, segments) ==> other == id)
      && (resolved == AmbiguousPath <==> resolved != Found(id))
  {
    hide HasSegments, IsForest;
    SplitJoin('/', segments);
  }
}
