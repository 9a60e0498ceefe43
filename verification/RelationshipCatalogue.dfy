// The catalogue of relationship types served for a model: built-in pairs plus every graph ID with its inverse.
module RelationshipCatalogue {
  import opened Ordering
  import opened ModelBuilder
  import opened Relationships
  import opened RelationshipMap

  datatype TypeItem = TypeItem(elementId: string, displayName: string, namespaceUri: string, reverseOf: string)

  const BUILT_IN_ITEMS := [
    TypeItem("HasParent", "HasParent", I3X_NAMESPACE, "HasChildren"),
    TypeItem("HasChildren", "HasChildren", I3X_NAMESPACE, "HasParent"),
    TypeItem("HasComponent", "HasComponent", I3X_NAMESPACE, "ComponentOf"),
    TypeItem("ComponentOf", "ComponentOf", I3X_NAMESPACE, "HasComponent")]

  function GraphItem(t: IdTable, id: string): TypeItem
    requires id in t.namespaceById
  {
    TypeItem(id, if id in t.displayNameById then t.displayNameById[id] else id, t.namespaceById[id], InverseName(id))
  }

  function InverseItem(t: IdTable, id: string): TypeItem
    requires id in t.namespaceById
  {
    TypeItem(InverseName(id), InverseName(GraphItem(t, id).displayName), t.namespaceById[id], id)
  }

  // Positions 0..3 are built in; ID i of the sorted list takes position 4 + 2i and its inverse the next one.
  ghost predicate Lists(items: seq<TypeItem>, t: IdTable, ids: seq<string>) {
    && |items| == 4 + 2 * |ids| && items[..4] == BUILT_IN_ITEMS
    && (forall i :: 0 <= i < |ids| ==> ids[i] in t.namespaceById)
    && forall i :: 0 <= i < |ids| ==>
      items[4 + 2 * i] == GraphItem(t, ids[i]) && items[5 + 2 * i] == InverseItem(t, ids[i])
  }

  lemma ListsGrows(items: seq<TypeItem>, t: IdTable, ids: seq<string>, name: string)
    requires Lists(items, t, ids) && name in t.namespaceById
    ensures Lists(items + [GraphItem(t, name), InverseItem(t, name)], t, ids + [name])
  {
    var items' := items + [GraphItem(t, name), InverseItem(t, name)];
    assert items'[..4] == items[..4];
    forall i | 0 <= i < |ids| + 1 ensures (ids + [name])[i] in t.namespaceById
      && items'[4 + 2 * i] == GraphItem(t, (ids + [name])[i])
        && items'[5 + 2 * i] == InverseItem(t, (ids + [name])[i]) {
      if i < |ids| {
        assert items[4 + 2 * i] == GraphItem(t, ids[i]) && items[5 + 2 * i] == InverseItem(t, ids[i]);
      }
    }
  }

  // ids are the names met so far that are not built in, in their order.
  ghost predicate KeptNames(ids: seq<string>, met: seq<string>) {
    && (forall x :: x in ids <==> x in met && x !in BUILT_IN)
    && (forall i, j :: 0 <= i < j < |ids| ==> ids[i] != ids[j] && StringLe(ids[i], ids[j]))
  }

  lemma KeepName(ids: seq<string>, sorted: seq<string>, names: set<string>, k: nat)
    requires SortedListing(sorted, names, StringLe) && k < |sorted| && KeptNames(ids, sorted[..k])
    ensures KeptNames(if sorted[k] in BUILT_IN then ids else ids + [sorted[k]], sorted[..k + 1])
  {
    assert sorted[..k + 1] == sorted[..k] + [sorted[k]];
    forall i | 0 <= i < |ids| ensures ids[i] != sorted[k] && StringLe(ids[i], sorted[k]) {
      assert ids[i] in ids;
      var l :| 0 <= l < k && sorted[l] == ids[i];
    }
  }

  // A graph ID that were a built-in name would not be listed twice; IdIsNoBuiltIn shows there is none.
  method RelationshipTypeItems(t: IdTable) returns (items: seq<TypeItem>, ghost ids: seq<string>)
    ensures Lists(items, t, ids) && SortedListing(ids, t.namespaceById.Keys - BUILT_IN, StringLe)
    ensures PlainIds(t.namespaceById.Keys) ==> SortedListing(ids, t.namespaceById.Keys, StringLe)
    ensures forall id :: id in t.namespaceById && id !in BUILT_IN ==>
      GraphItem(t, id) in items && InverseItem(t, id) in items
  {
    hide Lists, KeptNames;
    StringLeIsTotalOrder();
    var sorted := SortSet(t.namespaceById.Keys, StringLe);
    items, ids := BUILT_IN_ITEMS, [];
    NothingListed(t, sorted);
    for k := 0 to |sorted|
      invariant Lists(items, t, ids) && KeptNames(ids, sorted[..k])
    {
      var name := sorted[k];
      assert name in sorted;
      KeepName(ids, sorted, t.namespaceById.Keys, k);
      if name !in BUILT_IN {
        ListsGrows(items, t, ids, name);
        items, ids := items + [GraphItem(t, name), InverseItem(t, name)], ids + [name];
      }
    }
    assert sorted[..|sorted|] == sorted;
    AllListedNames(items, t, ids, sorted);
  }

  lemma NothingListed(t: IdTable, sorted: seq<string>)
    ensures Lists(BUILT_IN_ITEMS, t, []) && KeptNames([], sorted[..0])
  {
  }

  lemma AllListedNames(items: seq<TypeItem>, t: IdTable, ids: seq<string>, sorted: seq<string>)
    requires Lists(items, t, ids) && KeptNames(ids, sorted) && SortedListing(sorted, t.namespaceById.Keys, StringLe)
    ensures SortedListing(ids, t.namespaceById.Keys - BUILT_IN, StringLe)
    ensures PlainIds(t.namespaceById.Keys) ==> SortedListing(ids, t.namespaceById.Keys, StringLe)
    ensures forall id :: id in t.namespaceById && id !in BUILT_IN ==>
      GraphItem(t, id) in items && InverseItem(t, id) in items
  {
    forall id | id in t.namespaceById && id !in BUILT_IN
      ensures GraphItem(t, id) in items && InverseItem(t, id) in items
    {
      assert id in ids;
      var i :| 0 <= i < |ids| && ids[i] == id;
      assert items[4 + 2 * i] == GraphItem(t, id) && items[5 + 2 * i] == InverseItem(t, id);
    }
  }

  function Partner(k: nat): nat {
    if k % 2 == 0 then k + 1 else k - 1
  }

  lemma PositionOf(items: seq<TypeItem>, t: IdTable, ids: seq<string>, k: nat) returns (i: nat)
    requires Lists(items, t, ids) && 4 <= k < |items|
    ensures i == (k - 4) / 2 < |ids|
    ensures items[k] == if k % 2 == 0 then GraphItem(t, ids[i]) else InverseItem(t, ids[i])
  {
    i := (k - 4) / 2;
    assert k == 4 + 2 * i || k == 5 + 2 * i;
  }

  // The reverse of every entry is its neighbour, and back.
  lemma PartnerReverses(items: seq<TypeItem>, t: IdTable, ids: seq<string>, k: nat)
    requires Lists(items, t, ids) && k < |items|
    ensures Partner(k) < |items| && Partner(Partner(k)) == k
    ensures items[Partner(k)].elementId == items[k].reverseOf && items[Partner(k)].reverseOf == items[k].elementId
    ensures items[Partner(k)].namespaceUri == items[k].namespaceUri
  {
    if k < 4 {
      assert items[k] == items[..4][k] && items[Partner(k)] == items[..4][Partner(k)];
    } else {
      var i := PositionOf(items, t, ids, k);
      var j := PositionOf(items, t, ids, Partner(k));
    }
  }

  lemma BuiltInAt(items: seq<TypeItem>, t: IdTable, ids: seq<string>, k: nat)
    requires Lists(items, t, ids) && k < |items| && PlainIds(t.namespaceById.Keys)
    ensures k < 4 <==> items[k].elementId in BUILT_IN
  {
    if k < 4 {
      assert items[k] == items[..4][k];
    } else {
      var i := PositionOf(items, t, ids, k);
      InverseOfBuiltIn(ids[i]);
    }
  }

  // Two positions share an element ID only if an ID is the inverse name of another.
  lemma SameIdSamePosition(items: seq<TypeItem>, t: IdTable, ids: seq<string>, k: nat, l: nat)
    requires Lists(items, t, ids) && SortedListing(ids, t.namespaceById.Keys, StringLe)
    requires PlainIds(t.namespaceById.Keys) && Apart(t.namespaceById.Keys)
    requires k < |items| && l < |items| && items[k].elementId == items[l].elementId
    ensures k == l
  {
    BuiltInAt(items, t, ids, k);
    BuiltInAt(items, t, ids, l);
    if k < 4 {
      assert items[k] == items[..4][k] && items[l] == items[..4][l];
    } else {
      var i := PositionOf(items, t, ids, k);
      var j := PositionOf(items, t, ids, l);
      InverseNameIsInjective(ids[i], ids[j]);
    }
  }

  // Element IDs are unique exactly when no graph ID is the inverse name of another.
  lemma UniqueElementIdsIff(items: seq<TypeItem>, t: IdTable, ids: seq<string>)
    requires Lists(items, t, ids) && SortedListing(ids, t.namespaceById.Keys, StringLe)
      && PlainIds(t.namespaceById.Keys)
    ensures Apart(t.namespaceById.Keys) <==>
      forall k, l :: 0 <= k < |items| && 0 <= l < |items| && items[k].elementId == items[l].elementId ==> k == l
  {
    if Apart(t.namespaceById.Keys) {
      forall k, l | 0 <= k < |items| && 0 <= l < |items| && items[k].elementId == items[l].elementId ensures k == l {
        SameIdSamePosition(items, t, ids, k, l);
      }
    } else {
      var r :| r in t.namespaceById.Keys && InverseName(r) in t.namespaceById.Keys;
      assert r in ids && InverseName(r) in ids;
      var i :| 0 <= i < |ids| && ids[i] == r;
      var j :| 0 <= j < |ids| && ids[j] == InverseName(r);
      assert items[5 + 2 * i].elementId == items[4 + 2 * j].elementId;
    }
  }

  // reverseOf is an involution on the catalogue: whichever entry carries the reverse ID points back.
  lemma ReverseIsInvolution(items: seq<TypeItem>, t: IdTable, ids: seq<string>, k: nat, l: nat)
    requires Lists(items, t, ids) && SortedListing(ids, t.namespaceById.Keys, StringLe)
    requires PlainIds(t.namespaceById.Keys) && Apart(t.namespaceById.Keys)
    requires k < |items| && l < |items| && items[l].elementId == items[k].reverseOf
    ensures items[l].reverseOf == items[k].elementId && l == Partner(k)
  {
    PartnerReverses(items, t, ids, k);
    SameIdSamePosition(items, t, ids, l, Partner(k));
  }

  // Navigating a catalogued relationship and then its catalogued reverse leads back, in every written map.
  lemma CatalogueMatchesMap(items: seq<TypeItem>, t: IdTable, ids: seq<string>, rel: RelationMap, k: nat, s: ElementId,
                            u: ElementId)
    requires Lists(items, t, ids) && SortedListing(ids, t.namespaceById.Keys, StringLe) && k < |items|
    requires PlainIds(t.namespaceById.Keys) && InverseClosed(rel, t.namespaceById.Keys)
    ensures u in Targets(rel, s, items[k].elementId) <==> s in Targets(rel, u, items[k].reverseOf)
  {
    var graphIds := t.namespaceById.Keys;
    if k < 4 {
      assert items[k] == items[..4][k];
      assert items[k].elementId in BUILT_IN && ReverseOf(graphIds, items[k].elementId) == items[k].reverseOf;
    } else {
      var i := PositionOf(items, t, ids, k);
      assert ids[i] in ids;
      assert ReverseOf(graphIds, ids[i]) == InverseName(ids[i]);
    }
  }
}
