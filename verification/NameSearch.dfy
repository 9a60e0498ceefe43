// The search index over a model's elements, and the pages its results are handed out in.
module NameSearch {
  import opened Options
  import opened Ordering

  type Id = string

  datatype Element = Element(name: string, namespace: Option<string>, role: string)
  // fold stands for str.casefold.
  datatype Model = Model(elements: map<Id, Element>, fold: string -> string)

  function Folded(m: Model, id: Id): string {
    if id in m.elements then m.fold(m.elements[id].name) else ""
  }

  // The sort key is the folded name, then the element ID.
  predicate KeyLe(m: Model, a: Id, b: Id) {
    if Folded(m, a) == Folded(m, b) then StringLe(a, b) else StringLe(Folded(m, a), Folded(m, b))
  }

  function Order(m: Model): (Id, Id) -> bool {
    (a, b) => KeyLe(m, a, b)
  }

  lemma OrderIsTotal(m: Model)
    ensures TotalOrder(Order(m))
  {
    var le := Order(m);
    forall a, b ensures le(a, b) || le(b, a) {
      StringLeTotal(a, b);
      StringLeTotal(Folded(m, a), Folded(m, b));
    }
    forall a, b | le(a, b) && le(b, a) ensures a == b {
      if Folded(m, a) == Folded(m, b) {
        StringLeAntisymmetric(a, b);
      } else {
        StringLeAntisymmetric(Folded(m, a), Folded(m, b));
      }
    }
    forall a, b, c | le(a, b) && le(b, c) ensures le(a, c) {
      KeyTransitive(m, a, b, c);
    }
  }

  lemma KeyTransitive(m: Model, a: Id, b: Id, c: Id)
    requires KeyLe(m, a, b) && KeyLe(m, b, c)
    ensures KeyLe(m, a, c)
  {
    var x, y, z := Folded(m, a), Folded(m, b), Folded(m, c);
    if x == y && y == z {
      StringLeTransitive(a, b, c);
    } else if x != y && y != z {
      StringLeTransitive(x, y, z);
      if x == z {
        StringLeAntisymmetric(x, y);
      }
    }
  }

  // _sorted_ids
  method SortedIds(m: Model, ids: set<Id>) returns (r: seq<Id>)
    ensures SortedListing(r, ids, Order(m))
  {
    OrderIsTotal(m);
    r := SortSet(ids, Order(m));
  }

  // ----- Trigrams -----

  // text in name
  ghost predicate Contains(name: string, text: string) {
    exists i :: 0 <= i <= |name| && text <= name[i..]
  }

  predicate ContainsFrom(name: string, text: string, i: nat)
    requires i <= |name|
    decreases |name| - i
  {
    text <= name[i..] || (i < |name| && ContainsFrom(name, text, i + 1))
  }

  lemma {:induction false} ScanContains(name: string, text: string, i: nat)
    requires i <= |name|
    ensures ContainsFrom(name, text, i) <==> exists k :: i <= k <= |name| && text <= name[k..]
    decreases |name| - i
  {
    if i < |name| {
      ScanContains(name, text, i + 1);
    }
  }

  function GramAt(s: string, i: nat): string
    requires i + 3 <= |s|
  {
    s[i..i + 3]
  }

  function Grams(s: string): set<string> {
    set i: nat | i + 3 <= |s| :: GramAt(s, i)
  }

  // A name that contains the text has every trigram of the text.
  lemma ContainedGrams(name: string, text: string)
    requires Contains(name, text)
    ensures Grams(text) <= Grams(name)
  {
    var i :| 0 <= i <= |name| && text <= name[i..];
    forall g | g in Grams(text) ensures g in Grams(name) {
      var k: nat :| k + 3 <= |text| && g == GramAt(text, k);
      assert name[i..][k..k + 3] == name[i + k..i + k + 3];
      assert name[i..][k..k + 3] == text[k..k + 3] by {
        assert text == name[i..][..|text|];
      }
      assert GramAt(name, i + k) == g;
    }
  }

  type Buckets = map<string, set<Id>>
  type Lists = map<string, seq<Id>>

  function At(buckets: Buckets, key: string): set<Id> {
    if key in buckets then buckets[key] else {}
  }

  function ListAt(lists: Lists, key: string): seq<Id> {
    if key in lists then lists[key] else []
  }

  // setdefault(key, []).append(id)
  function Appended(lists: Lists, key: string, id: Id): Lists {
    lists[key := ListAt(lists, key) + [id]]
  }

  ghost predicate GramsOf(m: Model, ids: seq<Id>, buckets: Buckets) {
    forall g, e :: e in At(buckets, g) <==> e in ids && g in Grams(Folded(m, e))
  }

  // The members of ids in one class, in their order.
  function Members(ids: seq<Id>, inClass: Id -> bool): (r: seq<Id>)
    ensures forall e :: e in r <==> e in ids && inClass(e)
  {
    if ids == [] then [] else
    var init, last := ids[..|ids| - 1], ids[|ids| - 1];
    assert ids == init + [last];
    Members(init, inClass) + if inClass(last) then [last] else []
  }

  ghost predicate Ascending(ids: seq<Id>, le: (Id, Id) -> bool) {
    forall i, j :: 0 <= i < j < |ids| ==> ids[i] != ids[j] && le(ids[i], ids[j])
  }

  lemma {:induction false} MembersAreSorted(ids: seq<Id>, inClass: Id -> bool, le: (Id, Id) -> bool)
    requires Ascending(ids, le)
    ensures Ascending(Members(ids, inClass), le)
  {
    if ids != [] {
      var init, last := ids[..|ids| - 1], ids[|ids| - 1];
      MembersAreSorted(init, inClass, le);
      var r := Members(init, inClass);
      forall i | 0 <= i < |r| ensures r[i] != last && le(r[i], last) {
        assert r[i] in r && r[i] in init;
        var k :| 0 <= k < |init| && init[k] == r[i];
        assert ids[k] == r[i];
      }
      assert Ascending(r + [last], le);
      assert Members(ids, inClass) == r + if inClass(last) then [last] else [];
    }
  }

  lemma MembersOfOneMore(ids: seq<Id>, id: Id, inClass: Id -> bool)
    ensures Members(ids + [id], inClass) == Members(ids, inClass) + if inClass(id) then [id] else []
  {
    assert (ids + [id])[..|ids|] == ids;
  }

  function HasNamespace(m: Model, namespace: string): Id -> bool {
    id => id in m.elements && m.elements[id].namespace == Some(namespace)
  }

  function HasRole(m: Model, role: string): Id -> bool {
    id => id in m.elements && m.elements[id].role == role
  }

  ghost predicate NamespacesOf(m: Model, ids: seq<Id>, lists: Lists) {
    forall n :: ListAt(lists, n) == Members(ids, HasNamespace(m, n))
  }

  ghost predicate RolesOf(m: Model, ids: seq<Id>, lists: Lists) {
    forall r :: ListAt(lists, r) == Members(ids, HasRole(m, r))
  }

  datatype Index = Index(orderedIds: seq<Id>, namespaces: Lists, roles: Lists, nameGrams: Buckets)

  ghost predicate IsIndex(m: Model, index: Index) {
    && SortedListing(index.orderedIds, m.elements.Keys, Order(m))
    && NamespacesOf(m, index.orderedIds, index.namespaces) && RolesOf(m, index.orderedIds, index.roles)
    && GramsOf(m, index.orderedIds, index.nameGrams)
  }

  method FileGrams(id: Id, name: string, before: Buckets) returns (buckets: Buckets)
    ensures forall g, e :: e in At(buckets, g) <==> e in At(before, g) || (e == id && g in Grams(name))
  {
    buckets := before;
    var grams := Grams(name);
    while grams != {}
      invariant grams <= Grams(name)
      invariant forall g, e :: e in At(buckets, g) <==>
        e in At(before, g) || (e == id && g in Grams(name) && g !in grams)
      decreases grams
    {
      var gram :| gram in grams;
      grams := grams - {gram};
      buckets := buckets[gram := At(buckets, gram) + {id}];
    }
  }

  lemma NamespaceFiled(m: Model, ids: seq<Id>, id: Id, lists: Lists)
    requires NamespacesOf(m, ids, lists) && id in m.elements
    ensures var n := m.elements[id].namespace;
      NamespacesOf(m, ids + [id], if n.Some? then Appended(lists, n.value, id) else lists)
  {
    forall n { MembersOfOneMore(ids, id, HasNamespace(m, n)); }
  }

  lemma RoleFiled(m: Model, ids: seq<Id>, id: Id, lists: Lists)
    requires RolesOf(m, ids, lists) && id in m.elements
    ensures RolesOf(m, ids + [id], Appended(lists, m.elements[id].role, id))
  {
    forall r { MembersOfOneMore(ids, id, HasRole(m, r)); }
  }

  // _index
  method BuildIndex(m: Model) returns (index: Index)
    ensures IsIndex(m, index)
  {
    hide NamespacesOf, RolesOf, Grams, Order, Appended;
    var orderedIds := SortedIds(m, m.elements.Keys);
    var namespaces: Lists, roles: Lists, nameGrams: Buckets := map[], map[], map[];
    EmptyIndex(m);
    assert orderedIds[..0] == [];
    for i := 0 to |orderedIds|
      invariant NamespacesOf(m, orderedIds[..i], namespaces) && RolesOf(m, orderedIds[..i], roles)
      invariant GramsOf(m, orderedIds[..i], nameGrams)
    {
      var id := orderedIds[i];
      assert id in orderedIds && id in m.elements.Keys;
      var element := m.elements[id];
      assert orderedIds[..i + 1] == orderedIds[..i] + [id];
      NamespaceFiled(m, orderedIds[..i], id, namespaces);
      RoleFiled(m, orderedIds[..i], id, roles);
      if element.namespace.Some? {
        namespaces := Appended(namespaces, element.namespace.value, id);
      }
      roles := Appended(roles, element.role, id);
      nameGrams := FileGrams(id, m.fold(element.name), nameGrams);
    }
    assert orderedIds[..|orderedIds|] == orderedIds;
    index := Index(orderedIds, namespaces, roles, nameGrams);
  }

  lemma EmptyIndex(m: Model)
    ensures NamespacesOf(m, [], map[]) && RolesOf(m, [], map[])
  {
  }

  // ----- Searching -----

  // The linear scan a search must agree with.
  ghost function Scan(m: Model, text: string): set<Id> {
    set e | e in m.elements && Contains(m.fold(m.elements[e].name), m.fold(text))
  }

  method FindElementsByName(m: Model, index: Index, text: string) returns (r: seq<Id>)
    requires IsIndex(m, index)
    ensures SortedListing(r, Scan(m, text), Order(m))
  {
    hide Grams, Order, Contains, ContainsFrom;
    var folded := m.fold(text);
    var grams := Grams(folded);
    var candidates := set e | e in index.orderedIds;
    var rest := grams;
    while rest != {}
      invariant rest <= grams
      invariant forall e :: e in candidates <==>
        e in m.elements && forall g :: g in grams && g !in rest ==> g in Grams(Folded(m, e))
      decreases rest
    {
      var gram :| gram in rest;
      rest := rest - {gram};
      candidates := candidates * At(index.nameGrams, gram);
    }
    var found := set e | e in candidates && e in m.elements && ContainsFrom(m.fold(m.elements[e].name), folded, 0);
    forall e ensures e in found <==> e in Scan(m, text) {
      if e in m.elements {
        ScannedName(m.fold(m.elements[e].name), folded);
      }
    }
    assert found == Scan(m, text);
    r := SortedIds(m, found);
  }

  lemma ScannedName(name: string, text: string)
    ensures ContainsFrom(name, text, 0) <==> Contains(name, text)
    ensures Contains(name, text) ==> Grams(text) <= Grams(name)
  {
    ScanContains(name, text, 0);
    if Contains(name, text) {
      ContainedGrams(name, text);
    }
  }

  lemma MembersAreScan(m: Model, ids: seq<Id>, inClass: Id -> bool)
    requires SortedListing(ids, m.elements.Keys, Order(m))
    ensures SortedListing(Members(ids, inClass), (set e | e in m.elements && inClass(e)), Order(m))
  {
    hide Order;
    MembersAreSorted(ids, inClass, Order(m));
  }

  // The buckets of a namespace and of a role are sorted linear scans too.
  lemma BucketsAreScans(m: Model, index: Index, namespace: string, role: string)
    requires IsIndex(m, index)
    ensures SortedListing(ListAt(index.namespaces, namespace),
                          (set e | e in m.elements && HasNamespace(m, namespace)(e)), Order(m))
    ensures SortedListing(ListAt(index.roles, role), (set e | e in m.elements && HasRole(m, role)(e)), Order(m))
  {
    hide SortedListing, HasNamespace, HasRole, ListAt, Order;
    MembersAreScan(m, index.orderedIds, HasNamespace(m, namespace));
    MembersAreScan(m, index.orderedIds, HasRole(m, role));
  }

  // ----- Pages -----

  datatype Page = Page(total: nat, returned: nat, offset: nat, nextOffset: Option<nat>, items: seq<Id>)

  function Min(a: nat, b: nat): nat { if a < b then a else b }

  // ordered[offset:offset + limit]
  function Slice(ordered: seq<Id>, offset: nat, limit: nat): seq<Id> {
    ordered[Min(offset, |ordered|)..Min(offset + limit, |ordered|)]
  }

  function PageOf(ordered: seq<Id>, offset: nat, limit: nat): Page {
    var page := Slice(ordered, offset, limit);
    Page(|ordered|, |page|, offset, if offset + |page| < |ordered| then Some(offset + |page|) else None, page)
  }

  // The pages a client receives by following nextOffset.
  function Follow(ordered: seq<Id>, offset: nat, limit: nat): seq<Page>
    requires limit >= 1
    decreases |ordered| - offset
  {
    var page := PageOf(ordered, offset, limit);
    [page] + if page.nextOffset.Some? then Follow(ordered, page.nextOffset.value, limit) else []
  }

  function Items(pages: seq<Page>): seq<Id> {
    if pages == [] then [] else pages[0].items + Items(pages[1..])
  }

  // Following nextOffset hands out every remaining result once, in order, in full pages but the last.
  lemma {:induction false} PagesCoverOnce(ordered: seq<Id>, offset: nat, limit: nat)
    requires limit >= 1 && offset <= |ordered|
    ensures var pages := Follow(ordered, offset, limit);
      && Items(pages) == ordered[offset..]
      && (forall i :: 0 <= i < |pages| ==> pages[i].total == |ordered| && pages[i].returned == |pages[i].items|)
      && (forall i :: 0 <= i < |pages| - 1 ==> pages[i].returned == limit)
    decreases |ordered| - offset
  {
    var page := PageOf(ordered, offset, limit);
    var pages := Follow(ordered, offset, limit);
    if page.nextOffset.Some? {
      PagesCoverOnce(ordered, page.nextOffset.value, limit);
      assert pages[1..] == Follow(ordered, page.nextOffset.value, limit);
      assert page.items + ordered[offset + limit..] == ordered[offset..];
    } else {
      assert pages == [page] && pages[1..] == [];
      assert page.items == ordered[offset..];
    }
  }

  // Two searches of one model hand out the same pages: nothing but the model decides the order.
  lemma SearchIsDeterministic(m: Model, text: string, r: seq<Id>, q: seq<Id>)
    requires SortedListing(r, Scan(m, text), Order(m)) && SortedListing(q, Scan(m, text), Order(m))
    ensures r == q
  {
    OrderIsTotal(m);
    SortedListingIsUnique(r, q, Scan(m, text), Order(m));
  }
}
