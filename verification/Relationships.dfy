// Graph relationship IDs, the relationship map and the catalogue of relationship types.
module Relationships {
  import opened Ordering
  import opened ModelBuilder
  import opened Options

  type Namespaces = map<string, set<string>>

  predicate IsKey(namespaces: Namespaces, k: RelationKey) {
    k.namespace in Registered(namespaces, k.name)
  }

  predicate Qualifies(namespaces: Namespaces, name: string) {
    |Registered(namespaces, name)| > 1 || name in BUILT_IN || INVERSE <= name || ':' in name
  }

  function RelationId(namespaces: Namespaces, k: RelationKey): string {
    if Qualifies(namespaces, k.name) then k.namespace + ":" + k.name else k.name
  }

  function InverseName(id: string): string { INVERSE + id }

  datatype IdTable = IdTable(ids: map<RelationKey, string>, namespaceById: map<string, string>,
                             displayNameById: map<string, string>)

  // The three dictionaries agree with RelationId on the keys selected by `chosen`.
  ghost predicate Assigned(namespaces: Namespaces, t: IdTable, chosen: RelationKey -> bool) {
    && (forall k :: k in t.ids <==> IsKey(namespaces, k) && chosen(k))
    && (forall k :: k in t.ids ==> t.ids[k] == RelationId(namespaces, k))
    && (forall k, j :: k in t.ids && j in t.ids && t.ids[k] == t.ids[j] ==> k == j)
    && NamesFollow(t)
  }

  ghost predicate Ambiguous(namespaces: Namespaces) {
    exists k, j :: k != j && IsKey(namespaces, k) && IsKey(namespaces, j)
      && RelationId(namespaces, k) == RelationId(namespaces, j)
  }

  lemma ValuesGrow<K, V>(m: map<K, V>, k: K, v: V)
    requires k !in m
    ensures m[k := v].Values == m.Values + {v}
  {
    var m' := m[k := v];
    assert k in m' && m'[k] == v;
    forall w | w in m.Values ensures w in m'.Values {
      var j :| j in m && m[j] == w;
      assert j in m' && m'[j] == w;
    }
  }

  function Assign(t: IdTable, k: RelationKey, id: string): IdTable {
    IdTable(t.ids[k := id], t.namespaceById[id := k.namespace], t.displayNameById[id := k.name])
  }

  // The dictionaries by ID follow the one by key.
  ghost predicate NamesFollow(t: IdTable) {
    && t.namespaceById.Keys == t.displayNameById.Keys == t.ids.Values
    && (forall k :: k in t.ids ==> t.namespaceById[t.ids[k]] == k.namespace && t.displayNameById[t.ids[k]] == k.name)
  }

  lemma NamesFollowOne(t: IdTable, k: RelationKey, id: string)
    requires NamesFollow(t) && k !in t.ids && forall j :: j in t.ids ==> t.ids[j] != id
    ensures NamesFollow(Assign(t, k, id))
  {
    ValuesGrow(t.ids, k, id);
  }

  lemma AssignOne(namespaces: Namespaces, t: IdTable, k: RelationKey, before: RelationKey -> bool,
                  after: RelationKey -> bool)
    requires Assigned(namespaces, t, before) && IsKey(namespaces, k) && !before(k)
    requires forall j :: after(j) <==> before(j) || j == k
    requires RelationId(namespaces, k) !in t.namespaceById
    ensures Assigned(namespaces, Assign(t, k, RelationId(namespaces, k)), after)
  {
    hide RelationId, IsKey, NamesFollow;
    NewId(namespaces, t, before, RelationId(namespaces, k));
    NamesFollowOne(t, k, RelationId(namespaces, k));
  }

  lemma NewId(namespaces: Namespaces, t: IdTable, chosen: RelationKey -> bool, id: string)
    requires Assigned(namespaces, t, chosen) && id !in t.namespaceById
    ensures forall j :: j in t.ids ==> t.ids[j] != id && t.ids[j] in t.namespaceById
  {
    forall j | j in t.ids ensures t.ids[j] != id && t.ids[j] in t.namespaceById {
      assert t.ids[j] in t.ids.Values;
    }
  }

  lemma IdTaken(namespaces: Namespaces, t: IdTable, k: RelationKey, before: RelationKey -> bool)
    requires Assigned(namespaces, t, before) && IsKey(namespaces, k) && !before(k)
    requires RelationId(namespaces, k) in t.namespaceById
    ensures Ambiguous(namespaces)
  {
    assert RelationId(namespaces, k) in t.ids.Values;
    var j :| j in t.ids && t.ids[j] == RelationId(namespaces, k);
  }

  method AssignName(namespaces: Namespaces, name: string, t: IdTable, ghost before: RelationKey -> bool,
                    ghost after: RelationKey -> bool)
    returns (r: Option<IdTable>)
    requires name in namespaces && Assigned(namespaces, t, before)
    requires forall k: RelationKey :: k.name == name ==> !before(k)
    requires forall k: RelationKey :: after(k) <==> before(k) || k.name == name
    ensures r.Some? ==> Assigned(namespaces, r.value, after)
    ensures r.None? ==> Ambiguous(namespaces)
  {
    hide Assigned, Ambiguous, RelationId, SortedListing, TotalOrder;
    StringLeIsTotalOrder();
    var sorted := SortSet(namespaces[name], StringLe);
    var table := t;
    ghost var done := before;
    for i := 0 to |sorted|
      invariant forall k: RelationKey {:trigger done(k)} :: done(k) <==>
        before(k) || (k.name == name && k.namespace in sorted[..i])
      invariant Assigned(namespaces, table, done)
    {
      var k := RelationKey(name, sorted[i]);
      NextListed(sorted, namespaces[name], StringLe, i);
      ghost var done' := j => done(j) || j == k;
      var id := RelationId(namespaces, k);
      if id in table.namespaceById {
        IdTaken(namespaces, table, k, done);
        return None;
      }
      AssignOne(namespaces, table, k, done, done');
      table, done := Assign(table, k, id), done';
    }
    AllListed(sorted, namespaces[name], StringLe);
    SameAssigned(namespaces, table, done, after);
    r := Some(table);
  }

  lemma SameAssigned(namespaces: Namespaces, t: IdTable, before: RelationKey -> bool, after: RelationKey -> bool)
    requires Assigned(namespaces, t, before)
    requires forall k :: IsKey(namespaces, k) ==> (before(k) <==> after(k))
    ensures Assigned(namespaces, t, after)
  {
  }

  ghost predicate CompleteIds(namespaces: Namespaces, t: IdTable) {
    Assigned(namespaces, t, k => true)
  }

  lemma NothingAssigned(namespaces: Namespaces)
    ensures Assigned(namespaces, IdTable(map[], map[], map[]), k => false)
  {
  }

  lemma CompleteIsUnambiguous(namespaces: Namespaces, t: IdTable)
    requires CompleteIds(namespaces, t)
    ensures !Ambiguous(namespaces)
  {
    hide RelationId;
  }

  // The assignment raises exactly when two registered keys would share an ID.
  method AssignIds(namespaces: Namespaces) returns (r: Option<IdTable>)
    ensures r.Some? ==> CompleteIds(namespaces, r.value)
    ensures r.None? <==> Ambiguous(namespaces)
  {
    hide RelationId, Assigned, Ambiguous, SortedListing, TotalOrder;
    StringLeIsTotalOrder();
    var sorted := SortSet(namespaces.Keys, StringLe);
    var table := IdTable(map[], map[], map[]);
    ghost var done: RelationKey -> bool := k => false;
    NothingAssigned(namespaces);
    for i := 0 to |sorted|
      invariant forall k: RelationKey {:trigger done(k)} :: done(k) <==> k.name in sorted[..i]
      invariant Assigned(namespaces, table, done)
    {
      NextListed(sorted, namespaces.Keys, StringLe, i);
      ghost var done' := k => done(k) || k.name == sorted[i];
      var named := AssignName(namespaces, sorted[i], table, done, done');
      if named.None? {
        return None;
      }
      table, done := named.value, done';
    }
    AllListed(sorted, namespaces.Keys, StringLe);
    SameAssigned(namespaces, table, done, k => true);
    CompleteIsUnambiguous(namespaces, table);
    r := Some(table);
  }

  // ----- IDs, inverse names and built-ins -----

  lemma UnqualifiedHasNoColon(namespaces: Namespaces, k: RelationKey)
    ensures ':' in RelationId(namespaces, k) <==> Qualifies(namespaces, k.name)
  {
    if Qualifies(namespaces, k.name) {
      assert (k.namespace + ":" + k.name)[|k.namespace|] == ':';
    }
  }

  lemma BuiltInsArePlain(name: string)
    requires name in BUILT_IN
    ensures ':' !in name && name[0] != 'i'
  {
  }

  lemma IdIsNoBuiltIn(namespaces: Namespaces, k: RelationKey)
    ensures RelationId(namespaces, k) !in BUILT_IN && forall j :: InverseName(RelationId(namespaces, j)) !in BUILT_IN
  {
    UnqualifiedHasNoColon(namespaces, k);
    hide BUILT_IN;
    if RelationId(namespaces, k) in BUILT_IN {
      BuiltInsArePlain(RelationId(namespaces, k));
    }
    forall j ensures InverseName(RelationId(namespaces, j)) !in BUILT_IN {
      if InverseName(RelationId(namespaces, j)) in BUILT_IN {
        BuiltInsArePlain(InverseName(RelationId(namespaces, j)));
      }
    }
  }

  lemma InverseNameIsInjective(a: string, b: string)
    ensures InverseName(a) == InverseName(b) ==> a == b
    ensures InverseName(a)[|INVERSE|..] == a
  {
    assert InverseName(a)[|INVERSE|..] == a && InverseName(b)[|INVERSE|..] == b;
  }

  // No ID is the inverse name of another (or of itself).
  ghost predicate IdsApart(namespaces: Namespaces) {
    forall k, j :: IsKey(namespaces, k) && IsKey(namespaces, j) ==>
      RelationId(namespaces, k) != InverseName(RelationId(namespaces, j))
  }

  // k's namespace is "inverseOf_" followed by a text that, qualified with k's name, is j's ID.
  predicate ShadowsInverse(namespaces: Namespaces, k: RelationKey, j: RelationKey) {
    && Qualifies(namespaces, k.name) && INVERSE <= k.namespace
    && k.namespace[|INVERSE|..] + ":" + k.name == RelationId(namespaces, j)
  }

  lemma PrefixBeforeColon(namespace: string, name: string)
    requires INVERSE <= namespace + ":" + name
    ensures INVERSE <= namespace
  {
    var id := namespace + ":" + name;
    assert id[|namespace|] == ':';
    assert forall i :: 0 <= i < |INVERSE| ==> id[i] == INVERSE[i] != ':';
    assert |INVERSE| <= |namespace|;
    assert namespace == id[..|namespace|];
  }

  lemma IdThatIsInverse(namespaces: Namespaces, k: RelationKey, j: RelationKey)
    ensures RelationId(namespaces, k) == InverseName(RelationId(namespaces, j)) <==> ShadowsInverse(namespaces, k, j)
  {
    var id := RelationId(namespaces, k);
    var inner := RelationId(namespaces, j);
    if id == InverseName(inner) {
      assert INVERSE <= id;
      assert Qualifies(namespaces, k.name);
      PrefixBeforeColon(k.namespace, k.name);
      InverseNameIsInjective(inner, inner);
      assert id[|INVERSE|..] == k.namespace[|INVERSE|..] + ":" + k.name;
    }
    if ShadowsInverse(namespaces, k, j) {
      assert k.namespace == INVERSE + k.namespace[|INVERSE|..];
      assert id == INVERSE + (k.namespace[|INVERSE|..] + ":" + k.name);
    }
  }

  // IDs stay apart from inverse names iff no registered namespace shadows one; a namespace that does not
  // start with "inverseOf_" never does.
  lemma IdsApartIff(namespaces: Namespaces)
    ensures IdsApart(namespaces) <==>
      !exists k, j :: IsKey(namespaces, k) && IsKey(namespaces, j) && ShadowsInverse(namespaces, k, j)
    ensures (forall k :: IsKey(namespaces, k) ==> !(INVERSE <= k.namespace)) ==> IdsApart(namespaces)
  {
    forall k, j
      ensures RelationId(namespaces, k) == InverseName(RelationId(namespaces, j)) <==> ShadowsInverse(namespaces, k, j)
    {
      IdThatIsInverse(namespaces, k, j);
    }
  }

  lemma ShadowingNamespaceExample()
    ensures var namespaces := map["Feeds" := {"urn:a", "inverseOf_urn:a"}];
      !Ambiguous(namespaces) && !IdsApart(namespaces)
  {
    var namespaces := map["Feeds" := {"urn:a", "inverseOf_urn:a"}];
    var k, j := RelationKey("Feeds", "inverseOf_urn:a"), RelationKey("Feeds", "urn:a");
    assert "urn:a" != "inverseOf_urn:a" by { assert |"urn:a"| != |"inverseOf_urn:a"|; }
    assert |Registered(namespaces, "Feeds")| == 2;
    assert RelationId(namespaces, k) == "inverseOf_urn:a:Feeds" && RelationId(namespaces, j) == "urn:a:Feeds";
    assert InverseName("urn:a:Feeds") == "inverseOf_urn:a:Feeds";
    assert IsKey(namespaces, k) && IsKey(namespaces, j);
    assert |"inverseOf_urn:a:Feeds"| != |"urn:a:Feeds"|;
    assert forall x :: IsKey(namespaces, x) ==> x == k || x == j;
  }
}
