// _dedupe_defs_and_rewrite_local_refs on a schema document whose containers are shared.
module SchemaDedupe {
  import opened Schema
  import opened SchemaMerge

  lemma {:induction false} BelowHasLowerRank(d: Container, v: Value, snap: Snap, rank: Rank)
    requires Ranked(snap, rank) && Inside(v, snap) && Below(d, v, snap, rank)
    ensures d in snap && rank[d] <= rank[v.c]
    decreases if v.Ref? then rank[v.c] + 1 else 0
  {
    if d != v.c {
      match snap[v.c]
      case ListOf(items) =>
        var i :| 0 <= i < |items| && Below(d, items[i], snap, rank);
        BelowHasLowerRank(d, items[i], snap, rank);
      case DictOf(_, fields) =>
        var key :| key in fields && Below(d, fields[key], snap, rank);
        BelowHasLowerRank(d, fields[key], snap, rank);
    }
  }

  // A value only depends on the containers below it.
  lemma {:induction false} JsonFrame(v: Value, snap: Snap, rank: Rank, other: Snap, otherRank: Rank)
    requires Ranked(snap, rank) && Ranked(other, otherRank) && Inside(v, snap) && Inside(v, other)
    requires forall d :: d in snap && Below(d, v, snap, rank) ==> d in other && other[d] == snap[d]
    ensures JsonOf(v, other, otherRank) == JsonOf(v, snap, rank)
    decreases if v.Ref? then rank[v.c] + 1 else 0
  {
    if v.Ref? {
      assert Below(v.c, v, snap, rank);
      match snap[v.c]
      case ListOf(items) =>
        forall i | 0 <= i < |items| ensures JsonOf(items[i], other, otherRank) == JsonOf(items[i], snap, rank) {
          JsonFrame(items[i], snap, rank, other, otherRank);
        }
        assert JsonOf(v, other, otherRank).items == JsonOf(v, snap, rank).items;
      case DictOf(_, fields) =>
        forall key | key in fields ensures JsonOf(fields[key], other, otherRank) == JsonOf(fields[key], snap, rank) {
          JsonFrame(fields[key], snap, rank, other, otherRank);
        }
        assert JsonOf(v, other, otherRank).fields == JsonOf(v, snap, rank).fields;
    }
  }

  // The document's $defs dictionary, if it has one.
  ghost predicate DefsDict(snap: Snap, root: Container, defs: Container) {
    && root in snap && snap[root].DictOf? && DEFS in snap[root].fields && snap[root].fields[DEFS] == Ref(defs)
    && defs in snap && snap[defs].DictOf?
  }

  lemma DefsOfDocument(snap: Snap, rank: Rank, root: Container, defs: Container)
    requires Ranked(snap, rank) && DefsDict(snap, root, defs)
    ensures var before := JsonOf(Ref(root), snap, rank).fields;
      DEFS in before && before[DEFS].Obj? && DefsOf(before) == JsonFields(snap[defs].fields, snap, rank)
    ensures rank[defs] < rank[root]
  {
  }

  // The state between rewriting and installing the merged dictionary.
  ghost predicate RewrittenBelow(snap: Snap, rank: Rank, root: Container, alias: Alias, now: Snap) {
    && Ranked(snap, rank) && Ranked(now, rank) && root in snap && now.Keys == snap.Keys
    && forall d :: d in snap && Below(d, Ref(root), snap, rank) ==> now[d] == Updated(snap[d], alias)
  }

  lemma DefinitionRewritten(snap: Snap, rank: Rank, root: Container, defs: Container, alias: Alias, now: Snap,
                            n: string)
    requires RewrittenBelow(snap, rank, root, alias, now) && DefsDict(snap, root, defs) && n in snap[defs].fields
    ensures JsonOf(snap[defs].fields[n], now, rank) == Rewrite(JsonOf(snap[defs].fields[n], snap, rank), alias)
  {
    var v := snap[defs].fields[n];
    forall d | d in snap && Below(d, v, snap, rank) ensures Below(d, Ref(root), snap, rank) {
      assert Below(d, Ref(defs), snap, rank);
      assert Below(d, snap[root].fields[DEFS], snap, rank);
    }
    JsonRewritten(v, snap, now, rank, alias);
  }

  function Kept(order: seq<string>, alias: Alias): (kept: seq<string>)
    requires forall n :: n in order ==> n in alias
    ensures forall n :: n in kept <==> n in order && alias[n] == n
    ensures (forall i, j :: 0 <= i < j < |order| ==> order[i] != order[j]) ==>
      forall i, j :: 0 <= i < j < |kept| ==> kept[i] != kept[j]
  {
    if order == [] then [] else
    var init, last := order[..|order| - 1], order[|order| - 1];
    assert order == init + [last];
    Kept(init, alias) + if alias[last] == last then [last] else []
  }

  // One run of the merge: before it, after the rewriting, and after the dictionary `dict` of winners is installed.
  datatype Install = Install(snap: Snap, rank: Rank, root: Container, defs: Container, alias: Alias, now: Snap,
                             dict: Container, merged: Content, after: Snap, afterRank: Rank)

  ghost predicate Installs(x: Install) {
    && RewrittenBelow(x.snap, x.rank, x.root, x.alias, x.now) && DefsDict(x.snap, x.root, x.defs) && x.dict !in x.snap
    && x.alias.Keys == x.snap[x.defs].fields.Keys
    && x.merged.DictOf? && x.merged.fields == (map n | n in Winners(x.alias) :: x.snap[x.defs].fields[n])
    && (forall n :: n in x.merged.order <==> n in Winners(x.alias))
    && (forall i, j :: 0 <= i < j < |x.merged.order| ==> x.merged.order[i] != x.merged.order[j])
    && x.now[x.root].DictOf? && DEFS in x.now[x.root].fields
    && x.after ==
      x.now[x.root := DictOf(x.now[x.root].order, x.now[x.root].fields[DEFS := Ref(x.dict)])][x.dict := x.merged]
    && x.afterRank == x.rank[x.dict := x.rank[x.defs]]
  }

  lemma JsonOfDict(c: Container, snap: Snap, rank: Rank)
    requires Ranked(snap, rank) && c in snap && snap[c].DictOf?
    ensures JsonOf(Ref(c), snap, rank) == Obj(JsonFields(snap[c].fields, snap, rank))
  {
  }

  lemma DictFieldsInside(c: Container, snap: Snap, rank: Rank)
    requires Ranked(snap, rank) && c in snap && snap[c].DictOf?
    ensures forall key :: key in snap[c].fields ==> Inside(snap[c].fields[key], snap)
  {
    assert WellFormed(snap[c], snap, rank, rank[c]);
  }

  lemma WellFormedStays(content: Content, snap: Snap, rank: Rank, above: nat, other: Snap, otherRank: Rank)
    requires WellFormed(content, snap, rank, above) && snap.Keys == rank.Keys
    requires forall c :: c in snap ==> c in other && c in otherRank && otherRank[c] == rank[c]
    ensures WellFormed(content, other, otherRank, above)
  {
  }

  lemma InstallRanked(x: Install)
    requires Installs(x)
    ensures Ranked(x.after, x.afterRank)
  {
    RootAboveDefs(x);
    assert x.after.Keys == x.afterRank.Keys;
    forall c | c in x.after ensures WellFormed(x.after[c], x.after, x.afterRank, x.afterRank[c]) {
      hide WellFormed;
      if c == x.dict {
        WinnersWellFormed(x);
      } else {
        NowWellFormed(x, c);
      }
    }
  }

  lemma RootAboveDefs(x: Install)
    requires Installs(x)
    ensures x.rank[x.defs] < x.rank[x.root]
    ensures WellFormed(x.snap[x.defs], x.snap, x.rank, x.rank[x.defs])
  {
    assert WellFormed(x.snap[x.root], x.snap, x.rank, x.rank[x.root]);
  }

  lemma WinnersWellFormed(x: Install)
    requires Installs(x)
    ensures WellFormed(x.merged, x.after, x.afterRank, x.rank[x.defs])
  {
    RootAboveDefs(x);
    WellFormedStays(x.snap[x.defs], x.snap, x.rank, x.rank[x.defs], x.after, x.afterRank);
  }

  lemma NowWellFormed(x: Install, c: Container)
    requires Installs(x) && c in x.now
    ensures WellFormed(x.after[c], x.after, x.afterRank, x.rank[c])
  {
    hide Below, Updated, Kept;
    RootAboveDefs(x);
    assert WellFormed(x.now[c], x.now, x.rank, x.rank[c]);
    WellFormedStays(x.now[c], x.now, x.rank, x.rank[c], x.after, x.afterRank);
  }

  // Values ranked below the document are the same before and after the installation.
  lemma UntouchedBelow(x: Install, v: Value, above: nat)
    requires Installs(x) && Ranked(x.after, x.afterRank)
    requires ChildOf(v, x.now, x.rank, above) && above <= x.rank[x.root]
    ensures JsonOf(v, x.after, x.afterRank) == JsonOf(v, x.now, x.rank)
  {
    forall d | d in x.now && Below(d, v, x.now, x.rank) ensures x.after[d] == x.now[d] {
      BelowHasLowerRank(d, v, x.now, x.rank);
    }
    JsonFrame(v, x.now, x.rank, x.after, x.afterRank);
  }

  lemma InstalledWinner(x: Install, n: string)
    requires Installs(x) && Ranked(x.after, x.afterRank) && n in Winners(x.alias)
    ensures JsonOf(x.snap[x.defs].fields[n], x.after, x.afterRank) ==
      Rewrite(JsonOf(x.snap[x.defs].fields[n], x.snap, x.rank), x.alias)
  {
    hide JsonOf, Rewrite;
    RootAboveDefs(x);
    DefinitionRewritten(x.snap, x.rank, x.root, x.defs, x.alias, x.now, n);
    UntouchedBelow(x, x.snap[x.defs].fields[n], x.rank[x.defs]);
  }

  lemma InstallDefs(x: Install)
    requires Installs(x) && Ranked(x.after, x.afterRank)
    ensures JsonOf(Ref(x.dict), x.after, x.afterRank) ==
      Obj(MergedDefs(JsonFields(x.snap[x.defs].fields, x.snap, x.rank), x.alias))
  {
    hide JsonOf, Rewrite, WellFormed, Ranked, Below, Updated;
    var fields := x.snap[x.defs].fields;
    assert x.after[x.dict] == x.merged;
    DictFieldsInside(x.defs, x.snap, x.rank);
    forall n | n in Winners(x.alias)
      ensures JsonOf(fields[n], x.after, x.afterRank) == Rewrite(JsonOf(fields[n], x.snap, x.rank), x.alias)
    {
      InstalledWinner(x, n);
    }
    JsonOfDict(x.dict, x.after, x.afterRank);
    DictFieldsInside(x.dict, x.after, x.afterRank);
    assert JsonFields(x.merged.fields, x.after, x.afterRank) == MergedDefs(JsonFields(fields, x.snap, x.rank), x.alias);
  }

  lemma RestStays(x: Install, key: string)
    requires Installs(x) && Ranked(x.after, x.afterRank) && key in x.now[x.root].fields && key != DEFS
    ensures Inside(x.now[x.root].fields[key], x.now) && Inside(x.now[x.root].fields[key], x.after)
    ensures JsonOf(x.now[x.root].fields[key], x.after, x.afterRank) == JsonOf(x.now[x.root].fields[key], x.now, x.rank)
  {
    hide JsonOf;
    assert WellFormed(x.now[x.root], x.now, x.rank, x.rank[x.root]);
    UntouchedBelow(x, x.now[x.root].fields[key], x.rank[x.root]);
  }

  lemma RootRewritten(x: Install)
    requires Installs(x)
    ensures forall key :: key in x.now[x.root].fields ==> Inside(x.now[x.root].fields[key], x.now)
    ensures JsonFields(x.now[x.root].fields, x.now, x.rank) ==
      RewriteFields(JsonFields(x.snap[x.root].fields, x.snap, x.rank), x.alias)
  {
    JsonRewritten(Ref(x.root), x.snap, x.now, x.rank, x.alias);
    JsonOfDict(x.root, x.now, x.rank);
    JsonOfDict(x.root, x.snap, x.rank);
  }

  lemma InstallRest(x: Install)
    requires Installs(x) && Ranked(x.after, x.afterRank)
    ensures var after := RewriteFields(JsonFields(x.snap[x.root].fields, x.snap, x.rank), x.alias);
      && x.now[x.root].fields.Keys == after.Keys
      && forall key :: key in after && key != DEFS ==>
           Inside(x.now[x.root].fields[key], x.after)
             && JsonOf(x.now[x.root].fields[key], x.after, x.afterRank) == after[key]
  {
    hide JsonOf, Rewrite, RewriteFields, Ranked, Below, Updated, WellFormed;
    RootRewritten(x);
    forall key | key in x.now[x.root].fields && key != DEFS
      ensures Inside(x.now[x.root].fields[key], x.after)
      ensures JsonOf(x.now[x.root].fields[key], x.after, x.afterRank) ==
        JsonOf(x.now[x.root].fields[key], x.now, x.rank)
    {
      RestStays(x, key);
    }
  }

  // Installing the dictionary of winners yields the merged document.
  lemma InstallMerged(x: Install)
    requires Installs(x)
    ensures Ranked(x.after, x.afterRank)
    ensures var before := JsonFields(x.snap[x.root].fields, x.snap, x.rank);
      x.alias.Keys == DefsOf(before).Keys && JsonOf(Ref(x.root), x.after, x.afterRank) == Obj(Merged(before, x.alias))
  {
    hide JsonOf, Rewrite, RewriteFields, Ranked, WellFormed;
    JsonOfDict(x.root, x.snap, x.rank);
    DefsOfDocument(x.snap, x.rank, x.root, x.defs);
    InstallRanked(x);
    InstallDefs(x);
    InstallRest(x);
    JsonOfDict(x.root, x.after, x.afterRank);
    DictFieldsInside(x.root, x.snap, x.rank);
    DictFieldsInside(x.root, x.after, x.afterRank);
    var before := JsonFields(x.snap[x.root].fields, x.snap, x.rank);
    var after := JsonFields(x.after[x.root].fields, x.after, x.afterRank);
    assert after.Keys == Merged(before, x.alias).Keys;
    assert after == Merged(before, x.alias);
  }

  lemma RewrittenSnapshot(snap: Snap, rank: Rank, alias: Alias, now: Snap)
    requires Ranked(snap, rank) && now.Keys == snap.Keys
    requires forall c :: c in snap ==> now[c] == snap[c] || now[c] == Updated(snap[c], alias)
    ensures Ranked(now, rank)
  {
    forall c | c in now ensures WellFormed(now[c], now, rank, rank[c]) {
      UpdatedWellFormed(snap[c], alias, snap, rank, rank[c]);
      WellFormedStays(now[c], snap, rank, rank[c], now, rank);
    }
  }

  // The document as JSON.
  ghost function Document(root: Container, snap: Snap, rank: Rank): Fields
    requires Ranked(snap, rank) && root in snap && snap[root].DictOf?
  {
    JsonOf(Ref(root), snap, rank).fields
  }

  // What the merge promises: the definitions are merged under the first-equal alias map,
  // and the document means the same at every depth.
  ghost predicate MergeOf(before: Fields, after: Fields, order: seq<string>, alias: Alias) {
    && FirstEqual(order, DefsOf(before), alias) && alias.Keys == DefsOf(before).Keys
    && after == Merged(before, alias)
    && (ObjectDefs(DefsOf(before)) ==> forall k: nat :: Meaning(after, k) == Meaning(before, k))
  }

  // A document whose definitions dictionary is missing, not a dictionary, or merged.
  ghost predicate HasDefs(snap: Snap, root: Container) {
    root in snap && snap[root].DictOf? && DEFS in snap[root].fields && snap[root].fields[DEFS].Ref?
    && snap[root].fields[DEFS].c in snap && snap[snap[root].fields[DEFS].c].DictOf?
  }

  ghost predicate IsMerge(root: Container, snap: Snap, rank: Rank, after: Snap, afterRank: Rank, order: seq<string>,
                          alias: Alias) {
    && Ranked(snap, rank) && root in snap && snap[root].DictOf?
    && Ranked(after, afterRank) && root in after && after[root].DictOf?
    && MergeOf(Document(root, snap, rank), Document(root, after, afterRank), order, alias)
  }

  lemma InstallsHolds(x: Install)
    requires Ranked(x.snap, x.rank) && Ranked(x.now, x.rank) && DefsDict(x.snap, x.root, x.defs) && x.dict !in x.snap
    requires x.now.Keys == x.snap.Keys
    requires forall d :: d in BelowSet(Ref(x.root), x.snap, x.rank) ==> x.now[d] == Updated(x.snap[d], x.alias)
    requires x.alias.Keys == x.snap[x.defs].fields.Keys
    requires x.merged ==
      DictOf(Kept(x.snap[x.defs].order, x.alias), map n | n in Winners(x.alias) :: x.snap[x.defs].fields[n])
    requires x.now[x.root].DictOf? && DEFS in x.now[x.root].fields
    requires x.after ==
      x.now[x.root := DictOf(x.now[x.root].order, x.now[x.root].fields[DEFS := Ref(x.dict)])][x.dict := x.merged]
    requires x.afterRank == x.rank[x.dict := x.rank[x.defs]]
    ensures Installs(x)
  {
    assert WellFormed(x.snap[x.defs], x.snap, x.rank, x.rank[x.defs]);
    forall d | d in x.snap && Below(d, Ref(x.root), x.snap, x.rank) ensures x.now[d] == Updated(x.snap[d], x.alias) {
      assert d in BelowSet(Ref(x.root), x.snap, x.rank);
    }
  }

  lemma RootIsUpdated(root: Container, snap: Snap, rank: Rank, alias: Alias, defs: Container)
    requires Ranked(snap, rank) && DefsDict(snap, root, defs)
    ensures root in BelowSet(Ref(root), snap, rank)
    ensures var u := Updated(snap[root], alias); u.DictOf? && DEFS in u.fields && u.order == snap[root].order
  {
  }

  // Rewrite the whole document, then replace its definitions by the dictionary of winners.
  method InstallWinners(root: Container, defs: Container, order: seq<string>, definitions: map<string, Value>,
                        alias: Alias,
                        ghost snap: Snap, ghost rank: Rank) returns (ghost x: Install)
    requires Ranked(snap, rank) && DefsDict(snap, root, defs) && snap[defs] == DictOf(order, definitions)
    requires forall c :: c in snap ==> c.content == snap[c]
    requires Idempotent(alias) && alias.Keys == definitions.Keys && forall n :: n in order ==> n in alias
    modifies snap.Keys
    ensures Installs(x) && x.snap == snap && x.rank == rank && x.root == root && x.alias == alias
    ensures forall c :: c in x.after ==> c.content == x.after[c]
  {
    hide Below, WellFormed, Updated, Ranked, Kept, Idempotent, Installs;
    RewriteLocalRefs(Ref(root), alias, snap, rank, {});
    ghost var now: Snap := map c | c in snap :: c.content;
    RewrittenSnapshot(snap, rank, alias, now);
    RootIsUpdated(root, snap, rank, alias, defs);
    var merged := DictOf(Kept(order, alias), map n | n in Winners(alias) :: definitions[n]);
    var dict := new Container(merged);
    root.content := DictOf(root.content.order, root.content.fields[DEFS := Ref(dict)]);
    x := Install(snap, rank, root, defs, alias, now, dict, merged, now[root := root.content][dict := merged],
                 rank[dict := rank[defs]]);
    InstallsHolds(x);
  }

  lemma InstalledIsMerge(x: Install, order: seq<string>)
    requires Installs(x)
    requires FirstEqual(order, JsonFields(x.snap[x.defs].fields, x.snap, x.rank), x.alias)
    requires MergesEqual(JsonFields(x.snap[x.defs].fields, x.snap, x.rank), x.alias)
    ensures IsMerge(x.root, x.snap, x.rank, x.after, x.afterRank, order, x.alias)
  {
    hide JsonOf, Merged, MergeOf, FirstEqual, MergesEqual, WellFormed;
    InstallMerged(x);
    DefsOfDocument(x.snap, x.rank, x.root, x.defs);
    JsonOfDict(x.root, x.snap, x.rank);
    MergeKeepsMeaning(Document(x.root, x.snap, x.rank), order, x.alias);
  }

  lemma UnchangedIsMerge(snap: Snap, rank: Rank, root: Container, defs: Container, order: seq<string>, alias: Alias)
    requires Ranked(snap, rank) && DefsDict(snap, root, defs)
    requires FirstEqual(order, JsonFields(snap[defs].fields, snap, rank), alias)
    requires MergesEqual(JsonFields(snap[defs].fields, snap, rank), alias)
    requires forall n :: n in alias ==> alias[n] == n
    ensures IsMerge(root, snap, rank, snap, rank, order, alias)
  {
    hide JsonOf, Merged, MergeOf, FirstEqual;
    DefsOfDocument(snap, rank, root, defs);
    JsonOfDict(root, snap, rank);
    MergeKeepsMeaning(Document(root, snap, rank), order, alias);
    MergedWithoutRenaming(Document(root, snap, rank), alias);
  }

  method DedupeDefsAndRewriteLocalRefs(root: Container, ghost snap: Snap, ghost rank: Rank)
    returns (ghost alias: Alias, ghost after: Snap, ghost afterRank: Rank)
    requires Ranked(snap, rank) && root in snap && snap[root].DictOf?
    requires forall c :: c in snap ==> c.content == snap[c]
    modifies snap.Keys
    ensures forall c :: c in after ==> c.content == after[c]
    ensures HasDefs(snap, root) ==>
      IsMerge(root, snap, rank, after, afterRank, snap[snap[root].fields[DEFS].c].order, alias)
    ensures !HasDefs(snap, root) ==> after == snap && afterRank == rank
  {
    hide JsonOf, IsMerge, FirstEqual, MergesEqual, WellFormed, Ranked, Installs;
    alias, after, afterRank := map[], snap, rank;
    DictFieldsInside(root, snap, rank);
    var fields := root.content.fields;
    if DEFS !in fields || !fields[DEFS].Ref? {
      return;
    }
    var defs := fields[DEFS].c;
    assert Inside(fields[DEFS], snap);
    if !defs.content.DictOf? {
      return;
    }
    DictFieldsInside(defs, snap, rank);
    var order, definitions := defs.content.order, defs.content.fields;
    OrderOfDict(defs, snap, rank);
    var aliasByName := FindAliases(order, definitions, snap, rank);
    alias := aliasByName;
    AliasOfDefs(order, JsonFields(definitions, snap, rank), alias);
    if forall n | n in aliasByName :: aliasByName[n] == n {
      UnchangedIsMerge(snap, rank, root, defs, order, alias);
      return;
    }
    ghost var x := InstallWinners(root, defs, order, definitions, aliasByName, snap, rank);
    InstalledDefs(x, defs);
    InstalledIsMerge(x, order);
    after, afterRank := x.after, x.afterRank;
  }

  lemma OrderOfDict(c: Container, snap: Snap, rank: Rank)
    requires Ranked(snap, rank) && c in snap && snap[c].DictOf?
    ensures forall key :: key in snap[c].order <==> key in snap[c].fields
    ensures forall i, j :: 0 <= i < j < |snap[c].order| ==> snap[c].order[i] != snap[c].order[j]
  {
    assert WellFormed(snap[c], snap, rank, rank[c]);
  }

  lemma AliasOfDefs(order: seq<string>, defs: Defs, alias: Alias)
    requires FirstEqual(order, defs, alias) && forall n :: n in defs <==> n in order
    ensures MergesEqual(defs, alias) && Idempotent(alias)
    ensures alias.Keys == defs.Keys
  {
    FirstEqualMerges(order, defs, alias);
  }

  lemma InstalledDefs(x: Install, defs: Container)
    requires Installs(x) && DefsDict(x.snap, x.root, defs)
    ensures x.defs == defs
  {
  }

  lemma MergeKeepsMeaning(before: Fields, order: seq<string>, alias: Alias)
    requires MergesEqual(DefsOf(before), alias) && FirstEqual(order, DefsOf(before), alias)
    ensures MergeOf(before, Merged(before, alias), order, alias)
  {
    if ObjectDefs(DefsOf(before)) {
      forall k: nat ensures Meaning(Merged(before, alias), k) == Meaning(before, k) {
        MergedKeepsMeaning(before, alias, k);
      }
    }
  }
}
