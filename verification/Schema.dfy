// JSON schemas with local references: what a schema means, and rewriting its references by an alias map.
module Schema {
  import JsonText
  import opened Options

  // Objects are unordered; Other stands for numbers, booleans and null.
  datatype Json = Other(repr: JsonText.ScalarText) | Str(s: string) | Arr(items: seq<Json>) | Obj(fields: Fields)
  type Fields = map<string, Json>
  type Defs = map<string, Json>

  const REF := "$ref"
  const DEFS := "$defs"
  const PREFIX := "#/$defs/"

  // The definition name of {"$ref": "#/$defs/<name>", ...}.
  function LocalRef(fields: Fields): Option<string> {
    if REF in fields && fields[REF].Str? && PREFIX <= fields[REF].s then Some(fields[REF].s[|PREFIX|..]) else None
  }

  function RefTo(name: string): Json { Str(PREFIX + name) }

  predicate Resolves(defs: Defs, name: string) {
    name in defs && defs[name].Obj?
  }

  // dict(target) updated with the reference's siblings.
  function Overlay(target: Fields, fields: Fields): Fields {
    target + (fields - {REF})
  }

  // ----- Meaning: unfold references up to a depth -----

  datatype Tree = Leaf(value: Json) | List(items: seq<Tree>) | Node(fields: map<string, Tree>) | Cut

  function Unfold(j: Json, defs: Defs, k: nat): Tree
    decreases k, j
  {
    match j
    case Arr(items) => List(seq(|items|, i requires 0 <= i < |items| => Unfold(items[i], defs, k)))
    case Obj(fields) =>
      var ref := LocalRef(fields);
      if ref.Some? && Resolves(defs, ref.value) then
        if k == 0 then Cut else Unfold(Obj(Overlay(defs[ref.value].fields, fields)), defs, k - 1)
      else Node(map key | key in fields :: Unfold(fields[key], defs, k))
    case _ => Leaf(j)
  }

  // ----- References -----

  // Every local reference anywhere in a schema.
  function Refs(j: Json): set<string> {
    match j
    case Arr(items) => set i, n | 0 <= i < |items| && n in Refs(items[i]) :: n
    case Obj(fields) =>
      (if LocalRef(fields).Some? then {LocalRef(fields).value} else {})
      + set key, n | key in fields && n in Refs(fields[key]) :: n
    case _ => {}
  }

  // ----- Rewriting -----

  type Alias = map<string, string>

  function Renamed(alias: Alias, name: string): string {
    if name in alias then alias[name] else name
  }

  // value["$ref"] = "#/$defs/<replacement>" when the name has one.
  function RewriteRef(fields: Fields, alias: Alias): Fields {
    var ref := LocalRef(fields);
    if ref.Some? && ref.value in alias then fields[REF := RefTo(alias[ref.value])] else fields
  }

  function Rewrite(j: Json, alias: Alias): Json
    decreases j, 1
  {
    match j
    case Arr(items) => Arr(seq(|items|, i requires 0 <= i < |items| => Rewrite(items[i], alias)))
    case Obj(fields) => Obj(RewriteFields(fields, alias))
    case _ => j
  }

  function RewriteFields(fields: Fields, alias: Alias): Fields
    decreases Obj(fields), 0
  {
    RewriteRef(map key | key in fields :: Rewrite(fields[key], alias), alias)
  }

  ghost predicate Idempotent(alias: Alias) {
    forall n :: n in alias ==> alias[n] in alias && alias[alias[n]] == alias[n]
  }

  lemma RefToName(name: string)
    ensures PREFIX <= PREFIX + name && (PREFIX + name)[|PREFIX|..] == name
  {
  }

  lemma RewriteRefOnly(fields: Fields, alias: Alias)
    ensures var f := RewriteRef(fields, alias);
      && f.Keys == fields.Keys
      && LocalRef(f) == (if LocalRef(fields).Some? then Some(Renamed(alias, LocalRef(fields).value)) else None)
      && (LocalRef(fields).Some? ==> f[REF] == RefTo(Renamed(alias, LocalRef(fields).value)))
      && (REF in fields && LocalRef(fields).None? ==> f[REF] == fields[REF])
      && forall key :: key in fields && key != REF ==> f[key] == fields[key]
  {
    if LocalRef(fields).Some? {
      RefToName(Renamed(alias, LocalRef(fields).value));
      assert fields[REF].s == PREFIX + LocalRef(fields).value;
    }
  }

  lemma RewrittenRef(fields: Fields, alias: Alias)
    ensures var f := RewriteFields(fields, alias);
      && f.Keys == fields.Keys
      && LocalRef(f) == (if LocalRef(fields).Some? then Some(Renamed(alias, LocalRef(fields).value)) else None)
      && forall key :: key in fields && key != REF ==> f[key] == Rewrite(fields[key], alias)
    ensures LocalRef(fields).Some? ==>
      RewriteFields(fields, alias)[REF] == RefTo(Renamed(alias, LocalRef(fields).value))
    ensures REF in fields && LocalRef(fields).None? ==> RewriteFields(fields, alias)[REF] == Rewrite(fields[REF], alias)
  {
    var raw := map key | key in fields :: Rewrite(fields[key], alias);
    RewriteRefOnly(raw, alias);
    assert REF in fields ==> (raw[REF].Str? <==> fields[REF].Str?);
    assert LocalRef(raw) == LocalRef(fields);
    hide Rewrite, RewriteRef, LocalRef;
  }

  // Rewriting a shared node a second time changes nothing.
  lemma {:induction false} RewriteIsIdempotent(j: Json, alias: Alias)
    requires Idempotent(alias)
    ensures Rewrite(Rewrite(j, alias), alias) == Rewrite(j, alias)
  {
    match j
    case Arr(items) =>
      forall i | 0 <= i < |items| ensures Rewrite(Rewrite(items[i], alias), alias) == Rewrite(items[i], alias) {
        RewriteIsIdempotent(items[i], alias);
      }
      assert Rewrite(Rewrite(j, alias), alias).items == Rewrite(j, alias).items;
    case Obj(fields) =>
      var once := RewriteFields(fields, alias);
      RewrittenRef(fields, alias);
      RewrittenRef(once, alias);
      forall key | key in fields ensures RewriteFields(once, alias)[key] == once[key] {
        RewriteIsIdempotent(fields[key], alias);
      }
      assert RewriteFields(once, alias) == once;
    case _ =>
  }

  lemma RewriteOverlay(target: Fields, fields: Fields, alias: Alias)
    ensures Overlay(RewriteFields(target, alias), RewriteFields(fields, alias))
         == RewriteFields(Overlay(target, fields), alias)
  {
    RewrittenRef(target, alias);
    RewrittenRef(fields, alias);
    RewrittenRef(Overlay(target, fields), alias);
    hide Rewrite, RewriteFields;
    var left := Overlay(RewriteFields(target, alias), RewriteFields(fields, alias));
    var right := RewriteFields(Overlay(target, fields), alias);
    assert left.Keys == right.Keys;
    assert REF in left ==> left[REF] == RewriteFields(target, alias)[REF];
    assert LocalRef(Overlay(target, fields)) == LocalRef(target);
    forall key | key in left ensures left[key] == right[key] {}
  }

  // ----- Merging equal definitions -----

  // alias sends every definition to an equal one that is its own alias.
  ghost predicate MergesEqual(defs: Defs, alias: Alias) {
    && alias.Keys == defs.Keys
    && (forall n :: n in alias ==> alias[n] in alias && alias[alias[n]] == alias[n])
    && (forall n :: n in alias ==> defs[alias[n]] == defs[n])
  }

  // Definitions are dictionaries, as _SchemaRegistry.set_definition demands.
  ghost predicate ObjectDefs(defs: Defs) {
    forall n :: n in defs ==> defs[n].Obj?
  }

  function Winners(alias: Alias): set<string> {
    set n | n in alias && alias[n] == n
  }

  function MergedDefs(defs: Defs, alias: Alias): Defs
    requires alias.Keys == defs.Keys
  {
    map n | n in Winners(alias) :: Rewrite(defs[n], alias)
  }

  // At every depth, the rewritten schema over the merged definitions unfolds to the same tree.
  lemma {:induction false} MergePreservesMeaning(j: Json, defs: Defs, alias: Alias, k: nat)
    requires MergesEqual(defs, alias) && ObjectDefs(defs)
    ensures Unfold(Rewrite(j, alias), MergedDefs(defs, alias), k) == Unfold(j, defs, k)
    decreases k, j
  {
    hide RewriteFields, MergedDefs, Overlay, LocalRef;
    var merged := MergedDefs(defs, alias);
    match j
    case Arr(items) =>
      forall i | 0 <= i < |items| ensures Unfold(Rewrite(items[i], alias), merged, k) == Unfold(items[i], defs, k) {
        MergePreservesMeaning(items[i], defs, alias, k);
      }
      assert Unfold(Rewrite(j, alias), merged, k).items == Unfold(j, defs, k).items;
    case Obj(fields) =>
      var ref := LocalRef(fields);
      if ref.Some? && Resolves(defs, ref.value) {
        MergeResolved(fields, defs, alias);
        if k > 0 {
          MergePreservesMeaning(Obj(Overlay(defs[ref.value].fields, fields)), defs, alias, k - 1);
        }
      } else {
        MergeUnresolved(fields, defs, alias);
        forall key | key in fields
          ensures Unfold(Rewrite(fields[key], alias), merged, k) == Unfold(fields[key], defs, k)
        {
          MergePreservesMeaning(fields[key], defs, alias, k);
        }
        SameNodes(fields, RewriteFields(fields, alias), defs, merged, k);
      }
    case _ =>
  }

  lemma SameNodes(fields: Fields, others: Fields, defs: Defs, otherDefs: Defs, k: nat)
    requires fields.Keys == others.Keys
    requires LocalRef(fields).None? || !Resolves(defs, LocalRef(fields).value)
    requires LocalRef(others).None? || !Resolves(otherDefs, LocalRef(others).value)
    requires forall key :: key in fields ==> Unfold(others[key], otherDefs, k) == Unfold(fields[key], defs, k)
    ensures Unfold(Obj(others), otherDefs, k) == Unfold(Obj(fields), defs, k)
  {
    assert Unfold(Obj(others), otherDefs, k).fields == Unfold(Obj(fields), defs, k).fields;
  }

  lemma MergeResolved(fields: Fields, defs: Defs, alias: Alias)
    requires MergesEqual(defs, alias) && LocalRef(fields).Some? && Resolves(defs, LocalRef(fields).value)
    ensures var f, merged := RewriteFields(fields, alias), MergedDefs(defs, alias);
      && LocalRef(f).Some? && Resolves(merged, LocalRef(f).value)
      && Obj(Overlay(merged[LocalRef(f).value].fields, f)) ==
        Rewrite(Obj(Overlay(defs[LocalRef(fields).value].fields, fields)), alias)
  {
    RewrittenRef(fields, alias);
    var name := LocalRef(fields).value;
    var winner := alias[name];
    assert winner in Winners(alias) && MergedDefs(defs, alias)[winner] == Rewrite(defs[name], alias);
    RewriteOverlay(defs[name].fields, fields, alias);
    assert Rewrite(defs[name], alias) == Obj(Rewrite(Obj(defs[name].fields), alias).fields);
  }

  lemma MergeUnresolved(fields: Fields, defs: Defs, alias: Alias)
    requires MergesEqual(defs, alias) && ObjectDefs(defs)
    requires LocalRef(fields).None? || !Resolves(defs, LocalRef(fields).value)
    ensures var f := RewriteFields(fields, alias);
      && (LocalRef(f).None? || !Resolves(MergedDefs(defs, alias), LocalRef(f).value))
      && f.Keys == fields.Keys && forall key :: key in fields ==> f[key] == Rewrite(fields[key], alias)
  {
    RewrittenRef(fields, alias);
    if LocalRef(fields).Some? {
      assert fields[REF].s == PREFIX + LocalRef(fields).value;
    }
  }

  // n is the new name of a reference of j.
  ghost predicate IsRenamedRef(j: Json, alias: Alias, n: string) {
    exists o :: o in Refs(j) && Renamed(alias, o) == n
  }

  // References are renamed and nothing else.
  lemma {:induction false} RewrittenRefs(j: Json, alias: Alias, n: string)
    ensures n in Refs(Rewrite(j, alias)) <==> IsRenamedRef(j, alias, n)
  {
    match j
    case Arr(items) =>
      var rewritten := Rewrite(j, alias).items;
      forall i | 0 <= i < |items| ensures n in Refs(rewritten[i]) <==> IsRenamedRef(items[i], alias, n) {
        RewrittenRefs(items[i], alias, n);
      }
      RefsOfItems(items, alias, n);
      assert n in Refs(Arr(rewritten)) <==> exists i :: 0 <= i < |rewritten| && n in Refs(rewritten[i]);
    case Obj(fields) =>
      RewrittenRef(fields, alias);
      var f := RewriteFields(fields, alias);
      forall key | key in fields ensures n in Refs(f[key]) <==> IsRenamedRef(fields[key], alias, n) {
        if key != REF || LocalRef(fields).None? {
          RewrittenRefs(fields[key], alias, n);
        }
      }
      RefsOfFields(fields, alias, n);
      assert n in Refs(Obj(f)) <==> LocalRef(f) == Some(n) || exists key :: key in f && n in Refs(f[key]);
    case _ =>
  }

  lemma RefsOfItems(items: seq<Json>, alias: Alias, n: string)
    ensures IsRenamedRef(Arr(items), alias, n) <==> exists i :: 0 <= i < |items| && IsRenamedRef(items[i], alias, n)
  {
    if i :| 0 <= i < |items| && IsRenamedRef(items[i], alias, n) {
      var o :| o in Refs(items[i]) && Renamed(alias, o) == n;
      assert o in Refs(Arr(items));
    }
  }

  lemma RefsOfFields(fields: Fields, alias: Alias, n: string)
    ensures IsRenamedRef(Obj(fields), alias, n) <==>
      (LocalRef(fields).Some? && Renamed(alias, LocalRef(fields).value) == n)
        || exists key :: key in fields && IsRenamedRef(fields[key], alias, n)
  {
    if key :| key in fields && IsRenamedRef(fields[key], alias, n) {
      var o :| o in Refs(fields[key]) && Renamed(alias, o) == n;
      assert o in Refs(Obj(fields));
    }
    if LocalRef(fields).Some? {
      assert LocalRef(fields).value in Refs(Obj(fields));
    }
  }

  lemma ResolvedStaysResolved(j: Json, defs: Defs, alias: Alias, n: string)
    requires MergesEqual(defs, alias) && n in Refs(Rewrite(j, alias))
    ensures exists o ::
      o in Refs(j) && Renamed(alias, o) == n && (Resolves(MergedDefs(defs, alias), n) <==> Resolves(defs, o))
  {
    RewrittenRefs(j, alias, n);
    assert IsRenamedRef(j, alias, n);
    var o :| o in Refs(j) && Renamed(alias, o) == n;
    assert o in alias ==> n in Winners(alias);
  }

  // ----- The whole schema document -----

  function DefsOf(fields: Fields): Defs {
    if DEFS in fields && fields[DEFS].Obj? then fields[DEFS].fields else map[]
  }

  // The document without its definitions, read in the light of its definitions.
  function Meaning(fields: Fields, k: nat): Tree {
    Unfold(Obj(fields - {DEFS}), DefsOf(fields), k)
  }

  function Merged(fields: Fields, alias: Alias): Fields
    requires alias.Keys == DefsOf(fields).Keys
  {
    RewriteFields(fields, alias)[DEFS := Obj(MergedDefs(DefsOf(fields), alias))]
  }

  lemma MergedKeepsMeaning(fields: Fields, alias: Alias, k: nat)
    requires MergesEqual(DefsOf(fields), alias) && ObjectDefs(DefsOf(fields))
    ensures Meaning(Merged(fields, alias), k) == Meaning(fields, k)
  {
    hide Unfold, MergedDefs;
    var body := fields - {DEFS};
    assert LocalRef(body) == LocalRef(fields);
    RewrittenRef(fields, alias);
    RewrittenRef(body, alias);
    hide Rewrite, RewriteFields;
    assert Merged(fields, alias) - {DEFS} == RewriteFields(body, alias);
    RewriteObject(body, alias);
    MergePreservesMeaning(Obj(body), DefsOf(fields), alias, k);
  }

  // An alias map that renames nothing rewrites nothing.
  lemma {:induction false} RewriteWithoutRenaming(j: Json, alias: Alias)
    requires forall n :: n in alias ==> alias[n] == n
    ensures Rewrite(j, alias) == j
  {
    match j
    case Arr(items) =>
      forall i | 0 <= i < |items|
        ensures Rewrite(items[i], alias) == items[i]
      {
        RewriteWithoutRenaming(items[i], alias);
      }
      assert Rewrite(j, alias).items == items;
    case Obj(fields) =>
      RewrittenRef(fields, alias);
      forall key | key in fields ensures RewriteFields(fields, alias)[key] == fields[key] {
        RewriteWithoutRenaming(fields[key], alias);
        if key == REF && LocalRef(fields).Some? {
          assert fields[REF].s == PREFIX + LocalRef(fields).value;
        }
      }
      assert RewriteFields(fields, alias) == fields;
    case _ =>
  }

  lemma MergedWithoutRenaming(fields: Fields, alias: Alias)
    requires alias.Keys == DefsOf(fields).Keys && DEFS in fields && fields[DEFS].Obj?
    requires forall n :: n in alias ==> alias[n] == n
    ensures Merged(fields, alias) == fields
  {
    RewriteWithoutRenaming(Obj(fields), alias);
    assert RewriteFields(fields, alias) == fields;
    forall n | n in DefsOf(fields) ensures Rewrite(DefsOf(fields)[n], alias) == DefsOf(fields)[n] {
      RewriteWithoutRenaming(DefsOf(fields)[n], alias);
    }
    assert MergedDefs(DefsOf(fields), alias) == DefsOf(fields);
  }

  lemma RewriteObject(fields: Fields, alias: Alias)
    ensures Rewrite(Obj(fields), alias) == Obj(RewriteFields(fields, alias))
  {
  }
}
