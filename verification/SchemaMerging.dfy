// What merging equal definitions does to a document, member by member.
module SchemaMerging {
  import opened Schema
  import opened SchemaMerge
  import opened SchemaDedupe
  import opened Options

  // w is the first definition, in dictionary order, that equals the definition n.
  ghost predicate IsFirstEqual(order: seq<string>, defs: Defs, n: string, w: string) {
    && n in defs && w in defs
    && exists i :: 0 <= i < |order| && order[i] == w && defs[w] == defs[n]
                   && forall k :: 0 <= k < i ==> order[k] in defs && defs[order[k]] != defs[n]
  }

  // k is j with every "#/$defs/<name>" under "$ref" renamed, and nothing else changed.
  ghost predicate IsRenamed(j: Json, k: Json, rename: map<string, string>) {
    match j
    case Arr(items) =>
      k.Arr? && |k.items| == |items| && forall i :: 0 <= i < |items| ==> IsRenamed(items[i], k.items[i], rename)
    case Obj(fields) =>
      && k.Obj? && k.fields.Keys == fields.Keys
      && forall key :: key in fields ==>
           if key == "$ref" && NamesDefinition(fields[key], rename)
           then k.fields[key] == Str("#/$defs/" + rename[fields[key].s[|"#/$defs/"|..]])
           else IsRenamed(fields[key], k.fields[key], rename)
    case _ => j == k
  }

  ghost predicate NamesDefinition(j: Json, rename: map<string, string>) {
    j.Str? && "#/$defs/" <= j.s && j.s[|"#/$defs/"|..] in rename
  }

  lemma {:induction false} RewriteRenames(j: Json, alias: Alias)
    ensures IsRenamed(j, Rewrite(j, alias), alias)
  {
    match j
    case Arr(items) =>
      forall i | 0 <= i < |items| ensures IsRenamed(items[i], Rewrite(j, alias).items[i], alias) {
        RewriteRenames(items[i], alias);
      }
    case Obj(fields) =>
      RewrittenRef(fields, alias);
      var f := RewriteFields(fields, alias);
      forall key | key in fields && !(key == REF && NamesDefinition(fields[key], alias))
        ensures IsRenamed(fields[key], f[key], alias)
      {
        RewriteRenames(fields[key], alias);
        OtherMember(fields, alias, key);
      }
    case _ =>
  }

  lemma OtherMember(fields: Fields, alias: Alias, key: string)
    requires key in fields && !(key == REF && NamesDefinition(fields[key], alias))
    ensures key in RewriteFields(fields, alias) && RewriteFields(fields, alias)[key] == Rewrite(fields[key], alias)
  {
    RewrittenRef(fields, alias);
    if key == REF && LocalRef(fields).Some? {
      assert fields[REF].s == PREFIX + LocalRef(fields).value;
    }
  }

  // A merged document keeps the first of equal definitions, under its own name and with its references renamed; every
  // other member keeps its place with its references renamed to those kept.
  lemma MergeIsSpelledOut(before: Fields, after: Fields, order: seq<string>, alias: Alias)
    requires MergeOf(before, after, order, alias)
    ensures var defs := DefsOf(before);
      && alias.Keys == defs.Keys && (forall n :: n in defs ==> IsFirstEqual(order, defs, n, alias[n]))
      && "$defs" in after && after["$defs"].Obj?
      && (forall n :: n in after["$defs"].fields <==> n in defs && IsFirstEqual(order, defs, n, n))
      && (forall n :: n in after["$defs"].fields ==> IsRenamed(defs[n], after["$defs"].fields[n], alias))
      && (forall n, m :: n in after["$defs"].fields && m in after["$defs"].fields && n != m ==> defs[n] != defs[m])
      && IsRenamed(Obj(before - {"$defs"}), Obj(after - {"$defs"}), alias)
  {
    hide Rewrite, RewriteFields, IsRenamed, Meaning;
    var defs := DefsOf(before);
    forall n | n in defs ensures IsFirstEqual(order, defs, n, alias[n]) {
      var i :| 0 <= i < |order| && order[i] == n;
      assert AliasedAt(order, defs, alias, i);
    }
    forall n | n in defs ensures IsFirstEqual(order, defs, n, n) <==> alias[n] == n {
      OneFirst(order, defs, n, alias[n]);
    }
    forall n | n in defs ensures IsRenamed(defs[n], Rewrite(defs[n], alias), alias) { RewriteRenames(defs[n], alias); }
    forall n, m | n in Winners(alias) && m in Winners(alias) && defs[n] == defs[m] ensures n == m {
      SameFirst(order, defs, n, m);
    }
    var body := before - {DEFS};
    RewriteRenames(Obj(body), alias);
    RewriteObject(body, alias);
    BodyRewritten(before, alias);
  }

  lemma BodyRewritten(fields: Fields, alias: Alias)
    requires alias.Keys == DefsOf(fields).Keys
    ensures Merged(fields, alias) - {DEFS} == RewriteFields(fields - {DEFS}, alias)
  {
    hide Rewrite, RewriteFields, MergedDefs, DefsOf;
    var body := fields - {DEFS};
    assert LocalRef(body) == LocalRef(fields);
    hide LocalRef;
    RewrittenRef(fields, alias);
    RewrittenRef(body, alias);
    var left, right := Merged(fields, alias) - {DEFS}, RewriteFields(body, alias);
    assert left.Keys == right.Keys;
  }

  lemma OneFirst(order: seq<string>, defs: Defs, n: string, w: string)
    requires IsFirstEqual(order, defs, n, w)
    ensures IsFirstEqual(order, defs, n, n) <==> w == n
  {
    if IsFirstEqual(order, defs, n, n) {
      SameFirstOf(order, defs, n, n, w);
    }
  }

  lemma SameFirstOf(order: seq<string>, defs: Defs, n: string, v: string, w: string)
    requires IsFirstEqual(order, defs, n, v) && IsFirstEqual(order, defs, n, w)
    ensures v == w
  {
    var i :| 0 <= i < |order| && order[i] == v && defs[v] == defs[n]
             && forall k :: 0 <= k < i ==> order[k] in defs && defs[order[k]] != defs[n];
    var j :| 0 <= j < |order| && order[j] == w && defs[w] == defs[n]
             && forall k :: 0 <= k < j ==> order[k] in defs && defs[order[k]] != defs[n];
    assert i == j;
  }

  lemma SameFirst(order: seq<string>, defs: Defs, n: string, m: string)
    requires IsFirstEqual(order, defs, n, n) && IsFirstEqual(order, defs, m, m) && defs[n] == defs[m]
    ensures n == m
  {
    SameFirstOf(order, defs, n, n, m);
  }
}
