// Merging equal definitions in place, over schema containers that are shared between several parents.
module SchemaMerge {
  import opened Ordering
  import opened Schema
  import opened SchemaFingerprint
  import JsonText
  import opened Options

  datatype Value = Text(s: string) | Scalar(repr: JsonText.ScalarText) | Ref(c: Container)
  datatype Content = ListOf(items: seq<Value>) | DictOf(order: seq<string>, fields: map<string, Value>)

  // A Python list or dict: an object with identity.
  class Container {
    var content: Content

    constructor (content: Content)
      ensures this.content == content
    {
      this.content := content;
    }
  }

  // The contents of a set of containers at one moment, and a rank that shows them to be acyclic.
  type Snap = map<Container, Content>
  type Rank = map<Container, nat>

  ghost predicate Inside(v: Value, snap: Snap) {
    v.Ref? ==> v.c in snap
  }

  ghost predicate ChildOf(v: Value, snap: Snap, rank: Rank, above: nat) {
    v.Ref? ==> v.c in snap && v.c in rank && rank[v.c] < above
  }

  ghost predicate WellFormed(content: Content, snap: Snap, rank: Rank, above: nat) {
    match content
    case ListOf(items) => forall i :: 0 <= i < |items| ==> ChildOf(items[i], snap, rank, above)
    case DictOf(order, fields) =>
      && (forall key :: key in order <==> key in fields)
      && (forall i, j :: 0 <= i < j < |order| ==> order[i] != order[j])
      && (forall key :: key in fields ==> ChildOf(fields[key], snap, rank, above))
  }

  ghost predicate Ranked(snap: Snap, rank: Rank) {
    snap.Keys == rank.Keys && forall c :: c in snap ==> WellFormed(snap[c], snap, rank, rank[c])
  }

  // The JSON value a reference stands for.
  ghost function JsonOf(v: Value, snap: Snap, rank: Rank): Json
    requires Ranked(snap, rank) && Inside(v, snap)
    decreases if v.Ref? then rank[v.c] + 1 else 0
  {
    match v
    case Text(s) => Str(s)
    case Scalar(repr) => Other(repr)
    case Ref(c) =>
      match snap[c]
      case ListOf(items) => Arr(seq(|items|, i requires 0 <= i < |items| => JsonOf(items[i], snap, rank)))
      case DictOf(_, fields) => Obj(map key | key in fields :: JsonOf(fields[key], snap, rank))
  }

  // d is v's container or lies somewhere below it.
  ghost predicate Below(d: Container, v: Value, snap: Snap, rank: Rank)
    requires Ranked(snap, rank) && Inside(v, snap)
    decreases if v.Ref? then rank[v.c] + 1 else 0
  {
    v.Ref? &&
    (d == v.c || match snap[v.c]
                 case ListOf(items) => exists i :: 0 <= i < |items| && Below(d, items[i], snap, rank)
                 case DictOf(_, fields) => exists key :: key in fields && Below(d, fields[key], snap, rank))
  }

  function RefName(fields: map<string, Value>): Option<string> {
    if REF in fields && fields[REF].Text? && PREFIX <= fields[REF].s then Some(fields[REF].s[|PREFIX|..]) else None
  }

  // A container's content once its own reference has been rewritten.
  function Updated(content: Content, alias: Alias): Content {
    match content
    case ListOf(_) => content
    case DictOf(order, fields) =>
      var ref := RefName(fields);
      if ref.Some? && ref.value in alias then DictOf(order, fields[REF := Text(PREFIX + alias[ref.value])]) else content
  }

  lemma UpdatedTwice(content: Content, alias: Alias)
    requires Idempotent(alias)
    ensures Updated(Updated(content, alias), alias) == Updated(content, alias)
  {
    if content.DictOf? && RefName(content.fields).Some? && RefName(content.fields).value in alias {
      RefToName(alias[RefName(content.fields).value]);
    }
  }

  lemma UpdatedWellFormed(content: Content, alias: Alias, snap: Snap, rank: Rank, above: nat)
    requires WellFormed(content, snap, rank, above)
    ensures WellFormed(Updated(content, alias), snap, rank, above)
  {
  }

  // Every container is as in the snapshot or rewritten.
  ghost predicate Partly(snap: Snap, alias: Alias)
    reads snap.Keys
  {
    forall c :: c in snap ==> c.content == snap[c] || c.content == Updated(snap[c], alias)
  }

  ghost function BelowSet(v: Value, snap: Snap, rank: Rank): set<Container>
    requires Ranked(snap, rank) && Inside(v, snap)
  {
    set d | d in snap && Below(d, v, snap, rank)
  }

  ghost predicate AllRewritten(done: set<Container>, snap: Snap, alias: Alias)
    reads done
  {
    forall d :: d in done ==> d in snap && d.content == Updated(snap[d], alias)
  }

  // The values the loop over a container visits; rewriting does not change its nested containers.
  ghost predicate Covers(acc: set<Container>, content: Content, snap: Snap, rank: Rank, above: nat)
    requires Ranked(snap, rank) && WellFormed(content, snap, rank, above)
  {
    match content
    case ListOf(items) => forall i :: 0 <= i < |items| ==> BelowSet(items[i], snap, rank) <= acc
    case DictOf(_, fields) => forall key :: key in fields ==> BelowSet(fields[key], snap, rank) <= acc
  }

  lemma CoveredIsBelow(c: Container, content: Content, alias: Alias, acc: set<Container>, snap: Snap, rank: Rank)
    requires Ranked(snap, rank) && c in snap && c in acc
    requires content == snap[c] || content == Updated(snap[c], alias)
    requires WellFormed(content, snap, rank, rank[c]) && Covers(acc, content, snap, rank, rank[c])
    ensures BelowSet(Ref(c), snap, rank) <= acc
  {
    forall d | d in snap && Below(d, Ref(c), snap, rank) ensures d in acc {
      if d != c {
        match snap[c]
        case ListOf(items) =>
          var i :| 0 <= i < |items| && Below(d, items[i], snap, rank);
          assert d in BelowSet(items[i], snap, rank);
        case DictOf(_, fields) =>
          var key :| key in fields && Below(d, fields[key], snap, rank);
          assert content.fields[key] == fields[key];
          assert d in BelowSet(fields[key], snap, rank);
      }
    }
  }

  // _rewrite_local_defs_refs. Containers reached a second time through another parent are rewritten again.
  method RewriteLocalRefs(v: Value, alias: Alias, ghost snap: Snap, ghost rank: Rank, ghost done: set<Container>)
    requires Ranked(snap, rank) && Inside(v, snap) && Idempotent(alias)
    requires Partly(snap, alias) && AllRewritten(done, snap, alias)
    modifies snap.Keys
    ensures Partly(snap, alias) && AllRewritten(done + BelowSet(v, snap, rank), snap, alias)
    decreases if v.Ref? then rank[v.c] + 1 else 0, 1
  {
    hide Below, Covers, WellFormed;
    if v.Ref? {
      var c := v.c;
      UpdatedTwice(snap[c], alias);
      assert WellFormed(snap[c], snap, rank, rank[c]);
      UpdatedWellFormed(snap[c], alias, snap, rank, rank[c]);
      if c.content.DictOf? {
        c.content := Updated(c.content, alias);
      }
      var content := c.content;
      ghost var acc := RewriteChildren(c, content, alias, snap, rank, done + {c});
      CoveredIsBelow(c, content, alias, acc, snap, rank);
    } else {
      NothingBelow(v, snap, rank);
    }
  }

  lemma NothingBelow(v: Value, snap: Snap, rank: Rank)
    requires Ranked(snap, rank) && !v.Ref?
    ensures BelowSet(v, snap, rank) == {}
  {
  }

  method RewriteChildren(c: Container, content: Content, alias: Alias, ghost snap: Snap, ghost rank: Rank,
                         ghost done: set<Container>)
    returns (ghost acc: set<Container>)
    requires Ranked(snap, rank) && c in snap && Idempotent(alias)
    requires WellFormed(content, snap, rank, rank[c])
    requires Partly(snap, alias) && AllRewritten(done, snap, alias)
    modifies snap.Keys
    ensures Partly(snap, alias) && done <= acc && AllRewritten(acc, snap, alias)
    ensures Covers(acc, content, snap, rank, rank[c])
    decreases rank[c] + 1, 0
  {
    hide Below;
    acc := done;
    match content
    case ListOf(items) =>
      for i := 0 to |items|
        invariant Partly(snap, alias) && done <= acc && AllRewritten(acc, snap, alias)
        invariant forall k :: 0 <= k < i ==> BelowSet(items[k], snap, rank) <= acc
      {
        RewriteLocalRefs(items[i], alias, snap, rank, acc);
        acc := acc + BelowSet(items[i], snap, rank);
      }
    case DictOf(order, fields) =>
      for i := 0 to |order|
        invariant Partly(snap, alias) && done <= acc && AllRewritten(acc, snap, alias)
        invariant forall k :: 0 <= k < i ==> order[k] in fields && BelowSet(fields[order[k]], snap, rank) <= acc
      {
        assert order[i] in order;
        RewriteLocalRefs(fields[order[i]], alias, snap, rank, acc);
        acc := acc + BelowSet(fields[order[i]], snap, rank);
      }
      forall key | key in fields ensures BelowSet(fields[key], snap, rank) <= acc {
        assert key in order;
      }
  }

  // ----- What the in-place rewriting computes -----

  ghost function JsonFields(fields: map<string, Value>, snap: Snap, rank: Rank): Fields
    requires Ranked(snap, rank) && forall key :: key in fields ==> Inside(fields[key], snap)
  {
    map key | key in fields :: JsonOf(fields[key], snap, rank)
  }

  lemma RefNameIsLocalRef(fields: map<string, Value>, snap: Snap, rank: Rank)
    requires Ranked(snap, rank) && forall key :: key in fields ==> Inside(fields[key], snap)
    ensures LocalRef(JsonFields(fields, snap, rank)) == RefName(fields)
  {
  }

  // Below v, rewriting every container once is rewriting the value v stands for.
  lemma {:induction false} JsonRewritten(v: Value, snap: Snap, now: Snap, rank: Rank, alias: Alias)
    requires Ranked(snap, rank) && Ranked(now, rank) && Inside(v, snap)
    requires forall d :: d in BelowSet(v, snap, rank) ==> now[d] == Updated(snap[d], alias)
    ensures JsonOf(v, now, rank) == Rewrite(JsonOf(v, snap, rank), alias)
    decreases if v.Ref? then rank[v.c] + 1 else 0
  {
    if v.Ref? {
      var c := v.c;
      assert Below(c, v, snap, rank) && c in BelowSet(v, snap, rank);
      match snap[c]
      case ListOf(items) =>
        forall i | 0 <= i < |items|
          ensures JsonOf(items[i], now, rank) == Rewrite(JsonOf(items[i], snap, rank), alias)
        {
          assert BelowSet(items[i], snap, rank) <= BelowSet(v, snap, rank);
          JsonRewritten(items[i], snap, now, rank, alias);
        }
        assert JsonOf(v, now, rank).items == Rewrite(JsonOf(v, snap, rank), alias).items;
      case DictOf(order, fields) =>
        forall key | key in fields
          ensures JsonOf(fields[key], now, rank) == Rewrite(JsonOf(fields[key], snap, rank), alias)
        {
          assert BelowSet(fields[key], snap, rank) <= BelowSet(v, snap, rank);
          JsonRewritten(fields[key], snap, now, rank, alias);
        }
        UpdatedFieldsJson(fields, now[c].fields, snap, now, rank, alias, order);
    }
  }

  lemma UpdatedFieldsJson(fields: map<string, Value>, fields': map<string, Value>, snap: Snap, now: Snap, rank: Rank,
                          alias: Alias,
                          order: seq<string>)
    requires Ranked(snap, rank) && Ranked(now, rank) && snap.Keys == now.Keys
    requires forall key :: key in fields ==> Inside(fields[key], snap) && Inside(fields[key], now)
    requires forall key :: key in fields' ==> Inside(fields'[key], now)
    requires DictOf(order, fields') == Updated(DictOf(order, fields), alias)
    requires forall key :: key in fields ==>
      JsonOf(fields[key], now, rank) == Rewrite(JsonOf(fields[key], snap, rank), alias)
    ensures JsonFields(fields', now, rank) == RewriteFields(JsonFields(fields, snap, rank), alias)
  {
    hide Rewrite, RewriteFields, LocalRef, RefName, Updated, JsonOf, Ranked;
    var before := JsonFields(fields, snap, rank);
    RefNameIsLocalRef(fields, snap, rank);
    RewrittenRef(before, alias);
    UpdatedFields(fields, fields', order, alias);
    var left, right := JsonFields(fields', now, rank), RewriteFields(before, alias);
    forall key | key in fields && key != REF ensures left[key] == right[key] {}
    if REF in fields && RefName(fields).Some? {
      JsonOfText(fields'[REF], now, rank);
    }
    assert left.Keys == right.Keys;
  }

  lemma JsonOfText(v: Value, snap: Snap, rank: Rank)
    requires Ranked(snap, rank) && v.Text?
    ensures JsonOf(v, snap, rank) == Str(v.s)
  {
  }

  lemma UpdatedFields(fields: map<string, Value>, fields': map<string, Value>, order: seq<string>, alias: Alias)
    requires DictOf(order, fields') == Updated(DictOf(order, fields), alias)
    ensures fields'.Keys == fields.Keys && forall key :: key in fields && key != REF ==> fields'[key] == fields[key]
    ensures RefName(fields).Some? ==> fields'[REF] == Text(PREFIX + Renamed(alias, RefName(fields).value))
    ensures REF in fields && RefName(fields).None? ==> fields'[REF] == fields[REF]
  {
    if RefName(fields).Some? {
      assert fields[REF].s == PREFIX + RefName(fields).value;
    }
  }

  lemma NormalItems(items: seq<Json>, normal: seq<JsonText.Json>)
    requires |normal| == |items| && forall i :: 0 <= i < |items| ==> normal[i] == Normal(items[i])
    ensures JsonText.Arr(normal) == Normal(Arr(items))
  {
    assert normal == Normal(Arr(items)).items;
  }

  lemma NormalFields(fields: Fields, keys: seq<string>, normal: seq<JsonText.Field>)
    requires SortedListing(keys, fields.Keys, StringLe) && |normal| == |keys|
    requires forall i :: 0 <= i < |keys| ==>
      keys[i] in fields && normal[i] == JsonText.Field(keys[i], Normal(fields[keys[i]]))
    ensures JsonText.Obj(normal) == Normal(Obj(fields))
  {
    StringLeIsTotalOrder();
    SortedListingIsUnique(keys, SortedKeys(fields.Keys), fields.Keys, StringLe);
    assert normal == Normal(Obj(fields)).fields;
  }

  lemma NormalLeaf(v: Value, snap: Snap, rank: Rank)
    requires Ranked(snap, rank) && !v.Ref?
    ensures v.Text? ==> Normal(JsonOf(v, snap, rank)) == JsonText.Str(v.s)
    ensures v.Scalar? ==> Normal(JsonOf(v, snap, rank)) == JsonText.Scalar(v.repr)
  {
  }

  lemma ChildrenInside(c: Container, snap: Snap, rank: Rank)
    requires Ranked(snap, rank) && c in snap
    ensures c in rank
    ensures snap[c].ListOf? ==> forall i :: 0 <= i < |snap[c].items| ==> ChildOf(snap[c].items[i], snap, rank, rank[c])
    ensures snap[c].DictOf? ==> forall key :: key in snap[c].fields ==>
      ChildOf(snap[c].fields[key], snap, rank, rank[c])
  {
    assert WellFormed(snap[c], snap, rank, rank[c]);
  }

  lemma JsonOfContainer(c: Container, snap: Snap, rank: Rank)
    requires Ranked(snap, rank) && c in snap
    ensures snap[c].ListOf? ==> JsonOf(Ref(c), snap, rank).Arr?
    ensures snap[c].ListOf? ==> var items := JsonOf(Ref(c), snap, rank).items;
      |items| == |snap[c].items| && forall i :: 0 <= i < |items| ==> items[i] == JsonOf(snap[c].items[i], snap, rank)
    ensures snap[c].DictOf? ==> JsonOf(Ref(c), snap, rank).Obj?
    ensures snap[c].DictOf? ==> var fields := JsonOf(Ref(c), snap, rank).fields;
      fields.Keys == snap[c].fields.Keys && forall key :: key in fields ==>
        fields[key] == JsonOf(snap[c].fields[key], snap, rank)
  {
  }

  // _normalize_schema_value
  method NormalizeSchemaValue(v: Value, ghost snap: Snap, ghost rank: Rank) returns (n: JsonText.Json)
    requires Ranked(snap, rank) && Inside(v, snap)
    requires forall c :: c in snap ==> c.content == snap[c]
    ensures n == Normal(JsonOf(v, snap, rank))
    decreases if v.Ref? then rank[v.c] + 1 else 0, 1
  {
    hide JsonOf, Normal, Ranked, WellFormed;
    match v
    case Text(s) =>
      NormalLeaf(v, snap, rank);
      n := JsonText.Str(s);
    case Scalar(repr) =>
      NormalLeaf(v, snap, rank);
      n := JsonText.Scalar(repr);
    case Ref(c) =>
      ChildrenInside(c, snap, rank);
      JsonOfContainer(c, snap, rank);
      match c.content
      case ListOf(items) =>
        var normal: seq<JsonText.Json> := [];
        for i := 0 to |items|
          invariant |normal| == i && forall k :: 0 <= k < i ==> normal[k] == Normal(JsonOf(items[k], snap, rank))
        {
          var item := NormalizeSchemaValue(items[i], snap, rank);
          normal := normal + [item];
        }
        NormalItems(JsonOf(v, snap, rank).items, normal);
        n := JsonText.Arr(normal);
      case DictOf(_, fields) =>
        var normal := NormalizeFields(fields, snap, rank, rank[c]);
        NormalizedFields(c, normal, snap, rank);
        n := JsonText.Obj(normal);
  }

  // The fields of a dictionary, normalised and in the order of their keys.
  ghost predicate AreNormal(fields: map<string, Value>, normal: seq<JsonText.Field>, snap: Snap, rank: Rank) {
    && Ranked(snap, rank) && (forall key :: key in fields ==> Inside(fields[key], snap))
    && SortedListing(KeysOf(normal), fields.Keys, StringLe)
    && forall i :: 0 <= i < |normal| ==>
         normal[i].key in fields && normal[i].value == Normal(JsonOf(fields[normal[i].key], snap, rank))
  }

  ghost function KeysOf(normal: seq<JsonText.Field>): seq<string> {
    seq(|normal|, i requires 0 <= i < |normal| => normal[i].key)
  }

  lemma NormalizedFields(c: Container, normal: seq<JsonText.Field>, snap: Snap, rank: Rank)
    requires Ranked(snap, rank) && c in snap && snap[c].DictOf? && AreNormal(snap[c].fields, normal, snap, rank)
    ensures JsonText.Obj(normal) == Normal(JsonOf(Ref(c), snap, rank))
  {
    hide JsonOf, Normal, Ranked;
    JsonOfContainer(c, snap, rank);
    NormalFields(JsonOf(Ref(c), snap, rank).fields, KeysOf(normal), normal);
  }

  method NormalizeFields(fields: map<string, Value>, ghost snap: Snap, ghost rank: Rank, ghost above: nat)
    returns (normal: seq<JsonText.Field>)
    requires Ranked(snap, rank) && forall key :: key in fields ==> ChildOf(fields[key], snap, rank, above)
    requires forall c :: c in snap ==> c.content == snap[c]
    ensures AreNormal(fields, normal, snap, rank)
    decreases above + 1, 0
  {
    hide JsonOf, Normal, Ranked, SortedListing;
    StringLeIsTotalOrder();
    var keys := SortSet(fields.Keys, StringLe);
    normal := [];
    for i := 0 to |keys|
      invariant |normal| == i && forall k :: 0 <= k < i ==>
        keys[k] in fields && normal[k] == JsonText.Field(keys[k], Normal(JsonOf(fields[keys[k]], snap, rank)))
    {
      NextListed(keys, fields.Keys, StringLe, i);
      var value := NormalizeSchemaValue(fields[keys[i]], snap, rank);
      normal := normal + [JsonText.Field(keys[i], value)];
    }
    assert KeysOf(normal) == keys;
  }

  // _schema_fingerprint
  method Fingerprint(v: Value, ghost snap: Snap, ghost rank: Rank) returns (text: string)
    requires Ranked(snap, rank) && Inside(v, snap)
    requires forall c :: c in snap ==> c.content == snap[c]
    ensures text == FingerprintOf(JsonOf(v, snap, rank))
  {
    var normal := NormalizeSchemaValue(v, snap, rank);
    text := JsonText.Dumps(normal);
  }

  // Position k holds the first definition equal to the i-th.
  ghost predicate IsFirst(order: seq<string>, defs: Defs, i: int, k: int)
    requires forall n :: n in order ==> n in defs
    requires 0 <= i < |order|
  {
    && 0 <= k <= i && defs[order[k]] == defs[order[i]]
    && forall l :: 0 <= l < k ==> defs[order[l]] != defs[order[i]]
  }

  // Every name is sent to the first name, in dictionary order, of an equal definition.
  ghost predicate FirstEqual(order: seq<string>, defs: Defs, alias: Alias) {
    && (forall n :: n in alias <==> n in order)
    && (forall n :: n in order ==> n in defs)
    && forall i :: 0 <= i < |order| ==> AliasedAt(order, defs, alias, i)
  }

  ghost predicate AliasedAt(order: seq<string>, defs: Defs, alias: Alias, i: int)
    requires 0 <= i < |order| && forall n :: n in order ==> n in defs
  {
    order[i] in alias && exists k :: IsFirst(order, defs, i, k) && alias[order[i]] == order[k]
  }

  lemma AliasKept(order: seq<string>, defs: Defs, alias: Alias, i: int, l: int, winner: string)
    requires 0 <= l < i < |order| && order[l] != order[i] && forall n :: n in order ==> n in defs
    requires AliasedAt(order, defs, alias, l)
    ensures AliasedAt(order, defs, alias[order[i] := winner], l)
  {
  }

  lemma FirstEqualMerges(order: seq<string>, defs: Defs, alias: Alias)
    requires FirstEqual(order, defs, alias) && forall n :: n in defs <==> n in order
    ensures MergesEqual(defs, alias) && Idempotent(alias)
  {
    forall n | n in alias ensures alias[n] in alias && alias[alias[n]] == alias[n] && defs[alias[n]] == defs[n] {
      var i :| 0 <= i < |order| && order[i] == n;
      assert AliasedAt(order, defs, alias, i);
      var k :| IsFirst(order, defs, i, k) && alias[order[i]] == order[k];
      assert AliasedAt(order, defs, alias, k);
      var l :| IsFirst(order, defs, k, l) && alias[order[k]] == order[l];
      assert l == k;
    }
  }

  // The fingerprint table after i definitions: each text seen, under the first name that had it.
  ghost predicate Table(order: seq<string>, defs: Defs, i: nat, table: map<string, string>)
    requires i <= |order| && forall n :: n in order ==> n in defs
  {
    && (forall k :: 0 <= k < i ==> FingerprintOf(defs[order[k]]) in table)
    && forall text :: text in table ==> exists k :: Names(order, defs, i, table, text, k)
  }

  ghost predicate Names(order: seq<string>, defs: Defs, i: nat, table: map<string, string>, text: string, k: int)
    requires i <= |order| && forall n :: n in order ==> n in defs
  {
    text in table && 0 <= k < i && IsFirst(order, defs, k, k) && FingerprintOf(defs[order[k]]) == text
      && table[text] == order[k]
  }

  lemma NoFingerprints(order: seq<string>, defs: Defs)
    requires forall n :: n in order ==> n in defs
    ensures Table(order, defs, 0, map[])
  {
  }

  lemma NewFingerprint(order: seq<string>, defs: Defs, alias: Alias, table: map<string, string>, i: nat)
    requires i < |order| && forall n :: n in order ==> n in defs
    requires Table(order, defs, i, table) && FingerprintOf(defs[order[i]]) !in table
    ensures Table(order, defs, i + 1, table[FingerprintOf(defs[order[i]]) := order[i]])
    ensures AliasedAt(order, defs, alias[order[i] := order[i]], i)
  {
    hide FingerprintOf;
    var mine := FingerprintOf(defs[order[i]]);
    forall k | 0 <= k < i ensures defs[order[k]] != defs[order[i]] {
      assert FingerprintOf(defs[order[k]]) in table;
    }
    assert IsFirst(order, defs, i, i);
    var table', next := table[mine := order[i]], i + 1;
    forall text | text in table' ensures exists k :: Names(order, defs, next, table', text, k) {
      if text == mine {
        assert Names(order, defs, next, table', text, i);
      } else {
        var k :| Names(order, defs, i, table, text, k);
        assert Names(order, defs, next, table', text, k);
      }
    }
  }

  lemma KnownFingerprint(order: seq<string>, defs: Defs, alias: Alias, table: map<string, string>, i: nat)
    requires i < |order| && forall n :: n in order ==> n in defs
    requires Table(order, defs, i, table) && FingerprintOf(defs[order[i]]) in table
    ensures Table(order, defs, i + 1, table)
    ensures AliasedAt(order, defs, alias[order[i] := table[FingerprintOf(defs[order[i]])]], i)
  {
    hide FingerprintOf;
    var mine := FingerprintOf(defs[order[i]]);
    var k :| Names(order, defs, i, table, mine, k);
    FingerprintIff(defs[order[k]], defs[order[i]]);
    assert IsFirst(order, defs, i, k);
    var next := i + 1;
    forall text | text in table ensures exists l :: Names(order, defs, next, table, text, l) {
      var l :| Names(order, defs, i, table, text, l);
      assert Names(order, defs, next, table, text, l);
    }
  }

  method FindAliases(order: seq<string>, values: map<string, Value>, ghost snap: Snap, ghost rank: Rank)
    returns (alias: Alias)
    requires Ranked(snap, rank) && forall key :: key in values ==> Inside(values[key], snap)
    requires forall c :: c in snap ==> c.content == snap[c]
    requires forall n :: n in order ==> n in values
    requires forall i, j :: 0 <= i < j < |order| ==> order[i] != order[j]
    ensures FirstEqual(order, JsonFields(values, snap, rank), alias)
  {
    hide JsonOf, AliasedAt, Table, Ranked, FingerprintOf;
    ghost var defs := JsonFields(values, snap, rank);
    NoFingerprints(order, defs);
    alias := map[];
    var nameByFingerprint: map<string, string> := map[];
    for i := 0 to |order|
      invariant alias.Keys == set k | 0 <= k < i :: order[k]
      invariant Table(order, defs, i, nameByFingerprint)
      invariant forall l :: 0 <= l < i ==> AliasedAt(order, defs, alias, l)
    {
      var name := order[i];
      assert name in order;
      var fingerprint := Fingerprint(values[name], snap, rank);
      ghost var before := alias;
      if fingerprint !in nameByFingerprint {
        NewFingerprint(order, defs, alias, nameByFingerprint, i);
        nameByFingerprint := nameByFingerprint[fingerprint := name];
        alias := alias[name := name];
      } else {
        KnownFingerprint(order, defs, alias, nameByFingerprint, i);
        alias := alias[name := nameByFingerprint[fingerprint]];
      }
      forall l | 0 <= l < i ensures AliasedAt(order, defs, alias, l) {
        AliasKept(order, defs, before, i, l, alias[name]);
      }
    }
  }
}
