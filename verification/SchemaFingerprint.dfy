// _schema_fingerprint: the text of a schema with its keys in order.
module SchemaFingerprint {
  import opened Ordering
  import opened Schema
  import opened Options
  import JsonText

  lemma {:induction false} SortedExists(keys: set<string>)
    ensures exists r :: SortedListing(r, keys, StringLe)
    decreases keys
  {
    StringLeIsTotalOrder();
    if keys == {} {
      assert SortedListing([], keys, StringLe);
    } else {
      var least := MinimumExists(keys, StringLe);
      SortedExists(keys - {least});
      var rest :| SortedListing(rest, keys - {least}, StringLe);
      var r := [least] + rest;
      forall i, j | 0 <= i < j < |r| ensures r[i] != r[j] && StringLe(r[i], r[j]) {
        assert r[j] in rest;
      }
      assert SortedListing(r, keys, StringLe);
    }
  }

  ghost function SortedKeys(keys: set<string>): (r: seq<string>)
    ensures SortedListing(r, keys, StringLe)
  {
    SortedExists(keys);
    var r :| SortedListing(r, keys, StringLe);
    r
  }

  // _normalize_schema_value: dictionaries with their keys in order, at every level.
  ghost function Normal(j: Json): JsonText.Json {
    match j
    case Other(repr) => JsonText.Scalar(repr)
    case Str(s) => JsonText.Str(s)
    case Arr(items) => JsonText.Arr(seq(|items|, i requires 0 <= i < |items| => Normal(items[i])))
    case Obj(fields) =>
      var keys := SortedKeys(fields.Keys);
      JsonText.Obj(seq(|keys|, i requires 0 <= i < |keys| =>
        assert keys[i] in keys; JsonText.Field(keys[i], Normal(fields[keys[i]]))))
  }

  ghost function FingerprintOf(j: Json): string { JsonText.Dumps(Normal(j)) }

  lemma {:induction false} NormalIsInjective(a: Json, b: Json)
    requires Normal(a) == Normal(b)
    ensures a == b
    decreases a
  {
    match a
    case Other(_) =>
    case Str(_) =>
    case Arr(items) =>
      forall i | 0 <= i < |items| ensures items[i] == b.items[i] {
        assert Normal(a).items[i] == Normal(b).items[i];
        NormalIsInjective(items[i], b.items[i]);
      }
      assert items == b.items;
    case Obj(fields) => SameFields(fields, b.fields);
  }

  lemma {:induction false} SameFields(fields: Fields, others: Fields)
    requires Normal(Obj(fields)) == Normal(Obj(others))
    ensures fields == others
    decreases Obj(fields), 0
  {
    var keys, otherKeys := SortedKeys(fields.Keys), SortedKeys(others.Keys);
    var left, right := Normal(Obj(fields)).fields, Normal(Obj(others)).fields;
    forall i | 0 <= i < |keys|
      ensures keys[i] == otherKeys[i] && keys[i] in fields && keys[i] in others && fields[keys[i]] == others[keys[i]]
    {
      assert left[i] == right[i] && keys[i] in keys && otherKeys[i] in otherKeys;
      NormalIsInjective(fields[keys[i]], others[otherKeys[i]]);
    }
    assert keys == otherKeys;
    forall key ensures key in fields <==> key in others {
      assert key in keys <==> key in otherKeys;
    }
    forall key | key in fields ensures fields[key] == others[key] {
      var i :| 0 <= i < |keys| && keys[i] == key;
    }
  }

  // Fingerprints are equal exactly for equal schemas, whatever the order of their keys.
  lemma FingerprintIff(a: Json, b: Json)
    ensures FingerprintOf(a) == FingerprintOf(b) <==> a == b
  {
    hide Normal;
    JsonText.DumpsIsInjective(Normal(a), Normal(b));
    if Normal(a) == Normal(b) {
      NormalIsInjective(a, b);
    }
  }
}
