// deduplicate_schema_fragments: equal JSON containers are built once and shared.
module HashConsing {
  import opened JsonText

  datatype Ref = Atom(value: Json) | Node(c: Container)
  datatype Member = Member(key: string, item: Ref)
  datatype Body = Items(items: seq<Ref>) | Fields(fields: seq<Member>)

  // A list or dict built by intern; nothing writes to it afterwards.
  class Container {
    const body: Body

    constructor (body: Body)
      ensures this.body == body
    {
      this.body := body;
    }
  }

  // Structural equality: the containers below r spell out j.
  ghost predicate Spells(r: Ref, j: Json)
    decreases j, 1
  {
    match j
    case Arr(items) => r.Node? && BodySpells(r.c.body, j)
    case Obj(fields) => r.Node? && BodySpells(r.c.body, j)
    case _ => r == Atom(j)
  }

  ghost predicate BodySpells(body: Body, j: Json)
    decreases j, 0
  {
    match j
    case Arr(items) =>
      body.Items? && |body.items| == |items| && forall i :: 0 <= i < |items| ==> Spells(body.items[i], items[i])
    case Obj(fields) =>
      && body.Fields? && |body.fields| == |fields|
      && forall i :: 0 <= i < |fields| ==>
        body.fields[i].key == fields[i].key && Spells(body.fields[i].item, fields[i].value)
    case _ => false
  }

  // Container c occurs in r at a place where j has the part v.
  ghost predicate Occurs(r: Ref, j: Json, c: Container, v: Json)
    requires Spells(r, j)
    decreases j
  {
    match j
    case Arr(items) =>
      assert BodySpells(r.c.body, j);
      (c == r.c && v == j) || exists i :: 0 <= i < |items| && Occurs(r.c.body.items[i], items[i], c, v)
    case Obj(fields) =>
      assert BodySpells(r.c.body, j);
      (c == r.c && v == j) || exists i :: 0 <= i < |fields| && Occurs(r.c.body.fields[i].item, fields[i].value, c, v)
    case _ => false
  }

  lemma {:induction false} SpellsOneValue(r: Ref, j: Json, k: Json)
    requires Spells(r, j) && Spells(r, k)
    ensures j == k
    decreases j
  {
    match j
    case Arr(items) =>
      forall i | 0 <= i < |items| ensures items[i] == k.items[i] {
        SpellsOneValue(r.c.body.items[i], items[i], k.items[i]);
      }
      assert items == k.items;
    case Obj(fields) =>
      forall i | 0 <= i < |fields| ensures fields[i] == k.fields[i] {
        SpellsOneValue(r.c.body.fields[i].item, fields[i].value, k.fields[i].value);
      }
      assert fields == k.fields;
    case _ =>
  }

  // json.dumps of a structure of containers.
  function TextOf(r: Ref, ghost j: Json): (s: string)
    requires Spells(r, j)
    ensures s == Dumps(j)
    decreases j, 1
  {
    match r
    case Atom(value) => Dumps(value)
    case Node(c) => TextOfBody(c.body, j)
  }

  function TextOfBody(body: Body, ghost j: Json): (s: string)
    requires BodySpells(body, j)
    ensures s == Dumps(j)
    decreases j, 0
  {
    match body
    case Items(items) => "[" + TextOfItems(items, j.items) + "]"
    case Fields(fields) => "{" + TextOfFields(fields, j.fields) + "}"
  }

  function TextOfItems(refs: seq<Ref>, ghost items: seq<Json>): (s: string)
    requires |refs| == |items| && forall i :: 0 <= i < |items| ==> Spells(refs[i], items[i])
    ensures s == DumpItems(items)
    decreases items, 2
  {
    if refs == [] then "" else
    TextOf(refs[0], items[0]) + if |refs| == 1 then "" else "," + TextOfItems(refs[1..], items[1..])
  }

  function TextOfFields(members: seq<Member>, ghost fields: seq<Field>): (s: string)
    requires |members| == |fields|
    requires forall i :: 0 <= i < |fields| ==>
      members[i].key == fields[i].key && Spells(members[i].item, fields[i].value)
    ensures s == DumpFields(fields)
    decreases fields, 2
  {
    if members == [] then "" else
    Quote(members[0].key) + (":" + TextOf(members[0].item, fields[0].value))
    + if |members| == 1 then "" else "," + TextOfFields(members[1..], fields[1..])
  }

  // What each pooled container spells.
  type Values = map<Container, Json>

  ghost predicate Known(r: Ref, values: Values) {
    r.Node? ==> r.c in values
  }

  ghost predicate KnownBody(body: Body, values: Values) {
    match body
    case Items(items) => forall i :: 0 <= i < |items| ==> Known(items[i], values)
    case Fields(fields) => forall i :: 0 <= i < |fields| ==> Known(fields[i].item, values)
  }

  ghost predicate Extends(before: Values, after: Values) {
    forall c :: c in before ==> c in after && after[c] == before[c]
  }

  // c is the pool's container for the text of what it spells.
  ghost predicate Pooled(c: Container, pool: map<string, Container>, values: Values) {
    && c in values && Spells(Node(c), values[c]) && KnownBody(c.body, values)
    && Dumps(values[c]) in pool && pool[Dumps(values[c])] == c
  }

  ghost predicate IsPool(pool: map<string, Container>, values: Values) {
    && (forall key :: key in pool ==> pool[key] in values && Dumps(values[pool[key]]) == key)
    && (forall c :: c in values ==> Pooled(c, pool, values))
  }

  // Everything below a known reference is pooled.
  lemma {:induction false} OccurringIsPooled(r: Ref, j: Json, c: Container, v: Json, pool: map<string, Container>,
                                             values: Values)
    requires IsPool(pool, values) && Spells(r, j) && Known(r, values) && Occurs(r, j, c, v)
    ensures c in values && values[c] == v
    decreases j
  {
    hide Dumps;
    assert Pooled(r.c, pool, values);
    SpellsOneValue(r, j, values[r.c]);
    if c != r.c || v != j {
      assert BodySpells(r.c.body, j);
      match j
      case Arr(items) =>
        var i :| 0 <= i < |items| && Occurs(r.c.body.items[i], items[i], c, v);
        OccurringIsPooled(r.c.body.items[i], items[i], c, v, pool, values);
      case Obj(fields) =>
        var i :| 0 <= i < |fields| && Occurs(r.c.body.fields[i].item, fields[i].value, c, v);
        OccurringIsPooled(r.c.body.fields[i].item, fields[i].value, c, v, pool, values);
    }
  }

  lemma AddedToPool(pool: map<string, Container>, values: Values, c: Container, j: Json)
    requires IsPool(pool, values) && c !in values && Spells(Node(c), j) && KnownBody(c.body, values)
    requires Dumps(j) !in pool
    ensures IsPool(pool[Dumps(j) := c], values[c := j])
  {
    var newPool, newValues := pool[Dumps(j) := c], values[c := j];
    forall d | d in newValues ensures Pooled(d, newPool, newValues) {
      hide Spells, Dumps;
      assert d != c ==> Pooled(d, pool, values);
    }
  }

  class Pool {
    var pool: map<string, Container>
    ghost var values: Values

    ghost predicate Valid()
      reads this
    {
      IsPool(pool, values)
    }

    constructor ()
      ensures Valid() && values == map[]
    {
      pool, values := map[], map[];
    }

    method Share(body: Body, ghost value: Json) returns (r: Ref)
      requires Valid() && BodySpells(body, value) && KnownBody(body, values)
      modifies this
      ensures Valid() && Extends(old(values), values)
      ensures Spells(r, value) && Known(r, values)
    {
      hide Dumps;
      var candidate := new Container(body);
      var key := TextOf(Node(candidate), value);
      if key !in pool {
        AddedToPool(pool, values, candidate, value);
        pool, values := pool[key := candidate], values[candidate := value];
      }
      r := Node(pool[key]);
      assert Pooled(pool[key], pool, values);
      DumpsIsInjective(values[pool[key]], value);
    }

    method Intern(value: Json) returns (r: Ref)
      requires Valid()
      modifies this
      ensures Valid() && Extends(old(values), values)
      ensures Spells(r, value) && Known(r, values)
      decreases value
    {
      hide IsPool;
      match value
      case Arr(items) =>
        var refs: seq<Ref> := [];
        for i := 0 to |items|
          invariant Valid() && Extends(old(values), values) && |refs| == i
          invariant forall k :: 0 <= k < i ==> Spells(refs[k], items[k]) && Known(refs[k], values)
        {
          var item := Intern(items[i]);
          refs := refs + [item];
        }
        r := Share(Items(refs), value);
      case Obj(fields) =>
        var members: seq<Member> := [];
        for i := 0 to |fields|
          invariant Valid() && Extends(old(values), values) && |members| == i
          invariant forall k :: 0 <= k < i ==>
            members[k].key == fields[k].key && Spells(members[k].item, fields[k].value)
              && Known(members[k].item, values)
        {
          var item := Intern(fields[i].value);
          members := members + [Member(fields[i].key, item)];
        }
        r := Share(Fields(members), value);
      case _ =>
        r := Atom(value);
    }
  }

  // Two containers anywhere in the results are the same object exactly when they serialise equally.
  method DeduplicateSchemaFragments(schemas: seq<Json>) returns (shared: seq<Ref>)
    ensures |shared| == |schemas| && forall i :: 0 <= i < |schemas| ==> Spells(shared[i], schemas[i])
    ensures forall i, k, c, d, v, w :: (0 <= i < |schemas| && 0 <= k < |schemas| &&
      Occurs(shared[i], schemas[i], c, v) && Occurs(shared[k], schemas[k], d, w)) ==>
      ((c == d <==> Dumps(v) == Dumps(w)) && (c == d <==> v == w))
  {
    hide Dumps, Spells, Occurs, IsPool;
    var intern := new Pool();
    shared := [];
    for i := 0 to |schemas|
      invariant intern.Valid() && fresh(intern) && |shared| == i
      invariant forall k :: 0 <= k < i ==> Spells(shared[k], schemas[k]) && Known(shared[k], intern.values)
    {
      var schema := intern.Intern(schemas[i]);
      shared := shared + [schema];
    }
    forall i, k, c, d, v, w | 0 <= i < |schemas| && 0 <= k < |schemas| &&
      Occurs(shared[i], schemas[i], c, v) && Occurs(shared[k], schemas[k], d, w)
      ensures (c == d <==> Dumps(v) == Dumps(w)) && (c == d <==> v == w)
    {
      OccurringIsPooled(shared[i], schemas[i], c, v, intern.pool, intern.values);
      OccurringIsPooled(shared[k], schemas[k], d, w, intern.pool, intern.values);
      PooledOnce(c, d, intern.pool, intern.values);
    }
  }

  lemma PooledOnce(c: Container, d: Container, pool: map<string, Container>, values: Values)
    requires IsPool(pool, values) && c in values && d in values
    ensures c == d <==> Dumps(values[c]) == Dumps(values[d])
    ensures c == d <==> values[c] == values[d]
  {
    hide Dumps, Spells;
    assert Pooled(c, pool, values) && Pooled(d, pool, values);
  }
}
