// _collect_transitive_defs: the definitions a schema needs, by a worklist over its references.
module SchemaCollection {
  import opened Schema
  import opened SchemaExpansion
  import opened Options

  method IterLocalDefsRefs(value: Json) returns (refs: seq<string>)
    ensures forall n :: n in refs <==> n in Refs(value)
    decreases value
  {
    refs := [];
    match value
    case Obj(fields) =>
      var ref := LocalRef(fields);
      if ref.Some? {
        refs := [ref.value];
      }
      var rest := fields.Keys;
      while rest != {}
        invariant rest <= fields.Keys
        invariant forall n :: n in refs <==>
          ref == Some(n) || exists key :: key in fields && key !in rest && n in Refs(fields[key])
        decreases rest
      {
        var key :| key in rest;
        var nested := IterLocalDefsRefs(fields[key]);
        refs := refs + nested;
        rest := rest - {key};
      }
    case Arr(items) =>
      for i := 0 to |items|
        invariant forall n :: n in refs <==> exists k :: 0 <= k < i && n in Refs(items[k])
      {
        var nested := IterLocalDefsRefs(items[i]);
        refs := refs + nested;
      }
    case _ =>
  }

  ghost function AllNames(schema: Json, defs: Defs): set<string> {
    Refs(schema) + set m, n | m in defs && n in Refs(defs[m]) :: n
  }

  // n is mentioned by the schema or by a definition it needs.
  ghost predicate Mentioned(schema: Json, defs: Defs, n: string) {
    n in Refs(schema) || exists m :: Reaches(schema, defs, m) && Resolves(defs, m) && n in Refs(defs[m])
  }

  lemma ChainExtends(from: Json, defs: Defs, chain: seq<string>, n: string)
    requires Chain(from, defs, chain) && chain != [] && Resolves(defs, n)
    requires Resolves(defs, chain[|chain| - 1]) && n in Refs(defs[chain[|chain| - 1]])
    ensures Chain(from, defs, chain + [n])
  {
    hide Refs;
    var longer := chain + [n];
    forall i | 0 < i < |longer| ensures longer[i] in Refs(defs[longer[i - 1]]) {
      assert longer[i - 1] == chain[i - 1];
      if i < |chain| { assert longer[i] == chain[i]; }
    }
    assert longer[0] == chain[0];
  }

  lemma MentionedIsReached(schema: Json, defs: Defs, n: string)
    requires Mentioned(schema, defs, n) && Resolves(defs, n)
    ensures Reaches(schema, defs, n)
  {
    hide Refs, Chain;
    if n in Refs(schema) {
      ReachesDirect(schema, defs, n);
    } else {
      var m :| Reaches(schema, defs, m) && Resolves(defs, m) && n in Refs(defs[m]);
      var chain :| |chain| > 0 && Chain(schema, defs, chain) && chain[|chain| - 1] == m;
      ChainExtends(schema, defs, chain, n);
      assert (chain + [n])[|chain|] == n;
    }
  }

  // sub keeps the resolvable references of the schema and of its own definitions.
  ghost predicate ClosedUnder(schema: Json, defs: Defs, sub: set<string>) {
    && (forall n :: n in Refs(schema) && Resolves(defs, n) ==> n in sub)
    && forall m, n :: m in sub && Resolves(defs, m) && n in Refs(defs[m]) && Resolves(defs, n) ==> n in sub
  }

  lemma {:induction false} ClosedHoldsChain(schema: Json, defs: Defs, sub: set<string>, chain: seq<string>, i: nat)
    requires ClosedUnder(schema, defs, sub) && Chain(schema, defs, chain) && i < |chain|
    ensures chain[i] in sub
  {
    if i > 0 {
      ClosedHoldsChain(schema, defs, sub, chain, i - 1);
    }
  }

  method CollectTransitiveDefs(schema: Json, defs: Defs) returns (collected: Defs)
    ensures forall n :: n in collected <==> Reaches(schema, defs, n)
    ensures forall n :: n in collected ==> Resolves(defs, n) && collected[n] == defs[n]
  {
    hide Reaches, Refs;
    collected := map[];
    var pending := IterLocalDefsRefs(schema);
    var seen: set<string> := {};
    while pending != []
      invariant forall n :: n in collected <==> n in seen && Resolves(defs, n)
      invariant forall n :: n in collected ==> collected[n] == defs[n]
      invariant forall n :: n in pending || n in seen ==> n in AllNames(schema, defs) && Mentioned(schema, defs, n)
      invariant forall n :: n in Refs(schema) ==> n in pending || n in seen
      invariant forall m, n :: m in collected && n in Refs(defs[m]) ==> n in pending || n in seen
      decreases AllNames(schema, defs) - seen, |pending|
    {
      var name := pending[|pending| - 1];
      var rest := pending[..|pending| - 1];
      assert pending == rest + [name];
      pending := rest;
      if name in seen {
        continue;
      }
      seen := seen + {name};
      if Resolves(defs, name) {
        MentionedIsReached(schema, defs, name);
        collected := collected[name := defs[name]];
        var nested := IterLocalDefsRefs(defs[name]);
        pending := pending + nested;
      }
    }
    forall n ensures n in collected <==> Reaches(schema, defs, n) {
      if n in collected {
        MentionedIsReached(schema, defs, n);
      }
      ReachedIsHeld(schema, defs, collected.Keys, n);
    }
  }

  lemma ReachedIsHeld(schema: Json, defs: Defs, sub: set<string>, n: string)
    requires ClosedUnder(schema, defs, sub)
    ensures Reaches(schema, defs, n) ==> n in sub
  {
    if chain :| |chain| > 0 && Chain(schema, defs, chain) && chain[|chain| - 1] == n {
      ClosedHoldsChain(schema, defs, sub, chain, |chain| - 1);
    }
  }

  lemma RefsInside(j: Json)
    ensures j.Arr? ==> forall i :: 0 <= i < |j.items| ==> Refs(j.items[i]) <= Refs(j)
    ensures j.Obj? ==> forall key :: key in j.fields ==> Refs(j.fields[key]) <= Refs(j)
    ensures j.Obj? && LocalRef(j.fields).Some? ==> LocalRef(j.fields).value in Refs(j)
  {
  }

  // Definitions outside a closed set play no part in what a schema means.
  lemma {:induction false} ClosedDefsSuffice(j: Json, defs: Defs, sub: Defs, k: nat)
    requires forall n :: n in sub ==> Resolves(defs, n) && sub[n] == defs[n]
    requires ClosedUnder(j, defs, sub.Keys)
    ensures Unfold(j, sub, k) == Unfold(j, defs, k)
    decreases k, j
  {
    hide Refs, Overlay;
    RefsInside(j);
    match j
    case Arr(items) =>
      forall i | 0 <= i < |items| ensures Unfold(items[i], sub, k) == Unfold(items[i], defs, k) {
        ClosedDefsSuffice(items[i], defs, sub, k);
      }
      assert Unfold(j, sub, k).items == Unfold(j, defs, k).items;
    case Obj(fields) =>
      var ref := LocalRef(fields);
      if !IsPlain(fields, defs) {
        assert ref.value in Refs(j);
        if k > 0 {
          OverlayRefs(defs[ref.value].fields, fields);
          ClosedDefsSuffice(Obj(Overlay(defs[ref.value].fields, fields)), defs, sub, k - 1);
        }
      } else {
        forall key | key in fields ensures Unfold(fields[key], sub, k) == Unfold(fields[key], defs, k) {
          assert Refs(fields[key]) <= Refs(j);
          ClosedDefsSuffice(fields[key], defs, sub, k);
        }
        SameNodes(fields, fields, defs, sub, k);
      }
    case _ =>
  }

  lemma OverlayRefs(target: Fields, fields: Fields)
    ensures Refs(Obj(Overlay(target, fields))) <= Refs(Obj(target)) + Refs(Obj(fields))
  {
    var inlined := Overlay(target, fields);
    assert LocalRef(inlined) == LocalRef(target);
  }

  // The collected definitions give the schema the meaning it had over all of them, at every depth.
  lemma CollectedDefsKeepMeaning(schema: Json, defs: Defs, collected: Defs, k: nat)
    requires forall n :: n in collected <==> Reaches(schema, defs, n)
    requires forall n :: n in collected ==> Resolves(defs, n) && collected[n] == defs[n]
    ensures Unfold(schema, collected, k) == Unfold(schema, defs, k)
  {
    forall n | n in Refs(schema) && Resolves(defs, n) ensures n in collected {
      MentionedIsReached(schema, defs, n);
    }
    forall m, n | m in collected && n in Refs(defs[m]) && Resolves(defs, n) ensures n in collected {
      assert Mentioned(schema, defs, n);
      MentionedIsReached(schema, defs, n);
    }
    ClosedDefsSuffice(schema, defs, collected, k);
  }
}
