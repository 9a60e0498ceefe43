// Inlining local references with a stack guard, and collecting the definitions a schema needs.
module SchemaExpansion {
  import opened Schema
  import opened Options

  // _expand_schema_refs: a definition already on the stack is left as a reference.
  function Expand(j: Json, defs: Defs, stack: set<string>): (r: Json)
    ensures r.Obj? == j.Obj? && r.Arr? == j.Arr? && (!j.Obj? && !j.Arr? ==> r == j)
    decreases defs.Keys - stack, j, 1
  {
    match j
    case Arr(items) => Arr(seq(|items|, i requires 0 <= i < |items| => Expand(items[i], defs, stack)))
    case Obj(fields) =>
      var ref := LocalRef(fields);
      if ref.Some? && ref.value in stack then j
      else if ref.Some? && Resolves(defs, ref.value) then
        Expand(Obj(Overlay(defs[ref.value].fields, fields)), defs, stack + {ref.value})
      else Obj(ExpandFields(fields, defs, stack))
    case _ => j
  }

  function ExpandFields(fields: Fields, defs: Defs, stack: set<string>): Fields
    decreases defs.Keys - stack, Obj(fields), 0
  {
    map key | key in fields :: Expand(fields[key], defs, stack)
  }

  // ----- Inlining preserves meaning -----

  // s is t with some subtrees cut off.
  ghost predicate Approximates(s: Tree, t: Tree) {
    match s
    case Cut => true
    case Leaf(_) => s == t
    case List(items) =>
      t.List? && |t.items| == |items| && forall i :: 0 <= i < |items| ==> Approximates(items[i], t.items[i])
    case Node(fields) =>
      && t.Node? && t.fields.Keys == fields.Keys
      && forall key :: key in fields ==> Approximates(fields[key], t.fields[key])
  }

  lemma {:induction false} ApproximatesReflexive(s: Tree)
    ensures Approximates(s, s)
  {
    match s
    case List(items) =>
      forall i | 0 <= i < |items|
        ensures Approximates(items[i], items[i])
      {
        ApproximatesReflexive(items[i]);
      }
    case Node(fields) =>
      forall key | key in fields
        ensures Approximates(fields[key], fields[key])
      {
        ApproximatesReflexive(fields[key]);
      }
    case _ =>
  }

  lemma {:induction false} ApproximatesTransitive(s: Tree, t: Tree, u: Tree)
    requires Approximates(s, t) && Approximates(t, u)
    ensures Approximates(s, u)
  {
    match s
    case List(items) =>
      forall i | 0 <= i < |items|
        ensures Approximates(items[i], u.items[i])
      {
        ApproximatesTransitive(items[i], t.items[i], u.items[i]);
      }
    case Node(fields) =>
      forall key | key in fields ensures Approximates(fields[key], u.fields[key]) {
        ApproximatesTransitive(fields[key], t.fields[key], u.fields[key]);
      }
    case _ =>
  }

  lemma {:induction false} DeeperIsFiner(j: Json, defs: Defs, k: nat)
    ensures Approximates(Unfold(j, defs, k), Unfold(j, defs, k + 1))
    decreases k, j
  {
    match j
    case Arr(items) =>
      forall i | 0 <= i < |items|
        ensures Approximates(Unfold(items[i], defs, k), Unfold(items[i], defs, k + 1))
      {
        DeeperIsFiner(items[i], defs, k);
      }
    case Obj(fields) =>
      var ref := LocalRef(fields);
      if ref.Some? && Resolves(defs, ref.value) {
        if k > 0 {
          DeeperIsFiner(Obj(Overlay(defs[ref.value].fields, fields)), defs, k - 1);
        }
      } else {
        forall key | key in fields
          ensures Approximates(Unfold(fields[key], defs, k), Unfold(fields[key], defs, k + 1))
        {
          DeeperIsFiner(fields[key], defs, k);
        }
      }
    case _ =>
  }

  lemma {:induction false} MuchDeeperIsFiner(j: Json, defs: Defs, k: nat, d: nat)
    ensures Approximates(Unfold(j, defs, k), Unfold(j, defs, k + d))
    decreases d
  {
    if d == 0 {
      ApproximatesReflexive(Unfold(j, defs, k));
    } else {
      MuchDeeperIsFiner(j, defs, k, d - 1);
      DeeperIsFiner(j, defs, k + d - 1);
      ApproximatesTransitive(Unfold(j, defs, k), Unfold(j, defs, k + d - 1), Unfold(j, defs, k + d));
    }
  }

  // A reference that is neither guarded nor resolvable keeps its place; only its fields are expanded.
  ghost predicate IsPlain(fields: Fields, defs: Defs) {
    LocalRef(fields).None? || !Resolves(defs, LocalRef(fields).value)
  }

  lemma NodesApproximate(fields: Fields, k: nat, others: Fields, l: nat, defs: Defs)
    requires fields.Keys == others.Keys && IsPlain(fields, defs) && IsPlain(others, defs)
    requires forall key :: key in fields ==> Approximates(Unfold(fields[key], defs, k), Unfold(others[key], defs, l))
    ensures Approximates(Unfold(Obj(fields), defs, k), Unfold(Obj(others), defs, l))
  {
  }

  lemma ExpandedRef(fields: Fields, defs: Defs, stack: set<string>)
    ensures LocalRef(ExpandFields(fields, defs, stack)) == LocalRef(fields)
  {
  }

  // Nothing is lost: at every depth the inlined schema unfolds at least as far as the original.
  lemma {:induction false} ExpansionKeepsMeaning(j: Json, defs: Defs, stack: set<string>, k: nat)
    ensures Approximates(Unfold(j, defs, k), Unfold(Expand(j, defs, stack), defs, k))
    decreases defs.Keys - stack, j
  {
    match j
    case Arr(items) =>
      forall i | 0 <= i < |items|
        ensures Approximates(Unfold(items[i], defs, k), Unfold(Expand(items[i], defs, stack), defs, k))
      {
        ExpansionKeepsMeaning(items[i], defs, stack, k);
      }
    case Obj(fields) =>
      var ref := LocalRef(fields);
      if ref.Some? && ref.value in stack {
        ApproximatesReflexive(Unfold(j, defs, k));
      } else if ref.Some? && Resolves(defs, ref.value) {
        if k > 0 {
          var inlined := Obj(Overlay(defs[ref.value].fields, fields));
          var result := Expand(inlined, defs, stack + {ref.value});
          ExpansionKeepsMeaning(inlined, defs, stack + {ref.value}, k - 1);
          DeeperIsFiner(result, defs, k - 1);
          ApproximatesTransitive(Unfold(inlined, defs, k - 1), Unfold(result, defs, k - 1), Unfold(result, defs, k));
        }
      } else {
        ExpandedRef(fields, defs, stack);
        forall key | key in fields
          ensures Approximates(Unfold(fields[key], defs, k), Unfold(Expand(fields[key], defs, stack), defs, k))
        {
          ExpansionKeepsMeaning(fields[key], defs, stack, k);
        }
        NodesApproximate(fields, k, ExpandFields(fields, defs, stack), k, defs);
      }
    case _ =>
  }

  lemma OneLessToInline(defs: Defs, stack: set<string>, n: string)
    requires n in defs && n !in stack
    ensures |defs.Keys - (stack + {n})| == |defs.Keys - stack| - 1
  {
    assert defs.Keys - (stack + {n}) == (defs.Keys - stack) - {n};
  }

  lemma ExpandedItems(items: seq<Json>, defs: Defs, stack: set<string>, k: nat, l: nat)
    requires forall i :: 0 <= i < |items| ==>
      Approximates(Unfold(Expand(items[i], defs, stack), defs, k), Unfold(items[i], defs, l))
    ensures Approximates(Unfold(Expand(Arr(items), defs, stack), defs, k), Unfold(Arr(items), defs, l))
  {
  }

  lemma ExpandedFields(fields: Fields, defs: Defs, stack: set<string>, k: nat, l: nat)
    requires IsPlain(fields, defs)
    requires forall key :: key in fields ==>
      Approximates(Unfold(Expand(fields[key], defs, stack), defs, k), Unfold(fields[key], defs, l))
    ensures Approximates(Unfold(Obj(ExpandFields(fields, defs, stack)), defs, k), Unfold(Obj(fields), defs, l))
  {
    ExpandedRef(fields, defs, stack);
    NodesApproximate(ExpandFields(fields, defs, stack), k, fields, l, defs);
  }

  lemma ExpandCases(fields: Fields, defs: Defs, stack: set<string>)
    ensures Expand(Obj(fields), defs, stack) ==
      (var ref := LocalRef(fields);
       if ref.Some? && ref.value in stack then Obj(fields)
       else if ref.Some? && Resolves(defs, ref.value) then
         Expand(Obj(Overlay(defs[ref.value].fields, fields)), defs, stack + {ref.value})
       else Obj(ExpandFields(fields, defs, stack)))
  {
  }

  lemma UnfoldResolved(fields: Fields, defs: Defs, k: nat)
    requires !IsPlain(fields, defs) && k > 0
    ensures Unfold(Obj(fields), defs, k) ==
      Unfold(Obj(Overlay(defs[LocalRef(fields).value].fields, fields)), defs, k - 1)
  {
  }

  // The expansion unfolds no further in k steps than the original in k + d.
  ghost predicate AddsNothing(j: Json, defs: Defs, stack: set<string>, k: nat, d: nat) {
    Approximates(Unfold(Expand(j, defs, stack), defs, k), Unfold(j, defs, k + d))
  }

  lemma ItemsAddNothing(items: seq<Json>, defs: Defs, stack: set<string>, k: nat, d: nat)
    requires forall i :: 0 <= i < |items| ==> AddsNothing(items[i], defs, stack, k, d)
    ensures AddsNothing(Arr(items), defs, stack, k, d)
  {
    hide Unfold, Expand;
    ExpandedItems(items, defs, stack, k, k + d);
  }

  lemma StackedAddsNothing(fields: Fields, defs: Defs, stack: set<string>, k: nat, d: nat)
    requires LocalRef(fields).Some? && LocalRef(fields).value in stack
    ensures AddsNothing(Obj(fields), defs, stack, k, d)
  {
    hide Unfold, Expand, Approximates;
    ExpandCases(fields, defs, stack);
    MuchDeeperIsFiner(Obj(fields), defs, k, d);
  }

  lemma InlinedAddsNothing(fields: Fields, defs: Defs, stack: set<string>, k: nat, d: nat)
    requires LocalRef(fields).Some? && LocalRef(fields).value !in stack
      && Resolves(defs, LocalRef(fields).value) && d > 0
    requires var n := LocalRef(fields).value;
      AddsNothing(Obj(Overlay(defs[n].fields, fields)), defs, stack + {n}, k, d - 1)
    ensures AddsNothing(Obj(fields), defs, stack, k, d)
  {
    hide Unfold, Expand, Approximates, Overlay;
    ExpandCases(fields, defs, stack);
    UnfoldResolved(fields, defs, k + d);
  }

  lemma FieldsAddNothing(fields: Fields, defs: Defs, stack: set<string>, k: nat, d: nat)
    requires IsPlain(fields, defs) && (LocalRef(fields).Some? ==> LocalRef(fields).value !in stack)
    requires forall key :: key in fields ==> AddsNothing(fields[key], defs, stack, k, d)
    ensures AddsNothing(Obj(fields), defs, stack, k, d)
  {
    hide Unfold, Expand, Approximates, ExpandFields;
    ExpandCases(fields, defs, stack);
    ExpandedFields(fields, defs, stack, k, k + d);
  }

  lemma LeafAddsNothing(j: Json, defs: Defs, stack: set<string>, k: nat, d: nat)
    requires j.Other? || j.Str?
    ensures AddsNothing(j, defs, stack, k, d)
  {
    hide Unfold, Approximates;
    MuchDeeperIsFiner(j, defs, k, d);
  }

  // Nothing is invented: it never unfolds further than the original does with one more level per definition.
  lemma {:induction false} ExpansionAddsNothing(j: Json, defs: Defs, stack: set<string>, k: nat, d: nat)
    requires d >= |defs.Keys - stack|
    ensures AddsNothing(j, defs, stack, k, d)
    decreases d, j
  {
    hide LocalRef, Overlay, AddsNothing;
    match j
    case Arr(items) =>
      forall i | 0 <= i < |items| ensures AddsNothing(items[i], defs, stack, k, d) {
        ExpansionAddsNothing(items[i], defs, stack, k, d);
      }
      ItemsAddNothing(items, defs, stack, k, d);
    case Obj(fields) =>
      var ref := LocalRef(fields);
      if ref.Some? && ref.value in stack {
        StackedAddsNothing(fields, defs, stack, k, d);
      } else if ref.Some? && Resolves(defs, ref.value) {
        OneLessToInline(defs, stack, ref.value);
        ExpansionAddsNothing(Obj(Overlay(defs[ref.value].fields, fields)), defs, stack + {ref.value}, k, d - 1);
        InlinedAddsNothing(fields, defs, stack, k, d);
      } else {
        forall key | key in fields ensures AddsNothing(fields[key], defs, stack, k, d) {
          ExpansionAddsNothing(fields[key], defs, stack, k, d);
        }
        FieldsAddNothing(fields, defs, stack, k, d);
      }
    case _ => LeafAddsNothing(j, defs, stack, k, d);
  }

  // ----- What is left to resolve -----

  ghost predicate Residual(j: Json, defs: Defs) {
    exists n :: n in Refs(j) && Resolves(defs, n)
  }

  // A chain of definitions, each referred to by the one before; the first by `from`.
  ghost predicate Chain(from: Json, defs: Defs, chain: seq<string>) {
    && (forall i :: 0 <= i < |chain| ==> Resolves(defs, chain[i]))
    && (chain != [] ==> chain[0] in Refs(from))
    && forall i :: 0 < i < |chain| ==> chain[i] in Refs(defs[chain[i - 1]])
  }

  ghost predicate Reaches(from: Json, defs: Defs, n: string) {
    exists chain :: |chain| > 0 && Chain(from, defs, chain) && chain[|chain| - 1] == n
  }

  // Some definition the schema needs refers, directly or indirectly, to itself.
  ghost predicate Cyclic(j: Json, defs: Defs) {
    exists n :: Reaches(j, defs, n) && Resolves(defs, n) && Reaches(defs[n], defs, n)
  }

  lemma ReachesDirect(from: Json, defs: Defs, n: string)
    requires n in Refs(from) && Resolves(defs, n)
    ensures Reaches(from, defs, n)
  {
    assert Chain(from, defs, [n]) && [n][0] == n;
  }

  lemma ReachesThrough(from: Json, defs: Defs, m: string, n: string)
    requires m in Refs(from) && Resolves(defs, m) && Reaches(defs[m], defs, n)
    ensures Reaches(from, defs, n)
  {
    var chain :| |chain| > 0 && Chain(defs[m], defs, chain) && chain[|chain| - 1] == n;
    var longer := [m] + chain;
    assert forall i :: 0 < i < |longer| ==> longer[i] == chain[i - 1];
    assert Chain(from, defs, longer) && longer[|longer| - 1] == n;
  }

  // Reachability only depends on the references of the start.
  lemma ReachesMonotone(from: Json, other: Json, defs: Defs, n: string)
    requires Reaches(from, defs, n) && Refs(from) <= Refs(other)
    ensures Reaches(other, defs, n)
  {
    var chain :| |chain| > 0 && Chain(from, defs, chain) && chain[|chain| - 1] == n;
    assert Chain(other, defs, chain);
  }

  // ----- Tidy references -----

  ghost function SiblingRefs(fields: Fields): set<string> {
    set key, n | key in fields && key != REF && n in Refs(fields[key]) :: n
  }

  // Keys under which some definition holds references.
  ghost predicate BearsRefs(defs: Defs, key: string) {
    exists n :: Resolves(defs, n) && key in defs[n].fields && Refs(defs[n].fields[key]) != {}
  }

  // `strict` also asks that no sibling hides a part of a definition that holds references.
  ghost predicate Tidy(j: Json, defs: Defs, strict: bool) {
    match j
    case Arr(items) => forall i :: 0 <= i < |items| ==> Tidy(items[i], defs, strict)
    case Obj(fields) =>
      && (forall key :: key in fields ==> Tidy(fields[key], defs, strict))
      && (!IsPlain(fields, defs) ==> SiblingRefs(fields) == {})
      && (!IsPlain(fields, defs) && strict ==> forall key :: key in fields && key != REF ==> !BearsRefs(defs, key))
    case _ => true
  }

  ghost predicate TidyDefs(defs: Defs, strict: bool) {
    forall n :: n in defs ==> Tidy(defs[n], defs, strict)
  }
}
