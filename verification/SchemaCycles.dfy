// When inlining leaves nothing to resolve.
module SchemaCycles {
  import opened Schema
  import opened SchemaExpansion
  import opened Options

  ghost predicate ResolvableStack(defs: Defs, stack: set<string>) {
    forall n :: n in stack ==> Resolves(defs, n)
  }

  lemma NoSiblingRefs(fields: Fields)
    requires SiblingRefs(fields) == {}
    ensures forall key :: key in fields && key != REF ==> Refs(fields[key]) == {}
  {
    forall key | key in fields && key != REF ensures Refs(fields[key]) == {} {
      assert Refs(fields[key]) <= SiblingRefs(fields);
    }
  }

  lemma RefsOfReference(fields: Fields, defs: Defs)
    requires !IsPlain(fields, defs) && SiblingRefs(fields) == {}
    ensures Refs(Obj(fields)) == {LocalRef(fields).value}
  {
    NoSiblingRefs(fields);
  }

  // What a reference is replaced by is as tidy as its parts and holds the references of the definition only.
  lemma InlinedIsTidy(fields: Fields, defs: Defs, strict: bool)
    requires Tidy(Obj(fields), defs, strict) && TidyDefs(defs, strict) && !IsPlain(fields, defs)
    ensures var n := LocalRef(fields).value; var inlined := Overlay(defs[n].fields, fields);
      Tidy(Obj(inlined), defs, strict) && Refs(Obj(inlined)) <= Refs(defs[n])
  {
    var target := defs[LocalRef(fields).value].fields;
    var inlined := Overlay(target, fields);
    assert Tidy(Obj(target), defs, strict);
    assert LocalRef(inlined) == LocalRef(target);
    NoSiblingRefs(fields);
    forall key, n | key in inlined && n in Refs(inlined[key]) ensures key in target && n in Refs(target[key]) {}
    if !IsPlain(inlined, defs) {
      forall n | n in SiblingRefs(inlined) ensures n in SiblingRefs(target) {
        var key :| key in inlined && key != REF && n in Refs(inlined[key]);
      }
    }
    forall n | n in Refs(Obj(inlined)) ensures n in Refs(Obj(target)) {
      if LocalRef(inlined) != Some(n) {
        var key :| key in inlined && n in Refs(inlined[key]);
      }
    }
  }

  // Without overriding siblings it holds all of them.
  lemma InlinedKeepsRefs(fields: Fields, defs: Defs)
    requires Tidy(Obj(fields), defs, true) && !IsPlain(fields, defs)
    ensures Refs(defs[LocalRef(fields).value]) <= Refs(Obj(Overlay(defs[LocalRef(fields).value].fields, fields)))
  {
    var n := LocalRef(fields).value;
    var target := defs[n].fields;
    var inlined := Overlay(target, fields);
    assert LocalRef(inlined) == LocalRef(target);
    forall m | m in Refs(Obj(target)) ensures m in Refs(Obj(inlined)) {
      if LocalRef(target) != Some(m) {
        var key :| key in target && m in Refs(target[key]);
        assert BearsRefs(defs, key);
        assert inlined[key] == target[key];
      }
    }
  }

  // A reference left in the result is on the stack or refers to itself through its definition.
  lemma {:induction false} ResidualIsCyclic(j: Json, defs: Defs, stack: set<string>, m: string)
    requires Tidy(j, defs, false) && TidyDefs(defs, false) && ResolvableStack(defs, stack)
    requires m in Refs(Expand(j, defs, stack)) && Resolves(defs, m)
    ensures Reaches(j, defs, m) && (m in stack || Reaches(defs[m], defs, m))
    decreases defs.Keys - stack, j
  {
    match j
    case Arr(items) =>
      var i :| 0 <= i < |items| && m in Refs(Expand(items[i], defs, stack));
      ResidualIsCyclic(items[i], defs, stack, m);
      ReachesMonotone(items[i], j, defs, m);
    case Obj(fields) =>
      if !IsPlain(fields, defs) {
        var n := LocalRef(fields).value;
        RefsOfReference(fields, defs);
        if n in stack {
          ReachesDirect(j, defs, m);
        } else {
          var inlined := Obj(Overlay(defs[n].fields, fields));
          InlinedIsTidy(fields, defs, false);
          ResidualIsCyclic(inlined, defs, stack + {n}, m);
          ReachesMonotone(inlined, defs[n], defs, m);
          ReachesThrough(j, defs, n, m);
        }
      } else {
        ExpandedRef(fields, defs, stack);
        assert Expand(j, defs, stack) == Obj(ExpandFields(fields, defs, stack));
        var key :| key in fields && m in Refs(Expand(fields[key], defs, stack));
        ResidualIsCyclic(fields[key], defs, stack, m);
        ReachesMonotone(fields[key], j, defs, m);
      }
    case _ =>
  }

  // ----- The exact condition -----

  // A place of j that refers to a definition and is not itself below such a place.
  ghost predicate IsPlace(j: Json, defs: Defs, place: Fields) {
    match j
    case Arr(items) => exists i :: 0 <= i < |items| && IsPlace(items[i], defs, place)
    case Obj(fields) =>
      if IsPlain(fields, defs) then exists key :: key in fields && IsPlace(fields[key], defs, place)
      else place == fields
    case _ => false
  }

  ghost predicate IsReference(place: Fields, defs: Defs) { !IsPlain(place, defs) }

  function NameOf(place: Fields): string {
    if LocalRef(place).Some? then LocalRef(place).value else ""
  }

  // What the place is replaced by, before that is expanded in turn.
  function Inlined(place: Fields, defs: Defs): Json
    requires !IsPlain(place, defs)
  {
    Obj(Overlay(defs[NameOf(place)].fields, place))
  }

  // Places that an expansion of j meets inside each other: each in what replaces the one before.
  ghost predicate IsRun(j: Json, defs: Defs, run: seq<Fields>)
    decreases |run|
  {
    run == [] || (IsPlace(j, defs, run[0]) && IsReference(run[0], defs) && IsRun(Inlined(run[0], defs), defs, run[1..]))
  }

  // The last place needs a definition that is being inlined already.
  ghost predicate Returns(run: seq<Fields>, stack: set<string>) {
    run != []
      && (NameOf(run[|run| - 1]) in stack || exists i :: 0 <= i < |run| - 1 && NameOf(run[i]) == NameOf(run[|run| - 1]))
  }

  ghost predicate Repeats(j: Json, defs: Defs, stack: set<string>) {
    exists run :: IsRun(j, defs, run) && Returns(run, stack)
  }

  lemma RepeatsInItems(items: seq<Json>, defs: Defs, stack: set<string>)
    ensures Repeats(Arr(items), defs, stack) <==> exists i :: 0 <= i < |items| && Repeats(items[i], defs, stack)
  {
    if run :| IsRun(Arr(items), defs, run) && Returns(run, stack) {
      var i :| 0 <= i < |items| && IsPlace(items[i], defs, run[0]);
      assert IsRun(items[i], defs, run);
    }
    if i :| 0 <= i < |items| && Repeats(items[i], defs, stack) {
      var run :| IsRun(items[i], defs, run) && Returns(run, stack);
      assert IsRun(Arr(items), defs, run);
    }
  }

  lemma RepeatsInFields(fields: Fields, defs: Defs, stack: set<string>)
    requires IsPlain(fields, defs)
    ensures Repeats(Obj(fields), defs, stack) <==> exists key :: key in fields && Repeats(fields[key], defs, stack)
  {
    if run :| IsRun(Obj(fields), defs, run) && Returns(run, stack) {
      var key :| key in fields && IsPlace(fields[key], defs, run[0]);
      assert IsRun(fields[key], defs, run);
    }
    if key :| key in fields && Repeats(fields[key], defs, stack) {
      var run :| IsRun(fields[key], defs, run) && Returns(run, stack);
      assert IsRun(Obj(fields), defs, run);
    }
  }

  lemma RunFromPlace(fields: Fields, defs: Defs, rest: seq<Fields>)
    requires !IsPlain(fields, defs)
    ensures IsRun(Obj(fields), defs, [fields] + rest) <==> IsRun(Inlined(fields, defs), defs, rest)
  {
    assert ([fields] + rest)[1..] == rest;
  }

  lemma RunStartsAtPlace(fields: Fields, defs: Defs, run: seq<Fields>)
    requires !IsPlain(fields, defs) && IsRun(Obj(fields), defs, run) && run != []
    ensures run == [fields] + run[1..]
  {
  }

  lemma ReturnsLater(first: Fields, rest: seq<Fields>, stack: set<string>)
    requires NameOf(first) !in stack
    ensures Returns([first] + rest, stack) <==> Returns(rest, stack + {NameOf(first)})
  {
    var run := [first] + rest;
    assert forall i :: 0 <= i < |rest| ==> rest[i] == run[i + 1];
    if rest != [] && NameOf(rest[|rest| - 1]) == NameOf(first) {
      assert NameOf(run[0]) == NameOf(run[|run| - 1]);
    }
  }

  lemma RepeatsAtPlace(fields: Fields, defs: Defs, stack: set<string>)
    requires !IsPlain(fields, defs)
    ensures NameOf(fields) in stack ==> Repeats(Obj(fields), defs, stack)
    ensures NameOf(fields) !in stack ==>
      (Repeats(Obj(fields), defs, stack) <==> Repeats(Inlined(fields, defs), defs, stack + {NameOf(fields)}))
  {
    var n := NameOf(fields);
    if n in stack {
      var none: seq<Fields> := [];
      assert IsRun(Inlined(fields, defs), defs, none) && [fields] + none == [fields];
      RunFromPlace(fields, defs, none);
      assert Returns([fields], stack);
    } else {
      hide IsRun, Returns;
      if run :| IsRun(Obj(fields), defs, run) && Returns(run, stack) {
        ReturnsSomewhere(run, stack);
        RunStartsAtPlace(fields, defs, run);
        RunFromPlace(fields, defs, run[1..]);
        ReturnsLater(fields, run[1..], stack);
      }
      if rest :| IsRun(Inlined(fields, defs), defs, rest) && Returns(rest, stack + {n}) {
        RunFromPlace(fields, defs, rest);
        ReturnsLater(fields, rest, stack);
      }
    }
  }

  lemma ReturnsSomewhere(run: seq<Fields>, stack: set<string>)
    ensures Returns(run, stack) ==> run != []
  {
  }

  lemma ResidualInItems(items: seq<Json>, defs: Defs, stack: set<string>)
    ensures Residual(Expand(Arr(items), defs, stack), defs) <==>
      exists i :: 0 <= i < |items| && Residual(Expand(items[i], defs, stack), defs)
  {
    var result := Expand(Arr(items), defs, stack).items;
    forall i | 0 <= i < |items|
      ensures result[i] == Expand(items[i], defs, stack) && Refs(result[i]) <= Refs(Arr(result))
    {
    }
    if n :| n in Refs(Arr(result)) && Resolves(defs, n) {
      var i :| 0 <= i < |result| && n in Refs(result[i]);
      assert Residual(Expand(items[i], defs, stack), defs);
    }
    if i :| 0 <= i < |items| && Residual(Expand(items[i], defs, stack), defs) {
      var n :| n in Refs(result[i]) && Resolves(defs, n);
      assert n in Refs(Arr(result));
    }
  }

  lemma ResidualInFields(fields: Fields, defs: Defs, stack: set<string>)
    requires IsPlain(fields, defs) && ResolvableStack(defs, stack)
    ensures Residual(Expand(Obj(fields), defs, stack), defs) <==>
      exists key :: key in fields && Residual(Expand(fields[key], defs, stack), defs)
  {
    ExpandedRef(fields, defs, stack);
    var result := ExpandFields(fields, defs, stack);
    assert Expand(Obj(fields), defs, stack) == Obj(result);
    forall key | key in fields
      ensures result[key] == Expand(fields[key], defs, stack) && Refs(result[key]) <= Refs(Obj(result))
    {
    }
    if n :| n in Refs(Obj(result)) && Resolves(defs, n) {
      var key :| key in result && n in Refs(result[key]);
      assert Residual(Expand(fields[key], defs, stack), defs);
    }
    if key :| key in fields && Residual(Expand(fields[key], defs, stack), defs) {
      var n :| n in Refs(result[key]) && Resolves(defs, n);
      assert n in Refs(Obj(result));
    }
  }

  // Inlining leaves a resolvable reference exactly when some run of places, each in what replaces the one before,
  // comes back to a definition: whatever the siblings of references hold or hide.
  lemma {:induction false} ResidualIffRepeats(j: Json, defs: Defs, stack: set<string>)
    requires ResolvableStack(defs, stack)
    ensures Residual(Expand(j, defs, stack), defs) <==> Repeats(j, defs, stack)
    decreases defs.Keys - stack, j
  {
    hide Residual, Repeats, Refs, Overlay, LocalRef;
    match j
    case Arr(items) =>
      forall i | 0 <= i < |items|
        ensures Residual(Expand(items[i], defs, stack), defs) <==> Repeats(items[i], defs, stack)
      {
        ResidualIffRepeats(items[i], defs, stack);
      }
      ResidualInItems(items, defs, stack);
      RepeatsInItems(items, defs, stack);
    case Obj(fields) =>
      if IsPlain(fields, defs) {
        forall key | key in fields
          ensures Residual(Expand(fields[key], defs, stack), defs) <==> Repeats(fields[key], defs, stack)
        {
          ResidualIffRepeats(fields[key], defs, stack);
        }
        ResidualInFields(fields, defs, stack);
        RepeatsInFields(fields, defs, stack);
      } else {
        RepeatsAtPlace(fields, defs, stack);
        if NameOf(fields) in stack {
          StackedIsResidual(fields, defs, stack);
        } else {
          ExpandCases(fields, defs, stack);
          ResidualIffRepeats(Inlined(fields, defs), defs, stack + {NameOf(fields)});
        }
      }
    case _ =>
      NothingInside(j, defs, stack);
  }

  lemma StackedIsResidual(fields: Fields, defs: Defs, stack: set<string>)
    requires !IsPlain(fields, defs) && NameOf(fields) in stack
    ensures Residual(Expand(Obj(fields), defs, stack), defs)
  {
    assert NameOf(fields) in Refs(Obj(fields));
  }

  lemma NothingInside(j: Json, defs: Defs, stack: set<string>)
    requires j.Other? || j.Str?
    ensures !Residual(Expand(j, defs, stack), defs) && !Repeats(j, defs, stack)
  {
  }

  // ----- Acyclic definitions -----

  lemma {:induction false} PlaceIsTidy(j: Json, defs: Defs, place: Fields, strict: bool)
    requires Tidy(j, defs, strict) && IsPlace(j, defs, place)
    ensures !IsPlain(place, defs) && Tidy(Obj(place), defs, strict) && NameOf(place) in Refs(j)
  {
    match j
    case Arr(items) =>
      var i :| 0 <= i < |items| && IsPlace(items[i], defs, place);
      PlaceIsTidy(items[i], defs, place, strict);
    case Obj(fields) =>
      if IsPlain(fields, defs) {
        var key :| key in fields && IsPlace(fields[key], defs, place);
        PlaceIsTidy(fields[key], defs, place, strict);
      }
    case _ =>
  }

  function Names(run: seq<Fields>): seq<string> {
    seq(|run|, i requires 0 <= i < |run| => NameOf(run[i]))
  }

  lemma NoChain(from: Json, defs: Defs)
    ensures Chain(from, defs, [])
  {
  }

  lemma ChainFrom(from: Json, defs: Defs, n: string, chain: seq<string>)
    requires n in Refs(from) && Resolves(defs, n) && Chain(defs[n], defs, chain)
    ensures Chain(from, defs, [n] + chain)
  {
    hide Refs;
  }

  lemma {:induction false} RunIsChain(from: Json, j: Json, defs: Defs, run: seq<Fields>)
    requires Tidy(j, defs, false) && TidyDefs(defs, false) && Refs(j) <= Refs(from) && IsRun(j, defs, run)
    ensures Chain(from, defs, Names(run))
    decreases |run|
  {
    hide Chain, Refs;
    if run == [] {
      NoChain(from, defs);
    } else {
      var place, n := run[0], NameOf(run[0]);
      PlaceIsTidy(j, defs, place, false);
      InlinedIsTidy(place, defs, false);
      RunIsChain(defs[n], Inlined(place, defs), defs, run[1..]);
      assert Names(run) == [n] + Names(run[1..]);
      ChainFrom(from, defs, n, Names(run[1..]));
    }
  }

  lemma ChainFront(from: Json, defs: Defs, chain: seq<string>, i: nat)
    requires Chain(from, defs, chain) && i < |chain|
    ensures Reaches(from, defs, chain[i])
  {
    hide Refs;
    var front := chain[..i + 1];
    assert front[i] == chain[i] && Chain(from, defs, front);
  }

  lemma ChainBetween(from: Json, defs: Defs, chain: seq<string>, i: nat, k: nat)
    requires Chain(from, defs, chain) && i < k < |chain|
    ensures Resolves(defs, chain[i]) && Reaches(defs[chain[i]], defs, chain[k])
  {
    hide Refs;
    var part := chain[i + 1..k + 1];
    assert forall x :: 0 <= x < |part| ==> part[x] == chain[i + 1 + x];
    assert Chain(defs[chain[i]], defs, part) && part[|part| - 1] == chain[k];
  }

  lemma RepeatsIsCyclic(j: Json, defs: Defs)
    requires Tidy(j, defs, false) && TidyDefs(defs, false) && Repeats(j, defs, {})
    ensures Cyclic(j, defs)
  {
    hide Tidy, TidyDefs, IsRun, Refs, Chain, Reaches;
    var run :| IsRun(j, defs, run) && Returns(run, {});
    var k := |run| - 1;
    var i :| 0 <= i < k && NameOf(run[i]) == NameOf(run[k]);
    RunIsChain(j, j, defs, run);
    ChainFront(j, defs, Names(run), i);
    ChainBetween(j, defs, Names(run), i, k);
  }

  // Inlining a schema whose reachable definitions are acyclic resolves every reference.
  lemma AcyclicIsFullyInlined(j: Json, defs: Defs)
    requires Tidy(j, defs, false) && TidyDefs(defs, false) && !Cyclic(j, defs)
    ensures !Residual(Expand(j, defs, {}), defs)
  {
    ResidualIffRepeats(j, defs, {});
    if Repeats(j, defs, {}) {
      RepeatsIsCyclic(j, defs);
    }
  }

  // Where references have no siblings with references, each resolvable one is at a place.
  lemma {:induction false} FindPlace(j: Json, defs: Defs, m: string) returns (place: Fields)
    requires Tidy(j, defs, true) && m in Refs(j) && Resolves(defs, m)
    ensures IsPlace(j, defs, place) && NameOf(place) == m
  {
    match j
    case Arr(items) =>
      var i :| 0 <= i < |items| && m in Refs(items[i]);
      place := FindPlace(items[i], defs, m);
    case Obj(fields) =>
      if !IsPlain(fields, defs) {
        RefsOfReference(fields, defs);
        place := fields;
      } else {
        var key :| key in fields && m in Refs(fields[key]);
        place := FindPlace(fields[key], defs, m);
      }
    case _ =>
  }

  lemma ChainTail(from: Json, other: Json, defs: Defs, chain: seq<string>)
    requires Chain(from, defs, chain) && chain != [] && Refs(defs[chain[0]]) <= Refs(other)
    ensures Chain(other, defs, chain[1..])
  {
    hide Refs;
    assert forall i :: 0 <= i < |chain| - 1 ==> chain[1..][i] == chain[i + 1];
  }

  lemma RunOnwards(j: Json, defs: Defs, place: Fields, tail: seq<Fields>)
    requires IsPlace(j, defs, place) && !IsPlain(place, defs) && IsRun(Inlined(place, defs), defs, tail)
    ensures IsRun(j, defs, [place] + tail) && Names([place] + tail) == [NameOf(place)] + Names(tail)
  {
    hide IsPlace, Inlined;
    assert ([place] + tail)[1..] == tail;
  }

  lemma {:induction false} ChainIsRun(j: Json, defs: Defs, chain: seq<string>) returns (run: seq<Fields>)
    requires Tidy(j, defs, true) && TidyDefs(defs, true) && Chain(j, defs, chain)
    ensures IsRun(j, defs, run) && Names(run) == chain
    decreases |chain|
  {
    hide Tidy, TidyDefs, Refs, Overlay, IsPlace, Names, IsRun;
    if chain == [] {
      run := [];
      EmptyRun(j, defs);
    } else {
      var place := FindPlace(j, defs, chain[0]);
      PlaceIsTidy(j, defs, place, true);
      InlinedIsTidy(place, defs, true);
      InlinedKeepsRefs(place, defs);
      ChainTail(j, Inlined(place, defs), defs, chain);
      hide Chain;
      var tail := ChainIsRun(Inlined(place, defs), defs, chain[1..]);
      RunOnwards(j, defs, place, tail);
      run := [place] + tail;
      assert chain == [chain[0]] + chain[1..];
    }
  }

  lemma EmptyRun(j: Json, defs: Defs)
    ensures IsRun(j, defs, []) && Names([]) == []
  {
  }

  lemma {:induction false} RunPrefix(j: Json, defs: Defs, run: seq<Fields>, n: nat)
    requires IsRun(j, defs, run) && n <= |run|
    ensures IsRun(j, defs, run[..n])
    decreases |run|
  {
    if n > 0 {
      RunPrefix(Inlined(run[0], defs), defs, run[1..], n - 1);
      assert run[..n][1..] == run[1..][..n - 1];
    }
  }

  lemma ChainsJoin(j: Json, defs: Defs, n: string) returns (chain: seq<string>, i: nat, k: nat)
    requires Reaches(j, defs, n) && Resolves(defs, n) && Reaches(defs[n], defs, n)
    ensures Chain(j, defs, chain) && i < k < |chain| && chain[i] == chain[k]
  {
    hide Refs;
    var first :| |first| > 0 && Chain(j, defs, first) && first[|first| - 1] == n;
    var second :| |second| > 0 && Chain(defs[n], defs, second) && second[|second| - 1] == n;
    chain := first + second;
    i, k := |first| - 1, |chain| - 1;
    ChainAppends(j, defs, first, second);
  }

  lemma ChainAppends(j: Json, defs: Defs, first: seq<string>, second: seq<string>)
    requires first != [] && Chain(j, defs, first) && Chain(defs[first[|first| - 1]], defs, second)
    ensures Chain(j, defs, first + second)
  {
    hide Refs;
    var chain := first + second;
    forall x | 0 < x < |chain| ensures Resolves(defs, chain[x]) && chain[x] in Refs(defs[chain[x - 1]]) {
      var y, z := x - |first|, x - |first| - 1;
      if y > 0 {
        assert second[y] in Refs(defs[second[z]]);
      }
    }
  }

  lemma CyclicRepeats(j: Json, defs: Defs)
    requires Tidy(j, defs, true) && TidyDefs(defs, true) && Cyclic(j, defs)
    ensures Repeats(j, defs, {})
  {
    hide Tidy, TidyDefs, Refs, Chain, Reaches, IsRun;
    var n :| Reaches(j, defs, n) && Resolves(defs, n) && Reaches(defs[n], defs, n);
    var chain, i, k := ChainsJoin(j, defs, n);
    var run := ChainIsRun(j, defs, chain);
    RunPrefix(j, defs, run, k + 1);
    assert NameOf(run[i]) == Names(run)[i] && NameOf(run[k]) == Names(run)[k];
    assert Returns(run[..k + 1], {});
  }

  // With references whose siblings neither hold nor hide references: nothing is left to resolve
  // exactly when no definition the schema needs refers back to itself.
  lemma FullyInlinedIffAcyclic(j: Json, defs: Defs)
    requires Tidy(j, defs, true) && TidyDefs(defs, true)
    ensures !Residual(Expand(j, defs, {}), defs) <==> !Cyclic(j, defs)
  {
    ResidualIffRepeats(j, defs, {});
    StrictIsTidy(j, defs);
    forall n | n in defs ensures Tidy(defs[n], defs, false) { StrictIsTidy(defs[n], defs); }
    if Cyclic(j, defs) {
      CyclicRepeats(j, defs);
    }
    if Repeats(j, defs, {}) {
      RepeatsIsCyclic(j, defs);
    }
  }

  lemma {:induction false} StrictIsTidy(j: Json, defs: Defs)
    requires Tidy(j, defs, true)
    ensures Tidy(j, defs, false)
  {
    match j
    case Arr(items) => forall i | 0 <= i < |items| ensures Tidy(items[i], defs, false) { StrictIsTidy(items[i], defs); }
    case Obj(fields) =>
      forall key | key in fields
        ensures Tidy(fields[key], defs, false)
      {
        StrictIsTidy(fields[key], defs);
      }
    case _ =>
  }

  // A sibling that refers to the definition being inlined is caught by the guard although nothing is cyclic.
  lemma SiblingReferenceExample()
    ensures var defs := map["X" := Obj(map["type" := Str("object")])];
      var j := Obj(map[REF := RefTo("X"), "items" := Obj(map[REF := RefTo("X")])]);
      !Cyclic(j, defs) && Residual(Expand(j, defs, {}), defs)
  {
    var defs := map["X" := Obj(map["type" := Str("object")])];
    var inner := map[REF := RefTo("X")];
    var fields := map[REF := RefTo("X"), "items" := Obj(inner)];
    RefToName("X");
    assert LocalRef(inner) == Some("X") && LocalRef(fields) == Some("X");
    var inlined := Overlay(defs["X"].fields, fields);
    assert inlined == map["type" := Str("object"), "items" := Obj(inner)];
    assert LocalRef(inlined) == None;
    var stack: set<string> := {};
    assert stack + {"X"} == {"X"} && Resolves(defs, "X");
    assert Expand(Obj(fields), defs, stack) == Expand(Obj(inlined), defs, {"X"});
    var result := ExpandFields(inlined, defs, {"X"});
    assert result["items"] == Expand(Obj(inner), defs, {"X"}) == Obj(inner);
    assert "X" in Refs(Obj(inner));
    assert "X" in Refs(Obj(result));
    assert Refs(defs["X"]) == {};
    forall n | Reaches(Obj(fields), defs, n) && Resolves(defs, n) ensures !Reaches(defs[n], defs, n) {
      assert n == "X";
    }
  }
}
