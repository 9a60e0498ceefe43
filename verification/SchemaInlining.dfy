// What an inlined reference holds, member by member.
module SchemaInlining {
  import opened Schema
  import opened SchemaExpansion
  import opened Options

  // {"$ref": "#/$defs/<name>", ...}
  ghost predicate RefersTo(fields: Fields, name: string) {
    "$ref" in fields && fields["$ref"] == Str("#/$defs/" + name)
  }

  // Each layer refers to a definition that is the next layer; no name is on the stack or taken twice.
  ghost predicate IsLayers(defs: Defs, stack: set<string>, names: seq<string>, layers: seq<Fields>) {
    && |layers| == |names| + 1
    && (forall i :: 0 <= i < |names| ==>
          RefersTo(layers[i], names[i]) && names[i] in defs && defs[names[i]] == Obj(layers[i + 1]))
    && (forall i :: 0 <= i < |names| ==> names[i] !in stack)
    && forall i, j :: 0 <= i < j < |names| ==> names[i] != names[j]
  }

  ghost function Taken(stack: set<string>, names: seq<string>): set<string> {
    stack + set n | n in names
  }

  // The innermost layer refers to a name that is taken, so it stays a reference and everything is left as it is.
  ghost predicate IsGuarded(taken: set<string>, last: Fields) {
    exists n :: RefersTo(last, n) && n in taken
  }

  // There is no further layer.
  ghost predicate Ends(defs: Defs, taken: set<string>, last: Fields) {
    forall n :: RefersTo(last, n) ==> n in taken || n !in defs || !defs[n].Obj?
  }

  // The member of the outermost layer that has one.
  ghost function MemberOf(layers: seq<Fields>, key: string): Option<Json> {
    if layers == [] then None
    else if key in layers[0] then Some(layers[0][key])
    else MemberOf(layers[1..], key)
  }

  ghost function Settled(j: Json, defs: Defs, taken: set<string>, guarded: bool): Json {
    if guarded then j else Expand(j, defs, taken)
  }

  // r holds "$ref" as the innermost layer has it and every other member as the outermost layer that has it.
  ghost predicate HoldsLayers(r: Json, defs: Defs, taken: set<string>, layers: seq<Fields>)
    requires layers != []
  {
    var last := layers[|layers| - 1];
    var guarded := IsGuarded(taken, last);
    && r.Obj?
    && ("$ref" in r.fields <==> "$ref" in last)
    && ("$ref" in last ==> r.fields["$ref"] == Settled(last["$ref"], defs, taken, guarded))
    && (forall key :: key != "$ref" ==> (key in r.fields <==> MemberOf(layers, key).Some?))
    && (forall key :: key != "$ref" && key in r.fields ==>
          r.fields[key] == Settled(MemberOf(layers, key).value, defs, taken, guarded))
  }

  lemma RefersIsLocal(fields: Fields, name: string)
    ensures RefersTo(fields, name) <==> LocalRef(fields) == Some(name)
  {
    RefToName(name);
    if LocalRef(fields) == Some(name) {
      assert fields[REF].s == PREFIX + name;
    }
  }

  // Laying the first layer over the second changes no member that counts.
  lemma MembersOfOverlay(first: Fields, second: Fields, rest: seq<Fields>, key: string)
    requires key != "$ref"
    ensures MemberOf([Overlay(second, first)] + rest, key) == MemberOf([first] + ([second] + rest), key)
  {
    assert ([Overlay(second, first)] + rest)[1..] == rest;
    assert ([first] + ([second] + rest))[1..] == [second] + rest;
    assert ([second] + rest)[1..] == rest;
  }

  lemma NoFurtherLayer(fields: Fields, defs: Defs, stack: set<string>)
    requires Ends(defs, stack, fields)
    ensures HoldsLayers(Expand(Obj(fields), defs, stack), defs, stack, [fields])
  {
    forall n ensures RefersTo(fields, n) <==> LocalRef(fields) == Some(n) { RefersIsLocal(fields, n); }
    assert [fields][1..] == [];
    var ref := LocalRef(fields);
    if ref.Some? {
      assert RefersTo(fields, ref.value);
    }
    forall key ensures MemberOf([fields], key) == if key in fields then Some(fields[key]) else None {}
    assert IsGuarded(stack, fields) <==> ref.Some? && ref.value in stack;
  }

  lemma OverlayLayers(defs: Defs, stack: set<string>, names: seq<string>, layers: seq<Fields>)
    requires IsLayers(defs, stack, names, layers) && names != []
    ensures IsLayers(defs, stack + {names[0]}, names[1..], [Overlay(layers[1], layers[0])] + layers[2..])
  {
    var rest, merged := names[1..], [Overlay(layers[1], layers[0])] + layers[2..];
    forall i | 0 <= i < |rest|
      ensures RefersTo(merged[i], rest[i]) && rest[i] in defs && defs[rest[i]] == Obj(merged[i + 1])
      ensures rest[i] !in stack + {names[0]}
    {
      var k := i + 1;
      assert RefersTo(layers[k], names[k]) && defs[names[k]] == Obj(layers[k + 1]);
    }
  }

  lemma ExpandsOverlay(fields: Fields, defs: Defs, stack: set<string>, n: string, second: Fields)
    requires RefersTo(fields, n) && n !in stack && n in defs && defs[n] == Obj(second)
    ensures Expand(Obj(fields), defs, stack) == Expand(Obj(Overlay(second, fields)), defs, stack + {n})
  {
    RefersIsLocal(fields, n);
  }

  // One reference: what holds of the definition with the siblings laid over it holds of the reference.
  lemma ExpansionStep(first: Fields, second: Fields, rest: seq<Fields>, defs: Defs, stack: set<string>, n: string,
                      names: seq<string>)
    requires RefersTo(first, n) && n !in stack && n in defs && defs[n] == Obj(second)
    requires HoldsLayers(Expand(Obj(Overlay(second, first)), defs, stack + {n}), defs, Taken(stack + {n}, names),
                         [Overlay(second, first)] + rest)
    ensures HoldsLayers(Expand(Obj(first), defs, stack), defs, Taken(stack, [n] + names), [first] + ([second] + rest))
  {
    hide HoldsLayers, Overlay, Expand, RefersTo;
    ExpandsOverlay(first, defs, stack, n, second);
    assert Taken(stack + {n}, names) == Taken(stack, [n] + names);
    SameLayers(Expand(Obj(first), defs, stack), defs, Taken(stack, [n] + names), first, second, rest);
  }

  lemma SameEnd(first: Fields, second: Fields, rest: seq<Fields>, defs: Defs, stack: set<string>, n: string,
                names: seq<string>)
    requires Ends(defs, Taken(stack, [n] + names), ([first] + ([second] + rest))[|rest| + 1])
    ensures Ends(defs, Taken(stack + {n}, names), ([Overlay(second, first)] + rest)[|rest|])
  {
    hide Overlay, Ends;
    assert Taken(stack + {n}, names) == Taken(stack, [n] + names);
    LastOfOverlay(defs, Taken(stack, [n] + names), first, second, rest);
    assert ([first] + ([second] + rest))[|rest| + 1] == ([second] + rest)[|rest|];
  }

  // Everything an inlined reference holds: the layers of definitions it goes through, laid over one another.
  lemma {:induction false} ExpansionHoldsLayers(fields: Fields, defs: Defs, stack: set<string>, names: seq<string>,
                                                layers: seq<Fields>)
    requires IsLayers(defs, stack, names, layers) && layers[0] == fields
    requires Ends(defs, Taken(stack, names), layers[|layers| - 1])
    ensures HoldsLayers(Expand(Obj(fields), defs, stack), defs, Taken(stack, names), layers)
    decreases |names|
  {
    hide HoldsLayers, Overlay, Expand, RefersTo, Ends, Taken;
    if names == [] {
      assert layers == [fields];
      NothingTaken(stack);
      NoFurtherLayer(fields, defs, stack);
    } else {
      var n, others, second, rest := names[0], names[1..], layers[1], layers[2..];
      assert names == [n] + others && layers == [fields] + ([second] + rest);
      assert RefersTo(layers[0], names[0]);
      OverlayLayers(defs, stack, names, layers);
      SameEnd(fields, second, rest, defs, stack, n, others);
      ExpansionHoldsLayers(Overlay(second, fields), defs, stack + {n}, others, [Overlay(second, fields)] + rest);
      ExpansionStep(fields, second, rest, defs, stack, n, others);
    }
  }

  lemma NothingTaken(stack: set<string>)
    ensures Taken(stack, []) == stack
  {
  }

  // The innermost layer keeps its reference when the first is laid over the second.
  lemma LastOfOverlay(defs: Defs, taken: set<string>, first: Fields, second: Fields, rest: seq<Fields>)
    ensures var last := ([second] + rest)[|rest|]; var last' := ([Overlay(second, first)] + rest)[|rest|];
      && ("$ref" in last <==> "$ref" in last') && ("$ref" in last ==> last["$ref"] == last'["$ref"])
      && (IsGuarded(taken, last) <==> IsGuarded(taken, last'))
        && (Ends(defs, taken, last) <==> Ends(defs, taken, last'))
  {
    var last := ([second] + rest)[|rest|];
    var last' := ([Overlay(second, first)] + rest)[|rest|];
    forall n ensures RefersTo(last, n) <==> RefersTo(last', n) {}
  }

  lemma SameLayers(r: Json, defs: Defs, taken: set<string>, first: Fields, second: Fields, rest: seq<Fields>)
    requires HoldsLayers(r, defs, taken, [Overlay(second, first)] + rest)
    ensures HoldsLayers(r, defs, taken, [first] + ([second] + rest))
  {
    hide Overlay, MemberOf, IsGuarded;
    LastOfOverlay(defs, taken, first, second, rest);
    forall key | key != "$ref"
      ensures MemberOf([Overlay(second, first)] + rest, key) == MemberOf([first] + ([second] + rest), key)
    {
      MembersOfOverlay(first, second, rest, key);
    }
    assert ([first] + ([second] + rest))[|rest| + 1] == ([second] + rest)[|rest|];
  }

  lemma OneMoreLayer(fields: Fields, defs: Defs, stack: set<string>, n: string, names: seq<string>,
                     layers: seq<Fields>)
    requires RefersTo(fields, n) && n !in stack && n in defs && layers != [] && defs[n] == Obj(layers[0])
    requires IsLayers(defs, stack + {n}, names, layers)
    ensures IsLayers(defs, stack, [n] + names, [fields] + layers)
    ensures Taken(stack, [n] + names) == Taken(stack + {n}, names)
  {
    hide RefersTo;
    var allNames, allLayers := [n] + names, [fields] + layers;
    forall i | 0 <= i < |allNames|
      ensures RefersTo(allLayers[i], allNames[i]) && allNames[i] in defs && defs[allNames[i]] == Obj(allLayers[i + 1])
      ensures allNames[i] !in stack
    {
      if i > 0 {
        var k := i - 1;
        assert RefersTo(layers[k], names[k]);
      }
    }
  }

  // Every reference has its layers.
  lemma {:induction false} LayersOf(fields: Fields, defs: Defs, stack: set<string>)
    returns (names: seq<string>, layers: seq<Fields>)
    ensures IsLayers(defs, stack, names, layers) && layers[0] == fields
    ensures Ends(defs, Taken(stack, names), layers[|layers| - 1])
    decreases defs.Keys - stack
  {
    hide RefersTo;
    if n :| RefersTo(fields, n) && n !in stack && n in defs && defs[n].Obj? {
      var restNames, restLayers := LayersOf(defs[n].fields, defs, stack + {n});
      OneMoreLayer(fields, defs, stack, n, restNames, restLayers);
      names, layers := [n] + restNames, [fields] + restLayers;
      assert layers[|layers| - 1] == restLayers[|restLayers| - 1];
    } else {
      names, layers := [], [fields];
      NothingTaken(stack);
    }
  }

  // A reference to a definition that is no reference itself becomes an object with the definition's members and the
  // siblings, a sibling taking the place of a member of its name.
  lemma InlinedMembers(fields: Fields, defs: Defs, stack: set<string>, name: string, target: Fields)
    requires RefersTo(fields, name) && name !in stack && name in defs && defs[name] == Obj(target)
    requires forall n :: !RefersTo(target, n)
    ensures var r := Expand(Obj(fields), defs, stack);
      && r.Obj? && r.fields.Keys == target.Keys + (fields.Keys - {"$ref"})
      && (forall key :: key in fields && key != "$ref" ==> r.fields[key] == Expand(fields[key], defs, stack + {name}))
      && (forall key :: key in target && (key !in fields || key == "$ref") ==>
            r.fields[key] == Expand(target[key], defs, stack + {name}))
  {
    hide Expand;
    var names, layers := [name], [fields, target];
    assert layers[1..] == [target] && [target][1..] == [];
    assert Taken(stack, names) == stack + {name};
    ExpansionHoldsLayers(fields, defs, stack, names, layers);
    forall key ensures MemberOf(layers, key) ==
      if key in fields then Some(fields[key]) else if key in target then Some(target[key]) else None
    {
      assert MemberOf([target], key) == if key in target then Some(target[key]) else None;
    }
    var r := Expand(Obj(fields), defs, stack);
    forall key ensures key in r.fields <==> key in target || (key in fields && key != "$ref") {}
  }
}
