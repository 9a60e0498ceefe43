// Parent chains of a model: the one definition behind browse paths and the forest check.
module ParentChains {
  import opened Options

  type Id = string
  type Parents = map<Id, Option<Id>>

  // A chain runs from a root down to its last element.
  ghost predicate IsChain(parents: Parents, chain: seq<Id>) {
    && |chain| > 0 && (forall i :: 0 <= i < |chain| ==> chain[i] in parents)
    && parents[chain[0]] == None
    && forall i :: 0 < i < |chain| ==> parents[chain[i]] == Some(chain[i - 1])
  }

  ghost predicate ChainTo(parents: Parents, chain: seq<Id>, id: Id) {
    IsChain(parents, chain) && chain[|chain| - 1] == id
  }

  ghost predicate Rooted(parents: Parents, id: Id) {
    exists chain :: ChainTo(parents, chain, id)
  }

  ghost predicate IsForest(parents: Parents) {
    forall id :: id in parents ==> Rooted(parents, id)
  }

  lemma {:induction false} ChainIsUnique(parents: Parents, c: seq<Id>, d: seq<Id>, id: Id)
    requires ChainTo(parents, c, id) && ChainTo(parents, d, id)
    ensures c == d
    decreases |c|
  {
    assert |c| > 1 ==> parents[id] == Some(c[|c| - 2]);
    assert |d| > 1 ==> parents[id] == Some(d[|d| - 2]);
    if |c| > 1 {
      ChainIsUnique(parents, c[..|c| - 1], d[..|d| - 1], c[|c| - 2]);
      assert c == c[..|c| - 1] + [id] && d == d[..|d| - 1] + [id];
    }
  }

  lemma PrefixIsChain(parents: Parents, c: seq<Id>, n: nat)
    requires IsChain(parents, c) && 0 < n <= |c|
    ensures ChainTo(parents, c[..n], c[n - 1])
  {
  }

  lemma ElementsApart(parents: Parents, c: seq<Id>, i: nat, j: nat)
    requires IsChain(parents, c) && i < j < |c|
    ensures c[i] != c[j]
  {
    PrefixIsChain(parents, c, i + 1);
    PrefixIsChain(parents, c, j + 1);
    if c[i] == c[j] {
      ChainIsUnique(parents, c[..i + 1], c[..j + 1], c[i]);
    }
  }

  // ----- Climbing -----

  function Reverse(s: seq<Id>): seq<Id> {
    seq(|s|, i requires 0 <= i < |s| => s[|s| - 1 - i])
  }

  // The climb from id has passed through up and stands at current.
  ghost predicate Climbed(parents: Parents, up: seq<Id>, id: Id, current: Option<Id>) {
    && (forall i :: 0 <= i < |up| ==> up[i] in parents)
    && (if up == [] then current == Some(id) else up[0] == id && parents[up[|up| - 1]] == current)
    && (forall i :: 0 < i < |up| ==> parents[up[i - 1]] == Some(up[i]))
  }

  lemma ClimbOne(parents: Parents, up: seq<Id>, id: Id, x: Id)
    requires Climbed(parents, up, id, Some(x)) && x in parents
    ensures Climbed(parents, up + [x], id, parents[x])
  {
  }

  // base is the chain down to the place the climb stands at.
  ghost predicate Base(parents: Parents, base: seq<Id>, current: Option<Id>) {
    match current
    case None => base == []
    case Some(x) => ChainTo(parents, base, x)
  }

  lemma ClimbIsChain(parents: Parents, up: seq<Id>, id: Id, current: Option<Id>, base: seq<Id>, k: nat)
    requires Climbed(parents, up, id, current) && Base(parents, base, current) && k < |up|
    ensures ChainTo(parents, base + Reverse(up[k..]), up[k])
  {
    var c, tail := base + Reverse(up[k..]), up[k..];
    assert c[|c| - 1] == up[k];
    forall i | 0 < i < |c| ensures c[i] in parents && parents[c[i]] == Some(c[i - 1]) {
      if i > |base| {
        assert c[i] == tail[|tail| - 1 - (i - |base|)] && c[i - 1] == tail[|tail| - (i - |base|)];
      } else if i == |base| {
        assert c[i] == up[|up| - 1] && c[i - 1] == base[i - 1];
      }
    }
  }

  // A chain to id passes through every element of the climb, so the climb can go on and never meets itself.
  lemma {:induction false} ChainRunsAlongClimb(parents: Parents, up: seq<Id>, id: Id, current: Option<Id>, c: seq<Id>)
    requires Climbed(parents, up, id, current) && ChainTo(parents, c, id)
    ensures |up| <= |c| && Base(parents, c[..|c| - |up|], current)
    ensures forall k :: 0 <= k < |up| ==> up[k] == c[|c| - 1 - k]
    decreases |up|
  {
    if up != [] {
      var x := up[|up| - 1];
      var before := up[..|up| - 1];
      assert Climbed(parents, before, id, Some(x));
      ChainRunsAlongClimb(parents, before, id, Some(x), c);
      var base := c[..|c| - |before|];
      assert base[|base| - 1] == x;
      if |base| > 1 {
        PrefixIsChain(parents, c, |base| - 1);
        assert parents[x] == Some(c[|base| - 2]);
      }
    } else {
      assert c[..|c|] == c;
    }
  }

  lemma ClimbGoesOn(parents: Parents, up: seq<Id>, id: Id, x: Id)
    requires Climbed(parents, up, id, Some(x))
    ensures Rooted(parents, id) ==> x in parents && x !in up
  {
    if c :| ChainTo(parents, c, id) {
      ChainRunsAlongClimb(parents, up, id, Some(x), c);
      var i := |c| - |up| - 1;
      assert c[..|c| - |up|][i] == x;
      forall k | 0 <= k < |up| ensures up[k] != x {
        ElementsApart(parents, c, i, |c| - 1 - k);
      }
    }
  }

  // _validate_parent_chains: no error exactly when every chain reaches a root, without a cycle or a missing element.
  method ValidateParentChains(parents: Parents) returns (ok: bool)
    ensures ok <==> IsForest(parents)
  {
    hide Climbed, Rooted, ChainTo, Base;
    var validated: set<Id> := {};
    var rest := parents.Keys;
    while rest != {}
      invariant rest <= parents.Keys
      invariant forall id :: id in validated ==> Rooted(parents, id)
      invariant parents.Keys - rest <= validated
      decreases rest
    {
      var id :| id in rest;
      rest := rest - {id};
      var chain: seq<Id> := [];
      var visiting: set<Id> := {};
      var current := Some(id);
      ClimbStarts(parents, id);
      while current.Some? && current.value !in validated
        invariant Climbed(parents, chain, id, current)
        invariant visiting <= parents.Keys && forall x :: x in visiting <==> x in chain
        decreases parents.Keys - visiting
      {
        var x := current.value;
        ClimbGoesOn(parents, chain, id, x);
        if x !in parents || x in visiting {
          return false;
        }
        ClimbOne(parents, chain, id, x);
        visiting := visiting + {x};
        chain := chain + [x];
        current := parents[x];
      }
      ClimbIsRooted(parents, chain, id, current);
      validated := validated + set x | x in chain;
    }
    ok := true;
  }

  lemma ClimbStarts(parents: Parents, id: Id)
    ensures Climbed(parents, [], id, Some(id))
  {
  }

  lemma ClimbIsRooted(parents: Parents, up: seq<Id>, id: Id, current: Option<Id>)
    requires Climbed(parents, up, id, current) && (current.Some? ==> Rooted(parents, current.value))
    ensures forall x :: x in up ==> Rooted(parents, x)
    ensures up == [] ==> current == Some(id)
    ensures up != [] ==> id in up
  {
    var base: seq<Id> := [];
    if current.Some? {
      base :| ChainTo(parents, base, current.value);
    }
    forall k | 0 <= k < |up| ensures Rooted(parents, up[k]) {
      ClimbIsChain(parents, up, id, current, base, k);
    }
  }

  // ----- Cycles -----

  // No parent is missing from the map.
  ghost predicate Closed(parents: Parents) {
    forall id :: id in parents && parents[id].Some? ==> parents[id].value in parents
  }

  // Climbing from id leads to an element that is its own ancestor.
  ghost predicate EntersCycle(parents: Parents, id: Id) {
    exists a, up, loop :: Climbed(parents, up, id, Some(a)) && loop != [] && Climbed(parents, loop, a, Some(a))
  }

  lemma {:induction false} ClimbToTheEnd(parents: Parents, up: seq<Id>, id: Id, current: Option<Id>)
    requires Closed(parents) && id in parents && Climbed(parents, up, id, current)
    requires forall i, j :: 0 <= i < j < |up| ==> up[i] != up[j]
    ensures Rooted(parents, id) || EntersCycle(parents, id)
    decreases parents.Keys - set x | x in up
  {
    match current
    case None => ClimbIsRooted(parents, up, id, current);
    case Some(x) =>
      if x in up {
        var k :| 0 <= k < |up| && up[k] == x;
        assert Climbed(parents, up[..k], id, Some(x)) && Climbed(parents, up[k..], x, Some(x));
      } else {
        ClimbOne(parents, up, id, x);
        assert x in parents.Keys - set y | y in up;
        ClimbToTheEnd(parents, up + [x], id, parents[x]);
      }
  }

  // In a closed map an element has a root exactly when its chain enters no cycle.
  lemma RootedUnlessCycle(parents: Parents, id: Id)
    requires Closed(parents) && id in parents
    ensures Rooted(parents, id) <==> !EntersCycle(parents, id)
  {
    ClimbStarts(parents, id);
    ClimbToTheEnd(parents, [], id, Some(id));
    if a, up, loop :| Climbed(parents, up, id, Some(a)) && loop != [] && Climbed(parents, loop, a, Some(a)) {
      forall i | 0 < i < |up + loop| ensures parents[(up + loop)[i - 1]] == Some((up + loop)[i]) {}
      assert Climbed(parents, up + loop, id, Some(a));
      ClimbGoesOn(parents, up + loop, id, a);
    }
  }
}
