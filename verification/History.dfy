// The conformance fixture's writable history: capped upserts refine a last-write-wins map.
module History {
  import opened Options

  type NodeId = string

  datatype Variant = Variant(variantType: nat, isArray: bool, payload: int)
  datatype DataValue = DataValue(sourceTimestamp: Option<int>, value: Option<Variant>)

  const WIN_EPOCH: int := 0
  const NULL_TYPE: nat := 0
  const HISTORY_WRITE: nat := 8   // 1 << AccessLevel.HistoryWrite

  // Sort key: record.SourceTimestamp or ua.get_win_epoch().
  function Time(r: DataValue): int {
    if r.sourceTimestamp.Some? then r.sourceTimestamp.value else WIN_EPOCH
  }

  // ----- One upsert on a record list -----

  function Without(records: seq<DataValue>, t: Option<int>): (r: seq<DataValue>)
    ensures forall x :: x in r <==> x in records && x.sourceTimestamp != t
  {
    if records == [] then [] else
    var last := records[|records| - 1];
    Without(records[..|records| - 1], t) + if last.sourceTimestamp != t then [last] else []
  }

  // Place v behind every record that is not later.
  function InsertByTime(records: seq<DataValue>, v: DataValue): (r: seq<DataValue>)
    ensures |r| == |records| + 1
  {
    if records != [] && Time(v) < Time(records[|records| - 1])
    then InsertByTime(records[..|records| - 1], v) + [records[|records| - 1]]
    else records + [v]
  }

  // Stable sort by time.
  function SortedByTime(records: seq<DataValue>): (r: seq<DataValue>)
    ensures |r| == |records|
  {
    if records == [] then [] else InsertByTime(SortedByTime(records[..|records| - 1]), records[|records| - 1])
  }

  // ----- What the sort promises -----

  // The records of one time, in their order.
  function AtTime(records: seq<DataValue>, t: int): seq<DataValue> {
    if records == [] then [] else
    var last := records[|records| - 1];
    AtTime(records[..|records| - 1], t) + if Time(last) == t then [last] else []
  }

  ghost predicate InOrder(records: seq<DataValue>) {
    forall i, j :: 0 <= i < j < |records| ==> Time(records[i]) <= Time(records[j])
  }

  // sorted holds the records, in order of time, and leaves records of equal time in their order.
  ghost predicate IsStableSort(records: seq<DataValue>, sorted: seq<DataValue>) {
    && multiset(sorted) == multiset(records)
    && InOrder(sorted)
    && forall t :: AtTime(sorted, t) == AtTime(records, t)
  }

  lemma AtTimeNext(records: seq<DataValue>, v: DataValue, t: int)
    ensures AtTime(records + [v], t) == AtTime(records, t) + if Time(v) == t then [v] else []
  {
    assert (records + [v])[..|records|] == records;
  }

  lemma {:induction false} InsertIsPermutation(records: seq<DataValue>, v: DataValue)
    ensures multiset(InsertByTime(records, v)) == multiset(records) + multiset{v}
  {
    if records != [] && Time(v) < Time(records[|records| - 1]) {
      InsertIsPermutation(records[..|records| - 1], v);
      assert records == records[..|records| - 1] + [records[|records| - 1]];
    }
  }

  lemma {:induction false} InsertIsOrdered(records: seq<DataValue>, v: DataValue)
    requires InOrder(records)
    ensures InOrder(InsertByTime(records, v))
  {
    if records != [] && Time(v) < Time(records[|records| - 1]) {
      var init, last := records[..|records| - 1], records[|records| - 1];
      InsertIsOrdered(init, v);
      InsertIsPermutation(init, v);
      var inner := InsertByTime(init, v);
      forall i | 0 <= i < |inner| ensures Time(inner[i]) <= Time(last) {
        assert inner[i] in multiset(inner);
      }
    }
  }

  lemma {:induction false} InsertKeepsTimes(records: seq<DataValue>, v: DataValue, t: int)
    requires InOrder(records)
    ensures AtTime(InsertByTime(records, v), t) == AtTime(records, t) + if Time(v) == t then [v] else []
  {
    if records != [] && Time(v) < Time(records[|records| - 1]) {
      hide AtTime;
      var init, last := records[..|records| - 1], records[|records| - 1];
      assert records == init + [last];
      InsertKeepsTimes(init, v, t);
      AtTimeNext(InsertByTime(init, v), last, t);
      AtTimeNext(init, last, t);
    } else {
      AtTimeNext(records, v, t);
    }
  }

  lemma {:induction false} SortIsStable(records: seq<DataValue>)
    ensures IsStableSort(records, SortedByTime(records))
  {
    if records != [] {
      hide AtTime, InsertByTime;
      var init, last := records[..|records| - 1], records[|records| - 1];
      var sorted := SortedByTime(init);
      assert records == init + [last];
      SortIsStable(init);
      InsertIsPermutation(sorted, last);
      InsertIsOrdered(sorted, last);
      forall t ensures AtTime(SortedByTime(records), t) == AtTime(records, t) {
        InsertKeepsTimes(sorted, last, t);
        AtTimeNext(init, last, t);
      }
    }
  }

  // del records[:-count]
  function Capped(records: seq<DataValue>, count: nat): seq<DataValue> {
    if count != 0 && |records| > count then records[|records| - count..] else records
  }

  function Upserted(records: seq<DataValue>, v: DataValue, count: nat): seq<DataValue> {
    Capped(SortedByTime(Without(records, v.sourceTimestamp) + [v]), count)
  }

  // ----- The map a record list stands for -----

  // The last value written for every timestamp over a whole run.
  function LastWrites(run: seq<DataValue>): map<int, DataValue> {
    if run == [] then map[] else
    var last := run[|run| - 1];
    var earlier := LastWrites(run[..|run| - 1]);
    if last.sourceTimestamp.Some? then earlier[last.sourceTimestamp.value := last] else earlier
  }

  ghost predicate Stamped(records: seq<DataValue>) {
    forall r :: r in records ==> r.sourceTimestamp.Some?
  }

  // Strictly ascending times: every record is later than all records before it.
  ghost predicate Ascending(records: seq<DataValue>) {
    records == [] ||
    (var init, last := records[..|records| - 1], records[|records| - 1];
     Ascending(init) && forall r :: r in init ==> Time(r) < Time(last))
  }

  ghost predicate HasTime(records: seq<DataValue>, t: int) {
    exists r :: r in records && Time(r) == t
  }

  lemma {:induction false} AscendingIsStrict(records: seq<DataValue>, i: nat, j: nat)
    requires Ascending(records) && i < j < |records|
    ensures Time(records[i]) < Time(records[j])
  {
    var init := records[..|records| - 1];
    assert init[i] == records[i] && init[i] in init;
    if j < |init| {
      AscendingIsStrict(init, i, j);
    }
  }

  // records are the `count` newest entries of m (all of them when count is 0), strictly sorted by time.
  ghost predicate IsNewest(records: seq<DataValue>, m: map<int, DataValue>, count: nat) {
    && Stamped(records) && Ascending(records)
    && (forall r :: r in records ==> Time(r) in m && m[Time(r)] == r)
    && (count != 0 ==> |records| <= count)
    && (forall t :: t in m && !HasTime(records, t) ==>
          count != 0 && |records| == count && forall r :: r in records ==> t < Time(r))
  }

  lemma {:induction false} InsertKeepsAscending(records: seq<DataValue>, v: DataValue)
    requires Ascending(records) && !HasTime(records, Time(v))
    ensures Ascending(InsertByTime(records, v))
    ensures forall r :: r in InsertByTime(records, v) <==> r in records || r == v
  {
    if records != [] {
      var init, last := records[..|records| - 1], records[|records| - 1];
      assert records == init + [last];
      assert last in records;
      if Time(v) < Time(last) {
        assert forall r :: r in init ==> r in records;
        InsertKeepsAscending(init, v);
        assert InsertByTime(records, v)[..|records|] == InsertByTime(init, v);
      } else {
        assert (records + [v])[..|records|] == records;
      }
    }
  }

  lemma {:induction false} SortedIsFixed(records: seq<DataValue>)
    requires Ascending(records)
    ensures SortedByTime(records) == records
  {
    if records != [] {
      var init, last := records[..|records| - 1], records[|records| - 1];
      SortedIsFixed(init);
      assert records == init + [last];
      assert init != [] ==> init[|init| - 1] in init;
    }
  }

  lemma {:induction false} WithoutAscends(records: seq<DataValue>, t: Option<int>)
    requires Ascending(records)
    ensures Ascending(Without(records, t))
  {
    if records != [] {
      var init, last := records[..|records| - 1], records[|records| - 1];
      WithoutAscends(init, t);
      var rest := Without(init, t);
      assert (rest + [last])[..|rest|] == rest && rest + [] == rest;
      assert forall r :: r in rest ==> r in init;
    }
  }

  lemma {:induction false} WithoutAbsent(records: seq<DataValue>, t: int)
    requires Stamped(records) && !HasTime(records, t)
    ensures Without(records, Some(t)) == records
  {
    if records != [] {
      var init, last := records[..|records| - 1], records[|records| - 1];
      assert records == init + [last];
      assert last in records && forall r :: r in init ==> r in records;
      WithoutAbsent(init, t);
    }
  }

  lemma {:induction false} WithoutPresent(records: seq<DataValue>, t: int)
    requires Stamped(records) && Ascending(records) && HasTime(records, t)
    ensures |Without(records, Some(t))| == |records| - 1
  {
    var init, last := records[..|records| - 1], records[|records| - 1];
    assert records == init + [last];
    assert last in records && forall r :: r in init ==> r in records;
    if Time(last) == t {
      WithoutAbsent(init, t);
    } else {
      WithoutPresent(init, t);
    }
  }

  lemma WithoutKeepsAscending(records: seq<DataValue>, t: int)
    requires Stamped(records) && Ascending(records)
    ensures Ascending(Without(records, Some(t))) && !HasTime(Without(records, Some(t)), t)
    ensures |Without(records, Some(t))| == |records| - if HasTime(records, t) then 1 else 0
  {
    WithoutAscends(records, Some(t));
    if HasTime(records, t) {
      WithoutPresent(records, t);
    } else {
      WithoutAbsent(records, t);
    }
  }

  lemma {:induction false} DropOldest(records: seq<DataValue>)
    requires Ascending(records) && records != []
    ensures Ascending(records[1..]) && forall r :: r in records[1..] ==> Time(records[0]) < Time(r)
  {
    var init, last := records[..|records| - 1], records[|records| - 1];
    if init != [] {
      DropOldest(init);
      var tail := records[1..];
      assert tail[..|tail| - 1] == init[1..] && tail == init[1..] + [last];
      assert forall r :: r in init[1..] ==> r in init;
      assert init[0] in init;
    }
  }

  // One upsert: the record list follows the map.
  lemma UpsertRefinesMap(records: seq<DataValue>, m: map<int, DataValue>, v: DataValue, count: nat)
    requires IsNewest(records, m, count) && v.sourceTimestamp.Some?
    ensures IsNewest(Upserted(records, v, count), m[Time(v) := v], count)
  {
    var kept := Without(records, v.sourceTimestamp);
    WithoutKeepsAscending(records, Time(v));
    SortedIsFixed(kept);
    InsertKeepsAscending(kept, v);
    var all := InsertByTime(kept, v);
    assert SortedByTime(kept + [v]) == all by {
      assert (kept + [v])[..|kept|] == kept;
    }
    if count != 0 && |all| > count {
      assert Capped(all, count) == all[1..];
      CutAtFront(records, m, v, count, all);
    } else {
      NothingCut(records, m, v, count, all);
    }
  }

  lemma NothingCut(records: seq<DataValue>, m: map<int, DataValue>, v: DataValue, count: nat, all: seq<DataValue>)
    requires IsNewest(records, m, count) && v.sourceTimestamp.Some?
    requires Ascending(all)
    requires forall r :: r in all <==> (r in records && r.sourceTimestamp != v.sourceTimestamp) || r == v
    requires |all| == |records| + if HasTime(records, Time(v)) then 0 else 1
    requires count == 0 || |all| <= count
    ensures IsNewest(all, m[Time(v) := v], count)
  {
    forall u | u in m[Time(v) := v] && !HasTime(all, u)
      ensures count != 0 && |all| == count && forall r :: r in all ==> u < Time(r)
    {
      StillMissing(records, v, all, u);
      if HasTime(records, Time(v)) {
        var r :| r in records && Time(r) == Time(v);
      }
    }
  }

  lemma StillMissing(records: seq<DataValue>, v: DataValue, all: seq<DataValue>, u: int)
    requires Stamped(records) && v.sourceTimestamp.Some? && !HasTime(all, u)
    requires forall r :: r in all <==> (r in records && r.sourceTimestamp != v.sourceTimestamp) || r == v
    ensures u != Time(v) && !HasTime(records, u)
  {
    assert v in all;
    forall r | r in records ensures Time(r) != u {
      assert r.sourceTimestamp != v.sourceTimestamp ==> r in all;
    }
  }

  lemma CutAtFront(records: seq<DataValue>, m: map<int, DataValue>, v: DataValue, count: nat, all: seq<DataValue>)
    requires IsNewest(records, m, count) && v.sourceTimestamp.Some?
    requires Ascending(all)
    requires forall r :: r in all <==> (r in records && r.sourceTimestamp != v.sourceTimestamp) || r == v
    requires !HasTime(records, Time(v)) && |records| == count && |all| == count + 1 && count != 0
    ensures IsNewest(all[1..], m[Time(v) := v], count)
  {
    var result := all[1..];
    DropOldest(all);
    assert forall r :: r in all <==> r == all[0] || r in result;
    assert all[0] in all;
    forall u | u in m[Time(v) := v] && !HasTime(result, u) ensures forall r :: r in result ==> u < Time(r) {
      if HasTime(all, u) {
        var r :| r in all && Time(r) == u;
      } else {
        StillMissing(records, v, all, u);
        if all[0] == v {
          assert forall r :: r in result ==> r in records;
        }
      }
    }
  }

  // ----- Whole runs -----

  function Run(run: seq<DataValue>, count: nat): seq<DataValue> {
    if run == [] then [] else Upserted(Run(run[..|run| - 1], count), run[|run| - 1], count)
  }

  // After any run of stamped upserts from empty, the records are the newest entries of the last-write-wins map.
  lemma {:induction false} RunIsNewest(run: seq<DataValue>, count: nat)
    requires Stamped(run)
    ensures IsNewest(Run(run, count), LastWrites(run), count)
  {
    if run != [] {
      var init, last := run[..|run| - 1], run[|run| - 1];
      assert last in run && forall r :: r in init ==> r in run;
      RunIsNewest(init, count);
      UpsertRefinesMap(Run(init, count), LastWrites(init), last, count);
    }
  }

  lemma RecordAtTime(records: seq<DataValue>, m: map<int, DataValue>, count: nat, r: DataValue)
    requires IsNewest(records, m, count) && Time(r) in m && m[Time(r)] == r && HasTime(records, Time(r))
    ensures r in records
  {
  }

  lemma {:induction false} AscendingCount(records: seq<DataValue>)
    requires Ascending(records)
    ensures |set r | r in records| == |records|
  {
    if records != [] {
      var init, last := records[..|records| - 1], records[|records| - 1];
      AscendingCount(init);
      assert (set r | r in records) == (set r | r in init) + {last} by { assert records == init + [last]; }
      assert last !in init;
    }
  }

  lemma LastIsGreatest(records: seq<DataValue>, r: DataValue)
    requires Ascending(records) && records != [] && r in records
    ensures r == records[|records| - 1] || Time(r) < Time(records[|records| - 1])
  {
    assert records == records[..|records| - 1] + [records[|records| - 1]];
  }

  lemma HasFirst(records: seq<DataValue>)
    ensures records == [] || exists r :: r in records
  {
    assert records != [] ==> records[0] in records;
  }

  lemma {:induction false} AscendingListsAgree(a: seq<DataValue>, b: seq<DataValue>)
    requires Ascending(a) && Ascending(b) && forall r :: r in a <==> r in b
    ensures a == b
  {
    if a == [] {
      HasFirst(b);
    } else {
      assert a[0] in b;
      var i, m, k, n := a[..|a| - 1], a[|a| - 1], b[..|b| - 1], b[|b| - 1];
      assert Ascending(i) && Ascending(k) && m !in i && n !in k;
      hide Ascending;
      assert a == i + [m] && b == k + [n];
      assert m in b && n in a;
      LastIsGreatest(b, m);
      LastIsGreatest(a, n);
      assert m == n;
      forall r ensures r in i <==> r in k {
        assert r in a <==> r in i || r == m;
        assert r in b <==> r in k || r == m;
      }
      AscendingListsAgree(i, k);
    }
  }

  // IsNewest leaves no freedom: there is one record list for a map and a cap.
  lemma NewestIsUnique(a: seq<DataValue>, b: seq<DataValue>, m: map<int, DataValue>, count: nat)
    requires IsNewest(a, m, count) && IsNewest(b, m, count)
    ensures a == b
  {
    AscendingCount(a);
    AscendingCount(b);
    SameNewest(a, b, m, count);
    SameNewest(b, a, m, count);
    AscendingListsAgree(a, b);
  }

  lemma SameNewest(a: seq<DataValue>, b: seq<DataValue>, m: map<int, DataValue>, count: nat)
    requires IsNewest(a, m, count) && IsNewest(b, m, count)
    requires |set r | r in a| == |a| && |set r | r in b| == |b|
    ensures forall r :: r in a ==> r in b
  {
    forall r | r in a ensures r in b {
      if !HasTime(b, Time(r)) {
        // b is full and newer than r, so a, which has room for r, misses one of b's records - but that one is newer.
        var setA, setB := set x | x in a, set x | x in b;
        if forall x :: x in b ==> x in a {
          assert setB + {r} <= setA && r !in setB;
          LargerSet(setB + {r}, setA);
        } else {
          var x :| x in b && x !in a;
          if HasTime(a, Time(x)) { RecordAtTime(a, m, count, x); }
        }
        assert false;
      }
      RecordAtTime(b, m, count, r);
    }
  }

  lemma LargerSet<T>(a: set<T>, b: set<T>)
    requires a <= b
    ensures |a| <= |b|
  {
    assert b == a + (b - a);
  }

  lemma WithoutNothing(t: Option<int>)
    ensures Without([], t) == []
  {
  }

  lemma WithoutNext(records: seq<DataValue>, i: nat, t: Option<int>)
    requires i < |records|
    ensures Without(records[..i + 1], t) ==
            if records[i].sourceTimestamp != t then Without(records[..i], t) + [records[i]]
            else Without(records[..i], t)
  {
    assert records[..i + 1][..i] == records[..i];
    assert Without(records[..i], t) + [] == Without(records[..i], t);
  }

  lemma SortedNext(records: seq<DataValue>, i: nat)
    requires i < |records|
    ensures SortedByTime(records[..i + 1]) == InsertByTime(SortedByTime(records[..i]), records[i])
  {
    assert records[..i + 1][..i] == records[..i];
  }

  lemma RunNext(run: seq<DataValue>, v: DataValue, count: nat)
    ensures Run(run + [v], count) == Upserted(Run(run, count), v, count)
  {
    assert (run + [v])[..|run|] == run;
  }

  // ----- The history storage and the update service -----

  class WritableHistoryDict {
    var datachanges: map<NodeId, seq<DataValue>>
    var period: map<NodeId, nat>   // the record cap; 0 when there is none

    constructor ()
      ensures datachanges == map[] && period == map[]
    {
      datachanges, period := map[], map[];
    }

    method Upsert(node: NodeId, v: DataValue)
      requires node in datachanges && node in period
      modifies this`datachanges
      ensures datachanges == old(datachanges)[node := Upserted(old(datachanges[node]), v, period[node])]
    {
      hide Without, SortedByTime, InsertByTime;
      var records := datachanges[node];
      var kept := [];
      WithoutNothing(v.sourceTimestamp);
      for i := 0 to |records|
        invariant datachanges == old(datachanges) && kept == Without(records[..i], v.sourceTimestamp)
      {
        WithoutNext(records, i, v.sourceTimestamp);
        if records[i].sourceTimestamp != v.sourceTimestamp {
          kept := kept + [records[i]];
        }
      }
      assert records[..|records|] == records;
      kept := kept + [v];
      var sorted := SortByTime(kept);
      var count := period[node];
      if count != 0 && |sorted| > count {
        sorted := sorted[|sorted| - count..];
      }
      assert sorted == Upserted(records, v, count);
      datachanges := datachanges[node := sorted];
    }
  }

  // list.sort(key=...): a stable insertion sort stands for Python's stable sort.
  method SortByTime(records: seq<DataValue>) returns (sorted: seq<DataValue>)
    ensures sorted == SortedByTime(records) && IsStableSort(records, sorted)
  {
    hide IsStableSort;
    SortIsStable(records);
    sorted := [];
    for i := 0 to |records|
      invariant sorted == SortedByTime(records[..i])
    {
      SortedNext(records, i);
      sorted := InsertByTime(sorted, records[i]);
    }
    assert records[..|records|] == records;
  }

  datatype Status =
    | Good | BadHistoryOperationUnsupported | BadNotWritable | BadUserAccessDenied
    | BadInvalidArgument | BadTypeMismatch

  datatype Details = OtherDetails | UpdateData(node: NodeId, isUpdate: bool, values: seq<DataValue>)
  datatype UpdateResult = UpdateResult(status: Status, operations: seq<Status>)

  function ValueStatus(writableType: nat, v: DataValue): Status {
    if v.sourceTimestamp.None? then BadInvalidArgument
    else if v.value.None? || v.value.value.variantType !in {writableType, NULL_TYPE} then BadTypeMismatch
    else if v.value.value.isArray then BadTypeMismatch
    else Good
  }

  function ValueStatuses(writableType: nat, values: seq<DataValue>): seq<Status> {
    seq(|values|, i requires 0 <= i < |values| => ValueStatus(writableType, values[i]))
  }

  // The values of a batch that reach the storage.
  function Accepted(writableType: nat, values: seq<DataValue>): (r: seq<DataValue>)
    ensures forall v :: v in r <==> v in values && ValueStatus(writableType, v) == Good
  {
    if values == [] then [] else
    var last := values[|values| - 1];
    Accepted(writableType, values[..|values| - 1]) + if ValueStatus(writableType, last) == Good then [last] else []
  }

  lemma GoodIsStamped(writableType: nat, v: DataValue)
    ensures ValueStatus(writableType, v) == Good ==> v.sourceTimestamp.Some?
  {
  }

  lemma LogGrows(log: map<NodeId, seq<DataValue>>, node: NodeId, stored: seq<DataValue>, v: DataValue)
    requires node in log
    ensures var grown := log[node := log[node] + stored];
            grown[node := grown[node] + [v]] == log[node := log[node] + (stored + [v])]
  {
    assert log[node] + stored + [v] == log[node] + (stored + [v]);
  }

  lemma StatusesNext(writableType: nat, values: seq<DataValue>, i: nat)
    requires i < |values|
    ensures ValueStatuses(writableType, values[..i + 1]) ==
            ValueStatuses(writableType, values[..i]) + [ValueStatus(writableType, values[i])]
  {
  }

  lemma AcceptedNothing(writableType: nat)
    ensures Accepted(writableType, []) == []
  {
  }

  lemma AcceptedNext(writableType: nat, values: seq<DataValue>, i: nat)
    requires i < |values|
    ensures Accepted(writableType, values[..i + 1]) ==
            if ValueStatus(writableType, values[i]) == Good then Accepted(writableType, values[..i]) + [values[i]]
            else Accepted(writableType, values[..i])
  {
    assert values[..i + 1][..i] == values[..i];
    assert Accepted(writableType, values[..i]) + [] == Accepted(writableType, values[..i]);
  }

  function HistoryWritable(access: Option<nat>): bool {
    access.Some? && (access.value / HISTORY_WRITE) % 2 == 1
  }

  class FixtureHistoryManager {
    const storage: WritableHistoryDict
    var writableTypes: map<NodeId, nat>
    var accessLevel: map<NodeId, Option<nat>>
    var userAccessLevel: map<NodeId, Option<nat>>
    ghost var log: map<NodeId, seq<DataValue>>   // everything accepted so far, per node, oldest first

    // Every writable node has a history that is the newest part of all its accepted writes.
    ghost predicate Valid()
      reads this, storage
    {
      && writableTypes.Keys <= storage.datachanges.Keys == storage.period.Keys == log.Keys
      && writableTypes.Keys <= accessLevel.Keys && writableTypes.Keys <= userAccessLevel.Keys
      && forall n :: n in log ==> Stamped(log[n]) && storage.datachanges[n] == Run(log[n], storage.period[n])
    }

    constructor (storage: WritableHistoryDict, writableTypes: map<NodeId, nat>,
                 accessLevel: map<NodeId, Option<nat>>, userAccessLevel: map<NodeId, Option<nat>>)
      requires writableTypes.Keys <= storage.datachanges.Keys == storage.period.Keys
      requires writableTypes.Keys <= accessLevel.Keys && writableTypes.Keys <= userAccessLevel.Keys
      requires forall n :: n in storage.datachanges ==> storage.datachanges[n] == []
      ensures Valid() && this.storage == storage
    {
      this.storage, this.writableTypes := storage, writableTypes;
      this.accessLevel, this.userAccessLevel := accessLevel, userAccessLevel;
      log := map n | n in storage.datachanges :: [];
    }

    function StatusOf(d: Details): Status
      requires writableTypes.Keys <= accessLevel.Keys && writableTypes.Keys <= userAccessLevel.Keys
      reads `writableTypes, `accessLevel, `userAccessLevel
    {
      if d.OtherDetails? || !d.isUpdate then BadHistoryOperationUnsupported
      else if d.node !in writableTypes then BadNotWritable
      else if !HistoryWritable(accessLevel[d.node]) || !HistoryWritable(userAccessLevel[d.node])
      then BadUserAccessDenied
      else Good
    }

    // The answer to a details item: its own status and, if it is accepted, that of every value.
    function ResultOf(d: Details): UpdateResult
      requires writableTypes.Keys <= accessLevel.Keys && writableTypes.Keys <= userAccessLevel.Keys
      reads `writableTypes, `accessLevel, `userAccessLevel
    {
      UpdateResult(StatusOf(d), if StatusOf(d) == Good then ValueStatuses(writableTypes[d.node], d.values) else [])
    }

    // What a details item appends to the log of its node.
    function AcceptedBy(d: Details): seq<DataValue>
      requires writableTypes.Keys <= accessLevel.Keys && writableTypes.Keys <= userAccessLevel.Keys
      reads `writableTypes, `accessLevel, `userAccessLevel
    {
      if StatusOf(d) == Good then Accepted(writableTypes[d.node], d.values) else []
    }

    function Contribution(d: Details, n: NodeId): seq<DataValue>
      requires writableTypes.Keys <= accessLevel.Keys && writableTypes.Keys <= userAccessLevel.Keys
      reads `writableTypes, `accessLevel, `userAccessLevel
    {
      if d.UpdateData? && d.node == n then AcceptedBy(d) else []
    }

    // The accepted writes of a node over a whole request, in order.
    function AcceptedFor(details: seq<Details>, n: NodeId): seq<DataValue>
      requires writableTypes.Keys <= accessLevel.Keys && writableTypes.Keys <= userAccessLevel.Keys
      reads `writableTypes, `accessLevel, `userAccessLevel
    {
      if details == [] then [] else
      var last := details[|details| - 1];
      AcceptedFor(details[..|details| - 1], n) + Contribution(last, n)
    }

    lemma AcceptedForNext(details: seq<Details>, i: nat, n: NodeId)
      requires writableTypes.Keys <= accessLevel.Keys && writableTypes.Keys <= userAccessLevel.Keys
      requires i < |details|
      ensures AcceptedFor(details[..i + 1], n) ==
              AcceptedFor(details[..i], n) + Contribution(details[i], n)
    {
      assert details[..i + 1][..i] == details[..i];
    }

    // Every node's log has grown by its accepted writes of the request, in order.
    ghost predicate LogsGrown(before: map<NodeId, seq<DataValue>>, after: map<NodeId, seq<DataValue>>,
                              details: seq<Details>)
      requires writableTypes.Keys <= accessLevel.Keys && writableTypes.Keys <= userAccessLevel.Keys
      reads `writableTypes, `accessLevel, `userAccessLevel
    {
      after.Keys == before.Keys && forall n :: n in after ==> after[n] == before[n] + AcceptedFor(details, n)
    }

    lemma NothingLogged()
      requires writableTypes.Keys <= accessLevel.Keys && writableTypes.Keys <= userAccessLevel.Keys
      ensures forall n :: AcceptedFor([], n) == []
    {
    }

    lemma LogsGrowOn(first: map<NodeId, seq<DataValue>>, before: map<NodeId, seq<DataValue>>,
                     after: map<NodeId, seq<DataValue>>,
                     details: seq<Details>, i: nat)
      requires writableTypes.Keys <= accessLevel.Keys && writableTypes.Keys <= userAccessLevel.Keys
      requires i < |details| && LogsGrown(first, before, details[..i])
      requires after.Keys == before.Keys && forall n :: n in after ==>
        after[n] == before[n] + Contribution(details[i], n)
      ensures LogsGrown(first, after, details[..i + 1])
    {
      hide AcceptedFor, Contribution;
      forall n | n in after ensures after[n] == first[n] + AcceptedFor(details[..i + 1], n) {
        AcceptedForNext(details, i, n);
        assert after[n] == first[n] + AcceptedFor(details[..i], n) + Contribution(details[i], n);
      }
    }

    method Store(node: NodeId, v: DataValue)
      requires Valid() && node in log && v.sourceTimestamp.Some?
      modifies this`log, storage`datachanges
      ensures Valid() && log == old(log)[node := old(log)[node] + [v]]
      ensures storage.datachanges ==
        old(storage.datachanges)[node := Upserted(old(storage.datachanges)[node], v, storage.period[node])]
    {
      hide Run, Upserted;
      RunNext(log[node], v, storage.period[node]);
      storage.Upsert(node, v);
      log := log[node := log[node] + [v]];
    }

    // The loop over the values of an accepted details item.
    method StoreAccepted(node: NodeId, values: seq<DataValue>) returns (operations: seq<Status>)
      requires Valid() && node in writableTypes
      modifies this`log, storage`datachanges
      ensures Valid() && log == old(log)[node := old(log)[node] + Accepted(writableTypes[node], values)]
      ensures operations == ValueStatuses(writableTypes[node], values)
    {
      hide Run, Upserted, Accepted, ValueStatus, Stamped;
      var writableType := writableTypes[node];
      operations := [];
      AcceptedNothing(writableType);
      assert ValueStatuses(writableType, values[..0]) == [];
      hide ValueStatuses;
      assert old(log)[node] + [] == old(log)[node];
      for i := 0 to |values|
        invariant Valid() && operations == ValueStatuses(writableType, values[..i])
        invariant log == old(log)[node := old(log)[node] + Accepted(writableType, values[..i])]
      {
        var v := values[i];
        AcceptedNext(writableType, values, i);
        StatusesNext(writableType, values, i);
        var status := ValueStatus(writableType, v);
        if status == Good {
          GoodIsStamped(writableType, v);
          LogGrows(old(log), node, Accepted(writableType, values[..i]), v);
          Store(node, v);
        }
        operations := operations + [status];
      }
      assert values[..|values|] == values;
    }

    // One HistoryUpdateDetails item.
    method UpdateOne(d: Details) returns (result: UpdateResult)
      requires Valid()
      modifies this`log, storage`datachanges
      ensures Valid() && result == ResultOf(d)
      ensures log.Keys == old(log.Keys) && forall n :: n in log ==> log[n] == old(log)[n] + Contribution(d, n)
    {
      hide Run, Accepted, ValueStatus;
      result := UpdateResult(StatusOf(d), []);
      if result.status == Good {
        var operations := StoreAccepted(d.node, d.values);
        result := result.(operations := operations);
      }
    }

    method UpdateHistory(details: seq<Details>) returns (results: seq<UpdateResult>)
      requires Valid()
      modifies this`log, storage`datachanges
      ensures Valid() && |results| == |details|
      ensures forall i :: 0 <= i < |details| ==> results[i] == ResultOf(details[i])
      ensures LogsGrown(old(log), log, details)
    {
      hide AcceptedFor, Contribution, Run, StatusOf, ResultOf;
      NothingLogged();
      results := [];
      for i := 0 to |details|
        invariant Valid() && |results| == i
        invariant forall j :: 0 <= j < i ==> results[j] == ResultOf(details[j])
        invariant LogsGrown(old(log), log, details[..i])
      {
        hide LogsGrown;
        ghost var before := log;
        var result := UpdateOne(details[i]);
        results := results + [result];
        LogsGrowOn(old(log), before, log, details, i);
      }
      assert details[..|details|] == details;
    }

    // In every state the update service can reach, each history is the newest part of its last writes.
    lemma HistoryIsNewest(n: NodeId)
      requires Valid() && n in storage.datachanges
      ensures IsNewest(storage.datachanges[n], LastWrites(log[n]), storage.period[n])
    {
      RunIsNewest(log[n], storage.period[n]);
    }
  }

  // ----- What an update is answered with, and what it stores -----

  // An update of a node that both access levels let write history: the fourth bit is set.
  ghost predicate IsPermitted(s: FixtureHistoryManager, d: Details)
    reads s
  {
    && d.UpdateData? && d.isUpdate && d.node in s.writableTypes
    && d.node in s.accessLevel && s.accessLevel[d.node].Some? && s.accessLevel[d.node].value % 16 >= 8
    && d.node in s.userAccessLevel && s.userAccessLevel[d.node].Some? && s.userAccessLevel[d.node].value % 16 >= 8
  }

  // A stamped single value of the node's type, or of no type.
  ghost predicate IsStorable(writableType: nat, v: DataValue) {
    && v.sourceTimestamp.Some? && v.value.Some? && !v.value.value.isArray
    && (v.value.value.variantType == writableType || v.value.value.variantType == 0)
  }

  lemma WriteBit(access: nat)
    ensures (access / 8) % 2 == 1 <==> access % 16 >= 8
  {
  }

  lemma AnswersAreSpelledOut(s: FixtureHistoryManager, d: Details)
    requires s.Valid()
    ensures var r := s.ResultOf(d);
      && (r.status == Good <==> IsPermitted(s, d))
      && (r.status == BadHistoryOperationUnsupported <==> !d.UpdateData? || !d.isUpdate)
      && (r.status == BadNotWritable <==> d.UpdateData? && d.isUpdate && d.node !in s.writableTypes)
      && (r.status == BadUserAccessDenied <==>
            d.UpdateData? && d.isUpdate && d.node in s.writableTypes && !IsPermitted(s, d))
      && (r.status != Good ==> r.operations == [])
      && (r.status == Good ==>
            && |r.operations| == |d.values|
            && forall i :: 0 <= i < |d.values| ==>
                 && (r.operations[i] == Good <==> IsStorable(s.writableTypes[d.node], d.values[i]))
                 && (r.operations[i] == BadInvalidArgument <==> d.values[i].sourceTimestamp == None)
                 && r.operations[i] in {Good, BadInvalidArgument, BadTypeMismatch})
  {
    hide Run, Stamped;
    if d.UpdateData? && d.node in s.writableTypes {
      if s.accessLevel[d.node].Some? { WriteBit(s.accessLevel[d.node].value); }
      if s.userAccessLevel[d.node].Some? { WriteBit(s.userAccessLevel[d.node].value); }
    }
  }

  // A request adds to a node's log exactly the storable values that its permitted updates hold.
  lemma {:induction false} StoredIffStorable(s: FixtureHistoryManager, details: seq<Details>, n: NodeId, v: DataValue)
    requires s.Valid()
    ensures v in s.AcceptedFor(details, n) <==>
      exists d :: d in details && IsPermitted(s, d) && d.node == n && v in d.values
                  && IsStorable(s.writableTypes[n], v)
    decreases |details|
  {
    hide Run, Stamped, IsPermitted, IsStorable;
    if details != [] {
      var init, last := details[..|details| - 1], details[|details| - 1];
      assert details == init + [last];
      StoredIffStorable(s, init, n, v);
      AddedIffStorable(s, last, n, v);
    }
  }

  lemma AddedIffStorable(s: FixtureHistoryManager, d: Details, n: NodeId, v: DataValue)
    requires s.Valid()
    ensures IsPermitted(s, d) ==> d.UpdateData? && d.node in s.writableTypes
    ensures v in s.Contribution(d, n) <==>
      IsPermitted(s, d) && d.node == n && v in d.values && IsStorable(s.writableTypes[n], v)
  {
    hide Run, Stamped;
    AnswersAreSpelledOut(s, d);
  }
}
