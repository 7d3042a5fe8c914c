/** `snapshotDiff`: the comparison of the statistics of two snapshots, per
    service and per operation, for the average duration and for the error
    fraction. */
module SnapshotCompare {
  import opened JsCore
  import opened SnapshotStats
  import SnapshotDiagram

  /** One `{ diff, pct }` entry of an `operations` object. */
  datatype Change = Change(diff: Num, pct: Num)

  /** The entry of a service in the `avgDurationMs` half of the result.
      `addedOperations` and `deletedOperations` carry the source's
      `added_operations` and `deleted_operations`. */
  datatype DurationChange = DurationChange(
    operations: map<string, Change>,
    diff: real,
    addedOperations: seq<string>,
    deletedOperations: seq<string>,
    pct: Num)

  /** The entry of a service in the `errorPct` half of the result. */
  datatype ErrorChange = ErrorChange(operations: map<string, Change>, diff: real, pct: real)

  /** What `snapshotDiff` returns. */
  datatype SnapshotDelta = SnapshotDelta(
    avgDurationMs: map<string, DurationChange>,
    errorPct: map<string, ErrorChange>)

  /** Reading the statistics of a service that the before snapshot lacks
      raises a TypeError in the source. */
  datatype CompareError = MissingBeforeService(service: string)

  /** The `{ diff : 0, pct : 0 }` entry of an operation missing on one side. */
  const Unchanged := Change(Finite(0.0), Finite(0.0))

  /** Operation `o` has statistics in both entries of a service. */
  predicate InBoth(before: ServiceStats, after: ServiceStats, o: string)
  {
    o in before.operations && o in after.operations
  }

  /** The callback of the inner duration `reduce` for operation `o`. */
  function DurationChangeOf(before: ServiceStats, after: ServiceStats): string -> Change
  {
    (o: string) =>
      if !InBoth(before, after, o) then Unchanged
      else
        var diff := after.operations[o].avgDurationMs - before.operations[o].avgDurationMs;
        Change(Finite(diff), Div(diff, before.operations[o].avgDurationMs))
  }

  /** The callback of the inner error `reduce` for operation `o`. It
      subtracts two reads of an `error` field that operation statistics do
      not have, so the difference is NaN. */
  function ErrorChangeOf(before: ServiceStats, after: ServiceStats): string -> Change
  {
    (o: string) => if !InBoth(before, after, o) then Unchanged else Change(NaN, NaN)
  }

  /** An inner `reduce` over operation names: the `operations` object after
      the callback `change` has run for each of `names`. */
  function ChangesOver(names: seq<string>, change: string -> Change): map<string, Change>
    decreases |names|
  {
    if names == [] then map[]
    else
      var o := names[|names| - 1];
      ChangesOver(names[..|names| - 1], change)[o := change(o)]
  }

  /** The `avgDurationMs` entry of a service present in both snapshots. */
  function ServiceDuration(before: ServiceStats, after: ServiceStats): DurationChange
  {
    var diff := after.avgDurationMs - before.avgDurationMs;
    DurationChange(
      ChangesOver(after.operationNames, DurationChangeOf(before, after)),
      diff,
      SnapshotDiagram.Difference(after.operationNames, before.operationNames),
      SnapshotDiagram.Difference(before.operationNames, after.operationNames),
      Div(diff, before.avgDurationMs))
  }

  /** The `errorPct` entry of a service present in both snapshots. */
  function ServiceError(before: ServiceStats, after: ServiceStats): ErrorChange
  {
    var diff := after.errorPct - before.errorPct;
    ErrorChange(ChangesOver(after.operationNames, ErrorChangeOf(before, after)), diff, diff)
  }

  /** The outer duration `reduce` run over `names`: the object it builds, or
      the error raised at the first name the before statistics lack. */
  function DurationsOver(beforeStats: map<string, ServiceStats>, afterStats: map<string, ServiceStats>,
                         names: seq<string>): Result<map<string, DurationChange>, CompareError>
    requires forall s :: s in names ==> s in afterStats
    decreases |names|
  {
    if names == [] then Ok(map[])
    else
      var s := names[|names| - 1];
      match DurationsOver(beforeStats, afterStats, names[..|names| - 1])
      case Err(e) => Err(e)
      case Ok(table) =>
        if s !in beforeStats then Err(MissingBeforeService(s))
        else Ok(table[s := ServiceDuration(beforeStats[s], afterStats[s])])
  }

  /** The outer error `reduce` run over `names`, all present on both sides. */
  function ErrorsOver(beforeStats: map<string, ServiceStats>, afterStats: map<string, ServiceStats>,
                      names: seq<string>): map<string, ErrorChange>
    requires forall s :: s in names ==> s in beforeStats && s in afterStats
    decreases |names|
  {
    if names == [] then map[]
    else
      var s := names[|names| - 1];
      ErrorsOver(beforeStats, afterStats, names[..|names| - 1])[s := ServiceError(beforeStats[s], afterStats[s])]
  }

  /** `Object.keys(snapshotServiceStats(snapshot))`: the services in the
      order in which their first exemplar appears. */
  function ServiceOrder(snapshot: Snapshot): (r: seq<string>)
    ensures forall s :: s in r <==> s in ServiceStatsOf(snapshot)
  {
    match snapshot.exemplars
    case None => []
    case Some(xs) =>
      ServicesOverKeys(xs, ServiceNamesOf(xs));
      ServiceNamesOf(xs)
  }

  /** The two `reduce`s of `snapshotDiff` over the after services `services`;
      the error half is only reached when the duration half completes. */
  function DeltaOver(beforeStats: map<string, ServiceStats>, afterStats: map<string, ServiceStats>,
                     services: seq<string>): Result<SnapshotDelta, CompareError>
    requires forall s :: s in services ==> s in afterStats
  {
    match DurationsOver(beforeStats, afterStats, services)
    case Err(e) => Err(e)
    case Ok(avgDurationMs) =>
      DurationsOverOk(beforeStats, afterStats, services);
      Ok(SnapshotDelta(avgDurationMs, ErrorsOver(beforeStats, afterStats, services)))
  }

  /** What `snapshotDiff` computes. */
  function SnapshotDeltaOf(beforeSnapshot: Snapshot, afterSnapshot: Snapshot): Result<SnapshotDelta, CompareError>
  {
    DeltaOver(ServiceStatsOf(beforeSnapshot), ServiceStatsOf(afterSnapshot), ServiceOrder(afterSnapshot))
  }

  /** The inner `reduce` of the duration half. It runs over `operationNames`,
      which lists the keys of `operations` in their insertion order. */
  method DurationOperations(before: ServiceStats, after: ServiceStats) returns (operations: map<string, Change>)
    ensures operations == ChangesOver(after.operationNames, DurationChangeOf(before, after))
  {
    var names := after.operationNames;
    operations := map[];
    for j := 0 to |names|
      invariant operations == ChangesOver(names[..j], DurationChangeOf(before, after))
    {
      var o := names[j];
      assert names[..j + 1][..j] == names[..j];
      if o !in after.operations || o !in before.operations {
        operations := operations[o := Change(Finite(0.0), Finite(0.0))];
      } else {
        var diff := after.operations[o].avgDurationMs - before.operations[o].avgDurationMs;
        operations := operations[o := Change(Finite(diff), Div(diff, before.operations[o].avgDurationMs))];
      }
    }
    assert names[..|names|] == names;
  }

  /** The inner `reduce` of the error half. */
  method ErrorOperations(before: ServiceStats, after: ServiceStats) returns (operations: map<string, Change>)
    ensures operations == ChangesOver(after.operationNames, ErrorChangeOf(before, after))
  {
    var names := after.operationNames;
    operations := map[];
    for j := 0 to |names|
      invariant operations == ChangesOver(names[..j], ErrorChangeOf(before, after))
    {
      var o := names[j];
      assert names[..j + 1][..j] == names[..j];
      if o !in after.operations || o !in before.operations {
        operations := operations[o := Change(Finite(0.0), Finite(0.0))];
      } else {
        operations := operations[o := Change(NaN, NaN)];
      }
    }
    assert names[..|names|] == names;
  }

  /** The callback of the outer duration `reduce` for a service present on
      both sides. */
  method ServiceDurationFor(before: ServiceStats, after: ServiceStats) returns (entry: DurationChange)
    ensures entry == ServiceDuration(before, after)
  {
    var diff := after.avgDurationMs - before.avgDurationMs;
    var operations := DurationOperations(before, after);
    var deletedOperations := SnapshotDiagram.Difference(before.operationNames, after.operationNames);
    var addedOperations := SnapshotDiagram.Difference(after.operationNames, before.operationNames);
    entry := DurationChange(operations, diff, addedOperations, deletedOperations, Div(diff, before.avgDurationMs));
  }

  /** The callback of the outer error `reduce`. */
  method ServiceErrorFor(before: ServiceStats, after: ServiceStats) returns (entry: ErrorChange)
    ensures entry == ServiceError(before, after)
  {
    var diff := after.errorPct - before.errorPct;
    var operations := ErrorOperations(before, after);
    entry := ErrorChange(operations, diff, diff);
  }

  /** The two outer `reduce`s of `snapshotDiff` over the services of the
      after statistics. */
  method CompareStats(beforeStats: map<string, ServiceStats>, afterStats: map<string, ServiceStats>,
                      services: seq<string>) returns (r: Result<SnapshotDelta, CompareError>)
    requires forall s :: s in services ==> s in afterStats
    ensures r == DeltaOver(beforeStats, afterStats, services)
  {
    var avgDurationMs: map<string, DurationChange> := map[];
    for i := 0 to |services|
      invariant DurationsOver(beforeStats, afterStats, services[..i]) == Ok(avgDurationMs)
    {
      var s := services[i];
      DurationsStep(beforeStats, afterStats, services, i);
      if s !in beforeStats {
        DurationsKeepError(beforeStats, afterStats, services, i + 1);
        return Err(MissingBeforeService(s));
      }
      var entry := ServiceDurationFor(beforeStats[s], afterStats[s]);
      avgDurationMs := avgDurationMs[s := entry];
    }
    assert services[..|services|] == services;
    DurationsOverOk(beforeStats, afterStats, services);
    var errorPct: map<string, ErrorChange> := map[];
    for i := 0 to |services|
      invariant errorPct == ErrorsOver(beforeStats, afterStats, services[..i])
    {
      var s := services[i];
      PrefixStep(services, i);
      assert services[..i + 1][..i] == services[..i];
      var entry := ServiceErrorFor(beforeStats[s], afterStats[s]);
      errorPct := errorPct[s := entry];
    }
    assert services[..|services|] == services;
    r := Ok(SnapshotDelta(avgDurationMs, errorPct));
  }

  /** `snapshotDiff` */
  method SnapshotDiff(beforeSnapshot: Snapshot, afterSnapshot: Snapshot)
    returns (r: Result<SnapshotDelta, CompareError>)
    ensures r == SnapshotDeltaOf(beforeSnapshot, afterSnapshot)
  {
    var beforeStats := SnapshotServiceStats(beforeSnapshot);
    var afterStats := SnapshotServiceStats(afterSnapshot);
    r := CompareStats(beforeStats, afterStats, ServiceOrder(afterSnapshot));
  }

  /** One more service for the duration loop. */
  lemma DurationsStep(beforeStats: map<string, ServiceStats>, afterStats: map<string, ServiceStats>,
                      names: seq<string>, i: nat)
    requires forall s :: s in names ==> s in afterStats
    requires i < |names|
    ensures DurationsOver(beforeStats, afterStats, names[..i + 1]) ==
      match DurationsOver(beforeStats, afterStats, names[..i])
      case Err(e) => Err(e)
      case Ok(table) =>
        if names[i] !in beforeStats then Err(MissingBeforeService(names[i]))
        else Ok(table[names[i] := ServiceDuration(beforeStats[names[i]], afterStats[names[i]])])
  {
    PrefixStep(names, i);
    assert names[..i + 1][..i] == names[..i];
  }

  /** An inner `reduce` has exactly `names` as keys, each mapped to what the
      callback gives for it. */
  lemma {:induction false} ChangesOverSpec(names: seq<string>, change: string -> Change)
    ensures forall o :: o in ChangesOver(names, change) <==> o in names
    ensures forall o :: o in names ==> ChangesOver(names, change)[o] == change(o)
    decreases |names|
  {
    if names != [] {
      PrefixStep(names, |names| - 1);
      assert names[..|names|] == names;
      ChangesOverSpec(names[..|names| - 1], change);
    }
  }

  /** Once the duration loop has raised an error, running it over more
      services raises the same error. */
  lemma {:induction false} DurationsKeepError(beforeStats: map<string, ServiceStats>,
                                              afterStats: map<string, ServiceStats>, names: seq<string>, k: nat)
    requires forall s :: s in names ==> s in afterStats
    requires k <= |names|
    requires DurationsOver(beforeStats, afterStats, names[..k]).Err?
    ensures DurationsOver(beforeStats, afterStats, names) == DurationsOver(beforeStats, afterStats, names[..k])
    decreases |names| - k
  {
    if k < |names| {
      var longer := names[..k + 1];
      assert longer[..|longer| - 1] == names[..k];
      DurationsKeepError(beforeStats, afterStats, names, k + 1);
    } else {
      assert names[..k] == names;
    }
  }

  /** The duration loop completes exactly when the before statistics have
      every service of `names`. */
  lemma {:induction false} DurationsOverOk(beforeStats: map<string, ServiceStats>,
                                           afterStats: map<string, ServiceStats>, names: seq<string>)
    requires forall s :: s in names ==> s in afterStats
    ensures DurationsOver(beforeStats, afterStats, names).Ok? <==> forall s :: s in names ==> s in beforeStats
    decreases |names|
  {
    if names != [] {
      var init := names[..|names| - 1];
      var last := names[|names| - 1];
      PrefixStep(names, |names| - 1);
      assert names[..|names|] == names;
      DurationsOverOk(beforeStats, afterStats, init);
    }
  }

  /** The completed duration object has exactly `names` as keys, each with
      the duration entry of that service. */
  lemma {:induction false} DurationsOverContents(beforeStats: map<string, ServiceStats>,
                                                 afterStats: map<string, ServiceStats>, names: seq<string>)
    requires forall s :: s in names ==> s in afterStats
    requires DurationsOver(beforeStats, afterStats, names).Ok?
    ensures forall s :: s in DurationsOver(beforeStats, afterStats, names).value <==> s in names
    ensures forall s :: s in names ==> (s in beforeStats &&
      DurationsOver(beforeStats, afterStats, names).value[s] == ServiceDuration(beforeStats[s], afterStats[s]))
    decreases |names|
  {
    if names != [] {
      var init := names[..|names| - 1];
      PrefixStep(names, |names| - 1);
      assert names[..|names|] == names;
      DurationsOverContents(beforeStats, afterStats, init);
    }
  }

  /** A failed duration loop names the first service of `names` that the
      before statistics lack. */
  lemma {:induction false} DurationsOverFirstError(beforeStats: map<string, ServiceStats>,
                                                   afterStats: map<string, ServiceStats>, names: seq<string>)
    requires forall s :: s in names ==> s in afterStats
    requires DurationsOver(beforeStats, afterStats, names).Err?
    ensures var s := DurationsOver(beforeStats, afterStats, names).error.service;
      exists i :: 0 <= i < |names| && names[i] == s && s !in beforeStats
        && forall j :: 0 <= j < i ==> names[j] in beforeStats
    decreases |names|
  {
    var init := names[..|names| - 1];
    PrefixStep(names, |names| - 1);
    assert names[..|names|] == names;
    if DurationsOver(beforeStats, afterStats, init).Err? {
      DurationsOverFirstError(beforeStats, afterStats, init);
      var s := DurationsOver(beforeStats, afterStats, init).error.service;
      var i :| 0 <= i < |init| && init[i] == s && s !in beforeStats
        && forall j :: 0 <= j < i ==> init[j] in beforeStats;
      assert names[i] == init[i];
    } else {
      DurationsOverOk(beforeStats, afterStats, init);
      assert forall j :: 0 <= j < |names| - 1 ==> names[j] in init;
    }
  }

  /** The error object has exactly `names` as keys, each with the error
      entry of that service. */
  lemma {:induction false} ErrorsOverContents(beforeStats: map<string, ServiceStats>,
                                              afterStats: map<string, ServiceStats>, names: seq<string>)
    requires forall s :: s in names ==> s in beforeStats && s in afterStats
    ensures forall s :: s in ErrorsOver(beforeStats, afterStats, names) <==> s in names
    ensures forall s :: s in names ==>
      ErrorsOver(beforeStats, afterStats, names)[s] == ServiceError(beforeStats[s], afterStats[s])
    decreases |names|
  {
    if names != [] {
      PrefixStep(names, |names| - 1);
      assert names[..|names|] == names;
      ErrorsOverContents(beforeStats, afterStats, names[..|names| - 1]);
    }
  }

  /** `snapshotDiff` completes exactly when every service of the after
      snapshot also has statistics in the before snapshot. */
  lemma SnapshotDiffOk(beforeSnapshot: Snapshot, afterSnapshot: Snapshot)
    ensures SnapshotDeltaOf(beforeSnapshot, afterSnapshot).Ok? <==>
      forall s :: s in ServiceStatsOf(afterSnapshot) ==> s in ServiceStatsOf(beforeSnapshot)
  {
    DurationsOverOk(ServiceStatsOf(beforeSnapshot), ServiceStatsOf(afterSnapshot), ServiceOrder(afterSnapshot));
  }

  /** A failed `snapshotDiff` names the first after service, in key order,
      that the before snapshot lacks. */
  lemma SnapshotDiffMissing(beforeSnapshot: Snapshot, afterSnapshot: Snapshot)
    requires SnapshotDeltaOf(beforeSnapshot, afterSnapshot).Err?
    ensures var s := SnapshotDeltaOf(beforeSnapshot, afterSnapshot).error.service;
      var services := ServiceOrder(afterSnapshot);
      exists i :: 0 <= i < |services| && services[i] == s && s !in ServiceStatsOf(beforeSnapshot)
        && forall j :: 0 <= j < i ==> services[j] in ServiceStatsOf(beforeSnapshot)
  {
    DurationsOverFirstError(ServiceStatsOf(beforeSnapshot), ServiceStatsOf(afterSnapshot), ServiceOrder(afterSnapshot));
  }

  /** Both halves of a completed `snapshotDiff` are keyed by exactly the
      services of the after snapshot, each with the entries computed from
      that service's before and after statistics. */
  lemma SnapshotDiffEntries(beforeSnapshot: Snapshot, afterSnapshot: Snapshot)
    requires SnapshotDeltaOf(beforeSnapshot, afterSnapshot).Ok?
    ensures var d := SnapshotDeltaOf(beforeSnapshot, afterSnapshot).value;
      var beforeStats := ServiceStatsOf(beforeSnapshot);
      var afterStats := ServiceStatsOf(afterSnapshot);
      && d.avgDurationMs.Keys == afterStats.Keys
      && d.errorPct.Keys == afterStats.Keys
      && forall s :: s in afterStats ==>
           (s in beforeStats
            && d.avgDurationMs[s] == ServiceDuration(beforeStats[s], afterStats[s])
            && d.errorPct[s] == ServiceError(beforeStats[s], afterStats[s]))
  {
    var beforeStats := ServiceStatsOf(beforeSnapshot);
    var afterStats := ServiceStatsOf(afterSnapshot);
    var services := ServiceOrder(afterSnapshot);
    DeltaOverEntries(beforeStats, afterStats, services);
    var d := DeltaOver(beforeStats, afterStats, services).value;
    SameKeys(d.avgDurationMs, afterStats, services);
    SameKeys(d.errorPct, afterStats, services);
  }

  /** Two maps keyed by exactly the elements of one list have the same keys. */
  lemma SameKeys<A, B>(m1: map<string, A>, m2: map<string, B>, names: seq<string>)
    requires forall s :: s in m1 <==> s in names
    requires forall s :: s in m2 <==> s in names
    ensures m1.Keys == m2.Keys
  {
  }

  /** The two halves of a completed comparison are keyed by exactly the
      visited services, each with the entries computed from that service's
      before and after statistics. */
  lemma DeltaOverEntries(beforeStats: map<string, ServiceStats>, afterStats: map<string, ServiceStats>,
                         services: seq<string>)
    requires forall s :: s in services ==> s in afterStats
    requires DeltaOver(beforeStats, afterStats, services).Ok?
    ensures var d := DeltaOver(beforeStats, afterStats, services).value;
      && (forall s :: s in d.avgDurationMs <==> s in services)
      && (forall s :: s in d.errorPct <==> s in services)
      && forall s :: s in services ==>
           (s in beforeStats
            && d.avgDurationMs[s] == ServiceDuration(beforeStats[s], afterStats[s])
            && d.errorPct[s] == ServiceError(beforeStats[s], afterStats[s]))
  {
    DurationsOverContents(beforeStats, afterStats, services);
    DurationsOverOk(beforeStats, afterStats, services);
    ErrorsOverContents(beforeStats, afterStats, services);
  }

  /** The duration entry of a service: `diff` is the after average minus the
      before average and `pct` that change divided by the before average;
      `addedOperations` holds the operations only the before entry has and
      `deletedOperations` those only the after entry has, both in order. */
  lemma ServiceDurationSpec(before: ServiceStats, after: ServiceStats)
    ensures var d := ServiceDuration(before, after);
      && d.diff == after.avgDurationMs - before.avgDurationMs
      && d.pct == Div(d.diff, before.avgDurationMs)
      && (forall o :: o in d.addedOperations <==> o in before.operationNames && o !in after.operationNames)
      && (forall o :: o in d.deletedOperations <==> o in after.operationNames && o !in before.operationNames)
      && IsSubseq(d.addedOperations, before.operationNames)
      && IsSubseq(d.deletedOperations, after.operationNames)
  {
    SnapshotDiagram.SelectionsInOrder(after.operationNames, before.operationNames);
    SnapshotDiagram.SelectionsInOrder(before.operationNames, after.operationNames);
  }

  /** The per-operation duration changes of a service: one entry for each
      operation name of the after entry; `{ diff: 0, pct: 0 }` for an
      operation missing on either side, otherwise the after average minus
      the before average and that change divided by the before average. */
  lemma ServiceDurationOperations(before: ServiceStats, after: ServiceStats, o: string)
    ensures var ops := ServiceDuration(before, after).operations;
      && (o in ops <==> o in after.operationNames)
      && (o in ops && !InBoth(before, after, o) ==> ops[o] == Unchanged)
      && (o in ops && InBoth(before, after, o) ==>
            var diff := after.operations[o].avgDurationMs - before.operations[o].avgDurationMs;
            ops[o] == Change(Finite(diff), Div(diff, before.operations[o].avgDurationMs)))
  {
    ChangesOverSpec(after.operationNames, DurationChangeOf(before, after));
  }

  /** The error entry of a service: `diff` is the after error fraction minus
      the before one and `pct` equals `diff`; each operation of the after
      entry present on both sides gets NaN for both, any other gets
      `{ diff: 0, pct: 0 }`. */
  lemma ServiceErrorSpec(before: ServiceStats, after: ServiceStats, o: string)
    ensures var e := ServiceError(before, after);
      && e.diff == after.errorPct - before.errorPct
      && e.pct == e.diff
      && (o in e.operations <==> o in after.operationNames)
      && (o in e.operations && !InBoth(before, after, o) ==> e.operations[o] == Unchanged)
      && (o in e.operations && InBoth(before, after, o) ==> e.operations[o] == Change(NaN, NaN))
  {
    ChangesOverSpec(after.operationNames, ErrorChangeOf(before, after));
  }

  /** For services taken from `snapshotServiceStats`, the per-operation
      objects of both halves are keyed by exactly the operations of the
      after entry, and the error change of every service lies in [-1, 1]. */
  lemma SnapshotDiffOperationKeys(beforeSnapshot: Snapshot, afterSnapshot: Snapshot, s: string)
    requires SnapshotDeltaOf(beforeSnapshot, afterSnapshot).Ok?
    requires s in ServiceStatsOf(afterSnapshot)
    ensures var d := SnapshotDeltaOf(beforeSnapshot, afterSnapshot).value;
      var afterEntry := ServiceStatsOf(afterSnapshot)[s];
      && s in d.avgDurationMs && s in d.errorPct
      && d.avgDurationMs[s].operations.Keys == afterEntry.operations.Keys
      && d.errorPct[s].operations.Keys == afterEntry.operations.Keys
      && -1.0 <= d.errorPct[s].diff <= 1.0
  {
    SnapshotDiffEntries(beforeSnapshot, afterSnapshot);
    var before := ServiceStatsOf(beforeSnapshot)[s];
    var after := ServiceStatsOf(afterSnapshot)[s];
    EntryWellFormed(beforeSnapshot, s);
    EntryWellFormed(afterSnapshot, s);
    OperationKeys(before, after);
  }

  /** When `operationNames` lists exactly the keys of the after entry's
      `operations`, both per-operation objects have those keys. */
  lemma OperationKeys(before: ServiceStats, after: ServiceStats)
    requires forall o :: o in after.operations <==> o in after.operationNames
    ensures ServiceDuration(before, after).operations.Keys == after.operations.Keys
    ensures ServiceError(before, after).operations.Keys == after.operations.Keys
  {
    ChangesOverSpec(after.operationNames, DurationChangeOf(before, after));
    ChangesOverSpec(after.operationNames, ErrorChangeOf(before, after));
  }

  /** An entry of `snapshotServiceStats` lists the keys of its `operations`
      in `operationNames`, and its error fraction lies in [0, 1]. */
  lemma EntryWellFormed(snapshot: Snapshot, s: string)
    requires s in ServiceStatsOf(snapshot)
    ensures var entry := ServiceStatsOf(snapshot)[s];
      && (forall o :: o in entry.operations <==> o in entry.operationNames)
      && 0.0 <= entry.errorPct <= 1.0
  {
    var xs := snapshot.exemplars.value;
    ServiceStatsEntry(snapshot, s);
    ServiceOperationsSpec(xs, s);
    ServiceExemplarsSpec(xs, s);
  }

  /** Comparing a snapshot with itself completes; every service changes by
      zero in duration and in error fraction, and no operation is added or
      deleted; operations change by zero in duration, while their error
      entries are NaN. */
  lemma SnapshotDiffSelf(snapshot: Snapshot, s: string)
    requires s in ServiceStatsOf(snapshot)
    ensures SnapshotDeltaOf(snapshot, snapshot).Ok?
    ensures var d := SnapshotDeltaOf(snapshot, snapshot).value;
      && s in d.avgDurationMs && s in d.errorPct
      && d.avgDurationMs[s].diff == 0.0
      && d.avgDurationMs[s].addedOperations == []
      && d.avgDurationMs[s].deletedOperations == []
      && d.errorPct[s].diff == 0.0
      && (forall o :: o in d.avgDurationMs[s].operations ==> d.avgDurationMs[s].operations[o].diff == Finite(0.0))
      && (forall o :: o in d.errorPct[s].operations ==> d.errorPct[s].operations[o] == Change(NaN, NaN))
  {
    SnapshotDiffOk(snapshot, snapshot);
    SnapshotDiffEntries(snapshot, snapshot);
    var entry := ServiceStatsOf(snapshot)[s];
    EntryWellFormed(snapshot, s);
    ChangesOverSpec(entry.operationNames, DurationChangeOf(entry, entry));
    ChangesOverSpec(entry.operationNames, ErrorChangeOf(entry, entry));
    NothingOutside(entry.operationNames);
  }

  /** A list has no element outside itself. */
  lemma NothingOutside(names: seq<string>)
    ensures SnapshotDiagram.Difference(names, names) == []
  {
    JsCore.FilterNone(names, SnapshotDiagram.NotIn(names));
  }
}
