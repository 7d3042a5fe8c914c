/** The statistics half of the snapshot utilities: a snapshot's exemplar
    spans grouped by service and, within a service, by operation, with the
    average duration in milliseconds and the fraction of spans with an error
    for every group. */
module SnapshotStats {
  import opened JsCore

  /** One exemplar span of a snapshot response. */
  datatype Exemplar = Exemplar(serviceName: string, spanName: string, durationMicros: int, hasError: bool)

  /** A snapshot response; `exemplars` is None when the response has no
      exemplar list. */
  datatype Snapshot = Snapshot(exemplars: Option<seq<Exemplar>>)

  /** What `spanStats` returns for a list of spans. */
  datatype SpanStats = SpanStats(avgDurationMs: real, errorPct: real)

  /** The entry `snapshotServiceStats` builds for one service. */
  datatype ServiceStats = ServiceStats(
    exemplars: seq<Exemplar>,
    operations: map<string, SpanStats>,
    operationNames: seq<string>,
    avgDurationMs: real,
    errorPct: real)

  /** Sum of the durations, in microseconds. */
  function TotalMicros(spans: seq<Exemplar>): int
  {
    if spans == [] then 0 else spans[0].durationMicros + TotalMicros(spans[1..])
  }

  /** Number of spans that have an error. */
  function ErrorCount(spans: seq<Exemplar>): (n: nat)
    ensures n <= |spans|
  {
    if spans == [] then 0 else (if spans[0].hasError then 1 else 0) + ErrorCount(spans[1..])
  }

  /** `spanStats`: mean duration in milliseconds and error fraction of a
      non-empty list of spans. */
  function SpanStatsOf(spans: seq<Exemplar>): (r: SpanStats)
    requires |spans| > 0
    ensures 0.0 <= r.errorPct <= 1.0
    ensures r.avgDurationMs * (|spans| as real * 1000.0) == TotalMicros(spans) as real
    ensures r.errorPct * |spans| as real == ErrorCount(spans) as real
  {
    var count := |spans| as real;
    SpanStats(TotalMicros(spans) as real / (count * 1000.0), ErrorCount(spans) as real / count)
  }

  /** The filter callback `e => e['service-name'] === s`. */
  function OfService(s: string): Exemplar -> bool
  {
    (e: Exemplar) => e.serviceName == s
  }

  /** The filter callback `e => e['span-name'] === o`. */
  function OfOperation(o: string): Exemplar -> bool
  {
    (e: Exemplar) => e.spanName == o
  }

  /** `xs.map(e => e['service-name'])`. */
  function ServiceColumn(xs: seq<Exemplar>): (names: seq<string>)
    ensures |names| == |xs|
    ensures forall s :: s in names <==> exists e :: e in xs && e.serviceName == s
  {
    if xs == [] then [] else [xs[0].serviceName] + ServiceColumn(xs[1..])
  }

  /** `xs.map(e => e['span-name'])`. */
  function SpanColumn(xs: seq<Exemplar>): (names: seq<string>)
    ensures |names| == |xs|
    ensures forall o :: o in names <==> exists e :: e in xs && e.spanName == o
  {
    if xs == [] then [] else [xs[0].spanName] + SpanColumn(xs[1..])
  }

  /** The distinct service names of `xs`, in order of first appearance. */
  function ServiceNamesOf(xs: seq<Exemplar>): (r: seq<string>)
    ensures Distinct(r)
    ensures forall s :: s in r <==> exists e :: e in xs && e.serviceName == s
  {
    Dedup(ServiceColumn(xs))
  }

  /** The distinct operation names of `xs`, in order of first appearance. */
  function SpanNamesOf(xs: seq<Exemplar>): (r: seq<string>)
    ensures Distinct(r)
    ensures forall o :: o in r <==> exists e :: e in xs && e.spanName == o
  {
    Dedup(SpanColumn(xs))
  }

  /** The service list follows the exemplars: of any two services, the one
      listed first is the one whose first exemplar comes first. */
  lemma ServiceNamesOrder(xs: seq<Exemplar>)
    ensures FirstOccurrenceOrder(ServiceNamesOf(xs), ServiceColumn(xs))
  {
    DedupAfterFirstOrder(ServiceColumn(xs), {});
  }

  /** `operationNames` follows the exemplars: of any two operations, the one
      listed first is the one whose first exemplar comes first. */
  lemma SpanNamesOrder(xs: seq<Exemplar>)
    ensures FirstOccurrenceOrder(SpanNamesOf(xs), SpanColumn(xs))
  {
    DedupAfterFirstOrder(SpanColumn(xs), {});
  }

  lemma ServiceGroupNonEmpty(xs: seq<Exemplar>, s: string)
    requires s in ServiceNamesOf(xs)
    ensures |Filter(xs, OfService(s))| > 0
  {
    var e :| e in xs && e.serviceName == s;
    assert e in Filter(xs, OfService(s));
  }

  lemma OperationGroupNonEmpty(xs: seq<Exemplar>, o: string)
    requires o in SpanNamesOf(xs)
    ensures |Filter(xs, OfOperation(o))| > 0
  {
    var e :| e in xs && e.spanName == o;
    assert e in Filter(xs, OfOperation(o));
  }

  /** `spanStats` of the exemplars with operation name `o`. */
  function OperationEntry(exemplars: seq<Exemplar>, o: string): SpanStats
    requires o in SpanNamesOf(exemplars)
  {
    OperationGroupNonEmpty(exemplars, o);
    SpanStatsOf(Filter(exemplars, OfOperation(o)))
  }

  /** The `reduce` over operation names: the `operations` object after the
      callback has run for each of `names`. */
  function OperationsOver(exemplars: seq<Exemplar>, names: seq<string>): map<string, SpanStats>
    requires forall o :: o in names ==> o in SpanNamesOf(exemplars)
    decreases |names|
  {
    if names == [] then map[]
    else
      var o := names[|names| - 1];
      OperationsOver(exemplars, names[..|names| - 1])[o := OperationEntry(exemplars, o)]
  }

  /** The `operations` object of one service. */
  function OperationStats(exemplars: seq<Exemplar>): map<string, SpanStats>
  {
    OperationsOver(exemplars, SpanNamesOf(exemplars))
  }

  /** The entry of service `s` in the result of `snapshotServiceStats`. */
  function ServiceEntry(xs: seq<Exemplar>, s: string): ServiceStats
    requires s in ServiceNamesOf(xs)
  {
    var exemplars := Filter(xs, OfService(s));
    ServiceGroupNonEmpty(xs, s);
    var whole := SpanStatsOf(exemplars);
    ServiceStats(exemplars, OperationStats(exemplars), SpanNamesOf(exemplars), whole.avgDurationMs, whole.errorPct)
  }

  /** The `reduce` over service names: the result object after the callback
      has run for each of `names`. */
  function ServicesOver(xs: seq<Exemplar>, names: seq<string>): map<string, ServiceStats>
    requires forall s :: s in names ==> s in ServiceNamesOf(xs)
    decreases |names|
  {
    if names == [] then map[]
    else
      var s := names[|names| - 1];
      ServicesOver(xs, names[..|names| - 1])[s := ServiceEntry(xs, s)]
  }

  /** What `snapshotServiceStats` returns for a snapshot. */
  function ServiceStatsOf(snapshot: Snapshot): map<string, ServiceStats>
  {
    match snapshot.exemplars
    case None => map[]
    case Some(xs) => ServicesOver(xs, ServiceNamesOf(xs))
  }

  /** The inner `reduce` of `snapshotServiceStats`: the `operations` object
      of one service, built one operation name at a time. */
  method GroupOperations(exemplars: seq<Exemplar>) returns (operations: map<string, SpanStats>)
    ensures operations == OperationStats(exemplars)
  {
    var operationNames := SpanNamesOf(exemplars);
    operations := map[];
    for j := 0 to |operationNames|
      invariant operations == OperationsOver(exemplars, operationNames[..j])
    {
      PrefixStep(operationNames, j);
      var o := operationNames[j];
      OperationGroupNonEmpty(exemplars, o);
      operations := operations[o := SpanStatsOf(Filter(exemplars, OfOperation(o)))];
      assert operationNames[..j + 1][..j] == operationNames[..j];
    }
    assert operationNames[..|operationNames|] == operationNames;
  }

  /** The callback of the outer `reduce` of `snapshotServiceStats`: the entry
      of service `s`. */
  method ServiceEntryFor(xs: seq<Exemplar>, s: string) returns (entry: ServiceStats)
    requires s in ServiceNamesOf(xs)
    ensures entry == ServiceEntry(xs, s)
  {
    var exemplars := Filter(xs, OfService(s));
    var operationNames := SpanNamesOf(exemplars);
    ServiceGroupNonEmpty(xs, s);
    var whole := SpanStatsOf(exemplars);
    var operations := GroupOperations(exemplars);
    entry := ServiceStats(exemplars, operations, operationNames, whole.avgDurationMs, whole.errorPct);
  }

  /** `snapshotServiceStats` */
  method SnapshotServiceStats(snapshot: Snapshot) returns (stats: map<string, ServiceStats>)
    ensures stats == ServiceStatsOf(snapshot)
  {
    if snapshot.exemplars.None? {
      return map[];
    }
    var xs := snapshot.exemplars.value;
    var services := ServiceNamesOf(xs);
    stats := map[];
    for i := 0 to |services|
      invariant stats == ServicesOver(xs, services[..i])
    {
      PrefixStep(services, i);
      var s := services[i];
      var entry := ServiceEntryFor(xs, s);
      stats := stats[s := entry];
      assert services[..i + 1][..i] == services[..i];
    }
    assert services[..|services|] == services;
  }

  /** The fold over operation names has exactly those names as keys, each
      mapped to the statistics of its own exemplars. */
  lemma {:induction false} OperationsOverSpec(exemplars: seq<Exemplar>, names: seq<string>)
    requires forall o :: o in names ==> o in SpanNamesOf(exemplars)
    ensures forall o :: o in OperationsOver(exemplars, names) <==> o in names
    ensures forall o :: o in names ==> OperationsOver(exemplars, names)[o] == OperationEntry(exemplars, o)
    decreases |names|
  {
    if names != [] {
      var init := names[..|names| - 1];
      PrefixStep(names, |names| - 1);
      assert names[..|names|] == names;
      OperationsOverSpec(exemplars, init);
    }
  }

  /** The fold over service names maps each of those names to the entry of
      that service (`ServicesOverKeys` shows it has no other key). */
  lemma {:induction false} ServicesOverSpec(xs: seq<Exemplar>, names: seq<string>)
    requires forall s :: s in names ==> s in ServiceNamesOf(xs)
    ensures forall s :: s in names ==> s in ServicesOver(xs, names) && ServicesOver(xs, names)[s] == ServiceEntry(xs, s)
    decreases |names|
  {
    if names != [] {
      var init := names[..|names| - 1];
      PrefixStep(names, |names| - 1);
      assert names[..|names|] == names;
      ServicesOverSpec(xs, init);
    }
  }

  /** A snapshot without exemplars, or with an empty exemplar list, yields an
      empty mapping rather than an error. */
  lemma NoExemplarsNoStats(snapshot: Snapshot)
    requires snapshot.exemplars.None? || snapshot.exemplars == Some([])
    ensures ServiceStatsOf(snapshot) == map[]
  {
  }

  /** The keys of `snapshotServiceStats` are exactly the service names of the
      exemplars. */
  lemma ServiceStatsKeys(snapshot: Snapshot)
    requires snapshot.exemplars.Some?
    ensures forall s :: s in ServiceStatsOf(snapshot) <==>
      exists e :: e in snapshot.exemplars.value && e.serviceName == s
  {
    var xs := snapshot.exemplars.value;
    ServicesOverKeys(xs, ServiceNamesOf(xs));
  }

  /** The keys of the fold over service names are those names. */
  lemma {:induction false} ServicesOverKeys(xs: seq<Exemplar>, names: seq<string>)
    requires forall s :: s in names ==> s in ServiceNamesOf(xs)
    ensures forall s :: s in ServicesOver(xs, names) <==> s in names
    decreases |names|
  {
    if names != [] {
      PrefixStep(names, |names| - 1);
      assert names[..|names|] == names;
      ServicesOverKeys(xs, names[..|names| - 1]);
    }
  }

  /** Each key of `snapshotServiceStats` maps to the entry of that service. */
  lemma ServiceStatsEntry(snapshot: Snapshot, s: string)
    requires snapshot.exemplars.Some? && s in ServiceStatsOf(snapshot)
    ensures s in ServiceNamesOf(snapshot.exemplars.value)
    ensures ServiceStatsOf(snapshot)[s] == ServiceEntry(snapshot.exemplars.value, s)
  {
    var xs := snapshot.exemplars.value;
    var names := ServiceNamesOf(xs);
    ServicesOverKeys(xs, names);
    ServicesOverSpec(xs, names);
    assert ServiceStatsOf(snapshot) == ServicesOver(xs, names);
  }

  /** The exemplars of a service's entry are the in-order selection of every
      exemplar with that service name, so there is at least one; its error
      fraction lies in [0, 1]. */
  lemma ServiceExemplarsSpec(xs: seq<Exemplar>, s: string)
    requires s in ServiceNamesOf(xs)
    ensures var entry := ServiceEntry(xs, s);
      && |entry.exemplars| > 0
      && IsSubseq(entry.exemplars, xs)
      && (forall e :: e in entry.exemplars <==> e in xs && e.serviceName == s)
      && (forall e :: multiset(entry.exemplars)[e] == if e.serviceName == s then multiset(xs)[e] else 0)
      && 0.0 <= entry.errorPct <= 1.0
  {
    ServiceGroupNonEmpty(xs, s);
    FilterOrder(xs, OfService(s));
    FilterCounts(xs, OfService(s));
  }

  /** The operations of a service's entry: `operationNames` lists each
      operation name of its exemplars once, and `operations` is keyed by
      exactly those names, each with the statistics of the exemplars of that
      operation, whose error fraction lies in [0, 1]. */
  lemma ServiceOperationsSpec(xs: seq<Exemplar>, s: string)
    requires s in ServiceNamesOf(xs)
    ensures var entry := ServiceEntry(xs, s);
      && Distinct(entry.operationNames)
      && (forall o :: o in entry.operationNames <==> exists e :: e in entry.exemplars && e.spanName == o)
      && (forall o :: o in entry.operations <==> o in entry.operationNames)
      && (forall o :: o in entry.operations ==>
            var group := Filter(entry.exemplars, OfOperation(o));
            |group| > 0 && entry.operations[o] == SpanStatsOf(group)
            && 0.0 <= entry.operations[o].errorPct <= 1.0)
  {
    var exemplars := Filter(xs, OfService(s));
    OperationsOverSpec(exemplars, SpanNamesOf(exemplars));
    forall o | o in SpanNamesOf(exemplars)
      ensures |Filter(exemplars, OfOperation(o))| > 0
    {
      OperationGroupNonEmpty(exemplars, o);
    }
  }

  /** The sum does not depend on how the spans are split: the total of two
      lists put together is the sum of their totals. */
  lemma {:induction false} TotalMicrosAppend(a: seq<Exemplar>, b: seq<Exemplar>)
    ensures TotalMicros(a + b) == TotalMicros(a) + TotalMicros(b)
    decreases |a|
  {
    if a != [] {
      TotalMicrosAppend(a[1..], b);
      assert (a + b)[0] == a[0];
      assert (a + b)[1..] == a[1..] + b;
    } else {
      assert a + b == b;
    }
  }

  /** Bounds on the total duration of spans whose durations lie in [lo, hi]. */
  lemma {:induction false} TotalMicrosBounds(spans: seq<Exemplar>, lo: int, hi: int)
    requires forall i :: 0 <= i < |spans| ==> lo <= spans[i].durationMicros <= hi
    ensures |spans| * lo <= TotalMicros(spans) <= |spans| * hi
  {
    if spans != [] {
      var n := |spans[1..]|;
      TotalMicrosBounds(spans[1..], lo, hi);
      assert (n + 1) * lo == n * lo + lo;
      assert (n + 1) * hi == n * hi + hi;
    }
  }

  lemma IntProductAsReal(a: int, b: int)
    ensures (a * b) as real == a as real * b as real
  {
  }

  /** A mean of values in [lo, hi] lies in [lo, hi]. */
  lemma MeanBounds(total: real, n: real, lo: real, hi: real)
    requires n > 0.0 && n * lo <= total <= n * hi
    ensures lo <= total / n <= hi
  {
    assert (total / n) * n == total;
  }

  lemma MillisOfMean(total: real, n: real)
    requires n > 0.0
    ensures total / (n * 1000.0) == (total / n) / 1000.0
  {
  }

  /** The average duration of a group lies between its shortest and its
      longest span, scaled from microseconds to milliseconds. */
  lemma AvgDurationBounds(spans: seq<Exemplar>, lo: int, hi: int)
    requires |spans| > 0
    requires forall i :: 0 <= i < |spans| ==> lo <= spans[i].durationMicros <= hi
    ensures lo as real / 1000.0 <= SpanStatsOf(spans).avgDurationMs <= hi as real / 1000.0
  {
    var n := |spans|;
    var total := TotalMicros(spans);
    TotalMicrosBounds(spans, lo, hi);
    IntProductAsReal(n, lo);
    IntProductAsReal(n, hi);
    MeanBounds(total as real, n as real, lo as real, hi as real);
    MillisOfMean(total as real, n as real);
  }

  /** No span has an error exactly when none is counted, and every span has
      one exactly when all are counted. */
  lemma {:induction false} ErrorCountExtremes(spans: seq<Exemplar>)
    ensures ErrorCount(spans) == 0 <==> forall i :: 0 <= i < |spans| ==> !spans[i].hasError
    ensures ErrorCount(spans) == |spans| <==> forall i :: 0 <= i < |spans| ==> spans[i].hasError
  {
    if spans != [] {
      ErrorCountExtremes(spans[1..]);
      assert forall i :: 1 <= i < |spans| ==> spans[i] == spans[1..][i - 1];
    }
  }

  /** The error fraction of a group is 0 exactly when no span has an error
      and 1 exactly when every span has one. */
  lemma ErrorPctExtremes(spans: seq<Exemplar>)
    requires |spans| > 0
    ensures SpanStatsOf(spans).errorPct == 0.0 <==> forall i :: 0 <= i < |spans| ==> !spans[i].hasError
    ensures SpanStatsOf(spans).errorPct == 1.0 <==> forall i :: 0 <= i < |spans| ==> spans[i].hasError
  {
    ErrorCountExtremes(spans);
    FractionExtremes(ErrorCount(spans) as real, |spans| as real);
  }

  lemma FractionExtremes(k: real, n: real)
    requires n > 0.0
    ensures k / n == 0.0 <==> k == 0.0
    ensures k / n == 1.0 <==> k == n
  {
    assert (k / n) * n == k;
  }
}
