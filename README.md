# Snapshot and service-diagram diff engine

This project models, in Dafny, the part of the Lightstep API client that
compares two observations of a traced system:

- **Service diagrams.** A service diagram lists the services (nodes) and
  connections (edges) of a system, plus an overlay with each service's
  average critical-path latency. `diagramDiff` lists the services and
  connections added or deleted between two diagrams, and the latency change
  of each service present in both (`criticalPathDiff`).
- **Snapshots.** A snapshot holds a list of exemplar spans.
  `snapshotServiceStats` groups them by service and, within a service, by
  operation. For every group it computes the average duration in
  milliseconds and the fraction of spans with an error (`spanStats`).
  `snapshotDiff` compares the statistics of two snapshots service by service
  and operation by operation.
- **The older module.** `src/service-diagram-diff.js` is an older copy of the
  diagram half; its exported function returns the same five fields.

Modules:

- `JsCore` (`js_core.dfy`): the JavaScript behaviour the engine leans on.
  - `Option` and `Result` values.
  - `Num`, a JavaScript number that may be `Infinity`, `-Infinity` or `NaN`, and `Div`, JavaScript's division.
  - `Filter`, which is `Array.prototype.filter`.
  - `Dedup`, the `[...new Set(xs)]` idiom.
- `SnapshotDiagram` (`snapshot_diagram.dfy`): `getNodes`, `getEdges`, `intersection`, `difference`, `criticalPathDiff`, `diagramStats` and `diagramDiff`.
- `SnapshotStats` (`snapshot_stats.dfy`): `spanStats` and `snapshotServiceStats`.
- `SnapshotCompare` (`snapshot_compare.dfy`): `snapshotDiff`.
- `ServiceDiagramDiff` (`service_diagram_diff.dfy`): the exported function of the older module.
  - Its `intersection`, `difference` and `criticalPathDiff` are the same code as in the snapshot utilities.
  - The model shares them with `SnapshotDiagram`.

How the source becomes Dafny:

- **Loops and reducers become methods.**
  - The `for` loop of `criticalPathDiff` and the `reduce` accumulators of `snapshotServiceStats` and `snapshotDiff` are methods with loops.
  - Each method is proved equal to a fold function over a prefix of the names it iterates.
  - Lemmas then state what the fold computes.
  - The filter and set expressions are functions.
- **Objects are maps.** A JavaScript object becomes a `map`. `Object.keys` of a response's `nodes` or `edges` object becomes a `seq<string>` in key order.
- **Thrown errors become `Err` results.** Where the source reads a property of `undefined` and throws a TypeError, the model returns `Err`:
  - a common node without an overlay entry gives `MissingOverlay`;
  - an after service missing from the before statistics gives `MissingBeforeService`.

  The error names the first such key in the order the source visits keys.
- **Missing latencies are `None`.** A latency that `isNaN` rejects (absent, or not a number) is `None`.
- **Percentages are exact.** The latency `pct` is the exact number `diff * 100 / before` as a `Num`, including the infinite and NaN cases.
- **Field labels are kept as written.** In `snapshotDiff`, `added_operations` is `difference(after, before)`, so it holds the operations only the before entry has; `deleted_operations` holds those only the after entry has. The model keeps these labels as written (`ServiceDurationSpec` states it). `diagramDiff` uses the opposite convention for services and connections.
- **Per-operation error changes are NaN.** The error change of an operation present on both sides subtracts two reads of a field that operation statistics do not have, so both its `diff` and `pct` are `NaN`.

## Model

| member | source | states |
|---|---|---|
| JsCore.Div | src/snapshot-utils.js:123 | JavaScript `a / b`: finite exactly when `b` is non-zero, and then the quotient times `b` is `a`; `NaN` exactly for 0/0; `Infinity` or `-Infinity` by the sign of `a` otherwise |
| JsCore.Filter | src/snapshot-utils.js:14 | `filter` keeps exactly the elements that satisfy the callback |
| JsCore.FilterOrder | src/snapshot-utils.js:14 | the filtered list is a subsequence of the input |
| JsCore.FilterCounts | src/snapshot-utils.js:14 | every kept element occurs as often as in the input; the others do not occur |
| JsCore.Dedup | src/snapshot-utils.js:48 | `[...new Set(xs)]` has no repeated element and has exactly the elements of `xs` |
| JsCore.DedupAfter | src/snapshot-utils.js:59 | the first occurrences of the elements not yet seen: distinct, and exactly the unseen elements |
| JsCore.DedupAfterOrder | src/snapshot-utils.js:48 | the distinct elements keep the order of the input |
| JsCore.DedupAfterFirstOrder | src/snapshot-utils.js:48 | the distinct elements are listed by first occurrence: of any two, the earlier one first occurs in the input before the later one does |
| SnapshotDiagram.Intersection | src/snapshot-utils.js:13-15 | `intersection(d1, d2)` has exactly the elements of `d2` that occur in `d1` |
| SnapshotDiagram.Difference | src/snapshot-utils.js:17-19 | `difference(d1, d2)` has exactly the elements of `d2` that do not occur in `d1` |
| SnapshotDiagram.SelectionsInOrder | src/snapshot-utils.js:13-19 | both results are subsequences of `d2` |
| SnapshotDiagram.SelectionsSplit | src/snapshot-utils.js:13-19 | intersection and difference keep every occurrence of their elements, and together they split `d2` as a multiset |
| SnapshotDiagram.CriticalPathDiff | src/snapshot-utils.js:21-36 | the loop yields exactly the latency table of the common nodes, or the error of the first common node without an overlay entry |
| SnapshotDiagram.LatencyTableKeepsError | src/snapshot-utils.js:24-34 | once the loop has thrown, more nodes do not change the error |
| SnapshotDiagram.LatencyTableOk | src/snapshot-utils.js:24-34 | the loop completes exactly when every node visited has an overlay entry in both diagrams |
| SnapshotDiagram.LatencyTableContents | src/snapshot-utils.js:27-33 | the completed table holds exactly the visited nodes with two numeric latencies, with `diff` = after − before and `pct` = diff·100 / before |
| SnapshotDiagram.LatencyTableFirstError | src/snapshot-utils.js:24-26 | a failed loop names the first visited node without an overlay entry |
| SnapshotDiagram.CriticalPathOk | src/snapshot-utils.js:21-26 | `criticalPathDiff` completes exactly when every node common to both diagrams has an overlay entry in both |
| SnapshotDiagram.CriticalPathContents | src/snapshot-utils.js:21-35 | the table's keys are exactly the common nodes with two numeric latencies; each `diff` is after − before |
| SnapshotDiagram.CriticalPathMissing | src/snapshot-utils.js:22-26 | the node named by the error is common to both diagrams and lacks an overlay entry |
| SnapshotDiagram.Diff | src/snapshot-utils.js:91-102 | `diagramDiff` fails exactly when `criticalPathDiff` does; otherwise added services are exactly the after-nodes that are not before-nodes, deleted services the reverse, and connections follow the same law on edge keys |
| SnapshotDiagram.DiffLists | src/snapshot-utils.js:79-102 | `diagramStats` lists the node and edge keys in diagram order, and each of the four lists of `diagramDiff` keeps the order of the diagram it is drawn from |
| SnapshotDiagram.DiffLatency | src/snapshot-utils.js:100 | `diagramDiff` fails exactly when `criticalPathDiff` fails, and otherwise its `latency` is that table |
| SnapshotDiagram.DiffSwap | src/snapshot-utils.js:91-101 | swapping the diagrams swaps added with deleted, keeps the latency keys, negates every `diff`, and keeps success |
| SnapshotDiagram.ExampleServiceChurn | src/snapshot-utils.js:91-102 | service a retired and c introduced: added `[c]`, deleted `[a]`, and no latency entry for b, whose before latency is not a number |
| SnapshotDiagram.ExampleMissingOverlay | src/snapshot-utils.js:91-102 | the same change without an overlay entry for b in the before diagram fails on b |
| SnapshotStats.ErrorCount | src/snapshot-utils.js:53 | the number of spans with an error is at most the number of spans |
| SnapshotStats.SpanStatsOf | src/snapshot-utils.js:51-55 | `avgDurationMs · count · 1000` = total micros; `errorPct · count` = error count; `errorPct` lies in [0, 1] |
| SnapshotStats.ServiceNamesOf | src/snapshot-utils.js:48 | the service list is distinct and names exactly the services of the exemplars |
| SnapshotStats.SpanNamesOf | src/snapshot-utils.js:59 | `operationNames` is distinct and names exactly the operations of the service's exemplars |
| SnapshotStats.ServiceNamesOrder | src/snapshot-utils.js:48 | the service list is ordered by first exemplar: of any two services, the one listed first has the earlier first exemplar |
| SnapshotStats.SpanNamesOrder | src/snapshot-utils.js:59 | `operationNames` is ordered by first exemplar: of any two operations, the one listed first has the earlier first exemplar |
| SnapshotStats.ServiceGroupNonEmpty | src/snapshot-utils.js:58 | the exemplars of a listed service are never empty |
| SnapshotStats.OperationGroupNonEmpty | src/snapshot-utils.js:64 | the exemplars of a listed operation are never empty |
| SnapshotStats.GroupOperations | src/snapshot-utils.js:63-66 | the inner `reduce` yields the operation table of the service's exemplars |
| SnapshotStats.ServiceEntryFor | src/snapshot-utils.js:58-68 | the outer callback yields the entry of the service |
| SnapshotStats.SnapshotServiceStats | src/snapshot-utils.js:44-71 | the method yields the statistics of the snapshot |
| SnapshotStats.OperationsOverSpec | src/snapshot-utils.js:63-66 | the operation table has exactly the visited names as keys, each with the `spanStats` of that operation's exemplars |
| SnapshotStats.ServicesOverSpec | src/snapshot-utils.js:57-70 | every visited name is a key of the service table, mapped to that service's entry |
| SnapshotStats.ServicesOverKeys | src/snapshot-utils.js:57-70 | the keys of the service table are exactly the visited names |
| SnapshotStats.NoExemplarsNoStats | src/snapshot-utils.js:45-47 | a snapshot without exemplars, or with none, gives the empty object |
| SnapshotStats.ServiceStatsKeys | src/snapshot-utils.js:48-70 | the keys are exactly the service names that occur among the exemplars |
| SnapshotStats.ServiceStatsEntry | src/snapshot-utils.js:68 | each key maps to the entry computed for that service |
| SnapshotStats.ServiceExemplarsSpec | src/snapshot-utils.js:58-60 | an entry's exemplars are the in-order selection of all exemplars of the service, with their multiplicities; they are non-empty; the error fraction lies in [0, 1] |
| SnapshotStats.ServiceOperationsSpec | src/snapshot-utils.js:59-66 | `operationNames` is distinct and names the entry's operations; `operations` has exactly those keys, each with the `spanStats` of its non-empty group |
| SnapshotStats.TotalMicrosAppend | src/snapshot-utils.js:52 | the summing `reduce` is additive: the total of two span lists put together is the sum of their totals |
| SnapshotStats.TotalMicrosBounds | src/snapshot-utils.js:52 | the sum of durations in [lo, hi] lies between count·lo and count·hi |
| SnapshotStats.AvgDurationBounds | src/snapshot-utils.js:52 | the average lies between the shortest and the longest duration, in milliseconds |
| SnapshotStats.ErrorCountExtremes | src/snapshot-utils.js:53 | the error count is 0 exactly when no span has an error, and equals the count exactly when all have one |
| SnapshotStats.ErrorPctExtremes | src/snapshot-utils.js:53 | `errorPct` is 0 exactly when no span has an error, and 1 exactly when all have one |
| SnapshotCompare.ServiceOrder | src/snapshot-utils.js:112 | `Object.keys(afterStats)` names exactly the keys of the statistics |
| SnapshotCompare.DurationOperations | src/snapshot-utils.js:116-125 | the inner duration `reduce` yields the fold of the duration callback over the operations |
| SnapshotCompare.ErrorOperations | src/snapshot-utils.js:143-152 | the inner error `reduce` yields the fold of the error callback over the operations |
| SnapshotCompare.ServiceDurationFor | src/snapshot-utils.js:113-136 | the outer duration callback yields the duration entry of the service |
| SnapshotCompare.ServiceErrorFor | src/snapshot-utils.js:140-157 | the outer error callback yields the error entry of the service |
| SnapshotCompare.CompareStats | src/snapshot-utils.js:112-159 | both outer `reduce`s yield the comparison of the two statistics, or the error of the first after service the before statistics lack |
| SnapshotCompare.SnapshotDiff | src/snapshot-utils.js:108-161 | the method yields the comparison of the two snapshots |
| SnapshotCompare.ChangesOverSpec | src/snapshot-utils.js:116-125 | an inner `reduce` has exactly the visited operations as keys, each with its callback's value |
| SnapshotCompare.DurationsKeepError | src/snapshot-utils.js:112-138 | once the duration `reduce` has thrown, more services do not change the error |
| SnapshotCompare.DurationsOverOk | src/snapshot-utils.js:112-113 | the duration `reduce` completes exactly when the before statistics have every visited service |
| SnapshotCompare.DurationsOverContents | src/snapshot-utils.js:112-138 | the completed duration object has exactly the visited services as keys, each with its duration entry |
| SnapshotCompare.DurationsOverFirstError | src/snapshot-utils.js:112-113 | a failed duration `reduce` names the first visited service that the before statistics lack |
| SnapshotCompare.ErrorsOverContents | src/snapshot-utils.js:139-159 | the error object has exactly the visited services as keys, each with its error entry |
| SnapshotCompare.SnapshotDiffOk | src/snapshot-utils.js:112-113 | `snapshotDiff` completes exactly when every after service has before statistics |
| SnapshotCompare.SnapshotDiffMissing | src/snapshot-utils.js:112-113 | a failed `snapshotDiff` names the first after service, in key order, that the before snapshot lacks |
| SnapshotCompare.SnapshotDiffEntries | src/snapshot-utils.js:112-160 | `avgDurationMs` and `errorPct` are both keyed by exactly the after services, each with the entries computed from that service's two statistics |
| SnapshotCompare.DeltaOverEntries | src/snapshot-utils.js:112-159 | a completed comparison has exactly the visited services as keys in both halves, each with the entries computed from that service's two statistics |
| SnapshotCompare.ServiceDurationSpec | src/snapshot-utils.js:113-135 | `diff` = after avg − before avg; `pct` = diff / before avg; `added_operations` holds exactly the before-only operations and `deleted_operations` the after-only ones, each in order |
| SnapshotCompare.ServiceDurationOperations | src/snapshot-utils.js:116-125 | one entry per after operation: `{0, 0}` when either side lacks it, otherwise after avg − before avg and that divided by the before avg |
| SnapshotCompare.ServiceErrorSpec | src/snapshot-utils.js:140-156 | `diff` = after errorPct − before errorPct and `pct` = `diff`; operations on both sides get NaN, the others `{0, 0}` |
| SnapshotCompare.OperationKeys | src/snapshot-utils.js:116-152 | when `operationNames` lists the keys of `operations`, both per-operation objects have exactly those keys |
| SnapshotCompare.EntryWellFormed | src/snapshot-utils.js:63-68 | an entry of the statistics lists its operation keys in `operationNames` and has an error fraction in [0, 1] |
| SnapshotCompare.SnapshotDiffOperationKeys | src/snapshot-utils.js:116-152 | both per-operation objects of a service are keyed by exactly the after entry's operations, and its error change lies in [−1, 1] |
| SnapshotCompare.SnapshotDiffSelf | src/snapshot-utils.js:108-161 | comparing a snapshot with itself completes with zero duration and error changes and no added or deleted operations; operation error entries are NaN |
| ServiceDiagramDiff.ExportedDiff | src/service-diagram-diff.js:13-51 | the exported function, with its own `intersection`, `difference` and `criticalPathDiff` (the same code as `Intersection`, `Difference` and the `CriticalPathDiff` loop), yields exactly what `diagramDiff` yields, error included; so `Diff`, `DiffLists`, `DiffSwap` and `DiffLatency` hold of it too |
| ServiceDiagramDiff.ExportedListsDisjoint | src/service-diagram-diff.js:39-48 | added services lie in the after nodes and not in the before nodes, deleted services the reverse, the same for connections, and no service is both added and deleted |
| ServiceDiagramDiff.ExportedLatency | src/service-diagram-diff.js:21-35 | every latency entry is a node common to both diagrams with two numeric latencies, with `diff` = after − before |

## Left out

- **Response envelopes.** The `data.attributes` envelopes of the API responses are unwrapped: a diagram is its node keys, edge keys and overlay latencies, and a snapshot is its exemplar list.
- **Key order.** `Object.keys` order is taken to be insertion order for every key. JavaScript lists integer-like keys first; the model does not capture that.
- **Inherited keys.** Keys that resolve through the prototype chain (such as `constructor`) are treated like any other missing key.
- **Number formatting and precision.** The `.toFixed(2)` formatting of the latency `pct` is not modelled; the model keeps the exact number. Averages and ratios are exact reals, not IEEE doubles.
- **Operation key order.** The inner `reduce`s of `snapshotDiff` iterate `Object.keys(operations)`. The model iterates `operationNames`. `EntryWellFormed` proves only that both hold the same keys. That they also come in the same order rests on `Object.keys` listing keys in insertion order, as under "Key order" above. The result of an inner `reduce` does not depend on that order, because it assigns each key once.
- **Empty span groups.** `spanStats` is only called on non-empty groups, so `SpanStatsOf` requires a non-empty list. An empty list would give `NaN` in the source.
- **Thrown errors.** A thrown TypeError is an `Err` result; the message text is not modelled.
- **Input mutation.** All values are immutable, so the model cannot state that inputs are never mutated. Every call builds fresh results.
- **Code outside this model.** The command-line wiring, the HTTP clients, the configuration reader, the examples, the tests and the span-tree, relationship and summary helpers are not part of this model.
