/** The service-diagram half of the snapshot utilities: node and edge lists
    of a service-diagram response, the order-preserving list differences
    between two of them, and the per-node change of critical-path latency. */
module SnapshotDiagram {
  import opened JsCore

  /** A service-diagram response. `nodes` and `edges` are the keys of the
      diagram's node and edge objects, in the order `Object.keys` lists them.
      `overlays` maps each node that has an overlay entry to its average
      critical-path latency in microseconds, or to None when that value is
      one `isNaN` rejects (absent or not a number). An absent overlay object
      behaves as an empty map. */
  datatype ServiceDiagram = ServiceDiagram(
    nodes: seq<string>,
    edges: seq<string>,
    overlays: map<string, Option<real>>)

  /** What `diagramStats` returns. */
  datatype DiagramStats = DiagramStats(nodes: seq<string>, edges: seq<string>)

  /** Change of one node's critical-path latency: `diff` is after minus
      before, `pct` is that change in percent of the before value (the
      number that the source then formats with two decimals). */
  datatype LatencyDelta = LatencyDelta(diff: real, pct: Num)

  /** Reading the latency of a node without an overlay entry raises a
      TypeError in the source. */
  datatype DiagramError = MissingOverlay(node: string)

  datatype DiagramDiff = DiagramDiff(
    addedServices: seq<string>,
    deletedServices: seq<string>,
    addedConnections: seq<string>,
    deletedConnections: seq<string>,
    latency: map<string, LatencyDelta>)

  /** The filter callback `d => d1.includes(d)`. */
  function In(d1: seq<string>): string -> bool
  {
    (d: string) => d in d1
  }

  /** The filter callback `d => !d1.includes(d)`. */
  function NotIn(d1: seq<string>): string -> bool
  {
    (d: string) => d !in d1
  }

  /** `intersection(d1, d2)`: the elements of `d2` that occur in `d1`. */
  function Intersection(d1: seq<string>, d2: seq<string>): (r: seq<string>)
    ensures forall x :: x in r <==> x in d2 && x in d1
  {
    Filter(d2, In(d1))
  }

  /** `difference(d1, d2)`: the elements of `d2` that do not occur in `d1`. */
  function Difference(d1: seq<string>, d2: seq<string>): (r: seq<string>)
    ensures forall x :: x in r <==> x in d2 && x !in d1
  {
    Filter(d2, NotIn(d1))
  }

  /** Both lists keep the order of `d2`. */
  lemma SelectionsInOrder(d1: seq<string>, d2: seq<string>)
    ensures IsSubseq(Intersection(d1, d2), d2) && IsSubseq(Difference(d1, d2), d2)
  {
    FilterOrder(d2, In(d1));
    FilterOrder(d2, NotIn(d1));
  }

  /** `intersection` keeps every occurrence in `d2` of an element of `d1`
      and `difference` every occurrence of any other element, so together
      they split `d2`. */
  lemma SelectionsSplit(d1: seq<string>, d2: seq<string>)
    ensures forall x :: multiset(Intersection(d1, d2))[x] == if x in d1 then multiset(d2)[x] else 0
    ensures forall x :: multiset(Difference(d1, d2))[x] == if x in d1 then 0 else multiset(d2)[x]
    ensures multiset(Intersection(d1, d2)) + multiset(Difference(d1, d2)) == multiset(d2)
  {
    FilterCounts(d2, In(d1));
    FilterCounts(d2, NotIn(d1));
    var both := multiset(Intersection(d1, d2)) + multiset(Difference(d1, d2));
    forall x
      ensures both[x] == multiset(d2)[x]
    {
      assert In(d1)(x) == (x in d1);
    }
  }

  function Stats(diagram: ServiceDiagram): DiagramStats
  {
    DiagramStats(diagram.nodes, diagram.edges)
  }

  /** Node `n` has an overlay entry in both diagrams. */
  predicate HasOverlays(before: ServiceDiagram, after: ServiceDiagram, n: string)
  {
    n in before.overlays && n in after.overlays
  }

  /** Node `n` has a numeric critical-path latency in both diagrams. */
  predicate BothNumeric(before: ServiceDiagram, after: ServiceDiagram, n: string)
  {
    HasOverlays(before, after, n) && before.overlays[n].Some? && after.overlays[n].Some?
  }

  /** The body of the source's loop for node `n`, applied to the table built so far. */
  function LatencyStep(before: ServiceDiagram, after: ServiceDiagram, n: string,
                       table: map<string, LatencyDelta>): Result<map<string, LatencyDelta>, DiagramError>
  {
    if !HasOverlays(before, after, n) then Err(MissingOverlay(n))
    else if BothNumeric(before, after, n) then
      var diff := after.overlays[n].value - before.overlays[n].value;
      Ok(table[n := LatencyDelta(diff, Div(diff * 100.0, before.overlays[n].value))])
    else Ok(table)
  }

  /** The loop of `criticalPathDiff` run over `nodes`: the table it builds, or
      the error raised at the first node without an overlay. */
  function LatencyTable(before: ServiceDiagram, after: ServiceDiagram, nodes: seq<string>)
    : Result<map<string, LatencyDelta>, DiagramError>
    decreases |nodes|
  {
    if nodes == [] then Ok(map[])
    else
      match LatencyTable(before, after, nodes[..|nodes| - 1])
      case Err(e) => Err(e)
      case Ok(table) => LatencyStep(before, after, nodes[|nodes| - 1], table)
  }

  /** What `criticalPathDiff` computes: the loop over the nodes common to both diagrams. */
  function CriticalPathDeltas(before: ServiceDiagram, after: ServiceDiagram)
    : Result<map<string, LatencyDelta>, DiagramError>
  {
    LatencyTable(before, after, Intersection(before.nodes, after.nodes))
  }

  /** `criticalPathDiff` */
  method CriticalPathDiff(before: ServiceDiagram, after: ServiceDiagram)
    returns (r: Result<map<string, LatencyDelta>, DiagramError>)
    ensures r == CriticalPathDeltas(before, after)
  {
    var comparisonNodes := Intersection(before.nodes, after.nodes);
    var table: map<string, LatencyDelta> := map[];
    for i := 0 to |comparisonNodes|
      invariant LatencyTable(before, after, comparisonNodes[..i]) == Ok(table)
    {
      var n := comparisonNodes[i];
      assert comparisonNodes[..i + 1][..i] == comparisonNodes[..i];
      assert LatencyTable(before, after, comparisonNodes[..i + 1]) == LatencyStep(before, after, n, table);
      if n !in before.overlays || n !in after.overlays {
        LatencyTableKeepsError(before, after, comparisonNodes, i + 1);
        return Err(MissingOverlay(n));
      }
      var latencyBefore := before.overlays[n];
      var latencyAfter := after.overlays[n];
      if latencyBefore.Some? && latencyAfter.Some? {
        var diff := latencyAfter.value - latencyBefore.value;
        table := table[n := LatencyDelta(diff, Div(diff * 100.0, latencyBefore.value))];
      }
    }
    assert comparisonNodes[..|comparisonNodes|] == comparisonNodes;
    r := Ok(table);
  }

  /** Once the loop has raised an error, running it over more nodes raises the same error. */
  lemma {:induction false} LatencyTableKeepsError(before: ServiceDiagram, after: ServiceDiagram,
                                                  nodes: seq<string>, k: nat)
    requires k <= |nodes|
    requires LatencyTable(before, after, nodes[..k]).Err?
    ensures LatencyTable(before, after, nodes) == LatencyTable(before, after, nodes[..k])
    decreases |nodes| - k
  {
    if k < |nodes| {
      var longer := nodes[..k + 1];
      assert longer[..|longer| - 1] == nodes[..k];
      LatencyTableKeepsError(before, after, nodes, k + 1);
    } else {
      assert nodes[..k] == nodes;
    }
  }

  /** The loop over `nodes` completes exactly when every node has an overlay
      entry in both diagrams. */
  lemma {:induction false} LatencyTableOk(before: ServiceDiagram, after: ServiceDiagram, nodes: seq<string>)
    ensures LatencyTable(before, after, nodes).Ok? <==> forall n :: n in nodes ==> HasOverlays(before, after, n)
    decreases |nodes|
  {
    if nodes != [] {
      var init := nodes[..|nodes| - 1];
      var last := nodes[|nodes| - 1];
      LatencyTableOk(before, after, init);
      assert nodes == init + [last];
      assert LatencyTable(before, after, nodes).Ok? <==>
        LatencyTable(before, after, init).Ok? && HasOverlays(before, after, last);
      assert (forall n :: n in nodes ==> HasOverlays(before, after, n)) <==>
        (forall n :: n in init ==> HasOverlays(before, after, n)) && HasOverlays(before, after, last);
    }
  }

  /** The completed table holds exactly the nodes whose two latencies are
      numeric, each with the after latency minus the before latency and that
      change in percent of the before latency. */
  lemma {:induction false} LatencyTableContents(before: ServiceDiagram, after: ServiceDiagram, nodes: seq<string>)
    requires LatencyTable(before, after, nodes).Ok?
    ensures var table := LatencyTable(before, after, nodes).value;
      && table.Keys == set n | n in nodes && BothNumeric(before, after, n)
      && forall n :: n in table ==>
           BothNumeric(before, after, n)
           && table[n].diff == after.overlays[n].value - before.overlays[n].value
           && table[n].pct == Div(table[n].diff * 100.0, before.overlays[n].value)
    decreases |nodes|
  {
    if nodes != [] {
      var init := nodes[..|nodes| - 1];
      var last := nodes[|nodes| - 1];
      LatencyTableContents(before, after, init);
      assert nodes == init + [last];
      var table := LatencyTable(before, after, nodes).value;
      var prior := LatencyTable(before, after, init).value;
      if BothNumeric(before, after, last) {
        assert table.Keys == prior.Keys + {last};
      } else {
        assert table == prior;
      }
    }
  }

  /** A failed loop names the first node of `nodes` that lacks an overlay entry. */
  lemma {:induction false} LatencyTableFirstError(before: ServiceDiagram, after: ServiceDiagram, nodes: seq<string>)
    requires LatencyTable(before, after, nodes).Err?
    ensures var n := LatencyTable(before, after, nodes).error.node;
      exists i :: 0 <= i < |nodes| && nodes[i] == n && !HasOverlays(before, after, n)
        && forall j :: 0 <= j < i ==> HasOverlays(before, after, nodes[j])
    decreases |nodes|
  {
    var init := nodes[..|nodes| - 1];
    var last := nodes[|nodes| - 1];
    assert nodes == init + [last];
    if LatencyTable(before, after, init).Err? {
      LatencyTableFirstError(before, after, init);
      var n := LatencyTable(before, after, init).error.node;
      var i :| 0 <= i < |init| && init[i] == n && !HasOverlays(before, after, n)
        && forall j :: 0 <= j < i ==> HasOverlays(before, after, init[j]);
      assert nodes[i] == init[i];
    } else {
      LatencyTableOk(before, after, init);
      assert forall j :: 0 <= j < |nodes| - 1 ==> nodes[j] in init;
    }
  }

  /** `diagramDiff`: services and connections added and deleted between two
      diagrams, and the critical-path latency change of the common nodes.
      Added services are exactly the after-nodes that are not before-nodes,
      deleted services the reverse, and the same for connections on edge
      keys; it fails exactly when `criticalPathDiff` does. */
  function Diff(beforeDiagram: ServiceDiagram, afterDiagram: ServiceDiagram): (r: Result<DiagramDiff, DiagramError>)
    ensures r.Ok? <==> CriticalPathDeltas(beforeDiagram, afterDiagram).Ok?
    ensures r.Ok? ==>
      && (forall x :: x in r.value.addedServices <==> x in afterDiagram.nodes && x !in beforeDiagram.nodes)
      && (forall x :: x in r.value.deletedServices <==> x in beforeDiagram.nodes && x !in afterDiagram.nodes)
      && (forall x :: x in r.value.addedConnections <==> x in afterDiagram.edges && x !in beforeDiagram.edges)
      && (forall x :: x in r.value.deletedConnections <==> x in beforeDiagram.edges && x !in afterDiagram.edges)
  {
    var before := Stats(beforeDiagram);
    var after := Stats(afterDiagram);
    match CriticalPathDeltas(beforeDiagram, afterDiagram)
    case Err(e) => Err(e)
    case Ok(latency) =>
      Ok(DiagramDiff(
        Difference(before.nodes, after.nodes),
        Difference(after.nodes, before.nodes),
        Difference(before.edges, after.edges),
        Difference(after.edges, before.edges),
        latency))
  }

  /** `diagramStats` lists the node and edge keys in diagram order, and
      each of the four lists of `diagramDiff` keeps the order of the diagram
      it is drawn from. */
  lemma DiffLists(before: ServiceDiagram, after: ServiceDiagram)
    requires Diff(before, after).Ok?
    ensures var d := Diff(before, after).value;
      && IsSubseq(d.addedServices, after.nodes) && IsSubseq(d.deletedServices, before.nodes)
      && IsSubseq(d.addedConnections, after.edges) && IsSubseq(d.deletedConnections, before.edges)
  {
    var d := Diff(before, after).value;
    assert d.addedServices == Difference(before.nodes, after.nodes);
    assert d.deletedServices == Difference(after.nodes, before.nodes);
    assert d.addedConnections == Difference(before.edges, after.edges);
    assert d.deletedConnections == Difference(after.edges, before.edges);
    SelectionsInOrder(before.nodes, after.nodes);
    SelectionsInOrder(after.nodes, before.nodes);
    SelectionsInOrder(before.edges, after.edges);
    SelectionsInOrder(after.edges, before.edges);
  }

  /** `criticalPathDiff` completes exactly when every node common to both
      diagrams has an overlay entry in each. */
  lemma CriticalPathOk(before: ServiceDiagram, after: ServiceDiagram)
    ensures CriticalPathDeltas(before, after).Ok? <==>
      forall n :: n in before.nodes && n in after.nodes ==> HasOverlays(before, after, n)
  {
    var common := Intersection(before.nodes, after.nodes);
    LatencyTableOk(before, after, common);
    assert (forall n :: n in common ==> HasOverlays(before, after, n)) <==>
      (forall n :: n in before.nodes && n in after.nodes ==> HasOverlays(before, after, n));
  }

  /** The table of `criticalPathDiff` covers exactly the nodes common to both
      diagrams whose two latencies are numeric, each with the after latency
      minus the before latency. */
  lemma CriticalPathContents(before: ServiceDiagram, after: ServiceDiagram)
    requires CriticalPathDeltas(before, after).Ok?
    ensures var latency := CriticalPathDeltas(before, after).value;
      && latency.Keys == set n | n in before.nodes && n in after.nodes && BothNumeric(before, after, n)
      && forall n :: n in latency ==>
           BothNumeric(before, after, n) && latency[n].diff == after.overlays[n].value - before.overlays[n].value
  {
    var common := Intersection(before.nodes, after.nodes);
    LatencyTableContents(before, after, common);
    NumericCommonNodes(before, after, common);
  }

  lemma NumericCommonNodes(before: ServiceDiagram, after: ServiceDiagram, common: seq<string>)
    requires forall n :: n in common <==> n in before.nodes && n in after.nodes
    ensures (set n | n in common && BothNumeric(before, after, n))
         == (set n | n in before.nodes && n in after.nodes && BothNumeric(before, after, n))
  {
  }

  /** When `criticalPathDiff` fails, the node it names is common to both
      diagrams and lacks an overlay entry in one of them. */
  lemma CriticalPathMissing(before: ServiceDiagram, after: ServiceDiagram)
    requires CriticalPathDeltas(before, after).Err?
    ensures var n := CriticalPathDeltas(before, after).error.node;
      n in before.nodes && n in after.nodes && !HasOverlays(before, after, n)
  {
    var common := Intersection(before.nodes, after.nodes);
    var n := CriticalPathDeltas(before, after).error.node;
    LatencyTableFirstError(before, after, common);
    var i :| 0 <= i < |common| && common[i] == n && !HasOverlays(before, after, n);
    assert common[i] in common;
  }

  /** `diagramDiff` fails exactly when `criticalPathDiff` does, and otherwise
      carries its table as `latency`. */
  lemma DiffLatency(before: ServiceDiagram, after: ServiceDiagram)
    ensures Diff(before, after).Ok? <==> CriticalPathDeltas(before, after).Ok?
    ensures Diff(before, after).Ok? ==> Diff(before, after).value.latency == CriticalPathDeltas(before, after).value
    ensures Diff(before, after).Err? ==> Diff(before, after).error == CriticalPathDeltas(before, after).error
  {
  }

  /** Swapping the two diagrams swaps added with deleted services and
      connections, keeps the latency table's nodes, negates each latency
      change, and fails exactly when the original call fails. */
  lemma DiffSwap(before: ServiceDiagram, after: ServiceDiagram)
    ensures Diff(before, after).Ok? <==> Diff(after, before).Ok?
    ensures Diff(before, after).Ok? ==>
      var d := Diff(before, after).value;
      var s := Diff(after, before).value;
      && d.addedServices == s.deletedServices && d.deletedServices == s.addedServices
      && d.addedConnections == s.deletedConnections && d.deletedConnections == s.addedConnections
      && d.latency.Keys == s.latency.Keys
      && forall n :: n in d.latency ==> d.latency[n].diff == -s.latency[n].diff
  {
    DiffLatency(before, after);
    DiffLatency(after, before);
    CriticalPathOk(before, after);
    CriticalPathOk(after, before);
    if Diff(before, after).Ok? {
      CriticalPathContents(before, after);
      CriticalPathContents(after, before);
      var d := Diff(before, after).value;
      var s := Diff(after, before).value;
      forall n ensures n in d.latency <==> n in s.latency {
        assert BothNumeric(before, after, n) <==> BothNumeric(after, before, n);
      }
    }
  }

  /** A change that retires service a and introduces service c, while b has a
      numeric latency only in the after diagram. */
  lemma ExampleServiceChurn()
    ensures
      var before := ServiceDiagram(["a", "b"], [], map["b" := None]);
      var after := ServiceDiagram(["b", "c"], [], map["b" := Some(10.0)]);
      Diff(before, after) == Ok(DiagramDiff(["c"], ["a"], [], [], map[]))
  {
    var before := ServiceDiagram(["a", "b"], [], map["b" := None]);
    var after := ServiceDiagram(["b", "c"], [], map["b" := Some(10.0)]);
    assert ["a", "b"][1..] == ["b"] && ["b", "c"][1..] == ["c"];
    assert ["b"][1..] == [] && ["c"][1..] == [];
    assert Intersection(before.nodes, after.nodes) == ["b"];
    assert Difference(before.nodes, after.nodes) == ["c"];
    assert Difference(after.nodes, before.nodes) == ["a"];
    assert ["b"][..0] == [];
    assert CriticalPathDeltas(before, after) == Ok(map[]);
  }

  /** The same change when the before diagram has no overlay for b: the
      latency of b cannot be read and the whole diff fails. */
  lemma ExampleMissingOverlay()
    ensures
      var before := ServiceDiagram(["a", "b"], [], map[]);
      var after := ServiceDiagram(["b", "c"], [], map["b" := Some(10.0)]);
      Diff(before, after) == Err(MissingOverlay("b"))
  {
    var before := ServiceDiagram(["a", "b"], [], map[]);
    var after := ServiceDiagram(["b", "c"], [], map["b" := Some(10.0)]);
    assert ["b", "c"][1..] == ["c"] && ["c"][1..] == [];
    assert Intersection(before.nodes, after.nodes) == ["b"];
    assert ["b"][..0] == [];
    assert CriticalPathDeltas(before, after) == Err(MissingOverlay("b"));
  }
}
