/** The stand-alone service-diagram diff module: an older copy of the diagram
    half of the snapshot utilities. Its `intersection`, `difference` and
    `criticalPathDiff` are the same code as there and are shared with
    SnapshotDiagram; its exported function builds the five fields itself. */
module ServiceDiagramDiff {
  import opened JsCore
  import opened SnapshotDiagram

  /** The exported function: the four list differences of the node and edge
      keys and the latency table of `criticalPathDiff`, whose TypeError
      propagates. It yields exactly what `diagramDiff` yields. */
  method ExportedDiff(beforeDiagram: ServiceDiagram, afterDiagram: ServiceDiagram)
    returns (r: Result<DiagramDiff, DiagramError>)
    ensures r == Diff(beforeDiagram, afterDiagram)
  {
    var beforeNodes := beforeDiagram.nodes;
    var afterNodes := afterDiagram.nodes;
    var beforeEdges := beforeDiagram.edges;
    var afterEdges := afterDiagram.edges;
    var addedServices := Difference(beforeNodes, afterNodes);
    var deletedServices := Difference(afterNodes, beforeNodes);
    var addedConnections := Difference(beforeEdges, afterEdges);
    var deletedConnections := Difference(afterEdges, beforeEdges);
    var latency := CriticalPathDiff(beforeDiagram, afterDiagram);
    if latency.Err? {
      return Err(latency.error);
    }
    r := Ok(DiagramDiff(addedServices, deletedServices, addedConnections, deletedConnections, latency.value));
  }

  /** The exported function's lists: added services lie in the after nodes
      and share nothing with the before nodes, deleted services the reverse,
      and the same for connections on edge keys. */
  lemma ExportedListsDisjoint(beforeDiagram: ServiceDiagram, afterDiagram: ServiceDiagram)
    requires Diff(beforeDiagram, afterDiagram).Ok?
    ensures var d := Diff(beforeDiagram, afterDiagram).value;
      && (forall x :: x in d.addedServices ==> x in afterDiagram.nodes)
      && (forall x :: x in d.addedServices ==> x !in beforeDiagram.nodes)
      && (forall x :: x in d.deletedServices ==> x in beforeDiagram.nodes)
      && (forall x :: x in d.deletedServices ==> x !in afterDiagram.nodes)
      && (forall x :: x in d.addedConnections ==> x in afterDiagram.edges)
      && (forall x :: x in d.addedConnections ==> x !in beforeDiagram.edges)
      && (forall x :: x in d.deletedConnections ==> x in beforeDiagram.edges)
      && (forall x :: x in d.deletedConnections ==> x !in afterDiagram.edges)
      && (forall x :: x in d.addedServices ==> x !in d.deletedServices)
  {
  }

  /** The latency table of the exported function only names nodes common to
      both diagrams whose two latencies are numeric, with the after latency
      minus the before latency. */
  lemma ExportedLatency(beforeDiagram: ServiceDiagram, afterDiagram: ServiceDiagram)
    requires Diff(beforeDiagram, afterDiagram).Ok?
    ensures var latency := Diff(beforeDiagram, afterDiagram).value.latency;
      forall n :: n in latency ==>
        && n in beforeDiagram.nodes && n in afterDiagram.nodes
        && BothNumeric(beforeDiagram, afterDiagram, n)
        && latency[n].diff == afterDiagram.overlays[n].value - beforeDiagram.overlays[n].value
  {
    DiffLatency(beforeDiagram, afterDiagram);
    CriticalPathContents(beforeDiagram, afterDiagram);
  }
}
