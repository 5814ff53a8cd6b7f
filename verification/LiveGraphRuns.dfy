/** Runs of the live runtime that leave its guarantees: overlapping calls, an apply after a shutdown, colliding keys. */
module LiveGraphRuns {
  import opened Wrappers
  import opened GraphModel
  import opened GraphDiff
  import opened EdgeIndex
  import opened LiveGraph

  // ---- an apply after a shutdown ----

  /**
   * The last graph survives a complete shutdown, so an apply brings up only what is new in or
   * recreated by the next graph. The live nodes then match that graph exactly if this is all of
   * it; in particular applying the same graph again starts nothing.
   */
  method ShutdownThenApply(rt: LiveGraphRuntime, next: GraphDef) returns (stopped: bool, r: Option<Diff>)
    requires rt.Valid() && !rt.rejected
    modifies rt
    ensures rt.Valid() && (!stopped ==> r == None)
    ensures r.Some? ==>
      var prev := old(rt.Last()); var up := ChangedIds(prev, next);
      && rt.lastGraph == Some(next) && rt.nodes.Keys == up
      && (DistinctIds(next.nodes) ==> (Matches(rt.nodes, next.nodes) <==> NodeIds(next.nodes) == up))
      && (!rt.reversalFailed ==> rt.executedEdges.Keys == WiredKeys(prev, next, up))
      && (next == prev && DistinctIds(next.nodes) ==> rt.nodes == map[])
  {
    stopped := rt.Shutdown();
    r := None;
    if stopped {
      ghost var prev := rt.Last();
      r := rt.Apply(next);
      if r.Some? {
        UpNodes(prev, next, rt.nodes);
      }
    }
  }

  lemma UpNodes(prev: GraphDef, next: GraphDef, nodes: map<string, LiveNode>)
    requires NodesApplied(prev, next, map[], nodes)
    ensures var up := ChangedIds(prev, next);
            && nodes.Keys == up
            && (DistinctIds(next.nodes) ==> (Matches(nodes, next.nodes) <==> NodeIds(next.nodes) == up))
            && (next == prev && DistinctIds(next.nodes) ==> up == {})
  {
    var up := ChangedIds(prev, next);
    assert up <= NodeIds(next.nodes);
    assert up * LeavingIds(prev, next) == {};
    if next == prev && DistinctIds(next.nodes) {
      forall n | n in next.nodes ensures !Recreated(NodeMap(prev.nodes), n) {
        DistinctLookup(prev.nodes, n);
      }
    }
  }

  // ---- a shutdown during an apply ----

  /**
   * An apply waits for the create call of an edge whose ends were live, a shutdown completes
   * meanwhile, and the edge is registered after all: the index then names nodes that are gone.
   */
  method ShutdownDuringEdge(rt: LiveGraphRuntime, e: Edge) returns (stopped: bool)
    requires rt.Valid() && e.source in rt.nodes && e.target in rt.nodes
    modifies rt
    ensures stopped ==>
      rt.nodes == map[] && EdgeKey(e) in rt.executedEdges && !rt.Core() && !Agree(rt.Wired(), rt.nodes.Keys)
  {
    var go := rt.BeginEdge(e);
    stopped := rt.Shutdown();
    if stopped && go {
      rt.FinishEdge(e);
    }
  }

  // ---- an apply with colliding keys ----

  function Plain(id: string): NodeDef {
    NodeDef(id, "t", None, None)
  }

  const BEFORE := GraphDef([Plain("a"), Plain("d")], [Edge("a", "b:c", "d", "e")])
  const AFTER := GraphDef([Plain("a:b"), Plain("d")], [Edge("a:b", "c", "d", "e")])

  lemma OneEdge(e: Edge)
    ensures EdgeMap([e]) == map[EdgeKey(e) := e] && EdgeKeys([e]) == {EdgeKey(e)}
  {
    assert [e][..0] == [];
    assert EdgeKeys([e]) == {EdgeKey(e)} by {
      assert [e][0] in [e];
    }
  }

  lemma CollidingGraphs()
    ensures WellFormedDef(BEFORE) && WellFormedDef(AFTER)
    ensures NodeIds(BEFORE.nodes) == {"a", "d"} && NodeIds(AFTER.nodes) == {"a:b", "d"}
    ensures EdgeKeys(BEFORE.edges) == EdgeKeys(AFTER.edges) != {}
    ensures RecreatedIds(EMPTY_GRAPH, BEFORE) == {} && RecreatedIds(BEFORE, AFTER) == {}
  {
    var e, f := EdgeKeysCollide();
    OneEdge(e);
    OneEdge(f);
    assert BEFORE.nodes[0].id == "a" && BEFORE.nodes[1].id == "d";
    assert AFTER.nodes[0].id == "a:b" && AFTER.nodes[1].id == "d";
    assert NodeIds(BEFORE.nodes) == {"a", "d"};
    assert NodeIds(AFTER.nodes) == {"a:b", "d"};
    NodeMapDefines(BEFORE.nodes);
    forall n | n in AFTER.nodes ensures !Recreated(NodeMap(BEFORE.nodes), n) {
    }
  }

  /**
   * Two well-formed graphs whose edges share a key: the diff sees no change of edges, taking node
   * a down reverses the first graph's edge, and the second graph's edge is never wired, although
   * both its ends are live and no node changed template.
   */
  method CollidingApply() returns (rt: LiveGraphRuntime, r: Option<Diff>)
    ensures r.Some? && !rt.reversalFailed ==>
      && rt.lastGraph == Some(AFTER) && rt.nodes.Keys == {"a:b", "d"} && rt.executedEdges == map[]
    ensures RecreatedIds(BEFORE, AFTER) == {} && EdgeKeys(AFTER.edges) != {} && WellFormedDef(AFTER)
  {
    CollidingGraphs();
    rt, r := ApplyBefore();
    if r.Some? {
      ghost var nodes, executed := rt.nodes, rt.executedEdges;
      r := rt.Apply(AFTER);
      if r.Some? && !rt.reversalFailed {
        EdgeLost(nodes, executed, rt.nodes, rt.executedEdges);
      }
    }
  }

  method ApplyBefore() returns (rt: LiveGraphRuntime, r: Option<Diff>)
    ensures fresh(rt) && rt.Valid()
    ensures r.Some? ==> rt.lastGraph == Some(BEFORE)
    ensures r.Some? ==> rt.nodes.Keys == {"a", "d"}
    ensures r.Some? && !rt.reversalFailed ==> forall k :: k in rt.executedEdges ==>
      rt.executedEdges[k] == BEFORE.edges[0]
  {
    rt := new LiveGraphRuntime();
    CollidingGraphs();
    r := rt.Apply(BEFORE);
    if r.Some? {
      assert rt.nodes.Keys == {"a", "d"};
      if !rt.reversalFailed {
        OnlyEdge(rt.executedEdges, rt.nodes.Keys);
      }
    }
  }

  lemma OnlyEdge(executed: map<string, Edge>, live: set<string>)
    requires EdgesApplied(EMPTY_GRAPH, BEFORE, map[], executed, live)
    ensures forall k :: k in executed ==> executed[k] == BEFORE.edges[0]
  {
    OneEdge(BEFORE.edges[0]);
  }

  lemma EdgeLost(nodes1: map<string, LiveNode>, executed1: map<string, Edge>, nodes2: map<string, LiveNode>,
                 executed2: map<string, Edge>)
    requires nodes1.Keys == {"a", "d"} && forall k :: k in executed1 ==> executed1[k] == BEFORE.edges[0]
    requires NodesApplied(BEFORE, AFTER, nodes1, nodes2)
    requires EdgesApplied(BEFORE, AFTER, executed1, executed2, nodes2.Keys)
    ensures nodes2.Keys == {"a:b", "d"} && executed2 == map[]
  {
    CollidingGraphs();
    assert NewIds(BEFORE, AFTER) == {"a:b"} && LeavingIds(BEFORE, AFTER) == {"a"};
    forall k | k in executed1 ensures k in TakenDown(executed1, BEFORE, AFTER) {
      assert executed1[k].source == "a";
    }
    assert WiredKeys(BEFORE, AFTER, nodes2.Keys) == {};
    assert executed2.Keys == {};
  }

  // ---- an edge that stays wired though the graph has another of its key ----

  const BOTH := [Plain("a"), Plain("a:b"), Plain("d")]
  const ONE := GraphDef(BOTH, [Edge("a", "b:c", "d", "e")])
  const OTHER := GraphDef(BOTH, [Edge("a:b", "c", "d", "e")])

  lemma SwappedGraphs()
    ensures WellFormedDef(ONE) && WellFormedDef(OTHER) && NodeIds(BOTH) == {"a", "a:b", "d"}
    ensures EdgeKeys(ONE.edges) == EdgeKeys(OTHER.edges) == EdgeMap(ONE.edges).Keys != {}
    ensures ONE.edges[0] !in OTHER.edges
    ensures EdgeMap(ONE.edges) == map[EdgeKey(ONE.edges[0]) := ONE.edges[0]]
    ensures RecreatedIds(ONE, OTHER) == {} && LeavingIds(ONE, OTHER) == {}
  {
    var e, f := EdgeKeysCollide();
    OneEdge(e);
    OneEdge(f);
    assert BOTH[0].id == "a" && BOTH[1].id == "a:b" && BOTH[2].id == "d";
    assert NodeIds(BOTH) == {"a", "a:b", "d"};
    assert |"a"| == 1 && |"a:b"| == 3;
    forall n | n in BOTH ensures !Recreated(NodeMap(BOTH), n) {
      DistinctLookup(BOTH, n);
    }
  }

  /**
   * Between two graphs of the same nodes one edge is replaced by another of the same key. The
   * executed keys are then the graph's keys, and yet the old edge is wired and the new one is not.
   */
  method CollidingSwap() returns (rt: LiveGraphRuntime, r: Option<Diff>)
    ensures r.Some? && !rt.reversalFailed ==>
      && rt.lastGraph == Some(OTHER) && rt.executedEdges.Keys == EdgeKeys(OTHER.edges)
      && rt.executedEdges == map[EdgeKey(ONE.edges[0]) := ONE.edges[0]]
    ensures ONE.edges[0] !in OTHER.edges && RecreatedIds(ONE, OTHER) == {} && WellFormedDef(OTHER)
  {
    SwappedGraphs();
    rt, r := ApplyOne();
    if r.Some? {
      ghost var executed := rt.executedEdges;
      r := rt.Apply(OTHER);
      if r.Some? && !rt.reversalFailed {
        EdgesStay(ONE, OTHER, executed, rt.executedEdges, rt.nodes.Keys);
      }
    }
  }

  method ApplyOne() returns (rt: LiveGraphRuntime, r: Option<Diff>)
    ensures fresh(rt) && rt.Valid()
    ensures r.Some? ==> rt.lastGraph == Some(ONE)
    ensures r.Some? && !rt.reversalFailed ==> rt.executedEdges == map[EdgeKey(ONE.edges[0]) := ONE.edges[0]]
  {
    rt := new LiveGraphRuntime();
    SwappedGraphs();
    r := rt.Apply(ONE);
    if r.Some? && !rt.reversalFailed {
      FirstEdge(rt.nodes, rt.executedEdges);
    }
  }

  lemma FirstEdge(nodes: map<string, LiveNode>, executed: map<string, Edge>)
    requires NodesApplied(EMPTY_GRAPH, ONE, map[], nodes) && EdgesApplied(EMPTY_GRAPH, ONE, map[], executed, nodes.Keys)
    ensures executed == map[EdgeKey(ONE.edges[0]) := ONE.edges[0]]
  {
    SwappedGraphs();
    assert ONE.edges[0] in ONE.edges;
    assert nodes.Keys == {"a", "a:b", "d"};
    assert WiredKeys(EMPTY_GRAPH, ONE, nodes.Keys) == {EdgeKey(ONE.edges[0])};
  }

  /** Between graphs of the same nodes, templates and edge keys an apply leaves the edges as they are. */
  lemma EdgesStay(prev: GraphDef, next: GraphDef, before: map<string, Edge>, after: map<string, Edge>,
                  live: set<string>)
    requires EdgeKeys(prev.edges) == EdgeKeys(next.edges) && EdgesApplied(prev, next, before, after, live)
    requires RecreatedIds(prev, next) == {} && LeavingIds(prev, next) == {}
    ensures after == before
  {
    assert Touching(before, {}) == {};
    assert TakenDown(before, prev, next) == {} && WiredKeys(prev, next, live) == {};
  }
}
