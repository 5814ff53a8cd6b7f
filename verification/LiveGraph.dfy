/**
 * The live runtime: it brings running node instances and wired edges in line with a graph
 * definition by applying the difference to the last one. Calls into node classes (create,
 * setConfig, edge create and reversal, provision, deprovision) succeed or fail arbitrarily.
 */
module LiveGraph {
  import opened Wrappers
  import opened GraphModel
  import opened GraphDiff
  import opened EdgeIndex

  datatype LiveNode = LiveNode(id: string, template: string, instance: nat, config: Option<Payload>)

  function IdSet(ids: seq<string>): set<string> {
    set id | id in ids
  }

  /** The live nodes are those of the definition, with its templates. */
  ghost predicate Matches(nodes: map<string, LiveNode>, defs: seq<NodeDef>) {
    && nodes.Keys == NodeIds(defs)
    && forall n :: n in defs ==> nodes[n.id].template == n.template
  }

  /** No two different definitions of one id. */
  ghost predicate Functional(defs: seq<NodeDef>) {
    forall n, m :: n in defs && m in defs && n.id == m.id ==> n == m
  }

  // ---- what each phase of an apply does to the live nodes ----

  ghost predicate NodesAdded(was: map<string, LiveNode>, becomes: map<string, LiveNode>, defs: seq<NodeDef>) {
    && becomes.Keys == was.Keys + NodeIds(defs)
    && (Functional(defs) ==> forall n :: n in defs ==> becomes[n.id].template == n.template)
    && forall id :: id in was && id !in NodeIds(defs) ==> becomes[id] == was[id]
  }

  /** Recreated nodes get instances numbered from `first` on. */
  ghost predicate NodesRecreated(was: map<string, LiveNode>, becomes: map<string, LiveNode>, ids: set<string>,
                                 defs: seq<NodeDef>, first: nat) {
    && becomes.Keys == was.Keys + ids
    && (Functional(defs) ==> forall n :: n in defs && n.id in ids ==> becomes[n.id].template == n.template)
    && (forall id :: id in ids ==> becomes[id].instance >= first)
    && forall id :: id in was && id !in ids ==> becomes[id] == was[id]
  }

  /** The same followed by config updates. */
  ghost predicate NodesReworked(was: map<string, LiveNode>, becomes: map<string, LiveNode>, ids: set<string>,
                                defs: seq<NodeDef>, first: nat) {
    && becomes.Keys == was.Keys + ids
    && (Functional(defs) ==> forall n :: n in defs && n.id in ids ==> becomes[n.id].template == n.template)
    && (forall id :: id in ids ==> becomes[id].instance >= first)
    && forall id :: id in was && id !in ids ==> becomes[id] == was[id].(config := becomes[id].config)
  }

  ghost predicate NodesConfigured(was: map<string, LiveNode>, becomes: map<string, LiveNode>, ids: seq<string>) {
    && becomes.Keys == was.Keys
    && (forall id :: id in becomes ==> becomes[id] == was[id].(config := becomes[id].config))
    && forall id :: id in becomes && id !in ids ==> becomes[id] == was[id]
  }

  /** Nodes that stay keep their instance unless they are recreated. */
  ghost predicate InstancesKept(was: map<string, LiveNode>, becomes: map<string, LiveNode>, recreated: set<string>) {
    forall id :: id in becomes && id in was ==> (becomes[id].instance == was[id].instance <==> id !in recreated)
  }

  ghost function RecreatedIds(prev: GraphDef, next: GraphDef): set<string> {
    set n | n in next.nodes && Recreated(NodeMap(prev.nodes), n) :: n.id
  }

  ghost predicate AnyRecreated(prev: GraphDef, next: GraphDef) {
    RecreatedIds(prev, next) != {}
  }

  function NewIds(prev: GraphDef, next: GraphDef): set<string> {
    NodeIds(next.nodes) - NodeIds(prev.nodes)
  }

  function LeavingIds(prev: GraphDef, next: GraphDef): set<string> {
    NodeIds(prev.nodes) - NodeIds(next.nodes)
  }

  /** The ids that an apply brings up. */
  ghost function ChangedIds(prev: GraphDef, next: GraphDef): set<string> {
    NewIds(prev, next) + RecreatedIds(prev, next)
  }

  // ---- what a successful apply does, from whatever state ----

  /** New and recreated nodes come up, leaving ones go; nothing else comes, goes or is exchanged. */
  ghost predicate NodesApplied(prev: GraphDef, next: GraphDef, was: map<string, LiveNode>,
                               becomes: map<string, LiveNode>) {
    && becomes.Keys == was.Keys + ChangedIds(prev, next) - LeavingIds(prev, next)
    && (DistinctIds(next.nodes) ==>
          forall n :: n in next.nodes && n.id in ChangedIds(prev, next) ==>
            n.id in becomes && becomes[n.id].template == n.template)
    && (forall id :: id in becomes && id in was && id !in ChangedIds(prev, next) ==>
          becomes[id].template == was[id].template && becomes[id].instance == was[id].instance)
    && forall id :: id in becomes && id in was && id in RecreatedIds(prev, next) ==>
      becomes[id].instance != was[id].instance
  }

  /** The keys of edges that an apply takes down: removed ones, and those of recreated and leaving nodes. */
  ghost function TakenDown(executed: map<string, Edge>, prev: GraphDef, next: GraphDef): set<string> {
    Touching(executed, RecreatedIds(prev, next)) + (EdgeKeys(prev.edges) - EdgeKeys(next.edges))
    + Touching(executed, LeavingIds(prev, next))
  }

  /** The new keys whose edge has both ends among the given nodes. */
  ghost function WiredKeys(prev: GraphDef, next: GraphDef, live: set<string>): set<string> {
    set k | k in EdgeKeys(next.edges) - EdgeKeys(prev.edges) && k in EdgeMap(next.edges)
            && EdgeMap(next.edges)[k].source in live && EdgeMap(next.edges)[k].target in live
  }

  /** Without failing reversals, the executed keys are the old ones not taken down and the new ones wired. */
  ghost predicate EdgesApplied(prev: GraphDef, next: GraphDef, was: map<string, Edge>, becomes: map<string, Edge>,
                               live: set<string>) {
    && becomes.Keys == was.Keys - TakenDown(was, prev, next) + WiredKeys(prev, next, live)
    && forall k :: k in becomes ==>
         if k in WiredKeys(prev, next, live) then becomes[k] == EdgeMap(next.edges)[k]
         else k in was && becomes[k] == was[k]
  }

  /**
   * An executed edge whose key is in the next graph, and which no recreation takes down, is an edge
   * of that graph, and not another edge of the same key.
   */
  ghost predicate KeptEdgesStay(executed: map<string, Edge>, prev: GraphDef, next: GraphDef) {
    forall k :: k in executed && k in EdgeKeys(next.edges) && k !in Touching(executed, RecreatedIds(prev, next)) ==>
      executed[k] in next.edges
  }

  /** The executed edges are edges of the next graph, under the keys an apply should leave. */
  ghost predicate FollowsGraph(prev: GraphDef, next: GraphDef, first: map<string, Edge>, after: map<string, Edge>) {
    after.Values <= EdgeSet(next.edges) && after.Keys == ExecutedAfter(first, prev, next)
  }

  /** What an apply needs to leave the edges of the next graph executed. */
  ghost predicate Untroubled(executed: map<string, Edge>, prev: GraphDef, next: GraphDef) {
    WellFormedDef(next) && KeptEdgesStay(executed, prev, next)
  }

  function EdgeSet(edges: seq<Edge>): set<Edge> {
    set e | e in edges
  }

  /** The edges a successful apply leaves executed: the new ones, and the old ones no recreation has dropped. */
  ghost function ExecutedAfter(executed: map<string, Edge>, prev: GraphDef, next: GraphDef): set<string> {
    set k | k in EdgeKeys(next.edges)
            && (k in EdgeKeys(prev.edges) ==> k in executed && k !in Touching(executed, RecreatedIds(prev, next)))
  }

  // ---- what every step of the runtime keeps ----

  /** Index entries can be wrong only after a failed reversal, and then only if keys were mixed. */
  ghost predicate Sound(w: Wiring, nodes: map<string, LiveNode>, nextInstance: nat, failed: bool, mixed: bool,
                        disturbed: bool) {
    && Filed(w, nodes.Keys)
    && (!mixed ==> Names(w))
    && (!failed ==> Complete(w))
    && (mixed ==> failed) && (failed ==> disturbed)
    && forall id :: id in nodes ==> nodes[id].id == id && nodes[id].instance < nextInstance
  }

  lemma RegisterSound(w: Wiring, e: Edge, nodes: map<string, LiveNode>, nextInstance: nat, failed: bool, mixed: bool,
                      disturbed: bool)
    ensures
      && Sound(w, nodes, nextInstance, failed, mixed, disturbed) && (mixed || KeyFits(w.executed, e))
      && e.source in nodes && e.target in nodes
      ==> Sound(Register(w, EdgeKey(e), e), nodes, nextInstance, failed, mixed, disturbed)
    ensures
      Filed(w, nodes.Keys) && (e.source !in nodes || e.target !in nodes) ==>
        !Filed(Register(w, EdgeKey(e), e), nodes.Keys)
  {
    RegisterFits(w, e, nodes.Keys);
  }

  class LiveGraphRuntime {
    var nodes: map<string, LiveNode>
    var executedEdges: map<string, Edge>
    var inboundEdges: Index
    var outboundEdges: Index
    var version: nat
    var lastGraph: Option<GraphDef>
    var nodeStatusHandlers: set<string>
    var rejected: bool  // the chain of applies has ended in a rejected promise

    var nextInstance: nat

    // History of the run so far.
    ghost var reversalFailed: bool
    ghost var nodesDisturbed: bool  // shutdown was called, or a graph repeating a node id was applied
    ghost var disturbed: bool  // or a reversal failed, or a graph had dangling edges or kept an edge it does not have
    ghost var mixed: bool  // an edge was registered over an executed one of the same key and other ends
    ghost var recreatedAny: bool
    ghost var attached: set<string>  // edges created and not yet reversed
    ghost var attachedTwice: bool  // an edge was created again while attached
    ghost var provisioned: set<nat>  // instances whose last lifecycle call was a successful provision

    constructor ()
      ensures Valid() && nodes == map[] && version == 0 && lastGraph.None? && !rejected
      ensures !disturbed && !nodesDisturbed && !reversalFailed && !mixed
    {
      nodes, executedEdges, inboundEdges, outboundEdges := map[], map[], map[], map[];
      version, lastGraph, nodeStatusHandlers, rejected, nextInstance := 0, None, {}, false, 0;
      reversalFailed, nodesDisturbed, disturbed, mixed, recreatedAny := false, false, false, false, false;
      attached, attachedTwice, provisioned := {}, false, {};
    }

    // ---- invariants ----

    function Wired(): Wiring
      reads `executedEdges, `inboundEdges, `outboundEdges
    {
      Wiring(executedEdges, inboundEdges, outboundEdges)
    }

    ghost predicate Core()
      reads `nodes, `executedEdges, `inboundEdges, `outboundEdges, `reversalFailed, `disturbed, `mixed, `nextInstance
    {
      Sound(Wired(), nodes, nextInstance, reversalFailed, mixed, disturbed)
    }

    /** Every executed edge has been created once and not reversed, and no other edge is attached. */
    ghost predicate Balanced()
      reads `executedEdges, `attached, `attachedTwice
    {
      attached == executedEdges.Keys && !attachedTwice
    }

    /** How the history may have moved while edges were reversed, from its values before. */
    ghost predicate Since(failedBefore: bool, disturbedBefore: bool, balancedBefore: bool)
      reads `executedEdges, `attached, `attachedTwice, `reversalFailed, `disturbed
    {
      && (failedBefore ==> reversalFailed)
      && disturbed == (disturbedBefore || reversalFailed)
      && (balancedBefore && !reversalFailed ==> Balanced())
    }

    function Last(): GraphDef
      reads `lastGraph
    {
      lastGraph.GetOr(EMPTY_GRAPH)
    }

    /** The live nodes are those of the last graph. */
    ghost predicate NodesConverged()
      reads `nodes, `lastGraph
    {
      DistinctIds(Last().nodes) && Matches(nodes, Last().nodes)
    }

    /** The executed edges are edges of the last graph, all of them if no node was ever recreated. */
    ghost predicate EdgesConverged()
      reads `lastGraph, `executedEdges, `recreatedAny, `attached, `attachedTwice
    {
      && WellFormedDef(Last())
      && executedEdges.Values <= EdgeSet(Last().edges)
      && (!recreatedAny ==> executedEdges.Keys == EdgeKeys(Last().edges))
      && Balanced()
    }

    ghost predicate Valid()
      reads this
    {
      && Core()
      && (nodesDisturbed ==> disturbed)
      && (!reversalFailed && !rejected ==> executedEdges.Keys <= EdgeKeys(Last().edges))
      && (!nodesDisturbed && !rejected ==> NodesConverged())
      && (!disturbed && !rejected ==> EdgesConverged())
    }

    // ---- edge records ----

    /** Whether both ends are live, or the key is taken, is not looked at here. */
    method RegisterEdgeRecord(e: Edge)
      modifies `executedEdges, `inboundEdges, `outboundEdges
      ensures Wired() == Register(old(Wired()), EdgeKey(e), e)
      ensures old(Core() && (mixed || KeyFits(executedEdges, e))) && e.source in nodes && e.target in nodes ==> Core()
      ensures old(Core()) && (e.source !in nodes || e.target !in nodes) ==> !Filed(Wired(), nodes.Keys)
    {
      RegisterSound(Wired(), e, nodes, nextInstance, reversalFailed, mixed, disturbed);
      var key := EdgeKey(e);
      var outbound := if e.source in outboundEdges then outboundEdges else outboundEdges[e.source := {}];
      var inbound := if e.target in inboundEdges then inboundEdges else inboundEdges[e.target := {}];
      outbound := outbound[e.source := outbound[e.source] + {key}];
      inbound := inbound[e.target := inbound[e.target] + {key}];
      assert Wiring(executedEdges[key := e], inbound, outbound) == Register(Wired(), key, e);
      executedEdges, inboundEdges, outboundEdges := executedEdges[key := e], inbound, outbound;
    }

    method UnregisterEdgeRecord(key: string)
      requires Core() && key in executedEdges
      modifies `executedEdges, `inboundEdges, `outboundEdges
      ensures Core() && Wired() == Unregister(old(Wired()), key)
    {
      UnregisterKeeps(Wired(), key, nodes.Keys);
      var e := executedEdges[key];
      executedEdges := executedEdges - {key};
      if e.source in outboundEdges {
        outboundEdges := outboundEdges[e.source := outboundEdges[e.source] - {key}];
      }
      if e.target in inboundEdges {
        inboundEdges := inboundEdges[e.target := inboundEdges[e.target] - {key}];
      }
      assert outboundEdges == DropKey(old(outboundEdges), e.source, key);
      assert inboundEdges == DropKey(old(inboundEdges), e.target, key);
    }

    /** A failed reversal keeps the record and its index entries. */
    method TryReverseAndUnregister(key: string) returns (ok: bool)
      requires Core() && key in executedEdges
      modifies `executedEdges, `inboundEdges, `outboundEdges, `reversalFailed, `disturbed, `attached
      ensures Core() && Since(old(reversalFailed), old(disturbed), old(Balanced()))
      ensures ok ==> Wired() == Unregister(old(Wired()), key) && reversalFailed == old(reversalFailed)
      ensures !ok ==> Wired() == old(Wired()) && reversalFailed
    {
      ok := *;
      if ok {
        UnregisterEdgeRecord(key);
        attached := attached - {key};
      } else {
        reversalFailed, disturbed := true, true;
      }
    }

    /** Reverses the executed edges among `keys`, each once, going on past failures. */
    method ReverseAll(keys: set<string>)
      requires Core()
      modifies `executedEdges, `inboundEdges, `outboundEdges, `reversalFailed, `disturbed, `attached
      ensures Core() && Reversed(old(executedEdges), executedEdges, keys, reversalFailed, mixed)
      ensures Since(old(reversalFailed), old(disturbed), old(Balanced()))
    {
      var rest := keys;
      ghost var done := {};
      while rest != {}
        invariant done + rest == keys && Core()
        invariant Reversed(old(executedEdges), executedEdges, done, reversalFailed, mixed)
        invariant Since(old(reversalFailed), old(disturbed), old(Balanced()))
        decreases |rest|
      {
        var k :| k in rest;
        rest := rest - {k};
        ghost var executed, failed := executedEdges, reversalFailed;
        if k in executedEdges {
          var ok := TryReverseAndUnregister(k);
        }
        assert Reversed(executed, executedEdges, {k}, reversalFailed, mixed);
        ReversedThen(old(executedEdges), executed, executedEdges, done, {k}, failed, reversalFailed, mixed);
        done := done + {k};
      }
      assert done == keys;
    }

    // ---- nodes ----

    method InstantiateNode(def: NodeDef) returns (ok: bool)
      requires Core()
      modifies `nodes, `nodeStatusHandlers, `nextInstance
      ensures Core()
      ensures ok ==>
        && nodes.Keys == old(nodes).Keys + {def.id}
        && nodes[def.id].template == def.template && nodes[def.id].instance == old(nextInstance)
      ensures nextInstance >= old(nextInstance)
      ensures forall id :: id in old(nodes) && id != def.id ==> id in nodes && nodes[id] == old(nodes)[id]
    {
      ok := *;  // class lookup, construction, port registration
      if !ok {
        return;
      }
      var live := LiveNode(def.id, def.template, nextInstance, def.config);
      ok := *;  // reference resolution and setConfig
      if ok && def.config.Some? {
        var cleaned: Payload := *;
        live := live.(config := Some(cleaned));
      }
      nodes := nodes[def.id := live];
      nextInstance := nextInstance + 1;
      nodeStatusHandlers := nodeStatusHandlers + {def.id};
      if ok {
        ok := *;  // setState
      }
    }

    /** Removes a node and its index entries once its edges have been dealt with. */
    method ForgetNode(id: string)
      requires Core() && (!reversalFailed ==> Touching(executedEdges, {id}) == {})
      modifies `nodes, `inboundEdges, `outboundEdges
      ensures Core() && nodes == old(nodes) - {id}
      ensures inboundEdges == old(inboundEdges) - {id} && outboundEdges == old(outboundEdges) - {id}
    {
      WithoutNodeKeeps(Wired(), id, nodes.Keys);
      nodes := nodes - {id};
      inboundEdges := inboundEdges - {id};
      outboundEdges := outboundEdges - {id};
      assert Wired() == WithoutNode(old(Wired()), id) && nodes.Keys == old(nodes).Keys - {id};
    }

    /** Takes a node down: status handler, edges, instance, index entries. Teardown errors are ignored. */
    method DisposeNode(id: string)
      requires Core()
      modifies `nodes, `executedEdges, `inboundEdges, `outboundEdges, `nodeStatusHandlers, `reversalFailed, `disturbed,
               `attached, `provisioned
      ensures Core() && nodes == old(nodes) - {id} && provisioned <= old(provisioned)
      ensures Reversed(old(executedEdges), executedEdges, Touching(old(executedEdges), {id}), reversalFailed, mixed)
      ensures Since(old(reversalFailed), old(disturbed), old(Balanced()))
    {
      if id in nodes {
        nodeStatusHandlers := nodeStatusHandlers - {id};
        ReverseTouching(id);
        var deprovisioned: bool := *;
        if deprovisioned {
          provisioned := provisioned - {nodes[id].instance};
        }
        ForgetNode(id);
      } else {
        IndexedTouching(Wired(), id, nodes.Keys);
      }
    }

    /** Reverses the edges the indexes list for one node. */
    method ReverseTouching(id: string)
      requires Core()
      modifies `executedEdges, `inboundEdges, `outboundEdges, `reversalFailed, `disturbed, `attached
      ensures Core()
      ensures Reversed(old(executedEdges), executedEdges, Touching(old(executedEdges), {id}), reversalFailed, mixed)
      ensures Since(old(reversalFailed), old(disturbed), old(Balanced()))
      ensures !reversalFailed ==> Touching(executedEdges, {id}) == {}
    {
      IndexedTouching(Wired(), id, nodes.Keys);
      var all := At(inboundEdges, id) + At(outboundEdges, id);
      assert !mixed ==> all <= Touching(executedEdges, {id});
      ReverseAll(all);
    }

    // ---- edges ----

    /** The part of executeEdge before its create call: whether there is one to make. */
    method BeginEdge(e: Edge) returns (go: bool)
      ensures go <==> e.source in nodes && e.target in nodes
    {
      go := e.source in nodes && e.target in nodes;
    }

    /** The part after its create call. */
    method FinishEdge(e: Edge)
      modifies `executedEdges, `inboundEdges, `outboundEdges, `mixed, `attached, `attachedTwice
      ensures Wired() == Register(old(Wired()), EdgeKey(e), e)
      ensures mixed == (old(mixed) || !old(KeyFits(executedEdges, e)))
      ensures old(Core()) && e.source in nodes && e.target in nodes && (reversalFailed || !mixed) ==> Core()
      ensures old(Core()) && (e.source !in nodes || e.target !in nodes) ==> !Filed(Wired(), nodes.Keys)
      ensures old(Balanced()) && EdgeKey(e) !in old(executedEdges) ==> Balanced()
    {
      Attach(e);
      RegisterEdgeRecord(e);
    }

    /** What registering this edge means for the history. */
    ghost method Attach(e: Edge)
      modifies `mixed, `attached, `attachedTwice
      ensures mixed == (old(mixed) || !KeyFits(executedEdges, e))
      ensures old(Core()) && (reversalFailed || !mixed) ==> Core()
      ensures attached == old(attached) + {EdgeKey(e)}
      ensures attachedTwice == (old(attachedTwice) || EdgeKey(e) in old(attached))
    {
      mixed := mixed || !KeyFits(executedEdges, e);
      attachedTwice := attachedTwice || EdgeKey(e) in attached;
      attached := attached + {EdgeKey(e)};
    }

    /** Wires one edge; nothing happens when an end is not live. Port resolution and create may fail. */
    method ExecuteEdge(e: Edge) returns (ok: bool)
      requires Core() && (reversalFailed || KeyFits(executedEdges, e))
      modifies `executedEdges, `inboundEdges, `outboundEdges, `mixed, `attached, `attachedTwice
      ensures Core() && (mixed ==> old(mixed) || !old(KeyFits(executedEdges, e)))
      ensures ok && e.source in nodes && e.target in nodes ==>
        && Wired() == Register(old(Wired()), EdgeKey(e), e)
        && (old(Balanced()) && EdgeKey(e) !in old(executedEdges) ==> Balanced())
      ensures e.source !in nodes || e.target !in nodes ==>
        ok && Wired() == old(Wired()) && old(Balanced()) == Balanced()
      ensures !ok ==> Wired() == old(Wired())
    {
      var go := BeginEdge(e);
      if !go {
        return true;
      }
      ok := *;
      if ok {
        FinishEdge(e);
      }
    }

    // ---- the phases of an apply ----

    method AddNodes(defs: seq<NodeDef>) returns (ok: bool)
      requires Core()
      modifies `nodes, `nodeStatusHandlers, `nextInstance
      ensures Core() && nextInstance >= old(nextInstance)
      ensures ok ==> NodesAdded(old(nodes), nodes, defs)
    {
      ok := true;
      for i := 0 to |defs|
        invariant Core() && ok && nextInstance >= old(nextInstance)
        invariant NodesAdded(old(nodes), nodes, defs[..i])
      {
        ghost var before := nodes;
        ok := InstantiateNode(defs[i]);
        if !ok {
          return;
        }
        assert NodesAdded(old(nodes), nodes, defs[..i + 1]) by {
          assert defs[..i + 1] == defs[..i] + [defs[i]];
          NodesAddedThen(old(nodes), before, nodes, defs[..i], defs[i]);
        }
      }
      assert defs[..|defs|] == defs;
    }

    method RecreateNode(id: string, next: GraphDef) returns (ok: bool)
      requires Core() && id in NodeIds(next.nodes)
      modifies `nodes, `executedEdges, `inboundEdges, `outboundEdges, `nodeStatusHandlers, `nextInstance,
               `reversalFailed, `disturbed, `attached, `provisioned
      ensures Core() && nextInstance >= old(nextInstance)
      ensures Since(old(reversalFailed), old(disturbed), old(Balanced()))
      ensures Reversed(old(executedEdges), executedEdges, Touching(old(executedEdges), {id}), reversalFailed, mixed)
      ensures ok ==> NodesRecreated(old(nodes), nodes, {id}, next.nodes, old(nextInstance))
    {
      DisposeNode(id);
      var def := FindDef(next.nodes, id);
      ok := InstantiateNode(def);
    }

    method RecreateNodes(ids: seq<string>, next: GraphDef) returns (ok: bool)
      requires Core() && forall id :: id in ids ==> id in NodeIds(next.nodes)
      modifies `nodes, `executedEdges, `inboundEdges, `outboundEdges, `nodeStatusHandlers, `nextInstance,
               `reversalFailed, `disturbed, `attached, `provisioned
      ensures Core() && Since(old(reversalFailed), old(disturbed), old(Balanced()))
      ensures ok ==>
        Reversed(old(executedEdges), executedEdges, Touching(old(executedEdges), IdSet(ids)), reversalFailed, mixed)
      ensures ok ==> NodesRecreated(old(nodes), nodes, IdSet(ids), next.nodes, old(nextInstance))
    {
      ok := true;
      for i := 0 to |ids|
        invariant Core() && ok && nextInstance >= old(nextInstance)
        invariant Since(old(reversalFailed), old(disturbed), old(Balanced()))
        invariant Rebuilt(old(executedEdges), old(nodes), old(nextInstance), IdSet(ids[..i]), next)
      {
        assert IdSet(ids[..i + 1]) == IdSet(ids[..i]) + {ids[i]} by {
          assert ids[..i + 1] == ids[..i] + [ids[i]];
        }
        ok := RecreateAnother(old(executedEdges), old(nodes), old(nextInstance), IdSet(ids[..i]), ids[i], next);
        if !ok {
          return;
        }
      }
      assert ids[..|ids|] == ids;
    }

    /** What has happened to edges and nodes since they were as given, while these nodes were recreated. */
    ghost predicate Rebuilt(executed: map<string, Edge>, was: map<string, LiveNode>, first: nat, ids: set<string>,
                            next: GraphDef)
      reads `nodes, `executedEdges, `reversalFailed, `mixed
    {
      && Reversed(executed, executedEdges, Touching(executed, ids), reversalFailed, mixed)
      && NodesRecreated(was, nodes, ids, next.nodes, first)
    }

    /** Recreates one more node. */
    method RecreateAnother(ghost executed: map<string, Edge>, ghost was: map<string, LiveNode>, ghost first: nat,
                           ghost before: set<string>, id: string, next: GraphDef) returns (ok: bool)
      requires Core() && id in NodeIds(next.nodes)
      requires Rebuilt(executed, was, first, before, next) && first <= nextInstance
      modifies `nodes, `executedEdges, `inboundEdges, `outboundEdges, `nodeStatusHandlers, `nextInstance,
               `reversalFailed, `disturbed, `attached, `provisioned
      ensures Core() && nextInstance >= old(nextInstance)
      ensures Since(old(reversalFailed), old(disturbed), old(Balanced()))
      ensures ok ==> Rebuilt(executed, was, first, before + {id}, next)
    {
      ok := RecreateNode(id, next);
      ReversedNode(executed, old(executedEdges), executedEdges, before, id, old(reversalFailed), reversalFailed, mixed);
      RecreatedThen(was, old(nodes), nodes, before, id, next.nodes, first, old(nextInstance));
    }

    /** Disposes one more node, given that those in `before` have been taken down since `executed`. */
    method TakeDown(ghost executed: map<string, Edge>, ghost before: set<string>, id: string)
      requires Core() && Reversed(executed, executedEdges, Touching(executed, before), reversalFailed, mixed)
      modifies `nodes, `executedEdges, `inboundEdges, `outboundEdges, `nodeStatusHandlers, `reversalFailed, `disturbed,
               `attached, `provisioned
      ensures Core() && nodes == old(nodes) - {id}
      ensures Reversed(executed, executedEdges, Touching(executed, before + {id}), reversalFailed, mixed)
      ensures Since(old(reversalFailed), old(disturbed), old(Balanced()))
    {
      DisposeNode(id);
      ReversedNode(executed, old(executedEdges), executedEdges, before, id, old(reversalFailed), reversalFailed, mixed);
    }

    /** A setConfig that fails leaves the live config as it was; nothing else changes. */
    method UpdateConfigs(ids: seq<string>)
      requires Core()
      modifies `nodes
      ensures Core() && NodesConfigured(old(nodes), nodes, ids)
    {
      for i := 0 to |ids|
        invariant Core() && NodesConfigured(old(nodes), nodes, ids)
      {
        if ids[i] in nodes {
          var ok: bool := *;
          if ok {
            var cleaned: Payload := *;
            nodes := nodes[ids[i] := nodes[ids[i]].(config := Some(cleaned))];
            assert nodes.Keys == old(nodes).Keys;
          }
        }
      }
    }

    method RemoveNodes(ids: seq<string>)
      requires Core()
      modifies `nodes, `executedEdges, `inboundEdges, `outboundEdges, `nodeStatusHandlers, `reversalFailed, `disturbed,
               `attached, `provisioned
      ensures Core() && nodes == old(nodes) - IdSet(ids)
      ensures Since(old(reversalFailed), old(disturbed), old(Balanced()))
      ensures Reversed(old(executedEdges), executedEdges, Touching(old(executedEdges), IdSet(ids)),
                       reversalFailed, mixed)
    {
      for i := 0 to |ids|
        invariant Core() && nodes == old(nodes) - IdSet(ids[..i])
        invariant Since(old(reversalFailed), old(disturbed), old(Balanced()))
        invariant Reversed(old(executedEdges), executedEdges, Touching(old(executedEdges), IdSet(ids[..i])),
                           reversalFailed, mixed)
      {
        assert ids[..i + 1] == ids[..i] + [ids[i]] && IdSet(ids[..i + 1]) == IdSet(ids[..i]) + {ids[i]};
        TakeDown(old(executedEdges), IdSet(ids[..i]), ids[i]);
      }
      assert ids[..|ids|] == ids;
    }

    /** Edges with an end that is not live are passed over. */
    method AddEdges(edges: seq<Edge>) returns (ok: bool)
      requires Core() && DistinctKeys(edges) && (!reversalFailed ==> EdgeKeys(edges) !! executedEdges.Keys)
      modifies `executedEdges, `inboundEdges, `outboundEdges, `mixed, `attached, `attachedTwice
      ensures Core() && (old(!mixed && AllFit(executedEdges, edges)) ==> !mixed)
      ensures ok ==> Added(old(executedEdges), executedEdges, edges, nodes.Keys)
      ensures ok && EdgeKeys(edges) !! old(executedEdges).Keys && old(Balanced()) ==> Balanced()
    {
      ok := true;
      ghost var unseen, fits := EdgeKeys(edges) !! executedEdges.Keys && Balanced(), AllFit(executedEdges, edges);
      NewKeysAllFit(executedEdges, edges);
      for i := 0 to |edges|
        invariant Core() && ok && (old(!mixed) && fits ==> !mixed)
        invariant Added(old(executedEdges), executedEdges, edges[..i], nodes.Keys)
        invariant unseen ==> Balanced()
      {
        var e := edges[i];
        KeyUnseen(edges, i);
        if fits {
          AddedFits(old(executedEdges), executedEdges, edges, i, nodes.Keys);
        }
        ghost var before := executedEdges;
        ok := ExecuteEdge(e);
        if !ok {
          return;
        }
        AddedThen(old(executedEdges), before, executedEdges, edges, i, nodes.Keys);
      }
      assert edges[..|edges|] == edges;
    }

    ghost predicate AllProvisioned()
      reads `nodes, `provisioned
    {
      forall id :: id in nodes ==> nodes[id].instance in provisioned
    }

    /** All instances are provisioned concurrently; one rejection rejects the whole. */
    method ProvisionAll() returns (ok: bool)
      modifies `provisioned
      ensures ok ==> AllProvisioned()
    {
      ok := true;
      var rest := nodes.Keys;
      while rest != {}
        invariant rest <= nodes.Keys
        invariant ok ==> forall id :: id in nodes && id !in rest ==> nodes[id].instance in provisioned
        decreases |rest|
      {
        var id :| id in rest;
        rest := rest - {id};
        var done: bool := *;
        if done {
          provisioned := provisioned + {nodes[id].instance};
        } else {
          ok := false;
        }
      }
    }

    // ---- apply ----

    /** A new edge does not take the key of an executed edge with other ends. */
    ghost predicate NewKeysFit(next: GraphDef)
      reads `lastGraph, `executedEdges
    {
      NewFit(executedEdges, Last(), next)
    }

    /** Unless a reversal has failed, executed keys are keys of the last graph, so no new edge has one. */
    lemma UnfailedKeysFit(next: GraphDef)
      requires Valid() && !reversalFailed && !rejected
      ensures NewKeysFit(next)
    {
    }

    lemma ApartKeysFit(next: GraphDef)
      requires Core() && KeysTellApart(executedEdges.Values + EdgeSet(next.edges))
      ensures NewKeysFit(next)
    {
      forall e | e in next.edges && EdgeKey(e) in executedEdges ensures executedEdges[EdgeKey(e)] == e {
        assert executedEdges[EdgeKey(e)] in executedEdges.Values && e in EdgeSet(next.edges);
      }
    }

    method ApplyInternal(next: GraphDef) returns (r: Option<Diff>)
      requires Core() && (!reversalFailed ==> executedEdges.Keys <= EdgeKeys(Last().edges))
      modifies `nodes, `executedEdges, `inboundEdges, `outboundEdges, `version, `lastGraph, `nodeStatusHandlers,
               `nextInstance, `reversalFailed, `disturbed, `mixed, `recreatedAny, `attached, `attachedTwice,
               `provisioned
      ensures Core() && disturbed == (old(disturbed) || reversalFailed) && (old(reversalFailed) ==> reversalFailed)
      ensures old(!mixed && NewKeysFit(next)) ==> !mixed
      ensures r.Some? ==> IsDiff(old(Last()), next, r.value) && lastGraph == Some(next)
      ensures version == old(version) + if r.Some? then 1 else 0
      ensures r.Some? ==> AllProvisioned() && NodesApplied(old(Last()), next, old(nodes), nodes)
      ensures r.Some? && !reversalFailed ==>
        EdgesApplied(old(Last()), next, old(executedEdges), executedEdges, nodes.Keys)
      ensures r.Some? ==> recreatedAny == (old(recreatedAny) || AnyRecreated(old(Last()), next))
      ensures r.Some? && !reversalFailed && old(Balanced()) ==> Balanced()
    {
      var diff := ComputeDiff(Last(), next);
      AddedNewFit(Last(), next, diff, executedEdges);
      var ok := Rewire(diff, Last(), next);
      if ok {
        ok := FinishApply();
      }
      r := if ok then Some(diff) else None;
    }

    /** The last phases: all nodes are provisioned, and then the apply counts. */
    method FinishApply() returns (ok: bool)
      modifies `provisioned, `version
      ensures version == old(version) + if ok then 1 else 0
      ensures ok ==> AllProvisioned()
    {
      ok := ProvisionAll();
      if ok {
        version := version + 1;
      }
    }

    /** What applying this graph means for the history. */
    ghost method Judge(next: GraphDef)
      requires nodesDisturbed ==> disturbed
      modifies `nodesDisturbed, `disturbed
      ensures nodesDisturbed ==> disturbed
      ensures nodesDisturbed == (old(nodesDisturbed) || !DistinctIds(next.nodes))
      ensures disturbed == (old(disturbed) || !Untroubled(executedEdges, Last(), next))
    {
      nodesDisturbed := nodesDisturbed || !DistinctIds(next.nodes);
      disturbed := disturbed || !Untroubled(executedEdges, Last(), next);
    }

    /** All phases before provisioning. */
    method Rewire(diff: Diff, ghost prev: GraphDef, next: GraphDef) returns (ok: bool)
      requires Core() && IsDiff(prev, next, diff) && (!reversalFailed ==> executedEdges.Keys <= EdgeKeys(prev.edges))
      modifies `nodes, `executedEdges, `inboundEdges, `outboundEdges, `lastGraph, `nodeStatusHandlers, `nextInstance,
               `reversalFailed, `disturbed, `mixed, `recreatedAny, `attached, `attachedTwice, `provisioned
      ensures Core() && disturbed == (old(disturbed) || reversalFailed) && (old(reversalFailed) ==> reversalFailed)
      ensures old(!mixed && AllFit(executedEdges, diff.addedEdges)) ==> !mixed
      ensures ok ==> lastGraph == Some(next) && NodesApplied(prev, next, old(nodes), nodes)
      ensures ok && !reversalFailed ==> EdgesApplied(prev, next, old(executedEdges), executedEdges, nodes.Keys)
      ensures ok ==> recreatedAny == (old(recreatedAny) || AnyRecreated(prev, next))
      ensures ok && !reversalFailed && old(Balanced()) ==> Balanced()
    {
      ok := ChangeNodes(diff, prev, next);
      if ok {
        AddedAfter(prev, next, diff, old(executedEdges), executedEdges, TakenDown(old(executedEdges), prev, next),
                   reversalFailed, mixed);
        ok := WireAdded(diff, prev, next, old(executedEdges));
      }
    }

    /** Stores the new snapshot and executes the added edges; `first` are those executed before the apply. */
    method WireAdded(diff: Diff, ghost prev: GraphDef, next: GraphDef, ghost first: map<string, Edge>)
      returns (ok: bool)
      requires Core() && DistinctKeys(diff.addedEdges)
      requires !reversalFailed ==> EdgeKeys(diff.addedEdges) !! executedEdges.Keys
      requires Reversed(first, executedEdges, TakenDown(first, prev, next), reversalFailed, mixed)
      modifies `executedEdges, `inboundEdges, `outboundEdges, `lastGraph, `mixed, `attached, `attachedTwice
      ensures Core() && lastGraph == Some(next) && (old(!mixed && AllFit(executedEdges, diff.addedEdges)) ==> !mixed)
      ensures ok && !reversalFailed && IsDiff(prev, next, diff) ==>
        EdgesApplied(prev, next, first, executedEdges, nodes.Keys)
      ensures ok && !reversalFailed && old(Balanced()) ==> Balanced()
    {
      lastGraph := Some(next);
      ok := AddEdges(diff.addedEdges);
      EdgesAppliedNow(prev, next, diff, first, old(executedEdges), executedEdges, nodes.Keys,
                      reversalFailed, old(mixed));
    }

    method ReworkNodes(diff: Diff, next: GraphDef) returns (ok: bool)
      requires Core() && forall id :: id in diff.recreatedNodeIds ==> id in NodeIds(next.nodes)
      modifies `nodes, `executedEdges, `inboundEdges, `outboundEdges, `nodeStatusHandlers, `nextInstance,
               `reversalFailed, `disturbed, `attached, `provisioned
      ensures Core() && Since(old(reversalFailed), old(disturbed), old(Balanced()))
      ensures ok ==>
        Reversed(old(executedEdges), executedEdges, Touching(old(executedEdges), IdSet(diff.recreatedNodeIds)),
                 reversalFailed, mixed)
      ensures ok ==> NodesReworked(old(nodes), nodes, IdSet(diff.recreatedNodeIds), next.nodes, old(nextInstance))
    {
      ok := RecreateNodes(diff.recreatedNodeIds, next);
      if ok {
        UpdateConfigs(diff.configUpdateNodeIds);
      }
    }

    /** The first phases: add, recreate and configure nodes. `added` are the nodes after the first. */
    method RenewPhases(diff: Diff, next: GraphDef, ghost ids: set<string>)
      returns (ok: bool, ghost added: map<string, LiveNode>, ghost later: nat)
      requires Core() && ids == IdSet(diff.recreatedNodeIds) && (diff.recreatedNodeIds == [] <==> ids == {})
      requires forall id :: id in diff.recreatedNodeIds ==> id in NodeIds(next.nodes)
      modifies `nodes, `executedEdges, `inboundEdges, `outboundEdges, `nodeStatusHandlers, `nextInstance,
               `reversalFailed, `disturbed, `recreatedAny, `attached, `provisioned
      ensures Core() && Since(old(reversalFailed), old(disturbed), old(Balanced()))
      ensures ok ==> recreatedAny == (old(recreatedAny) || ids != {})
      ensures ok ==>
        Reversed(old(executedEdges), executedEdges, Touching(old(executedEdges), ids), reversalFailed, mixed)
      ensures ok ==>
        NodesAdded(old(nodes), added, diff.addedNodes) && NodesReworked(added, nodes, ids, next.nodes, later)
      ensures later >= old(nextInstance)
    {
      ok := AddNodes(diff.addedNodes);
      added, later := nodes, nextInstance;
      if ok {
        recreatedAny := recreatedAny || diff.recreatedNodeIds != [];
        ok := ReworkNodes(diff, next);
      }
    }

    /** The phases up to the new snapshot. */
    method ChangeNodes(diff: Diff, ghost prev: GraphDef, next: GraphDef) returns (ok: bool)
      requires Core() && IsDiff(prev, next, diff)
      modifies `nodes, `executedEdges, `inboundEdges, `outboundEdges, `nodeStatusHandlers, `nextInstance,
               `reversalFailed, `disturbed, `recreatedAny, `attached, `provisioned
      ensures Core() && Since(old(reversalFailed), old(disturbed), old(Balanced()))
      ensures ok ==> NodesApplied(prev, next, old(nodes), nodes)
      ensures ok ==>
        Reversed(old(executedEdges), executedEdges, TakenDown(old(executedEdges), prev, next), reversalFailed, mixed)
      ensures ok ==> recreatedAny == (old(recreatedAny) || AnyRecreated(prev, next))
    {
      ghost var ids, leaving := RecreatedIds(prev, next), LeavingIds(prev, next);
      ghost var gone := EdgeKeys(prev.edges) - EdgeKeys(next.edges);
      RecreatedExactly(prev, next, diff);
      ghost var added, later;
      ok, added, later := RenewPhases(diff, next, ids);
      if ok {
        ghost var renewed := nodes;
        RemovedExactly(prev, next, diff);
        NarrowAndRemove(diff, gone, leaving, old(executedEdges), Touching(old(executedEdges), ids));
        assert TakenDown(old(executedEdges), prev, next)
            == Touching(old(executedEdges), ids) + gone + Touching(old(executedEdges), leaving);
        NodesAppliedNow(prev, next, diff, old(nodes), added, renewed, nodes, later);
      }
    }

    /**
     * Reverses the removed edges, then removes the nodes that leave with the edges they still have.
     * Since the edges were `first`, those in `before` have been reversed.
     */
    method NarrowAndRemove(diff: Diff, ghost keys: set<string>, ghost leaving: set<string>,
                           ghost first: map<string, Edge>, ghost before: set<string>)
      requires Core() && keys == EdgeKeys(diff.removedEdges) && leaving == IdSet(diff.removedNodeIds)
      modifies `nodes, `executedEdges, `inboundEdges, `outboundEdges, `nodeStatusHandlers, `reversalFailed,
               `disturbed, `attached, `provisioned
      ensures Core() && nodes == old(nodes) - leaving
      ensures Since(old(reversalFailed), old(disturbed), old(Balanced()))
      ensures Reversed(first, old(executedEdges), before, old(reversalFailed), mixed) ==>
        Reversed(first, executedEdges, before + keys + Touching(first, leaving), reversalFailed, mixed)
    {
      ReverseAll(EdgeKeys(diff.removedEdges));
      ghost var executed, failed := executedEdges, reversalFailed;
      RemoveNodes(diff.removedNodeIds);
      ReversedNodes(old(executedEdges), executed, executedEdges, keys, leaving, failed, reversalFailed, mixed);
      ReversedChain(first, old(executedEdges), executedEdges, before, keys, leaving,
                    old(reversalFailed), reversalFailed, mixed);
    }

    /**
     * Applies one graph after another. A failure rejects the chain: every later apply fails
     * without running. The version counts the successes.
     *
     * What a success does to nodes and edges is stated of every state; that the runtime then
     * matches the graph is the invariant, as long as it is not disturbed. A failed reversal
     * disturbs the edges but not the nodes.
     */
    method Apply(next: GraphDef) returns (r: Option<Diff>)
      requires Valid()
      modifies this
      ensures Valid()
      ensures rejected <==> r.None?
      ensures old(rejected) ==> r.None? && unchanged(this)
      ensures version == old(version) + if r.Some? then 1 else 0
      ensures (old(reversalFailed) ==> reversalFailed) && (old(!mixed && NewKeysFit(next)) ==> !mixed)
      ensures r.Some? ==> IsDiff(old(Last()), next, r.value) && lastGraph == Some(next) && AllProvisioned()
      ensures r.Some? ==> NodesApplied(old(Last()), next, old(nodes), nodes)
      ensures r.Some? && !reversalFailed ==>
        EdgesApplied(old(Last()), next, old(executedEdges), executedEdges, nodes.Keys)
      ensures r.Some? ==> nodesDisturbed == (old(nodesDisturbed) || !DistinctIds(next.nodes))
      ensures r.Some? ==>
        disturbed == (old(disturbed) || reversalFailed || !Untroubled(old(executedEdges), old(Last()), next))
      ensures r.Some? && !nodesDisturbed ==> InstancesKept(old(nodes), nodes, RecreatedIds(old(Last()), next))
      ensures r.Some? && !reversalFailed && !nodesDisturbed && WellFormedDef(next) ==>
        (FollowsGraph(old(Last()), next, old(executedEdges), executedEdges)
         <==> KeptEdgesStay(old(executedEdges), old(Last()), next))
    {
      r := None;
      if !rejected {
        ghost var prev, was, first := Last(), nodes, executedEdges;
        r := ApplyOpen(next);
        if r.None? {
          rejected := true;
        } else {
          KeysWithin(prev, next, first, executedEdges, nodes.Keys);
          NodesThen(prev, next, was, nodes);
          EdgesThen(prev, next, nodes, first, executedEdges);
        }
      }
    }

    /** An apply while the chain is open. */
    method ApplyOpen(next: GraphDef) returns (r: Option<Diff>)
      requires Valid() && !rejected
      modifies `nodes, `executedEdges, `inboundEdges, `outboundEdges, `version, `lastGraph, `nodeStatusHandlers,
               `nextInstance, `reversalFailed, `nodesDisturbed, `disturbed, `mixed, `recreatedAny, `attached,
               `attachedTwice, `provisioned
      ensures Core() && (nodesDisturbed ==> disturbed)
      ensures version == old(version) + if r.Some? then 1 else 0
      ensures (old(reversalFailed) ==> reversalFailed) && (old(!mixed && NewKeysFit(next)) ==> !mixed)
      ensures r.Some? ==> IsDiff(old(Last()), next, r.value) && lastGraph == Some(next) && AllProvisioned()
      ensures r.Some? ==> NodesApplied(old(Last()), next, old(nodes), nodes)
      ensures r.Some? && !reversalFailed ==>
        EdgesApplied(old(Last()), next, old(executedEdges), executedEdges, nodes.Keys)
      ensures r.Some? ==> recreatedAny == (old(recreatedAny) || AnyRecreated(old(Last()), next))
      ensures r.Some? && !reversalFailed && old(Balanced()) ==> Balanced()
      ensures nodesDisturbed == (old(nodesDisturbed) || !DistinctIds(next.nodes))
      ensures disturbed == (old(disturbed) || reversalFailed || !Untroubled(old(executedEdges), old(Last()), next))
    {
      Judge(next);
      r := ApplyInternal(next);
    }

    method SetLiveConfig(id: string, cfg: Payload)
      requires Core()
      modifies `nodes
      ensures Core() && nodes.Keys == old(nodes).Keys && (old(NodesConverged()) ==> NodesConverged())
      ensures forall i :: i in nodes ==>
        nodes[i] == if i == id then old(nodes)[i].(config := Some(cfg)) else old(nodes)[i]
    {
      if id in nodes {
        nodes := nodes[id := nodes[id].(config := Some(cfg))];
        assert nodes.Keys == old(nodes).Keys;
      }
    }

    /** Changes the stored definition; the definitions stay distinct and match whatever they matched. */
    method SetStoredConfig(id: string, cfg: Payload)
      modifies `lastGraph
      ensures lastGraph.Some? <==> old(lastGraph).Some?
      ensures lastGraph.Some? ==>
        lastGraph == Some(GraphDef(WithConfig(old(lastGraph).value.nodes, id, cfg), old(lastGraph).value.edges))
      ensures old(NodesConverged()) ==> NodesConverged()
      ensures old(EdgesConverged()) ==> EdgesConverged()
    {
      if lastGraph.Some? {
        var defs := WithConfig(lastGraph.value.nodes, id, cfg);
        ConvergedStill(nodes, nodes, lastGraph.value, id, cfg);
        lastGraph := Some(GraphDef(defs, lastGraph.value.edges));
      }
    }

    /** Persists a config update into the live node and the stored definition. */
    method UpdateNodeConfig(id: string, cfg: Payload)
      requires Valid()
      modifies `nodes, `lastGraph
      ensures Valid()
      ensures nodes.Keys == old(nodes).Keys
      ensures forall i :: i in nodes ==>
        nodes[i] == if i == id then old(nodes)[i].(config := Some(cfg)) else old(nodes)[i]
      ensures lastGraph.Some? <==> old(lastGraph).Some?
      ensures lastGraph.Some? ==> lastGraph.value.edges == old(lastGraph).value.edges
      ensures lastGraph.Some? ==> lastGraph.value.nodes == WithConfig(old(lastGraph).value.nodes, id, cfg)
    {
      SetLiveConfig(id, cfg);
      SetStoredConfig(id, cfg);
    }

    // ---- shutdown ----

    /**
     * Deprovisions every node, in any order of completion; a node whose deprovision fails
     * keeps its state and makes the shutdown fail. The last graph, the version and the status
     * handlers are left as they are.
     */
    method Shutdown() returns (ok: bool)
      requires Valid()
      modifies `nodes, `executedEdges, `inboundEdges, `outboundEdges, `nodesDisturbed, `disturbed, `provisioned
      ensures Valid()
      ensures ok ==> nodes == map[] && executedEdges == map[] && inboundEdges == map[] && outboundEdges == map[]
      ensures nodes.Keys <= old(nodes).Keys && !ok ==> nodes != map[]
      ensures nodesDisturbed && disturbed
    {
      Disturb();
      ok := StopAll();
      if ok {
        ClearEdges();
      }
      StillWithin(executedEdges.Keys, old(executedEdges).Keys, EdgeKeys(Last().edges));
    }

    ghost method Disturb()
      requires Core()
      modifies `nodesDisturbed, `disturbed
      ensures Core() && nodesDisturbed && disturbed
    {
      nodesDisturbed, disturbed := true, true;
    }

    method StopAll() returns (ok: bool)
      requires Core()
      modifies `nodes, `executedEdges, `inboundEdges, `outboundEdges, `provisioned
      ensures Core() && nodes.Keys <= old(nodes).Keys && (ok <==> nodes == map[])
      ensures executedEdges.Keys <= old(executedEdges).Keys
    {
      ok := true;
      var pending := nodes.Keys;
      ghost var kept := "";
      while pending != {}
        invariant Core() && pending <= nodes.Keys <= old(nodes).Keys && executedEdges.Keys <= old(executedEdges).Keys
        invariant ok ==> nodes.Keys == pending
        invariant !ok ==> kept in nodes && kept !in pending
        decreases |pending|
      {
        var id :| id in pending;
        pending := pending - {id};
        var stopped := StopNode(id);
        if !stopped {
          ok := false;
          kept := id;
        }
      }
    }

    /** With no live node the indexes are empty already. */
    method ClearEdges()
      requires Core() && nodes == map[]
      modifies `executedEdges
      ensures Core() && executedEdges == map[] && inboundEdges == map[] && outboundEdges == map[]
    {
      executedEdges := map[];
    }

    method StopNode(id: string) returns (ok: bool)
      requires Core() && id in nodes
      modifies `nodes, `executedEdges, `inboundEdges, `outboundEdges, `provisioned
      ensures Core() && nodes == if ok then old(nodes) - {id} else old(nodes)
      ensures executedEdges.Keys <= old(executedEdges).Keys
    {
      ok := *;
      if ok {
        provisioned := provisioned - {nodes[id].instance};
        DropNode(id);
      }
    }

    /** The synchronous part of one node's shutdown: its edges are unregistered without being reversed. */
    method DropNode(id: string)
      requires Core() && id in nodes
      modifies `nodes, `executedEdges, `inboundEdges, `outboundEdges
      ensures Core() && nodes == old(nodes) - {id} && executedEdges.Keys <= old(executedEdges).Keys
    {
      IndexedTouching(Wired(), id, nodes.Keys);
      var all := At(inboundEdges, id) + At(outboundEdges, id);
      var rest := all;
      while rest != {}
        invariant Core() && rest <= all && nodes == old(nodes)
        invariant executedEdges.Keys <= old(executedEdges).Keys
        invariant forall k :: k in executedEdges ==> executedEdges[k] == old(executedEdges)[k]
        invariant forall k :: k in all - rest ==> k !in executedEdges
        decreases |rest|
      {
        var k :| k in rest;
        rest := rest - {k};
        if k in executedEdges {
          UnregisterEdgeRecord(k);
        }
      }
      assert !reversalFailed ==> Touching(executedEdges, {id}) == {} by {
        forall k | k in Touching(executedEdges, {id}) ensures reversalFailed {
          assert k in Touching(old(executedEdges), {id});
        }
      }
      ForgetNode(id);
    }
  }

  lemma StillWithin(a: set<string>, b: set<string>, c: set<string>)
    ensures a <= b <= c ==> a <= c
  {
  }

  // ---- facts about definitions ----

  method FindDef(nodes: seq<NodeDef>, id: string) returns (def: NodeDef)
    requires id in NodeIds(nodes)
    ensures def in nodes && def.id == id
  {
    var i := 0;
    while nodes[i].id != id
      invariant i < |nodes| && forall k :: 0 <= k < i ==> nodes[k].id != id
      decreases |nodes| - i
    {
      i := i + 1;
    }
    def := nodes[i];
  }

  function WithConfig(nodes: seq<NodeDef>, id: string, cfg: Payload): seq<NodeDef> {
    if nodes == [] then []
    else if nodes[0].id == id then [nodes[0].(config := Some(cfg))] + nodes[1..]
    else [nodes[0]] + WithConfig(nodes[1..], id, cfg)
  }

  lemma {:induction false} WithConfigAt(nodes: seq<NodeDef>, id: string, cfg: Payload)
    ensures var r := WithConfig(nodes, id, cfg);
            |r| == |nodes| && forall i :: 0 <= i < |r| ==> r[i].id == nodes[i].id && r[i].template == nodes[i].template
  {
    if nodes != [] {
      WithConfigAt(nodes[1..], id, cfg);
    }
  }

  lemma WithConfigKeeps(nodes: seq<NodeDef>, id: string, cfg: Payload)
    ensures var r := WithConfig(nodes, id, cfg); NodeIds(r) == NodeIds(nodes) && (DistinctIds(nodes) ==> DistinctIds(r))
  {
    var r := WithConfig(nodes, id, cfg);
    WithConfigAt(nodes, id, cfg);
    forall x | x in NodeIds(nodes) ensures x in NodeIds(r) {
      var i :| 0 <= i < |nodes| && nodes[i].id == x;
      assert r[i] in r;
    }
    forall x | x in NodeIds(r) ensures x in NodeIds(nodes) {
      var i :| 0 <= i < |r| && r[i].id == x;
      assert nodes[i] in nodes;
    }
  }

  lemma MatchesStill(was: map<string, LiveNode>, becomes: map<string, LiveNode>, defs: seq<NodeDef>, id: string,
                     cfg: Payload)
    requires becomes.Keys == was.Keys && forall i :: i in was ==> becomes[i].template == was[i].template
    ensures Matches(was, defs) ==> Matches(becomes, WithConfig(defs, id, cfg))
  {
    WithConfigKeeps(defs, id, cfg);
    WithConfigAt(defs, id, cfg);
    if Matches(was, defs) {
      forall r | r in WithConfig(defs, id, cfg) ensures becomes[r.id].template == r.template {
        var i :| 0 <= i < |defs| && WithConfig(defs, id, cfg)[i] == r;
        assert defs[i] in defs;
      }
    }
  }

  lemma ConvergedStill(was: map<string, LiveNode>, becomes: map<string, LiveNode>, g: GraphDef, id: string,
                       cfg: Payload)
    requires becomes.Keys == was.Keys && forall i :: i in was ==> becomes[i].template == was[i].template
    ensures var defs := WithConfig(g.nodes, id, cfg);
            && (Matches(was, g.nodes) ==> Matches(becomes, defs))
            && (DistinctIds(g.nodes) ==> DistinctIds(defs))
            && (WellFormedDef(g) ==> WellFormedDef(GraphDef(defs, g.edges)))
  {
    WithConfigKeeps(g.nodes, id, cfg);
    MatchesStill(was, becomes, g.nodes, id, cfg);
  }

  lemma NodesAddedThen(a: map<string, LiveNode>, b: map<string, LiveNode>, c: map<string, LiveNode>,
                       defs: seq<NodeDef>, n: NodeDef)
    requires NodesAdded(a, b, defs)
    requires c.Keys == b.Keys + {n.id} && c[n.id].template == n.template
    requires forall id :: id in b && id != n.id ==> c[id] == b[id]
    ensures NodesAdded(a, c, defs + [n])
  {
    var all := defs + [n];
    assert n in all && forall m :: m in defs ==> m in all;
    assert NodeIds(all) == NodeIds(defs) + {n.id};
    if Functional(all) {
      forall m | m in all ensures c[m.id].template == m.template {
        assert m.id == n.id ==> m == n;
      }
    }
  }

  lemma RecreatedThen(a: map<string, LiveNode>, b: map<string, LiveNode>, c: map<string, LiveNode>,
                      ids: set<string>, id: string, defs: seq<NodeDef>, first: nat, later: nat)
    ensures NodesRecreated(a, b, ids, defs, first) && NodesRecreated(b, c, {id}, defs, later) && first <= later ==>
      NodesRecreated(a, c, ids + {id}, defs, first)
  {
  }

  lemma RecreatedExactly(prev: GraphDef, next: GraphDef, d: Diff)
    ensures IsDiff(prev, next, d) ==>
      && IdSet(d.recreatedNodeIds) == RecreatedIds(prev, next)
      && (forall id :: id in d.recreatedNodeIds ==> id in NodeIds(next.nodes))
      && (d.recreatedNodeIds == [] <==> RecreatedIds(prev, next) == {})
  {
    if IsDiff(prev, next, d) {
      forall id | id in d.recreatedNodeIds ensures id in RecreatedIds(prev, next) && id in NodeIds(next.nodes) {
        var n :| n in next.nodes && n.id == id && Recreated(NodeMap(prev.nodes), n);
      }
      assert IdSet(d.recreatedNodeIds) == RecreatedIds(prev, next);
      if d.recreatedNodeIds != [] {
        assert d.recreatedNodeIds[0] in IdSet(d.recreatedNodeIds);
      }
    }
  }

  lemma KeyUnseen(edges: seq<Edge>, i: nat)
    requires DistinctKeys(edges) && i < |edges|
    ensures EdgeKey(edges[i]) in EdgeKeys(edges) && EdgeKey(edges[i]) !in EdgeKeys(edges[..i])
  {
    assert edges[i] in edges;
    forall e | e in edges[..i] ensures EdgeKey(e) != EdgeKey(edges[i]) {
      var j :| 0 <= j < i && edges[j] == e;
    }
  }

  // ---- edges added ----

  /** The keys of the edges with both ends among the given nodes. */
  ghost function LiveKeys(edges: seq<Edge>, live: set<string>): set<string> {
    set e | e in edges && e.source in live && e.target in live :: EdgeKey(e)
  }

  ghost predicate Added(before: map<string, Edge>, after: map<string, Edge>, edges: seq<Edge>, live: set<string>) {
    && after.Keys == before.Keys + LiveKeys(edges, live)
    && forall k :: k in after ==>
         if k in LiveKeys(edges, live) then after[k] in edges && EdgeKey(after[k]) == k
         else k in before && after[k] == before[k]
  }

  /** No edge takes the key of an executed edge with other ends. */
  ghost predicate AllFit(executed: map<string, Edge>, edges: seq<Edge>) {
    forall e :: e in edges ==> KeyFits(executed, e)
  }

  ghost predicate NewFit(executed: map<string, Edge>, prev: GraphDef, next: GraphDef) {
    forall e :: e in next.edges && EdgeKey(e) !in EdgeKeys(prev.edges) ==> KeyFits(executed, e)
  }

  lemma AddedNewFit(prev: GraphDef, next: GraphDef, d: Diff, executed: map<string, Edge>)
    ensures IsDiff(prev, next, d) && NewFit(executed, prev, next) ==> AllFit(executed, d.addedEdges)
  {
    forall e | e in d.addedEdges ensures EdgeKey(e) in EdgeKeys(d.addedEdges) {
    }
  }

  lemma NewKeysAllFit(executed: map<string, Edge>, edges: seq<Edge>)
    ensures EdgeKeys(edges) !! executed.Keys ==> AllFit(executed, edges)
  {
    forall e | e in edges ensures EdgeKey(e) in EdgeKeys(edges) {
    }
  }

  lemma AddedFits(first: map<string, Edge>, now: map<string, Edge>, edges: seq<Edge>, i: nat, live: set<string>)
    requires DistinctKeys(edges) && i < |edges| && KeyFits(first, edges[i]) && Added(first, now, edges[..i], live)
    ensures KeyFits(now, edges[i])
  {
    KeyUnseen(edges, i);
    if EdgeKey(edges[i]) in now {
      assert EdgeKey(edges[i]) !in LiveKeys(edges[..i], live);
    }
  }

  lemma MoreLiveKeys(edges: seq<Edge>, e: Edge, live: set<string>)
    ensures var own := if e.source in live && e.target in live then {EdgeKey(e)} else {};
            LiveKeys(edges + [e], live) == LiveKeys(edges, live) + own
  {
  }

  lemma AddedThen(first: map<string, Edge>, now: map<string, Edge>, later: map<string, Edge>, edges: seq<Edge>, i: nat,
                  live: set<string>)
    requires i < |edges| && Added(first, now, edges[..i], live)
    requires var e := edges[i]; later == if e.source in live && e.target in live then now[EdgeKey(e) := e] else now
    ensures Added(first, later, edges[..i + 1], live)
  {
    var e := edges[i];
    var more := LiveKeys(edges[..i + 1], live);
    assert edges[..i + 1] == edges[..i] + [e];
    MoreLiveKeys(edges[..i], e, live);
    assert later.Keys == first.Keys + more;
    forall k | k in later
      ensures if k in more then later[k] in edges[..i + 1] && EdgeKey(later[k]) == k
              else k in first && later[k] == first[k]
    {
      assert k in now || k == EdgeKey(e);
    }
  }

  /** Added edges have new keys, and fit the edges left if they fitted the edges before. */
  lemma AddedAfter(prev: GraphDef, next: GraphDef, d: Diff, first: map<string, Edge>, mid: map<string, Edge>,
                   keys: set<string>, failed: bool, mixed: bool)
    ensures IsDiff(prev, next, d) ==> DistinctKeys(d.addedEdges)
    ensures Reversed(first, mid, keys, failed, mixed) && IsDiff(prev, next, d) && first.Keys <= EdgeKeys(prev.edges) ==>
      EdgeKeys(d.addedEdges) !! mid.Keys
    ensures Reversed(first, mid, keys, failed, mixed) && AllFit(first, d.addedEdges) ==> AllFit(mid, d.addedEdges)
  {
  }

  lemma EdgesAppliedNow(prev: GraphDef, next: GraphDef, d: Diff, first: map<string, Edge>, mid: map<string, Edge>,
                        after: map<string, Edge>, live: set<string>, failed: bool, mixed: bool)
    ensures
      && IsDiff(prev, next, d) && Added(mid, after, d.addedEdges, live)
      && Reversed(first, mid, TakenDown(first, prev, next), failed, mixed) && !failed
      ==> EdgesApplied(prev, next, first, after, live)
  {
    if IsDiff(prev, next, d) {
      forall e | e in d.addedEdges ensures EdgeKey(e) in EdgeKeys(d.addedEdges) {
      }
      assert LiveKeys(d.addedEdges, live) == WiredKeys(prev, next, live);
    }
  }

  lemma ReversedChain(a: map<string, Edge>, b: map<string, Edge>, c: map<string, Edge>, first: set<string>,
                      keys: set<string>, leaving: set<string>, failed: bool, failedLater: bool, mixed: bool)
    ensures
      && Reversed(a, b, first, failed, mixed)
      && Reversed(b, c, keys + Touching(b, leaving), failedLater, mixed) && (failed ==> failedLater)
      ==> Reversed(a, c, first + keys + Touching(a, leaving), failedLater, mixed)
  {
    if Reversed(a, b, first, failed, mixed) {
      assert Touching(b, leaving) <= Touching(a, leaving);
    }
  }

  lemma RemovedExactly(prev: GraphDef, next: GraphDef, d: Diff)
    ensures IsDiff(prev, next, d) ==>
      && IdSet(d.removedNodeIds) == LeavingIds(prev, next)
      && EdgeKeys(d.removedEdges) == EdgeKeys(prev.edges) - EdgeKeys(next.edges)
  {
    NodeMapDefines(prev.nodes);
  }

  // ---- nodes after an apply ----

  lemma AddedExactly(prev: GraphDef, next: GraphDef, d: Diff)
    requires IsDiff(prev, next, d)
    ensures NodeIds(d.addedNodes) == NewIds(prev, next) && NodeMap(prev.nodes).Keys == NodeIds(prev.nodes)
    ensures DistinctIds(next.nodes) ==> Functional(next.nodes) && Functional(d.addedNodes)
  {
    NodeMapDefines(prev.nodes);
  }

  /** The phases over the nodes, one after the other, do what an apply should do to them. */
  lemma NodesAppliedNow(prev: GraphDef, next: GraphDef, d: Diff, was: map<string, LiveNode>,
                        added: map<string, LiveNode>, renewed: map<string, LiveNode>, becomes: map<string, LiveNode>,
                        later: nat)
    ensures
      && IsDiff(prev, next, d) && NodesAdded(was, added, d.addedNodes)
      && NodesReworked(added, renewed, RecreatedIds(prev, next), next.nodes, later)
      && (forall id :: id in was ==> was[id].instance < later)
      && becomes == renewed - LeavingIds(prev, next)
      ==> NodesApplied(prev, next, was, becomes)
  {
    if
      && IsDiff(prev, next, d) && NodesAdded(was, added, d.addedNodes)
      && NodesReworked(added, renewed, RecreatedIds(prev, next), next.nodes, later)
      && (forall id :: id in was ==> was[id].instance < later)
      && becomes == renewed - LeavingIds(prev, next)
    {
      NodesInPhases(prev, next, d, was, added, renewed, becomes, later);
    }
  }

  lemma NodesInPhases(prev: GraphDef, next: GraphDef, d: Diff, was: map<string, LiveNode>,
                      added: map<string, LiveNode>, renewed: map<string, LiveNode>, becomes: map<string, LiveNode>,
                      later: nat)
    requires IsDiff(prev, next, d) && NodesAdded(was, added, d.addedNodes)
    requires NodesReworked(added, renewed, RecreatedIds(prev, next), next.nodes, later)
    requires forall id :: id in was ==> was[id].instance < later
    requires becomes == renewed - LeavingIds(prev, next)
    ensures NodesApplied(prev, next, was, becomes)
  {
    AddedExactly(prev, next, d);
    assert forall id :: id in RecreatedIds(prev, next) ==> id in NodeIds(next.nodes);
    KeysAfter(was.Keys, added.Keys, renewed.Keys, becomes.Keys, NewIds(prev, next), RecreatedIds(prev, next),
              LeavingIds(prev, next));
    forall id | id in becomes && id in was && id !in ChangedIds(prev, next)
      ensures becomes[id].template == was[id].template && becomes[id].instance == was[id].instance
    {
      KeptNode(was, added, renewed, d.addedNodes, RecreatedIds(prev, next), next.nodes, id, later);
    }
    if DistinctIds(next.nodes) {
      forall n | n in next.nodes && n.id in ChangedIds(prev, next)
        ensures n.id in becomes && becomes[n.id].template == n.template
      {
        ChangedTemplate(prev, next, d, was, added, renewed, n, later);
      }
    }
  }

  lemma KeysAfter(was: set<string>, added: set<string>, renewed: set<string>, becomes: set<string>,
                  newcomers: set<string>, recreated: set<string>, leaving: set<string>)
    requires added == was + newcomers && renewed == added + recreated && becomes == renewed - leaving
    ensures becomes == was + (newcomers + recreated) - leaving
  {
  }

  lemma KeptNode(was: map<string, LiveNode>, added: map<string, LiveNode>, renewed: map<string, LiveNode>,
                 newcomers: seq<NodeDef>, recreated: set<string>, defs: seq<NodeDef>, id: string, later: nat)
    requires NodesAdded(was, added, newcomers) && NodesReworked(added, renewed, recreated, defs, later)
    requires id in was && id !in NodeIds(newcomers) && id !in recreated
    ensures id in renewed && renewed[id].template == was[id].template && renewed[id].instance == was[id].instance
  {
    assert added[id] == was[id];
  }

  lemma ChangedTemplate(prev: GraphDef, next: GraphDef, d: Diff, was: map<string, LiveNode>,
                        added: map<string, LiveNode>, renewed: map<string, LiveNode>, n: NodeDef, later: nat)
    requires NodesDiffer(prev.nodes, next.nodes, d) && NodesAdded(was, added, d.addedNodes) && n in next.nodes
    requires NodesReworked(added, renewed, RecreatedIds(prev, next), next.nodes, later)
    requires Functional(next.nodes) && Functional(d.addedNodes) && NodeMap(prev.nodes).Keys == NodeIds(prev.nodes)
    requires n.id in ChangedIds(prev, next)
    ensures n.id in renewed && renewed[n.id].template == n.template && n.id !in LeavingIds(prev, next)
  {
    assert n.id in NodeIds(next.nodes);
    if n.id !in RecreatedIds(prev, next) {
      assert n in d.addedNodes && n.id in NodeIds(d.addedNodes);
    }
  }

  lemma NodesConverge(prev: GraphDef, next: GraphDef, was: map<string, LiveNode>, becomes: map<string, LiveNode>)
    requires DistinctIds(next.nodes) && Matches(was, prev.nodes) && NodesApplied(prev, next, was, becomes)
    ensures Matches(becomes, next.nodes) && InstancesKept(was, becomes, RecreatedIds(prev, next))
  {
    assert becomes.Keys == NodeIds(next.nodes);
    NodeMapDefines(prev.nodes);
    forall n | n in next.nodes ensures becomes[n.id].template == n.template {
      if n.id !in ChangedIds(prev, next) {
        var m := NodeMap(prev.nodes)[n.id];
        assert m in prev.nodes && was[m.id].template == m.template && !Recreated(NodeMap(prev.nodes), n);
      }
    }
  }

  // ---- edges after an apply ----

  lemma ApartEdgesStay(executed: map<string, Edge>, prev: GraphDef, next: GraphDef)
    requires KeysTellApart(executed.Values + EdgeSet(next.edges))
    requires forall k :: k in executed ==> k == EdgeKey(executed[k])
    ensures KeptEdgesStay(executed, prev, next)
  {
    forall k | k in executed && k in EdgeKeys(next.edges) ensures executed[k] in next.edges {
      var f :| f in next.edges && EdgeKey(f) == k;
      assert f in EdgeSet(next.edges) && executed[k] in executed.Values;
    }
  }

  lemma AllWired(prev: GraphDef, next: GraphDef, live: set<string>)
    requires WellFormedDef(next) && live == NodeIds(next.nodes)
    ensures WiredKeys(prev, next, live) == EdgeKeys(next.edges) - EdgeKeys(prev.edges)
    ensures forall k :: k in WiredKeys(prev, next, live) ==> EdgeMap(next.edges)[k] in next.edges
  {
    EdgeMapDefines(next.edges);
  }

  /** Which executed edges an apply keeps, if those of the next graph's keys are its edges. */
  lemma KeptKeys(prev: GraphDef, next: GraphDef, first: map<string, Edge>, k: string)
    requires WellFormedDef(next) && KeptEdgesStay(first, prev, next) && k in first && k in EdgeKeys(prev.edges)
    ensures k !in TakenDown(first, prev, next) <==>
      k in EdgeKeys(next.edges) && k !in Touching(first, RecreatedIds(prev, next))
  {
    if k in EdgeKeys(next.edges) && k !in Touching(first, RecreatedIds(prev, next)) {
      assert first[k] in next.edges;
    }
  }

  lemma KeysConverge(prev: GraphDef, next: GraphDef, first: map<string, Edge>, after: map<string, Edge>,
                     live: set<string>)
    requires WellFormedDef(next) && live == NodeIds(next.nodes) && EdgesApplied(prev, next, first, after, live)
    requires first.Keys <= EdgeKeys(prev.edges) && KeptEdgesStay(first, prev, next)
    ensures after.Keys == ExecutedAfter(first, prev, next)
  {
    AllWired(prev, next, live);
    forall k ensures k in after <==> k in ExecutedAfter(first, prev, next) {
      if k in first {
        KeptKeys(prev, next, first, k);
      }
    }
  }

  /**
   * An apply leaves edges of the next graph, namely the new ones and those executed before whose
   * nodes were not recreated: all of its edges, if all of the last one were executed and no node
   * is recreated.
   */
  lemma EdgesConverge(prev: GraphDef, next: GraphDef, first: map<string, Edge>, after: map<string, Edge>,
                      live: set<string>)
    requires WellFormedDef(next) && live == NodeIds(next.nodes) && EdgesApplied(prev, next, first, after, live)
    requires first.Keys <= EdgeKeys(prev.edges) && KeptEdgesStay(first, prev, next)
    ensures after.Values <= EdgeSet(next.edges) && after.Keys == ExecutedAfter(first, prev, next)
    ensures first.Keys == EdgeKeys(prev.edges) && !AnyRecreated(prev, next) ==> after.Keys == EdgeKeys(next.edges)
  {
    KeysConverge(prev, next, first, after, live);
    AllWired(prev, next, live);
    forall k | k in after ensures after[k] in next.edges {
      if k !in WiredKeys(prev, next, live) {
        KeptKeys(prev, next, first, k);
      }
    }
    NoneRecreated(prev, next, first);
  }

  lemma NoneRecreated(prev: GraphDef, next: GraphDef, first: map<string, Edge>)
    ensures first.Keys == EdgeKeys(prev.edges) && !AnyRecreated(prev, next) ==>
      ExecutedAfter(first, prev, next) == EdgeKeys(next.edges)
  {
  }

  /** It does so exactly when the executed edges of the next graph's keys, unless taken down, are its edges. */
  lemma EdgesConvergeExactly(prev: GraphDef, next: GraphDef, first: map<string, Edge>, after: map<string, Edge>,
                             live: set<string>)
    requires WellFormedDef(next) && live == NodeIds(next.nodes) && EdgesApplied(prev, next, first, after, live)
    requires first.Keys <= EdgeKeys(prev.edges)
    ensures FollowsGraph(prev, next, first, after) <==> KeptEdgesStay(first, prev, next)
  {
    if KeptEdgesStay(first, prev, next) {
      EdgesConverge(prev, next, first, after, live);
    } else {
      var k :| k in first && k in EdgeKeys(next.edges) && k !in Touching(first, RecreatedIds(prev, next))
               && first[k] !in next.edges;
      if after.Keys == ExecutedAfter(first, prev, next) {
        assert k in after && k !in WiredKeys(prev, next, live);
        assert after[k] in after.Values;
      }
    }
  }

  /** Executed keys of the last graph become executed keys of the next one, whatever the keys tell. */
  lemma KeysWithin(prev: GraphDef, next: GraphDef, first: map<string, Edge>, after: map<string, Edge>,
                   live: set<string>)
    ensures first.Keys <= EdgeKeys(prev.edges) && EdgesApplied(prev, next, first, after, live) ==>
      after.Keys <= EdgeKeys(next.edges)
  {
  }

  /** What a success means for nodes that matched the last graph. */
  lemma NodesThen(prev: GraphDef, next: GraphDef, was: map<string, LiveNode>, becomes: map<string, LiveNode>)
    ensures DistinctIds(next.nodes) && Matches(was, prev.nodes) && NodesApplied(prev, next, was, becomes) ==>
      Matches(becomes, next.nodes) && InstancesKept(was, becomes, RecreatedIds(prev, next))
  {
    if DistinctIds(next.nodes) && Matches(was, prev.nodes) && NodesApplied(prev, next, was, becomes) {
      NodesConverge(prev, next, was, becomes);
    }
  }

  /** And for edges, once the nodes match. */
  lemma EdgesThen(prev: GraphDef, next: GraphDef, nodes: map<string, LiveNode>, first: map<string, Edge>,
                  after: map<string, Edge>)
    ensures
      && Matches(nodes, next.nodes) && WellFormedDef(next) && first.Keys <= EdgeKeys(prev.edges)
      && EdgesApplied(prev, next, first, after, nodes.Keys)
      ==> (FollowsGraph(prev, next, first, after) <==> KeptEdgesStay(first, prev, next))
    ensures FollowsGraph(prev, next, first, after) ==>
      && after.Values <= EdgeSet(next.edges)
      && (first.Keys == EdgeKeys(prev.edges) && !AnyRecreated(prev, next) ==> after.Keys == EdgeKeys(next.edges))
  {
    if
      && Matches(nodes, next.nodes) && WellFormedDef(next) && first.Keys <= EdgeKeys(prev.edges)
      && EdgesApplied(prev, next, first, after, nodes.Keys)
    {
      EdgesConvergeExactly(prev, next, first, after, nodes.Keys);
    }
    NoneRecreated(prev, next, first);
  }
}
