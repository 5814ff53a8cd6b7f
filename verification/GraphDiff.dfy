/** The difference between two runtime graph definitions, and the keys edges are indexed by. */
module GraphDiff {
  import opened Wrappers
  import opened Collections
  import opened Text
  import opened GraphModel

  datatype NodeDef = NodeDef(id: string, template: string, config: Option<Payload>, state: Option<Payload>)

  datatype GraphDef = GraphDef(nodes: seq<NodeDef>, edges: seq<Edge>)

  const EMPTY_GRAPH := GraphDef([], [])

  datatype Diff = Diff(
    addedNodes: seq<NodeDef>, removedNodeIds: seq<string>,
    recreatedNodeIds: seq<string>, configUpdateNodeIds: seq<string>,
    addedEdges: seq<Edge>, removedEdges: seq<Edge>)

  // ---- edge keys ----

  function EdgeKey(e: Edge): string {
    e.source + ":" + e.sourceHandle + "->" + e.target + ":" + e.targetHandle
  }

  predicate HasArrow(s: string) {
    exists i :: 0 <= i < |s| - 1 && s[i] == '-' && s[i + 1] == '>'
  }

  /** Names that do not contain the separator that follows them in a key. */
  predicate KeySafe(e: Edge) {
    ':' !in e.source && !HasArrow(e.sourceHandle) && ':' !in e.target
  }

  lemma FirstArrow(a: string, b: string, x: string, y: string)
    requires !HasArrow(b)
    ensures |a| < |b| ==> a + "->" + x != b + "->" + y
  {
    var s, t := a + "->" + x, b + "->" + y;
    assert s[|a|] == '-' && s[|a| + 1] == '>';
    if |a| < |b| {
      assert t[|a|] == b[|a|];
      if |a| + 1 < |b| {
        assert t[|a| + 1] == b[|a| + 1];
      } else {
        assert t[|b|] == '-';
      }
    }
  }

  lemma SplitAt(a: string, b: string, separator: string, x: string, y: string)
    requires |a| == |b| && a + separator + x == b + separator + y
    ensures a == b && x == y
  {
    var s, t := a + separator + x, b + separator + y;
    assert a == s[..|a|] && b == t[..|b|] && x == s[|a| + |separator|..] && y == t[|b| + |separator|..];
  }

  /** Edges with safe names are told apart by their keys. */
  lemma EdgeKeyInjective(e: Edge, f: Edge)
    requires KeySafe(e) && KeySafe(f) && EdgeKey(e) == EdgeKey(f)
    ensures e == f
  {
    var e2, f2 := e.target + ":" + e.targetHandle, f.target + ":" + f.targetHandle;
    var e1, f1 := e.sourceHandle + "->" + e2, f.sourceHandle + "->" + f2;
    assert EdgeKey(e) == e.source + ":" + e1 && EdgeKey(f) == f.source + ":" + f1;
    FirstColon(e.source, f.source, e1, f1);
    FirstColon(f.source, e.source, f1, e1);
    SplitAt(e.source, f.source, ":", e1, f1);
    FirstArrow(e.sourceHandle, f.sourceHandle, e2, f2);
    FirstArrow(f.sourceHandle, e.sourceHandle, f2, e2);
    SplitAt(e.sourceHandle, f.sourceHandle, "->", e2, f2);
    FirstColon(e.target, f.target, e.targetHandle, f.targetHandle);
    FirstColon(f.target, e.target, f.targetHandle, e.targetHandle);
    SplitAt(e.target, f.target, ":", e.targetHandle, f.targetHandle);
  }

  /** The keys tell the edges of a set apart. */
  ghost predicate KeysTellApart(edges: set<Edge>) {
    forall e, f :: e in edges && f in edges && EdgeKey(e) == EdgeKey(f) ==> e == f
  }

  lemma SafeKeysTellApart(edges: set<Edge>)
    requires forall e :: e in edges ==> KeySafe(e)
    ensures KeysTellApart(edges)
  {
    forall e, f | e in edges && f in edges && EdgeKey(e) == EdgeKey(f) ensures e == f {
      EdgeKeyInjective(e, f);
    }
  }

  /** The position of the first colon at or after `from`; `at` is one. */
  function ColonAfter(s: string, from: nat, at: nat): (i: nat)
    requires from <= at < |s| && s[at] == ':'
    ensures from <= i <= at && s[i] == ':' && ':' !in s[from..i]
    decreases at - from
  {
    if s[from] == ':' then from
    else
      var i := ColonAfter(s, from + 1, at);
      assert s[from..i] == [s[from]] + s[from + 1..i];
      i
  }

  /** The position of the first arrow at or after `from`; `at` is one. */
  function ArrowAfter(s: string, from: nat, at: nat): (i: nat)
    requires from <= at < |s| - 1 && s[at] == '-' && s[at + 1] == '>'
    ensures from <= i <= at && s[i] == '-' && s[i + 1] == '>'
    ensures forall j :: from <= j < i ==> !(s[j] == '-' && s[j + 1] == '>')
    decreases at - from
  {
    if s[from] == '-' && s[from + 1] == '>' then from else ArrowAfter(s, from + 1, at)
  }

  /** Every key is the key of a safe edge: the one read off by splitting at the first separators. */
  lemma SafeEdgeOfKey(f: Edge) returns (e: Edge)
    ensures KeySafe(e) && EdgeKey(e) == EdgeKey(f)
  {
    var s := EdgeKey(f);
    var colon, arrow := |f.source|, |f.source| + 1 + |f.sourceHandle|;
    var last := arrow + 2 + |f.target|;
    assert s == f.source + ":" + f.sourceHandle + "->" + f.target + ":" + f.targetHandle;
    assert s[colon] == ':' && s[arrow] == '-' && s[arrow + 1] == '>' && s[last] == ':';
    var i := ColonAfter(s, 0, colon);
    var j := ArrowAfter(s, i + 1, arrow);
    var k := ColonAfter(s, j + 2, last);
    e := Edge(s[..i], s[i + 1..j], s[j + 2..k], s[k + 1..]);
    assert s[0..i] == s[..i];
    Reassemble(s, i, j, k);
  }

  lemma Reassemble(s: string, i: nat, j: nat, k: nat)
    requires i < j && j + 2 <= k < |s| && s[i] == ':' && s[j] == '-' && s[j + 1] == '>' && s[k] == ':'
    ensures s == s[..i] + ":" + s[i + 1..j] + "->" + s[j + 2..k] + ":" + s[k + 1..]
  {
  }

  /** The edges whose key is also the key of another, safe edge are exactly the unsafe ones. */
  lemma UnsafeKeysCollide(f: Edge)
    ensures !KeySafe(f) <==> exists e :: KeySafe(e) && e != f && EdgeKey(e) == EdgeKey(f)
  {
    if KeySafe(f) {
      forall e | KeySafe(e) && EdgeKey(e) == EdgeKey(f) ensures e == f {
        EdgeKeyInjective(e, f);
      }
    } else {
      var e := SafeEdgeOfKey(f);
    }
  }

  /** Two different edges of one key. */
  lemma EdgeKeysCollide() returns (e: Edge, f: Edge)
    ensures e == Edge("a", "b:c", "d", "e") && f == Edge("a:b", "c", "d", "e")
    ensures e != f && EdgeKey(e) == EdgeKey(f)
  {
    e, f := Edge("a", "b:c", "d", "e"), Edge("a:b", "c", "d", "e");
    assert EdgeKey(e) == "a:b:c->d:e" == EdgeKey(f);
  }

  // ---- graphs as maps ----

  /** new Map of the nodes by id: a later definition replaces an earlier one. */
  function NodeMap(nodes: seq<NodeDef>): map<string, NodeDef> {
    if nodes == [] then map[]
    else var n := nodes[|nodes| - 1]; NodeMap(nodes[..|nodes| - 1])[n.id := n]
  }

  function EdgeMap(edges: seq<Edge>): map<string, Edge> {
    if edges == [] then map[]
    else var e := edges[|edges| - 1]; EdgeMap(edges[..|edges| - 1])[EdgeKey(e) := e]
  }

  function EdgeKeys(edges: seq<Edge>): set<string> {
    set e | e in edges :: EdgeKey(e)
  }

  function NodeIds(nodes: seq<NodeDef>): set<string> {
    set n | n in nodes :: n.id
  }

  function ConfigOf(n: NodeDef): Payload {
    n.config.GetOr("{}")
  }

  lemma {:induction false} NodeMapDefines(nodes: seq<NodeDef>)
    ensures NodeMap(nodes).Keys == NodeIds(nodes)
    ensures forall id :: id in NodeMap(nodes) ==> NodeMap(nodes)[id] in nodes && NodeMap(nodes)[id].id == id
  {
    if nodes != [] {
      NodeMapDefines(nodes[..|nodes| - 1]);
      assert nodes == nodes[..|nodes| - 1] + [nodes[|nodes| - 1]];
      assert NodeIds(nodes) == NodeIds(nodes[..|nodes| - 1]) + {nodes[|nodes| - 1].id};
    }
  }

  lemma {:induction false} EdgeMapDefines(edges: seq<Edge>)
    ensures EdgeMap(edges).Keys == EdgeKeys(edges)
    ensures forall k :: k in EdgeMap(edges) ==> EdgeMap(edges)[k] in edges && EdgeKey(EdgeMap(edges)[k]) == k
  {
    if edges != [] {
      EdgeMapDefines(edges[..|edges| - 1]);
      assert edges == edges[..|edges| - 1] + [edges[|edges| - 1]];
      assert EdgeKeys(edges) == EdgeKeys(edges[..|edges| - 1]) + {EdgeKey(edges[|edges| - 1])};
    }
  }

  ghost predicate DistinctIds(nodes: seq<NodeDef>) {
    forall i, j :: 0 <= i < j < |nodes| ==> nodes[i].id != nodes[j].id
  }

  ghost predicate WellFormedDef(g: GraphDef) {
    && DistinctIds(g.nodes)
    && forall e :: e in g.edges ==> e.source in NodeIds(g.nodes) && e.target in NodeIds(g.nodes)
  }

  lemma DistinctLookup(nodes: seq<NodeDef>, n: NodeDef)
    requires DistinctIds(nodes) && n in nodes
    ensures n.id in NodeMap(nodes) && NodeMap(nodes)[n.id] == n
  {
    NodeMapDefines(nodes);
  }

  // ---- the diff ----

  predicate Recreated(prev: map<string, NodeDef>, n: NodeDef) {
    n.id in prev && prev[n.id].template != n.template
  }

  predicate Reconfigured(prev: map<string, NodeDef>, n: NodeDef) {
    n.id in prev && prev[n.id].template == n.template && ConfigOf(prev[n.id]) != ConfigOf(n)
  }

  ghost predicate NodesDiffer(prev: seq<NodeDef>, next: seq<NodeDef>, d: Diff) {
    var was := NodeMap(prev);
    && (forall n :: n in d.addedNodes <==> n in next && n.id !in was)
    && (forall id :: id in d.recreatedNodeIds <==> exists n :: n in next && n.id == id && Recreated(was, n))
    && (forall id :: id in d.configUpdateNodeIds <==> exists n :: n in next && n.id == id && Reconfigured(was, n))
    && (forall id :: id in d.removedNodeIds <==> id in was && id !in NodeIds(next))
  }

  ghost predicate DistinctKeys(edges: seq<Edge>) {
    forall i, j :: 0 <= i < j < |edges| ==> EdgeKey(edges[i]) != EdgeKey(edges[j])
  }

  ghost predicate EdgesDiffer(from: seq<Edge>, to: seq<Edge>, added: seq<Edge>) {
    && (forall e :: e in added ==> e in to && EdgeKey(e) in EdgeMap(to) && EdgeMap(to)[EdgeKey(e)] == e)
    && EdgeKeys(added) == EdgeKeys(to) - EdgeKeys(from)
    && DistinctKeys(added)
  }

  ghost predicate IsDiff(prev: GraphDef, next: GraphDef, d: Diff) {
    && NodesDiffer(prev.nodes, next.nodes, d)
    && EdgesDiffer(prev.edges, next.edges, d.addedEdges)
    && EdgesDiffer(next.edges, prev.edges, d.removedEdges)
  }

  method BuildNodeMap(nodes: seq<NodeDef>) returns (m: map<string, NodeDef>)
    ensures m == NodeMap(nodes)
  {
    m := map[];
    for i := 0 to |nodes|
      invariant m == NodeMap(nodes[..i])
    {
      assert nodes[..i + 1][..i] == nodes[..i];
      m := m[nodes[i].id := nodes[i]];
    }
    assert nodes[..|nodes|] == nodes;
  }

  method BuildEdgeMap(edges: seq<Edge>) returns (m: map<string, Edge>)
    ensures m == EdgeMap(edges)
  {
    m := map[];
    for i := 0 to |edges|
      invariant m == EdgeMap(edges[..i])
    {
      assert edges[..i + 1][..i] == edges[..i];
      m := m[EdgeKey(edges[i]) := edges[i]];
    }
    assert edges[..|edges|] == edges;
  }

  /** The first i definitions of next have been sorted into added, recreated and updated. */
  ghost predicate Classified(was: map<string, NodeDef>, next: seq<NodeDef>, i: nat, added: seq<NodeDef>,
                             recreated: seq<string>, updated: seq<string>)
    requires i <= |next|
  {
    && (forall n :: n in added ==> n in next && n.id !in was)
    && (forall id :: id in recreated ==> exists k :: 0 <= k < |next| && next[k].id == id && Recreated(was, next[k]))
    && (forall id :: id in updated ==> exists k :: 0 <= k < |next| && next[k].id == id && Reconfigured(was, next[k]))
    && (forall k :: 0 <= k < i && next[k].id !in was ==> next[k] in added)
    && (forall k :: 0 <= k < i && Recreated(was, next[k]) ==> next[k].id in recreated)
    && (forall k :: 0 <= k < i && Reconfigured(was, next[k]) ==> next[k].id in updated)
  }

  lemma ClassifiedAll(prev: seq<NodeDef>, next: seq<NodeDef>, d: Diff)
    requires Classified(NodeMap(prev), next, |next|, d.addedNodes, d.recreatedNodeIds, d.configUpdateNodeIds)
    requires forall id :: id in d.removedNodeIds <==> id in NodeMap(prev) && id !in NodeIds(next)
    ensures NodesDiffer(prev, next, d)
  {
  }

  method ClassifyNodes(was: map<string, NodeDef>, next: seq<NodeDef>)
    returns (added: seq<NodeDef>, recreated: seq<string>, updated: seq<string>)
    ensures Classified(was, next, |next|, added, recreated, updated)
  {
    added, recreated, updated := [], [], [];
    for i := 0 to |next|
      invariant Classified(was, next, i, added, recreated, updated)
    {
      var n := next[i];
      if n.id !in was {
        added := added + [n];
      } else if was[n.id].template != n.template {
        recreated := recreated + [n.id];
        assert Recreated(was, next[i]);
      } else if ConfigOf(was[n.id]) != ConfigOf(n) {
        updated := updated + [n.id];
        assert Reconfigured(was, next[i]);
      }
    }
  }

  method DiffNodes(prev: seq<NodeDef>, next: seq<NodeDef>) returns (d: Diff)
    ensures NodesDiffer(prev, next, d)
  {
    var prevNodes := BuildNodeMap(prev);
    var nextNodes := BuildNodeMap(next);
    NodeMapDefines(next);
    var added, recreated, updated := ClassifyNodes(prevNodes, next);
    var removed := MissingNodes(prev, nextNodes);
    d := Diff(added, removed, recreated, updated, [], []);
    NodeMapDefines(prev);
    ClassifiedAll(prev, next, d);
  }

  /** The ids of prev that next does not have. */
  method MissingNodes(prev: seq<NodeDef>, nextNodes: map<string, NodeDef>) returns (removed: seq<string>)
    ensures forall id :: id in removed <==> id in NodeIds(prev) && id !in nextNodes
  {
    removed := [];
    for i := 0 to |prev|
      invariant forall id :: id in removed ==> id in NodeIds(prev) && id !in nextNodes
      invariant forall k :: 0 <= k < i && prev[k].id !in nextNodes ==> prev[k].id in removed
    {
      if prev[i].id !in nextNodes {
        assert prev[i] in prev;
        removed := removed + [prev[i].id];
      }
    }
  }

  /** The entries of `to` (by key, in order of first appearance) whose key `from` lacks. */
  method DiffEdges(from: seq<Edge>, to: seq<Edge>) returns (added: seq<Edge>)
    ensures EdgesDiffer(from, to, added)
  {
    var fromMap := BuildEdgeMap(from);
    var toMap := BuildEdgeMap(to);
    EdgeMapDefines(from);
    EdgeMapDefines(to);
    added := [];
    var seen := {};
    for i := 0 to |to|
      invariant seen == EdgeKeys(to[..i])
      invariant EdgeKeys(added) == seen - fromMap.Keys && DistinctKeys(added)
      invariant forall e :: e in added ==> e in to && EdgeKey(e) in toMap && toMap[EdgeKey(e)] == e
    {
      var key := EdgeKey(to[i]);
      assert to[i] in to && key in EdgeKeys(to);
      KeysUpTo(to, i);
      if key !in seen && key !in fromMap {
        AppendDistinct(added, toMap[key]);
        added := added + [toMap[key]];
      }
      seen := seen + {key};
    }
    assert to[..|to|] == to;
  }

  lemma AppendDistinct(edges: seq<Edge>, e: Edge)
    requires DistinctKeys(edges) && EdgeKey(e) !in EdgeKeys(edges)
    ensures DistinctKeys(edges + [e]) && EdgeKeys(edges + [e]) == EdgeKeys(edges) + {EdgeKey(e)}
  {
    forall k | 0 <= k < |edges| ensures EdgeKey(edges[k]) != EdgeKey(e) {
      assert EdgeKey(edges[k]) in EdgeKeys(edges);
    }
  }

  lemma KeysAppend(edges: seq<Edge>, e: Edge)
    ensures EdgeKeys(edges + [e]) == EdgeKeys(edges) + {EdgeKey(e)}
  {
  }

  lemma KeysUpTo(edges: seq<Edge>, i: nat)
    requires i < |edges|
    ensures EdgeKeys(edges[..i + 1]) == EdgeKeys(edges[..i]) + {EdgeKey(edges[i])}
  {
    assert edges[..i + 1] == edges[..i] + [edges[i]];
    KeysAppend(edges[..i], edges[i]);
  }

  method ComputeDiff(prev: GraphDef, next: GraphDef) returns (d: Diff)
    ensures IsDiff(prev, next, d)
  {
    d := DiffNodes(prev.nodes, next.nodes);
    var addedEdges := DiffEdges(prev.edges, next.edges);
    var removedEdges := DiffEdges(next.edges, prev.edges);
    d := d.(addedEdges := addedEdges, removedEdges := removedEdges);
  }

  // ---- the diff is a patch ----

  /** What the runtime compares of a node. */
  datatype View = View(template: string, config: Payload)

  function Views(nodes: seq<NodeDef>): map<string, View> {
    map id | id in NodeMap(nodes) :: View(NodeMap(nodes)[id].template, ConfigOf(NodeMap(nodes)[id]))
  }

  /** prev's nodes with the diff applied; new contents are looked up in next, as the runtime does. */
  ghost function PatchNodes(prev: seq<NodeDef>, next: seq<NodeDef>, d: Diff): map<string, View> {
    var was, becomes := Views(prev), Views(next);
    var kept := map id | id in was && id !in d.removedNodeIds ::
      if id in d.recreatedNodeIds && id in becomes then becomes[id]
      else if id in d.configUpdateNodeIds && id in becomes then was[id].(config := becomes[id].config)
      else was[id];
    kept + Views(d.addedNodes)
  }

  lemma PatchedIds(prev: seq<NodeDef>, next: seq<NodeDef>, d: Diff)
    requires NodesDiffer(prev, next, d)
    ensures PatchNodes(prev, next, d).Keys == Views(next).Keys
  {
    NodeMapDefines(prev);
    NodeMapDefines(next);
    NodeMapDefines(d.addedNodes);
    assert Views(d.addedNodes).Keys == NodeIds(d.addedNodes);
    forall id | id in Views(next) ensures id in PatchNodes(prev, next, d) {
      if id !in NodeMap(prev) {
        assert NodeMap(next)[id] in d.addedNodes;
      }
    }
  }

  lemma PatchedNew(prev: seq<NodeDef>, next: seq<NodeDef>, d: Diff, n: NodeDef)
    requires NodesDiffer(prev, next, d) && DistinctIds(next) && n in next && n.id !in NodeMap(prev)
    ensures n.id in PatchNodes(prev, next, d) && n.id in Views(next)
    ensures PatchNodes(prev, next, d)[n.id] == Views(next)[n.id]
  {
    DistinctLookup(next, n);
    AddedLookup(d.addedNodes, next, n);
  }

  lemma PatchedKept(prev: seq<NodeDef>, next: seq<NodeDef>, d: Diff, n: NodeDef)
    requires NodesDiffer(prev, next, d) && DistinctIds(next) && n in next && n.id in NodeMap(prev)
    ensures n.id in PatchNodes(prev, next, d) && n.id in Views(next)
    ensures PatchNodes(prev, next, d)[n.id] == Views(next)[n.id]
  {
    DistinctLookup(next, n);
    NodeMapDefines(next);
    NodeMapDefines(d.addedNodes);
    assert n.id !in Views(d.addedNodes);
    OnlyOne(next, n);
    var was := NodeMap(prev);
    assert n.id in d.recreatedNodeIds <==> Recreated(was, n);
    assert n.id in d.configUpdateNodeIds <==> Reconfigured(was, n);
  }

  lemma OnlyOne(nodes: seq<NodeDef>, n: NodeDef)
    requires DistinctIds(nodes) && n in nodes
    ensures forall m :: m in nodes && m.id == n.id ==> m == n
  {
    forall m | m in nodes && m.id == n.id ensures m == n {
      DistinctLookup(nodes, m);
      DistinctLookup(nodes, n);
    }
  }

  /** Patching prev by the diff gives next: the same ids, templates, configs and edge keys. */
  lemma DiffIsPatch(prev: GraphDef, next: GraphDef, d: Diff)
    requires IsDiff(prev, next, d) && DistinctIds(next.nodes)
    ensures PatchNodes(prev.nodes, next.nodes, d) == Views(next.nodes)
    ensures EdgeKeys(prev.edges) - EdgeKeys(d.removedEdges) + EdgeKeys(d.addedEdges) == EdgeKeys(next.edges)
  {
    NodesPatched(prev.nodes, next.nodes, d);
  }

  lemma NodesPatched(prev: seq<NodeDef>, next: seq<NodeDef>, d: Diff)
    requires NodesDiffer(prev, next, d) && DistinctIds(next)
    ensures PatchNodes(prev, next, d) == Views(next)
  {
    PatchedIds(prev, next, d);
    NodeMapDefines(next);
    forall id | id in Views(next) ensures PatchNodes(prev, next, d)[id] == Views(next)[id] {
      var n := NodeMap(next)[id];
      if id in NodeMap(prev) {
        PatchedKept(prev, next, d, n);
      } else {
        PatchedNew(prev, next, d, n);
      }
    }
  }

  lemma AddedLookup(added: seq<NodeDef>, next: seq<NodeDef>, n: NodeDef)
    requires DistinctIds(next) && n in added && forall m :: m in added ==> m in next
    ensures n.id in NodeMap(added) && NodeMap(added)[n.id] == n
  {
    NodeMapDefines(added);
    DistinctLookup(next, n);
    DistinctLookup(next, NodeMap(added)[n.id]);
  }

  /** A graph differs from itself in nothing. */
  lemma SelfDiffEmpty(g: GraphDef, d: Diff)
    requires DistinctIds(g.nodes) && IsDiff(g, g, d)
    ensures d == Diff([], [], [], [], [], [])
  {
    NodeMapDefines(g.nodes);
    forall n | n in g.nodes ensures NodeMap(g.nodes)[n.id] == n {
      DistinctLookup(g.nodes, n);
    }
    forall e | e in d.addedEdges ensures EdgeKey(e) in EdgeKeys(d.addedEdges) {
    }
    forall e | e in d.removedEdges ensures EdgeKey(e) in EdgeKeys(d.removedEdges) {
    }
    NoElements(d.addedNodes);
    NoElements(d.recreatedNodeIds);
    NoElements(d.configUpdateNodeIds);
    NoElements(d.removedNodeIds);
    NoElements(d.addedEdges);
    NoElements(d.removedEdges);
  }
}
