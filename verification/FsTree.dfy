/**
 * A graph as a directory tree: one file per node and per edge, a variables file and a meta
 * file. Each write is one step; YAML is the identity on values.
 */
module FsTree {
  import opened Wrappers
  import opened GraphModel
  import opened Text
  import UriComponent

  datatype Meta = Meta(name: string, version: int, updatedAt: int)

  datatype Tree = Tree(
    meta: Option<Meta>,
    nodes: Option<map<string, Node>>,
    edges: Option<map<string, StoredEdge>>,
    variables: Option<seq<Variable>>)

  const EMPTY_TREE := Tree(None, None, None, None)

  const SUFFIX := ".yaml"

  function FileName(id: string): string {
    UriComponent.Encode(id) + SUFFIX
  }

  lemma FileNameInjective(a: string, b: string)
    requires FileName(a) == FileName(b)
    ensures a == b
  {
    assert UriComponent.Encode(a) == FileName(a)[..|FileName(a)| - |SUFFIX|];
    UriComponent.EncodeInjective(a, b);
  }

  // ---- writing ----

  datatype Write =
    | MakeNodesDir
    | MakeEdgesDir
    | ClearNodesDir
    | ClearEdgesDir
    | WriteNode(node: Node)
    | WriteEdge(edge: StoredEdge)
    | WriteVariables(variables: seq<Variable>)
    | WriteMeta(meta: Meta)

  function ApplyWrite(t: Tree, w: Write): Tree {
    match w
    case MakeNodesDir => t.(nodes := Some(t.nodes.GetOr(map[])))
    case MakeEdgesDir => t.(edges := Some(t.edges.GetOr(map[])))
    case ClearNodesDir => t.(nodes := Some(map[]))
    case ClearEdgesDir => t.(edges := Some(map[]))
    case WriteNode(n) => t.(nodes := Some(t.nodes.GetOr(map[])[FileName(n.id) := n]))
    case WriteEdge(e) => t.(edges := Some(t.edges.GetOr(map[])[FileName(e.id) := e]))
    case WriteVariables(vs) => t.(variables := Some(vs))
    case WriteMeta(m) => t.(meta := Some(m))
  }

  function ApplyWrites(t: Tree, ws: seq<Write>): Tree
    decreases ws
  {
    if ws == [] then t else ApplyWrites(ApplyWrite(t, ws[0]), ws[1..])
  }

  function MetaOf(g: Graph): Meta {
    Meta(g.name, g.version, g.updatedAt)
  }

  function NodeWrites(nodes: seq<Node>): seq<Write> {
    seq(|nodes|, i requires 0 <= i < |nodes| => WriteNode(nodes[i]))
  }

  function EdgeWrites(edges: seq<StoredEdge>): seq<Write> {
    seq(|edges|, i requires 0 <= i < |edges| => WriteEdge(edges[i]))
  }

  /** The writes of a whole graph, in the order the store performs them. */
  function BodyWrites(g: Graph): seq<Write> {
    NodeWrites(g.nodes) + EdgeWrites(g.edges)
    + [WriteVariables(g.variables.GetOr([])), WriteMeta(MetaOf(g))]
  }

  function StagingWrites(g: Graph): seq<Write> {
    [MakeNodesDir, MakeEdgesDir] + BodyWrites(g)
  }

  function RestoreWrites(g: Graph): seq<Write> {
    [ClearNodesDir, ClearEdgesDir] + BodyWrites(g)
  }

  /** The tree a completed staging leaves. */
  function Build(g: Graph): Tree {
    ApplyWrites(EMPTY_TREE, StagingWrites(g))
  }

  function NodeFiles(nodes: seq<Node>): map<string, Node> {
    if nodes == [] then map[]
    else var n := nodes[|nodes| - 1]; NodeFiles(nodes[..|nodes| - 1])[FileName(n.id) := n]
  }

  function EdgeFiles(edges: seq<StoredEdge>): map<string, StoredEdge> {
    if edges == [] then map[]
    else var e := edges[|edges| - 1]; EdgeFiles(edges[..|edges| - 1])[FileName(e.id) := e]
  }

  lemma {:induction false} ApplyAppend(t: Tree, a: seq<Write>, b: seq<Write>)
    ensures ApplyWrites(t, a + b) == ApplyWrites(ApplyWrites(t, a), b)
    decreases a
  {
    if a == [] {
      assert a + b == b;
    } else {
      assert (a + b)[1..] == a[1..] + b;
      ApplyAppend(ApplyWrite(t, a[0]), a[1..], b);
    }
  }

  lemma ApplySnoc(t: Tree, a: seq<Write>, w: Write)
    ensures ApplyWrites(t, a + [w]) == ApplyWrite(ApplyWrites(t, a), w)
  {
    ApplyAppend(t, a, [w]);
    assert ApplyWrites(ApplyWrites(t, a), [w]) == ApplyWrite(ApplyWrites(t, a), w);
  }

  lemma {:induction false} ApplyNodes(t: Tree, nodes: seq<Node>)
    requires t.nodes == Some(map[])
    ensures ApplyWrites(t, NodeWrites(nodes)) == t.(nodes := Some(NodeFiles(nodes)))
  {
    if nodes != [] {
      var init, last := nodes[..|nodes| - 1], nodes[|nodes| - 1];
      ApplyNodes(t, init);
      ApplySnoc(t, NodeWrites(init), WriteNode(last));
      assert NodeWrites(nodes) == NodeWrites(init) + [WriteNode(last)];
    }
  }

  lemma {:induction false} ApplyEdges(t: Tree, edges: seq<StoredEdge>)
    requires t.edges == Some(map[])
    ensures ApplyWrites(t, EdgeWrites(edges)) == t.(edges := Some(EdgeFiles(edges)))
  {
    if edges != [] {
      var init, last := edges[..|edges| - 1], edges[|edges| - 1];
      ApplyEdges(t, init);
      ApplySnoc(t, EdgeWrites(init), WriteEdge(last));
      assert EdgeWrites(edges) == EdgeWrites(init) + [WriteEdge(last)];
    }
  }

  lemma ApplyBody(t: Tree, g: Graph)
    requires t.nodes == Some(map[]) && t.edges == Some(map[])
    ensures ApplyWrites(t, BodyWrites(g))
            == Tree(Some(MetaOf(g)), Some(NodeFiles(g.nodes)), Some(EdgeFiles(g.edges)), Some(g.variables.GetOr([])))
  {
    var ns, es := NodeWrites(g.nodes), EdgeWrites(g.edges);
    var v, m := WriteVariables(g.variables.GetOr([])), WriteMeta(MetaOf(g));
    assert BodyWrites(g) == ns + es + [v] + [m];
    ApplySnoc(t, ns + es + [v], m);
    ApplySnoc(t, ns + es, v);
    ApplyAppend(t, ns, es);
    ApplyNodes(t, g.nodes);
    ApplyEdges(t.(nodes := Some(NodeFiles(g.nodes))), g.edges);
  }

  lemma TwoThenBody(t: Tree, a: Write, b: Write, g: Graph)
    ensures ApplyWrites(t, [a, b] + BodyWrites(g)) == ApplyWrites(ApplyWrite(ApplyWrite(t, a), b), BodyWrites(g))
  {
    ApplyAppend(t, [a, b], BodyWrites(g));
    assert [a, b][1..] == [b] && [b][1..] == [];
  }

  /** What staging writes: a file per node and per edge, the variables and the meta record. */
  lemma BuildContents(g: Graph)
    ensures Build(g) ==
      Tree(Some(MetaOf(g)), Some(NodeFiles(g.nodes)), Some(EdgeFiles(g.edges)), Some(g.variables.GetOr([])))
  {
    TwoThenBody(EMPTY_TREE, MakeNodesDir, MakeEdgesDir, g);
    ApplyBody(ApplyWrite(ApplyWrite(EMPTY_TREE, MakeNodesDir), MakeEdgesDir), g);
  }

  /** Restoring from memory gives the tree staging would give, whatever was in the directory before. */
  lemma RestoreRebuilds(t: Tree, g: Graph)
    ensures ApplyWrites(t, RestoreWrites(g)) == Build(g)
  {
    TwoThenBody(t, ClearNodesDir, ClearEdgesDir, g);
    ApplyBody(ApplyWrite(ApplyWrite(t, ClearNodesDir), ClearEdgesDir), g);
    BuildContents(g);
  }

  lemma {:induction false} NodeFilesNamed(nodes: seq<Node>)
    ensures forall i :: 0 <= i < |nodes| ==> FileName(nodes[i].id) in NodeFiles(nodes)
    ensures forall f :: f in NodeFiles(nodes) ==> f == FileName(NodeFiles(nodes)[f].id) && NodeFiles(nodes)[f] in nodes
  {
    if nodes != [] {
      NodeFilesNamed(nodes[..|nodes| - 1]);
      forall i | 0 <= i < |nodes| ensures FileName(nodes[i].id) in NodeFiles(nodes) {
        if i < |nodes| - 1 {
          assert nodes[i] == nodes[..|nodes| - 1][i];
        }
      }
    }
  }

  /** A file holds the last node written to it. */
  lemma {:induction false} NodeFileAt(nodes: seq<Node>, i: nat)
    requires i < |nodes| && forall j :: i < j < |nodes| ==> nodes[j].id != nodes[i].id
    ensures FileName(nodes[i].id) in NodeFiles(nodes) && NodeFiles(nodes)[FileName(nodes[i].id)] == nodes[i]
  {
    if i < |nodes| - 1 {
      var init, last := nodes[..|nodes| - 1], nodes[|nodes| - 1];
      assert init[i] == nodes[i];
      NodeFileAt(init, i);
      if FileName(init[i].id) == FileName(last.id) {
        FileNameInjective(init[i].id, last.id);
      }
    }
  }

  lemma {:induction false} EdgeFilesNamed(edges: seq<StoredEdge>)
    ensures forall i :: 0 <= i < |edges| ==> FileName(edges[i].id) in EdgeFiles(edges)
    ensures forall f :: f in EdgeFiles(edges) ==> f == FileName(EdgeFiles(edges)[f].id) && EdgeFiles(edges)[f] in edges
  {
    if edges != [] {
      EdgeFilesNamed(edges[..|edges| - 1]);
      forall i | 0 <= i < |edges| ensures FileName(edges[i].id) in EdgeFiles(edges) {
        if i < |edges| - 1 {
          assert edges[i] == edges[..|edges| - 1][i];
        }
      }
    }
  }

  /** A file holds the last edge written to it. */
  lemma {:induction false} EdgeFileAt(edges: seq<StoredEdge>, i: nat)
    requires i < |edges| && forall j :: i < j < |edges| ==> edges[j].id != edges[i].id
    ensures FileName(edges[i].id) in EdgeFiles(edges) && EdgeFiles(edges)[FileName(edges[i].id)] == edges[i]
  {
    if i < |edges| - 1 {
      var init, last := edges[..|edges| - 1], edges[|edges| - 1];
      assert init[i] == edges[i];
      EdgeFileAt(init, i);
      if FileName(init[i].id) == FileName(last.id) {
        FileNameInjective(init[i].id, last.id);
      }
    }
  }

  // ---- reading ----

  /** The `.yaml`-less file name, decoded; None when decoding throws. */
  function FallbackId(file: string): Option<string> {
    if |file| < |SUFFIX| then None else UriComponent.Decode(file[..|file| - |SUFFIX|])
  }

  function ReadNode(file: string, n: Node): Option<Node> {
    match FallbackId(file)
    case None => None
    case Some(fallback) => Some(n.(id := if n.id != "" then n.id else fallback))
  }

  function ReadEdge(file: string, e: StoredEdge): Option<StoredEdge> {
    match FallbackId(file)
    case None => None
    case Some(fallback) => Some(e.(id := if e.id != "" then e.id else fallback))
  }

  function KeyedVariables(vs: seq<Variable>): seq<Variable> {
    if vs == [] then [] else (if vs[0].key == "" then [] else [vs[0]]) + KeyedVariables(vs[1..])
  }

  function NormalizeVariables(vs: seq<Variable>): Option<seq<Variable>> {
    var out := KeyedVariables(vs);
    if out == [] then None else Some(out)
  }

  lemma {:induction false} KeyedAll(vs: seq<Variable>)
    requires VariablesWellFormed(vs)
    ensures KeyedVariables(vs) == vs
  {
    if vs != [] {
      assert Trim(vs[0].key) != "" && Trim("") == "";
      KeyedAll(vs[1..]);
    }
  }

  function ReadVariables(t: Tree): Option<seq<Variable>> {
    if t.variables.Some? then NormalizeVariables(t.variables.value) else None
  }

  /** A directory listing: every file once, in some order. */
  ghost predicate Enumerates<V>(files: seq<string>, dir: map<string, V>) {
    && (forall f :: f in files <==> f in dir)
    && (forall i, j :: 0 <= i < j < |files| ==> files[i] != files[j])
  }

  function Contents<V>(files: seq<string>, dir: map<string, V>): (r: seq<V>)
    requires forall f :: f in files ==> f in dir
    ensures |r| == |files|
  {
    seq(|files|, i requires 0 <= i < |files| => dir[files[i]])
  }

  /** g is what reading t undisturbed returns, the directories being listed as `nodeFiles` and `edgeFiles`. */
  ghost predicate ReadsAs(t: Tree, nodeFiles: seq<string>, edgeFiles: seq<string>, g: Graph) {
    && t.meta.Some? && MetaOf(g) == t.meta.value
    && Enumerates(nodeFiles, t.nodes.GetOr(map[])) && g.nodes == Contents(nodeFiles, t.nodes.GetOr(map[]))
    && Enumerates(edgeFiles, t.edges.GetOr(map[])) && g.edges == Contents(edgeFiles, t.edges.GetOr(map[]))
    && g.variables == ReadVariables(t)
  }

  ghost predicate Reads(t: Tree, g: Graph) {
    exists nodeFiles, edgeFiles :: ReadsAs(t, nodeFiles, edgeFiles, g)
  }

  // ---- well-formed trees ----

  ghost predicate EdgeFileOk(f: string, e: StoredEdge, nodes: map<string, Node>, schema: Schema) {
    && f == FileName(e.id) && e.id == EdgeId(e.edge)
    && FileName(e.edge.source) in nodes && FileName(e.edge.target) in nodes
    && nodes[FileName(e.edge.source)].template in schema && nodes[FileName(e.edge.target)].template in schema
    && e.edge.sourceHandle in schema[nodes[FileName(e.edge.source)].template].sourcePorts
    && e.edge.targetHandle in schema[nodes[FileName(e.edge.target)].template].targetPorts
  }

  /** A complete tree whose files are named after their records and whose graph passes the validator. */
  ghost predicate ValidTree(t: Tree, schema: Schema) {
    && t.meta.Some? && t.meta.value.version >= 0
    && t.nodes.Some?
    && (forall f :: f in t.nodes.value ==>
          f == FileName(t.nodes.value[f].id) && t.nodes.value[f].id != "" && t.nodes.value[f].template in schema)
    && t.edges.Some?
    && (forall f :: f in t.edges.value ==> EdgeFileOk(f, t.edges.value[f], t.nodes.value, schema))
    && (t.variables.Some? ==> VariablesWellFormed(t.variables.value))
  }

  lemma EdgeIdNonEmpty(e: Edge)
    ensures EdgeId(e) != ""
  {
  }

  /** Records of a valid tree are read back as they stand: no file name fails to decode. */
  lemma ReadBack(id: string)
    ensures FallbackId(FileName(id)) == Some(id)
  {
    var file := FileName(id);
    assert file[..|file| - |SUFFIX|] == UriComponent.Encode(id);
    UriComponent.DecodeEncode(id);
  }

  lemma NodeReadBack(t: Tree, f: string, schema: Schema)
    requires ValidTree(t, schema) && f in t.nodes.value
    ensures ReadNode(f, t.nodes.value[f]) == Some(t.nodes.value[f])
  {
    ReadBack(t.nodes.value[f].id);
  }

  lemma EdgeReadBack(t: Tree, f: string, schema: Schema)
    requires ValidTree(t, schema) && f in t.edges.value
    ensures ReadEdge(f, t.edges.value[f]) == Some(t.edges.value[f])
  {
    var e := t.edges.value[f];
    assert EdgeFileOk(f, e, t.nodes.value, schema);
    ReadBack(e.id);
    EdgeIdNonEmpty(e.edge);
  }

  lemma BuildValid(g: Graph, schema: Schema)
    requires ValidGraph(g, schema) && g.version >= 0
    ensures ValidTree(Build(g), schema)
  {
    BuildContents(g);
    NodeFilesNamed(g.nodes);
    EdgeFilesNamed(g.edges);
    var edges := EdgeFiles(g.edges);
    forall f | f in edges ensures EdgeFileOk(f, edges[f], NodeFiles(g.nodes), schema) {
      var k :| 0 <= k < |g.edges| && g.edges[k] == edges[f];
      EndpointsWritten(g, k, schema);
    }
    assert VariablesWellFormed([]);
  }

  lemma EndpointsWritten(g: Graph, k: nat, schema: Schema)
    requires ValidGraph(g, schema) && k < |g.edges|
    ensures EdgeFileOk(FileName(g.edges[k].id), g.edges[k], NodeFiles(g.nodes), schema)
  {
    var e := Edges(g.edges)[k];
    var i :| 0 <= i < |g.nodes| && g.nodes[i].id == e.source && g.nodes[i].template in schema
             && e.sourceHandle in schema[g.nodes[i].template].sourcePorts;
    var j :| 0 <= j < |g.nodes| && g.nodes[j].id == e.target && g.nodes[j].template in schema
             && e.targetHandle in schema[g.nodes[j].template].targetPorts;
    NodeFileAt(g.nodes, i);
    NodeFileAt(g.nodes, j);
  }

  /** What is read from a valid tree passes the validator and carries deterministic edge ids. */
  lemma ReadValid(t: Tree, nodeFiles: seq<string>, edgeFiles: seq<string>, g: Graph, schema: Schema)
    requires ValidTree(t, schema) && ReadsAs(t, nodeFiles, edgeFiles, g)
    ensures ValidGraph(g, schema)
  {
    var nodes := t.nodes.value;
    forall i, j | 0 <= i < j < |g.nodes| ensures g.nodes[i].id != g.nodes[j].id {
      assert nodeFiles[i] != nodeFiles[j];
      assert nodeFiles[i] == FileName(g.nodes[i].id) && nodeFiles[j] == FileName(g.nodes[j].id);
    }
    assert NodesWellFormed(g.nodes, schema);
    forall k | 0 <= k < |g.edges|
      ensures SourceExists(g.edges[k].edge, g.nodes, schema) && TargetExists(g.edges[k].edge, g.nodes, schema)
      ensures g.edges[k].id == EdgeId(g.edges[k].edge)
    {
      assert edgeFiles[k] in t.edges.value && EdgeFileOk(edgeFiles[k], g.edges[k], nodes, schema);
      NodeListed(t, nodeFiles, g.edges[k].edge.source, schema);
      NodeListed(t, nodeFiles, g.edges[k].edge.target, schema);
    }
    if t.variables.Some? {
      KeyedAll(t.variables.value);
    }
  }

  lemma NodeListed(t: Tree, nodeFiles: seq<string>, id: string, schema: Schema)
    requires ValidTree(t, schema) && Enumerates(nodeFiles, t.nodes.value) && FileName(id) in t.nodes.value
    ensures exists i ::
      0 <= i < |nodeFiles| && nodeFiles[i] == FileName(id) && Contents(nodeFiles, t.nodes.value)[i].id == id
  {
    var i :| 0 <= i < |nodeFiles| && nodeFiles[i] == FileName(id);
    FileNameInjective(t.nodes.value[nodeFiles[i]].id, id);
    assert Contents(nodeFiles, t.nodes.value)[i].id == id;
  }

  // ---- a tree rebuilt from what was read of it ----

  lemma MapDetermined<V>(names: seq<string>, values: seq<V>, a: map<string, V>, b: map<string, V>)
    requires |names| == |values|
    requires forall i :: 0 <= i < |names| ==> names[i] in a && a[names[i]] == values[i]
    requires forall i :: 0 <= i < |names| ==> names[i] in b && b[names[i]] == values[i]
    requires forall f :: f in a ==> f in names
    requires forall f :: f in b ==> f in names
    ensures a == b
  {
  }

  lemma NodeFilesUnique(nodes: seq<Node>, names: seq<string>, m: map<string, Node>)
    requires forall i, j :: 0 <= i < j < |nodes| ==> nodes[i].id != nodes[j].id
    requires |names| == |nodes| && forall i :: 0 <= i < |names| ==> names[i] == FileName(nodes[i].id)
    requires forall i :: 0 <= i < |names| ==> names[i] in m && m[names[i]] == nodes[i]
    requires forall f :: f in m ==> f in names
    ensures NodeFiles(nodes) == m
  {
    var files := NodeFiles(nodes);
    NodeFilesNamed(nodes);
    forall i | 0 <= i < |names| ensures names[i] in files && files[names[i]] == nodes[i] {
      NodeFileAt(nodes, i);
    }
    forall f | f in files ensures f in names {
      var i :| 0 <= i < |nodes| && nodes[i] == files[f];
      assert names[i] == f;
    }
    MapDetermined(names, nodes, files, m);
  }

  lemma EdgeFilesUnique(edges: seq<StoredEdge>, names: seq<string>, m: map<string, StoredEdge>)
    requires forall i, j :: 0 <= i < j < |edges| ==> edges[i].id != edges[j].id
    requires |names| == |edges| && forall i :: 0 <= i < |names| ==> names[i] == FileName(edges[i].id)
    requires forall i :: 0 <= i < |names| ==> names[i] in m && m[names[i]] == edges[i]
    requires forall f :: f in m ==> f in names
    ensures EdgeFiles(edges) == m
  {
    var files := EdgeFiles(edges);
    EdgeFilesNamed(edges);
    forall i | 0 <= i < |names| ensures names[i] in files && files[names[i]] == edges[i] {
      EdgeFileAt(edges, i);
    }
    forall f | f in files ensures f in names {
      var i :| 0 <= i < |edges| && edges[i] == files[f];
      assert names[i] == f;
    }
    MapDetermined(names, edges, files, m);
  }

  lemma ListedEdgesFiles(t: Tree, ef: seq<string>, schema: Schema)
    requires ValidTree(t, schema) && Enumerates(ef, t.edges.value)
    ensures EdgeFiles(Contents(ef, t.edges.value)) == t.edges.value
  {
    var edges := Contents(ef, t.edges.value);
    forall i | 0 <= i < |edges| ensures FileName(edges[i].id) == ef[i] {
      assert EdgeFileOk(ef[i], edges[i], t.nodes.value, schema);
    }
    assert forall i, j :: 0 <= i < j < |edges| ==> edges[i].id != edges[j].id;
    EdgeFilesUnique(edges, ef, t.edges.value);
  }

  lemma ListedNodesFiles(t: Tree, nf: seq<string>, schema: Schema)
    requires ValidTree(t, schema) && Enumerates(nf, t.nodes.value)
    ensures NodeFiles(Contents(nf, t.nodes.value)) == t.nodes.value
  {
    var nodes := Contents(nf, t.nodes.value);
    forall i | 0 <= i < |nodes| ensures FileName(nodes[i].id) == nf[i] {
      assert nf[i] in t.nodes.value;
    }
    assert forall i, j :: 0 <= i < j < |nodes| ==> nodes[i].id != nodes[j].id;
    NodeFilesUnique(nodes, nf, t.nodes.value);
  }

  lemma {:induction false} KeyedTwice(vs: seq<Variable>)
    ensures KeyedVariables(KeyedVariables(vs)) == KeyedVariables(vs)
  {
    if vs != [] {
      KeyedTwice(vs[1..]);
      var rest := KeyedVariables(vs[1..]);
      if vs[0].key == "" {
        assert KeyedVariables(vs) == rest;
      } else {
        assert KeyedVariables(vs) == [vs[0]] + rest && ([vs[0]] + rest)[1..] == rest;
      }
    }
  }

  /** Two trees that read alike in every respect. */
  predicate SameContents(a: Tree, b: Tree) {
    && a.meta == b.meta && a.nodes.GetOr(map[]) == b.nodes.GetOr(map[]) && a.edges.GetOr(map[]) == b.edges.GetOr(map[])
    && ReadVariables(a) == ReadVariables(b)
  }

  /** Building from what was read gives the same contents back. */
  lemma RebuildSame(t: Tree, g: Graph, schema: Schema)
    requires ValidTree(t, schema) && Reads(t, g)
    ensures SameContents(Build(g), t) && ValidTree(Build(g), schema)
  {
    var nf, ef :| ReadsAs(t, nf, ef, g);
    ReadValid(t, nf, ef, g, schema);
    BuildValid(g, schema);
    BuildContents(g);
    ListedNodesFiles(t, nf, schema);
    ListedEdgesFiles(t, ef, schema);
    if t.variables.Some? {
      KeyedTwice(t.variables.value);
    }
  }

  // ---- the graph an upsert commits ----

  datatype UpsertError = VersionConflict | EdgeIdMismatch | PersistFailed | ReadFailed | Invalid(error: SchemaError)

  /** The state of the first node with this id. */
  function StateOf(nodes: seq<Node>, id: string): Option<Payload> {
    if nodes == [] then None else if nodes[0].id == id then nodes[0].state else StateOf(nodes[1..], id)
  }

  function CarryState(n: Node, existing: Option<Graph>): Node {
    if n.state.None? && existing.Some? then n.(state := StateOf(existing.value.nodes, n.id)) else n
  }

  function CarryStates(nodes: seq<Node>, existing: Option<Graph>): (r: seq<Node>)
    ensures |r| == |nodes| && forall i :: 0 <= i < |r| ==> r[i] == CarryState(nodes[i], existing)
  {
    seq(|nodes|, i requires 0 <= i < |nodes| => CarryState(nodes[i], existing))
  }

  predicate IdAgrees(e: RequestEdge) {
    e.id.None? || e.id.value == "" || e.id.value == EdgeId(e.edge)
  }

  function WithId(e: RequestEdge): StoredEdge {
    Identified(EdgeId(e.edge), e.edge)
  }

  function WithIds(edges: seq<RequestEdge>): (r: seq<StoredEdge>)
    ensures |r| == |edges| && forall i :: 0 <= i < |r| ==> r[i] == WithId(edges[i])
  {
    seq(|edges|, i requires 0 <= i < |edges| => WithId(edges[i]))
  }

  function CurrentVersion(existing: Option<Graph>): int {
    if existing.Some? then existing.value.version else 0
  }

  /** The decision an upsert takes under the lock: the graph to commit, or the refusal. */
  function NextGraph(req: Request, existing: Option<Graph>, now: int): Result<Graph, UpsertError> {
    if req.version.Some? && req.version.value != CurrentVersion(existing) then Err(VersionConflict)
    else if !(forall k | 0 <= k < |req.edges| :: IdAgrees(req.edges[k])) then Err(EdgeIdMismatch)
    else Ok(Graph(
              req.name, CurrentVersion(existing) + 1, now,
              CarryStates(req.nodes, existing), WithIds(req.edges),
              if req.variables.Some? then req.variables
              else if existing.Some? then existing.value.variables else Some([])))
  }

  /** Whatever is committed passes the validator and has deterministic edge ids. */
  lemma NextGraphValid(req: Request, existing: Option<Graph>, now: int, schema: Schema)
    requires ValidRequest(req, schema) && (existing.Some? ==> ValidGraph(existing.value, schema))
    requires NextGraph(req, existing, now).Ok?
    ensures ValidGraph(NextGraph(req, existing, now).value, schema)
  {
    var g := NextGraph(req, existing, now).value;
    assert NodesWellFormed(g.nodes, schema);
    forall k | 0 <= k < |g.edges|
      ensures SourceExists(g.edges[k].edge, g.nodes, schema) && TargetExists(g.edges[k].edge, g.nodes, schema)
    {
      var e := Edges(req.edges)[k];
      var i :| 0 <= i < |req.nodes| && req.nodes[i].id == e.source && req.nodes[i].template in schema
               && e.sourceHandle in schema[req.nodes[i].template].sourcePorts;
      assert g.nodes[i].id == e.source && g.nodes[i].template == req.nodes[i].template;
      var j :| 0 <= j < |req.nodes| && req.nodes[j].id == e.target && req.nodes[j].template in schema
               && e.targetHandle in schema[req.nodes[j].template].targetPorts;
      assert g.nodes[j].id == e.target && g.nodes[j].template == req.nodes[j].template;
    }
    assert VariablesWellFormed([]);
  }
}
