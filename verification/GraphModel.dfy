/**
 * The persisted agent graph, and the validator that every upsert request passes before
 * anything is written.
 */
module GraphModel {
  import opened Wrappers
  import opened Text

  /** A serialized JSON object whose content the store never looks into. */
  type Payload = string

  datatype Node = Node(
    id: string, template: string, config: Option<Payload>, state: Option<Payload>, position: Option<(int, int)>)

  datatype Edge = Edge(source: string, sourceHandle: string, target: string, targetHandle: string)

  datatype Identified<+Id> = Identified(id: Id, edge: Edge)

  type RequestEdge = Identified<Option<string>>

  type StoredEdge = Identified<string>

  datatype Variable = Variable(key: string, value: string)

  datatype Graph = Graph(
    name: string, version: int, updatedAt: int,
    nodes: seq<Node>, edges: seq<StoredEdge>, variables: Option<seq<Variable>>)

  datatype Request = Request(
    name: string, version: Option<int>,
    nodes: seq<Node>, edges: seq<RequestEdge>, variables: Option<seq<Variable>>)

  datatype Ports = Ports(sourcePorts: seq<string>, targetPorts: seq<string>)

  /** The template registry's schema, by template name. */
  type Schema = map<string, Ports>

  // ---- well-formedness ----

  ghost predicate NodesWellFormed(nodes: seq<Node>, schema: Schema) {
    && (forall i :: 0 <= i < |nodes| ==> nodes[i].id != "" && nodes[i].template in schema)
    && (forall i, j :: 0 <= i < j < |nodes| ==> nodes[i].id != nodes[j].id)
  }

  ghost predicate SourceExists(e: Edge, nodes: seq<Node>, schema: Schema) {
    exists i :: 0 <= i < |nodes| && nodes[i].id == e.source && nodes[i].template in schema
                && e.sourceHandle in schema[nodes[i].template].sourcePorts
  }

  ghost predicate TargetExists(e: Edge, nodes: seq<Node>, schema: Schema) {
    exists i :: 0 <= i < |nodes| && nodes[i].id == e.target && nodes[i].template in schema
                && e.targetHandle in schema[nodes[i].template].targetPorts
  }

  ghost predicate VariablesWellFormed(variables: seq<Variable>) {
    && (forall i :: 0 <= i < |variables| ==> Trim(variables[i].key) != "" && Trim(variables[i].value) != "")
    && (forall i, j :: 0 <= i < j < |variables| ==> Trim(variables[i].key) != Trim(variables[j].key))
  }

  ghost predicate WellFormed(nodes: seq<Node>, edges: seq<Edge>, variables: Option<seq<Variable>>, schema: Schema) {
    && NodesWellFormed(nodes, schema)
    && (forall k :: 0 <= k < |edges| ==> SourceExists(edges[k], nodes, schema) && TargetExists(edges[k], nodes, schema))
    && (variables.Some? ==> VariablesWellFormed(variables.value))
  }

  function Edges<Id>(edges: seq<Identified<Id>>): (r: seq<Edge>)
    ensures |r| == |edges| && forall i :: 0 <= i < |r| ==> r[i] == edges[i].edge
  {
    seq(|edges|, i requires 0 <= i < |edges| => edges[i].edge)
  }

  ghost predicate ValidRequest(req: Request, schema: Schema) {
    WellFormed(req.nodes, Edges(req.edges), req.variables, schema)
  }

  ghost predicate ValidGraph(g: Graph, schema: Schema) {
    && WellFormed(g.nodes, Edges(g.edges), g.variables, schema)
    && forall k :: 0 <= k < |g.edges| ==> g.edges[k].id == EdgeId(g.edges[k].edge)
  }

  /** The deterministic edge id. Not injective: handles and node ids may contain the separators. */
  function EdgeId(e: Edge): string {
    e.source + "-" + e.sourceHandle + "__" + e.target + "-" + e.targetHandle
  }

  // ---- the validator ----

  datatype SchemaError =
    | NodeMissingId
    | DuplicateNodeId(id: string)
    | UnknownTemplate(template: string)
    | SourceMissing(id: string)
    | TargetMissing(id: string)
    | InvalidSourceHandle(handle: string)
    | InvalidTargetHandle(handle: string)
    | VariableMissingKey
    | VariableMissingValue(key: string)
    | DuplicateVariable(key: string)

  // Which fault each error stands for, in the order of the checks.

  ghost predicate NodeFault(nodes: seq<Node>, k: nat, schema: Schema, error: SchemaError) {
    && k < |nodes| && NodesWellFormed(nodes[..k], schema)
    && var repeated := exists j :: 0 <= j < k && nodes[j].id == nodes[k].id;
       if nodes[k].id == "" then error == NodeMissingId
       else if repeated then error == DuplicateNodeId(nodes[k].id)
       else nodes[k].template !in schema && error == UnknownTemplate(nodes[k].template)
  }

  ghost predicate Listed(id: string, nodes: seq<Node>) {
    exists i :: 0 <= i < |nodes| && nodes[i].id == id
  }

  ghost predicate EdgeFault(e: Edge, nodes: seq<Node>, schema: Schema, error: SchemaError) {
    if !Listed(e.source, nodes) then error == SourceMissing(e.source)
    else if !Listed(e.target, nodes) then error == TargetMissing(e.target)
    else if !SourceExists(e, nodes, schema) then error == InvalidSourceHandle(e.sourceHandle)
    else !TargetExists(e, nodes, schema) && error == InvalidTargetHandle(e.targetHandle)
  }

  ghost predicate VariableFault(variables: seq<Variable>, k: nat, error: SchemaError) {
    && k < |variables| && VariablesWellFormed(variables[..k])
    && var key := Trim(variables[k].key);
       if key == "" then error == VariableMissingKey
       else if Trim(variables[k].value) == "" then error == VariableMissingValue(key)
       else error == DuplicateVariable(key) && exists j :: 0 <= j < k && Trim(variables[j].key) == key
  }

  ghost predicate EdgesExist(edges: seq<RequestEdge>, n: nat, nodes: seq<Node>, schema: Schema) {
    forall j :: 0 <= j < n && j < |edges| ==>
      SourceExists(edges[j].edge, nodes, schema) && TargetExists(edges[j].edge, nodes, schema)
  }

  /** The error is about the first thing wrong with the request: nodes, then edges, then variables. */
  ghost predicate FirstFault(req: Request, schema: Schema, error: SchemaError) {
    if !NodesWellFormed(req.nodes, schema) then exists k: nat :: NodeFault(req.nodes, k, schema, error)
    else if !EdgesExist(req.edges, |req.edges|, req.nodes, schema) then
      exists k ::
        && 0 <= k < |req.edges| && EdgesExist(req.edges, k, req.nodes, schema)
        && EdgeFault(req.edges[k].edge, req.nodes, schema, error)
    else
      req.variables.Some? && exists k: nat :: VariableFault(req.variables.value, k, error)
  }

  method FindNode(nodes: seq<Node>, id: string) returns (i: nat)
    requires exists k :: 0 <= k < |nodes| && nodes[k].id == id
    ensures i < |nodes| && nodes[i].id == id
  {
    i := 0;
    while nodes[i].id != id
      invariant i < |nodes|
      invariant forall k :: 0 <= k < i ==> nodes[k].id != id
      decreases |nodes| - i
    {
      i := i + 1;
    }
  }

  method ValidateNodes(nodes: seq<Node>, schema: Schema) returns (error: Option<SchemaError>, nodeIds: set<string>)
    ensures error.None? <==> NodesWellFormed(nodes, schema)
    ensures error.Some? ==> exists k: nat :: NodeFault(nodes, k, schema, error.value)
    ensures error.None? ==> nodeIds == set k | 0 <= k < |nodes| :: nodes[k].id
  {
    nodeIds := {};
    for i := 0 to |nodes|
      invariant NodesWellFormed(nodes[..i], schema)
      invariant nodeIds == set k | 0 <= k < i :: nodes[k].id
    {
      var n := nodes[i];
      assert nodes[..i + 1] == nodes[..i] + [n];
      if n.id == "" {
        assert NodeFault(nodes, i, schema, NodeMissingId);
        return Some(NodeMissingId), {};
      }
      if n.id in nodeIds {
        assert NodeFault(nodes, i, schema, DuplicateNodeId(n.id));
        return Some(DuplicateNodeId(n.id)), {};
      }
      nodeIds := nodeIds + {n.id};
      if n.template !in schema {
        assert NodeFault(nodes, i, schema, UnknownTemplate(n.template));
        return Some(UnknownTemplate(n.template)), {};
      }
    }
    assert nodes[..|nodes|] == nodes;
    error := None;
  }

  method ValidateEdge(e: Edge, nodes: seq<Node>, nodeIds: set<string>, schema: Schema)
    returns (error: Option<SchemaError>)
    requires NodesWellFormed(nodes, schema) && nodeIds == set k | 0 <= k < |nodes| :: nodes[k].id
    ensures error.None? <==> SourceExists(e, nodes, schema) && TargetExists(e, nodes, schema)
    ensures error.Some? ==> EdgeFault(e, nodes, schema, error.value)
  {
    if e.source !in nodeIds {
      return Some(SourceMissing(e.source));
    }
    if e.target !in nodeIds {
      return Some(TargetMissing(e.target));
    }
    var s := FindNode(nodes, e.source);
    var t := FindNode(nodes, e.target);
    if e.sourceHandle !in schema[nodes[s].template].sourcePorts {
      return Some(InvalidSourceHandle(e.sourceHandle));
    }
    if e.targetHandle !in schema[nodes[t].template].targetPorts {
      return Some(InvalidTargetHandle(e.targetHandle));
    }
    error := None;
  }

  method ValidateVariables(variables: seq<Variable>) returns (error: Option<SchemaError>)
    ensures error.None? <==> VariablesWellFormed(variables)
    ensures error.Some? ==> exists k: nat :: VariableFault(variables, k, error.value)
  {
    var seen := {};
    for i := 0 to |variables|
      invariant VariablesWellFormed(variables[..i])
      invariant seen == set k | 0 <= k < i :: Trim(variables[k].key)
    {
      assert variables[..i + 1] == variables[..i] + [variables[i]];
      var key, val := Trim(variables[i].key), Trim(variables[i].value);
      if key == "" {
        assert VariableFault(variables, i, VariableMissingKey);
        return Some(VariableMissingKey);
      }
      if val == "" {
        assert VariableFault(variables, i, VariableMissingValue(key));
        return Some(VariableMissingValue(key));
      }
      if key in seen {
        assert VariableFault(variables, i, DuplicateVariable(key));
        return Some(DuplicateVariable(key));
      }
      seen := seen + {key};
    }
    assert variables[..|variables|] == variables;
    error := None;
  }

  /** Accepts exactly the well-formed requests, and otherwise names the first fault. */
  method ValidatePersistedGraph(req: Request, schema: Schema) returns (error: Option<SchemaError>)
    ensures error.None? <==> ValidRequest(req, schema)
    ensures error.Some? ==> FirstFault(req, schema, error.value)
  {
    var nodeIds;
    error, nodeIds := ValidateNodes(req.nodes, schema);
    if error.Some? {
      return;
    }
    for k := 0 to |req.edges|
      invariant EdgesExist(req.edges, k, req.nodes, schema)
    {
      error := ValidateEdge(req.edges[k].edge, req.nodes, nodeIds, schema);
      if error.Some? {
        var e := Edges(req.edges)[k];
        assert !SourceExists(e, req.nodes, schema) || !TargetExists(e, req.nodes, schema);
        return;
      }
    }
    if req.variables.Some? {
      error := ValidateVariables(req.variables.value);
    } else {
      error := None;
    }
  }
}
