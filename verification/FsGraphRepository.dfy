/**
 * The filesystem repository as one process runs it, every disk operation of a write being
 * allowed to fail: staging, the two-rename swap with its undo, and the restore from memory.
 * Interleavings and crashes are the subject of StoreProtocol.
 */
module FsGraphRepository {
  import opened Wrappers
  import opened GraphModel
  import opened FsTree

  class FsGraphRepository {
    const schema: Schema
    var root: Option<Tree>
    var staging: map<nat, Tree>
    var backup: map<nat, Tree>

    constructor (schema: Schema, root: Option<Tree>)
      ensures this.schema == schema && this.root == root && staging == map[] && backup == map[]
    {
      this.schema, this.root, staging, backup := schema, root, map[], map[];
    }

    /** The root holds a complete graph that passes the validator. */
    ghost predicate Healthy()
      reads this
    {
      root.Some? && ValidTree(root.value, schema)
    }

    // ---- reading ----

    /** A directory listing; the order is the file system's. */
    method ListDirectory<V>(dir: map<string, V>) returns (files: seq<string>)
      ensures Enumerates(files, dir)
    {
      files := [];
      var rest := dir.Keys;
      while rest != {}
        invariant forall f :: f in dir <==> f in files || f in rest
        invariant forall f :: f in files ==> f !in rest
        invariant forall i, j :: 0 <= i < j < |files| ==> files[i] != files[j]
        decreases |rest|
      {
        var f :| f in rest;
        files, rest := files + [f], rest - {f};
      }
    }

    method ReadNodes(dir: map<string, Node>) returns (items: seq<Node>, hadError: bool, ghost files: seq<string>)
      ensures Enumerates(files, dir)
      ensures (forall f :: f in dir ==> ReadNode(f, dir[f]) == Some(dir[f])) ==>
        !hadError && items == Contents(files, dir)
    {
      var listing := ListDirectory(dir);
      items, hadError, files := [], false, listing;
      for i := 0 to |listing|
        invariant (forall f :: f in dir ==> ReadNode(f, dir[f]) == Some(dir[f])) ==>
          !hadError && items == Contents(files, dir)[..i]
      {
        match ReadNode(listing[i], dir[listing[i]])
        case Some(n) => items := items + [n];
        case None => hadError := true;
      }
    }

    method ReadEdges(dir: map<string, StoredEdge>)
      returns (items: seq<StoredEdge>, hadError: bool, ghost files: seq<string>)
      ensures Enumerates(files, dir)
      ensures (forall f :: f in dir ==> ReadEdge(f, dir[f]) == Some(dir[f])) ==>
        !hadError && items == Contents(files, dir)
    {
      var listing := ListDirectory(dir);
      items, hadError, files := [], false, listing;
      for i := 0 to |listing|
        invariant (forall f :: f in dir ==> ReadEdge(f, dir[f]) == Some(dir[f])) ==>
          !hadError && items == Contents(files, dir)[..i]
      {
        match ReadEdge(listing[i], dir[listing[i]])
        case Some(e) => items := items + [e];
        case None => hadError := true;
      }
    }

    /** A healthy root is read in full; a root without a meta file reads as no graph. */
    method ReadFromWorkingTree() returns (r: Result<Option<Graph>, UpsertError>)
      ensures Healthy() ==> r.Ok? && r.value.Some? && Reads(root.value, r.value.value)
      ensures root.None? || root.value.meta.None? ==> r == Ok(None)
      ensures r.Err? ==> r.error.ReadFailed?
    {
      if root.None? || root.value.meta.None? {
        return Ok(None);
      }
      var t := root.value;
      var nodes, nodesFailed, nf := ReadNodes(t.nodes.GetOr(map[]));
      var edges, edgesFailed, ef := ReadEdges(t.edges.GetOr(map[]));
      if Healthy() {
        ValidRecords(t, schema);
      }
      if nodesFailed || edgesFailed {
        return Err(ReadFailed);
      }
      var m := t.meta.value;
      var g := Graph(m.name, m.version, m.updatedAt, nodes, edges, ReadVariables(t));
      assert Healthy() ==> ReadsAs(t, nf, ef, g);
      r := Ok(Some(g));
    }

    // ---- staging ----

    /** One write under a staging directory; None when it fails. */
    method TryWrite(t: Tree, w: Write) returns (r: Option<Tree>)
      ensures r.Some? ==> r.value == ApplyWrite(t, w)
    {
      var ok: bool := *;
      r := if ok then Some(ApplyWrite(t, w)) else None;
    }

    method WriteNodes(t: Tree, nodes: seq<Node>) returns (out: Tree, ok: bool)
      ensures ok ==> out == ApplyWrites(t, NodeWrites(nodes))
    {
      out, ok := t, false;
      for i := 0 to |nodes|
        invariant out == ApplyWrites(t, NodeWrites(nodes[..i]))
      {
        var w := TryWrite(out, WriteNode(nodes[i]));
        if w.None? {
          return;
        }
        ApplySnoc(t, NodeWrites(nodes[..i]), WriteNode(nodes[i]));
        assert NodeWrites(nodes[..i + 1]) == NodeWrites(nodes[..i]) + [WriteNode(nodes[i])];
        out := w.value;
      }
      assert nodes[..|nodes|] == nodes;
      ok := true;
    }

    method WriteEdges(t: Tree, edges: seq<StoredEdge>) returns (out: Tree, ok: bool)
      ensures ok ==> out == ApplyWrites(t, EdgeWrites(edges))
    {
      out, ok := t, false;
      for i := 0 to |edges|
        invariant out == ApplyWrites(t, EdgeWrites(edges[..i]))
      {
        var w := TryWrite(out, WriteEdge(edges[i]));
        if w.None? {
          return;
        }
        ApplySnoc(t, EdgeWrites(edges[..i]), WriteEdge(edges[i]));
        assert EdgeWrites(edges[..i + 1]) == EdgeWrites(edges[..i]) + [WriteEdge(edges[i])];
        out := w.value;
      }
      assert edges[..|edges|] == edges;
      ok := true;
    }

    /** The node, edge, variables and meta files, written one after the other over t. */
    method WriteBody(t: Tree, g: Graph) returns (out: Tree, ok: bool)
      ensures ok ==> out == ApplyWrites(t, BodyWrites(g))
    {
      ApplyInParts(t, g);
      out, ok := WriteNodes(t, g.nodes);
      if !ok {
        return;
      }
      out, ok := WriteEdges(out, g.edges);
      if !ok {
        return;
      }
      var w := TryWrite(out, WriteVariables(g.variables.GetOr([])));
      if w.None? {
        return out, false;
      }
      out := w.value;
      w := TryWrite(out, WriteMeta(MetaOf(g)));
      if w.None? {
        return out, false;
      }
      out := w.value;
    }

    method CreateStagingTree(g: Graph, dir: nat) returns (ok: bool)
      requires dir !in staging
      modifies this`staging
      ensures staging.Keys - {dir} == old(staging.Keys) && staging - {dir} == old(staging)
      ensures ok ==> dir in staging && staging[dir] == Build(g)
    {
      var t := ApplyWrite(ApplyWrite(EMPTY_TREE, MakeNodesDir), MakeEdgesDir);
      TwoThenBody(EMPTY_TREE, MakeNodesDir, MakeEdgesDir, g);
      t, ok := WriteBody(t, g);
      staging := staging[dir := t];
    }

    // ---- swapping ----

    /** renames the root away, the staging directory in, and undoes what it can on a failure. */
    method SwapWorkingTree(dir: nat) returns (ok: bool)
      requires dir in staging && dir !in backup
      modifies this`root, this`staging, this`backup
      ensures ok ==> root == Some(old(staging[dir]))
      ensures !ok ==> root == old(root) || root.None?
      ensures staging == old(staging) - {dir} && backup == old(backup)
    {
      var rootRenamed, newTreeActive := false, false;
      ok := *;
      if ok && root.Some? {
        backup, root := backup[dir := root.value], None;
        rootRenamed := true;
        ok := *;
        if ok {
          root, staging := Some(staging[dir]), staging - {dir};
          newTreeActive := true;
          ok := *;
        }
      } else {
        ok := false;
      }
      if !ok {
        if newTreeActive {
          root := None;
        }
        if rootRenamed {
          var renamedBack: bool := *;
          if renamedBack {
            root, backup := Some(backup[dir]), backup - {dir};
          }
        }
      }
      staging := staging - {dir};
      backup := backup - {dir};
      assert backup == old(backup);
    }

    method PersistGraph(target: Graph, dir: nat) returns (ok: bool)
      requires dir !in staging && dir !in backup
      modifies this`root, this`staging, this`backup
      ensures ok ==> root == Some(Build(target)) && staging == old(staging)
      ensures !ok ==> root == old(root) || root.None?
      ensures backup == old(backup)
    {
      ok := CreateStagingTree(target, dir);
      if ok {
        ok := SwapWorkingTree(dir);
      }
    }

    // ---- restoring ----

    /** Rewrites the root from memory, creating it if it is gone. `ok` says that no write failed. */
    method RestoreWorkingTree(existing: Option<Graph>, now: int) returns (ok: bool)
      modifies this`root
      ensures ok && existing.Some? ==> root == Some(Build(existing.value))
      ensures ok && existing.None? ==>
        root == Some(Tree(Some(Meta("main", 0, now)), Some(map[]), Some(map[]), Some([])))
    {
      var before := root.GetOr(EMPTY_TREE);
      var t := before;
      var w := TryWrite(t, ClearNodesDir);
      if w.None? {
        return false;
      }
      t := w.value;
      w := TryWrite(t, ClearEdgesDir);
      if w.None? {
        root := Some(t);
        return false;
      }
      t := w.value;
      if existing.Some? {
        TwoThenBody(before, ClearNodesDir, ClearEdgesDir, existing.value);
        RestoreRebuilds(before, existing.value);
        t, ok := WriteBody(t, existing.value);
      } else {
        w := TryWrite(t, WriteVariables([]));
        ok := w.Some?;
        if ok {
          t := w.value;
          w := TryWrite(t, WriteMeta(Meta("main", 0, now)));
          ok := w.Some?;
          t := w.GetOr(t);
        }
      }
      root := Some(t);
    }

    // ---- upsert ----

    /**
     * Commits the graph decided on the tree under the root, or leaves the stored contents as
     * they were: after a refusal nothing has been touched, and after a failed persist (even
     * one whose undo failed and whose backup is gone) the restore brings back the same graph
     * and version, provided its own writes succeed.
     */
    method Upsert(req: Request, now: int, dir: nat) returns (r: Result<Graph, UpsertError>, restored: bool)
      requires dir !in staging && dir !in backup
      modifies this
      ensures r.Ok? ==> root == Some(Build(r.value)) && staging == old(staging) && ValidRequest(req, schema)
      ensures r.Ok? && old(Healthy()) ==>
        && Healthy()
        && exists existing :: Reads(old(root).value, existing) && NextGraph(req, Some(existing), now) == Ok(r.value)
      ensures r.Err? && !r.error.PersistFailed? ==> root == old(root) && staging == old(staging)
      ensures r.Err? && !r.error.PersistFailed? && !r.error.Invalid? && old(Healthy()) ==>
        exists existing :: Reads(old(root).value, existing) && NextGraph(req, Some(existing), now) == Err(r.error)
      ensures r.Err? && r.error.PersistFailed? && restored && old(Healthy()) ==>
        Healthy() && SameContents(root.value, old(root).value)
      ensures r.Err? && r.error.Invalid? <==> !ValidRequest(req, schema)
      ensures backup == old(backup)
    {
      restored := true;
      var invalid := ValidatePersistedGraph(req, schema);
      if invalid.Some? {
        return Err(Invalid(invalid.value)), restored;
      }
      var read := ReadFromWorkingTree();
      if read.Err? {
        return Err(read.error), restored;
      }
      var existing := read.value;
      var next := NextGraph(req, existing, now);
      if next.Err? {
        return Err(next.error), restored;
      }
      if Healthy() {
        var nf, ef :| ReadsAs(root.value, nf, ef, existing.value);
        ReadValid(root.value, nf, ef, existing.value, schema);
        NextGraphValid(req, existing, now, schema);
        BuildValid(next.value, schema);
      }
      var ok := PersistGraph(next.value, dir);
      if !ok {
        if old(Healthy()) {
          RebuildSame(old(root).value, existing.value, schema);
        }
        restored := RestoreWorkingTree(existing, now);
        return Err(PersistFailed), restored;
      }
      r := Ok(next.value);
    }
  }

  lemma ValidRecords(t: Tree, schema: Schema)
    requires ValidTree(t, schema)
    ensures forall f :: f in t.nodes.value ==> ReadNode(f, t.nodes.value[f]) == Some(t.nodes.value[f])
    ensures forall f :: f in t.edges.value ==> ReadEdge(f, t.edges.value[f]) == Some(t.edges.value[f])
  {
    forall f | f in t.nodes.value ensures ReadNode(f, t.nodes.value[f]) == Some(t.nodes.value[f]) {
      NodeReadBack(t, f, schema);
    }
    forall f | f in t.edges.value ensures ReadEdge(f, t.edges.value[f]) == Some(t.edges.value[f]) {
      EdgeReadBack(t, f, schema);
    }
  }

  lemma ApplyInParts(t: Tree, g: Graph)
    ensures ApplyWrites(t, BodyWrites(g))
            == ApplyWrite(ApplyWrite(ApplyWrites(ApplyWrites(t, NodeWrites(g.nodes)), EdgeWrites(g.edges)),
                                     WriteVariables(g.variables.GetOr([]))), WriteMeta(MetaOf(g)))
  {
    var ns, es := NodeWrites(g.nodes), EdgeWrites(g.edges);
    var v, m := WriteVariables(g.variables.GetOr([])), WriteMeta(MetaOf(g));
    assert BodyWrites(g) == ns + es + [v] + [m];
    ApplySnoc(t, ns + es + [v], m);
    ApplySnoc(t, ns + es, v);
    ApplyAppend(t, ns, es);
  }
}
