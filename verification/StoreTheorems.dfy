/** What the store protocol guarantees, over every run from the empty directory. */
module StoreTheorems {
  import opened Wrappers
  import opened GraphModel
  import opened FsTree
  import opened StoreProtocol
  import opened StoreSafety

  ghost predicate Reachable(run: seq<Action>, s: Store, schema: Schema) {
    Runnable(EMPTY_STORE, run, schema) && After(EMPTY_STORE, run, schema) == s
  }

  lemma ReachableInv(run: seq<Action>, s: Store, schema: Schema)
    requires Reachable(run, s, schema)
    ensures Inv(s, schema)
  {
    EmptyStoreInv(schema);
    RunKeeps(EMPTY_STORE, run, schema);
  }

  // ---- crash atomicity ----

  /** Only crashes and start-up steps: what happens between a failure and the next working store. */
  predicate RecoveryOnly(run: seq<Action>) {
    forall i :: 0 <= i < |run| ==> IsBootAction(run[i]) || run[i].Crash?
  }

  ghost predicate Recovered(s: Store) {
    s.procs == map[] && (s.boot.Up? ==> AtRest(s))
  }

  lemma RecoveryStep(s: Store, a: Action, schema: Schema)
    requires Inv(s, schema) && Enabled(s, a, schema) && RecoveryOnly([a]) && s.current.meta.Some?
    ensures var s' := Do(s, a, schema);
            && Inv(s', schema) && s'.current == s.current
            && (a.Scan? || Recovered(s) ==> Recovered(s'))
  {
    StepKeeps(s, a, schema);
    assert [a][0] == a;
    if IsBootAction(a) {
      BootKeeps(s, a, schema);
    }
  }

  lemma {:induction false} RecoveryKeepsCurrent(s: Store, run: seq<Action>, schema: Schema)
    requires Inv(s, schema) && Runnable(s, run, schema) && RecoveryOnly(run) && s.current.meta.Some?
    ensures After(s, run, schema).current == s.current
    ensures Recovered(s) || (exists i :: 0 <= i < |run| && run[i].Scan?) ==> Recovered(After(s, run, schema))
    decreases run
  {
    if run != [] {
      RecoveryStep(s, run[0], schema);
      RecoveryKeepsCurrent(Do(s, run[0], schema), run[1..], schema);
      if i :| 0 <= i < |run| && run[i].Scan? {
        assert i > 0 ==> run[1..][i - 1].Scan?;
      }
    }
  }

  /**
   * A crash at any point of any run, followed by a start-up that may itself crash and be
   * rerun any number of times, leaves the root holding the old tree of every upsert that had
   * not made its second rename and the new tree of every upsert that had, with no staging or
   * backup directory left.
   */
  lemma CrashAtomicity(run: seq<Action>, s: Store, recovery: seq<Action>, schema: Schema)
    requires Reachable(run, s, schema) && s.current.meta.Some?
    requires RecoveryOnly(recovery) && Runnable(s, recovery, schema)
    requires exists i :: 0 <= i < |recovery| && recovery[i].Scan?
    requires After(s, recovery, schema).boot.Up?
    ensures var s' := After(s, recovery, schema);
            && s'.staging == map[] && s'.backup == map[]
            && s'.root == Some(s.current)
            && forall p :: p in s.procs ==>
                 match s.procs[p] {
                   case Staging(job, _) => s'.root == Some(job.locked)
                   case Activating(job) => s'.root == Some(job.locked)
                   case Discarding(job) => s'.root == Some(Build(job.target))
                   case Releasing(outcome) => outcome.Ok? ==> s'.root == Some(Build(outcome.value))
                   case _ => true
                 }
  {
    ReachableInv(run, s, schema);
    RecoveryKeepsCurrent(s, recovery, schema);
    var s' := After(s, recovery, schema);
    forall p | p in s.procs
      ensures match s.procs[p] {
          case Staging(job, _) => s'.root == Some(job.locked)
          case Activating(job) => s'.root == Some(job.locked)
          case Discarding(job) => s'.root == Some(Build(job.target))
          case Releasing(outcome) => outcome.Ok? ==> s'.root == Some(Build(outcome.value))
          case _ => true
        }
    {
      assert ProcInv(s, s.procs[p], schema);
    }
  }

  // ---- versions ----

  function Commits(run: seq<Action>): nat {
    if run == [] then 0 else (if run[0].Activate? then 1 else 0) + Commits(run[1..])
  }

  lemma StepVersion(s: Store, a: Action, schema: Schema)
    requires Inv(s, schema) && s.current.meta.Some? && Enabled(s, a, schema)
    ensures var s' := Do(s, a, schema);
            if a.Activate? then
              s'.current.meta.Some? && s'.current.meta.value.version == s.current.meta.value.version + 1
            else s'.current == s.current
  {
    if a.Activate? {
      ActivateKeeps(s, a, schema);
    } else if IsBootAction(a) {
      BootKeeps(s, a, schema);
    }
  }

  /** Each commit raises the version by exactly one, and nothing else changes the stored tree. */
  lemma {:induction false} VersionCountsCommits(s: Store, run: seq<Action>, schema: Schema)
    requires Inv(s, schema) && s.current.meta.Some? && Runnable(s, run, schema)
    ensures var s' := After(s, run, schema);
            && s'.current.meta.Some?
            && s'.current.meta.value.version == s.current.meta.value.version + Commits(run)
            && (Commits(run) == 0 ==> s'.current == s.current)
    decreases run
  {
    if run != [] {
      StepKeeps(s, run[0], schema);
      StepVersion(s, run[0], schema);
      VersionCountsCommits(Do(s, run[0], schema), run[1..], schema);
    }
  }

  /** Whatever is read undisturbed from the root of a started store passes the validator. */
  lemma StoredGraphsValid(run: seq<Action>, s: Store, g: Graph, schema: Schema)
    requires Reachable(run, s, schema) && s.boot.Up? && s.root.Some? && Reads(s.root.value, g)
    ensures ValidGraph(g, schema)
  {
    ReachableInv(run, s, schema);
    var nf, ef :| ReadsAs(s.root.value, nf, ef, g);
    ReadValid(s.root.value, nf, ef, g, schema);
  }

  // ---- unlocked reads ----

  /**
   * When an upsertNodeState reaches its check under the lock, it is refused with
   * VERSION_CONFLICT exactly when its unlocked, file-by-file read of the base is not an
   * undisturbed read of the tree the lock was taken on.
   */
  lemma TornReadsConflict(run: seq<Action>, s: Store, p: nat, now: int, schema: Schema)
    requires Reachable(run, s, schema) && p in s.procs && s.procs[p].ReadingExisting?
    requires s.procs[p].r.stage.Finished? && s.procs[p].origin.Some?
    ensures var pr := s.procs[p]; var b := pr.origin.value.r;
            && s.root == Some(pr.locked)
            && (NextGraph(pr.req, GraphRead(pr.r), now) == Err(VersionConflict)
                <==> !(b.meta.Some? && ReadsAs(pr.locked, b.nodeFiles, b.edgeFiles, GraphRead(b).value)))
  {
    ReachableInv(run, s, schema);
    var pr := s.procs[p];
    var b := pr.origin.value.r;
    UpFacts(s, p, schema);
    CheckDetectsTearing(s, p, schema);
    FaithfulReads(pr.locked, pr.r);
    if Faithful(pr.locked, b) {
      FaithfulReads(pr.locked, b);
    }
  }

  // ---- what a commit contains ----

  lemma {:induction false} StateInListing(nodes: seq<Node>, i: nat)
    requires i < |nodes| && forall j, k :: 0 <= j < k < |nodes| ==> nodes[j].id != nodes[k].id
    ensures StateOf(nodes, nodes[i].id) == nodes[i].state
  {
    if i > 0 {
      assert nodes[0].id != nodes[i].id;
      StateInListing(nodes[1..], i - 1);
    }
  }

  lemma {:induction false} StateNotListed(nodes: seq<Node>, id: string)
    requires forall j :: 0 <= j < |nodes| ==> nodes[j].id != id
    ensures StateOf(nodes, id) == None
  {
    if nodes != [] {
      StateNotListed(nodes[1..], id);
    }
  }

  function StoredState(t: Tree, id: string): Option<Payload> {
    if FileName(id) in t.nodes.GetOr(map[]) then t.nodes.GetOr(map[])[FileName(id)].state else None
  }

  lemma ReadState(t: Tree, nf: seq<string>, ef: seq<string>, g: Graph, id: string, schema: Schema)
    requires ValidTree(t, schema) && ReadsAs(t, nf, ef, g)
    ensures StateOf(g.nodes, id) == StoredState(t, id)
  {
    ReadValid(t, nf, ef, g, schema);
    if FileName(id) in t.nodes.value {
      NodeListed(t, nf, id, schema);
      var i :| 0 <= i < |nf| && nf[i] == FileName(id) && Contents(nf, t.nodes.value)[i].id == id;
      StateInListing(g.nodes, i);
    } else {
      forall j | 0 <= j < |g.nodes| ensures g.nodes[j].id != id {
        assert nf[j] in t.nodes.value;
      }
      StateNotListed(g.nodes, id);
    }
  }

  lemma JobKeepsState(job: Job, i: nat, schema: Schema)
    requires JobInv(job, schema) && i < |job.req.nodes|
    ensures |job.target.nodes| == |job.req.nodes|
    ensures var n := job.req.nodes[i];
            job.target.nodes[i] == n.(state := if n.state.Some? then n.state else StoredState(job.locked, n.id))
  {
    var nf, ef :| ReadsAs(job.locked, nf, ef, job.existing.value);
    ReadState(job.locked, nf, ef, job.existing.value, job.req.nodes[i].id, schema);
  }

  /**
   * When any upsert commits, a node whose request omits its state keeps the state it had on disk,
   * and one that gives a state gets it.
   */
  lemma CommitKeepsState(run: seq<Action>, s: Store, p: nat, i: nat, schema: Schema)
    requires Reachable(run, s, schema) && Enabled(s, Activate(p), schema) && i < |s.procs[p].job.req.nodes|
    ensures var s', n := Do(s, Activate(p), schema), s.procs[p].job.req.nodes[i];
            && s.current.nodes.Some? && s'.current.nodes.Some? && FileName(n.id) in s'.current.nodes.value
            && StoredState(s'.current, n.id) == if n.state.Some? then n.state else StoredState(s.current, n.id)
  {
    ReachableInv(run, s, schema);
    UpFacts(s, p, schema);
    var job := s.procs[p].job;
    JobKeepsState(job, i, schema);
    TargetValid(job, schema);
    BuildContents(job.target);
    NodeFileAt(job.target.nodes, i);
  }

  /** Where the patched node ends up in the request. */
  lemma {:induction false} PatchNodesAt(nodes: seq<Node>, id: string, patch: Payload)
    ensures var r := PatchNodes(nodes, id, patch);
            if exists k :: 0 <= k < |nodes| && nodes[k].id == id
            then exists k :: 0 <= k < |nodes| && nodes[k].id == id && r == nodes[k := nodes[k].(state := Some(patch))]
            else r == nodes + [Node(id, "unknown", None, Some(patch), None)]
  {
    if nodes != [] && nodes[0].id != id {
      var rest := nodes[1..];
      PatchNodesAt(rest, id, patch);
      if k :| 0 <= k < |nodes| && nodes[k].id == id {
        assert rest[k - 1].id == id;
        var j :| 0 <= j < |rest| && rest[j].id == id
          && PatchNodes(rest, id, patch) == rest[j := rest[j].(state := Some(patch))];
        assert PatchNodes(nodes, id, patch) == nodes[j + 1 := nodes[j + 1].(state := Some(patch))];
      } else {
        assert forall k :: 0 <= k < |rest| ==> rest[k] == nodes[k + 1];
      }
    } else if nodes != [] {
      assert PatchNodes(nodes, id, patch) == nodes[0 := nodes[0].(state := Some(patch))];
    }
  }

  function PatchedFiles(dir: map<string, Node>, id: string, patch: Payload): map<string, Node> {
    var f := FileName(id);
    dir[f := if f in dir then dir[f].(state := Some(patch)) else Node(id, "unknown", None, Some(patch), None)]
  }

  lemma PatchedNodesFiles(t: Tree, nf: seq<string>, id: string, patch: Payload, schema: Schema)
    requires ValidTree(t, schema) && Enumerates(nf, t.nodes.value)
    requires var r := PatchNodes(Contents(nf, t.nodes.value), id, patch); forall i, j :: 0 <= i < j < |r| ==>
      r[i].id != r[j].id
    ensures NodeFiles(PatchNodes(Contents(nf, t.nodes.value), id, patch)) == PatchedFiles(t.nodes.value, id, patch)
  {
    var dir := t.nodes.value;
    var nodes := Contents(nf, dir);
    var r, m := PatchNodes(nodes, id, patch), PatchedFiles(dir, id, patch);
    var names := seq(|r|, i requires 0 <= i < |r| => FileName(r[i].id));
    forall i | 0 <= i < |r| ensures names[i] in m && m[names[i]] == r[i] {
      PatchedAt(t, nf, id, patch, i, schema);
    }
    forall f | f in m ensures f in names {
      var i := PatchedListed(t, nf, id, patch, f, schema);
      assert names[i] == f;
    }
    NodeFilesUnique(r, names, m);
  }

  lemma PatchedListed(t: Tree, nf: seq<string>, id: string, patch: Payload, f: string, schema: Schema) returns (i: nat)
    requires ValidTree(t, schema) && Enumerates(nf, t.nodes.value) && f in PatchedFiles(t.nodes.value, id, patch)
    ensures var r := PatchNodes(Contents(nf, t.nodes.value), id, patch); i < |r| && FileName(r[i].id) == f
  {
    var dir := t.nodes.value;
    var nodes := Contents(nf, dir);
    PatchNodesAt(nodes, id, patch);
    if f in dir {
      i :| 0 <= i < |nf| && nf[i] == f;
    } else {
      forall k | 0 <= k < |nodes| ensures nodes[k].id != id {
        assert nf[k] in dir;
      }
      i := |nodes|;
    }
  }

  lemma PatchedAt(t: Tree, nf: seq<string>, id: string, patch: Payload, i: nat, schema: Schema)
    requires ValidTree(t, schema) && Enumerates(nf, t.nodes.value)
    requires i < |PatchNodes(Contents(nf, t.nodes.value), id, patch)|
    requires var r := PatchNodes(Contents(nf, t.nodes.value), id, patch); forall i, j :: 0 <= i < j < |r| ==>
      r[i].id != r[j].id
    ensures var r, m := PatchNodes(Contents(nf, t.nodes.value), id, patch)[i], PatchedFiles(t.nodes.value, id, patch);
            FileName(r.id) in m && m[FileName(r.id)] == r
  {
    var dir := t.nodes.value;
    var nodes := Contents(nf, dir);
    var r := PatchNodes(nodes, id, patch);
    PatchNodesAt(nodes, id, patch);
    if i < |nodes| {
      assert nf[i] in dir && nf[i] == FileName(nodes[i].id);
      if FileName(nodes[i].id) == FileName(id) {
        FileNameInjective(nodes[i].id, id);
      }
    } else if FileName(id) in dir {
      NodeListed(t, nf, id, schema);
    }
  }

  /** A patch request carries its base over unchanged: no state is filled in, no edge id differs. */
  lemma PatchTarget(job: Job, schema: Schema)
    requires JobInv(job, schema) && job.base.Some?
    ensures var b := job.base.value; var r := b.r;
            && Enumerates(r.nodeFiles, job.locked.nodes.value) && Enumerates(r.edgeFiles, job.locked.edges.value)
            && job.target.nodes == PatchNodes(Contents(r.nodeFiles, job.locked.nodes.value), b.nodeId, b.patch)
            && job.target.edges == Contents(r.edgeFiles, job.locked.edges.value)
            && job.target.variables == ReadVariables(job.locked)
  {
    var b := job.base.value;
    var r := b.r;
    FaithfulReads(job.locked, r);
    NoStateFilledIn(job, schema);
    NoEdgeIdDiffers(job, schema);
  }

  lemma NoStateFilledIn(job: Job, schema: Schema)
    requires JobInv(job, schema) && job.base.Some?
    ensures job.target.nodes == job.req.nodes
  {
    var b := job.base.value;
    var r := b.r;
    FaithfulReads(job.locked, r);
    var nodes := GraphRead(r).value.nodes;
    PatchNodesAt(nodes, b.nodeId, b.patch);
    forall i | 0 <= i < |job.req.nodes| ensures job.target.nodes[i] == job.req.nodes[i] {
      JobKeepsState(job, i, schema);
      if i < |nodes| {
        assert r.nodeFiles[i] in job.locked.nodes.value && r.nodeFiles[i] == FileName(nodes[i].id);
      }
    }
  }

  lemma NoEdgeIdDiffers(job: Job, schema: Schema)
    requires JobInv(job, schema) && job.base.Some?
    ensures GraphRead(job.base.value.r).Some? && job.target.edges == GraphRead(job.base.value.r).value.edges
  {
    var r := job.base.value.r;
    FaithfulReads(job.locked, r);
    var edges := GraphRead(r).value.edges;
    forall k | 0 <= k < |edges| ensures job.target.edges[k] == edges[k] {
      assert EdgeFileOk(r.edgeFiles[k], edges[k], job.locked.nodes.value, schema);
    }
  }

  lemma PatchTree(job: Job, schema: Schema)
    requires JobInv(job, schema) && job.base.Some?
    ensures var t, b := Build(job.target), job.base.value;
            && t.nodes == Some(PatchedFiles(job.locked.nodes.value, b.nodeId, b.patch))
            && t.edges == job.locked.edges
            && ReadVariables(t) == ReadVariables(job.locked)
  {
    PatchTarget(job, schema);
    TargetValid(job, schema);
    BuildContents(job.target);
    PatchedNodesFiles(job.locked, job.base.value.r.nodeFiles, job.base.value.nodeId, job.base.value.patch, schema);
    ListedEdgesFiles(job.locked, job.base.value.r.edgeFiles, schema);
    if job.locked.variables.Some? {
      KeyedTwice(job.locked.variables.value);
    }
  }

  /**
   * No lost updates: what an accepted upsertNodeState commits is the tree it replaces with one
   * node's state patched, one version later; edges and variables read the same.
   */
  lemma PatchCommit(run: seq<Action>, s: Store, p: nat, schema: Schema)
    requires Reachable(run, s, schema) && Enabled(s, Activate(p), schema) && s.procs[p].job.base.Some?
    ensures var s' := Do(s, Activate(p), schema);
            var b := s.procs[p].job.base.value;
            && s.current.nodes.Some? && s'.root == Some(s'.current)
            && s'.current.nodes == Some(PatchedFiles(s.current.nodes.value, b.nodeId, b.patch))
            && s'.current.edges == s.current.edges
            && ReadVariables(s'.current) == ReadVariables(s.current)
            && s.current.meta.Some? && s'.current.meta.Some?
            && s'.current.meta.value.version == s.current.meta.value.version + 1
  {
    ReachableInv(run, s, schema);
    UpFacts(s, p, schema);
    ActivateKeeps(s, Activate(p), schema);
    PatchTree(s.procs[p].job, schema);
  }

  // ---- round trip ----

  lemma {:induction false} CountDistinct<V>(a: seq<V>, x: V)
    requires forall i, j :: 0 <= i < j < |a| ==> a[i] != a[j]
    ensures multiset(a)[x] == if x in a then 1 else 0
  {
    if a != [] {
      assert a == [a[0]] + a[1..];
      CountDistinct(a[1..], x);
    }
  }

  lemma SameElements<V>(a: seq<V>, b: seq<V>)
    requires forall i, j :: 0 <= i < j < |a| ==> a[i] != a[j]
    requires forall i, j :: 0 <= i < j < |b| ==> b[i] != b[j]
    requires forall x :: x in a <==> x in b
    ensures multiset(a) == multiset(b)
  {
    forall x ensures multiset(a)[x] == multiset(b)[x] {
      CountDistinct(a, x);
      CountDistinct(b, x);
    }
  }

  ghost predicate DistinctEdgeIds(g: Graph) {
    forall i, j :: 0 <= i < j < |g.edges| ==> g.edges[i].id != g.edges[j].id
  }

  /**
   * Reading a committed graph returns it up to file order and empty versus absent variables:
   * always for meta, nodes and variables, and for edges exactly when no two share an id.
   */
  lemma StoreRoundTrip(g: Graph, back: Graph, schema: Schema)
    requires ValidGraph(g, schema) && g.version >= 0 && Reads(Build(g), back)
    ensures MetaOf(back) == MetaOf(g)
    ensures multiset(back.nodes) == multiset(g.nodes)
    ensures back.variables.GetOr([]) == g.variables.GetOr([])
    ensures multiset(back.edges) == multiset(g.edges) <==> DistinctEdgeIds(g)
  {
    var nf, ef :| ReadsAs(Build(g), nf, ef, back);
    BuildContents(g);
    BuildValid(g, schema);
    ReadValid(Build(g), nf, ef, back, schema);
    NodesRoundTrip(g, nf, back, schema);
    EdgesRoundTrip(g, ef, back);
    if g.variables.Some? {
      KeyedAll(g.variables.value);
    }
  }

  lemma NodesRoundTrip(g: Graph, nf: seq<string>, back: Graph, schema: Schema)
    requires NodesWellFormed(g.nodes, schema) && NodesWellFormed(back.nodes, schema)
    requires Enumerates(nf, NodeFiles(g.nodes)) && back.nodes == Contents(nf, NodeFiles(g.nodes))
    ensures multiset(back.nodes) == multiset(g.nodes)
  {
    NodeFilesNamed(g.nodes);
    forall x | x in g.nodes ensures x in back.nodes {
      var i :| 0 <= i < |g.nodes| && g.nodes[i] == x;
      NodeFileAt(g.nodes, i);
      var k :| 0 <= k < |nf| && nf[k] == FileName(x.id);
      assert back.nodes[k] == x;
    }
    forall x | x in back.nodes ensures x in g.nodes {
      var k :| 0 <= k < |nf| && back.nodes[k] == x;
      assert nf[k] in NodeFiles(g.nodes);
    }
    SameElements(back.nodes, g.nodes);
  }

  /** Every file read back is named after the edge in it, and holds one of the written edges. */
  lemma EdgesReadBack(g: Graph, ef: seq<string>, back: Graph)
    requires Enumerates(ef, EdgeFiles(g.edges)) && back.edges == Contents(ef, EdgeFiles(g.edges))
    ensures |back.edges| == |ef| && forall k :: 0 <= k < |ef| ==>
      FileName(back.edges[k].id) == ef[k] && back.edges[k] in g.edges
    ensures forall i, j :: 0 <= i < j < |back.edges| ==> back.edges[i].id != back.edges[j].id
  {
    EdgeFilesNamed(g.edges);
    forall k | 0 <= k < |ef| ensures FileName(back.edges[k].id) == ef[k] && back.edges[k] in g.edges {
      assert ef[k] in EdgeFiles(g.edges);
    }
    forall i, j | 0 <= i < j < |back.edges| ensures back.edges[i].id != back.edges[j].id {
      assert ef[i] != ef[j] && FileName(back.edges[i].id) == ef[i] && FileName(back.edges[j].id) == ef[j];
    }
  }

  lemma EdgesRoundTrip(g: Graph, ef: seq<string>, back: Graph)
    requires Enumerates(ef, EdgeFiles(g.edges)) && back.edges == Contents(ef, EdgeFiles(g.edges))
    ensures multiset(back.edges) == multiset(g.edges) <==> DistinctEdgeIds(g)
  {
    EdgesReadBack(g, ef, back);
    if DistinctEdgeIds(g) {
      forall x | x in g.edges ensures x in back.edges {
        var i :| 0 <= i < |g.edges| && g.edges[i] == x;
        EdgeFileAt(g.edges, i);
        var k :| 0 <= k < |ef| && ef[k] == FileName(x.id);
        assert back.edges[k] == x;
      }
      SameElements(back.edges, g.edges);
    } else if multiset(back.edges) == multiset(g.edges) {
      var i, j :| 0 <= i < j < |g.edges| && g.edges[i].id == g.edges[j].id;
      SharedIdLost(g.edges, back.edges, i, j);
    }
  }

  lemma SharedIdLost(written: seq<StoredEdge>, back: seq<StoredEdge>, i: nat, j: nat)
    requires forall k, l :: 0 <= k < l < |back| ==> back[k].id != back[l].id
    requires i < j < |written| && written[i].id == written[j].id
    ensures multiset(back) != multiset(written)
  {
    if multiset(back) == multiset(written) {
      var x, y := written[i], written[j];
      assert x in multiset(written) && y in multiset(written);
      assert x in back && y in back;
      TwiceCounts(written, i, j);
      CountDistinct(back, x);
    }
  }

  lemma TwiceCounts<V>(a: seq<V>, i: nat, j: nat)
    requires i < j < |a|
    ensures a[i] == a[j] ==> multiset(a)[a[i]] >= 2
  {
    assert a == a[..j] + [a[j]] + a[j + 1..];
    assert a[i] in a[..j];
  }

  /** The validator admits edges with colliding ids, and the store then keeps only one of them. */
  lemma CollidingEdgesLost() returns (g: Graph, schema: Schema)
    ensures ValidGraph(g, schema) && |g.edges| == 2 && g.edges[0] != g.edges[1] && g.edges[0].id == g.edges[1].id
    ensures |EdgeFiles(g.edges)| == 1
  {
    schema := map["t" := Ports(["b-c", "c"], ["in"])];
    var n1 := Node("a", "t", None, None, None);
    var n2 := Node("a-b", "t", None, None, None);
    var e1, e2 := Edge("a", "b-c", "a", "in"), Edge("a-b", "c", "a", "in");
    assert EdgeId(e1) == "a-b-c__a-in" == EdgeId(e2);
    var edges := [Identified(EdgeId(e1), e1), Identified(EdgeId(e2), e2)];
    g := Graph("main", 1, 0, [n1, n2], edges, None);
    assert g.nodes[0] == n1 && g.nodes[1] == n2;
    assert Edges(g.edges) == [e1, e2];
    assert edges[..1][..0] == [];
    assert EdgeFiles(edges[..1]) == map[FileName(EdgeId(e1)) := edges[0]];
    assert EdgeFiles(edges) == map[FileName(EdgeId(e1)) := edges[1]];
  }
}
