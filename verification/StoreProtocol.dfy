/**
 * The graph store as a protocol: several processes read, patch and replace one graph through
 * a lock file, a staging directory and two renames, and any of them may crash between two
 * steps. Every directory operation, file read and file write is one step.
 *
 * `Do(s, a)` is the state after action `a`. What the environment decides (which process moves,
 * directory listing orders, clock readings, fresh names, how much of a directory a deletion
 * has removed) is part of the action. No operation reports an I/O error here.
 */
module StoreProtocol {
  import opened Wrappers
  import opened GraphModel
  import opened FsTree

  // ---- reading the working tree, file by file ----

  datatype Stage = ReadMeta | ListNodes | ReadNodes | ListEdges | ReadEdges | ReadVars | Finished | Failed

  datatype Reader = Reader(
    stage: Stage, pos: nat, hadError: bool, meta: Option<Meta>,
    nodeFiles: seq<string>, nodes: seq<Node>,
    edgeFiles: seq<string>, edges: seq<StoredEdge>,
    variables: Option<seq<Variable>>)

  const NEW_READER := Reader(ReadMeta, 0, false, None, [], [], [], [], None)

  function NodesOf(root: Option<Tree>): map<string, Node> {
    if root.Some? then root.value.nodes.GetOr(map[]) else map[]
  }

  function EdgesOf(root: Option<Tree>): map<string, StoredEdge> {
    if root.Some? then root.value.edges.GetOr(map[]) else map[]
  }

  /** A missing directory is listed as empty. */
  ghost predicate Listing(root: Option<Tree>, stage: Stage, files: seq<string>) {
    && (stage.ListNodes? ==> Enumerates(files, NodesOf(root)))
    && (stage.ListEdges? ==> Enumerates(files, EdgesOf(root)))
  }

  function ReadNextNode(root: Option<Tree>, r: Reader): Reader
    requires r.pos < |r.nodeFiles|
  {
    var f := r.nodeFiles[r.pos];
    var record := if f in NodesOf(root) then ReadNode(f, NodesOf(root)[f]) else None;
    match record
    case Some(n) => r.(nodes := r.nodes + [n], pos := r.pos + 1)
    case None => r.(hadError := true, pos := r.pos + 1)
  }

  function ReadNextEdge(root: Option<Tree>, r: Reader): Reader
    requires r.pos < |r.edgeFiles|
  {
    var f := r.edgeFiles[r.pos];
    var record := if f in EdgesOf(root) then ReadEdge(f, EdgesOf(root)[f]) else None;
    match record
    case Some(e) => r.(edges := r.edges + [e], pos := r.pos + 1)
    case None => r.(hadError := true, pos := r.pos + 1)
  }

  /** One step of readFromWorkingTree against whatever the root path holds at that moment. */
  function ReadStep(root: Option<Tree>, r: Reader, files: seq<string>): Reader {
    match r.stage
    case ReadMeta =>
      if root.Some? && root.value.meta.Some? then r.(meta := root.value.meta, stage := ListNodes)
      else r.(stage := Finished)
    case ListNodes => r.(nodeFiles := files, pos := 0, stage := ReadNodes)
    case ReadNodes => if r.pos < |r.nodeFiles| then ReadNextNode(root, r) else r.(stage := ListEdges)
    case ListEdges => r.(edgeFiles := files, pos := 0, stage := ReadEdges)
    case ReadEdges =>
      if r.pos < |r.edgeFiles| then ReadNextEdge(root, r) else r.(stage := if r.hadError then Failed else ReadVars)
    case ReadVars => r.(variables := if root.Some? then ReadVariables(root.value) else None, stage := Finished)
    case Finished => r
    case Failed => r
  }

  /** What `get` returns once the reader has finished. */
  function GraphRead(r: Reader): Option<Graph> {
    match r.meta
    case None => None
    case Some(m) => Some(Graph(m.name, m.version, m.updatedAt, r.nodes, r.edges, r.variables))
  }

  function VersionRead(r: Reader): int {
    if r.meta.Some? then r.meta.value.version else 0
  }

  // ---- the request of upsertNodeState ----

  function PatchNodes(nodes: seq<Node>, id: string, patch: Payload): seq<Node> {
    if nodes == [] then [Node(id, "unknown", None, Some(patch), None)]
    else if nodes[0].id == id then [nodes[0].(state := Some(patch))] + nodes[1..]
    else [nodes[0]] + PatchNodes(nodes[1..], id, patch)
  }

  function AsRequestEdges(edges: seq<StoredEdge>): (r: seq<RequestEdge>)
    ensures |r| == |edges| && forall i :: 0 <= i < |r| ==> r[i] == Identified(Some(edges[i].id), edges[i].edge)
  {
    seq(|edges|, i requires 0 <= i < |edges| => Identified(Some(edges[i].id), edges[i].edge))
  }

  datatype Base = Base(name: string, nodeId: string, patch: Payload, r: Reader)

  function PatchRequest(b: Base): Request {
    var g := GraphRead(b.r);
    Request(b.name, Some(VersionRead(b.r)),
            PatchNodes(if g.Some? then g.value.nodes else [], b.nodeId, b.patch),
            AsRequestEdges(if g.Some? then g.value.edges else []),
            None)
  }

  // ---- processes and the shared directory ----

  /**
   * An upsert that has passed its checks. `base` is the unlocked read it came from, if any;
   * `locked` records the tree under the root when the lock was taken.
   */
  datatype Job = Job(
    req: Request, base: Option<Base>, locked: Tree, existing: Option<Graph>, now: int, target: Graph, dir: nat)

  datatype Proc =
    | Idle
    | ReadingBase(base: Base)
    | Waiting(req: Request, origin: Option<Base>)
    | ReadingExisting(req: Request, origin: Option<Base>, r: Reader, locked: Tree)
    | Staging(job: Job, todo: seq<Write>)
    | Activating(job: Job)
    | Discarding(job: Job)
    | Releasing(outcome: Result<Graph, UpsertError>)

  predicate Holds(pr: Proc) {
    pr.ReadingExisting? || pr.Staging? || pr.Activating? || pr.Discarding? || pr.Releasing?
  }

  datatype Boot =
    | Down
    | Choosing(stagingDirs: set<nat>, backupDirs: set<nat>, rootExists: bool)
    | Cleaning(stagingLeft: set<nat>, backupLeft: set<nat>)
    | MakingRoot
    | MakingNodes
    | MakingEdges
    | CheckingMeta
    | Up

  /**
   * The parent directory (root, staging and backup directories, lock file), the live
   * processes, the start-up in progress, and the tree the store logically holds: a history
   * variable that only a commit or the first start-up changes.
   */
  datatype Store = Store(
    root: Option<Tree>, staging: map<nat, Tree>, backup: map<nat, Tree>, lock: bool,
    procs: map<nat, Proc>, boot: Boot, current: Tree)

  const EMPTY_STORE := Store(None, map[], map[], false, map[], Down, EMPTY_TREE)

  datatype Action =
    // start-up and recovery
    | Scan
    | Choose(candidate: nat)
    | ShredStaging(id: nat, part: Tree)
    | RemoveStaging(id: nat)
    | ShredBackup(id: nat, part: Tree)
    | RemoveBackup(id: nat)
    | FinishCleaning
    | Init(now: int)
    | RemoveStaleLock
    // processes
    | Spawn(p: nat)
    | BeginUpsert(p: nat, req: Request)
    | BeginNodeState(p: nat, base: Base)
    | ReadNext(p: nat, files: seq<string>)
    | Submit(p: nat)
    | Acquire(p: nat)
    | GiveUp(p: nat)
    | Decide(p: nat, now: int, dir: nat)
    | StageNext(p: nat)
    | Retire(p: nat)
    | Activate(p: nat)
    | Shred(p: nat, part: Tree)
    | Discard(p: nat)
    | Release(p: nat)
    // failures
    | Crash(p: nat)
    | CrashBoot

  ghost predicate Enabled(s: Store, a: Action, schema: Schema) {
    match a
    case Scan => s.boot.Down?
    case Choose(c) =>
      && s.boot.Choosing?
      && (!s.boot.rootExists && s.boot.backupDirs != {} ==> c in s.boot.backupDirs && c in s.backup)
    case ShredStaging(id, _) => s.boot.Cleaning? && id in s.boot.stagingLeft
    case RemoveStaging(id) => s.boot.Cleaning? && id in s.boot.stagingLeft
    case ShredBackup(id, _) => s.boot.Cleaning? && id in s.boot.backupLeft
    case RemoveBackup(id) => s.boot.Cleaning? && id in s.boot.backupLeft
    case FinishCleaning => s.boot.Cleaning? && s.boot.stagingLeft == {} && s.boot.backupLeft == {}
    case Init(_) => s.boot.MakingRoot? || s.boot.MakingNodes? || s.boot.MakingEdges? || s.boot.CheckingMeta?
    case RemoveStaleLock => s.boot.Down? && s.procs == map[]
    case Spawn(p) => s.boot.Up? && p !in s.procs
    case BeginUpsert(p, req) => p in s.procs && s.procs[p].Idle? && ValidRequest(req, schema)
    case BeginNodeState(p, b) => p in s.procs && s.procs[p].Idle? && b.r == NEW_READER
    case ReadNext(p, files) =>
      && p in s.procs
      && match s.procs[p] {
           case ReadingBase(b) => Listing(s.root, b.r.stage, files)
           case ReadingExisting(_, _, r, _) => Listing(s.root, r.stage, files)
           case _ => false
         }
    case Submit(p) =>
      && p in s.procs && s.procs[p].ReadingBase?
      && (s.procs[p].base.r.stage.Finished? || s.procs[p].base.r.stage.Failed?)
    case Acquire(p) => p in s.procs && s.procs[p].Waiting? && !s.lock
    case GiveUp(p) => p in s.procs && s.procs[p].Waiting?
    case Decide(p, _, dir) =>
      && p in s.procs && s.procs[p].ReadingExisting? && dir !in s.staging && dir !in s.backup
      && (s.procs[p].r.stage.Finished? || s.procs[p].r.stage.Failed?)
    case StageNext(p) => p in s.procs && s.procs[p].Staging? && s.procs[p].todo != [] && s.procs[p].job.dir in s.staging
    case Retire(p) => p in s.procs && s.procs[p].Staging? && s.procs[p].todo == [] && s.root.Some?
    case Activate(p) => p in s.procs && s.procs[p].Activating? && s.procs[p].job.dir in s.staging
    case Shred(p, _) => p in s.procs && s.procs[p].Discarding?
    case Discard(p) => p in s.procs && s.procs[p].Discarding?
    case Release(p) => p in s.procs && s.procs[p].Releasing?
    case Crash(p) => p in s.procs
    case CrashBoot => !s.boot.Down? && s.procs == map[]
  }

  function Move(s: Store, p: nat, pr: Proc): Store {
    s.(procs := s.procs[p := pr])
  }

  /** A change made in place under the root by the first start-up. */
  function Initialise(s: Store, t: Tree, next: Boot): Store {
    s.(root := Some(t), current := t, boot := next)
  }

  function DoBoot(s: Store, a: Action): Store
    requires a.Choose? ==>
      s.boot.Choosing? && (!s.boot.rootExists && s.boot.backupDirs != {} ==> a.candidate in s.backup)
    requires a.RemoveStaging? || a.RemoveBackup? ==> s.boot.Cleaning?
  {
    match a
    case Scan => s.(boot := Choosing(s.staging.Keys, s.backup.Keys, s.root.Some?))
    case Choose(c) =>
      if !s.boot.rootExists && s.boot.backupDirs != {} then
        s.(root := Some(s.backup[c]), backup := s.backup - {c},
           boot := Cleaning(s.boot.stagingDirs, s.boot.backupDirs - {c}))
      else s.(boot := Cleaning(s.boot.stagingDirs, s.boot.backupDirs))
    case ShredStaging(id, part) => s.(staging := s.staging[id := part])
    case RemoveStaging(id) =>
      s.(staging := s.staging - {id}, boot := Cleaning(s.boot.stagingLeft - {id}, s.boot.backupLeft))
    case ShredBackup(id, part) => s.(backup := s.backup[id := part])
    case RemoveBackup(id) =>
      s.(backup := s.backup - {id}, boot := Cleaning(s.boot.stagingLeft, s.boot.backupLeft - {id}))
    case FinishCleaning => s.(boot := MakingRoot)
    case Init(now) =>
      (match s.boot
       case MakingRoot => if s.root.Some? then s.(boot := MakingNodes) else Initialise(s, EMPTY_TREE, MakingNodes)
       case MakingNodes => Initialise(s, ApplyWrite(s.root.GetOr(EMPTY_TREE), MakeNodesDir), MakingEdges)
       case MakingEdges => Initialise(s, ApplyWrite(s.root.GetOr(EMPTY_TREE), MakeEdgesDir), CheckingMeta)
       case _ =>
         if s.root.Some? && s.root.value.meta.Some? then s.(boot := Up)
         else Initialise(s, ApplyWrite(s.root.GetOr(EMPTY_TREE), WriteMeta(Meta("main", 0, now))), Up))
    case RemoveStaleLock => s.(lock := false)
    case _ => s.(boot := Down)
  }

  ghost function DoProc(s: Store, a: Action, pr: Proc, schema: Schema): Store
    requires Enabled(s, a, schema)
    requires !IsBootAction(a) && !a.Spawn? && !a.Crash? && a.p in s.procs && pr == s.procs[a.p]
  {
    match a
    case BeginUpsert(p, req) => Move(s, p, Waiting(req, None))
    case BeginNodeState(p, b) => Move(s, p, ReadingBase(b))
    case ReadNext(p, files) =>
      if pr.ReadingBase? then Move(s, p, ReadingBase(pr.base.(r := ReadStep(s.root, pr.base.r, files))))
      else Move(s, p, pr.(r := ReadStep(s.root, pr.r, files)))
    case Submit(p) =>
      if pr.base.r.stage.Finished? && ValidRequest(PatchRequest(pr.base), schema) then
        Move(s, p, Waiting(PatchRequest(pr.base), Some(pr.base)))
      else Move(s, p, Idle)
    case Acquire(p) =>
      Move(s.(lock := true), p, ReadingExisting(pr.req, pr.origin, NEW_READER, s.root.GetOr(EMPTY_TREE)))
    case GiveUp(p) => Move(s, p, Idle)
    case Decide(p, now, dir) =>
      if pr.r.stage.Failed? then Move(s, p, Releasing(Err(ReadFailed)))
      else
        (match NextGraph(pr.req, GraphRead(pr.r), now)
         case Err(e) => Move(s, p, Releasing(Err(e)))
         case Ok(g) =>
           Move(s.(staging := s.staging[dir := EMPTY_TREE]), p,
                Staging(Job(pr.req, pr.origin, pr.locked, GraphRead(pr.r), now, g, dir), StagingWrites(g))))
    case StageNext(p) =>
      var tree := ApplyWrite(s.staging[pr.job.dir], pr.todo[0]);
      Move(s.(staging := s.staging[pr.job.dir := tree]), p, Staging(pr.job, pr.todo[1..]))
    case Retire(p) => Move(s.(root := None, backup := s.backup[pr.job.dir := s.root.value]), p, Activating(pr.job))
    case Activate(p) =>
      var t := s.staging[pr.job.dir];
      Move(s.(root := Some(t), current := t, staging := s.staging - {pr.job.dir}), p, Discarding(pr.job))
    case Shred(p, part) => s.(backup := s.backup[pr.job.dir := part])
    case Discard(p) => Move(s.(backup := s.backup - {pr.job.dir}), p, Releasing(Ok(pr.job.target)))
    case Release(p) => Move(s.(lock := false), p, Idle)
  }

  predicate IsBootAction(a: Action) {
    a.Scan? || a.Choose? || a.ShredStaging? || a.RemoveStaging? || a.ShredBackup? || a.RemoveBackup?
    || a.FinishCleaning? || a.Init? || a.RemoveStaleLock? || a.CrashBoot?
  }

  ghost function Do(s: Store, a: Action, schema: Schema): Store
    requires Enabled(s, a, schema)
  {
    if IsBootAction(a) then DoBoot(s, a)
    else if a.Spawn? then Move(s, a.p, Idle)
    else if a.Crash? then s.(procs := s.procs - {a.p})
    else DoProc(s, a, s.procs[a.p], schema)
  }

  /** The actions can be taken one after the other from s. */
  ghost predicate Runnable(s: Store, run: seq<Action>, schema: Schema)
    decreases run
  {
    run != [] ==> Enabled(s, run[0], schema) && Runnable(Do(s, run[0], schema), run[1..], schema)
  }

  ghost function After(s: Store, run: seq<Action>, schema: Schema): Store
    requires Runnable(s, run, schema)
    decreases run
  {
    if run == [] then s else After(Do(s, run[0], schema), run[1..], schema)
  }
}
