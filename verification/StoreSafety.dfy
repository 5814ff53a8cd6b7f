/** The invariant of the store protocol, kept by every step of every run. */
module StoreSafety {
  import opened Wrappers
  import opened GraphModel
  import opened FsTree
  import opened StoreProtocol

  // ---- readers ----

  /** What `files` lists of a directory that was read up to position k. */
  ghost predicate ReadUpTo<V>(dir: map<string, V>, files: seq<string>, k: nat, got: seq<V>) {
    && Enumerates(files, dir) && k <= |files| && got == Contents(files, dir)[..k]
  }

  predicate PastNodesListing(st: Stage) {
    st.ReadNodes? || st.ListEdges? || st.ReadEdges? || st.ReadVars? || st.Finished?
  }

  predicate PastEdgesListing(st: Stage) {
    st.ReadEdges? || st.ReadVars? || st.Finished?
  }

  /** Everything r has read so far it could have read from the unchanging tree t. */
  ghost predicate Faithful(t: Tree, r: Reader) {
    && !r.stage.Failed? && !r.hadError && t.nodes.Some? && t.edges.Some?
    && (if r.stage.ReadMeta? then r.meta.None? else t.meta.Some? && r.meta == t.meta)
    && (if PastNodesListing(r.stage)
        then ReadUpTo(t.nodes.value, r.nodeFiles, if r.stage.ReadNodes? then r.pos else |r.nodeFiles|, r.nodes)
        else r.nodes == [])
    && (if PastEdgesListing(r.stage)
        then ReadUpTo(t.edges.value, r.edgeFiles, if r.stage.ReadEdges? then r.pos else |r.edgeFiles|, r.edges)
        else r.edges == [])
    && (r.stage.Finished? ==> r.variables == ReadVariables(t))
  }

  /** The tree has moved on past the version r read, or a swap that will move it on has begun. */
  predicate Overtaken(root: Option<Tree>, current: Tree, r: Reader)
    requires current.meta.Some?
  {
    VersionRead(r) < current.meta.value.version || root.None?
  }

  /** Either overtaken or faithful: a reader without the lock is never silently torn. */
  ghost predicate ReaderInv(root: Option<Tree>, current: Tree, r: Reader)
    requires current.meta.Some?
  {
    && (r.stage.ReadMeta? ==> r == NEW_READER)
    && (!r.stage.ReadMeta? ==>
          && VersionRead(r) <= current.meta.value.version
          && (Overtaken(root, current, r) || Faithful(current, r)))
  }

  lemma ReadOneMore<V>(dir: map<string, V>, files: seq<string>, k: nat, got: seq<V>)
    requires ReadUpTo(dir, files, k, got) && k < |files|
    ensures files[k] in dir && ReadUpTo(dir, files, k + 1, got + [dir[files[k]]])
  {
    assert files[k] in files;
  }

  lemma FaithfulStep(t: Tree, r: Reader, files: seq<string>, schema: Schema)
    requires ValidTree(t, schema) && Faithful(t, r) && Listing(Some(t), r.stage, files)
    ensures Faithful(t, ReadStep(Some(t), r, files))
  {
    if r.stage.ReadNodes? && r.pos < |r.nodeFiles| {
      ReadOneMore(t.nodes.value, r.nodeFiles, r.pos, r.nodes);
      NodeReadBack(t, r.nodeFiles[r.pos], schema);
    } else if r.stage.ReadEdges? && r.pos < |r.edgeFiles| {
      ReadOneMore(t.edges.value, r.edgeFiles, r.pos, r.edges);
      EdgeReadBack(t, r.edgeFiles[r.pos], schema);
    }
  }

  lemma ReaderStep(root: Option<Tree>, current: Tree, r: Reader, files: seq<string>, schema: Schema)
    requires ValidTree(current, schema) && ReaderInv(root, current, r)
    requires root == Some(current) || root.None?
    requires Listing(root, r.stage, files)
    ensures ReaderInv(root, current, ReadStep(root, r, files))
  {
    var r' := ReadStep(root, r, files);
    if r.stage.ReadMeta? {
    } else {
      assert r'.meta == r.meta;
      if !Overtaken(root, current, r) {
        FaithfulStep(current, r, files, schema);
      }
    }
  }

  /** A faithful finished reader returns exactly what an undisturbed read of the tree returns. */
  lemma FaithfulReads(t: Tree, r: Reader)
    requires Faithful(t, r) && r.stage.Finished?
    ensures GraphRead(r).Some? && ReadsAs(t, r.nodeFiles, r.edgeFiles, GraphRead(r).value)
  {
  }

  // ---- processes ----

  ghost predicate BaseInv(root: Option<Tree>, current: Tree, req: Request, origin: Option<Base>)
    requires current.meta.Some?
  {
    origin.Some? ==>
      && origin.value.r.stage.Finished? && ReaderInv(root, current, origin.value.r)
      && req == PatchRequest(origin.value)
  }

  ghost predicate WaiterInv(root: Option<Tree>, current: Tree, pr: Proc, schema: Schema)
    requires current.meta.Some?
  {
    match pr
    case ReadingBase(b) => ReaderInv(root, current, b.r)
    case Waiting(req, origin) => ValidRequest(req, schema) && BaseInv(root, current, req, origin)
    case _ => true
  }

  /** An accepted upsert: decided on the locked tree, and if it patches a base, that base was not torn. */
  ghost predicate JobInv(job: Job, schema: Schema) {
    && ValidTree(job.locked, schema) && ValidRequest(job.req, schema)
    && job.existing.Some? && Reads(job.locked, job.existing.value)
    && NextGraph(job.req, job.existing, job.now) == Ok(job.target)
    && (job.base.Some? ==>
          && job.req == PatchRequest(job.base.value) && job.base.value.r.stage.Finished?
          && Faithful(job.locked, job.base.value.r))
  }

  ghost predicate AtRest(s: Store) {
    s.root == Some(s.current) && s.staging == map[] && s.backup == map[]
  }

  ghost predicate HolderInv(s: Store, pr: Proc, schema: Schema)
    requires s.current.meta.Some?
  {
    match pr
    case ReadingExisting(req, origin, r, locked) =>
      && AtRest(s) && locked == s.current && Faithful(s.current, r)
      && ValidRequest(req, schema) && BaseInv(s.root, s.current, req, origin)
    case Staging(job, todo) =>
      && s.root == Some(s.current) && s.backup == map[] && s.staging.Keys == {job.dir}
      && ApplyWrites(s.staging[job.dir], todo) == Build(job.target)
      && job.locked == s.current && JobInv(job, schema)
    case Activating(job) =>
      && s.root.None? && s.backup == map[job.dir := s.current] && s.staging == map[job.dir := Build(job.target)]
      && job.locked == s.current && JobInv(job, schema)
    case Discarding(job) =>
      && s.root == Some(s.current) && s.staging == map[] && s.backup.Keys == {job.dir}
      && s.current == Build(job.target) && JobInv(job, schema)
    case Releasing(outcome) => AtRest(s) && (outcome.Ok? ==> s.current == Build(outcome.value))
    case _ => true
  }

  ghost predicate ProcInv(s: Store, pr: Proc, schema: Schema)
    requires s.current.meta.Some?
  {
    if Holds(pr) then s.lock && HolderInv(s, pr, schema) else WaiterInv(s.root, s.current, pr, schema)
  }

  // ---- the directory ----

  /** Nothing has been written yet, except perhaps the empty directories of a first start-up. */
  ghost predicate Blank(t: Tree) {
    && t.meta.None? && t.variables.None?
    && (t.nodes.None? || t.nodes == Some(map[])) && (t.edges.None? || t.edges == Some(map[]))
  }

  /** The held tree is under the root, or its only copy is the single backup directory. */
  ghost predicate DiskInv(s: Store, schema: Schema) {
    && (ValidTree(s.current, schema) || Blank(s.current))
    && (|| s.root == Some(s.current)
        || (s.root.None? && exists b :: s.backup == map[b := s.current])
        || (s.root.None? && s.backup == map[] && s.current == EMPTY_TREE))
  }

  ghost predicate BootInv(s: Store, schema: Schema) {
    match s.boot
    case Down => true
    case Choosing(st, bk, re) => st == s.staging.Keys && bk == s.backup.Keys && re == s.root.Some?
    case Cleaning(st, bk) =>
      && st == s.staging.Keys && bk == s.backup.Keys
      && (s.root.None? ==> s.current == EMPTY_TREE && bk == {})
    case MakingRoot => s.staging == map[] && s.backup == map[] && (s.root.None? ==> s.current == EMPTY_TREE)
    case MakingNodes => AtRest(s)
    case MakingEdges => AtRest(s) && s.current.nodes.Some?
    case CheckingMeta => AtRest(s) && s.current.nodes.Some? && s.current.edges.Some?
    case Up => ValidTree(s.current, schema) && (!s.lock ==> AtRest(s))
  }

  ghost predicate OneHolder(s: Store) {
    forall p, q :: p in s.procs && q in s.procs && Holds(s.procs[p]) && Holds(s.procs[q]) ==> p == q
  }

  ghost predicate Inv(s: Store, schema: Schema) {
    && DiskInv(s, schema) && BootInv(s, schema)
    && (!s.boot.Up? ==> s.procs == map[])
    && OneHolder(s)
    && forall p :: p in s.procs ==> s.current.meta.Some? && ProcInv(s, s.procs[p], schema)
  }

  // ---- every step keeps the invariant ----

  lemma BootKeeps(s: Store, a: Action, schema: Schema)
    requires Inv(s, schema) && Enabled(s, a, schema) && IsBootAction(a)
    ensures Inv(Do(s, a, schema), schema)
    ensures s.current.meta.Some? ==> Do(s, a, schema).current == s.current
  {
    var s' := Do(s, a, schema);
    assert s.procs == map[] ==> s'.procs == map[];
    if a.Choose? && !s.boot.rootExists && s.boot.backupDirs != {} {
      var b :| s.backup == map[b := s.current];
      assert a.candidate == b;
      assert s'.backup == map[];
    } else if a.Choose? {
      assert forall b :: s.backup == map[b := s.current] ==> b in s.backup.Keys;
    } else if a.RemoveBackup? || a.ShredBackup? {
      if s.root.None? {
        assert false;
      }
    } else if a.Init? && s.boot.CheckingMeta? {
      if Blank(s.current) && s.root.value.meta.None? {
        assert ValidTree(s'.current, schema);
      }
    }
  }

  /** Processes that do not hold the lock only depend on the root and the held tree. */
  lemma OthersKeep(s: Store, s': Store, p: nat, schema: Schema)
    requires Inv(s, schema) && s.boot.Up? && s'.boot.Up? && p in s.procs && s'.current.meta.Some?
    requires s'.procs.Keys == s.procs.Keys && forall q :: q in s.procs && q != p ==> s'.procs[q] == s.procs[q]
    requires Holds(s.procs[p]) || (s' == s.(procs := s'.procs, lock := s'.lock) && (s.lock ==> s'.lock))
    requires
      || (s'.root == s.root && s'.current == s.current)
      || (s'.root.None? && s'.current == s.current)
      || s'.current.meta.value.version == s.current.meta.value.version + 1
    ensures forall q :: q in s.procs && q != p ==> ProcInv(s', s'.procs[q], schema)
  {
    forall q | q in s.procs && q != p ensures ProcInv(s', s'.procs[q], schema) {
      assert ProcInv(s, s.procs[q], schema);
      if !Holds(s.procs[q]) {
        match s.procs[q] {
          case ReadingBase(b) => OvertakenKeeps(s, s', b.r);
          case Waiting(req, origin) => if origin.Some? { OvertakenKeeps(s, s', origin.value.r); }
          case _ =>
        }
      }
    }
  }

  lemma OvertakenKeeps(s: Store, s': Store, r: Reader)
    requires s.current.meta.Some? && s'.current.meta.Some? && ReaderInv(s.root, s.current, r)
    requires
      || (s'.root == s.root && s'.current == s.current)
      || (s'.root.None? && s'.current == s.current)
      || s'.current.meta.value.version == s.current.meta.value.version + 1
    ensures ReaderInv(s'.root, s'.current, r)
  {
  }

  /** Assembles the invariant after a step of process p. */
  lemma MoveKeeps(s: Store, s': Store, p: nat, schema: Schema)
    requires Inv(s, schema) && s.boot.Up? && s'.boot.Up? && p in s.procs && s'.current.meta.Some?
    requires s'.procs.Keys == s.procs.Keys && forall q :: q in s.procs && q != p ==> s'.procs[q] == s.procs[q]
    requires Holds(s.procs[p]) || (s' == s.(procs := s'.procs, lock := s'.lock) && (s.lock ==> s'.lock))
    requires
      || (s'.root == s.root && s'.current == s.current)
      || (s'.root.None? && s'.current == s.current)
      || s'.current.meta.value.version == s.current.meta.value.version + 1
    requires Holds(s'.procs[p]) ==> Holds(s.procs[p]) || !s.lock
    requires ProcInv(s', s'.procs[p], schema) && DiskInv(s', schema) && BootInv(s', schema)
    ensures Inv(s', schema)
  {
    OthersKeep(s, s', p, schema);
    forall q | q in s.procs && q != p && Holds(s.procs[q]) ensures !Holds(s'.procs[p]) {
      assert ProcInv(s, s.procs[q], schema);
    }
  }

  lemma UpFacts(s: Store, p: nat, schema: Schema)
    requires Inv(s, schema) && p in s.procs
    ensures s.boot.Up? && ValidTree(s.current, schema) && ProcInv(s, s.procs[p], schema)
    ensures s.root == Some(s.current) || s.root.None?
  {
  }

  /** At the version check: an upsert based on an unlocked read passes it exactly when the read was not torn. */
  lemma CheckDetectsTearing(s: Store, p: nat, schema: Schema)
    requires Inv(s, schema) && p in s.procs && s.procs[p].ReadingExisting?
    requires s.procs[p].r.stage.Finished? && s.procs[p].origin.Some?
    ensures VersionRead(s.procs[p].origin.value.r) == VersionRead(s.procs[p].r) <==>
      Faithful(s.procs[p].locked, s.procs[p].origin.value.r)
  {
    UpFacts(s, p, schema);
  }

  lemma DecideKeeps(s: Store, a: Action, schema: Schema)
    requires Inv(s, schema) && Enabled(s, a, schema) && a.Decide?
    ensures Inv(Do(s, a, schema), schema)
  {
    var p, pr, s' := a.p, s.procs[a.p], Do(s, a, schema);
    UpFacts(s, p, schema);
    FaithfulReads(s.current, pr.r);
    var existing := GraphRead(pr.r);
    assert Reads(s.current, existing.value);
    if NextGraph(pr.req, existing, a.now).Ok? {
      if pr.origin.Some? {
        CheckDetectsTearing(s, p, schema);
      }
    }
    MoveKeeps(s, s', p, schema);
  }

  lemma ActivateKeeps(s: Store, a: Action, schema: Schema)
    requires Inv(s, schema) && Enabled(s, a, schema) && a.Activate?
    ensures Inv(Do(s, a, schema), schema)
    ensures Do(s, a, schema).current.meta.Some?
    ensures Do(s, a, schema).current.meta.value.version == s.current.meta.value.version + 1
  {
    var p, pr, s' := a.p, s.procs[a.p], Do(s, a, schema);
    UpFacts(s, p, schema);
    TargetValid(pr.job, schema);
    assert s'.staging == map[];
    assert s'.root == Some(s'.current);
    MoveKeeps(s, s', p, schema);
  }

  lemma TargetValid(job: Job, schema: Schema)
    requires JobInv(job, schema)
    ensures ValidGraph(job.target, schema) && ValidTree(Build(job.target), schema)
    ensures Build(job.target).meta.value.version == job.locked.meta.value.version + 1
  {
    var nf, ef :| ReadsAs(job.locked, nf, ef, job.existing.value);
    ReadValid(job.locked, nf, ef, job.existing.value, schema);
    NextGraphValid(job.req, job.existing, job.now, schema);
    BuildContents(job.target);
    BuildValid(job.target, schema);
  }

  lemma StageNextKeeps(s: Store, a: Action, schema: Schema)
    requires Inv(s, schema) && Enabled(s, a, schema) && a.StageNext?
    ensures Inv(Do(s, a, schema), schema) && Do(s, a, schema).current == s.current
  {
    UpFacts(s, a.p, schema);
    MoveKeeps(s, Do(s, a, schema), a.p, schema);
  }

  lemma RetireKeeps(s: Store, a: Action, schema: Schema)
    requires Inv(s, schema) && Enabled(s, a, schema) && a.Retire?
    ensures Inv(Do(s, a, schema), schema) && Do(s, a, schema).current == s.current
  {
    var p, pr, s' := a.p, s.procs[a.p], Do(s, a, schema);
    UpFacts(s, p, schema);
    assert s'.backup == map[pr.job.dir := s.current];
    assert s'.staging == map[pr.job.dir := Build(pr.job.target)];
    MoveKeeps(s, s', p, schema);
  }

  lemma DiscardKeeps(s: Store, a: Action, schema: Schema)
    requires Inv(s, schema) && Enabled(s, a, schema) && (a.Shred? || a.Discard? || a.Release?)
    ensures Inv(Do(s, a, schema), schema) && Do(s, a, schema).current == s.current
  {
    var s' := Do(s, a, schema);
    UpFacts(s, a.p, schema);
    assert a.Discard? ==> s'.backup == map[];
    MoveKeeps(s, s', a.p, schema);
  }

  lemma ReadKeeps(s: Store, a: Action, schema: Schema)
    requires Inv(s, schema) && Enabled(s, a, schema) && a.ReadNext?
    ensures Inv(Do(s, a, schema), schema) && Do(s, a, schema).current == s.current
  {
    var p, pr, s' := a.p, s.procs[a.p], Do(s, a, schema);
    UpFacts(s, p, schema);
    if pr.ReadingBase? {
      ReaderStep(s.root, s.current, pr.base.r, a.files, schema);
    } else {
      FaithfulStep(s.current, pr.r, a.files, schema);
    }
    MoveKeeps(s, s', p, schema);
  }

  lemma BeginKeeps(s: Store, a: Action, schema: Schema)
    requires Inv(s, schema) && Enabled(s, a, schema) && (a.BeginUpsert? || a.BeginNodeState? || a.GiveUp?)
    ensures Inv(Do(s, a, schema), schema) && Do(s, a, schema).current == s.current
  {
    UpFacts(s, a.p, schema);
    MoveKeeps(s, Do(s, a, schema), a.p, schema);
  }

  /** Submitting a patch changes the submitting process only. */
  lemma SubmitMoves(s: Store, a: Action, schema: Schema)
    requires Enabled(s, a, schema) && a.Submit?
    ensures var pr, s' := s.procs[a.p], Do(s, a, schema);
            && a.p in s'.procs && s' == s.(procs := s.procs[a.p := s'.procs[a.p]]) && pr.ReadingBase?
            && (s'.procs[a.p].Idle? || s'.procs[a.p] == Waiting(PatchRequest(pr.base), Some(pr.base)))
  {
  }

  lemma SubmitKeeps(s: Store, a: Action, schema: Schema)
    requires Inv(s, schema) && Enabled(s, a, schema) && a.Submit?
    ensures Inv(Do(s, a, schema), schema) && Do(s, a, schema).current == s.current
  {
    var p, s' := a.p, Do(s, a, schema);
    SubmitMoves(s, a, schema);
    UpFacts(s, p, schema);
    MoveKeeps(s, s', p, schema);
  }

  lemma AcquireKeeps(s: Store, a: Action, schema: Schema)
    requires Inv(s, schema) && Enabled(s, a, schema) && a.Acquire?
    ensures Inv(Do(s, a, schema), schema) && Do(s, a, schema).current == s.current
  {
    UpFacts(s, a.p, schema);
    MoveKeeps(s, Do(s, a, schema), a.p, schema);
  }

  lemma SpawnCrashKeeps(s: Store, a: Action, schema: Schema)
    requires Inv(s, schema) && Enabled(s, a, schema) && (a.Spawn? || a.Crash?)
    ensures Inv(Do(s, a, schema), schema) && Do(s, a, schema).current == s.current
  {
    var s' := Do(s, a, schema);
    forall q | q in s'.procs ensures ProcInv(s', s'.procs[q], schema) {
      if q in s.procs {
        assert ProcInv(s, s.procs[q], schema) && s'.procs[q] == s.procs[q];
      }
    }
  }

  lemma StepKeeps(s: Store, a: Action, schema: Schema)
    requires Inv(s, schema) && Enabled(s, a, schema)
    ensures Inv(Do(s, a, schema), schema)
  {
    if IsBootAction(a) {
      BootKeeps(s, a, schema);
    } else if a.Spawn? || a.Crash? {
      SpawnCrashKeeps(s, a, schema);
    } else if a.Submit? || a.Acquire? || a.Decide? || a.ReadNext? {
      RequestStepKeeps(s, a, schema);
    } else {
      SwapStepKeeps(s, a, schema);
    }
  }

  /** From reading the base to the decision under the lock. */
  lemma RequestStepKeeps(s: Store, a: Action, schema: Schema)
    requires Inv(s, schema) && Enabled(s, a, schema) && (a.Submit? || a.Acquire? || a.Decide? || a.ReadNext?)
    ensures Inv(Do(s, a, schema), schema)
  {
    if a.Submit? {
      SubmitKeeps(s, a, schema);
    } else if a.Acquire? {
      AcquireKeeps(s, a, schema);
    } else if a.Decide? {
      DecideKeeps(s, a, schema);
    } else {
      ReadKeeps(s, a, schema);
    }
  }

  lemma SwapStepKeeps(s: Store, a: Action, schema: Schema)
    requires Inv(s, schema) && Enabled(s, a, schema) && !IsBootAction(a)
    requires !a.Spawn? && !a.Crash? && !a.Submit? && !a.Acquire? && !a.Decide? && !a.ReadNext?
    ensures Inv(Do(s, a, schema), schema)
  {
    if a.StageNext? {
      StageNextKeeps(s, a, schema);
    } else if a.Retire? {
      RetireKeeps(s, a, schema);
    } else if a.Activate? {
      ActivateKeeps(s, a, schema);
    } else if a.Shred? || a.Discard? || a.Release? {
      DiscardKeeps(s, a, schema);
    } else {
      BeginKeeps(s, a, schema);
    }
  }

  /** The invariant holds in every state of every run. */
  lemma {:induction false} RunKeeps(s: Store, run: seq<Action>, schema: Schema)
    requires Inv(s, schema) && Runnable(s, run, schema)
    ensures Inv(After(s, run, schema), schema)
    decreases run
  {
    if run != [] {
      StepKeeps(s, run[0], schema);
      RunKeeps(Do(s, run[0], schema), run[1..], schema);
    }
  }

  lemma EmptyStoreInv(schema: Schema)
    ensures Inv(EMPTY_STORE, schema)
  {
  }
}
