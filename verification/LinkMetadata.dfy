/**
 * The metadata linking a tool call of a parent agent to the run it started in a child thread:
 * its printer and parser, and the updates made when the child run starts, receives a message
 * and completes.
 */
module LinkMetadata {
  import opened Wrappers
  import opened Json

  datatype Tool = CallAgent | CallEngineer | Manage

  datatype ChildRun = ChildRun(id: Option<string>, status: string, linkEnabled: bool, latestMessageId: Option<string>)

  /** The flat fields repeat the nested ones for old readers. None is an absent field, Some(None) a null one. */
  datatype Link = Link(
    tool: Tool, parentThreadId: string, childThreadId: string, childRun: ChildRun,
    childRunId: Option<Option<string>>, childRunStatus: Option<string>,
    childRunLinkEnabled: Option<bool>, childMessageId: Option<Option<string>>)

  function ToolName(tool: Tool): string {
    match tool
    case CallAgent => "call_agent"
    case CallEngineer => "call_engineer"
    case Manage => "manage"
  }

  function CanonicalizeToolName(name: string): Option<Tool> {
    if name == "call_agent" then Some(CallAgent)
    else if name == "call_engineer" then Some(CallEngineer)
    else if name == "manage" || name == "manage_agent" then Some(Manage)
    else None
  }

  function ToolSearchNames(tool: Tool): seq<string> {
    match tool
    case CallAgent => ["call_agent"]
    case CallEngineer => ["call_engineer"]
    case Manage => ["manage", "manage_agent"]
  }

  /** A name is searched for exactly under the tool it stands for. */
  lemma AliasesAreCanonical(name: string, tool: Tool)
    ensures name in ToolSearchNames(tool) <==> CanonicalizeToolName(name) == Some(tool)
    ensures CanonicalizeToolName(ToolName(tool)) == Some(tool)
  {
    if tool.Manage? {
      assert ToolSearchNames(tool)[1] == "manage_agent" && ToolSearchNames(tool)[0] == "manage";
    } else {
      assert ToolSearchNames(tool)[0] == ToolName(tool);
    }
  }

  /** The link with this child run, its flat fields repeating it. */
  function WithRun(m: Link, run: ChildRun): Link {
    m.(childRun := run, childRunId := Some(run.id), childRunStatus := Some(run.status),
       childRunLinkEnabled := Some(run.linkEnabled), childMessageId := Some(run.latestMessageId))
  }

  predicate Mirrored(m: Link) {
    && m.childRunId == Some(m.childRun.id) && m.childRunStatus == Some(m.childRun.status)
    && m.childRunLinkEnabled == Some(m.childRun.linkEnabled) && m.childMessageId == Some(m.childRun.latestMessageId)
  }

  const NotStarted := ChildRun(None, "queued", false, None)

  function BuildInitialMetadata(tool: Tool, parentThreadId: string, childThreadId: string): (m: Link)
    ensures Mirrored(m) && m.childRun == NotStarted
  {
    WithRun(Link(tool, parentThreadId, childThreadId, NotStarted, None, None, None, None), NotStarted)
  }

  // ---- printing ----

  function OrNull(s: Option<string>): Json {
    if s.Some? then Str(s.value) else Null
  }

  /** The flat text if there is one, else the nested one. */
  function FlatOr(flat: Option<Option<string>>, nested: Option<string>): Option<string> {
    if flat.Some? && flat.value.Some? then flat.value else nested
  }

  function SerializeMetadata(m: Link): Json {
    Obj([
      Field("tool", Str(ToolName(m.tool))),
      Field("parentThreadId", Str(m.parentThreadId)),
      Field("childThreadId", Str(m.childThreadId)),
      Field("childRun", Obj([
        Field("id", OrNull(m.childRun.id)),
        Field("status", Str(m.childRun.status)),
        Field("linkEnabled", Bool(m.childRun.linkEnabled)),
        Field("latestMessageId", OrNull(m.childRun.latestMessageId))])),
      Field("childRunId", OrNull(FlatOr(m.childRunId, m.childRun.id))),
      Field("childRunStatus", Str(m.childRunStatus.GetOr(m.childRun.status))),
      Field("childRunLinkEnabled", Bool(m.childRunLinkEnabled.GetOr(m.childRun.linkEnabled))),
      Field("childMessageId", OrNull(FlatOr(m.childMessageId, m.childRun.latestMessageId)))])
  }

  // ---- parsing ----

  function Member(v: Json, key: string): Option<Json> {
    if v.Obj? then Get(v.fields, key) else None
  }

  function Text(v: Option<Json>): Option<string> {
    if v.Some? && v.value.Str? then Some(v.value.s) else None
  }

  function Flag(v: Option<Json>): Option<bool> {
    if v.Some? && v.value.Bool? then Some(v.value.b) else None
  }

  function Prefer<T>(first: Option<T>, second: Option<T>): Option<T> {
    if first.Some? then first else second
  }

  function Nested(raw: Json, key: string): Option<Json> {
    var run := Member(raw, "childRun");
    if run.Some? then Member(run.value, key) else None
  }

  /**
   * What stored metadata means. A non-empty nested id wins over the flat one; the flat status and
   * message win over the nested ones; the link is enabled when either form says so.
   */
  function Meaning(raw: Json): Option<Link> {
    var parent, child := Text(Member(raw, "parentThreadId")), Text(Member(raw, "childThreadId"));
    if parent.GetOr("") == "" || child.GetOr("") == "" then None
    else
      var tool := CanonicalizeToolName(Text(Member(raw, "tool")).GetOr("call_agent")).GetOr(CallAgent);
      var nestedId, flatId := Text(Nested(raw, "id")), Text(Member(raw, "childRunId"));
      var run := ChildRun(
        if nestedId.GetOr("") != "" then nestedId else Prefer(flatId, nestedId),
        Prefer(Text(Member(raw, "childRunStatus")), Text(Nested(raw, "status"))).GetOr("queued"),
        Flag(Nested(raw, "linkEnabled")) == Some(true) || Flag(Member(raw, "childRunLinkEnabled")) == Some(true),
        Prefer(Text(Member(raw, "childMessageId")), Text(Nested(raw, "latestMessageId"))));
      Some(WithRun(Link(tool, parent.value, child.value, run, None, None, None, None), run))
  }

  /** The nested record over its defaults. */
  method ParseChildRun(raw: Json)
    returns (id: Option<string>, status: string, linkEnabled: bool, latestMessageId: Option<string>)
    requires raw.Obj?
    ensures id == Text(Nested(raw, "id")) && status == Text(Nested(raw, "status")).GetOr("queued")
    ensures linkEnabled == (Flag(Nested(raw, "linkEnabled")) == Some(true))
    ensures latestMessageId == Text(Nested(raw, "latestMessageId"))
  {
    id, status, linkEnabled, latestMessageId := None, "queued", false, None;
    var nested := Get(raw.fields, "childRun");
    if nested.Some? && nested.value.Obj? {
      var fields := nested.value.fields;
      if IsString(Get(fields, "id")) {
        id := Some(Get(fields, "id").value.s);
      }
      if IsString(Get(fields, "status")) {
        status := Get(fields, "status").value.s;
      }
      if Get(fields, "linkEnabled").Some? && Get(fields, "linkEnabled").value.Bool? {
        linkEnabled := Get(fields, "linkEnabled").value.b;
      }
      if IsString(Get(fields, "latestMessageId")) {
        latestMessageId := Some(Get(fields, "latestMessageId").value.s);
      }
    }
  }

  method ParseMetadata(raw: Json) returns (r: Option<Link>)
    ensures r == Meaning(raw)
  {
    if !raw.Obj? {
      return None;
    }
    var toolRaw := if IsString(Get(raw.fields, "tool")) then Get(raw.fields, "tool").value.s else "call_agent";
    var tool := CanonicalizeToolName(toolRaw).GetOr(CallAgent);
    var parent, child := Get(raw.fields, "parentThreadId"), Get(raw.fields, "childThreadId");
    if !IsNonEmptyString(parent) || !IsNonEmptyString(child) {
      return None;
    }
    var id, status, linkEnabled, latestMessageId := ParseChildRun(raw);
    if IsString(Get(raw.fields, "childRunId")) && (id.None? || id.value == "") {
      id := Some(Get(raw.fields, "childRunId").value.s);
    }
    if IsString(Get(raw.fields, "childRunStatus")) {
      status := Get(raw.fields, "childRunStatus").value.s;
    }
    if Get(raw.fields, "childRunLinkEnabled") == Some(Bool(true)) {
      linkEnabled := true;
    }
    if IsString(Get(raw.fields, "childMessageId")) {
      latestMessageId := Some(Get(raw.fields, "childMessageId").value.s);
    }
    return Some(Link(tool, parent.value.s, child.value.s, ChildRun(id, status, linkEnabled, latestMessageId),
                     Some(id), Some(status), Some(linkEnabled), Some(latestMessageId)));
  }

  // ---- round trip ----

  /** The two forms of the printed metadata, field by field. */
  lemma SerializedMembers(m: Link)
    ensures var raw := SerializeMetadata(m);
            && Member(raw, "tool") == Some(Str(ToolName(m.tool)))
            && Member(raw, "parentThreadId") == Some(Str(m.parentThreadId))
            && Member(raw, "childThreadId") == Some(Str(m.childThreadId))
            && Nested(raw, "id") == Some(OrNull(m.childRun.id))
            && Nested(raw, "status") == Some(Str(m.childRun.status))
            && Nested(raw, "linkEnabled") == Some(Bool(m.childRun.linkEnabled))
            && Nested(raw, "latestMessageId") == Some(OrNull(m.childRun.latestMessageId))
            && Member(raw, "childRunId") == Some(OrNull(FlatOr(m.childRunId, m.childRun.id)))
            && Member(raw, "childRunStatus") == Some(Str(m.childRunStatus.GetOr(m.childRun.status)))
            && Member(raw, "childRunLinkEnabled") == Some(Bool(m.childRunLinkEnabled.GetOr(m.childRun.linkEnabled)))
            && Member(raw, "childMessageId") == Some(OrNull(FlatOr(m.childMessageId, m.childRun.latestMessageId)))
  {
    var fields := SerializeMetadata(m).fields;
    var nested := fields[3].value.fields;
    KeysDiffer();
    forall i | 0 <= i < 8 ensures Get(fields, fields[i].key) == Some(fields[i].value) {
      assert DistinctKeys(fields);
      GetAt(fields, i);
    }
    forall i | 0 <= i < 4 ensures Get(nested, nested[i].key) == Some(nested[i].value) {
      assert DistinctKeys(nested);
      GetAt(nested, i);
    }
    assert fields[0].key == "tool" && fields[1].key == "parentThreadId";
    assert fields[2].key == "childThreadId" && fields[3].key == "childRun";
    assert fields[4].key == "childRunId" && fields[5].key == "childRunStatus";
    assert fields[6].key == "childRunLinkEnabled" && fields[7].key == "childMessageId";
    assert nested[0].key == "id" && nested[1].key == "status";
    assert nested[2].key == "linkEnabled" && nested[3].key == "latestMessageId";
  }

  lemma KeysDiffer()
    ensures "parentThreadId" != "childRunStatus" && "parentThreadId" != "childMessageId"
    ensures "childRunStatus" != "childMessageId"
  {
    assert "parentThreadId"[5] != "childRunStatus"[5] && "childRunStatus"[5] != "childMessageId"[5];
    assert "parentThreadId"[0] != "childMessageId"[0];
  }

  predicate HasThreads(m: Link) {
    m.parentThreadId != "" && m.childThreadId != ""
  }

  /** What is read back of any link: absent flat fields do no harm, and a flat false is overruled. */
  lemma SerializedMeaning(m: Link)
    ensures !HasThreads(m) ==> Meaning(SerializeMetadata(m)) == None
    ensures HasThreads(m) ==>
      Meaning(SerializeMetadata(m)) == Some(WithRun(m, ChildRun(
        if m.childRun.id.GetOr("") != "" then m.childRun.id else FlatOr(m.childRunId, m.childRun.id),
        m.childRunStatus.GetOr(m.childRun.status),
        m.childRun.linkEnabled || m.childRunLinkEnabled == Some(true),
        FlatOr(m.childMessageId, m.childRun.latestMessageId))))
  {
    SerializedMembers(m);
    AliasesAreCanonical("", m.tool);
  }

  /** Parsing undoes printing exactly for mirrored links with thread ids. */
  lemma ParseUndoesSerialize(m: Link)
    ensures Meaning(SerializeMetadata(m)) == Some(m) <==> Mirrored(m) && HasThreads(m)
  {
    SerializedMeaning(m);
    if Mirrored(m) {
      assert WithRun(m, m.childRun) == m;
    }
  }

  lemma MeaningIsMirrored(raw: Json)
    ensures Meaning(raw).Some? ==> Mirrored(Meaning(raw).value) && HasThreads(Meaning(raw).value)
  {
  }

  /** Whatever was stored, writing back what was read and reading again changes nothing. */
  lemma RewriteKeepsMeaning(raw: Json)
    requires Meaning(raw).Some?
    ensures Meaning(SerializeMetadata(Meaning(raw).value)) == Meaning(raw)
  {
    MeaningIsMirrored(raw);
    ParseUndoesSerialize(Meaning(raw).value);
  }

  // ---- updates ----

  datatype Update =
    | Started(childThreadId: string, runId: string, latestMessageId: Option<string>)
    | Message(runId: string, latestMessageId: Option<string>)
    | Completed(runId: string, status: string)

  function RunAfter(run: ChildRun, u: Update): ChildRun {
    match u
    case Started(_, runId, message) => ChildRun(Some(runId), "running", true, message)
    case Message(runId, message) =>
      ChildRun(Prefer(run.id, Some(runId)), run.status,
               run.linkEnabled || runId != "", Prefer(message, run.latestMessageId))
    case Completed(runId, status) => ChildRun(Prefer(run.id, Some(runId)), status, true, run.latestMessageId)
  }

  /** The stored metadata of the row an update is applied to. */
  function After(raw: Json, u: Update): Json {
    match Meaning(raw)
    case None => raw
    case Some(m) => SerializeMetadata(WithRun(m, RunAfter(m.childRun, u)))
  }

  /** The row is one the update looks for. */
  predicate Hits(raw: Json, u: Update) {
    if u.Started? then Member(raw, "childThreadId") == Some(Str(u.childThreadId))
    else Member(raw, "childRunId") == Some(Str(u.runId))
  }

  /** The stored flat fields are there and equal the nested ones. */
  ghost predicate FormsAgree(raw: Json) {
    && Member(raw, "childRunId").Some? && Member(raw, "childRunId") == Nested(raw, "id")
    && Member(raw, "childRunStatus").Some? && Member(raw, "childRunStatus") == Nested(raw, "status")
    && Member(raw, "childRunLinkEnabled").Some? && Member(raw, "childRunLinkEnabled") == Nested(raw, "linkEnabled")
    && Member(raw, "childMessageId").Some? && Member(raw, "childMessageId") == Nested(raw, "latestMessageId")
  }

  lemma MirroredFormsAgree(m: Link)
    ensures Mirrored(m) ==> FormsAgree(SerializeMetadata(m))
  {
    SerializedMembers(m);
  }

  lemma AfterMeans(raw: Json, u: Update)
    requires Meaning(raw).Some?
    ensures var m := Meaning(raw).value;
            Meaning(After(raw, u)) == Some(WithRun(m, RunAfter(m.childRun, u))) && FormsAgree(After(raw, u))
  {
    MeaningIsMirrored(raw);
    var m := Meaning(raw).value;
    ParseUndoesSerialize(WithRun(m, RunAfter(m.childRun, u)));
    MirroredFormsAgree(WithRun(m, RunAfter(m.childRun, u)));
  }

  /**
   * A message or completion found by the flat run id ends up recorded under that id exactly when
   * the nested id is empty or the same: a different nested id wins and overwrites the flat one.
   */
  lemma RecordedRunId(raw: Json, u: Update)
    requires Meaning(raw).Some? && !u.Started? && Hits(raw, u)
    ensures
      var nested := Text(Nested(raw, "id")).GetOr("");
      Meaning(After(raw, u)).Some?
      && (Meaning(After(raw, u)).value.childRun.id == Some(u.runId) <==> nested == "" || nested == u.runId)
  {
    AfterMeans(raw, u);
  }

  // ---- whole runs over one row ----

  function RunOn(raw: Json, us: seq<Update>): Json {
    if us == [] then raw else After(RunOn(raw, us[..|us| - 1]), us[|us| - 1])
  }

  /** Every update finds the row as the earlier ones left it. */
  predicate Applies(raw: Json, us: seq<Update>) {
    us == [] || (Applies(raw, us[..|us| - 1]) && Hits(RunOn(raw, us[..|us| - 1]), us[|us| - 1]))
  }

  ghost predicate NoStart(us: seq<Update>) {
    forall k :: 0 <= k < |us| ==> !us[k].Started?
  }

  /** Messages and completions never change a set run id and never clear the link flag, on any row. */
  lemma {:induction false} RunStaysLinked(raw: Json, us: seq<Update>)
    requires Meaning(raw).Some? && NoStart(us)
    ensures Meaning(RunOn(raw, us)).Some?
    ensures var before, after := Meaning(raw).value, Meaning(RunOn(raw, us)).value;
            && (before.childRun.id.Some? ==> after.childRun.id == before.childRun.id)
            && (before.childRun.linkEnabled ==> after.childRun.linkEnabled)
            && after.tool == before.tool
            && after.parentThreadId == before.parentThreadId && after.childThreadId == before.childThreadId
  {
    if us != [] {
      RunStaysLinked(raw, us[..|us| - 1]);
      AfterMeans(RunOn(raw, us[..|us| - 1]), us[|us| - 1]);
    }
  }

  /** The last status reported by a completion. */
  function LastStatus(us: seq<Update>): Option<string> {
    if us == [] then None
    else if us[|us| - 1].Completed? then Some(us[|us| - 1].status)
    else LastStatus(us[..|us| - 1])
  }

  /** The last message id that was not null. */
  function LastMessage(us: seq<Update>): Option<string> {
    if us == [] then None
    else
      var u := us[|us| - 1];
      if !u.Completed? && u.latestMessageId.Some? then u.latestMessageId else LastMessage(us[..|us| - 1])
  }

  /** The latest start is at s and everything since concerns its run. */
  ghost predicate SinceStart(us: seq<Update>, s: nat, run: ChildRun) {
    && s < |us| && us[s].Started?
    && (forall k :: s < k < |us| ==> !us[k].Started? && us[k].runId == us[s].runId)
    && run.id == Some(us[s].runId) && run.linkEnabled
    && run.status == LastStatus(us[s..]).GetOr("running")
    && run.latestMessageId == LastMessage(us[s..])
  }

  ghost predicate Reports(us: seq<Update>, run: ChildRun) {
    (us == [] && run == NotStarted) || exists s: nat :: SinceStart(us, s, run)
  }

  function Registered(tool: Tool, parentThreadId: string, childThreadId: string): Json {
    SerializeMetadata(BuildInitialMetadata(tool, parentThreadId, childThreadId))
  }

  /**
   * After any run of updates from registration, the row reports the child run started last: its
   * id, its last completion status or "running", its last message; all later updates that found
   * the row were about that run, and the flat fields repeat it.
   */
  lemma RowReportsLastRun(tool: Tool, parent: string, child: string, us: seq<Update>)
    requires parent != "" && child != "" && Applies(Registered(tool, parent, child), us)
    ensures RowReports(RunOn(Registered(tool, parent, child), us), tool, parent, child, us)
    ensures FormsAgree(RunOn(Registered(tool, parent, child), us))
  {
    RegisteredReports(tool, parent, child);
    ReportsFrom(Registered(tool, parent, child), tool, parent, child, us);
  }

  lemma {:induction false} ReportsFrom(first: Json, tool: Tool, parent: string, child: string, us: seq<Update>)
    requires RowReports(first, tool, parent, child, []) && FormsAgree(first) && Applies(first, us)
    ensures RowReports(RunOn(first, us), tool, parent, child, us) && FormsAgree(RunOn(first, us))
  {
    if us != [] {
      var init, u := us[..|us| - 1], us[|us| - 1];
      assert us == init + [u];
      ReportsFrom(first, tool, parent, child, init);
      RowReportsNext(RunOn(first, init), tool, parent, child, init, u);
    }
  }

  lemma RegisteredReports(tool: Tool, parent: string, child: string)
    requires parent != "" && child != ""
    ensures RowReports(Registered(tool, parent, child), tool, parent, child, [])
    ensures FormsAgree(Registered(tool, parent, child))
  {
    var m := BuildInitialMetadata(tool, parent, child);
    ParseUndoesSerialize(m);
    MirroredFormsAgree(m);
  }

  ghost predicate RowReports(raw: Json, tool: Tool, parent: string, child: string, us: seq<Update>) {
    match Meaning(raw)
    case None => false
    case Some(m) =>
      && raw == SerializeMetadata(m) && m.tool == tool && m.parentThreadId == parent && m.childThreadId == child
      && Reports(us, m.childRun)
  }

  lemma RowReportsNext(raw: Json, tool: Tool, parent: string, child: string, us: seq<Update>, u: Update)
    requires RowReports(raw, tool, parent, child, us) && Hits(raw, u)
    ensures RowReports(After(raw, u), tool, parent, child, us + [u]) && FormsAgree(After(raw, u))
  {
    var m := Meaning(raw).value;
    MeaningIsMirrored(raw);
    HitMeansSameRun(m, u);
    AfterMeans(raw, u);
    if u.Started? {
      ReportsStart(us, u, m.childRun);
    } else {
      ReportsNext(us, u, m.childRun);
    }
  }

  lemma HitMeansSameRun(m: Link, u: Update)
    requires Mirrored(m) && Hits(SerializeMetadata(m), u)
    ensures u.Started? || m.childRun.id == Some(u.runId)
  {
    SerializedMembers(m);
  }

  lemma LastOfMore(us: seq<Update>, u: Update)
    ensures LastStatus(us + [u]) == if u.Completed? then Some(u.status) else LastStatus(us)
    ensures LastMessage(us + [u]) ==
      if !u.Completed? && u.latestMessageId.Some? then u.latestMessageId else LastMessage(us)
  {
    assert (us + [u])[..|us|] == us;
  }

  lemma ReportsStart(us: seq<Update>, u: Update, run: ChildRun)
    requires u.Started?
    ensures Reports(us + [u], RunAfter(run, u))
  {
    assert (us + [u])[|us|..] == [] + [u];
    LastOfMore([], u);
    assert SinceStart(us + [u], |us|, RunAfter(run, u));
  }

  lemma ReportsNext(us: seq<Update>, u: Update, run: ChildRun)
    requires Reports(us, run) && !u.Started? && run.id == Some(u.runId)
    ensures Reports(us + [u], RunAfter(run, u))
  {
    var s: nat :| SinceStart(us, s, run);
    assert (us + [u])[s..] == us[s..] + [u];
    LastOfMore(us[s..], u);
    assert SinceStart(us + [u], s, RunAfter(run, u));
  }

  // ---- the event table ----

  /** A run event; only tool executions have a tool name. */
  datatype Event = Event(
    id: string, runId: string, toolName: Option<string>, ts: int, startedAt: Option<int>, metadata: Json)

  ghost predicate Linkable(e: Event) {
    e.toolName.Some? && CanonicalizeToolName(e.toolName.value).Some?
  }

  ghost predicate Candidate(e: Event, u: Update) {
    Linkable(e) && Hits(e.metadata, u)
  }

  /** Row i is the most recent one the update looks for. */
  ghost predicate Latest(rows: seq<Event>, u: Update, i: nat) {
    && i < |rows| && Candidate(rows[i], u)
    && forall j :: 0 <= j < |rows| && Candidate(rows[j], u) ==> rows[j].ts <= rows[i].ts
  }

  ghost predicate ToolEvent(e: Event, runId: string, tool: Tool) {
    e.runId == runId && e.toolName.Some? && CanonicalizeToolName(e.toolName.value) == Some(tool)
  }

  /** Descending start time with missing ones first, as the database sorts them. */
  predicate NotLater(a: Option<int>, b: Option<int>) {
    b.None? || (a.Some? && a.value <= b.value)
  }

  ghost predicate LatestTool(rows: seq<Event>, runId: string, tool: Tool, i: nat) {
    i < |rows| && ToolEvent(rows[i], runId, tool)
    && forall j :: 0 <= j < |rows| && ToolEvent(rows[j], runId, tool) ==> NotLater(rows[j].startedAt, rows[i].startedAt)
  }

  /**
   * The table after an update: the latest row it looks for is rewritten, unless it does not parse
   * or the write is refused; no other row changes.
   */
  ghost predicate Updated(before: seq<Event>, after: seq<Event>, u: Update, eventId: Option<string>) {
    if eventId.None? then
      after == before && ((forall i :: 0 <= i < |before| ==> !Candidate(before[i], u))
                          || exists i: nat :: Latest(before, u, i) && Meaning(before[i].metadata).None?)
    else
      exists i: nat ::
        && Latest(before, u, i) && Meaning(before[i].metadata).Some? && eventId == Some(before[i].id)
        && (after == before || after == before[i := before[i].(metadata := After(before[i].metadata, u))])
  }

  /** What this service did to a row: nothing yet, or a registration and then updates. */
  datatype History = Untouched | Since(tool: Tool, parentThreadId: string, childThreadId: string, updates: seq<Update>)

  ghost predicate Follows(raw: Json, h: History) {
    h.Since? ==>
      var first := Registered(h.tool, h.parentThreadId, h.childThreadId);
      Applies(first, h.updates) && raw == RunOn(first, h.updates)
  }

  function Extended(h: History, u: Update): History {
    if h.Since? then h.(updates := h.updates + [u]) else h
  }

  lemma FollowsNext(raw: Json, h: History, u: Update)
    requires Follows(raw, h) && Hits(raw, u)
    ensures Follows(After(raw, u), Extended(h, u))
  {
    if h.Since? {
      var all := h.updates + [u];
      assert all[..|all| - 1] == h.updates;
    }
  }

  class CallAgentLinking {
    var rows: seq<Event>
    ghost var histories: seq<History>

    ghost predicate Valid()
      reads this
    {
      |histories| == |rows| && forall i :: 0 <= i < |rows| ==> Follows(rows[i].metadata, histories[i])
    }

    constructor (rows: seq<Event>)
      ensures Valid() && this.rows == rows
    {
      this.rows := rows;
      histories := seq(|rows|, _ => Untouched);
    }

    /** In every registered row, whatever has happened since, nested and flat fields agree. */
    lemma RegisteredRowsAgree(i: nat)
      requires Valid() && i < |rows| && histories[i].Since?
      ensures FormsAgree(rows[i].metadata)
    {
      var h := histories[i];
      if h.parentThreadId != "" && h.childThreadId != "" {
        RowReportsLastRun(h.tool, h.parentThreadId, h.childThreadId, h.updates);
      } else {
        DeadLinkKept(h.tool, h.parentThreadId, h.childThreadId, h.updates);
      }
    }

    method FindLatestToolEvent(runId: string, tool: Tool) returns (found: Option<nat>)
      ensures found.None? ==> forall i :: 0 <= i < |rows| ==> !ToolEvent(rows[i], runId, tool)
      ensures found.Some? ==> LatestTool(rows, runId, tool, found.value)
    {
      found := None;
      var names := ToolSearchNames(tool);
      for i := 0 to |rows|
        invariant found.None? ==> forall j :: 0 <= j < i ==> !ToolEvent(rows[j], runId, tool)
        invariant found.Some? ==> found.value < i && ToolEvent(rows[found.value], runId, tool)
        invariant found.Some? ==>
          forall j :: 0 <= j < i && ToolEvent(rows[j], runId, tool) ==>
            NotLater(rows[j].startedAt, rows[found.value].startedAt)
      {
        var e := rows[i];
        if e.toolName.Some? {
          AliasesAreCanonical(e.toolName.value, tool);
        }
        var hit := e.runId == runId && e.toolName.Some? && e.toolName.value in names;
        assert hit == ToolEvent(e, runId, tool);
        if hit && (found.None? || !NotLater(e.startedAt, rows[found.value].startedAt)) {
          found := Some(i);
        }
      }
    }

    /** The latest linkable tool execution with this text under the key of its metadata. */
    method FindParentEvent(key: string, value: string, ghost u: Update) returns (found: Option<nat>)
      requires forall raw :: Hits(raw, u) <==> Member(raw, key) == Some(Str(value))
      ensures found.None? ==> forall i :: 0 <= i < |rows| ==> !Candidate(rows[i], u)
      ensures found.Some? ==> Latest(rows, u, found.value)
    {
      found := None;
      for i := 0 to |rows|
        invariant found.None? ==> forall j :: 0 <= j < i ==> !Candidate(rows[j], u)
        invariant found.Some? ==> found.value < i && Latest(rows[..i], u, found.value)
      {
        var e := rows[i];
        if e.toolName.Some? && e.toolName.value in ["call_agent", "call_engineer", "manage", "manage_agent"]
           && Member(e.metadata, key) == Some(Str(value)) && (found.None? || rows[found.value].ts < e.ts) {
          found := Some(i);
        }
      }
      assert rows[..|rows|] == rows;
    }

    /** Writes the metadata of one row; a refused write is logged and otherwise ignored. */
    method SaveMetadata(i: nat, m: Link, ghost h: History) returns (ghost saved: bool)
      requires Valid() && i < |rows| && Follows(SerializeMetadata(m), h)
      modifies this
      ensures Valid()
      ensures !saved ==> rows == old(rows) && histories == old(histories)
      ensures saved ==>
        && rows == old(rows)[i := old(rows)[i].(metadata := SerializeMetadata(m))]
        && histories == old(histories)[i := h]
    {
      var ok: bool := *;
      if ok {
        rows := rows[i := rows[i].(metadata := SerializeMetadata(m))];
        histories := histories[i := h];
      }
      saved := ok;
    }

    /** Links the run's latest execution of the tool; the whole transaction may fail. */
    method RegisterParentToolExecution(runId: string, parentThreadId: string, childThreadId: string, toolName: string)
      returns (eventId: Option<string>, ghost at: nat, ghost saved: bool)
      requires Valid()
      modifies this
      ensures Valid() && (eventId.None? ==> !saved) && (!saved ==> rows == old(rows))
      ensures eventId.Some? ==>
        && CanonicalizeToolName(toolName).Some?
        && LatestTool(old(rows), runId, CanonicalizeToolName(toolName).value, at) && eventId == Some(old(rows)[at].id)
      ensures saved ==>
        var raw := Registered(CanonicalizeToolName(toolName).value, parentThreadId, childThreadId);
        rows == old(rows)[at := old(rows)[at].(metadata := raw)] && histories[at].Since?
    {
      eventId, at, saved := None, 0, false;
      var tool := CanonicalizeToolName(toolName);
      if tool.None? {
        return;
      }
      var found := FindLatestToolEvent(runId, tool.value);
      var committed: bool := *;
      if found.None? || !committed {
        return;
      }
      var m := BuildInitialMetadata(tool.value, parentThreadId, childThreadId);
      var i := found.value;
      at := i;
      saved := SaveMetadata(i, m, Since(tool.value, parentThreadId, childThreadId, []));
      eventId := Some(rows[i].id);
    }

    method OnChildRunStarted(childThreadId: string, runId: string, latestMessageId: Option<string>)
      returns (eventId: Option<string>)
      requires Valid()
      modifies this
      ensures Valid() && Updated(old(rows), rows, Started(childThreadId, runId, latestMessageId), eventId)
    {
      ghost var u := Started(childThreadId, runId, latestMessageId);
      var found := FindParentEvent("childThreadId", childThreadId, u);
      if found.None? {
        return None;
      }
      var i := found.value;
      var current := ParseMetadata(rows[i].metadata);
      if current.None? {
        return None;
      }
      FollowsNext(rows[i].metadata, histories[i], u);
      var childRun := ChildRun(Some(runId), "running", true, latestMessageId);
      ghost var saved := SaveMetadata(i, WithRun(current.value, childRun), Extended(histories[i], u));
      return Some(rows[i].id);
    }

    method OnChildRunMessage(runId: string, latestMessageId: Option<string>) returns (eventId: Option<string>)
      requires Valid()
      modifies this
      ensures Valid() && Updated(old(rows), rows, Message(runId, latestMessageId), eventId)
    {
      ghost var u := Message(runId, latestMessageId);
      var found := FindParentEvent("childRunId", runId, u);
      if found.None? {
        return None;
      }
      var i := found.value;
      var current := ParseMetadata(rows[i].metadata);
      if current.None? {
        return None;
      }
      FollowsNext(rows[i].metadata, histories[i], u);
      var run := current.value.childRun;
      var childRun := ChildRun(
        if run.id.Some? then run.id else Some(runId),
        run.status,
        run.linkEnabled || runId != "",
        if latestMessageId.Some? then latestMessageId else run.latestMessageId);
      ghost var saved := SaveMetadata(i, WithRun(current.value, childRun), Extended(histories[i], u));
      return Some(rows[i].id);
    }

    method OnChildRunCompleted(runId: string, status: string) returns (eventId: Option<string>)
      requires Valid()
      modifies this
      ensures Valid() && Updated(old(rows), rows, Completed(runId, status), eventId)
    {
      ghost var u := Completed(runId, status);
      var found := FindParentEvent("childRunId", runId, u);
      if found.None? {
        return None;
      }
      var i := found.value;
      var current := ParseMetadata(rows[i].metadata);
      if current.None? {
        return None;
      }
      FollowsNext(rows[i].metadata, histories[i], u);
      var run := current.value.childRun;
      var childRun := ChildRun(if run.id.Some? then run.id else Some(runId), status, true, run.latestMessageId);
      ghost var saved := SaveMetadata(i, WithRun(current.value, childRun), Extended(histories[i], u));
      return Some(rows[i].id);
    }
  }

  /** A link registered without thread ids never parses again, so it keeps its first, agreeing form. */
  lemma {:induction false} DeadLinkKept(tool: Tool, parent: string, child: string, us: seq<Update>)
    requires parent == "" || child == ""
    ensures RunOn(Registered(tool, parent, child), us) == Registered(tool, parent, child)
    ensures FormsAgree(Registered(tool, parent, child)) && Meaning(Registered(tool, parent, child)).None?
  {
    var m := BuildInitialMetadata(tool, parent, child);
    SerializedMeaning(m);
    MirroredFormsAgree(m);
    if us != [] {
      DeadLinkKept(tool, parent, child, us[..|us| - 1]);
    }
  }
}
