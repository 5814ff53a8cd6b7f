/** What a resolution reports: the counts balance, and every event points at the reference it is about. */
module ReferencesReport {
  import opened Wrappers
  import opened Text
  import opened References
  import opened ReferencesStructure
  import JsonPointer

  // ---- accounting ----

  /** What n resolved references do to the report of a normal return. */
  ghost predicate Accounts(before: State, after: State, opts: Options) {
    var b, a := before.counts, after.counts;
    && b.total <= a.total && b.resolved <= a.resolved && b.unresolved <= a.unresolved
    && a.total - b.total == (a.resolved - b.resolved) + (a.unresolved - b.unresolved)
    && |after.events| == |before.events| + (if opts.report then a.total - b.total else 0)
    && (opts.strict ==> a.unresolved == b.unresolved)
  }

  lemma ReferenceAccounts(a: Addr, r: Reference, pointer: string, ps: Providers, opts: Options, st: State)
    requires ResolveRef(a, r, pointer, ps, opts, st).0.Ok?
    ensures Accounts(st, ResolveRef(a, r, pointer, ps, opts, st).1, opts)
  {
  }

  lemma {:induction false} TraverseAccounts(h: Heap, v: Val, path: seq<string>, depth: nat, ps: Providers,
                                            opts: Options, st: State)
    requires HeapOk(h) && ValOk(h, v) && Traverse(h, v, path, depth, ps, opts, st).0.Ok?
    ensures Accounts(st, Traverse(h, v, path, depth, ps, opts, st).1, opts)
    decreases Room(opts, depth), 1, 0
  {
    if v.Ref? {
      if RefOf(h[v.a]).Some? {
        ReferenceAccounts(v.a, RefOf(h[v.a]).value, BuildPointer(opts.basePath, path), ps, opts, st);
      } else {
        EntriesAccount(h, h[v.a], |Entries(h[v.a])|, path, depth, ps, opts, Enter(st, v.a, opts));
      }
    }
  }

  lemma {:induction false} EntriesAccount(h: Heap, o: Obj, n: nat, path: seq<string>, depth: nat, ps: Providers,
                                          opts: Options, st: State)
    requires HeapOk(h) && ObjOk(h, o) && n <= |Entries(o)| && depth <= opts.maxDepth
    requires TraverseEntries(h, o, n, path, depth, ps, opts, st).0.Ok?
    ensures Accounts(st, TraverseEntries(h, o, n, path, depth, ps, opts, st).1, opts)
    decreases Room(opts, depth), 0, n
  {
    if n > 0 {
      var st1 := TraverseEntries(h, o, n - 1, path, depth, ps, opts, st).1;
      var e := Entries(o)[n - 1];
      EntriesAccount(h, o, n - 1, path, depth, ps, opts, st);
      TraverseAccounts(h, e.value, path + [e.key], depth + 1, ps, opts, st1);
    }
  }

  /** On every normal return total = resolved + unresolved, one event a reference, none unresolved in strict mode. */
  lemma CountsBalance(h: Heap, root: Val, ps: Providers, opts: Options)
    requires HeapOk(h) && ValOk(h, root) && Resolve(h, root, ps, opts).0.Ok?
    ensures var st := Resolve(h, root, ps, opts).1;
            && st.counts.total == st.counts.resolved + st.counts.unresolved
            && |st.events| == (if opts.report then st.counts.total else 0)
            && (opts.strict ==> st.counts.unresolved == 0)
  {
    TraverseAccounts(h, root, [], 0, ps, opts, InitialState(opts));
  }

  // ---- the positions of references ----

  datatype Position = Position(path: seq<string>, a: Addr)

  /** The references a walk from v meets within d levels, in order. */
  function Positions(h: Heap, v: Val, path: seq<string>, d: nat): seq<Position>
    requires HeapOk(h) && ValOk(h, v)
    decreases d, 1, 0
  {
    if !v.Ref? then []
    else if RefOf(h[v.a]).Some? then [Position(path, v.a)]
    else if d == 0 then []
    else EntryPositions(h, h[v.a], |Entries(h[v.a])|, path, d)
  }

  function EntryPositions(h: Heap, o: Obj, n: nat, path: seq<string>, d: nat): seq<Position>
    requires HeapOk(h) && ObjOk(h, o) && n <= |Entries(o)| && d > 0
    decreases d, 0, n
  {
    if n == 0 then []
    else
      var e := Entries(o)[n - 1];
      EntryPositions(h, o, n - 1, path, d) + Positions(h, e.value, path + [e.key], d - 1)
  }

  /** The event at index i is about the reference at position i. */
  ghost predicate Matches(h: Heap, events: seq<Event>, positions: seq<Position>, opts: Options) {
    && |events| == |positions|
    && forall i :: 0 <= i < |events| ==>
         && positions[i].a in h && RefOf(h[positions[i].a]).Some?
         && events[i].path == BuildPointer(opts.basePath, positions[i].path)
         && events[i].secret == RefOf(h[positions[i].a]).value.Secret?
  }

  /** The walk appends to the events exactly one for each position, in order. */
  ghost predicate Appends(h: Heap, before: State, after: State, positions: seq<Position>, opts: Options) {
    before.events <= after.events && Matches(h, after.events[|before.events|..], positions, opts)
  }

  lemma ReferenceAppends(h: Heap, a: Addr, path: seq<string>, ps: Providers, opts: Options, st: State)
    requires a in h && RefOf(h[a]).Some? && opts.report
    requires ResolveRef(a, RefOf(h[a]).value, BuildPointer(opts.basePath, path), ps, opts, st).0.Ok?
    ensures var st' := ResolveRef(a, RefOf(h[a]).value, BuildPointer(opts.basePath, path), ps, opts, st).1;
            Appends(h, st, st', [Position(path, a)], opts)
  {
    var r := RefOf(h[a]).value;
    var st' := ResolveRef(a, r, BuildPointer(opts.basePath, path), ps, opts, st).1;
    assert |st'.events| == |st.events| + 1;
    assert st'.events[|st.events|].path == BuildPointer(opts.basePath, path);
    assert st'.events[|st.events|].secret == r.Secret?;
  }

  lemma {:induction false} TraverseAppends(h: Heap, v: Val, path: seq<string>, depth: nat, ps: Providers,
                                           opts: Options, st: State)
    requires HeapOk(h) && ValOk(h, v) && opts.report && Traverse(h, v, path, depth, ps, opts, st).0.Ok?
    ensures depth <= opts.maxDepth
    ensures var st' := Traverse(h, v, path, depth, ps, opts, st).1;
            Appends(h, st, st', Positions(h, v, path, opts.maxDepth - depth), opts)
    decreases Room(opts, depth), 1, 0
  {
    if v.Ref? {
      if RefOf(h[v.a]).Some? {
        ReferenceAppends(h, v.a, path, ps, opts, st);
      } else {
        var o := h[v.a];
        if Entries(o) == [] {
          assert st.events[|st.events|..] == [] && Matches(h, [], [], opts);
          assert Positions(h, v, path, opts.maxDepth - depth) == [];
          assert Traverse(h, v, path, depth, ps, opts, st).1.events == st.events;
        } else {
          EntriesNeedRoom(h, o, path, depth, ps, opts, Enter(st, v.a, opts));
          EntriesAppend(h, o, |Entries(o)|, path, depth, ps, opts, Enter(st, v.a, opts));
        }
      }
    }
  }

  lemma {:induction false} SomeEntriesOk(h: Heap, o: Obj, i: nat, n: nat, path: seq<string>, depth: nat, ps: Providers,
                                         opts: Options, st: State)
    requires HeapOk(h) && ObjOk(h, o) && i <= n <= |Entries(o)| && depth <= opts.maxDepth
    requires TraverseEntries(h, o, n, path, depth, ps, opts, st).0.Ok?
    ensures TraverseEntries(h, o, i, path, depth, ps, opts, st).0.Ok?
    decreases n
  {
    if i < n {
      SomeEntriesOk(h, o, i, n - 1, path, depth, ps, opts, st);
    }
  }

  lemma EntriesNeedRoom(h: Heap, o: Obj, path: seq<string>, depth: nat, ps: Providers, opts: Options, st: State)
    requires HeapOk(h) && ObjOk(h, o) && Entries(o) != [] && depth <= opts.maxDepth
    requires TraverseEntries(h, o, |Entries(o)|, path, depth, ps, opts, st).0.Ok?
    ensures depth < opts.maxDepth
  {
    SomeEntriesOk(h, o, 1, |Entries(o)|, path, depth, ps, opts, st);
  }

  lemma {:induction false} EntriesAppend(h: Heap, o: Obj, n: nat, path: seq<string>, depth: nat, ps: Providers,
                                         opts: Options, st: State)
    requires HeapOk(h) && ObjOk(h, o) && n <= |Entries(o)| && depth < opts.maxDepth && opts.report
    requires TraverseEntries(h, o, n, path, depth, ps, opts, st).0.Ok?
    ensures var st' := TraverseEntries(h, o, n, path, depth, ps, opts, st).1;
            Appends(h, st, st', EntryPositions(h, o, n, path, opts.maxDepth - depth), opts)
    decreases Room(opts, depth), 0, n
  {
    if n > 0 {
      var st1 := TraverseEntries(h, o, n - 1, path, depth, ps, opts, st).1;
      var e := Entries(o)[n - 1];
      EntriesAppend(h, o, n - 1, path, depth, ps, opts, st);
      TraverseAppends(h, e.value, path + [e.key], depth + 1, ps, opts, st1);
      AppendsThen(h, st, st1, TraverseEntries(h, o, n, path, depth, ps, opts, st).1,
                  EntryPositions(h, o, n - 1, path, opts.maxDepth - depth),
                  Positions(h, e.value, path + [e.key], opts.maxDepth - depth - 1), opts);
    }
  }

  lemma AppendsThen(h: Heap, a: State, b: State, c: State, first: seq<Position>, second: seq<Position>, opts: Options)
    requires Appends(h, a, b, first, opts) && Appends(h, b, c, second, opts)
    ensures Appends(h, a, c, first + second, opts)
  {
    assert c.events[|a.events|..] == b.events[|a.events|..] + c.events[|b.events|..];
  }

  // ---- positions lead to their references, and differ ----

  ghost predicate Leads(h: Heap, v: Val, path: seq<string>, q: Position) {
    path <= q.path && At(h, v, q.path[|path|..]) == Some(Ref(q.a))
  }

  lemma LeadsInto(h: Heap, v: Val, token: string, path: seq<string>, q: Position)
    requires v.Ref? && v.a in h && Child(h[v.a], token).Some? && Leads(h, Child(h[v.a], token).value, path + [token], q)
    ensures Leads(h, v, path, q) && |q.path| > |path| && q.path[|path|] == token
  {
    var rest := q.path[|path|..];
    assert (path + [token])[|path|] == token;
    assert rest[0] == token && rest[1..] == q.path[|path + [token]|..];
  }

  ghost predicate DistinctPaths(qs: seq<Position>) {
    forall i, j :: 0 <= i < j < |qs| ==> qs[i].path != qs[j].path
  }

  lemma {:induction false} PositionsExact(h: Heap, v: Val, path: seq<string>, d: nat)
    requires HeapOk(h) && ValOk(h, v)
    ensures DistinctPaths(Positions(h, v, path, d))
    ensures forall q :: q in Positions(h, v, path, d) ==> Leads(h, v, path, q)
    decreases d, 1, 0
  {
    if v.Ref? {
      if RefOf(h[v.a]).Some? {
        assert path[|path|..] == [];
      } else if d > 0 {
        EntryPositionsExact(h, v, |Entries(h[v.a])|, path, d);
      }
    }
  }

  lemma {:induction false} EntryPositionsExact(h: Heap, v: Val, n: nat, path: seq<string>, d: nat)
    requires HeapOk(h) && v.Ref? && v.a in h && n <= |Entries(h[v.a])| && d > 0
    ensures DistinctPaths(EntryPositions(h, h[v.a], n, path, d))
    ensures forall q :: q in EntryPositions(h, h[v.a], n, path, d) ==>
      Leads(h, v, path, q) && |q.path| > |path| && q.path[|path|] in FirstTokens(h[v.a], n)
    decreases d, 0, n
  {
    if n > 0 {
      var o := h[v.a];
      var e := Entries(o)[n - 1];
      var before, last := EntryPositions(h, o, n - 1, path, d), Positions(h, e.value, path + [e.key], d - 1);
      EntryPositionsExact(h, v, n - 1, path, d);
      PositionsExact(h, e.value, path + [e.key], d - 1);
      ChildIs(Entries(o), n - 1);
      forall q | q in last ensures Leads(h, v, path, q) && |q.path| > |path| && q.path[|path|] == e.key {
        LeadsInto(h, v, e.key, path, q);
      }
      NextTokenFresh(h, o, n - 1);
      forall i, j | 0 <= i < j < |before + last| ensures (before + last)[i].path != (before + last)[j].path {
        if i < |before| <= j {
          assert before[i] in before && last[j - |before|] in last;
        }
      }
    }
  }

  function FirstTokens(o: Obj, n: nat): set<string>
    requires n <= |Entries(o)|
  {
    set i | 0 <= i < n :: Entries(o)[i].key
  }

  lemma NextTokenFresh(h: Heap, o: Obj, n: nat)
    requires ObjOk(h, o) && n < |Entries(o)|
    ensures Entries(o)[n].key !in FirstTokens(o, n)
  {
  }

  /**
   * With no base path, the path of every event, evaluated on the input, leads to a reference
   * of the kind the event reports, and no two events have the same path.
   */
  lemma EventPointersExact(h: Heap, root: Val, ps: Providers, opts: Options)
    requires HeapOk(h) && ValOk(h, root) && opts.report && opts.basePath == "" && Resolve(h, root, ps, opts).0.Ok?
    ensures var events := Resolve(h, root, ps, opts).1.events;
            && (forall i :: 0 <= i < |events| ==> PointsAtReference(h, root, events[i]))
            && (forall i, j :: 0 <= i < j < |events| ==> events[i].path != events[j].path)
  {
    var events := Resolve(h, root, ps, opts).1.events;
    TraverseAppends(h, root, [], 0, ps, opts, InitialState(opts));
    var qs := Positions(h, root, [], opts.maxDepth);
    PositionsExact(h, root, [], opts.maxDepth);
    assert events[0..] == events;
    forall i | 0 <= i < |events| ensures PointsAtReference(h, root, events[i]) {
      assert qs[i] in qs && qs[i].path[0..] == qs[i].path;
      JsonPointer.ParseEncode(qs[i].path);
    }
    forall i, j | 0 <= i < j < |events| ensures events[i].path != events[j].path {
      if events[i].path == events[j].path {
        JsonPointer.EncodeInjective(qs[i].path, qs[j].path);
      }
    }
  }

  ghost predicate PointsAtReference(h: Heap, root: Val, e: Event) {
    var tokens := JsonPointer.Parse(e.path);
    && tokens.Some?
    && var v := At(h, root, tokens.value);
       && v.Some? && v.value.Ref? && v.value.a in h && RefOf(h[v.value.a]).Some?
       && RefOf(h[v.value.a]).value.Secret? == e.secret
  }
}
