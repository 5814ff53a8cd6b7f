/**
 * The output of a walk as a relation to its input, independent of how the walk goes: every
 * reference is replaced by a text and everything else is kept.
 */
module ReferencesOutput {
  import opened Wrappers
  import opened References
  import opened ReferencesStructure
  import opened ReferencesMemo

  /** Where the replacing texts come from: anywhere, the providers, or a cache. */
  datatype Texts = AnyText | Answers(ps: Providers) | Filed(cache: map<CacheKey, Cached>)

  predicate Allows(texts: Texts, r: Reference, s: string) {
    match texts
    case AnyText => true
    case Answers(ps) => Ask(ps, r) == Some(Value(s))
    case Filed(cache) => KeyOf(r) in cache && cache[KeyOf(r)] == CachedValue(s)
  }

  /** out is v with every reference replaced by a text that is allowed for it. */
  ghost predicate Replaces(h: Heap, v: Val, out: Out, texts: Texts)
    requires HeapOk(h) && ValOk(h, v)
    decreases out, 1
  {
    if !v.Ref? then out == Leaf(v)
    else if RefOf(h[v.a]).Some? then out.OStr? && Allows(texts, RefOf(h[v.a]).value, out.s)
    else
      match h[v.a]
      case Array(items) =>
        out.OArray? && |out.items| == |items|
        && forall i :: 0 <= i < |items| ==> ValOk(h, items[i]) && Replaces(h, items[i], out.items[i], texts)
      case Record(fields) =>
        out.ORecord? && |out.fields| == |fields|
        && forall i :: 0 <= i < |fields| ==>
             && out.fields[i].key == fields[i].key
             && ValOk(h, fields[i].value) && Replaces(h, fields[i].value, out.fields[i].value, texts)
  }

  lemma RebuildReplaces(h: Heap, v: Val, outs: seq<Out>, texts: Texts)
    requires HeapOk(h) && ValOk(h, v) && v.Ref? && RefOf(h[v.a]).None? && |outs| == |Entries(h[v.a])|
    requires forall i :: 0 <= i < |outs| ==> Replaces(h, Entries(h[v.a])[i].value, outs[i], texts)
    ensures Replaces(h, v, Rebuild(h[v.a], outs), texts)
  {
    var es, out := Entries(h[v.a]), Rebuild(h[v.a], outs);
    match h[v.a]
    case Array(items) =>
      forall i | 0 <= i < |items| ensures ValOk(h, items[i]) && Replaces(h, items[i], out.items[i], texts) {
        assert es[i].value == items[i] && ValOk(h, es[i].value) && Replaces(h, es[i].value, outs[i], texts);
      }
    case Record(fields) =>
      forall i | 0 <= i < |fields|
        ensures ValOk(h, fields[i].value) && Replaces(h, fields[i].value, out.fields[i].value, texts)
      {
        assert es[i] == fields[i] && ValOk(h, es[i].value) && Replaces(h, es[i].value, outs[i], texts);
      }
  }

  // ---- what a walk does to the cache ----

  /** Providers that always answer with a value. */
  ghost predicate AlwaysValue(ps: Providers) {
    && ps.secret.Some? && ps.variable.Some?
    && (forall m, p, k :: ps.secret.value(m, p, k).Value?)
    && forall n :: ps.variable.value(n).Value?
  }

  predicate ValuesOnly(st: State) {
    st.cache.Some? ==> forall k :: k in st.cache.value ==> st.cache.value[k].CachedValue?
  }

  /** Entries are never changed or dropped, and the cache stays sound, or a cache of values only. */
  ghost predicate CacheGrows(h: Heap, on: set<Addr>, ps: Providers, before: State, after: State) {
    && before.cache.Some? == after.cache.Some?
    && (before.cache.Some? ==>
          forall k :: k in before.cache.value ==>
            k in after.cache.value && after.cache.value[k] == before.cache.value[k])
    && (KeysDetermineAnswers(h, on, ps) && CacheSound(h, on, ps, before) ==> CacheSound(h, on, ps, after))
    && (AlwaysValue(ps) && ValuesOnly(before) ==> ValuesOnly(after))
  }

  lemma CacheGrowsThen(h: Heap, on: set<Addr>, ps: Providers, a: State, b: State, c: State)
    requires CacheGrows(h, on, ps, a, b) && CacheGrows(h, on, ps, b, c)
    ensures CacheGrows(h, on, ps, a, c)
  {
  }

  function EntryFor(answer: Answer): Cached {
    if answer.Value? then CachedValue(answer.s) else CachedMissing
  }

  /** A reference adds the entry for its answer, or none. */
  lemma CacheAfterReference(a: Addr, r: Reference, pointer: string, ps: Providers, opts: Options, st: State)
    ensures var after := ResolveRef(a, r, pointer, ps, opts, st).1;
            after.cache == st.cache
            || (Ask(ps, r).Some? && st.cache.Some? && KeyOf(r) !in st.cache.value
                && after.cache == Some(st.cache.value[KeyOf(r) := EntryFor(Ask(ps, r).value)]))
  {
  }

  lemma ReferenceGrows(h: Heap, on: set<Addr>, a: Addr, pointer: string, ps: Providers, opts: Options, st: State)
    requires RefIn(h, on, a)
    ensures CacheGrows(h, on, ps, st, ResolveRef(a, RefOf(h[a]).value, pointer, ps, opts, st).1)
  {
    CacheAfterReference(a, RefOf(h[a]).value, pointer, ps, opts, st);
    if KeysDetermineAnswers(h, on, ps) && CacheSound(h, on, ps, st) {
      CacheKept(h, on, a, pointer, ps, opts, st);
    }
  }

  lemma {:induction false} WalkGrows(h: Heap, on: set<Addr>, v: Val, path: seq<string>, depth: nat,
                                     ps: Providers, opts: Options, st: State)
    requires HeapOk(h) && ValOk(h, v) && Closed(h, on) && Inside(v, on)
    ensures CacheGrows(h, on, ps, st, Traverse(h, v, path, depth, ps, opts, st).1)
    decreases Room(opts, depth), 1, 0
  {
    if v.Ref? && depth <= opts.maxDepth {
      if RefOf(h[v.a]).Some? {
        ReferenceGrows(h, on, v.a, BuildPointer(opts.basePath, path), ps, opts, st);
      } else if !(opts.cycleDetection && v.a in st.ancestors) {
        EntriesGrow(h, on, h[v.a], |Entries(h[v.a])|, path, depth, ps, opts, Enter(st, v.a, opts));
      }
    }
  }

  lemma {:induction false} EntriesGrow(h: Heap, on: set<Addr>, o: Obj, n: nat, path: seq<string>, depth: nat,
                                       ps: Providers, opts: Options, st: State)
    requires HeapOk(h) && ObjOk(h, o) && n <= |Entries(o)| && depth <= opts.maxDepth && Closed(h, on)
    requires forall i :: 0 <= i < |Entries(o)| ==> Inside(Entries(o)[i].value, on)
    ensures CacheGrows(h, on, ps, st, TraverseEntries(h, o, n, path, depth, ps, opts, st).1)
    decreases Room(opts, depth), 0, n
  {
    if n > 0 {
      var (outs, st1) := TraverseEntries(h, o, n - 1, path, depth, ps, opts, st);
      EntriesGrow(h, on, o, n - 1, path, depth, ps, opts, st);
      if outs.Ok? {
        var e := Entries(o)[n - 1];
        WalkGrows(h, on, e.value, path + [e.key], depth + 1, ps, opts, st1);
        CacheGrowsThen(h, on, ps, st, st1, TraverseEntries(h, o, n, path, depth, ps, opts, st).1);
      }
    }
  }

  // ---- providers that always answer ----

  lemma {:induction false} ValuesNeverRefused(h: Heap, on: set<Addr>, v: Val, path: seq<string>, depth: nat,
                                              ps: Providers, opts: Options, st: State)
    requires HeapOk(h) && ValOk(h, v) && Closed(h, on) && Inside(v, on) && AlwaysValue(ps) && ValuesOnly(st)
    ensures var r := Traverse(h, v, path, depth, ps, opts, st).0; r.Ok? || Tripped(r)
    decreases Room(opts, depth), 1, 0
  {
    if v.Ref? && depth <= opts.maxDepth {
      if RefOf(h[v.a]).Some? {
        ValueGiven(v.a, RefOf(h[v.a]).value, BuildPointer(opts.basePath, path), ps, opts, st);
      } else if !(opts.cycleDetection && v.a in st.ancestors) {
        EntriesNeverRefused(h, on, h[v.a], |Entries(h[v.a])|, path, depth, ps, opts, Enter(st, v.a, opts));
      }
    }
  }

  lemma ValueGiven(a: Addr, r: Reference, pointer: string, ps: Providers, opts: Options, st: State)
    requires AlwaysValue(ps) && ValuesOnly(st)
    ensures var out := ResolveRef(a, r, pointer, ps, opts, st).0; out.Ok? && out.value.OStr?
  {
    assert Ask(ps, r).Some? && Ask(ps, r).value.Value?;
  }

  lemma {:induction false} EntriesNeverRefused(h: Heap, on: set<Addr>, o: Obj, n: nat, path: seq<string>, depth: nat,
                                               ps: Providers, opts: Options, st: State)
    requires HeapOk(h) && ObjOk(h, o) && n <= |Entries(o)| && depth <= opts.maxDepth && Closed(h, on)
    requires forall i :: 0 <= i < |Entries(o)| ==> Inside(Entries(o)[i].value, on)
    requires AlwaysValue(ps) && ValuesOnly(st)
    ensures var r := TraverseEntries(h, o, n, path, depth, ps, opts, st).0; r.Ok? || Tripped(r)
    decreases Room(opts, depth), 0, n
  {
    if n > 0 {
      var (outs, st1) := TraverseEntries(h, o, n - 1, path, depth, ps, opts, st);
      EntriesNeverRefused(h, on, o, n - 1, path, depth, ps, opts, st);
      if outs.Ok? {
        var e := Entries(o)[n - 1];
        EntriesGrow(h, on, o, n - 1, path, depth, ps, opts, st);
        ValuesNeverRefused(h, on, e.value, path + [e.key], depth + 1, ps, opts, st1);
      }
    }
  }

  // ---- a walk that returns replaces references ----

  /** No reference is left to the lenient fallback. */
  ghost predicate Giving(ps: Providers, opts: Options, st: State) {
    opts.strict || (AlwaysValue(ps) && ValuesOnly(st))
  }

  /** Why the texts of a walk are allowed: sound caches, or caches that end within the given one. */
  ghost predicate Justified(texts: Texts, h: Heap, on: set<Addr>, ps: Providers, before: State, after: State) {
    match texts
    case AnyText => true
    case Answers(q) =>
      && q == ps
      && (before.cache.Some? ==> KeysDetermineAnswers(h, on, ps) && CacheSound(h, on, ps, before))
    case Filed(cache) =>
      && after.cache.Some?
      && forall k :: k in after.cache.value ==> k in cache && cache[k] == after.cache.value[k]
  }

  lemma ReferenceReplaced(h: Heap, on: set<Addr>, a: Addr, pointer: string, ps: Providers, opts: Options, st: State,
                          texts: Texts)
    requires RefIn(h, on, a) && Giving(ps, opts, st) && ResolveRef(a, RefOf(h[a]).value, pointer, ps, opts, st).0.Ok?
    requires Justified(texts, h, on, ps, st, ResolveRef(a, RefOf(h[a]).value, pointer, ps, opts, st).1)
    ensures var out := ResolveRef(a, RefOf(h[a]).value, pointer, ps, opts, st).0.value;
            out.OStr? && Allows(texts, RefOf(h[a]).value, out.s)
  {
    var r := RefOf(h[a]).value;
    if !opts.strict {
      ValueGiven(a, r, pointer, ps, opts, st);
    }
    if st.cache.Some? && KeyOf(r) in st.cache.value {
      assert texts.Answers? ==> Truthful(st.cache.value[KeyOf(r)], Ask(ps, r));
    }
  }

  lemma {:induction false} WalkReplaces(h: Heap, on: set<Addr>, v: Val, path: seq<string>, depth: nat,
                                        ps: Providers, opts: Options, st: State, texts: Texts)
    requires HeapOk(h) && ValOk(h, v) && Closed(h, on) && Inside(v, on) && Giving(ps, opts, st)
    requires Traverse(h, v, path, depth, ps, opts, st).0.Ok?
    requires Justified(texts, h, on, ps, st, Traverse(h, v, path, depth, ps, opts, st).1)
    ensures Replaces(h, v, Traverse(h, v, path, depth, ps, opts, st).0.value, texts)
    decreases Room(opts, depth), 1, 0
  {
    if v.Ref? {
      var o := h[v.a];
      if RefOf(o).Some? {
        ReferenceReplaced(h, on, v.a, BuildPointer(opts.basePath, path), ps, opts, st, texts);
      } else {
        EntriesReplaced(h, on, o, |Entries(o)|, path, depth, ps, opts, Enter(st, v.a, opts), texts);
        var outs := TraverseEntries(h, o, |Entries(o)|, path, depth, ps, opts, Enter(st, v.a, opts)).0.value;
        RebuildReplaces(h, v, outs, texts);
      }
    }
  }

  lemma {:induction false} EntriesReplaced(h: Heap, on: set<Addr>, o: Obj, n: nat, path: seq<string>, depth: nat,
                                           ps: Providers, opts: Options, st: State, texts: Texts)
    requires HeapOk(h) && ObjOk(h, o) && n <= |Entries(o)| && depth <= opts.maxDepth && Closed(h, on)
    requires forall i :: 0 <= i < |Entries(o)| ==> Inside(Entries(o)[i].value, on)
    requires Giving(ps, opts, st) && TraverseEntries(h, o, n, path, depth, ps, opts, st).0.Ok?
    requires Justified(texts, h, on, ps, st, TraverseEntries(h, o, n, path, depth, ps, opts, st).1)
    ensures var outs := TraverseEntries(h, o, n, path, depth, ps, opts, st).0.value;
            forall i :: 0 <= i < n ==> Replaces(h, Entries(o)[i].value, outs[i], texts)
    decreases Room(opts, depth), 0, n
  {
    if n > 0 {
      var st1 := TraverseEntries(h, o, n - 1, path, depth, ps, opts, st).1;
      var e := Entries(o)[n - 1];
      EntriesGrow(h, on, o, n - 1, path, depth, ps, opts, st);
      WalkGrows(h, on, e.value, path + [e.key], depth + 1, ps, opts, st1);
      EntriesReplaced(h, on, o, n - 1, path, depth, ps, opts, st, texts);
      WalkReplaces(h, on, e.value, path + [e.key], depth + 1, ps, opts, st1, texts);
    }
  }

  // ---- parts of an output ----

  function OutEntries(out: Out): seq<Out> {
    match out
    case OArray(items) => items
    case ORecord(fields) => seq(|fields|, i requires 0 <= i < |fields| => fields[i].value)
    case _ => []
  }

  lemma EntryReplaced(h: Heap, v: Val, out: Out, texts: Texts, i: nat)
    requires HeapOk(h) && IsContainer(h, v) && Replaces(h, v, out, texts) && i < |Entries(h[v.a])|
    ensures |OutEntries(out)| == |Entries(h[v.a])| && OutEntries(out)[i] < out
    ensures ValOk(h, Entries(h[v.a])[i].value) && Replaces(h, Entries(h[v.a])[i].value, OutEntries(out)[i], texts)
  {
    assert ObjOk(h, h[v.a]);
    match h[v.a]
    case Array(items) =>
      assert Replaces(h, items[i], out.items[i], texts);
    case Record(fields) =>
      assert Replaces(h, fields[i].value, out.fields[i].value, texts);
  }

  /** The part of an output for the value that tokens lead to, whichever texts are known of it. */
  lemma {:induction false} PartAt(h: Heap, v: Val, out: Out, first: Texts, second: Texts, tokens: seq<string>)
    returns (part: Out)
    requires HeapOk(h) && ValOk(h, v) && Passes(h, v, tokens) && At(h, v, tokens).Some?
    requires Replaces(h, v, out, first) && Replaces(h, v, out, second)
    ensures ValOk(h, At(h, v, tokens).value)
    ensures Replaces(h, At(h, v, tokens).value, part, first) && Replaces(h, At(h, v, tokens).value, part, second)
    ensures part == out || part < out
    decreases |tokens|
  {
    if tokens == [] {
      part := out;
    } else {
      var i := ChildListed(Entries(h[v.a]), tokens[0]);
      EntryReplaced(h, v, out, first, i);
      EntryReplaced(h, v, out, second, i);
      part := PartAt(h, Child(h[v.a], tokens[0]).value, OutEntries(out)[i], first, second, tokens[1..]);
    }
  }
}
