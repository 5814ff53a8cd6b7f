/**
 * Resolution of secret and variable references in a configuration value: a recursive walk
 * over a heap of arrays and records that may be shared or cyclic, with memo caches, cycle
 * detection by ancestors, a depth limit and an accounting report.
 *
 * `Traverse` and `ResolveRef` say what one call computes, as functions of the state before;
 * the methods of `Resolver` update that state in place.
 */
module References {
  import opened Wrappers
  import opened Text
  import JsonPointer

  // ---- the input ----

  type Addr = nat

  datatype Val = Undefined | Null | Prim(n: int) | Str(s: string) | Ref(a: Addr)

  datatype Entry = Entry(key: string, value: Val)

  datatype Obj = Array(items: seq<Val>) | Record(fields: seq<Entry>)

  type Heap = map<Addr, Obj>

  predicate ValOk(h: Heap, v: Val) {
    v.Ref? ==> v.a in h
  }

  /** The elements of an object with the tokens that lead to them. */
  function Entries(o: Obj): (es: seq<Entry>) {
    match o
    case Array(items) => seq(|items|, i requires 0 <= i < |items| => Entry(Decimal(i), items[i]))
    case Record(fields) => fields
  }

  ghost predicate ObjOk(h: Heap, o: Obj) {
    && (forall i :: 0 <= i < |Entries(o)| ==> ValOk(h, Entries(o)[i].value))
    && forall i, j :: 0 <= i < j < |Entries(o)| ==> Entries(o)[i].key != Entries(o)[j].key
  }

  /** No dangling address, and no record repeats a field. */
  ghost predicate HeapOk(h: Heap) {
    forall a :: a in h ==> ObjOk(h, h[a])
  }

  function Field(fields: seq<Entry>, key: string): Val {
    if fields == [] then Undefined
    else if fields[0].key == key then fields[0].value
    else Field(fields[1..], key)
  }

  // ---- references ----

  datatype Reference =
    | Secret(mount: string, path: string, key: string)
    | Variable(name: string, default: Option<string>)

  function TextOf(v: Val): string {
    if v.Str? then v.s else ""
  }

  /** isSecretRef, isVariableRef and the two normalizations. */
  function RefOf(o: Obj): Option<Reference> {
    match o
    case Array(_) => None
    case Record(fields) =>
      if
        && Field(fields, "kind") == Str("vault")
        && TextOf(Field(fields, "path")) != "" && TextOf(Field(fields, "key")) != ""
      then
        Some(Secret(TextOf(Field(fields, "mount")), Field(fields, "path").s, Field(fields, "key").s))
      else if Field(fields, "kind") == Str("var") && TextOf(Field(fields, "name")) != "" then
        var default := Field(fields, "default");
        Some(Variable(Field(fields, "name").s, if default.Str? then Some(default.s) else None))
      else None
  }

  predicate IsContainer(h: Heap, v: Val) {
    v.Ref? && v.a in h && RefOf(h[v.a]).None?
  }

  /** Secret and variable keys live in separate caches. */
  datatype CacheKey = SecretKey(text: string) | VariableKey(name: string)

  function KeyOf(r: Reference): CacheKey {
    match r
    case Secret(mount, path, key) => SecretKey(mount + ":" + path + ":" + key)
    case Variable(name, _) => VariableKey(name)
  }

  // ---- providers ----

  datatype Code =
    | UnresolvedReference | ProviderMissing | PermissionDenied | InvalidReference
    | TypeMismatch | MaxDepthExceeded | CycleDetected

  /** A provider's reply: a value, nothing, a 403, another error, or a ResolveError of its own. */
  datatype Answer = Value(s: string) | Missing | Denied | Broken | Rejected(code: Code, path: string)

  datatype Providers = Providers(secret: Option<(string, string, string) -> Answer>, variable: Option<string -> Answer>)

  function Ask(ps: Providers, r: Reference): Option<Answer> {
    match r
    case Secret(mount, path, key) => if ps.secret.Some? then Some(ps.secret.value(mount, path, key)) else None
    case Variable(name, _) => if ps.variable.Some? then Some(ps.variable.value(name)) else None
  }

  // ---- options, errors and the report ----

  datatype Lenient = Keep | NullValue | Default

  datatype Options = Options(
    strict: bool, memoize: bool, cycleDetection: bool, maxDepth: int, report: bool, lenient: Lenient, basePath: string)

  /** Errors of the walk itself, and errors of a reference. */
  datatype Error = TraversalError(code: Code, path: string) | ReferenceError(code: Code, path: string)

  datatype Event = Event(path: string, secret: bool, cacheHit: bool, error: Option<Code>)

  datatype Counts = Counts(total: nat, resolved: nat, unresolved: nat, cacheHits: nat, errors: nat)

  datatype Cached = CachedMissing | CachedValue(s: string)

  datatype State = State(cache: Option<map<CacheKey, Cached>>, events: seq<Event>, counts: Counts, ancestors: set<Addr>)

  /** The output is built afresh, so it is a tree; a kept reference is a copy of the object at its address. */
  datatype Out =
    | OUndefined | ONull | OPrim(n: int) | OStr(s: string)
    | OArray(items: seq<Out>) | ORecord(fields: seq<OutEntry>)
    | OKept(a: Addr)

  datatype OutEntry = OutEntry(key: string, value: Out)

  function BuildPointer(basePath: string, segments: seq<string>): string {
    var pointer := JsonPointer.Encode(segments);
    if basePath == "" then pointer
    else if pointer == "" then basePath
    else (if basePath[|basePath| - 1] == '/' then basePath[..|basePath| - 1] else basePath) + pointer
  }

  function LenientFallback(a: Addr, r: Reference, opts: Options): Out {
    match opts.lenient
    case NullValue => ONull
    case Default => if r.Variable? && r.default.Some? then OStr(r.default.value) else ONull
    case Keep => OKept(a)
  }

  // ---- resolving one reference ----

  function Recorded(st: State, opts: Options, e: Event): State {
    if opts.report then st.(events := st.events + [e]) else st
  }

  function Remember(st: State, k: CacheKey, c: Cached): State {
    if st.cache.Some? then st.(cache := Some(st.cache.value[k := c])) else st
  }

  function CountTotal(st: State): State {
    st.(counts := st.counts.(total := st.counts.total + 1))
  }

  function CountResolved(st: State): State {
    st.(counts := st.counts.(resolved := st.counts.resolved + 1))
  }

  function CountUnresolved(st: State): State {
    st.(counts := st.counts.(unresolved := st.counts.unresolved + 1))
  }

  function CountError(st: State): State {
    st.(counts := st.counts.(errors := st.counts.errors + 1))
  }

  function CountCacheHit(st: State): State {
    st.(counts := st.counts.(cacheHits := st.counts.cacheHits + 1))
  }

  type Step = (Result<Out, Error>, State)

  /** An error counted and recorded: thrown in strict mode, otherwise one more unresolved reference. */
  function Refuse(a: Addr, r: Reference, pointer: string, code: Code, error: Error, opts: Options, st: State): Step {
    var st1 := CountError(Recorded(st, opts, Event(pointer, r.Secret?, false, Some(code))));
    if opts.strict then (Err(error), st1) else (Ok(LenientFallback(a, r, opts)), CountUnresolved(st1))
  }

  function ResolveCached(a: Addr, r: Reference, pointer: string, c: Cached, opts: Options, st: State): Step {
    var st1 := CountCacheHit(st);
    match c
    case CachedMissing =>
      var st2 := Recorded(CountUnresolved(st1), opts, Event(pointer, r.Secret?, true, Some(UnresolvedReference)));
      if opts.strict then (Err(ReferenceError(UnresolvedReference, pointer)), st2)
      else (Ok(LenientFallback(a, r, opts)), st2)
    case CachedValue(s) =>
      (Ok(OStr(s)), Recorded(CountResolved(st1), opts, Event(pointer, r.Secret?, true, None)))
  }

  function ResolveAnswer(a: Addr, r: Reference, pointer: string, answer: Answer, opts: Options, st: State): Step {
    match answer
    case Value(s) =>
      (Ok(OStr(s)),
       Recorded(CountResolved(Remember(st, KeyOf(r), CachedValue(s))), opts, Event(pointer, r.Secret?, false, None)))
    case Missing =>
      // In strict mode the error is thrown inside the try block, caught and counted there, and thrown again.
      var st1 := Recorded(CountUnresolved(Remember(st, KeyOf(r), CachedMissing)), opts,
                         Event(pointer, r.Secret?, false, Some(UnresolvedReference)));
      if opts.strict then
        Refuse(a, r, pointer, UnresolvedReference, ReferenceError(UnresolvedReference, pointer), opts, st1)
      else (Ok(LenientFallback(a, r, opts)), st1)
    case Denied =>
      var code := if r.Secret? then PermissionDenied else InvalidReference;
      Refuse(a, r, pointer, code, ReferenceError(code, pointer), opts, st)
    case Broken => Refuse(a, r, pointer, InvalidReference, ReferenceError(InvalidReference, pointer), opts, st)
    case Rejected(code, path) => Refuse(a, r, pointer, code, ReferenceError(code, path), opts, st)
  }

  function ResolveRef(a: Addr, r: Reference, pointer: string, ps: Providers, opts: Options, st: State): Step {
    var st0 := CountTotal(st);
    match Ask(ps, r)
    case None => Refuse(a, r, pointer, ProviderMissing, ReferenceError(ProviderMissing, pointer), opts, st0)
    case Some(answer) =>
      if st.cache.Some? && KeyOf(r) in st.cache.value then
        ResolveCached(a, r, pointer, st.cache.value[KeyOf(r)], opts, st0)
      else ResolveAnswer(a, r, pointer, answer, opts, st0)
  }

  // ---- the walk ----

  function Leaf(v: Val): Out
    requires !v.Ref?
  {
    match v
    case Undefined => OUndefined
    case Null => ONull
    case Prim(n) => OPrim(n)
    case Str(s) => OStr(s)
  }

  function Rebuild(o: Obj, outs: seq<Out>): Out
    requires |outs| == |Entries(o)|
  {
    match o
    case Array(_) => OArray(outs)
    case Record(fields) => ORecord(seq(|fields|, i requires 0 <= i < |fields| => OutEntry(fields[i].key, outs[i])))
  }

  function Room(opts: Options, depth: nat): nat {
    if depth > opts.maxDepth then 0 else opts.maxDepth - depth + 1
  }

  function Enter(st: State, a: Addr, opts: Options): State {
    if opts.cycleDetection then st.(ancestors := st.ancestors + {a}) else st
  }

  function Leave(st: State, a: Addr, opts: Options): State {
    if opts.cycleDetection then st.(ancestors := st.ancestors - {a}) else st
  }

  function Traverse(h: Heap, v: Val, path: seq<string>, depth: nat, ps: Providers, opts: Options, st: State): Step
    requires HeapOk(h) && ValOk(h, v)
    decreases Room(opts, depth), 1, 0
  {
    if depth > opts.maxDepth then (Err(TraversalError(MaxDepthExceeded, BuildPointer(opts.basePath, path))), st)
    else if !v.Ref? then (Ok(Leaf(v)), st)
    else
      var o := h[v.a];
      if RefOf(o).Some? then ResolveRef(v.a, RefOf(o).value, BuildPointer(opts.basePath, path), ps, opts, st)
      else if opts.cycleDetection && v.a in st.ancestors then
        (Err(TraversalError(CycleDetected, BuildPointer(opts.basePath, path))), st)
      else
        var (outs, st1) := TraverseEntries(h, o, |Entries(o)|, path, depth, ps, opts, Enter(st, v.a, opts));
        if outs.Err? then (Err(outs.error), st1) else (Ok(Rebuild(o, outs.value)), Leave(st1, v.a, opts))
  }

  /** The first n elements, in order; an error ends the walk. */
  function TraverseEntries(h: Heap, o: Obj, n: nat, path: seq<string>, depth: nat, ps: Providers, opts: Options,
                           st: State)
    : (r: (Result<seq<Out>, Error>, State))
    requires HeapOk(h) && ObjOk(h, o) && n <= |Entries(o)| && depth <= opts.maxDepth
    ensures r.0.Ok? ==> |r.0.value| == n
    decreases Room(opts, depth), 0, n
  {
    if n == 0 then (Ok([]), st)
    else
      var (outs, st1) := TraverseEntries(h, o, n - 1, path, depth, ps, opts, st);
      if outs.Err? then (outs, st1)
      else
        var e := Entries(o)[n - 1];
        var (out, st2) := Traverse(h, e.value, path + [e.key], depth + 1, ps, opts, st1);
        if out.Err? then (Err(out.error), st2) else (Ok(outs.value + [out.value]), st2)
  }

  const START := Counts(0, 0, 0, 0, 0)

  function InitialState(opts: Options): State {
    State(if opts.memoize then Some(map[]) else None, [], START, {})
  }

  /** What resolveReferences computes: the result and the final report. */
  function Resolve(h: Heap, root: Val, ps: Providers, opts: Options): Step
    requires HeapOk(h) && ValOk(h, root)
  {
    Traverse(h, root, [], 0, ps, opts, InitialState(opts))
  }

  // ---- where a walk is ----

  function Child(o: Obj, token: string): Option<Val> {
    ChildAmong(Entries(o), token)
  }

  function ChildAmong(es: seq<Entry>, token: string): Option<Val> {
    if es == [] then None else if es[0].key == token then Some(es[0].value) else ChildAmong(es[1..], token)
  }

  /** The value a list of reference tokens leads to (section 4 of RFC 6901). */
  function At(h: Heap, v: Val, tokens: seq<string>): Option<Val>
    decreases |tokens|
  {
    if tokens == [] then Some(v)
    else if !v.Ref? || v.a !in h || Child(h[v.a], tokens[0]).None? then None
    else At(h, Child(h[v.a], tokens[0]).value, tokens[1..])
  }

  /** The objects on the way from v along tokens, the last one excluded. */
  function PathObjects(h: Heap, v: Val, tokens: seq<string>): set<Addr>
    decreases |tokens|
  {
    if tokens == [] || !v.Ref? || v.a !in h || Child(h[v.a], tokens[0]).None? then {}
    else {v.a} + PathObjects(h, Child(h[v.a], tokens[0]).value, tokens[1..])
  }

  lemma {:induction false} ChildIs(es: seq<Entry>, i: nat)
    requires i < |es| && forall j, k :: 0 <= j < k < |es| ==> es[j].key != es[k].key
    ensures ChildAmong(es, es[i].key) == Some(es[i].value)
  {
    if i > 0 {
      assert es[0].key != es[i].key;
      ChildIs(es[1..], i - 1);
    }
  }

  lemma {:induction false} StepDown(h: Heap, root: Val, tokens: seq<string>, token: string)
    requires At(h, root, tokens).Some?
    ensures var v := At(h, root, tokens).value;
            v.Ref? && v.a in h && Child(h[v.a], token).Some? ==>
              && At(h, root, tokens + [token]) == Child(h[v.a], token)
              && PathObjects(h, root, tokens + [token]) == PathObjects(h, root, tokens) + {v.a}
    decreases |tokens|
  {
    if tokens == [] {
      assert tokens + [token] == [token] && [token][1..] == [];
    } else {
      assert (tokens + [token])[1..] == tokens[1..] + [token];
      StepDown(h, Child(h[root.a], tokens[0]).value, tokens[1..], token);
    }
  }

  // ---- the resolver ----

  class Resolver {
    const heap: Heap
    const providers: Providers
    const opts: Options
    var cache: Option<map<CacheKey, Cached>>
    var events: seq<Event>
    var counts: Counts
    var ancestors: set<Addr>

    constructor (heap: Heap, providers: Providers, opts: Options)
      ensures this.heap == heap && this.providers == providers && this.opts == opts && Now() == InitialState(opts)
    {
      this.heap, this.providers, this.opts := heap, providers, opts;
      cache, events, counts, ancestors := if opts.memoize then Some(map[]) else None, [], START, {};
    }

    function Now(): State
      reads this
    {
      State(cache, events, counts, ancestors)
    }

    method RecordEvent(e: Event)
      modifies `events
      ensures Now() == Recorded(old(Now()), opts, e)
    {
      if opts.report {
        events := events + [e];
      }
    }

    method Remembered(k: CacheKey, c: Cached)
      modifies `cache
      ensures Now() == Remember(old(Now()), k, c)
    {
      if cache.Some? {
        cache := Some(cache.value[k := c]);
      }
    }

    method RefuseReference(a: Addr, r: Reference, pointer: string, code: Code, error: Error)
      returns (out: Result<Out, Error>)
      modifies `events, `counts
      ensures (out, Now()) == Refuse(a, r, pointer, code, error, opts, old(Now()))
    {
      RecordEvent(Event(pointer, r.Secret?, false, Some(code)));
      counts := counts.(errors := counts.errors + 1);
      if opts.strict {
        return Err(error);
      }
      counts := counts.(unresolved := counts.unresolved + 1);
      out := Ok(LenientFallback(a, r, opts));
    }

    /** resolveSecretRef and resolveVariableRef, which differ in the key, the provider and the code of a 403. */
    method ResolveReference(a: Addr, r: Reference, pointer: string) returns (out: Result<Out, Error>)
      modifies `cache, `events, `counts
      ensures (out, Now()) == ResolveRef(a, r, pointer, providers, opts, old(Now()))
    {
      counts := counts.(total := counts.total + 1);
      var answer := Ask(providers, r);
      if answer.None? {
        out := RefuseReference(a, r, pointer, ProviderMissing, ReferenceError(ProviderMissing, pointer));
        return;
      }
      var k := KeyOf(r);
      if cache.Some? && k in cache.value {
        counts := counts.(cacheHits := counts.cacheHits + 1);
        match cache.value[k] {
          case CachedMissing =>
            counts := counts.(unresolved := counts.unresolved + 1);
            RecordEvent(Event(pointer, r.Secret?, true, Some(UnresolvedReference)));
            out := if opts.strict then Err(ReferenceError(UnresolvedReference, pointer))
                   else Ok(LenientFallback(a, r, opts));
          case CachedValue(s) =>
            counts := counts.(resolved := counts.resolved + 1);
            RecordEvent(Event(pointer, r.Secret?, true, None));
            out := Ok(OStr(s));
        }
      } else {
        out := AnswerReference(a, r, pointer, answer.value);
      }
    }

    method AnswerReference(a: Addr, r: Reference, pointer: string, answer: Answer) returns (out: Result<Out, Error>)
      modifies `cache, `events, `counts
      ensures (out, Now()) == ResolveAnswer(a, r, pointer, answer, opts, old(Now()))
    {
      match answer
      case Value(s) =>
        Remembered(KeyOf(r), CachedValue(s));
        counts := counts.(resolved := counts.resolved + 1);
        RecordEvent(Event(pointer, r.Secret?, false, None));
        out := Ok(OStr(s));
      case Missing =>
        Remembered(KeyOf(r), CachedMissing);
        counts := counts.(unresolved := counts.unresolved + 1);
        RecordEvent(Event(pointer, r.Secret?, false, Some(UnresolvedReference)));
        if opts.strict {
          out := RefuseReference(a, r, pointer, UnresolvedReference, ReferenceError(UnresolvedReference, pointer));
        } else {
          out := Ok(LenientFallback(a, r, opts));
        }
      case Denied =>
        var code := if r.Secret? then PermissionDenied else InvalidReference;
        out := RefuseReference(a, r, pointer, code, ReferenceError(code, pointer));
      case Broken =>
        out := RefuseReference(a, r, pointer, InvalidReference, ReferenceError(InvalidReference, pointer));
      case Rejected(code, path) =>
        out := RefuseReference(a, r, pointer, code, ReferenceError(code, path));
    }

    /**
     * The walk stands at `path` from `root`. With cycle detection on, the ancestors are exactly
     * the objects on the way there: every call of the recursion is made in such a state.
     */
    method TraverseValue(v: Val, path: seq<string>, depth: nat, ghost root: Val) returns (out: Result<Out, Error>)
      requires HeapOk(heap) && ValOk(heap, v)
      requires At(heap, root, path) == Some(v) && depth == |path|
      requires opts.cycleDetection ==> ancestors == PathObjects(heap, root, path)
      modifies `cache, `events, `counts, `ancestors
      ensures (out, Now()) == Traverse(heap, v, path, depth, providers, opts, old(Now()))
      ensures out.Ok? ==> ancestors == old(ancestors)
      decreases Room(opts, depth), 1
    {
      if depth > opts.maxDepth {
        return Err(TraversalError(MaxDepthExceeded, BuildPointer(opts.basePath, path)));
      }
      if !v.Ref? {
        return Ok(Leaf(v));
      }
      var o := heap[v.a];
      var ref := RefOf(o);
      if ref.Some? {
        out := ResolveReference(v.a, ref.value, BuildPointer(opts.basePath, path));
        return;
      }
      if opts.cycleDetection {
        if v.a in ancestors {
          return Err(TraversalError(CycleDetected, BuildPointer(opts.basePath, path)));
        }
        ancestors := ancestors + {v.a};
      }
      var outs := TraverseElements(v, o, path, depth, root);
      if outs.Err? {
        return Err(outs.error);
      }
      if opts.cycleDetection {
        ancestors := ancestors - {v.a};
      }
      out := Ok(Rebuild(o, outs.value));
    }

    method TraverseElements(v: Val, o: Obj, path: seq<string>, depth: nat, ghost root: Val)
      returns (outs: Result<seq<Out>, Error>)
      requires HeapOk(heap) && v.Ref? && v.a in heap && heap[v.a] == o && depth <= opts.maxDepth
      requires At(heap, root, path) == Some(v) && depth == |path|
      requires opts.cycleDetection ==> ancestors == PathObjects(heap, root, path) + {v.a}
      modifies `cache, `events, `counts, `ancestors
      ensures (outs, Now()) == TraverseEntries(heap, o, |Entries(o)|, path, depth, providers, opts, old(Now()))
      ensures outs.Ok? ==> ancestors == old(ancestors)
      decreases Room(opts, depth), 0
    {
      var es := Entries(o);
      var done := [];
      for i := 0 to |es|
        invariant (Ok(done), Now()) == TraverseEntries(heap, o, i, path, depth, providers, opts, old(Now()))
        invariant ancestors == old(ancestors)
      {
        ChildIs(es, i);
        StepDown(heap, root, path, es[i].key);
        var next := TraverseValue(es[i].value, path + [es[i].key], depth + 1, root);
        if next.Err? {
          FailsEarly(heap, o, i + 1, |es|, path, depth, providers, opts, old(Now()));
          return Err(next.error);
        }
        done := done + [next.value];
      }
      outs := Ok(done);
    }

    /** resolveReferences: the output and the report, or the first error. */
    method ResolveReferences(root: Val) returns (out: Result<Out, Error>)
      requires HeapOk(heap) && ValOk(heap, root) && Now() == InitialState(opts)
      modifies `cache, `events, `counts, `ancestors
      ensures (out, Now()) == Resolve(heap, root, providers, opts)
    {
      out := TraverseValue(root, [], 0, root);
    }
  }

  lemma {:induction false} FailsEarly(h: Heap, o: Obj, i: nat, n: nat, path: seq<string>, depth: nat, ps: Providers,
                                      opts: Options, st: State)
    requires HeapOk(h) && ObjOk(h, o) && i <= n <= |Entries(o)| && depth <= opts.maxDepth
    requires TraverseEntries(h, o, i, path, depth, ps, opts, st).0.Err?
    ensures TraverseEntries(h, o, n, path, depth, ps, opts, st) == TraverseEntries(h, o, i, path, depth, ps, opts, st)
    decreases n
  {
    if i < n {
      FailsEarly(h, o, i, n - 1, path, depth, ps, opts, st);
    }
  }
}
