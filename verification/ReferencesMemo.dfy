/** Memoisation refines the plain run: the caches change how often a provider is asked, and nothing else. */
module ReferencesMemo {
  import opened Wrappers
  import opened Text
  import opened References
  import opened ReferencesStructure

  // ---- what the caches hold ----

  /** a holds a reference among those considered. */
  ghost predicate RefIn(h: Heap, on: set<Addr>, a: Addr) {
    a in on && a in h && RefOf(h[a]).Some?
  }

  /** References filed under one key get one answer. */
  ghost predicate KeysDetermineAnswers(h: Heap, on: set<Addr>, ps: Providers) {
    forall a, b ::
      RefIn(h, on, a) && RefIn(h, on, b) && KeyOf(RefOf(h[a]).value) == KeyOf(RefOf(h[b]).value) ==>
        Ask(ps, RefOf(h[a]).value) == Ask(ps, RefOf(h[b]).value)
  }

  predicate Truthful(c: Cached, answer: Option<Answer>) {
    answer == Some(match c case CachedMissing => Missing case CachedValue(s) => Value(s))
  }

  /** Every cached entry is what the provider answers for the references filed under it. */
  ghost predicate CacheSound(h: Heap, on: set<Addr>, ps: Providers, st: State) {
    st.cache.Some? ==>
      forall a :: RefIn(h, on, a) && KeyOf(RefOf(h[a]).value) in st.cache.value ==>
        Truthful(st.cache.value[KeyOf(RefOf(h[a]).value)], Ask(ps, RefOf(h[a]).value))
  }

  /** The two runs agree except on cache hits and their traces in the events. */
  ghost predicate Alike(memo: State, plain: State) {
    && memo.counts.(cacheHits := 0) == plain.counts.(cacheHits := 0)
    && memo.ancestors == plain.ancestors
    && |memo.events| == |plain.events|
    && forall i :: 0 <= i < |memo.events| ==> memo.events[i].(cacheHit := false) == plain.events[i].(cacheHit := false)
  }

  ghost predicate Coupled(h: Heap, on: set<Addr>, ps: Providers, memo: State, plain: State) {
    memo.cache.Some? && plain.cache.None? && CacheSound(h, on, ps, memo) && Alike(memo, plain)
  }

  lemma ReferenceCoupled(h: Heap, on: set<Addr>, a: Addr, pointer: string, ps: Providers, opts: Options, memo: State,
                         plain: State)
    requires RefIn(h, on, a) && KeysDetermineAnswers(h, on, ps) && Coupled(h, on, ps, memo, plain)
    ensures var r := RefOf(h[a]).value;
            var m, p := ResolveRef(a, r, pointer, ps, opts, memo), ResolveRef(a, r, pointer, ps, opts, plain);
            m.0 == p.0 && (m.0.Ok? ==> Coupled(h, on, ps, m.1, p.1))
  {
    var r := RefOf(h[a]).value;
    CacheKept(h, on, a, pointer, ps, opts, memo);
    if Ask(ps, r).Some? {
      if KeyOf(r) in memo.cache.value {
        assert Truthful(memo.cache.value[KeyOf(r)], Ask(ps, r));
        CachedLikeAnswer(a, r, pointer, memo.cache.value[KeyOf(r)], Ask(ps, r).value, opts,
                         CountTotal(memo), CountTotal(plain));
      } else {
        AnswersAlike(a, r, pointer, Ask(ps, r).value, opts, CountTotal(memo), CountTotal(plain));
      }
    }
  }

  /** A hit gives what asking again would give. */
  lemma CachedLikeAnswer(a: Addr, r: Reference, pointer: string, c: Cached, answer: Answer, opts: Options, memo: State,
                         plain: State)
    requires Truthful(c, Some(answer)) && Alike(memo, plain)
    ensures var m, p := ResolveCached(a, r, pointer, c, opts, memo), ResolveAnswer(a, r, pointer, answer, opts, plain);
            m.0 == p.0 && (m.0.Ok? ==> Alike(m.1, p.1))
  {
  }

  lemma RefusalsAlike(a: Addr, r: Reference, pointer: string, code: Code, error: Error, opts: Options, memo: State,
                      plain: State)
    ensures var m, p := Refuse(a, r, pointer, code, error, opts, memo), Refuse(a, r, pointer, code, error, opts, plain);
            m.0 == p.0 && (Alike(memo, plain) ==> Alike(m.1, p.1))
  {
  }

  lemma AnswersAlike(a: Addr, r: Reference, pointer: string, answer: Answer, opts: Options, memo: State, plain: State)
    requires Alike(memo, plain)
    ensures var m := ResolveAnswer(a, r, pointer, answer, opts, memo);
            var p := ResolveAnswer(a, r, pointer, answer, opts, plain);
            m.0 == p.0 && (m.0.Ok? ==> Alike(m.1, p.1))
  {
    match answer
    case Value(s) =>
    case Missing =>
    case Denied =>
      var code := if r.Secret? then PermissionDenied else InvalidReference;
      RefusalsAlike(a, r, pointer, code, ReferenceError(code, pointer), opts, memo, plain);
    case Broken =>
      RefusalsAlike(a, r, pointer, InvalidReference, ReferenceError(InvalidReference, pointer), opts, memo, plain);
    case Rejected(code, path) => RefusalsAlike(a, r, pointer, code, ReferenceError(code, path), opts, memo, plain);
  }

  lemma CacheKept(h: Heap, on: set<Addr>, a: Addr, pointer: string, ps: Providers, opts: Options, st: State)
    requires RefIn(h, on, a) && KeysDetermineAnswers(h, on, ps) && CacheSound(h, on, ps, st)
    ensures CacheSound(h, on, ps, ResolveRef(a, RefOf(h[a]).value, pointer, ps, opts, st).1)
  {
    var r := RefOf(h[a]).value;
    var st' := ResolveRef(a, r, pointer, ps, opts, st).1;
    if st.cache.Some? {
      forall b | RefIn(h, on, b) && KeyOf(RefOf(h[b]).value) in st'.cache.value
        ensures Truthful(st'.cache.value[KeyOf(RefOf(h[b]).value)], Ask(ps, RefOf(h[b]).value))
      {
        if KeyOf(RefOf(h[b]).value) == KeyOf(r) {
          assert Ask(ps, RefOf(h[b]).value) == Ask(ps, r);
        }
      }
    }
  }

  lemma {:induction false} TraverseCoupled(h: Heap, on: set<Addr>, v: Val, path: seq<string>, depth: nat,
                                           ps: Providers, opts: Options, memo: State, plain: State)
    requires HeapOk(h) && ValOk(h, v) && Closed(h, on) && Inside(v, on)
    requires KeysDetermineAnswers(h, on, ps) && Coupled(h, on, ps, memo, plain)
    ensures var m, p := Traverse(h, v, path, depth, ps, opts, memo), Traverse(h, v, path, depth, ps, opts, plain);
            m.0 == p.0 && (m.0.Ok? ==> Coupled(h, on, ps, m.1, p.1))
    decreases Room(opts, depth), 1, 0
  {
    if v.Ref? && depth <= opts.maxDepth {
      if RefOf(h[v.a]).Some? {
        ReferenceCoupled(h, on, v.a, BuildPointer(opts.basePath, path), ps, opts, memo, plain);
      } else if !(opts.cycleDetection && v.a in memo.ancestors) {
        EntriesCoupled(h, on, h[v.a], |Entries(h[v.a])|, path, depth, ps, opts,
                       Enter(memo, v.a, opts), Enter(plain, v.a, opts));
      }
    }
  }

  lemma {:induction false} EntriesCoupled(h: Heap, on: set<Addr>, o: Obj, n: nat, path: seq<string>, depth: nat,
                                          ps: Providers, opts: Options, memo: State, plain: State)
    requires HeapOk(h) && ObjOk(h, o) && n <= |Entries(o)| && depth <= opts.maxDepth
    requires Closed(h, on) && forall i :: 0 <= i < |Entries(o)| ==> Inside(Entries(o)[i].value, on)
    requires KeysDetermineAnswers(h, on, ps) && Coupled(h, on, ps, memo, plain)
    ensures var m := TraverseEntries(h, o, n, path, depth, ps, opts, memo);
            var p := TraverseEntries(h, o, n, path, depth, ps, opts, plain);
            m.0 == p.0 && (m.0.Ok? ==> Coupled(h, on, ps, m.1, p.1))
    decreases Room(opts, depth), 0, n
  {
    if n > 0 {
      var m := TraverseEntries(h, o, n - 1, path, depth, ps, opts, memo);
      var p := TraverseEntries(h, o, n - 1, path, depth, ps, opts, plain);
      EntriesCoupled(h, on, o, n - 1, path, depth, ps, opts, memo, plain);
      if m.0.Ok? {
        var e := Entries(o)[n - 1];
        TraverseCoupled(h, on, e.value, path + [e.key], depth + 1, ps, opts, m.1, p.1);
      }
    }
  }

  /** The same options but for memoize. */
  function Memoized(opts: Options, on: bool): Options {
    opts.(memoize := on)
  }

  lemma MemoizeUnreadRef(a: Addr, r: Reference, pointer: string, ps: Providers, opts: Options, on: bool, st: State)
    ensures ResolveRef(a, r, pointer, ps, Memoized(opts, on), st) == ResolveRef(a, r, pointer, ps, opts, st)
  {
  }

  /** `memoize` is read once, when the caches are made. */
  lemma {:induction false} MemoizeUnread(h: Heap, v: Val, path: seq<string>, depth: nat, ps: Providers, opts: Options,
                                         on: bool, st: State)
    requires HeapOk(h) && ValOk(h, v)
    ensures Traverse(h, v, path, depth, ps, Memoized(opts, on), st) == Traverse(h, v, path, depth, ps, opts, st)
    decreases Room(opts, depth), 1, 0
  {
    if v.Ref? && RefOf(h[v.a]).Some? {
      MemoizeUnreadRef(v.a, RefOf(h[v.a]).value, BuildPointer(opts.basePath, path), ps, opts, on, st);
    } else if v.Ref? && depth <= opts.maxDepth {
      MemoizeUnreadAll(h, h[v.a], |Entries(h[v.a])|, path, depth, ps, opts, on, Enter(st, v.a, opts));
    }
  }

  lemma {:induction false} MemoizeUnreadAll(h: Heap, o: Obj, n: nat, path: seq<string>, depth: nat, ps: Providers,
                                            opts: Options, on: bool, st: State)
    requires HeapOk(h) && ObjOk(h, o) && n <= |Entries(o)| && depth <= opts.maxDepth
    ensures TraverseEntries(h, o, n, path, depth, ps, Memoized(opts, on), st) ==
      TraverseEntries(h, o, n, path, depth, ps, opts, st)
    decreases Room(opts, depth), 0, n
  {
    if n > 0 {
      var st1 := TraverseEntries(h, o, n - 1, path, depth, ps, opts, st).1;
      var e := Entries(o)[n - 1];
      MemoizeUnreadAll(h, o, n - 1, path, depth, ps, opts, on, st);
      MemoizeUnread(h, e.value, path + [e.key], depth + 1, ps, opts, on, st1);
    }
  }

  /**
   * Memoised and plain runs give the same output or the same error, and reports that differ in
   * cache hits only, whenever reached references filed under one key get one answer.
   */
  lemma MemoRefinesPlain(h: Heap, root: Val, ps: Providers, opts: Options)
    requires HeapOk(h) && ValOk(h, root) && KeysDetermineAnswers(h, Reach(h, root), ps)
    ensures var m, p := Resolve(h, root, ps, Memoized(opts, true)), Resolve(h, root, ps, Memoized(opts, false));
            m.0 == p.0 && (m.0.Ok? ==> Alike(m.1, p.1))
  {
    var memo, plain := InitialState(Memoized(opts, true)), InitialState(Memoized(opts, false));
    MemoizeUnread(h, root, [], 0, ps, opts, true, memo);
    MemoizeUnread(h, root, [], 0, ps, opts, false, plain);
    ReachClosed(h, root);
    TraverseCoupled(h, Reach(h, root), root, [], 0, ps, opts, memo, plain);
  }

  // ---- when keys determine answers ----

  /** No mount and no key of a secret reference contains the separator. */
  ghost predicate ColonFree(h: Heap) {
    forall a :: a in h && RefOf(h[a]).Some? && RefOf(h[a]).value.Secret? ==>
      ':' !in RefOf(h[a]).value.mount && ':' !in RefOf(h[a]).value.key
  }

  lemma LastColon(x: string, y: string, a: string, b: string)
    requires ':' !in b
    ensures |a| < |b| ==> x + ":" + a != y + ":" + b
  {
    var s, t := x + ":" + a, y + ":" + b;
    if |a| < |b| {
      assert s[|s| - |a| - 1] == ':';
      assert t[|t| - |a| - 1] == b[|b| - |a| - 1] && b[|b| - |a| - 1] in b;
    }
  }

  lemma KeyInjective(m1: string, p1: string, k1: string, m2: string, p2: string, k2: string)
    requires ':' !in m1 && ':' !in m2 && ':' !in k1 && ':' !in k2
    requires m1 + ":" + p1 + ":" + k1 == m2 + ":" + p2 + ":" + k2
    ensures m1 == m2 && p1 == p2 && k1 == k2
  {
    var s, t := m1 + ":" + p1 + ":" + k1, m2 + ":" + p2 + ":" + k2;
    var x1, x2 := p1 + ":" + k1, p2 + ":" + k2;
    assert s == m1 + ":" + x1 && t == m2 + ":" + x2;
    FirstColon(m1, m2, x1, x2);
    FirstColon(m2, m1, x2, x1);
    assert m1 == s[..|m1|] && m2 == t[..|m2|] && x1 == s[|m1| + 1..] && x2 == t[|m2| + 1..];
    LastColon(p1, p2, k1, k2);
    LastColon(p2, p1, k2, k1);
    assert k1 == x1[|x1| - |k1|..] && k2 == x2[|x2| - |k2|..];
    assert p1 == x1[..|p1|] && p2 == x2[..|p2|];
  }

  /** No two different secrets among them share a cache key. */
  ghost predicate KeysApart(h: Heap, on: set<Addr>) {
    forall a, b :: RefIn(h, on, a) && RefIn(h, on, b) && RefOf(h[a]).value.Secret?
                   && KeyOf(RefOf(h[a]).value) == KeyOf(RefOf(h[b]).value) ==>
      RefOf(h[a]) == RefOf(h[b])
  }

  lemma ColonFreeKeysApart(h: Heap, on: set<Addr>)
    requires ColonFree(h)
    ensures KeysApart(h, on)
  {
    forall a, b | RefIn(h, on, a) && RefIn(h, on, b) && RefOf(h[a]).value.Secret?
                  && KeyOf(RefOf(h[a]).value) == KeyOf(RefOf(h[b]).value)
      ensures RefOf(h[a]) == RefOf(h[b])
    {
      var r, q := RefOf(h[a]).value, RefOf(h[b]).value;
      KeyInjective(r.mount, r.path, r.key, q.mount, q.path, q.key);
    }
  }

  lemma ApartKeysDetermine(h: Heap, on: set<Addr>, ps: Providers)
    requires KeysApart(h, on)
    ensures KeysDetermineAnswers(h, on, ps)
  {
  }

  /** In particular for colon-free mounts and keys, whatever the providers answer. */
  lemma MemoisationIsTransparent(h: Heap, root: Val, ps: Providers, opts: Options)
    requires HeapOk(h) && ValOk(h, root) && ColonFree(h)
    ensures var m, p := Resolve(h, root, ps, Memoized(opts, true)), Resolve(h, root, ps, Memoized(opts, false));
            m.0 == p.0 && (m.0.Ok? ==> Alike(m.1, p.1))
  {
    ColonFreeKeysApart(h, Reach(h, root));
    ApartKeysDetermine(h, Reach(h, root), ps);
    MemoRefinesPlain(h, root, ps, opts);
  }
}
