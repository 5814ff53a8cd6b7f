/** Which inputs a walk gets through: those whose unfolding fits the depth limit, and no cyclic one. */
module ReferencesStructure {
  import opened Wrappers
  import opened Collections
  import opened Text
  import opened References

  /**
   * The unfolding of v, references counting as leaves, is at most d levels deep. This is the
   * whole condition: sharing is allowed, and a value that reaches a cycle fits no depth.
   */
  ghost predicate Fits(h: Heap, v: Val, d: int)
    requires HeapOk(h) && ValOk(h, v)
    decreases if d < 0 then 0 else d + 1, 0
  {
    d >= 0 && (IsContainer(h, v) ==> AllFit(h, h[v.a], |Entries(h[v.a])|, d - 1))
  }

  /** The first n elements of o fit. */
  ghost predicate AllFit(h: Heap, o: Obj, n: nat, d: int)
    requires HeapOk(h) && ObjOk(h, o) && n <= |Entries(o)|
    decreases if d < 0 then 0 else d + 1, 1
  {
    forall i {:trigger Fits(h, Entries(o)[i].value, d)} :: 0 <= i < n ==> Fits(h, Entries(o)[i].value, d)
  }

  lemma {:induction false} FitsMore(h: Heap, v: Val, d: int, e: int)
    requires HeapOk(h) && ValOk(h, v) && Fits(h, v, d) && d <= e
    ensures Fits(h, v, e)
    decreases if d < 0 then 0 else d + 1, 0
  {
    if IsContainer(h, v) {
      AllFitMore(h, h[v.a], |Entries(h[v.a])|, d - 1, e - 1);
    }
  }

  lemma {:induction false} AllFitMore(h: Heap, o: Obj, n: nat, d: int, e: int)
    requires HeapOk(h) && ObjOk(h, o) && n <= |Entries(o)| && AllFit(h, o, n, d) && d <= e
    ensures AllFit(h, o, n, e)
    decreases if d < 0 then 0 else d + 1, 1
  {
    forall i | 0 <= i < n ensures Fits(h, Entries(o)[i].value, e) {
      FitsMore(h, Entries(o)[i].value, d, e);
    }
  }

  // ---- a normal return means that the input fits ----

  lemma {:induction false} ReturnMeansFits(h: Heap, v: Val, path: seq<string>, depth: nat, ps: Providers,
                                           opts: Options, st: State)
    requires HeapOk(h) && ValOk(h, v) && Traverse(h, v, path, depth, ps, opts, st).0.Ok?
    ensures Fits(h, v, opts.maxDepth - depth)
    decreases Room(opts, depth), 1, 0
  {
    if IsContainer(h, v) {
      var o := h[v.a];
      ReturnMeansEntriesFit(h, o, |Entries(o)|, path, depth, ps, opts, Enter(st, v.a, opts));
    }
  }

  lemma OneMoreFits(h: Heap, o: Obj, n: nat, d: int)
    requires HeapOk(h) && ObjOk(h, o) && 0 < n <= |Entries(o)|
    ensures AllFit(h, o, n - 1, d) && Fits(h, Entries(o)[n - 1].value, d) ==> AllFit(h, o, n, d)
  {
  }

  lemma {:induction false} ReturnMeansEntriesFit(h: Heap, o: Obj, n: nat, path: seq<string>, depth: nat, ps: Providers,
                                                 opts: Options, st: State)
    requires HeapOk(h) && ObjOk(h, o) && n <= |Entries(o)| && depth <= opts.maxDepth
    requires TraverseEntries(h, o, n, path, depth, ps, opts, st).0.Ok?
    ensures AllFit(h, o, n, opts.maxDepth - (depth + 1))
    decreases Room(opts, depth), 0, n
  {
    if n > 0 {
      var st1 := TraverseEntries(h, o, n - 1, path, depth, ps, opts, st).1;
      var e := Entries(o)[n - 1];
      ReturnMeansEntriesFit(h, o, n - 1, path, depth, ps, opts, st);
      ReturnMeansFits(h, e.value, path + [e.key], depth + 1, ps, opts, st1);
      OneMoreFits(h, o, n, opts.maxDepth - (depth + 1));
    }
  }

  // ---- an input that fits never trips the walk ----

  predicate Tripped<T>(r: Result<T, Error>) {
    r.Err? && r.error.TraversalError?
  }

  /** On a normal return the ancestors are as before. */
  lemma {:induction false} AncestorsRestored(h: Heap, v: Val, path: seq<string>, depth: nat, ps: Providers,
                                             opts: Options, st: State)
    requires HeapOk(h) && ValOk(h, v)
    ensures var (r, st') := Traverse(h, v, path, depth, ps, opts, st); r.Ok? ==> st'.ancestors == st.ancestors
    decreases Room(opts, depth), 1, 0
  {
    if IsContainer(h, v) && depth <= opts.maxDepth && !(opts.cycleDetection && v.a in st.ancestors) {
      AncestorsRestoredAll(h, h[v.a], |Entries(h[v.a])|, path, depth, ps, opts, Enter(st, v.a, opts));
    }
  }

  lemma {:induction false} AncestorsRestoredAll(h: Heap, o: Obj, n: nat, path: seq<string>, depth: nat, ps: Providers,
                                                opts: Options, st: State)
    requires HeapOk(h) && ObjOk(h, o) && n <= |Entries(o)| && depth <= opts.maxDepth
    ensures var (r, st') := TraverseEntries(h, o, n, path, depth, ps, opts, st); r.Ok? ==> st'.ancestors == st.ancestors
    decreases Room(opts, depth), 0, n
  {
    if n > 0 {
      var (outs, st1) := TraverseEntries(h, o, n - 1, path, depth, ps, opts, st);
      AncestorsRestoredAll(h, o, n - 1, path, depth, ps, opts, st);
      if outs.Ok? {
        var e := Entries(o)[n - 1];
        AncestorsRestored(h, e.value, path + [e.key], depth + 1, ps, opts, st1);
      }
    }
  }

  /** The ancestors are deeper than d, so nothing that fits d can be one of them. */
  ghost predicate Above(h: Heap, ancestors: set<Addr>, d: int)
    requires HeapOk(h)
  {
    forall a :: a in ancestors ==> a in h && IsContainer(h, Ref(a)) && !Fits(h, Ref(a), d)
  }

  lemma AboveLess(h: Heap, ancestors: set<Addr>, d: int)
    requires HeapOk(h) && Above(h, ancestors, d)
    ensures Above(h, ancestors, d - 1)
  {
    forall a | a in ancestors ensures !Fits(h, Ref(a), d - 1) {
      if Fits(h, Ref(a), d - 1) {
        FitsMore(h, Ref(a), d - 1, d);
      }
    }
  }

  lemma {:induction false} FittingNeverTrips(h: Heap, v: Val, path: seq<string>, depth: nat, ps: Providers,
                                             opts: Options, st: State, d: int)
    requires HeapOk(h) && ValOk(h, v) && Fits(h, v, d) && d <= opts.maxDepth - depth
    requires opts.cycleDetection ==> Above(h, st.ancestors, d)
    ensures !Tripped(Traverse(h, v, path, depth, ps, opts, st).0)
    decreases Room(opts, depth), d, 1, 0
  {
    if IsContainer(h, v) {
      if Fits(h, v, d - 1) {
        if opts.cycleDetection {
          AboveLess(h, st.ancestors, d);
        }
        FittingNeverTrips(h, v, path, depth, ps, opts, st, d - 1);
      } else {
        if opts.cycleDetection {
          AboveLess(h, st.ancestors, d);
        }
        FittingEntriesNeverTrip(h, h[v.a], |Entries(h[v.a])|, path, depth, ps, opts, Enter(st, v.a, opts), d - 1);
      }
    }
  }

  lemma {:induction false} FittingEntriesNeverTrip(h: Heap, o: Obj, n: nat, path: seq<string>, depth: nat,
                                                   ps: Providers, opts: Options, st: State, d: int)
    requires HeapOk(h) && ObjOk(h, o) && n <= |Entries(o)| && depth <= opts.maxDepth && d <= opts.maxDepth - (depth + 1)
    requires AllFit(h, o, n, d)
    requires opts.cycleDetection ==> Above(h, st.ancestors, d)
    ensures !Tripped(TraverseEntries(h, o, n, path, depth, ps, opts, st).0)
    decreases Room(opts, depth), 0, 0, n
  {
    if n > 0 {
      var (outs, st1) := TraverseEntries(h, o, n - 1, path, depth, ps, opts, st);
      FittingEntriesNeverTrip(h, o, n - 1, path, depth, ps, opts, st, d);
      AncestorsRestoredAll(h, o, n - 1, path, depth, ps, opts, st);
      if outs.Ok? {
        var e := Entries(o)[n - 1];
        FittingNeverTrips(h, e.value, path + [e.key], depth + 1, ps, opts, st1, d);
      }
    }
  }

  // ---- lenient runs fail in no other way ----

  lemma {:induction false} LenientOnlyTrips(h: Heap, v: Val, path: seq<string>, depth: nat, ps: Providers,
                                            opts: Options, st: State)
    requires HeapOk(h) && ValOk(h, v) && !opts.strict
    ensures var r := Traverse(h, v, path, depth, ps, opts, st).0; r.Ok? || Tripped(r)
    decreases Room(opts, depth), 1, 0
  {
    if IsContainer(h, v) && depth <= opts.maxDepth && !(opts.cycleDetection && v.a in st.ancestors) {
      LenientEntriesOnlyTrip(h, h[v.a], |Entries(h[v.a])|, path, depth, ps, opts, Enter(st, v.a, opts));
    }
  }

  lemma {:induction false} LenientEntriesOnlyTrip(h: Heap, o: Obj, n: nat, path: seq<string>, depth: nat,
                                                  ps: Providers, opts: Options, st: State)
    requires HeapOk(h) && ObjOk(h, o) && n <= |Entries(o)| && depth <= opts.maxDepth && !opts.strict
    ensures var r := TraverseEntries(h, o, n, path, depth, ps, opts, st).0; r.Ok? || Tripped(r)
    decreases Room(opts, depth), 0, n
  {
    if n > 0 {
      var (outs, st1) := TraverseEntries(h, o, n - 1, path, depth, ps, opts, st);
      LenientEntriesOnlyTrip(h, o, n - 1, path, depth, ps, opts, st);
      if outs.Ok? {
        var e := Entries(o)[n - 1];
        LenientOnlyTrips(h, e.value, path + [e.key], depth + 1, ps, opts, st1);
      }
    }
  }

  /**
   * cycle_detected and max_depth_exceeded are exact, whether or not cycle detection is on: an
   * input within the depth limit never raises them, one beyond it never returns normally, and
   * in lenient mode nothing else decides whether the resolution returns.
   */
  lemma StructuralErrorsExact(h: Heap, root: Val, ps: Providers, opts: Options)
    requires HeapOk(h) && ValOk(h, root)
    ensures var r := Resolve(h, root, ps, opts).0;
            && (Fits(h, root, opts.maxDepth) ==> !Tripped(r))
            && (!Fits(h, root, opts.maxDepth) ==> r.Err?)
            && (!opts.strict ==> (r.Ok? <==> Fits(h, root, opts.maxDepth)))
  {
    var st := InitialState(opts);
    if Traverse(h, root, [], 0, ps, opts, st).0.Ok? {
      ReturnMeansFits(h, root, [], 0, ps, opts, st);
    }
    if Fits(h, root, opts.maxDepth) {
      FittingNeverTrips(h, root, [], 0, ps, opts, st, opts.maxDepth);
    }
    if !opts.strict {
      LenientOnlyTrips(h, root, [], 0, ps, opts, st);
    }
  }

  // ---- cycles ----

  /** tokens lead from v through containers only. */
  ghost predicate Passes(h: Heap, v: Val, tokens: seq<string>)
    decreases |tokens|
  {
    tokens != [] ==>
      IsContainer(h, v) && Child(h[v.a], tokens[0]).Some? && Passes(h, Child(h[v.a], tokens[0]).value, tokens[1..])
  }

  lemma {:induction false} ChildListed(es: seq<Entry>, token: string) returns (i: nat)
    requires ChildAmong(es, token).Some?
    ensures i < |es| && es[i].value == ChildAmong(es, token).value
  {
    if es[0].key == token {
      i := 0;
    } else {
      var k := ChildListed(es[1..], token);
      i := k + 1;
    }
  }

  lemma {:induction false} FitsBelow(h: Heap, v: Val, tokens: seq<string>, d: int)
    requires HeapOk(h) && ValOk(h, v) && Passes(h, v, tokens) && Fits(h, v, d)
    ensures At(h, v, tokens).Some? && ValOk(h, At(h, v, tokens).value) && Fits(h, At(h, v, tokens).value, d - |tokens|)
    decreases |tokens|
  {
    if tokens != [] {
      var i := ChildListed(Entries(h[v.a]), tokens[0]);
      FitsBelow(h, Child(h[v.a], tokens[0]).value, tokens[1..], d - 1);
    }
  }

  /** A value that reaches itself fits no depth, so no resolution of it returns. */
  lemma {:induction false} CycleFitsNothing(h: Heap, v: Val, tokens: seq<string>, d: int)
    requires HeapOk(h) && ValOk(h, v) && tokens != [] && Passes(h, v, tokens) && At(h, v, tokens) == Some(v)
    ensures !Fits(h, v, d)
    decreases if d < 0 then 0 else d + 1
  {
    if Fits(h, v, d) {
      FitsBelow(h, v, tokens, d);
      CycleFitsNothing(h, v, tokens, d - |tokens|);
    }
  }

  lemma CyclesNeverReturn(h: Heap, root: Val, to: seq<string>, around: seq<string>, ps: Providers, opts: Options)
    requires HeapOk(h) && ValOk(h, root) && Passes(h, root, to) && At(h, root, to).Some?
    requires var v := At(h, root, to).value; around != [] && Passes(h, v, around) && At(h, v, around) == Some(v)
    ensures Resolve(h, root, ps, opts).0.Err?
  {
    var v := At(h, root, to).value;
    if Fits(h, root, opts.maxDepth) {
      FitsBelow(h, root, to, opts.maxDepth);
      CycleFitsNothing(h, v, around, opts.maxDepth - |to|);
    }
    StructuralErrorsExact(h, root, ps, opts);
  }

  // ---- what a walk can reach ----

  /** An object that tokens lead to from v through containers; a reference may be the last one. */
  ghost predicate Reaches(h: Heap, v: Val, a: Addr) {
    exists tokens :: Passes(h, v, tokens) && At(h, v, tokens) == Some(Ref(a))
  }

  ghost function Reach(h: Heap, v: Val): set<Addr> {
    set a | a in h && Reaches(h, v, a)
  }

  /** on holds the objects directly below each container in it. */
  ghost predicate Closed(h: Heap, on: set<Addr>) {
    forall a, i :: a in on && a in h && RefOf(h[a]).None? && 0 <= i < |Entries(h[a])| ==>
      Inside(Entries(h[a])[i].value, on)
  }

  ghost predicate Inside(v: Val, on: set<Addr>) {
    v.Ref? ==> v.a in on
  }

  lemma {:induction false} PassesOn(h: Heap, v: Val, tokens: seq<string>, token: string)
    requires Passes(h, v, tokens) && At(h, v, tokens).Some?
    requires IsContainer(h, At(h, v, tokens).value) && Child(h[At(h, v, tokens).value.a], token).Some?
    ensures Passes(h, v, tokens + [token])
    decreases |tokens|
  {
    if tokens == [] {
      assert [] + [token] == [token] && [token][1..] == [];
    } else {
      assert (tokens + [token])[1..] == tokens[1..] + [token];
      PassesOn(h, Child(h[v.a], tokens[0]).value, tokens[1..], token);
    }
  }

  lemma ReachClosed(h: Heap, root: Val)
    requires HeapOk(h) && ValOk(h, root)
    ensures Closed(h, Reach(h, root)) && Inside(root, Reach(h, root))
  {
    forall a, i | a in Reach(h, root) && RefOf(h[a]).None? && 0 <= i < |Entries(h[a])|
      ensures Inside(Entries(h[a])[i].value, Reach(h, root))
    {
      var tokens :| Passes(h, root, tokens) && At(h, root, tokens) == Some(Ref(a));
      var e := Entries(h[a])[i];
      assert ObjOk(h, h[a]) && ValOk(h, e.value);
      ChildIs(Entries(h[a]), i);
      StepDown(h, root, tokens, e.key);
      PassesOn(h, root, tokens, e.key);
    }
    if root.Ref? {
      assert Passes(h, root, []) && At(h, root, []) == Some(Ref(root.a));
    }
  }

  // ---- cycle detection alone bounds the walk ----

  /** With cycle detection, no path is longer than the number of objects: a limit of that size is never hit. */
  lemma {:induction false} DepthBoundedByHeap(h: Heap, v: Val, path: seq<string>, depth: nat, ps: Providers,
                                              opts: Options, st: State)
    requires HeapOk(h) && ValOk(h, v) && opts.cycleDetection && |h| <= opts.maxDepth
    requires st.ancestors <= h.Keys && depth == |st.ancestors|
    ensures var r := Traverse(h, v, path, depth, ps, opts, st).0; Tripped(r) ==> r.error.code == CycleDetected
    decreases Room(opts, depth), 1, 0
  {
    assert |h.Keys| == |h|;
    SubsetSize(st.ancestors, h.Keys);
    if IsContainer(h, v) && v.a !in st.ancestors {
      EntriesBoundedByHeap(h, h[v.a], |Entries(h[v.a])|, path, depth, ps, opts, Enter(st, v.a, opts));
    }
  }

  lemma {:induction false} EntriesBoundedByHeap(h: Heap, o: Obj, n: nat, path: seq<string>, depth: nat, ps: Providers,
                                                opts: Options, st: State)
    requires HeapOk(h) && ObjOk(h, o) && n <= |Entries(o)|
    requires opts.cycleDetection && depth <= opts.maxDepth && |h| <= opts.maxDepth
    requires st.ancestors <= h.Keys && depth + 1 == |st.ancestors|
    ensures var r := TraverseEntries(h, o, n, path, depth, ps, opts, st).0; Tripped(r) ==> r.error.code == CycleDetected
    decreases Room(opts, depth), 0, n
  {
    if n > 0 {
      var (outs, st1) := TraverseEntries(h, o, n - 1, path, depth, ps, opts, st);
      EntriesBoundedByHeap(h, o, n - 1, path, depth, ps, opts, st);
      AncestorsRestoredAll(h, o, n - 1, path, depth, ps, opts, st);
      if outs.Ok? {
        var e := Entries(o)[n - 1];
        DepthBoundedByHeap(h, e.value, path + [e.key], depth + 1, ps, opts, st1);
      }
    }
  }
}
