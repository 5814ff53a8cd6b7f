/** Exactly when memoisation is transparent: when no two different reached secrets share a cache key. */
module ReferencesCollisions {
  import opened Wrappers
  import opened References
  import opened ReferencesStructure
  import opened ReferencesMemo
  import opened ReferencesOutput

  ghost predicate SameResult(h: Heap, root: Val, ps: Providers, opts: Options)
    requires HeapOk(h) && ValOk(h, root)
  {
    Resolve(h, root, ps, Memoized(opts, true)).0 == Resolve(h, root, ps, Memoized(opts, false)).0
  }

  /** Providers that tell one secret from all others. */
  function Telling(r: Reference): Providers
    requires r.Secret?
  {
    Providers(
      Some((mount: string, path: string, key: string) => Value(if Secret(mount, path, key) == r then "1" else "2")),
      Some((name: string) => Value("")))
  }

  /** What providers that always answer get for an input within the depth limit. */
  lemma ValuesResolve(h: Heap, root: Val, ps: Providers, opts: Options)
    requires HeapOk(h) && ValOk(h, root) && Fits(h, root, opts.maxDepth) && AlwaysValue(ps)
    ensures var (r, st) := Resolve(h, root, ps, opts);
            && r.Ok? && Replaces(h, root, r.value, AnyText)
            && (opts.memoize ==> st.cache.Some? && Replaces(h, root, r.value, Filed(st.cache.value)))
            && (!opts.memoize ==> Replaces(h, root, r.value, Answers(ps)))
  {
    var on, start := Reach(h, root), InitialState(opts);
    ReachClosed(h, root);
    StructuralErrorsExact(h, root, ps, opts);
    ValuesNeverRefused(h, on, root, [], 0, ps, opts, start);
    WalkGrows(h, on, root, [], 0, ps, opts, start);
    WalkReplaces(h, on, root, [], 0, ps, opts, start, AnyText);
    if opts.memoize {
      WalkReplaces(h, on, root, [], 0, ps, opts, start, Filed(Resolve(h, root, ps, opts).1.cache.value));
    } else {
      WalkReplaces(h, on, root, [], 0, ps, opts, start, Answers(ps));
    }
  }

  /** Two secrets of one key get one text from a cache, and two from providers that tell them apart. */
  lemma CollisionShows(h: Heap, root: Val, opts: Options, a: Addr, b: Addr)
    requires HeapOk(h) && ValOk(h, root) && Fits(h, root, opts.maxDepth)
    requires RefIn(h, Reach(h, root), a) && RefIn(h, Reach(h, root), b) && RefOf(h[a]).value.Secret?
    requires KeyOf(RefOf(h[a]).value) == KeyOf(RefOf(h[b]).value) && RefOf(h[a]) != RefOf(h[b])
    ensures AlwaysValue(Telling(RefOf(h[a]).value)) && !SameResult(h, root, Telling(RefOf(h[a]).value), opts)
  {
    var ps := Telling(RefOf(h[a]).value);
    var m, p := Resolve(h, root, ps, Memoized(opts, true)), Resolve(h, root, ps, Memoized(opts, false));
    ValuesResolve(h, root, ps, Memoized(opts, true));
    ValuesResolve(h, root, ps, Memoized(opts, false));
    if m.0 == p.0 {
      var filed := Filed(m.1.cache.value);
      var s :| Passes(h, root, s) && At(h, root, s) == Some(Ref(a));
      var t :| Passes(h, root, t) && At(h, root, t) == Some(Ref(b));
      var x := PartAt(h, root, m.0.value, filed, Answers(ps), s);
      var y := PartAt(h, root, m.0.value, filed, Answers(ps), t);
      assert false;
    }
  }

  /**
   * For an input within the depth limit, memoised and plain runs agree for all providers that
   * always answer exactly when no two different reached secrets share a cache key; and then
   * they agree for all providers, whatever these answer.
   */
  lemma MemoisationExact(h: Heap, root: Val, opts: Options)
    requires HeapOk(h) && ValOk(h, root) && Fits(h, root, opts.maxDepth)
    ensures (forall ps :: AlwaysValue(ps) ==> SameResult(h, root, ps, opts)) <==> KeysApart(h, Reach(h, root))
    ensures (forall ps :: SameResult(h, root, ps, opts)) <==> KeysApart(h, Reach(h, root))
  {
    if KeysApart(h, Reach(h, root)) {
      forall ps ensures SameResult(h, root, ps, opts) {
        ApartKeysDetermine(h, Reach(h, root), ps);
        MemoRefinesPlain(h, root, ps, opts);
      }
    } else {
      var a, b :| RefIn(h, Reach(h, root), a) && RefIn(h, Reach(h, root), b) && RefOf(h[a]).value.Secret?
                  && KeyOf(RefOf(h[a]).value) == KeyOf(RefOf(h[b]).value) && RefOf(h[a]) != RefOf(h[b]);
      CollisionShows(h, root, opts, a, b);
    }
  }

  // ---- a collision ----

  function SecretRecord(path: string, key: string): Obj {
    Record([Entry("kind", Str("vault")), Entry("mount", Str("m")), Entry("path", Str(path)), Entry("key", Str(key))])
  }

  /** Two secrets filed under "m:p:q:k". */
  const COLLIDING: Heap := map[
    0 := Array([Ref(1), Ref(2)]), 1 := SecretRecord("p:q", "k"), 2 := SecretRecord("p", "q:k")]

  lemma SecretRecordIs(path: string, key: string)
    requires path != "" && key != ""
    ensures RefOf(SecretRecord(path, key)) == Some(Secret("m", path, key))
    ensures forall i, j :: 0 <= i < j < 4 ==>
      SecretRecord(path, key).fields[i].key != SecretRecord(path, key).fields[j].key
  {
    var f := SecretRecord(path, key).fields;
    assert f[0].key == "kind" && f[1].key == "mount" && f[2].key == "path" && f[3].key == "key";
    assert f[1..] == [f[1], f[2], f[3]] && f[1..][1..] == [f[2], f[3]] && f[1..][1..][1..] == [f[3]];
    assert Field(f[1..][1..][1..], "key") == Str(key) && Field(f[1..][1..], "path") == Str(path);
    assert Field(f[1..][1..], "key") == Str(key) && Field(f[1..], "mount") == Str("m");
    assert Field(f[1..], "key") == Str(key) && Field(f[1..], "path") == Str(path);
  }

  lemma CollidingHeap()
    ensures HeapOk(COLLIDING)
    ensures RefOf(COLLIDING[1]) == Some(Secret("m", "p:q", "k")) && RefOf(COLLIDING[2]) == Some(Secret("m", "p", "q:k"))
    ensures KeyOf(Secret("m", "p:q", "k")) == KeyOf(Secret("m", "p", "q:k"))
    ensures Secret("m", "p:q", "k") != Secret("m", "p", "q:k")
  {
    SecretRecordIs("p:q", "k");
    SecretRecordIs("p", "q:k");
    DecimalsDiffer();
    KeysCollide();
  }

  lemma KeysCollide()
    ensures KeyOf(Secret("m", "p:q", "k")) == KeyOf(Secret("m", "p", "q:k"))
    ensures Secret("m", "p:q", "k") != Secret("m", "p", "q:k")
  {
    assert "m" + ":" + "p:q" + ":" + "k" == "m:p:q:k" == "m" + ":" + "p" + ":" + "q:k";
    assert |"p:q"| == 3 && |"p"| == 1;
  }

  lemma DecimalsDiffer()
    ensures Entries(COLLIDING[0])[0].key != Entries(COLLIDING[0])[1].key
  {
  }

  /** A memoised run serves the second of two such secrets the value of the first. */
  lemma CollidingSecretServed(ps: Providers, first: string, second: string, opts: Options)
    requires opts.maxDepth >= 1
    requires Ask(ps, Secret("m", "p:q", "k")) == Some(Value(first))
    requires Ask(ps, Secret("m", "p", "q:k")) == Some(Value(second))
    ensures HeapOk(COLLIDING)
    ensures Resolve(COLLIDING, Ref(0), ps, Memoized(opts, true)).0 == Ok(OArray([OStr(first), OStr(first)]))
    ensures Resolve(COLLIDING, Ref(0), ps, Memoized(opts, false)).0 == Ok(OArray([OStr(first), OStr(second)]))
  {
    CollidingHeap();
    TwoReferences(ps, first, second, Memoized(opts, true));
    TwoReferences(ps, first, second, Memoized(opts, false));
  }

  lemma TwoReferences(ps: Providers, first: string, second: string, opts: Options)
    requires opts.maxDepth >= 1 && HeapOk(COLLIDING)
    requires RefOf(COLLIDING[1]) == Some(Secret("m", "p:q", "k"))
    requires RefOf(COLLIDING[2]) == Some(Secret("m", "p", "q:k"))
    requires KeyOf(Secret("m", "p:q", "k")) == KeyOf(Secret("m", "p", "q:k"))
    requires Ask(ps, Secret("m", "p:q", "k")) == Some(Value(first))
    requires Ask(ps, Secret("m", "p", "q:k")) == Some(Value(second))
    ensures Resolve(COLLIDING, Ref(0), ps, opts).0 ==
      Ok(OArray([OStr(first), OStr(if opts.memoize then first else second)]))
  {
    var h, o := COLLIDING, COLLIDING[0];
    var es := Entries(o);
    var st := Enter(InitialState(opts), 0, opts);
    assert RefOf(o).None? && es[0].value == Ref(1) && es[1].value == Ref(2);
    var one := TraverseEntries(h, o, 1, [], 0, ps, opts, st);
    var r := Traverse(h, Ref(1), [] + [es[0].key], 1, ps, opts, st);
    assert TraverseEntries(h, o, 0, [], 0, ps, opts, st) == (Ok([]), st);
    assert one == (Ok([] + [OStr(first)]), r.1);
    var two := TraverseEntries(h, o, 2, [], 0, ps, opts, st);
    assert Traverse(h, Ref(2), [] + [es[1].key], 1, ps, opts, r.1).0 ==
      Ok(OStr(if opts.memoize then first else second));
    assert two.0 == Ok([] + [OStr(first)] + [OStr(if opts.memoize then first else second)]);
    assert [] + [OStr(first)] + [OStr(if opts.memoize then first else second)]
        == [OStr(first), OStr(if opts.memoize then first else second)];
  }
}
