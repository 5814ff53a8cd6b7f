/** Strict resolution replaces every reference by its value, keeps everything else, and is a fixed point. */
module ReferencesStrict {
  import opened Wrappers
  import opened Text
  import opened References
  import opened ReferencesStructure
  import opened ReferencesMemo
  import opened ReferencesOutput

  /** A strict return is the input with every reference replaced by a text, and everything else kept. */
  lemma StrictReplaces(h: Heap, root: Val, ps: Providers, opts: Options)
    requires HeapOk(h) && ValOk(h, root) && opts.strict && Resolve(h, root, ps, opts).0.Ok?
    ensures Replaces(h, root, Resolve(h, root, ps, opts).0.value, AnyText)
  {
    ReachClosed(h, root);
    WalkReplaces(h, Reach(h, root), root, [], 0, ps, opts, InitialState(opts), AnyText);
  }

  /** The text is the provider's value, when references of one cache key have one answer or nothing is cached. */
  lemma StrictResolves(h: Heap, root: Val, ps: Providers, opts: Options)
    requires HeapOk(h) && ValOk(h, root) && opts.strict && Resolve(h, root, ps, opts).0.Ok?
    requires opts.memoize ==> KeysDetermineAnswers(h, Reach(h, root), ps)
    ensures Replaces(h, root, Resolve(h, root, ps, opts).0.value, Answers(ps))
  {
    ReachClosed(h, root);
    WalkReplaces(h, Reach(h, root), root, [], 0, ps, opts, InitialState(opts), Answers(ps));
  }

  // ---- references in the output ----

  function OutField(fields: seq<OutEntry>, key: string): Out {
    if fields == [] then OUndefined
    else if fields[0].key == key then fields[0].value
    else OutField(fields[1..], key)
  }

  function OutText(out: Out): string {
    if out.OStr? then out.s else ""
  }

  predicate IsOutReference(fields: seq<OutEntry>) {
    || (&& OutField(fields, "kind") == OStr("vault")
        && OutText(OutField(fields, "path")) != "" && OutText(OutField(fields, "key")) != "")
    || (OutField(fields, "kind") == OStr("var") && OutText(OutField(fields, "name")) != "")
  }

  ghost predicate ReferenceFree(out: Out) {
    match out
    case OArray(items) => forall i :: 0 <= i < |items| ==> ReferenceFree(items[i])
    case ORecord(fields) => !IsOutReference(fields) && forall i :: 0 <= i < |fields| ==> ReferenceFree(fields[i].value)
    case OKept(_) => false
    case _ => true
  }

  // ---- which records can become references ----

  predicate IsReference(h: Heap, v: Val) {
    v.Ref? && v.a in h && RefOf(h[v.a]).Some?
  }

  /** v is this text, or a reference, which can resolve to it. */
  predicate CanBe(h: Heap, v: Val, s: string) {
    v == Str(s) || IsReference(h, v)
  }

  predicate CanBeText(h: Heap, v: Val) {
    TextOf(v) != "" || IsReference(h, v)
  }

  /** The record is a reference once the references directly below it have suitable values. */
  predicate Completable(h: Heap, fields: seq<Entry>) {
    || (&& CanBe(h, Field(fields, "kind"), "vault")
        && CanBeText(h, Field(fields, "path")) && CanBeText(h, Field(fields, "key")))
    || (CanBe(h, Field(fields, "kind"), "var") && CanBeText(h, Field(fields, "name")))
  }

  ghost predicate PlainCompletable(h: Heap, on: set<Addr>, a: Addr) {
    a in on && a in h && h[a].Record? && RefOf(h[a]).None? && Completable(h, h[a].fields)
  }

  /** No plain record that the walk meets is completable. */
  ghost predicate NoneCompletable(h: Heap, on: set<Addr>) {
    forall a :: !PlainCompletable(h, on, a)
  }

  /** No reference sits directly under a field that decides whether a record is a reference. */
  ghost predicate Shielded(h: Heap) {
    forall a :: a in h && h[a].Record? ==>
      && !IsReference(h, Field(h[a].fields, "kind")) && !IsReference(h, Field(h[a].fields, "path"))
      && !IsReference(h, Field(h[a].fields, "key")) && !IsReference(h, Field(h[a].fields, "name"))
  }

  lemma ShieldedNoneCompletable(h: Heap, on: set<Addr>)
    requires Shielded(h)
    ensures NoneCompletable(h, on)
  {
  }

  /** What a field became: a reference some allowed text, a text itself, and anything else no text. */
  lemma {:induction false} FieldReplaced(h: Heap, fields: seq<Entry>, outs: seq<OutEntry>, key: string, texts: Texts)
    requires HeapOk(h) && |outs| == |fields|
    requires forall i :: 0 <= i < |fields| ==>
      && outs[i].key == fields[i].key && ValOk(h, fields[i].value)
      && Replaces(h, fields[i].value, outs[i].value, texts)
    ensures var v, out := Field(fields, key), OutField(outs, key);
            && ValOk(h, v)
            && (IsReference(h, v) ==> out.OStr? && Allows(texts, RefOf(h[v.a]).value, out.s))
            && (!IsReference(h, v) ==> (v.Str? <==> out.OStr?) && (v.Str? ==> out.s == v.s))
  {
    if fields != [] {
      if fields[0].key == key {
        assert Replaces(h, fields[0].value, outs[0].value, texts);
      } else {
        FieldReplaced(h, fields[1..], outs[1..], key, texts);
      }
    }
  }

  lemma RecordReplaced(h: Heap, a: Addr, outs: seq<OutEntry>, texts: Texts)
    requires HeapOk(h) && a in h && h[a].Record? && RefOf(h[a]).None? && |outs| == |h[a].fields|
    requires forall i :: 0 <= i < |outs| ==>
      && outs[i].key == h[a].fields[i].key && ValOk(h, h[a].fields[i].value)
      && Replaces(h, h[a].fields[i].value, outs[i].value, texts)
    ensures IsOutReference(outs) ==> Completable(h, h[a].fields)
    ensures forall c, ps :: texts == Answers(ps) && ps == Constant(c) && c != "" && CompletedBy(h, h[a].fields, c) ==>
      IsOutReference(outs)
  {
    var fields := h[a].fields;
    FieldReplaced(h, fields, outs, "kind", texts);
    FieldReplaced(h, fields, outs, "path", texts);
    FieldReplaced(h, fields, outs, "key", texts);
    FieldReplaced(h, fields, outs, "name", texts);
  }

  /** Whatever the texts are, a record that is not completable does not become a reference. */
  lemma {:induction false} ReplacedIsReferenceFree(h: Heap, on: set<Addr>, v: Val, out: Out)
    requires HeapOk(h) && ValOk(h, v) && Closed(h, on) && Inside(v, on) && NoneCompletable(h, on)
    requires Replaces(h, v, out, AnyText)
    ensures ReferenceFree(out)
    decreases out
  {
    if IsContainer(h, v) {
      var es := Entries(h[v.a]);
      forall i | 0 <= i < |es| ensures ReferenceFree(OutEntries(out)[i]) {
        EntryReplaced(h, v, out, AnyText, i);
        assert Inside(es[i].value, on);
        ReplacedIsReferenceFree(h, on, es[i].value, OutEntries(out)[i]);
      }
      match h[v.a] {
        case Array(items) =>
          assert |es| == |items| && out.items == OutEntries(out);
        case Record(fields) =>
          assert !PlainCompletable(h, on, v.a);
          RecordReplaced(h, v.a, out.fields, AnyText);
          forall i | 0 <= i < |out.fields| ensures ReferenceFree(out.fields[i].value) {
            assert OutEntries(out)[i] == out.fields[i].value;
          }
      }
    }
  }

  // ---- providers that complete ----

  /** Every secret and every variable has the value c. */
  function Constant(c: string): Providers {
    Providers(Some((mount: string, path: string, key: string) => Value(c)), Some((name: string) => Value(c)))
  }

  predicate CompletedBy(h: Heap, fields: seq<Entry>, c: string) {
    || (&& c == "vault" && CanBe(h, Field(fields, "kind"), c)
        && CanBeText(h, Field(fields, "path")) && CanBeText(h, Field(fields, "key")))
    || (c == "var" && CanBe(h, Field(fields, "kind"), c) && CanBeText(h, Field(fields, "name")))
  }

  /** A part of a tree without references has none either. */
  lemma {:induction false} PartIsReferenceFree(h: Heap, v: Val, out: Out, texts: Texts, tokens: seq<string>)
    returns (part: Out)
    requires HeapOk(h) && ValOk(h, v) && Passes(h, v, tokens) && At(h, v, tokens).Some?
    requires Replaces(h, v, out, texts) && ReferenceFree(out)
    ensures ValOk(h, At(h, v, tokens).value)
    ensures Replaces(h, At(h, v, tokens).value, part, texts) && ReferenceFree(part)
    decreases |tokens|
  {
    if tokens == [] {
      part := out;
    } else {
      var i := ChildListed(Entries(h[v.a]), tokens[0]);
      EntryReplaced(h, v, out, texts, i);
      assert ReferenceFree(OutEntries(out)[i]) by {
        if out.ORecord? {
          assert OutEntries(out)[i] == out.fields[i].value;
        }
      }
      part := PartIsReferenceFree(h, Child(h[v.a], tokens[0]).value, OutEntries(out)[i], texts, tokens[1..]);
    }
  }

  ghost predicate ResolvesToPlain(h: Heap, root: Val, ps: Providers, opts: Options)
    requires HeapOk(h) && ValOk(h, root)
  {
    Resolve(h, root, ps, opts).0.Ok? && ReferenceFree(Resolve(h, root, ps, opts).0.value)
  }

  lemma ConstantAnswers(h: Heap, on: set<Addr>, c: string)
    ensures AlwaysValue(Constant(c)) && KeysDetermineAnswers(h, on, Constant(c))
  {
  }

  lemma CompletableCompletes(h: Heap, root: Val, opts: Options, a: Addr) returns (c: string)
    requires HeapOk(h) && ValOk(h, root) && opts.strict && Fits(h, root, opts.maxDepth)
    requires PlainCompletable(h, Reach(h, root), a)
    ensures AlwaysValue(Constant(c)) && !ResolvesToPlain(h, root, Constant(c), opts)
  {
    c := if CompletedBy(h, h[a].fields, "vault") then "vault" else "var";
    var ps := Constant(c);
    ConstantAnswers(h, Reach(h, root), c);
    if ResolvesToPlain(h, root, ps, opts) {
      StrictResolves(h, root, ps, opts);
      ReachedRecordStaysPlain(h, root, Resolve(h, root, ps, opts).0.value, a, c);
    }
  }

  /** If an output of constant providers holds no reference, their value completes no reached plain record. */
  lemma ReachedRecordStaysPlain(h: Heap, root: Val, out: Out, a: Addr, c: string)
    requires HeapOk(h) && ValOk(h, root) && a in h && h[a].Record? && RefOf(h[a]).None? && Reaches(h, root, a)
    requires Replaces(h, root, out, Answers(Constant(c))) && ReferenceFree(out)
    ensures !CompletedBy(h, h[a].fields, c)
  {
    var tokens :| Passes(h, root, tokens) && At(h, root, tokens) == Some(Ref(a));
    var part := PartIsReferenceFree(h, root, out, Answers(Constant(c)), tokens);
    RecordReplaced(h, a, part.fields, Answers(Constant(c)));
  }

  /**
   * For a strict run of an input within the depth limit: whatever values the providers give,
   * the output holds no reference, exactly when no reached plain record is completable.
   */
  lemma StrictPlainExact(h: Heap, root: Val, opts: Options)
    requires HeapOk(h) && ValOk(h, root) && opts.strict && Fits(h, root, opts.maxDepth)
    ensures (forall ps :: AlwaysValue(ps) ==> ResolvesToPlain(h, root, ps, opts)) <==>
      NoneCompletable(h, Reach(h, root))
  {
    if NoneCompletable(h, Reach(h, root)) {
      ReachClosed(h, root);
      forall ps | AlwaysValue(ps) ensures ResolvesToPlain(h, root, ps, opts) {
        StructuralErrorsExact(h, root, ps, opts);
        ValuesNeverRefused(h, Reach(h, root), root, [], 0, ps, opts, InitialState(opts));
        StrictReplaces(h, root, ps, opts);
        ReplacedIsReferenceFree(h, Reach(h, root), root, Resolve(h, root, ps, opts).0.value);
      }
    } else {
      var a :| PlainCompletable(h, Reach(h, root), a);
      var c := CompletableCompletes(h, root, opts, a);
    }
  }

  // ---- resolving the output again ----

  /** v in heap h is the tree out, however its parts are laid out or shared. */
  ghost predicate Represents(h: Heap, v: Val, out: Out)
    decreases out
  {
    match out
    case OArray(items) =>
      v.Ref? && v.a in h && h[v.a].Array? && |h[v.a].items| == |items|
      && forall i :: 0 <= i < |items| ==> Represents(h, h[v.a].items[i], items[i])
    case ORecord(fields) =>
      v.Ref? && v.a in h && h[v.a].Record? && |h[v.a].fields| == |fields|
      && forall i :: 0 <= i < |fields| ==>
           h[v.a].fields[i].key == fields[i].key && Represents(h, h[v.a].fields[i].value, fields[i].value)
    case OKept(_) => false
    case _ => !v.Ref? && Leaf(v) == out
  }

  lemma {:induction false} FieldRepresented(h: Heap, fields: seq<Entry>, outs: seq<OutEntry>, key: string)
    requires |outs| == |fields|
    requires forall i :: 0 <= i < |fields| ==>
      outs[i].key == fields[i].key && Represents(h, fields[i].value, outs[i].value)
    ensures Field(fields, key).Str? <==> OutField(outs, key).OStr?
    ensures Field(fields, key).Str? ==> Field(fields, key).s == OutField(outs, key).s
  {
    if fields != [] && fields[0].key != key {
      FieldRepresented(h, fields[1..], outs[1..], key);
    } else if fields != [] {
      assert Represents(h, fields[0].value, outs[0].value);
    }
  }

  lemma RepresentedIsContainer(h: Heap, v: Val, out: Out)
    requires Represents(h, v, out) && ReferenceFree(out) && v.Ref?
    ensures IsContainer(h, v)
  {
    if out.ORecord? {
      FieldRepresented(h, h[v.a].fields, out.fields, "kind");
      FieldRepresented(h, h[v.a].fields, out.fields, "path");
      FieldRepresented(h, h[v.a].fields, out.fields, "key");
      FieldRepresented(h, h[v.a].fields, out.fields, "name");
    }
  }

  lemma EntriesRepresented(h: Heap, v: Val, out: Out)
    requires HeapOk(h) && Represents(h, v, out) && ReferenceFree(out) && v.Ref?
    ensures |OutEntries(out)| == |Entries(h[v.a])| && Rebuild(h[v.a], OutEntries(out)) == out
    ensures forall i :: 0 <= i < |OutEntries(out)| ==>
      && Represents(h, Entries(h[v.a])[i].value, OutEntries(out)[i])
      && ReferenceFree(OutEntries(out)[i]) && OutEntries(out)[i] < out
  {
    if out.ORecord? {
      assert Rebuild(h[v.a], OutEntries(out)).fields == out.fields;
    }
  }

  /** A walk over a tree without references that returns gives the tree back and counts nothing. */
  lemma {:induction false} IdentityOnPlain(h: Heap, v: Val, out: Out, path: seq<string>, depth: nat, ps: Providers,
                                           opts: Options, st: State)
    requires HeapOk(h) && ValOk(h, v) && Represents(h, v, out) && ReferenceFree(out)
    ensures var (r, st') := Traverse(h, v, path, depth, ps, opts, st);
            if r.Ok? then r.value == out && st'.counts == st.counts else Tripped(r)
    decreases Room(opts, depth), 1, 0
  {
    if v.Ref? && depth <= opts.maxDepth {
      RepresentedIsContainer(h, v, out);
      if !(opts.cycleDetection && v.a in st.ancestors) {
        EntriesRepresented(h, v, out);
        var o := h[v.a];
        var (outs, st1) := TraverseEntries(h, o, |Entries(o)|, path, depth, ps, opts, Enter(st, v.a, opts));
        IdentityOnEntries(h, v, out, |Entries(o)|, path, depth, ps, opts, Enter(st, v.a, opts));
        if outs.Ok? {
          assert outs.value == OutEntries(out);
        }
      }
    }
  }

  lemma {:induction false} IdentityOnEntries(h: Heap, v: Val, out: Out, n: nat, path: seq<string>, depth: nat,
                                             ps: Providers, opts: Options, st: State)
    requires HeapOk(h) && v.Ref? && v.a in h && Represents(h, v, out) && ReferenceFree(out)
    requires n <= |Entries(h[v.a])| && depth <= opts.maxDepth
    ensures |OutEntries(out)| == |Entries(h[v.a])|
    ensures var (outs, st') := TraverseEntries(h, h[v.a], n, path, depth, ps, opts, st);
            if outs.Ok? then outs.value == OutEntries(out)[..n] && st'.counts == st.counts else Tripped(outs)
    decreases Room(opts, depth), 0, n
  {
    EntriesRepresented(h, v, out);
    if n > 0 {
      var o := h[v.a];
      var (outs, st1) := TraverseEntries(h, o, n - 1, path, depth, ps, opts, st);
      IdentityOnEntries(h, v, out, n - 1, path, depth, ps, opts, st);
      if outs.Ok? {
        var e := Entries(o)[n - 1];
        IdentityOnPlain(h, e.value, OutEntries(out)[n - 1], path + [e.key], depth + 1, ps, opts, st1);
        assert OutEntries(out)[..n] == OutEntries(out)[..n - 1] + [OutEntries(out)[n - 1]];
      }
    }
  }

  /** A representation of the output fits wherever the input did. */
  lemma {:induction false} OutputFits(h: Heap, v: Val, out: Out, h2: Heap, v2: Val, d: int)
    requires HeapOk(h) && ValOk(h, v) && Replaces(h, v, out, AnyText) && Fits(h, v, d)
    requires HeapOk(h2) && ValOk(h2, v2) && Represents(h2, v2, out) && ReferenceFree(out)
    ensures Fits(h2, v2, d)
    decreases out, 1
  {
    if v2.Ref? {
      var n := |Entries(h2[v2.a])|;
      forall i | 0 <= i < n ensures Fits(h2, Entries(h2[v2.a])[i].value, d - 1) {
        PartFits(h, v, out, h2, v2, d, i);
      }
      assert AllFit(h2, h2[v2.a], n, d - 1);
    }
  }

  lemma {:induction false} PartFits(h: Heap, v: Val, out: Out, h2: Heap, v2: Val, d: int, i: nat)
    requires HeapOk(h) && ValOk(h, v) && Replaces(h, v, out, AnyText) && Fits(h, v, d)
    requires HeapOk(h2) && v2.Ref? && v2.a in h2 && Represents(h2, v2, out) && ReferenceFree(out)
    requires i < |Entries(h2[v2.a])|
    ensures ValOk(h2, Entries(h2[v2.a])[i].value) && Fits(h2, Entries(h2[v2.a])[i].value, d - 1)
    decreases out, 0
  {
    EntriesRepresented(h2, v2, out);
    assert IsContainer(h, v) && ObjOk(h2, h2[v2.a]);
    EntriesFit(h, v, d);
    EntryReplaced(h, v, out, AnyText, i);
    OutputFits(h, Entries(h[v.a])[i].value, OutEntries(out)[i], h2, Entries(h2[v2.a])[i].value, d - 1);
  }

  lemma EntriesFit(h: Heap, v: Val, d: int)
    requires HeapOk(h) && IsContainer(h, v) && Fits(h, v, d)
    ensures ObjOk(h, h[v.a]) && forall i :: 0 <= i < |Entries(h[v.a])| ==> Fits(h, Entries(h[v.a])[i].value, d - 1)
  {
    assert AllFit(h, h[v.a], |Entries(h[v.a])|, d - 1);
  }

  /**
   * When no reached plain record is completable, a strict normal return contains no reference, is
   * the input with every reference replaced by a text and everything else kept, and resolving it
   * again, in whatever heap it is laid out, returns it unchanged with no reference counted.
   */
  lemma StrictResolutionComplete(h: Heap, root: Val, ps: Providers, opts: Options, h2: Heap, v2: Val, ps2: Providers)
    requires HeapOk(h) && ValOk(h, root) && opts.strict && NoneCompletable(h, Reach(h, root))
    requires Resolve(h, root, ps, opts).0.Ok?
    requires HeapOk(h2) && ValOk(h2, v2) && Represents(h2, v2, Resolve(h, root, ps, opts).0.value)
    ensures var out := Resolve(h, root, ps, opts).0.value;
            && Replaces(h, root, out, AnyText)
            && ReferenceFree(out)
            && Resolve(h2, v2, ps2, opts).0 == Ok(out)
            && Resolve(h2, v2, ps2, opts).1.counts.total == 0
  {
    var out := Resolve(h, root, ps, opts).0.value;
    StrictReplaces(h, root, ps, opts);
    ReachClosed(h, root);
    ReplacedIsReferenceFree(h, Reach(h, root), root, out);
    ReturnMeansFits(h, root, [], 0, ps, opts, InitialState(opts));
    OutputFits(h, root, out, h2, v2, opts.maxDepth);
    StructuralErrorsExact(h2, v2, ps2, opts);
    IdentityOnPlain(h2, v2, out, [], 0, ps2, opts, InitialState(opts));
  }

  /** A record whose `kind` is a variable reference. */
  const KIND_BY_NAME: Heap := map[
    0 := Record([Entry("kind", Ref(1)), Entry("path", Str("p")), Entry("key", Str("k"))]),
    1 := Record([Entry("kind", Str("var")), Entry("name", Str("v"))])]

  lemma FieldsOfKindByName()
    ensures HeapOk(KIND_BY_NAME) && RefOf(KIND_BY_NAME[0]).None? && RefOf(KIND_BY_NAME[1]) == Some(Variable("v", None))
  {
    var f, g := KIND_BY_NAME[0].fields, KIND_BY_NAME[1].fields;
    assert f[0].key == "kind" && f[1].key == "path" && f[2].key == "key";
    assert g[0].key == "kind" && g[1].key == "name" && g[1..] == [g[1]] && g[1..][1..] == [];
    assert Field(g[1..], "name") == Str("v");
    assert Field(g[1..][1..], "default") == Undefined;
    assert Field(g[1..], "default") == Undefined;
  }

  lemma NextEntry(h: Heap, o: Obj, n: nat, path: seq<string>, depth: nat, ps: Providers, opts: Options, st: State,
                  outs: seq<Out>, out: Out)
    requires HeapOk(h) && ObjOk(h, o) && 0 < n <= |Entries(o)| && depth <= opts.maxDepth
    requires TraverseEntries(h, o, n - 1, path, depth, ps, opts, st).0 == Ok(outs)
    requires var e := Entries(o)[n - 1];
             var st1 := TraverseEntries(h, o, n - 1, path, depth, ps, opts, st).1;
             Traverse(h, e.value, path + [e.key], depth + 1, ps, opts, st1).0 == Ok(out)
    ensures TraverseEntries(h, o, n, path, depth, ps, opts, st).0 == Ok(outs + [out])
  {
  }

  lemma TextEntry(h: Heap, o: Obj, n: nat, path: seq<string>, depth: nat, ps: Providers, opts: Options, st: State,
                  outs: seq<Out>, text: string)
    requires HeapOk(h) && ObjOk(h, o) && 0 < n <= |Entries(o)| && depth < opts.maxDepth
    requires Entries(o)[n - 1].value == Str(text)
    requires TraverseEntries(h, o, n - 1, path, depth, ps, opts, st).0 == Ok(outs)
    ensures TraverseEntries(h, o, n, path, depth, ps, opts, st).0 == Ok(outs + [OStr(text)])
  {
    NextEntry(h, o, n, path, depth, ps, opts, st, outs, OStr(text));
  }

  lemma TwoTexts(h: Heap, o: Obj, ps: Providers, opts: Options, st: State, first: Out)
    requires HeapOk(h) && ObjOk(h, o) && |Entries(o)| == 3 && opts.maxDepth >= 1
    requires Entries(o)[1].value == Str("p") && Entries(o)[2].value == Str("k")
    requires TraverseEntries(h, o, 1, [], 0, ps, opts, st).0 == Ok([] + [first])
    ensures TraverseEntries(h, o, 3, [], 0, ps, opts, st).0 == Ok([first, OStr("p"), OStr("k")])
  {
    assert [] + [first] == [first];
    TextEntry(h, o, 2, [], 0, ps, opts, st, [first], "p");
    assert [first] + [OStr("p")] == [first, OStr("p")];
    TextEntry(h, o, 3, [], 0, ps, opts, st, [first, OStr("p")], "k");
    assert [first, OStr("p")] + [OStr("k")] == [first, OStr("p"), OStr("k")];
  }

  lemma OutFieldsOfKindByName(k: Out, outs: seq<OutEntry>)
    requires outs == [OutEntry("kind", k), OutEntry("path", OStr("p")), OutEntry("key", OStr("k"))]
    ensures IsOutReference(outs) <==> k == OStr("vault")
  {
    assert outs[0].key == "kind" && outs[1].key == "path" && outs[2].key == "key";
    assert outs[1..] == [outs[1], outs[2]] && outs[1..][1..] == [outs[2]] && outs[1..][1..][1..] == [];
    assert OutField(outs[1..][1..], "key") == OStr("k");
    assert OutField(outs[1..], "key") == OStr("k") && OutField(outs[1..], "path") == OStr("p");
    assert OutField(outs[1..][1..], "name") == OUndefined;
    assert OutField(outs[1..], "name") == OUndefined;
  }

  lemma VariableOfKindByName(ps: Providers, opts: Options, st: State)
    requires opts.maxDepth >= 1 && Ask(ps, Variable("v", None)) == Some(Value("vault"))
    requires st.cache.None? || st.cache == Some(map[])
    ensures HeapOk(KIND_BY_NAME)
    ensures Traverse(KIND_BY_NAME, Ref(1), [] + ["kind"], 1, ps, opts, st).0 == Ok(OStr("vault"))
  {
    FieldsOfKindByName();
  }

  lemma EntriesOfKindByName(ps: Providers, opts: Options, st: State)
    requires opts.strict && opts.maxDepth >= 1 && Ask(ps, Variable("v", None)) == Some(Value("vault"))
    requires st.cache.None? || st.cache == Some(map[])
    ensures HeapOk(KIND_BY_NAME) && |Entries(KIND_BY_NAME[0])| == 3
    ensures TraverseEntries(KIND_BY_NAME, KIND_BY_NAME[0], 3, [], 0, ps, opts, st).0 ==
      Ok([OStr("vault"), OStr("p"), OStr("k")])
  {
    FieldsOfKindByName();
    var h := KIND_BY_NAME;
    var o := h[0];
    var es := Entries(o);
    assert es[0] == Entry("kind", Ref(1)) && es[1] == Entry("path", Str("p")) && es[2] == Entry("key", Str("k"));
    assert TraverseEntries(h, o, 0, [], 0, ps, opts, st) == (Ok([]), st);
    VariableOfKindByName(ps, opts, st);
    NextEntry(h, o, 1, [], 0, ps, opts, st, [], OStr("vault"));
    TwoTexts(h, o, ps, opts, st, OStr("vault"));
  }

  /**
   * The condition on field names matters: when the variable under `kind` has the value "vault",
   * a strict resolution returns normally with an output that is itself a secret reference.
   */
  lemma ResolvedKindManufacturesReference(ps: Providers, opts: Options)
    requires opts.strict && opts.maxDepth >= 1 && Ask(ps, Variable("v", None)) == Some(Value("vault"))
    ensures HeapOk(KIND_BY_NAME)
    ensures var r := Resolve(KIND_BY_NAME, Ref(0), ps, opts).0; r.Ok? && !ReferenceFree(r.value)
  {
    FieldsOfKindByName();
    EntriesOfKindByName(ps, opts, Enter(InitialState(opts), 0, opts));
    var outs := [OStr("vault"), OStr("p"), OStr("k")];
    var out := Rebuild(KIND_BY_NAME[0], outs);
    assert out.fields == [OutEntry("kind", OStr("vault")), OutEntry("path", OStr("p")), OutEntry("key", OStr("k"))];
    OutFieldsOfKindByName(OStr("vault"), out.fields);
  }
}
