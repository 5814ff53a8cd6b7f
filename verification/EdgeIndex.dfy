/**
 * The executed edges of the live runtime and the two inverted indexes over them, as values:
 * what registering, unregistering and dropping a node do, and what they keep.
 */
module EdgeIndex {
  import opened GraphModel
  import opened GraphDiff

  type Index = map<string, set<string>>

  datatype Wiring = Wiring(executed: map<string, Edge>, inbound: Index, outbound: Index)

  function At(index: Index, n: string): set<string> {
    if n in index then index[n] else {}
  }

  /** get(n), created empty when absent, then add(k). */
  function AddKey(index: Index, n: string, k: string): Index {
    index[n := At(index, n) + {k}]
  }

  /** get(n)?.delete(k) */
  function DropKey(index: Index, n: string, k: string): Index {
    if n in index then index[n := index[n] - {k}] else index
  }

  function Register(w: Wiring, k: string, e: Edge): Wiring {
    Wiring(w.executed[k := e], AddKey(w.inbound, e.target, k), AddKey(w.outbound, e.source, k))
  }

  function Unregister(w: Wiring, k: string): Wiring
    requires k in w.executed
  {
    var e := w.executed[k];
    Wiring(w.executed - {k}, DropKey(w.inbound, e.target, k), DropKey(w.outbound, e.source, k))
  }

  function WithoutNode(w: Wiring, id: string): Wiring {
    w.(inbound := w.inbound - {id}, outbound := w.outbound - {id})
  }

  /** The keys of executed edges with an end in ids. */
  function Touching(executed: map<string, Edge>, ids: set<string>): set<string> {
    set k | k in executed && (executed[k].source in ids || executed[k].target in ids)
  }

  // ---- invariants ----

  predicate SameEnds(e: Edge, f: Edge) {
    e.source == f.source && e.target == f.target
  }

  /** An edge executed under the key already, if any, has the ends of e. */
  predicate KeyFits(executed: map<string, Edge>, e: Edge) {
    EdgeKey(e) in executed ==> SameEnds(executed[EdgeKey(e)], e)
  }

  /** Executed edges are filed under their own keys, and only live nodes have index entries. */
  ghost predicate Filed(w: Wiring, live: set<string>) {
    && (forall k :: k in w.executed ==> k == EdgeKey(w.executed[k]))
    && w.inbound.Keys <= live && w.outbound.Keys <= live
  }

  /** Index entries name executed edges that start (end) there. */
  ghost predicate Names(w: Wiring) {
    && (forall n, k :: k in At(w.outbound, n) ==> k in w.executed && w.executed[k].source == n)
    && (forall n, k :: k in At(w.inbound, n) ==> k in w.executed && w.executed[k].target == n)
  }

  ghost predicate Agree(w: Wiring, live: set<string>) {
    Filed(w, live) && Names(w)
  }

  /** Every executed edge is indexed under both of its ends. */
  ghost predicate Complete(w: Wiring) {
    forall k :: k in w.executed ==>
      k in At(w.outbound, w.executed[k].source) && k in At(w.inbound, w.executed[k].target)
  }

  lemma RegisteredAt(w: Wiring, k: string, e: Edge)
    ensures var w' := Register(w, k, e);
            && (forall n :: At(w'.outbound, n) == At(w.outbound, n) + (if n == e.source then {k} else {}))
            && (forall n :: At(w'.inbound, n) == At(w.inbound, n) + (if n == e.target then {k} else {}))
  {
  }

  lemma RegisterKeeps(w: Wiring, e: Edge, live: set<string>)
    requires Agree(w, live) && KeyFits(w.executed, e) && e.source in live && e.target in live
    ensures Agree(Register(w, EdgeKey(e), e), live) && (Complete(w) ==> Complete(Register(w, EdgeKey(e), e)))
  {
    RegisterNames(w, e);
    if Complete(w) {
      RegisterCompletes(w, e);
    }
  }

  lemma RegisterNames(w: Wiring, e: Edge)
    requires Names(w) && KeyFits(w.executed, e)
    ensures Names(Register(w, EdgeKey(e), e))
  {
    var k := EdgeKey(e);
    var w' := Register(w, k, e);
    RegisteredAt(w, k, e);
    forall n, l | l in At(w'.outbound, n) ensures l in w'.executed && w'.executed[l].source == n {
      assert l == k || l in At(w.outbound, n);
    }
    forall n, l | l in At(w'.inbound, n) ensures l in w'.executed && w'.executed[l].target == n {
      assert l == k || l in At(w.inbound, n);
    }
  }

  lemma RegisterCompletes(w: Wiring, e: Edge)
    requires Complete(w)
    ensures Complete(Register(w, EdgeKey(e), e))
  {
    RegisteredAt(w, EdgeKey(e), e);
  }

  /** Registering files the edge exactly when both ends are live, and completes indexes whatever its key. */
  lemma RegisterFits(w: Wiring, e: Edge, live: set<string>)
    ensures var w' := Register(w, EdgeKey(e), e);
            && (Filed(w, live) ==> (Filed(w', live) <==> e.source in live && e.target in live))
            && (Names(w) && KeyFits(w.executed, e) ==> Names(w'))
            && (Complete(w) ==> Complete(w'))
  {
    var w' := Register(w, EdgeKey(e), e);
    assert e.source in w'.outbound.Keys && e.target in w'.inbound.Keys;
    if Names(w) && KeyFits(w.executed, e) {
      RegisterNames(w, e);
    }
    if Complete(w) {
      RegisterCompletes(w, e);
    }
  }

  /**
   * Registering keeps complete indexes in agreement exactly when both ends are live and an edge
   * executed under the same key has the same ends.
   */
  lemma RegisterExact(w: Wiring, e: Edge, live: set<string>)
    requires Agree(w, live) && Complete(w)
    ensures Agree(Register(w, EdgeKey(e), e), live) <==> e.source in live && e.target in live && KeyFits(w.executed, e)
  {
    var k := EdgeKey(e);
    var w' := Register(w, k, e);
    RegisteredAt(w, k, e);
    if e.source in live && e.target in live && KeyFits(w.executed, e) {
      RegisterKeeps(w, e, live);
    }
    assert e.source in w'.outbound.Keys && e.target in w'.inbound.Keys;
    if k in w.executed {
      var f := w.executed[k];
      assert k in At(w'.outbound, f.source) && k in At(w'.inbound, f.target);
      assert Agree(w', live) ==> w'.executed[k].source == f.source && w'.executed[k].target == f.target;
    }
  }

  /** In particular after an end has been taken down; this holds of incomplete indexes too. */
  lemma RegisterNeedsLiveEnds(w: Wiring, e: Edge, live: set<string>)
    requires Agree(w, live) && KeyFits(w.executed, e)
    ensures Agree(Register(w, EdgeKey(e), e), live) <==> e.source in live && e.target in live
  {
    var w' := Register(w, EdgeKey(e), e);
    if e.source in live && e.target in live {
      RegisterKeeps(w, e, live);
    } else {
      assert e.source in w'.outbound.Keys && e.target in w'.inbound.Keys;
    }
  }

  lemma UnregisterKeeps(w: Wiring, k: string, live: set<string>)
    requires Filed(w, live) && k in w.executed
    ensures Filed(Unregister(w, k), live)
    ensures Names(w) ==> Names(Unregister(w, k))
    ensures Complete(w) ==> Complete(Unregister(w, k))
  {
    var e := w.executed[k];
    var w' := Unregister(w, k);
    forall n ensures At(w'.outbound, n) == At(w.outbound, n) - (if n == e.source then {k} else {}) {
    }
    forall n ensures At(w'.inbound, n) == At(w.inbound, n) - (if n == e.target then {k} else {}) {
    }
  }

  lemma WithoutNodeKeeps(w: Wiring, id: string, live: set<string>)
    requires Filed(w, live)
    ensures Filed(WithoutNode(w, id), live - {id})
    ensures Names(w) ==> Names(WithoutNode(w, id))
    ensures Complete(w) && Touching(w.executed, {id}) == {} ==> Complete(WithoutNode(w, id))
  {
    var w' := WithoutNode(w, id);
    forall n ensures At(w'.outbound, n) == if n == id then {} else At(w.outbound, n) {
    }
    forall n ensures At(w'.inbound, n) == if n == id then {} else At(w.inbound, n) {
    }
    forall k | k in w.executed && Touching(w.executed, {id}) == {}
      ensures w.executed[k].source != id && w.executed[k].target != id
    {
      assert k !in Touching(w.executed, {id});
    }
  }

  /** Complete indexes list exactly the edges that touch a node, and none for a node that is not live. */
  lemma IndexedTouching(w: Wiring, id: string, live: set<string>)
    ensures Names(w) && Complete(w) ==> At(w.inbound, id) + At(w.outbound, id) == Touching(w.executed, {id})
    ensures Agree(w, live) && Complete(w) && id !in live ==> Touching(w.executed, {id}) == {}
  {
  }

  // ---- reversing many edges ----

  /**
   * What reversing the edges in `keys` leaves: the others, unless wrong index entries led to more,
   * and without a failure exactly the others.
   */
  ghost predicate Reversed(before: map<string, Edge>, after: map<string, Edge>, keys: set<string>,
                           failed: bool, mixed: bool) {
    && after.Keys <= before.Keys
    && (forall k :: k in after ==> after[k] == before[k])
    && (!mixed ==> before.Keys - keys <= after.Keys)
    && (!failed ==> after.Keys == before.Keys - keys)
  }

  lemma ReversedThen(a: map<string, Edge>, b: map<string, Edge>, c: map<string, Edge>,
                     first: set<string>, second: set<string>, failed: bool, failedLater: bool, mixed: bool)
    ensures
      && Reversed(a, b, first, failed, mixed) && Reversed(b, c, second, failedLater, mixed)
      && (failed ==> failedLater)
      ==> Reversed(a, c, first + second, failedLater, mixed)
  {
  }

  /** Taking down one more node, given that those in ids have been taken down. */
  lemma ReversedNode(a: map<string, Edge>, b: map<string, Edge>, c: map<string, Edge>,
                     ids: set<string>, id: string, failed: bool, failedLater: bool, mixed: bool)
    ensures
      && Reversed(a, b, Touching(a, ids), failed, mixed) && Reversed(b, c, Touching(b, {id}), failedLater, mixed)
      && (failed ==> failedLater)
      ==> Reversed(a, c, Touching(a, ids + {id}), failedLater, mixed)
  {
    if Reversed(a, b, Touching(a, ids), failed, mixed) {
      assert Touching(b, {id}) <= Touching(a, ids + {id});
      assert Touching(a, ids) <= Touching(a, ids + {id});
    }
  }

  /** Taking down nodes after other keys have been reversed. */
  lemma ReversedNodes(a: map<string, Edge>, b: map<string, Edge>, c: map<string, Edge>,
                      keys: set<string>, ids: set<string>, failed: bool, failedLater: bool, mixed: bool)
    ensures
      && Reversed(a, b, keys, failed, mixed) && Reversed(b, c, Touching(b, ids), failedLater, mixed)
      && (failed ==> failedLater)
      ==> Reversed(a, c, keys + Touching(a, ids), failedLater, mixed)
  {
    if Reversed(a, b, keys, failed, mixed) {
      assert Touching(b, ids) <= Touching(a, ids);
    }
  }
}
