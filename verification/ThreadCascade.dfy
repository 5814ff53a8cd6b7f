/**
 * Closing a thread with its descendants: a breadth-first search over the parent pointers, a
 * post-order of what it found, and two passes over that order, one closing and one cleaning up.
 */
module ThreadCascade {
  import opened Wrappers
  import opened Collections

  datatype Status = Open | Closed

  datatype Thread = Thread(id: string, parent: Option<string>, status: Status)

  /** The thread table, by primary key. */
  type Table = map<string, Thread>

  ghost predicate TableOk(t: Table) {
    forall id :: id in t ==> t[id].id == id && t[id].parent != Some("")
  }

  // ---- ancestors ----

  /** The n-th ancestor. */
  function Up(t: Table, id: string, n: nat): Option<string>
    decreases n
  {
    if n == 0 then Some(id)
    else if id in t && t[id].parent.Some? then Up(t, t[id].parent.value, n - 1)
    else None
  }

  ghost predicate Below(t: Table, x: string, id: string) {
    x in t && exists n: nat :: Up(t, x, n) == Some(id)
  }

  ghost predicate OwnAncestor(t: Table, id: string) {
    exists n: nat :: n > 0 && Up(t, id, n) == Some(id)
  }

  ghost function Subtree(t: Table, id: string): set<string> {
    set x | x in t && Below(t, x, id)
  }

  lemma {:induction false} UpThen(t: Table, x: string, y: string, n: nat, m: nat)
    requires Up(t, x, n) == Some(y)
    ensures Up(t, x, n + m) == Up(t, y, m)
    decreases n
  {
    if n > 0 {
      UpThen(t, t[x].parent.value, y, n - 1, m);
    }
  }

  lemma {:induction false} UpSplit(t: Table, x: string, n: nat, m: nat)
    requires Up(t, x, n + m).Some?
    ensures Up(t, x, n).Some? && Up(t, Up(t, x, n).value, m) == Up(t, x, n + m)
    decreases n
  {
    if n > 0 {
      UpSplit(t, t[x].parent.value, n - 1, m);
    }
  }

  lemma BelowThen(t: Table, x: string, y: string, z: string)
    requires Below(t, x, y) && Below(t, y, z)
    ensures Below(t, x, z)
  {
    var n: nat :| Up(t, x, n) == Some(y);
    var m: nat :| Up(t, y, m) == Some(z);
    UpThen(t, x, y, n, m);
  }

  /** Nothing below a thread that is not its own ancestor is its own ancestor. */
  lemma NoCycleBelow(t: Table, x: string, root: string)
    requires Below(t, x, root) && OwnAncestor(t, x)
    ensures OwnAncestor(t, root)
  {
    var n: nat :| Up(t, x, n) == Some(root);
    var m: nat :| m > 0 && Up(t, x, m) == Some(x);
    UpThen(t, x, root, n, m);
    UpThen(t, x, x, m, n);
    assert Up(t, root, m) == Some(root);
  }

  /** A thread is reached from the root at one distance only. */
  lemma OneDistance(t: Table, x: string, root: string, j: nat, k: nat)
    requires Up(t, x, j) == Some(root) && Up(t, x, k) == Some(root) && j < k
    ensures OwnAncestor(t, root)
  {
    UpThen(t, x, root, j, k - j);
    assert Up(t, root, k - j) == Some(root);
  }

  /** A proper descendant of id is at or below one of its children. */
  lemma ThroughChild(t: Table, x: string, id: string) returns (kid: string)
    requires Below(t, x, id) && x != id
    ensures kid in t && t[kid].parent == Some(id) && Below(t, x, kid)
  {
    var n: nat :| Up(t, x, n) == Some(id);
    UpSplit(t, x, n - 1, 1);
    kid := Up(t, x, n - 1).value;
    assert Up(t, kid, 1) == Some(id) && Up(t, kid, 0 + 1) == Some(id);
    assert Up(t, t[kid].parent.value, 0) == Some(id);
  }

  lemma ChildIsBelow(t: Table, kid: string, id: string)
    requires kid in t && t[kid].parent == Some(id)
    ensures Below(t, kid, id)
  {
    assert Up(t, id, 0) == Some(id);
    assert Up(t, kid, 1) == Some(id);
  }

  lemma SelfIsBelow(t: Table, id: string)
    requires id in t
    ensures Below(t, id, id)
  {
    assert Up(t, id, 0) == Some(id);
  }

  /** Subtrees of two children of one thread are disjoint, and do not contain it. */
  lemma ChildrenApart(t: Table, x: string, a: string, b: string, id: string)
    requires a in t && b in t && t[a].parent == Some(id) && t[b].parent == Some(id) && a != b
    requires Below(t, x, a) && Below(t, x, b)
    ensures OwnAncestor(t, id)
  {
    var n: nat :| Up(t, x, n) == Some(a);
    var m: nat :| Up(t, x, m) == Some(b);
    if n < m {
      Between(t, x, a, b, id, n, m);
    } else {
      Between(t, x, b, a, id, m, n);
    }
  }

  lemma Between(t: Table, x: string, a: string, b: string, id: string, n: nat, m: nat)
    requires a in t && b in t && t[a].parent == Some(id) && t[b].parent == Some(id)
    requires Up(t, x, n) == Some(a) && Up(t, x, m) == Some(b) && n < m
    ensures OwnAncestor(t, id)
  {
    UpThen(t, x, a, n, m - n);
    assert Up(t, id, m - n - 1) == Some(b);
    UpThen(t, id, b, m - n - 1, 1);
    assert Up(t, id, 0) == Some(id) && Up(t, b, 1) == Some(id);
    assert Up(t, id, m - n) == Some(id);
  }

  lemma ParentNotBelowChild(t: Table, kid: string, id: string)
    requires kid in t && t[kid].parent == Some(id) && Below(t, id, kid)
    ensures OwnAncestor(t, id)
  {
    var n: nat :| Up(t, id, n) == Some(kid);
    UpThen(t, id, kid, n, 1);
    assert Up(t, id, 0) == Some(id) && Up(t, kid, 1) == Some(id);
    assert Up(t, id, n + 1) == Some(id);
  }

  // ---- breadth-first collection ----

  ghost predicate AtLevel(t: Table, x: string, root: string, k: nat) {
    x in t && Up(t, x, k) == Some(root)
  }

  /** Reached from the root in at most k steps. */
  ghost predicate Reached(t: Table, x: string, root: string, k: nat) {
    exists j: nat :: j <= k && AtLevel(t, x, root, j)
  }

  ghost predicate Within(nodes: Table, t: Table) {
    forall id :: id in nodes ==> id in t && nodes[id] == t[id]
  }

  ghost predicate IsLevel(t: Table, root: string, k: nat, frontier: seq<string>) {
    forall x :: x in frontier <==> AtLevel(t, x, root, k)
  }

  ghost predicate HoldsReached(t: Table, root: string, k: nat, nodes: Table) {
    forall x :: x in nodes <==> Reached(t, x, root, k)
  }

  ghost predicate IdsOf(frontier: seq<string>, rows: seq<Thread>) {
    |frontier| == |rows| && forall l :: 0 <= l < |rows| ==> frontier[l] == rows[l].id
  }

  ghost predicate FoundChildren(t: Table, frontier: seq<string>, rows: seq<Thread>) {
    && (forall i :: 0 <= i < |rows| ==>
          rows[i].id in t && t[rows[i].id] == rows[i] && rows[i].parent.Some? && rows[i].parent.value in frontier)
    && forall id :: id in t && t[id].parent.Some? && t[id].parent.value in frontier ==>
         exists i :: 0 <= i < |rows| && rows[i].id == id
  }

  /** The rows whose parent is in the frontier, in no particular order. */
  method FindChildren(t: Table, frontier: seq<string>) returns (rows: seq<Thread>)
    requires TableOk(t)
    ensures FoundChildren(t, frontier, rows)
    ensures forall i, j :: 0 <= i < j < |rows| ==> rows[i].id != rows[j].id
  {
    rows := [];
    var rest := t.Keys;
    while rest != {}
      invariant rest <= t.Keys
      invariant forall i :: 0 <= i < |rows| ==>
        rows[i].id in t && rows[i].id !in rest && t[rows[i].id] == rows[i] && rows[i].parent.Some?
          && rows[i].parent.value in frontier
      invariant forall id :: id in t && id !in rest && t[id].parent.Some? && t[id].parent.value in frontier ==>
        exists i :: 0 <= i < |rows| && rows[i].id == id
      invariant forall i, j :: 0 <= i < j < |rows| ==> rows[i].id != rows[j].id
      decreases |rest|
    {
      var id :| id in rest;
      rest := rest - {id};
      if t[id].parent.Some? && t[id].parent.value in frontier {
        ghost var before := rows;
        rows := rows + [t[id]];
        assert rows[|rows| - 1].id == id;
        assert forall i :: 0 <= i < |before| ==> rows[i] == before[i];
      }
    }
  }

  lemma NextLevel(t: Table, x: string, root: string, k: nat)
    requires x in t && t[x].parent.Some? && t[x].parent.value in t
    ensures AtLevel(t, x, root, k + 1) <==> AtLevel(t, t[x].parent.value, root, k)
  {
  }

  lemma NextLevelHasParent(t: Table, x: string, root: string, k: nat)
    requires root in t && AtLevel(t, x, root, k + 1)
    ensures t[x].parent.Some? && AtLevel(t, t[x].parent.value, root, k)
  {
    var p := t[x].parent.value;
    assert Up(t, x, k + 1) == Up(t, p, k);
    if k == 0 {
      assert p == root;
    }
  }

  /** Children of level k are level k + 1 and were not reached before. */
  lemma NewLevel(t: Table, root: string, k: nat, frontier: seq<string>, rows: seq<Thread>, nodes: Table)
    requires root in t && !OwnAncestor(t, root) && IsLevel(t, root, k, frontier) && HoldsReached(t, root, k, nodes)
    requires FoundChildren(t, frontier, rows)
    ensures forall i :: 0 <= i < |rows| ==> AtLevel(t, rows[i].id, root, k + 1) && rows[i].id !in nodes
  {
    forall i | 0 <= i < |rows| ensures AtLevel(t, rows[i].id, root, k + 1) && rows[i].id !in nodes {
      var x := rows[i].id;
      assert AtLevel(t, t[x].parent.value, root, k);
      NextLevel(t, x, root, k);
      if x in nodes {
        var j: nat :| j <= k && AtLevel(t, x, root, j);
        OneDistance(t, x, root, j, k + 1);
      }
    }
  }

  lemma LevelDone(t: Table, root: string, k: nat, frontier: seq<string>, rows: seq<Thread>,
                  before: Table, nodes: Table, next: seq<string>)
    requires root in t && IsLevel(t, root, k, frontier) && HoldsReached(t, root, k, before)
    requires forall i :: 0 <= i < |rows| ==> AtLevel(t, rows[i].id, root, k + 1)
    requires FoundChildren(t, frontier, rows) && IdsOf(next, rows)
    requires forall x :: x in nodes <==> x in before || x in next
    ensures IsLevel(t, root, k + 1, next) && HoldsReached(t, root, k + 1, nodes)
  {
    forall x | AtLevel(t, x, root, k + 1) ensures x in next {
      NextLevelHasParent(t, x, root, k);
      assert t[x].parent.value in frontier;
      var i :| 0 <= i < |rows| && rows[i].id == x;
      assert next[i] == x;
    }
    forall x ensures x in nodes <==> Reached(t, x, root, k + 1) {
      if Reached(t, x, root, k + 1) {
        var j: nat :| j <= k + 1 && AtLevel(t, x, root, j);
        if j <= k {
          assert Reached(t, x, root, k);
        }
      }
    }
  }

  /**
   * The nodes reachable from the root, one query a level. The search ends because the root is
   * not its own ancestor: every level is new.
   */
  method CollectNodes(t: Table, root: string) returns (nodes: Table)
    requires TableOk(t) && root in t && !OwnAncestor(t, root)
    ensures nodes.Keys == Subtree(t, root) && Within(nodes, t)
  {
    nodes := map[root := t[root]];
    var frontier := [root];
    ghost var k := 0;
    FirstLevel(t, root);
    while |frontier| > 0
      invariant Within(nodes, t)
      invariant IsLevel(t, root, k, frontier) && HoldsReached(t, root, k, nodes)
      decreases |t.Keys - nodes.Keys|, |frontier|
    {
      var children := FindChildren(t, frontier);
      NewLevel(t, root, k, frontier, children, nodes);
      ghost var before, previous := nodes, frontier;
      nodes, frontier := AddLevel(t, nodes, children);
      LevelDone(t, root, k, previous, children, before, nodes, frontier);
      if |children| > 0 {
        var x := children[0].id;
        assert frontier[0] == x;
        SmallerSet(t.Keys - nodes.Keys, t.Keys - before.Keys, x);
      }
      k := k + 1;
    }
    AllLevels(t, root, k, nodes);
  }

  /** Adds the rows of one level to the nodes; their ids are the next frontier. */
  method AddLevel(t: Table, before: Table, rows: seq<Thread>) returns (nodes: Table, frontier: seq<string>)
    requires Within(before, t) && forall i :: 0 <= i < |rows| ==> rows[i].id in t && t[rows[i].id] == rows[i]
    ensures Within(nodes, t) && IdsOf(frontier, rows)
    ensures forall x :: x in nodes <==> x in before || x in frontier
    ensures rows == [] ==> nodes == before
  {
    nodes, frontier := before, [];
    for i := 0 to |rows|
      invariant |frontier| == i && forall l :: 0 <= l < i ==> frontier[l] == rows[l].id
      invariant forall x :: x in nodes <==> x in before || x in frontier
      invariant Within(nodes, t) && (i == 0 ==> nodes == before)
    {
      nodes := nodes[rows[i].id := rows[i]];
      frontier := frontier + [rows[i].id];
    }
  }

  lemma FirstLevel(t: Table, root: string)
    requires root in t
    ensures IsLevel(t, root, 0, [root]) && HoldsReached(t, root, 0, map[root := t[root]])
  {
    assert AtLevel(t, root, root, 0);
  }

  lemma SmallerSet<T>(a: set<T>, b: set<T>, x: T)
    requires a <= b && x in b && x !in a
    ensures |a| < |b|
  {
    SubsetSize(a, b - {x});
  }

  /** Once a level is empty all deeper ones are. */
  lemma {:induction false} EmptyBelow(t: Table, root: string, k: nat, x: string, j: nat)
    requires root in t && (forall y :: !AtLevel(t, y, root, k)) && j >= k
    ensures !AtLevel(t, x, root, j)
    decreases j
  {
    if j > k && AtLevel(t, x, root, j) {
      NextLevelHasParent(t, x, root, j - 1);
      EmptyBelow(t, root, k, t[x].parent.value, j - 1);
    }
  }

  lemma AllLevels(t: Table, root: string, k: nat, nodes: Table)
    requires root in t && IsLevel(t, root, k, []) && HoldsReached(t, root, k, nodes)
    ensures nodes.Keys == Subtree(t, root)
  {
    forall x | x in Subtree(t, root) ensures x in nodes {
      var n: nat :| Up(t, x, n) == Some(root);
      if n >= k {
        EmptyBelow(t, root, k, x, n);
      }
      assert AtLevel(t, x, root, n);
    }
  }

  /** When the root is its own ancestor no level is empty, so the search would not end. */
  lemma {:induction false} SearchDivergesOnCycle(t: Table, root: string, m: nat, k: nat) returns (x: string, j: nat)
    requires root in t && m > 0 && Up(t, root, m) == Some(root)
    ensures AtLevel(t, x, root, k) && j < m && Up(t, root, j) == Some(x)
  {
    if k == 0 {
      x, j := root, 0;
    } else {
      var y, i := SearchDivergesOnCycle(t, root, m, k - 1);
      j := if i > 0 then i - 1 else m - 1;
      UpSplit(t, root, j, 1);
      x := Up(t, root, j).value;
      assert Up(t, x, 1) == Some(y);
      assert Up(t, t[x].parent.value, 0) == Some(t[x].parent.value);
      UpThen(t, x, y, 1, k - 1);
    }
  }

  // ---- post-order ----

  /** Children come before parents. */
  ghost predicate ChildrenFirst(t: Table, order: seq<string>) {
    forall i, j :: 0 <= i < |order| && 0 <= j < |order| && order[i] in t && t[order[i]].parent == Some(order[j]) ==>
      i < j
  }

  ghost predicate Lists(order: seq<string>, ids: set<string>) {
    && (forall x :: x in order <==> x in ids)
    && forall i, j :: 0 <= i < j < |order| ==> order[i] != order[j]
  }

  function KidsIn(children: map<string, seq<string>>, id: string): seq<string> {
    if id in children then children[id] else []
  }

  /** The child lists hold each node with a parent once, under that parent. */
  ghost predicate Grouped(nodes: Table, children: map<string, seq<string>>, done: set<string>) {
    forall p :: HoldsKids(nodes, KidsIn(children, p), p, done)
  }

  ghost predicate HoldsKids(nodes: Table, kids: seq<string>, p: string, done: set<string>) {
    && (forall kid :: kid in kids <==> kid in done && kid in nodes && nodes[kid].parent == Some(p))
    && forall i, j :: 0 <= i < j < |kids| ==> kids[i] != kids[j]
  }

  lemma GroupOne(nodes: Table, children: map<string, seq<string>>, done: set<string>, id: string)
    requires TableOk(nodes) && Grouped(nodes, children, done) && id in nodes && id !in done
    ensures nodes[id].parent.None? ==> Grouped(nodes, children, done + {id})
    ensures nodes[id].parent.Some? ==>
      var p := nodes[id].parent.value;
      Grouped(nodes, children[p := KidsIn(children, p) + [id]], done + {id})
  {
    if nodes[id].parent.None? {
      forall q ensures HoldsKids(nodes, KidsIn(children, q), q, done + {id}) {
        assert HoldsKids(nodes, KidsIn(children, q), q, done);
      }
    } else {
      var p := nodes[id].parent.value;
      var more := children[p := KidsIn(children, p) + [id]];
      forall q ensures HoldsKids(nodes, KidsIn(more, q), q, done + {id}) {
        assert HoldsKids(nodes, KidsIn(children, q), q, done);
        if q != p {
          assert KidsIn(more, q) == KidsIn(children, q);
        }
      }
    }
  }

  /** The given threads, each once, children before parents. */
  ghost predicate Orders(t: Table, order: seq<string>, ids: set<string>) {
    Lists(order, ids) && ChildrenFirst(t, order)
  }

  /** The subtree of id in an order that ends with id itself. */
  ghost predicate PostOrdered(t: Table, order: seq<string>, id: string) {
    Orders(t, order, Subtree(t, id)) && order != [] && order[|order| - 1] == id
  }

  class PostOrder {
    const nodes: Table
    var children: map<string, seq<string>>
    var visited: set<string>
    var order: seq<string>

    constructor (nodes: Table)
      ensures this.nodes == nodes && children == map[] && visited == {} && order == []
    {
      this.nodes, children, visited, order := nodes, map[], {}, [];
    }

    method GroupChildren()
      requires TableOk(nodes) && children == map[]
      modifies `children
      ensures Grouped(nodes, children, nodes.Keys)
    {
      var rest := nodes.Keys;
      ghost var done := {};
      while rest != {}
        invariant done !! rest && done + rest == nodes.Keys
        invariant Grouped(nodes, children, done)
        decreases |rest|
      {
        var id :| id in rest;
        rest := rest - {id};
        GroupOne(nodes, children, done, id);
        if nodes[id].parent.Some? && nodes[id].parent.value != "" {
          var p := nodes[id].parent.value;
          children := children[p := KidsIn(children, p) + [id]];
        }
        done := done + {id};
      }
    }

    /** Appends the subtree of id in post-order; a node seen before adds nothing. */
    method Visit(id: string)
      requires TableOk(nodes) && Grouped(nodes, children, nodes.Keys) && id in nodes && !OwnAncestor(nodes, id)
      requires id in visited || visited !! Subtree(nodes, id)
      modifies `visited, `order
      ensures id in old(visited) ==> visited == old(visited) && order == old(order)
      ensures id !in old(visited) ==>
        && visited == old(visited) + Subtree(nodes, id)
        && |old(order)| <= |order| && order[..|old(order)|] == old(order)
        && PostOrdered(nodes, order[|old(order)|..], id)
      decreases nodes.Keys - visited
    {
      if id in visited {
        return;
      }
      SelfIsBelow(nodes, id);
      visited := visited + {id};
      var kids := KidsIn(children, id);
      assert HoldsKids(nodes, kids, id, nodes.Keys);
      ghost var new_ := [];
      for i := 0 to |kids|
        invariant visited == old(visited) + {id} + KidsBelow(nodes, kids, i)
        invariant order == old(order) + new_ && Orders(nodes, new_, KidsBelow(nodes, kids, i))
      {
        KidApart(nodes, id, kids, i);
        ghost var before := order;
        Visit(kids[i]);
        ghost var more := order[|before|..];
        assert order == before + more;
        AppendKid(nodes, kids, i, new_, more);
        new_ := new_ + more;
      }
      KidsCover(nodes, id, kids);
      AppendSelf(nodes, id, new_, KidsBelow(nodes, kids, |kids|));
      order := order + [id];
      assert order == old(order) + (new_ + [id]);
      assert order[|old(order)|..] == new_ + [id];
    }
  }

  /** The subtrees of the first i children. */
  ghost function KidsBelow(nodes: Table, kids: seq<string>, i: nat): set<string>
    requires i <= |kids|
  {
    if i == 0 then {} else KidsBelow(nodes, kids, i - 1) + Subtree(nodes, kids[i - 1])
  }

  lemma {:induction false} KidsBelowHas(nodes: Table, kids: seq<string>, i: nat, x: string)
    requires i <= |kids|
    ensures x in KidsBelow(nodes, kids, i) <==> exists j :: 0 <= j < i && x in Subtree(nodes, kids[j])
  {
    if i > 0 {
      KidsBelowHas(nodes, kids, i - 1, x);
    }
  }

  /** The next child's subtree is new, and the child is not its own ancestor. */
  lemma KidApart(nodes: Table, id: string, kids: seq<string>, i: nat)
    requires HoldsKids(nodes, kids, id, nodes.Keys) && i < |kids| && !OwnAncestor(nodes, id)
    ensures kids[i] in nodes && nodes[kids[i]].parent == Some(id) && !OwnAncestor(nodes, kids[i])
    ensures KidsBelow(nodes, kids, i) !! Subtree(nodes, kids[i]) && id !in Subtree(nodes, kids[i])
    ensures kids[i] in Subtree(nodes, kids[i]) && Subtree(nodes, kids[i]) <= Subtree(nodes, id)
  {
    var kid := kids[i];
    assert kid in kids;
    ChildIsBelow(nodes, kid, id);
    SelfIsBelow(nodes, kid);
    if OwnAncestor(nodes, kid) {
      NoCycleBelow(nodes, kid, id);
    }
    if id in Subtree(nodes, kid) {
      ParentNotBelowChild(nodes, kid, id);
    }
    forall x | x in Subtree(nodes, kid) ensures x !in KidsBelow(nodes, kids, i) && x in Subtree(nodes, id) {
      BelowThen(nodes, x, kid, id);
      KidsBelowHas(nodes, kids, i, x);
      if x in KidsBelow(nodes, kids, i) {
        var j :| 0 <= j < i && x in Subtree(nodes, kids[j]);
        assert kids[j] in kids;
        ChildrenApart(nodes, x, kids[j], kid, id);
      }
    }
  }

  lemma KidsCover(nodes: Table, id: string, kids: seq<string>)
    requires HoldsKids(nodes, kids, id, nodes.Keys) && id in nodes && !OwnAncestor(nodes, id)
    ensures Subtree(nodes, id) == {id} + KidsBelow(nodes, kids, |kids|) && id !in KidsBelow(nodes, kids, |kids|)
  {
    SelfIsBelow(nodes, id);
    forall x | x in Subtree(nodes, id) && x != id ensures x in KidsBelow(nodes, kids, |kids|) {
      var kid := ThroughChild(nodes, x, id);
      assert kid in kids;
      KidsBelowHas(nodes, kids, |kids|, x);
    }
    forall x | x in KidsBelow(nodes, kids, |kids|) ensures x in Subtree(nodes, id) && x != id {
      KidsBelowHas(nodes, kids, |kids|, x);
      var j :| 0 <= j < |kids| && x in Subtree(nodes, kids[j]);
      KidApart(nodes, id, kids, j);
    }
  }

  /** No thread of one child's subtree is the parent of a thread of another's. */
  lemma NoParentAcross(nodes: Table, x: string, y: string, kids: seq<string>, i: nat)
    requires i < |kids| && KidsBelow(nodes, kids, i) !! Subtree(nodes, kids[i])
    requires x in KidsBelow(nodes, kids, i) && y in Subtree(nodes, kids[i])
    ensures x in nodes && y in nodes && nodes[x].parent != Some(y) && nodes[y].parent != Some(x)
  {
    KidsBelowHas(nodes, kids, i, x);
    if nodes[x].parent == Some(y) {
      ChildIsBelow(nodes, x, y);
      BelowThen(nodes, x, y, kids[i]);
    }
    if nodes[y].parent == Some(x) {
      var j :| 0 <= j < i && x in Subtree(nodes, kids[j]);
      ChildIsBelow(nodes, y, x);
      BelowThen(nodes, y, x, kids[j]);
      KidsBelowHas(nodes, kids, i, y);
    }
  }

  lemma AppendKid(nodes: Table, kids: seq<string>, i: nat, acc: seq<string>, more: seq<string>)
    requires i < |kids| && KidsBelow(nodes, kids, i) !! Subtree(nodes, kids[i])
    requires Orders(nodes, acc, KidsBelow(nodes, kids, i)) && Orders(nodes, more, Subtree(nodes, kids[i]))
    ensures Orders(nodes, acc + more, KidsBelow(nodes, kids, i + 1))
  {
    var all := acc + more;
    forall a, b | 0 <= a < |acc| <= b < |all| ensures Apart(nodes, all[a], all[b]) {
      assert acc[a] in acc && more[b - |acc|] in more;
      NoParentAcross(nodes, acc[a], more[b - |acc|], kids, i);
    }
    assert forall k :: |acc| <= k < |all| ==> all[k] == more[k - |acc|];
    assert ChildrenFirst(nodes, all);
    assert forall k, l :: 0 <= k < l < |all| ==> all[k] != all[l];
    assert forall x :: x in all <==> x in acc || x in more;
  }

  ghost predicate Apart(nodes: Table, x: string, y: string) {
    x != y && x in nodes && y in nodes && nodes[x].parent != Some(y) && nodes[y].parent != Some(x)
  }

  lemma AppendSelf(nodes: Table, id: string, acc: seq<string>, below: set<string>)
    requires id in nodes && !OwnAncestor(nodes, id) && Orders(nodes, acc, below)
    requires Subtree(nodes, id) == {id} + below && id !in below
    ensures PostOrdered(nodes, acc + [id], id)
  {
    var all := acc + [id];
    assert forall x :: x in all <==> x in acc || x == id;
    forall k | 0 <= k < |all| ensures nodes[id].parent != Some(all[k]) {
      assert all[k] in all;
      if nodes[id].parent == Some(all[k]) {
        ParentBelow(nodes, id, all[k]);
      }
    }
    assert forall k :: 0 <= k < |acc| ==> all[k] == acc[k] && acc[k] in acc;
  }

  lemma ParentBelow(nodes: Table, id: string, y: string)
    requires id in nodes && y in Subtree(nodes, id) && nodes[id].parent == Some(y)
    ensures OwnAncestor(nodes, id)
  {
    var n: nat :| Up(nodes, y, n) == Some(id);
    assert Up(nodes, id, n + 1) == Some(id);
  }

  /** The subtree of the root in post-order; empty when there is no such thread. */
  method CollectThreadNodes(t: Table, root: string) returns (order: seq<string>)
    requires TableOk(t) && (root in t ==> !OwnAncestor(t, root))
    ensures root !in t ==> order == []
    ensures root in t ==> PostOrdered(t, order, root)
  {
    if root !in t {
      return [];
    }
    var nodes := CollectNodes(t, root);
    SubtreeKept(t, nodes, root);
    var walk := new PostOrder(nodes);
    walk.GroupChildren();
    walk.Visit(root);
    order := walk.order;
    assert order[0..] == order;
    forall i, j | 0 <= i < |order| && 0 <= j < |order| && order[i] in t && t[order[i]].parent == Some(order[j])
      ensures i < j {
      assert order[i] in order && order[i] in nodes;
    }
  }

  /** Seen within the collected nodes, the subtree is the same. */
  lemma SubtreeKept(t: Table, nodes: Table, root: string)
    requires TableOk(t) && root in t && !OwnAncestor(t, root) && nodes.Keys == Subtree(t, root)
    requires forall id :: id in nodes ==> nodes[id] == t[id]
    ensures TableOk(nodes) && root in nodes && Subtree(nodes, root) == Subtree(t, root) && !OwnAncestor(nodes, root)
  {
    SelfIsBelow(t, root);
    if OwnAncestor(nodes, root) {
      var n: nat :| n > 0 && Up(nodes, root, n) == Some(root);
      UpWithin(t, nodes, root, n);
    }
    forall x | x in Subtree(nodes, root) ensures x in Subtree(t, root) {
    }
    forall x | x in Subtree(t, root) ensures x in Subtree(nodes, root) {
      var n: nat :| Up(t, x, n) == Some(root);
      UpInto(t, nodes, x, root, n);
    }
  }

  lemma {:induction false} UpWithin(t: Table, nodes: Table, x: string, n: nat)
    requires forall id :: id in nodes ==> id in t && nodes[id] == t[id]
    requires Up(nodes, x, n).Some?
    ensures Up(t, x, n) == Up(nodes, x, n)
    decreases n
  {
    if n > 0 {
      UpWithin(t, nodes, nodes[x].parent.value, n - 1);
    }
  }

  lemma {:induction false} UpInto(t: Table, nodes: Table, x: string, root: string, n: nat)
    requires root in t && Up(t, x, n) == Some(root) && x in t
    requires nodes.Keys == Subtree(t, root) && forall id :: id in nodes ==> nodes[id] == t[id]
    ensures Up(nodes, x, n) == Some(root)
    decreases n
  {
    assert Below(t, x, root);
    if n > 0 {
      var p := t[x].parent.value;
      assert n - 1 > 0 ==> p in t;
      assert n - 1 == 0 ==> p == root;
      UpInto(t, nodes, p, root, n - 1);
    }
  }

  // ---- closing and cleaning up ----

  datatype Action = Close(id: string) | Cleanup(id: string)

  function Cleanups(order: seq<string>): seq<Action> {
    seq(|order|, i requires 0 <= i < |order| => Cleanup(order[i]))
  }

  class Coordinator {
    var table: Table
    var log: seq<Action>

    constructor (table: Table)
      ensures this.table == table && log == []
    {
      this.table, log := table, [];
    }

    /** updateThread; it may be refused. */
    method EnsureThreadClosed(id: string) returns (ok: bool)
      requires id in table
      modifies this
      ensures ok ==> table == old(table)[id := old(table)[id].(status := Closed)]
      ensures ok ==> log == old(log) + if old(table)[id].status.Open? then [Close(id)] else []
      ensures !ok ==> unchanged(this)
    {
      if table[id].status.Closed? {
        assert table[id := table[id].(status := Closed)] == table;
        return true;
      }
      ok := *;
      if ok {
        table := table[id := table[id].(status := Closed)];
        log := log + [Close(id)];
      }
    }

    /** The first pass: every thread of the order is closed, up to the first refusal. */
    method CloseAll(order: seq<string>) returns (ok: bool, ghost closes: seq<Action>)
      requires forall i :: 0 <= i < |order| ==> order[i] in table
      modifies this
      ensures ClosedWithin(old(table), table, order)
      ensures ok ==> forall i :: 0 <= i < |order| ==> order[i] in table && table[order[i]].status.Closed?
      ensures log == old(log) + closes && OnlyCloses(closes)
    {
      ok, closes := true, [];
      for i := 0 to |order|
        invariant ok && ClosedWithin(old(table), table, order)
        invariant forall k :: 0 <= k < i ==> order[k] in table && table[order[k]].status.Closed?
        invariant log == old(log) + closes && OnlyCloses(closes)
      {
        assert order[i] in order;
        ghost var before := table;
        ok := EnsureThreadClosed(order[i]);
        if !ok {
          return;
        }
        if before[order[i]].status.Open? {
          closes := closes + [Close(order[i])];
        }
      }
    }

    /** The second pass: the cleanup pipeline of every thread, in order. */
    method CleanUpAll(order: seq<string>)
      modifies `log
      ensures log == old(log) + Cleanups(order)
    {
      for i := 0 to |order|
        invariant log == old(log) + Cleanups(order[..i])
      {
        log := log + [Cleanup(order[i])];
        assert Cleanups(order[..i + 1]) == Cleanups(order[..i]) + [Cleanup(order[i])];
      }
      assert order[..|order|] == order;
    }

    /**
     * Closes root and all its descendants, then cleans them up, children first. No cleanup
     * starts before every thread of the subtree is closed; if an update is refused there is no
     * cleanup at all. Threads outside the subtree are not touched.
     */
    method CloseThreadWithCascade(root: string) returns (ok: bool, ghost closes: seq<Action>, ghost order: seq<string>)
      requires TableOk(table) && (root in table ==> !OwnAncestor(table, root))
      modifies this
      ensures ClosedWithin(old(table), table, order)
      ensures root in old(table) ==> PostOrdered(old(table), order, root)
      ensures root !in old(table) ==> order == []
      ensures ok ==> forall id :: id in order ==> table[id].status.Closed?
      ensures OnlyCloses(closes) && log == old(log) + closes + if ok then Cleanups(order) else []
    {
      var nodes := CollectThreadNodes(table, root);
      order := nodes;
      assert forall i :: 0 <= i < |nodes| ==> nodes[i] in nodes;
      ok, closes := CloseAll(nodes);
      if !ok {
        return;
      }
      CleanUpAll(nodes);
    }
  }

  ghost predicate OnlyCloses(log: seq<Action>) {
    forall i :: 0 <= i < |log| ==> log[i].Close?
  }

  /** The tables differ only in that threads of the order may have been closed. */
  ghost predicate ClosedWithin(before: Table, after: Table, order: seq<string>) {
    && after.Keys == before.Keys
    && (forall id :: id in order ==> id in before)
    && forall id :: id in before ==>
         after[id] == before[id] || (id in order && after[id] == before[id].(status := Closed))
  }
}
