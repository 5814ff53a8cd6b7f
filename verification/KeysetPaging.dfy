/**
 * Keyset pagination of run events and of LLM context items: each page is a query past the
 * last row of the page before, one row longer than the page to see whether more follow.
 */
module KeysetPaging {
  import opened Wrappers
  import opened Collections

  // ---- rows in order ----

  datatype Key = Key(rank: int, id: string)

  /** `rank` is the event's time or the item's index; ids are primary keys. */
  datatype Row = Row(key: Key, data: Data)

  datatype Data = EventData(runId: string, kind: string, status: string) | ItemData(eventId: string, isInput: bool)

  datatype Order = Asc | Desc

  predicate TextLess(a: string, b: string) {
    b != "" && (a == "" || a[0] < b[0] || (a[0] == b[0] && TextLess(a[1..], b[1..])))
  }

  predicate KeyLess(a: Key, b: Key) {
    a.rank < b.rank || (a.rank == b.rank && TextLess(a.id, b.id))
  }

  /** a comes strictly before b. */
  predicate Before(order: Order, a: Key, b: Key) {
    if order.Asc? then KeyLess(a, b) else KeyLess(b, a)
  }

  lemma {:induction false} TextOrder(a: string, b: string, c: string)
    ensures !TextLess(a, a)
    ensures TextLess(a, b) && TextLess(b, c) ==> TextLess(a, c)
    ensures a == b || TextLess(a, b) || TextLess(b, a)
    decreases |a| + |b| + |c|
  {
    if a != "" {
      TextOrder(a[1..], if b == "" then b else b[1..], if c == "" then c else c[1..]);
      if b != "" {
        assert a[0] == b[0] && a[1..] == b[1..] ==> a == b by {
          assert a == [a[0]] + a[1..] && b == [b[0]] + b[1..];
        }
      }
    }
  }

  lemma KeyOrder(order: Order, a: Key, b: Key, c: Key)
    ensures !Before(order, a, a)
    ensures Before(order, a, b) && Before(order, b, c) ==> Before(order, a, c)
    ensures a == b || Before(order, a, b) || Before(order, b, a)
  {
    TextOrder(a.id, b.id, c.id);
    TextOrder(c.id, b.id, a.id);
  }

  ghost predicate Sorted(rows: seq<Row>, order: Order) {
    forall i, j :: 0 <= i < j < |rows| ==> Before(order, rows[i].key, rows[j].key)
  }

  ghost predicate UniqueIds(table: seq<Row>) {
    forall i, j :: 0 <= i < j < |table| ==> table[i].key.id != table[j].key.id
  }

  // ---- the query ----

  function Filter(rows: seq<Row>, p: Row -> bool): seq<Row> {
    if rows == [] then [] else (if p(rows[0]) then [rows[0]] else []) + Filter(rows[1..], p)
  }

  function Insert(r: Row, rows: seq<Row>, order: Order): seq<Row> {
    if rows == [] || Before(order, r.key, rows[0].key) then [r] + rows else [rows[0]] + Insert(r, rows[1..], order)
  }

  function Sort(rows: seq<Row>, order: Order): seq<Row> {
    if rows == [] then [] else Insert(rows[0], Sort(rows[1..], order), order)
  }

  /** findMany: a negative take counts from the end. */
  function FindMany(table: seq<Row>, p: Row -> bool, order: Order, take: int): seq<Row> {
    var found := Sort(Filter(table, p), order);
    if take >= 0 then (if take < |found| then found[..take] else found)
    else if -take < |found| then found[|found| + take..] else found
  }

  lemma {:induction false} FilterKeeps(rows: seq<Row>, p: Row -> bool)
    ensures forall r :: r in Filter(rows, p) <==> r in rows && p(r)
    ensures UniqueIds(rows) ==> UniqueIds(Filter(rows, p))
  {
    if rows != [] {
      FilterKeeps(rows[1..], p);
      assert rows == [rows[0]] + rows[1..];
      var rest := Filter(rows[1..], p);
      if UniqueIds(rows) {
        forall k | 0 <= k < |rest| ensures rest[k].key.id != rows[0].key.id {
          assert rest[k] in rest;
          assert rest[k] in rows[1..];
        }
      }
    }
  }

  lemma {:induction false} InsertKeeps(r: Row, rows: seq<Row>, order: Order)
    requires Sorted(rows, order) && forall k :: 0 <= k < |rows| ==> rows[k].key != r.key
    ensures Sorted(Insert(r, rows, order), order)
    ensures forall x :: x in Insert(r, rows, order) <==> x == r || x in rows
  {
    if rows == [] {
    } else if Before(order, r.key, rows[0].key) {
      forall k | 0 <= k < |rows| ensures Before(order, r.key, rows[k].key) {
        KeyOrder(order, r.key, rows[0].key, rows[k].key);
      }
    } else {
      var rest := Insert(r, rows[1..], order);
      InsertKeeps(r, rows[1..], order);
      KeyOrder(order, r.key, rows[0].key, r.key);
      assert rows == [rows[0]] + rows[1..];
      forall k | 0 <= k < |rest| ensures Before(order, rows[0].key, rest[k].key) {
        assert rest[k] in rest;
        if rest[k] != r {
          assert rest[k] in rows[1..];
        }
      }
    }
  }

  lemma {:induction false} SortSorts(rows: seq<Row>, order: Order)
    requires UniqueIds(rows)
    ensures Sorted(Sort(rows, order), order)
    ensures forall x :: x in Sort(rows, order) <==> x in rows
  {
    if rows != [] {
      var rest := Sort(rows[1..], order);
      SortSorts(rows[1..], order);
      assert rows == [rows[0]] + rows[1..];
      forall k | 0 <= k < |rest| ensures rest[k].key != rows[0].key {
        assert rest[k] in rest;
        assert rest[k] in rows[1..];
      }
      InsertKeeps(rows[0], rest, order);
    }
  }

  /** The first row of a listing is the least, and is not listed again. */
  lemma FirstIsLeast(a: seq<Row>, order: Order, x: Row)
    requires Sorted(a, order) && a != []
    ensures x in a ==> x == a[0] || (x in a[1..] && Before(order, a[0].key, x.key))
    ensures x in a[1..] ==> x in a && x != a[0]
  {
    assert a == [a[0]] + a[1..];
    if x in a[1..] {
      var i :| 0 <= i < |a[1..]| && a[1..][i] == x;
      assert a[i + 1] == x;
      KeyOrder(order, a[0].key, x.key, x.key);
    }
  }

  /** A set of rows has one sorted listing. */
  lemma {:induction false} SortedUnique(a: seq<Row>, b: seq<Row>, order: Order)
    requires Sorted(a, order) && Sorted(b, order) && forall x :: x in a <==> x in b
    ensures a == b
  {
    if a == [] {
      NoElements(b);
    } else if b == [] {
      NoElements(a);
    } else {
      assert a[0] in b && b[0] in a;
      FirstIsLeast(a, order, b[0]);
      FirstIsLeast(b, order, a[0]);
      KeyOrder(order, a[0].key, b[0].key, a[0].key);
      forall x ensures x in a[1..] <==> x in b[1..] {
        FirstIsLeast(a, order, x);
        FirstIsLeast(b, order, x);
      }
      SortedUnique(a[1..], b[1..], order);
      assert a == [a[0]] + a[1..] && b == [b[0]] + b[1..];
    }
  }

  // ---- one page ----

  datatype Page = Page(items: seq<Row>, next: Option<Key>)

  predicate Past(order: Order, cursor: Option<Key>, k: Key) {
    cursor.Some? ==> Before(order, cursor.value, k)
  }

  /** The rows p selects past the cursor. */
  function PastRows(p: Row -> bool, order: Order, cursor: Option<Key>): Row -> bool {
    (r: Row) => p(r) && Past(order, cursor, r.key)
  }

  function PageAfter(table: seq<Row>, p: Row -> bool, order: Order, cursor: Option<Key>, limit: nat): Page
    requires limit > 0
  {
    var rows := FindMany(table, PastRows(p, order, cursor), order, limit + 1);
    if |rows| > limit then Page(rows[..limit], Some(rows[limit - 1].key)) else Page(rows, None)
  }

  /** A page lists, in order, the first matching rows past the cursor, and its cursor says whether more follow. */
  ghost predicate IsPage(page: Page, table: seq<Row>, p: Row -> bool, order: Order, cursor: Option<Key>, limit: nat)
  {
    && Sorted(page.items, order) && |page.items| <= limit
    && (forall r :: r in page.items ==> r in table && p(r) && Past(order, cursor, r.key))
    && (page.next.Some? ==> 0 < |page.items| == limit && page.next.value == page.items[limit - 1].key)
    && (forall r :: r in table && p(r) && Past(order, cursor, r.key) && r !in page.items ==>
          page.next.Some? && Before(order, page.next.value, r.key))
  }

  lemma PageIs(table: seq<Row>, p: Row -> bool, order: Order, cursor: Option<Key>, limit: nat)
    requires UniqueIds(table) && limit > 0
    ensures IsPage(PageAfter(table, p, order, cursor, limit), table, p, order, cursor, limit)
  {
    var q := PastRows(p, order, cursor);
    var found := Sort(Filter(table, q), order);
    var page := PageAfter(table, p, order, cursor, limit);
    FilterKeeps(table, q);
    SortSorts(Filter(table, q), order);
    assert page == if |found| > limit then Page(found[..limit], Some(found[limit - 1].key)) else Page(found, None) by {
      assert |found| > limit ==> found[..limit + 1][..limit] == found[..limit];
    }
    assert forall r :: r in page.items ==> r in found;
    forall r | r in table && p(r) && Past(order, cursor, r.key) && r !in page.items
      ensures page.next.Some? && Before(order, page.next.value, r.key)
    {
      assert q(r) && r in found;
      RowBeyond(found, order, limit, r);
    }
  }

  lemma RowBeyond(found: seq<Row>, order: Order, limit: nat, r: Row)
    requires Sorted(found, order) && r in found && limit > 0
    ensures |found| > limit && r !in found[..limit] ==> Before(order, found[limit - 1].key, r.key)
  {
    var i :| 0 <= i < |found| && found[i] == r;
    assert i < limit < |found| ==> found[..limit][i] == r;
  }

  /** A page with a cursor is followed by at least one row. */
  lemma MoreFollow(table: seq<Row>, p: Row -> bool, order: Order, cursor: Option<Key>, limit: nat) returns (r: Row)
    requires UniqueIds(table) && limit > 0 && PageAfter(table, p, order, cursor, limit).next.Some?
    ensures r in table && p(r) && Before(order, PageAfter(table, p, order, cursor, limit).next.value, r.key)
  {
    var q := PastRows(p, order, cursor);
    var found := Sort(Filter(table, q), order);
    FilterKeeps(table, q);
    SortSorts(Filter(table, q), order);
    assert found[..limit + 1][limit - 1] == found[limit - 1];
    r := found[limit];
    assert r in found;
  }

  // ---- following the cursors ----

  /** Each page is taken from the table of its time, from the cursor of the page before. */
  ghost predicate Follows(pages: seq<Page>, tables: seq<seq<Row>>, p: Row -> bool, order: Order, limit: nat)
    requires limit > 0
  {
    && |pages| == |tables| && |pages| > 0
    && pages[0] == PageAfter(tables[0], p, order, None, limit)
    && forall i :: 0 <= i < |pages| - 1 ==>
         pages[i].next.Some? && pages[i + 1] == PageAfter(tables[i + 1], p, order, pages[i].next, limit)
  }

  ghost predicate Within(a: seq<Row>, b: seq<Row>) {
    forall r :: r in a ==> r in b
  }

  /** Rows are appended between pages, at any place in the order. */
  ghost predicate Growing(tables: seq<seq<Row>>) {
    && (forall i :: 0 <= i < |tables| ==> UniqueIds(tables[i]))
    && forall i, j :: 0 <= i <= j < |tables| ==> Within(tables[i], tables[j])
  }

  function Items(pages: seq<Page>): seq<Row> {
    if pages == [] then [] else Items(pages[..|pages| - 1]) + pages[|pages| - 1].items
  }

  lemma SortedAppend(a: seq<Row>, b: seq<Row>, order: Order)
    requires Sorted(a, order) && Sorted(b, order)
    requires a != [] ==> forall r :: r in b ==> Before(order, a[|a| - 1].key, r.key)
    ensures Sorted(a + b, order)
  {
    forall i, j | 0 <= i < j < |a + b| ensures Before(order, (a + b)[i].key, (a + b)[j].key) {
      if i < |a| <= j {
        assert b[j - |a|] in b;
        KeyOrder(order, a[i].key, a[|a| - 1].key, b[j - |a|].key);
      }
    }
  }

  /** The rows delivered so far: sorted, all selected from the last table, and all of `first` up to the cursor. */
  ghost predicate Delivered(items: seq<Row>, next: Option<Key>, first: seq<Row>, last: seq<Row>, p: Row -> bool,
                            order: Order) {
    && Sorted(items, order)
    && (next.Some? ==> items != [] && items[|items| - 1].key == next.value)
    && (forall r :: r in items ==> r in last && p(r))
    && (forall r :: r in first && p(r) ==> r in items || (next.Some? && Before(order, next.value, r.key)))
  }

  lemma FollowsPrefix(pages: seq<Page>, tables: seq<seq<Row>>, p: Row -> bool, order: Order, limit: nat)
    requires limit > 0 && Follows(pages, tables, p, order, limit) && Growing(tables) && |pages| > 1
    ensures var n := |pages| - 1;
            && Follows(pages[..n], tables[..n], p, order, limit) && Growing(tables[..n])
            && pages[n - 1].next.Some? && pages[n] == PageAfter(tables[n], p, order, pages[n - 1].next, limit)
            && UniqueIds(tables[n]) && Within(tables[n - 1], tables[n]) && Within(tables[0], tables[n])
  {
    var n := |pages| - 1;
    assert
      && pages[n - 1].next.Some?
      && pages[n - 1 + 1] == PageAfter(tables[n - 1 + 1], p, order, pages[n - 1].next, limit);
  }

  lemma {:induction false} PagesSoFar(pages: seq<Page>, tables: seq<seq<Row>>, p: Row -> bool, order: Order, limit: nat)
    requires limit > 0 && Follows(pages, tables, p, order, limit) && Growing(tables)
    ensures Delivered(Items(pages), pages[|pages| - 1].next, tables[0], tables[|tables| - 1], p, order)
    ensures pages[|pages| - 1].next.Some? ==> |Items(pages)| == limit * |pages|
    decreases |pages|
  {
    var n := |pages| - 1;
    if n == 0 {
      FirstPage(pages[0], tables[0], p, order, limit);
      assert Items(pages[..0]) == [];
      assert Items(pages) == pages[0].items;
    } else {
      FollowsPrefix(pages, tables, p, order, limit);
      PagesSoFar(pages[..n], tables[..n], p, order, limit);
      var cursor := pages[n - 1].next;
      PageIs(tables[n], p, order, cursor, limit);
      OnePageMore(Items(pages[..n]), cursor, tables[0], tables[n - 1], tables[n], pages[n], p, order, limit);
      Times(limit, n);
    }
  }

  lemma FirstPage(page: Page, table: seq<Row>, p: Row -> bool, order: Order, limit: nat)
    requires limit > 0 && UniqueIds(table) && page == PageAfter(table, p, order, None, limit)
    ensures Delivered(page.items, page.next, table, table, p, order)
    ensures page.next.Some? ==> |page.items| == limit * 1
  {
    PageIs(table, p, order, None, limit);
    assert forall r :: r in table && p(r) ==> Past(order, None, r.key);
  }

  lemma Times(limit: nat, n: nat)
    ensures limit * (n + 1) == limit * n + limit
  {
  }

  /** What reading one more page adds to the rows delivered by the pages before. */
  lemma OnePageMore(items: seq<Row>, cursor: Option<Key>, first: seq<Row>, last: seq<Row>, table: seq<Row>, page: Page,
                    p: Row -> bool, order: Order, limit: nat)
    requires Delivered(items, cursor, first, last, p, order) && cursor.Some?
    requires IsPage(page, table, p, order, cursor, limit)
    requires Within(last, table) && Within(first, table)
    ensures Delivered(items + page.items, page.next, first, table, p, order)
  {
    var all := items + page.items;
    SortedAppend(items, page.items, order);
    forall r | r in all ensures r in table && p(r) {
    }
    forall r | r in first && p(r) ensures r in all || (page.next.Some? && Before(order, page.next.value, r.key)) {
      if r !in items {
        assert Past(order, cursor, r.key);
      }
    }
  }

  /** Rows appended while someone pages never make a row appear twice. */
  lemma NoRepeats(pages: seq<Page>, tables: seq<seq<Row>>, p: Row -> bool, order: Order, limit: nat)
    requires limit > 0 && Follows(pages, tables, p, order, limit) && Growing(tables)
    ensures forall i, j :: 0 <= i < j < |Items(pages)| ==> Items(pages)[i] != Items(pages)[j]
  {
    PagesSoFar(pages, tables, p, order, limit);
    var items := Items(pages);
    forall i, j | 0 <= i < j < |items| ensures items[i] != items[j] {
      KeyOrder(order, items[i].key, items[j].key, items[i].key);
    }
  }

  /** When the last cursor is null, every row there was at the start has been delivered. */
  lemma NothingMissed(pages: seq<Page>, tables: seq<seq<Row>>, p: Row -> bool, order: Order, limit: nat)
    requires limit > 0 && Follows(pages, tables, p, order, limit) && Growing(tables) && pages[|pages| - 1].next.None?
    ensures forall r :: r in tables[0] && p(r) ==> r in Items(pages)
    ensures forall r :: r in Items(pages) ==> r in tables[|tables| - 1] && p(r)
  {
    PagesSoFar(pages, tables, p, order, limit);
  }

  ghost predicate Still(table: seq<Row>, tables: seq<seq<Row>>) {
    forall i :: 0 <= i < |tables| ==> tables[i] == table
  }

  lemma StillGrows(table: seq<Row>, tables: seq<seq<Row>>)
    requires UniqueIds(table) && Still(table, tables)
    ensures Growing(tables)
  {
    forall i, j | 0 <= i <= j < |tables| ensures Within(tables[i], tables[j]) {
      assert tables[i] == table && tables[j] == table;
    }
  }

  /** Over an unchanging table, the pages are the matching rows in order, each once. */
  lemma PagesListTheTable(pages: seq<Page>, table: seq<Row>, tables: seq<seq<Row>>, p: Row -> bool, order: Order,
                          limit: nat)
    requires limit > 0 && UniqueIds(table) && Still(table, tables) && Follows(pages, tables, p, order, limit)
    requires pages[|pages| - 1].next.None?
    ensures Items(pages) == Sort(Filter(table, p), order)
  {
    StillGrows(table, tables);
    PagesSoFar(pages, tables, p, order, limit);
    FilterKeeps(table, p);
    SortSorts(Filter(table, p), order);
    SortedUnique(Items(pages), Sort(Filter(table, p), order), order);
  }

  lemma {:induction false} SortLength(rows: seq<Row>, order: Order)
    ensures |Sort(rows, order)| == |rows|
  {
    if rows != [] {
      SortLength(rows[1..], order);
      InsertLength(rows[0], Sort(rows[1..], order), order);
    }
  }

  lemma {:induction false} InsertLength(r: Row, rows: seq<Row>, order: Order)
    ensures |Insert(r, rows, order)| == |rows| + 1
  {
    if rows != [] && !Before(order, r.key, rows[0].key) {
      InsertLength(r, rows[1..], order);
    }
  }

  lemma {:induction false} SortedPrefix(a: seq<Row>, b: seq<Row>, order: Order)
    requires Sorted(a, order) && Sorted(b, order) && forall x :: x in a ==> x in b
    ensures |a| <= |b|
    decreases |b|
  {
    if a != [] {
      assert a[0] in a && a[0] in b;
      var i :| 0 <= i < |b| && b[i] == a[0];
      forall x | x in a[1..] ensures x in b[i + 1..] {
        var k :| 0 <= k < |a[1..]| && a[1..][k] == x;
        assert a[k + 1] == x && Before(order, a[0].key, x.key);
        assert x in a && x in b;
        var j :| 0 <= j < |b| && b[j] == x;
        KeyOrder(order, a[0].key, x.key, a[0].key);
        assert j > i;
        assert b[i + 1..][j - i - 1] == x;
      }
      SortedPrefix(a[1..], b[i + 1..], order);
    }
  }

  /** Paging ends: a page with a cursor is full, and there is at least one row past it. */
  lemma PagingEnds(pages: seq<Page>, table: seq<Row>, tables: seq<seq<Row>>, p: Row -> bool, order: Order, limit: nat)
    requires limit > 0 && UniqueIds(table) && Still(table, tables) && Follows(pages, tables, p, order, limit)
    ensures pages[|pages| - 1].next.Some? ==> limit * |pages| < |Filter(table, p)|
  {
    StillGrows(table, tables);
    PagesSoFar(pages, tables, p, order, limit);
    if pages[|pages| - 1].next.Some? {
      var cursor := LastIsPage(pages, tables, p, order, limit);
      var r := MoreFollow(table, p, order, cursor, limit);
      FewerThanMatching(Items(pages), r, table, p, order);
    }
  }

  lemma LastIsPage(pages: seq<Page>, tables: seq<seq<Row>>, p: Row -> bool, order: Order, limit: nat)
    returns (cursor: Option<Key>)
    requires limit > 0 && Follows(pages, tables, p, order, limit) && Growing(tables)
    ensures pages[|pages| - 1] == PageAfter(tables[|tables| - 1], p, order, cursor, limit)
  {
    if |pages| == 1 {
      cursor := None;
    } else {
      FollowsPrefix(pages, tables, p, order, limit);
      cursor := pages[|pages| - 2].next;
    }
  }

  lemma FewerThanMatching(items: seq<Row>, r: Row, table: seq<Row>, p: Row -> bool, order: Order)
    requires UniqueIds(table) && Sorted(items, order) && items != [] && Before(order, items[|items| - 1].key, r.key)
    requires r in table && p(r) && forall x :: x in items ==> x in table && p(x)
    ensures |items| < |Filter(table, p)|
  {
    var all := Sort(Filter(table, p), order);
    FilterKeeps(table, p);
    SortSorts(Filter(table, p), order);
    SortLength(Filter(table, p), order);
    SortedAppend(items, [r], order);
    forall x | x in items + [r] ensures x in all {
    }
    SortedPrefix(items + [r], all, order);
  }

  // ---- run events ----

  /** The time is absent when missing or not a date; an empty id counts as none. */
  datatype EventCursor = EventCursor(ts: Option<int>, id: string)

  datatype EventParams = EventParams(
    runId: string, kinds: seq<string>, statuses: seq<string>,
    limit: Option<int>, descending: bool, cursor: Option<EventCursor>)

  predicate EventMatches(params: EventParams, r: Row) {
    && r.data.EventData? && r.data.runId == params.runId
    && (params.kinds != [] ==> r.data.kind in params.kinds)
    && (params.statuses != [] ==> r.data.status in params.statuses)
  }

  function EventFilter(params: EventParams): Row -> bool {
    (r: Row) => EventMatches(params, r)
  }

  /** The limit used: 100 by default and for 0, otherwise between 1 and 1000. */
  function EventLimit(limit: Option<int>): (n: nat)
    ensures 1 <= n <= 1000
  {
    if limit.None? || limit.value == 0 then 100
    else if limit.value < 1 then 1
    else if limit.value > 1000 then 1000
    else limit.value
  }

  function EventOrder(params: EventParams): Order {
    if params.descending then Desc else Asc
  }

  /** A cursor without an id skips every event of its time. */
  predicate PastEventCursor(order: Order, cursor: Option<EventCursor>, k: Key) {
    if cursor.None? || cursor.value.ts.None? then true
    else if cursor.value.id == "" then
      (if order.Desc? then k.rank < cursor.value.ts.value else k.rank > cursor.value.ts.value)
    else Before(order, Key(cursor.value.ts.value, cursor.value.id), k)
  }

  /** The page of the cursor's row, for a cursor that a page has returned. */
  function KeyOfCursor(cursor: Option<EventCursor>): Option<Key> {
    if cursor.Some? && cursor.value.ts.Some? then Some(Key(cursor.value.ts.value, cursor.value.id)) else None
  }

  /** The matching events of a strictly later time (earlier, when descending). */
  function LaterFilter(params: EventParams, ts: int): Row -> bool {
    (r: Row) => EventMatches(params, r) && if params.descending then r.key.rank < ts else ts < r.key.rank
  }

  /** A cursor without an id starts over past its time, so it skips that time's other events. */
  method ListRunEvents(table: seq<Row>, params: EventParams) returns (items: seq<Row>, next: Option<EventCursor>)
    ensures params.cursor.None? || params.cursor.value.ts.None? || params.cursor.value.id != "" ==>
      Page(items, KeyOfCursor(next))
      == PageAfter(table, EventFilter(params), EventOrder(params), KeyOfCursor(params.cursor), EventLimit(params.limit))
    ensures params.cursor.Some? && params.cursor.value.ts.Some? && params.cursor.value.id == "" ==>
      Page(items, KeyOfCursor(next))
      == PageAfter(table, LaterFilter(params, params.cursor.value.ts.value), EventOrder(params), None,
                   EventLimit(params.limit))
    ensures next.Some? ==> next.value.ts.Some?
  {
    var order := EventOrder(params);
    var where := (r: Row) => EventMatches(params, r);
    var cursor := params.cursor;
    ghost var past := PastRows(EventFilter(params), order, KeyOfCursor(cursor));
    if cursor.Some? && cursor.value.ts.Some? {
      where := (r: Row) => EventMatches(params, r) && PastEventCursor(order, cursor, r.key);
      if cursor.value.id != "" {
        FilterAlike(table, where, past);
      } else {
        FilterAlike(table, where, PastRows(LaterFilter(params, cursor.value.ts.value), order, None));
      }
    } else {
      FilterAlike(table, where, past);
    }
    var limit := EventLimit(params.limit);
    var events := FindMany(table, where, order, limit + 1);
    var hasMore := |events| > limit;
    items := if hasMore then events[..limit] else events;
    next := if hasMore then Some(EventCursor(Some(items[|items| - 1].key.rank), items[|items| - 1].key.id)) else None;
  }

  lemma {:induction false} FilterAlike(rows: seq<Row>, p: Row -> bool, q: Row -> bool)
    requires forall i :: 0 <= i < |rows| ==> p(rows[i]) == q(rows[i])
    ensures Filter(rows, p) == Filter(rows, q)
  {
    if rows != [] {
      FilterAlike(rows[1..], p, q);
    }
  }

  // ---- context items ----

  /** rows.slice(0, end), end counting from the end when negative. */
  function SliceTo(rows: seq<Row>, end: int): seq<Row> {
    if end >= 0 then (if end < |rows| then rows[..end] else rows)
    else if -end < |rows| then rows[..|rows| + end] else []
  }

  predicate ItemMatches(eventId: string, r: Row) {
    r.data.ItemData? && r.data.eventId == eventId && r.data.isInput
  }

  function ItemFilter(eventId: string): Row -> bool {
    (r: Row) => ItemMatches(eventId, r)
  }

  /** The limit is used as given, 50 by default. */
  function ItemLimit(limit: Option<int>): int {
    limit.GetOr(50)
  }

  /** One page as the query computes it, for any limit. */
  function ItemPage(table: seq<Row>, eventId: string, limit: int, cursor: Option<Key>): Page {
    var rows := FindMany(table, PastRows(ItemFilter(eventId), Desc, cursor), Desc, limit + 1);
    var items := SliceTo(rows, limit);
    if items == [] then Page([], None)
    else Page(items, if |rows| > limit then Some(items[|items| - 1].key) else None)
  }

  /** A positive limit gives the page past the cursor, any other an empty last page. */
  lemma ItemPageIs(table: seq<Row>, eventId: string, limit: int, cursor: Option<Key>)
    ensures limit > 0 ==>
      ItemPage(table, eventId, limit, cursor) == PageAfter(table, ItemFilter(eventId), Desc, cursor, limit)
    ensures limit <= 0 ==> ItemPage(table, eventId, limit, cursor) == Page([], None)
  {
  }

  /** Null when the run has no such call; otherwise a page of the input items of the call. */
  method ListLlmContextItems(events: seq<Row>, table: seq<Row>, runId: string, eventId: string, limit: Option<int>,
                             cursor: Option<Key>)
    returns (page: Option<Page>)
    ensures page.None? <==> !HasCall(events, runId, eventId)
    ensures page.Some? ==> page.value == ItemPage(table, eventId, ItemLimit(limit), cursor)
    ensures page.Some? && ItemLimit(limit) > 0 ==>
      page.value == PageAfter(table, ItemFilter(eventId), Desc, cursor, ItemLimit(limit))
    ensures page.Some? && ItemLimit(limit) <= 0 ==> page.value == Page([], None)
  {
    var found := FindMany(events, (r: Row) => IsCall(runId, eventId, r), Asc, 1);
    CallFound(events, runId, eventId, (r: Row) => IsCall(runId, eventId, r));
    if |found| == 0 {
      return None;
    }
    var pageLimit := ItemLimit(limit);
    var where := (r: Row) => ItemMatches(eventId, r) && Past(Desc, cursor, r.key);
    var rows := FindMany(table, where, Desc, pageLimit + 1);
    FilterAlike(table, where, PastRows(ItemFilter(eventId), Desc, cursor));
    ItemPageIs(table, eventId, pageLimit, cursor);
    var items := SliceTo(rows, pageLimit);
    if |items| == 0 {
      return Some(Page([], None));
    }
    var hasNext := |rows| > pageLimit;
    page := Some(Page(items, if hasNext then Some(items[|items| - 1].key) else None));
  }

  predicate IsCall(runId: string, eventId: string, r: Row) {
    r.key.id == eventId && r.data.EventData? && r.data.runId == runId && r.data.kind == "llm_call"
  }

  ghost predicate HasCall(events: seq<Row>, runId: string, eventId: string) {
    exists r :: r in events && IsCall(runId, eventId, r)
  }

  lemma CallFound(events: seq<Row>, runId: string, eventId: string, p: Row -> bool)
    requires forall r :: p(r) == IsCall(runId, eventId, r)
    ensures |FindMany(events, p, Asc, 1)| == 0 <==> !HasCall(events, runId, eventId)
  {
    FilterKeeps(events, p);
    SortLength(Filter(events, p), Asc);
    NoElements(Filter(events, p));
    if Filter(events, p) != [] {
      assert Filter(events, p)[0] in Filter(events, p);
    }
  }

  /** Pages of an unchanging table, each taken from the cursor of the one before, up to a null cursor. */
  ghost predicate ItemPages(pages: seq<Page>, table: seq<Row>, eventId: string, limit: int) {
    && |pages| > 0 && pages[0] == ItemPage(table, eventId, limit, None)
    && (forall i :: 0 <= i < |pages| - 1 ==>
          pages[i].next.Some? && pages[i + 1] == ItemPage(table, eventId, limit, pages[i].next))
    && pages[|pages| - 1].next.None?
  }

  /** Context paging lists all matching rows in order exactly when the limit is positive or nothing matches. */
  lemma ContextPagingComplete(table: seq<Row>, eventId: string, limit: int, pages: seq<Page>)
    requires UniqueIds(table) && ItemPages(pages, table, eventId, limit)
    ensures var matching := Filter(table, ItemFilter(eventId));
            Items(pages) == Sort(matching, Desc) <==> limit > 0 || matching == []
  {
    var p := ItemFilter(eventId);
    ItemPageIs(table, eventId, limit, None);
    if limit > 0 {
      var tables := seq(|pages|, i requires 0 <= i < |pages| => table);
      forall i | 0 <= i < |pages| - 1 ensures pages[i + 1] == PageAfter(table, p, Desc, pages[i].next, limit) {
        ItemPageIs(table, eventId, limit, pages[i].next);
      }
      PagesListTheTable(pages, table, tables, p, Desc, limit);
    } else {
      assert |pages| == 1 && Items(pages[..0]) == [] && Items(pages) == [];
      SortLength(Filter(table, p), Desc);
    }
  }
}
