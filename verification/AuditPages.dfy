/** Pages of the audit log by cursor, and the one sorted listing they are cut from. */
module AuditPages {
  import opened Wrappers
  import opened Rows
  import opened Sorting

  /** An identifier is the number its bytes spell; times are in milliseconds, as stored and as in a cursor. */
  datatype Event = Event(id: nat, createdAt: int, actorUserId: Option<string>, targetType: string, targetId: string,
    action: string)

  datatype Query = Query(
    actorUserId: Option<string>,
    targetType: Option<string>,
    targetId: Option<string>,
    action: Option<string>,
    createdFrom: Option<int>,
    createdTo: Option<int>)

  datatype Cursor = Cursor(createdAt: int, id: nat)

  datatype Page = Page(items: seq<Event>, nextCursor: Option<Cursor>)

  /** An absent or empty criterion does not restrict. */
  predicate Asks(criterion: Option<string>) {
    criterion.Some? && criterion.value != ""
  }

  predicate Matches(query: Query, e: Event) {
    && (Asks(query.actorUserId) ==> e.actorUserId == query.actorUserId)
    && (Asks(query.targetType) ==> e.targetType == query.targetType.value)
    && (Asks(query.targetId) ==> e.targetId == query.targetId.value)
    && (Asks(query.action) ==> e.action == query.action.value)
    && (query.createdFrom.Some? ==> e.createdAt >= query.createdFrom.value)
    && (query.createdTo.Some? ==> e.createdAt <= query.createdTo.value)
  }

  /** Strictly after the cursor in the listing: older, or as old with a smaller identifier. */
  predicate Past(cursor: Option<Cursor>, e: Event) {
    cursor.Some? ==>
      || e.createdAt < cursor.value.createdAt
      || (e.createdAt == cursor.value.createdAt && e.id < cursor.value.id)
  }

  function Selected(query: Query, cursor: Option<Cursor>): Event -> bool {
    (e: Event) => Matches(query, e) && Past(cursor, e)
  }

  function NewestFirst(): (Event, Event) -> bool {
    (a: Event, b: Event) => a.createdAt > b.createdAt || (a.createdAt == b.createdAt && a.id >= b.id)
  }

  /** The limit is clamped by the query service. */
  function PageSize(limit: int): nat {
    if limit < 1 then 1 else if limit > 100 then 100 else limit
  }

  function CursorOf(e: Event): Cursor {
    Cursor(e.createdAt, e.id)
  }

  /** All events of the query past the cursor, newest first. */
  function Listing(table: seq<Event>, query: Query, cursor: Option<Cursor>): seq<Event> {
    SortedBy(Filter(table, Selected(query, cursor)), NewestFirst())
  }

  /** One request: a page and, when one row more was found, a cursor at its last row. */
  function QueryAudit(table: seq<Event>, query: Query, cursor: Option<Cursor>, limit: int): Page {
    var size := PageSize(limit);
    var rows := Take(Listing(table, query, cursor), size + 1);
    var items := Take(rows, size);
    Page(items, if |rows| > size && items != [] then Some(CursorOf(items[|items| - 1])) else None)
  }

  // ----- Walking through the pages -----

  /** Identifiers are a primary key. */
  predicate UniqueIds(table: seq<Event>) {
    forall i, j :: 0 <= i < j < |table| ==> table[i].id != table[j].id
  }

  /** The later table is the earlier one with newer events appended: none past the cursor. */
  predicate Grown(earlier: seq<Event>, later: seq<Event>, cursor: Option<Cursor>) {
    && |earlier| <= |later| && later[..|earlier|] == earlier
    && (cursor.Some? ==> forall i :: |earlier| <= i < |later| ==> !Past(cursor, later[i]))
  }

  /**
    A client following the cursors: the n-th request meets the n-th table. Between the requests
    only events newer than the end of the first page are appended.
   */
  predicate IsWalk(tables: seq<seq<Event>>, pages: seq<Page>, query: Query, limit: int) {
    && |pages| == |tables| > 0
    && (forall n :: 0 <= n < |tables| ==> UniqueIds(tables[n]) && Grown(tables[0], tables[n], pages[0].nextCursor))
    && pages[0] == QueryAudit(tables[0], query, None, limit)
    && (forall n :: 0 < n < |pages| ==> Follows(tables, pages, query, limit, n))
  }

  /** The n-th request passes on the cursor of the page before. */
  predicate Follows(tables: seq<seq<Event>>, pages: seq<Page>, query: Query, limit: int, n: nat)
    requires 0 < n < |pages| == |tables|
  {
    pages[n - 1].nextCursor.Some? && pages[n] == QueryAudit(tables[n], query, pages[n - 1].nextCursor, limit)
  }

  function ItemsOf(pages: seq<Page>): seq<Event> {
    if pages == [] then [] else ItemsOf(pages[..|pages| - 1]) + pages[|pages| - 1].items
  }

  lemma NewestFirstIsTotal()
    ensures TotalOrder(NewestFirst())
  {
  }

  /** The listing is ordered without ties or repetition, and holds exactly the selected events. */
  lemma ListingIsSound(table: seq<Event>, query: Query, cursor: Option<Cursor>)
    requires UniqueIds(table)
    ensures var rows := Listing(table, query, cursor);
            && Ordered(rows, NewestFirst()) && NoTies(rows, NewestFirst()) && Distinct(rows)
            && forall e :: e in rows <==> e in table && Selected(query, cursor)(e)
  {
    var selected := Filter(table, Selected(query, cursor));
    var rows := Listing(table, query, cursor);
    NewestFirstIsTotal();
    SortIsOrdered(selected, NewestFirst());
    DistinctFilter(table, Selected(query, cursor));
    DistinctSort(selected, NewestFirst());
    forall e ensures e in rows <==> e in table && Selected(query, cursor)(e) {
      SortMembers(selected, NewestFirst(), e);
      FilterMembers(table, Selected(query, cursor), e);
    }
    forall i, j | 0 <= i < j < |rows| ensures !(NewestFirst()(rows[i], rows[j]) && NewestFirst()(rows[j], rows[i])) {
      assert rows[i] in table && rows[j] in table && rows[i] != rows[j];
    }
  }

  /** Whatever comes past a later row of the listing comes past an earlier one. */
  lemma PastIsMonotonic(rows: seq<Event>, i: nat, k: nat, e: Event)
    requires Ordered(rows, NewestFirst()) && i <= k < |rows|
    ensures Past(Some(CursorOf(rows[k])), e) ==> Past(Some(CursorOf(rows[i])), e)
  {
    assert i < k ==> NewestFirst()(rows[i], rows[k]);
  }

  /** What follows row `k` in the listing is the listing past its cursor, also after newer events were appended. */
  lemma ListingPastCursor(table: seq<Event>, later: seq<Event>, query: Query, i: nat, k: nat)
    requires UniqueIds(table) && UniqueIds(later) && i <= k < |Listing(table, query, None)|
    requires Grown(table, later, Some(CursorOf(Listing(table, query, None)[i])))
    ensures Listing(later, query, Some(CursorOf(Listing(table, query, None)[k])))
            == Listing(table, query, None)[k + 1..]
  {
    var rows := Listing(table, query, None);
    var cursor := Some(CursorOf(rows[k]));
    var rest := rows[k + 1..];
    ListingIsSound(table, query, None);
    ListingIsSound(later, query, cursor);
    SuffixIsSound(rows, k + 1);
    forall e ensures e in Listing(later, query, cursor) <==> e in rest {
      PastIsMonotonic(rows, i, k, e);
      if e in Listing(later, query, cursor) {
        var n :| 0 <= n < |later| && later[n] == e;
        assert n < |table| && table[n] == e;
        assert Selected(query, None)(e);
        PastRowsFollow(rows, k, e);
      }
      if e in rest {
        RowsPast(rows, k, e);
        assert Selected(query, cursor)(e);
        var n :| 0 <= n < |table| && table[n] == e;
        assert later[..|table|][n] == later[n];
      }
    }
    SameRowsSameListing(Listing(later, query, cursor), rest, NewestFirst());
  }

  lemma SuffixIsSound(rows: seq<Event>, k: nat)
    requires Ordered(rows, NewestFirst()) && NoTies(rows, NewestFirst()) && Distinct(rows) && k <= |rows|
    ensures Ordered(rows[k..], NewestFirst()) && NoTies(rows[k..], NewestFirst()) && Distinct(rows[k..])
  {
  }

  lemma PastRowsFollow(rows: seq<Event>, k: nat, e: Event)
    requires Ordered(rows, NewestFirst()) && k < |rows| && e in rows && Past(Some(CursorOf(rows[k])), e)
    ensures e in rows[k + 1..]
  {
    var n :| 0 <= n < |rows| && rows[n] == e;
    assert n > k;
    assert rows[n] == rows[k + 1..][n - k - 1];
  }

  lemma RowsPast(rows: seq<Event>, k: nat, e: Event)
    requires Ordered(rows, NewestFirst()) && NoTies(rows, NewestFirst()) && k < |rows| && e in rows[k + 1..]
    ensures e in rows && Past(Some(CursorOf(rows[k])), e)
  {
    var n :| 0 <= n < |rows[k + 1..]| && rows[k + 1..][n] == e;
    assert rows[n + k + 1] == e;
    assert NewestFirst()(rows[k], rows[n + k + 1]) && !NewestFirst()(rows[n + k + 1], rows[k]);
  }

  function Min(a: nat, b: nat): nat {
    if a < b then a else b
  }

  /** A page holds the next rows of the listing, and its cursor points at the last of them unless none are left. */
  lemma PageIsPrefix(table: seq<Event>, query: Query, cursor: Option<Cursor>, limit: int)
    ensures var rows := Listing(table, query, cursor);
            var size := PageSize(limit);
            var page := QueryAudit(table, query, cursor, limit);
            && page.items == rows[..Min(size, |rows|)]
            && page.nextCursor == if |rows| > size then Some(CursorOf(rows[size - 1])) else None
  {
  }

  /**
    The walk after any number of requests: the pages so far are the first rows of the listing the
    walk started with, and there is a further cursor exactly when rows are left.
   */
  lemma {:induction false} WalkServesTheListing(tables: seq<seq<Event>>, pages: seq<Page>, query: Query, limit: int)
    requires IsWalk(tables, pages, query, limit)
    ensures var rows := Listing(tables[0], query, None);
            var served := Min(|pages| * PageSize(limit), |rows|);
            && ItemsOf(pages) == rows[..served]
            && (pages[|pages| - 1].nextCursor.Some? <==> |pages| * PageSize(limit) < |rows|)
            && (pages[|pages| - 1].nextCursor.Some? ==>
              pages[|pages| - 1].nextCursor == Some(CursorOf(rows[served - 1])))
    decreases |pages|
  {
    hide Listing, QueryAudit;
    var rows := Listing(tables[0], query, None);
    var size := PageSize(limit);
    var n := |pages| - 1;
    if n == 0 {
      PageIsPrefix(tables[0], query, None, limit);
      assert pages[..0] == [];
      assert ItemsOf(pages) == ItemsOf([]) + pages[0].items;
    } else {
      EarlierWalk(tables, pages, query, limit);
      WalkServesTheListing(tables[..n], pages[..n], query, limit);
      assert Follows(tables, pages, query, limit, n);
      Multiply(n, size);
      NextPage(tables, pages, query, limit, n * size);
      assert ItemsOf(pages) == ItemsOf(pages[..n]) + pages[n].items;
    }
  }

  /** The page requested after `done` rows were served. */
  lemma NextPage(tables: seq<seq<Event>>, pages: seq<Page>, query: Query, limit: int, done: nat)
    requires IsWalk(tables, pages, query, limit) && |pages| > 1
    requires PageSize(limit) <= done < |Listing(tables[0], query, None)|
    requires pages[|pages| - 2].nextCursor == Some(CursorOf(Listing(tables[0], query, None)[done - 1]))
    ensures var rows := Listing(tables[0], query, None);
            var size := PageSize(limit);
            var page := pages[|pages| - 1];
            && rows[..done] + page.items == rows[..Min(done + size, |rows|)]
            && page.nextCursor == if done + size < |rows| then Some(CursorOf(rows[done + size - 1])) else None
  {
    hide Listing, QueryAudit;
    var rows := Listing(tables[0], query, None);
    var size := PageSize(limit);
    var n := |pages| - 1;
    assert Follows(tables, pages, query, limit, n);
    FirstCursor(tables, pages, query, limit);
    ListingPastCursor(tables[0], tables[n], query, size - 1, done - 1);
    PageIsPrefix(tables[n], query, pages[n - 1].nextCursor, limit);
    var left := rows[done..];
    assert rows[..done] + left[..Min(size, |left|)] == rows[..Min(done + size, |rows|)];
  }

  lemma Multiply(n: nat, size: nat)
    requires n > 0
    ensures n * size >= size && (n + 1) * size == n * size + size
  {
  }

  /** Without its last request a walk is a walk. */
  lemma EarlierWalk(tables: seq<seq<Event>>, pages: seq<Page>, query: Query, limit: int)
    requires IsWalk(tables, pages, query, limit) && |pages| > 1
    ensures IsWalk(tables[..|pages| - 1], pages[..|pages| - 1], query, limit)
  {
    var n := |pages| - 1;
    forall m | 0 < m < n ensures Follows(tables[..n], pages[..n], query, limit, m) {
      assert Follows(tables, pages, query, limit, m);
    }
  }

  /** The first of several pages ends with a full page. */
  lemma FirstCursor(tables: seq<seq<Event>>, pages: seq<Page>, query: Query, limit: int)
    requires IsWalk(tables, pages, query, limit) && |pages| > 1
    ensures var rows := Listing(tables[0], query, None);
            PageSize(limit) <= |rows| && pages[0].nextCursor == Some(CursorOf(rows[PageSize(limit) - 1]))
  {
    assert Follows(tables, pages, query, limit, 1);
    PageIsPrefix(tables[0], query, None, limit);
  }

  /** A walk that reached a page without a cursor served the whole listing, every event exactly once. */
  lemma CompleteWalkIsTheListing(tables: seq<seq<Event>>, pages: seq<Page>, query: Query, limit: int)
    requires IsWalk(tables, pages, query, limit) && pages[|pages| - 1].nextCursor.None?
    ensures ItemsOf(pages) == Listing(tables[0], query, None) && Distinct(ItemsOf(pages))
    ensures forall e :: e in ItemsOf(pages) <==> e in tables[0] && Matches(query, e)
  {
    hide Listing, QueryAudit;
    WalkServesTheListing(tables, pages, query, limit);
    ListingIsSound(tables[0], query, None);
    var rows := Listing(tables[0], query, None);
    assert rows[..|rows|] == rows;
  }

  /** No walk goes on for ever: all requests but the last served full pages of the listing. */
  lemma WalkEnds(tables: seq<seq<Event>>, pages: seq<Page>, query: Query, limit: int)
    requires IsWalk(tables, pages, query, limit)
    ensures |pages| == 1 || (|pages| - 1) * PageSize(limit) < |Listing(tables[0], query, None)|
  {
    hide Listing, QueryAudit;
    if |pages| > 1 {
      var n := |pages| - 1;
      EarlierWalk(tables, pages, query, limit);
      WalkServesTheListing(tables[..n], pages[..n], query, limit);
      assert Follows(tables, pages, query, limit, n);
    }
  }

  // ----- What pages and walks hold, event by event -----

  /** The criterion is absent, empty, or the value itself. */
  predicate Leaves(criterion: Option<string>, value: Option<string>) {
    criterion == None || criterion == Some("") || criterion == value
  }

  /** The event is one the query asks for: its fields as asked, its time between the two ends, which count. */
  predicate Answers(query: Query, e: Event) {
    && Leaves(query.actorUserId, e.actorUserId) && Leaves(query.action, Some(e.action))
    && Leaves(query.targetType, Some(e.targetType)) && Leaves(query.targetId, Some(e.targetId))
    && !(query.createdFrom.Some? && e.createdAt < query.createdFrom.value)
    && !(query.createdTo.Some? && query.createdTo.value < e.createdAt)
  }

  /** Of two moments with identifiers the first comes later in the listing. */
  predicate ComesAfter(e: Event, createdAt: int, id: nat) {
    if e.createdAt == createdAt then e.id < id else e.createdAt < createdAt
  }

  predicate AnswersBehind(query: Query, cursor: Option<Cursor>, e: Event) {
    Answers(query, e) && (cursor.None? || ComesAfter(e, cursor.value.createdAt, cursor.value.id))
  }

  /** Each event comes after all before it. */
  predicate Descends(items: seq<Event>) {
    forall i, j :: 0 <= i < j < |items| ==> ComesAfter(items[j], items[i].createdAt, items[i].id)
  }

  lemma SelectedIff(query: Query, cursor: Option<Cursor>, e: Event)
    ensures Selected(query, cursor)(e) <==> AnswersBehind(query, cursor, e)
  {
  }

  /** The listing descends and holds exactly the events of the table that answer the query behind the cursor. */
  lemma ListingAnswers(table: seq<Event>, query: Query, cursor: Option<Cursor>)
    requires UniqueIds(table)
    ensures Descends(Listing(table, query, cursor))
    ensures forall e :: e in Listing(table, query, cursor) <==> e in table && AnswersBehind(query, cursor, e)
  {
    ListingIsSound(table, query, cursor);
    hide Listing, AnswersBehind, UniqueIds;
    var rows := Listing(table, query, cursor);
    forall e ensures e in rows <==> e in table && AnswersBehind(query, cursor, e) {
      SelectedIff(query, cursor, e);
    }
    forall i, j | 0 <= i < j < |rows| ensures ComesAfter(rows[j], rows[i].createdAt, rows[i].id) {
      assert NewestFirst()(rows[i], rows[j]) && !NewestFirst()(rows[j], rows[i]);
    }
  }

  /**
    A page holds, newest first, events that answer the query behind the cursor, at most the limit
    brought between one and a hundred, such that all others that answer come after them; it is short
    only when there are none, and has a cursor, at its last event, exactly when there are others.
   */
  lemma PageAnswers(table: seq<Event>, query: Query, cursor: Option<Cursor>, limit: int)
    requires UniqueIds(table)
    ensures var page := QueryAudit(table, query, cursor, limit);
            var size := if 1 <= limit <= 100 then limit else if limit < 1 then 1 else 100;
            && Descends(page.items) && |page.items| <= size
            && (forall e :: e in page.items ==> e in table && AnswersBehind(query, cursor, e))
            && (forall e, i :: e in table && AnswersBehind(query, cursor, e) && e !in page.items
                               && 0 <= i < |page.items| ==>
                  ComesAfter(e, page.items[i].createdAt, page.items[i].id))
            && (page.nextCursor.Some? <==>
                exists e :: e in table && AnswersBehind(query, cursor, e) && e !in page.items)
            && (page.nextCursor.Some? ==>
                  |page.items| == size
                  && page.nextCursor == Some(Cursor(page.items[size - 1].createdAt, page.items[size - 1].id)))
  {
    hide Listing, AnswersBehind, UniqueIds, QueryAudit, ComesAfter, Descends;
    ListingAnswers(table, query, cursor);
    PageIsPrefix(table, query, cursor, limit);
    var rows := Listing(table, query, cursor);
    var page := QueryAudit(table, query, cursor, limit);
    FrontComesFirst(rows, |page.items|);
  }

  /**
    Of rows that descend the first ones descend, the others come after them, and there are others
    exactly if some are left.
   */
  lemma FrontComesFirst(rows: seq<Event>, n: nat)
    requires Descends(rows) && n <= |rows|
    ensures Descends(rows[..n])
    ensures forall e :: e in rows[..n] ==> e in rows
    ensures forall e, i :: e in rows && e !in rows[..n] && 0 <= i < n ==>
              ComesAfter(e, rows[i].createdAt, rows[i].id)
    ensures n < |rows| <==> exists e :: e in rows && e !in rows[..n]
  {
    hide ComesAfter;
    forall k | 0 <= k < n ensures rows[k] in rows[..n] {
      assert rows[..n][k] == rows[k];
    }
    forall e, i | e in rows && e !in rows[..n] && 0 <= i < n ensures ComesAfter(e, rows[i].createdAt, rows[i].id) {
      var k :| 0 <= k < |rows| && rows[k] == e;
    }
    if n < |rows| {
      NotEarlier(rows, n);
    } else {
      assert rows[..n] == rows;
    }
  }

  lemma NotEarlier(rows: seq<Event>, n: nat)
    requires Descends(rows) && n < |rows|
    ensures rows[n] !in rows[..n]
  {
    assert forall i :: 0 <= i < n ==> ComesAfter(rows[n], rows[i].createdAt, rows[i].id);
  }

  /**
    A walk that reached a page without a cursor served, newest first, exactly the events that
    answered when it began.
   */
  lemma CompleteWalkAnswers(tables: seq<seq<Event>>, pages: seq<Page>, query: Query, limit: int)
    requires IsWalk(tables, pages, query, limit) && pages[|pages| - 1].nextCursor.None?
    ensures Descends(ItemsOf(pages))
    ensures forall e :: e in ItemsOf(pages) <==> e in tables[0] && Answers(query, e)
  {
    CompleteWalkIsTheListing(tables, pages, query, limit);
    ListingAnswers(tables[0], query, None);
    hide Listing, Answers, IsWalk, ItemsOf;
    forall e ensures e in ItemsOf(pages) <==> e in tables[0] && Answers(query, e) {
      assert AnswersBehind(query, None, e) <==> Answers(query, e);
    }
  }
}
