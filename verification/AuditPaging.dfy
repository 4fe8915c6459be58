/** Filtered keyset pagination over the audit log. */
module AuditPaging {
  import opened Common
  import opened Text
  import opened Sorting
  import opened AuditEntries

  datatype LimitArg = Absent | NotInteger | Integer(n: int)

  /** A date argument: missing or empty, unparsable, or a time in milliseconds. */
  datatype DateArg = Unset | Invalid | At(ms: int)

  /** The decoded cursor payload. */
  datatype Position = Position(timestamp: int, id: string)

  /** `Decoded(Invalid, ..)` stands for a payload whose value is not a date. */
  datatype CursorArg = NoCursor | Undecodable | Decoded(value: DateArg, id: string)

  datatype AuditLogQuery = AuditLogQuery(
    actorId: Option<string>, action: Option<string>, resource: Option<string>,
    from: DateArg, to: DateArg, limit: LimitArg, cursor: CursorArg)

  datatype QueryError = InvalidFrom | InvalidTo | FromAfterTo | InvalidCursor

  datatype PaginatedAuditResult = PaginatedAuditResult(
    data: seq<AuditLog>, nextCursor: Option<Position>, hasMore: bool)

  function EffectiveLimit(limit: LimitArg): (n: nat)
    ensures 1 <= n <= 100
    ensures limit.Integer? && limit.n > 0 ==> n == Min(limit.n, 100)
    ensures !limit.Integer? || limit.n <= 0 ==> n == 20
  {
    match limit
    case Integer(n) => if n <= 0 then 20 else Min(100, n)
    case _ => 20
  }

  /** The sort order: newest first, then by descending id. */
  predicate Before(a: AuditLog, b: AuditLog) {
    if a.timestamp != b.timestamp then a.timestamp > b.timestamp else StrLess(b.id, a.id)
  }

  predicate PastCursor(cursor: Option<Position>, r: AuditLog) {
    cursor.None?
    || r.timestamp < cursor.value.timestamp
    || (r.timestamp == cursor.value.timestamp && StrLess(r.id, cursor.value.id))
  }

  predicate FieldMatches(want: Option<string>, got: string) {
    want.None? || want.value == "" || got == want.value
  }

  predicate Matches(q: AuditLogQuery, r: AuditLog) {
    && FieldMatches(q.actorId, r.userId) && FieldMatches(q.action, r.action) && FieldMatches(q.resource, r.resource)
    && (q.from.At? ==> r.timestamp >= q.from.ms)
    && (q.to.At? ==> r.timestamp <= q.to.ms)
  }

  function QueryErrorOf(q: AuditLogQuery): Option<QueryError> {
    if q.from.Invalid? then Some(InvalidFrom)
    else if q.to.Invalid? then Some(InvalidTo)
    else if q.from.At? && q.to.At? && q.from.ms > q.to.ms then Some(FromAfterTo)
    else if q.cursor.Undecodable? then Some(InvalidCursor)
    else if q.cursor.Decoded? && (!q.cursor.value.At? || q.cursor.id == "") then Some(InvalidCursor)
    else None
  }

  function CursorOf(q: AuditLogQuery): Option<Position>
    requires QueryErrorOf(q).None?
  {
    if q.cursor.Decoded? then Some(Position(q.cursor.value.ms, q.cursor.id)) else None
  }

  ghost predicate DistinctIds(log: seq<AuditLog>) {
    forall i, j :: 0 <= i < j < |log| ==> log[i].id != log[j].id
  }

  function Wanted(q: AuditLogQuery): AuditLog -> bool { r => Matches(q, r) }

  function Unseen(cursor: Option<Position>): AuditLog -> bool { r => PastCursor(cursor, r) }

  /** The entries still to deliver past a cursor, in delivery order. */
  function Rows(log: seq<AuditLog>, q: AuditLogQuery, cursor: Option<Position>): seq<AuditLog> {
    Filter(Unseen(cursor), Sort(Before, Filter(Wanted(q), log)))
  }

  function PositionOf(r: AuditLog): Position { Position(r.timestamp, r.id) }

  function PageOf(rows: seq<AuditLog>, limit: nat): PaginatedAuditResult
    requires limit > 0
  {
    if |rows| > limit
    then PaginatedAuditResult(rows[..limit], Some(PositionOf(rows[limit - 1])), true)
    else PaginatedAuditResult(rows, None, false)
  }

  lemma BeforeIsStrict(a: AuditLog, b: AuditLog, d: AuditLog)
    ensures !Before(a, a)
    ensures Before(a, b) && Before(b, d) ==> Before(a, d)
    ensures a.id != b.id ==> Before(a, b) || Before(b, a)
    ensures !(Before(a, b) && Before(b, a))
  {
    StrLessTotal(a.id, a.id);
    StrLessTotal(a.id, b.id);
    if a.timestamp == b.timestamp == d.timestamp && Before(a, b) && Before(b, d) {
      StrLessTransitive(d.id, b.id, a.id);
    }
  }

  lemma BeforeOrders(log: seq<AuditLog>)
    requires DistinctIds(log)
    ensures Orders(Before, log) && Distinct(log)
  {
    forall a: AuditLog, b: AuditLog, d: AuditLog
      ensures !Before(a, a) && (Before(a, b) && Before(b, d) ==> Before(a, d))
    {
      BeforeIsStrict(a, b, d);
    }
    forall a, b | a in log && b in log && a != b ensures Before(a, b) || Before(b, a) {
      BeforeIsStrict(a, b, b);
    }
  }

  /** Rows is the strictly ordered list of exactly the matching entries past the cursor. */
  lemma RowsAreExact(log: seq<AuditLog>, q: AuditLogQuery, cursor: Option<Position>)
    requires DistinctIds(log)
    ensures Ascending(Before, Rows(log, q, cursor))
    ensures forall r :: r in Rows(log, q, cursor) <==> r in log && Matches(q, r) && PastCursor(cursor, r)
  {
    var matching := Filter(Wanted(q), log);
    FilterMembers(Wanted(q), log);
    BeforeOrders(log);
    FilterDistinct(Wanted(q), log);
    SortAscending(Before, matching);
    SortPermutes(Before, matching);
    FilterAscending(Before, Unseen(cursor), Sort(Before, matching));
    FilterMembers(Unseen(cursor), Sort(Before, matching));
  }

  /** The entry passes every filter that is given and lies past the cursor, field by field. */
  ghost predicate Asked(q: AuditLogQuery, cursor: Option<Position>, e: AuditLog) {
    && (q.actorId == None || q.actorId == Some("") || q.actorId == Some(e.userId))
    && (q.action == None || q.action == Some("") || q.action == Some(e.action))
    && (q.resource == None || q.resource == Some("") || q.resource == Some(e.resource))
    && (q.from.At? ==> q.from.ms <= e.timestamp) && (q.to.At? ==> e.timestamp <= q.to.ms)
    && (cursor.Some? ==> Later(cursor.value.timestamp, cursor.value.id, e))
  }

  /** The entry comes after this position: it is older, or as old with a smaller id. */
  ghost predicate Later(timestamp: int, id: string, e: AuditLog) {
    e.timestamp < timestamp || (e.timestamp == timestamp && StrLess(e.id, id))
  }

  /** One page, exactly: the newest entries asked for, newest first, up to the limit, and the cursor to any others. */
  lemma PageIsExact(log: seq<AuditLog>, q: AuditLogQuery, cursor: Option<Position>, limit: nat)
    requires DistinctIds(log) && limit > 0
    ensures var page := PageOf(Rows(log, q, cursor), limit);
            && (forall e :: e in page.data ==> e in log && Asked(q, cursor, e))
            && (forall i, j :: 0 <= i < j < |page.data| ==>
                  Later(page.data[i].timestamp, page.data[i].id, page.data[j]))
            && |page.data| <= limit && (page.hasMore <==> page.nextCursor.Some?)
            && (page.hasMore ==>
                  && |page.data| == limit
                  && page.nextCursor == Some(Position(page.data[limit - 1].timestamp, page.data[limit - 1].id)))
            && (page.hasMore <==> exists e :: e in log && Asked(q, cursor, e) && e !in page.data)
            && (forall e, d :: e in log && Asked(q, cursor, e) && e !in page.data && d in page.data ==>
                  Later(d.timestamp, d.id, e))
  {
    var rows := Rows(log, q, cursor);
    RowsAreExact(log, q, cursor);
    assert forall e :: Asked(q, cursor, e) <==> Matches(q, e) && PastCursor(cursor, e);
    assert forall d, e :: Before(d, e) <==> Later(d.timestamp, d.id, e);
    if |rows| > limit {
      var data, e := rows[..limit], rows[limit];
      assert e in rows && e !in data by {
        forall i | 0 <= i < limit ensures rows[i] != e {
          BeforeIsStrict(rows[i], e, e);
        }
      }
      forall e | e in rows && e !in data ensures forall d :: d in data ==> Before(d, e) {
        assert rows == data + rows[limit..];
        var j :| 0 <= j < |rows[limit..]| && rows[limit..][j] == e;
        assert rows[limit + j] == e;
      }
    }
  }

  /** Continuing from the last delivered entry leaves exactly the undelivered rows of the same log. */
  lemma NextRowsAreTheRest(log: seq<AuditLog>, q: AuditLogQuery, cursor: Option<Position>, n: nat)
    requires DistinctIds(log) && 0 < n <= |Rows(log, q, cursor)|
    ensures Rows(log, q, Some(PositionOf(Rows(log, q, cursor)[n - 1]))) == Rows(log, q, cursor)[n..]
  {
    var rows := Rows(log, q, cursor);
    var last := rows[n - 1];
    var next := Some(PositionOf(last));
    RowsAreExact(log, q, cursor);
    RowsAreExact(log, q, next);
    BeforeOrders(log);
    forall r ensures r in Rows(log, q, next) <==> r in rows[n..] {
      if r in Rows(log, q, next) {
        CursorAdvances(cursor, last, r);
        var i :| 0 <= i < |rows| && rows[i] == r;
        BeforeIsStrict(r, last, r);
        assert r == rows[n..][i - n];
      }
    }
    AscendingUnique(Before, Rows(log, q, next), rows[n..]);
  }

  /** Whatever comes after a delivered entry is also past the cursor that entry was past. */
  lemma CursorAdvances(cursor: Option<Position>, last: AuditLog, r: AuditLog)
    requires PastCursor(cursor, last) && Before(last, r)
    ensures PastCursor(cursor, r)
  {
    if cursor.Some? && last.timestamp == r.timestamp == cursor.value.timestamp {
      StrLessTransitive(r.id, last.id, cursor.value.id);
    }
  }

  /** Whatever comes after the last entry of a page comes after all of them. */
  lemma HeadPrecedes(rows: seq<AuditLog>, n: nat, r: AuditLog)
    requires 0 < n <= |rows| && Ascending(Before, rows) && Before(rows[n - 1], r)
    ensures forall h :: h in rows[..n] ==> Before(h, r)
  {
    forall i | 0 <= i < n ensures Before(rows[i], r) {
      if i < n - 1 { BeforeIsStrict(rows[i], rows[n - 1], r); }
    }
  }

  // ----- following nextCursor -----

  function Concat(pages: seq<PaginatedAuditResult>): seq<AuditLog> {
    if pages == [] then [] else pages[0].data + Concat(pages[1..])
  }

  /**
   * A complete walk from a cursor: page i is served from logs[i], continues where
   * page i-1 ended, and only the last page reports that nothing more follows.
   */
  ghost predicate Walk(
    logs: seq<seq<AuditLog>>, pages: seq<PaginatedAuditResult>, q: AuditLogQuery, limit: nat, cursor: Option<Position>)
    requires limit > 0
  {
    && |logs| == |pages| > 0
    && pages[0] == PageOf(Rows(logs[0], q, cursor), limit)
    && (if |pages| == 1 then !pages[0].hasMore
        else pages[0].hasMore && Walk(logs[1..], pages[1..], q, limit, pages[0].nextCursor))
  }

  /** Between pages the log only grows at its end, and ids stay unique. */
  ghost predicate Grows(logs: seq<seq<AuditLog>>) {
    && (forall i :: 0 <= i < |logs| ==> DistinctIds(logs[i]))
    && (forall i :: 0 <= i < |logs| - 1 ==> logs[i] <= logs[i + 1])
  }

  lemma {:induction false} GrowsToLast(logs: seq<seq<AuditLog>>)
    requires |logs| > 0 && Grows(logs)
    ensures logs[0] <= logs[|logs| - 1]
  {
    if |logs| > 1 {
      assert Grows(logs[1..]);
      GrowsToLast(logs[1..]);
      assert logs[0] <= logs[1];
    }
  }

  /**
   * With any appends between pages, the delivered entries are strictly descending
   * in (timestamp, id), so none repeats; every matching entry past the cursor that
   * the log held at the first page is delivered; and nothing else than matching
   * entries of the final log is.
   */
  lemma {:induction false} WalkDeliversEachOnce(
    logs: seq<seq<AuditLog>>, pages: seq<PaginatedAuditResult>, q: AuditLogQuery, limit: nat, cursor: Option<Position>)
    requires limit > 0 && Walk(logs, pages, q, limit, cursor) && Grows(logs)
    ensures Ascending(Before, Concat(pages))
    ensures forall r :: r in logs[0] && Matches(q, r) && PastCursor(cursor, r) ==> r in Concat(pages)
    ensures forall r :: r in Concat(pages) ==> r in logs[|logs| - 1] && Matches(q, r) && PastCursor(cursor, r)
  {
    var rows := Rows(logs[0], q, cursor);
    RowsAreExact(logs[0], q, cursor);
    GrowsToLast(logs);
    assert Concat(pages) == pages[0].data + Concat(pages[1..]);
    if |pages| > 1 {
      var next := pages[0].nextCursor;
      var rest := Concat(pages[1..]);
      assert Grows(logs[1..]);
      WalkDeliversEachOnce(logs[1..], pages[1..], q, limit, next);
      var head, last := rows[..limit], rows[limit - 1];
      forall r | r in rest ensures PastCursor(cursor, r) && forall h :: h in head ==> Before(h, r) {
        assert last in rows;
        CursorAdvances(cursor, last, r);
        HeadPrecedes(rows, limit, r);
      }
      AscendingConcat(Before, head, rest);
      var final := logs[|logs| - 1];
      assert logs[1..][|logs| - 2] == final;
      forall r | r in head ensures r in final && Matches(q, r) && PastCursor(cursor, r) {
        assert r in rows && r in logs[0];
      }
      forall r | r in logs[0] && Matches(q, r) && PastCursor(cursor, r) ensures r in head || r in rest {
        var i :| 0 <= i < |rows| && rows[i] == r;
        if i >= limit {
          assert Before(last, r);
          assert logs[0] <= logs[1] && r in logs[1];
        }
      }
    } else {
      assert pages[1..] == [] && Concat(pages) == rows;
    }
  }

  ghost predicate Frozen(logs: seq<seq<AuditLog>>, log: seq<AuditLog>) {
    forall i :: 0 <= i < |logs| ==> logs[i] == log
  }

  /** Without appends the concatenated pages are the sorted filtered log, and every page but the last is full. */
  lemma {:induction false} QuietWalkIsTheSortedLog(
    logs: seq<seq<AuditLog>>, log: seq<AuditLog>, pages: seq<PaginatedAuditResult>,
    q: AuditLogQuery, limit: nat, cursor: Option<Position>)
    requires limit > 0 && Walk(logs, pages, q, limit, cursor) && Frozen(logs, log) && DistinctIds(log)
    ensures Concat(pages) == Rows(log, q, cursor)
    ensures forall i :: 0 <= i < |pages| - 1 ==> |pages[i].data| == limit
    ensures Rows(log, q, cursor) != [] ==> 0 < |pages[|pages| - 1].data| <= limit
  {
    var rows := Rows(log, q, cursor);
    assert Concat(pages) == pages[0].data + Concat(pages[1..]);
    assert logs[0] == log;
    if |pages| > 1 {
      NextRowsAreTheRest(log, q, cursor, limit);
      assert Frozen(logs[1..], log);
      QuietWalkIsTheSortedLog(logs[1..], log, pages[1..], q, limit, pages[0].nextCursor);
      assert rows == rows[..limit] + rows[limit..];
      assert forall i :: 1 <= i < |pages| ==> pages[i] == pages[1..][i - 1];
    } else {
      assert pages[1..] == [] && Concat(pages) == rows;
    }
  }

  /** The cursor argument itself takes no part in filtering. */
  lemma CursorDoesNotFilter(log: seq<AuditLog>, q: AuditLogQuery, q': AuditLogQuery, cursor: Option<Position>)
    requires q'.(cursor := q.cursor) == q
    ensures Rows(log, q', cursor) == Rows(log, q, cursor)
  {
    FilterSame(Wanted(q'), Wanted(q), log);
  }

  lemma {:induction false} CursorDoesNotWalk(
    logs: seq<seq<AuditLog>>, pages: seq<PaginatedAuditResult>, q': AuditLogQuery, q: AuditLogQuery,
    limit: nat, cursor: Option<Position>, log: seq<AuditLog>)
    requires limit > 0 && q'.(cursor := q.cursor) == q && Walk(logs, pages, q', limit, cursor) && Frozen(logs, log)
    ensures Walk(logs, pages, q, limit, cursor) && Frozen([log] + logs, log)
    decreases |pages|
  {
    CursorDoesNotFilter(logs[0], q, q', cursor);
    if |pages| > 1 {
      assert Frozen(logs[1..], log);
      CursorDoesNotWalk(logs[1..], pages[1..], q', q, limit, pages[0].nextCursor, log);
    }
  }
}
