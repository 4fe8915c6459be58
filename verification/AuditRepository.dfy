/** The in-memory audit-log store: its array, and the operations on it. */
module AuditRepository {
  import opened Common
  import opened Sorting
  import opened AuditEntries
  import opened AuditChain
  import opened AuditPaging
  import AuditAnchor

  class AuditLogRepository {
    const crypto: Crypto
    var auditLogs: seq<AuditLog>

    /** What every operation keeps: the stored log is a well-formed chain. */
    ghost predicate Valid()
      reads this
    {
      WellFormed(ChainOf(crypto), auditLogs)
    }

    constructor (crypto: Crypto)
      ensures Valid() && auditLogs == [] && this.crypto == crypto
    {
      this.crypto := crypto;
      auditLogs := [];
    }

    method CreateAuditLog(log: AuditLogInput, payloadHash: Option<string>, id: string, timestamp: int)
      returns (newLog: AuditLog)
      requires Valid()
      modifies this
      ensures Valid() && auditLogs == old(auditLogs) + [newLog]
      ensures newLog == AuditAnchor.NextEntry(crypto, old(auditLogs), log, payloadHash, id, timestamp)
      ensures newLog.seqNo == |old(auditLogs)| && newLog.id == id && newLog.timestamp == timestamp
      ensures newLog.userId == log.userId && newLog.action == log.action && newLog.resource == log.resource
      ensures newLog.resourceId == log.resourceId && newLog.metadata == log.metadata
      ensures newLog.contentHash == if payloadHash.Some? then payloadHash else log.contentHash
      ensures newLog.chainHash == crypto.hmac(
                (if old(auditLogs) == [] then Zeros(64) else old(auditLogs)[|old(auditLogs)| - 1].chainHash)
                + "|" + CanonicaliseEntry(crypto, newLog))
    {
      var seqNo := |auditLogs|;
      var prevHash := if |auditLogs| > 0 then auditLogs[|auditLogs| - 1].chainHash else GENESIS_SENTINEL;
      var partial := AuditLog(
        seqNo, id, log.userId, log.action, log.resource, log.resourceId, log.metadata,
        if payloadHash.Some? then payloadHash else log.contentHash, timestamp, GENESIS_SENTINEL);
      var chainHash := ComputeChainHash(ChainOf(crypto), partial, prevHash);
      newLog := partial.(chainHash := chainHash);
      AuditAnchor.HashIsNotHashed(crypto, newLog, GENESIS_SENTINEL);
      AuditAnchor.AppendKeepsWellFormed(crypto, auditLogs, log, payloadHash, id, timestamp);
      auditLogs := auditLogs + [newLog];
    }

    /** Recomputes the chain over the given entries, or over the store. */
    method VerifyChain(entries: Option<seq<AuditLog>>) returns (result: ChainVerificationResult)
      ensures result == Verdict(ChainOf(crypto), if entries.Some? then entries.value else auditLogs)
      ensures var o := Sort(SeqBefore, if entries.Some? then entries.value else auditLogs);
              && (result.valid ==> Accepts(result, o) && LinkedTo(ChainOf(crypto), o, |o|))
              && (!result.valid ==>
                    && RejectsAt(result, o, result.checkedCount)
                    && LinkedTo(ChainOf(crypto), o, result.checkedCount)
                    && !Linked(ChainOf(crypto), o, result.checkedCount))
    {
      var logs := if entries.Some? then entries.value else auditLogs;
      SortPermutes(SeqBefore, logs);
      if |logs| == 0 {
        return ChainVerificationResult(true, 0, None, None, None);
      }
      var c := ChainOf(crypto);
      var ordered := Sort(SeqBefore, logs);
      var prevHash := GENESIS_SENTINEL;
      var i := 0;
      while i < |ordered|
        invariant 0 <= i <= |ordered| == |logs|
        invariant prevHash == PrevHash(ordered, i) && LinkedTo(c, ordered, i)
      {
        var entry := ordered[i];
        var expected := ComputeChainHash(c, entry, prevHash);
        if expected != entry.chainHash {
          VerdictBreaksAt(c, logs, i);
          return ChainVerificationResult(false, i, Some(i), Some(entry.id), Some(ordered[|ordered| - 1].chainHash));
        }
        OneMoreLink(c, ordered, i);
        prevHash := entry.chainHash;
        i := i + 1;
      }
      VerdictIntact(c, logs);
      return ChainVerificationResult(true, |ordered|, None, None, Some(ordered[|ordered| - 1].chainHash));
    }

    /** On the store itself verification always succeeds and reports the current root. */
    method VerifyStore() returns (result: ChainVerificationResult, root: Option<Hash>)
      requires Valid()
      ensures result == ChainVerificationResult(true, |auditLogs|, None, None, root)
      ensures root == ChainRoot(auditLogs)
    {
      result := VerifyChain(None);
      root := GetCurrentChainRoot();
      AnyArrangementVerifies(ChainOf(crypto), auditLogs, auditLogs);
    }

    method GetCurrentChainRoot() returns (root: Option<Hash>)
      ensures root == ChainRoot(auditLogs)
      ensures root == if auditLogs == [] then None else Some(auditLogs[|auditLogs| - 1].chainHash)
    {
      if |auditLogs| == 0 {
        return None;
      }
      return Some(auditLogs[|auditLogs| - 1].chainHash);
    }

    /** The page that starts past the cursor, or the error the arguments deserve. */
    method QueryAuditLogs(q: AuditLogQuery) returns (r: Result<PaginatedAuditResult, QueryError>)
      ensures r.Err? <==>
              || q.from.Invalid? || q.to.Invalid? || (q.from.At? && q.to.At? && q.from.ms > q.to.ms)
              || q.cursor.Undecodable? || (q.cursor.Decoded? && (!q.cursor.value.At? || q.cursor.id == ""))
      ensures r.Err? ==> r.error == if q.from.Invalid? then InvalidFrom else if q.to.Invalid? then InvalidTo
                                    else if q.from.At? && q.to.At? && q.from.ms > q.to.ms then FromAfterTo
                                    else InvalidCursor
      ensures r.Ok? && q.cursor.Decoded? ==> CursorOf(q) == Some(Position(q.cursor.value.ms, q.cursor.id))
      ensures r.Ok? && !q.cursor.Decoded? ==> CursorOf(q) == None
      ensures QueryErrorOf(q).Some? ==> r == Err(QueryErrorOf(q).value)
      ensures QueryErrorOf(q).None? ==> r == Ok(PageOf(Rows(auditLogs, q, CursorOf(q)), EffectiveLimit(q.limit)))
    {
      var limit := EffectiveLimit(q.limit);
      if q.from.Invalid? { return Err(InvalidFrom); }
      if q.to.Invalid? { return Err(InvalidTo); }
      if q.from.At? && q.to.At? && q.from.ms > q.to.ms { return Err(FromAfterTo); }
      if q.cursor.Undecodable? { return Err(InvalidCursor); }
      var cursor: Option<Position> := None;
      if q.cursor.Decoded? {
        if !q.cursor.value.At? || q.cursor.id == "" { return Err(InvalidCursor); }
        cursor := Some(Position(q.cursor.value.ms, q.cursor.id));
      }

      var rows := MatchingRows(q);
      rows := Sort(Before, rows);
      if cursor.Some? {
        rows := Filter(Unseen(cursor), rows);
      } else {
        FilterAll(Unseen(cursor), rows);
      }

      var hasMore := |rows| > limit;
      var slice := rows[..Min(|rows|, Min(limit, 100))];
      var nextCursor: Option<Position> := None;
      if hasMore && |slice| > 0 {
        nextCursor := Some(PositionOf(slice[|slice| - 1]));
      }
      assert |rows| <= limit ==> slice == rows;
      r := Ok(PaginatedAuditResult(slice, nextCursor, hasMore));
    }

    /**
     * Following nextCursor until hasMore is false, with no appends meanwhile: it
     * ends, and the pages form a complete walk.
     */
    method FollowPages(q: AuditLogQuery) returns (pages: seq<PaginatedAuditResult>, ghost logs: seq<seq<AuditLog>>)
      requires QueryErrorOf(q).None? && DistinctIds(auditLogs) && forall e :: e in auditLogs ==> e.id != ""
      ensures Walk(logs, pages, q, EffectiveLimit(q.limit), CursorOf(q)) && Frozen(logs, auditLogs)
      decreases |Rows(auditLogs, q, CursorOf(q))|
    {
      var r := QueryAuditLogs(q);
      var page := r.value;
      if page.hasMore {
        var next := page.nextCursor.value;
        ghost var rows, limit := Rows(auditLogs, q, CursorOf(q)), EffectiveLimit(q.limit);
        RowsAreExact(auditLogs, q, CursorOf(q));
        NextRowsAreTheRest(auditLogs, q, CursorOf(q), limit);
        assert rows[limit - 1] in rows;
        var q' := q.(cursor := Decoded(At(next.timestamp), next.id));
        CursorDoesNotFilter(auditLogs, q, q', Some(next));
        var rest, restLogs := FollowPages(q');
        CursorDoesNotWalk(restLogs, rest, q', q, limit, Some(next), auditLogs);
        pages, logs := [page] + rest, [auditLogs] + restLogs;
        assert pages[1..] == rest && logs[1..] == restLogs;
      } else {
        pages, logs := [page], [auditLogs];
      }
    }

    /** The filter steps of a query, one argument at a time. */
    method MatchingRows(q: AuditLogQuery) returns (rows: seq<AuditLog>)
      ensures rows == Filter(Wanted(q), auditLogs)
    {
      rows := auditLogs;
      ghost var k0 := (e: AuditLog) => true;
      FilterAll(k0, auditLogs);
      ghost var k1 := (e: AuditLog) => FieldMatches(q.actorId, e.userId);
      ghost var k2 := (e: AuditLog) => k1(e) && FieldMatches(q.action, e.action);
      ghost var k3 := (e: AuditLog) => k2(e) && FieldMatches(q.resource, e.resource);
      ghost var k4 := (e: AuditLog) => k3(e) && (q.from.At? ==> e.timestamp >= q.from.ms);
      rows := FilterIf(q.actorId.Some? && q.actorId.value != "",
                       (e: AuditLog) => q.actorId == Some(e.userId), rows, k0, k1, auditLogs);
      rows := FilterIf(q.action.Some? && q.action.value != "",
                       (e: AuditLog) => q.action == Some(e.action), rows, k1, k2, auditLogs);
      rows := FilterIf(q.resource.Some? && q.resource.value != "",
                       (e: AuditLog) => q.resource == Some(e.resource), rows, k2, k3, auditLogs);
      rows := FilterIf(q.from.At?, (e: AuditLog) => q.from.At? && e.timestamp >= q.from.ms, rows, k3, k4, auditLogs);
      rows := FilterIf(q.to.At?, (e: AuditLog) => q.to.At? && e.timestamp <= q.to.ms, rows, k4,
                       Wanted(q), auditLogs);
    }

    /** One `if (arg) rows = rows.filter(..)` step: `before` and `after` say what rows holds around it. */
    static method FilterIf(
      active: bool, test: AuditLog -> bool, rows: seq<AuditLog>,
      ghost before: AuditLog -> bool, ghost after: AuditLog -> bool, ghost log: seq<AuditLog>)
      returns (next: seq<AuditLog>)
      requires rows == Filter(before, log)
      requires forall e :: e in log ==> (after(e) <==> before(e) && (active ==> test(e)))
      ensures next == Filter(after, log)
    {
      next := rows;
      if active {
        next := Filter(test, rows);
        FilterTwice(before, test, after, log);
      } else {
        FilterSame(before, after, log);
      }
    }
  }
}
