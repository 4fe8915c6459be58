/**
 * Replaying failed Soroban submissions from the audit log: scan every page,
 * drop expired and unusable entries, deduplicate, and resubmit within a budget.
 */
module ReplaySubmissions {
  import opened Common
  import opened Text
  import opened Sorting
  import opened AuditEntries
  import opened AuditPaging

  datatype ReplayEntryParams = ReplayEntryParams(
    business: string, period: string, merkleRoot: string, timestamp: int, version: string)

  datatype ReplaySummary = ReplaySummary(
    scanned: nat, attempted: nat, succeeded: nat, failed: nat, skippedExpired: nat, skippedBudget: nat)

  const SUBMIT_FAILED_ACTION := "ATTESTATION_SUBMIT_FAILED"

  /**
   * What the run depends on besides the log: the clock read for the k-th entry, how
   * metadata parses, the retry budget and the outcome of the i-th submission.
   */
  datatype Surroundings = Surroundings(
    clock: nat -> int, parse: AuditLog -> Option<ReplayEntryParams>,
    canRetry: nat -> bool, accepts: nat -> bool, credentials: bool)

  function Triple(p: ReplayEntryParams): seq<string> { [p.business, p.period, p.merkleRoot] }

  function ReplayKey(p: ReplayEntryParams): string { Join(Triple(p), ':') }

  predicate IsExpired(entry: AuditLog, maxAgeDays: int, now: int) {
    entry.timestamp < now - maxAgeDays * 24 * 60 * 60 * 1000
  }

  // ----- specifications -----

  function ExpiredCount(env: Surroundings, maxAgeDays: int, entries: seq<AuditLog>, n: nat): nat
    requires n <= |entries|
  {
    if n == 0 then 0
    else ExpiredCount(env, maxAgeDays, entries, n - 1)
         + (if env.clock(n - 1) - entries[n - 1].timestamp > maxAgeDays * 86400000 then 1 else 0)
  }

  /** The parameters collected from the first n entries scanned. */
  function Collected(env: Surroundings, maxAgeDays: int, entries: seq<AuditLog>, n: nat): seq<ReplayEntryParams>
    requires n <= |entries|
  {
    if n == 0 then []
    else
      var params := env.parse(entries[n - 1]);
      Collected(env, maxAgeDays, entries, n - 1)
      + (if env.clock(n - 1) - entries[n - 1].timestamp > maxAgeDays * 86400000 || params.None? then []
         else [params.value])
  }

  function Keys(entries: seq<ReplayEntryParams>): set<string> {
    set e | e in entries :: ReplayKey(e)
  }

  ghost predicate DistinctKeys(entries: seq<ReplayEntryParams>) {
    forall i, j :: 0 <= i < j < |entries| ==> ReplayKey(entries[i]) != ReplayKey(entries[j])
  }

  /** r keeps of every key the first entry, in order. */
  ghost predicate IsDeduplicated(entries: seq<ReplayEntryParams>, r: seq<ReplayEntryParams>) {
    && DistinctKeys(r) && Keys(r) == Keys(entries)
    && exists at: seq<nat> :: KeptAt(entries, r, at)
  }

  ghost predicate KeptAt(entries: seq<ReplayEntryParams>, r: seq<ReplayEntryParams>, at: seq<nat>) {
    && |at| == |r|
    && (forall i, j :: 0 <= i < j < |at| ==> at[i] < at[j])
    && (forall i :: 0 <= i < |at| ==> at[i] < |entries| && r[i] == entries[at[i]])
    && (forall i, k :: 0 <= i < |at| && 0 <= k < at[i] ==> ReplayKey(entries[k]) != ReplayKey(r[i]))
  }

  function Accepted(env: Surroundings, n: nat): nat {
    if n == 0 then 0 else Accepted(env, n - 1) + (if env.accepts(n - 1) then 1 else 0)
  }

  // ----- the code -----

  method DeduplicateEntries(entries: seq<ReplayEntryParams>) returns (result: seq<ReplayEntryParams>)
    ensures IsDeduplicated(entries, result)
  {
    var seen: set<string> := {};
    result := [];
    ghost var at: seq<nat> := [];
    for n := 0 to |entries|
      invariant seen == Keys(result) == Keys(entries[..n])
      invariant DistinctKeys(result) && KeptAt(entries, result, at)
      invariant forall i :: 0 <= i < |at| ==> at[i] < n
    {
      var key := ReplayKey(entries[n]);
      OneMoreKey(entries, n);
      if key in seen {
        continue;
      }
      KeysAppend(result, entries[n]);
      NewKey(result, key);
      NewKey(entries[..n], key);
      assert forall k :: 0 <= k < n ==> entries[k] == entries[..n][k];
      seen := seen + {key};
      result := result + [entries[n]];
      at := at + [n];
    }
    assert entries[..|entries|] == entries;
  }

  lemma OneMoreKey(entries: seq<ReplayEntryParams>, n: nat)
    requires n < |entries|
    ensures Keys(entries[..n + 1]) == Keys(entries[..n]) + {ReplayKey(entries[n])}
  {
    assert entries[..n + 1] == entries[..n] + [entries[n]];
    KeysAppend(entries[..n], entries[n]);
  }

  lemma KeysAppend(entries: seq<ReplayEntryParams>, e: ReplayEntryParams)
    ensures Keys(entries + [e]) == Keys(entries) + {ReplayKey(e)}
  {
    assert forall x :: x in entries + [e] <==> x in entries || x == e;
  }

  lemma NewKey(entries: seq<ReplayEntryParams>, key: string)
    requires key !in Keys(entries)
    ensures forall i :: 0 <= i < |entries| ==> ReplayKey(entries[i]) != key
  {
  }

  /** Only the last page of the scan reports that nothing follows. */
  ghost predicate Complete(pages: seq<PaginatedAuditResult>) {
    pages != [] && forall i :: 0 <= i < |pages| ==> (pages[i].hasMore <==> i < |pages| - 1)
  }

  /**
   * replayFailedSubmissions; pages[k] is what the k-th query answered. `submitted`
   * lists the submissions made, in order.
   */
  method ReplayFailedSubmissions(env: Surroundings, pages: seq<PaginatedAuditResult>, maxAgeDays: int)
    returns (summary: ReplaySummary, submitted: seq<ReplayEntryParams>, ghost collected: seq<ReplayEntryParams>)
    requires Complete(pages)
    ensures summary.scanned == |Concat(pages)|
    ensures summary.skippedExpired == ExpiredCount(env, maxAgeDays, Concat(pages), |Concat(pages)|)
    ensures collected == Collected(env, maxAgeDays, Concat(pages), |Concat(pages)|)
    ensures summary.attempted + summary.skippedBudget == |Keys(collected)|
    ensures summary.succeeded + summary.failed == summary.attempted == |submitted|
    ensures summary.succeeded == Accepted(env, summary.attempted)
    ensures DistinctKeys(submitted) && Keys(submitted) <= Keys(collected)
    ensures exists unique :: IsDeduplicated(collected, unique) && summary.attempted <= |unique|
                             && submitted == unique[..summary.attempted]
    ensures summary.skippedBudget > 0 ==> !env.credentials || !env.canRetry(summary.attempted)
    ensures summary.skippedBudget == 0 ==> Keys(submitted) == Keys(collected)
    ensures summary.attempted > 0 ==> env.credentials
    ensures forall i: nat :: i < summary.attempted ==> env.canRetry(i)
  {
    var collectedEntries;
    summary, collectedEntries := ScanPages(env, pages, maxAgeDays);
    collected := collectedEntries;
    var deduplicated := DeduplicateEntries(collectedEntries);
    DistinctKeysCount(deduplicated);
    summary, submitted := Resubmit(env, deduplicated, summary);
    PrefixKeys(deduplicated, summary.attempted);
    assert deduplicated[..|deduplicated|] == deduplicated;
  }

  /** The scan: one query after the other until hasMore is false. */
  method ScanPages(env: Surroundings, pages: seq<PaginatedAuditResult>, maxAgeDays: int)
    returns (summary: ReplaySummary, collected: seq<ReplayEntryParams>)
    requires Complete(pages)
    ensures ScanProgress(env, maxAgeDays, Concat(pages), summary, collected) && summary.scanned == |Concat(pages)|
  {
    summary := ReplaySummary(0, 0, 0, 0, 0, 0);
    collected := [];
    ghost var all := Concat(pages);
    var hasMore := true;
    var k := 0;
    while hasMore
      invariant 0 <= k <= |pages| && (hasMore <==> k < |pages|)
      invariant ScanProgress(env, maxAgeDays, all, summary, collected)
      invariant all[summary.scanned..] == Concat(pages[k..])
      decreases |pages| - k
    {
      var page := pages[k];
      assert pages[k..][1..] == pages[k + 1..];
      ghost var start := summary.scanned;
      assert page.data + Concat(pages[k + 1..]) == all[start..];
      for j := 0 to |page.data|
        invariant summary.scanned == start + j
        invariant ScanProgress(env, maxAgeDays, all, summary, collected)
      {
        assert page.data[j] == all[start..][j];
        summary, collected := ScanEntry(env, maxAgeDays, all, page.data[j], summary, collected);
      }
      assert all[summary.scanned..] == all[start..][|page.data|..];
      hasMore := page.hasMore;
      k := k + 1;
    }
    assert pages[k..] == [];
  }

  /** The body of the inner loop: count, drop if expired or unusable, otherwise collect. */
  method ScanEntry(
    env: Surroundings, maxAgeDays: int, ghost all: seq<AuditLog>, entry: AuditLog,
    before: ReplaySummary, collectedBefore: seq<ReplayEntryParams>)
    returns (summary: ReplaySummary, collected: seq<ReplayEntryParams>)
    requires ScanProgress(env, maxAgeDays, all, before, collectedBefore)
    requires before.scanned < |all| && all[before.scanned] == entry
    ensures summary.scanned == before.scanned + 1 && ScanProgress(env, maxAgeDays, all, summary, collected)
  {
    summary, collected := before.(scanned := before.scanned + 1), collectedBefore;
    if IsExpired(entry, maxAgeDays, env.clock(before.scanned)) {
      summary := summary.(skippedExpired := summary.skippedExpired + 1);
      return;
    }
    var params := env.parse(entry);
    if params.None? { return; }
    collected := collected + [params.value];
  }

  /** The replay loop: it stops at missing credentials or an exhausted budget and counts what is left. */
  method Resubmit(env: Surroundings, deduplicated: seq<ReplayEntryParams>, scan: ReplaySummary)
    returns (summary: ReplaySummary, submitted: seq<ReplayEntryParams>)
    requires scan.attempted == scan.succeeded == scan.failed == scan.skippedBudget == 0
    ensures summary.scanned == scan.scanned && summary.skippedExpired == scan.skippedExpired
    ensures summary.attempted + summary.skippedBudget == |deduplicated|
    ensures submitted == deduplicated[..summary.attempted]
    ensures summary.succeeded + summary.failed == summary.attempted
    ensures summary.succeeded == Accepted(env, summary.attempted)
    ensures summary.skippedBudget > 0 ==> !env.credentials || !env.canRetry(summary.attempted)
    ensures summary.attempted > 0 ==> env.credentials
    ensures forall i: nat :: i < summary.attempted ==> env.canRetry(i)
  {
    summary, submitted := scan, [];
    var total := |deduplicated|;
    for i := 0 to total
      invariant summary.attempted == i && summary.skippedBudget == 0
      invariant summary.scanned == scan.scanned && summary.skippedExpired == scan.skippedExpired
      invariant summary.succeeded == Accepted(env, i) && summary.succeeded + summary.failed == i
      invariant submitted == deduplicated[..i]
      invariant i > 0 ==> env.credentials
      invariant forall j: nat :: j < i ==> env.canRetry(j)
    {
      if !env.credentials || !env.canRetry(i) {
        summary := summary.(skippedBudget := summary.skippedBudget + (total - i));
        break;
      }
      var params := deduplicated[i];
      summary := summary.(attempted := summary.attempted + 1);
      submitted := submitted + [params];
      if env.accepts(i) {
        summary := summary.(succeeded := summary.succeeded + 1);
      } else {
        summary := summary.(failed := summary.failed + 1);
      }
    }
  }

  ghost predicate ScanProgress(
    env: Surroundings, maxAgeDays: int, all: seq<AuditLog>, summary: ReplaySummary, collected: seq<ReplayEntryParams>)
  {
    && summary.scanned <= |all|
    && summary == ReplaySummary(summary.scanned, 0, 0, 0, ExpiredCount(env, maxAgeDays, all, summary.scanned), 0)
    && collected == Collected(env, maxAgeDays, all, summary.scanned)
  }

  lemma {:induction false} DistinctKeysCount(entries: seq<ReplayEntryParams>)
    requires DistinctKeys(entries)
    ensures |Keys(entries)| == |entries|
  {
    if entries != [] {
      var front, last := entries[..|entries| - 1], entries[|entries| - 1];
      DistinctKeysCount(front);
      assert entries == front + [last];
      KeysAppend(front, last);
      assert ReplayKey(last) !in Keys(front);
    }
  }

  lemma PrefixKeys(entries: seq<ReplayEntryParams>, n: nat)
    requires n <= |entries|
    ensures Keys(entries[..n]) <= Keys(entries)
  {
    assert forall p :: p in entries[..n] ==> p in entries;
  }

  // ----- what a scan covers -----

  function FailedSubmissionsQuery(): AuditLogQuery {
    AuditLogQuery(None, Some(SUBMIT_FAILED_ACTION), None, Unset, Unset, Integer(50), NoCursor)
  }

  function FailedSubmissions(log: seq<AuditLog>): seq<AuditLog> {
    Filter((e: AuditLog) => e.action == SUBMIT_FAILED_ACTION, log)
  }

  lemma {:induction false} WalksAreComplete(
    logs: seq<seq<AuditLog>>, pages: seq<PaginatedAuditResult>, q: AuditLogQuery, limit: nat, cursor: Option<Position>)
    requires limit > 0 && Walk(logs, pages, q, limit, cursor)
    ensures Complete(pages)
    decreases |pages|
  {
    if |pages| > 1 {
      WalksAreComplete(logs[1..], pages[1..], q, limit, pages[0].nextCursor);
      assert forall i :: 1 <= i < |pages| ==> pages[i] == pages[1..][i - 1];
    }
  }

  /** With no concurrent appends a scan meets every failed submission of the log, each once. */
  lemma QuietScanIsExact(logs: seq<seq<AuditLog>>, log: seq<AuditLog>, pages: seq<PaginatedAuditResult>)
    requires Walk(logs, pages, FailedSubmissionsQuery(), EffectiveLimit(Integer(50)), None)
    requires Frozen(logs, log) && DistinctIds(log)
    ensures Complete(pages) && multiset(Concat(pages)) == multiset(FailedSubmissions(log))
    ensures |Concat(pages)| == |FailedSubmissions(log)|
  {
    var q := FailedSubmissionsQuery();
    WalksAreComplete(logs, pages, q, 50, None);
    QuietWalkIsTheSortedLog(logs, log, pages, q, 50, None);
    var wanted := Filter(Wanted(q), log);
    FilterSame(Wanted(q), (e: AuditLog) => e.action == SUBMIT_FAILED_ACTION, log);
    SortPermutes(Before, wanted);
    FilterAll(Unseen(None), Sort(Before, wanted));
    assert |multiset(Concat(pages))| == |multiset(wanted)|;
  }

  /** With appends between pages it still meets every failed submission present at the start, and none twice. */
  lemma BusyScanMissesNothing(logs: seq<seq<AuditLog>>, pages: seq<PaginatedAuditResult>)
    requires Walk(logs, pages, FailedSubmissionsQuery(), EffectiveLimit(Integer(50)), None) && Grows(logs)
    ensures Complete(pages) && Distinct(Concat(pages))
    ensures forall e :: e in logs[0] && e.action == SUBMIT_FAILED_ACTION ==> e in Concat(pages)
  {
    var q := FailedSubmissionsQuery();
    WalksAreComplete(logs, pages, q, 50, None);
    WalkDeliversEachOnce(logs, pages, q, 50, None);
    forall i, j | 0 <= i < j < |Concat(pages)| ensures Concat(pages)[i] != Concat(pages)[j] {
      BeforeIsStrict(Concat(pages)[i], Concat(pages)[j], Concat(pages)[j]);
    }
    forall e | e in logs[0] && e.action == SUBMIT_FAILED_ACTION ensures e in Concat(pages) {
      assert Matches(q, e) && PastCursor(None, e);
    }
  }

  /** Deduplication never merges two different attestations exactly when no field of theirs contains a colon. */
  lemma KeyIsExactIffColonFree(p: ReplayEntryParams)
    ensures (forall q: ReplayEntryParams :: ReplayKey(q) == ReplayKey(p) ==> Triple(q) == Triple(p))
       <==> AllFree(Triple(p), ':')
  {
    if AllFree(Triple(p), ':') {
      forall q: ReplayEntryParams | ReplayKey(q) == ReplayKey(p) ensures Triple(q) == Triple(p) {
        FreeRecordsAreDetermined(Triple(p), Triple(q), ':');
      }
    } else {
      var g := DelimiterHidesBoundary(Triple(p), ':');
      var q := ReplayEntryParams(g[0], g[1], g[2], 0, "");
      assert Triple(q) == g;
    }
  }
}
