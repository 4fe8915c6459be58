/**
 * Rebuilding the attestation table from the contract's event stream.
 *
 * A cursor is a position in the stream; position `origin` is the first event at
 * or after the requested ledger. What the RPC server, the database and the
 * parser do with an event is an input.
 */
module IndexerRebuild {
  import opened Common
  import opened Text

  datatype ParsedEvent = ParsedEvent(business: string, period: string, merkleRoot: string, txHash: string)

  datatype ParseOutcome = Threw | Unparsable | Parsed(event: ParsedEvent)

  datatype ChainEvent = ChainEvent(inSuccessfulContractCall: bool, parse: ParseOutcome)

  datatype Options = Options(dryRun: bool, businessId: Option<string>)

  datatype Stats = Stats(
    totalEvents: nat, uniqueAttestations: nat, created: nat, updated: nat, skipped: nat, errors: nat)

  type Key = (string, string)

  datatype Row = Row(merkleRoot: string, txHash: string, version: nat)

  type Table = map<Key, Row>

  function BuildAttestationId(business: string, period: string): string { business + ":" + period }

  function KeyOf(e: ParsedEvent): Key { (e.business, e.period) }

  function IdOf(e: ParsedEvent): string { BuildAttestationId(e.business, e.period) }

  predicate ShouldProcess(o: Options, e: ParsedEvent) {
    o.businessId.None? || o.businessId.value == "" || e.business == o.businessId.value
  }

  /** INSERT .. ON CONFLICT DO UPDATE. */
  function Upserted(table: Table, e: ParsedEvent): Table {
    var version := if KeyOf(e) in table then table[KeyOf(e)].version + 1 else 1;
    table[KeyOf(e) := Row(e.merkleRoot, e.txHash, version)]
  }

  datatype State = State(stats: Stats, seen: set<string>, table: Table)

  /** The event reaches the dedupe check. */
  predicate Eligible(o: Options, e: ChainEvent) {
    e.inSuccessfulContractCall && e.parse.Parsed? && ShouldProcess(o, e.parse.event)
  }

  /** The effect of one event; `dbFails` says that its upsert, if attempted, throws. */
  function ProcessOne(o: Options, s: State, e: ChainEvent, dbFails: bool): State {
    var t := s.stats.(totalEvents := s.stats.totalEvents + 1);
    if !e.inSuccessfulContractCall then s.(stats := t)
    else if e.parse.Threw? then s.(stats := t.(errors := t.errors + 1))
    else if !Eligible(o, e) || IdOf(e.parse.event) in s.seen then s.(stats := t.(skipped := t.skipped + 1))
    else
      var p := e.parse.event;
      var u := t.(uniqueAttestations := t.uniqueAttestations + 1);
      var seen := s.seen + {IdOf(p)};
      if o.dryRun then State(u.(created := u.created + 1), seen, s.table)
      else if dbFails then State(u.(errors := u.errors + 1), seen, s.table)
      else
        var table := Upserted(s.table, p);
        State(
          if table[KeyOf(p)].version == 1 then u.(created := u.created + 1) else u.(updated := u.updated + 1),
          seen, table)
  }

  /** Events a..b-1 in order. */
  function Fold(o: Options, s: State, stream: seq<ChainEvent>, dbFails: nat -> bool, a: nat, b: nat): State
    requires a <= b <= |stream|
  {
    if a == b then s else ProcessOne(o, Fold(o, s, stream, dbFails, a, b - 1), stream[b - 1], dbFails(b - 1))
  }

  const NoStats := Stats(0, 0, 0, 0, 0, 0)

  /** The database table and the checkpoint file, which outlive a run. */
  class Storage {
    var table: Table
    var checkpoint: Option<nat>

    constructor (table: Table, checkpoint: Option<nat>)
      ensures this.table == table && this.checkpoint == checkpoint
    {
      this.table, this.checkpoint := table, checkpoint;
    }
  }

  /** What a run that handled events from..reached-1 leaves: the fold of them, one error more if a fetch failed. */
  ghost predicate RunResult(
    o: Options, stream: seq<ChainEvent>, dbFails: nat -> bool, before: Table,
    from: nat, reached: nat, failed: bool, stats: Stats, table: Table)
  {
    from <= reached <= |stream| &&
    var part := Fold(o, State(NoStats, {}, before), stream, dbFails, from, reached);
    && table == part.table
    && stats == if failed then part.stats.(errors := part.stats.errors + 1) else part.stats
  }

  function StartCursor(origin: nat, useCheckpoint: bool, checkpoint: Option<nat>): nat {
    if useCheckpoint && checkpoint.Some? then checkpoint.value else origin
  }

  // ----- where a run that stops leaves the storage -----

  /** A run that stops after handling the events up to `end`, with or without saving a page completed there. */
  datatype Pass = Pass(end: nat, saved: bool)

  /** The last page boundary at or before e of a run that started at c. */
  function PageEnd(batchSize: nat, n: nat, c: nat, e: nat): (p: nat)
    requires batchSize >= 1 && c <= e <= n
    ensures c <= p <= e
    decreases e - c
  {
    if c + batchSize <= e then PageEnd(batchSize, n, c + batchSize, e) else if e == n then n else c
  }

  /** The last page boundary strictly before e. */
  function PageEndBefore(batchSize: nat, c: nat, e: nat): (p: nat)
    requires batchSize >= 1 && c < e
    ensures c <= p < e
    decreases e - c
  {
    if c + batchSize < e then PageEndBefore(batchSize, c + batchSize, e) else c
  }

  /** Where the next run resumes: the last page the stopped run had saved. */
  function NextCheckpoint(batchSize: nat, n: nat, c: nat, pass: Pass): (p: nat)
    requires batchSize >= 1 && c <= pass.end <= n
    ensures c <= p <= pass.end
  {
    var page := PageEnd(batchSize, n, c, pass.end);
    if page < pass.end || pass.saved || pass.end == c then page
    else PageEndBefore(batchSize, c, pass.end)
  }

  /** p is a whole number of pages after a. */
  predicate OnPage(a: nat, batchSize: nat, p: nat)
    requires batchSize >= 1
    decreases p - a
  {
    p == a || (a + batchSize <= p && OnPage(a + batchSize, batchSize, p))
  }

  lemma {:induction false} OnPageTransitive(a: nat, batchSize: nat, c: nat, p: nat)
    requires batchSize >= 1 && OnPage(a, batchSize, c) && OnPage(c, batchSize, p)
    ensures OnPage(a, batchSize, p) && a <= p
    decreases c - a
  {
    OnPageForward(c, batchSize, p);
    if c != a { OnPageTransitive(a + batchSize, batchSize, c, p); }
  }

  lemma OnPageForward(a: nat, batchSize: nat, p: nat)
    requires batchSize >= 1 && OnPage(a, batchSize, p)
    ensures a <= p
  {
  }

  /** Page ends are counted from any earlier page end. */
  lemma {:induction false} PageEndsFrom(batchSize: nat, n: nat, c: nat, p: nat, e: nat)
    requires batchSize >= 1 && OnPage(c, batchSize, p) && c <= p <= e <= n
    ensures PageEnd(batchSize, n, c, e) == PageEnd(batchSize, n, p, e)
    ensures p < e ==> PageEndBefore(batchSize, c, e) == PageEndBefore(batchSize, p, e)
    decreases p - c
  {
    if c < p {
      OnPageForward(c + batchSize, batchSize, p);
      PageEndsFrom(batchSize, n, c + batchSize, p, e);
    }
  }

  /** What outlives a crash. */
  datatype Snapshot = Snapshot(table: Table, checkpoint: Option<nat>)

  /** One run: where it started, on what stream and table, and which upserts fail. */
  datatype Course = Course(
    o: Options, stream: seq<ChainEvent>, dbFails: nat -> bool, before: Table, origin: nat, batchSize: nat, from: nat)

  ghost predicate Sound(c: Course) { c.batchSize >= 1 && c.from <= |c.stream| }

  /** The run's state once the events before `reached` are handled. */
  function StateAt(c: Course, reached: nat): State
    requires c.from <= reached <= |c.stream|
  {
    Fold(c.o, State(NoStats, {}, c.before), c.stream, c.dbFails, c.from, reached)
  }

  /** Cut off here, the run has handled the events of this pass, and the next run resumes where the pass says. */
  ghost predicate LeftBy(c: Course, pass: Pass, left: Snapshot)
    requires Sound(c)
  {
    && c.from <= pass.end <= |c.stream| && left.table == StateAt(c, pass.end).table
    && StartCursor(c.origin, true, left.checkpoint) == NextCheckpoint(c.batchSize, |c.stream|, c.from, pass)
  }

  ghost predicate LeftByPass(c: Course, left: Snapshot)
    requires Sound(c)
  {
    exists pass :: LeftBy(c, pass, left)
  }

  ghost predicate AllLeftByPasses(c: Course, trail: seq<Snapshot>)
    requires Sound(c)
  {
    forall i :: 0 <= i < |trail| ==> LeftByPass(c, trail[i])
  }

  /** The trail goes on: after the event before `end`, in the page from p, or after that page was saved. */
  lemma TrailGoesOn(c: Course, p: nat, end: nat, saved: bool, trail: seq<Snapshot>, left: Snapshot)
    requires Sound(c) && c.from <= p < end <= |c.stream| && OnPage(c.from, c.batchSize, p) && end <= p + c.batchSize
    requires saved ==> end == Min(p + c.batchSize, |c.stream|)
    requires left.table == StateAt(c, end).table
    requires StartCursor(c.origin, true, left.checkpoint) == if saved then end else p
    requires AllLeftByPasses(c, trail)
    ensures AllLeftByPasses(c, trail + [left])
  {
    PageEndsFrom(c.batchSize, |c.stream|, c.from, p, end);
    assert LeftBy(c, Pass(end, saved), left);
    assert forall i :: 0 <= i < |trail + [left]| ==> (trail + [left])[i] == if i < |trail| then trail[i] else left;
  }

  /** The trail of a run that has handled the events before `reached`: from the storage before to the storage now. */
  ghost predicate Trail(c: Course, trail: seq<Snapshot>, saved: Option<nat>, reached: nat, now: Snapshot)
    requires Sound(c)
  {
    && c.from <= reached < c.from + |trail|
    && trail[0] == Snapshot(c.before, saved) && trail[|trail| - 1] == now
  }

  /**
   * processEvents. `fetchFails(k)` says that fetching page k throws. Unless a fetch
   * fails, statistics and table are those of folding the whole stream from the
   * starting cursor, whatever the batch size. `trail` lists what the storage held
   * before the run, after every event and after every saved checkpoint: wherever the
   * run is cut off, it leaves what a pass leaves.
   */
  method ProcessEvents(
    o: Options, stream: seq<ChainEvent>, origin: nat, batchSize: nat, useCheckpoint: bool,
    dbFails: nat -> bool, fetchFails: nat -> bool, storage: Storage)
    returns (stats: Stats, ghost reached: nat, ghost failed: bool, ghost trail: seq<Snapshot>)
    requires batchSize >= 1 && origin <= |stream|
    requires storage.checkpoint.Some? ==> storage.checkpoint.value <= |stream|
    modifies storage
    ensures RunResult(o, stream, dbFails, old(storage.table),
                      StartCursor(origin, useCheckpoint, old(storage.checkpoint)), reached, failed,
                      stats, storage.table)
    ensures if failed then exists k: nat :: fetchFails(k) else reached == |stream|
    ensures storage.checkpoint ==
            if useCheckpoint && reached > StartCursor(origin, useCheckpoint, old(storage.checkpoint))
            then Some(reached) else old(storage.checkpoint)
    ensures stats.totalEvents
         == reached - (if useCheckpoint && old(storage.checkpoint).Some? then old(storage.checkpoint).value else origin)
    ensures o.dryRun ==> storage.table == old(storage.table)
    ensures |trail| > reached - StartCursor(origin, useCheckpoint, old(storage.checkpoint))
    ensures trail[0] == Snapshot(old(storage.table), old(storage.checkpoint))
    ensures trail[|trail| - 1] == Snapshot(storage.table, storage.checkpoint)
    ensures useCheckpoint ==>
              AllLeftByPasses(Course(o, stream, dbFails, old(storage.table), origin, batchSize,
                                     StartCursor(origin, true, old(storage.checkpoint))), trail)
  {
    var seen: set<string> := {};
    stats := NoStats;
    var cursor := StartCursor(origin, useCheckpoint, storage.checkpoint);
    failed := false;
    var c := Course(o, stream, dbFails, storage.table, origin, batchSize, cursor);
    ghost var saved := storage.checkpoint;
    trail := [Snapshot(storage.table, storage.checkpoint)];
    assert useCheckpoint ==> LeftBy(c, Pass(c.from, false), trail[0]);
    var pageCount := 0;
    var hasMore := true;
    while hasMore
      invariant c.from <= cursor <= |stream| && (hasMore ==> OnPage(c.from, batchSize, cursor))
      invariant State(stats, seen, storage.table) == StateAt(c, cursor)
      invariant storage.checkpoint == if useCheckpoint && cursor > c.from then Some(cursor) else saved
      invariant Trail(c, trail, saved, cursor, Snapshot(storage.table, storage.checkpoint))
      invariant useCheckpoint ==> AllLeftByPasses(c, trail)
      invariant !hasMore ==> cursor == |stream|
      decreases hasMore, |stream| - cursor
    {
      pageCount := pageCount + 1;
      if fetchFails(pageCount) {
        reached, failed := cursor, true;
        EventsAreCounted(c, reached);
        if o.dryRun { DryRunWritesNothing(c, reached); }
        stats := stats.(errors := stats.errors + 1);
        return;
      }
      var pageEnd := Min(cursor + batchSize, |stream|);
      var events := stream[cursor..pageEnd];
      if |events| == 0 {
        hasMore := false;
        break;
      }
      ghost var page := cursor;
      stats, seen, trail := HandlePage(c, events, cursor, stats, seen, storage, useCheckpoint, saved, trail);
      cursor := pageEnd;
      if useCheckpoint {
        trail := SaveCheckpoint(c, page, cursor, storage, saved, trail);
      }
      if |events| < batchSize {
        hasMore := false;
      } else {
        OnPageTransitive(c.from, batchSize, page, cursor);
      }
    }
    reached := cursor;
    EventsAreCounted(c, reached);
    if o.dryRun { DryRunWritesNothing(c, reached); }
  }

  lemma {:induction false} EventsAreCounted(c: Course, reached: nat)
    requires c.from <= reached <= |c.stream|
    ensures StateAt(c, reached).stats.totalEvents == reached - c.from
    decreases reached
  {
    if c.from < reached { EventsAreCounted(c, reached - 1); }
  }

  /** A dry run leaves the table as it was, whatever the stream. */
  lemma {:induction false} DryRunWritesNothing(c: Course, reached: nat)
    requires c.from <= reached <= |c.stream| && c.o.dryRun
    ensures StateAt(c, reached).table == c.before
    decreases reached
  {
    if c.from < reached { DryRunWritesNothing(c, reached - 1); }
  }

  /** Saves the position after the page that started at `page`. */
  method SaveCheckpoint(
    c: Course, ghost page: nat, cursor: nat, storage: Storage, ghost saved: Option<nat>, ghost trail0: seq<Snapshot>)
    returns (ghost trail: seq<Snapshot>)
    requires Sound(c) && c.from <= page < cursor <= |c.stream| && OnPage(c.from, c.batchSize, page)
    requires cursor == Min(page + c.batchSize, |c.stream|) && storage.table == StateAt(c, cursor).table
    requires AllLeftByPasses(c, trail0)
    requires Trail(c, trail0, saved, cursor, Snapshot(storage.table, storage.checkpoint))
    modifies storage
    ensures storage.checkpoint == Some(cursor) && storage.table == old(storage.table)
    ensures AllLeftByPasses(c, trail) && Trail(c, trail, saved, cursor, Snapshot(storage.table, storage.checkpoint))
  {
    storage.checkpoint := Some(cursor);
    ghost var left := Snapshot(storage.table, storage.checkpoint);
    TrailGoesOn(c, page, cursor, true, trail0, left);
    trail := trail0 + [left];
  }

  /** The inner loop, over the page that starts at `cursor`. */
  method HandlePage(
    c: Course, events: seq<ChainEvent>, cursor: nat, stats0: Stats, seen0: set<string>, storage: Storage,
    ghost useCheckpoint: bool, ghost saved: Option<nat>, ghost trail0: seq<Snapshot>)
    returns (stats: Stats, seen: set<string>, ghost trail: seq<Snapshot>)
    requires Sound(c) && c.from <= cursor && cursor + |events| <= |c.stream| && |events| <= c.batchSize
    requires events == c.stream[cursor..cursor + |events|]
    requires OnPage(c.from, c.batchSize, cursor) && State(stats0, seen0, storage.table) == StateAt(c, cursor)
    requires Trail(c, trail0, saved, cursor, Snapshot(storage.table, storage.checkpoint))
    requires useCheckpoint ==> AllLeftByPasses(c, trail0) && StartCursor(c.origin, true, storage.checkpoint) == cursor
    modifies storage
    ensures State(stats, seen, storage.table) == StateAt(c, cursor + |events|)
    ensures storage.checkpoint == old(storage.checkpoint)
    ensures Trail(c, trail, saved, cursor + |events|, Snapshot(storage.table, storage.checkpoint))
    ensures useCheckpoint ==> AllLeftByPasses(c, trail)
  {
    stats, seen, trail := stats0, seen0, trail0;
    for i := 0 to |events|
      invariant State(stats, seen, storage.table) == StateAt(c, cursor + i)
      invariant storage.checkpoint == old(storage.checkpoint)
      invariant Trail(c, trail, saved, cursor + i, Snapshot(storage.table, storage.checkpoint))
      invariant useCheckpoint ==> AllLeftByPasses(c, trail)
    {
      assert events[i] == c.stream[cursor + i];
      stats, seen := HandleEvent(c.o, events[i], c.dbFails(cursor + i), stats, seen, storage);
      ghost var left := Snapshot(storage.table, storage.checkpoint);
      if useCheckpoint {
        TrailGoesOn(c, cursor, cursor + i + 1, false, trail, left);
      }
      trail := trail + [left];
    }
  }

  /** The event parses, belongs to the business asked for, if any, and its id has not been seen. */
  predicate Fresh(o: Options, event: ChainEvent, seen: set<string>) {
    && event.parse.Parsed?
    && (o.businessId == None || o.businessId == Some("") || o.businessId == Some(event.parse.event.business))
    && event.parse.event.business + ":" + event.parse.event.period !in seen
  }

  /** The body of the inner loop. */
  method HandleEvent(o: Options, event: ChainEvent, dbFails: bool, stats0: Stats, seen0: set<string>, storage: Storage)
    returns (stats: Stats, seen: set<string>)
    modifies storage
    ensures State(stats, seen, storage.table) == ProcessOne(o, State(stats0, seen0, old(storage.table)), event, dbFails)
    ensures storage.checkpoint == old(storage.checkpoint)
    ensures !event.inSuccessfulContractCall ==>
              stats == stats0.(totalEvents := stats0.totalEvents + 1) && seen == seen0
    ensures event.inSuccessfulContractCall && event.parse.Threw? ==>
              stats == stats0.(totalEvents := stats0.totalEvents + 1, errors := stats0.errors + 1) && seen == seen0
    ensures event.inSuccessfulContractCall && !event.parse.Threw? && !Fresh(o, event, seen0) ==>
              stats == stats0.(totalEvents := stats0.totalEvents + 1, skipped := stats0.skipped + 1) && seen == seen0
    ensures !(event.inSuccessfulContractCall && Fresh(o, event, seen0)) || o.dryRun || dbFails ==>
              storage.table == old(storage.table)
    ensures event.inSuccessfulContractCall && Fresh(o, event, seen0) ==>
              var p := event.parse.event;
              var old0 := old(storage.table);
              var existed := (p.business, p.period) in old0 && old0[(p.business, p.period)].version > 0;
              && seen == seen0 + {p.business + ":" + p.period}
              && (!o.dryRun && !dbFails ==>
                    storage.table == old0[(p.business, p.period) := Row(
                      p.merkleRoot, p.txHash,
                      if (p.business, p.period) in old0 then old0[(p.business, p.period)].version + 1 else 1)])
              && var t := stats0.(
                   totalEvents := stats0.totalEvents + 1, uniqueAttestations := stats0.uniqueAttestations + 1);
                 stats == if !o.dryRun && dbFails then t.(errors := t.errors + 1)
                          else if o.dryRun || !existed then t.(created := t.created + 1)
                          else t.(updated := t.updated + 1)
  {
    stats, seen := stats0.(totalEvents := stats0.totalEvents + 1), seen0;
    if !event.inSuccessfulContractCall { return; }
    match event.parse
    case Threw =>
      stats := stats.(errors := stats.errors + 1);
    case Unparsable =>
      stats := stats.(skipped := stats.skipped + 1);
    case Parsed(parsed) =>
      if !ShouldProcess(o, parsed) {
        stats := stats.(skipped := stats.skipped + 1);
        return;
      }
      var attestationId := BuildAttestationId(parsed.business, parsed.period);
      if attestationId in seen {
        stats := stats.(skipped := stats.skipped + 1);
        return;
      }
      seen := seen + {attestationId};
      stats := stats.(uniqueAttestations := stats.uniqueAttestations + 1);
      if o.dryRun {
        stats := stats.(created := stats.created + 1);
      } else if dbFails {
        stats := stats.(errors := stats.errors + 1);
      } else {
        storage.table := Upserted(storage.table, parsed);
        if storage.table[KeyOf(parsed)].version == 1 {
          stats := stats.(created := stats.created + 1);
        } else {
          stats := stats.(updated := stats.updated + 1);
        }
      }
  }

  // ----- conservation -----

  function Unsuccessful(stream: seq<ChainEvent>, a: nat, b: nat): nat
    requires a <= b <= |stream|
  {
    if a == b then 0
    else Unsuccessful(stream, a, b - 1) + (if stream[b - 1].inSuccessfulContractCall then 0 else 1)
  }

  /** Every event is counted once, and only by events of failed calls does the total exceed the outcomes. */
  lemma {:induction false} StatsAddUp(
    o: Options, s: State, stream: seq<ChainEvent>, dbFails: nat -> bool, a: nat, b: nat)
    requires a <= b <= |stream| && s.stats == NoStats && s.seen == {}
    ensures var f := Fold(o, s, stream, dbFails, a, b);
            && f.stats.totalEvents == b - a
            && f.stats.created + f.stats.updated + f.stats.skipped + f.stats.errors
               == b - a - Unsuccessful(stream, a, b)
            && f.stats.uniqueAttestations == |f.seen|
    decreases b
  {
    if a < b { StatsAddUp(o, s, stream, dbFails, a, b - 1); }
  }

  // ----- crash and resume -----

  /** The first position from p on holding an eligible event with this id, or the length. */
  function First(o: Options, stream: seq<ChainEvent>, p: nat, id: string): (j: nat)
    requires p <= |stream|
    ensures p <= j <= |stream|
    ensures j < |stream| ==> Eligible(o, stream[j]) && IdOf(stream[j].parse.event) == id
    ensures forall i :: p <= i < j && Eligible(o, stream[i]) ==> IdOf(stream[i].parse.event) != id
    decreases |stream| - p
  {
    if p == |stream| || (Eligible(o, stream[p]) && IdOf(stream[p].parse.event) == id) then p
    else First(o, stream, p + 1, id)
  }

  /** What a row says about an attestation; the version counts writes and is not compared. */
  function View(table: Table, key: Key): Option<(string, string)> {
    if key in table then Some((table[key].merkleRoot, table[key].txHash)) else None
  }

  function Payload(e: ParsedEvent): Option<(string, string)> { Some((e.merkleRoot, e.txHash)) }

  function Never(): nat -> bool { i => false }

  /** The table after a run handled events a..b-1, starting with nothing seen. */
  function RunTable(
    o: Options, table: Table, stream: seq<ChainEvent>, dbFails: nat -> bool, a: nat, b: nat): Table
    requires a <= b <= |stream|
  {
    Fold(o, State(NoStats, {}, table), stream, dbFails, a, b).table
  }

  /** The same when every upsert succeeds. */
  function PassTable(o: Options, table: Table, stream: seq<ChainEvent>, a: nat, b: nat): Table
    requires a <= b <= |stream|
  {
    RunTable(o, table, stream, Never(), a, b)
  }

  lemma {:induction false} SeenSoFar(
    o: Options, table: Table, stream: seq<ChainEvent>, dbFails: nat -> bool, a: nat, b: nat, id: string)
    requires a <= b <= |stream|
    ensures id in Fold(o, State(NoStats, {}, table), stream, dbFails, a, b).seen <==> First(o, stream, a, id) < b
    decreases b
  {
    if a < b {
      SeenSoFar(o, table, stream, dbFails, a, b - 1, id);
    }
  }

  /**
   * A run writes, for each id, its first eligible event if that upsert succeeds, and
   * nothing else: where it fails the row stays, though later events repeat the id.
   */
  lemma {:induction false} RunWritesFirsts(
    o: Options, table: Table, stream: seq<ChainEvent>, dbFails: nat -> bool, a: nat, b: nat, key: Key)
    requires a <= b <= |stream| && !o.dryRun
    ensures var j := First(o, stream, a, BuildAttestationId(key.0, key.1));
            View(RunTable(o, table, stream, dbFails, a, b), key) ==
            (if j < b && KeyOf(stream[j].parse.event) == key && !dbFails(j)
             then Payload(stream[j].parse.event) else View(table, key))
    decreases b
  {
    if a < b {
      RunWritesFirsts(o, table, stream, dbFails, a, b - 1, key);
      var e := stream[b - 1];
      if Eligible(o, e) {
        SeenSoFar(o, table, stream, dbFails, a, b - 1, IdOf(e.parse.event));
      }
    }
  }

  /** A row whose id no eligible event carries stays as it is, version included. */
  lemma {:induction false} RowUntouched(
    o: Options, table: Table, stream: seq<ChainEvent>, dbFails: nat -> bool, a: nat, b: nat, key: Key)
    requires a <= b <= |stream| && First(o, stream, a, BuildAttestationId(key.0, key.1)) >= b
    ensures var t := RunTable(o, table, stream, dbFails, a, b);
            (key in t <==> key in table) && (key in t ==> t[key] == table[key])
    decreases b
  {
    if a < b { RowUntouched(o, table, stream, dbFails, a, b - 1, key); }
  }

  /** With a business asked for, no other business's attestation is touched. */
  lemma OtherBusinessesUntouched(
    o: Options, table: Table, stream: seq<ChainEvent>, dbFails: nat -> bool, a: nat, b: nat, key: Key)
    requires a <= b <= |stream| && o.businessId.Some? && o.businessId.value != "" && key.0 != o.businessId.value
    ensures View(RunTable(o, table, stream, dbFails, a, b), key) == View(table, key)
  {
    if o.dryRun {
      DryRunWritesNothing(Course(o, stream, dbFails, table, a, 1, a), b);
    } else {
      RunWritesFirsts(o, table, stream, dbFails, a, b, key);
    }
  }

  /** What becomes of an event in a run from a. */
  datatype Outcome = Ignored | Created | Updated | Skipped | Errored

  /** An earlier event of the run, of a successful call and of the business asked for, has the same id. */
  ghost predicate Repeats(o: Options, stream: seq<ChainEvent>, a: nat, i: nat)
    requires i < |stream| && stream[i].parse.Parsed?
  {
    exists j :: a <= j < i && Eligible(o, stream[j])
                && IdOf(stream[j].parse.event) == IdOf(stream[i].parse.event)
  }

  /** Read off the stream, the failing upserts and the starting table alone. */
  ghost function OutcomeOf(
    o: Options, before: Table, stream: seq<ChainEvent>, dbFails: nat -> bool, a: nat, i: nat): Outcome
    requires i < |stream|
  {
    var e := stream[i];
    if !e.inSuccessfulContractCall then Ignored
    else if e.parse.Threw? then Errored
    else if e.parse.Unparsable? then Skipped
    else if o.businessId.Some? && o.businessId.value != "" && e.parse.event.business != o.businessId.value then Skipped
    else if Repeats(o, stream, a, i) then Skipped
    else if o.dryRun then Created
    else if dbFails(i) then Errored
    else if KeyOf(e.parse.event) in before && before[KeyOf(e.parse.event)].version > 0 then Updated
    else Created
  }

  ghost function Tally(
    o: Options, before: Table, stream: seq<ChainEvent>, dbFails: nat -> bool, a: nat, b: nat, kind: Outcome): nat
    requires a <= b <= |stream|
  {
    if a == b then 0
    else Tally(o, before, stream, dbFails, a, b - 1, kind)
         + (if OutcomeOf(o, before, stream, dbFails, a, b - 1) == kind then 1 else 0)
  }

  /** Each counter is the number of events with its outcome, for every stream and starting table. */
  lemma {:induction false} StatsAreExact(
    o: Options, before: Table, stream: seq<ChainEvent>, dbFails: nat -> bool, a: nat, b: nat)
    requires a <= b <= |stream|
    ensures var stats := Fold(o, State(NoStats, {}, before), stream, dbFails, a, b).stats;
            && stats.created == Tally(o, before, stream, dbFails, a, b, Created)
            && stats.updated == Tally(o, before, stream, dbFails, a, b, Updated)
            && stats.skipped == Tally(o, before, stream, dbFails, a, b, Skipped)
            && stats.errors == Tally(o, before, stream, dbFails, a, b, Errored)
    decreases b
  {
    if a < b {
      StatsAreExact(o, before, stream, dbFails, a, b - 1);
      OutcomeShows(o, before, stream, dbFails, a, b - 1);
    }
  }

  /** One event changes exactly the counter of its outcome. */
  lemma OutcomeShows(o: Options, before: Table, stream: seq<ChainEvent>, dbFails: nat -> bool, a: nat, i: nat)
    requires a <= i < |stream|
    ensures var s := Fold(o, State(NoStats, {}, before), stream, dbFails, a, i);
            var t, kind := ProcessOne(o, s, stream[i], dbFails(i)).stats, OutcomeOf(o, before, stream, dbFails, a, i);
            && t.created == s.stats.created + (if kind == Created then 1 else 0)
            && t.updated == s.stats.updated + (if kind == Updated then 1 else 0)
            && t.skipped == s.stats.skipped + (if kind == Skipped then 1 else 0)
            && t.errors == s.stats.errors + (if kind == Errored then 1 else 0)
  {
    var e := stream[i];
    if Eligible(o, e) {
      var id := IdOf(e.parse.event);
      SeenSoFar(o, before, stream, dbFails, a, i, id);
      assert Repeats(o, stream, a, i) <==> First(o, stream, a, id) < i;
      if !Repeats(o, stream, a, i) {
        RowUntouched(o, before, stream, dbFails, a, i, KeyOf(e.parse.event));
      }
    }
  }

  /** One pass writes, for each id, its first eligible event and nothing else. */
  lemma PassWritesFirsts(o: Options, table: Table, stream: seq<ChainEvent>, a: nat, b: nat, key: Key)
    requires a <= b <= |stream| && !o.dryRun
    ensures var j := First(o, stream, a, BuildAttestationId(key.0, key.1));
            View(PassTable(o, table, stream, a, b), key) ==
            (if j < b && KeyOf(stream[j].parse.event) == key then Payload(stream[j].parse.event) else View(table, key))
  {
    RunWritesFirsts(o, table, stream, Never(), a, b, key);
  }

  /**
   * Among non-empty texts, the only ones parsing accepts, the id determines business
   * and period exactly when no colon stands after the first character of the business
   * or before the last one of the period.
   */
  lemma IdIsExactIff(business: string, period: string)
    requires business != "" && period != ""
    ensures (forall b, p :: b != "" && p != "" && BuildAttestationId(b, p) == BuildAttestationId(business, period)
                            ==> b == business && p == period)
       <==> Free(business[1..], ':') && Free(period[..|period| - 1], ':')
  {
    if Free(business[1..], ':') && Free(period[..|period| - 1], ':') {
      forall b, p | b != "" && p != "" && BuildAttestationId(b, p) == BuildAttestationId(business, period)
        ensures b == business && p == period
      {
        SameSplit(business, period, b, p);
      }
    } else if !Free(business[1..], ':') {
      var t :| 1 <= t < |business| && business[1..][t - 1] == ':';
      OtherSplit(business, period, t);
    } else {
      var t :| 0 <= t < |period| - 1 && period[..|period| - 1][t] == ':';
      OtherSplit(business, period, |business| + 1 + t);
    }
  }

  /** A colon of the id that is not its first or last character splits it into two non-empty texts. */
  lemma OtherSplit(business: string, period: string, t: nat)
    requires business != "" && period != "" && t != |business|
    requires var id := BuildAttestationId(business, period); 1 <= t < |id| - 1 && id[t] == ':'
    ensures exists b, p :: b != "" && p != "" && BuildAttestationId(b, p) == BuildAttestationId(business, period)
                           && !(b == business && p == period)
  {
    var id := BuildAttestationId(business, period);
    var b, p := id[..t], id[t + 1..];
    assert BuildAttestationId(b, p) == id && |b| != |business|;
  }

  lemma SameSplit(business: string, period: string, b: string, p: string)
    requires business != "" && period != "" && b != "" && p != ""
    requires BuildAttestationId(b, p) == BuildAttestationId(business, period)
    requires Free(business[1..], ':') && Free(period[..|period| - 1], ':')
    ensures b == business && p == period
  {
    var id, n, t := BuildAttestationId(business, period), |business|, |b|;
    assert id[n] == ':' && id[t] == ':' && t < |id| - 1;
    assert forall i :: 1 <= i < n ==> id[i] == business[1..][i - 1];
    assert forall i :: n < i < |id| - 1 ==> id[i] == period[..|period| - 1][i - n - 1];
    assert t == n;
    assert b == id[..n] == business && p == id[n + 1..] == period;
  }

  /** A run into an empty table gives every eligible attestation a row exactly when no two of them share an id. */
  lemma EveryAttestationGetsRowIff(o: Options, stream: seq<ChainEvent>, a: nat)
    requires a <= |stream| && !o.dryRun
    ensures (forall i :: a <= i < |stream| && Eligible(o, stream[i]) ==>
               KeyOf(stream[i].parse.event) in PassTable(o, map[], stream, a, |stream|))
       <==> (forall i, j :: a <= i < |stream| && a <= j < |stream| && Eligible(o, stream[i]) && Eligible(o, stream[j])
                            && IdOf(stream[i].parse.event) == IdOf(stream[j].parse.event)
                            ==> KeyOf(stream[i].parse.event) == KeyOf(stream[j].parse.event))
  {
    forall i | a <= i < |stream| && Eligible(o, stream[i])
      ensures var e := stream[i].parse.event;
              var j := First(o, stream, a, IdOf(e));
              && j < |stream|
              && (KeyOf(e) in PassTable(o, map[], stream, a, |stream|) <==> KeyOf(stream[j].parse.event) == KeyOf(e))
    {
      PassWritesFirsts(o, map[], stream, a, |stream|, KeyOf(stream[i].parse.event));
    }
  }

  /** A crash history from checkpoint c that ends with a run reaching the end of the stream. */
  ghost predicate History(batchSize: nat, n: nat, c: nat, passes: seq<Pass>)
    requires batchSize >= 1 && c <= n
    decreases |passes|
  {
    && passes != [] && c <= passes[0].end <= n
    && (if |passes| == 1 then passes[0].end == n
        else History(batchSize, n, NextCheckpoint(batchSize, n, c, passes[0]), passes[1..]))
  }

  function ResumedTable(
    o: Options, table: Table, stream: seq<ChainEvent>, batchSize: nat, c: nat, passes: seq<Pass>): Table
    requires batchSize >= 1 && c <= |stream| && History(batchSize, |stream|, c, passes)
    decreases |passes|
  {
    var after := PassTable(o, table, stream, c, passes[0].end);
    if |passes| == 1 then after
    else ResumedTable(o, after, stream, batchSize, NextCheckpoint(batchSize, |stream|, c, passes[0]), passes[1..])
  }

  ghost predicate Handled(batchSize: nat, n: nat, c: nat, passes: seq<Pass>, i: nat)
    requires batchSize >= 1 && c <= n && History(batchSize, n, c, passes)
    decreases |passes|
  {
    c <= i < passes[0].end ||
    (|passes| > 1 && Handled(batchSize, n, NextCheckpoint(batchSize, n, c, passes[0]), passes[1..], i))
  }

  /** Wherever runs crash, resuming from the saved checkpoint handles every event at least once. */
  lemma {:induction false} EveryEventHandled(batchSize: nat, n: nat, c: nat, passes: seq<Pass>, i: nat)
    requires batchSize >= 1 && c <= i < n && History(batchSize, n, c, passes)
    ensures Handled(batchSize, n, c, passes, i)
    decreases |passes|
  {
    if |passes| > 1 && i >= passes[0].end {
      EveryEventHandled(batchSize, n, NextCheckpoint(batchSize, n, c, passes[0]), passes[1..], i);
    }
  }

  /** A position at which some run can resume. */
  predicate Boundary(origin: nat, batchSize: nat, n: nat, p: nat)
    requires batchSize >= 1
  {
    p == n || OnPage(origin, batchSize, p)
  }

  lemma {:induction false} PageEndOnPage(batchSize: nat, n: nat, c: nat, e: nat)
    requires batchSize >= 1 && c <= e <= n
    ensures PageEnd(batchSize, n, c, e) == n || OnPage(c, batchSize, PageEnd(batchSize, n, c, e))
    ensures c < e ==> OnPage(c, batchSize, PageEndBefore(batchSize, c, e))
    ensures OnPage(c, batchSize, e) ==> PageEnd(batchSize, n, c, e) == e
    decreases e - c
  {
    if c + batchSize <= e { PageEndOnPage(batchSize, n, c + batchSize, e); }
  }

  lemma CheckpointsAreBoundaries(origin: nat, batchSize: nat, n: nat, c: nat, pass: Pass)
    requires batchSize >= 1 && origin <= c <= pass.end <= n && Boundary(origin, batchSize, n, c)
    ensures Boundary(origin, batchSize, n, NextCheckpoint(batchSize, n, c, pass))
  {
    var p := NextCheckpoint(batchSize, n, c, pass);
    PageEndOnPage(batchSize, n, c, pass.end);
    if c < n && p < n { OnPageTransitive(origin, batchSize, c, p); }
  }

  /**
   * From every page boundary on, the first event of each attestation id is the one
   * the whole stream starts with; something the stream alone decides.
   */
  ghost predicate FirstsAgree(o: Options, stream: seq<ChainEvent>, origin: nat, batchSize: nat)
    requires batchSize >= 1 && origin <= |stream|
  {
    forall p: nat, id: string ::
      p <= |stream| && Boundary(origin, batchSize, |stream|, p) && First(o, stream, p, id) < |stream| && origin <= p ==>
      stream[First(o, stream, p, id)].parse == stream[First(o, stream, origin, id)].parse
  }

  /** What the table holds once events origin..m-1 have been handled by whatever passes. */
  ghost predicate HoldsFirsts(o: Options, before: Table, table: Table, stream: seq<ChainEvent>, origin: nat, m: nat)
    requires origin <= m <= |stream|
  {
    forall key: Key :: View(table, key) == Expected(o, before, stream, origin, m, key)
  }

  function Expected(
    o: Options, before: Table, stream: seq<ChainEvent>, origin: nat, m: nat, key: Key): Option<(string, string)>
    requires origin <= m <= |stream|
  {
    var j := First(o, stream, origin, BuildAttestationId(key.0, key.1));
    if j < m && KeyOf(stream[j].parse.event) == key then Payload(stream[j].parse.event) else View(before, key)
  }

  lemma FirstFromLater(o: Options, stream: seq<ChainEvent>, a: nat, c: nat, id: string)
    requires a <= c <= |stream|
    ensures First(o, stream, a, id) >= c ==> First(o, stream, c, id) == First(o, stream, a, id)
    ensures First(o, stream, c, id) < |stream| ==> First(o, stream, a, id) < |stream|
  {
  }

  lemma PassKeepsFirsts(
    o: Options, before: Table, table: Table, stream: seq<ChainEvent>, origin: nat, batchSize: nat,
    c: nat, m: nat, e: nat)
    requires batchSize >= 1 && origin <= c <= m <= |stream| && c <= e <= |stream| && !o.dryRun
    requires FirstsAgree(o, stream, origin, batchSize) && Boundary(origin, batchSize, |stream|, c)
    requires HoldsFirsts(o, before, table, stream, origin, m)
    ensures HoldsFirsts(o, before, PassTable(o, table, stream, c, e), stream, origin, Max(m, e))
  {
    forall key: Key
      ensures View(PassTable(o, table, stream, c, e), key) == Expected(o, before, stream, origin, Max(m, e), key)
    {
      var id := BuildAttestationId(key.0, key.1);
      PassWritesFirsts(o, table, stream, c, e, key);
      FirstFromLater(o, stream, origin, c, id);
      assert View(table, key) == Expected(o, before, stream, origin, m, key);
    }
  }

  lemma {:induction false} HistoryHoldsFirsts(
    o: Options, before: Table, table: Table, stream: seq<ChainEvent>, origin: nat, batchSize: nat,
    c: nat, m: nat, passes: seq<Pass>)
    requires batchSize >= 1 && origin <= c <= m <= |stream| && !o.dryRun
    requires FirstsAgree(o, stream, origin, batchSize) && Boundary(origin, batchSize, |stream|, c)
    requires HoldsFirsts(o, before, table, stream, origin, m)
    requires History(batchSize, |stream|, c, passes)
    ensures HoldsFirsts(o, before, ResumedTable(o, table, stream, batchSize, c, passes), stream, origin, |stream|)
    decreases |passes|
  {
    var e := passes[0].end;
    PassKeepsFirsts(o, before, table, stream, origin, batchSize, c, m, e);
    if |passes| > 1 {
      CheckpointsAreBoundaries(origin, batchSize, |stream|, c, passes[0]);
      HistoryHoldsFirsts(
        o, before, PassTable(o, table, stream, c, e), stream, origin, batchSize,
        NextCheckpoint(batchSize, |stream|, c, passes[0]), Max(m, e), passes[1..]);
    }
  }

  /** Every crash history leaves the same attestations as the run that was never interrupted. */
  ghost predicate ResumeIsTransparent(o: Options, stream: seq<ChainEvent>, origin: nat, batchSize: nat)
    requires batchSize >= 1 && origin <= |stream|
  {
    forall table: Table, passes: seq<Pass> :: History(batchSize, |stream|, origin, passes) ==>
      SameAttestations(
        ResumedTable(o, table, stream, batchSize, origin, passes), PassTable(o, table, stream, origin, |stream|))
  }

  ghost predicate SameAttestations(a: Table, b: Table) {
    forall key: Key :: View(a, key) == View(b, key)
  }

  lemma WholePassHoldsFirsts(o: Options, table: Table, stream: seq<ChainEvent>, origin: nat)
    requires origin <= |stream| && !o.dryRun
    ensures HoldsFirsts(o, table, PassTable(o, table, stream, origin, |stream|), stream, origin, |stream|)
    ensures HoldsFirsts(o, table, table, stream, origin, origin)
  {
    forall key: Key
      ensures View(PassTable(o, table, stream, origin, |stream|), key)
           == Expected(o, table, stream, origin, |stream|, key)
    {
      PassWritesFirsts(o, table, stream, origin, |stream|, key);
    }
  }

  /** A stop right after the page ending at p was saved, then a run to the end, writes the later first event. */
  lemma LaterFirstWins(o: Options, stream: seq<ChainEvent>, origin: nat, batchSize: nat, p: nat, id: string)
    requires batchSize >= 1 && origin <= p <= |stream| && !o.dryRun
    requires Boundary(origin, batchSize, |stream|, p) && First(o, stream, p, id) < |stream|
    requires stream[First(o, stream, p, id)].parse != stream[First(o, stream, origin, id)].parse
    ensures !ResumeIsTransparent(o, stream, origin, batchSize)
  {
    var n := |stream|;
    var passes := [Pass(p, true), Pass(n, true)];
    PageEndOnPage(batchSize, n, origin, p);
    assert NextCheckpoint(batchSize, n, origin, passes[0]) == p;
    assert passes[1..] == [Pass(n, true)];
    assert History(batchSize, n, p, passes[1..]);
    assert History(batchSize, n, origin, passes);
    var t1 := PassTable(o, map[], stream, origin, p);
    var resumed := ResumedTable(o, map[], stream, batchSize, origin, passes);
    assert resumed == ResumedTable(o, t1, stream, batchSize, p, passes[1..]) == PassTable(o, t1, stream, p, n);
    var e := stream[First(o, stream, p, id)].parse.event;
    var key := KeyOf(e);
    PassWritesFirsts(o, t1, stream, p, n, key);
    PassWritesFirsts(o, map[], stream, origin, n, key);
    FirstFromLater(o, stream, origin, p, id);
    assert View(resumed, key) == Payload(e);
    assert View(resumed, key) != View(PassTable(o, map[], stream, origin, n), key);
  }

  /**
   * Crashing anywhere and resuming gives the same attestations as an uninterrupted
   * run, for every table and crash history, exactly when from every page boundary
   * on the first event of each id repeats what the stream's first event for it said.
   */
  lemma ResumeTransparentIff(o: Options, stream: seq<ChainEvent>, origin: nat, batchSize: nat)
    requires batchSize >= 1 && origin <= |stream| && !o.dryRun
    ensures ResumeIsTransparent(o, stream, origin, batchSize) <==> FirstsAgree(o, stream, origin, batchSize)
  {
    if FirstsAgree(o, stream, origin, batchSize) {
      forall table: Table, passes: seq<Pass> | History(batchSize, |stream|, origin, passes)
        ensures SameAttestations(
                  ResumedTable(o, table, stream, batchSize, origin, passes),
                  PassTable(o, table, stream, origin, |stream|))
      {
        WholePassHoldsFirsts(o, table, stream, origin);
        HistoryHoldsFirsts(o, table, table, stream, origin, batchSize, origin, origin, passes);
      }
    } else {
      var p: nat, id: string :| p <= |stream| && Boundary(origin, batchSize, |stream|, p)
        && First(o, stream, p, id) < |stream| && origin <= p
        && stream[First(o, stream, p, id)].parse != stream[First(o, stream, origin, id)].parse;
      LaterFirstWins(o, stream, origin, batchSize, p, id);
    }
  }

  /** In particular resuming is safe when each attestation id has at most one eligible event. */
  lemma OneEventPerIdResumes(o: Options, stream: seq<ChainEvent>, origin: nat, batchSize: nat)
    requires batchSize >= 1 && origin <= |stream| && !o.dryRun
    requires forall i, j :: origin <= i < j < |stream| && Eligible(o, stream[i]) && Eligible(o, stream[j])
                            ==> IdOf(stream[i].parse.event) != IdOf(stream[j].parse.event)
    ensures ResumeIsTransparent(o, stream, origin, batchSize)
  {
    forall p: nat, id: string | origin <= p <= |stream| && First(o, stream, p, id) < |stream|
      ensures First(o, stream, p, id) == First(o, stream, origin, id)
    {
      FirstFromLater(o, stream, origin, p, id);
      var i, j := First(o, stream, origin, id), First(o, stream, p, id);
      if i < p { assert i < j; }
    }
    ResumeTransparentIff(o, stream, origin, batchSize);
  }
}
