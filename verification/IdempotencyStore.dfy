/** The bounded in-memory idempotency store, and the timed map it stands for. */
module IdempotencyStore {
  import opened Common

  /** A body is its JSON text. */
  datatype IdempotencyEntry = IdempotencyEntry(status: int, body: string, requestHash: string, createdAt: int)

  datatype Row = Row(entry: IdempotencyEntry, expiresAt: int)

  type Rows = map<string, Row>

  const MAX_MEMORY_STORE_SIZE := 10000

  /** The rows that have not expired. */
  function LiveAt(rows: Rows, now: int): Rows {
    map key | key in rows && now <= rows[key].expiresAt :: rows[key]
  }

  function GetResult(rows: Rows, key: string, now: int): Option<IdempotencyEntry> {
    if key in rows && now <= rows[key].expiresAt then Some(rows[key].entry) else None
  }

  function AfterGet(rows: Rows, key: string, now: int): Rows {
    if key in rows && now > rows[key].expiresAt then rows - {key} else rows
  }

  function AfterSet(rows: Rows, key: string, entry: IdempotencyEntry, ttlMs: int, now: int): Rows {
    var kept := if |rows| >= MAX_MEMORY_STORE_SIZE then LiveAt(rows, now) else rows;
    if |kept| >= MAX_MEMORY_STORE_SIZE then kept else kept[key := Row(entry, now + ttlMs)]
  }

  class InMemoryIdempotencyStore {
    var memoryStore: Rows

    constructor ()
      ensures memoryStore == map[]
    {
      memoryStore := map[];
    }

    method PruneExpired(now: int) returns (evicted: nat)
      modifies this
      ensures memoryStore == LiveAt(old(memoryStore), now)
      ensures evicted == |old(memoryStore)| - |memoryStore|
      ensures forall key :: key in memoryStore <==> key in old(memoryStore) && now <= old(memoryStore)[key].expiresAt
      ensures forall key :: key in memoryStore ==> memoryStore[key] == old(memoryStore)[key]
    {
      evicted := 0;
      var entries := memoryStore.Keys;
      while entries != {}
        invariant entries <= memoryStore.Keys <= old(memoryStore).Keys
        invariant forall k :: k in memoryStore ==> memoryStore[k] == old(memoryStore)[k]
        invariant forall k :: k in old(memoryStore) && k !in entries ==>
                                (k in memoryStore <==> now <= old(memoryStore)[k].expiresAt)
        invariant evicted == |old(memoryStore).Keys| - |memoryStore.Keys|
        decreases entries
      {
        var key :| key in entries;
        if now > memoryStore[key].expiresAt {
          assert (memoryStore - {key}).Keys == memoryStore.Keys - {key};
          memoryStore := memoryStore - {key};
          evicted := evicted + 1;
        }
        entries := entries - {key};
      }
      assert |memoryStore| == |memoryStore.Keys| && |old(memoryStore)| == |old(memoryStore).Keys|;
    }

    method Get(key: string, now: int) returns (entry: Option<IdempotencyEntry>)
      modifies this
      ensures entry == GetResult(old(memoryStore), key, now)
      ensures memoryStore == AfterGet(old(memoryStore), key, now)
      ensures entry.Some? <==> key in old(memoryStore) && now <= old(memoryStore)[key].expiresAt
      ensures entry.Some? ==> entry.value == old(memoryStore)[key].entry && memoryStore == old(memoryStore)
      ensures entry.None? ==> memoryStore == old(memoryStore) - {key}
    {
      if key !in memoryStore { return None; }
      var row := memoryStore[key];
      if now > row.expiresAt {
        memoryStore := memoryStore - {key};
        return None;
      }
      return Some(row.entry);
    }

    method Set(key: string, entry: IdempotencyEntry, ttlMs: int, now: int)
      modifies this
      ensures memoryStore == AfterSet(old(memoryStore), key, entry, ttlMs, now)
      ensures |old(memoryStore)| < 10000 ==> memoryStore == old(memoryStore)[key := Row(entry, now + ttlMs)]
      ensures |old(memoryStore)| >= 10000 ==>
                forall k :: k in old(memoryStore) && k != key ==>
                  (k in memoryStore <==> now <= old(memoryStore)[k].expiresAt)
                  && (k in memoryStore ==> memoryStore[k] == old(memoryStore)[k])
      ensures |old(memoryStore)| >= 10000 && |LiveAt(old(memoryStore), now)| < 10000 ==>
                key in memoryStore && memoryStore[key] == Row(entry, now + ttlMs)
    {
      if |memoryStore| >= MAX_MEMORY_STORE_SIZE {
        var evicted := PruneExpired(now);
        if |memoryStore| >= MAX_MEMORY_STORE_SIZE { return; }
      }
      memoryStore := memoryStore[key := Row(entry, now + ttlMs)];
    }

    method Delete(key: string)
      modifies this
      ensures memoryStore == old(memoryStore) - {key}
    {
      memoryStore := memoryStore - {key};
    }

    method Clear()
      modifies this
      ensures memoryStore == map[]
    {
      memoryStore := map[];
    }

    method SweepExpired(now: int) returns (evicted: nat)
      modifies this
      ensures memoryStore == LiveAt(old(memoryStore), now) && evicted == |old(memoryStore)| - |memoryStore|
    {
      evicted := PruneExpired(now);
    }

    method Count() returns (n: nat)
      ensures n == |memoryStore|
    {
      n := |memoryStore|;
    }
  }

  // ----- the timed map -----

  datatype Op =
    | Get(key: string, now: int)
    | Set(key: string, entry: IdempotencyEntry, ttlMs: int, now: int)
    | Delete(key: string, now: int)
    | Clear(now: int)
    | Sweep(now: int)

  function Step(rows: Rows, op: Op): Rows {
    match op
    case Get(key, now) => AfterGet(rows, key, now)
    case Set(key, entry, ttlMs, now) => AfterSet(rows, key, entry, ttlMs, now)
    case Delete(key, _) => rows - {key}
    case Clear(_) => map[]
    case Sweep(now) => LiveAt(rows, now)
  }

  /**
   * What the store should mean: reading and sweeping change nothing; a set is
   * refused exactly when 10000 live rows exist; nothing else removes a row
   * than deleting or clearing it.
   */
  function TimedStep(rows: Rows, op: Op): Rows {
    match op
    case Set(key, entry, ttlMs, now) =>
      if |LiveAt(rows, now)| < MAX_MEMORY_STORE_SIZE then rows[key := Row(entry, now + ttlMs)] else rows
    case Delete(key, _) => rows - {key}
    case Clear(_) => map[]
    case _ => rows
  }

  function After(ops: seq<Op>): Rows {
    if ops == [] then map[] else Step(After(ops[..|ops| - 1]), ops[|ops| - 1])
  }

  function TimedAfter(ops: seq<Op>): Rows {
    if ops == [] then map[] else TimedStep(TimedAfter(ops[..|ops| - 1]), ops[|ops| - 1])
  }

  ghost predicate Monotone(ops: seq<Op>) {
    forall i, j :: 0 <= i < j < |ops| ==> ops[i].now <= ops[j].now
  }

  lemma LiveShrinks(a: Rows, b: Rows, t: int, now: int)
    requires LiveAt(a, t) == LiveAt(b, t) && t <= now
    ensures LiveAt(a, now) == LiveAt(b, now)
  {
    assert LiveAt(a, now) == LiveAt(LiveAt(a, t), now);
    assert LiveAt(b, now) == LiveAt(LiveAt(b, t), now);
  }

  lemma LiveIsNoLarger(rows: Rows, now: int)
    ensures |LiveAt(rows, now)| <= |rows|
  {
    SubsetSize(LiveAt(rows, now).Keys, rows.Keys);
    assert |LiveAt(rows, now).Keys| == |LiveAt(rows, now)|;
  }

  lemma {:induction false} SubsetSize(a: set<string>, b: set<string>)
    requires a <= b
    ensures |a| <= |b|
  {
    if a != {} {
      var x :| x in a;
      SubsetSize(a - {x}, b - {x});
    }
  }

  /** Pruning is only tried on a full store, yet a set succeeds exactly when few enough rows are live. */
  lemma SetKeepsLive(a: Rows, b: Rows, key: string, entry: IdempotencyEntry, ttlMs: int, now: int)
    requires LiveAt(a, now) == LiveAt(b, now)
    ensures LiveAt(AfterSet(a, key, entry, ttlMs, now), now)
         == LiveAt(TimedStep(b, Set(key, entry, ttlMs, now)), now)
  {
    var row, live := Row(entry, now + ttlMs), LiveAt(a, now);
    LiveIsNoLarger(a, now);
    assert LiveAt(live, now) == live;
    if |a| < MAX_MEMORY_STORE_SIZE {
      PutKeepsLive(a, b, key, row, now);
    } else if |live| < MAX_MEMORY_STORE_SIZE {
      PutKeepsLive(live, b, key, row, now);
    }
  }

  lemma StepKeepsLive(a: Rows, b: Rows, op: Op)
    requires LiveAt(a, op.now) == LiveAt(b, op.now)
    ensures LiveAt(Step(a, op), op.now) == LiveAt(TimedStep(b, op), op.now)
  {
    match op {
      case Set(key, entry, ttlMs, now) => SetKeepsLive(a, b, key, entry, ttlMs, now);
      case Get(key, now) => assert LiveAt(AfterGet(a, key, now), now) == LiveAt(a, now);
      case Delete(key, now) => DeleteKeepsLive(a, b, key, now);
      case Clear(now) =>
      case Sweep(now) => assert LiveAt(LiveAt(a, now), now) == LiveAt(a, now);
    }
  }

  lemma DeleteKeepsLive(a: Rows, b: Rows, key: string, now: int)
    requires LiveAt(a, now) == LiveAt(b, now)
    ensures LiveAt(a - {key}, now) == LiveAt(b - {key}, now)
  {
    assert LiveAt(a - {key}, now) == LiveAt(a, now) - {key};
    assert LiveAt(b - {key}, now) == LiveAt(b, now) - {key};
  }

  lemma PutKeepsLive(a: Rows, b: Rows, key: string, row: Row, now: int)
    requires LiveAt(a, now) == LiveAt(b, now)
    ensures LiveAt(a[key := row], now) == LiveAt(b[key := row], now)
  {
    var x, y := LiveAt(a[key := row], now), LiveAt(b[key := row], now);
    forall k ensures (k in x <==> k in y) && (k in x ==> x[k] == y[k]) {
      if k != key {
        assert k in x <==> k in LiveAt(a, now);
        assert k in y <==> k in LiveAt(b, now);
        assert k in LiveAt(a, now) ==> LiveAt(a, now)[k] == LiveAt(b, now)[k];
      }
    }
    assert x.Keys == y.Keys;
  }

  /**
   * In every run under a monotone clock the store answers every later get as the
   * timed map does, so no sweep, prune or lazy deletion is ever observable, and
   * it never holds more than 10000 rows.
   */
  lemma {:induction false} StoreRefinesTimedMap(ops: seq<Op>, key: string, now: int)
    requires Monotone(ops) && (ops != [] ==> ops[|ops| - 1].now <= now)
    ensures GetResult(After(ops), key, now) == GetResult(TimedAfter(ops), key, now)
    ensures |After(ops)| <= MAX_MEMORY_STORE_SIZE
  {
    StoreLiveIsTimedLive(ops, now);
    SizeIsBounded(ops);
    var a, b := After(ops), TimedAfter(ops);
    assert key in LiveAt(a, now) <==> GetResult(a, key, now).Some?;
    assert key in LiveAt(b, now) <==> GetResult(b, key, now).Some?;
    assert key in LiveAt(a, now) ==> LiveAt(a, now)[key] == LiveAt(b, now)[key];
  }

  lemma {:induction false} StoreLiveIsTimedLive(ops: seq<Op>, now: int)
    requires Monotone(ops) && (ops != [] ==> ops[|ops| - 1].now <= now)
    ensures LiveAt(After(ops), now) == LiveAt(TimedAfter(ops), now)
  {
    if ops != [] {
      var front, op := ops[..|ops| - 1], ops[|ops| - 1];
      StoreLiveIsTimedLive(front, op.now);
      StepKeepsLive(After(front), TimedAfter(front), op);
      LiveShrinks(After(ops), TimedAfter(ops), op.now, now);
    }
  }

  lemma {:induction false} SizeIsBounded(ops: seq<Op>)
    ensures |After(ops)| <= MAX_MEMORY_STORE_SIZE
  {
    if ops != [] {
      var rows, op := After(ops[..|ops| - 1]), ops[|ops| - 1];
      SizeIsBounded(ops[..|ops| - 1]);
      match op {
        case Set(key, entry, ttlMs, now) =>
          LiveIsNoLarger(rows, now);
          var kept := if |rows| >= MAX_MEMORY_STORE_SIZE then LiveAt(rows, now) else rows;
          PutSize(kept, key, Row(entry, now + ttlMs));
        case Get(key, now) => DropSize(rows, key);
        case Delete(key, now) => DropSize(rows, key);
        case Clear(now) =>
        case Sweep(now) => LiveIsNoLarger(rows, now);
      }
    }
  }

  lemma PutSize(rows: Rows, key: string, row: Row)
    ensures |rows[key := row]| <= |rows| + 1
  {
    assert rows[key := row].Keys == rows.Keys + {key};
    assert |rows.Keys| == |rows| && |rows[key := row].Keys| == |rows[key := row]|;
  }

  lemma DropSize(rows: Rows, key: string)
    ensures |rows - {key}| <= |rows|
  {
    SubsetSize((rows - {key}).Keys, rows.Keys);
    assert |rows.Keys| == |rows| && |(rows - {key}).Keys| == |rows - {key}|;
  }

  /** The operation leaves the timed map's row for the key alone; a set of the key does when it is refused. */
  predicate Bypasses(rows: Rows, op: Op, key: string) {
    match op
    case Set(k, _, _, now) => k != key || |LiveAt(rows, now)| >= MAX_MEMORY_STORE_SIZE
    case Delete(k, _) => k != key
    case Clear(_) => false
    case _ => true
  }

  /** The latest accepted set of a key, not deleted or cleared since, is what the timed map holds for it. */
  lemma {:induction false} LatestAcceptedSetDecides(ops: seq<Op>, n: nat, key: string)
    requires n < |ops| && ops[n].Set? && ops[n].key == key
    requires |LiveAt(TimedAfter(ops[..n]), ops[n].now)| < MAX_MEMORY_STORE_SIZE
    requires forall i :: n < i < |ops| ==> Bypasses(TimedAfter(ops[..i]), ops[i], key)
    ensures key in TimedAfter(ops) && TimedAfter(ops)[key] == Row(ops[n].entry, ops[n].now + ops[n].ttlMs)
    decreases |ops|
  {
    var front := ops[..|ops| - 1];
    if n < |ops| - 1 {
      assert forall i :: 0 <= i <= |front| ==> front[..i] == ops[..i];
      LatestAcceptedSetDecides(front, n, key);
    } else {
      assert ops[..n] == front;
    }
  }
}
