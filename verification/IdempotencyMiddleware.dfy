/** The idempotency middleware over the in-memory store. */
module IdempotencyMiddleware {
  import opened Common
  import opened IdempotencyStore

  const MIN_KEY_LENGTH := 8
  const MAX_KEY_LENGTH := 256

  datatype Options = Options(scope: string, ttlMs: int, strictKeyFormat: bool, sha: string -> string)

  /** `header` is the first idempotency-key header, if any; `body` is the JSON text, empty for a falsy body. */
  datatype Request = Request(skip: bool, header: Option<string>, userKey: string, body: string)

  datatype Decision =
    | Skipped
    | KeyRequired
    | KeyInvalid
    | KeyCollision
    | Replayed(status: int, body: string)
    | Proceed(storeKey: string, requestHash: string)

  /** White space and line terminators, the characters String.prototype.trim removes. */
  predicate White(c: char) {
    c in "\t\n\r " || c as int in {0x0B, 0x0C, 0xA0, 0x1680, 0x2028, 0x2029, 0x202F, 0x205F, 0x3000, 0xFEFF}
    || 0x2000 <= c as int <= 0x200A
  }

  function TrimStart(s: string): string {
    if s != "" && White(s[0]) then TrimStart(s[1..]) else s
  }

  function TrimEnd(s: string): string {
    if s != "" && White(s[|s| - 1]) then TrimEnd(s[..|s| - 1]) else s
  }

  function Trim(s: string): string { TrimEnd(TrimStart(s)) }

  function KeyOf(req: Request): string {
    if req.header.Some? then Trim(req.header.value) else ""
  }

  predicate HexDigit(c: char) { '0' <= c <= '9' || 'a' <= c <= 'f' || 'A' <= c <= 'F' }

  predicate UuidShape(s: string) {
    |s| == 36 &&
    forall i :: 0 <= i < 36 ==> if i == 8 || i == 13 || i == 18 || i == 23 then s[i] == '-' else HexDigit(s[i])
  }

  predicate ValidKeyFormat(key: string, strict: bool) {
    MIN_KEY_LENGTH <= |key| <= MAX_KEY_LENGTH && (strict ==> UuidShape(key))
  }

  predicate TenantChar(c: char) { 'a' <= c <= 'z' || 'A' <= c <= 'Z' || '0' <= c <= '9' || c == '-' || c == '_' }

  predicate TenantShaped(userKey: string) {
    1 <= |userKey| <= 100 && forall i :: 0 <= i < |userKey| ==> TenantChar(userKey[i])
  }

  function TenantTag(userKey: string): string {
    if TenantShaped(userKey) then "{" + userKey + "}" else userKey
  }

  function GenerateStoreKey(scope: string, userKey: string, keyValue: string): string {
    "idempotency:" + scope + ":" + TenantTag(userKey) + ":" + keyValue
  }

  function StoreKeyOf(o: Options, req: Request): string {
    GenerateStoreKey(o.scope, req.userKey, KeyOf(req))
  }

  /** The request gets as far as the store. */
  predicate Reaches(o: Options, req: Request) {
    !req.skip && KeyOf(req) != "" && ValidKeyFormat(KeyOf(req), o.strictKeyFormat)
  }

  function Decide(o: Options, rows: Rows, req: Request, now: int): Decision {
    if req.skip then Skipped
    else if KeyOf(req) == "" then KeyRequired
    else if !Reaches(o, req) then KeyInvalid
    else
      match GetResult(rows, StoreKeyOf(o, req), now)
      case None => Proceed(StoreKeyOf(o, req), o.sha(req.body))
      case Some(cached) =>
        if cached.requestHash != o.sha(req.body) then KeyCollision else Replayed(cached.status, cached.body)
  }

  predicate Cacheable(statusCode: int) { 200 <= statusCode < 300 }

  datatype HandlerCall = SetStatus(code: int) | SendJson(body: string, now: int)

  /** The status in force when call n is made: the last one set before it, 200 at first. */
  function StatusAt(calls: seq<HandlerCall>, n: nat): int
    requires n <= |calls|
  {
    if n == 0 then 200 else if calls[n - 1].SetStatus? then calls[n - 1].code else StatusAt(calls, n - 1)
  }

  /** The store after the first n calls of a handler that was let through. */
  function RowsAfterCalls(
    o: Options, rows: Rows, storeKey: string, requestHash: string, calls: seq<HandlerCall>, n: nat): Rows
    requires n <= |calls|
  {
    if n == 0 then rows
    else
      var before := RowsAfterCalls(o, rows, storeKey, requestHash, calls, n - 1);
      var call := calls[n - 1];
      if call.SendJson? && Cacheable(StatusAt(calls, n - 1))
      then
        var entry := IdempotencyEntry(StatusAt(calls, n - 1), call.body, requestHash, call.now);
        AfterSet(before, storeKey, entry, o.ttlMs, call.now)
      else before
  }

  class Middleware {
    const options: Options
    const store: InMemoryIdempotencyStore

    constructor (options: Options, store: InMemoryIdempotencyStore)
      ensures this.options == options && this.store == store
    {
      this.options := options;
      this.store := store;
    }

    /** The part of the handler up to `next()`. */
    method Before(req: Request, now: int) returns (d: Decision)
      modifies store
      ensures d == Decide(options, old(store.memoryStore), req, now)
      ensures store.memoryStore == if Reaches(options, req)
                                   then AfterGet(old(store.memoryStore), StoreKeyOf(options, req), now)
                                   else old(store.memoryStore)
      ensures d.Skipped? <==> req.skip
      ensures d.KeyRequired? <==> !req.skip && KeyOf(req) == ""
      ensures d.KeyInvalid? <==>
              && !req.skip && KeyOf(req) != ""
              && !(8 <= |KeyOf(req)| <= 256 && (options.strictKeyFormat ==> UuidShape(KeyOf(req))))
      ensures !d.Skipped? && !d.KeyRequired? && !d.KeyInvalid? ==>
                var key := GenerateStoreKey(options.scope, req.userKey, KeyOf(req));
                var live := key in old(store.memoryStore) && now <= old(store.memoryStore)[key].expiresAt;
                && (!live ==> d == Proceed(key, options.sha(req.body)))
                && (live ==>
                      var entry := old(store.memoryStore)[key].entry;
                      d == if entry.requestHash == options.sha(req.body) then Replayed(entry.status, entry.body)
                           else KeyCollision)
    {
      if req.skip { return Skipped; }
      var keyValue := if req.header.Some? then Trim(req.header.value) else "";
      if keyValue == "" { return KeyRequired; }
      if !ValidKeyFormat(keyValue, options.strictKeyFormat) { return KeyInvalid; }
      var storeKey := GenerateStoreKey(options.scope, req.userKey, keyValue);
      var currentRequestHash := options.sha(req.body);
      var cached := store.Get(storeKey, now);
      if cached.Some? {
        if cached.value.requestHash != currentRequestHash { return KeyCollision; }
        return Replayed(cached.value.status, cached.value.body);
      }
      return Proceed(storeKey, currentRequestHash);
    }

    /** The rebound res.status and res.json, driven by the route handler's calls. */
    method RunHandler(storeKey: string, requestHash: string, calls: seq<HandlerCall>)
      modifies store
      ensures store.memoryStore
           == RowsAfterCalls(options, old(store.memoryStore), storeKey, requestHash, calls, |calls|)
    {
      var statusCode := 200;
      for i := 0 to |calls|
        invariant statusCode == StatusAt(calls, i)
        invariant store.memoryStore
               == RowsAfterCalls(options, old(store.memoryStore), storeKey, requestHash, calls, i)
      {
        match calls[i]
        case SetStatus(code) => statusCode := code;
        case SendJson(body, now) =>
          if statusCode >= 200 && statusCode < 300 {
            var entry := IdempotencyEntry(statusCode, body, requestHash, now);
            store.Set(storeKey, entry, options.ttlMs, now);
          }
      }
    }
  }

  /** The status in force is the one set last, 200 if none was. */
  lemma {:induction false} StatusIsLastSet(calls: seq<HandlerCall>, n: nat, last: int)
    requires n <= |calls| && -1 <= last < n && (last >= 0 ==> calls[last].SetStatus?)
    requires forall i :: last < i < n ==> calls[i].SendJson?
    ensures StatusAt(calls, n) == if last < 0 then 200 else calls[last].code
  {
    if last < n - 1 { StatusIsLastSet(calls, n - 1, last); }
  }

  /** Every answer with a 2xx status in force is stored, with that status and its own body; no other call is. */
  lemma EveryAnswerIsStored(
    o: Options, rows: Rows, storeKey: string, requestHash: string, calls: seq<HandlerCall>, n: nat, last: int)
    requires n < |calls| && -1 <= last < n && (last >= 0 ==> calls[last].SetStatus?)
    requires forall i :: last < i < n ==> calls[i].SendJson?
    ensures var status := if last < 0 then 200 else calls[last].code;
            var before := RowsAfterCalls(o, rows, storeKey, requestHash, calls, n);
            RowsAfterCalls(o, rows, storeKey, requestHash, calls, n + 1) ==
            if calls[n].SendJson? && 200 <= status < 300
            then
              var entry := IdempotencyEntry(status, calls[n].body, requestHash, calls[n].now);
              AfterSet(before, storeKey, entry, o.ttlMs, calls[n].now)
            else before
  {
    StatusIsLastSet(calls, n, last);
  }

  /**
   * A handler that answers once, whatever statuses it sets around it, does to the
   * store what one answer of a run does: a 2xx answer is stored with the last status
   * set before it, 200 if none was, its body, and the digest of the request.
   */
  lemma {:induction false} OneAnswer(
    o: Options, rows: Rows, storeKey: string, requestHash: string, calls: seq<HandlerCall>, n: nat, m: nat)
    requires n < m <= |calls| && calls[n].SendJson? && forall i :: 0 <= i < m && i != n ==> calls[i].SetStatus?
    ensures var status := if n == 0 then 200 else calls[n - 1].code;
            RowsAfterCalls(o, rows, storeKey, requestHash, calls, m) ==
            if 200 <= status < 300
            then
              var entry := IdempotencyEntry(status, calls[n].body, requestHash, calls[n].now);
              AfterSet(rows, storeKey, entry, o.ttlMs, calls[n].now)
            else rows
    decreases m
  {
    if m == n + 1 {
      NoAnswerYet(o, rows, storeKey, requestHash, calls, n);
    } else {
      OneAnswer(o, rows, storeKey, requestHash, calls, n, m - 1);
    }
  }

  lemma {:induction false} NoAnswerYet(
    o: Options, rows: Rows, storeKey: string, requestHash: string, calls: seq<HandlerCall>, n: nat)
    requires n <= |calls| && forall i :: 0 <= i < n ==> calls[i].SetStatus?
    ensures RowsAfterCalls(o, rows, storeKey, requestHash, calls, n) == rows
    ensures StatusAt(calls, n) == if n == 0 then 200 else calls[n - 1].code
  {
    if n > 0 { NoAnswerYet(o, rows, storeKey, requestHash, calls, n - 1); }
  }

  // ----- runs -----

  datatype Ticket = Ticket(storeKey: string, requestHash: string)

  /** Requests arrive and their handlers answer in any interleaving; each handler answers at most once. */
  datatype Event =
    | Arrive(id: nat, req: Request, now: int)
    | Send(id: nat, statusCode: int, body: string, now: int)
    | Sweep(now: int)

  datatype World = World(rows: Rows, running: map<nat, Ticket>)

  function Next(o: Options, w: World, e: Event): World {
    match e
    case Arrive(id, req, now) =>
      var d := Decide(o, w.rows, req, now);
      World(
        if Reaches(o, req) then AfterGet(w.rows, StoreKeyOf(o, req), now) else w.rows,
        if d.Proceed? then w.running[id := Ticket(d.storeKey, d.requestHash)] else w.running)
    case Send(id, statusCode, body, now) =>
      if id !in w.running then w
      else
        var t := w.running[id];
        World(
          if Cacheable(statusCode)
          then AfterSet(w.rows, t.storeKey, IdempotencyEntry(statusCode, body, t.requestHash, now), o.ttlMs, now)
          else w.rows,
          w.running - {id})
    case Sweep(now) => w.(rows := LiveAt(w.rows, now))
  }

  function At(o: Options, events: seq<Event>, n: nat): World
    requires n <= |events|
  {
    if n == 0 then World(map[], map[]) else Next(o, At(o, events, n - 1), events[n - 1])
  }

  ghost predicate Monotone(events: seq<Event>) {
    forall i, j :: 0 <= i < j < |events| ==> events[i].now <= events[j].now
  }

  /** The key answers with `entry` until `expiry`, and no request for it is running. */
  ghost predicate Settled(w: World, storeKey: string, row: Row) {
    && storeKey in w.rows && w.rows[storeKey] == row
    && forall id :: id in w.running ==> w.running[id].storeKey != storeKey
  }

  lemma {:induction false} StaysSettled(o: Options, events: seq<Event>, n: nat, m: nat, storeKey: string, row: Row)
    requires Monotone(events) && n <= m < |events| && Settled(At(o, events, n), storeKey, row)
    requires events[m].now <= row.expiresAt
    ensures Settled(At(o, events, m), storeKey, row)
    decreases m
  {
    if n < m {
      assert events[m - 1].now <= events[m].now;
      StaysSettled(o, events, n, m - 1, storeKey, row);
      StepStaysSettled(o, At(o, events, m - 1), events[m - 1], storeKey, row);
    }
  }

  lemma StepStaysSettled(o: Options, w: World, e: Event, storeKey: string, row: Row)
    requires Settled(w, storeKey, row) && e.now <= row.expiresAt
    ensures Settled(Next(o, w, e), storeKey, row)
  {
  }

  /**
   * Once a handler's 2xx response has been stored while no other request for its
   * store key is running, every later request for that key within the TTL is
   * answered from the store without running the handler: with the stored status
   * and body when its body has the same digest, and as a collision otherwise.
   */
  lemma RepeatsAreReplayed(o: Options, events: seq<Event>, n: nat, m: nat)
    requires Monotone(events) && n < m < |events|
    requires var e, w := events[n], At(o, events, n);
             && e.Send? && Cacheable(e.statusCode) && e.id in w.running
             && (forall id :: id in w.running && id != e.id ==> w.running[id].storeKey != w.running[e.id].storeKey)
             && |LiveAt(w.rows, e.now)| < MAX_MEMORY_STORE_SIZE
    requires var e, t := events[n], At(o, events, n).running[events[n].id];
             && events[m].Arrive? && Reaches(o, events[m].req) && StoreKeyOf(o, events[m].req) == t.storeKey
             && events[m].now <= e.now + o.ttlMs
    ensures var e, t := events[n], At(o, events, n).running[events[n].id];
            Decide(o, At(o, events, m).rows, events[m].req, events[m].now) ==
            (if o.sha(events[m].req.body) == t.requestHash then Replayed(e.statusCode, e.body) else KeyCollision)
  {
    var e, w := events[n], At(o, events, n);
    var t := w.running[e.id];
    var row := Row(IdempotencyEntry(e.statusCode, e.body, t.requestHash, e.now), e.now + o.ttlMs);
    assert Settled(At(o, events, n + 1), t.storeKey, row) by {
      assert At(o, events, n + 1) == Next(o, w, e);
      StoringSettles(o, w, e);
    }
    StaysSettled(o, events, n + 1, m, t.storeKey, row);
  }

  /**
   * The same told from the first request on. It opened the store key when its handler
   * was let through, and no other request of its number arrived since; the later
   * request is replayed exactly if its own body has the digest of that first body.
   */
  lemma SameBodyIsReplayed(o: Options, events: seq<Event>, a: nat, n: nat, m: nat)
    requires Monotone(events) && a < n < m < |events|
    requires var first, e, w := events[a], events[n], At(o, events, n);
             && first.Arrive? && Reaches(o, first.req)
             && !Live(At(o, events, a).rows, StoreKeyOf(o, first.req), first.now)
             && e.Send? && e.id == first.id && 200 <= e.statusCode < 300
             && (forall i :: a < i < n ==> !Uses(events[i], e.id))
             && (forall id :: id in w.running && id != e.id ==> w.running[id].storeKey != StoreKeyOf(o, first.req))
             && |LiveAt(w.rows, e.now)| < MAX_MEMORY_STORE_SIZE
    requires var first, e, later := events[a], events[n], events[m];
             && later.Arrive? && Reaches(o, later.req) && StoreKeyOf(o, later.req) == StoreKeyOf(o, first.req)
             && later.now <= e.now + o.ttlMs
    ensures var first, e, later := events[a], events[n], events[m];
            Decide(o, At(o, events, m).rows, later.req, later.now) ==
            if o.sha(later.req.body) == o.sha(first.req.body) then Replayed(e.statusCode, e.body) else KeyCollision
    ensures At(o, events, m + 1).running == At(o, events, m).running
  {
    var first, key := events[a], StoreKeyOf(o, events[a].req);
    assert first.id in At(o, events, n).running
           && At(o, events, n).running[first.id] == Ticket(key, o.sha(first.req.body)) by {
      OpensTicket(o, At(o, events, a), first);
      assert At(o, events, a + 1) == Next(o, At(o, events, a), first);
      TicketStays(o, events, a + 1, n, first.id);
    }
    RepeatsAreReplayed(o, events, n, m);
    assert At(o, events, m + 1) == Next(o, At(o, events, m), events[m]);
  }

  /** A request let through leaves a ticket with its own store key and the digest of its own body. */
  lemma OpensTicket(o: Options, w: World, e: Event)
    requires e.Arrive? && Reaches(o, e.req) && !Live(w.rows, StoreKeyOf(o, e.req), e.now)
    ensures e.id in Next(o, w, e).running
    ensures Next(o, w, e).running[e.id] == Ticket(StoreKeyOf(o, e.req), o.sha(e.req.body))
  {
    NoLiveRowProceeds(o, w.rows, e.req, e.now);
  }

  /** The store has a row for the key that has not expired. */
  predicate Live(rows: Rows, key: string, now: int) { key in rows && now <= rows[key].expiresAt }

  /** A request that reaches the store and finds no live row goes on with its own key and the digest of its own body. */
  lemma NoLiveRowProceeds(o: Options, rows: Rows, req: Request, now: int)
    requires Reaches(o, req) && !Live(rows, GenerateStoreKey(o.scope, req.userKey, KeyOf(req)), now)
    ensures Decide(o, rows, req, now) == Proceed(GenerateStoreKey(o.scope, req.userKey, KeyOf(req)), o.sha(req.body))
  {
  }

  /** The event is the arrival or the answer of the request with this number. */
  predicate Uses(e: Event, id: nat) { (e.Arrive? || e.Send?) && e.id == id }

  /** Nothing but its own answer, or a request that takes its number, touches a ticket. */
  lemma {:induction false} TicketStays(o: Options, events: seq<Event>, a: nat, n: nat, id: nat)
    requires a <= n <= |events| && id in At(o, events, a).running
    requires forall i :: a <= i < n ==> !Uses(events[i], id)
    ensures id in At(o, events, n).running && At(o, events, n).running[id] == At(o, events, a).running[id]
    decreases n
  {
    if a < n {
      TicketStays(o, events, a, n - 1, id);
      assert At(o, events, n) == Next(o, At(o, events, n - 1), events[n - 1]);
    }
  }

  lemma StoringSettles(o: Options, w: World, e: Event)
    requires e.Send? && Cacheable(e.statusCode) && e.id in w.running && |LiveAt(w.rows, e.now)| < MAX_MEMORY_STORE_SIZE
    requires forall id :: id in w.running && id != e.id ==> w.running[id].storeKey != w.running[e.id].storeKey
    ensures Settled(Next(o, w, e), w.running[e.id].storeKey,
                    Row(IdempotencyEntry(e.statusCode, e.body, w.running[e.id].requestHash, e.now), e.now + o.ttlMs))
  {
  }

  // ----- store keys of different users -----

  /** The idempotency keys the middleware lets through: trimmed header values of valid format. */
  ghost predicate Usable(key: string, strict: bool) {
    ValidKeyFormat(key, strict) && exists header :: Trim(header) == key
  }

  predicate Trimmed(s: string) { s == "" || (!White(s[0]) && !White(s[|s| - 1])) }

  lemma {:induction false} TrimEndTrims(s: string)
    ensures TrimEnd(s) == "" || !White(TrimEnd(s)[|TrimEnd(s)| - 1])
    ensures TrimEnd(s) <= s
  {
    if s != "" && White(s[|s| - 1]) { TrimEndTrims(s[..|s| - 1]); }
  }

  /** Trimming takes white space off both ends and nothing else. */
  lemma TrimRemovesWhite(s: string) returns (i: nat, j: nat)
    ensures i <= j <= |s| && Trim(s) == s[i..j] && Trimmed(Trim(s))
    ensures forall k :: 0 <= k < i || j <= k < |s| ==> White(s[k])
  {
    var t := TrimStart(s);
    var u := TrimEnd(t);
    TrimStartSuffix(s);
    TrimEndPrefix(t);
    Middle(s, t, u);
    i := |s| - |t|;
    j := i + |u|;
    TrimIsTrimmed(s);
    assert forall k :: j <= k < |s| ==> s[k] == t[k - i];
  }

  lemma Middle(s: string, t: string, u: string)
    requires |u| <= |t| <= |s| && s[|s| - |t|..] == t && t[..|u|] == u
    ensures s[|s| - |t|..|s| - |t| + |u|] == u
    ensures forall k :: |s| - |t| <= k < |s| ==> s[k] == t[k - (|s| - |t|)]
  {
  }

  lemma TrimIsTrimmed(s: string)
    ensures Trimmed(Trim(s))
  {
    TrimStartTrims(s);
    TrimEndTrims(TrimStart(s));
  }

  lemma {:induction false} TrimStartSuffix(s: string)
    ensures |TrimStart(s)| <= |s| && s[|s| - |TrimStart(s)|..] == TrimStart(s)
    ensures forall k :: 0 <= k < |s| - |TrimStart(s)| ==> White(s[k])
  {
    if s != "" && White(s[0]) {
      TrimStartSuffix(s[1..]);
      assert forall k :: 1 <= k < |s| ==> s[k] == s[1..][k - 1];
    }
  }

  lemma {:induction false} TrimEndPrefix(s: string)
    ensures |TrimEnd(s)| <= |s| && s[..|TrimEnd(s)|] == TrimEnd(s)
    ensures forall k :: |TrimEnd(s)| <= k < |s| ==> White(s[k])
  {
    if s != "" && White(s[|s| - 1]) {
      TrimEndPrefix(s[..|s| - 1]);
      assert forall k :: 0 <= k < |s| - 1 ==> s[k] == s[..|s| - 1][k];
    }
  }

  lemma {:induction false} TrimStartTrims(s: string)
    ensures TrimStart(s) == "" || !White(TrimStart(s)[0])
  {
    if s != "" && White(s[0]) { TrimStartTrims(s[1..]); }
  }

  /** Trimming yields exactly the strings without white space at either end. */
  lemma UsableIffTrimmed(key: string, strict: bool)
    ensures Usable(key, strict) <==> ValidKeyFormat(key, strict) && Trimmed(key)
  {
    if Trimmed(key) {
      assert Trim(key) == key;
    }
    forall header | Trim(header) == key ensures Trimmed(key) {
      TrimIsTrimmed(header);
    }
  }

  /** Users are kept apart: no two keys the middleware lets through give them the same store key. */
  ghost predicate Isolated(scope: string, u: string, v: string, strict: bool) {
    forall k, l :: Usable(k, strict) && Usable(l, strict) ==>
      GenerateStoreKey(scope, u, k) != GenerateStoreKey(scope, v, l)
  }

  lemma SharedKey(scope: string, u: string, k: string, v: string, l: string, strict: bool)
    requires ValidKeyFormat(k, strict) && ValidKeyFormat(l, strict) && Trimmed(k) && Trimmed(l)
    requires TenantTag(u) + ":" + k == TenantTag(v) + ":" + l
    ensures !Isolated(scope, u, v, strict)
  {
    UsableIffTrimmed(k, strict);
    UsableIffTrimmed(l, strict);
    EqualStoreKeys(scope, u, k, v, l);
  }

  lemma StoreKeySuffix(scope: string, u: string, k: string)
    ensures GenerateStoreKey(scope, u, k) == ("idempotency:" + scope + ":") + (TenantTag(u) + ":" + k)
  {
  }

  /** The layout of a store key; a tenant-shaped user is put in braces. */
  lemma StoreKeyLayout(scope: string, u: string, k: string)
    ensures TenantShaped(u) ==> GenerateStoreKey(scope, u, k) == "idempotency:" + scope + ":{" + u + "}:" + k
    ensures !TenantShaped(u) ==> GenerateStoreKey(scope, u, k) == "idempotency:" + scope + ":" + u + ":" + k
  {
    if TenantShaped(u) {
      assert "idempotency:" + scope + ":" + ("{" + u + "}") + ":" + k == "idempotency:" + scope + ":{" + u + "}:" + k;
    }
  }

  predicate AllHex(s: string) { forall i :: 0 <= i < |s| ==> HexDigit(s[i]) }

  /** The strict format: five groups of 8, 4, 4, 4 and 12 hex digits joined by hyphens. */
  lemma UuidShapeIff(s: string)
    ensures UuidShape(s) <==>
            exists a: string, b: string, c: string, d: string, e: string ::
              && |a| == 8 && |b| == |c| == |d| == 4 && |e| == 12
              && AllHex(a) && AllHex(b) && AllHex(c) && AllHex(d) && AllHex(e)
              && s == a + "-" + b + "-" + c + "-" + d + "-" + e
  {
    if UuidShape(s) {
      var a, b, c, d, e := s[..8], s[9..13], s[14..18], s[19..23], s[24..];
      assert s == a + "-" + b + "-" + c + "-" + d + "-" + e;
      assert AllHex(a) && AllHex(b) && AllHex(c) && AllHex(d) && AllHex(e);
    }
  }

  lemma EqualStoreKeys(scope: string, u: string, k: string, v: string, l: string)
    ensures GenerateStoreKey(scope, u, k) == GenerateStoreKey(scope, v, l)
       <==> TenantTag(u) + ":" + k == TenantTag(v) + ":" + l
  {
    var p := "idempotency:" + scope + ":";
    StoreKeySuffix(scope, u, k);
    StoreKeySuffix(scope, v, l);
    assert GenerateStoreKey(scope, u, k)[|p|..] == TenantTag(u) + ":" + k;
    assert GenerateStoreKey(scope, v, l)[|p|..] == TenantTag(v) + ":" + l;
  }

  const SampleUuid := "00000000-0000-0000-0000-000000000000"

  /** With the strict key format users are kept apart exactly when their tags differ. */
  lemma StrictIsolatedIff(scope: string, u: string, v: string)
    ensures Isolated(scope, u, v, true) <==> TenantTag(u) != TenantTag(v)
  {
    var a, b := TenantTag(u) + ":", TenantTag(v) + ":";
    if TenantTag(u) == TenantTag(v) {
      SharedKey(scope, u, SampleUuid, v, SampleUuid, true);
    }
    forall k, l | ValidKeyFormat(k, true) && ValidKeyFormat(l, true)
      && GenerateStoreKey(scope, u, k) == GenerateStoreKey(scope, v, l)
      ensures TenantTag(u) == TenantTag(v)
    {
      EqualStoreKeys(scope, u, k, v, l);
      assert |a| == |b| && (a + k)[..|a| - 1] == TenantTag(u) && (b + l)[..|b| - 1] == TenantTag(v);
    }
  }

  /**
   * The longer tag, with its colon, can be made from the shorter one and the start of
   * a key that is let through: what it adds fits and does not begin with white space.
   */
  predicate Reachable(shorter: string, longer: string) {
    && shorter <= longer && |longer| - |shorter| <= MAX_KEY_LENGTH - MIN_KEY_LENGTH
    && (|shorter| < |longer| ==> !White(longer[|shorter|]))
  }

  /** With the loose key format users are kept apart exactly when neither tag can be completed to the other. */
  lemma LooseIsolatedIff(scope: string, u: string, v: string)
    ensures Isolated(scope, u, v, false) <==>
            !Reachable(TenantTag(u) + ":", TenantTag(v) + ":") && !Reachable(TenantTag(v) + ":", TenantTag(u) + ":")
  {
    if Reachable(TenantTag(u) + ":", TenantTag(v) + ":") {
      CompletedTag(scope, u, v);
    } else if Reachable(TenantTag(v) + ":", TenantTag(u) + ":") {
      CompletedTag(scope, v, u);
      assert !Isolated(scope, u, v, false) by {
        var k, l :| Usable(k, false) && Usable(l, false)
          && GenerateStoreKey(scope, v, k) == GenerateStoreKey(scope, u, l);
      }
    } else {
      forall k, l | Usable(k, false) && Usable(l, false)
        ensures GenerateStoreKey(scope, u, k) != GenerateStoreKey(scope, v, l)
      {
        if GenerateStoreKey(scope, u, k) == GenerateStoreKey(scope, v, l) {
          SharedMeansReachable(scope, u, k, v, l);
        }
      }
    }
  }

  /** A key that completes the first user's tag to the second's, and then goes on as the second's key. */
  lemma CompletedTag(scope: string, u: string, v: string)
    requires Reachable(TenantTag(u) + ":", TenantTag(v) + ":")
    ensures !Isolated(scope, u, v, false)
  {
    var a, b := TenantTag(u) + ":", TenantTag(v) + ":";
    var l := "00000000";
    var k := b[|a|..] + l;
    assert a + k == b + l;
    SharedKey(scope, u, k, v, l, false);
  }

  lemma SharedMeansReachable(scope: string, u: string, k: string, v: string, l: string)
    requires Usable(k, false) && Usable(l, false) && GenerateStoreKey(scope, u, k) == GenerateStoreKey(scope, v, l)
    ensures Reachable(TenantTag(u) + ":", TenantTag(v) + ":") || Reachable(TenantTag(v) + ":", TenantTag(u) + ":")
  {
    var a, b := TenantTag(u) + ":", TenantTag(v) + ":";
    UsableIffTrimmed(k, false);
    UsableIffTrimmed(l, false);
    EqualStoreKeys(scope, u, k, v, l);
    NoCommonExtension(a, b, k, l);
    var s := a + k;
    assert |a| < |b| ==> s[|a|] == k[0] == b[|a|];
    assert |b| < |a| ==> s[|b|] == l[0] == a[|b|];
  }

  lemma NoCommonExtension(a: string, b: string, k: string, l: string)
    requires a + k == b + l
    ensures a <= b || b <= a
  {
    var s := a + k;
    assert a == s[..|a|] && b == (b + l)[..|b|] == s[..|b|];
  }

  /** Tenant identifiers are kept apart, and for one of them the store key determines the idempotency key. */
  lemma TenantsAreIsolated(scope: string, u: string, v: string, k: string, l: string)
    requires TenantShaped(u) && TenantShaped(v)
    ensures GenerateStoreKey(scope, u, k) == GenerateStoreKey(scope, v, l) ==> u == v && k == l
  {
    EqualStoreKeys(scope, u, k, v, l);
    var s, x, y := TenantTag(u) + ":" + k, TenantTag(u), TenantTag(v);
    if s == y + ":" + l {
      assert s[|u| + 1] == '}' && s[|v| + 1] == '}';
      assert forall i :: 0 <= i < |u| ==> s[i + 1] == u[i];
      assert forall i :: 0 <= i < |v| ==> s[i + 1] == v[i];
      assert |u| <= |v| && |v| <= |u| by {
        assert forall i :: 1 <= i < |u| + 1 ==> TenantChar(s[i]);
        assert forall i :: 1 <= i < |v| + 1 ==> TenantChar(s[i]);
      }
      assert u == s[1..|u| + 1] == v;
      assert k == s[|u| + 3..] == l;
    }
  }
}
