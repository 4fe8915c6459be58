/** The fixed-window in-memory rate limiter: MemoryStore, its cleanup, and its burst bound. */
module FixedWindow {
  import opened Common

  type Store = map<string, RateLimitRecord>

  function Incremented(store: Store, key: string, windowMs: int, now: int): RateLimitRecord {
    if key !in store || now > store[key].resetTime
    then RateLimitRecord(1, now + windowMs)
    else store[key].(count := store[key].count + 1)
  }

  function Cleaned(store: Store, now: int): Store {
    map key | key in store && now <= store[key].resetTime :: store[key]
  }

  class MemoryStore {
    var store: Store

    constructor ()
      ensures store == map[]
    {
      store := map[];
    }

    method Increment(key: string, windowMs: int, now: int) returns (record: RateLimitRecord)
      modifies this
      ensures record == Incremented(old(store), key, windowMs, now)
      ensures store == old(store)[key := record]
      ensures record == if key in old(store) && now <= old(store)[key].resetTime
                        then RateLimitRecord(old(store)[key].count + 1, old(store)[key].resetTime)
                        else RateLimitRecord(1, now + windowMs)
    {
      if key !in store || now > store[key].resetTime {
        store := store[key := RateLimitRecord(0, now + windowMs)];
      }
      record := store[key].(count := store[key].count + 1);
      store := store[key := record];
    }

    method Cleanup(now: int)
      modifies this
      ensures store == Cleaned(old(store), now)
      ensures forall key :: key in store <==> key in old(store) && now <= old(store)[key].resetTime
      ensures forall key :: key in store ==> store[key] == old(store)[key]
    {
      var entries := store.Keys;
      while entries != {}
        invariant entries <= store.Keys <= old(store).Keys
        invariant forall k :: k in store ==> store[k] == old(store)[k]
        invariant forall k :: k in old(store) && k !in entries ==> (k in store <==> now <= old(store)[k].resetTime)
        decreases entries
      {
        var key :| key in entries;
        if now > store[key].resetTime {
          store := store - {key};
        }
        entries := entries - {key};
      }
    }

    method Reset()
      modifies this
      ensures store == map[]
    {
      store := map[];
    }
  }

  /** The middleware lets a request through unless `count > max`. */
  predicate Admits(record: RateLimitRecord, max: nat) { record.count <= max }

  // ----- runs under a monotone clock -----

  datatype Event =
    | Increment(key: string, windowMs: int, now: int)
    | Cleanup(now: int)

  ghost predicate Monotone(events: seq<Event>, clock: int) {
    events == [] || (clock <= events[0].now && Monotone(events[1..], events[0].now))
  }

  function StoreAfter(store: Store, e: Event): Store {
    match e
    case Increment(key, windowMs, now) => store[key := Incremented(store, key, windowMs, now)]
    case Cleanup(now) => Cleaned(store, now)
  }

  /** The record each increment returns. */
  function Results(store: Store, events: seq<Event>): seq<RateLimitRecord>
    decreases |events|
  {
    if events == [] then []
    else
      var e := events[0];
      (if e.Increment? then [Incremented(store, e.key, e.windowMs, e.now)] else [])
      + Results(StoreAfter(store, e), events[1..])
  }

  function WithoutCleanups(events: seq<Event>): seq<Event> {
    if events == [] then []
    else (if events[0].Increment? then [events[0]] else []) + WithoutCleanups(events[1..])
  }

  function Live(store: Store, key: string, now: int): Option<RateLimitRecord> {
    if key in store && now <= store[key].resetTime then Some(store[key]) else None
  }

  ghost predicate SameLive(a: Store, b: Store, clock: int) {
    forall key :: Live(a, key, clock) == Live(b, key, clock)
  }

  lemma {:induction false} CleanupsUnseen(a: Store, b: Store, events: seq<Event>, clock: int)
    requires SameLive(a, b, clock) && Monotone(events, clock)
    ensures Results(a, events) == Results(b, WithoutCleanups(events))
    decreases |events|
  {
    if events != [] {
      var e := events[0];
      var a' := StoreAfter(a, e);
      assert forall key :: Live(a, key, e.now) == Live(b, key, e.now) by {
        forall key ensures Live(a, key, e.now) == Live(b, key, e.now) {
          assert Live(a, key, clock) == Live(b, key, clock);
        }
      }
      if e.Increment? {
        assert Live(a, e.key, e.now) == Live(b, e.key, e.now);
        assert WithoutCleanups(events)[0] == e && WithoutCleanups(events)[1..] == WithoutCleanups(events[1..]);
        var b' := StoreAfter(b, e);
        assert SameLive(a', b', e.now) by {
          forall key ensures Live(a', key, e.now) == Live(b', key, e.now) {
            assert Live(a, key, e.now) == Live(b, key, e.now);
          }
        }
        CleanupsUnseen(a', b', events[1..], e.now);
      } else {
        assert WithoutCleanups(events) == WithoutCleanups(events[1..]);
        assert SameLive(a', b, e.now) by {
          forall key ensures Live(a', key, e.now) == Live(b, key, e.now) {
            assert Live(a, key, e.now) == Live(b, key, e.now);
          }
        }
        CleanupsUnseen(a', b, events[1..], e.now);
      }
    }
  }

  /** Whenever the background cleanup runs, every count returned is the one returned without it. */
  lemma CleanupNeverChangesACount(store: Store, events: seq<Event>, clock: int)
    requires Monotone(events, clock)
    ensures Results(store, events) == Results(store, WithoutCleanups(events))
  {
    CleanupsUnseen(store, store, events, clock);
  }

  // ----- how many requests a time interval admits -----

  /** The admitted increments of `key` at times in [lo, hi]. */
  function AdmittedIn(store: Store, events: seq<Event>, key: string, max: nat, lo: int, hi: int): nat
    decreases |events|
  {
    if events == [] then 0
    else
      var e := events[0];
      (if e.Increment? && e.key == key && lo <= e.now <= hi && Admits(Incremented(store, key, e.windowMs, e.now), max)
       then 1 else 0)
      + AdmittedIn(StoreAfter(store, e), events[1..], key, max, lo, hi)
  }

  ghost predicate OneWindow(events: seq<Event>, key: string, windowMs: int) {
    forall i :: 0 <= i < |events| && events[i].Increment? && events[i].key == key ==> events[i].windowMs == windowMs
  }

  ghost predicate Counted(store: Store) {
    forall k :: k in store ==> store[k].count >= 1
  }

  lemma {:induction false} NothingAfter(
    store: Store, events: seq<Event>, key: string, max: nat, lo: int, hi: int, clock: int)
    requires Monotone(events, clock) && clock > hi
    ensures AdmittedIn(store, events, key, max, lo, hi) == 0
    decreases |events|
  {
    if events != [] {
      NothingAfter(StoreAfter(store, events[0]), events[1..], key, max, lo, hi, events[0].now);
    }
  }

  /** A window that lasts to the end of the interval admits what its count leaves. */
  lemma {:induction false} RestOfWindow(
    store: Store, events: seq<Event>, key: string, max: nat, lo: int, hi: int, clock: int)
    requires Monotone(events, clock) && key in store && store[key].resetTime >= hi
    ensures AdmittedIn(store, events, key, max, lo, hi) <= Max(0, max - store[key].count)
    decreases |events|
  {
    if events != [] {
      var e := events[0];
      var next := StoreAfter(store, e);
      if e.now > hi {
        NothingAfter(next, events[1..], key, max, lo, hi, e.now);
      } else {
        RestOfWindow(next, events[1..], key, max, lo, hi, e.now);
      }
    }
  }

  /** From inside the interval: what the current window leaves, plus at most one more window. */
  lemma {:induction false} FromInside(
    store: Store, events: seq<Event>, key: string, windowMs: int, max: nat, lo: int, hi: int, clock: int)
    requires Monotone(events, clock) && lo <= clock && OneWindow(events, key, windowMs)
    requires hi - lo <= windowMs || (hi - lo <= windowMs + 1 && key in store && lo <= store[key].resetTime)
    ensures AdmittedIn(store, events, key, max, lo, hi)
         <= max + if key in store then Max(0, max - store[key].count) else 0
    decreases |events|
  {
    if events != [] {
      var e := events[0];
      var next := StoreAfter(store, e);
      assert OneWindow(events[1..], key, windowMs);
      if e.Increment? && e.key == key && (key !in store || e.now > store[key].resetTime) {
        RestOfWindow(next, events[1..], key, max, lo, hi, e.now);
      } else if key in store && key !in next {
        CleanedThenOneWindow(next, events[1..], key, windowMs, max, lo, hi, e.now);
      } else {
        FromInside(next, events[1..], key, windowMs, max, lo, hi, e.now);
      }
    }
  }

  /** With no record for the key and windows reaching to the end of the interval, one window is all. */
  lemma {:induction false} CleanedThenOneWindow(
    store: Store, events: seq<Event>, key: string, windowMs: int, max: nat, lo: int, hi: int, clock: int)
    requires Monotone(events, clock) && OneWindow(events, key, windowMs) && key !in store
    requires hi - clock <= windowMs
    ensures AdmittedIn(store, events, key, max, lo, hi) <= max
    decreases |events|
  {
    if events != [] {
      var e := events[0];
      var next := StoreAfter(store, e);
      assert OneWindow(events[1..], key, windowMs);
      if e.Increment? && e.key == key {
        RestOfWindow(next, events[1..], key, max, lo, hi, e.now);
      } else {
        CleanedThenOneWindow(next, events[1..], key, windowMs, max, lo, hi, e.now);
      }
    }
  }

  /** Over a closed interval of the window's own length one key gets at most 2*max - 1 requests through. */
  lemma {:induction false} BurstBound(
    store: Store, events: seq<Event>, key: string, windowMs: int, max: nat, lo: int, hi: int, clock: int)
    requires Monotone(events, clock) && OneWindow(events, key, windowMs) && Counted(store)
    requires hi - lo <= windowMs
    ensures AdmittedIn(store, events, key, max, lo, hi) <= Max(0, 2 * max - 1)
    decreases |events|
  {
    if events != [] {
      var e := events[0];
      var next := StoreAfter(store, e);
      assert OneWindow(events[1..], key, windowMs);
      if e.now < lo {
        BurstBound(next, events[1..], key, windowMs, max, lo, hi, e.now);
      } else if key in store {
        FromInside(store, events, key, windowMs, max, lo, hi, e.now);
      } else {
        CleanedThenOneWindow(store, events, key, windowMs, max, lo, hi, e.now);
      }
    }
  }

  /** One millisecond more, the span a boundary burst needs, and the bound is 2*max. */
  lemma {:induction false} BoundaryBurstBound(
    store: Store, events: seq<Event>, key: string, windowMs: nat, max: nat, lo: int, hi: int, clock: int)
    requires Monotone(events, clock) && OneWindow(events, key, windowMs) && Counted(store)
    requires hi - lo <= windowMs + 1
    ensures AdmittedIn(store, events, key, max, lo, hi) <= 2 * max
    decreases |events|
  {
    if events != [] {
      var e := events[0];
      var next := StoreAfter(store, e);
      assert OneWindow(events[1..], key, windowMs);
      if e.Increment? && e.key == key && lo <= e.now {
        FromInside(next, events[1..], key, windowMs, max, lo, hi, e.now);
      } else {
        BoundaryBurstBound(next, events[1..], key, windowMs, max, lo, hi, e.now);
      }
    }
  }

  // ----- both bounds are reached -----

  function Burst(key: string, windowMs: int, now: int, n: nat): seq<Event> {
    if n == 0 then [] else [Increment(key, windowMs, now)] + Burst(key, windowMs, now, n - 1)
  }

  /** A burst followed by a later run of one window is such a run. */
  lemma {:induction false} BurstThenRun(key: string, windowMs: int, now: int, n: nat, rest: seq<Event>, clock: int)
    requires clock <= now && Monotone(rest, now) && OneWindow(rest, key, windowMs)
    ensures Monotone(Burst(key, windowMs, now, n) + rest, clock)
    ensures OneWindow(Burst(key, windowMs, now, n) + rest, key, windowMs)
    decreases n
  {
    var all := Burst(key, windowMs, now, n) + rest;
    if n > 0 {
      BurstThenRun(key, windowMs, now, n - 1, rest, now);
      assert all[1..] == Burst(key, windowMs, now, n - 1) + rest;
      assert forall i :: 1 <= i < |all| ==> all[i] == all[1..][i - 1];
    } else {
      assert all == rest;
    }
  }

  lemma {:induction false} BurstInWindow(
    store: Store, key: string, windowMs: int, now: int, n: nat, rest: seq<Event>, max: nat, lo: int, hi: int)
    requires key in store && now <= store[key].resetTime && store[key].count + n <= max && lo <= now <= hi
    ensures AdmittedIn(store, Burst(key, windowMs, now, n) + rest, key, max, lo, hi)
         == n + AdmittedIn(store[key := store[key].(count := store[key].count + n)], rest, key, max, lo, hi)
    decreases n
  {
    var all := Burst(key, windowMs, now, n) + rest;
    if n > 0 {
      assert all[1..] == Burst(key, windowMs, now, n - 1) + rest;
      var next := StoreAfter(store, all[0]);
      BurstInWindow(next, key, windowMs, now, n - 1, rest, max, lo, hi);
      assert next[key := next[key].(count := next[key].count + (n - 1))]
          == store[key := store[key].(count := store[key].count + n)];
    } else {
      assert all == rest && store[key := store[key].(count := store[key].count + 0)] == store;
    }
  }

  /** A burst of n calls that opens a new window. */
  lemma BurstOpensWindow(
    store: Store, key: string, windowMs: nat, now: int, n: nat, rest: seq<Event>, max: nat, lo: int, hi: int)
    requires key !in store || now > store[key].resetTime
    requires 1 <= n <= max && lo <= now <= hi
    ensures AdmittedIn(store, Burst(key, windowMs, now, n) + rest, key, max, lo, hi)
         == n + AdmittedIn(store[key := RateLimitRecord(n, now + windowMs)], rest, key, max, lo, hi)
  {
    var all := Burst(key, windowMs, now, n) + rest;
    assert all[1..] == Burst(key, windowMs, now, n - 1) + rest;
    var next := StoreAfter(store, all[0]);
    BurstInWindow(next, key, windowMs, now, n - 1, rest, max, lo, hi);
    assert next[key := next[key].(count := next[key].count + (n - 1))]
        == store[key := RateLimitRecord(n, now + windowMs)];
  }

  /** A run with max calls on each side of a window boundary: all 2*max pass within windowMs + 1. */
  lemma BoundaryBurstIsReached(key: string, windowMs: nat, max: nat) returns (events: seq<Event>)
    requires max >= 1
    ensures Monotone(events, 0) && OneWindow(events, key, windowMs)
    ensures AdmittedIn(map[], events, key, max, 0, windowMs + 1) == 2 * max
  {
    var second := Burst(key, windowMs, windowMs + 1, max);
    events := Burst(key, windowMs, 0, max) + second;
    assert second + [] == second;
    BurstThenRun(key, windowMs, windowMs + 1, max, [], 0);
    BurstThenRun(key, windowMs, 0, max, second, 0);
    BurstOpensWindow(map[], key, windowMs, 0, max, second, max, 0, windowMs + 1);
    var full: Store := map[key := RateLimitRecord(max, windowMs)];
    BurstOpensWindow(full, key, windowMs, windowMs + 1, max, [], max, 0, windowMs + 1);
  }

  /** A run that opens its window just before the interval: 2*max - 1 requests pass within windowMs. */
  lemma BurstBoundIsReached(key: string, windowMs: nat, max: nat) returns (events: seq<Event>)
    requires max >= 1 && windowMs >= 1
    ensures Monotone(events, 0) && OneWindow(events, key, windowMs)
    ensures AdmittedIn(map[], events, key, max, 1, windowMs + 1) == 2 * max - 1
  {
    var third := Burst(key, windowMs, windowMs + 1, max);
    var second := Burst(key, windowMs, windowMs, max - 1) + third;
    events := [Increment(key, windowMs, 0)] + second;
    assert third + [] == third;
    BurstThenRun(key, windowMs, windowMs + 1, max, [], windowMs);
    BurstThenRun(key, windowMs, windowMs, max - 1, third, 0);
    assert events[1..] == second;
    var begun: Store := map[key := RateLimitRecord(1, windowMs)];
    assert StoreAfter(map[], events[0]) == begun;
    BurstInWindow(begun, key, windowMs, windowMs, max - 1, third, max, 1, windowMs + 1);
    var full: Store := map[key := RateLimitRecord(max, windowMs)];
    assert begun[key := begun[key].(count := begun[key].count + (max - 1))] == full;
    BurstOpensWindow(full, key, windowMs, windowMs + 1, max, [], max, 1, windowMs + 1);
  }
}
