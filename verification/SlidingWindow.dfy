/** The sliding-log in-memory rate limiter and its background cleanup. */
module SlidingWindow {
  import opened Sorting

  type Store = map<string, seq<int>>

  function Newer(cutoff: int): int -> bool { t => t > cutoff }

  function Log(store: Store, key: string): seq<int> {
    if key in store then store[key] else []
  }

  /** The key's log after a call at `now`: what is still in the window, and the call itself. */
  function Logged(store: Store, key: string, windowMs: int, now: int): seq<int> {
    Filter(Newer(now - windowMs), Log(store, key)) + [now]
  }

  function Cleaned(store: Store, windowMs: int, now: int): Store {
    map key | key in store && Filter(Newer(now - windowMs), store[key]) != []
      :: Filter(Newer(now - windowMs), store[key])
  }

  class SlidingWindowMemoryStore {
    var store: Store

    constructor ()
      ensures store == map[]
    {
      store := map[];
    }

    method Increment(key: string, windowMs: int, now: int) returns (count: nat, resetTime: int)
      modifies this
      ensures store == old(store)[key := Logged(old(store), key, windowMs, now)]
      ensures count == |Logged(old(store), key, windowMs, now)| && resetTime == now + windowMs
      ensures key in store && count == |store[key]| > 0 && store[key][count - 1] == now
      ensures forall t :: t in store[key] <==>
                t == now || (key in old(store) && t in old(store)[key] && t > now - windowMs)
    {
      var windowStart := now - windowMs;
      var timestamps := Filter(Newer(windowStart), if key in store then store[key] else []);
      FilterMembers(Newer(windowStart), Log(store, key));
      timestamps := timestamps + [now];
      store := store[key := timestamps];
      count, resetTime := |timestamps|, now + windowMs;
    }

    /** cleanupSlidingStore. */
    method Cleanup(now: int, windowMs: int)
      modifies this
      ensures store == Cleaned(old(store), windowMs, now)
    {
      var cutoff := now - windowMs;
      var entries := store.Keys;
      while entries != {}
        invariant entries <= store.Keys <= old(store).Keys
        invariant forall k :: k in entries ==> store[k] == old(store)[k]
        invariant forall k :: k in old(store) && k !in entries ==>
                                var pruned := Filter(Newer(cutoff), old(store)[k]);
                                if pruned == [] then k !in store else k in store && store[k] == pruned
        decreases entries
      {
        var key :| key in entries;
        var pruned := Filter(Newer(cutoff), store[key]);
        if |pruned| == 0 {
          store := store - {key};
        } else {
          store := store[key := pruned];
        }
        entries := entries - {key};
      }
    }
  }

  /** What a cleanup leaves of a key: the calls inside its window, and no entry if there is none. */
  lemma CleanedByMembers(store: Store, windowMs: int, now: int, key: string)
    ensures var cleaned := Cleaned(store, windowMs, now);
            && (key in cleaned <==> key in store && exists t :: t in store[key] && t > now - windowMs)
            && (key in cleaned ==> forall t :: t in cleaned[key] <==> t in store[key] && t > now - windowMs)
  {
    if key in store {
      KeptIsNonEmpty(store[key], now - windowMs);
    }
  }

  lemma KeptIsNonEmpty(log: seq<int>, cutoff: int)
    ensures forall t :: t in Filter(Newer(cutoff), log) <==> t in log && t > cutoff
    ensures Filter(Newer(cutoff), log) != [] <==> exists t :: t in log && t > cutoff
  {
    var kept := Filter(Newer(cutoff), log);
    FilterMembers(Newer(cutoff), log);
    if kept != [] {
      var t := kept[0];
      assert t in kept;
    }
  }

  // ----- runs under a monotone clock -----

  datatype Event =
    | Increment(key: string, windowMs: int, now: int)
    | Cleanup(windowMs: int, now: int)

  ghost predicate Monotone(events: seq<Event>) {
    forall i, j :: 0 <= i < j < |events| ==> events[i].now <= events[j].now
  }

  function StoreAfter(store: Store, e: Event): Store {
    match e
    case Increment(key, windowMs, now) => store[key := Logged(store, key, windowMs, now)]
    case Cleanup(windowMs, now) => Cleaned(store, windowMs, now)
  }

  /** The store after the first n events, starting empty. */
  function At(events: seq<Event>, n: nat): Store
    requires n <= |events|
  {
    if n == 0 then map[] else StoreAfter(At(events, n - 1), events[n - 1])
  }

  /** The count returned by increment i. */
  function CountOf(events: seq<Event>, i: nat): nat
    requires i < |events| && events[i].Increment?
  {
    |Logged(At(events, i), events[i].key, events[i].windowMs, events[i].now)|
  }

  /** All calls for the key among the first n events, oldest first. */
  function Times(events: seq<Event>, n: nat, key: string): seq<int>
    requires n <= |events|
  {
    if n == 0 then []
    else
      var e := events[n - 1];
      Times(events, n - 1, key) + OwnCall(e, key)
  }

  /** One window per key, and no cleanup cuts deeper than the window of this key. */
  ghost predicate Windows(events: seq<Event>, key: string, windowMs: int) {
    forall i :: 0 <= i < |events| ==>
      if events[i].Increment? then events[i].key == key ==> events[i].windowMs == windowMs
      else events[i].windowMs >= windowMs
  }

  lemma {:induction false} FilterDeeper(a: int, b: int, s: seq<int>)
    requires a <= b
    ensures Filter(Newer(b), Filter(Newer(a), s)) == Filter(Newer(b), s)
  {
    FilterTwice(Newer(a), Newer(b), Newer(b), s);
  }

  /** What one event does to the part of a key's log above a cutoff a later call can ask about. */
  lemma LogStep(store: Store, e: Event, key: string, windowMs: int, cutoff: int)
    requires cutoff >= e.now - windowMs
    requires if e.Increment? then e.key == key ==> e.windowMs == windowMs else e.windowMs >= windowMs
    ensures Filter(Newer(cutoff), Log(StoreAfter(store, e), key))
         == Filter(Newer(cutoff), Log(store, key)) + Filter(Newer(cutoff), OwnCall(e, key))
  {
    var log := Log(store, key);
    if e.Increment? && e.key == key {
      FilterDeeper(e.now - windowMs, cutoff, log);
      FilterConcat(Newer(cutoff), Filter(Newer(e.now - windowMs), log), [e.now]);
    } else if e.Cleanup? {
      FilterDeeper(e.now - e.windowMs, cutoff, log);
    }
  }

  function OwnCall(e: Event, key: string): seq<int> {
    if e.Increment? && e.key == key then [e.now] else []
  }

  /** Above any cutoff a later call can ask about, the stored log is the list of all calls. */
  lemma {:induction false} LogIsComplete(events: seq<Event>, n: nat, key: string, windowMs: int, cutoff: int)
    requires n <= |events| && Monotone(events) && Windows(events, key, windowMs)
    requires n > 0 ==> cutoff >= events[n - 1].now - windowMs
    ensures Filter(Newer(cutoff), Log(At(events, n), key)) == Filter(Newer(cutoff), Times(events, n, key))
  {
    if n > 0 {
      var e := events[n - 1];
      assert n > 1 ==> events[n - 2].now <= e.now;
      LogIsComplete(events, n - 1, key, windowMs, cutoff);
      LogStep(At(events, n - 1), e, key, windowMs, cutoff);
      FilterConcat(Newer(cutoff), Times(events, n - 1, key), OwnCall(e, key));
    }
  }

  /** The calls of `key` among the first n events at times after `cutoff`. */
  function CallsAfter(events: seq<Event>, n: nat, key: string, cutoff: int): nat
    requires n <= |events|
  {
    if n == 0 then 0
    else
      var e := events[n - 1];
      CallsAfter(events, n - 1, key, cutoff) + (if e.Increment? && e.key == key && e.now > cutoff then 1 else 0)
  }

  lemma {:induction false} CallsAreTimes(events: seq<Event>, n: nat, key: string, cutoff: int)
    requires n <= |events|
    ensures CallsAfter(events, n, key, cutoff) == |Filter(Newer(cutoff), Times(events, n, key))|
  {
    if n > 0 {
      var e := events[n - 1];
      CallsAreTimes(events, n - 1, key, cutoff);
      FilterConcat(Newer(cutoff), Times(events, n - 1, key), OwnCall(e, key));
      assert Filter(Newer(cutoff), [e.now]) == if e.now > cutoff then [e.now] else [];
    }
  }

  /**
   * The returned count is exactly one more than the number of earlier calls in
   * (now - windowMs, now], with cleanups and other keys anywhere in between;
   * for a positive window that is the number of calls in the interval.
   */
  lemma CountIsCallsInWindow(events: seq<Event>, i: nat, key: string, windowMs: int)
    requires Monotone(events) && Windows(events, key, windowMs)
    requires i < |events| && events[i].Increment? && events[i].key == key
    ensures CountOf(events, i) == CallsAfter(events, i, key, events[i].now - windowMs) + 1
    ensures windowMs > 0 ==> CountOf(events, i) == CallsAfter(events, i + 1, key, events[i].now - windowMs)
  {
    var cutoff := events[i].now - windowMs;
    var before := At(events, i);
    assert CountOf(events, i) == |Filter(Newer(cutoff), Log(before, key))| + 1 by {
      assert events[i].windowMs == windowMs;
      assert CountOf(events, i) == |Logged(before, key, windowMs, events[i].now)|;
    }
    assert Filter(Newer(cutoff), Log(At(events, i), key)) == Filter(Newer(cutoff), Times(events, i, key)) by {
      assert i > 0 ==> events[i - 1].now <= events[i].now;
      LogIsComplete(events, i, key, windowMs, cutoff);
    }
    CallsAreTimes(events, i, key, cutoff);
  }

  /** The admitted calls of `key` among the first n events at times in (x, x + windowMs]. */
  function AdmittedIn(events: seq<Event>, n: nat, key: string, max: nat, x: int, windowMs: int): nat
    requires n <= |events|
  {
    if n == 0 then 0
    else
      var e := events[n - 1];
      AdmittedIn(events, n - 1, key, max, x, windowMs)
      + (if e.Increment? && e.key == key && x < e.now <= x + windowMs && CountOf(events, n - 1) <= max then 1 else 0)
  }

  /** No interval (x, x + windowMs], wherever it lies, lets more than max requests of a key through. */
  lemma {:induction false} NoWindowExceedsMax(events: seq<Event>, n: nat, key: string, max: nat, x: int, windowMs: int)
    requires n <= |events| && Monotone(events) && Windows(events, key, windowMs)
    ensures AdmittedIn(events, n, key, max, x, windowMs) <= max
  {
    if n > 0 {
      var e := events[n - 1];
      NoWindowExceedsMax(events, n - 1, key, max, x, windowMs);
      if e.Increment? && e.key == key && x < e.now <= x + windowMs && CountOf(events, n - 1) <= max {
        var cutoff := e.now - windowMs;
        assert CallsAfter(events, n - 1, key, cutoff) < max by { CountIsCallsInWindow(events, n - 1, key, windowMs); }
        AdmittedAreCalls(events, n - 1, key, max, x, windowMs, cutoff);
      }
    }
  }

  lemma {:induction false} AdmittedAreCalls(
    events: seq<Event>, n: nat, key: string, max: nat, x: int, windowMs: int, cutoff: int)
    requires n <= |events| && cutoff <= x
    ensures AdmittedIn(events, n, key, max, x, windowMs) <= CallsAfter(events, n, key, cutoff)
  {
    if n > 0 { AdmittedAreCalls(events, n - 1, key, max, x, windowMs, cutoff); }
  }

  // ----- when the background cleanup is harmless -----

  function WithoutCleanups(events: seq<Event>): seq<Event> {
    if events == [] then []
    else (if events[0].Increment? then [events[0]] else []) + WithoutCleanups(events[1..])
  }

  /** The counts a run returns, in order. */
  function Counts(store: Store, events: seq<Event>): seq<nat>
    decreases |events|
  {
    if events == [] then []
    else
      var e := events[0];
      (if e.Increment? then [|Logged(store, e.key, e.windowMs, e.now)|] else [])
      + Counts(StoreAfter(store, e), events[1..])
  }

  /** Runs under a monotone clock in which every limiter uses `windowMs` and every cleanup `cleanupMs`. */
  ghost predicate Uses(events: seq<Event>, windowMs: int, cleanupMs: int) {
    && Monotone(events)
    && forall i :: 0 <= i < |events| ==>
                     events[i].windowMs == if events[i].Increment? then windowMs else cleanupMs
  }

  /** No call at or after `clock` can tell the two stores apart. */
  ghost predicate SameWindow(a: Store, b: Store, windowMs: int, clock: int) {
    forall key, cutoff :: cutoff >= clock - windowMs ==>
      Filter(Newer(cutoff), Log(a, key)) == Filter(Newer(cutoff), Log(b, key))
  }

  lemma {:induction false} CleanupsUnseen(
    a: Store, b: Store, events: seq<Event>, windowMs: int, cleanupMs: int, clock: int)
    requires Uses(events, windowMs, cleanupMs) && windowMs <= cleanupMs
    requires SameWindow(a, b, windowMs, clock) && (events != [] ==> clock <= events[0].now)
    ensures Counts(a, events) == Counts(b, WithoutCleanups(events))
    decreases |events|
  {
    if events != [] {
      var e, rest := events[0], events[1..];
      var a', b' := StoreAfter(a, e), if e.Increment? then StoreAfter(b, e) else b;
      assert Uses(rest, windowMs, cleanupMs);
      forall key, cutoff | cutoff >= e.now - windowMs
        ensures Filter(Newer(cutoff), Log(a', key)) == Filter(Newer(cutoff), Log(b', key))
      {
        LogStep(a, e, key, windowMs, cutoff);
        if e.Increment? { LogStep(b, e, key, windowMs, cutoff); }
      }
      CleanupsUnseen(a', b', rest, windowMs, cleanupMs, e.now);
      if e.Increment? {
        assert Filter(Newer(e.now - windowMs), Log(a, e.key)) == Filter(Newer(e.now - windowMs), Log(b, e.key));
        assert WithoutCleanups(events)[0] == e && WithoutCleanups(events)[1..] == WithoutCleanups(rest);
      } else {
        assert WithoutCleanups(events) == WithoutCleanups(rest);
      }
    }
  }

  ghost predicate CleanupIsHarmless(windowMs: int, cleanupMs: int) {
    forall events: seq<Event> :: Uses(events, windowMs, cleanupMs) ==>
      Counts(map[], events) == Counts(map[], WithoutCleanups(events))
  }

  /**
   * The background cleanup, whenever it runs, leaves every count unchanged
   * exactly when the limiter's window is no longer than the cleanup's.
   */
  lemma CleanupHarmlessIff(windowMs: int, cleanupMs: nat)
    ensures CleanupIsHarmless(windowMs, cleanupMs) <==> windowMs <= cleanupMs
  {
    if windowMs <= cleanupMs {
      forall events: seq<Event> | Uses(events, windowMs, cleanupMs)
        ensures Counts(map[], events) == Counts(map[], WithoutCleanups(events))
      {
        if events != [] {
          CleanupsUnseen(map[], map[], events, windowMs, cleanupMs, events[0].now);
        }
      }
    } else {
      var events := LostCall(windowMs, cleanupMs);
    }
  }

  /** One call, a cleanup just as it leaves the cleanup's window, and a second call inside the limiter's window. */
  lemma LostCall(windowMs: int, cleanupMs: nat) returns (events: seq<Event>)
    requires windowMs > cleanupMs
    ensures Uses(events, windowMs, cleanupMs)
    ensures Counts(map[], events) != Counts(map[], WithoutCleanups(events))
  {
    var first := Increment("k", windowMs, 0);
    var sweep := Cleanup(cleanupMs, cleanupMs);
    var second := Increment("k", windowMs, cleanupMs);
    events := [first, sweep, second];
    assert events[1..] == [sweep, second] && [sweep, second][1..] == [second] && [first, second][1..] == [second];
    assert [second][1..] == [];
    assert WithoutCleanups([second]) == [second];
    assert WithoutCleanups([sweep, second]) == [second];
    assert WithoutCleanups(events) == [first, second];
    var one: Store := map["k" := [0]];
    assert StoreAfter(map[], first) == one by { assert Logged(map[], "k", windowMs, 0) == [0]; }
    assert Counts(map[], events)[1] == 1 by {
      assert Filter(Newer(0), [0]) == [];
      assert StoreAfter(one, sweep) == map[];
      assert Counts(one, [sweep, second]) == [] + Counts(map[], [second]);
      assert Counts(map[], [second])[0] == 1;
    }
    assert Counts(map[], [first, second])[1] == 2 by {
      assert Filter(Newer(cleanupMs - windowMs), [0]) == [0];
      assert Counts(one, [second])[0] == 2;
    }
  }
}
