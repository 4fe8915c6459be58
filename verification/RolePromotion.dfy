/** The in-memory role-promotion requests and their per-target index. */
module RolePromotion {
  import opened Common
  import opened Sorting

  datatype Status = Pending | Approved | Expired | Rejected

  datatype PromotionRequest = PromotionRequest(
    id: string, targetUserId: string, requestedRole: string, requestedByAdminId: string, status: Status,
    createdAt: int, expiresAt: int, approvedByAdminId: Option<string>, approvedAt: Option<int>)

  datatype Updates = Updates(status: Option<Status>, approvedByAdminId: Option<string>, approvedAt: Option<int>)

  function Either<T>(a: Option<T>, b: Option<T>): Option<T> { if a.Some? then a else b }

  function Updated(r: PromotionRequest, u: Updates): PromotionRequest {
    r.(status := if u.status.Some? then u.status.value else r.status,
    approvedByAdminId := Either(u.approvedByAdminId, r.approvedByAdminId),
    approvedAt := Either(u.approvedAt, r.approvedAt))
  }

  predicate Due(r: PromotionRequest, now: int) { r.status.Pending? && r.expiresAt < now }

  /** What a sweep makes of a request. */
  function Swept(r: PromotionRequest, now: int): PromotionRequest {
    if Due(r, now) then r.(status := Expired) else r
  }

  /** The two module-level maps; `order` is the insertion order of the requests map. */
  datatype Store = Store(
    requests: map<string, PromotionRequest>, order: seq<string>, targetUserIndex: map<string, seq<string>>)

  function Listed(index: map<string, seq<string>>, target: string): seq<string> {
    if target in index then index[target] else []
  }

  function Saved(s: Store, r: PromotionRequest): Store {
    var list := Listed(s.targetUserIndex, r.targetUserId);
    Store(
      s.requests[r.id := r],
      if r.id in s.requests then s.order else s.order + [r.id],
      s.targetUserIndex[r.targetUserId := if r.id in list then list else list + [r.id]])
  }

  function ForTarget(requests: map<string, PromotionRequest>, target: string): string -> bool {
    id => id in requests && requests[id].targetUserId == target
  }

  /** The target's list is the scan of all requests for it. */
  ghost predicate ListIsScan(s: Store, target: string) {
    Listed(s.targetUserIndex, target) == Filter(ForTarget(s.requests, target), s.order)
  }

  /** Each target's list is the scan of all requests for it, each once, in creation order. */
  ghost predicate Indexed(s: Store) {
    && Distinct(s.order) && (forall id :: id in s.order <==> id in s.requests)
    && (forall id :: id in s.requests ==> s.requests[id].id == id)
    && (forall target {:trigger ListIsScan(s, target)} :: ListIsScan(s, target))
  }

  /** A new request, or a new version of one for the same target. */
  predicate Saveable(s: Store, r: PromotionRequest) {
    r.id in s.requests ==> s.requests[r.id].targetUserId == r.targetUserId
  }

  lemma ListAfterSave(s: Store, r: PromotionRequest, target: string)
    requires Indexed(s) && Saveable(s, r)
    ensures ListIsScan(Saved(s, r), target)
  {
    assert ListIsScan(s, target);
    var next := Saved(s, r);
    var list := Listed(s.targetUserIndex, target);
    FilterMembers(ForTarget(s.requests, target), s.order);
    FilterSame(ForTarget(s.requests, target), ForTarget(next.requests, target), s.order);
    if r.id !in s.requests {
      FilterConcat(ForTarget(next.requests, target), s.order, [r.id]);
    }
  }

  lemma SaveKeepsIndexed(s: Store, r: PromotionRequest)
    requires Indexed(s) && Saveable(s, r)
    ensures Indexed(Saved(s, r))
  {
    forall target {
      ListAfterSave(s, r, target);
    }
  }

  /** The pending requests among some ids, in their order: what the lookup computes from a target's list. */
  function PendingAmong(requests: map<string, PromotionRequest>, ids: seq<string>): seq<PromotionRequest> {
    if ids == [] then []
    else
      var id := ids[0];
      (if id in requests && requests[id].status.Pending? then [requests[id]] else []) + PendingAmong(requests, ids[1..])
  }

  /** The same read off all requests, without the index. */
  function PendingScan(
    requests: map<string, PromotionRequest>, order: seq<string>, target: string): seq<PromotionRequest>
  {
    if order == [] then []
    else
      var id := order[0];
      (if id in requests && requests[id].targetUserId == target && requests[id].status.Pending?
       then [requests[id]] else [])
      + PendingScan(requests, order[1..], target)
  }

  lemma {:induction false} LookupEqualsScan(requests: map<string, PromotionRequest>, order: seq<string>, target: string)
    ensures PendingAmong(requests, Filter(ForTarget(requests, target), order)) == PendingScan(requests, order, target)
  {
    if order != [] {
      LookupEqualsScan(requests, order[1..], target);
      var rest := Filter(ForTarget(requests, target), order[1..]);
      assert ([order[0]] + rest)[1..] == rest && [] + rest == rest;
    }
  }

  /** The scan holds exactly the pending requests for the target, each once. */
  lemma {:induction false} ScanMembers(requests: map<string, PromotionRequest>, order: seq<string>, target: string)
    requires Distinct(order) && forall id :: id in requests ==> requests[id].id == id
    ensures var found := PendingScan(requests, order, target);
            && (forall r :: r in found <==> r.id in order && r.id in requests && requests[r.id] == r
                                            && r.targetUserId == target && r.status == Pending)
            && (forall i, j :: 0 <= i < j < |found| ==> found[i].id != found[j].id)
  {
    if order != [] {
      ScanMembers(requests, order[1..], target);
      assert order[0] !in order[1..];
      assert forall id :: id in order <==> id == order[0] || id in order[1..];
      var rest := PendingScan(requests, order[1..], target);
      assert forall i :: 0 <= i < |rest| ==> rest[i] in rest;
    }
  }

  function DueCount(requests: map<string, PromotionRequest>, order: seq<string>, now: int): nat {
    if order == [] then 0
    else (if order[0] in requests && Due(requests[order[0]], now) then 1 else 0) + DueCount(requests, order[1..], now)
  }

  class RolePromotionRequests {
    var requests: map<string, PromotionRequest>
    var order: seq<string>
    var targetUserIndex: map<string, seq<string>>

    function View(): Store
      reads this
    {
      Store(requests, order, targetUserIndex)
    }

    ghost predicate Valid()
      reads this
    {
      Indexed(View())
    }

    constructor ()
      ensures Valid() && View() == Store(map[], [], map[])
    {
      requests, order, targetUserIndex := map[], [], map[];
    }

    method SaveRequest(request: PromotionRequest)
      requires Valid() && Saveable(View(), request)
      modifies this
      ensures Valid() && View() == Saved(old(View()), request)
      ensures requests == old(requests)[request.id := request]
      ensures order == if request.id in old(requests) then old(order) else old(order) + [request.id]
    {
      SaveKeepsIndexed(View(), request);
      if request.id !in requests {
        order := order + [request.id];
      }
      requests := requests[request.id := request];
      if request.targetUserId !in targetUserIndex {
        targetUserIndex := targetUserIndex[request.targetUserId := []];
      }
      var targetUserRequests := targetUserIndex[request.targetUserId];
      if request.id !in targetUserRequests {
        targetUserIndex := targetUserIndex[request.targetUserId := targetUserRequests + [request.id]];
      }
      assert targetUserIndex == Saved(old(View()), request).targetUserIndex;
    }

    method CreateRolePromotionRequest(
      targetUserId: string, requestedRole: string, requestedByAdminId: string, id: string, now: int, ttlMinutes: int)
      returns (request: PromotionRequest)
      requires Valid() && id !in requests
      modifies this
      ensures Valid() && View() == Saved(old(View()), request)
      ensures request == PromotionRequest(id, targetUserId, requestedRole, requestedByAdminId, Pending,
                                          now, now + ttlMinutes * 60 * 1000, None, None)
    {
      var expiresAt := now + ttlMinutes * 60 * 1000;
      request := PromotionRequest(
        id, targetUserId, requestedRole, requestedByAdminId, Pending, now, expiresAt, None, None);
      SaveRequest(request);
    }

    method UpdateRolePromotionRequest(id: string, updates: Updates) returns (request: Option<PromotionRequest>)
      requires Valid()
      modifies this
      ensures Valid() && order == old(order)
      ensures request.Some? <==> id in old(requests)
      ensures requests == if request.Some? then old(requests)[id := request.value] else old(requests)
      ensures request.Some? ==> request.value == Updated(old(requests)[id], updates)
      ensures request.Some? ==>
                var was, got := old(requests)[id], request.value;
                && got.id == was.id && got.targetUserId == was.targetUserId && got.requestedRole == was.requestedRole
                && got.requestedByAdminId == was.requestedByAdminId
                && got.createdAt == was.createdAt && got.expiresAt == was.expiresAt
                && (got.status == if updates.status.Some? then updates.status.value else was.status)
                && (got.approvedByAdminId ==
                    if updates.approvedByAdminId.Some? then updates.approvedByAdminId else was.approvedByAdminId)
                && (got.approvedAt == if updates.approvedAt.Some? then updates.approvedAt else was.approvedAt)
    {
      if id !in requests { return None; }
      var next := Updated(requests[id], updates);
      SaveRequest(next);
      return Some(next);
    }

    /** The index lookup equals scanning all requests by target and status, each once, in creation order. */
    method FindPendingRolePromotionRequestsForTarget(targetUserId: string) returns (found: seq<PromotionRequest>)
      requires Valid()
      ensures found == PendingScan(requests, order, targetUserId)
      ensures forall r :: r in found <==> r.id in requests && requests[r.id] == r
                                          && r.targetUserId == targetUserId && r.status == Pending
      ensures forall i, j :: 0 <= i < j < |found| ==> found[i].id != found[j].id
    {
      assert ListIsScan(View(), targetUserId);
      LookupEqualsScan(requests, order, targetUserId);
      ScanMembers(requests, order, targetUserId);
      var requestIds := Listed(targetUserIndex, targetUserId);
      found := CollectPending(requests, requestIds);
    }

    /** The map and filter over a list of ids. */
    static method CollectPending(requests: map<string, PromotionRequest>, requestIds: seq<string>)
      returns (found: seq<PromotionRequest>)
      ensures found == PendingAmong(requests, requestIds)
    {
      found := [];
      assert requestIds[0..] == requestIds;
      for i := 0 to |requestIds|
        invariant found + PendingAmong(requests, requestIds[i..]) == PendingAmong(requests, requestIds)
      {
        ghost var rest := PendingAmong(requests, requestIds[i + 1..]);
        assert requestIds[i..][1..] == requestIds[i + 1..];
        var id := requestIds[i];
        if id in requests && requests[id].status.Pending? {
          assert found + ([requests[id]] + rest) == found + [requests[id]] + rest;
          found := found + [requests[id]];
        } else {
          assert [] + rest == rest;
        }
      }
    }

    /** Expires exactly the overdue pending requests and counts them; nothing else changes. */
    method SweepExpiredRequests(now: int) returns (count: nat)
      requires Valid()
      modifies this
      ensures Valid() && order == old(order)
      ensures requests == map id | id in old(requests) :: Swept(old(requests)[id], now)
      ensures count == DueCount(old(requests), order, now)
      ensures requests.Keys == old(requests).Keys
      ensures forall id :: id in requests ==>
                var was := old(requests)[id];
                requests[id] == if was.status == Pending && was.expiresAt < now then was.(status := Expired) else was
      ensures count == |set id | id in old(requests) && old(requests)[id].status == Pending
                                 && old(requests)[id].expiresAt < now|
    {
      count := 0;
      var entries := order;
      ghost var before := requests;
      assert entries[0..] == entries;
      for i := 0 to |entries|
        invariant Valid() && order == entries
        invariant SweptUpTo(before, requests, entries, i, now)
        invariant count + DueCount(before, entries[i..], now) == DueCount(before, entries, now)
      {
        DueStep(before, entries, i, now);
        SweptStep(before, requests, entries, i, now);
        var expired := SweepEntry(entries[i], now);
        if expired {
          count := count + 1;
        }
      }
      AllDueAreCounted(before, order, now);
      SweptByFields(before, requests, now);
    }

    /** The body of the sweep's loop. */
    method SweepEntry(id: string, now: int) returns (expired: bool)
      requires Valid() && id in requests
      modifies this
      ensures Valid() && order == old(order)
      ensures requests == old(requests)[id := Swept(old(requests)[id], now)]
      ensures expired <==> Due(old(requests)[id], now)
    {
      var request := requests[id];
      expired := request.status == Pending && request.expiresAt < now;
      if expired {
        var r := UpdateRolePromotionRequest(id, Updates(Some(Expired), None, None));
      }
    }
  }

  /** The first n entries have been swept and the others not yet. */
  ghost predicate SweptUpTo(
    before: map<string, PromotionRequest>, after: map<string, PromotionRequest>, entries: seq<string>, n: nat, now: int)
  {
    && n <= |entries| && after.Keys == before.Keys
    && (forall k :: 0 <= k < |entries| ==> entries[k] in before)
    && (forall id :: id in before ==> id in entries)
    && (forall k :: 0 <= k < |entries| ==>
          after[entries[k]] == if k < n then Swept(before[entries[k]], now) else before[entries[k]])
  }

  lemma SweptStep(
    before: map<string, PromotionRequest>, after: map<string, PromotionRequest>, entries: seq<string>, n: nat, now: int)
    requires SweptUpTo(before, after, entries, n, now) && n < |entries| && Distinct(entries)
    ensures SweptUpTo(before, after[entries[n] := Swept(after[entries[n]], now)], entries, n + 1, now)
    ensures Due(after[entries[n]], now) <==> Due(before[entries[n]], now)
  {
  }

  lemma SweptByFields(before: map<string, PromotionRequest>, after: map<string, PromotionRequest>, now: int)
    requires after.Keys == before.Keys && forall id :: id in before ==> after[id] == Swept(before[id], now)
    ensures forall id :: id in before ==>
              var was := before[id];
              after[id] == if was.status == Pending && was.expiresAt < now then was.(status := Expired) else was
  {
  }

  lemma AllDueAreCounted(requests: map<string, PromotionRequest>, order: seq<string>, now: int)
    requires Distinct(order) && forall id :: id in requests ==> id in order
    ensures DueCount(requests, order, now)
         == |set id | id in requests && requests[id].status == Pending && requests[id].expiresAt < now|
  {
    DueCountIsSize(requests, order, now);
    assert (set id | id in order && id in requests && Due(requests[id], now))
        == (set id | id in requests && requests[id].status == Pending && requests[id].expiresAt < now);
  }

  /** Counting along the creation order counts the overdue requests. */
  lemma {:induction false} DueCountIsSize(requests: map<string, PromotionRequest>, order: seq<string>, now: int)
    requires Distinct(order)
    ensures DueCount(requests, order, now) == |set id | id in order && id in requests && Due(requests[id], now)|
  {
    if order != [] {
      var rest := order[1..];
      DueCountIsSize(requests, rest, now);
      var due := set id | id in rest && id in requests && Due(requests[id], now);
      var all := set id | id in order && id in requests && Due(requests[id], now);
      assert order[0] !in rest && order[0] !in due;
      assert forall id :: id in order <==> id == order[0] || id in rest;
      assert all == if order[0] in requests && Due(requests[order[0]], now) then due + {order[0]} else due;
    }
  }

  lemma DueStep(requests: map<string, PromotionRequest>, order: seq<string>, i: nat, now: int)
    requires i < |order|
    ensures DueCount(requests, order[i..], now) ==
            (if order[i] in requests && Due(requests[order[i]], now) then 1 else 0)
            + DueCount(requests, order[i + 1..], now)
  {
    assert order[i..][1..] == order[i + 1..];
  }
}
