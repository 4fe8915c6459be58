/**
 * The Redis-backed rate-limit stores: their retry loops against an arbitrary
 * server, and clients racing through WATCH/MULTI/EXEC on one key.
 */
module RedisStores {
  import opened Common
  import opened Sorting
  import SlidingWindow

  datatype RedirectKind = MOVED | ASK

  /** A parsed cluster redirection; (kind, address) is the text the code remembers as visited. */
  datatype Redirect = Redirect(kind: RedirectKind, address: string)

  datatype StoreError =
    | ServerError
    | RedirectError(redirect: Redirect)
    | LoopDetected(address: string)
    | RetriesExceeded

  // ----- RedisStore.increment -----

  /** How one EVAL ends. */
  datatype EvalOutcome = Value(count: int, pttl: int) | EvalRedirected(redirect: Redirect) | EvalFailed

  /**
   * The k-th EVAL sent ends as server(k). At most max(0, maxRedirections) + 1 are
   * sent, no redirection is followed twice, and the last outcome decides the result.
   */
  method EvalIncrement(server: nat -> EvalOutcome, windowMs: int, now: int, maxRedirections: int)
    returns (r: Result<RateLimitRecord, StoreError>, evals: nat)
    ensures 1 <= evals <= Max(0, maxRedirections) + 1
    ensures forall i: nat :: i < evals - 1 ==> server(i).EvalRedirected?
    ensures forall i: nat, j: nat :: i < j < evals - 1 ==> server(i) != server(j)
    ensures r == match server(evals - 1)
                 case Value(count, pttl) => Ok(RateLimitRecord(count, now + if pttl > 0 then pttl else windowMs))
                 case EvalFailed => Err(ServerError)
                 case EvalRedirected(redirect) =>
                   if evals - 1 >= maxRedirections then Err(RedirectError(redirect))
                   else Err(LoopDetected(redirect.address))
    ensures r.Err? && r.error.LoopDetected? ==> exists i: nat :: i < evals - 1 && server(i) == server(evals - 1)
  {
    var redirectionCount := 0;
    var visitedTargets: set<Redirect> := {};
    evals := 0;
    while true
      invariant evals == redirectionCount <= Max(0, maxRedirections)
      invariant forall i: nat :: i < evals ==> server(i).EvalRedirected? && server(i).redirect in visitedTargets
      invariant forall t :: t in visitedTargets ==> exists i: nat :: i < evals && server(i) == EvalRedirected(t)
      invariant forall i: nat, j: nat :: i < j < evals ==> server(i) != server(j)
      decreases Max(0, maxRedirections) - redirectionCount
    {
      var outcome := server(evals);
      evals := evals + 1;
      match outcome
      case Value(count, pttl) =>
        var remainingTtl := if pttl > 0 then pttl else windowMs;
        return Ok(RateLimitRecord(count, now + remainingTtl)), evals;
      case EvalFailed =>
        return Err(ServerError), evals;
      case EvalRedirected(redirect) =>
        if redirectionCount < maxRedirections {
          redirectionCount := redirectionCount + 1;
          if redirect in visitedTargets {
            return Err(LoopDetected(redirect.address)), evals;
          }
          visitedTargets := visitedTargets + {redirect};
        } else {
          return Err(RedirectError(redirect)), evals;
        }
    }
  }

  // ----- SlidingWindowRedisStore.increment -----

  /** How one WATCH/MULTI/EXEC attempt ends. */
  datatype ExecOutcome = Committed(count: int) | Aborted | ExecRedirected(redirect: Redirect) | ExecFailed

  /** The redirections followed in the first n attempts: the first `max` of them. */
  ghost function Followed(server: nat -> ExecOutcome, n: nat, max: int): seq<Redirect> {
    if n == 0 then []
    else
      var before := Followed(server, n - 1, max);
      if server(n - 1).ExecRedirected? && |before| < max then before + [server(n - 1).redirect] else before
  }

  /** Each of the first n attempts leads on to another one. */
  ghost predicate GoesOn(server: nat -> ExecOutcome, n: nat, maxRetries: int, maxRedirections: int) {
    forall i: nat :: i < n ==> AttemptGoesOn(server, i, maxRetries, maxRedirections)
  }

  /** Attempt i is followed by another: not a commit, and either a new redirection followed or a retry left. */
  ghost predicate AttemptGoesOn(server: nat -> ExecOutcome, i: nat, maxRetries: int, maxRedirections: int) {
    var followed := Followed(server, i, maxRedirections);
    && !server(i).Committed?
    && if server(i).ExecRedirected? && |followed| < maxRedirections then server(i).redirect !in followed
       else i < maxRetries + |followed|
  }

  /**
   * The k-th attempt ends as server(k). Although a redirection gives its attempt
   * back, at most maxRetries + 1 + maxRedirections attempts are made. `tries` is the
   * first that does not lead on to another, and it alone decides the result.
   */
  method ExecIncrement(server: nat -> ExecOutcome, windowMs: int, now: int, maxRetries: int, maxRedirections: int)
    returns (r: Result<RateLimitRecord, StoreError>, tries: nat)
    ensures tries <= Max(0, maxRetries + 1) + Max(0, maxRedirections)
    ensures tries == 0 <==> maxRetries < 0
    ensures tries > 0 ==> GoesOn(server, tries - 1, maxRetries, maxRedirections)
                          && !AttemptGoesOn(server, tries - 1, maxRetries, maxRedirections)
    ensures Distinct(Followed(server, Max(0, tries - 1), maxRedirections))
    ensures r == if tries == 0 then Err(RetriesExceeded)
                 else
                   match server(tries - 1)
                   case Committed(count) => Ok(RateLimitRecord(count, now + windowMs))
                   case Aborted => Err(RetriesExceeded)
                   case ExecFailed => Err(ServerError)
                   case ExecRedirected(redirect) =>
                     if |Followed(server, tries - 1, maxRedirections)| < maxRedirections
                     then Err(LoopDetected(redirect.address)) else Err(RedirectError(redirect))
  {
    var redirectionCount := 0;
    var visitedTargets: set<Redirect> := {};
    tries := 0;
    var attempt := 0;
    while attempt <= maxRetries
      invariant 0 <= attempt <= Max(0, maxRetries + 1)
      invariant redirectionCount == |Followed(server, tries, maxRedirections)| <= Max(0, maxRedirections)
      invariant tries == attempt + redirectionCount && (maxRetries < 0 ==> tries == 0)
      invariant forall t :: t in Followed(server, tries, maxRedirections) <==> t in visitedTargets
      invariant Distinct(Followed(server, tries, maxRedirections))
      invariant attempt <= maxRetries ==> GoesOn(server, tries, maxRetries, maxRedirections)
      invariant attempt > maxRetries >= 0 ==>
                  && tries > 0 && server(tries - 1).Aborted? && GoesOn(server, tries - 1, maxRetries, maxRedirections)
                  && !AttemptGoesOn(server, tries - 1, maxRetries, maxRedirections)
                  && Distinct(Followed(server, tries - 1, maxRedirections))
      decreases Max(0, maxRedirections) - redirectionCount, maxRetries - attempt
    {
      var outcome := server(tries);
      tries := tries + 1;
      if outcome.Committed? {
        return Ok(RateLimitRecord(outcome.count, now + windowMs)), tries;
      }
      if !outcome.Aborted? {
        if outcome.ExecRedirected? && redirectionCount < maxRedirections {
          redirectionCount := redirectionCount + 1;
          if outcome.redirect in visitedTargets {
            return Err(LoopDetected(outcome.redirect.address)), tries;
          }
          visitedTargets := visitedTargets + {outcome.redirect};
          attempt := attempt - 1;
        } else if attempt == maxRetries {
          return Err(if outcome.ExecRedirected? then RedirectError(outcome.redirect) else ServerError), tries;
        }
      }
      attempt := attempt + 1;
    }
    return Err(RetriesExceeded), tries;
  }

  // ----- clients racing on one key -----

  /** A sorted-set member is unique to a call, so it is named by the call; its score is the call's timestamp. */
  datatype Member = Member(call: nat, score: nat)

  function NewerMember(cutoff: int): Member -> bool { (m: Member) => m.score > cutoff }

  predicate HasCall(zset: seq<Member>, call: nat) { exists m :: m in zset && m.call == call }

  /** The transaction: ZREMRANGEBYSCORE 0 (now - windowMs), ZADD, and the members ZCARD then counts. */
  function Transact(zset: seq<Member>, call: nat, now: nat, windowMs: int): seq<Member> {
    var pruned := Filter(NewerMember(now - windowMs), zset);
    if HasCall(pruned, call) then pruned else pruned + [Member(call, now)]
  }

  datatype Phase = Ready | Watching | Returned(count: nat) | GaveUp

  /** One increment in progress; `lost` counts its committed attempts whose reply never arrived. */
  datatype Client = Client(now: nat, windowMs: int, phase: Phase, lost: nat)

  datatype Commit = Commit(call: nat, now: nat, windowMs: int, count: nat)

  datatype World = World(zset: seq<Member>, clients: map<nat, Client>, commits: seq<Commit>)

  /**
   * Whether an EXEC aborts is left open. A watch belongs to the connection, which the
   * calls of a process share: another call's EXEC drops it, so that a call may commit
   * although the key changed since its own WATCH, and may abort although it did not.
   */
  datatype Step =
    | Begin(call: nat, now: nat, windowMs: int)
    | Watch(call: nat)
    | Exec(call: nat, aborted: bool, replyLost: bool)
    | ErrorBeforeExec(call: nat)
    | GiveUp(call: nat)

  function SetPhase(w: World, call: nat, phase: Phase): World
    requires call in w.clients
  {
    w.(clients := w.clients[call := w.clients[call].(phase := phase)])
  }

  function Commits(w: World, call: nat): World
    requires call in w.clients
  {
    var c := w.clients[call];
    var zset := Transact(w.zset, call, c.now, c.windowMs);
    w.(zset := zset, commits := w.commits + [Commit(call, c.now, c.windowMs, |zset|)])
  }

  /** A driver without WATCH goes straight from Ready to EXEC. */
  predicate Attempting(c: Client) { c.phase.Ready? || c.phase.Watching? }

  /** A step that is not enabled leaves the world as it is. */
  function Apply(w: World, s: Step): World {
    if s.Begin? then
      if s.call in w.clients then w
      else w.(clients := w.clients[s.call := Client(s.now, s.windowMs, Ready, 0)])
    else if s.call !in w.clients then w
    else
      var c := w.clients[s.call];
      match s
      case Begin(_, _, _) => w
      case Watch(call) => if c.phase.Ready? then SetPhase(w, call, Watching) else w
      case Exec(call, aborted, replyLost) =>
        if !Attempting(c) then w
        else if aborted then SetPhase(w, call, Ready)
        else
          var done := Commits(w, call);
          if replyLost then done.(clients := done.clients[call := c.(phase := Ready, lost := c.lost + 1)])
          else SetPhase(done, call, Returned(|done.zset|))
      case ErrorBeforeExec(call) => if Attempting(c) then SetPhase(w, call, Ready) else w
      case GiveUp(call) => if Attempting(c) then SetPhase(w, call, GaveUp) else w
  }

  const Start := World([], map[], [])

  function After(steps: seq<Step>): World {
    if steps == [] then Start else Apply(After(steps[..|steps| - 1]), steps[|steps| - 1])
  }

  function CommitsOf(commits: seq<Commit>, call: nat): nat {
    if commits == [] then 0
    else CommitsOf(commits[..|commits| - 1], call) + (if commits[|commits| - 1].call == call then 1 else 0)
  }

  /** A call has committed once per lost reply, and once more if it returned. */
  ghost predicate CommitsAddUp(w: World) {
    && (forall call :: call !in w.clients ==> CommitsOf(w.commits, call) == 0)
    && (forall call :: call in w.clients ==>
          CommitsOf(w.commits, call) == w.clients[call].lost + (if w.clients[call].phase.Returned? then 1 else 0))
  }

  /** A returned client reports the count of a commit of its own. */
  ghost predicate CountsReported(w: World) {
    forall call :: call in w.clients && w.clients[call].phase.Returned? ==>
      var c := w.clients[call]; Commit(call, c.now, c.windowMs, c.phase.count) in w.commits
  }

  ghost predicate DistinctCalls(zset: seq<Member>) {
    forall i, j :: 0 <= i < j < |zset| ==> zset[i].call != zset[j].call
  }

  /** Every member belongs to a call that committed, with that call's timestamp; one member per call. */
  ghost predicate MembersAreCommitted(w: World) {
    && DistinctCalls(w.zset)
    && forall m :: m in w.zset ==>
         CommitsOf(w.commits, m.call) > 0 && m.call in w.clients && m.score == w.clients[m.call].now
  }

  ghost predicate Accounted(w: World) {
    CommitsAddUp(w) && CountsReported(w) && MembersAreCommitted(w)
  }

  lemma CommitsOfLast(commits: seq<Commit>, k: Commit, call: nat)
    ensures CommitsOf(commits + [k], call) == CommitsOf(commits, call) + (if k.call == call then 1 else 0)
  {
    assert (commits + [k])[..|commits|] == commits;
  }

  lemma {:induction false} FilterKeepsCallsApart(zset: seq<Member>, cutoff: int)
    requires DistinctCalls(zset)
    ensures DistinctCalls(Filter(NewerMember(cutoff), zset))
  {
    if zset != [] {
      FilterKeepsCallsApart(zset[1..], cutoff);
      FilterMembers(NewerMember(cutoff), zset[1..]);
      var f := Filter(NewerMember(cutoff), zset[1..]);
      forall j | 0 <= j < |f| ensures f[j].call != zset[0].call {
        assert f[j] in zset[1..];
      }
    }
  }

  lemma AppendKeepsCallsApart(zset: seq<Member>, m: Member)
    requires DistinctCalls(zset) && !HasCall(zset, m.call)
    ensures DistinctCalls(zset + [m])
  {
    forall i | 0 <= i < |zset| ensures zset[i].call != m.call {
      assert zset[i] in zset;
    }
  }

  lemma TransactMembers(zset: seq<Member>, call: nat, now: nat, windowMs: int)
    requires DistinctCalls(zset)
    ensures DistinctCalls(Transact(zset, call, now, windowMs))
    ensures forall m :: m in Transact(zset, call, now, windowMs) ==> m in zset || m == Member(call, now)
  {
    var pruned := Filter(NewerMember(now - windowMs), zset);
    FilterMembers(NewerMember(now - windowMs), zset);
    FilterKeepsCallsApart(zset, now - windowMs);
    if !HasCall(pruned, call) {
      AppendKeepsCallsApart(pruned, Member(call, now));
    }
  }

  ghost predicate CommitEnabled(w: World, s: Step) {
    s.Exec? && !s.aborted && s.call in w.clients && Attempting(w.clients[s.call])
  }

  /** The shape of the world after a committing step. */
  lemma CommitShape(w: World, s: Step) returns (k: Commit)
    requires CommitEnabled(w, s)
    ensures var c, w' := w.clients[s.call], Apply(w, s);
            && k == Commit(s.call, c.now, c.windowMs, |w'.zset|)
            && w'.zset == Transact(w.zset, s.call, c.now, c.windowMs)
            && w'.commits == w.commits + [k]
            && w'.clients == w.clients[s.call := if s.replyLost then c.(phase := Ready, lost := c.lost + 1)
                                                 else c.(phase := Returned(|w'.zset|))]
  {
    var c := w.clients[s.call];
    k := Commit(s.call, c.now, c.windowMs, |Apply(w, s).zset|);
  }

  lemma CommitStepAccounted(w: World, s: Step)
    requires Accounted(w) && CommitEnabled(w, s)
    ensures Accounted(Apply(w, s))
  {
    var w' := Apply(w, s);
    var c := w.clients[s.call];
    var k := CommitShape(w, s);
    forall call ensures CommitsOf(w'.commits, call) == CommitsOf(w.commits, call) + (if call == s.call then 1 else 0) {
      CommitsOfLast(w.commits, k, call);
    }
    TransactMembers(w.zset, s.call, c.now, c.windowMs);
    assert k in w'.commits;
    assert forall x :: x in w.commits ==> x in w'.commits;
    assert CommitsAddUp(w');
    assert CountsReported(w');
    assert MembersAreCommitted(w');
  }

  /**
   * On every interleaving: an increment that returned has committed once, plus once
   * per lost reply; one that has not returned only for lost replies, so an aborted
   * attempt adds nothing; and the set holds at most one member per call.
   */
  lemma {:induction false} EveryCallIsAccounted(steps: seq<Step>)
    ensures Accounted(After(steps))
  {
    if steps != [] {
      var w, s := After(steps[..|steps| - 1]), steps[|steps| - 1];
      EveryCallIsAccounted(steps[..|steps| - 1]);
      if CommitEnabled(w, s) {
        CommitStepAccounted(w, s);
      } else {
        OtherStepAccounted(w, s);
      }
    }
  }

  lemma OtherStepAccounted(w: World, s: Step)
    requires Accounted(w) && !CommitEnabled(w, s)
    ensures Accounted(Apply(w, s))
  {
    var w' := Apply(w, s);
    OtherStepsWriteNothing(w, s);
    assert MembersAreCommitted(w');
    assert CountsReported(w');
    assert CommitsAddUp(w');
  }

  /**
   * From every reachable state, a new call that watches and executes without abort or
   * loss returns at once, with one more than the members still in its window.
   */
  lemma UncontendedCallReturns(steps: seq<Step>, call: nat, now: nat, windowMs: int)
    requires call !in After(steps).clients
    ensures var w := After(steps);
            var done := After(steps + [Begin(call, now, windowMs), Watch(call), Exec(call, false, false)]);
            var kept := Filter(NewerMember(now - windowMs), w.zset);
            && done.zset == kept + [Member(call, now)]
            && done.commits == w.commits + [Commit(call, now, windowMs, |kept| + 1)]
            && done.clients == w.clients[call := Client(now, windowMs, Returned(|kept| + 1), 0)]
  {
    var begun, watched := steps + [Begin(call, now, windowMs)], steps + [Begin(call, now, windowMs), Watch(call)];
    var executed := steps + [Begin(call, now, windowMs), Watch(call), Exec(call, false, false)];
    AfterOneMore(steps, Begin(call, now, windowMs));
    assert begun + [Watch(call)] == watched && watched + [Exec(call, false, false)] == executed;
    AfterOneMore(begun, Watch(call));
    AfterOneMore(watched, Exec(call, false, false));
    EveryCallIsAccounted(steps);
    UncontendedInWorld(After(steps), call, now, windowMs);
  }

  lemma AfterOneMore(steps: seq<Step>, s: Step)
    ensures After(steps + [s]) == Apply(After(steps), s)
  {
    assert (steps + [s])[..|steps|] == steps;
  }

  lemma UncontendedInWorld(w: World, call: nat, now: nat, windowMs: int)
    requires call !in w.clients && MembersAreCommitted(w)
    ensures var done := Apply(Apply(Apply(w, Begin(call, now, windowMs)), Watch(call)), Exec(call, false, false));
            var kept := Filter(NewerMember(now - windowMs), w.zset);
            && done.zset == kept + [Member(call, now)]
            && done.commits == w.commits + [Commit(call, now, windowMs, |kept| + 1)]
            && done.clients == w.clients[call := Client(now, windowMs, Returned(|kept| + 1), 0)]
  {
    var watching := Client(now, windowMs, Watching, 0);
    var w' := w.(clients := w.clients[call := watching]);
    assert Apply(Apply(w, Begin(call, now, windowMs)), Watch(call)) == w';
    FilterMembers(NewerMember(now - windowMs), w.zset);
    assert !HasCall(Filter(NewerMember(now - windowMs), w.zset), call);
    var done := Apply(w', Exec(call, false, false));
    assert done.clients == w.clients[call := Client(now, windowMs, Returned(|done.zset|), 0)];
  }

  // ----- the commit sequence, replayed on the in-memory store -----

  function Scores(zset: seq<Member>): seq<int> {
    if zset == [] then [] else [zset[0].score] + Scores(zset[1..])
  }

  lemma {:induction false} ScoresOfFilter(zset: seq<Member>, cutoff: int)
    ensures Scores(Filter(NewerMember(cutoff), zset)) == Filter(SlidingWindow.Newer(cutoff), Scores(zset))
    ensures |Scores(zset)| == |zset|
  {
    if zset != [] {
      ScoresOfFilter(zset[1..], cutoff);
      assert Scores(zset)[1..] == Scores(zset[1..]);
      var f := Filter(NewerMember(cutoff), zset[1..]);
      if zset[0].score > cutoff {
        assert ([zset[0]] + f)[1..] == f;
      } else {
        assert [] + f == f;
      }
    }
  }

  lemma {:induction false} ScoresAppend(zset: seq<Member>, m: Member)
    ensures Scores(zset + [m]) == Scores(zset) + [m.score]
  {
    if zset == [] {
      assert [m][1..] == [];
    } else {
      assert (zset + [m])[1..] == zset[1..] + [m];
      ScoresAppend(zset[1..], m);
    }
  }

  /** The commits as calls on the in-memory sliding store, in commit order. */
  function AsCalls(key: string, commits: seq<Commit>): seq<SlidingWindow.Event> {
    seq(|commits|, i requires 0 <= i < |commits| =>
          SlidingWindow.Increment(key, commits[i].windowMs, commits[i].now))
  }

  ghost predicate NoLostReplies(w: World) {
    forall call :: call in w.clients ==> w.clients[call].lost == 0
  }

  lemma {:induction false} SamePrefixSameStore(a: seq<SlidingWindow.Event>, b: seq<SlidingWindow.Event>, n: nat)
    requires n <= |a| && n <= |b| && forall i :: 0 <= i < n ==> a[i] == b[i]
    ensures SlidingWindow.At(a, n) == SlidingWindow.At(b, n)
  {
    if n > 0 { SamePrefixSameStore(a, b, n - 1); }
  }

  /** Every committed count is the count the in-memory store returns for the same call. */
  ghost predicate CountsAgree(commits: seq<Commit>, calls: seq<SlidingWindow.Event>) {
    |calls| == |commits| &&
    forall i: nat {:trigger commits[i]} :: i < |calls| ==>
      calls[i].Increment? && commits[i].count == SlidingWindow.CountOf(calls, i)
  }

  /** The sorted set is the in-memory store's log, and every committed count is the in-memory count. */
  ghost predicate Mirrors(zset: seq<Member>, commits: seq<Commit>, key: string) {
    var calls := AsCalls(key, commits);
    CountsAgree(commits, calls) && Scores(zset) == SlidingWindow.Log(SlidingWindow.At(calls, |calls|), key)
  }

  /** A first commit of a call does to the set what the in-memory store does to its log. */
  lemma TransactMirrorsLogged(zset: seq<Member>, call: nat, now: nat, windowMs: int)
    requires !HasCall(zset, call)
    ensures Scores(Transact(zset, call, now, windowMs))
         == Filter(SlidingWindow.Newer(now - windowMs), Scores(zset)) + [now]
    ensures |Scores(Transact(zset, call, now, windowMs))| == |Transact(zset, call, now, windowMs)|
  {
    var pruned := Filter(NewerMember(now - windowMs), zset);
    FilterMembers(NewerMember(now - windowMs), zset);
    assert !HasCall(pruned, call);
    ScoresOfFilter(zset, now - windowMs);
    ScoresAppend(pruned, Member(call, now));
    ScoresOfFilter(Transact(zset, call, now, windowMs), now - windowMs);
  }

  lemma SamePrefixSameCount(a: seq<SlidingWindow.Event>, b: seq<SlidingWindow.Event>, i: nat)
    requires i < |a| && i < |b| && a[i].Increment? && forall j :: 0 <= j <= i ==> a[j] == b[j]
    ensures SlidingWindow.CountOf(a, i) == SlidingWindow.CountOf(b, i)
  {
    SamePrefixSameStore(a, b, i);
  }

  /** One more call on the in-memory store. */
  lemma OneMoreCall(calls: seq<SlidingWindow.Event>, key: string, windowMs: int, now: int)
    ensures var more, store := calls + [SlidingWindow.Increment(key, windowMs, now)], SlidingWindow.At(calls, |calls|);
            && SlidingWindow.CountOf(more, |calls|) == |SlidingWindow.Logged(store, key, windowMs, now)|
            && SlidingWindow.Log(SlidingWindow.At(more, |more|), key) == SlidingWindow.Logged(store, key, windowMs, now)
  {
    SamePrefixSameStore(calls, calls + [SlidingWindow.Increment(key, windowMs, now)], |calls|);
  }

  lemma CountsStillAgree(commits: seq<Commit>, calls: seq<SlidingWindow.Event>, k: Commit, e: SlidingWindow.Event)
    requires CountsAgree(commits, calls) && e.Increment?
    requires k.count == SlidingWindow.CountOf(calls + [e], |calls|)
    ensures CountsAgree(commits + [k], calls + [e])
  {
    var more := calls + [e];
    forall i: nat | i < |more|
      ensures more[i].Increment? && (commits + [k])[i].count == SlidingWindow.CountOf(more, i)
    {
      if i < |calls| {
        assert more[i] == calls[i] && (commits + [k])[i] == commits[i];
        SamePrefixSameCount(calls, more, i);
      }
    }
  }

  lemma CommitMirrors(next: seq<Member>, commits: seq<Commit>, key: string, k: Commit)
    requires CountsAgree(commits, AsCalls(key, commits)) && k.count == |Scores(next)|
    requires Scores(next)
          == SlidingWindow.Logged(SlidingWindow.At(AsCalls(key, commits), |commits|), key, k.windowMs, k.now)
    ensures Mirrors(next, commits + [k], key)
  {
    var calls, e := AsCalls(key, commits), SlidingWindow.Increment(key, k.windowMs, k.now);
    var more := calls + [e];
    AsOneMoreCall(key, commits, k);
    assert CountsAgree(commits + [k], more) by {
      OneMoreCall(calls, key, k.windowMs, k.now);
      CountsStillAgree(commits, calls, k, e);
    }
    assert Scores(next) == SlidingWindow.Log(SlidingWindow.At(more, |more|), key) by {
      OneMoreCall(calls, key, k.windowMs, k.now);
    }
  }

  lemma AsOneMoreCall(key: string, commits: seq<Commit>, k: Commit)
    ensures AsCalls(key, commits + [k]) == AsCalls(key, commits) + [SlidingWindow.Increment(key, k.windowMs, k.now)]
  {
  }

  lemma FirstTransactMirrors(zset: seq<Member>, commits: seq<Commit>, key: string, call: nat, now: nat, windowMs: int)
    requires Mirrors(zset, commits, key) && !HasCall(zset, call)
    ensures var next := Transact(zset, call, now, windowMs);
            Mirrors(next, commits + [Commit(call, now, windowMs, |next|)], key)
  {
    var next := Transact(zset, call, now, windowMs);
    TransactMirrorsLogged(zset, call, now, windowMs);
    CommitMirrors(next, commits, key, Commit(call, now, windowMs, |next|));
  }

  lemma FirstCommitMirrors(w: World, s: Step, key: string)
    requires Mirrors(w.zset, w.commits, key) && MembersAreCommitted(w)
    requires CommitEnabled(w, s) && CommitsOf(w.commits, s.call) == 0
    ensures Mirrors(Apply(w, s).zset, Apply(w, s).commits, key)
  {
    var k := CommitShape(w, s);
    FirstTransactMirrors(w.zset, w.commits, key, s.call, k.now, k.windowMs);
  }

  /** A step that does not commit leaves the set and the commits alone. */
  lemma OtherStepsWriteNothing(w: World, s: Step)
    requires !CommitEnabled(w, s)
    ensures Apply(w, s).zset == w.zset && Apply(w, s).commits == w.commits
  {
  }

  lemma LostStaysLost(w: World, s: Step)
    requires NoLostReplies(Apply(w, s))
    ensures NoLostReplies(w)
  {
    forall call | call in w.clients ensures w.clients[call].lost == 0 {
      assert call in Apply(w, s).clients;
    }
  }

  /**
   * However many clients race, and in whatever order their timestamps were taken,
   * the committed counts are those of the in-memory sliding store run on the
   * commits in commit order, as long as no reply was lost.
   */
  lemma {:induction false} RacingClientsMirrorMemoryStore(steps: seq<Step>, key: string)
    requires NoLostReplies(After(steps))
    ensures Mirrors(After(steps).zset, After(steps).commits, key)
  {
    if steps != [] {
      var front := steps[..|steps| - 1];
      var w, s := After(front), steps[|steps| - 1];
      LostStaysLost(w, s);
      RacingClientsMirrorMemoryStore(front, key);
      EveryCallIsAccounted(front);
      if CommitEnabled(w, s) {
        FirstCommitMirrors(w, s, key);
      } else {
        OtherStepsWriteNothing(w, s);
      }
    }
  }

  /** Hence a returned client's count is the in-memory count at the one position where it committed. */
  lemma ReturnedCountIsInMemoryCount(steps: seq<Step>, key: string, call: nat) returns (i: nat)
    requires var w := After(steps); NoLostReplies(w) && call in w.clients && w.clients[call].phase.Returned?
    ensures var w := After(steps);
            && i < |w.commits| && w.commits[i].call == call && CommitsOf(w.commits, call) == 1
            && w.clients[call].phase.count == SlidingWindow.CountOf(AsCalls(key, w.commits), i)
  {
    var w := After(steps);
    var c := w.clients[call];
    EveryCallIsAccounted(steps);
    RacingClientsMirrorMemoryStore(steps, key);
    i :| 0 <= i < |w.commits| && w.commits[i] == Commit(call, c.now, c.windowMs, c.phase.count);
  }
}
