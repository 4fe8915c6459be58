/** What verifyChain decides about a log, and what its verdicts prove. */
module AuditChain {
  import opened Common
  import opened Text
  import opened Sorting
  import opened AuditEntries

  /** The keyed hash together with the canonical text it is applied to. */
  datatype Chain = Chain(hmac: string -> Hash, canon: AuditLog -> string)

  function ChainOf(c: Crypto): Chain {
    Chain(c.hmac, e => CanonicaliseEntry(c, e))
  }

  datatype ChainVerificationResult = ChainVerificationResult(
    valid: bool, checkedCount: nat, brokenAtIndex: Option<nat>, brokenAtId: Option<string>, chainRoot: Option<Hash>)

  predicate SeqBefore(a: AuditLog, b: AuditLog) { a.seqNo < b.seqNo }

  function PrevHash(log: seq<AuditLog>, i: nat): Hash
    requires i <= |log|
  {
    if i == 0 then GENESIS_SENTINEL else log[i - 1].chainHash
  }

  function ChainRoot(log: seq<AuditLog>): Option<Hash> {
    if log == [] then None else Some(log[|log| - 1].chainHash)
  }

  /** Entry i carries the hash recomputed from its predecessor's hash and its own text. */
  predicate Linked(c: Chain, log: seq<AuditLog>, i: nat)
    requires i < |log|
  {
    log[i].chainHash == ComputeChainHash(c, log[i], PrevHash(log, i))
  }

  ghost predicate LinkedTo(c: Chain, log: seq<AuditLog>, n: nat)
    requires n <= |log|
  {
    forall i: nat :: i < n ==> Linked(c, log, i)
  }

  /** The state createAuditLog keeps: sequence numbers count up from 0 and every link holds. */
  ghost predicate WellFormed(c: Chain, log: seq<AuditLog>) {
    && (forall i :: 0 <= i < |log| ==> log[i].seqNo == i)
    && LinkedTo(c, log, |log|)
  }

  /** The first index from i on whose link is broken, or the length. */
  function FirstBreak(c: Chain, ordered: seq<AuditLog>, i: nat): (n: nat)
    requires i <= |ordered|
    ensures i <= n <= |ordered|
    ensures forall j: nat :: i <= j < n ==> Linked(c, ordered, j)
    ensures n < |ordered| ==> !Linked(c, ordered, n)
    decreases |ordered| - i
  {
    if i < |ordered| && Linked(c, ordered, i) then FirstBreak(c, ordered, i + 1) else i
  }

  function Verdict(c: Chain, logs: seq<AuditLog>): ChainVerificationResult {
    var ordered := Sort(SeqBefore, logs);
    var n := FirstBreak(c, ordered, 0);
    if n == |ordered| then ChainVerificationResult(true, n, None, None, ChainRoot(ordered))
    else ChainVerificationResult(false, n, Some(n), Some(ordered[n].id), ChainRoot(ordered))
  }

  /** The result accepts all of the sorted entries and names the hash of the last one as root. */
  ghost predicate Accepts(v: ChainVerificationResult, ordered: seq<AuditLog>) {
    && v.valid && v.checkedCount == |ordered| && v.brokenAtIndex.None? && v.brokenAtId.None?
    && v.chainRoot == if ordered == [] then None else Some(ordered[|ordered| - 1].chainHash)
  }

  /** The result says that n entries were checked and entry n is broken; the root is still the last hash. */
  ghost predicate RejectsAt(v: ChainVerificationResult, ordered: seq<AuditLog>, n: nat) {
    && n < |ordered| && !v.valid && v.checkedCount == n
    && v.brokenAtIndex == Some(n) && v.brokenAtId == Some(ordered[n].id)
    && v.chainRoot == Some(ordered[|ordered| - 1].chainHash)
  }

  function ChainData(c: Chain, e: AuditLog, prevHash: Hash): string {
    prevHash + "|" + c.canon(e)
  }

  function ComputeChainHash(c: Chain, e: AuditLog, prevHash: Hash): Hash {
    c.hmac(ChainData(c, e, prevHash))
  }

  /** The string hashed when link i is recomputed. */
  function Input(c: Chain, log: seq<AuditLog>, i: nat): string
    requires i < |log|
  {
    ChainData(c, log[i], PrevHash(log, i))
  }

  /**
   * No two strings hashed while recomputing the links of a and of b collide,
   * and none of them hashes to the genesis value.
   */
  ghost predicate CollisionFree(c: Chain, a: seq<AuditLog>, b: seq<AuditLog>) {
    && (forall i: nat, j: nat :: i < |a| && j < |b| && c.hmac(Input(c, a, i)) == c.hmac(Input(c, b, j))
                                 ==> Input(c, a, i) == Input(c, b, j))
    && NoGenesis(c, a) && NoGenesis(c, b)
  }

  ghost predicate NoGenesis(c: Chain, log: seq<AuditLog>) {
    forall i: nat :: i < |log| ==> c.hmac(Input(c, log, i)) != GENESIS_SENTINEL
  }

  lemma NeverGenesis(c: Chain, log: seq<AuditLog>, i: nat)
    requires i < |log| && Linked(c, log, i) && NoGenesis(c, log)
    ensures log[i].chainHash != GENESIS_SENTINEL
  {
    assert log[i].chainHash == c.hmac(Input(c, log, i));
  }

  lemma ChainDataInjective(c: Chain, a: AuditLog, p: Hash, b: AuditLog, q: Hash)
    requires ChainData(c, a, p) == ChainData(c, b, q)
    ensures p == q && c.canon(a) == c.canon(b)
  {
    var s := ChainData(c, a, p);
    assert p == s[..64] && q == s[..64];
    assert c.canon(a) == s[65..] && c.canon(b) == s[65..];
  }

  lemma SequencedIsAscending(log: seq<AuditLog>)
    requires forall i :: 0 <= i < |log| ==> log[i].seqNo == i
    ensures Ascending(SeqBefore, log) && Orders(SeqBefore, log)
  {
  }

  lemma VerdictBreaksAt(c: Chain, logs: seq<AuditLog>, p: nat)
    requires var o := Sort(SeqBefore, logs); p < |o| && LinkedTo(c, o, p) && !Linked(c, o, p)
    ensures RejectsAt(Verdict(c, logs), Sort(SeqBefore, logs), p)
  {
  }

  lemma OneMoreLink(c: Chain, log: seq<AuditLog>, i: nat)
    requires i < |log| && LinkedTo(c, log, i) && log[i].chainHash == ComputeChainHash(c, log[i], PrevHash(log, i))
    ensures LinkedTo(c, log, i + 1) && PrevHash(log, i + 1) == log[i].chainHash
  {
  }

  lemma VerdictIntact(c: Chain, logs: seq<AuditLog>)
    requires var o := Sort(SeqBefore, logs); LinkedTo(c, o, |o|)
    ensures Accepts(Verdict(c, logs), Sort(SeqBefore, logs))
  {
  }

  /**
   * What every verdict says, for any entries in any order: with all links holding they
   * are accepted; otherwise all fields name the first sorted entry whose link is broken.
   */
  lemma VerdictIsExact(c: Chain, logs: seq<AuditLog>)
    ensures var o, v := Sort(SeqBefore, logs), Verdict(c, logs);
            && |o| == |logs|
            && (LinkedTo(c, o, |o|) ==> Accepts(v, o))
            && (!LinkedTo(c, o, |o|) ==>
                  exists n :: 0 <= n < |o| && LinkedTo(c, o, n) && !Linked(c, o, n) && RejectsAt(v, o, n))
  {
    SortPermutes(SeqBefore, logs);
    var o := Sort(SeqBefore, logs);
    var n := FirstBreak(c, o, 0);
    if n < |o| {
      VerdictBreaksAt(c, logs, n);
    } else {
      VerdictIntact(c, logs);
    }
  }

  /** However the entries of a well-formed log are arranged, verifyChain accepts all of them. */
  lemma AnyArrangementVerifies(c: Chain, log: seq<AuditLog>, entries: seq<AuditLog>)
    requires WellFormed(c, log) && multiset(entries) == multiset(log)
    ensures Verdict(c, entries) == ChainVerificationResult(true, |log|, None, None, ChainRoot(log))
  {
    SequencedIsAscending(log);
    SortRestores(SeqBefore, entries, log);
  }

  lemma PrefixStaysWellFormed(c: Chain, log: seq<AuditLog>, k: nat)
    requires WellFormed(c, log) && k <= |log|
    ensures WellFormed(c, log[..k])
  {
    forall i: nat | i < k ensures Linked(c, log[..k], i) {
      assert Linked(c, log, i);
      assert PrevHash(log[..k], i) == PrevHash(log, i);
    }
  }

  /** Equal chain hashes, in one log or in two, stand at the same position and seal the same past. */
  lemma {:induction false} SameHashSamePast(c: Chain, a: seq<AuditLog>, b: seq<AuditLog>, i: nat, j: nat)
    requires i < |a| && j < |b|
    requires LinkedTo(c, a, i + 1) && LinkedTo(c, b, j + 1)
    requires CollisionFree(c, a, b)
    requires a[i].chainHash == b[j].chainHash
    ensures i == j
    ensures forall t :: 0 <= t <= i ==> c.canon(a[t]) == c.canon(b[t])
  {
    assert Linked(c, a, i) && Linked(c, b, j);
    assert Input(c, a, i) == Input(c, b, j);
    ChainDataInjective(c, a[i], PrevHash(a, i), b[j], PrevHash(b, j));
    if i > 0 && j > 0 {
      SameHashSamePast(c, a, b, i - 1, j - 1);
    } else if i > 0 {
      NeverGenesis(c, a, i - 1);
    } else if j > 0 {
      NeverGenesis(c, b, j - 1);
    }
  }

  ghost predicate SameText(c: Chain, a: seq<AuditLog>, b: seq<AuditLog>) {
    |a| == |b| && forall t :: 0 <= t < |a| ==> c.canon(a[t]) == c.canon(b[t])
  }

  lemma ValidMeansLinked(c: Chain, logs: seq<AuditLog>)
    requires Verdict(c, logs).valid
    ensures var o := Sort(SeqBefore, logs);
            |o| == |logs| && LinkedTo(c, o, |o|) && Verdict(c, logs).chainRoot == ChainRoot(o)
  {
    SortPermutes(SeqBefore, logs);
  }

  /**
   * The chain root binds the whole log: two collections of entries that both
   * verify with the same root hold the same canonical entries in order.
   */
  lemma RootBindsLog(c: Chain, a: seq<AuditLog>, b: seq<AuditLog>)
    requires Verdict(c, a).valid && Verdict(c, b).valid
    requires Verdict(c, a).chainRoot == Verdict(c, b).chainRoot
    requires CollisionFree(c, Sort(SeqBefore, a), Sort(SeqBefore, b))
    ensures |a| == |b| && SameText(c, Sort(SeqBefore, a), Sort(SeqBefore, b))
  {
    ValidMeansLinked(c, a);
    ValidMeansLinked(c, b);
    RootBindsOrder(c, Sort(SeqBefore, a), Sort(SeqBefore, b));
  }

  lemma RootBindsOrder(c: Chain, a: seq<AuditLog>, b: seq<AuditLog>)
    requires LinkedTo(c, a, |a|) && LinkedTo(c, b, |b|) && ChainRoot(a) == ChainRoot(b)
    requires CollisionFree(c, a, b)
    ensures SameText(c, a, b)
  {
    if a != [] {
      SameHashSamePast(c, a, b, |a| - 1, |b| - 1);
    }
  }

  // ----- what one overwrite does -----

  /** Where an entry overwritten at k with sequence number s comes to stand in the sorted log. */
  function EditedIndex(k: nat, s: int): int { Min(k, Max(0, s + 1)) }

  /** The overwritten entry k is sorted behind its successor. */
  predicate Passed(log: seq<AuditLog>, k: nat, x: AuditLog) { k + 1 < |log| && x.seqNo > k + 1 }

  lemma EditedFront(log: seq<AuditLog>, k: nat, x: AuditLog)
    requires forall i :: 0 <= i < |log| ==> log[i].seqNo == i
    requires k < |log|
    ensures var e, p := log[k := x], EditedIndex(k, x.seqNo);
            Sort(SeqBefore, e) == log[..p] + Sort(SeqBefore, e[p..])
  {
    var e, p := log[k := x], EditedIndex(k, x.seqNo);
    var front, back := log[..p], e[p..];
    assert e == front + back;
    forall i, y | 0 <= i < |front| && y in back ensures !SeqBefore(y, front[i]) {
      var j :| 0 <= j < |back| && back[j] == y;
      assert y == e[p + j];
    }
    SortKeepsFront(SeqBefore, front, back);
  }

  /** From the edited index on, sorting only moves the overwritten entry to the front. */
  lemma {:induction false} EditedBack(log: seq<AuditLog>, k: nat, x: AuditLog, i: nat)
    requires forall j :: 0 <= j < |log| ==> log[j].seqNo == j
    requires EditedIndex(k, x.seqNo) <= i <= k < |log| && !Passed(log, k, x)
    ensures Sort(SeqBefore, log[k := x][i..]) == [x] + (log[i..k] + log[k + 1..])
    decreases k - i
  {
    var e := log[k := x];
    var after := log[k + 1..];
    if i == k {
      SortedIsFixed(SeqBefore, after);
      SortWithFirst(SeqBefore, x, after);
      assert e[k..] == [x] + after && log[k..k] + after == after;
    } else {
      EditedBack(log, k, x, i + 1);
      TakeFirst(e, i, |e|, []);
      TakeFirst(log, i, k, after);
      InsertSecond(x, log[i], log[i + 1..k] + after);
    }
  }

  lemma TakeFirst<T>(s: seq<T>, i: nat, j: nat, after: seq<T>)
    requires i < j <= |s|
    ensures s[i..j] + after == [s[i]] + (s[i + 1..j] + after)
    ensures s[i..] == [s[i]] + s[i + 1..]
  {
  }

  lemma InsertSecond(x: AuditLog, y: AuditLog, behind: seq<AuditLog>)
    requires SeqBefore(x, y) && (behind == [] || !SeqBefore(behind[0], y))
    ensures Insert(SeqBefore, y, [x] + behind) == [x] + ([y] + behind)
  {
    assert ([x] + behind)[1..] == behind;
    InsertInFront(SeqBefore, y, behind);
  }

  /** Sorted past its successor, entry k leaves its place to it. */
  lemma PassedOrder(log: seq<AuditLog>, k: nat, x: AuditLog)
    requires forall i :: 0 <= i < |log| ==> log[i].seqNo == i
    requires k < |log| && Passed(log, k, x)
    ensures var o := Sort(SeqBefore, log[k := x]); |o| == |log| && o[..k] == log[..k] && o[k] == log[k + 1]
  {
    var back := log[k := x][k..];
    SortPermutes(SeqBefore, log[k := x]);
    EditedFront(log, k, x);
    assert back[1..] == log[k + 1..];
    SortedIsFixed(SeqBefore, log[k + 1..]);
    SortHead(SeqBefore, back);
    FrontAndHead(log[..k], Sort(SeqBefore, back));
  }

  lemma FrontAndHead<T>(a: seq<T>, b: seq<T>)
    requires b != []
    ensures (a + b)[..|a|] == a && (a + b)[|a|] == b[0]
  {
  }

  /** The log with x at place p instead of its entry k. */
  function Placed(log: seq<AuditLog>, k: nat, p: nat, x: AuditLog): seq<AuditLog>
    requires p <= k < |log|
  {
    log[..p] + ([x] + (log[p..k] + log[k + 1..]))
  }

  /** Otherwise sorting only moves the overwritten entry to its place. */
  lemma EditedOrder(log: seq<AuditLog>, k: nat, x: AuditLog)
    requires forall i :: 0 <= i < |log| ==> log[i].seqNo == i
    requires k < |log| && !Passed(log, k, x)
    ensures Sort(SeqBefore, log[k := x]) == Placed(log, k, EditedIndex(k, x.seqNo), x)
  {
    EditedFront(log, k, x);
    EditedBack(log, k, x, EditedIndex(k, x.seqNo));
  }

  lemma PlacedEntries(log: seq<AuditLog>, k: nat, p: nat, x: AuditLog)
    requires p <= k < |log|
    ensures var o := Placed(log, k, p, x);
            && |o| == |log| && o[..p] == log[..p] && o[p] == x
            && (p < k ==> o[p + 1] == log[p]) && (p == k ==> o == log[k := x])
  {
  }

  /**
   * The first broken position of a well-formed log after entry k was overwritten by
   * any record x, or None if the overwrite goes unseen: x must stand where entry k
   * stood, carry the recomputed hash, and that must be the old hash unless k was last.
   */
  function OverwriteBreak(c: Chain, log: seq<AuditLog>, k: nat, x: AuditLog): Option<nat>
    requires k < |log|
  {
    var p := EditedIndex(k, x.seqNo);
    if Passed(log, k, x) then Some(k)
    else if x.chainHash != ComputeChainHash(c, x, PrevHash(log, p)) then Some(p)
    else if p == k && (k + 1 == |log| || x.chainHash == log[k].chainHash) then None
    else Some(p + 1)
  }

  /** The exact verdict on every overwrite of one entry, sequence number and hash included. */
  lemma OverwriteVerdict(c: Chain, log: seq<AuditLog>, k: nat, x: AuditLog)
    requires WellFormed(c, log) && k < |log|
    requires CollisionFree(c, log, Sort(SeqBefore, log[k := x])) && CollisionFree(c, log, log)
    ensures var o, b := Sort(SeqBefore, log[k := x]), OverwriteBreak(c, log, k, x);
            && (b.Some? ==> RejectsAt(Verdict(c, log[k := x]), o, b.value))
            && (b.None? ==> Accepts(Verdict(c, log[k := x]), log[k := x]))
  {
    var o := Sort(SeqBefore, log[k := x]);
    if Passed(log, k, x) {
      PassedOrder(log, k, x);
      SharedPrefixLinks(c, log, o, k);
      SkippedEntryShows(c, log, o, k);
      VerdictBreaksAt(c, log[k := x], k);
    } else {
      EditedOrder(log, k, x);
      var b := OverwriteBreak(c, log, k, x);
      if b.Some? {
        PlacedBreaks(c, log, k, x, o);
        VerdictBreaksAt(c, log[k := x], b.value);
      } else {
        UnseenOverwrite(c, log, k, x);
      }
    }
  }

  lemma PlacedBreaks(c: Chain, log: seq<AuditLog>, k: nat, x: AuditLog, o: seq<AuditLog>)
    requires WellFormed(c, log) && k < |log| && !Passed(log, k, x) && OverwriteBreak(c, log, k, x).Some?
    requires o == Placed(log, k, EditedIndex(k, x.seqNo), x) && CollisionFree(c, log, log) && CollisionFree(c, log, o)
    ensures var b := OverwriteBreak(c, log, k, x).value; b < |o| && LinkedTo(c, o, b) && !Linked(c, o, b)
  {
    var p := EditedIndex(k, x.seqNo);
    PlacedEntries(log, k, p, x);
    SharedPrefixLinks(c, log, o, p);
    if x.chainHash == ComputeChainHash(c, x, PrevHash(log, p)) {
      if p < k {
        MovedEntryShows(c, log, o, p);
      } else {
        RehashedEntryShows(c, log, o, k);
      }
    }
  }

  /** An overwrite in place with the recomputed hash verifies if it is the last entry or the hash stays. */
  lemma UnseenOverwrite(c: Chain, log: seq<AuditLog>, k: nat, x: AuditLog)
    requires WellFormed(c, log) && k < |log| && EditedIndex(k, x.seqNo) == k && !Passed(log, k, x)
    requires x.chainHash == ComputeChainHash(c, x, PrevHash(log, k))
    requires k + 1 == |log| || x.chainHash == log[k].chainHash
    ensures Sort(SeqBefore, log[k := x]) == log[k := x] && Accepts(Verdict(c, log[k := x]), log[k := x])
  {
    var e := log[k := x];
    EditedOrder(log, k, x);
    PlacedEntries(log, k, k, x);
    forall i: nat | i < |e| ensures Linked(c, e, i) {
      assert Linked(c, log, i);
      assert PrevHash(e, i) == PrevHash(log, i);
    }
    assert FirstBreak(c, e, 0) == |e|;
  }

  /** The entry behind a moved one, whose hash fits its new place, no longer fits. */
  lemma MovedEntryShows(c: Chain, log: seq<AuditLog>, o: seq<AuditLog>, p: nat)
    requires WellFormed(c, log) && CollisionFree(c, log, log) && CollisionFree(c, log, o)
    requires p < |log| && p + 1 < |o| && o[..p] == log[..p] && o[p + 1] == log[p]
    requires LinkedTo(c, o, p) && PrevHash(o, p) == PrevHash(log, p) && Linked(c, o, p)
    ensures LinkedTo(c, o, p + 1) && !Linked(c, o, p + 1)
  {
    assert Linked(c, log, p);
    if Linked(c, o, p + 1) {
      assert Input(c, log, p) == Input(c, o, p + 1);
      ChainDataInjective(c, log[p], PrevHash(log, p), o[p + 1], o[p].chainHash);
      if p == 0 {
        NeverGenesis(c, o, 0);
      } else {
        assert Linked(c, log, p - 1);
        assert Input(c, log, p - 1) == Input(c, o, p);
        ChainDataInjective(c, log[p - 1], PrevHash(log, p - 1), o[p], log[p - 1].chainHash);
        NoRepeatedHash(c, log, p - 1);
      }
      assert false;
    }
  }

  /** No entry carries the hash it was chained to. */
  lemma NoRepeatedHash(c: Chain, log: seq<AuditLog>, i: nat)
    requires WellFormed(c, log) && i < |log| && CollisionFree(c, log, log)
    ensures log[i].chainHash != PrevHash(log, i)
  {
    assert Linked(c, log, i);
    if i == 0 {
      NeverGenesis(c, log, 0);
    } else if log[i].chainHash == log[i - 1].chainHash {
      SameHashSamePast(c, log, log, i, i - 1);
    }
  }

  /** The entry behind one whose hash was changed no longer fits. */
  lemma RehashedEntryShows(c: Chain, log: seq<AuditLog>, o: seq<AuditLog>, k: nat)
    requires WellFormed(c, log) && CollisionFree(c, log, o)
    requires |o| == |log| && k + 1 < |log| && o == log[k := o[k]] && o[k].chainHash != log[k].chainHash
    requires LinkedTo(c, o, k) && Linked(c, o, k)
    ensures LinkedTo(c, o, k + 1) && !Linked(c, o, k + 1)
  {
    assert Linked(c, log, k + 1);
    if Linked(c, o, k + 1) {
      assert Input(c, log, k + 1) == Input(c, o, k + 1);
      ChainDataInjective(c, log[k + 1], log[k].chainHash, o[k + 1], o[k].chainHash);
      assert false;
    }
  }

  /** An overwrite that keeps the hash and changes the canonical text is reported where the entry comes to stand. */
  lemma EditIsLocalised(c: Chain, log: seq<AuditLog>, k: nat, x: AuditLog)
    requires WellFormed(c, log) && k < |log|
    requires x.chainHash == log[k].chainHash && c.canon(x) != c.canon(log[k])
    requires CollisionFree(c, log, Sort(SeqBefore, log[k := x])) && CollisionFree(c, log, log)
    ensures RejectsAt(Verdict(c, log[k := x]), Sort(SeqBefore, log[k := x]), EditedIndex(k, x.seqNo))
  {
    var o, p := Sort(SeqBefore, log[k := x]), EditedIndex(k, x.seqNo);
    OverwriteVerdict(c, log, k, x);
    if !Passed(log, k, x) && x.chainHash == ComputeChainHash(c, x, PrevHash(log, p)) {
      EditedOrder(log, k, x);
      PlacedEntries(log, k, p, x);
      SharedPrefixLinks(c, log, o, p);
      assert Linked(c, log, k);
      assert Input(c, log, k) == Input(c, o, p);
      ChainDataInjective(c, x, PrevHash(o, p), log[k], PrevHash(log, k));
      assert false;
    }
  }

  lemma SharedPrefixLinks(c: Chain, log: seq<AuditLog>, o: seq<AuditLog>, p: nat)
    requires WellFormed(c, log) && p <= |log| && p <= |o| && o[..p] == log[..p]
    ensures LinkedTo(c, o, p) && PrevHash(o, p) == PrevHash(log, p)
  {
    assert forall i :: 0 <= i < p ==> o[i] == o[..p][i] == log[..p][i] == log[i];
    forall i: nat | i < p ensures Linked(c, o, i) {
      assert Linked(c, log, i);
    }
  }

  /** Entry k+1 never fits right after what precedes entry k. */
  lemma SkippedEntryShows(c: Chain, log: seq<AuditLog>, o: seq<AuditLog>, k: nat)
    requires WellFormed(c, log) && k + 1 < |log| && CollisionFree(c, log, log) && CollisionFree(c, log, o)
    requires k < |o| && o[k] == log[k + 1] && PrevHash(o, k) == PrevHash(log, k)
    ensures !Linked(c, o, k)
  {
    assert Linked(c, log, k + 1) && Linked(c, log, k);
    if Linked(c, o, k) {
      assert Input(c, log, k + 1) == Input(c, o, k);
      ChainDataInjective(c, log[k + 1], log[k].chainHash, log[k + 1], PrevHash(log, k));
      if k > 0 {
        SameHashSamePast(c, log, log, k, k - 1);
      } else {
        NeverGenesis(c, log, k);
      }
      assert false;
    }
  }

  lemma DeletedStaysSorted(log: seq<AuditLog>, k: nat)
    requires forall i :: 0 <= i < |log| ==> log[i].seqNo == i
    requires k < |log|
    ensures Sort(SeqBefore, log[..k] + log[k + 1..]) == log[..k] + log[k + 1..]
  {
    SequencedIsAscending(log);
    SortedIsFixed(SeqBefore, log[..k] + log[k + 1..]);
  }

  /** Deleting entry k breaks the chain at k, unless it was the last entry, which is never missed. */
  lemma DeletionIsLocalised(c: Chain, log: seq<AuditLog>, k: nat)
    requires WellFormed(c, log) && k < |log|
    requires CollisionFree(c, log, log) && CollisionFree(c, log, log[..k] + log[k + 1..])
    ensures var rest := log[..k] + log[k + 1..];
            if k + 1 < |log| then RejectsAt(Verdict(c, rest), rest, k) && rest[k] == log[k + 1]
            else Accepts(Verdict(c, rest), log[..k])
  {
    var rest := log[..k] + log[k + 1..];
    if k + 1 < |log| {
      assert rest[..k] == log[..k] && rest[k] == log[k + 1] && ChainRoot(rest) == ChainRoot(log);
      assert Sort(SeqBefore, rest) == rest by { DeletedStaysSorted(log, k); }
      assert LinkedTo(c, rest, k) && !Linked(c, rest, k) by {
        SharedPrefixLinks(c, log, rest, k);
        SkippedEntryShows(c, log, rest, k);
      }
      VerdictBreaksAt(c, rest, k);
    } else {
      assert rest == log[..k];
      PrefixStaysWellFormed(c, log, k);
      AnyArrangementVerifies(c, rest, rest);
    }
  }

  // ----- which changes of a record are seen -----

  /** Overwriting entry k by x, with no collision among what is then hashed. */
  ghost predicate Overwrite(c: Crypto, log: seq<AuditLog>, k: nat, x: AuditLog)
    requires k < |log|
  {
    x != log[k] && DigestsApart(c, x, log[k]) && CollisionFree(ChainOf(c), log, Sort(SeqBefore, log[k := x]))
  }

  /**
   * The promise that tampering with any field is seen, for changes that leave the
   * stored hash alone, holds exactly for complete entries: for those every change of
   * the record is reported, for every other entry some change still verifies.
   */
  lemma FieldEditsSeenIffComplete(c: Crypto, log: seq<AuditLog>, k: nat)
    requires WellFormed(ChainOf(c), log) && k < |log| && FaithfulDates(c)
    requires CollisionFree(ChainOf(c), log, log)
    ensures Complete(log[k]) <==>
            forall x: AuditLog :: Overwrite(c, log, k, x) && x.chainHash == log[k].chainHash ==>
              !Verdict(ChainOf(c), log[k := x]).valid
  {
    if Complete(log[k]) {
      UnambiguousIffComplete(c, log[k]);
      forall x: AuditLog | Overwrite(c, log, k, x) && x.chainHash == log[k].chainHash
        ensures !Verdict(ChainOf(c), log[k := x]).valid
      {
        EditIsLocalised(ChainOf(c), log, k, x);
      }
    } else {
      var x := Twin(c, log[k]);
      HiddenEdit(ChainOf(c), log, k, x);
      assert Overwrite(c, log, k, x);
    }
  }

  /** A complete entry that is not the last is sealed: no overwrite of it verifies, whatever hash it carries. */
  lemma CompleteEntriesAreSealed(c: Crypto, log: seq<AuditLog>, k: nat, x: AuditLog)
    requires WellFormed(ChainOf(c), log) && k + 1 < |log| && FaithfulDates(c)
    requires Complete(log[k]) && Overwrite(c, log, k, x) && CollisionFree(ChainOf(c), log, log)
    ensures !Verdict(ChainOf(c), log[k := x]).valid
  {
    OverwriteVerdict(ChainOf(c), log, k, x);
    if x.chainHash == log[k].chainHash {
      FieldEditsSeenIffComplete(c, log, k);
    }
  }

  /** The last entry is never sealed: with its hash recomputed, any record in its place verifies. */
  lemma LastEntryIsNotSealed(c: Crypto, log: seq<AuditLog>, x: AuditLog)
    requires WellFormed(ChainOf(c), log) && log != [] && x.seqNo == |log| - 1
    ensures var k := |log| - 1;
            var rewritten := x.(chainHash := ComputeChainHash(ChainOf(c), x, PrevHash(log, k)));
            Accepts(Verdict(ChainOf(c), log[k := rewritten]), log[k := rewritten])
  {
    var k := |log| - 1;
    var hash := ComputeChainHash(ChainOf(c), x, PrevHash(log, k));
    assert Fields(c, x) == Fields(c, x.(chainHash := hash));
    UnseenOverwrite(ChainOf(c), log, k, x.(chainHash := hash));
  }

  lemma SameInputsSameCollisions(c: Chain, log: seq<AuditLog>, a: seq<AuditLog>, b: seq<AuditLog>)
    requires CollisionFree(c, log, a) && |a| == |b|
    requires forall i: nat :: i < |a| ==> Input(c, b, i) == Input(c, a, i)
    ensures CollisionFree(c, log, b)
  {
  }

  /** An overwrite with the same sequence number, hash and text hashes the same strings and verifies. */
  lemma HiddenEdit(c: Chain, log: seq<AuditLog>, k: nat, x: AuditLog)
    requires WellFormed(c, log) && k < |log| && x.seqNo == k && CollisionFree(c, log, log)
    requires x.chainHash == log[k].chainHash && c.canon(x) == c.canon(log[k])
    ensures CollisionFree(c, log, Sort(SeqBefore, log[k := x])) && Verdict(c, log[k := x]).valid
  {
    var e := log[k := x];
    assert Linked(c, log, k);
    UnseenOverwrite(c, log, k, x);
    forall i: nat | i < |log| ensures Input(c, e, i) == Input(c, log, i) {
      assert PrevHash(e, i) == PrevHash(log, i);
    }
    SameInputsSameCollisions(c, log, log, e);
  }

  // ----- re-ordering -----

  /** The log in another order, renumbered to match: entry i is the old entry order[i]. */
  function Renumbered(log: seq<AuditLog>, order: seq<nat>): seq<AuditLog>
    requires forall i :: 0 <= i < |order| ==> order[i] < |log|
  {
    seq(|order|, i requires 0 <= i < |order| => log[order[i]].(seqNo := i))
  }

  /**
   * Re-ordering entries by changing their sequence numbers, or repeating or dropping
   * some on the way, is reported at the first position that no longer holds its entry.
   */
  lemma ReorderingIsLocalised(c: Chain, log: seq<AuditLog>, order: seq<nat>, entries: seq<AuditLog>, p: nat)
    requires WellFormed(c, log) && CollisionFree(c, log, log)
    requires forall i :: 0 <= i < |order| ==> order[i] < |log|
    requires p < |order| && order[p] != p && forall i :: 0 <= i < p ==> order[i] == i
    requires multiset(entries) == multiset(Renumbered(log, order)) && CollisionFree(c, log, Renumbered(log, order))
    ensures RejectsAt(Verdict(c, entries), Renumbered(log, order), p)
    ensures Verdict(c, entries).brokenAtId == Some(log[order[p]].id)
  {
    var o, j := Renumbered(log, order), order[p];
    SequencedIsAscending(o);
    SortRestores(SeqBefore, entries, o);
    assert p == 0 || order[p - 1] == p - 1;
    forall i | 0 <= i < p ensures o[i] == log[i] {
      assert order[i] == i;
    }
    assert o[..p] == log[..p];
    SharedPrefixLinks(c, log, o, p);
    if Linked(c, o, p) {
      assert Linked(c, log, j);
      assert Input(c, log, j) == Input(c, o, p);
      ChainDataInjective(c, log[j], PrevHash(log, j), o[p], PrevHash(log, p));
      PrevHashesDiffer(c, log, j, p);
      assert false;
    }
    VerdictBreaksAt(c, entries, p);
  }

  lemma PrevHashesDiffer(c: Chain, log: seq<AuditLog>, i: nat, j: nat)
    requires WellFormed(c, log) && CollisionFree(c, log, log) && i <= |log| && j <= |log| && i != j
    ensures PrevHash(log, i) != PrevHash(log, j)
  {
    if i == 0 {
      assert Linked(c, log, j - 1);
      NeverGenesis(c, log, j - 1);
    } else if j == 0 {
      assert Linked(c, log, i - 1);
      NeverGenesis(c, log, i - 1);
    } else if PrevHash(log, i) == PrevHash(log, j) {
      SameHashSamePast(c, log, log, i - 1, j - 1);
    }
  }

  lemma SwapPermutes<T>(s: seq<T>, i: nat, j: nat)
    requires i < |s| && j < |s|
    ensures multiset(s[i := s[j]][j := s[i]]) == multiset(s)
  {
  }

  /** In particular swapping the sequence numbers of two entries is reported at the smaller of them. */
  lemma SwappedNumbersShow(c: Chain, log: seq<AuditLog>, i: nat, j: nat)
    requires WellFormed(c, log) && CollisionFree(c, log, log) && i < j < |log|
    requires CollisionFree(c, log, log[i := log[j].(seqNo := i)][j := log[i].(seqNo := j)])
    ensures var swapped := log[i := log[i].(seqNo := j)][j := log[j].(seqNo := i)];
            Verdict(c, swapped).brokenAtIndex == Some(i) && Verdict(c, swapped).brokenAtId == Some(log[j].id)
  {
    var a, b := log[i].(seqNo := j), log[j].(seqNo := i);
    var swapped, o := log[i := a][j := b], log[i := b][j := a];
    var order := seq(|log|, n requires 0 <= n < |log| => if n == i then j else if n == j then i else n);
    assert Renumbered(log, order) == o;
    SwapPermutes(swapped, i, j);
    assert o == swapped[i := swapped[j]][j := swapped[i]];
    ReorderingIsLocalised(c, log, order, swapped, i);
  }
}
