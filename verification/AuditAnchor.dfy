/** Anchor records: what a published chain root says about the log later on. */
module AuditAnchor {
  import opened Common
  import opened Sorting
  import opened AuditEntries
  import opened AuditChain

  datatype AnchorRecord = AnchorRecord(anchoredAt: int, chainRoot: Option<Hash>, entryCount: nat, chainValid: bool)

  function AnchorChainRoot(c: Chain, log: seq<AuditLog>, now: int): AnchorRecord {
    var verification := Verdict(c, log);
    AnchorRecord(now, verification.chainRoot, verification.checkedCount, verification.valid)
  }

  /** The entry createAuditLog appends. */
  function NextEntry(
    c: Crypto, log: seq<AuditLog>, input: AuditLogInput, payloadHash: Option<string>, id: string, timestamp: int
  ): AuditLog {
    var partial := AuditLog(
                     |log|, id, input.userId, input.action, input.resource, input.resourceId, input.metadata,
                     if payloadHash.Some? then payloadHash else input.contentHash, timestamp, GENESIS_SENTINEL);
    partial.(chainHash := ComputeChainHash(ChainOf(c), partial, PrevHash(log, |log|)))
  }

  lemma AppendKeepsWellFormed(
    c: Crypto, log: seq<AuditLog>, input: AuditLogInput, payloadHash: Option<string>, id: string, timestamp: int)
    requires WellFormed(ChainOf(c), log)
    ensures WellFormed(ChainOf(c), log + [NextEntry(c, log, input, payloadHash, id, timestamp)])
  {
    var ch := ChainOf(c);
    var e := NextEntry(c, log, input, payloadHash, id, timestamp);
    var next := log + [e];
    var partial := e.(chainHash := GENESIS_SENTINEL);
    HashIsNotHashed(c, e, GENESIS_SENTINEL);
    assert e.chainHash == ComputeChainHash(ch, partial, PrevHash(log, |log|));
    assert PrevHash(next, |log|) == PrevHash(log, |log|) && next[|log|] == e;
    assert ChainData(ch, e, PrevHash(log, |log|)) == ChainData(ch, partial, PrevHash(log, |log|));
    forall i: nat | i < |next| ensures Linked(ch, next, i) {
      if i < |log| {
        assert Linked(ch, log, i) && next[i] == log[i] && PrevHash(next, i) == PrevHash(log, i);
      }
    }
  }

  /** The stored hash is not part of the text it is computed from. */
  lemma HashIsNotHashed(c: Crypto, e: AuditLog, h: Hash)
    ensures ChainOf(c).canon(e) == ChainOf(c).canon(e.(chainHash := h))
  {
    assert Fields(c, e) == Fields(c, e.(chainHash := h));
  }

  /**
   * What an anchor record reports of any log: the whole count and validity if every
   * link holds, otherwise how many entries stand before the first broken one; in both
   * cases the hash of the last entry.
   */
  lemma AnchorReports(c: Chain, log: seq<AuditLog>, now: int)
    ensures var r, o := AnchorChainRoot(c, log, now), Sort(SeqBefore, log);
            && r.anchoredAt == now && r.entryCount <= |o| == |log|
            && (r.chainRoot == if log == [] then None else Some(o[|o| - 1].chainHash))
            && (r.chainValid <==> LinkedTo(c, o, |o|))
            && (r.chainValid ==> r.entryCount == |log|)
            && (!r.chainValid ==> r.entryCount < |o| && LinkedTo(c, o, r.entryCount) && !Linked(c, o, r.entryCount))
  {
    VerdictIsExact(c, log);
  }

  /** A later log that verifies and still carries an anchored root has the anchored past. */
  lemma AnchorPinsPast(c: Chain, anchored: seq<AuditLog>, later: seq<AuditLog>, now: int)
    requires var r := AnchorChainRoot(c, anchored, now);
             && r.chainValid && 0 < r.entryCount <= |Sort(SeqBefore, later)|
             && Verdict(c, later).valid
             && r.chainRoot == Some(Sort(SeqBefore, later)[r.entryCount - 1].chainHash)
    requires CollisionFree(c, Sort(SeqBefore, anchored), Sort(SeqBefore, later))
    ensures var count := AnchorChainRoot(c, anchored, now).entryCount;
            SameText(c, Sort(SeqBefore, anchored), Sort(SeqBefore, later)[..count])
  {
    ValidMeansLinked(c, anchored);
    ValidMeansLinked(c, later);
    var oa, ob := Sort(SeqBefore, anchored), Sort(SeqBefore, later);
    SameHashSamePast(c, oa, ob, |oa| - 1, AnchorChainRoot(c, anchored, now).entryCount - 1);
  }

  // ----- runs that only append -----

  datatype AuditEvent =
    | Append(input: AuditLogInput, payloadHash: Option<string>, id: string, timestamp: int)
    | TakeAnchor(now: int)

  datatype AuditState = AuditState(log: seq<AuditLog>, anchors: seq<AnchorRecord>)

  function StateAfter(c: Crypto, events: seq<AuditEvent>): AuditState {
    if events == [] then AuditState([], [])
    else
      var s := StateAfter(c, events[..|events| - 1]);
      match events[|events| - 1]
      case Append(input, payloadHash, id, timestamp) =>
        s.(log := s.log + [NextEntry(c, s.log, input, payloadHash, id, timestamp)])
      case TakeAnchor(now) =>
        s.(anchors := s.anchors + [AnchorChainRoot(ChainOf(c), s.log, now)])
  }

  /** What an anchor claims, read against the log as it is now. */
  ghost predicate AnchorHolds(log: seq<AuditLog>, r: AnchorRecord) {
    r.chainValid && r.entryCount <= |log| && r.chainRoot == ChainRoot(log[..r.entryCount])
  }

  /** Taking an anchor in such a run adds one record, of all entries there are. */
  lemma AnchorTaken(c: Crypto, events: seq<AuditEvent>, now: int)
    ensures var s, after := StateAfter(c, events), StateAfter(c, events + [TakeAnchor(now)]);
            && after.log == s.log
            && after.anchors == s.anchors + [AnchorRecord(
                 now, if s.log == [] then None else Some(s.log[|s.log| - 1].chainHash), |s.log|, true)]
  {
    var s := StateAfter(c, events);
    assert (events + [TakeAnchor(now)])[..|events|] == events;
    AnchorsStayTrue(c, events);
    AnyArrangementVerifies(ChainOf(c), s.log, s.log);
  }

  /** In every append-only run the log verifies and every anchor ever taken is still true. */
  lemma {:induction false} AnchorsStayTrue(c: Crypto, events: seq<AuditEvent>)
    ensures var s := StateAfter(c, events);
            WellFormed(ChainOf(c), s.log) && forall r :: r in s.anchors ==> AnchorHolds(s.log, r)
  {
    if events != [] {
      var before := events[..|events| - 1];
      AnchorsStayTrue(c, before);
      var s := StateAfter(c, before);
      match events[|events| - 1] {
        case Append(input, payloadHash, id, timestamp) =>
          AppendKeepsWellFormed(c, s.log, input, payloadHash, id, timestamp);
          var next := StateAfter(c, events).log;
          forall r | r in s.anchors ensures AnchorHolds(next, r) {
            assert next[..r.entryCount] == s.log[..r.entryCount];
          }
        case TakeAnchor(now) =>
          AnyArrangementVerifies(ChainOf(c), s.log, s.log);
          assert s.log[..|s.log|] == s.log;
      }
    }
  }
}
