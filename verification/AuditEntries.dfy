/**
 * Audit-log entries and their canonical text.
 *
 * The cryptographic primitives are values: theorems assume of them only what
 * they need, on the finitely many inputs actually hashed.
 */
module AuditEntries {
  import opened Common
  import opened Text

  predicate HexDigit(c: char) { '0' <= c <= '9' || 'a' <= c <= 'f' }

  function Zeros(n: nat): (s: string)
    ensures |s| == n && forall i :: 0 <= i < n ==> s[i] == '0'
  {
    if n == 0 then "" else Zeros(n - 1) + ['0']
  }

  /** A hex digest of 64 characters. */
  type Hash = s: string | |s| == 64 && forall i :: 0 <= i < 64 ==> HexDigit(s[i]) witness Zeros(64)

  /** A rendered date. */
  type Stamp = s: string | Free(s, '|') witness ""

  const GENESIS_SENTINEL: Hash := Zeros(64)

  /** HMAC under the chain key, the metadata digest, and Date.prototype.toISOString. */
  datatype Crypto = Crypto(hmac: string -> Hash, sha: string -> Hash, iso: int -> Stamp)

  /** A metadata value is its JSON text; null, false, zero and the empty string are falsy. */
  datatype Metadata = Absent | Falsy(json: string) | Truthy(json: string)

  datatype AuditLogInput = AuditLogInput(
    userId: string, action: string, resource: string,
    resourceId: Option<string>, metadata: Metadata, contentHash: Option<string>)

  datatype AuditLog = AuditLog(
    seqNo: int, id: string, userId: string, action: string, resource: string,
    resourceId: Option<string>, metadata: Metadata, contentHash: Option<string>,
    timestamp: int, chainHash: Hash)

  function OrEmpty(o: Option<string>): string { if o.Some? then o.value else "" }

  function MetaHash(c: Crypto, e: AuditLog): string {
    if e.metadata.Truthy? then c.sha(e.metadata.json) else ""
  }

  /** The six fields whose text a caller chooses freely. */
  function TextFields(e: AuditLog): seq<string> {
    [e.id, e.userId, e.action, e.resource, OrEmpty(e.resourceId), OrEmpty(e.contentHash)]
  }

  function Fields(c: Crypto, e: AuditLog): seq<string> {
    [Decimal(e.seqNo)] + TextFields(e) + [c.iso(e.timestamp), MetaHash(c, e)]
  }

  function CanonicaliseEntry(c: Crypto, e: AuditLog): string {
    Join(Fields(c, e), '|')
  }

  /** The documented layout: nine fields in this order, separated by pipes. */
  lemma CanonicalLayout(c: Crypto, e: AuditLog)
    ensures CanonicaliseEntry(c, e)
         == Decimal(e.seqNo) + "|" + (e.id + "|" + (e.userId + "|" + (e.action + "|" + (e.resource + "|" +
            ((if e.resourceId.Some? then e.resourceId.value else "") + "|" +
             ((if e.contentHash.Some? then e.contentHash.value else "") + "|" +
              (c.iso(e.timestamp) + "|" + (if e.metadata.Truthy? then c.sha(e.metadata.json) else ""))))))))
  {
    var f := Fields(c, e);
    assert f == [Decimal(e.seqNo), e.id, e.userId, e.action, e.resource, OrEmpty(e.resourceId), OrEmpty(e.contentHash),
                 c.iso(e.timestamp), MetaHash(c, e)];
    JoinStep(f, '|');
    JoinStep(f[1..], '|');
    JoinStep(f[2..], '|');
    JoinStep(f[3..], '|');
    JoinStep(f[4..], '|');
    JoinStep(f[5..], '|');
    JoinStep(f[6..], '|');
    JoinStep(f[7..], '|');
    assert f[8..] == [f[8]];
  }

  lemma JoinStep(f: seq<string>, d: char)
    requires |f| > 1
    ensures Join(f, d) == f[0] + [d] + Join(f[1..], d)
    ensures forall k :: 1 <= k <= |f| ==> f[1..][k - 1..] == f[k..]
  {
  }

  /** Different times are rendered differently. */
  ghost predicate FaithfulDates(c: Crypto) {
    forall t, u :: c.iso(t) == c.iso(u) ==> t == u
  }

  /** The metadata digests taken of the two entries do not collide. */
  predicate DigestsApart(c: Crypto, x: AuditLog, e: AuditLog) {
    x.metadata.Truthy? && e.metadata.Truthy? && c.sha(x.metadata.json) == c.sha(e.metadata.json)
    ==> x.metadata == e.metadata
  }

  /** The two entries differ in nothing but their hash. */
  predicate SameRecord(x: AuditLog, e: AuditLog) { x == e.(chainHash := x.chainHash) }

  predicate Present(o: Option<string>) { o.Some? && o.value != "" }

  /** No text holds the separator, and everything optional is there: no text empty, the metadata not falsy. */
  predicate Complete(e: AuditLog) {
    AllFree(TextFields(e), '|') && Present(e.resourceId) && Present(e.contentHash) && e.metadata.Truthy?
  }

  /** The canonical text of e belongs to no other record. */
  ghost predicate Unambiguous(c: Crypto, e: AuditLog) {
    forall x: AuditLog ::
      CanonicaliseEntry(c, x) == CanonicaliseEntry(c, e) && DigestsApart(c, x, e) ==> SameRecord(x, e)
  }

  /** An entry with the same canonical text and one boundary between fields moved. */
  lemma {:induction false} MovedBoundary(c: Crypto, e: AuditLog) returns (x: AuditLog)
    requires !AllFree(TextFields(e), '|')
    ensures x.seqNo == e.seqNo && x.timestamp == e.timestamp && x.metadata == e.metadata && x.chainHash == e.chainHash
    ensures CanonicaliseEntry(c, x) == CanonicaliseEntry(c, e) && TextFields(x) != TextFields(e)
    ensures Fields(c, x) != Fields(c, e)
  {
    var f := TextFields(e);
    var g := DelimiterHidesBoundary(f, '|');
    x := e.(id := g[0], userId := g[1], action := g[2], resource := g[3],
    resourceId := Some(g[4]), contentHash := Some(g[5]));
    assert TextFields(x) == g;
    var head, tail := [Decimal(e.seqNo)], [c.iso(e.timestamp), MetaHash(c, e)];
    JoinConcat(head, f, '|');
    JoinConcat(head, g, '|');
    JoinConcat(head + f, tail, '|');
    JoinConcat(head + g, tail, '|');
    assert Fields(c, x)[1..7] == g && Fields(c, e)[1..7] == f;
  }

  /** Another optional text with the same rendering. */
  function Respelled(o: Option<string>): Option<string> { if o.None? then Some("") else None }

  /** Every entry that is not complete has a twin: another record with the same number, hash and canonical text. */
  lemma Twin(c: Crypto, e: AuditLog) returns (x: AuditLog)
    requires !Complete(e)
    ensures x != e && x.seqNo == e.seqNo && x.chainHash == e.chainHash
    ensures CanonicaliseEntry(c, x) == CanonicaliseEntry(c, e) && DigestsApart(c, x, e)
  {
    if !AllFree(TextFields(e), '|') {
      x := MovedBoundary(c, e);
    } else {
      x := if !Present(e.resourceId) then e.(resourceId := Respelled(e.resourceId))
           else if !Present(e.contentHash) then e.(contentHash := Respelled(e.contentHash))
           else e.(metadata := if e.metadata.Absent? then Falsy("null") else Absent);
      assert Fields(c, x) == Fields(c, e);
    }
  }

  lemma SameFieldsSameRecord(c: Crypto, x: AuditLog, e: AuditLog)
    requires Complete(e) && Fields(c, x) == Fields(c, e) && DigestsApart(c, x, e) && FaithfulDates(c)
    ensures SameRecord(x, e)
  {
    var f, g := Fields(c, x), Fields(c, e);
    assert f[0] == Decimal(x.seqNo) && g[0] == Decimal(e.seqNo);
    DecimalInjective(x.seqNo, e.seqNo);
    assert f[1..7] == TextFields(x) && g[1..7] == TextFields(e);
    assert x.userId == TextFields(x)[1] && x.action == TextFields(x)[2] && x.resource == TextFields(x)[3];
    assert OrEmpty(x.resourceId) == TextFields(x)[4] && OrEmpty(x.contentHash) == TextFields(x)[5];
    assert f[7] == c.iso(x.timestamp) && g[7] == c.iso(e.timestamp);
    assert f[8] == MetaHash(c, x) && g[8] == MetaHash(c, e);
  }

  /** The canonical text identifies a record exactly when the entry is complete. */
  lemma UnambiguousIffComplete(c: Crypto, e: AuditLog)
    requires FaithfulDates(c)
    ensures Unambiguous(c, e) <==> Complete(e)
  {
    if Complete(e) {
      var f := Fields(c, e);
      assert AllFree(f, '|') by {
        assert f[0] == Decimal(e.seqNo) && f[7] == c.iso(e.timestamp) && f[8] == MetaHash(c, e);
        assert forall i :: 1 <= i < 7 ==> f[i] == TextFields(e)[i - 1];
      }
      forall x: AuditLog | CanonicaliseEntry(c, x) == CanonicaliseEntry(c, e) && DigestsApart(c, x, e)
        ensures SameRecord(x, e)
      {
        FreeRecordsAreDetermined(f, Fields(c, x), '|');
        SameFieldsSameRecord(c, x, e);
      }
    } else {
      var x := Twin(c, e);
      assert !SameRecord(x, e);
    }
  }
}
