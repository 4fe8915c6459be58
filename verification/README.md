# Veritasor backend: verified models of its stateful core

This project models nine stateful or recursive components of the Veritasor attestation backend in Dafny and
proves what each is relied on for: over every run, every interleaving or every input.

Code that updates state is a class with the same fields and methods, each method proved against a function of the
old state; the theorems are lemmas about those functions and about runs of them. Code made of expressions is a set
of functions. `dafny verify dfyconfig.toml` checks everything.

| component | files |
|---|---|
| hash-chained audit log, anchors, keyset pagination | `AuditEntries`, `AuditChain`, `AuditAnchor`, `AuditPaging`, `AuditRepository` |
| Merkle tree | `Merkle`, `MerkleTheorems`, `MerkleFrontier` |
| circuit breaker | `CircuitBreaker` |
| rate limiters, in memory and on Redis | `FixedWindow`, `SlidingWindow`, `RedisStores` |
| idempotency store and middleware | `IdempotencyStore`, `IdempotencyMiddleware` |
| indexer rebuild | `IndexerRebuild` |
| replay of failed submissions | `ReplaySubmissions` |
| GraphQL introspection gate and depth limit | `IntrospectionGate`, `IntrospectionTermination`, `OperationDepth` |
| in-memory repositories with secondary indexes | `UserRepository`, `RolePromotion` |
| shared: stable sort and filter, delimiter-joined records, results | `Sorting`, `Text`, `Common` |

## Where the code does less, or more, than its comments say

Each of these is proved, with the exact condition under which the promise holds.

- **Tampering with any field is seen** (audit log, header comment): for changes that leave the stored hash alone, true
  exactly for complete entries: no text holds a `|`, resource id and content hash are present and not empty, and the
  metadata is truthy. Any other entry has a twin, another record with the same canonical text: a boundary between two
  texts moved, an absent text made empty or the reverse, absent metadata made null (`FieldEditsSeenIffComplete`).
- **Overwriting an entry, its hash included**: `OverwriteVerdict` gives the exact verdict for every record put in the
  place of one entry. A complete entry that is not the last is sealed against all of them
  (`CompleteEntriesAreSealed`); the last entry against none that carries its recomputed hash (`LastEntryIsNotSealed`).
- **Re-ordering entries is seen**: shuffling the array is never seen, because verification sorts by sequence number
  first (`AnyArrangementVerifies`). Re-ordering that renumbers, such as swapping two sequence numbers, is reported at
  the first position that no longer holds its entry (`ReorderingIsLocalised`, `SwappedNumbersShow`).
- **Deleting an entry is seen**: true for every entry but the last; deleting the last leaves a valid, shorter chain
  (`DeletionIsLocalised`). Anchors are what catches that (`AnchorPinsPast`).
- **The chain breaks at the tampered position**: for an edit that keeps the hash, true unless it lowers the sequence
  number by two or more; then verification reports the place the entry sorts to. When the edit raises it by two or
  more, the id reported is that of the next entry (`EditIsLocalised`).
- **Merkle roots identify leaf lists**: two lists of any lengths have the same root exactly when, at the level where
  the lower tree starts, the frontiers of what is hashed there agree; the frontier is the list with each odd level's
  last node repeated (`SameRootIff`). Lists of different lengths can share a root exactly when their trees are equally
  high, as long as no leaf is 64 bytes long (`LengthsShareRootIff`), and which lists do is decided by their own
  frontier (`AnotherLengthSameRootIff`). A 64-byte leaf can pass for a pair of digests: then every list shares its
  root with one half as long (`HalfAsManyLeaves`).
- **A Merkle proof is about the leaf at its index**: a proof as long as the tree is high is accepted exactly if it is
  the frontier's own proof of the leaf that stands at the index modulo the width of the frontier
  (`AcceptedProofIff`), so an index beyond the leaves can be accepted. A proof k steps shorter is accepted exactly for
  what was hashed into a node k levels up (`ShorterProofIff`); one m steps longer exactly if what its step m hashes is
  a leaf (`LongerProofIff`), which happens for a leaf that starts with a digest (`LeafPassesAsStep`) and never if all
  leaves are shorter than 32 bytes (`ShortLeavesRefuseLongerProofs`).
- **Up to `2 * max` across a boundary** (fixed window): a closed interval of the window's own length admits at most
  `2 * max - 1`; one millisecond more is needed for `2 * max`; both bounds are reached.
- **No boundary burst in the sliding window**: holds; but the background cleanup prunes with its own default window,
  and is harmless exactly when the limiter's window is no longer than that (`CleanupHarmlessIff`).
- **Deduplication by (business, period, merkleRoot)** in the replay: exact only when no field contains a colon
  (`KeyIsExactIffColonFree`).
- **Checkpointed rebuild**: the set of handled attestations is forgotten between runs, so a resumed run agrees with
  an uninterrupted one exactly when, from every page boundary on, the first event of each attestation repeats what
  the stream's first one said (`ResumeTransparentIff`). One eligible event per attestation is enough.
  The id `business:period` determines business and period, both non-empty, exactly when no colon stands after the
  first character of the business or before the last one of the period (`IdIsExactIff`), and every attestation gets
  its row exactly when no two share an id (`EveryAttestationGetsRowIff`).
- **Repeated events in a rebuild**: an attestation is marked as handled before its upsert, so when the upsert of its
  first eligible event fails, later events of the same run do not repair it (`RunWritesFirsts`).
- **Store keys per user**: over the keys the middleware lets through, two users are kept apart, with the strict key
  format, exactly when their tags differ (`StrictIsolatedIff`); with the loose one, exactly when neither tag, with its
  colon, can be completed to the other by the start of a key: it begins it, adds at most 248 characters, and the
  first of them is not white space (`LooseIsolatedIff`). Tenant-shaped identifiers are always kept apart
  (`TenantsAreIsolated`).
- **Introspection gate**: the search ends, given stack enough, exactly when it does not come to a fragment again that
  it is still searching; what lies behind a first hit, and fragments never spread, do not matter (`SearchEndsIff`). On
  a reachable cycle of any length no stack is deep enough (`CycleOverflows`). When it answers, the answer is exact
  (`AnswerIsExact`).
- **Depth limit**: fragments are not entered, and can hide any depth (`FragmentsHideDepth`). The measured depth is that
  of the expanded document exactly when no fragment, met on field level k, holds fields nested deeper than what is
  measured minus k (`MeasuredIsExpandedIff`); a document that passes the limit exceeds it in full exactly when some
  fragment reaches below the limit in this way (`LimitMissesIff`).
- **E-mail lookup**: nothing checks who owns an e-mail when a user is saved, so creating a second user with the e-mail
  of a live one, or renaming one to it, hides the first: the lookup then returns the second (`SecondUserHidesFirst`).
  While every live user is found by its own e-mail, an operation keeps it so exactly unless it does that
  (`ExactUnlessDuplicating`), and so for whole runs (`ExactRunIff`); `FindsAfterIff` says of every user in every state
  whether its e-mail finds it after an operation. A weaker promise, that the e-mail of every live user finds somebody,
  is broken exactly by deleting or renaming one of several users with the same e-mail (`FullUnlessStranding`).

## Assumptions

- Clocks do not run backwards where a predicate named `Monotone` or `Run` says so; nothing else is assumed of time.
- Hash functions are arbitrary functions. A theorem that needs more assumes only that strings actually hashed in
  the calls in question do not collide (`CollisionFree`, `Separates`, `PathSeparated`, `TreesSeparated`), and for the
  audit log that none of them hashes to the genesis value. Global injectivity into 32 bytes is impossible and not assumed.
- Audit ids are unique (`DistinctIds`), non-empty and lowercase hex, so that `localeCompare` and `<` order them alike.
  Cursors are modelled by their decoded payload: decoding an encoded cursor gives it back (src/utils/pagination.ts:39-62),
  and dates survive ISO formatting.
- Dates render without `|`, and different times differently (`FaithfulDates`); the metadata digests compared in an
  edit do not collide (`DigestsApart`).
- The event stream does not change during a rebuild, and pages are full except the last.
- Generated user and request ids are new.

## Model

| member | source | states |
|---|---|---|
| Text.DeterminedIffFree | src/repositories/auditLogRepository.ts:141-151 | joining a fixed number of texts with a separator loses nothing exactly when none of them contains it |
| Text.DelimiterHidesBoundary | src/repositories/auditLogRepository.ts:141-151 | for texts of which one contains the separator, a different list of as many texts with the same joined form |
| Text.DecimalReads | src/repositories/auditLogRepository.ts:142-142 | reading the rendered sequence number gives it back |
| Text.StrLessIff | src/repositories/auditLogRepository.ts:279-279 | string order is decided by the first differing character, or by one string ending |
| AuditEntries.UnambiguousIffComplete | src/repositories/auditLogRepository.ts:136-152 | the canonical text of an entry belongs to no other record exactly when no text holds a pipe and every optional field is present |
| AuditEntries.Twin | src/repositories/auditLogRepository.ts:146-149 | every entry that is not complete has another record with the same number, hash and canonical text |
| AuditEntries.MovedBoundary | src/repositories/auditLogRepository.ts:136-152 | for an entry with a pipe in a text field, another entry with the same canonical text, sequence number and timestamp |
| AuditEntries.CanonicalLayout | src/repositories/auditLogRepository.ts:133-152 | the nine fields in the documented order, separated by pipes, absent ones empty |
| AuditChain.AnyArrangementVerifies | src/repositories/auditLogRepository.ts:317-360 | every permutation of an append-only log verifies, checks all entries and reports the root of the last one |
| AuditChain.PrefixStaysWellFormed | src/repositories/auditLogRepository.ts:317-360 | every prefix of a valid log is valid |
| AuditChain.VerdictIsExact | src/repositories/auditLogRepository.ts:317-360 | for any entries in any order: all fields accept them if every link holds, otherwise all fields name the first broken one, with the count before it and the last hash as root |
| AuditChain.SameHashSamePast | src/repositories/auditLogRepository.ts:157-166 | equal chain hashes in two logs stand at the same index and seal the same canonical entries up to it |
| AuditChain.RootBindsLog | src/repositories/auditLogRepository.ts:317-360 | two entry lists, in any order, that verify with the same root have the same length and canonical entries |
| AuditChain.OverwriteVerdict | src/repositories/auditLogRepository.ts:317-360 | the exact verdict when any record, of any sequence number and hash, takes the place of entry k: unseen only in place, with the recomputed hash, and last or with the old hash |
| AuditChain.UnseenOverwrite | src/repositories/auditLogRepository.ts:317-360 | an overwrite in place with the recomputed hash verifies if it is the last entry or the hash stays |
| AuditChain.EditIsLocalised | src/repositories/auditLogRepository.ts:17-19 | an overwrite that keeps the hash and changes the canonical text is reported at index min(k, max(0, seq+1)), with the id found there |
| AuditChain.EditedOrder | src/repositories/auditLogRepository.ts:331-331 | sorting an edited log only moves the new entry to its place, unless its successor passes it |
| AuditChain.SkippedEntryShows | src/repositories/auditLogRepository.ts:335-350 | an entry never links directly to what precedes its predecessor |
| AuditChain.DeletionIsLocalised | src/repositories/auditLogRepository.ts:17-19 | deleting entry k is reported at k with the id of the next entry, except that deleting the last entry leaves a valid log |
| AuditChain.HiddenEdit | src/repositories/auditLogRepository.ts:136-152 | an overwrite that keeps sequence number, hash and canonical text verifies |
| AuditChain.FieldEditsSeenIffComplete | src/repositories/auditLogRepository.ts:17-19 | every change of the record of entry k that keeps its hash is reported exactly when the entry is complete |
| AuditChain.CompleteEntriesAreSealed | src/repositories/auditLogRepository.ts:17-19 | a complete entry that is not the last cannot be overwritten unseen, whatever hash the new record carries |
| AuditChain.LastEntryIsNotSealed | src/repositories/auditLogRepository.ts:327-350 | any record in the place of the last entry verifies with its recomputed hash |
| AuditChain.ReorderingIsLocalised | src/repositories/auditLogRepository.ts:17-19 | entries re-ordered, repeated or dropped under new sequence numbers are reported at the first position that holds another entry |
| AuditChain.SwappedNumbersShow | src/repositories/auditLogRepository.ts:17-19 | swapping two sequence numbers is reported at the smaller one |
| AuditAnchor.AppendKeepsWellFormed | src/repositories/auditLogRepository.ts:185-209 | appending an entry keeps numbering and every link of the chain |
| AuditAnchor.AnchorReports | src/jobs/auditAnchorJob.ts:82-89 | of any log: the last hash, validity, and the whole count or the number of entries before the first broken one |
| AuditAnchor.AnchorTaken | src/jobs/auditAnchorJob.ts:82-116 | in an append-only run an anchor records all entries, the last hash and a valid chain |
| AuditAnchor.AnchorPinsPast | src/jobs/auditAnchorJob.ts:82-116 | a later valid log whose entry count-1 carries an anchored root agrees with the anchored log on its first count entries |
| AuditAnchor.AnchorsStayTrue | src/jobs/auditAnchorJob.ts:82-116 | in every run of appends and anchors, each anchor ever taken stays true of the log |
| AuditPaging.EffectiveLimit | src/repositories/auditLogRepository.ts:228-230 | between 1 and 100 for every argument: positive integers capped at 100, anything else 20 |
| AuditPaging.BeforeIsStrict | src/repositories/auditLogRepository.ts:268-273 | the sort order is a strict order, total on entries with distinct ids |
| AuditPaging.RowsAreExact | src/repositories/auditLogRepository.ts:261-282 | what remains past a cursor is strictly descending and is exactly the matching entries past it |
| AuditPaging.PageIsExact | src/repositories/auditLogRepository.ts:261-292 | one page by fields: only entries asked for, newest first, every undelivered one comes later, and hasMore and nextCursor say exactly whether and where |
| AuditPaging.NextRowsAreTheRest | src/repositories/auditLogRepository.ts:275-290 | the cursor of the n-th row leaves exactly the rows after the n-th |
| AuditPaging.WalkDeliversEachOnce | src/repositories/auditLogRepository.ts:226-293 | with any appends between pages, the walk delivers in strictly descending order every matching entry present at the start, none twice, and nothing else than matching entries |
| AuditPaging.QuietWalkIsTheSortedLog | src/repositories/auditLogRepository.ts:226-293 | without appends the concatenated pages are the sorted filtered log, and every page but the last is full |
| AuditRepository.AuditLogRepository.CreateAuditLog | src/repositories/auditLogRepository.ts:185-209 | the log grows by exactly the new entry, each field stated, its hash over the previous hash or 64 zeros, a pipe and its own text |
| AuditRepository.AuditLogRepository.VerifyChain | src/repositories/auditLogRepository.ts:317-360 | valid with all fields exactly if every link in sequence order holds; otherwise checkedCount, index and id of the first broken link and the last hash as root |
| AuditRepository.AuditLogRepository.VerifyStore | src/repositories/auditLogRepository.ts:317-371 | on the store, verification is valid, checks every entry, and its root is getCurrentChainRoot |
| AuditRepository.AuditLogRepository.GetCurrentChainRoot | src/repositories/auditLogRepository.ts:368-371 | the hash of the last entry, none for an empty log |
| AuditRepository.AuditLogRepository.QueryAuditLogs | src/repositories/auditLogRepository.ts:226-293 | the exact conditions of each argument error, otherwise one page of the sorted filtered rows past the cursor |
| AuditRepository.AuditLogRepository.MatchingRows | src/repositories/auditLogRepository.ts:261-266 | the five optional filters in sequence keep exactly the entries that match the query |
| AuditRepository.AuditLogRepository.FollowPages | src/repositories/auditLogRepository.ts:275-293 | following nextCursor on a log without appends terminates and is a complete walk |
| Merkle.MerkleTree.constructor | src/services/merkle.ts:58-74 | the level loop builds exactly the recursively defined levels over the hashed leaves |
| Merkle.MerkleTree.HashPairs | src/services/merkle.ts:64-73 | one round hashes neighbours in pairs and an odd last node with itself |
| Merkle.MerkleTree.Create | src/services/merkle.ts:42-74 | rejects exactly empty lists, too long lists and empty strings, in that order, and builds the tree of any other |
| Merkle.MerkleTree.GetRoot | src/services/merkle.ts:76-79 | the top of the stored levels is the recursively defined root of the bottom level |
| Merkle.MerkleTree.GetProof | src/services/merkle.ts:81-98 | the sibling path of the recursive definition, empty for an index outside the leaves |
| Merkle.MerkleTree.VerifyProof | src/services/merkle.ts:100-117 | accepts exactly when climbing from the leaf's digest ends in the given root |
| MerkleTheorems.LoopComputesNodes | src/services/merkle.ts:63-73 | every node of every level equals the node of an independent top-down definition |
| MerkleTheorems.TreeIsItsNodes | src/services/merkle.ts:63-79 | one level per height, and the root is the single node at full height |
| MerkleTheorems.EveryLeafVerifies | src/services/merkle.ts:76-117 | for every leaf list and index, the tree's own proof of the leaf is accepted against its root |
| MerkleTheorems.OwnProofClimbs | src/services/merkle.ts:81-117 | the tree's own proof climbs to the root and is as long as the tree is high |
| MerkleTheorems.ClimbPinsNode | src/services/merkle.ts:100-117 | with arbitrary siblings, reaching the tree's node above position i means starting from the tree's node i |
| MerkleTheorems.AcceptedProofIsAboutLeaf | src/services/merkle.ts:100-117 | an accepted proof of the tree's height, with arbitrary siblings, is about leaf i |
| MerkleTheorems.ShorterProofMeansInnerNode | src/services/merkle.ts:100-117 | a proof that stops k levels early, whatever its siblings, is accepted exactly for the digest of an inner node with that node's own siblings |
| MerkleTheorems.RootBindsLeaves | src/services/merkle.ts:58-79 | equally long leaf lists with the same root hold the same bytes |
| MerkleTheorems.RepeatingOddLastKeepsRoot | src/services/merkle.ts:66-69 | for odd counts from three on, repeating the last leaf keeps the root |
| MerkleTheorems.HeightIsCeilLog2 | tests/README.md:558-558 | proof length is the base-two logarithm of the leaf count, rounded up |
| MerkleTheorems.TreeIsLinear | tests/README.md:558-558 | the tree holds at most 2n + ceil(log2 n) nodes |
| MerkleFrontier.RootOfFrontier | src/services/merkle.ts:63-74 | repeating each odd level's last node, down to the leaves, keeps the root |
| MerkleFrontier.EqualHeightSameRootIff | src/services/merkle.ts:58-79 | lists with equally high trees share a root exactly when their frontiers are the same |
| MerkleFrontier.SameRootIff | src/services/merkle.ts:58-79 | lists of any lengths share a root exactly when the frontiers at the level where the lower tree starts are the same |
| MerkleFrontier.AnotherLengthSameRootIff | src/services/merkle.ts:58-79 | a list of m leaves with the root of a given list and an equally high tree exists exactly when the first m frontier leaves have the same frontier |
| MerkleFrontier.LengthsShareRootIff | src/services/merkle.ts:58-79 | lists of n and m leaves can share a root, no 64-byte leaf involved, exactly when their trees are equally high |
| MerkleFrontier.HalfAsManyLeaves | src/services/merkle.ts:58-74 | for every list of at least two leaves, a list of half as many 64-byte leaves with the same root |
| MerkleTheorems.OnlyOwnProofClimbs | src/services/merkle.ts:100-117 | at full length only the tree's own proof from the tree's own node reaches the root |
| MerkleFrontier.ClimbReadsLowBits | src/services/merkle.ts:107-115 | verification depends on the index only modulo two to the proof length |
| MerkleFrontier.AcceptedProofIff | src/services/merkle.ts:100-117 | a proof of the tree's height is accepted, at any index, exactly if it is the frontier's own proof of the leaf standing there modulo the frontier's width |
| MerkleFrontier.ShorterProofIff | src/services/merkle.ts:100-117 | a proof k steps shorter is accepted, at any index, exactly if it is the own proof of the string hashed into the node standing there k levels up |
| MerkleFrontier.LongerProofIff | src/services/merkle.ts:100-117 | a proof m steps longer is accepted exactly if what its step m hashes is the leaf standing there and the rest is that leaf's own proof |
| MerkleFrontier.ShortLeavesRefuseLongerProofs | src/services/merkle.ts:100-117 | with all leaves shorter than 32 bytes no longer proof is accepted |
| MerkleFrontier.LeafPassesAsStep | src/services/merkle.ts:100-117 | a leaf that starts with the digest of x lets x be accepted with one more step |
| CircuitBreaker.RedisCircuitBreaker.constructor | src/redis.ts:298-302 | starts CLOSED with thresholds 5 and 10000 unless given |
| CircuitBreaker.RedisCircuitBreaker.Transition | src/redis.ts:310-319 | the new state, with failures and gate cleared on CLOSED and the gate set on OPEN |
| CircuitBreaker.RedisCircuitBreaker.Admit | src/redis.ts:325-348 | admitted exactly when CLOSED or the clock has reached the gate; a probe leaves HALF_OPEN with the gate one timeout on |
| CircuitBreaker.RedisCircuitBreaker.Settle | src/redis.ts:350-363 | state, failures and gate after each outcome in each state the breaker may meanwhile have reached |
| CircuitBreaker.RedisCircuitBreaker.RecordFailure | src/redis.ts:366-383 | what a counted failure does in each state |
| CircuitBreaker.RedisCircuitBreaker.Reset | src/redis.ts:388-390 | back to the initial breaker |
| CircuitBreaker.ProbesAreSpaced | src/redis.ts:325-348 | in every outage of every interleaving, the n-th admitted operation comes at least n reset timeouts after the trip, and HALF_OPEN needs one |
| CircuitBreaker.AdmissionsAreApart | src/redis.ts:325-348 | within an outage any later admission is at least one timeout after a probe, a trip or a re-opening |
| CircuitBreaker.GateIsExact | src/redis.ts:310-348 | during an outage the gate stands exactly one timeout after the last probe, trip or re-opening |
| CircuitBreaker.AdmittedIff | src/redis.ts:325-348 | during an outage a call is let through exactly when one timeout has passed since then, and leaves HALF_OPEN |
| CircuitBreaker.RecoveryIsTried | src/redis.ts:329-348 | after a trip with no call let through since, a call one timeout later is |
| CircuitBreaker.StepsOfTheBreaker | src/redis.ts:325-390 | CLOSED admits every call unchanged; a success while HALF_OPEN closes, a failure re-opens with the gate one timeout on; reset closes |
| CircuitBreaker.OutageEndsBySuccess | src/redis.ts:350-357 | an outage ends only by reset or by the success, while HALF_OPEN, of an operation admitted earlier, no sooner than one timeout after the trip |
| CircuitBreaker.FailuresCountStreak | src/redis.ts:350-383 | while CLOSED, failures equals the failures since the last success or reset and stays below the threshold |
| CircuitBreaker.TripsExactlyAtThreshold | src/redis.ts:377-382 | a CLOSED breaker opens exactly on the failure that completes the threshold |
| CircuitBreaker.IgnoredCompletions | src/redis.ts:358-363 | redirections, and any completion while OPEN, change nothing |
| FixedWindow.MemoryStore.Increment | src/middleware/rateLimiter.ts:53-63 | the key's record opened, reopened or counted up, and no other key touched |
| FixedWindow.MemoryStore.Cleanup | src/middleware/rateLimiter.ts:65-71 | deletes exactly the expired records, in whatever order they are met |
| FixedWindow.MemoryStore.Reset | src/middleware/rateLimiter.ts:73-75 | empties the store |
| FixedWindow.CleanupNeverChangesACount | src/middleware/rateLimiter.ts:53-71 | a run with cleanups anywhere returns the same records as without them |
| FixedWindow.BurstBound | src/middleware/rateLimiter.ts:17-21 | any closed interval of length windowMs admits at most 2*max-1 requests of a key |
| FixedWindow.BoundaryBurstBound | src/middleware/rateLimiter.ts:17-21 | any closed interval of length windowMs+1 admits at most 2*max |
| FixedWindow.BoundaryBurstIsReached | src/middleware/rateLimiter.ts:17-21 | a run in which 2*max pass within windowMs+1 |
| FixedWindow.BurstBoundIsReached | src/middleware/rateLimiter.ts:17-21 | a run in which 2*max-1 pass within windowMs |
| SlidingWindow.SlidingWindowMemoryStore.Increment | src/middleware/rateLimiter.ts:287-294 | the key's log pruned and extended, its length returned, no other key touched |
| SlidingWindow.SlidingWindowMemoryStore.Cleanup | src/middleware/rateLimiter.ts:403-413 | every log pruned, empty ones dropped, in whatever order they are met |
| SlidingWindow.CleanedByMembers | src/middleware/rateLimiter.ts:403-413 | a cleanup leaves a key exactly the calls inside its window, and no entry if there is none |
| SlidingWindow.CountIsCallsInWindow | src/middleware/rateLimiter.ts:23-26 | the returned count is the number of calls in (now-windowMs, now], with cleanups and other keys in between |
| SlidingWindow.NoWindowExceedsMax | src/middleware/rateLimiter.ts:23-26 | no half-open interval of the window's length, anywhere, admits more than max |
| SlidingWindow.CleanupHarmlessIff | src/middleware/rateLimiter.ts:403-418 | the background cleanup never changes a count exactly when the limiter's window is at most the cleanup's |
| SlidingWindow.LostCall | src/middleware/rateLimiter.ts:403-418 | for a longer limiter window, a run in which the cleanup changes a count |
| RedisStores.EvalIncrement | src/middleware/rateLimiter.ts:86-142 | ends for every server with at most maxRedirections+1 evals, follows no redirection twice, and the last outcome decides the result |
| RedisStores.ExecIncrement | src/middleware/rateLimiter.ts:185-272 | ends for every server within maxRetries+1+maxRedirections attempts although a redirection gives its attempt back; it stops at the first attempt that is neither a new redirection followed nor retried, and that attempt alone decides between the count and each error |
| RedisStores.EveryCallIsAccounted | src/middleware/rateLimiter.ts:185-233 | on every interleaving, whichever EXECs abort, a returned call has committed once, plus once per lost reply; an aborted attempt adds nothing; one member per call |
| RedisStores.UncontendedCallReturns | src/middleware/rateLimiter.ts:185-233 | from every reachable state a new call that executes without abort or loss returns one more than the members still in its window |
| RedisStores.RacingClientsMirrorMemoryStore | src/middleware/rateLimiter.ts:185-233 | without lost replies, all committed counts are those of the in-memory sliding store run on the commit sequence, whatever the timestamp order and whichever EXECs abort |
| RedisStores.ReturnedCountIsInMemoryCount | src/middleware/rateLimiter.ts:277-283 | a returned count is the in-memory count at the one position where the call committed |
| IdempotencyStore.InMemoryIdempotencyStore.PruneExpired | src/middleware/idempotency.ts:357-366 | removes exactly the expired rows and returns how many |
| IdempotencyStore.InMemoryIdempotencyStore.Get | src/middleware/idempotency.ts:376-387 | the live entry or nothing; only an expired row of the key itself is dropped |
| IdempotencyStore.InMemoryIdempotencyStore.Set | src/middleware/idempotency.ts:392-413 | stores the row, pruning when full, and refuses when still full |
| IdempotencyStore.InMemoryIdempotencyStore.Delete | src/middleware/idempotency.ts:418-422 | removes the key alone |
| IdempotencyStore.InMemoryIdempotencyStore.Clear | src/middleware/idempotency.ts:427-429 | empties the store |
| IdempotencyStore.InMemoryIdempotencyStore.SweepExpired | src/middleware/idempotency.ts:435-441 | removes exactly the expired rows and returns how many |
| IdempotencyStore.InMemoryIdempotencyStore.Count | src/middleware/idempotency.ts:447-449 | the number of rows |
| IdempotencyStore.StoreRefinesTimedMap | src/middleware/idempotency.ts:349-450 | in every run each later get answers as a map that never prunes, sweeps or drops, and at most 10000 rows are held |
| IdempotencyStore.SetKeepsLive | src/middleware/idempotency.ts:392-413 | a set is refused exactly when 10000 live rows exist |
| IdempotencyStore.LatestAcceptedSetDecides | src/middleware/idempotency.ts:376-413 | the latest accepted set of a key is what the map holds for it, until deleted or cleared, refused sets of the same key and everything else notwithstanding |
| IdempotencyStore.SizeIsBounded | src/middleware/idempotency.ts:347-349 | no run exceeds the size limit |
| IdempotencyMiddleware.Middleware.Before | src/middleware/idempotency.ts:547-605 | the condition of each answer: without a live row proceed with the own key and the digest of the own body, with one replay or refuse by that digest; only an expired row of the own key is dropped on the way |
| IdempotencyMiddleware.Middleware.RunHandler | src/middleware/idempotency.ts:607-637 | the store after any sequence of status and json calls: every 2xx json stored under the status in force |
| IdempotencyMiddleware.EveryAnswerIsStored | src/middleware/idempotency.ts:610-633 | every json call under a 2xx status is stored with the status set last, 200 if none, and its own body; nothing else is |
| IdempotencyMiddleware.OneAnswer | src/middleware/idempotency.ts:610-633 | what a handler that answers once leaves in the store |
| IdempotencyMiddleware.TrimRemovesWhite | src/middleware/idempotency.ts:555-560 | trimming takes white space off both ends and nothing else |
| IdempotencyMiddleware.UuidShapeIff | src/middleware/idempotency.ts:46-46 | the strict format is five hex groups of 8, 4, 4, 4 and 12 joined by hyphens |
| IdempotencyMiddleware.StoreKeyLayout | src/middleware/idempotency.ts:483-489 | the layout of a store key, tenant-shaped users in braces |
| IdempotencyMiddleware.SameBodyIsReplayed | src/middleware/idempotency.ts:585-636 | from the first request on: a later request for its key within the TTL is replayed exactly if its own body has the digest of the first body, and otherwise refused; the handler does not run |
| IdempotencyMiddleware.RepeatsAreReplayed | src/middleware/idempotency.ts:587-636 | after a stored 2xx response, every later request for the key within the TTL is replayed for the same body and refused for any other, the handler never runs, other keys interleave freely |
| IdempotencyMiddleware.UsableIffTrimmed | src/middleware/idempotency.ts:554-580 | the keys let through are exactly those of valid format without white space at either end |
| IdempotencyMiddleware.StrictIsolatedIff | src/middleware/idempotency.ts:462-489 | with the strict key format two users share no store key exactly when their tags differ |
| IdempotencyMiddleware.LooseIsolatedIff | src/middleware/idempotency.ts:462-489 | with the loose key format two users share no store key exactly when neither tag with its colon begins the other by at most 248 further characters, the first not white space |
| IdempotencyMiddleware.TenantsAreIsolated | src/middleware/idempotency.ts:483-489 | for tenant-shaped users the store key determines user and idempotency key |
| IndexerRebuild.ProcessEvents | scripts/rebuild-indexer.ts:219-361 | unless a fetch fails, table and statistics are those of folding the stream, whatever the batch size; a dry run leaves the table as it was; the checkpoint is the end of the last handled page; cut off after any event or save, the run leaves what a pass of the crash model leaves |
| IndexerRebuild.HandlePage | scripts/rebuild-indexer.ts:279-333 | the inner loop folds one page and leaves a pass after each event |
| IndexerRebuild.SaveCheckpoint | scripts/rebuild-indexer.ts:335-344 | the position is saved, the table untouched, and a pass left |
| IndexerRebuild.IdIsExactIff | scripts/rebuild-indexer.ts:132-134 | among non-empty texts the attestation id determines business and period exactly when no colon stands after the first character of the business or before the last of the period |
| IndexerRebuild.EveryAttestationGetsRowIff | scripts/rebuild-indexer.ts:304-311 | every eligible attestation of the stream gets a row exactly when no two different ones share an id |
| IndexerRebuild.HandleEvent | scripts/rebuild-indexer.ts:279-333 | statistics, seen set and table after one event, by condition and field, in every branch |
| IndexerRebuild.StatsAddUp | scripts/rebuild-indexer.ts:225-233 | every event is counted once; created, updated, skipped and errors make up all but events of failed calls |
| IndexerRebuild.StatsAreExact | scripts/rebuild-indexer.ts:279-333 | created, updated, skipped and errors are each the number of events with that outcome, read off the stream, the failing upserts and the starting table |
| IndexerRebuild.DryRunWritesNothing | scripts/rebuild-indexer.ts:313-318 | a dry run leaves the table as it was |
| IndexerRebuild.OtherBusinessesUntouched | scripts/rebuild-indexer.ts:179-187 | with a business asked for, no other business's attestation changes |
| IndexerRebuild.RowUntouched | scripts/rebuild-indexer.ts:306-321 | a row whose id no eligible event carries keeps even its version |
| IndexerRebuild.RunWritesFirsts | scripts/rebuild-indexer.ts:304-333 | a run leaves for each attestation its first eligible event exactly when that upsert succeeds, the old row otherwise, and changes no other row |
| IndexerRebuild.PassWritesFirsts | scripts/rebuild-indexer.ts:304-333 | when upserts succeed, a run leaves for each attestation its first eligible event and changes no other row |
| IndexerRebuild.EveryEventHandled | scripts/rebuild-indexer.ts:234-261 | wherever runs crash, resuming handles every event at least once |
| IndexerRebuild.CheckpointsAreBoundaries | scripts/rebuild-indexer.ts:335-344 | a run can only resume at the end of the stream or a whole number of pages from the start |
| IndexerRebuild.ResumeTransparentIff | scripts/rebuild-indexer.ts:234-361 | every crash history leaves the attestations of an uninterrupted run exactly when from every page boundary on the first events agree |
| IndexerRebuild.OneEventPerIdResumes | scripts/rebuild-indexer.ts:234-361 | resuming is transparent when each attestation has at most one eligible event |
| ReplaySubmissions.DeduplicateEntries | src/startup/replayFailedSubmissions.ts:58-68 | keeps of every key the first entry, in order, and nothing else |
| ReplaySubmissions.ReplayFailedSubmissions | src/startup/replayFailedSubmissions.ts:87-209 | scanned is the number of entries met; attempted plus skipped is the number of distinct keys; succeeded plus failed is attempted; no key submitted twice; skipping only for missing credentials or budget |
| ReplaySubmissions.ScanPages | src/startup/replayFailedSubmissions.ts:103-131 | the scan meets every entry of every page once, counts the expired ones and collects the usable others |
| ReplaySubmissions.Resubmit | src/startup/replayFailedSubmissions.ts:142-199 | submits a prefix of the list and accounts for all of it |
| ReplaySubmissions.QuietScanIsExact | src/startup/replayFailedSubmissions.ts:106-131 | with no appends the pages hold exactly the failed submissions of the log, each once |
| ReplaySubmissions.BusyScanMissesNothing | src/startup/replayFailedSubmissions.ts:106-131 | with appends between pages every failed submission present at the start is met, none twice |
| ReplaySubmissions.KeyIsExactIffColonFree | src/startup/replayFailedSubmissions.ts:62-62 | the key never merges two attestations exactly when no field contains a colon |
| IntrospectionGate.SearchDecidesExpansion | src/routes/admin.graphql.ts:94-122 | on acyclic fragments the search ends within the depth of the expanded document and finds exactly whether that has a __schema or __type field |
| IntrospectionGate.ExpansionIsSpreadFree | src/routes/admin.graphql.ts:112-119 | the expanded document contains no fragment spread |
| IntrospectionGate.LastDefinitionCounts | src/routes/admin.graphql.ts:125-130 | a fragment name stands for its last definition, and for none if there is none |
| IntrospectionGate.SelfSpreadOverflows | src/routes/admin.graphql.ts:112-119 | the smallest failing input: on a fragment that spreads itself no stack is deep enough |
| IntrospectionTermination.SearchEndsIff | src/routes/admin.graphql.ts:94-122 | over any fragments the search ends exactly when it does not come, before a hit, to a fragment it is still searching |
| IntrospectionTermination.CycleOverflows | src/routes/admin.graphql.ts:112-119 | on a cycle of opened fragments of any length no stack gives an answer |
| IntrospectionTermination.OpenedIsAnswered | src/routes/admin.graphql.ts:94-122 | a search that answers has answered for every fragment it opened, with less stack |
| IntrospectionTermination.MoreStack | src/routes/admin.graphql.ts:94-122 | more stack never changes an answer |
| IntrospectionTermination.AnswerIsExact | src/routes/admin.graphql.ts:94-122 | on every document, cyclic ones included, an answer says exactly whether a __schema or __type field can be reached |
| IntrospectionTermination.DocumentSearchEndsIff | src/routes/admin.graphql.ts:124-139 | isIntrospectionQuery ends exactly when its operations, in order, reach no cycle before a hit |
| IntrospectionTermination.DocumentAnswerIsExact | src/routes/admin.graphql.ts:124-139 | its answer says exactly whether some operation can reach an introspection field |
| IntrospectionGate.IsIntrospectionQuery | src/routes/admin.graphql.ts:124-139 | the search of the operations in order, and for every acyclic document true exactly when some expanded operation asks for introspection |
| OperationDepth.Walk | src/routes/admin.graphql.ts:72-81 | the running maximum raised to the depth of nested field selections |
| OperationDepth.GetOperationDepth | src/routes/admin.graphql.ts:69-90 | the deepest query operation as seen through fields; the full nesting depth when there are no fragments |
| OperationDepth.WalkedIsFieldDepth | src/routes/admin.graphql.ts:72-81 | the measured depth never exceeds the nesting depth and equals it without fragments |
| OperationDepth.WalkedAtMostExpanded | src/routes/admin.graphql.ts:72-81 | the measured depth never exceeds the depth of the fragment-expanded document |
| OperationDepth.FragmentsHideDepth | src/routes/admin.graphql.ts:69-90 | for every n an acyclic document of measured depth 1 whose expansion is n+1 deep |
| OperationDepth.WithinIff | src/routes/admin.graphql.ts:72-81 | an expanded selection set is within a limit exactly when it is as measured and every fragment met on field level k is within the limit minus k |
| OperationDepth.MeasuredIsExpandedIff | src/routes/admin.graphql.ts:69-90 | the measured depth is that of the expanded document exactly when no fragment reaches below it |
| OperationDepth.LimitMissesIff | src/routes/admin.graphql.ts:236-237 | a document that passes the limit exceeds it in full exactly when some fragment reaches below the limit |
| OperationDepth.ValidateOperations | src/routes/admin.graphql.ts:223-249 | accepts exactly documents without mutations whose measured depth is at most 5, and why it refuses others |
| UserRepository.Users.SaveUser | src/repositories/userRepository.ts:53-58 | user and index entry written, nothing else |
| UserRepository.Users.CreateUser | src/repositories/userRepository.ts:70-86 | the stored user with default role, and the state after it |
| UserRepository.Users.FindUserByEmail | src/repositories/userRepository.ts:95-101 | the user the index leads to, none for a missing entry |
| UserRepository.Users.UpdateUser | src/repositories/userRepository.ts:119-152 | field by field: a value given is taken, null clears, anything not mentioned stays; the index follows a changed e-mail and nothing else moves |
| UserRepository.Users.PromoteUserToBusinessAdmin | src/repositories/userRepository.ts:161-204 | the outcome for each current role; only a regular user changes, and becomes a business admin |
| UserRepository.Users.DeleteUser | src/repositories/userRepository.ts:305-313 | user and index entry of its e-mail removed, and whether there was one |
| UserRepository.StepKeepsSound | src/repositories/userRepository.ts:53-58 | every operation keeps each index entry pointing to a live user with that e-mail |
| UserRepository.FindsAfterIff | src/repositories/userRepository.ts:53-58 | from any sound index, a user is found by its own e-mail after an operation exactly if it was saved by it, or found before and its e-mail not taken |
| UserRepository.ExactUnlessDuplicating | src/repositories/userRepository.ts:53-58 | while every user is found by its own e-mail, an operation keeps it so exactly unless it creates a user with, or renames one to, an e-mail another live user holds |
| UserRepository.ExactRunIff | src/repositories/userRepository.ts:53-58 | through a whole run every user is found by its own e-mail exactly when no operation of it duplicates an e-mail |
| UserRepository.SecondUserHidesFirst | src/repositories/userRepository.ts:70-86 | a run of two creations after which the first user's e-mail finds the second |
| UserRepository.FullUnlessStranding | src/repositories/userRepository.ts:146-150 | from an index in which every live user's e-mail finds somebody, an operation leaves one that finds nobody exactly when it deletes or renames a user whose e-mail another shares |
| UserRepository.LookupsAreSound | src/repositories/userRepository.ts:95-101 | in every run a lookup returns only a live user with the e-mail asked for |
| UserRepository.LookupEqualsScan | src/repositories/userRepository.ts:88-101 | while e-mails stay unique, a lookup finds exactly what scanning all users finds |
| RolePromotion.RolePromotionRequests.SaveRequest | src/repositories/rolePromotionRequestRepository.ts:35-48 | request stored, listed once under its target, index agreement kept |
| RolePromotion.RolePromotionRequests.CreateRolePromotionRequest | src/repositories/rolePromotionRequestRepository.ts:54-74 | the pending request with its expiry, added to the store |
| RolePromotion.RolePromotionRequests.UpdateRolePromotionRequest | src/repositories/rolePromotionRequestRepository.ts:83-99 | field by field: status and approval are the given values or stay, all else stays, order and index too |
| RolePromotion.RolePromotionRequests.FindPendingRolePromotionRequestsForTarget | src/repositories/rolePromotionRequestRepository.ts:101-109 | the lookup equals scanning all requests by target and pending status, each once, in creation order |
| RolePromotion.RolePromotionRequests.SweepExpiredRequests | src/repositories/rolePromotionRequestRepository.ts:111-123 | exactly the overdue pending requests become expired, and their number is returned |
| RolePromotion.SaveKeepsIndexed | src/repositories/rolePromotionRequestRepository.ts:35-48 | after saving, every target's list is the scan of all requests for it in creation order |
| RolePromotion.LookupEqualsScan | src/repositories/rolePromotionRequestRepository.ts:101-109 | pending requests taken from a target's list are those found by scanning everything |
| RolePromotion.ScanMembers | src/repositories/rolePromotionRequestRepository.ts:101-109 | the scan holds exactly the pending requests for the target, each once |

## Left out

- SHA-256, HMAC, hex and JSON encodings: hashes are functions on byte or character sequences, roots and proofs are
  bytes, bodies and metadata are their JSON text; equal-length hashes make `timingSafeEqual` plain equality.
  Metadata values that JSON cannot tell apart are one value.
- Metrics, logging, response headers, Express and Redis connections, SQL text, and Soroban submission: only the
  outcomes they return are modelled.
- getAllAuditLogs, getAuditLogsByUser and the other read-only lookups: they would only add easy members.
- Aliasing: stored audit metadata, users and requests are values, and returned copies cannot reach the store;
  the fixed-window store's returned record is a copy.
- JavaScript map iteration order: deleting loops may visit keys in any order, except the promotion requests, whose
  creation order is modelled.
- Redis key expiry: the server's PEXPIRE clock and its pruning of an idle set are not modelled; RedisStore's counter
  is the server's answer.
- RedisIdempotencyStore, its unused batch fields, the sweeper's timer, key rotation of the audit secret, and the
  anchor job's timer.
- IdempotencyMiddleware.RepeatsAreReplayed: assumes the storing request has no other running request for its key,
  because the middleware reserves nothing before its handler runs; two overlapping first requests both run it.
  In the run model each handler answers once with json, while `RunHandler` covers any number of calls.
- Custom validateKey and getUserKey functions, which characters an HTTP header can carry, and failures of the store
  itself.
- Concurrent updates between the awaits of sweepExpiredRequests: a sweep is one step.
- IndexerRebuild.ResumeTransparentIff: assumes runs end by crashing, not by failed upserts, and compares merkle root
  and transaction hash, not the version counter, which counts writes. ProcessEvents itself covers failing upserts and
  fetches. An upsert that returns no row is not modelled. The event
  parsers are inputs.
- Replay: the retry budget is an input per submission; its refill policy is not modelled.
- The rest of the GraphQL endpoint: persisted queries, response handling and metrics are plumbing.
- Sequence numbers of edited audit entries are integers, and leaf indexes are integers.
- findUserById, password and reset-token helpers, and user listing: single-map operations.
