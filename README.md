# In-memory audit trail of a Raft node, in Dafny

This project models `InMemoryAuditTrail`, the in-memory replicated log and persistent state of a
node of the Raft consensus algorithm (log replication is section 5.3 of the Raft paper, "In Search
of an Understandable Consensus Algorithm"). The trail holds four pieces of state:

- a log of entries whose index 0 is a fixed sentinel entry (term 0, empty payload, not a snapshot,
  reusable);
- a commit index, starting at 0;
- the current term;
- the vote record, empty or naming one cluster member.

Files:

- `results.dfy`: `Option`, the exceptions the trail throws (`Error`), and `Result`.
- `log_entries.dfy`: the entry datatype, the sentinel, and the buffering step that stores an
  incoming entry as itself when it is reusable and as an in-memory copy otherwise.
- `audit_trail_spec.dfy`: the trail as a value (`Trail`). It has one function per public call,
  giving the call's result and the next state. It also proves the safety properties: across any
  sequence of calls, committed entries are never lost or changed and the commit index never
  decreases.
- `audit_trail.dfy`: the class `InMemoryAuditTrail`. It has the source's fields, and its log is an
  `array`. An append builds a new array and swaps it in, as the source does. Each method's
  postcondition equates the new state and the result with the spec function for the same call.
- `commit_overflow.dfy`: `CommitAsync` in 64-bit arithmetic. See "Findings".

Each public call is one atomic step. Cluster members are values of a type parameter `M`, and
equality of members stands in for reference equality.

A reader who knows Raft might expect the following to behave differently. The model does what
the code does:

- `CommitAsync` returns the raw count, which can be zero or negative, rather than a count clamped
  to 0 (src/cluster/DotNext.Net.Cluster/Net/Cluster/Consensus/Raft/InMemoryAuditTrail.cs:179 and :183).
- `CommitAsync` does not check the end index against the log, so the commit index can move past
  the last index (:179-181; `CommitCanOverrunLog`).
- The commit-wait guard is `index > 1`, so it rejects index 1, the first real entry, as well as 0
  and negative indices (:187).
- Changing the term does not reset the vote record (:95-101; `TermChangeKeepsVote`). The vote is
  cleared only when a caller stores a null member (:103-107; `ClearedVoteAllowsAll`).
- Entries are buffered while the write lock is held, not before the lock is taken (:159-168).

## Model

| member | source | states |
|---|---|---|
| `LogEntries.Buffered` | src/cluster/DotNext.Net.Cluster/Net/Cluster/Consensus/Raft/InMemoryAuditTrail.cs:31-51 | the buffered copy keeps the term, the instant and the payload; it is never a snapshot |
| `LogEntries.Stored` | src/cluster/DotNext.Net.Cluster/Net/Cluster/Consensus/Raft/InMemoryAuditTrail.cs:164-167 | a reusable entry is stored as itself, any other as a non-snapshot copy; term, instant and payload always survive |
| `LogEntries.StoredAll` | src/cluster/DotNext.Net.Cluster/Net/Cluster/Consensus/Raft/InMemoryAuditTrail.cs:161-168 | a stored batch has the input's length, and its entry i is what is stored for input entry i |
| `LogEntries.StoredIsIdempotent` | src/cluster/DotNext.Net.Cluster/Net/Cluster/Consensus/Raft/InMemoryAuditTrail.cs:164-167 | storing an already stored entry changes nothing |
| `LogEntries.StoredAllOfReusable` | src/cluster/DotNext.Net.Cluster/Net/Cluster/Consensus/Raft/InMemoryAuditTrail.cs:164-166 | a batch of reusable entries is stored unchanged |
| `AuditTrailSpec.Initial` | src/cluster/DotNext.Net.Cluster/Net/Cluster/Consensus/Raft/InMemoryAuditTrail.cs:69-85 | a new trail holds just the sentinel, with commit index 0, term 0 and no vote |
| `AuditTrailSpec.LastIndex` | src/cluster/DotNext.Net.Cluster/Net/Cluster/Consensus/Raft/InMemoryAuditTrail.cs:114-115 | the committed query gives the commit index; the other gives the index of the last entry, never below 0 |
| `AuditTrailSpec.EntriesInRange` | src/cluster/DotNext.Net.Cluster/Net/Cluster/Consensus/Raft/InMemoryAuditTrail.cs:117-128 | fails exactly when start < 0, end < 0 or end is past the log, with the source's exception for each; empty when end < start; otherwise the e-s+1 entries at s..e in order |
| `AuditTrailSpec.AppendEntries` | src/cluster/DotNext.Net.Cluster/Net/Cluster/Consensus/Raft/InMemoryAuditTrail.cs:136-153 | throws InvalidAppendIndex exactly when the start index is at or below the commit index; otherwise returns the start index (the old length when absent), keeps every entry before it, and places the batch right after |
| `AuditTrailSpec.AppendBatch` | src/cluster/DotNext.Net.Cluster/Net/Cluster/Consensus/Raft/InMemoryAuditTrail.cs:155-171 | an empty batch is rejected before anything else; otherwise the stored batch is appended |
| `AuditTrailSpec.Commit` | src/cluster/DotNext.Net.Cluster/Net/Cluster/Consensus/Raft/InMemoryAuditTrail.cs:173-184 | the count is target minus commit index, unclamped; the commit index becomes the target exactly when the count is positive, so it never decreases; log, term and vote are untouched |
| `AuditTrailSpec.UpdateTerm` | src/cluster/DotNext.Net.Cluster/Net/Cluster/Consensus/Raft/InMemoryAuditTrail.cs:95-99 | any value is stored as the term, without a monotonicity check; nothing else changes |
| `AuditTrailSpec.IncrementTerm` | src/cluster/DotNext.Net.Cluster/Net/Cluster/Consensus/Raft/InMemoryAuditTrail.cs:101 | the term grows by exactly one; the vote record is kept |
| `AuditTrailSpec.UpdateVotedFor` | src/cluster/DotNext.Net.Cluster/Net/Cluster/Consensus/Raft/InMemoryAuditTrail.cs:103-107 | the vote record becomes exactly the given member, or empty for a null member; nothing else changes |
| `AuditTrailSpec.InitialTrail` | src/cluster/DotNext.Net.Cluster/Net/Cluster/Consensus/Raft/InMemoryAuditTrail.cs:53-85 | on a fresh trail both last-index queries give 0, index 0 reads back the sentinel, and index 1 is out of range |
| `AuditTrailSpec.AppendAtEnd` | src/cluster/DotNext.Net.Cluster/Net/Cluster/Consensus/Raft/InMemoryAuditTrail.cs:136-153 | an append without a start index returns the old length and leaves old log + stored batch; the last index grows by the batch size; the new range reads back the stored batch |
| `AuditTrailSpec.AppendAfterCommitted` | src/cluster/DotNext.Net.Cluster/Net/Cluster/Consensus/Raft/InMemoryAuditTrail.cs:139-152 | with commitIndex < s <= length the append returns s, leaves log[..s] + stored batch, keeps every committed entry and the sentinel, and makes the last index s + batch size - 1 |
| `AuditTrailSpec.AppendOverCommittedFails` | src/cluster/DotNext.Net.Cluster/Net/Cluster/Consensus/Raft/InMemoryAuditTrail.cs:139-143 | a start index at or below the commit index throws InvalidAppendIndex and the state is unchanged |
| `AuditTrailSpec.CommitTwice` | src/cluster/DotNext.Net.Cluster/Net/Cluster/Consensus/Raft/InMemoryAuditTrail.cs:173-184 | committing the same target a second time returns at most 0 and changes nothing |
| `AuditTrailSpec.CommitBelowIsNoOp` | src/cluster/DotNext.Net.Cluster/Net/Cluster/Consensus/Raft/InMemoryAuditTrail.cs:178-181 | after committing to e1, a commit to any e2 <= e1 returns at most 0 and changes nothing |
| `AuditTrailSpec.CommitCanOverrunLog` | src/cluster/DotNext.Net.Cluster/Net/Cluster/Consensus/Raft/InMemoryAuditTrail.cs:179-181 | the end index is not checked: on a fresh trail, a commit to 5 returns 5 and puts the commit index past the last index 0 |
| `AuditTrailSpec.VoteIsExclusive` | src/cluster/DotNext.Net.Cluster/Net/Cluster/Consensus/Raft/InMemoryAuditTrail.cs:89-107 | after a vote for A, the vote check accepts A and rejects every B other than A, and the null member |
| `AuditTrailSpec.ClearedVoteAllowsAll` | src/cluster/DotNext.Net.Cluster/Net/Cluster/Consensus/Raft/InMemoryAuditTrail.cs:89-107 | storing a null vote empties the record, and the vote check then accepts every member, null included |
| `AuditTrailSpec.TermChangeKeepsVote` | src/cluster/DotNext.Net.Cluster/Net/Cluster/Consensus/Raft/InMemoryAuditTrail.cs:95-107 | setting or incrementing the term keeps the recorded vote, which still rejects every other member |
| `AuditTrailSpec.FreshTrailScenario` | src/cluster/DotNext.Net.Cluster/Net/Cluster/Consensus/Raft/InMemoryAuditTrail.cs:136-184 | on a fresh trail, appending [e1, e2] returns 1, committing to the end returns 2 and sets the commit index to 2, and reading 1..2 gives [e1, e2] |
| `AuditTrailSpec.TruncationScenario` | src/cluster/DotNext.Net.Cluster/Net/Cluster/Consensus/Raft/InMemoryAuditTrail.cs:139-152 | with entries at 1..5 and commit index 2: appending two entries from index 3 gives last index 4 and keeps indices 0..2; appending from index 2 throws |
| `AuditTrailSpec.StepKeepsCommitted` | src/cluster/DotNext.Net.Cluster/Net/Cluster/Consensus/Raft/InMemoryAuditTrail.cs:136-184 | every call keeps the sentinel at index 0, never lowers the commit index, and keeps every entry at or below the commit index |
| `AuditTrailSpec.CommittedEntriesSurvive` | src/cluster/DotNext.Net.Cluster/Net/Cluster/Consensus/Raft/InMemoryAuditTrail.cs:139-144 | across any sequence of calls, an entry at or below the commit index stays in place unchanged, and the commit index never decreases |
| `AuditTrailSpec.StepKeepsCommitWithinLog` | src/cluster/DotNext.Net.Cluster/Net/Cluster/Consensus/Raft/InMemoryAuditTrail.cs:173-181 | the commit index stays within the log as long as every commit names an index inside it or none |
| `AuditTrail.CopyConcat` | src/cluster/DotNext.Net.Cluster/Net/Cluster/Consensus/Raft/InMemoryAuditTrail.cs:144-151 | a newly allocated array holds the first keep entries of the old log followed by the whole batch |
| `AuditTrail.BufferEntries` | src/cluster/DotNext.Net.Cluster/Net/Cluster/Consensus/Raft/InMemoryAuditTrail.cs:161-168 | the loop fills an array of the batch's length; entry i is what is stored for input entry i |
| `AuditTrail.InMemoryAuditTrail.constructor` | src/cluster/DotNext.Net.Cluster/Net/Cluster/Consensus/Raft/InMemoryAuditTrail.cs:81-85 | the new object's state is the initial trail: only the sentinel, commit index 0, term 0, no vote |
| `AuditTrail.InMemoryAuditTrail.Term` | src/cluster/DotNext.Net.Cluster/Net/Cluster/Consensus/Raft/InMemoryAuditTrail.cs:87 | returns the stored term and reads nothing else |
| `AuditTrail.InMemoryAuditTrail.IsVotedFor` | src/cluster/DotNext.Net.Cluster/Net/Cluster/Consensus/Raft/InMemoryAuditTrail.cs:89-93 | true exactly when no vote is recorded or the recorded vote is this member; a null member is accepted only by an empty record |
| `AuditTrail.InMemoryAuditTrail.UpdateTermAsync` | src/cluster/DotNext.Net.Cluster/Net/Cluster/Consensus/Raft/InMemoryAuditTrail.cs:95-99 | the new state is the term update of the old one; the class invariant is kept |
| `AuditTrail.InMemoryAuditTrail.IncrementTermAsync` | src/cluster/DotNext.Net.Cluster/Net/Cluster/Consensus/Raft/InMemoryAuditTrail.cs:101 | returns old term + 1, which is the new term; nothing else changes; the class invariant is kept |
| `AuditTrail.InMemoryAuditTrail.UpdateVotedForAsync` | src/cluster/DotNext.Net.Cluster/Net/Cluster/Consensus/Raft/InMemoryAuditTrail.cs:103-107 | the new state records the given vote, and a null member clears it; the class invariant is kept |
| `AuditTrail.InMemoryAuditTrail.GetLastIndex` | src/cluster/DotNext.Net.Cluster/Net/Cluster/Consensus/Raft/InMemoryAuditTrail.cs:114-115 | agrees with LastIndex on the object's state; changes nothing |
| `AuditTrail.InMemoryAuditTrail.GetEntries` | src/cluster/DotNext.Net.Cluster/Net/Cluster/Consensus/Raft/InMemoryAuditTrail.cs:117-128 | agrees with EntriesInRange on the object's state; changes nothing |
| `AuditTrail.InMemoryAuditTrail.GetEntriesAsync` | src/cluster/DotNext.Net.Cluster/Net/Cluster/Consensus/Raft/InMemoryAuditTrail.cs:130-134 | a missing end index means the last index, and then a non-negative start never fails |
| `AuditTrail.InMemoryAuditTrail.Append` | src/cluster/DotNext.Net.Cluster/Net/Cluster/Consensus/Raft/InMemoryAuditTrail.cs:136-153 | result and new state are those of AppendEntries; a failed call changes nothing; the sentinel stays at index 0; a successful call installs a newly allocated array, and only the object is modified, so a published log array is never written |
| `AuditTrail.InMemoryAuditTrail.AppendAsync` | src/cluster/DotNext.Net.Cluster/Net/Cluster/Consensus/Raft/InMemoryAuditTrail.cs:155-171 | result and new state are those of AppendBatch: an empty batch throws without a change, otherwise the buffered batch is appended |
| `AuditTrail.InMemoryAuditTrail.CommitAsync` | src/cluster/DotNext.Net.Cluster/Net/Cluster/Consensus/Raft/InMemoryAuditTrail.cs:173-184 | returns Commit's raw count and moves to Commit's next state |
| `AuditTrail.InMemoryAuditTrail.WaitForCommitAsync` | src/cluster/DotNext.Net.Cluster/Net/Cluster/Consensus/Raft/InMemoryAuditTrail.cs:186-187 | the wait starts exactly when index > 1; index 1, 0 and negatives are rejected as out of range |
| `AuditTrail.InMemoryAuditTrail.First` | src/cluster/DotNext.Net.Cluster/Net/Cluster/Consensus/Raft/InMemoryAuditTrail.cs:189 | the first entry is the sentinel, which is also the current log's entry 0 |
| `CommitOverflow.CommitAsWritten` | src/cluster/DotNext.Net.Cluster/Net/Cluster/Consensus/Raft/InMemoryAuditTrail.cs:173-184 | in 64-bit arithmetic the results stay within `long`, and a non-positive count leaves the commit index as it was |
| `CommitOverflow.CommitAsWrittenMovesBackwards` | src/cluster/DotNext.Net.Cluster/Net/Cluster/Consensus/Raft/InMemoryAuditTrail.cs:178-181 | commit index 1 with end index long.MinValue gives count long.MaxValue and moves the commit index back to long.MinValue |
| `CommitOverflow.CommitAsWrittenMatchesCorrected` | src/cluster/DotNext.Net.Cluster/Net/Cluster/Consensus/Raft/InMemoryAuditTrail.cs:178-181 | when the count does not overflow, the 64-bit computation gives the same count and commit index as Commit |

## Left out

- Concurrency: the reader/writer lock base class, the volatile reads and writes, and async/await. Each public call is one atomic step.
- The commit wait itself (`CommitEvent.WaitForCommitAsync`, timeout, cancellation): `CommitEvent` is not part of this model. Only the argument guard is modelled. Note that `CommitAsync` never signals `commitEvent`.
- Copying the payload into a `MemoryStream` and `ToUniversalTime`: buffering is modelled as "same term, instant and payload, not a snapshot". I/O failures during the copy are not modelled.
- `BinaryTransferObject` is not part of this model. A buffered entry is taken to be reusable.
- The timestamp is modelled as an instant in ticks, without its UTC offset.
- `RemoveLast` and `Slice` are not part of this model. The truncation is modelled as keeping the first `startIndex` entries, inside one copy into the new array.
- A truncating append writes `log` twice: the truncated array at src/cluster/DotNext.Net.Cluster/Net/Cluster/Consensus/Raft/InMemoryAuditTrail.cs:144 and the new array at :151. `GetLastIndex` takes no lock and `log` is volatile (:72, :114-115), so a concurrent caller can see the truncated log in between. The model's atomic steps do not capture this window: `Append` writes `log` once.
- A truncating append with a start index past the end of the log is excluded by a precondition (`AppendInRange`). There `RemoveLast` would get a negative count.
- The static `EmptyLog` array shared by all instances is modelled as a fresh one-entry array per instance. Neither is ever written.
- `Dispose`: it only releases the event and the lock.
- Indices, counts and terms are unbounded integers. 64-bit wrap-around is modelled only for `CommitAsync`, in `commit_overflow.dfy`.
- AuditTrail.InMemoryAuditTrail.IncrementTermAsync: does not model the wrap from `long.MaxValue` to `long.MinValue` of the interlocked increment.

## Findings

| source | as written | input that shows it | evidently intended | confidence | as-written member | corrected member |
|---|---|---|---|---|---|---|
| src/cluster/DotNext.Net.Cluster/Net/Cluster/Consensus/Raft/InMemoryAuditTrail.cs:179-181 | `count` and the new commit index are computed in unchecked `long` arithmetic, which wraps | commit index 1 and `endIndex = long.MinValue`: the count wraps to `long.MaxValue` > 0, and the commit index becomes `long.MinValue` | the commit index never decreases; a target below it commits nothing | medium (assumes the default unchecked arithmetic); not executed | `CommitOverflow.CommitAsWritten`, `CommitOverflow.CommitAsWrittenMovesBackwards` | `AuditTrailSpec.Commit` (used by the rest of the model), `CommitOverflow.CommitAsWrittenMatchesCorrected` |
