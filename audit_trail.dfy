/** The in-memory audit trail of a Raft node as an object: its log is an array that every append
    replaces by a fresh copy, so an array published earlier is never written again. Every method
    is proved against the step function of AuditTrailSpec that describes the same call. */
module AuditTrail {
  import opened Results
  import opened LogEntries
  import opened AuditTrailSpec

  /** Copies the first `keep` entries of `prefix` followed by all of `suffix` into a new array
      (the truncation to `keep` entries, `Array.Copy` and `CopyTo` of Append). */
  method CopyConcat(prefix: array<Entry>, keep: nat, suffix: array<Entry>) returns (joined: array<Entry>)
    requires keep <= prefix.Length
    ensures fresh(joined)
    ensures joined.Length == keep + suffix.Length
    ensures joined[..] == prefix[..keep] + suffix[..]
  {
    joined := new Entry[keep + suffix.Length](_ => Sentinel);
    var i := 0;
    while i < keep
      invariant 0 <= i <= keep
      invariant forall k :: 0 <= k < i ==> joined[k] == prefix[k]
    {
      joined[i] := prefix[i];
      i := i + 1;
    }
    var j := 0;
    while j < suffix.Length
      invariant 0 <= j <= suffix.Length
      invariant forall k :: 0 <= k < keep ==> joined[k] == prefix[k]
      invariant forall k :: 0 <= k < j ==> joined[keep + k] == suffix[k]
    {
      joined[keep + j] := suffix[j];
      j := j + 1;
    }
    assert joined[..] == prefix[..keep] + suffix[..];
  }

  /** Fills a new array with what the trail stores for each incoming entry: the entry itself when
      it is reusable, its buffered copy otherwise. */
  method BufferEntries(entries: seq<Entry>) returns (buffered: array<Entry>)
    ensures buffered.Length == |entries|
    ensures buffered[..] == StoredAll(entries)
  {
    buffered := new Entry[|entries|](_ => Sentinel);
    for i := 0 to |entries|
      invariant forall k :: 0 <= k < i ==> buffered[k] == Stored(entries[k])
    {
      var entry := entries[i];
      buffered[i] := if entry.isReusable then entry else Buffered(entry);
    }
  }

  class InMemoryAuditTrail<M(==)> {
    var log: array<Entry>
    var commitIndex: nat
    var term: int
    var votedFor: Option<M>

    /** The trail's state as a value. */
    ghost function State(): Trail<M>
      reads this, log
    {
      Trail(log[..], commitIndex, term, votedFor)
    }

    ghost predicate Valid()
      reads this, log
    {
      WellFormed(State())
    }

    /** A new trail holds only the sentinel, nothing committed, term 0 and no vote. */
    constructor ()
      ensures Valid() && State() == Initial()
    {
      log := new Entry[] [Sentinel];
      commitIndex := 0;
      term := 0;
      votedFor := None;
    }

    /** The current term. */
    function Term(): (r: int)
      reads this
      ensures r == term
    {
      term
    }

    /** True when no vote is recorded or the recorded vote is `member`; a null member
        (`None`) matches only an empty record. */
    predicate IsVotedFor(member: Option<M>)
      reads this
      ensures IsVotedFor(member) <==> VoteAllows(votedFor, member)
      ensures member.None? ==> (IsVotedFor(member) <==> votedFor.None?)
    {
      match votedFor
      case None => true
      case Some(lastVote) => member == Some(lastVote)
    }

    method UpdateTermAsync(value: int)
      requires Valid()
      modifies this
      ensures Valid()
      ensures State() == UpdateTerm(old(State()), value)
    {
      term := value;
    }

    method IncrementTermAsync() returns (r: int)
      requires Valid()
      modifies this
      ensures Valid()
      ensures r == old(term) + 1
      ensures State() == IncrementTerm(old(State()))
    {
      term := term + 1;
      r := term;
    }

    /** Stores the vote record; `None` (a null member) clears it. */
    method UpdateVotedForAsync(member: Option<M>)
      requires Valid()
      modifies this
      ensures Valid()
      ensures State() == UpdateVotedFor(old(State()), member)
    {
      votedFor := member;
    }

    /** The commit index, or the index of the last entry. */
    function GetLastIndex(committed: bool): (r: int)
      reads this, log
      ensures r == LastIndex(State(), committed)
    {
      if committed then commitIndex else Max(0, log.Length - 1)
    }

    /** The entries at indices startIndex..endIndex inclusive. */
    function GetEntries(startIndex: int, endIndex: int): (r: Result<seq<Entry>>)
      reads this, log
      ensures r == EntriesInRange(State(), startIndex, endIndex)
    {
      if startIndex < 0 then Failure(ArgumentOutOfRange("startIndex"))
      else if endIndex < 0 then Failure(ArgumentOutOfRange("endIndex"))
      else if endIndex >= log.Length then Failure(InvalidEntryIndex(endIndex))
      else if endIndex < startIndex then Success([])
      else Success(log[startIndex..endIndex + 1])
    }

    /** The read under the shared lock: a missing end index means the last index, which on a
        valid trail never fails the range check. */
    function GetEntriesAsync(startIndex: int, endIndex: Option<int>): (r: Result<seq<Entry>>)
      reads this, log
      requires Valid()
      ensures r == EntriesInRange(State(), startIndex,
                                  if endIndex.Some? then endIndex.value else LastIndex(State(), false))
      ensures endIndex.None? && startIndex >= 0 ==> r.Success?
    {
      GetEntries(startIndex, if endIndex.Some? then endIndex.value else GetLastIndex(false))
    }

    /** Appends `entries` at the end, or after discarding the entries from `startIndex` on. */
    method Append(entries: array<Entry>, startIndex: Option<int>) returns (r: Result<int>)
      requires Valid() && AppendInRange(State(), startIndex)
      modifies this
      ensures Valid()
      ensures match AppendEntries(old(State()), entries[..], startIndex)
              case Success(a) => r == Success(a.index) && State() == a.trail
              case Failure(e) => r == Failure(e) && State() == old(State())
      ensures r.Success? ==> fresh(log)
    {
      var keep: nat;
      if startIndex.Some? {
        if startIndex.value <= commitIndex {
          return Failure(InvalidAppendIndex);
        }
        keep := startIndex.value;
      } else {
        keep := log.Length;
      }
      var newLog := CopyConcat(log, keep, entries);
      log := newLog;
      r := Success(keep);
    }

    /** The public append: rejects an empty batch, stores each entry, then appends them. */
    method AppendAsync(entries: seq<Entry>, startIndex: Option<int>) returns (r: Result<int>)
      requires Valid() && (|entries| > 0 ==> AppendInRange(State(), startIndex))
      modifies this
      ensures Valid()
      ensures match AppendBatch(old(State()), entries, startIndex)
              case Success(a) => r == Success(a.index) && State() == a.trail
              case Failure(e) => r == Failure(e) && State() == old(State())
    {
      if |entries| == 0 {
        return Failure(EntrySetIsEmpty);
      }
      var bufferedEntries := BufferEntries(entries);
      r := Append(bufferedEntries, startIndex);
    }

    /** Advances the commit index and returns the raw count of newly committed entries. */
    method CommitAsync(endIndex: Option<int>) returns (count: int)
      requires Valid()
      modifies this
      ensures Valid()
      ensures count == Commit(old(State()), endIndex).count
      ensures State() == Commit(old(State()), endIndex).trail
    {
      var startIndex := commitIndex + 1;
      count := (if endIndex.Some? then endIndex.value else GetLastIndex(false)) - startIndex + 1;
      if count > 0 {
        commitIndex := startIndex + count - 1;
      }
    }

    /** The argument guard of the commit wait: only an index above 1 starts a wait. */
    function WaitForCommitAsync(index: int): (r: Result<()>)
      ensures r.Success? <==> index > 1
      ensures r.Failure? ==> r.error == ArgumentOutOfRange("index")
    {
      if index > 1 then Success(()) else Failure(ArgumentOutOfRange("index"))
    }

    /** The first entry of every log: the sentinel at index 0. */
    function First(): (e: Entry)
      reads this, log
      requires Valid()
      ensures e == log[0] && e == Sentinel
    {
      Sentinel
    }
  }
}
