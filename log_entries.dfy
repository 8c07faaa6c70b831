/** Raft log entries, the fixed sentinel at index 0, and the buffering step that turns a
    transient entry into one the log may keep. */
module LogEntries {

  /** A log entry: the term it was produced in, its creation instant (in ticks), its payload,
      whether it is a snapshot, and whether it may be stored without being copied first. */
  datatype Entry = Entry(term: int, timestamp: int, payload: seq<bv8>, isSnapshot: bool, isReusable: bool)

  /** The entry at index 0 of every log: term 0, the default instant, no payload,
      not a snapshot, reusable. */
  const Sentinel: Entry := Entry(0, 0, [], false, true)

  /** The copy the trail makes of an entry it may not keep: the payload is captured into memory,
      the instant is kept (only its offset is normalised), and the copy is never a snapshot. */
  function Buffered(e: Entry): (b: Entry)
    ensures b.term == e.term && b.timestamp == e.timestamp && b.payload == e.payload
    ensures !b.isSnapshot && b.isReusable
  {
    Entry(e.term, e.timestamp, e.payload, false, true)
  }

  /** What the trail stores for an incoming entry: the entry itself when it is reusable,
      otherwise its buffered copy. Either way term, instant and payload survive. */
  function Stored(e: Entry): (s: Entry)
    ensures s.term == e.term && s.timestamp == e.timestamp && s.payload == e.payload
    ensures s.isReusable
    ensures e.isReusable ==> s == e
    ensures !e.isReusable ==> !s.isSnapshot
  {
    if e.isReusable then e else Buffered(e)
  }

  /** What the trail stores for a whole batch, entry by entry and in order. */
  function StoredAll(es: seq<Entry>): (r: seq<Entry>)
    ensures |r| == |es|
    ensures forall i :: 0 <= i < |es| ==> r[i] == Stored(es[i])
  {
    seq(|es|, i requires 0 <= i < |es| => Stored(es[i]))
  }

  /** Storing is idempotent: an entry that was already stored is kept as it is. */
  lemma StoredIsIdempotent(e: Entry)
    ensures Stored(Stored(e)) == Stored(e)
  {
  }

  /** A batch made only of reusable entries is stored unchanged. */
  lemma {:induction false} StoredAllOfReusable(es: seq<Entry>)
    requires forall i :: 0 <= i < |es| ==> es[i].isReusable
    ensures StoredAll(es) == es
  {
    assert forall i :: 0 <= i < |es| ==> StoredAll(es)[i] == es[i];
  }
}
