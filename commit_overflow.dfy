/** CommitAsync with the 64-bit `long` arithmetic it is written in. C# evaluates
    `endIndex - startIndex + 1L` and `startIndex + count - 1` unchecked, so each operation wraps
    modulo 2^64. For an end index near `long.MinValue` the count wraps to a positive number and the
    commit index is moved backwards. AuditTrailSpec.Commit is the corrected definition, on
    unbounded integers, where the commit index never decreases; it agrees with this one whenever
    no operation overflows. */
module CommitOverflow {
  import opened Results
  import AuditTrailSpec

  const MinLong: int := -0x8000_0000_0000_0000
  const MaxLong: int := 0x7FFF_FFFF_FFFF_FFFF
  const Modulus: int := 0x1_0000_0000_0000_0000

  predicate IsLong(x: int) {
    MinLong <= x <= MaxLong
  }

  /** Two's-complement wrap-around of a mathematical result into the range of `long`. */
  function Wrap(x: int): (r: int)
    ensures IsLong(r)
    ensures (x - r) % Modulus == 0
    ensures IsLong(x) ==> r == x
  {
    (x - MinLong) % Modulus + MinLong
  }

  /** The commit index and count that CommitAsync computes in `long` arithmetic. */
  datatype LongCommit = LongCommit(commitIndex: int, count: int)

  function CommitAsWritten(commitIndex: int, target: int): (r: LongCommit)
    requires IsLong(commitIndex) && IsLong(target)
    ensures IsLong(r.commitIndex) && IsLong(r.count)
    ensures r.count <= 0 ==> r.commitIndex == commitIndex
  {
    var startIndex := Wrap(commitIndex + 1);
    var count := Wrap(Wrap(target - startIndex) + 1);
    LongCommit(if count > 0 then Wrap(Wrap(startIndex + count) - 1) else commitIndex, count)
  }

  /** The input that shows it: with commit index 1 and end index `long.MinValue` the count wraps to
      `long.MaxValue` and the commit index drops from 1 to `long.MinValue`. */
  lemma CommitAsWrittenMovesBackwards()
    ensures var r := CommitAsWritten(1, MinLong);
      r.count == MaxLong && r.count > 0 && r.commitIndex == MinLong && r.commitIndex < 1
  {
    assert Wrap(1 + 1) == 2;
    assert Wrap(MinLong - 2) == MaxLong - 1;
    assert Wrap(MaxLong - 1 + 1) == MaxLong;
    assert Wrap(2 + MaxLong) == MinLong + 1;
    assert Wrap(MinLong + 1 - 1) == MinLong;
  }

  /** Without overflow in the count, the `long` computation is the corrected one. */
  lemma {:induction false} CommitAsWrittenMatchesCorrected<M>(t: AuditTrailSpec.Trail<M>, target: int)
    requires t.commitIndex < MaxLong && IsLong(target)
    requires target - (t.commitIndex + 1) >= MinLong
    ensures var r := CommitAsWritten(t.commitIndex, target);
      var c := AuditTrailSpec.Commit(t, Some(target));
      r.count == c.count && r.commitIndex == c.trail.commitIndex
  {
    var startIndex := t.commitIndex + 1;
    assert Wrap(t.commitIndex + 1) == startIndex;
    assert Wrap(target - startIndex) == target - startIndex;
    var count := target - startIndex + 1;
    assert Wrap(count) == count;
    if count > 0 {
      assert startIndex + count - 1 == target;
      WrapThenDecrement(startIndex + count);
    }
  }

  /** Wrapping before a decrement gives the same `long` as decrementing first. */
  lemma WrapThenDecrement(x: int)
    requires MinLong < x <= MaxLong + 1
    ensures Wrap(Wrap(x) - 1) == Wrap(x - 1)
  {
    if x == MaxLong + 1 {
      assert Wrap(x) == MinLong;
      assert Wrap(MinLong - 1) == MaxLong;
    }
  }
}
