/**
 * The cases of the "test utils test" suite (test/link.js, lines 101-157),
 * and a sample case of the oversize-wave branch of lines 293-296, stated
 * about the model.
 */
module Examples {
  import opened SeqUtil
  import opened Grouping
  import opened Scheduler

  lemma MergeExample()
    ensures Merge([1], [3, 4]) == [1, 3, 4]
    ensures Merge([[1]], [[3, 4]]) == [[1], [3, 4]]
  {
  }

  lemma FlattenExample()
    ensures Flatten([[1, 2], [3]]) == [1, 2, 3]
  {
  }

  lemma MapExample()
    ensures Map([1, 2, 3], x => 2 * x) == [2, 4, 6]
  {
  }

  lemma FlatMapExample()
    ensures FlatMap([1, 2, 3], x => [2 * x, 3 * x]) == [2, 3, 4, 6, 6, 9]
  {
    var f := x => [2 * x, 3 * x];
    assert Map([1, 2, 3], f) == [[2, 3], [4, 6], [6, 9]];
  }

  lemma RangeExample()
    ensures Range(3, 6) == [3, 4, 5, 6]
    ensures RepeatBlank<int>(3) == [[], [], []]
  {
  }

  /**
   * JavaScript's `i % 2 === 1`. Its `%` truncates toward zero, so a negative
   * odd `i` gives -1 there; Dafny's `%` gives 1, hence the sign test.
   */
  predicate Odd(i: int) { i >= 0 && i % 2 == 1 }

  lemma PartitionExample()
    ensures Select([1, 2, 3, 4], Odd, true) == [1, 3]
    ensures Select([1, 2, 3, 4], Odd, false) == [2, 4]
  {
    var s := [1, 2, 3, 4];
    assert s[..3] == [1, 2, 3] && s[..3][..2] == [1, 2] && s[..3][..2][..1] == [1] && [1][..0] == [];
    assert Select([1], Odd, true) == [1] && Select([1], Odd, false) == [];
    assert Select([1, 2], Odd, true) == [1] && Select([1, 2], Odd, false) == [2];
    assert Select([1, 2, 3], Odd, true) == [1, 3] && Select([1, 2, 3], Odd, false) == [2];
  }

  predicate NonZero(i: int) { i != 0 }

  lemma TransposeExample()
    ensures Columns([[1, 2, 3, 4], [5, 6, 7], [8]], NonZero) == [[1, 5, 8], [2, 6], [3, 7], [4]]
  {
    var rows := [[1, 2, 3, 4], [5, 6, 7], [8]];
    assert rows[1..] == [[5, 6, 7], [8]] && rows[1..][1..] == [[8]];
    assert MaxLen(rows) == 4;
    assert rows[..2] == [[1, 2, 3, 4], [5, 6, 7]] && rows[..2][..1] == [[1, 2, 3, 4]];
    assert [[1, 2, 3, 4]][..0] == [];
    assert Column(rows, 0, NonZero) == [1, 5, 8];
    assert Column(rows, 1, NonZero) == [2, 6];
    assert Column(rows, 2, NonZero) == [3, 7];
    assert Column(rows, 3, NonZero) == [4];
  }

  /**
   * A wave of 40 URLs is requested as 35 and then the remaining 5, before
   * anything queued behind it.
   */
  lemma OversizeWave<T>(wave: seq<T>, later: seq<seq<T>>)
    requires |wave| == 40
    ensures Dispatch([wave] + later)[0] == wave[..35]
    ensures Dispatch([wave] + later)[1] == wave[35..]
    ensures Dispatch([wave] + later)[2..] == if |later| > 0 then Dispatch(later) else []
  {
    var q := [wave] + later;
    var rest := [wave[35..]] + later;
    assert q[0] == wave && q[1..] == later && rest[0] == wave[35..] && rest[1..] == later;
    DispatchOversizeFront(q);
    DispatchSmallFront(rest);
    assert Dispatch(q)[2..] == Dispatch(rest)[1..];
  }
}
