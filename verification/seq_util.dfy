/**
 * The generic helpers of the `util` section of test/link.js: merge, flatten,
 * map, flatMap, partition, range, repeatBlank, plus the `[...new Set(xs)]`
 * de-duplication the link checker applies to URLs.
 *
 * JavaScript arrays become immutable sequences, so "the inputs are left
 * unchanged" holds by construction and the contracts speak about contents.
 */
module SeqUtil {

  // ---------------------------------------------------------------- concat

  /** Reference concatenation of a sequence of rows, first row first. */
  function Concat<T>(rows: seq<seq<T>>): seq<T>
  {
    if |rows| == 0 then [] else rows[0] + Concat(rows[1..])
  }

  lemma {:induction false} ConcatAppend<T>(a: seq<seq<T>>, b: seq<seq<T>>)
    ensures Concat(a + b) == Concat(a) + Concat(b)
  {
    if |a| == 0 {
      assert a + b == b;
    } else {
      assert (a + b)[1..] == a[1..] + b;
      ConcatAppend(a[1..], b);
    }
  }

  /** Concatenating one more row appends it. */
  lemma ConcatSnoc<T>(rows: seq<seq<T>>)
    requires |rows| > 0
    ensures Concat(rows) == Concat(rows[..|rows| - 1]) + rows[|rows| - 1]
  {
    var pre, last := rows[..|rows| - 1], rows[|rows| - 1];
    assert rows == pre + [last];
    ConcatAppend(pre, [last]);
    assert Concat([last]) == last;
  }

  /** `merge(as, bs)`: a fresh array holding `as` followed by `bs`. */
  function Merge<T>(xs: seq<T>, ys: seq<T>): (r: seq<T>)
    ensures |r| == |xs| + |ys|
    ensures r[..|xs|] == xs && r[|xs|..] == ys
  {
    xs + ys
  }

  /** The `reduce` loop of `flatten`: `acc` merged with each row in turn. */
  function MergeAll<T>(acc: seq<T>, rows: seq<seq<T>>): (r: seq<T>)
    decreases |rows|
    ensures r == acc + Concat(rows)
  {
    if |rows| == 0 then acc else MergeAll(Merge(acc, rows[0]), rows[1..])
  }

  /**
   * `flatten(arrayOfArray)`: `reduce` is called without a seed, so the first
   * row is the seed and an empty input throws a TypeError; hence the
   * precondition.
   */
  function Flatten<T>(rows: seq<seq<T>>): (r: seq<T>)
    requires |rows| > 0
    ensures r == Concat(rows)
  {
    MergeAll(rows[0], rows[1..])
  }

  // ------------------------------------------------------------- map, flatMap

  /** `map(arrayA, aToB)`: `f` applied to every element, in order. */
  function Map<A, B>(xs: seq<A>, f: A -> B): (r: seq<B>)
    ensures |r| == |xs|
    ensures forall i :: 0 <= i < |xs| ==> r[i] == f(xs[i])
  {
    seq(|xs|, i requires 0 <= i < |xs| => f(xs[i]))
  }

  /** Reference for `flatMap`: the images of the elements, concatenated in order. */
  function ConcatMap<A, B>(xs: seq<A>, f: A -> seq<B>): seq<B>
  {
    if |xs| == 0 then [] else f(xs[0]) + ConcatMap(xs[1..], f)
  }

  lemma {:induction false} ConcatOfMap<A, B>(xs: seq<A>, f: A -> seq<B>)
    ensures Concat(Map(xs, f)) == ConcatMap(xs, f)
  {
    if |xs| > 0 {
      assert Map(xs, f)[1..] == Map(xs[1..], f);
      ConcatOfMap(xs[1..], f);
    }
  }

  /** `flatMap(arrayA, aToArrayB)`: `flatten` after `map`, so it inherits the non-empty requirement. */
  function FlatMap<A, B>(xs: seq<A>, f: A -> seq<B>): (r: seq<B>)
    requires |xs| > 0
    ensures r == ConcatMap(xs, f)
  {
    ConcatOfMap(xs, f);
    Flatten(Map(xs, f))
  }

  // ------------------------------------------------------------- partition

  /** The elements `x` of `s` with `p(x) == want`, in their original order. */
  function Select<T>(s: seq<T>, p: T -> bool, want: bool): (r: seq<T>)
    ensures |r| <= |s|
  {
    if |s| == 0 then []
    else
      var last := s[|s| - 1];
      Select(s[..|s| - 1], p, want) + (if p(last) == want then [last] else [])
  }

  /** `Select` keeps exactly the elements with `p(x) == want`. */
  lemma {:induction false} SelectMembers<T>(s: seq<T>, p: T -> bool, want: bool)
    ensures forall x :: x in Select(s, p, want) <==> x in s && p(x) == want
  {
    if |s| > 0 {
      var pre, last := s[..|s| - 1], s[|s| - 1];
      SelectMembers(pre, p, want);
      assert s == pre + [last];
    }
  }

  lemma {:induction false} SelectAppend<T>(a: seq<T>, b: seq<T>, p: T -> bool, want: bool)
    ensures Select(a + b, p, want) == Select(a, p, want) + Select(b, p, want)
  {
    if |b| == 0 {
      assert a + b == a;
    } else {
      assert (a + b)[..|a + b| - 1] == a + b[..|b| - 1];
      SelectAppend(a, b[..|b| - 1], p, want);
    }
  }

  /** The multiset of a non-empty sequence splits off its last element. */
  lemma MultisetOfLast<T>(s: seq<T>)
    requires |s| > 0
    ensures multiset(s) == multiset(s[..|s| - 1]) + multiset{s[|s| - 1]}
  {
    assert s == s[..|s| - 1] + [s[|s| - 1]];
  }

  /** Every element goes to exactly one side of a partition. */
  lemma {:induction false} SelectSplit<T>(s: seq<T>, p: T -> bool)
    ensures |Select(s, p, true)| + |Select(s, p, false)| == |s|
    ensures multiset(Select(s, p, true)) + multiset(Select(s, p, false)) == multiset(s)
  {
    if |s| > 0 {
      var pre, last := s[..|s| - 1], s[|s| - 1];
      SelectSplit(pre, p);
      SelectStep(s, p);
      MultisetOfLast(s);
      var ok', ng' := Select(pre, p, true), Select(pre, p, false);
      if p(last) {
        assert multiset(ok' + [last]) == multiset(ok') + multiset{last};
      } else {
        assert multiset(ng' + [last]) == multiset(ng') + multiset{last};
      }
    }
  }

  lemma SelectStep<T>(s: seq<T>, p: T -> bool)
    requires |s| > 0
    ensures var pre, last := s[..|s| - 1], s[|s| - 1];
      if p(last) then
        Select(s, p, true) == Select(pre, p, true) + [last] && Select(s, p, false) == Select(pre, p, false)
      else
        Select(s, p, true) == Select(pre, p, true) && Select(s, p, false) == Select(pre, p, false) + [last]
  {
  }

  /** How often `Select` keeps `x`: as often as `s` holds it when `p(x) == want`, else never. */
  lemma {:induction false} SelectCount<T>(s: seq<T>, p: T -> bool, want: bool, x: T)
    ensures multiset(Select(s, p, want))[x] == if p(x) == want then multiset(s)[x] else 0
  {
    if |s| > 0 {
      SelectCount(s[..|s| - 1], p, want, x);
      MultisetOfLast(s);
    }
  }

  /** Selecting from two sequences with equal multisets gives equal multisets. */
  lemma SelectSameMultiset<T>(a: seq<T>, b: seq<T>, p: T -> bool)
    requires multiset(a) == multiset(b)
    ensures multiset(Select(a, p, true)) == multiset(Select(b, p, true))
  {
    var ma, mb := multiset(Select(a, p, true)), multiset(Select(b, p, true));
    forall x
      ensures ma[x] == mb[x]
    {
      SelectCount(a, p, true, x);
      SelectCount(b, p, true, x);
    }
    MultisetExt(ma, mb);
  }

  /** The multiset of a concatenation is the sum of the multisets. */
  lemma MsAppend<T>(a: seq<T>, b: seq<T>)
    ensures multiset(a + b) == multiset(a) + multiset(b)
  {
  }

  lemma MultisetExt<T>(a: multiset<T>, b: multiset<T>)
    requires forall x :: a[x] == b[x]
    ensures a == b
  {
  }

  /** A predicate that holds of every element selects everything. */
  lemma {:induction false} SelectAll<T>(s: seq<T>, p: T -> bool)
    requires forall x :: x in s ==> p(x)
    ensures Select(s, p, true) == s
  {
    if |s| > 0 {
      SelectAll(s[..|s| - 1], p);
      assert s == s[..|s| - 1] + [s[|s| - 1]];
    }
  }

  /** Selecting from a sequence without duplicates gives one without duplicates. */
  lemma {:induction false} SelectNoDup<T>(s: seq<T>, p: T -> bool, want: bool)
    requires NoDup(s)
    ensures NoDup(Select(s, p, want))
  {
    if |s| > 0 {
      var pre, last := s[..|s| - 1], s[|s| - 1];
      assert NoDup(pre);
      SelectNoDup(pre, p, want);
      SelectMembers(pre, p, want);
      assert last !in pre;
    }
  }

  /**
   * `partition(arr, p)`: one pass pushing each element to `ok` when
   * `p(a) === true` and to `ng` otherwise.
   */
  method Partition<T>(arr: seq<T>, p: T -> bool) returns (ok: seq<T>, ng: seq<T>)
    ensures ok == Select(arr, p, true) && ng == Select(arr, p, false)
    ensures |ok| + |ng| == |arr|
    ensures multiset(ok) + multiset(ng) == multiset(arr)
  {
    ok, ng := [], [];
    for i := 0 to |arr|
      invariant ok == Select(arr[..i], p, true)
      invariant ng == Select(arr[..i], p, false)
    {
      var a := arr[i];
      assert arr[..i + 1][..i] == arr[..i];
      if p(a) {
        ok := ok + [a];
      } else {
        ng := ng + [a];
      }
    }
    assert arr[..|arr|] == arr;
    SelectSplit(arr, p);
  }

  // ------------------------------------------------------- range, repeatBlank

  /**
   * `range(from, to)`: the integers `lo..hi` inclusive (`from` and `to` in the source). `Array(n)` throws a
   * RangeError for a negative length, hence the precondition.
   */
  function Range(lo: int, hi: int): (r: seq<int>)
    requires lo <= hi + 1
    decreases hi - lo
    ensures |r| == hi - lo + 1
    ensures forall i :: 0 <= i < |r| ==> r[i] == lo + i
  {
    if lo > hi then [] else [lo] + Range(lo + 1, hi)
  }

  /** `repeatBlank(num)`: `num` fresh empty buckets, built by mapping over `range(0, num - 1)`. */
  function RepeatBlank<T>(num: int): (r: seq<seq<T>>)
    requires num >= 0
    ensures |r| == num
    ensures forall i :: 0 <= i < num ==> r[i] == []
  {
    Map(Range(0, num - 1), (_: int) => [])
  }

  /** `Math.max` over the row lengths; with no rows JavaScript yields -Infinity. */
  function MaxLen<T>(rows: seq<seq<T>>): (m: nat)
    requires |rows| > 0
    ensures forall i :: 0 <= i < |rows| ==> |rows[i]| <= m
    ensures exists i :: 0 <= i < |rows| && |rows[i]| == m
  {
    if |rows| == 1 then |rows[0]|
    else
      var m' := MaxLen(rows[1..]);
      assert |rows[1..][0]| == |rows[1]|;
      if |rows[0]| >= m' then |rows[0]| else m'
  }

  // ------------------------------------------------------------ duplicates

  /** No element occurs twice. */
  predicate NoDup<T(==)>(s: seq<T>)
  {
    forall i, j :: 0 <= i < j < |s| ==> s[i] != s[j]
  }

  /** No two elements share a key under `f`. */
  predicate DistinctKeys<T, K(==)>(s: seq<T>, f: T -> K)
  {
    forall i, j :: 0 <= i < j < |s| ==> f(s[i]) != f(s[j])
  }

  /** Index of the first occurrence of `x` in `s`. */
  function FirstIndex<T(==)>(s: seq<T>, x: T): (i: nat)
    requires x in s
    ensures i < |s| && s[i] == x && x !in s[..i]
  {
    if s[0] == x then 0 else 1 + FirstIndex(s[1..], x)
  }

  /**
   * `[...new Set(s)]`: a Set remembers insertion order, so the result keeps the
   * first occurrence of every element, in order.
   */
  function Dedup<T(==)>(s: seq<T>): (r: seq<T>)
    ensures NoDup(r)
    ensures forall i :: 0 <= i < |r| ==> r[i] in s
    ensures forall i :: 0 <= i < |s| ==> s[i] in r
    ensures |r| <= |s|
  {
    if |s| == 0 then []
    else
      var d := Dedup(s[..|s| - 1]);
      var last := s[|s| - 1];
      if last in d then d else d + [last]
  }

  lemma {:induction false} FirstIndexExtend<T>(s: seq<T>, y: T, x: T)
    requires x in s
    ensures FirstIndex(s + [y], x) == FirstIndex(s, x)
  {
    if s[0] != x {
      assert (s + [y])[1..] == s[1..] + [y];
      FirstIndexExtend(s[1..], y, x);
    }
  }

  /** The de-duplicated sequence lists the elements in the order of their first occurrence. */
  lemma {:induction false} DedupKeepsFirstOccurrenceOrder<T>(s: seq<T>)
    ensures forall i, j :: 0 <= i < j < |Dedup(s)| ==> FirstIndex(s, Dedup(s)[i]) < FirstIndex(s, Dedup(s)[j])
  {
    if |s| > 0 {
      var p := s[..|s| - 1];
      var last := s[|s| - 1];
      assert s == p + [last];
      DedupKeepsFirstOccurrenceOrder(p);
      var d := Dedup(p);
      forall x | x in d
        ensures FirstIndex(s, x) == FirstIndex(p, x) < |p|
      {
        FirstIndexExtend(p, last, x);
      }
      if last !in d {
        assert last !in p;
        assert FirstIndex(s, last) == |p|;
      }
    }
  }

  /** A sequence without duplicates is its own de-duplication. */
  lemma {:induction false} DedupOfNoDup<T>(s: seq<T>)
    requires NoDup(s)
    ensures Dedup(s) == s
  {
    if |s| > 0 {
      var p := s[..|s| - 1];
      assert NoDup(p);
      DedupOfNoDup(p);
      assert s[|s| - 1] !in p;
      assert s == p + [s[|s| - 1]];
    }
  }

  /** De-duplicating twice is the same as de-duplicating once. */
  lemma DedupIdempotent<T>(s: seq<T>)
    ensures Dedup(Dedup(s)) == Dedup(s)
  {
    DedupOfNoDup(Dedup(s));
  }

  /** Two sequences with the same multiset, one of them without duplicates, have no duplicates. */
  lemma NoDupOfSameMultiset<T>(a: seq<T>, b: seq<T>)
    requires multiset(a) == multiset(b) && NoDup(a)
    ensures NoDup(b)
  {
    forall i, j | 0 <= i < j < |b|
      ensures b[i] != b[j]
    {
      if b[i] == b[j] {
        var x := b[i];
        assert b == b[..i] + [x] + b[i + 1..j] + [x] + b[j + 1..];
        assert multiset(b)[x] >= 2;
        NoDupCountOne(a, x);
        assert false;
      }
    }
  }

  lemma {:induction false} NoDupCountOne<T>(a: seq<T>, x: T)
    requires NoDup(a)
    ensures multiset(a)[x] <= 1
  {
    if |a| > 0 {
      var p := a[..|a| - 1];
      assert a == p + [a[|a| - 1]];
      assert NoDup(p);
      NoDupCountOne(p, x);
      if a[|a| - 1] == x {
        assert x !in p;
      }
    }
  }
}
