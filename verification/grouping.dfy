/**
 * `groupBy`, `transpose` and `groupByAndTranpose` of test/link.js: the
 * domain balancer that turns a list of URLs into "waves" in which no two
 * URLs share a key.
 *
 * A JavaScript object used as a map from key to array becomes a sequence of
 * buckets in insertion (first-seen) order; `Object.values` lists their arrays
 * in that order.
 */
module Grouping {
  import opened SeqUtil

  /** One property of the `groupBy` object: a key and the array stored under it. */
  datatype Bucket<K, T> = Bucket(key: K, items: seq<T>)

  /** The keys of the buckets, in bucket order. */
  function Keys<K, T>(bs: seq<Bucket<K, T>>): (ks: seq<K>)
    ensures |ks| == |bs|
    ensures forall i :: 0 <= i < |bs| ==> ks[i] == bs[i].key
  {
    seq(|bs|, i requires 0 <= i < |bs| => bs[i].key)
  }

  /** `Object.values(obj)`: the arrays of the buckets, in bucket order. */
  function Values<K, T>(bs: seq<Bucket<K, T>>): (rows: seq<seq<T>>)
    ensures |rows| == |bs|
    ensures forall i :: 0 <= i < |bs| ==> rows[i] == bs[i].items
  {
    seq(|bs|, i requires 0 <= i < |bs| => bs[i].items)
  }

  /** The elements of `s` whose key under `f` is `k`, in their original order. */
  function WithKey<K(==), T>(s: seq<T>, f: T -> K, k: K): seq<T>
  {
    if |s| == 0 then []
    else
      var last := s[|s| - 1];
      WithKey(s[..|s| - 1], f, k) + (if f(last) == k then [last] else [])
  }

  /** `WithKey` keeps exactly the elements whose key is `k`. */
  lemma {:induction false} WithKeyMembers<K, T>(s: seq<T>, f: T -> K, k: K)
    ensures forall x :: x in WithKey(s, f, k) <==> x in s && f(x) == k
  {
    if |s| > 0 {
      WithKeyMembers(s[..|s| - 1], f, k);
      assert s == s[..|s| - 1] + [s[|s| - 1]];
    }
  }

  lemma {:induction false} WithKeyAppend<K, T>(a: seq<T>, b: seq<T>, f: T -> K, k: K)
    ensures WithKey(a + b, f, k) == WithKey(a, f, k) + WithKey(b, f, k)
  {
    if |b| == 0 {
      assert a + b == a;
    } else {
      assert (a + b)[..|a + b| - 1] == a + b[..|b| - 1];
      WithKeyAppend(a, b[..|b| - 1], f, k);
    }
  }

  /** A sequence whose elements all have key `k` is its own `k`-group. */
  lemma {:induction false} WithKeyUniform<K, T>(s: seq<T>, f: T -> K, k: K)
    requires forall i :: 0 <= i < |s| ==> f(s[i]) == k
    ensures WithKey(s, f, k) == s
  {
    if |s| > 0 {
      WithKeyUniform(s[..|s| - 1], f, k);
      assert s == s[..|s| - 1] + [s[|s| - 1]];
    }
  }

  /** A sequence none of whose elements has key `k` has an empty `k`-group. */
  lemma {:induction false} WithKeyNone<K, T>(s: seq<T>, f: T -> K, k: K)
    requires forall i :: 0 <= i < |s| ==> f(s[i]) != k
    ensures WithKey(s, f, k) == []
  {
    if |s| > 0 {
      WithKeyNone(s[..|s| - 1], f, k);
    }
  }

  /** Two elements sharing key `k` make the `k`-group at least two long. */
  lemma {:induction false} WithKeyTwo<K, T>(s: seq<T>, f: T -> K, i: nat, j: nat)
    requires i < j < |s| && f(s[i]) == f(s[j])
    ensures |WithKey(s, f, f(s[i]))| >= 2
  {
    var pre := s[..|s| - 1];
    if j < |s| - 1 {
      WithKeyTwo(pre, f, i, j);
    } else {
      WithKeyMembers(pre, f, f(s[i]));
      assert s[i] in pre;
      assert s[i] in WithKey(pre, f, f(s[i]));
    }
  }

  /** A sequence with at most one element per key has distinct keys. */
  lemma AtMostOnePerKey<K, T>(s: seq<T>, f: T -> K)
    requires forall k :: |WithKey(s, f, k)| <= 1
    ensures DistinctKeys(s, f)
  {
    forall i, j | 0 <= i < j < |s|
      ensures f(s[i]) != f(s[j])
    {
      var k := f(s[i]);
      assert |WithKey(s, f, k)| <= 1;
      if f(s[j]) == k {
        WithKeyTwo(s, f, i, j);
      }
    }
  }

  // ------------------------------------------------------------------ groupBy

  /**
   * One iteration of the `groupBy` loop: push `a` onto the array stored under
   * `k`, or create `[a]` under `k` as a new, last property.
   */
  function Insert<K(==), T>(bs: seq<Bucket<K, T>>, k: K, a: T): (r: seq<Bucket<K, T>>)
    requires NoDup(Keys(bs))
    ensures NoDup(Keys(r))
    ensures |r| == if k in Keys(bs) then |bs| else |bs| + 1
    ensures forall i :: 0 <= i < |bs| ==>
      r[i] == Bucket(bs[i].key, bs[i].items + (if bs[i].key == k then [a] else []))
    ensures k !in Keys(bs) ==> r[|bs|] == Bucket(k, [a])
  {
    var keys := Keys(bs);
    if k in keys then
      var i := FirstIndex(keys, k);
      assert forall j :: 0 <= j < |bs| && j != i ==> bs[j].key != k by {
        forall j | 0 <= j < |bs| && j != i
          ensures bs[j].key != k
        {
          assert keys[j] != keys[i];
        }
      }
      var r := bs[i := Bucket(k, bs[i].items + [a])];
      assert Keys(r) == keys;
      r
    else
      var r := bs + [Bucket(k, [a])];
      assert Keys(r) == keys + [k];
      r
  }

  /**
   * The buckets `bs` are a grouping of `xs` by `f`: distinct keys, the bucket
   * of key `k` holds the elements with key `k` in input order, no bucket is
   * empty, and every element's key has a bucket.
   */
  ghost predicate IsGrouping<K, T>(bs: seq<Bucket<K, T>>, xs: seq<T>, f: T -> K)
  {
    && NoDup(Keys(bs))
    && (forall i :: 0 <= i < |bs| ==> bs[i].items == WithKey(xs, f, bs[i].key) && |bs[i].items| > 0)
    && (forall i :: 0 <= i < |xs| ==> f(xs[i]) in Keys(bs))
  }

  lemma InsertKeepsGrouping<K, T>(bs: seq<Bucket<K, T>>, xs: seq<T>, f: T -> K)
    requires |xs| > 0 && IsGrouping(bs, xs[..|xs| - 1], f)
    ensures IsGrouping(Insert(bs, f(xs[|xs| - 1]), xs[|xs| - 1]), xs, f)
  {
    var pre, last := xs[..|xs| - 1], xs[|xs| - 1];
    var k := f(last);
    var r := Insert(bs, k, last);
    forall i | 0 <= i < |r|
      ensures r[i].items == WithKey(xs, f, r[i].key) && |r[i].items| > 0
    {
      if i < |bs| {
        assert r[i].key == bs[i].key;
      } else {
        assert k !in Keys(bs);
        forall j | 0 <= j < |pre|
          ensures f(pre[j]) != k
        {
          assert f(pre[j]) in Keys(bs);
        }
        WithKeyNone(pre, f, k);
      }
    }
    forall i | 0 <= i < |xs|
      ensures f(xs[i]) in Keys(r)
    {
      if i < |pre| {
        assert xs[i] == pre[i];
        var j :| 0 <= j < |bs| && Keys(bs)[j] == f(pre[i]);
        assert Keys(r)[j] == f(pre[i]);
      } else if k in Keys(bs) {
        var j :| 0 <= j < |bs| && Keys(bs)[j] == k;
        assert Keys(r)[j] == k;
      } else {
        assert Keys(r)[|bs|] == k;
      }
    }
  }

  /** `groupBy(as, f)`: one loop iteration per element, in input order. */
  function GroupBy<K(==), T>(xs: seq<T>, f: T -> K): (bs: seq<Bucket<K, T>>)
    ensures IsGrouping(bs, xs, f)
  {
    if |xs| == 0 then []
    else
      var g := GroupBy(xs[..|xs| - 1], f);
      InsertKeepsGrouping(g, xs, f);
      Insert(g, f(xs[|xs| - 1]), xs[|xs| - 1])
  }

  /** The bucket keys are the de-duplicated keys of the input, in first-seen order. */
  lemma KeysOfInsert<K, T>(bs: seq<Bucket<K, T>>, k: K, a: T)
    requires NoDup(Keys(bs))
    ensures Keys(Insert(bs, k, a)) == if k in Keys(bs) then Keys(bs) else Keys(bs) + [k]
  {
    var r := Insert(bs, k, a);
    if k in Keys(bs) {
      assert forall i :: 0 <= i < |r| ==> Keys(r)[i] == Keys(bs)[i];
    } else {
      assert forall i :: 0 <= i < |r| ==> Keys(r)[i] == (Keys(bs) + [k])[i];
    }
  }

  lemma {:induction false} GroupByKeysInFirstSeenOrder<K, T>(xs: seq<T>, f: T -> K)
    ensures Keys(GroupBy(xs, f)) == Dedup(Map(xs, f))
  {
    if |xs| > 0 {
      var pre, last := xs[..|xs| - 1], xs[|xs| - 1];
      GroupByKeysInFirstSeenOrder(pre, f);
      var m := Map(xs, f);
      assert m[..|m| - 1] == Map(pre, f);
      var g := GroupBy(pre, f);
      KeysOfInsert(g, f(last), last);
    }
  }

  /** Concatenating rows with one row replaced. */
  lemma ConcatUpdate<T>(rows: seq<seq<T>>, i: nat, row: seq<T>)
    requires i < |rows|
    ensures Concat(rows) == Concat(rows[..i]) + rows[i] + Concat(rows[i + 1..])
    ensures Concat(rows[i := row]) == Concat(rows[..i]) + row + Concat(rows[i + 1..])
  {
    var u := rows[i := row];
    assert rows == rows[..i] + [rows[i]] + rows[i + 1..];
    assert u == rows[..i] + [row] + rows[i + 1..];
    ConcatAppend(rows[..i] + [rows[i]], rows[i + 1..]);
    ConcatAppend(rows[..i], [rows[i]]);
    ConcatAppend(rows[..i] + [row], rows[i + 1..]);
    ConcatAppend(rows[..i], [row]);
    assert Concat([rows[i]]) == rows[i];
    assert Concat([row]) == row;
  }

  /** One `groupBy` step changes the concatenated buckets by exactly one element: the one pushed. */
  lemma ConcatValuesOfInsert<K, T>(bs: seq<Bucket<K, T>>, k: K, a: T)
    requires NoDup(Keys(bs))
    ensures multiset(Concat(Values(Insert(bs, k, a)))) == multiset(Concat(Values(bs))) + multiset{a}
  {
    var r := Insert(bs, k, a);
    var rows := Values(bs);
    if k in Keys(bs) {
      var i := FirstIndex(Keys(bs), k);
      assert Values(r) == rows[i := rows[i] + [a]];
      ConcatUpdate(rows, i, rows[i] + [a]);
      var x, y := Concat(rows[..i]), Concat(rows[i + 1..]);
      MsAppend(x + rows[i], y);
      MsAppend(x, rows[i]);
      MsAppend(x + (rows[i] + [a]), y);
      MsAppend(x, rows[i] + [a]);
      MsAppend(rows[i], [a]);
    } else {
      assert Values(r) == rows + [[a]];
      ConcatAppend(rows, [[a]]);
      assert Concat([[a]]) == [a];
      MsAppend(Concat(rows), [a]);
    }
  }

  /** Every element lands in exactly one bucket. */
  lemma {:induction false} GroupByKeepsEveryElement<K, T>(xs: seq<T>, f: T -> K)
    ensures multiset(Concat(Values(GroupBy(xs, f)))) == multiset(xs)
  {
    if |xs| > 0 {
      GroupByKeepsEveryElement(xs[..|xs| - 1], f);
      ConcatValuesOfInsert(GroupBy(xs[..|xs| - 1], f), f(xs[|xs| - 1]), xs[|xs| - 1]);
      MultisetOfLast(xs);
    }
  }

  // ---------------------------------------------------------------- transpose

  /** JavaScript truthiness of a string: every string but "" is truthy. */
  predicate NonEmpty(s: string)
  {
    s != ""
  }

  /** What row `row` contributes to column `c`: `row[c]` when it exists and is truthy. */
  function Cell<T>(row: seq<T>, c: nat, truthy: T -> bool): seq<T>
  {
    if c < |row| && truthy(row[c]) then [row[c]] else []
  }

  /** Column `c` of the transpose: the truthy entries `row[c]`, in row order. */
  function Column<T>(rows: seq<seq<T>>, c: nat, truthy: T -> bool): seq<T>
  {
    if |rows| == 0 then []
    else Column(rows[..|rows| - 1], c, truthy) + Cell(rows[|rows| - 1], c, truthy)
  }

  /** Reference transpose: one column per index of the longest row. */
  function Columns<T>(rows: seq<seq<T>>, truthy: T -> bool): seq<seq<T>>
    requires |rows| > 0
  {
    seq(MaxLen(rows), c requires 0 <= c < MaxLen(rows) => Column(rows, c, truthy))
  }

  /**
   * `transpose(arrayOfArray)`: `cols` is the longest row's length, the result
   * starts as `repeatBlank(cols)`, and for each column `c` and each row `r` the
   * entry `arrayOfArray[r][c]` is pushed onto `result[c]` when it is truthy (an
   * index past the row's end reads `undefined`, which is falsy). With no rows
   * `Math.max` yields -Infinity and `repeatBlank` throws, hence the precondition.
   */
  method Transpose<T>(rows: seq<seq<T>>, truthy: T -> bool) returns (result: seq<seq<T>>)
    requires |rows| > 0
    ensures result == Columns(rows, truthy)
  {
    var nRows := |rows|;
    var cols := MaxLen(rows);
    result := RepeatBlank(cols);
    for c := 0 to cols
      invariant |result| == cols
      invariant forall c' :: 0 <= c' < c ==> result[c'] == Column(rows, c', truthy)
      invariant forall c' :: c <= c' < cols ==> result[c'] == []
    {
      for r := 0 to nRows
        invariant |result| == cols
        invariant forall c' :: 0 <= c' < c ==> result[c'] == Column(rows, c', truthy)
        invariant forall c' :: c < c' < cols ==> result[c'] == []
        invariant result[c] == Column(rows[..r], c, truthy)
      {
        assert rows[..r + 1][..r] == rows[..r];
        if c < |rows[r]| && truthy(rows[r][c]) {
          result := result[c := result[c] + [rows[r][c]]];
        }
      }
      assert rows[..nRows] == rows;
    }
  }

  /** Only truthy entries reach a column. */
  lemma {:induction false} ColumnTruthy<T>(rows: seq<seq<T>>, c: nat, truthy: T -> bool)
    ensures forall x :: x in Column(rows, c, truthy) ==> truthy(x)
  {
    if |rows| > 0 {
      ColumnTruthy(rows[..|rows| - 1], c, truthy);
    }
  }

  /** When every row has a truthy `c`-th entry, column `c` has one entry per row. */
  lemma {:induction false} ColumnFull<T>(rows: seq<seq<T>>, c: nat, truthy: T -> bool)
    requires forall i :: 0 <= i < |rows| ==> c < |rows[i]| && truthy(rows[i][c])
    ensures |Column(rows, c, truthy)| == |rows|
  {
    if |rows| > 0 {
      ColumnFull(rows[..|rows| - 1], c, truthy);
    }
  }

  lemma WithKeyOfCell<K, T>(row: seq<T>, c: nat, truthy: T -> bool, f: T -> K, k: K)
    requires c < |row| ==> f(row[c]) == k
    ensures WithKey(Cell(row, c, truthy), f, k) == Cell(row, c, truthy)
  {
    var cell := Cell(row, c, truthy);
    if |cell| == 1 {
      assert cell[..0] == [];
    }
  }

  lemma WithKeyOfOtherCell<K, T>(row: seq<T>, c: nat, truthy: T -> bool, f: T -> K, k: K)
    requires c < |row| ==> f(row[c]) != k
    ensures WithKey(Cell(row, c, truthy), f, k) == []
  {
    var cell := Cell(row, c, truthy);
    if |cell| == 1 {
      assert cell[..0] == [];
    }
  }

  /** Row `i` holds only elements of key `keys[i]`, and the keys are distinct. */
  predicate RowsOfKeys<K(==), T>(rows: seq<seq<T>>, keys: seq<K>, f: T -> K)
  {
    && |rows| == |keys| && NoDup(keys)
    && forall i, j :: 0 <= i < |rows| && 0 <= j < |rows[i]| ==> f(rows[i][j]) == keys[i]
  }

  /** Dropping the last row keeps the property, and the last row's key is not among the others. */
  lemma RowsOfKeysPrefix<K, T>(rows: seq<seq<T>>, keys: seq<K>, f: T -> K, c: nat)
    requires RowsOfKeys(rows, keys, f) && |rows| > 0
    ensures RowsOfKeys(rows[..|rows| - 1], keys[..|keys| - 1], f)
    ensures c < |rows[|rows| - 1]| ==> f(rows[|rows| - 1][c]) == keys[|keys| - 1]
    ensures keys[|keys| - 1] !in keys[..|keys| - 1]
  {
    var n := |rows|;
    assert NoDup(keys[..n - 1]);
  }

  /**
   * When row `i` holds only elements of key `keys[i]` and the keys are
   * distinct, the key-`k` part of any column is what the row of key `k`
   * contributes to it, and nothing when no row has key `k`.
   */
  lemma {:induction false} ColumnWithKey<K, T>(rows: seq<seq<T>>, keys: seq<K>, f: T -> K, truthy: T -> bool, c: nat, k: K)
    requires RowsOfKeys(rows, keys, f)
    ensures k !in keys ==> WithKey(Column(rows, c, truthy), f, k) == []
    ensures forall i :: 0 <= i < |rows| && keys[i] == k ==> WithKey(Column(rows, c, truthy), f, k) == Cell(rows[i], c, truthy)
  {
    var n := |rows|;
    if n > 0 {
      var pre, last := rows[..n - 1], rows[n - 1];
      var keys' := keys[..n - 1];
      RowsOfKeysPrefix(rows, keys, f, c);
      ColumnWithKey(pre, keys', f, truthy, c, k);
      var col, cell := Column(pre, c, truthy), Cell(last, c, truthy);
      WithKeyAppend(col, cell, f, k);
      if keys[n - 1] == k {
        WithKeyOfCell(last, c, truthy, f, k);
        forall i | 0 <= i < n && keys[i] == k
          ensures i == n - 1
        {
        }
      } else {
        WithKeyOfOtherCell(last, c, truthy, f, k);
        forall i | 0 <= i < n && keys[i] == k
          ensures i < n - 1 && keys'[i] == k && pre[i] == rows[i]
        {
        }
      }
    }
  }

  // ------------------------------------------- transpose keeps every element

  /** The union of `g(0)`, ..., `g(m - 1)`. */
  ghost function MsSum<T>(g: nat -> multiset<T>, m: nat): multiset<T>
  {
    if m == 0 then multiset{} else MsSum(g, m - 1) + g(m - 1)
  }

  lemma MsSumUnfold<T>(g: nat -> multiset<T>, m: nat)
    requires m > 0
    ensures MsSum(g, m) == MsSum(g, m - 1) + g(m - 1)
  {
  }

  /** A pointwise sum of two families sums to the sum of the two sums. */
  lemma {:induction false} MsSumAdd<T>(g: nat -> multiset<T>, a: nat -> multiset<T>, b: nat -> multiset<T>, m: nat)
    requires forall c: nat :: c < m ==> g(c) == a(c) + b(c)
    ensures MsSum(g, m) == MsSum(a, m) + MsSum(b, m)
  {
    if m > 0 {
      MsSumAdd(g, a, b, m - 1);
      var x, y, u, v := MsSum(a, m - 1), MsSum(b, m - 1), a(m - 1), b(m - 1);
      assert (x + y) + (u + v) == (x + u) + (y + v);
    }
  }

  /** A family of empty multisets sums to the empty multiset. */
  lemma {:induction false} MsSumEmpty<T>(g: nat -> multiset<T>, m: nat)
    requires forall c: nat :: c < m ==> g(c) == multiset{}
    ensures MsSum(g, m) == multiset{}
  {
    if m > 0 {
      MsSumEmpty(g, m - 1);
    }
  }

  /** The multiset of columns `0 .. m-1`. */
  ghost function ColumnsMs<T>(rows: seq<seq<T>>, truthy: T -> bool, m: nat): multiset<T>
  {
    MsSum((c: nat) => multiset(Column(rows, c, truthy)), m)
  }

  /** The multiset of what one row contributes to columns `0 .. m-1`. */
  ghost function CellsMs<T>(row: seq<T>, truthy: T -> bool, m: nat): multiset<T>
  {
    MsSum((c: nat) => multiset(Cell(row, c, truthy)), m)
  }

  lemma ColumnsMsUnfold<T>(rows: seq<seq<T>>, truthy: T -> bool, m: nat)
    requires m > 0
    ensures ColumnsMs(rows, truthy, m) == ColumnsMs(rows, truthy, m - 1) + multiset(Column(rows, m - 1, truthy))
  {
    var g := (c: nat) => multiset(Column(rows, c, truthy));
    assert ColumnsMs(rows, truthy, m) == MsSum(g, m);
    assert ColumnsMs(rows, truthy, m - 1) == MsSum(g, m - 1);
    assert g(m - 1) == multiset(Column(rows, m - 1, truthy));
    MsSumUnfold(g, m);
  }

  lemma CellsMsUnfold<T>(row: seq<T>, truthy: T -> bool, m: nat)
    requires m > 0
    ensures CellsMs(row, truthy, m) == CellsMs(row, truthy, m - 1) + multiset(Cell(row, m - 1, truthy))
  {
    var g := (c: nat) => multiset(Cell(row, c, truthy));
    assert CellsMs(row, truthy, m) == MsSum(g, m);
    assert CellsMs(row, truthy, m - 1) == MsSum(g, m - 1);
    assert g(m - 1) == multiset(Cell(row, m - 1, truthy));
    MsSumUnfold(g, m);
  }

  lemma ColumnsMsOfNoRows<T>(rows: seq<seq<T>>, truthy: T -> bool, m: nat)
    requires |rows| == 0
    ensures ColumnsMs(rows, truthy, m) == multiset{}
  {
    MsSumEmpty((c: nat) => multiset(Column(rows, c, truthy)), m);
  }

  /** Column `c` of all rows is column `c` of all but the last, then the last row's cell. */
  lemma ColumnMsStep<T>(rows: seq<seq<T>>, c: nat, truthy: T -> bool)
    requires |rows| > 0
    ensures multiset(Column(rows, c, truthy))
         == multiset(Column(rows[..|rows| - 1], c, truthy)) + multiset(Cell(rows[|rows| - 1], c, truthy))
  {
  }

  lemma ColumnsMsSplit<T>(rows: seq<seq<T>>, truthy: T -> bool, m: nat)
    requires |rows| > 0
    ensures ColumnsMs(rows, truthy, m)
         == ColumnsMs(rows[..|rows| - 1], truthy, m) + CellsMs(rows[|rows| - 1], truthy, m)
  {
    var g := (c: nat) => multiset(Column(rows, c, truthy));
    var a := (c: nat) => multiset(Column(rows[..|rows| - 1], c, truthy));
    var b := (c: nat) => multiset(Cell(rows[|rows| - 1], c, truthy));
    forall c: nat | c < m
      ensures g(c) == a(c) + b(c)
    {
      ColumnMsStep(rows, c, truthy);
    }
    MsSumAdd(g, a, b, m);
  }

  /** The prefix of length `m` selects what the prefix of length `m - 1` does, plus its `(m-1)`-th cell. */
  lemma SelectPrefixStep<T>(row: seq<T>, truthy: T -> bool, m: nat)
    requires 0 < m <= |row|
    ensures Select(row[..m], truthy, true) == Select(row[..m - 1], truthy, true) + Cell(row, m - 1, truthy)
  {
    var p := row[..m];
    assert p[..|p| - 1] == row[..m - 1] && p[|p| - 1] == row[m - 1];
  }

  lemma {:induction false} CellsMsPrefix<T>(row: seq<T>, truthy: T -> bool, m: nat)
    requires m <= |row|
    ensures CellsMs(row, truthy, m) == multiset(Select(row[..m], truthy, true))
  {
    if m > 0 {
      CellsMsPrefix(row, truthy, m - 1);
      SelectPrefixStep(row, truthy, m);
      CellsMsUnfold(row, truthy, m);
      MsAppend(Select(row[..m - 1], truthy, true), Cell(row, m - 1, truthy));
    }
  }

  lemma {:induction false} CellsMsAll<T>(row: seq<T>, truthy: T -> bool, m: nat)
    requires |row| <= m
    ensures CellsMs(row, truthy, m) == multiset(Select(row, truthy, true))
  {
    if m == |row| {
      CellsMsPrefix(row, truthy, m);
      assert row[..m] == row;
    } else {
      CellsMsAll(row, truthy, m - 1);
      CellsMsUnfold(row, truthy, m);
    }
  }

  lemma {:induction false} ColumnsMsAll<T>(rows: seq<seq<T>>, truthy: T -> bool, m: nat)
    requires forall i :: 0 <= i < |rows| ==> |rows[i]| <= m
    ensures ColumnsMs(rows, truthy, m) == multiset(Select(Concat(rows), truthy, true))
  {
    if |rows| == 0 {
      ColumnsMsOfNoRows(rows, truthy, m);
    } else {
      var pre, last := rows[..|rows| - 1], rows[|rows| - 1];
      ColumnsMsSplit(rows, truthy, m);
      ColumnsMsAll(pre, truthy, m);
      CellsMsAll(last, truthy, m);
      ConcatSnoc(rows);
      SelectAppend(Concat(pre), last, truthy, true);
      MsAppend(Select(Concat(pre), truthy, true), Select(last, truthy, true));
    }
  }

  /** The first `m` columns concatenated are the first `m - 1` followed by column `m - 1`. */
  lemma ConcatColumnsStep<T>(rows: seq<seq<T>>, truthy: T -> bool, m: nat)
    requires |rows| > 0 && 0 < m <= MaxLen(rows)
    ensures Concat(Columns(rows, truthy)[..m]) == Concat(Columns(rows, truthy)[..m - 1]) + Column(rows, m - 1, truthy)
  {
    var w := Columns(rows, truthy);
    assert w[..m] == w[..m - 1] + [w[m - 1]];
    ConcatAppend(w[..m - 1], [w[m - 1]]);
    assert Concat([w[m - 1]]) == w[m - 1];
  }

  lemma {:induction false} ConcatColumnsPrefix<T>(rows: seq<seq<T>>, truthy: T -> bool, m: nat)
    requires |rows| > 0 && m <= MaxLen(rows)
    ensures multiset(Concat(Columns(rows, truthy)[..m])) == ColumnsMs(rows, truthy, m)
  {
    if m > 0 {
      ConcatColumnsPrefix(rows, truthy, m - 1);
      ConcatColumnsStep(rows, truthy, m);
      ColumnsMsUnfold(rows, truthy, m);
      MsAppend(Concat(Columns(rows, truthy)[..m - 1]), Column(rows, m - 1, truthy));
    }
  }

  /** The transpose holds exactly the truthy entries of the rows, each once. */
  lemma TransposeKeepsTruthyEntries<T>(rows: seq<seq<T>>, truthy: T -> bool)
    requires |rows| > 0
    ensures multiset(Concat(Columns(rows, truthy))) == multiset(Select(Concat(rows), truthy, true))
  {
    var w := Columns(rows, truthy);
    ConcatColumnsPrefix(rows, truthy, MaxLen(rows));
    assert w[..MaxLen(rows)] == w;
    ColumnsMsAll(rows, truthy, MaxLen(rows));
  }

  /** With truthy entries only, transposing keeps the total element count. */
  lemma TransposePreservesCount<T>(rows: seq<seq<T>>, truthy: T -> bool)
    requires |rows| > 0
    requires forall x :: x in Concat(rows) ==> truthy(x)
    ensures |Concat(Columns(rows, truthy))| == |Concat(rows)|
  {
    TransposeKeepsTruthyEntries(rows, truthy);
    SelectAll(Concat(rows), truthy);
    assert |multiset(Concat(Columns(rows, truthy)))| == |multiset(Concat(rows))|;
  }

  // ------------------------------------------------------- groupByAndTranpose

  /** The waves `groupByAndTranpose` builds: the transpose of the buckets' arrays. */
  function Waves<K(==), T>(xs: seq<T>, f: T -> K, truthy: T -> bool): seq<seq<T>>
    requires |xs| > 0
  {
    var bs := GroupBy(xs, f);
    assert f(xs[0]) in Keys(bs);
    Columns(Values(bs), truthy)
  }

  /** Row `i` of `Values(GroupBy(xs, f))` holds only elements of key `Keys(..)[i]`. */
  lemma BucketsAreUniform<K, T>(xs: seq<T>, f: T -> K, rows: seq<seq<T>>, keys: seq<K>)
    requires rows == Values(GroupBy(xs, f)) && keys == Keys(GroupBy(xs, f))
    ensures RowsOfKeys(rows, keys, f)
  {
    var bs := GroupBy(xs, f);
    forall i, j | 0 <= i < |rows| && 0 <= j < |rows[i]|
      ensures f(rows[i][j]) == keys[i]
    {
      WithKeyMembers(xs, f, bs[i].key);
      assert rows[i][j] in WithKey(xs, f, bs[i].key);
    }
  }

  /** A key without a bucket has no elements. */
  lemma KeyWithoutBucket<K, T>(xs: seq<T>, f: T -> K, k: K)
    requires k !in Keys(GroupBy(xs, f))
    ensures WithKey(xs, f, k) == []
  {
    forall i | 0 <= i < |xs|
      ensures f(xs[i]) != k
    {
      assert f(xs[i]) in Keys(GroupBy(xs, f));
    }
    WithKeyNone(xs, f, k);
  }

  /**
   * Wave `c` holds, of each key `k`, exactly the `c`-th element with key `k`
   * in input order, provided that element exists and is truthy, and nothing
   * else of key `k`.
   */
  lemma WavesByKey<K, T>(xs: seq<T>, f: T -> K, truthy: T -> bool, c: nat, k: K)
    requires |xs| > 0 && c < |Waves(xs, f, truthy)|
    ensures WithKey(Waves(xs, f, truthy)[c], f, k) == Cell(WithKey(xs, f, k), c, truthy)
  {
    var bs := GroupBy(xs, f);
    var rows, keys := Values(bs), Keys(bs);
    assert Waves(xs, f, truthy) == Columns(rows, truthy);
    BucketsAreUniform(xs, f, rows, keys);
    ColumnWithKey(rows, keys, f, truthy, c, k);
    if k !in keys {
      KeyWithoutBucket(xs, f, k);
    } else {
      var i := FirstIndex(keys, k);
      assert rows[i] == WithKey(xs, f, k);
    }
  }

  /** There are enough waves for every element of every key. */
  lemma WavesCoverEveryKey<K, T>(xs: seq<T>, f: T -> K, truthy: T -> bool, k: K)
    requires |xs| > 0
    ensures |WithKey(xs, f, k)| <= |Waves(xs, f, truthy)|
  {
    var bs := GroupBy(xs, f);
    if k !in Keys(bs) {
      KeyWithoutBucket(xs, f, k);
    } else {
      var i :| 0 <= i < |bs| && Keys(bs)[i] == k;
      assert |Values(bs)[i]| <= MaxLen(Values(bs));
    }
  }

  /** No two elements of one wave share a key. */
  lemma WavesHaveDistinctKeys<K, T>(xs: seq<T>, f: T -> K, truthy: T -> bool, c: nat)
    requires |xs| > 0 && c < |Waves(xs, f, truthy)|
    ensures DistinctKeys(Waves(xs, f, truthy)[c], f)
  {
    var w := Waves(xs, f, truthy)[c];
    forall k
      ensures |WithKey(w, f, k)| <= 1
    {
      WavesByKey(xs, f, truthy, c, k);
    }
    AtMostOnePerKey(w, f);
  }

  /** The waves hold every truthy input element exactly as often as the input does. */
  lemma WavesKeepTruthyElements<K, T>(xs: seq<T>, f: T -> K, truthy: T -> bool)
    requires |xs| > 0
    ensures multiset(Concat(Waves(xs, f, truthy))) == multiset(Select(xs, truthy, true))
  {
    var rows := Values(GroupBy(xs, f));
    TransposeKeepsTruthyEntries(rows, truthy);
    GroupByKeepsEveryElement(xs, f);
    SelectSameMultiset(Concat(rows), xs, truthy);
  }

  /** The key-`k` part of each row. */
  function KeyParts<K(==), T>(rows: seq<seq<T>>, f: T -> K, k: K): (parts: seq<seq<T>>)
    ensures |parts| == |rows|
    ensures forall c :: 0 <= c < |rows| ==> parts[c] == WithKey(rows[c], f, k)
  {
    seq(|rows|, c requires 0 <= c < |rows| => WithKey(rows[c], f, k))
  }

  /** The key-`k` part of the concatenated rows is the concatenation of their key-`k` parts. */
  lemma {:induction false} WithKeyOfConcat<K, T>(rows: seq<seq<T>>, f: T -> K, k: K)
    ensures WithKey(Concat(rows), f, k) == Concat(KeyParts(rows, f, k))
  {
    if |rows| > 0 {
      WithKeyOfConcat(rows[1..], f, k);
      WithKeyAppend(rows[0], Concat(rows[1..]), f, k);
      assert KeyParts(rows, f, k)[1..] == KeyParts(rows[1..], f, k);
    }
  }

  /**
   * Pieces of which piece `c` is element `c` of `w`, or empty past its end,
   * concatenate to `w`.
   */
  lemma {:induction false} ConcatOfSingletons<T>(pieces: seq<seq<T>>, w: seq<T>)
    requires |w| <= |pieces|
    requires forall c :: 0 <= c < |pieces| ==> pieces[c] == if c < |w| then [w[c]] else []
    ensures Concat(pieces) == w
  {
    if |pieces| > 0 {
      var w' := if |w| > 0 then w[1..] else [];
      ConcatOfSingletons(pieces[1..], w');
      if |w| > 0 {
        assert w == [w[0]] + w';
      }
    }
  }

  /**
   * Rows of which row `c` holds, of key `k`, just element `c` of `w` (nothing
   * past its end) hold, read one after the other, exactly `w` of key `k`.
   */
  lemma SpreadKeepsKeyOrder<K, T>(rows: seq<seq<T>>, f: T -> K, k: K, w: seq<T>)
    requires |w| <= |rows|
    requires forall c :: 0 <= c < |rows| ==> WithKey(rows[c], f, k) == if c < |w| then [w[c]] else []
    ensures WithKey(Concat(rows), f, k) == w
  {
    var parts := KeyParts(rows, f, k);
    forall c | 0 <= c < |parts|
      ensures parts[c] == if c < |w| then [w[c]] else []
    {
      assert parts[c] == WithKey(rows[c], f, k);
    }
    WithKeyOfConcat(rows, f, k);
    ConcatOfSingletons(parts, w);
  }

  /** The elements of one key of an all-truthy sequence are truthy. */
  lemma {:induction false} WithKeyTruthy<K, T>(xs: seq<T>, f: T -> K, k: K, truthy: T -> bool)
    requires forall i :: 0 <= i < |xs| ==> truthy(xs[i])
    ensures forall j :: 0 <= j < |WithKey(xs, f, k)| ==> truthy(WithKey(xs, f, k)[j])
  {
    if |xs| > 0 {
      WithKeyTruthy(xs[..|xs| - 1], f, k, truthy);
    }
  }

  /**
   * With truthy elements only, reading the waves one after the other gives
   * the elements of each key in input order: the URLs of one domain are
   * spread over the waves without being reordered, dropped or repeated.
   */
  lemma WavesKeepKeyOrder<K, T>(xs: seq<T>, f: T -> K, truthy: T -> bool, k: K)
    requires |xs| > 0
    requires forall i :: 0 <= i < |xs| ==> truthy(xs[i])
    ensures WithKey(Concat(Waves(xs, f, truthy)), f, k) == WithKey(xs, f, k)
  {
    var waves := Waves(xs, f, truthy);
    var w := WithKey(xs, f, k);
    WithKeyTruthy(xs, f, k, truthy);
    forall c | 0 <= c < |waves|
      ensures WithKey(waves[c], f, k) == if c < |w| then [w[c]] else []
    {
      WavesByKey(xs, f, truthy, c, k);
    }
    WavesCoverEveryKey(xs, f, truthy, k);
    SpreadKeepsKeyOrder(waves, f, k, w);
  }

  /** With truthy elements only, the first wave has one element per distinct key. */
  lemma FirstWaveHasEveryKey<K, T>(xs: seq<T>, f: T -> K, truthy: T -> bool)
    requires |xs| > 0
    requires forall i :: 0 <= i < |xs| ==> truthy(xs[i])
    ensures |Waves(xs, f, truthy)| > 0
    ensures |Waves(xs, f, truthy)[0]| == |Dedup(Map(xs, f))|
  {
    var bs := GroupBy(xs, f);
    var rows := Values(bs);
    forall i | 0 <= i < |rows|
      ensures 0 < |rows[i]| && truthy(rows[i][0])
    {
      WithKeyMembers(xs, f, bs[i].key);
      assert rows[i][0] in WithKey(xs, f, bs[i].key);
    }
    assert |rows[0]| <= MaxLen(rows);
    ColumnFull(rows, 0, truthy);
    GroupByKeysInFirstSeenOrder(xs, f);
  }

  /**
   * `groupByAndTranpose(strs, f)`: `groupBy`, then `Object.values`, then
   * `transpose`. An empty input makes `transpose` throw, hence the
   * precondition.
   */
  method GroupByAndTranspose<K(==), T>(xs: seq<T>, f: T -> K, truthy: T -> bool) returns (waves: seq<seq<T>>)
    requires |xs| > 0
    ensures waves == Waves(xs, f, truthy)
    ensures forall c, k :: 0 <= c < |waves| ==> WithKey(waves[c], f, k) == Cell(WithKey(xs, f, k), c, truthy)
    ensures forall k :: |WithKey(xs, f, k)| <= |waves|
    ensures forall c :: 0 <= c < |waves| ==> DistinctKeys(waves[c], f)
    ensures multiset(Concat(waves)) == multiset(Select(xs, truthy, true))
  {
    var groups := GroupBy(xs, f);
    assert f(xs[0]) in Keys(groups);
    waves := Transpose(Values(groups), truthy);
    forall c, k | 0 <= c < |waves|
      ensures WithKey(waves[c], f, k) == Cell(WithKey(xs, f, k), c, truthy)
    {
      WavesByKey(xs, f, truthy, c, k);
    }
    forall k
      ensures |WithKey(xs, f, k)| <= |waves|
    {
      WavesCoverEveryKey(xs, f, truthy, k);
    }
    forall c | 0 <= c < |waves|
      ensures DistinctKeys(waves[c], f)
    {
      WavesHaveDistinctKeys(xs, f, truthy, c);
    }
    WavesKeepTruthyElements(xs, f, truthy);
  }
}
