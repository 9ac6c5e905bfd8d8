/**
 * The wave scheduler of `requestAsync` in test/link.js: waves are taken from
 * the front of a queue, an oversize wave is cut after `MAX_CONNECTION` URLs
 * and its remainder is put back at the front, until the queue is empty. The
 * HTTP requests, the pause between rounds and the progress counter are not
 * part of this model; only the order and size of the dispatched batches is.
 */
module Scheduler {
  import opened SeqUtil

  /** `MAX_CONNECTION`: the number of requests sent at once. */
  const MaxConnection: nat := 35

  /** The measure that falls with every round: queued URLs plus queued waves. */
  function Size<T>(queue: seq<seq<T>>): nat
  {
    |Concat(queue)| + |queue|
  }

  /**
   * One round (lines 290-296): shift the front wave off the queue; when it
   * holds more than `MaxConnection` URLs, splice off everything after the
   * first `MaxConnection` and unshift that remainder back onto the queue.
   * Returns the batch requested in this round and the queue left behind.
   */
  function Step<T>(queue: seq<seq<T>>): (r: (seq<T>, seq<seq<T>>))
    requires |queue| > 0
    ensures |r.0| <= MaxConnection
    ensures r.0 + Concat(r.1) == Concat(queue)
    ensures Size(r.1) < Size(queue)
    ensures |queue[0]| <= MaxConnection ==> r == (queue[0], queue[1..])
    ensures |queue[0]| > MaxConnection ==>
      r.0 == queue[0][..MaxConnection] && r.1 == [queue[0][MaxConnection..]] + queue[1..]
  {
    var requestUrls := queue[0];
    if |requestUrls| > MaxConnection then
      var remainder := requestUrls[MaxConnection..];
      var rest := [remainder] + queue[1..];
      assert rest[1..] == queue[1..];
      assert requestUrls == requestUrls[..MaxConnection] + remainder;
      (requestUrls[..MaxConnection], rest)
    else
      (requestUrls, queue[1..])
  }

  /**
   * The whole run (lines 286-296 and 310-315) when every response passes the
   * status assertions of lines 302-305: one batch per round, and a next round
   * as long as the queue is not empty. A failing status rejects the round's
   * `Promise.all` and ends the run at line 318 instead. Every batch holds at most
   * `MaxConnection` URLs and, read in order, the batches hold exactly the URLs
   * of the initial waves in their order.
   */
  function Dispatch<T>(queue: seq<seq<T>>): (batches: seq<seq<T>>)
    requires |queue| > 0
    ensures |batches| > 0
    ensures forall k :: 0 <= k < |batches| ==> |batches[k]| <= MaxConnection
    ensures Concat(batches) == Concat(queue)
    decreases Size(queue)
  {
    var (batch, rest) := Step(queue);
    if |rest| > 0 then
      var later := Dispatch(rest);
      assert ([batch] + later)[1..] == later;
      [batch] + later
    else
      [batch]
  }

  /**
   * An oversize front wave gives a full batch of its first `MaxConnection`
   * URLs, and its remainder is the source of the very next batch.
   */
  lemma DispatchOversizeFront<T>(queue: seq<seq<T>>)
    requires |queue| > 0 && |queue[0]| > MaxConnection
    ensures Dispatch(queue)[0] == queue[0][..MaxConnection]
    ensures Dispatch(queue)[1..] == Dispatch([queue[0][MaxConnection..]] + queue[1..])
  {
  }

  /** A front wave within the cap is requested whole, and the queue behind it follows. */
  lemma DispatchSmallFront<T>(queue: seq<seq<T>>)
    requires |queue| > 0 && |queue[0]| <= MaxConnection
    ensures Dispatch(queue)[0] == queue[0]
    ensures |queue| == 1 ==> |Dispatch(queue)| == 1
    ensures |queue| > 1 ==> Dispatch(queue)[1..] == Dispatch(queue[1..])
  {
  }

  /** A wave cut into consecutive blocks of `MaxConnection`, the last one possibly shorter. */
  function Chunks<T>(wave: seq<T>): seq<seq<T>>
    decreases |wave|
  {
    if |wave| <= MaxConnection then [wave]
    else [wave[..MaxConnection]] + Chunks(wave[MaxConnection..])
  }

  /** Every wave of the queue cut into blocks, wave after wave. */
  function ChunksAll<T>(queue: seq<seq<T>>): seq<seq<T>>
  {
    if |queue| == 0 then [] else Chunks(queue[0]) + ChunksAll(queue[1..])
  }

  /**
   * The scheduler never mixes two waves into one batch and never reorders:
   * its batches are exactly each wave cut into blocks of `MaxConnection`,
   * so the remainder of an oversize wave is always the next batch source.
   */
  lemma {:induction false} DispatchIsChunking<T>(queue: seq<seq<T>>)
    requires |queue| > 0
    ensures Dispatch(queue) == ChunksAll(queue)
    decreases Size(queue)
  {
    var head := queue[0];
    var (batch, rest) := Step(queue);
    if |head| > MaxConnection {
      DispatchIsChunking(rest);
      assert rest[1..] == queue[1..];
      assert ChunksAll(rest) == Chunks(head[MaxConnection..]) + ChunksAll(queue[1..]);
    } else if |rest| > 0 {
      DispatchIsChunking(rest);
    }
  }

  /** The number of rounds: one per block of every wave. */
  lemma {:induction false} ChunksCount<T>(wave: seq<T>)
    ensures |Chunks(wave)| == if |wave| == 0 then 1 else (|wave| + MaxConnection - 1) / MaxConnection
    decreases |wave|
  {
    if |wave| > MaxConnection {
      ChunksCount(wave[MaxConnection..]);
    }
  }

  /** Every block of a wave is a contiguous slice of it. */
  lemma {:induction false} ChunksAreSlices<T>(wave: seq<T>, k: nat)
    requires k < |Chunks(wave)|
    ensures k * MaxConnection <= |wave| || (k == 0 && |wave| == 0)
    ensures Chunks(wave)[k] == wave[k * MaxConnection .. if (k + 1) * MaxConnection <= |wave| then (k + 1) * MaxConnection else |wave|]
    decreases |wave|
  {
    if |wave| > MaxConnection && k > 0 {
      var tail := wave[MaxConnection..];
      ChunksAreSlices(tail, k - 1);
      assert k * MaxConnection == (k - 1) * MaxConnection + MaxConnection;
      assert (k + 1) * MaxConnection == k * MaxConnection + MaxConnection;
      var lo := (k - 1) * MaxConnection;
      var hi := if k * MaxConnection <= |tail| then k * MaxConnection else |tail|;
      assert tail[lo..hi] == wave[lo + MaxConnection .. hi + MaxConnection];
    }
  }

  /** A slice of a sequence whose keys are pairwise distinct has pairwise distinct keys. */
  lemma DistinctKeysSlice<T, K>(s: seq<T>, f: T -> K, lo: nat, hi: nat)
    requires lo <= hi <= |s|
    requires DistinctKeys(s, f)
    ensures DistinctKeys(s[lo..hi], f)
  {
    forall i, j | 0 <= i < j < hi - lo
      ensures f(s[lo..hi][i]) != f(s[lo..hi][j])
    {
      assert s[lo..hi][i] == s[lo + i] && s[lo..hi][j] == s[lo + j];
    }
  }

  /**
   * Capping keeps the domain balance: when no two URLs of a wave share a key,
   * no two URLs of a batch do either.
   */
  lemma {:induction false} DispatchKeepsDistinctKeys<T, K>(queue: seq<seq<T>>, f: T -> K)
    requires |queue| > 0
    requires forall w :: 0 <= w < |queue| ==> DistinctKeys(queue[w], f)
    ensures forall k :: 0 <= k < |Dispatch(queue)| ==> DistinctKeys(Dispatch(queue)[k], f)
    decreases Size(queue)
  {
    var head := queue[0];
    var (batch, rest) := Step(queue);
    if |head| > MaxConnection {
      DistinctKeysSlice(head, f, 0, MaxConnection);
      DistinctKeysSlice(head, f, MaxConnection, |head|);
      assert head[0..MaxConnection] == batch && head[MaxConnection..|head|] == rest[0];
      forall w | 0 <= w < |rest|
        ensures DistinctKeys(rest[w], f)
      {
        if w > 0 { assert rest[w] == queue[w]; }
      }
    } else {
      forall w | 0 <= w < |rest|
        ensures DistinctKeys(rest[w], f)
      {
        assert rest[w] == queue[w + 1];
      }
    }
    if |rest| > 0 {
      DispatchKeepsDistinctKeys(rest, f);
      var later := Dispatch(rest);
      assert Dispatch(queue) == [batch] + later;
      forall k | 0 <= k < |Dispatch(queue)|
        ensures DistinctKeys(Dispatch(queue)[k], f)
      {
        if k > 0 { assert Dispatch(queue)[k] == later[k - 1]; }
      }
    }
  }
}
