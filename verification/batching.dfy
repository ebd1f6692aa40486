/**
 * Chunked transaction submission, the block the sync pass, the delete pass
 * and the photo pass each carry a copy of: a batch below 100 actions goes
 * in one transaction, a longer one in consecutive chunks of 99, submitted
 * in order inside a single `try`, so the first failing transaction ends
 * the loop.
 */
module Batching {
  import opened Common

  /** Actions per chunk: one below the store's limit of 100 per transaction. */
  const ChunkSize: nat := 99

  /** Batches at least this long are chunked; shorter ones go in one transaction. */
  const ChunkThreshold: nat := 100

  function Flatten<T>(xss: seq<seq<T>>): seq<T> {
    if |xss| == 0 then [] else xss[0] + Flatten(xss[1..])
  }

  lemma {:induction false} FlattenConcat<T>(a: seq<seq<T>>, b: seq<seq<T>>)
    ensures Flatten(a + b) == Flatten(a) + Flatten(b)
    decreases |a|
  {
    if |a| == 0 {
      assert a + b == b;
    } else {
      assert (a + b)[1..] == a[1..] + b;
      FlattenConcat(a[1..], b);
    }
  }

  /** Every element of one of the pieces is an element of the whole. */
  lemma {:induction false} FlattenMember<T>(xss: seq<seq<T>>, i: nat)
    requires i < |xss|
    ensures forall a :: a in xss[i] ==> a in Flatten(xss)
    decreases i
  {
    if i > 0 {
      assert xss[1..][i - 1] == xss[i];
      FlattenMember(xss[1..], i - 1);
    }
  }

  /** `a / n` rounded up. */
  function CeilDiv(a: nat, n: nat): nat
    requires n > 0
  {
    (a + n - 1) / n
  }


  /** `Enumerable.Chunk(n)`: consecutive pieces of `n` elements, the last one possibly shorter. */
  function Chunk<T>(xs: seq<T>, n: nat): (r: seq<seq<T>>)
    requires n > 0
    ensures Flatten(r) == xs
    ensures forall i :: 0 <= i < |r| ==> 0 < |r[i]| <= n
    ensures forall i :: 0 <= i < |r| - 1 ==> |r[i]| == n
    ensures (|r| - 1) * n < |xs| <= |r| * n
    decreases |xs|
  {
    if |xs| == 0 then
      []
    else if |xs| <= n then
      assert Flatten([xs]) == xs + Flatten([xs][1..]);
      [xs]
    else
      var rest := Chunk(xs[n..], n);
      assert ([xs[..n]] + rest)[1..] == rest;
      assert xs == xs[..n] + xs[n..];
      assert (|rest| + 1) * n == |rest| * n + n;
      [xs[..n]] + rest
  }

  /** The transactions of one upload block. */
  function Transactions<T>(batch: seq<T>): (txs: seq<seq<T>>)
    ensures Flatten(txs) == batch
    ensures forall i :: 0 <= i < |txs| ==> |txs[i]| <= ChunkSize
    ensures |batch| < ChunkThreshold ==> txs == [batch]
    ensures |batch| >= ChunkThreshold ==> forall i :: 0 <= i < |txs| ==> |txs[i]| > 0
    ensures |batch| > 0 ==> |txs| == CeilDiv(|batch|, ChunkSize)
  {
    if |batch| >= ChunkThreshold then
      Chunk(batch, ChunkSize)
    else
      assert Flatten([batch]) == batch + Flatten([batch][1..]);
      [batch]
  }

  /**
   * What one upload block did: the transactions the store committed, in
   * order, and the one whose failure ended the loop, if any.
   */
  datatype Submission<T> = Submission(committed: seq<seq<T>>, rejected: Option<seq<T>>) {
    /** Every transaction handed to the store, in order. */
    function Sent(): seq<seq<T>> {
      committed + (if rejected.Some? then [rejected.value] else [])
    }
  }

  /**
   * Submits `txs` one after the other; `accept` is the store's verdict on a
   * transaction, which commits or fails as a whole. The first failure ends
   * the loop: nothing after it is submitted.
   */
  function SubmitInOrder<T>(txs: seq<seq<T>>, accept: seq<T> -> bool): (r: Submission<T>)
    ensures |r.Sent()| <= |txs| && r.Sent() == txs[..|r.Sent()|]
    ensures forall i :: 0 <= i < |r.committed| ==> accept(r.committed[i])
    ensures r.rejected.Some? ==> !accept(r.rejected.value)
    ensures r.rejected.None? <==> r.committed == txs
  {
    if |txs| == 0 then
      Submission([], None)
    else if !accept(txs[0]) then
      Submission([], Some(txs[0]))
    else
      var rest := SubmitInOrder(txs[1..], accept);
      var r := Submission([txs[0]] + rest.committed, rest.rejected);
      assert r.Sent() == [txs[0]] + rest.Sent();
      r
  }

  /**
   * The upload block itself (the `try` around the threshold test and the
   * loop). With nothing rejected, the committed transactions hold the whole
   * batch in order; a rejected transaction is one the store refused.
   */
  function SubmitInTransactions<T>(batch: seq<T>, accept: seq<T> -> bool): (r: Submission<T>)
    ensures r.rejected.None? ==> Flatten(r.committed) == batch
    ensures r.rejected.Some? ==> !accept(r.rejected.value)
  {
    SubmitInOrder(Transactions(batch), accept)
  }

  /** The upload block behind an emptiness test, as the sync and the delete pass have it. */
  function SubmitIfAny<T>(batch: seq<T>, accept: seq<T> -> bool): (r: Option<Submission<T>>)
    ensures r.None? <==> |batch| == 0
    ensures r.Some? ==> r.value == SubmitInTransactions(batch, accept)
  {
    if |batch| > 0 then Some(SubmitInTransactions(batch, accept)) else None
  }

  // ---------------------------------------------------------------------------
  // Properties of an upload block
  // ---------------------------------------------------------------------------

  /**
   * Size rules: below 100 actions exactly one transaction holding the whole
   * batch is sent; from 100 on, every transaction holds between 1 and 99
   * actions; when none fails there are ceil(n / 99) of them (n > 0) and they
   * hold the batch in order.
   */
  lemma SubmissionSizes<T>(batch: seq<T>, accept: seq<T> -> bool)
    ensures var r := SubmitInTransactions(batch, accept);
      && (|batch| < ChunkThreshold ==> r.Sent() == [batch])
      && (forall i :: 0 <= i < |r.Sent()| ==> |r.Sent()[i]| <= ChunkSize)
      && (|batch| >= ChunkThreshold ==> forall i :: 0 <= i < |r.Sent()| ==> |r.Sent()[i]| > 0)
      && (r.rejected.None? ==> Flatten(r.committed) == batch)
      && (r.rejected.None? && |batch| > 0 ==> |r.committed| == CeilDiv(|batch|, ChunkSize))
  {
    var txs := Transactions(batch);
    var r := SubmitInOrder(txs, accept);
    if |batch| < ChunkThreshold {
      if accept(batch) {
        assert r.committed == [batch];
      } else {
        assert r.rejected == Some(batch);
      }
    }
    forall i | 0 <= i < |r.Sent()|
      ensures |r.Sent()[i]| <= ChunkSize
      ensures |batch| >= ChunkThreshold ==> |r.Sent()[i]| > 0
    {
      assert r.Sent()[i] == txs[i];
    }
  }

  /**
   * What is committed is always a prefix of the batch: the transactions
   * before the failing one stay committed, nothing after it is attempted.
   */
  lemma CommittedIsPrefix<T>(batch: seq<T>, accept: seq<T> -> bool)
    ensures var r := SubmitInTransactions(batch, accept);
      Flatten(r.committed) <= batch
  {
    var txs := Transactions(batch);
    var r := SubmitInOrder(txs, accept);
    var k := |r.committed|;
    assert r.committed == txs[..k] by {
      assert r.Sent()[..k] == r.committed;
    }
    assert txs == txs[..k] + txs[k..];
    FlattenConcat(txs[..k], txs[k..]);
  }

  /** Only the first rejected transaction is sent after the committed ones; the rest of the plan is never sent. */
  lemma FirstFailureStopsLaterChunks<T>(batch: seq<T>, accept: seq<T> -> bool, i: nat)
    requires var txs := Transactions(batch); i < |txs| && !accept(txs[i])
    ensures var r := SubmitInTransactions(batch, accept);
      |r.Sent()| <= i + 1 && r.rejected.Some?
  {
    var txs := Transactions(batch);
    var r := SubmitInOrder(txs, accept);
    var k := |r.committed|;
    assert r.committed == txs[..k] by {
      assert r.Sent()[..k] == r.committed;
    }
    assert k <= i;
  }
}
