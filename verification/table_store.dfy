/**
 * The `VCardData` table as an abstract keyed store: the records of the one
 * partition in the order a query returns them, the three transaction
 * action types the functions use, and what a committed transaction does.
 * Whether the store commits a transaction is not decided here: the
 * functions that submit take the store's verdict as a parameter.
 */
module TableStore {
  import opened Common
  import opened Records
  import opened Batching

  datatype ActionKind = UpdateMerge | UpsertMerge | Delete

  /** A `TableTransactionAction`: an action type and the entity it carries. */
  datatype Action = Action(kind: ActionKind, entity: VCardData)

  /** The records of the table, in query order. */
  type Store = seq<VCardData>

  /** Point read by row key: the first record carrying `key`. */
  function Lookup(s: Store, key: string): (r: Option<VCardData>)
    ensures r.None? <==> forall i :: 0 <= i < |s| ==> s[i].rowKey != key
    ensures r.Some? ==> r.value in s && r.value.rowKey == key
  {
    if |s| == 0 then None
    else if s[0].rowKey == key then Some(s[0])
    else Lookup(s[1..], key)
  }

  /** The store's invariant: a row key identifies at most one record. */
  predicate UniqueKeys(s: Store) {
    forall i, j :: 0 <= i < j < |s| ==> s[i].rowKey != s[j].rowKey
  }

  lemma {:induction false} LookupAppend(a: Store, b: Store, key: string)
    ensures Lookup(a + b, key) == if Lookup(a, key).Some? then Lookup(a, key) else Lookup(b, key)
    decreases |a|
  {
    if |a| > 0 {
      assert (a + b)[0] == a[0];
      assert (a + b)[1..] == a[1..] + b;
      LookupAppend(a[1..], b, key);
    } else {
      assert a + b == b;
    }
  }

  /** Under unique keys a record of the store is what a point read of its key returns. */
  lemma LookupUnique(s: Store, i: nat)
    requires UniqueKeys(s) && i < |s|
    ensures Lookup(s, s[i].rowKey) == Some(s[i])
  {
    var r := Lookup(s, s[i].rowKey);
    var j :| 0 <= j < |s| && s[j] == r.value;
    assert j == i;
  }

  /** Removes the record with row key `key`. */
  function Remove(s: Store, key: string): (r: Store)
    ensures forall k :: Lookup(r, k) == if k == key then None else Lookup(s, k)
    ensures forall x :: x in r <==> x in s && x.rowKey != key
    ensures UniqueKeys(s) ==> UniqueKeys(r)
    decreases |s|
  {
    if |s| == 0 then []
    else if s[0].rowKey == key then
      assert forall x :: x in s <==> x == s[0] || x in s[1..];
      Remove(s[1..], key)
    else
      var rest := Remove(s[1..], key);
      assert forall x :: x in s <==> x == s[0] || x in s[1..];
      assert ([s[0]] + rest)[1..] == rest;
      [s[0]] + rest
  }

  /** Overwrites, in place, every record carrying `rec`'s row key. */
  function Overwrite(s: Store, rec: VCardData): (r: Store)
    ensures |r| == |s|
    ensures forall i :: 0 <= i < |s| ==> r[i] == if s[i].rowKey == rec.rowKey then rec else s[i]
    decreases |s|
  {
    if |s| == 0 then []
    else [if s[0].rowKey == rec.rowKey then rec else s[0]] + Overwrite(s[1..], rec)
  }

  /**
   * A committed merge of `rec` (`UpdateMerge` or `UpsertMerge`): the entity
   * carries every property, so afterwards the row holds `rec`; a row that
   * did not exist is added at the end.
   */
  function Put(s: Store, rec: VCardData): (r: Store)
    ensures forall k :: Lookup(r, k) == if k == rec.rowKey then Some(rec) else Lookup(s, k)
    ensures UniqueKeys(s) ==> UniqueKeys(r)
  {
    if Lookup(s, rec.rowKey).Some? then
      var r := Overwrite(s, rec);
      forall k
        ensures Lookup(r, k) == if k == rec.rowKey then Some(rec) else Lookup(s, k)
      {
        OverwriteLookup(s, rec, k);
      }
      r
    else
      var r := s + [rec];
      forall k
        ensures Lookup(r, k) == if k == rec.rowKey then Some(rec) else Lookup(s, k)
      {
        LookupAppend(s, [rec], k);
      }
      r
  }

  lemma {:induction false} OverwriteLookup(s: Store, rec: VCardData, k: string)
    ensures Lookup(Overwrite(s, rec), k) ==
      if k == rec.rowKey then (if Lookup(s, k).Some? then Some(rec) else None) else Lookup(s, k)
    decreases |s|
  {
    if |s| > 0 {
      var r := Overwrite(s, rec);
      assert r[1..] == Overwrite(s[1..], rec);
      OverwriteLookup(s[1..], rec, k);
    }
  }

  /**
   * Whether the store can commit `tx` against `s`: an `UpdateMerge` needs
   * its row to exist, and a transaction with one failing action fails as a
   * whole. Every submitting function takes the store's verdict as a
   * parameter; lemmas that depend on this rule state it as a premise about
   * that verdict.
   */
  ghost predicate UpdatesExisting(s: Store, tx: seq<Action>) {
    forall a :: a in tx && a.kind == UpdateMerge ==> Lookup(s, a.entity.rowKey).Some?
  }

  /** Transactions that each update only stored rows add up to one that does. */
  lemma {:induction false} UpdatesExistingFlatten(s: Store, txs: seq<seq<Action>>)
    requires forall i :: 0 <= i < |txs| ==> UpdatesExisting(s, txs[i])
    ensures UpdatesExisting(s, Flatten(txs))
    decreases |txs|
  {
    if |txs| > 0 {
      UpdatesExistingFlatten(s, txs[1..]);
      assert UpdatesExisting(s, txs[0]);
      forall a | a in Flatten(txs) && a.kind == UpdateMerge
        ensures Lookup(s, a.entity.rowKey).Some?
      {
        assert a in txs[0] || a in Flatten(txs[1..]);
      }
    }
  }

  /** The store commits every transaction whose updates all find their rows: no other failure. */
  ghost predicate CommitsUpdatesOfStoredRows(accept: seq<Action> -> bool, s: Store) {
    forall tx :: UpdatesExisting(s, tx) ==> accept(tx)
  }

  /** The store fails every transaction that updates a row missing from `s`. */
  ghost predicate RejectsUpdatesOfMissingRows(accept: seq<Action> -> bool, s: Store) {
    forall tx :: accept(tx) ==> UpdatesExisting(s, tx)
  }

  /**
   * An upload block whose batch updates only stored rows, sent to a store
   * with no other failure, commits every transaction.
   */
  lemma {:induction false} StoredUpdatesCommit(s: Store, batch: seq<Action>, accept: seq<Action> -> bool)
    requires CommitsUpdatesOfStoredRows(accept, s)
    requires UpdatesExisting(s, batch)
    ensures var r := SubmitInTransactions(batch, accept);
      r.rejected.None? && Flatten(r.committed) == batch
  {
    var txs := Transactions(batch);
    var r := SubmitInOrder(txs, accept);
    if r.rejected.Some? {
      var k := |r.committed|;
      assert r.rejected.value == txs[k] by {
        assert r.Sent()[k] == txs[k];
      }
      FlattenMember(txs, k);
      assert false;
    }
  }

  /**
   * What a committed action does. Both merge kinds write the whole record
   * under its key; an `UpdateMerge` of a missing row never reaches this point, because the
   * store does not commit it (`UpdatesExisting`).
   */
  function ApplyAction(s: Store, a: Action): Store {
    match a.kind
    case Delete => Remove(s, a.entity.rowKey)
    case UpdateMerge => Put(s, a.entity)
    case UpsertMerge => Put(s, a.entity)
  }

  /** A committed transaction applies its actions in order. */
  function ApplyTransaction(s: Store, tx: seq<Action>): Store
    decreases |tx|
  {
    if |tx| == 0 then s
    else ApplyAction(ApplyTransaction(s, tx[..|tx| - 1]), tx[|tx| - 1])
  }

  /** Committed transactions apply one after the other. */
  function ApplyAll(s: Store, txs: seq<seq<Action>>): Store
    decreases |txs|
  {
    if |txs| == 0 then s
    else ApplyTransaction(ApplyAll(s, txs[..|txs| - 1]), txs[|txs| - 1])
  }

  /** The store after an upload block: its committed transactions applied; a skipped block changes nothing. */
  function ApplySubmission(s: Store, sub: Option<Submission<Action>>): Store {
    if sub.None? then s else ApplyAll(s, sub.value.committed)
  }

  lemma {:induction false} ApplyTransactionConcat(s: Store, a: seq<Action>, b: seq<Action>)
    ensures ApplyTransaction(s, a + b) == ApplyTransaction(ApplyTransaction(s, a), b)
    decreases |b|
  {
    if |b| == 0 {
      assert a + b == a;
    } else {
      assert (a + b)[..|a + b| - 1] == a + b[..|b| - 1];
      ApplyTransactionConcat(s, a, b[..|b| - 1]);
    }
  }

  /** Applying the transactions one by one is applying their concatenation. */
  lemma {:induction false} ApplyAllFlatten(s: Store, txs: seq<seq<Action>>)
    ensures ApplyAll(s, txs) == ApplyTransaction(s, Flatten(txs))
    decreases |txs|
  {
    if |txs| > 0 {
      var init := txs[..|txs| - 1];
      var last := txs[|txs| - 1];
      assert txs == init + [last];
      assert Flatten(txs) == Flatten(init) + last by {
        FlattenConcat(init, [last]);
        assert Flatten([last]) == last + Flatten([last][1..]);
        assert last + [] == last;
      }
      ApplyAllFlatten(s, init);
      ApplyTransactionConcat(s, Flatten(init), last);
      calc {
        ApplyAll(s, txs);
        ApplyTransaction(ApplyAll(s, init), last);
        ApplyTransaction(ApplyTransaction(s, Flatten(init)), last);
        ApplyTransaction(s, Flatten(init) + last);
      }
    }
  }

  // ---------------------------------------------------------------------------
  // Batches of one action type
  // ---------------------------------------------------------------------------

  /** One action of type `kind` per record, in order (`list.Select(data => new TableTransactionAction(kind, data))`). */
  function Actions(kind: ActionKind, recs: seq<VCardData>): (r: seq<Action>)
    ensures |r| == |recs|
    ensures forall i :: 0 <= i < |recs| ==> r[i] == Action(kind, recs[i])
  {
    seq(|recs|, i requires 0 <= i < |recs| => Action(kind, recs[i]))
  }

  /** The last record of `recs` carrying `key`: the one a run of merges leaves in the row. */
  function LastWithKey(recs: seq<VCardData>, key: string): (r: Option<VCardData>)
    ensures r.None? <==> forall i :: 0 <= i < |recs| ==> recs[i].rowKey != key
    ensures r.Some? ==> r.value in recs && r.value.rowKey == key
    decreases |recs|
  {
    if |recs| == 0 then None
    else if recs[|recs| - 1].rowKey == key then Some(recs[|recs| - 1])
    else LastWithKey(recs[..|recs| - 1], key)
  }

  lemma {:induction false} LastWithKeyUnique(recs: seq<VCardData>, key: string)
    requires UniqueKeys(recs)
    ensures LastWithKey(recs, key) == Lookup(recs, key)
    decreases |recs|
  {
    if |recs| > 0 {
      var n := |recs| - 1;
      var init := recs[..n];
      assert recs == init + [recs[n]];
      LookupAppend(init, [recs[n]], key);
      LastWithKeyUnique(init, key);
      if recs[n].rowKey == key {
        assert Lookup(init, key).None? by {
          forall i | 0 <= i < |init| ensures init[i].rowKey != key {
            assert recs[i].rowKey != recs[n].rowKey;
          }
        }
      }
    }
  }

  /** After a committed run of deletions, exactly the deleted keys are gone. */
  lemma {:induction false} LookupAfterDeletes(s: Store, recs: seq<VCardData>, k: string)
    ensures Lookup(ApplyTransaction(s, Actions(Delete, recs)), k) ==
      if Lookup(recs, k).Some? then None else Lookup(s, k)
    decreases |recs|
  {
    if |recs| > 0 {
      var init := recs[..|recs| - 1];
      LastDelete(s, recs);
      LookupAfterDeletes(s, init, k);
      DeleteStep(ApplyTransaction(s, Actions(Delete, init)), s, recs, k);
    }
  }

  /** The last action of a run of deletions removes the last record's key. */
  lemma LastDelete(s: Store, recs: seq<VCardData>)
    requires |recs| > 0
    ensures ApplyTransaction(s, Actions(Delete, recs)) ==
      Remove(ApplyTransaction(s, Actions(Delete, recs[..|recs| - 1])), recs[|recs| - 1].rowKey)
  {
    var tx := Actions(Delete, recs);
    assert tx[..|tx| - 1] == Actions(Delete, recs[..|recs| - 1]);
  }

  /** Deleting the last record's key keeps the point-read formula of `LookupAfterDeletes`. */
  lemma DeleteStep(before: Store, s: Store, recs: seq<VCardData>, k: string)
    requires |recs| > 0
    requires Lookup(before, k) == if Lookup(recs[..|recs| - 1], k).Some? then None else Lookup(s, k)
    ensures Lookup(Remove(before, recs[|recs| - 1].rowKey), k) == if Lookup(recs, k).Some? then None else Lookup(s, k)
  {
    var n := |recs| - 1;
    assert recs == recs[..n] + [recs[n]];
    LookupAppend(recs[..n], [recs[n]], k);
  }

  /** After a committed run of merges, each merged key holds the last record merged under it; other keys are untouched. */
  lemma {:induction false} LookupAfterMerges(s: Store, kind: ActionKind, recs: seq<VCardData>, k: string)
    requires kind != Delete
    ensures Lookup(ApplyTransaction(s, Actions(kind, recs)), k) ==
      if LastWithKey(recs, k).Some? then LastWithKey(recs, k) else Lookup(s, k)
    decreases |recs|
  {
    if |recs| > 0 {
      var n := |recs| - 1;
      var tx := Actions(kind, recs);
      assert tx[..|tx| - 1] == Actions(kind, recs[..n]);
      var before := ApplyTransaction(s, Actions(kind, recs[..n]));
      assert ApplyTransaction(s, tx) == Put(before, recs[n]) by {
        assert tx[|tx| - 1] == Action(kind, recs[n]);
      }
      assert Lookup(Put(before, recs[n]), k) == if k == recs[n].rowKey then Some(recs[n]) else Lookup(before, k);
      LookupAfterMerges(s, kind, recs[..n], k);
    }
  }

  /**
   * An upload block of upserts to a store with no failure other than a
   * missing row commits whole: each key holds the last record upserted
   * under it, every other key is untouched.
   */
  lemma {:induction false} UpsertsCommit(s: Store, recs: seq<VCardData>, accept: seq<Action> -> bool, k: string)
    requires CommitsUpdatesOfStoredRows(accept, s)
    ensures var sub := SubmitInTransactions(Actions(UpsertMerge, recs), accept);
      Lookup(ApplyAll(s, sub.committed), k) ==
        if LastWithKey(recs, k).Some? then LastWithKey(recs, k) else Lookup(s, k)
  {
    var batch := Actions(UpsertMerge, recs);
    var sub := SubmitInTransactions(batch, accept);
    assert UpdatesExisting(s, batch);
    StoredUpdatesCommit(s, batch, accept);
    ApplyAllFlatten(s, sub.committed);
    LookupAfterMerges(s, UpsertMerge, recs, k);
  }

  /**
   * An upload block of updates to a store that fails every update of a
   * missing row: if record `j`'s row is missing, the block stops before it,
   * only records before `j` are written, and record `j`'s row stays missing.
   */
  lemma {:induction false} MissingRowStopsUpdates(s: Store, recs: seq<VCardData>, accept: seq<Action> -> bool, j: nat)
    requires RejectsUpdatesOfMissingRows(accept, s)
    requires j < |recs| && Lookup(s, recs[j].rowKey).None?
    ensures var sub := SubmitInTransactions(Actions(UpdateMerge, recs), accept);
      && sub.rejected.Some?
      && |Flatten(sub.committed)| <= j
      && Lookup(ApplyAll(s, sub.committed), recs[j].rowKey).None?
  {
    var batch := Actions(UpdateMerge, recs);
    var sub := SubmitInTransactions(batch, accept);
    var p := CommittedUpdatesBeforeMissing(s, recs, accept, j);
    var id := recs[j].rowKey;
    SubmissionSizes(batch, accept);
    ApplyAllFlatten(s, sub.committed);
    LookupAfterMerges(s, UpdateMerge, recs[..p], id);
  }

  /**
   * The committed part of such a block: the updates of the first `p <= j`
   * records, none of them under record `j`'s key.
   */
  lemma {:induction false} CommittedUpdatesBeforeMissing(s: Store, recs: seq<VCardData>, accept: seq<Action> -> bool, j: nat)
    returns (p: nat)
    requires RejectsUpdatesOfMissingRows(accept, s)
    requires j < |recs| && Lookup(s, recs[j].rowKey).None?
    ensures var sub := SubmitInTransactions(Actions(UpdateMerge, recs), accept);
      && p <= j
      && Flatten(sub.committed) == Actions(UpdateMerge, recs[..p])
      && LastWithKey(recs[..p], recs[j].rowKey).None?
  {
    var batch := Actions(UpdateMerge, recs);
    var sub := SubmitInTransactions(batch, accept);
    CommittedUpdatesExisting(s, batch, accept);
    CommittedIsPrefix(batch, accept);
    var done := Flatten(sub.committed);
    p := |done|;
    assert done == batch[..p];
    assert done == Actions(UpdateMerge, recs[..p]);
    UpdatedPrefixAvoidsMissing(s, recs, p, j);
  }

  /** What a store that fails updates of missing rows commits updates only stored rows. */
  lemma CommittedUpdatesExisting(s: Store, batch: seq<Action>, accept: seq<Action> -> bool)
    requires RejectsUpdatesOfMissingRows(accept, s)
    ensures UpdatesExisting(s, Flatten(SubmitInTransactions(batch, accept).committed))
  {
    var sub := SubmitInTransactions(batch, accept);
    assert forall i :: 0 <= i < |sub.committed| ==> UpdatesExisting(s, sub.committed[i]);
    UpdatesExistingFlatten(s, sub.committed);
  }

  /**
   * If the updates of the first `p` records all find their rows and record
   * `j`'s row is missing, record `j` is not among them, and neither is its key.
   */
  lemma UpdatedPrefixAvoidsMissing(s: Store, recs: seq<VCardData>, p: nat, j: nat)
    requires p <= |recs| && j < |recs| && Lookup(s, recs[j].rowKey).None?
    requires UpdatesExisting(s, Actions(UpdateMerge, recs[..p]))
    ensures p <= j && LastWithKey(recs[..p], recs[j].rowKey).None?
  {
  }

  // ---------------------------------------------------------------------------
  // Queries
  // ---------------------------------------------------------------------------

  /** A query with a filter: the records satisfying `p`, in query order. */
  function Where(s: Store, p: VCardData -> bool): (r: Store)
    ensures forall x :: x in r <==> x in s && p(x)
    ensures |r| <= |s|
    decreases |s|
  {
    if |s| == 0 then []
    else
      var rest := Where(s[1..], p);
      assert forall x :: x in s <==> x == s[0] || x in s[1..];
      if p(s[0]) then [s[0]] + rest else rest
  }

  /** A filter keeps query order: filtering a concatenation concatenates the filtered parts. */
  lemma {:induction false} WhereConcat(a: Store, b: Store, p: VCardData -> bool)
    ensures Where(a + b, p) == Where(a, p) + Where(b, p)
    decreases |a|
  {
    if |a| == 0 {
      assert a + b == b;
    } else {
      assert (a + b)[0] == a[0];
      assert (a + b)[1..] == a[1..] + b;
      WhereConcat(a[1..], b, p);
      if p(a[0]) {
        assert [a[0]] + (Where(a[1..], p) + Where(b, p)) == [a[0]] + Where(a[1..], p) + Where(b, p);
      }
    }
  }

  /** A filter that holds of every record returns the whole store. */
  lemma {:induction false} WhereAll(s: Store, p: VCardData -> bool)
    requires forall x :: p(x)
    ensures Where(s, p) == s
    decreases |s|
  {
    if |s| > 0 {
      WhereAll(s[1..], p);
      assert [s[0]] + s[1..] == s;
    }
  }

  /** A filter that no record of the store passes returns nothing. */
  lemma {:induction false} WhereNone(s: Store, p: VCardData -> bool)
    requires forall i :: 0 <= i < |s| ==> !p(s[i])
    ensures Where(s, p) == []
    decreases |s|
  {
    if |s| > 0 {
      WhereNone(s[1..], p);
    }
  }

  lemma {:induction false} UniqueKeysCons(x: VCardData, t: Store)
    requires UniqueKeys(t)
    requires forall y :: y in t ==> y.rowKey != x.rowKey
    ensures UniqueKeys([x] + t)
  {
    var s := [x] + t;
    forall i, j | 0 <= i < j < |s|
      ensures s[i].rowKey != s[j].rowKey
    {
      if i == 0 {
        assert s[j] == t[j - 1];
        assert s[j] in t;
      } else {
        assert s[i] == t[i - 1] && s[j] == t[j - 1];
      }
    }
  }

  /** A filter keeps row keys unique. */
  lemma {:induction false} WhereUnique(s: Store, p: VCardData -> bool)
    requires UniqueKeys(s)
    ensures UniqueKeys(Where(s, p))
    decreases |s|
  {
    if |s| > 0 {
      assert UniqueKeys(s[1..]);
      WhereUnique(s[1..], p);
      if p(s[0]) {
        forall y | y in Where(s[1..], p)
          ensures y.rowKey != s[0].rowKey
        {
          var j :| 0 <= j < |s[1..]| && s[1..][j] == y;
          assert s[j + 1] == y;
        }
        UniqueKeysCons(s[0], Where(s[1..], p));
      }
    }
  }

  /** Under unique keys, a point read in a filtered store is the point read in the store, if that record passes the filter. */
  lemma {:induction false} LookupWhere(s: Store, p: VCardData -> bool, k: string)
    requires UniqueKeys(s)
    ensures Lookup(Where(s, p), k) ==
      if Lookup(s, k).Some? && p(Lookup(s, k).value) then Lookup(s, k) else None
    decreases |s|
  {
    if |s| > 0 {
      assert UniqueKeys(s[1..]);
      LookupWhere(s[1..], p, k);
      var rest := Where(s[1..], p);
      if p(s[0]) {
        assert ([s[0]] + rest)[1..] == rest;
      }
      if s[0].rowKey == k {
        assert Lookup(s[1..], k).None? by {
          forall i | 0 <= i < |s[1..]| ensures s[1..][i].rowKey != k {
            assert s[i + 1].rowKey != s[0].rowKey;
          }
        }
      }
    }
  }

  /** Committed actions keep row keys unique. */
  lemma {:induction false} ApplyTransactionUnique(s: Store, tx: seq<Action>)
    requires UniqueKeys(s)
    ensures UniqueKeys(ApplyTransaction(s, tx))
    decreases |tx|
  {
    if |tx| > 0 {
      ApplyTransactionUnique(s, tx[..|tx| - 1]);
    }
  }
}
