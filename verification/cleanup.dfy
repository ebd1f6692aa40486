/**
 * `VCardCleanup.Run`: list the group's members, delete the stored records no
 * member matches, and, when photos are disabled, run a photo pass.
 *
 * The photo pass is modelled as written (`Run`), with its two defects: its
 * query filter holds of every record, and the batch it submits is built
 * from the deletion candidates as `UpsertMerge` actions instead of from the
 * records whose photo it cleared. `RunCorrected` is the pass as intended.
 */
module Cleanup {
  import opened Common
  import opened Records
  import opened Batching
  import opened TableStore
  import opened Directory

  // ---------------------------------------------------------------------------
  // Deletion candidates
  // ---------------------------------------------------------------------------

  function MemberIds(members: seq<User>): (ids: seq<string>)
    ensures |ids| == |members|
    ensures forall i :: 0 <= i < |members| ==> ids[i] == members[i].id
  {
    seq(|members|, i requires 0 <= i < |members| => members[i].id)
  }

  /** `!graphUserList.Any(u => u.Id == d.RowKey)`. */
  predicate IsStale(members: seq<User>, r: VCardData) {
    r.rowKey !in MemberIds(members)
  }

  /** The deletion candidates: the stored records whose row key is no member's id, in query order. */
  function StaleRecords(s: Store, members: seq<User>): (r: Store)
    ensures forall x :: x in r <==> x in s && x.rowKey !in MemberIds(members)
  {
    Where(s, x => IsStale(members, x))
  }

  function KeySet(s: Store): set<string> {
    set x | x in s :: x.rowKey
  }

  /** The deleted keys are the set difference of the stored keys and the member ids. */
  lemma StaleKeysAreDifference(s: Store, members: seq<User>)
    ensures KeySet(StaleRecords(s, members)) == KeySet(s) - set id | id in MemberIds(members)
  {
    var r := StaleRecords(s, members);
    forall k | k in KeySet(s) - set id | id in MemberIds(members)
      ensures k in KeySet(r)
    {
      var x :| x in s && x.rowKey == k;
      assert x in r;
    }
  }

  /** Deletion candidates keep query order. */
  lemma StaleKeepsOrder(a: Store, b: Store, members: seq<User>)
    ensures StaleRecords(a + b, members) == StaleRecords(a, members) + StaleRecords(b, members)
  {
    WhereConcat(a, b, x => IsStale(members, x));
  }

  /** Under unique keys, a stored record is a deletion candidate exactly when its key is no member's id. */
  lemma LookupStale(s: Store, members: seq<User>, k: string)
    requires UniqueKeys(s)
    ensures Lookup(StaleRecords(s, members), k) ==
      if k !in MemberIds(members) then Lookup(s, k) else None
  {
    LookupWhere(s, x => IsStale(members, x), k);
  }

  /** Stored keys A, B, C and members A, C: the deletion candidates are exactly B's record. */
  lemma StaleExample()
    ensures var ra, rb, rc := NewRecord().(rowKey := "A"), NewRecord().(rowKey := "B"), NewRecord().(rowKey := "C");
      var user := (id: string) => User(id, None, None, None, None, None, None, None, None,
                                        None, None, None, None, None, None, None);
      StaleRecords([ra, rb, rc], [user("A"), user("C")]) == [rb]
  {
    var ra, rb, rc := NewRecord().(rowKey := "A"), NewRecord().(rowKey := "B"), NewRecord().(rowKey := "C");
    var user := (id: string) => User(id, None, None, None, None, None, None, None, None,
                                      None, None, None, None, None, None, None);
    var members := [user("A"), user("C")];
    assert MemberIds(members) == ["A", "C"];
    var p := x => IsStale(members, x);
    assert [ra, rb, rc][1..] == [rb, rc] && [rb, rc][1..] == [rc] && [rc][1..] == [];
    assert Where([rc], p) == [];
    assert Where([rb, rc], p) == [rb];
  }

  // ---------------------------------------------------------------------------
  // Photo pass
  // ---------------------------------------------------------------------------

  /** The photo query's filter as written: `Photo != "" || Photo != null`. */
  predicate PhotoFilterAsWritten(r: VCardData) {
    r.photo != Some("") || r.photo != None
  }

  /** The filter as intended: the record carries a photo. */
  predicate HasPhoto(r: VCardData) {
    r.photo != Some("") && r.photo != None
  }

  /** The photo query as written selects every record of the store. */
  lemma PhotoQuerySelectsAll(s: Store)
    ensures Where(s, PhotoFilterAsWritten) == s
  {
    WhereAll(s, PhotoFilterAsWritten);
  }

  /** `d.Photo = string.Empty` on every record of a query result. */
  function ClearPhotos(recs: seq<VCardData>): (r: seq<VCardData>)
    ensures |r| == |recs|
    ensures forall i :: 0 <= i < |recs| ==> r[i] == recs[i].(photo := Some(""))
  {
    seq(|recs|, i requires 0 <= i < |recs| => recs[i].(photo := Some("")))
  }

  lemma {:induction false} LookupClearPhotos(recs: seq<VCardData>, k: string)
    ensures Lookup(ClearPhotos(recs), k) ==
      if Lookup(recs, k).Some? then Some(Lookup(recs, k).value.(photo := Some(""))) else None
    decreases |recs|
  {
    if |recs| > 0 {
      assert ClearPhotos(recs)[1..] == ClearPhotos(recs[1..]);
      LookupClearPhotos(recs[1..], k);
    }
  }

  lemma ClearPhotosUnique(recs: seq<VCardData>)
    requires UniqueKeys(recs)
    ensures UniqueKeys(ClearPhotos(recs))
  {
  }

  // ---------------------------------------------------------------------------
  // The run
  // ---------------------------------------------------------------------------

  /** The run's two table queries: the deletion candidates (line 93) and the photo query (line 139). */
  datatype Query = StaleQuery | PhotoQuery

  /**
   * Whether each query returns. A query that throws is caught by no handler
   * of the run, so the run ends there with the exception; the store's
   * refusal of the photo query's filter is one such throw.
   */
  predicate QueriesReturn(queries: Query -> bool) {
    queries(StaleQuery) && queries(PhotoQuery)
  }

  /** The photo pass: the records it cleared in memory, the batch it built, and its upload. */
  datatype PhotoPass = PhotoPass(cleared: seq<VCardData>, batch: seq<Action>, submission: Option<Submission<Action>>)

  datatype CleanupOutcome =
    | StoreUnavailable  // creating the table failed: the run stopped
    | NoUsers           // the member list was empty: the run stopped
    | QueryFailed(after: Store)  // a query threw: the run ended with what was committed by then
    | Cleaned(deletions: Store, deleteSubmission: Option<Submission<Action>>,
              photoPass: Option<PhotoPass>, after: Store)

  /**
   * The deletion pass, shared by both versions of the run: the candidates,
   * and the upload block that deletes them, skipped when there are none.
   * Whatever the store's verdicts, it deletes a prefix of the candidates.
   */
  function DeletePass(s: Store, members: seq<User>, accept: seq<Action> -> bool): (r: (Store, Option<Submission<Action>>))
    ensures forall x :: x in r.0 <==> x in s && x.rowKey !in MemberIds(members)
    ensures r.1.None? <==> |r.0| == 0
    ensures r.1.Some? ==> Flatten(r.1.value.committed) <= Actions(Delete, r.0)
  {
    var toDelete := StaleRecords(s, members);
    CommittedIsPrefix(Actions(Delete, toDelete), accept);
    (toDelete, SubmitIfAny(Actions(Delete, toDelete), accept))
  }

  /**
   * One run as written. `groupId` is the configured group (read without an
   * environment fallback), `usePhoto` the configured flag, `s` the table's
   * records, `queries` whether each query returns, `accept` the store's
   * verdict on each transaction.
   */
  function Run(groupId: Option<string>, usePhoto: bool, tableReady: bool,
               isValidGuid: string -> bool, listing: ListingResponse,
               s: Store, queries: Query -> bool, accept: seq<Action> -> bool): (r: CleanupOutcome)
    ensures !tableReady <==> r.StoreUnavailable?
    ensures r.NoUsers? <==> tableReady && GetMembersOfGroup(groupId, isValidGuid, listing) == []
    ensures r.QueryFailed? <==>
      && tableReady && GetMembersOfGroup(groupId, isValidGuid, listing) != []
      && (!queries(StaleQuery) || (!usePhoto && !queries(PhotoQuery)))
    ensures r.QueryFailed? ==>
      if queries(StaleQuery)
      then r.after == ApplySubmission(s, DeletePass(s, GetMembersOfGroup(groupId, isValidGuid, listing), accept).1)
      else r.after == s
    ensures r.Cleaned? ==>
      var members := GetMembersOfGroup(groupId, isValidGuid, listing);
      && r.deletions == StaleRecords(s, members)
      && (r.deleteSubmission.None? <==> |r.deletions| == 0)
      && (r.deleteSubmission.Some? ==>
            r.deleteSubmission.value == SubmitInTransactions(Actions(Delete, r.deletions), accept))
      && (r.photoPass.Some? <==> !usePhoto)
    ensures r.Cleaned? && r.photoPass.Some? ==>
      var pass := r.photoPass.value;
      && pass.batch == Actions(UpsertMerge, r.deletions)
      && |pass.batch| == |r.deletions|
      && pass.submission == Some(SubmitInTransactions(pass.batch, accept))
  {
    if !tableReady then StoreUnavailable
    else
      var members := GetMembersOfGroup(groupId, isValidGuid, listing);
      if |members| == 0 then NoUsers
      else if !queries(StaleQuery) then QueryFailed(s)
      else
        var (toDelete, deleteSub) := DeletePass(s, members, accept);
        var afterDelete := ApplySubmission(s, deleteSub);
        if usePhoto then
          Cleaned(toDelete, deleteSub, None, afterDelete)
        else if !queries(PhotoQuery) then QueryFailed(afterDelete)
        else
          var cleared := ClearPhotos(Where(afterDelete, PhotoFilterAsWritten));
          var batch := Actions(UpsertMerge, toDelete);
          var sub := SubmitInTransactions(batch, accept);
          Cleaned(toDelete, deleteSub, Some(PhotoPass(cleared, batch, Some(sub))),
                  ApplySubmission(afterDelete, Some(sub)))
  }

  /** The run as intended: the photo pass merges back exactly the records it cleared, and only when there are any. */
  function RunCorrected(groupId: Option<string>, usePhoto: bool, tableReady: bool,
                        isValidGuid: string -> bool, listing: ListingResponse,
                        s: Store, queries: Query -> bool, accept: seq<Action> -> bool): (r: CleanupOutcome)
    ensures !tableReady <==> r.StoreUnavailable?
    ensures r.NoUsers? <==> tableReady && GetMembersOfGroup(groupId, isValidGuid, listing) == []
    ensures r.QueryFailed? <==>
      && tableReady && GetMembersOfGroup(groupId, isValidGuid, listing) != []
      && (!queries(StaleQuery) || (!usePhoto && !queries(PhotoQuery)))
    ensures r.QueryFailed? ==>
      if queries(StaleQuery)
      then r.after == ApplySubmission(s, DeletePass(s, GetMembersOfGroup(groupId, isValidGuid, listing), accept).1)
      else r.after == s
    ensures r.Cleaned? ==> (r.photoPass.Some? <==> !usePhoto)
    ensures r.Cleaned? && r.photoPass.Some? ==>
      var pass := r.photoPass.value;
      && (forall x :: x in pass.cleared ==> x.photo == Some(""))
      && pass.batch == Actions(UpsertMerge, pass.cleared)
      && (pass.submission.None? <==> |pass.cleared| == 0)
  {
    if !tableReady then StoreUnavailable
    else
      var members := GetMembersOfGroup(groupId, isValidGuid, listing);
      if |members| == 0 then NoUsers
      else if !queries(StaleQuery) then QueryFailed(s)
      else
        var (toDelete, deleteSub) := DeletePass(s, members, accept);
        var afterDelete := ApplySubmission(s, deleteSub);
        if usePhoto then
          Cleaned(toDelete, deleteSub, None, afterDelete)
        else if !queries(PhotoQuery) then QueryFailed(afterDelete)
        else
          var cleared := ClearPhotos(Where(afterDelete, HasPhoto));
          var batch := Actions(UpsertMerge, cleared);
          var sub := SubmitIfAny(batch, accept);
          Cleaned(toDelete, deleteSub, Some(PhotoPass(cleared, batch, sub)), ApplySubmission(afterDelete, sub))
  }

  // ---------------------------------------------------------------------------
  // Properties
  // ---------------------------------------------------------------------------

  ghost predicate AcceptsAll(accept: seq<Action> -> bool) {
    forall tx :: accept(tx)
  }

  /** An empty, missing or non-GUID group id, or a failed listing, stops the run before any query or transaction. */
  lemma EmptySnapshotTouchesNothing(groupId: Option<string>, usePhoto: bool, tableReady: bool,
                                    isValidGuid: string -> bool, listing: ListingResponse,
                                    s: Store, queries: Query -> bool, accept: seq<Action> -> bool)
    requires || IsNullOrEmpty(groupId)
             || !isValidGuid(groupId.value)
             || listing.ListingFailed? || listing.NoFirstPage?
             || listing == Pages([])
    ensures var r := Run(groupId, usePhoto, tableReady, isValidGuid, listing, s, queries, accept);
      r.StoreUnavailable? || r.NoUsers?
    ensures var r := RunCorrected(groupId, usePhoto, tableReady, isValidGuid, listing, s, queries, accept);
      r.StoreUnavailable? || r.NoUsers?
  {
  }

  /** The photo pass as written has no emptiness test: with nothing to delete it still submits one empty transaction. */
  lemma PhotoPassSubmitsEmptyTransaction(groupId: Option<string>, tableReady: bool,
                                         isValidGuid: string -> bool, listing: ListingResponse,
                                         s: Store, queries: Query -> bool, accept: seq<Action> -> bool)
    requires tableReady && QueriesReturn(queries)
    requires var members := GetMembersOfGroup(groupId, isValidGuid, listing);
      members != [] && StaleRecords(s, members) == []
    ensures var r := Run(groupId, false, tableReady, isValidGuid, listing, s, queries, accept);
      r.deleteSubmission.None? && r.photoPass.value.submission.value.Sent() == [[]]
  {
    var r := Run(groupId, false, tableReady, isValidGuid, listing, s, queries, accept);
    SubmissionSizes(r.photoPass.value.batch, accept);
  }

  /** The point read after the deletion pass, when every transaction commits. */
  lemma LookupAfterDeletePass(s: Store, members: seq<User>, accept: seq<Action> -> bool, k: string)
    requires AcceptsAll(accept) && UniqueKeys(s)
    ensures var (_, sub) := DeletePass(s, members, accept);
      && Lookup(ApplySubmission(s, sub), k) == (if k in MemberIds(members) then Lookup(s, k) else None)
      && UniqueKeys(ApplySubmission(s, sub))
  {
    var (toDelete, sub) := DeletePass(s, members, accept);
    var tx := Actions(Delete, toDelete);
    LookupStale(s, members, k);
    if sub.Some? {
      SubmissionSizes(tx, accept);
      ApplyAllFlatten(s, sub.value.committed);
      LookupAfterDeletes(s, toDelete, k);
      ApplyTransactionUnique(s, tx);
    } else {
      assert toDelete == [];
    }
  }

  /**
   * The photo-pass defect at its full extent: with photos disabled and every
   * transaction committing, the pass merges every deleted record back, so the
   * run leaves every row exactly as it found it. No stale record stays
   * deleted and no photo is cleared.
   */
  lemma RunAsWrittenChangesNothing(groupId: Option<string>, isValidGuid: string -> bool,
                                   listing: ListingResponse, s: Store, queries: Query -> bool,
                                   accept: seq<Action> -> bool, k: string)
    requires QueriesReturn(queries) && AcceptsAll(accept) && UniqueKeys(s)
    requires GetMembersOfGroup(groupId, isValidGuid, listing) != []
    ensures Lookup(Run(groupId, false, true, isValidGuid, listing, s, queries, accept).after, k) == Lookup(s, k)
  {
    var members := GetMembersOfGroup(groupId, isValidGuid, listing);
    var r := Run(groupId, false, true, isValidGuid, listing, s, queries, accept);
    var (toDelete, deleteSub) := DeletePass(s, members, accept);
    var afterDelete := ApplySubmission(s, deleteSub);
    LookupAfterDeletePass(s, members, accept, k);
    var batch := Actions(UpsertMerge, toDelete);
    var sub := r.photoPass.value.submission.value;
    SubmissionSizes(batch, accept);
    ApplyAllFlatten(afterDelete, sub.committed);
    LookupAfterMerges(afterDelete, UpsertMerge, toDelete, k);
    WhereUnique(s, x => IsStale(members, x));
    LastWithKeyUnique(toDelete, k);
    LookupStale(s, members, k);
  }

  /**
   * A photo query that throws, as the store's refusal of its filter would,
   * ends the run after the deletions committed: with every transaction
   * committing, the stale keys stay deleted and nothing is merged back.
   */
  lemma PhotoQueryFailureKeepsDeletions(groupId: Option<string>, isValidGuid: string -> bool,
                                        listing: ListingResponse, s: Store, queries: Query -> bool,
                                        accept: seq<Action> -> bool, k: string)
    requires queries(StaleQuery) && !queries(PhotoQuery) && AcceptsAll(accept) && UniqueKeys(s)
    requires GetMembersOfGroup(groupId, isValidGuid, listing) != []
    ensures var members := GetMembersOfGroup(groupId, isValidGuid, listing);
      var r := Run(groupId, false, true, isValidGuid, listing, s, queries, accept);
      && r.QueryFailed?
      && Lookup(r.after, k) == (if k in MemberIds(members) then Lookup(s, k) else None)
  {
    var members := GetMembersOfGroup(groupId, isValidGuid, listing);
    LookupAfterDeletePass(s, members, accept, k);
  }

  /** A concrete case: a kept member's photo survives a run with photos disabled. */
  lemma PhotoSurvivesExample(queries: Query -> bool, accept: seq<Action> -> bool)
    requires QueriesReturn(queries) && AcceptsAll(accept)
    ensures var rec := NewRecord().(rowKey := "A", photo := Some("cGhvdG8="));
      var member := User("A", None, None, None, None, None, None, None, None,
                         None, None, None, None, None, None, None);
      var r := Run(Some("g"), false, true, _ => true, Pages([member]), [rec], queries, accept);
      r.Cleaned? && r.after == [rec]
  {
    var rec := NewRecord().(rowKey := "A", photo := Some("cGhvdG8="));
    var member := User("A", None, None, None, None, None, None, None, None,
                       None, None, None, None, None, None, None);
    var r := Run(Some("g"), false, true, _ => true, Pages([member]), [rec], queries, accept);
    assert MemberIds([member]) == ["A"];
    assert StaleRecords([rec], [member]) == [];
    assert r.photoPass.value.submission.value.committed == [[]];
    assert ApplyAll([rec], [[]]) == ApplyTransaction([rec], []);
  }

  /** What the intended run leaves in a row: nothing for a stale key, otherwise the stored record with its photo cleared if it had one. */
  function Redacted(r: VCardData): VCardData {
    if HasPhoto(r) then r.(photo := Some("")) else r
  }

  /** The corrected photo pass over a table with unique keys, every transaction committing: each row is redacted in place. */
  lemma PhotoPassRedacts(t: Store, accept: seq<Action> -> bool, k: string)
    requires AcceptsAll(accept) && UniqueKeys(t)
    ensures var cleared := ClearPhotos(Where(t, HasPhoto));
      var after := ApplySubmission(t, SubmitIfAny(Actions(UpsertMerge, cleared), accept));
      && Lookup(after, k) == (if Lookup(t, k).Some? then Some(Redacted(Lookup(t, k).value)) else None)
      && UniqueKeys(after)
  {
    var candidates := Where(t, HasPhoto);
    var cleared := ClearPhotos(candidates);
    var batch := Actions(UpsertMerge, cleared);
    var sub := SubmitIfAny(batch, accept);
    WhereUnique(t, HasPhoto);
    ClearPhotosUnique(candidates);
    LookupWhere(t, HasPhoto, k);
    LookupClearPhotos(candidates, k);
    LastWithKeyUnique(cleared, k);
    if |batch| > 0 {
      SubmissionSizes(batch, accept);
      ApplyAllFlatten(t, sub.value.committed);
      LookupAfterMerges(t, UpsertMerge, cleared, k);
      ApplyTransactionUnique(t, batch);
    } else {
      assert cleared == [];
    }
  }

  /**
   * The corrected run, photos disabled, every transaction committing: stale
   * rows are gone, every other row keeps its record with the photo cleared.
   */
  lemma RunCorrectedRedacts(groupId: Option<string>, isValidGuid: string -> bool,
                            listing: ListingResponse, s: Store, queries: Query -> bool,
                            accept: seq<Action> -> bool, k: string)
    requires QueriesReturn(queries) && AcceptsAll(accept) && UniqueKeys(s)
    requires GetMembersOfGroup(groupId, isValidGuid, listing) != []
    ensures var members := GetMembersOfGroup(groupId, isValidGuid, listing);
      var after := RunCorrected(groupId, false, true, isValidGuid, listing, s, queries, accept).after;
      && Lookup(after, k) == (if k in MemberIds(members) && Lookup(s, k).Some?
                              then Some(Redacted(Lookup(s, k).value)) else None)
      && UniqueKeys(after)
  {
    var members := GetMembersOfGroup(groupId, isValidGuid, listing);
    var (_, deleteSub) := DeletePass(s, members, accept);
    LookupAfterDeletePass(s, members, accept, k);
    PhotoPassRedacts(ApplySubmission(s, deleteSub), accept, k);
  }

  /** Redaction is idempotent: after a corrected run no record carries a photo, so the next run's photo pass clears nothing. */
  lemma RunCorrectedLeavesNoPhoto(groupId: Option<string>, isValidGuid: string -> bool,
                                  listing: ListingResponse, s: Store, queries: Query -> bool,
                                  accept: seq<Action> -> bool)
    requires QueriesReturn(queries) && AcceptsAll(accept) && UniqueKeys(s)
    requires GetMembersOfGroup(groupId, isValidGuid, listing) != []
    ensures var after := RunCorrected(groupId, false, true, isValidGuid, listing, s, queries, accept).after;
      Where(after, HasPhoto) == []
  {
    var after := RunCorrected(groupId, false, true, isValidGuid, listing, s, queries, accept).after;
    forall i | 0 <= i < |after|
      ensures !HasPhoto(after[i])
    {
      RunCorrectedRedacts(groupId, isValidGuid, listing, s, queries, accept, after[i].rowKey);
      LookupUnique(after, i);
    }
    WhereNone(after, HasPhoto);
  }
}
