/**
 * `VCardSync.Run`: resolve the options, make sure the table exists, list the
 * group's members, project each member onto one record, and upload the
 * records as `UpdateMerge` actions with the chunked upload block.
 */
module Sync {
  import opened Common
  import opened Records
  import opened Batching
  import opened TableStore
  import opened Directory

  // ---------------------------------------------------------------------------
  // Option resolution
  // ---------------------------------------------------------------------------

  /** The option values the sync reads: `VcslOptions` and `AzureAdOptions`. */
  datatype SyncOptions = SyncOptions(
    graphUserGroup: Option<string>,
    tenantId: Option<string>,
    clientId: Option<string>,
    clientSecret: Option<string>,
    usePhoto: bool)

  /** A configured value, or the environment variable of the same name when it is null or empty. */
  function Resolve(configured: Option<string>, env: Option<string>): (r: Option<string>)
    ensures !IsNullOrEmpty(configured) ==> r == configured
    ensures IsNullOrEmpty(configured) ==> r == env
  {
    if IsNullOrEmpty(configured) then env else configured
  }

  /**
   * The four options the run overwrites at its start. `env` reads an
   * environment variable (null when unset).
   */
  function ResolveOptions(o: SyncOptions, env: string -> Option<string>): (r: SyncOptions)
    ensures r.graphUserGroup == (if IsNullOrEmpty(o.graphUserGroup) then env("GraphUserGroup") else o.graphUserGroup)
    ensures r.tenantId == (if IsNullOrEmpty(o.tenantId) then env("TenantId") else o.tenantId)
    ensures r.clientId == (if IsNullOrEmpty(o.clientId) then env("ClientId") else o.clientId)
    ensures r.clientSecret == (if IsNullOrEmpty(o.clientSecret) then env("ClientSecret") else o.clientSecret)
    ensures r.usePhoto == o.usePhoto
  {
    o.(graphUserGroup := Resolve(o.graphUserGroup, env("GraphUserGroup")),
       tenantId := Resolve(o.tenantId, env("TenantId")),
       clientId := Resolve(o.clientId, env("ClientId")),
       clientSecret := Resolve(o.clientSecret, env("ClientSecret")))
  }

  /**
   * The run assigns the resolved values back to the shared option objects,
   * so the next run resolves them again: doing so under the same
   * environment changes nothing, and a group id once resolved to something
   * non-empty is kept even when the environment later changes. Only the
   * group id is a settable property; the three `AzureAdOptions` values are
   * init-only, and their assignment is taken as if it compiled.
   */
  lemma ResolveOptionsStable(o: SyncOptions, env: string -> Option<string>, env': string -> Option<string>)
    ensures ResolveOptions(ResolveOptions(o, env), env) == ResolveOptions(o, env)
    ensures var r := ResolveOptions(o, env);
      !IsNullOrEmpty(r.graphUserGroup) ==> ResolveOptions(r, env').graphUserGroup == r.graphUserGroup
  {
  }

  // ---------------------------------------------------------------------------
  // Projection
  // ---------------------------------------------------------------------------

  /** What fetching a member's 64x64 photo produced. */
  datatype PhotoFetch =
    | PhotoContent(base64: string)  // the photo's bytes, base64-encoded
    | NoPhotoContent                // the call returned null
    | PhotoFetchFailed              // the call threw

  /** The photo text of a member: empty unless photos are enabled and the fetch returned content. */
  function PhotoFor(usePhoto: bool, fetched: PhotoFetch): (p: string)
    ensures p != "" ==> usePhoto && fetched == PhotoContent(p)
    ensures usePhoto && fetched.PhotoContent? ==> p == fetched.base64
  {
    if usePhoto && fetched.PhotoContent? then fetched.base64 else ""
  }

  /** `BusinessPhones?.FirstOrDefault(string.Empty)`. */
  function FirstPhone(phones: Option<seq<string>>): (r: Option<string>)
    ensures phones.None? ==> r.None?
    ensures phones.Some? && |phones.value| == 0 ==> r == Some("")
    ensures phones.Some? && |phones.value| > 0 ==> r == Some(phones.value[0])
  {
    match phones
    case None => None
    case Some(ps) => if |ps| > 0 then Some(ps[0]) else Some("")
  }

  /**
   * One member as one record, built over the record's initial values: the
   * row key is the member's id, the partition key keeps its default, each
   * text property is the member's value or "" when absent, the phone is the
   * first business phone, the mobile phone is copied as it is.
   */
  function Project(u: User, photo: string): (r: VCardData)
    ensures r.rowKey == u.id && r.partitionKey == DataPartition
    ensures |TextFields(r)| == |SourceTextFields(u)|
    ensures forall i :: 0 <= i < |TextFields(r)| ==>
      && (SourceTextFields(u)[i].Some? ==> TextFields(r)[i] == SourceTextFields(u)[i].value)
      && (SourceTextFields(u)[i].None? ==> TextFields(r)[i] == "")
    ensures r.telephoneNumber == FirstPhone(u.businessPhones)
    ensures r.mobilePhone == u.mobilePhone
    ensures r.photo == Some(photo)
    ensures r.timestamp.None?
  {
    NewRecord().(
      rowKey := u.id,
      surname := OrEmpty(u.surname),
      givenName := OrEmpty(u.givenName),
      displayName := OrEmpty(u.displayName),
      department := OrEmpty(u.department),
      jobTitle := OrEmpty(u.jobTitle),
      companyName := OrEmpty(u.companyName),
      telephoneNumber := FirstPhone(u.businessPhones),
      mobilePhone := u.mobilePhone,
      streetAddress := OrEmpty(u.streetAddress),
      city := OrEmpty(u.city),
      state := OrEmpty(u.state),
      postalCode := OrEmpty(u.postalCode),
      country := OrEmpty(u.country),
      mail := OrEmpty(u.mail),
      userPrincipalName := OrEmpty(u.userPrincipalName),
      photo := Some(photo))
  }

  /**
   * A member the directory tells nothing about projects onto the record
   * defaults, except that its phone numbers are null rather than "".
   */
  lemma ProjectBareUser(id: string)
    ensures var bare := User(id, None, None, None, None, None, None, None, None,
                             None, None, None, None, None, None, None);
      Project(bare, "") == NewRecord().(rowKey := id, telephoneNumber := None, mobilePhone := None)
  {
  }

  /** The member's record, with the photo the run fetched for it. */
  function ProjectWithPhoto(u: User, usePhoto: bool, photos: string -> PhotoFetch): VCardData {
    Project(u, PhotoFor(usePhoto, photos(u.id)))
  }

  /** The batch: one `UpdateMerge` per member, in member order. */
  function BuildBatch(users: seq<User>, usePhoto: bool, photos: string -> PhotoFetch): (b: seq<Action>)
    ensures |b| == |users|
    ensures forall i :: 0 <= i < |users| ==>
      b[i] == Action(UpdateMerge, ProjectWithPhoto(users[i], usePhoto, photos))
    decreases |users|
  {
    if |users| == 0 then []
    else
      BuildBatch(users[..|users| - 1], usePhoto, photos)
        + [Action(UpdateMerge, ProjectWithPhoto(users[|users| - 1], usePhoto, photos))]
  }

  /** The records the batch carries, in member order. */
  function Projections(users: seq<User>, usePhoto: bool, photos: string -> PhotoFetch): (rs: seq<VCardData>)
    ensures |rs| == |users|
    ensures forall i :: 0 <= i < |users| ==> rs[i] == ProjectWithPhoto(users[i], usePhoto, photos)
  {
    seq(|users|, i requires 0 <= i < |users| => ProjectWithPhoto(users[i], usePhoto, photos))
  }

  lemma BatchIsMerges(users: seq<User>, usePhoto: bool, photos: string -> PhotoFetch)
    ensures BuildBatch(users, usePhoto, photos) == Actions(UpdateMerge, Projections(users, usePhoto, photos))
  {
  }

  // ---------------------------------------------------------------------------
  // The run
  // ---------------------------------------------------------------------------

  datatype SyncOutcome =
    | StoreUnavailable  // creating the table failed: the run stopped
    | NoUsers           // the member list was empty: the run stopped
    | Uploaded(batch: seq<Action>, submission: Option<Submission<Action>>)

  /**
   * One run. `tableReady` says whether `CreateIfNotExistsAsync` succeeded,
   * `listing` is the directory's answer, `photos` the photo fetch for each
   * member id, `accept` the store's verdict on each transaction.
   */
  function Run(options: SyncOptions, env: string -> Option<string>, tableReady: bool,
               isValidGuid: string -> bool, listing: ListingResponse,
               photos: string -> PhotoFetch, accept: seq<Action> -> bool): (r: SyncOutcome)
    ensures !tableReady <==> r.StoreUnavailable?
    ensures var o := ResolveOptions(options, env);
      r.NoUsers? <==> tableReady && GetMembersOfGroup(o.graphUserGroup, isValidGuid, listing) == []
    ensures r.Uploaded? ==>
      var o := ResolveOptions(options, env);
      var members := GetMembersOfGroup(o.graphUserGroup, isValidGuid, listing);
      && |r.batch| == |members| > 0
      && r.batch == Actions(UpdateMerge, Projections(members, o.usePhoto, photos))
      && r.submission == Some(SubmitInTransactions(r.batch, accept))
  {
    var o := ResolveOptions(options, env);
    if !tableReady then StoreUnavailable
    else
      var members := GetMembersOfGroup(o.graphUserGroup, isValidGuid, listing);
      if |members| == 0 then NoUsers
      else
        var batch := BuildBatch(members, o.usePhoto, photos);
        BatchIsMerges(members, o.usePhoto, photos);
        Uploaded(batch, SubmitIfAny(batch, accept))
  }

  /** The store after a run. */
  function StoreAfter(r: SyncOutcome, s: Store): Store {
    if r.Uploaded? then ApplySubmission(s, r.submission) else s
  }

  /** An empty, missing or non-GUID group id, or a failed listing, stops the run before any transaction. */
  lemma EmptySnapshotTouchesNothing(options: SyncOptions, env: string -> Option<string>, tableReady: bool,
                                    isValidGuid: string -> bool, listing: ListingResponse,
                                    photos: string -> PhotoFetch, accept: seq<Action> -> bool, s: Store)
    requires var g := ResolveOptions(options, env).graphUserGroup;
      || IsNullOrEmpty(g)
      || !isValidGuid(g.value)
      || listing.ListingFailed? || listing.NoFirstPage?
      || listing == Pages([])
    ensures var r := Run(options, env, tableReady, isValidGuid, listing, photos, accept);
      !r.Uploaded? && StoreAfter(r, s) == s
  {
  }

  /** Every member already has a row in `s`. */
  ghost predicate MembersStored(members: seq<User>, s: Store) {
    forall i :: 0 <= i < |members| ==> Lookup(s, members[i].id).Some?
  }

  /** The merge batch of members that all have rows updates only stored rows. */
  lemma BatchUpdatesStoredRows(members: seq<User>, usePhoto: bool, photos: string -> PhotoFetch, s: Store)
    requires MembersStored(members, s)
    ensures UpdatesExisting(s, Actions(UpdateMerge, Projections(members, usePhoto, photos)))
  {
  }

  /**
   * As written, for members that already have rows: when the store has no
   * failure other than a missing row, the run leaves each member's row
   * holding the last record projected for that id and leaves every other
   * row as it was.
   */
  lemma {:induction false} RunWritesMembers(options: SyncOptions, env: string -> Option<string>,
                                            isValidGuid: string -> bool, listing: ListingResponse,
                                            photos: string -> PhotoFetch, accept: seq<Action> -> bool,
                                            s: Store, k: string)
    requires CommitsUpdatesOfStoredRows(accept, s)
    requires var o := ResolveOptions(options, env);
      MembersStored(GetMembersOfGroup(o.graphUserGroup, isValidGuid, listing), s)
    ensures var o := ResolveOptions(options, env);
      var members := GetMembersOfGroup(o.graphUserGroup, isValidGuid, listing);
      var recs := Projections(members, o.usePhoto, photos);
      var after := StoreAfter(Run(options, env, true, isValidGuid, listing, photos, accept), s);
      Lookup(after, k) == if LastWithKey(recs, k).Some? then LastWithKey(recs, k) else Lookup(s, k)
  {
    var o := ResolveOptions(options, env);
    var members := GetMembersOfGroup(o.graphUserGroup, isValidGuid, listing);
    var recs := Projections(members, o.usePhoto, photos);
    var r := Run(options, env, true, isValidGuid, listing, photos, accept);
    if |members| > 0 {
      var sub := r.submission.value;
      BatchUpdatesStoredRows(members, o.usePhoto, photos, s);
      StoredUpdatesCommit(s, r.batch, accept);
      ApplyAllFlatten(s, sub.committed);
      LookupAfterMerges(s, UpdateMerge, recs, k);
    }
  }

  /**
   * Running the sync twice with the same directory answers, for members
   * that already have rows, leaves every row as one run does, provided the
   * store commits every transaction that updates only stored rows, both in
   * the store the first run meets and in the one the second run meets.
   */
  lemma RunIdempotent(options: SyncOptions, env: string -> Option<string>,
                      isValidGuid: string -> bool, listing: ListingResponse,
                      photos: string -> PhotoFetch, accept: seq<Action> -> bool,
                      s: Store, k: string)
    requires CommitsUpdatesOfStoredRows(accept, s)
    requires CommitsUpdatesOfStoredRows(accept, StoreAfter(Run(options, env, true, isValidGuid, listing, photos, accept), s))
    requires var o := ResolveOptions(options, env);
      MembersStored(GetMembersOfGroup(o.graphUserGroup, isValidGuid, listing), s)
    ensures var r := Run(options, env, true, isValidGuid, listing, photos, accept);
      Lookup(StoreAfter(r, StoreAfter(r, s)), k) == Lookup(StoreAfter(r, s), k)
  {
    var o := ResolveOptions(options, env);
    var members := GetMembersOfGroup(o.graphUserGroup, isValidGuid, listing);
    var r := Run(options, env, true, isValidGuid, listing, photos, accept);
    var once := StoreAfter(r, s);
    forall i | 0 <= i < |members| ensures Lookup(once, members[i].id).Some? {
      RunWritesMembers(options, env, isValidGuid, listing, photos, accept, s, members[i].id);
    }
    RunWritesMembers(options, env, isValidGuid, listing, photos, accept, s, k);
    RunWritesMembers(options, env, isValidGuid, listing, photos, accept, once, k);
  }

  /**
   * As written, a member without a row blocks the upload from its own chunk
   * on: the store fails the transaction that updates the missing row, and
   * the single `catch` abandons the chunks after it. At most the members
   * before it are written, and its row stays missing.
   */
  lemma {:induction false} NewMemberBlocksUpload(options: SyncOptions, env: string -> Option<string>,
                                                 isValidGuid: string -> bool, listing: ListingResponse,
                                                 photos: string -> PhotoFetch, accept: seq<Action> -> bool,
                                                 s: Store, j: nat)
    requires RejectsUpdatesOfMissingRows(accept, s)
    requires var members := GetMembersOfGroup(ResolveOptions(options, env).graphUserGroup, isValidGuid, listing);
      j < |members| && Lookup(s, members[j].id).None?
    ensures var members := GetMembersOfGroup(ResolveOptions(options, env).graphUserGroup, isValidGuid, listing);
      var r := Run(options, env, true, isValidGuid, listing, photos, accept);
      && r.Uploaded?
      && r.submission.value.rejected.Some?
      && |Flatten(r.submission.value.committed)| <= j
      && Lookup(StoreAfter(r, s), members[j].id).None?
  {
    var o := ResolveOptions(options, env);
    var members := GetMembersOfGroup(o.graphUserGroup, isValidGuid, listing);
    var recs := Projections(members, o.usePhoto, photos);
    assert recs[j].rowKey == members[j].id;
    MissingRowStopsUpdates(s, recs, accept, j);
  }

  // ---------------------------------------------------------------------------
  // The run with upserts
  // ---------------------------------------------------------------------------

  /**
   * The run with upserts: the records go up as `UpsertMerge`
   * actions, which create a missing row instead of failing.
   */
  function RunCorrected(options: SyncOptions, env: string -> Option<string>, tableReady: bool,
                        isValidGuid: string -> bool, listing: ListingResponse,
                        photos: string -> PhotoFetch, accept: seq<Action> -> bool): (r: SyncOutcome)
    ensures r.StoreUnavailable? <==> Run(options, env, tableReady, isValidGuid, listing, photos, accept).StoreUnavailable?
    ensures r.NoUsers? <==> Run(options, env, tableReady, isValidGuid, listing, photos, accept).NoUsers?
    ensures r.Uploaded? ==>
      var o := ResolveOptions(options, env);
      var members := GetMembersOfGroup(o.graphUserGroup, isValidGuid, listing);
      && |r.batch| == |members| > 0
      && r.batch == Actions(UpsertMerge, Projections(members, o.usePhoto, photos))
      && r.submission == Some(SubmitInTransactions(r.batch, accept))
  {
    var o := ResolveOptions(options, env);
    if !tableReady then StoreUnavailable
    else
      var members := GetMembersOfGroup(o.graphUserGroup, isValidGuid, listing);
      if |members| == 0 then NoUsers
      else
        var batch := Actions(UpsertMerge, Projections(members, o.usePhoto, photos));
        Uploaded(batch, SubmitIfAny(batch, accept))
  }

  /** The store after the run with upserts: the committed part of the upsert batch applied, if there was one. */
  lemma RunCorrectedStore(options: SyncOptions, env: string -> Option<string>,
                          isValidGuid: string -> bool, listing: ListingResponse,
                          photos: string -> PhotoFetch, accept: seq<Action> -> bool, s: Store)
    ensures var o := ResolveOptions(options, env);
      var recs := Projections(GetMembersOfGroup(o.graphUserGroup, isValidGuid, listing), o.usePhoto, photos);
      StoreAfter(RunCorrected(options, env, true, isValidGuid, listing, photos, accept), s) ==
        if recs == [] then s else ApplyAll(s, SubmitInTransactions(Actions(UpsertMerge, recs), accept).committed)
  {
  }

  /**
   * With upserts and a store with no failure other than a missing row, every
   * member's row holds the last record projected for that id afterwards,
   * whether or not it existed before, and every other row is unchanged.
   */
  lemma {:induction false} RunCorrectedWritesMembers(options: SyncOptions, env: string -> Option<string>,
                                                     isValidGuid: string -> bool, listing: ListingResponse,
                                                     photos: string -> PhotoFetch, accept: seq<Action> -> bool,
                                                     s: Store, k: string)
    requires CommitsUpdatesOfStoredRows(accept, s)
    ensures var o := ResolveOptions(options, env);
      var recs := Projections(GetMembersOfGroup(o.graphUserGroup, isValidGuid, listing), o.usePhoto, photos);
      var after := StoreAfter(RunCorrected(options, env, true, isValidGuid, listing, photos, accept), s);
      Lookup(after, k) == if LastWithKey(recs, k).Some? then LastWithKey(recs, k) else Lookup(s, k)
  {
    var o := ResolveOptions(options, env);
    var recs := Projections(GetMembersOfGroup(o.graphUserGroup, isValidGuid, listing), o.usePhoto, photos);
    RunCorrectedStore(options, env, isValidGuid, listing, photos, accept, s);
    if recs != [] {
      UpsertsCommit(s, recs, accept, k);
    }
  }

  /** With upserts and a store with no failure other than a missing row, every member has a row after the run. */
  lemma RunCorrectedStoresEveryMember(options: SyncOptions, env: string -> Option<string>,
                                      isValidGuid: string -> bool, listing: ListingResponse,
                                      photos: string -> PhotoFetch, accept: seq<Action> -> bool,
                                      s: Store, j: nat)
    requires CommitsUpdatesOfStoredRows(accept, s)
    requires j < |GetMembersOfGroup(ResolveOptions(options, env).graphUserGroup, isValidGuid, listing)|
    ensures var members := GetMembersOfGroup(ResolveOptions(options, env).graphUserGroup, isValidGuid, listing);
      Lookup(StoreAfter(RunCorrected(options, env, true, isValidGuid, listing, photos, accept), s), members[j].id).Some?
  {
    var o := ResolveOptions(options, env);
    var members := GetMembersOfGroup(o.graphUserGroup, isValidGuid, listing);
    var recs := Projections(members, o.usePhoto, photos);
    assert recs[j].rowKey == members[j].id;
    RunCorrectedWritesMembers(options, env, isValidGuid, listing, photos, accept, s, members[j].id);
  }
}
