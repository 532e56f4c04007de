/** The `/api/sync-drive` handler: configuration checks, the listing of the
    folder, and the loop that downloads, extracts and chunks every listed
    file into the index. Drive, the temporary files and the PDF decoder are
    external: they are the parameters `hasCredentials`, `listing` and
    `fetch` (file id to extracted text, or the message of the error thrown
    while downloading or decoding). */
module Sync {
  import opened Results
  import opened Text
  import opened Chunker
  import opened IndexStore

  /** A listed Drive file: `{id, name}`. */
  datatype FileMeta = FileMeta(id: string, name: string)

  /** The JSON body and status the handler sends. */
  datatype SyncResponse =
    | Synced(indexedFiles: nat, indexedChunks: nat)
    | SyncFailed(status: nat, error: string)

  const FolderNotSetMessage: string := "GOOGLE_DRIVE_FOLDER_ID not set in .env"
  const NoCredentialsMessage: string :=
    "Google service account credentials not provided. Put service-account.json (safe) or set GOOGLE_CLIENT_EMAIL and GOOGLE_PRIVATE_KEY in .env"

  /** What the file loop has done after some prefix of the listing: the
      entries it pushed, the value of `counted`, and the message of the
      error that stopped it, if one did. */
  datatype IngestRun = IngestRun(added: seq<Entry>, processed: nat, failure: Option<string>)

  /** The file loop over `files`, in order, stopping at the first file whose
      download or extraction fails. */
  function Ingest(files: seq<FileMeta>, fetch: string -> Outcome<string>): IngestRun
    decreases |files|
  {
    if files == [] then IngestRun([], 0, None)
    else
      var prior := Ingest(files[..|files| - 1], fetch);
      var f := files[|files| - 1];
      if prior.failure.Some? then prior
      else match fetch(f.id)
        case Err(message) => IngestRun(prior.added, prior.processed, Some(message))
        case Ok(text) => IngestRun(prior.added + Chunks(f.id, f.name, text), prior.processed + 1, None)
  }

  /** The response and the new contents of the index after one request. */
  datatype SyncOutcome = SyncOutcome(response: SyncResponse, entries: seq<Entry>)

  function SyncSpec(entries: seq<Entry>, folderId: string, hasCredentials: bool,
                    listing: Outcome<seq<FileMeta>>, fetch: string -> Outcome<string>): SyncOutcome
  {
    if folderId == "" then SyncOutcome(SyncFailed(400, FolderNotSetMessage), entries)
    else if !hasCredentials then SyncOutcome(SyncFailed(500, NoCredentialsMessage), entries)
    else match listing
      case Err(message) => SyncOutcome(SyncFailed(500, message), entries)
      case Ok(files) =>
        var run := Ingest(files, fetch);
        var after := entries + run.added;
        match run.failure
          case Some(message) => SyncOutcome(SyncFailed(500, message), after)
          case None => SyncOutcome(Synced(run.processed, |after|), after)
  }

  /** The handler itself. */
  method SyncDrive(db: Index, folderId: string, hasCredentials: bool,
                   listing: Outcome<seq<FileMeta>>, fetch: string -> Outcome<string>)
    returns (response: SyncResponse)
    modifies db
    ensures SyncOutcome(response, db.entries)
         == SyncSpec(old(db.entries), folderId, hasCredentials, listing, fetch)
  {
    if folderId == "" {
      return SyncFailed(400, FolderNotSetMessage);
    }
    if !hasCredentials {
      return SyncFailed(500, NoCredentialsMessage);
    }
    if listing.Err? {
      return SyncFailed(500, listing.message);
    }
    var files := listing.value;
    var counted: nat := 0;
    var k := 0;
    while k < |files|
      invariant 0 <= k <= |files|
      invariant Ingest(files[..k], fetch).failure == None
      invariant Ingest(files[..k], fetch).processed == counted
      invariant db.entries == old(db.entries) + Ingest(files[..k], fetch).added
    {
      var f := files[k];
      IngestOneMore(files, fetch, k);
      var text := fetch(f.id);
      if text.Err? {
        IngestStopsAtFailure(files, fetch, k + 1);
        return SyncFailed(500, text.message);
      }
      db.IndexText(f.id, f.name, text.value);
      counted := counted + 1;
      k := k + 1;
    }
    assert files[..k] == files;
    response := Synced(counted, |db.entries|);
  }

  /** One more iteration of the file loop, after a prefix that has not failed. */
  lemma IngestOneMore(files: seq<FileMeta>, fetch: string -> Outcome<string>, k: nat)
    requires k < |files| && Ingest(files[..k], fetch).failure == None
    ensures fetch(files[k].id).Err? ==>
      Ingest(files[..k + 1], fetch)
      == IngestRun(Ingest(files[..k], fetch).added, Ingest(files[..k], fetch).processed,
                   Some(fetch(files[k].id).message))
    ensures fetch(files[k].id).Ok? ==>
      Ingest(files[..k + 1], fetch)
      == IngestRun(Ingest(files[..k], fetch).added + Chunks(files[k].id, files[k].name, fetch(files[k].id).value),
                   Ingest(files[..k], fetch).processed + 1, None)
  {
    assert files[..k + 1][..k] == files[..k];
  }

  /** Once the loop has failed, the files after the failing one make no
      difference: the run ends there. */
  lemma {:induction false} IngestStopsAtFailure(files: seq<FileMeta>, fetch: string -> Outcome<string>, k: nat)
    requires k <= |files| && Ingest(files[..k], fetch).failure.Some?
    ensures Ingest(files, fetch) == Ingest(files[..k], fetch)
    decreases |files|
  {
    if k < |files| {
      var init := files[..|files| - 1];
      assert init[..k] == files[..k];
      IngestStopsAtFailure(init, fetch, k);
    } else {
      assert files[..k] == files;
    }
  }

  /** The loop gets through the whole listing exactly when every download
      and extraction succeeds, and then `counted` is the number of files. */
  lemma {:induction false} IngestCompletesIff(files: seq<FileMeta>, fetch: string -> Outcome<string>)
    ensures Ingest(files, fetch).failure.None?
        <==> forall j :: 0 <= j < |files| ==> fetch(files[j].id).Ok?
    ensures Ingest(files, fetch).failure.None? ==> Ingest(files, fetch).processed == |files|
    decreases |files|
  {
    if files != [] {
      var init := files[..|files| - 1];
      IngestCompletesIff(init, fetch);
      assert forall j :: 0 <= j < |init| ==> init[j] == files[j];
    }
  }

  /** A failure at file k ends the run with that file's error: the entries of
      files 0..k-1 stay pushed, none of file k's (or later files') are, and
      `counted` had reached k. */
  lemma IngestFailsAtFirstError(files: seq<FileMeta>, fetch: string -> Outcome<string>, k: nat)
    requires k < |files| && fetch(files[k].id).Err?
    requires forall j :: 0 <= j < k ==> fetch(files[j].id).Ok?
    ensures Ingest(files[..k], fetch).failure.None? && Ingest(files[..k], fetch).processed == k
    ensures Ingest(files, fetch)
         == IngestRun(Ingest(files[..k], fetch).added, k, Some(fetch(files[k].id).message))
  {
    var pre := files[..k];
    assert forall j :: 0 <= j < |pre| ==> pre[j] == files[j];
    IngestCompletesIff(pre, fetch);
    assert files[..k + 1][..k] == pre;
    IngestStopsAtFailure(files, fetch, k + 1);
  }

  /** A missing folder id is answered with a 400 before anything else, and
      the index is left as it was. */
  lemma SyncWithoutFolder(entries: seq<Entry>, hasCredentials: bool,
                          listing: Outcome<seq<FileMeta>>, fetch: string -> Outcome<string>)
    ensures SyncSpec(entries, "", hasCredentials, listing, fetch)
         == SyncOutcome(SyncFailed(400, FolderNotSetMessage), entries)
  {
  }

  /** A sync never changes or removes an entry: the old index is a prefix
      of the new one, which grows by exactly the entries the loop pushed
      (none when the request is refused before the loop). */
  lemma SyncOnlyAppends(entries: seq<Entry>, folderId: string, hasCredentials: bool,
                        listing: Outcome<seq<FileMeta>>, fetch: string -> Outcome<string>)
    ensures var after := SyncSpec(entries, folderId, hasCredentials, listing, fetch).entries;
      after == entries + (if folderId != "" && hasCredentials && listing.Ok?
                          then Ingest(listing.value, fetch).added else [])
  {
  }

  /** A sync answers `ok` exactly when the configuration is present, the
      listing succeeds and every file is downloaded and extracted; it then
      reports every listed file and the size of the whole index afterwards. */
  lemma SyncSucceedsIff(entries: seq<Entry>, folderId: string, hasCredentials: bool,
                        listing: Outcome<seq<FileMeta>>, fetch: string -> Outcome<string>)
    ensures var o := SyncSpec(entries, folderId, hasCredentials, listing, fetch);
      o.response.Synced? <==>
        (folderId != "" && hasCredentials && listing.Ok? &&
         forall j :: 0 <= j < |listing.value| ==> fetch(listing.value[j].id).Ok?)
    ensures var o := SyncSpec(entries, folderId, hasCredentials, listing, fetch);
      o.response.Synced? ==>
        o.response.indexedFiles == |listing.value| && o.response.indexedChunks == |o.entries|
  {
    if listing.Ok? {
      IngestCompletesIff(listing.value, fetch);
    }
  }

  /** A failure while processing file k aborts the request with a 500
      carrying that error; the entries of files 0..k-1 remain in the index. */
  lemma SyncAbortsAtFirstError(entries: seq<Entry>, folderId: string, files: seq<FileMeta>,
                               fetch: string -> Outcome<string>, k: nat)
    requires folderId != ""
    requires k < |files| && fetch(files[k].id).Err?
    requires forall j :: 0 <= j < k ==> fetch(files[j].id).Ok?
    ensures SyncSpec(entries, folderId, true, Ok(files), fetch)
         == SyncOutcome(SyncFailed(500, fetch(files[k].id).message),
                        entries + Ingest(files[..k], fetch).added)
  {
    IngestFailsAtFirstError(files, fetch, k);
  }

  /** Running the same successful sync twice appends the same entries twice:
      every id pushed by the first run occurs again after it. */
  lemma ResyncDuplicates(entries: seq<Entry>, folderId: string, files: seq<FileMeta>,
                         fetch: string -> Outcome<string>)
    requires SyncSpec(entries, folderId, true, Ok(files), fetch).response.Synced?
    ensures var first := SyncSpec(entries, folderId, true, Ok(files), fetch);
      var second := SyncSpec(first.entries, folderId, true, Ok(files), fetch);
      var added := Ingest(files, fetch).added;
      && second.response.Synced?
      && second.entries == entries + added + added
      && forall i :: 0 <= i < |added| ==>
           second.entries[|entries| + i].id == added[i].id == second.entries[|entries| + |added| + i].id
  {
  }
}
