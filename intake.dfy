/**
 * Request intake: the handler that turns a user's download request into a
 * saved-book row and a pending download job, and the handler that serves a
 * downloaded file.
 *
 * The handler works over three stores: the per-user request log (daily quota),
 * the `savedbooks` table and the `downloadjobs` table. Each write the handler
 * makes can fail, including the download-count update whose failure is only
 * logged; the failures are inputs (`Faults`, and `countErr` for the file
 * handler). Reads are taken to succeed.
 *
 * After touching an existing row that is not ready, the handler decides whether
 * to insert a new row by testing its error variable, which by then holds the
 * answer of the last update it made rather than of the lookup. A failed update
 * of an existing row therefore inserts a second row for the same hash.
 * `HandleRequestDownload` keeps that behaviour; `HandleRequestDownloadIntended`
 * inserts only for an unknown hash.
 */
module Intake {
  import opened Wrappers
  import opened Model
  import opened BookRepo
  import JobRepo
  import Quotas

  const AdminRole: string := "admin"

  /** The authenticated user, as the auth middleware puts it in the request context. */
  datatype Caller = Caller(id: int, role: string)

  /** The JSON body of a download request. */
  datatype DownloadRequest = DownloadRequest(
    hash: string,
    title: string,
    authors: string,
    publisher: string,
    language: string,
    format: string,
    size: string,
    coverURL: string,
    coverData: string,
    isGhost: bool)

  /** The handler's responses. */
  datatype Reply =
    | Unauthorized                        // 401
    | Conflict                            // 409, "you have already requested this book"
    | TooManyRequests                     // 429, "daily download limit reached"
    | InternalError                       // 500
    | Ready                               // 200, job id 0, status "ready"
    | Created(jobId: int, status: string) // 201, the new job

  /** The answers of the database to the handler's writes. */
  datatype Faults = Faults(
    limitErr: Option<string>,       // the quota insert
    ghostErr: Option<string>,       // UpdateGhostMode
    requestedByErr: Option<string>, // UpdateRequestedBy
    createErr: Option<string>,      // CreateBook
    jobErr: Option<string>,         // CreateJob
    countErr: Option<string>)       // IncrementDownloadCount (only logged)

  /** Where the handler stops before touching the books, or the user it goes on for. */
  datatype Gate = Stop(reply: Reply) | Proceed(user: Caller)

  /** The quota test: no earlier request of this md5 and fewer than ten today. */
  predicate Admitted(qrows: seq<Quotas.Request<int>>, userId: int, md5: string, startOfDay: int)
  {
    !Quotas.Requested(qrows, userId, md5) && Quotas.UnderLimit(Quotas.DailyCount(qrows, userId, startOfDay))
  }

  /**
   * The checks before the books are looked at: authentication, the earlier
   * request, then the quota insert, which admins may go past.
   */
  function Gatekeep(qrows: seq<Quotas.Request<int>>, caller: Option<Caller>, md5: string, startOfDay: int,
                    limitErr: Option<string>): Gate
  {
    if caller.None? then Stop(Unauthorized)
    else if Quotas.Requested(qrows, caller.value.id, md5) then Stop(Conflict)
    else if Admitted(qrows, caller.value.id, md5, startOfDay) && limitErr.Some? then Stop(InternalError)
    else if !Admitted(qrows, caller.value.id, md5, startOfDay) && caller.value.role != AdminRole then Stop(TooManyRequests)
    else Proceed(caller.value)
  }

  /**
   * The gate's answers: 401 exactly without a user, 409 exactly for a repeated
   * request, 429 only for a non-admin at the limit, and a request that gets
   * through was either counted or made by an admin.
   */
  lemma GatekeepReplies(qrows: seq<Quotas.Request<int>>, caller: Option<Caller>, md5: string, startOfDay: int,
                        limitErr: Option<string>)
    ensures Gatekeep(qrows, caller, md5, startOfDay, limitErr) == Stop(Unauthorized) <==> caller.None?
    ensures Gatekeep(qrows, caller, md5, startOfDay, limitErr) == Stop(Conflict)
            <==> caller.Some? && Quotas.Requested(qrows, caller.value.id, md5)
    ensures Gatekeep(qrows, caller, md5, startOfDay, limitErr) == Stop(TooManyRequests)
            ==> caller.Some? && caller.value.role != AdminRole
                && Quotas.DailyCount(qrows, caller.value.id, startOfDay) >= Quotas.DailyLimit
    ensures Gatekeep(qrows, caller, md5, startOfDay, limitErr).Proceed?
            ==> caller.Some? && Gatekeep(qrows, caller, md5, startOfDay, limitErr).user == caller.value
                && !Quotas.Requested(qrows, caller.value.id, md5)
                && (limitErr.None? || caller.value.role == AdminRole)
                && (Admitted(qrows, caller.value.id, md5, startOfDay) || caller.value.role == AdminRole)
  {
  }

  /** The quota log after the gate: one new request exactly when the quota test passed and the insert succeeded. */
  function QuotaAfter(qrows: seq<Quotas.Request<int>>, entry: Quotas.Request<int>, startOfDay: int,
                      limitErr: Option<string>): seq<Quotas.Request<int>>
  {
    if Admitted(qrows, entry.key, entry.md5, startOfDay) && limitErr.None? then qrows + [entry] else qrows
  }

  /** A public request for a row in ghost mode makes the row public. */
  predicate Unhides(existing: SavedBook, req: DownloadRequest)
  {
    existing.isGhost && !req.isGhost
  }

  /**
   * The updates that take effect on a ready row: ghost mode cleared (when asked
   * and it succeeds), then the count raised (when that succeeds).
   */
  function ReadyUpdates(existing: SavedBook, req: DownloadRequest, ghostErr: Option<string>, countErr: Option<string>)
    : seq<Update>
  {
    (if Unhides(existing, req) && ghostErr.None? then [SetGhost(false)] else [])
      + (if countErr.None? then [IncrementCount] else [])
  }

  /** The updates that take effect on a row that is not ready: ghost mode cleared, then the requester filled in. */
  function PendingUpdates(existing: SavedBook, req: DownloadRequest, userId: int, f: Faults): seq<Update>
  {
    (if Unhides(existing, req) && f.ghostErr.None? then [SetGhost(false)] else [])
    + (if existing.requestedBy.None? && f.requestedByErr.None? then [SetRequestedBy(Some(userId))] else [])
  }

  /** The handler's error variable after touching a row that is not ready: the answer of the last update made. */
  function LastErr(existing: SavedBook, req: DownloadRequest, f: Faults): Option<string>
  {
    if existing.requestedBy.None? then f.requestedByErr
    else if Unhides(existing, req) then f.ghostErr
    else None
  }

  /**
   * The error variable is set only by a failed update, but not every failed
   * update sets it: a failed ghost-mode update followed by a successful
   * requester update is forgotten.
   */
  lemma LastErrFromFailedUpdate(existing: SavedBook, req: DownloadRequest, f: Faults)
    ensures LastErr(existing, req, f).Some? ==>
              (existing.requestedBy.None? && f.requestedByErr.Some?) || (Unhides(existing, req) && f.ghostErr.Some?)
    ensures existing.requestedBy.None? && f.requestedByErr.Some? ==> LastErr(existing, req, f).Some?
    ensures existing.requestedBy.Some? && Unhides(existing, req) && f.ghostErr.Some? ==> LastErr(existing, req, f).Some?
    ensures existing.requestedBy.None? && f.requestedByErr.None? ==> LastErr(existing, req, f).None?
  {
  }

  /** Whether the handler inserts a book row, as written: for an unknown hash, or after a failed update. */
  predicate Inserts(existing: Option<SavedBook>, req: DownloadRequest, f: Faults)
  {
    existing.None? || (existing.value.status != BookStatusReady && LastErr(existing.value, req, f).Some?)
  }

  /** Whether the handler inserts a book row, as evidently intended: for an unknown hash only. */
  predicate InsertsIntended(existing: Option<SavedBook>)
  {
    existing.None?
  }

  /** The row the handler inserts for the request, as the store stamps it. */
  function Inserted(req: DownloadRequest, userId: int, id: int, now: int): SavedBook
  {
    SavedBook(id, req.hash, req.title, req.authors, req.publisher, req.language, req.format, req.size,
              req.coverURL, req.coverData, "", BookStatusProcessing, req.isGhost, Some(userId), 0, now, now)
  }

  /** The job the handler queues, as the store stamps it. */
  function Queued(userId: int, hash: string, id: int, now: int): DownloadJob
  {
    DownloadJob(id, userId, hash, DownloadStatusPending, 0, "", "", now, now)
  }

  /** Updates by hash leave every row's hash where it was. */
  lemma {:induction false} UpdatesKeepHashes(rows: seq<SavedBook>, hash: string, us: seq<Update>, now: int)
    ensures forall i :: 0 <= i < |rows| ==> UpdatesWhere(rows, hash, us, now)[i].hash == rows[i].hash
    decreases |us|
  {
    if us != [] {
      var mid := UpdatesWhere(rows, hash, us[..|us| - 1], now);
      UpdatesKeepHashes(rows, hash, us[..|us| - 1], now);
      UpdateWhereAt(mid, hash, us[|us| - 1], now);
    }
  }

  /**
   * The as-written insert on an existing row: the table ends with two rows for
   * the hash, whatever the updates did.
   */
  lemma {:induction false} InsertOnExistingDuplicates(rows: seq<SavedBook>, req: DownloadRequest, us: seq<Update>,
                                                      entry: SavedBook, now: int)
    requires FindByHash(rows, req.hash).Some?
    requires entry.hash == req.hash
    ensures !UniqueHashes(UpdatesWhere(rows, req.hash, us, now) + [entry])
  {
    var i :| 0 <= i < |rows| && rows[i].hash == req.hash;
    UpdatesKeepHashes(rows, req.hash, us, now);
    var after := UpdatesWhere(rows, req.hash, us, now) + [entry];
    assert after[i].hash == req.hash && after[|rows|].hash == req.hash;
  }

  /** Updates by hash keep hashes unique. */
  lemma UpdatesKeepUnique(rows: seq<SavedBook>, hash: string, us: seq<Update>, now: int)
    requires UniqueHashes(rows)
    ensures UniqueHashes(UpdatesWhere(rows, hash, us, now))
  {
    UpdatesKeepHashes(rows, hash, us, now);
  }

  /** The intended insert, for an unknown hash only, keeps hashes unique. */
  lemma InsertOnAbsentKeepsUnique(rows: seq<SavedBook>, req: DownloadRequest, us: seq<Update>, entry: SavedBook,
                                  now: int)
    requires UniqueHashes(rows)
    requires FindByHash(rows, req.hash).None? && entry.hash == req.hash
    ensures UniqueHashes(UpdatesWhere(rows, req.hash, us, now) + [entry])
  {
    UpdatesKeepHashes(rows, req.hash, us, now);
  }

  /**
   * The as-written handler on an existing row that is not ready, when the
   * requester update fails and the insert succeeds: the hash gets a second row
   * and the request still gets its job.
   */
  lemma FailedUpdateInsertsSecondRow(existing: SavedBook, req: DownloadRequest, f: Faults)
    requires existing.status != BookStatusReady && existing.requestedBy.None? && f.requestedByErr.Some?
    ensures Inserts(Some(existing), req, f) && !InsertsIntended(Some(existing))
  {
  }

  /** HasUserRequestedBook, then CheckAndCreateDownload, then the admin exemption. */
  method Admit(quota: Quotas.RequestLog<int>, caller: Option<Caller>, req: DownloadRequest, now: int, startOfDay: int,
               limitErr: Option<string>)
    returns (gate: Gate)
    requires quota.Valid()
    modifies quota
    ensures quota.Valid()
    ensures gate == Gatekeep(old(quota.rows), caller, req.hash, startOfDay, limitErr)
    ensures caller.None? || Quotas.Requested(old(quota.rows), caller.value.id, req.hash) ==> quota.rows == old(quota.rows)
    ensures caller.Some? && !Quotas.Requested(old(quota.rows), caller.value.id, req.hash) ==>
              quota.rows == QuotaAfter(old(quota.rows), old(quota.NewRequest(caller.value.id, req.hash, req.title, now)),
                                       startOfDay, limitErr)
  {
    if caller.None? {
      return Stop(Unauthorized);
    }
    var user := caller.value;
    if quota.HasRequested(user.id, req.hash) {
      return Stop(Conflict);
    }
    var canDownload, err := quota.CheckAndCreate(user.id, req.hash, req.title, now, startOfDay, limitErr);
    if err.Some? {
      return Stop(InternalError);
    }
    if !canDownload && user.role != AdminRole {
      return Stop(TooManyRequests);
    }
    gate := Proceed(user);
  }

  /**
   * A ready row: ghost mode cleared for a public request, the count raised, and
   * no job. A failure of either update is only logged.
   */
  method ServeReady(books: BookStore, existing: SavedBook, req: DownloadRequest, now: int, ghostErr: Option<string>,
                    countErr: Option<string>)
    returns (reply: Reply)
    requires books.Valid()
    modifies books
    ensures books.Valid() && books.nextId == old(books.nextId)
    ensures books.rows == UpdatesWhere(old(books.rows), req.hash, ReadyUpdates(existing, req, ghostErr, countErr), now)
    ensures reply == Ready
  {
    var us: seq<Update> := [];
    if Unhides(existing, req) {
      var _ := books.UpdateGhostMode(req.hash, false, now, ghostErr);
      if ghostErr.None? {
        UpdatesWhereSnoc(old(books.rows), req.hash, [], SetGhost(false), now);
        us := [SetGhost(false)];
      }
    }
    var _ := books.IncrementDownloadCount(req.hash, now, countErr);
    if countErr.None? {
      UpdatesWhereSnoc(old(books.rows), req.hash, us, IncrementCount, now);
    } else {
      assert us + [] == us;
    }
    reply := Ready;
  }

  /** A row that is not ready: ghost mode cleared for a public request, the requester filled in when unset. */
  method TouchExisting(books: BookStore, existing: SavedBook, req: DownloadRequest, userId: int, now: int, f: Faults)
    returns (lastErr: Option<string>)
    requires books.Valid()
    modifies books
    ensures books.Valid() && books.nextId == old(books.nextId)
    ensures books.rows == UpdatesWhere(old(books.rows), req.hash, PendingUpdates(existing, req, userId, f), now)
    ensures lastErr == LastErr(existing, req, f)
  {
    lastErr := None;
    var us: seq<Update> := [];
    if Unhides(existing, req) {
      lastErr := books.UpdateGhostMode(req.hash, false, now, f.ghostErr);
      if f.ghostErr.None? {
        UpdatesWhereSnoc(old(books.rows), req.hash, [], SetGhost(false), now);
        us := [SetGhost(false)];
      }
    }
    if existing.requestedBy.None? {
      lastErr := books.UpdateRequestedBy(req.hash, Some(userId), now, f.requestedByErr);
      if f.requestedByErr.None? {
        UpdatesWhereSnoc(old(books.rows), req.hash, us, SetRequestedBy(Some(userId)), now);
        us := us + [SetRequestedBy(Some(userId))];
      }
    }
  }

  /** The insert (when decided) and the job: 500 on either failure, otherwise 201 with the new pending job. */
  method Finish(books: BookStore, jobs: JobRepo.JobStore, userId: int, req: DownloadRequest, now: int, insert: bool,
                f: Faults)
    returns (reply: Reply)
    requires books.Valid() && jobs.Valid()
    modifies books, jobs
    ensures books.Valid() && jobs.Valid()
    ensures books.rows == old(books.rows) + (if insert && f.createErr.None? then [Inserted(req, userId, old(books.nextId), now)] else [])
    ensures insert && f.createErr.Some? ==> reply == InternalError && jobs.rows == old(jobs.rows)
    ensures !(insert && f.createErr.Some?) ==>
              && jobs.rows == old(jobs.rows) + (if f.jobErr.None? then [Queued(userId, req.hash, old(jobs.nextId), now)] else [])
              && reply == (if f.jobErr.None? then Created(old(jobs.nextId), DownloadStatusPending) else InternalError)
  {
    if insert {
      var book := Inserted(req, userId, 0, 0);
      var _, err := books.CreateBook(book, now, f.createErr);
      if err.Some? {
        return InternalError;
      }
    }
    var job, err := jobs.CreateJob(userId, req.hash, now, f.jobErr);
    if err.Some? {
      return InternalError;
    }
    reply := Created(job.id, job.status);
  }

  /**
   * HandleRequestDownload, as written: the gate, then the existing row (ready:
   * served at once; otherwise touched), then an insert for an unknown hash or
   * after a failed update, then one pending job.
   */
  method HandleRequestDownload(books: BookStore, jobs: JobRepo.JobStore, quota: Quotas.RequestLog<int>,
                               caller: Option<Caller>, req: DownloadRequest, now: int, startOfDay: int, f: Faults)
    returns (reply: Reply)
    requires books.Valid() && jobs.Valid() && quota.Valid()
    modifies books, jobs, quota
    ensures books.Valid() && jobs.Valid() && quota.Valid()
    ensures Gatekeep(old(quota.rows), caller, req.hash, startOfDay, f.limitErr).Stop? ==>
              && reply == Gatekeep(old(quota.rows), caller, req.hash, startOfDay, f.limitErr).reply
              && books.rows == old(books.rows) && jobs.rows == old(jobs.rows)
    ensures caller.Some? && !Quotas.Requested(old(quota.rows), caller.value.id, req.hash) ==>
              quota.rows == QuotaAfter(old(quota.rows), old(quota.NewRequest(caller.value.id, req.hash, req.title, now)),
                                       startOfDay, f.limitErr)
    ensures Gatekeep(old(quota.rows), caller, req.hash, startOfDay, f.limitErr).Proceed? ==>
              var userId := caller.value.id;
              var existing := FindByHash(old(books.rows), req.hash);
              if existing.Some? && existing.value.status == BookStatusReady then
                && reply == Ready && jobs.rows == old(jobs.rows)
                && books.rows == UpdatesWhere(old(books.rows), req.hash, ReadyUpdates(existing.value, req, f.ghostErr, f.countErr), now)
              else
                var touched := if existing.Some? then UpdatesWhere(old(books.rows), req.hash, PendingUpdates(existing.value, req, userId, f), now)
                               else old(books.rows);
                var insert := Inserts(existing, req, f);
                && books.rows == touched + (if insert && f.createErr.None? then [Inserted(req, userId, old(books.nextId), now)] else [])
                && (insert && f.createErr.Some? ==> reply == InternalError && jobs.rows == old(jobs.rows))
                && (!(insert && f.createErr.Some?) ==>
                      && jobs.rows == old(jobs.rows) + (if f.jobErr.None? then [Queued(userId, req.hash, old(jobs.nextId), now)] else [])
                      && reply == (if f.jobErr.None? then Created(old(jobs.nextId), DownloadStatusPending) else InternalError))
  {
    var gate := Admit(quota, caller, req, now, startOfDay, f.limitErr);
    if gate.Stop? {
      return gate.reply;
    }
    var userId := gate.user.id;
    var lookup := books.GetBookByHash(req.hash);
    var err: Option<string> := if lookup.Ok? then None else Some(lookup.msg);
    if lookup.Ok? {
      var existing := lookup.value;
      if existing.status == BookStatusReady {
        reply := ServeReady(books, existing, req, now, f.ghostErr, f.countErr);
        return;
      }
      err := TouchExisting(books, existing, req, userId, now, f);
    }
    reply := Finish(books, jobs, userId, req, now, err.Some?, f);
  }

  /**
   * HandleRequestDownload as evidently intended: the same steps, but a row is
   * inserted only for an unknown hash, so hashes stay unique in the table.
   */
  method HandleRequestDownloadIntended(books: BookStore, jobs: JobRepo.JobStore, quota: Quotas.RequestLog<int>,
                                       caller: Option<Caller>, req: DownloadRequest, now: int, startOfDay: int,
                                       f: Faults)
    returns (reply: Reply)
    requires books.Valid() && jobs.Valid() && quota.Valid()
    modifies books, jobs, quota
    ensures books.Valid() && jobs.Valid() && quota.Valid()
    ensures Gatekeep(old(quota.rows), caller, req.hash, startOfDay, f.limitErr).Stop? ==>
              && reply == Gatekeep(old(quota.rows), caller, req.hash, startOfDay, f.limitErr).reply
              && books.rows == old(books.rows) && jobs.rows == old(jobs.rows)
    ensures UniqueHashes(old(books.rows)) ==> UniqueHashes(books.rows)
    ensures Gatekeep(old(quota.rows), caller, req.hash, startOfDay, f.limitErr).Proceed? ==>
              var existing := FindByHash(old(books.rows), req.hash);
              existing.Some? ==> |books.rows| == |old(books.rows)|
  {
    var gate := Admit(quota, caller, req, now, startOfDay, f.limitErr);
    if gate.Stop? {
      return gate.reply;
    }
    var userId := gate.user.id;
    var lookup := books.GetBookByHash(req.hash);
    ghost var us: seq<Update> := [];
    if lookup.Ok? {
      var existing := lookup.value;
      if existing.status == BookStatusReady {
        reply := ServeReady(books, existing, req, now, f.ghostErr, f.countErr);
        if UniqueHashes(old(books.rows)) {
          UpdatesKeepUnique(old(books.rows), req.hash, ReadyUpdates(existing, req, f.ghostErr, f.countErr), now);
        }
        return;
      }
      var _ := TouchExisting(books, existing, req, userId, now, f);
      us := PendingUpdates(existing, req, userId, f);
    }
    ghost var touched := books.rows;
    ghost var entry := Inserted(req, userId, books.nextId, now);
    reply := Finish(books, jobs, userId, req, now, lookup.Err?, f);
    if UniqueHashes(old(books.rows)) {
      if lookup.Err? && f.createErr.None? {
        InsertOnAbsentKeepsUnique(old(books.rows), req, us, entry, now);
      } else {
        UpdatesKeepUnique(old(books.rows), req.hash, us, now);
        assert books.rows == touched;
      }
    }
  }

  /** The answers of the file endpoint. */
  datatype FileReply =
    | BadRequest           // 400, "hash is required"
    | BookNotFound         // 404, "book not found"
    | FileNotAvailable     // 404, "book file not available"
    | Serve(path: string)  // the file at `path`, as an attachment

  /** A row whose file may be served: ready, with a path, and the file present on disk. */
  predicate Servable(b: SavedBook, fileExists: string -> bool)
  {
    b.status == BookStatusReady && b.filePath != "" && fileExists(b.filePath)
  }

  /**
   * HandleDownloadFile: serves the file of a ready row whose path is set and
   * whose file exists, raising its download count first (`countErr` is the
   * database's answer, a failure is only logged and the file is served anyway);
   * every other request gets an error and changes nothing. `fileExists` stands
   * for `os.Stat`.
   */
  method HandleDownloadFile(books: BookStore, hash: string, now: int, fileExists: string -> bool, countErr: Option<string>)
    returns (reply: FileReply)
    requires books.Valid()
    modifies books
    ensures books.Valid() && books.nextId == old(books.nextId)
    ensures reply.Serve? <==> hash != "" && old(books.GetBookByHash(hash)).Ok? && Servable(old(books.GetBookByHash(hash)).value, fileExists)
    ensures reply.Serve? ==> reply.path == old(books.GetBookByHash(hash)).value.filePath && fileExists(reply.path)
    ensures reply.Serve? ==> books.rows == if countErr.None? then UpdateWhere(old(books.rows), hash, IncrementCount, now)
                                          else old(books.rows)
    ensures !reply.Serve? ==> books.rows == old(books.rows)
    ensures reply == BadRequest <==> hash == ""
    ensures reply == BookNotFound <==> hash != "" && old(books.GetBookByHash(hash)).Err?
  {
    if hash == "" {
      return BadRequest;
    }
    var lookup := books.GetBookByHash(hash);
    if lookup.Err? {
      return BookNotFound;
    }
    var book := lookup.value;
    if book.status != BookStatusReady || book.filePath == "" {
      return FileNotAvailable;
    }
    if !fileExists(book.filePath) {
      return FileNotAvailable;
    }
    var _ := books.IncrementDownloadCount(hash, now, countErr);
    reply := Serve(book.filePath);
  }
}
