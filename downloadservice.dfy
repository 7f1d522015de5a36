/**
 * The download service: the scheduler's poll step, the processing of one
 * download job, and the clean-up of failed books.
 *
 * What one job does to the two tables is first written as a plan (`Plan`,
 * `NewBookPlan`): the row it inserts, the updates it applies to the book rows
 * with the job's hash and to the job's row, and the calls it makes to Anna's
 * Archive. The methods are proved to carry out exactly their plan, and what the
 * service promises is proved about the plan.
 */
module DownloadService {
  import opened Wrappers
  import opened GoStrings
  import opened Model
  import BookRepo
  import JobRepo
  import Filenames
  import AnnaUtils

  /** The title given to a book whose metadata could not be fetched. */
  const UnknownTitle: string := "Unknown Title"

  /** Failed books older than this many seconds are deleted by the poll step. */
  const FailedBookMaxAge: int := 24 * 60 * 60

  /** The number of pending jobs one poll step takes. */
  const PollBatch: nat := 5

  const ErrCreateBookPrefix: string := "failed to create book record: "
  const ErrDownloadPrefix: string := "failed to download book from Anna's Archive: "
  const ErrUpdateBookPrefix: string := "failed to update book status: "

  /** What the database, Anna's Archive and the disk answer while one job is processed. */
  datatype JobWorld = JobWorld(
    firstStatusErr: Option<string>,       // the answer to the first status write
    metadata: Result<AnnaBook>,           // what GetBookMetadata returns
    createErr: Option<string>,            // the answer to CreateBook
    download: AnnaUtils.DownloadWorld,    // what Book.Download meets
    fileExists: bool,                     // whether os.Stat finds the book's file
    metadataErr: Option<string>,          // the answer to UpdateBookWithMetadata
    jobPathErr: Option<string>)           // the answer to UpdateJobFilePath after the download (only logged)

  /** A request the service sends to Anna's Archive. */
  datatype ExternalCall =
    | FetchMetadata(hash: string)
    | FetchFile(target: AnnaBook, created: Option<string>)  // the file Download created, if any

  /** How the processing of a job ended. */
  datatype JobOutcome =
    | StatusWriteFailed   // the first status write failed; the job was left alone
    | AlreadyAvailable    // the book's file was already on disk
    | Completed
    | Failed(msg: string)
    | Panicked            // `hash[:8]` on a hash shorter than 8 bytes stops the process

  /** What processNewBook does: its result, the row it inserts, and the updates and calls it makes. */
  datatype NewBookEffect = NewBookEffect(
    err: Option<string>,
    panicked: bool,
    created: Option<SavedBook>,
    bookUpdates: seq<BookRepo.Update>,
    jobUpdates: seq<JobRepo.JobUpdate>,
    calls: seq<ExternalCall>)

  /** What processJob does. */
  datatype JobPlan = JobPlan(
    outcome: JobOutcome,
    created: Option<SavedBook>,
    bookUpdates: seq<BookRepo.Update>,
    jobUpdates: seq<JobRepo.JobUpdate>,
    calls: seq<ExternalCall>)

  function Opt<T>(o: Option<T>): (r: seq<T>)
    ensures |r| <= 1
  {
    if o.Some? then [o.value] else []
  }

  /** The metadata of a new book: the lookup's result, or a placeholder carrying only the hash. */
  function MetadataFor(lookup: Result<AnnaBook>, hash: string): (m: AnnaBook)
    ensures lookup.Err? ==> m.title == UnknownTitle && m.hash == hash && m.format == ""
    ensures lookup.Ok? ==> m == lookup.value
  {
    if lookup.Ok? then lookup.value else TitleOnly(hash, UnknownTitle)
  }

  /** The metadata read back from an existing row. */
  function MetadataOf(b: SavedBook): AnnaBook
  {
    AnnaBook(b.language, b.format, b.size, b.title, b.publisher, b.authors, "", b.hash, b.coverURL, b.coverData)
  }

  /** The row processNewBook inserts for a job whose hash has none. */
  function NewBookRow(job: DownloadJob, m: AnnaBook): SavedBook
  {
    SavedBook(0, job.bookHash, m.title, m.authors, m.publisher, m.language, m.format, m.size, m.coverURL,
              m.coverData, "", BookStatusProcessing, false, Some(job.userId), 0, 0, 0)
  }

  /** The book handed to Download: the job's hash with the title and format of the metadata. */
  function DownloadTarget(hash: string, m: AnnaBook): AnnaBook
  {
    AnnaBook("", m.format, "", m.title, "", "", "", hash, "", "")
  }

  /** A title the service replaces by the start of the hash. */
  predicate IsPlaceholderTitle(title: string)
  {
    title == "" || title == UnknownTitle
  }

  /**
   * The path the service records for the downloaded file: downloadDir/name.format,
   * where name is the sanitised title, or the first 8 bytes of the hash when the
   * title is empty or the placeholder. None when that slice is out of range.
   */
  function StoredPath(dir: string, title: string, format: string, hash: string): (r: Option<string>)
    ensures r.None? <==> IsPlaceholderTitle(title) && |hash| < 8
  {
    if IsPlaceholderTitle(title) then
      if |hash| < 8 then None
      else Some(Filenames.JoinPath(dir, Filenames.SanitizeFilename(hash[..8]) + "." + format))
    else Some(Filenames.JoinPath(dir, Filenames.SanitizeFilename(title) + "." + format))
  }

  /** The path of the file Download writes for that metadata. */
  function WrittenPath(dir: string, hash: string, m: AnnaBook): string
  {
    Filenames.JoinPath(dir, AnnaUtils.DestinationName(DownloadTarget(hash, m)))
  }

  /** The two progress writes before the download starts. */
  const StartedUpdates: seq<JobRepo.JobUpdate> := [Progress(30), Progress(50)]

  /** The status writes of the download phase. */
  function Progress(p: int): JobRepo.JobUpdate
  {
    JobRepo.SetJobStatus(DownloadStatusDownloading, p, "")
  }

  /** The metadata processNewBook works with: the stored row's, or the lookup's for a new row. */
  function BookMetadata(existing: Option<SavedBook>, w: JobWorld, hash: string): AnnaBook
  {
    if existing.None? then MetadataFor(w.metadata, hash) else MetadataOf(existing.value)
  }

  /** What the download half of processNewBook does. */
  datatype PhaseEffect = PhaseEffect(
    err: Option<string>,
    panicked: bool,
    bookUpdates: seq<BookRepo.Update>,
    jobUpdates: seq<JobRepo.JobUpdate>,
    call: ExternalCall)

  /** What processNewBook does once the file is downloaded. */
  datatype RecordEffect = RecordEffect(
    err: Option<string>,
    panicked: bool,
    bookUpdates: seq<BookRepo.Update>,
    jobUpdates: seq<JobRepo.JobUpdate>)

  /**
   * After a successful download: progress 90, then the file name; then the book
   * row becomes ready with its path and metadata, and the job gets the path.
   */
  function RecordPhase(hash: string, m: AnnaBook, w: JobWorld, dir: string): (r: RecordEffect)
    ensures r.panicked ==> r.err.None?
  {
    match StoredPath(dir, m.title, m.format, hash)
    case None => RecordEffect(None, true, [], [Progress(90)])
    case Some(path) =>
      if w.metadataErr.Some? then
        RecordEffect(Some(ErrUpdateBookPrefix + w.metadataErr.value), false, [], [Progress(90)])
      else
        RecordEffect(None, false, [BookRepo.SetMetadata(BookStatusReady, path, m)],
                     [Progress(90)] + PathWrite(w, path))
  }

  /** The job's path write after the download: applied unless the database refuses it, which is only logged. */
  function PathWrite(w: JobWorld, path: string): (r: seq<JobRepo.JobUpdate>)
    ensures |r| <= 1 && (r == [] <==> w.jobPathErr.Some?)
  {
    if w.jobPathErr.None? then [JobRepo.SetJobFilePath(path)] else []
  }

  /**
   * The download half of processNewBook: progress 30 and 50, then the download;
   * a failed download marks the book as failed with an empty path.
   */
  function DownloadPhase(hash: string, m: AnnaBook, w: JobWorld, dir: string): (d: PhaseEffect)
    ensures d.panicked ==> d.err.None?
  {
    var target := DownloadTarget(hash, m);
    var out := AnnaUtils.Download(target, dir, w.download);
    var call := FetchFile(target, out.created);
    if out.err.Some? then
      PhaseEffect(Some(ErrDownloadPrefix + out.err.value), false, [BookRepo.SetStatus(BookStatusError, "")],
                  StartedUpdates, call)
    else
      var r := RecordPhase(hash, m, w, dir);
      PhaseEffect(r.err, r.panicked, r.bookUpdates, StartedUpdates + r.jobUpdates, call)
  }

  /**
   * processNewBook for a job, given the row found for its hash (`existing`), the
   * id the insert would get, and the time.
   */
  function NewBookPlan(existing: Option<SavedBook>, job: DownloadJob, w: JobWorld, dir: string, newId: int, now: int)
    : (e: NewBookEffect)
    ensures existing.Some? ==> e.created.None?
    ensures e.panicked ==> e.err.None?
  {
    var hash := job.bookHash;
    var m := BookMetadata(existing, w, hash);
    var fetched := if existing.None? then [FetchMetadata(hash)] else [];
    if existing.None? && w.createErr.Some? then
      NewBookEffect(Some(ErrCreateBookPrefix + w.createErr.value), false, None, [], [], fetched)
    else
      var created := if existing.None? then Some(NewBookRow(job, m).(id := newId, createdAt := now, updatedAt := now)) else None;
      var d := DownloadPhase(hash, m, w, dir);
      NewBookEffect(d.err, d.panicked, created, d.bookUpdates, d.jobUpdates, fetched + [d.call])
  }

  /**
   * The book rows after cleanupFailedBooks: the rows in error older than a day
   * are gone, unless the delete failed, in which case nothing changed.
   */
  function AfterCleanup(rows: seq<SavedBook>, now: int, dbErr: Option<string>): (r: seq<SavedBook>)
    ensures dbErr.Some? ==> r == rows
    ensures dbErr.None? ==> forall b :: b in r <==> b in rows && !BookRepo.FailedBefore(b, now - FailedBookMaxAge)
  {
    if dbErr.None? then BookRepo.Survivors(rows, now - FailedBookMaxAge) else rows
  }

  /** Whether processJob reaches the insert of a new row (and so draws a fresh id). */
  predicate NewBookInserted(existing: Option<SavedBook>, w: JobWorld)
  {
    w.firstStatusErr.None? && existing.None?
  }

  /** A row whose file the fast path serves. */
  predicate ServedFromDisk(b: SavedBook, fileExists: bool)
  {
    b.status == BookStatusReady && b.filePath != "" && fileExists
  }

  /** processJob for a job, given the row found for its hash, the id an insert would get, and the time. */
  function Plan(existing: Option<SavedBook>, job: DownloadJob, w: JobWorld, dir: string, newId: int, now: int)
    : (p: JobPlan)
  {
    if w.firstStatusErr.Some? then JobPlan(StatusWriteFailed, None, [], [], [])
    else if existing.Some? && ServedFromDisk(existing.value, w.fileExists) then
      JobPlan(AlreadyAvailable, None, [],
              [Progress(10), JobRepo.SetJobStatus(DownloadStatusCompleted, 100, ""),
               JobRepo.SetJobFilePath(existing.value.filePath)], [])
    else
      var e := NewBookPlan(existing, job, w, dir, newId, now);
      if e.panicked then
        JobPlan(Panicked, e.created, e.bookUpdates, [Progress(10)] + e.jobUpdates, e.calls)
      else if e.err.Some? then
        JobPlan(Failed(e.err.value), e.created,
                e.bookUpdates + (if existing.Some? then [BookRepo.SetStatus(BookStatusError, e.err.value)] else []),
                [Progress(10)] + e.jobUpdates + [JobRepo.SetJobStatus(DownloadStatusFailed, 0, e.err.value)], e.calls)
      else
        JobPlan(Completed, e.created, e.bookUpdates,
                [Progress(10)] + e.jobUpdates + [JobRepo.SetJobStatus(DownloadStatusCompleted, 100, "")], e.calls)
  }

  /** The two progress writes of Fetch, as a run of updates. */
  lemma StartedWrites(rows0: seq<DownloadJob>, trail0: seq<JobRepo.StatusWrite>, id: int, now: int)
    ensures JobRepo.UpdateJobWhere(JobRepo.UpdateJobWhere(rows0, id, Progress(30), now), id, Progress(50), now)
            == JobRepo.UpdatesJobWhere(rows0, id, StartedUpdates, now)
    ensures trail0 + [JobRepo.StatusWrite(id, DownloadStatusDownloading, 30)]
                   + [JobRepo.StatusWrite(id, DownloadStatusDownloading, 50)]
            == trail0 + JobRepo.WritesOf(id, StartedUpdates)
  {
    assert StartedUpdates[..1] == [Progress(30)];
    assert [Progress(30)][..0] == [];
  }

  /** The writes of Record, as runs of updates. */
  lemma RecordWrites(books0: seq<SavedBook>, rows0: seq<DownloadJob>, trail0: seq<JobRepo.StatusWrite>, id: int,
                     hash: string, path: string, m: AnnaBook, now: int)
    ensures books0 == BookRepo.UpdatesWhere(books0, hash, [], now)
    ensures BookRepo.UpdateWhere(books0, hash, BookRepo.SetMetadata(BookStatusReady, path, m), now)
            == BookRepo.UpdatesWhere(books0, hash, [BookRepo.SetMetadata(BookStatusReady, path, m)], now)
    ensures JobRepo.UpdateJobWhere(rows0, id, Progress(90), now) == JobRepo.UpdatesJobWhere(rows0, id, [Progress(90)], now)
    ensures JobRepo.UpdateJobWhere(JobRepo.UpdateJobWhere(rows0, id, Progress(90), now), id, JobRepo.SetJobFilePath(path), now)
            == JobRepo.UpdatesJobWhere(rows0, id, [Progress(90), JobRepo.SetJobFilePath(path)], now)
    ensures trail0 + [JobRepo.StatusWrite(id, DownloadStatusDownloading, 90)] == trail0 + JobRepo.WritesOf(id, [Progress(90)])
    ensures trail0 + [JobRepo.StatusWrite(id, DownloadStatusDownloading, 90)]
            == trail0 + JobRepo.WritesOf(id, [Progress(90), JobRepo.SetJobFilePath(path)])
  {
    assert [BookRepo.SetMetadata(BookStatusReady, path, m)][..0] == [];
    assert [Progress(90)][..0] == [];
    assert [Progress(90), JobRepo.SetJobFilePath(path)][..1] == [Progress(90)];
  }

  /** One book write as a run of updates. */
  lemma OneBookWrite(books0: seq<SavedBook>, hash: string, u: BookRepo.Update, now: int)
    ensures BookRepo.UpdateWhere(books0, hash, u, now) == BookRepo.UpdatesWhere(books0, hash, [u], now)
  {
    assert [u][..0] == [];
  }

  /** Fetch followed by Record is one run of updates. */
  lemma PhaseWrites(rows0: seq<DownloadJob>, trail0: seq<JobRepo.StatusWrite>, id: int, js: seq<JobRepo.JobUpdate>, now: int)
    ensures JobRepo.UpdatesJobWhere(JobRepo.UpdatesJobWhere(rows0, id, StartedUpdates, now), id, js, now)
            == JobRepo.UpdatesJobWhere(rows0, id, StartedUpdates + js, now)
    ensures trail0 + JobRepo.WritesOf(id, StartedUpdates) + JobRepo.WritesOf(id, js)
            == trail0 + JobRepo.WritesOf(id, StartedUpdates + js)
  {
    JobRepo.UpdatesJobWhereAppend(rows0, id, StartedUpdates, js, now);
    JobRepo.WritesOfAppend(id, StartedUpdates, js);
  }

  /** A failed insert: the plan's state changes are the ones already made. */
  lemma NewBookNotCreated(found: Option<SavedBook>, job: DownloadJob, w: JobWorld, dir: string, newId: int, now: int,
                          books0: seq<SavedBook>, rows0: seq<DownloadJob>, trail0: seq<JobRepo.StatusWrite>,
                          calls0: seq<ExternalCall>)
    requires found.None? && w.createErr.Some?
    ensures var e := NewBookPlan(found, job, w, dir, newId, now);
            && e.err == Some(ErrCreateBookPrefix + w.createErr.value) && !e.panicked
            && books0 + [] == BookRepo.UpdatesWhere(books0 + Opt(e.created), job.bookHash, e.bookUpdates, now)
            && rows0 == JobRepo.UpdatesJobWhere(rows0, job.id, e.jobUpdates, now)
            && trail0 == trail0 + JobRepo.WritesOf(job.id, e.jobUpdates)
            && calls0 + [FetchMetadata(job.bookHash)] == calls0 + e.calls
  {
    assert books0 + [] == books0;
    assert trail0 + [] == trail0;
  }

  /** An existing or inserted row: the plan is the download phase's, after the insert and lookup. */
  lemma NewBookProceeds(found: Option<SavedBook>, job: DownloadJob, w: JobWorld, dir: string, newId: int, now: int,
                        books0: seq<SavedBook>, calls0: seq<ExternalCall>)
    requires !(found.None? && w.createErr.Some?)
    ensures var e := NewBookPlan(found, job, w, dir, newId, now);
            var m := BookMetadata(found, w, job.bookHash);
            var d := DownloadPhase(job.bookHash, m, w, dir);
            var fetched := if found.None? then [FetchMetadata(job.bookHash)] else [];
            && e.err == d.err && e.panicked == d.panicked
            && e.bookUpdates == d.bookUpdates && e.jobUpdates == d.jobUpdates
            && books0 + (if found.None? && w.createErr.None?
                         then [NewBookRow(job, m).(id := newId, createdAt := now, updatedAt := now)] else [])
               == books0 + Opt(e.created)
            && calls0 + fetched + [d.call] == calls0 + e.calls
  {
    var fetched := if found.None? then [FetchMetadata(job.bookHash)] else [];
    var d := DownloadPhase(job.bookHash, BookMetadata(found, w, job.bookHash), w, dir);
    assert calls0 + fetched + [d.call] == calls0 + (fetched + [d.call]);
  }

  /** The first status write failed: the plan changes nothing. */
  lemma PlanStopsAtFirstWrite(found: Option<SavedBook>, job: DownloadJob, w: JobWorld, dir: string, newId: int, now: int,
                              books0: seq<SavedBook>, rows0: seq<DownloadJob>, trail0: seq<JobRepo.StatusWrite>,
                              calls0: seq<ExternalCall>)
    requires w.firstStatusErr.Some?
    ensures var p := Plan(found, job, w, dir, newId, now);
            && p.outcome == StatusWriteFailed
            && books0 == BookRepo.UpdatesWhere(books0 + Opt(p.created), job.bookHash, p.bookUpdates, now)
            && rows0 == JobRepo.UpdatesJobWhere(rows0, job.id, p.jobUpdates, now)
            && trail0 == trail0 + JobRepo.WritesOf(job.id, p.jobUpdates)
            && calls0 == calls0 + p.calls
  {
    assert books0 + [] == books0;
    assert trail0 + [] == trail0;
    assert calls0 + [] == calls0;
  }

  /** The fast path as a run of updates. */
  lemma PlanFastPathWrites(found: Option<SavedBook>, job: DownloadJob, w: JobWorld, dir: string, newId: int, now: int,
                           books0: seq<SavedBook>, rows0: seq<DownloadJob>, trail0: seq<JobRepo.StatusWrite>,
                           calls0: seq<ExternalCall>)
    requires w.firstStatusErr.None? && found.Some? && ServedFromDisk(found.value, w.fileExists)
    ensures var p := Plan(found, job, w, dir, newId, now);
            && p.outcome == AlreadyAvailable
            && books0 == BookRepo.UpdatesWhere(books0 + Opt(p.created), job.bookHash, p.bookUpdates, now)
            && JobRepo.UpdateJobWhere(JobRepo.UpdateJobWhere(JobRepo.UpdateJobWhere(rows0, job.id, Progress(10), now),
                 job.id, JobRepo.SetJobStatus(DownloadStatusCompleted, 100, ""), now),
                 job.id, JobRepo.SetJobFilePath(found.value.filePath), now)
               == JobRepo.UpdatesJobWhere(rows0, job.id, p.jobUpdates, now)
            && trail0 + [JobRepo.StatusWrite(job.id, DownloadStatusDownloading, 10)]
                      + [JobRepo.StatusWrite(job.id, DownloadStatusCompleted, 100)]
               == trail0 + JobRepo.WritesOf(job.id, p.jobUpdates)
            && calls0 == calls0 + p.calls
  {
    var us := [Progress(10), JobRepo.SetJobStatus(DownloadStatusCompleted, 100, ""), JobRepo.SetJobFilePath(found.value.filePath)];
    assert Plan(found, job, w, dir, newId, now) == JobPlan(AlreadyAvailable, None, [], us, []);
    FastPathJobWrites(rows0, trail0, job.id, found.value.filePath, now);
    assert books0 + [] == books0;
    assert calls0 + [] == calls0;
  }

  /** The three job writes of the fast path, as one run. */
  lemma FastPathJobWrites(rows0: seq<DownloadJob>, trail0: seq<JobRepo.StatusWrite>, id: int, path: string, now: int)
    ensures var us := [Progress(10), JobRepo.SetJobStatus(DownloadStatusCompleted, 100, ""), JobRepo.SetJobFilePath(path)];
            && JobRepo.UpdateJobWhere(JobRepo.UpdateJobWhere(JobRepo.UpdateJobWhere(rows0, id, Progress(10), now),
                 id, JobRepo.SetJobStatus(DownloadStatusCompleted, 100, ""), now), id, JobRepo.SetJobFilePath(path), now)
               == JobRepo.UpdatesJobWhere(rows0, id, us, now)
            && trail0 + [JobRepo.StatusWrite(id, DownloadStatusDownloading, 10)]
                      + [JobRepo.StatusWrite(id, DownloadStatusCompleted, 100)]
               == trail0 + JobRepo.WritesOf(id, us)
  {
    var us := [Progress(10), JobRepo.SetJobStatus(DownloadStatusCompleted, 100, ""), JobRepo.SetJobFilePath(path)];
    var a, b, c := us[0], us[1], us[2];
    assert [a] == [] + [a] && [a, b] == [a] + [b] && us == [a, b] + [c];
    JobRepo.UpdatesJobWhereSnoc(rows0, id, [], a, now);
    JobRepo.UpdatesJobWhereSnoc(rows0, id, [a], b, now);
    JobRepo.UpdatesJobWhereSnoc(rows0, id, [a, b], c, now);
    JobRepo.WritesOfSnoc(id, [], a);
    JobRepo.WritesOfSnoc(id, [a], b);
    JobRepo.WritesOfSnoc(id, [a, b], c);
  }

  /** The first progress write of processJob followed by a run of updates, as one run. */
  lemma FirstWriteThen(rows0: seq<DownloadJob>, trail0: seq<JobRepo.StatusWrite>, id: int, us: seq<JobRepo.JobUpdate>, now: int)
    ensures JobRepo.UpdatesJobWhere(JobRepo.UpdateJobWhere(rows0, id, Progress(10), now), id, us, now)
            == JobRepo.UpdatesJobWhere(rows0, id, [Progress(10)] + us, now)
    ensures trail0 + [JobRepo.StatusWrite(id, DownloadStatusDownloading, 10)] + JobRepo.WritesOf(id, us)
            == trail0 + JobRepo.WritesOf(id, [Progress(10)] + us)
  {
    assert [Progress(10)][..0] == [];
    JobRepo.UpdatesJobWhereAppend(rows0, id, [Progress(10)], us, now);
    JobRepo.WritesOfAppend(id, [Progress(10)], us);
  }

  /** processJob once processNewBook has panicked: no write follows. */
  lemma PlanPanicked(found: Option<SavedBook>, job: DownloadJob, w: JobWorld, dir: string, newId: int, now: int,
                     books0: seq<SavedBook>, rows0: seq<DownloadJob>, trail0: seq<JobRepo.StatusWrite>,
                     calls0: seq<ExternalCall>)
    requires w.firstStatusErr.None? && !(found.Some? && ServedFromDisk(found.value, w.fileExists))
    requires NewBookPlan(found, job, w, dir, newId, now).panicked
    ensures var p := Plan(found, job, w, dir, newId, now);
            var e := NewBookPlan(found, job, w, dir, newId, now);
            && p.outcome == Panicked
            && BookRepo.UpdatesWhere(books0 + Opt(e.created), job.bookHash, e.bookUpdates, now)
               == BookRepo.UpdatesWhere(books0 + Opt(p.created), job.bookHash, p.bookUpdates, now)
            && JobRepo.UpdatesJobWhere(JobRepo.UpdateJobWhere(rows0, job.id, Progress(10), now), job.id, e.jobUpdates, now)
               == JobRepo.UpdatesJobWhere(rows0, job.id, p.jobUpdates, now)
            && trail0 + [JobRepo.StatusWrite(job.id, DownloadStatusDownloading, 10)] + JobRepo.WritesOf(job.id, e.jobUpdates)
               == trail0 + JobRepo.WritesOf(job.id, p.jobUpdates)
            && calls0 + e.calls == calls0 + p.calls
  {
    FirstWriteThen(rows0, trail0, job.id, NewBookPlan(found, job, w, dir, newId, now).jobUpdates, now);
  }

  /** The plan of a job whose processNewBook failed, in terms of processNewBook's plan. */
  lemma PlanFailedShape(found: Option<SavedBook>, job: DownloadJob, w: JobWorld, dir: string, newId: int, now: int)
    requires w.firstStatusErr.None? && !(found.Some? && ServedFromDisk(found.value, w.fileExists))
    requires var e := NewBookPlan(found, job, w, dir, newId, now); !e.panicked && e.err.Some?
    ensures var p := Plan(found, job, w, dir, newId, now);
            var e := NewBookPlan(found, job, w, dir, newId, now);
            && p.outcome == Failed(e.err.value)
            && p.created == e.created && p.calls == e.calls
            && p.jobUpdates == [Progress(10)] + e.jobUpdates + [JobRepo.SetJobStatus(DownloadStatusFailed, 0, e.err.value)]
            && p.bookUpdates == e.bookUpdates + (if found.Some? then [BookRepo.SetStatus(BookStatusError, e.err.value)] else [])
  {
  }

  /** The job writes of a failed job: progress 10, processNewBook's writes, then the failure. */
  lemma FailedJobWrites(rows0: seq<DownloadJob>, trail0: seq<JobRepo.StatusWrite>, id: int, us: seq<JobRepo.JobUpdate>,
                        msg: string, now: int)
    ensures JobRepo.UpdateJobWhere(
              JobRepo.UpdatesJobWhere(JobRepo.UpdateJobWhere(rows0, id, Progress(10), now), id, us, now),
              id, JobRepo.SetJobStatus(DownloadStatusFailed, 0, msg), now)
            == JobRepo.UpdatesJobWhere(rows0, id, [Progress(10)] + us + [JobRepo.SetJobStatus(DownloadStatusFailed, 0, msg)], now)
    ensures trail0 + [JobRepo.StatusWrite(id, DownloadStatusDownloading, 10)] + JobRepo.WritesOf(id, us)
                   + [JobRepo.StatusWrite(id, DownloadStatusFailed, 0)]
            == trail0 + JobRepo.WritesOf(id, [Progress(10)] + us + [JobRepo.SetJobStatus(DownloadStatusFailed, 0, msg)])
  {
    var last := JobRepo.SetJobStatus(DownloadStatusFailed, 0, msg);
    FirstWriteThen(rows0, trail0, id, us, now);
    JobRepo.UpdatesJobWhereSnoc(rows0, id, [Progress(10)] + us, last, now);
    JobRepo.WritesOfSnoc(id, [Progress(10)] + us, last);
  }

  /** The book writes of a failed job: processNewBook's writes, then the error status for an existing row. */
  lemma FailedBookWrites(books1: seq<SavedBook>, hash: string, us: seq<BookRepo.Update>, existed: bool, msg: string, now: int)
    ensures (if existed then BookRepo.UpdateWhere(BookRepo.UpdatesWhere(books1, hash, us, now), hash,
                                                  BookRepo.SetStatus(BookStatusError, msg), now)
             else BookRepo.UpdatesWhere(books1, hash, us, now))
            == BookRepo.UpdatesWhere(books1, hash, us + (if existed then [BookRepo.SetStatus(BookStatusError, msg)] else []), now)
  {
    if existed {
      BookRepo.UpdatesWhereSnoc(books1, hash, us, BookRepo.SetStatus(BookStatusError, msg), now);
    } else {
      assert us + [] == us;
    }
  }

  /** processJob once processNewBook has failed: the job is marked failed and an existing row errored. */
  lemma PlanFailed(found: Option<SavedBook>, job: DownloadJob, w: JobWorld, dir: string, newId: int, now: int,
                   books0: seq<SavedBook>, rows0: seq<DownloadJob>, trail0: seq<JobRepo.StatusWrite>,
                   calls0: seq<ExternalCall>)
    requires w.firstStatusErr.None? && !(found.Some? && ServedFromDisk(found.value, w.fileExists))
    requires var e := NewBookPlan(found, job, w, dir, newId, now); !e.panicked && e.err.Some?
    ensures var p := Plan(found, job, w, dir, newId, now);
            var e := NewBookPlan(found, job, w, dir, newId, now);
            var books1 := BookRepo.UpdatesWhere(books0 + Opt(e.created), job.bookHash, e.bookUpdates, now);
            && p.outcome == Failed(e.err.value)
            && (if found.Some? then BookRepo.UpdateWhere(books1, job.bookHash, BookRepo.SetStatus(BookStatusError, e.err.value), now)
                else books1)
               == BookRepo.UpdatesWhere(books0 + Opt(p.created), job.bookHash, p.bookUpdates, now)
            && JobRepo.UpdateJobWhere(
                 JobRepo.UpdatesJobWhere(JobRepo.UpdateJobWhere(rows0, job.id, Progress(10), now), job.id, e.jobUpdates, now),
                 job.id, JobRepo.SetJobStatus(DownloadStatusFailed, 0, e.err.value), now)
               == JobRepo.UpdatesJobWhere(rows0, job.id, p.jobUpdates, now)
            && trail0 + [JobRepo.StatusWrite(job.id, DownloadStatusDownloading, 10)] + JobRepo.WritesOf(job.id, e.jobUpdates)
                      + [JobRepo.StatusWrite(job.id, DownloadStatusFailed, 0)]
               == trail0 + JobRepo.WritesOf(job.id, p.jobUpdates)
            && calls0 + e.calls == calls0 + p.calls
  {
    var e := NewBookPlan(found, job, w, dir, newId, now);
    PlanFailedShape(found, job, w, dir, newId, now);
    FailedJobWrites(rows0, trail0, job.id, e.jobUpdates, e.err.value, now);
    FailedBookWrites(books0 + Opt(e.created), job.bookHash, e.bookUpdates, found.Some?, e.err.value, now);
  }

  /** The plan of a job whose processNewBook succeeded, in terms of processNewBook's plan. */
  lemma PlanCompletedShape(found: Option<SavedBook>, job: DownloadJob, w: JobWorld, dir: string, newId: int, now: int)
    requires w.firstStatusErr.None? && !(found.Some? && ServedFromDisk(found.value, w.fileExists))
    requires var e := NewBookPlan(found, job, w, dir, newId, now); !e.panicked && e.err.None?
    ensures var p := Plan(found, job, w, dir, newId, now);
            var e := NewBookPlan(found, job, w, dir, newId, now);
            && p.outcome == Completed
            && p.created == e.created && p.calls == e.calls && p.bookUpdates == e.bookUpdates
            && p.jobUpdates == [Progress(10)] + e.jobUpdates + [JobRepo.SetJobStatus(DownloadStatusCompleted, 100, "")]
  {
  }

  /** The job writes of a completed job: progress 10, processNewBook's writes, then completion. */
  lemma CompletedJobWrites(rows0: seq<DownloadJob>, trail0: seq<JobRepo.StatusWrite>, id: int, us: seq<JobRepo.JobUpdate>,
                           now: int)
    ensures JobRepo.UpdateJobWhere(
              JobRepo.UpdatesJobWhere(JobRepo.UpdateJobWhere(rows0, id, Progress(10), now), id, us, now),
              id, JobRepo.SetJobStatus(DownloadStatusCompleted, 100, ""), now)
            == JobRepo.UpdatesJobWhere(rows0, id, [Progress(10)] + us + [JobRepo.SetJobStatus(DownloadStatusCompleted, 100, "")], now)
    ensures trail0 + [JobRepo.StatusWrite(id, DownloadStatusDownloading, 10)] + JobRepo.WritesOf(id, us)
                   + [JobRepo.StatusWrite(id, DownloadStatusCompleted, 100)]
            == trail0 + JobRepo.WritesOf(id, [Progress(10)] + us + [JobRepo.SetJobStatus(DownloadStatusCompleted, 100, "")])
  {
    var last := JobRepo.SetJobStatus(DownloadStatusCompleted, 100, "");
    FirstWriteThen(rows0, trail0, id, us, now);
    JobRepo.UpdatesJobWhereSnoc(rows0, id, [Progress(10)] + us, last, now);
    JobRepo.WritesOfSnoc(id, [Progress(10)] + us, last);
  }

  /** processJob once processNewBook has succeeded: the job is marked completed. */
  lemma PlanCompleted(found: Option<SavedBook>, job: DownloadJob, w: JobWorld, dir: string, newId: int, now: int,
                      books0: seq<SavedBook>, rows0: seq<DownloadJob>, trail0: seq<JobRepo.StatusWrite>,
                      calls0: seq<ExternalCall>)
    requires w.firstStatusErr.None? && !(found.Some? && ServedFromDisk(found.value, w.fileExists))
    requires var e := NewBookPlan(found, job, w, dir, newId, now); !e.panicked && e.err.None?
    ensures var p := Plan(found, job, w, dir, newId, now);
            var e := NewBookPlan(found, job, w, dir, newId, now);
            && p.outcome == Completed
            && BookRepo.UpdatesWhere(books0 + Opt(e.created), job.bookHash, e.bookUpdates, now)
               == BookRepo.UpdatesWhere(books0 + Opt(p.created), job.bookHash, p.bookUpdates, now)
            && JobRepo.UpdateJobWhere(
                 JobRepo.UpdatesJobWhere(JobRepo.UpdateJobWhere(rows0, job.id, Progress(10), now), job.id, e.jobUpdates, now),
                 job.id, JobRepo.SetJobStatus(DownloadStatusCompleted, 100, ""), now)
               == JobRepo.UpdatesJobWhere(rows0, job.id, p.jobUpdates, now)
            && trail0 + [JobRepo.StatusWrite(job.id, DownloadStatusDownloading, 10)] + JobRepo.WritesOf(job.id, e.jobUpdates)
                      + [JobRepo.StatusWrite(job.id, DownloadStatusCompleted, 100)]
               == trail0 + JobRepo.WritesOf(job.id, p.jobUpdates)
            && calls0 + e.calls == calls0 + p.calls
  {
    PlanCompletedShape(found, job, w, dir, newId, now);
    CompletedJobWrites(rows0, trail0, job.id, NewBookPlan(found, job, w, dir, newId, now).jobUpdates, now);
  }

  /** The stores and the request log as one poll round sees them. */
  datatype RunState = RunState(
    books: seq<SavedBook>,
    nextId: int,
    rows: seq<DownloadJob>,
    trail: seq<JobRepo.StatusWrite>,
    calls: seq<ExternalCall>,
    outcomes: seq<JobOutcome>)

  /** One processJob, carried out on a state by its plan. */
  function RunJob(s: RunState, job: DownloadJob, w: JobWorld, dir: string, now: int): (r: RunState)
    ensures r.outcomes == s.outcomes + [Plan(BookRepo.FindByHash(s.books, job.bookHash), job, w, dir, s.nextId, now).outcome]
    ensures r.nextId == s.nextId + (if NewBookInserted(BookRepo.FindByHash(s.books, job.bookHash), w) then 1 else 0)
  {
    var found := BookRepo.FindByHash(s.books, job.bookHash);
    var p := Plan(found, job, w, dir, s.nextId, now);
    RunState(BookRepo.UpdatesWhere(s.books + Opt(p.created), job.bookHash, p.bookUpdates, now),
             s.nextId + (if NewBookInserted(found, w) then 1 else 0),
             JobRepo.UpdatesJobWhere(s.rows, job.id, p.jobUpdates, now),
             s.trail + JobRepo.WritesOf(job.id, p.jobUpdates),
             s.calls + p.calls,
             s.outcomes + [p.outcome])
  }

  /** Whether a poll round has stopped: its last job panicked, which ends the process. */
  predicate Halted(s: RunState)
  {
    |s.outcomes| > 0 && s.outcomes[|s.outcomes| - 1] == Panicked
  }

  /**
   * The jobs of one poll round processed one after another, each on the state the
   * previous one left, until one panics. `world` gives each job id its external answers.
   */
  function RunJobs(s0: RunState, taken: seq<DownloadJob>, world: int -> JobWorld, dir: string, now: int): (r: RunState)
    decreases |taken|
  {
    if taken == [] then s0
    else
      var s := RunJobs(s0, taken[..|taken| - 1], world, dir, now);
      if Halted(s) then s else RunJob(s, taken[|taken| - 1], world(taken[|taken| - 1].id), dir, now)
  }

  /**
   * A poll round records one outcome per job it reached: every job when none
   * panicked, otherwise the jobs up to the first panic, and a panic only last.
   */
  lemma {:induction false} RunJobsOutcomes(s0: RunState, taken: seq<DownloadJob>, world: int -> JobWorld, dir: string, now: int)
    requires !Halted(s0)
    ensures var r := RunJobs(s0, taken, world, dir, now);
            && |s0.outcomes| <= |r.outcomes| <= |s0.outcomes| + |taken|
            && r.outcomes[..|s0.outcomes|] == s0.outcomes
            && (forall k :: |s0.outcomes| <= k < |r.outcomes| - 1 ==> r.outcomes[k] != Panicked)
            && (|r.outcomes| < |s0.outcomes| + |taken| ==> Halted(r))
    decreases |taken|
  {
    if taken != [] {
      var s := RunJobs(s0, taken[..|taken| - 1], world, dir, now);
      RunJobsOutcomes(s0, taken[..|taken| - 1], world, dir, now);
      if !Halted(s) {
        var r := RunJob(s, taken[|taken| - 1], world(taken[|taken| - 1].id), dir, now);
        assert r.outcomes[..|s0.outcomes|] == s.outcomes[..|s0.outcomes|];
        forall k | |s0.outcomes| <= k < |r.outcomes| - 1 ensures r.outcomes[k] != Panicked {
          assert r.outcomes[k] == s.outcomes[k];
          if k == |s.outcomes| - 1 {
            assert !Halted(s);
          }
        }
      }
    }
  }

  /** The round over one more job is that job run on the state the shorter round left, unless it halted. */
  lemma RunJobsStep(s0: RunState, taken: seq<DownloadJob>, world: int -> JobWorld, dir: string, now: int, i: nat)
    requires i < |taken| && !Halted(RunJobs(s0, taken[..i], world, dir, now))
    ensures RunJobs(s0, taken[..i + 1], world, dir, now)
            == RunJob(RunJobs(s0, taken[..i], world, dir, now), taken[i], world(taken[i].id), dir, now)
  {
    assert taken[..i + 1][..i] == taken[..i];
  }

  /** A round that halted, or reached the end, is the whole round. */
  lemma {:induction false} RunJobsStops(s0: RunState, taken: seq<DownloadJob>, world: int -> JobWorld, dir: string, now: int,
                                        i: nat)
    requires i <= |taken|
    requires i == |taken| || Halted(RunJobs(s0, taken[..i], world, dir, now))
    ensures RunJobs(s0, taken, world, dir, now) == RunJobs(s0, taken[..i], world, dir, now)
    decreases |taken| - i
  {
    if i < |taken| {
      assert taken[..i + 1][..i] == taken[..i];
      RunJobsStops(s0, taken, world, dir, now, i + 1);
    } else {
      assert taken[..i] == taken;
    }
  }

  /** A poll round that meets no panic leaves the id counter advanced once per new row it inserted, never down. */
  lemma {:induction false} RunJobsIdsGrow(s0: RunState, taken: seq<DownloadJob>, world: int -> JobWorld, dir: string, now: int)
    ensures s0.nextId <= RunJobs(s0, taken, world, dir, now).nextId <= s0.nextId + |taken|
    decreases |taken|
  {
    if taken != [] {
      RunJobsIdsGrow(s0, taken[..|taken| - 1], world, dir, now);
    }
  }

  class Service {
    var books: BookRepo.BookStore
    var jobs: JobRepo.JobStore
    var downloadDir: string
    /** Every request sent to Anna's Archive, in order. */
    ghost var calls: seq<ExternalCall>

    ghost predicate Valid()
      reads this, books, jobs
    {
      books.Valid() && jobs.Valid()
    }

    constructor (books: BookRepo.BookStore, jobs: JobRepo.JobStore, downloadDir: string)
      requires books.Valid() && jobs.Valid()
      ensures Valid() && this.books == books && this.jobs == jobs && this.downloadDir == downloadDir
      ensures calls == []
    {
      this.books := books;
      this.jobs := jobs;
      this.downloadDir := downloadDir;
      calls := [];
    }

    /** processNewBook: carries out `NewBookPlan` for the row currently stored for the job's hash. */
    method ProcessNewBook(job: DownloadJob, w: JobWorld, now: int) returns (err: Option<string>, panicked: bool)
      requires Valid()
      modifies this, books, jobs
      ensures Valid() && books == old(books) && jobs == old(jobs) && downloadDir == old(downloadDir)
      ensures jobs.nextId == old(jobs.nextId)
      ensures books.nextId == old(books.nextId) + (if old(BookRepo.FindByHash(books.rows, job.bookHash)).None? then 1 else 0)
      ensures var e := NewBookPlan(old(BookRepo.FindByHash(books.rows, job.bookHash)), job, w, downloadDir,
                                   old(books.nextId), now);
              && err == e.err && panicked == e.panicked
              && books.rows == BookRepo.UpdatesWhere(old(books.rows) + Opt(e.created), job.bookHash, e.bookUpdates, now)
              && jobs.rows == JobRepo.UpdatesJobWhere(old(jobs.rows), job.id, e.jobUpdates, now)
              && jobs.trail == old(jobs.trail) + JobRepo.WritesOf(job.id, e.jobUpdates)
              && calls == old(calls) + e.calls
    {
      ghost var found := BookRepo.FindByHash(books.rows, job.bookHash);
      ghost var newId, books0, rows0, trail0, calls0 := books.nextId, books.rows, jobs.rows, jobs.trail, calls;
      var meta, createErr := LookUpOrCreate(job, w, now);
      if createErr.Some? {
        NewBookNotCreated(found, job, w, downloadDir, newId, now, books0, rows0, trail0, calls0);
        return Some(ErrCreateBookPrefix + createErr.value), false;
      }
      NewBookProceeds(found, job, w, downloadDir, newId, now, books0, calls0);
      err, panicked := DownloadAndRecord(job, meta, w, now);
    }

    /**
     * The first half of processNewBook: the stored row's metadata, or, when there is
     * none, the metadata looked up on Anna's Archive and a new row inserted with it.
     */
    method LookUpOrCreate(job: DownloadJob, w: JobWorld, now: int) returns (meta: AnnaBook, createErr: Option<string>)
      requires books.Valid()
      modifies this, books
      ensures books.Valid() && books == old(books) && jobs == old(jobs) && downloadDir == old(downloadDir)
      ensures books.nextId == old(books.nextId) + (if old(BookRepo.FindByHash(books.rows, job.bookHash)).None? then 1 else 0)
      ensures var found := old(BookRepo.FindByHash(books.rows, job.bookHash));
              && meta == BookMetadata(found, w, job.bookHash)
              && createErr == (if found.None? then w.createErr else None)
              && books.rows == old(books.rows) +
                   (if found.None? && w.createErr.None?
                    then [NewBookRow(job, meta).(id := old(books.nextId), createdAt := now, updatedAt := now)]
                    else [])
              && calls == old(calls) + (if found.None? then [FetchMetadata(job.bookHash)] else [])
    {
      var hash := job.bookHash;
      var existing := books.GetBookByHash(hash);
      if existing.Err? {
        calls := calls + [FetchMetadata(hash)];
        meta := MetadataFor(w.metadata, hash);
        var stored;
        stored, createErr := books.CreateBook(NewBookRow(job, meta), now, w.createErr);
      } else {
        meta := MetadataOf(existing.value);
        createErr := None;
        assert books.rows == old(books.rows) + [];
        assert calls == old(calls) + [];
      }
    }

    /** The download half of processNewBook: carries out `DownloadPhase`. */
    method DownloadAndRecord(job: DownloadJob, meta: AnnaBook, w: JobWorld, now: int)
      returns (err: Option<string>, panicked: bool)
      requires Valid()
      modifies this, books, jobs
      ensures Valid() && books == old(books) && jobs == old(jobs) && downloadDir == old(downloadDir)
      ensures books.nextId == old(books.nextId) && jobs.nextId == old(jobs.nextId)
      ensures var d := DownloadPhase(job.bookHash, meta, w, downloadDir);
              && err == d.err && panicked == d.panicked
              && books.rows == BookRepo.UpdatesWhere(old(books.rows), job.bookHash, d.bookUpdates, now)
              && jobs.rows == JobRepo.UpdatesJobWhere(old(jobs.rows), job.id, d.jobUpdates, now)
              && jobs.trail == old(jobs.trail) + JobRepo.WritesOf(job.id, d.jobUpdates)
              && calls == old(calls) + [d.call]
    {
      ghost var books0, rows0, trail0 := books.rows, jobs.rows, jobs.trail;
      var out := Fetch(job, meta, w, now);
      if out.err.Some? {
        var _ := books.UpdateBookStatus(job.bookHash, BookStatusError, "", now, None);
        OneBookWrite(books0, job.bookHash, BookRepo.SetStatus(BookStatusError, ""), now);
        return Some(ErrDownloadPrefix + out.err.value), false;
      }
      err, panicked := Record(job, meta, w, now);
      PhaseWrites(rows0, trail0, job.id, RecordPhase(job.bookHash, meta, w, downloadDir).jobUpdates, now);
    }

    /** Progress 30 and 50, then the download itself. */
    method Fetch(job: DownloadJob, meta: AnnaBook, w: JobWorld, now: int) returns (out: AnnaUtils.DownloadOutcome)
      requires jobs.Valid()
      modifies this, jobs
      ensures jobs.Valid() && books == old(books) && jobs == old(jobs) && downloadDir == old(downloadDir)
      ensures jobs.nextId == old(jobs.nextId)
      ensures out == AnnaUtils.Download(DownloadTarget(job.bookHash, meta), downloadDir, w.download)
      ensures jobs.rows == JobRepo.UpdatesJobWhere(old(jobs.rows), job.id, StartedUpdates, now)
      ensures jobs.trail == old(jobs.trail) + JobRepo.WritesOf(job.id, StartedUpdates)
      ensures calls == old(calls) + [FetchFile(DownloadTarget(job.bookHash, meta), out.created)]
    {
      ghost var rows0, trail0 := jobs.rows, jobs.trail;
      var _ := jobs.UpdateJobStatus(job.id, DownloadStatusDownloading, 30, "", now, None);
      var _ := jobs.UpdateJobStatus(job.id, DownloadStatusDownloading, 50, "", now, None);
      StartedWrites(rows0, trail0, job.id, now);
      var target := DownloadTarget(job.bookHash, meta);
      out := AnnaUtils.Download(target, downloadDir, w.download);
      calls := calls + [FetchFile(target, out.created)];
    }

    /** Progress 90, the file name, then the book's metadata and the job's path: carries out `RecordPhase`. */
    method Record(job: DownloadJob, meta: AnnaBook, w: JobWorld, now: int) returns (err: Option<string>, panicked: bool)
      requires Valid()
      modifies books, jobs
      ensures Valid()
      ensures books.nextId == old(books.nextId) && jobs.nextId == old(jobs.nextId)
      ensures var r := RecordPhase(job.bookHash, meta, w, downloadDir);
              && err == r.err && panicked == r.panicked
              && books.rows == BookRepo.UpdatesWhere(old(books.rows), job.bookHash, r.bookUpdates, now)
              && jobs.rows == JobRepo.UpdatesJobWhere(old(jobs.rows), job.id, r.jobUpdates, now)
              && jobs.trail == old(jobs.trail) + JobRepo.WritesOf(job.id, r.jobUpdates)
    {
      var hash := job.bookHash;
      ghost var books0, rows0, trail0 := books.rows, jobs.rows, jobs.trail;
      var _ := jobs.UpdateJobStatus(job.id, DownloadStatusDownloading, 90, "", now, None);
      var stored := StoredPath(downloadDir, meta.title, meta.format, hash);
      if stored.None? {
        RecordWrites(books0, rows0, trail0, job.id, hash, "", meta, now);
        return None, true;
      }
      var filePath := stored.value;
      RecordWrites(books0, rows0, trail0, job.id, hash, filePath, meta, now);
      var metaErr := books.UpdateBookWithMetadata(hash, BookStatusReady, filePath, meta, now, w.metadataErr);
      if metaErr.Some? {
        return Some(ErrUpdateBookPrefix + metaErr.value), false;
      }
      var _ := jobs.UpdateJobFilePath(job.id, filePath, now, w.jobPathErr);
      return None, false;
    }

    /**
     * processJob: progress 10, then the fast path for a row whose file is on disk,
     * or processNewBook followed by the final status writes. Carries out `Plan`.
     */
    method ProcessJob(job: DownloadJob, w: JobWorld, now: int) returns (outcome: JobOutcome)
      requires Valid()
      modifies this, books, jobs
      ensures Valid() && books == old(books) && jobs == old(jobs) && downloadDir == old(downloadDir)
      ensures jobs.nextId == old(jobs.nextId)
      ensures books.nextId == old(books.nextId) + (if NewBookInserted(old(BookRepo.FindByHash(books.rows, job.bookHash)), w) then 1 else 0)
      ensures var p := Plan(old(BookRepo.FindByHash(books.rows, job.bookHash)), job, w, downloadDir, old(books.nextId), now);
              && outcome == p.outcome
              && books.rows == BookRepo.UpdatesWhere(old(books.rows) + Opt(p.created), job.bookHash, p.bookUpdates, now)
              && jobs.rows == JobRepo.UpdatesJobWhere(old(jobs.rows), job.id, p.jobUpdates, now)
              && jobs.trail == old(jobs.trail) + JobRepo.WritesOf(job.id, p.jobUpdates)
              && calls == old(calls) + p.calls
    {
      ghost var found := BookRepo.FindByHash(books.rows, job.bookHash);
      ghost var newId, books0, rows0, trail0, calls0 := books.nextId, books.rows, jobs.rows, jobs.trail, calls;
      var firstErr := jobs.UpdateJobStatus(job.id, DownloadStatusDownloading, 10, "", now, w.firstStatusErr);
      if firstErr.Some? {
        PlanStopsAtFirstWrite(found, job, w, downloadDir, newId, now, books0, rows0, trail0, calls0);
        return StatusWriteFailed;
      }
      var book := books.GetBookByHash(job.bookHash);
      if book.Ok? && book.value.status == BookStatusReady && book.value.filePath != "" && w.fileExists {
        var _ := jobs.UpdateJobStatus(job.id, DownloadStatusCompleted, 100, "", now, None);
        var _ := jobs.UpdateJobFilePath(job.id, book.value.filePath, now, None);
        PlanFastPathWrites(found, job, w, downloadDir, newId, now, books0, rows0, trail0, calls0);
        return AlreadyAvailable;
      }
      ghost var e := NewBookPlan(found, job, w, downloadDir, newId, now);
      outcome := ProcessSlowPath(job, w, now, book.Ok?, e);
      if e.panicked {
        PlanPanicked(found, job, w, downloadDir, newId, now, books0, rows0, trail0, calls0);
      } else if e.err.Some? {
        PlanFailed(found, job, w, downloadDir, newId, now, books0, rows0, trail0, calls0);
      } else {
        PlanCompleted(found, job, w, downloadDir, newId, now, books0, rows0, trail0, calls0);
      }
    }

    /**
     * processJob after the row was looked up and the fast path did not apply:
     * processNewBook, then the job marked failed (and an existing row errored) or
     * completed. `existed` says whether the lookup found a row.
     */
    method ProcessSlowPath(job: DownloadJob, w: JobWorld, now: int, existed: bool, ghost e: NewBookEffect)
      returns (outcome: JobOutcome)
      requires Valid()
      requires existed == BookRepo.FindByHash(books.rows, job.bookHash).Some?
      requires e == NewBookPlan(BookRepo.FindByHash(books.rows, job.bookHash), job, w, downloadDir, books.nextId, now)
      modifies this, books, jobs
      ensures Valid() && books == old(books) && jobs == old(jobs) && downloadDir == old(downloadDir)
      ensures jobs.nextId == old(jobs.nextId)
      ensures books.nextId == old(books.nextId) + (if existed then 0 else 1)
      ensures var books1 := BookRepo.UpdatesWhere(old(books.rows) + Opt(e.created), job.bookHash, e.bookUpdates, now);
              var rows1 := JobRepo.UpdatesJobWhere(old(jobs.rows), job.id, e.jobUpdates, now);
              var trail1 := old(jobs.trail) + JobRepo.WritesOf(job.id, e.jobUpdates);
              && calls == old(calls) + e.calls
              && (e.panicked ==> outcome == Panicked && books.rows == books1 && jobs.rows == rows1 && jobs.trail == trail1)
              && (!e.panicked && e.err.Some? ==>
                    && outcome == Failed(e.err.value)
                    && books.rows == (if existed then BookRepo.UpdateWhere(books1, job.bookHash,
                                                        BookRepo.SetStatus(BookStatusError, e.err.value), now)
                                      else books1)
                    && jobs.rows == JobRepo.UpdateJobWhere(rows1, job.id,
                                      JobRepo.SetJobStatus(DownloadStatusFailed, 0, e.err.value), now)
                    && jobs.trail == trail1 + [JobRepo.StatusWrite(job.id, DownloadStatusFailed, 0)])
              && (!e.panicked && e.err.None? ==>
                    && outcome == Completed
                    && books.rows == books1
                    && jobs.rows == JobRepo.UpdateJobWhere(rows1, job.id,
                                      JobRepo.SetJobStatus(DownloadStatusCompleted, 100, ""), now)
                    && jobs.trail == trail1 + [JobRepo.StatusWrite(job.id, DownloadStatusCompleted, 100)])
    {
      var err, panicked := ProcessNewBook(job, w, now);
      if panicked {
        return Panicked;
      }
      if err.Some? {
        MarkFailed(job, err.value, existed, now);
        return Failed(err.value);
      }
      var _ := jobs.UpdateJobStatus(job.id, DownloadStatusCompleted, 100, "", now, None);
      return Completed;
    }

    /** The writes after a failed processNewBook: the job failed with the message, and an existing row in error. */
    method MarkFailed(job: DownloadJob, msg: string, existed: bool, now: int)
      requires Valid()
      modifies books, jobs
      ensures Valid()
      ensures books.nextId == old(books.nextId) && jobs.nextId == old(jobs.nextId)
      ensures books.rows == if existed then BookRepo.UpdateWhere(old(books.rows), job.bookHash,
                                              BookRepo.SetStatus(BookStatusError, msg), now)
                            else old(books.rows)
      ensures jobs.rows == JobRepo.UpdateJobWhere(old(jobs.rows), job.id, JobRepo.SetJobStatus(DownloadStatusFailed, 0, msg), now)
      ensures jobs.trail == old(jobs.trail) + [JobRepo.StatusWrite(job.id, DownloadStatusFailed, 0)]
    {
      var _ := jobs.UpdateJobStatus(job.id, DownloadStatusFailed, 0, msg, now, None);
      if existed {
        var _ := books.UpdateBookStatus(job.bookHash, BookStatusError, msg, now, None);
      }
    }

    /**
     * cleanupFailedBooks: deletes the failed rows created more than a day before
     * `now`; `dbErr` is the database's answer, on which nothing is deleted.
     */
    method CleanupFailedBooks(now: int, dbErr: Option<string>) returns (deleted: nat)
      requires Valid()
      modifies books
      ensures Valid() && books.nextId == old(books.nextId)
      ensures books.rows == AfterCleanup(old(books.rows), now, dbErr)
      ensures dbErr.Some? ==> deleted == 0
      ensures |books.rows| + deleted == |old(books.rows)|
    {
      var err;
      deleted, err := books.DeleteFailedBooks(now - FailedBookMaxAge, dbErr);
    }

    /**
     * One round of processPendingDownloads: the cleanup, then the oldest pending
     * jobs (at most PollBatch of them), each processed in turn until one panics.
     */
    method PollStep(world: int -> JobWorld, cleanupErr: Option<string>, now: int) returns (outcomes: seq<JobOutcome>)
      requires Valid()
      modifies this, books, jobs
      ensures Valid() && books == old(books) && jobs == old(jobs) && downloadDir == old(downloadDir)
      ensures jobs.nextId == old(jobs.nextId)
      ensures var s0 := RunState(AfterCleanup(old(books.rows), now, cleanupErr), old(books.nextId),
                                 old(jobs.rows), old(jobs.trail), old(calls), []);
              var r := RunJobs(s0, old(jobs.GetPendingJobs(PollBatch)), world, downloadDir, now);
              && books.rows == r.books && books.nextId == r.nextId
              && jobs.rows == r.rows && jobs.trail == r.trail && calls == r.calls
              && outcomes == r.outcomes
    {
      var _ := CleanupFailedBooks(now, cleanupErr);
      var taken := jobs.GetPendingJobs(PollBatch);
      outcomes := ProcessTaken(taken, world, now);
    }

    /** The jobs of a poll round, processed in turn until one panics. */
    method ProcessTaken(taken: seq<DownloadJob>, world: int -> JobWorld, now: int) returns (outcomes: seq<JobOutcome>)
      requires Valid()
      modifies this, books, jobs
      ensures Valid() && books == old(books) && jobs == old(jobs) && downloadDir == old(downloadDir)
      ensures jobs.nextId == old(jobs.nextId)
      ensures var r := RunJobs(RunState(old(books.rows), old(books.nextId), old(jobs.rows), old(jobs.trail), old(calls), []),
                               taken, world, downloadDir, now);
              && books.rows == r.books && books.nextId == r.nextId
              && jobs.rows == r.rows && jobs.trail == r.trail && calls == r.calls
              && outcomes == r.outcomes
    {
      ghost var s0 := RunState(books.rows, books.nextId, jobs.rows, jobs.trail, calls, []);
      outcomes := [];
      var i := 0;
      while i < |taken| && !(|outcomes| > 0 && outcomes[|outcomes| - 1] == Panicked)
        invariant 0 <= i <= |taken|
        invariant Valid() && books == old(books) && jobs == old(jobs) && downloadDir == old(downloadDir)
        invariant jobs.nextId == old(jobs.nextId)
        invariant var r := RunJobs(s0, taken[..i], world, downloadDir, now);
                  && books.rows == r.books && books.nextId == r.nextId
                  && jobs.rows == r.rows && jobs.trail == r.trail && calls == r.calls && outcomes == r.outcomes
      {
        var o := ProcessJob(taken[i], world(taken[i].id), now);
        outcomes := outcomes + [o];
        RunJobsStep(s0, taken, world, downloadDir, now, i);
        i := i + 1;
      }
      RunJobsStops(s0, taken, world, downloadDir, now, i);
    }
  }

  // ---------------------------------------------------------------------------
  // What processing a job promises
  // ---------------------------------------------------------------------------

  /** A failed first status write ends the job's processing: nothing else is written, fetched or inserted. */
  lemma FirstWriteFailureChangesNothing(existing: Option<SavedBook>, job: DownloadJob, w: JobWorld, dir: string,
                                         newId: int, now: int)
    requires w.firstStatusErr.Some?
    ensures var p := Plan(existing, job, w, dir, newId, now);
            && p.outcome == StatusWriteFailed && p.created.None?
            && p.bookUpdates == [] && p.jobUpdates == [] && p.calls == []
  {
  }

  /**
   * The fast path: a ready row with a path whose file exists completes the job at
   * 100 with the row's path, without any request to Anna's Archive and without
   * touching the row.
   */
  lemma FastPathNeverDownloads(b: SavedBook, job: DownloadJob, w: JobWorld, dir: string, newId: int, now: int)
    requires w.firstStatusErr.None?
    requires b.status == BookStatusReady && b.filePath != "" && w.fileExists
    ensures var p := Plan(Some(b), job, w, dir, newId, now);
            && p.outcome == AlreadyAvailable && p.calls == [] && p.created.None? && p.bookUpdates == []
            && p.jobUpdates == [Progress(10), JobRepo.SetJobStatus(DownloadStatusCompleted, 100, ""),
                                JobRepo.SetJobFilePath(b.filePath)]
            && JobRepo.ProgressValues(p.jobUpdates) == [10, 100]
  {
    var us := [Progress(10), JobRepo.SetJobStatus(DownloadStatusCompleted, 100, ""), JobRepo.SetJobFilePath(b.filePath)];
    assert us[..2][..1] == [Progress(10)];
    assert us[..2] == [Progress(10), JobRepo.SetJobStatus(DownloadStatusCompleted, 100, "")];
    assert JobRepo.ProgressValues([Progress(10)]) == [10] by {
      assert [Progress(10)][..0] == [];
    }
  }

  /**
   * A row that exists but is not served from disk (not ready, or ready with an
   * empty path, or ready with its file missing) is downloaded again in place: no
   * row is inserted, the metadata is not fetched, and the one request made is the
   * download of the row's own title and format.
   */
  lemma ExistingRowIsReused(b: SavedBook, job: DownloadJob, w: JobWorld, dir: string, newId: int, now: int)
    requires w.firstStatusErr.None? && !ServedFromDisk(b, w.fileExists)
    ensures var p := Plan(Some(b), job, w, dir, newId, now);
            var target := DownloadTarget(job.bookHash, MetadataOf(b));
            && p.created.None?
            && p.calls == [FetchFile(target, AnnaUtils.Download(target, dir, w.download).created)]
            && target.title == b.title && target.format == b.format
  {
    var e := NewBookPlan(Some(b), job, w, dir, newId, now);
    assert e.calls == [] + [DownloadPhase(job.bookHash, MetadataOf(b), w, dir).call];
  }

  /**
   * A job whose hash has no row: the metadata is fetched first; a failed lookup
   * gives the placeholder title; the inserted row is in processing, requested by
   * the job's user, and carries the fresh id; a failed insert ends the job before
   * any download.
   */
  lemma AbsentRowIsCreatedBeforeDownload(job: DownloadJob, w: JobWorld, dir: string, newId: int, now: int)
    requires w.firstStatusErr.None?
    ensures var p := Plan(None, job, w, dir, newId, now);
            && |p.calls| >= 1 && p.calls[0] == FetchMetadata(job.bookHash)
            && (w.createErr.Some? ==>
                  && p.outcome == Failed(ErrCreateBookPrefix + w.createErr.value)
                  && p.calls == [FetchMetadata(job.bookHash)] && p.created.None? && p.bookUpdates == [])
            && (w.createErr.None? ==>
                  && p.created.Some? && |p.calls| == 2 && p.calls[1].FetchFile?
                  && p.created.value.hash == job.bookHash
                  && p.created.value.status == BookStatusProcessing
                  && p.created.value.requestedBy == Some(job.userId)
                  && p.created.value.filePath == ""
                  && p.created.value.id == newId && p.created.value.createdAt == now
                  && (w.metadata.Err? ==> p.created.value.title == UnknownTitle)
                  && (w.metadata.Ok? ==> p.created.value.title == w.metadata.value.title))
  {
    var e := NewBookPlan(None, job, w, dir, newId, now);
    if w.createErr.None? {
      var d := DownloadPhase(job.bookHash, MetadataFor(w.metadata, job.bookHash), w, dir);
      assert e.calls == [FetchMetadata(job.bookHash)] + [d.call];
    }
  }

  /**
   * A failed download: the book is set to error with an empty path, then, for a
   * row that existed before, to error with the message as its path; the job ends
   * failed at progress 0 with the message, after progress 10, 30 and 50.
   */
  lemma DownloadFailureShape(existing: Option<SavedBook>, job: DownloadJob, w: JobWorld, dir: string, newId: int, now: int)
    requires w.firstStatusErr.None? && !(existing.Some? && ServedFromDisk(existing.value, w.fileExists))
    requires existing.Some? || w.createErr.None?
    requires AnnaUtils.Download(DownloadTarget(job.bookHash, BookMetadata(existing, w, job.bookHash)), dir, w.download).err.Some?
    ensures var msg := ErrDownloadPrefix +
              AnnaUtils.Download(DownloadTarget(job.bookHash, BookMetadata(existing, w, job.bookHash)), dir, w.download).err.value;
            var p := Plan(existing, job, w, dir, newId, now);
            && p.outcome == Failed(msg)
            && p.bookUpdates == [BookRepo.SetStatus(BookStatusError, "")]
                                + (if existing.Some? then [BookRepo.SetStatus(BookStatusError, msg)] else [])
            && p.jobUpdates == [Progress(10), Progress(30), Progress(50), JobRepo.SetJobStatus(DownloadStatusFailed, 0, msg)]
  {
  }

  /** The row read for a hash after the error writes of a failed download. */
  lemma FailedBookRow(start: seq<SavedBook>, hash: string, us: seq<BookRepo.Update>, existed: bool, msg: string, now: int)
    requires BookRepo.FindByHash(start, hash).Some?
    requires us == [BookRepo.SetStatus(BookStatusError, "")] + (if existed then [BookRepo.SetStatus(BookStatusError, msg)] else [])
    ensures var r := BookRepo.FindByHash(BookRepo.UpdatesWhere(start, hash, us, now), hash);
            && r.Some? && r.value.status == BookStatusError && r.value.filePath == (if existed then msg else "")
  {
    BookRepo.FindAfterUpdates(start, hash, us, now, hash);
    var first := BookRepo.FindByHash(start, hash).value;
    var errEmpty := BookRepo.SetStatus(BookStatusError, "");
    assert BookRepo.ApplyAll(first, [errEmpty], now) == BookRepo.Apply(first, errEmpty, now) by {
      assert [errEmpty][..0] == [];
    }
    if existed {
      assert us[..1] == [errEmpty];
    }
  }

  /** The job after the writes of a failed download. */
  lemma FailedJobRow(rows0: seq<DownloadJob>, id: int, k: nat, us: seq<JobRepo.JobUpdate>, msg: string, now: int)
    requires JobRepo.DistinctIds(rows0) && k < |rows0| && rows0[k].id == id
    requires us == [Progress(10), Progress(30), Progress(50), JobRepo.SetJobStatus(DownloadStatusFailed, 0, msg)]
    ensures var r := JobRepo.FindById(JobRepo.UpdatesJobWhere(rows0, id, us, now), id);
            && r.Some? && r.value.status == DownloadStatusFailed && r.value.progress == 0 && r.value.errorMsg == msg
  {
    JobRepo.FindByIdAfterUpdates(rows0, id, us, now, k);
  }

  /**
   * The paired state after a failed download: the job's row is failed at progress
   * 0 with the message, and the row read for the hash is in error, with an empty
   * path when it was inserted by this job and the message as its path otherwise.
   */
  lemma DownloadFailurePairedState(books0: seq<SavedBook>, rows0: seq<DownloadJob>, job: DownloadJob, w: JobWorld,
                                   dir: string, newId: int, now: int, k: nat, p: JobPlan, msg: string)
    requires JobRepo.DistinctIds(rows0) && k < |rows0| && rows0[k].id == job.id
    requires var existing := BookRepo.FindByHash(books0, job.bookHash);
             var out := AnnaUtils.Download(DownloadTarget(job.bookHash, BookMetadata(existing, w, job.bookHash)), dir, w.download);
             && w.firstStatusErr.None? && !(existing.Some? && ServedFromDisk(existing.value, w.fileExists))
             && (existing.Some? || w.createErr.None?)
             && out.err.Some? && msg == ErrDownloadPrefix + out.err.value
             && p == Plan(existing, job, w, dir, newId, now)
    ensures var books := BookRepo.UpdatesWhere(books0 + Opt(p.created), job.bookHash, p.bookUpdates, now);
            var jobs := JobRepo.UpdatesJobWhere(rows0, job.id, p.jobUpdates, now);
            && p.outcome == Failed(msg)
            && BookRepo.FindByHash(books, job.bookHash).Some?
            && BookRepo.FindByHash(books, job.bookHash).value.status == BookStatusError
            && BookRepo.FindByHash(books, job.bookHash).value.filePath
               == (if BookRepo.FindByHash(books0, job.bookHash).Some? then msg else "")
            && JobRepo.FindById(jobs, job.id).Some?
            && JobRepo.FindById(jobs, job.id).value.status == DownloadStatusFailed
            && JobRepo.FindById(jobs, job.id).value.progress == 0
            && JobRepo.FindById(jobs, job.id).value.errorMsg == msg
  {
    var existing := BookRepo.FindByHash(books0, job.bookHash);
    DownloadFailureShape(existing, job, w, dir, newId, now);
    var start := books0 + Opt(p.created);
    if existing.None? {
      AbsentRowIsCreatedBeforeDownload(job, w, dir, newId, now);
      BookRepo.FindAfterAppend(books0, p.created.value, job.bookHash);
      assert start == books0 + [p.created.value];
    } else {
      assert p.created.None? && start == books0;
    }
    FailedBookRow(start, job.bookHash, p.bookUpdates, existing.Some?, msg, now);
    FailedJobRow(rows0, job.id, k, p.jobUpdates, msg, now);
  }

  /** A processNewBook that succeeded wrote progress 30, 50 and 90 and, unless that write failed, the file path. */
  lemma NewBookSucceededUpdates(existing: Option<SavedBook>, job: DownloadJob, w: JobWorld, dir: string, newId: int, now: int)
    returns (path: string)
    requires var e := NewBookPlan(existing, job, w, dir, newId, now); !e.panicked && e.err.None?
    ensures NewBookPlan(existing, job, w, dir, newId, now).jobUpdates
            == StartedUpdates + [Progress(90)] + PathWrite(w, path)
  {
    var m := BookMetadata(existing, w, job.bookHash);
    var d := DownloadPhase(job.bookHash, m, w, dir);
    assert NewBookPlan(existing, job, w, dir, newId, now).jobUpdates == d.jobUpdates;
    var r := RecordPhase(job.bookHash, m, w, dir);
    assert d.jobUpdates == StartedUpdates + r.jobUpdates;
    path := StoredPath(dir, m.title, m.format, job.bookHash).value;
  }

  /** A job that completes through processNewBook writes the progress values 10, 30, 50, 90 and 100, in that order. */
  lemma CompletedJobProgress(existing: Option<SavedBook>, job: DownloadJob, w: JobWorld, dir: string, newId: int, now: int,
                             p: JobPlan)
    requires p == Plan(existing, job, w, dir, newId, now) && p.outcome == Completed
    ensures JobRepo.ProgressValues(p.jobUpdates) == [10, 30, 50, 90, 100]
  {
    var path := CompletedJobUpdates(existing, job, w, dir, newId, now, p);
    ProgressValuesOfRun(w, path, JobRepo.SetJobStatus(DownloadStatusCompleted, 100, ""));
  }

  /** The job writes of a completed plan: progress 10, 30, 50 and 90, the file path unless that write failed, then completion. */
  lemma CompletedJobUpdates(existing: Option<SavedBook>, job: DownloadJob, w: JobWorld, dir: string, newId: int, now: int,
                            p: JobPlan)
    returns (path: string)
    requires p == Plan(existing, job, w, dir, newId, now) && p.outcome == Completed
    ensures p.jobUpdates == [Progress(10)] + StartedUpdates + [Progress(90)] + PathWrite(w, path)
                            + [JobRepo.SetJobStatus(DownloadStatusCompleted, 100, "")]
  {
    CompletedPlanFacts(existing, job, w, dir, newId, now, p);
    PlanCompletedShape(existing, job, w, dir, newId, now);
    path := NewBookSucceededUpdates(existing, job, w, dir, newId, now);
  }

  /** A completed plan went past the status write and the disk check, and processNewBook neither panicked nor failed. */
  lemma CompletedPlanFacts(existing: Option<SavedBook>, job: DownloadJob, w: JobWorld, dir: string, newId: int, now: int,
                           p: JobPlan)
    requires p == Plan(existing, job, w, dir, newId, now) && p.outcome == Completed
    ensures w.firstStatusErr.None? && !(existing.Some? && ServedFromDisk(existing.value, w.fileExists))
    ensures var e := NewBookPlan(existing, job, w, dir, newId, now); !e.panicked && e.err.None?
  {
  }

  /** The progress values of the updates a completed download writes. */
  lemma ProgressValuesOfRun(w: JobWorld, path: string, last: JobRepo.JobUpdate)
    requires last == JobRepo.SetJobStatus(DownloadStatusCompleted, 100, "")
    ensures JobRepo.ProgressValues([Progress(10)] + StartedUpdates + [Progress(90)] + PathWrite(w, path) + [last])
            == [10, 30, 50, 90, 100]
  {
    var one := [Progress(10)];
    var rec := [Progress(90)] + PathWrite(w, path);
    assert [Progress(10)] + StartedUpdates + [Progress(90)] + PathWrite(w, path) + [last] == one + StartedUpdates + rec + [last];
    assert JobRepo.ProgressValues(one) == [10] by { assert one[..0] == []; }
    assert JobRepo.ProgressValues(StartedUpdates) == [30, 50] by {
      assert StartedUpdates[..1] == [Progress(30)];
      assert [Progress(30)][..0] == [];
    }
    assert JobRepo.ProgressValues(rec) == [90] by {
      assert rec[..1] == [Progress(90)];
      assert [Progress(90)][..0] == [];
    }
    assert JobRepo.ProgressValues([last]) == [100] by { assert [last][..0] == []; }
    JobRepo.ProgressValuesAppend(one, StartedUpdates);
    JobRepo.ProgressValuesAppend(one + StartedUpdates, rec);
    JobRepo.ProgressValuesAppend(one + StartedUpdates + rec, [last]);
  }

  /** A name c.f that is t.f with every '/' made '_': c is t so mapped, and f holds no '/'. */
  lemma MappedNameParts(c: string, t: string, f: string, written: seq<char>)
    requires written == c + "." + f && |written| == |t| + 1 + |f|
    requires forall k :: 0 <= k < |written| ==> written[k] == (if (t + "." + f)[k] == '/' then '_' else (t + "." + f)[k])
    ensures |c| == |t| && '/' !in f
    ensures forall k :: 0 <= k < |t| ==> c[k] == (if t[k] == '/' then '_' else t[k])
  {
    forall k | 0 <= k < |t| ensures c[k] == (if t[k] == '/' then '_' else t[k]) {
      assert written[k] == c[k] && (t + "." + f)[k] == t[k];
    }
    forall k | 0 <= k < |f| ensures f[k] != '/' {
      assert written[|t| + 1 + k] == f[k] && (t + "." + f)[|t| + 1 + k] == f[k];
    }
  }

  /** A name written as c.f for the title t and format f: c is t with '/' made '_', and f holds no '/'. */
  lemma WrittenNameParts(c: string, t: string, f: string)
    requires c + "." + f == ReplaceAll(t + "." + f, "/", "_")
    ensures |c| == |t| && '/' !in f
    ensures forall k :: 0 <= k < |t| ==> c[k] == (if t[k] == '/' then '_' else t[k])
  {
    ReplaceByteAt(t + "." + f, '/', '_');
    MappedNameParts(c, t, f, ReplaceAll(t + "." + f, "/", "_"));
  }

  /** The cleaned start of the hash never has the length of a placeholder title. */
  lemma PlaceholderNameLength(t: string, x: string)
    requires IsPlaceholderTitle(t) && |x| == 8
    ensures |Filenames.SanitizeFilename(x)| != |t|
  {
    Filenames.SanitizeLength(x);
    assert |UnknownTitle| == 13 && |Filenames.Untitled| == 8;
  }

  /** A name that is t with '/' made '_', and is t or the fallback name, is t. */
  lemma MappedSameOrUntitled(t: string, c: string)
    requires c == t || c == Filenames.Untitled
    requires |c| == |t| && forall k :: 0 <= k < |t| ==> c[k] == (if t[k] == '/' then '_' else t[k])
    ensures c == t
  {
    if c == Filenames.Untitled {
      forall k | 0 <= k < |t| ensures t[k] == c[k] {
        assert Filenames.Untitled[k] != '_';
      }
    }
  }

  /** A cleaned name that is the title with '/' made '_' forces a clean, real title. */
  lemma MappedCleanTitle(t: string, x: string)
    requires if IsPlaceholderTitle(t) then |x| == 8 else x == t
    requires |Filenames.SanitizeFilename(x)| == |t|
    requires forall k :: 0 <= k < |t| ==> Filenames.SanitizeFilename(x)[k] == (if t[k] == '/' then '_' else t[k])
    ensures !IsPlaceholderTitle(t) && Filenames.SanitizeFilename(t) == t
  {
    var clean := Filenames.SanitizeFilename(x);
    if IsPlaceholderTitle(t) {
      PlaceholderNameLength(t, x);
      assert false;
    }
    Filenames.SanitizeSameLength(t);
    MappedSameOrUntitled(t, clean);
  }

  /** A cleaned name followed by the format that equals the name Download writes forces a clean, real title. */
  lemma MatchForcesCleanTitle(t: string, f: string, x: string)
    requires if IsPlaceholderTitle(t) then |x| == 8 else x == t
    requires Filenames.SanitizeFilename(x) + "." + f == ReplaceAll(t + "." + f, "/", "_")
    ensures !IsPlaceholderTitle(t) && Filenames.SanitizeFilename(t) == t && '/' !in f
  {
    WrittenNameParts(Filenames.SanitizeFilename(x), t, f);
    MappedCleanTitle(t, x);
  }

  /** A clean title and a format without '/' are written under exactly title.format. */
  lemma CleanTitleWrittenAsIs(t: string, f: string)
    requires Filenames.SanitizeFilename(t) == t && '/' !in f
    ensures ReplaceAll(t + "." + f, "/", "_") == t + "." + f
  {
    var raw := t + "." + f;
    ReplaceByteAt(raw, '/', '_');
    Filenames.SanitizeFilenameChars(t);
    assert forall k :: 0 <= k < |t| ==> t[k] != '/';
    assert forall k :: 0 <= k < |raw| ==> raw[k] != '/';
  }

  /**
   * The path recorded for a downloaded book is the file Download wrote exactly
   * when the title is not a placeholder, the cleaner leaves it unchanged, and the
   * format holds no '/'.
   */
  lemma StoredPathMatchesWrittenIff(dir: string, hash: string, m: AnnaBook)
    requires |hash| >= 8 || !IsPlaceholderTitle(m.title)
    ensures StoredPath(dir, m.title, m.format, hash) == Some(WrittenPath(dir, hash, m)) <==>
            !IsPlaceholderTitle(m.title) && Filenames.SanitizeFilename(m.title) == m.title && '/' !in m.format
  {
    var t, f := m.title, m.format;
    var x := if IsPlaceholderTitle(t) then hash[..8] else t;
    var clean := Filenames.SanitizeFilename(x);
    var written := ReplaceAll(t + "." + f, "/", "_");
    assert StoredPath(dir, t, f, hash) == Some(Filenames.JoinPath(dir, clean + "." + f));
    assert WrittenPath(dir, hash, m) == Filenames.JoinPath(dir, written);
    if StoredPath(dir, t, f, hash) == Some(WrittenPath(dir, hash, m)) {
      Filenames.JoinPathInjective(dir, clean + "." + f, written);
      MatchForcesCleanTitle(t, f, x);
    }
    if !IsPlaceholderTitle(t) && Filenames.SanitizeFilename(t) == t && '/' !in f {
      CleanTitleWrittenAsIs(t, f);
    }
  }
}
