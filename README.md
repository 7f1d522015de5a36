# marchive: the book-acquisition pipeline, in Dafny

marchive is a self-hosted library front end for Anna's Archive. A signed-in user
searches, asks for a book by its MD5 hash, and the server queues a download job.
A background poller picks up the jobs, looks the book's metadata up, fetches the
file through the fast-download API and records the result on the book's row. Around
that pipeline sit daily quotas per user and per IP address, request credits,
redemption codes, invites, a per-user search cache and the usual helpers. These are
password rules, upload checks, file-name cleaning, OpenGraph tags for shared book
links, and two browser-side list stores (local favorites and toast notifications).

This project models that core and proves properties of the model:

- `model.dfy`: the rows (saved book, download job, Anna's Archive book record) and the status strings.
- `bookstore.dfy`, `jobstore.dfy`: the `savedbooks` and `downloadjobs` tables as classes over sequences of rows, with every query and update of their repositories.
- `downloadservice.dfy`: `processJob`/`processNewBook` (pending → downloading → completed or failed), one sequential poll step of the scheduler, and the clean-up of failed books. Each job's effect is first written as a plan; the methods are proved to carry it out, and the service's promises are proved of the plan.
- `annautils.dfy`, `scrape.dfy`, `filenames.dfy`: metadata-line classification, the download decision and destination name, the metadata lookup, the post-processing of the search page, and the file-name cleaner.
- `intake.dfy`: the request-download handler (quota gate, ready short-cut, ghost-mode and requester updates, row and job insertion) and the file-download handler.
- `quotas.dfy`, `credits.dfy`, `users.dfy`, `redemption.dfy`, `invites.dfy`, `tokeninvites.dfy`, `searchcache.dfy`: the ledgers, each a table with guarded, atomic updates.
- `search.dfy`, `static.dfy`, `uploads.dfy`, `passwords.dfy`, `generic.dfy`, `columns.dfy`: the search endpoint, the single-page-app fallback with meta tags, and the utilities.
- `favorites.dfy`, `notifications.dfy`: the two front-end stores.
- `gostrings.dfy`, `hex.dfy`, `tables.dfy`, `wrappers.dfy`: the parts of Go's `strings`, `strconv` and `encoding/hex` the code uses, SQL ordering and paging over sequences, and Option/Result.

Go strings are byte sequences: each `char` of a Dafny `string` stands for one byte of the
UTF-8 form, so `len`, slicing and byte comparisons keep their Go meaning. Non-ASCII
literals are therefore written as their bytes. The TypeScript stores count UTF-16 code
units instead. Clocks (`now`, the start of the current day), snowflake ids, random bytes,
the result of each database write the modelled repositories make, network results and
file-system outcomes are all parameters. The download service passes success for the
status writes whose result it never reads; "Left out" names the members concerned.

Some behaviours of the code differ from what a reader would assume, and the model keeps them:

- `FindBook` never reports an error (`Scrape.FindBook`).
- The metadata separator is the two-character text "Â·". On a page that uses the plain middle dot, the line does not split and no format is found (`Scrape.ScrapedFormatEmpty`, `AnnaUtils.MiddleDotIsNoFormat`).
- A scraped book can carry both a cover URL and inline cover data (`Scrape.CoverURLAndDataBothSet`).
- The path stored for a downloaded book can differ from the file the download wrote (`DownloadService.StoredPathMatchesWrittenIff`).
- A failed job writes its error text into the book's `file_path` (`DownloadService.FailedBookWrites`).
- The intake handler checks a reused error variable again; see "Findings".
- `ExpiryToString` wraps around for expiries beyond about 292 years (`Generic.ExpiryWraps`).
- `sanitizeFilename` is not idempotent (`Filenames.SanitizeNotIdempotent`).

## Model

| member | source | states |
|---|---|---|
| AnnaUtils.ExtractMetaInformation | backend/internal/anna/utils.go:15-44 | Each of language, format and size is the last trimmed segment (split at the doubly encoded middle dot) that the field's rule accepts, or ""; an empty line gives three empty fields |
| AnnaUtils.SegmentRules | backend/internal/anna/utils.go:23-37 | The three tests on one trimmed segment: brackets make a language, an upper-cased keyword among PDF, EPUB, ZIP, MOBI, AZW3, TXT, DOC, DOCX makes a format, MB/KB/GB in the upper-cased text makes a size |
| AnnaUtils.LastAcceptedIsLast | backend/internal/anna/utils.go:22-38 | A non-empty field value is some trimmed segment its rule accepts and no later segment is accepted; an empty value means no segment was accepted |
| AnnaUtils.LastAcceptedStep | backend/internal/anna/utils.go:22-38 | One loop iteration: an accepted segment overwrites the field, any other segment leaves it |
| AnnaUtils.NoRuleAcceptsEmpty | backend/internal/anna/utils.go:25-37 | No rule accepts an empty segment, so an empty field means nothing matched |
| AnnaUtils.LastAcceptedOnly | backend/internal/anna/utils.go:22-38 | A field with a single accepted segment gets that segment, trimmed |
| AnnaUtils.MetaOrderIndependent | backend/internal/anna/utils.go:22-38 | When a field has exactly one accepted segment, reordering the segments does not change its value |
| AnnaUtils.MiddleDotIsNoFormat | backend/internal/anna/utils.go:29-33 | A segment still holding a middle dot is never a format |
| AnnaUtils.NonAsciiIsNoKeyword | backend/internal/anna/utils.go:29-31 | Every format keyword is ASCII, so a segment with a non-ASCII byte is no keyword |
| AnnaUtils.MetaLineWithoutSeparator | backend/internal/anna/utils.go:20-33 | A trimmed line that uses the plain middle dot and not the doubly encoded separator yields no format at all |
| AnnaUtils.MetaLineWholeFields | backend/internal/anna/utils.go:20-37 | Without the separator, language and size are either empty or the whole trimmed line |
| AnnaUtils.MetaLineOneSegment | backend/internal/anna/utils.go:22-37 | A one-segment trimmed line gives language and size either nothing or the whole line |
| AnnaUtils.LastAcceptedSingle | backend/internal/anna/utils.go:22-38 | A one-segment line: the trimmed segment if accepted, else "" |
| AnnaUtils.LastAcceptedByIsLast | backend/internal/anna/utils.go:22-38 | The last-accepted characterisation for any normalisation of the segments |
| AnnaUtils.LastAcceptedByTrimSpace | backend/internal/anna/utils.go:22-23 | The field scan with TrimSpace as the normalisation is the scan the loop performs |
| AnnaUtils.DestinationName | backend/internal/anna/utils.go:76-77 | The file name is title, '.', format with every '/' replaced, so it is one byte longer than title and format and holds no '/' |
| AnnaUtils.DestinationNameAt | backend/internal/anna/utils.go:76-77 | Byte by byte, the name is title.format with '/' made '_' |
| AnnaUtils.Download | backend/internal/anna/utils.go:46-88 | A file is created exactly when the API answered with a URL, the transfer returned 200 and the create succeeded, at folder/name; success also needs the copy to succeed; an empty URL reports the API's error or "failed to get download URL"; a non-200 transfer reports "failed to download file" |
| AnnaUtils.GetBookMetadata | backend/internal/anna/utils.go:110-126 | A failed search is wrapped with its prefix; otherwise the result is found iff some book carries the hash, and then it is the first such book; else "book with hash … not found" |
| Filenames.SanitizeFilename | internal/services/download.go:243-265 | The cleaned name is never empty and at most 200 bytes |
| Filenames.SanitizeFilenameChars | internal/services/download.go:245-250 | No byte of the cleaned name is one of `<>:"/\|?*` or a control character |
| Filenames.SanitizeCleanName | internal/services/download.go:243-265 | A name with nothing to drop, trim or cut comes back unchanged |
| Filenames.SanitizeNothingLeft | internal/services/download.go:245-263 | A name made only of dropped characters, dots and spaces becomes "untitled" |
| Filenames.SanitizeValidName | internal/services/download.go:252-265 | On a name with nothing to drop, the result is the right-trim of dots and spaces, cut to 200 bytes, or "untitled" when empty |
| Filenames.SanitizeChangesTrailingDot | internal/services/download.go:252-253 | A name ending in a dot or a space is always changed |
| Filenames.SanitizeCutsLongName | internal/services/download.go:255-258 | Cutting comes after trimming: a long valid name not ending in dot or space is cut to its first 200 bytes |
| Filenames.SanitizeNotIdempotent | internal/services/download.go:252-258 | Some name cleans to a name that cleans differently again (the cut can expose a trailing dot) |
| Filenames.SanitizeLength | internal/services/download.go:243-265 | The cleaner never lengthens a name except for the "untitled" fallback |
| Filenames.SanitizeSameLength | internal/services/download.go:243-265 | A cleaned name as long as the input is the input or the fallback |
| Filenames.UntitledIsClean | internal/services/download.go:260-262 | The fallback "untitled" is itself a clean name |
| Filenames.UntitledIsValid | internal/services/download.go:260-262 | The fallback has no invalid or control byte |
| Filenames.JoinPath | backend/internal/anna/utils.go:78 | The joined path ends with the file name |
| Filenames.JoinPathInjective | backend/internal/anna/utils.go:78 | Joining onto one directory is one-to-one in the file name |
| Scrape.AlreadyCollected | internal/anna/scrape.go:34-42 | The duplicate scan reports true exactly when some collected anchor has the same href |
| Scrape.CollectAnchors | internal/anna/scrape.go:27-47 | The collected list is the focus anchors in page order followed by every other anchor whose href was not yet collected |
| Scrape.AppendNewExtends | internal/anna/scrape.go:33-47 | Appending new anchors keeps the earlier list as a prefix, adds only given anchors, and the hrefs become the union |
| Scrape.AppendNewFresh | internal/anna/scrape.go:37-45 | Past the focus prefix, no two collected anchors share an href |
| Scrape.CollectedShape | internal/anna/scrape.go:27-47 | The focus anchors come first, the later ones have distinct new hrefs, every href of the page is collected and nothing else is |
| Scrape.DivCandidate | internal/anna/scrape.go:78-96 | One div's text qualifies as meta when it has a middle dot, a size unit and a language or format marker; it is cut before "Save" and "(function" and kept when still longer than 10 bytes with a middle dot |
| Scrape.SelectMeta | internal/anna/scrape.go:75-98 | The meta line is the last div text that qualifies, or "" |
| Scrape.SelectedMetaStep | internal/anna/scrape.go:77-98 | One div: a qualifying text replaces the meta line, any other leaves it |
| Scrape.CutBeforeTrimmed | internal/anna/scrape.go:86-92 | Cutting a trimmed text before a marker and trimming again gives a trimmed text |
| Scrape.CutMetaTrimmed | internal/anna/scrape.go:84-92 | The cut meta text is trimmed |
| Scrape.SelectedMetaShape | internal/anna/scrape.go:75-98 | The selected meta line is empty or longer than 10 bytes, holds a middle dot and is trimmed |
| Scrape.TrimFormatRunes | internal/anna/scrape.go:102-105 | The format trim removes `[`, `]`, `(`, `)` and middle dots from both ends, leaving none at either end, and never lengthens |
| Scrape.HashOf | internal/anna/scrape.go:183-184 | The hash is the href with a leading "/md5/" removed, or the whole href without it |
| Scrape.FirstResolvedSpec | internal/anna/scrape.go:144-181 | An image pass yields the first non-empty source that resolves to a non-empty URL, or "" when there is none |
| Scrape.ResolvePass | internal/anna/scrape.go:144-152 | A pass runs only while no cover URL has been found and then takes the first usable source |
| Scrape.LinkSrcs | internal/anna/scrape.go:154-168 | A link contributes its first image's source only when its HTML holds an image |
| Scrape.CoverOf | internal/anna/scrape.go:117-181 | Cover data comes only from the cover link's fallback block and then starts with "fallback:bg=" |
| Scrape.FindCover | internal/anna/scrape.go:117-181 | The cover search runs the cover link, then the container's images, the links' images and the parent's images, as `CoverOf` states |
| Scrape.CoverEmptyIff | internal/anna/scrape.go:117-181 | The cover URL is empty iff every pass found nothing; cover data is set only from a fallback block when the cover link had no usable image |
| Scrape.CoverURLAndDataBothSet | internal/anna/scrape.go:129-152 | A card whose cover link has an empty image source and a fallback block, plus another image, gets both a cover URL and cover data |
| Scrape.BookFrom | internal/anna/scrape.go:183-197 | A parsed book's hash comes from its href, its URL is the resolved href, its publisher is empty and its title is the trimmed link text |
| Scrape.ParseBook | internal/anna/scrape.go:59-199 | Parsing one anchor with a container gives the book `BookFrom` describes, field by field |
| Scrape.BookFromFields | internal/anna/scrape.go:186-197 | The book literal is exactly the field values the parser computed |
| Scrape.ParsedBooks | internal/anna/scrape.go:56-200 | One book at most per collected anchor |
| Scrape.ParsedBooksStep | internal/anna/scrape.go:58-62 | An anchor without a container is skipped; any other adds its book at the end |
| Scrape.FindBook | internal/anna/scrape.go:19-203 | The result is the books parsed from the collected anchors, in collection order, and never an error |
| Scrape.ParsedBooksFromAnchors | internal/anna/scrape.go:58-200 | Every parsed book comes from one collected anchor with a container |
| Scrape.FindBookHashes | internal/anna/scrape.go:183-194 | Every book's hash comes from the href of some anchor of the page |
| Scrape.FormatOfPageMeta | internal/anna/scrape.go:94-100 | A meta line with the plain middle dot and no doubly encoded separator yields no format |
| Scrape.SelectedMetaFormat | internal/anna/scrape.go:75-100 | The selected meta line yields no format unless it holds the doubly encoded separator |
| Scrape.ScrapedFormatEmpty | internal/anna/scrape.go:100-105 | A scraped book's format is empty whenever its meta line lacks the doubly encoded separator |
| Scrape.CleanFormatEmpty | internal/anna/scrape.go:102-105 | An empty format stays empty |
| Scrape.BookFormat | internal/anna/scrape.go:100-105 | The book's format is the cleaned format field of the selected meta line |
| BookRepo.Apply | internal/repo/book.go:62-89 | An update changes only its own columns and the update time; hash, id and creation time are never changed |
| BookRepo.UpdateWhere | internal/repo/book.go:74-78 | An `UPDATE … WHERE hash` keeps the number of rows |
| BookRepo.UpdateWhereAt | internal/repo/book.go:74-78 | Each row is updated exactly when its hash is the one given; an absent hash changes nothing |
| BookRepo.FindByHash | internal/repo/book.go:40-45 | A read by hash finds a row iff some row has the hash, and what it returns has that hash |
| BookRepo.FindAfterUpdate | internal/repo/book.go:74-89 | After an update of one hash, a read of that hash gives the updated row and a read of any other hash gives what it gave before |
| BookRepo.UpdatesWhere | internal/services/download.go:67-127 | A run of updates of one hash keeps the number of rows |
| BookRepo.UpdatesWhereSnoc | internal/services/download.go:67-127 | A run of updates followed by one more is the run with that update appended |
| BookRepo.ApplyAll | internal/services/download.go:67-127 | A run of updates never changes a row's hash, id or creation time |
| BookRepo.FindAfterUpdates | internal/services/download.go:67-127 | After a run of updates of one hash, a read of that hash gives the first row with every update applied in turn; other hashes read as before |
| BookRepo.FindAfterAppend | internal/repo/book.go:26-45 | A row appended by an insert is what a read finds only when no older row has its hash |
| BookRepo.RequestCount | internal/repo/book.go:198-219 | The per-hash request count is at most the number of requests and is zero iff no request names the hash |
| BookRepo.RequestCountAppend | internal/repo/book.go:198-219 | One more request raises the count of its own hash by one and of no other hash |
| BookRepo.WithCounts | internal/repo/book.go:198-219 | Every row is kept, in order, as the listing reads it: its hash's request count as download count, ghost flag false and no requester (the query selects neither column), every other column as stored |
| BookRepo.Counted | internal/repo/book.go:198-219 | A listed row has its hash's request count, ghost flag false and no requester, and agrees with the stored row on every other column |
| BookRepo.Survivors | internal/repo/book.go:272-279 | The rows kept by the cleanup are exactly the rows not in error or not created before the cutoff |
| BookRepo.AvailabilityOf | internal/repo/book.go:221-270 | The availability rows are exactly hash, status and path of the rows whose hash is listed, at most one per row |
| BookRepo.AvailabilityOfNoHashes | internal/repo/book.go:226-228 | An empty hash list selects nothing |
| BookRepo.BookStore.constructor | internal/repo/book.go:20-24 | A new repository has an empty table |
| BookRepo.BookStore.CreateBook | internal/repo/book.go:26-38 | The book gets a fresh id different from every stored id and both times set to now; it is appended without any existence check when the insert succeeds, and the table is unchanged when it fails |
| BookRepo.BookStore.GetBookByHash | internal/repo/book.go:40-45 | A row with the hash is returned iff one exists; otherwise the no-rows error |
| BookRepo.BookStore.GetBookByHashForUser | internal/repo/book.go:47-60 | A row with the hash is returned iff one exists that the user may see (admins see all, others non-ghost rows and their own ghost rows) |
| BookRepo.BookStore.VisibleBooks | internal/repo/book.go:103-127 | The rows the user may see, and every row for an admin |
| BookRepo.BookStore.GetBooks | internal/repo/book.go:91-101 | At most `limit` rows, all outside ghost mode, newest first; a first page at least as large as the table holds every row outside ghost mode as often as the table does, and no other |
| BookRepo.BookStore.CountBooks | internal/repo/book.go:171-175 | The number of positions of the table whose row is outside ghost mode: every row when none is ghost, zero iff all are ghost |
| BookRepo.BookStore.GetBooksWithDownloadCount | internal/repo/book.go:198-219 | At most `limit` rows newest first, each a stored row read with its hash's request count, ghost flag false and no requester; a first page at least as large as the table holds exactly the rows of WithCounts, ghost rows included, each as often |
| BookRepo.BookStore.GetBooksForUser | internal/repo/book.go:103-127 | At most `limit` rows, all visible to the user, newest first; a first page at least as large as the table holds every row the user may see as often as the table does, and no other |
| BookRepo.BookStore.SearchBooksForUser | internal/repo/book.go:143-169 | At most `limit` rows, all visible to the user and matching the query in title, authors or publisher, newest first; a first page at least as large as the table holds every such row as often as the table does |
| BookRepo.BookStore.SearchBooks | internal/repo/book.go:129-141 | At most `limit` rows, all outside ghost mode and matching the query, newest first; a first page at least as large as the table holds every such row as often as the table does |
| BookRepo.BookStore.CountSearchBooks | internal/repo/book.go:189-196 | The number of positions of the table whose row matches the query, ghost rows included; positive when any row matches |
| BookRepo.BookStore.CountBooksForUser | internal/repo/book.go:177-187 | The number of positions of the table whose row the user may see; every row for an admin |
| BookRepo.BookStore.IncrementDownloadCount | internal/repo/book.go:62-66 | On success every row with the hash has its count raised by one and no other row changes; on failure nothing changes and the error is returned |
| BookRepo.BookStore.UpdateRequestedBy | internal/repo/book.go:68-72 | The requester column of the rows with the hash is set when the write succeeds; nothing changes when it fails |
| BookRepo.BookStore.UpdateBookStatus | internal/repo/book.go:74-78 | On success only status, file path and update time of the rows with the hash change; on failure nothing changes and the error is returned |
| BookRepo.BookStore.UpdateBookWithMetadata | internal/repo/book.go:80-89 | The eight metadata columns, status and file path of the rows with the hash are overwritten on success; ghost flag, requester and count are kept |
| BookRepo.BookStore.UpdateGhostMode | internal/repo/book.go:281-285 | The ghost flag of the rows with the hash is set on success; nothing changes on failure |
| BookRepo.BookStore.UpdateBookMetadata | internal/repo/book.go:293-297 | Title, authors and publisher of the rows with the hash are set on success; nothing changes on failure |
| BookRepo.BookStore.DeleteFailedBooks | internal/repo/book.go:272-279 | On success exactly the rows in error created strictly before the cutoff are removed, the others keep their order, and their number is returned; on failure nothing is removed, 0 and the error are returned |
| BookRepo.BookStore.DeleteBook | internal/repo/book.go:287-291 | On success the table is the old one without the rows with the hash, in order; on failure nothing changes and the error is returned |
| BookRepo.BookStore.GetBooksAvailabilityByHashes | internal/repo/book.go:221-270 | The loop collects the availability rows of the listed hashes; an empty list returns at once with nothing |
| BookRepo.CountMatchesListing | internal/repo/book.go:103-187 | A first page at least as large as the user's count lists exactly that many rows |
| BookRepo.EditedDetailsRead | internal/repo/book.go:293-297 | After a details edit, a read by hash returns the old first row with the new title, authors and publisher and nothing else changed |
| BookRepo.ScopedIsUnscoped | internal/repo/book.go:91-187 | For a user who requested no ghost row, the scoped listing and count equal the unscoped ones |
| JobRepo.ApplyJob | internal/repo/downloadjob.go:75-85 | An update never changes id, owner, hash or creation time; a status update keeps the path and a path update keeps status, progress and message |
| JobRepo.UpdateJobWhere | internal/repo/downloadjob.go:75-85 | An `UPDATE … WHERE id` keeps the number of rows |
| JobRepo.UpdateJobWhereAt | internal/repo/downloadjob.go:75-85 | Each row is updated exactly when it has the id |
| JobRepo.FindById | internal/repo/downloadjob.go:44-49 | A read by id finds a job iff some row has the id, and the job has that id |
| JobRepo.FindByIdAfterUpdate | internal/repo/downloadjob.go:44-85 | With distinct ids, the job read after an update of its id is the updated job |
| JobRepo.FindByIdIsUnique | internal/repo/downloadjob.go:44-49 | With distinct ids, the job read for an id is the one row with it |
| JobRepo.WithMetadata | internal/repo/downloadjob.go:51-73 | The `LEFT JOIN` of one job: one output row per book row with its hash (so two such rows repeat the job), or the job alone with every metadata column empty when there is none |
| JobRepo.Matches | internal/repo/downloadjob.go:66 | Exactly the book rows whose hash is the job's |
| JobRepo.AtMostOneMatch | internal/repo/downloadjob.go:66 | With no two book rows sharing a hash, a job matches at most one row |
| JobRepo.WithMetadataUnique | internal/repo/downloadjob.go:51-73 | With no two book rows sharing a hash, the join gives each job exactly one row |
| JobRepo.MatchesCount | internal/repo/downloadjob.go:66 | Two book rows with the job's hash both match |
| JobRepo.WithMetadataRepeats | internal/repo/downloadjob.go:51-73 | Two book rows with the job's hash make the join list the job at least twice |
| JobRepo.JoinAll | internal/repo/downloadjob.go:51-73 | The join of a list of jobs has at least as many rows as jobs, each a joined row of one of the jobs |
| JobRepo.JoinAllLists | internal/repo/downloadjob.go:65-66 | The `LEFT JOIN` drops no job: every job of the list has a row in the join |
| JobRepo.JoinAllSorted | internal/repo/downloadjob.go:68-69 | Joining jobs listed newest first keeps the output newest first |
| JobRepo.JoinAllUnique | internal/repo/downloadjob.go:51-73 | With no two book rows sharing a hash, the join has one row per job, the k-th row carrying the k-th job |
| JobRepo.JoinAllRepeats | internal/repo/downloadjob.go:51-73 | A job whose hash two book rows share makes the join longer than the job list |
| JobRepo.ProgressOfAppend | internal/services/download.go:67-127 | A job's recorded progress values over two stretches of writes are those of the first followed by those of the second |
| JobRepo.UpdatesJobWhere | internal/services/download.go:67-127 | A run of updates of one job keeps the number of rows |
| JobRepo.UpdatesJobWhereSnoc | internal/services/download.go:67-127 | A run followed by one more update is the longer run |
| JobRepo.WritesOf | internal/repo/downloadjob.go:75-79 | A run records at most one status write per update |
| JobRepo.WritesOfSnoc | internal/repo/downloadjob.go:75-79 | One more update adds a status write exactly when it is a status update |
| JobRepo.UpdateStep | internal/services/download.go:67-127 | Rows and write history after a run plus one update are those of the longer run |
| JobRepo.UpdatesJobWhereAppend | internal/services/download.go:67-127 | Two runs of updates one after the other are one run |
| JobRepo.WritesOfAppend | internal/services/download.go:67-127 | The writes of two consecutive runs are those of the combined run |
| JobRepo.ProgressValues | internal/repo/downloadjob.go:75-79 | A run writes at most one progress value per update |
| JobRepo.ProgressOfWrites | internal/repo/downloadjob.go:75-79 | The history records, for the job, exactly the progress values of its status updates, in order |
| JobRepo.ProgressValuesAppend | internal/services/download.go:67-127 | Progress values of two consecutive runs are concatenated |
| JobRepo.ProgressOfRun | internal/services/download.go:67-127 | A history grown by a run records the run's progress values at its end |
| JobRepo.ApplyJobs | internal/services/download.go:67-127 | A run of updates never changes a job's id |
| JobRepo.UpdateJobWhereIds | internal/repo/downloadjob.go:75-85 | An update keeps every row's id, so distinct ids stay distinct |
| JobRepo.FindByIdAfterUpdates | internal/repo/downloadjob.go:44-85 | With distinct ids, the job read after a run of updates of its id is the job with the run applied, and ids stay distinct |
| JobRepo.JobStore.constructor | internal/repo/downloadjob.go:18-22 | A new repository has no job and an empty write history |
| JobRepo.JobStore.CreateJob | internal/repo/downloadjob.go:24-42 | The job is pending at progress 0 with empty message and path, a fresh id different from every stored id, and both times now; it is appended when the insert succeeds |
| JobRepo.JobStore.GetJobByID | internal/repo/downloadjob.go:44-49 | A job with the id is returned iff one exists |
| JobRepo.JobStore.UpdateJobStatus | internal/repo/downloadjob.go:75-79 | On success only status, progress, message and update time of that job change, and the write is recorded; on failure nothing changes |
| JobRepo.JobStore.UpdateJobFilePath | internal/repo/downloadjob.go:81-85 | On success only the path and the update time of that job change; on failure nothing changes and the error is returned |
| JobRepo.JobStore.Pending | internal/repo/downloadjob.go:87-97 | Exactly the pending jobs |
| JobRepo.JobStore.GetPendingJobs | internal/repo/downloadjob.go:87-97 | As many pending jobs as there are, up to `limit`, oldest first, and none left out is older than one returned |
| JobRepo.JobStore.GetJobByUserAndBook | internal/repo/downloadjob.go:99-109 | A job of that user for that hash is returned iff one exists, and no other such job is newer |
| JobRepo.JobStore.JobsOf | internal/repo/downloadjob.go:51-73 | Exactly the user's jobs |
| JobRepo.JobStore.GetUserJobs | internal/repo/downloadjob.go:51-73 | At most `limit` joined rows of the user's jobs, newest first, each carrying the metadata of a book row with its hash or, when there is none, empty metadata; a large first page is the whole joined listing and lists every job of the user |
| JobRepo.JobStore.Joined | internal/repo/downloadjob.go:51-73 | The whole listing before paging: every job of the user has a row, every row is a joined row of one of the user's jobs, newest first |
| JobRepo.JobStore.CountUserJobs | internal/repo/downloadjob.go:111-116 | The number of positions of the table whose job belongs to the user |
| JobRepo.CountUserJobsMatchesListing | internal/repo/downloadjob.go:51-116 | With no two book rows sharing a hash, a first page at least as large as the count lists exactly as many rows as the user has jobs |
| JobRepo.ListingExceedsCount | internal/repo/downloadjob.go:51-116 | When two book rows share the hash of one of the user's jobs, the joined listing, and a first page holding it whole, has more rows than the count |
| DownloadService.MetadataFor | internal/services/download.go:136-147 | A failed lookup gives the placeholder "Unknown Title" with the job's hash and no format; a successful one gives the found metadata |
| DownloadService.StoredPath | internal/services/download.go:202-209 | The recorded path (downloadDir/name.format, the name being the cleaned title, or the first 8 bytes of the hash for an empty or placeholder title) is missing exactly when the title is a placeholder and the hash is shorter than 8 bytes, where the slice panics |
| DownloadService.RecordPhase | internal/services/download.go:200-220 | After a successful download: progress 90, then the book row becomes ready with its path and metadata and the job gets the path |
| DownloadService.DownloadPhase | internal/services/download.go:183-198 | Progress 30 and 50 and one download call; a failed download sets the book to error with an empty path and ends processNewBook with the error |
| DownloadService.NewBookPlan | internal/services/download.go:129-222 | processNewBook's effects from the stored row, the lookup, the insert and the download results |
| DownloadService.StartedWrites | internal/services/download.go:183-191 | The two progress writes as a run of job updates |
| DownloadService.RecordWrites | internal/services/download.go:200-220 | The recording writes as runs of job and book updates |
| DownloadService.OneBookWrite | internal/services/download.go:196 | One book write is a run of one update |
| DownloadService.PhaseWrites | internal/services/download.go:183-220 | The download and recording writes together form one run |
| DownloadService.NewBookNotCreated | internal/services/download.go:160-167 | A failed insert ends processNewBook with only the lookup made: no download and no job write |
| DownloadService.NewBookProceeds | internal/services/download.go:131-222 | With a stored or inserted row, processNewBook's effects are the download phase's after the lookup and insert |
| DownloadService.PlanStopsAtFirstWrite | internal/services/download.go:70-74 | When the first progress write fails, processJob makes no further write, call or insert |
| DownloadService.PlanFastPathWrites | internal/services/download.go:92-99 | The fast path's job writes form one run |
| DownloadService.FastPathJobWrites | internal/services/download.go:70-96 | Progress 10, the path copy and completion at 100 as one run |
| DownloadService.FirstWriteThen | internal/services/download.go:70 | The first progress write followed by a run is one run |
| DownloadService.PlanPanicked | internal/services/download.go:79-117 | Once processNewBook has panicked, processJob writes nothing more |
| DownloadService.PlanFailedShape | internal/services/download.go:79-122 | A failed processNewBook leads to the failed-job write and, for a row that existed, the error write of the row |
| DownloadService.FailedJobWrites | internal/services/download.go:70-120 | A failed job's writes: progress 10, processNewBook's writes, then failed at 0 with the message |
| DownloadService.FailedBookWrites | internal/services/download.go:107-121 | A failed job's book writes: processNewBook's writes, then error with the message as path for a row that existed |
| DownloadService.PlanFailed | internal/services/download.go:79-122 | processJob after a failed processNewBook marks the job failed and errors an existing row |
| DownloadService.PlanCompletedShape | internal/services/download.go:86-125 | A successful processNewBook leads to the completion write |
| DownloadService.CompletedJobWrites | internal/services/download.go:70-125 | A completed job's writes: progress 10, processNewBook's writes, then completed at 100 |
| DownloadService.PlanCompleted | internal/services/download.go:86-125 | processJob after a successful processNewBook marks the job completed |
| DownloadService.RunJob | internal/services/download.go:67-127 | One processJob applied to a state records its outcome and advances the id counter exactly when it inserts a row |
| DownloadService.RunJobsOutcomes | internal/services/download.go:58-61 | A poll round records one outcome per job reached: every job when none panicked, otherwise up to the first panic, which is last |
| DownloadService.RunJobsStep | internal/services/download.go:58-61 | A round over one more job runs that job on the state the shorter round left, unless it halted |
| DownloadService.RunJobsStops | internal/services/download.go:58-61 | A round that halted or reached the end is the whole round |
| DownloadService.RunJobsIdsGrow | internal/services/download.go:58-162 | A round without panic advances the id counter once per inserted row and never lowers it |
| DownloadService.Service.constructor | internal/services/download.go:24-34 | A new service over the given book and job stores and download directory, with no external call made yet |
| DownloadService.Service.ProcessNewBook | internal/services/download.go:129-222 | Carries out processNewBook's effects on the book and job stores for the row stored for the job's hash |
| DownloadService.Service.LookUpOrCreate | internal/services/download.go:131-181 | A stored row's metadata is reused; without one, the looked-up metadata or the placeholder is inserted as a new processing row requested by the job's user |
| DownloadService.Service.DownloadAndRecord | internal/services/download.go:183-222 | Carries out the download phase and, on success, the recording |
| DownloadService.Service.Fetch | internal/services/download.go:183-198 | Progress 30 and 50 are written, then the download is made once |
| DownloadService.Service.Record | internal/services/download.go:200-220 | Progress 90, then the book ready with its path and metadata, then the job's path unless that write fails, which is only logged |
| DownloadService.Service.ProcessJob | internal/services/download.go:67-127 | Carries out processJob's plan: progress 10, then the fast path for a ready row whose file is on disk, otherwise processNewBook and the final status writes |
| DownloadService.Service.ProcessSlowPath | internal/services/download.go:76-125 | After the lookup without fast path: processNewBook, then failed (and an existing row errored) or completed |
| DownloadService.Service.CleanupFailedBooks | internal/services/download.go:224-236 | Deletes exactly the rows in error created before now minus 24 hours; when the delete fails nothing is deleted |
| DownloadService.AfterCleanup | internal/services/download.go:224-236 | The rows after the cleanup: those in error older than a day are gone, or all rows stay when the delete failed |
| DownloadService.Service.MarkFailed | internal/services/download.go:117-122 | The writes after a failed processNewBook: the job failed at 0 with the message, and an existing row in error with the message as its path |
| DownloadService.Service.PollStep | internal/services/download.go:36-65 | One poll round: the cleanup (which may fail and delete nothing), then at most 5 oldest pending jobs processed in turn until one panics |
| DownloadService.Service.ProcessTaken | internal/services/download.go:58-61 | The taken jobs processed in order, stopping at the first panic |
| DownloadService.FirstWriteFailureChangesNothing | internal/services/download.go:70-74 | A failed first status write leaves both tables unchanged and makes no call |
| DownloadService.FastPathNeverDownloads | internal/services/download.go:92-99 | A ready row with a path whose file exists completes the job at 100 with the row's path, with no request to the archive and the row untouched |
| DownloadService.ExistingRowIsReused | internal/services/download.go:92-181 | A stored row not served from disk is downloaded again in place: no insert, no metadata fetch, one download of the row's own title and format |
| DownloadService.AbsentRowIsCreatedBeforeDownload | internal/services/download.go:131-168 | For a hash with no row the metadata is fetched first, a failed lookup gives the placeholder title, the inserted row is processing and requested by the job's user, and a failed insert ends the job before any download |
| DownloadService.DownloadFailureShape | internal/services/download.go:82-197 | A failed download errors the book with an empty path, then errors an existing row with the message as path; the job ends failed at 0 after 10, 30 and 50 |
| DownloadService.FailedBookRow | internal/services/download.go:107-196 | The row read after a failed download's writes is in error, with the message as path for an existing row |
| DownloadService.FailedJobRow | internal/services/download.go:82-120 | The job after a failed download is failed at progress 0 with the message |
| DownloadService.DownloadFailurePairedState | internal/services/download.go:82-197 | After a failed download the job is failed at 0 with the message and the book's row is in error, with an empty path when this job inserted it and the message as path otherwise |
| DownloadService.NewBookSucceededUpdates | internal/services/download.go:183-220 | A successful processNewBook wrote progress 30, 50 and 90 and, unless that write failed, the file path |
| DownloadService.PathWrite | internal/services/download.go:216-219 | The job's path is written exactly when its update succeeds |
| DownloadService.CompletedJobProgress | internal/services/download.go:70-200 | A job completed through processNewBook has the progress values 10, 30, 50, 90, 100 recorded, in that order |
| DownloadService.CompletedJobUpdates | internal/services/download.go:70-200 | A completed job's writes are progress 10, 30, 50 and 90, the file path unless that write failed, then completed at 100 |
| DownloadService.ProgressValuesOfRun | internal/services/download.go:183-220 | The progress values of a completed job's run of updates (10, the two download steps, 90, the path if written, 100) are 10, 30, 50, 90, 100 |
| DownloadService.MappedNameParts | backend/internal/anna/utils.go:76-77 | A name c.f equal to t.f with '/' made '_' has c equal to t so mapped, and f holds no '/' |
| DownloadService.WrittenNameParts | backend/internal/anna/utils.go:76-77 | The name Download writes splits into the mapped title and a format without '/' |
| DownloadService.PlaceholderNameLength | internal/services/download.go:202-206 | The cleaned start of the hash never has the length of the placeholder title |
| DownloadService.MappedSameOrUntitled | internal/services/download.go:202-209 | A name that is t with '/' mapped and is t or the fallback name is t |
| DownloadService.MappedCleanTitle | internal/services/download.go:202-209 | A cleaned name equal to the mapped title forces a clean, real title |
| DownloadService.MatchForcesCleanTitle | internal/services/download.go:202-209 | A recorded name equal to the name Download wrote forces a clean, real title |
| DownloadService.CleanTitleWrittenAsIs | backend/internal/anna/utils.go:76-78 | A clean title and a format without '/' are written under exactly title.format |
| DownloadService.StoredPathMatchesWrittenIff | internal/services/download.go:185-209 | The recorded path is the file Download wrote exactly when the title is not a placeholder, the cleaner leaves it unchanged and the format holds no '/' |
| Intake.GatekeepReplies | internal/api/routes/books/download.go:18-51 | The gate answers 401 exactly without a user and 409 exactly for a repeated request; it answers 429 only for a non-admin at the limit; a request that gets through was counted or made by an admin |
| Intake.LastErrFromFailedUpdate | internal/api/routes/books/download.go:77-95 | The error checked again before the insert is set only by a failed update, but a failed ghost-mode update followed by a successful requester update is forgotten |
| Intake.UpdatesKeepHashes | internal/repo/book.go:68-78 | Updates by hash leave every row's hash in place |
| Intake.UpdatesKeepUnique | internal/repo/book.go:68-78 | Updates by hash keep hashes unique |
| Intake.InsertOnExistingDuplicates | internal/api/routes/books/download.go:53-120 | The as-written insert on a hash that already has a row leaves two rows for it |
| Intake.InsertOnAbsentKeepsUnique | internal/api/routes/books/download.go:95-120 | An insert only for an unknown hash keeps hashes unique |
| Intake.FailedUpdateInsertsSecondRow | internal/api/routes/books/download.go:77-96 | On a non-ready row with no requester, a failed requester update makes the as-written handler insert while the intended one does not |
| Intake.Admit | internal/api/routes/books/download.go:18-51 | The gate's reply; a missing user or a repeated request leaves the request log unchanged, and any other request goes through the counted check-and-create |
| Intake.ServeReady | internal/api/routes/books/download.go:56-76 | A ready row: ghost mode cleared for a public request on a ghost row and the count raised by one, each only when its write succeeds (a failure is only logged); no job, reply "ready" |
| Intake.TouchExisting | internal/api/routes/books/download.go:77-93 | A row that is not ready: ghost mode cleared for a public request, the requester set only when unset; the returned error is the last assigned one |
| Intake.Finish | internal/api/routes/books/download.go:95-135 | The decided insert, then one pending job: 500 and no job when the insert fails, 500 when the job insert fails, otherwise 201 with the new pending job |
| Intake.HandleRequestDownload | internal/api/routes/books/download.go:17-136 | A stopped gate changes no table; a ready row is served with no job, its count raised unless that write fails; otherwise the row is touched or inserted (also after a failed update, as written) and exactly one pending job is created |
| Intake.HandleRequestDownloadIntended | internal/api/routes/books/download.go:53-136 | The same handler with an insert only for an unknown hash: unique hashes stay unique and an existing row never adds a row |
| Intake.HandleDownloadFile | internal/api/routes/books/download.go:167-205 | The file is served iff the hash is given, a row exists, it is ready with a path and the file exists; the count is raised first unless that write fails, which is only logged; every other request changes nothing, with 400 exactly for an empty hash and 404 exactly for an unknown one |
| Quotas.DailyCount | internal/repo/downloadlimit.go:42-57 | A key's count for a day is at most the number of requests |
| Quotas.DailyCountIsCount | internal/repo/downloadlimit.go:42-57 | The count is the number of the key's requests created in `[startOfDay, startOfDay+86400)` |
| Quotas.DailyCountAppend | internal/repo/downloadlimit.go:24-57 | A new request adds one to its own key's count for a day it falls in and nothing to any other count |
| Quotas.Remaining | internal/repo/downloadlimit.go:68-80 | The remaining downloads are 10 minus the count, never below zero |
| Quotas.UnderLimitIffRemaining | internal/repo/downloadlimit.go:59-80 | A key may download exactly when it has downloads remaining |
| Quotas.Recent | internal/repo/downloadlimit.go:181-200 | The rows the cleanup keeps are exactly those created at or after the cutoff |
| Quotas.RequestLog.constructor | internal/repo/downloadlimit.go:18-22 | A new log is empty |
| Quotas.RequestLog.Create | internal/repo/downloadlimit.go:24-40 | One request with the given key, md5 and title, stamped now, is appended when the insert succeeds |
| Quotas.RequestLog.GetDailyCount | internal/repo/downloadlimit.go:42-57 | The day's count is at most the number of requests |
| Quotas.RequestLog.GetRemainingDownloads | internal/repo/downloadlimit.go:68-80 | The remaining downloads are at most 10, and positive exactly when the key may download |
| Quotas.RequestLog.CheckAndCreate | internal/repo/downloadlimit.go:92-118 | A repeated md5 or a key at its limit is refused with no insert; otherwise one request is inserted and true returned; afterwards the md5 is recorded and the day's count grew by one and stays within the limit |
| Quotas.RequestLog.CleanupOldRequests | internal/repo/downloadlimit.go:181-200 | On success exactly the requests created before the cutoff are deleted; a failed DELETE changes nothing and returns "failed to cleanup old requests: " and the error; a failed read of the deleted count returns "failed to get rows affected: " and the error after the rows are gone |
| Quotas.AdmitAllWithinLimit | internal/repo/anonymous.go:69-97 | Requests admitted one at a time never take a key above 10 on a day |
| Quotas.AdmitAllNoRepeats | internal/repo/anonymous.go:69-97 | Requests admitted one at a time never record one (key, md5) pair twice |
| Users.AdjustInverse | internal/repo/requestcredits.go:33-37 | An adjustment is undone by the opposite adjustment |
| Users.FindUser | internal/repo/user.go:32-37 | A read by id finds a user iff one has the id |
| Users.ReadAfterAdjust | internal/repo/requestcredits.go:33-37 | An adjustment moves the adjusted user's credits and tokens by the amounts when the user exists |
| Users.ReadOthersAfterAdjust | internal/repo/requestcredits.go:33-37 | An adjustment leaves every other user's credits and tokens as they were |
| Users.FindAfterAdjust | internal/repo/requestcredits.go:33-37 | After an adjustment the user reads back with the amounts added and other users read as before |
| Users.RoleOrDefault | internal/services/user.go:42-44 | The stored role is never empty, and a given non-empty role is kept |
| Users.UserStore.constructor | internal/repo/user.go:16-20 | A new store has no user |
| Users.UserStore.Insert | internal/repo/user.go:22-30 | A user with a fresh id is appended when the insert succeeds |
| Users.UserStore.FreshIds | internal/services/user.go:47-56 | Two fresh ids: the user's and the session's, different and unused |
| Users.UserStore.FreshId | internal/services/user.go:47-56 | One fresh id, used by no stored user |
| Users.UserStore.AdjustUser | internal/repo/requestcredits.go:33-37 | Adds to a user's credits and tokens; an absent id changes nothing |
| Users.CreateUser | internal/services/user.go:31-64 | A taken name gives ErrUsernameTaken and an insert error is returned, both with no change; otherwise one user is appended with the role defaulted to "user", no invite tokens, the given credits and fresh distinct ids; unique names stay unique |
| Credits.AdjustKeepsNonNegative | internal/repo/requestcredits.go:100-116 | Taking a covered amount, or adding a non-negative one, keeps every balance non-negative |
| Credits.DebitBalances | internal/repo/requestcredits.go:112-116 | Taking a covered amount lowers the balance by exactly that amount and leaves it non-negative |
| Credits.CreditLedger.constructor | internal/repo/requestcredits.go:18-23 | A new ledger has an empty log |
| Credits.CreditLedger.Append | internal/repo/requestcredits.go:40-49 | One log row is appended |
| Credits.CreditLedger.Debit | internal/repo/requestcredits.go:112-140 | The committed use: the balance lowered by the amount, one "used" row, the balance still non-negative |
| Credits.CreditLedger.GrantCredits | internal/repo/requestcredits.go:51-89 | The amount added to the balance and one "granted" row with the admin, or, when the transaction fails, no change at all |
| Credits.CreditLedger.UseCredits | internal/repo/requestcredits.go:92-142 | An unknown user or a balance below the amount fails with no change; otherwise the balance drops by exactly the amount, stays non-negative, and one "used" row with the fixed reason is logged, all together |
| Credits.UpdateUserRequestCredits | internal/repo/requestcredits.go:33-37 | A signed amount is added with no bound check and no log row |
| Credits.UseThenGrantRestores | internal/repo/requestcredits.go:51-140 | A use followed by a grant of the same amount gives the balances back |
| Credits.GetAllUsersCredits | internal/repo/requestcredits.go:165-185 | Every user id, and only those, is mapped to its balance |
| Redemption.FindCode | internal/repo/redemptioncoderepo.go:59-69 | A code is found iff some row has that code text |
| Redemption.Positive | internal/repo/redemptioncoderepo.go:121-135 | A reward is counted only when it is positive: the amount itself or zero |
| Redemption.BumpKeepsWithinMax | internal/api/routes/redemption_codes.go:79-98 | Raising the uses of a code below its maximum keeps every code within its maximum |
| Redemption.AppendKeepsOncePerUser | internal/api/routes/redemption_codes.go:88-98 | Logging a redemption the user had not made keeps each (code, user) pair at most once |
| Redemption.CodeStore.constructor | internal/repo/redemptioncoderepo.go:19-25 | A new store has no code and an empty log |
| Redemption.CodeStore.CreateRedemptionCode | internal/repo/redemptioncoderepo.go:27-56 | The stored code has no use, is not revoked, copies the request's fields, creator and time, and gets a fresh id; a failed insert changes nothing |
| Redemption.CodeStore.GetRedemptionCodeByCode | internal/repo/redemptioncoderepo.go:59-69 | The code with that text when one exists; otherwise an error, never an empty success |
| Redemption.CodeStore.RedeemCode | internal/repo/redemptioncoderepo.go:85-138 | Uses raised by exactly one, one log row with the amounts, and the user's tokens and credits raised only by positive amounts, all committed together or not at all |
| Redemption.CodeStore.RevokeRedemptionCode | internal/repo/redemptioncoderepo.go:171-182 | On success the code's revocation time becomes now, replacing any earlier one; on failure nothing changes and the error is returned after "failed to revoke redemption code: " |
| Redemption.CodeStore.DeleteRedemptionCode | internal/repo/redemptioncoderepo.go:184-192 | On success the table is the old one without the rows with that id, in order; on failure nothing changes and the error is returned after "failed to delete redemption code: " |
| Redemption.VerdictMeaning | internal/api/routes/redemption_codes.go:66-95 | A code passes iff it is not revoked, not expired (an expiry equal to now still passes), not used up and not already redeemed by the user; revocation is reported first |
| Redemption.HandleRedeemCode | internal/api/routes/redemption_codes.go:41-120 | 401 without a user, 500 on any lookup failure; the code is redeemed iff it passes the guards and the transaction commits, with its own rewards echoed; otherwise nothing changes; uses never pass the maximum and each user redeems a code at most once |
| Invites.Lookup | internal/repo/invite.go:63-150 | An invite is found iff a row with the token meets the query (unrevoked, open, or open and owned by the caller) |
| Invites.ClosedAfterUpdate | internal/repo/invite.go:84-150 | Once marked used or revoked, an invite is no longer open for use or revocation |
| Invites.UpdatesKeepTokens | internal/repo/invite.go:101-163 | Marking used and revoking keep every token and touch only the rows with that token |
| Invites.FirstStop | internal/repo/invite.go:174-192 | The retry loop stops at the first draw that fails or gives a token not in use |
| Invites.InviteStore.constructor | internal/repo/invite.go:22-30 | A new store has no invite |
| Invites.InviteStore.GenerateUniqueToken | internal/repo/invite.go:174-192 | The first draw that fails or is unused decides: its error, or its 64 lower-case hex characters, different from every stored token |
| Invites.InviteStore.GetInviteByToken | internal/repo/invite.go:63-71 | An unrevoked invite with the token when one exists, used or not; otherwise the no-rows error |
| Invites.InviteStore.Insert | internal/repo/invite.go:46-60 | An invite with a fresh id and unused token is appended when the insert succeeds |
| Invites.InviteStore.Revoke | internal/repo/invite.go:152-163 | The rows with the token are revoked and no longer open |
| Invites.InviteStore.MarkUsedBy | internal/repo/invite.go:119-127 | The rows with the token are marked used by the invitee and no longer open |
| Invites.InviteStore.CreateInvite | internal/repo/invite.go:32-60 | With no token-balance check, a new unused, unrevoked invite with a fresh 64-character token is appended; a failed draw or insert changes nothing |
| Invites.InviteStore.UseInvite | internal/repo/invite.go:74-134 | Needs an open invite and a free name (else the no-rows or name-taken error, no change); then a user with role "user", no tokens and no credits is added and the invite marked used, together |
| Invites.InviteStore.RevokeInvite | internal/repo/invite.go:136-164 | Needs an open invite owned by the caller; it is revoked with no token refunded; otherwise nothing changes |
| Invites.InviteStore.GetUserInvites | internal/repo/invite.go:166-172 | Exactly the user's invites, each once, newest first |
| TokenInvites.Outstanding | internal/repo/inviterepo.go:60-161 | An inviter's outstanding invites number at most the invites |
| TokenInvites.OutstandingAppend | internal/repo/inviterepo.go:52-58 | A new open invite adds one to its inviter's outstanding count |
| TokenInvites.OutstandingRevoke | internal/repo/inviterepo.go:140-161 | Revoking an open invite with a unique token takes one from its inviter's outstanding count |
| TokenInvites.CreateInvite | internal/repo/inviterepo.go:24-68 | An unknown inviter or one with no token fails; otherwise the invite is inserted and then one token deducted, in two separate steps; on success tokens plus outstanding invites are unchanged |
| TokenInvites.UseInvite | internal/repo/inviterepo.go:82-128 | Needs an open invite; a name-lookup error counts as a free name; the new user gets role "user" and one invite token and the invite is marked used |
| TokenInvites.RevokeInvite | internal/repo/inviterepo.go:130-167 | Needs the caller's open invite; it is revoked and one token returned, so tokens plus outstanding invites are unchanged |
| SearchCache.FindLive | backend/internal/repo/searchcacherepo.go:90-109 | An entry is found iff one has the id and user and expires after now |
| SearchCache.StoredIsReadable | backend/internal/repo/searchcacherepo.go:28-109 | An entry just stored with a fresh id reads back as stored until it expires |
| SearchCache.OldestIndex | backend/internal/repo/searchcacherepo.go:136-146 | The user's entry with the smallest creation time, or none when the user has no entry |
| SearchCache.WithoutIdDeletesOne | backend/internal/repo/searchcacherepo.go:136-146 | With distinct ids, deleting by one entry's id removes exactly that entry |
| SearchCache.SearchCacheRepo.constructor | backend/internal/repo/searchcacherepo.go:20-26 | A new cache is empty |
| SearchCache.SearchCacheRepo.StoreSearchResults | backend/internal/repo/searchcacherepo.go:28-61 | The stored entry has a fresh id, the given results and total, and expires 3600 seconds after creation; it reads back exactly until then |
| SearchCache.SearchCacheRepo.GetSearchCache | backend/internal/repo/searchcacherepo.go:90-110 | The entry is returned iff it has the id and user and has not expired |
| SearchCache.SearchCacheRepo.GetSearchResult | backend/internal/repo/searchcacherepo.go:63-88 | The result at the index of a live entry; an index outside the list is an error naming it |
| SearchCache.SearchCacheRepo.CleanupExpiredCache | backend/internal/repo/searchcacherepo.go:112-126 | Exactly the entries expiring before now are deleted |
| SearchCache.SearchCacheRepo.GetUserCacheCount | backend/internal/repo/searchcacherepo.go:128-134 | The number of the user's entries that have not expired: zero exactly when there is none, at most the number of entries |
| SearchCache.UserLive | backend/internal/repo/searchcacherepo.go:128-134 | Exactly the user's entries that have not expired |
| SearchCache.SearchCacheRepo.DeleteUserOldestCache | backend/internal/repo/searchcacherepo.go:136-146 | Exactly one entry, the user's oldest, is removed when the user has one |
| SearchCache.ExpiryBoundary | backend/internal/repo/searchcacherepo.go:63-117 | An entry expiring exactly now is neither readable nor deleted |
| SearchCache.StoreCounts | backend/internal/repo/searchcacherepo.go:28-134 | Storing a live entry adds one to its user's live count |
| Search.Clamp | internal/api/routes/books/search.go:24-34 | a limit outside 1..50 becomes 20, a negative offset becomes 0, an empty search type becomes "all"; the query is kept |
| Search.Listed | internal/api/routes/books/search.go:77-96 | a stored row is listed as available exactly when it is ready with a file path, under its own hash and title |
| Search.MissingBooks | internal/api/routes/books/search.go:126-134 | an external result is kept exactly when its hash is not among the stored ones |
| Search.MissingAppend | internal/api/routes/books/search.go:126-134 | one more external result adds itself at the end exactly when its hash is not stored |
| Search.StoredHashes | internal/api/routes/books/search.go:113-124 | the existing set holds exactly the requested hashes that some stored row has |
| Search.HashesOf | internal/api/routes/books/search.go:107-111 | the hash list has one entry per external result, in the same order |
| Search.MissingIffUnstored | internal/api/routes/books/search.go:113-134 | with a successful availability read, an external result is listed as missing exactly when no stored row has its hash |
| Search.ListDownloaded | internal/api/routes/books/search.go:76-97 | the loop lists every stored row with its status, one for one and in order |
| Search.FilterMissing | internal/api/routes/books/search.go:126-135 | the loop keeps the unstored external results in order, each marked not available |
| Search.Paginate | internal/api/routes/books/search.go:137-147 | the in-memory page is the slice from the offset, at most limit long, empty when the offset is past the end |
| Search.MissingPage | internal/api/routes/books/search.go:126-147 | the missing total is counted before paging and the page is the paged list of unstored results |
| Search.TotalDownloaded | internal/api/routes/books/search.go:49-99 | The number of stored rows matching the query when downloaded books are wanted and both reads succeed, otherwise 0 |
| Search.AllMissing | internal/api/routes/books/search.go:101-149 | no external result is listed for an anonymous caller, a downloaded-only search or a failed external search, and never more than were found |
| Search.DownloadedPage | internal/api/routes/books/search.go:49-99 | the downloaded list is the listed page of the caller's stored matches, empty when not wanted or when the search fails; the total is the count, 0 when either read fails |
| Search.HandleSearch | internal/api/routes/books/search.go:13-168 | 400 exactly for an empty query; otherwise the clamped paging echoed, both lists as above, the total is the sum of both totals and the next-page flag holds exactly when offset plus limit is below it |
| Static.MatchBookPath | internal/api/routes/static.go:28 | a match is a book or read page type and a non-empty hex hash that rebuild the path exactly |
| Static.MatchesPagePath | internal/api/routes/static.go:28 | every "/book/" or "/read/" path with a non-empty hex hash matches, with its own page type and hash as submatches |
| Static.Escape | internal/api/routes/static.go:188-241 | HTML escaping never shortens the text |
| Static.EscapeIsInert | internal/api/routes/static.go:188-241 | escaped text holds no quote, angle bracket or NUL, so it cannot end an attribute or start a tag |
| Static.EscapePlain | internal/api/routes/static.go:188-241 | text without special characters is left unchanged |
| Static.UnescapeEscape | internal/api/routes/static.go:188-241 | escaping text without NUL loses nothing: unescaping gives the text back |
| Static.AuthorInfo | internal/api/routes/static.go:157-160 | the author suffix is empty exactly when there are no authors, and otherwise " by " and the authors |
| Static.Texts | internal/api/routes/static.go:162-171 | the page title, OpenGraph title and description for read pages and for book pages |
| Static.CoverImage | internal/api/routes/static.go:173-181 | the cover is the cover URL when absolute, else the cover data when absolute, else nothing |
| Static.Tags | internal/api/routes/static.go:184-243 | eleven tags with a cover and eight without |
| Static.ImageTagsWithCover | internal/api/routes/static.go:213-231 | with a cover, og:image, twitter:card and twitter:image follow og:type, carrying the escaped cover |
| Static.NoImageTagsWithoutCover | internal/api/routes/static.go:213-231 | without a cover no image or card tag is written, and og:type is still there |
| Static.WriteTag | internal/api/routes/static.go:184-243 | one buffer write extends the joined tags by the separator and the next tag |
| Static.GenerateBookMetaTags | internal/api/routes/static.go:152-244 | nothing for a missing book; otherwise the rendered tags joined by a newline and indent |
| Static.ReplaceFirstSpec | internal/api/routes/static.go:140 | only the first placeholder is replaced: the text before it holds none, and text without one is unchanged |
| Static.SiteCache.constructor | internal/api/routes/static.go:24-29 | the cache starts empty |
| Static.SiteCache.LoadIndexHTML | internal/api/routes/static.go:85-96 | a successful read replaces the cached page; a failed one is returned and leaves the cache as it was |
| Static.SiteCache.ServeIndexWithMeta | internal/api/routes/static.go:99-149 | 404 exactly when the cache is empty and the fallback read fails; otherwise the page with the meta tags of a stored book put in place of the placeholder, or the page unchanged |
| Static.SiteCache.ServeCatchAll | internal/api/routes/static.go:63-81 | /api/ paths are not found, existing files are served, every other path gets the page, with a 404 exactly when neither the cache nor the fallback read has it |
| Uploads.Ext | internal/utils/file_upload.go:62 | the extension is a suffix of the path, starts with a dot and holds no other dot or slash; there is none only when every dot is followed by a slash |
| Uploads.GetFileExtension | internal/utils/file_upload.go:183-189 | the extension without its leading dot, empty when there is none |
| Uploads.ValidateFile | internal/utils/file_upload.go:55-88 | too large first; otherwise accepted exactly when the lower-cased extension is allowed, with the format message otherwise |
| Uploads.ValidateBookFile | internal/utils/file_upload.go:55-70 | over 500 MiB is refused with its message; otherwise accepted exactly for a book extension in any case |
| Uploads.ValidateImageFile | internal/utils/file_upload.go:73-88 | over 10 MiB is refused with its message; otherwise accepted exactly for an image extension in any case |
| Uploads.GenerateUniqueFilename | internal/utils/file_upload.go:104-110 | the name is the id, an underscore, eight lower-case hex digits and the extension |
| Uploads.DistinctIdsDistinctNames | internal/utils/file_upload.go:104-110 | names built from different non-negative ids differ, whatever the random bytes and extensions |
| Uploads.FormatFileSize | internal/utils/file_upload.go:160-171 | below 1024 the exact byte count; otherwise the unit letter of the largest power of 1024 not above the size, within K to E |
| Uploads.StripDataPrefix | internal/utils/file_upload.go:127-130 | everything up to and including the first comma is dropped; text without a comma is kept |
| Uploads.StripAfterPrefix | internal/utils/file_upload.go:127-130 | after a comma-free data-URI prefix, exactly the payload is left |
| Uploads.InlineImageRoundTrip | internal/utils/file_upload.go:127-137 | hex-encoded bytes behind a comma-free prefix decode back to those bytes |
| Uploads.UploadDir.constructor | internal/utils/file_upload.go:113-118 | the directory starts empty |
| Uploads.UploadDir.DeleteFile | internal/utils/file_upload.go:91-101 | an empty path and a missing file are no error; a removal failure is wrapped and changes nothing; otherwise the file is gone |
| Uploads.UploadDir.SaveBase64Image | internal/utils/file_upload.go:121-148 | directory, decode and write failures in that order, each wrapped and changing nothing; on success the decoded bytes are stored under the generated name in the directory, and that path is returned |
| Passwords.Matches | internal/utils/validation.go:5-9 | a one-class pattern matches exactly when some character is in the class |
| Passwords.LengthsCompare | internal/utils/validation.go:12 | a password has at least as many UTF-8 bytes (Go's `len`) as UTF-16 units (JavaScript's `length`), and in ASCII both are its number of characters |
| Passwords.IsValidPassword | internal/utils/validation.go:11-18 | valid exactly when at least 8 UTF-8 bytes long with an ASCII lower-case letter, upper-case letter and digit |
| Passwords.ValidStaysValid | internal/utils/validation.go:11-18 | appending to a valid password keeps it valid; no special character is needed |
| Passwords.NonAsciiLettersDoNotCount | internal/utils/validation.go:6 | letters outside ASCII do not count as lower-case, so such a password is refused |
| Passwords.FailedMessages | frontend/src/lib/utils/passwordValidation.ts:26-44 | the messages of the failed checks in order, empty exactly when none fails, the first failure's message first |
| Passwords.Errors | frontend/src/lib/utils/passwordValidation.ts:24-44 | at most five errors, none exactly when every check passes, and the length message first when the length fails |
| Passwords.ValidatePassword | frontend/src/lib/utils/passwordValidation.ts:23-53 | valid exactly when every enabled requirement is met, exactly when there is no error, with the requirements text |
| Passwords.RequirementPhrases | frontend/src/lib/utils/passwordValidation.ts:55-75 | the length phrase first, then one phrase per enabled requirement |
| Passwords.RequirementsTextStart | frontend/src/lib/utils/passwordValidation.ts:55-77 | the text starts with the length phrase, and is only that phrase when nothing else is enabled |
| Passwords.DefaultsAgreeWithServer | frontend/src/lib/utils/passwordValidation.ts:9-15 | with the default requirements every password the client accepts is accepted by the server, and on ASCII passwords the two accept exactly the same ones |
| Passwords.DefaultsDisagreeBeyondAscii | frontend/src/lib/utils/passwordValidation.ts:26 | "Aa1" followed by four e-acute is 11 bytes but 7 UTF-16 units: the server accepts it and the client refuses it |
| Passwords.Score | frontend/src/lib/utils/passwordValidation.ts:82-87 | the score counts five criteria, so it is at most 5 |
| Passwords.PasswordStrength | frontend/src/lib/utils/passwordValidation.ts:79-92 | weak below 6 UTF-16 units |
| Passwords.StrongMeansAll | frontend/src/lib/utils/passwordValidation.ts:79-92 | strong exactly when all five criteria hold, and then the password passes the default checks and the server's rule |
| Generic.Cell.constructor | internal/utils/generic.go:9-14 | a new cell holds the value given |
| Generic.IfNil | internal/utils/generic.go:9-14 | a non-nil cell is returned itself; for nil, a new cell holding the default |
| Generic.Pluralize | internal/utils/generic.go:35-40 | the singular form for exactly one, the plural form for every other count |
| Generic.Wrap64 | internal/utils/generic.go:43-61 | the result is a 64-bit integer congruent to the input, and equal to it when it already fits |
| Generic.NanosExact | internal/utils/generic.go:43-61 | inside the exact range the duration is the expiry in nanoseconds |
| Generic.ExpiryUnderMinute | internal/utils/generic.go:43-61 | under a minute, and every negative expiry that does not wrap, reads "less than a minute" |
| Generic.ExpiryMinutes | internal/utils/generic.go:43-61 | from a minute up to an hour, the whole minutes with the unit pluralised |
| Generic.ExpiryHours | internal/utils/generic.go:43-61 | from an hour up to a day, the whole hours with the unit pluralised |
| Generic.ExpiryDays | internal/utils/generic.go:43-61 | from a day on, while the nanoseconds fit, the whole days with the unit pluralised |
| Generic.ExpiryWraps | internal/utils/generic.go:43-61 | one second past the exact range the duration wraps negative and reads "less than a minute" |
| Columns.ColumnName | internal/repo/repos.go:62-71 | the db tag, or the lower-cased field name when the tag is missing or "-" |
| Columns.AllNames | internal/repo/repos.go:62-74 | one column per field, in declaration order |
| Columns.SafeNames | internal/repo/repos.go:70-72 | a column is safe exactly when some field with that column has a safe tag of "true" |
| Columns.NoSafeFields | internal/repo/repos.go:78-79 | with no safe field the plain safe list is empty and the prefixed one is a lone colon |
| Columns.AllSafeFields | internal/repo/repos.go:68-72 | with every field safe the safe list is the whole list |
| Columns.PrefixedJoin | internal/repo/repos.go:75-79 | the prefixed rendering puts a colon in front of every column |
| Columns.ExtractColumns | internal/repo/repos.go:53-89 | the loop yields the full and safe column lists with both renderings of each |
| LocalFavorites.Initial | frontend/src/lib/utils/localFavorites.ts:13-23 | nothing stored, unparseable storage or no browser give an empty list |
| LocalFavorites.LocalFavoritesStore.constructor | frontend/src/lib/utils/localFavorites.ts:13-23 | the store starts with the list read from storage |
| LocalFavorites.LocalFavoritesStore.Persist | frontend/src/lib/utils/localFavorites.ts:27-47 | the list is written to storage when there is a browser, and is not changed |
| LocalFavorites.LocalFavoritesStore.Add | frontend/src/lib/utils/localFavorites.ts:27-38 | a present hash changes nothing; otherwise one entry is appended and saved; the hash is present afterwards and hashes stay distinct |
| LocalFavorites.LocalFavoritesStore.Remove | frontend/src/lib/utils/localFavorites.ts:39-47 | every entry with the hash is dropped, the others are kept in order and saved, and hashes stay distinct |
| LocalFavorites.LocalFavoritesStore.IsFavorited | frontend/src/lib/utils/localFavorites.ts:48-55 | true exactly when some entry has the hash |
| LocalFavorites.LocalFavoritesStore.GetCount | frontend/src/lib/utils/localFavorites.ts:56-63 | the number of entries |
| LocalFavorites.AddThenRemove | frontend/src/lib/utils/localFavorites.ts:27-47 | adding an absent hash and removing it gives the list back |
| Notifications.IdFor | frontend/src/lib/stores/notifications.ts:13-16 | every id starts with "notification-" |
| Notifications.IdsDiffer | frontend/src/lib/stores/notifications.ts:13-16 | different counter values give different ids |
| Notifications.DurationOf | frontend/src/lib/stores/notifications.ts:17-21 | the caller's duration, or 5000 ms when none is given |
| Notifications.NotificationCenter.constructor | frontend/src/lib/stores/notifications.ts:11-13 | no notifications, no timers, and the counter at 0 |
| Notifications.NotificationCenter.AddNotification | frontend/src/lib/stores/notifications.ts:15-33 | the next id, the notification appended with its duration, a timer only for a positive duration; the id is new, so ids stay distinct |
| Notifications.NotificationCenter.RemoveNotification | frontend/src/lib/stores/notifications.ts:35-37 | the entries with that id are dropped and the rest kept in order |
| Notifications.NotificationCenter.ClearAllNotifications | frontend/src/lib/stores/notifications.ts:39-41 | the list is emptied while the counter keeps its value |
| Notifications.NotificationCenter.ShowSuccess | frontend/src/lib/stores/notifications.ts:44-45 | a success notification with the default duration and its timer |
| Notifications.NotificationCenter.ShowWarning | frontend/src/lib/stores/notifications.ts:50-51 | a warning notification with the default duration and its timer |
| Notifications.NotificationCenter.ShowInfo | frontend/src/lib/stores/notifications.ts:53-54 | an info notification with the default duration and its timer |
| Notifications.NotificationCenter.ShowError | frontend/src/lib/stores/notifications.ts:47-48 | an error notification with duration 0, for which no timer is scheduled |
| Notifications.Without | frontend/src/lib/stores/notifications.ts:35-37 | an entry is kept exactly when its id differs |
| Notifications.AddThenRemove | frontend/src/lib/stores/notifications.ts:15-37 | removing the id just added gives the list back as it was before the add |
| Hex.EncodeToString | internal/utils/file_upload.go:108 | the hex text is twice as long as the bytes |
| Hex.EncodeIsLowerHex | internal/utils/file_upload.go:108 | the hex text uses only lower-case hex digits |
| Hex.DecodeString | internal/utils/file_upload.go:133 | decoded bytes are half as many as the hex characters |
| Hex.DecodeEncode | internal/utils/file_upload.go:108-133 | decoding the hex text of some bytes gives those bytes back |
| Hex.EncodeDecode | internal/utils/file_upload.go:108-133 | lower-case hex text that decodes is re-encoded to itself |
| Hex.OddLengthFails | internal/utils/file_upload.go:133-136 | hex text of odd length never decodes |

## Left out

- Concurrency and timing: the poller's goroutines, sleeps and context cancellation (internal/services/download.go:36-65), and the loop-variable capture in its dispatch. One poll step is modelled sequentially. The jobs are processed in list order, and a panic stops the round, since a panicking goroutine ends the Go process.
- The colly collector, its callbacks and mutex, the goquery selectors and URL resolution. Result anchors and cards are abstract records holding the texts, links and image sources the parser reads.
- Network and file-system I/O: HTTP requests, JSON decoding of the fast-download reply, copying the body, `os.Stat`, `os.Create`, `os.MkdirAll` and `os.WriteFile`. Each is a parameter holding its result.
- SQL text, placeholders and migrations. Tables are sequences of rows. `LIKE '%q%'` matching is a substring test in which `%` and `_` in the query are not wildcards. Uniqueness constraints that are not visible in code are not assumed, so two rows may share a hash.
- A transaction is one atomic method whose failure (`txErr`) leaves every table unchanged. Where the code checks several statements of one transaction, their failures are folded into that one parameter.
- Database read failures are modelled only where the code branches on them. Elsewhere reads are taken to succeed.
- Check-then-act races between concurrent requests (intake against job creation, redemption maximum uses, username checks). Only sequential calls are modelled.
- Clocks and randomness. `now`, the start of the day, snowflake ids and random bytes are parameters. A store's fresh ids come from a counter it keeps.
- Invites.InviteStore.GenerateUniqueToken: the unbounded retry loop draws from a given finite list of random results, and the list is required to contain a draw that ends the loop. A run of colliding tokens that never ends is not modelled. A failed existence read counts as "token unused" in the code; the model takes that read to succeed.
- GetUserInviteTokens (internal/repo/inviterepo.go:178-183) is a single column read and is not modelled.
- Reporting reads that only select and return rows are not modelled. These are GetUserDownloadHistory, GetDownloadsByMD5, GetDailyDownloadStats, CountAllDownloads, CountActiveUsers, GetRecentDownloads, GetTopDownloadedBooks, GetUserCreditHistory, CountUserCreditHistory, GetUserRequestCredits, ListRedemptionCodes and CountRedemptionCodes.
- Quotas.RequestLog.CleanupOldRequests takes the cutoff time, not the number of days. The subtraction from the clock is not modelled.
- Uploads.FormatFileSize: only the branch below 1024 is exact text. For larger sizes the result is the divisor and unit letter, not the `%.1f` floating-point figure.
- SaveUploadedFile, EnsureUploadDir, GetFileSize and GenerateHash (internal/utils/file_upload.go) are file-system calls or a random name. Only their outcomes appear, as parameters of the modelled operations.
- StripUnsafeFields (internal/utils/generic.go:16-33) works by reflection and is not modelled. ExtractColumns takes the field list directly instead of reading the type.
- Static: the file server, the environment lookup of the front-end directory, `filepath.Join` clean-up of the requested path, and the read-write mutex around the cached page. Whether a requested file exists is a parameter.
- Static.Escape models `template.HTMLEscapeString` on bytes. A NUL byte becomes the three bytes of U+FFFD, so the round trip is proved only for text without NUL.
- JSON: request and response bodies, the search-cache results column (the model keeps the list) and the favorites in local storage (the model keeps the parsed list, or the fact that nothing parses). LocalFavorites.Initial treats a stored value that parses to something other than a list as a list.
- Notifications: timers are recorded, not run. A caller that passes an explicit `duration: undefined` is modelled like one that passes no duration.
- The authentication middleware, routers, cookies and the server's start-up code. The caller's identity and role are inputs.
- Unchecked writes of the download service: it never reads the result of its job status writes, of the book status writes after a failure or in the fast path, nor of the fast path's job path write (internal/services/download.go:82-125 and 183-200). The members below take these writes to succeed. In Go a failing one leaves its row as it was, so a job can stay "downloading" and is never polled again. The one logged write, the job path after a download (internal/services/download.go:216-219), is modelled with its failure (`jobPathErr`).
- DownloadService.Service.ProcessJob: takes the unchecked writes (internal/services/download.go:82-125 and 183-200) to succeed, including the final completed or failed status.
- DownloadService.Service.ProcessSlowPath: takes the unchecked writes (internal/services/download.go:82-125 and 183-200) to succeed.
- DownloadService.Service.MarkFailed: takes the failed job status and the book error status writes (internal/services/download.go:117-122) to succeed.
- DownloadService.Service.ProcessNewBook: takes the unchecked writes (internal/services/download.go:82-125 and 183-200) to succeed.
- DownloadService.Service.DownloadAndRecord: takes the unchecked writes (internal/services/download.go:82-125 and 183-200) to succeed.
- DownloadService.Service.Fetch: takes the progress 30 and 50 writes and the book error status writes (internal/services/download.go:183-198) to succeed.
- DownloadService.Service.Record: takes the progress 90 write (internal/services/download.go:200) to succeed; the job path write may fail.
- DownloadService.Service.PollStep: takes the unchecked writes (internal/services/download.go:82-125 and 183-200) to succeed for every job it processes.
- DownloadService.Service.ProcessTaken: takes the unchecked writes (internal/services/download.go:82-125 and 183-200) to succeed for every job it processes.
- DownloadService.RunJob: applies every write the service issues; takes the unchecked writes (internal/services/download.go:82-125 and 183-200) to succeed.
- DownloadService.DownloadFailurePairedState: takes the unchecked writes (internal/services/download.go:82-125 and 183-200) to succeed.
- Path joining: `filepath.Join` also cleans the joined path (`.` and `..` segments, repeated slashes). The model joins with one slash and no clean-up. After cleaning, two different file names can give the same path: with an empty title, a hash beginning "._" then six spaces and format "/.", the stored name "._./." and the written name "._." both clean to the same path. The members below hold for the model's join only.
- Filenames.JoinPath: no clean-up of `.`, `..` or repeated separators.
- Filenames.JoinPathInjective: injective for the model's join, not for `filepath.Join`.
- DownloadService.StoredPath: the path is the uncleaned join.
- DownloadService.StoredPathMatchesWrittenIff: the "only if" direction holds for the uncleaned join only.
- AnnaUtils.Download: the file goes to the uncleaned join of folder and name.
- Uploads.UploadDir.SaveBase64Image: the returned and stored path is the uncleaned join (a directory such as "./uploads/" is not cleaned).
- Case folding in searches: SQL `LOWER` is modelled by GoStrings.ToLower (BookRepo.MatchesQuery), which folds only ASCII letters, U+0130 and U+212A. Under a UTF-8 collation PostgreSQL also folds letters such as "É", so a query may match more rows in the database than in the model.
- BookRepo.BookStore.SearchBooks: folds only ASCII letters, U+0130 and U+212A.
- BookRepo.BookStore.SearchBooksForUser: folds only ASCII letters, U+0130 and U+212A.
- BookRepo.BookStore.CountSearchBooks: folds only ASCII letters, U+0130 and U+212A.
- Passwords.DefaultsAgreeWithServer: the client and the server agree in both directions only on ASCII passwords. Beyond ASCII the server counts bytes and the client UTF-16 units, so the server accepts some passwords the client refuses (Passwords.DefaultsDisagreeBeyondAscii).
- Redemption.HandleRedeemCode: the 404 branch (internal/api/routes/redemption_codes.go:61-64) is for a lookup that returns no code and no error. The repository never does that: an unknown code is an error, and the handler answers 500. The branch is therefore not modelled. When re-reading the user after a redemption fails, `GetUserByIDSafe` (internal/repo/user.go:39-44) still returns a zero-valued user, so the code answers zero totals, as the model does.

## Findings

| source | as written | input that shows it | evidently intended | confidence | as-written member | corrected member |
|---|---|---|---|---|---|---|
| internal/api/routes/books/download.go:95 | `if err != nil` decides whether to insert a new row. The variable was last set by the ghost-mode or requester update of an existing row, not by the lookup, so a failed update of an existing row also inserts. | An existing row that is not ready and has no requester, with a failing `UpdateRequestedBy` and a succeeding insert: the table gets a second row with the same hash, and the request still gets its job. | Insert only when the lookup found no row for the hash, so that unique hashes stay unique. | not executed | Intake.HandleRequestDownload (with Intake.FailedUpdateInsertsSecondRow and Intake.InsertOnExistingDuplicates) | Intake.HandleRequestDownloadIntended (with Intake.InsertOnAbsentKeepsUnique) |
