/**
 * The search endpoint: it clamps the request's paging parameters, lists one
 * page of stored books matching the query with an availability status, and,
 * for signed-in users, lists the external search results that have no stored
 * row yet, paginated in memory.
 *
 * The external search and each database read are parameters: their results,
 * or the error each may report, which the handler logs and then carries on without.
 */
module Search {
  import opened Wrappers
  import opened Model
  import opened BookRepo
  import Intake
  import Tables

  const DefaultLimit: int := 20
  const MaxLimit: int := 50
  const TypeAll: string := "all"
  const TypeDownloaded: string := "downloaded"
  const TypeMissing: string := "missing"
  const StatusAvailable: string := "available"
  const StatusNotAvailable: string := "not_available"

  datatype SearchRequest = SearchRequest(query: string, searchType: string, limit: int, offset: int)

  datatype BookWithStatus = BookWithStatus(book: AnnaBook, status: string)

  datatype Pagination = Pagination(limit: int, offset: int, total: int, hasNext: bool)

  datatype SearchResponse = SearchResponse(
    downloadedBooks: seq<BookWithStatus>,
    missingBooks: seq<BookWithStatus>,
    total: int,
    query: string,
    searchType: string,
    pagination: Pagination)

  datatype SearchReply =
    | BadRequest                       // 400, "query is required"
    | Found(response: SearchResponse)  // 200

  /** The request with its paging parameters and search type defaulted. */
  function Clamp(req: SearchRequest): (r: SearchRequest)
    ensures r.query == req.query
    ensures 1 <= r.limit <= MaxLimit && r.offset >= 0 && r.searchType != ""
    ensures r.limit == if 1 <= req.limit <= MaxLimit then req.limit else DefaultLimit
    ensures r.offset == if req.offset >= 0 then req.offset else 0
    ensures r.searchType == if req.searchType == "" then TypeAll else req.searchType
  {
    var limit := if req.limit <= 0 || req.limit > MaxLimit then DefaultLimit else req.limit;
    var offset := if req.offset < 0 then 0 else req.offset;
    var searchType := if req.searchType == "" then TypeAll else req.searchType;
    SearchRequest(req.query, searchType, limit, offset)
  }

  /** A stored book can be downloaded when it is ready and has a file. */
  predicate Available(b: SavedBook)
  {
    b.status == BookStatusReady && b.filePath != ""
  }

  /** The metadata record a stored row is listed as (without a URL). */
  function AsAnnaBook(b: SavedBook): AnnaBook
  {
    AnnaBook(b.language, b.format, b.size, b.title, b.publisher, b.authors, "", b.hash, b.coverURL, b.coverData)
  }

  /** A stored row with its status. */
  function Listed(b: SavedBook): (r: BookWithStatus)
    ensures r.status == StatusAvailable <==> Available(b)
    ensures r.book.hash == b.hash && r.book.title == b.title
  {
    BookWithStatus(AsAnnaBook(b), if Available(b) then StatusAvailable else StatusNotAvailable)
  }

  /** The test an external result passes when no stored row has its hash. */
  function NotStored(existing: set<string>): AnnaBook -> bool
  {
    (b: AnnaBook) => b.hash !in existing
  }

  /** The external results without a stored row, in their original order. */
  function MissingBooks(results: seq<AnnaBook>, existing: set<string>): (r: seq<AnnaBook>)
    ensures forall b :: b in r <==> b in results && b.hash !in existing
  {
    Tables.Filter(results, NotStored(existing))
  }

  lemma MissingAppend(results: seq<AnnaBook>, b: AnnaBook, existing: set<string>)
    ensures MissingBooks(results + [b], existing) == MissingBooks(results, existing) + (if b.hash in existing then [] else [b])
  {
    Tables.FilterAppend(results, b, NotStored(existing));
  }

  /** The hashes the availability query reports, of the requested ones. */
  function StoredHashes(rows: seq<SavedBook>, hashes: seq<string>): (s: set<string>)
    ensures forall h :: h in s <==> h in hashes && exists b :: b in rows && b.hash == h
  {
    var found := AvailabilityOf(rows, hashes);
    var s := set a | a in found :: a.hash;
    assert forall h :: h in hashes && (exists b :: b in rows && b.hash == h) ==> h in s by {
      forall h | h in hashes && (exists b :: b in rows && b.hash == h) ensures h in s {
        var b :| b in rows && b.hash == h;
        assert Availability(b.hash, b.status, b.filePath) in found;
      }
    }
    s
  }

  /** The hashes of the external results, in order. */
  function HashesOf(results: seq<AnnaBook>): (r: seq<string>)
    ensures |r| == |results| && forall i :: 0 <= i < |r| ==> r[i] == results[i].hash
  {
    seq(|results|, i requires 0 <= i < |results| => results[i].hash)
  }

  /** When the availability read succeeds, an external result is listed as missing exactly when no stored row has its hash. */
  lemma MissingIffUnstored(rows: seq<SavedBook>, results: seq<AnnaBook>, b: AnnaBook)
    requires b in results
    ensures b in MissingBooks(results, StoredHashes(rows, HashesOf(results))) <==> forall r :: r in rows ==> r.hash != b.hash
  {
    var i :| 0 <= i < |results| && results[i] == b;
    assert HashesOf(results)[i] == b.hash;
  }

  /** Lists stored rows with their status, one by one. */
  method ListDownloaded(books: seq<SavedBook>) returns (out: seq<BookWithStatus>)
    ensures |out| == |books|
    ensures forall i :: 0 <= i < |books| ==> out[i] == Listed(books[i])
  {
    out := [];
    var i := 0;
    while i < |books|
      invariant 0 <= i <= |books| && |out| == i
      invariant forall j :: 0 <= j < i ==> out[j] == Listed(books[j])
    {
      out := out + [Listed(books[i])];
      i := i + 1;
    }
  }

  /** Keeps the external results whose hash is not stored, in order. */
  method FilterMissing(results: seq<AnnaBook>, existing: set<string>) returns (out: seq<BookWithStatus>)
    ensures |out| == |MissingBooks(results, existing)|
    ensures forall k :: 0 <= k < |out| ==> out[k] == BookWithStatus(MissingBooks(results, existing)[k], StatusNotAvailable)
  {
    out := [];
    var i := 0;
    while i < |results|
      invariant 0 <= i <= |results|
      invariant |out| == |MissingBooks(results[..i], existing)|
      invariant forall k :: 0 <= k < |out| ==> out[k] == BookWithStatus(MissingBooks(results[..i], existing)[k], StatusNotAvailable)
    {
      var b := results[i];
      MissingAppend(results[..i], b, existing);
      assert results[..i + 1] == results[..i] + [b];
      if b.hash !in existing {
        out := out + [BookWithStatus(b, StatusNotAvailable)];
      }
      i := i + 1;
    }
    assert results[..i] == results;
  }

  /** The in-memory page `[offset, min(offset + limit, n))` of a list, empty from `offset >= n` on. */
  method Paginate(items: seq<BookWithStatus>, offset: nat, limit: nat) returns (page: seq<BookWithStatus>)
    ensures page == Tables.Page(items, offset, limit)
  {
    var start := offset;
    var end := start + limit;
    if start >= |items| {
      page := [];
    } else {
      if end > |items| {
        end := |items|;
      }
      page := items[start..end];
    }
  }

  /**
   * The external results without a stored row, marked not available and cut
   * to the requested page, with their count before paging.
   */
  method MissingPage(results: seq<AnnaBook>, existing: set<string>, offset: nat, limit: nat)
    returns (page: seq<BookWithStatus>, total: nat)
    ensures total == |MissingBooks(results, existing)|
    ensures |page| == |Tables.Page(MissingBooks(results, existing), offset, limit)|
    ensures forall k :: 0 <= k < |page| ==>
              page[k] == BookWithStatus(Tables.Page(MissingBooks(results, existing), offset, limit)[k], StatusNotAvailable)
  {
    var all := FilterMissing(results, existing);
    total := |all|;
    page := Paginate(all, offset, limit);
  }

  /** Whether the search type asks for stored books. */
  predicate WantsDownloaded(searchType: string)
  {
    searchType == TypeAll || searchType == TypeDownloaded
  }

  /** Whether the search type asks for external results. */
  predicate WantsMissing(searchType: string)
  {
    searchType == TypeAll || searchType == TypeMissing
  }

  /** The stored rows the handler lists: the visible matches for a user, the non-ghost matches otherwise. */
  function DbPage(store: BookStore, caller: Option<Intake.Caller>, c: SearchRequest): seq<SavedBook>
    requires c.limit >= 0 && c.offset >= 0
    reads store
  {
    if caller.Some? then store.SearchBooksForUser(caller.value.id, caller.value.role == Intake.AdminRole, c.query, c.limit, c.offset)
    else store.SearchBooks(c.query, c.limit, c.offset)
  }

  /** The stored hashes the handler sees: none when the list is empty or the availability read fails. */
  function Existing(store: BookStore, results: seq<AnnaBook>, availabilityErr: Option<string>): set<string>
    reads store
  {
    if |results| > 0 && availabilityErr.None? then StoredHashes(store.rows, HashesOf(results)) else {}
  }

  /** The stored-book total the handler reports: the count of all matches, 0 when either read fails or the type skips them. */
  function TotalDownloaded(store: BookStore, c: SearchRequest, searchErr: Option<string>, countErr: Option<string>): (n: nat)
    reads store
    ensures n <= |store.rows|
    ensures WantsDownloaded(c.searchType) && searchErr.None? && countErr.None? ==>
              n == |set k | 0 <= k < |store.rows| && MatchesQuery(store.rows[k], c.query)|
    ensures !WantsDownloaded(c.searchType) || searchErr.Some? || countErr.Some? ==> n == 0
  {
    if WantsDownloaded(c.searchType) && searchErr.None? && countErr.None? then store.CountSearchBooks(c.query) else 0
  }

  /** All external results the handler lists before paging: only for a signed-in caller whose search succeeded. */
  function AllMissing(store: BookStore, caller: Option<Intake.Caller>, c: SearchRequest,
                      external: Result<seq<AnnaBook>>, availabilityErr: Option<string>): (r: seq<AnnaBook>)
    reads store
    ensures caller.None? || !WantsMissing(c.searchType) || external.Err? ==> r == []
    ensures external.Ok? ==> |r| <= |external.value|
  {
    if caller.Some? && WantsMissing(c.searchType) && external.Ok?
    then MissingBooks(external.value, Existing(store, external.value, availabilityErr)) else []
  }

  /** The listed page of stored matches and the total the handler reports for them. */
  method DownloadedPage(store: BookStore, caller: Option<Intake.Caller>, c: SearchRequest,
                        searchErr: Option<string>, countErr: Option<string>)
    returns (books: seq<BookWithStatus>, total: nat)
    requires c.limit >= 0 && c.offset >= 0
    ensures total == TotalDownloaded(store, c, searchErr, countErr)
    ensures !WantsDownloaded(c.searchType) || searchErr.Some? ==> books == []
    ensures WantsDownloaded(c.searchType) && searchErr.None? ==>
              |books| == |DbPage(store, caller, c)|
              && forall i :: 0 <= i < |books| ==> books[i] == Listed(DbPage(store, caller, c)[i])
  {
    books, total := [], 0;
    if WantsDownloaded(c.searchType) {
      var dbTotal := 0;
      if searchErr.None? {
        if countErr.None? {
          dbTotal := store.CountSearchBooks(c.query);
        }
        books := ListDownloaded(DbPage(store, caller, c));
      }
      total := dbTotal;
    }
  }

  /**
   * HandleSearch: 400 for an empty query; otherwise the clamped request, the
   * listed page of stored matches with its total, the page of external results
   * without a stored row with their total counted before paging, and the
   * combined total with a next-page flag.
   */
  method HandleSearch(store: BookStore, caller: Option<Intake.Caller>, req: SearchRequest,
                      external: Result<seq<AnnaBook>>,
                      searchErr: Option<string>, countErr: Option<string>, availabilityErr: Option<string>)
    returns (reply: SearchReply)
    ensures req.query == "" <==> reply == BadRequest
    ensures reply.Found? ==>
              && reply.response.query == req.query
              && reply.response.searchType == Clamp(req).searchType
              && reply.response.pagination.limit == Clamp(req).limit
              && reply.response.pagination.offset == Clamp(req).offset
    ensures reply.Found? && WantsDownloaded(Clamp(req).searchType) && searchErr.None? ==>
              var page := DbPage(store, caller, Clamp(req));
              |reply.response.downloadedBooks| == |page|
              && forall i :: 0 <= i < |page| ==> reply.response.downloadedBooks[i] == Listed(page[i])
    ensures reply.Found? && (!WantsDownloaded(Clamp(req).searchType) || searchErr.Some?) ==> reply.response.downloadedBooks == []
    ensures reply.Found? ==>
              var page := Tables.Page(AllMissing(store, caller, Clamp(req), external, availabilityErr), Clamp(req).offset, Clamp(req).limit);
              |reply.response.missingBooks| == |page|
              && forall k :: 0 <= k < |page| ==> reply.response.missingBooks[k] == BookWithStatus(page[k], StatusNotAvailable)
    ensures reply.Found? ==>
              var total := TotalDownloaded(store, Clamp(req), searchErr, countErr) + |AllMissing(store, caller, Clamp(req), external, availabilityErr)|;
              && reply.response.total == total
              && reply.response.pagination.total == total
              && (reply.response.pagination.hasNext <==> Clamp(req).offset + Clamp(req).limit < total)
  {
    if req.query == "" {
      return BadRequest;
    }
    var c := Clamp(req);
    var downloaded, totalDownloaded := DownloadedPage(store, caller, c, searchErr, countErr);
    var missing: seq<BookWithStatus> := [];
    var totalMissing := 0;
    if caller.Some? && WantsMissing(c.searchType) && external.Ok? {
      missing, totalMissing := MissingPage(external.value, Existing(store, external.value, availabilityErr), c.offset, c.limit);
    }
    var total := totalDownloaded + totalMissing;
    reply := Found(SearchResponse(downloaded, missing, total, req.query, c.searchType,
                                  Pagination(c.limit, c.offset, total, c.offset + c.limit < total)));
  }
}
