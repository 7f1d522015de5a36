/**
 * The `savedbooks` table and the queries and updates of its repository.
 *
 * The table is a sequence of rows in insertion order. `CreateBook` inserts
 * without looking for an existing row with the same hash, so the model allows
 * two rows with one hash; single-row reads return the first such row and every
 * `UPDATE … WHERE hash = $n` changes all of them, as SQL does.
 */
module BookRepo {
  import opened Wrappers
  import opened GoStrings
  import opened Model
  import Tables

  /** The text of Go's `sql.ErrNoRows`, what a single-row query that matches nothing returns. */
  const ErrNoRows: string := "sql: no rows in result set"

  /** The column assignments of the repository's `UPDATE savedbooks SET …` statements. */
  datatype Update =
    | SetStatus(status: string, filePath: string)
    | SetMetadata(status: string, filePath: string, meta: AnnaBook)
    | IncrementCount
    | SetRequestedBy(requestedBy: Option<int>)
    | SetGhost(isGhost: bool)
    | EditDetails(title: string, authors: string, publisher: string)

  /** One row after an update at time `now`; hash, id and creation time never change. */
  function Apply(b: SavedBook, u: Update, now: int): (r: SavedBook)
    ensures r.hash == b.hash && r.id == b.id && r.createdAt == b.createdAt && r.updatedAt == now
  {
    match u
    case SetStatus(st, fp) => b.(status := st, filePath := fp, updatedAt := now)
    case SetMetadata(st, fp, m) =>
      b.(title := m.title, authors := m.authors, publisher := m.publisher, language := m.language,
         format := m.format, size := m.size, coverURL := m.coverURL, coverData := m.coverData,
         status := st, filePath := fp, updatedAt := now)
    case IncrementCount => b.(downloadCount := b.downloadCount + 1, updatedAt := now)
    case SetRequestedBy(rb) => b.(requestedBy := rb, updatedAt := now)
    case SetGhost(g) => b.(isGhost := g, updatedAt := now)
    case EditDetails(t, a, p) => b.(title := t, authors := a, publisher := p, updatedAt := now)
  }

  /** `UPDATE savedbooks SET … WHERE hash = $n`: every row with that hash is updated, no other row. */
  function UpdateWhere(rows: seq<SavedBook>, hash: string, u: Update, now: int): (r: seq<SavedBook>)
    ensures |r| == |rows|
  {
    if rows == [] then []
    else [if rows[0].hash == hash then Apply(rows[0], u, now) else rows[0]] + UpdateWhere(rows[1..], hash, u, now)
  }

  /** Each row is updated exactly when it has the hash. */
  lemma {:induction false} UpdateWhereAt(rows: seq<SavedBook>, hash: string, u: Update, now: int)
    ensures forall i :: 0 <= i < |rows| ==>
              UpdateWhere(rows, hash, u, now)[i] == if rows[i].hash == hash then Apply(rows[i], u, now) else rows[i]
  {
    if rows != [] {
      UpdateWhereAt(rows[1..], hash, u, now);
    }
  }

  /** The row a `SELECT … WHERE hash = $1` returns: the first one with that hash. */
  function FindByHash(rows: seq<SavedBook>, hash: string): (r: Option<SavedBook>)
    ensures r.Some? <==> exists i :: 0 <= i < |rows| && rows[i].hash == hash
    ensures r.Some? ==> r.value in rows && r.value.hash == hash
  {
    if rows == [] then None
    else if rows[0].hash == hash then Some(rows[0])
    else
      assert forall i :: 1 <= i < |rows| ==> rows[i] == rows[1..][i - 1];
      FindByHash(rows[1..], hash)
  }

  /** After an update, the row found for the updated hash is the updated first row; other hashes read as before. */
  lemma {:induction false} FindAfterUpdate(rows: seq<SavedBook>, hash: string, u: Update, now: int, h: string)
    ensures FindByHash(UpdateWhere(rows, hash, u, now), h) ==
            (if h == hash && FindByHash(rows, h).Some? then Some(Apply(FindByHash(rows, h).value, u, now))
             else FindByHash(rows, h))
  {
    if rows != [] {
      var r := UpdateWhere(rows, hash, u, now);
      assert r[1..] == UpdateWhere(rows[1..], hash, u, now);
      FindAfterUpdate(rows[1..], hash, u, now, h);
    }
  }

  /** A sequence of updates of the rows with one hash, applied in order. */
  function UpdatesWhere(rows: seq<SavedBook>, hash: string, us: seq<Update>, now: int): (r: seq<SavedBook>)
    ensures |r| == |rows|
    decreases |us|
  {
    if us == [] then rows
    else UpdateWhere(UpdatesWhere(rows, hash, us[..|us| - 1], now), hash, us[|us| - 1], now)
  }

  /** One more update at the end. */
  lemma UpdatesWhereSnoc(rows: seq<SavedBook>, hash: string, us: seq<Update>, u: Update, now: int)
    ensures UpdatesWhere(rows, hash, us + [u], now) == UpdateWhere(UpdatesWhere(rows, hash, us, now), hash, u, now)
  {
    assert (us + [u])[..|us|] == us;
  }

  /** The row read for a hash after a run of updates of that hash: the first row, updated in turn. */
  function ApplyAll(b: SavedBook, us: seq<Update>, now: int): (r: SavedBook)
    ensures r.hash == b.hash && r.id == b.id && r.createdAt == b.createdAt
    decreases |us|
  {
    if us == [] then b else Apply(ApplyAll(b, us[..|us| - 1], now), us[|us| - 1], now)
  }

  /** Updates of one hash leave the other hashes' rows as they were. */
  lemma {:induction false} FindAfterUpdates(rows: seq<SavedBook>, hash: string, us: seq<Update>, now: int, h: string)
    ensures FindByHash(UpdatesWhere(rows, hash, us, now), h) ==
            (if h == hash && FindByHash(rows, h).Some? then Some(ApplyAll(FindByHash(rows, h).value, us, now))
             else FindByHash(rows, h))
    decreases |us|
  {
    if us != [] {
      var init := us[..|us| - 1];
      FindAfterUpdates(rows, hash, init, now, h);
      FindAfterUpdate(UpdatesWhere(rows, hash, init, now), hash, us[|us| - 1], now, h);
    }
  }

  /** A row appended to the table is found only when no older row has its hash. */
  lemma {:induction false} FindAfterAppend(rows: seq<SavedBook>, b: SavedBook, h: string)
    ensures FindByHash(rows + [b], h) ==
            (if FindByHash(rows, h).Some? then FindByHash(rows, h) else if b.hash == h then Some(b) else None)
  {
    if rows != [] {
      assert (rows + [b])[1..] == rows[1..] + [b];
      FindAfterAppend(rows[1..], b, h);
    }
  }

  /**
   * Row visibility: admins see every row; other users see rows that are not in
   * ghost mode, and ghost rows they requested themselves.
   */
  predicate VisibleTo(b: SavedBook, userId: int, isAdmin: bool)
  {
    isAdmin || !b.isGhost || (b.isGhost && b.requestedBy.Some? && b.requestedBy.value == userId)
  }

  /** The visibility test as a `WHERE` clause. */
  function Visible(userId: int, isAdmin: bool): SavedBook -> bool
  {
    (b: SavedBook) => VisibleTo(b, userId, isAdmin)
  }

  /** No two rows share a hash. */
  ghost predicate UniqueHashes(rows: seq<SavedBook>)
  {
    forall i, j :: 0 <= i < j < |rows| ==> rows[i].hash != rows[j].hash
  }

  /** The rows a `DELETE … WHERE hash = $1` keeps. */
  function OtherHash(hash: string): SavedBook -> bool
  {
    (b: SavedBook) => b.hash != hash
  }

  /** The `WHERE is_ghost = false` clause of the unscoped listing. */
  function NotGhost(): SavedBook -> bool
  {
    (b: SavedBook) => !b.isGhost
  }

  /** The number of download requests for a hash (`COUNT(*) … GROUP BY md5`). */
  function RequestCount(md5s: seq<string>, hash: string): (n: nat)
    ensures n <= |md5s|
    ensures n == 0 <==> hash !in md5s
  {
    if md5s == [] then 0
    else
      assert md5s == [md5s[0]] + md5s[1..];
      (if md5s[0] == hash then 1 else 0) + RequestCount(md5s[1..], hash)
  }

  /** One more request for a hash counts once for that hash and not for any other. */
  lemma {:induction false} RequestCountAppend(md5s: seq<string>, m: string, hash: string)
    ensures RequestCount(md5s + [m], hash) == RequestCount(md5s, hash) + (if m == hash then 1 else 0)
  {
    if md5s != [] {
      assert (md5s + [m])[1..] == md5s[1..] + [m];
      RequestCountAppend(md5s[1..], m, hash);
    }
  }

  /**
   * A row as the download-count listing reads it: the download count is the number
   * of requests for its hash, and the two columns the query does not select,
   * `is_ghost` and `requested_by`, keep their zero values.
   */
  function Counted(b: SavedBook, md5s: seq<string>): (c: SavedBook)
    ensures c.downloadCount == RequestCount(md5s, b.hash) && !c.isGhost && c.requestedBy.None?
    ensures c.(isGhost := b.isGhost, requestedBy := b.requestedBy, downloadCount := b.downloadCount) == b
  {
    b.(isGhost := false, requestedBy := None, downloadCount := RequestCount(md5s, b.hash))
  }

  /** Every row as the download-count listing reads it (the `LEFT JOIN` on the grouped requests). */
  function WithCounts(rows: seq<SavedBook>, md5s: seq<string>): (r: seq<SavedBook>)
    ensures |r| == |rows|
    ensures forall i :: 0 <= i < |rows| ==> r[i] == Counted(rows[i], md5s)
  {
    if rows == [] then []
    else [Counted(rows[0], md5s)] + WithCounts(rows[1..], md5s)
  }

  /** A row of the download-count listing: some table row as that listing reads it. */
  predicate CountedFrom(rows: seq<SavedBook>, md5s: seq<string>, x: SavedBook)
  {
    exists i :: 0 <= i < |rows| && x == Counted(rows[i], md5s)
  }

  /** Rows drawn from the counted listing are counted rows. */
  lemma CountedRows(rows: seq<SavedBook>, md5s: seq<string>, r: seq<SavedBook>)
    requires forall k :: 0 <= k < |r| ==> r[k] in WithCounts(rows, md5s)
    ensures forall k :: 0 <= k < |r| ==> !r[k].isGhost && r[k].requestedBy.None?
    ensures forall k :: 0 <= k < |r| ==> CountedFrom(rows, md5s, r[k])
  {
    var counted := WithCounts(rows, md5s);
    forall k | 0 <= k < |r|
      ensures CountedFrom(rows, md5s, r[k])
    {
      var i :| 0 <= i < |counted| && r[k] == counted[i];
      assert r[k] == Counted(rows[i], md5s);
    }
  }

  /** The case-insensitive `LIKE '%query%'` test on title, authors and publisher. */
  predicate MatchesQuery(b: SavedBook, query: string)
  {
    var q := ToLower(query);
    Contains(ToLower(b.title), q) || Contains(ToLower(b.authors), q) || Contains(ToLower(b.publisher), q)
  }

  /** Rows deleted by the failed-book cleanup. */
  predicate FailedBefore(b: SavedBook, cutoff: int)
  {
    b.status == BookStatusError && b.createdAt < cutoff
  }

  /** The rows the failed-book cleanup keeps, in table order. */
  function Survivors(rows: seq<SavedBook>, cutoff: int): (r: seq<SavedBook>)
    ensures forall b :: b in r <==> b in rows && !FailedBefore(b, cutoff)
  {
    Tables.Filter(rows, b => !FailedBefore(b, cutoff))
  }

  /** The three columns returned by the availability query. */
  datatype Availability = Availability(hash: string, status: string, filePath: string)

  /** The availability rows for a list of hashes (`WHERE hash IN (…)`), in table order. */
  function AvailabilityOf(rows: seq<SavedBook>, hashes: seq<string>): (r: seq<Availability>)
    ensures |r| <= |rows|
    ensures forall a :: a in r <==>
              exists b :: b in rows && b.hash in hashes && a == Availability(b.hash, b.status, b.filePath)
  {
    if rows == [] then []
    else
      var init := rows[..|rows| - 1];
      var last := rows[|rows| - 1];
      assert rows == init + [last];
      AvailabilityOf(init, hashes)
        + (if last.hash in hashes then [Availability(last.hash, last.status, last.filePath)] else [])
  }

  /** An empty hash list selects no row. */
  lemma {:induction false} AvailabilityOfNoHashes(rows: seq<SavedBook>, hashes: seq<string>)
    requires |hashes| == 0
    ensures AvailabilityOf(rows, hashes) == []
  {
    if rows != [] {
      AvailabilityOfNoHashes(rows[..|rows| - 1], hashes);
    }
  }

  class BookStore {
    var rows: seq<SavedBook>
    /** Source of fresh row ids (the snowflake generator). */
    var nextId: int

    ghost predicate Valid()
      reads this
    {
      forall i :: 0 <= i < |rows| ==> rows[i].id < nextId
    }

    constructor ()
      ensures Valid() && rows == []
    {
      rows := [];
      nextId := 1;
    }

    /**
     * CreateBook: gives the book a fresh id, stamps both times with `now` and inserts
     * it. `dbErr` is the database's answer to the insert.
     */
    method CreateBook(book: SavedBook, now: int, dbErr: Option<string>) returns (stored: SavedBook, err: Option<string>)
      requires Valid()
      modifies this
      ensures Valid() && nextId == old(nextId) + 1
      ensures stored == book.(id := old(nextId), createdAt := now, updatedAt := now)
      ensures forall i :: 0 <= i < |old(rows)| ==> old(rows)[i].id != stored.id
      ensures err == dbErr
      ensures rows == if dbErr.None? then old(rows) + [stored] else old(rows)
    {
      stored := book.(id := nextId, createdAt := now, updatedAt := now);
      nextId := nextId + 1;
      err := dbErr;
      if dbErr.None? {
        rows := rows + [stored];
      }
    }

    /** GetBookByHash: the row with that hash, or the no-rows error. */
    function GetBookByHash(hash: string): (r: Result<SavedBook>)
      reads this
      ensures r.Ok? <==> exists i :: 0 <= i < |rows| && rows[i].hash == hash
      ensures r.Ok? ==> r.value in rows && r.value.hash == hash
      ensures r.Err? ==> r.msg == ErrNoRows
    {
      match FindByHash(rows, hash)
      case Some(b) => Ok(b)
      case None => Err(ErrNoRows)
    }

    /** GetBookByHashForUser: the row with that hash, if the user may see one. */
    function GetBookByHashForUser(hash: string, userId: int, isAdmin: bool): (r: Result<SavedBook>)
      reads this
      ensures r.Ok? <==> exists i :: 0 <= i < |rows| && rows[i].hash == hash && VisibleTo(rows[i], userId, isAdmin)
      ensures r.Ok? ==> r.value in rows && r.value.hash == hash && VisibleTo(r.value, userId, isAdmin)
    {
      var visible := Tables.Filter(rows, Visible(userId, isAdmin));
      match FindByHash(visible, hash)
      case Some(b) => Ok(b)
      case None =>
        assert forall i :: 0 <= i < |rows| && VisibleTo(rows[i], userId, isAdmin) ==> rows[i] in visible;
        Err(ErrNoRows)
    }

    /** The rows a user may see, in table order. */
    function VisibleBooks(userId: int, isAdmin: bool): (r: seq<SavedBook>)
      reads this
      ensures forall b :: b in r <==> b in rows && VisibleTo(b, userId, isAdmin)
      ensures isAdmin ==> r == rows
    {
      var r := Tables.Filter(rows, Visible(userId, isAdmin));
      if isAdmin then
        Tables.FilterAll(rows, Visible(userId, isAdmin));
        r
      else r
    }

    /** GetBooksForUser: one page of the visible rows, newest first. */
    function GetBooksForUser(userId: int, isAdmin: bool, limit: nat, offset: nat): (r: seq<SavedBook>)
      reads this
      ensures |r| <= limit
      ensures forall k :: 0 <= k < |r| ==> r[k] in rows && VisibleTo(r[k], userId, isAdmin)
      ensures Tables.SortedDesc(r, (b: SavedBook) => b.createdAt)
      ensures offset == 0 && limit >= |rows| ==>
                forall b :: multiset(r)[b] == if VisibleTo(b, userId, isAdmin) then multiset(rows)[b] else 0
    {
      var visible := VisibleBooks(userId, isAdmin);
      Tables.PageOfSorted(visible, (b: SavedBook) => b.createdAt, offset, limit);
      Tables.FullPageOfSorted(visible, (b: SavedBook) => b.createdAt, offset, limit);
      Tables.FilterMultiset(rows, Visible(userId, isAdmin));
      Tables.Page(Tables.SortDesc(visible, (b: SavedBook) => b.createdAt), offset, limit)
    }

    /** GetBooks: one page of the rows outside ghost mode, newest first. */
    function GetBooks(limit: nat, offset: nat): (r: seq<SavedBook>)
      reads this
      ensures |r| <= limit
      ensures forall k :: 0 <= k < |r| ==> r[k] in rows && !r[k].isGhost
      ensures Tables.SortedDesc(r, (b: SavedBook) => b.createdAt)
      ensures offset == 0 && limit >= |rows| ==>
                forall b :: multiset(r)[b] == if !b.isGhost then multiset(rows)[b] else 0
    {
      var shown := Tables.Filter(rows, NotGhost());
      Tables.PageOfSorted(shown, (b: SavedBook) => b.createdAt, offset, limit);
      Tables.FullPageOfSorted(shown, (b: SavedBook) => b.createdAt, offset, limit);
      Tables.FilterMultiset(rows, NotGhost());
      Tables.Page(Tables.SortDesc(shown, (b: SavedBook) => b.createdAt), offset, limit)
    }

    /** CountBooks: the number of rows outside ghost mode. */
    function CountBooks(): (n: nat)
      reads this
      ensures n == |set k | 0 <= k < |rows| && !rows[k].isGhost|
      ensures n <= |rows|
      ensures (forall k :: 0 <= k < |rows| ==> !rows[k].isGhost) ==> n == |rows|
      ensures n == 0 <==> forall k :: 0 <= k < |rows| ==> rows[k].isGhost
    {
      var shown := Tables.Filter(rows, NotGhost());
      Tables.FilterSize(rows, NotGhost());
      assert Tables.Positions(rows, NotGhost()) == set k | 0 <= k < |rows| && !rows[k].isGhost;
      assert |shown| > 0 <==> exists k :: 0 <= k < |rows| && !rows[k].isGhost by {
        if |shown| > 0 {
          assert shown[0] in rows && NotGhost()(shown[0]);
        }
        if k :| 0 <= k < |rows| && !rows[k].isGhost {
          assert rows[k] in shown;
        }
      }
      if forall k :: 0 <= k < |rows| ==> !rows[k].isGhost then
        Tables.FilterAll(rows, NotGhost());
        |shown|
      else |shown|
    }

    /**
     * GetBooksWithDownloadCount: one page of all rows, ghost rows included, newest
     * first, each carrying the number of download requests for its hash instead of
     * its stored counter. `md5s` is the hash column of the download requests.
     */
    function GetBooksWithDownloadCount(md5s: seq<string>, limit: nat, offset: nat): (r: seq<SavedBook>)
      reads this
      ensures |r| <= limit
      ensures offset == 0 && limit >= |rows| ==> |r| == |rows| && multiset(r) == multiset(WithCounts(rows, md5s))
      ensures forall k :: 0 <= k < |r| ==> !r[k].isGhost && r[k].requestedBy.None?
      ensures forall k :: 0 <= k < |r| ==> CountedFrom(rows, md5s, r[k])
      ensures Tables.SortedDesc(r, (b: SavedBook) => b.createdAt)
    {
      var counted := WithCounts(rows, md5s);
      Tables.PageOfSorted(counted, (b: SavedBook) => b.createdAt, offset, limit);
      var r := Tables.Page(Tables.SortDesc(counted, (b: SavedBook) => b.createdAt), offset, limit);
      Tables.FullPageOfSorted(counted, (b: SavedBook) => b.createdAt, offset, limit);
      CountedRows(rows, md5s, r);
      r
    }

    /** SearchBooksForUser: one page of the visible rows matching the query, newest first. */
    function SearchBooksForUser(userId: int, isAdmin: bool, query: string, limit: nat, offset: nat): (r: seq<SavedBook>)
      reads this
      ensures |r| <= limit
      ensures forall k :: 0 <= k < |r| ==>
                r[k] in rows && VisibleTo(r[k], userId, isAdmin) && MatchesQuery(r[k], query)
      ensures Tables.SortedDesc(r, (b: SavedBook) => b.createdAt)
      ensures offset == 0 && limit >= |rows| ==>
                forall b :: multiset(r)[b] ==
                  if VisibleTo(b, userId, isAdmin) && MatchesQuery(b, query) then multiset(rows)[b] else 0
    {
      var visible := VisibleBooks(userId, isAdmin);
      var hits := Tables.Filter(visible, b => MatchesQuery(b, query));
      Tables.PageOfSorted(hits, (b: SavedBook) => b.createdAt, offset, limit);
      Tables.FullPageOfSorted(hits, (b: SavedBook) => b.createdAt, offset, limit);
      Tables.FilterMultiset(rows, Visible(userId, isAdmin));
      Tables.FilterMultiset(visible, b => MatchesQuery(b, query));
      Tables.Page(Tables.SortDesc(hits, (b: SavedBook) => b.createdAt), offset, limit)
    }

    /** SearchBooks: one page of the rows outside ghost mode matching the query, newest first. */
    function SearchBooks(query: string, limit: nat, offset: nat): (r: seq<SavedBook>)
      reads this
      ensures |r| <= limit
      ensures forall k :: 0 <= k < |r| ==> r[k] in rows && !r[k].isGhost && MatchesQuery(r[k], query)
      ensures Tables.SortedDesc(r, (b: SavedBook) => b.createdAt)
      ensures offset == 0 && limit >= |rows| ==>
                forall b :: multiset(r)[b] == if !b.isGhost && MatchesQuery(b, query) then multiset(rows)[b] else 0
    {
      var hits := Tables.Filter(rows, (b: SavedBook) => !b.isGhost && MatchesQuery(b, query));
      Tables.PageOfSorted(hits, (b: SavedBook) => b.createdAt, offset, limit);
      Tables.FullPageOfSorted(hits, (b: SavedBook) => b.createdAt, offset, limit);
      Tables.FilterMultiset(rows, (b: SavedBook) => !b.isGhost && MatchesQuery(b, query));
      Tables.Page(Tables.SortDesc(hits, (b: SavedBook) => b.createdAt), offset, limit)
    }

    /** CountSearchBooks: the number of rows matching the query, ghost rows included. */
    function CountSearchBooks(query: string): (n: nat)
      reads this
      ensures n == |set k | 0 <= k < |rows| && MatchesQuery(rows[k], query)|
      ensures n <= |rows|
      ensures forall b :: b in rows && MatchesQuery(b, query) ==> n > 0
    {
      Tables.FilterSize(rows, b => MatchesQuery(b, query));
      assert Tables.Positions(rows, b => MatchesQuery(b, query)) == set k | 0 <= k < |rows| && MatchesQuery(rows[k], query);
      |Tables.Filter(rows, b => MatchesQuery(b, query))|
    }

    /** CountBooksForUser: the number of rows the user may see. */
    function CountBooksForUser(userId: int, isAdmin: bool): (n: nat)
      reads this
      ensures n == |set k | 0 <= k < |rows| && VisibleTo(rows[k], userId, isAdmin)|
      ensures n <= |rows|
      ensures isAdmin ==> n == |rows|
    {
      Tables.FilterSize(rows, Visible(userId, isAdmin));
      assert Tables.Positions(rows, Visible(userId, isAdmin)) == set k | 0 <= k < |rows| && VisibleTo(rows[k], userId, isAdmin);
      |VisibleBooks(userId, isAdmin)|
    }

    /** IncrementDownloadCount; `dbErr` is the database's answer. */
    method IncrementDownloadCount(hash: string, now: int, dbErr: Option<string>) returns (err: Option<string>)
      requires Valid()
      modifies this
      ensures Valid() && nextId == old(nextId) && err == dbErr
      ensures rows == if dbErr.None? then UpdateWhere(old(rows), hash, IncrementCount, now) else old(rows)
    {
      err := dbErr;
      if dbErr.None? {
        UpdateWhereAt(rows, hash, IncrementCount, now);
        rows := UpdateWhere(rows, hash, IncrementCount, now);
      }
    }

    /** UpdateRequestedBy; `dbErr` is the database's answer. */
    method UpdateRequestedBy(hash: string, requestedBy: Option<int>, now: int, dbErr: Option<string>)
      returns (err: Option<string>)
      requires Valid()
      modifies this
      ensures Valid() && nextId == old(nextId) && err == dbErr
      ensures rows == if dbErr.None? then UpdateWhere(old(rows), hash, SetRequestedBy(requestedBy), now) else old(rows)
    {
      err := dbErr;
      if dbErr.None? {
        UpdateWhereAt(rows, hash, SetRequestedBy(requestedBy), now);
        rows := UpdateWhere(rows, hash, SetRequestedBy(requestedBy), now);
      }
    }

    /** UpdateBookStatus: status, file path and update time of the rows with that hash; `dbErr` is the database's answer. */
    method UpdateBookStatus(hash: string, status: string, filePath: string, now: int, dbErr: Option<string>)
      returns (err: Option<string>)
      requires Valid()
      modifies this
      ensures Valid() && nextId == old(nextId) && err == dbErr
      ensures rows == if dbErr.None? then UpdateWhere(old(rows), hash, SetStatus(status, filePath), now) else old(rows)
    {
      err := dbErr;
      if dbErr.None? {
        UpdateWhereAt(rows, hash, SetStatus(status, filePath), now);
        rows := UpdateWhere(rows, hash, SetStatus(status, filePath), now);
      }
    }

    /** UpdateBookWithMetadata: the eight metadata columns, status and file path; `dbErr` is the database's answer. */
    method UpdateBookWithMetadata(hash: string, status: string, filePath: string, meta: AnnaBook, now: int,
                                  dbErr: Option<string>)
      returns (err: Option<string>)
      requires Valid()
      modifies this
      ensures Valid() && nextId == old(nextId) && err == dbErr
      ensures rows == if dbErr.None? then UpdateWhere(old(rows), hash, SetMetadata(status, filePath, meta), now) else old(rows)
    {
      err := dbErr;
      if dbErr.None? {
        UpdateWhereAt(rows, hash, SetMetadata(status, filePath, meta), now);
        rows := UpdateWhere(rows, hash, SetMetadata(status, filePath, meta), now);
      }
    }

    /** UpdateGhostMode; `dbErr` is the database's answer. */
    method UpdateGhostMode(hash: string, isGhost: bool, now: int, dbErr: Option<string>) returns (err: Option<string>)
      requires Valid()
      modifies this
      ensures Valid() && nextId == old(nextId) && err == dbErr
      ensures rows == if dbErr.None? then UpdateWhere(old(rows), hash, SetGhost(isGhost), now) else old(rows)
    {
      err := dbErr;
      if dbErr.None? {
        UpdateWhereAt(rows, hash, SetGhost(isGhost), now);
        rows := UpdateWhere(rows, hash, SetGhost(isGhost), now);
      }
    }

    /** UpdateBookMetadata: title, authors and publisher of the rows with that hash; `dbErr` is the database's answer. */
    method UpdateBookMetadata(hash: string, title: string, authors: string, publisher: string, now: int,
                              dbErr: Option<string>)
      returns (err: Option<string>)
      requires Valid()
      modifies this
      ensures Valid() && nextId == old(nextId) && err == dbErr
      ensures rows == if dbErr.None? then UpdateWhere(old(rows), hash, EditDetails(title, authors, publisher), now) else old(rows)
    {
      err := dbErr;
      if dbErr.None? {
        UpdateWhereAt(rows, hash, EditDetails(title, authors, publisher), now);
        rows := UpdateWhere(rows, hash, EditDetails(title, authors, publisher), now);
      }
    }

    /**
     * DeleteFailedBooks: removes the rows in error created before the cutoff and
     * counts them; `dbErr` is the database's answer, on which nothing is removed
     * and the count is 0.
     */
    method DeleteFailedBooks(cutoff: int, dbErr: Option<string>) returns (n: nat, err: Option<string>)
      requires Valid()
      modifies this
      ensures Valid() && nextId == old(nextId) && err == dbErr
      ensures dbErr.Some? ==> rows == old(rows) && n == 0
      ensures dbErr.None? ==> rows == Survivors(old(rows), cutoff)
      ensures dbErr.None? ==> forall b :: b in rows <==> b in old(rows) && !FailedBefore(b, cutoff)
      ensures dbErr.None? ==> n == |Tables.Filter(old(rows), b => FailedBefore(b, cutoff))|
      ensures |rows| + n == |old(rows)|
    {
      err := dbErr;
      n := 0;
      if dbErr.None? {
        var before := rows;
        rows := Survivors(rows, cutoff);
        Tables.FilterComplement(before, b => FailedBefore(b, cutoff), b => !FailedBefore(b, cutoff));
        n := |before| - |rows|;
      }
    }

    /** DeleteBook: removes every row with that hash, keeping the order of the others; `dbErr` is the database's answer. */
    method DeleteBook(hash: string, dbErr: Option<string>) returns (err: Option<string>)
      requires Valid()
      modifies this
      ensures Valid() && nextId == old(nextId) && err == dbErr
      ensures rows == if dbErr.None? then Tables.Filter(old(rows), OtherHash(hash)) else old(rows)
      ensures forall b :: b in rows <==> b in old(rows) && (dbErr.Some? || b.hash != hash)
    {
      err := dbErr;
      if dbErr.None? {
        rows := Tables.Filter(rows, OtherHash(hash));
      }
    }

    /** GetBooksAvailabilityByHashes: hash, status and path of the rows whose hash is listed. */
    method GetBooksAvailabilityByHashes(hashes: seq<string>) returns (r: seq<Availability>)
      ensures r == AvailabilityOf(rows, hashes)
      ensures |hashes| == 0 ==> r == []
    {
      if |hashes| == 0 {
        AvailabilityOfNoHashes(rows, hashes);
        return [];
      }
      r := [];
      var i := 0;
      while i < |rows|
        invariant 0 <= i <= |rows|
        invariant r == AvailabilityOf(rows[..i], hashes)
      {
        var b := rows[i];
        assert rows[..i + 1][..i] == rows[..i];
        if b.hash in hashes {
          r := r + [Availability(b.hash, b.status, b.filePath)];
        }
        i := i + 1;
      }
      assert rows[..i] == rows;
    }
  }

  /** The count agrees with the listing: one page large enough holds every visible row. */
  lemma CountMatchesListing(store: BookStore, userId: int, isAdmin: bool, limit: nat)
    requires limit >= store.CountBooksForUser(userId, isAdmin)
    ensures |store.GetBooksForUser(userId, isAdmin, limit, 0)| == store.CountBooksForUser(userId, isAdmin)
  {
  }

  /** Editing the details changes what a read by hash returns in those three columns and in no other. */
  lemma EditedDetailsRead(rows: seq<SavedBook>, hash: string, title: string, authors: string, publisher: string, now: int)
    requires FindByHash(rows, hash).Some?
    ensures var after := FindByHash(UpdateWhere(rows, hash, EditDetails(title, authors, publisher), now), hash);
            var before := FindByHash(rows, hash).value;
            after == Some(before.(title := title, authors := authors, publisher := publisher, updatedAt := now))
  {
    FindAfterUpdate(rows, hash, EditDetails(title, authors, publisher), now, hash);
  }

  /**
   * For a user who requested no ghost row, the scoped listing and count are the
   * unscoped ones.
   */
  lemma ScopedIsUnscoped(store: BookStore, userId: int, limit: nat, offset: nat)
    requires forall k :: 0 <= k < |store.rows| && store.rows[k].isGhost ==> store.rows[k].requestedBy != Some(userId)
    ensures store.GetBooksForUser(userId, false, limit, offset) == store.GetBooks(limit, offset)
    ensures store.CountBooksForUser(userId, false) == store.CountBooks()
  {
    Tables.FilterAgree(store.rows, Visible(userId, false), NotGhost());
  }
}
