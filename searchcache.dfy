/**
 * The per-user search cache (`search_cache`): a stored result list lives for
 * one hour, is read back whole or by index while it lives, and is deleted by
 * the expiry cleanup or by the eviction of the user's oldest entry.
 *
 * The results column holds the JSON of the list; the model keeps the list.
 */
module SearchCache {
  import opened Wrappers
  import opened GoStrings
  import opened Model
  import Tables

  /** How long an entry lives, in seconds. */
  const TtlSeconds: int := 3600
  const StoreFailedPrefix: string := "failed to store search cache: "
  const NotFoundMsg: string := "search cache not found or expired: sql: no rows in result set"
  const CleanupFailedPrefix: string := "failed to cleanup expired search cache: "

  /** A row of `search_cache`. */
  datatype Entry = Entry(
    id: int,
    userId: int,
    query: string,
    results: seq<AnnaBook>,
    totalResults: int,
    createdAt: int,
    expiresAt: int)

  /** `id = $1 AND user_id = $2 AND expires_at > $3`. */
  predicate Live(e: Entry, userId: int, searchId: int, now: int)
  {
    e.id == searchId && e.userId == userId && e.expiresAt > now
  }

  /** The `user_id = $1 AND expires_at > $2` clause of the count. */
  function UnexpiredFor(userId: int, now: int): Entry -> bool
  {
    (x: Entry) => x.userId == userId && x.expiresAt > now
  }

  /** The user's entries that have not expired, in table order. */
  function UserLive(entries: seq<Entry>, userId: int, now: int): (r: seq<Entry>)
    ensures forall x :: x in r <==> x in entries && x.userId == userId && x.expiresAt > now
  {
    Tables.Filter(entries, UnexpiredFor(userId, now))
  }

  /** The first live entry with that id for that user. */
  function FindLive(entries: seq<Entry>, userId: int, searchId: int, now: int): (r: Option<Entry>)
    ensures r.Some? <==> exists i :: 0 <= i < |entries| && Live(entries[i], userId, searchId, now)
    ensures r.Some? ==> r.value in entries && Live(r.value, userId, searchId, now)
  {
    if entries == [] then None
    else if Live(entries[0], userId, searchId, now) then Some(entries[0])
    else
      assert forall i :: 1 <= i < |entries| ==> entries[i] == entries[1..][i - 1];
      FindLive(entries[1..], userId, searchId, now)
  }

  /** An entry appended with an id no older entry has is what its user reads for that id until it expires. */
  lemma {:induction false} StoredIsReadable(entries: seq<Entry>, e: Entry, now: int)
    requires forall i :: 0 <= i < |entries| ==> entries[i].id != e.id
    requires e.expiresAt > now
    ensures FindLive(entries + [e], e.userId, e.id, now) == Some(e)
  {
    if entries != [] {
      assert (entries + [e])[1..] == entries[1..] + [e];
      StoredIsReadable(entries[1..], e, now);
    }
  }

  /** The index of the user's oldest entry (the first one among equally old entries). */
  function OldestIndex(entries: seq<Entry>, userId: int): (r: Option<nat>)
    ensures r.None? <==> forall i :: 0 <= i < |entries| ==> entries[i].userId != userId
    ensures r.Some? ==> r.value < |entries| && entries[r.value].userId == userId
    ensures r.Some? ==> forall i :: 0 <= i < |entries| && entries[i].userId == userId ==>
                          entries[r.value].createdAt <= entries[i].createdAt
  {
    if entries == [] then None
    else
      var tail := entries[1..];
      assert forall i :: 1 <= i < |entries| ==> entries[i] == tail[i - 1];
      var rest := OldestIndex(tail, userId);
      if entries[0].userId != userId then
        if rest.None? then None else Some(rest.value + 1)
      else if rest.None? || entries[0].createdAt <= tail[rest.value].createdAt then Some(0)
      else Some(rest.value + 1)
  }

  /** The key of the id column. */
  function EntryId(e: Entry): int
  {
    e.id
  }

  /** `DELETE FROM search_cache WHERE id = $1`. */
  function WithoutId(entries: seq<Entry>, id: int): seq<Entry>
  {
    Tables.Filter(entries, (e: Entry) => e.id != id)
  }

  /** With distinct ids, deleting by an entry's id deletes that entry alone and keeps the ids distinct. */
  lemma WithoutIdDeletesOne(entries: seq<Entry>, k: nat)
    requires Tables.DistinctKeys(entries, EntryId) && k < |entries|
    ensures WithoutId(entries, entries[k].id) == entries[..k] + entries[k + 1..]
    ensures Tables.DistinctKeys(WithoutId(entries, entries[k].id), EntryId)
  {
    var victim := entries[k].id;
    var keep := (e: Entry) => e.id != victim;
    forall i | 0 <= i < |entries| && i != k
      ensures keep(entries[i])
    {
      if i < k {
        assert EntryId(entries[i]) != EntryId(entries[k]);
      } else {
        assert EntryId(entries[k]) != EntryId(entries[i]);
      }
    }
    Tables.FilterOutOne(entries, keep, k);
    Tables.FilterKeepsDistinct(entries, EntryId, keep);
  }

  class SearchCacheRepo {
    var entries: seq<Entry>
    /** Source of fresh ids (the snowflake generator). */
    var nextId: int

    ghost predicate Valid()
      reads this
    {
      && (forall i :: 0 <= i < |entries| ==> entries[i].id < nextId)
      && Tables.DistinctKeys(entries, EntryId)
    }

    constructor ()
      ensures Valid() && entries == []
    {
      entries := [];
      nextId := 1;
    }

    /** StoreSearchResults: a fresh entry holding the list and total, expiring an hour after `now`. */
    method StoreSearchResults(userId: int, query: string, books: seq<AnnaBook>, total: int, now: int, dbErr: Option<string>)
      returns (r: Result<Entry>)
      requires Valid()
      modifies this
      ensures Valid()
      ensures dbErr.Some? ==> r == Err(StoreFailedPrefix + dbErr.value) && entries == old(entries)
      ensures dbErr.None? ==> r == Ok(Entry(old(nextId), userId, query, books, total, now, now + TtlSeconds))
                              && entries == old(entries) + [r.value]
      ensures r.Ok? ==> forall t :: now <= t < now + TtlSeconds ==> FindLive(entries, userId, r.value.id, t) == Some(r.value)
    {
      var e := Entry(nextId, userId, query, books, total, now, now + TtlSeconds);
      nextId := nextId + 1;
      if dbErr.Some? {
        return Err(StoreFailedPrefix + dbErr.value);
      }
      forall t | now <= t < now + TtlSeconds
        ensures FindLive(entries + [e], userId, e.id, t) == Some(e)
      {
        StoredIsReadable(entries, e, t);
      }
      entries := entries + [e];
      r := Ok(e);
    }

    /** GetSearchCache: the user's live entry with that id, list and all. */
    function GetSearchCache(userId: int, searchId: int, now: int): (r: Result<Entry>)
      reads this
      ensures r.Ok? <==> exists i :: 0 <= i < |entries| && Live(entries[i], userId, searchId, now)
      ensures r.Ok? ==> r.value in entries && Live(r.value, userId, searchId, now)
      ensures r.Err? ==> r.msg == NotFoundMsg
    {
      match FindLive(entries, userId, searchId, now)
      case Some(e) => Ok(e)
      case None => Err(NotFoundMsg)
    }

    /** GetSearchResult: one result of the user's live entry, by an index inside the list. */
    function GetSearchResult(userId: int, searchId: int, index: int, now: int): (r: Result<AnnaBook>)
      reads this
      ensures GetSearchCache(userId, searchId, now).Err? ==> r == Err(NotFoundMsg)
      ensures r.Ok? <==> GetSearchCache(userId, searchId, now).Ok? && 0 <= index < |GetSearchCache(userId, searchId, now).value.results|
      ensures r.Ok? ==> r.value == GetSearchCache(userId, searchId, now).value.results[index]
      ensures GetSearchCache(userId, searchId, now).Ok? && r.Err? ==> r.msg == "invalid result index: " + IntToString(index)
    {
      match GetSearchCache(userId, searchId, now)
      case Err(m) => Err(m)
      case Ok(e) =>
        if index < 0 || index >= |e.results| then Err("invalid result index: " + IntToString(index))
        else Ok(e.results[index])
    }

    /** CleanupExpiredCache: deletes the entries that expired strictly before `now`. */
    method CleanupExpiredCache(now: int, dbErr: Option<string>) returns (err: Option<string>)
      requires Valid()
      modifies this
      ensures Valid() && nextId == old(nextId)
      ensures dbErr.Some? ==> err == Some(CleanupFailedPrefix + dbErr.value) && entries == old(entries)
      ensures dbErr.None? ==> err.None? && entries == Tables.Filter(old(entries), (e: Entry) => e.expiresAt >= now)
      ensures dbErr.None? ==> forall e :: e in entries <==> e in old(entries) && e.expiresAt >= now
    {
      if dbErr.Some? {
        return Some(CleanupFailedPrefix + dbErr.value);
      }
      var keep := (e: Entry) => e.expiresAt >= now;
      Tables.FilterKeepsDistinct(entries, EntryId, keep);
      entries := Tables.Filter(entries, keep);
      err := None;
    }

    /** GetUserCacheCount: the number of the user's entries that have not expired. */
    function GetUserCacheCount(userId: int, now: int): (n: nat)
      reads this
      ensures n == |UserLive(entries, userId, now)|
      ensures n <= |entries|
      ensures n == 0 <==> forall x :: x in entries ==> x.userId != userId || x.expiresAt <= now
    {
      var live := UserLive(entries, userId, now);
      assert live != [] ==> live[0] in live;
      |live|
    }

    /**
     * DeleteUserOldestCache: deletes the user's oldest entry (by creation time),
     * and only that one; a user without entries changes nothing.
     */
    method DeleteUserOldestCache(userId: int, dbErr: Option<string>) returns (err: Option<string>)
      requires Valid()
      modifies this
      ensures Valid() && nextId == old(nextId) && err == dbErr
      ensures dbErr.Some? || OldestIndex(old(entries), userId).None? ==> entries == old(entries)
      ensures dbErr.None? && OldestIndex(old(entries), userId).Some? ==>
                var k := OldestIndex(old(entries), userId).value;
                entries == old(entries)[..k] + old(entries)[k + 1..]
    {
      err := dbErr;
      var oldest := OldestIndex(entries, userId);
      if dbErr.Some? || oldest.None? {
        return;
      }
      var k := oldest.value;
      WithoutIdDeletesOne(entries, k);
      entries := WithoutId(entries, entries[k].id);
    }
  }

  /**
   * An entry expiring at exactly `now` is past reading and yet survives the
   * cleanup run at `now`.
   */
  lemma ExpiryBoundary(entries: seq<Entry>, e: Entry, now: int)
    requires e in entries && e.expiresAt == now
    ensures FindLive(entries, e.userId, e.id, now) != Some(e)
    ensures e in Tables.Filter(entries, (x: Entry) => x.expiresAt >= now)
  {
  }

  /** A stored entry adds one to its user's live count until it expires. */
  lemma StoreCounts(entries: seq<Entry>, e: Entry, now: int)
    requires e.expiresAt > now
    ensures |UserLive(entries + [e], e.userId, now)| == |UserLive(entries, e.userId, now)| + 1
  {
    Tables.FilterAppend(entries, e, UnexpiredFor(e.userId, now));
  }
}
