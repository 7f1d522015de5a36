/**
 * The daily download quotas: the `downloadrequests` table keyed by user id and
 * the `anonymous_downloads` table keyed by IP address. Both repositories keep
 * one row per request (id, key, md5, title, creation time), count a key's
 * requests within one UTC day, refuse a second request for the same md5, and
 * admit a new one only while fewer than ten fall on the current day.
 *
 * The two tables differ only in the type of their key, so one generic log
 * models both: `RequestLog<int>` is the per-user table, `RequestLog<string>`
 * the per-IP one. The start of the current day is an input.
 */
module Quotas {
  import opened Wrappers

  /** Requests a key may make per day. */
  const DailyLimit: nat := 10
  /** Seconds in a day. */
  const DaySeconds: int := 86400

  datatype Request<K> = Request(id: int, key: K, md5: string, title: string, createdAt: int)

  /** A time within the day that starts at `startOfDay` (`created_at >= $2 AND created_at < $3`). */
  predicate InDay(t: int, startOfDay: int)
  {
    startOfDay <= t < startOfDay + DaySeconds
  }

  /** A request counted for `key` on the day that starts at `startOfDay`. */
  predicate CountedFor<K(==)>(r: Request<K>, key: K, startOfDay: int)
  {
    r.key == key && InDay(r.createdAt, startOfDay)
  }

  /** The number of a key's requests on one day (`SELECT COUNT(*) … WHERE key = $1 AND …`). */
  function DailyCount<K(==)>(rows: seq<Request<K>>, key: K, startOfDay: int): (n: nat)
    ensures n <= |rows|
  {
    if rows == [] then 0
    else DailyCount(rows[..|rows| - 1], key, startOfDay) + (if CountedFor(rows[|rows| - 1], key, startOfDay) then 1 else 0)
  }

  /** The count is the number of positions holding a request counted for the key. */
  lemma {:induction false} DailyCountIsCount<K>(rows: seq<Request<K>>, key: K, startOfDay: int)
    ensures DailyCount(rows, key, startOfDay) == |set k | 0 <= k < |rows| && CountedFor(rows[k], key, startOfDay)|
  {
    var idx := set k | 0 <= k < |rows| && CountedFor(rows[k], key, startOfDay);
    if rows != [] {
      var init := rows[..|rows| - 1];
      DailyCountIsCount(init, key, startOfDay);
      var prev := set k | 0 <= k < |init| && CountedFor(init[k], key, startOfDay);
      if CountedFor(rows[|rows| - 1], key, startOfDay) {
        assert idx == prev + {|rows| - 1};
      } else {
        assert idx == prev;
      }
    } else {
      assert idx == {};
    }
  }

  /** Appending a request adds one to its key's count for a day it falls in, and nothing to any other count. */
  lemma DailyCountAppend<K>(rows: seq<Request<K>>, r: Request<K>, key: K, startOfDay: int)
    ensures DailyCount(rows + [r], key, startOfDay)
            == DailyCount(rows, key, startOfDay) + (if CountedFor(r, key, startOfDay) then 1 else 0)
  {
    assert (rows + [r])[..|rows|] == rows;
  }

  /** Whether a key has already requested an md5 (`COUNT(*) > 0`). */
  predicate Requested<K(==)>(rows: seq<Request<K>>, key: K, md5: string)
  {
    exists k :: 0 <= k < |rows| && rows[k].key == key && rows[k].md5 == md5
  }

  /** CanDownload on a count: fewer than the daily limit. */
  predicate UnderLimit(count: int)
  {
    count < DailyLimit
  }

  /** GetRemainingDownloads on a count: the limit minus the count, never below zero. */
  function Remaining(count: int): (r: nat)
    ensures r <= DailyLimit || count < 0
    ensures count >= 0 ==> r + count >= DailyLimit
    ensures r > 0 ==> r + count == DailyLimit
  {
    if DailyLimit - count < 0 then 0 else DailyLimit - count
  }

  /** A key can download exactly when it has requests left. */
  lemma UnderLimitIffRemaining(count: int)
    ensures UnderLimit(count) <==> Remaining(count) > 0
  {
  }

  /** The rows the cleanup keeps: those created at or after the cutoff, in order. */
  function Recent<K(==,!new)>(rows: seq<Request<K>>, cutoff: int): (r: seq<Request<K>>)
    ensures forall x :: x in r <==> x in rows && x.createdAt >= cutoff
    ensures |r| <= |rows|
  {
    if rows == [] then []
    else
      var rest := Recent(rows[..|rows| - 1], cutoff);
      var last := rows[|rows| - 1];
      assert forall x :: x in rows <==> x in rows[..|rows| - 1] || x == last by {
        assert rows == rows[..|rows| - 1] + [last];
      }
      if last.createdAt >= cutoff then rest + [last] else rest
  }

  /** The wording of a failed insert in the per-user repository. */
  const UserCreateErrPrefix: string := "failed to create download request: "
  /** The wording of a failed insert in the per-IP repository. */
  const AnonymousCreateErrPrefix: string := "failed to create anonymous download: "
  /** The wordings of the two failures of the per-user cleanup. */
  const CleanupErrPrefix: string := "failed to cleanup old requests: "
  const RowsAffectedErrPrefix: string := "failed to get rows affected: "

  /** A request log: the per-user `downloadrequests` or the per-IP `anonymous_downloads` table. */
  class RequestLog<K(==,!new)> {
    var rows: seq<Request<K>>
    /** Source of fresh row ids (the snowflake generator). */
    var nextId: int
    /** How CheckAndCreate words a failed insert: the per-user and per-IP repositories differ. */
    const createErrPrefix: string

    ghost predicate Valid()
      reads this
    {
      forall k :: 0 <= k < |rows| ==> rows[k].id < nextId
    }

    constructor (createErrPrefix: string)
      ensures Valid() && rows == [] && this.createErrPrefix == createErrPrefix
    {
      rows := [];
      nextId := 1;
      this.createErrPrefix := createErrPrefix;
    }

    /** The request a create at `now` would insert. */
    function NewRequest(key: K, md5: string, title: string, now: int): Request<K>
      reads this
    {
      Request(nextId, key, md5, title, now)
    }

    /** CreateDownloadRequest / CreateAnonymousDownload: inserts one request stamped `now`. */
    method Create(key: K, md5: string, title: string, now: int, dbErr: Option<string>) returns (err: Option<string>)
      requires Valid()
      modifies this
      ensures Valid() && err == dbErr
      ensures rows == if dbErr.None? then old(rows) + [old(NewRequest(key, md5, title, now))] else old(rows)
      ensures nextId == old(nextId) + 1
    {
      var r := NewRequest(key, md5, title, now);
      nextId := nextId + 1;
      err := dbErr;
      if dbErr.None? {
        rows := rows + [r];
      }
    }

    /** GetDailyDownloadCount / GetDailyDownloadCountByIP. */
    function GetDailyCount(key: K, startOfDay: int): (n: nat)
      reads this
      ensures n <= |rows|
    {
      DailyCount(rows, key, startOfDay)
    }

    /** CanDownload: fewer than ten requests today. */
    predicate CanDownload(key: K, startOfDay: int)
      reads this
    {
      UnderLimit(GetDailyCount(key, startOfDay))
    }

    /** GetRemainingDownloads. */
    function GetRemainingDownloads(key: K, startOfDay: int): (r: nat)
      reads this
      ensures r <= DailyLimit
      ensures r > 0 <==> CanDownload(key, startOfDay)
    {
      UnderLimitIffRemaining(GetDailyCount(key, startOfDay));
      Remaining(GetDailyCount(key, startOfDay))
    }

    /** HasUserRequestedBook / HasIPRequestedBook. */
    predicate HasRequested(key: K, md5: string)
      reads this
    {
      Requested(rows, key, md5)
    }

    /**
     * CheckAndCreateDownload / CheckAndCreateAnonymousDownload: refuses a repeated
     * md5 and a key at its daily limit, and otherwise inserts one request.
     * `ok` is true exactly when a row was inserted; `err` is the insert's failure.
     */
    method CheckAndCreate(key: K, md5: string, title: string, now: int, startOfDay: int, dbErr: Option<string>)
      returns (ok: bool, err: Option<string>)
      requires Valid()
      modifies this
      ensures Valid()
      ensures ok <==> !old(HasRequested(key, md5)) && old(CanDownload(key, startOfDay)) && dbErr.None?
      ensures err.Some? <==> !old(HasRequested(key, md5)) && old(CanDownload(key, startOfDay)) && dbErr.Some?
      ensures err.Some? ==> err.value == createErrPrefix + dbErr.value
      ensures rows == if ok then old(rows) + [old(NewRequest(key, md5, title, now))] else old(rows)
      ensures ok ==> HasRequested(key, md5)
      ensures ok && InDay(now, startOfDay) ==> GetDailyCount(key, startOfDay) == old(GetDailyCount(key, startOfDay)) + 1
      ensures old(GetDailyCount(key, startOfDay)) <= DailyLimit ==> GetDailyCount(key, startOfDay) <= DailyLimit
    {
      ok, err := false, None;
      if HasRequested(key, md5) {
        return;
      }
      if !CanDownload(key, startOfDay) {
        return;
      }
      ghost var before := rows;
      var r := NewRequest(key, md5, title, now);
      var e := Create(key, md5, title, now, dbErr);
      if e.Some? {
        err := Some(createErrPrefix + e.value);
        return;
      }
      ok := true;
      DailyCountAppend(before, r, key, startOfDay);
      assert rows[|rows| - 1] == r;
    }

    /**
     * CleanupOldRequests: deletes every request created before the cutoff.
     * `dbErr` is the DELETE's answer; `rowsErr` that of reading the number of
     * deleted rows afterwards, whose failure is reported although the rows are gone.
     */
    method CleanupOldRequests(cutoff: int, dbErr: Option<string>, rowsErr: Option<string>)
      returns (err: Option<string>)
      requires Valid()
      modifies this
      ensures Valid() && nextId == old(nextId)
      ensures dbErr.Some? ==> rows == old(rows) && err == Some(CleanupErrPrefix + dbErr.value)
      ensures dbErr.None? ==> rows == Recent(old(rows), cutoff)
      ensures dbErr.None? ==> err == if rowsErr.Some? then Some(RowsAffectedErrPrefix + rowsErr.value) else None
    {
      if dbErr.Some? {
        return Some(CleanupErrPrefix + dbErr.value);
      }
      rows := Recent(rows, cutoff);
      if rowsErr.Some? {
        return Some(RowsAffectedErrPrefix + rowsErr.value);
      }
      return None;
    }
  }

  /**
   * Requests admitted one after another: each is inserted only when the key had
   * not asked for that md5 and was under the limit, which is what CheckAndCreate does.
   */
  function Admit<K(==)>(rows: seq<Request<K>>, r: Request<K>, startOfDay: int): seq<Request<K>>
  {
    if !Requested(rows, r.key, r.md5) && UnderLimit(DailyCount(rows, r.key, startOfDay)) then rows + [r] else rows
  }

  /** Admitted requests, in order. */
  function AdmitAll<K(==)>(rows: seq<Request<K>>, rs: seq<Request<K>>, startOfDay: int): seq<Request<K>>
    decreases |rs|
  {
    if rs == [] then rows else AdmitAll(Admit(rows, rs[0], startOfDay), rs[1..], startOfDay)
  }

  /**
   * Done one at a time, the check-and-create path never records more than the
   * daily limit for any key on any day, and never records one md5 twice for a key.
   */
  lemma {:induction false} AdmitAllWithinLimit<K>(rows: seq<Request<K>>, rs: seq<Request<K>>, key: K, startOfDay: int)
    requires DailyCount(rows, key, startOfDay) <= DailyLimit
    ensures DailyCount(AdmitAll(rows, rs, startOfDay), key, startOfDay) <= DailyLimit
    decreases |rs|
  {
    if rs != [] {
      var r := rs[0];
      var next := Admit(rows, r, startOfDay);
      if next != rows {
        DailyCountAppend(rows, r, key, startOfDay);
        if CountedFor(r, key, startOfDay) {
          assert DailyCount(rows, r.key, startOfDay) < DailyLimit;
        }
      }
      AdmitAllWithinLimit(next, rs[1..], key, startOfDay);
    }
  }

  /** Requests of one key for one md5, at most one per pair, stay so under admission. */
  ghost predicate NoRepeats<K>(rows: seq<Request<K>>)
  {
    forall i, j :: 0 <= i < j < |rows| ==> (rows[i].key, rows[i].md5) != (rows[j].key, rows[j].md5)
  }

  lemma {:induction false} AdmitAllNoRepeats<K>(rows: seq<Request<K>>, rs: seq<Request<K>>, startOfDay: int)
    requires NoRepeats(rows)
    ensures NoRepeats(AdmitAll(rows, rs, startOfDay))
    decreases |rs|
  {
    if rs != [] {
      var r := rs[0];
      var next := Admit(rows, r, startOfDay);
      if next != rows {
        forall i, j | 0 <= i < j < |next| ensures (next[i].key, next[i].md5) != (next[j].key, next[j].md5) {
          if j == |rows| {
            assert next[j] == r && next[i] == rows[i];
          } else {
            assert next[i] == rows[i] && next[j] == rows[j];
          }
        }
      }
      AdmitAllNoRepeats(next, rs[1..], startOfDay);
    }
  }
}
