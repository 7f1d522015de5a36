/**
 * The `downloadjobs` table and its repository: job creation, status and path
 * updates, and the queries behind the scheduler and the user's download list.
 */
module JobRepo {
  import opened Wrappers
  import opened Model
  import Tables
  import BookRepo

  /** The column assignments of the two `UPDATE downloadjobs SET …` statements. */
  datatype JobUpdate =
    | SetJobStatus(status: string, progress: int, errorMsg: string)
    | SetJobFilePath(filePath: string)

  /** One job after an update at time `now`; identity, owner, hash and creation time never change. */
  function ApplyJob(j: DownloadJob, u: JobUpdate, now: int): (r: DownloadJob)
    ensures r.id == j.id && r.userId == j.userId && r.bookHash == j.bookHash
    ensures r.createdAt == j.createdAt && r.updatedAt == now
    ensures u.SetJobStatus? ==> r.filePath == j.filePath
    ensures u.SetJobFilePath? ==> r.status == j.status && r.progress == j.progress && r.errorMsg == j.errorMsg
  {
    match u
    case SetJobStatus(st, p, msg) => j.(status := st, progress := p, errorMsg := msg, updatedAt := now)
    case SetJobFilePath(fp) => j.(filePath := fp, updatedAt := now)
  }

  /** `UPDATE downloadjobs SET … WHERE id = $n`. */
  function UpdateJobWhere(rows: seq<DownloadJob>, id: int, u: JobUpdate, now: int): (r: seq<DownloadJob>)
    ensures |r| == |rows|
  {
    if rows == [] then []
    else [if rows[0].id == id then ApplyJob(rows[0], u, now) else rows[0]] + UpdateJobWhere(rows[1..], id, u, now)
  }

  /** Each row is updated exactly when it has the id. */
  lemma {:induction false} UpdateJobWhereAt(rows: seq<DownloadJob>, id: int, u: JobUpdate, now: int)
    ensures forall i :: 0 <= i < |rows| ==>
              UpdateJobWhere(rows, id, u, now)[i] == if rows[i].id == id then ApplyJob(rows[i], u, now) else rows[i]
  {
    if rows != [] {
      UpdateJobWhereAt(rows[1..], id, u, now);
    }
  }

  /** The job a `SELECT … WHERE id = $1` returns. */
  function FindById(rows: seq<DownloadJob>, id: int): (r: Option<DownloadJob>)
    ensures r.Some? <==> exists i :: 0 <= i < |rows| && rows[i].id == id
    ensures r.Some? ==> r.value in rows && r.value.id == id
  {
    if rows == [] then None
    else if rows[0].id == id then Some(rows[0])
    else
      assert forall i :: 1 <= i < |rows| ==> rows[i] == rows[1..][i - 1];
      FindById(rows[1..], id)
  }

  /** Ids are distinct. */
  ghost predicate DistinctIds(rows: seq<DownloadJob>)
  {
    forall i, j :: 0 <= i < j < |rows| ==> rows[i].id != rows[j].id
  }

  /** With distinct ids, the job found after an update of that id is the updated job. */
  lemma {:induction false} FindByIdAfterUpdate(rows: seq<DownloadJob>, id: int, u: JobUpdate, now: int, k: nat)
    requires DistinctIds(rows)
    requires k < |rows| && rows[k].id == id
    ensures FindById(UpdateJobWhere(rows, id, u, now), id) == Some(ApplyJob(rows[k], u, now))
  {
    if k > 0 {
      assert rows[0].id != id;
      var r := UpdateJobWhere(rows, id, u, now);
      assert r[1..] == UpdateJobWhere(rows[1..], id, u, now);
      FindByIdAfterUpdate(rows[1..], id, u, now, k - 1);
    }
  }

  /** A job row joined with the metadata columns of its book (`DownloadJobWithMetadata`). */
  datatype JobWithMetadata = JobWithMetadata(
    job: DownloadJob,
    title: string,
    authors: string,
    publisher: string,
    language: string,
    format: string,
    size: string,
    coverURL: string,
    coverData: string)

  /** The join condition `dj.book_hash = sb.hash`. */
  function HasHash(hash: string): SavedBook -> bool
  {
    (b: SavedBook) => b.hash == hash
  }

  /** The book rows a job joins with, in table order. */
  function Matches(j: DownloadJob, books: seq<SavedBook>): (m: seq<SavedBook>)
    ensures forall b :: b in m <==> b in books && b.hash == j.bookHash
  {
    Tables.Filter(books, HasHash(j.bookHash))
  }

  /** A job joined with one book row. */
  function JoinRow(j: DownloadJob, b: SavedBook): JobWithMetadata
  {
    JobWithMetadata(j, b.title, b.authors, b.publisher, b.language, b.format, b.size, b.coverURL, b.coverData)
  }

  /**
   * An output row of the join: its job's metadata come from a book row with the
   * job's hash, or are all empty when there is no such row.
   */
  predicate JoinedRow(x: JobWithMetadata, books: seq<SavedBook>)
  {
    if Matches(x.job, books) == [] then x == Unmatched(x.job)
    else exists b :: b in Matches(x.job, books) && x == JoinRow(x.job, b)
  }

  /** A job no book row joins with: every `COALESCE(…, '')` column is empty. */
  function Unmatched(j: DownloadJob): JobWithMetadata
  {
    JobWithMetadata(j, "", "", "", "", "", "", "", "")
  }

  /**
   * The `LEFT JOIN savedbooks` of one job: one output row per book row with the
   * job's hash, in table order, or the job alone with empty metadata when no
   * book row has that hash.
   */
  function WithMetadata(j: DownloadJob, books: seq<SavedBook>): (r: seq<JobWithMetadata>)
    ensures |r| == if Matches(j, books) == [] then 1 else |Matches(j, books)|
    ensures forall k :: 0 <= k < |r| ==> r[k].job == j && JoinedRow(r[k], books)
    ensures (forall b :: b in books ==> b.hash != j.bookHash) ==> r == [Unmatched(j)]
    ensures forall b :: b in books && b.hash == j.bookHash ==> JoinRow(j, b) in r
  {
    var m := Matches(j, books);
    if m == [] then
      assert forall b :: b !in m;
      [Unmatched(j)]
    else
      var r := seq(|m|, k requires 0 <= k < |m| => JoinRow(j, m[k]));
      assert m[0] in m;
      assert forall k :: 0 <= k < |r| ==> JoinedRow(r[k], books) by {
        forall k | 0 <= k < |r| ensures JoinedRow(r[k], books) {
          assert m[k] in m && r[k] == JoinRow(j, m[k]);
        }
      }
      assert forall b :: b in m ==> JoinRow(j, b) in r by {
        forall b | b in m ensures JoinRow(j, b) in r {
          var k :| 0 <= k < |m| && m[k] == b;
          assert r[k] == JoinRow(j, b);
        }
      }
      r
  }

  /** With at most one book row per hash, a hash matches at most one row. */
  lemma {:induction false} AtMostOneMatch(books: seq<SavedBook>, hash: string)
    requires BookRepo.UniqueHashes(books)
    ensures |Tables.Filter(books, HasHash(hash))| <= 1
  {
    if books != [] {
      var rest := books[1..];
      assert BookRepo.UniqueHashes(rest) by {
        forall i, j | 0 <= i < j < |rest| ensures rest[i].hash != rest[j].hash {
          assert rest[i] == books[i + 1] && rest[j] == books[j + 1];
        }
      }
      if books[0].hash == hash {
        assert forall b :: b in rest ==> b.hash != hash by {
          forall b | b in rest ensures b.hash != hash {
            var m :| 0 <= m < |rest| && rest[m] == b;
            assert books[m + 1] == b;
          }
        }
        Tables.FilterNone(rest, HasHash(hash));
      } else {
        AtMostOneMatch(rest, hash);
      }
    }
  }

  /** With at most one book row per hash, the join gives each job exactly one row. */
  lemma WithMetadataUnique(j: DownloadJob, books: seq<SavedBook>)
    requires BookRepo.UniqueHashes(books)
    ensures |WithMetadata(j, books)| == 1
  {
    AtMostOneMatch(books, j.bookHash);
  }

  /** Two rows with a hash both survive the filter on that hash. */
  lemma {:induction false} MatchesCount(books: seq<SavedBook>, hash: string, p: nat, q: nat)
    requires p < q < |books| && books[p].hash == hash && books[q].hash == hash
    ensures |Tables.Filter(books, HasHash(hash))| >= 2
  {
    var rest := books[1..];
    assert books == [books[0]] + rest;
    if p == 0 {
      assert rest[q - 1] == books[q];
      assert books[q] in Tables.Filter(rest, HasHash(hash));
    } else {
      assert rest[p - 1] == books[p] && rest[q - 1] == books[q];
      MatchesCount(rest, hash, p - 1, q - 1);
    }
  }

  /** Two book rows with the job's hash make the join repeat the job. */
  lemma WithMetadataRepeats(j: DownloadJob, books: seq<SavedBook>, p: nat, q: nat)
    requires p < q < |books| && books[p].hash == j.bookHash && books[q].hash == j.bookHash
    ensures |WithMetadata(j, books)| >= 2
  {
    MatchesCount(books, j.bookHash, p, q);
  }

  /** Some output row of a listing carries the job. */
  predicate Lists(r: seq<JobWithMetadata>, j: DownloadJob)
  {
    exists x :: x in r && x.job == j
  }

  /** The join of a list of jobs: each job's output rows, in the order of the jobs. */
  function JoinAll(js: seq<DownloadJob>, books: seq<SavedBook>): (r: seq<JobWithMetadata>)
    ensures |r| >= |js|
    ensures forall k :: 0 <= k < |r| ==> r[k].job in js && JoinedRow(r[k], books)
  {
    if js == [] then []
    else WithMetadata(js[0], books) + JoinAll(js[1..], books)
  }

  /** Every job of the list has a row in the join, matched or not. */
  lemma {:induction false} JoinAllLists(js: seq<DownloadJob>, books: seq<SavedBook>)
    ensures forall i :: 0 <= i < |js| ==> Lists(JoinAll(js, books), js[i])
  {
    if js != [] {
      var w: seq<JobWithMetadata>, t: seq<JobWithMetadata> := WithMetadata(js[0], books), JoinAll(js[1..], books);
      JoinAllLists(js[1..], books);
      assert JoinAll(js, books) == w + t;
      forall i | 0 <= i < |js| ensures Lists(w + t, js[i]) {
        if i == 0 {
          assert w[0] in w + t;
        } else {
          assert js[i] == js[1..][i - 1];
          var x :| x in t && x.job == js[i];
          assert x in w + t;
        }
      }
    }
  }

  /** Output rows whose jobs are listed newest first (`ORDER BY dj.created_at DESC`). */
  predicate NewestFirst(r: seq<JobWithMetadata>)
  {
    forall k, m :: 0 <= k < m < |r| ==> r[k].job.createdAt >= r[m].job.createdAt
  }

  /** Joining jobs listed newest first keeps the output newest first. */
  lemma {:induction false} JoinAllSorted(js: seq<DownloadJob>, books: seq<SavedBook>)
    requires Tables.SortedDesc(js, (j: DownloadJob) => j.createdAt)
    ensures NewestFirst(JoinAll(js, books))
  {
    if js != [] {
      var rest := js[1..];
      assert Tables.SortedDesc(rest, (j: DownloadJob) => j.createdAt) by {
        forall i, j | 0 <= i < j < |rest| ensures rest[i].createdAt >= rest[j].createdAt {
          assert rest[i] == js[i + 1] && rest[j] == js[j + 1];
        }
      }
      JoinAllSorted(rest, books);
      var w := WithMetadata(js[0], books);
      var t := JoinAll(rest, books);
      forall m | 0 <= m < |t| ensures t[m].job.createdAt <= js[0].createdAt {
        var i :| 0 <= i < |rest| && rest[i] == t[m].job;
        assert js[i + 1] == rest[i];
      }
      var r := w + t;
      assert r == JoinAll(js, books);
      forall k, m | 0 <= k < m < |r| ensures r[k].job.createdAt >= r[m].job.createdAt {
        if m < |w| {
          assert r[k] == w[k] && r[m] == w[m];
        } else if k < |w| {
          assert r[k] == w[k] && r[m] == t[m - |w|];
        } else {
          assert r[k] == t[k - |w|] && r[m] == t[m - |w|];
        }
      }
    }
  }

  /** A page of a listing ordered newest first is ordered newest first, and holds rows of the listing. */
  lemma PageNewestFirst(r: seq<JobWithMetadata>, offset: nat, limit: nat)
    requires NewestFirst(r)
    ensures NewestFirst(Tables.Page(r, offset, limit))
    ensures forall x :: x in Tables.Page(r, offset, limit) ==> x in r
  {
    var p := Tables.Page(r, offset, limit);
    forall k, m | 0 <= k < m < |p| ensures p[k].job.createdAt >= p[m].job.createdAt {
      assert p[k] == r[offset + k] && p[m] == r[offset + m];
    }
    forall x | x in p ensures x in r {
      var k :| 0 <= k < |p| && p[k] == x;
      assert r[offset + k] == x;
    }
  }

  /** The jobs of a join over a reordering of `mine` are jobs of `mine`. */
  lemma JoinedJobsOf(mine: seq<DownloadJob>, sorted: seq<DownloadJob>, books: seq<SavedBook>)
    requires multiset(sorted) == multiset(mine)
    ensures forall x :: x in JoinAll(sorted, books) ==> x.job in mine && JoinedRow(x, books)
  {
    var r := JoinAll(sorted, books);
    forall x | x in r ensures x.job in mine && JoinedRow(x, books) {
      var k :| 0 <= k < |r| && r[k] == x;
      assert x.job in multiset(sorted);
    }
  }

  /** With at most one book row per hash, the join lists every job exactly once. */
  lemma {:induction false} JoinAllUnique(js: seq<DownloadJob>, books: seq<SavedBook>)
    requires BookRepo.UniqueHashes(books)
    ensures |JoinAll(js, books)| == |js|
    ensures forall k :: 0 <= k < |js| ==> JoinAll(js, books)[k].job == js[k]
  {
    if js != [] {
      WithMetadataUnique(js[0], books);
      JoinAllUnique(js[1..], books);
      ConsJoined(js, WithMetadata(js[0], books), JoinAll(js[1..], books));
    }
  }

  /** One row for the first job in front of one row per remaining job, in order, is one row per job, in order. */
  lemma ConsJoined(js: seq<DownloadJob>, w: seq<JobWithMetadata>, t: seq<JobWithMetadata>)
    requires js != [] && |w| == 1 && w[0].job == js[0] && |t| == |js| - 1
    requires forall k :: 0 <= k < |t| ==> t[k].job == js[1..][k]
    ensures forall k :: 0 <= k < |js| ==> (w + t)[k].job == js[k]
  {
    forall k | 0 < k < |js| ensures (w + t)[k].job == js[k] {
      assert (w + t)[k] == t[k - 1];
    }
  }



  /** A job whose hash two book rows share is listed more than once. */
  lemma {:induction false} JoinAllRepeats(js: seq<DownloadJob>, books: seq<SavedBook>, i: nat, p: nat, q: nat)
    requires i < |js| && p < q < |books| && books[p].hash == js[i].bookHash && books[q].hash == js[i].bookHash
    ensures |JoinAll(js, books)| > |js|
  {
    if i == 0 {
      WithMetadataRepeats(js[0], books, p, q);
    } else {
      JoinAllRepeats(js[1..], books, i - 1, p, q);
    }
  }

  /** A write of the job's status and progress, as recorded in the store's history. */
  datatype StatusWrite = StatusWrite(jobId: int, status: string, progress: int)

  /** The progress values written for one job, in order. */
  function ProgressOf(trail: seq<StatusWrite>, id: int): seq<int>
  {
    if trail == [] then []
    else
      var last := trail[|trail| - 1];
      ProgressOf(trail[..|trail| - 1], id) + (if last.jobId == id then [last.progress] else [])
  }

  /** Writes appended to the history add their progress values for that job at the end. */
  lemma {:induction false} ProgressOfAppend(trail: seq<StatusWrite>, more: seq<StatusWrite>, id: int)
    ensures ProgressOf(trail + more, id) == ProgressOf(trail, id) + ProgressOf(more, id)
    decreases |more|
  {
    if more != [] {
      var init := more[..|more| - 1];
      assert (trail + more)[..|trail + more| - 1] == trail + init;
      var last := more[|more| - 1];
      var tail := if last.jobId == id then [last.progress] else [];
      assert (trail + more)[|trail + more| - 1] == last;
      assert ProgressOf(trail + more, id) == ProgressOf(trail + init, id) + tail;
      ProgressOfAppend(trail, init, id);
    } else {
      assert trail + more == trail;
    }
  }

  /** A sequence of updates of one job, applied in order. */
  function UpdatesJobWhere(rows: seq<DownloadJob>, id: int, us: seq<JobUpdate>, now: int): (r: seq<DownloadJob>)
    ensures |r| == |rows|
    decreases |us|
  {
    if us == [] then rows
    else UpdateJobWhere(UpdatesJobWhere(rows, id, us[..|us| - 1], now), id, us[|us| - 1], now)
  }

  /** One more update at the end. */
  lemma UpdatesJobWhereSnoc(rows: seq<DownloadJob>, id: int, us: seq<JobUpdate>, u: JobUpdate, now: int)
    ensures UpdatesJobWhere(rows, id, us + [u], now) == UpdateJobWhere(UpdatesJobWhere(rows, id, us, now), id, u, now)
  {
    assert (us + [u])[..|us|] == us;
  }

  /** The status writes among a job's updates, as the store records them. */
  function WritesOf(id: int, us: seq<JobUpdate>): (r: seq<StatusWrite>)
    ensures |r| <= |us|
    decreases |us|
  {
    if us == [] then []
    else
      var u := us[|us| - 1];
      WritesOf(id, us[..|us| - 1]) + (if u.SetJobStatus? then [StatusWrite(id, u.status, u.progress)] else [])
  }

  /** One more update at the end. */
  lemma WritesOfSnoc(id: int, us: seq<JobUpdate>, u: JobUpdate)
    ensures WritesOf(id, us + [u]) == WritesOf(id, us) + (if u.SetJobStatus? then [StatusWrite(id, u.status, u.progress)] else [])
  {
    assert (us + [u])[..|us|] == us;
  }

  /**
   * One more update of a job whose rows and history so far are those of a run of
   * updates: rows and history are then those of the longer run.
   */
  lemma UpdateStep(rows0: seq<DownloadJob>, trail0: seq<StatusWrite>, id: int, us: seq<JobUpdate>, u: JobUpdate,
                   now: int, rows: seq<DownloadJob>, trail: seq<StatusWrite>)
    requires rows == UpdateJobWhere(UpdatesJobWhere(rows0, id, us, now), id, u, now)
    requires trail == trail0 + WritesOf(id, us) + (if u.SetJobStatus? then [StatusWrite(id, u.status, u.progress)] else [])
    ensures rows == UpdatesJobWhere(rows0, id, us + [u], now)
    ensures trail == trail0 + WritesOf(id, us + [u])
  {
    UpdatesJobWhereSnoc(rows0, id, us, u, now);
    WritesOfSnoc(id, us, u);
  }

  /** Two runs of updates one after the other are one run. */
  lemma {:induction false} UpdatesJobWhereAppend(rows: seq<DownloadJob>, id: int, us: seq<JobUpdate>, vs: seq<JobUpdate>, now: int)
    ensures UpdatesJobWhere(UpdatesJobWhere(rows, id, us, now), id, vs, now) == UpdatesJobWhere(rows, id, us + vs, now)
    decreases |vs|
  {
    if vs == [] {
      assert us + vs == us;
    } else {
      var init := vs[..|vs| - 1];
      var u := vs[|vs| - 1];
      UpdatesJobWhereAppend(rows, id, us, init, now);
      assert us + vs == (us + init) + [u];
      UpdatesJobWhereSnoc(rows, id, us + init, u, now);
    }
  }

  /** The writes of two runs of updates one after the other. */
  lemma {:induction false} WritesOfAppend(id: int, us: seq<JobUpdate>, vs: seq<JobUpdate>)
    ensures WritesOf(id, us) + WritesOf(id, vs) == WritesOf(id, us + vs)
    decreases |vs|
  {
    if vs == [] {
      assert us + vs == us;
    } else {
      var init := vs[..|vs| - 1];
      var u := vs[|vs| - 1];
      WritesOfAppend(id, us, init);
      assert us + vs == (us + init) + [u];
      WritesOfSnoc(id, us + init, u);
    }
  }

  /** The progress values a run of updates writes, in order. */
  function ProgressValues(us: seq<JobUpdate>): (r: seq<int>)
    ensures |r| <= |us|
    decreases |us|
  {
    if us == [] then []
    else
      var u := us[|us| - 1];
      ProgressValues(us[..|us| - 1]) + (if u.SetJobStatus? then [u.progress] else [])
  }

  /** The history records, for the job, exactly the progress values of its status updates. */
  lemma {:induction false} ProgressOfWrites(id: int, us: seq<JobUpdate>)
    ensures ProgressOf(WritesOf(id, us), id) == ProgressValues(us)
    decreases |us|
  {
    if us != [] {
      var init := us[..|us| - 1];
      var u := us[|us| - 1];
      var tail := if u.SetJobStatus? then [StatusWrite(id, u.status, u.progress)] else [];
      ProgressOfWrites(id, init);
      ProgressOfAppend(WritesOf(id, init), tail, id);
      if u.SetJobStatus? {
        assert ProgressOf(tail, id) == ProgressOf([], id) + [u.progress];
      }
    }
  }

  /** The progress values of two runs of updates one after the other. */
  lemma {:induction false} ProgressValuesAppend(us: seq<JobUpdate>, vs: seq<JobUpdate>)
    ensures ProgressValues(us + vs) == ProgressValues(us) + ProgressValues(vs)
    decreases |vs|
  {
    if vs == [] {
      assert us + vs == us;
    } else {
      var init := vs[..|vs| - 1];
      assert (us + vs)[..|us + vs| - 1] == us + init;
      assert (us + vs)[|us + vs| - 1] == vs[|vs| - 1];
      ProgressValuesAppend(us, init);
    }
  }

  /** A history grown by a run of updates of a job records, for that job, the run's progress values at the end. */
  lemma ProgressOfRun(trail0: seq<StatusWrite>, id: int, us: seq<JobUpdate>)
    ensures ProgressOf(trail0 + WritesOf(id, us), id) == ProgressOf(trail0, id) + ProgressValues(us)
  {
    ProgressOfAppend(trail0, WritesOf(id, us), id);
    ProgressOfWrites(id, us);
  }

  /** A job after a run of updates. */
  function ApplyJobs(j: DownloadJob, us: seq<JobUpdate>, now: int): (r: DownloadJob)
    ensures r.id == j.id
    decreases |us|
  {
    if us == [] then j else ApplyJob(ApplyJobs(j, us[..|us| - 1], now), us[|us| - 1], now)
  }

  /** An update keeps every row's id, so ids stay distinct. */
  lemma UpdateJobWhereIds(rows: seq<DownloadJob>, id: int, u: JobUpdate, now: int)
    ensures forall i :: 0 <= i < |rows| ==> UpdateJobWhere(rows, id, u, now)[i].id == rows[i].id
    ensures DistinctIds(rows) ==> DistinctIds(UpdateJobWhere(rows, id, u, now))
  {
    UpdateJobWhereAt(rows, id, u, now);
  }

  /** With distinct ids, the job found after a run of updates of its id is the job updated in turn. */
  lemma {:induction false} FindByIdAfterUpdates(rows: seq<DownloadJob>, id: int, us: seq<JobUpdate>, now: int, k: nat)
    requires DistinctIds(rows)
    requires k < |rows| && rows[k].id == id
    ensures DistinctIds(UpdatesJobWhere(rows, id, us, now))
    ensures k < |UpdatesJobWhere(rows, id, us, now)| && UpdatesJobWhere(rows, id, us, now)[k] == ApplyJobs(rows[k], us, now)
    ensures FindById(UpdatesJobWhere(rows, id, us, now), id) == Some(ApplyJobs(rows[k], us, now))
    decreases |us|
  {
    if us != [] {
      var init := us[..|us| - 1];
      var u := us[|us| - 1];
      FindByIdAfterUpdates(rows, id, init, now, k);
      var mid := UpdatesJobWhere(rows, id, init, now);
      UpdateJobWhereIds(mid, id, u, now);
      UpdateJobWhereAt(mid, id, u, now);
      FindByIdAfterUpdate(mid, id, u, now, k);
    } else {
      FindByIdAfterUpdate(rows, id, SetJobFilePath(rows[k].filePath), now, k);
      assert FindById(rows, id) == Some(rows[k]) by {
        FindByIdIsUnique(rows, id, k);
      }
    }
  }

  /** With distinct ids, the job found for an id is the one row with it. */
  lemma {:induction false} FindByIdIsUnique(rows: seq<DownloadJob>, id: int, k: nat)
    requires DistinctIds(rows)
    requires k < |rows| && rows[k].id == id
    ensures FindById(rows, id) == Some(rows[k])
  {
    if k > 0 {
      assert rows[0].id != id;
      assert rows[1..][k - 1] == rows[k];
      FindByIdIsUnique(rows[1..], id, k - 1);
    }
  }

  /** The sort key of `ORDER BY created_at ASC`, as a descending key. */
  function OldestFirst(j: DownloadJob): int
  {
    -j.createdAt
  }

  class JobStore {
    var rows: seq<DownloadJob>
    /** Source of fresh job ids (the snowflake generator). */
    var nextId: int
    /** Every successful status write, in order. */
    ghost var trail: seq<StatusWrite>

    ghost predicate Valid()
      reads this
    {
      && (forall i :: 0 <= i < |rows| ==> rows[i].id < nextId)
      && DistinctIds(rows)
    }

    constructor ()
      ensures Valid() && rows == [] && trail == []
    {
      rows := [];
      nextId := 1;
      trail := [];
    }

    /** CreateJob: a pending job at progress 0 with a fresh id, created and updated at `now`. */
    method CreateJob(userId: int, bookHash: string, now: int, dbErr: Option<string>)
      returns (job: DownloadJob, err: Option<string>)
      requires Valid()
      modifies this
      ensures Valid() && trail == old(trail)
      ensures job == DownloadJob(old(nextId), userId, bookHash, DownloadStatusPending, 0, "", "", now, now)
      ensures forall i :: 0 <= i < |old(rows)| ==> old(rows)[i].id != job.id
      ensures err == dbErr
      ensures rows == if dbErr.None? then old(rows) + [job] else old(rows)
    {
      job := DownloadJob(nextId, userId, bookHash, DownloadStatusPending, 0, "", "", now, now);
      nextId := nextId + 1;
      err := dbErr;
      if dbErr.None? {
        rows := rows + [job];
      }
    }

    /** GetJobByID */
    function GetJobByID(id: int): (r: Result<DownloadJob>)
      reads this
      ensures r.Ok? <==> exists i :: 0 <= i < |rows| && rows[i].id == id
      ensures r.Ok? ==> r.value in rows && r.value.id == id
    {
      match FindById(rows, id)
      case Some(j) => Ok(j)
      case None => Err(BookRepo.ErrNoRows)
    }

    /** UpdateJobStatus: status, progress, error message and update time; `dbErr` is the database's answer. */
    method UpdateJobStatus(id: int, status: string, progress: int, errorMsg: string, now: int, dbErr: Option<string>)
      returns (err: Option<string>)
      requires Valid()
      modifies this
      ensures Valid() && nextId == old(nextId) && err == dbErr
      ensures rows == if dbErr.None? then UpdateJobWhere(old(rows), id, SetJobStatus(status, progress, errorMsg), now)
                      else old(rows)
      ensures trail == if dbErr.None? then old(trail) + [StatusWrite(id, status, progress)] else old(trail)
    {
      err := dbErr;
      if dbErr.None? {
        UpdateJobWhereAt(rows, id, SetJobStatus(status, progress, errorMsg), now);
        rows := UpdateJobWhere(rows, id, SetJobStatus(status, progress, errorMsg), now);
        trail := trail + [StatusWrite(id, status, progress)];
      }
    }

    /** UpdateJobFilePath: only the path and the update time; `dbErr` is the database's answer. */
    method UpdateJobFilePath(id: int, filePath: string, now: int, dbErr: Option<string>) returns (err: Option<string>)
      requires Valid()
      modifies this
      ensures Valid() && nextId == old(nextId) && trail == old(trail) && err == dbErr
      ensures rows == if dbErr.None? then UpdateJobWhere(old(rows), id, SetJobFilePath(filePath), now) else old(rows)
    {
      err := dbErr;
      if dbErr.None? {
        UpdateJobWhereAt(rows, id, SetJobFilePath(filePath), now);
        rows := UpdateJobWhere(rows, id, SetJobFilePath(filePath), now);
      }
    }

    /** The pending jobs in table order. */
    function Pending(): (r: seq<DownloadJob>)
      reads this
      ensures forall j :: j in r <==> j in rows && j.status == DownloadStatusPending
    {
      Tables.Filter(rows, (j: DownloadJob) => j.status == DownloadStatusPending)
    }

    /** GetPendingJobs: at most `limit` pending jobs, oldest first. */
    function GetPendingJobs(limit: nat): (r: seq<DownloadJob>)
      reads this
      ensures |r| == if |Pending()| < limit then |Pending()| else limit
      ensures forall k :: 0 <= k < |r| ==> r[k] in rows && r[k].status == DownloadStatusPending
      ensures forall k, m :: 0 <= k < m < |r| ==> r[k].createdAt <= r[m].createdAt
      ensures forall k, j :: 0 <= k < |r| && j in rows && j.status == DownloadStatusPending && j !in r ==>
                r[k].createdAt <= j.createdAt
    {
      var pending := Pending();
      var sorted := Tables.SortDesc(pending, OldestFirst);
      var r := Tables.Page(sorted, 0, limit);
      Tables.PageOfSorted(pending, OldestFirst, 0, limit);
      Tables.TopOfSorted(pending, OldestFirst, limit);
      forall k, j | 0 <= k < |r| && j in rows && j.status == DownloadStatusPending && j !in r
        ensures r[k].createdAt <= j.createdAt
      {
        assert j in pending;
        assert OldestFirst(r[k]) >= OldestFirst(j);
      }
      r
    }

    /** GetJobByUserAndBook: the newest job of that user for that hash. */
    function GetJobByUserAndBook(userId: int, bookHash: string): (r: Result<DownloadJob>)
      reads this
      ensures r.Ok? <==> exists i :: 0 <= i < |rows| && rows[i].userId == userId && rows[i].bookHash == bookHash
      ensures r.Ok? ==> r.value in rows && r.value.userId == userId && r.value.bookHash == bookHash
      ensures r.Ok? ==> forall j :: j in rows && j.userId == userId && j.bookHash == bookHash ==>
                          j.createdAt <= r.value.createdAt
    {
      var mine := Tables.Filter(rows, (j: DownloadJob) => j.userId == userId && j.bookHash == bookHash);
      var sorted := Tables.SortDesc(mine, (j: DownloadJob) => j.createdAt);
      if |sorted| == 0 then
        assert mine == [];
        assert forall i :: 0 <= i < |rows| ==> rows[i] in rows;
        Err(BookRepo.ErrNoRows)
      else
        assert sorted[0] in multiset(sorted);
        assert forall j :: j in rows && j.userId == userId && j.bookHash == bookHash ==>
          j.createdAt <= sorted[0].createdAt by {
          forall j | j in rows && j.userId == userId && j.bookHash == bookHash
            ensures j.createdAt <= sorted[0].createdAt
          {
            assert j in multiset(sorted);
            var m :| 0 <= m < |sorted| && sorted[m] == j;
          }
        }
        Ok(sorted[0])
    }

    /** A user's jobs in table order. */
    function JobsOf(userId: int): (r: seq<DownloadJob>)
      reads this
      ensures forall j :: j in r <==> j in rows && j.userId == userId
    {
      Tables.Filter(rows, (j: DownloadJob) => j.userId == userId)
    }

    /** GetUserJobs: one page of the user's jobs, newest first, each with its book's metadata. */
    function GetUserJobs(userId: int, books: seq<SavedBook>, limit: nat, offset: nat): (r: seq<JobWithMetadata>)
      reads this
      ensures |r| <= limit
      ensures forall x :: x in r ==> x.job in rows && x.job.userId == userId && JoinedRow(x, books)
      ensures NewestFirst(r)
      ensures offset == 0 && limit >= |Joined(userId, books)| ==> r == Joined(userId, books)
      ensures offset == 0 && limit >= |Joined(userId, books)| ==>
                forall k :: 0 <= k < |rows| && rows[k].userId == userId ==> Lists(r, rows[k])
    {
      var joined := Joined(userId, books);
      PageNewestFirst(joined, offset, limit);
      Tables.Page(joined, offset, limit)
    }

    /**
     * The user's jobs newest first, each joined with the book rows of its hash:
     * the rows of `GetUserJobs` before `LIMIT` and `OFFSET`.
     */
    function Joined(userId: int, books: seq<SavedBook>): (r: seq<JobWithMetadata>)
      reads this
      ensures |r| >= |JobsOf(userId)|
      ensures forall x :: x in r ==> x.job in rows && x.job.userId == userId && JoinedRow(x, books)
      ensures forall k :: 0 <= k < |rows| && rows[k].userId == userId ==> Lists(r, rows[k])
      ensures NewestFirst(r)
    {
      var sorted := Tables.SortDesc(JobsOf(userId), (j: DownloadJob) => j.createdAt);
      JoinAllSorted(sorted, books);
      JoinedJobsOf(JobsOf(userId), sorted, books);
      JoinAllLists(sorted, books);
      assert forall k :: 0 <= k < |rows| && rows[k].userId == userId ==> Lists(JoinAll(sorted, books), rows[k]) by {
        forall k | 0 <= k < |rows| && rows[k].userId == userId ensures Lists(JoinAll(sorted, books), rows[k]) {
          assert rows[k] in JobsOf(userId);
          assert rows[k] in multiset(sorted);
          var i :| 0 <= i < |sorted| && sorted[i] == rows[k];
        }
      }
      JoinAll(sorted, books)
    }

    /** CountUserJobs */
    function CountUserJobs(userId: int): (n: nat)
      reads this
      ensures n == |set k | 0 <= k < |rows| && rows[k].userId == userId|
      ensures n <= |rows|
    {
      Tables.FilterSize(rows, (j: DownloadJob) => j.userId == userId);
      assert Tables.Positions(rows, (j: DownloadJob) => j.userId == userId) == set k | 0 <= k < |rows| && rows[k].userId == userId;
      |JobsOf(userId)|
    }
  }

  /**
   * The count agrees with the listing when no two book rows share a hash: one
   * page large enough holds every job of the user, once.
   */
  lemma CountUserJobsMatchesListing(store: JobStore, userId: int, books: seq<SavedBook>, limit: nat)
    requires BookRepo.UniqueHashes(books)
    requires limit >= store.CountUserJobs(userId)
    ensures |store.GetUserJobs(userId, books, limit, 0)| == store.CountUserJobs(userId)
  {
    var sorted := Tables.SortDesc(store.JobsOf(userId), (j: DownloadJob) => j.createdAt);
    JoinAllUnique(sorted, books);
  }

  /**
   * When two book rows share the hash of one of the user's jobs, a page large
   * enough for the whole listing holds more rows than the count says.
   */
  lemma ListingExceedsCount(store: JobStore, userId: int, books: seq<SavedBook>, limit: nat, i: nat, p: nat, q: nat)
    requires i < |store.rows| && store.rows[i].userId == userId
    requires p < q < |books| && books[p].hash == store.rows[i].bookHash && books[q].hash == store.rows[i].bookHash
    ensures |store.Joined(userId, books)| > store.CountUserJobs(userId)
    ensures limit >= |store.Joined(userId, books)| ==> |store.GetUserJobs(userId, books, limit, 0)| > store.CountUserJobs(userId)
  {
    var mine := store.JobsOf(userId);
    var sorted := Tables.SortDesc(mine, (j: DownloadJob) => j.createdAt);
    assert store.rows[i] in mine;
    assert store.rows[i] in multiset(sorted);
    var n :| 0 <= n < |sorted| && sorted[n] == store.rows[i];
    JoinAllRepeats(sorted, books, n, p, q);
  }
}
