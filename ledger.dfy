/**
 * The download ledger (DBManager): an SQLite table `downloads` holding one
 * row per (url, file_path), here kept in memory as a sequence of rows in
 * insertion order. Each operation is the meaning of the SQL statement the
 * source issues:
 *   INSERT OR IGNORE under UNIQUE(url, file_path),
 *   UPDATE ... WHERE url=? AND file_path=?,
 *   SELECT ... ORDER BY updated_at DESC LIMIT ?,
 *   DELETE FROM downloads.
 * The clock is an input `now`: any reading is accepted, and nothing ties it
 * to the timestamps already stored.
 */
module Ledger {
  import opened Base

  const QueuedStatus: string := "Queued"
  const DoneStatus: string := "Done"

  /** The default `limit` of fetchRecent. */
  const DefaultFetchLimit: int := 200

  /** One row of `downloads`; the AUTOINCREMENT id is never read and is not kept. */
  datatype Row = Row(
    url: string,
    filePath: string,
    fileName: string,
    status: string,
    progress: int,
    sha256: Option<string>,
    createdAt: nat,
    updatedAt: nat)

  /** DownloadRecord: the columns fetchRecent reads back (no id, no created_at). */
  datatype DownloadRecord = DownloadRecord(
    url: string,
    filePath: string,
    fileName: string,
    status: string,
    progress: int,
    sha256: string,
    updatedAt: nat)

  /** A default-constructed DownloadRecord: empty strings and progress 0. */
  function DefaultRecord(): (r: DownloadRecord)
    ensures r.progress == 0
    ensures r.url == "" && r.filePath == "" && r.fileName == "" && r.status == "" && r.sha256 == ""
  {
    DownloadRecord("", "", "", "", 0, "", 0)
  }

  /** The projection fetchRecent makes of a row; a NULL sha256 reads back as the empty string. */
  function ToRecord(r: Row): (d: DownloadRecord)
    ensures d.url == r.url && d.filePath == r.filePath && d.fileName == r.fileName
    ensures d.status == r.status && d.progress == r.progress && d.updatedAt == r.updatedAt
    ensures d.sha256 == r.sha256.GetOr("")
  {
    DownloadRecord(r.url, r.filePath, r.fileName, r.status, r.progress, r.sha256.GetOr(""), r.updatedAt)
  }

  predicate Matches(r: Row, url: string, filePath: string) {
    r.url == url && r.filePath == filePath
  }

  predicate HasKey(rows: seq<Row>, url: string, filePath: string) {
    exists i :: 0 <= i < |rows| && Matches(rows[i], url, filePath)
  }

  /** The UNIQUE(url, file_path) constraint. */
  predicate KeysUnique(rows: seq<Row>) {
    forall i, j :: 0 <= i < j < |rows| ==> !Matches(rows[i], rows[j].url, rows[j].filePath)
  }

  /** Every row was updated no earlier than it was created. */
  predicate Timely(rows: seq<Row>) {
    forall i :: 0 <= i < |rows| ==> rows[i].createdAt <= rows[i].updatedAt
  }

  /** No stored timestamp is later than `now`. */
  predicate NotAfter(rows: seq<Row>, now: nat) {
    forall i :: 0 <= i < |rows| ==> rows[i].updatedAt <= now
  }

  predicate TableValid(rows: seq<Row>) {
    KeysUnique(rows)
  }

  /** INSERT OR IGNORE of a fresh 'Queued' row with progress 0, no sha256, both timestamps `now`. */
  function InsertOrIgnore(rows: seq<Row>, url: string, filePath: string, fileName: string, now: nat): (rows': seq<Row>)
    ensures HasKey(rows', url, filePath)
    ensures HasKey(rows, url, filePath) ==> rows' == rows
    ensures !HasKey(rows, url, filePath) ==>
      rows' == rows + [Row(url, filePath, fileName, QueuedStatus, 0, None, now, now)]
    ensures KeysUnique(rows) ==> KeysUnique(rows')
    ensures Timely(rows) ==> Timely(rows')
    ensures NotAfter(rows, now) ==> NotAfter(rows', now)
  {
    if HasKey(rows, url, filePath) then rows
    else
      var r := Row(url, filePath, fileName, QueuedStatus, 0, None, now, now);
      assert (rows + [r])[|rows|] == r;
      rows + [r]
  }

  /** The SET part of the three UPDATE statements. */
  datatype Change =
    | SetProgress(progress: int)
    | SetStatus(status: string)
    | MarkDone(sha256: string)

  /** A row after an UPDATE: the named columns and updated_at change, nothing else does. */
  function Changed(r: Row, c: Change, now: nat): (r': Row)
    ensures r'.url == r.url && r'.filePath == r.filePath && r'.fileName == r.fileName
    ensures r'.createdAt == r.createdAt && r'.updatedAt == now
    ensures c.SetProgress? ==> r'.progress == c.progress && r'.status == r.status && r'.sha256 == r.sha256
    ensures c.SetStatus? ==> r'.status == c.status && r'.progress == r.progress && r'.sha256 == r.sha256
    ensures c.MarkDone? ==> r'.sha256 == Some(c.sha256) && r'.status == DoneStatus && r'.progress == 100
  {
    match c
    case SetProgress(p) => r.(progress := p, updatedAt := now)
    case SetStatus(s) => r.(status := s, updatedAt := now)
    case MarkDone(h) => r.(sha256 := Some(h), status := DoneStatus, progress := 100, updatedAt := now)
  }

  /** UPDATE downloads SET ... WHERE url=? AND file_path=?. */
  function UpdateWhere(rows: seq<Row>, url: string, filePath: string, c: Change, now: nat): (rows': seq<Row>)
    ensures |rows'| == |rows|
    ensures forall i :: 0 <= i < |rows| && Matches(rows[i], url, filePath) ==> rows'[i] == Changed(rows[i], c, now)
    ensures forall i :: 0 <= i < |rows| && !Matches(rows[i], url, filePath) ==> rows'[i] == rows[i]
    decreases |rows|
  {
    if rows == [] then []
    else
      var head := if Matches(rows[0], url, filePath) then Changed(rows[0], c, now) else rows[0];
      [head] + UpdateWhere(rows[1..], url, filePath, c, now)
  }

  /** An UPDATE keeps the table valid, keeps every key, and changes at most one row. */
  lemma UpdateKeepsTable(rows: seq<Row>, url: string, filePath: string, c: Change, now: nat)
    requires TableValid(rows)
    ensures var rows' := UpdateWhere(rows, url, filePath, c, now);
      TableValid(rows') &&
      (forall i :: 0 <= i < |rows| ==> rows'[i].url == rows[i].url && rows'[i].filePath == rows[i].filePath) &&
      (forall i, j :: 0 <= i < j < |rows| ==> rows'[i] == rows[i] || rows'[j] == rows[j]) &&
      (!HasKey(rows, url, filePath) ==> rows' == rows)
  {
    var rows' := UpdateWhere(rows, url, filePath, c, now);
    forall i | 0 <= i < |rows|
      ensures rows'[i].url == rows[i].url && rows'[i].filePath == rows[i].filePath
    {
      if Matches(rows[i], url, filePath) {
        assert rows'[i] == Changed(rows[i], c, now);
      }
    }
    if !HasKey(rows, url, filePath) {
      assert forall i :: 0 <= i < |rows| ==> rows'[i] == rows[i];
    }
  }

  /**
   * While the clock reads no earlier than every stored updated_at, an UPDATE
   * keeps each row's created_at at or before its updated_at. A clock set
   * back breaks this; the source does not guard against it.
   */
  lemma UpdateKeepsTimely(rows: seq<Row>, url: string, filePath: string, c: Change, now: nat)
    requires Timely(rows) && NotAfter(rows, now)
    ensures var rows' := UpdateWhere(rows, url, filePath, c, now);
      Timely(rows') && NotAfter(rows', now)
  {
    var rows' := UpdateWhere(rows, url, filePath, c, now);
    forall i | 0 <= i < |rows|
      ensures rows'[i].createdAt <= rows'[i].updatedAt <= now
    {
      if Matches(rows[i], url, filePath) {
        assert rows'[i] == Changed(rows[i], c, now);
      }
    }
  }

  /** Rows in non-increasing updated_at order. */
  predicate NewestFirst(s: seq<Row>) {
    forall i, j :: 0 <= i < j < |s| ==> s[j].updatedAt <= s[i].updatedAt
  }

  /** Insert `x` in front of the first row updated strictly earlier. */
  function InsertByTime(x: Row, s: seq<Row>): (r: seq<Row>)
    ensures |r| == |s| + 1
    ensures multiset(r) == multiset(s) + multiset{x}
    decreases |s|
  {
    if s == [] || x.updatedAt >= s[0].updatedAt then [x] + s
    else
      assert s == [s[0]] + s[1..];
      [s[0]] + InsertByTime(x, s[1..])
  }

  lemma {:induction false} InsertByTimeKeepsOrder(x: Row, s: seq<Row>)
    requires NewestFirst(s)
    ensures NewestFirst(InsertByTime(x, s))
    decreases |s|
  {
    if s != [] && x.updatedAt < s[0].updatedAt {
      var rest := InsertByTime(x, s[1..]);
      InsertByTimeKeepsOrder(x, s[1..]);
      forall j | 0 <= j < |rest|
        ensures rest[j].updatedAt <= s[0].updatedAt
      {
        assert rest[j] in multiset(rest);
        if rest[j] != x {
          assert rest[j] in multiset(s[1..]);
          var k :| 0 <= k < |s[1..]| && s[1..][k] == rest[j];
          assert s[k + 1] == rest[j];
        }
      }
      var r := InsertByTime(x, s);
      assert r == [s[0]] + rest;
      forall i, j | 0 <= i < j < |r|
        ensures r[j].updatedAt <= r[i].updatedAt
      {
        assert r[j] == rest[j - 1];
        if i > 0 {
          assert r[i] == rest[i - 1];
        }
      }
    }
  }

  /** ORDER BY updated_at DESC: a permutation of the rows, newest first (ties keep insertion order). */
  function SortByTime(rows: seq<Row>): (r: seq<Row>)
    ensures |r| == |rows|
    ensures multiset(r) == multiset(rows)
    ensures NewestFirst(r)
    decreases |rows|
  {
    if rows == [] then []
    else
      assert rows == [rows[0]] + rows[1..];
      var sorted := SortByTime(rows[1..]);
      InsertByTimeKeepsOrder(rows[0], sorted);
      InsertByTime(rows[0], sorted)
  }

  /** How many rows `LIMIT limit` lets through: SQLite treats a negative limit as no limit. */
  function LimitCount(limit: int, n: nat): (k: nat)
    ensures k <= n
    ensures limit >= 0 ==> k <= limit
    ensures k == n || k == limit
  {
    if limit < 0 || limit > n then n else limit
  }

  /** The rows the fetchRecent query selects, in the order it returns them. */
  function Recent(rows: seq<Row>, limit: int): seq<Row>
  {
    SortByTime(rows)[..LimitCount(limit, |rows|)]
  }

  /**
   * fetchRecent selects the newest rows: as many as the limit allows, newest
   * first, each a stored row, and no row left out is newer than one returned.
   */
  /** In a newest-first sequence, nothing after position k is newer than anything before it. */
  lemma {:induction false} PrefixIsNewest(s: seq<Row>, k: nat)
    requires NewestFirst(s) && k <= |s|
    ensures forall x, y :: x in s[k..] && y in s[..k] ==> x.updatedAt <= y.updatedAt
  {
    forall x, y | x in s[k..] && y in s[..k]
      ensures x.updatedAt <= y.updatedAt
    {
      var j :| 0 <= j < |s[k..]| && s[k..][j] == x;
      var i :| 0 <= i < |s[..k]| && s[..k][i] == y;
      assert s[k + j] == x && s[i] == y;
    }
  }

  lemma RecentIsNewest(rows: seq<Row>, limit: int)
    ensures |Recent(rows, limit)| == LimitCount(limit, |rows|)
    ensures NewestFirst(Recent(rows, limit))
    ensures multiset(Recent(rows, limit)) <= multiset(rows)
    ensures forall x, y :: x in multiset(rows) - multiset(Recent(rows, limit)) && y in Recent(rows, limit) ==>
      x.updatedAt <= y.updatedAt
  {
    var s := SortByTime(rows);
    var k := LimitCount(limit, |rows|);
    assert s == s[..k] + s[k..];
    assert multiset(rows) == multiset(s[..k]) + multiset(s[k..]);
    assert multiset(rows) - multiset(s[..k]) == multiset(s[k..]);
    PrefixIsNewest(s, k);
  }

  /** The DBManager object: whether its database is open, and the `downloads` table of that database. */
  class DBManager {
    var isOpen: bool
    var rows: seq<Row>

    predicate Valid()
      reads this
    {
      TableValid(rows) && (!isOpen ==> rows == [])
    }

    constructor ()
      ensures Valid() && !isOpen && rows == []
    {
      isOpen := false;
      rows := [];
    }

    /**
     * openAtPath: a database that is already open is left as it is. Otherwise
     * the file is opened (`canOpen` is whether SQLite manages to), and
     * CREATE TABLE IF NOT EXISTS keeps the table `existing` already stored in it.
     */
    method OpenAtPath(existing: Option<seq<Row>>, canOpen: bool) returns (ok: bool)
      requires Valid()
      requires existing.Some? ==> TableValid(existing.value)
      modifies this
      ensures Valid()
      ensures old(isOpen) ==> ok && isOpen && rows == old(rows)
      ensures !old(isOpen) ==> ok == canOpen && isOpen == canOpen
      ensures !old(isOpen) && canOpen ==> rows == existing.GetOr([])
    {
      if isOpen {
        return true;
      }
      if !canOpen {
        return false;
      }
      isOpen := true;
      rows := existing.GetOr([]);
      ok := true;
    }

    method Close()
      requires Valid()
      modifies this
      ensures Valid() && !isOpen
    {
      isOpen := false;
      rows := [];
    }

    /** addOrIgnoreQueued: the INSERT fails on a closed database and is ignored for a present key. */
    method AddOrIgnoreQueued(url: string, filePath: string, fileName: string, now: nat) returns (ok: bool)
      requires Valid()
      modifies this
      ensures Valid() && isOpen == old(isOpen)
      ensures ok == isOpen
      ensures rows == if isOpen then InsertOrIgnore(old(rows), url, filePath, fileName, now) else old(rows)
    {
      if !isOpen {
        return false;
      }
      rows := InsertOrIgnore(rows, url, filePath, fileName, now);
      ok := true;
    }

    /** The shared shape of the three keyed UPDATEs. */
    method Update(url: string, filePath: string, c: Change, now: nat) returns (ok: bool)
      requires Valid()
      modifies this
      ensures Valid() && isOpen == old(isOpen)
      ensures ok == isOpen
      ensures rows == if isOpen then UpdateWhere(old(rows), url, filePath, c, now) else old(rows)
    {
      if !isOpen {
        return false;
      }
      UpdateKeepsTable(rows, url, filePath, c, now);
      rows := UpdateWhere(rows, url, filePath, c, now);
      ok := true;
    }

    /** updateProgress: sets progress (unclamped) and updated_at of the keyed row. */
    method UpdateProgress(url: string, filePath: string, progress: int, now: nat) returns (ok: bool)
      requires Valid()
      modifies this
      ensures Valid() && isOpen == old(isOpen)
      ensures ok == isOpen
      ensures rows == if isOpen then UpdateWhere(old(rows), url, filePath, SetProgress(progress), now) else old(rows)
    {
      ok := Update(url, filePath, SetProgress(progress), now);
    }

    /** updateStatus: sets status and updated_at of the keyed row. */
    method UpdateStatus(url: string, filePath: string, status: string, now: nat) returns (ok: bool)
      requires Valid()
      modifies this
      ensures Valid() && isOpen == old(isOpen)
      ensures ok == isOpen
      ensures rows == if isOpen then UpdateWhere(old(rows), url, filePath, SetStatus(status), now) else old(rows)
    {
      ok := Update(url, filePath, SetStatus(status), now);
    }

    /** setHashAndDone: sets sha256, status 'Done', progress 100 and updated_at of the keyed row. */
    method SetHashAndDone(url: string, filePath: string, sha256: string, now: nat) returns (ok: bool)
      requires Valid()
      modifies this
      ensures Valid() && isOpen == old(isOpen)
      ensures ok == isOpen
      ensures rows == if isOpen then UpdateWhere(old(rows), url, filePath, MarkDone(sha256), now) else old(rows)
    {
      ok := Update(url, filePath, MarkDone(sha256), now);
    }

    /**
     * fetchRecent: nothing when the database is not open; otherwise the records
     * of the newest rows, newest first, at most `limit` of them (200 when the
     * caller gives no limit).
     */
    method FetchRecent(limit: int := DefaultFetchLimit) returns (out: seq<DownloadRecord>)
      requires Valid()
      ensures !isOpen ==> out == []
      ensures isOpen ==> |out| == LimitCount(limit, |rows|)
      ensures isOpen ==> forall i :: 0 <= i < |out| ==> out[i] == ToRecord(Recent(rows, limit)[i])
      ensures limit >= 0 ==> |out| <= limit
      ensures forall i, j :: 0 <= i < j < |out| ==> out[j].updatedAt <= out[i].updatedAt
    {
      out := [];
      if !isOpen {
        return;
      }
      var result := Recent(rows, limit);
      var k := 0;
      while k < |result|
        invariant 0 <= k <= |result|
        invariant |out| == k
        invariant forall i :: 0 <= i < k ==> out[i] == ToRecord(result[i])
      {
        out := out + [ToRecord(result[k])];
        k := k + 1;
      }
      RecentIsNewest(rows, limit);
    }

    /** clearAll: DELETE every row; refused (false, nothing changes) when the database is not open. */
    method ClearAll() returns (ok: bool)
      requires Valid()
      modifies this
      ensures Valid() && isOpen == old(isOpen)
      ensures ok == old(isOpen)
      ensures rows == []
    {
      if !isOpen {
        return false;
      }
      rows := [];
      ok := true;
    }
  }
}
