/**
 * The coordinator of MainWindow as a state machine over values. Its state is
 * - the download table;
 * - the two routing maps from a network reply to its row and to its
 *   destination path;
 * - the one tracked page fetch;
 * - the trace of requests the window sends to the writer worker, the hasher
 *   worker and the network.
 *
 * The network events (readyRead, downloadProgress, finished) are inputs of
 * the handlers. So are QUrl's parser, the QUrl(string) constructor, as
 * `parse`, and QUrl::resolved, as `resolve`.
 *
 * Every handler is a function of the window. The invariant Valid is kept by
 * each of them (the ...KeepsValid lemmas), so it holds after every run of
 * events from the initial window (ReachableValid).
 */
module WindowModel {
  import opened Base
  import opened WindowHelpers

  /** onPageFetched adds at most this many rows. */
  const MaxFiles: nat := 200
  const InvalidUrlMessage: string := "invalid URL"

  /** A network reply (QNetworkReply*); fresh ones are drawn from a counter. */
  type Reply = nat

  /** One row of the download table: the URL, File, Progress and Status cells. */
  datatype TableRow = TableRow(url: string, file: string, progress: int, status: Status)

  /** What the window emits: a writer request, a hash request, or a network GET. */
  datatype Request =
    | OpenFile(row: int, path: string)
    | AppendChunk(row: int, chunk: seq<byte>)
    | CloseFile(row: int)
    | Hash(row: int, path: string)
    | Fetch(reply: Reply, url: Url)

  datatype Window = Window(
    rows: seq<TableRow>,
    downloadDir: string,
    replyToRow: map<Reply, int>,
    replyToPath: map<Reply, string>,
    pageReply: Option<Reply>,
    pageBase: Url,
    nextReply: nat,
    requests: seq<Request>)

  const NoUrl: Url := Url(false, "", "", "", "", "")

  /** The window as constructed: empty table, no folder, no routes, no page fetch. */
  const Initial: Window := Window([], "", map[], map[], None, NoUrl, 0, [])

  // ---------------------------------------------------------------- the table

  /** urlExistsInTable: some row's trimmed URL equals the trimmed text. */
  predicate InTable(rows: seq<TableRow>, urlStr: string)
    decreases |rows|
  {
    |rows| > 0 && (InTable(rows[..|rows| - 1], urlStr) || Trim(rows[|rows| - 1].url) == Trim(urlStr))
  }

  /** InTable is the search urlExistsInTable makes: some row matches after trimming. */
  lemma {:induction false} InTableIff(rows: seq<TableRow>, urlStr: string)
    ensures InTable(rows, urlStr) <==> exists r :: 0 <= r < |rows| && Trim(rows[r].url) == Trim(urlStr)
    decreases |rows|
  {
    if |rows| > 0 {
      var init := rows[..|rows| - 1];
      InTableIff(init, urlStr);
      if InTable(init, urlStr) {
        var r :| 0 <= r < |init| && Trim(init[r].url) == Trim(urlStr);
        assert rows[r] == init[r];
      }
      if r :| 0 <= r < |rows| && Trim(rows[r].url) == Trim(urlStr) {
        if r < |init| {
          assert rows[r] == init[r];
        }
      }
    }
  }

  /** No two rows share a trimmed URL. */
  predicate UrlsDistinct(rows: seq<TableRow>) {
    forall i, j :: 0 <= i < j < |rows| ==> Trim(rows[i].url) != Trim(rows[j].url)
  }

  /** Two tables whose URL cells agree row by row. */
  predicate SameUrls(a: seq<TableRow>, b: seq<TableRow>) {
    |a| == |b| && forall i :: 0 <= i < |a| ==> a[i].url == b[i].url
  }

  lemma SameUrlsDistinct(a: seq<TableRow>, b: seq<TableRow>)
    requires SameUrls(a, b) && UrlsDistinct(a)
    ensures UrlsDistinct(b)
  {
    forall i, j | 0 <= i < j < |b|
      ensures Trim(b[i].url) != Trim(b[j].url)
    {
      assert a[i].url == b[i].url && a[j].url == b[j].url;
    }
  }

  function NewRow(urlStr: string, parse: string -> Url): TableRow {
    TableRow(urlStr, FileNameFromPath(parse(urlStr).path), 0, Queued)
  }

  /** addUrlToTable: a blank or already listed URL changes nothing; otherwise one Queued row at 0% is appended. */
  function AddedUrl(rows: seq<TableRow>, urlStr: string, parse: string -> Url): (rows': seq<TableRow>)
    ensures Trim(urlStr) == [] || InTable(rows, urlStr) ==> rows' == rows
    ensures !(Trim(urlStr) == [] || InTable(rows, urlStr)) ==> rows' == rows + [NewRow(urlStr, parse)]
  {
    if Trim(urlStr) == [] || InTable(rows, urlStr) then rows
    else rows + [NewRow(urlStr, parse)]
  }

  /** Adding a URL keeps the table free of duplicates, and afterwards a non-blank URL is listed. */
  lemma AddedUrlDistinct(rows: seq<TableRow>, urlStr: string, parse: string -> Url)
    requires UrlsDistinct(rows)
    ensures UrlsDistinct(AddedUrl(rows, urlStr, parse))
    ensures Trim(urlStr) != [] ==> InTable(AddedUrl(rows, urlStr, parse), urlStr)
  {
    var out := AddedUrl(rows, urlStr, parse);
    InTableIff(rows, urlStr);
    InTableIff(out, urlStr);
    if out != rows {
      assert out[|rows|].url == urlStr;
      forall i, j | 0 <= i < j < |out|
        ensures Trim(out[i].url) != Trim(out[j].url)
      {
        assert out[i] == rows[i];
        if j < |rows| {
          assert out[j] == rows[j];
        }
      }
    }
  }

  // ----------------------------------------------------------- the invariant

  /** The routing maps know the same replies, and each routes to an existing row. */
  predicate Routed(w: Window) {
    && w.replyToRow.Keys == w.replyToPath.Keys
    && forall k :: k in w.replyToRow ==> 0 <= w.replyToRow[k] < |w.rows|
  }

  /** Every routed reply was drawn from the counter before its current value. */
  predicate Fresh(w: Window) {
    forall k :: k in w.replyToRow ==> k < w.nextReply
  }

  /** An OpenFile(row, path) was emitted before position i of the trace. */
  ghost predicate OpenedBefore(reqs: seq<Request>, i: int, row: int, path: string)
    requires 0 <= i <= |reqs|
  {
    exists j :: 0 <= j < i && reqs[j] == OpenFile(row, path)
  }

  /** Some file was opened for `row` before position i of the trace. */
  ghost predicate RowOpenedBefore(reqs: seq<Request>, i: int, row: int)
    requires 0 <= i <= |reqs|
  {
    exists j :: 0 <= j < i && reqs[j].OpenFile? && reqs[j].row == row
  }

  predicate UsesFile(q: Request) {
    q.AppendChunk? || q.CloseFile? || q.Hash?
  }

  function FileRow(q: Request): int
    requires UsesFile(q)
  {
    match q
    case AppendChunk(r, _) => r
    case CloseFile(r) => r
    case Hash(r, _) => r
  }

  /**
   * The ordering of the request trace:
   * - every append, close and hash request for a row comes after an open for
   *   that row;
   * - every hash request directly follows the close request of the same row
   *   and names a path that was opened for that row.
   */
  ghost predicate TraceOrdered(reqs: seq<Request>) {
    && (forall i :: 0 <= i < |reqs| && UsesFile(reqs[i]) ==> RowOpenedBefore(reqs, i, FileRow(reqs[i])))
    && (forall i :: 0 <= i < |reqs| && reqs[i].Hash? ==>
          0 < i && reqs[i - 1] == CloseFile(reqs[i].row) && OpenedBefore(reqs, i, reqs[i].row, reqs[i].path))
  }

  /**
   * The window's invariant:
   * - the routes are well formed, and each points at a file opened for its row;
   * - reply handles are fresh, and the page fetch is never also a download;
   * - no URL appears twice in the table;
   * - the request trace is ordered.
   */
  ghost predicate Valid(w: Window) {
    && Routed(w)
    && Fresh(w)
    && (forall k :: k in w.replyToRow ==> OpenedBefore(w.requests, |w.requests|, w.replyToRow[k], w.replyToPath[k]))
    && (w.pageReply.Some? ==> w.pageReply.value < w.nextReply && w.pageReply.value !in w.replyToRow)
    && UrlsDistinct(w.rows)
    && TraceOrdered(w.requests)
  }

  /** Appending requests keeps earlier opens visible. */
  lemma OpenedStaysBefore(reqs: seq<Request>, more: seq<Request>, i: int, row: int, path: string)
    requires 0 <= i <= |reqs| && OpenedBefore(reqs, i, row, path)
    ensures OpenedBefore(reqs + more, |reqs + more|, row, path)
  {
    var j :| 0 <= j < i && reqs[j] == OpenFile(row, path);
    assert (reqs + more)[j] == OpenFile(row, path);
  }

  lemma OpenedRow(reqs: seq<Request>, i: int, row: int, path: string)
    requires 0 <= i <= |reqs| && OpenedBefore(reqs, i, row, path)
    ensures RowOpenedBefore(reqs, i, row)
  {
    var j :| 0 <= j < i && reqs[j] == OpenFile(row, path);
  }

  /** Extending an ordered trace by a request placed as the ordering demands. */
  lemma {:induction false} TraceExtends(reqs: seq<Request>, q: Request)
    requires TraceOrdered(reqs)
    requires UsesFile(q) ==> RowOpenedBefore(reqs, |reqs|, FileRow(q))
    requires q.Hash? ==> (|reqs| > 0 && reqs[|reqs| - 1] == CloseFile(q.row) && OpenedBefore(reqs, |reqs|, q.row, q.path))
    ensures TraceOrdered(reqs + [q])
  {
    var t := reqs + [q];
    forall i | 0 <= i < |t| && UsesFile(t[i])
      ensures RowOpenedBefore(t, i, FileRow(t[i]))
    {
      var goal := FileRow(t[i]);
      var n := if i < |reqs| then i else |reqs|;
      assert RowOpenedBefore(reqs, n, goal) by {
        if i < |reqs| {
          assert t[i] == reqs[i];
        }
      }
      var j :| 0 <= j < n && reqs[j].OpenFile? && reqs[j].row == goal;
      assert t[j] == reqs[j];
    }
    forall i | 0 <= i < |t| && t[i].Hash?
      ensures 0 < i && t[i - 1] == CloseFile(t[i].row) && OpenedBefore(t, i, t[i].row, t[i].path)
    {
      var n := if i < |reqs| then i else |reqs|;
      assert t[i - 1] == reqs[i - 1];
      assert OpenedBefore(reqs, n, t[i].row, t[i].path) by {
        if i < |reqs| {
          assert t[i] == reqs[i];
        }
      }
      var j :| 0 <= j < n && reqs[j] == OpenFile(t[i].row, t[i].path);
      assert t[j] == reqs[j];
    }
  }

  /** Emitting a request placed as the ordering demands keeps the invariant. */
  lemma EmitKeepsValid(w: Window, q: Request)
    requires Valid(w)
    requires UsesFile(q) ==> RowOpenedBefore(w.requests, |w.requests|, FileRow(q))
    requires q.Hash? ==> (|w.requests| > 0 && w.requests[|w.requests| - 1] == CloseFile(q.row) &&
      OpenedBefore(w.requests, |w.requests|, q.row, q.path))
    ensures Valid(w.(requests := w.requests + [q]))
  {
    TraceExtends(w.requests, q);
    forall k | k in w.replyToRow
      ensures OpenedBefore(w.requests + [q], |w.requests + [q]|, w.replyToRow[k], w.replyToPath[k])
    {
      OpenedStaysBefore(w.requests, [q], |w.requests|, w.replyToRow[k], w.replyToPath[k]);
    }
  }

  /** Replacing a row by one with the same URL keeps the invariant. */
  lemma RetouchKeepsValid(w: Window, row: nat, r: TableRow)
    requires Valid(w) && row < |w.rows| && r.url == w.rows[row].url
    ensures Valid(w.(rows := w.rows[row := r]))
  {
    assert SameUrls(w.rows, w.rows[row := r]);
    SameUrlsDistinct(w.rows, w.rows[row := r]);
  }

  /** Routing a fresh reply to an existing row and to a path opened for it keeps the invariant. */
  lemma RouteKeepsValid(w: Window, row: nat, path: string)
    requires Valid(w) && row < |w.rows| && OpenedBefore(w.requests, |w.requests|, row, path)
    ensures Valid(w.(replyToRow := w.replyToRow[w.nextReply := row],
                     replyToPath := w.replyToPath[w.nextReply := path],
                     nextReply := w.nextReply + 1))
  {
  }

  // ----------------------------------------------------------- the handlers

  /** The folder the downloads go to (onChooseFolderClicked without its dialog): an empty choice is ignored. */
  function ChooseFolder(w: Window, dir: string): (w': Window)
    ensures dir == [] ==> w' == w
    ensures dir != [] ==> w' == w.(downloadDir := dir)
  {
    if dir == [] then w else w.(downloadDir := dir)
  }

  /** addUrlToTable, on the window: only the table changes. */
  function AddUrl(w: Window, urlStr: string, parse: string -> Url): (w': Window)
    requires Routed(w)
    ensures Routed(w')
    ensures w' == w.(rows := AddedUrl(w.rows, urlStr, parse))
  {
    w.(rows := AddedUrl(w.rows, urlStr, parse))
  }

  lemma AddUrlKeepsValid(w: Window, urlStr: string, parse: string -> Url)
    requires Valid(w)
    ensures Valid(AddUrl(w, urlStr, parse))
  {
    AddedUrlDistinct(w.rows, urlStr, parse);
  }

  /** A URL that startDownloadForRow accepts: valid and with a scheme. */
  predicate Downloadable(u: Url) {
    u.valid && u.scheme != []
  }

  /**
   * QDir(dir).filePath(name) for a relative name: an empty dir stands for
   * ".", one trailing '/' of a longer dir is dropped, and the name is added
   * after a '/'.
   */
  function JoinPath(dir: string, name: string): string {
    var d := if dir == [] then "." else if |dir| > 1 && dir[|dir| - 1] == '/' then dir[..|dir| - 1] else dir;
    if d[|d| - 1] == '/' then d + name
    else d + "/" + name
  }

  /**
   * The folder and the name are separated by exactly one '/' when the folder
   * ends in at most one; an empty folder is the current directory.
   */
  lemma JoinPathSpec(dir: string, name: string)
    ensures dir == [] ==> JoinPath(dir, name) == "./" + name
    ensures dir != [] && dir[|dir| - 1] != '/' ==> JoinPath(dir, name) == dir + "/" + name
    ensures dir == "/" ==> JoinPath(dir, name) == "/" + name
    ensures |dir| > 1 && dir[|dir| - 1] == '/' && dir[|dir| - 2] != '/' ==> JoinPath(dir, name) == dir + name
  {
    if |dir| > 1 && dir[|dir| - 1] == '/' && dir[|dir| - 2] != '/' {
      assert dir == dir[..|dir| - 1] + "/";
    }
  }

  /** Whatever the folder, the path starts like it and ends in '/' and the name. */
  lemma JoinPathShape(dir: string, name: string)
    requires dir != []
    ensures EndsWith(JoinPath(dir, name), "/" + name)
    ensures StartsWith(JoinPath(dir, name), dir[..1])
  {
    var d := if |dir| > 1 && dir[|dir| - 1] == '/' then dir[..|dir| - 1] else dir;
    assert d[0] == dir[0];
    var t := "/" + name;
    var x := if d[|d| - 1] == '/' then d[..|d| - 1] else d;
    assert d[|d| - 1] == '/' ==> d == x + "/";
    assert JoinPath(dir, name) == x + t;
    assert (x + t)[|x|..] == t;
    assert (x + t)[..1] == [dir[0]] by {
      if x == [] {
        assert d == "/" && dir[0] == '/';
      } else {
        assert x[0] == dir[0];
      }
    }
  }

  /** The URL of a row, as startDownloadForRow parses it from the trimmed cell. */
  function RowUrl(w: Window, row: nat, parse: string -> Url): Url
    requires row < |w.rows|
  {
    parse(Trim(w.rows[row].url))
  }

  /** Where the row's download is written: the URL's file name inside the download folder. */
  function TargetPath(w: Window, row: nat, parse: string -> Url): string
    requires row < |w.rows|
  {
    JoinPath(w.downloadDir, FileNameFromPath(RowUrl(w, row, parse).path))
  }

  /**
   * startDownloadForRow. A row whose URL is unusable is marked
   * "Error: invalid URL" and nothing is emitted. Otherwise the window
   * - emits an open request for the target path, then a GET;
   * - routes the new reply to the row and to that path;
   * - shows the row as Downloading at 0%.
   */
  function StartRow(w: Window, row: nat, parse: string -> Url): (w': Window)
    requires Routed(w) && row < |w.rows|
    ensures Routed(w')
    ensures |w'.rows| == |w.rows| && w'.downloadDir == w.downloadDir
    ensures w'.pageReply == w.pageReply && w'.pageBase == w.pageBase
    ensures forall r :: 0 <= r < |w.rows| && r != row ==> w'.rows[r] == w.rows[r]
    ensures !Downloadable(RowUrl(w, row, parse)) ==>
      w' == w.(rows := w.rows[row := w.rows[row].(status := Failed(InvalidUrlMessage))])
    ensures Downloadable(RowUrl(w, row, parse)) ==>
      && w'.rows[row] == w.rows[row].(status := Downloading, progress := 0)
      && w'.requests == w.requests + [OpenFile(row, TargetPath(w, row, parse)), Fetch(w.nextReply, RowUrl(w, row, parse))]
      && w'.nextReply == w.nextReply + 1
      && w'.replyToRow == w.replyToRow[w.nextReply := row]
      && w'.replyToPath == w.replyToPath[w.nextReply := TargetPath(w, row, parse)]
  {
    var url := RowUrl(w, row, parse);
    if !Downloadable(url) then
      w.(rows := w.rows[row := w.rows[row].(status := Failed(InvalidUrlMessage))])
    else
      var path := TargetPath(w, row, parse);
      w.(rows := w.rows[row := w.rows[row].(status := Downloading, progress := 0)],
         requests := w.requests + [OpenFile(row, path), Fetch(w.nextReply, url)],
         replyToRow := w.replyToRow[w.nextReply := row],
         replyToPath := w.replyToPath[w.nextReply := path],
         nextReply := w.nextReply + 1)
  }

  lemma DownloadKeepsValid(w: Window, row: nat, path: string, url: Url)
    requires Valid(w) && row < |w.rows|
    ensures Valid(w.(rows := w.rows[row := w.rows[row].(status := Downloading, progress := 0)],
         requests := w.requests + [OpenFile(row, path), Fetch(w.nextReply, url)],
         replyToRow := w.replyToRow[w.nextReply := row],
         replyToPath := w.replyToPath[w.nextReply := path],
         nextReply := w.nextReply + 1))
  {
      var open, fetch := OpenFile(row, path), Fetch(w.nextReply, url);
      var w1 := w.(requests := w.requests + [open]);
      EmitKeepsValid(w, open);
      assert w1.requests[|w.requests|] == open;
      var w2 := w1.(replyToRow := w.replyToRow[w.nextReply := row],
                    replyToPath := w.replyToPath[w.nextReply := path],
                    nextReply := w.nextReply + 1);
      RouteKeepsValid(w1, row, path);
      var w3 := w2.(requests := w1.requests + [fetch]);
      EmitKeepsValid(w2, fetch);
      RetouchKeepsValid(w3, row, w.rows[row].(status := Downloading, progress := 0));
      assert w1.requests + [fetch] == w.requests + [open, fetch];
  }

  lemma StartRowKeepsValid(w: Window, row: nat, parse: string -> Url)
    requires Valid(w) && row < |w.rows|
    ensures Valid(StartRow(w, row, parse))
  {
    var url := RowUrl(w, row, parse);
    if !Downloadable(url) {
      RetouchKeepsValid(w, row, w.rows[row].(status := Failed(InvalidUrlMessage)));
    } else {
      DownloadKeepsValid(w, row, TargetPath(w, row, parse), url);
    }
  }

  /** Whether onStartAllClicked restarts a row: Queued or "Downloaded (hashing...)". */
  predicate Restartable(r: TableRow) {
    r.status.Queued? || r.status.DownloadedHashing?
  }

  /** onStartAllClicked decides on the status text; the text test picks out exactly the Restartable rows. */
  lemma RestartableIsTextTest(r: TableRow)
    ensures Restartable(r) <==> !SkippedByStartAll(Render(r.status))
  {
    SkipRule(r.status);
  }

  /** The loop of onStartAllClicked from `row` on. */
  function StartFrom(w: Window, row: nat, parse: string -> Url): (w': Window)
    requires Routed(w)
    ensures Routed(w')
    ensures |w'.rows| == |w.rows| && w'.downloadDir == w.downloadDir && w'.pageReply == w.pageReply
    ensures w.nextReply <= w'.nextReply
    decreases |w.rows| - row
  {
    if row >= |w.rows| then w
    else if !Restartable(w.rows[row]) then StartFrom(w, row + 1, parse)
    else StartFrom(StartRow(w, row, parse), row + 1, parse)
  }

  lemma {:induction false} StartFromKeepsValid(w: Window, row: nat, parse: string -> Url)
    requires Valid(w)
    ensures Valid(StartFrom(w, row, parse))
    decreases |w.rows| - row
  {
    if row < |w.rows| {
      if Restartable(w.rows[row]) {
        StartRowKeepsValid(w, row, parse);
        StartFromKeepsValid(StartRow(w, row, parse), row + 1, parse);
      } else {
        StartFromKeepsValid(w, row + 1, parse);
      }
    }
  }

  /** onStartAllClicked: nothing happens without a folder or without rows; otherwise every restartable row is started, in order. */
  function StartAll(w: Window, parse: string -> Url): (w': Window)
    requires Routed(w)
    ensures Routed(w')
    ensures w.downloadDir == [] || w.rows == [] ==> w' == w
  {
    if w.downloadDir == [] || |w.rows| == 0 then w else StartFrom(w, 0, parse)
  }

  /** The readyRead handler: a non-empty chunk of a routed reply becomes an append request for its row. */
  function ReadyRead(w: Window, reply: Reply, chunk: seq<byte>): (w': Window)
    requires Routed(w)
    ensures Routed(w')
    ensures reply !in w.replyToRow || chunk == [] ==> w' == w
    ensures reply in w.replyToRow && chunk != [] ==>
      w' == w.(requests := w.requests + [AppendChunk(w.replyToRow[reply], chunk)])
  {
    if reply !in w.replyToRow || chunk == [] then w
    else w.(requests := w.requests + [AppendChunk(w.replyToRow[reply], chunk)])
  }

  lemma ReadyReadKeepsValid(w: Window, reply: Reply, chunk: seq<byte>)
    requires Valid(w)
    ensures Valid(ReadyRead(w, reply, chunk))
  {
    if reply in w.replyToRow && chunk != [] {
      OpenedRow(w.requests, |w.requests|, w.replyToRow[reply], w.replyToPath[reply]);
      EmitKeepsValid(w, AppendChunk(w.replyToRow[reply], chunk));
    }
  }

  /** handleProgress: the routed row's progress becomes the percentage, with no clamping. */
  function Progress(w: Window, reply: Reply, received: int, total: int): (w': Window)
    requires Routed(w)
    ensures Routed(w')
    ensures reply !in w.replyToRow ==> w' == w
    ensures reply in w.replyToRow ==>
      w' == w.(rows := w.rows[w.replyToRow[reply] := w.rows[w.replyToRow[reply]].(progress := Percent(received, total))])
  {
    if reply !in w.replyToRow then w
    else
      var row := w.replyToRow[reply];
      w.(rows := w.rows[row := w.rows[row].(progress := Percent(received, total))])
  }

  lemma ProgressKeepsValid(w: Window, reply: Reply, received: int, total: int)
    requires Valid(w)
    ensures Valid(Progress(w, reply, received, total))
  {
    if reply in w.replyToRow {
      var row := w.replyToRow[reply];
      RetouchKeepsValid(w, row, w.rows[row].(progress := Percent(received, total)));
    }
  }

  /** The requests handleFinished emits for a routed reply. */
  function FinishRequests(row: int, path: string, lastChunk: seq<byte>, error: Option<string>): seq<Request> {
    (if lastChunk != [] then [AppendChunk(row, lastChunk)] else []) +
    (if error.Some? then [CloseFile(row)] else [CloseFile(row), Hash(row, path)])
  }

  /** The row after handleFinished: "Error: ..." on an error, else 100% and "Downloaded (hashing...)". */
  function FinishedRow(r: TableRow, error: Option<string>): TableRow {
    if error.Some? then r.(status := Failed(error.value)) else r.(progress := 100, status := DownloadedHashing)
  }

  /**
   * handleFinished. The reply leaves both routing maps. For a routed reply
   * - a non-empty tail chunk is appended, then the file is closed;
   * - on an error the row shows "Error: ..." and no hash is requested;
   * - otherwise the row shows 100% and "Downloaded (hashing...)", and a hash
   *   of the routed path is requested right after the close.
   */
  function Finished(w: Window, reply: Reply, lastChunk: seq<byte>, error: Option<string>): (w': Window)
    requires Routed(w)
    ensures Routed(w')
    ensures w'.replyToRow == w.replyToRow - {reply} && w'.replyToPath == w.replyToPath - {reply}
    ensures w'.downloadDir == w.downloadDir && w'.pageReply == w.pageReply && w'.nextReply == w.nextReply
    ensures reply !in w.replyToRow ==> w'.rows == w.rows && w'.requests == w.requests
    ensures reply in w.replyToRow ==>
      && w'.requests == w.requests + FinishRequests(w.replyToRow[reply], w.replyToPath[reply], lastChunk, error)
      && w'.rows == w.rows[w.replyToRow[reply] := FinishedRow(w.rows[w.replyToRow[reply]], error)]
  {
    var w0 := w.(replyToRow := w.replyToRow - {reply}, replyToPath := w.replyToPath - {reply});
    if reply !in w.replyToRow then w0
    else
      var row, path := w.replyToRow[reply], w.replyToPath[reply];
      w0.(requests := w.requests + FinishRequests(row, path, lastChunk, error),
          rows := w.rows[row := FinishedRow(w.rows[row], error)])
  }

  /** The tail chunk of handleFinished: appending it keeps the invariant and the open of the path. */
  lemma TailChunkKeepsValid(w: Window, row: nat, path: string, lastChunk: seq<byte>)
    requires Valid(w) && row < |w.rows| && OpenedBefore(w.requests, |w.requests|, row, path)
    ensures var reqs := w.requests + (if lastChunk != [] then [AppendChunk(row, lastChunk)] else []);
      Valid(w.(requests := reqs)) && OpenedBefore(reqs, |reqs|, row, path)
  {
    if lastChunk != [] {
      OpenedRow(w.requests, |w.requests|, row, path);
      EmitKeepsValid(w, AppendChunk(row, lastChunk));
      OpenedStaysBefore(w.requests, [AppendChunk(row, lastChunk)], |w.requests|, row, path);
    } else {
      assert w.(requests := w.requests + []) == w;
    }
  }

  /** The close of handleFinished, and the hash request after it unless the reply failed, keep the invariant. */
  lemma CloseAndHashKeepValid(w: Window, row: nat, path: string, error: Option<string>)
    requires Valid(w) && row < |w.rows| && OpenedBefore(w.requests, |w.requests|, row, path)
    ensures Valid(w.(requests := w.requests + (if error.Some? then [CloseFile(row)] else [CloseFile(row), Hash(row, path)])))
  {
    OpenedRow(w.requests, |w.requests|, row, path);
    EmitKeepsValid(w, CloseFile(row));
    if error.None? {
      var w2 := w.(requests := w.requests + [CloseFile(row)]);
      OpenedStaysBefore(w.requests, [CloseFile(row)], |w.requests|, row, path);
      EmitKeepsValid(w2, Hash(row, path));
      assert w2.requests + [Hash(row, path)] == w.requests + [CloseFile(row), Hash(row, path)];
    }
  }

  /** Appending the requests of handleFinished for a row opened on `path` keeps the invariant. */
  lemma FinishTraceKeepsValid(w: Window, row: nat, path: string, lastChunk: seq<byte>, error: Option<string>)
    requires Valid(w) && row < |w.rows| && OpenedBefore(w.requests, |w.requests|, row, path)
    ensures Valid(w.(requests := w.requests + FinishRequests(row, path, lastChunk, error)))
  {
    var tail := if lastChunk != [] then [AppendChunk(row, lastChunk)] else [];
    var last := if error.Some? then [CloseFile(row)] else [CloseFile(row), Hash(row, path)];
    TailChunkKeepsValid(w, row, path, lastChunk);
    var w1 := w.(requests := w.requests + tail);
    CloseAndHashKeepValid(w1, row, path, error);
    assert w.requests + FinishRequests(row, path, lastChunk, error) == w1.requests + last;
  }

  /** Appending the requests of handleFinished for a row opened on `path`, and updating the row, keeps the invariant. */
  lemma FinishKeepsValid(w: Window, row: nat, path: string, lastChunk: seq<byte>, error: Option<string>)
    requires Valid(w) && row < |w.rows| && OpenedBefore(w.requests, |w.requests|, row, path)
    ensures Valid(w.(requests := w.requests + FinishRequests(row, path, lastChunk, error),
                     rows := w.rows[row := FinishedRow(w.rows[row], error)]))
  {
    FinishTraceKeepsValid(w, row, path, lastChunk, error);
    var w3 := w.(requests := w.requests + FinishRequests(row, path, lastChunk, error));
    RetouchKeepsValid(w3, row, FinishedRow(w.rows[row], error));
  }

  lemma FinishedKeepsValid(w: Window, reply: Reply, lastChunk: seq<byte>, error: Option<string>)
    requires Valid(w)
    ensures Valid(Finished(w, reply, lastChunk, error))
  {
    var w0 := w.(replyToRow := w.replyToRow - {reply}, replyToPath := w.replyToPath - {reply});
    assert Valid(w0);
    if reply in w.replyToRow {
      FinishKeepsValid(w0, w.replyToRow[reply], w.replyToPath[reply], lastChunk, error);
    }
  }

  /**
   * The status a worker callback sets: onWriterError, onHashReady and
   * onHashError. The callbacks only ever carry rows the window sent out; a
   * row outside the table changes nothing.
   */
  function SetStatus(w: Window, row: int, s: Status): (w': Window)
    requires Routed(w)
    ensures Routed(w')
    ensures 0 <= row < |w.rows| ==> w' == w.(rows := w.rows[row := w.rows[row].(status := s)])
    ensures !(0 <= row < |w.rows|) ==> w' == w
  {
    if 0 <= row < |w.rows| then w.(rows := w.rows[row := w.rows[row].(status := s)]) else w
  }

  lemma SetStatusKeepsValid(w: Window, row: int, s: Status)
    requires Valid(w)
    ensures Valid(SetStatus(w, row, s))
  {
    if 0 <= row < |w.rows| {
      RetouchKeepsValid(w, row, w.rows[row].(status := s));
    }
  }

  /**
   * onAddClicked. A blank or unusable entry does nothing. A page URL starts
   * the page fetch, unless one is already tracked. Any other URL is added to
   * the table.
   */
  function AddClicked(w: Window, input: string, parse: string -> Url): (w': Window)
    requires Routed(w)
    ensures Routed(w')
    ensures var url := parse(Trim(input));
      && (Trim(input) == [] || !Downloadable(url) ==> w' == w)
      && (Trim(input) != [] && Downloadable(url) && LooksLikeWebPage(url.path) && w.pageReply.Some? ==> w' == w)
      && (Trim(input) != [] && Downloadable(url) && LooksLikeWebPage(url.path) && w.pageReply.None? ==>
            w' == w.(pageBase := url, pageReply := Some(w.nextReply), nextReply := w.nextReply + 1,
                     requests := w.requests + [Fetch(w.nextReply, url)]))
      && (Trim(input) != [] && Downloadable(url) && !LooksLikeWebPage(url.path) ==>
            w' == w.(rows := AddedUrl(w.rows, url.text, parse)))
  {
    var text := Trim(input);
    var url := parse(text);
    if text == [] || !Downloadable(url) then w
    else if LooksLikeWebPage(url.path) then
      if w.pageReply.Some? then w
      else
        var reply := w.nextReply;
        var w1 := w.(pageBase := url, pageReply := Some(reply), nextReply := reply + 1);
        w1.(requests := w1.requests + [Fetch(reply, url)])
    else AddUrl(w, url.text, parse)
  }

  lemma AddClickedKeepsValid(w: Window, input: string, parse: string -> Url)
    requires Valid(w)
    ensures Valid(AddClicked(w, input, parse))
  {
    var url := parse(Trim(input));
    if Trim(input) != [] && Downloadable(url) {
      if LooksLikeWebPage(url.path) {
        if w.pageReply.None? {
          var w1 := w.(pageBase := url, pageReply := Some(w.nextReply), nextReply := w.nextReply + 1);
          assert Valid(w1);
          EmitKeepsValid(w1, Fetch(w.nextReply, url));
        }
      } else {
        AddUrlKeepsValid(w, url.text, parse);
      }
    }
  }

  // ------------------------------------------------------------ link harvest

  /** What one regex capture yields: the trimmed text resolved against the base, kept if valid and http or https. */
  function Candidate(raw: string, base: Url, resolve: (Url, string) -> Url): (c: Option<Url>)
    ensures c.Some? ==> c.value.valid && (c.value.scheme == "http" || c.value.scheme == "https")
    ensures c.Some? ==> Trim(raw) != [] && c.value == resolve(base, Trim(raw))
  {
    var t := Trim(raw);
    var u := resolve(base, t);
    if t == [] || !u.valid || (u.scheme != "http" && u.scheme != "https") then None else Some(u)
  }

  function Candidates(captures: seq<string>, base: Url, resolve: (Url, string) -> Url): (cs: seq<Option<Url>>)
    ensures |cs| == |captures|
    ensures forall j :: 0 <= j < |captures| ==> cs[j] == Candidate(captures[j], base, resolve)
  {
    seq(|captures|, j requires 0 <= j < |captures| => Candidate(captures[j], base, resolve))
  }

  /** The de-duplication of extractLinksFromHtml: each candidate whose decoded form was not seen yet, in order. */
  function Dedup(cs: seq<Option<Url>>, seen: set<string>): seq<Url>
    decreases |cs|
  {
    if cs == [] then []
    else if cs[0].None? || cs[0].value.decoded in seen then Dedup(cs[1..], seen)
    else [cs[0].value] + Dedup(cs[1..], seen + {cs[0].value.decoded})
  }

  /** extractLinksFromHtml after the regex match. */
  function Links(captures: seq<string>, base: Url, resolve: (Url, string) -> Url): seq<Url> {
    Dedup(Candidates(captures, base, resolve), {})
  }

  /** Every kept link is one of the candidates. */
  lemma {:induction false} DedupFromCandidates(cs: seq<Option<Url>>, seen: set<string>)
    ensures forall i :: 0 <= i < |Dedup(cs, seen)| ==> exists j :: 0 <= j < |cs| && cs[j] == Some(Dedup(cs, seen)[i])
    decreases |cs|
  {
    if cs != [] {
      var tail := cs[1..];
      var skip := cs[0].None? || cs[0].value.decoded in seen;
      var seen' := if skip then seen else seen + {cs[0].value.decoded};
      DedupFromCandidates(tail, seen');
      var out, rest := Dedup(cs, seen), Dedup(tail, seen');
      assert out == if skip then rest else [cs[0].value] + rest;
      forall i | 0 <= i < |out|
        ensures exists j :: 0 <= j < |cs| && cs[j] == Some(out[i])
      {
        if !skip && i == 0 {
          assert cs[0] == Some(out[0]);
        } else {
          var i' := if skip then i else i - 1;
          assert 0 <= i' < |rest| && out[i] == rest[i'];
          var j :| 0 <= j < |tail| && tail[j] == Some(rest[i']);
          assert cs[j + 1] == tail[j];
        }
      }
    } else {
      assert Dedup(cs, seen) == [];
    }
  }

  /** No kept link has a key that was already seen. */
  lemma {:induction false} DedupUnseen(cs: seq<Option<Url>>, seen: set<string>)
    ensures forall i :: 0 <= i < |Dedup(cs, seen)| ==> Dedup(cs, seen)[i].decoded !in seen
    decreases |cs|
  {
    if cs != [] {
      var tail := cs[1..];
      var skip := cs[0].None? || cs[0].value.decoded in seen;
      var seen' := if skip then seen else seen + {cs[0].value.decoded};
      DedupUnseen(tail, seen');
      var out, rest := Dedup(cs, seen), Dedup(tail, seen');
      assert out == if skip then rest else [cs[0].value] + rest;
      forall i | 0 <= i < |out|
        ensures out[i].decoded !in seen
      {
        if skip || i > 0 {
          var i' := if skip then i else i - 1;
          assert 0 <= i' < |rest| && out[i] == rest[i'];
        }
      }
    } else {
      assert Dedup(cs, seen) == [];
    }
  }

  /** No key is kept twice. */
  lemma {:induction false} DedupDistinct(cs: seq<Option<Url>>, seen: set<string>)
    ensures forall i, k :: 0 <= i < k < |Dedup(cs, seen)| ==> Dedup(cs, seen)[i].decoded != Dedup(cs, seen)[k].decoded
    decreases |cs|
  {
    if cs != [] {
      var tail := cs[1..];
      var skip := cs[0].None? || cs[0].value.decoded in seen;
      var seen' := if skip then seen else seen + {cs[0].value.decoded};
      DedupDistinct(tail, seen');
      DedupUnseen(tail, seen');
      var out, rest := Dedup(cs, seen), Dedup(tail, seen');
      assert out == if skip then rest else [cs[0].value] + rest;
      forall i, k | 0 <= i < k < |out|
        ensures out[i].decoded != out[k].decoded
      {
        var off := if skip then 0 else 1;
        assert 0 <= k - off < |rest| && out[k] == rest[k - off];
        if i >= off {
          assert 0 <= i - off < |rest| && out[i] == rest[i - off];
        }
      }
    } else {
      assert Dedup(cs, seen) == [];
    }
  }

  /** No key is lost: every candidate whose key was not seen before is represented. */
  lemma {:induction false} DedupCoversKeys(cs: seq<Option<Url>>, seen: set<string>, j: nat)
    requires j < |cs| && cs[j].Some? && cs[j].value.decoded !in seen
    ensures exists i :: 0 <= i < |Dedup(cs, seen)| && Dedup(cs, seen)[i].decoded == cs[j].value.decoded
    decreases j
  {
    var key := cs[j].value.decoded;
    var tail := cs[1..];
    var skip := cs[0].None? || cs[0].value.decoded in seen;
    var seen' := if skip then seen else seen + {cs[0].value.decoded};
    var out, rest := Dedup(cs, seen), Dedup(tail, seen');
    assert out == if skip then rest else [cs[0].value] + rest;
    if !skip && cs[0].value.decoded == key {
      assert out[0].decoded == key;
    } else {
      assert j > 0 && tail[j - 1] == cs[j];
      DedupCoversKeys(tail, seen', j - 1);
      var i :| 0 <= i < |rest| && rest[i].decoded == key;
      var off := if skip then 0 else 1;
      assert 0 <= i + off < |out| && out[i + off] == rest[i];
    }
  }

  /** The first candidate with a given unseen key is the one kept: later duplicates are dropped. */
  lemma {:induction false} DedupKeepsFirst(cs: seq<Option<Url>>, seen: set<string>, j: nat)
    requires j < |cs| && cs[j].Some? && cs[j].value.decoded !in seen
    requires forall i :: 0 <= i < j && cs[i].Some? ==> cs[i].value.decoded != cs[j].value.decoded
    ensures cs[j].value in Dedup(cs, seen)
    decreases j
  {
    var tail := cs[1..];
    var skip := cs[0].None? || cs[0].value.decoded in seen;
    var seen' := if skip then seen else seen + {cs[0].value.decoded};
    var out, rest := Dedup(cs, seen), Dedup(tail, seen');
    assert out == if skip then rest else [cs[0].value] + rest;
    if j > 0 {
      assert tail[j - 1] == cs[j];
      forall i | 0 <= i < j - 1 && tail[i].Some?
        ensures tail[i].value.decoded != cs[j].value.decoded
      {
        assert tail[i] == cs[i + 1];
      }
      DedupKeepsFirst(tail, seen', j - 1);
    }
  }

  /** Each index of s, one higher. */
  function Shifted(s: seq<nat>): (r: seq<nat>)
    ensures |r| == |s|
    ensures forall i :: 0 <= i < |s| ==> r[i] == s[i] + 1
  {
    seq(|s|, i requires 0 <= i < |s| => s[i] + 1)
  }

  /** The positions in cs of the candidates Dedup keeps, in the order it keeps them. */
  function DedupIndices(cs: seq<Option<Url>>, seen: set<string>): (idx: seq<nat>)
    ensures |idx| == |Dedup(cs, seen)|
    ensures forall i :: 0 <= i < |idx| ==> idx[i] < |cs|
    decreases |cs|
  {
    if cs == [] then []
    else if cs[0].None? || cs[0].value.decoded in seen then Shifted(DedupIndices(cs[1..], seen))
    else [0] + Shifted(DedupIndices(cs[1..], seen + {cs[0].value.decoded}))
  }

  /** The i-th kept link is the candidate at the i-th kept position. */
  lemma {:induction false} DedupIndicesAt(cs: seq<Option<Url>>, seen: set<string>, i: nat)
    requires i < |DedupIndices(cs, seen)|
    ensures cs[DedupIndices(cs, seen)[i]] == Some(Dedup(cs, seen)[i])
    decreases |cs|
  {
    var tail := cs[1..];
    if cs[0].None? || cs[0].value.decoded in seen {
      var ri := DedupIndices(tail, seen);
      assert DedupIndices(cs, seen) == Shifted(ri) && Dedup(cs, seen) == Dedup(tail, seen);
      DedupIndicesAt(tail, seen, i);
      assert cs[ri[i] + 1] == tail[ri[i]];
    } else if i > 0 {
      var seen' := seen + {cs[0].value.decoded};
      var ri := DedupIndices(tail, seen');
      assert DedupIndices(cs, seen) == [0] + Shifted(ri) && Dedup(cs, seen) == [cs[0].value] + Dedup(tail, seen');
      DedupIndicesAt(tail, seen', i - 1);
      assert cs[ri[i - 1] + 1] == tail[ri[i - 1]];
    }
  }

  /** The kept positions strictly increase. */
  lemma {:induction false} DedupIndicesIncrease(cs: seq<Option<Url>>, seen: set<string>)
    ensures forall i, k :: 0 <= i < k < |DedupIndices(cs, seen)| ==> DedupIndices(cs, seen)[i] < DedupIndices(cs, seen)[k]
    decreases |cs|
  {
    if cs != [] {
      var skip := cs[0].None? || cs[0].value.decoded in seen;
      var seen' := if skip then seen else seen + {cs[0].value.decoded};
      var ri := DedupIndices(cs[1..], seen');
      DedupIndicesIncrease(cs[1..], seen');
      var sh := Shifted(ri);
      assert forall i, k :: 0 <= i < k < |sh| ==> sh[i] < sh[k];
      if !skip {
        var idx := [0] + sh;
        forall i, k | 0 <= i < k < |idx|
          ensures idx[i] < idx[k]
        {
          assert idx[k] == sh[k - 1];
          if i > 0 {
            assert idx[i] == sh[i - 1];
          }
        }
      }
    }
  }

  /** No candidate before a kept position has the kept link's decoded form. */
  lemma {:induction false} DedupIndicesFirst(cs: seq<Option<Url>>, seen: set<string>, i: nat, j: nat)
    requires i < |DedupIndices(cs, seen)| && j < DedupIndices(cs, seen)[i] && cs[j].Some?
    ensures cs[j].value.decoded != Dedup(cs, seen)[i].decoded
    decreases |cs|
  {
    var tail := cs[1..];
    if cs[0].None? || cs[0].value.decoded in seen {
      var ri := DedupIndices(tail, seen);
      assert DedupIndices(cs, seen) == Shifted(ri) && Dedup(cs, seen) == Dedup(tail, seen);
      if j == 0 {
        DedupUnseen(tail, seen);
      } else {
        assert cs[j] == tail[j - 1];
        DedupIndicesFirst(tail, seen, i, j - 1);
      }
    } else {
      var seen' := seen + {cs[0].value.decoded};
      var ri := DedupIndices(tail, seen');
      assert DedupIndices(cs, seen) == [0] + Shifted(ri) && Dedup(cs, seen) == [cs[0].value] + Dedup(tail, seen');
      assert i > 0;
      if j == 0 {
        DedupUnseen(tail, seen');
      } else {
        assert cs[j] == tail[j - 1];
        DedupIndicesFirst(tail, seen', i - 1, j - 1);
      }
    }
  }

  /**
   * extractLinksFromHtml:
   * - it returns only valid http and https links, each resolved from a
   *   non-blank capture;
   * - no decoded form appears twice;
   * - every such capture's decoded form is represented.
   */
  lemma LinksSound(captures: seq<string>, base: Url, resolve: (Url, string) -> Url)
    ensures var out := Links(captures, base, resolve);
      && (forall i :: 0 <= i < |out| ==> out[i].valid && (out[i].scheme == "http" || out[i].scheme == "https"))
      && (forall i :: 0 <= i < |out| ==> exists j :: 0 <= j < |captures| && Candidate(captures[j], base, resolve) == Some(out[i]))
      && (forall i, k :: 0 <= i < k < |out| ==> out[i].decoded != out[k].decoded)
      && (forall j :: 0 <= j < |captures| && Candidate(captures[j], base, resolve).Some? ==>
            exists i :: 0 <= i < |out| && out[i].decoded == Candidate(captures[j], base, resolve).value.decoded)
  {
    var cs := Candidates(captures, base, resolve);
    var out := Links(captures, base, resolve);
    assert out == Dedup(cs, {});
    DedupFromCandidates(cs, {});
    DedupDistinct(cs, {});
    forall i | 0 <= i < |out|
      ensures out[i].valid && (out[i].scheme == "http" || out[i].scheme == "https")
      ensures exists j :: 0 <= j < |captures| && Candidate(captures[j], base, resolve) == Some(out[i])
    {
      var j :| 0 <= j < |cs| && cs[j] == Some(out[i]);
      assert Candidate(captures[j], base, resolve) == Some(out[i]);
    }
    forall j | 0 <= j < |captures| && Candidate(captures[j], base, resolve).Some?
      ensures exists i :: 0 <= i < |out| && out[i].decoded == Candidate(captures[j], base, resolve).value.decoded
    {
      DedupCoversKeys(cs, {}, j);
    }
  }

  /** extractLinksFromHtml keeps the first capture of each decoded form. */
  lemma LinksKeepFirst(captures: seq<string>, base: Url, resolve: (Url, string) -> Url, j: nat)
    requires j < |captures| && Candidate(captures[j], base, resolve).Some?
    requires forall i :: 0 <= i < j && Candidate(captures[i], base, resolve).Some? ==>
      Candidate(captures[i], base, resolve).value.decoded != Candidate(captures[j], base, resolve).value.decoded
    ensures Candidate(captures[j], base, resolve).value in Links(captures, base, resolve)
  {
    DedupKeepsFirst(Candidates(captures, base, resolve), {}, j);
  }

  /**
   * extractLinksFromHtml keeps the capture order: the links are the
   * candidates at strictly increasing capture positions, and each is the
   * first capture of its decoded form.
   */
  lemma LinksInCaptureOrder(captures: seq<string>, base: Url, resolve: (Url, string) -> Url)
    ensures var out, idx := Links(captures, base, resolve), DedupIndices(Candidates(captures, base, resolve), {});
      && |idx| == |out|
      && (forall i :: 0 <= i < |idx| ==> idx[i] < |captures| && Candidate(captures[idx[i]], base, resolve) == Some(out[i]))
      && (forall i, k :: 0 <= i < k < |idx| ==> idx[i] < idx[k])
      && (forall i, j :: 0 <= i < |idx| && 0 <= j < idx[i] && Candidate(captures[j], base, resolve).Some? ==>
            Candidate(captures[j], base, resolve).value.decoded != out[i].decoded)
  {
    var cs := Candidates(captures, base, resolve);
    DedupIndicesIncrease(cs, {});
    var idx := DedupIndices(cs, {});
    forall i | 0 <= i < |idx|
      ensures Candidate(captures[idx[i]], base, resolve) == Some(Links(captures, base, resolve)[i])
    {
      DedupIndicesAt(cs, {}, i);
    }
    forall i, j | 0 <= i < |idx| && 0 <= j < idx[i] && Candidate(captures[j], base, resolve).Some?
      ensures Candidate(captures[j], base, resolve).value.decoded != Links(captures, base, resolve)[i].decoded
    {
      assert cs[j] == Candidate(captures[j], base, resolve);
      DedupIndicesFirst(cs, {}, i, j);
    }
  }

  /** The loop of onPageFetched: up to MaxFiles links that pass the filter and are not yet listed are added. */
  function Harvest(rows: seq<TableRow>, links: seq<Url>, base: Url, added: nat, parse: string -> Url): seq<TableRow>
    decreases |links|
  {
    if links == [] || added >= MaxFiles then rows
    else if !AllowedByFilter(links[0], base) || InTable(rows, links[0].text) then Harvest(rows, links[1..], base, added, parse)
    else Harvest(AddedUrl(rows, links[0].text, parse), links[1..], base, added + 1, parse)
  }

  /** onPageFetched keeps the table as a prefix. */
  lemma {:induction false} HarvestKeepsTable(rows: seq<TableRow>, links: seq<Url>, base: Url, added: nat, parse: string -> Url)
    ensures var out := Harvest(rows, links, base, added, parse);
      |rows| <= |out| && out[..|rows|] == rows
    decreases |links|
  {
    if links != [] && added < MaxFiles {
      if !AllowedByFilter(links[0], base) || InTable(rows, links[0].text) {
        HarvestKeepsTable(rows, links[1..], base, added, parse);
      } else {
        var rows1 := AddedUrl(rows, links[0].text, parse);
        HarvestKeepsTable(rows1, links[1..], base, added + 1, parse);
        var out := Harvest(rows1, links[1..], base, added + 1, parse);
        assert out[..|rows|] == out[..|rows1|][..|rows|];
      }
    } else {
      assert rows[..|rows|] == rows;
    }
  }

  /** onPageFetched adds at most MaxFiles - added rows. */
  lemma {:induction false} HarvestBounded(rows: seq<TableRow>, links: seq<Url>, base: Url, added: nat, parse: string -> Url)
    requires added <= MaxFiles
    ensures |Harvest(rows, links, base, added, parse)| + added <= |rows| + MaxFiles
    decreases |links|
  {
    if links != [] && added < MaxFiles {
      if !AllowedByFilter(links[0], base) || InTable(rows, links[0].text) {
        HarvestBounded(rows, links[1..], base, added, parse);
      } else {
        HarvestBounded(AddedUrl(rows, links[0].text, parse), links[1..], base, added + 1, parse);
      }
    }
  }

  /** Every row onPageFetched adds is Queued at 0%, for a link that passes the filter. */
  lemma {:induction false} HarvestNewRows(rows: seq<TableRow>, links: seq<Url>, base: Url, added: nat, parse: string -> Url)
    ensures var out := Harvest(rows, links, base, added, parse);
      forall i :: |rows| <= i < |out| ==>
        out[i].status == Queued && out[i].progress == 0 &&
        exists j :: 0 <= j < |links| && out[i].url == links[j].text && AllowedByFilter(links[j], base)
    decreases |links|
  {
    if links != [] && added < MaxFiles {
      var out := Harvest(rows, links, base, added, parse);
      var skip := !AllowedByFilter(links[0], base) || InTable(rows, links[0].text);
      var rows1 := if skip then rows else AddedUrl(rows, links[0].text, parse);
      var added1 := if skip then added else added + 1;
      HarvestNewRows(rows1, links[1..], base, added1, parse);
      HarvestKeepsTable(rows1, links[1..], base, added1, parse);
      assert out == Harvest(rows1, links[1..], base, added1, parse);
      forall i | |rows| <= i < |out|
        ensures out[i].status == Queued && out[i].progress == 0
        ensures exists j :: 0 <= j < |links| && out[i].url == links[j].text && AllowedByFilter(links[j], base)
      {
        if i < |rows1| {
          assert out[i] == out[..|rows1|][i] == rows1[i] == NewRow(links[0].text, parse);
        } else {
          var j :| 0 <= j < |links[1..]| && out[i].url == links[1..][j].text && AllowedByFilter(links[1..][j], base);
          assert links[1..][j] == links[j + 1];
        }
      }
    }
  }

  /** A table that keeps `rows` as a prefix still lists every URL `rows` lists. */
  lemma InTableExtends(rows: seq<TableRow>, out: seq<TableRow>, urlStr: string)
    requires |rows| <= |out| && out[..|rows|] == rows && InTable(rows, urlStr)
    ensures InTable(out, urlStr)
  {
    InTableIff(rows, urlStr);
    InTableIff(out, urlStr);
    var r :| 0 <= r < |rows| && Trim(rows[r].url) == Trim(urlStr);
    assert out[r] == out[..|rows|][r];
  }

  /** How many of the links pass the filter. */
  function PassingCount(links: seq<Url>, base: Url): (n: nat)
    ensures n <= |links|
    decreases |links|
  {
    if links == [] then 0
    else (if AllowedByFilter(links[0], base) then 1 else 0) + PassingCount(links[1..], base)
  }

  /** The first j links pass the filter as often as the first link and then the next j - 1 do. */
  lemma PassingCountFront(links: seq<Url>, base: Url, j: nat)
    requires 0 < j <= |links|
    ensures PassingCount(links[..j], base) == (if AllowedByFilter(links[0], base) then 1 else 0) + PassingCount(links[1..][..j - 1], base)
  {
    assert links[..j][0] == links[0] && links[..j][1..] == links[1..][..j - 1];
  }

  /** Below the limit, a first link that passes the filter and is not blank is listed afterwards. */
  lemma HarvestListsFirst(rows: seq<TableRow>, links: seq<Url>, base: Url, added: nat, parse: string -> Url)
    requires links != [] && added < MaxFiles && AllowedByFilter(links[0], base) && Trim(links[0].text) != []
    ensures InTable(Harvest(rows, links, base, added, parse), links[0].text)
  {
    var tail := links[1..];
    if InTable(rows, links[0].text) {
      var out := Harvest(rows, tail, base, added, parse);
      assert Harvest(rows, links, base, added, parse) == out;
      HarvestKeepsTable(rows, tail, base, added, parse);
      InTableExtends(rows, out, links[0].text);
    } else {
      var rows1 := AddedUrl(rows, links[0].text, parse);
      var out := Harvest(rows1, tail, base, added + 1, parse);
      assert Harvest(rows, links, base, added, parse) == out;
      assert rows1 == rows + [NewRow(links[0].text, parse)];
      assert rows1[|rows|].url == links[0].text;
      InTableIff(rows1, links[0].text);
      HarvestKeepsTable(rows1, tail, base, added + 1, parse);
      InTableExtends(rows1, out, links[0].text);
    }
  }

  /** One pass of the onPageFetched loop below the limit: the table and the counter after the first link. */
  lemma HarvestUnfold(rows: seq<TableRow>, links: seq<Url>, base: Url, added: nat, parse: string -> Url)
    returns (rows1: seq<TableRow>, added1: nat)
    requires links != [] && added < MaxFiles
    ensures Harvest(rows, links, base, added, parse) == Harvest(rows1, links[1..], base, added1, parse)
    ensures added1 <= added + (if AllowedByFilter(links[0], base) then 1 else 0)
  {
    if !AllowedByFilter(links[0], base) || InTable(rows, links[0].text) {
      rows1, added1 := rows, added;
    } else {
      rows1, added1 := AddedUrl(rows, links[0].text, parse), added + 1;
    }
  }

  /**
   * No link is lost below the limit: while fewer than MaxFiles links have
   * been counted, every non-blank link that passes the filter is listed
   * afterwards, whether it already was or onPageFetched adds it.
   */
  lemma {:induction false} HarvestComplete(rows: seq<TableRow>, links: seq<Url>, base: Url, added: nat, parse: string -> Url, j: nat)
    requires j < |links| && AllowedByFilter(links[j], base) && Trim(links[j].text) != []
    requires added + PassingCount(links[..j], base) < MaxFiles
    ensures InTable(Harvest(rows, links, base, added, parse), links[j].text)
    decreases j
  {
    if j == 0 {
      HarvestListsFirst(rows, links, base, added, parse);
    } else {
      PassingCountFront(links, base, j);
      var rows1, added1 := HarvestUnfold(rows, links, base, added, parse);
      assert links[1..][j - 1] == links[j];
      HarvestComplete(rows1, links[1..], base, added1, parse, j - 1);
    }
  }

  /**
   * onPageFetched adds rows in link order: of two added rows, the earlier
   * comes from an earlier link.
   */
  lemma {:induction false} HarvestInLinkOrder(rows: seq<TableRow>, links: seq<Url>, base: Url, added: nat, parse: string -> Url, p: nat, q: nat)
    requires |rows| <= p < q < |Harvest(rows, links, base, added, parse)|
    ensures exists j, k ::
      && 0 <= j < k < |links|
      && Harvest(rows, links, base, added, parse)[p].url == links[j].text
      && Harvest(rows, links, base, added, parse)[q].url == links[k].text
    decreases |links|
  {
    var out := Harvest(rows, links, base, added, parse);
    assert links != [] && added < MaxFiles;
    var tail := links[1..];
    var skip := !AllowedByFilter(links[0], base) || InTable(rows, links[0].text);
    var rows1 := if skip then rows else AddedUrl(rows, links[0].text, parse);
    var added1 := if skip then added else added + 1;
    assert out == Harvest(rows1, tail, base, added1, parse);
    if p < |rows1| {
      assert rows1 == rows + [NewRow(links[0].text, parse)];
      HarvestKeepsTable(rows1, tail, base, added1, parse);
      assert out[p] == out[..|rows1|][p] == NewRow(links[0].text, parse);
      HarvestNewRows(rows1, tail, base, added1, parse);
      var k :| 0 <= k < |tail| && out[q].url == tail[k].text && AllowedByFilter(tail[k], base);
      assert out[p].url == links[0].text && out[q].url == links[k + 1].text;
    } else {
      HarvestInLinkOrder(rows1, tail, base, added1, parse, p, q);
      var j, k :| 0 <= j < k < |tail| && out[p].url == tail[j].text && out[q].url == tail[k].text;
      assert out[p].url == links[j + 1].text && out[q].url == links[k + 1].text;
    }
  }

  /** onPageFetched never lists a URL twice. */
  lemma {:induction false} HarvestDistinct(rows: seq<TableRow>, links: seq<Url>, base: Url, added: nat, parse: string -> Url)
    requires UrlsDistinct(rows)
    ensures UrlsDistinct(Harvest(rows, links, base, added, parse))
    decreases |links|
  {
    if links != [] && added < MaxFiles {
      if !AllowedByFilter(links[0], base) || InTable(rows, links[0].text) {
        HarvestDistinct(rows, links[1..], base, added, parse);
      } else {
        AddedUrlDistinct(rows, links[0].text, parse);
        HarvestDistinct(AddedUrl(rows, links[0].text, parse), links[1..], base, added + 1, parse);
      }
    }
  }

  /** onPageFetched: only the tracked page fetch counts; it is then dropped, and on success its links are harvested. */
  function PageFetched(w: Window, fetchOk: bool, captures: seq<string>, parse: string -> Url, resolve: (Url, string) -> Url): (w': Window)
    requires Routed(w)
    ensures Routed(w')
    ensures w.pageReply.None? ==> w' == w
    ensures w.pageReply.Some? && !fetchOk ==> w' == w.(pageReply := None)
    ensures w.pageReply.Some? && fetchOk ==>
      w' == w.(pageReply := None, rows := Harvest(w.rows, Links(captures, w.pageBase, resolve), w.pageBase, 0, parse))
  {
    if w.pageReply.None? then w
    else if !fetchOk then w.(pageReply := None)
    else
      var links := Links(captures, w.pageBase, resolve);
      HarvestKeepsTable(w.rows, links, w.pageBase, 0, parse);
      w.(pageReply := None, rows := Harvest(w.rows, links, w.pageBase, 0, parse))
  }

  lemma PageFetchedKeepsValid(w: Window, fetchOk: bool, captures: seq<string>, parse: string -> Url, resolve: (Url, string) -> Url)
    requires Valid(w)
    ensures Valid(PageFetched(w, fetchOk, captures, parse, resolve))
  {
    if w.pageReply.Some? && fetchOk {
      HarvestDistinct(w.rows, Links(captures, w.pageBase, resolve), w.pageBase, 0, parse);
    }
  }

  // ------------------------------------------------------------------- runs

  /** One input of the window: a click, a network event, or a worker callback. */
  datatype Event =
    | FolderChosen(dir: string)
    | AddClick(input: string)
    | PageDone(fetchOk: bool, captures: seq<string>)
    | StartAllClick
    | ChunkArrived(reply: Reply, chunk: seq<byte>)
    | ProgressReport(reply: Reply, received: int, total: int)
    | ReplyFinished(reply: Reply, lastChunk: seq<byte>, error: Option<string>)
    | WriterFailed(row: int, message: string)
    | HashDone(row: int, digest: string)
    | HashFailedEvent(row: int, message: string)

  function Step(w: Window, e: Event, parse: string -> Url, resolve: (Url, string) -> Url): (w': Window)
    requires Routed(w)
    ensures Routed(w')
  {
    match e
    case FolderChosen(dir) => ChooseFolder(w, dir)
    case AddClick(input) => AddClicked(w, input, parse)
    case PageDone(ok, captures) => PageFetched(w, ok, captures, parse, resolve)
    case StartAllClick => StartAll(w, parse)
    case ChunkArrived(reply, chunk) => ReadyRead(w, reply, chunk)
    case ProgressReport(reply, received, total) => Progress(w, reply, received, total)
    case ReplyFinished(reply, lastChunk, error) => Finished(w, reply, lastChunk, error)
    case WriterFailed(row, message) => SetStatus(w, row, Failed(message))
    case HashDone(row, digest) => SetStatus(w, row, Hashed(digest))
    case HashFailedEvent(row, message) => SetStatus(w, row, HashFailed(message))
  }

  /** Every handler keeps the invariant. */
  lemma StepKeepsValid(w: Window, e: Event, parse: string -> Url, resolve: (Url, string) -> Url)
    requires Valid(w)
    ensures Valid(Step(w, e, parse, resolve))
  {
    match e
    case FolderChosen(dir) =>
    case AddClick(input) => AddClickedKeepsValid(w, input, parse);
    case PageDone(ok, captures) => PageFetchedKeepsValid(w, ok, captures, parse, resolve);
    case StartAllClick =>
      if w.downloadDir != [] && |w.rows| != 0 {
        StartFromKeepsValid(w, 0, parse);
      }
    case ChunkArrived(reply, chunk) => ReadyReadKeepsValid(w, reply, chunk);
    case ProgressReport(reply, received, total) => ProgressKeepsValid(w, reply, received, total);
    case ReplyFinished(reply, lastChunk, error) => FinishedKeepsValid(w, reply, lastChunk, error);
    case WriterFailed(row, message) => SetStatusKeepsValid(w, row, Failed(message));
    case HashDone(row, digest) => SetStatusKeepsValid(w, row, Hashed(digest));
    case HashFailedEvent(row, message) => SetStatusKeepsValid(w, row, HashFailed(message));
  }

  /** The window after a sequence of events, handled in order. */
  function Run(w: Window, events: seq<Event>, parse: string -> Url, resolve: (Url, string) -> Url): (w': Window)
    requires Routed(w)
    ensures Routed(w')
    decreases |events|
  {
    if events == [] then w else Run(Step(w, events[0], parse, resolve), events[1..], parse, resolve)
  }

  lemma {:induction false} RunKeepsValid(w: Window, events: seq<Event>, parse: string -> Url, resolve: (Url, string) -> Url)
    requires Valid(w)
    ensures Valid(Run(w, events, parse, resolve))
    decreases |events|
  {
    if events != [] {
      StepKeepsValid(w, events[0], parse, resolve);
      RunKeepsValid(Step(w, events[0], parse, resolve), events[1..], parse, resolve);
    }
  }

  /** Every window reachable from the initial one satisfies the invariant. */
  lemma ReachableValid(events: seq<Event>, parse: string -> Url, resolve: (Url, string) -> Url)
    ensures Valid(Run(Initial, events, parse, resolve))
  {
    assert Valid(Initial);
    RunKeepsValid(Initial, events, parse, resolve);
  }

  /**
   * In every run, each hash request directly follows the close request of
   * its row and names a path that was opened for that row; each append and
   * close comes after an open for its row. Nothing waits for fileClosed: the
   * order of the requests is the only guarantee.
   */
  lemma HashFollowsClose(events: seq<Event>, parse: string -> Url, resolve: (Url, string) -> Url)
    ensures var t := Run(Initial, events, parse, resolve).requests;
      && (forall i :: 0 <= i < |t| && t[i].Hash? ==>
            0 < i && t[i - 1] == CloseFile(t[i].row) &&
            exists j :: 0 <= j < i && t[j] == OpenFile(t[i].row, t[i].path))
      && (forall i :: 0 <= i < |t| && (t[i].AppendChunk? || t[i].CloseFile?) ==>
            exists j :: 0 <= j < i && t[j].OpenFile? && t[j].row == t[i].row)
  {
    ReachableValid(events, parse, resolve);
    var t := Run(Initial, events, parse, resolve).requests;
    forall i | 0 <= i < |t| && (t[i].AppendChunk? || t[i].CloseFile?)
      ensures exists j :: 0 <= j < i && t[j].OpenFile? && t[j].row == t[i].row
    {
      assert UsesFile(t[i]) && FileRow(t[i]) == t[i].row;
    }
  }

  // ------------------------------------------------- properties of handlers

  /** The state of a row once the loop of onStartAllClicked has passed it. */
  function Restarted(w: Window, row: nat, parse: string -> Url): TableRow
    requires row < |w.rows|
  {
    var r := w.rows[row];
    if !Restartable(r) then r
    else if !Downloadable(RowUrl(w, row, parse)) then r.(status := Failed(InvalidUrlMessage))
    else r.(status := Downloading, progress := 0)
  }

  /** The loop of onStartAllClicked leaves the rows before `row` alone and turns each later row into its Restarted form. */
  lemma {:induction false} StartFromRowAt(w: Window, row: nat, parse: string -> Url, r: nat)
    requires Routed(w) && r < |w.rows|
    ensures StartFrom(w, row, parse).rows[r] == if r < row then w.rows[r] else Restarted(w, r, parse)
    decreases |w.rows| - row
  {
    if row < |w.rows| {
      var w1 := if !Restartable(w.rows[row]) then w else StartRow(w, row, parse);
      StartFromRowAt(w1, row + 1, parse, r);
      assert StartFrom(w, row, parse) == StartFrom(w1, row + 1, parse);
      if r == row {
        assert w1.rows[row] == Restarted(w, row, parse);
      } else {
        assert w1.rows[r] == w.rows[r];
        assert r > row ==> Restarted(w1, r, parse) == Restarted(w, r, parse);
      }
    }
  }

  lemma StartFromRows(w: Window, row: nat, parse: string -> Url)
    requires Routed(w)
    ensures forall r :: 0 <= r < |w.rows| && r < row ==> StartFrom(w, row, parse).rows[r] == w.rows[r]
    ensures forall r :: row <= r < |w.rows| ==> StartFrom(w, row, parse).rows[r] == Restarted(w, r, parse)
  {
    forall r | 0 <= r < |w.rows| {
      StartFromRowAt(w, row, parse, r);
    }
  }

  lemma {:induction false} StartFromGrowsTrace(w: Window, row: nat, parse: string -> Url)
    requires Routed(w)
    ensures |w.requests| <= |StartFrom(w, row, parse).requests|
    decreases |w.rows| - row
  {
    if row < |w.rows| {
      var w1 := if !Restartable(w.rows[row]) then w else StartRow(w, row, parse);
      StartFromGrowsTrace(w1, row + 1, parse);
      assert StartFrom(w, row, parse) == StartFrom(w1, row + 1, parse);
    }
  }

  /** Each entry of the trace after the loop of onStartAllClicked is an old entry, or an open, or a GET. */
  lemma {:induction false} StartFromRequestAt(w: Window, row: nat, parse: string -> Url, i: nat)
    requires Routed(w) && i < |StartFrom(w, row, parse).requests|
    ensures i < |w.requests| ==> StartFrom(w, row, parse).requests[i] == w.requests[i]
    ensures i >= |w.requests| ==> StartFrom(w, row, parse).requests[i].OpenFile? || StartFrom(w, row, parse).requests[i].Fetch?
    decreases |w.rows| - row
  {
    if row < |w.rows| {
      var w1 := if !Restartable(w.rows[row]) then w else StartRow(w, row, parse);
      assert StartFrom(w, row, parse) == StartFrom(w1, row + 1, parse);
      StartFromRequestAt(w1, row + 1, parse, i);
      if i < |w1.requests| {
        assert i < |w.requests| ==> w1.requests[i] == w.requests[i];
        assert i >= |w.requests| ==> w1.requests[i].OpenFile? || w1.requests[i].Fetch?;
      }
    }
  }

  /** The loop of onStartAllClicked only ever appends opens and GETs to the trace. */
  lemma StartFromRequests(w: Window, row: nat, parse: string -> Url)
    requires Routed(w)
    ensures |w.requests| <= |StartFrom(w, row, parse).requests|
    ensures StartFrom(w, row, parse).requests[..|w.requests|] == w.requests
    ensures forall i :: |w.requests| <= i < |StartFrom(w, row, parse).requests| ==>
      StartFrom(w, row, parse).requests[i].OpenFile? || StartFrom(w, row, parse).requests[i].Fetch?
  {
    StartFromGrowsTrace(w, row, parse);
    var t := StartFrom(w, row, parse).requests;
    forall i | 0 <= i < |t| {
      StartFromRequestAt(w, row, parse, i);
    }
    assert t[..|w.requests|] == w.requests;
  }

  /** The loop of onStartAllClicked keeps every route it finds. */
  lemma {:induction false} StartFromKeepsRoutes(w: Window, row: nat, parse: string -> Url)
    requires Routed(w) && Fresh(w)
    ensures Fresh(StartFrom(w, row, parse))
    ensures forall k :: k in w.replyToRow ==>
      && k in StartFrom(w, row, parse).replyToRow
      && StartFrom(w, row, parse).replyToRow[k] == w.replyToRow[k]
      && StartFrom(w, row, parse).replyToPath[k] == w.replyToPath[k]
    decreases |w.rows| - row
  {
    if row < |w.rows| {
      var w1 := if !Restartable(w.rows[row]) then w else StartRow(w, row, parse);
      assert Fresh(w1);
      StartFromKeepsRoutes(w1, row + 1, parse);
      assert StartFrom(w, row, parse) == StartFrom(w1, row + 1, parse);
    }
  }

  /** A restarted row with a usable URL gets a new reply routed to it and to its target path. */
  lemma {:induction false} StartFromAddsRoute(w: Window, row: nat, parse: string -> Url, r: nat)
    requires Routed(w) && Fresh(w)
    requires row <= r < |w.rows| && Restartable(w.rows[r]) && Downloadable(RowUrl(w, r, parse))
    ensures exists k :: && k !in w.replyToRow
                        && k in StartFrom(w, row, parse).replyToRow
                        && StartFrom(w, row, parse).replyToRow[k] == r
                        && StartFrom(w, row, parse).replyToPath[k] == TargetPath(w, r, parse)
    decreases r - row
  {
    var w1 := if !Restartable(w.rows[row]) then w else StartRow(w, row, parse);
    assert Fresh(w1);
    var w' := StartFrom(w1, row + 1, parse);
    assert StartFrom(w, row, parse) == w';
    if r == row {
      StartFromKeepsRoutes(w1, row + 1, parse);
      var k := w.nextReply;
      assert k in w1.replyToRow && w1.replyToRow[k] == row && w1.replyToPath[k] == TargetPath(w, row, parse);
      assert k !in w.replyToRow && k in w'.replyToRow && w'.replyToRow[k] == r && w'.replyToPath[k] == TargetPath(w, r, parse);
    } else {
      assert w1.rows[r] == w.rows[r];
      assert RowUrl(w1, r, parse) == RowUrl(w, r, parse) && TargetPath(w1, r, parse) == TargetPath(w, r, parse);
      StartFromAddsRoute(w1, row + 1, parse, r);
      var k :| k !in w1.replyToRow && k in w'.replyToRow && w'.replyToRow[k] == r && w'.replyToPath[k] == TargetPath(w1, r, parse);
      assert w.replyToRow.Keys <= w1.replyToRow.Keys;
    }
  }

  /**
   * onStartAllClicked restarts exactly the Queued and "Downloaded (hashing...)"
   * rows and passes over the downloading, failed and finished ones.
   */
  lemma StartAllRestartsQueuedAndHashing(w: Window, parse: string -> Url)
    requires Routed(w) && w.downloadDir != [] && w.rows != []
    ensures forall r :: 0 <= r < |w.rows| ==>
      if w.rows[r].status.Queued? || w.rows[r].status.DownloadedHashing? then
        StartAll(w, parse).rows[r].status == Downloading || StartAll(w, parse).rows[r].status == Failed(InvalidUrlMessage)
      else StartAll(w, parse).rows[r] == w.rows[r]
  {
    StartFromRows(w, 0, parse);
  }

  /** A successful handleFinished ends the trace with the close of the routed row and then the hash of the routed path. */
  lemma FinishedClosesBeforeHash(w: Window, reply: Reply, lastChunk: seq<byte>)
    requires Routed(w) && reply in w.replyToRow
    ensures var w' := Finished(w, reply, lastChunk, None);
      var n := |w'.requests|;
      n >= 2 &&
      w'.requests[n - 2] == CloseFile(w.replyToRow[reply]) &&
      w'.requests[n - 1] == Hash(w.replyToRow[reply], w.replyToPath[reply])
  {
  }

  /** A failed handleFinished requests a close and never a hash. */
  lemma FailedFinishHasNoHash(w: Window, reply: Reply, lastChunk: seq<byte>, message: string)
    requires Routed(w)
    ensures var w' := Finished(w, reply, lastChunk, Some(message));
      && |w.requests| <= |w'.requests| && w'.requests[..|w.requests|] == w.requests
      && (forall i :: |w.requests| <= i < |w'.requests| ==> !w'.requests[i].Hash?)
      && (reply in w.replyToRow ==> w'.requests[|w'.requests| - 1] == CloseFile(w.replyToRow[reply]))
  {
    var w' := Finished(w, reply, lastChunk, Some(message));
    assert w'.requests[..|w.requests|] == w.requests;
  }
}
