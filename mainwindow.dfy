/**
 * MainWindow as the object the source defines: the download table, the
 * download folder, the two routing hashes, the tracked page reply and the
 * requests sent so far are fields, and each slot updates them in place.
 *
 * Every method is proved to take the window to the state the matching
 * handler function of WindowModel computes, and to keep WindowModel.Valid.
 * So everything proved there about runs of handlers holds for the object.
 */
module Coordinator {
  import opened Base
  import opened WindowHelpers
  import opened WindowModel

  class MainWindow {
    /** QUrl(string), the parser the window calls on text. */
    const parse: string -> Url
    /** QUrl::resolved, used on the captures of the harvested page. */
    const resolve: (Url, string) -> Url

    var rows: seq<TableRow>
    var downloadDir: string
    var replyToRow: map<Reply, int>
    var replyToPath: map<Reply, string>
    var pageReply: Option<Reply>
    var pageBase: Url
    var nextReply: nat
    var requests: seq<Request>

    function State(): Window
      reads this
    {
      Window(rows, downloadDir, replyToRow, replyToPath, pageReply, pageBase, nextReply, requests)
    }

    ghost predicate Valid()
      reads this
    {
      WindowModel.Valid(State())
    }

    /** A new window: empty table, no folder, nothing routed, no page fetch, nothing sent. */
    constructor (parse: string -> Url, resolve: (Url, string) -> Url)
      ensures State() == Initial && Valid()
      ensures this.parse == parse && this.resolve == resolve
    {
      this.parse := parse;
      this.resolve := resolve;
      rows, downloadDir := [], "";
      replyToRow, replyToPath := map[], map[];
      pageReply, pageBase, nextReply := None, NoUrl, 0;
      requests := [];
    }

    /** urlExistsInTable: the scan over the URL column, comparing trimmed texts. */
    method UrlExistsInTable(urlStr: string) returns (found: bool)
      ensures found <==> InTable(rows, urlStr)
      ensures found <==> exists r :: 0 <= r < |rows| && Trim(rows[r].url) == Trim(urlStr)
    {
      InTableIff(rows, urlStr);
      var key := Trim(urlStr);
      for r := 0 to |rows|
        invariant forall k :: 0 <= k < r ==> Trim(rows[k].url) != key
      {
        if Trim(rows[r].url) == key {
          return true;
        }
      }
      return false;
    }

    /**
     * addUrlToTable: a blank or already listed URL is ignored; otherwise one
     * Queued row at 0% is appended. Only the table changes, so the routing
     * stays in range; AddUrlKeepsValid gives the rest of the invariant.
     */
    method AddUrlToTable(urlStr: string)
      requires Routed(State())
      modifies this
      ensures State() == AddUrl(old(State()), urlStr, parse)
    {
      if Trim(urlStr) == [] {
        return;
      }
      var listed := UrlExistsInTable(urlStr);
      if listed {
        return;
      }
      rows := rows + [TableRow(urlStr, FileNameFromPath(parse(urlStr).path), 0, Queued)];
    }

    /** onChooseFolderClicked, given the folder the dialog returned. */
    method OnChooseFolder(dir: string)
      requires Valid()
      modifies this
      ensures Valid()
      ensures State() == ChooseFolder(old(State()), dir)
    {
      if dir == [] {
        return;
      }
      downloadDir := dir;
    }

    /** onAddClicked, given the text of the line edit. */
    method OnAddClicked(text: string)
      requires Valid()
      modifies this
      ensures Valid()
      ensures State() == AddClicked(old(State()), text, parse)
    {
      ghost var w := State();
      AddClickedKeepsValid(w, text, parse);
      var input := Trim(text);
      if input == [] {
        return;
      }
      var url := parse(input);
      if !url.valid || url.scheme == [] {
        return;
      }
      if LooksLikeWebPage(url.path) {
        if pageReply.Some? {
          return;
        }
        pageBase := url;
        pageReply := Some(nextReply);
        requests := requests + [Fetch(nextReply, url)];
        nextReply := nextReply + 1;
        return;
      }
      AddUrlToTable(url.text);
    }

    /** The loop of extractLinksFromHtml over the regex captures: resolve, keep http(s), drop repeated decoded forms. */
    method ExtractLinksFromHtml(captures: seq<string>, baseUrl: Url) returns (out: seq<Url>)
      ensures out == Links(captures, baseUrl, resolve)
    {
      ghost var cs := Candidates(captures, baseUrl, resolve);
      var seen: set<string> := {};
      out := [];
      for i := 0 to |captures|
        invariant out + Dedup(cs[i..], seen) == Dedup(cs, {})
      {
        assert cs[i..][1..] == cs[i + 1..];
        var raw := Trim(captures[i]);
        if raw == [] {
          continue;
        }
        var resolved := resolve(baseUrl, raw);
        if !resolved.valid {
          continue;
        }
        if resolved.scheme != "http" && resolved.scheme != "https" {
          continue;
        }
        var key := resolved.decoded;
        if key in seen {
          continue;
        }
        seen := seen + {key};
        out := out + [resolved];
      }
      assert cs[|captures|..] == [];
    }

    /** onPageFetched, given whether the fetch succeeded and the captures of the page's HTML. */
    method OnPageFetched(fetchOk: bool, captures: seq<string>)
      requires Valid()
      modifies this
      ensures Valid()
      ensures State() == PageFetched(old(State()), fetchOk, captures, parse, resolve)
    {
      ghost var w := State();
      PageFetchedKeepsValid(w, fetchOk, captures, parse, resolve);
      if pageReply.None? {
        return;
      }
      pageReply := None;
      if !fetchOk {
        return;
      }
      var links := ExtractLinksFromHtml(captures, pageBase);
      AddHarvestedLinks(links);
    }

    /** The loop of onPageFetched: each link that passes the filter and is not listed yet is added, at most MaxFiles of them. */
    method AddHarvestedLinks(links: seq<Url>)
      requires Routed(State())
      modifies this
      ensures State() == old(State()).(rows := Harvest(old(rows), links, pageBase, 0, parse))
    {
      var base := pageBase;
      ghost var goal := Harvest(rows, links, base, 0, parse);
      var added: nat := 0;
      var i := 0;
      while i < |links|
        invariant 0 <= i <= |links| && added <= MaxFiles
        invariant Routed(State())
        invariant State() == old(State()).(rows := rows)
        invariant Harvest(rows, links[i..], base, added, parse) == goal
      {
        if added >= MaxFiles {
          break;
        }
        ghost var before, addedBefore := rows, added;
        assert links[i..][0] == links[i] && links[i..][1..] == links[i + 1..];
        var allowed := CheckFilter(links[i], base);
        if allowed {
          var listed := UrlExistsInTable(links[i].text);
          if !listed {
            AddUrlToTable(links[i].text);
            added := added + 1;
            assert rows == AddedUrl(before, links[i].text, parse);
          }
        }
        assert Harvest(before, links[i..], base, addedBefore, parse) == Harvest(rows, links[i + 1..], base, added, parse);
        i := i + 1;
      }
      assert i == |links| ==> links[i..] == [];
    }

    /** startDownloadForRow. */
    method StartDownloadForRow(row: nat)
      requires Valid() && row < |rows|
      modifies this
      ensures Valid()
      ensures State() == StartRow(old(State()), row, parse)
    {
      ghost var w := State();
      var urlStr := Trim(rows[row].url);
      var url := parse(urlStr);
      if !url.valid || url.scheme == [] {
        rows := rows[row := rows[row].(status := Failed(InvalidUrlMessage))];
        assert State() == StartRow(w, row, parse);
        StartRowKeepsValid(w, row, parse);
        return;
      }
      var fullPath := JoinPath(downloadDir, FileNameFromPath(url.path));
      requests := requests + [OpenFile(row, fullPath)];
      var reply := nextReply;
      nextReply := nextReply + 1;
      requests := requests + [Fetch(reply, url)];
      replyToRow := replyToRow[reply := row];
      replyToPath := replyToPath[reply := fullPath];
      rows := rows[row := rows[row].(status := Downloading)];
      rows := rows[row := rows[row].(progress := 0)];
      assert rows == w.rows[row := w.rows[row].(status := Downloading, progress := 0)];
      assert requests == w.requests + [OpenFile(row, fullPath), Fetch(w.nextReply, url)];
      assert State() == StartRow(w, row, parse);
      StartRowKeepsValid(w, row, parse);
    }

    /** onStartAllClicked: without a folder or rows nothing happens; otherwise each row whose status text is not skipped is started, in order. */
    method OnStartAllClicked()
      requires Valid()
      modifies this
      ensures Valid()
      ensures State() == StartAll(old(State()), parse)
    {
      if downloadDir == [] || |rows| == 0 {
        return;
      }
      var count := |rows|;
      for row := 0 to count
        invariant |rows| == count && Valid()
        invariant StartFrom(State(), row, parse) == StartFrom(old(State()), 0, parse)
      {
        var status := Render(rows[row].status);
        RestartableIsTextTest(rows[row]);
        if status == "Downloading" || StartsWith(status, "Done") || StartsWith(status, "Error") {
          continue;
        }
        StartDownloadForRow(row);
      }
    }

    /** The readyRead handler of a download reply, given the bytes read. */
    method OnReadyRead(reply: Reply, chunk: seq<byte>)
      requires Valid()
      modifies this
      ensures Valid()
      ensures State() == ReadyRead(old(State()), reply, chunk)
    {
      ReadyReadKeepsValid(State(), reply, chunk);
      var row := if reply in replyToRow then replyToRow[reply] else -1;
      if row < 0 {
        return;
      }
      if chunk != [] {
        requests := requests + [AppendChunk(row, chunk)];
      }
    }

    /** handleProgress. */
    method HandleProgress(reply: Reply, received: int, total: int)
      requires Valid()
      modifies this
      ensures Valid()
      ensures State() == Progress(old(State()), reply, received, total)
    {
      ProgressKeepsValid(State(), reply, received, total);
      var row := if reply in replyToRow then replyToRow[reply] else -1;
      if row < 0 {
        return;
      }
      var percent := if total > 0 then TruncDiv(received * 100, total) else 0;
      rows := rows[row := rows[row].(progress := percent)];
    }

    /** handleFinished, given the bytes still unread and the reply's error, if any. */
    method HandleFinished(reply: Reply, lastChunk: seq<byte>, error: Option<string>)
      requires Valid()
      modifies this
      ensures Valid()
      ensures State() == Finished(old(State()), reply, lastChunk, error)
    {
      ghost var w := State();
      var row := if reply in replyToRow then replyToRow[reply] else -1;
      var path := if reply in replyToPath then replyToPath[reply] else "";
      replyToRow := replyToRow - {reply};
      replyToPath := replyToPath - {reply};
      if row < 0 {
        assert State() == Finished(w, reply, lastChunk, error);
        FinishedKeepsValid(w, reply, lastChunk, error);
        return;
      }
      var reqs := requests;
      var r := rows[row];
      if lastChunk != [] {
        reqs := reqs + [AppendChunk(row, lastChunk)];
      }
      if error.Some? {
        r := r.(status := Failed(error.value));
        reqs := reqs + [CloseFile(row)];
      } else {
        reqs := reqs + [CloseFile(row)];
        r := r.(progress := 100);
        r := r.(status := DownloadedHashing);
        reqs := reqs + [Hash(row, path)];
      }
      assert r == FinishedRow(w.rows[row], error);
      assert reqs == w.requests + FinishRequests(row, path, lastChunk, error);
      rows := rows[row := r];
      requests := reqs;
      assert State() == Finished(w, reply, lastChunk, error);
      FinishedKeepsValid(w, reply, lastChunk, error);
    }

    /** onWriterError: the row shows "Error: " and the message. */
    method OnWriterError(row: int, message: string)
      requires Valid()
      modifies this
      ensures Valid()
      ensures State() == SetStatus(old(State()), row, Failed(message))
    {
      SetStatusKeepsValid(State(), row, Failed(message));
      if 0 <= row < |rows| {
        rows := rows[row := rows[row].(status := Failed(message))];
      }
    }

    /** onHashReady: the row shows "Done (SHA256: " and the first 12 digits of the digest. */
    method OnHashReady(row: int, digestHex: string)
      requires Valid()
      modifies this
      ensures Valid()
      ensures State() == SetStatus(old(State()), row, Hashed(digestHex))
    {
      SetStatusKeepsValid(State(), row, Hashed(digestHex));
      if 0 <= row < |rows| {
        rows := rows[row := rows[row].(status := Hashed(digestHex))];
      }
    }

    /** onHashError: the row shows "Done (hash error: " and the message. */
    method OnHashError(row: int, message: string)
      requires Valid()
      modifies this
      ensures Valid()
      ensures State() == SetStatus(old(State()), row, HashFailed(message))
    {
      SetStatusKeepsValid(State(), row, HashFailed(message));
      if 0 <= row < |rows| {
        rows := rows[row := rows[row].(status := HashFailed(message))];
      }
    }
  }
}
