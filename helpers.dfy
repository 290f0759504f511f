/**
 * The pure helpers of MainWindow: the file name a URL is saved under, the
 * page-versus-file heuristic, the extension and host filter for harvested
 * links, the progress percentage, and the status texts of the table.
 *
 * A QUrl is taken as already parsed (Url); QUrl's parser itself is an input
 * of the coordinator, not part of this module.
 */
module WindowHelpers {
  import opened Base

  const FallbackFileName: string := "download.bin"

  /** What the downloader reads of a QUrl: isValid(), scheme(), host(), path(), toString() and toString(FullyDecoded). */
  datatype Url = Url(valid: bool, scheme: string, host: string, path: string, text: string, decoded: string)

  /** QFileInfo(path).fileName(): what follows the last '/' of the path. */
  function FileNameOf(path: string): string
    decreases |path|
  {
    if path == [] || path[|path| - 1] == '/' then []
    else FileNameOf(path[..|path| - 1]) + [path[|path| - 1]]
  }

  /** The file name is the longest end of the path without a '/': it is empty exactly when the path ends in '/' or is empty. */
  lemma {:induction false} FileNameOfSpec(path: string)
    ensures '/' !in FileNameOf(path)
    ensures EndsWith(path, FileNameOf(path))
    ensures |FileNameOf(path)| < |path| ==> path[|path| - |FileNameOf(path)| - 1] == '/'
    ensures FileNameOf(path) == [] <==> (path == [] || path[|path| - 1] == '/')
    decreases |path|
  {
    if !(path == [] || path[|path| - 1] == '/') {
      var init := path[..|path| - 1];
      FileNameOfSpec(init);
      assert path == init + [path[|path| - 1]];
    }
  }

  /** A '/'-free end of the path is part of its file name. */
  lemma {:induction false} FileNameCoversSlashFreeEnd(path: string, m: nat)
    requires m <= |path|
    requires forall i :: |path| - m <= i < |path| ==> path[i] != '/'
    ensures m <= |FileNameOf(path)|
    decreases |path|
  {
    if m > 0 {
      var init := path[..|path| - 1];
      FileNameCoversSlashFreeEnd(init, m - 1);
    }
  }

  /** fileNameFromUrl: the last segment of the URL's path, or "download.bin" when that segment is empty. */
  function FileNameFromPath(path: string): string {
    var name := FileNameOf(path);
    if name == [] then FallbackFileName else name
  }

  /** A saved file's name is never empty and never holds a '/'; it is the path's last segment, or the fallback after a trailing '/'. */
  lemma FileNameFromPathSpec(path: string)
    ensures FileNameFromPath(path) != [] && '/' !in FileNameFromPath(path)
    ensures (path == [] || path[|path| - 1] == '/') ==> FileNameFromPath(path) == FallbackFileName
    ensures !(path == [] || path[|path| - 1] == '/') ==>
      var name := FileNameFromPath(path);
      EndsWith(path, name) && (|name| == |path| || path[|path| - |name| - 1] == '/')
  {
    FileNameOfSpec(path);
  }

  /** QFileInfo::suffix(): what follows the last '.' of a file name, empty when there is none. */
  function SuffixOf(name: string): string
    decreases |name|
  {
    if '.' !in name || name[|name| - 1] == '.' then []
    else SuffixOf(name[..|name| - 1]) + [name[|name| - 1]]
  }

  /** The suffix is the '.'-free end after the last '.'; it is empty exactly when there is no '.' or the name ends in one. */
  lemma {:induction false} SuffixOfSpec(name: string)
    ensures '.' !in SuffixOf(name)
    ensures EndsWith(name, SuffixOf(name))
    ensures '.' in name ==> name[|name| - |SuffixOf(name)| - 1] == '.'
    ensures SuffixOf(name) != [] <==> ('.' in name && name[|name| - 1] != '.')
    decreases |name|
  {
    if !('.' !in name || name[|name| - 1] == '.') {
      var init := name[..|name| - 1];
      assert name == init + [name[|name| - 1]];
      assert '.' in init;
      SuffixOfSpec(init);
    }
  }

  /** looksLikeWebPage, on the URL's path. */
  predicate LooksLikeWebPage(path: string) {
    || path == []
    || path[|path| - 1] == '/'
    || EndsWith(Lower(path), ".html")
    || EndsWith(Lower(path), ".htm")
    || Lower(SuffixOf(FileNameOf(path))) == []
  }

  /** The heuristic in one line: a path is a page exactly when its file has no suffix or an .htm/.html one. */
  lemma WebPageIffNoSuffixOrHtml(path: string)
    ensures LooksLikeWebPage(path) <==>
      (SuffixOf(FileNameOf(path)) == [] || EndsWith(Lower(path), ".html") || EndsWith(Lower(path), ".htm"))
  {
    FileNameOfSpec(path);
  }

  /** The 20 file types that link harvesting keeps. */
  const AllowedExtensions: seq<string> := [
    ".png", ".jpg", ".jpeg", ".webp", ".gif", ".svg", ".ico",
    ".pdf", ".zip", ".rar", ".7z",
    ".bin", ".hex", ".txt", ".csv", ".json", ".xml",
    ".mp4", ".mp3", ".wav"]

  /** The lower-cased path ends with one of the allowed extensions. */
  predicate AllowedExtension(path: string) {
    exists i :: 0 <= i < |AllowedExtensions| && EndsWith(Lower(path), AllowedExtensions[i])
  }

  /** hasAllowedExtension: the loop over the extension list. */
  method HasAllowedExtension(path: string) returns (allowed: bool)
    ensures allowed <==> AllowedExtension(path)
  {
    var lower := Lower(path);
    for i := 0 to |AllowedExtensions|
      invariant forall k :: 0 <= k < i ==> !EndsWith(lower, AllowedExtensions[k])
    {
      if EndsWith(lower, AllowedExtensions[i]) {
        return true;
      }
    }
    return false;
  }

  /** allowedByFilter: a link on a foreign host is refused; otherwise its extension decides. */
  predicate AllowedByFilter(u: Url, base: Url) {
    !(u.host != [] && u.host != base.host) && AllowedExtension(u.path)
  }

  /** allowedByFilter, calling the extension loop. */
  method CheckFilter(u: Url, base: Url) returns (allowed: bool)
    ensures allowed <==> AllowedByFilter(u, base)
  {
    if u.host != [] && u.host != base.host {
      return false;
    }
    allowed := HasAllowedExtension(u.path);
  }

  /** An allowed extension is a '.', then at least one character that is neither '.' nor '/'. */
  predicate ExtensionShape(e: string) {
    2 <= |e| && e[0] == '.' && forall i :: 1 <= i < |e| ==> e[i] != '.' && e[i] != '/'
  }

  /** The end of an extension that tells it apart from ".htm" and ".html". */
  predicate NotHtmlEnd(e: string)
    requires e != []
  {
    e[|e| - 1] != 'm' && (e[|e| - 1] == 'l' ==> |e| >= 3 && e[|e| - 3] != 't')
  }

  lemma AllowedExtensionsShape()
    ensures forall i :: 0 <= i < |AllowedExtensions| ==>
      ExtensionShape(AllowedExtensions[i]) && NotHtmlEnd(AllowedExtensions[i])
  {
  }

  /** The lower-cased path ends with a shaped extension: the path's file has a non-empty suffix. */
  lemma {:induction false} ShapedEndGivesSuffix(path: string, e: string)
    requires ExtensionShape(e) && EndsWith(Lower(path), e)
    ensures path != [] && path[|path| - 1] != '/'
    ensures SuffixOf(FileNameOf(path)) != []
  {
    var lower := Lower(path);
    LowerSpec(path);
    var m, n := |e|, |path|;
    assert forall k :: n - m <= k < n ==> lower[k] == e[k - (n - m)];
    assert path[n - m] == '.';
    assert forall k :: n - m < k < n ==> path[k] != '.' && path[k] != '/';
    FileNameCoversSlashFreeEnd(path, m);
    FileNameOfSpec(path);
    var name := FileNameOf(path);
    SuffixOfSpec(name);
    assert name[|name| - m] == path[n - m];
    assert name[|name| - 1] == path[n - 1];
  }

  /** A text ending with a non-HTML extension ends with neither ".htm" nor ".html". */
  lemma {:induction false} NotHtmlEndOfText(t: string, e: string)
    requires e != [] && NotHtmlEnd(e) && EndsWith(t, e)
    ensures !EndsWith(t, ".html") && !EndsWith(t, ".htm")
  {
    assert t[|t| - 1] == e[|e| - 1];
  }

  /** A lower-cased path ending with a shaped, non-HTML extension does not look like a web page. */
  lemma ShapedEndIsNotWebPage(path: string, e: string)
    requires ExtensionShape(e) && NotHtmlEnd(e) && EndsWith(Lower(path), e)
    ensures !LooksLikeWebPage(path)
  {
    ShapedEndGivesSuffix(path, e);
    NotHtmlEndOfText(Lower(path), e);
  }

  /** A link the filter keeps is never one the page heuristic would fetch as HTML. */
  lemma AllowedIsNotWebPage(path: string)
    requires AllowedExtension(path)
    ensures !LooksLikeWebPage(path)
  {
    var i :| 0 <= i < |AllowedExtensions| && EndsWith(Lower(path), AllowedExtensions[i]);
    AllowedExtensionsShape();
    ShapedEndIsNotWebPage(path, AllowedExtensions[i]);
  }

  /** C++ division of a 64-bit integer by a positive one: the quotient is truncated toward zero. */
  function TruncDiv(a: int, b: int): int
    requires b > 0
  {
    if a >= 0 then a / b else -((-a) / b)
  }

  /** Truncating division: for a >= 0 it is the floor quotient, and a negative dividend mirrors a positive one. */
  lemma TruncDivSpec(a: int, b: int)
    requires b > 0
    ensures a >= 0 ==> TruncDiv(a, b) * b <= a < (TruncDiv(a, b) + 1) * b
    ensures TruncDiv(-a, b) == -TruncDiv(a, b)
  {
  }

  /** The percentage handleProgress shows: received*100/total when the total is known, else 0. */
  function Percent(received: int, total: int): int {
    if total > 0 then TruncDiv(received * 100, total) else 0
  }

  /** An unknown total shows 0; otherwise the percentage is received*100/total rounded down. */
  lemma PercentSpec(received: int, total: int)
    ensures total <= 0 ==> Percent(received, total) == 0
    ensures 0 <= received && 0 < total ==>
      Percent(received, total) * total <= received * 100 < (Percent(received, total) + 1) * total
  {
    if 0 <= received && 0 < total {
      TruncDivSpec(received * 100, total);
    }
  }

  lemma MulMonotone(a: int, b: int, c: int)
    requires a <= b && c > 0
    ensures a * c <= b * c
  {
  }

  /** While the received count stays within the total, the percentage lies in 0..100, and is 100 exactly at the end. */
  lemma PercentBounds(received: int, total: int)
    requires 0 <= received <= total && 0 < total
    ensures 0 <= Percent(received, total) <= 100
    ensures Percent(received, total) == 100 <==> received == total
  {
    var p := Percent(received, total);
    PercentSpec(received, total);
    if p < 0 {
      MulMonotone(p + 1, 0, total);
    }
    MulMonotone(received, total, 100);
    if p > 100 {
      MulMonotone(101, p, total);
    }
    if p == 100 && received < total {
      MulMonotone(received + 1, total, 100);
    }
    if received == total && p < 100 {
      MulMonotone(p + 1, 100, total);
    }
  }

  /** More bytes never show a smaller percentage. */
  lemma PercentMonotone(r1: int, r2: int, total: int)
    requires 0 <= r1 <= r2 && 0 < total
    ensures Percent(r1, total) <= Percent(r2, total)
  {
    var p1, p2 := Percent(r1, total), Percent(r2, total);
    PercentSpec(r1, total);
    PercentSpec(r2, total);
    if p1 > p2 {
      MulMonotone(p2 + 1, p1, total);
      MulMonotone(r1, r2, 100);
    }
  }

  /** A table row's status, as the handlers set it. */
  datatype Status =
    | Queued
    | Downloading
    | DownloadedHashing
    | Failed(message: string)
    | Hashed(digest: string)
    | HashFailed(message: string)

  /** QString::left: the first n characters, or all of them. */
  function Left(s: string, n: nat): (r: string)
    ensures |r| <= n && StartsWith(s, r)
    ensures |s| >= n ==> |r| == n
  {
    if |s| <= n then s else s[..n]
  }

  /** The text setStatus writes into the status cell. */
  function Render(s: Status): string {
    match s
    case Queued => "Queued"
    case Downloading => "Downloading"
    case DownloadedHashing => "Downloaded (hashing...)"
    case Failed(m) => "Error: " + m
    case Hashed(d) => "Done (SHA256: " + Left(d, 12) + "...)"
    case HashFailed(m) => "Done (hash error: " + m + ")"
  }

  /** The test onStartAllClicked applies to a status text before it restarts a row. */
  predicate SkippedByStartAll(text: string) {
    text == "Downloading" || StartsWith(text, "Done") || StartsWith(text, "Error")
  }

  /** onStartAllClicked skips exactly the downloading, failed and finished rows: it restarts Queued and Downloaded (hashing...). */
  lemma SkipRule(s: Status)
    ensures SkippedByStartAll(Render(s)) <==> (s.Downloading? || s.Failed? || s.Hashed? || s.HashFailed?)
  {
    match s
    case Queued =>
      assert Render(s)[0] == 'Q';
    case DownloadedHashing =>
      assert Render(s)[0] == 'D' && Render(s)[2] == 'w';
    case Downloading =>
    case Failed(m) =>
      assert ("Error: " + m)[..5] == "Error";
    case Hashed(d) =>
      assert ("Done (SHA256: " + Left(d, 12) + "...)")[..4] == "Done";
    case HashFailed(m) =>
      assert ("Done (hash error: " + m + ")")[..4] == "Done";
  }
}
