/**
 * The file-writer worker (FileWriterWorker). It owns a table from a
 * download's row to the one file handle open for it, and serves three
 * commands: open, append a chunk, close. Each command may emit one signal.
 *
 * A handle is identified by the path it was opened on; the file system is a
 * map from path to contents. Whether the system calls succeed (QFile::open,
 * QFile::write) is an input of each command, so every run is deterministic.
 *
 * The pure step functions below are the specification; the class
 * FileWriterWorker implements them by updating its fields in place.
 */
module FileWriter {
  import opened Base

  const CannotOpenMessage: string := "Cannot open file for writing"
  const WriteFailedMessage: string := "Write failed"

  /** The worker's three signals. */
  datatype Signal =
    | FileOpened(row: int, path: string)
    | FileClosed(row: int)
    | WriteError(row: int, message: string)

  /** One slot invocation, together with the outcome of the system call it makes. */
  datatype Command =
    | Open(row: int, path: string, canOpen: bool)
    | Append(row: int, chunk: seq<byte>, writeOk: bool)
    | Close(row: int)

  /** The worker's handle table, the file system it writes to, and the signals emitted so far. */
  datatype Worker = Worker(files: map<int, string>, disk: map<string, seq<byte>>, signals: seq<Signal>)

  /** Every open handle refers to a file that exists. */
  predicate HandlesOnDisk(w: Worker) {
    forall r :: r in w.files ==> w.files[r] in w.disk
  }

  /** openFile: drop any stale handle of `row`, then open `path` for writing (truncating it). */
  function OpenStep(w: Worker, row: int, path: string, canOpen: bool): (w': Worker)
    requires HandlesOnDisk(w)
    ensures HandlesOnDisk(w')
    ensures row in w'.files <==> canOpen
    ensures canOpen ==> w'.files[row] == path && w'.disk[path] == []
    ensures forall r :: r != row ==> (r in w'.files <==> r in w.files)
    ensures forall r :: r != row && r in w.files ==> w'.files[r] == w.files[r]
    ensures w'.disk.Keys == if canOpen then w.disk.Keys + {path} else w.disk.Keys
    ensures forall q :: q in w.disk && !(canOpen && q == path) ==> w'.disk[q] == w.disk[q]
    ensures w'.signals == w.signals + [if canOpen then FileOpened(row, path) else WriteError(row, CannotOpenMessage)]
  {
    var files := w.files - {row};
    if canOpen then Worker(files[row := path], w.disk[path := []], w.signals + [FileOpened(row, path)])
    else Worker(files, w.disk, w.signals + [WriteError(row, CannotOpenMessage)])
  }

  /** appendChunk: write `chunk` at the end of the row's open file; silent when the row has no handle. */
  function AppendStep(w: Worker, row: int, chunk: seq<byte>, writeOk: bool): (w': Worker)
    requires HandlesOnDisk(w)
    ensures HandlesOnDisk(w')
    ensures w'.files == w.files && w'.disk.Keys == w.disk.Keys
    ensures row !in w.files ==> w' == w
    ensures row in w.files && writeOk ==>
      w'.disk[w.files[row]] == w.disk[w.files[row]] + chunk && w'.signals == w.signals
    ensures row in w.files && !writeOk ==>
      w'.disk == w.disk && w'.signals == w.signals + [WriteError(row, WriteFailedMessage)]
    ensures forall q :: q in w.disk && (row !in w.files || q != w.files[row]) ==> w'.disk[q] == w.disk[q]
  {
    if row !in w.files then w
    else if writeOk then
      var p := w.files[row];
      Worker(w.files, w.disk[p := w.disk[p] + chunk], w.signals)
    else Worker(w.files, w.disk, w.signals + [WriteError(row, WriteFailedMessage)])
  }

  /** closeFile: flush, close and forget the row's handle; silent when the row has none. */
  function CloseStep(w: Worker, row: int): (w': Worker)
    requires HandlesOnDisk(w)
    ensures HandlesOnDisk(w')
    ensures row !in w'.files && w'.disk == w.disk
    ensures row in w.files ==> w'.files == w.files - {row} && w'.signals == w.signals + [FileClosed(row)]
    ensures row !in w.files ==> w' == w
  {
    if row !in w.files then w
    else Worker(w.files - {row}, w.disk, w.signals + [FileClosed(row)])
  }

  function Apply(w: Worker, c: Command): (w': Worker)
    requires HandlesOnDisk(w)
    ensures HandlesOnDisk(w')
  {
    match c
    case Open(row, path, canOpen) => OpenStep(w, row, path, canOpen)
    case Append(row, chunk, writeOk) => AppendStep(w, row, chunk, writeOk)
    case Close(row) => CloseStep(w, row)
  }

  /** The worker after serving `cmds` in order. */
  function Run(w: Worker, cmds: seq<Command>): (w': Worker)
    requires HandlesOnDisk(w)
    ensures HandlesOnDisk(w')
    decreases |cmds|
  {
    if cmds == [] then w else Run(Apply(w, cmds[0]), cmds[1..])
  }

  /** The bytes that `cmds` successfully append for `row`, in order. */
  function Appended(cmds: seq<Command>, row: int): seq<byte>
    decreases |cmds|
  {
    if cmds == [] then []
    else
      var head := match cmds[0]
        case Append(r, chunk, writeOk) => if r == row && writeOk then chunk else []
        case _ => [];
      head + Appended(cmds[1..], row)
  }

  /** `row` holds a handle on `path` and no other row holds one on the same path. */
  predicate HoldsExclusively(w: Worker, row: int, path: string) {
    row in w.files && w.files[row] == path &&
    forall r :: r in w.files && r != row ==> w.files[r] != path
  }

  /** A command that neither reopens nor closes `row`, and opens nothing on `path`. */
  predicate KeepsOpen(c: Command, row: int, path: string) {
    match c
    case Open(r, p, _) => r != row && p != path
    case Append(_, _, _) => true
    case Close(r) => r != row
  }

  /** The worker's state is a single map keyed by row: opening a row twice leaves one handle, on the newer path. */
  lemma {:induction false} ReopenReplacesHandle(w: Worker, row: int, p1: string, p2: string)
    requires HandlesOnDisk(w)
    ensures var w' := OpenStep(OpenStep(w, row, p1, true), row, p2, true);
      w'.files == w.files[row := p2] && w'.disk[p2] == []
  {
    var w1 := OpenStep(w, row, p1, true);
    var w2 := OpenStep(w1, row, p2, true);
    assert w2.files.Keys == w.files.Keys + {row};
  }

  /** After a close, appends for the same row change nothing and emit nothing. */
  lemma {:induction false} AppendsAfterCloseAreNoOps(w: Worker, row: int, cmds: seq<Command>)
    requires HandlesOnDisk(w)
    requires forall i :: 0 <= i < |cmds| ==> cmds[i].Append? && cmds[i].row == row
    ensures Run(CloseStep(w, row), cmds) == CloseStep(w, row)
    decreases |cmds|
  {
    var c := CloseStep(w, row);
    if cmds != [] {
      assert Apply(c, cmds[0]) == c;
      AppendsAfterCloseAreNoOps(w, row, cmds[1..]);
    }
  }

  /**
   * While `row` keeps its handle on `path` and no other row touches that path,
   * the file grows by exactly the chunks successfully appended for `row`, in order.
   */
  lemma {:induction false} ExclusiveFileAccumulatesChunks(w: Worker, row: int, path: string, cmds: seq<Command>)
    requires HandlesOnDisk(w) && HoldsExclusively(w, row, path)
    requires forall i :: 0 <= i < |cmds| ==> KeepsOpen(cmds[i], row, path)
    ensures HoldsExclusively(Run(w, cmds), row, path)
    ensures Run(w, cmds).disk[path] == w.disk[path] + Appended(cmds, row)
    decreases |cmds|
  {
    if cmds != [] {
      var w1 := Apply(w, cmds[0]);
      var head := Appended([cmds[0]], row);
      assert Appended([cmds[0]], row) == head + Appended([], row);
      assert Appended(cmds, row) == head + Appended(cmds[1..], row);
      assert HoldsExclusively(w1, row, path) && w1.disk[path] == w.disk[path] + head by {
        match cmds[0]
        case Open(r, p, ok) =>
        case Append(r, chunk, ok) =>
        case Close(r) =>
      }
      ExclusiveFileAccumulatesChunks(w1, row, path, cmds[1..]);
    }
  }

  /**
   * The key invariant: after a successful open of `path` for `row`, the file
   * equals the concatenation, in call order, of the chunks appended for `row`
   * since that open.
   */
  lemma FileIsChunksSinceOpen(w: Worker, row: int, path: string, cmds: seq<Command>)
    requires HandlesOnDisk(w)
    requires forall r :: r in w.files && r != row ==> w.files[r] != path
    requires forall i :: 0 <= i < |cmds| ==> KeepsOpen(cmds[i], row, path)
    ensures var w' := Run(OpenStep(w, row, path, true), cmds);
      row in w'.files && w'.files[row] == path && w'.disk[path] == Appended(cmds, row)
  {
    var w0 := OpenStep(w, row, path, true);
    ExclusiveFileAccumulatesChunks(w0, row, path, cmds);
  }

  /** Signals only accumulate, and each command emits at most one. */
  lemma {:induction false} SignalsAccumulate(w: Worker, cmds: seq<Command>)
    requires HandlesOnDisk(w)
    ensures var w' := Run(w, cmds);
      |w.signals| <= |w'.signals| <= |w.signals| + |cmds| && w'.signals[..|w.signals|] == w.signals
    decreases |cmds|
  {
    if cmds != [] {
      var w1 := Apply(w, cmds[0]);
      SignalsAccumulate(w1, cmds[1..]);
      assert w1.signals[..|w.signals|] == w.signals;
    }
  }

  /** FileWriterWorker as a mutable object: the handle table, the file system and the signal trace. */
  class FileWriterWorker {
    var files: map<int, string>
    var disk: map<string, seq<byte>>
    var signals: seq<Signal>

    function State(): Worker
      reads this
    {
      Worker(files, disk, signals)
    }

    predicate Valid()
      reads this
    {
      HandlesOnDisk(State())
    }

    /** A fresh worker has no open handles and has emitted nothing. */
    constructor (fileSystem: map<string, seq<byte>>)
      ensures Valid()
      ensures files == map[] && disk == fileSystem && signals == []
    {
      files := map[];
      disk := fileSystem;
      signals := [];
    }

    method OpenFile(row: int, path: string, canOpen: bool)
      requires Valid()
      modifies this
      ensures Valid()
      ensures State() == OpenStep(old(State()), row, path, canOpen)
      ensures row in files <==> canOpen
    {
      if row in files {
        // the stale handle is flushed, closed and deleted
        files := files - {row};
      }
      if !canOpen {
        signals := signals + [WriteError(row, CannotOpenMessage)];
        return;
      }
      disk := disk[path := []];
      files := files[row := path];
      signals := signals + [FileOpened(row, path)];
    }

    method AppendChunk(row: int, chunk: seq<byte>, writeOk: bool)
      requires Valid()
      modifies this
      ensures Valid()
      ensures State() == AppendStep(old(State()), row, chunk, writeOk)
      ensures files == old(files)
    {
      if row !in files {
        return;
      }
      var p := files[row];
      if writeOk {
        disk := disk[p := disk[p] + chunk];
      } else {
        signals := signals + [WriteError(row, WriteFailedMessage)];
      }
    }

    method CloseFile(row: int)
      requires Valid()
      modifies this
      ensures Valid()
      ensures State() == CloseStep(old(State()), row)
      ensures row !in files && disk == old(disk)
    {
      if row !in files {
        return;
      }
      files := files - {row};
      signals := signals + [FileClosed(row)];
    }
  }
}
