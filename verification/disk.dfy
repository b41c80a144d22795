/** The environment automoc works in: the file system as a map from path to file, and
    the moc process as an outcome chosen by the environment for each argument list. */
module Disk {
  import opened Text

  /** A file: its bytes (read as characters) and its modification time. */
  datatype FileEntry = FileEntry(contents: string, mtime: int)

  /** The existing files; a path that is not a key does not exist. */
  type FileSystem = map<Path, FileEntry>

  /** QFile::readAll() after open(): the contents, or nothing when the file is missing. */
  function Read(fs: FileSystem, p: Path): (s: string)
    ensures p !in fs ==> s == []
  {
    if p in fs then fs[p].contents else []
  }

  /** QFileInfo::lastModified(): an invalid date (None) for a missing file. */
  function LastModified(fs: FileSystem, p: Path): Option<int>
  {
    if p in fs then Some(fs[p].mtime) else None
  }

  /** QDateTime's `a <= b`: an invalid date compares below every valid one, and two
      invalid dates are equal. */
  predicate NotNewer(a: Option<int>, b: Option<int>) {
    match a
    case None => true
    case Some(x) => b.Some? && x <= b.value
  }

  /** What happened to one moc process: it did not start, it crashed or could not be
      waited for, or it exited with a code after producing some output. */
  datatype MocRun = FailedToStart | Crashed | Exited(code: int, output: string)

  /** The outcome the environment gives to moc run with a given argument list. */
  type MocProcess = seq<string> -> MocRun

  /** A started process that did not finish cleanly with exit code 0. */
  predicate RunFailed(r: MocRun) {
    r.Crashed? || (r.Exited? && r.code != 0)
  }

  /** A moc run counts as a failure of automoc when it failed to start or failed. */
  predicate IsFailure(r: MocRun) {
    r.FailedToStart? || RunFailed(r)
  }

  /** One moc invocation: the file it read, the file it was told to write, and what
      happened. */
  datatype Attempt = Attempt(source: Path, mocPath: Path, run: MocRun)

  predicate AnyFailure(log: seq<Attempt>) {
    exists i :: 0 <= i < |log| && IsFailure(log[i].run)
  }

  /** Logging one more attempt: the log records a failure when it did or the new
      attempt failed. */
  lemma AnyFailureSnoc(log: seq<Attempt>, a: Attempt)
    ensures AnyFailure(log + [a]) <==> AnyFailure(log) || IsFailure(a.run)
  {
    if AnyFailure(log) {
      var i :| 0 <= i < |log| && IsFailure(log[i].run);
      assert (log + [a])[i] == log[i];
    }
    if IsFailure(a.run) {
      assert (log + [a])[|log|] == a;
    }
  }

  /** The file system after moc ran on one argument list writing to mocPath: the output
      of a clean run replaces the file; a failed run's file is removed; a process that
      never started leaves everything as it was. */
  function AfterRun(fs: FileSystem, mocPath: Path, r: MocRun, now: int): (fs': FileSystem)
    ensures forall p :: p != mocPath ==> (p in fs' <==> p in fs) && (p in fs ==> fs'[p] == fs[p])
    ensures RunFailed(r) ==> mocPath !in fs'
    ensures r.Exited? && r.code == 0 ==> mocPath in fs' && fs'[mocPath] == FileEntry(r.output, now)
    ensures r.FailedToStart? ==> fs' == fs
  {
    match r
    case FailedToStart => fs
    case Crashed => fs - {mocPath}
    case Exited(code, output) =>
      if code == 0 then fs[mocPath := FileEntry(output, now)] else fs - {mocPath}
  }
}
