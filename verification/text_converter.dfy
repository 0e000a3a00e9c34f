/**
 The text-converter abstraction: one pure transform, `converter`, supplied
 by each concrete variant, and three entry points built on it. The transform
 is a parameter `f`; the clipboard is the snapshot a session reports; the
 file system is a `Disk`. Where the source aborts the process, the model
 returns a `Failure` naming the step that failed.
 */
module TextConverter {
  import opened Outcomes
  import opened Paths
  import opened FileSystem

  /** A concrete transformation: total and deterministic. */
  type Converter = string -> string

  /** The step an entry point failed at. */
  datatype Failure =
    | ClipboardUnavailable   // the clipboard session could not be opened
    | FileUnreadable         // the input file is missing or not valid text
    | OutputCreateFailed     // the output file could not be created
    | OutputWriteFailed      // the converted text could not be fully written

  /** The clipboard at call time: no session, or a session and its text, if any. */
  datatype Clipboard = Unavailable | Available(contents: Maybe<string>)

  /** The value a file run returns together with the disk it leaves behind. */
  datatype FileRun = FileRun(result: Outcome<string, Failure>, after: Disk)

  /** Converts the given text; there is no failure path. */
  function FromText(f: Converter, input: string): (r: string)
    ensures r == f(input)
  {
    f(input)
  }

  /**
   Converts the clipboard's text. A clipboard that cannot be opened is a
   failure; one that holds no text converts the empty string.
   */
  function FromClipboard(f: Converter, c: Clipboard): (r: Outcome<string, Failure>)
    ensures r.Err? <==> c.Unavailable?
    ensures r.Err? ==> r.error == ClipboardUnavailable
    ensures c == Available(Nothing) ==> r == Ok(f(""))
    ensures forall t :: c == Available(Just(t)) ==> r == Ok(f(t))
  {
    match c
    case Unavailable => Err(ClipboardUnavailable)
    case Available(contents) => Ok(f(UnwrapOrDefault(contents)))
  }

  /**
   Reads the file at `path`, converts its text, writes the result to
   `OutputPath(path)` and returns it. The read comes first: if it fails,
   nothing is written.
   */
  function FromFile(f: Converter, d: Disk, path: Path): (r: FileRun)
    ensures r.after.locked == d.locked && r.after.writeLimit == d.writeLimit
    ensures ReadToString(d, path).Nothing? ==> r == FileRun(Err(FileUnreadable), d)
    ensures r.result == Err(FileUnreadable) <==> ReadToString(d, path).Nothing?
    ensures r.result != Err(ClipboardUnavailable)
    ensures r.result.Ok? <==>
              && ReadToString(d, path).Just?
              && OutputPath(path) !in d.locked
              && |f(ReadToString(d, path).value)| <= d.writeLimit
    ensures r.result.Ok? ==>
              && r.result.value == f(ReadToString(d, path).value)
              && ReadToString(r.after, OutputPath(path)) == Just(r.result.value)
    ensures r.result == Err(OutputCreateFailed) <==>
              ReadToString(d, path).Just? && OutputPath(path) in d.locked
    ensures r.result == Err(OutputCreateFailed) ==> r.after == d
    ensures r.result == Err(OutputWriteFailed) <==>
              && ReadToString(d, path).Just?
              && OutputPath(path) !in d.locked
              && |f(ReadToString(d, path).value)| > d.writeLimit
    ensures r.result == Err(OutputWriteFailed) ==>
              && OutputPath(path) in r.after.files
              && r.after.files[OutputPath(path)].Text?
              && r.after.files[OutputPath(path)].text < f(ReadToString(d, path).value)
    ensures AgreeExcept(d.files, r.after.files, OutputPath(path))
  {
    match ReadToString(d, path)
    case Nothing => FileRun(Err(FileUnreadable), d)
    case Just(input) =>
      var output := f(input);
      var w := CreateAndWrite(d, OutputPath(path), output);
      match w.status
      case Written => FileRun(Ok(output), w.after)
      case CreateFailed => FileRun(Err(OutputCreateFailed), w.after)
      case WriteFailed => FileRun(Err(OutputWriteFailed), w.after)
  }

  /** All three entry points convert their input with the same transform. */
  lemma EntryPointsAgree(f: Converter, t: string, d: Disk, path: Path)
    ensures FromClipboard(f, Available(Just(t))) == Ok(FromText(f, t))
    ensures FromClipboard(f, Available(Nothing)) == Ok(FromText(f, ""))
    ensures ReadToString(d, path) == Just(t) && FromFile(f, d, path).result.Ok? ==>
              FromFile(f, d, path).result == Ok(FromText(f, t))
  {
  }

  /** A file that does not exist fails the run and leaves the disk as it was. */
  lemma MissingFileWritesNothing(f: Converter, d: Disk, path: Path)
    requires path !in d.files
    ensures FromFile(f, d, path) == FileRun(Err(FileUnreadable), d)
  {
  }

  /**
   A successful run leaves the input path's entry as it found it. Paths are
   compared as strings: two different strings naming the same file are not
   modelled.
   */
  lemma FromFileKeepsInput(f: Converter, d: Disk, path: Path)
    requires FromFile(f, d, path).result.Ok?
    ensures ReadToString(FromFile(f, d, path).after, path) == ReadToString(d, path)
  {
    OutputPathDiffersFromInput(path);
  }

  /**
   Running the file entry point again after a success changes nothing, as
   long as the input and output path strings name different files.
   */
  lemma FromFileRerunIsStable(f: Converter, d: Disk, path: Path)
    requires FromFile(f, d, path).result.Ok?
    ensures FromFile(f, FromFile(f, d, path).after, path) == FromFile(f, d, path)
  {
    var r := FromFile(f, d, path);
    FromFileKeepsInput(f, d, path);
    RewriteIsStable(r.after, OutputPath(path), r.result.value);
  }
}
