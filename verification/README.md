# text_converter, modelled in Dafny

`text_converter` is a small Rust library built around one trait,
`TextConverter`. A concrete variant supplies a single pure transform,
`converter`, and gets three entry points for free: `new_from_text` converts a
string, `new_from_clipboard` converts the clipboard's text, and
`new_from_file` converts a file's text and also writes the result to a file
named after the input (`<base>_converted.md`, where `<base>` is the input path
up to its first `.`).

This project models that trait as pure functions:

- `outcomes.dfy` (`Outcomes`): `Maybe`, `Outcome` and `UnwrapOrDefault`.
- `paths.dfy` (`Paths`): the output-path rule `split('.').take(1).collect() + "_converted.md"`,
  with `str::split` modelled segment by segment and its round trip with `Join`
  proved in both directions. The base is characterised independently by
  `IsFirstSegment`: a `.`-free prefix of the path that is either the whole
  path or is followed by a `.`.
- `file_system.dfy` (`FileSystem`): a `Disk` mapping paths to contents, where a
  file's bytes may not be valid text. A path in `locked` cannot be created.
  `writeLimit` is how many characters one write can place before it fails.
- `text_converter.dfy` (`TextConverter`): the converter is a parameter
  `f: string -> string`. The clipboard is the snapshot an opened session
  reports, or `Unavailable`. Each `expect` that aborts the process in the
  source becomes a `Failure` variant naming the step: clipboard open, file
  read, output create, output write.
- `reverse_text.dfy` (`ReverseText`): the reversing converter used by the
  documentation example and the test.

The documentation of `new_from_clipboard` (src/lib.rs:41) says it returns
an empty string when the clipboard contents cannot be fetched or are not
text. The code (src/lib.rs:47-49) turns that case into the empty string and
then returns `converter("")`, which is not the empty string for every
converter. The model follows the code. The abort when the clipboard cannot
be opened at all is documented (src/lib.rs:43-44) and modelled as a failure.

## Model

| member | source | states |
|---|---|---|
| Paths.Split | src/lib.rs:68 | splitting at `.` yields at least one segment, none containing `.`; the first is a prefix of the path that ends at the path's end or at its first `.` |
| Paths.JoinSplit | src/lib.rs:68 | gluing the segments back together with `.` gives the original path |
| Paths.SplitJoin | src/lib.rs:68 | splitting a join of `.`-free segments gives the same segments back, so split is a bijection onto non-empty lists of `.`-free segments |
| Paths.Concat | src/lib.rs:70 | collecting the kept segments into one string: no segments give the empty string, one segment gives itself, and the first segment always begins the result |
| Paths.ConcatAppend | src/lib.rs:70 | collecting two lists one after the other is the same as collecting their concatenation |
| Paths.Take | src/lib.rs:69 | `take(n)` keeps a prefix of the segments that has length `n` or is the whole list |
| Paths.OutputBase | src/lib.rs:64-70 | the kept text is a prefix of the path without `.` that is the whole path or is followed by `.` |
| Paths.OutputPath | src/lib.rs:64-71 | the output path ends in `_converted.md` and what precedes the suffix is the part of the input before its first `.` |
| Paths.FirstSegmentUnique | src/lib.rs:64-70 | a path has exactly one such base |
| Paths.OutputPathIff | src/lib.rs:64-71 | the output path is `b + "_converted.md"` if and only if `b` is the part of the input before its first `.` |
| Paths.NoDotKeepsWholePath | src/lib.rs:64-71 | a path without `.` keeps all of itself as the base |
| Paths.FirstDotCuts | src/lib.rs:64-71 | for any `.`-free `base` and any tail, `base + "." + tail` gives `base + "_converted.md"`, however many dots the tail holds |
| Paths.LeadingDotGivesEmptyBase | src/lib.rs:64-71 | a path starting with `.` has an empty base and its output path is `_converted.md` |
| Paths.OutputPathDiffersFromInput | src/lib.rs:64-73 | the output path string is never equal to the input path string |
| Paths.SingleExtensionExample | src/lib.rs:64-71 | `notes.txt` is written to `notes_converted.md` |
| Paths.MultiDotExample | src/lib.rs:64-71 | `archive.tar.gz` is written to `archive_converted.md` |
| Paths.NoDotExample | src/lib.rs:64-71 | `README` is written to `README_converted.md` |
| Paths.LeadingDotExample | src/lib.rs:64-71 | `.env` is written to `_converted.md` |
| FileSystem.ReadToString | src/lib.rs:62 | reading succeeds exactly when a file exists at the path and holds valid text, and then returns that text |
| FileSystem.CreateAndWrite | src/lib.rs:73-76 | a failed create changes nothing; a completed write makes the path hold exactly the text; a failed write leaves a strict prefix of it; every other path is unchanged |
| FileSystem.ReadAfterWrite | src/lib.rs:73-76 | after a completed write, reading the path gives back the written text |
| FileSystem.WriteKeepsOtherReads | src/lib.rs:73-76 | writing one path does not change what any other path reads as |
| FileSystem.RewriteIsStable | src/lib.rs:73-76 | writing a file with the text it already holds leaves the disk as it was |
| TextConverter.FromText | src/lib.rs:32-34 | the text entry point returns the converter's output on its input and has no failure path |
| Outcomes.UnwrapOrDefault | src/lib.rs:47 | the clipboard's text when it reported some, the empty string otherwise |
| TextConverter.FromClipboard | src/lib.rs:45-50 | fails exactly when the clipboard cannot be opened; an opened clipboard with text `t` gives `converter(t)`, one without text gives `converter("")` |
| TextConverter.FromFile | src/lib.rs:61-79 | each failure variant is returned exactly when its step fails: `FileUnreadable` exactly when the read fails (disk untouched), `OutputCreateFailed` exactly when the read succeeds and the output cannot be created (disk untouched), `OutputWriteFailed` exactly when both succeed and the converted text does not fit (a strict prefix is left); otherwise the run succeeds with `converter(content)`, which the output path reads back as; never the clipboard failure; only the output path can change |
| TextConverter.EntryPointsAgree | src/lib.rs:32-63 | the clipboard and file entry points return what the text entry point returns on the text they obtained |
| TextConverter.MissingFileWritesNothing | src/lib.rs:62 | a missing input file fails the run before anything is written |
| TextConverter.FromFileKeepsInput | src/lib.rs:61-78 | a successful run leaves the input path's entry reading as before, with paths compared as strings |
| TextConverter.FromFileRerunIsStable | src/lib.rs:61-78 | running the file entry point again on the disk a success left behind returns the same value and leaves the same disk, with paths compared as strings |
| ReverseText.Reverse | src/lib.rs:88-92 | the reversed string has the input's length and holds at each position the character mirrored from the other end |
| ReverseText.ReverseInvolution | src/lib.rs:88-92 | reversing twice gives back the input |
| ReverseText.ReverseUnique | src/lib.rs:88-92 | any string that mirrors the input character by character is its reverse |
| ReverseText.HelloWorldExample | src/lib.rs:94-99 | converting `Hello World!` with the reversing converter gives `!dlroW olleH` |
| ReverseText.ReverseFileExample | src/lib.rs:61-92 | a file run with the reversing converter on `notes.txt` holding `abc` returns `cba` and writes it to `notes_converted.md` |

## Left out

- Process abort: each `expect` that ends the process is a `Failure` value instead; the diagnostic messages are not modelled.
- The clipboard service (`arboard::Clipboard`): only its outcome is modelled, a session that could not be opened or the text it reports, if any. Why it failed is not modelled.
- File system semantics: reading a file is modelled only as "succeeds with text" or "fails". Durability, permissions beyond a path that cannot be created, and relative versus absolute paths are not modelled.
- FileSystem.CreateAndWrite: a write is measured in characters, not UTF-8 bytes, so a failed write that would end inside a multi-byte character is not modelled.
- `Path::to_str().unwrap()` (src/lib.rs:67): paths are strings, so the panic on a path that is not valid UTF-8 is not modelled.
- `AsRef<str>` and `AsRef<Path>` genericity: inputs are plain strings.
- Unicode: strings are sequences of Unicode scalar values, matching `chars()`. Graphemes and encodings are not modelled.
- Paths.OutputPathDiffersFromInput, TextConverter.FromFileKeepsInput, TextConverter.FromFileRerunIsStable: paths are compared as strings, so two strings naming the same file (`./x`, `../dir/x`, links) are not modelled. For the input `./_converted.md` the output path is `_converted.md`. That is the same file, so the real run overwrites its input, and a second run returns `converter(converter(c))`.
