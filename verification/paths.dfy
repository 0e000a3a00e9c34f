/**
 The output-path rule of the file entry point: the input path is split at
 every `.`, only the first segment is kept, and `_converted.md` is appended.
 Splitting is modelled the way Rust's `str::split` yields segments, so that
 the rule can be stated both as the source computes it and as the property
 it has: the base is the longest prefix of the path that holds no `.`.
 */
module Paths {

  type Path = string

  /** The character the input path is split at. */
  const Dot: char := '.'

  /** Appended to the kept segment to name the output file. */
  const Suffix: string := "_converted.md"

  /**
   The segments of `s` between occurrences of `sep`, in order. As with Rust's
   `str::split`, there is always at least one segment, the empty string gives
   one empty segment, and a separator at either end or next to another one
   gives an empty segment.
   */
  function Split(s: string, sep: char): (parts: seq<string>)
    ensures |parts| >= 1
    ensures forall i :: 0 <= i < |parts| ==> sep !in parts[i]
    ensures parts[0] <= s
    ensures |parts[0]| == |s| || s[|parts[0]|] == sep
    decreases |s|
  {
    if |s| == 0 then [""]
    else
      var rest := Split(s[1..], sep);
      if s[0] == sep then [""] + rest
      else [[s[0]] + rest[0]] + rest[1..]
  }

  /** The segments of a non-empty list glued back together with `sep`. */
  function Join(parts: seq<string>, sep: char): string
    requires |parts| >= 1
    decreases |parts|
  {
    if |parts| == 1 then parts[0]
    else parts[0] + [sep] + Join(parts[1..], sep)
  }

  /** The concatenation of all parts (Rust's `collect::<String>()` over strings). */
  function Concat(parts: seq<string>): (r: string)
    ensures |parts| == 0 ==> r == ""
    ensures |parts| == 1 ==> r == parts[0]
    ensures |parts| >= 1 ==> parts[0] <= r
    decreases |parts|
  {
    if |parts| == 0 then "" else parts[0] + Concat(parts[1..])
  }

  /** At most the first `n` elements (Rust's `Iterator::take`). */
  function Take<T>(xs: seq<T>, n: nat): (r: seq<T>)
    ensures |r| <= n && r <= xs
    ensures |r| == n || r == xs
  {
    if n <= |xs| then xs[..n] else xs
  }

  /** Concatenating two lists of parts is concatenating their concatenations. */
  lemma {:induction false} ConcatAppend(xs: seq<string>, ys: seq<string>)
    ensures Concat(xs + ys) == Concat(xs) + Concat(ys)
    decreases |xs|
  {
    if |xs| > 0 {
      assert (xs + ys)[1..] == xs[1..] + ys;
      ConcatAppend(xs[1..], ys);
    } else {
      assert xs + ys == ys;
    }
  }

  /**
   `b` is the first `sep`-delimited segment of `s`: a prefix of `s` without
   `sep` that is either all of `s` or is followed by `sep`.
   */
  predicate IsFirstSegment(b: string, s: string, sep: char)
  {
    && b <= s
    && sep !in b
    && (|b| == |s| || s[|b|] == sep)
  }

  /** The text before the first `.` of the path, computed as the source does. */
  function OutputBase(p: Path): (base: string)
    ensures IsFirstSegment(base, p, Dot)
  {
    var parts := Split(p, Dot);
    assert Take(parts, 1) == [parts[0]];
    Concat(Take(parts, 1))
  }

  /** The path the file entry point writes its result to. */
  function OutputPath(p: Path): (out: Path)
    ensures |out| >= |Suffix| && out[|out| - |Suffix|..] == Suffix
    ensures IsFirstSegment(out[..|out| - |Suffix|], p, Dot)
  {
    var base := OutputBase(p);
    assert (base + Suffix)[..|base|] == base;
    base + Suffix
  }

  /** A string has only one first segment. */
  lemma FirstSegmentUnique(b: string, b': string, s: string, sep: char)
    requires IsFirstSegment(b, s, sep) && IsFirstSegment(b', s, sep)
    ensures b == b'
  {
  }

  /**
   The output path is `b + "_converted.md"` exactly when `b` is the part of
   the input before its first `.`.
   */
  lemma OutputPathIff(p: Path, b: string)
    ensures OutputPath(p) == b + Suffix <==> IsFirstSegment(b, p, Dot)
  {
    var base := OutputBase(p);
    if IsFirstSegment(b, p, Dot) {
      FirstSegmentUnique(b, base, p, Dot);
    }
    if OutputPath(p) == b + Suffix {
      assert b == (b + Suffix)[..|b|];
    }
  }

  /** Splitting and joining again gives back the original string. */
  lemma {:induction false} JoinSplit(s: string, sep: char)
    ensures Join(Split(s, sep), sep) == s
    decreases |s|
  {
    if |s| > 0 {
      var rest := Split(s[1..], sep);
      JoinSplit(s[1..], sep);
      if s[0] == sep {
        assert ([""] + rest)[1..] == rest;
      } else {
        var parts := [[s[0]] + rest[0]] + rest[1..];
        assert parts == Split(s, sep);
        if |rest| > 1 {
          assert parts[1..] == rest[1..];
          assert Join(rest, sep) == rest[0] + [sep] + Join(rest[1..], sep);
        }
        assert s == [s[0]] + s[1..];
      }
    }
  }

  /** A string without the separator is a single segment. */
  lemma {:induction false} SplitSeparatorFree(x: string, sep: char)
    requires sep !in x
    ensures Split(x, sep) == [x]
    decreases |x|
  {
    if |x| > 0 {
      SplitSeparatorFree(x[1..], sep);
      assert [x[0]] + x[1..] == x;
    }
  }

  /** A separator-free segment followed by the separator splits off first. */
  lemma {:induction false} SplitAfterSegment(x: string, y: string, sep: char)
    requires sep !in x
    ensures Split(x + [sep] + y, sep) == [x] + Split(y, sep)
    decreases |x|
  {
    var s := x + [sep] + y;
    if |x| == 0 {
      assert s[1..] == y;
    } else {
      assert s[1..] == x[1..] + [sep] + y;
      SplitAfterSegment(x[1..], y, sep);
      assert [x[0]] + x[1..] == x;
    }
  }

  /** Joining separator-free segments and splitting again gives them back. */
  lemma {:induction false} SplitJoin(parts: seq<string>, sep: char)
    requires |parts| >= 1
    requires forall i :: 0 <= i < |parts| ==> sep !in parts[i]
    ensures Split(Join(parts, sep), sep) == parts
    decreases |parts|
  {
    if |parts| == 1 {
      SplitSeparatorFree(parts[0], sep);
    } else {
      SplitJoin(parts[1..], sep);
      SplitAfterSegment(parts[0], Join(parts[1..], sep), sep);
      assert [parts[0]] + parts[1..] == parts;
    }
  }

  /** A path without a `.` is kept whole. */
  lemma NoDotKeepsWholePath(p: Path)
    requires Dot !in p
    ensures OutputPath(p) == p + Suffix
  {
    assert p[..|p|] == p;
    OutputPathIff(p, p);
  }

  /** Everything after the first `.` is dropped, however many dots follow. */
  lemma FirstDotCuts(base: string, rest: string)
    requires Dot !in base
    ensures OutputPath(base + [Dot] + rest) == base + Suffix
  {
    var p := base + [Dot] + rest;
    assert p[..|base|] == base;
    OutputPathIff(p, base);
  }

  /** A path that starts with `.` has an empty base. */
  lemma LeadingDotGivesEmptyBase(p: Path)
    requires |p| > 0 && p[0] == Dot
    ensures OutputBase(p) == ""
    ensures OutputPath(p) == Suffix
  {
    OutputPathIff(p, "");
    FirstSegmentUnique(OutputBase(p), "", p, Dot);
  }

  /**
   The output path string is never the input path string. Two different
   strings may still name the same file (`./_converted.md` gives
   `_converted.md`); that aliasing is not modelled.
   */
  lemma OutputPathDiffersFromInput(p: Path)
    ensures OutputPath(p) != p
  {
    var base := OutputBase(p);
    var out := OutputPath(p);
    OutputPathIff(p, base);
    if |base| == |p| {
      assert |out| > |p|;
    } else {
      assert p[|base|] == Dot;
      assert out[|base|] == Suffix[0] == '_';
    }
  }

  /** `notes.txt` is written to `notes_converted.md`. */
  lemma SingleExtensionExample(p: Path)
    requires p == "notes.txt"
    ensures OutputPath(p) == "notes_converted.md"
  {
    assert p == "notes" + [Dot] + "txt";
    FirstDotCuts("notes", "txt");
  }

  /** `archive.tar.gz` keeps only `archive`. */
  lemma MultiDotExample(p: Path)
    requires p == "archive.tar.gz"
    ensures OutputPath(p) == "archive_converted.md"
  {
    assert p == "archive" + [Dot] + "tar.gz";
    FirstDotCuts("archive", "tar.gz");
  }

  /** `README` has no dot and is kept whole. */
  lemma NoDotExample(p: Path)
    requires p == "README"
    ensures OutputPath(p) == "README_converted.md"
  {
    NoDotKeepsWholePath(p);
  }

  /** `.env` starts with a dot and leaves only the suffix. */
  lemma LeadingDotExample(p: Path)
    requires p == ".env"
    ensures OutputPath(p) == "_converted.md"
  {
    LeadingDotGivesEmptyBase(p);
  }
}
