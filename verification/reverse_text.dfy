/**
 The reversing converter of the documentation example and the test suite:
 it returns the characters of its input in reverse order.
 */
module ReverseText {
  import opened Outcomes
  import opened Paths
  import opened FileSystem
  import opened TextConverter

  /** The characters of `s`, last first. */
  function Reverse(s: string): (r: string)
    ensures |r| == |s|
    ensures forall i :: 0 <= i < |s| ==> r[i] == s[|s| - 1 - i]
  {
    if |s| == 0 then "" else Reverse(s[1..]) + [s[0]]
  }

  /** Reversing twice gives back the input. */
  lemma ReverseInvolution(s: string)
    ensures Reverse(Reverse(s)) == s
  {
    assert forall i :: 0 <= i < |s| ==> Reverse(Reverse(s))[i] == s[i];
  }

  /** Any string whose characters mirror those of `s` is its reverse. */
  lemma ReverseUnique(s: string, t: string)
    requires |t| == |s|
    requires forall i :: 0 <= i < |s| ==> t[i] == s[|s| - 1 - i]
    ensures Reverse(s) == t
  {
  }

  /** The worked example: `Hello World!` becomes `!dlroW olleH`. */
  lemma HelloWorldExample(text: string, expected: string)
    requires text == "Hello World!" && expected == "!dlroW olleH"
    ensures FromText(Reverse, text) == expected
  {
    ReverseUnique(text, expected);
  }

  /** A file run with the reversing converter, on a disk with room to write. */
  lemma ReverseFileExample(d: Disk, path: Path, input: string, expected: string)
    requires path == "notes.txt" && input == "abc" && expected == "cba"
    requires d.files == map[path := Text(input)]
    requires d.locked == {} && d.writeLimit >= 3
    ensures FromFile(Reverse, d, path).result == Ok(expected)
    ensures ReadToString(FromFile(Reverse, d, path).after, "notes_converted.md")
              == Just(expected)
  {
    SingleExtensionExample(path);
    ReverseUnique(input, expected);
  }
}
