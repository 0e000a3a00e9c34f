/**
 The file system as the file entry point sees it: a map from paths to file
 contents, plus the two ways creating and writing the output can fail. A path
 in `locked` cannot be created (a missing directory, a permission refused);
 `writeLimit` is how many characters a single write can place before the
 device reports an error (a full disk).
 */
module FileSystem {
  import opened Outcomes
  import opened Paths

  /** What a file holds: text, or bytes that are not valid UTF-8. */
  datatype Content = Text(text: string) | Undecodable

  datatype Disk = Disk(files: map<Path, Content>, locked: set<Path>, writeLimit: nat)

  /** How a create-and-write of one file ended. */
  datatype WriteStatus = Written | CreateFailed | WriteFailed

  datatype WriteRun = WriteRun(status: WriteStatus, after: Disk)

  /** `a` and `b` hold the same files at every path other than `p`. */
  ghost predicate AgreeExcept(a: map<Path, Content>, b: map<Path, Content>, p: Path)
  {
    forall q :: q != p ==> (q in a <==> q in b) && (q in a ==> a[q] == b[q])
  }

  /**
   Reads the whole file at `p` as text. Fails when there is no file at `p`
   or its bytes are not valid text.
   */
  function ReadToString(d: Disk, p: Path): (r: Maybe<string>)
    ensures r.Just? <==> p in d.files && d.files[p].Text?
    ensures r.Just? ==> d.files[p] == Text(r.value)
  {
    if p in d.files && d.files[p].Text? then Just(d.files[p].text) else Nothing
  }

  /**
   Creates (or truncates) the file at `p` and writes all of `text` into it.
   If creation fails nothing changes; if the write fails the file is left
   holding the part of `text` that was written.
   */
  function CreateAndWrite(d: Disk, p: Path, text: string): (r: WriteRun)
    ensures r.after.locked == d.locked && r.after.writeLimit == d.writeLimit
    ensures r.status == CreateFailed <==> p in d.locked
    ensures r.status == CreateFailed ==> r.after == d
    ensures r.status == Written <==> p !in d.locked && |text| <= d.writeLimit
    ensures r.status == Written ==> r.after.files == d.files[p := Text(text)]
    ensures r.status == WriteFailed ==>
              p in r.after.files && r.after.files[p].Text? &&
              r.after.files[p].text < text
    ensures AgreeExcept(d.files, r.after.files, p)
  {
    if p in d.locked then WriteRun(CreateFailed, d)
    else if |text| <= d.writeLimit then
      WriteRun(Written, d.(files := d.files[p := Text(text)]))
    else
      WriteRun(WriteFailed, d.(files := d.files[p := Text(text[..d.writeLimit])]))
  }

  /** What a completed write put in a file is what reading it gives back. */
  lemma ReadAfterWrite(d: Disk, p: Path, text: string)
    requires CreateAndWrite(d, p, text).status == Written
    ensures ReadToString(CreateAndWrite(d, p, text).after, p) == Just(text)
  {
  }

  /** Writing one file does not change what any other file reads as. */
  lemma WriteKeepsOtherReads(d: Disk, p: Path, text: string, q: Path)
    requires q != p
    ensures ReadToString(CreateAndWrite(d, p, text).after, q) == ReadToString(d, q)
  {
  }

  /** Writing the same text to a file that already holds it changes nothing. */
  lemma RewriteIsStable(d: Disk, p: Path, text: string)
    requires ReadToString(d, p) == Just(text)
    requires CreateAndWrite(d, p, text).status == Written
    ensures CreateAndWrite(d, p, text).after == d
  {
  }
}
