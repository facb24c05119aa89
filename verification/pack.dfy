/**
 The writing half of the archiver: choosing the files under the root and
 serialising them, in traversal order, into one text archive. Traversal and
 reading are abstracted: the caller supplies what `root.rglob("*")` met,
 whether each is a regular file, and what reading it produced.
 */
module Pack {
  import opened Wrappers
  import opened Text
  import opened Header
  import opened Ignore

  /** The outcome of `p.read_text(encoding="utf-8", errors="replace")`: the text, or the exception's message. */
  datatype ReadResult = Read(text: string) | ReadFailed(reason: string)

  /** A file chosen for the archive: its root-relative POSIX path and what reading it produced. */
  datatype Entry = Entry(rel: string, read: ReadResult)

  /** The placeholder written instead of a file's text when reading it failed. */
  const ErrorOpen: string := "[Ошибка чтения файлов: "
  const ErrorClose: string := "]"

  /** What follows an entry's header line, before the two closing newlines. */
  function Payload(e: Entry): string {
    match e.read
    case Read(text) => text
    case ReadFailed(reason) => ErrorOpen + reason + ErrorClose
  }

  /** `f"===== {rel_path} =====\n"`. */
  function HeaderLine(rel: string): string {
    Render(rel) + "\n"
  }

  /** Everything one entry contributes to the archive. */
  function Chunk(e: Entry): string {
    HeaderLine(e.rel) + Payload(e) + "\n\n"
  }

  /** The archive text written for `entries`, one chunk per entry in list order. */
  function Serialise(entries: seq<Entry>): string {
    if entries == [] then [] else Chunk(entries[0]) + Serialise(entries[1..])
  }

  /** Serialisation distributes over concatenation of the entry list. */
  lemma {:induction false} SerialiseAppend(a: seq<Entry>, b: seq<Entry>)
    ensures Serialise(a + b) == Serialise(a) + Serialise(b)
  {
    if a == [] {
      assert a + b == b;
    } else {
      assert (a + b)[0] == a[0];
      assert (a + b)[1..] == a[1..] + b;
      SerialiseAppend(a[1..], b);
    }
  }

  /**
   Entry `i` contributes exactly its chunk, placed after the chunks of all
   earlier entries and before those of all later ones.
   */
  lemma {:induction false} SerialiseAt(entries: seq<Entry>, i: nat)
    requires i < |entries|
    ensures Serialise(entries) == Serialise(entries[..i]) + Chunk(entries[i]) + Serialise(entries[i + 1..])
  {
    var a, b, c := entries[..i], [entries[i]], entries[i + 1..];
    assert entries == (a + b) + c;
    SerialiseAppend(a + b, c);
    SerialiseAppend(a, b);
    assert b[1..] == [];
    assert Serialise(b) == Chunk(entries[i]);
  }

  /** The number of entries whose text was read: the `count` of the packing loop. */
  function SuccessCount(entries: seq<Entry>): (c: nat)
    ensures c <= |entries|
    ensures c == |entries| <==> forall e :: e in entries ==> e.read.Read?
    ensures c == 0 <==> forall e :: e in entries ==> e.read.ReadFailed?
  {
    if entries == [] then 0
    else
      var rest := SuccessCount(entries[1..]);
      assert forall e :: e in entries <==> e == entries[0] || e in entries[1..];
      (if entries[0].read.Read? then 1 else 0) + rest
  }

  /**
   The count is additive over the file list, so together with the one-file
   case it is exactly the number of successful reads, wherever they occur.
   */
  lemma {:induction false} SuccessCountAppend(a: seq<Entry>, b: seq<Entry>)
    ensures SuccessCount(a + b) == SuccessCount(a) + SuccessCount(b)
  {
    if a == [] {
      assert a + b == b;
    } else {
      assert (a + b)[0] == a[0];
      assert (a + b)[1..] == a[1..] + b;
      SuccessCountAppend(a[1..], b);
    }
  }

  /** One file counts one exactly when it was read. */
  lemma {:induction false} SuccessCountSingle(e: Entry)
    ensures SuccessCount([e]) == if e.read.Read? then 1 else 0
  {
    assert [e][1..] == [];
  }

  /** What packing leaves behind: nothing at all, or an archive and the success count. */
  datatype PackOutcome = NothingToPack | Written(archive: string, count: nat)

  /**
   The output stage of `pack_files`: with no files it returns before opening
   the output; otherwise the archive holds every entry's chunk and the count
   tallies the entries whose text was read.
   */
  function WriteArchive(entries: seq<Entry>): (r: PackOutcome)
    ensures r.NothingToPack? <==> entries == []
    ensures r.Written? ==> r.archive == Serialise(entries)
    ensures r.Written? ==> r.count <= |entries|
    ensures r.Written? ==> (r.count == |entries| <==> forall e :: e in entries ==> e.read.Read?)
    ensures r.Written? ==> r.count == SuccessCount(entries)
  {
    if entries == [] then NothingToPack else Written(Serialise(entries), SuccessCount(entries))
  }

  /** Something `root.rglob("*")` met: its path, whether it is a regular file, and what reading it yields. */
  datatype Candidate = Candidate(path: FilePath, isFile: bool, read: ReadResult)

  /** The exclusion decision of `pack_files` as written: `is_ignored`. */
  function AsWritten(output: FilePath, spec: Option<string -> bool>): FilePath -> bool {
    path => IsIgnored(path, output, spec)
  }

  /** The exclusion decision with the metadata directory excluded as a directory. */
  function Corrected(output: FilePath, spec: Option<string -> bool>): FilePath -> bool {
    path => IsIgnoredFixed(path, output, spec)
  }

  /** The filter of `pack_files`: regular files the exclusion decision lets through. */
  predicate Kept(c: Candidate, excluded: FilePath -> bool) {
    c.isFile && !excluded(c.path)
  }

  /** The files to pack, in traversal order. */
  function Select(cands: seq<Candidate>, excluded: FilePath -> bool): (r: seq<Candidate>)
    ensures forall c :: c in r <==> c in cands && Kept(c, excluded)
    ensures |r| <= |cands|
  {
    if cands == [] then []
    else
      var rest := Select(cands[1..], excluded);
      assert forall c :: c in cands <==> c == cands[0] || c in cands[1..];
      if Kept(cands[0], excluded) then [cands[0]] + rest else rest
  }

  /** Selection keeps the traversal order: it commutes with concatenation. */
  lemma {:induction false} SelectAppend(a: seq<Candidate>, b: seq<Candidate>, excluded: FilePath -> bool)
    ensures Select(a + b, excluded) == Select(a, excluded) + Select(b, excluded)
  {
    if a == [] {
      assert a + b == b;
    } else {
      assert (a + b)[0] == a[0];
      assert (a + b)[1..] == a[1..] + b;
      SelectAppend(a[1..], b, excluded);
    }
  }

  /** Every selected file as an archive entry under its root-relative POSIX path. */
  function ToEntries(sel: seq<Candidate>): (r: seq<Entry>)
    requires forall c :: c in sel ==> c.path.relative.Some?
    ensures |r| == |sel|
    ensures forall i :: 0 <= i < |sel| ==> r[i].rel == sel[i].path.relative.value && r[i].read == sel[i].read
  {
    if sel == [] then [] else [Entry(sel[0].path.relative.value, sel[0].read)] + ToEntries(sel[1..])
  }

  /** The entries packing writes, in traversal order. */
  function PackedEntries(cands: seq<Candidate>, excluded: FilePath -> bool): seq<Entry>
    requires forall c :: c in cands ==> c.path.relative.Some?
  {
    ToEntries(Select(cands, excluded))
  }

  /**
   `pack_files(output_path)` over what the traversal met, for a given
   exclusion decision. The caller's paths all lie under the root, as
   `rglob` guarantees.
   */
  function PackWith(cands: seq<Candidate>, excluded: FilePath -> bool): (r: PackOutcome)
    requires forall c :: c in cands ==> c.path.relative.Some?
    ensures r.NothingToPack? <==> forall c :: c in cands ==> !Kept(c, excluded)
    ensures r.Written? ==> r.count <= |cands|
    ensures r.Written? ==> r == WriteArchive(PackedEntries(cands, excluded))
  {
    var sel := Select(cands, excluded);
    assert sel != [] ==> sel[0] in sel;
    WriteArchive(ToEntries(sel))
  }

  /** `pack_files(output_path)` as written: nothing is packed exactly when every candidate is a non-file or `is_ignored`. */
  function PackFiles(cands: seq<Candidate>, output: FilePath, spec: Option<string -> bool>): (r: PackOutcome)
    requires forall c :: c in cands ==> c.path.relative.Some?
    ensures r.NothingToPack? <==> forall c :: c in cands ==> !c.isFile || IsIgnored(c.path, output, spec)
    ensures r.Written? ==> r.count <= |cands| && r.archive == Serialise(PackedEntries(cands, AsWritten(output, spec)))
    ensures r.Written? ==> r.count == SuccessCount(PackedEntries(cands, AsWritten(output, spec)))
  {
    PackWith(cands, AsWritten(output, spec))
  }

  /** Packing with the corrected decision: nothing is packed exactly when every candidate is a non-file or excluded by it. */
  function PackFilesFixed(cands: seq<Candidate>, output: FilePath, spec: Option<string -> bool>): (r: PackOutcome)
    requires forall c :: c in cands ==> c.path.relative.Some?
    ensures r.NothingToPack? <==> forall c :: c in cands ==> !c.isFile || IsIgnoredFixed(c.path, output, spec)
    ensures r.Written? ==> r.count <= |cands| && r.archive == Serialise(PackedEntries(cands, Corrected(output, spec)))
    ensures r.Written? ==> r.count == SuccessCount(PackedEntries(cands, Corrected(output, spec)))
  {
    PackWith(cands, Corrected(output, spec))
  }

  /**
   No excluded file gets a section: a file that is not a regular file or
   that the decision excludes has no entry, provided the traversal met no
   other file under the same path.
   */
  lemma {:induction false} ExcludedNeverPacked(cands: seq<Candidate>, excluded: FilePath -> bool, c: Candidate)
    requires forall c :: c in cands ==> c.path.relative.Some?
    requires c in cands && !Kept(c, excluded)
    requires forall d :: d in cands && d.path.relative == c.path.relative ==> d == c
    ensures forall e :: e in PackedEntries(cands, excluded) ==> e.rel != c.path.relative.value
  {
    var sel := Select(cands, excluded);
    var es := PackedEntries(cands, excluded);
    forall e | e in es
      ensures e.rel != c.path.relative.value
    {
      var i :| 0 <= i < |es| && es[i] == e;
      assert sel[i] in sel;
    }
  }

  /**
   As written, a regular file inside `.git/` that is neither the archive
   nor matched by `.gitignore` is packed under its path, with its contents.
   */
  lemma {:induction false} MetadataFilePackedAsWritten(c: Candidate, output: FilePath, spec: Option<string -> bool>, rest: string)
    requires c.isFile && c.path.relative == Some(MetadataDir + "/" + rest)
    requires c.path.name != MetadataDir && c.path.resolved != output.resolved
    requires spec.None? || !spec.value(MetadataDir + "/" + rest)
    ensures PackedEntries([c], AsWritten(output, spec)) == [Entry(MetadataDir + "/" + rest, c.read)]
    ensures PackFiles([c], output, spec).Written?
    ensures PackFilesFixed([c], output, spec).NothingToPack?
  {
    assert !IsIgnored(c.path, output, spec);
    assert Select([c], AsWritten(output, spec)) == [c] by {
      assert [c][1..] == [];
    }
    assert "" + MetadataDir + "/" + rest == MetadataDir + "/" + rest;
    MetadataContentsIgnored(c.path, output, spec, "", rest);
  }

  /** With the corrected decision, no packed path has a `.git` component. */
  lemma {:induction false} NoMetadataPackedFixed(cands: seq<Candidate>, output: FilePath, spec: Option<string -> bool>)
    requires forall c :: c in cands ==> c.path.relative.Some?
    ensures forall e :: e in PackedEntries(cands, Corrected(output, spec)) ==> MetadataDir !in Components(e.rel)
  {
    var sel := Select(cands, Corrected(output, spec));
    var es := PackedEntries(cands, Corrected(output, spec));
    forall e | e in es
      ensures MetadataDir !in Components(e.rel)
    {
      var i :| 0 <= i < |es| && es[i] == e;
      assert sel[i] in sel;
      assert !IsIgnoredFixed(sel[i].path, output, spec);
    }
  }
}
