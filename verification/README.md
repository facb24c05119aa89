# hxppy archive format, modelled in Dafny

hxppy packs every file of a project tree into a single text archive, and
unpacks such an archive back into files. The archive is a sequence of
sections. Each section has:

- a header line `===== <relative path> =====`;
- the file's text, or a bracketed error placeholder when reading it failed;
- two newlines.

This project models the four parts of `hxppy.py` that decide what the
archive holds and what unpacking rebuilds:

- **Header recognition.** The pattern `^===== (.+) =====$` is applied to each stripped line.
- **Exclusion.** `is_ignored` decides which files are left out of the archive.
- **Packing.** `pack_files` selects files and serialises them, counting the files it read.
- **Unpacking.** `unpack_files` folds over the archive's lines, and `_save_file` writes each file.

The model proves how these parts fit together. Packing and then unpacking
writes every packed file back over the existing tree, with the last entry
winning when paths repeat. The text written back is the entry's payload with its
trailing whitespace removed, because unpacking right-strips each section. The
payload is the file's text, or the error placeholder, which then replaces the
file. The
round trip is proved for files whose path is one line without a carriage
return, whose text has no carriage return, and none of whose lines reads as a
header.

Modules, one per file:

- `Wrappers` (`wrappers.dfy`): `Option`.
- `Text` (`text.dfy`): Python's strip operations and whitespace set, `readlines`, and universal-newline translation.
- `Header` (`header.dfy`): the header pattern and its rendering.
- `Ignore` (`ignore.dfy`): the exclusion decision, as written and corrected.
- `Pack` (`pack.dfy`): selection over any exclusion decision, serialisation and the packing count. `PackFiles` selects with the decision as written, `PackFilesFixed` with the corrected one.
- `Unpack` (`unpack.dfy`):
  - the parsing loop as a fold over classified lines;
  - a declarative reading of the archive into sections;
  - the proof that the two agree.
- `RoundTrip` (`roundtrip.dfy`): pack-then-unpack, including the single-file scenario of `test_hxppy.py`.

How the model abstracts the program:

- **Filesystem.** The tree unpacking writes is a `map<K, string>`. The function `locate: string -> K` stands for `root / name`.
- **Missing archive.** It is the `None` input.
- **Paths during packing.** They are seen only through three observations, `FilePath(name, resolved, relative)`.
- **`.gitignore`.** The matcher is an opaque predicate on root-relative POSIX paths, absent when no matcher could be built.
- **File contents.** `ReadResult` is either the decoded text or a failure with its message.

## Model

| member | source | states |
|---|---|---|
| Text.RStrip | hxppy.py:146 | `rstrip()` returns a prefix of its input. Everything it drops is whitespace, and the result does not end in whitespace. |
| Text.LStrip | hxppy.py:122 | The left half of `strip()` returns a suffix of its input. Everything it drops is whitespace, and the result does not start with whitespace. |
| Text.Strip | hxppy.py:122 | `strip()` is the left strip of the right strip. Its effect is stated by `Text.StripEnds` and `Text.StripFrame`. |
| Text.StripEnds | hxppy.py:122 | A stripped line starts and ends with non-whitespace, or is empty. |
| Text.RStripSpaceSuffix | hxppy.py:146 | Whitespace appended after a text does not change its `rstrip()`. |
| Text.LStripSpacePrefix | hxppy.py:122 | Whitespace prepended before a text does not change its left-strip. |
| Text.StripFrame | hxppy.py:122 | Stripping a text padded on both sides with whitespace returns exactly the text, provided the text has non-whitespace ends. |
| Text.ConcatAppend | hxppy.py:146 | `"".join` distributes over concatenation of the list of lines. |
| Text.LineLength | hxppy.py:119 | The first line of a text ends at its first `'\n'` (included) or at the text's end. |
| Text.Lines | hxppy.py:119 | `readlines()` loses nothing: joining the lines gives back the text. |
| Text.LinesShape | hxppy.py:119 | The lines are all non-empty. Every line but the last ends in `'\n'`, and no line has any other `'\n'`. |
| Text.LinesAppendHead | hxppy.py:119 | Appending text after a terminated first line leaves that line unchanged. |
| Text.LinesAppend | hxppy.py:119 | Reading lines splits at line boundaries: the lines of `x + y` are those of `x` followed by those of `y` when `x` ends in `'\n'`. |
| Text.LinesSingle | hxppy.py:119 | A text with one newline, at its end, is a single line. |
| Text.Universal | hxppy.py:118 | Opening in text mode leaves no carriage return, and leaves a text without one unchanged. |
| Header.Fields | hxppy.py:11 | The pattern without its `$` allowance: `"===== "`, a non-empty run of non-newline characters, `" ====="`, spanning the whole text. `Header.MatchSound` and `Header.MatchRender` state what it accepts. |
| Header.Match | hxppy.py:11 | `re.match` with the anchored pattern: `$` may also match just before a final `'\n'`. `Header.MatchSound` and `Header.MatchRender` state both directions. |
| Header.HeaderName | hxppy.py:122-123 | The name announced by a raw line, if any: the pattern applied to the stripped line. `Header.HeaderNameSound` and `Header.HeaderNameComplete` state both directions. |
| Header.MatchSound | hxppy.py:11 | Whatever the pattern matches is `"===== " + name + " ====="`, possibly with one trailing newline, and the captured name is non-empty and single-line. |
| Header.MatchRender | hxppy.py:11 | Every rendered header with a non-empty single-line name is matched, with or without a final newline, and the name is captured exactly. |
| Header.HeaderNameSound | hxppy.py:122-128 | A header line, once stripped, is exactly the rendering of the name that is extracted from it. |
| Header.HeaderNameComplete | hxppy.py:122-128 | A rendered header surrounded by any whitespace is recognised, and its name is extracted. |
| Header.ShortLineIsNotHeader | hxppy.py:11 | No line shorter than 13 characters after stripping is a header. |
| Header.UnmarkedLineIsNotHeader | hxppy.py:122-123 | A line whose stripped text does not begin with `=` is not a header. |
| Header.EmptyNameIsNotHeader | hxppy.py:11 | `=====  =====` (empty name) is not a header, however it is padded. |
| Ignore.IsIgnored | hxppy.py:39-48 | Ignored exactly when any one of these holds: the final component is `.git`; the path resolves to the archive; the matcher exists, the path lies under the root and the matcher accepts its relative form. |
| Ignore.MatcherConsultedOnRelativePath | hxppy.py:42-48 | The matcher is consulted only on the root-relative form: two matchers that agree on it give the same decision. Without a matcher, a path is ignored exactly when its name is `.git` or it resolves to the archive. |
| Ignore.Components | hxppy.py:40 | The `/`-separated components of a relative path: at least one, none containing `/`, and joined by `/` they give the path back. |
| Ignore.MetadataContentsIgnored | hxppy.py:40 | The corrected decision ignores every path of the form `pre + ".git/" + rest`, where `pre` is empty or ends in `/`: everything inside any `.git` directory. |
| Ignore.MetadataComponent | hxppy.py:40 | A path `pre + ".git/" + rest`, where `pre` is empty or ends in `/`, has `.git` among its components. |
| Ignore.ComponentsSuffix | hxppy.py:40 | Prefixing a directory path ending in `/` adds components in front and keeps the components of the rest as a suffix. |
| Ignore.FixedExtendsOriginal | hxppy.py:39-48 | The corrected decision ignores everything the original ignores. Anything it ignores beyond that has `.git` among its relative path's components. |
| Ignore.FixedAgreesOutsideMetadata | hxppy.py:39-48 | Outside `.git/` the corrected and original decisions coincide. |
| Ignore.MetadataContentsPackedAsWritten | hxppy.py:40 | As written, `.git/HEAD` is not ignored. The corrected decision ignores it. |
| Pack.Payload | hxppy.py:86-91 | What is written after an entry's header line: the text read, or, when the read failed, the bracketed error placeholder the code writes around the exception's message. |
| Pack.HeaderLine | hxppy.py:85 | The header line written for a path: the rendered header and a newline. `RoundTrip.HeaderLineAnnounces` states that it is read back. |
| Pack.Chunk | hxppy.py:85-91 | One entry's contribution: header line, payload, then two newlines. |
| Pack.Serialise | hxppy.py:83-91 | The archive text: the entries' chunks in list order. `Pack.SerialiseAppend` and `Pack.SerialiseAt` state where each chunk sits. |
| Pack.SerialiseAppend | hxppy.py:83-91 | The archive of a concatenated file list is the concatenation of the two archives. |
| Pack.SerialiseAt | hxppy.py:83-91 | Each entry's chunk (header line, payload, two newlines) sits after the chunks of all earlier entries and before those of all later ones. |
| Pack.SuccessCount | hxppy.py:86-91 | The count never exceeds the number of files. It equals that number exactly when every read succeeded, and is zero exactly when every read failed. |
| Pack.SuccessCountAppend | hxppy.py:86-91 | The count of a concatenated list is the sum of the two counts. |
| Pack.SuccessCountSingle | hxppy.py:86-91 | One entry counts one exactly when its read succeeded. With `Pack.SuccessCountAppend`, the count is the number of successful reads. |
| Pack.WriteArchive | hxppy.py:66-91 | Nothing is written for an empty list. Otherwise the archive holds every entry's chunk in order, and the count is the number of entries whose text was read, so it reaches the number of files exactly when no read failed. |
| Pack.Select | hxppy.py:56-58 | For a given exclusion decision, a candidate is selected exactly when it is a regular file the decision does not exclude, and no candidate is added. |
| Pack.SelectAppend | hxppy.py:56-58 | Selection keeps traversal order: it commutes with concatenation. |
| Pack.ToEntries | hxppy.py:83-84 | Every selected file becomes one entry, in order, under its root-relative path with its read result. |
| Pack.PackWith | hxppy.py:51-91 | For a given exclusion decision: nothing is packed exactly when no candidate is kept. The count is bounded by the candidates, and the archive is the one written for the selected entries. |
| Pack.PackFiles | hxppy.py:51-91 | With `is_ignored` as written: nothing is packed exactly when every candidate is a non-file or ignored. The archive is the one written for the selected entries. The count is the number of selected entries whose text was read, so it is bounded by the candidates. |
| Pack.PackFilesFixed | hxppy.py:51-91 | The same, with the corrected exclusion decision: nothing is packed exactly when every candidate is a non-file or excluded by it, and the count is the number of selected entries whose text was read. |
| Pack.ExcludedNeverPacked | hxppy.py:56-58 | For any exclusion decision, no excluded file gets a section, provided no other candidate has the same relative path. |
| Pack.MetadataFilePackedAsWritten | hxppy.py:40-57 | A file inside the top-level `.git` directory that neither the matcher nor the archive check excludes is packed as written, under `.git/<rest>`. With the corrected decision, a list holding only that file packs nothing. |
| Pack.NoMetadataPackedFixed | hxppy.py:56-58 | With the corrected decision, no packed entry has `.git` among its path's components. |
| Unpack.RawsClassifyAll | hxppy.py:121-122 | Classifying lines keeps their text. |
| Unpack.ClassifyAllAppend | hxppy.py:121-122 | Lines are classified one at a time, independently of their neighbours. |
| Unpack.ClassifyNoHeader | hxppy.py:122-123 | Lines the recogniser rejects are classified as body lines. |
| Unpack.TakeBody | hxppy.py:131-133 | A section body is the longest prefix of header-free lines. The line after it, if any, is a header. |
| Unpack.Sections | hxppy.py:121-137 | The archive holds exactly one section per header line. |
| Unpack.TakeBodySkip | hxppy.py:131-133 | Header-free lines at the front all belong to the body. |
| Unpack.SectionsSkip | hxppy.py:131-133 | Header-free lines before the first header belong to no section. |
| Unpack.SectionOpens | hxppy.py:123-133 | A header opens a section holding exactly the header-free lines that follow it. |
| Unpack.SectionsAfterPreamble | hxppy.py:121-133 | Lines before a header are discarded, and the header's section holds the lines up to the next header. |
| Unpack.Overwrite | hxppy.py:147 | Writing a list of files touches exactly the existing paths plus every written path. |
| Unpack.OverwriteUntouched | hxppy.py:147 | A path no write targets keeps its presence and content. |
| Unpack.OverwriteLastWins | hxppy.py:147 | A path holds the content of the last write that targets it. |
| Unpack.OverwriteAppend | hxppy.py:147 | Writing two lists in turn is the same as writing their concatenation. |
| Unpack.Content | hxppy.py:146 | The text `_save_file` writes: the joined buffer, right-stripped. `RoundTrip.BodyContent` states what it is for a packed entry. |
| Unpack.SectionWrites | hxppy.py:144-147 | Section `i` is written to its located path with the right-stripped join of its body. |
| Unpack.Save | hxppy.py:124-126 | A save adds the open path to the tree with the buffer's content, leaves every other path alone and counts one. |
| Unpack.Step | hxppy.py:121-133 | One loop iteration: a header saves the open file and opens the new one, and a body line joins the open buffer or is dropped. `Unpack.HeaderStep` and `Unpack.BodyStep` state its effect on the predicted tree. |
| Unpack.Run | hxppy.py:121-133 | The loop over all lines, one step per line. `Unpack.RunMatchesSections` relates it to the declarative reading. |
| Unpack.Finish | hxppy.py:135-137 | The save after the loop, made only when a file is open. |
| Unpack.LeadingLinesDiscarded | hxppy.py:131-133 | Before any header, body lines change nothing. |
| Unpack.RunMatchesSections | hxppy.py:121-137 | From any state, the loop and final save leave the tree the declarative reading predicts: the open section completed by the lines that follow, then every later section in order. |
| Unpack.HeaderStep | hxppy.py:123-130 | A header line saves the open section and opens an empty one, preserving the predicted final tree. |
| Unpack.BodyStep | hxppy.py:131-133 | A body line joins the open section, or is dropped before the first header, preserving the predicted final tree. |
| Unpack.RunCountsSections | hxppy.py:124-137 | The loop counts one save per section, plus one for a section already open. |
| Unpack.ArchiveLines | hxppy.py:118-122 | The archive read in text mode, split by `readlines()` and classified by the header recogniser. |
| Unpack.UnpackFiles | hxppy.py:102-137 | A missing archive writes nothing. Otherwise every section is written in archive order over the initial tree, and one file is counted per header line. |
| Unpack.LastSectionWins | hxppy.py:121-137 | With duplicate paths, a path holds the content of the last section that targets it. |
| Unpack.UntargetedPathUnchanged | hxppy.py:144-147 | A path no section targets keeps its presence and content. |
| RoundTrip.NoCarriageReturn | hxppy.py:83-91 | The archive of restorable entries contains no carriage return, so reading it back in text mode does not change it. |
| RoundTrip.SerialisedLines | hxppy.py:83-91 | Read back as lines, the archive is entry by entry: the header line, the payload's lines, then a blank line. |
| RoundTrip.HeaderLineAnnounces | hxppy.py:85 | The header line written for a path is recognised, and it yields that path. |
| RoundTrip.BodyHasNoHeader | hxppy.py:88 | No line of a restorable entry's body, separator included, is a header. |
| RoundTrip.BlankLineIsNotHeader | hxppy.py:88 | The blank separator line is not a header. |
| RoundTrip.SpaceLineIsNotHeader | hxppy.py:122 | A whitespace-only line is not a header. |
| RoundTrip.ArchiveSections | hxppy.py:121-133 | Reading an archive finds one section per entry, with the entry's path and body lines, and nothing before the first section. This holds for any recogniser that reads each entry back. |
| RoundTrip.ArchiveSectionsHead | hxppy.py:121-133 | The first entry opens the first section, and nothing precedes it. |
| RoundTrip.ClassifyEntry | hxppy.py:121-122 | An archive's classified lines are the first entry's header, its body, then the rest. |
| RoundTrip.BodyContent | hxppy.py:146 | The right-stripped join of a section's body is the entry's payload without its trailing whitespace. |
| RoundTrip.PackUnpackRoundTrip | hxppy.py:83-137 | Unpacking a written archive of restorable entries writes each entry's payload, right-stripped, to its path in list order over the existing tree, and counts every entry. |
| RoundTrip.EntriesReadBack | hxppy.py:85-88 | The header recogniser reads every restorable entry back. |
| RoundTrip.WritesAgree | hxppy.py:144-147 | Saving the expected sections performs exactly the entries' writes. |
| RoundTrip.RestoredContent | hxppy.py:83-147 | With every read successful and every entry restorable, each path gets back its file's text without trailing whitespace, unless a later entry targets the same path. |
| RoundTrip.PackedArchiveRestores | hxppy.py:66-137 | Packing then unpacking restorable entries writes every entry's right-stripped payload. The unpack count is at least the pack count, and the two are equal exactly when no read failed. |
| RoundTrip.PackThenUnpack | hxppy.py:51-137 | For any exclusion decision, unpacking what packing wrote writes every packed file's right-stripped payload over the existing tree, when every packed entry is restorable. |
| RoundTrip.PlaceholderOneLine | hxppy.py:91 | The placeholder written for a one-line error message is a single line that opens with `[` and closes with `]`. |
| RoundTrip.FailedReadWritesPlaceholder | hxppy.py:90-147 | Unpacking the archive of a file whose read failed, with a one-line reason, overwrites that file's path with the error placeholder and counts one file. |
| RoundTrip.HelloChunk | test_hxppy.py:9-10 | The example file's chunk is `===== hello.py =====\nprint('hello')\n\n`. |
| RoundTrip.HelloPacked | test_hxppy.py:21-23 | Packing the example writes that one section and counts one file. |
| RoundTrip.OneLinerRestorable | hxppy.py:83-146 | A one-line payload without whitespace at either end, and not starting with `=`, is restorable and is not changed by the right strip. |
| RoundTrip.HelloRestorable | test_hxppy.py:10 | The example file survives the archive unchanged. |
| RoundTrip.HelloUnpacked | test_hxppy.py:25-31 | Unpacking the example's archive into an empty tree recreates `hello.py` with exactly `print('hello')`, counting one file. |

## Left out

- Filesystem I/O is a parameter. This covers the traversal, file reads, `exists()`, `mkdir` and the writes. The candidates and their read results are inputs to `Pack.PackFiles`, and the tree is a map. Failures of `mkdir` or `write_text` during unpacking are not modelled.
- Path arithmetic is abstract. This covers `root / name`, `resolve()`, `relative_to` and `as_posix`. The function `locate` and the `FilePath` observations stand for them, so two names that normalise to the same file are the same key only if `locate` says so.
- `.gitignore` semantics (`load_gitignore_spec`, gitwildmatch) are left out. The matcher is an opaque predicate, `None` when the file is missing or unreadable.
- Text decoding is not modelled: UTF-8 with `errors="replace"`, the archive opened as UTF-8, and decode errors on unpack. Texts are sequences of code points as decoded. The text a successful read returns is taken as given, already newline-translated.
- Newline translation on write is not modelled. The archive is assumed to be written with `'\n'` line ends, as on POSIX.
- The order of `rglob` is whatever order the candidate list has.
- The console output is left out. This covers the `rich` panels, the progress bar and its `rel_path[:30]` label, the messages, and the `argparse`/`main` entry point. It affects no file.
- RoundTrip.PackUnpackRoundTrip: holds only for restorable entries. Other entries fail to round-trip because of how the format is designed, not because of a defect in the code. Such entries have:
  - an empty path, or a path with a newline or a carriage return;
  - a payload with a carriage return, or a line that reads as a header.
- RoundTrip.RestoredContent: restorable entries only, as for `RoundTrip.PackUnpackRoundTrip`. Trailing whitespace, such as a file's final newline, is not restored.
- RoundTrip.PackedArchiveRestores: restorable entries only, as for `RoundTrip.PackUnpackRoundTrip`.
- RoundTrip.PackThenUnpack: requires every packed entry to be restorable, as for `RoundTrip.PackUnpackRoundTrip`.

## Findings

The test `path.name == ".git"` at hxppy.py:40 evidently aims to exclude the
version-control metadata directory. It only compares a file's final path
component with `.git`, and the traversal asks it only about regular files, so
the files inside `.git/` are packed. `Ignore.IsIgnored` and `Pack.PackFiles` follow the code.
`Ignore.IsIgnoredFixed` and `Pack.PackFilesFixed` are the corrected decision
and packing.

| source | as written | input that shows it | evidently intended | confidence | as-written member | corrected member |
|---|---|---|---|---|---|---|
| hxppy.py:40 | `is_ignored` excludes a path only when its final component is `.git`, and it is only asked about regular files | A repository containing `.git/HEAD` (relative path `.git/HEAD`, final component `HEAD`) with no `.gitignore`: the file is packed | Everything inside the version-control metadata directory is excluded | not executed; high | Pack.MetadataFilePackedAsWritten | Ignore.MetadataContentsIgnored |
