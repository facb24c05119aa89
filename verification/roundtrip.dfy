/**
 Packing followed by unpacking: the archive text the writer produces is read
 back by the parser into one section per entry, restoring every entry's
 text under its path, the last entry winning when paths repeat.
 */
module RoundTrip {
  import opened Wrappers
  import opened Text
  import opened Header
  import opened Ignore
  import opened Pack
  import opened Unpack

  /**
   An entry the archive format can carry: a non-empty path on one line,
   and a payload without carriage returns none of whose lines reads as a
   header. Trailing whitespace is allowed; unpacking drops it.
   */
  predicate Restorable(e: Entry) {
    && |e.rel| >= 1 && '\n' !in e.rel && '\r' !in e.rel
    && '\r' !in Payload(e)
    && forall l :: l in Lines(Payload(e) + "\n") ==> HeaderName(l).None?
  }

  /** The text unpacking leaves for an entry: its payload without trailing whitespace. */
  function Restored(e: Entry): string {
    RStrip(Payload(e))
  }

  /** The writes that restoring `entries` one after the other performs. */
  function EntryWrites<K>(entries: seq<Entry>, locate: string -> K): (ws: seq<(K, string)>)
    ensures |ws| == |entries|
    ensures forall i :: 0 <= i < |ws| ==> ws[i] == (locate(entries[i].rel), Restored(entries[i]))
  {
    if entries == [] then []
    else [(locate(entries[0].rel), Restored(entries[0]))] + EntryWrites(entries[1..], locate)
  }

  /** The raw lines of an entry's body as the reader sees them. */
  function BodyRaws(e: Entry): seq<string> {
    Lines(Payload(e) + "\n") + ["\n"]
  }

  /** The raw lines of an archive, entry by entry. */
  function ArchiveRaws(entries: seq<Entry>): seq<string> {
    if entries == [] then [] else [HeaderLine(entries[0].rel)] + BodyRaws(entries[0]) + ArchiveRaws(entries[1..])
  }

  /** The sections the reader is expected to find, one per entry. */
  function EntrySections(entries: seq<Entry>): (ss: seq<Section>)
    ensures |ss| == |entries|
    ensures forall i :: 0 <= i < |ss| ==> ss[i] == Section(entries[i].rel, BodyRaws(entries[i]))
  {
    if entries == [] then [] else [Section(entries[0].rel, BodyRaws(entries[0]))] + EntrySections(entries[1..])
  }

  lemma {:induction false} NoCarriageReturn(entries: seq<Entry>)
    requires forall e :: e in entries ==> Restorable(e)
    ensures '\r' !in Serialise(entries)
  {
    if entries != [] {
      var e := entries[0];
      assert e in entries;
      assert '\r' !in Open && '\r' !in Close;
      assert '\r' !in Chunk(e);
      NoCarriageReturn(entries[1..]);
    }
  }

  /** The archive text splits into lines entry by entry. */
  lemma {:induction false} SerialisedLines(entries: seq<Entry>)
    requires forall e :: e in entries ==> Restorable(e)
    ensures Lines(Serialise(entries)) == ArchiveRaws(entries)
  {
    if entries != [] {
      var e := entries[0];
      assert e in entries;
      var h, b := HeaderLine(e.rel), Payload(e) + "\n";
      assert Chunk(e) == h + (b + "\n");
      assert '\n' !in Render(e.rel);
      LinesSingle(Render(e.rel));
      LinesSingle("");
      assert "" + "\n" == "\n";
      LinesAppend(b, "\n");
      LinesAppend(h, b + "\n");
      LinesAppend(Chunk(e), Serialise(entries[1..]));
      SerialisedLines(entries[1..]);
    }
  }

  /** An entry's header line announces exactly its path. */
  lemma {:induction false} HeaderLineAnnounces(rel: string)
    requires |rel| >= 1 && '\n' !in rel
    ensures HeaderName(HeaderLine(rel)) == Some(rel)
  {
    assert HeaderLine(rel) == "" + Render(rel) + "\n";
    assert AllSpace("\n");
    HeaderNameComplete("", rel, "\n");
  }

  /** No line of a restorable entry's body reads as a header. */
  lemma {:induction false} BodyHasNoHeader(e: Entry)
    requires Restorable(e)
    ensures forall l :: l in BodyRaws(e) ==> HeaderName(l).None?
  {
    var xs := Lines(Payload(e) + "\n");
    assert forall l :: l in xs ==> HeaderName(l).None?;
    BlankLineIsNotHeader();
  }

  /** The separator line is not a header. */
  lemma {:induction false} BlankLineIsNotHeader()
    ensures HeaderName("\n") == None
  {
    assert AllSpace("\n");
    SpaceLineIsNotHeader("\n");
  }

  /** A line of nothing but whitespace is not a header. */
  lemma {:induction false} SpaceLineIsNotHeader(w: string)
    requires AllSpace(w)
    ensures HeaderName(w) == None
  {
    StripFrame(w, "", "");
    assert w + "" + "" == w;
    UnmarkedLineIsNotHeader(w);
  }

  /** What the reader needs of an entry: its header names its path, and no body line is a header. */
  predicate ReadsBack(hn: string -> Option<string>, e: Entry) {
    && hn(HeaderLine(e.rel)) == Some(e.rel)
    && forall l :: l in BodyRaws(e) ==> hn(l).None?
  }

  /**
   Reading an archive finds one section per entry, each with the entry's
   path and body, whenever the recogniser reads every entry back.
   */
  lemma {:induction false} ArchiveSections(hn: string -> Option<string>, entries: seq<Entry>)
    requires forall e :: e in entries ==> ReadsBack(hn, e)
    ensures Sections(ClassifyAll(hn, ArchiveRaws(entries))) == EntrySections(entries)
    ensures TakeBody(ClassifyAll(hn, ArchiveRaws(entries))) == []
  {
    if entries != [] {
      assert entries[0] in entries;
      assert forall d :: d in entries[1..] ==> d in entries;
      ArchiveSections(hn, entries[1..]);
      ArchiveSectionsHead(hn, entries);
    }
  }

  /** The first entry of an archive opens its first section, and nothing precedes it. */
  lemma {:induction false} ArchiveSectionsHead(hn: string -> Option<string>, entries: seq<Entry>)
    requires entries != [] && ReadsBack(hn, entries[0])
    requires TakeBody(ClassifyAll(hn, ArchiveRaws(entries[1..]))) == []
    ensures Sections(ClassifyAll(hn, ArchiveRaws(entries)))
            == [Section(entries[0].rel, BodyRaws(entries[0]))] + Sections(ClassifyAll(hn, ArchiveRaws(entries[1..])))
    ensures TakeBody(ClassifyAll(hn, ArchiveRaws(entries))) == []
  {
    var e := entries[0];
    var hd := Line(HeaderLine(e.rel), hn(HeaderLine(e.rel)));
    var cb := ClassifyAll(hn, BodyRaws(e));
    var cs := ClassifyAll(hn, ArchiveRaws(entries[1..]));
    ClassifyEntry(hn, entries);
    ClassifyNoHeader(hn, BodyRaws(e));
    RawsClassifyAll(hn, BodyRaws(e));
    SectionOpens(hd, cb, cs);
  }

  /** Classifying an archive's lines: the first entry's header, its body, then the rest. */
  lemma {:induction false} ClassifyEntry(hn: string -> Option<string>, entries: seq<Entry>)
    requires entries != []
    ensures ClassifyAll(hn, ArchiveRaws(entries))
            == [Line(HeaderLine(entries[0].rel), hn(HeaderLine(entries[0].rel)))]
               + (ClassifyAll(hn, BodyRaws(entries[0])) + ClassifyAll(hn, ArchiveRaws(entries[1..])))
  {
    var h, b, r := HeaderLine(entries[0].rel), BodyRaws(entries[0]), ArchiveRaws(entries[1..]);
    assert ArchiveRaws(entries) == [h] + (b + r);
    ClassifyAllAppend(hn, [h], b + r);
    ClassifyAllAppend(hn, b, r);
    assert ClassifyAll(hn, [h]) == [Line(h, hn(h))];
  }

  /**
   The text saved for an entry's section is the entry's payload with its
   trailing whitespace removed: the two closing newlines add nothing.
   */
  lemma {:induction false} BodyContent(e: Entry)
    ensures Content(BodyRaws(e)) == Restored(e)
  {
    ConcatAppend(Lines(Payload(e) + "\n"), ["\n"]);
    assert Concat(["\n"]) == "\n";
    assert Concat(BodyRaws(e)) == Payload(e) + "\n\n";
    assert AllSpace("\n\n");
    RStripSpaceSuffix(Payload(e), "\n\n");
  }

  /**
   Unpacking the archive written for `entries` writes every entry's payload,
   right-stripped, to its path in list order over the existing tree, and counts every
   entry, failed reads included.
   */
  lemma {:induction false} PackUnpackRoundTrip<K>(entries: seq<Entry>, locate: string -> K, fs: map<K, string>)
    requires forall e :: e in entries ==> Restorable(e)
    ensures UnpackFiles(Some(Serialise(entries)), locate, fs)
            == Unpacked(Overwrite(fs, EntryWrites(entries, locate)), |entries|)
  {
    var text := Serialise(entries);
    NoCarriageReturn(entries);
    SerialisedLines(entries);
    assert ArchiveLines(text) == ClassifyAll(HeaderName, ArchiveRaws(entries));
    EntriesReadBack(entries);
    ArchiveSections(HeaderName, entries);
    WritesAgree(entries, locate);
  }

  /** The header recogniser reads every restorable entry back. */
  lemma {:induction false} EntriesReadBack(entries: seq<Entry>)
    requires forall e :: e in entries ==> Restorable(e)
    ensures forall e :: e in entries ==> ReadsBack(HeaderName, e)
  {
    forall e | e in entries
      ensures ReadsBack(HeaderName, e)
    {
      HeaderLineAnnounces(e.rel);
      BodyHasNoHeader(e);
    }
  }

  /** Saving the expected sections performs exactly the entries' writes. */
  lemma {:induction false} WritesAgree<K>(entries: seq<Entry>, locate: string -> K)
    requires forall e :: e in entries ==> Restorable(e)
    ensures SectionWrites(EntrySections(entries), locate) == EntryWrites(entries, locate)
  {
    var ws, ws' := SectionWrites(EntrySections(entries), locate), EntryWrites(entries, locate);
    forall i | 0 <= i < |ws|
      ensures ws[i] == ws'[i]
    {
      assert entries[i] in entries;
      BodyContent(entries[i]);
    }
  }

  /**
   With every read successful, each path holds its file's original text
   without trailing whitespace, the last entry winning when two entries
   locate to the same path.
   */
  lemma {:induction false} RestoredContent<K>(entries: seq<Entry>, locate: string -> K, fs: map<K, string>, i: nat)
    requires forall e :: e in entries ==> Restorable(e) && e.read.Read?
    requires i < |entries|
    requires forall j :: i < j < |entries| ==> locate(entries[j].rel) != locate(entries[i].rel)
    ensures var r := UnpackFiles(Some(Serialise(entries)), locate, fs);
            && r.Unpacked?
            && locate(entries[i].rel) in r.fs
            && r.fs[locate(entries[i].rel)] == RStrip(entries[i].read.text)
  {
    PackUnpackRoundTrip(entries, locate, fs);
    var ws := EntryWrites(entries, locate);
    assert entries[i] in entries;
    assert ws[i] == (locate(entries[i].rel), RStrip(entries[i].read.text));
    OverwriteLastWins(fs, ws, i);
  }

  /**
   The whole cycle on written archives: packing writes an archive whose
   unpacking restores every entry, and unpacking counts at least as many
   files as packing did, the same number exactly when no read failed.
   */
  lemma {:induction false} PackedArchiveRestores<K>(entries: seq<Entry>, locate: string -> K, fs: map<K, string>)
    requires forall e :: e in entries ==> Restorable(e)
    requires WriteArchive(entries).Written?
    ensures var w := WriteArchive(entries);
            && UnpackFiles(Some(w.archive), locate, fs) == Unpacked(Overwrite(fs, EntryWrites(entries, locate)), |entries|)
            && w.count <= UnpackFiles(Some(w.archive), locate, fs).count
            && (w.count == UnpackFiles(Some(w.archive), locate, fs).count <==> forall e :: e in entries ==> e.read.Read?)
  {
    PackUnpackRoundTrip(entries, locate, fs);
  }

  /**
   The two commands back to back: unpacking what `pack_files` wrote, under
   either exclusion decision, writes every packed file over the existing
   tree in traversal order.
   */
  lemma {:induction false} PackThenUnpack<K>(cands: seq<Candidate>, excluded: FilePath -> bool,
                                             locate: string -> K, fs: map<K, string>)
    requires forall c :: c in cands ==> c.path.relative.Some?
    requires forall e :: e in PackedEntries(cands, excluded) ==> Restorable(e)
    requires PackWith(cands, excluded).Written?
    ensures var es := PackedEntries(cands, excluded);
            UnpackFiles(Some(PackWith(cands, excluded).archive), locate, fs)
            == Unpacked(Overwrite(fs, EntryWrites(es, locate)), |es|)
  {
    PackedArchiveRestores(PackedEntries(cands, excluded), locate, fs);
  }

  /**
   A file whose read failed comes back as the error placeholder: unpacking
   its archive overwrites the file's path with the bracketed message.
   */
  lemma {:induction false} FailedReadWritesPlaceholder<K>(rel: string, reason: string, locate: string -> K, fs: map<K, string>)
    requires |rel| >= 1 && '\n' !in rel && '\r' !in rel
    requires '\n' !in reason && '\r' !in reason
    ensures UnpackFiles(Some(Serialise([Entry(rel, ReadFailed(reason))])), locate, fs)
            == Unpacked(fs[locate(rel) := ErrorOpen + reason + ErrorClose], 1)
  {
    var e := Entry(rel, ReadFailed(reason));
    var text := Payload(e);
    PlaceholderOneLine(reason);
    OneLinerRestorable(e);
    PackUnpackRoundTrip([e], locate, fs);
    assert EntryWrites([e], locate) == [(locate(rel), text)];
  }

  /** The placeholder for a one-line message is one line, bracketed. */
  lemma {:induction false} PlaceholderOneLine(reason: string)
    requires '\n' !in reason && '\r' !in reason
    ensures var text := ErrorOpen + reason + ErrorClose;
            && text[0] == '[' && text[|text| - 1] == ']'
            && '\n' !in text && '\r' !in text
  {
    assert '\n' !in ErrorOpen && '\r' !in ErrorOpen by {
      assert forall i :: 0 <= i < |ErrorOpen| ==> ErrorOpen[i] != '\n' && ErrorOpen[i] != '\r';
    }
  }

  /** The entry of the single-file example: `hello.py` holding `print('hello')`. */
  const HelloEntry: Entry := Entry("hello.py", Read("print('hello')"))

  /** The example's chunk, spelled out. */
  lemma {:induction false} HelloChunk()
    ensures Chunk(HelloEntry) == "===== hello.py =====\nprint('hello')\n\n"
  {
    var e := HelloEntry;
    var header := "===== hello.py =====\n";
    assert HeaderLine(e.rel) == header;
    assert Payload(e) == "print('hello')";
    assert header + "print('hello')" + "\n\n" == "===== hello.py =====\nprint('hello')\n\n";
  }

  /** Packing the single-file example writes one section and counts one file. */
  lemma {:induction false} HelloPacked()
    ensures WriteArchive([HelloEntry]) == Written("===== hello.py =====\nprint('hello')\n\n", 1)
  {
    var e := HelloEntry;
    assert [e][1..] == [];
    assert Serialise([e]) == Chunk(e);
    HelloChunk();
    assert SuccessCount([e]) == 1;
  }

  /**
   A one-line payload that neither starts nor ends with whitespace and does
   not open with `=` is restored exactly.
   */
  lemma {:induction false} OneLinerRestorable(e: Entry)
    requires |e.rel| >= 1 && '\n' !in e.rel && '\r' !in e.rel
    requires |Payload(e)| >= 1 && '\n' !in Payload(e) && '\r' !in Payload(e)
    requires !IsSpace(Payload(e)[0]) && !IsSpace(Payload(e)[|Payload(e)| - 1])
    requires Payload(e)[0] != '='
    ensures Restorable(e)
    ensures Restored(e) == Payload(e)
  {
    var text := Payload(e);
    LinesSingle(text);
    assert AllSpace("\n");
    StripFrame("", text, "\n");
    assert "" + text + "\n" == text + "\n";
    UnmarkedLineIsNotHeader(text + "\n");
    assert RStrip(text) == text;
  }

  lemma {:induction false} HelloRestorable()
    ensures Restorable(HelloEntry)
    ensures Restored(HelloEntry) == "print('hello')"
  {
    var e := HelloEntry;
    var text := "print('hello')";
    assert Payload(e) == text;
    assert |e.rel| >= 1 && '\n' !in e.rel && '\r' !in e.rel by {
      assert forall i :: 0 <= i < |e.rel| ==> e.rel[i] != '\n' && e.rel[i] != '\r';
    }
    assert |text| >= 1 && '\n' !in text && '\r' !in text by {
      assert forall i :: 0 <= i < |text| ==> text[i] != '\n' && text[i] != '\r';
    }
    assert !IsSpace(text[0]) && !IsSpace(text[|text| - 1]) && text[0] != '=';
    OneLinerRestorable(e);
  }

  /** Unpacking the example's archive into an empty tree recreates `hello.py` with exactly its text. */
  lemma {:induction false} HelloUnpacked()
    ensures UnpackFiles(Some("===== hello.py =====\nprint('hello')\n\n"), (name: string) => name, map[])
            == Unpacked(map["hello.py" := "print('hello')"], 1)
  {
    var e := HelloEntry;
    HelloRestorable();
    HelloPacked();
    PackUnpackRoundTrip([e], (name: string) => name, map[]);
    assert EntryWrites([e], (name: string) => name) == [("hello.py", "print('hello')")];
  }
}
