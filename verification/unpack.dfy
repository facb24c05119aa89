/**
 The reading half of the archiver: one forward pass over the archive's lines
 that opens a section at every header line and, when the next header or the
 end arrives, writes the section's text to its path. The directory tree is a
 map from paths to contents; `locate` stands for `root / name`.
 */
module Unpack {
  import opened Wrappers
  import opened Text
  import opened Header

  /**
   An archive line together with the outcome of matching the header pattern
   against it once stripped: the name it announces, or `None`.
   */
  datatype Line = Line(raw: string, header: Option<string>)

  /** Pairs every raw line with what the header recogniser `hn` makes of it. */
  function ClassifyAll(hn: string -> Option<string>, raws: seq<string>): seq<Line> {
    if raws == [] then [] else [Line(raws[0], hn(raws[0]))] + ClassifyAll(hn, raws[1..])
  }

  function Raws(ls: seq<Line>): (raws: seq<string>)
    ensures |raws| == |ls|
    ensures forall i :: 0 <= i < |ls| ==> raws[i] == ls[i].raw
  {
    if ls == [] then [] else [ls[0].raw] + Raws(ls[1..])
  }

  /** Classifying keeps every raw line. */
  lemma {:induction false} RawsClassifyAll(hn: string -> Option<string>, raws: seq<string>)
    ensures Raws(ClassifyAll(hn, raws)) == raws
  {
    if raws != [] {
      RawsClassifyAll(hn, raws[1..]);
    }
  }

  lemma {:induction false} RawsAppend(a: seq<Line>, b: seq<Line>)
    ensures Raws(a + b) == Raws(a) + Raws(b)
  {
    assert |Raws(a + b)| == |Raws(a) + Raws(b)|;
    forall i | 0 <= i < |a| + |b|
      ensures Raws(a + b)[i] == (Raws(a) + Raws(b))[i]
    {
      if i < |a| {
        assert (a + b)[i] == a[i];
      } else {
        assert (a + b)[i] == b[i - |a|];
      }
    }
  }

  lemma {:induction false} ClassifyAllAppend(hn: string -> Option<string>, a: seq<string>, b: seq<string>)
    ensures ClassifyAll(hn, a + b) == ClassifyAll(hn, a) + ClassifyAll(hn, b)
  {
    if a == [] {
      assert a + b == b;
    } else {
      assert (a + b)[0] == a[0];
      assert (a + b)[1..] == a[1..] + b;
      ClassifyAllAppend(hn, a[1..], b);
    }
  }

  /** Lines none of which matches the header pattern classify as body lines. */
  lemma {:induction false} ClassifyNoHeader(hn: string -> Option<string>, raws: seq<string>)
    requires forall l :: l in raws ==> hn(l).None?
    ensures forall l :: l in ClassifyAll(hn, raws) ==> l.header.None?
  {
    if raws != [] {
      assert raws[0] in raws;
      assert forall l :: l in raws[1..] ==> l in raws;
      ClassifyNoHeader(hn, raws[1..]);
    }
  }

  /** The number of header lines. */
  function HeaderCount(lines: seq<Line>): nat {
    if lines == [] then 0 else (if lines[0].header.Some? then 1 else 0) + HeaderCount(lines[1..])
  }

  /** The lines of a section body: everything before the next header line. */
  function TakeBody(lines: seq<Line>): (body: seq<Line>)
    ensures body <= lines
    ensures forall l :: l in body ==> l.header.None?
    ensures |body| < |lines| ==> lines[|body|].header.Some?
  {
    if lines == [] || lines[0].header.Some? then []
    else
      var rest := TakeBody(lines[1..]);
      assert forall l :: l in [lines[0]] + rest ==> l == lines[0] || l in rest;
      [lines[0]] + rest
  }

  /** A section of the archive: the name its header announces and its raw body lines. */
  datatype Section = Section(name: string, body: seq<string>)

  /**
   The sections of an archive, read declaratively: one per header line, in
   order, each with the raw lines up to the next header; lines before the
   first header belong to no section.
   */
  function Sections(lines: seq<Line>): (r: seq<Section>)
    ensures |r| == HeaderCount(lines)
  {
    if lines == [] then []
    else if lines[0].header.Some? then
      [Section(lines[0].header.value, Raws(TakeBody(lines[1..])))] + Sections(lines[1..])
    else Sections(lines[1..])
  }

  /** Lines without a header can be dropped from the front of a body's lines. */
  lemma {:induction false} TakeBodySkip(pre: seq<Line>, rest: seq<Line>)
    requires forall l :: l in pre ==> l.header.None?
    ensures TakeBody(pre + rest) == pre + TakeBody(rest)
  {
    if pre == [] {
      assert pre + rest == rest;
    } else {
      assert (pre + rest)[0] == pre[0];
      assert (pre + rest)[1..] == pre[1..] + rest;
      TakeBodySkip(pre[1..], rest);
    }
  }

  /** Lines before the first header belong to no section. */
  lemma {:induction false} SectionsSkip(pre: seq<Line>, rest: seq<Line>)
    requires forall l :: l in pre ==> l.header.None?
    ensures Sections(pre + rest) == Sections(rest)
  {
    if pre == [] {
      assert pre + rest == rest;
    } else {
      assert (pre + rest)[0] == pre[0];
      assert (pre + rest)[1..] == pre[1..] + rest;
      SectionsSkip(pre[1..], rest);
    }
  }

  /**
   A header followed by header-free lines and then a list with no leading
   body opens a section holding exactly those lines.
   */
  lemma {:induction false} SectionOpens(header: Line, body: seq<Line>, rest: seq<Line>)
    requires header.header.Some?
    requires forall l :: l in body ==> l.header.None?
    requires TakeBody(rest) == []
    ensures Sections([header] + (body + rest)) == [Section(header.header.value, Raws(body))] + Sections(rest)
    ensures TakeBody([header] + (body + rest)) == []
  {
    assert ([header] + (body + rest))[1..] == body + rest;
    TakeBodySkip(body, rest);
    assert body + [] == body;
    SectionsSkip(body, rest);
  }

  /**
   Lines before a header are discarded, and the header opens a section
   holding exactly the raw lines up to the following header.
   */
  lemma {:induction false} SectionsAfterPreamble(pre: seq<Line>, header: Line, rest: seq<Line>)
    requires forall l :: l in pre ==> l.header.None?
    requires header.header.Some?
    ensures Sections(pre + [header] + rest)
            == [Section(header.header.value, Raws(TakeBody(rest)))] + Sections(rest)
  {
    if pre == [] {
      assert pre + [header] + rest == [header] + rest;
      assert ([header] + rest)[1..] == rest;
    } else {
      assert (pre + [header] + rest)[0] == pre[0];
      assert (pre + [header] + rest)[1..] == pre[1..] + [header] + rest;
      SectionsAfterPreamble(pre[1..], header, rest);
    }
  }

  /** Applies the writes in order, each overwriting whatever the path held. */
  function Overwrite<K>(fs: map<K, string>, writes: seq<(K, string)>): (r: map<K, string>)
    ensures r.Keys == fs.Keys + set w | w in writes :: w.0
    decreases |writes|
  {
    if writes == [] then fs
    else
      var r := Overwrite(fs[writes[0].0 := writes[0].1], writes[1..]);
      assert writes == [writes[0]] + writes[1..];
      r
  }

  /** A path that no write targets keeps its content. */
  lemma {:induction false} OverwriteUntouched<K>(fs: map<K, string>, writes: seq<(K, string)>, k: K)
    requires forall j :: 0 <= j < |writes| ==> writes[j].0 != k
    ensures k in Overwrite(fs, writes) <==> k in fs
    ensures k in fs ==> Overwrite(fs, writes)[k] == fs[k]
    decreases |writes|
  {
    if writes != [] {
      OverwriteUntouched(fs[writes[0].0 := writes[0].1], writes[1..], k);
    }
  }

  /** The last write to a path decides its content. */
  lemma {:induction false} OverwriteLastWins<K>(fs: map<K, string>, writes: seq<(K, string)>, i: nat)
    requires i < |writes|
    requires forall j :: i < j < |writes| ==> writes[j].0 != writes[i].0
    ensures writes[i].0 in Overwrite(fs, writes)
    ensures Overwrite(fs, writes)[writes[i].0] == writes[i].1
    decreases |writes|
  {
    if i == 0 {
      OverwriteUntouched(fs[writes[0].0 := writes[0].1], writes[1..], writes[0].0);
    } else {
      OverwriteLastWins(fs[writes[0].0 := writes[0].1], writes[1..], i - 1);
    }
  }

  /** Applying a concatenation of write lists applies one after the other. */
  lemma {:induction false} OverwriteAppend<K>(fs: map<K, string>, a: seq<(K, string)>, b: seq<(K, string)>)
    ensures Overwrite(fs, a + b) == Overwrite(Overwrite(fs, a), b)
    decreases |a|
  {
    if a == [] {
      assert a + b == b;
    } else {
      assert (a + b)[0] == a[0];
      assert (a + b)[1..] == a[1..] + b;
      OverwriteAppend(fs[a[0].0 := a[0].1], a[1..], b);
    }
  }

  /** `_save_file`'s content for a buffer: the joined lines with trailing whitespace removed. */
  function Content(buffer: seq<string>): string {
    RStrip(Concat(buffer))
  }

  /** The writes the sections make, in archive order. */
  function SectionWrites<K>(sections: seq<Section>, locate: string -> K): (ws: seq<(K, string)>)
    ensures |ws| == |sections|
    ensures forall i :: 0 <= i < |ws| ==> ws[i] == (locate(sections[i].name), Content(sections[i].body))
  {
    if sections == [] then []
    else [(locate(sections[0].name), Content(sections[0].body))] + SectionWrites(sections[1..], locate)
  }

  /** The state of the pass: `current_file_path`, `content_buffer`, the tree and `count`. */
  datatype Parser<K> = Parser(current: Option<K>, buffer: seq<string>, fs: map<K, string>, count: nat)

  /** `_save_file(current_file_path, content_buffer)` followed by `count += 1`. */
  function Save<K>(p: Parser<K>): (q: Parser<K>)
    requires p.current.Some?
    ensures q.fs.Keys == p.fs.Keys + {p.current.value}
    ensures q.fs[p.current.value] == Content(p.buffer)
    ensures forall k :: k in p.fs && k != p.current.value ==> q.fs[k] == p.fs[k]
    ensures q.count == p.count + 1
  {
    p.(fs := p.fs[p.current.value := Content(p.buffer)], count := p.count + 1)
  }

  /** One iteration of the loop over `lines`. */
  function Step<K>(locate: string -> K, p: Parser<K>, line: Line): Parser<K> {
    match line.header
    case Some(name) =>
      var q := if p.current.Some? then Save(p) else p;
      q.(current := Some(locate(name)), buffer := [])
    case None =>
      if p.current.Some? then p.(buffer := p.buffer + [line.raw]) else p
  }

  /** The loop over `lines`. */
  function Run<K>(locate: string -> K, p: Parser<K>, lines: seq<Line>): Parser<K>
    decreases |lines|
  {
    if lines == [] then p else Run(locate, Step(locate, p, lines[0]), lines[1..])
  }

  /** The save after the loop, when a section is still open. */
  function Finish<K>(p: Parser<K>): Parser<K> {
    if p.current.Some? then Save(p) else p
  }

  /** Before any header, lines change nothing. */
  lemma {:induction false} LeadingLinesDiscarded<K>(locate: string -> K, p: Parser<K>, pre: seq<Line>)
    requires p.current.None?
    requires forall l :: l in pre ==> l.header.None?
    ensures Run(locate, p, pre) == p
    decreases |pre|
  {
    if pre != [] {
      assert pre[0] in pre;
      assert forall l :: l in pre[1..] ==> l in pre;
      LeadingLinesDiscarded(locate, p, pre[1..]);
    }
  }

  /** The tree after saving the open section, were `extra` appended to its buffer first. */
  function Flush<K>(p: Parser<K>, extra: seq<string>): map<K, string> {
    if p.current.Some? then p.fs[p.current.value := Content(p.buffer + extra)] else p.fs
  }

  /**
   The pass agrees with the declarative reading: from any state, the tree
   it leaves is the open section (completed by the body lines that follow)
   and then every later section written in order.
   */
  lemma {:induction false} RunMatchesSections<K>(locate: string -> K, p: Parser<K>, lines: seq<Line>)
    ensures Finish(Run(locate, p, lines)).fs
            == Overwrite(Flush(p, Raws(TakeBody(lines))), SectionWrites(Sections(lines), locate))
    decreases |lines|
  {
    if lines == [] {
      assert p.buffer + [] == p.buffer;
    } else if lines[0].header.Some? {
      RunMatchesSections(locate, Step(locate, p, lines[0]), lines[1..]);
      HeaderStep(locate, p, lines);
    } else {
      RunMatchesSections(locate, Step(locate, p, lines[0]), lines[1..]);
      BodyStep(locate, p, lines);
    }
  }

  /** A header line saves the open section and opens a new, empty one. */
  lemma {:induction false} HeaderStep<K>(locate: string -> K, p: Parser<K>, lines: seq<Line>)
    requires lines != [] && lines[0].header.Some?
    ensures var q := Step(locate, p, lines[0]);
            var rest := lines[1..];
            Overwrite(Flush(q, Raws(TakeBody(rest))), SectionWrites(Sections(rest), locate))
            == Overwrite(Flush(p, Raws(TakeBody(lines))), SectionWrites(Sections(lines), locate))
  {
    var q := Step(locate, p, lines[0]);
    var rest := lines[1..];
    var name := lines[0].header.value;
    var body := Raws(TakeBody(rest));
    assert TakeBody(lines) == [];
    assert p.buffer + [] == p.buffer;
    assert q.fs == Flush(p, []);
    assert [] + body == body;
    assert Flush(q, body) == Flush(p, [])[locate(name) := Content(body)];
    var ws := SectionWrites(Sections(rest), locate);
    assert Sections(lines) == [Section(name, body)] + Sections(rest);
    assert SectionWrites(Sections(lines), locate) == [(locate(name), Content(body))] + ws;
  }

  /** A body line joins the open section, or is dropped before the first header. */
  lemma {:induction false} BodyStep<K>(locate: string -> K, p: Parser<K>, lines: seq<Line>)
    requires lines != [] && lines[0].header.None?
    ensures var q := Step(locate, p, lines[0]);
            var rest := lines[1..];
            Overwrite(Flush(q, Raws(TakeBody(rest))), SectionWrites(Sections(rest), locate))
            == Overwrite(Flush(p, Raws(TakeBody(lines))), SectionWrites(Sections(lines), locate))
  {
    var line, rest := lines[0], lines[1..];
    assert Sections(lines) == Sections(rest);
    assert TakeBody(lines) == [line] + TakeBody(rest);
    RawsAppend([line], TakeBody(rest));
    assert Raws(TakeBody(lines)) == [line.raw] + Raws(TakeBody(rest));
    assert p.buffer + [line.raw] + Raws(TakeBody(rest)) == p.buffer + ([line.raw] + Raws(TakeBody(rest)));
  }

  /** The pass counts one save per section, plus the section already open. */
  lemma {:induction false} RunCountsSections<K>(locate: string -> K, p: Parser<K>, lines: seq<Line>)
    ensures Finish(Run(locate, p, lines)).count
            == p.count + (if p.current.Some? then 1 else 0) + |Sections(lines)|
    decreases |lines|
  {
    if lines != [] {
      RunCountsSections(locate, Step(locate, p, lines[0]), lines[1..]);
    }
  }

  /** What unpacking leaves behind: nothing when the archive is missing, or the tree and the count. */
  datatype UnpackOutcome<K> = NotFound | Unpacked(fs: map<K, string>, count: nat)

  /** The archive as `readlines()` returns it from a text-mode file. */
  function ArchiveLines(text: string): seq<Line> {
    ClassifyAll(HeaderName, Lines(Universal(text)))
  }

  /**
   `unpack_files(input_path)`: `None` is a missing archive, which writes
   nothing. Otherwise the tree ends up with every section written in
   archive order over the initial tree, and one file is counted per header.
   */
  function UnpackFiles<K>(archive: Option<string>, locate: string -> K, fs: map<K, string>): (r: UnpackOutcome<K>)
    ensures r.NotFound? <==> archive.None?
    ensures r.Unpacked? ==>
              r.fs == Overwrite(fs, SectionWrites(Sections(ArchiveLines(archive.value)), locate))
    ensures r.Unpacked? ==> r.count == HeaderCount(ArchiveLines(archive.value))
  {
    match archive
    case None => NotFound
    case Some(text) =>
      var start := Parser(None, [], fs, 0);
      var lines := ArchiveLines(text);
      var p := Finish(Run(locate, start, lines));
      RunMatchesSections(locate, start, lines);
      RunCountsSections(locate, start, lines);
      Unpacked(p.fs, p.count)
  }

  /**
   Duplicate paths: a path holds the content of the last section that
   targets it, and a path no section targets keeps what it held.
   */
  lemma {:induction false} LastSectionWins<K>(text: string, locate: string -> K, fs: map<K, string>, i: nat)
    requires i < |Sections(ArchiveLines(text))|
    requires var s := Sections(ArchiveLines(text));
             forall j :: i < j < |s| ==> locate(s[j].name) != locate(s[i].name)
    ensures var s := Sections(ArchiveLines(text));
            UnpackFiles(Some(text), locate, fs).fs[locate(s[i].name)] == Content(s[i].body)
  {
    var s := Sections(ArchiveLines(text));
    OverwriteLastWins(fs, SectionWrites(s, locate), i);
  }

  lemma {:induction false} UntargetedPathUnchanged<K>(text: string, locate: string -> K, fs: map<K, string>, k: K)
    requires forall s :: s in Sections(ArchiveLines(text)) ==> locate(s.name) != k
    ensures k in UnpackFiles(Some(text), locate, fs).fs <==> k in fs
    ensures k in fs ==> UnpackFiles(Some(text), locate, fs).fs[k] == fs[k]
  {
    var s := Sections(ArchiveLines(text));
    var ws := SectionWrites(s, locate);
    forall j | 0 <= j < |ws|
      ensures ws[j].0 != k
    {
      assert s[j] in s;
    }
    OverwriteUntouched(fs, ws, k);
  }
}
