/**
 The exclusion decision applied to every regular file found under the root
 while packing. Paths are seen only through the three observations the
 decision uses; the `.gitignore` matcher is an opaque predicate on
 root-relative POSIX paths, absent when no matcher could be built.
 */
module Ignore {
  import opened Wrappers

  /** The version-control metadata directory name. */
  const MetadataDir: string := ".git"

  /**
   A path as the decision sees it: its final component (`path.name`), its
   canonical form (`path.resolve()`), and its root-relative POSIX form
   (`path.relative_to(root).as_posix()`), `None` when it is not under root.
   */
  datatype FilePath = FilePath(name: string, resolved: string, relative: Option<string>)

  /** `is_ignored(path, root, spec, output_path)` as written. */
  function IsIgnored(path: FilePath, output: FilePath, spec: Option<string -> bool>): (r: bool)
    ensures r <==> || path.name == MetadataDir
                   || path.resolved == output.resolved
                   || (spec.Some? && path.relative.Some? && spec.value(path.relative.value))
  {
    if path.name == MetadataDir || path.resolved == output.resolved then true
    else if spec.None? then false
    else
      match path.relative
      case Some(rel) => spec.value(rel)
      case None => false
  }

  /**
   The matcher is consulted only for a path under the root, and only on its
   root-relative form: two matchers that agree there give the same decision,
   and without a matcher only the two fixed exclusions remain.
   */
  lemma {:induction false} MatcherConsultedOnRelativePath(path: FilePath, output: FilePath, m1: string -> bool, m2: string -> bool)
    requires path.relative.None? || m1(path.relative.value) == m2(path.relative.value)
    ensures IsIgnored(path, output, Some(m1)) == IsIgnored(path, output, Some(m2))
    ensures IsIgnored(path, output, None) <==> path.name == MetadataDir || path.resolved == output.resolved
  {
  }

  /** The slash-separated components of a POSIX path (`str.split("/")`). */
  function Components(p: string): (cs: seq<string>)
    ensures |cs| >= 1
    ensures forall i :: 0 <= i < |cs| ==> '/' !in cs[i]
    ensures JoinSlash(cs) == p
    decreases |p|
  {
    if p == [] then [""]
    else
      var rest := Components(p[1..]);
      if p[0] == '/' then
        assert p == "/" + p[1..];
        [""] + rest
      else
        var cs := [[p[0]] + rest[0]] + rest[1..];
        assert '/' !in [p[0]] + rest[0];
        assert JoinSlash(cs) == [p[0]] + JoinSlash(rest);
        assert p == [p[0]] + p[1..];
        cs
  }

  /** `"/".join(cs)`. */
  function JoinSlash(cs: seq<string>): string
    requires |cs| >= 1
  {
    if |cs| == 1 then cs[0] else cs[0] + "/" + JoinSlash(cs[1..])
  }

  /** Some component of the root-relative path, or the name itself, is the metadata directory. */
  predicate InMetadataDir(path: FilePath) {
    path.name == MetadataDir || (path.relative.Some? && MetadataDir in Components(path.relative.value))
  }

  /**
   The decision with the metadata directory excluded as a directory: a file
   anywhere inside `.git/` is ignored, not only a file named `.git`.
   */
  predicate IsIgnoredFixed(path: FilePath, output: FilePath, spec: Option<string -> bool>) {
    InMetadataDir(path) || IsIgnored(path, output, spec)
  }

  /**
   The corrected decision ignores every file inside the metadata directory,
   at the root (`.git/...`) or nested (`pkg/.git/...`), whatever the matcher.
   */
  lemma {:induction false} MetadataContentsIgnored(path: FilePath, output: FilePath, spec: Option<string -> bool>,
                                                   pre: string, rest: string)
    requires pre == [] || pre[|pre| - 1] == '/'
    requires path.relative == Some(pre + MetadataDir + "/" + rest)
    ensures IsIgnoredFixed(path, output, spec)
  {
    MetadataComponent(pre, rest);
  }

  /** A path with `.git/` at the root or after a slash has `.git` among its components. */
  lemma {:induction false} MetadataComponent(pre: string, rest: string)
    requires pre == [] || pre[|pre| - 1] == '/'
    ensures MetadataDir in Components(pre + MetadataDir + "/" + rest)
  {
    var tail := MetadataDir + "/" + rest;
    assert pre + MetadataDir + "/" + rest == pre + tail;
    ComponentsCons(MetadataDir, rest);
    assert Components(tail)[0] == MetadataDir;
    if pre == [] {
      assert pre + tail == tail;
    } else {
      ComponentsSuffix(pre, tail);
      var cs := Components(pre + tail);
      assert cs[|cs| - |Components(tail)|] == MetadataDir;
    }
  }

  /** The corrected decision only adds exclusions. */
  lemma {:induction false} FixedExtendsOriginal(path: FilePath, output: FilePath, spec: Option<string -> bool>)
    ensures IsIgnored(path, output, spec) ==> IsIgnoredFixed(path, output, spec)
    ensures IsIgnoredFixed(path, output, spec) && !IsIgnored(path, output, spec)
            ==> path.relative.Some? && MetadataDir in Components(path.relative.value)
  {
  }

  /** Outside the metadata directory the corrected decision is the original one. */
  lemma {:induction false} FixedAgreesOutsideMetadata(path: FilePath, output: FilePath, spec: Option<string -> bool>)
    requires path.relative.Some? && MetadataDir !in Components(path.relative.value)
    ensures IsIgnoredFixed(path, output, spec) == IsIgnored(path, output, spec)
  {
  }

  /**
   As written, a regular file inside `.git/` is not ignored: its final
   component is not `.git`, so without a `.gitignore` it is packed.
   */
  lemma {:induction false} MetadataContentsPackedAsWritten()
    ensures var head := FilePath("HEAD", "/work/.git/HEAD", Some(".git/HEAD"));
            var out := FilePath("hxppy_backup.txt", "/work/hxppy_backup.txt", Some("hxppy_backup.txt"));
            !IsIgnored(head, out, None) && IsIgnoredFixed(head, out, None)
  {
    assert ".git/HEAD" == MetadataDir + "/" + "HEAD";
    ComponentsCons(MetadataDir, "HEAD");
  }

  /** The first component runs up to the first slash. */
  lemma {:induction false} ComponentsCons(a: string, b: string)
    requires '/' !in a
    ensures Components(a + "/" + b) == [a] + Components(b)
    decreases |a|
  {
    if a == [] {
      assert a + "/" + b == "/" + b;
      assert ("/" + b)[1..] == b;
    } else {
      assert (a + "/" + b)[1..] == a[1..] + "/" + b;
      ComponentsCons(a[1..], b);
      assert [a[0]] + a[1..] == a;
    }
  }

  /** After a prefix ending in `/`, the components of the rest come last and unchanged. */
  lemma {:induction false} ComponentsSuffix(pre: string, s: string)
    requires pre != [] && pre[|pre| - 1] == '/'
    ensures |Components(pre + s)| > |Components(s)|
    ensures Components(pre + s)[|Components(pre + s)| - |Components(s)|..] == Components(s)
    decreases |pre|
  {
    var p := pre + s;
    assert p[0] == pre[0];
    assert p[1..] == pre[1..] + s;
    var r := Components(p[1..]);
    var k := |Components(s)|;
    if |pre| == 1 {
      assert p[1..] == s;
      assert Components(p) == [""] + r;
    } else {
      ComponentsSuffix(pre[1..], s);
      assert r[|r| - k..] == Components(s);
      if p[0] == '/' {
        assert Components(p) == [""] + r;
      } else {
        assert Components(p) == [[p[0]] + r[0]] + r[1..];
        assert r[1..][|r| - 1 - k..] == r[|r| - k..];
      }
    }
  }
}
