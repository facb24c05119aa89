/**
 Recognition of section header lines. The archiver matches the regular
 expression `^===== (.+) =====$` against each line after `strip()`; the
 capture is greedy, so the name is everything between the leading
 `"===== "` and the final `" ====="`.
 */
module Header {
  import opened Wrappers
  import opened Text

  const Open: string := "===== "
  const Close: string := " ====="

  /** The stripped header text announcing the file `name`. */
  function Render(name: string): string {
    Open + name + Close
  }

  /** The match of `===== (.+) =====` against the whole of `s`. */
  function Fields(s: string): Option<string> {
    if |s| >= |Open| + 1 + |Close| && s[..|Open|] == Open && s[|s| - |Close|..] == Close
       && '\n' !in s[|Open|..|s| - |Close|]
    then Some(s[|Open|..|s| - |Close|])
    else None
  }

  /**
   `re.match("^===== (.+) =====$", s)` and its group 1. `.` never matches a
   newline, and `$` matches at the very end or just before a final `'\n'`.
   */
  function Match(s: string): Option<string> {
    if |s| > 0 && s[|s| - 1] == '\n' then Fields(s[..|s| - 1]) else Fields(s)
  }

  /**
   Whatever matches is a rendered header, possibly followed by one newline,
   around a non-empty single-line name; so it has at least 13 characters.
   */
  lemma {:induction false} MatchSound(s: string)
    requires Match(s).Some?
    ensures |Match(s).value| >= 1 && '\n' !in Match(s).value
    ensures s == Render(Match(s).value) || s == Render(Match(s).value) + "\n"
    ensures |s| >= |Open| + 1 + |Close|
  {
    var t := if |s| > 0 && s[|s| - 1] == '\n' then s[..|s| - 1] else s;
    assert t == s || s == t + "\n";
    assert t == t[..|Open|] + t[|Open|..|t| - |Close|] + t[|t| - |Close|..];
  }

  /** Every non-empty name without a newline is recognised, with or without a final `'\n'`. */
  lemma {:induction false} MatchRender(name: string)
    requires |name| >= 1 && '\n' !in name
    ensures Match(Render(name)) == Some(name)
    ensures Match(Render(name) + "\n") == Some(name)
  {
    var s := Render(name);
    assert s[|s| - 1] == '=';
    assert s[..|Open|] == Open;
    assert s[|s| - |Close|..] == Close;
    assert s[|Open|..|s| - |Close|] == name;
    assert (s + "\n")[..|s + "\n"| - 1] == s;
  }

  /** The name a raw archive line announces, if it is a header line. */
  function HeaderName(line: string): Option<string> {
    Match(Strip(line))
  }

  /**
   A line is a header exactly when, once stripped, it reads
   `"===== " + name + " ====="` for a non-empty `name` without a newline;
   that `name` is what is extracted.
   */
  lemma {:induction false} HeaderNameSound(line: string)
    requires HeaderName(line).Some?
    ensures Strip(line) == Render(HeaderName(line).value)
    ensures |HeaderName(line).value| >= 1 && '\n' !in HeaderName(line).value
  {
    var s := Strip(line);
    MatchSound(s);
    StripEnds(line);
    assert s == [] || !IsSpace(s[|s| - 1]);
  }

  lemma {:induction false} HeaderNameComplete(w1: string, name: string, w2: string)
    requires AllSpace(w1) && AllSpace(w2)
    requires |name| >= 1 && '\n' !in name
    ensures HeaderName(w1 + Render(name) + w2) == Some(name)
  {
    var s := Render(name);
    assert s[0] == '=' && s[|s| - 1] == '=';
    StripFrame(w1, s, w2);
    MatchRender(name);
  }

  /** A stripped line shorter than 13 characters is never a header. */
  lemma {:induction false} ShortLineIsNotHeader(line: string)
    requires |Strip(line)| < |Open| + 1 + |Close|
    ensures HeaderName(line) == None
  {
    if HeaderName(line).Some? {
      MatchSound(Strip(line));
    }
  }

  /** A line whose stripped text does not open with `=` is never a header. */
  lemma {:induction false} UnmarkedLineIsNotHeader(line: string)
    requires Strip(line) == [] || Strip(line)[0] != '='
    ensures HeaderName(line) == None
  {
    if HeaderName(line).Some? {
      HeaderNameSound(line);
    }
  }

  /** The empty name: `"=====  ====="` is not a header, however it is padded. */
  lemma {:induction false} EmptyNameIsNotHeader(w1: string, w2: string)
    requires AllSpace(w1) && AllSpace(w2)
    ensures HeaderName(w1 + Open + Close + w2) == None
  {
    var s := Open + Close;
    assert s[0] == '=' && s[|s| - 1] == '=';
    assert w1 + Open + Close + w2 == w1 + s + w2;
    StripFrame(w1, s, w2);
  }
}
