/**
 Text primitives the archiver relies on from Python's `str` and text-mode
 files: the whitespace class of `str.isspace`, `rstrip`/`lstrip`/`strip`,
 `"".join`, `readlines` and universal-newline translation on reading.
 */
module Text {

  /** Every code point for which Python 3's `str.isspace()` holds. */
  const Whitespace: set<char> := {
    '\t', '\n', '\U{000B}', '\U{000C}', '\r',
    '\U{001C}', '\U{001D}', '\U{001E}', '\U{001F}', ' ',
    '\U{0085}', '\U{00A0}', '\U{1680}',
    '\U{2000}', '\U{2001}', '\U{2002}', '\U{2003}', '\U{2004}', '\U{2005}',
    '\U{2006}', '\U{2007}', '\U{2008}', '\U{2009}', '\U{200A}',
    '\U{2028}', '\U{2029}', '\U{202F}', '\U{205F}', '\U{3000}'
  }

  predicate IsSpace(c: char) {
    c in Whitespace
  }

  predicate AllSpace(s: string) {
    forall i :: 0 <= i < |s| ==> IsSpace(s[i])
  }

  /** `s.rstrip()`: the longest prefix of `s` that does not end in whitespace. */
  function RStrip(s: string): (r: string)
    ensures r <= s
    ensures AllSpace(s[|r|..])
    ensures r == [] || !IsSpace(r[|r| - 1])
    decreases |s|
  {
    if |s| > 0 && IsSpace(s[|s| - 1]) then RStrip(s[..|s| - 1]) else s
  }

  /** `s.lstrip()`: the longest suffix of `s` that does not start with whitespace. */
  function LStrip(s: string): (r: string)
    ensures |r| <= |s| && r == s[|s| - |r|..]
    ensures AllSpace(s[..|s| - |r|])
    ensures r == [] || !IsSpace(r[0])
    decreases |s|
  {
    if |s| > 0 && IsSpace(s[0]) then LStrip(s[1..]) else s
  }

  /** `s.strip()`. */
  function Strip(s: string): string {
    LStrip(RStrip(s))
  }

  /** Neither end of a stripped text is whitespace. */
  lemma {:induction false} StripEnds(s: string)
    ensures Strip(s) == [] || (!IsSpace(Strip(s)[0]) && !IsSpace(Strip(s)[|Strip(s)| - 1]))
  {
    var t := RStrip(s);
    var r := LStrip(t);
    assert r == [] || r[|r| - 1] == t[|t| - 1];
  }

  /** Appending whitespace never changes what `rstrip` keeps. */
  lemma {:induction false} RStripSpaceSuffix(t: string, w: string)
    requires AllSpace(w)
    ensures RStrip(t + w) == RStrip(t)
    decreases |w|
  {
    if w == [] {
      assert t + w == t;
    } else {
      var w' := w[..|w| - 1];
      assert (t + w)[|t + w| - 1] == w[|w| - 1];
      assert (t + w)[..|t + w| - 1] == t + w';
      assert AllSpace(w');
      RStripSpaceSuffix(t, w');
    }
  }

  /** Prepending whitespace never changes what `lstrip` keeps. */
  lemma {:induction false} LStripSpacePrefix(w: string, t: string)
    requires AllSpace(w)
    ensures LStrip(w + t) == LStrip(t)
    decreases |w|
  {
    if w == [] {
      assert w + t == t;
    } else {
      assert (w + t)[0] == w[0];
      assert (w + t)[1..] == w[1..] + t;
      assert AllSpace(w[1..]);
      LStripSpacePrefix(w[1..], t);
    }
  }

  /**
   `strip` removes exactly a whitespace frame: any text whose two ends are not
   whitespace comes back unchanged from the padded line around it.
   */
  lemma {:induction false} StripFrame(w1: string, t: string, w2: string)
    requires AllSpace(w1) && AllSpace(w2)
    requires t == [] || (!IsSpace(t[0]) && !IsSpace(t[|t| - 1]))
    ensures Strip(w1 + t + w2) == t
  {
    RStripSpaceSuffix(w1 + t, w2);
    if t == [] {
      assert w1 + t == [] + w1;
      RStripSpaceSuffix([], w1);
    } else {
      assert RStrip(w1 + t) == w1 + t;
      LStripSpacePrefix(w1, t);
    }
  }

  /** `"".join(ls)`. */
  function Concat(ls: seq<string>): string {
    if ls == [] then [] else ls[0] + Concat(ls[1..])
  }

  lemma {:induction false} ConcatAppend(a: seq<string>, b: seq<string>)
    ensures Concat(a + b) == Concat(a) + Concat(b)
  {
    if a == [] {
      assert a + b == b;
    } else {
      assert (a + b)[0] == a[0];
      assert (a + b)[1..] == a[1..] + b;
      ConcatAppend(a[1..], b);
    }
  }

  /** The length of the first line of `t`, its terminating `'\n'` included. */
  function LineLength(t: string): (k: nat)
    requires |t| > 0
    ensures 0 < k <= |t|
    ensures k == |t| || t[k - 1] == '\n'
    ensures forall j :: 0 <= j < k - 1 ==> t[j] != '\n'
  {
    if t[0] == '\n' || |t| == 1 then 1 else 1 + LineLength(t[1..])
  }

  /**
   `readlines()` on already-decoded text: the text cut after every `'\n'`,
   each piece keeping its terminator, the last piece possibly unterminated.
   */
  function Lines(t: string): (ls: seq<string>)
    ensures Concat(ls) == t
    decreases |t|
  {
    if t == [] then []
    else
      var k := LineLength(t);
      var rest := Lines(t[k..]);
      assert t[..k] + t[k..] == t;
      [t[..k]] + rest
  }

  /**
   What `readlines` promises of its pieces: none is empty, each but the last
   ends in `'\n'`, and no other `'\n'` occurs in any of them.
   */
  predicate LineShaped(ls: seq<string>) {
    && (forall i :: 0 <= i < |ls| ==> |ls[i]| > 0)
    && (forall i :: 0 <= i < |ls| - 1 ==> ls[i][|ls[i]| - 1] == '\n')
    && (forall i, j :: 0 <= i < |ls| && 0 <= j < |ls[i]| - 1 ==> ls[i][j] != '\n')
  }

  lemma {:induction false} LinesShape(t: string)
    ensures LineShaped(Lines(t))
    decreases |t|
  {
    if t != [] {
      var k := LineLength(t);
      LinesShape(t[k..]);
      LinesUnfold(t);
      assert k < |t| ==> Lines(t[k..]) != [] by {
        if k < |t| {
          assert Concat(Lines(t[k..])) == t[k..];
        }
      }
      ShapedCons(t[..k], Lines(t[k..]));
    }
  }

  /** A well-shaped first line in front of well-shaped lines keeps the shape. */
  lemma ShapedCons(piece: string, rest: seq<string>)
    requires |piece| > 0 && LineShaped(rest)
    requires forall j :: 0 <= j < |piece| - 1 ==> piece[j] != '\n'
    requires rest != [] ==> piece[|piece| - 1] == '\n'
    ensures LineShaped([piece] + rest)
  {
    var ls := [piece] + rest;
    forall i | 0 < i < |ls|
      ensures ls[i] == rest[i - 1]
    {
    }
  }

  lemma {:induction false} LinesUnfold(t: string)
    requires t != []
    ensures Lines(t) == [t[..LineLength(t)]] + Lines(t[LineLength(t)..])
  {
  }

  lemma {:induction false} LineLengthPrefix(x: string, y: string)
    requires |x| > 0 && x[|x| - 1] == '\n'
    ensures LineLength(x + y) == LineLength(x)
    decreases |x|
  {
    if x[0] != '\n' {
      assert (x + y)[1..] == x[1..] + y;
      LineLengthPrefix(x[1..], y);
    }
  }

  /** The first line of `x + y` is the first line of `x` when `x` is terminated. */
  lemma {:induction false} LinesAppendHead(x: string, y: string)
    requires |x| > 0 && x[|x| - 1] == '\n'
    ensures Lines(x + y) == [x[..LineLength(x)]] + Lines(x[LineLength(x)..] + y)
  {
    var k := LineLength(x);
    LineLengthPrefix(x, y);
    assert (x + y)[..k] == x[..k];
    assert (x + y)[k..] == x[k..] + y;
    LinesUnfold(x + y);
  }

  /** Reading lines is compositional at a line boundary. */
  lemma {:induction false} LinesAppend(x: string, y: string)
    requires x == [] || x[|x| - 1] == '\n'
    ensures Lines(x + y) == Lines(x) + Lines(y)
    decreases |x|
  {
    if x == [] {
      assert x + y == y;
    } else {
      var k := LineLength(x);
      var head, tail := x[..k], x[k..];
      assert tail == [] || tail[|tail| - 1] == '\n';
      LinesAppend(tail, y);
      LinesAppendHead(x, y);
      LinesUnfold(x);
      Reassemble(Lines(x + y), Lines(x), head, Lines(tail), Lines(y), Lines(tail + y));
    }
  }

  lemma Reassemble<T>(whole: seq<T>, first: seq<T>, head: T, rest: seq<T>, more: seq<T>, both: seq<T>)
    requires whole == [head] + both && both == rest + more && first == [head] + rest
    ensures whole == first + more
  {
  }

  /** A text holding one newline, at its end, is a single line. */
  lemma {:induction false} LinesSingle(x: string)
    requires '\n' !in x
    ensures Lines(x + "\n") == [x + "\n"]
  {
    var t := x + "\n";
    var k := LineLength(t);
    assert t[..k] == t;
    LinesUnfold(t);
    assert t[k..] == [];
  }

  /**
   Universal-newline translation applied when a file is read in text mode:
   `"\r\n"` and a lone `'\r'` both become `'\n'`.
   */
  function Universal(t: string): (r: string)
    ensures '\r' !in r
    ensures '\r' !in t ==> r == t
    decreases |t|
  {
    if t == [] then []
    else if t[0] == '\r' then
      if |t| > 1 && t[1] == '\n' then "\n" + Universal(t[2..]) else "\n" + Universal(t[1..])
    else
      assert '\r' !in t ==> '\r' !in t[1..];
      [t[0]] + Universal(t[1..])
  }
}
