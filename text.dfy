/** The string helpers of the post service: JavaScript `trim`, `split` on a
    character, `split(/\s+/)` counting, and removal of Markdown markers. */
module Text {

  /** The characters JavaScript's `trim` and the regex class `\s` treat as
      white space: ECMAScript WhiteSpace and LineTerminator. */
  predicate IsSpace(c: char) {
    || c == ' ' || c == '\t' || c == '\n' || c == '\r'
    || c == '\U{B}' || c == '\U{C}' || c == '\U{A0}' || c == '\U{1680}'
    || ('\U{2000}' <= c <= '\U{200A}')
    || c == '\U{2028}' || c == '\U{2029}' || c == '\U{202F}' || c == '\U{205F}'
    || c == '\U{3000}' || c == '\U{FEFF}'
  }

  predicate AllSpace(s: string) {
    forall i :: 0 <= i < |s| ==> IsSpace(s[i])
  }

  /** Neither the first nor the last character is white space. */
  predicate NoEdgeSpace(s: string) {
    |s| > 0 ==> !IsSpace(s[0]) && !IsSpace(s[|s| - 1])
  }

  /** `r` is `s` with white space removed at its two ends only. */
  ghost predicate TrimmedFrom(s: string, r: string) {
    exists i :: 0 <= i <= |s| - |r| && r == s[i..i + |r|] && AllSpace(s[..i]) && AllSpace(s[i + |r|..])
  }

  function TrimStart(s: string): (r: string)
    ensures |r| <= |s| && r == s[|s| - |r|..]
    ensures r != [] ==> !IsSpace(r[0])
  {
    if s != [] && IsSpace(s[0]) then TrimStart(s[1..]) else s
  }

  /** TrimStart removes only white space. */
  lemma {:induction false} TrimStartDropsSpace(s: string)
    ensures AllSpace(s[..|s| - |TrimStart(s)|])
  {
    if s != [] && IsSpace(s[0]) {
      TrimStartDropsSpace(s[1..]);
      assert s[..|s| - |TrimStart(s)|] == [s[0]] + s[1..][..|s| - 1 - |TrimStart(s[1..])|];
    }
  }

  function TrimEnd(s: string): (r: string)
    ensures |r| <= |s| && r == s[..|r|]
    ensures r != [] ==> !IsSpace(r[|r| - 1])
  {
    if s != [] && IsSpace(s[|s| - 1]) then TrimEnd(s[..|s| - 1]) else s
  }

  /** TrimEnd removes only white space. */
  lemma {:induction false} TrimEndDropsSpace(s: string)
    ensures AllSpace(s[|TrimEnd(s)|..])
  {
    if s != [] && IsSpace(s[|s| - 1]) {
      var p := s[..|s| - 1];
      TrimEndDropsSpace(p);
      assert s[|TrimEnd(s)|..] == p[|TrimEnd(p)|..] + [s[|s| - 1]];
    }
  }

  /** JavaScript `String.prototype.trim`. */
  function Trim(s: string): (r: string)
    ensures |r| <= |s|
    ensures NoEdgeSpace(r)
  {
    TrimEnd(TrimStart(s))
  }

  /** Trim removes white space at the two ends and nothing else. */
  lemma TrimIsTrim(s: string)
    ensures TrimmedFrom(s, Trim(s))
  {
    var a := TrimStart(s);
    var r := TrimEnd(a);
    var i := |s| - |a|;
    TrimStartDropsSpace(s);
    TrimEndDropsSpace(a);
    assert r == s[i..i + |r|];
    assert s[i + |r|..] == a[|r|..];
  }

  /** Trimming keeps only characters of the original. */
  lemma TrimChars(s: string, c: char)
    ensures c in Trim(s) ==> c in s
  {
    var a := TrimStart(s);
    var r := TrimEnd(a);
    if c in r {
      var j :| 0 <= j < |r| && r[j] == c;
      assert a[j] == c;
      assert s[|s| - |a| + j] == c;
    }
  }

  /** A string that already has no white space at its ends is left alone. */
  lemma {:induction false} TrimKeeps(s: string)
    requires NoEdgeSpace(s)
    ensures Trim(s) == s
  {
  }

  /** `xs.join(sep)`. */
  function Join(xs: seq<string>, sep: char): string
  {
    if |xs| == 0 then ""
    else if |xs| == 1 then xs[0]
    else xs[0] + [sep] + Join(xs[1..], sep)
  }

  /** `s.split(sep)` for a one-character separator: every piece between two
      separators, empty pieces included, so `"".split(",")` is `[""]`. */
  function Split(s: string, sep: char): (r: seq<string>)
    ensures |r| >= 1
  {
    if s == [] then [""]
    else
      var rest := Split(s[1..], sep);
      if s[0] == sep then [""] + rest
      else [[s[0]] + rest[0]] + rest[1..]
  }

  /** No piece holds the separator, and joining the pieces with it gives the
      string back. */
  lemma {:induction false} SplitPieces(s: string, sep: char)
    ensures forall i :: 0 <= i < |Split(s, sep)| ==> sep !in Split(s, sep)[i]
    ensures Join(Split(s, sep), sep) == s
  {
    if s != [] {
      SplitPieces(s[1..], sep);
      if s[0] == sep {
        SplitAtSep(s, sep);
      } else {
        SplitAtChar(s, sep);
      }
    }
  }

  /** The step of SplitPieces for a string that starts with the separator. */
  lemma SplitAtSep(s: string, sep: char)
    requires s != [] && s[0] == sep
    requires forall i :: 0 <= i < |Split(s[1..], sep)| ==> sep !in Split(s[1..], sep)[i]
    requires Join(Split(s[1..], sep), sep) == s[1..]
    ensures forall i :: 0 <= i < |Split(s, sep)| ==> sep !in Split(s, sep)[i]
    ensures Join(Split(s, sep), sep) == s
  {
    var rest := Split(s[1..], sep);
    var r := Split(s, sep);
    assert r == [""] + rest;
    assert r[1..] == rest;
    assert Join(r, sep) == "" + [sep] + Join(rest, sep);
    assert s == [s[0]] + s[1..];
    forall i | 0 <= i < |r| ensures sep !in r[i] {
      if i > 0 {
        assert r[i] == rest[i - 1];
      }
    }
  }

  /** The step of SplitPieces for a string that starts with another character. */
  lemma SplitAtChar(s: string, sep: char)
    requires s != [] && s[0] != sep
    requires forall i :: 0 <= i < |Split(s[1..], sep)| ==> sep !in Split(s[1..], sep)[i]
    requires Join(Split(s[1..], sep), sep) == s[1..]
    ensures forall i :: 0 <= i < |Split(s, sep)| ==> sep !in Split(s, sep)[i]
    ensures Join(Split(s, sep), sep) == s
  {
    var rest := Split(s[1..], sep);
    var h := [s[0]] + rest[0];
    assert Split(s, sep) == [h] + rest[1..];
    CharPieces(s[0], rest, sep);
    CharJoin(s, rest, sep);
  }

  /** Prefixing a character other than the separator to the first piece keeps
      every piece free of the separator. */
  lemma CharPieces(c: char, rest: seq<string>, sep: char)
    requires c != sep && |rest| >= 1
    requires forall i :: 0 <= i < |rest| ==> sep !in rest[i]
    ensures var r := [[c] + rest[0]] + rest[1..];
      forall i :: 0 <= i < |r| ==> sep !in r[i]
  {
    var r := [[c] + rest[0]] + rest[1..];
    forall i | 0 <= i < |r| ensures sep !in r[i] {
      if i == 0 {
        assert sep !in rest[0];
      } else {
        assert r[i] == rest[i];
      }
    }
  }

  /** Joining after prefixing a character to the first piece prefixes it to
      the join. */
  lemma CharJoin(s: string, rest: seq<string>, sep: char)
    requires s != [] && |rest| >= 1
    requires Join(rest, sep) == s[1..]
    ensures Join([[s[0]] + rest[0]] + rest[1..], sep) == s
  {
    var h := [s[0]] + rest[0];
    var r := [h] + rest[1..];
    if |rest| == 1 {
      assert r == [h];
    } else {
      assert r[1..] == rest[1..];
      assert Join(r, sep) == h + [sep] + Join(rest[1..], sep);
      assert Join(rest, sep) == rest[0] + [sep] + Join(rest[1..], sep);
    }
    assert s == [s[0]] + s[1..];
  }

  /** Splitting a join gives the pieces back when no piece holds the separator. */
  lemma {:induction false} SplitJoin(xs: seq<string>, sep: char)
    requires |xs| >= 1
    requires forall i :: 0 <= i < |xs| ==> sep !in xs[i]
    ensures Split(Join(xs, sep), sep) == xs
  {
    if |xs| == 1 {
      SplitPiece(xs[0], sep);
    } else {
      SplitJoin(xs[1..], sep);
      SplitPrefix(xs[0], Join(xs[1..], sep), sep);
    }
  }

  lemma {:induction false} SplitPiece(s: string, sep: char)
    requires sep !in s
    ensures Split(s, sep) == [s]
  {
    if s != [] {
      SplitPiece(s[1..], sep);
      assert s[0] != sep;
      assert [s[0]] + s[1..] == s;
    }
  }

  /** Splitting `p + sep + t`, with no separator in `p`, yields `p` first. */
  lemma {:induction false} SplitPrefix(p: string, t: string, sep: char)
    requires sep !in p
    ensures Split(p + [sep] + t, sep) == [p] + Split(t, sep)
  {
    if p == [] {
      assert p + [sep] + t == [sep] + t;
      assert ([sep] + t)[1..] == t;
    } else {
      assert (p + [sep] + t)[1..] == p[1..] + [sep] + t;
      SplitPrefix(p[1..], t, sep);
      assert [p[0]] + p[1..] == p;
    }
  }

  predicate IsMarkup(c: char) {
    c == '#' || c == '*' || c == '`'
  }

  /** `s.replace(/[#*`]/g, '')`. */
  function StripMarkup(s: string): (r: string)
    ensures |r| <= |s|
  {
    if s == [] then ""
    else (if IsMarkup(s[0]) then "" else [s[0]]) + StripMarkup(s[1..])
  }

  /** Exactly the characters of `s` that are not markers survive. */
  lemma {:induction false} StripMarkupChars(s: string, c: char)
    ensures c in StripMarkup(s) <==> c in s && !IsMarkup(c)
  {
    if s != [] {
      StripMarkupChars(s[1..], c);
      assert s == [s[0]] + s[1..];
    }
  }

  /** Text without markers is left alone. */
  lemma {:induction false} StripMarkupKeeps(s: string)
    requires forall i :: 0 <= i < |s| ==> !IsMarkup(s[i])
    ensures StripMarkup(s) == s
  {
    if s != [] {
      StripMarkupKeeps(s[1..]);
      assert [s[0]] + s[1..] == s;
    }
  }

  /** The number of maximal runs of white space in `s`. */
  function SpaceRuns(s: string): nat
  {
    if s == [] then 0
    else
      var n := |s|;
      SpaceRuns(s[..n - 1]) + (if IsSpace(s[n - 1]) && (n == 1 || !IsSpace(s[n - 2])) then 1 else 0)
  }

  /** The number of maximal runs of non-white-space characters: the words. */
  function WordRuns(s: string): nat
  {
    if s == [] then 0
    else
      var n := |s|;
      WordRuns(s[..n - 1]) + (if !IsSpace(s[n - 1]) && (n == 1 || IsSpace(s[n - 2])) then 1 else 0)
  }

  /** `s.split(/\s+/).length`: one more piece than there are separators,
      and each separator is a maximal run of white space. */
  function SplitSpaceCount(s: string): (r: nat)
    ensures r >= 1
  {
    1 + SpaceRuns(s)
  }

  /** In a string that starts with a word, every run of white space is
      followed by a word unless it ends the string. */
  lemma {:induction false} RunsAlternate(s: string)
    requires s != [] && !IsSpace(s[0])
    ensures WordRuns(s) == SpaceRuns(s) + (if IsSpace(s[|s| - 1]) then 0 else 1)
  {
    var n := |s|;
    if n > 1 {
      assert s[..n - 1][0] == s[0];
      RunsAlternate(s[..n - 1]);
      assert s[..n - 1][n - 2] == s[n - 2];
    }
  }

  /** For trimmed, non-empty text the pieces of `split(/\s+/)` are exactly
      its words; for the empty text there is one (empty) piece. */
  lemma SplitSpaceCountIsWords(s: string)
    requires NoEdgeSpace(s)
    ensures s != [] ==> SplitSpaceCount(s) == WordRuns(s)
    ensures s == [] ==> SplitSpaceCount(s) == 1 && WordRuns(s) == 0
  {
    if s != [] {
      RunsAlternate(s);
    }
  }
}
