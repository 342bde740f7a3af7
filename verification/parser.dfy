/**
 * The second, partial line parser of bin/parser.js: `splitLine`,
 * `isCommentLine` and `formatLine`.
 */
module Parser {
  import opened Wrappers
  import opened JsText
  import LineSplit

  /** The `eol` argument of `splitLine`: its default `/\r?\n/`, or a string separator. */
  datatype Eol = DefaultEol | Literal(sep: string)

  /** sep occurs in s at index m. */
  predicate OccursAt(s: string, sep: string, m: int) {
    0 <= m && m + |sep| <= |s| && s[m..m + |sep|] == sep
  }

  /** The first occurrence of sep in s at or after i. */
  function FindFrom(s: string, sep: string, i: nat): (r: Option<nat>)
    requires i <= |s|
    ensures r.Some? ==> i <= r.value && OccursAt(s, sep, r.value)
    ensures r.Some? ==> forall m | i <= m < r.value :: !OccursAt(s, sep, m)
    ensures r.None? ==> forall m | i <= m :: !OccursAt(s, sep, m)
    decreases |s| - i
  {
    if OccursAt(s, sep, i) then Some(i)
    else if i == |s| then None
    else FindFrom(s, sep, i + 1)
  }

  /** `s.split(sep)` for a non-empty string separator. */
  function SplitOn(s: string, sep: string): (pieces: seq<string>)
    requires sep != []
    ensures |pieces| >= 1
    decreases |s|
  {
    match FindFrom(s, sep, 0)
    case None => [s]
    case Some(p) => [s[..p]] + SplitOn(s[p + |sep|..], sep)
  }

  /** One step of the split: the text before the first separator, then the split of the text after it. */
  lemma SplitOnStep(s: string, sep: string, p: nat)
    requires sep != [] && FindFrom(s, sep, 0) == Some(p)
    ensures SplitOn(s, sep) == [s[..p]] + SplitOn(s[p + |sep|..], sep)
  {
  }

  /** The text before the first separator holds no separator. */
  lemma FirstPieceHoldsNoSeparator(s: string, sep: string, p: nat)
    requires sep != [] && FindFrom(s, sep, 0) == Some(p)
    ensures forall m :: !OccursAt(s[..p], sep, m)
  {
    forall m | OccursAt(s[..p], sep, m) ensures OccursAt(s, sep, m) && m < p {
      assert s[..p][m..m + |sep|] == s[m..m + |sep|];
    }
  }

  /** No piece of a string-separator split holds the separator. */
  lemma {:induction false} SplitOnPiecesHoldNoSeparator(s: string, sep: string)
    requires sep != []
    ensures forall i, m | 0 <= i < |SplitOn(s, sep)| :: !OccursAt(SplitOn(s, sep)[i], sep, m)
    decreases |s|
  {
    match FindFrom(s, sep, 0)
    case None =>
    case Some(p) =>
      var rest := s[p + |sep|..];
      SplitOnStep(s, sep, p);
      SplitOnPiecesHoldNoSeparator(rest, sep);
      FirstPieceHoldsNoSeparator(s, sep, p);
      var pieces := SplitOn(s, sep);
      assert forall i | 1 <= i < |pieces| :: pieces[i] == SplitOn(rest, sep)[i - 1];
  }

  /** `pieces.join(sep)`; an empty list joins to `""`. */
  function Join(pieces: seq<string>, sep: string): string
    decreases |pieces|
  {
    if |pieces| == 0 then ""
    else if |pieces| == 1 then pieces[0]
    else pieces[0] + sep + Join(pieces[1..], sep)
  }

  lemma JoinCons(first: string, rest: seq<string>, sep: string)
    requires |rest| >= 1
    ensures Join([first] + rest, sep) == first + sep + Join(rest, sep)
  {
    assert ([first] + rest)[1..] == rest;
  }

  /** s is rebuilt around an occurrence of sep at p. */
  lemma AroundOccurrence(s: string, sep: string, p: nat)
    requires OccursAt(s, sep, p)
    ensures s == s[..p] + sep + s[p + |sep|..]
  {
    assert s == s[..p] + s[p..p + |sep|] + s[p + |sep|..];
  }

  /** Splitting on a string separator loses nothing: joining the pieces back gives the subject. */
  lemma {:induction false} SplitOnRejoins(s: string, sep: string)
    requires sep != []
    ensures Join(SplitOn(s, sep), sep) == s
    decreases |s|
  {
    match FindFrom(s, sep, 0)
    case None =>
    case Some(p) =>
      var rest := s[p + |sep|..];
      SplitOnStep(s, sep, p);
      AroundOccurrence(s, sep, p);
      SplitOnRejoins(rest, sep);
      JoinCons(s[..p], SplitOn(rest, sep), sep);
  }

  /** `s.split("")`: one piece per character, and none for the empty string. */
  function Characters(s: string): (pieces: seq<string>)
    ensures |pieces| == |s|
    ensures forall i | 0 <= i < |s| :: pieces[i] == [s[i]]
  {
    seq(|s|, i requires 0 <= i < |s| => [s[i]])
  }

  /** Splitting on `""` loses nothing: every piece is one character, and joining them gives back the subject. */
  lemma {:induction false} CharactersRejoin(s: string)
    ensures forall i | 0 <= i < |Characters(s)| :: |Characters(s)[i]| == 1
    ensures Join(Characters(s), "") == s
    decreases |s|
  {
    if |s| >= 2 {
      var pieces := Characters(s);
      assert pieces[1..] == Characters(s[1..]);
      CharactersRejoin(s[1..]);
      assert s == [s[0]] + "" + s[1..];
    }
  }

  /** `str.split(eol)`. */
  function Pieces(str: string, eol: Eol): seq<string> {
    match eol
    case DefaultEol => LineSplit.SplitLines(str)
    case Literal(sep) => if sep == [] then Characters(str) else SplitOn(str, sep)
  }

  /** xs is xs taken from ys in order, some elements of ys left out. */
  ghost predicate IsSubsequence<T>(xs: seq<T>, ys: seq<T>)
    decreases |ys|
  {
    if xs == [] then true
    else if ys == [] then false
    else if xs[0] == ys[0] then IsSubsequence(xs[1..], ys[1..])
    else IsSubsequence(xs, ys[1..])
  }

  /** `lines.filter(line => /\S/g.test(line))`. */
  function KeepNonBlank(lines: seq<string>): (kept: seq<string>)
    ensures forall i | 0 <= i < |kept| :: HasNonSpace(kept[i])
    ensures IsSubsequence(kept, lines)
    ensures forall i | 0 <= i < |lines| && HasNonSpace(lines[i]) :: lines[i] in kept
    decreases |lines|
  {
    if lines == [] then []
    else
      var rest := KeepNonBlank(lines[1..]);
      assert forall i | 1 <= i < |lines| :: lines[i] == lines[1..][i - 1];
      if HasNonSpace(lines[0]) then [lines[0]] + rest
      else
        assert rest != [] ==> rest[0] != lines[0];
        rest
  }

  /** `splitLine(str, eol)`: the pieces of str that are not blank. */
  function SplitLine(str: string, eol: Eol): (lines: seq<string>)
    ensures forall i | 0 <= i < |lines| :: HasNonSpace(lines[i])
    ensures IsSubsequence(lines, Pieces(str, eol))
  {
    KeepNonBlank(Pieces(str, eol))
  }

  /** With the default separator no returned line holds a "\n". */
  lemma DefaultSplitLineHasNoNewline(str: string)
    ensures forall i | 0 <= i < |SplitLine(str, DefaultEol)| :: '\n' !in SplitLine(str, DefaultEol)[i]
  {
    var lines := SplitLine(str, DefaultEol);
    var pieces := LineSplit.SplitLines(str);
    forall i | 0 <= i < |lines| ensures '\n' !in lines[i] {
      SubsequenceMembers(lines, pieces, i);
    }
  }

  lemma {:induction false} SubsequenceMembers<T>(xs: seq<T>, ys: seq<T>, i: nat)
    requires IsSubsequence(xs, ys) && i < |xs|
    ensures xs[i] in ys
    decreases |ys|
  {
    if xs[0] == ys[0] {
      if i > 0 {
        SubsequenceMembers(xs[1..], ys[1..], i - 1);
      }
    } else {
      SubsequenceMembers(xs, ys[1..], i);
    }
  }

  /** Filtering distributes over concatenation, so the kept lines stay in document order. */
  lemma {:induction false} KeepNonBlankAppend(a: seq<string>, b: seq<string>)
    ensures KeepNonBlank(a + b) == KeepNonBlank(a) + KeepNonBlank(b)
    decreases |a|
  {
    if a == [] {
      assert a + b == b;
    } else {
      assert (a + b)[1..] == a[1..] + b;
      KeepNonBlankAppend(a[1..], b);
    }
  }

  /** The filter leaves a sequence unchanged exactly when none of its lines is blank. */
  lemma {:induction false} KeepNonBlankIsIdentity(lines: seq<string>)
    ensures KeepNonBlank(lines) == lines <==> forall i | 0 <= i < |lines| :: HasNonSpace(lines[i])
    decreases |lines|
  {
    if lines != [] && forall i | 0 <= i < |lines| :: HasNonSpace(lines[i]) {
      assert forall i | 0 <= i < |lines| - 1 :: lines[1..][i] == lines[i + 1];
      KeepNonBlankIsIdentity(lines[1..]);
    }
  }

  /** `/^\s*#/g.test(line)`: after the leading `\s` run comes a `#`. */
  function IsCommentLine(line: string): (b: bool)
    ensures b <==> exists k | 0 <= k < |line| :: AllSpace(line, 0, k) && line[k] == '#'
  {
    var k := SpaceRun(line, 0);
    assert forall k' | 0 <= k' < |line| && AllSpace(line, 0, k') && line[k'] == '#' :: k' == k by {
      forall k' | 0 <= k' < |line| && AllSpace(line, 0, k') && line[k'] == '#' ensures k' == k {
        assert !IsSpace(line[k']);
        assert k < |line| ==> !IsSpace(line[k]);
      }
    }
    k < |line| && line[k] == '#'
  }

  /** `line.replace(/^\s*\/, '')`: the line without its leading `\s` run. */
  function TrimStart(line: string): (r: string)
    ensures |r| <= |line| && line == line[..|line| - |r|] + r
    ensures AllSpace(line, 0, |line| - |r|)
    ensures r != [] ==> !IsSpace(r[0])
  {
    var k := SpaceRun(line, 0);
    assert line == line[..k] + line[k..];
    line[k..]
  }

  /** The object `formatLine` returns: `{type, line}`. */
  datatype Formatted = Formatted(kind: string, line: seq<string>)

  /**
   * `formatLine`: a comment line becomes a one-element `comment` entry
   * holding the line without its indentation; any other line gives
   * `undefined`, since that branch is empty.
   */
  function FormatLine(line: string): (r: Option<Formatted>)
    ensures r.Some? <==> IsCommentLine(line)
    ensures r.Some? ==> r.value.kind == "comment" && |r.value.line| == 1
    ensures r.Some? ==> |r.value.line[0]| > 0 && r.value.line[0][0] == '#'
    ensures r.Some? ==> exists k | 0 <= k <= |line| :: AllSpace(line, 0, k) && r.value.line[0] == line[k..]
  {
    if IsCommentLine(line) then
      var k := SpaceRun(line, 0);
      assert k < |line| && line[k] == '#' by {
        var k' :| 0 <= k' < |line| && AllSpace(line, 0, k') && line[k'] == '#';
        assert !IsSpace(line[k']);
      }
      assert TrimStart(line) == line[k..];
      Some(Formatted("comment", [TrimStart(line)]))
    else
      None
  }
}
