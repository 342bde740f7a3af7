/**
 * `str.split(/\r?\n/)`: the line splitting shared by the decoder of
 * bin/core.js and the default of `splitLine` in bin/parser.js.
 *
 * The split scans left to right for the separator; at each position a
 * "\r\n" is preferred to a "\n", so a "\n" is a separator on its own only
 * when no "\r" stands right before it in the same piece.  The text after the
 * last separator is always a piece, so there is one piece more than there
 * are separators (the empty string gives one empty piece).
 */
module LineSplit {
  import opened Wrappers
  import opened JsText

  predicate IsBreak(b: string) {
    b == "\n" || b == "\r\n"
  }

  /** pieces[0] + breaks[0] + pieces[1] + ... + pieces[|breaks|]. */
  function Interleave(pieces: seq<string>, breaks: seq<string>): string
    requires |pieces| == |breaks| + 1
    decreases |breaks|
  {
    if |breaks| == 0 then pieces[0]
    else pieces[0] + breaks[0] + Interleave(pieces[1..], breaks[1..])
  }

  predicate EndsWithCr(p: string) {
    |p| > 0 && p[|p| - 1] == '\r'
  }

  /** A piece cut off by a bare "\n" does not end in "\r". */
  ghost predicate CrPreferred(pieces: seq<string>, breaks: seq<string>)
    requires |pieces| == |breaks| + 1
  {
    forall i | 0 <= i < |breaks| :: breaks[i] == "\n" ==> !EndsWithCr(pieces[i])
  }

  /**
   * pieces and breaks are what splitting s on `\r?\n` yields: they rebuild
   * s, no piece holds a "\n", and "\r\n" is preferred over "\n".
   */
  ghost predicate IsLineSplit(s: string, pieces: seq<string>, breaks: seq<string>) {
    && |pieces| == |breaks| + 1
    && (forall i | 0 <= i < |pieces| :: '\n' !in pieces[i])
    && (forall i | 0 <= i < |breaks| :: IsBreak(breaks[i]))
    && CrPreferred(pieces, breaks)
    && Interleave(pieces, breaks) == s
  }

  /** The first separator of s, as the span [cut, next) it occupies. */
  function FirstBreak(s: string): (r: Option<(nat, nat)>)
    ensures r.Some? ==> r.value.0 < r.value.1 <= |s| && s[r.value.1 - 1] == '\n'
    ensures r.Some? ==> forall m | 0 <= m < r.value.1 - 1 :: s[m] != '\n'
    ensures r.Some? ==> IsBreak(s[r.value.0..r.value.1])
    ensures r.Some? && r.value.1 - r.value.0 == 1 ==> !EndsWithCr(s[..r.value.0])
    ensures r.None? ==> '\n' !in s
  {
    match IndexFrom(s, '\n', 0)
    case None => None
    case Some(p) =>
      if p > 0 && s[p - 1] == '\r' then
        assert s[p - 1..p + 1] == "\r\n";
        Some((p - 1, p + 1))
      else
        assert s[p..p + 1] == "\n";
        Some((p, p + 1))
  }

  /** The pieces of `s.split(/\r?\n/)`, in order. */
  function SplitLines(s: string): (pieces: seq<string>)
    ensures |pieces| >= 1
    ensures forall i | 0 <= i < |pieces| :: '\n' !in pieces[i]
    decreases |s|
  {
    match FirstBreak(s)
    case None => [s]
    case Some((cut, next)) => [s[..cut]] + SplitLines(s[next..])
  }

  /** The separators `s.split(/\r?\n/)` consumed, in order. */
  function LineBreaks(s: string): (breaks: seq<string>)
    ensures |breaks| == |SplitLines(s)| - 1
    ensures forall i | 0 <= i < |breaks| :: IsBreak(breaks[i])
    decreases |s|
  {
    match FirstBreak(s)
    case None => []
    case Some((cut, next)) => [s[cut..next]] + LineBreaks(s[next..])
  }

  lemma InterleaveCons(p: string, pieces: seq<string>, b: string, breaks: seq<string>)
    requires |pieces| == |breaks| + 1
    ensures Interleave([p] + pieces, [b] + breaks) == p + b + Interleave(pieces, breaks)
  {
    assert ([p] + pieces)[1..] == pieces && ([b] + breaks)[1..] == breaks;
  }

  /** One step of the split: the text before the first separator, the separator, then the split of the rest. */
  lemma SplitLinesStep(s: string, cut: nat, next: nat)
    requires FirstBreak(s) == Some((cut, next))
    ensures SplitLines(s) == [s[..cut]] + SplitLines(s[next..])
  {
  }

  lemma LineBreaksStep(s: string, cut: nat, next: nat)
    requires FirstBreak(s) == Some((cut, next))
    ensures LineBreaks(s) == [s[cut..next]] + LineBreaks(s[next..])
  {
  }

  lemma {:induction false} SplitLinesRebuilds(s: string)
    ensures Interleave(SplitLines(s), LineBreaks(s)) == s
    decreases |s|
  {
    match FirstBreak(s)
    case None =>
    case Some((cut, next)) =>
      SplitLinesStep(s, cut, next);
      LineBreaksStep(s, cut, next);
      SplitLinesRebuilds(s[next..]);
      InterleaveCons(s[..cut], SplitLines(s[next..]), s[cut..next], LineBreaks(s[next..]));
      assert s == s[..cut] + s[cut..next] + s[next..];
  }

  lemma {:induction false} SplitLinesPreferCrLf(s: string)
    ensures CrPreferred(SplitLines(s), LineBreaks(s))
    decreases |s|
  {
    match FirstBreak(s)
    case None =>
    case Some((cut, next)) =>
      var rest := s[next..];
      SplitLinesPreferCrLf(rest);
      var ps, bs := SplitLines(s), LineBreaks(s);
      forall i | 0 <= i < |bs| && bs[i] == "\n" ensures !EndsWithCr(ps[i]) {
        if i > 0 {
          assert ps[i] == SplitLines(rest)[i - 1] && bs[i] == LineBreaks(rest)[i - 1];
        }
      }
  }

  /** The split rebuilds its subject and obeys the separator preference. */
  lemma SplitLinesIsLineSplit(s: string)
    ensures IsLineSplit(s, SplitLines(s), LineBreaks(s))
  {
    SplitLinesRebuilds(s);
    SplitLinesPreferCrLf(s);
  }

  /** The first separator of a decomposition meeting the rules is the first one in s. */
  lemma FirstBreakOfLineSplit(s: string, pieces: seq<string>, breaks: seq<string>)
    requires IsLineSplit(s, pieces, breaks) && |breaks| > 0
    ensures FirstBreak(s) == Some((|pieces[0]|, |pieces[0]| + |breaks[0]|))
    ensures s[..|pieces[0]|] == pieces[0]
    ensures s[|pieces[0]| + |breaks[0]|..] == Interleave(pieces[1..], breaks[1..])
  {
    var p0, b0 := pieces[0], breaks[0];
    var rest := Interleave(pieces[1..], breaks[1..]);
    assert s == p0 + b0 + rest;
    var next := |p0| + |b0|;
    assert IsBreak(b0) && '\n' !in p0;
    assert s[next - 1] == '\n';
    assert forall m | 0 <= m < |p0| :: s[m] == p0[m];
    var fb := FirstBreak(s);
    assert fb.Some?;
    assert fb.value.1 == next;
    assert s[..|p0|] == p0;
    assert fb.value.0 == |p0| by {
      if b0 == "\n" {
        assert !EndsWithCr(p0);
      }
    }
    assert s[next..] == rest;
  }

  lemma CrPreferredTail(pieces: seq<string>, breaks: seq<string>)
    requires |pieces| == |breaks| + 1 && |breaks| > 0 && CrPreferred(pieces, breaks)
    ensures CrPreferred(pieces[1..], breaks[1..])
  {
    forall i | 0 <= i < |breaks| - 1 && breaks[1..][i] == "\n" ensures !EndsWithCr(pieces[1..][i]) {
      assert breaks[1..][i] == breaks[i + 1] && pieces[1..][i] == pieces[i + 1];
    }
  }

  /** After its first piece and separator, a decomposition meeting the rules goes on as one for the rest of s. */
  lemma LineSplitTail(s: string, pieces: seq<string>, breaks: seq<string>)
    requires IsLineSplit(s, pieces, breaks) && |breaks| > 0
    ensures FirstBreak(s) == Some((|pieces[0]|, |pieces[0]| + |breaks[0]|))
    ensures s[..|pieces[0]|] == pieces[0] && s[|pieces[0]|..|pieces[0]| + |breaks[0]|] == breaks[0]
    ensures IsLineSplit(s[|pieces[0]| + |breaks[0]|..], pieces[1..], breaks[1..])
  {
    FirstBreakOfLineSplit(s, pieces, breaks);
    CrPreferredTail(pieces, breaks);
    assert forall i | 0 <= i < |pieces| - 1 :: pieces[1..][i] == pieces[i + 1];
    assert forall i | 0 <= i < |breaks| - 1 :: breaks[1..][i] == breaks[i + 1];
    var p0, b0 := pieces[0], breaks[0];
    assert s == p0 + b0 + Interleave(pieces[1..], breaks[1..]);
    assert s[|p0|..|p0| + |b0|] == b0;
  }

  lemma LineSplitOfOnePiece(s: string, pieces: seq<string>, breaks: seq<string>)
    requires IsLineSplit(s, pieces, breaks) && |breaks| == 0
    ensures pieces == SplitLines(s) && breaks == LineBreaks(s)
  {
    assert s == pieces[0];
    assert FirstBreak(s).None?;
  }

  /** The inductive step: the first piece and separator agree, and the rest agrees by hypothesis. */
  lemma LineSplitStep(s: string, pieces: seq<string>, breaks: seq<string>)
    requires IsLineSplit(s, pieces, breaks) && |breaks| > 0
    requires var rest := s[|pieces[0]| + |breaks[0]|..];
      pieces[1..] == SplitLines(rest) && breaks[1..] == LineBreaks(rest)
    ensures pieces == SplitLines(s) && breaks == LineBreaks(s)
  {
    LineSplitTail(s, pieces, breaks);
    assert pieces == [pieces[0]] + pieces[1..];
    assert breaks == [breaks[0]] + breaks[1..];
  }

  /** Any decomposition meeting the rules is the one the split produces. */
  lemma {:induction false} LineSplitIsUnique(s: string, pieces: seq<string>, breaks: seq<string>)
    requires IsLineSplit(s, pieces, breaks)
    ensures pieces == SplitLines(s) && breaks == LineBreaks(s)
    decreases |breaks|
  {
    if |breaks| == 0 {
      LineSplitOfOnePiece(s, pieces, breaks);
    } else {
      LineSplitTail(s, pieces, breaks);
      LineSplitIsUnique(s[|pieces[0]| + |breaks[0]|..], pieces[1..], breaks[1..]);
      LineSplitStep(s, pieces, breaks);
    }
  }
}
