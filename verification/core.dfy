/**
 * Line classification and decoding of a hosts file, as bin/core.js does it
 * in `lineFormatter` and `fileDecoder`.
 */
module Core {
  import opened Wrappers
  import opened JsText
  import RecordPattern
  import LineSplit

  /** A kept line: a comment line verbatim, or an address and the rest of the record. */
  datatype Entry = Comment(text: string) | Record(ip: string, host: string)

  /**
   * `#.*` matches line[p..q]: p is the first `#`, and q the first line
   * terminator after it (or the end), since `.` stops at line terminators.
   */
  predicate IsCommentSpan(line: string, p: nat, q: nat) {
    && p < q <= |line| && line[p] == '#'
    && (forall i | 0 <= i < p :: line[i] != '#')
    && NoTerminator(line, p + 1, q)
    && (q == |line| || IsLineTerminator(line[q]))
  }

  /** `line.replace(/#.*\/, '')`: the first comment span is cut out. */
  function StripComment(line: string): (r: string)
    ensures '#' !in line ==> r == line
    ensures '#' in line ==> exists p: nat, q: nat :: IsCommentSpan(line, p, q) && r == line[..p] + line[q..]
  {
    match IndexFrom(line, '#', 0)
    case None => line
    case Some(p) =>
      var q := NextTerminator(line, p + 1);
      assert IsCommentSpan(line, p, q);
      line[..p] + line[q..]
  }

  /** `lineFormatter`: a record, a `#` comment line, or nothing (the source's `false`). */
  function LineFormatter(line: string): (r: Option<Entry>)
    ensures r.Some? && r.value.Comment? ==> r.value.text == line && |line| > 0 && line[0] == '#'
    ensures r.Some? && r.value.Record? ==> r.value.ip != [] && r.value.host != []
  {
    match RecordPattern.Groups(StripComment(line))
    case Some((ip, host)) => Some(Record(ip, host))
    case None => if |line| > 0 && line[0] == '#' then Some(Comment(line)) else None
  }

  /** A Record comes back exactly when the pattern matches the stripped line, and then with the engine's groups. */
  lemma LineFormatterMatchesRegex(line: string)
    ensures var s := StripComment(line); var r := LineFormatter(line);
      && (r.Some? && r.value.Record? <==> exists t :: RecordPattern.Valid(s, t))
      && (r.Some? && r.value.Record? ==>
            exists t :: && RecordPattern.IsFirstMatch(s, t)
                        && r.value.ip == s[t.lead..t.IpEnd()]
                        && r.value.host == s[t.HostStart()..t.HostEnd()])
      && (r.Some? && r.value.Comment? <==>
            (forall t :: !RecordPattern.Valid(s, t)) && |line| > 0 && line[0] == '#')
      && (r.None? <==> (forall t :: !RecordPattern.Valid(s, t)) && !(|line| > 0 && line[0] == '#'))
  {
    var s := StripComment(line);
    RecordPattern.ExecIsFirstMatch(s);
  }

  /** On a line without line terminators, stripping keeps the text before the first `#`. */
  lemma StripCommentWithoutTerminators(line: string)
    requires NoTerminator(line, 0, |line|)
    ensures var r := StripComment(line);
      && |r| <= |line| && r == line[..|r|]
      && '#' !in r
      && NoTerminator(r, 0, |r|)
      && (|r| < |line| ==> line[|r|] == '#')
  {
    match IndexFrom(line, '#', 0)
    case None =>
    case Some(p) =>
      var q := NextTerminator(line, p + 1);
      assert q == |line|;
      assert StripComment(line) == line[..p];
  }

  /** On a line without line terminators, stripping cuts the line at its first `#`. */
  lemma StripCommentCutsAtFirstHash(line: string, p: nat)
    requires NoTerminator(line, 0, |line|)
    requires p < |line| && line[p] == '#' && forall m | 0 <= m < p :: line[m] != '#'
    ensures StripComment(line) == line[..p]
  {
    StripCommentWithoutTerminators(line);
    var r := StripComment(line);
    assert |r| <= p by {
      assert forall m | 0 <= m < |r| :: r[m] != '#';
    }
  }

  /** A line whose first character is `#` and which holds no line terminator is kept verbatim as a comment. */
  lemma HashLineIsComment(line: string)
    requires |line| > 0 && line[0] == '#'
    requires NoTerminator(line, 0, |line|)
    ensures LineFormatter(line) == Some(Comment(line))
  {
    StripCommentWithoutTerminators(line);
    assert StripComment(line) == [];
    RecordPattern.MatchesIffInnerSpace([]);
  }

  /**
   * On a line without line terminators, with s the text before the first
   * `#`: a Record is produced iff s has `\s` at some index in [1, |s|-2].
   */
  lemma RecordIffInnerSpace(line: string)
    requires NoTerminator(line, 0, |line|)
    ensures var s := StripComment(line);
      LineFormatter(line).Some? && LineFormatter(line).value.Record? <==>
      exists i | 1 <= i <= |s| - 2 :: IsSpace(s[i])
  {
    StripCommentWithoutTerminators(line);
    RecordPattern.MatchesIffInnerSpace(StripComment(line));
  }

  /**
   * The fields of a Record read from a line without line terminators.  With s
   * the text before the first `#`: ip is s up to its first `\s` after index
   * 0, so only ip[0] may be `\s`; host is never empty and follows a `\s`
   * run; host is the rest of s with trailing `\s` cut when the rest holds a
   * non-space, and otherwise the single last character of s.
   */
  lemma RecordShape(line: string, ip: string, host: string)
    requires NoTerminator(line, 0, |line|)
    requires LineFormatter(line) == Some(Record(ip, host))
    ensures var s := StripComment(line);
      && 1 <= |ip| < |s| && ip == s[..|ip|] && IsSpace(s[|ip|])
      && (forall m | 1 <= m < |ip| :: !IsSpace(ip[m]))
      && 1 <= |host|
      && (exists g | |ip| < g <= |s| - |host| ::
            AllSpace(s, |ip|, g) && host == s[g..g + |host|] && AllSpace(s, g + |host|, |s|))
      && (!AllSpace(s, |ip|, |s|) ==> !IsSpace(host[0]) && !IsSpace(host[|host| - 1]))
      && (AllSpace(s, |ip|, |s|) ==> host == [s[|s| - 1]])
  {
    var s := StripComment(line);
    RecordGroups(line, ip, host);
    StripCommentWithoutTerminators(line);
    RecordPattern.GroupsWithoutTerminators(s, ip, host);
  }

  /** A record carries the groups of the pattern on the stripped line. */
  lemma RecordGroups(line: string, ip: string, host: string)
    requires LineFormatter(line) == Some(Record(ip, host))
    ensures RecordPattern.Groups(StripComment(line)) == Some((ip, host))
  {
  }

  /** Only text before the first `#` is classified, so on a line without line terminators no field holds `#`. */
  lemma RecordFieldsHaveNoHash(line: string, ip: string, host: string)
    requires NoTerminator(line, 0, |line|)
    requires LineFormatter(line) == Some(Record(ip, host))
    ensures '#' !in ip && '#' !in host
  {
    var s := StripComment(line);
    StripCommentWithoutTerminators(line);
    var t := RecordPattern.Exec(s).value;
    assert ip == s[t.lead..t.IpEnd()] && host == s[t.HostStart()..t.HostEnd()];
    assert forall c | c in host :: c in s;
    assert forall c | c in ip :: c in s;
  }

  /**
   * A whitespace-only line without line terminators is dropped when it has at most
   * two characters; a longer one becomes a record of its first and last characters.
   */
  lemma BlankLineClassification(line: string)
    requires AllSpace(line, 0, |line|) && NoTerminator(line, 0, |line|)
    ensures LineFormatter(line).None? <==> |line| <= 2
    ensures |line| >= 3 ==> LineFormatter(line) == Some(Record([line[0]], [line[|line| - 1]]))
  {
    assert '#' !in line by {
      assert forall m | 0 <= m < |line| :: IsSpace(line[m]);
    }
    assert StripComment(line) == line;
    RecordIffInnerSpace(line);
    if |line| >= 3 {
      assert IsSpace(line[1]);
      var ip := LineFormatter(line).value.ip;
      var host := LineFormatter(line).value.host;
      RecordShape(line, ip, host);
      assert ip == [line[0]];
    }
  }

  /** What `fileDecoder` keeps: comments that start with `#`, records with both fields non-empty. */
  predicate IsKept(e: Entry) {
    match e
    case Comment(text) => |text| > 0 && text[0] == '#'
    case Record(ip, host) => ip != [] && host != []
  }

  /** `xs.map(f).filter(l => !!l)`, with the falsy results of f as `None`. */
  function FilterMap<T, U>(f: T -> Option<U>, xs: seq<T>): (ys: seq<U>)
    ensures |ys| <= |xs|
    decreases |xs|
  {
    if xs == [] then []
    else
      match f(xs[0])
      case Some(y) => [y] + FilterMap(f, xs[1..])
      case None => FilterMap(f, xs[1..])
  }

  /** Every output is the result of f on one of the inputs. */
  lemma {:induction false} FilterMapFromInputs<T, U>(f: T -> Option<U>, xs: seq<T>)
    ensures forall y | y in FilterMap(f, xs) :: exists i | 0 <= i < |xs| :: f(xs[i]) == Some(y)
    decreases |xs|
  {
    if xs != [] {
      FilterMapFromInputs(f, xs[1..]);
      forall y | y in FilterMap(f, xs[1..]) ensures exists i | 0 <= i < |xs| :: f(xs[i]) == Some(y) {
        var i :| 0 <= i < |xs| - 1 && f(xs[1..][i]) == Some(y);
        assert xs[1..][i] == xs[i + 1];
      }
    }
  }

  /** Every input on which f gives a result has that result in the output. */
  lemma {:induction false} FilterMapKeeps<T, U>(f: T -> Option<U>, xs: seq<T>, i: nat)
    requires i < |xs| && f(xs[i]).Some?
    ensures f(xs[i]).value in FilterMap(f, xs)
    decreases i
  {
    if i > 0 {
      assert xs[1..][i - 1] == xs[i];
      FilterMapKeeps(f, xs[1..], i - 1);
    }
  }

  /** Filtering distributes over concatenation, so document order is kept. */
  lemma {:induction false} FilterMapAppend<T, U>(f: T -> Option<U>, xs: seq<T>, zs: seq<T>)
    ensures FilterMap(f, xs + zs) == FilterMap(f, xs) + FilterMap(f, zs)
    decreases |xs|
  {
    if xs == [] {
      assert xs + zs == zs;
    } else {
      assert (xs + zs)[1..] == xs[1..] + zs;
      FilterMapAppend(f, xs[1..], zs);
    }
  }

  /** One input gives its result, or nothing. */
  lemma FilterMapCons<T, U>(f: T -> Option<U>, x: T, xs: seq<T>)
    ensures FilterMap(f, [x] + xs) == (match f(x) case Some(y) => [y] case None => []) + FilterMap(f, xs)
  {
    assert ([x] + xs)[1..] == xs;
  }

  /** `lines.map(lineFormatter).filter(l => !!l)`. */
  function DecodeLines(lines: seq<string>): (entries: seq<Entry>)
    ensures |entries| <= |lines|
    ensures forall e | e in entries :: IsKept(e)
    ensures forall e | e in entries :: exists i | 0 <= i < |lines| :: LineFormatter(lines[i]) == Some(e)
  {
    FilterMapFromInputs(LineFormatter, lines);
    FilterMap(LineFormatter, lines)
  }

  /** `fileDecoder`: split on `\r?\n`, classify every line, drop the unclassified ones. */
  function FileDecoder(content: string): (entries: seq<Entry>)
    ensures |entries| <= |LineSplit.SplitLines(content)|
    ensures forall e | e in entries :: IsKept(e)
    ensures forall e | e in entries && e.Comment? :: '\n' !in e.text
  {
    var lines := LineSplit.SplitLines(content);
    var entries := DecodeLines(lines);
    assert forall e | e in entries && e.Comment? :: '\n' !in e.text by {
      forall e | e in entries && e.Comment? ensures '\n' !in e.text {
        var i :| 0 <= i < |lines| && LineFormatter(lines[i]) == Some(e);
      }
    }
    entries
  }

  /** Every line that classifies has its entry in the decoded file, in document order. */
  lemma FileDecoderKeepsClassified(content: string, i: nat)
    requires i < |LineSplit.SplitLines(content)|
    requires LineFormatter(LineSplit.SplitLines(content)[i]).Some?
    ensures LineFormatter(LineSplit.SplitLines(content)[i]).value in FileDecoder(content)
  {
    FilterMapKeeps(LineFormatter, LineSplit.SplitLines(content), i);
  }
}
