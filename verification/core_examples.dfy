/** Worked inputs for the classifier of bin/core.js, including its quirks. */
module CoreExamples {
  import opened Wrappers
  import opened JsText
  import opened Core
  import RecordPattern
  import LineSplit

  /** An empty line is dropped. */
  lemma BlankLineDropped()
    ensures LineFormatter("") == None
  {
  }

  /** A `#` in column 0 keeps the line as a comment ... */
  lemma HashLineKept()
    ensures LineFormatter("# x") == Some(Comment("# x"))
  {
  }

  /** ... but an indented comment is dropped: stripping leaves two spaces, and column 0 is not `#`. */
  lemma IndentedCommentDropped(line: string)
    requires line == "  # note"
    ensures LineFormatter(line) == None
  {
    assert NoTerminator(line, 0, |line|);
    StripCommentCutsAtFirstHash(line, 2);
    RecordIffInnerSpace(line);
  }

  /** Stripping a record line keeps the space before the `#`. */
  lemma StripDemo(line: string)
    requires line == "127.0.0.1 localhost # xxx"
    ensures StripComment(line) == "127.0.0.1 localhost "
  {
    assert NoTerminator(line, 0, |line|);
    assert line[20] == '#' && forall m | 0 <= m < 20 :: line[m] != '#';
    StripCommentCutsAtFirstHash(line, 20);
  }

  const DemoLine := " 127.0.0.1 localhost asdfasdf # asdf"

  lemma DemoLineSlices(s: string)
    requires s == DemoLine
    ensures s[..10] == " 127.0.0.1" && s[11..|s|] == "localhost asdfasdf # asdf"
  {
    assert s[11..] == "localhost asdfasdf # asdf";
    assert s[11..|s|] == s[11..];
  }

  lemma DemoLineHasNoTerminator(s: string)
    requires s == DemoLine
    ensures NoTerminator(s, 0, |s|)
  {
  }

  lemma DemoLineCharacters(s: string)
    requires s == DemoLine
    ensures forall m | 1 <= m < 10 :: !IsSpace(s[m])
    ensures AllSpace(s, 10, 11) && !IsSpace(s[11]) && !IsSpace(s[|s| - 1]) && AllSpace(s, |s|, |s|)
  {
  }

  /** The pattern on an unstripped line: the lazy lead leaves the space inside ip, and host runs over the `#`. */
  lemma PatternDemo(s: string)
    requires s == DemoLine
    ensures RecordPattern.Groups(s) == Some((" 127.0.0.1", "localhost asdfasdf # asdf"))
  {
    DemoLineSlices(s);
    DemoLineHasNoTerminator(s);
    DemoLineCharacters(s);
    RecordPattern.GroupsOfSpacedRecord(s, 10, 1, |s|);
  }

  /** With only spaces after ip, the gap gives one back and host is a single space. */
  lemma SpaceHost(line: string)
    requires line == "a  "
    ensures LineFormatter(line) == Some(Record("a", " "))
  {
    assert StripComment(line) == line;
    assert RecordPattern.Exec(line) == Some(RecordPattern.Split(0, 1, 1, 1)) by {
      assert SpaceRun(line, 1) == 2;
      assert LastNonTerminator(line, 2, 3) == Some(2);
      assert RecordPattern.MatchTail(line, 1) == Some((1, 1));
      assert RecordPattern.ScanIp(line, 0, 1) == Some((1, 1, 1));
    }
    assert line[0..1] == "a" && line[2..3] == " ";
  }

  /** Stripping stops at a bare carriage return, so a `#` line can still hold a record. */
  lemma CarriageReturnStrip(line: string)
    requires line == "#x\rab c"
    ensures StripComment(line) == "\rab c"
  {
    assert IndexFrom(line, '#', 0) == Some(0);
    assert NextTerminator(line, 1) == 2;
  }

  /** `.` does not match the carriage return, so the lazy lead skips it and ip starts after it. */
  lemma CarriageReturnPattern(s: string)
    requires s == "\rab c"
    ensures RecordPattern.Groups(s) == Some(("ab", "c"))
  {
    assert RecordPattern.Exec(s) == Some(RecordPattern.Split(1, 2, 1, 1)) by {
      assert RecordPattern.MatchTail(s, 2) == None;
      assert RecordPattern.MatchTail(s, 3) == Some((1, 1));
      assert RecordPattern.ScanIp(s, 1, 2) == Some((3, 1, 1));
      assert !IsLineTerminator(s[1]);
      assert RecordPattern.ScanLead(s, 1) == Some(RecordPattern.Split(1, 2, 1, 1));
      assert IsLineTerminator(s[0]) && IsSpace(s[0]);
    }
    assert s[1..3] == "ab" && s[4..5] == "c";
  }

  /** A line starting with `#` that holds a carriage return is read as a record. */
  lemma CarriageReturnHashLine(line: string)
    requires line == "#x\rab c"
    ensures LineFormatter(line) == Some(Record("ab", "c"))
  {
    CarriageReturnStrip(line);
    CarriageReturnPattern("\rab c");
  }

  /** Three spaces make a record, so the decoder can keep an entry for a blank line. */
  lemma SpacesLineIsRecord()
    ensures LineFormatter("   ") == Some(Record(" ", " "))
  {
    BlankLineClassification("   ");
  }

  const LocalhostLine := "127.0.0.1 localhost"

  lemma LocalhostLineCharacters(line: string)
    requires line == LocalhostLine
    ensures NoTerminator(line, 0, |line|) && '#' !in line
    ensures forall m | 1 <= m < 9 :: !IsSpace(line[m])
    ensures AllSpace(line, 9, 10) && !IsSpace(line[10]) && !IsSpace(line[|line| - 1]) && AllSpace(line, |line|, |line|)
  {
  }

  lemma LocalhostLineSlices(line: string)
    requires line == LocalhostLine
    ensures line[..9] == "127.0.0.1" && line[10..|line|] == "localhost"
  {
    assert line[10..] == "localhost";
    assert line[10..|line|] == line[10..];
  }

  lemma LocalhostRecord(line: string)
    requires line == LocalhostLine
    ensures LineFormatter(line) == Some(Record("127.0.0.1", "localhost"))
  {
    LocalhostLineCharacters(line);
    LocalhostLineSlices(line);
    RecordPattern.GroupsOfSpacedRecord(line, 9, 1, |line|);
  }

  lemma CrLfFileSplits(content: string)
    requires content == "# hosts" + "\r\n" + LocalhostLine
    ensures LineSplit.SplitLines(content) == ["# hosts", LocalhostLine]
  {
    var pieces, breaks := ["# hosts", LocalhostLine], ["\r\n"];
    assert LineSplit.Interleave(pieces, breaks) == content by {
      assert pieces[1..] == [LocalhostLine] && breaks[1..] == [];
    }
    assert LineSplit.IsLineSplit(content, pieces, breaks);
    LineSplit.LineSplitIsUnique(content, pieces, breaks);
  }

  lemma DecodeTwoLines(a: string, b: string, ea: Entry, eb: Entry)
    requires LineFormatter(a) == Some(ea) && LineFormatter(b) == Some(eb)
    ensures DecodeLines([a, b]) == [ea, eb]
  {
    FilterMapCons(LineFormatter, a, [b]);
    FilterMapCons(LineFormatter, b, []);
    assert [a, b] == [a] + [b] && [b] == [b] + [];
  }

  lemma HostsCommentLine(line: string)
    requires line == "# hosts"
    ensures LineFormatter(line) == Some(Comment(line))
  {
    assert NoTerminator(line, 0, |line|);
    HashLineIsComment(line);
  }

  /** A CRLF file: the "\r" goes with the separator, the comment is kept verbatim, the record is split. */
  lemma DecodeCrLfFile(content: string)
    requires content == "# hosts" + "\r\n" + LocalhostLine
    ensures FileDecoder(content) == [Comment("# hosts"), Record("127.0.0.1", "localhost")]
  {
    CrLfFileSplits(content);
    HostsCommentLine("# hosts");
    LocalhostRecord(LocalhostLine);
    DecodeTwoLines("# hosts", LocalhostLine, Comment("# hosts"), Record("127.0.0.1", "localhost"));
  }
}
