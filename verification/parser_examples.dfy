/** The demo input at the end of bin/parser.js. */
module ParserExamples {
  import opened Wrappers
  import opened JsText
  import opened Parser
  import LineSplit

  /** The template literal `testHost`: it opens with a line break. */
  const TestHost := "" + "\n" + "# test comment" + "\n" + "127.0.0.1 localhost" + "\n" + "::1 localhost"
    + "\n" + "127.0.0.2 localhost2" + "\n" + "127.0.0.3 localhost3 jeason.com"

  const TestPieces: seq<string> := ["", "# test comment", "127.0.0.1 localhost", "::1 localhost", "127.0.0.2 localhost2", "127.0.0.3 localhost3 jeason.com"]

  const TestBreaks: seq<string> := ["\n", "\n", "\n", "\n", "\n"]

  /** Six pieces joined by five plain line feeds. */
  lemma InterleaveSix(a: string, b: string, c: string, d: string, e: string, f: string)
    ensures LineSplit.Interleave([a, b, c, d, e, f], TestBreaks) == a + "\n" + b + "\n" + c + "\n" + d + "\n" + e + "\n" + f
  {
    var nl: seq<string> := ["\n"];
    assert LineSplit.Interleave([e, f], nl) == e + "\n" + f by {
      assert [e, f][1..] == [f];
    }
    assert LineSplit.Interleave([d, e, f], nl + nl) == d + "\n" + (e + "\n" + f) by {
      assert [d, e, f][1..] == [e, f] && (nl + nl)[1..] == nl;
    }
    assert LineSplit.Interleave([c, d, e, f], nl + nl + nl) == c + "\n" + (d + "\n" + (e + "\n" + f)) by {
      assert [c, d, e, f][1..] == [d, e, f] && (nl + nl + nl)[1..] == nl + nl;
    }
    assert LineSplit.Interleave([b, c, d, e, f], nl + nl + nl + nl) == b + "\n" + (c + "\n" + (d + "\n" + (e + "\n" + f))) by {
      assert [b, c, d, e, f][1..] == [c, d, e, f] && (nl + nl + nl + nl)[1..] == nl + nl + nl;
    }
    assert TestBreaks == nl + nl + nl + nl + nl;
    assert [a, b, c, d, e, f][1..] == [b, c, d, e, f] && TestBreaks[1..] == nl + nl + nl + nl;
  }

  lemma TestPiecesRebuild()
    ensures LineSplit.Interleave(TestPieces, TestBreaks) == TestHost
  {
    InterleaveSix(TestPieces[0], TestPieces[1], TestPieces[2], TestPieces[3], TestPieces[4], TestPieces[5]);
    assert TestPieces == [TestPieces[0], TestPieces[1], TestPieces[2], TestPieces[3], TestPieces[4], TestPieces[5]];
  }

  lemma TestPiecesShape()
    ensures forall i | 0 <= i < |TestPieces| :: '\n' !in TestPieces[i]
    ensures forall i | 0 <= i < |TestBreaks| :: !LineSplit.EndsWithCr(TestPieces[i])
  {
  }

  lemma TestHostSplits(s: string)
    requires s == TestHost
    ensures LineSplit.SplitLines(s) == TestPieces
  {
    TestPiecesRebuild();
    TestPiecesShape();
    assert LineSplit.IsLineSplit(s, TestPieces, TestBreaks);
    LineSplit.LineSplitIsUnique(s, TestPieces, TestBreaks);
  }

  lemma TestPiecesBlankness()
    ensures !HasNonSpace(TestPieces[0])
    ensures forall i | 1 <= i < |TestPieces| :: HasNonSpace(TestPieces[i])
  {
    forall i | 1 <= i < |TestPieces| ensures HasNonSpace(TestPieces[i]) {
      assert !IsSpace(TestPieces[i][0]);
    }
  }

  /** `splitLine(testHost)` drops the leading empty line and keeps the five others in order. */
  lemma DemoSplitLine(s: string)
    requires s == TestHost
    ensures SplitLine(s, DefaultEol) == TestPieces[1..]
  {
    TestHostSplits(s);
    TestPiecesBlankness();
    var ps := TestPieces;
    assert forall i | 0 <= i < |ps[1..]| :: HasNonSpace(ps[1..][i]);
    KeepNonBlankIsIdentity(ps[1..]);
    assert KeepNonBlank(ps) == KeepNonBlank(ps[1..]);
  }
}
