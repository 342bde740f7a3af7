/**
 * The host-record pattern `^\s*?(.+?)\s+(.+?)\s*$` of bin/core.js, under the
 * ECMAScript backtracking semantics, and a hand-written matcher proved to
 * return exactly the match the engine returns.
 *
 * A match reads the subject as  lead · ip · gap · host · trail, where lead,
 * gap and trail are `\s` runs (gap non-empty) and ip and host are non-empty
 * runs of characters other than line terminators.  The engine tries the
 * lazy lead shortest first, then the lazy ip shortest first, then the greedy
 * gap longest first, then the lazy host shortest first; the greedy trail
 * only has to reach the end.  So the reported match is the first valid
 * reading in that order.
 */
module RecordPattern {
  import opened Wrappers
  import opened JsText

  /** A reading of the subject, given by the lengths of its first four parts. */
  datatype Split = Split(lead: nat, ipLen: nat, gap: nat, hostLen: nat) {
    function IpEnd(): nat { lead + ipLen }
    function HostStart(): nat { lead + ipLen + gap }
    function HostEnd(): nat { lead + ipLen + gap + hostLen }
  }

  /** `\s+(.+?)\s*$` matches s from j on, with the given gap and host lengths. */
  predicate ValidTail(s: string, j: nat, gap: nat, hostLen: nat) {
    && gap >= 1 && hostLen >= 1 && j + gap + hostLen <= |s|
    && AllSpace(s, j, j + gap)
    && NoTerminator(s, j + gap, j + gap + hostLen)
    && AllSpace(s, j + gap + hostLen, |s|)
  }

  /** The whole pattern matches s as the reading t. */
  predicate Valid(s: string, t: Split) {
    && t.ipLen >= 1 && t.lead + t.ipLen <= |s|
    && AllSpace(s, 0, t.lead)
    && NoTerminator(s, t.lead, t.IpEnd())
    && ValidTail(s, t.IpEnd(), t.gap, t.hostLen)
  }

  /** The greedy gap is tried longest first, then the lazy host shortest first. */
  predicate TailBefore(gap: nat, hostLen: nat, gap': nat, hostLen': nat) {
    gap > gap' || (gap == gap' && hostLen < hostLen')
  }

  /** The engine tries reading t before reading u. */
  predicate Before(t: Split, u: Split) {
    || t.lead < u.lead
    || (t.lead == u.lead && t.ipLen < u.ipLen)
    || (t.lead == u.lead && t.ipLen == u.ipLen && TailBefore(t.gap, t.hostLen, u.gap, u.hostLen))
  }

  /** t is the match the engine reports: valid, and tried before every other valid reading. */
  ghost predicate IsFirstMatch(s: string, t: Split) {
    Valid(s, t) && forall u | Valid(s, u) :: u == t || Before(t, u)
  }

  ghost predicate HasTail(s: string, j: nat) {
    exists gap: nat, hostLen: nat :: ValidTail(s, j, gap, hostLen)
  }

  /**
   * The first tail match from j, in closed form.  If a non-space follows the
   * longest gap, the host runs from it to the last non-space of s; otherwise
   * the gap must give back characters and the host is the last character
   * after j that is not a line terminator.
   */
  function MatchTail(s: string, j: nat): (r: Option<(nat, nat)>)
    requires j <= |s|
    ensures r.Some? ==> ValidTail(s, j, r.value.0, r.value.1)
  {
    var run := SpaceRun(s, j);
    if run == 0 then None
    else if j + run < |s| then
      var e := TrimmedEnd(s, |s|);
      assert !IsSpace(s[j + run]);
      if NoTerminator(s, j + run, e) then Some((run, e - (j + run))) else None
    else
      match LastNonTerminator(s, j + 1, |s|)
      case Some(b) => Some((b - j, 1))
      case None => None
  }

  lemma MatchTailIsFirst(s: string, j: nat)
    requires j <= |s|
    ensures MatchTail(s, j).None? ==> !HasTail(s, j)
    ensures MatchTail(s, j).Some? ==>
      forall g: nat, h: nat | ValidTail(s, j, g, h) ::
        (g, h) == MatchTail(s, j).value || TailBefore(MatchTail(s, j).value.0, MatchTail(s, j).value.1, g, h)
  {
    var run := SpaceRun(s, j);
    forall g: nat, h: nat | ValidTail(s, j, g, h)
      ensures MatchTail(s, j).Some?
      ensures (g, h) == MatchTail(s, j).value || TailBefore(MatchTail(s, j).value.0, MatchTail(s, j).value.1, g, h)
    {
      assert g <= run by {
        if j + run < |s| { assert !IsSpace(s[j + run]); }
      }
      if j + run < |s| {
        var e := TrimmedEnd(s, |s|);
        assert !IsSpace(s[j + run]);
        assert j + run < e;
        assert !IsSpace(s[e - 1]);
        assert e <= j + g + h;
        assert NoTerminator(s, j + run, e) by {
          forall i | j + run <= i < e ensures !IsLineTerminator(s[i]) {
            assert j + g <= i < j + g + h;
          }
        }
      } else {
        assert !IsLineTerminator(s[j + g]);
        var b := LastNonTerminator(s, j + 1, |s|);
        assert b.Some?;
      }
    }
  }

  /** Tries ip = s[a..j], s[a..j+1], ... in turn, as the lazy `(.+?)` does. */
  function ScanIp(s: string, a: nat, j: nat): (r: Option<(nat, nat, nat)>)
    requires a < j <= |s| && NoTerminator(s, a, j)
    ensures r.Some? ==> j <= r.value.0 && ValidTail(s, r.value.0, r.value.1, r.value.2)
    ensures r.Some? ==> NoTerminator(s, a, r.value.0)
    decreases |s| - j
  {
    if j == |s| then None
    else
      match MatchTail(s, j)
      case Some((g, h)) => Some((j, g, h))
      case None => if IsLineTerminator(s[j]) then None else ScanIp(s, a, j + 1)
  }

  lemma {:induction false} ScanIpIsFirst(s: string, a: nat, j: nat)
    requires a < j <= |s| && NoTerminator(s, a, j)
    ensures ScanIp(s, a, j).Some? ==>
      var (j', g, h) := ScanIp(s, a, j).value;
      && (forall m | j <= m < j' :: !HasTail(s, m))
      && (forall g': nat, h': nat | ValidTail(s, j', g', h') :: (g', h') == (g, h) || TailBefore(g, h, g', h'))
    ensures ScanIp(s, a, j).None? ==>
      forall m | j <= m <= |s| && NoTerminator(s, a, m) :: !HasTail(s, m)
    decreases |s| - j
  {
    if j == |s| {
      forall m | j <= m <= |s| && NoTerminator(s, a, m) ensures !HasTail(s, m) {
        assert m == |s|;
      }
    } else {
      MatchTailIsFirst(s, j);
      if MatchTail(s, j).None? && !IsLineTerminator(s[j]) {
        ScanIpIsFirst(s, a, j + 1);
      } else if MatchTail(s, j).None? {
        forall m | j <= m <= |s| && NoTerminator(s, a, m) ensures !HasTail(s, m) {
          assert IsLineTerminator(s[j]);
        }
      }
    }
  }

  /** Tries lead = 0, 1, ... in turn, as the lazy `^\s*?` does. */
  function ScanLead(s: string, a: nat): (r: Option<Split>)
    requires a <= |s| && AllSpace(s, 0, a)
    ensures r.Some? ==> a <= r.value.lead && Valid(s, r.value)
    decreases |s| - a
  {
    if a == |s| then None
    else
      var here: Option<(nat, nat, nat)> := if IsLineTerminator(s[a]) then None else ScanIp(s, a, a + 1);
      match here
      case Some((j, g, h)) => Some(Split(a, j - a, g, h))
      case None => if IsSpace(s[a]) then ScanLead(s, a + 1) else None
  }

  /** A valid reading whose lead is exactly a is found by the ip scan from a, or follows the one it finds. */
  lemma ScanLeadHere(s: string, a: nat, u: Split)
    requires a < |s| && AllSpace(s, 0, a)
    requires Valid(s, u) && u.lead == a
    ensures ScanLead(s, a).Some?
    ensures u == ScanLead(s, a).value || Before(ScanLead(s, a).value, u)
  {
    assert !IsLineTerminator(s[a]);
    ScanIpFinds(s, a, a + 1, u.IpEnd(), u.gap, u.hostLen);
  }

  /** A valid tail after an ip from a is found by the ip scan, or comes after what it finds. */
  lemma ScanIpFinds(s: string, a: nat, j: nat, m: nat, g: nat, h: nat)
    requires a < j <= m <= |s| && NoTerminator(s, a, m)
    requires ValidTail(s, m, g, h)
    ensures ScanIp(s, a, j).Some?
    ensures var (j', g', h') := ScanIp(s, a, j).value;
      j' < m || (j' == m && ((g', h') == (g, h) || TailBefore(g', h', g, h)))
  {
    assert HasTail(s, m);
    ScanIpIsFirst(s, a, j);
  }

  /** When the ip scan from a finds nothing, no valid reading has lead a. */
  lemma ScanLeadNotHere(s: string, a: nat)
    requires a < |s| && AllSpace(s, 0, a)
    requires IsLineTerminator(s[a]) || ScanIp(s, a, a + 1).None?
    ensures forall u | Valid(s, u) :: u.lead != a
  {
    forall u | Valid(s, u) && u.lead == a ensures false {
      ScanLeadHere(s, a, u);
    }
  }

  lemma {:induction false} ScanLeadIsFirst(s: string, a: nat)
    requires a <= |s| && AllSpace(s, 0, a)
    ensures ScanLead(s, a).Some? ==>
      forall u | Valid(s, u) && a <= u.lead :: u == ScanLead(s, a).value || Before(ScanLead(s, a).value, u)
    ensures ScanLead(s, a).None? ==> forall u | Valid(s, u) :: u.lead < a
    decreases |s| - a
  {
    if a < |s| {
      var found := !IsLineTerminator(s[a]) && ScanIp(s, a, a + 1).Some?;
      if !found {
        ScanLeadNotHere(s, a);
        if IsSpace(s[a]) {
          ScanLeadIsFirst(s, a + 1);
        } else {
          assert forall u | Valid(s, u) :: u.lead <= a;
        }
      } else {
        forall u | Valid(s, u) && a <= u.lead
          ensures u == ScanLead(s, a).value || Before(ScanLead(s, a).value, u)
        {
          if u.lead == a {
            ScanLeadHere(s, a, u);
          }
        }
      }
    }
  }

  /** `exec` of the pattern on s: the reading it reports, if any. */
  function Exec(s: string): (r: Option<Split>)
    ensures r.Some? ==> Valid(s, r.value)
  {
    ScanLead(s, 0)
  }

  /** Exec reports a match exactly when the pattern matches, and then the engine's one. */
  lemma ExecIsFirstMatch(s: string)
    ensures Exec(s).Some? ==> IsFirstMatch(s, Exec(s).value)
    ensures Exec(s).None? <==> forall u :: !Valid(s, u)
  {
    ScanLeadIsFirst(s, 0);
  }

  /** The two capture groups of the reported match. */
  function Groups(s: string): (r: Option<(string, string)>)
    ensures r.Some? ==> |r.value.0| >= 1 && |r.value.1| >= 1
  {
    match Exec(s)
    case None => None
    case Some(t) => Some((s[t.lead..t.IpEnd()], s[t.HostStart()..t.HostEnd()]))
  }

  /*
   * On a subject without line terminators `.` matches every character, and
   * the match takes a simple shape.
   */

  /** Without line terminators the pattern matches iff s has `\s` at an index in [1, |s|-2]. */
  lemma {:induction false} MatchesIffInnerSpace(s: string)
    requires NoTerminator(s, 0, |s|)
    ensures Exec(s).Some? <==> exists i | 1 <= i <= |s| - 2 :: IsSpace(s[i])
  {
    ExecIsFirstMatch(s);
    if i :| 1 <= i <= |s| - 2 && IsSpace(s[i]) {
      assert Valid(s, Split(0, i, 1, |s| - i - 1));
    }
    if Exec(s).Some? {
      var t := Exec(s).value;
      assert IsSpace(s[t.IpEnd()]);
    }
  }

  /** The reported match is tried before any other valid reading u. */
  lemma FirstMatchBeats(s: string, t: Split, u: Split)
    requires IsFirstMatch(s, t)
    ensures Valid(s, u) ==> u == t || Before(t, u)
  {
  }

  lemma FirstMatchHasNoLead(s: string, t: Split)
    requires NoTerminator(s, 0, |s|) && IsFirstMatch(s, t)
    ensures t.lead == 0
  {
    var u := Split(0, t.IpEnd(), t.gap, t.hostLen);
    FirstMatchBeats(s, t, u);
    assert Valid(s, u);
  }

  lemma FirstMatchIpHasNoInnerSpace(s: string, t: Split, m: nat)
    requires NoTerminator(s, 0, |s|) && IsFirstMatch(s, t) && t.lead == 0
    requires 1 <= m < t.ipLen
    ensures !IsSpace(s[m])
  {
    var u := Split(0, m, 1, |s| - m - 1);
    FirstMatchBeats(s, t, u);
    assert u != t && !Before(t, u);
  }

  /** A host that starts with `\s` can hand that character to the gap. */
  lemma WiderGapIsValid(s: string, t: Split)
    requires Valid(s, t) && t.hostLen >= 2
    ensures IsSpace(s[t.HostStart()]) ==> Valid(s, Split(t.lead, t.ipLen, t.gap + 1, t.hostLen - 1))
  {
    if IsSpace(s[t.HostStart()]) {
      var u := Split(t.lead, t.ipLen, t.gap + 1, t.hostLen - 1);
      assert AllSpace(s, u.IpEnd(), u.HostStart());
      assert NoTerminator(s, u.HostStart(), u.HostEnd());
    }
  }

  /** A host that ends with `\s` can hand that character to the trail. */
  lemma ShorterHostIsValid(s: string, t: Split)
    requires Valid(s, t) && t.hostLen >= 2
    ensures IsSpace(s[t.HostEnd() - 1]) ==> Valid(s, Split(t.lead, t.ipLen, t.gap, t.hostLen - 1))
  {
    if IsSpace(s[t.HostEnd() - 1]) {
      var u := Split(t.lead, t.ipLen, t.gap, t.hostLen - 1);
      assert AllSpace(s, u.HostEnd(), |s|);
      assert NoTerminator(s, u.HostStart(), u.HostEnd());
    }
  }

  lemma FirstMatchHostEdges(s: string, t: Split)
    requires IsFirstMatch(s, t)
    requires t.hostLen >= 2
    ensures !IsSpace(s[t.HostStart()]) && !IsSpace(s[t.HostEnd() - 1])
  {
    var wider := Split(t.lead, t.ipLen, t.gap + 1, t.hostLen - 1);
    WiderGapIsValid(s, t);
    FirstMatchBeats(s, t, wider);
    assert wider != t && !Before(t, wider);
    var shorter := Split(t.lead, t.ipLen, t.gap, t.hostLen - 1);
    ShorterHostIsValid(s, t);
    FirstMatchBeats(s, t, shorter);
    assert shorter != t && !Before(t, shorter);
  }

  lemma FirstMatchSpaceOnlyHost(s: string, t: Split)
    requires NoTerminator(s, 0, |s|) && IsFirstMatch(s, t)
    requires AllSpace(s, t.IpEnd(), |s|)
    ensures t.hostLen == 1 && t.HostStart() == |s| - 1
  {
    var widest := Split(t.lead, t.ipLen, |s| - 1 - t.IpEnd(), 1);
    FirstMatchBeats(s, t, widest);
  }

  /** Without line terminators, ip is s up to the first `\s` after index 0. */
  lemma GroupsIpWithoutTerminators(s: string, ip: string, host: string)
    requires NoTerminator(s, 0, |s|)
    requires Groups(s) == Some((ip, host))
    ensures 1 <= |ip| < |s| && ip == s[..|ip|] && IsSpace(s[|ip|])
    ensures forall m | 1 <= m < |ip| :: !IsSpace(ip[m])
  {
    ExecIsFirstMatch(s);
    var t := Exec(s).value;
    FirstMatchHasNoLead(s, t);
    forall m | 1 <= m < t.ipLen ensures !IsSpace(ip[m]) {
      FirstMatchIpHasNoInnerSpace(s, t, m);
    }
  }

  /** The host group of the first match, with t's lead and ip already known. */
  lemma FirstMatchHost(s: string, t: Split)
    requires NoTerminator(s, 0, |s|) && IsFirstMatch(s, t)
    ensures var k, g, host := t.IpEnd(), t.HostStart(), s[t.HostStart()..t.HostEnd()];
      && (!AllSpace(s, k, |s|) ==> !IsSpace(host[0]) && !IsSpace(host[|host| - 1]))
      && (AllSpace(s, k, |s|) ==> host == [s[|s| - 1]])
  {
    var k, g := t.IpEnd(), t.HostStart();
    if t.hostLen >= 2 {
      FirstMatchHostEdges(s, t);
    }
    if AllSpace(s, k, |s|) {
      FirstMatchSpaceOnlyHost(s, t);
    } else if t.hostLen == 1 {
      assert IsSpace(s[g]) ==> AllSpace(s, k, |s|);
    }
  }

  /** The host of a first match without line terminators, given ip's end k. */
  lemma FirstMatchHostFramed(s: string, t: Split, k: nat, host: string)
    requires NoTerminator(s, 0, |s|) && IsFirstMatch(s, t)
    requires k == t.IpEnd() && host == s[t.HostStart()..t.HostEnd()]
    ensures 1 <= |host|
    ensures exists g | k < g <= |s| - |host| ::
      AllSpace(s, k, g) && host == s[g..g + |host|] && AllSpace(s, g + |host|, |s|)
    ensures !AllSpace(s, k, |s|) ==> !IsSpace(host[0]) && !IsSpace(host[|host| - 1])
    ensures AllSpace(s, k, |s|) ==> host == [s[|s| - 1]]
  {
    var g := t.HostStart();
    assert ValidTail(s, k, t.gap, t.hostLen);
    assert AllSpace(s, k, g) && AllSpace(s, g + |host|, |s|);
    FirstMatchHost(s, t);
  }

  /** Without line terminators, host follows a `\s` run and is followed by one. */
  lemma GroupsHostWithoutTerminators(s: string, ip: string, host: string)
    requires NoTerminator(s, 0, |s|)
    requires Groups(s) == Some((ip, host))
    ensures 1 <= |host|
    ensures exists g | |ip| < g <= |s| - |host| ::
      AllSpace(s, |ip|, g) && host == s[g..g + |host|] && AllSpace(s, g + |host|, |s|)
    ensures !AllSpace(s, |ip|, |s|) ==> !IsSpace(host[0]) && !IsSpace(host[|host| - 1])
    ensures AllSpace(s, |ip|, |s|) ==> host == [s[|s| - 1]]
  {
    ExecIsFirstMatch(s);
    var t := Exec(s).value;
    FirstMatchHasNoLead(s, t);
    assert |ip| == t.IpEnd() && host == s[t.HostStart()..t.HostEnd()];
    FirstMatchHostFramed(s, t, |ip|, host);
  }

  /**
   * Without line terminators, the match has no lead, so ip is s up to the
   * first `\s` after index 0; host follows a `\s` run and is what is left
   * once trailing `\s` is cut, or, when only `\s` follows ip, the single
   * last character of s.
   */
  lemma GroupsWithoutTerminators(s: string, ip: string, host: string)
    requires NoTerminator(s, 0, |s|)
    requires Groups(s) == Some((ip, host))
    ensures 1 <= |ip| < |s| && ip == s[..|ip|] && IsSpace(s[|ip|])
    ensures forall m | 1 <= m < |ip| :: !IsSpace(ip[m])
    ensures 1 <= |host|
    ensures exists g | |ip| < g <= |s| - |host| ::
      AllSpace(s, |ip|, g) && host == s[g..g + |host|] && AllSpace(s, g + |host|, |s|)
    ensures !AllSpace(s, |ip|, |s|) ==> !IsSpace(host[0]) && !IsSpace(host[|host| - 1])
    ensures AllSpace(s, |ip|, |s|) ==> host == [s[|s| - 1]]
  {
    GroupsIpWithoutTerminators(s, ip, host);
    GroupsHostWithoutTerminators(s, ip, host);
  }

  /**
   * The usual record line: ip is s[..i], ending at the first `\s` after
   * index 0; a gap of w `\s` characters follows; host runs from there to
   * the last non-space e of s.
   */
  lemma GroupsOfSpacedRecord(s: string, i: nat, w: nat, e: nat)
    requires NoTerminator(s, 0, |s|)
    requires 1 <= i && 1 <= w && i + w < e <= |s|
    requires forall m | 1 <= m < i :: !IsSpace(s[m])
    requires AllSpace(s, i, i + w) && !IsSpace(s[i + w])
    requires !IsSpace(s[e - 1]) && AllSpace(s, e, |s|)
    ensures Groups(s) == Some((s[..i], s[i + w..e]))
  {
    MatchesIffInnerSpace(s);
    assert IsSpace(s[i]);
    var (ip, host) := Groups(s).value;
    GroupsIpWithoutTerminators(s, ip, host);
    assert |ip| == i by {
      assert IsSpace(s[|ip|]);
      assert forall m | 1 <= m < |ip| :: s[m] == ip[m];
    }
    assert !AllSpace(s, i, |s|) by { assert !IsSpace(s[i + w]); }
    GroupsHostWithoutTerminators(s, ip, host);
    HostOfSpacedRecord(s, i, w, e, host);
  }

  /** A `\s` run from i that reaches a non-space ends exactly there. */
  lemma SpaceRunEnd(s: string, i: nat, g: nat, j: nat)
    requires i <= g < |s| && i <= j < |s|
    requires AllSpace(s, i, g) && !IsSpace(s[g])
    requires AllSpace(s, i, j) && !IsSpace(s[j])
    ensures g == j
  {
  }

  /** A `\s` suffix that starts right after a non-space starts exactly there. */
  lemma SpaceTailStart(s: string, f: nat, e: nat)
    requires 1 <= f <= |s| && 1 <= e <= |s|
    requires AllSpace(s, f, |s|) && !IsSpace(s[f - 1])
    requires AllSpace(s, e, |s|) && !IsSpace(s[e - 1])
    ensures f == e
  {
  }

  /** A host framed by `\s` runs, starting and ending with non-spaces, is s[i + w..e]. */
  lemma HostOfSpacedRecord(s: string, i: nat, w: nat, e: nat, host: string)
    requires 1 <= i && i + w < e <= |s|
    requires AllSpace(s, i, i + w) && !IsSpace(s[i + w])
    requires !IsSpace(s[e - 1]) && AllSpace(s, e, |s|)
    requires 1 <= |host| && !IsSpace(host[0]) && !IsSpace(host[|host| - 1])
    requires exists g | i < g <= |s| - |host| ::
      AllSpace(s, i, g) && host == s[g..g + |host|] && AllSpace(s, g + |host|, |s|)
    ensures host == s[i + w..e]
  {
    var g :| i < g <= |s| - |host| && AllSpace(s, i, g) && host == s[g..g + |host|] && AllSpace(s, g + |host|, |s|);
    assert !IsSpace(s[g]) && !IsSpace(s[g + |host| - 1]) by {
      assert host[0] == s[g] && host[|host| - 1] == s[g + |host| - 1];
    }
    SpaceRunEnd(s, i, g, i + w);
    SpaceTailStart(s, g + |host|, e);
  }
}
