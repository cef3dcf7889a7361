/** How `LibInfo` reads the one line `git log -1 --format=format:%h %H %cd`
    prints: three fixed regular expressions, each written out here as a
    matcher, and the table of revision properties built from their groups. */
module GitOutput {
  import opened Wrappers
  import opened JStrings
  import opened JavaTime
  import opened PropertiesWriter

  /** The property names `LibInfo` publishes. */
  const COMMIT_DATE_ISO: JString := Lit("commitDateISO")
  const COMMIT_DATE: JString := Lit("commitDate")
  const LONG_COMMIT_HASH: JString := Lit("longCommitHash")
  const SHORT_COMMIT_HASH: JString := Lit("shortCommitHash")
  const REPO_STATUS: JString := Lit("repoStatus")

  /** The length of a full commit hash, `{40}` in the pattern. */
  const LONG_HASH_LENGTH: nat := 40

  /** `[0-9a-f]`. */
  predicate IsLowerHex(c: Unit)
  {
    0x30 <= c <= 0x39 || 0x61 <= c <= 0x66
  }

  predicate AllLowerHex(s: JString)
  {
    forall i :: 0 <= i < |s| ==> IsLowerHex(s[i])
  }

  /** The units `.` does not match without `DOTALL`: `\n`, `\r`, U+0085,
      U+2028 and U+2029. */
  predicate IsLineTerminator(c: Unit)
  {
    c == LF || c == CR || c == 0x85 || c == 0x2028 || c == 0x2029
  }

  predicate NoTerminator(s: JString)
  {
    forall i :: 0 <= i < |s| ==> !IsLineTerminator(s[i])
  }

  /** `.*$` without `MULTILINE` matches all of `s`: `$` accepts the end of
      the input, or a last line terminator, or a last `\r\n`. */
  predicate RestOfLine(s: JString)
  {
    NoTerminator(s)
    || (|s| >= 1 && NoTerminator(s[..|s| - 1]) && IsLineTerminator(s[|s| - 1]))
    || (|s| >= 2 && NoTerminator(s[..|s| - 2]) && s[|s| - 2] == CR && s[|s| - 1] == LF)
  }

  /** The end of the run of `[0-9a-f]` starting at `i`. */
  function HexRunEnd(s: JString, i: nat): (r: nat)
    requires i <= |s|
    ensures i <= r <= |s|
    ensures forall k :: i <= k < r ==> IsLowerHex(s[k])
    ensures r < |s| ==> !IsLowerHex(s[r])
    decreases |s| - i
  {
    if i < |s| && IsLowerHex(s[i]) then HexRunEnd(s, i + 1) else i
  }

  /** The end of the run of units `.` matches, starting at `i`. */
  function LineEnd(s: JString, i: nat): (r: nat)
    requires i <= |s|
    ensures i <= r <= |s|
    ensures forall k :: i <= k < r ==> !IsLineTerminator(s[k])
    ensures r < |s| ==> IsLineTerminator(s[r])
    decreases |s| - i
  {
    if i < |s| && !IsLineTerminator(s[i]) then LineEnd(s, i + 1) else i
  }

  /** `^([0-9a-f]+) .*$`, group 1. The greedy run can only be followed by
      the space at its full length, so the group is the whole leading run. */
  function MatchShortHash(out: JString): (r: Option<JString>)
    ensures r.Some? ==> var h := r.value;
      h != [] && AllLowerHex(h) && |h| < |out| && out[..|h|] == h && out[|h|] == SPACE
      && RestOfLine(out[|h| + 1..])
  {
    var h := HexRunEnd(out, 0);
    if 0 < h < |out| && out[h] == SPACE && RestOfLine(out[h + 1..]) then Some(out[..h]) else None
  }

  /** The position after `[0-9a-f]+ [0-9a-f]{40} `, where both patterns that
      name the full hash go on with `.*$`. */
  function AfterLongHash(out: JString): (r: Option<nat>)
    ensures r.Some? ==> var n := r.value;
      LONG_HASH_LENGTH + 3 <= n <= |out|
      && AllLowerHex(out[..n - LONG_HASH_LENGTH - 2]) && out[n - LONG_HASH_LENGTH - 2] == SPACE
      && AllLowerHex(out[n - LONG_HASH_LENGTH - 1..n - 1]) && out[n - 1] == SPACE
      && RestOfLine(out[n..])
  {
    var h := HexRunEnd(out, 0);
    if 0 < h && h + LONG_HASH_LENGTH + 2 <= |out| && out[h] == SPACE
      && HexRunEnd(out, h + 1) >= h + 1 + LONG_HASH_LENGTH
      && out[h + 1 + LONG_HASH_LENGTH] == SPACE
      && RestOfLine(out[h + LONG_HASH_LENGTH + 2..])
    then Some(h + LONG_HASH_LENGTH + 2)
    else None
  }

  /** `^[0-9a-f]+ ([0-9a-f]{40}) .*$`, group 1. */
  function MatchLongHash(out: JString): (r: Option<JString>)
    ensures r.Some? ==> |r.value| == LONG_HASH_LENGTH && AllLowerHex(r.value)
  {
    match AfterLongHash(out)
    case None => None
    case Some(rest) => Some(out[rest - LONG_HASH_LENGTH - 1..rest - 1])
  }

  /** `^[0-9a-f]+ [0-9a-f]{40} (.*)$`, group 1: the greedy group stops at
      the first line terminator. */
  function MatchDate(out: JString): (r: Option<JString>)
    ensures r.Some? ==> NoTerminator(r.value)
  {
    match AfterLongHash(out)
    case None => None
    case Some(rest) => Some(out[rest..LineEnd(out, rest)])
  }

  /** The table `gitOutputToProperties` fills: the status, then whatever
      the three patterns capture, and the ISO form of a date that parses. */
  function RevisionProperties(output: JString, status: JString, t: TimeFormats): (p: Props)
    ensures REPO_STATUS in p
  {
    var p0 := map[REPO_STATUS := status];
    var p1 := match MatchShortHash(output)
      case Some(h) => p0[SHORT_COMMIT_HASH := h]
      case None => p0;
    var p2 := match MatchLongHash(output)
      case Some(h) => p1[LONG_COMMIT_HASH := h]
      case None => p1;
    match MatchDate(output)
    case Some(d) =>
      var withDate := p2[COMMIT_DATE := d];
      (match GitDateToIso(t, d)
       case Some(iso) => withDate[COMMIT_DATE_ISO := iso]
       case None => withDate)
    case None => p2
  }

  /** `gitOutputToProperties`: the revision properties of one log line. The
      `None` result (Java's `null`, with a "Could not match git output"
      error) is kept to show it never occurs: the status is always there. */
  function GitOutputToProperties(output: JString, status: JString, t: TimeFormats, errors: JString)
    : (r: (Option<Props>, JString))
    ensures r.0.Some? && r.1 == errors
  {
    var p := RevisionProperties(output, status, t);
    if |p| == 0 then
      (None, errors + Lit("Could not match git output '") + output + Lit("'"))
    else
      (Some(p), errors)
  }

  /** Line terminator free text in front of a rest of line is still one. */
  lemma RestOfLineAfter(a: JString, s: JString)
    requires NoTerminator(a) && RestOfLine(s)
    ensures RestOfLine(a + s)
  {
    var t := a + s;
    if NoTerminator(s) {
      assert forall i :: 0 <= i < |t| ==> t[i] == if i < |a| then a[i] else s[i - |a|];
    } else if |s| >= 1 && NoTerminator(s[..|s| - 1]) && IsLineTerminator(s[|s| - 1]) {
      assert t[..|t| - 1] == a + s[..|s| - 1];
      var u := t[..|t| - 1];
      assert forall i :: 0 <= i < |u| ==> u[i] == if i < |a| then a[i] else s[..|s| - 1][i - |a|];
    } else {
      assert t[..|t| - 2] == a + s[..|s| - 2];
      var u := t[..|t| - 2];
      assert forall i :: 0 <= i < |u| ==> u[i] == if i < |a| then a[i] else s[..|s| - 2][i - |a|];
    }
  }

  /** A run of lower-case hex digits followed by a space and a rest of line
      is what the short-hash pattern matches, with the run as its group. */
  lemma ShortHashOfLine(h: JString, rest: JString)
    requires h != [] && AllLowerHex(h) && RestOfLine(rest)
    ensures MatchShortHash(h + [SPACE] + rest) == Some(h)
  {
    var out := h + [SPACE] + rest;
    HexRunOf(out, h);
    assert out[|h| + 1..] == rest;
  }

  /** The hex run at the start of `h + [SPACE] + ...` is `h`. */
  lemma HexRunOf(out: JString, h: JString)
    requires AllLowerHex(h) && |h| < |out| && out[..|h|] == h && out[|h|] == SPACE
    ensures HexRunEnd(out, 0) == |h|
  {
    HexRunFrom(out, 0, |h|);
  }

  lemma {:induction false} HexRunFrom(out: JString, i: nat, n: nat)
    requires i <= n < |out| && out[n] == SPACE
    requires forall k :: i <= k < n ==> IsLowerHex(out[k])
    ensures HexRunEnd(out, i) == n
    decreases n - i
  {
    if i < n {
      HexRunFrom(out, i + 1, n);
    }
  }

  /** A full log line: the abbreviated hash, the full hash and the rest are
      what the two long patterns capture; the date stops at the first line
      terminator. */
  lemma LongHashOfLine(h: JString, l: JString, rest: JString)
    requires h != [] && AllLowerHex(h) && |l| == LONG_HASH_LENGTH && AllLowerHex(l) && RestOfLine(rest)
    ensures var out := h + [SPACE] + l + [SPACE] + rest;
      MatchLongHash(out) == Some(l) && MatchDate(out) == Some(rest[..LineEnd(rest, 0)])
    ensures NoTerminator(rest) ==> MatchDate(h + [SPACE] + l + [SPACE] + rest) == Some(rest)
  {
    var out := h + [SPACE] + l + [SPACE] + rest;
    var n := |h| + LONG_HASH_LENGTH + 2;
    AfterLongHashOfLine(out, h, l, rest);
    assert MatchLongHash(out) == Some(l) by {
      assert out[|h| + 1..n - 1] == l;
    }
    DateAfter(out, n, rest);
  }

  /** The date group is the rest up to its first line terminator. */
  lemma DateAfter(out: JString, n: nat, rest: JString)
    requires AfterLongHash(out) == Some(n) && out[n..] == rest
    ensures MatchDate(out) == Some(rest[..LineEnd(rest, 0)])
    ensures NoTerminator(rest) ==> MatchDate(out) == Some(rest)
  {
    LineEndShift(out, n, rest);
    assert out[n..n + LineEnd(rest, 0)] == rest[..LineEnd(rest, 0)];
    if NoTerminator(rest) {
      assert LineEnd(rest, 0) == |rest|;
      assert rest[..|rest|] == rest;
    }
  }

  lemma AfterLongHashOfLine(out: JString, h: JString, l: JString, rest: JString)
    requires h != [] && AllLowerHex(h) && |l| == LONG_HASH_LENGTH && AllLowerHex(l) && RestOfLine(rest)
    requires out == h + [SPACE] + l + [SPACE] + rest
    ensures AfterLongHash(out) == Some(|h| + LONG_HASH_LENGTH + 2) && out[|h| + LONG_HASH_LENGTH + 2..] == rest
  {
    var n := |h| + LONG_HASH_LENGTH + 2;
    HexRunOf(out, h);
    assert out[|h| + 1..n - 1] == l;
    HexRunFrom(out, |h| + 1, n - 1);
    assert out[n..] == rest;
  }

  lemma LineEndShift(out: JString, n: nat, rest: JString)
    requires n <= |out| && out[n..] == rest
    ensures LineEnd(out, n) == n + LineEnd(rest, 0)
  {
    LineEndShiftFrom(out, n, rest, 0);
  }

  lemma {:induction false} LineEndShiftFrom(out: JString, n: nat, rest: JString, i: nat)
    requires n <= |out| && out[n..] == rest && i <= |rest|
    ensures LineEnd(out, n + i) == n + LineEnd(rest, i)
    decreases |rest| - i
  {
    if i < |rest| {
      assert out[n + i] == rest[i];
      LineEndShiftFrom(out, n, rest, i + 1);
    }
  }

  /** Both long patterns match the same lines, and each such line also
      matches the short pattern. */
  lemma LongPatternsAgree(out: JString)
    ensures MatchLongHash(out).Some? <==> MatchDate(out).Some?
    ensures MatchLongHash(out).Some? ==> MatchShortHash(out).Some?
  {
    if AfterLongHash(out).Some? {
      var n := AfterLongHash(out).value;
      var h := n - LONG_HASH_LENGTH - 2;
      var mid := out[h + 1..n];
      var hx := out[h + 1..n - 1];
      assert mid == hx + [SPACE];
      forall i | 0 <= i < |mid|
        ensures !IsLineTerminator(mid[i])
      {
        if i < |hx| {
          assert mid[i] == hx[i];
        }
      }
      assert out[h + 1..] == mid + out[n..];
      RestOfLineAfter(mid, out[n..]);
      HexRunOf(out, out[..h]);
    }
  }

  /** What `gitOutputToProperties` publishes: the status always, the short
      hash exactly when the short pattern matches, the full hash and the
      commit date together exactly when the long patterns match, and the
      ISO date exactly when the commit date also parses. */
  lemma GitOutputProperties(output: JString, status: JString, t: TimeFormats)
    ensures var p := RevisionProperties(output, status, t);
      && (REPO_STATUS in p && p[REPO_STATUS] == status)
      && (SHORT_COMMIT_HASH in p <==> MatchShortHash(output).Some?)
      && (SHORT_COMMIT_HASH in p ==> p[SHORT_COMMIT_HASH] == MatchShortHash(output).value)
      && (LONG_COMMIT_HASH in p <==> MatchLongHash(output).Some?)
      && (LONG_COMMIT_HASH in p ==> p[LONG_COMMIT_HASH] == MatchLongHash(output).value)
      && (COMMIT_DATE in p <==> LONG_COMMIT_HASH in p)
      && (COMMIT_DATE in p ==> p[COMMIT_DATE] == MatchDate(output).value)
      && (LONG_COMMIT_HASH in p ==> SHORT_COMMIT_HASH in p)
      && (COMMIT_DATE_ISO in p <==> COMMIT_DATE in p && t.parseGitDate(p[COMMIT_DATE]).Some?)
      && (COMMIT_DATE_ISO in p ==> p[COMMIT_DATE_ISO] == t.formatIso(t.parseGitDate(p[COMMIT_DATE]).value))
      && (forall k :: k in p ==> k in {REPO_STATUS, SHORT_COMMIT_HASH, LONG_COMMIT_HASH, COMMIT_DATE, COMMIT_DATE_ISO})
  {
    PropertyNamesDistinct();
    LongPatternsAgree(output);
  }

  /** The five property names are distinct. */
  lemma PropertyNamesDistinct()
    ensures REPO_STATUS != SHORT_COMMIT_HASH && REPO_STATUS != LONG_COMMIT_HASH
    ensures REPO_STATUS != COMMIT_DATE && REPO_STATUS != COMMIT_DATE_ISO
    ensures SHORT_COMMIT_HASH != LONG_COMMIT_HASH && SHORT_COMMIT_HASH != COMMIT_DATE
    ensures SHORT_COMMIT_HASH != COMMIT_DATE_ISO && LONG_COMMIT_HASH != COMMIT_DATE
    ensures LONG_COMMIT_HASH != COMMIT_DATE_ISO && COMMIT_DATE != COMMIT_DATE_ISO
  {
    assert |REPO_STATUS| == 10 && |COMMIT_DATE| == 10;
    assert |SHORT_COMMIT_HASH| == 15 && |LONG_COMMIT_HASH| == 14 && |COMMIT_DATE_ISO| == 13;
    assert REPO_STATUS[0] == 0x72 && COMMIT_DATE[0] == 0x63;
  }
}
