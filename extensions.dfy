/**
  `StringExtensions.EverythingBetween` (DrLight/Extensions.cs): every capture
  of the .NET regular expression `start(.+?)end`, where `start` and `end` are
  escaped, so matched literally.

  The regex engine's scan is specified here directly for this one shape:
  a match begins at the leftmost position where `start` occurs and is followed
  by a capture of at least one character, none of them '\n' (the `.` class),
  that is immediately followed by `end`; the lazy `+?` picks the shortest such
  capture; the next match is searched from the end of the previous one.
*/
module Extensions {
  import opened Wrappers
  import opened Strings

  /**
    A match as `Regex.Matches` reports it: `start` at `at`, the capture
    `value` (`Groups[1].Value`) up to `stop`, `end` from `stop` on.
  */
  datatype Match = Match(at: nat, stop: nat, value: string)

  /** No character of `s` is a line feed. */
  predicate NoNewline(s: string)
  {
    forall k :: 0 <= k < |s| ==> s[k] != '\n'
  }

  /** A prefix of a text without line feeds has none either. */
  lemma NoNewlinePrefix(t: string, k: nat)
    requires NoNewline(t) && k <= |t|
    ensures NoNewline(t[..k])
  {
    assert forall j :: 0 <= j < k ==> t[..k][j] == t[j];
  }

  /** A capture that starts at `c` may end at `e`: it is non-empty, crosses no '\n', and `end` follows it. */
  predicate IsCaptureEnd(s: string, c: int, end: string, e: int)
  {
    0 <= c < e <= |s| && NoNewline(s[c..e]) && OccursAt(s, end, e)
  }

  /** Some capture starting at `c` can end. */
  ghost predicate HasCaptureFrom(s: string, c: int, end: string)
  {
    exists e :: IsCaptureEnd(s, c, end, e)
  }

  /** `e` is the first end a capture starting at `c` can have. */
  predicate IsShortestCapture(s: string, c: int, end: string, e: int)
  {
    IsCaptureEnd(s, c, end, e) && forall e' :: c < e' < e ==> !IsCaptureEnd(s, c, end, e')
  }

  /** The pattern matches at position `i`. */
  ghost predicate HasMatchAt(s: string, start: string, end: string, i: int)
  {
    OccursAt(s, start, i) && HasCaptureFrom(s, i + |start|, end)
  }

  /** `m` is the match the engine reports at `m.at`: the capture is the shortest possible. */
  predicate IsMatch(s: string, start: string, end: string, m: Match)
  {
    && OccursAt(s, start, m.at)
    && IsShortestCapture(s, m.at + |start|, end, m.stop)
    && m.value == s[m.at + |start|..m.stop]
  }

  /**
    The lazy quantifier: trying capture ends `e`, `e + 1`, … after a capture
    start `c`, the first end that `end` follows, unless a '\n' or the end of
    the text comes first.
  */
  function LazyEnd(s: string, end: string, e: nat): (r: Option<nat>)
    requires 0 < e
    ensures r.Some? ==> e <= r.value && OccursAt(s, end, r.value)
    decreases |s| + 1 - e
  {
    if |s| < e || s[e - 1] == '\n' then None
    else if OccursAt(s, end, e) then Some(e)
    else LazyEnd(s, end, e + 1)
  }

  /** `LazyEnd` finds the first end a capture can have, and reports None only when there is none. */
  lemma {:induction false} LazyEndIsShortest(s: string, c: nat, end: string, e: nat)
    requires c < e && (e - 1 <= |s| ==> NoNewline(s[c..e - 1]))
    ensures var r := LazyEnd(s, end, e);
      && (r.Some? ==> IsCaptureEnd(s, c, end, r.value))
      && (r.Some? ==> forall e' :: e <= e' < r.value ==> !IsCaptureEnd(s, c, end, e'))
      && (r.None? ==> forall e' :: e <= e' ==> !IsCaptureEnd(s, c, end, e'))
    decreases |s| + 1 - e
  {
    if |s| < e || s[e - 1] == '\n' {
      forall e' | e <= e' <= |s|
        ensures !NoNewline(s[c..e'])
      {
        assert s[c..e'][e - 1 - c] == '\n';
      }
    } else {
      assert NoNewline(s[c..e]) by {
        forall k | 0 <= k < e - c
          ensures s[c..e][k] != '\n'
        {
          if k < e - 1 - c {
            assert s[c..e][k] == s[c..e - 1][k];
          }
        }
      }
      if !OccursAt(s, end, e) {
        LazyEndIsShortest(s, c, end, e + 1);
      }
    }
  }

  /** The match the engine reports when it tries position `p`, if the pattern matches there. */
  function MatchAt(s: string, start: string, end: string, p: nat): (r: Option<Match>)
    ensures r.Some? ==> r.value.at == p && p + |start| < r.value.stop && r.value.stop + |end| <= |s|
  {
    if OccursAt(s, start, p) then
      var c := p + |start|;
      match LazyEnd(s, end, c + 1)
      case Some(e) => Some(Match(p, e, s[c..e]))
      case None => None
    else None
  }

  /** `MatchAt` reports a match exactly where the pattern matches, and the match it reports is the engine's. */
  lemma MatchAtIsMatch(s: string, start: string, end: string, p: nat)
    ensures var r := MatchAt(s, start, end, p);
      && (r.Some? <==> HasMatchAt(s, start, end, p))
      && (r.Some? ==> IsMatch(s, start, end, r.value))
  {
    if OccursAt(s, start, p) {
      var c := p + |start|;
      assert s[c..c] == [];
      LazyEndIsShortest(s, c, end, c + 1);
    }
  }

  /** The engine's next match at or after position `p`, or None when no position from `p` on matches. */
  function FirstMatch(s: string, start: string, end: string, p: nat): (r: Option<Match>)
    ensures r.Some? ==> p <= r.value.at && r.value.at + |start| < r.value.stop && r.value.stop + |end| <= |s|
    decreases |s| + 1 - p
  {
    if |s| < p then None
    else
      var here := MatchAt(s, start, end, p);
      if here.Some? then here else FirstMatch(s, start, end, p + 1)
  }

  /** What `FirstMatch` reports is a match of the pattern. */
  lemma {:induction false} FirstMatchIsMatch(s: string, start: string, end: string, p: nat)
    ensures var r := FirstMatch(s, start, end, p);
      r.Some? ==> IsMatch(s, start, end, r.value)
    decreases |s| + 1 - p
  {
    if |s| >= p {
      if MatchAt(s, start, end, p).Some? {
        MatchAtIsMatch(s, start, end, p);
      } else {
        FirstMatchIsMatch(s, start, end, p + 1);
      }
    }
  }

  /** `FirstMatch` reports the leftmost match from `p` on, and None only when there is none. */
  lemma {:induction false} FirstMatchIsLeftmost(s: string, start: string, end: string, p: nat)
    ensures var r := FirstMatch(s, start, end, p);
      && (r.Some? ==> IsMatch(s, start, end, r.value))
      && (r.Some? ==> forall i :: p <= i < r.value.at ==> !HasMatchAt(s, start, end, i))
      && (r.None? ==> forall i :: p <= i ==> !HasMatchAt(s, start, end, i))
    decreases |s| + 1 - p
  {
    if |s| < p {
      assert forall i :: p <= i ==> !OccursAt(s, start, i);
    } else {
      MatchAtIsMatch(s, start, end, p);
      if MatchAt(s, start, end, p).None? {
        FirstMatchIsLeftmost(s, start, end, p + 1);
      }
    }
  }

  /** Positions where `start` does not occur are passed over. */
  lemma {:induction false} FirstMatchSkips(s: string, start: string, end: string, p: nat, k: nat)
    requires p <= k <= |s|
    requires forall i :: p <= i < k ==> !OccursAt(s, start, i)
    ensures FirstMatch(s, start, end, p) == FirstMatch(s, start, end, k)
    decreases k - p
  {
    if p < k {
      FirstMatchSkips(s, start, end, p + 1, k);
    }
  }

  /** `Regex.Matches`: every match the engine reports when it scans from `p`, in order. */
  function Matches(s: string, start: string, end: string, p: nat): seq<Match>
    decreases |s| + 1 - p
  {
    match FirstMatch(s, start, end, p)
    case None => []
    case Some(m) => [m] + Matches(s, start, end, m.stop + |end|)
  }

  /** The value of `EverythingBetween(source, start, end)`: the captures of all matches. */
  function Captures(source: string, start: string, end: string): seq<string>
  {
    var ms := Matches(source, start, end, 0);
    seq(|ms|, k requires 0 <= k < |ms| => ms[k].value)
  }

  /** A scan reports a match exactly when one is found from where it starts. */
  lemma MatchesNonEmpty(s: string, start: string, end: string, p: nat)
    ensures |Matches(s, start, end, p)| > 0 <==> FirstMatch(s, start, end, p).Some?
  {
  }

  /** A scan that finds a match reports it, then scans on from its end. */
  lemma MatchesUnfold(s: string, start: string, end: string, p: nat)
    requires FirstMatch(s, start, end, p).Some?
    ensures var m := FirstMatch(s, start, end, p).value;
      Matches(s, start, end, p) == [m] + Matches(s, start, end, m.stop + |end|)
  {
  }

  /** Each match the scan from `p` reports is a match of the pattern, at or after `p`. */
  lemma {:induction false} MatchesAreMatches(s: string, start: string, end: string, p: nat, k: nat)
    requires k < |Matches(s, start, end, p)|
    ensures var m := Matches(s, start, end, p)[k];
      p <= m.at && IsMatch(s, start, end, m)
    decreases k
  {
    if k == 0 {
      MatchesHead(s, start, end, p);
      FirstMatchIsMatch(s, start, end, p);
    } else {
      var q := MatchesTail(s, start, end, p, k);
      MatchesAreMatches(s, start, end, q, k - 1);
    }
  }

  /** The first match of a scan is the one found from its start. */
  lemma MatchesHead(s: string, start: string, end: string, p: nat)
    requires 0 < |Matches(s, start, end, p)|
    ensures FirstMatch(s, start, end, p).Some? && Matches(s, start, end, p)[0] == FirstMatch(s, start, end, p).value
  {
    MatchesNonEmpty(s, start, end, p);
    MatchesUnfold(s, start, end, p);
  }

  /** The later matches of a scan come from the scan from `q`, after the end of its first match. */
  lemma MatchesTail(s: string, start: string, end: string, p: nat, k: nat) returns (q: nat)
    requires 0 < k < |Matches(s, start, end, p)|
    ensures FirstMatch(s, start, end, p).Some? && q == FirstMatch(s, start, end, p).value.stop + |end|
    ensures p < q && k - 1 < |Matches(s, start, end, q)| && Matches(s, start, end, p)[k] == Matches(s, start, end, q)[k - 1]
  {
    MatchesNonEmpty(s, start, end, p);
    MatchesUnfold(s, start, end, p);
    q := FirstMatch(s, start, end, p).value.stop + |end|;
  }

  /**
    The state of the loop below: `results` holds the captures of the first
    `|results|` matches of the whole scan, and the scan from `pos` reports
    the remaining ones.
  */
  ghost predicate Scanned(source: string, start: string, end: string, results: seq<string>, pos: nat)
  {
    var ms := Matches(source, start, end, 0);
    && |results| <= |ms|
    && Matches(source, start, end, pos) == ms[|results|..]
    && forall k :: 0 <= k < |results| ==> results[k] == ms[k].value
  }

  /** A match found from `pos` is the next of the whole scan; its capture is collected and the scan goes on after it. */
  lemma ScanStep(source: string, start: string, end: string, results: seq<string>, pos: nat)
    requires Scanned(source, start, end, results, pos) && FirstMatch(source, start, end, pos).Some?
    ensures var m := FirstMatch(source, start, end, pos).value;
      Scanned(source, start, end, results + [m.value], m.stop + |end|)
  {
    var ms := Matches(source, start, end, 0);
    var n := |results|;
    var m := FirstMatch(source, start, end, pos).value;
    MatchesUnfold(source, start, end, pos);
    assert ms[n..][0] == ms[n] && ms[n..][1..] == ms[n + 1..];
  }

  /** Where no match is found from `pos`, every capture has been collected. */
  lemma ScanDone(source: string, start: string, end: string, results: seq<string>, pos: nat)
    requires Scanned(source, start, end, results, pos) && FirstMatch(source, start, end, pos).None?
    ensures results == Captures(source, start, end)
  {
    assert Matches(source, start, end, pos) == [];
  }

  /**
    The loop of Extensions.cs:11-20: one capture appended per match of the
    scan, in the order the scan finds them.
  */
  method EverythingBetween(source: string, start: string, end: string) returns (results: seq<string>)
    ensures results == Captures(source, start, end)
  {
    results := [];
    var pos: nat := 0;
    while true
      invariant Scanned(source, start, end, results, pos)
      decreases |source| + 1 - pos
    {
      var m := FirstMatch(source, start, end, pos);
      if m.None? {
        ScanDone(source, start, end, results, pos);
        return;
      }
      ScanStep(source, start, end, results, pos);
      results := results + [m.value.value];
      pos := m.value.stop + |end|;
    }
  }

  /** The text of a match: `start`, the non-empty capture without '\n', then `end`. */
  lemma MatchText(s: string, start: string, end: string, m: Match)
    requires IsMatch(s, start, end, m)
    ensures |m.value| > 0 && NoNewline(m.value)
    ensures OccursAt(s, start + m.value + end, m.at)
  {
    assert OccursAt(s, m.value, m.at + |start|);
    OccursConcat(s, start, m.value, end, m.at);
  }

  /**
    What every capture satisfies: it is non-empty, contains no '\n', and
    `start + r + end` occurs in the source where its match begins.
  */
  lemma CapturesAreMatches(source: string, start: string, end: string, k: nat)
    requires k < |Captures(source, start, end)|
    ensures var r := Captures(source, start, end)[k];
      && |r| > 0
      && NoNewline(r)
      && OccursAt(source, start + r + end, Matches(source, start, end, 0)[k].at)
  {
    MatchesAreMatches(source, start, end, 0, k);
    var m := Matches(source, start, end, 0)[k];
    MatchText(source, start, end, m);
  }

  /**
    Non-greedy: for a capture `r` and `0 < k < |r|`, `end` does not occur
    right after the first `k` characters of `r`.
  */
  lemma CapturesAreShortest(source: string, start: string, end: string, n: nat, k: nat)
    requires n < |Captures(source, start, end)|
    requires 0 < k < |Captures(source, start, end)[n]|
    ensures !OccursAt(source, end, Matches(source, start, end, 0)[n].at + |start| + k)
  {
    MatchesAreMatches(source, start, end, 0, n);
    var m := Matches(source, start, end, 0)[n];
    assert Captures(source, start, end)[n] == m.value;
    NoEarlierEnd(source, m.at + |start|, end, m.stop, m.at + |start| + k);
  }

  /** Before the shortest end of a capture, `end` does not occur past the capture's first character. */
  lemma NoEarlierEnd(s: string, c: nat, end: string, e: nat, x: nat)
    requires IsShortestCapture(s, c, end, e) && c < x < e
    ensures !OccursAt(s, end, x)
  {
    NoNewlinePrefix(s[c..e], x - c);
    assert s[c..e][..x - c] == s[c..x];
    assert !IsCaptureEnd(s, c, end, x);
  }

  /** No position from `a` up to `b` holds a match. */
  ghost predicate NoMatchBetween(s: string, start: string, end: string, a: int, b: int)
  {
    forall i :: a <= i < b ==> !HasMatchAt(s, start, end, i)
  }

  /** No position from `a` on holds a match. */
  ghost predicate NoMatchFrom(s: string, start: string, end: string, a: int)
  {
    forall i :: a <= i ==> !HasMatchAt(s, start, end, i)
  }

  /** Between the end of one reported match and the start of the next there is room, and no match. */
  ghost predicate Gaps(s: string, start: string, end: string, ms: seq<Match>)
  {
    forall k :: 0 <= k < |ms| - 1 ==>
      ms[k].stop + |end| <= ms[k + 1].at && NoMatchBetween(s, start, end, ms[k].stop + |end|, ms[k + 1].at)
  }

  /** A match put in front of a run with gaps, with a gap before the run's first, keeps the gaps. */
  lemma GapsCons(s: string, start: string, end: string, m: Match, rest: seq<Match>)
    requires Gaps(s, start, end, rest)
    requires rest != [] ==>
      m.stop + |end| <= rest[0].at && NoMatchBetween(s, start, end, m.stop + |end|, rest[0].at)
    ensures Gaps(s, start, end, [m] + rest)
  {
    var ms := [m] + rest;
    forall k | 0 <= k < |ms| - 1
      ensures ms[k].stop + |end| <= ms[k + 1].at && NoMatchBetween(s, start, end, ms[k].stop + |end|, ms[k + 1].at)
    {
      if k > 0 {
        assert ms[k] == rest[k - 1] && ms[k + 1] == rest[k];
      }
    }
  }

  /**
    The scan from `p` reports matches left to right without overlap, and no
    position it skips holds a match: not before the first match, not between
    the end of one match and the start of the next, not after the last.
  */
  lemma {:induction false} MatchesLeftmost(s: string, start: string, end: string, p: nat)
    ensures var ms := Matches(s, start, end, p);
      && Gaps(s, start, end, ms)
      && (|ms| > 0 ==> NoMatchBetween(s, start, end, p, ms[0].at))
      && (|ms| == 0 ==> NoMatchFrom(s, start, end, p))
      && (|ms| > 0 ==> NoMatchFrom(s, start, end, ms[|ms| - 1].stop + |end|))
    decreases |s| + 1 - p
  {
    FirstMatchIsLeftmost(s, start, end, p);
    MatchesNonEmpty(s, start, end, p);
    if FirstMatch(s, start, end, p).Some? {
      var m := FirstMatch(s, start, end, p).value;
      var q := m.stop + |end|;
      MatchesLeftmost(s, start, end, q);
      MatchesUnfold(s, start, end, p);
      var rest := Matches(s, start, end, q);
      if rest != [] {
        MatchesNonEmpty(s, start, end, q);
        MatchesUnfold(s, start, end, q);
        assert rest[0] == FirstMatch(s, start, end, q).value;
        assert Matches(s, start, end, p)[|rest|] == rest[|rest| - 1];
      }
      GapsCons(s, start, end, m, rest);
    }
  }

  /** When `start` does not occur in the source, there is nothing between. */
  lemma NoStartNoCaptures(source: string, start: string, end: string)
    requires !Contains(source, start)
    ensures Captures(source, start, end) == []
  {
    FirstMatchIsMatch(source, start, end, 0);
  }

  /** A `start` with no `end` before the next '\n' gives no match at that position. */
  lemma NoEndBeforeNewline(source: string, start: string, end: string, i: nat, nl: nat)
    requires OccursAt(source, start, i)
    requires i + |start| <= nl < |source| && source[nl] == '\n'
    requires forall e :: i + |start| < e <= nl ==> !OccursAt(source, end, e)
    ensures !HasMatchAt(source, start, end, i)
  {
    var c := i + |start|;
    forall e
      ensures !IsCaptureEnd(source, c, end, e)
    {
      if c < e <= |source| && nl < e {
        assert source[c..e][nl - c] == '\n';
      }
    }
  }

  /** With a one-character `end`, the lazy capture stops at the first `end` character after its first character. */
  lemma LazyEndAtChar(s: string, c: nat, ch: char, e: nat)
    requires c < e < |s| && s[e] == ch
    requires forall i :: c < i < e ==> s[i] != ch
    requires NoNewline(s[c..e])
    ensures LazyEnd(s, [ch], c + 1) == Some(e)
  {
    assert OccursAt(s, [ch], e) by {
      assert s[e..e + 1] == [ch];
    }
    assert IsCaptureEnd(s, c, [ch], e);
    LazyEndIsShortest(s, c, [ch], c + 1) by {
      assert s[c..c] == [];
    }
    var r := LazyEnd(s, [ch], c + 1);
    assert s[r.value..r.value + 1][0] == s[r.value];
  }

  /**
    With a one-character `end`: when the first `start` of the source is
    followed by a capture that crosses no '\n' up to the first `end`
    character after its first character, that capture is the first result.
  */
  lemma FirstCaptureRunsToEnd(s: string, start: string, ch: char, p: nat, e: nat)
    requires OccursAt(s, start, p) && forall i :: 0 <= i < p ==> !OccursAt(s, start, i)
    requires p + |start| < e < |s| && s[e] == ch
    requires forall i :: p + |start| < i < e ==> s[i] != ch
    requires NoNewline(s[p + |start|..e])
    ensures |Captures(s, start, [ch])| > 0 && Captures(s, start, [ch])[0] == s[p + |start|..e]
  {
    var c := p + |start|;
    LazyEndAtChar(s, c, ch, e);
    FirstMatchSkips(s, start, [ch], 0, p);
    assert FirstMatch(s, start, [ch], 0) == Some(Match(p, e, s[c..e]));
  }
}
