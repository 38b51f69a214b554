/**
  The .NET string operations the repair pipeline relies on, over `seq<char>`
  with ordinal comparison: `IndexOf(…, StringComparison.Ordinal)`,
  `Replace(string, string)`, `Trim()` and `Split(char)`. A `char` here is a
  Unicode scalar value, not a UTF-16 code unit; on well-formed text the two
  agree, because every pattern and separator the pipeline uses is ASCII.
*/
module Strings {

  /** `w` occurs in `s` starting at index `i`. */
  predicate OccursAt(s: string, w: string, i: int)
  {
    0 <= i && i + |w| <= |s| && s[i..i + |w|] == w
  }

  /** `w` occurs somewhere in `s`. */
  ghost predicate Contains(s: string, w: string)
  {
    exists i :: OccursAt(s, w, i)
  }

  /** The first occurrence of `w` in `s` at or after `from`, or -1. */
  function IndexFrom(s: string, w: string, from: nat): (r: int)
    ensures r == -1 || (from <= r && OccursAt(s, w, r))
    ensures r == -1 ==> forall i :: from <= i ==> !OccursAt(s, w, i)
    ensures r != -1 ==> forall i :: from <= i < r ==> !OccursAt(s, w, i)
    decreases |s| - from
  {
    if |s| < from + |w| then -1
    else if s[from..from + |w|] == w then from
    else IndexFrom(s, w, from + 1)
  }

  /** `IndexOf(w, StringComparison.Ordinal)`: the first occurrence of `w`, or -1 when there is none. */
  function IndexOf(s: string, w: string): (r: int)
    ensures r != -1 <==> Contains(s, w)
    ensures r != -1 ==> OccursAt(s, w, r) && forall i :: 0 <= i < r ==> !OccursAt(s, w, i)
  {
    IndexFrom(s, w, 0)
  }

  /**
    `s.Replace(pat, rep)`: scanning left to right, every occurrence of `pat`
    that does not overlap an occurrence already replaced becomes `rep`.
    .NET throws for an empty `pat`; every caller here passes a non-empty one.
  */
  function ReplaceAll(s: string, pat: string, rep: string): string
    requires |pat| > 0
    decreases |s|
  {
    if |s| < |pat| then s
    else if s[..|pat|] == pat then rep + ReplaceAll(s[|pat|..], pat, rep)
    else [s[0]] + ReplaceAll(s[1..], pat, rep)
  }

  /** Without an occurrence of the pattern, `Replace` returns the text unchanged. */
  lemma {:induction false} ReplaceAllAbsent(s: string, pat: string, rep: string)
    requires |pat| > 0
    requires !Contains(s, pat)
    ensures ReplaceAll(s, pat, rep) == s
    decreases |s|
  {
    if |s| >= |pat| {
      assert !OccursAt(s, pat, 0);
      assert s[..|pat|] != pat;
      forall i: int | 0 <= i
        ensures !OccursAt(s[1..], pat, i)
      {
        OccursAtTail(s, pat, i);
      }
      ReplaceAllAbsent(s[1..], pat, rep);
    }
  }

  /** Replacing a pattern by itself changes nothing. */
  lemma {:induction false} ReplaceAllSelf(s: string, pat: string)
    requires |pat| > 0
    ensures ReplaceAll(s, pat, pat) == s
    decreases |s|
  {
    if |s| >= |pat| {
      if s[..|pat|] == pat {
        ReplaceAllSelf(s[|pat|..], pat);
        assert s == s[..|pat|] + s[|pat|..];
      } else {
        ReplaceAllSelf(s[1..], pat);
        assert s == [s[0]] + s[1..];
      }
    }
  }

  /** Dropping the first character shifts every occurrence one place to the left. */
  lemma OccursAtTail(s: string, w: string, j: nat)
    requires |s| > 0
    ensures OccursAt(s[1..], w, j) <==> OccursAt(s, w, j + 1)
  {
    if j + |w| <= |s| - 1 {
      assert s[1..][j..j + |w|] == s[j + 1..j + 1 + |w|];
    }
  }

  /** Three words occurring one right after the other make an occurrence of their concatenation. */
  lemma OccursConcat(s: string, u: string, v: string, w: string, i: nat)
    requires OccursAt(s, u, i) && OccursAt(s, v, i + |u|) && OccursAt(s, w, i + |u| + |v|)
    ensures OccursAt(s, u + v + w, i)
  {
    var j := i + |u|;
    var k := j + |v|;
    assert s[i..k + |w|] == s[i..j] + s[j..k] + s[k..k + |w|];
  }

  /** Where the text does not start with the pattern, its first character is kept. */
  lemma ReplaceAllKeepsHead(s: string, pat: string, rep: string)
    requires |pat| > 0 && |s| >= |pat| && !OccursAt(s, pat, 0)
    ensures ReplaceAll(s, pat, rep) == [s[0]] + ReplaceAll(s[1..], pat, rep)
  {
    assert s[..|pat|] != pat;
  }

  /** Reassembling a replacement from the first character, the untouched prefix, `rep` and the rest. */
  lemma PrefixThenRest(c: char, h: string, rep: string, x: string, p: string, whole: string, tail: string)
    requires whole == [c] + tail && tail == h + rep + x && [c] + h == p
    ensures whole == p + rep + x
  {
    assert [c] + (h + rep + x) == [c] + h + rep + x;
  }

  /** The first occurrence, seen from the second character on. */
  lemma FirstOccurrenceInTail(s: string, pat: string, i: nat)
    requires 0 < i && OccursAt(s, pat, i)
    requires forall j :: 0 <= j < i ==> !OccursAt(s, pat, j)
    ensures OccursAt(s[1..], pat, i - 1)
    ensures forall j :: 0 <= j < i - 1 ==> !OccursAt(s[1..], pat, j)
  {
    OccursAtTail(s, pat, i - 1);
    forall j | 0 <= j < i - 1
      ensures !OccursAt(s[1..], pat, j)
    {
      OccursAtTail(s, pat, j);
    }
  }

  /** Replacing in `s` gives the text before `i`, then `rep`, then the replaced text after the occurrence at `i`. */
  ghost predicate ReplacedAt(s: string, pat: string, rep: string, i: nat)
    requires |pat| > 0
  {
    i + |pat| <= |s| && ReplaceAll(s, pat, rep) == s[..i] + rep + ReplaceAll(s[i + |pat|..], pat, rep)
  }

  /**
    The leftmost occurrence is replaced: when `pat` first occurs at `i`, the
    result is the untouched prefix, then `rep`, then the replaced rest.
  */
  lemma {:induction false} ReplaceAllAtFirst(s: string, pat: string, rep: string, i: nat)
    requires |pat| > 0
    requires OccursAt(s, pat, i)
    requires forall j :: 0 <= j < i ==> !OccursAt(s, pat, j)
    ensures ReplacedAt(s, pat, rep, i)
    decreases i
  {
    if i == 0 {
      ReplaceAllAtStart(s, pat, rep);
    } else {
      FirstOccurrenceInTail(s, pat, i);
      ReplaceAllAtFirst(s[1..], pat, rep, i - 1);
      ReplaceAllAtFirstStep(s, pat, rep, i);
    }
  }

  /** A text that starts with the pattern: `rep`, then the replaced rest. */
  lemma ReplaceAllAtStart(s: string, pat: string, rep: string)
    requires |pat| > 0 && OccursAt(s, pat, 0)
    ensures ReplacedAt(s, pat, rep, 0)
  {
    assert s[..|pat|] == pat;
    assert s[..0] + rep == rep;
  }

  /** The step of `ReplaceAllAtFirst`: what holds of the text without its first character holds of the text. */
  lemma ReplaceAllAtFirstStep(s: string, pat: string, rep: string, i: nat)
    requires |pat| > 0 && 0 < i && |s| > 0 && !OccursAt(s, pat, 0)
    requires ReplacedAt(s[1..], pat, rep, i - 1)
    ensures ReplacedAt(s, pat, rep, i)
  {
    var t := s[1..];
    ReplaceAllKeepsHead(s, pat, rep);
    assert t[i - 1 + |pat|..] == s[i + |pat|..];
    assert [s[0]] + t[..i - 1] == s[..i];
    PrefixThenRest(s[0], t[..i - 1], rep, ReplaceAll(s[i + |pat|..], pat, rep), s[..i],
                   ReplaceAll(s, pat, rep), ReplaceAll(t, pat, rep));
  }

  /** After a replacement of a present pattern, the replacement text is present. */
  lemma ReplaceAllShowsReplacement(s: string, pat: string, rep: string)
    requires |pat| > 0
    requires Contains(s, pat)
    ensures Contains(ReplaceAll(s, pat, rep), rep)
  {
    var i := IndexOf(s, pat);
    ReplaceAllAtFirst(s, pat, rep, i);
    var r := ReplaceAll(s, pat, rep);
    assert r[i..i + |rep|] == rep;
    assert OccursAt(r, rep, i);
  }

  /** Every character of a replacement result comes from the text or from `rep`. */
  lemma {:induction false} ReplaceAllChars(s: string, pat: string, rep: string, c: char)
    requires |pat| > 0
    requires c in ReplaceAll(s, pat, rep)
    ensures c in s || c in rep
    decreases |s|
  {
    if |s| >= |pat| {
      if s[..|pat|] == pat {
        if c !in rep {
          ReplaceAllChars(s[|pat|..], pat, rep, c);
        }
      } else if c != s[0] {
        ReplaceAllChars(s[1..], pat, rep, c);
      }
    }
  }

  /** A one-character pattern replaced by the empty string leaves none of that character. */
  lemma {:induction false} ReplaceAllRemoves(s: string, c: char)
    ensures c !in ReplaceAll(s, [c], "")
    decreases |s|
  {
    if |s| >= 1 {
      ReplaceAllRemoves(s[1..], c);
      if s[..1] != [c] {
        assert s[0] != c;
      }
    }
  }

  /** A character that is not in the text does not occur as a one-character pattern. */
  lemma AbsentChar(s: string, c: char)
    requires c !in s
    ensures !Contains(s, [c])
  {
    forall i | 0 <= i < |s|
      ensures !OccursAt(s, [c], i)
    {
      assert s[i] in s;
      assert s[i..i + 1][0] == s[i];
    }
  }

  /** Replacing a one-character pattern works piece by piece: it distributes over concatenation. */
  lemma {:induction false} ReplaceCharConcat(x: string, y: string, c: char, rep: string)
    ensures ReplaceAll(x + y, [c], rep) == ReplaceAll(x, [c], rep) + ReplaceAll(y, [c], rep)
    decreases |x|
  {
    if x == [] {
      assert x + y == y;
    } else {
      ReplaceCharConcat(x[1..], y, c, rep);
      assert (x + y)[1..] == x[1..] + y;
      assert (x + y)[..1] == x[..1];
    }
  }

  /** `Char.IsWhiteSpace`: the Unicode space separators, line and paragraph separators, and U+0009–U+000D, U+0085. */
  predicate IsWhiteSpace(c: char)
  {
    c == ' ' || ('\t' <= c <= '\r') || c == '\U{85}' || c == '\U{A0}' || c == '\U{1680}'
    || ('\U{2000}' <= c <= '\U{200A}') || c == '\U{2028}' || c == '\U{2029}'
    || c == '\U{202F}' || c == '\U{205F}' || c == '\U{3000}'
  }

  /** The first index at or after `i` that does not hold white space (`|s|` when there is none). */
  function SkipWhiteSpace(s: string, i: nat): (k: nat)
    requires i <= |s|
    ensures i <= k <= |s|
    ensures forall q :: i <= q < k ==> IsWhiteSpace(s[q])
    ensures k == |s| || !IsWhiteSpace(s[k])
    decreases |s| - i
  {
    if i < |s| && IsWhiteSpace(s[i]) then SkipWhiteSpace(s, i + 1) else i
  }

  /** The least index `k >= lo` such that `s[k..j]` is all white space. */
  function SkipWhiteSpaceBack(s: string, lo: nat, j: nat): (k: nat)
    requires lo <= j <= |s|
    ensures lo <= k <= j
    ensures forall q :: k <= q < j ==> IsWhiteSpace(s[q])
    ensures k == lo || !IsWhiteSpace(s[k - 1])
    decreases j
  {
    if lo < j && IsWhiteSpace(s[j - 1]) then SkipWhiteSpaceBack(s, lo, j - 1) else j
  }

  /**
    `Trim()`: `s` without its leading and trailing white space. The result is
    the slice `s[i..j]` with only white space outside it, and it neither
    starts nor ends with white space.
  */
  function Trim(s: string): (r: string)
    ensures exists i, j ::
              && 0 <= i <= j <= |s| && r == s[i..j]
              && (forall q :: 0 <= q < i ==> IsWhiteSpace(s[q]))
              && (forall q :: j <= q < |s| ==> IsWhiteSpace(s[q]))
    ensures r == [] || (!IsWhiteSpace(r[0]) && !IsWhiteSpace(r[|r| - 1]))
  {
    var i := SkipWhiteSpace(s, 0);
    var j := SkipWhiteSpaceBack(s, i, |s|);
    s[i..j]
  }

  /** One leading space and no white space at either end of `w`: `Trim` gives `w`. */
  lemma TrimLeadingSpace(w: string)
    requires |w| > 0 && !IsWhiteSpace(w[0]) && !IsWhiteSpace(w[|w| - 1])
    ensures Trim(" " + w) == w
  {
    var s := " " + w;
    var i := SkipWhiteSpace(s, 0);
    assert s[1] == w[0];
    assert i == 1;
    var j := SkipWhiteSpaceBack(s, i, |s|);
    assert s[|s| - 1] == w[|w| - 1];
    assert j == |s|;
    assert s[1..] == w;
  }

  /** `String.Join(sep, parts)`: the pieces with one separator between neighbours. */
  function Join(parts: seq<string>, sep: char): string
    requires |parts| > 0
    decreases |parts|
  {
    if |parts| == 1 then parts[0] else parts[0] + [sep] + Join(parts[1..], sep)
  }

  /**
    `Split(sep)`: the pieces between separators, empty ones included, so a
    text with n separators gives n + 1 pieces and joining them back gives the
    text again.
  */
  function Split(s: string, sep: char): (r: seq<string>)
    ensures |r| > 0
    ensures forall k :: 0 <= k < |r| ==> sep !in r[k]
    ensures Join(r, sep) == s
    decreases |s|
  {
    if |s| == 0 then [""]
    else
      var rest := Split(s[1..], sep);
      if s[0] == sep then
        assert s == [sep] + s[1..];
        [""] + rest
      else
        var r := [[s[0]] + rest[0]] + rest[1..];
        assert r[1..] == rest[1..];
        assert s == [s[0]] + s[1..];
        r
  }

  /** Splitting a join of separator-free pieces gives the pieces back. */
  lemma {:induction false} SplitJoin(parts: seq<string>, sep: char)
    requires |parts| > 0
    requires forall k :: 0 <= k < |parts| ==> sep !in parts[k]
    ensures Split(Join(parts, sep), sep) == parts
    decreases |parts|, |parts[0]|
  {
    if |parts| == 1 {
      SplitPiece(parts[0], sep);
    } else {
      var tail := Join(parts[1..], sep);
      SplitJoin(parts[1..], sep);
      SplitPrefix(parts[0], tail, sep);
      assert parts == [parts[0]] + parts[1..];
    }
  }

  /** A text without separator is a single piece. */
  lemma {:induction false} SplitPiece(w: string, sep: char)
    requires sep !in w
    ensures Split(w, sep) == [w]
    decreases |w|
  {
    if |w| > 0 {
      SplitPiece(w[1..], sep);
      assert w == [w[0]] + w[1..];
    }
  }

  /** A separator-free piece in front of a separator is the first piece. */
  lemma {:induction false} SplitPrefix(w: string, tail: string, sep: char)
    requires sep !in w
    ensures Split(w + [sep] + tail, sep) == [w] + Split(tail, sep)
    decreases |w|
  {
    var s := w + [sep] + tail;
    if |w| == 0 {
      assert s[0] == sep && s[1..] == tail;
    } else {
      assert s[0] == w[0] && s[1..] == w[1..] + [sep] + tail;
      SplitPrefix(w[1..], tail, sep);
      SplitKeepsHead(s, sep, w[1..], Split(tail, sep));
      assert [w[0]] + w[1..] == w;
    }
  }

  /** A first character other than the separator starts the first piece of the rest. */
  lemma SplitKeepsHead(s: string, sep: char, piece: string, more: seq<string>)
    requires |s| > 0 && s[0] != sep && Split(s[1..], sep) == [piece] + more
    ensures Split(s, sep) == [[s[0]] + piece] + more
  {
    var rest := Split(s[1..], sep);
    assert rest[0] == piece && rest[1..] == more;
  }

  /** Three pieces without the separator, joined by it, split back into the three. */
  lemma SplitThree(a: string, b: string, c: string, sep: char)
    requires sep !in a && sep !in b && sep !in c
    ensures Split(a + [sep] + b + [sep] + c, sep) == [a, b, c]
  {
    assert Join([b, c], sep) == b + [sep] + c by {
      assert [b, c][1..] == [c];
    }
    assert Join([a, b, c], sep) == a + [sep] + b + [sep] + c by {
      assert [a, b, c][1..] == [b, c];
    }
    SplitJoin([a, b, c], sep);
  }
}
