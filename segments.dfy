/**
  Reading direction/tangent pairs out of a `.light` file (DrLight/Program.cs,
  `SegmentsFromFile` and `ToPairs`).

  A file is flattened (tabs dropped, each CRLF turned into ':'), the text of
  every `Attribute:{: … :}:` block is a segment, and each segment that holds a
  readable `:Direction x y z:` and `:Tangent x y z:` field becomes one
  dictionary entry. Number parsing (`Convert.ToDouble`) is the parameter
  `parse`: None where the conversion throws.
*/
module Segments {
  import opened Wrappers
  import opened Strings
  import opened Vectors
  import opened Extensions
  import opened Dictionaries

  const AttributeOpen: string := "Attribute:{:"
  const AttributeClose: string := ":}:"
  const DirectionMarker: string := ":Direction"
  const TangentMarker: string := ":Tangent"
  const FieldEnd: string := ":"

  /** `text.Replace("\t", "").Replace("\r\n", ":")`. */
  function Flatten(text: string): string
  {
    ReplaceAll(ReplaceAll(text, "\t", ""), "\r\n", ":")
  }

  /** A flattened text holds no tab. */
  lemma FlattenHasNoTab(text: string)
    ensures '\t' !in Flatten(text)
  {
    var t := ReplaceAll(text, "\t", "");
    ReplaceAllRemoves(text, '\t');
    if '\t' in Flatten(text) {
      ReplaceAllChars(t, "\r\n", ":", '\t');
    }
  }

  /** The first character left by the CRLF replacement is ':' or the text's own first character. */
  lemma ReplaceCrLfHead(t: string)
    requires |t| > 0
    ensures var r := ReplaceAll(t, "\r\n", ":");
      |r| > 0 && (r[0] == ':' || r[0] == t[0])
  {
  }

  /** Replacing every CRLF by ':' leaves no CRLF behind. */
  lemma {:induction false} ReplaceCrLfLeavesNone(s: string)
    ensures !Contains(ReplaceAll(s, "\r\n", ":"), "\r\n")
    decreases |s|
  {
    var r := ReplaceAll(s, "\r\n", ":");
    if |s| < 2 {
      assert r == s;
    } else {
      var skip := if s[..2] == "\r\n" then 2 else 1;
      var tail := ReplaceAll(s[skip..], "\r\n", ":");
      ReplaceCrLfLeavesNone(s[skip..]);
      assert r[1..] == tail;
      forall i: int | 0 <= i
        ensures !OccursAt(r, "\r\n", i)
      {
        if i == 0 {
          if skip == 1 {
            ReplaceCrLfHead(s[1..]);
            assert r[0] != '\r' || r[1] != '\n';
          } else {
            assert r[0] == ':';
          }
          if |r| >= 2 {
            assert r[..2] != "\r\n";
          }
        } else {
          OccursAtTail(r, "\r\n", i - 1);
          assert !OccursAt(tail, "\r\n", i - 1);
        }
      }
    }
  }

  /** A flattened text holds no CRLF. */
  lemma FlattenHasNoCrLf(text: string)
    ensures !Contains(Flatten(text), "\r\n")
  {
    ReplaceCrLfLeavesNone(ReplaceAll(text, "\t", ""));
  }

  /**
    A line without tab or '\r', ended by CRLF, becomes the line followed by
    ':'; the rest of the text is flattened on its own.
  */
  lemma FlattenLine(line: string, rest: string)
    requires '\t' !in line && '\r' !in line
    ensures Flatten(line + "\r\n" + rest) == line + ":" + Flatten(rest)
  {
    var rest' := ReplaceAll(rest, "\t", "");
    ReplaceCharConcat(line + "\r\n", rest, '\t', "");
    ReplaceCharConcat(line, "\r\n", '\t', "");
    AbsentChar(line, '\t');
    ReplaceAllAbsent(line, "\t", "");
    assert ReplaceAll("\r\n", "\t", "") == "\r\n";
    var s := line + "\r\n" + rest';
    assert ReplaceAll(line + "\r\n" + rest, "\t", "") == s;
    assert OccursAt(s, "\r\n", |line|);
    forall j | 0 <= j < |line|
      ensures !OccursAt(s, "\r\n", j)
    {
      assert s[j] == line[j];
      assert s[j..j + 2][0] == s[j];
    }
    ReplaceAllAtFirst(s, "\r\n", ":", |line|);
    assert s[..|line|] == line;
    assert s[|line| + 2..] == rest';
  }

  /** Tabs go before line breaks are joined, so a tab inside a CRLF does not keep it from becoming ':'. */
  lemma TabInsideLineBreak()
    ensures Flatten("\r\t\n") == ":"
  {
    assert ReplaceAll("\r\t\n", "\t", "") == "\r\n" by {
      assert ReplaceAll("\n", "\t", "") == "\n";
      assert ReplaceAll("\t\n", "\t", "") == "\n";
    }
  }

  /** Two texts whose junction does not form a CRLF have their CRLFs replaced each on its own. */
  lemma {:induction false} ReplaceCrLfConcat(x: string, y: string)
    requires !(|x| > 0 && x[|x| - 1] == '\r' && |y| > 0 && y[0] == '\n')
    ensures ReplaceAll(x + y, "\r\n", ":") == ReplaceAll(x, "\r\n", ":") + ReplaceAll(y, "\r\n", ":")
    decreases |x|
  {
    var s := x + y;
    if |x| == 0 {
      assert s == y;
    } else if |x| == 1 {
      if |s| >= 2 {
        assert s[..2] != "\r\n" by {
          assert s[..2][0] == x[0] && s[..2][1] == y[0];
        }
        assert s[1..] == y;
      }
    } else if x[..2] == "\r\n" {
      assert s[..2] == x[..2] && s[2..] == x[2..] + y;
      ReplaceCrLfConcat(x[2..], y);
    } else {
      assert s[..2] == x[..2] && s[1..] == x[1..] + y;
      ReplaceCrLfConcat(x[1..], y);
    }
  }

  /** Dropping tabs around a character other than a tab keeps that character between the two sides. */
  lemma DropTabsAround(a: string, c: char, b: string)
    requires c != '\t'
    ensures ReplaceAll(a + [c] + b, "\t", "") == ReplaceAll(a, "\t", "") + ([c] + ReplaceAll(b, "\t", ""))
  {
    ReplaceCharConcat(a, [c] + b, '\t', "");
    assert a + [c] + b == a + ([c] + b);
    ReplaceCharConcat([c], b, '\t', "");
    assert [c][..1] != "\t";
    assert ReplaceAll([c], "\t", "") == [c];
  }

  /** A character other than '\r' starts the CRLF replacement of the text it begins. */
  lemma CrLfAfterChar(c: char, t: string)
    requires c != '\r'
    ensures ReplaceAll([c] + t, "\r\n", ":") == [c] + ReplaceAll(t, "\r\n", ":")
  {
    var s := [c] + t;
    if |s| >= 2 {
      assert s[..2][0] == c;
      assert s[1..] == t;
    }
  }

  /**
    A lone line feed survives flattening: where the text before it, with
    its tabs dropped, does not end in '\r', flattening works on either side
    of the line feed separately.
  */
  lemma LoneLineFeedSurvives(a: string, b: string)
    requires var t := ReplaceAll(a, "\t", ""); |t| == 0 || t[|t| - 1] != '\r'
    ensures Flatten(a + "\n" + b) == Flatten(a) + "\n" + Flatten(b)
  {
    var ta, tb := ReplaceAll(a, "\t", ""), ReplaceAll(b, "\t", "");
    var cr := "\r\n";
    DropTabsAround(a, '\n', b);
    assert ReplaceAll(a + "\n" + b, "\t", "") == ta + ("\n" + tb);
    ReplaceCrLfConcat(ta, "\n" + tb);
    CrLfAfterChar('\n', tb);
    assert ReplaceAll(ta + ("\n" + tb), cr, ":") == ReplaceAll(ta, cr, ":") + ("\n" + ReplaceAll(tb, cr, ":"));
  }

  /**
    A lone carriage return survives flattening: where the text after it,
    with its tabs dropped, does not start with '\n', flattening works on
    either side of the carriage return separately.
  */
  lemma LoneCarriageReturnSurvives(a: string, b: string)
    requires var t := ReplaceAll(b, "\t", ""); |t| == 0 || t[0] != '\n'
    ensures Flatten(a + "\r" + b) == Flatten(a) + "\r" + Flatten(b)
  {
    var ta, tb := ReplaceAll(a, "\t", ""), ReplaceAll(b, "\t", "");
    DropTabsAround(a, '\r', b);
    ReplaceCrLfConcat(ta, "\r" + tb);
    ReplaceCrLfConcat("\r", tb);
    assert ReplaceAll("\r", "\r\n", ":") == "\r";
  }

  /**
    `SegmentsFromFile` on the text the file holds: the text of each
    `Attribute:{: … :}:` block of the flattened file, in order.
  */
  method SegmentsFromFile(text: string) returns (segments: seq<string>)
    ensures segments == Captures(Flatten(text), AttributeOpen, AttributeClose)
  {
    var flat := ReplaceAll(ReplaceAll(text, "\t", ""), "\r\n", ":");
    segments := EverythingBetween(flat, AttributeOpen, AttributeClose);
  }

  /**
    Every segment is a non-empty piece of the flattened file, between an
    `Attribute:{:` and the first `:}:` after it, with no tab and no line feed.
  */
  lemma SegmentIsBlockBody(text: string, k: nat)
    requires k < |Captures(Flatten(text), AttributeOpen, AttributeClose)|
    ensures var seg := Captures(Flatten(text), AttributeOpen, AttributeClose)[k];
      && |seg| > 0 && '\t' !in seg && '\n' !in seg
      && Contains(Flatten(text), AttributeOpen + seg + AttributeClose)
  {
    var flat := Flatten(text);
    var seg := Captures(flat, AttributeOpen, AttributeClose)[k];
    CapturesAreMatches(flat, AttributeOpen, AttributeClose, k);
    var at := Matches(flat, AttributeOpen, AttributeClose, 0)[k].at;
    var w := AttributeOpen + seg + AttributeClose;
    assert OccursAt(flat, w, at);
    FlattenHasNoTab(text);
    forall q | 0 <= q < |seg|
      ensures seg[q] != '\t' && seg[q] != '\n'
    {
      assert flat[at + |AttributeOpen| + q] == w[|AttributeOpen| + q] == seg[q];
      assert flat[at + |AttributeOpen| + q] in flat;
    }
  }

  /**
    `new Vector3d(Convert.ToDouble(t[0]), Convert.ToDouble(t[1]), Convert.ToDouble(t[2]))`:
    None when there are fewer than three tokens (IndexOutOfRangeException) or
    one of the first three does not parse (FormatException).
  */
  function ParseVector(tokens: seq<string>, parse: string -> Option<real>): (r: Option<Vec>)
    ensures r.Some? <==> |tokens| >= 3 && parse(tokens[0]).Some? && parse(tokens[1]).Some? && parse(tokens[2]).Some?
    ensures r.Some? ==> r.value == Vec(parse(tokens[0]).value, parse(tokens[1]).value, parse(tokens[2]).value)
  {
    if |tokens| < 3 then None
    else
      match (parse(tokens[0]), parse(tokens[1]), parse(tokens[2]))
      case (Some(x), Some(y), Some(z)) => Some(Vec(x, y, z))
      case _ => None
  }

  /** Tokens after the third are never looked at. */
  lemma ExtraTokensIgnored(tokens: seq<string>, extra: seq<string>, parse: string -> Option<real>)
    requires |tokens| >= 3
    ensures ParseVector(tokens + extra, parse) == ParseVector(tokens, parse)
  {
    assert (tokens + extra)[..3] == tokens[..3];
  }

  /**
    One field of a segment: `segment.EverythingBetween(marker, ":")[0].Trim().Split(' ')`
    read as a vector; None when the marker has no capture (`[0]` on an empty
    list throws) or the tokens do not make a vector.
  */
  function ParseField(segment: string, marker: string, parse: string -> Option<real>): Option<Vec>
  {
    var caps := Captures(segment, marker, FieldEnd);
    if |caps| == 0 then None else ParseVector(Split(Trim(caps[0]), ' '), parse)
  }

  /** The pair one segment contributes, or None when the body of the `try` throws. */
  function ParseSegment(segment: string, parse: string -> Option<real>): (r: Option<Entry>)
    ensures r.Some? <==> ParseField(segment, DirectionMarker, parse).Some? && ParseField(segment, TangentMarker, parse).Some?
  {
    var dir := ParseField(segment, DirectionMarker, parse);
    var tan := ParseField(segment, TangentMarker, parse);
    if dir.Some? && tan.Some? then Some(Entry(dir.value, tan.value)) else None
  }

  /** A segment without a `:Direction` or without a `:Tangent` is skipped. */
  lemma MissingMarkerSkips(segment: string, parse: string -> Option<real>)
    requires !Contains(segment, DirectionMarker) || !Contains(segment, TangentMarker)
    ensures ParseSegment(segment, parse) == None
  {
    if !Contains(segment, DirectionMarker) {
      NoStartNoCaptures(segment, DirectionMarker, FieldEnd);
    } else {
      NoStartNoCaptures(segment, TangentMarker, FieldEnd);
    }
  }

  /** One iteration of the loop of `ToPairs`: insert the segment's pair, or skip it. */
  function Step(dict: seq<Entry>, segment: string, parse: string -> Option<real>): seq<Entry>
  {
    match ParseSegment(segment, parse)
    case Some(e) => Insert(dict, e.key, e.value)
    case None => dict
  }

  /** The dictionary `ToPairs` returns for `segments`. */
  function PairsOf(segments: seq<string>, parse: string -> Option<real>): (r: seq<Entry>)
    ensures DistinctKeys(r)
    decreases |segments|
  {
    if segments == [] then []
    else Step(PairsOf(segments[..|segments| - 1], parse), segments[|segments| - 1], parse)
  }

  /**
    An independent reading of "the last writer wins": the tangent of the last
    segment that parses with direction `k`, if any.
  */
  function LastParsed(segments: seq<string>, parse: string -> Option<real>, k: Vec): Option<Vec>
    decreases |segments|
  {
    if segments == [] then None
    else
      match ParseSegment(segments[|segments| - 1], parse)
      case Some(e) =>
        if e.key == k then Some(e.value) else LastParsed(segments[..|segments| - 1], parse, k)
      case None => LastParsed(segments[..|segments| - 1], parse, k)
  }

  /**
    A direction is a key of the result exactly when some segment parses with
    it, and its tangent is that of the last such segment.
  */
  lemma {:induction false} LastWriterWins(segments: seq<string>, parse: string -> Option<real>, k: Vec)
    ensures var m := ToMap(PairsOf(segments, parse));
      && (k in m <==> LastParsed(segments, parse, k).Some?)
      && (k in m ==> m[k] == LastParsed(segments, parse, k).value)
    decreases |segments|
  {
    if segments != [] {
      var init := segments[..|segments| - 1];
      var d := PairsOf(init, parse);
      LastWriterWins(init, parse, k);
      var e := ParseSegment(segments[|segments| - 1], parse);
      if e.Some? {
        assert PairsOf(segments, parse) == Insert(d, e.value.key, e.value.value);
        InsertToMap(d, e.value.key, e.value.value);
      } else {
        assert PairsOf(segments, parse) == d;
      }
    }
  }

  /** A malformed segment is skipped, and the segments after it are still read. */
  lemma {:induction false} MalformedSkipped(before: seq<string>, bad: string, after: seq<string>, parse: string -> Option<real>)
    requires ParseSegment(bad, parse).None?
    ensures PairsOf(before + [bad] + after, parse) == PairsOf(before + after, parse)
    decreases |after|
  {
    if after == [] {
      assert (before + [bad] + after)[..|before| + 1 - 1] == before;
      assert before + after == before;
    } else {
      var init := after[..|after| - 1];
      MalformedSkipped(before, bad, init, parse);
      assert (before + [bad] + after)[..|before| + |after|] == before + [bad] + init;
      assert (before + after)[..|before| + |after| - 1] == before + init;
    }
  }

  /**
    The body of the `try` in `ToPairs` (DrLight/Program.cs:288-293): the
    direction field is read first, then the tangent field, then the six
    numbers; None stands for any of the exceptions the `catch` swallows.
  */
  method ReadSegment(segment: string, parse: string -> Option<real>) returns (pair: Option<Entry>)
    ensures pair == ParseSegment(segment, parse)
  {
    var direction := EverythingBetween(segment, DirectionMarker, FieldEnd);
    if |direction| == 0 {
      return None;
    }
    var tangent := EverythingBetween(segment, TangentMarker, FieldEnd);
    if |tangent| == 0 {
      return None;
    }
    var dir := ParseVector(Split(Trim(direction[0]), ' '), parse);
    var tan := ParseVector(Split(Trim(tangent[0]), ' '), parse);
    if dir.Some? && tan.Some? {
      pair := Some(Entry(dir.value, tan.value));
    } else {
      pair := None;
    }
  }

  /** The fold over the first `i + 1` segments is one step after the fold over the first `i`. */
  lemma PairsOfStep(segments: seq<string>, i: nat, parse: string -> Option<real>)
    requires i < |segments|
    ensures PairsOf(segments[..i + 1], parse) == Step(PairsOf(segments[..i], parse), segments[i], parse)
  {
    assert segments[..i + 1][..i] == segments[..i];
    assert segments[..i + 1][i] == segments[i];
  }

  /**
    `ToPairs`: each segment in order is parsed inside a `try`; a readable
    pair is stored with `dict[dir] = tan`, an exception skips the segment.
  */
  method ToPairs(segments: seq<string>, parse: string -> Option<real>) returns (dict: seq<Entry>)
    ensures dict == PairsOf(segments, parse)
  {
    dict := [];
    var i := 0;
    while i < |segments|
      invariant 0 <= i <= |segments|
      invariant dict == PairsOf(segments[..i], parse)
    {
      var pair := ReadSegment(segments[i], parse);
      PairsOfStep(segments, i, parse);
      if pair.Some? {
        dict := Insert(dict, pair.value.key, pair.value.value);
      }
      i := i + 1;
    }
    assert segments[..|segments|] == segments;
  }

  /** Text a number can be written as here: non-empty, with no white space and no ':'. */
  predicate Token(w: string)
  {
    |w| > 0 && forall ch :: ch in w ==> !IsWhiteSpace(ch) && ch != ':'
  }

  /**
    A field written as `marker x y z:`, at the first place the marker
    occurs, is read as the three tokens `x`, `y` and `z`.
  */
  lemma ReadField(segment: string, marker: string, p: nat, a: string, b: string, c: string, parse: string -> Option<real>)
    requires |marker| > 0 && ':' !in marker[1..]
    requires Token(a) && Token(b) && Token(c)
    requires OccursAt(segment, marker + " " + (a + " " + b + " " + c) + ":", p)
    requires forall i :: 0 <= i < p ==> !OccursAt(segment, marker, i)
    ensures ParseField(segment, marker, parse) == ParseVector([a, b, c], parse)
  {
    var w := a + " " + b + " " + c;
    var field := marker + " " + w + ":";
    assert segment[p..p + |field|] == field;
    assert OccursAt(segment, marker, p) by {
      assert segment[p..p + |marker|] == field[..|marker|];
    }
    var e := p + |marker| + 1 + |w|;
    assert segment[p + |marker|..e] == " " + w by {
      assert field == marker + (" " + w) + ":";
      forall k | p + |marker| <= k < e
        ensures segment[k] == (" " + w)[k - p - |marker|]
      {
        assert segment[k] == segment[p..p + |field|][k - p];
      }
    }
    assert segment[e] == field[|field| - 1];
    forall i | p + |marker| < i < e
      ensures segment[i] != ':'
    {
      assert segment[i] == w[i - p - |marker| - 1];
      assert w[i - p - |marker| - 1] in w;
    }
    assert NoNewline(segment[p + |marker|..e]) by {
      forall k | 0 <= k < 1 + |w|
        ensures (" " + w)[k] != '\n'
      {
        if k > 0 {
          assert (" " + w)[k] == w[k - 1];
          assert w[k - 1] in w;
        }
      }
    }
    FirstCaptureRunsToEnd(segment, marker, ':', p, e);
    assert w[0] == a[0] && w[|w| - 1] == c[|c| - 1];
    TrimLeadingSpace(w);
    SplitThree(a, b, c, ' ');
  }
}
