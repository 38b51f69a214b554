/**
  The precision-tolerant rewriter (DrLight/Program.cs:146-235): each
  original pair is rendered as the two lines it was written as, at 8, then 7,
  then 6 fractional digits, and the first rendering found in the file text
  is replaced everywhere by the rendering of the corrected pair.

  Number formatting (`{v:F8}` and friends) is the parameter `fmt`: `fmt(n, v)`
  is the text of `v` with `n` fractional digits.
*/
module Rewriter {
  import opened Wrappers
  import opened Strings
  import opened Vectors
  import opened Dictionaries
  import opened Segments

  /** The fractional digits `Render` uses for a requested precision: the `switch` of lines 220-233. */
  function Digits(precision: int): (n: nat)
    ensures precision == 7 || precision == 6 ==> n == precision
    ensures precision != 7 && precision != 6 ==> n == 8
  {
    match precision
    case 7 => 7
    case 6 => 6
    case _ => 8
  }

  /** The three components of `v`, formatted and separated by single spaces. */
  function Components(v: Vec, n: nat, fmt: (nat, real) -> string): string
  {
    fmt(n, v.x) + " " + fmt(n, v.y) + " " + fmt(n, v.z)
  }

  /** One rendered line: two tabs, the caption and the formatted components, CRLF. */
  function Line(caption: string, v: Vec, n: nat, fmt: (nat, real) -> string): string
  {
    "\t\t" + (caption + " " + Components(v, n, fmt)) + "\r\n"
  }

  /** `Render(direction, tangent, precision)`: the Direction line and the Tangent line, tab-indented, CRLF-ended. */
  function Render(direction: Vec, tangent: Vec, precision: int, fmt: (nat, real) -> string): (r: string)
    ensures |r| > 14 && r[..12] == "\t\tDirection " && r[|r| - 2..] == "\r\n"
  {
    var n := Digits(precision);
    var text := Line("Direction", direction, n, fmt) + Line("Tangent", tangent, n, fmt);
    assert text[..12] == "\t\tDirection ";
    text
  }

  /** Only precisions 7 and 6 are honoured; any other value renders like 8. */
  lemma RenderDefaultsToEight(direction: Vec, tangent: Vec, precision: int, fmt: (nat, real) -> string)
    requires precision != 7 && precision != 6
    ensures Render(direction, tangent, precision, fmt) == Render(direction, tangent, 8, fmt)
  {
  }

  /** The two strings `RenderSearchReplace` hands back through its `out` parameters. */
  datatype Patch = Patch(search: string, replace: string)

  /**
    A direction the rewriter can find a replacement for: it is still a key
    of `processed`, or the lookup table links it to a key of `processed`.
  */
  predicate Resolvable(key: Vec, processed: map<Vec, Vec>, lookup: map<Vec, Vec>)
  {
    key in processed || (key in lookup && lookup[key] in processed)
  }

  /**
    `RenderSearchReplace`: search for the old pair as rendered; replace it by
    the corrected pair, under the same direction when that is still a key of
    `processed`, else under the direction the lookup table links it to. A
    missing key in either dictionary throws KeyNotFoundException.
  */
  function RenderSearchReplace(pair: Entry, processed: map<Vec, Vec>, lookup: map<Vec, Vec>,
                               precision: int, fmt: (nat, real) -> string): (r: Result<Patch, Fault>)
    ensures r.Ok? <==> Resolvable(pair.key, processed, lookup)
    ensures r.Err? ==> r.error == KeyNotFound
    ensures r.Ok? ==> r.value.search == Render(pair.key, pair.value, precision, fmt)
    ensures r.Ok? && pair.key in processed ==>
      r.value.replace == Render(pair.key, processed[pair.key], precision, fmt)
    ensures r.Ok? && pair.key !in processed ==>
      r.value.replace == Render(lookup[pair.key], processed[lookup[pair.key]], precision, fmt)
  {
    var search := Render(pair.key, pair.value, precision, fmt);
    if pair.key in processed then
      Ok(Patch(search, Render(pair.key, processed[pair.key], precision, fmt)))
    else if pair.key in lookup && lookup[pair.key] in processed then
      var moved := lookup[pair.key];
      Ok(Patch(search, Render(moved, processed[moved], precision, fmt)))
    else Err(KeyNotFound)
  }

  /** The precision tiers `WriteToFile` tries, in order. */
  const Tiers: seq<int> := [8, 7, 6]

  /**
    One iteration of the loop of `WriteToFile`, for one original pair: the first
    tier whose search text occurs is replaced everywhere; when none occurs
    the text is left as it is.
  */
  function PatchPair(text: string, pair: Entry, processed: map<Vec, Vec>, lookup: map<Vec, Vec>,
                     fmt: (nat, real) -> string): Result<string, Fault>
  {
    match RenderSearchReplace(pair, processed, lookup, 8, fmt)
    case Err(f) => Err(f)
    case Ok(p8) =>
      if IndexOf(text, p8.search) != -1 then Ok(ReplaceAll(text, p8.search, p8.replace))
      else
        var p7 := RenderSearchReplace(pair, processed, lookup, 7, fmt).value;
        if IndexOf(text, p7.search) != -1 then Ok(ReplaceAll(text, p7.search, p7.replace))
        else
          var p6 := RenderSearchReplace(pair, processed, lookup, 6, fmt).value;
          if IndexOf(text, p6.search) != -1 then Ok(ReplaceAll(text, p6.search, p6.replace))
          else Ok(text)
  }

  /**
    The tier `PatchPair` picks: the index in `Tiers` of the first tier whose
    rendering of the original pair occurs in the text, or 3 when none does.
  */
  function ChosenTier(text: string, pair: Entry, fmt: (nat, real) -> string, from: nat): (k: nat)
    requires from <= 3
    ensures from <= k <= 3
    ensures k < 3 ==> Contains(text, Render(pair.key, pair.value, Tiers[k], fmt))
    ensures forall j :: from <= j < k ==> !Contains(text, Render(pair.key, pair.value, Tiers[j], fmt))
    decreases 3 - from
  {
    if from == 3 then 3
    else if IndexOf(text, Render(pair.key, pair.value, Tiers[from], fmt)) != -1 then from
    else ChosenTier(text, pair, fmt, from + 1)
  }

  /**
    Tier order: the pair is patched at the first tier whose search text
    occurs, with that same tier's replacement, everywhere; when no tier
    occurs the text is unchanged. A lookup that cannot be resolved throws,
    whatever the text.
  */
  lemma PatchAtFirstTier(text: string, pair: Entry, processed: map<Vec, Vec>, lookup: map<Vec, Vec>,
                         fmt: (nat, real) -> string)
    ensures PatchPair(text, pair, processed, lookup, fmt).Err? <==> !Resolvable(pair.key, processed, lookup)
    ensures Resolvable(pair.key, processed, lookup) ==>
      var k := ChosenTier(text, pair, fmt, 0);
      if k == 3 then PatchPair(text, pair, processed, lookup, fmt) == Ok(text)
      else
        var p := RenderSearchReplace(pair, processed, lookup, Tiers[k], fmt).value;
        PatchPair(text, pair, processed, lookup, fmt) == Ok(ReplaceAll(text, p.search, p.replace))
  {
    if Resolvable(pair.key, processed, lookup) && IndexOf(text, Render(pair.key, pair.value, 8, fmt)) == -1 {
      assert ChosenTier(text, pair, fmt, 0) == ChosenTier(text, pair, fmt, 1);
      if IndexOf(text, Render(pair.key, pair.value, 7, fmt)) == -1 {
        assert ChosenTier(text, pair, fmt, 1) == ChosenTier(text, pair, fmt, 2);
      }
    }
  }

  /** Where a tier is found, the corrected rendering is in the patched text. */
  lemma PatchShowsCorrection(text: string, pair: Entry, processed: map<Vec, Vec>, lookup: map<Vec, Vec>,
                             fmt: (nat, real) -> string)
    requires Resolvable(pair.key, processed, lookup)
    requires ChosenTier(text, pair, fmt, 0) < 3
    ensures var k := ChosenTier(text, pair, fmt, 0);
      Contains(PatchPair(text, pair, processed, lookup, fmt).value,
               RenderSearchReplace(pair, processed, lookup, Tiers[k], fmt).value.replace)
  {
    var k := ChosenTier(text, pair, fmt, 0);
    var p := RenderSearchReplace(pair, processed, lookup, Tiers[k], fmt).value;
    PatchAtFirstTier(text, pair, processed, lookup, fmt);
    ReplaceAllShowsReplacement(text, p.search, p.replace);
  }

  /** A pair whose direction still holds its own tangent in `processed`. */
  predicate Unchanged(pair: Entry, processed: map<Vec, Vec>)
  {
    pair.key in processed && processed[pair.key] == pair.value
  }

  /** A pair that kept its direction and its tangent leaves the text as it was. */
  lemma UnchangedPairKeepsText(text: string, pair: Entry, processed: map<Vec, Vec>, lookup: map<Vec, Vec>,
                               fmt: (nat, real) -> string)
    requires Unchanged(pair, processed)
    ensures PatchPair(text, pair, processed, lookup, fmt) == Ok(text)
  {
    PatchAtFirstTier(text, pair, processed, lookup, fmt);
    var k := ChosenTier(text, pair, fmt, 0);
    if k < 3 {
      ReplaceAllSelf(text, Render(pair.key, pair.value, Tiers[k], fmt));
    }
  }

  /** The text `WriteToFile` writes back: the pairs patched one after the other, each on the previous result. */
  function Rewritten(text: string, olds: seq<Entry>, processed: map<Vec, Vec>, lookup: map<Vec, Vec>,
                     fmt: (nat, real) -> string): Result<string, Fault>
    decreases |olds|
  {
    if olds == [] then Ok(text)
    else
      match PatchPair(text, olds[0], processed, lookup, fmt)
      case Err(f) => Err(f)
      case Ok(next) => Rewritten(next, olds[1..], processed, lookup, fmt)
  }

  /** Rewriting fails, with KeyNotFound, exactly when some pair's direction cannot be resolved. */
  lemma {:induction false} RewriteFailsOnlyOnMissingKey(text: string, olds: seq<Entry>, processed: map<Vec, Vec>,
                                                        lookup: map<Vec, Vec>, fmt: (nat, real) -> string)
    ensures Rewritten(text, olds, processed, lookup, fmt).Ok?
        <==> forall e :: e in olds ==> Resolvable(e.key, processed, lookup)
    ensures Rewritten(text, olds, processed, lookup, fmt).Err? ==>
        Rewritten(text, olds, processed, lookup, fmt).error == KeyNotFound
    decreases |olds|
  {
    if olds != [] {
      PatchAtFirstTier(text, olds[0], processed, lookup, fmt);
      if Resolvable(olds[0].key, processed, lookup) {
        var next := PatchPair(text, olds[0], processed, lookup, fmt).value;
        RewriteFailsOnlyOnMissingKey(next, olds[1..], processed, lookup, fmt);
        assert forall e :: e in olds <==> e == olds[0] || e in olds[1..];
      }
    }
  }

  /** When every pair kept its direction and its tangent, the rewritten text is the original text. */
  lemma {:induction false} RewrittenUnchanged(text: string, olds: seq<Entry>, processed: map<Vec, Vec>,
                                              lookup: map<Vec, Vec>, fmt: (nat, real) -> string)
    requires forall e :: e in olds ==> Unchanged(e, processed)
    ensures Rewritten(text, olds, processed, lookup, fmt) == Ok(text)
    decreases |olds|
  {
    if olds != [] {
      assert olds[0] in olds;
      UnchangedPairKeepsText(text, olds[0], processed, lookup, fmt);
      assert forall e :: e in olds[1..] ==> e in olds;
      RewrittenUnchanged(text, olds[1..], processed, lookup, fmt);
    }
  }

  /** The formatted components of `v` are tokens. */
  predicate Tokens(v: Vec, n: nat, fmt: (nat, real) -> string)
  {
    Token(fmt(n, v.x)) && Token(fmt(n, v.y)) && Token(fmt(n, v.z))
  }

  /** Parsing the formatted components of `v`. */
  function Reparsed(v: Vec, n: nat, fmt: (nat, real) -> string, parse: string -> Option<real>): Option<Vec>
  {
    ParseVector([fmt(n, v.x), fmt(n, v.y), fmt(n, v.z)], parse)
  }

  /** Tabs in front of a text are dropped by flattening. */
  lemma FlattenDropsTab(s: string)
    ensures Flatten("\t" + s) == Flatten(s)
  {
    ReplaceCharConcat("\t", s, '\t', "");
    assert ReplaceAll("\t", "\t", "") == "";
    assert "" + ReplaceAll(s, "\t", "") == ReplaceAll(s, "\t", "");
  }

  /** An indented line without tab or '\r' flattens to its text and ':'. */
  lemma FlattenIndentedLine(body: string, rest: string)
    requires '\t' !in body && '\r' !in body
    ensures Flatten("\t\t" + body + "\r\n" + rest) == body + ":" + Flatten(rest)
  {
    assert "\t\t" + body + "\r\n" + rest == "\t" + ("\t" + (body + "\r\n" + rest));
    FlattenDropsTab("\t" + (body + "\r\n" + rest));
    FlattenDropsTab(body + "\r\n" + rest);
    FlattenLine(body, rest);
  }

  /** The text of a rendered line has no tab and no '\r' when its numbers are tokens. */
  lemma LineBodyIsPlain(caption: string, v: Vec, n: nat, fmt: (nat, real) -> string)
    requires '\t' !in caption && '\r' !in caption
    requires Tokens(v, n, fmt)
    ensures var body := caption + " " + Components(v, n, fmt);
      '\t' !in body && '\r' !in body
  {
  }

  /** A rendering, flattened, is its two lines without indentation, each ended by ':'. */
  lemma FlattenRender(direction: Vec, tangent: Vec, precision: int, fmt: (nat, real) -> string)
    requires Tokens(direction, Digits(precision), fmt) && Tokens(tangent, Digits(precision), fmt)
    ensures var n := Digits(precision);
      Flatten(Render(direction, tangent, precision, fmt))
        == ("Direction " + Components(direction, n, fmt)) + ":" + (("Tangent " + Components(tangent, n, fmt)) + ":")
  {
    var n := Digits(precision);
    var b1 := "Direction " + Components(direction, n, fmt);
    var b2 := "Tangent " + Components(tangent, n, fmt);
    LineBodyIsPlain("Direction", direction, n, fmt);
    LineBodyIsPlain("Tangent", tangent, n, fmt);
    assert Render(direction, tangent, precision, fmt) == "\t\t" + b1 + "\r\n" + ("\t\t" + b2 + "\r\n");
    FlattenTwoLines(b1, b2);
  }

  /** Two indented lines without tab or '\r' flatten to their texts, each ended by ':'. */
  lemma FlattenTwoLines(b1: string, b2: string)
    requires '\t' !in b1 && '\r' !in b1 && '\t' !in b2 && '\r' !in b2
    ensures Flatten("\t\t" + b1 + "\r\n" + ("\t\t" + b2 + "\r\n")) == b1 + ":" + (b2 + ":")
  {
    var second := "\t\t" + b2 + "\r\n";
    FlattenIndentedLine(b1, second);
    assert second == "\t\t" + b2 + "\r\n" + "";
    FlattenIndentedLine(b2, "");
    assert Flatten("") == "";
  }

  /** An occurrence of a word begins with the word's first two characters. */
  lemma OccurrenceHead(s: string, w: string, i: nat)
    requires |w| >= 2
    ensures OccursAt(s, w, i) ==> s[i] == w[0] && s[i + 1] == w[1]
  {
    if OccursAt(s, w, i) {
      assert s[i..i + |w|][0] == s[i] && s[i..i + |w|][1] == s[i + 1];
    }
  }

  /**
    A marker that starts with its only ':' and does not occur in `before`
    does not occur at a position of `before` when a ':' follows it.
  */
  lemma MarkerNotBefore(before: string, rest: string, marker: string, i: nat)
    requires |marker| > 0 && ':' !in marker[1..]
    requires !Contains(before, marker) && i < |before|
    ensures !OccursAt(before + ":" + rest, marker, i)
  {
    var seg := before + ":" + rest;
    if i + |marker| <= |before| {
      assert seg[i..i + |marker|] == before[i..i + |marker|];
      assert !OccursAt(before, marker, i);
    } else if i + |marker| <= |seg| {
      var k := |before| - i;
      assert marker[k] != ':' by {
        assert marker[k] == marker[1..][k - 1];
      }
      assert seg[i..i + |marker|][k] == ':';
    }
  }

  /** Up to the ':' that ends it, the Direction field is the only place a field marker occurs. */
  lemma MarkersBeforeTangent(before: string, w: string, rest: string)
    requires !Contains(before, DirectionMarker) && !Contains(before, TangentMarker) && ':' !in w
    ensures var seg := before + ":" + ("Direction " + w) + rest;
      forall i :: 0 <= i < |before| + 11 + |w| ==>
        (!OccursAt(seg, DirectionMarker, i) || i == |before|) && !OccursAt(seg, TangentMarker, i)
  {
    var l := "Direction " + w;
    var seg := before + ":" + l + rest;
    forall i | 0 <= i < |before| + 11 + |w|
      ensures !OccursAt(seg, DirectionMarker, i) || i == |before|
      ensures !OccursAt(seg, TangentMarker, i)
    {
      OccurrenceHead(seg, DirectionMarker, i);
      OccurrenceHead(seg, TangentMarker, i);
      if i < |before| {
        MarkerNotBefore(before, l + rest, DirectionMarker, i);
        MarkerNotBefore(before, l + rest, TangentMarker, i);
      } else if i == |before| {
        assert seg[i + 1] == 'D';
      } else {
        var k := i - |before| - 1;
        assert seg[i] == l[k];
        if k < 10 {
          assert l[k] in "Direction ";
        } else {
          assert l[k] == w[k - 10];
          assert w[k - 10] in w;
        }
      }
    }
  }

  /** Where the two flattened lines stand in a segment. */
  lemma PairFields(before: string, w1: string, w2: string, after: string)
    ensures var seg := before + ":" + (("Direction " + w1) + ":" + (("Tangent " + w2) + ":")) + after;
      OccursAt(seg, DirectionMarker + " " + w1 + ":", |before|) &&
      OccursAt(seg, TangentMarker + " " + w2 + ":", |before| + 11 + |w1|) &&
      seg == before + ":" + ("Direction " + w1) + ((TangentMarker + " " + w2 + ":") + after)
  {
    var l1 := "Direction " + w1;
    var l2 := "Tangent " + w2;
    var field1 := DirectionMarker + " " + w1 + ":";
    var field2 := TangentMarker + " " + w2 + ":";
    var seg := before + ":" + (l1 + ":" + (l2 + ":")) + after;
    assert field1 == ":" + l1 + ":";
    assert field2 == ":" + l2 + ":";
    assert seg == before + (":" + l1) + field2 + after;
    assert seg[|before|..|before| + |field1|] == field1;
    assert seg[|before| + 11 + |w1|..|before| + 11 + |w1| + |field2|] == field2;
  }

  /**
    Round trip: a pair rendered by the rewriter and stored in a segment, after
    text that holds neither field marker, is read back by `ParseSegment` (the
    body of the `try` in `ToPairs`) as the parsed formatted components of its
    direction and tangent.
  */
  lemma RenderReadsBack(direction: Vec, tangent: Vec, precision: int, fmt: (nat, real) -> string,
                        parse: string -> Option<real>, before: string, after: string)
    requires !Contains(before, DirectionMarker) && !Contains(before, TangentMarker)
    requires Tokens(direction, Digits(precision), fmt) && Tokens(tangent, Digits(precision), fmt)
    ensures var n := Digits(precision);
      var d := Reparsed(direction, n, fmt, parse);
      var t := Reparsed(tangent, n, fmt, parse);
      ParseSegment(before + ":" + Flatten(Render(direction, tangent, precision, fmt)) + after, parse)
        == if d.Some? && t.Some? then Some(Entry(d.value, t.value)) else None
  {
    var n := Digits(precision);
    FlattenRender(direction, tangent, precision, fmt);
    var w1 := Components(direction, n, fmt);
    var w2 := Components(tangent, n, fmt);
    var seg := before + ":" + Flatten(Render(direction, tangent, precision, fmt)) + after;
    PairFields(before, w1, w2, after);
    assert ':' !in w1;
    MarkersBeforeTangent(before, w1, (TangentMarker + " " + w2 + ":") + after);
    ReadField(seg, DirectionMarker, |before|, fmt(n, direction.x), fmt(n, direction.y), fmt(n, direction.z), parse);
    ReadField(seg, TangentMarker, |before| + 11 + |w1|, fmt(n, tangent.x), fmt(n, tangent.y), fmt(n, tangent.z), parse);
  }
}
