/**
  `Program` (DrLight/Program.cs): the two static dictionaries and the per-file
  repair of `Main`. The reference cache is built from the reference files'
  texts (line 64); each submitted file is read into pairs, corrected against
  the cache, and written back with the corrected pairs.

  File contents are passed in and handed back as strings; reading and
  writing files is not modelled.
*/
module DoctorLight {
  import opened Wrappers
  import opened Vectors
  import opened Dictionaries
  import opened Strings
  import opened Extensions
  import opened Segments
  import opened Correction
  import opened Rewriter

  /** The segments of all files, file after file (`GetSegments`). */
  function AllSegments(texts: seq<string>): seq<string>
    decreases |texts|
  {
    if texts == [] then []
    else AllSegments(texts[..|texts| - 1]) + Captures(Flatten(texts[|texts| - 1]), AttributeOpen, AttributeClose)
  }

  /** The segments of two batches of files are those of the first batch, then those of the second. */
  lemma {:induction false} AllSegmentsConcat(a: seq<string>, b: seq<string>)
    ensures AllSegments(a + b) == AllSegments(a) + AllSegments(b)
    decreases |b|
  {
    if b != [] {
      var init := b[..|b| - 1];
      var tail := Captures(Flatten(b[|b| - 1]), AttributeOpen, AttributeClose);
      assert (a + b)[..|a + b| - 1] == a + init;
      assert (a + b)[|a + b| - 1] == b[|b| - 1];
      assert AllSegments(a + b) == AllSegments(a + init) + tail;
      AllSegmentsConcat(a, init);
      assert AllSegments(b) == AllSegments(init) + tail;
    } else {
      assert a + b == a;
    }
  }

  /** A file contributes exactly its own segments. */
  lemma OneFileSegments(text: string)
    ensures AllSegments([text]) == Captures(Flatten(text), AttributeOpen, AttributeClose)
  {
    assert [text][..0] == [];
  }

  /** `GetSegments`: the segments of every file, in file order. */
  method GetSegments(texts: seq<string>) returns (contents: seq<string>)
    ensures contents == AllSegments(texts)
  {
    contents := [];
    var i := 0;
    while i < |texts|
      invariant 0 <= i <= |texts|
      invariant contents == AllSegments(texts[..i])
    {
      var found := SegmentsFromFile(texts[i]);
      assert texts[..i + 1][..i] == texts[..i];
      contents := contents + found;
      i := i + 1;
    }
    assert texts[..|texts|] == texts;
  }

  /** What one repaired file yields: the new text and the numbers `Main` reports. */
  datatype Report = Report(text: string, found: nat, matched: nat, guessed: nat)

  /** The pairs of a file (`ToPairs(SegmentsFromFile(path))`, line 91). */
  function FilePairs(text: string, parse: string -> Option<real>): seq<Entry>
  {
    PairsOf(Captures(Flatten(text), AttributeOpen, AttributeClose), parse)
  }

  /** The pass over a file's pairs, with `corrected` a copy of them (line 92). */
  function FilePass(cache: seq<Entry>, lookup: map<Vec, Vec>, pairs: seq<Entry>): Result<Tally, Fault>
  {
    Pass(cache, Tally(ToMap(pairs), lookup, 0, 0), pairs)
  }

  /** The repair of one file (lines 91-131): correction pass, then `WriteToFile`. */
  function Repair(cache: seq<Entry>, lookup: map<Vec, Vec>, text: string,
                  parse: string -> Option<real>, fmt: (nat, real) -> string): Result<Report, Fault>
  {
    var pairs := FilePairs(text, parse);
    match FilePass(cache, lookup, pairs)
    case Err(f) => Err(f)
    case Ok(t) =>
      match Rewritten(text, pairs, t.corrected, t.links, fmt)
      case Err(f) => Err(f)
      case Ok(written) => Ok(Report(written, |pairs|, t.matched, t.guessed))
  }

  /** The replacement lookup after the pass over a file; a failed pass leaves it as it was. */
  function LinksAfter(cache: seq<Entry>, lookup: map<Vec, Vec>, text: string, parse: string -> Option<real>): map<Vec, Vec>
  {
    match FilePass(cache, lookup, FilePairs(text, parse))
    case Err(_) => lookup
    case Ok(t) => t.links
  }

  /**
    The repair of a file fails only when the cache is empty and the file
    has a pair, and then with the exception of `First()`: the lookups of
    `RenderSearchReplace` never throw. The counters count distinct pairs.
  */
  lemma RepairOutcome(cache: seq<Entry>, lookup: map<Vec, Vec>, text: string,
                      parse: string -> Option<real>, fmt: (nat, real) -> string)
    requires DistinctKeys(cache)
    ensures var r := Repair(cache, lookup, text, parse, fmt);
      && (r.Err? <==> |cache| == 0 && |FilePairs(text, parse)| > 0)
      && (r.Err? ==> r.error == InvalidOperation)
      && (r.Ok? ==> r.value.found == |FilePairs(text, parse)| && r.value.matched + r.value.guessed <= r.value.found)
  {
    var pairs := FilePairs(text, parse);
    var t0 := Tally(ToMap(pairs), lookup, 0, 0);
    PassFails(cache, t0, pairs);
    if Pass(cache, t0, pairs).Ok? {
      var t := Pass(cache, t0, pairs).value;
      PassCounts(cache, t0, pairs);
      PassResolvesLinks(cache, pairs, lookup);
      RewriteFailsOnlyOnMissingKey(text, pairs, t.corrected, t.links, fmt);
    }
  }

  /**
    What the rewriter writes for each pair of the file is what the pass
    decided for it (lines 195-205 after lines 97-123): a matched pair is
    rendered with the cached tangent, a guessed pair as the nearest cached
    pair, and a kept pair under its own direction with a tangent within
    tolerance of the cached one, or its own tangent outside the cache.
  */
  lemma ReplaceFollowsDecision(cache: seq<Entry>, lookup: map<Vec, Vec>, pairs: seq<Entry>, e: Entry,
                               precision: int, fmt: (nat, real) -> string)
    requires DistinctKeys(cache) && DistinctKeys(pairs) && e in pairs
    requires FilePass(cache, lookup, pairs).Ok?
    ensures var t := FilePass(cache, lookup, pairs).value;
      var r := RenderSearchReplace(e, t.corrected, t.links, precision, fmt);
      var d := Classify(cache, e);
      && r.Ok? && d.Ok?
      && (d.value.Matched? ==> r.value.replace == Render(e.key, d.value.tangent, precision, fmt))
      && (d.value.Guessed? ==> r.value.replace == Render(d.value.closest.key, d.value.closest.value, precision, fmt))
      && (d.value.Kept? ==>
            && e.key in t.corrected
            && r.value.replace == Render(e.key, t.corrected[e.key], precision, fmt)
            && (e.key in ToMap(cache) ==> TolEq(ToMap(cache)[e.key], t.corrected[e.key]))
            && (e.key !in ToMap(cache) ==> r.value.replace == r.value.search))
  {
    PassResolvesLinks(cache, pairs, lookup);
    var t := FilePass(cache, lookup, pairs).value;
    assert Settled(cache, e, t);
  }

  /** A file without pairs is written back as it was and reports nothing. */
  lemma NoPairsNoChange(cache: seq<Entry>, lookup: map<Vec, Vec>, text: string,
                        parse: string -> Option<real>, fmt: (nat, real) -> string)
    requires FilePairs(text, parse) == []
    ensures Repair(cache, lookup, text, parse, fmt) == Ok(Report(text, 0, 0, 0))
    ensures LinksAfter(cache, lookup, text, parse) == lookup
  {
  }

  /** The static fields of `Program` (lines 14 and 19) and the operations that use them. */
  class Program {
    /** `SegmentCache`: the reference pairs, in enumeration order. */
    var segmentCache: seq<Entry>
    /** `ReplacementLookup`: each guessed direction, linked to the reference direction it moved to. */
    var replacementLookup: map<Vec, Vec>

    /** The cache is a dictionary: its directions are distinct. */
    ghost predicate Valid()
      reads this
    {
      DistinctKeys(segmentCache)
    }

    /**
      Start-up (lines 51 and 64): an empty lookup, and the cache built from
      the segments of every reference file.
    */
    constructor (references: seq<string>, parse: string -> Option<real>)
      ensures Valid()
      ensures segmentCache == PairsOf(AllSegments(references), parse)
      ensures replacementLookup == map[]
    {
      var contents := GetSegments(references);
      var cache := ToPairs(contents, parse);
      segmentCache := cache;
      replacementLookup := map[];
    }

    /**
      One turn of the correction loop (lines 97-123) for pair `kvp`, with
      `cache` the dictionary built from the cache pairs: a direction the
      cache holds gets the cached tangent when it differs under `!=`; any
      other direction moves onto the nearest cache pair when that differs
      under `!=`, and the move is linked in `replacementLookup`. With the
      cache empty, `First()` throws.
    */
    method CorrectPair(cache: map<Vec, Vec>, kvp: Entry, corrected: map<Vec, Vec>, matched: nat, guessed: nat)
      returns (r: Result<Tally, Fault>)
      requires cache == ToMap(segmentCache)
      modifies this
      ensures segmentCache == old(segmentCache)
      ensures var d := Classify(segmentCache, kvp);
        && (d.Err? ==> r == Err(d.error) && replacementLookup == old(replacementLookup))
        && (d.Ok? ==> r == Ok(Apply(Tally(corrected, old(replacementLookup), matched, guessed), kvp, d.value)))
      ensures r.Ok? ==> replacementLookup == r.value.links
    {
      if kvp.key in cache {
        ClassifyHit(segmentCache, kvp);
        var hit := cache[kvp.key];
        if TolNe(hit, kvp.value) {
          return Ok(Tally(corrected[kvp.key := hit], replacementLookup, matched + 1, guessed));
        }
        return Ok(Tally(corrected, replacementLookup, matched, guessed));
      }
      ClassifyMiss(segmentCache, kvp);
      var closest := Nearest(segmentCache, kvp.key);
      if closest.None? {
        return Err(InvalidOperation);
      }
      var c := closest.value;
      if TolNe(c.value, kvp.value) || TolNe(c.key, kvp.key) {
        replacementLookup := replacementLookup[kvp.key := c.key];
        return Ok(Tally((corrected - {kvp.key})[c.key := c.value], replacementLookup, matched, guessed + 1));
      }
      return Ok(Tally(corrected, replacementLookup, matched, guessed));
    }

    /**
      The correction loop of lines 92-124 over the pairs of a file. It
      ends, with the exception `First()` throws, at the first pair that
      misses an empty cache; until then every guess links its direction
      in `replacementLookup`.
    */
    method CorrectionPass(segments: seq<Entry>) returns (r: Result<Tally, Fault>)
      requires Valid() && DistinctKeys(segments)
      modifies this
      ensures segmentCache == old(segmentCache)
      ensures r == FilePass(segmentCache, old(replacementLookup), segments)
      ensures r.Ok? ==> replacementLookup == r.value.links
      ensures r.Err? ==> replacementLookup == old(replacementLookup)
    {
      var reference := segmentCache;
      var cache := ToMap(reference);
      var corrected := ToMap(segments);
      var matched: nat, guessed: nat := 0, 0;
      ghost var goal := FilePass(reference, old(replacementLookup), segments);
      assert segments[0..] == segments;
      var i := 0;
      while i < |segments|
        invariant segmentCache == reference
        invariant PassYields(reference, Tally(corrected, replacementLookup, matched, guessed), segments, i, goal)
        invariant |reference| == 0 ==> i == 0 && replacementLookup == old(replacementLookup)
      {
        ghost var t := Tally(corrected, replacementLookup, matched, guessed);
        var step := CorrectPair(cache, segments[i], corrected, matched, guessed);
        if step.Err? {
          PassYieldsError(reference, t, segments, i, goal, step.error);
          return Err(step.error);
        }
        PassYieldsStep(reference, t, segments, i, goal, Classify(reference, segments[i]).value);
        corrected, matched, guessed := step.value.corrected, step.value.matched, step.value.guessed;
        i := i + 1;
      }
      PassYieldsEnd(reference, Tally(corrected, replacementLookup, matched, guessed), segments, goal);
      return Ok(Tally(corrected, replacementLookup, matched, guessed));
    }

    /**
      `WriteToFile` (lines 146-190) on the file's text: for each original
      pair, the first of the 8-, 7- and 6-digit renderings found is
      replaced everywhere; a direction that neither `processed` nor the
      lookup resolves throws KeyNotFoundException.
    */
    method WriteToFile(text: string, oldValues: seq<Entry>, processed: map<Vec, Vec>, fmt: (nat, real) -> string)
      returns (r: Result<string, Fault>)
      ensures r == Rewritten(text, oldValues, processed, replacementLookup, fmt)
      ensures r.Err? <==> exists e :: e in oldValues && !Resolvable(e.key, processed, replacementLookup)
    {
      RewriteFailsOnlyOnMissingKey(text, oldValues, processed, replacementLookup, fmt);
      var fileText := text;
      var i := 0;
      while i < |oldValues|
        invariant 0 <= i <= |oldValues|
        invariant Rewritten(text, oldValues, processed, replacementLookup, fmt)
               == Rewritten(fileText, oldValues[i..], processed, replacementLookup, fmt)
      {
        var pair := oldValues[i];
        assert oldValues[i..][0] == pair && oldValues[i..][1..] == oldValues[i + 1..];
        ghost var patched := PatchPair(fileText, pair, processed, replacementLookup, fmt);
        var p8 := RenderSearchReplace(pair, processed, replacementLookup, 8, fmt);
        if p8.Err? {
          return Err(p8.error);
        }
        if IndexOf(fileText, p8.value.search) != -1 {
          fileText := ReplaceAll(fileText, p8.value.search, p8.value.replace);
        } else {
          var p7 := RenderSearchReplace(pair, processed, replacementLookup, 7, fmt).value;
          if IndexOf(fileText, p7.search) != -1 {
            fileText := ReplaceAll(fileText, p7.search, p7.replace);
          } else {
            var p6 := RenderSearchReplace(pair, processed, replacementLookup, 6, fmt).value;
            if IndexOf(fileText, p6.search) != -1 {
              fileText := ReplaceAll(fileText, p6.search, p6.replace);
            }
          }
        }
        assert patched == Ok(fileText);
        i := i + 1;
      }
      assert oldValues[i..] == [];
      return Ok(fileText);
    }

    /**
      The body of the `foreach` of `Main` (lines 86-131) for one submitted
      file: its pairs, the correction pass, and the rewritten text with the
      counts `Main` prints.
    */
    method RepairFile(text: string, parse: string -> Option<real>, fmt: (nat, real) -> string)
      returns (r: Result<Report, Fault>)
      requires Valid()
      modifies this
      ensures Valid() && segmentCache == old(segmentCache)
      ensures r == Repair(segmentCache, old(replacementLookup), text, parse, fmt)
      ensures replacementLookup == LinksAfter(segmentCache, old(replacementLookup), text, parse)
    {
      var found := SegmentsFromFile(text);
      var segments := ToPairs(found, parse);
      var pass := CorrectionPass(segments);
      match pass
      case Err(f) =>
        return Err(f);
      case Ok(t) =>
        var written := WriteToFile(text, segments, t.corrected, fmt);
        match written
        case Err(f) =>
          return Err(f);
        case Ok(w) =>
          return Ok(Report(w, |segments|, t.matched, t.guessed));
    }
  }
}
