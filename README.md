# DrLight in Dafny

DrLight repairs the Direction/Tangent pairs of `.light` text files. A
reference cache of known-good direction → tangent pairs is read from a set of
reference files. Each submitted file is then handled in three steps:

1. Its pairs are read out of its `Attribute` blocks.
2. Every pair is checked against the cache. A direction the cache holds gets
   the cached tangent when the two tangents differ under `!=` ("matched").
   Any other direction is moved onto the nearest cached pair when that pair
   differs under `!=` in direction or tangent ("guessed"), and a replacement
   link records the move. Otherwise the pair is kept: nothing is written,
   counted or linked.
3. The file text is patched. Each original pair is rendered as the two lines
   it was written as, at 8, then 7, then 6 fractional digits. The first
   rendering found is replaced everywhere by the rendering of the corrected
   pair.

The project models these steps over exact values:

| module | file | models |
|---|---|---|
| `Wrappers` | wrappers.dfy | `Option`, `Result` and the .NET exceptions that can escape the core |
| `Vectors` | vectors.dfy | `Vector3d`: indexer, `operator -`, `SqrMagnitude`, `==`/`!=` (tolerance 1e-9 on the squared distance), exact `Equals` |
| `Dictionaries` | dict.dfy | `Dictionary<Vector3d, Vector3d>` with exact keys, enumerated in insertion order |
| `Strings` | strings.dfy | ordinal `IndexOf`, `Replace`, `Trim`, `Split(' ')` |
| `Extensions` | extensions.dfy | `EverythingBetween`: the captures of the regular expression `start(.+?)end` |
| `Segments` | segments.dfy | flattening, `SegmentsFromFile` and `ToPairs` |
| `Correction` | correction.dfy | the correction loop of `Main`, as functions over a state `Tally` |
| `Rewriter` | rewriter.dfy | `Render`, `RenderSearchReplace` and the 8/7/6-digit patching of `WriteToFile` |
| `DoctorLight` | program.dfy | the static `SegmentCache` and `ReplacementLookup` as fields of the class `Program`, and the per-file repair of `Main` |

Doubles are exact reals. Number formatting (`{v:F8}`, `F7`, `F6`) and
`Convert.ToDouble` are the parameters `fmt` and `parse`: `fmt(n, v)` is the
text of `v` with `n` fractional digits, and `parse(s)` is None where the
conversion throws. File contents are passed in and handed back as strings.

Exceptions become error values. `First()` on an empty cache is
`InvalidOperation`. A missing dictionary key at `RenderSearchReplace` is
`KeyNotFound`. An indexer out of range is `None`. An exception swallowed by
the `catch` of `ToPairs` skips the segment.

Dictionary keys compare with exact `Equals`: `TryGetValue`, the indexer
setter and `Remove` (DrLight/Program.cs:97, 102, 115-116, 198, 295) never
use the tolerance. Only the decisions at lines 100 and 113 use the
tolerance operators. So `Vec` is a datatype whose equality is `Equals`, and
`TolEq`/`TolNe` are separate predicates. `ReplacementLookup` is static and
lives across all submitted files. The model keeps it as a field of
`Program`; a file's pass only adds to it.

A .NET `Dictionary` that is only inserted into enumerates its entries in
first-insertion order. The cache and the pairs of a file are such
dictionaries. They are modelled as entry sequences with distinct
directions, and `ToMap` gives the lookups they answer.

The flattened text decides which pairs can be read. `ToPairs` looks for
`:Direction` and `:Tangent`, with the `:` left by the CRLF before each line.
The block opener `Attribute:{:` takes the `:` before the first line of a
block, and `:}:` takes the one after the last line. So a Direction line
that comes first in a block, or a Tangent line that comes last, is not
found, and that pair is skipped. `RenderReadsBack` states the round trip
for a pair that has text before it in its segment.

## Model

| member | source | states |
|---|---|---|
| Vectors.Component | DrLight/Vector3d.cs:20-31 | indices 0, 1 and 2 give x, y and z; any other index throws |
| Vectors.WithComponent | DrLight/Vector3d.cs:33-47 | the setter succeeds exactly for 0, 1 and 2; the chosen component reads back as the new value, and every other index reads as before |
| Vectors.WithOwnComponent | DrLight/Vector3d.cs:20-47 | writing back a component just read leaves the vector unchanged |
| Vectors.Sub | DrLight/Vector3d.cs:150-152 | `a - b` is the zero vector exactly when `a` and `b` are equal |
| Vectors.SqrMagnitude | DrLight/Vector3d.cs:254-256 | the squared magnitude is never negative |
| Vectors.SqrDistanceSymmetric | DrLight/Vector3d.cs:238-241 | the squared distance under `Distance` does not depend on argument order |
| Vectors.SqrDistanceToSelf | DrLight/Vector3d.cs:238-241 | the squared distance from a vector to itself is zero |
| Vectors.DistanceOrderIsSqrOrder | DrLight/Vector3d.cs:238-241 | non-negative square roots order, and tie, exactly as their squares do, so ordering by `Distance` is ordering by squared distance |
| Vectors.TolNeIsNotTolEq | DrLight/Vector3d.cs:170-178 | `!=` is exactly the negation of `==` |
| Vectors.TolEqReflexive | DrLight/Vector3d.cs:170-173 | `==` is reflexive |
| Vectors.TolEqSymmetric | DrLight/Vector3d.cs:170-173 | `==` is symmetric |
| Vectors.TolEqNotTransitive | DrLight/Vector3d.cs:170-173 | `==` is not transitive: (0,0,0)==(3e-5,0,0) and (3e-5,0,0)==(6e-5,0,0), yet (0,0,0)!=(6e-5,0,0) |
| Vectors.Equals | DrLight/Vector3d.cs:184-192 | `Equals` holds exactly when the argument is a boxed vector with the same three components; it is false for a non-vector |
| Vectors.EqualsVersusTolEq | DrLight/Vector3d.cs:184-192 | `Equals` implies `==`; the converse fails for (0,0,0) and (1e-5,0,0) |
| Dictionaries.KeyIndex | DrLight/Program.cs:97 | the position found holds the key and no later entry does; -1 exactly when no entry has the key |
| Dictionaries.ToMapKeys | DrLight/Program.cs:97 | a lookup finds a key exactly when some entry has it |
| Dictionaries.ToMapAtKeyIndex | DrLight/Program.cs:97 | a lookup answers the value of the key's last entry |
| Dictionaries.ToMapAt | DrLight/Program.cs:92 | with distinct keys, the lookup of each entry's key answers that entry's value |
| Dictionaries.Insert | DrLight/Program.cs:295 | `dict[k] = v` keeps every existing key in its place, appends only an absent key, makes `v` the value of `k`, and keeps keys distinct |
| Dictionaries.InsertToMap | DrLight/Program.cs:295 | after `dict[k] = v` the lookups are the old ones with `k` mapped to `v` |
| Strings.IndexFrom | DrLight/Program.cs:155 | the result is the first occurrence at or after `from`, or -1 exactly when there is none |
| Strings.IndexOf | DrLight/Program.cs:155 | `IndexOf` is not -1 exactly when the text contains the word, and then it is the first occurrence |
| Strings.ReplaceAllAbsent | DrLight/Program.cs:157 | `Replace` leaves a text without the pattern unchanged |
| Strings.ReplaceAllSelf | DrLight/Program.cs:157 | replacing a pattern by itself leaves the text unchanged |
| Strings.ReplaceAllAtFirst | DrLight/Program.cs:157 | the leftmost occurrence is replaced: the result is the prefix before it, then the replacement, then the replaced rest |
| Strings.ReplaceAllShowsReplacement | DrLight/Program.cs:157 | after replacing a pattern that occurs, the replacement occurs in the result |
| Strings.ReplaceAllChars | DrLight/Program.cs:264 | every character of the result comes from the text or from the replacement |
| Strings.ReplaceAllRemoves | DrLight/Program.cs:264 | replacing a character by the empty string leaves none of it |
| Strings.ReplaceCharConcat | DrLight/Program.cs:264 | replacing a one-character pattern distributes over concatenation |
| Strings.Trim | DrLight/Program.cs:288 | `Trim` returns a slice with only white space outside it, and the slice neither starts nor ends with white space |
| Strings.TrimLeadingSpace | DrLight/Program.cs:288 | trimming a space followed by a word without outer white space gives the word |
| Strings.Split | DrLight/Program.cs:288 | `Split` gives at least one piece, no piece holds the separator, and joining the pieces gives the text back |
| Strings.SplitJoin | DrLight/Program.cs:288 | splitting a join of separator-free pieces gives the pieces back |
| Strings.SplitThree | DrLight/Program.cs:288 | `"a b c".Split(' ')` is exactly the three tokens |
| Extensions.LazyEnd | DrLight/Extensions.cs:13 | a capture end found is at or after the first end tried, and `end` occurs there |
| Extensions.LazyEndIsShortest | DrLight/Extensions.cs:13 | `+?` picks the first end a non-empty, newline-free capture can have, and reports none only when there is none |
| Extensions.MatchAt | DrLight/Extensions.cs:13 | a match at `p` starts at `p`, has a non-empty capture, and `end` fits in the text |
| Extensions.MatchAtIsMatch | DrLight/Extensions.cs:13-15 | a match is reported at `p` exactly when the pattern matches there, and it is the one with the shortest capture |
| Extensions.FirstMatch | DrLight/Extensions.cs:15 | the next match found lies at or after the scan position and within the text |
| Extensions.FirstMatchIsMatch | DrLight/Extensions.cs:15 | the next match found is a match of the pattern |
| Extensions.FirstMatchIsLeftmost | DrLight/Extensions.cs:15 | the next match found is the leftmost from the scan position, and none is reported only when no position matches |
| Extensions.FirstMatchSkips | DrLight/Extensions.cs:15 | positions where `start` does not occur are passed over |
| Extensions.MatchesNonEmpty | DrLight/Extensions.cs:15 | a scan reports a match exactly when one is found from its start |
| Extensions.MatchesAreMatches | DrLight/Extensions.cs:15 | every match a scan reports is a match of the pattern at or after its start |
| Extensions.MatchesLeftmost | DrLight/Extensions.cs:15 | matches come left to right without overlap, and no position skipped holds a match: not before the first, not between two, not after the last |
| Extensions.EverythingBetween | DrLight/Extensions.cs:9-21 | the loop returns the captures of all matches of the scan, in order |
| Extensions.CapturesAreMatches | DrLight/Extensions.cs:13-18 | every result is non-empty, holds no line feed, and `start + r + end` occurs in the source where its match begins |
| Extensions.CapturesAreShortest | DrLight/Extensions.cs:13 | non-greedy: `end` does not occur after any proper non-empty prefix of a result |
| Extensions.NoStartNoCaptures | DrLight/Extensions.cs:11-20 | without an occurrence of `start`, the result is empty |
| Extensions.NoEndBeforeNewline | DrLight/Extensions.cs:13-15 | a `start` with no `end` before the next line feed gives no match there |
| Extensions.FirstCaptureRunsToEnd | DrLight/Extensions.cs:13 | with a one-character `end`, the first result runs from the first `start` up to the next `end` character after its first character |
| Segments.FlattenHasNoTab | DrLight/Program.cs:264 | the flattened text holds no tab |
| Segments.FlattenHasNoCrLf | DrLight/Program.cs:264 | the flattened text holds no CRLF |
| Segments.FlattenLine | DrLight/Program.cs:264 | a line without tab or CR, ended by CRLF, becomes the line and a `:` |
| Segments.TabInsideLineBreak | DrLight/Program.cs:264 | tabs go first, so a tab inside a CRLF does not keep it from becoming `:` |
| Segments.ReplaceCrLfConcat | DrLight/Program.cs:264 | the CRLF replacement of two texts whose junction is not a CRLF is the replacement of each |
| Segments.LoneLineFeedSurvives | DrLight/Program.cs:264 | a line feed not preceded by '\r' once tabs are dropped survives flattening, and the text on each side is flattened on its own |
| Segments.LoneCarriageReturnSurvives | DrLight/Program.cs:264 | a '\r' not followed by a line feed once tabs are dropped survives flattening, and the text on each side is flattened on its own |
| Segments.SegmentsFromFile | DrLight/Program.cs:258-273 | the segments are the captures between `Attribute:{:` and `:}:` of the flattened text |
| Segments.SegmentIsBlockBody | DrLight/Program.cs:265 | every segment is non-empty, holds no tab and no line feed, and stands between the block markers in the flattened text |
| Segments.ParseVector | DrLight/Program.cs:292-293 | a vector is read exactly when there are three tokens and each of the first three parses, and it holds their values |
| Segments.ExtraTokensIgnored | DrLight/Program.cs:292-293 | tokens after the third are never read |
| Segments.ParseSegment | DrLight/Program.cs:288-293 | a segment gives a pair exactly when both its Direction and its Tangent field can be read |
| Segments.MissingMarkerSkips | DrLight/Program.cs:288-289 | a segment without `:Direction` or without `:Tangent` is skipped |
| Segments.PairsOf | DrLight/Program.cs:280-306 | the directions of the dictionary built are distinct |
| Segments.LastWriterWins | DrLight/Program.cs:283-305 | a direction is a key exactly when some segment parses with it, and its tangent is the one of the last such segment |
| Segments.MalformedSkipped | DrLight/Program.cs:283-305 | a malformed segment is skipped and the segments after it are still read |
| Segments.ReadSegment | DrLight/Program.cs:288-293 | the body of the `try` yields the pair the segment specifies, or none where it throws |
| Segments.ToPairs | DrLight/Program.cs:280-306 | the loop builds the dictionary of the parse-or-skip fold over the segments |
| Segments.ReadField | DrLight/Program.cs:288 | a field written `marker x y z:` at the first occurrence of its marker is read as the tokens `x`, `y` and `z` |
| Correction.FirstMinIndex | DrLight/Program.cs:109-110 | the index holds a least value, and every earlier value is strictly larger |
| Correction.NearestIndex | DrLight/Program.cs:109-110 | the stable `OrderBy(Distance).First()` position: at least distance from the key, and the first among ties |
| Correction.Nearest | DrLight/Program.cs:109-110 | the nearest entry exists exactly when the cache is non-empty; otherwise `First()` throws |
| Correction.NearestWithinTolerance | DrLight/Program.cs:109-113 | if some cached direction is `==` to the key, so is the nearest one |
| Correction.Classify | DrLight/Program.cs:97-123 | deciding a pair throws exactly when the cache is empty, and then with InvalidOperation |
| Correction.ClassifyHit | DrLight/Program.cs:97-105 | a direction the cache holds is matched to the cached tangent when that tangent is `!=` the pair's, else kept |
| Correction.ClassifyMiss | DrLight/Program.cs:106-123 | a direction the cache misses throws on an empty cache; otherwise it is moved onto the nearest pair when that differs under `!=` in tangent or direction, else kept |
| Correction.PassAt | DrLight/Program.cs:94-124 | the pass from pair `i` decides pair `i`, carries the decision out and goes on from `i + 1`; a throw ends it |
| Correction.PassFails | DrLight/Program.cs:94-124 | the pass throws exactly when the cache is empty and there is a pair, and then with InvalidOperation |
| Correction.PassCounts | DrLight/Program.cs:94-124 | `matched` and `guessed` count the matched and guessed decisions, and their sum never exceeds the number of pairs |
| Correction.KeptIsReferencePair | DrLight/Program.cs:97-123 | a kept pair is `==` in direction and tangent to some cached pair |
| Correction.ClassifyUsesCache | DrLight/Program.cs:97-122 | a matched tangent is the cached one for that direction; a guessed direction is outside the cache and moves onto the nearest cached pair with its cached tangent |
| Correction.ApplyFrame | DrLight/Program.cs:102-120 | one step touches only the pair's own direction and, on a guess, the nearest cached direction, which receives the cached tangent; only the pair's own link can change, and only on a guess: a matched or kept pair writes no link |
| Correction.SettledStable | DrLight/Program.cs:94-124 | a pair whose turn is over stays settled while other pairs take their turns |
| Correction.PendingStable | DrLight/Program.cs:94-124 | a pair whose turn has not come stays in `corrected`, with its own tangent or the cached one |
| Correction.SettledByTurn | DrLight/Program.cs:97-123 | a pending pair is settled by its own turn |
| Correction.PassSettles | DrLight/Program.cs:94-124 | the pass settles every pair, the ones already done and the ones still to come |
| Correction.PassResolvesLinks | DrLight/Program.cs:115-120 | after the pass every direction of the file is a key of `corrected` or links to one, so the lookups at line 205 cannot throw |
| Rewriter.Digits | DrLight/Program.cs:220-233 | precisions 7 and 6 give that many digits; any other value gives 8 |
| Rewriter.Render | DrLight/Program.cs:216-235 | a rendering starts with two tabs and `Direction ` and ends with CRLF |
| Rewriter.RenderDefaultsToEight | DrLight/Program.cs:220-233 | a precision other than 7 or 6 renders exactly as 8 |
| Rewriter.RenderSearchReplace | DrLight/Program.cs:192-207 | the search text is the original pair rendered; the replacement is the direction with its `processed` tangent when the direction is still a key, else the linked direction with its `processed` tangent; it fails, with KeyNotFound, exactly when the direction is neither a key of `processed` nor linked to one |
| Rewriter.ChosenTier | DrLight/Program.cs:150-182 | the tier chosen is one whose search text occurs, and no earlier tier's does; 3 means none occurs |
| Rewriter.PatchAtFirstTier | DrLight/Program.cs:150-182 | a pair is patched at the first tier found, everywhere, with that tier's replacement; with no tier found the text is unchanged; only an unresolvable direction throws |
| Rewriter.PatchShowsCorrection | DrLight/Program.cs:155-157 | where a tier is found, the corrected rendering is in the patched text |
| Rewriter.UnchangedPairKeepsText | DrLight/Program.cs:150-187 | a pair whose direction and tangent were kept leaves the text unchanged |
| Rewriter.RewrittenUnchanged | DrLight/Program.cs:150-187 | when every pair kept its direction and its tangent, the text written back is the original text |
| Rewriter.RewriteFailsOnlyOnMissingKey | DrLight/Program.cs:150-187 | rewriting fails, with KeyNotFound, exactly when some pair's direction cannot be resolved |
| Rewriter.FlattenRender | DrLight/Program.cs:216-235 | a rendering, flattened, is its two lines without indentation, each followed by `:` |
| Rewriter.RenderReadsBack | DrLight/Program.cs:216-233 | round trip: a rendered pair, flattened, after segment text that holds neither field marker, is read back by `ParseSegment` (the body of the `try` in `ToPairs`) as the parsed formatted components of its direction and tangent |
| DoctorLight.AllSegmentsConcat | DrLight/Program.cs:242-251 | the segments of two batches of files are those of the first, then those of the second |
| DoctorLight.OneFileSegments | DrLight/Program.cs:242-251 | one file contributes exactly its own segments |
| DoctorLight.GetSegments | DrLight/Program.cs:242-251 | the loop collects the segments of every file, in file order |
| DoctorLight.RepairOutcome | DrLight/Program.cs:86-131 | repairing a file throws exactly when the cache is empty and the file has a pair, then with InvalidOperation; otherwise it reports every pair found, and matched + guessed never exceeds that number |
| DoctorLight.ReplaceFollowsDecision | DrLight/Program.cs:195-205 | after the pass, the replacement written for each pair is what the pass decided: a matched pair with the cached tangent, a guessed pair as its nearest cached pair, a kept pair under its own direction with a tangent within tolerance of the cached one, or unchanged outside the cache |
| DoctorLight.NoPairsNoChange | DrLight/Program.cs:91-126 | a file without pairs is written back unchanged, with all counts zero, and no link is added |
| DoctorLight.Program.constructor | DrLight/Program.cs:51-64 | the lookup starts empty and the cache is the dictionary of all reference segments, with distinct directions |
| DoctorLight.Program.CorrectPair | DrLight/Program.cs:97-123 | one turn of the loop carries out the decision for the pair, writes a link only on a guess, and leaves the cache unchanged |
| DoctorLight.Program.CorrectionPass | DrLight/Program.cs:91-124 | the loop yields the pass over the file's pairs, keeps the cache unchanged, and leaves the lookup holding the pass's links, or unchanged when it throws |
| DoctorLight.Program.WriteToFile | DrLight/Program.cs:146-190 | the loop yields the pairs patched one after the other, and fails exactly when some direction cannot be resolved |
| DoctorLight.Program.RepairFile | DrLight/Program.cs:86-131 | one submitted file is repaired as `Repair` states, and the lookup afterwards holds the pass's links |

## Left out

- Console output, `ReadKey`, the argument checks and the creation of the reference directory in `Main` (DrLight/Program.cs:21-49, 83-86, 129-137): user interface.
- The JSON cache and the `Pair` class (DrLight/Program.cs:53-78, 309-313): serialization through a foreign library and file I/O. The constructor of `Program` always builds the cache from the reference texts.
- The early return when the reference folder holds no `.light` file (DrLight/Program.cs:57-62): the source prints a message, waits for a key and ends the run, so no submitted file is repaired. The model does not capture this exit: its constructor given no reference text builds an empty cache and `RepairFile` goes on. That empty-cache behaviour (the `First()` exception for a file with pairs, the text unchanged otherwise) is what the source reaches when reference files exist but none of them yields a pair.
- `File.ReadAllText`, `File.WriteAllText` and the `try/catch` around reading in `SegmentsFromFile` (DrLight/Program.cs:148, 189, 261-271): file I/O. File contents are parameters and results.
- The `foreach` over submitted paths in `Main` (DrLight/Program.cs:81): `Program.RepairFile` is its body for one file. The fields of `Program` carry the state from one file to the next.
- The message printed when no tier of a pair is found (DrLight/Program.cs:184-186): console output. The text is left unchanged, as in the source.
- `F8`/`F7`/`F6` formatting and `Convert.ToDouble`: floating-point text conversion. They are the parameters `fmt` and `parse`.
- Rewriter.RenderReadsBack: the round trip stops at `parse` applied to `fmt`'s output. Whether that gives the original double back depends on rounding, which is not modelled. It covers a pair whose Direction line is not the first line of its block, and text before it that holds no `:Direction` or `:Tangent`; an earlier field marker makes `ParseField` read that field instead.
- Double arithmetic: vectors hold exact reals, so rounding in `operator -` and in `SqrMagnitude` is not modelled.
- `Distance`'s square root: ordering by `Distance` is modelled as ordering by the squared distance. `Vectors.DistanceOrderIsSqrOrder` shows any non-negative roots order the same way.
- `Normalize`, `magnitude`, `Angle`, `Reflect`, `Project`, `Exclude`, `ClampMagnitude`, `Min`/`Max`, the arithmetic operators other than binary `-`, and the `float` and two-argument constructors (DrLight/Vector3d.cs): they are not used by the repair pipeline. The three-`double` constructor (DrLight/Vector3d.cs:128-132), used at DrLight/Program.cs:292-293, is the datatype constructor `Vec(x, y, z)`.
- `GetHashCode` (DrLight/Vector3d.cs:180-182): every `Dictionary` operation on a vector key calls it. It combines the hashes of the three components, so vectors equal under `Equals` hash alike. Lookup is therefore decided by `Equals` alone, and the model keys its maps by exact datatype equality.
- `ToString` (DrLight/Vector3d.cs:214): it only feeds the console message at DrLight/Program.cs:186, which is left out.
- Vectors.WithComponent: `Vector3d` is a struct, so the indexer setter is modelled as a function returning the updated value, not as an update in place.
- Vectors.SqrMagnitude: states only non-negativity. That the squared distance is zero only for equal vectors is not stated.
- The general .NET regular-expression engine: only the shape `literal(.+?)literal` that `EverythingBetween` builds is modelled.
- DoctorLight.Program.CorrectionPass: the body of the source loop is the separate method `Program.CorrectPair`. `CorrectPair` receives the local `corrected` dictionary and counters and returns their new values.
