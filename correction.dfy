/**
  The correction pass of `Main` (DrLight/Program.cs:91-124), as functions.

  For each pair of the file, in enumeration order, the reference cache
  (`SegmentCache`) decides one of three things: keep the pair, replace its
  tangent by the reference tangent of the same direction ("matched"), or move
  the pair to the nearest reference direction and link the old direction to
  it ("guessed"). The decision depends only on the cache and the pair; the
  `corrected` dictionary, the replacement links and the two counters are the
  state the decisions are applied to.
*/
module Correction {
  import opened Wrappers
  import opened Vectors
  import opened Dictionaries

  /** The squared distance from `q` to each reference direction, in enumeration order. */
  function Distances(reference: seq<Entry>, q: Vec): seq<real>
  {
    seq(|reference|, j requires 0 <= j < |reference| => SqrDistance(q, reference[j].key))
  }

  /** The first position of a least element: what a stable sort puts first. */
  function FirstMinIndex(ds: seq<real>): (i: nat)
    requires |ds| > 0
    ensures i < |ds|
    ensures forall j :: 0 <= j < |ds| ==> ds[i] <= ds[j]
    ensures forall j :: 0 <= j < i ==> ds[i] < ds[j]
    decreases |ds|
  {
    if |ds| == 1 then 0
    else
      var k := FirstMinIndex(ds[..|ds| - 1]);
      if ds[|ds| - 1] < ds[k] then |ds| - 1 else k
  }

  /**
    The position of `SegmentCache.OrderBy(a => Distance(q, a.Key)).First()`:
    a reference entry at least distance from `q`, the first one among ties.
    Ordering by `Distance` is ordering by its square (Vectors.DistanceOrderIsSqrOrder).
  */
  function NearestIndex(reference: seq<Entry>, q: Vec): (i: nat)
    requires |reference| > 0
    ensures i < |reference|
    ensures forall j :: 0 <= j < |reference| ==> SqrDistance(q, reference[i].key) <= SqrDistance(q, reference[j].key)
    ensures forall j :: 0 <= j < i ==> SqrDistance(q, reference[i].key) < SqrDistance(q, reference[j].key)
  {
    var ds := Distances(reference, q);
    var i := FirstMinIndex(ds);
    assert forall j :: 0 <= j < |reference| ==> ds[j] == SqrDistance(q, reference[j].key);
    i
  }

  /** The nearest reference entry, or None where `First()` throws on an empty cache. */
  function Nearest(reference: seq<Entry>, q: Vec): (r: Option<Entry>)
    ensures r.Some? <==> |reference| > 0
  {
    if |reference| == 0 then None else Some(reference[NearestIndex(reference, q)])
  }

  /** When some reference direction is within tolerance of `q`, so is the nearest one. */
  lemma NearestWithinTolerance(reference: seq<Entry>, q: Vec, j: nat)
    requires j < |reference| && TolEq(q, reference[j].key)
    ensures Nearest(reference, q).Some? && TolEq(q, Nearest(reference, q).value.key)
  {
  }

  /** What happens to one pair. */
  datatype Disposition =
    | Kept                    // left as it is
    | Matched(tangent: Vec)   // same direction, the reference tangent
    | Guessed(closest: Entry) // moved onto the nearest reference pair

  /**
    The decision of lines 97-123 for pair `e`. An exact direction hit
    (`TryGetValue`) is matched when the tangents differ under `!=`; a miss is
    guessed when the nearest reference pair differs from `e` under `!=` in
    tangent or direction. A miss on an empty cache throws.
  */
  function Classify(reference: seq<Entry>, e: Entry): (r: Result<Disposition, Fault>)
    ensures r.Err? <==> |reference| == 0
    ensures r == Err(InvalidOperation) || r.Ok?
  {
    var cache := ToMap(reference);
    ToMapKeys(reference, e.key);
    if e.key in cache then
      var m := cache[e.key];
      if TolNe(m, e.value) then Ok(Matched(m)) else Ok(Kept)
    else
      match Nearest(reference, e.key)
      case None => Err(InvalidOperation)
      case Some(c) =>
        if TolNe(c.value, e.value) || TolNe(c.key, e.key) then Ok(Guessed(c)) else Ok(Kept)
  }

  /** The state the loop of lines 94-124 carries: `corrected`, the replacement links and the counters. */
  datatype Tally = Tally(corrected: map<Vec, Vec>, links: map<Vec, Vec>, matched: nat, guessed: nat)

  /** Carries out a decision for pair `e`. */
  function Apply(t: Tally, e: Entry, d: Disposition): Tally
  {
    match d
    case Kept => t
    case Matched(m) => t.(corrected := t.corrected[e.key := m], matched := t.matched + 1)
    case Guessed(c) =>
      t.(corrected := (t.corrected - {e.key})[c.key := c.value],
         links := t.links[e.key := c.key],
         guessed := t.guessed + 1)
  }

  /** The pass over `segments` from state `t`: an exception ends it. */
  function Pass(reference: seq<Entry>, t: Tally, segments: seq<Entry>): Result<Tally, Fault>
    decreases |segments|
  {
    if segments == [] then Ok(t)
    else
      match Classify(reference, segments[0])
      case Err(f) => Err(f)
      case Ok(d) => Pass(reference, Apply(t, segments[0], d), segments[1..])
  }

  /** A direction the cache holds is matched when the cached tangent differs under `!=`, else kept. */
  lemma ClassifyHit(reference: seq<Entry>, e: Entry)
    requires e.key in ToMap(reference)
    ensures var m := ToMap(reference)[e.key];
      Classify(reference, e) == Ok(if TolNe(m, e.value) then Matched(m) else Kept)
  {
  }

  /**
    A direction the cache misses throws when the cache is empty, else is
    guessed when the nearest pair differs under `!=`, else kept.
  */
  lemma ClassifyMiss(reference: seq<Entry>, e: Entry)
    requires e.key !in ToMap(reference)
    ensures Nearest(reference, e.key).None? ==> Classify(reference, e) == Err(InvalidOperation)
    ensures Nearest(reference, e.key).Some? ==>
      var c := Nearest(reference, e.key).value;
      Classify(reference, e) == Ok(if TolNe(c.value, e.value) || TolNe(c.key, e.key) then Guessed(c) else Kept)
  {
  }

  /** The pass from pair `i` on: pair `i` is decided, then the pass goes on from `i + 1`. */
  lemma PassAt(reference: seq<Entry>, t: Tally, segments: seq<Entry>, i: nat)
    requires i < |segments|
    ensures var d := Classify(reference, segments[i]);
      Pass(reference, t, segments[i..])
        == if d.Err? then Err(d.error) else Pass(reference, Apply(t, segments[i], d.value), segments[i + 1..])
  {
    assert segments[i..][0] == segments[i] && segments[i..][1..] == segments[i + 1..];
  }

  /** `goal` is what the pass yields from state `t` over the pairs from index `i` on. */
  ghost predicate PassYields(reference: seq<Entry>, t: Tally, segments: seq<Entry>, i: nat, goal: Result<Tally, Fault>)
  {
    i <= |segments| && goal == Pass(reference, t, segments[i..])
  }

  /** Deciding pair `i` and carrying the decision out moves the pass on to pair `i + 1`. */
  lemma PassYieldsStep(reference: seq<Entry>, t: Tally, segments: seq<Entry>, i: nat, goal: Result<Tally, Fault>, d: Disposition)
    requires PassYields(reference, t, segments, i, goal) && i < |segments|
    requires Classify(reference, segments[i]) == Ok(d)
    ensures PassYields(reference, Apply(t, segments[i], d), segments, i + 1, goal)
  {
    PassAt(reference, t, segments, i);
  }

  /** A pair whose decision throws ends the pass with that exception. */
  lemma PassYieldsError(reference: seq<Entry>, t: Tally, segments: seq<Entry>, i: nat, goal: Result<Tally, Fault>, f: Fault)
    requires PassYields(reference, t, segments, i, goal) && i < |segments|
    requires Classify(reference, segments[i]) == Err(f)
    ensures goal == Err(f)
  {
    PassAt(reference, t, segments, i);
  }

  /** Past the last pair, the pass yields the state reached. */
  lemma PassYieldsEnd(reference: seq<Entry>, t: Tally, segments: seq<Entry>, goal: Result<Tally, Fault>)
    requires PassYields(reference, t, segments, |segments|, goal)
    ensures goal == Ok(t)
  {
    assert segments[|segments|..] == [];
  }

  /** The pass throws exactly when the cache is empty and there is a pair to correct. */
  lemma {:induction false} PassFails(reference: seq<Entry>, t: Tally, segments: seq<Entry>)
    ensures Pass(reference, t, segments).Err? <==> |reference| == 0 && |segments| > 0
    ensures Pass(reference, t, segments).Err? ==> Pass(reference, t, segments).error == InvalidOperation
    decreases |segments|
  {
    if segments != [] && |reference| > 0 {
      var d := Classify(reference, segments[0]).value;
      PassFails(reference, Apply(t, segments[0], d), segments[1..]);
    }
  }

  /** Pairs the pass matches. */
  function MatchedCount(reference: seq<Entry>, segments: seq<Entry>): nat
    decreases |segments|
  {
    if segments == [] then 0
    else
      var here := if Classify(reference, segments[0]).Ok? && Classify(reference, segments[0]).value.Matched? then 1 else 0;
      here + MatchedCount(reference, segments[1..])
  }

  /** Pairs the pass guesses. */
  function GuessedCount(reference: seq<Entry>, segments: seq<Entry>): nat
    decreases |segments|
  {
    if segments == [] then 0
    else
      var here := if Classify(reference, segments[0]).Ok? && Classify(reference, segments[0]).value.Guessed? then 1 else 0;
      here + GuessedCount(reference, segments[1..])
  }

  /**
    The counters count the decisions, and no pair is counted twice:
    `matched + guessed` never exceeds the number of pairs.
  */
  lemma {:induction false} PassCounts(reference: seq<Entry>, t: Tally, segments: seq<Entry>)
    requires Pass(reference, t, segments).Ok?
    ensures var out := Pass(reference, t, segments).value;
      && out.matched == t.matched + MatchedCount(reference, segments)
      && out.guessed == t.guessed + GuessedCount(reference, segments)
      && MatchedCount(reference, segments) + GuessedCount(reference, segments) <= |segments|
    decreases |segments|
  {
    if segments != [] {
      var d := Classify(reference, segments[0]).value;
      PassCounts(reference, Apply(t, segments[0], d), segments[1..]);
    }
  }

  /**
    A kept pair is, within tolerance, a pair of the cache: the reference pair
    of the same direction, or the nearest one.
  */
  lemma KeptIsReferencePair(reference: seq<Entry>, e: Entry)
    requires Classify(reference, e) == Ok(Kept)
    ensures exists c :: c in reference && TolEq(c.key, e.key) && TolEq(c.value, e.value)
  {
    var cache := ToMap(reference);
    ToMapKeys(reference, e.key);
    if e.key in cache {
      var i := KeyIndex(reference, e.key);
      ToMapAtKeyIndex(reference, e.key);
      KeptHit(reference, e, i);
    } else {
      var c := Nearest(reference, e.key).value;
      assert c in reference;
      TolNeIsNotTolEq(c.key, e.key);
      TolNeIsNotTolEq(c.value, e.value);
    }
  }

  /** The exact-hit half of KeptIsReferencePair. */
  lemma KeptHit(reference: seq<Entry>, e: Entry, i: nat)
    requires Classify(reference, e) == Ok(Kept)
    requires i < |reference| && reference[i].key == e.key
    requires e.key in ToMap(reference) && ToMap(reference)[e.key] == reference[i].value
    ensures reference[i] in reference && TolEq(reference[i].key, e.key) && TolEq(reference[i].value, e.value)
  {
    TolEqReflexive(e.key);
    TolNeIsNotTolEq(reference[i].value, e.value);
  }

  /**
    The decisions draw on the cache only: a matched tangent is the cache's
    tangent for that direction, and a guess moves a direction outside the
    cache onto the nearest cache pair, whose tangent is the cache's.
  */
  lemma ClassifyUsesCache(reference: seq<Entry>, e: Entry)
    requires DistinctKeys(reference)
    requires Classify(reference, e).Ok?
    ensures var d := Classify(reference, e).value;
      var cache := ToMap(reference);
      && (d.Matched? ==> e.key in cache && d.tangent == cache[e.key] && TolNe(cache[e.key], e.value))
      && (d.Guessed? ==> e.key !in cache && Some(d.closest) == Nearest(reference, e.key)
                         && d.closest.key in cache && cache[d.closest.key] == d.closest.value)
  {
    if e.key !in ToMap(reference) {
      ToMapAt(reference, NearestIndex(reference, e.key));
    }
  }

  /** Before its turn: pair `e` is in `corrected`, with its own tangent or with the cache's. */
  predicate Pending(cache: map<Vec, Vec>, e: Entry, t: Tally)
  {
    e.key in t.corrected && (t.corrected[e.key] == e.value || (e.key in cache && t.corrected[e.key] == cache[e.key]))
  }

  /**
    After its turn, by the decision taken for it: a kept pair is in
    `corrected` with a tangent within tolerance of the cache's (or its own,
    outside the cache); a matched pair holds the cache tangent; a guessed
    pair is gone, and its link leads to the nearest cache pair, which is in
    `corrected` with the cache tangent.
  */
  predicate Settled(reference: seq<Entry>, e: Entry, t: Tally)
  {
    var cache := ToMap(reference);
    match Classify(reference, e)
    case Err(_) => false
    case Ok(Kept) =>
      e.key in t.corrected
      && (if e.key in cache then TolEq(cache[e.key], t.corrected[e.key]) else t.corrected[e.key] == e.value)
    case Ok(Matched(m)) => e.key in t.corrected && t.corrected[e.key] == m
    case Ok(Guessed(c)) =>
      && e.key !in t.corrected && e.key in t.links && t.links[e.key] == c.key
      && c.key in t.corrected && t.corrected[c.key] == c.value
  }

  /**
    What one step does to the other directions: only the pair's own
    direction and, on a guess, the nearest cache direction are touched; a
    touched cache direction receives the cache tangent; no link but the
    pair's own changes.
  */
  lemma ApplyFrame(reference: seq<Entry>, t: Tally, x: Entry, k: Vec)
    requires DistinctKeys(reference)
    requires Classify(reference, x).Ok?
    ensures var d := Classify(reference, x).value;
      var t' := Apply(t, x, d);
      var cache := ToMap(reference);
      && (k != x.key && (d.Guessed? ==> k != d.closest.key) ==>
            (k in t'.corrected <==> k in t.corrected) && (k in t.corrected ==> t'.corrected[k] == t.corrected[k]))
      && (k != x.key && k in t.corrected ==> k in t'.corrected)
      && (k != x.key && k in t'.corrected && k in t.corrected ==>
            t'.corrected[k] == t.corrected[k] || (k in cache && t'.corrected[k] == cache[k]))
      && (k !in cache && k != x.key ==>
            (k in t'.corrected <==> k in t.corrected) && (k in t.corrected ==> t'.corrected[k] == t.corrected[k]))
      && (k in cache && k in t.corrected && t.corrected[k] == cache[k] ==> k in t'.corrected && t'.corrected[k] == cache[k])
      && (k != x.key ==> (k in t'.links <==> k in t.links) && (k in t.links ==> t'.links[k] == t.links[k]))
      && (!d.Guessed? ==> t'.links == t.links)
  {
    ClassifyUsesCache(reference, x);
  }

  /** A pair whose turn is over stays settled while the other pairs take theirs. */
  lemma SettledStable(reference: seq<Entry>, t: Tally, x: Entry, e: Entry)
    requires DistinctKeys(reference)
    requires Classify(reference, x).Ok? && x.key != e.key
    requires Settled(reference, e, t)
    ensures Settled(reference, e, Apply(t, x, Classify(reference, x).value))
  {
    var cache := ToMap(reference);
    var t' := Apply(t, x, Classify(reference, x).value);
    ApplyFrame(reference, t, x, e.key);
    ClassifyUsesCache(reference, e);
    match Classify(reference, e).value
    case Kept =>
      if e.key in cache && t'.corrected[e.key] != t.corrected[e.key] {
        TolEqReflexive(cache[e.key]);
      }
    case Matched(m) =>
    case Guessed(c) =>
      ApplyFrame(reference, t, x, c.key);
  }

  /** A pair whose turn has not come stays pending while the other pairs take theirs. */
  lemma PendingStable(reference: seq<Entry>, t: Tally, x: Entry, e: Entry)
    requires DistinctKeys(reference)
    requires Classify(reference, x).Ok? && x.key != e.key
    requires Pending(ToMap(reference), e, t)
    ensures Pending(ToMap(reference), e, Apply(t, x, Classify(reference, x).value))
  {
    ApplyFrame(reference, t, x, e.key);
  }

  /** A pending pair is settled by its own turn. */
  lemma SettledByTurn(reference: seq<Entry>, t: Tally, e: Entry)
    requires DistinctKeys(reference)
    requires Classify(reference, e).Ok?
    requires Pending(ToMap(reference), e, t)
    ensures Settled(reference, e, Apply(t, e, Classify(reference, e).value))
  {
    var cache := ToMap(reference);
    ClassifyUsesCache(reference, e);
    match Classify(reference, e).value
    case Kept =>
      if e.key in cache {
        TolNeIsNotTolEq(cache[e.key], e.value);
        if t.corrected[e.key] == cache[e.key] {
          TolEqReflexive(cache[e.key]);
        }
      }
    case Matched(m) =>
    case Guessed(c) =>
  }

  /** Splitting a sequence with distinct keys: a pair before the split and the first pair after it differ in direction. */
  lemma DistinctAcross(done: seq<Entry>, todo: seq<Entry>, e: Entry)
    requires DistinctKeys(done + todo) && |todo| > 0
    ensures e in done ==> e.key != todo[0].key
    ensures e in todo[1..] ==> e.key != todo[0].key
  {
    var all := done + todo;
    if e in done {
      var i :| 0 <= i < |done| && done[i] == e;
      assert all[i] == e && all[|done|] == todo[0];
    }
    if e in todo[1..] {
      var i :| 0 <= i < |todo| - 1 && todo[1..][i] == e;
      assert all[|done| + 1 + i] == e && all[|done|] == todo[0];
    }
  }

  /** The pass settles every pair: the ones already done and the ones still pending. */
  lemma {:induction false} PassSettles(reference: seq<Entry>, t: Tally, done: seq<Entry>, todo: seq<Entry>)
    requires DistinctKeys(reference) && DistinctKeys(done + todo)
    requires forall e :: e in done ==> Settled(reference, e, t)
    requires forall e :: e in todo ==> Pending(ToMap(reference), e, t)
    requires Pass(reference, t, todo).Ok?
    ensures forall e :: e in done + todo ==> Settled(reference, e, Pass(reference, t, todo).value)
    decreases |todo|
  {
    if todo == [] {
      assert done + todo == done;
    } else {
      var x := todo[0];
      var t' := Apply(t, x, Classify(reference, x).value);
      forall e | e in done
        ensures Settled(reference, e, t')
      {
        DistinctAcross(done, todo, e);
        SettledStable(reference, t, x, e);
      }
      SettledByTurn(reference, t, x);
      forall e | e in todo[1..]
        ensures Pending(ToMap(reference), e, t')
      {
        DistinctAcross(done, todo, e);
        PendingStable(reference, t, x, e);
      }
      assert (done + [x]) + todo[1..] == done + todo;
      PassSettles(reference, t', done + [x], todo[1..]);
    }
  }

  /**
    Every pair of the file is settled by a pass that starts from `corrected`
    as a copy of the file's pairs; in particular every direction of the file
    is still in `corrected`, or links to a direction that is. This is what
    makes the lookups of `RenderSearchReplace` (DrLight/Program.cs:205) safe.
  */
  lemma PassResolvesLinks(reference: seq<Entry>, segments: seq<Entry>, links: map<Vec, Vec>)
    requires DistinctKeys(reference) && DistinctKeys(segments)
    requires Pass(reference, Tally(ToMap(segments), links, 0, 0), segments).Ok?
    ensures var out := Pass(reference, Tally(ToMap(segments), links, 0, 0), segments).value;
      forall e :: e in segments ==>
        && Settled(reference, e, out)
        && (e.key in out.corrected || (e.key in out.links && out.links[e.key] in out.corrected))
  {
    var t := Tally(ToMap(segments), links, 0, 0);
    StartPending(reference, segments, links);
    assert [] + segments == segments;
    PassSettles(reference, t, [], segments);
  }

  /** With `corrected` a copy of the file's pairs, every pair is pending before the pass. */
  lemma StartPending(reference: seq<Entry>, segments: seq<Entry>, links: map<Vec, Vec>)
    requires DistinctKeys(segments)
    ensures forall e :: e in segments ==> Pending(ToMap(reference), e, Tally(ToMap(segments), links, 0, 0))
  {
    forall e | e in segments
      ensures Pending(ToMap(reference), e, Tally(ToMap(segments), links, 0, 0))
    {
      var i :| 0 <= i < |segments| && segments[i] == e;
      ToMapAt(segments, i);
    }
  }
}
