/**
 * The scorer object: it scores a result set by visual similarity to a
 * reference image and then re-sequences the best hits. Line numbers in
 * comments refer to ImageSimilarityScorer.java.
 */
module ImageSimilarityScoring {
  import opened ScorerTypes
  import opened ScoreConversion
  import opened TopSelection
  import opened ChainReorder

  /**
   * What organizing a sorted selection guarantees about the reordered tail:
   * the identical prefix keeps its place and scores, the tail keeps its
   * members, and the tail scores fall evenly from the tail's first score to
   * its last one.
   */
  lemma {:induction false} ReorderedTail(sel: seq<int>, sc: seq<real>, ctx: Context, start: nat, r: seq<int>)
    requires InRange(sel, |sc|) && Distinct(sel)
    requires forall i, j :: 0 <= i < j < |sel| ==> sc[sel[i]] >= sc[sel[j]]
    requires start == StartOf(sel, sc) && start + 2 < |sel|
    requires r == Chain(sel, start - 1, ctx)
    ensures |r| == |sel| && InRange(r, |sc|) && Distinct(r)
    ensures r[..start] == sel[..start] && multiset(r[start..]) == multiset(sel[start..])
    ensures var sc' := Relabelled(sc, r, start, |r|, TailScores(sc[sel[start]], sc[sel[|sel| - 1]], |sel| - start));
      && (forall k :: 0 <= k < start ==> sc'[r[k]] == sc[r[k]])
      && (forall p :: 0 <= p < |sc| && p !in r[start..] ==> sc'[p] == sc[p])
      && sc'[r[start]] == sc[sel[start]] && sc'[r[|r| - 1]] == sc[sel[|sel| - 1]]
      && (forall k, l :: 0 <= k <= l < |r| ==> sc'[r[k]] >= sc'[r[l]])
  {
    ChainSpec(sel, start - 1, ctx);
    ChainKeepsMembers(sel, start, ctx);
    TailOfPermutation(sel, r, sc, start);
    var sc' := Relabelled(sc, r, start, |r|, TailScores(sc[sel[start]], sc[sel[|sel| - 1]], |sel| - start));
    SortedAcrossSeam(sel, r, sc, sc', start);
  }

  /**
   * A list that keeps the first start entries of a sorted list with their
   * scores, and whose entries from start on are in non-increasing score
   * beginning at the score of sel[start], is sorted as a whole.
   */
  lemma SortedAcrossSeam(sel: seq<int>, r: seq<int>, sc: seq<real>, sc': seq<real>, start: nat)
    requires |r| == |sel| && start < |r| && InRange(sel, |sc|) && InRange(r, |sc'|) && |sc'| == |sc|
    requires forall i, j :: 0 <= i < j < |sel| ==> sc[sel[i]] >= sc[sel[j]]
    requires r[..start] == sel[..start]
    requires forall k :: 0 <= k < start ==> sc'[r[k]] == sc[r[k]]
    requires sc'[r[start]] == sc[sel[start]]
    requires forall k, l :: start <= k <= l < |r| ==> sc'[r[k]] >= sc'[r[l]]
    ensures forall k, l :: 0 <= k <= l < |r| ==> sc'[r[k]] >= sc'[r[l]]
  {
    forall k | 0 <= k < start ensures r[k] == sel[k] {
      assert r[..start][k] == r[k] && sel[..start][k] == sel[k];
    }
    forall k, l | 0 <= k <= l < |r| ensures sc'[r[k]] >= sc'[r[l]] {
      if l < start {
        assert k == l || sc[sel[k]] >= sc[sel[l]];
      } else if k < start {
        assert sc[sel[k]] >= sc[sel[start]];
      }
    }
  }

  /** ReorderedTail for any distinct r that permutes the sorted sel, when 1 <= start and start + 2 < |sel|. */
  lemma {:induction false} TailOfPermutation(sel: seq<int>, r: seq<int>, sc: seq<real>, start: nat)
    requires InRange(sel, |sc|) && Distinct(r)
    requires forall i, j :: 0 <= i < j < |sel| ==> sc[sel[i]] >= sc[sel[j]]
    requires 1 <= start && start + 2 < |sel| && |r| == |sel| && multiset(r) == multiset(sel)
    ensures InRange(r, |sc|)
    ensures var vals := TailScores(sc[sel[start]], sc[sel[|sel| - 1]], |sel| - start);
      var sc' := Relabelled(sc, r, start, |r|, vals);
      && (forall k :: 0 <= k < start ==> sc'[r[k]] == sc[r[k]])
      && (forall p :: 0 <= p < |sc| && p !in r[start..] ==> sc'[p] == sc[p])
      && sc'[r[start]] == sc[sel[start]] && sc'[r[|r| - 1]] == sc[sel[|sel| - 1]]
      && (forall k, l :: start <= k <= l < |r| ==> sc'[r[k]] >= sc'[r[l]])
  {
    PermutationInRange(r, sel, |sc|);
    var hi, lo, n := sc[sel[start]], sc[sel[|sel| - 1]], |sel| - start;
    assert hi >= lo;
    TailScoresShape(hi, lo, n);
    RelabelledTail(sc, r, start, TailScores(hi, lo, n));
    RelabelledSpec(sc, r, start, |r|, TailScores(hi, lo, n));
    assert r[start..|r|] == r[start..];
  }

  /**
   * What organizing the sorted selection sel promises about the final top
   * results r and scores sc: r holds the positions of sel, each once; the
   * identical prefix before start keeps its place and scores; the first
   * entry of the tail and the last entry of the list keep their scores; read
   * with the new scores r is in non-increasing order; and positions outside r
   * keep their scores.
   */
  ghost predicate OrganizeGuarantees(sel: seq<int>, sc0: seq<real>, start: nat, r: seq<int>, sc: seq<real>)
    requires InRange(sel, |sc0|)
  {
    && |r| == |sel| && multiset(r) == multiset(sel) && Distinct(r)
    && InRange(r, |sc0|) && |sc| == |sc0|
    && (forall k :: 0 <= k < start && k < |sel| ==> r[k] == sel[k] && sc[sel[k]] == sc0[sel[k]])
    && (start < |r| ==> sc[r[start]] == sc0[sel[start]])
    && (|r| > 0 ==> sc[r[|r| - 1]] == sc0[sel[|sel| - 1]])
    && (forall k, l :: 0 <= k <= l < |r| ==> sc[r[k]] >= sc[r[l]])
    && (forall p :: 0 <= p < |sc0| && p !in r ==> sc[p] == sc0[p])
  }

  /** Leaving a distinct sorted selection and its scores as they are meets the guarantees. */
  lemma SelectionGuarantees(sel: seq<int>, sc0: seq<real>, start: nat)
    requires InRange(sel, |sc0|) && Distinct(sel)
    requires forall i, j :: 0 <= i < j < |sel| ==> sc0[sel[i]] >= sc0[sel[j]]
    ensures OrganizeGuarantees(sel, sc0, start, sel, sc0)
  {
    forall k, l | 0 <= k <= l < |sel| ensures sc0[sel[k]] >= sc0[sel[l]] {
      if k < l {
        assert sc0[sel[k]] >= sc0[sel[l]];
      }
    }
  }

  /** Chaining and rescoring the long similar tail of a sorted selection meets the guarantees. */
  lemma ReorderGuarantees(sel: seq<int>, sc0: seq<real>, ctx: Context, start: nat, r: seq<int>, sc: seq<real>)
    requires InRange(sel, |sc0|) && Distinct(sel)
    requires forall i, j :: 0 <= i < j < |sel| ==> sc0[sel[i]] >= sc0[sel[j]]
    requires start == StartOf(sel, sc0) && start + 2 < |sel|
    requires r == Chain(sel, start - 1, ctx) && InRange(r, |sc0|)
    requires sc == Relabelled(sc0, r, start, |r|, TailScores(sc0[sel[start]], sc0[sel[|sel| - 1]], |sel| - start))
    ensures OrganizeGuarantees(sel, sc0, start, r, sc)
  {
    ReorderedTail(sel, sc0, ctx, start, r);
    GuaranteesFromParts(sel, sc0, start, r, sc);
  }

  /**
   * A list that keeps the first start entries of sel and permutes the rest,
   * with scores that keep the prefix and every position outside the tail
   * and are non-increasing along the list, meets the guarantees.
   */
  lemma GuaranteesFromParts(sel: seq<int>, sc0: seq<real>, start: nat, r: seq<int>, sc: seq<real>)
    requires InRange(sel, |sc0|) && start <= |sel| && |r| == |sel|
    requires InRange(r, |sc0|) && Distinct(r) && |sc| == |sc0|
    requires r[..start] == sel[..start] && multiset(r[start..]) == multiset(sel[start..])
    requires forall k :: 0 <= k < start ==> sc[r[k]] == sc0[r[k]]
    requires start < |r| ==> sc[r[start]] == sc0[sel[start]]
    requires |r| > 0 ==> sc[r[|r| - 1]] == sc0[sel[|sel| - 1]]
    requires forall p :: 0 <= p < |sc0| && p !in r[start..] ==> sc[p] == sc0[p]
    requires forall k, l :: 0 <= k <= l < |r| ==> sc[r[k]] >= sc[r[l]]
    ensures OrganizeGuarantees(sel, sc0, start, r, sc)
  {
    assert r == r[..start] + r[start..];
    assert sel == sel[..start] + sel[start..];
    SliceMembers(r, start);
    forall k | 0 <= k < start ensures r[k] == sel[k] {
      assert r[..start][k] == r[k] && sel[..start][k] == sel[k];
    }
  }

  /** Every score is 0, for a position without a match, or at least MinScore. */
  predicate ZeroOrAtLeastMin(sc: seq<real>) {
    forall p :: 0 <= p < |sc| ==> sc[p] == 0.0 || sc[p] >= MinScore
  }

  /** Every score is at most 100, or is the sentinel of an identical image. */
  predicate OnHundredScale(sc: seq<real>) {
    forall p :: 0 <= p < |sc| ==> sc[p] <= 100.0 || sc[p] == IdenticalScore
  }

  /**
   * Organizing keeps the scores' bounds: when every selected position scores
   * at least MinScore, so does every listed position afterwards, since no
   * new score falls below the last selected one. With start the true start
   * of the tail, every tail score is at most the tail's first score, which is
   * below the identical score, so a scale of 100 is kept as well.
   */
  lemma OrganizedScoresBounded(sel: seq<int>, sc0: seq<real>, start: nat, r: seq<int>, sc: seq<real>)
    requires InRange(sel, |sc0|) && OrganizeGuarantees(sel, sc0, start, r, sc)
    requires ZeroOrAtLeastMin(sc0) && forall k :: 0 <= k < |sel| ==> sc0[sel[k]] >= MinScore
    ensures ZeroOrAtLeastMin(sc)
    ensures OnHundredScale(sc0) && start == StartOf(sel, sc0) ==> OnHundredScale(sc)
  {
    var scaled := OnHundredScale(sc0) && start == StartOf(sel, sc0);
    forall p | 0 <= p < |sc|
      ensures (sc[p] == 0.0 || sc[p] >= MinScore) && (scaled ==> sc[p] <= 100.0 || sc[p] == IdenticalScore)
    {
      if p in r {
        var k :| 0 <= k < |r| && r[k] == p;
        assert sc[p] >= sc[r[|r| - 1]];
        if k < start {
          assert sc[p] == sc0[sel[k]];
        } else if scaled {
          assert sc[p] <= sc[r[start]];
          assert sc0[sel[start]] < IdenticalScore;
        }
      } else {
        assert sc[p] == sc0[p];
      }
    }
  }

  /**
   * The scores score() leaves behind (lines 27-36, 54-56): after projecting
   * a map whose every score is at least MinScore and organizing, every
   * position scores 0 or at least MinScore; when every mapped score is at
   * most 100 or the identical sentinel, every final score is as well.
   */
  lemma ScoreBounds(keys: seq<int>, m: map<int, real>, r: seq<int>, sc: seq<real>)
    requires forall d :: d in m ==> m[d] >= MinScore
    requires var sc0 := Projected(keys, m);
      var sel := Selected(MatchedPositions(keys, m), sc0);
      InRange(sel, |sc0|) && OrganizeGuarantees(sel, sc0, StartOf(sel, sc0), r, sc)
    ensures ZeroOrAtLeastMin(sc)
    ensures (forall d :: d in m ==> m[d] <= 100.0 || m[d] == IdenticalScore) ==> OnHundredScale(sc)
  {
    var tr0, sc0 := MatchedPositions(keys, m), Projected(keys, m);
    var sel := Selected(tr0, sc0);
    ProjectedMatches(keys, m);
    assert ZeroOrAtLeastMin(sc0);
    SelectedProperties(tr0, sc0);
    forall k | 0 <= k < |sel| ensures sc0[sel[k]] >= MinScore {
      assert sel[k] in tr0;
    }
    if forall d :: d in m ==> m[d] <= 100.0 || m[d] == IdenticalScore {
      forall p | 0 <= p < |sc0| ensures sc0[p] <= 100.0 || sc0[p] == IdenticalScore {
        if keys[p] in m {
          var d := keys[p];
          assert sc0[p] == m[d];
        }
      }
    }
    OrganizedScoresBounded(sel, sc0, StartOf(sel, sc0), r, sc);
  }

  /** Every entry of a suffix of s is an entry of s. */
  lemma SliceMembers(s: seq<int>, lo: nat)
    requires lo <= |s|
    ensures forall x :: x in s[lo..] ==> x in s
  {
    forall x | x in s[lo..] ensures x in s {
      var j :| 0 <= j < |s[lo..]| && s[lo..][j] == x;
      assert s[lo + j] == x;
    }
  }

  class ImageSimilarityScorer {
    /** The items of the result set, by position. */
    const items: seq<int>
    /** The score of each result position, written in place. */
    const scores: array<real>
    /** The reference image's similarity features; None when it has none. */
    const refFeatures: Option<Features>
    /** The reference image's hash; None when it has none. */
    const refHash: Option<string>
    /** The length of the result set. */
    const len: nat

    /** Result positions of the best hits. */
    var topResults: seq<int>
    /** Features of the tail (and its seed), by result position. */
    var topFeatures: map<int, Features>
    /** Distance to the reference of the tail (and its seed), by result position. */
    var refDist: map<int, int>

    ghost predicate Valid() {
      && len == |items| == scores.Length
      && (refFeatures.Some? ==> |refFeatures.value| > 0)
    }

    constructor (items: seq<int>, scores: array<real>, refFeatures: Option<Features>, refHash: Option<string>)
      requires |items| == scores.Length
      requires refFeatures.Some? ==> |refFeatures.value| > 0
      ensures Valid()
      ensures this.items == items && this.scores == scores
      ensures this.refFeatures == refFeatures && this.refHash == refHash
      ensures topResults == [] && topFeatures == map[] && refDist == map[]
    {
      this.items := items;
      this.scores := scores;
      this.refFeatures := refFeatures;
      this.refHash := refHash;
      this.len := |items|;
      topResults := [];
      topFeatures := map[];
      refDist := map[];
    }

    /**
     * The state organizeTopResults leaves, starting from the matched
     * positions tr0 and the scores sc0: the selection stays as it is when the
     * feature doc values cannot be opened or the tail is too short; otherwise
     * it is chained from the seed start - 1, the tail is rescored and the
     * caches hold the features and reference distances of the seed and tail.
     */
    ghost predicate Organized(tr0: seq<int>, sc0: seq<real>, index: VectorIndex, metric: Metric)
      requires Valid() && refFeatures.Some? && InRange(tr0, |sc0|)
      reads this, scores
    {
      var sel := Selected(tr0, sc0);
      var start := StartOf(sel, sc0);
      var ctx := Context(items, refFeatures.value, index, metric);
      if !index.docValuesOpen || |sel| - start <= 2 then
        && topResults == sel && scores[..] == sc0
        && topFeatures == map[] && refDist == map[]
      else
        Reordered(sel, sc0, start, ctx)
    }

    /**
     * The state after the tail of the sorted selection sel, from start on,
     * has been chained from the seed start - 1 and rescored, with the caches
     * holding the seed and the tail.
     */
    ghost predicate Reordered(sel: seq<int>, sc0: seq<real>, start: nat, ctx: Context)
      requires InRange(sel, |sc0|) && 1 <= start && start + 2 < |sel|
      reads this, scores
    {
      && topResults == Chain(sel, start - 1, ctx)
      && InRange(topResults, |sc0|)
      && scores[..] == Relabelled(sc0, topResults, start, |topResults|,
                                  TailScores(sc0[sel[start]], sc0[sel[|sel| - 1]], |sel| - start))
      && (forall k :: start - 1 <= k < |sel| ==> Cached(sel[k], topFeatures, refDist, ctx))
      && (forall x :: x in topFeatures ==> x in sel[start - 1..])
      && (forall x :: x in refDist ==> x in sel[start - 1..])
    }

    /*
     * The lemmas below conclude the paths of OrganizeTopResults: they assemble
     * the heap predicate Organized from the facts a path has established and
     * derive the guarantees from the same facts. ReorderedIsOrganized needs no
     * proof steps; it and the others stand apart from the method so that each
     * proof unfolds Organized on its own and stays small.
     */

    /** The paths on which nothing is reordered are Organized and meet the guarantees. */
    lemma UnchangedIsOrganized(tr0: seq<int>, sc0: seq<real>, index: VectorIndex, metric: Metric)
      requires Valid() && refFeatures.Some? && InRange(tr0, |sc0|) && Distinct(tr0)
      requires InRange(Selected(tr0, sc0), |sc0|)
      requires !index.docValuesOpen || |Selected(tr0, sc0)| - StartOf(Selected(tr0, sc0), sc0) <= 2
      requires topResults == Selected(tr0, sc0) && scores[..] == sc0
      requires topFeatures == map[] && refDist == map[]
      ensures Organized(tr0, sc0, index, metric)
      ensures OrganizeGuarantees(Selected(tr0, sc0), sc0, StartOf(Selected(tr0, sc0), sc0), topResults, scores[..])
    {
      SelectedOrdered(tr0, sc0);
      SelectionGuarantees(Selected(tr0, sc0), sc0, StartOf(Selected(tr0, sc0), sc0));
    }

    /** The long-tail path is Organized. */
    lemma ReorderedIsOrganized(tr0: seq<int>, sc0: seq<real>, index: VectorIndex, metric: Metric, start: nat)
      requires Valid() && refFeatures.Some? && InRange(tr0, |sc0|) && index.docValuesOpen
      requires InRange(Selected(tr0, sc0), |sc0|)
      requires start == StartOf(Selected(tr0, sc0), sc0) && start + 2 < |Selected(tr0, sc0)|
      requires Reordered(Selected(tr0, sc0), sc0, start, Context(items, refFeatures.value, index, metric))
      ensures Organized(tr0, sc0, index, metric)
    {
    }

    /** The long-tail path meets the guarantees. */
    lemma ReorderedMeetsGuarantees(tr0: seq<int>, sc0: seq<real>, index: VectorIndex, metric: Metric, start: nat)
      requires Valid() && refFeatures.Some? && InRange(tr0, |sc0|) && Distinct(tr0)
      requires InRange(Selected(tr0, sc0), |sc0|)
      requires start == StartOf(Selected(tr0, sc0), sc0) && start + 2 < |Selected(tr0, sc0)|
      requires Reordered(Selected(tr0, sc0), sc0, start, Context(items, refFeatures.value, index, metric))
      ensures OrganizeGuarantees(Selected(tr0, sc0), sc0, start, topResults, scores[..])
    {
      SelectedOrdered(tr0, sc0);
      ReorderGuarantees(Selected(tr0, sc0), sc0, Context(items, refFeatures.value, index, metric), start, topResults, scores[..]);
    }

    /**
     * score() (lines 83-128): nothing happens for an empty result set or a
     * reference without features; otherwise the neighbour scan builds the
     * score map, the map is projected onto the result set and the matched
     * positions are organized.
     */
    method Score(index: VectorIndex, metric: Metric)
      requires Valid() && metric.Valid()
      requires topResults == [] && topFeatures == map[] && refDist == map[]
      requires |index.nearest| <= MaxResults
      modifies this`topResults, this`topFeatures, this`refDist, scores
      ensures len == 0 || refFeatures.None? ==>
                && scores[..] == old(scores[..])
                && topResults == [] && topFeatures == map[] && refDist == map[]
      ensures len > 0 && refFeatures.Some? ==>
                var numFeatures := |refFeatures.value|;
                var ns := index.nearest;
                var m := ScoreMap(ns[..ScanLength(ns, numFeatures, refHash, index)], numFeatures, refHash, index);
                var keys := Keys(items, index);
                && Organized(MatchedPositions(keys, m), Projected(keys, m), index, metric)
                && InRange(Selected(MatchedPositions(keys, m), Projected(keys, m)), len)
                && var sel := Selected(MatchedPositions(keys, m), Projected(keys, m));
                   OrganizeGuarantees(sel, Projected(keys, m), StartOf(sel, Projected(keys, m)), topResults, scores[..])
      // every position ends with 0 or a score of at least MinScore, and, when
      // no squared distance is negative, with at most 100 or the identical score
      ensures len > 0 && refFeatures.Some? ==>
                && ZeroOrAtLeastMin(scores[..])
                && ((forall j :: 0 <= j < |index.nearest| ==> index.squareDist(index.nearest[j].relevance) >= 0.0) ==>
                      OnHundredScale(scores[..]))
    {
      if len == 0 || refFeatures.None? {
        return;
      }
      var m, _ := ScanNeighbors(index.nearest, |refFeatures.value|, refHash, index);
      Project(index, m);
      OrganizeTopResults(index, metric);
      ScoreBounds(Keys(items, index), m, topResults, scores[..]);
    }

    /**
     * Lines 116-125: every position gets its mapped score or 0, and the
     * matched positions are appended to topResults in ascending order.
     */
    method Project(index: VectorIndex, m: map<int, real>)
      requires Valid() && topResults == []
      modifies this`topResults, scores
      ensures scores[..] == Projected(Keys(items, index), m)
      ensures topResults == MatchedPositions(Keys(items, index), m)
    {
      ghost var keys := Keys(items, index);
      ghost var proj := Projected(keys, m);
      var i := 0;
      while i < len
        invariant 0 <= i <= len
        invariant topResults == MatchedPositions(keys[..i], m)
        invariant scores[..i] == proj[..i]
      {
        var luceneId := index.luceneId(items[i]);
        assert keys[i] == luceneId && proj[i] == if luceneId in m then m[luceneId] else 0.0;
        MatchedPositionsStep(keys, m, i);
        if luceneId in m {
          scores[i] := m[luceneId];
          topResults := topResults + [i];
        } else {
          scores[i] := 0.0;
        }
        assert scores[..i + 1] == proj[..i + 1];
        i := i + 1;
      }
      assert keys[..len] == keys;
      assert scores[..] == scores[..len];
    }

    /**
     * sortTopResults() (lines 206-212). Collections.sort is stable, and the
     * list it receives is ascending, so SortByScore (ties by ascending
     * position) is that stable sort; see SortKeepsTieOrder.
     */
    method SortTopResults()
      requires Valid() && InRange(topResults, scores.Length) && Ascending(topResults)
      modifies this`topResults
      ensures topResults == SortByScore(old(topResults), scores[..])
    {
      topResults := SortByScore(topResults, scores[..]);
    }

    /** Lines 132-135: the matched positions sorted by score and cut to MaxTop. */
    method SelectTop()
      requires Valid() && InRange(topResults, scores.Length) && Ascending(topResults)
      modifies this`topResults
      ensures topResults == Selected(old(topResults), scores[..])
      ensures InRange(topResults, scores.Length)
    {
      SortTopResults();
      if |topResults| > MaxTop {
        topResults := topResults[..MaxTop];
      }
      SelectedIdempotent(old(topResults), scores[..]);
    }

    /** organizeTopResults() (lines 130-204). */
    method OrganizeTopResults(index: VectorIndex, metric: Metric)
      requires Valid() && metric.Valid() && refFeatures.Some?
      requires InRange(topResults, scores.Length) && Ascending(topResults)
      requires topFeatures == map[] && refDist == map[]
      modifies this`topResults, this`topFeatures, this`refDist, scores
      ensures Organized(old(topResults), old(scores[..]), index, metric)
      ensures InRange(Selected(old(topResults), old(scores[..])), scores.Length)
      ensures var sel := Selected(old(topResults), old(scores[..]));
        OrganizeGuarantees(sel, old(scores[..]), StartOf(sel, old(scores[..])), topResults, scores[..])
    {
      ghost var sc0 := scores[..];
      ghost var tr0 := topResults;
      assert Distinct(tr0);
      SelectTop();
      ghost var sel := topResults;
      if !index.docValuesOpen {
        UnchangedIsOrganized(tr0, sc0, index, metric);
        return;
      }
      var ctx := Context(items, refFeatures.value, index, metric);
      var idToFeatures := CollectFeatures(ctx);
      var start := FindStart(topResults, scores[..]);
      assert start == StartOf(sel, sc0);
      if |topResults| - start <= 2 {
        UnchangedIsOrganized(tr0, sc0, index, metric);
        return;
      }
      OrganizeTail(start, idToFeatures, ctx);
      ReorderedIsOrganized(tr0, sc0, index, metric, start);
      ReorderedMeetsGuarantees(tr0, sc0, index, metric, start);
    }

    /**
     * Lines 165-203 once the tail is known to be long enough: the caches are
     * filled, the tail is chained from the seed start - 1 and rescored
     * evenly between its first and last score.
     */
    method OrganizeTail(start: nat, idToFeatures: map<int, Features>, ctx: Context)
      requires Valid() && refFeatures.Some? && ctx.ref == refFeatures.value && ctx.metric.Valid()
      requires 1 <= start && start + 2 < |topResults| && InRange(topResults, scores.Length)
      requires forall k :: 0 <= k < |topResults| ==>
                 topResults[k] in idToFeatures && idToFeatures[topResults[k]] == FeatureAt(ctx, topResults[k])
      requires topFeatures == map[] && refDist == map[]
      modifies this`topResults, this`topFeatures, this`refDist, scores
      ensures Reordered(old(topResults), old(scores[..]), start, ctx)
    {
      ghost var sel, sc0 := topResults, scores[..];
      var maxScore := scores[topResults[start]];
      var minScore := scores[topResults[|topResults| - 1]];
      assert maxScore == sc0[sel[start]] && minScore == sc0[sel[|sel| - 1]];
      FillCaches(start, idToFeatures, ctx);
      ghost var feats, refd := topFeatures, refDist;
      assert topResults == sel;
      forall k | start - 1 <= k < |sel| ensures Cached(sel[k], feats, refd, ctx) {
        assert Cached(topResults[k], topFeatures, refDist, ctx);
      }
      ChainAndRescore(start, maxScore, minScore, ctx);
      assert topFeatures == feats && refDist == refd && |topResults| == |sel|;
      ReorderedIntro(sel, sc0, start, ctx);
    }

    /** Lines 175-203: the chain from the seed start - 1, then the even rescoring of the tail. */
    method ChainAndRescore(start: nat, maxScore: real, minScore: real, ctx: Context)
      requires 1 <= start && start + 2 < |topResults| && ctx.metric.Valid()
      requires InRange(topResults, scores.Length)
      requires forall k :: start - 1 <= k < |topResults| ==> Cached(topResults[k], topFeatures, refDist, ctx)
      modifies this`topResults, scores
      ensures topResults == Chain(old(topResults), start - 1, ctx)
      ensures InRange(topResults, scores.Length)
      ensures scores[..] == Relabelled(old(scores[..]), topResults, start, |topResults|,
                                       TailScores(maxScore, minScore, |topResults| - start))
    {
      ReorderChain(start, ctx);
      Rescore(start, maxScore, minScore);
    }

    /**
     * Assembles Reordered from its parts. Dafny proves it unaided; it stands
     * apart from OrganizeTail so that the method's proof does not unfold the
     * heap predicate and stays small.
     */
    lemma ReorderedIntro(sel: seq<int>, sc0: seq<real>, start: nat, ctx: Context)
      requires InRange(sel, |sc0|) && 1 <= start && start + 2 < |sel|
      requires topResults == Chain(sel, start - 1, ctx) && InRange(topResults, |sc0|)
      requires scores[..] == Relabelled(sc0, topResults, start, |topResults|,
                                        TailScores(sc0[sel[start]], sc0[sel[|sel| - 1]], |sel| - start))
      requires forall k :: start - 1 <= k < |sel| ==> Cached(sel[k], topFeatures, refDist, ctx)
      requires forall x :: x in topFeatures ==> x in sel[start - 1..]
      requires forall x :: x in refDist ==> x in sel[start - 1..]
      ensures Reordered(sel, sc0, start, ctx)
    {
    }

    /**
     * Lines 145-152: the stored features of every selected position, keyed
     * by position.
     */
    method CollectFeatures(ctx: Context) returns (idToFeatures: map<int, Features>)
      requires Valid() && ctx.items == items && InRange(topResults, len)
      ensures forall k :: 0 <= k < |topResults| ==>
                topResults[k] in idToFeatures && idToFeatures[topResults[k]] == FeatureAt(ctx, topResults[k])
      ensures forall x :: x in idToFeatures ==> x in topResults
    {
      idToFeatures := map[];
      var n := 0;
      while n < |topResults|
        invariant 0 <= n <= |topResults|
        invariant forall k :: 0 <= k < n ==>
                    topResults[k] in idToFeatures && idToFeatures[topResults[k]] == FeatureAt(ctx, topResults[k])
        invariant forall x :: x in idToFeatures ==> x in topResults[..n]
      {
        var idx := topResults[n];
        var luceneId := ctx.index.luceneId(items[idx]);
        assert topResults[..n + 1] == topResults[..n] + [idx];
        idToFeatures := idToFeatures[idx := ctx.index.features(luceneId)];
        n := n + 1;
      }
    }

    /**
     * Lines 168-173: the seed start - 1 and every tail position get their
     * features and their distance to the reference in the caches.
     */
    method FillCaches(start: nat, idToFeatures: map<int, Features>, ctx: Context)
      requires refFeatures.Some? && ctx.ref == refFeatures.value
      requires 1 <= start <= |topResults|
      requires forall k :: 0 <= k < |topResults| ==>
                 topResults[k] in idToFeatures && idToFeatures[topResults[k]] == FeatureAt(ctx, topResults[k])
      requires topFeatures == map[] && refDist == map[]
      modifies this`topFeatures, this`refDist
      ensures forall k :: start - 1 <= k < |topResults| ==> Cached(topResults[k], topFeatures, refDist, ctx)
      ensures forall x :: x in topFeatures ==> x in topResults[start - 1..]
      ensures forall x :: x in refDist ==> x in topResults[start - 1..]
    {
      var i := start - 1;
      while i < |topResults|
        invariant start - 1 <= i <= |topResults|
        invariant forall k :: start - 1 <= k < i ==> Cached(topResults[k], topFeatures, refDist, ctx)
        invariant forall x :: x in topFeatures ==> x in topResults[start - 1..i]
        invariant forall x :: x in refDist ==> x in topResults[start - 1..i]
      {
        var idx := topResults[i];
        var currFeatures := idToFeatures[idx];
        topFeatures := topFeatures[idx := currFeatures];
        refDist := refDist[idx := ctx.metric.exact(refFeatures.value, currFeatures)];
        assert topResults[start - 1..i + 1] == topResults[start - 1..i] + [idx];
        i := i + 1;
      }
    }

    /** The greedy chain of lines 175-195 over the tail starting at start. */
    method ReorderChain(start: nat, ctx: Context)
      requires 1 <= start && start + 2 < |topResults| && ctx.metric.Valid()
      requires InRange(topResults, scores.Length)
      requires forall k :: start - 1 <= k < |topResults| ==> Cached(topResults[k], topFeatures, refDist, ctx)
      modifies this`topResults
      ensures topResults == Chain(old(topResults), start - 1, ctx)
      ensures InRange(topResults, scores.Length)
    {
      var i := start - 1;
      while i < |topResults| - 2
        invariant start - 1 <= i <= |topResults| - 2
        invariant |topResults| == |old(topResults)|
        invariant InRange(topResults, scores.Length)
        invariant forall k :: start - 1 <= k < |topResults| ==> Cached(topResults[k], topFeatures, refDist, ctx)
        invariant Chain(topResults, i, ctx) == Chain(old(topResults), start - 1, ctx)
      {
        ghost var tr := topResults;
        AdvanceChain(start - 1, i, ctx);
        assert Chain(tr, i, ctx) == Chain(topResults, i + 1, ctx);
        i := i + 1;
      }
    }

    /** One pass of the outer loop of lines 175-195: pivot i gets its chosen successor next to it. */
    method AdvanceChain(from: nat, i: nat, ctx: Context)
      requires from <= i && i + 2 < |topResults| && ctx.metric.Valid()
      requires InRange(topResults, scores.Length)
      requires forall k :: from <= k < |topResults| ==> Cached(topResults[k], topFeatures, refDist, ctx)
      modifies this`topResults
      ensures topResults == Step(old(topResults), i, ctx)
      ensures |topResults| == |old(topResults)| && InRange(topResults, scores.Length)
      ensures forall k :: from <= k < |topResults| ==> Cached(topResults[k], topFeatures, refDist, ctx)
    {
      var tr := topResults;
      StepKeepsCached(tr, i, from, topFeatures, refDist, ctx, scores.Length);
      var best := ClosestInWindow(tr, i, topFeatures, refDist, ctx);
      if best != i + 1 {
        tr := RotateRight(tr, i + 1, best);
      }
      topResults := tr;
    }

    /** The rescoring of lines 197-203: the tail scores fall evenly from maxScore to minScore. */
    method Rescore(start: nat, maxScore: real, minScore: real)
      requires start + 2 < |topResults| && InRange(topResults, scores.Length)
      modifies scores
      ensures scores[..] == Relabelled(old(scores[..]), topResults, start, |topResults|,
                                       TailScores(maxScore, minScore, |topResults| - start))
    {
      var score := maxScore;
      var delta := (maxScore - minScore) / (|topResults| - start - 1) as real;
      ghost var vals := TailScores(maxScore, minScore, |topResults| - start);
      var i := start;
      while i < |topResults|
        invariant start <= i <= |topResults|
        invariant i < |topResults| ==> score == vals[i - start]
        invariant scores[..] == Relabelled(old(scores[..]), topResults, start, i, vals)
      {
        var idx := topResults[i];
        RelabelledStep(old(scores[..]), topResults, start, i, vals);
        scores[idx] := score;
        if i + 1 < |topResults| {
          TailScoresNext(maxScore, minScore, |topResults| - start, i - start);
        }
        score := score - delta;
        i := i + 1;
      }
    }
  }
}
