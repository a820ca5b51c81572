/**
 * Greedy chain reordering of the similar tail (lines 168-195) and the
 * rescoring of the reordered tail (lines 197-203). Line numbers in comments
 * refer to ImageSimilarityScorer.java.
 */
module ChainReorder {
  import opened ScorerTypes

  /** What the reordering consults: the result items, the reference features, the index, the metric. */
  datatype Context = Context(items: seq<int>, ref: Features, index: VectorIndex, metric: Metric)

  /** Features stored for the item at a result position (lines 148-152). */
  function FeatureAt(ctx: Context, idx: int): Features {
    if 0 <= idx < |ctx.items| then ctx.index.features(ctx.index.luceneId(ctx.items[idx])) else []
  }

  /** Distance from the reference image to the item at a position (line 172). */
  function RefDistance(ctx: Context, idx: int): int {
    ctx.metric.exact(ctx.ref, FeatureAt(ctx, idx))
  }

  /** What is minimised when choosing the successor x of a pivot (lines 183-185). */
  function Cost(ctx: Context, pivot: int, x: int): int {
    RefDistance(ctx, x) + ctx.metric.exact(FeatureAt(ctx, pivot), FeatureAt(ctx, x))
  }

  /** The caches topFeatures and refDist hold the right values for position idx. */
  predicate Cached(idx: int, feats: map<int, Features>, refd: map<int, int>, ctx: Context) {
    && idx in feats && feats[idx] == FeatureAt(ctx, idx)
    && idx in refd && refd[idx] == RefDistance(ctx, idx)
  }

  /**
   * Collections.rotate(s.subList(lo, hi + 1), 1): the entry at hi moves to
   * lo and the entries in [lo, hi) move one place right.
   */
  function RotateRight(s: seq<int>, lo: nat, hi: nat): (r: seq<int>)
    requires lo <= hi < |s|
    ensures |r| == |s|
  {
    s[..lo] + [s[hi]] + s[lo..hi] + s[hi + 1..]
  }

  /** Where each entry of the rotation comes from; the rotation is a permutation. */
  lemma RotateRightMoves(s: seq<int>, lo: nat, hi: nat)
    requires lo <= hi < |s|
    ensures var r := RotateRight(s, lo, hi);
      && r[lo] == s[hi]
      && (forall k :: lo < k <= hi ==> r[k] == s[k - 1])
      && (forall k :: 0 <= k < |s| && (k < lo || hi < k) ==> r[k] == s[k])
      && multiset(r) == multiset(s)
  {
    assert s == s[..lo] + s[lo..hi] + [s[hi]] + s[hi + 1..];
  }

  /** The rotation of a distinct list is distinct. */
  lemma RotateRightDistinct(s: seq<int>, lo: nat, hi: nat)
    requires lo <= hi < |s| && Distinct(s)
    ensures Distinct(RotateRight(s, lo, hi))
  {
    var r := RotateRight(s, lo, hi);
    RotateRightMoves(s, lo, hi);
    forall a, b | 0 <= a < b < |r| ensures r[a] != r[b] {
      var fa := if a < lo || hi < a then a else if a == lo then hi else a - 1;
      var fb := if b < lo || hi < b then b else if b == lo then hi else b - 1;
      assert r[a] == s[fa] && r[b] == s[fb];
    }
  }

  /** Last position of the window after pivot i in a list of the given size (line 177). */
  function WindowLimit(size: nat, i: nat): nat
    requires i < size
  {
    if size - 1 < i + RangeCheck then size - 1 else i + RangeCheck
  }

  /** The costs of the window entries i+1 .. WindowLimit, in order. */
  function WindowCosts(tr: seq<int>, i: nat, ctx: Context): seq<int>
    requires i + 1 < |tr|
  {
    seq(WindowLimit(|tr|, i) - i, k requires 0 <= k < WindowLimit(|tr|, i) - i => Cost(ctx, tr[i], tr[i + 1 + k]))
  }

  /** Entry j - i - 1 of the window costs is the cost of the entry at j. */
  lemma WindowCostsAt(tr: seq<int>, i: nat, ctx: Context)
    requires i + 1 < |tr|
    ensures var c := WindowCosts(tr, i, ctx);
      && |c| == WindowLimit(|tr|, i) - i
      && forall j :: i + 1 <= j <= WindowLimit(|tr|, i) ==> c[j - i - 1] == Cost(ctx, tr[i], tr[j])
  {
  }

  /** The lowest index holding the minimum of a non-empty sequence. */
  function FirstMin(c: seq<int>): (r: nat)
    requires |c| > 0
    ensures r < |c|
    ensures forall k :: 0 <= k < |c| ==> c[r] <= c[k]
    ensures forall k :: 0 <= k < r ==> c[r] < c[k]
  {
    if |c| == 1 then 0
    else
      var b := FirstMin(c[..|c| - 1]);
      assert forall k :: 0 <= k < |c| - 1 ==> c[..|c| - 1][k] == c[k];
      if c[|c| - 1] < c[b] then |c| - 1 else b
  }

  /** best is the lowest-index minimiser of the pivot's cost over its window. */
  predicate IsFirstMinimiser(tr: seq<int>, i: nat, ctx: Context, best: nat)
    requires i + 1 < |tr| && best < |tr|
  {
    forall j :: i + 1 <= j <= WindowLimit(|tr|, i) ==>
      Cost(ctx, tr[i], tr[best]) <= Cost(ctx, tr[i], tr[j]) &&
      (j < best ==> Cost(ctx, tr[i], tr[best]) < Cost(ctx, tr[i], tr[j]))
  }

  /**
   * The successor chosen for pivot i: the lowest-index minimiser of the cost
   * over the window, provided some cost lies below Integer.MAX_VALUE (the
   * starting value of minDist); otherwise the immediate successor.
   */
  function WindowBest(tr: seq<int>, i: nat, ctx: Context): nat
    requires i + 1 < |tr|
  {
    var c := WindowCosts(tr, i, ctx);
    var b := FirstMin(c);
    if c[b] < IntMax then i + 1 + b else i + 1
  }

  /**
   * WindowBest lies in the window; it is the lowest-index minimiser when some
   * cost is below Integer.MAX_VALUE, and the immediate successor otherwise.
   */
  lemma WindowBestSpec(tr: seq<int>, i: nat, ctx: Context)
    requires i + 1 < |tr|
    ensures var best := WindowBest(tr, i, ctx);
      && i + 1 <= best <= WindowLimit(|tr|, i)
      && ((forall j :: i + 1 <= j <= WindowLimit(|tr|, i) ==> Cost(ctx, tr[i], tr[j]) >= IntMax) ==> best == i + 1)
      && ((exists j :: i + 1 <= j <= WindowLimit(|tr|, i) && Cost(ctx, tr[i], tr[j]) < IntMax) ==>
            Cost(ctx, tr[i], tr[best]) < IntMax && IsFirstMinimiser(tr, i, ctx, best))
  {
    var c := WindowCosts(tr, i, ctx);
    var b := FirstMin(c);
    var limit := WindowLimit(|tr|, i);
    WindowCostsAt(tr, i, ctx);
    if c[b] < IntMax {
      assert c[b] == Cost(ctx, tr[i], tr[i + 1 + b]);
    } else {
      forall j | i + 1 <= j <= limit ensures Cost(ctx, tr[i], tr[j]) >= IntMax {
        assert c[b] <= c[j - i - 1];
      }
    }
  }

  /** One step of the chain: the chosen successor is rotated to position i + 1. */
  function Step(tr: seq<int>, i: nat, ctx: Context): seq<int>
    requires i + 1 < |tr|
  {
    var best := WindowBest(tr, i, ctx);
    if best != i + 1 then RotateRight(tr, i + 1, best) else tr
  }

  /** A step keeps every entry from position from on cached and in range. */
  lemma StepKeepsCached(tr: seq<int>, i: nat, from: nat, feats: map<int, Features>, refd: map<int, int>, ctx: Context, n: nat)
    requires from <= i && i + 1 < |tr|
    requires InRange(tr, n)
    requires forall k :: from <= k < |tr| ==> Cached(tr[k], feats, refd, ctx)
    ensures |Step(tr, i, ctx)| == |tr| && InRange(Step(tr, i, ctx), n)
    ensures forall k :: from <= k < |tr| ==> Cached(Step(tr, i, ctx)[k], feats, refd, ctx)
  {
    var best := WindowBest(tr, i, ctx);
    WindowBestSpec(tr, i, ctx);
    if best != i + 1 {
      var r := RotateRight(tr, i + 1, best);
      RotateRightMoves(tr, i + 1, best);
      forall k | 0 <= k < |tr| ensures 0 <= r[k] < n && (from <= k ==> Cached(r[k], feats, refd, ctx)) {
        var src := if k == i + 1 then best else if i + 1 < k <= best then k - 1 else k;
        assert r[k] == tr[src];
      }
    }
  }

  /** The chain built from pivot i to the end (lines 175-195). */
  function Chain(tr: seq<int>, i: nat, ctx: Context): (r: seq<int>)
    ensures |r| == |tr|
    decreases |tr| - i
  {
    if i + 2 >= |tr| then tr else Chain(Step(tr, i, ctx), i + 1, ctx)
  }

  /**
   * A step is a permutation that keeps every position up to i and a distinct
   * list distinct, and puts the chosen successor of pivot i at i + 1.
   */
  lemma StepSpec(tr: seq<int>, i: nat, ctx: Context)
    requires i + 1 < |tr|
    ensures var s := Step(tr, i, ctx);
      && |s| == |tr| && multiset(s) == multiset(tr)
      && (forall k :: 0 <= k <= i ==> s[k] == tr[k])
      && (Distinct(tr) ==> Distinct(s))
      && s[i + 1] == tr[WindowBest(tr, i, ctx)]
  {
    WindowBestSpec(tr, i, ctx);
    var best := WindowBest(tr, i, ctx);
    if best != i + 1 {
      RotateRightMoves(tr, i + 1, best);
      if Distinct(tr) {
        RotateRightDistinct(tr, i + 1, best);
      }
    }
  }

  /**
   * The chain is a permutation of tr that keeps every position up to i and
   * keeps a distinct list distinct, and in it pivot i is followed by the
   * successor WindowBest chose for it.
   */
  lemma ChainSpec(tr: seq<int>, i: nat, ctx: Context)
    ensures var r := Chain(tr, i, ctx);
      && multiset(r) == multiset(tr)
      && (forall k :: 0 <= k <= i && k < |tr| ==> r[k] == tr[k])
      && (Distinct(tr) ==> Distinct(r))
      && (i + 2 < |tr| ==> r[i + 1] == tr[WindowBest(tr, i, ctx)])
  {
    ChainPermutes(tr, i, ctx);
    ChainKeepsPrefix(tr, i, ctx);
    if Distinct(tr) {
      ChainDistinct(tr, i, ctx);
    }
    if i + 2 < |tr| {
      StepSpec(tr, i, ctx);
      ChainKeepsPrefix(Step(tr, i, ctx), i + 1, ctx);
    }
  }

  lemma {:induction false} ChainPermutes(tr: seq<int>, i: nat, ctx: Context)
    ensures multiset(Chain(tr, i, ctx)) == multiset(tr)
    decreases |tr| - i
  {
    if i + 2 < |tr| {
      StepSpec(tr, i, ctx);
      ChainPermutes(Step(tr, i, ctx), i + 1, ctx);
    }
  }

  lemma {:induction false} ChainKeepsPrefix(tr: seq<int>, i: nat, ctx: Context)
    ensures forall k :: 0 <= k <= i && k < |tr| ==> Chain(tr, i, ctx)[k] == tr[k]
    decreases |tr| - i
  {
    if i + 2 < |tr| {
      StepSpec(tr, i, ctx);
      ChainKeepsPrefix(Step(tr, i, ctx), i + 1, ctx);
    }
  }

  lemma {:induction false} ChainDistinct(tr: seq<int>, i: nat, ctx: Context)
    requires Distinct(tr)
    ensures Distinct(Chain(tr, i, ctx))
    decreases |tr| - i
  {
    if i + 2 < |tr| {
      StepSpec(tr, i, ctx);
      ChainDistinct(Step(tr, i, ctx), i + 1, ctx);
    }
  }

  /** A permutation that fixes a prefix permutes the rest among itself. */
  lemma PermutationFixingPrefix(r: seq<int>, s: seq<int>, lo: nat)
    requires |r| == |s| && lo <= |s| && multiset(r) == multiset(s)
    requires forall k :: 0 <= k < lo ==> r[k] == s[k]
    ensures r[..lo] == s[..lo] && multiset(r[lo..]) == multiset(s[lo..])
  {
    assert r[..lo] == s[..lo];
    assert r == s[..lo] + r[lo..];
    assert s == s[..lo] + s[lo..];
    assert multiset(r) == multiset(s[..lo]) + multiset(r[lo..]);
    assert multiset(s) == multiset(s[..lo]) + multiset(s[lo..]);
    forall x ensures multiset(r[lo..])[x] == multiset(s[lo..])[x] {
      assert multiset(r)[x] == multiset(s[..lo])[x] + multiset(r[lo..])[x];
      assert multiset(s)[x] == multiset(s[..lo])[x] + multiset(s[lo..])[x];
    }
  }

  /** The chain leaves the entries before position lo in place and permutes the rest among themselves. */
  lemma ChainKeepsMembers(tr: seq<int>, lo: nat, ctx: Context)
    requires 1 <= lo <= |tr|
    ensures Chain(tr, lo - 1, ctx)[..lo] == tr[..lo]
    ensures multiset(Chain(tr, lo - 1, ctx)[lo..]) == multiset(tr[lo..])
  {
    var r := Chain(tr, lo - 1, ctx);
    ChainPermutes(tr, lo - 1, ctx);
    ChainKeepsPrefix(tr, lo - 1, ctx);
    PermutationFixingPrefix(r, tr, lo);
  }

  /**
   * The search of lines 176-191 for the successor of pivot i. Window entries
   * whose reference distance alone reaches the running minimum are skipped,
   * and the others get the capped distance; the result is still the
   * unpruned choice WindowBest.
   */
  method ClosestInWindow(tr: seq<int>, i: nat, feats: map<int, Features>, refd: map<int, int>, ctx: Context)
    returns (best: nat)
    requires i + 1 < |tr| && ctx.metric.Valid()
    requires forall k :: i <= k < |tr| ==> Cached(tr[k], feats, refd, ctx)
    ensures best == WindowBest(tr, i, ctx)
  {
    var pivot := tr[i];
    var limit := if |tr| - 1 < i + RangeCheck then |tr| - 1 else i + RangeCheck;
    var minDist := IntMax;
    best := i + 1;
    var featuresPivot := feats[pivot];
    var j := i + 1;
    while j <= limit
      invariant i + 1 <= j <= limit + 1
      invariant i + 1 <= best <= limit
      invariant minDist <= IntMax
      invariant minDist == IntMax ==> best == i + 1
      invariant forall k :: i + 1 <= k < j ==> minDist <= Cost(ctx, pivot, tr[k])
      invariant minDist < IntMax ==>
                  && best < j && minDist == Cost(ctx, pivot, tr[best])
                  && forall k :: i + 1 <= k < best ==> minDist < Cost(ctx, pivot, tr[k])
    {
      var idx := tr[j];
      assert Cached(idx, feats, refd, ctx);
      var currDist := refd[idx];
      ghost var exact := ctx.metric.exact(featuresPivot, feats[idx]);
      assert Cost(ctx, pivot, idx) == currDist + exact;
      assert exact >= 0;
      if currDist < minDist {
        currDist := currDist + ctx.metric.capped(featuresPivot, feats[idx], minDist - currDist);
        assert currDist < minDist <==> Cost(ctx, pivot, idx) < minDist;
        assert currDist < minDist ==> currDist == Cost(ctx, pivot, idx);
        if currDist < minDist {
          minDist := currDist;
          best := j;
        }
      }
      j := j + 1;
    }
    var wb := WindowBest(tr, i, ctx);
    WindowBestSpec(tr, i, ctx);
    if minDist < IntMax {
      assert Cost(ctx, pivot, tr[best]) < IntMax;
      assert IsFirstMinimiser(tr, i, ctx, wb);
      assert Cost(ctx, pivot, tr[wb]) <= Cost(ctx, pivot, tr[best]);
      assert Cost(ctx, pivot, tr[wb]) >= minDist;
    }
  }

  /**
   * Scores of the reordered tail (lines 197-203): the k-th entry is
   * maxScore - k * delta, with delta = (maxScore - minScore) / (n - 1).
   */
  function TailScores(maxScore: real, minScore: real, n: nat): seq<real>
    requires n >= 2
  {
    var delta := (maxScore - minScore) / (n - 1) as real;
    seq(n, k requires 0 <= k < n => maxScore - k as real * delta)
  }

  /**
   * The tail scores start at maxScore, end exactly at minScore, fall by the
   * same delta at every step, and never rise when maxScore >= minScore.
   */
  lemma TailScoresShape(maxScore: real, minScore: real, n: nat)
    requires n >= 2
    ensures var r := TailScores(maxScore, minScore, n);
      && |r| == n && r[0] == maxScore && r[n - 1] == minScore
      && (forall k :: 0 <= k < n - 1 ==> r[k] - r[k + 1] == (maxScore - minScore) / (n - 1) as real)
      && (maxScore >= minScore ==> forall k, l :: 0 <= k <= l < n ==> r[k] >= r[l])
  {
    TailScoresEnds(maxScore, minScore, n);
    TailScoresSteps(maxScore, minScore, n);
    if maxScore >= minScore {
      TailScoresFall(maxScore, minScore, n);
    }
  }

  /** The first tail score is maxScore and the last one is minScore. */
  lemma TailScoresEnds(maxScore: real, minScore: real, n: nat)
    requires n >= 2
    ensures TailScores(maxScore, minScore, n)[0] == maxScore
    ensures TailScores(maxScore, minScore, n)[n - 1] == minScore
  {
    var d := (n - 1) as real;
    var delta := (maxScore - minScore) / d;
    var r := TailScores(maxScore, minScore, n);
    assert r[0] == maxScore - 0 as real * delta;
    assert r[n - 1] == maxScore - d * delta;
    QuotientTimesDivisor(maxScore - minScore, d);
    assert d * delta == maxScore - minScore;
  }

  /** Multiplying a quotient by its divisor gives back the dividend. */
  lemma QuotientTimesDivisor(x: real, d: real)
    requires d > 0.0
    ensures d * (x / d) == x
  {
  }

  /** Consecutive tail scores differ by the same delta. */
  lemma TailScoresSteps(maxScore: real, minScore: real, n: nat)
    requires n >= 2
    ensures var r := TailScores(maxScore, minScore, n);
      forall k :: 0 <= k < n - 1 ==> r[k] - r[k + 1] == (maxScore - minScore) / (n - 1) as real
  {
    var delta := (maxScore - minScore) / (n - 1) as real;
    var r := TailScores(maxScore, minScore, n);
    forall k | 0 <= k < n - 1 ensures r[k] - r[k + 1] == delta {
      assert (k + 1) as real * delta == k as real * delta + delta;
    }
  }

  /** Each tail score is the previous one minus delta. */
  lemma TailScoresNext(maxScore: real, minScore: real, n: nat, k: nat)
    requires n >= 2 && k + 1 < n
    ensures var r := TailScores(maxScore, minScore, n);
      r[k + 1] == r[k] - (maxScore - minScore) / (n - 1) as real
  {
    var delta := (maxScore - minScore) / (n - 1) as real;
    assert (k + 1) as real * delta == k as real * delta + delta;
  }

  /** The tail scores never rise when maxScore >= minScore. */
  lemma TailScoresFall(maxScore: real, minScore: real, n: nat)
    requires n >= 2 && maxScore >= minScore
    ensures var r := TailScores(maxScore, minScore, n);
      forall k, l :: 0 <= k <= l < n ==> r[k] >= r[l]
  {
    var delta := (maxScore - minScore) / (n - 1) as real;
    var r := TailScores(maxScore, minScore, n);
    assert delta >= 0.0;
    forall k, l | 0 <= k <= l < n ensures r[k] >= r[l] {
      NonNegativeProduct((l - k) as real, delta);
      assert r[k] - r[l] == (l - k) as real * delta;
    }
  }

  /** The product of two non-negative reals is non-negative. */
  lemma NonNegativeProduct(a: real, b: real)
    requires a >= 0.0 && b >= 0.0
    ensures a * b >= 0.0
  {
  }

  /**
   * The scores after the positions tr[lo], ..., tr[hi-1] were set to
   * vals[0], ..., vals[hi-1-lo], one after another (line 201).
   */
  function Relabelled(sc: seq<real>, tr: seq<int>, lo: nat, hi: nat, vals: seq<real>): (r: seq<real>)
    requires lo <= hi <= |tr| && |vals| == |tr| - lo && InRange(tr, |sc|)
    ensures |r| == |sc|
    decreases hi - lo
  {
    if hi == lo then sc
    else Relabelled(sc, tr, lo, hi - 1, vals)[tr[hi - 1] := vals[hi - 1 - lo]]
  }

  /**
   * On a distinct list, each relabelled position tr[k] ends with vals[k - lo];
   * every position outside tr[lo..hi] keeps its score.
   */
  lemma RelabelledSpec(sc: seq<real>, tr: seq<int>, lo: nat, hi: nat, vals: seq<real>)
    requires lo <= hi <= |tr| && |vals| == |tr| - lo && InRange(tr, |sc|)
    ensures var r := Relabelled(sc, tr, lo, hi, vals);
      && (Distinct(tr) ==> forall k :: lo <= k < hi ==> r[tr[k]] == vals[k - lo])
      && (forall p :: 0 <= p < |sc| && p !in tr[lo..hi] ==> r[p] == sc[p])
  {
    RelabelledKeeps(sc, tr, lo, hi, vals);
    if Distinct(tr) {
      RelabelledSets(sc, tr, lo, hi, vals);
    }
  }

  /** Every position outside tr[lo..hi] keeps its score. */
  lemma {:induction false} RelabelledKeeps(sc: seq<real>, tr: seq<int>, lo: nat, hi: nat, vals: seq<real>)
    requires lo <= hi <= |tr| && |vals| == |tr| - lo && InRange(tr, |sc|)
    ensures forall p :: 0 <= p < |sc| && p !in tr[lo..hi] ==> Relabelled(sc, tr, lo, hi, vals)[p] == sc[p]
    decreases hi - lo
  {
    if hi > lo {
      RelabelledKeeps(sc, tr, lo, hi - 1, vals);
      assert tr[lo..hi] == tr[lo..hi - 1] + [tr[hi - 1]];
    }
  }

  /** On a distinct list, each relabelled position tr[k] ends with vals[k - lo]. */
  lemma {:induction false} RelabelledSets(sc: seq<real>, tr: seq<int>, lo: nat, hi: nat, vals: seq<real>)
    requires lo <= hi <= |tr| && |vals| == |tr| - lo && InRange(tr, |sc|) && Distinct(tr)
    ensures forall k :: lo <= k < hi ==> Relabelled(sc, tr, lo, hi, vals)[tr[k]] == vals[k - lo]
    decreases hi - lo
  {
    if hi > lo {
      RelabelledSets(sc, tr, lo, hi - 1, vals);
      var prev := Relabelled(sc, tr, lo, hi - 1, vals);
      assert Relabelled(sc, tr, lo, hi, vals) == prev[tr[hi - 1] := vals[hi - 1 - lo]];
      forall k | lo <= k < hi - 1 ensures tr[k] != tr[hi - 1] {
      }
    }
  }

  /**
   * Relabelling the tail of a distinct list from lo on with non-increasing
   * values leaves the scores of the head as they were and makes the tail's
   * scores non-increasing, from the first value to the last.
   */
  lemma {:induction false} RelabelledTail(sc: seq<real>, r: seq<int>, lo: nat, vals: seq<real>)
    requires lo < |r| && |vals| == |r| - lo && InRange(r, |sc|) && Distinct(r)
    requires forall k, l :: 0 <= k <= l < |vals| ==> vals[k] >= vals[l]
    ensures var sc' := Relabelled(sc, r, lo, |r|, vals);
      && (forall k :: 0 <= k < lo ==> sc'[r[k]] == sc[r[k]])
      && (forall k, l :: lo <= k <= l < |r| ==> sc'[r[k]] >= sc'[r[l]])
      && sc'[r[lo]] == vals[0] && sc'[r[|r| - 1]] == vals[|vals| - 1]
  {
    var sc' := Relabelled(sc, r, lo, |r|, vals);
    RelabelledSpec(sc, r, lo, |r|, vals);
    forall k, l | lo <= k <= l < |r| ensures sc'[r[k]] >= sc'[r[l]] {
      assert sc'[r[k]] == vals[k - lo] && sc'[r[l]] == vals[l - lo];
    }
  }

  /** Relabelling one more position sets that position's score and nothing else. */
  lemma RelabelledStep(sc: seq<real>, tr: seq<int>, lo: nat, i: nat, vals: seq<real>)
    requires lo <= i < |tr| && |vals| == |tr| - lo && InRange(tr, |sc|)
    ensures Relabelled(sc, tr, lo, i + 1, vals) == Relabelled(sc, tr, lo, i, vals)[tr[i] := vals[i - lo]]
  {
  }
}
