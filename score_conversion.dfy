/**
 * Conversion of nearest-neighbour hits into scores, and the scan over the
 * hits that builds the map from Lucene document id to score. Line numbers
 * in comments refer to ImageSimilarityScorer.java.
 */
module ScoreConversion {
  import opened ScorerTypes

  /**
   * The continuous score of a squared distance, clamped at zero: a distance
   * of zero scores 100, and every unit of distance per feature costs
   * DistToScoreMult points.
   */
  function FormulaScore(distance: real, numFeatures: nat): (s: real)
    requires numFeatures > 0
    ensures s >= 0.0
    ensures distance >= 0.0 ==> s <= 100.0
    ensures distance <= 0.0 ==> s >= 100.0
    ensures s > 0.0 ==> s == 100.0 - distance * DistToScoreMult / numFeatures as real
    ensures s == 0.0 <==> distance * DistToScoreMult / numFeatures as real >= 100.0
  {
    var raw := 100.0 - distance * DistToScoreMult / numFeatures as real;
    if raw > 0.0 then raw else 0.0
  }

  /** A larger distance never scores higher. */
  lemma FormulaAntitone(d1: real, d2: real, numFeatures: nat)
    requires numFeatures > 0 && d1 <= d2
    ensures FormulaScore(d1, numFeatures) >= FormulaScore(d2, numFeatures)
  {
    var n := numFeatures as real;
    assert d1 * DistToScoreMult / n <= d2 * DistToScoreMult / n by {
      assert (d2 - d1) * DistToScoreMult / n >= 0.0;
    }
  }

  /** Whether the hit is close enough for the hash of its document to be read. */
  predicate HashChecked(n: ScoreDoc, refHash: Option<string>, index: VectorIndex) {
    index.squareDist(n.relevance) < IdenticalDistance && refHash.Some?
  }

  /** The hit is an image identical to the reference: near-zero distance and the same hash. */
  predicate IdenticalMatch(n: ScoreDoc, refHash: Option<string>, index: VectorIndex) {
    HashChecked(n, refHash, index) && index.docHash(n.doc) == DocHash(refHash)
  }

  /** What the scan does with one hit: accept it with a score, or stop. */
  datatype Verdict = Accept(score: real) | Halt

  function Assess(n: ScoreDoc, numFeatures: nat, refHash: Option<string>, index: VectorIndex): (v: Verdict)
    requires numFeatures > 0
    // an identical image always gets the sentinel score
    ensures IdenticalMatch(n, refHash, index) ==> v == Accept(IdenticalScore)
    // an I/O failure while reading the hash stops the scan
    ensures HashChecked(n, refHash, index) && index.docHash(n.doc) == DocIoError ==> v == Halt
    // otherwise the hit is accepted exactly when its continuous score reaches MinScore, with that score
    ensures !IdenticalMatch(n, refHash, index) && !(HashChecked(n, refHash, index) && index.docHash(n.doc) == DocIoError) ==>
              var s := FormulaScore(index.squareDist(n.relevance), numFeatures);
              (v.Accept? <==> s >= MinScore) && (v.Accept? ==> v.score == s)
    // accepted scores lie in [MinScore, 100], or are the sentinel of an identical image
    ensures v.Accept? ==> v.score >= MinScore
    ensures v.Accept? && index.squareDist(n.relevance) >= 0.0 ==>
              v.score <= 100.0 || (v.score == IdenticalScore && IdenticalMatch(n, refHash, index))
  {
    var distance := index.squareDist(n.relevance);
    var score := FormulaScore(distance, numFeatures);
    if distance < IdenticalDistance && refHash.Some? then
      match index.docHash(n.doc)
      case DocIoError => Halt
      case DocHash(h) =>
        var s := if h == refHash then IdenticalScore else score;
        if s < MinScore then Halt else Accept(s)
    else if score < MinScore then Halt else Accept(score)
  }

  /** The number of hits the scan accepts before it stops. */
  function ScanLength(ns: seq<ScoreDoc>, numFeatures: nat, refHash: Option<string>, index: VectorIndex): (k: nat)
    requires numFeatures > 0
    ensures k <= |ns|
    ensures forall j :: 0 <= j < k ==> Assess(ns[j], numFeatures, refHash, index).Accept?
    ensures k < |ns| ==> Assess(ns[k], numFeatures, refHash, index).Halt?
  {
    if ns == [] || Assess(ns[0], numFeatures, refHash, index).Halt? then 0
    else 1 + ScanLength(ns[1..], numFeatures, refHash, index)
  }

  /** The scan stops exactly at the first hit it does not accept. */
  lemma {:induction false} ScanLengthUnique(ns: seq<ScoreDoc>, k: nat, numFeatures: nat, refHash: Option<string>, index: VectorIndex)
    requires numFeatures > 0 && k <= |ns|
    requires forall j :: 0 <= j < k ==> Assess(ns[j], numFeatures, refHash, index).Accept?
    requires k < |ns| ==> Assess(ns[k], numFeatures, refHash, index).Halt?
    ensures ScanLength(ns, numFeatures, refHash, index) == k
  {
  }

  /**
   * The map built from accepted hits, each put in scan order (a later hit on
   * the same document replaces the earlier score).
   */
  function ScoreMap(ns: seq<ScoreDoc>, numFeatures: nat, refHash: Option<string>, index: VectorIndex): (m: map<int, real>)
    requires numFeatures > 0
    requires forall j :: 0 <= j < |ns| ==> Assess(ns[j], numFeatures, refHash, index).Accept?
    ensures forall d :: d in m <==> exists j :: 0 <= j < |ns| && ns[j].doc == d
    ensures forall d :: d in m ==>
              exists j :: 0 <= j < |ns| && ns[j].doc == d && m[d] == Assess(ns[j], numFeatures, refHash, index).score
  {
    if ns == [] then map[]
    else
      var last := ns[|ns| - 1];
      var prev := ScoreMap(ns[..|ns| - 1], numFeatures, refHash, index);
      assert forall j :: 0 <= j < |ns| - 1 ==> ns[..|ns| - 1][j] == ns[j];
      prev[last.doc := Assess(last, numFeatures, refHash, index).score]
  }

  /**
   * Every score in the map of the first k accepted hits is at least MinScore
   * and belongs to one of those hits; with non-negative distances it is at
   * most 100 or the identical-image sentinel.
   */
  lemma ScoreMapBounds(ns: seq<ScoreDoc>, k: nat, numFeatures: nat, refHash: Option<string>, index: VectorIndex)
    requires numFeatures > 0 && k <= |ns|
    requires forall j :: 0 <= j < k ==> Assess(ns[j], numFeatures, refHash, index).Accept?
    ensures forall d :: d in ScoreMap(ns[..k], numFeatures, refHash, index) ==>
              && ScoreMap(ns[..k], numFeatures, refHash, index)[d] >= MinScore
              && exists j :: 0 <= j < k && ns[j].doc == d
    ensures (forall j :: 0 <= j < |ns| ==> index.squareDist(ns[j].relevance) >= 0.0) ==>
              forall d :: d in ScoreMap(ns[..k], numFeatures, refHash, index) ==>
                var s := ScoreMap(ns[..k], numFeatures, refHash, index)[d];
                s <= 100.0 || s == IdenticalScore
  {
    var prefix := ns[..k];
    var m := ScoreMap(prefix, numFeatures, refHash, index);
    forall d | d in m
      ensures m[d] >= MinScore && exists j :: 0 <= j < k && ns[j].doc == d
      ensures (forall j :: 0 <= j < |ns| ==> index.squareDist(ns[j].relevance) >= 0.0) ==>
                m[d] <= 100.0 || m[d] == IdenticalScore
    {
      var j :| 0 <= j < |prefix| && prefix[j].doc == d && m[d] == Assess(prefix[j], numFeatures, refHash, index).score;
      assert ns[j] == prefix[j];
    }
  }

  /** Lines 94-113 for one hit: the score it earns, or Halt when the scan stops at it. */
  method AssessHit(n: ScoreDoc, numFeatures: nat, refHash: Option<string>, index: VectorIndex) returns (v: Verdict)
    requires numFeatures > 0
    ensures v == Assess(n, numFeatures, refHash, index)
  {
    var distance := index.squareDist(n.relevance);
    var score := FormulaScore(distance, numFeatures);
    if distance < IdenticalDistance && refHash.Some? {
      match index.docHash(n.doc)
      case DocIoError =>
        return Halt;
      case DocHash(h) =>
        if h == refHash {
          score := IdenticalScore;
        }
    }
    if score < MinScore {
      return Halt;
    }
    return Accept(score);
  }

  /**
   * The scan of lines 93-115: hits are visited in the index's order, and the
   * first one scoring below MinScore, or whose hash cannot be read, ends it.
   * Returns the score map and the number of accepted hits.
   */
  method ScanNeighbors(ns: seq<ScoreDoc>, numFeatures: nat, refHash: Option<string>, index: VectorIndex)
    returns (m: map<int, real>, accepted: nat)
    requires numFeatures > 0
    ensures accepted == ScanLength(ns, numFeatures, refHash, index)
    ensures m == ScoreMap(ns[..accepted], numFeatures, refHash, index)
    ensures forall d :: d in m ==> m[d] >= MinScore
    ensures forall d :: d in m ==> exists j :: 0 <= j < accepted && ns[j].doc == d
    ensures (forall j :: 0 <= j < |ns| ==> index.squareDist(ns[j].relevance) >= 0.0) ==>
              forall d :: d in m ==> m[d] <= 100.0 || m[d] == IdenticalScore
  {
    m := map[];
    accepted := 0;
    while accepted < |ns|
      invariant accepted <= |ns|
      invariant forall j :: 0 <= j < accepted ==> Assess(ns[j], numFeatures, refHash, index).Accept?
      invariant m == ScoreMap(ns[..accepted], numFeatures, refHash, index)
    {
      var n := ns[accepted];
      var v := AssessHit(n, numFeatures, refHash, index);
      if v.Halt? {
        break;
      }
      assert ns[..accepted + 1][..accepted] == ns[..accepted];
      m := m[n.doc := v.score];
      accepted := accepted + 1;
    }
    ScanLengthUnique(ns, accepted, numFeatures, refHash, index);
    ScoreMapBounds(ns, accepted, numFeatures, refHash, index);
  }
}
