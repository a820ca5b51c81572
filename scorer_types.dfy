/**
 * Constants and external collaborators of the image-similarity scorer.
 *
 * The vector index, the document store and the distance computation are not
 * part of this model; they are represented by function values that the
 * caller supplies, and the scorer relies only on the contracts stated here.
 */
module ScorerTypes {

  datatype Option<T> = None | Some(value: T)

  /** Raw similarity features of an image (the bytes of its feature vector). */
  type Features = seq<int>

  /** Weight of the squared distance in the score formula. */
  const DistToScoreMult: real := 4.0
  /** Score given to images whose hash equals the reference image's hash. */
  const IdenticalScore: real := 1000.0
  /** Squared distance below which the hash comparison is attempted. */
  const IdenticalDistance: real := 0.001
  /** Number of best results that are reordered. */
  const MaxTop: nat := 2000
  /** Number of entries after a pivot searched for its closest successor. */
  const RangeCheck: nat := 100
  /** Minimum score an image needs to enter the results. */
  const MinScore: real := 1.0
  /** Number of nearest neighbours asked of the vector index. */
  const MaxResults: nat := 100000
  /** Java's Integer.MAX_VALUE, the starting value of the running minimum. */
  const IntMax: int := 0x7fff_ffff

  /** One nearest-neighbour hit: a Lucene document id and its relevance. */
  datatype ScoreDoc = ScoreDoc(doc: int, relevance: real)

  /** Outcome of reading a document's stored hash. */
  datatype DocLookup = DocHash(hash: Option<string>) | DocIoError

  /** The case index, as far as the scorer consults it. */
  datatype VectorIndex = VectorIndex(
    // answer of the nearest-neighbour query for the reference vector,
    // at most MaxResults hits in descending relevance
    nearest: seq<ScoreDoc>,
    // conversion of a Lucene relevance into a squared distance
    squareDist: real -> real,
    // hash stored in a document, or an I/O failure while reading it
    docHash: int -> DocLookup,
    // Lucene id of a result item
    luceneId: int -> int,
    // whether the similarity-feature doc values could be opened
    docValuesOpen: bool,
    // stored similarity features of a Lucene document
    features: int -> Features)

  /** The distance between two feature vectors and its capped variant. */
  datatype Metric = Metric(
    exact: (Features, Features) -> int,
    capped: (Features, Features, int) -> int)
  {
    /**
     * The exact distance is non-negative; the capped one is exact below the
     * cap and otherwise reports some value not below the cap.
     */
    ghost predicate Valid() {
      && (forall a, b :: exact(a, b) >= 0)
      && (forall a, b, cap :: exact(a, b) < cap ==> capped(a, b, cap) == exact(a, b))
      && (forall a, b, cap :: exact(a, b) >= cap ==> capped(a, b, cap) >= cap)
    }
  }

  /** Every entry of s is a position of a result set of length n. */
  predicate InRange(s: seq<int>, n: nat) {
    forall k :: 0 <= k < |s| ==> 0 <= s[k] < n
  }

  /** The positions of s are strictly ascending, as the matched positions are collected. */
  predicate Ascending(s: seq<int>) {
    forall i, j :: 0 <= i < j < |s| ==> s[i] < s[j]
  }

  /** No position occurs twice in s. */
  predicate Distinct(s: seq<int>) {
    forall i, j :: 0 <= i < j < |s| ==> s[i] != s[j]
  }
}
