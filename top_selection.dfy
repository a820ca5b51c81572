/**
 * Projection of the score map onto the result set, and selection of the top
 * results: stable sort by descending score, truncation to MaxTop, and the
 * split into an identical prefix and a similar tail. Line numbers in comments
 * refer to ImageSimilarityScorer.java.
 */
module TopSelection {
  import opened ScorerTypes

  /** The Lucene id of every result position. */
  function Keys(items: seq<int>, index: VectorIndex): seq<int> {
    seq(|items|, i requires 0 <= i < |items| => index.luceneId(items[i]))
  }

  /** The score each position receives from the map: its mapped score, or 0. */
  function Projected(keys: seq<int>, m: map<int, real>): (r: seq<real>)
    ensures |r| == |keys|
  {
    seq(|keys|, i requires 0 <= i < |keys| => if keys[i] in m then m[keys[i]] else 0.0)
  }

  /** The positions whose key is in the map, in ascending order. */
  function MatchedPositions(keys: seq<int>, m: map<int, real>): (r: seq<int>)
    ensures forall p :: p in r <==> 0 <= p < |keys| && keys[p] in m
    ensures Ascending(r)
    ensures InRange(r, |keys|) && Distinct(r)
  {
    if keys == [] then []
    else
      var last := |keys| - 1;
      var prev := MatchedPositions(keys[..last], m);
      assert forall p :: 0 <= p < last ==> keys[..last][p] == keys[p];
      assert forall i :: 0 <= i < |prev| ==> prev[i] in prev && prev[i] < last;
      if keys[last] in m then prev + [last] else prev
  }

  /** Taking one more key appends its position exactly when the key is in the map. */
  lemma MatchedPositionsStep(keys: seq<int>, m: map<int, real>, i: nat)
    requires i < |keys|
    ensures MatchedPositions(keys[..i + 1], m) ==
      MatchedPositions(keys[..i], m) + (if keys[i] in m then [i] else [])
  {
    assert keys[..i + 1][..i] == keys[..i];
  }

  /**
   * When every mapped score is at least MinScore, the matched positions are
   * exactly those the projection gives a score of at least MinScore, a
   * matched position carries its document's mapped score, and every other
   * position is projected to 0.
   */
  lemma ProjectedMatches(keys: seq<int>, m: map<int, real>)
    requires forall d :: d in m ==> m[d] >= MinScore
    ensures forall p :: 0 <= p < |keys| ==>
      (p in MatchedPositions(keys, m) <==> Projected(keys, m)[p] >= MinScore)
    ensures forall p :: 0 <= p < |keys| && p !in MatchedPositions(keys, m) ==> Projected(keys, m)[p] == 0.0
    ensures forall p :: 0 <= p < |keys| && keys[p] in m ==> Projected(keys, m)[p] == m[keys[p]]
  {
    var r, sc := MatchedPositions(keys, m), Projected(keys, m);
    forall p | 0 <= p < |keys|
      ensures (p in r <==> sc[p] >= MinScore) && (p !in r ==> sc[p] == 0.0)
    {
      if keys[p] in m {
        var d := keys[p];
        assert d in m && sc[p] == m[d];
        assert m[d] >= MinScore;
        assert p in r;
      } else {
        assert sc[p] == 0.0;
        assert p !in r;
      }
    }
  }

  /**
   * Position a goes before position b: a higher score first, and on equal
   * scores the lower position first (Collections.sort is stable and the
   * positions arrive in ascending order).
   */
  predicate Precedes(sc: seq<real>, a: int, b: int)
    requires 0 <= a < |sc| && 0 <= b < |sc|
  {
    sc[a] > sc[b] || (sc[a] == sc[b] && a <= b)
  }

  predicate SortedByScore(s: seq<int>, sc: seq<real>)
    requires InRange(s, |sc|)
  {
    forall i, j :: 0 <= i < j < |s| ==> Precedes(sc, s[i], s[j])
  }

  /** Insertion of one position into a list sorted by score. */
  function Insert(x: int, s: seq<int>, sc: seq<real>): (r: seq<int>)
    requires 0 <= x < |sc| && InRange(s, |sc|)
    ensures |r| == |s| + 1 && InRange(r, |sc|)
    ensures multiset(r) == multiset(s) + multiset{x}
  {
    if s == [] || Precedes(sc, x, s[0]) then [x] + s
    else
      assert s == [s[0]] + s[1..];
      [s[0]] + Insert(x, s[1..], sc)
  }

  lemma {:induction false} InsertSorted(x: int, s: seq<int>, sc: seq<real>)
    requires 0 <= x < |sc| && InRange(s, |sc|) && SortedByScore(s, sc)
    ensures SortedByScore(Insert(x, s, sc), sc)
  {
    if s != [] && !Precedes(sc, x, s[0]) {
      var rest := Insert(x, s[1..], sc);
      InsertSorted(x, s[1..], sc);
      assert Precedes(sc, s[0], x);
      forall k | 0 <= k < |rest| ensures Precedes(sc, s[0], rest[k]) {
        assert rest[k] in multiset(s[1..]) + multiset{x};
        if rest[k] != x {
          var j :| 0 <= j < |s[1..]| && s[1..][j] == rest[k];
          assert s[j + 1] == rest[k];
        }
      }
    }
  }

  /** Prepending a position that does not occur keeps a list distinct. */
  lemma DistinctCons(a: int, t: seq<int>)
    requires Distinct(t) && a !in t
    ensures Distinct([a] + t)
  {
    var r := [a] + t;
    forall i, j | 0 <= i < j < |r| ensures r[i] != r[j] {
      assert r[j] == t[j - 1];
      if i > 0 {
        assert r[i] == t[i - 1];
      }
    }
  }

  /** The tail of a distinct list is distinct and does not hold its head. */
  lemma DistinctTail(s: seq<int>)
    requires Distinct(s) && s != []
    ensures Distinct(s[1..]) && s[0] !in s[1..]
  {
    forall a, b | 0 <= a < b < |s[1..]| ensures s[1..][a] != s[1..][b] {
      assert s[1..][a] == s[a + 1] && s[1..][b] == s[b + 1];
    }
  }

  lemma {:induction false} InsertDistinct(x: int, s: seq<int>, sc: seq<real>)
    requires 0 <= x < |sc| && InRange(s, |sc|) && Distinct(s) && x !in s
    ensures Distinct(Insert(x, s, sc))
  {
    if s == [] || Precedes(sc, x, s[0]) {
      DistinctCons(x, s);
    } else {
      var rest := Insert(x, s[1..], sc);
      DistinctTail(s);
      assert x !in s[1..];
      InsertDistinct(x, s[1..], sc);
      assert s[0] !in multiset(rest);
      DistinctCons(s[0], rest);
    }
  }

  /** The list of lines 206-212: the same positions, by descending score. */
  function SortByScore(s: seq<int>, sc: seq<real>): (r: seq<int>)
    requires InRange(s, |sc|)
    ensures |r| == |s| && InRange(r, |sc|)
    ensures multiset(r) == multiset(s)
  {
    if s == [] then []
    else
      assert s == [s[0]] + s[1..];
      Insert(s[0], SortByScore(s[1..], sc), sc)
  }

  /** The sorted list is in non-increasing score, ties by ascending position. */
  lemma {:induction false} SortSorted(s: seq<int>, sc: seq<real>)
    requires InRange(s, |sc|)
    ensures SortedByScore(SortByScore(s, sc), sc)
  {
    if s != [] {
      SortSorted(s[1..], sc);
      InsertSorted(s[0], SortByScore(s[1..], sc), sc);
    }
  }

  /** Sorting keeps the positions distinct. */
  lemma {:induction false} SortDistinct(s: seq<int>, sc: seq<real>)
    requires InRange(s, |sc|) && Distinct(s)
    ensures Distinct(SortByScore(s, sc))
  {
    if s != [] {
      var rest := SortByScore(s[1..], sc);
      DistinctTail(s);
      SortDistinct(s[1..], sc);
      assert s[0] !in multiset(rest);
      InsertDistinct(s[0], rest, sc);
    }
  }

  /**
   * On an ascending list, which is what the sort receives, positions of
   * equal score keep their input order: the sort is the stable one.
   */
  lemma SortKeepsTieOrder(s: seq<int>, sc: seq<real>)
    requires InRange(s, |sc|) && Ascending(s)
    ensures var r := SortByScore(s, sc);
      forall i, j :: 0 <= i < j < |r| && sc[r[i]] == sc[r[j]] ==> r[i] < r[j]
  {
    var r := SortByScore(s, sc);
    SortSorted(s, sc);
    SortDistinct(s, sc);
    forall i, j | 0 <= i < j < |r| && sc[r[i]] == sc[r[j]] ensures r[i] < r[j] {
      assert Precedes(sc, r[i], r[j]);
    }
  }

  /** Sorting a list that is already in order changes nothing. */
  lemma {:induction false} SortIdempotent(s: seq<int>, sc: seq<real>)
    requires InRange(s, |sc|) && SortedByScore(s, sc)
    ensures SortByScore(s, sc) == s
  {
    if s != [] {
      SortIdempotent(s[1..], sc);
      assert SortByScore(s[1..], sc) == s[1..];
      assert s == [s[0]] + s[1..];
    }
  }

  /** A permutation of positions in range is in range. */
  lemma PermutationInRange(r: seq<int>, s: seq<int>, n: nat)
    requires multiset(r) == multiset(s) && InRange(s, n)
    ensures InRange(r, n)
  {
    forall k | 0 <= k < |r| ensures 0 <= r[k] < n {
      assert r[k] in multiset(s);
    }
  }

  /** Truncation of lines 133-135: the first MaxTop entries. */
  function Truncate(s: seq<int>): (r: seq<int>)
    ensures |r| == (if |s| > MaxTop then MaxTop else |s|)
    ensures r == s[..|r|]
  {
    if |s| > MaxTop then s[..MaxTop] else s
  }

  /** The top results after sorting and truncation (lines 132-135). */
  function Selected(s: seq<int>, sc: seq<real>): (r: seq<int>)
    requires InRange(s, |sc|)
    ensures |r| == (if |s| > MaxTop then MaxTop else |s|)
  {
    Truncate(SortByScore(s, sc))
  }

  /** Sorting the selection again leaves it as it is. */
  lemma SelectedIdempotent(s: seq<int>, sc: seq<real>)
    requires InRange(s, |sc|)
    ensures InRange(Selected(s, sc), |sc|)
    ensures Selected(Selected(s, sc), sc) == Selected(s, sc)
  {
    var sel := Selected(s, sc);
    SortSorted(s, sc);
    assert sel == SortByScore(s, sc)[..|sel|];
    SortIdempotent(sel, sc);
  }

  /**
   * The selection holds at most MaxTop distinct matched positions, in
   * non-increasing score, and no matched position left out scores higher
   * than one kept.
   */
  lemma {:induction false} SelectedProperties(s: seq<int>, sc: seq<real>)
    requires InRange(s, |sc|) && Distinct(s)
    ensures var sel := Selected(s, sc);
      && |sel| == (if |s| > MaxTop then MaxTop else |s|)
      && InRange(sel, |sc|) && Distinct(sel)
      && (forall i, j :: 0 <= i < j < |sel| ==> sc[sel[i]] >= sc[sel[j]])
      && (forall x :: x in sel ==> x in s)
      && (forall x, k :: x in s && x !in sel && 0 <= k < |sel| ==> sc[sel[k]] >= sc[x])
  {
    var r := SortByScore(s, sc);
    var n := if |s| > MaxTop then MaxTop else |s|;
    SortSorted(s, sc);
    SortDistinct(s, sc);
    assert Selected(s, sc) == r[..n];
    PrefixKeepsMembers(r[..n], r, s);
    PrefixSorted(r, sc, n);
    PrefixOutranks(r, s, sc, n);
  }

  /** The selection is a list of distinct positions with non-increasing scores. */
  lemma SelectedOrdered(s: seq<int>, sc: seq<real>)
    requires InRange(s, |sc|) && Distinct(s)
    ensures var sel := Selected(s, sc);
      InRange(sel, |sc|) && Distinct(sel) && forall i, j :: 0 <= i < j < |sel| ==> sc[sel[i]] >= sc[sel[j]]
  {
    SelectedProperties(s, sc);
  }

  /** Every entry of a prefix of a permutation of s is in s. */
  lemma PrefixKeepsMembers(p: seq<int>, r: seq<int>, s: seq<int>)
    requires multiset(r) == multiset(s) && |p| <= |r| && p == r[..|p|]
    ensures forall x :: x in p ==> x in s
  {
    forall x | x in p ensures x in s {
      assert x in r;
      assert x in multiset(s);
    }
  }

  /** A prefix of a distinct sorted list is distinct, in range and in non-increasing score. */
  lemma PrefixSorted(r: seq<int>, sc: seq<real>, n: nat)
    requires InRange(r, |sc|) && SortedByScore(r, sc) && Distinct(r) && n <= |r|
    ensures var p := r[..n];
      && InRange(p, |sc|) && Distinct(p)
      && forall i, j :: 0 <= i < j < |p| ==> sc[p[i]] >= sc[p[j]]
  {
    var p := r[..n];
    forall i, j | 0 <= i < j < |p| ensures sc[p[i]] >= sc[p[j]] && p[i] != p[j] {
      assert p[i] == r[i] && p[j] == r[j];
      assert Precedes(sc, r[i], r[j]);
    }
  }

  /**
   * In a sorted permutation r of s, every entry of the first n scores at
   * least as high as any entry of s outside them.
   */
  lemma PrefixOutranks(r: seq<int>, s: seq<int>, sc: seq<real>, n: nat)
    requires InRange(r, |sc|) && InRange(s, |sc|) && SortedByScore(r, sc) && n <= |r|
    requires multiset(r) == multiset(s)
    ensures forall x, k :: x in s && x !in r[..n] && 0 <= k < n ==> sc[r[..n][k]] >= sc[x]
  {
    forall x, k | x in s && x !in r[..n] && 0 <= k < n
      ensures sc[r[..n][k]] >= sc[x]
    {
      assert x in multiset(r);
      var j :| 0 <= j < |r| && r[j] == x;
      assert r[..n][k] == r[k];
      assert forall i :: 0 <= i < n ==> r[..n][i] == r[i];
      assert j >= n;
      assert Precedes(sc, r[k], r[j]);
    }
  }

  /** First index from k on whose score is below the identical score. */
  function FirstBelowIdentical(tr: seq<int>, sc: seq<real>, k: nat): (r: nat)
    requires InRange(tr, |sc|) && k <= |tr|
    ensures k <= r <= |tr|
    ensures forall j :: k <= j < r ==> sc[tr[j]] >= IdenticalScore
    ensures r < |tr| ==> sc[tr[r]] < IdenticalScore
    decreases |tr| - k
  {
    if k == |tr| then k
    else if sc[tr[k]] < IdenticalScore then k
    else FirstBelowIdentical(tr, sc, k + 1)
  }

  /**
   * The start of the similar tail: the least index in [1, |tr|) whose score
   * is below the identical score, or |tr| when there is none. Index 0 never
   * belongs to the tail.
   */
  function StartOf(tr: seq<int>, sc: seq<real>): (start: nat)
    requires InRange(tr, |sc|)
    ensures start <= |tr| && (|tr| > 0 ==> start >= 1)
    ensures forall j :: 1 <= j < start ==> sc[tr[j]] >= IdenticalScore
    ensures start < |tr| ==> sc[tr[start]] < IdenticalScore
  {
    if |tr| == 0 then 0 else FirstBelowIdentical(tr, sc, 1)
  }

  /** The search of lines 155-162. */
  method FindStart(tr: seq<int>, sc: seq<real>) returns (start: nat)
    requires InRange(tr, |sc|)
    ensures start == StartOf(tr, sc)
  {
    start := |tr|;
    var i := 1;
    while i < |tr|
      invariant 1 <= i
      invariant forall j :: 1 <= j < i && j < |tr| ==> sc[tr[j]] >= IdenticalScore
    {
      if sc[tr[i]] < IdenticalScore {
        start := i;
        break;
      }
      i := i + 1;
    }
  }
}
