# Image similarity scoring, modelled in Dafny

The model covers the `ImageSimilarityScorer` of the IPED forensic indexer. It
scores the items of a search result by their visual similarity to a reference
image, in four stages:

1. A nearest-neighbour scan.
   - Each hit of the vector index for the reference features gets a score
     `max(0, 100 - distance * 4 / numFeatures)`.
   - A hit with near-zero distance whose stored hash equals the reference
     image's hash gets the sentinel score 1000.
   - The scan stops at the first hit scoring below 1, or at an I/O error while
     reading a hash.
2. Projection. Every position of the result set gets the score of its document,
   or 0 if it has none. The matched positions are collected, in ascending order,
   in `topResults`.
3. Top selection.
   - `topResults` is sorted by descending score and cut to 2000 entries.
   - The similar tail starts at the first index from 1 on whose score is below
     1000.
   - Nothing more happens when the tail has at most two entries.
4. Chain reordering of that tail, which groups similar images together.
   - Pivot by pivot, the closest of the next 100 entries is rotated next to the
     pivot. "Closest" means the smallest distance to the reference plus
     distance to the pivot.
   - A capped distance prunes candidates that cannot win.
   - The tail is then rescored evenly, from its first score down to its last.

Files:
- `scorer_types.dfy` (`ScorerTypes`): the scorer's constants, and its
  collaborators as datatypes of function values. These are the vector index
  with its documents, hashes and stored features, and the image distance
  metric with the contract of its capped variant.
- `score_conversion.dfy` (`ScoreConversion`): the score formula, the verdict on
  one hit, and the scan that builds the map from document to score.
- `top_selection.dfy` (`TopSelection`): projection, matched positions, the
  stable sort by score, truncation, and the start of the tail.
- `chain_reorder.dfy` (`ChainReorder`): `Collections.rotate`, the window choice,
  the greedy chain and the even rescoring, as functions, with the pruned window
  search as a method proved equal to the unpruned choice.
- `image_similarity_scorer.dfy` (`ImageSimilarityScoring`): the scorer object.
  - Its fields are `topResults`, `topFeatures` and `refDist`.
  - The result set's scores live in an `array<real>` written in place.
  - `score()`, `organizeTopResults()` and `sortTopResults()` are methods with
    the source's loops.
  - Each method's postcondition ties the new state to the specification
    functions of the other modules.
  - `OrganizeGuarantees` states what organizing promises, whichever path it
    takes: the same positions, an untouched identical prefix, the tail's first
    score and the list's last score kept, non-increasing final scores, and all
    other scores unchanged.
  - From these, `ScoreBounds` proves the bounds the class documents: every
    final score is 0 or at least 1, and on the 100 scale it is at most 100 or
    the identical sentinel 1000.

Ties in the sort follow the code rather than a looser reading. `Collections.sort`
is stable, and the matched positions arrive in ascending order, so equal scores
keep ascending position order. `SortByScore` is an insertion sort by (score
descending, position ascending), and its results are proved sorted, distinct and
a permutation.

## Model

| member | source | states |
|---|---|---|
| ScoreConversion.FormulaScore | iped-engine/src/main/java/dpf/sp/gpinf/indexer/search/ImageSimilarityScorer.java:94-95 | the score is never negative; it is at most 100 for a non-negative distance; above 0 it equals 100 - distance*4/numFeatures, and it is 0 exactly when that value is not positive |
| ScoreConversion.FormulaAntitone | iped-engine/src/main/java/dpf/sp/gpinf/indexer/search/ImageSimilarityScorer.java:28-36 | a larger distance never scores higher |
| ScoreConversion.HashChecked | iped-engine/src/main/java/dpf/sp/gpinf/indexer/search/ImageSimilarityScorer.java:96-102 | defines when a hit is close enough (distance below 0.001, reference hash present) for its document hash to be read; Assess and AssessHit are stated with it |
| ScoreConversion.IdenticalMatch | iped-engine/src/main/java/dpf/sp/gpinf/indexer/search/ImageSimilarityScorer.java:96-102 | defines an identical image: a checked hit whose stored hash equals the reference hash; Assess gives it the score 1000 |
| ScoreConversion.Assess | iped-engine/src/main/java/dpf/sp/gpinf/indexer/search/ImageSimilarityScorer.java:94-113 | an identical image (distance < 0.001, reference hash present and equal) is accepted with 1000; an I/O error on a hash read stops the scan; otherwise the formula score is accepted unless below MinScore; accepted scores are at least MinScore, and with a non-negative distance at most 100 unless they are the identical sentinel |
| ScoreConversion.AssessHit | iped-engine/src/main/java/dpf/sp/gpinf/indexer/search/ImageSimilarityScorer.java:94-113 | the per-hit body of the scan computes exactly the verdict Assess |
| ScoreConversion.ScanLength | iped-engine/src/main/java/dpf/sp/gpinf/indexer/search/ImageSimilarityScorer.java:93-115 | every hit before the stopping point is accepted and the hit at it, if any, halts the scan |
| ScoreConversion.ScanLengthUnique | iped-engine/src/main/java/dpf/sp/gpinf/indexer/search/ImageSimilarityScorer.java:93-115 | the stopping point is the first non-accepted hit, and no other |
| ScoreConversion.ScoreMap | iped-engine/src/main/java/dpf/sp/gpinf/indexer/search/ImageSimilarityScorer.java:114 | the map's keys are exactly the documents of the accepted hits, and each value is the score of one of that document's hits |
| ScoreConversion.ScoreMapBounds | iped-engine/src/main/java/dpf/sp/gpinf/indexer/search/ImageSimilarityScorer.java:95-114 | every mapped score is at least MinScore and comes from an accepted hit; with non-negative distances it is at most 100 or exactly 1000 |
| ScoreConversion.ScanNeighbors | iped-engine/src/main/java/dpf/sp/gpinf/indexer/search/ImageSimilarityScorer.java:93-115 | the loop accepts exactly the hits before the first halting one, builds their map; when every squared distance of a hit is non-negative, every value lies in [MinScore, 100] or is 1000 |
| TopSelection.MatchedPositions | iped-engine/src/main/java/dpf/sp/gpinf/indexer/search/ImageSimilarityScorer.java:116-125 | a position is listed iff its Lucene id is in the map; the list is strictly ascending, in range and distinct |
| TopSelection.MatchedPositionsStep | iped-engine/src/main/java/dpf/sp/gpinf/indexer/search/ImageSimilarityScorer.java:119-124 | one more position is appended exactly when its key is in the map, as the loop of Project does |
| TopSelection.Keys | iped-engine/src/main/java/dpf/sp/gpinf/indexer/search/ImageSimilarityScorer.java:117 | defines the Lucene id of every result position; Project and Score are stated over it |
| TopSelection.Projected | iped-engine/src/main/java/dpf/sp/gpinf/indexer/search/ImageSimilarityScorer.java:116-125 | one score per result position; ProjectedMatches states which positions are matched, the mapped score each matched position carries, and the 0 of every other one |
| TopSelection.ProjectedMatches | iped-engine/src/main/java/dpf/sp/gpinf/indexer/search/ImageSimilarityScorer.java:116-125 | when every mapped score is at least MinScore, a position is matched exactly when its projected score is at least MinScore, a matched position carries its document's mapped score, and an unmatched position is projected to 0 |
| TopSelection.Precedes | iped-engine/src/main/java/dpf/sp/gpinf/indexer/search/ImageSimilarityScorer.java:206-212 | defines the order of the sort: a higher score first, and on equal scores the lower position first, the order the stable Collections.sort leaves the ascending matched positions in; SortSorted and SortKeepsTieOrder are stated with it |
| TopSelection.Insert | iped-engine/src/main/java/dpf/sp/gpinf/indexer/search/ImageSimilarityScorer.java:206-212 | insertion adds exactly one occurrence of the new position |
| TopSelection.InsertSorted | iped-engine/src/main/java/dpf/sp/gpinf/indexer/search/ImageSimilarityScorer.java:206-212 | insertion into a score-sorted list keeps it sorted |
| TopSelection.InsertDistinct | iped-engine/src/main/java/dpf/sp/gpinf/indexer/search/ImageSimilarityScorer.java:206-212 | insertion of a new position keeps a list distinct |
| TopSelection.SortByScore | iped-engine/src/main/java/dpf/sp/gpinf/indexer/search/ImageSimilarityScorer.java:206-212 | the sorted list is a permutation of its input, in range |
| TopSelection.SortSorted | iped-engine/src/main/java/dpf/sp/gpinf/indexer/search/ImageSimilarityScorer.java:206-212 | the sorted list is in non-increasing score, with ties in ascending position |
| TopSelection.SortKeepsTieOrder | iped-engine/src/main/java/dpf/sp/gpinf/indexer/search/ImageSimilarityScorer.java:206-212 | on an ascending input, entries of equal score keep their input order, which is what the stable Collections.sort does |
| TopSelection.SortDistinct | iped-engine/src/main/java/dpf/sp/gpinf/indexer/search/ImageSimilarityScorer.java:206-212 | sorting keeps distinct positions distinct |
| TopSelection.SortIdempotent | iped-engine/src/main/java/dpf/sp/gpinf/indexer/search/ImageSimilarityScorer.java:206-212 | sorting an already sorted list changes nothing |
| TopSelection.Truncate | iped-engine/src/main/java/dpf/sp/gpinf/indexer/search/ImageSimilarityScorer.java:133-135 | the list is cut to its first min(size, 2000) entries |
| TopSelection.Selected | iped-engine/src/main/java/dpf/sp/gpinf/indexer/search/ImageSimilarityScorer.java:132-135 | the selection has min(count, 2000) entries; SelectedProperties and SelectedOrdered state what they are |
| TopSelection.SelectedIdempotent | iped-engine/src/main/java/dpf/sp/gpinf/indexer/search/ImageSimilarityScorer.java:132-135 | sorting and truncating the selection again leaves it unchanged |
| TopSelection.SelectedProperties | iped-engine/src/main/java/dpf/sp/gpinf/indexer/search/ImageSimilarityScorer.java:132-135 | the selection has min(count, 2000) distinct positions, all matched, in non-increasing score, and no matched position left out scores above one kept |
| TopSelection.SelectedOrdered | iped-engine/src/main/java/dpf/sp/gpinf/indexer/search/ImageSimilarityScorer.java:132-135 | the selection is distinct, in range and in non-increasing score |
| TopSelection.PrefixOutranks | iped-engine/src/main/java/dpf/sp/gpinf/indexer/search/ImageSimilarityScorer.java:133-135 | truncating a sorted permutation drops only positions scoring at most as high as every kept one |
| TopSelection.FirstBelowIdentical | iped-engine/src/main/java/dpf/sp/gpinf/indexer/search/ImageSimilarityScorer.java:156-162 | every index scanned before the result scores at least 1000, and the result, if in range, scores below 1000 |
| TopSelection.StartOf | iped-engine/src/main/java/dpf/sp/gpinf/indexer/search/ImageSimilarityScorer.java:155-162 | start is the least index in [1, size) scoring below 1000, or size; it is never 0 for a non-empty list |
| TopSelection.FindStart | iped-engine/src/main/java/dpf/sp/gpinf/indexer/search/ImageSimilarityScorer.java:155-162 | the search loop returns StartOf |
| ChainReorder.FeatureAt | iped-engine/src/main/java/dpf/sp/gpinf/indexer/search/ImageSimilarityScorer.java:148-152 | defines the stored features of the item at a position; CollectFeatures and FillCaches are proved to store exactly these |
| ChainReorder.RefDistance | iped-engine/src/main/java/dpf/sp/gpinf/indexer/search/ImageSimilarityScorer.java:172 | defines the distance from the reference to a position's features; FillCaches stores it in refDist |
| ChainReorder.Cost | iped-engine/src/main/java/dpf/sp/gpinf/indexer/search/ImageSimilarityScorer.java:183-185 | defines what the window choice minimises, refDist plus the distance to the pivot; WindowBestSpec and ClosestInWindow are stated with it |
| ChainReorder.Cached | iped-engine/src/main/java/dpf/sp/gpinf/indexer/search/ImageSimilarityScorer.java:168-173 | defines a filled cache entry: topFeatures holds the position's feature vector and refDist its distance to the reference image; FillCaches, StepKeepsCached, ClosestInWindow, AdvanceChain and ImageSimilarityScorer.Reordered are stated with it |
| ChainReorder.WindowCosts | iped-engine/src/main/java/dpf/sp/gpinf/indexer/search/ImageSimilarityScorer.java:183-185 | defines the cost of each window entry i + 1 .. WindowLimit against the pivot at i, refDist of the entry plus its distance to the pivot; WindowCostsAt, WindowBest and WindowBestSpec are stated with it |
| ChainReorder.WindowLimit | iped-engine/src/main/java/dpf/sp/gpinf/indexer/search/ImageSimilarityScorer.java:177 | defines the last candidate, min(size - 1, i + 100); WindowBestSpec places the choice in [i+1, WindowLimit] |
| ChainReorder.RotateRight | iped-engine/src/main/java/dpf/sp/gpinf/indexer/search/ImageSimilarityScorer.java:193 | the rotation keeps the length; RotateRightMoves states where each entry goes |
| ChainReorder.RotateRightMoves | iped-engine/src/main/java/dpf/sp/gpinf/indexer/search/ImageSimilarityScorer.java:192-194 | the rotation moves the entry at best to i+1, shifts i+1..best-1 right by one, keeps every other entry, and is a permutation |
| ChainReorder.RotateRightDistinct | iped-engine/src/main/java/dpf/sp/gpinf/indexer/search/ImageSimilarityScorer.java:193 | the rotation of a distinct list is distinct |
| ChainReorder.FirstMin | iped-engine/src/main/java/dpf/sp/gpinf/indexer/search/ImageSimilarityScorer.java:181-191 | the lowest index holding the minimum of the window costs |
| ChainReorder.WindowBest | iped-engine/src/main/java/dpf/sp/gpinf/indexer/search/ImageSimilarityScorer.java:177-191 | the successor chosen for a pivot; it has no contract of its own and WindowBestSpec states it |
| ChainReorder.WindowBestSpec | iped-engine/src/main/java/dpf/sp/gpinf/indexer/search/ImageSimilarityScorer.java:177-191 | best lies in [i+1, min(size-1, i+100)]; it is i+1 when every cost is at least Integer.MAX_VALUE; otherwise it is the lowest-index minimiser of refDist + dist(pivot, ·) |
| ChainReorder.ClosestInWindow | iped-engine/src/main/java/dpf/sp/gpinf/indexer/search/ImageSimilarityScorer.java:176-191 | the pruned search with the capped distance returns the unpruned choice WindowBest |
| ChainReorder.Step | iped-engine/src/main/java/dpf/sp/gpinf/indexer/search/ImageSimilarityScorer.java:176-194 | one pivot step; it has no contract of its own and StepSpec states it |
| ChainReorder.StepSpec | iped-engine/src/main/java/dpf/sp/gpinf/indexer/search/ImageSimilarityScorer.java:176-194 | one pivot step is a permutation that keeps positions 0..i, keeps distinct lists distinct, and puts the chosen successor at i+1 |
| ChainReorder.StepKeepsCached | iped-engine/src/main/java/dpf/sp/gpinf/indexer/search/ImageSimilarityScorer.java:168-194 | a step keeps every entry from the seed on in range and present in topFeatures and refDist with the right values |
| ChainReorder.Chain | iped-engine/src/main/java/dpf/sp/gpinf/indexer/search/ImageSimilarityScorer.java:175-195 | the chain keeps the length; ChainSpec, ChainPermutes, ChainKeepsPrefix and ChainDistinct state the rest |
| ChainReorder.ChainSpec | iped-engine/src/main/java/dpf/sp/gpinf/indexer/search/ImageSimilarityScorer.java:175-195 | the whole chain is a permutation that keeps positions up to the seed, keeps a distinct list distinct, and follows the seed by its chosen successor |
| ChainReorder.ChainPermutes | iped-engine/src/main/java/dpf/sp/gpinf/indexer/search/ImageSimilarityScorer.java:175-195 | the chain is a permutation of its input |
| ChainReorder.ChainKeepsPrefix | iped-engine/src/main/java/dpf/sp/gpinf/indexer/search/ImageSimilarityScorer.java:175-195 | the chain never moves the entries up to its starting pivot |
| ChainReorder.ChainDistinct | iped-engine/src/main/java/dpf/sp/gpinf/indexer/search/ImageSimilarityScorer.java:175-195 | the chain keeps a distinct list distinct |
| ChainReorder.ChainKeepsMembers | iped-engine/src/main/java/dpf/sp/gpinf/indexer/search/ImageSimilarityScorer.java:175-195 | the chain leaves the identical prefix in place and permutes the tail among itself |
| ChainReorder.TailScores | iped-engine/src/main/java/dpf/sp/gpinf/indexer/search/ImageSimilarityScorer.java:197-203 | the tail scores; they have no contract of their own and TailScoresShape and TailScoresFall state them |
| ChainReorder.TailScoresShape | iped-engine/src/main/java/dpf/sp/gpinf/indexer/search/ImageSimilarityScorer.java:197-203 | the tail scores start at maxScore, end exactly at minScore, fall by delta = (maxScore - minScore)/(n - 1) at each step, and never rise when maxScore >= minScore |
| ChainReorder.TailScoresFall | iped-engine/src/main/java/dpf/sp/gpinf/indexer/search/ImageSimilarityScorer.java:197-203 | with maxScore >= minScore (delta >= 0) the tail scores are non-increasing |
| ChainReorder.Relabelled | iped-engine/src/main/java/dpf/sp/gpinf/indexer/search/ImageSimilarityScorer.java:199-203 | rescoring keeps the length of the score list; RelabelledSpec, RelabelledKeeps and RelabelledSets state its values |
| ChainReorder.RelabelledSpec | iped-engine/src/main/java/dpf/sp/gpinf/indexer/search/ImageSimilarityScorer.java:199-203 | each rescored position of a distinct list ends with its tail score, and positions outside the tail keep their scores |
| ChainReorder.RelabelledKeeps | iped-engine/src/main/java/dpf/sp/gpinf/indexer/search/ImageSimilarityScorer.java:199-203 | positions outside the rescored range keep their scores |
| ChainReorder.RelabelledSets | iped-engine/src/main/java/dpf/sp/gpinf/indexer/search/ImageSimilarityScorer.java:199-203 | each rescored position ends with its own tail score |
| ChainReorder.RelabelledTail | iped-engine/src/main/java/dpf/sp/gpinf/indexer/search/ImageSimilarityScorer.java:197-203 | rescoring the tail with falling values keeps the prefix scores and leaves the tail non-increasing from the first value to the last |
| ImageSimilarityScoring.ReorderedTail | iped-engine/src/main/java/dpf/sp/gpinf/indexer/search/ImageSimilarityScorer.java:163-203 | after chain and rescoring the list keeps its prefix and members; the prefix scores are kept; the tail runs from the old tail's first score to its last; positions outside the tail are unchanged; and the whole list is non-increasing in the new scores |
| ImageSimilarityScoring.SortedAcrossSeam | iped-engine/src/main/java/dpf/sp/gpinf/indexer/search/ImageSimilarityScorer.java:165-203 | an untouched sorted prefix followed by a falling tail that starts at the old tail's first score is sorted as a whole |
| ImageSimilarityScoring.SelectionGuarantees | iped-engine/src/main/java/dpf/sp/gpinf/indexer/search/ImageSimilarityScorer.java:137-164 | the early returns, which leave the sorted selection and the scores as they are, meet OrganizeGuarantees |
| ImageSimilarityScoring.OrganizeGuarantees | iped-engine/src/main/java/dpf/sp/gpinf/indexer/search/ImageSimilarityScorer.java:130-204 | defines what organizeTopResults promises of the list and scores: a distinct permutation of the selection, the first start entries and their scores kept, the seam and last scores kept, scores non-increasing along the list, every other position unchanged; SelectionGuarantees, ReorderGuarantees, GuaranteesFromParts, UnchangedIsOrganized, ReorderedMeetsGuarantees, OrganizeTopResults, Score, OrganizedScoresBounded and ScoreBounds are stated with it |
| ImageSimilarityScoring.ReorderGuarantees | iped-engine/src/main/java/dpf/sp/gpinf/indexer/search/ImageSimilarityScorer.java:165-203 | the chained and rescored tail meets OrganizeGuarantees |
| ImageSimilarityScoring.ZeroOrAtLeastMin | iped-engine/src/main/java/dpf/sp/gpinf/indexer/search/ImageSimilarityScorer.java:27-56 | defines the lower bound on scores: 0 for a position without a match, otherwise at least MinScore |
| ImageSimilarityScoring.OnHundredScale | iped-engine/src/main/java/dpf/sp/gpinf/indexer/search/ImageSimilarityScorer.java:27-36 | defines the upper bound on scores: at most 100, or the sentinel 1000 of an identical image |
| ImageSimilarityScoring.OrganizedScoresBounded | iped-engine/src/main/java/dpf/sp/gpinf/indexer/search/ImageSimilarityScorer.java:137-203 | organizing keeps both bounds: no listed score falls below the last selected one, and no tail score rises above the tail's first one, which is below 1000 |
| ImageSimilarityScoring.ScoreBounds | iped-engine/src/main/java/dpf/sp/gpinf/indexer/search/ImageSimilarityScorer.java:116-203 | after projecting a map of scores at least MinScore and organizing, every position scores 0 or at least MinScore, and with a map on the 100 scale every final score is at most 100 or exactly 1000 |
| ImageSimilarityScoring.ImageSimilarityScorer.constructor | iped-engine/src/main/java/dpf/sp/gpinf/indexer/search/ImageSimilarityScorer.java:75-81 | the scorer holds the result items, the score array, the reference features and hash, and starts with empty topResults and caches |
| ImageSimilarityScoring.ImageSimilarityScorer.UnchangedIsOrganized | iped-engine/src/main/java/dpf/sp/gpinf/indexer/search/ImageSimilarityScorer.java:137-164 | the early returns, with the selection and scores left as they are, are Organized and meet OrganizeGuarantees |
| ImageSimilarityScoring.ImageSimilarityScorer.Organized | iped-engine/src/main/java/dpf/sp/gpinf/indexer/search/ImageSimilarityScorer.java:137-203 | defines the state organizeTopResults leaves, path by path: when the doc values cannot be opened (138-144) or the tail has at most two entries (163-164) the selection and scores are unchanged and the caches empty, otherwise the state is Reordered; OrganizeTopResults, Score, UnchangedIsOrganized and ReorderedIsOrganized are stated with it |
| ImageSimilarityScoring.ImageSimilarityScorer.Reordered | iped-engine/src/main/java/dpf/sp/gpinf/indexer/search/ImageSimilarityScorer.java:165-203 | defines the state after the reordering: topResults is the chain from start - 1, the scores are the tail rescored from the seam score down to the last score, and the caches hold exactly the seed and tail positions with their features and reference distances; OrganizeTail, ReorderedIntro, ReorderedIsOrganized and ReorderedMeetsGuarantees are stated with it |
| ImageSimilarityScoring.ImageSimilarityScorer.ReorderedIsOrganized | iped-engine/src/main/java/dpf/sp/gpinf/indexer/search/ImageSimilarityScorer.java:165-203 | the chained and rescored state with filled caches is Organized |
| ImageSimilarityScoring.ImageSimilarityScorer.ReorderedMeetsGuarantees | iped-engine/src/main/java/dpf/sp/gpinf/indexer/search/ImageSimilarityScorer.java:165-203 | the chained and rescored state meets OrganizeGuarantees |
| ImageSimilarityScoring.ImageSimilarityScorer.Score | iped-engine/src/main/java/dpf/sp/gpinf/indexer/search/ImageSimilarityScorer.java:83-128 | with an empty result set or no reference features nothing changes; otherwise the scores and topResults are those of organizing the projection of the scan's map, they meet OrganizeGuarantees, every position ends with 0 or at least MinScore, and, when no squared distance is negative, every score is at most 100 or exactly 1000 |
| ImageSimilarityScoring.ImageSimilarityScorer.Project | iped-engine/src/main/java/dpf/sp/gpinf/indexer/search/ImageSimilarityScorer.java:116-125 | every position holds its mapped score or 0, and topResults is exactly the ascending list of matched positions |
| ImageSimilarityScoring.ImageSimilarityScorer.SortTopResults | iped-engine/src/main/java/dpf/sp/gpinf/indexer/search/ImageSimilarityScorer.java:206-212 | on the ascending list of matched positions it receives, topResults becomes the stable descending-score sort of that list (SortByScore, whose ties keep ascending position order by SortKeepsTieOrder) |
| ImageSimilarityScoring.ImageSimilarityScorer.SelectTop | iped-engine/src/main/java/dpf/sp/gpinf/indexer/search/ImageSimilarityScorer.java:132-135 | on the ascending list it receives, topResults becomes its stable descending-score sort cut to 2000 entries (Selected) |
| ImageSimilarityScoring.ImageSimilarityScorer.OrganizeTopResults | iped-engine/src/main/java/dpf/sp/gpinf/indexer/search/ImageSimilarityScorer.java:130-204 | the state is the selection unchanged when the doc values cannot be opened or the tail is short, and otherwise the chained and rescored selection with filled caches; in every case it meets OrganizeGuarantees |
| ImageSimilarityScoring.ImageSimilarityScorer.OrganizeTail | iped-engine/src/main/java/dpf/sp/gpinf/indexer/search/ImageSimilarityScorer.java:165-203 | with a long tail the caches are filled, the list is chained from the seed and the tail is rescored between its first and last score |
| ImageSimilarityScoring.ImageSimilarityScorer.ChainAndRescore | iped-engine/src/main/java/dpf/sp/gpinf/indexer/search/ImageSimilarityScorer.java:175-203 | topResults becomes the chain and the scores the evenly rescored tail |
| ImageSimilarityScoring.ImageSimilarityScorer.CollectFeatures | iped-engine/src/main/java/dpf/sp/gpinf/indexer/search/ImageSimilarityScorer.java:145-153 | the map holds the stored features of every selected position and no other key |
| ImageSimilarityScoring.ImageSimilarityScorer.FillCaches | iped-engine/src/main/java/dpf/sp/gpinf/indexer/search/ImageSimilarityScorer.java:168-173 | topFeatures and refDist hold the features and reference distance of the seed and every tail position, and nothing else |
| ImageSimilarityScoring.ImageSimilarityScorer.ReorderChain | iped-engine/src/main/java/dpf/sp/gpinf/indexer/search/ImageSimilarityScorer.java:175-195 | the outer loop leaves topResults equal to Chain of its old value from the seed |
| ImageSimilarityScoring.ImageSimilarityScorer.AdvanceChain | iped-engine/src/main/java/dpf/sp/gpinf/indexer/search/ImageSimilarityScorer.java:176-194 | one pass of the outer loop performs exactly Step, keeping the caches valid for the entries it moves |
| ImageSimilarityScoring.ImageSimilarityScorer.Rescore | iped-engine/src/main/java/dpf/sp/gpinf/indexer/search/ImageSimilarityScorer.java:197-203 | the running score that loses delta at each position writes exactly the tail scores maxScore - k*delta |

## Left out

- The collaborators are parameters, not code: the Lucene calls (`searchNearestVectors`, `document`, `getBinaryDocValues`, `DocValuesUtil.getBytesRef`), `getLuceneId`, `convertLuceneScoreToSquareDist`, `castByteArrayToFloatArray` and `ImageSimilarity.distance`.
  - They are function values of `VectorIndex` and `Metric`, whose bodies are not part of this model.
  - The scorer relies only on the distance being non-negative and on the capped distance's contract: exact below the cap, at least the cap otherwise.
- Floating point: scores are reals, so rounding in the score formula and the accumulated error of `score -= delta` are not modelled.
- ImageSimilarityScoring.ImageSimilarityScorer.Rescore: the promise that the k-th tail score is exactly maxScore - k*delta holds for reals, not for Java floats.
- ChainReorder.ClosestInWindow: integer overflow of `currDist += ...` (line 185) is not modelled, because distances are unbounded integers. Every cost that stays below Integer.MAX_VALUE is compared exactly, and Integer.MAX_VALUE remains the starting minimum.
- ImageSimilarityScoring.ImageSimilarityScorer.constructor: requires a non-empty reference feature vector when one is present, as `Valid` does too. With an empty vector the Java formula divides a float by zero, which the model does not cover.
- The `getBinaryDocValues` I/O failure (lines 138-144) is the flag `docValuesOpen`. When it is false the method stops after sorting and truncation, as the code does. The printed stack traces are left out.
- `BytesRef.bytes.clone()` (line 151) is modelled as the document's stored features. A backing buffer larger than the value, with an offset or length, is not modelled.
- ImageSimilarityScoring.ImageSimilarityScorer.Score: a failing neighbour query (lines 87-89) propagates an IOException out of `score()` before any score is written. The model takes `VectorIndex.nearest` as the hits of a query that succeeded, and covers only that case.
- ImageSimilarityScoring.ImageSimilarityScorer.Score: requires a fresh scorer (empty `topResults` and caches), since one scorer serves one search, and no more than 100000 hits from the index, the limit passed to the query.
- ImageSimilarityScoring.ImageSimilarityScorer.CollectFeatures: visits the positions in list order, whereas the code visits them in ascending order (line 147). The code sorts because the doc-values reader only reads forward (line 145). The model gives these reads as the pure function `VectorIndex.features`, so the order cannot matter and the map is the same. The forward-only reader and its dependence on order are not modelled.
- `MultiSearchResult` is reduced to its items and a score array. Its other state is not part of this model.
- The graphical viewer classes and the property holder of the repository are outside the scorer and not modelled.
