# Keyframe database of msckf_vio, modelled in Dafny

This project models the keyframe place-recognition database of `msckf_vio`,
which is derived from ORB-SLAM. The database is an inverted file with one
bucket per visual word of the vocabulary. Each bucket lists the keyframes
whose bag-of-words vector contains that word.

The database is edited in place. The constructor and `clear` size the bucket
vector to the vocabulary. `add` files a keyframe under each of its words, and
`erase` takes it out again. `getKFDB` returns a copy, and `clearKFDB` drops
every bucket.

It answers two queries, loop-closure detection and relocalization. Both run
the same five stages:

1. scan the buckets of the query's words, tagging and counting the keyframes
   met in scratch fields stored on the keyframes;
2. keep the keyframes sharing more than 0.8 times the largest count,
   truncated;
3. score them against the query;
4. group each survivor with its ten best covisible keyframes, summing their
   stored scores and picking the best-scoring keyframe as representative;
5. return each representative whose group scores above 0.75 times the best
   group score, once each.

Structure:

- `keyframes.dfy` (`KeyFrames`):
  - keyframes are identifier handles carrying their word ids;
  - one kind of scratch fields (`mnLoopQuery`/`mnLoopWords`/`mLoopScore`, or
    the `mnReloc*` fields) is a `Slot`;
  - the fields of all keyframes form a `SlotTable` object, which a query
    updates in place.
- `inverted_index.dfy` (`InvertedIndex`):
  - the bucket vector as a value;
  - `add` and `erase` as functions on it;
  - their round trip, and the exact-index invariant they preserve.
- `retrieval.dfy` (`Retrieval`):
  - each stage of a query as a left fold over what the source's loop
    traverses;
  - what each stage establishes.
  - `Mode` carries what distinguishes the two queries: the connected set
    and `minScore` for loops, nothing for relocalization.
- `database.dfy` (`Database`):
  - the class `KeyFrameDatabase`, whose field `buckets` its methods update;
  - the two queries as imperative methods with the source's loops. Each
    loop is proved to compute the fold of its stage.
- `retrieval_properties.dfy` (`RetrievalProperties`): what a whole query
  guarantees.
- `scenarios.dfy` (`Scenarios`): small concrete queries that pin down three
  behaviours of the code that are easy to get wrong.

## Model

| member | source | states |
|---|---|---|
| Database.KeyFrameDatabase.constructor | src/msckf_vio/src/KeyFrameDatabase.cpp:11-15 | the bucket vector has exactly one empty bucket per word of the vocabulary |
| Database.KeyFrameDatabase.Add | src/msckf_vio/src/KeyFrameDatabase.cpp:18-24 | the new buckets are `AddToIndex` of the old ones: the keyframe is appended at the end of the bucket of each of its words, and every other bucket is unchanged |
| Database.KeyFrameDatabase.Erase | src/msckf_vio/src/KeyFrameDatabase.cpp:26-45 | the new buckets are `EraseFromIndex` of the old ones: the first occurrence of the keyframe leaves the bucket of each of its words. The linear search with `break` is proved against `RemoveFirst` |
| Database.KeyFrameDatabase.Clear | src/msckf_vio/src/KeyFrameDatabase.cpp:47-51 | the buckets are again exactly the freshly constructed ones, one empty bucket per word |
| Database.KeyFrameDatabase.GetKFDB | src/msckf_vio/src/KeyFrameDatabase.cpp:53-56 | returns the bucket vector, leaving the database unchanged |
| Database.KeyFrameDatabase.ClearKFDB | src/msckf_vio/src/KeyFrameDatabase.cpp:58-61 | leaves zero buckets |
| Database.KeyFrameDatabase.ScanBuckets | src/msckf_vio/src/KeyFrameDatabase.cpp:76-95 | the nested scan over the query's buckets leaves the scratch fields and the sharing list of `Scan` over all keyframes met, in bucket order. `ScanFacts` states what that scan establishes |
| Database.KeyFrameDatabase.Meet | src/msckf_vio/src/KeyFrameDatabase.cpp:83-93 | meeting one keyframe: a keyframe whose tag is not the query's has its count reset; unless connected, it is also tagged and appended to the sharing list; its count then goes up in every case |
| Database.KeyFrameDatabase.Detect | src/msckf_vio/src/KeyFrameDatabase.cpp:64-215 | the returned candidates and the scratch fields left on the keyframes are exactly those of `Retrieve`, including the two early empty returns |
| Database.KeyFrameDatabase.DetectLoopCandidates | src/msckf_vio/src/KeyFrameDatabase.cpp:64-215 | loop detection computes `Retrieve` in loop mode, with the query's connected set and `minScore` |
| Database.KeyFrameDatabase.DetectRelocalizationCandidates | src/msckf_vio/src/KeyFrameDatabase.cpp:217-327 | relocalization computes `Retrieve` in relocalization mode: no exclusion, no score floor, and a tag-only neighbour gate |
| Database.MaxCommonWords | src/msckf_vio/src/KeyFrameDatabase.cpp:109-117 | the running maximum equals `MaxWords`, which `MaxWordsIsMaximum` shows is the largest count on the sharing list (0 when empty) |
| Database.ScoreSharing | src/msckf_vio/src/KeyFrameDatabase.cpp:129-145 | the scoring loop leaves the stored scores and the retained pairs of `Scores`, which `ScoreFacts` characterises |
| Database.AccumulateByCovisibility | src/msckf_vio/src/KeyFrameDatabase.cpp:159-186 | the groups are `Groups` of the retained pairs, in order. The best accumulated score is their maximum with the mode's floor: `minScore` for loops, 0 for relocalization |
| Database.AccumulateGroup | src/msckf_vio/src/KeyFrameDatabase.cpp:164-183 | the inner loop's accumulated score and best keyframe are those of the fold `TallyAll`, which `TallyFacts` characterises |
| Database.SelectCandidates | src/msckf_vio/src/KeyFrameDatabase.cpp:189-209 | the loop with its already-added set returns `Select`: representatives above the threshold, in group order, each at its first occurrence |
| InvertedIndex.EmptyIndex | src/msckf_vio/src/KeyFrameDatabase.cpp:14 | a vector of exactly `n` buckets, all empty |
| InvertedIndex.RemoveFirstAt | src/msckf_vio/src/KeyFrameDatabase.cpp:36-43 | when the first occurrence of `x` is at position `j`, erasing splices out exactly that entry and keeps the order of all others |
| InvertedIndex.RemoveFirstAbsent | src/msckf_vio/src/KeyFrameDatabase.cpp:36-43 | a bucket not holding the keyframe is left unchanged |
| InvertedIndex.RemoveFirstUndoesAppend | src/msckf_vio/src/KeyFrameDatabase.cpp:36-43 | appending a keyframe that was absent and then erasing its first occurrence gives back the bucket |
| InvertedIndex.RemoveFirstOfDistinct | src/msckf_vio/src/KeyFrameDatabase.cpp:36-43 | in a bucket without repetitions, erasing the first occurrence removes the keyframe entirely and keeps the bucket free of repetitions |
| InvertedIndex.EraseUndoesAdd | src/msckf_vio/src/KeyFrameDatabase.cpp:18-45 | `add` followed by `erase` of a keyframe not yet filed under any of its words restores the index exactly |
| InvertedIndex.EmptyIndexOfNothing | src/msckf_vio/src/KeyFrameDatabase.cpp:11-15 | a fresh or cleared index is the exact index of no keyframe |
| InvertedIndex.AddKeepsIndex | src/msckf_vio/src/KeyFrameDatabase.cpp:18-24 | `add` of a keyframe not yet indexed keeps the invariant: a keyframe is in bucket `w` iff `w` is one of its words, and no bucket repeats a keyframe |
| InvertedIndex.EraseKeepsIndex | src/msckf_vio/src/KeyFrameDatabase.cpp:26-45 | `erase` of an indexed keyframe keeps that invariant, with the keyframe removed from every bucket |
| Retrieval.ScanFrame | src/msckf_vio/src/KeyFrameDatabase.cpp:76-95 | the scan leaves keyframes it does not meet untouched and changes no stored score |
| Retrieval.ScanTags | src/msckf_vio/src/KeyFrameDatabase.cpp:83-91 | the sharing list holds, once each, exactly the met keyframes that are not excluded and not already tagged with the query id. Afterwards a tag equals the query id iff the keyframe is on the list or already carried the id |
| Retrieval.ScanCounts | src/msckf_vio/src/KeyFrameDatabase.cpp:83-93 | each keyframe on the sharing list counts exactly how often the scan met it in the buckets of the query's words |
| Retrieval.VisitsCountsSharedWords | src/msckf_vio/src/KeyFrameDatabase.cpp:76-95 | when no bucket repeats a keyframe, the scan meets a keyframe exactly once per query word whose bucket holds it |
| Retrieval.ScanFacts | src/msckf_vio/src/KeyFrameDatabase.cpp:76-95 | the conjunction of the three scan properties above |
| Retrieval.MaxWordsIsMaximum | src/msckf_vio/src/KeyFrameDatabase.cpp:109-117 | `MaxWords` is at least every count on the sharing list, and is 0 or attained by one of them |
| Retrieval.MinCommonWords | src/msckf_vio/src/KeyFrameDatabase.cpp:121 | `minCommonWords` is 0.8 times the maximum count, truncated: 5r <= 4m < 5r + 5. When m > 0 it lies strictly below the maximum |
| Retrieval.ScoresOrder | src/msckf_vio/src/KeyFrameDatabase.cpp:129-145 | the retained pairs follow the order of the sharing list, which fixes the order of the groups |
| Retrieval.ScoreFacts | src/msckf_vio/src/KeyFrameDatabase.cpp:129-145 | a pair is retained iff its keyframe is on the sharing list, its count is strictly above `minCommonWords`, and the mode keeps its score (>= `minScore` for loops, always for relocalization). Every keyframe above the count gate has its score stored, retained or not; no other slot changes |
| Retrieval.BestCovisibles | src/msckf_vio/src/KeyFrameDatabase.cpp:164 | the neighbours are exactly the first ten of the ordered covisibility list, or the whole list when shorter |
| Retrieval.TallySum | src/msckf_vio/src/KeyFrameDatabase.cpp:169-181 | the accumulated score grows by exactly the sum of the stored scores of the qualifying neighbours |
| Retrieval.TallyBest | src/msckf_vio/src/KeyFrameDatabase.cpp:169-181 | the best score never decreases and bounds every qualifying neighbour's stored score |
| Retrieval.TallyRepresentative | src/msckf_vio/src/KeyFrameDatabase.cpp:166-181 | the representative is the pair's own keyframe unless a qualifying neighbour scores strictly higher. In that case it is the first qualifying neighbour reaching the best score, so ties keep the earlier one |
| Retrieval.TallyFacts | src/msckf_vio/src/KeyFrameDatabase.cpp:164-183 | the group's score is the pair's score plus the stored scores of its qualifying neighbours, with the representative chosen as above. For loops a neighbour qualifies when tagged and above `minCommonWords`; for relocalization, when tagged |
| Retrieval.Groups | src/msckf_vio/src/KeyFrameDatabase.cpp:159-186 | one group per retained pair |
| Retrieval.GroupsAt | src/msckf_vio/src/KeyFrameDatabase.cpp:159-186 | the i-th group is the group of the i-th retained pair |
| Retrieval.BestAccIsMaximum | src/msckf_vio/src/KeyFrameDatabase.cpp:155-186 | the best accumulated score is at least the floor and every group's score, and is the floor or attained by a group |
| Retrieval.SelectFacts | src/msckf_vio/src/KeyFrameDatabase.cpp:189-209 | the output has no repetitions and contains a keyframe iff it represents some group scoring strictly above the threshold |
| Retrieval.SelectOrder | src/msckf_vio/src/KeyFrameDatabase.cpp:197-209 | the output follows group order: of two selected keyframes, the earlier one represents a group above the threshold before any such group the later one represents |
| RetrievalProperties.CandidatesAreDistinct | src/msckf_vio/src/KeyFrameDatabase.cpp:192-209 | no query returns a keyframe twice |
| RetrievalProperties.CandidatesAreGroupsAboveThreshold | src/msckf_vio/src/KeyFrameDatabase.cpp:184-209 | a keyframe is returned iff it represents a group scoring strictly above 0.75 times the best group score. That best score is at least the mode's floor and every group's score |
| RetrievalProperties.NonEmptyIffSomeGroupClearsFloor | src/msckf_vio/src/KeyFrameDatabase.cpp:184-209 | with a non-negative floor, the answer is non-empty iff some group scores strictly above 0.75 times the floor |
| RetrievalProperties.CandidatesFollowGroupOrder | src/msckf_vio/src/KeyFrameDatabase.cpp:197-209 | the candidates of a whole query come in the order of the groups that first select them |
| RetrievalProperties.SharedWordsOfIndex | src/msckf_vio/src/KeyFrameDatabase.cpp:18-24 | on an exact index, the query's buckets hold a keyframe once per query word that is also a word of the vector the keyframe was added with, and never for a keyframe not added |
| RetrievalProperties.ScanCountsCommonWords | src/msckf_vio/src/KeyFrameDatabase.cpp:83-93 | on an exact index, each keyframe on the sharing list was added, and its count is exactly the number of words it shares with the query |
| RetrievalProperties.VisitsOfEmptyBuckets | src/msckf_vio/src/KeyFrameDatabase.cpp:76-95 | a query whose words' buckets are all empty meets no keyframe |
| RetrievalProperties.EmptyResults | src/msckf_vio/src/KeyFrameDatabase.cpp:100-152 | the answer is empty when the query's buckets are empty, when the scan tags nothing, or when no pair survives scoring |
| RetrievalProperties.EmptyIndexReturnsNothing | src/msckf_vio/src/KeyFrameDatabase.cpp:242-243 | a freshly constructed or cleared database returns nothing to any query |
| RetrievalProperties.CandidatesShareAWord | src/msckf_vio/src/KeyFrameDatabase.cpp:76-95 | when no keyframe carries a stale tag with the query id, every candidate shares a word with the query and is not excluded |
| RetrievalProperties.LoopCandidatesExcludeConnected | src/msckf_vio/src/KeyFrameDatabase.cpp:83-91 | under the same proviso, loop detection never returns a keyframe connected to the query |
| RetrievalProperties.RelocScoresWhenAWordIsShared | src/msckf_vio/src/KeyFrameDatabase.cpp:246-274 | when relocalization's scan tags a keyframe, the keyframes with the largest count pass the count gate, so at least one pair is retained |
| Scenarios.RaisingMinScoreCanReturnMore | src/msckf_vio/src/KeyFrameDatabase.cpp:140-199 | a concrete loop query returns [2] with `minScore` 0.1 and [2, 3] with `minScore` 0.25. Raising `minScore` can drop the top group, which lowers the relative threshold and admits more groups |
| Scenarios.RelocAddsStaleNeighbourScore | src/msckf_vio/src/KeyFrameDatabase.cpp:288-301 | relocalization adds a neighbour's stale stored score when the neighbour is tagged but below the count gate, and returns that neighbour. Loop detection on the same data does not |
| Scenarios.StaleTagDefeatsExclusion | src/msckf_vio/src/KeyFrameDatabase.cpp:83-91 | a connected keyframe still carrying the query id from an earlier loop query is returned by loop detection, so the exclusion property needs its no-stale-tag proviso |

## Left out

- The `mutex` critical sections and the races on the keyframes' scratch fields between threads: the model is sequential.
- The vocabulary and DBoW2 scoring. The vocabulary size is a constructor argument. `mpVoc->score` is a parameter `score` giving the query's score against each keyframe.
- The covisibility graph. `GetConnectedKeyFrames` is the parameter `connected`. `GetBestCovisibilityKeyFrames(10)` is the first ten entries of the parameter `covisibles`, an ordered list per keyframe.
- `KeyFrame`, `Frame` and the database header are not part of this model. Keyframes are identifier handles. A keyframe that no query has touched reads as tag 0, count 0, score 0.
- Retrieval.MinCommonWords: uses exact truncation `(4 * m) / 5` for `int(m * 0.8f)`. The two agree for realistic counts; single-precision rounding of `0.8f` is not modelled.
- Scores and thresholds are reals, so `float` rounding in the accumulations and in `0.75f * bestAccScore` is not modelled.
- The unused `nscores` counters and the logging are left out.
- The ROS message types `CameraMeasurement.h` and `Pose.h` are generated serialisation code and are not part of this model.
- Every word must index an existing bucket. This is a precondition of the queries and of Add and Erase, because the source indexes the vector without a check in all four, e.g. after `clearKFDB`.
- Add and Erase assume the bag-of-words vector lists distinct word ids, as a map-keyed `BowVector` does.
- RetrievalProperties.LoopCandidatesExcludeConnected: holds only when no keyframe already carries the query id as its loop tag. `Scenarios.StaleTagDefeatsExclusion` shows that the code does not exclude a connected keyframe without this proviso.
- Both queries are one method `Detect`, parameterised by `Mode`. The differences between the two source functions are the mode's exclusion set, score gate, neighbour gate and floor.
