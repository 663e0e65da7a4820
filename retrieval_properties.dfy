/** What a whole query guarantees: no duplicates, the relative threshold,
    the exclusion of connected keyframes, empty answers from an index that
    holds nothing for the query, and when an answer is non-empty. */
module RetrievalProperties {
  import opened KeyFrames
  import opened InvertedIndex
  import opened Retrieval

  /** No keyframe is returned twice, even when it represents several groups. */
  lemma CandidatesAreDistinct(mode: Mode, qid: nat, words: seq<WordId>, b: seq<seq<KFId>>, slots0: map<KFId, Slot>,
                              score: KFId -> real, covisibles: KFId -> seq<KFId>)
    requires WordsInRange(words, |b|)
    ensures Distinct(Retrieve(mode, qid, words, b, slots0, score, covisibles).candidates)
  {
    SelectFacts(GroupsOf(mode, qid, words, b, slots0, score, covisibles), ThresholdOf(mode, qid, words, b, slots0, score, covisibles));
  }

  /** The candidates are exactly the representatives of the groups whose
      accumulated score is strictly above 0.75 times the best accumulated
      score, and that best score is at least the mode's floor (`minScore`
      for loops, 0 for relocalization) and at least every group's score. */
  lemma CandidatesAreGroupsAboveThreshold(mode: Mode, qid: nat, words: seq<WordId>, b: seq<seq<KFId>>, slots0: map<KFId, Slot>,
                                          score: KFId -> real, covisibles: KFId -> seq<KFId>)
    requires WordsInRange(words, |b|)
    ensures var gs := GroupsOf(mode, qid, words, b, slots0, score, covisibles);
      var best := BestAcc(gs, AccFloor(mode));
      && best >= AccFloor(mode)
      && (forall i :: 0 <= i < |gs| ==> gs[i].score <= best)
      && (forall k :: k in Retrieve(mode, qid, words, b, slots0, score, covisibles).candidates <==>
            exists i :: 0 <= i < |gs| && gs[i].score > RetainRatio * best && gs[i].kf == k)
  {
    var gs := GroupsOf(mode, qid, words, b, slots0, score, covisibles);
    BestAccIsMaximum(gs, AccFloor(mode));
    SelectFacts(gs, ThresholdOf(mode, qid, words, b, slots0, score, covisibles));
  }

  /** With a non-negative floor, a query returns something iff some group's
      accumulated score is strictly above 0.75 times the floor; for
      relocalization (floor 0) iff some group scores above 0. */
  lemma NonEmptyIffSomeGroupClearsFloor(mode: Mode, qid: nat, words: seq<WordId>, b: seq<seq<KFId>>, slots0: map<KFId, Slot>,
                                        score: KFId -> real, covisibles: KFId -> seq<KFId>)
    requires WordsInRange(words, |b|)
    requires AccFloor(mode) >= 0.0
    ensures var gs := GroupsOf(mode, qid, words, b, slots0, score, covisibles);
      Retrieve(mode, qid, words, b, slots0, score, covisibles).candidates != [] <==>
      exists i :: 0 <= i < |gs| && gs[i].score > RetainRatio * AccFloor(mode)
  {
    var gs := GroupsOf(mode, qid, words, b, slots0, score, covisibles);
    var floor := AccFloor(mode);
    var best := BestAcc(gs, floor);
    var c := Retrieve(mode, qid, words, b, slots0, score, covisibles).candidates;
    BestAccIsMaximum(gs, floor);
    SelectFacts(gs, RetainRatio * best);
    if c != [] {
      assert c[0] in c;
      var i :| 0 <= i < |gs| && gs[i].score > RetainRatio * best && gs[i].kf == c[0];
      assert gs[i].score > RetainRatio * floor;
    }
    if exists i :: 0 <= i < |gs| && gs[i].score > RetainRatio * floor {
      var i :| 0 <= i < |gs| && gs[i].score > RetainRatio * floor;
      if best == floor {
        assert gs[i].kf in c;
      } else {
        var j :| 0 <= j < |gs| && gs[j].score == best;
        assert best > 0.0;
        assert gs[j].kf in c;
      }
    }
  }

  lemma {:induction false} VisitsOfEmptyBuckets(b: seq<seq<KFId>>, words: seq<WordId>)
    requires WordsInRange(words, |b|)
    requires forall i :: 0 <= i < |words| ==> b[words[i]] == []
    ensures Visits(b, words) == []
  {
    if words != [] {
      VisitsOfEmptyBuckets(b, words[..|words| - 1]);
    }
  }

  /** The output of a whole query follows group order. */
  lemma CandidatesFollowGroupOrder(mode: Mode, qid: nat, words: seq<WordId>, b: seq<seq<KFId>>, slots0: map<KFId, Slot>,
                                   score: KFId -> real, covisibles: KFId -> seq<KFId>)
    requires WordsInRange(words, |b|)
    ensures var c := Retrieve(mode, qid, words, b, slots0, score, covisibles).candidates;
      forall i, j :: 0 <= i < j < |c| ==>
        ComesFirst(GroupsOf(mode, qid, words, b, slots0, score, covisibles),
                   ThresholdOf(mode, qid, words, b, slots0, score, covisibles), c[i], c[j])
  {
    SelectOrder(GroupsOf(mode, qid, words, b, slots0, score, covisibles), ThresholdOf(mode, qid, words, b, slots0, score, covisibles));
  }

  /** The number of words of `words` that also occur in `bow`. */
  function CommonWords(words: seq<WordId>, bow: seq<WordId>): (n: nat)
    ensures n <= |words|
  {
    if words == [] then 0
    else CommonWords(words[..|words| - 1], bow) + (if words[|words| - 1] in bow then 1 else 0)
  }

  /** On an exact index, the buckets of `words` hold `k` as often as `words`
      shares a word with the vector `k` was added with. */
  lemma {:induction false} SharedWordsOfIndex(b: Buckets, bows: map<KFId, seq<WordId>>, words: seq<WordId>, k: KFId)
    requires WordsInRange(words, |b|) && IndexOf(b, bows)
    ensures SharedWords(b, words, k) == if k in bows then CommonWords(words, bows[k]) else 0
  {
    if words != [] {
      SharedWordsOfIndex(b, bows, words[..|words| - 1], k);
    }
  }

  /** On an exact index, each keyframe on the sharing list counts exactly
      the words its bag-of-words vector shares with the query. */
  lemma ScanCountsCommonWords(mode: Mode, qid: nat, words: seq<WordId>, b: Buckets, slots0: map<KFId, Slot>,
                              bows: map<KFId, seq<WordId>>)
    requires WordsInRange(words, |b|) && IndexOf(b, bows)
    ensures var sc := ScanOf(mode, qid, words, b, slots0);
      forall k :: k in sc.sharing ==> k in bows && SlotOf(sc.slots, k).words == CommonWords(words, bows[k])
  {
    var ks := Visits(b, words);
    var sc := ScanOf(mode, qid, words, b, slots0);
    ScanFacts(mode, qid, slots0, ks);
    forall k | k in sc.sharing
      ensures k in bows && SlotOf(sc.slots, k).words == CommonWords(words, bows[k])
    {
      VisitsCountsSharedWords(b, words, k);
      SharedWordsOfIndex(b, bows, words, k);
      assert k in multiset(ks);
    }
  }

  /** A query whose words file no keyframe, a query that tags no keyframe,
      and a query after which no pair survives scoring all return nothing. */
  lemma EmptyResults(mode: Mode, qid: nat, words: seq<WordId>, b: seq<seq<KFId>>, slots0: map<KFId, Slot>,
                     score: KFId -> real, covisibles: KFId -> seq<KFId>)
    requires WordsInRange(words, |b|)
    ensures (forall i :: 0 <= i < |words| ==> b[words[i]] == []) ==>
              Retrieve(mode, qid, words, b, slots0, score, covisibles).candidates == []
    ensures ScanOf(mode, qid, words, b, slots0).sharing == [] ==>
              Retrieve(mode, qid, words, b, slots0, score, covisibles).candidates == []
    ensures ScoredOf(mode, qid, words, b, slots0, score).retained == [] ==>
              Retrieve(mode, qid, words, b, slots0, score, covisibles).candidates == []
  {
    if forall i :: 0 <= i < |words| ==> b[words[i]] == [] {
      VisitsOfEmptyBuckets(b, words);
    }
  }

  /** A freshly built or cleared database returns nothing to any query. */
  lemma EmptyIndexReturnsNothing(n: nat, mode: Mode, qid: nat, words: seq<WordId>, slots0: map<KFId, Slot>,
                                 score: KFId -> real, covisibles: KFId -> seq<KFId>)
    requires WordsInRange(words, n)
    ensures Retrieve(mode, qid, words, EmptyIndex(n), slots0, score, covisibles).candidates == []
  {
    EmptyResults(mode, qid, words, EmptyIndex(n), slots0, score, covisibles);
  }

  /** No keyframe carries the query id as a leftover tag from an earlier query. */
  ghost predicate NoStaleTag(slots0: map<KFId, Slot>, qid: nat)
  {
    forall k :: SlotOf(slots0, k).query != qid
  }

  /** When no keyframe carries a stale tag, every candidate was met in the
      buckets of the query's words (it shares a word with the query) and is
      not excluded by the mode. */
  lemma CandidatesShareAWord(mode: Mode, qid: nat, words: seq<WordId>, b: seq<seq<KFId>>, slots0: map<KFId, Slot>,
                             score: KFId -> real, covisibles: KFId -> seq<KFId>)
    requires WordsInRange(words, |b|)
    requires NoStaleTag(slots0, qid)
    ensures forall k :: k in Retrieve(mode, qid, words, b, slots0, score, covisibles).candidates ==>
              k in Visits(b, words) && k !in Excluded(mode)
  {
    var ks := Visits(b, words);
    var sc := ScanOf(mode, qid, words, b, slots0);
    var minW := MinWordsOf(mode, qid, words, b, slots0);
    var sd := ScoredOf(mode, qid, words, b, slots0, score);
    var gs := GroupsOf(mode, qid, words, b, slots0, score, covisibles);
    var c := Retrieve(mode, qid, words, b, slots0, score, covisibles).candidates;
    ScanFacts(mode, qid, slots0, ks);
    ScoreFacts(mode, minW, score, sc.slots, sc.sharing);
    SelectFacts(gs, ThresholdOf(mode, qid, words, b, slots0, score, covisibles));
    forall k | k in c
      ensures k in sc.sharing
    {
      var i :| 0 <= i < |gs| && gs[i].kf == k;
      var m := sd.retained[i];
      assert m in sd.retained;
      GroupsAt(mode, qid, minW, sd.slots, covisibles, sd.retained, i);
      var ns := BestCovisibles(covisibles(m.kf), NeighbourCount);
      TallyFacts(mode, qid, minW, sd.slots, m, ns);
      if k != m.kf {
        var j :| 0 <= j < |ns| && k == ns[j] && Qualifies(mode, qid, minW, sd.slots, ns[j]);
        assert SlotOf(sd.slots, k).query == SlotOf(sc.slots, k).query;
      }
    }
  }

  /** Loop detection never returns a keyframe connected to the query, as long
      as no keyframe carries the query's id as a stale loop tag. */
  lemma LoopCandidatesExcludeConnected(connected: set<KFId>, minScore: real, qid: nat, words: seq<WordId>,
                                       b: seq<seq<KFId>>, slots0: map<KFId, Slot>,
                                       score: KFId -> real, covisibles: KFId -> seq<KFId>)
    requires WordsInRange(words, |b|)
    requires NoStaleTag(slots0, qid)
    ensures forall k :: k in Retrieve(Loop(connected, minScore), qid, words, b, slots0, score, covisibles).candidates ==>
              k !in connected
  {
    CandidatesShareAWord(Loop(connected, minScore), qid, words, b, slots0, score, covisibles);
  }

  /** Whenever the scan tags some keyframe, the keyframes with the largest
      count clear the common-word gate, so relocalization (which keeps every
      scored pair) always retains at least one pair. */
  lemma RelocScoresWhenAWordIsShared(qid: nat, words: seq<WordId>, b: seq<seq<KFId>>, slots0: map<KFId, Slot>,
                                     score: KFId -> real)
    requires WordsInRange(words, |b|)
    ensures ScanOf(Reloc, qid, words, b, slots0).sharing != [] ==>
              ScoredOf(Reloc, qid, words, b, slots0, score).retained != []
  {
    var ks := Visits(b, words);
    var sc := ScanOf(Reloc, qid, words, b, slots0);
    if sc.sharing != [] {
      ScanFacts(Reloc, qid, slots0, ks);
      var maxW := MaxWords(sc.slots, sc.sharing);
      MaxWordsIsMaximum(sc.slots, sc.sharing);
      var k0 := sc.sharing[0];
      assert k0 in sc.sharing && k0 in ks;
      assert SlotOf(sc.slots, k0).words >= 1;
      var i :| 0 <= i < |sc.sharing| && SlotOf(sc.slots, sc.sharing[i]).words == maxW;
      var k := sc.sharing[i];
      ScoreFacts(Reloc, MinCommonWords(maxW), score, sc.slots, sc.sharing);
      assert Match(score(k), k) in ScoredOf(Reloc, qid, words, b, slots0, score).retained;
    }
  }
}
