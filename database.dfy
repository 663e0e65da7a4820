/** The keyframe database: an inverted file from visual words to the
    keyframes that contain them, updated in place, and the two queries that
    retrieve loop-closure and relocalization candidates from it. */
module Database {
  import opened KeyFrames
  import opened InvertedIndex
  import opened Retrieval

  class KeyFrameDatabase {
    /** The number of words of the vocabulary the database was built for. */
    const vocabularySize: nat

    /** The inverted file: bucket `w` lists the keyframes filed under word `w`. */
    var buckets: seq<seq<KFId>>

    /** One empty bucket per word of the vocabulary. */
    constructor (vocabularySize: nat)
      ensures this.vocabularySize == vocabularySize
      ensures buckets == EmptyIndex(vocabularySize)
    {
      this.vocabularySize := vocabularySize;
      buckets := EmptyIndex(vocabularySize);
    }

    /** Appends `kf` to the bucket of each word of its bag-of-words vector. */
    method Add(kf: KeyFrame)
      requires IsBowVector(kf.bow) && WordsInRange(kf.bow, |buckets|)
      modifies this
      ensures buckets == AddToIndex(old(buckets), kf.id, kf.bow)
    {
      ghost var b0 := buckets;
      for i := 0 to |kf.bow|
        invariant |buckets| == |b0|
        invariant forall w :: 0 <= w < |b0| ==> buckets[w] == if w in kf.bow[..i] then b0[w] + [kf.id] else b0[w]
      {
        var w := kf.bow[i];
        assert w !in kf.bow[..i];
        assert kf.bow[..i + 1] == kf.bow[..i] + [w];
        buckets := buckets[w := buckets[w] + [kf.id]];
      }
      assert kf.bow[..|kf.bow|] == kf.bow;
    }

    /** Removes the first occurrence of `kf` from the bucket of each word of
        its bag-of-words vector. */
    method Erase(kf: KeyFrame)
      requires IsBowVector(kf.bow) && WordsInRange(kf.bow, |buckets|)
      modifies this
      ensures buckets == EraseFromIndex(old(buckets), kf.id, kf.bow)
    {
      ghost var b0 := buckets;
      for i := 0 to |kf.bow|
        invariant |buckets| == |b0|
        invariant forall w :: 0 <= w < |b0| ==> buckets[w] == if w in kf.bow[..i] then RemoveFirst(b0[w], kf.id) else b0[w]
      {
        var w := kf.bow[i];
        assert w !in kf.bow[..i];
        assert kf.bow[..i + 1] == kf.bow[..i] + [w];
        var l := buckets[w];
        var j := 0;
        while j < |l|
          invariant 0 <= j <= |l|
          invariant kf.id !in l[..j]
          invariant buckets[w] == l
        {
          if l[j] == kf.id {
            RemoveFirstAt(l, kf.id, j);
            buckets := buckets[w := l[..j] + l[j + 1..]];
            break;
          }
          assert l[..j + 1] == l[..j] + [l[j]];
          j := j + 1;
        }
        if j == |l| {
          assert l[..j] == l;
          RemoveFirstAbsent(l, kf.id);
        }
      }
      assert kf.bow[..|kf.bow|] == kf.bow;
    }

    /** Empties the index and sizes it to the vocabulary again. */
    method Clear()
      modifies this
      ensures buckets == EmptyIndex(vocabularySize)
    {
      buckets := [];
      buckets := EmptyIndex(vocabularySize);
    }

    /** A copy of the inverted file. */
    method GetKFDB() returns (copy: seq<seq<KFId>>)
      ensures copy == buckets
    {
      copy := buckets;
    }

    /** Drops every bucket: the database has no word left to query. */
    method ClearKFDB()
      modifies this
      ensures buckets == []
    {
      buckets := [];
    }

    /** Scans the buckets of `words`, tagging and counting the keyframes met
        in their scratch fields, and returns the sharing list. */
    method ScanBuckets(mode: Mode, qid: nat, words: seq<WordId>, table: SlotTable) returns (sharing: seq<KFId>)
      requires WordsInRange(words, |buckets|)
      modifies table
      ensures ScanState(table.slots, sharing) == Scan(mode, qid, ScanState(old(table.slots), []), Visits(buckets, words))
    {
      ghost var init := ScanState(table.slots, []);
      ghost var seen: seq<KFId> := [];
      sharing := [];
      for i := 0 to |words|
        invariant WordsInRange(words[..i], |buckets|)
        invariant seen == Visits(buckets, words[..i])
        invariant ScanState(table.slots, sharing) == Scan(mode, qid, init, seen)
      {
        assert words[..i + 1][..i] == words[..i];
        var bucket := buckets[words[i]];
        ghost var before := seen;
        for j := 0 to |bucket|
          invariant seen == before + bucket[..j]
          invariant ScanState(table.slots, sharing) == Scan(mode, qid, init, seen)
        {
          assert bucket[..j + 1] == bucket[..j] + [bucket[j]];
          assert (seen + [bucket[j]])[..|seen|] == seen;
          sharing := Meet(mode, qid, bucket[j], table, sharing);
          seen := seen + [bucket[j]];
        }
        assert bucket[..|bucket|] == bucket;
      }
      assert words[..|words|] == words;
    }

    /** Meeting keyframe `k` in a bucket during the scan. */
    static method Meet(mode: Mode, qid: nat, k: KFId, table: SlotTable, sharing: seq<KFId>) returns (sharing': seq<KFId>)
      modifies table
      ensures ScanState(table.slots, sharing') == ScanStep(mode, qid, ScanState(old(table.slots), sharing), k)
    {
      sharing' := sharing;
      var s := SlotOf(table.slots, k);
      if s.query != qid {
        s := s.(words := 0);
        if k !in Excluded(mode) {
          s := s.(query := qid);
          sharing' := sharing' + [k];
        }
      }
      s := s.(words := s.words + 1);
      table.slots := table.slots[k := s];
    }

    /** The pipeline both queries run: scan, common-word threshold, scoring,
        covisibility accumulation, final threshold and deduplication. */
    method Detect(mode: Mode, qid: nat, words: seq<WordId>, table: SlotTable,
                  score: KFId -> real, covisibles: KFId -> seq<KFId>) returns (candidates: seq<KFId>)
      requires WordsInRange(words, |buckets|)
      modifies table
      ensures Outcome(candidates, table.slots) == Retrieve(mode, qid, words, buckets, old(table.slots), score, covisibles)
    {
      ghost var slots0 := table.slots;
      var sharing := ScanBuckets(mode, qid, words, table);
      assert ScanOf(mode, qid, words, buckets, slots0) == ScanState(table.slots, sharing);
      if sharing == [] {
        assert ScoredOf(mode, qid, words, buckets, slots0, score) == ScoreState(table.slots, []);
        assert GroupsOf(mode, qid, words, buckets, slots0, score, covisibles) == [];
        assert Retrieve(mode, qid, words, buckets, slots0, score, covisibles) == Outcome([], table.slots);
        return [];
      }
      var maxWords := MaxCommonWords(table.slots, sharing);
      var minWords := MinCommonWords(maxWords);
      assert minWords == MinWordsOf(mode, qid, words, buckets, slots0);
      var retained := ScoreSharing(mode, minWords, sharing, score, table);
      assert ScoredOf(mode, qid, words, buckets, slots0, score) == ScoreState(table.slots, retained);
      if retained == [] {
        assert GroupsOf(mode, qid, words, buckets, slots0, score, covisibles) == [];
        assert Retrieve(mode, qid, words, buckets, slots0, score, covisibles) == Outcome([], table.slots);
        return [];
      }
      var groups, bestAccScore := AccumulateByCovisibility(mode, qid, minWords, table.slots, retained, covisibles);
      assert groups == GroupsOf(mode, qid, words, buckets, slots0, score, covisibles);
      assert RetainRatio * bestAccScore == ThresholdOf(mode, qid, words, buckets, slots0, score, covisibles);
      candidates := SelectCandidates(groups, RetainRatio * bestAccScore);
      assert Retrieve(mode, qid, words, buckets, slots0, score, covisibles) == Outcome(candidates, table.slots);
    }

    /** Loop-closure candidates for keyframe `kf`, whose covisibility-connected
        keyframes are `connected`, with score floor `minScore`. `score` gives
        the vocabulary score of `kf` against a keyframe and `covisibles` a
        keyframe's covisible keyframes, best first. */
    method DetectLoopCandidates(kf: KeyFrame, connected: set<KFId>, minScore: real, loopSlots: SlotTable,
                                score: KFId -> real, covisibles: KFId -> seq<KFId>) returns (candidates: seq<KFId>)
      requires WordsInRange(kf.bow, |buckets|)
      modifies loopSlots
      ensures Outcome(candidates, loopSlots.slots)
           == Retrieve(Loop(connected, minScore), kf.id, kf.bow, buckets, old(loopSlots.slots), score, covisibles)
    {
      candidates := Detect(Loop(connected, minScore), kf.id, kf.bow, loopSlots, score, covisibles);
    }

    /** Relocalization candidates for query frame `f`. */
    method DetectRelocalizationCandidates(f: KeyFrame, relocSlots: SlotTable,
                                          score: KFId -> real, covisibles: KFId -> seq<KFId>) returns (candidates: seq<KFId>)
      requires WordsInRange(f.bow, |buckets|)
      modifies relocSlots
      ensures Outcome(candidates, relocSlots.slots)
           == Retrieve(Reloc, f.id, f.bow, buckets, old(relocSlots.slots), score, covisibles)
    {
      candidates := Detect(Reloc, f.id, f.bow, relocSlots, score, covisibles);
    }
  }

  /** The largest shared-word count over the sharing list (0 if empty). */
  method MaxCommonWords(slots: map<KFId, Slot>, sharing: seq<KFId>) returns (maxWords: nat)
    ensures maxWords == MaxWords(slots, sharing)
  {
    maxWords := 0;
    for i := 0 to |sharing|
      invariant maxWords == MaxWords(slots, sharing[..i])
    {
      assert sharing[..i + 1][..i] == sharing[..i];
      if SlotOf(slots, sharing[i]).words > maxWords {
        maxWords := SlotOf(slots, sharing[i]).words;
      }
    }
    assert sharing[..|sharing|] == sharing;
  }

  /** Scores every keyframe of the sharing list whose count exceeds
      `minWords`, stores the score on it, and keeps the pairs the mode keeps. */
  method ScoreSharing(mode: Mode, minWords: nat, sharing: seq<KFId>, score: KFId -> real, table: SlotTable)
    returns (retained: seq<Match>)
    modifies table
    ensures ScoreState(table.slots, retained) == Scores(mode, minWords, score, ScoreState(old(table.slots), []), sharing)
  {
    ghost var init := ScoreState(table.slots, []);
    retained := [];
    for i := 0 to |sharing|
      invariant ScoreState(table.slots, retained) == Scores(mode, minWords, score, init, sharing[..i])
    {
      assert sharing[..i + 1][..i] == sharing[..i];
      var k := sharing[i];
      if SlotOf(table.slots, k).words > minWords {
        var si := score(k);
        table.slots := table.slots[k := SlotOf(table.slots, k).(score := si)];
        if KeepsScore(mode, si) {
          retained := retained + [Match(si, k)];
        }
      }
    }
    assert sharing[..|sharing|] == sharing;
  }

  /** Builds the group of every retained pair from its best covisible
      keyframes and tracks the best accumulated score. */
  method AccumulateByCovisibility(mode: Mode, qid: nat, minWords: nat, slots: map<KFId, Slot>,
                                  retained: seq<Match>, covisibles: KFId -> seq<KFId>)
    returns (groups: seq<Match>, bestAccScore: real)
    ensures groups == Groups(mode, qid, minWords, slots, covisibles, retained)
    ensures bestAccScore == BestAcc(groups, AccFloor(mode))
  {
    groups := [];
    bestAccScore := AccFloor(mode);
    for i := 0 to |retained|
      invariant groups == Groups(mode, qid, minWords, slots, covisibles, retained[..i])
      invariant bestAccScore == BestAcc(groups, AccFloor(mode))
    {
      assert retained[..i + 1][..i] == retained[..i];
      var m := retained[i];
      var neighbours := BestCovisibles(covisibles(m.kf), NeighbourCount);
      var accScore, bestKF := AccumulateGroup(mode, qid, minWords, slots, m, neighbours);
      groups := groups + [Match(accScore, bestKF)];
      assert groups[..|groups| - 1] == Groups(mode, qid, minWords, slots, covisibles, retained[..i]);
      if accScore > bestAccScore {
        bestAccScore := accScore;
      }
    }
    assert retained[..|retained|] == retained;
  }

  /** The group of the retained pair `m`: its own score plus the stored
      scores of the qualifying keyframes among `neighbours`, represented by
      the keyframe with the highest of those scores (the first one on ties). */
  method AccumulateGroup(mode: Mode, qid: nat, minWords: nat, slots: map<KFId, Slot>, m: Match, neighbours: seq<KFId>)
    returns (accScore: real, bestKF: KFId)
    ensures var t := TallyAll(mode, qid, minWords, slots, Tally(m.score, m.kf, m.score), neighbours);
      accScore == t.acc && bestKF == t.best
  {
    var bestScore := m.score;
    accScore := m.score;
    bestKF := m.kf;
    for j := 0 to |neighbours|
      invariant Tally(accScore, bestKF, bestScore)
             == TallyAll(mode, qid, minWords, slots, Tally(m.score, m.kf, m.score), neighbours[..j])
    {
      assert neighbours[..j + 1][..j] == neighbours[..j];
      var n := neighbours[j];
      if Qualifies(mode, qid, minWords, slots, n) {
        var s := SlotOf(slots, n).score;
        accScore := accScore + s;
        if s > bestScore {
          bestKF := n;
          bestScore := s;
        }
      }
    }
    assert neighbours[..|neighbours|] == neighbours;
  }

  /** Representatives of the groups scoring strictly above `threshold`, in
      group order, skipping those already added. */
  method SelectCandidates(groups: seq<Match>, threshold: real) returns (candidates: seq<KFId>)
    ensures candidates == Select(groups, threshold)
  {
    var alreadyAdded: set<KFId> := {};
    candidates := [];
    for i := 0 to |groups|
      invariant candidates == Select(groups[..i], threshold)
      invariant forall k :: k in alreadyAdded <==> k in candidates
    {
      assert groups[..i + 1][..i] == groups[..i];
      if groups[i].score > threshold {
        var k := groups[i].kf;
        if k !in alreadyAdded {
          candidates := candidates + [k];
          alreadyAdded := alreadyAdded + {k};
        }
      }
    }
    assert groups[..|groups|] == groups;
  }
}
