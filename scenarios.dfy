/** Small concrete queries that pin down behaviours of the retrieval. Each
    query is evaluated stage by stage: the value of every fold step is
    stated, and a `...Snoc` lemma links the fold over `xs + [x]` to the
    fold over `xs`. */
module Scenarios {
  import opened KeyFrames
  import opened Retrieval

  // ---------------------------------------------------------------------
  // One fold step at a time

  lemma VisitsSnoc(b: seq<seq<KFId>>, words: seq<WordId>, w: WordId)
    requires WordsInRange(words, |b|) && w < |b|
    ensures WordsInRange(words + [w], |b|)
    ensures Visits(b, words + [w]) == Visits(b, words) + b[w]
  {
    assert (words + [w])[..|words|] == words;
  }

  lemma ScanSnoc(mode: Mode, qid: nat, st: ScanState, ks: seq<KFId>, k: KFId)
    ensures Scan(mode, qid, st, ks + [k]) == ScanStep(mode, qid, Scan(mode, qid, st, ks), k)
  {
    assert (ks + [k])[..|ks|] == ks;
  }

  lemma MaxWordsSnoc(slots: map<KFId, Slot>, ks: seq<KFId>, k: KFId)
    ensures var m := MaxWords(slots, ks);
      MaxWords(slots, ks + [k]) == if SlotOf(slots, k).words > m then SlotOf(slots, k).words else m
  {
    assert (ks + [k])[..|ks|] == ks;
  }

  lemma ScoresSnoc(mode: Mode, minWords: nat, score: KFId -> real, st: ScoreState, ks: seq<KFId>, k: KFId)
    ensures Scores(mode, minWords, score, st, ks + [k]) == ScoreStep(mode, minWords, score, Scores(mode, minWords, score, st, ks), k)
  {
    assert (ks + [k])[..|ks|] == ks;
  }

  lemma GroupsSnoc(mode: Mode, qid: nat, minWords: nat, slots: map<KFId, Slot>, covisibles: KFId -> seq<KFId>, ms: seq<Match>, m: Match)
    ensures Groups(mode, qid, minWords, slots, covisibles, ms + [m])
         == Groups(mode, qid, minWords, slots, covisibles, ms) + [GroupOf(mode, qid, minWords, slots, covisibles, m)]
  {
    assert (ms + [m])[..|ms|] == ms;
  }

  lemma BestAccSnoc(gs: seq<Match>, g: Match, floor: real)
    ensures var b := BestAcc(gs, floor);
      BestAcc(gs + [g], floor) == if g.score > b then g.score else b
  {
    assert (gs + [g])[..|gs|] == gs;
  }

  lemma SelectSnoc(gs: seq<Match>, g: Match, threshold: real)
    ensures var out := Select(gs, threshold);
      Select(gs + [g], threshold) == if g.score > threshold && g.kf !in out then out + [g.kf] else out
  {
    assert (gs + [g])[..|gs|] == gs;
  }

  /** A retained pair whose keyframe has no covisible keyframe forms a group
      of its own. */
  lemma LonelyGroup(mode: Mode, qid: nat, minWords: nat, slots: map<KFId, Slot>, covisibles: KFId -> seq<KFId>, m: Match)
    requires covisibles(m.kf) == []
    ensures GroupOf(mode, qid, minWords, slots, covisibles, m) == m
  {
    assert BestCovisibles([], NeighbourCount) == [];
  }

  /** A retained pair whose keyframe has exactly one covisible keyframe `n`. */
  lemma PairGroup(mode: Mode, qid: nat, minWords: nat, slots: map<KFId, Slot>, covisibles: KFId -> seq<KFId>, m: Match, n: KFId)
    requires covisibles(m.kf) == [n]
    ensures var t := TallyStep(mode, qid, minWords, slots, Tally(m.score, m.kf, m.score), n);
      GroupOf(mode, qid, minWords, slots, covisibles, m) == Match(t.acc, t.best)
  {
    var t0 := Tally(m.score, m.kf, m.score);
    assert BestCovisibles(covisibles(m.kf), NeighbourCount) == [n];
    assert TallyAll(mode, qid, minWords, slots, t0, []) == t0;
    assert TallyAll(mode, qid, minWords, slots, t0, [n]) == TallyStep(mode, qid, minWords, slots, t0, n) by {
      assert [n][..0] == [];
    }
  }

  // ---------------------------------------------------------------------
  // Three keyframes 1..3, all filed under word 0 only, queried by a keyframe
  // with id 100 whose only word is 0. Their scores against the query are
  // 0.2, 0.3 and 0.28; keyframe 1's best covisible keyframe is 2, the others
  // have none.

  const Index: seq<seq<KFId>> := [[1, 2, 3]]

  function ThreeScores(k: KFId): (s: real)
  {
    if k == 1 then 0.2 else if k == 2 then 0.3 else 0.28
  }

  function OneNeighbour(k: KFId): (ns: seq<KFId>)
  {
    if k == 1 then [2] else []
  }

  const Met: Slot := Slot(100, 1, 0.0)

  const Tagged: map<KFId, Slot> := map[1 := Met][2 := Met][3 := Met]

  const Scored1: map<KFId, Slot> := Tagged[1 := Slot(100, 1, 0.2)]

  const Scored2: map<KFId, Slot> := Scored1[2 := Slot(100, 1, 0.3)]

  const Scored: map<KFId, Slot> := Scored2[3 := Slot(100, 1, 0.28)]

  lemma ExampleVisits()
    ensures Visits(Index, [0]) == [1, 2, 3]
  {
    VisitsSnoc(Index, [], 0);
    assert [] + [0] == [0] && [] + Index[0] == [1, 2, 3];
  }

  lemma ExampleScanSteps(mode: Mode)
    requires Excluded(mode) == {}
    ensures Scan(mode, 100, ScanState(map[], []), [1, 2, 3]) == ScanState(Tagged, [1, 2, 3])
  {
    var s0 := ScanState(map[], []);
    var s1 := ScanStep(mode, 100, s0, 1);
    assert s1 == ScanState(map[1 := Met], [1]);
    var s2 := ScanStep(mode, 100, s1, 2);
    assert s2 == ScanState(map[1 := Met][2 := Met], [1, 2]);
    var s3 := ScanStep(mode, 100, s2, 3);
    assert s3 == ScanState(Tagged, [1, 2, 3]);
    ScanSnoc(mode, 100, s0, [], 1);
    ScanSnoc(mode, 100, s0, [1], 2);
    ScanSnoc(mode, 100, s0, [1, 2], 3);
    assert [] + [1] == [1] && [1] + [2] == [1, 2] && [1, 2] + [3] == [1, 2, 3];
  }

  lemma ExampleMaxWords()
    ensures MaxWords(Tagged, [1, 2, 3]) == 1
  {
    MaxWordsSnoc(Tagged, [], 1);
    MaxWordsSnoc(Tagged, [1], 2);
    MaxWordsSnoc(Tagged, [1, 2], 3);
    assert [] + [1] == [1] && [1] + [2] == [1, 2] && [1, 2] + [3] == [1, 2, 3];
  }

  lemma ExampleScan(mode: Mode)
    requires Excluded(mode) == {}
    ensures ScanOf(mode, 100, [0], Index, map[]) == ScanState(Tagged, [1, 2, 3])
    ensures MinWordsOf(mode, 100, [0], Index, map[]) == 0
  {
    ExampleVisits();
    ExampleScanSteps(mode);
    ExampleMaxWords();
  }

  lemma ExampleScoreStepsLow()
    ensures Scores(Loop({}, 0.1), 0, ThreeScores, ScoreState(Tagged, []), [1, 2, 3])
         == ScoreState(Scored, [Match(0.2, 1), Match(0.3, 2), Match(0.28, 3)])
  {
    var low := Loop({}, 0.1);
    var s0 := ScoreState(Tagged, []);
    var s1 := ScoreState(Scored1, [Match(0.2, 1)]);
    var s2 := ScoreState(Scored2, [Match(0.2, 1), Match(0.3, 2)]);
    assert ScoreStep(low, 0, ThreeScores, s0, 1) == s1;
    assert ScoreStep(low, 0, ThreeScores, s1, 2) == s2;
    assert ScoreStep(low, 0, ThreeScores, s2, 3) == ScoreState(Scored, [Match(0.2, 1), Match(0.3, 2), Match(0.28, 3)]);
    ScoresSnoc(low, 0, ThreeScores, s0, [], 1);
    ScoresSnoc(low, 0, ThreeScores, s0, [1], 2);
    ScoresSnoc(low, 0, ThreeScores, s0, [1, 2], 3);
    assert [] + [1] == [1] && [1] + [2] == [1, 2] && [1, 2] + [3] == [1, 2, 3];
  }

  lemma ExampleScoreStepsHigh()
    ensures Scores(Loop({}, 0.25), 0, ThreeScores, ScoreState(Tagged, []), [1, 2, 3])
         == ScoreState(Scored, [Match(0.3, 2), Match(0.28, 3)])
  {
    var high := Loop({}, 0.25);
    var s0 := ScoreState(Tagged, []);
    var s1 := ScoreState(Scored1, []);
    var s2 := ScoreState(Scored2, [Match(0.3, 2)]);
    assert ScoreStep(high, 0, ThreeScores, s0, 1) == s1;
    assert ScoreStep(high, 0, ThreeScores, s1, 2) == s2;
    assert ScoreStep(high, 0, ThreeScores, s2, 3) == ScoreState(Scored, [Match(0.3, 2), Match(0.28, 3)]);
    ScoresSnoc(high, 0, ThreeScores, s0, [], 1);
    ScoresSnoc(high, 0, ThreeScores, s0, [1], 2);
    ScoresSnoc(high, 0, ThreeScores, s0, [1, 2], 3);
    assert [] + [1] == [1] && [1] + [2] == [1, 2] && [1, 2] + [3] == [1, 2, 3];
  }

  lemma ExampleScores(mode: Mode)
    requires mode == Loop({}, 0.1) || mode == Loop({}, 0.25)
    ensures ScoredOf(mode, 100, [0], Index, map[], ThreeScores)
         == ScoreState(Scored, if mode.minScore == 0.1 then [Match(0.2, 1), Match(0.3, 2), Match(0.28, 3)]
                               else [Match(0.3, 2), Match(0.28, 3)])
    ensures MinWordsOf(mode, 100, [0], Index, map[]) == 0
  {
    ExampleScan(mode);
    if mode.minScore == 0.1 {
      ExampleScoreStepsLow();
    } else {
      ExampleScoreStepsHigh();
    }
  }

  const LowGroups: seq<Match> := [Match(0.5, 2), Match(0.3, 2), Match(0.28, 3)]

  lemma ExampleLowGroupSteps()
    ensures Groups(Loop({}, 0.1), 100, 0, Scored, OneNeighbour, [Match(0.2, 1), Match(0.3, 2), Match(0.28, 3)]) == LowGroups
  {
    var low := Loop({}, 0.1);
    var m1, m2, m3 := Match(0.2, 1), Match(0.3, 2), Match(0.28, 3);
    PairGroup(low, 100, 0, Scored, OneNeighbour, m1, 2);
    assert TallyStep(low, 100, 0, Scored, Tally(0.2, 1, 0.2), 2) == Tally(0.5, 2, 0.3);
    LonelyGroup(low, 100, 0, Scored, OneNeighbour, m2);
    LonelyGroup(low, 100, 0, Scored, OneNeighbour, m3);
    GroupsSnoc(low, 100, 0, Scored, OneNeighbour, [], m1);
    GroupsSnoc(low, 100, 0, Scored, OneNeighbour, [m1], m2);
    GroupsSnoc(low, 100, 0, Scored, OneNeighbour, [m1, m2], m3);
    assert [] + [m1] == [m1] && [m1] + [m2] == [m1, m2] && [m1, m2] + [m3] == [m1, m2, m3];
    assert [] + [LowGroups[0]] + [m2] + [m3] == LowGroups;
  }

  lemma ExampleLowSelect()
    ensures BestAcc(LowGroups, 0.1) == 0.5
    ensures Select(LowGroups, 0.75 * 0.5) == [2]
  {
    var g1, g2, g3 := LowGroups[0], LowGroups[1], LowGroups[2];
    BestAccSnoc([], g1, 0.1);
    BestAccSnoc([g1], g2, 0.1);
    BestAccSnoc([g1, g2], g3, 0.1);
    SelectSnoc([], g1, 0.75 * 0.5);
    SelectSnoc([g1], g2, 0.75 * 0.5);
    SelectSnoc([g1, g2], g3, 0.75 * 0.5);
    assert [] + [g1] == [g1] && [g1] + [g2] == [g1, g2] && [g1, g2] + [g3] == LowGroups;
  }

  lemma ExampleLow()
    ensures Retrieve(Loop({}, 0.1), 100, [0], Index, map[], ThreeScores, OneNeighbour).candidates == [2]
  {
    ExampleScores(Loop({}, 0.1));
    ExampleLowGroupSteps();
    ExampleLowSelect();
  }

  const HighPairs: seq<Match> := [Match(0.3, 2), Match(0.28, 3)]

  lemma ExampleHighGroupSteps()
    ensures Groups(Loop({}, 0.25), 100, 0, Scored, OneNeighbour, HighPairs) == HighPairs
  {
    var high := Loop({}, 0.25);
    var m2, m3 := HighPairs[0], HighPairs[1];
    LonelyGroup(high, 100, 0, Scored, OneNeighbour, m2);
    LonelyGroup(high, 100, 0, Scored, OneNeighbour, m3);
    GroupsSnoc(high, 100, 0, Scored, OneNeighbour, [], m2);
    GroupsSnoc(high, 100, 0, Scored, OneNeighbour, [m2], m3);
    assert [] + [m2] == [m2] && [m2] + [m3] == HighPairs;
  }

  lemma ExampleHighSelect()
    ensures BestAcc(HighPairs, 0.25) == 0.3
    ensures Select(HighPairs, 0.75 * 0.3) == [2, 3]
  {
    var g2, g3 := HighPairs[0], HighPairs[1];
    BestAccSnoc([], g2, 0.25);
    BestAccSnoc([g2], g3, 0.25);
    SelectSnoc([], g2, 0.75 * 0.3);
    SelectSnoc([g2], g3, 0.75 * 0.3);
    assert [] + [g2] == [g2] && [g2] + [g3] == HighPairs;
    assert [] + [2] + [3] == [2, 3];
  }

  lemma ExampleHigh()
    ensures Retrieve(Loop({}, 0.25), 100, [0], Index, map[], ThreeScores, OneNeighbour).candidates == [2, 3]
  {
    ExampleScores(Loop({}, 0.25));
    ExampleHighGroupSteps();
    ExampleHighSelect();
  }

  /** Raising `minScore` can make loop detection return more keyframes: at
      0.1 the group of keyframe 1 (own score 0.2 plus neighbour 2's 0.3)
      sets the bar at 0.75 * 0.5 and only its representative 2 passes; at
      0.25 keyframe 1 is dropped at the score gate, the bar falls to
      0.75 * 0.3, and keyframes 2 and 3 both pass. */
  lemma RaisingMinScoreCanReturnMore()
    ensures Retrieve(Loop({}, 0.1), 100, [0], Index, map[], ThreeScores, OneNeighbour).candidates == [2]
    ensures Retrieve(Loop({}, 0.25), 100, [0], Index, map[], ThreeScores, OneNeighbour).candidates == [2, 3]
  {
    ExampleLow();
    ExampleHigh();
  }

  // ---------------------------------------------------------------------
  // Keyframe 1 is filed under words 0 and 1, keyframe 2 under word 0 only;
  // keyframe 2 still holds the score 0.9 from an earlier query (id 7) and is
  // keyframe 1's best covisible keyframe. The query (id 100) has words 0
  // and 1, and scores 0.5 against every keyframe.

  const TwoWordIndex: seq<seq<KFId>> := [[1, 2], [1]]

  const EarlierSlots: map<KFId, Slot> := map[2 := Slot(7, 3, 0.9)]

  function HalfScore(k: KFId): (s: real)
  {
    0.5
  }

  const ScannedTwo: map<KFId, Slot> := EarlierSlots[1 := Met][2 := Slot(100, 1, 0.9)][1 := Slot(100, 2, 0.0)]

  const ScoredTwo: map<KFId, Slot> := ScannedTwo[1 := Slot(100, 2, 0.5)]

  lemma TwoWordVisits()
    ensures WordsInRange([0, 1], |TwoWordIndex|)
    ensures Visits(TwoWordIndex, [0, 1]) == [1, 2, 1]
  {
    VisitsSnoc(TwoWordIndex, [], 0);
    VisitsSnoc(TwoWordIndex, [0], 1);
    assert [] + [0] == [0] && [0] + [1] == [0, 1] && [] + [1, 2] + [1] == [1, 2, 1];
  }

  lemma TwoWordScanSteps(mode: Mode)
    requires Excluded(mode) == {}
    ensures Scan(mode, 100, ScanState(EarlierSlots, []), [1, 2, 1]) == ScanState(ScannedTwo, [1, 2])
  {
    var s0 := ScanState(EarlierSlots, []);
    var s1 := ScanState(EarlierSlots[1 := Met], [1]);
    var s2 := ScanState(EarlierSlots[1 := Met][2 := Slot(100, 1, 0.9)], [1, 2]);
    assert ScanStep(mode, 100, s0, 1) == s1;
    assert ScanStep(mode, 100, s1, 2) == s2;
    assert ScanStep(mode, 100, s2, 1) == ScanState(ScannedTwo, [1, 2]);
    ScanSnoc(mode, 100, s0, [], 1);
    ScanSnoc(mode, 100, s0, [1], 2);
    ScanSnoc(mode, 100, s0, [1, 2], 1);
    assert [] + [1] == [1] && [1] + [2] == [1, 2] && [1, 2] + [1] == [1, 2, 1];
  }

  lemma TwoWordMaxWords()
    ensures MaxWords(ScannedTwo, [1, 2]) == 2
  {
    MaxWordsSnoc(ScannedTwo, [], 1);
    MaxWordsSnoc(ScannedTwo, [1], 2);
    assert [] + [1] == [1] && [1] + [2] == [1, 2];
  }

  lemma TwoWordScan(mode: Mode)
    requires Excluded(mode) == {}
    ensures ScanOf(mode, 100, [0, 1], TwoWordIndex, EarlierSlots) == ScanState(ScannedTwo, [1, 2])
    ensures MinWordsOf(mode, 100, [0, 1], TwoWordIndex, EarlierSlots) == 1
  {
    TwoWordVisits();
    TwoWordScanSteps(mode);
    TwoWordMaxWords();
  }

  lemma TwoWordScores(mode: Mode)
    requires Excluded(mode) == {} && KeepsScore(mode, 0.5)
    ensures ScoredOf(mode, 100, [0, 1], TwoWordIndex, EarlierSlots, HalfScore) == ScoreState(ScoredTwo, [Match(0.5, 1)])
  {
    TwoWordScan(mode);
    var s0 := ScoreState(ScannedTwo, []);
    var s1 := ScoreStep(mode, 1, HalfScore, s0, 1);
    assert s1 == ScoreState(ScoredTwo, [Match(0.5, 1)]);
    assert ScoreStep(mode, 1, HalfScore, s1, 2) == s1;
    ScoresSnoc(mode, 1, HalfScore, s0, [], 1);
    ScoresSnoc(mode, 1, HalfScore, s0, [1], 2);
    assert [] + [1] == [1] && [1] + [2] == [1, 2];
  }

  lemma TwoWordGroups(mode: Mode)
    requires mode == Reloc || mode == Loop({}, 0.1)
    ensures GroupsOf(mode, 100, [0, 1], TwoWordIndex, EarlierSlots, HalfScore, OneNeighbour)
         == if mode.Reloc? then [Match(1.4, 2)] else [Match(0.5, 1)]
  {
    var m := Match(0.5, 1);
    TwoWordScores(mode);
    TwoWordScan(mode);
    PairGroup(mode, 100, 1, ScoredTwo, OneNeighbour, m, 2);
    if mode.Reloc? {
      assert TallyStep(mode, 100, 1, ScoredTwo, Tally(0.5, 1, 0.5), 2) == Tally(1.4, 2, 0.9);
    } else {
      assert TallyStep(mode, 100, 1, ScoredTwo, Tally(0.5, 1, 0.5), 2) == Tally(0.5, 1, 0.5);
    }
    GroupsSnoc(mode, 100, 1, ScoredTwo, OneNeighbour, [], m);
    assert [] + [m] == [m];
  }

  /** Relocalization adds the score a tagged neighbour kept from an earlier
      query, even though that neighbour shared too few words to be scored
      now: keyframe 2 (never scored against this frame) becomes the
      representative and is returned. Loop detection, whose neighbour gate
      also asks for more than `minCommonWords` shared words, ignores it and
      returns keyframe 1. */
  lemma RelocAddsStaleNeighbourScore()
    ensures Retrieve(Reloc, 100, [0, 1], TwoWordIndex, EarlierSlots, HalfScore, OneNeighbour).candidates == [2]
    ensures Retrieve(Loop({}, 0.1), 100, [0, 1], TwoWordIndex, EarlierSlots, HalfScore, OneNeighbour).candidates == [1]
  {
    TwoWordGroups(Reloc);
    TwoWordGroups(Loop({}, 0.1));
    BestAccSnoc([], Match(1.4, 2), 0.0);
    SelectSnoc([], Match(1.4, 2), 0.75 * 1.4);
    BestAccSnoc([], Match(0.5, 1), 0.1);
    SelectSnoc([], Match(0.5, 1), 0.75 * 0.5);
    assert [] + [Match(1.4, 2)] == [Match(1.4, 2)] && [] + [Match(0.5, 1)] == [Match(0.5, 1)];
    assert [] + [2] == [2] && [] + [1] == [1];
  }

  // ---------------------------------------------------------------------
  // Keyframes 1 and 2 are filed under word 0; keyframe 2 is connected to the
  // query (id 100) but still carries the tag 100, with count 5 and score 0.9,
  // from an earlier loop query by the same id.

  const PairIndex: seq<seq<KFId>> := [[1, 2]]

  const StaleSlots: map<KFId, Slot> := map[2 := Slot(100, 5, 0.9)]

  const StaleScanned: map<KFId, Slot> := StaleSlots[1 := Met][2 := Slot(100, 6, 0.9)]

  const StaleScored: map<KFId, Slot> := StaleScanned[1 := Slot(100, 1, 0.5)]

  lemma StaleScan()
    ensures ScanOf(Loop({2}, 0.1), 100, [0], PairIndex, StaleSlots) == ScanState(StaleScanned, [1])
    ensures MinWordsOf(Loop({2}, 0.1), 100, [0], PairIndex, StaleSlots) == 0
  {
    var mode := Loop({2}, 0.1);
    var s0 := ScanState(StaleSlots, []);
    var s1 := ScanState(StaleSlots[1 := Met], [1]);
    assert ScanStep(mode, 100, s0, 1) == s1;
    assert ScanStep(mode, 100, s1, 2) == ScanState(StaleScanned, [1]);
    ScanSnoc(mode, 100, s0, [], 1);
    ScanSnoc(mode, 100, s0, [1], 2);
    assert [] + [1] == [1] && [1] + [2] == [1, 2];
    VisitsSnoc(PairIndex, [], 0);
    assert [] + [0] == [0] && [] + PairIndex[0] == [1, 2];
    MaxWordsSnoc(StaleScanned, [], 1);
    assert [] + [1] == [1];
  }

  lemma StaleGroups()
    ensures GroupsOf(Loop({2}, 0.1), 100, [0], PairIndex, StaleSlots, HalfScore, OneNeighbour) == [Match(1.4, 2)]
  {
    var mode := Loop({2}, 0.1);
    var m := Match(0.5, 1);
    StaleScan();
    var s0 := ScoreState(StaleScanned, []);
    assert ScoreStep(mode, 0, HalfScore, s0, 1) == ScoreState(StaleScored, [m]);
    ScoresSnoc(mode, 0, HalfScore, s0, [], 1);
    assert [] + [1] == [1];
    PairGroup(mode, 100, 0, StaleScored, OneNeighbour, m, 2);
    assert TallyStep(mode, 100, 0, StaleScored, Tally(0.5, 1, 0.5), 2) == Tally(1.4, 2, 0.9);
    GroupsSnoc(mode, 100, 0, StaleScored, OneNeighbour, [], m);
    assert [] + [m] == [m];
  }

  /** Without the no-stale-tag proviso, loop detection can return a
      connected keyframe: keyframe 2 is skipped by the scan because it
      already carries the query id, yet as keyframe 1's neighbour it passes
      the tag and count gate, takes over the group and is returned. */
  lemma StaleTagDefeatsExclusion()
    ensures Retrieve(Loop({2}, 0.1), 100, [0], PairIndex, StaleSlots, HalfScore, OneNeighbour).candidates == [2]
  {
    StaleGroups();
    BestAccSnoc([], Match(1.4, 2), 0.1);
    SelectSnoc([], Match(1.4, 2), 0.75 * 1.4);
    assert [] + [Match(1.4, 2)] == [Match(1.4, 2)] && [] + [2] == [2];
  }
}
