/** The candidate-retrieval pipeline shared by loop detection and
    relocalization, stage by stage, as functions of the index, the query and
    the scratch fields the keyframes carry before the query. Every stage is
    a left fold written from the end of its input, so that a loop which has
    processed a prefix is described by the fold over that prefix. */
module Retrieval {
  import opened KeyFrames

  /** What distinguishes the two retrieval kinds: loop detection excludes the
      query's connected keyframes, drops scores below `minScore`, asks a
      neighbour to share enough words, and starts the best accumulated score
      at `minScore`; relocalization does none of this and starts it at 0. */
  datatype Mode = Loop(connected: set<KFId>, minScore: real) | Reloc

  function Excluded(mode: Mode): (ex: set<KFId>)
  {
    if mode.Loop? then mode.connected else {}
  }

  predicate KeepsScore(mode: Mode, s: real)
  {
    mode.Reloc? || s >= mode.minScore
  }

  function AccFloor(mode: Mode): (floor: real)
  {
    if mode.Loop? then mode.minScore else 0.0
  }

  /** A (score, keyframe) pair. */
  datatype Match = Match(score: real, kf: KFId)

  /** Number of best covisible keyframes a group is built from. */
  const NeighbourCount: nat := 10

  /** Fraction of the best accumulated score a group must exceed. */
  const RetainRatio: real := 0.75

  // ---------------------------------------------------------------------
  // Stage 1: scanning the buckets of the query's words

  /** The keyframes met while scanning the buckets of `words`, in order,
      with repetitions. */
  function Visits(b: seq<seq<KFId>>, words: seq<WordId>): (met: seq<KFId>)
    requires WordsInRange(words, |b|)
  {
    if words == [] then []
    else Visits(b, words[..|words| - 1]) + b[words[|words| - 1]]
  }

  datatype ScanState = ScanState(slots: map<KFId, Slot>, sharing: seq<KFId>)

  /** Meeting keyframe `k` in a bucket: a keyframe whose tag is not the
      query's gets its count reset and, unless excluded, the tag and a place
      in the sharing list; its count then goes up by one in every case. */
  function ScanStep(mode: Mode, qid: nat, st: ScanState, k: KFId): (next: ScanState)
  {
    var s := SlotOf(st.slots, k);
    if s.query != qid then
      if k !in Excluded(mode) then ScanState(st.slots[k := Slot(qid, 1, s.score)], st.sharing + [k])
      else ScanState(st.slots[k := Slot(s.query, 1, s.score)], st.sharing)
    else ScanState(st.slots[k := Slot(s.query, s.words + 1, s.score)], st.sharing)
  }

  function Scan(mode: Mode, qid: nat, st: ScanState, ks: seq<KFId>): (st': ScanState)
  {
    if ks == [] then st
    else ScanStep(mode, qid, Scan(mode, qid, st, ks[..|ks| - 1]), ks[|ks| - 1])
  }

  /** The scan leaves keyframes it does not meet untouched and changes no score. */
  lemma {:induction false} ScanFrame(mode: Mode, qid: nat, slots0: map<KFId, Slot>, ks: seq<KFId>)
    ensures var r := Scan(mode, qid, ScanState(slots0, []), ks);
      && (forall k :: k !in ks ==> SlotOf(r.slots, k) == SlotOf(slots0, k))
      && (forall k :: SlotOf(r.slots, k).score == SlotOf(slots0, k).score)
  {
    if ks != [] {
      var xs := ks[..|ks| - 1];
      assert ks == xs + [ks[|ks| - 1]];
      ScanFrame(mode, qid, slots0, xs);
    }
  }

  /** The sharing list holds, once each, exactly the met keyframes that are
      neither excluded nor already tagged with the query id, and afterwards
      the tag equals the query id only for those and for keyframes that
      already carried it. */
  lemma {:induction false} ScanTags(mode: Mode, qid: nat, slots0: map<KFId, Slot>, ks: seq<KFId>)
    ensures var r := Scan(mode, qid, ScanState(slots0, []), ks);
      && Distinct(r.sharing)
      && (forall k :: k in r.sharing <==> k in ks && k !in Excluded(mode) && SlotOf(slots0, k).query != qid)
      && (forall k :: SlotOf(r.slots, k).query == qid <==> k in r.sharing || SlotOf(slots0, k).query == qid)
  {
    if ks != [] {
      var xs := ks[..|ks| - 1];
      assert ks == xs + [ks[|ks| - 1]];
      ScanTags(mode, qid, slots0, xs);
    }
  }

  /** Each keyframe of the sharing list counts how often the scan met it. */
  lemma {:induction false} ScanCounts(mode: Mode, qid: nat, slots0: map<KFId, Slot>, ks: seq<KFId>)
    ensures var r := Scan(mode, qid, ScanState(slots0, []), ks);
      forall k :: k in r.sharing ==> SlotOf(r.slots, k).words == multiset(ks)[k]
  {
    if ks != [] {
      var xs, x := ks[..|ks| - 1], ks[|ks| - 1];
      assert ks == xs + [x];
      ScanCounts(mode, qid, slots0, xs);
      ScanTags(mode, qid, slots0, xs);
      var p := Scan(mode, qid, ScanState(slots0, []), xs);
      var r := Scan(mode, qid, ScanState(slots0, []), ks);
      assert r == ScanStep(mode, qid, p, x);
      if SlotOf(p.slots, x).query != qid && x !in Excluded(mode) {
        assert x !in xs;
        assert multiset(xs)[x] == 0;
      }
      forall k | k in r.sharing
        ensures SlotOf(r.slots, k).words == multiset(ks)[k]
      {
        if k != x {
          assert k in p.sharing;
        }
      }
    }
  }

  /** What the scan establishes, given the slots before the query:
      the sharing list holds, once each, exactly the met keyframes that are
      neither excluded nor already tagged with the query id; each of them is
      tagged and counts how often it was met; the tag equals the query id
      afterwards only for those and for keyframes that already carried it;
      keyframes not met are untouched and no score changes. */
  lemma ScanFacts(mode: Mode, qid: nat, slots0: map<KFId, Slot>, ks: seq<KFId>)
    ensures var r := Scan(mode, qid, ScanState(slots0, []), ks);
      && Distinct(r.sharing)
      && (forall k :: k in r.sharing <==> k in ks && k !in Excluded(mode) && SlotOf(slots0, k).query != qid)
      && (forall k :: k in r.sharing ==> SlotOf(r.slots, k).words == multiset(ks)[k])
      && (forall k :: SlotOf(r.slots, k).query == qid <==> k in r.sharing || SlotOf(slots0, k).query == qid)
      && (forall k :: k !in ks ==> SlotOf(r.slots, k) == SlotOf(slots0, k))
      && (forall k :: SlotOf(r.slots, k).score == SlotOf(slots0, k).score)
  {
    ScanFrame(mode, qid, slots0, ks);
    ScanTags(mode, qid, slots0, ks);
    ScanCounts(mode, qid, slots0, ks);
  }

  /** The number of words of `words` whose bucket holds `k`. */
  function SharedWords(b: seq<seq<KFId>>, words: seq<WordId>, k: KFId): (n: nat)
    requires WordsInRange(words, |b|)
    ensures n <= |words|
  {
    if words == [] then 0
    else SharedWords(b, words[..|words| - 1], k) + (if k in b[words[|words| - 1]] then 1 else 0)
  }

  /** A sequence without repetitions holds `k` once or not at all. */
  lemma {:induction false} DistinctMultiplicity(l: seq<KFId>, k: KFId)
    requires Distinct(l)
    ensures multiset(l)[k] == if k in l then 1 else 0
  {
    if l != [] {
      var xs, x := l[..|l| - 1], l[|l| - 1];
      assert l == xs + [x];
      assert x !in xs;
      DistinctMultiplicity(xs, k);
    }
  }

  /** When no bucket repeats a keyframe, the scan meets `k` once for every
      query word whose bucket holds `k`. */
  lemma {:induction false} VisitsCountsSharedWords(b: seq<seq<KFId>>, words: seq<WordId>, k: KFId)
    requires WordsInRange(words, |b|)
    requires forall w :: 0 <= w < |b| ==> Distinct(b[w])
    ensures multiset(Visits(b, words))[k] == SharedWords(b, words, k)
  {
    if words != [] {
      var xs, w := words[..|words| - 1], words[|words| - 1];
      VisitsCountsSharedWords(b, xs, k);
      DistinctMultiplicity(b[w], k);
      assert multiset(Visits(b, words)) == multiset(Visits(b, xs)) + multiset(b[w]);
    }
  }

  // ---------------------------------------------------------------------
  // Stage 2: the common-word threshold

  /** The largest shared-word count over `ks`, starting from 0. */
  function MaxWords(slots: map<KFId, Slot>, ks: seq<KFId>): (max: nat)
  {
    if ks == [] then 0
    else
      var m := MaxWords(slots, ks[..|ks| - 1]);
      var c := SlotOf(slots, ks[|ks| - 1]).words;
      if c > m then c else m
  }

  lemma {:induction false} MaxWordsIsMaximum(slots: map<KFId, Slot>, ks: seq<KFId>)
    ensures forall i :: 0 <= i < |ks| ==> SlotOf(slots, ks[i]).words <= MaxWords(slots, ks)
    ensures MaxWords(slots, ks) == 0 || exists i :: 0 <= i < |ks| && SlotOf(slots, ks[i]).words == MaxWords(slots, ks)
  {
    if ks != [] {
      MaxWordsIsMaximum(slots, ks[..|ks| - 1]);
      assert forall i :: 0 <= i < |ks| - 1 ==> ks[..|ks| - 1][i] == ks[i];
    }
  }

  /** The count a keyframe must strictly exceed to be scored: 0.8 times the
      maximum count, truncated to an integer. */
  function MinCommonWords(maxWords: nat): (r: nat)
    ensures 5 * r <= 4 * maxWords < 5 * r + 5
    ensures maxWords > 0 ==> r < maxWords
  {
    (4 * maxWords) / 5
  }

  // ---------------------------------------------------------------------
  // Stage 3: scoring the keyframes that share enough words

  datatype ScoreState = ScoreState(slots: map<KFId, Slot>, retained: seq<Match>)

  /** A keyframe whose count exceeds `minWords` is scored against the query,
      the score is stored on it, and the pair is retained if the mode keeps
      that score. */
  function ScoreStep(mode: Mode, minWords: nat, score: KFId -> real, st: ScoreState, k: KFId): (next: ScoreState)
  {
    var s := SlotOf(st.slots, k);
    if s.words > minWords then
      var si := score(k);
      ScoreState(st.slots[k := Slot(s.query, s.words, si)],
                 if KeepsScore(mode, si) then st.retained + [Match(si, k)] else st.retained)
    else st
  }

  function Scores(mode: Mode, minWords: nat, score: KFId -> real, st: ScoreState, ks: seq<KFId>): (st': ScoreState)
  {
    if ks == [] then st
    else ScoreStep(mode, minWords, score, Scores(mode, minWords, score, st, ks[..|ks| - 1]), ks[|ks| - 1])
  }

  /** The scoring gate: a pair is retained iff its keyframe is in `ks`, its
      count strictly exceeds `minWords` and the mode keeps its score (for
      loops: score >= minScore); the stored score of every keyframe in `ks`
      above the gate becomes its score, retained or not, and nothing else
      in the slots changes. */
  lemma {:induction false} ScoreFacts(mode: Mode, minWords: nat, score: KFId -> real, slots0: map<KFId, Slot>, ks: seq<KFId>)
    ensures var r := Scores(mode, minWords, score, ScoreState(slots0, []), ks);
      && (forall m :: m in r.retained ==>
            m.kf in ks && SlotOf(slots0, m.kf).words > minWords && m.score == score(m.kf) && KeepsScore(mode, m.score))
      && (forall k :: k in ks && SlotOf(slots0, k).words > minWords && KeepsScore(mode, score(k)) ==>
            Match(score(k), k) in r.retained)
      && (forall k :: SlotOf(r.slots, k) ==
            if k in ks && SlotOf(slots0, k).words > minWords then SlotOf(slots0, k).(score := score(k))
            else SlotOf(slots0, k))
  {
    if ks != [] {
      var xs, x := ks[..|ks| - 1], ks[|ks| - 1];
      assert ks == xs + [x];
      ScoreFacts(mode, minWords, score, slots0, xs);
    }
  }

  /** The retained pairs follow the order of `ks`. */
  lemma {:induction false} ScoresOrder(mode: Mode, minWords: nat, score: KFId -> real, slots0: map<KFId, Slot>, ks: seq<KFId>)
    ensures var r := Scores(mode, minWords, score, ScoreState(slots0, []), ks);
      forall i, j :: 0 <= i < j < |r.retained| ==>
        exists p, q :: 0 <= p < q < |ks| && ks[p] == r.retained[i].kf && ks[q] == r.retained[j].kf
  {
    if ks != [] {
      var xs, x := ks[..|ks| - 1], ks[|ks| - 1];
      ScoresOrder(mode, minWords, score, slots0, xs);
      ScoreFacts(mode, minWords, score, slots0, xs);
      var prev := Scores(mode, minWords, score, ScoreState(slots0, []), xs).retained;
      var cur := Scores(mode, minWords, score, ScoreState(slots0, []), ks).retained;
      assert forall p :: 0 <= p < |xs| ==> xs[p] == ks[p];
      assert cur == prev || cur == prev + [Match(score(x), x)];
      forall i, j | 0 <= i < j < |cur|
        ensures exists p, q :: 0 <= p < q < |ks| && ks[p] == cur[i].kf && ks[q] == cur[j].kf
      {
        if j < |prev| {
          assert cur[i] == prev[i] && cur[j] == prev[j];
          var p, q :| 0 <= p < q < |xs| && xs[p] == prev[i].kf && xs[q] == prev[j].kf;
          assert ks[p] == cur[i].kf && ks[q] == cur[j].kf;
        } else {
          assert cur[i] == prev[i] && cur[j] == Match(score(x), x);
          assert prev[i] in prev;
          var p :| 0 <= p < |xs| && xs[p] == prev[i].kf;
          assert ks[p] == cur[i].kf && ks[|xs|] == cur[j].kf;
        }
      }
    }
  }

  // ---------------------------------------------------------------------
  // Stage 4: accumulating scores over covisibility groups

  /** The first `n` entries of an ordered covisibility list (all of it when
      shorter). */
  function BestCovisibles(ns: seq<KFId>, n: nat): (r: seq<KFId>)
    ensures |r| <= n && |r| <= |ns| && r == ns[..|r|]
    ensures |ns| <= n ==> r == ns
    ensures |ns| > n ==> r == ns[..n]
  {
    if |ns| <= n then ns else ns[..n]
  }

  /** Whether neighbour `n` adds its stored score to the group: it must be
      tagged with the query id and, for loops, also share more than
      `minWords` words; relocalization looks at the tag only. */
  predicate Qualifies(mode: Mode, qid: nat, minWords: nat, slots: map<KFId, Slot>, n: KFId)
  {
    SlotOf(slots, n).query == qid && (mode.Reloc? || SlotOf(slots, n).words > minWords)
  }

  /** Running state of a group: accumulated score, representative and the
      representative's score. */
  datatype Tally = Tally(acc: real, best: KFId, bestScore: real)

  function TallyStep(mode: Mode, qid: nat, minWords: nat, slots: map<KFId, Slot>, t: Tally, n: KFId): (next: Tally)
  {
    if Qualifies(mode, qid, minWords, slots, n) then
      var s := SlotOf(slots, n).score;
      if s > t.bestScore then Tally(t.acc + s, n, s) else Tally(t.acc + s, t.best, t.bestScore)
    else t
  }

  function TallyAll(mode: Mode, qid: nat, minWords: nat, slots: map<KFId, Slot>, t: Tally, ns: seq<KFId>): (t': Tally)
  {
    if ns == [] then t
    else TallyStep(mode, qid, minWords, slots, TallyAll(mode, qid, minWords, slots, t, ns[..|ns| - 1]), ns[|ns| - 1])
  }

  /** The stored scores of the qualifying neighbours in `ns`, in order. */
  function QualifyingScores(mode: Mode, qid: nat, minWords: nat, slots: map<KFId, Slot>, ns: seq<KFId>): (qs: seq<real>)
  {
    if ns == [] then []
    else
      var rest := QualifyingScores(mode, qid, minWords, slots, ns[..|ns| - 1]);
      var n := ns[|ns| - 1];
      if Qualifies(mode, qid, minWords, slots, n) then rest + [SlotOf(slots, n).score] else rest
  }

  function Sum(xs: seq<real>): (total: real)
  {
    if xs == [] then 0.0 else Sum(xs[..|xs| - 1]) + xs[|xs| - 1]
  }

  /** Tallying adds the stored score of every qualifying neighbour. */
  lemma {:induction false} TallySum(mode: Mode, qid: nat, minWords: nat, slots: map<KFId, Slot>, t0: Tally, ns: seq<KFId>)
    ensures TallyAll(mode, qid, minWords, slots, t0, ns).acc == t0.acc + Sum(QualifyingScores(mode, qid, minWords, slots, ns))
  {
    if ns != [] {
      var xs, x := ns[..|ns| - 1], ns[|ns| - 1];
      TallySum(mode, qid, minWords, slots, t0, xs);
      var q := QualifyingScores(mode, qid, minWords, slots, xs);
      if Qualifies(mode, qid, minWords, slots, x) {
        assert (q + [SlotOf(slots, x).score])[..|q|] == q;
      }
    }
  }

  /** The tallied best score is at least the starting one and at least the
      stored score of every qualifying neighbour. */
  lemma {:induction false} TallyBest(mode: Mode, qid: nat, minWords: nat, slots: map<KFId, Slot>, t0: Tally, ns: seq<KFId>)
    ensures var t := TallyAll(mode, qid, minWords, slots, t0, ns);
      && t.bestScore >= t0.bestScore
      && (forall j :: 0 <= j < |ns| && Qualifies(mode, qid, minWords, slots, ns[j]) ==> SlotOf(slots, ns[j]).score <= t.bestScore)
  {
    if ns != [] {
      var xs := ns[..|ns| - 1];
      assert forall j :: 0 <= j < |xs| ==> xs[j] == ns[j];
      TallyBest(mode, qid, minWords, slots, t0, xs);
    }
  }

  /** The representative is the first qualifying neighbour that reaches the
      best score when some neighbour beats the pair's own score, and the
      pair's keyframe otherwise. */
  lemma {:induction false} TallyRepresentative(mode: Mode, qid: nat, minWords: nat, slots: map<KFId, Slot>, m: Match, ns: seq<KFId>)
    ensures var t := TallyAll(mode, qid, minWords, slots, Tally(m.score, m.kf, m.score), ns);
      if exists j :: 0 <= j < |ns| && Qualifies(mode, qid, minWords, slots, ns[j]) && SlotOf(slots, ns[j]).score > m.score
      then exists i :: 0 <= i < |ns| && t.best == ns[i] && Qualifies(mode, qid, minWords, slots, ns[i])
             && SlotOf(slots, ns[i]).score == t.bestScore
             && (forall j :: 0 <= j < i && Qualifies(mode, qid, minWords, slots, ns[j]) ==> SlotOf(slots, ns[j]).score < t.bestScore)
      else t.best == m.kf && t.bestScore == m.score
  {
    if ns != [] {
      var t0 := Tally(m.score, m.kf, m.score);
      var xs, x := ns[..|ns| - 1], ns[|ns| - 1];
      assert forall j :: 0 <= j < |xs| ==> xs[j] == ns[j];
      TallyRepresentative(mode, qid, minWords, slots, m, xs);
      TallyBest(mode, qid, minWords, slots, t0, xs);
      var p := TallyAll(mode, qid, minWords, slots, t0, xs);
      var t := TallyAll(mode, qid, minWords, slots, t0, ns);
      assert t == TallyStep(mode, qid, minWords, slots, p, x);
      if Qualifies(mode, qid, minWords, slots, x) && SlotOf(slots, x).score > p.bestScore {
        assert t.best == ns[|ns| - 1];
      } else if exists j :: 0 <= j < |xs| && Qualifies(mode, qid, minWords, slots, xs[j]) && SlotOf(slots, xs[j]).score > m.score {
        var i :| 0 <= i < |xs| && p.best == xs[i] && Qualifies(mode, qid, minWords, slots, xs[i])
                 && SlotOf(slots, xs[i]).score == p.bestScore
                 && (forall j :: 0 <= j < i && Qualifies(mode, qid, minWords, slots, xs[j]) ==> SlotOf(slots, xs[j]).score < p.bestScore);
        assert t.best == ns[i];
      }
    }
  }

  /** The group of a retained pair: its accumulated score is the pair's own
      score plus the stored scores of all qualifying neighbours; its
      representative is the pair's keyframe unless some qualifying neighbour
      scores strictly higher, in which case it is the first qualifying
      neighbour that reaches the highest score (ties keep the earlier one). */
  lemma TallyFacts(mode: Mode, qid: nat, minWords: nat, slots: map<KFId, Slot>, m: Match, ns: seq<KFId>)
    ensures var t := TallyAll(mode, qid, minWords, slots, Tally(m.score, m.kf, m.score), ns);
      && t.acc == m.score + Sum(QualifyingScores(mode, qid, minWords, slots, ns))
      && t.bestScore >= m.score
      && (forall j :: 0 <= j < |ns| && Qualifies(mode, qid, minWords, slots, ns[j]) ==> SlotOf(slots, ns[j]).score <= t.bestScore)
      && (if exists j :: 0 <= j < |ns| && Qualifies(mode, qid, minWords, slots, ns[j]) && SlotOf(slots, ns[j]).score > m.score
          then exists i :: 0 <= i < |ns| && t.best == ns[i] && Qualifies(mode, qid, minWords, slots, ns[i])
                 && SlotOf(slots, ns[i]).score == t.bestScore
                 && (forall j :: 0 <= j < i && Qualifies(mode, qid, minWords, slots, ns[j]) ==> SlotOf(slots, ns[j]).score < t.bestScore)
          else t.best == m.kf && t.bestScore == m.score)
  {
    var t0 := Tally(m.score, m.kf, m.score);
    TallySum(mode, qid, minWords, slots, t0, ns);
    TallyBest(mode, qid, minWords, slots, t0, ns);
    TallyRepresentative(mode, qid, minWords, slots, m, ns);
  }

  /** The group of retained pair `m`: (accumulated score, representative). */
  function GroupOf(mode: Mode, qid: nat, minWords: nat, slots: map<KFId, Slot>, covisibles: KFId -> seq<KFId>, m: Match): (g: Match)
  {
    var t := TallyAll(mode, qid, minWords, slots, Tally(m.score, m.kf, m.score), BestCovisibles(covisibles(m.kf), NeighbourCount));
    Match(t.acc, t.best)
  }

  function Groups(mode: Mode, qid: nat, minWords: nat, slots: map<KFId, Slot>, covisibles: KFId -> seq<KFId>, ms: seq<Match>): (gs: seq<Match>)
    ensures |gs| == |ms|
  {
    if ms == [] then []
    else Groups(mode, qid, minWords, slots, covisibles, ms[..|ms| - 1]) + [GroupOf(mode, qid, minWords, slots, covisibles, ms[|ms| - 1])]
  }

  lemma {:induction false} GroupsAt(mode: Mode, qid: nat, minWords: nat, slots: map<KFId, Slot>, covisibles: KFId -> seq<KFId>, ms: seq<Match>, i: nat)
    requires i < |ms|
    ensures Groups(mode, qid, minWords, slots, covisibles, ms)[i] == GroupOf(mode, qid, minWords, slots, covisibles, ms[i])
  {
    if i < |ms| - 1 {
      GroupsAt(mode, qid, minWords, slots, covisibles, ms[..|ms| - 1], i);
    }
  }

  /** The best accumulated score, starting from `floor`. */
  function BestAcc(gs: seq<Match>, floor: real): (best: real)
  {
    if gs == [] then floor
    else
      var b := BestAcc(gs[..|gs| - 1], floor);
      if gs[|gs| - 1].score > b then gs[|gs| - 1].score else b
  }

  lemma {:induction false} BestAccIsMaximum(gs: seq<Match>, floor: real)
    ensures BestAcc(gs, floor) >= floor
    ensures forall i :: 0 <= i < |gs| ==> gs[i].score <= BestAcc(gs, floor)
    ensures BestAcc(gs, floor) == floor || exists i :: 0 <= i < |gs| && gs[i].score == BestAcc(gs, floor)
  {
    if gs != [] {
      BestAccIsMaximum(gs[..|gs| - 1], floor);
      assert forall i :: 0 <= i < |gs| - 1 ==> gs[..|gs| - 1][i] == gs[i];
    }
  }

  // ---------------------------------------------------------------------
  // Stage 5: final threshold and deduplication

  /** Representatives of the groups scoring strictly above `threshold`, in
      group order, each kept at its first occurrence only. */
  function Select(gs: seq<Match>, threshold: real): (out: seq<KFId>)
  {
    if gs == [] then []
    else
      var out := Select(gs[..|gs| - 1], threshold);
      var g := gs[|gs| - 1];
      if g.score > threshold && g.kf !in out then out + [g.kf] else out
  }

  lemma {:induction false} SelectFacts(gs: seq<Match>, threshold: real)
    ensures Distinct(Select(gs, threshold))
    ensures forall k :: k in Select(gs, threshold) <==>
              exists i :: 0 <= i < |gs| && gs[i].score > threshold && gs[i].kf == k
  {
    if gs != [] {
      var xs := gs[..|gs| - 1];
      SelectFacts(xs, threshold);
      assert forall i :: 0 <= i < |xs| ==> xs[i] == gs[i];
      forall k | exists i :: 0 <= i < |gs| && gs[i].score > threshold && gs[i].kf == k
        ensures k in Select(gs, threshold)
      {
        var i :| 0 <= i < |gs| && gs[i].score > threshold && gs[i].kf == k;
        if i < |xs| {
          assert xs[i].score > threshold && xs[i].kf == k;
        }
      }
    }
  }

  /** `a` represents a group above `threshold` that comes before every
      group above `threshold` represented by `b`. */
  ghost predicate ComesFirst(gs: seq<Match>, threshold: real, a: KFId, b: KFId)
  {
    exists p :: 0 <= p < |gs| && gs[p].score > threshold && gs[p].kf == a &&
      forall q :: 0 <= q <= p && gs[q].score > threshold ==> gs[q].kf != b
  }

  /** The output follows group order: of two selected keyframes, the earlier
      one represents a group above the threshold before the later one does. */
  lemma {:induction false} SelectOrder(gs: seq<Match>, threshold: real)
    ensures forall i, j :: 0 <= i < j < |Select(gs, threshold)| ==>
              ComesFirst(gs, threshold, Select(gs, threshold)[i], Select(gs, threshold)[j])
  {
    if gs != [] {
      var xs, g := gs[..|gs| - 1], gs[|gs| - 1];
      var prev := Select(xs, threshold);
      var out := Select(gs, threshold);
      SelectOrder(xs, threshold);
      SelectFacts(xs, threshold);
      assert forall p :: 0 <= p < |xs| ==> xs[p] == gs[p];
      assert out == prev || (out == prev + [g.kf] && g.kf !in prev);
      forall i, j | 0 <= i < j < |out|
        ensures ComesFirst(gs, threshold, out[i], out[j])
      {
        if j < |prev| {
          assert out[i] == prev[i] && out[j] == prev[j];
          var p :| 0 <= p < |xs| && xs[p].score > threshold && xs[p].kf == prev[i] &&
                   forall q :: 0 <= q <= p && xs[q].score > threshold ==> xs[q].kf != prev[j];
          assert gs[p].score > threshold && gs[p].kf == out[i];
        } else {
          assert out[i] == prev[i] && out[j] == g.kf;
          assert prev[i] in prev;
          var p :| 0 <= p < |xs| && xs[p].score > threshold && xs[p].kf == prev[i];
          forall q | 0 <= q <= p && gs[q].score > threshold
            ensures gs[q].kf != out[j]
          {
            assert xs[q].kf in prev;
          }
          assert gs[p].score > threshold && gs[p].kf == out[i];
        }
      }
    }
  }

  // ---------------------------------------------------------------------
  // The whole pipeline

  /** The candidates returned by a query and the scratch fields it leaves. */
  datatype Outcome = Outcome(candidates: seq<KFId>, slots: map<KFId, Slot>)

  function ScanOf(mode: Mode, qid: nat, words: seq<WordId>, b: seq<seq<KFId>>, slots0: map<KFId, Slot>): (sc: ScanState)
    requires WordsInRange(words, |b|)
  {
    Scan(mode, qid, ScanState(slots0, []), Visits(b, words))
  }

  function MinWordsOf(mode: Mode, qid: nat, words: seq<WordId>, b: seq<seq<KFId>>, slots0: map<KFId, Slot>): (minWords: nat)
    requires WordsInRange(words, |b|)
  {
    var sc := ScanOf(mode, qid, words, b, slots0);
    MinCommonWords(MaxWords(sc.slots, sc.sharing))
  }

  function ScoredOf(mode: Mode, qid: nat, words: seq<WordId>, b: seq<seq<KFId>>, slots0: map<KFId, Slot>,
                    score: KFId -> real): (sd: ScoreState)
    requires WordsInRange(words, |b|)
  {
    var sc := ScanOf(mode, qid, words, b, slots0);
    Scores(mode, MinWordsOf(mode, qid, words, b, slots0), score, ScoreState(sc.slots, []), sc.sharing)
  }

  function GroupsOf(mode: Mode, qid: nat, words: seq<WordId>, b: seq<seq<KFId>>, slots0: map<KFId, Slot>,
                    score: KFId -> real, covisibles: KFId -> seq<KFId>): (gs: seq<Match>)
    requires WordsInRange(words, |b|)
  {
    var sd := ScoredOf(mode, qid, words, b, slots0, score);
    Groups(mode, qid, MinWordsOf(mode, qid, words, b, slots0), sd.slots, covisibles, sd.retained)
  }

  function ThresholdOf(mode: Mode, qid: nat, words: seq<WordId>, b: seq<seq<KFId>>, slots0: map<KFId, Slot>,
                       score: KFId -> real, covisibles: KFId -> seq<KFId>): (threshold: real)
    requires WordsInRange(words, |b|)
  {
    RetainRatio * BestAcc(GroupsOf(mode, qid, words, b, slots0, score, covisibles), AccFloor(mode))
  }

  /** A query of kind `mode` with id `qid` and words `words` against the
      bucket vector `b`, when the keyframes' scratch fields of that kind
      are `slots0`. */
  function Retrieve(mode: Mode, qid: nat, words: seq<WordId>, b: seq<seq<KFId>>, slots0: map<KFId, Slot>,
                    score: KFId -> real, covisibles: KFId -> seq<KFId>): (o: Outcome)
    requires WordsInRange(words, |b|)
  {
    var gs := GroupsOf(mode, qid, words, b, slots0, score, covisibles);
    Outcome(Select(gs, ThresholdOf(mode, qid, words, b, slots0, score, covisibles)),
            ScoredOf(mode, qid, words, b, slots0, score).slots)
  }
}
