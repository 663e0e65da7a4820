/** Keyframes as seen by the keyframe database: identifier handles, the visual
    words of their bag-of-words vectors, and the per-query scratch fields that
    the two retrieval algorithms write on them. */
module KeyFrames {

  /** Stable identifier of a keyframe (or of a query frame). */
  type KFId = nat

  /** Identifier of a visual word of the vocabulary. */
  type WordId = nat

  /** An entity carrying a bag-of-words vector: a keyframe or a query frame.
      `bow` lists the word ids of the vector in iteration order; the weights
      only matter to the vocabulary scorer, which is a parameter here. */
  datatype KeyFrame = KeyFrame(id: KFId, bow: seq<WordId>)

  /** A bag-of-words vector is a map keyed by word id: its keys are listed
      in strictly increasing order, hence without repetition. */
  predicate IsBowVector(words: seq<WordId>)
  {
    forall i, j :: 0 <= i < j < |words| ==> words[i] < words[j]
  }

  /** Every word id indexes one of `n` buckets. */
  predicate WordsInRange(words: seq<WordId>, n: nat)
  {
    forall i :: 0 <= i < |words| ==> words[i] < n
  }

  predicate Distinct<T(==)>(s: seq<T>)
  {
    forall i, j :: 0 <= i < j < |s| ==> s[i] != s[j]
  }

  /** One kind of scratch fields of one keyframe: the id of the last query
      that tagged it, the number of words it shares with that query, and the
      last similarity score stored on it (mnLoopQuery/mnLoopWords/mLoopScore,
      or the mnReloc* counterparts). */
  datatype Slot = Slot(query: nat, words: nat, score: real)

  /** The fields of a keyframe that no retrieval has written yet. */
  const UntouchedSlot := Slot(0, 0, 0.0)

  function SlotOf(slots: map<KFId, Slot>, k: KFId): (s: Slot)
  {
    if k in slots then slots[k] else UntouchedSlot
  }

  /** The scratch fields of one retrieval kind across all keyframes. They
      live on the keyframes, outside the database, and persist from one
      query to the next. */
  class SlotTable {
    var slots: map<KFId, Slot>

    constructor ()
      ensures slots == map[]
    {
      slots := map[];
    }
  }

}
