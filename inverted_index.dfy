/** The inverted file of the keyframe database as a value: one bucket per
    visual word, each bucket the list of keyframes filed under that word.
    The functions here specify what the database's mutating methods do to
    the bucket vector; the lemmas state what those updates guarantee. */
module InvertedIndex {
  import opened KeyFrames

  type Buckets = seq<seq<KFId>>

  /** A bucket vector sized to a vocabulary of `n` words, every bucket empty. */
  function EmptyIndex(n: nat): (b: Buckets)
    ensures |b| == n
    ensures forall w :: 0 <= w < n ==> b[w] == []
  {
    seq(n, _ => [])
  }

  /** The bucket vector after `id` is appended to the bucket of every word
      of `bow`; the other buckets are left as they were. */
  function AddToIndex(b: Buckets, id: KFId, bow: seq<WordId>): (r: Buckets)
    ensures |r| == |b|
  {
    seq(|b|, w requires 0 <= w < |b| => if w in bow then b[w] + [id] else b[w])
  }

  /** `l` without its first occurrence of `x` (unchanged when `x` is absent). */
  function RemoveFirst(l: seq<KFId>, x: KFId): (rest: seq<KFId>)
  {
    if l == [] then []
    else if l[0] == x then l[1..]
    else [l[0]] + RemoveFirst(l[1..], x)
  }

  /** The bucket vector after the first occurrence of `id` is removed from
      the bucket of every word of `bow`. */
  function EraseFromIndex(b: Buckets, id: KFId, bow: seq<WordId>): (r: Buckets)
    ensures |r| == |b|
  {
    seq(|b|, w requires 0 <= w < |b| => if w in bow then RemoveFirst(b[w], id) else b[w])
  }

  /** Removing the first occurrence at position `j` splices out exactly that
      entry and keeps the order of all the others. */
  lemma {:induction false} RemoveFirstAt(l: seq<KFId>, x: KFId, j: nat)
    requires j < |l| && l[j] == x && x !in l[..j]
    ensures RemoveFirst(l, x) == l[..j] + l[j + 1..]
  {
    if j > 0 {
      assert l[0] != x by { assert l[0] == l[..j][0]; }
      assert x !in l[1..][..j - 1] by { assert l[1..][..j - 1] == l[..j][1..]; }
      RemoveFirstAt(l[1..], x, j - 1);
      assert l[..j] == [l[0]] + l[1..][..j - 1];
      assert l[j + 1..] == l[1..][j..];
    }
  }

  /** A bucket that does not hold `x` is left unchanged. */
  lemma {:induction false} RemoveFirstAbsent(l: seq<KFId>, x: KFId)
    requires x !in l
    ensures RemoveFirst(l, x) == l
  {
    if l != [] {
      assert l[0] != x;
      assert x !in l[1..];
      RemoveFirstAbsent(l[1..], x);
      assert l == [l[0]] + l[1..];
    }
  }

  /** Appending `x` and then removing its first occurrence restores `l`,
      provided `x` was not already in `l`. */
  lemma RemoveFirstUndoesAppend(l: seq<KFId>, x: KFId)
    requires x !in l
    ensures RemoveFirst(l + [x], x) == l
  {
    assert (l + [x])[..|l|] == l;
    RemoveFirstAt(l + [x], x, |l|);
    assert (l + [x])[|l| + 1..] == [];
  }

  /** On a bucket without repetitions, removing the first occurrence removes
      every occurrence, and the bucket stays without repetitions. */
  lemma {:induction false} RemoveFirstOfDistinct(l: seq<KFId>, x: KFId)
    requires Distinct(l)
    ensures Distinct(RemoveFirst(l, x))
    ensures forall y :: y in RemoveFirst(l, x) <==> y in l && y != x
  {
    if l != [] {
      assert Distinct(l[1..]);
      assert l[0] !in l[1..];
      if l[0] != x {
        RemoveFirstOfDistinct(l[1..], x);
        var r := RemoveFirst(l[1..], x);
        assert RemoveFirst(l, x) == [l[0]] + r;
        assert l == [l[0]] + l[1..];
      }
    }
  }

  /** `add` followed by `erase` of a keyframe that was not yet filed under
      any of its words restores the index exactly. */
  lemma EraseUndoesAdd(b: Buckets, kf: KeyFrame)
    requires WordsInRange(kf.bow, |b|)
    requires forall i :: 0 <= i < |kf.bow| ==> kf.id !in b[kf.bow[i]]
    ensures EraseFromIndex(AddToIndex(b, kf.id, kf.bow), kf.id, kf.bow) == b
  {
    var a := AddToIndex(b, kf.id, kf.bow);
    var e := EraseFromIndex(a, kf.id, kf.bow);
    forall w | 0 <= w < |b|
      ensures e[w] == b[w]
    {
      if w in kf.bow {
        var i :| 0 <= i < |kf.bow| && kf.bow[i] == w;
        RemoveFirstUndoesAppend(b[w], kf.id);
      }
    }
  }

  /** The exact-index invariant: keyframe `k` is filed under word `w` iff
      `w` is a word of the bag-of-words vector recorded for `k` in `bows`,
      and no bucket holds a keyframe twice. */
  ghost predicate IndexOf(b: Buckets, bows: map<KFId, seq<WordId>>)
  {
    && (forall w, k :: 0 <= w < |b| ==> (k in b[w] <==> k in bows && w in bows[k]))
    && (forall w :: 0 <= w < |b| ==> Distinct(b[w]))
  }

  /** A fresh (or cleared) index is the exact index of no keyframe. */
  lemma EmptyIndexOfNothing(n: nat)
    ensures IndexOf(EmptyIndex(n), map[])
  {
  }

  /** `add` of a keyframe not yet indexed keeps the exact-index invariant. */
  lemma AddKeepsIndex(b: Buckets, bows: map<KFId, seq<WordId>>, kf: KeyFrame)
    requires IndexOf(b, bows) && kf.id !in bows
    ensures IndexOf(AddToIndex(b, kf.id, kf.bow), bows[kf.id := kf.bow])
  {
    var a := AddToIndex(b, kf.id, kf.bow);
    forall w | 0 <= w < |b|
      ensures Distinct(a[w])
    {
      if w in kf.bow {
        assert kf.id !in b[w];
        assert a[w] == b[w] + [kf.id];
      }
    }
  }

  /** `erase` of an indexed keyframe, with the bag-of-words vector it was
      added with, keeps the exact-index invariant. */
  lemma EraseKeepsIndex(b: Buckets, bows: map<KFId, seq<WordId>>, id: KFId)
    requires IndexOf(b, bows) && id in bows
    ensures IndexOf(EraseFromIndex(b, id, bows[id]), bows - {id})
  {
    var e := EraseFromIndex(b, id, bows[id]);
    forall w | 0 <= w < |b|
      ensures Distinct(e[w])
      ensures forall k :: k in e[w] <==> k in b[w] && k != id
    {
      if w in bows[id] {
        RemoveFirstOfDistinct(b[w], id);
      } else {
        assert id !in b[w];
      }
    }
  }
}
