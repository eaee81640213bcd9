/**
 * The abstract view of unordered_set<T>'s composite iterator: the set's
 * contents as one sequence per bucket, a cursor (bucket, offset) standing for
 * an iterator, and the two ways of stepping it - the increment as hash.h
 * writes it, and the increment that visits every element once.
 *
 * A cursor Cursor(b, o) stands for the iterator whose bucket pointer is
 * buckets + b and whose list iterator is at position o of bucket b; o equal to
 * the bucket's length is that list's end() (a null list iterator). Bucket
 * |c| is the one-past-the-last sentinel, which holds nothing. Detached stands
 * for the default-constructed iterator, whose two bucket pointers are null.
 */
module Buckets {
  import opened LinkedList

  datatype Cursor = Detached | Cursor(bucket: nat, offset: nat)

  /** The number of elements over all buckets. */
  function TotalSize<T>(c: seq<seq<T>>): nat
  {
    if c == [] then 0 else TotalSize(c[..|c| - 1]) + |c[|c| - 1]|
  }

  /** All elements, bucket after bucket, each bucket in its own order. */
  function Flatten<T>(c: seq<seq<T>>): (s: seq<T>)
    ensures |s| == TotalSize(c)
  {
    if c == [] then [] else Flatten(c[..|c| - 1]) + c[|c| - 1]
  }

  /** The length of bucket b, where the sentinel and anything past it hold nothing. */
  function Len<T>(c: seq<seq<T>>, b: nat): nat
  {
    if b < |c| then |c[b]| else 0
  }

  /** end() of the set: the sentinel bucket with a null list iterator. */
  function End<T>(c: seq<seq<T>>): Cursor
  {
    Cursor(|c|, 0)
  }

  /** The lowest-index non-empty bucket at or after from, or the sentinel |c|. */
  function FirstNonEmpty<T>(c: seq<seq<T>>, from: nat): (b: nat)
    requires from <= |c|
    ensures from <= b <= |c|
    ensures b < |c| ==> c[b] != []
    ensures forall k :: from <= k < b ==> c[k] == []
    decreases |c| - from
  {
    if from == |c| || c[from] != [] then from else FirstNonEmpty(c, from + 1)
  }

  /** *it: the element under the cursor, or the null-dereference error when
      the list iterator is null (end of a bucket, the sentinel, or Detached). */
  function Deref<T>(c: seq<seq<T>>, p: Cursor): (r: Result<T>)
    ensures r.Ok? <==> p.Cursor? && p.bucket < |c| && p.offset < |c[p.bucket]|
    ensures r.Err? ==> r.failure == NullDereference
    ensures r.Ok? ==> r.value == c[p.bucket][p.offset]
  {
    match p
    case Detached => Err(NullDereference)
    case Cursor(b, o) => if b < |c| && o < |c[b]| then Ok(c[b][o]) else Err(NullDereference)
  }

  /** A cursor the corrected iteration can reach: on an element, or end(). */
  ghost predicate OnElementOrEnd<T>(c: seq<seq<T>>, p: Cursor)
  {
    p.Cursor? && ((p.bucket < |c| && p.offset < |c[p.bucket]|) || p == End(c))
  }

  /** The rank of a cursor in Flatten(c): the elements of the earlier buckets, then the offset. */
  function Rank<T>(c: seq<seq<T>>, p: Cursor): nat
    requires p.Cursor? && p.bucket <= |c|
  {
    TotalSize(c[..p.bucket]) + p.offset
  }

  // ---------------------------------------------------------------------
  // begin() and ++ as hash.h writes them
  // ---------------------------------------------------------------------

  /** begin() as written: the first element of the lowest non-empty bucket,
      or the default iterator when every bucket is empty. */
  function BeginAsWritten<T>(c: seq<seq<T>>): (p: Cursor)
    ensures p == Detached <==> forall k :: 0 <= k < |c| ==> c[k] == []
    ensures p.Cursor? ==> p.offset == 0 && p.bucket < |c| && c[p.bucket] != []
    ensures p.Cursor? ==> forall k :: 0 <= k < p.bucket ==> c[k] == []
  {
    var b := FirstNonEmpty(c, 0);
    if b < |c| then Cursor(b, 0) else Detached
  }

  /** ++ as written: the list iterator moves on unless it is null; if it is
      null afterwards and the bucket pointer is not the sentinel, the bucket
      pointer moves on by one and the list iterator stays null. */
  function StepAsWritten<T>(c: seq<seq<T>>, p: Cursor): (q: Cursor)
    ensures q == Detached <==> p == Detached
    ensures p == End(c) ==> q == End(c)
    ensures Deref(c, q).Ok? ==> p.Cursor? && q == Cursor(p.bucket, p.offset + 1)
  {
    match p
    case Detached => Detached
    case Cursor(b, o) =>
      var o' := if o < Len(c, b) then o + 1 else o;
      if o' == Len(c, b) && b != |c| then Cursor(b + 1, Len(c, b + 1)) else Cursor(b, o')
  }

  /** n applications of StepAsWritten. */
  function WalkAsWritten<T>(c: seq<seq<T>>, p: Cursor, n: nat): Cursor
    decreases n
  {
    if n == 0 then p else WalkAsWritten(c, StepAsWritten(c, p), n - 1)
  }

  /** ++ as written moves the bucket pointer by at most one and never past the
      sentinel, and moves it exactly when the list iterator ends up null. */
  lemma StepAsWrittenBounded<T>(c: seq<seq<T>>, p: Cursor)
    requires p.Cursor? && p.bucket <= |c| && p.offset <= Len(c, p.bucket)
    ensures var q := StepAsWritten(c, p);
      && q.Cursor? && q.bucket <= |c| && q.offset <= Len(c, q.bucket)
      && q.bucket == (if p.offset + 1 >= Len(c, p.bucket) && p.bucket < |c| then p.bucket + 1 else p.bucket)
  {
  }

  /** Once the list iterator is null inside a real bucket, ++ as written only
      walks the bucket pointer to the sentinel: no later cursor is on an
      element, and after |c| - b steps it is end(). */
  lemma {:induction false} AsWrittenStaysOffElements<T>(c: seq<seq<T>>, b: nat, n: nat)
    requires b <= |c|
    ensures var q := WalkAsWritten(c, Cursor(b, Len(c, b)), n);
      && Deref(c, q).Err?
      && q == (if b + n < |c| then Cursor(b + n, Len(c, b + n)) else End(c))
    decreases n
  {
    if n > 0 {
      if b < |c| {
        AsWrittenStaysOffElements(c, b + 1, n - 1);
      } else {
        AsWrittenStaysOffElements(c, b, n - 1);
      }
    }
  }

  /** The iteration as written from begin(): the first n steps dereference the
      elements of the lowest non-empty bucket f in order; every later cursor
      dereferences null, and the iteration reaches end() after |c| - f - 1
      further steps. The other buckets' elements are never reached. */
  lemma {:induction false} AsWrittenWalk<T>(c: seq<seq<T>>, n: nat)
    requires BeginAsWritten(c).Cursor?
    ensures var f := BeginAsWritten(c).bucket;
      var q := WalkAsWritten(c, BeginAsWritten(c), n);
      && (n < |c[f]| ==> q == Cursor(f, n) && Deref(c, q) == Ok(c[f][n]))
      && (n >= |c[f]| ==> Deref(c, q).Err?)
      && (n >= |c[f]| + |c| - f - 1 ==> q == End(c))
  {
    var f := BeginAsWritten(c).bucket;
    WalkInBucket(c, f, 0, n);
  }

  /** Helper of AsWrittenWalk: stepping as written from offset o of bucket f. */
  lemma {:induction false} WalkInBucket<T>(c: seq<seq<T>>, f: nat, o: nat, n: nat)
    requires f < |c| && o < |c[f]|
    ensures var q := WalkAsWritten(c, Cursor(f, o), n);
      && (o + n < |c[f]| ==> q == Cursor(f, o + n))
      && (o + n >= |c[f]| ==> Deref(c, q).Err?)
      && (o + n >= |c[f]| + |c| - f - 1 ==> q == End(c))
    decreases n
  {
    if n > 0 {
      if o + 1 < |c[f]| {
        WalkInBucket(c, f, o + 1, n - 1);
      } else {
        AsWrittenStaysOffElements(c, f + 1, n - 1);
      }
    }
  }

  /** begin() as written on a set whose buckets are all empty gives the
      default iterator; ++ leaves it where it is, so it never becomes end(). */
  lemma {:induction false} AsWrittenEmptyNeverEnds<T>(c: seq<seq<T>>, n: nat)
    requires forall k :: 0 <= k < |c| ==> c[k] == []
    ensures WalkAsWritten(c, BeginAsWritten(c), n) == Detached != End(c)
    decreases n
  {
    if n > 0 {
      AsWrittenEmptyNeverEnds(c, n - 1);
    }
  }

  /** A concrete set exhibiting the skipped elements: 1 in bucket 0, 2 in bucket
      1. The set holds two elements, the iteration as written reaches end()
      after ten steps, and no step ever dereferences 2. */
  lemma AsWrittenSkipsSecondBucket()
    ensures var c: seq<seq<int>> := [[1], [2], [], [], [], [], [], [], [], []];
      && Flatten(c) == [1, 2]
      && WalkAsWritten(c, BeginAsWritten(c), 10) == End(c)
      && forall n :: Deref(c, WalkAsWritten(c, BeginAsWritten(c), n)) != Ok(2)
  {
    var c: seq<seq<int>> := [[1], [2], [], [], [], [], [], [], [], []];
    TrailingEmpty(c, 2);
    assert c[..2][..1] == [[1]] && [[1]][..0] == [];
    forall n: nat
      ensures Deref(c, WalkAsWritten(c, BeginAsWritten(c), n)) != Ok(2)
    {
      AsWrittenWalk(c, n);
    }
    AsWrittenWalk(c, 10);
  }

  // ---------------------------------------------------------------------
  // begin() and ++ as evidently intended
  // ---------------------------------------------------------------------

  /** begin() corrected: the first element of the lowest non-empty bucket, or
      end() when every bucket is empty. */
  function BeginCorrected<T>(c: seq<seq<T>>): (p: Cursor)
    ensures OnElementOrEnd(c, p) && Rank(c, p) == 0
    ensures p == End(c) <==> forall k :: 0 <= k < |c| ==> c[k] == []
  {
    var b := FirstNonEmpty(c, 0);
    EmptyPrefix(c, b);
    Cursor(b, 0)
  }

  /** ++ corrected: on to the next element of the bucket, else to the first
      element of the next non-empty bucket, else to end(); end() stays end(). */
  function StepCorrected<T>(c: seq<seq<T>>, p: Cursor): (q: Cursor)
    ensures q == Detached <==> p == Detached
    ensures p == End(c) ==> q == End(c)
    ensures Deref(c, p).Ok? ==> OnElementOrEnd(c, q) && q != p
  {
    match p
    case Detached => Detached
    case Cursor(b, o) =>
      if b < |c| && o + 1 < |c[b]| then Cursor(b, o + 1)
      else if b < |c| && o < |c[b]| then Cursor(FirstNonEmpty(c, b + 1), 0)
      else p
  }

  /** n applications of StepCorrected. */
  function WalkCorrected<T>(c: seq<seq<T>>, p: Cursor, n: nat): Cursor
    decreases n
  {
    if n == 0 then p else WalkCorrected(c, StepCorrected(c, p), n - 1)
  }

  /** The corrected ++ moves an element cursor to the next rank in Flatten(c)
      and keeps it on an element or at end(). */
  lemma StepCorrectedAdvances<T>(c: seq<seq<T>>, p: Cursor)
    requires OnElementOrEnd(c, p) && p != End(c)
    ensures OnElementOrEnd(c, StepCorrected(c, p))
    ensures Rank(c, StepCorrected(c, p)) == Rank(c, p) + 1
  {
    var b := p.bucket;
    if p.offset + 1 >= |c[b]| {
      var b' := FirstNonEmpty(c, b + 1);
      PrefixStep(c, b);
      EmptyStretch(c, b + 1, b');
    }
  }

  /** A cursor on an element or at end() has rank at most TotalSize(c), and
      equal to it exactly at end(). */
  lemma RankBound<T>(c: seq<seq<T>>, p: Cursor)
    requires OnElementOrEnd(c, p)
    ensures Rank(c, p) <= TotalSize(c)
    ensures Rank(c, p) == TotalSize(c) <==> p == End(c)
  {
    assert c[..|c|] == c;
    if p.bucket < |c| {
      PrefixStep(c, p.bucket);
      PrefixMonotone(c, p.bucket + 1, |c|);
    }
  }

  /** The element under a cursor is the element of Flatten(c) at its rank. */
  lemma DerefIsFlattenAt<T>(c: seq<seq<T>>, p: Cursor)
    requires OnElementOrEnd(c, p) && p != End(c)
    ensures Rank(c, p) < TotalSize(c)
    ensures Deref(c, p) == Ok(Flatten(c)[Rank(c, p)])
  {
    RankBound(c, p);
    FlattenAt(c, p.bucket, p.offset);
  }

  /** The corrected iteration from begin(): step k (k < TotalSize(c)) is on
      the k-th element of Flatten(c), and step TotalSize(c) is end(). Every
      element is visited once, in bucket order, and the iteration ends. */
  lemma {:induction false} CorrectedWalk<T>(c: seq<seq<T>>, k: nat)
    requires k <= TotalSize(c)
    ensures var q := WalkCorrected(c, BeginCorrected(c), k);
      && OnElementOrEnd(c, q) && Rank(c, q) == k
      && (k < TotalSize(c) ==> Deref(c, q) == Ok(Flatten(c)[k]))
      && (k == TotalSize(c) ==> q == End(c))
  {
    var p := BeginCorrected(c);
    WalkFrom(c, p, k);
    var q := WalkCorrected(c, p, k);
    RankBound(c, q);
    if k < TotalSize(c) {
      DerefIsFlattenAt(c, q);
    }
  }

  /** Helper of CorrectedWalk: n corrected steps add n to the rank. */
  lemma {:induction false} WalkFrom<T>(c: seq<seq<T>>, p: Cursor, n: nat)
    requires OnElementOrEnd(c, p) && Rank(c, p) + n <= TotalSize(c)
    ensures OnElementOrEnd(c, WalkCorrected(c, p, n))
    ensures Rank(c, WalkCorrected(c, p, n)) == Rank(c, p) + n
    decreases n
  {
    if n > 0 {
      RankBound(c, p);
      StepCorrectedAdvances(c, p);
      WalkFrom(c, StepCorrected(c, p), n - 1);
    }
  }

  // ---------------------------------------------------------------------
  // Facts about TotalSize and Flatten
  // ---------------------------------------------------------------------

  /** The set is empty exactly when every bucket is. */
  lemma {:induction false} TotalSizeZero<T>(c: seq<seq<T>>)
    ensures TotalSize(c) == 0 <==> forall k :: 0 <= k < |c| ==> c[k] == []
    decreases |c|
  {
    if c != [] {
      var init := c[..|c| - 1];
      TotalSizeZero(init);
      assert forall k :: 0 <= k < |init| ==> init[k] == c[k];
    }
  }

  /** Adding bucket b to a prefix adds its length. */
  lemma PrefixStep<T>(c: seq<seq<T>>, b: nat)
    requires b < |c|
    ensures TotalSize(c[..b + 1]) == TotalSize(c[..b]) + |c[b]|
  {
    assert c[..b + 1][..b] == c[..b];
  }

  /** Longer prefixes hold at least as many elements. */
  lemma {:induction false} PrefixMonotone<T>(c: seq<seq<T>>, a: nat, b: nat)
    requires a <= b <= |c|
    ensures TotalSize(c[..a]) <= TotalSize(c[..b])
    decreases b - a
  {
    if a < b {
      PrefixStep(c, a);
      PrefixMonotone(c, a + 1, b);
    }
  }

  /** Empty buckets from a to b add nothing to a prefix. */
  lemma {:induction false} EmptyStretch<T>(c: seq<seq<T>>, a: nat, b: nat)
    requires a <= b <= |c|
    requires forall k :: a <= k < b ==> c[k] == []
    ensures TotalSize(c[..a]) == TotalSize(c[..b])
    decreases b - a
  {
    if a < b {
      PrefixStep(c, a);
      EmptyStretch(c, a + 1, b);
    }
  }

  /** The prefix before the lowest non-empty bucket holds nothing. */
  lemma EmptyPrefix<T>(c: seq<seq<T>>, b: nat)
    requires b <= |c| && forall k :: 0 <= k < b ==> c[k] == []
    ensures TotalSize(c[..b]) == 0
    ensures b == |c| ==> TotalSize(c) == 0
  {
    EmptyStretch(c, 0, b);
    assert c[..0] == [];
    assert c[..|c|] == c;
  }

  /** Empty buckets at the end add nothing to Flatten(c). */
  lemma {:induction false} TrailingEmpty<T>(c: seq<seq<T>>, b: nat)
    requires b <= |c| && forall k :: b <= k < |c| ==> c[k] == []
    ensures Flatten(c) == Flatten(c[..b])
    decreases |c| - b
  {
    if b < |c| {
      var init := c[..|c| - 1];
      TrailingEmpty(init, b);
      assert init[..b] == c[..b];
    } else {
      assert c[..b] == c;
    }
  }

  /** Element o of bucket b sits at rank TotalSize(c[..b]) + o of Flatten(c). */
  lemma {:induction false} FlattenAt<T>(c: seq<seq<T>>, b: nat, o: nat)
    requires b < |c| && o < |c[b]|
    ensures TotalSize(c[..b]) + o < |Flatten(c)|
    ensures Flatten(c)[TotalSize(c[..b]) + o] == c[b][o]
    decreases |c|
  {
    var init := c[..|c| - 1];
    if b == |c| - 1 {
      assert c[..b] == init;
    } else {
      FlattenAt(init, b, o);
      assert init[..b] == c[..b];
      assert init[b] == c[b];
    }
  }
}
