/**
 * custom::unordered_set<T>: exactly ten buckets, each a custom::list<T>, and
 * an element count. The set's abstract value is the ghost sequence Contents,
 * one sequence per bucket; Valid() says the set owns its ten lists, whose
 * footprints are pairwise disjoint, and that the count is the total of the
 * bucket sizes.
 *
 * The set iterator holds a bucket pointer, the one-past-the-last bucket
 * pointer and a list iterator. Bucket pointers into the array are modelled
 * as indices (At(10) is buckets + 10) and the null pointer as Null.
 */
module Hash {
  import opened LinkedList
  import opened Buckets

  /** The fixed size of the bucket array. */
  const BucketCount: nat := 10

  /** A pointer into the bucket array: null, or buckets + index. */
  datatype BucketPtr = Null | At(index: nat)

  /** unordered_set<T>::iterator */
  datatype Iterator<T> = Iterator(pBucket: BucketPtr, pBucketEnd: BucketPtr, itList: Node?<T>)

  /** unordered_set<T>::local_iterator: a list iterator into one bucket. */
  datatype LocalIterator<T> = LocalIterator(itList: Node?<T>)

  /** The lists own pairwise disjoint footprints. */
  ghost predicate Separate<T>(ls: seq<List<T>>)
    reads ls
  {
    forall i, j :: 0 <= i < j < |ls| ==> ls[i].Repr !! ls[j].Repr
  }

  /** The lists of ls are valid, own pairwise disjoint footprints inside R,
      and hold C, one sequence per list. */
  ghost predicate Holds<T>(ls: seq<List<T>>, C: seq<seq<T>>, R: set<object>)
    reads ls, R
  {
    && |ls| == |C|
    && (forall i :: 0 <= i < |ls| ==> ls[i] in R && ls[i].Repr <= R)
    && Separate(ls)
    && (forall i :: 0 <= i < |ls| ==> ls[i].Valid() && ls[i].Contents == C[i])
  }

  /** Holds depends on nothing outside R. */
  twostate lemma HoldsKept<T>(new ls: seq<List<T>>, new C: seq<seq<T>>, new R: set<object>)
    requires old(allocated(ls))
    requires old(allocated(C))
    requires old(allocated(R))
    requires old(Holds(ls, C, R))
    requires unchanged(R)
    ensures Holds(ls, C, R)
  {
  }

  /** Ten empty sequences: what ten default-constructed lists hold. */
  ghost function NoElements<T>(): (C: seq<seq<T>>)
    ensures |C| == BucketCount && forall i :: 0 <= i < |C| ==> C[i] == []
  {
    seq(BucketCount, _ => [])
  }

  /** custom::list<T> buckets[10] default-constructed: ten fresh empty lists,
      owning nothing but themselves, gathered in fp. */
  method NewBuckets<T>() returns (bs: seq<List<T>>, ghost fp: set<object>)
    ensures Holds(bs, NoElements(), fp) && fresh(fp)
  {
    bs, fp := [], {};
    for i := 0 to BucketCount
      invariant |bs| == i && fresh(fp)
      invariant forall j :: 0 <= j < i ==> bs[j] in fp && bs[j].Repr == {bs[j]} && bs[j].Valid() && bs[j].Contents == []
      invariant forall j, k :: 0 <= j < k < i ==> bs[j] != bs[k]
    {
      var b := new List();
      bs, fp := bs + [b], fp + {b};
    }
  }

  /** One step of the copy loop: the list dst[i] is copy-assigned from src[i]
      and no other list changes; added holds the nodes it allocated. */
  method AssignAt<T>(dst: seq<List<T>>, src: seq<List<T>>, i: nat, ghost C: seq<seq<T>>, ghost Cs: seq<seq<T>>,
                     ghost R: set<object>, ghost S: set<object>) returns (ghost added: set<object>)
    requires i < |dst| && Holds(dst, C, R) && Holds(src, Cs, S) && |dst| == |src| && R !! S
    modifies dst[i].Repr
    ensures Holds(dst, C[i := Cs[i]], R + added) && fresh(added)
  {
    dst[i].Assign(src[i]);
    added := dst[i].Repr - old(dst[i].Repr);
  }

  /** The loop for (i = 0; i < 10; i++) dst[i] = src[i]: each list of dst is
      copy-assigned from the list of src at the same index. R and S are what
      the two arrays own; added holds the nodes the loop allocated. */
  method AssignAll<T>(dst: seq<List<T>>, src: seq<List<T>>, ghost Cd: seq<seq<T>>, ghost Cs: seq<seq<T>>,
                      ghost R: set<object>, ghost S: set<object>) returns (ghost added: set<object>)
    requires Holds(dst, Cd, R) && Holds(src, Cs, S) && |dst| == |src| && R !! S
    modifies R
    ensures Holds(dst, Cs, R + added) && Holds(src, Cs, S) && fresh(added)
  {
    ghost var C := Cd;
    added := {};
    for i := 0 to |dst|
      invariant Holds(dst, C, R + added) && Holds(src, Cs, S) && fresh(added)
      invariant forall j :: 0 <= j < i ==> C[j] == Cs[j]
    {
      ghost var more := AssignAt(dst, src, i, C, Cs, R + added, S);
      C, added := C[i := Cs[i]], added + more;
    }
    assert C == Cs;
  }

  /** AssignAll, with a third array of lists, owning O, left as it was. */
  method AssignKeeping<T>(dst: seq<List<T>>, src: seq<List<T>>, other: seq<List<T>>,
                          ghost Cd: seq<seq<T>>, ghost Cs: seq<seq<T>>, ghost Co: seq<seq<T>>,
                          ghost R: set<object>, ghost S: set<object>, ghost O: set<object>) returns (ghost added: set<object>)
    requires Holds(dst, Cd, R) && Holds(src, Cs, S) && Holds(other, Co, O) && |dst| == |src| && R !! S && R !! O
    modifies R
    ensures Holds(dst, Cs, R + added) && Holds(src, Cs, S) && Holds(other, Co, O) && fresh(added)
  {
    added := AssignAll(dst, src, Cd, Cs, R, S);
    assert Holds(other, Co, O);
  }

  /** The ten temporary lists of swap(rhs): fresh lists copy-assigned from ls. */
  method Duplicate<T>(ls: seq<List<T>>, ghost C: seq<seq<T>>, ghost L: set<object>) returns (temp: seq<List<T>>, ghost T: set<object>)
    requires Holds(ls, C, L) && |ls| == BucketCount
    ensures Holds(temp, C, T) && fresh(T)
  {
    ghost var fp;
    temp, fp := NewBuckets();
    ghost var added := AssignAll(temp, ls, NoElements(), C, fp, L);
    T := fp + added;
  }

  /** The three loops of swap(rhs): ls copied into temporaries, rs into ls,
      the temporaries into rs. L' and S' are what ls and rs own afterwards. */
  method Rotate<T>(ls: seq<List<T>>, rs: seq<List<T>>, ghost C: seq<seq<T>>, ghost D: seq<seq<T>>,
                   ghost L: set<object>, ghost S: set<object>) returns (ghost L': set<object>, ghost S': set<object>)
    requires Holds(ls, C, L) && Holds(rs, D, S) && L !! S && |ls| == |rs| == BucketCount
    modifies L, S
    ensures Holds(ls, D, L') && Holds(rs, C, S') && L' !! S'
    ensures L' == L + (L' - L) && S' == S + (S' - S) && fresh(L' - L) && fresh(S' - S)
  {
    var temp, T := Duplicate(ls, C, L);
    assert Holds(ls, C, L) && Holds(rs, D, S);
    ghost var a2 := AssignKeeping(ls, rs, temp, C, D, C, L, S, T);
    ghost var a3 := AssignKeeping(rs, temp, ls, D, C, D, S, T, L + a2);
    L', S' := L + a2, S + a3;
  }

  /** One step of clear()'s loop: the list ls[i] is cleared. */
  method ClearOne<T>(ls: seq<List<T>>, i: nat, ghost C: seq<seq<T>>, ghost R: set<object>)
    requires i < |ls| && Holds(ls, C, R)
    modifies ls[i]
    ensures Holds(ls, C[i := []], R)
  {
    ghost var released := ls[i].Clear();
  }

  class UnorderedSet<T> {
    const buckets: seq<List<T>>
    var numElements: nat

    ghost var Contents: seq<seq<T>>
    ghost var Repr: set<object>

    /** The set owns its ten lists, which are valid, disjoint and hold Contents. */
    ghost predicate Owns()
      reads this, buckets, Repr
    {
      this in Repr && |buckets| == BucketCount && Holds(buckets, Contents, Repr - {this})
    }

    /** The set invariant: numElements is the total of the bucket sizes. */
    ghost predicate Valid()
      reads this, buckets, Repr
      ensures Valid() ==> this in Repr
    {
      Owns() && numElements == TotalSize(Contents)
    }

    /** The set invariant, from a footprint L of the buckets without this. */
    lemma Settled(L: set<object>)
      requires this !in L && Repr == {this} + L && |buckets| == BucketCount
      requires Holds(buckets, Contents, L) && numElements == TotalSize(Contents)
      ensures Valid()
    {
      assert Repr - {this} == L;
    }

    /** A set none of whose objects changed is still valid. */
    twostate lemma Untouched()
      requires old(Valid()) && unchanged(this) && unchanged(buckets) && unchanged(Repr)
      ensures Valid()
    {
    }

    /** unordered_set(): ten empty buckets and a zero count. */
    constructor ()
      ensures Valid() && fresh(Repr)
      ensures numElements == 0 && forall i :: 0 <= i < |Contents| ==> Contents[i] == []
    {
      var bs, fp := NewBuckets();
      buckets := bs;
      numElements := 0;
      Contents := NoElements();
      Repr := {this} + fp;
      new;
      TotalSizeZero(Contents);
      Settled(fp);
    }

    /** unordered_set(unordered_set& rhs): the count of rhs, then each bucket
        copy-assigned from rhs's bucket at the same index. */
    constructor Copy(rhs: UnorderedSet<T>)
      requires rhs.Valid()
      ensures Valid() && fresh(Repr)
      ensures Contents == rhs.Contents && numElements == rhs.numElements
    {
      var bs, B := Duplicate(rhs.buckets, rhs.Contents, rhs.Repr - {rhs});
      buckets := bs;
      numElements := rhs.numElements;
      Contents := rhs.Contents;
      Repr := {this} + B;
      new;
      Settled(B);
    }

    /** operator=(unordered_set& rhs): each bucket copy-assigned from rhs's,
        then the count copied. */
    method Assign(rhs: UnorderedSet<T>)
      requires Valid() && rhs.Valid() && Repr !! rhs.Repr
      modifies Repr
      ensures Valid() && fresh(Repr - old(Repr)) && Repr !! rhs.Repr
      ensures Contents == old(rhs.Contents) && numElements == old(rhs.numElements)
      ensures rhs.Valid() && rhs.Contents == old(rhs.Contents) && rhs.Repr == old(rhs.Repr)
    {
      ghost var R := Repr - {this};
      ghost var added := AssignAll(buckets, rhs.buckets, Contents, rhs.Contents, R, rhs.Repr - {rhs});
      label Copied:
      numElements, Contents, Repr := rhs.numElements, rhs.Contents, Repr + added;
      HoldsKept@Copied(buckets, Contents, R + added);
      assert Repr - {this} == R + added;
      rhs.Untouched();
    }

    /** swap(rhs): this set's buckets are copied into ten temporary lists, rhs's
        buckets are copied into this set's, the temporaries into rhs's, and the
        counts are exchanged. */
    method Swap(rhs: UnorderedSet<T>)
      requires Valid() && rhs.Valid() && Repr !! rhs.Repr
      modifies Repr, rhs.Repr
      ensures Valid() && rhs.Valid() && Repr !! rhs.Repr
      ensures fresh(Repr - old(Repr)) && fresh(rhs.Repr - old(rhs.Repr))
      ensures Contents == old(rhs.Contents) && rhs.Contents == old(Contents)
      ensures numElements == old(rhs.numElements) && rhs.numElements == old(numElements)
    {
      ghost var C, D := Contents, rhs.Contents;
      ghost var L, S := Rotate(buckets, rhs.buckets, C, D, Repr - {this}, rhs.Repr - {rhs});
      assert this !in L + S && rhs !in L + S && this != rhs;
      SwapCounts(rhs, L, S);
    }

    /** The end of swap(rhs): the counts are exchanged, and each set takes
        over the contents its buckets now hold. */
    method SwapCounts(rhs: UnorderedSet<T>, ghost L: set<object>, ghost S: set<object>)
      requires this != rhs && this !in L + S && rhs !in L + S && L !! S && |buckets| == |rhs.buckets| == BucketCount
      requires Holds(buckets, rhs.Contents, L) && Holds(rhs.buckets, Contents, S)
      requires numElements == TotalSize(Contents) && rhs.numElements == TotalSize(rhs.Contents)
      modifies this, rhs
      ensures Valid() && rhs.Valid() && Repr == {this} + L && rhs.Repr == {rhs} + S && Repr !! rhs.Repr
      ensures Contents == old(rhs.Contents) && rhs.Contents == old(Contents)
      ensures numElements == old(rhs.numElements) && rhs.numElements == old(numElements)
    {
      assert {this} + L !! {rhs} + S;
      var temp := numElements;
      numElements := rhs.numElements;
      rhs.numElements := temp;
      Contents, rhs.Contents := rhs.Contents, Contents;
      Repr, rhs.Repr := {this} + L, {rhs} + S;
      HoldsKept(buckets, Contents, L);
      HoldsKept(rhs.buckets, rhs.Contents, S);
      Settled(L);
      rhs.Settled(S);
    }

    /** clear(): every bucket cleared, then the count set to zero. */
    method Clear()
      requires Valid()
      modifies Repr
      ensures Valid() && Repr == old(Repr)
      ensures numElements == 0 && |Contents| == BucketCount
      ensures forall i :: 0 <= i < |Contents| ==> Contents[i] == []
    {
      ghost var R, C := Repr - {this}, Contents;
      for i := 0 to BucketCount
        modifies R
        invariant Holds(buckets, C, R)
        invariant forall j :: 0 <= j < i ==> C[j] == []
      {
        ClearOne(buckets, i, C, R);
        C := C[i := []];
      }
      label Cleared:
      numElements := 0;
      Contents := C;
      HoldsKept@Cleared(buckets, C, R);
      TotalSizeZero(C);
      Settled(R);
    }

    /** size() */
    function Size(): (n: nat)
      reads this, Repr
      requires Valid()
      ensures n == TotalSize(Contents) && n == |Flatten(Contents)|
    {
      numElements
    }

    /** empty(): the count is not positive, which happens exactly when every
        bucket is empty. */
    function Empty(): (b: bool)
      reads this, Repr
      requires Valid()
      ensures b <==> Size() == 0
      ensures b <==> forall i :: 0 <= i < |Contents| ==> Contents[i] == []
    {
      TotalSizeZero(Contents);
      numElements <= 0
    }

    /** bucket_count(): the number of buckets. */
    function BucketCountOf(): (n: nat)
      reads this, Repr
      requires Valid()
      ensures n == |buckets| == |Contents| == BucketCount
    {
      10
    }

    /** bucket_size(i): the size of bucket i. */
    function BucketSize(i: nat): (n: nat)
      reads this, Repr
      requires Valid() && i < BucketCount
      ensures n == |Contents[i]|
    {
      buckets[i].Size()
    }

    /** An iterator this set can have handed out: the default iterator, or a
        bucket pointer at most buckets + 10 with the sentinel as its end and a
        list iterator into that bucket (null in the sentinel). */
    ghost predicate Points(it: Iterator<T>)
      reads this, Repr
      requires Valid()
    {
      match it.pBucket
      case Null => it.pBucketEnd == Null && it.itList == null
      case At(b) =>
        && it.pBucketEnd == At(BucketCount) && b <= BucketCount
        && (b < BucketCount ==> it.itList == null || it.itList in buckets[b].Nodes)
        && (b == BucketCount ==> it.itList == null)
    }

    /** The cursor an iterator stands for. */
    ghost function Abs(it: Iterator<T>): Cursor
      reads this, Repr
      requires Valid() && Points(it)
    {
      match it.pBucket
      case Null => Detached
      case At(b) => if b < BucketCount then Cursor(b, buckets[b].Position(it.itList)) else Cursor(b, 0)
    }

    /** begin() as written: the first node of the lowest non-empty bucket, or
        the default iterator when every bucket is empty. */
    method Begin() returns (it: Iterator<T>)
      requires Valid()
      ensures Points(it) && Abs(it) == BeginAsWritten(Contents)
      ensures it.pBucket.Null? <==> Empty()
      ensures it.pBucket.At? ==> it.itList == buckets[it.pBucket.index].head
    {
      for i := 0 to BucketCount
        invariant forall j :: 0 <= j < i ==> Contents[j] == []
      {
        if !buckets[i].Empty() {
          return Iterator(At(i), At(BucketCount), buckets[i].Begin());
        }
      }
      return Iterator(Null, Null, null);
    }

    /** begin() corrected: as written, but end() when every bucket is empty. */
    method BeginFixed() returns (it: Iterator<T>)
      requires Valid()
      ensures Points(it) && Abs(it) == BeginCorrected(Contents)
      ensures it == End() <==> Empty()
    {
      for i := 0 to BucketCount
        invariant forall j :: 0 <= j < i ==> Contents[j] == []
      {
        if !buckets[i].Empty() {
          return Iterator(At(i), At(BucketCount), buckets[i].Begin());
        }
      }
      return End();
    }

    /** end(): the sentinel bucket pointer buckets + 10 twice, with a null
        list iterator. It is not the default iterator. */
    function End(): (it: Iterator<T>)
      reads this, Repr
      requires Valid()
      ensures Points(it) && Abs(it) == Buckets.End(Contents)
      ensures it != Iterator(Null, Null, null)
    {
      Iterator(At(BucketCount), At(BucketCount), null)
    }

    /** iterator::operator*: the element under the iterator, or the
        null-dereference error when its list iterator is null. */
    function Get(it: Iterator<T>): (r: Result<T>)
      reads this, Repr
      requires Valid() && Points(it)
      ensures r == Deref(Contents, Abs(it))
    {
      if it.itList != null then Ok(it.itList.data) else Err(NullDereference)
    }

    /** iterator::operator++ as written: the list iterator moves on unless it
        is null; then, if it is null and the bucket pointer is not the end
        pointer, the bucket pointer moves on by one. */
    method Increment(it: Iterator<T>) returns (r: Iterator<T>)
      requires Valid() && Points(it)
      ensures Points(r) && Abs(r) == StepAsWritten(Contents, Abs(it))
      ensures r.pBucketEnd == it.pBucketEnd
      ensures r.pBucket == it.pBucket || (it.pBucket.At? && r.pBucket == At(it.pBucket.index + 1) && r.itList == null)
    {
      r := it;
      if r.itList != null {
        var next := buckets[r.pBucket.index].Next(r.itList);
        r := r.(itList := next);
      }
      if r.itList == null && r.pBucket != r.pBucketEnd {
        r := r.(pBucket := At(r.pBucket.index + 1));
      }
    }

    /** iterator::operator++ corrected: when the list iterator reaches the end
        of its bucket, it moves on to the first node of the next non-empty
        bucket, or to end(). */
    method IncrementFixed(it: Iterator<T>) returns (r: Iterator<T>)
      requires Valid() && Points(it)
      ensures Points(r) && Abs(r) == StepCorrected(Contents, Abs(it))
    {
      r := it;
      if r.itList != null {
        var b := r.pBucket.index;
        var next := buckets[b].Next(r.itList);
        if next != null {
          return r.(itList := next);
        }
        var i := b + 1;
        while i < BucketCount && buckets[i].Empty()
          invariant b + 1 <= i <= BucketCount
          invariant forall k :: b + 1 <= k < i ==> Contents[k] == []
        {
          i := i + 1;
        }
        if i < BucketCount {
          r := Iterator(At(i), At(BucketCount), buckets[i].Begin());
        } else {
          r := End();
        }
      }
    }

    /** begin(i): a local iterator at the first node of bucket i. */
    function LocalBegin(i: nat): (r: LocalIterator<T>)
      reads this, Repr
      requires Valid() && i < BucketCount
      ensures r.itList == null || r.itList in buckets[i].Nodes
      ensures buckets[i].Position(r.itList) == 0
    {
      LocalIterator(buckets[i].Begin())
    }

    /** end(i): the local iterator past the last node of bucket i. */
    function LocalEnd(i: nat): (r: LocalIterator<T>)
      reads this, Repr
      requires Valid() && i < BucketCount
      ensures r.itList == null && buckets[i].Position(r.itList) == |Contents[i]|
    {
      LocalIterator(null)
    }

    /** local_iterator::operator++: only the list iterator moves, so a local
        iterator into bucket i stays in bucket i (or at its end). */
    method LocalIncrement(i: nat, it: LocalIterator<T>) returns (r: LocalIterator<T>)
      requires Valid() && i < BucketCount
      requires it.itList == null || it.itList in buckets[i].Nodes
      ensures r.itList == null || r.itList in buckets[i].Nodes
      ensures buckets[i].Position(r.itList) ==
        if it.itList == null then |Contents[i]| else buckets[i].Position(it.itList) + 1
    {
      var next := buckets[i].Next(it.itList);
      r := LocalIterator(next);
    }
  }

  /** swap(lhs, rhs): the two bucket arrays are exchanged element by element,
      each pair of lists exchanging their chains, and the counts are exchanged. */
  method Swap<T>(lhs: UnorderedSet<T>, rhs: UnorderedSet<T>)
    requires lhs.Valid() && rhs.Valid() && lhs.Repr !! rhs.Repr
    modifies lhs, rhs, lhs.buckets, rhs.buckets
    ensures lhs.Valid() && rhs.Valid() && lhs.Repr !! rhs.Repr
    ensures lhs.Contents == old(rhs.Contents) && rhs.Contents == old(lhs.Contents)
    ensures lhs.numElements == old(rhs.numElements) && rhs.numElements == old(lhs.numElements)
    ensures lhs.Repr + rhs.Repr <= old(lhs.Repr) + old(rhs.Repr)
  {
    ghost var OA, OB := lhs.Repr, rhs.Repr;
    assert lhs in OA && rhs in OB;
    ghost var L, R := SwapAll(lhs.buckets, rhs.buckets, lhs.Contents, rhs.Contents, OA - {lhs}, OB - {rhs});
    Within(lhs, rhs, L, R, OA, OB);
    assert lhs !in L + R && rhs !in L + R && lhs != rhs;
    lhs.SwapCounts(rhs, L, R);
  }

  /** Footprints rebuilt from the parts of two old footprints stay within them. */
  lemma Within(a: object, b: object, L: set<object>, R: set<object>, A: set<object>, B: set<object>)
    requires a in A && b in B && L + R <= (A - {a}) + (B - {b})
    ensures ({a} + L) + ({b} + R) <= A + B
  {
  }

  /** One step of std::swap on two bucket arrays: ls[i] and rs[i] exchange
      their chains, each keeping its identity; L' and R' are what the two
      arrays own afterwards. */
  method SwapAt<T>(ls: seq<List<T>>, rs: seq<List<T>>, i: nat, ghost Cl: seq<seq<T>>, ghost Cr: seq<seq<T>>,
                   ghost L: set<object>, ghost R: set<object>) returns (ghost L': set<object>, ghost R': set<object>)
    requires i < |ls| == |rs| && Holds(ls, Cl, L) && Holds(rs, Cr, R) && L !! R
    modifies ls[i], rs[i]
    ensures Holds(ls, Cl[i := Cr[i]], L') && Holds(rs, Cr[i := Cl[i]], R') && L' !! R' && L' + R' <= L + R
  {
    L' := (L - ls[i].Repr) + {ls[i]} + (rs[i].Repr - {rs[i]});
    R' := (R - rs[i].Repr) + {rs[i]} + (ls[i].Repr - {ls[i]});
    LinkedList.Swap(ls[i], rs[i]);
    Exchanged(ls, i, Cl, L, rs[i], Cr[i], L');
    Exchanged(rs, i, Cr, R, ls[i], Cl[i], R');
  }

  /** After ls[i] took over the chain other owned (holding c), the lists of ls
      hold C with c at index i, inside what they owned less ls[i]'s old nodes,
      plus other's old nodes. */
  twostate lemma Exchanged<T>(new ls: seq<List<T>>, i: nat, new C: seq<seq<T>>, new L: set<object>,
                              new other: List<T>, new c: seq<T>, new L': set<object>)
    requires old(allocated(ls))
    requires old(allocated(C))
    requires old(allocated(L))
    requires old(allocated(other))
    requires i < |ls| && old(Holds(ls, C, L)) && old(other.Repr) !! L && unchanged(L - {ls[i]})
    requires ls[i].Valid() && ls[i].Contents == c && ls[i].Repr == {ls[i]} + (old(other.Repr) - {other})
    requires L' == (L - old(ls[i].Repr)) + {ls[i]} + (old(other.Repr) - {other})
    ensures Holds(ls, C[i := c], L')
  {
  }

  /** std::swap of two bucket arrays: the lists at each index exchange their
      chains, each list keeping its own identity. */
  method SwapAll<T>(ls: seq<List<T>>, rs: seq<List<T>>, ghost Cl: seq<seq<T>>, ghost Cr: seq<seq<T>>,
                    ghost L: set<object>, ghost R: set<object>) returns (ghost L': set<object>, ghost R': set<object>)
    requires |ls| == |rs| && Holds(ls, Cl, L) && Holds(rs, Cr, R) && L !! R
    modifies ls, rs
    ensures Holds(ls, Cr, L') && Holds(rs, Cl, R') && L' !! R' && L' + R' <= L + R
  {
    ghost var C1, C2 := Cl, Cr;
    L', R' := L, R;
    for i := 0 to |ls|
      invariant Holds(ls, C1, L') && Holds(rs, C2, R') && L' !! R' && L' + R' <= L + R
      invariant forall j :: 0 <= j < i ==> C1[j] == Cr[j] && C2[j] == Cl[j]
      invariant forall j :: i <= j < |ls| ==> C1[j] == Cl[j] && C2[j] == Cr[j]
    {
      L', R' := SwapAt(ls, rs, i, C1, C2, L', R');
      C1, C2 := C1[i := C2[i]], C2[i := C1[i]];
    }
    assert C1 == Cr && C2 == Cl;
  }
}
