# custom::list and custom::unordered_set in Dafny

This project models the two containers of a small hand-written C++ container
library and proves what their operations do.

- `list.dfy` (module `LinkedList`) models `custom::list<T>` from `list.h`.
  It is a doubly-linked list whose operations rewire the `pNext`/`pPrev` links
  of heap nodes and keep `pHead`, `pTail` and `numElements` up to date.
  - The model is a `Node` class and a `List` class with the same fields, plus
    a ghost `Contents: seq<T>`, a ghost `Nodes: seq<Node<T>>` (the chain from
    head to tail) and a ghost footprint `Repr`.
  - `Valid()` states the list invariant:
    - the chain is distinct;
    - forward and backward links agree with neighbouring indices;
    - `head.prev` and `tail.next` are null;
    - `numElements == |Nodes|`;
    - head and tail are null exactly when the list is empty.
  - Every mutator is an imperative method, and its postcondition gives the new
    `Contents` in terms of the old one.
  - A list iterator is a `Node?` (null is `end()`). `Position` maps an
    iterator to its index.
- `hash.dfy` (module `Hash`) models `custom::unordered_set<T>` from `hash.h`.
  It has exactly ten buckets, each a `custom::list<T>`, plus `numElements`.
  - The class holds the ten list objects, the count, a ghost `Contents`
    (one sequence per bucket) and a ghost `Repr`.
  - `Valid()` states that:
    - the ten lists are valid;
    - their footprints are pairwise disjoint and owned by the set;
    - `numElements` is the sum of the bucket sizes.
  - The loops of `clear`, copy assignment, `swap` and `begin()` are `for`
    loops over the ten buckets.
  - The set iterator is the datatype `Iterator(pBucket, pBucketEnd, itList)`.
    Bucket pointers are `Null` or `At(i)`, where `At(10)` is `buckets + 10`.
- `buckets.dfy` (module `Buckets`) is the pure view of the set iterator.
  - A cursor `(bucket, offset)` stands for an iterator.
  - It defines `begin()` and `++` exactly as `hash.h` writes them, and the
    corrected versions that visit every element once.
  - It proves what each does: see Findings.

The model is verified only; it is not compiled or run. Allocation is assumed to succeed, and `delete` is
modelled by dropping the released nodes from the owning list's footprint.

## Model

| member | source | states |
|---|---|---|
| `LinkedList.Node.constructor` | list.h:136 | a new node holds the given value and both its links are null |
| `LinkedList.List.constructor` | list.h:333-336 | a new list is valid and empty, owning only itself |
| `LinkedList.List.Fill` | list.h:242-269 | `list(num, t)` holds exactly `num` copies of `t`, in fresh nodes |
| `LinkedList.List.Build` | list.h:245-268 | the body of `list(num, t)`: head node, `num - 1` nodes linked after it, tail and count set; the result is valid with `num` copies of `t` |
| `LinkedList.List.LinkAfter` | list.h:255-262 | one pass of the fill loop appends one fresh node holding `t` to the chain and leaves head, tail and count alone |
| `LinkedList.List.Move` | list.h:353-358 | the new list holds rhs's old contents, in the same nodes, and owns exactly rhs's old nodes; rhs is left valid and empty, with null head and tail and a zero count, owning no node, so the two lists are disjoint |
| `LinkedList.List.Shape` | list.h:787-796 | in a valid list: size 0 exactly when head and tail are null; size 1 exactly when head == tail; `head->pPrev` and `tail->pNext` are null; the forward and backward links agree at every node |
| `LinkedList.List.IteratorEquality` | list.h:177-178 | two iterators are equal exactly when they denote the same position |
| `LinkedList.List.Size` | list.h:104 | `size()` is the length of the contents |
| `LinkedList.List.Empty` | list.h:103 | `empty()` holds exactly when the contents are empty |
| `LinkedList.List.Begin` | list.h:68 | `begin()` denotes position 0, which is `end()` on an empty list |
| `LinkedList.List.RBegin` | list.h:69 | `rbegin()` denotes the last position |
| `LinkedList.List.Front` | list.h:707-714 | `front()` is the first element, and an error exactly when the list is empty |
| `LinkedList.List.Back` | list.h:724-731 | `back()` is the last element, and an error exactly when the list is empty |
| `LinkedList.List.Get` | list.h:181-187 | `*it` is the element at its position; it is the null-dereference error exactly at `end()` |
| `LinkedList.List.Next` | list.h:199-204 | `++it` moves one position on, and `end()` stays `end()` |
| `LinkedList.List.Prev` | list.h:216-221 | `--it` moves one position back; from the first element it gives `end()`, and `end()` stays `end()` |
| `LinkedList.List.PushBack` | list.h:514-539 | contents become `old + [x]` and size grows by one; the old nodes keep their places; the new tail is fresh and `back()` is `x`; on an empty list head == tail |
| `LinkedList.List.PushFront` | list.h:577-602 | contents become `[x] + old` and size grows by one; the old nodes follow the fresh head and `front()` is `x`; on an empty list head == tail |
| `LinkedList.List.PopBack` | list.h:641-664 | on a non-empty list exactly the last element and its node go, size drops by one, and the list stays valid (the new tail's next is null); on an empty list nothing changes |
| `LinkedList.List.PopFront` | list.h:674-697 | on a non-empty list exactly the first element and its node go, size drops by one, and the list stays valid (the new head's prev is null); on an empty list nothing changes |
| `LinkedList.List.Erase` | list.h:741-770 | `erase(end())` returns `end()` and changes nothing; otherwise exactly the element at it is removed, the others stay in order, size drops by one, its node leaves the list, and the result denotes the following element (or `end()`) |
| `LinkedList.List.Unlink` | list.h:752-766 | erasing an interior node links its two neighbours to each other and removes exactly that element |
| `LinkedList.List.Insert` | list.h:781-841 | on an empty list the result is `[x]` whatever it is; otherwise x is placed right before it, or at the back when it is `end()`; size grows by one and the result denotes the new element; the old nodes keep their order around the new one, so every iterator held before the insert still denotes its element |
| `LinkedList.List.LinkBefore` | list.h:816-831 | inserting before an interior node splices a fresh node between it and its predecessor |
| `LinkedList.List.SetAt` | list.h:395 | `*itLHS = *itRHS` replaces exactly one element and no link |
| `LinkedList.List.Clear` | list.h:491-504 | the walk releases exactly the old nodes in order; afterwards head and tail are null, size is 0 and the contents are empty. The final state does not depend on the old one, so clearing twice gives the same state as clearing once |
| `LinkedList.List.TrimFrom` | list.h:412-425 | the excess nodes from index k on are released, the count drops to k, and the node before becomes the tail with a null next |
| `LinkedList.List.Assign` | list.h:387-429 | after `*this = rhs` the contents equal rhs's, whether this list was shorter, longer or the same length; the first `min(size, rhs.size)` nodes are kept in place, so iterators to them stay valid; rhs is unchanged |
| `LinkedList.List.Overwrite` | list.h:389-398 | the first loop overwrites the first `min(size, rhs.size)` elements with rhs's, leaves the elements after them as they were, and keeps every node and the count |
| `LinkedList.List.AppendFrom` | list.h:401-405 | pushing back rhs's remaining elements completes rhs's contents; the existing nodes stay in place as a prefix |
| `LinkedList.List.AssignSeq` | list.h:439-481 | after `*this = il` the contents equal `il`; the first `min(size, il.size())` nodes are kept in place, so iterators to them stay valid |
| `LinkedList.List.Copy` | list.h:342-346 | the copy holds rhs's contents in fresh nodes; rhs is unchanged |
| `LinkedList.List.MoveAssign` | list.h:368-377 | this list takes rhs's chain and rhs is left valid and empty; moving a list onto itself empties it |
| `LinkedList.Swap` | list.h:914-930 | contents, node chains and counts are exchanged, each list stays valid, and their footprints stay disjoint |
| `Hash.NewBuckets` | hash.h:41 | ten fresh, valid, empty lists with disjoint footprints |
| `Hash.UnorderedSet.constructor` | hash.h:40-43 | a new set is valid, with ten empty buckets and a zero count |
| `Hash.AssignAt` | hash.h:68-69 | one step of the copy loop makes bucket i equal rhs's bucket i and changes no other bucket |
| `Hash.AssignAll` | hash.h:68-69 | the copy loop makes every destination bucket equal the source bucket at the same index; the source is unchanged |
| `Hash.UnorderedSet.Copy` | hash.h:44-49 | the copy has rhs's ten buckets and count, in fresh lists |
| `Hash.UnorderedSet.Assign` | hash.h:66-79 | each of the ten buckets equals rhs's bucket and the count equals rhs's count; rhs is unchanged |
| `Hash.Duplicate` | hash.h:86-88 | the ten temporary lists are fresh and hold the set's buckets |
| `Hash.AssignKeeping` | hash.h:89-92 | copying one bucket array onto another leaves a third array untouched |
| `Hash.Rotate` | hash.h:86-92 | after the three copy loops of `swap`, this set's lists hold rhs's old buckets and rhs's lists hold this set's old buckets |
| `Hash.UnorderedSet.SwapCounts` | hash.h:94-97 | the counts are exchanged and both sets are valid again |
| `Hash.UnorderedSet.Swap` | hash.h:84-98 | all ten buckets and the counts are exchanged; the RHS ends with the LHS's old contents |
| `Hash.SwapAt` | hash.h:416 | one step of `std::swap` on the bucket arrays exchanges the chains of two lists at the same index |
| `Hash.SwapAll` | hash.h:416 | `std::swap` of the bucket arrays exchanges the contents of every pair of buckets |
| `Hash.Swap` | hash.h:412-417 | the free `swap` exchanges all buckets and the counts; both sets stay valid and disjoint, and allocate nothing: their footprints stay within the old ones, so a third set disjoint from both stays disjoint |
| `Hash.ClearOne` | hash.h:152 | clearing bucket i empties it and leaves the other buckets alone |
| `Hash.UnorderedSet.Clear` | hash.h:148-155 | all ten buckets are empty and `size()` is 0, so `numElements` is still the sum of the bucket sizes |
| `Hash.UnorderedSet.Size` | hash.h:161-164 | `size()` is the sum of the bucket sizes, the number of elements over all buckets |
| `Hash.UnorderedSet.Empty` | hash.h:165-173 | `empty()` holds exactly when `size() == 0`, and exactly when every bucket is empty |
| `Hash.UnorderedSet.BucketCountOf` | hash.h:174-177 | `bucket_count()` is always 10 |
| `Hash.UnorderedSet.BucketSize` | hash.h:178-181 | `bucket_size(i)` for `i < 10` is the size of bucket i |
| `Hash.UnorderedSet.Begin` | hash.h:105-115 | `begin()` points at the first node of the lowest-index non-empty bucket; when every bucket is empty it is the default iterator |
| `Hash.UnorderedSet.BeginFixed` | hash.h:105-115 | the corrected `begin()` is `end()` exactly when the set is empty, and otherwise is as written |
| `Hash.UnorderedSet.End` | hash.h:116-119 | `end()` is the sentinel `buckets + 10` with a null list iterator, and differs from the default iterator |
| `Hash.UnorderedSet.Get` | hash.h:247-250 | `*it` is the element under the iterator's cursor, or the null-dereference error |
| `Hash.UnorderedSet.Increment` | hash.h:395-406 | `++` as written: the list iterator advances only if it is not null; the bucket pointer moves by exactly one only when the list iterator is then null and the bucket pointer is not the end pointer; it never passes the end pointer |
| `Hash.UnorderedSet.IncrementFixed` | hash.h:395-406 | the corrected `++` moves to the next element in bucket order, or to `end()` |
| `Hash.UnorderedSet.LocalBegin` | hash.h:120-123 | `begin(i)` denotes position 0 of bucket i |
| `Hash.UnorderedSet.LocalEnd` | hash.h:124-127 | `end(i)` denotes the end of bucket i |
| `Hash.UnorderedSet.LocalIncrement` | hash.h:335-339 | a local iterator's `++` moves one position on within bucket i and never leaves that bucket |
| `Buckets.FirstNonEmpty` | hash.h:107-113 | the scan stops at the lowest non-empty bucket at or after its start, or at the sentinel |
| `Buckets.Deref` | hash.h:247-250 | dereferencing succeeds exactly on a cursor over an element, and then gives that element |
| `Buckets.BeginAsWritten` | hash.h:105-115 | `begin()` as written is detached exactly when every bucket is empty; otherwise it is offset 0 of the lowest non-empty bucket |
| `Buckets.StepAsWritten` | hash.h:395-406 | `++` as written keeps the default iterator where it is and `end()` at `end()`, and it reaches an element only by moving one place on inside the same bucket |
| `Buckets.StepAsWrittenBounded` | hash.h:395-406 | `++` as written moves the bucket pointer by at most one, exactly when the list iterator ends up null, and never past the sentinel |
| `Buckets.AsWrittenStaysOffElements` | hash.h:401-404 | once the list iterator is null, `++` only walks the bucket pointer to the sentinel and never reaches an element again |
| `Buckets.WalkInBucket` | hash.h:397-404 | stepping as written inside a bucket visits its remaining elements, then never another element |
| `Buckets.AsWrittenWalk` | hash.h:395-406 | iterating as written from `begin()` visits only the elements of the lowest non-empty bucket, then reaches `end()` without visiting another element |
| `Buckets.AsWrittenEmptyNeverEnds` | hash.h:105-115 | on an empty set, iterating as written from `begin()` never reaches `end()` |
| `Buckets.AsWrittenSkipsSecondBucket` | hash.h:395-406 | a two-element set with 1 in bucket 0 and 2 in bucket 1: the iteration as written reaches `end()` after ten steps and never dereferences 2 |
| `Buckets.BeginCorrected` | hash.h:105-115 | the corrected `begin()` is on the first element in bucket order, and is `end()` exactly when every bucket is empty |
| `Buckets.StepCorrected` | hash.h:395-406 | the corrected `++` keeps the default iterator and `end()` where they are, and from an element it moves to a different element or to `end()` |
| `Buckets.StepCorrectedAdvances` | hash.h:395-406 | the corrected `++` moves an element cursor to the next element in bucket order |
| `Buckets.CorrectedWalk` | hash.h:395-406 | iterating with the corrected operations visits every element exactly once, in bucket order, then reaches `end()` |
| `Buckets.TotalSizeZero` | hash.h:165-173 | the total of the bucket sizes is 0 exactly when every bucket is empty |

## Left out

- `LinkedList.List.Assign` requires the two lists to be disjoint, so self-assignment `a = a` is not modelled. In the source it rewrites every element with itself.
- `Hash.UnorderedSet.Assign` requires two distinct, disjoint sets, so `s = s` is not modelled.
- `Hash.UnorderedSet.Swap` requires two distinct, disjoint sets, so `s.swap(s)` is not modelled.
- `Hash.Swap` requires two distinct, disjoint sets, so `swap(s, s)` is not modelled. It also exchanges the bucket arrays before the counts, while `hash.h:415-416` exchanges the counts first. The two steps touch disjoint state, so the order cannot be observed.
- `Hash.UnorderedSet.Copy` states nothing about rhs. The constructor may modify only the new set, so a caller keeps every fact about rhs.
- `list(size_t num)` (`list.h:300-327`) is not modelled: it fills the list with default-constructed values, and an arbitrary `T` has no default value in the model. `list(num, t)` is modelled by `Fill`.
- The iterator-range and initializer-list constructors of `list` (`list.h:277-293`) are not modelled as constructors. `AssignSeq` models `operator=(initializer_list)`, which the initializer-list constructor calls on an empty list.
- The rvalue overloads of `push_back`, `push_front` and `insert` have the same logic as the `const T&` forms and are modelled once.
- The postfix `++`/`--` of the list iterator move the same way as the prefix forms and are modelled only through `Next` and `Prev`.
- The set's move constructor and move assignment: move construction (`hash.h:50-53`) is not modelled, since it relies on library move semantics. Move assignment (`hash.h:73-79`) runs the same loop and count copy as copy assignment and is modelled by `Assign`.
- The set's iterator-range constructor (`hash.h:54-61`) is not modelled; it leaves the count uninitialised.
- The empty `operator=(initializer_list)` (`hash.h:80-83`) is not modelled.
- `bucket(t)` (`hash.h:132-135`) is not modelled; it stores `t` into the count.
- The stubbed `insert`, `find`, `erase` and `insert(initializer_list)` (`hash.h:361-388`) are not modelled: they have no effect, and there is no hash function to route elements with.
- The ill-formed postfix `++` of the set iterator and of the local iterator (`hash.h:256-266`, `hash.h:340-345`) are not modelled.
- `end()` reads `buckets[10]`, one past the array (`hash.h:118`). The model builds the sentinel `At(10)` with a null list iterator and never indexes bucket 10.
- Iterator copy, assignment and `==`/`!=` are value semantics of the `Iterator` datatype.
- `LinkedList.List.Front`, `LinkedList.List.Back`, `LinkedList.List.Get` and `Hash.UnorderedSet.Get` return a copy of the element, not the `T&` the source returns (`list.h:76-77`, `list.h:181-187`, `hash.h:247-250`). Writes through those references are not modelled, except through a list iterator: `SetAt` is the write through `*it`. `SetAt` at the head or the tail stands for a write through `front()` or `back()`. A write through a set iterator's `*` is not modelled.
- Allocation failure and the string thrown after it are not modelled: allocation always succeeds. The strings thrown by `front`, `back` and `*` are modelled as the `EmptyList` and `NullDereference` errors of a `Result`.
- Freeing a released node's memory, the destructor and the `DEBUG` visibility switches are not modelled. The release itself is modelled as the removal of the node from the list's `Repr`.
- Counts are unbounded naturals: `size_t` wrap-around is not modelled. The `numElements <= 0` test in `empty()` is kept as written.

## Findings

| source | as written | input that shows it | evidently intended | confidence | as-written member | corrected member |
|---|---|---|---|---|---|---|
| hash.h:105-115 | `begin()` on a set whose ten buckets are all empty returns the default iterator (null bucket pointers), which is not `end()`; `++` leaves it where it is, so a loop from `begin()` to `end()` never stops | a default-constructed set | `begin() == end()` on an empty set | high, not executed | `Buckets.AsWrittenEmptyNeverEnds` | `Buckets.BeginCorrected` |
| hash.h:395-406 | at the last element of a bucket, `++` leaves the list iterator null and only bumps the bucket pointer; later `++` calls only bump the bucket pointer again, so no element after the first non-empty bucket is ever visited | buckets `[[1], [2], [], …, []]`: from `begin()` the iteration yields 1, then null cursors, then `end()`; 2 is never visited | on reaching the end of a bucket, move to the first element of the next non-empty bucket | high, not executed | `Buckets.AsWrittenSkipsSecondBucket` | `Buckets.CorrectedWalk` |
