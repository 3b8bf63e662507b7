# Circular-array deque in Dafny

A model of the generic double-ended queue `Queue<E>` of the CircularArrayQueue-Java
repository, with proofs about it. The deque keeps its elements in a resizable circular array.
Its fields are:

- the array;
- a front index `f` and a rear (next insertion) index `r`;
- a size;
- a modification counter `modCount`;
- a single `expectedModCount` that both of its fail-fast iterators share.

Pushes at either end double the array when it is full. Pops at either end null the vacated
slot and halve the array when it is at most a quarter full, but never below
`DEFAULT_CAPACITY = 4`. `clear` resets the deque to an empty array of 4 slots.

The project has three modules:

- `QueueSpec` (queue_spec.dfy) is the abstract view: the live elements front to rear, the
  capacity and the modification count. Each operation is a function on that view, with lemmas
  about histories of operations:
  - every history keeps the capacity a power of two, at least 4 and at least the size;
  - the modification count never decreases;
  - from a new deque, the capacity stays at 4 or below eight times the size (the 4:1
    hysteresis);
  - FIFO and LIFO order at both ends;
  - peeks agree with pops;
  - the capacity sequences the unit tests check.
- `Dequeue` (queue.dfy) is the imperative deque: a class over `array<Option<E>>` (`None` is
  Java's `null`), and the two iterator classes.
  - The class invariant `Valid()` ties the array to a ghost `Contents` sequence. The live span
    starts at `f` and wraps around, every other slot is null, `r` is `f + size` around the
    ring, and the capacity is a power of two and at least 4.
  - Every push, pop and `clear` is proved against the matching `QueueSpec` function, and so
    are the peeks `first` and `last`. `isEmpty` and `size` are stated against the contents.
  - The copy loops of `doubleCapacity` and `halfCapacity` carry loop invariants.
  - The iterators are proved against a ghost `Pending()` sequence: what is still to come.
- `QueueScenarios` (queue_scenarios.dfy) holds client code:
  - the `while (it.hasNext()) it.next()` traversal loop, proved to yield the contents
    (reversed for the descending iterator);
  - loops that push many elements or pop many;
  - each of the repository's unit tests, as a method. Each of the test's assertions is either
    in the method's postcondition or a verified `assert` in its body, where it concerns an
    intermediate state inside a loop;
  - the iterators' quirks, which are kept as written.

The quirks:

- A deque holding exactly `capacity` elements has `f == r`, so both iterators yield nothing.
- Every new iterator overwrites the shared `expectedModCount`, which re-validates older
  iterators.
- `clear` does not bump `modCount`, so an iterator created before it still passes its check.
  It then reads a null slot, indexes outside the new, shorter array, or reports that no
  element is left. The last happens to a forward iterator whose cursor is at slot 0 (where `r`
  now is) and to a descending one whose cursor is at slot 3 (the slot before `f`). A
  descending cursor at slot 0 passes its check and reads the null slot.
- A pop nulls its slot in place. An older iterator that a newer one has re-validated reads
  that null slot.

Neither `clear` nor a resize changes `modCount` (Queue.java:218-223, 335-379). The model
keeps that, although a design that also counted them as modifications would close the
stale-iterator gap.

Java exceptions are modelled as values: `Result<T>` with `Error = NoSuchElement |
ConcurrentModification | IndexOutOfBounds`. An iterator's `next` returns
`Result<Option<E>>`, because a stale iterator can return a `null` slot.

## Model

| member | source | states |
|---|---|---|
| Dequeue.Queue.constructor | Dequeue/src/main/java/com/mycompany/dequeue/Queue.java:30-35 | a new deque satisfies the class invariant and is empty, with capacity 4, modCount 0 and f == r == 0 |
| Dequeue.Queue.GetCapacity | Dequeue/src/main/java/com/mycompany/dequeue/Queue.java:38-40 | returns the array length, which is a power of two, at least 4 and at least the size |
| Dequeue.Queue.IsEmpty | Dequeue/src/main/java/com/mycompany/dequeue/Queue.java:198-200 | true exactly when the contents are empty |
| Dequeue.Queue.Size | Dequeue/src/main/java/com/mycompany/dequeue/Queue.java:208-210 | returns the number of live elements |
| Dequeue.Queue.First | Dequeue/src/main/java/com/mycompany/dequeue/Queue.java:166-171 | NoSuchElement on an empty deque, otherwise the first element, read at slot f; equal to the spec peek `QueueSpec.First` of the model; changes nothing |
| Dequeue.Queue.Last | Dequeue/src/main/java/com/mycompany/dequeue/Queue.java:180-190 | NoSuchElement on an empty deque, otherwise the last element, read at the slot before r; equal to the spec peek `QueueSpec.Last` of the model; changes nothing |
| Dequeue.Queue.PushFirst | Dequeue/src/main/java/com/mycompany/dequeue/Queue.java:49-66 | contents become [e] + old, the capacity doubles exactly when the array was full, modCount + 1, the invariant is kept; r moves only when the array grows (to the old size) |
| Dequeue.Queue.PutFirst | Dequeue/src/main/java/com/mycompany/dequeue/Queue.java:55-65 | with room left, stepping f back around the ring and storing there prepends the element in the same array |
| Dequeue.Queue.PushLast | Dequeue/src/main/java/com/mycompany/dequeue/Queue.java:75-93 | contents become old + [e], the capacity doubles exactly when the array was full, modCount + 1, the invariant is kept; f moves only when the array grows (to 0) |
| Dequeue.Queue.PutLast | Dequeue/src/main/java/com/mycompany/dequeue/Queue.java:81-91 | with room left, storing at r and advancing r around the ring appends the element in the same array |
| Dequeue.Queue.PopFirst | Dequeue/src/main/java/com/mycompany/dequeue/Queue.java:103-123 | an empty deque gives NoSuchElement and is left untouched; otherwise returns the head and leaves the tail, modCount + 1, and halves the capacity when at most a quarter full and above 4; without halving the same array is kept (its front slot nulled) and r stays, after halving the array is fresh with f == 0 and r == size |
| Dequeue.Queue.TakeFirst | Dequeue/src/main/java/com/mycompany/dequeue/Queue.java:108-115 | reads and nulls slot f and advances f: returns the first element and drops it, in the same array |
| Dequeue.Queue.PopLast | Dequeue/src/main/java/com/mycompany/dequeue/Queue.java:133-157 | an empty deque gives NoSuchElement and is left untouched; otherwise returns the last element and leaves the prefix, modCount + 1, with the same shrink rule; without halving the same array is kept and f stays, after halving the array is fresh with f == 0 and r == size |
| Dequeue.Queue.TakeLast | Dequeue/src/main/java/com/mycompany/dequeue/Queue.java:138-149 | steps r back (from 0 to capacity - 1), reads and nulls that slot: returns the last element and drops it |
| Dequeue.Queue.Clear | Dequeue/src/main/java/com/mycompany/dequeue/Queue.java:218-223 | empty contents, capacity 4, f == r == 0, every slot null, modCount unchanged |
| Dequeue.Queue.CopyOut | Dequeue/src/main/java/com/mycompany/dequeue/Queue.java:341-343 | a fresh array of the new capacity holds the first `count` elements, in order, from slot 0, and nulls elsewhere |
| Dequeue.Queue.DoubleCapacity | Dequeue/src/main/java/com/mycompany/dequeue/Queue.java:335-351 | contents unchanged, capacity doubled, f == 0 and r == size, modCount unchanged |
| Dequeue.Queue.HalfCapacity | Dequeue/src/main/java/com/mycompany/dequeue/Queue.java:353-379 | at capacity 4 nothing changes; above it the capacity halves, no element is lost to the min(size, newCapacity) copy, f == 0 and r == size |
| Dequeue.NullArray | Dequeue/src/main/java/com/mycompany/dequeue/Queue.java:338 | a fresh array of n slots, all null |
| Dequeue.ForwardIterator.constructor | Dequeue/src/main/java/com/mycompany/dequeue/Queue.java:237-240 | cur = f, and the deque's shared expectedModCount := modCount; pending is the whole contents, front to rear, unless the deque is full, when it is empty |
| Dequeue.ForwardIterator.HasNext | Dequeue/src/main/java/com/mycompany/dequeue/Queue.java:256-259 | ConcurrentModification when modCount moved; otherwise true exactly when something is pending |
| Dequeue.ForwardIterator.Next | Dequeue/src/main/java/com/mycompany/dequeue/Queue.java:270-278 | each failure in the source's order (ConcurrentModification, NoSuchElement, IndexOutOfBounds), else the slot at cur with cur advanced; on a tracking cursor it yields the first pending element and drops it |
| Dequeue.DescendingIterator.constructor | Dequeue/src/main/java/com/mycompany/dequeue/Queue.java:294-297 | cur = the slot before r, and the shared expectedModCount := modCount; pending is the contents reversed, unless the deque is full |
| Dequeue.DescendingIterator.HasNext | Dequeue/src/main/java/com/mycompany/dequeue/Queue.java:309-312 | ConcurrentModification when modCount moved; otherwise true exactly when something is pending |
| Dequeue.DescendingIterator.Next | Dequeue/src/main/java/com/mycompany/dequeue/Queue.java:324-332 | the same failures, else the slot at cur with cur stepped back; on a tracking cursor it yields the last not-yet-yielded element and drops it |
| Dequeue.SlotMod | Dequeue/src/main/java/com/mycompany/dequeue/Queue.java:342 | the source's (f + i) % cap is the ring slot i steps after f |
| Dequeue.PredMod | Dequeue/src/main/java/com/mycompany/dequeue/Queue.java:56 | the source's (x - 1 + cap) % cap is the ring slot before x |
| Dequeue.LayoutIff | Dequeue/src/main/java/com/mycompany/dequeue/Queue.java:21-22 | the slot-by-slot recursive layout and the quantified layout (live span from f in order, other slots null) are the same |
| Dequeue.LayoutFree | Dequeue/src/main/java/com/mycompany/dequeue/Queue.java:111 | every slot past the live span is null |
| Dequeue.LayoutPushFirst | Dequeue/src/main/java/com/mycompany/dequeue/Queue.java:56-59 | storing at the slot before f lays out [e] + contents from that slot |
| Dequeue.LayoutPushLast | Dequeue/src/main/java/com/mycompany/dequeue/Queue.java:82-85 | storing at slot f + size lays out contents + [e], and the advanced r is the new rear |
| Dequeue.LayoutPopFirst | Dequeue/src/main/java/com/mycompany/dequeue/Queue.java:108-113 | slot f holds the first element; nulling it lays out the tail from the next slot |
| Dequeue.LayoutPopLast | Dequeue/src/main/java/com/mycompany/dequeue/Queue.java:138-146 | the slot before r holds the last element; nulling it lays out the prefix |
| Dequeue.ForwardPendingSuffix | Dequeue/src/main/java/com/mycompany/dequeue/Queue.java:256-258 | a forward cursor still has to yield exactly the last ring-distance(cur, r) elements |
| Dequeue.ForwardStep | Dequeue/src/main/java/com/mycompany/dequeue/Queue.java:275-276 | a cursor with something pending sits on the first pending element, and (cur + 1) % cap drops exactly it |
| Dequeue.DescendingStep | Dequeue/src/main/java/com/mycompany/dequeue/Queue.java:329-330 | a descending cursor sits on the last not-yet-yielded element, and (cur - 1 + cap) % cap drops exactly it |
| QueueSpec.GrowKeepsWf | Dequeue/src/main/java/com/mycompany/dequeue/Queue.java:51-53 | growth keeps the capacity a power of two and at least 4, and makes room for one more |
| QueueSpec.ShrinkKeepsWf | Dequeue/src/main/java/com/mycompany/dequeue/Queue.java:353-371 | shrinking after a pop keeps a power of two, never goes below 4 and keeps room for every element |
| QueueSpec.ApplyPreservesWf | Dequeue/src/main/java/com/mycompany/dequeue/Queue.java:49-223 | every operation keeps the invariant; pushes and pops of a non-empty deque bump modCount by one, clear and failed pops leave it |
| QueueSpec.RunPreservesWf | Dequeue/src/main/java/com/mycompany/dequeue/Queue.java:49-223 | any history keeps the invariant and never decreases modCount |
| QueueSpec.ShrinkKeepsCompact | Dequeue/src/main/java/com/mycompany/dequeue/Queue.java:118-120 | a pop keeps the capacity at 4 or below eight times the size |
| QueueSpec.ApplyPreservesCompact | Dequeue/src/main/java/com/mycompany/dequeue/Queue.java:49-223 | every operation keeps the capacity at 4 or below eight times the size |
| QueueSpec.RunKeepsCompact | Dequeue/src/main/java/com/mycompany/dequeue/Queue.java:49-223 | any history keeps that space bound |
| QueueSpec.RunFromEmptyIsCompact | Dequeue/src/main/java/com/mycompany/dequeue/Queue.java:353-379 | in every history from a new deque the capacity is 4 or below eight times the size; an emptied deque is back at capacity 4 |
| QueueSpec.PushAllLastItems | Dequeue/src/main/java/com/mycompany/dequeue/Queue.java:75-93 | pushing xs at the rear appends xs and adds |xs| to modCount |
| QueueSpec.PushAllFirstItems | Dequeue/src/main/java/com/mycompany/dequeue/Queue.java:49-66 | pushing xs at the front prepends xs reversed and adds |xs| to modCount |
| QueueSpec.DrainFirstItems | Dequeue/src/main/java/com/mycompany/dequeue/Queue.java:103-123 | n pops from the front return the first n elements in order and leave the rest |
| QueueSpec.DrainLastItems | Dequeue/src/main/java/com/mycompany/dequeue/Queue.java:133-157 | n pops from the rear return the last n elements, last first, and leave the prefix |
| QueueSpec.FifoRearToFront | Dequeue/src/test/java/com/mycompany/dequeue/DequeueTest.java:23-44 | elements pushed at the rear of a new deque come back from the front in insertion order, leaving it empty |
| QueueSpec.LifoAtRear | Dequeue/src/main/java/com/mycompany/dequeue/Queue.java:133-157 | elements pushed at the rear come back from the rear in reverse order |
| QueueSpec.FifoFrontToRear | Dequeue/src/main/java/com/mycompany/dequeue/Queue.java:49-66 | elements pushed at the front come back from the rear in insertion order |
| QueueSpec.LifoAtFront | Dequeue/src/main/java/com/mycompany/dequeue/Queue.java:103-123 | elements pushed at the front come back from the front in reverse order |
| QueueSpec.PushPopSameEnd | Dequeue/src/main/java/com/mycompany/dequeue/Queue.java:49-157 | a push then a pop at the same end returns the pushed element and restores the contents |
| QueueSpec.PeekAgreesWithPop | Dequeue/src/main/java/com/mycompany/dequeue/Queue.java:166-190 | first and last return what the pops at the same end would, and fail exactly on an empty deque |
| QueueSpec.PushAllLastCapacity | Dequeue/src/main/java/com/mycompany/dequeue/Queue.java:77-79 | from an empty 4-slot deque, up to 4 pushes keep capacity 4, and n > 4 pushes give a power of two below 2n |
| QueueSpec.FifthPushDoubles | Dequeue/src/test/java/com/mycompany/dequeue/DequeueTest.java:150-161 | four pushes keep capacity 4; the fifth makes it 8 |
| QueueSpec.DrainFiveFromEight | Dequeue/src/main/java/com/mycompany/dequeue/Queue.java:103-123 | from eight elements at capacity 8, five popFirst calls leave the last three at capacity 8, modCount + 5 |
| QueueSpec.DrainFromEight | Dequeue/src/main/java/com/mycompany/dequeue/Queue.java:103-123 | from eight elements at capacity 8, the sixth popFirst halves to capacity 4; six pops leave the last two, eight leave none, at capacity 4 |
| QueueSpec.HalvingScenario | Dequeue/src/test/java/com/mycompany/dequeue/DequeueTest.java:176-205 | eight pushes give capacity 8; popping all eight, or six of them, ends at capacity 4 |
| QueueSpec.InterleavedPushes | Dequeue/src/test/java/com/mycompany/dequeue/DequeueTest.java:213-227 | pushFirst 1, pushLast 2, pushFirst 3, pushLast 4 give [3, 1, 2, 4], first 3, last 4; popFirst then popLast leave [1, 2] |
| QueueSpec.Int32 | Dequeue/src/main/java/com/mycompany/dequeue/Queue.java:118 | the Java `int` value of an integer: in [-2^31, 2^31), and the integer itself when it is in that range |
| QueueSpec.ShrinkInt32 | Dequeue/src/main/java/com/mycompany/dequeue/Queue.java:353-379 | the shrink test in Java int, then halfCapacity keeping min(size, capacity / 2) elements: the result is a prefix of the elements, the capacity is kept or halved from above 4, and an element is lost only when the halved array is full |
| QueueSpec.PopFirstInt32 | Dequeue/src/main/java/com/mycompany/dequeue/Queue.java:103-123 | popFirst with the shrink test computed in Java int: NoSuchElement and no change when empty, else returns the head, modCount + 1, and keeps a prefix of the tail |
| QueueSpec.PopLastInt32 | Dequeue/src/main/java/com/mycompany/dequeue/Queue.java:133-157 | popLast with the shrink test computed in Java int: NoSuchElement and no change when empty, else returns the last element, modCount + 1, and keeps a prefix of the rest |
| QueueSpec.ShrinkInt32Agrees | Dequeue/src/main/java/com/mycompany/dequeue/Queue.java:353-379 | wherever 4 * size fits in an int, the shrink step as the source evaluates it keeps every element and gives the model's shrunk capacity |
| QueueSpec.PopFirstInt32Agrees | Dequeue/src/main/java/com/mycompany/dequeue/Queue.java:103-123 | wherever 4 * size fits in an int, popFirst as the source evaluates it equals the model's PopFirst |
| QueueSpec.PopLastInt32Agrees | Dequeue/src/main/java/com/mycompany/dequeue/Queue.java:133-157 | wherever 4 * size fits in an int, popLast as the source evaluates it equals the model's PopLast |
| QueueSpec.Pow2Of29And30 | Dequeue/src/main/java/com/mycompany/dequeue/Queue.java:337 | 2^29 and 2^30 are powers of two, so doubling from 4 reaches them |
| QueueSpec.ReachCapacity2To30 | Dequeue/src/main/java/com/mycompany/dequeue/Queue.java:75-93 | 2^29 + 2 pushes at the rear of a new deque hold exactly those elements at capacity 2^30 |
| QueueSpec.ShrinkInt32AtWrap | Dequeue/src/main/java/com/mycompany/dequeue/Queue.java:366-371 | at capacity 2^30 with 2^29 + 1 elements left, the source halves to 2^29 slots and drops the last one, where the model keeps capacity 2^30 |
| QueueSpec.PopFirstInt32AtWrap | Dequeue/src/main/java/com/mycompany/dequeue/Queue.java:118-120 | at capacity 2^30 with 2^29 + 2 elements, the source's popFirst halves to 2^29 slots and drops the last element, where the model keeps every element at capacity 2^30 |
| QueueSpec.PopFirstInt32DropsLast | Dequeue/src/main/java/com/mycompany/dequeue/Queue.java:366-371 | 2^29 + 2 pushes at the rear then one popFirst: the source loses the last element pushed, the model does not |
| QueueSpec.PopLastInt32AtWrap | Dequeue/src/main/java/com/mycompany/dequeue/Queue.java:152-154 | at capacity 2^30 with 2^29 + 2 elements, the source's popLast halves to 2^29 slots and drops the element before the popped one, where the model keeps it at capacity 2^30 |
| QueueSpec.PopLastInt32DropsLast | Dequeue/src/main/java/com/mycompany/dequeue/Queue.java:366-371 | 2^29 + 2 pushes at the rear then one popLast: the source loses the second-to-last element pushed, the model does not |
| QueueScenarios.ForwardTraversal | Dequeue/src/test/java/com/mycompany/dequeue/DequeueTest.java:104-110 | looping while hasNext yields the contents front to rear, or nothing when the deque is full |
| QueueScenarios.DescendingTraversal | Dequeue/src/test/java/com/mycompany/dequeue/DequeueTest.java:131-137 | looping while hasNext yields the contents rear to front, or nothing when the deque is full |
| QueueScenarios.PushAllAtRear | Dequeue/src/test/java/com/mycompany/dequeue/DequeueTest.java:176-178 | a loop of pushLast calls leaves the deque in the state the abstract pushes give |
| QueueScenarios.PopFromFront | Dequeue/src/test/java/com/mycompany/dequeue/DequeueTest.java:184-186 | a loop of popFirst calls returns and leaves what the abstract pops give |
| QueueScenarios.FillCountingUp | Dequeue/src/test/java/com/mycompany/dequeue/DequeueTest.java:14-31 | postcondition: the new deque is empty, and pushing 0..n-1 at the rear holds 0..n-1; verified asserts in the loop: size i + 1 and first 0 after each push |
| QueueScenarios.DrainCountingUp | Dequeue/src/test/java/com/mycompany/dequeue/DequeueTest.java:34-47 | postcondition: popping until empty returns 0..n-1; verified assert in the loop: first agrees with each pop |
| QueueScenarios.PushThenDrainInOrder | Dequeue/src/test/java/com/mycompany/dequeue/DequeueTest.java:12-48 | pushing 0..n-1 at the rear and draining from the front returns 0..n-1 |
| QueueScenarios.FirstRound | Dequeue/src/test/java/com/mycompany/dequeue/DequeueTest.java:53-73 | push 1, 2, 3, pop 1 and 2, sizes 0, 3, 1, isEmpty true before the pushes and false after |
| QueueScenarios.SecondRound | Dequeue/src/test/java/com/mycompany/dequeue/DequeueTest.java:76-86 | from [3], push 4, 5, then pop 3, 4, 5, size 0 and isEmpty true |
| QueueScenarios.PushAndPop | Dequeue/src/test/java/com/mycompany/dequeue/DequeueTest.java:51-87 | the pops return 1, 2, 3, 4, 5, the sizes are 0, 3, 1, 0 and isEmpty gives true, false, true |
| QueueScenarios.IterateForward | Dequeue/src/test/java/com/mycompany/dequeue/DequeueTest.java:91-114 | pushLast A, B, C, then a forward traversal, yields "ABC" |
| QueueScenarios.IterateDescending | Dequeue/src/test/java/com/mycompany/dequeue/DequeueTest.java:118-141 | pushLast C, B, A, then a descending traversal, yields "ABC" |
| QueueScenarios.DoubleThenClear | Dequeue/src/test/java/com/mycompany/dequeue/DequeueTest.java:145-168 | capacity 4 after four pushes, 8 after the fifth, empty after clear |
| QueueScenarios.FillThenDrain | Dequeue/src/test/java/com/mycompany/dequeue/DequeueTest.java:176-189 | eight pushes give capacity 8; popping 8 (or 6) returns it to 4 |
| QueueScenarios.HalveAfterDrain | Dequeue/src/test/java/com/mycompany/dequeue/DequeueTest.java:171-206 | the capacities checked are 8, 4 and 4 |
| QueueScenarios.FromBothEnds | Dequeue/src/test/java/com/mycompany/dequeue/DequeueTest.java:213-217 | pushes at both ends give contents [3, 1, 2, 4], capacity 4, modCount 4 |
| QueueScenarios.MixedOperations | Dequeue/src/test/java/com/mycompany/dequeue/DequeueTest.java:209-244 | size 4 after the pushes, first 3, last 4, popFirst 3, popLast 4, size 2 after the pops, forward "1 2", backward "2 1", isEmpty true and size 0 after clear |
| QueueScenarios.PopEmpty | Dequeue/src/test/java/com/mycompany/dequeue/DequeueTest.java:247-261 | popFirst, popLast, first and last on a new deque all give NoSuchElement |
| QueueScenarios.FullDequeLooksEmpty | Dequeue/src/main/java/com/mycompany/dequeue/Queue.java:256-259 | a deque holding 4 elements in 4 slots traverses as empty both ways |
| QueueScenarios.ModificationDetected | Dequeue/src/main/java/com/mycompany/dequeue/Queue.java:246-250 | a push after the iterator was created makes both hasNext and next give ConcurrentModification |
| QueueScenarios.IteratorOverOne | Dequeue/src/main/java/com/mycompany/dequeue/Queue.java:237-240 | after pushLast 1 on a new deque, a new forward iterator has its cursor at the front, slot 0 |
| QueueScenarios.NewIteratorRevalidatesOld | Dequeue/src/main/java/com/mycompany/dequeue/Queue.java:294-297 | creating a second iterator after a push lets the first, stale one succeed again |
| QueueScenarios.OneTwoThree | Dequeue/src/main/java/com/mycompany/dequeue/Queue.java:75-93 | a new deque is empty with size 0; three pushLast calls then hold [1, 2, 3] in the 4-slot array with the front at slot 0 |
| QueueScenarios.PopFromOneTwoThree | Dequeue/src/main/java/com/mycompany/dequeue/Queue.java:108-113 | popFirst on [1, 2, 3] returns 1 and keeps the same array, with slot 0 nulled, f == 1 and r == 3 |
| QueueScenarios.StaleCursorAfterPop | Dequeue/src/main/java/com/mycompany/dequeue/Queue.java:111 | an iterator created before a popFirst, re-validated by a newer iterator, reads the nulled slot (a null in the source) |
| QueueScenarios.StaleCursorReadsEmptySlot | Dequeue/src/main/java/com/mycompany/dequeue/Queue.java:218-223 | after clear, an older iterator passes the check and reads a null slot |
| QueueScenarios.StaleDescendingAfterClear | Dequeue/src/main/java/com/mycompany/dequeue/Queue.java:307-332 | after clear, an older descending iterator with its cursor at slot 0 passes the check (it stops only at slot 3, the slot before f) and reads a null slot |
| QueueScenarios.StaleCursorOutOfBounds | Dequeue/src/main/java/com/mycompany/dequeue/Queue.java:275 | after clear, an older iterator whose cursor is 7 indexes outside the 4-slot array |

## Findings

| source | as written | input that shows it | evidently intended | confidence | as-written member | corrected member |
|---|---|---|---|---|---|---|
| Dequeue/src/main/java/com/mycompany/dequeue/Queue.java:118 | the shrink test `4 * size <= array.length` is computed in `int`, so for size >= 2^29 it wraps negative and passes; `halfCapacity` (lines 360-375) then keeps only `min(size, capacity / 2)` elements. | 2^29 + 2 pushLast calls on a new deque (capacity 2^30), then popFirst: 2^29 + 1 elements remain, the array is halved to 2^29 slots and the last element pushed is dropped | shrink only when at most a quarter full, keeping every element | not executed; follows from Java `int` semantics | QueueSpec.PopFirstInt32DropsLast | Dequeue.Queue.HalfCapacity |
| Dequeue/src/main/java/com/mycompany/dequeue/Queue.java:152 | popLast has the same `int` shrink test and the same `halfCapacity` call | 2^29 + 2 pushLast calls on a new deque (capacity 2^30), then popLast: it returns the last element, 2^29 + 1 remain, the array is halved to 2^29 slots and the element pushed before the last is dropped | shrink only when at most a quarter full, keeping every element | not executed; follows from Java `int` semantics | QueueSpec.PopLastInt32DropsLast | Dequeue.Queue.HalfCapacity |

## Left out

- `printElements` (Queue.java:385-390) and the demo driver App.java are console output only.
- `volatile` on `modCount` and any concurrent use: the model is sequential.
- Java `int` width: `modCount`, the size and the capacity are unbounded integers in the class model. The 32-bit wrap of `modCount` and the overflow of `2 * capacity` beyond 2^30 slots are not modelled. The wrap of `4 * size` in the shrink test (Queue.java:118, 152) is modelled separately, for both pops, by `QueueSpec.PopFirstInt32` and `QueueSpec.PopLastInt32`; see Findings.
- The unchecked `(E[]) new Object[n]` casts: the array holds `Option<E>`, with `None` for `null`.
- The `DeQueue<E>` interface is not part of this model. The `iterator()` and `descendingIterator()` factories are the iterator constructors.
- `Iterator.forEachRemaining` (used by the tests) is modelled by the traversal loop in `QueueScenarios`. Its default implementation is the same `hasNext`/`next` loop.
- Dequeue.Queue.HalfCapacity: requires `4 * size <= capacity`, which both callers check first (Queue.java:118, 152). With unbounded integers the `min(size, newCapacity)` copy then never drops an element. In Java `int` arithmetic the check can pass wrongly, and the source then drops elements; see Findings.
- Dequeue.DescendingIterator.HasNext: requires the deque's invariant, so that the source's `(f - 1 + cap) % cap` can be stated as the ring slot before `f`. The source's deque always satisfies it.
- QueueScenarios.FillCountingUp: stated for any `n`. The test's `count = 100000` is one instance.
