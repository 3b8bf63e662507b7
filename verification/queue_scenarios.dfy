/**
 * Clients of the deque class: the traversal loop every caller of the
 * iterators writes (`while (it.hasNext()) use(it.next())`), the scenarios of
 * the repository's unit tests, and scenarios that exhibit the iterators'
 * quirks (a full deque traverses as empty, a new iterator re-validates an
 * older one, a stale cursor after clear).
 */
module QueueScenarios {
  import opened QueueSpec
  import opened Dequeue

  // ---------------------------------------------------------------------
  // Traversals
  // ---------------------------------------------------------------------

  /**
   * Drains a fresh forward iterator. It yields the deque front to rear,
   * except that a full deque (f == r) yields nothing.
   */
  method ForwardTraversal<E>(q: Queue<E>) returns (out: seq<E>)
    requires q.Valid()
    modifies q`expectedModCount
    ensures q.Valid() && q.Contents == old(q.Contents) && q.expectedModCount == q.modCount
    ensures out == if |q.Contents| < q.data.Length then q.Contents else []
  {
    var it := new ForwardIterator(q);
    ghost var expected := it.Pending();
    out := [];
    while it.HasNext() == Ok(true)
      invariant it.Tracks() && q.modCount == q.expectedModCount
      invariant out + it.Pending() == expected
      decreases |it.Pending()|
      modifies it
    {
      ghost var p := it.Pending();
      var x := it.Next();
      TakeHead(out, p, x.value.value, it.Pending(), expected);
      out := out + [x.value.value];
    }
  }

  /**
   * Drains a fresh descending iterator. It yields the deque rear to front,
   * except that a full deque yields nothing.
   */
  method DescendingTraversal<E>(q: Queue<E>) returns (out: seq<E>)
    requires q.Valid()
    modifies q`expectedModCount
    ensures q.Valid() && q.Contents == old(q.Contents) && q.expectedModCount == q.modCount
    ensures out == if |q.Contents| < q.data.Length then Reverse(q.Contents) else []
  {
    var it := new DescendingIterator(q);
    ghost var expected := it.Pending();
    out := [];
    while it.HasNext() == Ok(true)
      invariant it.q == q && it.Tracks() && q.modCount == q.expectedModCount
      invariant out + it.Pending() == expected
      decreases |it.Pending()|
      modifies it
    {
      ghost var p := it.Pending();
      var x := it.Next();
      TakeHead(out, p, x.value.value, it.Pending(), expected);
      out := out + [x.value.value];
    }
    assert out == expected;
  }

  /** Moving the head of what is pending to the end of what is done keeps their concatenation. */
  lemma TakeHead<E>(done: seq<E>, p: seq<E>, x: E, rest: seq<E>, whole: seq<E>)
    requires done + p == whole && p != [] && x == p[0] && rest == p[1..]
    ensures (done + [x]) + rest == whole
  {
    assert p == [p[0]] + p[1..];
  }

  // ---------------------------------------------------------------------
  // Client loops, proved against the functions of QueueSpec
  // ---------------------------------------------------------------------

  /** Calls pushLast on each element of `xs` in turn. */
  method PushAllAtRear<E>(q: Queue<E>, xs: seq<E>)
    requires q.Valid()
    modifies q.Repr
    ensures q.Valid() && fresh(q.Repr - old(q.Repr))
    ensures q.Model() == PushAllLast(old(q.Model()), xs)
  {
    var i := 0;
    while i < |xs|
      invariant 0 <= i <= |xs|
      invariant q.Valid() && fresh(q.Repr - old(q.Repr))
      invariant q.Model() == PushAllLast(old(q.Model()), xs[..i])
    {
      q.PushLast(xs[i]);
      assert xs[..i + 1][..i] == xs[..i];
      i := i + 1;
    }
    assert xs[..|xs|] == xs;
  }

  /** Calls popFirst `n` times, collecting what each call returns or throws. */
  method PopFromFront<E>(q: Queue<E>, n: nat) returns (popped: seq<Result<E>>)
    requires q.Valid()
    modifies q.Repr
    ensures q.Valid() && fresh(q.Repr - old(q.Repr))
    ensures popped == DrainFirst(old(q.Model()), n).0 && q.Model() == DrainFirst(old(q.Model()), n).1
  {
    popped := [];
    var i := 0;
    while i < n
      invariant 0 <= i <= n
      invariant q.Valid() && fresh(q.Repr - old(q.Repr))
      invariant popped == DrainFirst(old(q.Model()), i).0 && q.Model() == DrainFirst(old(q.Model()), i).1
    {
      var x := q.PopFirst();
      popped := popped + [x];
      i := i + 1;
    }
  }

  // ---------------------------------------------------------------------
  // The unit tests
  // ---------------------------------------------------------------------

  /** Pushes 0..n-1 at the rear; after each push the size has grown by one and the front is still 0. */
  method FillCountingUp(n: nat) returns (q: Queue<int>, emptyAtStart: bool)
    ensures q.Valid() && fresh(q.Repr)
    ensures q.Contents == seq(n, j => j) && emptyAtStart
  {
    q := new Queue<int>();
    emptyAtStart := q.IsEmpty();
    var i := 0;
    while i < n
      invariant 0 <= i <= n
      invariant q.Valid() && fresh(q.Repr)
      invariant q.Contents == seq(i, j => j)
    {
      q.PushLast(i);
      var sz := q.Size();
      var front := q.First();
      assert sz == i + 1 && front == Ok(0);
      i := i + 1;
    }
  }

  /** Pops from the front until empty, checking that first() agrees with each pop. */
  method DrainCountingUp(q: Queue<int>, n: nat) returns (popped: seq<int>)
    requires q.Valid() && q.Contents == seq(n, j => j)
    modifies q.Repr
    ensures q.Valid() && q.Contents == []
    ensures popped == seq(n, j => j)
  {
    popped := [];
    var empty := q.IsEmpty();
    while !empty
      invariant q.Valid() && fresh(q.Repr - old(q.Repr))
      invariant |popped| + |q.Contents| == n
      invariant popped == seq(|popped|, j => j)
      invariant q.Contents == seq(|q.Contents|, j => |popped| + j)
      invariant empty <==> q.Contents == []
      decreases |q.Contents|
    {
      var front := q.First();
      var x := q.PopFirst();
      assert front == x == Ok(|popped|);
      popped := popped + [x.value];
      empty := q.IsEmpty();
    }
    assert empty;
  }

  /** Pushing 0..n-1 at the rear and popping from the front until empty yields 0..n-1. */
  method PushThenDrainInOrder(n: nat) returns (popped: seq<int>)
    ensures popped == seq(n, j => j)
  {
    var q, _ := FillCountingUp(n);
    popped := DrainCountingUp(q, n);
  }

  /** Pushes 1, 2, 3 at the rear of a new deque, then pops two from the front. */
  method FirstRound() returns (q: Queue<int>, popped: seq<Result<int>>, sizes: seq<nat>, empties: seq<bool>)
    ensures q.Valid() && fresh(q.Repr) && q.Contents == [3]
    ensures popped == [Ok(1), Ok(2)] && sizes == [0, 3, 1] && empties == [true, false]
  {
    var n0, e0;
    q, n0, e0 := OneTwoThree();
    var e1 := q.IsEmpty();
    var n1 := q.Size();
    empties := [e0, e1];
    ghost var m := q.Model();
    popped := PopFromFront(q, 2);
    DrainFirstItems(m, 2);
    assert m.items[..2] == [1, 2] && m.items[2..] == [3];
    var n2 := q.Size();
    sizes := [n0, n1, n2];
  }

  /** Pushes 4, 5 at the rear of a deque holding 3, then pops three from the front. */
  method SecondRound(q: Queue<int>) returns (popped: seq<Result<int>>, size: nat, empty: bool)
    requires q.Valid() && q.Contents == [3]
    modifies q.Repr
    ensures popped == [Ok(3), Ok(4), Ok(5)] && size == 0 && empty
  {
    ghost var m := q.Model();
    PushAllAtRear(q, [4, 5]);
    PushAllLastItems(m, [4, 5]);
    m := q.Model();
    popped := PopFromFront(q, 3);
    DrainFirstItems(m, 3);
    assert m.items[..3] == [3, 4, 5];
    empty := q.IsEmpty();
    size := q.Size();
  }

  /** Pushes 1, 2, 3 at the rear, pops two, pushes 4, 5 and pops three: first in, first out. */
  method PushAndPop() returns (popped: seq<Result<int>>, sizes: seq<nat>, empties: seq<bool>)
    ensures popped == [Ok(1), Ok(2), Ok(3), Ok(4), Ok(5)]
    ensures sizes == [0, 3, 1, 0] && empties == [true, false, true]
  {
    var q, ab, firstSizes, firstEmpties := FirstRound();
    var cde, n3, e3 := SecondRound(q);
    popped, sizes, empties := ab + cde, firstSizes + [n3], firstEmpties + [e3];
  }

  /** Forward traversal of a deque filled with A, B, C at the rear yields "ABC". */
  method IterateForward() returns (out: string)
    ensures out == "ABC"
  {
    var q := new Queue<char>();
    PushAllLastItems(q.Model(), "ABC");
    PushAllLastCapacity(q.Model(), "ABC");
    PushAllAtRear(q, "ABC");
    out := ForwardTraversal(q);
  }

  /** Descending traversal of a deque filled with C, B, A at the rear yields "ABC". */
  method IterateDescending() returns (out: string)
    ensures out == "ABC"
  {
    var q := new Queue<char>();
    PushAllLastItems(q.Model(), "CBA");
    PushAllLastCapacity(q.Model(), "CBA");
    PushAllAtRear(q, "CBA");
    assert q.Contents == "CBA";
    assert q.data.Length == 4;
    out := DescendingTraversal(q);
    assert out == Reverse("CBA");
    ReverseCBA();
  }

  lemma ReverseCBA()
    ensures Reverse("CBA") == "ABC"
  {
    assert "CBA"[..2] == "CB" && "CB"[..1] == "C" && "C"[..0] == [];
  }

  /** Four pushes keep capacity 4, the fifth doubles it, and clear empties the deque. */
  method DoubleThenClear() returns (caps: seq<nat>, empty: bool)
    ensures caps == [4, 8] && empty
  {
    var q := new Queue<int>();
    PushAllLastItems(q.Model(), [0, 1, 2, 3]);
    PushAllLastCapacity(q.Model(), [0, 1, 2, 3]);
    PushAllAtRear(q, [0, 1, 2, 3]);
    var c0 := q.GetCapacity();
    q.PushLast(5);
    var c1 := q.GetCapacity();
    q.Clear();
    empty := q.IsEmpty();
    caps := [c0, c1];
  }

  /**
   * Pushes 1..8 at the rear of an empty deque of capacity 4, which doubles
   * it to 8, then pops `n` from the front.
   */
  method FillThenDrain(q: Queue<int>, n: nat) returns (full: nat, after: nat)
    requires q.Valid() && q.Contents == [] && q.data.Length == DEFAULT_CAPACITY
    requires n == 6 || n == 8
    modifies q.Repr
    ensures q.Valid() && fresh(q.Repr - old(q.Repr))
    ensures full == 2 * DEFAULT_CAPACITY && after == q.data.Length == DEFAULT_CAPACITY
    ensures q.Contents == if n == 8 then [] else [7, 8]
  {
    var xs := [1, 2, 3, 4, 5, 6, 7, 8];
    HalvingScenario(q.Model(), xs);
    PushAllAtRear(q, xs);
    full := q.GetCapacity();
    var _ := PopFromFront(q, n);
    after := q.GetCapacity();
  }

  /**
   * Eight pushes double the capacity to 8; popping all eight halves it back
   * to 4; eight more pushes and six pops (three quarters of the size,
   * rounded up) leave it at 4.
   */
  method HalveAfterDrain() returns (caps: seq<nat>)
    ensures caps == [8, 4, 4]
  {
    var q := new Queue<int>();
    var c0, c1 := FillThenDrain(q, 8);
    var _, c2 := FillThenDrain(q, 6);
    caps := [c0, c1, c2];
  }

  /** pushFirst 1, pushLast 2, pushFirst 3, pushLast 4 on a new deque. */
  method FromBothEnds() returns (q: Queue<int>)
    ensures q.Valid() && fresh(q.Repr)
    ensures q.Model() == State([3, 1, 2, 4], 4, 4)
  {
    q := new Queue<int>();
    q.PushFirst(1);
    q.PushLast(2);
    q.PushFirst(3);
    q.PushLast(4);
  }

  /** Mixed pushes at both ends, peeks, pops at both ends, both traversals, clear. */
  method MixedOperations() returns (peeks: seq<Result<int>>, sizes: seq<nat>, forward: seq<int>, backward: seq<int>, empty: bool, size: nat)
    ensures peeks == [Ok(3), Ok(4), Ok(3), Ok(4)]
    ensures sizes == [4, 2]
    ensures forward == [1, 2] && backward == [2, 1] && empty && size == 0
  {
    var q := FromBothEnds();
    var full := q.Size();
    var a := q.First();
    var b := q.Last();
    var c := q.PopFirst();
    var d := q.PopLast();
    var left := q.Size();
    peeks := [a, b, c, d];
    sizes := [full, left];
    forward := ForwardTraversal(q);
    backward := DescendingTraversal(q);
    q.Clear();
    empty := q.IsEmpty();
    size := q.Size();
  }

  /** Popping from a new deque fails with NoSuchElement, as do both peeks. */
  method PopEmpty() returns (errs: seq<Result<int>>)
    ensures errs == [Err(NoSuchElement), Err(NoSuchElement), Err(NoSuchElement), Err(NoSuchElement)]
  {
    var q := new Queue<int>();
    var a := q.PopFirst();
    var b := q.PopLast();
    var c := q.First();
    var d := q.Last();
    errs := [a, b, c, d];
  }

  // ---------------------------------------------------------------------
  // The iterators' quirks
  // ---------------------------------------------------------------------

  /** A deque holding exactly `capacity` elements has f == r, so both traversals yield nothing. */
  method FullDequeLooksEmpty() returns (forward: seq<int>, backward: seq<int>, size: nat)
    ensures forward == [] && backward == [] && size == 4
  {
    var q := new Queue<int>();
    q.PushLast(1);
    q.PushLast(2);
    q.PushLast(3);
    q.PushLast(4);
    forward := ForwardTraversal(q);
    backward := DescendingTraversal(q);
    size := q.Size();
  }

  /** A push after an iterator was created makes its next call fail with ConcurrentModification. */
  method ModificationDetected() returns (res: Result<Option<int>>, more: Result<bool>)
    ensures res == Err(ConcurrentModification) && more == Err(ConcurrentModification)
  {
    var q := new Queue<int>();
    q.PushLast(1);
    var it := new ForwardIterator(q);
    q.PushLast(2);
    more := it.HasNext();
    res := it.Next();
  }

  /** pushLast 1 on a new deque, then a forward iterator over it. */
  method IteratorOverOne() returns (q: Queue<int>, it: ForwardIterator<int>)
    ensures q.Valid() && fresh(q.Repr) && fresh(it)
    ensures q.Contents == [1] && q.data.Length == 4 && q.f == 0
    ensures it.q == q && it.cur == 0
  {
    q := new Queue<int>();
    q.PushLast(1);
    it := new ForwardIterator(q);
  }

  /**
   * Every iterator writes the deque's single expectedModCount, so creating a
   * second iterator after a push re-validates the first, stale one.
   */
  method NewIteratorRevalidatesOld() returns (res: Result<Option<int>>)
    ensures res == Ok(Some(1))
  {
    var q, stale := IteratorOverOne();
    q.PushLast(2);
    var newer := new DescendingIterator(q);
    LayoutAt(q.data[..], q.f, q.Contents, 0);
    res := stale.Next();
  }

  /** pushLast 1, 2, 3 on a new deque, whose size is 0 before: the front stays at slot 0 of the 4-slot array. */
  method OneTwoThree() returns (q: Queue<int>, sizeBefore: nat, emptyBefore: bool)
    ensures q.Valid() && fresh(q.Repr)
    ensures q.Contents == [1, 2, 3] && q.data.Length == 4 && q.f == 0 && sizeBefore == 0 && emptyBefore
  {
    q := new Queue<int>();
    emptyBefore := q.IsEmpty();
    sizeBefore := q.Size();
    q.PushLast(1);
    q.PushLast(2);
    q.PushLast(3);
  }

  /** popFirst on [1, 2, 3] nulls slot 0 of the same array and moves the front to slot 1. */
  method PopFromOneTwoThree(q: Queue<int>) returns (head: Result<int>)
    requires q.Valid() && q.Contents == [1, 2, 3] && q.data.Length == 4 && q.f == 0
    modifies q.Repr
    ensures q.Valid() && q.Repr == old(q.Repr) && q.data == old(q.data)
    ensures head == Ok(1) && q.Contents == [2, 3] && q.f == 1 && q.r == 3
    ensures q.data[0] == None
  {
    head := q.PopFirst();
    assert q.Contents == [2, 3] && q.data.Length == 4;
    LayoutFree(q.data[..], q.f, q.Contents, 3);
  }

  /**
   * A pop moves the front past a slot it nulls in the same array. An iterator
   * created before the pop, re-validated by a newer iterator, reads that null
   * slot.
   */
  method StaleCursorAfterPop() returns (res: Result<Option<int>>)
    ensures res == Ok(None)
  {
    var q, _, _ := OneTwoThree();
    var stale := new ForwardIterator(q);
    var head := PopFromOneTwoThree(q);
    var newer := new DescendingIterator(q);
    res := stale.Next();
  }

  /**
   * clear does not count as a modification, so an iterator created before it
   * passes the check afterwards. With its cursor inside the new array it reads
   * an empty slot (a null in the source).
   */
  method StaleCursorReadsEmptySlot() returns (res: Result<Option<int>>)
    ensures res == Ok(None)
  {
    var q := new Queue<int>();
    q.PushFirst(1);
    var it := new ForwardIterator(q);
    q.Clear();
    res := it.Next();
  }

  /**
   * A descending iterator stops only at the slot before the front, which is
   * slot 3 after clear: one whose cursor is at slot 0 passes the check and
   * reads the null slot.
   */
  method StaleDescendingAfterClear() returns (res: Result<Option<int>>)
    ensures res == Ok(None)
  {
    var q := new Queue<int>();
    q.PushLast(1);
    var it := new DescendingIterator(q);
    q.Clear();
    res := it.Next();
  }

  /**
   * With its cursor beyond the new, shorter array, a stale iterator's next
   * indexes outside the array. Four pushes fill the array; the fifth, at the
   * front, doubles it to 8 slots and puts the front at slot 7.
   */
  method StaleCursorOutOfBounds() returns (res: Result<Option<int>>)
    ensures res == Err(IndexOutOfBounds)
  {
    var q := new Queue<int>();
    PushAllLastItems(q.Model(), [1, 2, 3, 4]);
    PushAllLastCapacity(q.Model(), [1, 2, 3, 4]);
    PushAllAtRear(q, [1, 2, 3, 4]);
    q.PushFirst(5);
    var it := new ForwardIterator(q);
    q.Clear();
    res := it.Next();
  }
}
