/**
 * The deque class of the repository: a generic double-ended queue over a
 * resizable circular array, with a front index `f`, a rear (next insertion)
 * index `r`, a size, a modification counter, and two fail-fast iterators
 * that share one `expectedModCount` field of the deque.
 */
module Dequeue {
  import opened QueueSpec

  // ---------------------------------------------------------------------
  // Ring arithmetic
  // ---------------------------------------------------------------------

  /**
   * The slot of the i-th live element when the front is at `f`, for i up to
   * one full turn; the source computes it as `(f + i) % cap`.
   */
  function Slot(f: nat, i: nat, cap: nat): (s: nat)
    requires f < cap && i <= cap
  {
    if f + i < cap then f + i else f + i - cap
  }

  /** The slot before `x`; the source computes it as `(x - 1 + cap) % cap`. */
  function Pred(x: nat, cap: nat): (p: nat)
    requires x < cap
  {
    if x == 0 then cap - 1 else x - 1
  }

  /** How many steps forward lead from slot `from` to slot `to`. */
  function Dist(from: nat, to: nat, cap: nat): (d: nat)
    requires from < cap && to < cap
  {
    if from <= to then to - from else to + cap - from
  }

  lemma ModWrap(x: int, cap: int)
    requires 0 < cap && 0 <= x <= 2 * cap
    ensures x % cap == if x < cap then x else if x < 2 * cap then x - cap else 0
  {
  }

  /** The source's `(f + i) % cap` is Slot(f, i, cap). */
  lemma SlotMod(f: nat, i: nat, cap: nat)
    requires f < cap && i <= cap
    ensures (f + i) % cap == Slot(f, i, cap)
  {
    ModWrap(f + i, cap);
  }

  /** The source's `(x - 1 + cap) % cap` is Pred(x, cap). */
  lemma PredMod(x: nat, cap: nat)
    requires x < cap
    ensures (x - 1 + cap) % cap == Pred(x, cap)
  {
    ModWrap(x - 1 + cap, cap);
  }

  /**
   * The circular-buffer layout, stated slot by slot from the k-th slot after
   * `f` on: the live elements `contents` occupy the slots starting at `f`,
   * wrapping around, in order, and every other slot is null. Being recursive,
   * it is unfolded only where a proof asks for it (LayoutIff gives the
   * quantified form), which keeps the class invariant cheap to carry.
   */
  ghost predicate LaidFrom<E>(a: seq<Option<E>>, f: nat, contents: seq<E>, k: nat)
    requires f < |a|
    decreases |a| - k
  {
    k >= |a| ||
    (a[Slot(f, k, |a|)] == (if k < |contents| then Some(contents[k]) else None) &&
     LaidFrom(a, f, contents, k + 1))
  }

  ghost predicate Layout<E>(a: seq<Option<E>>, f: nat, contents: seq<E>) {
    f < |a| && |contents| <= |a| && LaidFrom(a, f, contents, 0)
  }

  lemma {:induction false} LaidFromAll<E>(a: seq<Option<E>>, f: nat, c: seq<E>, k: nat)
    requires f < |a| && k <= |a|
    ensures LaidFrom(a, f, c, k) <==>
      forall i :: k <= i < |a| ==> a[Slot(f, i, |a|)] == if i < |c| then Some(c[i]) else None
    decreases |a| - k
  {
    if k < |a| {
      LaidFromAll(a, f, c, k + 1);
    }
  }

  /** The layout, slot by slot for every slot of the array at once. */
  lemma LayoutIff<E>(a: seq<Option<E>>, f: nat, c: seq<E>)
    ensures Layout(a, f, c) <==>
      f < |a| && |c| <= |a| &&
      forall i :: 0 <= i < |a| ==> a[Slot(f, i, |a|)] == if i < |c| then Some(c[i]) else None
  {
    if f < |a| {
      LaidFromAll(a, f, c, 0);
    }
  }

  /** The slot of the i-th live element holds it. */
  lemma LayoutAt<E>(a: seq<Option<E>>, f: nat, c: seq<E>, i: nat)
    requires Layout(a, f, c) && i < |c|
    ensures a[Slot(f, i, |a|)] == Some(c[i])
  {
    LayoutIff(a, f, c);
  }

  /** A slot past the live span is null. */
  lemma LayoutFree<E>(a: seq<Option<E>>, f: nat, c: seq<E>, i: nat)
    requires Layout(a, f, c) && |c| <= i < |a|
    ensures a[Slot(f, i, |a|)] == None
  {
    LayoutIff(a, f, c);
  }

  /** Storing at the rear slot and advancing `r` appends to the contents. */
  lemma LayoutPushLast<E>(a: seq<Option<E>>, f: nat, c: seq<E>, e: E)
    requires Layout(a, f, c) && |c| < |a|
    ensures Layout(a[Slot(f, |c|, |a|) := Some(e)], f, c + [e])
    ensures (Slot(f, |c|, |a|) + 1) % |a| == Slot(f, |c| + 1, |a|)
  {
    var L, n, k := |a|, |c|, Slot(f, |c|, |a|);
    var b := a[k := Some(e)];
    LayoutIff(a, f, c);
    LayoutIff(b, f, c + [e]);
    ModWrap(k + 1, L);
    forall i | 0 <= i < L
      ensures b[Slot(f, i, L)] == if i < n + 1 then Some((c + [e])[i]) else None
    {
      if i != n {
        assert Slot(f, i, L) != k;
      }
    }
  }

  /** Stepping `f` back one slot and storing there prepends to the contents; `r` stays. */
  lemma LayoutPushFirst<E>(a: seq<Option<E>>, f: nat, c: seq<E>, e: E)
    requires Layout(a, f, c) && |c| < |a|
    ensures var g := Pred(f, |a|);
      Layout(a[g := Some(e)], g, [e] + c) && Slot(g, |c| + 1, |a|) == Slot(f, |c|, |a|)
  {
    var L, n := |a|, |c|;
    var g := Pred(f, L);
    var b := a[g := Some(e)];
    LayoutIff(a, f, c);
    LayoutIff(b, g, [e] + c);
    forall i | 0 <= i < L
      ensures b[Slot(g, i, L)] == if i < n + 1 then Some(([e] + c)[i]) else None
    {
      if i > 0 {
        assert Slot(g, i, L) == Slot(f, i - 1, L) != g;
      }
    }
  }

  /** The front slot holds the first element; nulling it and advancing `f` drops that element. */
  lemma LayoutPopFirst<E>(a: seq<Option<E>>, f: nat, c: seq<E>)
    requires Layout(a, f, c) && c != []
    ensures a[f] == Some(c[0])
    ensures var g := (f + 1) % |a|;
      g < |a| && Layout(a[f := None], g, c[1..]) && Slot(g, |c| - 1, |a|) == Slot(f, |c|, |a|)
  {
    var L, n := |a|, |c|;
    ModWrap(f + 1, L);
    var g := (f + 1) % L;
    var b := a[f := None];
    LayoutIff(a, f, c);
    LayoutIff(b, g, c[1..]);
    forall i | 0 <= i < L
      ensures b[Slot(g, i, L)] == if i < n - 1 then Some(c[1..][i]) else None
    {
      assert Slot(g, i, L) == Slot(f, i + 1, L);
      if i + 1 < L {
        assert Slot(f, i + 1, L) != f;
      }
    }
  }

  /** The slot before `r` holds the last element; nulling it drops that element. */
  lemma LayoutPopLast<E>(a: seq<Option<E>>, f: nat, c: seq<E>)
    requires Layout(a, f, c) && c != []
    ensures var k := Slot(f, |c| - 1, |a|);
      k == Pred(Slot(f, |c|, |a|), |a|) &&
      a[k] == Some(c[|c| - 1]) && Layout(a[k := None], f, c[..|c| - 1])
  {
    var L, n := |a|, |c|;
    var k := Slot(f, n - 1, L);
    var b := a[k := None];
    LayoutIff(a, f, c);
    LayoutIff(b, f, c[..n - 1]);
    forall i | 0 <= i < L
      ensures b[Slot(f, i, L)] == if i < n - 1 then Some(c[..n - 1][i]) else None
    {
      if i != n - 1 {
        assert Slot(f, i, L) != k;
      }
    }
  }

  /** An array whose first |c| slots hold c in order and the rest null has the layout with front 0. */
  lemma LayoutFromZero<E>(a: array<Option<E>>, c: seq<E>)
    requires 0 < a.Length && |c| <= a.Length
    requires forall i :: 0 <= i < a.Length ==> a[i] == if i < |c| then Some(c[i]) else None
    ensures Layout(a[..], 0, c)
  {
    LayoutIff(a[..], 0, c);
  }

  /** Java's `new Object[n]`: a fresh array of n null slots. */
  method NullArray<E>(n: nat) returns (a: array<Option<E>>)
    ensures fresh(a) && a.Length == n
    ensures forall i :: 0 <= i < n ==> a[i] == None
  {
    a := new Option<E>[n](_ => None);
  }

  function Min(a: nat, b: nat): (m: nat) {
    if a < b then a else b
  }

  // ---------------------------------------------------------------------
  // The deque
  // ---------------------------------------------------------------------

  class Queue<E> {
    // public view
    ghost var Contents: seq<E>  // the live elements, front to rear
    ghost var Repr: set<object>

    // implementation
    var data: array<Option<E>>  // the source's `array`; a null slot is None
    var f: nat                  // slot of the first element
    var r: nat                  // slot where the next pushLast stores
    var size: nat
    var modCount: int           // bumped by every push and every successful pop
    var expectedModCount: int   // overwritten by every new iterator

    /** The class invariant. */
    ghost predicate Valid()
      reads this, Repr
      ensures Valid() ==> this in Repr
    {
      Repr == {this, data} &&
      IsPow2(data.Length) && DEFAULT_CAPACITY <= data.Length &&
      size == |Contents| &&
      Layout(data[..], f, Contents) &&
      r == Slot(f, size, data.Length)
    }

    /** The abstract state the operations are specified against. */
    ghost function Model(): (m: State<E>)
      reads this
    {
      State(Contents, data.Length, modCount)
    }

    constructor ()
      ensures Valid() && fresh(Repr)
      ensures Model() == Empty()
      ensures f == 0 && r == 0 && expectedModCount == 0
    {
      var slots: array<Option<E>> := NullArray(DEFAULT_CAPACITY);
      data := slots;
      f, r, size := 0, 0, 0;
      modCount, expectedModCount := 0, 0;
      Contents := [];
      Repr := {this, data};
      new;
      LayoutFromZero(data, Contents);
    }

    method GetCapacity() returns (c: nat)
      requires Valid()
      ensures c == Model().capacity
      ensures Wf(Model())
    {
      c := data.Length;
    }

    method IsEmpty() returns (empty: bool)
      requires Valid()
      ensures empty <==> Contents == []
    {
      empty := size == 0;
    }

    method Size() returns (n: nat)
      requires Valid()
      ensures n == |Contents|
    {
      n := size;
    }

    method First() returns (res: Result<E>)
      requires Valid()
      ensures Contents == [] ==> res == Err(NoSuchElement)
      ensures Contents != [] ==> res == Ok(Contents[0])
      ensures res == QueueSpec.First(Model())
    {
      var empty := IsEmpty();
      if empty {
        return Err(NoSuchElement);
      }
      LayoutAt(data[..], f, Contents, 0);
      res := Ok(data[f].value);
    }

    method Last() returns (res: Result<E>)
      requires Valid()
      ensures Contents == [] ==> res == Err(NoSuchElement)
      ensures Contents != [] ==> res == Ok(Contents[|Contents| - 1])
      ensures res == QueueSpec.Last(Model())
    {
      var empty := IsEmpty();
      if empty {
        return Err(NoSuchElement);
      }
      var lastRear := (r - 1 + data.Length) % data.Length;
      PredMod(r, data.Length);
      LayoutPopLast(data[..], f, Contents);
      res := Ok(data[lastRear].value);
    }

    method PushFirst(elem: E)
      requires Valid()
      modifies Repr
      ensures Valid() && fresh(Repr - old(Repr))
      ensures Model() == QueueSpec.PushFirst(old(Model()), elem)
      ensures expectedModCount == old(expectedModCount)
      ensures old(size) < old(data.Length) ==> data == old(data) && r == old(r)
      ensures old(size) == old(data.Length) ==> fresh(data) && r == old(size)
    {
      if size == data.Length {
        DoubleCapacity();
      }
      PutFirst(elem);
    }

    /** The store step of pushFirst, once there is room: steps `f` back and stores there. */
    method PutFirst(elem: E)
      requires Valid() && size < data.Length
      modifies data, `f, `size, `modCount, `Contents
      ensures Valid() && data == old(data) && r == old(r)
      ensures Contents == [elem] + old(Contents) && modCount == old(modCount) + 1
    {
      ghost var a := data[..];
      LayoutPushFirst(a, f, Contents, elem);
      PredMod(f, data.Length);
      var front := (f - 1 + data.Length) % data.Length;
      data[front] := Some(elem);
      f, size, modCount, Contents := front, size + 1, modCount + 1, [elem] + Contents;
      assert data[..] == a[front := Some(elem)];
    }

    method PushLast(elem: E)
      requires Valid()
      modifies Repr
      ensures Valid() && fresh(Repr - old(Repr))
      ensures Model() == QueueSpec.PushLast(old(Model()), elem)
      ensures expectedModCount == old(expectedModCount)
      ensures old(size) < old(data.Length) ==> data == old(data) && f == old(f)
      ensures old(size) == old(data.Length) ==> fresh(data) && f == 0
    {
      if size == data.Length {
        DoubleCapacity();
      }
      PutLast(elem);
    }

    /** The store step of pushLast, once there is room: stores at `r` and advances it. */
    method PutLast(elem: E)
      requires Valid() && size < data.Length
      modifies data, `r, `size, `modCount, `Contents
      ensures Valid() && data == old(data) && f == old(f)
      ensures Contents == old(Contents) + [elem] && modCount == old(modCount) + 1
    {
      ghost var a := data[..];
      ghost var rear := r;
      LayoutPushLast(a, f, Contents, elem);
      data[r] := Some(elem);
      r, size, modCount, Contents := (r + 1) % data.Length, size + 1, modCount + 1, Contents + [elem];
      assert data[..] == a[rear := Some(elem)];
    }

    method PopFirst() returns (res: Result<E>)
      requires Valid()
      modifies Repr
      ensures Valid() && fresh(Repr - old(Repr))
      ensures res == QueueSpec.PopFirst(old(Model())).0
      ensures Model() == QueueSpec.PopFirst(old(Model())).1
      ensures old(Contents) == [] ==> unchanged(this) && unchanged(data)
      ensures data.Length == old(data.Length) ==> data == old(data) && r == old(r)
      ensures data.Length != old(data.Length) ==> fresh(data) && f == 0 && r == size
      ensures expectedModCount == old(expectedModCount)
    {
      var empty := IsEmpty();
      if empty {
        return Err(NoSuchElement);
      }
      var elem := TakeFirst();
      if 4 * size <= data.Length {
        HalfCapacity();
      }
      res := Ok(elem);
    }

    /** The removal step of popFirst: reads and nulls slot `f`, advances `f`, counts the modification. */
    method TakeFirst() returns (elem: E)
      requires Valid() && Contents != []
      modifies data, `f, `size, `modCount, `Contents
      ensures Valid() && data == old(data) && r == old(r)
      ensures elem == old(Contents)[0] && Contents == old(Contents)[1..]
      ensures modCount == old(modCount) + 1
    {
      ghost var a := data[..];
      ghost var front := f;
      LayoutPopFirst(a, f, Contents);
      var slot := data[f];
      data[f] := None;
      f, size, modCount, Contents := (f + 1) % data.Length, size - 1, modCount + 1, Contents[1..];
      assert data[..] == a[front := None];
      elem := slot.value;
    }

    method PopLast() returns (res: Result<E>)
      requires Valid()
      modifies Repr
      ensures Valid() && fresh(Repr - old(Repr))
      ensures res == QueueSpec.PopLast(old(Model())).0
      ensures Model() == QueueSpec.PopLast(old(Model())).1
      ensures old(Contents) == [] ==> unchanged(this) && unchanged(data)
      ensures data.Length == old(data.Length) ==> data == old(data) && f == old(f)
      ensures data.Length != old(data.Length) ==> fresh(data) && f == 0 && r == size
      ensures expectedModCount == old(expectedModCount)
    {
      var empty := IsEmpty();
      if empty {
        return Err(NoSuchElement);
      }
      var elem := TakeLast();
      if 4 * size <= data.Length {
        HalfCapacity();
      }
      res := Ok(elem);
    }

    /** The removal step of popLast: steps `r` back, reads and nulls that slot, counts the modification. */
    method TakeLast() returns (elem: E)
      requires Valid() && Contents != []
      modifies data, `r, `size, `modCount, `Contents
      ensures Valid() && data == old(data) && f == old(f)
      ensures elem == old(Contents)[|old(Contents)| - 1] && Contents == old(Contents)[..|old(Contents)| - 1]
      ensures modCount == old(modCount) + 1
    {
      ghost var a := data[..];
      LayoutPopLast(a, f, Contents);
      r := if r == 0 then data.Length - 1 else r - 1;
      var slot := data[r];
      data[r] := None;
      size, modCount, Contents := size - 1, modCount + 1, Contents[..size - 1];
      assert data[..] == a[r := None];
      elem := slot.value;
    }

    /** Resets to an empty deque of DEFAULT_CAPACITY; modCount is NOT bumped. */
    method Clear()
      requires Valid()
      modifies Repr
      ensures Valid() && fresh(Repr - old(Repr)) && fresh(data)
      ensures Model() == QueueSpec.Clear(old(Model()))
      ensures f == 0 && r == 0 && expectedModCount == old(expectedModCount)
      ensures forall i :: 0 <= i < data.Length ==> data[i] == None
    {
      data := NullArray(DEFAULT_CAPACITY);
      f, r, size, Contents, Repr := 0, 0, 0, [], {this, data};
      LayoutFromZero(data, Contents);
    }

    /**
     * The copy loop shared by both resizes: a fresh array of `newCapacity`
     * slots holding the first `count` elements, in order, from slot 0.
     */
    method CopyOut(newCapacity: nat, count: nat) returns (newArray: array<Option<E>>)
      requires Valid() && count <= size && 0 < newCapacity && count <= newCapacity
      ensures fresh(newArray) && newArray.Length == newCapacity
      ensures Layout(newArray[..], 0, Contents[..count])
    {
      newArray := NullArray(newCapacity);
      ghost var a, c := data[..], Contents;
      var i := 0;
      while i < count
        invariant 0 <= i <= count
        invariant forall j :: 0 <= j < i ==> newArray[j] == Some(c[j])
        invariant forall j :: i <= j < newCapacity ==> newArray[j] == None
        modifies newArray
      {
        SlotMod(f, i, data.Length);
        LayoutAt(a, f, c, i);
        newArray[i] := data[(f + i) % data.Length];
        i := i + 1;
      }
      LayoutFromZero(newArray, c[..count]);
    }

    /** Moves the contents, in order, to slots 0..size-1 of an array twice as long. */
    method DoubleCapacity()
      requires Valid()
      modifies Repr
      ensures Valid() && fresh(Repr - old(Repr)) && fresh(data)
      ensures Contents == old(Contents) && data.Length == 2 * old(data.Length)
      ensures f == 0 && r == size
      ensures modCount == old(modCount) && expectedModCount == old(expectedModCount)
    {
      var newCapacity := 2 * data.Length;
      Pow2Double(data.Length);
      var newArray := CopyOut(newCapacity, size);
      assert Contents[..size] == Contents;
      f, r, data, Repr := 0, size, newArray, {this, newArray};
    }

    /**
     * Unless the array is already at DEFAULT_CAPACITY, moves the first
     * min(size, capacity / 2) elements, in order, to slots 0.. of an array
     * half as long. Both callers call it only when 4 * size <= capacity, so
     * the minimum is the size and nothing is lost.
     */
    method HalfCapacity()
      requires Valid()
      requires 4 * size <= data.Length
      modifies Repr
      ensures Valid() && fresh(Repr - old(Repr))
      ensures Contents == old(Contents)
      ensures old(data.Length) <= DEFAULT_CAPACITY ==> unchanged(this) && unchanged(data)
      ensures old(data.Length) > DEFAULT_CAPACITY ==>
        fresh(data) && data.Length == old(data.Length) / 2 && f == 0 && r == size
      ensures modCount == old(modCount) && expectedModCount == old(expectedModCount)
    {
      if data.Length <= DEFAULT_CAPACITY {
        return;
      }
      var newCapacity := data.Length / 2;
      ShrinkKeepsWf(data.Length, size);
      var newArray := CopyOut(newCapacity, Min(size, newCapacity));
      assert Contents[..size] == Contents;
      size := Min(size, newCapacity);
      f, r, data, Repr := 0, size, newArray, {this, newArray};
    }
  }

  // ---------------------------------------------------------------------
  // Iterators
  // ---------------------------------------------------------------------

  /** Forward iterator: `cur` walks from `f` towards `r`. */
  class ForwardIterator<E> {
    const q: Queue<E>
    var cur: nat

    /** Cursor still inside the array, so the ring distances below are defined. */
    ghost predicate InRange()
      reads this, q, q.Repr
    {
      q.Valid() && cur < q.data.Length
    }

    /** How many elements are still to come: the ring distance from `cur` to `r`. */
    ghost function Left(): (n: nat)
      reads this, q, q.Repr
      requires InRange()
    {
      Dist(cur, q.r, q.data.Length)
    }

    /** `cur` lies on the live span of the deque, so Left() counts real elements. */
    ghost predicate Tracks()
      reads this, q, q.Repr
    {
      InRange() && Left() <= q.size
    }

    /** What the iterator has still to yield, front to rear. */
    ghost function Pending(): (p: seq<E>)
      reads this, q, q.Repr
      requires Tracks()
    {
      ForwardPending(q.Contents, cur, q.r, q.data.Length)
    }

    /**
     * Starts at the front and overwrites the deque's shared expectedModCount,
     * which silently re-validates every older iterator. A full deque has
     * f == r, so nothing is pending.
     */
    constructor (q: Queue<E>)
      requires q.Valid()
      modifies q`expectedModCount
      ensures this.q == q && cur == q.f && q.expectedModCount == q.modCount
      ensures Tracks()
      ensures Pending() == if |q.Contents| < q.data.Length then q.Contents else []
    {
      this.q := q;
      cur := q.f;
      q.expectedModCount := q.modCount;
      new;
      ForwardPendingSuffix(q.Contents, q.f, q.r, q.data.Length);
    }

    /** Fails on a concurrent modification; otherwise says whether anything is still pending. */
    function HasNext(): (res: Result<bool>)
      reads this, q, q.Repr
      ensures q.modCount != q.expectedModCount ==> res == Err(ConcurrentModification)
      ensures Tracks() && q.modCount == q.expectedModCount ==> res == Ok(Pending() != [])
    {
      if q.modCount != q.expectedModCount then Err(ConcurrentModification)
      else Ok(cur != q.r)
    }

    method Next() returns (res: Result<Option<E>>)
      requires q.Valid()
      modifies this
      ensures q.modCount != q.expectedModCount ==> res == Err(ConcurrentModification) && cur == old(cur)
      ensures q.modCount == q.expectedModCount && old(cur) == q.r ==>
        res == Err(NoSuchElement) && cur == old(cur)
      ensures q.modCount == q.expectedModCount && old(cur) != q.r && old(cur) >= q.data.Length ==>
        res == Err(IndexOutOfBounds) && cur == old(cur)
      ensures q.modCount == q.expectedModCount && old(cur) != q.r && old(cur) < q.data.Length ==>
        res == Ok(q.data[old(cur)]) && cur == Slot(old(cur), 1, q.data.Length)
      ensures old(Tracks()) && q.modCount == q.expectedModCount ==>
        Tracks() &&
        if old(Pending()) == [] then res == Err(NoSuchElement)
        else res == Ok(Some(old(Pending())[0])) && Pending() == old(Pending())[1..]
    {
      ghost var tracked := Tracks();
      if q.modCount != q.expectedModCount {
        return Err(ConcurrentModification);
      }
      // hasNext() repeats the modCount check, which has just passed
      if cur == q.r {
        return Err(NoSuchElement);
      }
      if cur >= q.data.Length {
        return Err(IndexOutOfBounds);
      }
      if tracked {
        ForwardStep(q.data[..], q.f, q.Contents, cur);
      }
      var elem := q.data[cur];
      SlotMod(cur, 1, q.data.Length);
      cur := (cur + 1) % q.data.Length;
      res := Ok(elem);
    }
  }

  /** Descending iterator: `cur` walks from the slot before `r` back towards the slot before `f`. */
  class DescendingIterator<E> {
    const q: Queue<E>
    var cur: nat

    ghost predicate InRange()
      reads this, q, q.Repr
    {
      q.Valid() && cur < q.data.Length
    }

    /** How many elements are still to come: the ring distance from the slot before `f` to `cur`. */
    ghost function Left(): (n: nat)
      reads this, q, q.Repr
      requires InRange()
    {
      Dist(Pred(q.f, q.data.Length), cur, q.data.Length)
    }

    ghost predicate Tracks()
      reads this, q, q.Repr
    {
      InRange() && Left() <= q.size
    }

    /** What the iterator has still to yield, rear to front. */
    ghost function Pending(): (p: seq<E>)
      reads this, q, q.Repr
      requires Tracks()
    {
      DescendingPending(q.Contents, cur, q.f, q.data.Length)
    }

    /**
     * Starts at the slot before `r` and overwrites the deque's shared
     * expectedModCount. A full deque has f == r, so nothing is pending.
     */
    constructor (q: Queue<E>)
      requires q.Valid()
      modifies q`expectedModCount
      ensures this.q == q && q.expectedModCount == q.modCount
      ensures cur == Pred(q.r, q.data.Length)
      ensures Tracks()
      ensures Pending() == if |q.Contents| < q.data.Length then Reverse(q.Contents) else []
    {
      this.q := q;
      PredMod(q.r, q.data.Length);
      cur := (q.r - 1 + q.data.Length) % q.data.Length;
      q.expectedModCount := q.modCount;
      new;
      assert q.Contents[..|q.Contents|] == q.Contents;
    }

    /** Fails on a concurrent modification; otherwise says whether anything is still pending. */
    function HasNext(): (res: Result<bool>)
      reads this, q, q.Repr
      requires q.Valid()
      ensures q.modCount != q.expectedModCount ==> res == Err(ConcurrentModification)
      ensures Tracks() && q.modCount == q.expectedModCount ==> res == Ok(Pending() != [])
    {
      if q.modCount != q.expectedModCount then Err(ConcurrentModification)
      else
        PredMod(q.f, q.data.Length);
        Ok(cur != (q.f - 1 + q.data.Length) % q.data.Length)
    }

    method Next() returns (res: Result<Option<E>>)
      requires q.Valid()
      modifies this
      ensures q.modCount != q.expectedModCount ==> res == Err(ConcurrentModification) && cur == old(cur)
      ensures q.modCount == q.expectedModCount && old(cur) == Pred(q.f, q.data.Length) ==>
        res == Err(NoSuchElement) && cur == old(cur)
      ensures q.modCount == q.expectedModCount && old(cur) != Pred(q.f, q.data.Length) &&
              old(cur) >= q.data.Length ==>
        res == Err(IndexOutOfBounds) && cur == old(cur)
      ensures q.modCount == q.expectedModCount && old(cur) != Pred(q.f, q.data.Length) &&
              old(cur) < q.data.Length ==>
        res == Ok(q.data[old(cur)]) && cur == Pred(old(cur), q.data.Length)
      ensures old(Tracks()) && q.modCount == q.expectedModCount ==>
        Tracks() &&
        if old(Pending()) == [] then res == Err(NoSuchElement)
        else res == Ok(Some(old(Pending())[0])) && Pending() == old(Pending())[1..]
    {
      ghost var tracked := Tracks();
      if q.modCount != q.expectedModCount {
        return Err(ConcurrentModification);
      }
      // hasNext() repeats the modCount check, which has just passed
      PredMod(q.f, q.data.Length);
      if cur == (q.f - 1 + q.data.Length) % q.data.Length {
        return Err(NoSuchElement);
      }
      if cur >= q.data.Length {
        return Err(IndexOutOfBounds);
      }
      if tracked {
        DescendingStep(q.data[..], q.f, q.Contents, cur);
      }
      var elem := q.data[cur];
      PredMod(cur, q.data.Length);
      cur := (cur - 1 + q.data.Length) % q.data.Length;
      res := Ok(elem);
    }
  }

  // ---------------------------------------------------------------------
  // Cursor steps of the iterators
  // ---------------------------------------------------------------------

  /**
   * What a forward cursor at `cur` has still to yield when the rear is at
   * `r`: the element it sits on, then what is pending from the next slot,
   * until it reaches `r`. ForwardPendingSuffix shows this is the last
   * Dist(cur, r, cap) elements.
   */
  ghost function ForwardPending<E>(c: seq<E>, cur: nat, r: nat, cap: nat): (p: seq<E>)
    requires cur < cap && r < cap && Dist(cur, r, cap) <= |c|
    ensures |p| == Dist(cur, r, cap)
    decreases Dist(cur, r, cap)
  {
    if cur == r then []
    else [c[|c| - Dist(cur, r, cap)]] + ForwardPending(c, Slot(cur, 1, cap), r, cap)
  }

  lemma {:induction false} ForwardPendingSuffix<E>(c: seq<E>, cur: nat, r: nat, cap: nat)
    requires cur < cap && r < cap && Dist(cur, r, cap) <= |c|
    ensures ForwardPending(c, cur, r, cap) == c[|c| - Dist(cur, r, cap)..]
    decreases Dist(cur, r, cap)
  {
    if cur != r {
      var d := Dist(cur, r, cap);
      ForwardPendingSuffix(c, Slot(cur, 1, cap), r, cap);
      assert c[|c| - d..] == [c[|c| - d]] + c[|c| - d + 1..];
    }
  }

  /**
   * What a descending cursor at `cur` has still to yield when the front is at
   * `f`: the first Dist(Pred(f), cur, cap) elements, last one first.
   */
  ghost function DescendingPending<E>(c: seq<E>, cur: nat, f: nat, cap: nat): (p: seq<E>)
    requires cur < cap && f < cap && Dist(Pred(f, cap), cur, cap) <= |c|
  {
    Reverse(c[..Dist(Pred(f, cap), cur, cap)])
  }

  /**
   * A forward cursor with something still to come sits on the first pending
   * element; advancing it by the source's `(cur + 1) % cap` drops exactly that
   * element from what is pending.
   */
  lemma ForwardStep<E>(a: seq<Option<E>>, f: nat, c: seq<E>, cur: nat)
    requires Layout(a, f, c) && cur < |a|
    requires 0 < Dist(cur, Slot(f, |c|, |a|), |a|) <= |c|
    ensures var L, r := |a|, Slot(f, |c|, |a|); var next := (cur + 1) % L;
      var p := ForwardPending(c, cur, r, L);
      next < L && Dist(next, r, L) == |p| - 1 &&
      a[cur] == Some(p[0]) && ForwardPending(c, next, r, L) == p[1..]
  {
    var L, r := |a|, Slot(f, |c|, |a|);
    var left := Dist(cur, r, L);
    ModWrap(cur + 1, L);
    assert cur == Slot(f, |c| - left, L);
    LayoutAt(a, f, c, |c| - left);
  }

  /**
   * A descending cursor with something still to come sits on the first
   * pending element; stepping it back by the source's `(cur - 1 + cap) % cap`
   * drops exactly that element from what is pending.
   */
  lemma DescendingStep<E>(a: seq<Option<E>>, f: nat, c: seq<E>, cur: nat)
    requires Layout(a, f, c) && cur < |a|
    requires 0 < Dist(Pred(f, |a|), cur, |a|) <= |c|
    ensures var L := |a|; var p := DescendingPending(c, cur, f, L);
      Dist(Pred(f, L), Pred(cur, L), L) == |p| - 1 &&
      a[cur] == Some(p[0]) && DescendingPending(c, Pred(cur, L), f, L) == p[1..]
  {
    var L := |a|;
    var left := Dist(Pred(f, L), cur, L);
    assert cur == Slot(f, left - 1, L);
    LayoutAt(a, f, c, left - 1);
    ReverseAt(c[..left], 0);
    assert c[..left][..left - 1] == c[..left - 1];
  }
}
