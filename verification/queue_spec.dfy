/**
 * The abstract view of the circular-array double-ended queue: the live
 * elements in front-to-rear order, the capacity of the backing array and the
 * modification counter. Each operation of the deque is a function on that
 * view; the imperative class in queue.dfy is proved against these functions.
 */
module QueueSpec {

  /** Capacity of a fresh or cleared deque, and the floor below which it never shrinks. */
  const DEFAULT_CAPACITY: nat := 4

  /** The Java exceptions the deque and its iterators can raise. */
  datatype Error =
    | NoSuchElement          // java.util.NoSuchElementException
    | ConcurrentModification // java.util.ConcurrentModificationException
    | IndexOutOfBounds       // java.lang.ArrayIndexOutOfBoundsException

  datatype Result<T> = Ok(value: T) | Err(error: Error)

  /** A slot of the backing array: `None` is a Java `null`. */
  datatype Option<T> = None | Some(value: T)

  predicate IsPow2(n: nat)
    decreases n
  {
    n == 1 || (n >= 2 && n % 2 == 0 && IsPow2(n / 2))
  }

  /** Distinct powers of two are at least a factor of two apart. */
  lemma {:induction false} Pow2Gap(c: nat, k: nat)
    requires IsPow2(c) && IsPow2(k) && c > k
    ensures c >= 2 * k
    decreases k
  {
    if k != 1 {
      Pow2Gap(c / 2, k / 2);
    }
  }

  /** Abstract state: contents front-to-rear, array length, modification count. */
  datatype State<E> = State(items: seq<E>, capacity: nat, modCount: int)

  /** The class invariant as far as the abstract state can see it. */
  predicate Wf<E>(s: State<E>) {
    IsPow2(s.capacity) && DEFAULT_CAPACITY <= s.capacity && |s.items| <= s.capacity
  }

  /** A newly constructed deque. */
  function Empty<E>(): (s: State<E>) {
    State([], DEFAULT_CAPACITY, 0)
  }

  /** Capacity after a push that finds `size` elements in `cap` slots: doubled when full. */
  function GrownCapacity(cap: nat, size: nat): (c: nat) {
    if size == cap then 2 * cap else cap
  }

  /**
   * Capacity after a pop that leaves `size` elements in `cap` slots: halved once
   * when at most a quarter full, unless already at DEFAULT_CAPACITY.
   */
  function ShrunkCapacity(cap: nat, size: nat): (c: nat) {
    if 4 * size <= cap && cap > DEFAULT_CAPACITY then cap / 2 else cap
  }

  function PushFirst<E>(s: State<E>, e: E): (t: State<E>) {
    State([e] + s.items, GrownCapacity(s.capacity, |s.items|), s.modCount + 1)
  }

  function PushLast<E>(s: State<E>, e: E): (t: State<E>) {
    State(s.items + [e], GrownCapacity(s.capacity, |s.items|), s.modCount + 1)
  }

  /** An empty deque raises NoSuchElement and is left exactly as it was. */
  function PopFirst<E>(s: State<E>): (rt: (Result<E>, State<E>)) {
    if s.items == [] then (Err(NoSuchElement), s)
    else (Ok(s.items[0]),
          State(s.items[1..], ShrunkCapacity(s.capacity, |s.items| - 1), s.modCount + 1))
  }

  function PopLast<E>(s: State<E>): (rt: (Result<E>, State<E>)) {
    if s.items == [] then (Err(NoSuchElement), s)
    else (Ok(s.items[|s.items| - 1]),
          State(s.items[..|s.items| - 1], ShrunkCapacity(s.capacity, |s.items| - 1), s.modCount + 1))
  }

  function First<E>(s: State<E>): (res: Result<E>) {
    if s.items == [] then Err(NoSuchElement) else Ok(s.items[0])
  }

  function Last<E>(s: State<E>): (res: Result<E>) {
    if s.items == [] then Err(NoSuchElement) else Ok(s.items[|s.items| - 1])
  }

  /** Clearing resets contents and capacity but keeps the modification count. */
  function Clear<E>(s: State<E>): (t: State<E>) {
    State([], DEFAULT_CAPACITY, s.modCount)
  }

  /** The mutating operations, so that arbitrary histories can be stated. */
  datatype Op<E> = PushFirstOp(e: E) | PushLastOp(e: E) | PopFirstOp | PopLastOp | ClearOp

  function Apply<E>(s: State<E>, op: Op<E>): (t: State<E>) {
    match op
    case PushFirstOp(e) => PushFirst(s, e)
    case PushLastOp(e) => PushLast(s, e)
    case PopFirstOp => PopFirst(s).1
    case PopLastOp => PopLast(s).1
    case ClearOp => Clear(s)
  }

  function Run<E>(s: State<E>, ops: seq<Op<E>>): (t: State<E>)
    decreases |ops|
  {
    if ops == [] then s else Run(Apply(s, ops[0]), ops[1..])
  }

  /** Pushes each of `xs` in turn at the rear. */
  function PushAllLast<E>(s: State<E>, xs: seq<E>): (t: State<E>)
    decreases |xs|
  {
    if xs == [] then s else PushLast(PushAllLast(s, xs[..|xs| - 1]), xs[|xs| - 1])
  }

  /** Pushes each of `xs` in turn at the front. */
  function PushAllFirst<E>(s: State<E>, xs: seq<E>): (t: State<E>)
    decreases |xs|
  {
    if xs == [] then s else PushFirst(PushAllFirst(s, xs[..|xs| - 1]), xs[|xs| - 1])
  }

  /** Pops `n` times from the front, collecting what each pop returns. */
  function DrainFirst<E>(s: State<E>, n: nat): (rt: (seq<Result<E>>, State<E>))
    decreases n
  {
    if n == 0 then ([], s)
    else
      var done := DrainFirst(s, n - 1);
      var pop := PopFirst(done.1);
      (done.0 + [pop.0], pop.1)
  }

  /** Pops `n` times from the rear, collecting what each pop returns. */
  function DrainLast<E>(s: State<E>, n: nat): (rt: (seq<Result<E>>, State<E>))
    decreases n
  {
    if n == 0 then ([], s)
    else
      var done := DrainLast(s, n - 1);
      var pop := PopLast(done.1);
      (done.0 + [pop.0], pop.1)
  }

  function Oks<E>(xs: seq<E>): (rs: seq<Result<E>>)
    ensures |rs| == |xs|
    ensures forall i :: 0 <= i < |xs| ==> rs[i] == Ok(xs[i])
    decreases |xs|
  {
    if xs == [] then [] else Oks(xs[..|xs| - 1]) + [Ok(xs[|xs| - 1])]
  }

  function Reverse<E>(xs: seq<E>): (rs: seq<E>)
    ensures |rs| == |xs|
    decreases |xs|
  {
    if xs == [] then [] else [xs[|xs| - 1]] + Reverse(xs[..|xs| - 1])
  }

  lemma {:induction false} ReverseAt<E>(xs: seq<E>, i: nat)
    requires i < |xs|
    ensures Reverse(xs)[i] == xs[|xs| - 1 - i]
    decreases |xs|
  {
    if i > 0 {
      ReverseAt(xs[..|xs| - 1], i - 1);
    }
  }

  lemma {:induction false} ReverseCons<E>(x: E, ys: seq<E>)
    ensures Reverse([x] + ys) == Reverse(ys) + [x]
    decreases |ys|
  {
    if ys != [] {
      var init := ys[..|ys| - 1];
      assert ([x] + ys)[..|ys|] == [x] + init;
      ReverseCons(x, init);
    }
  }

  /** Reversing a suffix puts its first element last. */
  lemma ReverseSuffix<E>(xs: seq<E>, k: nat)
    requires k < |xs|
    ensures Reverse(xs[k..]) == Reverse(xs[k + 1..]) + [xs[k]]
  {
    assert xs[k..] == [xs[k]] + xs[k + 1..];
    ReverseCons(xs[k], xs[k + 1..]);
  }

  lemma OksSnoc<E>(xs: seq<E>, x: E)
    ensures Oks(xs + [x]) == Oks(xs) + [Ok(x)]
  {
    assert (xs + [x])[..|xs|] == xs;
  }

  lemma ReverseReverse<E>(xs: seq<E>)
    ensures Reverse(Reverse(xs)) == xs
  {
    forall i | 0 <= i < |xs| ensures Reverse(Reverse(xs))[i] == xs[i] {
      ReverseAt(Reverse(xs), i);
      ReverseAt(xs, |xs| - 1 - i);
    }
  }

  // ---------------------------------------------------------------------
  // The class invariant is kept by every operation
  // ---------------------------------------------------------------------

  lemma Pow2Double(n: nat)
    requires IsPow2(n)
    ensures IsPow2(2 * n)
  {
    assert (2 * n) / 2 == n;
  }

  /** Growing keeps the capacity a power of two, at least DEFAULT_CAPACITY, and makes room for one more. */
  lemma GrowKeepsWf(cap: nat, size: nat)
    requires IsPow2(cap) && DEFAULT_CAPACITY <= cap && size <= cap
    ensures var c := GrownCapacity(cap, size); IsPow2(c) && DEFAULT_CAPACITY <= c && size < c
  {
    Pow2Double(cap);
  }

  /** Shrinking after a pop keeps the capacity a power of two, at least DEFAULT_CAPACITY, and room for what is left. */
  lemma ShrinkKeepsWf(cap: nat, size: nat)
    requires IsPow2(cap) && DEFAULT_CAPACITY <= cap && size < cap
    ensures var c := ShrunkCapacity(cap, size); IsPow2(c) && DEFAULT_CAPACITY <= c && size <= c
  {
    if 4 * size <= cap && cap > DEFAULT_CAPACITY {
      assert IsPow2(cap / 2);
      Pow2Gap(cap, DEFAULT_CAPACITY);
    }
  }

  /** Every operation keeps the capacity a power of two, at least DEFAULT_CAPACITY and no smaller than the size. */
  lemma ApplyPreservesWf<E>(s: State<E>, op: Op<E>)
    requires Wf(s)
    ensures Wf(Apply(s, op))
    ensures Apply(s, op).modCount == if op.ClearOp? || (!op.PushFirstOp? && !op.PushLastOp? && s.items == []) then s.modCount else s.modCount + 1
  {
    var n := |s.items|;
    match op
    case PushFirstOp(e) =>
      GrowKeepsWf(s.capacity, n);
    case PushLastOp(e) =>
      GrowKeepsWf(s.capacity, n);
    case PopFirstOp =>
      if s.items != [] {
        ShrinkKeepsWf(s.capacity, n - 1);
      }
    case PopLastOp =>
      if s.items != [] {
        ShrinkKeepsWf(s.capacity, n - 1);
      }
    case ClearOp =>
  }

  /** Any history keeps the invariant, and the modification count never decreases. */
  lemma {:induction false} RunPreservesWf<E>(s: State<E>, ops: seq<Op<E>>)
    requires Wf(s)
    ensures Wf(Run(s, ops))
    ensures Run(s, ops).modCount >= s.modCount
    decreases |ops|
  {
    if ops != [] {
      ApplyPreservesWf(s, ops[0]);
      RunPreservesWf(Apply(s, ops[0]), ops[1..]);
    }
  }

  // ---------------------------------------------------------------------
  // Space bound of reachable states (the 4:1 hysteresis)
  // ---------------------------------------------------------------------

  /** Reachable states: the capacity is DEFAULT_CAPACITY or less than eight times the size. */
  predicate Compact<E>(s: State<E>) {
    Wf(s) && (s.capacity == DEFAULT_CAPACITY || 8 * |s.items| > s.capacity)
  }

  lemma ShrinkKeepsCompact(cap: nat, size: nat)
    requires IsPow2(cap) && DEFAULT_CAPACITY <= cap && size < cap
    requires cap == DEFAULT_CAPACITY || 8 * (size + 1) > cap
    ensures var c := ShrunkCapacity(cap, size);
      IsPow2(c) && DEFAULT_CAPACITY <= c && size <= c && (c == DEFAULT_CAPACITY || 8 * size > c)
  {
    if 4 * size <= cap && cap > DEFAULT_CAPACITY {
      Pow2Gap(cap, 4);
      assert IsPow2(cap / 2);
      if cap != 8 {
        Pow2Gap(cap, 8);
      }
    }
  }

  lemma ApplyPreservesCompact<E>(s: State<E>, op: Op<E>)
    requires Compact(s)
    ensures Compact(Apply(s, op))
  {
    match op
    case PushFirstOp(_) =>
    case PushLastOp(_) =>
    case PopFirstOp =>
      if s.items != [] {
        ShrinkKeepsCompact(s.capacity, |s.items| - 1);
      }
    case PopLastOp =>
      if s.items != [] {
        ShrinkKeepsCompact(s.capacity, |s.items| - 1);
      }
    case ClearOp =>
  }

  /**
   * In every history that starts from a new deque the capacity stays below
   * eight times the size (or at DEFAULT_CAPACITY); in particular a deque that
   * has been emptied by pops is back to DEFAULT_CAPACITY.
   */
  lemma {:induction false} RunFromEmptyIsCompact<E>(ops: seq<Op<E>>)
    ensures Compact(Run(Empty(), ops))
    ensures Run(Empty(), ops).items == [] ==> Run(Empty(), ops).capacity == DEFAULT_CAPACITY
  {
    RunKeepsCompact(Empty(), ops);
  }

  lemma {:induction false} RunKeepsCompact<E>(s: State<E>, ops: seq<Op<E>>)
    requires Compact(s)
    ensures Compact(Run(s, ops))
    decreases |ops|
  {
    if ops != [] {
      ApplyPreservesCompact(s, ops[0]);
      RunKeepsCompact(Apply(s, ops[0]), ops[1..]);
    }
  }

  // ---------------------------------------------------------------------
  // Order: one consistent front-to-rear sequence, whichever end is used
  // ---------------------------------------------------------------------

  lemma {:induction false} PushAllLastItems<E>(s: State<E>, xs: seq<E>)
    ensures PushAllLast(s, xs).items == s.items + xs
    ensures PushAllLast(s, xs).modCount == s.modCount + |xs|
    decreases |xs|
  {
    if xs != [] {
      PushAllLastItems(s, xs[..|xs| - 1]);
      assert xs == xs[..|xs| - 1] + [xs[|xs| - 1]];
    }
  }

  lemma {:induction false} PushAllFirstItems<E>(s: State<E>, xs: seq<E>)
    ensures PushAllFirst(s, xs).items == Reverse(xs) + s.items
    ensures PushAllFirst(s, xs).modCount == s.modCount + |xs|
    decreases |xs|
  {
    if xs != [] {
      PushAllFirstItems(s, xs[..|xs| - 1]);
    }
  }

  /** Popping n times from the front returns the first n elements in order and leaves the rest. */
  lemma {:induction false} DrainFirstItems<E>(s: State<E>, n: nat)
    requires n <= |s.items|
    ensures DrainFirst(s, n).0 == Oks(s.items[..n])
    ensures DrainFirst(s, n).1.items == s.items[n..]
    decreases n
  {
    if n > 0 {
      DrainFirstItems(s, n - 1);
      assert s.items[..n][..n - 1] == s.items[..n - 1];
      assert s.items[n - 1..][1..] == s.items[n..];
    }
  }

  /** Popping n times from the rear returns the last n elements, last first, and leaves the prefix. */
  lemma {:induction false} DrainLastItems<E>(s: State<E>, n: nat)
    requires n <= |s.items|
    ensures DrainLast(s, n).0 == Oks(Reverse(s.items[|s.items| - n..]))
    ensures DrainLast(s, n).1.items == s.items[..|s.items| - n]
    decreases n
  {
    if n > 0 {
      DrainLastItems(s, n - 1);
      var k := |s.items| - n;
      var done := DrainLast(s, n - 1);
      var pop := PopLast(done.1);
      DrainLastStep(s.items, k, done.0, done.1);
    }
  }

  /** One more pop from the rear after the last |items| - k - 1 elements are drained. */
  lemma DrainLastStep<E>(items: seq<E>, k: nat, done: seq<Result<E>>, t: State<E>)
    requires k < |items|
    requires done == Oks(Reverse(items[|items| - (|items| - k - 1)..]))
    requires t.items == items[..|items| - (|items| - k - 1)]
    ensures done + [PopLast(t).0] == Oks(Reverse(items[k..]))
    ensures PopLast(t).1.items == items[..k]
  {
    assert items[|items| - (|items| - k - 1)..] == items[k + 1..];
    assert t.items == items[..k + 1];
    assert t.items[..k] == items[..k];
    ReverseSuffix(items, k);
    OksSnoc(Reverse(items[k + 1..]), items[k]);
  }

  /** FIFO: elements pushed at the rear come back from the front in insertion order. */
  lemma {:induction false} FifoRearToFront<E>(xs: seq<E>)
    ensures DrainFirst(PushAllLast(Empty(), xs), |xs|).0 == Oks(xs)
    ensures DrainFirst(PushAllLast(Empty(), xs), |xs|).1.items == []
  {
    var p := PushAllLast(Empty(), xs);
    PushAllLastItems(Empty(), xs);
    assert p.items == xs;
    DrainFirstItems(p, |xs|);
    assert xs[..|xs|] == xs;
  }

  /** LIFO: elements pushed at the rear come back from the rear in reverse order. */
  lemma {:induction false} LifoAtRear<E>(xs: seq<E>)
    ensures DrainLast(PushAllLast(Empty(), xs), |xs|).0 == Oks(Reverse(xs))
    ensures DrainLast(PushAllLast(Empty(), xs), |xs|).1.items == []
  {
    var p := PushAllLast(Empty(), xs);
    PushAllLastItems(Empty(), xs);
    assert p.items == xs;
    DrainLastItems(p, |xs|);
    assert xs[0..] == xs;
  }

  /** FIFO the other way: elements pushed at the front come back from the rear in insertion order. */
  lemma {:induction false} FifoFrontToRear<E>(xs: seq<E>)
    ensures DrainLast(PushAllFirst(Empty(), xs), |xs|).0 == Oks(xs)
  {
    var p := PushAllFirst(Empty(), xs);
    PushAllFirstItems(Empty(), xs);
    assert p.items == Reverse(xs) + [] == Reverse(xs);
    DrainLastItems(p, |xs|);
    ReverseReverse(xs);
    assert p.items[0..] == p.items;
  }

  /** LIFO at the front: elements pushed at the front come back from the front in reverse order. */
  lemma {:induction false} LifoAtFront<E>(xs: seq<E>)
    ensures DrainFirst(PushAllFirst(Empty(), xs), |xs|).0 == Oks(Reverse(xs))
  {
    var p := PushAllFirst(Empty(), xs);
    PushAllFirstItems(Empty(), xs);
    assert p.items == Reverse(xs) + [] == Reverse(xs);
    DrainFirstItems(p, |xs|);
    assert Reverse(xs)[..|xs|] == Reverse(xs);
  }

  /** A push followed by a pop at the same end returns the pushed element and restores the contents. */
  lemma PushPopSameEnd<E>(s: State<E>, e: E)
    ensures PopFirst(PushFirst(s, e)).0 == Ok(e) && PopFirst(PushFirst(s, e)).1.items == s.items
    ensures PopLast(PushLast(s, e)).0 == Ok(e) && PopLast(PushLast(s, e)).1.items == s.items
    ensures PopFirst(PushFirst(s, e)).1.modCount == s.modCount + 2
  {
    assert ([e] + s.items)[1..] == s.items;
    assert (s.items + [e])[..|s.items|] == s.items;
  }

  /** The peeks return exactly what the pops at the same end would return. */
  lemma PeekAgreesWithPop<E>(s: State<E>)
    ensures First(s) == PopFirst(s).0 && Last(s) == PopLast(s).0
    ensures s.items == [] <==> First(s) == Err(NoSuchElement)
    ensures s.items == [] <==> Last(s) == Err(NoSuchElement)
  {
  }

  // ---------------------------------------------------------------------
  // Resizing: capacity sequence of the source's tests
  // ---------------------------------------------------------------------

  /**
   * Pushing n elements at the rear of an empty, default-capacity deque gives
   * DEFAULT_CAPACITY while n <= DEFAULT_CAPACITY, and the least power of two
   * that holds them beyond that (it lies in [n, 2n)).
   */
  lemma {:induction false} PushAllLastCapacity<E>(s: State<E>, xs: seq<E>)
    requires s.items == [] && s.capacity == DEFAULT_CAPACITY
    ensures Wf(PushAllLast(s, xs))
    ensures |xs| <= DEFAULT_CAPACITY ==> PushAllLast(s, xs).capacity == DEFAULT_CAPACITY
    ensures |xs| > DEFAULT_CAPACITY ==> PushAllLast(s, xs).capacity < 2 * |xs|
    decreases |xs|
  {
    if xs != [] {
      var init, x := xs[..|xs| - 1], xs[|xs| - 1];
      PushAllLastCapacity(s, init);
      PushAllLastItems(s, init);
      var p := PushAllLast(s, init);
      assert |p.items| == |init|;
      assert PushAllLast(s, xs) == PushLast(p, x);
      assert PushLast(p, x).capacity == GrownCapacity(p.capacity, |init|);
      assert IsPow2(2 * p.capacity);
    }
  }

  /** Four pushes keep capacity 4; the fifth doubles it to 8. */
  lemma FifthPushDoubles<E>(a: E, b: E, c: E, d: E, e: E)
    ensures PushAllLast(Empty(), [a, b, c, d]).capacity == DEFAULT_CAPACITY
    ensures PushAllLast(Empty(), [a, b, c, d, e]).capacity == 2 * DEFAULT_CAPACITY
  {
    PushAllLastCapacity(Empty(), [a, b, c, d]);
    PushAllLastCapacity(Empty(), [a, b, c, d, e]);
    PushAllLastItems(Empty(), [a, b, c, d, e]);
    var cap := PushAllLast(Empty(), [a, b, c, d, e]).capacity;
    Pow2Gap(cap, 4);
    if cap != 8 {
      Pow2Gap(cap, 8);
    }
  }

  /** From eight elements at capacity 8, five front pops keep the capacity. */
  lemma DrainFiveFromEight<E>(p: State<E>)
    requires |p.items| == 8 && p.capacity == 8
    ensures DrainFirst(p, 5).1 == State(p.items[5..], 8, p.modCount + 5)
  {
    var xs, m := p.items, p.modCount;
    assert DrainFirst(p, 1).1 == State(xs[1..], 8, m + 1);
    assert DrainFirst(p, 2).1 == State(xs[2..], 8, m + 2);
    assert DrainFirst(p, 3).1 == State(xs[3..], 8, m + 3);
    assert DrainFirst(p, 4).1 == State(xs[4..], 8, m + 4);
  }

  /** From eight elements at capacity 8, the sixth front pop halves the array to DEFAULT_CAPACITY. */
  lemma DrainFromEight<E>(p: State<E>)
    requires |p.items| == 8 && p.capacity == 8
    ensures DrainFirst(p, 6).1 == State(p.items[6..], DEFAULT_CAPACITY, p.modCount + 6)
    ensures DrainFirst(p, 8).1 == State([], DEFAULT_CAPACITY, p.modCount + 8)
  {
    var xs, m := p.items, p.modCount;
    DrainFiveFromEight(p);
    assert DrainFirst(p, 6).1 == State(xs[6..], 4, m + 6);
    assert DrainFirst(p, 7).1 == State(xs[7..], 4, m + 7);
    assert DrainFirst(p, 8).1 == State(xs[8..], 4, m + 8);
    assert xs[8..] == [];
  }

  /**
   * From an empty default-capacity deque: push eight elements (capacity 8),
   * then pop from the front either all eight or six of them; both end at
   * capacity DEFAULT_CAPACITY.
   */
  lemma HalvingScenario<E>(s: State<E>, xs: seq<E>)
    requires s.items == [] && s.capacity == DEFAULT_CAPACITY && |xs| == 8
    ensures PushAllLast(s, xs).capacity == 2 * DEFAULT_CAPACITY
    ensures DrainFirst(PushAllLast(s, xs), 8).1 == State([], DEFAULT_CAPACITY, s.modCount + 16)
    ensures DrainFirst(PushAllLast(s, xs), 6).1 == State(xs[6..], DEFAULT_CAPACITY, s.modCount + 14)
  {
    PushAllLastCapacity(s, xs);
    PushAllLastItems(s, xs);
    var p := PushAllLast(s, xs);
    Pow2Gap(p.capacity, 4);
    if p.capacity != 8 {
      Pow2Gap(p.capacity, 8);
    }
    DrainFromEight(p);
  }

  /** pushFirst 1, pushLast 2, pushFirst 3, pushLast 4: first 3, last 4; then popFirst 3, popLast 4 leave [1, 2]. */
  lemma InterleavedPushes<E>(a: E, b: E, c: E, d: E)
    ensures var t := PushLast(PushFirst(PushLast(PushFirst(Empty(), a), b), c), d);
      t.items == [c, a, b, d] && t.capacity == DEFAULT_CAPACITY &&
      First(t) == Ok(c) && Last(t) == Ok(d) &&
      PopFirst(t).0 == Ok(c) && PopLast(PopFirst(t).1).0 == Ok(d) &&
      PopLast(PopFirst(t).1).1.items == [a, b]
  {
    var t := PushLast(PushFirst(PushLast(PushFirst(Empty(), a), b), c), d);
    assert t.items == [c, a, b, d];
    assert PopFirst(t).1.items == [a, b, d];
    assert PopLast(PopFirst(t).1).1.items == [a, b];
  }

  // ---------------------------------------------------------------------
  // Java int arithmetic in the shrink test
  // ---------------------------------------------------------------------

  const INT_MIN: int := -0x8000_0000
  const TWO_POW_32: int := 0x1_0000_0000

  /** Java's 32-bit two's-complement `int` value of x. */
  function Int32(x: int): (w: int)
    ensures INT_MIN <= w < -INT_MIN
    ensures INT_MIN <= x < -INT_MIN ==> w == x
  {
    (x - INT_MIN) % TWO_POW_32 + INT_MIN
  }

  /**
   * The shrink step after a pop, as the source evaluates it: the test
   * `4 * size <= array.length` is computed in Java `int` arithmetic, and
   * halfCapacity keeps only the first min(size, capacity / 2) elements. An
   * element is lost only by a halving that fills the new array.
   */
  function ShrinkInt32<E>(rest: seq<E>, capacity: nat, modCount: int): (t: State<E>)
    ensures t.items <= rest && t.modCount == modCount
    ensures t.capacity == capacity || (capacity > DEFAULT_CAPACITY && t.capacity == capacity / 2)
    ensures |t.items| < |rest| ==> t.capacity == capacity / 2 && |t.items| == t.capacity
  {
    if Int32(4 * |rest|) <= capacity && capacity > DEFAULT_CAPACITY then
      var half := capacity / 2;
      var kept := if |rest| < half then |rest| else half;
      State(rest[..kept], half, modCount)
    else
      State(rest, capacity, modCount)
  }

  /** popFirst as the source evaluates it, shrink test in Java `int`. */
  function PopFirstInt32<E>(s: State<E>): (rt: (Result<E>, State<E>))
    ensures s.items == [] ==> rt == (Err(NoSuchElement), s)
    ensures s.items != [] ==> rt.0 == Ok(s.items[0]) && rt.1.items <= s.items[1..]
    ensures s.items != [] ==> rt.1.modCount == s.modCount + 1
  {
    if s.items == [] then (Err(NoSuchElement), s)
    else (Ok(s.items[0]), ShrinkInt32(s.items[1..], s.capacity, s.modCount + 1))
  }

  /** popLast as the source evaluates it, shrink test in Java `int`. */
  function PopLastInt32<E>(s: State<E>): (rt: (Result<E>, State<E>))
    ensures s.items == [] ==> rt == (Err(NoSuchElement), s)
    ensures s.items != [] ==> rt.0 == Ok(s.items[|s.items| - 1]) && rt.1.items <= s.items[..|s.items| - 1]
    ensures s.items != [] ==> rt.1.modCount == s.modCount + 1
  {
    if s.items == [] then (Err(NoSuchElement), s)
    else (Ok(s.items[|s.items| - 1]), ShrinkInt32(s.items[..|s.items| - 1], s.capacity, s.modCount + 1))
  }

  /** Wherever 4 * size fits in an int, the source's shrink step is the model's: nothing is lost. */
  lemma ShrinkInt32Agrees<E>(rest: seq<E>, capacity: nat, modCount: int)
    requires 4 * |rest| < -INT_MIN
    ensures ShrinkInt32(rest, capacity, modCount) == State(rest, ShrunkCapacity(capacity, |rest|), modCount)
  {
    if 4 * |rest| <= capacity && capacity > DEFAULT_CAPACITY {
      assert rest[..|rest|] == rest;
    }
  }

  /** Wherever 4 * size fits in an int, the source's popFirst is the model's PopFirst. */
  lemma PopFirstInt32Agrees<E>(s: State<E>)
    requires 4 * |s.items| <= -INT_MIN
    ensures PopFirstInt32(s) == PopFirst(s)
  {
    if s.items != [] {
      ShrinkInt32Agrees(s.items[1..], s.capacity, s.modCount + 1);
    }
  }

  /** Wherever 4 * size fits in an int, the source's popLast is the model's PopLast. */
  lemma PopLastInt32Agrees<E>(s: State<E>)
    requires 4 * |s.items| <= -INT_MIN
    ensures PopLastInt32(s) == PopLast(s)
  {
    if s.items != [] {
      ShrinkInt32Agrees(s.items[..|s.items| - 1], s.capacity, s.modCount + 1);
    }
  }

  function Pow2(k: nat): (p: nat)
  {
    if k == 0 then 1 else 2 * Pow2(k - 1)
  }

  lemma {:induction false} Pow2IsPow2(k: nat)
    ensures IsPow2(Pow2(k))
  {
    if k > 0 {
      Pow2IsPow2(k - 1);
      Pow2Double(Pow2(k - 1));
    }
  }

  lemma Pow2Of29And30()
    ensures IsPow2(0x2000_0000) && IsPow2(0x4000_0000)
  {
    Pow2IsPow2(29);
    Pow2IsPow2(30);
    assert Pow2(10) == 0x400;
    assert Pow2(20) == 0x10_0000;
    assert Pow2(29) == 0x2000_0000;
  }

  /** 2^29 + 2 pushes at the rear of a new deque reach capacity 2^30. */
  lemma ReachCapacity2To30<E>(xs: seq<E>)
    requires |xs| == 0x2000_0002
    ensures PushAllLast(Empty(), xs).items == xs
    ensures PushAllLast(Empty(), xs).capacity == 0x4000_0000
  {
    var s := PushAllLast(Empty(), xs);
    PushAllLastItems(Empty(), xs);
    PushAllLastCapacity(Empty(), xs);
    Pow2Of29And30();
    Pow2Gap(s.capacity, 0x2000_0000);
    if s.capacity != 0x4000_0000 {
      Pow2Gap(s.capacity, 0x4000_0000);
    }
  }

  /**
   * At capacity 2^30, 2^29 + 1 elements left after a pop make 4 * size wrap
   * to a negative int: the source halves the array to 2^29 slots and keeps
   * only the first 2^29 of them.
   */
  lemma ShrinkInt32AtWrap<E>(rest: seq<E>, modCount: int)
    requires |rest| == 0x2000_0001
    ensures ShrinkInt32(rest, 0x4000_0000, modCount).items == rest[..|rest| - 1]
    ensures ShrinkInt32(rest, 0x4000_0000, modCount).capacity == 0x2000_0000
    ensures ShrunkCapacity(0x4000_0000, |rest|) == 0x4000_0000
  {
    assert Int32(4 * |rest|) < 0;
  }

  /**
   * At capacity 2^30 with 2^29 + 2 elements, the source's popFirst halves the
   * array to 2^29 slots and drops the last element; the model keeps all of
   * them.
   */
  lemma PopFirstInt32AtWrap<E>(s: State<E>)
    requires s.capacity == 0x4000_0000 && |s.items| == 0x2000_0002
    ensures PopFirst(s).1.items == s.items[1..] && PopFirst(s).1.capacity == 0x4000_0000
    ensures PopFirstInt32(s).1.items == s.items[1..|s.items| - 1]
    ensures PopFirstInt32(s).1.capacity == 0x2000_0000
  {
    ShrinkInt32AtWrap(s.items[1..], s.modCount + 1);
    assert s.items[1..][..0x2000_0000] == s.items[1..|s.items| - 1];
  }

  /**
   * At capacity 2^30 with 2^29 + 2 elements, the source's popLast halves the
   * array to 2^29 slots and drops the element before the popped one; the
   * model keeps all of them.
   */
  lemma PopLastInt32AtWrap<E>(s: State<E>)
    requires s.capacity == 0x4000_0000 && |s.items| == 0x2000_0002
    ensures PopLast(s).1.items == s.items[..|s.items| - 1] && PopLast(s).1.capacity == 0x4000_0000
    ensures PopLastInt32(s).1.items == s.items[..|s.items| - 2]
    ensures PopLastInt32(s).1.capacity == 0x2000_0000
  {
    ShrinkInt32AtWrap(s.items[..|s.items| - 1], s.modCount + 1);
    assert s.items[..|s.items| - 1][..0x2000_0000] == s.items[..|s.items| - 2];
  }

  /**
   * The discrepancy is reachable: 2^29 + 2 pushes at the rear of a new deque,
   * then one popFirst. The source loses the last element pushed; the model
   * does not.
   */
  lemma PopFirstInt32DropsLast<E>(xs: seq<E>)
    requires |xs| == 0x2000_0002
    ensures PopFirst(PushAllLast(Empty(), xs)).1.items == xs[1..]
    ensures PopFirstInt32(PushAllLast(Empty(), xs)).1.items == xs[1..|xs| - 1]
  {
    ReachCapacity2To30(xs);
    PopFirstInt32AtWrap(PushAllLast(Empty(), xs));
  }

  /**
   * The same history ending in popLast: the source returns the last element
   * pushed but also loses the one before it; the model keeps it.
   */
  lemma PopLastInt32DropsLast<E>(xs: seq<E>)
    requires |xs| == 0x2000_0002
    ensures PopLast(PushAllLast(Empty(), xs)).1.items == xs[..|xs| - 1]
    ensures PopLastInt32(PushAllLast(Empty(), xs)).1.items == xs[..|xs| - 2]
  {
    ReachCapacity2To30(xs);
    PopLastInt32AtWrap(PushAllLast(Empty(), xs));
  }
}
