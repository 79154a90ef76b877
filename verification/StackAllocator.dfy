/** `CFStackAllocator`: a bump allocator over a buffer inside the object, falling back to the
    heap. A freed block goes to the side its address belongs to. */
module StackAllocator {
  import opened Wrappers
  import opened BitMath

  /** `m_Size`, in bytes. */
  const SIZE: nat := 4096 - 16

  /** `alignment`. */
  predicate IsAligned(x: int) { x % 16 == 0 }

  /** Width of `long`, and one more than its largest value. */
  const LONG: nat := 64
  const LONG_RANGE: nat := 0x8000_0000_0000_0000

  /** Incrementing and decrementing a 16-bit counter. */
  function Up(c: int): int { if c == 0x7FFF then -0x8000 else c + 1 }

  function Down(c: int): int { if c == -0x8000 then 0x7FFF else c - 1 }

  /** The number a counter stands for after it has wrapped around `turns` times. */
  function Unwrapped(c: int, turns: int): int { c + 0x10000 * turns }

  /** The 16-bit counter `c` stands for `n`. */
  ghost predicate Counts(c: int, n: int)
  {
    -0x8000 <= c < 0x8000 && exists turns :: Unwrapped(c, turns) == n
  }

  lemma CountsSteps(c: int, n: int)
    requires Counts(c, n)
    ensures Counts(Up(c), n + 1) && Counts(Down(c), n - 1)
  {
    var turns :| Unwrapped(c, turns) == n;
    assert Unwrapped(Up(c), if c == 0x7FFF then turns + 1 else turns) == n + 1;
    assert Unwrapped(Down(c), if c == -0x8000 then turns - 1 else turns) == n - 1;
  }

  lemma CountsItself(c: int)
    requires -0x8000 <= c < 0x8000
    ensures Counts(c, c)
  {
    assert Unwrapped(c, 0) == c;
  }

  /** A counter stands for one number within its range. */
  lemma CountsExactly(c: int, n: int)
    requires Counts(c, n) && -0x8000 <= n < 0x8000
    ensures c == n
  {
  }

  /** The least multiple of 16 that is not below `n`. */
  function Aligned(n: nat): nat { (n + 15) / 16 * 16 }

  lemma LongHolds()
    ensures 15 < LONG_RANGE < Pow2(LONG)
  {
    assert Pow2(8) == 0x100;
    Pow2Sum(8, 8);
    Pow2Sum(16, 16);
    Pow2Sum(32, 32);
  }

  lemma {:induction false} AndOnes(x: nat, w: nat)
    requires x < Pow2(w)
    ensures And(x, Pow2(w) - 1) == x
  {
    if w > 0 {
      AndOnes(x / 2, w - 1);
      assert (Pow2(w) - 1) / 2 == Pow2(w - 1) - 1;
    }
  }

  /** A mask whose lowest bit is clear keeps only the upper bits. */
  lemma AndEvenMask(x: nat, m: nat, w: nat)
    requires w > 0 && 2 * m + 1 < Pow2(w)
    ensures m < Pow2(w - 1) && And(x, Not(2 * m + 1, w)) == 2 * And(x / 2, Not(m, w - 1))
  {
    var y := Not(2 * m + 1, w);
    assert y % 2 == 0 && y / 2 == Not(m, w - 1);
  }

  lemma AndMaskByFour(x: nat, m: nat, w: nat)
    requires w > 1 && 4 * m + 3 < Pow2(w)
    ensures m < Pow2(w - 2) && And(x, Not(4 * m + 3, w)) == 4 * And(x / 4, Not(m, w - 2))
  {
    AndEvenMask(x, 2 * m + 1, w);
    AndEvenMask(x / 2, m, w - 1);
    assert x / 2 / 2 == x / 4;
  }

  lemma MaskSixteen(x: nat, w: nat)
    requires w >= 4 && x < Pow2(w) && 15 < Pow2(w)
    ensures And(x, Not(15, w)) == x / 16 * 16
  {
    AndMaskByFour(x, 3, w);
    AndMaskByFour(x / 4, 0, w - 2);
    QuarterTwice(x);
    Sixteenth(x, w);
    AndOnes(x / 16, w - 4);
  }

  lemma QuarterTwice(x: nat)
    ensures x / 4 / 4 == x / 16
  {
  }

  lemma Sixteenth(x: nat, w: nat)
    requires w >= 4 && x < Pow2(w)
    ensures x / 16 < Pow2(w - 4)
  {
    assert Pow2(w) == 2 * Pow2(w - 1) && Pow2(w - 1) == 2 * Pow2(w - 2);
    assert Pow2(w - 2) == 2 * Pow2(w - 3) && Pow2(w - 3) == 2 * Pow2(w - 4);
  }

  /** `(n + 15) & ~15`. */
  method RoundUp(n: nat) returns (a: nat)
    requires n + 15 < LONG_RANGE
    ensures a == Aligned(n) && IsAligned(a)
  {
    LongHolds();
    AlignedSize(n);
    MaskSixteen(n + 15, LONG);
    a := And(n + 15, Not(15, LONG));
  }

  lemma AlignedLeast(n: nat)
    ensures IsAligned(Aligned(n)) && n <= Aligned(n) < n + 16
    ensures forall m: nat :: IsAligned(m) && n <= m ==> Aligned(n) <= m
  {
  }

  lemma AlignedSize(n: nat)
    ensures IsAligned(Aligned(n)) && n <= Aligned(n) && (Aligned(n) == 0 <==> n == 0)
  {
  }

  /** Sums and differences of multiples of 16. */
  lemma SumAligned(x: int, y: int)
    requires IsAligned(x) && IsAligned(y)
    ensures IsAligned(x + y) && IsAligned(x - y)
  {
  }

  /** A block of the buffer: its offset and its rounded size. */
  datatype Block = Block(offset: nat, size: nat)

  /** What the allocator has handed out: every block ever served from the buffer, in order; the
      addresses of live blocks by the side that served them; failed heap requests; and buffer
      blocks that were wrongly passed to `free`. */
  datatype Ledger = Ledger(served: seq<Block>, stackLive: multiset<int>, heapLive: multiset<int>,
                           failures: nat, misrouted: nat)

  predicate InBuffer(base: int, p: int) { base <= p < base + SIZE }

  /** Addresses `malloc` cannot return: the buffer and the members that follow it. */
  predicate InObject(base: int, p: int) { base <= p < base + SIZE + 16 }

  /** The blocks lie one after the other, aligned, from the start of the buffer up to `used`. */
  ghost predicate Packed(blocks: seq<Block>, used: nat)
  {
    && (forall i :: 0 <= i < |blocks| ==> IsAligned(blocks[i].offset) && IsAligned(blocks[i].size))
    && (forall i :: 0 <= i < |blocks| ==> blocks[i].offset == Used(blocks[..i]))
    && Used(blocks) == used
  }

  /** The rounded sizes of the blocks together. */
  ghost function Used(blocks: seq<Block>): nat
  {
    if blocks == [] then 0 else Used(blocks[..|blocks| - 1]) + blocks[|blocks| - 1].size
  }

  lemma PackedSnoc(blocks: seq<Block>, used: nat, size: nat)
    requires Packed(blocks, used) && IsAligned(used) && IsAligned(size)
    ensures Packed(blocks + [Block(used, size)], used + size)
  {
    SumAligned(used, size);
    var more := blocks + [Block(used, size)];
    assert more[..|blocks|] == blocks;
    forall i | 0 <= i < |more| ensures more[i].offset == Used(more[..i]) {
      assert i < |blocks| ==> more[..i] == blocks[..i];
    }
  }

  lemma {:induction false} UsedMonotone(blocks: seq<Block>, i: nat, j: nat)
    requires i <= j <= |blocks|
    ensures Used(blocks[..i]) <= Used(blocks[..j])
    decreases j
  {
    if i < j {
      assert blocks[..j][..j - 1] == blocks[..j - 1];
      UsedMonotone(blocks, i, j - 1);
    }
  }

  lemma UsedNext(blocks: seq<Block>, i: nat)
    requires i < |blocks|
    ensures Used(blocks[..i + 1]) == Used(blocks[..i]) + blocks[i].size
  {
    assert blocks[..i + 1][..i] == blocks[..i];
  }

  /** Free space, counters and ledger of an allocator. */
  datatype State = State(left: int, stackObjects: int, heapObjects: int, ledger: Ledger)

  const START: State := State(SIZE, 0, 0, Ledger([], multiset{}, multiset{}, 0, 0))

  /** The free space and the served blocks make up the buffer. */
  ghost predicate Space(base: int, left: int, l: Ledger)
  {
    && IsAligned(base)
    && 0 <= left <= SIZE && IsAligned(left)
    && Packed(l.served, SIZE - left)
    && (forall p :: p in l.stackLive ==> base <= p <= base + SIZE - left)
    && (forall p :: p in l.heapLive ==> !InObject(base, p))
  }

  /** The counters are the numbers of live blocks, as 16-bit numbers, up to failed requests and
      misrouted blocks. */
  ghost predicate Counters(stackObjects: int, heapObjects: int, l: Ledger)
  {
    && Counts(stackObjects, |l.stackLive| + l.misrouted)
    && Counts(heapObjects, |l.heapLive| + l.failures - l.misrouted)
  }

  ghost predicate Consistent(base: int, s: State)
  {
    Space(base, s.left, s.ledger) && Counters(s.stackObjects, s.heapObjects, s.ledger)
  }

  /** The ledger after a block of rounded size `size` is cut from the `left` bytes of the buffer. */
  ghost function Cut(base: int, left: nat, l: Ledger, size: nat): Ledger
    requires left <= SIZE
  {
    l.(served := l.served + [Block(SIZE - left, size)], stackLive := l.stackLive + multiset{base + SIZE - left})
  }

  /** The ledger after a request to the heap, of which `heap` is the result. */
  ghost function Fetched(l: Ledger, heap: Option<int>): Ledger
  {
    match heap
    case Some(p) => l.(heapLive := l.heapLive + multiset{p})
    case None => l.(failures := l.failures + 1)
  }

  /** The ledger after freeing `p`. */
  ghost function Returned(base: int, l: Ledger, p: int): Ledger
  {
    if p in l.heapLive then l.(heapLive := l.heapLive - multiset{p})
    else if InBuffer(base, p) then l.(stackLive := l.stackLive - multiset{p})
    else l.(stackLive := l.stackLive - multiset{p}, misrouted := l.misrouted + 1)
  }

  /** A request of rounded size `size`; `heap` is what `malloc` would return. */
  ghost function Allocated(base: int, s: State, size: nat, heap: Option<int>): State
    requires 0 <= s.left <= SIZE
  {
    if size <= s.left
    then State(s.left - size, Up(s.stackObjects), s.heapObjects, Cut(base, s.left, s.ledger, size))
    else s.(heapObjects := Up(s.heapObjects), ledger := Fetched(s.ledger, heap))
  }

  /** Freeing `p`: the counter of the side its address belongs to goes down. */
  ghost function Freed(base: int, s: State, p: int): State
  {
    if InBuffer(base, p)
    then s.(stackObjects := Down(s.stackObjects), ledger := Returned(base, s.ledger, p))
    else s.(heapObjects := Down(s.heapObjects), ledger := Returned(base, s.ledger, p))
  }

  // ---------------------------------------------------------------- what one operation keeps

  lemma CutKeepsSpace(base: int, left: int, l: Ledger, size: nat)
    requires Space(base, left, l) && IsAligned(size) && size <= left
    ensures Space(base, left - size, Cut(base, left, l, size))
  {
    SumAligned(SIZE, left);
    SumAligned(left, size);
    PackedSnoc(l.served, SIZE - left, size);
    LiveBelow(base, left, l, size);
  }

  lemma LiveBelow(base: int, left: nat, l: Ledger, size: nat)
    requires size <= left <= SIZE && forall p :: p in l.stackLive ==> base <= p <= base + SIZE - left
    ensures forall p :: p in Cut(base, left, l, size).stackLive ==> base <= p <= base + SIZE - (left - size)
  {
  }

  lemma CutCounts(base: int, left: nat, l: Ledger, size: nat, so: int, ho: int)
    requires left <= SIZE && Counters(so, ho, l)
    ensures Counters(Up(so), ho, Cut(base, left, l, size))
  {
    CountsSteps(so, |l.stackLive| + l.misrouted);
  }

  lemma FetchedCounts(l: Ledger, heap: Option<int>, so: int, ho: int)
    requires Counters(so, ho, l)
    ensures Counters(so, Up(ho), Fetched(l, heap))
  {
    CountsSteps(ho, |l.heapLive| + l.failures - l.misrouted);
  }

  lemma AllocatedKeeps(base: int, s: State, size: nat, heap: Option<int>)
    requires Consistent(base, s) && IsAligned(size) && (heap.Some? ==> !InObject(base, heap.value))
    ensures Consistent(base, Allocated(base, s, size, heap))
  {
    if size <= s.left {
      CutKeepsSpace(base, s.left, s.ledger, size);
      CutCounts(base, s.left, s.ledger, size, s.stackObjects, s.heapObjects);
    } else {
      FetchedCounts(s.ledger, heap, s.stackObjects, s.heapObjects);
    }
  }

  lemma ReturnedCounts(base: int, l: Ledger, p: int, so: int, ho: int)
    requires p in l.stackLive + l.heapLive && Counters(so, ho, l)
    requires p in l.heapLive ==> !InBuffer(base, p)
    ensures InBuffer(base, p) ==> Counters(Down(so), ho, Returned(base, l, p))
    ensures !InBuffer(base, p) ==> Counters(so, Down(ho), Returned(base, l, p))
  {
    CountsSteps(so, |l.stackLive| + l.misrouted);
    CountsSteps(ho, |l.heapLive| + l.failures - l.misrouted);
  }

  lemma FreedKeeps(base: int, s: State, p: int)
    requires Consistent(base, s) && p in s.ledger.stackLive + s.ledger.heapLive
    ensures Consistent(base, Freed(base, s, p))
  {
    ReturnedCounts(base, s.ledger, p, s.stackObjects, s.heapObjects);
  }

  lemma StartConsistent(base: int)
    requires IsAligned(base)
    ensures Consistent(base, START)
  {
    assert Used([]) == 0;
    CountsItself(0);
  }

  lemma ServedInside(base: int, left: int)
    requires 0 <= left <= SIZE
    ensures InBuffer(base, base + SIZE - left) <==> left > 0
  {
  }

  // ---------------------------------------------------------------- the object

  class CFStackAllocator {
    const base: int
    var left: int
    var stackObjects: int
    var heapObjects: int
    ghost var ledger: Ledger

    ghost function Snapshot(): State
      reads this
    {
      State(left, stackObjects, heapObjects, ledger)
    }

    ghost predicate Valid()
      reads this
    {
      Consistent(base, Snapshot())
    }

    constructor (base: int)
      requires IsAligned(base)
      ensures Valid() && this.base == base && Snapshot() == START
    {
      this.base := base;
      left, stackObjects, heapObjects := SIZE, 0, 0;
      ledger := START.ledger;
      StartConsistent(base);
    }

    /** `heap` is what `malloc` would return. A buffer block lies inside the buffer unless it is
        empty and the buffer was used up before. */
    method DoAlloc(size: nat, heap: Option<int>) returns (p: Option<int>)
      requires Valid() && size + 15 < LONG_RANGE
      requires heap.Some? ==> !InObject(base, heap.value)
      modifies this
      ensures Valid() && Snapshot() == Allocated(base, old(Snapshot()), Aligned(size), heap)
      ensures if Aligned(size) <= old(left)
              then p == Some(base + SIZE - old(left)) && (InBuffer(base, p.value) <==> old(left) > 0)
              else p == heap
    {
      var aligned := RoundUp(size);
      if aligned <= left {
        var v := Serve(aligned, heap);
        p := Some(v);
      } else {
        p := Fetch(aligned, heap);
      }
    }

    /** The branch of `DoAlloc` for requests that fit. */
    method Serve(aligned: nat, ghost heap: Option<int>) returns (v: int)
      requires Valid() && IsAligned(aligned) && aligned <= left && (heap.Some? ==> !InObject(base, heap.value))
      modifies this
      ensures Valid() && Snapshot() == Allocated(base, old(Snapshot()), aligned, heap)
      ensures v == base + SIZE - old(left) && (InBuffer(base, v) <==> old(left) > 0)
    {
      AllocatedKeeps(base, Snapshot(), aligned, heap);
      ServedInside(base, left);
      v := base + SIZE - left;
      ledger := Cut(base, left, ledger, aligned);
      left := left - aligned;
      stackObjects := Up(stackObjects);
    }

    /** The branch for all others. */
    method Fetch(ghost aligned: nat, heap: Option<int>) returns (p: Option<int>)
      requires Valid() && IsAligned(aligned) && aligned > left && (heap.Some? ==> !InObject(base, heap.value))
      modifies this
      ensures Valid() && Snapshot() == Allocated(base, old(Snapshot()), aligned, heap) && p == heap
    {
      AllocatedKeeps(base, Snapshot(), aligned, heap);
      ledger := Fetched(ledger, heap);
      heapObjects := Up(heapObjects);
      return heap;
    }

    /** `freed` tells whether the pointer was passed to `free`: for a live block of the heap, and
        wrongly for an empty block served when the buffer was used up. */
    method DoDealloc(p: int) returns (freed: bool)
      requires Valid() && p in ledger.stackLive + ledger.heapLive
      modifies this
      ensures Valid() && Snapshot() == Freed(base, old(Snapshot()), p)
      ensures freed <==> p in old(ledger.heapLive) || p == base + SIZE
    {
      FreedKeeps(base, Snapshot(), p);
      ledger := Returned(base, ledger, p);
      if p < base || p >= base + SIZE {
        freed := true;
        heapObjects := Down(heapObjects);
      } else {
        freed := false;
        stackObjects := Down(stackObjects);
      }
    }
  }

  /** Every pointer into the buffer that is handed out is aligned. */
  lemma PointersAligned(base: int, left: int, l: Ledger, i: nat)
    requires Space(base, left, l) && i < |l.served|
    ensures IsAligned(base + l.served[i].offset)
  {
    SumAligned(base, l.served[i].offset);
  }

  /** Blocks ever served from the buffer do not overlap and stay inside it. */
  lemma BlocksDisjoint(blocks: seq<Block>, used: nat, i: nat, j: nat)
    requires Packed(blocks, used) && used <= SIZE && i < j < |blocks|
    ensures blocks[i].offset + blocks[i].size <= blocks[j].offset
    ensures blocks[j].offset + blocks[j].size <= SIZE
  {
    UsedNext(blocks, i);
    UsedNext(blocks, j);
    assert blocks[..|blocks|] == blocks;
    UsedMonotone(blocks, i + 1, j);
    UsedMonotone(blocks, j + 1, |blocks|);
  }

  // ---------------------------------------------------------------- runs

  datatype Op = Alloc(size: nat, heap: Option<int>) | Dealloc(p: int)

  /** What the caller and `malloc` owe: sizes are representable, `malloc` returns memory outside the
      object, if any, and only live pointers are freed. */
  ghost predicate Owed(base: int, s: State, op: Op)
  {
    match op
    case Alloc(size, heap) => size + 15 < LONG_RANGE && (heap.Some? ==> !InObject(base, heap.value))
    case Dealloc(p) => p in s.ledger.stackLive + s.ledger.heapLive
  }

  ghost function Step(base: int, s: State, op: Op): State
    requires 0 <= s.left <= SIZE
  {
    match op
    case Alloc(size, heap) => Allocated(base, s, Aligned(size), heap)
    case Dealloc(p) => Freed(base, s, p)
  }

  /** The state a sequence of operations leads to from the constructed allocator, if nobody breaks
      what is owed. */
  ghost function Run(base: int, ops: seq<Op>): (s: Option<State>)
    ensures s.Some? ==> 0 <= s.value.left <= SIZE
  {
    if ops == [] then Some(START)
    else
      match Run(base, ops[..|ops| - 1])
      case None => None
      case Some(s) => if Owed(base, s, ops[|ops| - 1]) then Some(Step(base, s, ops[|ops| - 1])) else None
  }

  /** How many requests for nothing are served once the buffer is used up. */
  ghost function EmptyAtEnd(base: int, ops: seq<Op>): nat
  {
    if ops == [] then 0
    else
      var n, s := |ops| - 1, Run(base, ops[..|ops| - 1]);
      EmptyAtEnd(base, ops[..n]) +
      (if s.Some? && s.value.left == 0 && ops[n].Alloc? && ops[n].size == 0 then 1 else 0)
  }

  /** Blocks at the end of the buffer are those that were or will be misrouted. */
  ghost predicate Accounted(base: int, s: State, empty: nat)
  {
    && Consistent(base, s)
    && s.ledger.misrouted + s.ledger.stackLive[base + SIZE] == empty
  }

  lemma AllocAccounted(base: int, s: State, size: nat, heap: Option<int>, empty: nat)
    requires Accounted(base, s, empty) && Owed(base, s, Alloc(size, heap))
    ensures Accounted(base, Step(base, s, Alloc(size, heap)), if s.left == 0 && size == 0 then empty + 1 else empty)
  {
    AlignedSize(size);
    AllocatedKeeps(base, s, Aligned(size), heap);
    AllocatedAtEnd(base, s, Aligned(size), heap);
  }

  lemma AllocatedAtEnd(base: int, s: State, size: nat, heap: Option<int>)
    requires 0 <= s.left <= SIZE
    ensures var l := Allocated(base, s, size, heap).ledger;
            && l.misrouted == s.ledger.misrouted
            && l.stackLive[base + SIZE] == s.ledger.stackLive[base + SIZE] + (if size <= s.left == 0 then 1 else 0)
  {
  }

  lemma DeallocAccounted(base: int, s: State, p: int, empty: nat)
    requires Accounted(base, s, empty) && Owed(base, s, Dealloc(p))
    ensures Accounted(base, Step(base, s, Dealloc(p)), empty)
  {
    FreedKeeps(base, s, p);
    assert p in s.ledger.heapLive ==> p != base + SIZE;
    assert p in s.ledger.stackLive && !InBuffer(base, p) ==> p == base + SIZE;
  }

  /** Over every run the free space and the rounded sizes make up the buffer, the counters stand for
      the live blocks (with failed requests and misrouted blocks on the side of the heap), and the
      empty blocks at the end of the buffer are those that were misrouted or will be. */
  lemma {:induction false} RunsAreExact(base: int, ops: seq<Op>)
    requires IsAligned(base) && Run(base, ops).Some?
    ensures Accounted(base, Run(base, ops).value, EmptyAtEnd(base, ops))
  {
    if ops == [] {
      StartConsistent(base);
    } else {
      var n := |ops| - 1;
      var s, empty := Run(base, ops[..n]).value, EmptyAtEnd(base, ops[..n]);
      RunsAreExact(base, ops[..n]);
      match ops[n]
      case Alloc(size, heap) => AllocAccounted(base, s, size, heap, empty);
      case Dealloc(p) => DeallocAccounted(base, s, p, empty);
    }
  }

  /** No block was passed to the wrong side, and no live one would be. */
  ghost predicate RoutedWell(base: int, l: Ledger)
  {
    l.misrouted == 0 && forall p :: p in l.stackLive ==> InBuffer(base, p)
  }

  /** Every free goes back to the side that served the block exactly when no empty request is served
      once the buffer is used up. */
  lemma RoutedWellIff(base: int, ops: seq<Op>)
    requires IsAligned(base) && Run(base, ops).Some?
    ensures RoutedWell(base, Run(base, ops).value.ledger) <==> EmptyAtEnd(base, ops) == 0
  {
    RunsAreExact(base, ops);
    var l := Run(base, ops).value.ledger;
    if l.stackLive[base + SIZE] > 0 { assert base + SIZE in l.stackLive && !InBuffer(base, base + SIZE); }
  }

  lemma RunSnoc(base: int, ops: seq<Op>, op: Op)
    requires Run(base, ops).Some? && Owed(base, Run(base, ops).value, op)
    ensures Run(base, ops + [op]) == Some(Step(base, Run(base, ops).value, op))
  {
    assert (ops + [op])[..|ops|] == ops;
  }

  /** The failing case: a request for the whole buffer, one for nothing, and the latter freed. */
  lemma EmptyBlockMisrouted(base: int) returns (ops: seq<Op>)
    requires IsAligned(base)
    ensures Run(base, ops).Some? && Run(base, ops).value.ledger.misrouted == 1
  {
    AlignedSize(0);
    assert Aligned(SIZE) == SIZE;
    ops := [];
    RunSnoc(base, ops, Alloc(SIZE, None));
    ops := ops + [Alloc(SIZE, None)];
    RunSnoc(base, ops, Alloc(0, None));
    ops := ops + [Alloc(0, None)];
    var s := Run(base, ops).value;
    assert base + SIZE in s.ledger.stackLive && s.ledger.heapLive == multiset{};
    RunSnoc(base, ops, Dealloc(base + SIZE));
    ops := ops + [Dealloc(base + SIZE)];
  }

  /** The counters are then the numbers of live blocks, failed requests included. */
  lemma CountersAreLiveBlocks(base: int, ops: seq<Op>)
    requires IsAligned(base) && Run(base, ops).Some? && EmptyAtEnd(base, ops) == 0
    ensures var s := Run(base, ops).value;
            Counts(s.stackObjects, |s.ledger.stackLive|) && Counts(s.heapObjects, |s.ledger.heapLive| + s.ledger.failures)
  {
    RunsAreExact(base, ops);
  }
}
