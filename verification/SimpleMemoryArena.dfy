/**
 The arena of `simple_memory_arena.cc`: allocations carry the nodes between which they are in use,
 and a new one goes to a gap among the allocations whose use overlaps its own, or after them.
 */
module SimpleMemoryArena {
  import opened Common
  import opened Ordering

  /** `ArenaAllocWithUsageInterval`. */
  datatype Alloc = Alloc(offset: nat, size: nat, tensor: int, firstNode: int, lastNode: int)

  /** Both allocations are in use at some node. */
  predicate UseOverlaps(a: Alloc, b: Alloc) {
    a.firstNode <= b.lastNode && b.firstNode <= a.lastNode
  }

  predicate BytesDisjoint(a: Alloc, b: Alloc) {
    a.offset + a.size <= b.offset || b.offset + b.size <= a.offset
  }

  /** Allocations that are in use together do not share bytes. */
  predicate Compatible(a: Alloc, b: Alloc) {
    UseOverlaps(a, b) ==> BytesDisjoint(a, b)
  }

  ghost predicate SortedByOffset(s: seq<Alloc>) {
    forall i, j :: 0 <= i < j < |s| ==> s[i].offset <= s[j].offset
  }

  /** All allocations end below the mark. */
  ghost predicate Below(s: seq<Alloc>, mark: nat) {
    forall k :: 0 <= k < |s| ==> s[k].offset + s[k].size <= mark
  }

  ghost predicate PairwiseCompatible(s: seq<Alloc>) {
    forall i, j :: 0 <= i < j < |s| ==> Compatible(s[i], s[j])
  }

  function AlignTo(alignment: nat, offset: nat): (r: nat)
    requires alignment > 0
    ensures r % alignment == 0 && offset <= r < offset + alignment
  {
    if offset % alignment == 0 then offset
    else
      AlignUp(alignment, offset);
      offset + (alignment - offset % alignment)
  }

  lemma AlignUp(alignment: nat, offset: nat)
    requires alignment > 0
    ensures (offset + (alignment - offset % alignment)) % alignment == 0
  {
    var q := offset / alignment;
    assert offset + (alignment - offset % alignment) == alignment * (q + 1);
    MultipleMod(alignment, q + 1);
  }

  lemma MultipleMod(a: nat, q: nat)
    requires a > 0
    ensures (a * q) % a == 0
  {
    var d, m := a * q / a, a * q % a;
    assert a * q == a * d + m;
    assert m == a * (q - d);
    if q > d {
      MulAtLeast(a, q - d);
    } else if q < d {
      MulAtLeast(a, d - q);
    }
  }

  lemma MulAtLeast(a: nat, b: int)
    requires b >= 1
    ensures a * b >= a
  {
  }

  /** A place at `offset` is free of everything among the first `n` allocations in use meanwhile. */
  ghost predicate FreeAmong(active: seq<Alloc>, n: nat, firstNode: int, lastNode: int, offset: nat, size: nat)
    requires n <= |active|
  {
    forall k :: 0 <= k < n ==> Compatible(active[k], Alloc(offset, size, 0, firstNode, lastNode))
  }

  // ---------------------------------------------------------------- gaps

  /** The end of all those of the first `n` allocations that are in use meanwhile. */
  function EndBefore(active: seq<Alloc>, n: nat, firstNode: int, lastNode: int): nat
    requires n <= |active|
  {
    if n == 0 then 0
    else
      var a, end := active[n - 1], EndBefore(active, n - 1, firstNode, lastNode);
      if UseOverlaps(a, Alloc(0, 0, 0, firstNode, lastNode)) && end < a.offset + a.size then a.offset + a.size else end
  }

  /** The first place after the first `n` allocations that are in use meanwhile. */
  function PlaceAfter(active: seq<Alloc>, n: nat, alignment: nat, firstNode: int, lastNode: int): nat
    requires n <= |active| && alignment > 0
  {
    AlignTo(alignment, EndBefore(active, n, firstNode, lastNode))
  }

  /** There is room before allocation `k`, which is in use meanwhile. */
  predicate GapFits(active: seq<Alloc>, k: int, alignment: nat, size: nat, firstNode: int, lastNode: int)
    requires alignment > 0
  {
    && 0 <= k < |active| && UseOverlaps(active[k], Alloc(0, 0, 0, firstNode, lastNode))
    && PlaceAfter(active, k, alignment, firstNode, lastNode) + size <= active[k].offset
  }

  /** What a gap has to spare from its first aligned place on, and from the end of what lies before it. */
  function Spare(active: seq<Alloc>, k: int, alignment: nat, firstNode: int, lastNode: int): int
    requires alignment > 0 && 0 <= k < |active|
  {
    active[k].offset - PlaceAfter(active, k, alignment, firstNode, lastNode)
  }

  function SpareUnaligned(active: seq<Alloc>, k: int, firstNode: int, lastNode: int): int
    requires 0 <= k < |active|
  {
    active[k].offset - EndBefore(active, k, firstNode, lastNode)
  }

  /** The gap that is taken when those before the first `n` allocations have been looked at, or -1. */
  function TakenGap(active: seq<Alloc>, n: nat, alignment: nat, size: nat, firstNode: int, lastNode: int): (r: int)
    requires alignment > 0 && n <= |active|
    ensures -1 <= r < n && (r >= 0 ==> GapFits(active, r, alignment, size, firstNode, lastNode))
  {
    if n == 0 then -1
    else
      var b := TakenGap(active, n - 1, alignment, size, firstNode, lastNode);
      if GapFits(active, n - 1, alignment, size, firstNode, lastNode)
         && (|| b == -1
             || Spare(active, n - 1, alignment, firstNode, lastNode) < SpareUnaligned(active, b, firstNode, lastNode))
      then n - 1 else b
  }

  /** A gap is taken exactly if there is one with enough room. */
  lemma {:induction false} GapIfAny(
    active: seq<Alloc>, n: nat, alignment: nat, size: nat, firstNode: int, lastNode: int)
    requires alignment > 0 && n <= |active|
    ensures TakenGap(active, n, alignment, size, firstNode, lastNode) == -1 <==>
              forall k :: 0 <= k < n ==> !GapFits(active, k, alignment, size, firstNode, lastNode)
  {
    if n > 0 { GapIfAny(active, n - 1, alignment, size, firstNode, lastNode); }
  }

  /** The place in front of the gap that is taken, or after all allocations in use meanwhile. */
  function ChosenOffset(active: seq<Alloc>, alignment: nat, size: nat, firstNode: int, lastNode: int): nat
    requires alignment > 0
  {
    var gap := TakenGap(active, |active|, alignment, size, firstNode, lastNode);
    PlaceAfter(active, if gap == -1 then |active| else gap, alignment, firstNode, lastNode)
  }

  /** All allocations begin at multiples of the alignment. */
  predicate OffsetsAligned(active: seq<Alloc>, alignment: nat)
    requires alignment > 0
  {
    forall k :: 0 <= k < |active| ==> active[k].offset % alignment == 0
  }

  lemma MultiplesApart(m: nat, a: nat, b: nat, c: nat, d: nat)
    requires m > 0 && a % m == b % m == c % m == d % m == 0 && a - b < c - d + m
    ensures a - b <= c - d
  {
    var p, q, r, t := a / m, b / m, c / m, d / m;
    assert a == m * p && b == m * q && c == m * r && d == m * t;
    var x := (p - q) - (r - t);
    assert (a - b) - (c - d) == m * x;
    if x >= 1 { MulAtLeast(m, x); }
    if x <= 0 { MulNotPositive(m, x); }
  }

  lemma MulNotPositive(a: nat, b: int)
    requires b <= 0
    ensures a * b <= 0
  {
  }

  /** If all allocations begin at multiples of the alignment, no gap with enough room is tighter than the one taken. */
  lemma {:induction false} TakenIsTightest(
    active: seq<Alloc>, n: nat, alignment: nat, size: nat, firstNode: int, lastNode: int, k: nat)
    requires alignment > 0 && k < n <= |active| && OffsetsAligned(active, alignment)
    requires GapFits(active, k, alignment, size, firstNode, lastNode)
    ensures var gap := TakenGap(active, n, alignment, size, firstNode, lastNode);
            && gap != -1
            && Spare(active, gap, alignment, firstNode, lastNode) <= Spare(active, k, alignment, firstNode, lastNode)
  {
    var b, l := TakenGap(active, n - 1, alignment, size, firstNode, lastNode), n - 1;
    GapIfAny(active, n - 1, alignment, size, firstNode, lastNode);
    hide GapFits, OffsetsAligned;
    if k < l { TakenIsTightest(active, l, alignment, size, firstNode, lastNode, k); }
    if b != -1 {
      SpareIs(active, b, alignment, firstNode, lastNode);
      SpareIs(active, l, alignment, firstNode, lastNode);
      if Spare(active, l, alignment, firstNode, lastNode) < SpareUnaligned(active, b, firstNode, lastNode) {
        MultiplesApart(alignment, active[l].offset, PlaceAfter(active, l, alignment, firstNode, lastNode),
                       active[b].offset, PlaceAfter(active, b, alignment, firstNode, lastNode));
      }
    }
  }

  lemma SpareIs(active: seq<Alloc>, k: nat, alignment: nat, firstNode: int, lastNode: int)
    requires alignment > 0 && k < |active| && OffsetsAligned(active, alignment)
    ensures active[k].offset % alignment == 0 && PlaceAfter(active, k, alignment, firstNode, lastNode) % alignment == 0
    ensures Spare(active, k, alignment, firstNode, lastNode) <= SpareUnaligned(active, k, firstNode, lastNode)
    ensures SpareUnaligned(active, k, firstNode, lastNode)
            < Spare(active, k, alignment, firstNode, lastNode) + alignment
  {
  }

  /**
   With other offsets the comparison goes wrong, because it measures the gap found so far from another
   point: of two gaps with 16 and 18 bytes to spare the second is taken.
   */
  lemma LooserGapTaken()
    ensures var active := [Alloc(0, 5, 0, 0, 0), Alloc(24, 8, 1, 0, 0), Alloc(50, 8, 2, 0, 0)];
            && SortedByOffset(active) && PairwiseCompatible(active) && !OffsetsAligned(active, 8)
            && GapFits(active, 1, 8, 8, 0, 0) && TakenGap(active, 3, 8, 8, 0, 0) == 2
            && Spare(active, 1, 8, 0, 0) == 16 && Spare(active, 2, 8, 0, 0) == 18
  {
    var active := [Alloc(0, 5, 0, 0, 0), Alloc(24, 8, 1, 0, 0), Alloc(50, 8, 2, 0, 0)];
    assert EndBefore(active, 0, 0, 0) == 0 && EndBefore(active, 1, 0, 0) == 5 && EndBefore(active, 2, 0, 0) == 32;
    assert TakenGap(active, 1, 8, 8, 0, 0) == -1;
    assert TakenGap(active, 2, 8, 8, 0, 0) == 1;
    assert active[2].offset % 8 == 2;
  }

  /** Of two equal gaps behind an end that is not aligned the later one is taken. */
  lemma LaterGapTaken()
    ensures var active := [Alloc(0, 1, 0, 0, 0), Alloc(16, 1, 1, 0, 0), Alloc(32, 8, 2, 0, 0)];
            && SortedByOffset(active) && PairwiseCompatible(active) && OffsetsAligned(active, 8)
            && Spare(active, 1, 8, 0, 0) == 8 == Spare(active, 2, 8, 0, 0)
            && TakenGap(active, 3, 8, 8, 0, 0) == 2
  {
    var active := [Alloc(0, 1, 0, 0, 0), Alloc(16, 1, 1, 0, 0), Alloc(32, 8, 2, 0, 0)];
    assert EndBefore(active, 0, 0, 0) == 0 && EndBefore(active, 1, 0, 0) == 1 && EndBefore(active, 2, 0, 0) == 17;
    assert TakenGap(active, 1, 8, 8, 0, 0) == -1;
    assert TakenGap(active, 2, 8, 8, 0, 0) == 1;
  }

  predicate SizesAligned(active: seq<Alloc>, alignment: nat)
    requires alignment > 0
  {
    forall k :: 0 <= k < |active| ==> active[k].size % alignment == 0
  }

  lemma QuotientOf(m: nat, a: nat) returns (q: nat)
    requires m > 0 && a % m == 0
    ensures a == m * q
  {
    q := a / m;
  }

  lemma SumOfMultiples(m: nat, a: nat, b: nat)
    requires m > 0 && a % m == b % m == 0
    ensures (a + b) % m == 0
  {
    var p := QuotientOf(m, a);
    var q := QuotientOf(m, b);
    assert a + b == m * (p + q);
    MultipleMod(m, p + q);
  }

  lemma {:induction false} EndAligned(active: seq<Alloc>, n: nat, alignment: nat, firstNode: int, lastNode: int)
    requires alignment > 0 && n <= |active| && OffsetsAligned(active, alignment) && SizesAligned(active, alignment)
    ensures EndBefore(active, n, firstNode, lastNode) % alignment == 0
  {
    if n > 0 {
      EndAligned(active, n - 1, alignment, firstNode, lastNode);
      SumOfMultiples(alignment, active[n - 1].offset, active[n - 1].size);
    }
  }

  /** If sizes are multiples of the alignment too, it is the first one of the tightest gaps that is taken. */
  lemma {:induction false} FirstOfTheTightest(
    active: seq<Alloc>, n: nat, alignment: nat, size: nat, firstNode: int, lastNode: int, k: nat)
    requires alignment > 0 && k < n <= |active| && OffsetsAligned(active, alignment) && SizesAligned(active, alignment)
    requires GapFits(active, k, alignment, size, firstNode, lastNode)
    ensures var gap := TakenGap(active, n, alignment, size, firstNode, lastNode);
            && gap != -1
            && Spare(active, gap, alignment, firstNode, lastNode) <= Spare(active, k, alignment, firstNode, lastNode)
            && (k < gap ==> Spare(active, gap, alignment, firstNode, lastNode)
                            < Spare(active, k, alignment, firstNode, lastNode))
  {
    var b, l := TakenGap(active, n - 1, alignment, size, firstNode, lastNode), n - 1;
    GapIfAny(active, n - 1, alignment, size, firstNode, lastNode);
    if b != -1 { EndAligned(active, b, alignment, firstNode, lastNode); }
    hide GapFits, OffsetsAligned, SizesAligned, EndBefore;
    if k < l { FirstOfTheTightest(active, l, alignment, size, firstNode, lastNode, k); }
  }

  // ---------------------------------------------------------------- memory is used again

  /** A place begins at zero, or right behind an allocation that is in use meanwhile. */
  ghost predicate Justified(active: seq<Alloc>, alignment: nat, firstNode: int, lastNode: int, offset: nat) {
    || offset == 0
    || exists k ::
         && 0 <= k < |active| && active[k].firstNode <= lastNode && firstNode <= active[k].lastNode
         && active[k].offset + active[k].size <= offset < active[k].offset + active[k].size + alignment
  }

  /** A place lies below the beginning of an allocation that is in use meanwhile. */
  ghost predicate BelowSome(active: seq<Alloc>, firstNode: int, lastNode: int, offset: nat, size: nat) {
    exists k ::
      && 0 <= k < |active| && active[k].firstNode <= lastNode && firstNode <= active[k].lastNode
      && offset + size <= active[k].offset
  }

  /** There is an aligned place of this size below the beginning of one of them that none of them touches. */
  ghost predicate RoomBelow(active: seq<Alloc>, alignment: nat, firstNode: int, lastNode: int, size: nat) {
    exists o: nat {:trigger BelowSome(active, firstNode, lastNode, o, size)} ::
      && alignment > 0 && o % alignment == 0 && BelowSome(active, firstNode, lastNode, o, size)
      && forall j :: 0 <= j < |active| && active[j].firstNode <= lastNode && firstNode <= active[j].lastNode ==>
                       o + size <= active[j].offset || active[j].offset + active[j].size <= o
  }

  /** Zero or the end of an allocation in use meanwhile, and below none of these ends. */
  lemma {:induction false} EndBeforeIs(active: seq<Alloc>, n: nat, firstNode: int, lastNode: int)
    requires n <= |active|
    ensures var end := EndBefore(active, n, firstNode, lastNode);
            && (forall k :: 0 <= k < n && active[k].firstNode <= lastNode && firstNode <= active[k].lastNode ==>
                              active[k].offset + active[k].size <= end)
            && (|| end == 0
                || exists k ::
                     && 0 <= k < n && active[k].firstNode <= lastNode && firstNode <= active[k].lastNode
                     && active[k].offset + active[k].size == end)
  {
    if n > 0 { EndBeforeIs(active, n - 1, firstNode, lastNode); }
  }

  lemma ChosenIsJustified(active: seq<Alloc>, alignment: nat, size: nat, firstNode: int, lastNode: int)
    requires alignment > 0
    ensures Justified(active, alignment, firstNode, lastNode,
                      ChosenOffset(active, alignment, size, firstNode, lastNode))
  {
    hide EndBefore, TakenGap, GapFits;
    var gap := TakenGap(active, |active|, alignment, size, firstNode, lastNode);
    EndBeforeIs(active, if gap == -1 then |active| else gap, firstNode, lastNode);
    if EndBefore(active, if gap == -1 then |active| else gap, firstNode, lastNode) == 0 {
      assert 0 % alignment == 0;
    }
  }

  /** The aligned place is the first one. */
  lemma AlignToLeast(alignment: nat, offset: nat, o: nat)
    requires alignment > 0 && offset <= o && o % alignment == 0
    ensures AlignTo(alignment, offset) <= o
  {
    hide AlignTo;
    MultiplesApart(alignment, AlignTo(alignment, offset), o, 0, 0);
  }

  /** Such a place makes a gap: before the first allocation above it. */
  lemma {:induction false} RoomMakesGap(
    active: seq<Alloc>, alignment: nat, size: nat, firstNode: int, lastNode: int, o: nat, k: nat)
    requires alignment > 0 && o % alignment == 0 && size > 0
    requires forall j :: 0 <= j < |active| && active[j].firstNode <= lastNode && firstNode <= active[j].lastNode ==>
                           o + size <= active[j].offset || active[j].offset + active[j].size <= o
    requires k < |active| && active[k].firstNode <= lastNode && firstNode <= active[k].lastNode
    requires o + size <= active[k].offset
    ensures exists g :: GapFits(active, g, alignment, size, firstNode, lastNode)
  {
    hide EndBefore, AlignTo;
    EndBeforeIs(active, k, firstNode, lastNode);
    if EndBefore(active, k, firstNode, lastNode) <= o {
      AlignToLeast(alignment, EndBefore(active, k, firstNode, lastNode), o);
      assert GapFits(active, k, alignment, size, firstNode, lastNode);
    } else {
      var j :| 0 <= j < k && active[j].firstNode <= lastNode && firstNode <= active[j].lastNode
               && active[j].offset + active[j].size == EndBefore(active, k, firstNode, lastNode);
      RoomMakesGap(active, alignment, size, firstNode, lastNode, o, j);
    }
  }

  /** If there is room below the beginning of an allocation in use meanwhile, the chosen place lies below one. */
  lemma ChosenUsesRoom(active: seq<Alloc>, alignment: nat, size: nat, firstNode: int, lastNode: int)
    requires alignment > 0 && size > 0 && RoomBelow(active, alignment, firstNode, lastNode, size)
    ensures BelowSome(active, firstNode, lastNode,
                      ChosenOffset(active, alignment, size, firstNode, lastNode), size)
  {
    hide EndBefore, AlignTo, TakenGap;
    var o: nat :| o % alignment == 0 && BelowSome(active, firstNode, lastNode, o, size)
                  && forall j :: 0 <= j < |active| && active[j].firstNode <= lastNode
                                 && firstNode <= active[j].lastNode ==>
                                   o + size <= active[j].offset || active[j].offset + active[j].size <= o;
    var k :| 0 <= k < |active| && active[k].firstNode <= lastNode && firstNode <= active[k].lastNode
             && o + size <= active[k].offset;
    RoomMakesGap(active, alignment, size, firstNode, lastNode, o, k);
    GapIfAny(active, |active|, alignment, size, firstNode, lastNode);
    assert forall g :: GapFits(active, g, alignment, size, firstNode, lastNode) ==> 0 <= g < |active|;
  }

  // ---------------------------------------------------------------- the scan

  /** The local variables of the scan after the first `k` allocations. */
  ghost predicate ScannedTo(
    active: seq<Alloc>, k: int, alignment: nat, size: nat, firstNode: int, lastNode: int, best: int, bestFit: int,
    current: int)
  {
    && 0 <= k <= |active| && alignment > 0 && size > 0 && current == EndBefore(active, k, firstNode, lastNode)
    && var gap := TakenGap(active, k, alignment, size, firstNode, lastNode);
       if gap == -1 then best == bestFit == -1
       else
         && best == PlaceAfter(active, gap, alignment, firstNode, lastNode)
         && bestFit == SpareUnaligned(active, gap, firstNode, lastNode) >= size
  }

  /** One more allocation. */
  lemma ScanNext(
    active: seq<Alloc>, k: int, alignment: nat, size: nat, firstNode: int, lastNode: int, best: int, bestFit: int,
    current: int)
    requires k < |active| && ScannedTo(active, k, alignment, size, firstNode, lastNode, best, bestFit, current)
    ensures 0 <= k && 0 <= current && alignment > 0 && bestFit != 0
    ensures var a, aligned := active[k], AlignTo(alignment, current);
            var skip := a.lastNode < firstNode || a.firstNode > lastNode;
            var taken := !skip && aligned + size <= a.offset && (bestFit == -1 || a.offset - aligned < bestFit);
            && (taken ==> a.offset - current > 0)
            && ScannedTo(active, k + 1, alignment, size, firstNode, lastNode,
                         if taken then aligned else best, if taken then a.offset - current else bestFit,
                         if !skip && current < a.offset + a.size then a.offset + a.size else current)
  {
    hide AlignTo;
    var aligned := AlignTo(alignment, current);
    assert aligned == PlaceAfter(active, k, alignment, firstNode, lastNode) >= current;
  }

  lemma ScanStarts(active: seq<Alloc>, alignment: nat, size: nat, firstNode: int, lastNode: int)
    requires alignment > 0 && size > 0
    ensures ScannedTo(active, 0, alignment, size, firstNode, lastNode, -1, -1, 0)
  {
  }

  lemma ScanEnds(
    active: seq<Alloc>, k: int, alignment: nat, size: nat, firstNode: int, lastNode: int, best: int, bestFit: int,
    current: int)
    requires k == |active| && ScannedTo(active, k, alignment, size, firstNode, lastNode, best, bestFit, current)
    ensures 0 <= current && alignment > 0
    ensures ChosenOffset(active, alignment, size, firstNode, lastNode)
         == if best == -1 then AlignTo(alignment, current) else best
  {
    hide AlignTo, TakenGap, EndBefore;
  }

  class Arena {
    /** `GetAlignment()` of the underlying buffer. */
    const bufferAlignment: nat
    var active: seq<Alloc>
    var highWaterMark: nat
    /** `GetSize()` of the underlying buffer. */
    var bufferSize: nat
    var committed: bool

    ghost predicate Valid()
      reads this
    {
      && SortedByOffset(active)
      && PairwiseCompatible(active)
      && Below(active, highWaterMark)
    }

    constructor (alignment: nat)
      ensures Valid() && active == [] && highWaterMark == 0 && bufferAlignment == alignment
      ensures bufferSize == 0 && !committed
    {
      bufferAlignment, active, highWaterMark := alignment, [], 0;
      bufferSize, committed := 0, false;
    }

    /** `ClearPlan`. */
    method ClearPlan()
      modifies this`active, this`highWaterMark, this`committed
      ensures Valid() && active == [] && highWaterMark == 0 && !committed
    {
      active, highWaterMark, committed := [], 0, false;
    }

    /**
     Resizes the buffer to the mark if it is smaller.  The result tells whether the buffer has moved:
     the first buffer always has, a larger one if the allocator so decides (`moves`).
     */
    method Commit(moves: bool) returns (reallocated: bool)
      modifies this`bufferSize, this`committed
      ensures committed && bufferSize >= highWaterMark && bufferSize >= old(bufferSize)
      ensures bufferSize == highWaterMark || bufferSize == old(bufferSize)
      ensures reallocated <==> old(bufferSize) < highWaterMark && (old(bufferSize) == 0 || moves)
    {
      if highWaterMark <= bufferSize {
        reallocated := false;
      } else {
        reallocated := bufferSize == 0 || moves;
        bufferSize := highWaterMark;
      }
      committed := true;
    }

    /** The offset behind a tensor's data pointer; none, a null pointer, for an empty allocation. */
    method ResolveAlloc(a: Alloc) returns (ok: bool, offset: Option<nat>)
      ensures ok <==> committed && a.offset + a.size <= bufferSize
      ensures ok ==> (offset.Some? <==> a.size > 0) && (offset.Some? ==> offset.value + a.size <= bufferSize)
      ensures ok && offset.Some? ==> offset.value == a.offset
    {
      if !committed || bufferSize < a.offset + a.size {
        return false, None;
      }
      return true, if a.size == 0 then None else Some(a.offset);
    }

    /** The place in front of the gap that is taken, or after all allocations in use meanwhile. */
    method FindOffset(alignment: nat, size: nat, firstNode: int, lastNode: int) returns (offset: nat)
      requires Valid() && alignment > 0 && size > 0
      ensures offset % alignment == 0
      ensures FreeAmong(active, |active|, firstNode, lastNode, offset, size)
      ensures Justified(active, alignment, firstNode, lastNode, offset)
      ensures RoomBelow(active, alignment, firstNode, lastNode, size) ==>
                BelowSome(active, firstNode, lastNode, offset, size)
      ensures offset == ChosenOffset(active, alignment, size, firstNode, lastNode)
    {
      hide SortedByOffset, PairwiseCompatible, Below, FreeAmong, AlignTo, Justified, RoomBelow, BelowSome, EndBefore,
        TakenGap, ScannedTo;
      var best := -1;
      var bestFit := -1;
      var current := 0;
      var k := 0;
      ScanStarts(active, alignment, size, firstNode, lastNode);
      while k < |active|
        invariant 0 <= k <= |active|
        invariant ScannedTo(active, k, alignment, size, firstNode, lastNode, best, bestFit, current)
      {
        var a := active[k];
        ScanNext(active, k, alignment, size, firstNode, lastNode, best, bestFit, current);
        if a.lastNode < firstNode || a.firstNode > lastNode {
          k := k + 1;
          continue;
        }
        var aligned := AlignTo(alignment, current);
        if aligned + size <= a.offset && (bestFit == -1 || a.offset - aligned < bestFit) {
          best := aligned;
          bestFit := a.offset - current;
        }
        current := if current < a.offset + a.size then a.offset + a.size else current;
        k := k + 1;
        if bestFit == 0 { // never so: a gap that is taken has `size` bytes to spare
          break;
        }
      }
      ScanEnds(active, k, alignment, size, firstNode, lastNode, best, bestFit, current);
      if best == -1 {
        offset := AlignTo(alignment, current);
      } else {
        offset := best;
      }
      ChosenIs(active, alignment, size, firstNode, lastNode);
    }

    /** Schedules an allocation for the nodes `firstNode` to `lastNode`. */
    method Allocate(alignment: nat, size: nat, tensor: int, firstNode: int, lastNode: int)
      returns (ok: bool, a: Alloc)
      requires Valid() && alignment > 0
      modifies this`active, this`highWaterMark
      ensures Valid()
      ensures ok <==> alignment <= bufferAlignment
      ensures !ok || size == 0 ==> active == old(active) && highWaterMark == old(highWaterMark)
      ensures ok ==> a.size == size && a.tensor == tensor && a.firstNode == firstNode && a.lastNode == lastNode
      ensures ok && size == 0 ==> a.offset == 0
      ensures ok && size > 0 ==>
                && a.offset % alignment == 0
                && a.offset + size <= highWaterMark
                && highWaterMark >= old(highWaterMark)
                && multiset(active) == multiset(old(active)) + multiset{a}
                && (forall k :: 0 <= k < |old(active)| ==> Compatible(old(active)[k], a))
                && Justified(old(active), alignment, firstNode, lastNode, a.offset)
                && (RoomBelow(old(active), alignment, firstNode, lastNode, size) ==>
                      BelowSome(old(active), firstNode, lastNode, a.offset, size))
                && GrewBy(old(active), active, alignment, a)
    {
      if alignment > bufferAlignment {
        return false, Alloc(0, 0, -1, -1, -1);
      }
      if size == 0 {
        return true, Alloc(0, 0, tensor, firstNode, lastNode);
      }
      var offset := FindOffset(alignment, size, firstNode, lastNode);
      a := Alloc(offset, size, tensor, firstNode, lastNode);
      ok := true;
      highWaterMark := if highWaterMark < offset + size then offset + size else highWaterMark;
      forall k | 0 <= k < |active| ensures Compatible(active[k], a) {
        assert Compatible(active[k], Alloc(offset, size, 0, firstNode, lastNode));
      }
      ghost var before := active;
      ghost var pos := Insert(a);
      assert GrewAt(before, active, alignment, a, pos);
    }

    /** Keeps the active allocations sorted by offset (`std::upper_bound` and `insert`). */
    method Insert(a: Alloc) returns (ghost at: nat)
      requires SortedByOffset(active) && PairwiseCompatible(active)
      requires Below(active, highWaterMark)
      requires a.offset + a.size <= highWaterMark
      requires forall k :: 0 <= k < |active| ==> Compatible(active[k], a)
      modifies this`active
      ensures Valid()
      ensures multiset(active) == multiset(old(active)) + multiset{a}
      ensures InsertedInOrder(old(active), active, a, at)
    {
      hide SortedByOffset, PairwiseCompatible, Below, Compatible, Inserted;
      var pos := 0;
      while pos < |active| && active[pos].offset <= a.offset
        invariant 0 <= pos <= |active|
        invariant forall k :: 0 <= k < pos ==> active[k].offset <= a.offset
      {
        pos := pos + 1;
      }
      InsertKeeps(active, pos, a, highWaterMark);
      InsertKeepsElements(active, pos, a);
      active := Inserted(active, pos, a);
      at := pos;
    }
  }

  ghost predicate InsertedInOrder(before: seq<Alloc>, after: seq<Alloc>, a: Alloc, at: nat) {
    && at <= |before| && after == Inserted(before, at, a)
    && (forall k :: 0 <= k < at ==> before[k].offset <= a.offset)
    && (at < |before| ==> a.offset < before[at].offset)
  }

  /** Allocation `a` has been given the chosen place, and has joined the list at `pos`. */
  ghost predicate GrewAt(before: seq<Alloc>, after: seq<Alloc>, alignment: nat, a: Alloc, pos: nat) {
    && alignment > 0 && InsertedInOrder(before, after, a, pos)
    && a.offset == ChosenOffset(before, alignment, a.size, a.firstNode, a.lastNode)
  }

  ghost predicate GrewBy(before: seq<Alloc>, after: seq<Alloc>, alignment: nat, a: Alloc) {
    exists pos: nat :: GrewAt(before, after, alignment, a, pos)
  }

  /** As long as the alignment stays the same, all allocations begin at its multiples. */
  lemma StaysAligned(before: seq<Alloc>, after: seq<Alloc>, alignment: nat, a: Alloc)
    requires GrewBy(before, after, alignment, a) && OffsetsAligned(before, alignment)
    ensures OffsetsAligned(after, alignment)
  {
    hide TakenGap, EndBefore;
    var pos: nat :| GrewAt(before, after, alignment, a, pos);
    forall k | 0 <= k < |after| ensures after[k].offset % alignment == 0 {
      assert after[k] == if k < pos then before[k] else if k == pos then a else before[k - 1];
    }
  }

  lemma {:induction false} EndCovers(active: seq<Alloc>, n: nat, firstNode: int, lastNode: int, j: nat)
    requires j < n <= |active| && UseOverlaps(active[j], Alloc(0, 0, 0, firstNode, lastNode))
    ensures active[j].offset + active[j].size <= EndBefore(active, n, firstNode, lastNode)
  {
    if j < n - 1 { EndCovers(active, n - 1, firstNode, lastNode, j); }
  }

  /** The chosen place shares no bytes with anything in use meanwhile. */
  lemma ChosenIsFree(active: seq<Alloc>, alignment: nat, size: nat, firstNode: int, lastNode: int)
    requires SortedByOffset(active) && alignment > 0
    ensures var offset := ChosenOffset(active, alignment, size, firstNode, lastNode);
            FreeAmong(active, |active|, firstNode, lastNode, offset, size) && offset % alignment == 0
  {
    var taken := TakenGap(active, |active|, alignment, size, firstNode, lastNode);
    var gap := if taken == -1 then |active| else taken;
    var offset := ChosenOffset(active, alignment, size, firstNode, lastNode);
    forall j | 0 <= j < |active| ensures Compatible(active[j], Alloc(offset, size, 0, firstNode, lastNode)) {
      hide TakenGap;
      if UseOverlaps(active[j], Alloc(0, 0, 0, firstNode, lastNode)) {
        if j < gap { EndCovers(active, gap, firstNode, lastNode, j); }
        assert gap < j ==> active[gap].offset <= active[j].offset;
      }
    }
  }

  /** What the chosen place is like. */
  lemma ChosenIs(active: seq<Alloc>, alignment: nat, size: nat, firstNode: int, lastNode: int)
    requires SortedByOffset(active) && alignment > 0 && size > 0
    ensures var offset := ChosenOffset(active, alignment, size, firstNode, lastNode);
            && FreeAmong(active, |active|, firstNode, lastNode, offset, size) && offset % alignment == 0
            && Justified(active, alignment, firstNode, lastNode, offset)
            && (RoomBelow(active, alignment, firstNode, lastNode, size) ==>
                  BelowSome(active, firstNode, lastNode, offset, size))
  {
    hide ChosenOffset, SortedByOffset, FreeAmong, Justified, RoomBelow, BelowSome;
    ChosenIsFree(active, alignment, size, firstNode, lastNode);
    ChosenIsJustified(active, alignment, size, firstNode, lastNode);
    if RoomBelow(active, alignment, firstNode, lastNode, size) {
      ChosenUsesRoom(active, alignment, size, firstNode, lastNode);
    }
  }

  // ---------------------------------------------------------------- allocations in use all the time

  function Top(active: seq<Alloc>, n: nat): nat
    requires n <= |active|
  {
    if n == 0 then 0 else active[n - 1].offset + active[n - 1].size
  }

  /** The first `n` allocations lie one upon the other, with nothing but alignment between them. */
  ghost predicate Stacked(active: seq<Alloc>, n: nat, alignment: nat) {
    && alignment > 0 && n <= |active|
    && (forall k :: 0 <= k < n ==> active[k].size > 0 && active[k].offset == AlignTo(alignment, Top(active, k)))
  }

  ghost predicate AllOverlap(active: seq<Alloc>, n: nat, firstNode: int, lastNode: int) {
    n <= |active| && forall k :: 0 <= k < n ==> UseOverlaps(active[k], Alloc(0, 0, 0, firstNode, lastNode))
  }

  lemma StackedAt(active: seq<Alloc>, n: nat, alignment: nat, k: nat)
    requires Stacked(active, n, alignment) && k < n
    ensures alignment > 0 && n <= |active| && active[k].size > 0 && Top(active, k) <= active[k].offset
    ensures active[k].offset == AlignTo(alignment, Top(active, k)) && Stacked(active, k, alignment)
  {
  }

  lemma {:induction false} StackTop(active: seq<Alloc>, n: nat, alignment: nat, k: nat)
    requires Stacked(active, n, alignment) && k < n <= |active|
    ensures active[k].offset + active[k].size <= Top(active, n)
  {
    hide Stacked;
    if k < n - 1 {
      StackedAt(active, n, alignment, n - 1);
      StackTop(active, n - 1, alignment, k);
    }
  }

  lemma OverlapAt(active: seq<Alloc>, n: nat, firstNode: int, lastNode: int, k: nat)
    requires AllOverlap(active, n, firstNode, lastNode) && k < n
    ensures n <= |active| && UseOverlaps(active[k], Alloc(0, 0, 0, firstNode, lastNode))
  {
  }

  /** If all of a stack is in use meanwhile, it ends at its top. */
  lemma {:induction false} StackEnd(
    active: seq<Alloc>, n: nat, alignment: nat, firstNode: int, lastNode: int, k: nat)
    requires Stacked(active, n, alignment) && AllOverlap(active, n, firstNode, lastNode) && k <= n <= |active|
    ensures EndBefore(active, k, firstNode, lastNode) == Top(active, k)
  {
    hide Stacked, AlignTo, AllOverlap, UseOverlaps;
    if k > 0 {
      StackEnd(active, n, alignment, firstNode, lastNode, k - 1);
      StackedAt(active, n, alignment, k - 1);
      OverlapAt(active, n, firstNode, lastNode, k - 1);
    }
  }

  /** Then there is no room inside. */
  lemma NoRoomInside(
    active: seq<Alloc>, n: nat, alignment: nat, size: nat, firstNode: int, lastNode: int, k: nat)
    requires Stacked(active, n, alignment) && AllOverlap(active, n, firstNode, lastNode) && k < n && size > 0
    ensures alignment > 0 && !GapFits(active, k, alignment, size, firstNode, lastNode)
  {
    hide Stacked, AllOverlap, UseOverlaps, EndBefore;
    StackedAt(active, n, alignment, k);
    StackEnd(active, n, alignment, firstNode, lastNode, k);
  }

  lemma {:induction false} EndGrows(active: seq<Alloc>, n: nat, m: nat, firstNode: int, lastNode: int)
    requires n <= m <= |active|
    ensures EndBefore(active, n, firstNode, lastNode) <= EndBefore(active, m, firstNode, lastNode)
    decreases m
  {
    if n < m { EndGrows(active, n, m - 1, firstNode, lastNode); }
  }

  /** No gap inside a stack is taken, and so the place is not below its top. */
  lemma ChosenOnTop(active: seq<Alloc>, alignment: nat, a: Alloc, n: nat)
    requires Stacked(active, n, alignment) && AllOverlap(active, n, a.firstNode, a.lastNode) && a.size > 0
    requires alignment > 0 && n <= |active|
    requires a.offset == ChosenOffset(active, alignment, a.size, a.firstNode, a.lastNode)
    ensures Top(active, n) <= a.offset
    ensures n == |active| ==> a.offset == AlignTo(alignment, Top(active, n))
  {
    hide Stacked, GapFits, TakenGap;
    var taken := TakenGap(active, |active|, alignment, a.size, a.firstNode, a.lastNode);
    if 0 <= taken < n { NoRoomInside(active, n, alignment, a.size, a.firstNode, a.lastNode, taken); }
    StackEnd(active, n, alignment, a.firstNode, a.lastNode, n);
    EndGrows(active, n, if taken == -1 then |active| else taken, a.firstNode, a.lastNode);
  }

  lemma StackKept(before: seq<Alloc>, after: seq<Alloc>, alignment: nat, n: nat)
    requires Stacked(before, n, alignment) && n <= |after| && after[..n] == before[..n]
    ensures Stacked(after, n, alignment) && Top(after, n) == Top(before, n)
  {
    forall k | 0 <= k < n ensures after[k] == before[k] && Top(after, k) == Top(before, k) {
      assert after[..n][k] == before[..n][k];
      assert k > 0 ==> after[..n][k - 1] == before[..n][k - 1];
    }
    assert n > 0 ==> after[..n][n - 1] == before[..n][n - 1];
  }

  lemma StackPushed(active: seq<Alloc>, n: nat, alignment: nat)
    requires Stacked(active, n, alignment) && n < |active| && alignment > 0
    requires active[n].size > 0 && active[n].offset == AlignTo(alignment, Top(active, n))
    ensures Stacked(active, n + 1, alignment)
  {
  }

  /**
   A new allocation goes on top of a stack that is all in use meanwhile, and leaves it as it is; if there
   is nothing else, the stack grows by it.
   */
  lemma StackGrows(before: seq<Alloc>, after: seq<Alloc>, alignment: nat, a: Alloc, n: nat)
    requires GrewBy(before, after, alignment, a) && a.size > 0 && n <= |before|
    requires Stacked(before, n, alignment) && AllOverlap(before, n, a.firstNode, a.lastNode)
    ensures |after| == |before| + 1 && Top(before, n) <= a.offset && after[..n] == before[..n]
    ensures Stacked(after, n, alignment) && Top(after, n) == Top(before, n)
    ensures n == |before| ==> after[n] == a && Stacked(after, n + 1, alignment)
  {
    hide Stacked, ChosenOffset, AllOverlap;
    var pos: nat :| GrewAt(before, after, alignment, a, pos);
    ChosenOnTop(before, alignment, a, n);
    if pos < n {
      StackTop(before, n, alignment, pos);
      StackedAt(before, n, alignment, pos);
    }
    assert after[..n] == before[..n];
    StackKept(before, after, alignment, n);
    if n == |before| { StackPushed(after, n, alignment); }
  }

  lemma InsertedAt(active: seq<Alloc>, pos: nat, a: Alloc, i: nat)
    requires pos <= |active| && i <= |active|
    ensures |Inserted(active, pos, a)| == |active| + 1
    ensures Inserted(active, pos, a)[i] == if i < pos then active[i] else if i == pos then a else active[i - 1]
  {
  }

  lemma InsertKeeps(active: seq<Alloc>, pos: nat, a: Alloc, mark: nat)
    requires pos <= |active| && SortedByOffset(active) && PairwiseCompatible(active) && Below(active, mark)
    requires forall k :: 0 <= k < pos ==> active[k].offset <= a.offset
    requires pos < |active| ==> a.offset < active[pos].offset
    requires forall k :: 0 <= k < |active| ==> Compatible(active[k], a)
    requires a.offset + a.size <= mark
    ensures SortedByOffset(Inserted(active, pos, a)) && PairwiseCompatible(Inserted(active, pos, a))
    ensures Below(Inserted(active, pos, a), mark)
  {
    hide Inserted;
    var s := Inserted(active, pos, a);
    InsertedAt(active, pos, a, 0);
    forall i, j | 0 <= i < j < |s| ensures s[i].offset <= s[j].offset && Compatible(s[i], s[j]) {
      InsertedAt(active, pos, a, i);
      InsertedAt(active, pos, a, j);
      assert pos < j ==> active[pos].offset <= active[j - 1].offset;
    }
    forall i | 0 <= i < |s| ensures s[i].offset + s[i].size <= mark { InsertedAt(active, pos, a, i); }
  }
}
