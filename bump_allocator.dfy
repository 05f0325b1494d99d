/** The early, double-ended bump allocator: one range `[start, end)` in which
    byte allocations grow upward from `start` (cursor `bPos`) and page
    allocations grow downward from `end` (cursor `pPos`). Reading the range
    from low to high addresses: the bytes handed out end at `bPos`, the free
    middle runs from `bPos` to `pPos`, and the pages handed out start at
    `pPos`. Only the number of live byte allocations is kept; when it drops
    to zero the whole byte area is reclaimed at once. Pages are never
    freed. */
module BumpAllocator {
  import opened Allocator

  class EarlyAllocator {
    /** The `PAGE_SIZE` const generic parameter. */
    const pageSize: nat
    var start: nat
    var end: nat
    var bPos: nat
    var pPos: nat
    /** Number of live byte allocations. */
    var count: nat

    /** The two cursors never cross and stay inside the range, and the byte
        area is empty whenever no byte allocation is live. */
    ghost predicate Valid()
      reads this
    {
      IsPow2(pageSize) && start <= bPos <= pPos <= end && (count == 0 ==> bPos == start)
    }

    /** `new`: every field zero, the range empty. */
    constructor (pageSize: nat)
      requires IsPow2(pageSize)
      ensures Valid() && this.pageSize == pageSize
      ensures start == 0 && end == 0 && bPos == 0 && pPos == 0 && count == 0
    {
      this.pageSize := pageSize;
      start, end, bPos, pPos, count := 0, 0, 0, 0, 0;
    }

    /** A byte request fits exactly when some address aligned to `align`
        at or above `bPos` leaves room for `size` bytes below `pPos`. */
    function CanAllocBytes(size: nat, align: nat): (b: bool)
      reads this
      requires IsPow2(align)
      ensures b <==> exists a: nat :: Aligned(a, align) && bPos <= a && a + size <= pPos
    {
      var alignedPos := AlignUp(bPos, align);
      alignedPos + size <= pPos
    }

    /** A page request fits exactly when some address aligned to `align` at
        or above `bPos` leaves room for `numPages` pages below `pPos`. */
    function CanAllocPages(numPages: nat, align: nat): (b: bool)
      reads this
      requires IsPow2(align) && numPages * pageSize <= pPos
      ensures b <==> exists a: nat :: Aligned(a, align) && bPos <= a && a + numPages * pageSize <= pPos
    {
      var size := numPages * pageSize;
      var alignedPos := AlignDown(pPos - size, align);
      alignedPos >= bPos
    }

    /** Sets the managed range to `[start, start + size)`, both cursors at
        its ends and no live byte allocation. */
    method Init(start: nat, size: nat)
      requires Valid()
      modifies this`start, this`end, this`bPos, this`pPos, this`count
      ensures Valid()
      ensures this.start == start && end == start + size
      ensures bPos == start && pPos == end && count == 0
    {
      this.start := start;
      end := start + size;
      bPos := start;
      pPos := end;
      count := 0;
    }

    /** Bumps `bPos` to the aligned address plus `size`; fails with
        `NoMemory`, changing nothing, when that would cross `pPos`. */
    method Alloc(layout: Layout) returns (r: AllocResult<nat>)
      requires Valid() && IsPow2(layout.align)
      modifies this`bPos, this`count
      ensures Valid()
      ensures r.Ok? <==> old(CanAllocBytes(layout.size, layout.align))
      ensures r.Ok? ==>
        && r.value == AlignUp(old(bPos), layout.align)
        && Aligned(r.value, layout.align)
        && old(bPos) <= r.value && r.value + layout.size <= pPos
        && bPos == r.value + layout.size
        && count == old(count) + 1
      ensures r.Err? ==> r.error == NoMemory && bPos == old(bPos) && count == old(count)
    {
      var size, align := layout.size, layout.align;
      if !CanAllocBytes(size, align) {
        return Err(NoMemory);
      }
      var alignedPos := AlignUp(bPos, align);
      bPos := alignedPos + size;
      count := count + 1;
      return Ok(alignedPos);
    }

    /** Forgets one live byte allocation (the address and layout are not
        looked at); when none is left, the whole byte area is reclaimed. */
    method Dealloc(pos: nat, layout: Layout)
      requires Valid()
      modifies this`bPos, this`count
      ensures Valid()
      ensures count == if old(count) == 0 then 0 else old(count) - 1
      ensures bPos == if count == 0 then start else old(bPos)
    {
      count := if count == 0 then 0 else count - 1;
      if count == 0 {
        bPos := start;
      }
    }

    /** Moves `pPos` down by `numPages` pages and rounds it down to the larger
        of `alignPow2` and the page size; fails with `NoMemory`, changing
        nothing, when that would cross `bPos`. */
    method AllocPages(numPages: nat, alignPow2: nat) returns (r: AllocResult<nat>)
      requires Valid() && IsPow2(alignPow2)
      requires numPages * pageSize <= pPos
      modifies this`pPos
      ensures Valid()
      ensures r.Ok? <==> old(CanAllocPages(numPages, Max(alignPow2, pageSize)))
      ensures r.Ok? ==>
        && r.value == AlignDown(old(pPos) - numPages * pageSize, Max(alignPow2, pageSize))
        && Aligned(r.value, alignPow2) && Aligned(r.value, pageSize)
        && bPos <= r.value && r.value + numPages * pageSize <= old(pPos)
        && pPos == r.value
      ensures r.Err? ==> r.error == NoMemory && pPos == old(pPos)
    {
      var align := Max(alignPow2, pageSize);
      assert IsPow2(align);
      var size := numPages * pageSize;
      if !CanAllocPages(numPages, align) {
        return Err(NoMemory);
      }
      var alignedPos := AlignDown(pPos - size, align);
      AlignedToSmallerPow2(alignedPos, alignPow2, align);
      AlignedToSmallerPow2(alignedPos, pageSize, align);
      pPos := alignedPos;
      return Ok(alignedPos);
    }

    /** Size of the managed range: the byte area, the free middle and the
        page area together. */
    function TotalBytes(): (r: nat)
      reads this
      requires Valid()
      ensures r == UsedBytes() + AvailableBytes() + (end - pPos)
    {
      end - start
    }

    /** Bytes below the byte cursor: none while no byte allocation is live,
        and never more than the range. */
    function UsedBytes(): (r: nat)
      reads this
      requires Valid()
      ensures count == 0 ==> r == 0
      ensures r <= end - start
    {
      bPos - start
    }

    /** Bytes between the two cursors: the largest byte request, with no
        alignment demand, that `alloc` would grant. */
    function AvailableBytes(): (r: nat)
      reads this
      requires Valid()
      ensures CanAllocBytes(r, 1) && !CanAllocBytes(r + 1, 1)
    {
      pPos - bPos
    }

    function TotalPages(): (r: nat)
      reads this
      requires Valid()
      ensures r * pageSize <= TotalBytes()
    {
      WholePages(end - start, pageSize)
    }

    /** Whole pages in the page area. */
    function UsedPages(): (r: nat)
      reads this
      requires Valid()
      ensures r * pageSize <= end - pPos
    {
      WholePages(end - pPos, pageSize)
    }

    /** Whole pages between the two cursors; with the used pages they never
        exceed the total. */
    function AvailablePages(): (r: nat)
      reads this
      requires Valid()
      ensures UsedPages() + r <= TotalPages()
    {
      DivSumLe(end - pPos, pPos - bPos, pageSize);
      DivMonotone(end - bPos, end - start, pageSize);
      WholePages(pPos - bPos, pageSize)
    }
  }

  function Max(a: nat, b: nat): (m: nat)
    ensures m >= a && m >= b && (m == a || m == b)
  {
    if a >= b then a else b
  }

  /** The number of whole pages of `d` bytes in `n` bytes. */
  function WholePages(n: nat, d: nat): (r: nat)
    requires d > 0
    ensures r * d <= n < (r + 1) * d
  {
    DivTimesLe(n, d);
    n / d
  }

  /** Floors of a sum's parts add up to at most the floor of the sum. */
  lemma DivSumLe(x: nat, y: nat, d: nat)
    requires d > 0
    ensures x / d + y / d <= (x + y) / d
  {
    var qx, qy := x / d, y / d;
    DivMod(x, d);
    DivMod(y, d);
    MulDistrib(d, qx, qy);
    assert d * (qx + qy) <= x + y;
    DivLowerBound(x + y, d, qx + qy);
  }

  /** Euclidean division of a natural by a positive divisor. */
  lemma DivMod(n: nat, d: nat)
    requires d > 0
    ensures n == d * (n / d) + n % d && 0 <= n % d < d
  {
  }

  lemma MulDistrib(d: nat, a: nat, b: nat)
    ensures d * (a + b) == d * a + d * b
  {
  }

  lemma DivTimesLe(n: nat, d: nat)
    requires d > 0
    ensures (n / d) * d <= n
  {
    assert n == d * (n / d) + n % d;
  }

  lemma DivMonotone(m: nat, n: nat, d: nat)
    requires d > 0 && m <= n
    ensures m / d <= n / d
  {
    DivTimesLe(m, d);
    DivLowerBound(n, d, m / d);
  }

  /** If `q` whole multiples of `d` fit in `n`, then `n / d` is at least `q`. */
  lemma DivLowerBound(n: nat, d: nat, q: nat)
    requires d > 0 && d * q <= n
    ensures q <= n / d
  {
    var k, m := n / d, n % d;
    assert n == d * k + m;
    if k < q {
      MulSign(d, q - k);
      assert false;
    }
  }
}
