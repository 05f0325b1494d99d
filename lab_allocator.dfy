/** The lab byte allocator: live allocations are recorded in an ordered map
    from address to length, and a request is served first-fit from the gaps
    between consecutive entries (and the gap after the last one). */
module LabAllocator {
  import opened Options
  import opened Allocator

  // ---------------------------------------------------------------------
  // The ordered map and its iteration order
  // ---------------------------------------------------------------------

  /** `k` is the smallest element of `s`. */
  predicate IsLeast(s: set<nat>, k: nat)
  {
    k in s && forall j :: j in s ==> k <= j
  }

  lemma LeastExists(s: set<nat>)
    requires s != {}
    ensures exists k :: IsLeast(s, k)
    decreases s
  {
    var x :| x in s;
    if s == {x} {
      assert IsLeast(s, x);
    } else {
      LeastExists(s - {x});
      var k :| IsLeast(s - {x}, k);
      var least := if x < k then x else k;
      forall j | j in s
        ensures least <= j
      {
        if j != x {
          assert j in s - {x};
        }
      }
      assert IsLeast(s, least);
    }
  }

  /** The smallest element of a non-empty set of addresses. */
  function Least(s: set<nat>): (k: nat)
    requires s != {}
    ensures k in s && forall j :: j in s ==> k <= j
  {
    LeastExists(s);
    var k :| IsLeast(s, k);
    k
  }

  /** The keys of a map in ascending order: the order in which a `BTreeMap`
      is iterated. */
  function SortedKeys(s: set<nat>): (ks: seq<nat>)
    ensures forall k :: k in ks <==> k in s
    ensures forall i, j :: 0 <= i < j < |ks| ==> ks[i] < ks[j]
    decreases s
  {
    if s == {} then []
    else
      var k := Least(s);
      [k] + SortedKeys(s - {k})
  }

  /** Every entry is non-empty and lies in `[start, stop)`, and no two
      entries overlap. */
  ghost predicate WellFormed(start: nat, stop: nat, m: map<nat, nat>)
  {
    && (forall p :: p in m ==> start <= p && p + m[p] <= stop && m[p] > 0)
    && (forall p, q :: p in m && q in m && p < q ==> p + m[p] <= q)
  }

  // ---------------------------------------------------------------------
  // The running total of lengths
  // ---------------------------------------------------------------------

  ghost function AnyKey(m: map<nat, nat>): (k: nat)
    requires m != map[]
    ensures k in m
  {
    var k :| k in m; k
  }

  /** The sum of the lengths of all entries. */
  ghost function SumLengths(m: map<nat, nat>): nat
    decreases |m|
  {
    if m == map[] then 0
    else
      var k := AnyKey(m);
      assert |m - {k}| < |m| by {
        assert (m - {k}).Keys == m.Keys - {k};
      }
      m[k] + SumLengths(m - {k})
  }

  /** The sum can be taken apart at any key. */
  lemma {:induction false} SumRemove(m: map<nat, nat>, k: nat)
    requires k in m
    ensures SumLengths(m) == m[k] + SumLengths(m - {k})
    decreases |m|
  {
    var j := AnyKey(m);
    if j != k {
      assert |m - {j}| < |m| by { assert (m - {j}).Keys == m.Keys - {j}; }
      assert |m - {k}| < |m| by { assert (m - {k}).Keys == m.Keys - {k}; }
      SumRemove(m - {j}, k);
      SumRemove(m - {k}, j);
      assert m - {j} - {k} == m - {k} - {j};
    }
  }

  /** Entries that do not overlap and lie in `[start, stop)` add up to at
      most `stop - start` bytes. */
  lemma {:induction false} SumWithinRange(start: nat, stop: nat, m: map<nat, nat>)
    requires start <= stop && WellFormed(start, stop, m)
    ensures SumLengths(m) <= stop - start
    decreases |m|
  {
    if m != map[] {
      var k := Least(m.Keys);
      var rest := m - {k};
      assert |rest| < |m| by { assert rest.Keys == m.Keys - {k}; }
      var end := k + m[k];
      forall p | p in rest
        ensures end <= p
      {
        assert p in m && k < p;
      }
      assert WellFormed(end, stop, rest);
      SumWithinRange(end, stop, rest);
      SumRemove(m, k);
    }
  }

  // ---------------------------------------------------------------------
  // First fit, stated over the gaps of the ascending key sequence
  // ---------------------------------------------------------------------

  /** `ks` lists the keys of `m` in ascending order. */
  ghost predicate Listed(m: map<nat, nat>, ks: seq<nat>)
  {
    ks == SortedKeys(m.Keys)
  }

  /** Start of gap `i`: `start` for the first gap, else the end of entry
      `i - 1`. */
  ghost function GapStart(start: nat, m: map<nat, nat>, ks: seq<nat>, i: nat): nat
    requires Listed(m, ks) && i <= |ks|
  {
    if i == 0 then start else ks[i - 1] + m[ks[i - 1]]
  }

  /** End of gap `i`: the start of entry `i`, or `stop` for the trailing gap. */
  ghost function GapEnd(stop: nat, ks: seq<nat>, i: nat): nat
    requires i <= |ks|
  {
    if i < |ks| then ks[i] else stop
  }

  /** The aligned start of gap `i` leaves room for the request before the
      gap ends; the trailing gap is only tried when it is not empty. */
  ghost predicate GapFits(start: nat, stop: nat, m: map<nat, nat>, ks: seq<nat>, layout: Layout, i: nat)
    requires Listed(m, ks) && i <= |ks| && IsPow2(layout.align)
  {
    var g := GapStart(start, m, ks, i);
    && (i < |ks| || stop > g)
    && AlignUp(g, layout.align) + layout.size <= GapEnd(stop, ks, i)
  }

  /** The aligned start of the first gap, from gap `i` on, that fits. */
  ghost function FirstFitFrom(start: nat, stop: nat, m: map<nat, nat>, ks: seq<nat>, layout: Layout, i: nat): Option<nat>
    requires Listed(m, ks) && i <= |ks| && IsPow2(layout.align)
    decreases |ks| - i
  {
    if GapFits(start, stop, m, ks, layout, i) then Some(AlignUp(GapStart(start, m, ks, i), layout.align))
    else if i == |ks| then None
    else FirstFitFrom(start, stop, m, ks, layout, i + 1)
  }

  ghost function FirstFit(start: nat, stop: nat, m: map<nat, nat>, layout: Layout): Option<nat>
    requires IsPow2(layout.align)
  {
    FirstFitFrom(start, stop, m, SortedKeys(m.Keys), layout, 0)
  }

  /** `[b, b + size)` is an aligned block inside `[start, stop)` that
      overlaps no entry. */
  ghost predicate FreeSlot(start: nat, stop: nat, m: map<nat, nat>, layout: Layout, b: nat)
  {
    && Aligned(b, layout.align) && start <= b && b + layout.size <= stop
    && forall p :: p in m ==> b + layout.size <= p || p + m[p] <= b
  }

  /** Every entry listed before gap `i` ends at or before the gap starts;
      every entry from `i` on starts at or after it. */
  lemma GapBounds(start: nat, stop: nat, m: map<nat, nat>, ks: seq<nat>, i: nat)
    requires WellFormed(start, stop, m) && Listed(m, ks) && i <= |ks|
    ensures start <= GapStart(start, m, ks, i)
    ensures forall j :: 0 <= j < i ==> ks[j] + m[ks[j]] <= GapStart(start, m, ks, i)
    ensures forall j :: i <= j < |ks| ==> GapStart(start, m, ks, i) <= ks[j]
  {
    if i > 0 {
      assert ks[i - 1] in m;
      forall j | 0 <= j < i - 1
        ensures ks[j] + m[ks[j]] <= GapStart(start, m, ks, i)
      {
        assert ks[j] in m && ks[j] < ks[i - 1];
      }
      forall j | i <= j < |ks|
        ensures GapStart(start, m, ks, i) <= ks[j]
      {
        assert ks[j] in m && ks[i - 1] < ks[j];
      }
    } else {
      forall j | 0 <= j < |ks|
        ensures start <= ks[j]
      {
        assert ks[j] in m;
      }
    }
  }

  /** The first fit from gap `i` is the aligned start of some fitting gap
      `j >= i`. */
  lemma {:induction false} FirstFitFromIndex(start: nat, stop: nat, m: map<nat, nat>, ks: seq<nat>, layout: Layout, i: nat)
    requires Listed(m, ks) && i <= |ks| && IsPow2(layout.align)
    requires FirstFitFrom(start, stop, m, ks, layout, i).Some?
    ensures exists j :: i <= j <= |ks| && GapFits(start, stop, m, ks, layout, j)
                        && FirstFitFrom(start, stop, m, ks, layout, i).value == AlignUp(GapStart(start, m, ks, j), layout.align)
    decreases |ks| - i
  {
    if !GapFits(start, stop, m, ks, layout, i) {
      FirstFitFromIndex(start, stop, m, ks, layout, i + 1);
    }
  }

  /** The aligned start of a gap that fits is a free slot. */
  lemma FittingGapIsFree(start: nat, stop: nat, m: map<nat, nat>, ks: seq<nat>, layout: Layout, j: nat)
    requires WellFormed(start, stop, m) && Listed(m, ks) && j <= |ks| && IsPow2(layout.align)
    requires GapFits(start, stop, m, ks, layout, j)
    ensures FreeSlot(start, stop, m, layout, AlignUp(GapStart(start, m, ks, j), layout.align))
  {
    var g := GapStart(start, m, ks, j);
    var a := AlignUp(g, layout.align);
    GapBounds(start, stop, m, ks, j);
    if j < |ks| {
      assert ks[j] in m;
    }
    forall p | p in m
      ensures a + layout.size <= p || p + m[p] <= a
    {
      assert p in ks;
      var x :| 0 <= x < |ks| && ks[x] == p;
      if x >= j {
        assert j < |ks| && ks[j] <= ks[x];
      }
    }
  }

  /** What the scan sees at gap `i`: where the gap ends, where the next one
      starts, and that it either answers the aligned start of this gap, a
      free slot, or goes on to the next gap. */
  lemma GapStep(start: nat, stop: nat, m: map<nat, nat>, ks: seq<nat>, layout: Layout, i: nat)
    requires WellFormed(start, stop, m) && Listed(m, ks) && i <= |ks| && IsPow2(layout.align)
    ensures i < |ks| ==> ks[i] in m && GapStart(start, m, ks, i) <= ks[i]
    ensures i < |ks| ==> GapStart(start, m, ks, i + 1) == ks[i] + m[ks[i]]
    ensures var a := AlignUp(GapStart(start, m, ks, i), layout.align);
      if GapFits(start, stop, m, ks, layout, i) then
        FirstFitFrom(start, stop, m, ks, layout, i) == Some(a) && FreeSlot(start, stop, m, layout, a)
      else if i < |ks| then
        FirstFitFrom(start, stop, m, ks, layout, i) == FirstFitFrom(start, stop, m, ks, layout, i + 1)
      else
        FirstFitFrom(start, stop, m, ks, layout, i) == None
  {
    GapBounds(start, stop, m, ks, i);
    if i < |ks| {
      assert ks[i] in m;
    }
    if GapFits(start, stop, m, ks, layout, i) {
      FittingGapIsFree(start, stop, m, ks, layout, i);
    }
  }

  /** Whatever first fit picks is a free slot. */
  lemma FirstFitFromIsFree(start: nat, stop: nat, m: map<nat, nat>, ks: seq<nat>, layout: Layout, i: nat)
    requires WellFormed(start, stop, m) && Listed(m, ks) && i <= |ks| && IsPow2(layout.align)
    requires FirstFitFrom(start, stop, m, ks, layout, i).Some?
    ensures FreeSlot(start, stop, m, layout, FirstFitFrom(start, stop, m, ks, layout, i).value)
  {
    FirstFitFromIndex(start, stop, m, ks, layout, i);
    var j :| i <= j <= |ks| && GapFits(start, stop, m, ks, layout, j)
              && FirstFitFrom(start, stop, m, ks, layout, i).value == AlignUp(GapStart(start, m, ks, j), layout.align);
    FittingGapIsFree(start, stop, m, ks, layout, j);
  }

  /** First fit from gap `i` finds a slot at or below any free slot that
      starts at or after gap `i`. */
  lemma {:induction false} FirstFitFromIsLowest(start: nat, stop: nat, m: map<nat, nat>, ks: seq<nat>, layout: Layout, i: nat, b: nat)
    requires WellFormed(start, stop, m) && Listed(m, ks) && i <= |ks| && IsPow2(layout.align) && layout.size > 0
    requires FreeSlot(start, stop, m, layout, b) && GapStart(start, m, ks, i) <= b
    ensures FirstFitFrom(start, stop, m, ks, layout, i).Some?
    ensures FirstFitFrom(start, stop, m, ks, layout, i).value <= b
    decreases |ks| - i
  {
    assert AlignUp(GapStart(start, m, ks, i), layout.align) <= b;
    if !GapFits(start, stop, m, ks, layout, i) {
      if i == |ks| {
        assert false;
      }
      GapBeforeFreeSlot(start, stop, m, ks, layout, i, b);
      FirstFitFromIsLowest(start, stop, m, ks, layout, i + 1, b);
    }
  }

  /** A free slot at or after a gap that does not fit lies at or after the
      next gap. */
  lemma GapBeforeFreeSlot(start: nat, stop: nat, m: map<nat, nat>, ks: seq<nat>, layout: Layout, i: nat, b: nat)
    requires Listed(m, ks) && i < |ks| && IsPow2(layout.align)
    requires FreeSlot(start, stop, m, layout, b) && GapStart(start, m, ks, i) <= b
    requires !GapFits(start, stop, m, ks, layout, i)
    ensures GapStart(start, m, ks, i + 1) <= b
  {
    assert AlignUp(GapStart(start, m, ks, i), layout.align) <= b;
    var p: nat := ks[i];
    assert p in m;
    if b + layout.size <= p {
      assert false;
    }
  }

  /** First fit returns the lowest free slot, and fails exactly when there
      is no free slot at all. */
  lemma FirstFitIsLowestFree(start: nat, stop: nat, m: map<nat, nat>, layout: Layout)
    requires WellFormed(start, stop, m) && IsPow2(layout.align) && layout.size > 0
    ensures FirstFit(start, stop, m, layout).None? <==> forall b :: !FreeSlot(start, stop, m, layout, b)
    ensures FirstFit(start, stop, m, layout).Some? ==>
      && FreeSlot(start, stop, m, layout, FirstFit(start, stop, m, layout).value)
      && forall b :: FreeSlot(start, stop, m, layout, b) ==> FirstFit(start, stop, m, layout).value <= b
  {
    var ks := SortedKeys(m.Keys);
    if FirstFit(start, stop, m, layout).Some? {
      FirstFitFromIsFree(start, stop, m, ks, layout, 0);
    }
    forall b | FreeSlot(start, stop, m, layout, b)
      ensures FirstFit(start, stop, m, layout).Some? && FirstFit(start, stop, m, layout).value <= b
    {
      FirstFitFromIsLowest(start, stop, m, ks, layout, 0, b);
    }
  }

  /** Recording a free slot keeps the map well formed and adds its size to
      the total. */
  lemma InsertFreeSlot(start: nat, stop: nat, m: map<nat, nat>, layout: Layout, b: nat)
    requires WellFormed(start, stop, m) && layout.size > 0 && FreeSlot(start, stop, m, layout, b)
    ensures b !in m
    ensures WellFormed(start, stop, m[b := layout.size])
    ensures SumLengths(m[b := layout.size]) == SumLengths(m) + layout.size
  {
    var m' := m[b := layout.size];
    if b in m {
      assert false;
    }
    forall p, q | p in m' && q in m' && p < q
      ensures p + m'[p] <= q
    {
      if p != b && q != b {
        assert p in m && q in m;
      }
    }
    SumRemove(m', b);
    assert m' - {b} == m;
  }

  /** The cheap pre-check never turns away a request that the gap scan
      would have served: when the live total plus the request exceeds the
      range, there is no free slot. */
  lemma PreCheckSound(start: nat, stop: nat, m: map<nat, nat>, layout: Layout)
    requires start <= stop && WellFormed(start, stop, m) && layout.size > 0
    requires SumLengths(m) + layout.size > stop - start
    ensures forall b :: !FreeSlot(start, stop, m, layout, b)
  {
    forall b | FreeSlot(start, stop, m, layout, b)
      ensures false
    {
      InsertFreeSlot(start, stop, m, layout, b);
      SumWithinRange(start, stop, m[b := layout.size]);
    }
  }

  /** What `alloc` answers for a request against the entries `m`: `NoMemory`
      when the live total plus the request exceeds the range, otherwise the
      first fit, or `NotAllocated` when no gap fits. */
  ghost function AllocOutcome(start: nat, stop: nat, m: map<nat, nat>, layout: Layout): AllocResult<nat>
    requires IsPow2(layout.align)
  {
    if SumLengths(m) + layout.size > stop - start then Err(NoMemory)
    else match FirstFit(start, stop, m, layout)
         case Some(a) => Ok(a)
         case None => Err(NotAllocated)
  }

  /** `alloc` succeeds exactly when a free slot exists, and then returns the
      lowest one; the pre-check and the gap scan never disagree on that. */
  lemma AllocOutcomeIsLowestFree(start: nat, stop: nat, m: map<nat, nat>, layout: Layout)
    requires start <= stop && WellFormed(start, stop, m) && IsPow2(layout.align) && layout.size > 0
    ensures AllocOutcome(start, stop, m, layout).Ok? <==> exists b :: FreeSlot(start, stop, m, layout, b)
    ensures AllocOutcome(start, stop, m, layout).Ok? ==>
      && FreeSlot(start, stop, m, layout, AllocOutcome(start, stop, m, layout).value)
      && forall b :: FreeSlot(start, stop, m, layout, b) ==> AllocOutcome(start, stop, m, layout).value <= b
  {
    FirstFitIsLowestFree(start, stop, m, layout);
    if SumLengths(m) + layout.size > stop - start {
      PreCheckSound(start, stop, m, layout);
    }
  }

  // ---------------------------------------------------------------------
  // The allocator
  // ---------------------------------------------------------------------

  class LabByteAllocator {
    var start: nat
    var stop: nat
    /** Live allocations: address to length. */
    var inner: map<nat, nat>
    /** Running total of the live lengths. */
    var used: nat

    ghost predicate Valid()
      reads this
    {
      start <= stop && WellFormed(start, stop, inner) && used == SumLengths(inner)
    }

    /** `new`: an empty range and no allocation. */
    constructor ()
      ensures Valid()
      ensures start == 0 && stop == 0 && inner == map[] && used == 0
    {
      start, stop, inner, used := 0, 0, map[], 0;
    }

    /** Sets the range to `[start, start + size)`; the map and the total are
        left as they are, so any live entries must lie in the new range (as
        they do when this is called once, before any allocation). */
    method Init(start: nat, size: nat)
      requires Valid() && WellFormed(start, start + size, inner)
      modifies this`start, this`stop
      ensures Valid()
      ensures this.start == start && stop == start + size
    {
      this.start := start;
      stop := start + size;
    }

    /** First-fit allocation, as `AllocOutcome` describes it: the map gains
        the new entry and the total its size on success, and nothing changes
        on failure. */
    method Alloc(layout: Layout) returns (r: AllocResult<nat>)
      requires Valid() && IsPow2(layout.align) && layout.size > 0
      modifies this`inner, this`used
      ensures Valid()
      ensures r == AllocOutcome(start, stop, old(inner), layout)
      ensures r.Ok? ==> inner == old(inner)[r.value := layout.size] && used == old(used) + layout.size
      ensures r.Err? ==> inner == old(inner) && used == old(used)
    {
      if used + layout.size > stop - start {
        return Err(NoMemory);
      }
      var found := FindGap(layout);
      if found.None? {
        return Err(NotAllocated);
      }
      Record(found.value, layout);
      return Ok(found.value);
    }

    /** The gap scan of `alloc`: walks the entries in ascending order, tries
        the aligned start of each gap before an entry, then the trailing gap
        when it is not empty, and answers the first that fits (a free slot). */
    method FindGap(layout: Layout) returns (found: Option<nat>)
      requires Valid() && IsPow2(layout.align)
      ensures found == FirstFit(start, stop, inner, layout)
      ensures found.Some? ==> FreeSlot(start, stop, inner, layout, found.value)
    {
      var size, align := layout.size, layout.align;
      var prev := start;
      var ks := SortedKeys(inner.Keys);
      for i := 0 to |ks|
        invariant prev == GapStart(start, inner, ks, i)
        invariant FirstFitFrom(start, stop, inner, ks, layout, i) == FirstFit(start, stop, inner, layout)
      {
        GapStep(start, stop, inner, ks, layout, i);
        var ptr := ks[i];
        var len := inner[ptr];
        var gapStart, gapEnd := prev, ptr;
        // cannot underflow: the previous entry ends before this one starts
        var gapSize: nat := gapEnd - gapStart;
        var alignedStart := AlignUp(gapStart, align);
        var end := alignedStart + size;
        if end <= gapEnd {
          return Some(alignedStart);
        }
        prev := ptr + len;
      }
      GapStep(start, stop, inner, ks, layout, |ks|);
      var gapStart, gapEnd := prev, stop;
      if gapEnd > gapStart {
        var alignedStart := AlignUp(gapStart, align);
        var end := alignedStart + size;
        if end <= gapEnd {
          return Some(alignedStart);
        }
      }
      return None;
    }

    /** Records a live allocation at the free slot `a` and adds its size to
        the running total. */
    method Record(a: nat, layout: Layout)
      requires Valid() && layout.size > 0 && FreeSlot(start, stop, inner, layout, a)
      modifies this`inner, this`used
      ensures Valid()
      ensures inner == old(inner)[a := layout.size] && used == old(used) + layout.size
    {
      InsertFreeSlot(start, stop, inner, layout, a);
      inner := inner[a := layout.size];
      used := used + layout.size;
    }

    /** Drops the entry at `pos`, if there is one, and subtracts its recorded
        length from the total; the layout is not looked at. */
    method Dealloc(pos: nat, layout: Layout)
      requires Valid()
      modifies this`inner, this`used
      ensures Valid()
      ensures inner == old(inner) - {pos}
      ensures used == if pos in old(inner) then old(used) - old(inner)[pos] else old(used)
    {
      if pos in inner {
        var len := inner[pos];
        SumRemove(inner, pos);
        inner := inner - {pos};
        used := used - len;
      }
    }

    /** Size of the managed range: every live entry lies within the first
        `r` bytes from `start`, so their lengths add up to at most `r`. */
    function TotalBytes(): (r: nat)
      reads this
      requires Valid()
      ensures forall p :: p in inner ==> start <= p && p + inner[p] <= start + r
      ensures SumLengths(inner) <= r
    {
      SumWithinRange(start, stop, inner);
      stop - start
    }

    /** The live total, which never exceeds the range. */
    function UsedBytes(): (r: nat)
      reads this
      requires Valid()
      ensures r == SumLengths(inner) && r <= TotalBytes()
    {
      SumWithinRange(start, stop, inner);
      used
    }

    /** The bytes of the range not held by a live allocation; the
        subtraction cannot underflow. */
    function AvailableBytes(): (r: nat)
      reads this
      requires Valid()
      ensures r + SumLengths(inner) == stop - start
    {
      SumWithinRange(start, stop, inner);
      TotalBytes() - used
    }
  }
}
