/** The early-boot allocator `EarlyAllocator<PAGE_SIZE>`: one contiguous range
    `[start, end)` split into a byte arena that grows forward from `start`
    (cursor `bPos`) and a page arena that grows backward from `end` (cursor
    `pPos`).

        [ bytes-used | avail-area | pages-used ]
        |            | -->    <-- |            |
      start        bPos         pPos          end
*/
module BumpAllocator {
  import opened Align

  /** The errors this allocator reports. */
  datatype AllocError = InvalidParam | NoMemory

  datatype AllocResult<T> = Ok(value: T) | Err(error: AllocError)

  /** A `core::alloc::Layout`: a size and a power-of-two alignment whose
      rounded-up size does not exceed `isize::MAX`. */
  datatype Layout = Layout(size: Usize, align: Usize) {
    predicate Valid() {
      IsPowerOfTwo(align) && size + align - 1 <= ISIZE_MAX
    }
  }

  /** `layout.pad_to_align().size()`: the size rounded up to a multiple of the
      alignment. */
  function PaddedSize(layout: Layout): (r: Usize)
    requires layout.Valid()
    ensures r % layout.align == 0 && layout.size <= r < layout.size + layout.align
    ensures layout.size % layout.align == 0 ==> r == layout.size
  {
    AlignUp(layout.size, layout.align)
  }

  /** `alloc_pages` accepts an alignment (in bytes) that is a multiple of the
      page size and whose quotient by it is a power of two. */
  predicate PageAlignOk(alignPow2: int, pageSize: int)
    requires pageSize >= 1
    ensures PageAlignOk(alignPow2, pageSize) ==> alignPow2 >= pageSize
  {
    alignPow2 % pageSize == 0 && IsPowerOfTwo(alignPow2 / pageSize)
  }

  /** The page count `alloc_pages` reserves for `numPages` pages at an
      alignment of `alignPages` pages: `numPages + (alignPages - numPages % alignPages)`.
      It always adds between 1 and `alignPages` pages, a whole extra unit when
      `numPages` is already a multiple. */
  function RoundPages(numPages: nat, alignPages: nat): (r: nat)
    requires alignPages >= 1
    ensures r % alignPages == 0
    ensures numPages < r <= numPages + alignPages
  {
    RoundDownFacts(numPages, alignPages, numPages - numPages % alignPages);
    ModUnique(numPages + (alignPages - numPages % alignPages), alignPages, numPages / alignPages + 1, 0);
    numPages + (alignPages - numPages % alignPages)
  }

  /** Rounding up to a multiple of `alignPages` that leaves an exact multiple
      as it is: the count `alloc_pages` was evidently meant to reserve. */
  function RoundPagesUp(numPages: nat, alignPages: nat): (r: nat)
    requires alignPages >= 1
    ensures r % alignPages == 0
    ensures numPages <= r < numPages + alignPages
    ensures numPages % alignPages == 0 ==> r == numPages
  {
    if numPages % alignPages == 0 then numPages else RoundPages(numPages, alignPages)
  }

  /** How many whole pages of `[floor, top)` a carve of `count` pages uses up:
      it fits exactly when `count` is at most the whole pages in the gap, and
      it leaves a page-aligned top page-aligned. */
  lemma FitsInGap(top: int, floor: int, count: nat, pageSize: int)
    requires pageSize >= 1 && top % pageSize == 0 && floor <= top
    ensures top - count * pageSize >= floor <==> count <= (top - floor) / pageSize
    ensures (top - count * pageSize) % pageSize == 0
  {
    var whole := (top - floor) / pageSize;
    FloorDiv(top - floor, pageSize);
    if count <= whole {
      MulLe(count, whole, pageSize);
    } else {
      MulLe(whole + 1, count, pageSize);
    }
    SubMultiple(top, count, pageSize);
  }

  /** The check-then-commit step of `alloc_pages`: take `count` pages off the
      top of the page arena when the new top stays at or above `floor`. The
      subtraction itself must not underflow. */
  function CarvePages(top: Usize, floor: Usize, count: nat, pageSize: Usize): (r: AllocResult<Usize>)
    requires pageSize >= 1 && top % pageSize == 0 && floor <= top
    requires count * pageSize <= top
    ensures r.Err? ==> r.error == NoMemory
    ensures r.Ok? <==> count <= (top - floor) / pageSize
    ensures r.Ok? ==> floor <= r.value <= top && r.value % pageSize == 0
    ensures r.Ok? ==> top - r.value == count * pageSize
  {
    FitsInGap(top, floor, count, pageSize);
    var newTop := top - count * pageSize;
    if newTop < floor then Err(NoMemory) else Ok(newTop)
  }

  /** The outcome of `alloc_pages(numPages, alignPow2)` on a page arena whose
      top is `top` and whose floor (the byte cursor) is `floor`, when the
      rounded count of pages does not underflow `top`. */
  function AllocPagesResult(top: Usize, floor: Usize, numPages: nat, alignPow2: int, pageSize: Usize)
    : (r: AllocResult<Usize>)
    requires pageSize >= 1 && top % pageSize == 0 && floor <= top
    requires PageAlignOk(alignPow2, pageSize) ==>
      RoundPages(numPages, alignPow2 / pageSize) * pageSize <= top
    ensures r == Err(InvalidParam) <==> !PageAlignOk(alignPow2, pageSize)
    ensures PageAlignOk(alignPow2, pageSize) ==>
      (r.Ok? <==> RoundPages(numPages, alignPow2 / pageSize) <= (top - floor) / pageSize)
    ensures PageAlignOk(alignPow2, pageSize) && numPages >= (top - floor) / pageSize ==> r == Err(NoMemory)
    ensures r.Ok? ==> floor <= r.value < top && r.value % pageSize == 0
    ensures r.Ok? ==> top - r.value == RoundPages(numPages, alignPow2 / pageSize) * pageSize
  {
    if !PageAlignOk(alignPow2, pageSize) then Err(InvalidParam)
    else
      var count := RoundPages(numPages, alignPow2 / pageSize);
      MulLe(1, count, pageSize);
      CarvePages(top, floor, count, pageSize)
  }

  /** `alloc_pages` as it was evidently meant to round: an exact multiple of
      the alignment is reserved as it is. */
  function AllocPagesIntendedResult(top: Usize, floor: Usize, numPages: nat, alignPow2: int, pageSize: Usize)
    : (r: AllocResult<Usize>)
    requires pageSize >= 1 && top % pageSize == 0 && floor <= top
    requires PageAlignOk(alignPow2, pageSize) ==>
      RoundPagesUp(numPages, alignPow2 / pageSize) * pageSize <= top
    ensures r == Err(InvalidParam) <==> !PageAlignOk(alignPow2, pageSize)
    ensures PageAlignOk(alignPow2, pageSize) ==>
      (r.Ok? <==> RoundPagesUp(numPages, alignPow2 / pageSize) <= (top - floor) / pageSize)
    ensures PageAlignOk(alignPow2, pageSize) && numPages % (alignPow2 / pageSize) == 0
      && numPages <= (top - floor) / pageSize
      ==> r.Ok? && top - r.value == numPages * pageSize
    ensures PageAlignOk(alignPow2, pageSize) && numPages > (top - floor) / pageSize ==> r == Err(NoMemory)
    ensures r.Ok? ==> floor <= r.value <= top && r.value % pageSize == 0
  {
    if !PageAlignOk(alignPow2, pageSize) then Err(InvalidParam)
    else CarvePages(top, floor, RoundPagesUp(numPages, alignPow2 / pageSize), pageSize)
  }

  /** When `numPages` is already a multiple of the alignment, `RoundPages`
      still adds a whole alignment unit. */
  lemma RoundPagesOvershoots(numPages: nat, alignPages: nat)
    requires alignPages >= 1 && numPages % alignPages == 0
    ensures RoundPages(numPages, alignPages) == numPages + alignPages
    ensures RoundPages(numPages, alignPages) > RoundPagesUp(numPages, alignPages)
  {
  }

  /** A request of aligned size that exactly fills the gap between the
      cursors is refused by `alloc_pages` as written and granted, at the
      floor, by the intended rounding. With one page at page alignment this
      is the single free page that cannot be allocated. The floor lies at
      least one alignment unit above 0, so the as-written count does not
      underflow `top`. */
  lemma ExactFitRefused(top: Usize, floor: Usize, numPages: nat, alignPow2: int, pageSize: Usize)
    requires pageSize >= 1 && top % pageSize == 0 && floor <= top
    requires PageAlignOk(alignPow2, pageSize) && numPages % (alignPow2 / pageSize) == 0
    requires numPages * pageSize == top - floor
    requires (numPages + alignPow2 / pageSize) * pageSize <= top
    ensures AllocPagesResult(top, floor, numPages, alignPow2, pageSize) == Err(NoMemory)
    ensures AllocPagesIntendedResult(top, floor, numPages, alignPow2, pageSize) == Ok(floor)
  {
    RoundPagesOvershoots(numPages, alignPow2 / pageSize);
    ModUnique(top - floor, pageSize, numPages, 0);
  }

  /** An alignment `alloc_pages` accepts is itself a power of two, and a
      multiple of the page size. */
  lemma PageAlignIsPowerOfTwo(alignPow2: int, pageSize: int)
    requires IsPowerOfTwo(pageSize) && PageAlignOk(alignPow2, pageSize)
    ensures IsPowerOfTwo(alignPow2) && alignPow2 % pageSize == 0
  {
    ExactDiv(alignPow2, pageSize);
    PowerOfTwoProduct(alignPow2 / pageSize, pageSize);
  }

  /** `alloc_pages` as written returns an address aligned to `alignPow2` when
      the top of the page arena is aligned to it: the rounded count is a whole
      number of alignment units. */
  lemma AllocPagesAlignedBelowAlignedTop(top: Usize, floor: Usize, numPages: nat, alignPow2: int, pageSize: Usize)
    requires pageSize >= 1 && top % pageSize == 0 && floor <= top
    requires PageAlignOk(alignPow2, pageSize) && top % alignPow2 == 0
    requires RoundPages(numPages, alignPow2 / pageSize) * pageSize <= top
    ensures var r := AllocPagesResult(top, floor, numPages, alignPow2, pageSize);
      r.Ok? ==> r.value % alignPow2 == 0
  {
    var alignPages := alignPow2 / pageSize;
    var count := RoundPages(numPages, alignPages);
    var k := count / alignPages;
    ExactDiv(count, alignPages);
    ExactDiv(alignPow2, pageSize);
    assert count * pageSize == k * alignPow2 by {
      assert count * pageSize == (k * alignPages) * pageSize;
    }
    SubMultiple(top, k, alignPow2);
  }

  /** Otherwise the alignment is not kept: with 4096-byte pages on `[0, 12288)`,
      one page at an alignment of 8192 bytes is granted at 4096. */
  lemma AllocPagesMisaligned()
    ensures AllocPagesResult(12288, 0, 1, 8192, 4096) == Ok(4096)
    ensures AllocPagesResult(12288, 0, 1, 8192, 4096).value % 8192 != 0
  {
    assert IsPowerOfTwo(2);
    assert RoundPages(1, 2) == 2;
  }

  /** The highest multiple of `align` at or below `x`, refused when it lies
      below `floor`. */
  function PlaceBelow(x: Usize, floor: Usize, align: Usize): (r: AllocResult<Usize>)
    requires align >= 1
    ensures r.Err? ==> r == Err(NoMemory)
    ensures r.Ok? ==> r.value % align == 0 && floor <= r.value <= x && x - r.value < align
  {
    RoundDownFacts(x, align, x - x % align);
    var next := x - x % align;
    if next < floor then Err(NoMemory) else Ok(next)
  }

  /** No aligned address between `floor` and `x` is missed, and none lies
      above the one `PlaceBelow` returns. */
  lemma PlaceBelowHighest(x: Usize, floor: Usize, align: Usize, a: int)
    requires align >= 1 && a % align == 0 && floor <= a <= x
    ensures PlaceBelow(x, floor, align).Ok? && a <= PlaceBelow(x, floor, align).value
  {
    MultipleBelow(a, x, align);
  }

  /** `alloc_pages` as it was evidently meant to place its block: at the
      highest address aligned to `alignPow2` from which `numPages` pages end at
      or below `top`, refused when that address lies below `floor`. */
  function AllocPagesAlignedResult(top: Usize, floor: Usize, numPages: nat, alignPow2: Usize, pageSize: Usize)
    : (r: AllocResult<Usize>)
    requires IsPowerOfTwo(pageSize) && floor <= top
    ensures r == Err(InvalidParam) <==> !PageAlignOk(alignPow2, pageSize)
    ensures r.Err? ==> r == Err(InvalidParam) || r == Err(NoMemory)
    ensures PageAlignOk(alignPow2, pageSize) && numPages * pageSize > top - floor ==> r == Err(NoMemory)
    ensures r.Ok? ==> r.value % alignPow2 == 0 && r.value % pageSize == 0
    ensures r.Ok? ==> floor <= r.value && r.value + numPages * pageSize <= top
    ensures r.Ok? ==> top - r.value < numPages * pageSize + alignPow2
  {
    if !PageAlignOk(alignPow2, pageSize) then Err(InvalidParam)
    else if numPages * pageSize > top - floor then Err(NoMemory)
    else
      PageAlignIsPowerOfTwo(alignPow2, pageSize);
      MulLe(0, numPages, pageSize);
      var r := PlaceBelow(top - numPages * pageSize, floor, alignPow2);
      if r.Ok? then DividesTrans(r.value, alignPow2, pageSize); r else r
  }

  /** The corrected placement is the highest one: every aligned address from
      which the pages fit between `floor` and `top` lies at or below it, so the
      corrected `alloc_pages` fails only when no aligned place exists. */
  lemma AllocPagesAlignedHighest(top: Usize, floor: Usize, numPages: nat, alignPow2: Usize, pageSize: Usize, a: int)
    requires IsPowerOfTwo(pageSize) && floor <= top && PageAlignOk(alignPow2, pageSize)
    requires a % alignPow2 == 0 && floor <= a && a + numPages * pageSize <= top
    ensures AllocPagesAlignedResult(top, floor, numPages, alignPow2, pageSize).Ok?
    ensures a <= AllocPagesAlignedResult(top, floor, numPages, alignPow2, pageSize).value
  {
    MulLe(0, numPages, pageSize);
    AllocPagesAlignedPlaces(top, floor, numPages, alignPow2, pageSize);
    PlaceBelowHighest(top - numPages * pageSize, floor, alignPow2, a);
  }

  /** Once the alignment is accepted and the pages fit in the gap, the
      corrected `alloc_pages` returns what `PlaceBelow` returns. */
  lemma AllocPagesAlignedPlaces(top: Usize, floor: Usize, numPages: nat, alignPow2: Usize, pageSize: Usize)
    requires IsPowerOfTwo(pageSize) && floor <= top && PageAlignOk(alignPow2, pageSize)
    requires 0 <= numPages * pageSize <= top - floor
    ensures AllocPagesAlignedResult(top, floor, numPages, alignPow2, pageSize)
      == PlaceBelow(top - numPages * pageSize, floor, alignPow2)
  {
  }

  class EarlyAllocator {
    /** The `PAGE_SIZE` const generic of the allocator. */
    const pageSize: Usize
    var start: Usize
    var end: Usize
    var bPos: Usize
    var pPos: Usize

    /** The cursors never cross and stay inside the range. */
    ghost predicate Ordered()
      reads this
    {
      start <= bPos <= pPos <= end
    }

    /** The page geometry: a power-of-two page size, the range and the page
        cursor on page boundaries. It does not depend on `bPos`. */
    ghost predicate PageAligned()
      reads this`start, this`end, this`pPos
    {
      IsPowerOfTwo(pageSize)
      && start % pageSize == 0 && end % pageSize == 0 && pPos % pageSize == 0
    }

    /** The invariant of every state reached by `Init` and the allocation calls. */
    ghost predicate Valid()
      reads this
    {
      PageAligned() && Ordered()
    }

    /** `EarlyAllocator::new()`: an empty, unusable range. */
    constructor (pageSize: Usize)
      ensures this.pageSize == pageSize
      ensures start == 0 && end == 0 && bPos == 0 && pPos == 0
      ensures Ordered()
      ensures IsPowerOfTwo(pageSize) ==> Valid()
    {
      this.pageSize := pageSize;
      start, end, bPos, pPos := 0, 0, 0, 0;
    }

    /** `init(start, size)`: manage `[start, start + size)` widened outward to
        page boundaries, with both arenas empty. The old state plays no part. */
    method Init(start: Usize, size: Usize)
      requires IsPowerOfTwo(pageSize)
      requires start + size + pageSize - 1 < WORD
      modifies this
      ensures this.start == AlignDown(start, pageSize) && end == AlignUp(start + size, pageSize)
      ensures bPos == this.start && pPos == end
      ensures this.start <= start && start - this.start < pageSize
      ensures start + size <= end < start + size + pageSize
      ensures Valid()
    {
      this.start := AlignDown(start, pageSize);
      end := AlignUp(start + size, pageSize);
      bPos := this.start;
      pPos := end;
    }

    /** `add_memory`: a second region is never accepted. */
    function AddMemory(start: Usize, size: Usize): (r: AllocResult<()>)
      ensures r == Err(NoMemory)
    {
      Err(NoMemory)
    }

    /** `alloc(layout)`: the byte allocation as the code performs it. It
        checks that the padded block fits below the page arena and hands out
        the current `bPos`, but never advances `bPos`. */
    function Alloc(layout: Layout): (r: AllocResult<Usize>)
      reads this
      requires layout.Valid()
      requires bPos + PaddedSize(layout) < WORD
      ensures r.Err? <==> bPos + PaddedSize(layout) > pPos
      ensures r.Err? ==> r.error == NoMemory
      ensures r.Ok? ==> r.value == bPos && r.value + PaddedSize(layout) <= pPos
    {
      var newBPos := bPos + PaddedSize(layout);
      if newBPos > pPos then Err(NoMemory) else Ok(bPos)
    }

    /** A layout larger than the gap between the cursors is refused. */
    lemma AllocFailsWhenExhausted(layout: Layout)
      requires Ordered() && layout.Valid() && bPos + PaddedSize(layout) < WORD
      requires layout.size > AvailableBytes()
      ensures Alloc(layout) == Err(NoMemory)
    {
    }

    /** Since `bPos` never moves, two successful allocations from the same
        state return the same address, and the second block starts inside the
        first whenever the first is not empty. */
    lemma AllocRepeatsAddress(first: Layout, second: Layout)
      requires first.Valid() && bPos + PaddedSize(first) < WORD
      requires second.Valid() && bPos + PaddedSize(second) < WORD
      requires Alloc(first).Ok? && Alloc(second).Ok?
      ensures Alloc(first).value == Alloc(second).value
      ensures first.size > 0 ==>
        Alloc(second).value < Alloc(first).value + PaddedSize(first)
    {
    }

    /** `alloc` returns `bPos` whatever alignment is asked for. While `bPos`
        is still `start`, which `init` puts on a page boundary, that address is
        aligned as requested for every alignment up to the page size. */
    lemma AllocAlignedAtStart(layout: Layout)
      requires Valid() && bPos == start
      requires layout.Valid() && layout.align <= pageSize && bPos + PaddedSize(layout) < WORD
      requires Alloc(layout).Ok?
      ensures Alloc(layout).value % layout.align == 0
    {
      PowerOfTwoDivides(layout.align, pageSize);
      DividesTrans(start, pageSize, layout.align);
    }

    /** A larger alignment is not kept: in the state `init(4096, 8192)` leaves
        with 4096-byte pages, an 8192-byte block aligned to 8192 is placed at 4096. */
    lemma AllocIgnoresAlignment(layout: Layout)
      requires pageSize == 4096 && start == 4096 && end == 12288
      requires bPos == 4096 && pPos == 12288
      requires layout.size == 8192 && layout.align == 8192
      ensures layout.Valid() && bPos + PaddedSize(layout) < WORD
      ensures Alloc(layout) == Ok(4096) && Alloc(layout).value % 8192 != 0
    {
      assert IsPowerOfTwo(8192);
      assert layout.size % layout.align == 0;
      assert PaddedSize(layout) == 8192;
    }

    /** `dealloc`: byte memory is never reclaimed. */
    method Dealloc(pos: Usize, layout: Layout)
      ensures unchanged(this)
    {
    }

    /** `total_bytes`: the bytes below the page arena. */
    function TotalBytes(): (r: Usize)
      reads this
      requires start <= pPos
      ensures Valid() ==> r == (end - start) - UsedPages() * pageSize
    {
      pPos - start
    }

    /** `used_bytes`: the bytes the byte arena has handed out. */
    function UsedBytes(): (r: Usize)
      reads this
      requires start <= bPos
      ensures Ordered() ==> r <= TotalBytes()
    {
      bPos - start
    }

    /** `available_bytes`: the gap between the two cursors. */
    function AvailableBytes(): (r: Usize)
      reads this
      requires start <= bPos && start <= pPos && UsedBytes() <= TotalBytes()
      ensures r == pPos - bPos
      ensures UsedBytes() + r == TotalBytes()
    {
      TotalBytes() - UsedBytes()
    }

    /** `total_pages`: whole pages between `bPos` and `end`. */
    function TotalPages(): (r: Usize)
      reads this
      requires pageSize >= 1 && bPos <= end
      ensures r * pageSize <= end - bPos < (r + 1) * pageSize
    {
      var span := end - bPos;
      FloorDiv(span, pageSize);
      span / pageSize
    }

    /** `used_pages`: pages handed out by the page arena. */
    function UsedPages(): (r: Usize)
      reads this
      requires pageSize >= 1 && pPos <= end
      ensures Valid() ==> r * pageSize == end - pPos
    {
      var span := end - pPos;
      FloorDiv(span, pageSize);
      assert Valid() ==> span / pageSize * pageSize == span by {
        if Valid() {
          ExactDiv(pPos, pageSize);
          SubMultiple(end, pPos / pageSize, pageSize);
          ExactDiv(span, pageSize);
        }
      }
      span / pageSize
    }

    /** `available_pages`: the whole pages in the gap between the cursors. */
    function AvailablePages(): (r: Usize)
      reads this
      requires pageSize >= 1 && bPos <= end && pPos <= end
      requires UsedPages() <= TotalPages()
      ensures UsedPages() + r == TotalPages()
      ensures Valid() ==> r == (pPos - bPos) / pageSize
    {
      assert Valid() ==> TotalPages() - UsedPages() == (pPos - bPos) / pageSize by {
        if Valid() {
          AvailablePagesInGap();
        }
      }
      TotalPages() - UsedPages()
    }

    /** With `end` and `pPos` on page boundaries, the pages from `bPos` to
        `end` are the used pages plus the whole pages in the gap. */
    lemma AvailablePagesInGap()
      requires Valid()
      ensures (end - bPos) / pageSize - (end - pPos) / pageSize == (pPos - bPos) / pageSize
    {
      var used := (end - pPos) / pageSize;
      SubMultiple(end, pPos / pageSize, pageSize);
      ExactDiv(pPos, pageSize);
      ExactDiv(end - pPos, pageSize);
      assert end - bPos == used * pageSize + (pPos - bPos);
      DivAddMultiple(used, pPos - bPos, pageSize);
    }

    /** `alloc_pages(numPages, alignPow2)` as the code performs it: validate
        the alignment, round the count with `RoundPages`, and carve that many
        pages off the top of the gap if they fit above `bPos`. The
        precondition rules out the wrap-around of `pPos - count * PAGE_SIZE`. */
    method AllocPages(numPages: Usize, alignPow2: Usize) returns (r: AllocResult<Usize>)
      requires Valid()
      requires PageAlignOk(alignPow2, pageSize) ==>
        RoundPages(numPages, alignPow2 / pageSize) * pageSize <= pPos
      modifies this`pPos
      ensures Valid()
      ensures r == AllocPagesResult(old(pPos), bPos, numPages, alignPow2, pageSize)
      ensures pPos == if r.Ok? then r.value else old(pPos)
      ensures r.Ok? ==> UsedPages() == old(UsedPages()) + RoundPages(numPages, alignPow2 / pageSize)
    {
      if alignPow2 % pageSize != 0 {
        return Err(InvalidParam);
      }
      var alignPages := alignPow2 / pageSize;
      if !IsPowerOfTwo(alignPages) {
        return Err(InvalidParam);
      }
      var remain := alignPages - numPages % alignPages;
      var count := numPages + remain;
      assert count == RoundPages(numPages, alignPages);
      FitsInGap(pPos, bPos, count, pageSize);
      MulLe(0, count, pageSize);
      var newPPos := pPos - count * pageSize;
      if newPPos < bPos {
        r := Err(NoMemory);
      } else {
        DivAddMultiple(count, end - pPos, pageSize);
        pPos := newPPos;
        r := Ok(pPos);
      }
    }

    /** `alloc` with the missing commit of `bPos` restored: a successful
        allocation hands out `[bPos, bPos + padded)` and moves `bPos` past it,
        so every later block starts at or above the end of this one. */
    method AllocIntended(layout: Layout) returns (r: AllocResult<Usize>)
      requires Valid() && layout.Valid()
      requires bPos + PaddedSize(layout) < WORD
      modifies this`bPos
      ensures Ordered() && Valid()
      ensures r == old(Alloc(layout))
      ensures r.Ok? ==> r.value == old(bPos) && bPos == r.value + PaddedSize(layout)
      ensures r.Err? ==> bPos == old(bPos)
    {
      var newBPos := bPos + PaddedSize(layout);
      if newBPos > pPos {
        r := Err(NoMemory);
      } else {
        r := Ok(bPos);
        bPos := newBPos;
      }
    }

    /** With the corrected `alloc`, two successive successful allocations
        hand out blocks that do not overlap, the second after the first. */
    method AllocTwiceIntended(first: Layout, second: Layout) returns (a: AllocResult<Usize>, b: AllocResult<Usize>)
      requires Valid() && first.Valid() && second.Valid()
      requires bPos + PaddedSize(first) + PaddedSize(second) < WORD
      modifies this`bPos
      ensures Valid()
      ensures a.Ok? && b.Ok? ==> a.value + PaddedSize(first) <= b.value
      ensures a.Ok? ==> a.value == old(bPos)
    {
      a := AllocIntended(first);
      b := AllocIntended(second);
    }

    /** `alloc` with both corrections: the block starts at `bPos` rounded up
        to the requested alignment, and `bPos` moves past it on success. */
    method AllocAligned(layout: Layout) returns (r: AllocResult<Usize>)
      requires Valid() && layout.Valid()
      requires bPos + layout.align - 1 + PaddedSize(layout) < WORD
      modifies this`bPos
      ensures Valid()
      ensures r.Err? <==> AlignUp(old(bPos), layout.align) + PaddedSize(layout) > pPos
      ensures r.Err? ==> r.error == NoMemory && bPos == old(bPos)
      ensures r.Ok? ==> r.value % layout.align == 0 && old(bPos) <= r.value < old(bPos) + layout.align
      ensures r.Ok? ==> bPos == r.value + PaddedSize(layout)
    {
      var blockStart := AlignUp(bPos, layout.align);
      var newBPos := blockStart + PaddedSize(layout);
      if newBPos > pPos {
        r := Err(NoMemory);
      } else {
        r := Ok(blockStart);
        bPos := newBPos;
      }
    }

    /** `alloc_pages` placed as `AllocPagesAlignedResult` places it. */
    method AllocPagesAligned(numPages: Usize, alignPow2: Usize) returns (r: AllocResult<Usize>)
      requires Valid()
      modifies this`pPos
      ensures Valid()
      ensures r == AllocPagesAlignedResult(old(pPos), bPos, numPages, alignPow2, pageSize)
      ensures pPos == if r.Ok? then r.value else old(pPos)
    {
      if alignPow2 % pageSize != 0 {
        return Err(InvalidParam);
      }
      if !IsPowerOfTwo(alignPow2 / pageSize) {
        return Err(InvalidParam);
      }
      if numPages * pageSize > pPos - bPos {
        return Err(NoMemory);
      }
      PageAlignIsPowerOfTwo(alignPow2, pageSize);
      MulLe(0, numPages, pageSize);
      AllocPagesAlignedPlaces(pPos, bPos, numPages, alignPow2, pageSize);
      var next := AlignDown(pPos - numPages * pageSize, alignPow2);
      if next < bPos {
        r := Err(NoMemory);
      } else {
        DividesTrans(next, alignPow2, pageSize);
        pPos := next;
        r := Ok(next);
      }
    }

    /** `alloc_pages` with the rounding of `RoundPagesUp`. */
    method AllocPagesIntended(numPages: Usize, alignPow2: Usize) returns (r: AllocResult<Usize>)
      requires Valid()
      requires PageAlignOk(alignPow2, pageSize) ==>
        RoundPagesUp(numPages, alignPow2 / pageSize) * pageSize <= pPos
      modifies this`pPos
      ensures Valid()
      ensures r == AllocPagesIntendedResult(old(pPos), bPos, numPages, alignPow2, pageSize)
      ensures pPos == if r.Ok? then r.value else old(pPos)
      ensures r.Ok? ==> UsedPages() == old(UsedPages()) + RoundPagesUp(numPages, alignPow2 / pageSize)
    {
      if alignPow2 % pageSize != 0 {
        return Err(InvalidParam);
      }
      var alignPages := alignPow2 / pageSize;
      if !IsPowerOfTwo(alignPages) {
        return Err(InvalidParam);
      }
      var count := if numPages % alignPages == 0 then numPages
                   else numPages + (alignPages - numPages % alignPages);
      assert count == RoundPagesUp(numPages, alignPages);
      FitsInGap(pPos, bPos, count, pageSize);
      MulLe(0, count, pageSize);
      var newPPos := pPos - count * pageSize;
      if newPPos < bPos {
        r := Err(NoMemory);
      } else {
        DivAddMultiple(count, end - pPos, pageSize);
        pPos := newPPos;
        r := Ok(pPos);
      }
    }
  }
}
