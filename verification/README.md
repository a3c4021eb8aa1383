# EarlyAllocator model

A Dafny model of ArceOS's early-boot allocator `EarlyAllocator<PAGE_SIZE>`.
The allocator manages one contiguous range `[start, end)` and serves two kinds
of request from it:

- byte allocations grow forward from `start` behind the cursor `b_pos`;
- page allocations grow backward from `end` behind the cursor `p_pos`.

```
[ bytes-used | avail-area | pages-used ]
|            | -->    <-- |            |
start       b_pos        p_pos       end
```

The project has two modules.

- `Align` (`align.dfy`) models the 64-bit `usize` word and the helpers
  `align_down` and `align_up`. Both are modelled bit for bit. `BitAnd`
  computes `&` over the low 64 bits, and `Not` computes `!` on a word.
  The mask `!(align - 1)` is then proved to round a word to a multiple of any
  power-of-two `align`.
- `BumpAllocator` (`bump_allocator.dfy`) holds the `EarlyAllocator` class and
  its state: the four `usize` fields and the `PAGE_SIZE` const generic as a
  `const` field. It also holds the error type, the `Layout` padding, and the
  page-count rounding of `alloc_pages`.

Operations that assign fields are methods with `modifies` clauses. `init`
assigns all four fields and `alloc_pages` commits `p_pos`. The operations
that only read the fields are functions with `reads this`: `alloc` and the
six accounting getters. `add_memory` is a function that reads nothing. `alloc_pages` is proved against
the function `AllocPagesResult`. That function is built from
`CarvePages`, the check-then-commit step that takes pages off the top of the
gap.

The class invariant `Valid()` has two parts:

- `Ordered()`: `start <= b_pos <= p_pos <= end`;
- `PageAligned()`: `PAGE_SIZE` is a power of two, and `start`, `end` and
  `p_pos` are multiples of it.

`Init` establishes the invariant and `AllocPages` preserves it. `Alloc`,
`AddMemory` and the getters change no field.

The model follows what the code does, also where the comments in the
source describe more:

- `alloc` never advances `b_pos`, although the doc comment at lines 7-19
  describes byte allocations as growing forward from `start`. It computes the
  new cursor and drops it.
- `add_memory` reports `NoMemory`, although line 61 comments it as
  "unsupported".
- The page-count rounding adds a whole alignment unit to a count that is
  already aligned.
- The doc comments at lines 66 and 102 promise memory with the requested
  alignment. `alloc` returns `b_pos` whatever the alignment, and
  `alloc_pages` returns an address aligned to `align_pow2` only when `p_pos`
  already is.
- There is no reference count, although the doc comment at lines 17-18
  describes one.

The first, third and fourth points are also listed under Findings, with corrected
variants beside the as-written ones. Line 87 documents `used_bytes` as the
allocated memory size in bytes. In the code, after a successful 64-byte
`alloc`, `used_bytes()` is still 0, because `Alloc` changes no field.

## Model

| member | source | states |
|---|---|---|
| `Align.AlignDown` | arceos/modules/bump_allocator/src/lib.rs:39-42 | for a power-of-two `align`, `pos & !(align - 1)` is `pos - pos % align`: a multiple of `align`, at most `pos`, and less than `align` below it |
| `Align.AlignUp` | arceos/modules/bump_allocator/src/lib.rs:44-47 | for a power-of-two `align`, `(pos + align - 1) & !(align - 1)` is a multiple of `align` in `[pos, pos + align)`; it is `pos` itself when `pos` is already aligned; the sum must not overflow |
| `Align.And` | arceos/modules/bump_allocator/src/lib.rs:41 | the word `x & y` never exceeds either operand, so it is again a word |
| `Align.MaskRoundsDown` | arceos/modules/bump_allocator/src/lib.rs:41 | `p & !(align - 1)` on a 64-bit word equals `p - p % align` for every power-of-two `align` |
| `Align.MaskClearsLowBits` | arceos/modules/bump_allocator/src/lib.rs:41 | ANDing an `n`-bit value with the mask `2^n - 2^k` clears exactly its low `k` bits, giving `p - p % 2^k` |
| `Align.RoundsUp` | arceos/modules/bump_allocator/src/lib.rs:46 | ANDing `pos + align - 1` with the mask yields the least multiple of `align` that is at least `pos` |
| `Align.IsPowerOfTwo` | arceos/modules/bump_allocator/src/lib.rs:52 | `is_power_of_two`: 1, or an even number whose half passes the test; a value that passes is at least 1, so 0 fails |
| `Align.Not` | arceos/modules/bump_allocator/src/lib.rs:41 | `!x` on a 64-bit word flips every bit: `x & !x` is 0 and `x + !x` is the all-ones word `2^64 - 1` |
| `Align.ComplementDisjoint` | arceos/modules/bump_allocator/src/lib.rs:41 | an `n`-bit value and its complement `2^n - 1 - x` have no set bit in common |
| `Align.Log2` | arceos/modules/bump_allocator/src/lib.rs:52 | every value passing `is_power_of_two` is `2^k` for some `k` |
| `Align.Pow2IsPowerOfTwo` | arceos/modules/bump_allocator/src/lib.rs:52 | every `2^k` passes `is_power_of_two`; with `Log2`, the test accepts exactly the powers of two |
| `BumpAllocator.PaddedSize` | arceos/modules/bump_allocator/src/lib.rs:68 | `layout.pad_to_align().size()` is a multiple of the alignment in `[size, size + align)`, and equals `size` when `size` is already aligned |
| `BumpAllocator.PageAlignOk` | arceos/modules/bump_allocator/src/lib.rs:104-110 | the two alignment checks of `alloc_pages`: `align_pow2 % PAGE_SIZE == 0` and `align_pow2 / PAGE_SIZE` is a power of two; an alignment that passes is at least `PAGE_SIZE` |
| `BumpAllocator.RoundPages` | arceos/modules/bump_allocator/src/lib.rs:111-112 | the rounded count `n + (a - n % a)` is a multiple of `a`, and the added amount lies in `[1, a]` |
| `BumpAllocator.RoundPagesOvershoots` | arceos/modules/bump_allocator/src/lib.rs:111-112 | when `n` is already a multiple of `a`, the rounding adds a full `a`, more than rounding up would |
| `BumpAllocator.RoundPagesUp` | arceos/modules/bump_allocator/src/lib.rs:111-112 | the intended rounding: the least multiple of `a` that is at least `n`, leaving an aligned `n` unchanged |
| `BumpAllocator.FitsInGap` | arceos/modules/bump_allocator/src/lib.rs:113-114 | `p_pos - count * PAGE_SIZE >= b_pos` exactly when `count` is at most the whole pages between the cursors; the new top stays page-aligned |
| `BumpAllocator.CarvePages` | arceos/modules/bump_allocator/src/lib.rs:113-119 | requires that `count * PAGE_SIZE` does not underflow `top`; carving `count` pages fails only with `NoMemory`, and exactly when they do not fit above the floor; on success the new top is page-aligned, at or above the floor, and exactly `count * PAGE_SIZE` below the old top |
| `BumpAllocator.AllocPagesResult` | arceos/modules/bump_allocator/src/lib.rs:103-120 | requires, for a valid alignment, that the rounded count of pages does not underflow `p_pos`; `InvalidParam` exactly when `align_pow2 % PAGE_SIZE != 0` or `align_pow2 / PAGE_SIZE` is not a power of two (0 included); otherwise success exactly when the rounded count fits in the gap; a request of at least the whole free pages fails with `NoMemory`; a result lies in `[b_pos, p_pos)`, is page-aligned, and is the rounded count of pages below `p_pos` |
| `BumpAllocator.AllocPagesIntendedResult` | arceos/modules/bump_allocator/src/lib.rs:103-120 | the same outcome with the intended rounding, under the same no-underflow requirement: the same `InvalidParam` cases; an aligned request that fits is granted exactly `num_pages` pages; a request for more pages than are free fails with `NoMemory` |
| `BumpAllocator.ExactFitRefused` | arceos/modules/bump_allocator/src/lib.rs:111-115 | when `b_pos` lies at least one alignment unit above 0, so the as-written count does not underflow, an aligned request that exactly fills the gap gets `NoMemory` from `alloc_pages` as written, and is granted at `b_pos` with the intended rounding |
| `BumpAllocator.PageAlignIsPowerOfTwo` | arceos/modules/bump_allocator/src/lib.rs:104-110 | with a power-of-two `PAGE_SIZE`, an alignment that passes both checks of `alloc_pages` is itself a power of two and a multiple of `PAGE_SIZE` |
| `BumpAllocator.AllocPagesAlignedBelowAlignedTop` | arceos/modules/bump_allocator/src/lib.rs:111-118 | when `p_pos` is a multiple of `align_pow2`, a page block that `alloc_pages` grants starts at a multiple of `align_pow2`, because the rounded count is a whole number of alignment units |
| `BumpAllocator.AllocPagesMisaligned` | arceos/modules/bump_allocator/src/lib.rs:102-118 | with 4096-byte pages, `b_pos = 0` and `p_pos = 12288`, `alloc_pages(1, 8192)` succeeds at 4096, which is not a multiple of 8192 |
| `BumpAllocator.PlaceBelow` | arceos/modules/bump_allocator/src/lib.rs:113-118 | it fails with `NoMemory` only; an address it grants is a multiple of the alignment, between the floor and the bound, and less than one alignment unit below the bound |
| `BumpAllocator.PlaceBelowHighest` | arceos/modules/bump_allocator/src/lib.rs:113-118 | every multiple of the alignment between the floor and the bound lies at or below the placement of `PlaceBelow`, which then succeeds |
| `BumpAllocator.AllocPagesAlignedResult` | arceos/modules/bump_allocator/src/lib.rs:102-120 | the corrected `alloc_pages` with alignment kept: the same `InvalidParam` cases; `NoMemory` when the pages exceed the gap; a granted block starts at a multiple of `align_pow2` and of `PAGE_SIZE`, at or above `b_pos`, ends at or below `p_pos`, and lies less than one alignment unit below the highest possible start |
| `BumpAllocator.AllocPagesAlignedHighest` | arceos/modules/bump_allocator/src/lib.rs:102-120 | the corrected `alloc_pages` succeeds whenever some address aligned to `align_pow2` fits `num_pages` pages between `b_pos` and `p_pos`, and returns the highest such address |
| `BumpAllocator.AllocPagesAlignedPlaces` | arceos/modules/bump_allocator/src/lib.rs:113-118 | once the alignment is accepted and the pages fit in the gap, the corrected `alloc_pages` returns the placement of `PlaceBelow` below `p_pos - num_pages * PAGE_SIZE` |
| `BumpAllocator.EarlyAllocator.constructor` | arceos/modules/bump_allocator/src/lib.rs:29-36 | `new()` sets all four fields to 0, which satisfies the cursor ordering |
| `BumpAllocator.EarlyAllocator.Init` | arceos/modules/bump_allocator/src/lib.rs:51-57 | requires a power-of-two `PAGE_SIZE`; sets `start = align_down(start)` and `end = align_up(start + size)`, then `b_pos = start` and `p_pos = end`, whatever the old state; `start` lies at most a page below the given start; `end` lies at or above `start + size` and less than a page beyond it; the invariant holds afterwards |
| `BumpAllocator.EarlyAllocator.AddMemory` | arceos/modules/bump_allocator/src/lib.rs:60-62 | a second region is always refused with `NoMemory`, and no field is read or changed |
| `BumpAllocator.EarlyAllocator.Alloc` | arceos/modules/bump_allocator/src/lib.rs:67-76 | fails, with `NoMemory` only, exactly when `b_pos + padded size > p_pos`; otherwise returns `b_pos`, and the padded block ends at or below `p_pos`; no field changes |
| `BumpAllocator.EarlyAllocator.AllocFailsWhenExhausted` | arceos/modules/bump_allocator/src/lib.rs:67-76 | a layout larger than `available_bytes()` is refused with `NoMemory` |
| `BumpAllocator.EarlyAllocator.AllocRepeatsAddress` | arceos/modules/bump_allocator/src/lib.rs:69-74 | two successful allocations from the same state return the same address; when the first is not empty, the second block starts inside it |
| `BumpAllocator.EarlyAllocator.AllocAlignedAtStart` | arceos/modules/bump_allocator/src/lib.rs:66-76 | while `b_pos` is still `start`, an address `alloc` grants is aligned as requested for every alignment up to `PAGE_SIZE` |
| `BumpAllocator.EarlyAllocator.AllocIgnoresAlignment` | arceos/modules/bump_allocator/src/lib.rs:66-76 | in the state `init(4096, 8192)` leaves with 4096-byte pages, `alloc` of an 8192-byte layout aligned to 8192 succeeds at 4096, which is not a multiple of 8192 |
| `BumpAllocator.EarlyAllocator.Dealloc` | arceos/modules/bump_allocator/src/lib.rs:80 | `dealloc` changes nothing |
| `BumpAllocator.EarlyAllocator.TotalBytes` | arceos/modules/bump_allocator/src/lib.rs:83-85 | under the invariant, `total_bytes` is the range size minus the bytes of the used pages |
| `BumpAllocator.EarlyAllocator.UsedBytes` | arceos/modules/bump_allocator/src/lib.rs:88-90 | with ordered cursors, `used_bytes` never exceeds `total_bytes` |
| `BumpAllocator.EarlyAllocator.AvailableBytes` | arceos/modules/bump_allocator/src/lib.rs:93-95 | `available_bytes` is the gap `p_pos - b_pos` between the cursors, and `used_bytes + available_bytes == total_bytes` |
| `BumpAllocator.EarlyAllocator.TotalPages` | arceos/modules/bump_allocator/src/lib.rs:129-131 | `total_pages` is the number of whole pages in `[b_pos, end)` |
| `BumpAllocator.EarlyAllocator.UsedPages` | arceos/modules/bump_allocator/src/lib.rs:134-136 | under the invariant, `used_pages * PAGE_SIZE` is exactly `end - p_pos` |
| `BumpAllocator.EarlyAllocator.AvailablePages` | arceos/modules/bump_allocator/src/lib.rs:139-141 | `used_pages + available_pages == total_pages`; under the invariant, `available_pages` is the number of whole pages in the gap between the cursors |
| `BumpAllocator.EarlyAllocator.AvailablePagesInGap` | arceos/modules/bump_allocator/src/lib.rs:129-141 | with `end` and `p_pos` page-aligned, `(end - b_pos)/PAGE_SIZE - (end - p_pos)/PAGE_SIZE == (p_pos - b_pos)/PAGE_SIZE` |
| `BumpAllocator.EarlyAllocator.AllocPages` | arceos/modules/bump_allocator/src/lib.rs:103-120 | the result is `AllocPagesResult` of the old state; on success `p_pos` becomes the returned address and `used_pages` grows by the rounded count; on failure nothing changes; only `p_pos` is ever written; the invariant is preserved |
| `BumpAllocator.EarlyAllocator.AllocIntended` | arceos/modules/bump_allocator/src/lib.rs:67-76 | the corrected `alloc`: same result as `Alloc` on the old state; on success `b_pos` moves to the end of the returned block; on failure nothing changes; the invariant is preserved |
| `BumpAllocator.EarlyAllocator.AllocTwiceIntended` | arceos/modules/bump_allocator/src/lib.rs:67-76 | with the corrected `alloc`, a second successful block starts at or after the end of the first |
| `BumpAllocator.EarlyAllocator.AllocPagesIntended` | arceos/modules/bump_allocator/src/lib.rs:103-120 | the corrected `alloc_pages`: the result is `AllocPagesIntendedResult` of the old state, with the same state update and invariant as `AllocPages` |
| `BumpAllocator.EarlyAllocator.AllocAligned` | arceos/modules/bump_allocator/src/lib.rs:66-76 | the corrected `alloc` with alignment kept: the block starts at `b_pos` rounded up to the alignment; it fails, with `NoMemory` only, exactly when the padded block would pass `p_pos`; on success `b_pos` moves to the end of the block; on failure nothing changes; the invariant is preserved |
| `BumpAllocator.EarlyAllocator.AllocPagesAligned` | arceos/modules/bump_allocator/src/lib.rs:102-120 | the corrected `alloc_pages` with alignment kept: the result is `AllocPagesAlignedResult` of the old state; on success `p_pos` becomes the returned address, on failure nothing changes; only `p_pos` is written; the invariant is preserved |

## Left out

- `dealloc_pages` (lines 123-126) is not modelled. Its body is `unimplemented!()`, which panics, so it has no behaviour to verify.
- Pointers: `NonNull<u8>` and `*mut u8` are plain integer addresses. The `unsafe` pointer construction at line 73 is left out.
- `Layout` is reduced to a size and a power-of-two alignment whose rounded size stays within `isize::MAX`. `pad_to_align` is `align_up(size, align)`. The rest of `core::alloc::Layout` is not part of this model.
- The `allocator` crate is not part of this model: the `BaseAllocator`, `ByteAllocator` and `PageAllocator` traits, and its `AllocError`. The results use a local `AllocResult` with the two errors this allocator raises, `InvalidParam` and `NoMemory`.
- The associated constant `PageAllocator::PAGE_SIZE` (line 100) is the class's `pageSize` field. The constructor takes it as a parameter, standing in for the const generic.
- `usize` is 64 bits wide. Other word widths are not modelled.
- Init: requires that `start + size + PAGE_SIZE - 1` fits in a word. The overflow at line 54, and the one inside `align_up` at line 46, are excluded, not modelled.
- Init: requires `PAGE_SIZE` to be a power of two. The panic of the `assert!` at line 52 is not modelled.
- Alloc: requires that `b_pos` plus the padded size fits in a word. The overflow at line 69 is excluded, not modelled.
- AllocPages, AllocPagesIntended, AllocPagesResult, AllocPagesIntendedResult, CarvePages, ExactFitRefused: require that the rounded count times `PAGE_SIZE` is at most `p_pos`. The underflow at line 113 is excluded: Rust panics there in debug builds and wraps in release builds. In a release build the wrapped `new_p_pos` is a large value that passes the check at line 114, so such a request succeeds and leaves a meaningless `p_pos`; the refusal of a request for all the free pages that `AllocPagesResult` states holds only for requests that do not underflow. Because the rounding adds a whole unit, a request for the last free page of a range that starts below `PAGE_SIZE` always falls in this case. That requirement also rules out the overflows at lines 112-113.
- TotalBytes, UsedBytes, AvailableBytes, TotalPages, UsedPages, AvailablePages: require the cursor relations that keep their subtractions from underflowing. All of these hold under `Valid()`.
- AllocIntended, AllocPagesIntended: each corrects one finding only, the missing commit of `b_pos` and the rounding of the page count. Both keep the as-written placement, so they keep the alignment gap too. AllocAligned and AllocPagesAligned correct the placement.
- AllocAligned: requires that `b_pos + align - 1` plus the padded size fits in a word; the overflow is excluded, as for `Alloc`.
- AddMemory and Alloc are functions: the source takes `&mut self` but assigns no field.
- The reference count described in the doc comment at lines 17-18 is not modelled. The code has none.
- Concurrency: the allocator has no locking and runs single-threaded during early boot.

## Findings

| source | as written | input that shows it | evidently intended | confidence | as-written member | corrected member |
|---|---|---|---|---|---|---|
| arceos/modules/bump_allocator/src/lib.rs:67-76 | `alloc` computes `new_b_pos` but never stores it, so `b_pos` never advances | on a fresh range, two successive `alloc` calls for 64 bytes at alignment 8 both return `start`, and the blocks overlap | assign `self.b_pos = new_b_pos` on success, so successive blocks are disjoint and `used_bytes` grows | high; not executed | `BumpAllocator.EarlyAllocator.AllocRepeatsAddress` | `BumpAllocator.EarlyAllocator.AllocIntended` |
| arceos/modules/bump_allocator/src/lib.rs:111-112 | `remain = align - num_pages % align` is `align`, not 0, when `num_pages` is already aligned, so `alloc_pages(1, PAGE_SIZE)` reserves two pages | with `b_pos` at least one page above 0 and exactly one free page between the cursors, `alloc_pages(1, PAGE_SIZE)` returns `NoMemory` | round up only when `num_pages % align != 0`, so an aligned request that fits is granted exactly | medium; not executed | `BumpAllocator.ExactFitRefused` | `BumpAllocator.AllocPagesIntendedResult` |
| arceos/modules/bump_allocator/src/lib.rs:66-76 | the doc comment promises the given alignment, but `alloc` returns `b_pos` as it is | with 4096-byte pages, after `init(4096, 8192)`, `alloc` of an 8192-byte layout aligned to 8192 returns 4096 | start the block at `align_up(b_pos, align)` and advance `b_pos` past it | high; not executed | `BumpAllocator.EarlyAllocator.AllocIgnoresAlignment` | `BumpAllocator.EarlyAllocator.AllocAligned` |
| arceos/modules/bump_allocator/src/lib.rs:102-118 | the doc comment promises the given alignment, but `alloc_pages` only subtracts a whole number of alignment units from `p_pos`, so the result is aligned only when `p_pos` already is | with 4096-byte pages, `b_pos = 0` and `p_pos = 12288`, `alloc_pages(1, 8192)` returns 4096 | round `p_pos - num_pages * PAGE_SIZE` down to a multiple of `align_pow2`, and refuse only when that lies below `b_pos` | high; not executed | `BumpAllocator.AllocPagesMisaligned` | `BumpAllocator.AllocPagesAlignedResult` |
