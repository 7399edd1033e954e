# xv6 physical page allocator with reference counts

This project models the physical-memory allocator of an xv6 kernel extended
with per-page reference counts (`kernel/kalloc.c`). The allocator manages the
whole pages between the rounded-up end of the kernel image and `PHYSTOP`. It
keeps one 32-bit counter per page in a table placed at the start of that range,
and a singly linked free list threaded through the free pages themselves.

- `kinit`/`freerange` place the table, seed every counter (2 for the pages
  holding the table, 1 for the rest) and call `kfree` on every page of the
  range in ascending order. Afterwards the table pages have count 1 and are in
  use; every other page has count 0 and is on the free list, highest address
  first.
- `kfree` panics on a misaligned or out-of-range address. Otherwise it drops
  one reference, and when the count reaches zero it pushes the page onto the
  free list.
- `kalloc` pops the head of the free list, sets its count to 1 and returns its
  address, or returns 0 when the list is empty.
- `get_page` adds one reference to a page without any check.

The project has three modules:

- `PageLayout` (`page_layout.dfy`): page arithmetic. It holds `PGSIZE`,
  `PGROUNDUP`, the size of the counter table, and the map between page
  addresses and dense page indices (`PG_INDEX`). It also holds kfree's address
  check.
- `FreeListSpec` (`free_list_spec.dfy`): the allocator state as a value. The
  state is a sequence of `uint32` counters plus the free list as a sequence of
  page indices. Each operation is a function on it: `Release` (kfree past its
  check), `Alloc` (kalloc), `Share` (get_page) and `Bootstrap` (freerange).
  The lemmas state the invariant and the properties the code promises.
- `KAlloc` (`kalloc.dfy`): the imperative allocator, a class `Kmem`. Its
  fields are the counter array, an index-based `next` array and a `head`
  index (-1 is the null pointer). Every method is proved to move the abstract
  state exactly as the matching `FreeListSpec` function does and to keep the
  invariant, except `GetPage` on a page whose count is outside 1 to
  UINT_MAX - 1: the arrays then still hold the new state, but the invariant
  no longer holds.

The invariant (`FreeListSpec.Inv`) says that each page is in exactly one of
two situations. Either it is on the free list, exactly once, with count 0, or
it is off the list with count at least 1. `Kmem.Valid` adds that `head` and
the `next` links thread exactly the free list, in order.

The loop at `kernel/kalloc.c:54` starts at the table base, so it also calls
kfree on the table pages and brings their counts from 2 down to 1; the model
does the same.

## Model

| member | source | states |
|---|---|---|
| `PageLayout.PgRoundUp` | kernel/kalloc.c:39 | PGROUNDUP gives a multiple of PGSIZE that lies in `[a, a + PGSIZE)` |
| `PageLayout.RoundUpIsLeast` | kernel/kalloc.c:39 | no page-aligned address at or above `a` lies below PGROUNDUP(a) |
| `PageLayout.RefcountPages` | kernel/kalloc.c:44 | refcount_pages is the least number of whole pages that holds `pages` 4-byte counters; it is at most `pages`, and at least 1 when there are pages |
| `PageLayout.Layout.Pages` | kernel/kalloc.c:42 | the page count tiles the range exactly: table base + pages * PGSIZE == PHYSTOP |
| `PageLayout.Layout.MetaPages` | kernel/kalloc.c:44 | the table pages are a prefix of the managed pages |
| `PageLayout.Layout.Accepts` | kernel/kalloc.c:67 | kfree's check passes exactly for the start address of a managed page, so PG_INDEX of an accepted address indexes the table |
| `PageLayout.Layout.Base` | kernel/kalloc.c:39-40 | the table, and page 0, sit at the first page boundary at or above `end`, less than a page above it |
| `PageLayout.Layout.PgIndex` | kernel/kalloc.c:12 | PG_INDEX(pa) is the page whose address range `[Addr(i), Addr(i) + PGSIZE)` contains `pa` |
| `PageLayout.PgIndexOfAddr` | kernel/kalloc.c:12 | PG_INDEX maps the address of page `i` back to `i`, and that address passes kfree's check |
| `PageLayout.NextPage` | kernel/kalloc.c:54 | `p += PGSIZE` moves to the next page, and the loop test `p + PGSIZE <= pa_end` holds exactly while `p` is not past the last page |
| `FreeListSpec.Dec` | kernel/kalloc.c:71 | the `uint` decrement is subtraction of 1 modulo 2^32 |
| `FreeListSpec.Inc` | kernel/kalloc.c:116 | the `uint` increment is addition of 1 modulo 2^32 |
| `FreeListSpec.PushThreads` | kernel/kalloc.c:85-86 | linking a page that is not on the list in at the head leaves head and links threading the longer list |
| `FreeListSpec.PopThreads` | kernel/kalloc.c:99-103 | the head of a non-empty list is its first page, and following its link leaves the tail threaded |
| `FreeListSpec.Release` | kernel/kalloc.c:71-86 | kfree past its check: other counters unchanged; a count of 2 or more is decremented with the list unchanged; a count of 1 becomes 0 and the page becomes the head; a count of 0 wraps to UINT_MAX |
| `FreeListSpec.ReleasePreservesInv` | kernel/kalloc.c:71-86 | releasing a page that has an owner keeps the invariant |
| `FreeListSpec.ReleaseKeepsReserved` | kernel/kalloc.c:67-86 | releasing keeps the table pages off the free list unless a table page is released from count 1 |
| `FreeListSpec.Alloc` | kernel/kalloc.c:98-109 | kalloc on the abstract state: it reports no page exactly when the list is empty, and a page it returns indexes the table; the rest of its contract is `AllocTakesHead` and `AllocExhausted` |
| `FreeListSpec.AllocExhausted` | kernel/kalloc.c:98-109 | with an empty free list kalloc reports no memory and changes nothing, so a second kalloc answers the same |
| `FreeListSpec.AllocTakesHead` | kernel/kalloc.c:99-104 | kalloc returns the head, a page that had count 0; its count becomes 1, it leaves the list, the rest of the list stays in order and every other counter is unchanged |
| `FreeListSpec.AllocPreservesInv` | kernel/kalloc.c:99-104 | kalloc keeps the invariant |
| `FreeListSpec.AllocKeepsReserved` | kernel/kalloc.c:99-104 | kalloc keeps the table pages off the list and never returns a table page |
| `FreeListSpec.ReleaseUndoesAlloc` | kernel/kalloc.c:71-103 | kfree of the page kalloc just returned restores the state exactly, so the next kalloc returns the same page again |
| `FreeListSpec.Share` | kernel/kalloc.c:116 | get_page changes only the page's counter, by +1 modulo 2^32, and leaves the list alone |
| `FreeListSpec.SharePreservesInv` | kernel/kalloc.c:116 | get_page on a page with at least one owner (below UINT_MAX) keeps the invariant |
| `FreeListSpec.ShareTimesCount` | kernel/kalloc.c:116 | `n` get_page calls raise the count by exactly `n` and change nothing else |
| `FreeListSpec.ReleaseUndoesShare` | kernel/kalloc.c:71-116 | `n` get_page calls followed by `n` kfree calls on an owned page give back the original state |
| `FreeListSpec.LastReleaseFrees` | kernel/kalloc.c:71-86 | a page with `n + 1` owners stays off the list through `n` kfree calls, and the next call frees it and makes it the head |
| `FreeListSpec.ReleaseRange` | kernel/kalloc.c:54-55 | the kfree loop after `k` passes, releasing pages 0 to k-1 in ascending order; it keeps the table size, and its closed form is `ReleaseRangeAt` |
| `FreeListSpec.Bootstrap` | kernel/kalloc.c:36-56 | the state freerange leaves, one counter per page; its closed form and invariant are `BootstrapState` |
| `FreeListSpec.Seed` | kernel/kalloc.c:47-52 | the seeding loops give the table pages count 2 and every other page count 1, with an empty list |
| `FreeListSpec.SeedInv` | kernel/kalloc.c:47-52 | the seeded state satisfies the invariant |
| `FreeListSpec.ReleaseRangeAt` | kernel/kalloc.c:54-55 | after `k` passes of the kfree loop, released table pages are at 1, released data pages are at 0 and on the list in descending order, and unreached pages keep their seeded count |
| `FreeListSpec.OwnedWhenReached` | kernel/kalloc.c:54-55 | each page still has an owner when the kfree loop reaches it |
| `FreeListSpec.BootstrapState` | kernel/kalloc.c:36-56 | after freerange the table pages have count 1, the other pages count 0, each exactly once on the list in strictly descending order, and the invariant holds |
| `KAlloc.Kmem.constructor` | kernel/kalloc.c:28-33 | kinit builds a valid allocator in exactly the freerange state, with the table pages off the list |
| `KAlloc.Kmem.FreeRange` | kernel/kalloc.c:36-56 | freerange over the arrays ends valid, in the `Bootstrap` state, with the table pages reserved |
| `KAlloc.Kmem.SeedCounts` | kernel/kalloc.c:47-52 | the two seeding loops leave the counter array equal to `Seed` |
| `KAlloc.Kmem.FreeEach` | kernel/kalloc.c:54-55 | the kfree loop, from the seeded state, reaches the `Bootstrap` state and keeps the allocator valid |
| `KAlloc.Kmem.FreeStep` | kernel/kalloc.c:55 | one pass of the kfree loop moves the state from `k` pages released to `k + 1` |
| `KAlloc.Kmem.Kfree` | kernel/kalloc.c:62-88 | a refused address panics: the result is false and nothing changes; an accepted one gives true and the state becomes `Release` of the old one at PG_INDEX(pa); the allocator stays valid |
| `KAlloc.Kmem.ReleasePage` | kernel/kalloc.c:70-87 | the decrement and the push onto the list move the arrays exactly as `Release` and keep them valid |
| `KAlloc.Kmem.Kalloc` | kernel/kalloc.c:93-110 | the state becomes `Alloc` of the old one; the result is the address of the popped page, one kfree accepts, and it is 0 exactly when the list was empty; the table pages stay reserved |
| `KAlloc.Kmem.GetPage` | kernel/kalloc.c:112-118 | the state becomes `Share` of the old one at PG_INDEX(pa) and the counter array always holds it, `head` is unchanged, and the allocator stays valid when the page had an owner |
| `KAlloc.TenPageLayout` | kernel/kalloc.c:39-44 | a kernel ending at 0x8000_0001 with PHYSTOP 0x8000_B000 gives a table at 0x8000_1000, ten pages and one table page |
| `KAlloc.TenPageRange` | kernel/kalloc.c:36-109 | on that ten-page range, nine kallocs return pages 0x8000_A000 down to 0x8000_2000, and the tenth and eleventh return 0 |
| `KAlloc.AllocEach` | kernel/kalloc.c:93-110 | `n` kallocs on a list holding pages n down to 1 return their addresses in that order and empty the list |
| `KAlloc.AllocFreeAlloc` | kernel/kalloc.c:62-110 | kalloc, kfree of the result, then kalloc again returns the same nonzero page and leaves the state as after the first kalloc |

## Left out

- The spinlock and the release of the lock between the decrement and the push in kfree: the model is sequential.
- The `memset` junk fills in kfree and kalloc: page contents are not modelled.
- The `struct run` link stored inside each free page: the model keeps the links in a separate `next` array indexed by page, with -1 as the null pointer.
- The counter table living inside the managed range: the model keeps it in its own array, and its pages are still counted and reserved by index.
- `panic("kfree")`: modelled as `Kfree` returning false with no state change.
- `PGSIZE`, `PGROUNDUP` (riscv.h), `PHYSTOP` (memlayout.h) and the linker symbol `end`: those files are not part of this model. `PGROUNDUP` is written out arithmetically, and `end` and `PHYSTOP` are constructor parameters.
- 64-bit address arithmetic and `pages * sizeof(uint)` overflow: addresses are unbounded naturals.
- KAlloc.Kmem.Kfree: requires the page's count to be at least 1. The wrap of a free page's counter from 0 to UINT_MAX is modelled only in `FreeListSpec.Release`, because after it the arrays no longer meet the invariant.
- KAlloc.Kmem.GetPage: requires an address inside the table, because the source indexes out of bounds otherwise. It promises validity only for counts from 1 to UINT_MAX - 1.
- KAlloc.Kmem.constructor: requires `end` to be nonzero, at most `PHYSTOP`, with `PHYSTOP` page-aligned, as the kernel's memory layout guarantees.
- kfree's check does not refuse the table's own pages. A kfree of a table page whose count is 1 puts it on the free list, so `FreeListSpec.ReleaseKeepsReserved` assumes that this does not happen.
