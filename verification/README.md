# Reference-counted page allocator (xv6 `kernel/kalloc.c`)

This project models the physical page-frame allocator of a copy-on-write xv6
kernel and proves properties of that model. The allocator hands out whole
4096-byte pages. It keeps two structures:

- `refcounter`, with one reference count per page index `pa / PGSIZE` below
  `PHYSTOP`;
- `kmem.freelist`, a singly linked list of free pages, whose links
  (`struct run.next`) are stored inside the free pages themselves.

The operations are:

- `kinit` and `freerange`: seed the pool with every page between the end of
  the kernel image and `PHYSTOP`;
- `kalloc`: pop a page, set its count to 1 and zero-fill it;
- `kfree`: decrement the count, and on reaching 0 zero-fill the page and push
  it on the list;
- the copy-on-write helpers `refCountIncrement`, `refCountDecrement` and
  `getRefCount`.

The project is laid out in four modules:

- `Layout` (`layout.dfy`) holds the constants:
  - `PGSIZE` 4096;
  - `KERNBASE` 0x8000_0000;
  - `PHYSTOP` = `KERNBASE` + 128 MiB;
  - `NPAGES` = `PHYSTOP / PGSIZE`, the size of `refcounter`.

  It also holds `PGROUNDUP`, and the range guard of the three helpers both as
  written and as corrected.
- `FrameSpec` (`frames.dfy`) describes the allocator's state as a value
  `Frames(refcount, free, zeroed)`. `free` lists the page indices on the
  free list, head first. `zeroed` says that the allocator zero-filled the
  page. While a page is on the free list, its first word holds the list
  link, which the model keeps apart in `next`, so the flag covers the rest
  of the page. Each operation is a function from the old
  state to the new one, and a `panic` is the result `Fatal(why)`. The
  module also defines:
  - the invariant `Inv`: no count is negative; pages outside
    `[end, PHYSTOP)` have count 0; every page on the free list is managed,
    has count 0 and appears once;
  - the converse property `Tight`: a managed page with count 0 is on the
    list;
  - `Live`, the number of pages in use.
- `FrameLemmas` (`lemmas.dfy`) proves what each operation does, that each
  keeps the invariant, and that kalloc, kfree and refCountIncrement conserve
  (free pages + pages in use). It also proves what `kinit` leaves, and
  facts about whole runs of operations.
- `Kalloc` (`kalloc.dfy`) is the allocator as the C code keeps it, in the
  class `Kmem`:
  - a `refcounter` array;
  - a `next` array holding each free page's link (an address, 0 for null);
  - a `zeroed` array;
  - the head address `freelist`;
  - a ghost sequence `free` of the listed page indices.

  `Valid()` ties these fields together. It requires `Inv` to hold, and it
  requires the list starting at `freelist` to follow `next` through exactly
  the pages of `free`, ending in 0. Each method is proved to produce the
  state that the matching `FrameSpec` function produces.

A `kfree` panic is returned as the outcome `Panicked(why)`, and the state is
then left unchanged. The `kalloc` panic ("refcounter kalloc panic") is proved
unreachable while `Valid()` holds. `end` is a constructor parameter with
`KERNBASE <= end <= PHYSTOP`.

Two consequences of the code are worth spelling out:

- kfree zero-fills a freed page, although its comment speaks of filling it
  with junk (kernel/kalloc.c:74-75);
- the first kalloc after kinit returns the highest managed page, because
  freerange pushes pages in ascending order and the list is therefore
  descending (FrameLemmas.FirstAllocIsTopPage).

## Model

| member | source | states |
|---|---|---|
| Layout.PgRoundUp | kernel/kalloc.c:43 | PGROUNDUP(a) is page-aligned and lies in [a, a + PGSIZE) |
| Layout.RoundUpIsLeast | kernel/kalloc.c:43 | no page-aligned address at or above a lies below PGROUNDUP(a), so PGROUNDUP(a) is the least such address |
| Layout.AcceptsAsWritten | kernel/kalloc.c:118 | the range test as written accepts every address the corrected test accepts, and the page index of any address it accepts is at most NPAGES |
| Layout.AsWrittenIndexesPastTable | kernel/kalloc.c:117-118 | for every address: the written test accepts it while the corrected one rejects it exactly when it is PHYSTOP, whose page index NPAGES is one past the last entry of the table declared at kernel/kalloc.c:38 |
| Layout.InRange | kernel/kalloc.c:118 | the corrected test accepts an address exactly when its page index has an entry in `refcounter` |
| FrameSpec.KFree | kernel/kalloc.c:55-82 | kfree panics "kfree" exactly when the address is misaligned or outside [end, PHYSTOP); when it returns, the list grows by at most one page |
| FrameSpec.KAlloc | kernel/kalloc.c:87-111 | kalloc can only panic with "refcounter kalloc panic", and only on a nonempty list; a returned address is page-aligned and below PHYSTOP; on a nonempty list it pops the head, returns its address and gives it count 1 |
| FrameSpec.Increment | kernel/kalloc.c:114-125 | refCountIncrement reports success exactly for an address in range whose page has count >= 1; it never touches the list or page contents, and on failure it changes nothing |
| FrameSpec.Decrement | kernel/kalloc.c:127-138 | refCountDecrement reports success exactly for an address in range whose page has count >= 1; it never touches the list or page contents, and on failure it changes nothing |
| FrameSpec.RefCount | kernel/kalloc.c:141-150 | getRefCount is -1 for an address out of range, and otherwise the stored count of its page `address / PGSIZE`; that -1 occurs exactly out of range under the invariant is FrameLemmas.RefCountFacts |
| FrameSpec.Seed | kernel/kalloc.c:40-49 | freerange over n pages adds exactly n pages to the list |
| FrameSpec.Boot | kernel/kalloc.c:31-35 | kinit leaves NPAGES - FirstPage(end) pages on the list |
| FrameSpec.ManagedIff | kernel/kalloc.c:40-49 | the page indices kfree accepts are exactly FirstPage(end) .. NPAGES-1, the pages kinit seeds |
| FrameLemmas.KFreeFatalCases | kernel/kalloc.c:60-67 | kfree panics "kfree" exactly on a misaligned address, one below `end` or one at or above PHYSTOP; it panics "kfree panic" exactly when the page's count is already below 1; it never raises the kalloc panic |
| FrameLemmas.KFreeEffect | kernel/kalloc.c:65-81 | a kfree that returns lowers that one page's count by exactly 1, never below 0. While the count stays positive, the list and page contents are unchanged. When it reaches 0, the page is zeroed and the list becomes [page] + old list |
| FrameLemmas.KFreeKeepsInv | kernel/kalloc.c:55-82 | kfree keeps the allocator invariant, including "each free page has count 0 and is listed once" |
| FrameLemmas.KFreeKeepsTight | kernel/kalloc.c:55-82 | kfree keeps every managed page with count 0 on the list |
| FrameLemmas.KFreeConserves | kernel/kalloc.c:55-82 | kfree keeps (free-list length + pages in use) constant |
| FrameLemmas.KAllocFatalCases | kernel/kalloc.c:93-100 | kalloc panics "refcounter kalloc panic" exactly when the list is nonempty and its head page's count is not 0, and raises no other panic; on an empty list it returns 0 and changes nothing |
| FrameLemmas.KAllocEffect | kernel/kalloc.c:87-111 | under the invariant kalloc never panics. It returns 0 exactly when the list is empty, and then changes nothing. Otherwise it returns the aligned, managed address of the former head, whose count goes from 0 to 1 and which is zero-filled; the list becomes its tail, and no other count or page changes |
| FrameLemmas.KAllocKeepsInv | kernel/kalloc.c:87-111 | kalloc keeps the allocator invariant |
| FrameLemmas.KAllocKeepsTight | kernel/kalloc.c:87-111 | kalloc keeps every managed page with count 0 on the list |
| FrameLemmas.KAllocConserves | kernel/kalloc.c:87-111 | kalloc keeps (free-list length + pages in use) constant |
| FrameLemmas.IncrementEffect | kernel/kalloc.c:114-125 | refCountIncrement succeeds exactly for an address below PHYSTOP whose page has count >= 1, and then adds 1 to that count only. It never touches the list or page contents, and on failure it changes nothing |
| FrameLemmas.IncrementKeepsInv | kernel/kalloc.c:114-125 | refCountIncrement keeps the invariant, Tight, and (free-list length + pages in use) |
| FrameLemmas.DecrementEffect | kernel/kalloc.c:127-138 | refCountDecrement succeeds exactly for an address below PHYSTOP whose page has count >= 1, and then subtracts 1 from that count only, never below 0. It never touches the list or page contents, and on failure it changes nothing |
| FrameLemmas.DecrementKeepsInv | kernel/kalloc.c:127-138 | refCountDecrement keeps the allocator invariant |
| FrameLemmas.DecrementStrandsPage | kernel/kalloc.c:137 | decrementing a count of 1 leaves a managed page with count 0 that is not on the list. Tight then fails, and (free-list length + pages in use) drops by one |
| FrameLemmas.RefCountFacts | kernel/kalloc.c:141-150 | getRefCount is -1 exactly for addresses at or above PHYSTOP; otherwise it is the stored count of `address / PGSIZE`, which is not negative |
| FrameLemmas.SetOneKeepsInv | kernel/kalloc.c:46 | setting the count of a managed page that is not on the list to 1 keeps the invariant |
| FrameLemmas.PagesToTop | kernel/kalloc.c:34-44 | freerange(end, PHYSTOP) visits NPAGES - FirstPage(end) pages, ending exactly at PHYSTOP |
| FrameLemmas.PagesInCounts | kernel/kalloc.c:43-44 | the loop test `p + PGSIZE <= pa_end` at the k-th page holds exactly while k < PagesIn(start, stop) |
| FrameLemmas.SeedRound | kernel/kalloc.c:44-48 | in one loop round, the page is managed and not yet listed, and setting its count to 1 and calling kfree on it returns normally in the next seeded state |
| FrameLemmas.SeedShape | kernel/kalloc.c:40-49 | after freerange has visited n pages from `first`, those pages have count 0, are zeroed and are on the list in descending order ahead of the old list; no other count or page changes |
| FrameLemmas.DescendingAt | kernel/kalloc.c:44-48 | the k-th entry of the list that freerange builds is first + n - 1 - k |
| FrameLemmas.DescendingDistinct | kernel/kalloc.c:44-48 | the list that freerange builds holds each page of its range exactly once, and no other page |
| FrameLemmas.BootFacts | kernel/kalloc.c:31-49 | after kinit every count is 0, and a page is on the list exactly when it is managed, then once and zeroed. The invariant and Tight hold, no page is in use, and the list holds NPAGES - FirstPage(end) pages |
| FrameLemmas.FirstAllocIsTopPage | kernel/kalloc.c:44-103 | the first kalloc after kinit returns the highest managed page, (NPAGES - 1) * PGSIZE |
| FrameLemmas.RunKeepsInv | kernel/kalloc.c:55-150 | from any state that satisfies the invariant, every sequence of kalloc, kfree, increment and decrement keeps it, and the kalloc panic never fires |
| FrameLemmas.RunConserves | kernel/kalloc.c:55-125 | every sequence of kalloc, kfree and increment keeps Tight and keeps (free-list length + pages in use) constant |
| FrameLemmas.Lifetime | kernel/kalloc.c:31-125 | after kinit, any run of kalloc, kfree and increment that does not panic keeps the invariant and Tight, and (free-list length + pages in use) equals the number of managed pages |
| FrameLemmas.SharedPageNeedsTwoFrees | kernel/kalloc.c:68-125 | a page that kalloc hands out and refCountIncrement shares survives one kfree with count 1, off the list; the second kfree pushes it on the head |
| FrameLemmas.DoubleFreePanics | kernel/kalloc.c:66-67 | kalloc, then kfree, then kfree of the same page panics with "kfree panic" |
| Kalloc.LinkedTail | kernel/kalloc.c:93-103 | popping the head: the list continues at the head page's `next` link, over the remaining pages |
| Kalloc.LinkedPush | kernel/kalloc.c:79-80 | linking an unlisted page in front of the head gives a list over [page] + old pages, starting at that page's address |
| Kalloc.Kmem.constructor | kernel/kalloc.c:31-38 | kinit starts from zeroed counts and an empty list, and leaves a valid allocator whose state is Boot(end) |
| Kalloc.Kmem.FreeRange | kernel/kalloc.c:40-49 | the loop leaves the allocator valid and in the seeded state Seed(old state, end, PGROUNDUP(paStart) / PGSIZE, PagesIn(paStart, paEnd)) |
| Kalloc.Kmem.SeedPage | kernel/kalloc.c:46-47 | one loop body, `refcounter[p / PGSIZE] = 1; kfree(p)`, moves from the k-th to the (k+1)-th seeded state and keeps the allocator valid |
| Kalloc.Kmem.KFree | kernel/kalloc.c:55-82 | the outcome and new state are those of FrameSpec.KFree: a panic returns Panicked(why) with nothing changed; otherwise the counts, the `next` links, the head and the zeroed flags become that state, and the allocator stays valid |
| Kalloc.Kmem.KAlloc | kernel/kalloc.c:87-111 | the returned address and new state are exactly those of FrameSpec.KAlloc, which never panics here, and the allocator stays valid |
| Kalloc.Kmem.RefCountIncrement | kernel/kalloc.c:114-125 | the success flag and new counts are those of FrameSpec.Increment, and the allocator stays valid |
| Kalloc.Kmem.RefCountDecrement | kernel/kalloc.c:127-138 | the success flag and new counts are those of FrameSpec.Decrement, and the allocator stays valid |
| Kalloc.Kmem.GetRefCount | kernel/kalloc.c:141-150 | returns FrameSpec.RefCount of the state: -1 exactly for an address at or above PHYSTOP, otherwise the page's count, which is not negative |

## Left out

- `user/vatopa.c` is not part of this model. It is a command-line wrapper that parses arguments, makes a system call and prints the result.
- The spinlock calls are left out: `initlock`, `acquire` and `release`. Each operation runs as one atomic step. So the window in `kfree` between the decrement to 0 and the push is not modelled. That window is where a concurrent increment would see count 0.
- The `printf` diagnostics are left out. They include the reads of `refcounter[pageNum]` inside them, which for large addresses fall outside the table. The increment and decrement helpers return a success flag where the C code prints and returns.
- `panic` does not halt the model. kfree's panics become a `Panicked` outcome with the state unchanged. The kalloc panic is a `Fatal` result of `FrameSpec.KAlloc`, and it is proved unreachable from a valid state.
- Page contents are not modelled byte by byte. `memset` becomes a per-page `zeroed` flag. The `struct run` that kfree stores in a free page's first word after the `memset` becomes that page's entry in the `next` array, so a listed page counts as zeroed although its first word holds the link. No operation models a holder writing into a page it owns, so the flag never returns to false: the effect of kalloc's own `memset` shows only in FrameLemmas.KAllocEffect, which holds from every state satisfying the invariant, not just from states reachable after kinit.
- The code zero-fills freed pages, despite its comment about filling them with junk. The model follows the code, so a freed page is marked zeroed, not poisoned.
- `MAX_PAGES` and `FREE_PAGES` are not modelled. This file never updates `FREE_PAGES`, so `MAX_PAGES` is always 0.
- `memlayout.h` and `riscv.h` are not part of this model. `KERNBASE`, `PHYSTOP`, `PGSIZE` and `PGROUNDUP` take the standard xv6 RISC-V values and definitions. The proofs rely on PHYSTOP being a multiple of PGSIZE, and on KERNBASE, and so `end`, being above 0: no managed page then sits at address 0, which stands for null.
- Kalloc.Kmem.FreeRange: requires every page of the range to be one kfree accepts, and none of them to be already on the free list. For a range reaching at or above PHYSTOP, the C code writes past `refcounter` before kfree can panic. A page already on the list would be pushed a second time. The one caller, kinit, always meets both conditions.
- Kalloc.Kmem.RefCountIncrement: does not model the 32-bit overflow of a C `int` count; counts are unbounded integers.
- Kalloc.Kmem.RefCountIncrement, Kalloc.Kmem.RefCountDecrement, Kalloc.Kmem.GetRefCount, FrameSpec.Increment, FrameSpec.Decrement, FrameSpec.RefCount: use the corrected guard `address >= PHYSTOP`; see Findings. The C code computes `int pageNum = address / PGSIZE`, which truncates for very large addresses. That value reaches the table only in the diagnostics, which are left out.

## Findings

| source | as written | input that shows it | evidently intended | confidence | as-written member | corrected member |
|---|---|---|---|---|---|---|
| kernel/kalloc.c:118 | `if (address > PHYSTOP ...)`, repeated at kernel/kalloc.c:131 and kernel/kalloc.c:144, rejects only addresses above PHYSTOP | address == PHYSTOP passes the test and indexes `refcounter[PHYSTOP / PGSIZE]`, one past the end of the table declared at kernel/kalloc.c:38 | `address >= PHYSTOP`, as kfree tests at kernel/kalloc.c:60 | high (not executed) | Layout.AsWrittenIndexesPastTable | Layout.InRange |
