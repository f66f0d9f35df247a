# memalloc: ioctl allocation engine, modelled in Dafny

The memalloc kernel module exposes a character device whose ioctl handler,
`memalloc_ioctl`, serves two commands. ALLOCATE maps a range of the caller's
virtual pages to fresh zeroed physical pages. FREE only reads its argument.
ALLOCATE is guarded by two counters that are globals of the module, shared
by every process that calls it: the pages booked so far,
limited to `MAX_PAGES` = 4096, and the successful requests, limited to
`MAX_ALLOCATIONS` = 100. The handler then visits the pages of the range in
increasing address order. For each page it walks the four-level page table
and decides on the leaf entry:

- an empty leaf gets a new zeroed page, read-write iff the request asks for it;
- a present leaf aborts the request with `-1`;
- a leaf that is recorded but not present is skipped.

The first fault returns at once. Pages mapped before it stay mapped, and the
counters are booked only when every page succeeded.

The model is functional. The state is the two counters plus a map from
virtual page number to leaf `Entry`. One call is a pure function
`Memalloc.Dispatch` that returns the status and the new state. The page loop
is recursion over the page index (`Mapping.MapFrom`).

Modules, one per component:

- `Wrappers` (wrappers.dfy): `Option`.
- `PageTable` (page_table.dfy): leaf entries, page-number arithmetic, and the
  walk oracle.
- `Quota` (quota.dfy): the ceilings, the admission check and the commit.
- `Mapping` (mapping.dfy): the per-page decision and the loop. It also holds
  a reference definition, `FaultAt` and `Installed`, written by cases and
  independent of the per-page step. It decides each page on its own against
  the state before the request; page k's allocator call is numbered by the
  empty pages in front of it (`EmptyBefore`). `Mapping.MapRangeMatchesReference`
  proves the loop equal to that reference, using the contract of
  `Mapping.MapPage`.
- `Memalloc` (memalloc.dfy): the ioctl dispatch, and lemmas over single calls
  and over runs of calls.

Abstractions, all passed in as parameters:

- The page-table walk is a `Walker` with two sets of page numbers. One set
  holds the pages whose top-level entry is none or bad (`-EFAULT` before
  anything is created). The other holds the pages whose leaf pointer is still
  null after the intermediate levels (`-EFAULT`). Creating an intermediate
  level cannot fail in the model, because the handler ignores the result of
  the creation calls.
- The zeroed-page allocator is a sequence of `Option<frame>`. The n-th
  allocator call of a request receives its n-th element. Calls past its end
  fail.
- A faulting `copy_from_user` is an argument of `None`, answered with
  `-EFAULT` and no state change.
- Status codes use the Linux errno values EFAULT = 14, ENOMEM = 12 and
  EINVAL = 22.
- A page is 4096 bytes (x86-64). Page i of a request is the page holding
  address `vaddr + i*4096`; `PageTable.PageNumberOfPageAddress` shows this is
  `vaddr/4096 + i` for any offset of `vaddr`.

Three behaviours of the code that the model keeps:

- The return values of the three intermediate-level creation calls
  (memalloc/memalloc-main.c:137, 144, 151) are ignored, so the walk has no
  creation error: a page either fails at its top-level entry, fails at its
  leaf pointer, or reaches its leaf.
- The page count is a C `int` that the handler never checks for sign. A
  negative count visits no page and still books the request, which lowers
  the page counter. The counter-invariant lemmas assume non-negative counts
  (`Memalloc.NonNegativeCount`).
- Besides empty and present, a leaf can be recorded but not present (a swap
  entry, say). Such a page is skipped silently and still counts toward the
  booked pages.

## Model

| member | source | states |
|---|---|---|
| PageTable.Install | memalloc/memalloc-main.c:177 | installing a leaf entry sets that page's entry and leaves every other page's entry as it was |
| PageTable.PageNumberOfPageAddress | memalloc/memalloc-main.c:124 | the address `vaddr + i*PAGE_SIZE` lies in page `vaddr/PAGE_SIZE + i`, so the pages of a range are consecutive and distinct |
| PageTable.Walk | memalloc/memalloc-main.c:129-159 | the walk reaches the leaf iff the outer entry is valid and the leaf pointer resolves; a bad outer entry is reported before anything else |
| Quota.Admit | memalloc/memalloc-main.c:110-117 | the page ceiling is exceeded iff booked + requested > 4096; the request ceiling rejects iff the page check passed and 100 requests are booked; admission implies fewer than 100 requests |
| Quota.Commit | memalloc/memalloc-main.c:191-193 | booking always uses up a request, and booking an admitted request of a non-negative count keeps both counters within their ceilings; the exact amounts booked are stated by Memalloc.Dispatch for a successful ALLOCATE |
| Quota.CommitKeepsCeilings | memalloc/memalloc-main.c:110-117 | booking an admitted request of a non-negative count keeps both counters within their ceilings and decreases neither |
| Mapping.PageOfHoldsPageAddress | memalloc/memalloc-main.c:123-124 | page i of the loop, `vaddr/PAGE_SIZE + i`, is the page holding the address `vaddr + i*PAGE_SIZE` the loop walks |
| Mapping.MapPage | memalloc/memalloc-main.c:129-187 | one page, every case: a bad outer entry gives BadOuterEntry and nothing else does; an unresolvable leaf behind a good outer entry gives UnresolvableLeaf and nothing else does; on a reachable leaf, present gives AlreadyMapped, empty with no frame gives OutOfMemory, empty with a frame steps and installs that frame writable iff requested using one allocator call, non-present steps with nothing changed; a step changes no other page |
| Mapping.MapFrom | memalloc/memalloc-main.c:123-189 | the loop can only stop on a page index inside the range |
| Mapping.MapRange | memalloc/memalloc-main.c:123 | the loop entered at page 0 with no allocator call made can only stop on a page index inside the range |
| Mapping.MapFromMatchesReference | memalloc/memalloc-main.c:123-189 | induction over the loop: started with the first i pages handled as the reference says, the loop ends as the reference says |
| Mapping.MapRangeMatchesReference | memalloc/memalloc-main.c:123-189 | the loop completes iff no page of the range faults; otherwise it stops at the first faulting page with that page's fault, pages before it are installed, and that page, all later pages and all pages outside the range are unchanged |
| Mapping.NoRollback | memalloc/memalloc-main.c:123-187 | after a fault at page j, the empty pages before j are present with their frames and requested permission, and pages j..n-1 are unchanged |
| Mapping.PresentPageAborts | memalloc/memalloc-main.c:181-185 | a range that contains a present page fails, at that page or earlier |
| Mapping.CompletedMapsRange | memalloc/memalloc-main.c:161-187 | on success no page of the range was present; every empty page is now present with its frame and the requested permission; every non-present page is left non-present |
| Mapping.PresentStaysPresent | memalloc/memalloc-main.c:181-185 | the loop never changes a present entry, whatever its outcome |
| Mapping.EmptyBeforeIncreases | memalloc/memalloc-main.c:162-164 | empty pages take allocator calls in page order, each page its own call |
| Memalloc.FaultStatus | memalloc/memalloc-main.c:129-185 | every loop fault is reported as a negative status distinct from the quota statuses; -1 exactly for a present page, -ENOMEM exactly for a failed page allocation, -EFAULT for the two walk faults |
| Memalloc.Dispatch | memalloc/memalloc-main.c:93-215 | counters change only on status 0; a successful ALLOCATE books exactly its page count and one request; page quota gives -2 and then request quota gives -3, both with no change; a faulting copy gives -EFAULT, FREE gives 0, an unknown command gives -EINVAL, all three with no change |
| Memalloc.AllocateMatchesReference | memalloc/memalloc-main.c:110-196 | an admitted allocation succeeds iff no page faults; on failure the status is that of the first faulting page, earlier pages stay installed, later ones untouched |
| Memalloc.AllocateSucceeds | memalloc/memalloc-main.c:110-196 | an admitted request whose pages are all reachable and none present, with a frame from the allocator for each empty page, returns 0 |
| Memalloc.ZeroPageRequest | memalloc/memalloc-main.c:123-193 | an admitted request of zero pages returns 0, maps nothing and still uses up one request |
| Memalloc.AlreadyMappedRejected | memalloc/memalloc-main.c:181-185 | a request over a present page fails, leaves that page and the counters alone, and returns -1 when nothing before it faulted and the walk reached it |
| Memalloc.DispatchKeepsCeilings | memalloc/memalloc-main.c:110-193 | one call with a non-negative count keeps the counters within 0..4096 and 0..100 |
| Memalloc.ReplayKeepsCeilings | memalloc/memalloc-main.c:110-193 | any run of calls with non-negative counts keeps the counters within their ceilings |
| Memalloc.RequestsCountSuccesses | memalloc/memalloc-main.c:191-214 | the request counter grows by exactly the number of successful allocations; FREE never gives one back |
| Memalloc.ReplayKeepsPresent | memalloc/memalloc-main.c:181-207 | once a page is present, no run of calls changes its entry |
| Memalloc.RequestQuotaExhausted | memalloc/memalloc-main.c:114-117 | after 100 successful allocations from the initial state, every further allocation is refused by a quota |
| Memalloc.TwoFreshPages | memalloc/memalloc-main.c:123-193 | two writable pages at 0x1000 on an empty address space become present read-write with the allocator's frames, and the counters become 2 pages, 1 request |

## Left out

- Module init and exit and the character-device setup (`memalloc_module_init`, `memalloc_module_exit`, `memalloc_ioctl_init`, `memalloc_ioctl_teardown`): kernel registration plumbing with no bearing on the allocation logic.
- `copy_from_user`: a foreign user-to-kernel copy. Only its failure is kept, as a `None` argument.
- `printk` logging: it has no effect on state or status.
- The page-table primitives (`pgd_offset`, `p4d_offset`, `pud_offset`, `pmd_offset`, the `memalloc_*_alloc` helpers of an unseen header, `pte_offset_kernel`, `set_pte_at`, `__pa`, `pfn_pte`) are replaced by the `Walker` oracle and the page map. The intermediate tables a walk creates are not part of the state. This includes the tables created for a page whose request later fails.
- `get_zeroed_page` is the `frames` oracle. Distinct frames and zeroed contents are not modelled.
- The architecture-specific permission bits: a `writable` flag stands for them.
- Concurrency: the counters are unlocked globals in the driver. The model runs calls one at a time.
- Memalloc.Replay: a run of calls threads one map of leaf entries through every call, so the run-of-calls lemmas (`ReplayKeepsCeilings`, `RequestsCountSuccesses`, `ReplayKeepsPresent`) describe one process calling the device with nothing else changing its page table. The driver writes the page table of whichever process calls it, while the counters are shared by all callers. Other processes' page tables, and unmapping or exit of the calling process, are not modelled.
- Memalloc.Dispatch: does not model C `int` overflow of `total_pages_allocated + num_pages` or of the counters, nor `unsigned long` wrap-around of `vaddr + i*PAGE_SIZE`, because integers are unbounded here.
- FREE's release of a mapping: the handler only copies and logs the address, so there is no behaviour to model beyond status 0 and no change.
