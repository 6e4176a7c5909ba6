# Pintos virtual memory: supplemental page table, anonymous and file-backed pages

This project models the demand-paging layer of a KAIST Pintos kernel
(`vm/vm.c`, `vm/anon.c`, `vm/file.c`) in Dafny and proves properties of it.

- **Page descriptors.** Each process keeps a supplemental page table. It maps
  every user page address to a page descriptor.
- **Lazy pages.** A descriptor starts out lazy (an `uninit` page). It carries
  the type it will become (anonymous or file-backed), an optional loader and
  the loader's `aux` record.
- **Claiming.** A page fault or an explicit claim gives the page a new
  physical frame and maps it in the hardware page table (`pml4`). Then the
  page's `swap_in` populates the frame:
  - a lazy page runs its type's initializer and its loader;
  - an anonymous page is read back from its swap slot;
  - a file page is handed to the file loader.
- **Swap.** Anonymous pages are swapped out to a swap disk. The disk is
  divided into slots of eight 512-byte sectors. A fixed array of 10000
  occupancy flags tracks the slots, and swap-out takes the lowest free one.
- **mmap / munmap.** `mmap` splits a file region into one lazy file page per
  page of address space. `munmap` walks the run of file pages back,
  writing dirty ones back to the file.
- **Fork.** The copy of a supplemental page table rebuilds every parent page
  in the child:
  - lazy pages stay lazy, always as anonymous pages;
  - anonymous pages get a frame of their own holding the parent's bytes;
  - file pages share the parent's frame.

Modules, one per file:

- VmTypes (`vm_types.dfy`): the entities. These are the page variants, the
  `Page` and `Frame` classes, the page table reduced to its entries, and the
  `threads/vaddr.h` arithmetic.
- Spt (`spt.dfy`): the supplemental page table as a class over a map keyed
  by page address, with lookup, insertion and lazy page creation.
- Anon (`anon.dfy`): the swap disk and slot table as a class over an
  `array<bool>`, plus the anonymous page operations.
- FileBacked (`file.dfy`): the file page operations, `do_mmap` and
  `do_munmap`.
- Vm (`vm.dfy`): frame allocation, claiming, the fault handler and the
  table copy.

Outside effects become parameters:

- `loadOk` is the outcome of the loader code that is not part of this model.
- `openFile` and `fileLength` describe the reopened file.
- Write-backs to a file are returned as `FileWrite` records, not performed.

## Model

| member | source | states |
|---|---|---|
| VmTypes.PgRoundDown | vm/vm.c:99 | the result is page-aligned and is the start of the page that holds the address |
| VmTypes.PgRoundDownOfOffset | vm/vm.c:190 | every address inside an aligned page rounds down to that page |
| VmTypes.Populated | vm/vm.c:240 | after swap_in a page is no longer lazy, and an anonymous page holds no swap slot (index -1) |
| VmTypes.PopulatedKeepsType | vm/vm.c:34-43 | page_get_type (VmTypes.PageGetType) gives a lazy page's eventual type: populating the page never changes it, and it is never UNINIT |
| VmTypes.Frame.constructor | vm/vm.c:158-160 | a new frame backs no page and holds one page of bytes |
| VmTypes.Page.constructor | vm/vm.c:74-75 | uninit_new plus the writable flag: the given address, flag and variant, with no frame |
| VmTypes.PageTable.SetPage | vm/vm.c:237 | pml4_set_page installs a clean mapping with the writable flag at the address and changes no other entry |
| VmTypes.PageTable.ClearPage | vm/file.c:62 | pml4_clear_page removes exactly that address's mapping, so the page is no longer dirty |
| Spt.MyHashLessIsStrictOrder | vm/vm.c:322-327 | my_hash_less (Spt.MyHashLess, the comparison of page addresses) is irreflexive, transitive and asymmetric, and two descriptors are incomparable exactly when their addresses are equal |
| Spt.SupplementalPageTable.constructor | vm/vm.c:244-247 | supplemental_page_table_init gives an empty table |
| Spt.SupplementalPageTable.Find | vm/vm.c:86-106 | spt_find_page returns the descriptor filed under the rounded-down address, and returns None exactly when there is none |
| Spt.SupplementalPageTable.FindWithinPage | vm/vm.c:99-105 | every address inside a page finds the same descriptor as the page's own address, and finds one exactly when the page is in the table |
| Spt.SupplementalPageTable.Insert | vm/vm.c:109-117 | insertion succeeds exactly when no entry compares equal under my_hash_less, which is exactly when the address is free; a refused insertion changes nothing |
| Spt.SupplementalPageTable.AllocPageWithInitializer | vm/vm.c:53-83 | succeeds exactly when the address is free; on success it adds one fresh lazy descriptor with the given type, loader, aux and writable flag and changes nothing else; on failure the table is unchanged |
| Spt.SupplementalPageTable.Delete | vm/file.c:110-114 | the page being unmapped leaves the table, and every other entry stays as it was |
| Anon.SlotSector | vm/anon.c:51-52 | part ds of slot i is sector 8*i+ds, which lies inside slot i's eight sectors |
| Anon.SlotSectorsDisjoint | vm/anon.c:69-70 | no two slots share a sector, and the parts of one slot use distinct sectors |
| Anon.WriteSlotFrame | vm/anon.c:69-71 | writing a slot changes only that slot's eight sectors, and each one receives its 512-byte part of the page |
| Anon.SlotRoundTrip | vm/anon.c:51-53 | reading a slot back after writing a page into it yields exactly that page |
| Anon.AnonInitializer | vm/anon.c:35-43 | the page becomes anonymous with swap index -1, and its frame is untouched |
| Anon.SwapTable.constructor | vm/anon.c:22-32 | vm_anon_init: a disk of n sectors gives n/8 slots, and all of them start free |
| Anon.SwapTable.LowestFreeSlot | vm/anon.c:67-68 | returns the lowest free slot, or None exactly when every slot is occupied |
| Anon.SwapTable.SwapOut | vm/anon.c:62-82 | succeeds exactly when some slot is free. On success: the page's bytes go to the lowest free slot; only that slot becomes occupied; the page records the slot; page and frame are unlinked and the frame keeps its bytes; the mapping is cleared. On failure nothing changes |
| Anon.SwapTable.SwapIn | vm/anon.c:46-59 | the frame receives the bytes stored in the page's slot, only that slot is freed, and the page's index is reset to -1 |
| Anon.SwapTable.Destroy | vm/anon.c:85-93 | a page with index -1 changes nothing; otherwise exactly its slot is freed |
| Anon.SwapTable.SwapRoundTrip | vm/anon.c:62-82 | a swap-out followed by a swap-in restores the occupancy array and reproduces the page's bytes in the new frame |
| FileBacked.FileBackedInitializer | vm/file.c:28-39 | the page becomes a file page whose file, offset, read and zero byte counts are those of the load record it carried |
| FileBacked.FileBackedDestroy | vm/file.c:55-63 | the page is written back exactly when its mapping was dirty (read_bytes bytes from its address at its file offset, as FileBacked.WriteBackOf records), and its mapping is cleared |
| FileBacked.MmapPageCountBound | vm/file.c:78-98 | page k belongs to an n-byte mapping exactly when k*PGSIZE < n |
| FileBacked.MmapReadBytes | vm/file.c:83-90 | every page reads between 1 and PGSIZE bytes, and reads a whole page exactly when the region extends to the page's end |
| FileBacked.MmapLoadInfo | vm/file.c:79-90 | each page's read and zero byte counts add up to PGSIZE |
| FileBacked.MmapFullPages | vm/file.c:83-86 | every page except the last reads a whole page and zero-fills nothing |
| FileBacked.MmapLastPage | vm/file.c:74 | the last page reads n % PGSIZE bytes and zero-fills the rest of the page, or reads a whole page when n is a multiple of PGSIZE |
| FileBacked.MmapReadPrefix | vm/file.c:78-98 | the first k pages together read min(n, k*PGSIZE) bytes |
| FileBacked.MmapReadsWholeRegion | vm/file.c:73 | all pages together read exactly the min(length, file length) bytes of the region |
| FileBacked.MmapRemainingAfterPass | vm/file.c:96 | each pass strictly decreases the remaining-byte counter until it reaches zero |
| FileBacked.MmapPasses | vm/file.c:78-98 | the loop runs exactly ceil(n/PGSIZE) passes: the counter is n-k*PGSIZE before pass k and stays positive exactly until then |
| FileBacked.AsWrittenRemainingAfterPass | vm/file.c:96 | the counter as written: a size_t subtraction modulo 2^64, exact while at least a page remains |
| FileBacked.AsWrittenMmapOverruns | vm/file.c:96 | a 5000-byte region spans two pages, but the wrapped counter after two passes is 2^64-3192, not zero |
| FileBacked.MmapPassSplit | vm/file.c:83-90 | the split one pass computes (a whole page, or the rest plus the zero bytes computed before the loop) is the load record of that page of the mapping |
| FileBacked.MmapPass | vm/file.c:79-98 | one pass succeeds exactly when the page's address is free in the original table; it then adds one fresh lazy file descriptor carrying that page's load record |
| FileBacked.DoMmap | vm/file.c:66-102 | rejects an address below 0x1000 or a zero length and creates nothing. Otherwise it creates the mapping's pages in order, each a fresh lazy file page with its own offset and read/zero split, and leaves existing entries untouched. It stops at the first taken address. It returns the given address exactly when all ceil(n/PGSIZE) pages were created |
| FileBacked.FreshAddressOfRun | vm/file.c:92 | the next page of the mapping is free in the grown table exactly when it was free in the original table |
| FileBacked.UnmapPage | vm/file.c:111 | destroying a file page writes it back if dirty, removes its entry from the table, removes a loaded page's own mapping and touches no other mapping |
| FileBacked.AsWrittenMunmapDestroysNull | vm/file.c:110-114 | the loop as written makes one pass per table entry and destroys what each lookup at addr + k*PGSIZE returns: with a one-page mapping at 0x1000 and one unrelated page, the second pass hands destroy() NULL |
| FileBacked.MunmapPass | vm/file.c:111-113 | one pass of the walk destroys and drops the next file page of the run, extending the walk's progress (write-back recorded, loaded mapping cleared) by one page |
| FileBacked.DoMunmap | vm/file.c:105-115 | fails exactly when no file page holds the address, and then changes nothing. Otherwise it removes at least one page: the contiguous run of file pages from the page holding the address, up to the first address without a file page. Each removed page's write-back is recorded, each removed loaded page's mapping is cleared, and no other mapping is touched |
| Vm.GetFrame | vm/vm.c:148-170 | a new frame that backs no page and holds one page of bytes, with nothing promised about them (the page is allocated without PAL_ZERO) |
| Vm.DoClaimPage | vm/vm.c:228-241 | the page gets a fresh frame linked both ways and a clean mapping. Its variant becomes the populated one. The result is exactly the swap_in outcome of its variant. An anonymous page reads its slot back and frees only that slot |
| Vm.ClaimPage | vm/vm.c:219-225 | an address with no descriptor fails and changes nothing. Otherwise the found page is claimed as in DoClaimPage: a fresh frame linked both ways, a clean mapping, the populated variant, and ok exactly when its swap_in succeeds. An anonymous page's frame receives its slot's bytes and only that slot is freed; for any other page the swap table is unchanged |
| Vm.FaultPage | vm/vm.c:190-199 | validation rejects exactly the null page, kernel addresses and addresses without a descriptor; an accepted fault's page is a user page containing the faulting address |
| Vm.FaultWithinPage | vm/vm.c:190-199 | a fault anywhere in a page is validated as a fault on that page, and it is accepted exactly for a non-null user page below KERN_BASE that has a descriptor |
| Vm.AsWrittenResidentAnonFault | vm/vm.c:190-207 | as written, a fault anywhere on a resident anonymous page (index -1) passes validation and reaches anon_swap_in with index -1, whose sectors 8*(-1)+ds are all negative; the page is not claimable |
| Vm.TryHandleFault | vm/vm.c:183-208 | a fault that fails validation, or that hits a page already resident, is not handled and changes nothing. Otherwise the page is claimed: a fresh frame of one page linked both ways, a clean mapping, the populated variant, and the fault is handled exactly when the claim succeeds. A swapped-out anonymous page's frame receives its slot's bytes and only that slot is freed; a lazy or file page leaves the swap table unchanged |
| Vm.CopyPage | vm/vm.c:259-297 | fails and changes nothing exactly when the child already has the address. On success it adds one fresh descriptor copied by type (CopiedFrom, FrameCopied) and maps exactly the pages that are not lazy |
| Vm.CopyStart | vm/vm.c:255-256 | before the walk, nothing has been copied and the child's tables are unchanged |
| Vm.CopiedEntriesStep | vm/vm.c:295 | copying one more page adds its mapping to the child's page table, and only when the page is not lazy |
| Vm.CopyStep | vm/vm.c:258-302 | copying one more parent page keeps the copy's progress invariant |
| Vm.CopyWalkClash | vm/vm.c:269-289 | a walk that fails at an address proves that the child already held a parent address |
| Vm.CopyWalkDone | vm/vm.c:303 | a finished walk has copied every parent address, and none of them was in the child's table |
| Vm.CopyWalkStep | vm/vm.c:258-302 | one successful pass moves its address from the to-do set to the copied set and keeps the walk's state |
| Vm.CopyPass | vm/vm.c:258-302 | one pass succeeds exactly when the child lacks the address, and then extends the copy by one fresh descriptor whose frame holds the parent's bytes (anonymous pages) |
| Vm.SupplementalPageTableCopy | vm/vm.c:250-304 | succeeds exactly when no parent address is already in the child, and then copies every parent page. In all cases: the child's existing entries are untouched; each new entry is a per-type copy in a descriptor shared with neither table; the page table gains exactly the mappings of non-lazy copies; anonymous copies hold the parent's bytes; the swap table is unchanged |

## Left out

- Disk and file I/O are abstracted:
  - the swap disk is a sequence of sectors; its initial bytes are not modelled (the constructor starts it zeroed, and no contract relies on that);
  - `file_write_at` is returned as a `FileWrite` record;
  - `file_open` and `file_length` are the `openFile` and `fileLength` parameters.
- Locks are left out, and so is concurrency in general: the swap table lock and the commented-out frame table lock.
- Frame eviction is not modelled (`vm_get_victim`, `vm_evict_frame`). `palloc_get_page` running out of pages is a kernel panic, so `Vm.GetFrame` always succeeds.
- Several stubs have no behaviour to model: `vm_stack_growth`, `vm_handle_wp`, `vm_file_init`, `file_backed_swap_out`.
- `file_backed_swap_in` has no return statement. Its outcome and that of `lazy_load_segment` (the process loader, not part of this model) are the `loadOk` parameter, and the frame's content after a loader is left unspecified.
- uninit.c is not part of this model. `uninit_initialize` is taken to run the type's initializer and then the loader, if there is one, succeeding when both do.
- The following tear-down paths are not modelled: `supplemental_page_table_kill`, `hash_page_kill`, `spt_remove_page` and `vm_dealloc_page`.
- The following are not modelled: `vm_init`, the frame table and `my_hash_func`/`hash_int`. The hash table is modelled as a map keyed by the page address. `Spt.MyHashLessIsStrictOrder` is what justifies that key.
- `pml4` is reduced to its user entries with their writable and dirty bits. `pml4_set_page` is taken to succeed: its failure is a kernel panic in `vm_do_claim_page` (vm/vm.c:237).
- Vm.CopyPage: the `pml4_set_page` call for a file page (vm/vm.c:295) is taken to succeed, so the copy's `return false` on that failure is not modelled; page-table allocation is outside this model.
- The fault handler's `user`, `write` and `not_present` flags are not consulted by the source, and are not modelled.
- Vm.TryHandleFault: a fault on a page that is already resident is rejected, as the handler evidently intends; the source passes it to `vm_do_claim_page` (third row of the Findings table). Its precondition asks only that a page which is not resident be claimable.
- Vm.DoClaimPage requires the page to be claimable: a lazy page with a defined target, or an anonymous page that holds a swap slot. A resident anonymous page (index -1), which the source's fault handler would pass it, is excluded; Vm.AsWrittenResidentAnonFault shows what the source would then do.
- Vm.GetFrame: `palloc_get_page(PAL_USER)` does not zero the page, so a new frame's bytes are left unspecified, and nothing is promised about the content of a lazy anonymous page after a claim.
- `off_t` overflow of the mmap file offset is not modelled: offsets are unbounded integers.
- Two pointer slips are modelled as evidently intended, because their as-written effect is undefined memory access rather than program logic:
  - `malloc(sizeof(page))` in `spt_find_page` allocates a pointer's size for a whole descriptor;
  - `&page->uninit.aux` in `file_backed_initializer` reads the aux pointer's own storage as the load record.
- Anon.SwapTable.SwapOut: the bytes written to the slot are the frame's content. The source writes from the page's user address, which maps to that frame.
- Anon.SwapTable.SwapIn requires the page to hold a valid slot index, which the source does not check.
- Anon.SwapTable.constructor requires `diskSize / 8 <= 10000`, that is a disk of at most 80007 sectors. A larger disk would overrun the 10000-entry `swap_table` array.
- Vm.SupplementalPageTableCopy: the hash iteration order is left open, since the loop picks any unvisited address. Newness of the child's descriptors is stated as not being one of the parent's or the child's existing descriptors, rather than as freshly allocated.
- Vm.SupplementalPageTableCopy requires every key of the parent's table to be page-aligned. Pages created through `do_mmap` get whatever address the caller passed, since vm/file.c:69 does not check alignment; the copy of an unaligned key is not modelled.
- Vm.SupplementalPageTableCopy: the copied file page's frame keeps its link to the parent's page. The source never updates `frame->page`, and the model does not either.
- Vm.CopyPage: claiming the copy of an anonymous page always succeeds. A lazy anonymous page without a loader needs no loader outcome, so the `vm_claim_page` failure branch cannot be taken.
- Vm.DoClaimPage: the frame's content after a loader or a file swap-in is left unspecified (see `loadOk` above).
- FileBacked.DoMmap: the failure result `None` stands for the bare `return;` at vm/file.c:69, 70 and 92, which returns no value from a `void *` function; the caller sees an undefined pointer, not a defined error value.
- FileBacked.DoMunmap: an address whose page is not a file page is refused and nothing is unmapped. The source would destroy that page (for an anonymous page, free its swap slot) and then walk on.
- FileBacked.DoMunmap: the table records no bounds for a mapping, so the walk stops at the first address without a file page and also unmaps an adjacent file mapping that follows directly.

## Findings

| source | as written | input that shows it | evidently intended | confidence | as-written member | corrected member |
|---|---|---|---|---|---|---|
| vm/file.c:96 | `file_read_bytes -= PGSIZE` on a `size_t`, so a partial last page wraps the counter to about 2^64 instead of reaching zero, and the loop keeps creating pages | length 5000 and a file at least as long: after two passes the counter is 2^64-3192, so a third page is created | the loop stops after ceil(n/PGSIZE) pages | high (not executed) | FileBacked.AsWrittenRemainingAfterPass, FileBacked.AsWrittenMmapOverruns | FileBacked.MmapRemainingAfterPass, FileBacked.MmapPasses, FileBacked.DoMmap |
| vm/file.c:110-114 | the unmap loop runs `hash_size` times and removes nothing from the table, so it goes past the end of the mapping and hands `destroy` a NULL page | a one-page mapping at 0x1000 in a table that also holds 0x10000: the second pass looks up 0x2000, finds nothing, and calls destroy(NULL) | walk the contiguous file pages from the page holding addr, stop at the first address without a file page (the table keeps no mapping bounds, so an adjacent file mapping is walked too), and remove each page from the table | high (not executed) | FileBacked.AsWrittenMunmapDestroysNull | FileBacked.DoMunmap |
| vm/vm.c:190-207 | validation never consults `not_present`, so a fault on a resident page is claimed again; for an anonymous page `anon_swap_in` runs with swap index -1 (vm/anon.c:52, 54) | a write fault on a present read-only anonymous page at 0x1000: the handler claims it, reads sectors -8..-1 and clears `swap_table[-1]` | a fault on a page that already has a frame is rejected as a protection fault | medium (not executed) | Vm.AsWrittenResidentAnonFault | Vm.TryHandleFault |
