/**
 * The generic half of vm/vm.c that works on frames and the page table:
 * claiming a frame for a page, the fault handler's validation, and the
 * fork-time copy of a supplemental page table.
 */
module Vm {
  import opened VmTypes
  import opened Spt
  import opened Anon
  import opened FileBacked

  /**
   * vm_get_frame: a new frame backing no page. The user page comes from
   * palloc_get_page without PAL_ZERO, so its bytes are whatever the
   * allocator left there: the contract promises one page of bytes and
   * nothing about them. Running out of user pages is a kernel panic in the
   * source, so the model's allocation always succeeds.
   */
  method GetFrame() returns (frame: Frame)
    ensures fresh(frame) && frame.page == null && |frame.content| == PGSIZE
  {
    frame := new Frame();
  }

  /**
   * What claiming a page needs of its current state: a lazy page must be
   * populatable, and an anonymous page must hold a slot of the swap table
   * to read back.
   */
  predicate Claimable(v: Variant, swapSize: nat)
  {
    Populatable(v) && (v.AnonPage? ==> 0 <= v.swapIndex < swapSize)
  }

  /**
   * Whether the swap_in of a page with variant `v` reports success, given
   * the outcome `loadOk` of the loader code this model leaves out
   * (lazy_load_segment for lazy pages, the file_backed_swap_in stub for
   * file pages): a lazy page succeeds when its initializer does and it has
   * no loader or the loader succeeds; reading an anonymous page back from
   * swap always succeeds.
   */
  predicate SwapInSucceeds(v: Variant, loadOk: bool)
  {
    match v
    case UninitPage(_, init, _) => init == NoLoader || loadOk
    case AnonPage(_) => true
    case FilePage(_) => loadOk
  }

  /**
   * vm_do_claim_page: takes a new frame, links page and frame to each
   * other, maps the page in the page table and populates the frame through
   * the page's swap_in: a lazy page runs its type's initializer and its
   * loader, an anonymous page is read back from its swap slot (which is
   * freed), a file page is handed to the file swap-in.
   */
  method DoClaimPage(page: Page, swap: SwapTable, pml4: PageTable, loadOk: bool) returns (ok: bool)
    requires swap.Valid() && Claimable(page.variant, swap.size)
    modifies page, pml4, swap.slots
    ensures swap.Valid()
    ensures fresh(page.frame) && page.frame.page == page && |page.frame.content| == PGSIZE
    ensures page.variant == Populated(old(page.variant))
    ensures pml4.entries == old(pml4.entries)[page.va := Pte(page.writable, false)]
    ensures ok <==> SwapInSucceeds(old(page.variant), loadOk)
    ensures old(page.variant).AnonPage? ==>
              && page.frame.content == ReadSlot(swap.disk, old(page.variant.swapIndex))
              && swap.slots[..] == old(swap.slots[..])[old(page.variant.swapIndex) := false]
    ensures !old(page.variant).AnonPage? ==> swap.slots[..] == old(swap.slots[..])
  {
    var frame := GetFrame();
    frame.page := page;
    page.frame := frame;
    var mapped := pml4.SetPage(page.va, page.writable);
    match page.variant {
      case UninitPage(target, init, _) =>
        var initOk;
        if target == Anon {
          initOk := AnonInitializer(page);
        } else {
          initOk := FileBackedInitializer(page);
        }
        ok := initOk && (init == NoLoader || loadOk);
      case AnonPage(_) =>
        ok := swap.SwapIn(page, frame);
      case FilePage(_) =>
        ok := loadOk;
    }
  }

  /** The descriptors vm_claim_page may update: the one found for `va`, if any. */
  ghost function FoundPage(spt: SupplementalPageTable, va: nat): set<object>
    requires spt.Valid()
    reads spt
  {
    if spt.Find(va).Some? then {spt.Find(va).value} else {}
  }

  /**
   * vm_claim_page: claims the page that holds `va`; with no descriptor for
   * it, fails and changes nothing.
   */
  method ClaimPage(spt: SupplementalPageTable, va: nat, swap: SwapTable, pml4: PageTable, loadOk: bool)
    returns (ok: bool)
    requires spt.Valid() && swap.Valid()
    requires spt.Find(va).Some? ==> Claimable(spt.Find(va).value.variant, swap.size)
    modifies FoundPage(spt, va), pml4, swap.slots
    ensures swap.Valid()
    ensures spt.Find(va).None? ==> !ok && pml4.entries == old(pml4.entries) && swap.slots[..] == old(swap.slots[..])
    ensures spt.Find(va).Some? ==>
              var page := spt.Find(va).value;
              && fresh(page.frame) && page.frame.page == page && |page.frame.content| == PGSIZE
              && page.variant == Populated(old(page.variant))
              && pml4.entries == old(pml4.entries)[page.va := Pte(page.writable, false)]
              && (ok <==> SwapInSucceeds(old(page.variant), loadOk))
              && (old(page.variant).AnonPage? ==>
                    && page.frame.content == ReadSlot(swap.disk, old(page.variant.swapIndex))
                    && swap.slots[..] == old(swap.slots[..])[old(page.variant.swapIndex) := false])
              && (!old(page.variant).AnonPage? ==> swap.slots[..] == old(swap.slots[..]))
  {
    var found := spt.Find(va);
    if found.None? {
      return false;
    }
    ok := DoClaimPage(found.value, swap, pml4, loadOk);
  }

  /**
   * The validation half of vm_try_handle_fault: the descriptor of the
   * faulting page, or None when the rounded-down address is null, is a
   * kernel address or has no descriptor.
   */
  function FaultPage(spt: SupplementalPageTable, addr: nat): (r: Option<Page>)
    requires spt.Valid()
    reads spt
    ensures r.None? <==> PgRoundDown(addr) == 0 || IsKernelVaddr(PgRoundDown(addr))
                         || spt.Find(addr).None?
    ensures r.Some? ==> r == spt.Find(addr) && 0 < r.value.va < KERN_BASE
                        && r.value.va <= addr < r.value.va + PGSIZE
  {
    var va := PgRoundDown(addr);
    if va == 0 then None
    else if IsKernelVaddr(va) then None
    else spt.Find(va)
  }

  /**
   * A fault anywhere inside a page is validated as a fault on the page
   * itself, and is accepted exactly when the page is a user page below
   * KERN_BASE, other than page 0, with a descriptor in the table.
   */
  lemma FaultWithinPage(spt: SupplementalPageTable, base: nat, off: nat)
    requires spt.Valid() && IsPageAligned(base) && off < PGSIZE
    ensures FaultPage(spt, base + off) == FaultPage(spt, base)
    ensures FaultPage(spt, base).Some? <==> 0 < base < KERN_BASE && base in spt.pages
  {
    PgRoundDownOfOffset(base, off);
    PgRoundDownOfOffset(base, 0);
    spt.FindWithinPage(base, off);
  }

  /**
   * The swap index vm_try_handle_fault as written hands to anon_swap_in: the
   * validation never consults `write` or `not_present`, so a fault on any
   * anonymous page that has a descriptor, resident or not, is claimed again
   * and its index is used to address the swap disk.
   */
  function AsWrittenFaultSwapIndex(spt: SupplementalPageTable, addr: nat): Option<int>
    requires spt.Valid()
    reads spt, spt.pages.Values
  {
    match FaultPage(spt, addr)
    case None => None
    case Some(page) => if page.variant.AnonPage? then Some(page.variant.swapIndex) else None
  }

  /**
   * A fault anywhere on a resident anonymous page (a claim leaves every
   * anonymous page with index -1) passes the handler's validation as
   * written and reaches anon_swap_in with index -1: it would read the
   * sectors -8 .. -1 and clear swap_table[-1], both outside the disk and the
   * array, and the page is not one vm_do_claim_page can claim.
   */
  lemma AsWrittenResidentAnonFault(spt: SupplementalPageTable, swap: SwapTable, base: nat, off: nat)
    requires spt.Valid() && swap.Valid() && IsPageAligned(base) && 0 < base < KERN_BASE && off < PGSIZE
    requires base in spt.pages && spt.pages[base].variant == AnonPage(-1) && spt.pages[base].frame != null
    ensures AsWrittenFaultSwapIndex(spt, base + off) == Some(-1)
    ensures !Claimable(spt.pages[base].variant, swap.size)
    ensures forall ds :: 0 <= ds < SECTORS_PER_SLOT ==> AsWrittenSwapSector(-1, ds) < 0
  {
    FaultWithinPage(spt, base, off);
  }

  /**
   * vm_try_handle_fault, with the present-page check the handler evidently
   * needs: a fault that fails validation, or that hits a page which is
   * already resident (it has a frame, so the fault was a protection fault,
   * not a missing page), is not handled and changes nothing; otherwise the
   * faulting page is claimed and the fault is handled exactly when the
   * claim succeeds. The fault's user and write flags are not consulted.
   */
  method TryHandleFault(spt: SupplementalPageTable, addr: nat, swap: SwapTable, pml4: PageTable, loadOk: bool)
    returns (ok: bool)
    requires spt.Valid() && swap.Valid()
    requires FaultPage(spt, addr).Some? && FaultPage(spt, addr).value.frame == null ==>
               Claimable(FaultPage(spt, addr).value.variant, swap.size)
    modifies FoundPage(spt, addr), pml4, swap.slots
    ensures swap.Valid()
    ensures FaultPage(spt, addr).None? ==>
              !ok && pml4.entries == old(pml4.entries) && swap.slots[..] == old(swap.slots[..])
    ensures FaultPage(spt, addr).Some? ==>
              var page := FaultPage(spt, addr).value;
              old(page.frame) != null ==>
                && !ok && page.frame == old(page.frame) && page.variant == old(page.variant)
                && pml4.entries == old(pml4.entries) && swap.slots[..] == old(swap.slots[..])
    ensures FaultPage(spt, addr).Some? ==>
              var page := FaultPage(spt, addr).value;
              old(page.frame) == null ==>
                && fresh(page.frame) && page.frame.page == page && |page.frame.content| == PGSIZE
                && page.variant == Populated(old(page.variant))
                && pml4.entries == old(pml4.entries)[page.va := Pte(page.writable, false)]
                && (ok <==> SwapInSucceeds(old(page.variant), loadOk))
                && (old(page.variant).AnonPage? ==>
                      && page.frame.content == ReadSlot(swap.disk, old(page.variant.swapIndex))
                      && swap.slots[..] == old(swap.slots[..])[old(page.variant.swapIndex) := false])
                && (!old(page.variant).AnonPage? ==> swap.slots[..] == old(swap.slots[..]))
  {
    var va := PgRoundDown(addr);
    if va == 0 {
      return false;
    }
    if IsKernelVaddr(va) {
      return false;
    }
    var page := spt.Find(va);
    if page.None? {
      return false;
    }
    if page.value.frame != null {
      return false;
    }
    ok := DoClaimPage(page.value, swap, pml4, loadOk);
  }

  /**
   * The child's descriptor `d` as supplemental_page_table_copy makes it
   * from the parent's `s`: same address and writable flag; a lazy page
   * stays lazy with the same loader and aux but always as an anonymous
   * page; an anonymous page is claimed into a frame of its own, not the
   * parent's (FrameCopied says what that frame holds); a file page becomes
   * a loaded file page with the parent's file record and shares the
   * parent's frame.
   */
  ghost predicate CopiedFrom(d: Page, s: Page)
    reads d, s
  {
    && d.va == s.va && d.writable == s.writable
    && match s.variant
       case UninitPage(_, init, aux) => d.variant == UninitPage(Anon, init, aux) && d.frame == null
       case AnonPage(_) => d.variant == AnonPage(-1) && d.frame != null && s.frame != null && d.frame != s.frame
       case FilePage(info) => d.variant == FilePage(info) && d.frame == s.frame
  }

  /**
   * The frame of the child's copy `d` of an anonymous parent page `s`: it
   * backs `d` and holds the parent's bytes (the memcpy of the copy).
   */
  ghost predicate FrameCopied(d: Page, s: Page)
    reads d, s, d.frame, s.frame
  {
    s.variant.AnonPage? ==>
      d.frame != null && s.frame != null && d.frame.page == d && d.frame.content == s.frame.content
  }

  /** What the copy needs of a parent page: a resident frame, unless the page is still lazy. */
  ghost predicate Copyable(s: Page)
    reads s
  {
    !s.variant.UninitPage? ==> s.frame != null
  }

  /** The page-table entry the copy installs for a parent page, if any: none for a lazy page. */
  function CopyMapping(s: Variant, writable: bool): Option<Pte>
  {
    if s.UninitPage? then None else Some(Pte(writable, false))
  }

  /**
   * One pass of supplemental_page_table_copy's loop, for the parent page
   * `s`: it creates the child's descriptor at s.va and, by type, claims and
   * fills it (anonymous) or loads and maps it over the parent's frame
   * (file). It fails, changing nothing, exactly when the child already has
   * a page there.
   */
  method CopyPage(dst: SupplementalPageTable, s: Page, swap: SwapTable, pml4: PageTable) returns (ok: bool)
    requires dst.Valid() && swap.Valid() && IsPageAligned(s.va) && Copyable(s)
    modifies dst, pml4, swap.slots
    ensures dst.Valid() && swap.Valid()
    ensures ok <==> s.va !in old(dst.pages)
    ensures !ok ==> dst.pages == old(dst.pages) && pml4.entries == old(pml4.entries)
    ensures ok ==> s.va in dst.pages && fresh(dst.pages[s.va])
                   && dst.pages == old(dst.pages)[s.va := dst.pages[s.va]]
                   && CopiedFrom(dst.pages[s.va], s) && FrameCopied(dst.pages[s.va], s)
    ensures ok ==> pml4.entries == match CopyMapping(s.variant, s.writable)
                                   case None => old(pml4.entries)
                                   case Some(pte) => old(pml4.entries)[s.va := pte]
    ensures swap.slots[..] == old(swap.slots[..])
  {
    var va := s.va;
    var writable := s.writable;
    PgRoundDownOfOffset(va, 0);
    match s.variant {
      case UninitPage(_, init, aux) =>
        ok := dst.AllocPageWithInitializer(Anon, va, writable, init, aux);
      case AnonPage(_) =>
        ok := dst.AllocPageWithInitializer(Anon, va, writable, NoLoader, NullAux);
        if !ok {
          return;
        }
        assert FoundPage(dst, va) == {dst.pages[va]};
        var claimed := ClaimPage(dst, va, swap, pml4, true);
        assert claimed;
        var page := dst.pages[va];
        page.frame.content := s.frame.content;
      case FilePage(info) =>
        ok := dst.AllocPageWithInitializer(VmType.File, va, writable, NoLoader, LoadAux(info));
        if !ok {
          return;
        }
        var page := dst.pages[va];
        var loaded := FileBackedInitializer(page);
        page.frame := s.frame;
        var mapped := pml4.SetPage(va, s.writable);
    }
  }

  /** The parent addresses among `done` whose copies get a mapping: every page that is not lazy. */
  ghost function MappedBy(src: map<nat, Page>, done: set<nat>): set<nat>
    reads src.Values
  {
    set v | v in done && v in src && !src[v].variant.UninitPage?
  }

  /** The child's page table once the pages `done` have been copied into it from `entries0`. */
  ghost function CopiedEntries(entries0: map<nat, Pte>, src: map<nat, Page>, done: set<nat>): map<nat, Pte>
    reads src.Values
  {
    map v | v in entries0.Keys + MappedBy(src, done) ::
      if v in MappedBy(src, done) then Pte(src[v].writable, false) else entries0[v]
  }

  /**
   * supplemental_page_table_copy's progress once the parent pages `done`
   * are copied: each had no page in the child's original table `dst0`, now
   * has its copy there, the original entries are untouched, and the page
   * table maps exactly the copies that are not lazy besides what it mapped.
   */
  ghost predicate CopyProgress(src: map<nat, Page>, dst0: map<nat, Page>, entries0: map<nat, Pte>,
                               done: set<nat>, dst: map<nat, Page>, entries: map<nat, Pte>)
    reads src.Values, dst.Values
  {
    && done <= src.Keys
    && dst.Keys == dst0.Keys + done
    && (forall v :: v in done ==> v !in dst0)
    && (forall v :: v in dst0 ==> dst[v] == dst0[v])
    && (forall v :: v in done ==> CopiedFrom(dst[v], src[v]))
    && entries == CopiedEntries(entries0, src, done)
  }

  /** Before the walk nothing is copied: the child's table and page table are as they were. */
  lemma CopyStart(src: map<nat, Page>, dst0: map<nat, Page>, entries0: map<nat, Pte>)
    ensures CopyProgress(src, dst0, entries0, {}, dst0, entries0)
  {
    assert MappedBy(src, {}) == {};
    assert CopiedEntries(entries0, src, {}) == entries0;
  }

  /**
   * Copying one more parent page adds its mapping to the child's page
   * table, and only when the page is not lazy.
   */
  lemma CopiedEntriesStep(entries0: map<nat, Pte>, src: map<nat, Page>, done: set<nat>, va: nat)
    requires va in src && va !in done
    ensures CopiedEntries(entries0, src, done + {va})
            == match CopyMapping(src[va].variant, src[va].writable)
               case None => CopiedEntries(entries0, src, done)
               case Some(pte) => CopiedEntries(entries0, src, done)[va := pte]
  {
    if src[va].variant.UninitPage? {
      assert MappedBy(src, done + {va}) == MappedBy(src, done);
    } else {
      assert MappedBy(src, done + {va}) == MappedBy(src, done) + {va};
    }
  }

  /** Copying one more parent page keeps the copy's progress invariant. */
  lemma CopyStep(src: map<nat, Page>, dst0: map<nat, Page>, entries0: map<nat, Pte>,
                 done: set<nat>, dst: map<nat, Page>, entries: map<nat, Pte>,
                 va: nat, p: Page, entries': map<nat, Pte>)
    requires CopyProgress(src, dst0, entries0, done, dst, entries)
    requires va in src && va !in dst && CopiedFrom(p, src[va])
    requires entries' == match CopyMapping(src[va].variant, src[va].writable)
                         case None => entries
                         case Some(pte) => entries[va := pte]
    ensures CopyProgress(src, dst0, entries0, done + {va}, dst[va := p], entries')
  {
    CopiedEntriesStep(entries0, src, done, va);
    forall v | v in done
      ensures CopiedFrom(dst[va := p][v], src[v])
    {
      assert dst[va := p][v] == dst[v];
    }
  }

  /**
   * The state of supplemental_page_table_copy's walk: the parent addresses
   * split into those still to visit (`todo`) and those copied; the copy's
   * progress over the copied ones; every parent page copyable; every new
   * descriptor of the child's an object of its own, neither one of the
   * parent's nor one the child already had; and the swap table as it was.
   */
  ghost predicate CopyWalk(src: map<nat, Page>, dst0: map<nat, Page>, entries0: map<nat, Pte>, slots0: seq<bool>,
                           todo: set<nat>, copied: set<nat>, dst: map<nat, Page>, entries: map<nat, Pte>, slots: seq<bool>)
    reads src.Values, dst.Values
  {
    && todo !! copied && todo + copied == src.Keys
    && (forall va :: va in src ==> Copyable(src[va]))
    && CopyProgress(src, dst0, entries0, copied, dst, entries)
    && (forall v :: v in dst && v !in dst0 ==> dst[v] !in src.Values && dst[v] !in dst0.Values)
    && slots == slots0
  }

  /** A walk that meets a parent address the child already holds: the two tables were not disjoint. */
  lemma CopyWalkClash(src: map<nat, Page>, dst0: map<nat, Page>, entries0: map<nat, Pte>, slots0: seq<bool>,
                      todo: set<nat>, copied: set<nat>, dst: map<nat, Page>, entries: map<nat, Pte>, slots: seq<bool>,
                      va: nat)
    requires CopyWalk(src, dst0, entries0, slots0, todo, copied, dst, entries, slots)
    requires va in todo && va in dst0
    ensures !(src.Keys !! dst0.Keys)
  {
    assert va in src.Keys;
  }

  /** A finished walk has copied every parent address, none of which the child held. */
  lemma CopyWalkDone(src: map<nat, Page>, dst0: map<nat, Page>, entries0: map<nat, Pte>, slots0: seq<bool>,
                     copied: set<nat>, dst: map<nat, Page>, entries: map<nat, Pte>, slots: seq<bool>)
    requires CopyWalk(src, dst0, entries0, slots0, {}, copied, dst, entries, slots)
    ensures copied == src.Keys && src.Keys !! dst0.Keys
  {
  }

  /** Copying the parent page at a `todo` address moves it to `copied` and keeps the walk's state. */
  lemma CopyWalkStep(src: map<nat, Page>, dst0: map<nat, Page>, entries0: map<nat, Pte>, slots0: seq<bool>,
                     todo: set<nat>, copied: set<nat>, dst: map<nat, Page>, entries: map<nat, Pte>, slots: seq<bool>,
                     va: nat, p: Page, entries': map<nat, Pte>)
    requires CopyWalk(src, dst0, entries0, slots0, todo, copied, dst, entries, slots)
    requires va in todo && va !in dst && CopiedFrom(p, src[va])
    requires p !in src.Values && p !in dst.Values
    requires entries' == match CopyMapping(src[va].variant, src[va].writable)
                         case None => entries
                         case Some(pte) => entries[va := pte]
    ensures CopyWalk(src, dst0, entries0, slots0, todo - {va}, copied + {va}, dst[va := p], entries', slots)
  {
    CopyStep(src, dst0, entries0, copied, dst, entries, va, p, entries');
  }

  /**
   * One pass of the copy's walk, for the parent page at `va`, stated as
   * the progress it makes: on success `va` moves from `todo` to `copied`,
   * copied into a fresh descriptor; on failure, which happens exactly when
   * the child already holds `va`, nothing changes.
   */
  method CopyPass(dst: SupplementalPageTable, src: SupplementalPageTable, va: nat, swap: SwapTable, pml4: PageTable,
                  ghost dst0: map<nat, Page>, ghost entries0: map<nat, Pte>, ghost slots0: seq<bool>,
                  ghost todo: set<nat>, ghost copied: set<nat>)
    returns (ok: bool)
    requires dst != src && dst.Valid() && src.Valid() && src.Aligned() && swap.Valid()
    requires va in todo
    requires CopyWalk(src.pages, dst0, entries0, slots0, todo, copied, dst.pages, pml4.entries, swap.slots[..])
    requires forall v :: v in copied ==> FrameCopied(dst.pages[v], src.pages[v])
    modifies dst, pml4, swap.slots
    ensures dst.Valid() && swap.Valid()
    ensures ok <==> va !in dst0
    ensures !ok ==> dst.pages == old(dst.pages) && pml4.entries == old(pml4.entries)
    ensures ok ==> va in dst.pages && dst.pages == old(dst.pages)[va := dst.pages[va]] && fresh(dst.pages[va])
    ensures forall v :: v in (if ok then copied + {va} else copied) ==> FrameCopied(dst.pages[v], src.pages[v])
    ensures ok ==> CopyWalk(src.pages, dst0, entries0, slots0, todo - {va}, copied + {va},
                            dst.pages, pml4.entries, swap.slots[..])
    ensures !ok ==> CopyWalk(src.pages, dst0, entries0, slots0, todo, copied, dst.pages, pml4.entries, swap.slots[..])
  {
    var s := src.pages[va];
    ghost var pagesBefore := dst.pages;
    ghost var entriesBefore := pml4.entries;
    ok := CopyPage(dst, s, swap, pml4);
    forall v | v in copied
      ensures FrameCopied(dst.pages[v], src.pages[v])
    {
      var d := pagesBefore[v];
      assert old(FrameCopied(d, src.pages[v]));
      assert dst.pages[v] == d;
    }
    if ok {
      CopyWalkStep(src.pages, dst0, entries0, slots0, todo, copied, pagesBefore, entriesBefore, swap.slots[..],
                   va, dst.pages[va], pml4.entries);
    }
  }

  /**
   * supplemental_page_table_copy: at fork, walks the parent's table (which
   * must not be empty) and rebuilds each page in the child's table `dst`
   * page by page, as CopiedFrom and FrameCopied describe. It stops with false at the first
   * address the child already holds, keeping the copies made so far, and so
   * succeeds exactly when no parent address is taken in the child. Either
   * way the child's own entries are untouched, every new entry is a copy
   * of the parent's page at that address held in a descriptor of its own
   * (not shared with the parent or with the child's other entries), and the page table gains
   * exactly the mappings of the copies that are not lazy; on success every
   * parent page has been copied. The swap table is not touched.
   */
  method SupplementalPageTableCopy(dst: SupplementalPageTable, src: SupplementalPageTable,
                                   swap: SwapTable, pml4: PageTable)
    returns (ok: bool, ghost copied: set<nat>)
    requires dst != src && dst.Valid() && src.Valid() && src.Aligned() && swap.Valid()
    requires src.pages != map[]
    requires forall va :: va in src.pages ==> Copyable(src.pages[va])
    modifies dst, pml4, swap.slots
    ensures dst.Valid() && swap.Valid() && swap.slots[..] == old(swap.slots[..])
    ensures ok <==> src.pages.Keys !! old(dst.pages).Keys
    ensures ok ==> copied == src.pages.Keys
    ensures CopyProgress(src.pages, old(dst.pages), old(pml4.entries), copied, dst.pages, pml4.entries)
    ensures forall v :: v in dst.pages && v !in old(dst.pages) ==>
              dst.pages[v] !in src.pages.Values && dst.pages[v] !in old(dst.pages).Values
    ensures forall v :: v in copied ==> FrameCopied(dst.pages[v], src.pages[v])
  {
    ghost var dst0 := dst.pages;
    ghost var entries0 := pml4.entries;
    ghost var slots0 := swap.slots[..];
    var todo := src.pages.Keys;
    copied := {};
    ok := true;
    CopyStart(src.pages, dst0, entries0);
    while todo != {}
      invariant dst.Valid() && swap.Valid()
      invariant CopyWalk(src.pages, dst0, entries0, slots0, todo, copied, dst.pages, pml4.entries, swap.slots[..])
      invariant forall v :: v in copied ==> FrameCopied(dst.pages[v], src.pages[v])
      decreases |todo|
    {
      var va :| va in todo;
      ok := CopyPass(dst, src, va, swap, pml4, dst0, entries0, slots0, todo, copied);
      if !ok {
        CopyWalkClash(src.pages, dst0, entries0, slots0, todo, copied, dst.pages, pml4.entries, swap.slots[..], va);
        return;
      }
      todo := todo - {va};
      copied := copied + {va};
    }
    CopyWalkDone(src.pages, dst0, entries0, slots0, copied, dst.pages, pml4.entries, swap.slots[..]);
  }
}
