/**
 * File-backed pages and memory-mapped files of vm/file.c: the initializer
 * that turns a lazy page into a file page, the write-back on destruction,
 * and mmap/munmap, which split a file region into one lazy page per page
 * of address space and walk it back.
 */
module FileBacked {
  import opened VmTypes
  import opened Spt

  /** do_mmap refuses every address below this one. */
  const MMAP_MIN_ADDR: nat := 0x1000

  /** size_t arithmetic is modulo 2^64. */
  const SIZE_T_MOD: nat := 0x1_0000_0000_0000_0000

  /** A call file_write_at(file, buffer, size, ofs). */
  datatype FileWrite = FileWrite(file: FileId, buffer: nat, size: nat, ofs: int)

  /**
   * file_backed_initializer: the page switches to file_ops and its file
   * record becomes the load record it carried as a lazy page.
   */
  method FileBackedInitializer(page: Page) returns (ok: bool)
    requires page.variant.UninitPage? && page.variant.aux.LoadAux?
    modifies page
    ensures ok && page.variant.FilePage? && page.frame == old(page.frame)
    ensures var load := old(page.variant.aux.info);
            && page.variant.info.file == load.file
            && page.variant.info.ofs == load.ofs
            && page.variant.info.readBytes == load.readBytes
            && page.variant.info.zeroBytes == load.zeroBytes
  {
    var loadInfo := page.variant.aux.info;
    page.variant := FilePage(FileInfo(loadInfo.file, loadInfo.ofs, loadInfo.readBytes, loadInfo.zeroBytes));
    ok := true;
  }

  /** The write a file page's destruction performs: its recorded range, and only when dirty. */
  function WriteBackOf(v: Variant, va: nat, dirty: bool): (w: Option<FileWrite>)
    ensures w.Some? <==> v.FilePage? && dirty
    ensures w.Some? ==> w.value == FileWrite(v.info.file, va, v.info.readBytes, v.info.ofs)
  {
    if v.FilePage? && dirty then Some(FileWrite(v.info.file, va, v.info.readBytes, v.info.ofs)) else None
  }

  /**
   * file_backed_destroy: writes the page's `readBytes` bytes back at its
   * file offset if the mapping is dirty, and in either case clears the
   * mapping.
   */
  method FileBackedDestroy(page: Page, pml4: PageTable) returns (w: Option<FileWrite>)
    requires page.variant.FilePage?
    modifies pml4
    ensures w == WriteBackOf(page.variant, page.va, old(pml4.IsDirty(page.va)))
    ensures pml4.entries == old(pml4.entries) - {page.va}
  {
    w := None;
    if pml4.IsDirty(page.va) {
      w := Some(FileWrite(page.variant.info.file, page.va, page.variant.info.readBytes, page.variant.info.ofs));
    }
    pml4.ClearPage(page.va);
  }

  function Min(a: nat, b: nat): nat {
    if a < b then a else b
  }

  /** The number of pages an n-byte file region spans: n / PGSIZE rounded up. */
  function MmapPageCount(n: nat): nat {
    (n + PGSIZE - 1) / PGSIZE
  }

  /** Page k lies inside an n-byte region exactly when it starts before the region's end. */
  lemma MmapPageCountBound(n: nat, k: nat)
    ensures k < MmapPageCount(n) <==> k * PGSIZE < n
  {
  }

  /** The address of page k of a mapping at `base`. */
  function MmapVa(base: int, k: nat): int {
    base + k * PGSIZE
  }

  /** The file offset page k of a mapping reads from, when the mapping starts at file offset `offset`. */
  function MmapOfs(offset: int, k: nat): int {
    offset + k * PGSIZE
  }

  /** The addresses of pages 0 .. count-1 of a mapping at `base`. */
  function PageRun(base: nat, count: nat): (r: set<nat>)
    ensures forall x :: x in r ==> base <= x && x + PGSIZE <= base + count * PGSIZE
  {
    if count == 0 then {} else PageRun(base, count - 1) + {base + (count - 1) * PGSIZE}
  }

  /** A run of pages holds exactly its pages' addresses. */
  lemma {:induction false} PageRunHolds(base: nat, count: nat, k: nat)
    requires k < count
    ensures MmapVa(base, k) in PageRun(base, count)
  {
    if k < count - 1 {
      PageRunHolds(base, count - 1, k);
    }
  }

  /**
   * The file bytes page k of an n-byte region reads: a whole page for every
   * page but a partial last one, which reads what is left.
   */
  function MmapReadBytes(n: nat, k: nat): (r: nat)
    requires k < MmapPageCount(n)
    ensures 0 < r <= PGSIZE
    ensures r == PGSIZE <==> (k + 1) * PGSIZE <= n
  {
    MmapPageCountBound(n, k);
    if n - k * PGSIZE >= PGSIZE then PGSIZE else n - k * PGSIZE
  }

  /** The load record do_mmap gives page k of a mapping of n file bytes starting at `offset`. */
  function MmapLoadInfo(file: FileId, offset: int, n: nat, k: nat): (r: FileInfo)
    requires k < MmapPageCount(n)
    ensures r.readBytes + r.zeroBytes == PGSIZE
  {
    var rb := MmapReadBytes(n, k);
    FileInfo(file, MmapOfs(offset, k), rb, PGSIZE - rb)
  }

  /** Every page but the last reads a whole page and zero-fills nothing. */
  lemma MmapFullPages(file: FileId, offset: int, n: nat, k: nat)
    requires k + 1 < MmapPageCount(n)
    ensures MmapLoadInfo(file, offset, n, k).readBytes == PGSIZE
    ensures MmapLoadInfo(file, offset, n, k).zeroBytes == 0
  {
    MmapPageCountBound(n, k + 1);
  }

  /**
   * The last page reads the remainder r = n % PGSIZE and zero-fills
   * PGSIZE - r; when n is a whole number of pages it reads a full page.
   */
  lemma MmapLastPage(file: FileId, offset: int, n: nat)
    requires n > 0
    ensures var last := MmapLoadInfo(file, offset, n, MmapPageCount(n) - 1);
            && (n % PGSIZE != 0 ==> last.readBytes == n % PGSIZE && last.zeroBytes == PGSIZE - n % PGSIZE)
            && (n % PGSIZE == 0 ==> last.readBytes == PGSIZE && last.zeroBytes == 0)
  {
    var k := MmapPageCount(n) - 1;
    MmapPageCountBound(n, k);
    MmapPageCountBound(n, k + 1);
    if n % PGSIZE != 0 {
      assert (k + 1) * PGSIZE != n;
      RemainderIsMod(n, k);
    }
  }

  /** Once fewer than PGSIZE bytes are left after k whole pages, what is left is n % PGSIZE. */
  lemma RemainderIsMod(n: nat, k: nat)
    requires k * PGSIZE <= n < (k + 1) * PGSIZE
    ensures n - k * PGSIZE == n % PGSIZE
  {
  }

  /** The file bytes read by pages 0 .. count-1 of an n-byte region. */
  function MmapReadTotal(n: nat, count: nat): nat
    requires count <= MmapPageCount(n)
  {
    if count == 0 then 0 else MmapReadTotal(n, count - 1) + MmapReadBytes(n, count - 1)
  }

  /** The first `count` pages read min(n, count * PGSIZE) bytes. */
  lemma {:induction false} MmapReadPrefix(n: nat, count: nat)
    requires count <= MmapPageCount(n)
    ensures MmapReadTotal(n, count) == Min(n, count * PGSIZE)
  {
    if count > 0 {
      MmapReadPrefix(n, count - 1);
      MmapPageCountBound(n, count - 1);
    }
  }

  /** All the pages of a mapping together read exactly the n bytes of the region, no more. */
  lemma MmapReadsWholeRegion(n: nat)
    ensures MmapReadTotal(n, MmapPageCount(n)) == n
  {
    MmapReadPrefix(n, MmapPageCount(n));
    MmapPageCountBound(n, MmapPageCount(n));
  }

  /**
   * The remaining-byte counter after one pass of do_mmap's loop, taken to
   * stop at zero: a whole page is consumed, or whatever is left.
   */
  function MmapRemainingAfterPass(remaining: nat): (r: nat)
    ensures r < remaining || remaining == 0
  {
    if remaining >= PGSIZE then remaining - PGSIZE else 0
  }

  /** The counter after k passes over an n-byte region. */
  function MmapRemainingAfter(n: nat, k: nat): nat {
    if k == 0 then n else MmapRemainingAfterPass(MmapRemainingAfter(n, k - 1))
  }

  /**
   * The loop makes exactly MmapPageCount(n) passes: before pass k the
   * counter holds n - k * PGSIZE while k is below the page count, and zero
   * once it is reached.
   */
  lemma {:induction false} MmapPasses(n: nat, k: nat)
    requires k <= MmapPageCount(n)
    ensures MmapRemainingAfter(n, k) == if k < MmapPageCount(n) then n - k * PGSIZE else 0
    ensures MmapRemainingAfter(n, k) > 0 <==> k < MmapPageCount(n)
  {
    MmapPageCountBound(n, k);
    if k > 0 {
      MmapPasses(n, k - 1);
      MmapPageCountBound(n, k - 1);
    }
  }

  /** The counter as the source computes it: an unsigned size_t subtraction, which wraps below zero. */
  function AsWrittenRemainingAfterPass(remaining: nat): (r: nat)
    requires remaining < SIZE_T_MOD
    ensures r < SIZE_T_MOD
    ensures remaining >= PGSIZE ==> r == remaining - PGSIZE
  {
    (remaining - PGSIZE) % SIZE_T_MOD
  }

  /**
   * A 5000-byte region spans two pages, but after the second (partial)
   * pass the wrapped counter is 2^64 - 3192, not zero, so the loop as
   * written goes on to a third pass, and from then on whole-page passes.
   */
  lemma AsWrittenMmapOverruns()
    ensures MmapPageCount(5000) == 2
    ensures MmapRemainingAfter(5000, 2) == 0
    ensures AsWrittenRemainingAfterPass(AsWrittenRemainingAfterPass(5000)) == SIZE_T_MOD - 3192
  {
  }

  /** Whether vm_alloc_page_with_initializer would accept `va` in a table holding `pages`. */
  predicate VaFree(pages: map<nat, Page>, va: nat) {
    PgRoundDown(va) !in pages && va !in pages
  }

  /** The lazy descriptor do_mmap creates for page k. */
  ghost predicate IsMmapPage(p: Page, writable: bool, file: FileId, offset: int, n: nat, k: nat)
    requires k < MmapPageCount(n)
    reads p
  {
    && p.writable == writable && p.frame == null
    && p.variant == UninitPage(File, LazyLoadSegment, LoadAux(MmapLoadInfo(file, offset, n, k)))
  }

  /**
   * The split one pass of do_mmap's loop makes while bytes remain: a whole
   * page while at least a page remains, otherwise the rest followed by the
   * PGSIZE - n % PGSIZE zero bytes computed before the loop; either way the
   * load record of that page of the mapping.
   */
  lemma MmapPassSplit(file: FileId, offset: int, n: nat, made: nat)
    requires made <= MmapPageCount(n) && MmapRemainingAfter(n, made) > 0
    ensures made < MmapPageCount(n)
    ensures var rem := MmapRemainingAfter(n, made);
            MmapLoadInfo(file, offset, n, made) ==
              if rem >= PGSIZE then FileInfo(file, MmapOfs(offset, made), PGSIZE, 0)
              else FileInfo(file, MmapOfs(offset, made), rem, PGSIZE - n % PGSIZE)
  {
    MmapPasses(n, made);
    if MmapRemainingAfter(n, made) < PGSIZE {
      RemainderIsMod(n, made);
    }
  }

  /** Pages 0 .. made-1 of a mapping are in the table, each the lazy descriptor do_mmap creates for it. */
  ghost predicate MmapRun(pages: map<nat, Page>, addr: nat, made: nat, writable: bool,
                          file: FileId, offset: int, n: nat)
    reads pages.Values
  {
    && made <= MmapPageCount(n)
    && forall k :: 0 <= k < made ==>
         MmapVa(addr, k) in pages && IsMmapPage(pages[MmapVa(addr, k)], writable, file, offset, n, k)
  }

  /** Filing the next page's descriptor extends the run by one page. */
  lemma MmapRunExtend(pages: map<nat, Page>, addr: nat, made: nat, writable: bool,
                      file: FileId, offset: int, n: nat, p: Page)
    requires MmapRun(pages, addr, made, writable, file, offset, n)
    requires made < MmapPageCount(n) && IsMmapPage(p, writable, file, offset, n, made)
    ensures MmapRun(pages[MmapVa(addr, made) := p], addr, made + 1, writable, file, offset, n)
  {
  }

  /**
   * What do_mmap has done after `made` passes: the first `made` pages of the
   * mapping were free in the original table `pages0`, and the table is the
   * original one plus exactly their new descriptors.
   */
  ghost predicate MmapProgress(pages0: map<nat, Page>, pages: map<nat, Page>, addr: nat, made: nat,
                               writable: bool, file: FileId, offset: int, n: nat)
    reads pages.Values
  {
    && (forall k :: 0 <= k < made ==> VaFree(pages0, MmapVa(addr, k)))
    && pages.Keys == pages0.Keys + PageRun(addr, made)
    && (forall x :: x in pages0 ==> pages[x] == pages0[x])
    && MmapRun(pages, addr, made, writable, file, offset, n)
  }

  /** One successful pass of do_mmap's loop keeps its progress invariant, one page further on. */
  lemma MmapProgressStep(pages0: map<nat, Page>, pages: map<nat, Page>, addr: nat, made: nat,
                         writable: bool, file: FileId, offset: int, n: nat, p: Page)
    requires MmapProgress(pages0, pages, addr, made, writable, file, offset, n)
    requires made < MmapPageCount(n) && IsMmapPage(p, writable, file, offset, n, made)
    requires VaFree(pages, MmapVa(addr, made))
    ensures MmapProgress(pages0, pages[MmapVa(addr, made) := p], addr, made + 1, writable, file, offset, n)
  {
    FreshAddressOfRun(pages, pages0, addr, made);
    MmapRunExtend(pages, addr, made, writable, file, offset, n, p);
    PageRunHolds(addr, made + 1, made);
  }

  /**
   * One pass of do_mmap's loop: the load record for the page at `cur` (a
   * whole page while at least a page remains, else the rest and the zero
   * bytes computed before the loop) and its lazy descriptor. The pass
   * succeeds exactly when the address is free, and then extends the run of
   * the mapping's pages by one fresh descriptor.
   */
  method MmapPass(spt: SupplementalPageTable, cur: nat, ofs: int, remaining: nat, zeroBytes: nat,
                  writable: bool, openFile: FileId,
                  ghost pages0: map<nat, Page>, ghost addr: nat, ghost made: nat, ghost offset: int, ghost n: nat)
    returns (ok: bool)
    requires spt.Valid() && MmapProgress(pages0, spt.pages, addr, made, writable, openFile, offset, n)
    requires made <= MmapPageCount(n) && remaining == MmapRemainingAfter(n, made) && remaining > 0
    requires cur == MmapVa(addr, made) && ofs == MmapOfs(offset, made) && zeroBytes == PGSIZE - n % PGSIZE
    modifies spt
    ensures spt.Valid() && made < MmapPageCount(n)
    ensures ok <==> VaFree(pages0, cur)
    ensures !ok ==> spt.pages == old(spt.pages)
    ensures ok ==> cur in spt.pages && fresh(spt.pages[cur]) && spt.pages == old(spt.pages)[cur := spt.pages[cur]]
    ensures MmapProgress(pages0, spt.pages, addr, if ok then made + 1 else made, writable, openFile, offset, n)
  {
    MmapPassSplit(openFile, offset, n, made);
    var loadInfo: FileInfo;
    if remaining >= PGSIZE {
      loadInfo := FileInfo(openFile, ofs, PGSIZE, 0);
    } else {
      loadInfo := FileInfo(openFile, ofs, remaining, zeroBytes);
    }
    ghost var before := spt.pages;
    FreshAddressOfRun(before, pages0, addr, made);
    ok := spt.AllocPageWithInitializer(File, cur, writable, LazyLoadSegment, LoadAux(loadInfo));
    if ok {
      MmapProgressStep(pages0, before, addr, made, writable, openFile, offset, n, spt.pages[cur]);
    }
  }

  /**
   * do_mmap: maps min(length, file length) bytes of `openFile` from
   * `offset` at `addr`, one lazy file page per page, page k at
   * addr + k*PGSIZE with file offset offset + k*PGSIZE and its own
   * read/zero split. It refuses an address below 0x1000 or a zero length
   * and creates nothing; it stops at the first page whose address is
   * taken, keeping the pages made so far (`made` counts them); on success
   * it returns the base address.
   */
  method DoMmap(spt: SupplementalPageTable, addr: nat, length: nat, writable: bool,
                openFile: FileId, fileLength: nat, offset: int)
    returns (r: Option<nat>, ghost made: nat)
    requires spt.Valid()
    modifies spt
    ensures spt.Valid()
    ensures addr < MMAP_MIN_ADDR || length == 0 ==> r.None? && made == 0 && spt.pages == old(spt.pages)
    ensures r.Some? ==> r.value == addr && addr >= MMAP_MIN_ADDR && length > 0
    ensures var n := Min(length, fileLength);
            && made <= MmapPageCount(n)
            && (r.Some? ==> made == MmapPageCount(n))
            && (r.None? && addr >= MMAP_MIN_ADDR && length > 0 ==>
                  made < MmapPageCount(n) && !VaFree(old(spt.pages), MmapVa(addr, made)))
            && MmapProgress(old(spt.pages), spt.pages, addr, made, writable, openFile, offset, n)
            && (forall x :: x in spt.pages && x !in old(spt.pages) ==> fresh(spt.pages[x]))
  {
    r, made := None, 0;
    if addr < MMAP_MIN_ADDR || length == 0 {
      return;
    }
    var givenAddr := addr;
    var fileReadBytes := if length > fileLength then fileLength else length;
    ghost var n := fileReadBytes;
    var zeroBytes := PGSIZE - fileReadBytes % PGSIZE;
    var cur: nat := addr;
    var ofs := offset;
    ghost var pages0 := spt.pages;
    var failed := false;
    while fileReadBytes > 0 && !failed
      invariant spt.Valid()
      invariant made <= MmapPageCount(n)
      invariant cur == MmapVa(addr, made) && ofs == MmapOfs(offset, made)
      invariant fileReadBytes == MmapRemainingAfter(n, made)
      invariant failed ==> made < MmapPageCount(n) && !VaFree(pages0, cur)
      invariant MmapProgress(pages0, spt.pages, addr, made, writable, openFile, offset, n)
      invariant forall x :: x in spt.pages && x !in pages0 ==> fresh(spt.pages[x])
      decreases fileReadBytes, !failed
    {
      var ok := MmapPass(spt, cur, ofs, fileReadBytes, zeroBytes, writable, openFile,
                         pages0, addr, made, offset, n);
      if !ok {
        failed := true;
      } else {
        fileReadBytes := MmapRemainingAfterPass(fileReadBytes);
        cur := cur + PGSIZE;
        ofs := ofs + PGSIZE;
        made := made + 1;
      }
    }
    if !failed {
      MmapPasses(n, made);
      r := Some(givenAddr);
    }
  }

  /**
   * The next page of a run is free in the grown table exactly when it is
   * free in the table the run was added to: neither it nor the page that
   * holds it is one of the run's own addresses.
   */
  lemma FreshAddressOfRun(grown: map<nat, Page>, base: map<nat, Page>, addr: nat, made: nat)
    requires grown.Keys == base.Keys + PageRun(addr, made)
    ensures VaFree(grown, MmapVa(addr, made)) <==> VaFree(base, MmapVa(addr, made))
  {
    var va := MmapVa(addr, made);
    assert va !in PageRun(addr, made);
    assert PgRoundDown(va) + PGSIZE > va;
    assert PgRoundDown(va) !in PageRun(addr, made);
  }

  /** The pages of the run at `base` that are mapped file pages, each with the write-back its destruction made. */
  ghost predicate UnmappedRun(pages: map<nat, Page>, entries: map<nat, Pte>, base: nat,
                              writes: seq<Option<FileWrite>>)
    reads pages.Values
  {
    forall k :: 0 <= k < |writes| ==>
      && MmapVa(base, k) in pages
      && PageGetType(pages[MmapVa(base, k)].variant) == File
      && writes[k] == WriteBackOf(pages[MmapVa(base, k)].variant, MmapVa(base, k),
                                  MmapVa(base, k) in entries && entries[MmapVa(base, k)].dirty)
  }

  /** Whether do_munmap's walk goes on past `va`: the next page exists and is a file page. */
  predicate ContinuesAt(pages: map<nat, Page>, va: nat)
    reads pages.Values
  {
    va in pages && PageGetType(pages[va].variant) == File
  }

  /**
   * One step of the unmapping walk: destroy() on the page at `va` (a
   * loaded file page is written back if dirty and unmapped; a lazy one has
   * nothing mapped) and its removal from the table.
   */
  method UnmapPage(spt: SupplementalPageTable, va: nat, pml4: PageTable) returns (w: Option<FileWrite>)
    requires spt.Valid() && va in spt.pages && PageGetType(spt.pages[va].variant) == File
    modifies spt, pml4
    ensures spt.Valid() && spt.pages == old(spt.pages) - {va}
    ensures w == WriteBackOf(old(spt.pages)[va].variant, va, old(pml4.IsDirty(va)))
    ensures old(spt.pages)[va].variant.FilePage? ==> va !in pml4.entries
    ensures pml4.entries.Keys <= old(pml4.entries).Keys
    ensures forall v :: v in old(pml4.entries) && v != va ==> v in pml4.entries && pml4.entries[v] == old(pml4.entries)[v]
  {
    var p := spt.pages[va];
    w := None;
    if p.variant.FilePage? {
      w := FileBackedDestroy(p, pml4);
    }
    spt.Delete(va);
  }

  /** A run of unmapped pages grows by the next page when that page continues the mapping. */
  lemma UnmappedRunExtend(pages: map<nat, Page>, entries: map<nat, Pte>, base: nat,
                          writes: seq<Option<FileWrite>>, w: Option<FileWrite>)
    requires UnmappedRun(pages, entries, base, writes)
    requires ContinuesAt(pages, MmapVa(base, |writes|))
    requires var va := MmapVa(base, |writes|);
             w == WriteBackOf(pages[va].variant, va, va in entries && entries[va].dirty)
    ensures UnmappedRun(pages, entries, base, writes + [w])
  {
    var ws := writes + [w];
    forall k | 0 <= k < |ws|
      ensures MmapVa(base, k) in pages && PageGetType(pages[MmapVa(base, k)].variant) == File
      ensures ws[k] == WriteBackOf(pages[MmapVa(base, k)].variant, MmapVa(base, k),
                                   MmapVa(base, k) in entries && entries[MmapVa(base, k)].dirty)
    {
      if k < |writes| {
        assert ws[k] == writes[k];
      }
    }
  }

  /**
   * What the first n passes of do_munmap's loop as written hand to
   * destroy(): pass k destroys whatever spt_find_page returns for
   * addr + k*PGSIZE, NULL included.
   */
  function AsWrittenMunmapDestroyed(spt: SupplementalPageTable, addr: nat, n: nat): seq<Option<Page>>
    requires spt.Valid()
    reads spt
  {
    if n == 0 then [] else AsWrittenMunmapDestroyed(spt, addr, n - 1) + [spt.Find(MmapVa(addr, n - 1))]
  }

  /**
   * The whole loop as written: it runs hash_size times, and destroy()
   * removes nothing from the hash, so that is once per entry of the table.
   */
  function AsWrittenMunmapDestroys(spt: SupplementalPageTable, addr: nat): seq<Option<Page>>
    requires spt.Valid()
    reads spt
  {
    AsWrittenMunmapDestroyed(spt, addr, |spt.pages|)
  }

  /**
   * A one-page mapping at 0x1000 in a table that also holds a page at
   * 0x10000: the loop runs twice; the first pass destroys the mapped page,
   * the second looks up 0x2000, finds nothing and hands destroy() NULL.
   */
  lemma AsWrittenMunmapDestroysNull(spt: SupplementalPageTable, p: Page, q: Page)
    requires spt.Valid() && spt.pages == map[0x1000 := p, 0x10000 := q]
    ensures var d := AsWrittenMunmapDestroys(spt, 0x1000);
            |d| == 2 && d[0] == Some(p) && d[1] == None
  {
    assert spt.pages.Keys == {0x1000} + {0x10000};
    assert |spt.pages| == 2;
    assert spt.Find(MmapVa(0x1000, 0)) == Some(p) by {
      assert PgRoundDown(0x1000) == 0x1000;
    }
    assert spt.Find(MmapVa(0x1000, 1)) == None by {
      assert PgRoundDown(0x2000) == 0x2000;
    }
    assert AsWrittenMunmapDestroyed(spt, 0x1000, 1) == [Some(p)];
  }

  /**
   * What do_munmap's walk has done after |writes| pages, starting from the
   * table `pages0` and page table `entries0`: the pages of the run at `base`
   * are gone from the table, each was a file page whose write-back is
   * recorded, the mapping of each one that was loaded is cleared, and no
   * other mapping is touched.
   */
  ghost predicate MunmapProgress(pages0: map<nat, Page>, entries0: map<nat, Pte>, base: nat,
                                 writes: seq<Option<FileWrite>>, pages: map<nat, Page>, entries: map<nat, Pte>)
    reads pages0.Values
  {
    && pages == pages0 - PageRun(base, |writes|)
    && UnmappedRun(pages0, entries0, base, writes)
    && (forall k :: 0 <= k < |writes| && MmapVa(base, k) in pages0 && pages0[MmapVa(base, k)].variant.FilePage? ==>
          MmapVa(base, k) !in entries)
    && entries.Keys <= entries0.Keys
    && forall v :: v in entries0 && v !in PageRun(base, |writes|) ==> v in entries && entries[v] == entries0[v]
  }

  /** Unmapping the next page of the run keeps the walk's progress invariant, one page further on. */
  lemma MunmapStep(pages0: map<nat, Page>, entries0: map<nat, Pte>, base: nat, writes: seq<Option<FileWrite>>,
                   pages: map<nat, Page>, entries: map<nat, Pte>, w: Option<FileWrite>,
                   pages': map<nat, Page>, entries': map<nat, Pte>)
    requires MunmapProgress(pages0, entries0, base, writes, pages, entries)
    requires ContinuesAt(pages, MmapVa(base, |writes|))
    requires var va := MmapVa(base, |writes|);
             && w == WriteBackOf(pages[va].variant, va, va in entries && entries[va].dirty)
             && pages' == pages - {va}
             && (pages[va].variant.FilePage? ==> va !in entries')
             && entries'.Keys <= entries.Keys
             && forall v :: v in entries && v != va ==> v in entries' && entries'[v] == entries[v]
    ensures MunmapProgress(pages0, entries0, base, writes + [w], pages', entries')
  {
    var va := MmapVa(base, |writes|);
    assert va !in PageRun(base, |writes|);
    PageRunHolds(base, |writes| + 1, |writes|);
    UnmappedRunExtend(pages0, entries0, base, writes, w);
  }

  /**
   * One pass of do_munmap's walk, at the next page of the run: the page is
   * destroyed and dropped, and the walk's progress extends by its write-back.
   */
  method MunmapPass(spt: SupplementalPageTable, cur: nat, pml4: PageTable,
                    ghost pages0: map<nat, Page>, ghost entries0: map<nat, Pte>, ghost base: nat,
                    ghost writes: seq<Option<FileWrite>>)
    returns (w: Option<FileWrite>)
    requires spt.Valid() && cur == MmapVa(base, |writes|) && ContinuesAt(spt.pages, cur)
    requires MunmapProgress(pages0, entries0, base, writes, spt.pages, pml4.entries)
    modifies spt, pml4
    ensures spt.Valid() && spt.pages.Keys < old(spt.pages.Keys) && |spt.pages.Keys| < old(|spt.pages.Keys|)
    ensures MunmapProgress(pages0, entries0, base, writes + [w], spt.pages, pml4.entries)
  {
    ghost var pages := spt.pages;
    ghost var entries := pml4.entries;
    w := UnmapPage(spt, cur, pml4);
    MunmapStep(pages0, entries0, base, writes, pages, entries, w, spt.pages, pml4.entries);
    assert cur in pages.Keys && cur !in spt.pages.Keys;
  }

  /**
   * do_munmap, walking the mapping as the source evidently intends: with no
   * file page at `addr` it reports the error and changes nothing. Otherwise
   * it walks page by page from the page that holds `addr` for as long as
   * the next page is a (lazy or loaded) file page, destroying each one (a
   * dirty loaded page is written back, a loaded page's mapping is cleared)
   * and dropping it from the table. The table records no mapping bounds, so
   * the walk stops at the first address without a file page, which may lie
   * beyond an adjacent mapping. `writes` lists the write-backs, one entry per
   * page unmapped.
   */
  method DoMunmap(spt: SupplementalPageTable, addr: nat, pml4: PageTable)
    returns (ok: bool, writes: seq<Option<FileWrite>>)
    requires spt.Valid()
    modifies spt, pml4
    ensures spt.Valid()
    ensures ok <==> ContinuesAt(old(spt.pages), PgRoundDown(addr))
    ensures !ok ==> spt.pages == old(spt.pages) && pml4.entries == old(pml4.entries) && writes == []
    ensures ok ==> |writes| > 0
    ensures MunmapProgress(old(spt.pages), old(pml4.entries), PgRoundDown(addr), writes, spt.pages, pml4.entries)
    ensures ok ==> !ContinuesAt(old(spt.pages), MmapVa(PgRoundDown(addr), |writes|))
  {
    writes := [];
    var page := spt.Find(addr);
    if page.None? || PageGetType(page.value.variant) != File {
      ok := false;
      return;
    }
    ok := true;
    ghost var pages0 := spt.pages;
    ghost var entries0 := pml4.entries;
    var base := PgRoundDown(addr);
    var cur := base;
    while ContinuesAt(spt.pages, cur)
      invariant spt.Valid()
      invariant cur == MmapVa(base, |writes|)
      invariant MunmapProgress(pages0, entries0, base, writes, spt.pages, pml4.entries)
      decreases |spt.pages.Keys|
    {
      var w := MunmapPass(spt, cur, pml4, pages0, entries0, base, writes);
      writes := writes + [w];
      cur := cur + PGSIZE;
    }
    assert cur !in PageRun(base, |writes|);
  }
}
