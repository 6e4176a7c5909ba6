/**
 * The supplemental page table of vm/vm.c: a per-process table from page
 * address to page descriptor (a Pintos hash keyed and ordered by `va`),
 * with lookup, insertion and lazy page creation.
 */
module Spt {
  import opened VmTypes

  /** my_hash_less: the hash table compares descriptors by virtual address. */
  function MyHashLess(a: Page, b: Page): bool
  {
    a.va < b.va
  }

  /**
   * my_hash_less is a strict order, and two descriptors are the same entry
   * for the hash (neither is less than the other) exactly when their
   * addresses agree; this is what lets the model key the table by `va`.
   */
  lemma MyHashLessIsStrictOrder(a: Page, b: Page, c: Page)
    ensures !MyHashLess(a, a)
    ensures MyHashLess(a, b) && MyHashLess(b, c) ==> MyHashLess(a, c)
    ensures MyHashLess(a, b) ==> !MyHashLess(b, a)
    ensures (!MyHashLess(a, b) && !MyHashLess(b, a)) <==> a.va == b.va
  {
  }

  class SupplementalPageTable {
    var pages: map<nat, Page>

    /** Every descriptor is filed under its own address: the hash key is `page->va`. */
    ghost predicate Valid()
      reads this
    {
      forall k :: k in pages ==> pages[k].va == k
    }

    /** Every key is a page address (true of a table filled only with aligned addresses). */
    ghost predicate Aligned()
      reads this
    {
      forall k :: k in pages ==> IsPageAligned(k)
    }

    /** supplemental_page_table_init. */
    constructor ()
      ensures Valid() && Aligned() && pages == map[]
    {
      pages := map[];
    }

    /**
     * spt_find_page: the descriptor of the page that holds `va`, found
     * under the rounded-down address, or None when that page has none.
     */
    function Find(va: nat): (r: Option<Page>)
      requires Valid()
      reads this
      ensures r.Some? ==> r.value in pages.Values && r.value.va == PgRoundDown(va)
      ensures r.None? ==> forall k :: k in pages ==> k != PgRoundDown(va)
    {
      var key := PgRoundDown(va);
      if key in pages then Some(pages[key]) else None
    }

    /** Every address inside one page finds the same descriptor as the page's own address. */
    lemma FindWithinPage(base: nat, off: nat)
      requires Valid() && IsPageAligned(base) && off < PGSIZE
      ensures Find(base + off) == Find(base)
      ensures Find(base).Some? <==> base in pages
    {
      PgRoundDownOfOffset(base, off);
      PgRoundDownOfOffset(base, 0);
    }

    /**
     * spt_insert_page: hash_insert refuses a descriptor that compares equal
     * to one already present, so insertion succeeds exactly when no
     * descriptor has the same address; a refused insertion changes nothing.
     */
    method Insert(page: Page) returns (ok: bool)
      requires Valid()
      modifies this
      ensures Valid()
      ensures ok <==> forall k :: k in old(pages) ==>
                        MyHashLess(old(pages)[k], page) || MyHashLess(page, old(pages)[k])
      ensures ok <==> page.va !in old(pages)
      ensures pages == if ok then old(pages)[page.va := page] else old(pages)
    {
      if page.va in pages {
        assert !MyHashLess(pages[page.va], page) && !MyHashLess(page, pages[page.va]);
        ok := false;
      } else {
        pages := pages[page.va := page];
        ok := true;
      }
    }

    /**
     * vm_alloc_page_with_initializer: creates a lazy descriptor at `upage`
     * unless the page that holds `upage` already has one. On success the
     * table gains exactly that one entry, a fresh uninit page with the
     * given writable flag whose eventual type is `ty`; otherwise the table
     * is unchanged.
     */
    method AllocPageWithInitializer(ty: VmType, upage: nat, writable: bool, init: Loader, aux: Aux)
      returns (ok: bool)
      requires Valid()
      requires ty != Uninit
      modifies this
      ensures Valid()
      ensures ok <==> PgRoundDown(upage) !in old(pages) && upage !in old(pages)
      ensures !ok ==> pages == old(pages)
      ensures ok ==> upage in pages && fresh(pages[upage])
                     && pages == old(pages)[upage := pages[upage]]
      ensures ok ==> pages[upage].writable == writable && pages[upage].frame == null
                     && pages[upage].variant == UninitPage(ty, init, aux)
                     && PageGetType(pages[upage].variant) == ty
      ensures old(Aligned()) && IsPageAligned(upage) ==> Aligned()
    {
      var found := Find(upage);
      if found.None? {
        var page := new Page(upage, writable, UninitPage(ty, init, aux));
        ok := Insert(page);
      } else {
        ok := false;
      }
    }

    /** hash_delete: drops the entry filed under `va`, leaving every other entry as it was. */
    method Delete(va: nat)
      requires Valid()
      modifies this
      ensures Valid()
      ensures pages == old(pages) - {va}
    {
      pages := pages - {va};
    }
  }
}
