/**
 * The data model shared by the three parts of the demand-paging layer:
 * page descriptors with their three variants, physical frames, the
 * hardware page table (pml4) reduced to what the layer asks of it, and the
 * address arithmetic of threads/vaddr.h.
 */
module VmTypes {

  /** Bytes in a page and in a frame (PGSIZE). */
  const PGSIZE: nat := 4096

  /** First kernel virtual address (KERN_BASE): everything at or above it is kernel space. */
  const KERN_BASE: nat := 0x80_0400_0000

  newtype byte = x: int | 0 <= x < 256

  datatype Option<T> = None | Some(value: T)

  /** enum vm_type, without the marker bits that VM_TYPE masks off. */
  datatype VmType = Uninit | Anon | File

  /** An open file (struct file *), known only by its identity. */
  type FileId = nat

  /** struct file_page: where a file-backed page's bytes come from. */
  datatype FileInfo = FileInfo(file: FileId, ofs: int, readBytes: nat, zeroBytes: nat)

  /** The opaque `aux` argument of a lazy page: a file load record, or nothing. */
  datatype Aux = NullAux | LoadAux(info: FileInfo)

  /** The `init` function pointer of a lazy page. */
  datatype Loader = NoLoader | LazyLoadSegment

  /**
   * The union inside struct page, tagged by the page's operations table:
   * uninit_ops, anon_ops or file_ops.
   */
  datatype Variant =
    | UninitPage(target: VmType, init: Loader, aux: Aux)
    | AnonPage(swapIndex: int)
    | FilePage(info: FileInfo)

  /** The address of the page that holds `va` (pg_round_down). */
  function PgRoundDown(va: nat): (r: nat)
    ensures r % PGSIZE == 0 && r <= va < r + PGSIZE
  {
    va - va % PGSIZE
  }

  /** A page-aligned address is its own page (pg_round_down is idempotent on it). */
  predicate IsPageAligned(va: nat) {
    va % PGSIZE == 0
  }

  /** is_kernel_vaddr. */
  predicate IsKernelVaddr(va: nat) {
    va >= KERN_BASE
  }

  /** Every address between an aligned base and the next page boundary rounds down to that base. */
  lemma PgRoundDownOfOffset(base: nat, off: nat)
    requires IsPageAligned(base) && off < PGSIZE
    ensures PgRoundDown(base + off) == base
  {
    var r := PgRoundDown(base + off);
    assert (base + off) % PGSIZE == off by {
      assert base + off == (base / PGSIZE) * PGSIZE + off;
    }
  }

  /** page_get_type: the type a page has now, or will have once populated if it is still lazy. */
  function PageGetType(v: Variant): VmType
  {
    match v
    case UninitPage(target, _, _) => target
    case AnonPage(_) => Anon
    case FilePage(_) => File
  }

  /**
   * What a lazy page must carry for its first population to be defined:
   * a target that is not itself lazy, and a load record when the target is
   * a file (file_backed_initializer dereferences it).
   */
  predicate Populatable(v: Variant)
  {
    v.UninitPage? ==> v.target != Uninit && (v.target == File ==> v.aux.LoadAux?)
  }

  /**
   * The variant a page has once a frame has been populated for it (the
   * swap_in of its operations table): a lazy page runs its initializer
   * (anon_initializer sets the swap index to -1, file_backed_initializer
   * copies the load record), an anonymous page gives its slot back and a
   * file page keeps its record.
   */
  function Populated(v: Variant): (r: Variant)
    requires Populatable(v)
    ensures !r.UninitPage?
    ensures r.AnonPage? ==> r.swapIndex == -1
  {
    match v
    case UninitPage(target, _, aux) =>
      if target == Anon then AnonPage(-1) else FilePage(aux.info)
    case AnonPage(_) => AnonPage(-1)
    case FilePage(_) => v
  }

  /** page_get_type promises the eventual type: population never changes it, and it is never Uninit. */
  lemma PopulatedKeepsType(v: Variant)
    requires Populatable(v)
    ensures PageGetType(Populated(v)) == PageGetType(v)
    ensures PageGetType(v) != Uninit
  {
  }

  /** struct frame: one unit of physical memory and the page it currently backs. */
  class Frame {
    var page: Page?
    var content: seq<byte>

    constructor ()
      ensures page == null && |content| == PGSIZE
    {
      page := null;
      content := seq(PGSIZE, _ => 0);
    }
  }

  /** struct page: one virtual page of one address space. */
  class Page {
    const va: nat
    const writable: bool
    var variant: Variant
    var frame: Frame?

    /** uninit_new followed by setting `writable`. */
    constructor (va: nat, writable: bool, variant: Variant)
      ensures this.va == va && this.writable == writable
      ensures this.variant == variant && frame == null
    {
      this.va := va;
      this.writable := writable;
      this.variant := variant;
      frame := null;
    }
  }

  /** One installed mapping of the hardware page table. */
  datatype Pte = Pte(writable: bool, dirty: bool)

  /**
   * The thread's pml4, reduced to the set of installed user addresses with
   * their writable and dirty bits (threads/mmu.c is not part of this model).
   */
  class PageTable {
    var entries: map<nat, Pte>

    constructor ()
      ensures entries == map[]
    {
      entries := map[];
    }

    /** pml4_is_dirty. */
    function IsDirty(va: nat): bool
      reads this
    {
      va in entries && entries[va].dirty
    }

    /** pml4_set_page: installs a clean mapping; allocation of page-table pages is taken to succeed. */
    method SetPage(va: nat, writable: bool) returns (ok: bool)
      modifies this
      ensures ok && entries == old(entries)[va := Pte(writable, false)]
    {
      entries := entries[va := Pte(writable, false)];
      ok := true;
    }

    /** pml4_clear_page. */
    method ClearPage(va: nat)
      modifies this
      ensures entries == old(entries) - {va}
      ensures !IsDirty(va)
    {
      entries := entries - {va};
    }
  }
}
