/**
 * Anonymous pages and the swap slot table of vm/anon.c: a fixed array of
 * occupancy flags over a swap disk whose slot `i` is the eight sectors
 * 8*i .. 8*i+7, a first-fit slot allocator on swap-out, and slot release
 * on swap-in and on destruction.
 */
module Anon {
  import opened VmTypes

  /** Entries of the static swap_table array. */
  const SWAP_TABLE_LEN: nat := 10000

  /** Disk sectors per swap slot (one page). */
  const SECTORS_PER_SLOT: nat := 8

  /** DISK_SECTOR_SIZE. */
  const DISK_SECTOR_SIZE: nat := 512

  /** The disk sector that holds part `ds` of slot `i`: the slot of a sector is its index divided by eight. */
  function SlotSector(i: nat, ds: nat): (s: nat)
    requires ds < SECTORS_PER_SLOT
    ensures s / SECTORS_PER_SLOT == i && s % SECTORS_PER_SLOT == ds
    ensures i * SECTORS_PER_SLOT <= s < (i + 1) * SECTORS_PER_SLOT
  {
    i * SECTORS_PER_SLOT + ds
  }

  /**
   * The sector anon_swap_in and anon_swap_out address for part `ds` of swap
   * index `idx`, as written: nothing checks that the index names a slot.
   */
  function AsWrittenSwapSector(idx: int, ds: nat): int {
    idx * SECTORS_PER_SLOT + ds
  }

  /** Distinct slots never share a sector, and within a slot distinct parts use distinct sectors. */
  lemma SlotSectorsDisjoint(i: nat, j: nat, di: nat, dj: nat)
    requires di < SECTORS_PER_SLOT && dj < SECTORS_PER_SLOT
    requires i != j || di != dj
    ensures SlotSector(i, di) != SlotSector(j, dj)
  {
    var si, sj := SlotSector(i, di), SlotSector(j, dj);
    assert si / SECTORS_PER_SLOT == i && sj / SECTORS_PER_SLOT == j;
    assert si % SECTORS_PER_SLOT == di && sj % SECTORS_PER_SLOT == dj;
  }

  /** The bytes of page content `c` that go to part `ds` of a slot. */
  function SectorOf(c: seq<byte>, ds: nat): (r: seq<byte>)
    requires |c| == PGSIZE && ds < SECTORS_PER_SLOT
    ensures |r| == DISK_SECTOR_SIZE
  {
    c[ds * DISK_SECTOR_SIZE .. (ds + 1) * DISK_SECTOR_SIZE]
  }

  /** The disk after parts 0 .. n-1 of page content `c` have been written to slot `i`. */
  function WriteSectors(disk: seq<seq<byte>>, i: nat, c: seq<byte>, n: nat): (r: seq<seq<byte>>)
    requires |c| == PGSIZE && n <= SECTORS_PER_SLOT
    requires (i + 1) * SECTORS_PER_SLOT <= |disk|
    ensures |r| == |disk|
  {
    if n == 0 then disk
    else WriteSectors(disk, i, c, n - 1)[SlotSector(i, n - 1) := SectorOf(c, n - 1)]
  }

  /** The disk after a whole page `c` has been written to slot `i`. */
  function WriteSlot(disk: seq<seq<byte>>, i: nat, c: seq<byte>): (r: seq<seq<byte>>)
    requires |c| == PGSIZE && (i + 1) * SECTORS_PER_SLOT <= |disk|
    ensures |r| == |disk|
  {
    WriteSectors(disk, i, c, SECTORS_PER_SLOT)
  }

  /** Writing parts 0 .. n-1 of a slot changes exactly those sectors. */
  lemma {:induction false} WriteSectorsFrame(disk: seq<seq<byte>>, i: nat, c: seq<byte>, n: nat, s: nat)
    requires |c| == PGSIZE && n <= SECTORS_PER_SLOT
    requires (i + 1) * SECTORS_PER_SLOT <= |disk| && s < |disk|
    ensures s / SECTORS_PER_SLOT == i && s % SECTORS_PER_SLOT < n ==>
              WriteSectors(disk, i, c, n)[s] == SectorOf(c, s % SECTORS_PER_SLOT)
    ensures !(s / SECTORS_PER_SLOT == i && s % SECTORS_PER_SLOT < n) ==>
              WriteSectors(disk, i, c, n)[s] == disk[s]
  {
    if n > 0 {
      WriteSectorsFrame(disk, i, c, n - 1, s);
      var t := SlotSector(i, n - 1);
      if s == t {
        assert s / SECTORS_PER_SLOT == i && s % SECTORS_PER_SLOT == n - 1;
      }
    }
  }

  /** Writing a slot changes exactly that slot's eight sectors. */
  lemma WriteSlotFrame(disk: seq<seq<byte>>, i: nat, c: seq<byte>, s: nat)
    requires |c| == PGSIZE && (i + 1) * SECTORS_PER_SLOT <= |disk| && s < |disk|
    ensures s / SECTORS_PER_SLOT != i ==> WriteSlot(disk, i, c)[s] == disk[s]
    ensures s / SECTORS_PER_SLOT == i ==>
              WriteSlot(disk, i, c)[s] == SectorOf(c, s % SECTORS_PER_SLOT)
  {
    WriteSectorsFrame(disk, i, c, SECTORS_PER_SLOT, s);
  }

  /** The bytes of parts 0 .. n-1 of slot `i`, concatenated. */
  function ReadSectors(disk: seq<seq<byte>>, i: nat, n: nat): seq<byte>
    requires n <= SECTORS_PER_SLOT && (i + 1) * SECTORS_PER_SLOT <= |disk|
  {
    if n == 0 then [] else ReadSectors(disk, i, n - 1) + disk[SlotSector(i, n - 1)]
  }

  /** The page stored in slot `i`. */
  function ReadSlot(disk: seq<seq<byte>>, i: nat): seq<byte>
    requires (i + 1) * SECTORS_PER_SLOT <= |disk|
  {
    ReadSectors(disk, i, SECTORS_PER_SLOT)
  }

  /** Reading back the first n parts of a freshly written slot yields the first n sectors' worth of the page. */
  lemma {:induction false} ReadWrittenSectors(disk: seq<seq<byte>>, i: nat, c: seq<byte>, n: nat)
    requires |c| == PGSIZE && n <= SECTORS_PER_SLOT && (i + 1) * SECTORS_PER_SLOT <= |disk|
    ensures ReadSectors(WriteSlot(disk, i, c), i, n) == c[..n * DISK_SECTOR_SIZE]
  {
    if n > 0 {
      ReadWrittenSectors(disk, i, c, n - 1);
      var s := SlotSector(i, n - 1);
      WriteSlotFrame(disk, i, c, s);
      assert c[..(n - 1) * DISK_SECTOR_SIZE] + c[(n - 1) * DISK_SECTOR_SIZE .. n * DISK_SECTOR_SIZE]
          == c[..n * DISK_SECTOR_SIZE];
    }
  }

  /** Every sector of the disk holds DISK_SECTOR_SIZE bytes. */
  ghost predicate SectorsWellSized(disk: seq<seq<byte>>)
  {
    forall s :: 0 <= s < |disk| ==> |disk[s]| == DISK_SECTOR_SIZE
  }

  /** Writing a page to a slot keeps every sector DISK_SECTOR_SIZE bytes long. */
  lemma WriteSlotKeepsSectorSize(disk: seq<seq<byte>>, i: nat, c: seq<byte>)
    requires |c| == PGSIZE && (i + 1) * SECTORS_PER_SLOT <= |disk| && SectorsWellSized(disk)
    ensures SectorsWellSized(WriteSlot(disk, i, c))
  {
    forall s | 0 <= s < |disk| ensures |WriteSlot(disk, i, c)[s]| == DISK_SECTOR_SIZE {
      WriteSlotFrame(disk, i, c, s);
    }
  }

  /** Swap round trip on the disk: the page written to a slot is the page read back from it. */
  lemma SlotRoundTrip(disk: seq<seq<byte>>, i: nat, c: seq<byte>)
    requires |c| == PGSIZE && (i + 1) * SECTORS_PER_SLOT <= |disk|
    ensures ReadSlot(WriteSlot(disk, i, c), i) == c
  {
    ReadWrittenSectors(disk, i, c, SECTORS_PER_SLOT);
    assert c[..SECTORS_PER_SLOT * DISK_SECTOR_SIZE] == c;
  }

  /** anon_initializer: the page becomes anonymous and holds no swap slot. */
  method AnonInitializer(page: Page) returns (ok: bool)
    modifies page
    ensures ok && page.variant == AnonPage(-1) && page.frame == old(page.frame)
  {
    page.variant := AnonPage(-1);
    ok := true;
  }

  /** The swap disk and the swap_table occupancy array. */
  class SwapTable {
    /** swap_table: slot i is occupied when slots[i] holds. */
    const slots: array<bool>
    /** swap_size: the number of slots the disk holds (its sector count over eight). */
    const size: nat
    /** The swap disk, sector by sector. */
    var disk: seq<seq<byte>>

    ghost predicate Valid()
      reads this
    {
      && slots.Length == SWAP_TABLE_LEN
      && size <= SWAP_TABLE_LEN
      && size * SECTORS_PER_SLOT <= |disk|
      && SectorsWellSized(disk)
    }

    /**
     * vm_anon_init: a disk of `diskSize` sectors gives diskSize/8 slots, all
     * of which start free. The disk's own bytes are outside the model and
     * start as zeros.
     */
    constructor (diskSize: nat)
      requires diskSize / SECTORS_PER_SLOT <= SWAP_TABLE_LEN
      ensures Valid() && fresh(slots)
      ensures size == diskSize / SECTORS_PER_SLOT && |disk| == diskSize
      ensures forall i :: 0 <= i < size ==> !slots[i]
    {
      var n := diskSize / SECTORS_PER_SLOT;
      size := n;
      slots := new bool[SWAP_TABLE_LEN];
      disk := seq(diskSize, _ => seq(DISK_SECTOR_SIZE, _ => 0));
      new;
      var i := 0;
      while i < n
        modifies slots
        invariant 0 <= i <= n
        invariant forall j :: 0 <= j < i ==> !slots[j]
      {
        slots[i] := false;
        i := i + 1;
      }
    }

    /**
     * The scan of anon_swap_out: the lowest-numbered free slot, or None
     * when every slot is occupied.
     */
    method LowestFreeSlot() returns (r: Option<nat>)
      requires Valid()
      ensures r.Some? ==> r.value < size && !slots[r.value]
                          && forall j :: 0 <= j < r.value ==> slots[j]
      ensures r.None? ==> forall j :: 0 <= j < size ==> slots[j]
    {
      var i := 0;
      while i < size
        invariant 0 <= i <= size
        invariant forall j :: 0 <= j < i ==> slots[j]
      {
        if !slots[i] {
          return Some(i);
        }
        i := i + 1;
      }
      return None;
    }

    /**
     * anon_swap_out: writes the page into the lowest free slot, marks that
     * slot (and no other) occupied, records it on the page, detaches page
     * and frame from each other and clears the mapping. With every slot
     * occupied it fails and changes nothing.
     */
    method SwapOut(page: Page, pml4: PageTable) returns (ok: bool)
      requires Valid()
      requires page.variant.AnonPage? && page.frame != null && |page.frame.content| == PGSIZE
      modifies this, slots, page, page.frame, pml4
      ensures Valid() && |disk| == old(|disk|)
      ensures ok <==> exists j :: 0 <= j < size && !old(slots[j])
      ensures !ok ==> slots[..] == old(slots[..]) && disk == old(disk)
                      && page.variant == old(page.variant) && page.frame == old(page.frame)
                      && page.frame.page == old(page.frame.page)
                      && page.frame.content == old(page.frame.content)
                      && pml4.entries == old(pml4.entries)
      ensures ok ==> page.variant.AnonPage? && 0 <= page.variant.swapIndex < size
      ensures ok ==> var i := page.variant.swapIndex;
                     && !old(slots[i])
                     && (forall j :: 0 <= j < i ==> old(slots[j]))
                     && slots[..] == old(slots[..])[i := true]
                     && disk == WriteSlot(old(disk), i, old(page.frame.content))
      ensures ok ==> page.frame == null && old(page.frame).page == null
                     && old(page.frame).content == old(page.frame.content)
                     && pml4.entries == old(pml4.entries) - {page.va}
    {
      var slot := LowestFreeSlot();
      if slot.None? {
        return false;
      }
      var i := slot.value;
      var frame := page.frame;
      var ds := 0;
      while ds < SECTORS_PER_SLOT
        modifies this
        invariant 0 <= ds <= SECTORS_PER_SLOT
        invariant disk == WriteSectors(old(disk), i, frame.content, ds)
      {
        disk := disk[SlotSector(i, ds) := SectorOf(frame.content, ds)];
        ds := ds + 1;
      }
      WriteSlotKeepsSectorSize(old(disk), i, frame.content);
      page.variant := AnonPage(i);
      slots[i] := true;
      frame.page := null;
      page.frame := null;
      pml4.ClearPage(page.va);
      ok := true;
    }

    /**
     * anon_swap_in: reads the page's slot into the frame, frees that slot
     * (and no other) and resets the page's slot index to -1.
     */
    method SwapIn(page: Page, frame: Frame) returns (ok: bool)
      requires Valid()
      requires page.variant.AnonPage? && 0 <= page.variant.swapIndex < size
      requires |frame.content| == PGSIZE
      modifies slots, page, frame
      ensures ok
      ensures frame.content == ReadSlot(disk, old(page.variant.swapIndex)) && |frame.content| == PGSIZE
      ensures slots[..] == old(slots[..])[old(page.variant.swapIndex) := false]
      ensures page.variant == AnonPage(-1) && page.frame == old(page.frame)
      ensures frame.page == old(frame.page)
    {
      var i := page.variant.swapIndex;
      var ds := 0;
      while ds < SECTORS_PER_SLOT
        modifies frame
        invariant 0 <= ds <= SECTORS_PER_SLOT
        invariant |frame.content| == PGSIZE
        invariant frame.content[..ds * DISK_SECTOR_SIZE] == ReadSectors(disk, i, ds)
        invariant frame.page == old(frame.page)
      {
        var sector := disk[SlotSector(i, ds)];
        var lo := ds * DISK_SECTOR_SIZE;
        var hi := (ds + 1) * DISK_SECTOR_SIZE;
        ghost var before := frame.content;
        frame.content := frame.content[..lo] + sector + frame.content[hi..];
        assert frame.content[..lo] == before[..lo];
        assert frame.content[..hi] == frame.content[..lo] + sector;
        ds := ds + 1;
      }
      assert frame.content == frame.content[..SECTORS_PER_SLOT * DISK_SECTOR_SIZE];
      slots[i] := false;
      page.variant := AnonPage(-1);
      ok := true;
    }

    /** anon_destroy: frees the page's slot when it holds one, and otherwise changes nothing. */
    method Destroy(page: Page)
      requires Valid() && page.variant.AnonPage?
      requires page.variant.swapIndex == -1 || 0 <= page.variant.swapIndex < size
      modifies slots
      ensures page.variant.swapIndex == -1 ==> slots[..] == old(slots[..])
      ensures page.variant.swapIndex != -1 ==>
                slots[..] == old(slots[..])[page.variant.swapIndex := false]
    {
      if page.variant.swapIndex == -1 {
        return;
      }
      slots[page.variant.swapIndex] := false;
    }

    /**
     * A swap-out followed by a swap-in of the same page into another frame
     * leaves the occupancy array as it was and reproduces the page's bytes.
     */
    method SwapRoundTrip(page: Page, pml4: PageTable, into: Frame) returns (ok: bool)
      requires Valid()
      requires page.variant.AnonPage? && page.frame != null && |page.frame.content| == PGSIZE
      requires |into.content| == PGSIZE && into != page.frame
      modifies this, slots, page, page.frame, pml4, into
      ensures Valid()
      ensures ok ==> slots[..] == old(slots[..])
      ensures ok ==> into.content == old(page.frame.content) && page.variant == AnonPage(-1)
    {
      ok := SwapOut(page, pml4);
      if ok {
        ghost var i := page.variant.swapIndex;
        var _ := SwapIn(page, into);
        SlotRoundTrip(old(disk), i, old(page.frame.content));
        assert old(slots[..])[i := true][i := false] == old(slots[..]);
      }
    }
  }
}
