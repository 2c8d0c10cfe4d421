/**
 * The pieces of x86-64 paging the heap bring-up relies on: 4 KiB pages and
 * frames identified by their start address, rounding an address down to the
 * page that holds it, page-table entry flags and the mapper's error kinds.
 */
module Paging {
  /** Size in bytes of one page and of one physical frame. */
  const PageSize: nat := 4096

  /** A 4 KiB physical frame, identified by its start address. */
  datatype PhysFrame = PhysFrame(startAddress: nat)

  /** A 4 KiB virtual page, identified by its start address. */
  datatype Page = Page(startAddress: nat)

  /** Page-table entry flags set by the heap bring-up. */
  datatype Flag = Present | Writable

  /** Errors of `Mapper::map_to`, which `init_heap` also returns. */
  datatype MapToError = FrameAllocationFailed | ParentEntryHugePage | PageAlreadyMapped

  /** The start of the 4 KiB block holding `addr`. */
  function AlignDown(addr: nat): (r: nat)
    ensures r % PageSize == 0
    ensures r <= addr < r + PageSize
  {
    addr - addr % PageSize
  }

  /** `PhysFrame::containing_address`: the frame whose 4 KiB hold `addr`. */
  function FrameContaining(addr: nat): (f: PhysFrame)
    ensures f.startAddress % PageSize == 0
    ensures f.startAddress <= addr < f.startAddress + PageSize
  {
    PhysFrame(AlignDown(addr))
  }

  /** `Page::containing_address`: the page whose 4 KiB hold `addr`. */
  function PageContaining(addr: nat): (p: Page)
    ensures p.startAddress % PageSize == 0
    ensures p.startAddress <= addr < p.startAddress + PageSize
  {
    Page(AlignDown(addr))
  }

  /** Rounding down keeps the order of addresses. */
  lemma AlignDownMonotone(a: nat, b: nat)
    requires a <= b
    ensures AlignDown(a) <= AlignDown(b)
  {
  }

  /** An address that is already a multiple of 4096 is its own block start. */
  lemma AlignDownAligned(a: nat)
    requires a % PageSize == 0
    ensures AlignDown(a) == a
  {
  }
}
