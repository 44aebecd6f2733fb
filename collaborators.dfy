/**
 * The page-table side of the hypervisor as the guest code sees it.
 *
 * The guest page-table walker (`page_table::translate_guest_va`) and the
 * second-stage memory set (`mm::MemorySet`, module `Mm` below) are
 * implemented outside the modelled code. They are represented by what the
 * modelled code observes of them: the walker as a function from (guest id, first-stage root,
 * guest-virtual address) to an optional translation, and the memory set by
 * its page table, its `token()` and its `translate_va` query.
 */
module PageTable {
  import opened Wrappers
  import opened Words

  /** The result of a successful guest page-table walk. */
  datatype GuestTranslation = GuestTranslation(guestPa: Usize)

  /**
   * `translate_guest_va(guest_id, guest_root, guest_va)`: walks the guest's own
   * first-stage page table rooted at the guest-physical address `guest_root`.
   */
  type GuestWalker = (Usize, Usize, Usize) -> Option<GuestTranslation>
}

/** The memory-set side of the hypervisor (`crate::mm`), as the guest code sees it. */
module Mm {
  import opened Wrappers
  import opened Words

  /**
   * A second-stage memory set over a page table of type `P`, the type that
   * satisfies the `GuestPageTable` capability; the `pageTable` field only
   * carries that type and nothing in the modelled code reads it. `token` is
   * the opaque second-stage root value (the `hgatp` image) and `translateVa`
   * maps a guest-physical address to a host-virtual one.
   */
  datatype MemorySet<P> = MemorySet(pageTable: P, token: Usize, translateVa: Usize -> Option<Usize>)
}
