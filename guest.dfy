/**
 * The guest handle and its creation (`guest::Guest`).
 *
 * Creating a guest primes the hart's single trap-context slot for the
 * guest's first entry and hands back a `Guest` that owns the guest's
 * second-stage memory set.
 */
module Guests {
  import opened Wrappers
  import opened Words
  import opened Mm
  import opened Trap

  /** `Guest<P>`: the guest's memory set and its id. */
  datatype Guest<P> = Guest(gpm: MemorySet<P>, guestId: Usize)

  /**
   * What guest creation reads from outside the modelled code: the guest entry
   * address `GUEST_START_VA`, the address of `trap_handler`, the top of the
   * hypervisor stack `hstack_alloc` gives each guest id, and the current
   * `sstatus` and `hstatus`.
   */
  datatype Platform = Platform(
    guestStartVa: Usize,
    trapHandler: Usize,
    hstackTop: Usize -> Usize,
    csrs: CsrReadings)

  /**
   * `Guest::new`: overwrite the hart's trap-context slot with the guest's
   * initial context (stack pointer 0, entry `GUEST_START_VA`, the memory
   * set's token, the guest's hypervisor stack and the trap handler) and
   * return the handle. Whatever the slot held before is gone.
   */
  method NewGuest<P>(platform: Platform, trapCtx: TrapContextSlot, guestId: Usize, gpm: MemorySet<P>)
    returns (guest: Guest<P>)
    requires trapCtx.Valid()
    modifies trapCtx, trapCtx.x
    ensures trapCtx.Valid()
    ensures guest.guestId == guestId && guest.gpm == gpm
    ensures trapCtx.Value() == InitializeContext(platform.guestStartVa, 0, gpm.token,
                                                 platform.hstackTop(guestId), platform.trapHandler,
                                                 platform.csrs)
  {
    var hstackTop := platform.hstackTop(guestId);
    trapCtx.Store(InitializeContext(platform.guestStartVa, 0, gpm.token, hstackTop, platform.trapHandler,
                                    platform.csrs));
    guest := Guest(gpm, guestId);
  }
}
