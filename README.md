# Guest address translation and trap-context priming of a RISC-V hypervisor

This project models three pieces of the hypervisor's guest set-up and
address-translation code and proves their properties in Dafny.

- **Guest-physical partitioning** (`guest::pmap`). Each guest owns one fixed
  128 MiB segment of host-physical memory. Guest `g` starts at
  `(g + 1) * GUEST_SEGMENT_SIZE`, so the first segment belongs to nobody.
  `gpa2hpa` and `hpa2gpa` add and subtract that base. The model proves:
  - both round trips;
  - the segments are pairwise disjoint and tile host memory above the reserved one;
  - distinct guest addresses below the segment size never share a host address.
- **Software two-stage translation** (`pmap::two_stage_translation`). Stage 1
  walks the guest's own page table from the root held in `vsatp`. That root
  is `(vsatp & 0x3ff_ffff_ffff) << 12`. Stage 2 goes through the guest's
  memory set. This follows the two-stage translation of section 8.5 of the
  RISC-V Privileged Architecture (version 1.12), but does stage 1 in
  software. The model proves:
  - the root is page-aligned and below 2^54;
  - the root depends only on the low 42 bits of `vsatp`;
  - a failure at either stage gives `None`;
  - a success is exactly a stage-1 hit that stage 2 maps.
- **Trap-context priming** (`trap::context`, `Guest::new`). A `TrapContext`
  holds 32 register slots and the CSR images. It is a value (`Trap.TrapContext`).
  The per-hart save area at `TRAP_CONTEXT` is a class (`Trap.TrapContextSlot`)
  whose register slots are an array updated in place.
  - `initialize_context` zeroes the registers and puts the stack pointer in slot 2.
  - It sets `sstatus.SPP` (bit 8, section 4.1.1 of the privileged specification)
    to Supervisor and `hstatus.SPV` (bit 7, section 8.2.1) to 1, and keeps
    every other bit as read.
  - It copies the entry point, the second-stage token, the hypervisor stack
    pointer and the trap-handler address verbatim.
  - `Guest::new` overwrites the slot with that context and returns the handle.

Integers: `usize` is `Words.Usize`, the integers in `[0, 2^64)`. The overflow
conditions of `gpa2hpa` and `hpa2gpa` are their preconditions. These are the
conditions under which the Rust arithmetic neither panics nor wraps. `Sstatus`
and `Hstatus` images are `bv64`. The root derivation is written as
`(vsatp % 2^42) * 4096`. `Pmap.MaskIsRemainder` and
`Pmap.ShiftIsMultiplication` prove, on 64-bit words, that this is what the
mask and the shift compute. The step from the integer `vsatp` to its 64-bit
word is Dafny's own conversion and is not a proved lemma here. So the root is
also written on the word itself, `Pmap.RootBits`, which is
`(vsatp & 0x3ff_ffff_ffff) << 12` literally; its alignment, its bound and its
dependence on the low 42 bits alone are proved on that form too.

The `PPN` field of `satp` and `vsatp` in Sv39 is 44 bits wide (section
4.1.11 of the privileged specification). The literal mask at src/guest.rs:68
keeps only 42 bits. The model uses the literal: `vsatp` bits 42 and 43 do not
reach the root.

Values from outside the modelled code are parameters:
- the guest page-table walker `translate_guest_va` (`PageTable.GuestWalker`);
- the memory set's `token()` and `translate_va` (fields of `PageTable.MemorySet`);
- `GUEST_START_VA`, the `trap_handler` address and the stack top
  `hstack_alloc` gives each guest id (`Guests.Platform`);
- the values `sstatus::read()` and `hstatus::read()` return (`Trap.CsrReadings`).

`constants::layout`, `mm` and `page_table` are not part of this model.

## Model

| member | source | states |
|---|---|---|
| Pmap.Gpa2Hpa | src/guest.rs:59-61 | with no `usize` overflow, the host address is at or above the guest's segment base, and inside the guest's 128 MiB segment whenever the guest address is below the segment size |
| Pmap.Hpa2Gpa | src/guest.rs:63-65 | with no underflow, the guest address is at most the host address, and below the segment size exactly when the host address lies in the guest's segment |
| Pmap.GuestHostGuest | src/guest.rs:59-65 | `hpa2gpa(gpa2hpa(va, id), id) == va` |
| Pmap.HostGuestHost | src/guest.rs:59-65 | `gpa2hpa(hpa2gpa(pa, id), id) == pa` for every `pa` at or above the guest's base |
| Pmap.FirstGuestSkipsReservedSegment | src/guest.rs:56-61 | `gpa2hpa(0, 0)` is 128 MiB (134217728): guest 0 starts at the second segment |
| Pmap.ReservedSegmentIsUnowned | src/guest.rs:56-61 | no host address below 128 MiB lies in any guest's segment |
| Pmap.SegmentsDisjoint | src/guest.rs:56-61 | a host address in the segments of guests `g1` and `g2` forces `g1 == g2` |
| Pmap.EachHostAddressHasOneOwner | src/guest.rs:56-65 | every host address from 128 MiB up lies in the segment of exactly one guest |
| Pmap.Gpa2HpaInjective | src/guest.rs:59-61 | for guest addresses below the segment size, equal host addresses imply the same guest and the same guest address |
| Pmap.GuestRoot | src/guest.rs:68 | the derived first-stage root is 4 KiB-aligned and below 2^54 |
| Pmap.MaskIsRemainder | src/guest.rs:68 | on a 64-bit word, `& 0x3ff_ffff_ffff` is the remainder modulo 2^42 |
| Pmap.ShiftIsMultiplication | src/guest.rs:68 | on a 64-bit word, shifting the masked value left by 12 multiplies it by 4096 and loses no bit |
| Pmap.RootBits | src/guest.rs:68 | the literal `(vsatp & 0x3ff_ffff_ffff) << 12` on a 64-bit word has its low 12 bits clear and is below 2^54 |
| Pmap.RootBitsShiftsBack | src/guest.rs:68 | shifting the literal root right by 12 gives back exactly the masked low 42 bits of `vsatp`: the shift loses no bit |
| Pmap.RootBitsDependsOnlyOnPpn | src/guest.rs:68 | on 64-bit words, two `vsatp` values give the same literal root if and only if their masked low 42 bits are equal |
| Pmap.GuestRootDependsOnlyOnPpn | src/guest.rs:68 | two `vsatp` values give the same root if and only if they agree on bits 0-41; mode and ASID do not matter |
| Pmap.GuestRootPageNumber | src/guest.rs:68 | the root divided by the page size is the low 42 bits of `vsatp` |
| Pmap.GuestRootExample | src/guest.rs:68 | `vsatp = 0x8000000000aabbc0` gives root `0xaabbc0000` |
| Pmap.TwoStageTranslation | src/guest.rs:67-80 | if the walk fails, the result is `None` whatever stage 2 holds; if the walk yields `gpa`, the result is exactly `translate_va(gpa)` |
| Pmap.TwoStageTranslationSucceeds | src/guest.rs:70-79 | the result is `Some(h)` if and only if the walk yields some `gpa` and stage 2 maps `gpa` to `h` |
| Pmap.TwoStageTranslationIgnoresVsatpHighBits | src/guest.rs:67-70 | two `vsatp` values that agree on bits 0-41 give the same translation |
| Trap.ZeroRegisters | src/trap/context.rs:43 | 32 register slots, all zero |
| Trap.SetSpp | src/trap/context.rs:37-39 | setting SPP keeps every `sstatus` bit other than bit 8 |
| Trap.SetSpv | src/trap/context.rs:40-41 | setting SPV keeps every `hstatus` bit other than bit 7 |
| Trap.GetSetSpp | src/trap/context.rs:39 | SPP read back after `set_spp(m)` is `m` |
| Trap.GetSetSpv | src/trap/context.rs:41 | SPV read back after `set_spv(b)` is `b` |
| Trap.SppAndRestDetermineSstatus | src/trap/context.rs:37-39 | an `sstatus` image is determined by its SPP bit and its other bits, so "SPP set, rest as read" fixes the value |
| Trap.SpvAndRestDetermineHstatus | src/trap/context.rs:40-41 | an `hstatus` image is determined by its SPV bit and its other bits |
| Trap.TrapContext.WithSp | src/trap/context.rs:25-27 | `set_sp(sp)` on a context value: slot 2 becomes `sp`; every other slot and every other field is unchanged |
| Trap.WithSpOverwrites | src/trap/context.rs:25-27 | a second `set_sp` overrides the first; setting the current stack pointer changes nothing |
| Trap.InitializeContext | src/trap/context.rs:30-53 | `x[2] == sp` and every other slot is 0; `sepc == entry`; `hgatp`, `kernel_sp` and `trap_handler` are the arguments; `sstatus` has SPP = Supervisor and its other bits as read; `hstatus` has SPV set and its other bits as read |
| Trap.InitializeContextIsDetermined | src/trap/context.rs:30-53 | any context with the properties above equals `initialize_context(...)`: the result depends only on the arguments and the CSR readings |
| Trap.TrapContextSlot.constructor | src/trap/context.rs:6-21 | a slot with 32 register slots and arbitrary contents |
| Trap.TrapContextSlot.SetSp | src/trap/context.rs:25-27 | `set_sp` in place: the slot's new value is its old value with slot 2 set to `sp` |
| Trap.TrapContextSlot.Store | src/guest.rs:23-32 | `*trap_ctx = cx`: the slot's new value is `cx`, whatever it held before |
| Guests.NewGuest | src/guest.rs:16-37 | the handle carries the given `guest_id` and `gpm`; the slot holds `initialize_context(GUEST_START_VA, 0, gpm.token(), hstack_top(guest_id), trap_handler)`, independent of its earlier contents |

## Left out

- The `SHARED_DATA` lock acquired and released at once in `Guest::new` (src/guest.rs:20-21): it is a cross-hart synchronisation fence, and concurrency is not modelled.
- The raw-pointer access to the fixed `TRAP_CONTEXT` address (src/guest.rs:23): the save area is a `TrapContextSlot` object passed to `NewGuest`.
- The allocation of the hypervisor stack by `hstack_alloc` (src/guest.rs:18-19): the stack top of each guest id is a parameter.
- The hardware CSR reads `sstatus::read()` and `hstatus::read()` (src/trap/context.rs:37, 40): their values are parameters.
- The `htracking!` trace line (src/guest.rs:69): logging only.
- The commented-out `decode_inst_at_addr` (src/guest.rs:82-96): not compiled.
- `GuestPageTable::new_guest` (src/guest.rs:44-46): nothing in the modelled code calls it. The trait appears only as the type parameter `P` of `MemorySet` and `Guest`.
- The guest page-table walker and `MemorySet::translate_va` and `token`: their code is not part of this model. They are arbitrary functions and values, and every property holds for all of them.
- Pmap.Gpa2Hpa: does not model `usize` wrap-around. The no-overflow condition is a precondition. Without it, the Rust code panics in debug builds and wraps in release builds.
- Pmap.Hpa2Gpa: likewise, underflow below the segment base is excluded by the precondition instead of being modelled as wrap-around.
- The boot sequence in src/main.rs, including its three-argument call `Guest::new(0, gpm, guest_machine)`. That call does not match the two-argument `Guest::new` of src/guest.rs, which is the one modelled.
- One trap-context slot is modelled, the slot of the hart that creates the guest. Other harts' slots are not modelled.
