/**
 * Guest-physical memory partitioning and software two-stage translation
 * (module `guest::pmap`).
 *
 * Every guest owns one fixed segment of host-physical memory: guest `g` is
 * placed at `(g + 1) * GUEST_SEGMENT_SIZE`, so the first segment is never
 * given to any guest. The first translation stage is walked in software
 * through the guest's own page table, the second through the guest's
 * memory set, as in the two-stage translation of section 8.5 of the RISC-V
 * Privileged Architecture (version 1.12).
 */
module Pmap {
  import opened Wrappers
  import opened Words
  import opened PageTable
  import opened Mm

  /** `segment_layout::GUEST_SEGMENT_SIZE`: 128 MiB per guest. */
  const GUEST_SEGMENT_SIZE: int := 128 * 1024 * 1024

  /** The literal mask applied to `vsatp`: the low 42 bits. */
  const ROOT_PPN_MASK: bv64 := 0x3ff_ffff_ffff

  /** 2^42, one more than `ROOT_PPN_MASK`. */
  const ROOT_PPN_LIMIT: int := 0x400_0000_0000

  /** Size of a page (the shift by 12 turns a page number into an address). */
  const PAGE_SIZE: int := 0x1000

  /** First host-physical address of guest `guestId`'s segment. */
  function SegmentBase(guestId: Usize): (base: int)
  {
    (guestId + 1) * GUEST_SEGMENT_SIZE
  }

  /** `hpa` lies in the host-physical segment of guest `guestId`. */
  ghost predicate InSegment(hpa: int, guestId: Usize)
  {
    SegmentBase(guestId) <= hpa < SegmentBase(guestId) + GUEST_SEGMENT_SIZE
  }

  /**
   * `gpa2hpa`: the host-physical address of guest-physical address `va` of
   * guest `guestId`. The requires is the condition under which the `usize`
   * arithmetic does not overflow.
   */
  function Gpa2Hpa(va: Usize, guestId: Usize): (hpa: Usize)
    requires va + SegmentBase(guestId) < USIZE_LIMIT
    ensures SegmentBase(guestId) <= hpa
    ensures va < GUEST_SEGMENT_SIZE ==> InSegment(hpa, guestId)
  {
    va + SegmentBase(guestId)
  }

  /**
   * `hpa2gpa`: the guest-physical address of host-physical address `pa` for
   * guest `guestId`. The requires is the condition under which the `usize`
   * subtraction does not underflow (which also keeps the segment base below
   * the `usize` limit).
   */
  function Hpa2Gpa(pa: Usize, guestId: Usize): (gpa: Usize)
    requires SegmentBase(guestId) <= pa
    ensures gpa <= pa
    ensures InSegment(pa, guestId) <==> gpa < GUEST_SEGMENT_SIZE
  {
    pa - SegmentBase(guestId)
  }

  /** Translating a guest-physical address to the host and back gives it back. */
  lemma GuestHostGuest(va: Usize, guestId: Usize)
    requires va + SegmentBase(guestId) < USIZE_LIMIT
    ensures Hpa2Gpa(Gpa2Hpa(va, guestId), guestId) == va
  {
  }

  /** Translating a host address of the guest's range to the guest and back gives it back. */
  lemma HostGuestHost(pa: Usize, guestId: Usize)
    requires SegmentBase(guestId) <= pa
    ensures Gpa2Hpa(Hpa2Gpa(pa, guestId), guestId) == pa
  {
  }

  /** Guest 0 starts at the second segment: the first one stays reserved. */
  lemma FirstGuestSkipsReservedSegment()
    ensures Gpa2Hpa(0, 0) == GUEST_SEGMENT_SIZE == 134217728
  {
  }

  /** No host address below `GUEST_SEGMENT_SIZE` belongs to any guest. */
  lemma ReservedSegmentIsUnowned(hpa: int, guestId: Usize)
    requires hpa < GUEST_SEGMENT_SIZE
    ensures !InSegment(hpa, guestId)
  {
  }

  /** The segments of two distinct guests do not overlap. */
  lemma SegmentsDisjoint(hpa: int, g1: Usize, g2: Usize)
    requires InSegment(hpa, g1) && InSegment(hpa, g2)
    ensures g1 == g2
  {
  }

  /**
   * Every host address from `GUEST_SEGMENT_SIZE` up lies in the segment of
   * exactly one guest: the segments tile host memory above the reserved one.
   */
  lemma EachHostAddressHasOneOwner(hpa: Usize)
    requires GUEST_SEGMENT_SIZE <= hpa
    ensures exists g: Usize :: InSegment(hpa, g) && forall g': Usize :: InSegment(hpa, g') ==> g' == g
  {
    var g: Usize := hpa / GUEST_SEGMENT_SIZE - 1;
    assert InSegment(hpa, g);
    forall g': Usize | InSegment(hpa, g')
      ensures g' == g
    {
      SegmentsDisjoint(hpa, g, g');
    }
  }

  /**
   * Within their segments, distinct (guest, guest-physical address) pairs
   * are placed at distinct host-physical addresses.
   */
  lemma Gpa2HpaInjective(va1: Usize, g1: Usize, va2: Usize, g2: Usize)
    requires va1 < GUEST_SEGMENT_SIZE && va1 + SegmentBase(g1) < USIZE_LIMIT
    requires va2 < GUEST_SEGMENT_SIZE && va2 + SegmentBase(g2) < USIZE_LIMIT
    requires Gpa2Hpa(va1, g1) == Gpa2Hpa(va2, g2)
    ensures g1 == g2 && va1 == va2
  {
  }

  /**
   * The guest's first-stage page-table root, `(vsatp & 0x3ff_ffff_ffff) << 12`.
   * On a non-negative value the mask of 42 one-bits is the remainder modulo
   * 2^42 (`MaskIsRemainder`) and, since the masked value is below 2^42, the
   * shift by 12 is a multiplication by 4096 that loses no bit
   * (`ShiftIsMultiplication`).
   */
  function GuestRoot(vsatp: Usize): (root: Usize)
    ensures root % PAGE_SIZE == 0
    ensures root < ROOT_PPN_LIMIT * PAGE_SIZE
  {
    (vsatp % ROOT_PPN_LIMIT) * PAGE_SIZE
  }

  /** On a 64-bit word, masking with 42 one-bits is the remainder modulo 2^42. */
  lemma MaskIsRemainder(vsatp: bv64)
    ensures vsatp & ROOT_PPN_MASK == vsatp % 0x400_0000_0000
  {
  }

  /**
   * On a 64-bit word, shifting the masked value left by 12 is a multiplication
   * by 4096 and shifting back recovers it, so no bit is lost.
   */
  lemma ShiftIsMultiplication(vsatp: bv64)
    ensures (vsatp & ROOT_PPN_MASK) << 12 == (vsatp & ROOT_PPN_MASK) * 0x1000
    ensures ((vsatp & ROOT_PPN_MASK) << 12) >> 12 == vsatp & ROOT_PPN_MASK
  {
  }

  /**
   * The root derivation on the 64-bit word itself,
   * `(vsatp & 0x3ff_ffff_ffff) << 12`: page-aligned and below 2^54.
   */
  function RootBits(vsatp: bv64): (root: bv64)
    ensures root & 0xfff == 0
    ensures root < 1 << 54
  {
    (vsatp & ROOT_PPN_MASK) << 12
  }

  /** Shifting the literal root back by 12 gives the masked page number. */
  lemma RootBitsShiftsBack(vsatp: bv64)
    ensures RootBits(vsatp) >> 12 == vsatp & ROOT_PPN_MASK
  {
  }

  /** On the 64-bit word, two values give the same root exactly when their low 42 bits agree. */
  lemma RootBitsDependsOnlyOnPpn(a: bv64, b: bv64)
    ensures RootBits(a) == RootBits(b) <==> a & ROOT_PPN_MASK == b & ROOT_PPN_MASK
  {
    if RootBits(a) == RootBits(b) {
      // shifting back by 12 recovers the masked value of each word
      RootBitsShiftsBack(a);
      RootBitsShiftsBack(b);
    }
  }

  /**
   * Two `vsatp` values give the same root exactly when they agree on the low
   * 42 bits: the mode and ASID fields above bit 42 do not matter.
   */
  lemma GuestRootDependsOnlyOnPpn(a: Usize, b: Usize)
    ensures GuestRoot(a) == GuestRoot(b) <==> a % ROOT_PPN_LIMIT == b % ROOT_PPN_LIMIT
  {
  }

  /** The root is the low 42 bits of `vsatp` read back as a page number. */
  lemma GuestRootPageNumber(vsatp: Usize)
    ensures GuestRoot(vsatp) / PAGE_SIZE == vsatp % ROOT_PPN_LIMIT
  {
  }

  /** A worked value: mode 8 (Sv39) in the top bits is dropped. */
  lemma GuestRootExample()
    ensures GuestRoot(0x8000_0000_00aa_bbc0) == 0xa_abbc_0000
  {
  }

  /**
   * `two_stage_translation`: walk the guest's own page table from the root
   * derived from `vsatp`, then translate the resulting guest-physical address
   * through the guest's memory set. A failure at either stage gives `None`.
   */
  function TwoStageTranslation<P>(walk: GuestWalker, guestId: Usize, guestVa: Usize, vsatp: Usize, gpm: MemorySet<P>)
    : (hostVa: Option<Usize>)
    ensures walk(guestId, GuestRoot(vsatp), guestVa).None? ==> hostVa.None?
    ensures walk(guestId, GuestRoot(vsatp), guestVa).Some? ==>
      hostVa == gpm.translateVa(walk(guestId, GuestRoot(vsatp), guestVa).value.guestPa)
  {
    match walk(guestId, GuestRoot(vsatp), guestVa)
    case Some(translation) =>
      var guestPa := translation.guestPa;
      (match gpm.translateVa(guestPa)
       case Some(hostVa) => Some(hostVa)
       case None => None)
    case None => None
  }

  /**
   * A translation succeeds with `hostVa` exactly when the walk yields some
   * guest-physical address that the memory set maps to `hostVa`.
   */
  lemma TwoStageTranslationSucceeds<P>(walk: GuestWalker, guestId: Usize, guestVa: Usize, vsatp: Usize,
                                        gpm: MemorySet<P>, hostVa: Usize)
    ensures TwoStageTranslation(walk, guestId, guestVa, vsatp, gpm) == Some(hostVa) <==>
      exists gpa :: walk(guestId, GuestRoot(vsatp), guestVa) == Some(GuestTranslation(gpa))
                 && gpm.translateVa(gpa) == Some(hostVa)
  {
  }

  /**
   * The translation reads `vsatp` afresh on every call and depends on it only
   * through its low 42 bits.
   */
  lemma TwoStageTranslationIgnoresVsatpHighBits<P>(walk: GuestWalker, guestId: Usize, guestVa: Usize,
                                                   vsatp1: Usize, vsatp2: Usize, gpm: MemorySet<P>)
    requires vsatp1 % ROOT_PPN_LIMIT == vsatp2 % ROOT_PPN_LIMIT
    ensures TwoStageTranslation(walk, guestId, guestVa, vsatp1, gpm)
         == TwoStageTranslation(walk, guestId, guestVa, vsatp2, gpm)
  {
  }
}
