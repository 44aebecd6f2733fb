/**
 * The trap context (`trap::context`): the fixed-layout save area holding the
 * 32 general-purpose registers and the CSR images that the trap-return path
 * loads to enter a guest and the trap-entry path fills when the guest traps.
 */
module Trap {
  import opened Words

  /** Number of general-purpose register slots `x[0..31]`. */
  const REG_COUNT: int := 32

  /** Index of the stack pointer, `x2`. */
  const SP: int := 2

  /** `sstatus.SPP`, bit 8: the privilege the hart returns to (section 4.1.1 of the privileged specification). */
  const SSTATUS_SPP: CsrBits := 1 << 8

  /** `hstatus.SPV`, bit 7: the return is to a virtualized mode (section 8.2.1 of the privileged specification). */
  const HSTATUS_SPV: CsrBits := 1 << 7

  /** The 32 general-purpose register slots. */
  type Registers = x: seq<Usize> | |x| == REG_COUNT witness ZeroRegisters()

  /** All register slots zero, `[0; 32]`. */
  function ZeroRegisters(): (x: seq<Usize>)
    ensures |x| == REG_COUNT && forall i :: 0 <= i < |x| ==> x[i] == 0
  {
    seq(REG_COUNT, _ => 0)
  }

  /** The previous-privilege value that `sstatus.SPP` encodes. */
  datatype Spp = User | Supervisor

  /** `Sstatus::set_spp`: SPP becomes `spp`, every other bit is kept. */
  function SetSpp(sstatus: CsrBits, spp: Spp): (r: CsrBits)
    ensures r & !SSTATUS_SPP == sstatus & !SSTATUS_SPP
  {
    if spp == Supervisor then sstatus | SSTATUS_SPP else sstatus & !SSTATUS_SPP
  }

  /** `Sstatus::spp`: the previous privilege recorded in SPP. */
  function GetSpp(sstatus: CsrBits): (spp: Spp)
  {
    if sstatus & SSTATUS_SPP == 0 then User else Supervisor
  }

  /** `Hstatus::set_spv`: SPV becomes `spv`, every other bit is kept. */
  function SetSpv(hstatus: CsrBits, spv: bool): (r: CsrBits)
    ensures r & !HSTATUS_SPV == hstatus & !HSTATUS_SPV
  {
    if spv then hstatus | HSTATUS_SPV else hstatus & !HSTATUS_SPV
  }

  /** `Hstatus::spv`: whether SPV is set. */
  function GetSpv(hstatus: CsrBits): (spv: bool)
  {
    hstatus & HSTATUS_SPV != 0
  }

  /** Reading SPP back after setting it gives the value set. */
  lemma GetSetSpp(sstatus: CsrBits, spp: Spp)
    ensures GetSpp(SetSpp(sstatus, spp)) == spp
  {
  }

  /** Reading SPV back after setting it gives the value set. */
  lemma GetSetSpv(hstatus: CsrBits, spv: bool)
    ensures GetSpv(SetSpv(hstatus, spv)) == spv
  {
  }

  /**
   * A register image is determined by its SPP bit and its other bits: this is
   * what makes "set SPP, keep the rest" a complete description of `SetSpp`.
   */
  lemma SppAndRestDetermineSstatus(a: CsrBits, b: CsrBits)
    requires GetSpp(a) == GetSpp(b) && a & !SSTATUS_SPP == b & !SSTATUS_SPP
    ensures a == b
  {
  }

  /** Likewise for SPV and `hstatus`. */
  lemma SpvAndRestDetermineHstatus(a: CsrBits, b: CsrBits)
    requires GetSpv(a) == GetSpv(b) && a & !HSTATUS_SPV == b & !HSTATUS_SPV
    ensures a == b
  {
  }

  /**
   * `TrapContext`: the register slots, the `sstatus` image, the saved program
   * counter, the second-stage page-table token, the hypervisor stack pointer,
   * the trap-handler address and the `hstatus` image.
   */
  datatype TrapContext = TrapContext(
    x: Registers,
    sstatus: CsrBits,
    sepc: Usize,
    hgatp: Usize,
    kernelSp: Usize,
    trapHandler: Usize,
    hstatus: CsrBits)
  {
    /** `set_sp` applied to a context value: slot 2 becomes `sp`, nothing else changes. */
    function WithSp(sp: Usize): (r: TrapContext)
      ensures r.x[SP] == sp
      ensures forall i :: 0 <= i < REG_COUNT && i != SP ==> r.x[i] == x[i]
      ensures r.sstatus == sstatus && r.sepc == sepc && r.hgatp == hgatp
      ensures r.kernelSp == kernelSp && r.trapHandler == trapHandler && r.hstatus == hstatus
    {
      this.(x := x[SP := sp])
    }
  }

  /** The values `sstatus::read()` and `hstatus::read()` return on the current hart. */
  datatype CsrReadings = CsrReadings(sstatus: CsrBits, hstatus: CsrBits)

  /**
   * `initialize_context`: a fresh context for a guest's first entry. The
   * registers are zero except the stack pointer, the guest resumes at `entry`
   * in supervisor mode (SPP set) and virtualized (SPV set); every other CSR
   * bit is as read, and the remaining fields are the arguments.
   */
  function InitializeContext(entry: Usize, sp: Usize, hgatp: Usize, kernelSp: Usize, trapHandler: Usize,
                             csrs: CsrReadings): (cx: TrapContext)
    ensures cx.x[SP] == sp
    ensures forall i :: 0 <= i < REG_COUNT && i != SP ==> cx.x[i] == 0
    ensures cx.sepc == entry
    ensures cx.hgatp == hgatp && cx.kernelSp == kernelSp && cx.trapHandler == trapHandler
    ensures GetSpp(cx.sstatus) == Supervisor && cx.sstatus & !SSTATUS_SPP == csrs.sstatus & !SSTATUS_SPP
    ensures GetSpv(cx.hstatus) && cx.hstatus & !HSTATUS_SPV == csrs.hstatus & !HSTATUS_SPV
  {
    var sstatus := SetSpp(csrs.sstatus, Supervisor);
    var hstatus := SetSpv(csrs.hstatus, true);
    var cx := TrapContext(ZeroRegisters(), sstatus, entry, hgatp, kernelSp, trapHandler, hstatus);
    cx.WithSp(sp)
  }

  /**
   * The properties listed in `InitializeContext`'s contract determine the
   * context completely: any context that has them is the one it returns.
   */
  lemma InitializeContextIsDetermined(entry: Usize, sp: Usize, hgatp: Usize, kernelSp: Usize,
                                      trapHandler: Usize, csrs: CsrReadings, cx: TrapContext)
    requires cx.x[SP] == sp
    requires forall i :: 0 <= i < REG_COUNT && i != SP ==> cx.x[i] == 0
    requires cx.sepc == entry
    requires cx.hgatp == hgatp && cx.kernelSp == kernelSp && cx.trapHandler == trapHandler
    requires GetSpp(cx.sstatus) == Supervisor && cx.sstatus & !SSTATUS_SPP == csrs.sstatus & !SSTATUS_SPP
    requires GetSpv(cx.hstatus) && cx.hstatus & !HSTATUS_SPV == csrs.hstatus & !HSTATUS_SPV
    ensures cx == InitializeContext(entry, sp, hgatp, kernelSp, trapHandler, csrs)
  {
  }

  /**
   * Setting the stack pointer twice keeps only the second value, and setting
   * it to the value it already holds changes nothing.
   */
  lemma WithSpOverwrites(cx: TrapContext, sp1: Usize, sp2: Usize)
    ensures cx.WithSp(sp1).WithSp(sp2) == cx.WithSp(sp2)
    ensures cx.WithSp(cx.x[SP]) == cx
  {
  }

  /**
   * The per-hart trap-context slot, the save area at the fixed address
   * `TRAP_CONTEXT`. The register slots are an array that is updated in place;
   * the slot is overwritten whenever a guest is primed for entry.
   */
  class TrapContextSlot {
    const x: array<Usize>
    var sstatus: CsrBits
    var sepc: Usize
    var hgatp: Usize
    var kernelSp: Usize
    var trapHandler: Usize
    var hstatus: CsrBits

    ghost predicate Valid()
      reads this
    {
      x.Length == REG_COUNT
    }

    /** The context value the slot currently holds. */
    function Value(): (cx: TrapContext)
      reads this, x
      requires Valid()
    {
      TrapContext(x[..], sstatus, sepc, hgatp, kernelSp, trapHandler, hstatus)
    }

    /** A slot before its first use on a hart: the CSR fields hold whatever they hold. */
    constructor ()
      ensures Valid() && fresh(x)
    {
      x := new Usize[REG_COUNT];
    }

    /** `set_sp` on the installed context: register slot 2 is written in place. */
    method SetSp(sp: Usize)
      requires Valid()
      modifies x
      ensures Valid()
      ensures Value() == old(Value()).WithSp(sp)
    {
      x[SP] := sp;
    }

    /** `*trap_ctx = cx`: the whole slot is overwritten with `cx`. */
    method Store(cx: TrapContext)
      requires Valid()
      modifies this, x
      ensures Valid()
      ensures Value() == cx
    {
      forall i | 0 <= i < REG_COUNT {
        x[i] := cx.x[i];
      }
      sstatus, sepc, hgatp := cx.sstatus, cx.sepc, cx.hgatp;
      kernelSp, trapHandler, hstatus := cx.kernelSp, cx.trapHandler, cx.hstatus;
    }
  }
}
