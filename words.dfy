/**
 * Machine words of the 64-bit RISC-V target (RV64).
 *
 * Addresses and most register images are Rust `usize` values and are kept
 * here as bounded mathematical integers, so that the arithmetic of the
 * segment partitioning can be stated with its overflow conditions written
 * out. Control and status register images whose single bits the code sets
 * (`Sstatus`, `Hstatus`) are raw 64-bit bit-vectors.
 */
module Words {

  /** One more than the largest `usize` on RV64. */
  const USIZE_LIMIT: int := 0x1_0000_0000_0000_0000

  /** Rust `usize` on RV64: an unsigned 64-bit integer. */
  type Usize = x: int | 0 <= x < USIZE_LIMIT

  /** The raw bits of a 64-bit control and status register. */
  type CsrBits = bv64
}
