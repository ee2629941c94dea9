/**
 * Physical memory layout used by the page allocator: page size, the top of
 * managed RAM, the size of the reference-count table, page rounding, and the
 * range guard of the reference-count helpers.
 *
 * The values are those of the xv6 RISC-V kernel (memlayout.h and riscv.h are
 * not part of this model; the proofs rely on PHYSTOP % PGSIZE == 0 and on
 * KERNBASE > 0, so that no managed page sits at address 0, which stands for
 * null).
 */
module Layout {

  /** Bytes per page. */
  const PGSIZE: nat := 4096

  /** First byte of RAM; the kernel image, and so `end`, lies above it. */
  const KERNBASE: nat := 0x8000_0000

  /** One past the last byte of managed RAM. */
  const PHYSTOP: nat := KERNBASE + 128 * 1024 * 1024

  /** Entries of `refcounter`: one per page index below PHYSTOP. */
  const NPAGES: nat := PHYSTOP / PGSIZE

  /** PGROUNDUP: the smallest multiple of PGSIZE that is >= a. */
  function PgRoundUp(a: nat): (r: nat)
    ensures r % PGSIZE == 0
    ensures a <= r < a + PGSIZE
  {
    (a + PGSIZE - 1) / PGSIZE * PGSIZE
  }

  /** A page-aligned address at or above `a` is at or above PgRoundUp(a). */
  lemma RoundUpIsLeast(a: nat, i: nat)
    requires a <= i * PGSIZE
    ensures PgRoundUp(a) <= i * PGSIZE
    ensures PgRoundUp(a) / PGSIZE <= i
  {
    var r := PgRoundUp(a);
    var q := r / PGSIZE;
    assert r == q * PGSIZE;
  }

  /**
   * The range test of refCountIncrement, refCountDecrement and getRefCount
   * as written: only `address > PHYSTOP` is rejected. It accepts everything
   * the corrected test accepts, and the page index of anything it accepts is
   * at most NPAGES, one past the last entry of `refcounter`.
   */
  function AcceptsAsWritten(address: nat): (ok: bool)
    ensures InRange(address) ==> ok
    ensures ok ==> address / PGSIZE <= NPAGES
  {
    !(address > PHYSTOP)
  }

  /**
   * The defect of the written test: of all addresses, it lets through
   * exactly one that has no entry in `refcounter`, namely PHYSTOP, whose
   * page index is NPAGES.
   */
  lemma AsWrittenIndexesPastTable(address: nat)
    ensures AcceptsAsWritten(address) && !InRange(address) <==> address == PHYSTOP
    ensures address == PHYSTOP ==> address / PGSIZE == NPAGES
  {
  }

  /**
   * The corrected range test (`address >= PHYSTOP` rejected, as kfree does):
   * it accepts exactly the addresses whose page index has a table entry.
   */
  function InRange(address: nat): (ok: bool)
    ensures ok <==> address / PGSIZE < NPAGES
  {
    address < PHYSTOP
  }
}
