/**
 * Physical memory layout as seen by the frame table: the page size, the
 * kernel's direct map (`ptov`), how many user frames the table covers, and
 * the `index` macro that turns a user-pool frame address into a table slot.
 *
 * Addresses are naturals.  The C code computes in 32-bit `int` and stores the
 * slot number in a `uint32_t`; the conversion to 32 bits is written out with
 * `ToWord`, and C's truncating division with `CDiv`.
 */
module Layout {

  const PGSIZE: nat := 4096
  /** Base of the kernel's direct map of physical memory. */
  const PHYS_BASE: nat := 0xc000_0000
  const ONE_MB: nat := 0x10_0000
  /** Pages below the 1 MB mark, which the allocator never hands out. */
  const LOW_PAGES: nat := 256
  /** 2^32: `size_t` and `uint32_t` are 32 bits wide on this platform. */
  const WORD: nat := 0x1_0000_0000

  /**
   * RAM fits the kernel's direct map, the 1 GB from PHYS_BASE to the top of
   * the 32-bit address space.  Then `ptov` does not wrap, the pointer
   * difference `free_end - free_start` fits a `ptrdiff_t`, and the `(int)`
   * differences in `index` subtract two addresses of the same half of the
   * address space, so they are exact.
   */
  predicate RamFits(ram: nat) {
    ram * PGSIZE < WORD - PHYS_BASE
  }

  /** A machine whose memory extends past the 1 MB mark and fits the direct map. */
  predicate Platform(ram: nat) {
    LOW_PAGES <= ram && RamFits(ram)
  }

  /** Kernel virtual address of a physical address. */
  function Ptov(paddr: nat): nat
    requires paddr < PHYS_BASE
  {
    PHYS_BASE + paddr
  }

  /** C division of signed integers: truncates toward zero. */
  function CDiv(a: int, b: nat): int
    requires b > 0
  {
    if a >= 0 then a / b else -((-a) / b)
  }

  /** Conversion of an integer to a 32-bit unsigned value (wraps modulo 2^32). */
  function ToWord(x: int): nat {
    x % WORD
  }

  /** Pages between the 1 MB mark and the end of RAM (`free_pages`). */
  function FreePages(ram: nat): (f: nat)
    requires Platform(ram)
    ensures f == ram - LOW_PAGES
  {
    (Ptov(ram * PGSIZE) - Ptov(ONE_MB)) / PGSIZE
  }

  /**
   * Number of frame-table slots (`user_pages = free_pages / 2 - 1`, a
   * `size_t`): half the pages above 1 MB, minus one.  With fewer than two
   * pages above 1 MB the subtraction wraps around.
   */
  function UserPages(ram: nat): (n: nat)
    requires Platform(ram)
    ensures n < WORD
    ensures LOW_PAGES + 2 <= ram ==> n == (ram - LOW_PAGES) / 2 - 1
    ensures ram < LOW_PAGES + 2 ==> n == WORD - 1
  {
    ToWord(FreePages(ram) / 2 - 1)
  }

  /**
   * The `index` macro: slot number of the frame at kernel address `x`.  For
   * an address at or above the 1 MB mark it is the page number above 1 MB
   * less `free_pages/2 + 1`, with the same `free_pages` that sizes the table,
   * reduced modulo 2^32 by the `uint32_t` it is stored in.
   */
  function Index(ram: nat, x: nat): (slot: nat)
    requires Platform(ram)
    ensures slot < WORD
    ensures Ptov(ONE_MB) <= x ==>
              slot == ToWord((x - Ptov(ONE_MB)) / PGSIZE - FreePages(ram) / 2 - 1)
  {
    ToWord(CDiv(x - Ptov(ONE_MB), PGSIZE)
           - (Ptov(ram * PGSIZE) - Ptov(ONE_MB)) / PGSIZE / 2 - 1)
  }

  /** Kernel address of the frame that slot 0 describes. */
  function UserBase(ram: nat): nat
    requires Platform(ram)
  {
    Ptov(ONE_MB) + (FreePages(ram) / 2 + 1) * PGSIZE
  }

  /** Kernel address of the frame that slot `i` describes. */
  function SlotAddr(ram: nat, i: nat): nat
    requires Platform(ram)
  {
    UserBase(ram) + i * PGSIZE
  }

  /** A page-aligned address of a frame covered by the table. */
  predicate IsUserFrame(ram: nat, p: nat)
    requires Platform(ram)
  {
    && UserBase(ram) <= p
    && (p - UserBase(ram)) % PGSIZE == 0
    && (p - UserBase(ram)) / PGSIZE < UserPages(ram)
  }

  /**
   * The byte at page offset `o` of the page `p` pages above the 1 MB mark
   * lands in slot `p - free_pages/2 - 1`.
   */
  lemma IndexOfPageOffset(ram: nat, p: nat, o: nat)
    requires Platform(ram)
    requires FreePages(ram) / 2 + 1 <= p < FreePages(ram) / 2 + 1 + WORD
    requires o < PGSIZE
    ensures Index(ram, Ptov(ONE_MB) + p * PGSIZE + o) == p - FreePages(ram) / 2 - 1
  {
    var x := Ptov(ONE_MB) + p * PGSIZE + o;
    assert CDiv(x - Ptov(ONE_MB), PGSIZE) == p;
    assert (Ptov(ram * PGSIZE) - Ptov(ONE_MB)) / PGSIZE == FreePages(ram);
  }

  /** Every byte of slot `i`'s frame indexes back to slot `i`. */
  lemma SlotRoundTrip(ram: nat, i: nat, o: nat)
    requires Platform(ram)
    requires i < UserPages(ram) && o < PGSIZE
    ensures IsUserFrame(ram, SlotAddr(ram, i))
    ensures Index(ram, SlotAddr(ram, i) + o) == i
  {
    var p := FreePages(ram) / 2 + 1 + i;
    assert SlotAddr(ram, i) + o == Ptov(ONE_MB) + p * PGSIZE + o;
    IndexOfPageOffset(ram, p, o);
    assert (SlotAddr(ram, i) - UserBase(ram)) / PGSIZE == i;
  }

  /** A user frame's slot is in range, and the slot's address is that frame. */
  lemma UserFrameRoundTrip(ram: nat, x: nat)
    requires Platform(ram)
    requires IsUserFrame(ram, x)
    ensures Index(ram, x) < UserPages(ram)
    ensures SlotAddr(ram, Index(ram, x)) == x
  {
    var i := (x - UserBase(ram)) / PGSIZE;
    assert x == SlotAddr(ram, i);
    SlotRoundTrip(ram, i, 0);
  }

  /** Consecutive user frames occupy consecutive slots. */
  lemma IndexConsecutive(ram: nat, x: nat)
    requires Platform(ram)
    requires IsUserFrame(ram, x) && IsUserFrame(ram, x + PGSIZE)
    ensures Index(ram, x + PGSIZE) == Index(ram, x) + 1
  {
    UserFrameRoundTrip(ram, x);
    UserFrameRoundTrip(ram, x + PGSIZE);
  }

  /** Distinct user frames occupy distinct slots. */
  lemma IndexInjective(ram: nat, x: nat, y: nat)
    requires Platform(ram)
    requires IsUserFrame(ram, x) && IsUserFrame(ram, y)
    requires Index(ram, x) == Index(ram, y)
    ensures x == y
  {
    UserFrameRoundTrip(ram, x);
    UserFrameRoundTrip(ram, y);
  }
}
