/** Page arithmetic of the allocator: the page size, page rounding, the size of
    the reference-count table, and the map between physical page addresses and
    dense page indices over the managed range [PGROUNDUP(end), PHYSTOP). */
module PageLayout {

  /** Bytes per physical page (PGSIZE). */
  const PGSIZE: nat := 4096

  /** sizeof(uint): the width in bytes of one reference counter. */
  const COUNTER_SIZE: nat := 4

  /** The largest value of a 32-bit `uint`. */
  const UINT_MAX: int := 0xFFFF_FFFF

  /** A 32-bit unsigned reference counter. */
  newtype uint32 = x: int | 0 <= x <= 0xFFFF_FFFF

  /** PGROUNDUP: the smallest multiple of PGSIZE that is at least `a`. */
  function PgRoundUp(a: nat): (r: nat)
    ensures r % PGSIZE == 0
    ensures a <= r < a + PGSIZE
  {
    (a + PGSIZE - 1) / PGSIZE * PGSIZE
  }

  /** No page-aligned address at or above `a` lies below PGROUNDUP(a). */
  lemma RoundUpIsLeast(a: nat, m: nat)
    requires m % PGSIZE == 0 && a <= m
    ensures PgRoundUp(a) <= m
  {
    var r := PgRoundUp(a);
    assert r == r / PGSIZE * PGSIZE && m == m / PGSIZE * PGSIZE;
  }

  /** refcount_pages: the number of whole pages the table of `pages`
      counters occupies, that is, ceil(pages * sizeof(uint) / PGSIZE). */
  function RefcountPages(pages: nat): (r: nat)
    ensures (r - 1) * PGSIZE < pages * COUNTER_SIZE <= r * PGSIZE
    ensures r <= pages
    ensures 0 < pages ==> 0 < r
  {
    PgRoundUp(pages * COUNTER_SIZE) / PGSIZE
  }

  /** The managed range, fixed at boot by the linker symbol `end` (first
      address after the kernel image) and the top of RAM, PHYSTOP. */
  datatype Layout = Layout(kernelEnd: nat, phystop: nat) {

    /** What the kernel guarantees of the two symbols: the kernel ends at a
        non-null address no higher than PHYSTOP, and PHYSTOP is page-aligned. */
    predicate WellFormed()
    {
      0 < kernelEnd <= phystop && phystop % PGSIZE == 0
    }

    /** kmem.refcount: the table sits at the page-rounded kernel end, which
        is also the address of page index 0. */
    function Base(): (b: nat)
      ensures b % PGSIZE == 0 && kernelEnd <= b < kernelEnd + PGSIZE
    {
      PgRoundUp(kernelEnd)
    }

    /** pages: the number of whole pages between the table base and PHYSTOP;
        they tile the range exactly. */
    function Pages(): (n: nat)
      requires WellFormed()
      ensures Base() + n * PGSIZE == phystop
    {
      RoundUpIsLeast(kernelEnd, phystop);
      (phystop - Base()) / PGSIZE
    }

    /** The pages at the bottom of the range that hold the table itself. */
    function MetaPages(): (m: nat)
      requires WellFormed()
      ensures m <= Pages()
    {
      RefcountPages(Pages())
    }

    /** The physical address of page index `i`. */
    function Addr(i: nat): nat
    {
      Base() + i * PGSIZE
    }

    /** PG_INDEX(pa): the page index of an address at or above the table. */
    function PgIndex(pa: nat): (i: nat)
      requires Base() <= pa
      ensures Addr(i) <= pa < Addr(i) + PGSIZE
    {
      (pa - Base()) / PGSIZE
    }

    /** kfree's sanity check: `pa` is page-aligned, not below `end` and below
        PHYSTOP. It accepts exactly the start addresses of the managed pages,
        so PG_INDEX of an accepted address is a valid table index. */
    function Accepts(pa: nat): (ok: bool)
      requires WellFormed()
      ensures ok <==> Base() <= pa && PgIndex(pa) < Pages() && Addr(PgIndex(pa)) == pa
    {
      if pa % PGSIZE == 0 && kernelEnd <= pa then
        RoundUpIsLeast(kernelEnd, pa);
        pa < phystop
      else
        false
    }
  }

  /** Stepping through the range one page at a time: the page after page
      `k` starts PGSIZE higher, and it fits below PHYSTOP exactly when `k`
      is not the last page. */
  lemma NextPage(l: Layout, k: nat)
    requires l.WellFormed()
    ensures l.Addr(k) + PGSIZE == l.Addr(k + 1)
    ensures l.Addr(k) + PGSIZE <= l.phystop <==> k < l.Pages()
  {
    assert l.Addr(k) + PGSIZE == l.Base() + (k + 1) * PGSIZE;
    assert l.phystop == l.Base() + l.Pages() * PGSIZE;
  }

  /** PG_INDEX inverts the page addressing: page `i` maps back to `i`, and its
      address passes kfree's check. */
  lemma PgIndexOfAddr(l: Layout, i: nat)
    requires l.WellFormed() && i < l.Pages()
    ensures l.Base() <= l.Addr(i) && l.PgIndex(l.Addr(i)) == i
    ensures l.Accepts(l.Addr(i))
  {
    assert l.Addr(i) - l.Base() == i * PGSIZE;
    assert l.Addr(i) < l.Base() + l.Pages() * PGSIZE by {
      assert (i + 1) * PGSIZE <= l.Pages() * PGSIZE;
    }
  }
}
