/** The allocator object `kmem`: the reference-count table, the free list
    threaded through an index-based `next` array, and the four entry points
    kinit/freerange, kfree, kalloc and get_page. Every operation is proved to
    follow its counterpart in FreeListSpec and to keep the invariant. */
module KAlloc {
  import opened PageLayout
  import Spec = FreeListSpec

  class Kmem {
    /** The managed range [PGROUNDUP(end), PHYSTOP). */
    const layout: Layout
    /** kmem.refcount: one counter per managed page, by PG_INDEX. */
    const refcount: array<uint32>
    /** The `next` link of each free page, by page index; -1 ends the list. */
    const next: array<int>
    /** kmem.freelist as a page index; -1 when the list is empty. */
    var head: int
    /** The abstract state: the counters, and the free list from its head. */
    ghost var st: Spec.State

    /** The arrays hold the abstract state: the table holds its counters and
        `head` and `next` thread its free list; the state keeps the
        allocator invariant. */
    ghost predicate Valid()
      reads this, refcount, next
    {
      && layout.WellFormed()
      && refcount.Length == layout.Pages()
      && next.Length == layout.Pages()
      && refcount[..] == st.refcount
      && Spec.Threads(head, next[..], st.free)
      && Spec.Inv(st)
    }

    /** The pages holding the table itself are not on the free list. */
    ghost predicate MetadataReserved()
      reads this
    {
      layout.WellFormed() && Spec.Reserved(st, layout.MetaPages())
    }

    /** kinit: freerange(end, PHYSTOP). Places the table at the rounded-up
        kernel end, sized for every page up to PHYSTOP, then runs the rest of
        freerange. */
    constructor (kernelEnd: nat, phystop: nat)
      requires Layout(kernelEnd, phystop).WellFormed()
      ensures layout == Layout(kernelEnd, phystop)
      ensures Valid() && MetadataReserved()
      ensures st == Spec.Bootstrap(layout.Pages())
      ensures fresh(refcount) && fresh(next)
    {
      var l := Layout(kernelEnd, phystop);
      var pages := l.Pages();
      layout := l;
      refcount := new uint32[pages];
      next := new int[pages];
      head := -1;
      new;
      FreeRange();
    }

    /** The rest of freerange: seed the table pages with 2 and every other
        page with 1, then call kfree on every page of the range in ascending
        address order. The table pages end at 1, off the free list; every
        other page ends at 0, on it. */
    method FreeRange()
      requires layout.WellFormed()
      requires refcount.Length == layout.Pages() && next.Length == layout.Pages()
      requires head == -1
      modifies this, refcount, next
      ensures Valid() && MetadataReserved()
      ensures st == Spec.Bootstrap(layout.Pages())
    {
      var pages := layout.Pages();
      var meta := RefcountPages(pages);
      SeedCounts(pages, meta);
      st := Spec.Seed(pages, meta);
      Spec.SeedInv(pages, meta);
      FreeEach();
      Spec.BootstrapState(pages);
    }

    /** The loop of freerange: kfree every page of the range, from the table
        base up to PHYSTOP, one page at a time. */
    method FreeEach()
      requires layout.WellFormed()
      requires refcount.Length == layout.Pages() && next.Length == layout.Pages()
      requires Valid()
      requires st == Spec.Seed(layout.Pages(), layout.MetaPages())
      modifies this, refcount, next
      ensures Valid()
      ensures st == Spec.Bootstrap(layout.Pages())
    {
      var pages := layout.Pages();
      ghost var meta := layout.MetaPages();
      ghost var seeded := Spec.Seed(pages, meta);
      var p := layout.Base();
      ghost var k: nat := 0;
      while p + PGSIZE <= layout.phystop
        invariant k <= pages && p == layout.Addr(k)
        invariant Valid()
        invariant st == Spec.ReleaseRange(seeded, k)
        decreases pages - k
      {
        NextPage(layout, k);
        FreeStep(p, k);
        p := p + PGSIZE;
        k := k + 1;
      }
      NextPage(layout, k);
      assert k == pages;
      assert st == Spec.Bootstrap(pages);
    }

    /** One pass of the freerange loop: kfree the page at `p`, the `k`-th of
        the range, which still has its seeded owner. */
    method FreeStep(p: nat, ghost k: nat)
      requires Valid() && k < layout.Pages() && p == layout.Addr(k)
      requires st == Spec.ReleaseRange(Spec.Seed(layout.Pages(), layout.MetaPages()), k)
      modifies this, refcount, next
      ensures Valid()
      ensures st == Spec.ReleaseRange(Spec.Seed(layout.Pages(), layout.MetaPages()), k + 1)
    {
      PgIndexOfAddr(layout, k);
      Spec.OwnedWhenReached(layout.Pages(), layout.MetaPages(), k);
      var ok := Kfree(p);
    }

    /** The two seeding loops of freerange: counters below `meta` get 2,
        the others 1. */
    method SeedCounts(pages: nat, meta: nat)
      requires meta <= pages == refcount.Length
      modifies refcount
      ensures refcount[..] == Spec.Seed(pages, meta).refcount
    {
      var i := 0;
      while i < meta
        invariant 0 <= i <= meta
        invariant forall j :: 0 <= j < i ==> refcount[j] == 2
      {
        refcount[i] := 2;
        i := i + 1;
      }
      while i < pages
        invariant meta <= i <= pages
        invariant forall j :: 0 <= j < i ==> refcount[j] == if j < meta then 2 else 1
      {
        refcount[i] := 1;
        i := i + 1;
      }
    }

    /** kfree: refuse (panic) an address that is misaligned, below `end` or at
        or above PHYSTOP, changing nothing; otherwise drop one reference to
        its page. */
    method Kfree(pa: nat) returns (ok: bool)
      requires Valid()
      requires layout.Accepts(pa) ==> refcount[layout.PgIndex(pa)] >= 1
      modifies this, refcount, next
      ensures Valid()
      ensures ok == layout.Accepts(pa)
      ensures !ok ==> unchanged(this) && unchanged(refcount) && unchanged(next)
      ensures ok ==> st == Spec.Release(old(st), layout.PgIndex(pa))
    {
      if !layout.Accepts(pa) {
        ok := false;
        return;
      }
      ok := true;
      ReleasePage(layout.PgIndex(pa));
    }

    /** The body of kfree past its check: decrement the counter of page `i`
        and, when it reaches zero, push the page onto the free list head. */
    method ReleasePage(i: nat)
      requires Valid() && i < refcount.Length && refcount[i] >= 1
      modifies this, refcount, next
      ensures Valid()
      ensures st == Spec.Release(old(st), i)
    {
      ghost var before := st;
      ghost var after := Spec.Release(before, i);
      assert Spec.Inv(after) by {
        Spec.ReleasePreservesInv(before, i);
      }
      assert after.refcount == before.refcount[i := before.refcount[i] - 1];
      assert after.free == if before.refcount[i] == 1 then [i] + before.free else before.free;
      refcount[i] := refcount[i] - 1;
      assert refcount[..] == after.refcount;
      if refcount[i] == 0 {
        Spec.PushThreads(head, next[..], before.free, i);
        next[i] := head;
        head := i;
      }
      st := after;
    }

    /** kalloc: pop the free list head and give it one owner, returning its
        address; return 0 when the list is empty. */
    method Kalloc() returns (pa: nat)
      requires Valid()
      modifies this, refcount
      ensures Valid()
      ensures var g := Spec.Alloc(old(st));
        && st == g.state
        && pa == if g.page.Some? then layout.Addr(g.page.value) else 0
      ensures pa == 0 <==> old(st.free) == []
      ensures pa != 0 ==> layout.Accepts(pa)
      ensures old(MetadataReserved()) ==> MetadataReserved()
    {
      ghost var before := st;
      Spec.AllocPreservesInv(before);
      if MetadataReserved() {
        Spec.AllocKeepsReserved(before, layout.MetaPages());
      }
      if head == -1 {
        pa := 0;
        return;
      }
      var i := head;
      Spec.PopThreads(head, next[..], st.free);
      refcount[i] := 1;
      head := next[i];
      st := Spec.Alloc(before).state;
      assert refcount[..] == st.refcount;
      pa := layout.Addr(i);
      PgIndexOfAddr(layout, i);
    }

    /** get_page: add one owner to the page holding `pa`, without any check
        of `pa`; the counter wraps at 2^32. */
    method GetPage(pa: nat)
      requires Valid()
      requires layout.Base() <= pa && layout.PgIndex(pa) < layout.Pages()
      modifies this, refcount
      ensures st == Spec.Share(old(st), layout.PgIndex(pa))
      ensures refcount[..] == st.refcount && unchanged(`head)
      ensures 1 <= old(refcount[layout.PgIndex(pa)]) as int < UINT_MAX ==> Valid()
      ensures MetadataReserved() == old(MetadataReserved())
    {
      var i := layout.PgIndex(pa);
      if 1 <= refcount[i] as int < UINT_MAX {
        Spec.SharePreservesInv(st, i);
      }
      refcount[i] := Spec.Inc(refcount[i]);
      st := Spec.Share(st, i);
    }
  }

  /** The ten-page range used below: the kernel ends one byte past
      0x8000_0000, so the table starts at 0x8000_1000 and the range holds ten
      pages, the first of which holds the table. */
  lemma TenPageLayout()
    ensures var l := Layout(0x8000_0001, 0x8000_B000);
      && l.WellFormed() && l.Base() == 0x8000_1000
      && l.Pages() == 10 && l.MetaPages() == 1
  {
    var l := Layout(0x8000_0001, 0x8000_B000);
    assert l.Base() == 0x8000_1000;
    assert RefcountPages(10) == 1;
  }

  /** A managed range of exactly ten pages: one table page and nine free
      pages, which kalloc hands out from the top of the range down; the tenth
      and every later kalloc report "no memory". */
  method TenPageRange() returns (got: seq<nat>, last: nat, again: nat)
    ensures |got| == 9
    ensures forall k :: 0 <= k < 9 ==> got[k] == 0x8000_1000 + (9 - k) * PGSIZE
    ensures last == 0 && again == 0
  {
    TenPageLayout();
    var kmem := new Kmem(0x8000_0001, 0x8000_B000);
    assert kmem.st.free == Spec.Desc(1, 10) by {
      Spec.BootstrapState(kmem.layout.Pages());
    }
    got := AllocEach(kmem, 9);
    last := kmem.Kalloc();
    again := kmem.Kalloc();
  }

  /** `n` kallocs on an allocator whose free list holds pages n, n-1, ..., 1
      return their addresses in that order and leave the list empty. */
  method AllocEach(kmem: Kmem, n: nat) returns (got: seq<nat>)
    requires kmem.Valid() && kmem.st.free == Spec.Desc(1, n + 1)
    modifies kmem, kmem.refcount
    ensures kmem.Valid() && kmem.st.free == []
    ensures |got| == n
    ensures forall k :: 0 <= k < n ==> got[k] == kmem.layout.Addr(n - k)
  {
    got := [];
    var m := 0;
    while m < n
      invariant m <= n && |got| == m
      invariant kmem.Valid()
      invariant kmem.st.free == Spec.Desc(1, n + 1 - m)
      invariant forall k :: 0 <= k < m ==> got[k] == kmem.layout.Addr(n - k)
    {
      assert kmem.st.free == [n - m] + Spec.Desc(1, n - m);
      var pa := kmem.Kalloc();
      assert pa == kmem.layout.Addr(n - m);
      got := got + [pa];
      m := m + 1;
    }
  }

  /** Freeing the page kalloc just returned makes the next kalloc return that
      same page, and leaves the allocator as the first kalloc left it. */
  method AllocFreeAlloc(kmem: Kmem) returns (first: nat, second: nat)
    requires kmem.Valid() && kmem.st.free != []
    modifies kmem, kmem.refcount, kmem.next
    ensures kmem.Valid()
    ensures first != 0 && second == first
    ensures kmem.st == Spec.Alloc(old(kmem.st)).state
  {
    ghost var s0 := kmem.st;
    first := kmem.Kalloc();
    PgIndexOfAddr(kmem.layout, s0.free[0]);
    var ok := kmem.Kfree(first);
    Spec.ReleaseUndoesAlloc(s0);
    second := kmem.Kalloc();
  }
}
