/** Uses of the allocator and of `build_satp` made by kernel/src/lib.rs, replayed against the
    models of kernel/src/mem.rs and kernel/src/arch.rs. */
module Boot {
  import opened Align
  import opened Slots
  import opened Mem
  import opened Arch

  /** `kinit` installs `build_satp(8, 0, root)` for the page-aligned root table: an accepted,
      nonzero value with mode Sv39, ASID 0 and the root's page-frame number (low 40 bits). */
  lemma KernelSatp(root: bv64)
    requires root % 4096 == 0
    ensures BuildSatp(SV39, 0, root).Satp?
    ensures HasFields(BuildSatp(SV39, 0, root).value, SV39, 0, (root >> 12) & PPN_MASK)
    ensures BuildSatp(SV39, 0, root).value != 0
  {
    SatpFields(SV39, 0, root);
  }

  /** On a freshly initialised allocator a request for the whole heap succeeds at its base,
      and the same request again panics with "no available page". */
  method WholeHeapOnce(heapStart: usize) returns (first: AllocResult, second: AllocResult)
    requires heapStart + PAGE_SIZE - 1 < USIZE_LIMIT
    ensures first.Allocated? && first.addr % PAGE_SIZE == 0
    ensures heapStart <= first.addr < heapStart + PAGE_SIZE
    ensures second == AllocPanic(NoAvailablePage)
  {
    var a := new Allocator();
    a.Init(heapStart);
    ghost var s := a.Table();
    var size := MAX_PAGE * PAGE_SIZE;
    assert PagesFor(size) == |s| == MAX_PAGE;
    WholeTableOnce(s);
    first := a.Allocate(size);
    assert first == Allocated(a.baseAddr + 0 * PAGE_SIZE);
    assert a.Table() == Stamp(s, 0, |s|);
    second := a.Allocate(size);
  }

  /** A heap table whose first slots are `prefix` and whose other slots are free. */
  function Heap(prefix: seq<nat>): (s: seq<nat>)
    requires |prefix| <= MAX_PAGE
    ensures |s| == MAX_PAGE && s[..|prefix|] == prefix && FreeFrom(s, |prefix|)
  {
    prefix + seq(MAX_PAGE - |prefix|, _ => 0)
  }

  /** With every slot of the prefix occupied, the next request is placed right after it. */
  lemma PlaceAfter(p: seq<nat>, n: nat)
    requires |p| + n <= MAX_PAGE && |p| < MAX_PAGE
    requires forall m :: 0 <= m < |p| ==> p[m] != 0
    ensures ScanFrom(Heap(p), n, 0) == FoundAt(|p|)
    ensures Stamp(Heap(p), |p|, n) == Heap(p + seq(n, _ => n))
  {
    var s := Heap(p);
    assert forall m :: 0 <= m < |p| ==> s[m] == p[m];
    FirstFit(s, n, |p|);
    assert Stamp(s, |p|, n) == Heap(p + seq(n, _ => n));
  }

  /** Freeing the last run of a prefix gives back the shorter prefix. */
  lemma FreeLast(p: seq<nat>, n: nat)
    requires |p| + n <= MAX_PAGE
    ensures Clear(Heap(p + seq(n, _ => n)), |p|, n) == Heap(p)
  {
  }

  /** The runs `debug` reports after `test_alloc`'s calls. */
  lemma TestAllocRuns(s: seq<nat>)
    requires |s| == MAX_PAGE && FreeFrom(s, 69) && s[64] == 1 && s[65] == 0
    requires s[66] == 1 && s[67] == 1 && s[68] == 1
    requires forall m :: 0 <= m < 64 ==> s[m] == 64
    ensures Tiled(s) && LiveRuns(s) == [Run(0, 64), Run(64, 1), Run(66, 1), Run(67, 1), Run(68, 1)]
  {
    FreeTiled(s, 69);
    assert TiledFrom(s, 68) && RunsFrom(s, 68) == [Run(68, 1)];
    assert TiledFrom(s, 67) && RunsFrom(s, 67) == [Run(67, 1), Run(68, 1)];
    assert TiledFrom(s, 66) && RunsFrom(s, 66) == [Run(66, 1), Run(67, 1), Run(68, 1)];
    assert TiledFrom(s, 65) && RunsFrom(s, 65) == RunsFrom(s, 66);
    assert TiledFrom(s, 64) && RunsFrom(s, 64) == [Run(64, 1), Run(66, 1), Run(67, 1), Run(68, 1)];
  }

  /** Every slot of the prefix is occupied. */
  ghost predicate Packed(p: seq<nat>)
  {
    forall m :: 0 <= m < |p| ==> p[m] != 0
  }

  /** One `allocate` on a table whose occupied slots form a prefix: the request lands right
      after the prefix. */
  method AllocAfter(a: Allocator, ghost p: seq<nat>, size: usize, ghost n: nat) returns (r: AllocResult)
    requires |p| + n <= MAX_PAGE && |p| < MAX_PAGE && Packed(p) && n > 0
    requires a.Valid() && a.Table() == Heap(p)
    requires size + PAGE_SIZE - 1 < USIZE_LIMIT && PagesFor(size) == n
    modifies a.pageAllocated
    ensures a.Valid() && a.Table() == Heap(p + seq(n, _ => n)) && Packed(p + seq(n, _ => n))
    ensures r == Allocated(a.baseAddr + |p| * PAGE_SIZE)
  {
    PlaceAfter(p, n);
    r := a.Allocate(size);
  }

  /** One `deallocate` of the address of page `id`, whose run fits in the table. */
  method FreePage(a: Allocator, addr: nat, ghost id: nat) returns (r: FreeResult)
    requires a.Valid() && id < MAX_PAGE && id + a.Table()[id] <= MAX_PAGE
    requires addr == a.baseAddr + id * PAGE_SIZE
    modifies a.pageAllocated
    ensures a.Valid() && r == Freed
    ensures a.Table() == Clear(old(a.Table()), id, old(a.Table())[id])
  {
    a.PageOfAddrOf(id);
    r := a.Deallocate(addr);
  }

  /** The first half of `test_alloc`: 64 pages, three single pages, free the third. The
      table is left holding the 64-page run and two single pages; the second single page
      is at page 65. */
  method TestAllocFirstHalf(a: Allocator) returns (ptr2: AllocResult, ghost p: seq<nat>)
    requires a.Valid() && a.Table() == Heap([])
    modifies a.pageAllocated
    ensures |p| == 66 && Packed(p) && a.Valid() && a.Table() == Heap(p)
    ensures forall m :: 0 <= m < 64 ==> p[m] == 64
    ensures p[64] == 1 && p[65] == 1
    ensures ptr2 == Allocated(a.baseAddr + 65 * PAGE_SIZE)
  {
    PagesForWholePages(64);
    PagesForWholePages(1);
    var ptr := AllocAfter(a, [], 64 * 4096, 64);
    p := [] + seq(64, _ => 64);
    ptr := AllocAfter(a, p, 1, 1);
    p := p + seq(1, _ => 1);
    ptr2 := AllocAfter(a, p, 1, 1);
    p := p + seq(1, _ => 1);
    ptr := AllocAfter(a, p, 1, 1);
    ghost var s := a.Table();
    var f := FreePage(a, ptr.addr, 66);
    FreeLast(p, 1);
  }

  /** The second half of `test_alloc`: three single pages (the first reusing page 66), then
      free page 65. */
  method TestAllocSecondHalf(a: Allocator, ptr2: AllocResult, ghost p: seq<nat>)
    requires |p| == 66 && Packed(p) && a.Valid() && a.Table() == Heap(p)
    requires forall m :: 0 <= m < 64 ==> p[m] == 64
    requires p[64] == 1 && p[65] == 1
    requires ptr2 == Allocated(a.baseAddr + 65 * PAGE_SIZE)
    modifies a.pageAllocated
    ensures a.Valid() && Tiled(a.Table())
    ensures LiveRuns(a.Table()) == [Run(0, 64), Run(64, 1), Run(66, 1), Run(67, 1), Run(68, 1)]
  {
    PagesForWholePages(1);
    var ptr := AllocAfter(a, p, 1, 1);
    ghost var q := p + seq(1, _ => 1);
    ptr := AllocAfter(a, q, 1, 1);
    q := q + seq(1, _ => 1);
    ptr := AllocAfter(a, q, 1, 1);
    q := q + seq(1, _ => 1);
    var f := FreePage(a, ptr2.addr, 65);
    TestAllocRuns(a.Table());
  }

  /** The call sequence of `test_alloc`: 64 pages, three single pages, free the third, three
      more single pages (the first of them reusing the freed page), free the second single
      page, then `debug`. */
  method TestAlloc(heapStart: usize) returns (base: nat, report: Report)
    requires heapStart + PAGE_SIZE - 1 < USIZE_LIMIT
    ensures base == (Pow2PageOrder(); AlignVal(heapStart, PAGE_ORDER))
    ensures report == Printed(LinesOf([Run(0, 64), Run(64, 1), Run(66, 1), Run(67, 1), Run(68, 1)], base))
  {
    var a := new Allocator();
    a.Init(heapStart);
    base := a.baseAddr;
    assert a.Table() == Heap([]);
    var ptr2, p := TestAllocFirstHalf(a);
    TestAllocSecondHalf(a, ptr2, p);
    report := a.Debug();
  }
}
