/** The physical frame allocator of kernel/src/mem.rs: a fixed table of `MAX_PAGE` slots, one per
    4 KiB page above `base_addr`, updated in place by `allocate`, `deallocate` and `init`. The
    global `Mutex` around it is not modelled: an `Allocator` here is a plain owned object. */
module Mem {
  import opened Align
  import opened Slots

  /** 128 MiB of heap in 4 KiB pages. */
  const MAX_PAGE: nat := 128 * 1024 * 1024 / 4096

  /** Why an operation panics. */
  datatype Panic =
    | NoAvailablePage   // `panic!("no available page")` at the end of `allocate`
    | IndexOutOfBounds  // a slot index at or past `MAX_PAGE`
    | AddressUnderflow  // `page as usize - self.base_addr` below zero
    | ArithmeticOverflow  // `size + (PAGE_SIZE - 1)` in `align_val` past the largest `usize`

  datatype Option<T> = None | Some(value: T)

  datatype AllocResult = Allocated(addr: nat) | AllocPanic(why: Panic)

  datatype FreeResult = Freed | FreePanic(why: Panic)

  /** One line printed by `debug`: slot index, first and one-past-last address, pages. */
  datatype Line = Line(index: nat, from: nat, to: nat, pages: nat)

  /** What `debug` prints: its lines, and whether it then panicked. */
  datatype Report = Printed(lines: seq<Line>) | DebugPanic(why: Panic, lines: seq<Line>)

  /** `align_val(size, PAGE_ORDER) / PAGE_SIZE`: the request rounded up to whole pages. */
  function PagesFor(size: usize): (n: nat)
    requires size + PAGE_SIZE - 1 < USIZE_LIMIT
    ensures n * PAGE_SIZE >= size
    ensures n == 0 || (n - 1) * PAGE_SIZE < size
    ensures size == 0 <==> n == 0
  {
    Pow2PageOrder();
    var aligned := AlignVal(size, PAGE_ORDER);
    assert aligned == aligned / PAGE_SIZE * PAGE_SIZE;
    aligned / PAGE_SIZE
  }

  /** A size of whole pages asks for exactly that many pages. */
  lemma PagesForWholePages(k: nat)
    requires k * PAGE_SIZE + PAGE_SIZE - 1 < USIZE_LIMIT
    ensures PagesFor(k * PAGE_SIZE) == k
  {
    var n := PagesFor(k * PAGE_SIZE);
    MulCancelLt(k, n + 1, PAGE_SIZE);
    if n > 0 {
      MulCancelLt(n - 1, k, PAGE_SIZE);
    }
  }

  /** What `allocate` returns for the scan outcome `sc` over a table based at `base`. */
  function AllocOutcome(sc: Scan, base: nat): AllocResult
  {
    match sc
    case FoundAt(i) => Allocated(base + i * PAGE_SIZE)
    case OverrunAt(_) => AllocPanic(IndexOutOfBounds)
    case NoFit => AllocPanic(NoAvailablePage)
  }

  /** The table after `allocate` with scan outcome `sc`: only a found run is stamped. */
  function AllocTable(s: seq<nat>, n: nat, sc: Scan): seq<nat>
  {
    if sc.FoundAt? then Stamp(s, sc.index, n) else s
  }

  /** Stamping a fitting candidate keeps the run-length invariant; every run live before
      stays live, and the only new one is [i, i+n) (none for a request of no pages). */
  lemma AllocatedRun(s: seq<nat>, i: nat, n: nat)
    requires Fits(s, i, n)
    ensures Tiled(s) ==>
              Tiled(Stamp(s, i, n)) &&
              forall q :: q in LiveRuns(Stamp(s, i, n)) <==> q in LiveRuns(s) || (n > 0 && q == Run(i, n))
  {
    if n == 0 {
      assert Stamp(s, i, n) == s;
    } else if Tiled(s) {
      StampTiled(s, i, n, 0);
    }
  }

  /** `debug`'s line for a run of a table based at `base`. */
  function LineOf(r: Run, base: nat): Line
  {
    Line(r.start, base + r.start * PAGE_SIZE, base + (r.start + r.pages) * PAGE_SIZE, r.pages)
  }

  /** The lines `debug` prints for the runs `rs`, in order. */
  function LinesOf(rs: seq<Run>, base: nat): (ls: seq<Line>)
    ensures |ls| == |rs| && forall k :: 0 <= k < |rs| ==> ls[k] == LineOf(rs[k], base)
  {
    seq(|rs|, k requires 0 <= k < |rs| => LineOf(rs[k], base))
  }

  /** What `debug` does after walking the table with outcome `w`. */
  function DebugOutcome(w: Walk, base: nat): Report
  {
    match w
    case Walked(rs) => Printed(LinesOf(rs, base))
    case ReadPastEnd(rs) => DebugPanic(IndexOutOfBounds, LinesOf(rs, base))
  }

  lemma LinesOfSnoc(rs: seq<Run>, r: Run, base: nat)
    ensures LinesOf(rs + [r], base) == LinesOf(rs, base) + [LineOf(r, base)]
  {
  }

  class Allocator {
    var pageAllocated: array<nat>
    var baseAddr: usize

    ghost predicate Valid()
      reads this
    {
      pageAllocated.Length == MAX_PAGE
    }

    /** The slot table as a value. */
    function Table(): (s: seq<nat>)
      reads this, pageAllocated
      ensures |s| == pageAllocated.Length
    {
      pageAllocated[..]
    }

    /** `Allocator::new`: base address 0, every slot free. */
    constructor ()
      ensures Valid() && fresh(pageAllocated)
      ensures baseAddr == 0 && FreeFrom(Table(), 0) && Tiled(Table())
    {
      pageAllocated := new nat[MAX_PAGE](_ => 0);
      baseAddr := 0;
      new;
      FreeTiled(pageAllocated[..], 0);
    }

    /** `offset_addr_of(id)`: the address of page `id`. */
    function OffsetAddrOf(id: nat): (addr: nat)
      reads this
      ensures addr >= baseAddr && (addr - baseAddr) % PAGE_SIZE == 0
      ensures (addr - baseAddr) / PAGE_SIZE == id
    {
      MultipleDiv(id, PAGE_SIZE);
      baseAddr + id * PAGE_SIZE
    }

    /** `offset_page_of(p)`: the index of the page holding `p`; `None` where the subtraction
        `p - base_addr` would go below zero. */
    function OffsetPageOf(p: nat): (id: Option<nat>)
      reads this
      ensures id.Some? <==> p >= baseAddr
      ensures id.Some? ==> id.value * PAGE_SIZE <= p - baseAddr < (id.value + 1) * PAGE_SIZE
    {
      if p < baseAddr then None
      else
        DivBounds(p - baseAddr, PAGE_SIZE);
        Some((p - baseAddr) / PAGE_SIZE)
    }

    /** `offset_page_of` inverts `offset_addr_of`. */
    lemma PageOfAddrOf(id: nat)
      ensures OffsetPageOf(OffsetAddrOf(id)) == Some(id)
    {
    }

    /** `init`: page-align the heap start as the base address and free every slot. */
    method Init(heapStart: usize)
      requires Valid()
      requires heapStart + PAGE_SIZE - 1 < USIZE_LIMIT
      modifies `baseAddr, pageAllocated
      ensures Valid()
      ensures baseAddr == (Pow2PageOrder(); AlignVal(heapStart, PAGE_ORDER))
      ensures baseAddr % PAGE_SIZE == 0 && heapStart <= baseAddr < heapStart + PAGE_SIZE
      ensures FreeFrom(Table(), 0) && Tiled(Table())
    {
      Pow2PageOrder();
      baseAddr := AlignVal(heapStart, PAGE_ORDER);
      var i := 0;
      while i < MAX_PAGE
        invariant 0 <= i <= MAX_PAGE
        invariant baseAddr == AlignVal(heapStart, PAGE_ORDER)
        invariant forall m :: 0 <= m < i ==> pageAllocated[m] == 0
      {
        pageAllocated[i] := 0;
        i := i + 1;
      }
      FreeTiled(pageAllocated[..], 0);
    }

    /** `allocate`'s inner `for j in 0..page_required` loop at candidate `i`: stop at the first
        occupied slot (`found = false; break`); indexing past the table panics. */
    method ProbeRun(i: nat, n: nat) returns (p: Probe)
      requires Valid() && i < MAX_PAGE && pageAllocated[i] == 0
      ensures p == ProbeFrom(Table(), i, n, 0)
      ensures p == Fit <==> Fits(Table(), i, n)
      ensures p == Overrun <==> i + n > MAX_PAGE && FreeFrom(Table(), i)
    {
      ProbeFromMeaning(Table(), i, n, 0);
      var j := 0;
      while j < n
        invariant 0 <= j <= n && i + j <= MAX_PAGE
        invariant ProbeFrom(Table(), i, n, 0) == ProbeFrom(Table(), i, n, j)
      {
        if i + j >= MAX_PAGE {
          return Overrun;
        }
        if pageAllocated[i + j] != 0 {
          return Blocked;
        }
        j := j + 1;
      }
      return Fit;
    }

    /** `allocate`'s second `for j in 0..page_required` loop: stamp the run [i, i+n) with n. */
    method StampRun(i: nat, n: nat)
      requires Valid() && i + n <= MAX_PAGE
      modifies pageAllocated
      ensures Table() == Stamp(old(Table()), i, n)
    {
      var j := 0;
      while j < n
        invariant 0 <= j <= n
        invariant forall m :: 0 <= m < MAX_PAGE ==>
          pageAllocated[m] == if i <= m < i + j then n else old(pageAllocated[m])
      {
        pageAllocated[i + j] := n;
        j := j + 1;
      }
    }

    /** `allocate(size)`: first-fit scan for `PagesFor(size)` free slots, stamped with that
        count on success. */
    method Allocate(size: usize) returns (r: AllocResult)
      requires Valid()
      modifies pageAllocated
      ensures Valid()
      ensures size + PAGE_SIZE - 1 >= USIZE_LIMIT ==>
        r == AllocPanic(ArithmeticOverflow) && Table() == old(Table())
      ensures size + PAGE_SIZE - 1 < USIZE_LIMIT ==>
        r == AllocOutcome(ScanFrom(old(Table()), PagesFor(size), 0), baseAddr) &&
        Table() == AllocTable(old(Table()), PagesFor(size), ScanFrom(old(Table()), PagesFor(size), 0))
      ensures Tiled(old(Table())) ==>
                Tiled(Table()) &&
                (forall q :: q in LiveRuns(old(Table())) ==> q in LiveRuns(Table())) &&
                (forall q :: q in LiveRuns(Table()) && q !in LiveRuns(old(Table())) ==>
                   r.Allocated? && r.addr == OffsetAddrOf(q.start))
      ensures r.Allocated? && baseAddr % PAGE_SIZE == 0 ==> r.addr % PAGE_SIZE == 0
    {
      ghost var s := pageAllocated[..];
      if size + (PAGE_SIZE - 1) >= USIZE_LIMIT {
        return AllocPanic(ArithmeticOverflow);
      }
      var n := PagesFor(size);
      var i := 0;
      while i < MAX_PAGE
        invariant 0 <= i <= MAX_PAGE
        invariant pageAllocated[..] == s
        invariant ScanFrom(s, n, 0) == ScanFrom(s, n, i)
      {
        if pageAllocated[i] == 0 {
          var probe := ProbeRun(i, n);
          if probe == Overrun {
            return AllocPanic(IndexOutOfBounds);
          }
          if probe == Fit {
            StampRun(i, n);
            AllocatedRun(s, i, n);
            AddMultiple(baseAddr, i, PAGE_SIZE);
            return Allocated(OffsetAddrOf(i));
          }
        }
        i := i + 1;
      }
      return AllocPanic(NoAvailablePage);
    }

    /** `deallocate(p)`: zero as many slots, from the page holding `p` on, as that page's slot
        records. The source trusts `p` to be the start of a live run. */
    method Deallocate(p: nat) returns (r: FreeResult)
      requires Valid()
      modifies pageAllocated
      ensures Valid()
      ensures OffsetPageOf(p).None? ==> r == FreePanic(AddressUnderflow) && Table() == old(Table())
      ensures OffsetPageOf(p).Some? && OffsetPageOf(p).value >= MAX_PAGE ==>
        r == FreePanic(IndexOutOfBounds) && Table() == old(Table())
      ensures OffsetPageOf(p).Some? && OffsetPageOf(p).value < MAX_PAGE ==>
        var id := OffsetPageOf(p).value;
        var n := old(pageAllocated[id]);
        if id + n <= MAX_PAGE then r == Freed && Table() == Clear(old(Table()), id, n)
        else r == FreePanic(IndexOutOfBounds) && Table() == Clear(old(Table()), id, MAX_PAGE - id)
      ensures Tiled(old(Table())) && OffsetPageOf(p).Some? && OffsetPageOf(p).value < MAX_PAGE &&
              Run(OffsetPageOf(p).value, old(Table())[OffsetPageOf(p).value]) in LiveRuns(old(Table())) ==>
        r == Freed && Tiled(Table()) &&
        forall q :: q in LiveRuns(Table()) <==>
          q in LiveRuns(old(Table())) && q != Run(OffsetPageOf(p).value, old(Table())[OffsetPageOf(p).value])
      ensures OffsetPageOf(p).Some? && OffsetPageOf(p).value < MAX_PAGE &&
              old(pageAllocated[OffsetPageOf(p).value]) == 0 ==>
        r == Freed && Table() == old(Table())
    {
      ghost var s := pageAllocated[..];
      if p < baseAddr {
        return FreePanic(AddressUnderflow);
      }
      var id := (p - baseAddr) / PAGE_SIZE;
      if id >= MAX_PAGE {
        return FreePanic(IndexOutOfBounds);
      }
      if Tiled(s) && Run(id, s[id]) in LiveRuns(s) {
        MetRun(s, 0, Run(id, s[id]));
      }
      var pageStride := pageAllocated[id];
      var j := 0;
      while j < pageStride
        invariant 0 <= j <= pageStride && id + j <= MAX_PAGE
        invariant pageAllocated[..] == Clear(s, id, j)
      {
        if j + id >= MAX_PAGE {
          return FreePanic(IndexOutOfBounds);
        }
        pageAllocated[j + id] := 0;
        j := j + 1;
        assert pageAllocated[..] == Clear(s, id, j);
      }
      if Tiled(s) && Run(id, s[id]) in LiveRuns(s) {
        ClearTiled(s, Run(id, s[id]), 0);
      }
      if pageStride == 0 {
        assert pageAllocated[..] == s;
      }
      return Freed;
    }

    /** `debug`: walk the table from slot 0, printing one line per run and jumping over it,
        until the position lands on `MAX_PAGE`. */
    method Debug() returns (r: Report)
      requires Valid()
      ensures r == DebugOutcome(WalkFrom(Table(), 0), baseAddr)
      ensures Tiled(Table()) ==> r == Printed(LinesOf(LiveRuns(Table()), baseAddr))
    {
      ghost var s := pageAllocated[..];
      if Tiled(s) {
        WalkReportsLiveRuns(s, 0);
      }
      ghost var seen: seq<Run> := [];
      var lines: seq<Line> := [];
      var j := 0;
      while true
        invariant j != MAX_PAGE
        invariant lines == LinesOf(seen, baseAddr)
        invariant WalkFrom(s, 0) == Resume(seen, WalkFrom(s, j))
        decreases if j < MAX_PAGE then MAX_PAGE - j else 0
      {
        if j >= MAX_PAGE {
          assert WalkFrom(s, 0) == ReadPastEnd(seen + []) && seen + [] == seen;
          return DebugPanic(IndexOutOfBounds, lines);
        }
        ghost var j0, seen0 := j, seen;
        ghost var here: seq<Run> := [];
        var size := pageAllocated[j];
        if size != 0 {
          var from := OffsetAddrOf(j);
          var to := OffsetAddrOf(j + size);
          here := [Run(j, size)];
          assert Line(j, from, to, size) == LineOf(Run(j, size), baseAddr);
          LinesOfSnoc(seen, Run(j, size), baseAddr);
          lines := lines + [Line(j, from, to, size)];
          seen := seen + here;
          assert lines == LinesOf(seen, baseAddr);
          j := j + size;
        } else {
          assert seen + here == seen;
          j := j + 1;
        }
        if j == MAX_PAGE {
          assert WalkFrom(s, j0) == Walked(here);
          assert WalkFrom(s, 0) == Walked(seen);
          break;
        }
        assert WalkFrom(s, j0) == Resume(here, WalkFrom(s, j));
        ResumeResume(seen0, here, WalkFrom(s, j));
      }
      assert Table() == s;
      return Printed(lines);
    }
  }
}
