# Frame allocator and satp encoder of core-os-riscv, in Dafny

This project models two parts of the core-os-riscv kernel and proves properties of them.

The first is the physical frame allocator in `kernel/src/mem.rs`. It keeps a fixed table of
`MAX_PAGE` = 32768 slots, one per 4 KiB page above `base_addr`. A slot holds 0 when its page is
free. Otherwise it holds the length, in pages, of the allocated run the page belongs to.

- `allocate` rounds the request up to whole pages. It scans the table first-fit with two nested
  loops, then stamps the chosen run with its length.
- `deallocate` turns the pointer back into a slot index. It zeroes as many slots as that slot
  records.
- `debug` walks the table, jumping over each run.
- `init` page-aligns the heap start into `base_addr` and zeroes every slot.

The second is `build_satp` in `kernel/src/arch.rs`. It packs a paging mode, an address-space
identifier and a root page-table address into the 64-bit RISC-V `satp` register value.

Files:

- `align.dfy` (module `Align`): word-sized naturals, the page geometry, and `align_val`,
  `align_val_down` and `page_down`. The source's bit masks are written as rounding to a
  multiple of 2^order. Bitwise AND and NOT are defined on naturals bit by bit (`BitAnd`,
  `BitNot`), and `AlignMasks` proves the two forms equal.
- `slots.dfy` (module `Slots`): the slot table as a value. Pure functions mirror `allocate`'s
  loops (`ProbeFrom`, `ScanFrom`) and `debug`'s loop (`WalkFrom`). They also define the
  run-length invariant (`TiledFrom`) and the live runs (`RunsFrom`). Lemmas state what these
  mean.
- `allocator.dfy` (module `Mem`): the class `Allocator`. Its field `pageAllocated` is an
  `array<nat>` and `baseAddr` is the base address. Its methods keep the source's loops and are
  proved against the `Slots` functions.
- `satp.dfy` (module `Arch`): `build_satp` on `bv64`. It is read back through the field layout
  in section 4.1.11 of the RISC-V Privileged Architecture specification (version 1.12): MODE in
  bits 63..60, ASID in bits 59..44, PPN in bits 43..0.
- `boot.dfy` (module `Boot`): the calls `kernel/src/lib.rs` makes. These are `kinit`'s
  `build_satp(8, 0, root)` and the call sequence of `test_alloc`, replayed against the model.

Modelling choices:

- Every `panic!` and every out-of-range index the source can reach is an explicit failure
  result (`AllocPanic`, `FreePanic`, `DebugPanic`), not a precondition.
- Arithmetic overflow follows Rust's debug build, where it panics. This covers `p - base_addr`
  in `offset_page_of` and `size + 4095` in `align_val`.
- The `found` flag of `allocate`'s inner loop becomes the `Probe` result of the helper method
  `ProbeRun`. The stamping loop is the helper method `StampRun`.

The run-length invariant is the shape `debug` walks. From any position the table splits into
free slots and runs of `n > 0` slots that all hold `n`, each ending inside the table.

- This is stronger than "every occupied slot lies in such a run", which also admits a table
  such as `[2, 2, 2]`. That pointwise form is proved as a consequence (`OccupiedSlotInRun`).
- `init`, `allocate` and `deallocate` of a run start each preserve the invariant.
- Under the invariant, the live runs do not overlap. `debug` lands exactly on `MAX_PAGE` and
  reports every live run once, in order. The reported page counts add up to the number of
  occupied slots.

The 40-bit PPN mask of `build_satp` is modelled as written (`PPN_MASK`). The standard's PPN
field has 44 bits. `Arch.PpnTopBitsZero` shows that bits 43..40 of the value are always zero.
`Arch.RootRoundTrip` shows that the root address comes back below 2^52.
`Arch.PpnTruncatedAt52` shows that the page-aligned root 2^52 is encoded with PPN 0.

## Model

| member | source | states |
|---|---|---|
| Align.AlignValDown | kernel/src/mem.rs:22-24 | `align_val_down(val, order)` is a multiple of 2^order with `r <= val < r + 2^order` |
| Align.AlignVal | kernel/src/mem.rs:17-20 | `align_val(val, order)` is a multiple of 2^order with `val <= r < val + 2^order`, when `val + 2^order - 1` fits in a word |
| Align.PageDown | kernel/src/mem.rs:26-28 | `page_down(val)` is the start of the 4 KiB page holding `val` |
| Align.AlignMasks | kernel/src/mem.rs:17-24 | `align_val_down` equals `val & !((1 << order) - 1)` and `align_val` equals `(val + o) & !o` with `o = (1 << order) - 1`, with AND and NOT taken bit by bit on 64-bit words |
| Align.AlignValLeast | kernel/src/mem.rs:17-20 | `align_val` is the least multiple of 2^order that is at least `val` |
| Align.AlignValDownGreatest | kernel/src/mem.rs:22-24 | `align_val_down` is the greatest multiple of 2^order that is at most `val` |
| Align.AlignValIdempotent | kernel/src/mem.rs:17-20 | aligning an aligned value again cannot overflow and changes nothing |
| Align.AlignValDownIdempotent | kernel/src/mem.rs:22-24 | `align_val_down` applied twice equals applied once |
| Mem.PagesFor | kernel/src/mem.rs:54 | `page_required` is the least page count covering `size`; it is 0 exactly when `size` is 0 |
| Mem.PagesForWholePages | kernel/src/mem.rs:54 | a request of `k` whole pages asks for exactly `k` pages |
| Mem.Allocator.constructor | kernel/src/mem.rs:33-38 | `Allocator::new`: base address 0, every slot free, invariant holds |
| Mem.Allocator.OffsetAddrOf | kernel/src/mem.rs:40-43 | the address of page `id` is `id` whole pages above `base_addr` |
| Mem.Allocator.OffsetPageOf | kernel/src/mem.rs:48-51 | the page index holding `p`, which is absent exactly when `p - base_addr` would underflow |
| Mem.Allocator.PageOfAddrOf | kernel/src/mem.rs:40-51 | `offset_page_of(offset_addr_of(id)) == id` |
| Mem.Allocator.Init | kernel/src/mem.rs:108-117 | `base_addr` becomes `align_val(HEAP_START, PAGE_ORDER)`, page-aligned and within a page above the heap start; every slot is 0 and the invariant holds |
| Mem.Allocator.ProbeRun | kernel/src/mem.rs:58-63 | the inner loop reports a fit exactly when the candidate run is free and inside the table, and an index panic exactly when the table ends, free, before the run does |
| Mem.Allocator.StampRun | kernel/src/mem.rs:65-67 | slots `[i, i+n)` become `n` and no other slot changes |
| Mem.Allocator.Allocate | kernel/src/mem.rs:53-73 | result and new table are those of the first-fit scan: `base_addr + i*PAGE_SIZE` with only `[i, i+n)` stamped, an index panic, "no available page", or an overflow panic; keeps the invariant; every run live before stays live, and a new live run appears only with an `Allocated` result at its address; page-aligned result when `base_addr` is |
| Mem.AllocatedRun | kernel/src/mem.rs:65-67 | stamping a fitting candidate keeps the invariant; the live runs afterwards are those before plus `[i, i+n)`, or the same runs for a request of no pages |
| Mem.Allocator.Deallocate | kernel/src/mem.rs:75-81 | underflow and out-of-range panics; zeroes exactly `[id, id+n)` for the `n` stored at `id` (up to the panic when that passes the end); freeing a live run keeps the invariant, and the live runs afterwards are those before except the freed one; freeing a free slot changes nothing |
| Mem.Allocator.Debug | kernel/src/mem.rs:83-101 | the printed lines are those of `debug`'s walk; when a jump passes the end, an index panic after the lines printed so far; on a table satisfying the invariant, one line per live run in order and no panic |
| Slots.ProbeFrom | kernel/src/mem.rs:58-63 | the inner loop reports a fit only when the candidate run ends inside the table, and an index panic only when it would pass the end |
| Slots.ProbeFromMeaning | kernel/src/mem.rs:58-63 | the probe's fit and overrun outcomes, each as an if-and-only-if over the table's slots |
| Slots.ScanFrom | kernel/src/mem.rs:55-72 | a found index is a free slot at or after the scan start whose run ends inside the table; an overrun index is a free slot whose run would pass the end |
| Slots.ScanFromMeaning | kernel/src/mem.rs:55-72 | a found index fits and no earlier candidate does; an overrun starts the free tail, which is shorter than the request, with no fit anywhere; "no available page" means nothing fits |
| Slots.FirstFit | kernel/src/mem.rs:55-69 | when some candidate fits, the scan returns the smallest one |
| Slots.ZeroPagesTakeFirstFree | kernel/src/mem.rs:54-69 | a request of zero pages gets the first free slot and marks nothing |
| Slots.OverrunAtFreeTail | kernel/src/mem.rs:58-60 | a free tail shorter than the request, with nothing fitting before it, makes the scan index past the table |
| Slots.WholeTableOnce | kernel/src/mem.rs:53-72 | on an all-free table, a whole-table request succeeds at slot 0 and a second one finds no available page |
| Slots.Stamp | kernel/src/mem.rs:65-67 | the table keeps its length; slots `[i, i+n)` hold `n` and every other slot is unchanged |
| Slots.Clear | kernel/src/mem.rs:78-80 | the table keeps its length; slots `[i, i+n)` hold 0 and every other slot is unchanged |
| Slots.ClearUndoesStamp | kernel/src/mem.rs:75-81 | zeroing a run just stamped restores the table it was stamped on |
| Slots.RunsFromOrdered | kernel/src/mem.rs:83-101 | the runs met by the walk are in increasing order, each ending before the next begins |
| Slots.LiveRunsDisjoint | kernel/src/mem.rs:58-67 | two different live allocations share no page |
| Slots.OccupiedSlotInRun | kernel/src/mem.rs:58-67 | every occupied slot lies in a live run that ends inside the table and whose slots all hold its length, so the slot's value is that length |
| Slots.FreeTiled | kernel/src/mem.rs:114-116 | an all-free table satisfies the invariant and has no live run |
| Slots.StampRunMember | kernel/src/mem.rs:65-67 | for one run `q`: stamping a fitting run keeps the invariant, and `q` is live afterwards exactly when it was live before or is the stamped run |
| Slots.StampTiled | kernel/src/mem.rs:65-67 | stamping a fitting run keeps the invariant; the live runs afterwards are exactly those before plus the stamped run |
| Slots.ClearRunMember | kernel/src/mem.rs:78-80 | for one run `q`: freeing a live run keeps the invariant, and `q` is live afterwards exactly when it was live before and is not the freed run |
| Slots.ClearTiled | kernel/src/mem.rs:78-80 | freeing a live run keeps the invariant; the live runs afterwards are exactly those before except the freed one, which is no longer live |
| Slots.SumPagesIsOccupied | kernel/src/mem.rs:83-101 | the page counts of the live runs add up to the number of occupied slots |
| Slots.WalkFrom | kernel/src/mem.rs:84-100 | `debug`'s walk from slot `j` reports at most one run per slot from `j` on |
| Slots.WalkReportsOccupied | kernel/src/mem.rs:84-100 | every run the walk reports, also before an index panic, starts at an occupied slot at or after the walk's start and has that slot's value as its length |
| Slots.WalkAfterInteriorFree | kernel/src/mem.rs:75-100 | freeing page 1 of the two-page run in `[2, 2, 3, 3, 3]` zeroes a page of the next run; `debug` then prints two runs and panics reading past the end |
| Slots.WalkReportsLiveRuns | kernel/src/mem.rs:83-101 | on a table satisfying the invariant, `debug`'s walk lands on the end and reports exactly the live runs |
| Slots.ReallocateFreedRun | kernel/src/mem.rs:53-81 | after a live run is freed, a request of the same size that fits nowhere earlier gets the same run back |
| Arch.BuildSatp | kernel/src/arch.rs:20-25 | `build_satp` rejects the root address exactly when it is not 4 KiB-aligned |
| Arch.ModeBits | kernel/src/arch.rs:24 | bits 63..60 hold the mode's low four bits |
| Arch.AsidBits | kernel/src/arch.rs:24 | bits 59..44 hold `asid & 0xffff` |
| Arch.PpnBits | kernel/src/arch.rs:24 | bits 43..0 hold `(addr >> 12) & 0xff_ffff_ffff` |
| Arch.SatpFields | kernel/src/arch.rs:20-25 | read with the standard's layout, an accepted value holds the masked mode, ASID and page-frame number |
| Arch.ModeField | kernel/src/arch.rs:24 | the mode reads back unchanged exactly when it is below 16 |
| Arch.AsidMasked | kernel/src/arch.rs:24 | `build_satp(m, a, x) == build_satp(m, a & 0xffff, x)` |
| Arch.PpnTopBitsZero | kernel/src/arch.rs:24 | bits 43..40, the top of the standard's PPN field, are always 0 |
| Arch.RootRoundTrip | kernel/src/arch.rs:21-24 | for an aligned root below 2^52, `(value & 0xff_ffff_ffff) << 12` gives the root back |
| Arch.FieldsAdd | kernel/src/arch.rs:24 | for a mode below 16 the bitwise OR of the three fields equals their sum |
| Arch.MatchesStandardBelow52 | kernel/src/arch.rs:20-25 | below 2^52, with mode and ASID in range, the value has exactly the standard's MODE, ASID and PPN fields |
| Arch.PpnTruncatedAt52 | kernel/src/arch.rs:24 | the aligned root 2^52 is encoded with PPN 0, which does not match the standard's field |
| Boot.KernelSatp | kernel/src/lib.rs:123 | `kinit`'s `build_satp(8, 0, root)` for an aligned root is accepted, nonzero, and has mode Sv39, ASID 0 and the root's page-frame number (low 40 bits) |
| Boot.WholeHeapOnce | kernel/src/mem.rs:53-72 | after `init`, allocating the whole heap succeeds at the aligned base, and repeating it panics with "no available page" |
| Boot.TestAllocFirstHalf | kernel/src/lib.rs:189-193 | 64 pages at slot 0, single pages at 64, 65 and 66, then page 66 freed |
| Boot.TestAllocSecondHalf | kernel/src/lib.rs:194-197 | three single pages at 66, 67 and 68 (reusing the freed page), then page 65 freed; the live runs are then [0,64), 64, 66, 67 and 68 |
| Boot.TestAlloc | kernel/src/lib.rs:188-199 | after `init`, on an empty table, `test_alloc`'s closing `debug` prints exactly the runs [0,64), 64, 66, 67 and 68 |

## Left out

- `PAGE_ORDER`, `PAGE_SIZE` and `HEAP_START` come from the `symbols` module, which is not part of this model. `PAGE_ORDER` is 12 and `PAGE_SIZE` is 4096, matching the `>> 12` in `build_satp`. `HEAP_START` is a parameter of `Init`.
- Mem.Allocator.Init: requires `HEAP_START + 4095` to fit in a word. `HEAP_START` is a link-time constant and the overflowing case is not modelled.
- Align.AlignVal: requires `val + 2^order - 1` to fit in a word and `order < 64`. Otherwise the source's addition or shift overflows. `Mem.Allocator.Allocate` models that overflow as a panic instead.
- Align.AlignValDown: requires `order < 64`. A larger shift panics in the source.
- Mem.Allocator.OffsetAddrOf: addresses are unbounded naturals. Overflow of `base_addr + id * PAGE_SIZE` past 2^64 is not modelled (a panic in a debug build, wrap-around in a release build).
- Release-build arithmetic, where `p - base_addr` and `size + 4095` wrap instead of panicking, is not modelled.
- `offset_id_of` (a cast of the address to a pointer) is merged into `OffsetAddrOf`; pointers are plain numbers.
- The `addr` column of `debug`'s `println!` is not modelled. It is the address of the slot inside the table itself. `println!` formatting is not modelled either: each line is the record `Line(index, from, to, pages)`.
- The `Mutex` singleton (`__ALLOC`, `ALLOC`) is not modelled; an `Allocator` is a plain owned object. Multi-hart concurrency and locking are not modelled either.
- Not modelled: the `GlobalAlloc` implementation and `alloc_error`. These are Rust runtime hooks, and they ignore the layout's alignment.
- `zero_volatile` performs volatile raw-pointer writes and is not modelled.
- The module-level `debug()` dumps raw physical memory at fixed addresses and is not modelled.
- Mem.Allocator.Deallocate: promises the invariant only for a pointer to the start of a live run, as the source assumes. Any other pointer is modelled as written: it zeroes as many slots as the target slot records.
- `kernel/src/arch.rs` register, interrupt and timer functions are not modelled. These are `time`, `intr_on`, `intr_off`, `intr_get`, `hart_id`, `r_sip`, `w_sip`, `r_sstatus`, `w_sstatus`, `r_satp`, `sp` and `wait_forever`. They are inline assembly, MMIO or calls into the external `riscv` crate.
- Only `build_satp(8, 0, root)` and `test_alloc` are taken from `kernel/src/lib.rs`. The rest (`kinit`, `kinit_hart`, `kmain`, `panic`, `abort`) drives the page-table module, which is not part of this model, or does I/O.
