/** The frame allocator's occupancy table (`page_allocated` in kernel/src/mem.rs) as a value.
    Slot k describes physical page k above `base_addr`: 0 means free, any other value is the
    length, in pages, of the allocated run the page belongs to; every slot of a run holds that
    same length. The functions here are the specifications the methods of `Mem.Allocator` are
    proved against. */
module Slots {

  /** Outcome of `allocate`'s inner loop over `j in 0..page_required` at one candidate index. */
  datatype Probe = Fit | Blocked | Overrun

  /** Outcome of `allocate`'s outer first-fit loop over `i in 0..MAX_PAGE`. */
  datatype Scan = FoundAt(index: nat) | OverrunAt(index: nat) | NoFit

  /** An allocated run: `pages` consecutive slots starting at `start`. */
  datatype Run = Run(start: nat, pages: nat)

  /** Outcome of `debug`'s walk over the table: the runs it reports, either landing exactly on
      the end of the table or followed by a read past the end (an index panic). */
  datatype Walk = Walked(runs: seq<Run>) | ReadPastEnd(runs: seq<Run>)

  /** Candidate `i` passes `allocate`'s tests: slot `i` is free and so are all of [i, i+n),
      which lies inside the table. */
  predicate Fits(s: seq<nat>, i: nat, n: nat)
  {
    i < |s| && s[i] == 0 && i + n <= |s| && forall m :: i <= m < i + n ==> s[m] == 0
  }

  /** No candidate in [lo, hi) fits a run of `n` pages. */
  predicate NoFitIn(s: seq<nat>, n: nat, lo: nat, hi: nat)
  {
    forall k :: lo <= k < hi ==> !Fits(s, k, n)
  }

  /** Every slot from `i` to the end of the table is free. */
  predicate FreeFrom(s: seq<nat>, i: nat)
  {
    forall m :: i <= m < |s| ==> s[m] == 0
  }

  /** `allocate`'s inner loop at candidate `i`, from offset `j` on: it stops with `Blocked` at the
      first occupied slot, and runs off the table (an index panic) when `i + j` reaches its end. */
  function ProbeFrom(s: seq<nat>, i: nat, n: nat, j: nat): (p: Probe)
    requires j <= n && i + j <= |s|
    decreases n - j
    ensures p == Fit ==> i + n <= |s|
    ensures p == Overrun ==> i + n > |s|
  {
    if j == n then Fit
    else if i + j == |s| then Overrun
    else if s[i + j] != 0 then Blocked
    else ProbeFrom(s, i, n, j + 1)
  }

  /** The probe reports `Fit` exactly when the rest of the run is free and inside the table,
      and `Overrun` exactly when the table ends, free, before the run does. */
  lemma {:induction false} ProbeFromMeaning(s: seq<nat>, i: nat, n: nat, j: nat)
    requires j <= n && i + j <= |s|
    ensures ProbeFrom(s, i, n, j) == Fit <==> i + n <= |s| && forall m :: i + j <= m < i + n ==> s[m] == 0
    ensures ProbeFrom(s, i, n, j) == Overrun <==> i + n > |s| && forall m :: i + j <= m < |s| ==> s[m] == 0
    decreases n - j
  {
    if j < n && i + j < |s| && s[i + j] == 0 {
      ProbeFromMeaning(s, i, n, j + 1);
    }
  }

  /** `allocate`'s outer loop from candidate `i` on: the first candidate that passes the probe is
      taken; a probe that runs off the table panics; running out of candidates is "no available
      page". */
  function ScanFrom(s: seq<nat>, n: nat, i: nat): (r: Scan)
    requires i <= |s|
    decreases |s| - i
    ensures r.FoundAt? ==> i <= r.index < |s| && r.index + n <= |s| && s[r.index] == 0
    ensures r.OverrunAt? ==> i <= r.index < |s| < r.index + n && s[r.index] == 0
  {
    if i == |s| then NoFit
    else if s[i] != 0 then ScanFrom(s, n, i + 1)
    else match ProbeFrom(s, i, n, 0)
      case Fit => FoundAt(i)
      case Overrun => OverrunAt(i)
      case Blocked => ScanFrom(s, n, i + 1)
  }

  /** What the scan's outcome means: a found index is the smallest candidate that fits; an
      overrun happens at the start of the free tail of the table, which is shorter than the run,
      with no fitting candidate anywhere; "no available page" means no candidate fits. */
  lemma {:induction false} ScanFromMeaning(s: seq<nat>, n: nat, i: nat)
    requires i <= |s|
    ensures var r := ScanFrom(s, n, i);
      (r.FoundAt? ==> i <= r.index && Fits(s, r.index, n) && NoFitIn(s, n, i, r.index)) &&
      (r.OverrunAt? ==>
        i <= r.index < |s| < r.index + n && FreeFrom(s, r.index) &&
        (r.index == i || s[r.index - 1] != 0) && NoFitIn(s, n, i, |s|)) &&
      (r.NoFit? ==> NoFitIn(s, n, i, |s|) && (i < |s| ==> s[|s| - 1] != 0))
    decreases |s| - i
  {
    if i < |s| {
      ProbeFromMeaning(s, i, n, 0);
      if s[i] != 0 || ProbeFrom(s, i, n, 0) == Blocked {
        ScanFromMeaning(s, n, i + 1);
      }
    }
  }

  /** First fit: when some candidate fits, the scan takes the smallest one. */
  lemma FirstFit(s: seq<nat>, n: nat, k: nat)
    requires Fits(s, k, n) && NoFitIn(s, n, 0, k)
    ensures ScanFrom(s, n, 0) == FoundAt(k)
  {
    ScanFromMeaning(s, n, 0);
    assert !NoFitIn(s, n, 0, |s|);
  }

  /** A request of no pages gets the first free slot and marks nothing. */
  lemma ZeroPagesTakeFirstFree(s: seq<nat>, k: nat)
    requires k < |s| && s[k] == 0 && forall m :: 0 <= m < k ==> s[m] != 0
    ensures ScanFrom(s, 0, 0) == FoundAt(k) && Stamp(s, k, 0) == s
  {
    FirstFit(s, 0, k);
  }

  /** When nothing fits before the free tail of the table and that tail is shorter than the
      request, the scan runs off the table at the tail's first slot instead of reporting that
      no page is available. */
  lemma OverrunAtFreeTail(s: seq<nat>, n: nat, k: nat)
    requires k < |s| < k + n && FreeFrom(s, k) && (k == 0 || s[k - 1] != 0)
    requires NoFitIn(s, n, 0, k)
    ensures ScanFrom(s, n, 0) == OverrunAt(k)
  {
    ScanFromMeaning(s, n, 0);
    assert s[|s| - 1] == 0;
  }

  /** On an all-free table a request for the whole table succeeds at slot 0, once: a second
      identical request finds no free page. */
  lemma WholeTableOnce(s: seq<nat>)
    requires 0 < |s| && FreeFrom(s, 0)
    ensures ScanFrom(s, |s|, 0) == FoundAt(0)
    ensures ScanFrom(Stamp(s, 0, |s|), |s|, 0) == NoFit
  {
    FirstFit(s, |s|, 0);
    var t := Stamp(s, 0, |s|);
    ScanFromMeaning(t, |s|, 0);
    assert t[|s| - 1] != 0;
  }

  /** The table after stamping the run [i, i+n) with its length. */
  function Stamp(s: seq<nat>, i: nat, n: nat): (t: seq<nat>)
    ensures |t| == |s|
    ensures forall m :: 0 <= m < |s| ==> t[m] == if i <= m < i + n then n else s[m]
  {
    seq(|s|, m requires 0 <= m < |s| => if i <= m < i + n then n else s[m])
  }

  /** The table after zeroing `n` slots from `i` on. */
  function Clear(s: seq<nat>, i: nat, n: nat): (t: seq<nat>)
    ensures |t| == |s|
    ensures forall m :: 0 <= m < |s| ==> t[m] == if i <= m < i + n then 0 else s[m]
  {
    seq(|s|, m requires 0 <= m < |s| => if i <= m < i + n then 0 else s[m])
  }

  /** Freeing a run just stamped gives back the table it was stamped on. */
  lemma ClearUndoesStamp(s: seq<nat>, i: nat, n: nat)
    requires Fits(s, i, n)
    ensures Clear(Stamp(s, i, n), i, n) == s
  {
    var t := Clear(Stamp(s, i, n), i, n);
    assert forall m :: 0 <= m < |s| ==> t[m] == s[m];
  }

  /** `pages` consecutive slots from `start`, inside the table, all holding `pages`. */
  predicate IsRun(s: seq<nat>, r: Run)
  {
    0 < r.pages && r.start + r.pages <= |s| &&
    forall m :: r.start <= m < r.start + r.pages ==> s[m] == r.pages
  }

  /** The run-length invariant, read from slot `j` on: the table splits into free slots and
      runs of `n > 0` slots that all hold `n`, each ending inside the table. This is also the
      shape `debug` relies on when it jumps from a run's first slot to the slot after it. */
  predicate TiledFrom(s: seq<nat>, j: nat)
    decreases |s| - j
  {
    if j >= |s| then j == |s|
    else if s[j] == 0 then TiledFrom(s, j + 1)
    else j + s[j] <= |s| && (forall m :: j <= m < j + s[j] ==> s[m] == s[j]) && TiledFrom(s, j + s[j])
  }

  predicate Tiled(s: seq<nat>)
  {
    TiledFrom(s, 0)
  }

  /** The runs met by walking a tiled table from `j`, each starting at or after `j` (that each
      is a run of the table is `MetRun`, their order `RunsFromOrdered`). */
  function RunsFrom(s: seq<nat>, j: nat): (rs: seq<Run>)
    requires TiledFrom(s, j)
    decreases |s| - j
    ensures forall k :: 0 <= k < |rs| ==> j <= rs[k].start
  {
    if j >= |s| then []
    else if s[j] == 0 then RunsFrom(s, j + 1)
    else [Run(j, s[j])] + RunsFrom(s, j + s[j])
  }

  /** The live runs of a tiled table. */
  function LiveRuns(s: seq<nat>): (rs: seq<Run>)
    requires Tiled(s)
  {
    RunsFrom(s, 0)
  }

  /** Runs in increasing order, each ending before the next begins. */
  predicate Ascending(rs: seq<Run>)
  {
    forall k1, k2 :: 0 <= k1 < k2 < |rs| ==> rs[k1].start + rs[k1].pages <= rs[k2].start
  }

  /** The walk meets the runs in increasing order, each ending before the next begins. */
  lemma {:induction false} RunsFromOrdered(s: seq<nat>, j: nat)
    requires TiledFrom(s, j)
    ensures Ascending(RunsFrom(s, j))
    decreases |s| - j
  {
    if j < |s| {
      if s[j] == 0 {
        RunsFromOrdered(s, j + 1);
        assert RunsFrom(s, j) == RunsFrom(s, j + 1);
      } else {
        var e := j + s[j];
        RunsFromOrdered(s, e);
        var rest := RunsFrom(s, e);
        var rs := RunsFrom(s, j);
        assert rs == [Run(j, s[j])] + rest;
        forall k1, k2 | 0 <= k1 < k2 < |rs|
          ensures rs[k1].start + rs[k1].pages <= rs[k2].start
        {
          assert rs[k2] == rest[k2 - 1] && e <= rest[k2 - 1].start;
          if k1 > 0 {
            assert rs[k1] == rest[k1 - 1];
            assert rest[k1 - 1].start + rest[k1 - 1].pages <= rest[k2 - 1].start;
          }
        }
      }
    }
  }

  /** Non-overlap: two different live runs share no page. */
  lemma LiveRunsDisjoint(s: seq<nat>, a: Run, b: Run)
    requires Tiled(s) && a in LiveRuns(s) && b in LiveRuns(s) && a != b
    ensures a.start + a.pages <= b.start || b.start + b.pages <= a.start
  {
    var rs := LiveRuns(s);
    RunsFromOrdered(s, 0);
    var ka :| 0 <= ka < |rs| && rs[ka] == a;
    var kb :| 0 <= kb < |rs| && rs[kb] == b;
    assert ka != kb;
  }

  /** Pointwise form of the run-length invariant: every occupied slot from `j` on lies in a
      run met by the walk, a run inside the table whose slots all hold its length, so the
      slot's value is that run's length. */
  lemma {:induction false} OccupiedSlotInRun(s: seq<nat>, j: nat, m: nat)
    requires TiledFrom(s, j) && j <= m < |s| && s[m] != 0
    ensures exists r :: r in RunsFrom(s, j) && IsRun(s, r) && r.start <= m < r.start + r.pages && s[m] == r.pages
    decreases |s| - j
  {
    if s[j] == 0 {
      OccupiedSlotInRun(s, j + 1, m);
    } else if m < j + s[j] {
      var r := RunsFrom(s, j)[0];
      assert r == Run(j, s[j]) && r in RunsFrom(s, j);
      MetRun(s, j, r);
    } else {
      OccupiedSlotInRun(s, j + s[j], m);
      var r :| r in RunsFrom(s, j + s[j]) && IsRun(s, r) && r.start <= m < r.start + r.pages && s[m] == r.pages;
      assert r in RunsFrom(s, j);
    }
  }

  /** The all-free table is tiled and has no live run. */
  lemma {:induction false} FreeTiled(s: seq<nat>, j: nat)
    requires j <= |s| && FreeFrom(s, j)
    ensures TiledFrom(s, j) && RunsFrom(s, j) == []
    decreases |s| - j
  {
    if j < |s| {
      FreeTiled(s, j + 1);
    }
  }

  /** The walk from `j` only looks at slots from `j` on. */
  lemma {:induction false} TiledAgree(s: seq<nat>, t: seq<nat>, j: nat)
    requires |s| == |t| && TiledFrom(s, j)
    requires forall m :: j <= m < |s| ==> s[m] == t[m]
    ensures TiledFrom(t, j) && RunsFrom(t, j) == RunsFrom(s, j)
    decreases |s| - j
  {
    if j < |s| {
      if s[j] == 0 {
        TiledAgree(s, t, j + 1);
      } else {
        TiledAgree(s, t, j + s[j]);
      }
    }
  }

  /** Free slots are walked one at a time. */
  lemma {:induction false} SkipFree(s: seq<nat>, j: nat, k: nat)
    requires j <= k <= |s| && forall m :: j <= m < k ==> s[m] == 0
    ensures TiledFrom(s, j) <==> TiledFrom(s, k)
    ensures TiledFrom(s, j) ==> RunsFrom(s, j) == RunsFrom(s, k)
    decreases k - j
  {
    if j < k {
      SkipFree(s, j + 1, k);
    }
  }

  /** A free slot at the walk position `j` is stepped over. */
  lemma TiledAtFree(t: seq<nat>, j: nat)
    requires j < |t| && t[j] == 0
    ensures TiledFrom(t, j) <==> TiledFrom(t, j + 1)
    ensures TiledFrom(t, j) ==> RunsFrom(t, j) == RunsFrom(t, j + 1)
  {
  }

  /** A run at the walk position `j`, with the walk tiled after it, is the first run met. */
  lemma TiledAtRun(t: seq<nat>, j: nat)
    requires j < |t| && t[j] != 0 && j + t[j] <= |t| && TiledFrom(t, j + t[j])
    requires forall m :: j <= m < j + t[j] ==> t[m] == t[j]
    ensures TiledFrom(t, j) && RunsFrom(t, j) == [Run(j, t[j])] + RunsFrom(t, j + t[j])
  {
  }

  /** Stamping at a walk position: the stamped run is met first, then the walk goes on as
      before from its end. */
  lemma StampAtWalkPosition(s: seq<nat>, i: nat, n: nat)
    requires TiledFrom(s, i) && Fits(s, i, n) && n > 0
    ensures TiledFrom(Stamp(s, i, n), i) && RunsFrom(Stamp(s, i, n), i) == [Run(i, n)] + RunsFrom(s, i)
  {
    var t := Stamp(s, i, n);
    SkipFree(s, i, i + n);
    StampLeavesRest(s, i, n);
    assert t[i] == n && forall m :: i <= m < i + n ==> t[m] == t[i];
    TiledAtRun(t, i);
  }

  /** Stamping [i, i+n) leaves the walk from `i + n` on as it was. */
  lemma StampLeavesRest(s: seq<nat>, i: nat, n: nat)
    requires Fits(s, i, n) && TiledFrom(s, i + n)
    ensures TiledFrom(Stamp(s, i, n), i + n) && RunsFrom(Stamp(s, i, n), i + n) == RunsFrom(s, i + n)
  {
    TiledAgree(s, Stamp(s, i, n), i + n);
  }

  /** A run met by the walk from `j` is a run of the table starting at or after `j`. */
  lemma {:induction false} MetRun(s: seq<nat>, j: nat, r: Run)
    requires TiledFrom(s, j) && r in RunsFrom(s, j)
    ensures IsRun(s, r) && j <= r.start
    decreases |s| - j
  {
    if s[j] == 0 {
      MetRun(s, j + 1, r);
    } else if r != Run(j, s[j]) {
      MetRun(s, j + s[j], r);
    }
  }

  /** A free slot met at walk position `j` by two tables: both step over it. */
  lemma SharedFree(s: seq<nat>, t: seq<nat>, j: nat)
    requires j < |s| == |t| && s[j] == 0 && t[j] == 0 && TiledFrom(s, j + 1) && TiledFrom(t, j + 1)
    ensures TiledFrom(s, j) && RunsFrom(s, j) == RunsFrom(s, j + 1)
    ensures TiledFrom(t, j) && RunsFrom(t, j) == RunsFrom(t, j + 1)
  {
    TiledAtFree(s, j);
    TiledAtFree(t, j);
  }

  /** A run at walk position `j` of a tiled table: it is met first and the walk goes on,
      tiled, from its end. */
  lemma RunStep(s: seq<nat>, j: nat)
    requires TiledFrom(s, j) && j < |s| && s[j] != 0
    ensures j + s[j] <= |s| && (forall m :: j <= m < j + s[j] ==> s[m] == s[j])
    ensures TiledFrom(s, j + s[j]) && RunsFrom(s, j) == [Run(j, s[j])] + RunsFrom(s, j + s[j])
  {
  }

  /** A run met at walk position `j` by two tables that agree on its slots: both report it
      first and go on from its end. */
  lemma SharedRun(s: seq<nat>, t: seq<nat>, j: nat)
    requires j < |s| == |t| && s[j] != 0 && j + s[j] <= |s|
    requires forall m :: j <= m < j + s[j] ==> s[m] == s[j] && t[m] == s[m]
    requires TiledFrom(t, j + s[j])
    ensures TiledFrom(t, j) && RunsFrom(t, j) == [Run(j, s[j])] + RunsFrom(t, j + s[j])
  {
    assert t[j] == s[j];
    TiledAtRun(t, j);
  }

  /** Stamping a fitting candidate, seen by one run `q`: the table stays tiled from `j`, and
      `q` is met afterwards exactly when it was met before or is the new run. */
  lemma {:induction false} StampRunMember(s: seq<nat>, i: nat, n: nat, j: nat, q: Run)
    requires TiledFrom(s, j) && j <= i && Fits(s, i, n) && n > 0
    ensures TiledFrom(Stamp(s, i, n), j)
    ensures q in RunsFrom(Stamp(s, i, n), j) <==> q in RunsFrom(s, j) || q == Run(i, n)
    decreases |s| - j
  {
    if j == i {
      StampAtWalkPosition(s, i, n);
    } else if s[j] == 0 {
      TiledAtFree(s, j);
      StampRunMember(s, i, n, j + 1, q);
      StampPastFree(s, i, n, j, q);
    } else {
      RunBeforeCandidate(s, i, n, j);
      StampRunMember(s, i, n, j + s[j], q);
      StampPastRun(s, i, n, j, q);
    }
  }

  /** A run met before a fitting candidate ends at or before it. */
  lemma RunBeforeCandidate(s: seq<nat>, i: nat, n: nat, j: nat)
    requires TiledFrom(s, j) && j < i && Fits(s, i, n) && s[j] != 0
    ensures TiledFrom(s, j + s[j]) && j + s[j] <= i
  {
    RunStep(s, j);
    assert s[i] == 0;
  }

  /** One step of `StampRunMember` over a free slot before the stamped run. */
  lemma StampPastFree(s: seq<nat>, i: nat, n: nat, j: nat, q: Run)
    requires j < i && Fits(s, i, n) && s[j] == 0 && TiledFrom(s, j + 1)
    requires TiledFrom(Stamp(s, i, n), j + 1)
    requires q in RunsFrom(Stamp(s, i, n), j + 1) <==> q in RunsFrom(s, j + 1) || q == Run(i, n)
    ensures TiledFrom(s, j) && TiledFrom(Stamp(s, i, n), j)
    ensures q in RunsFrom(Stamp(s, i, n), j) <==> q in RunsFrom(s, j) || q == Run(i, n)
  {
    SharedFree(s, Stamp(s, i, n), j);
  }

  /** One step of `StampRunMember` over a run that ends at or before the stamped run. */
  lemma StampPastRun(s: seq<nat>, i: nat, n: nat, j: nat, q: Run)
    requires TiledFrom(s, j) && j < |s| && s[j] != 0 && j + s[j] <= i && Fits(s, i, n)
    requires TiledFrom(s, j + s[j]) && TiledFrom(Stamp(s, i, n), j + s[j])
    requires q in RunsFrom(Stamp(s, i, n), j + s[j]) <==> q in RunsFrom(s, j + s[j]) || q == Run(i, n)
    ensures TiledFrom(Stamp(s, i, n), j)
    ensures q in RunsFrom(Stamp(s, i, n), j) <==> q in RunsFrom(s, j) || q == Run(i, n)
  {
    var t := Stamp(s, i, n);
    RunStep(s, j);
    assert forall m :: j <= m < j + s[j] ==> s[m] == s[j] && t[m] == s[m];
    SharedRun(s, t, j);
  }

  /** Stamping a fitting candidate keeps the table tiled; the live runs afterwards are the
      runs live before plus the new run [i, i+n). */
  lemma StampTiled(s: seq<nat>, i: nat, n: nat, j: nat)
    requires TiledFrom(s, j) && j <= i && Fits(s, i, n) && n > 0
    ensures TiledFrom(Stamp(s, i, n), j) && Run(i, n) in RunsFrom(Stamp(s, i, n), j)
    ensures forall q :: q in RunsFrom(Stamp(s, i, n), j) <==> q in RunsFrom(s, j) || q == Run(i, n)
  {
    StampRunMember(s, i, n, j, Run(i, n));
    forall q
      ensures q in RunsFrom(Stamp(s, i, n), j) <==> q in RunsFrom(s, j) || q == Run(i, n)
    {
      StampRunMember(s, i, n, j, q);
    }
  }

  /** Freeing the run that starts at a walk position, seen by one run `q`: the walk now
      crosses its pages one free slot at a time and goes on as before from its end, so `q` is
      met afterwards exactly when it was met before and is not the freed run. */
  lemma ClearAtWalkPosition(s: seq<nat>, j: nat, q: Run)
    requires TiledFrom(s, j) && j < |s| && s[j] != 0
    ensures TiledFrom(Clear(s, j, s[j]), j)
    ensures q in RunsFrom(Clear(s, j, s[j]), j) <==> q in RunsFrom(s, j) && q != Run(j, s[j])
  {
    var e := j + s[j];
    var t := Clear(s, j, s[j]);
    RunStep(s, j);
    var rest := RunsFrom(s, e);
    assert TiledFrom(t, e) && RunsFrom(t, e) == rest by {
      TiledAgree(s, t, e);
    }
    assert TiledFrom(t, j) && RunsFrom(t, j) == rest by {
      SkipFree(t, j, e);
    }
    assert Run(j, s[j]) !in rest;
  }

  /** Freeing a live run `r`, seen by one run `q`: the table stays tiled from `j`, and `q` is
      met afterwards exactly when it was met before and is not `r`. */
  lemma {:induction false} ClearRunMember(s: seq<nat>, r: Run, j: nat, q: Run)
    requires TiledFrom(s, j) && r in RunsFrom(s, j)
    ensures TiledFrom(Clear(s, r.start, r.pages), j)
    ensures q in RunsFrom(Clear(s, r.start, r.pages), j) <==> q in RunsFrom(s, j) && q != r
    decreases |s| - j
  {
    WalkTowards(s, r, j);
    if r.start == j {
      ClearAtWalkPosition(s, j, q);
    } else if s[j] == 0 {
      ClearRunMember(s, r, j + 1, q);
      ClearPastFree(s, r, j, q);
    } else {
      ClearRunMember(s, r, j + s[j], q);
      ClearPastRun(s, r, j, q);
    }
  }

  /** The walk from `j` towards a live run `r`: either `r` starts at `j`, or the walk steps
      over the free slot or the run at `j` and still meets `r` later. */
  lemma WalkTowards(s: seq<nat>, r: Run, j: nat)
    requires TiledFrom(s, j) && r in RunsFrom(s, j)
    ensures j < |s| && j <= r.start
    ensures r.start == j ==> r == Run(j, s[j]) && s[j] != 0
    ensures r.start != j && s[j] == 0 ==> j < r.start && TiledFrom(s, j + 1) && r in RunsFrom(s, j + 1)
    ensures r.start != j && s[j] != 0 ==>
      j + s[j] <= r.start && TiledFrom(s, j + s[j]) && r in RunsFrom(s, j + s[j])
  {
    MetRun(s, j, r);
    if s[j] != 0 {
      RunStep(s, j);
      if r.start != j {
        assert r in RunsFrom(s, j + s[j]);
        MetRun(s, j + s[j], r);
      }
    }
  }

  /** One step of `ClearRunMember` over a free slot before the freed run. */
  lemma ClearPastFree(s: seq<nat>, r: Run, j: nat, q: Run)
    requires j < r.start && j < |s| && s[j] == 0 && TiledFrom(s, j + 1)
    requires TiledFrom(Clear(s, r.start, r.pages), j + 1)
    requires q in RunsFrom(Clear(s, r.start, r.pages), j + 1) <==> q in RunsFrom(s, j + 1) && q != r
    ensures TiledFrom(s, j) && TiledFrom(Clear(s, r.start, r.pages), j)
    ensures q in RunsFrom(Clear(s, r.start, r.pages), j) <==> q in RunsFrom(s, j) && q != r
  {
    SharedFree(s, Clear(s, r.start, r.pages), j);
  }

  /** One step of `ClearRunMember` over a run that ends at or before the freed run. */
  lemma ClearPastRun(s: seq<nat>, r: Run, j: nat, q: Run)
    requires TiledFrom(s, j) && j < |s| && s[j] != 0 && j + s[j] <= r.start
    requires TiledFrom(s, j + s[j]) && TiledFrom(Clear(s, r.start, r.pages), j + s[j])
    requires q in RunsFrom(Clear(s, r.start, r.pages), j + s[j]) <==> q in RunsFrom(s, j + s[j]) && q != r
    ensures TiledFrom(Clear(s, r.start, r.pages), j)
    ensures q in RunsFrom(Clear(s, r.start, r.pages), j) <==> q in RunsFrom(s, j) && q != r
  {
    var t := Clear(s, r.start, r.pages);
    RunStep(s, j);
    assert forall m :: j <= m < j + s[j] ==> s[m] == s[j] && t[m] == s[m];
    SharedRun(s, t, j);
    assert Run(j, s[j]) != r;
  }

  /** Freeing a live run keeps the table tiled; the live runs afterwards are the runs live
      before except the freed one. */
  lemma ClearTiled(s: seq<nat>, r: Run, j: nat)
    requires TiledFrom(s, j) && r in RunsFrom(s, j)
    ensures TiledFrom(Clear(s, r.start, r.pages), j)
    ensures r !in RunsFrom(Clear(s, r.start, r.pages), j)
    ensures forall q :: q in RunsFrom(Clear(s, r.start, r.pages), j) <==> q in RunsFrom(s, j) && q != r
  {
    ClearRunMember(s, r, j, r);
    forall q
      ensures q in RunsFrom(Clear(s, r.start, r.pages), j) <==> q in RunsFrom(s, j) && q != r
    {
      ClearRunMember(s, r, j, q);
    }
  }

  /** Number of occupied slots from `j` to the end of the table. */
  function Occupied(s: seq<nat>, j: nat): (c: nat)
    decreases |s| - j
    ensures c <= |s| - j || j > |s|
  {
    if j >= |s| then 0 else (if s[j] != 0 then 1 else 0) + Occupied(s, j + 1)
  }

  function SumPages(rs: seq<Run>): nat
  {
    if rs == [] then 0 else rs[0].pages + SumPages(rs[1..])
  }

  lemma {:induction false} OccupiedRange(s: seq<nat>, j: nat, k: nat)
    requires j <= k <= |s| && forall m :: j <= m < k ==> s[m] != 0
    ensures Occupied(s, j) == (k - j) + Occupied(s, k)
    decreases k - j
  {
    if j < k {
      OccupiedRange(s, j + 1, k);
    }
  }

  /** The pages of the live runs add up to the number of occupied slots. */
  lemma {:induction false} SumPagesIsOccupied(s: seq<nat>, j: nat)
    requires TiledFrom(s, j)
    ensures SumPages(RunsFrom(s, j)) == Occupied(s, j)
    decreases |s| - j
  {
    if j < |s| {
      if s[j] == 0 {
        SumPagesIsOccupied(s, j + 1);
      } else {
        var e := j + s[j];
        var rest := RunsFrom(s, e);
        SumPagesIsOccupied(s, e);
        OccupiedRange(s, j, e);
        assert RunsFrom(s, j) == [Run(j, s[j])] + rest;
        assert ([Run(j, s[j])] + rest)[1..] == rest;
      }
    }
  }

  /** The walk outcome `w` preceded by the runs `seen` already reported. */
  function Resume(seen: seq<Run>, w: Walk): Walk
  {
    match w
    case ReadPastEnd(rest) => ReadPastEnd(seen + rest)
    case Walked(rest) => Walked(seen + rest)
  }

  lemma ResumeResume(a: seq<Run>, b: seq<Run>, w: Walk)
    ensures Resume(a, Resume(b, w)) == Resume(a + b, w)
  {
    assert a + (b + w.runs) == (a + b) + w.runs;
  }

  /** `debug`'s loop from `j`: read slot `j`, report it when it starts a run, advance by the run's
      length (or by one past a free slot), and stop when the position lands exactly on the end.
      A position that jumps past the end is read on the next round: an index panic, after the
      lines already printed. At most one line is printed per slot. */
  function WalkFrom(s: seq<nat>, j: nat): (w: Walk)
    decreases |s| - j
    ensures j <= |s| ==> |w.runs| <= |s| - j
  {
    if j >= |s| then ReadPastEnd([])
    else
      var here := if s[j] != 0 then [Run(j, s[j])] else [];
      var next := j + (if s[j] != 0 then s[j] else 1);
      if next == |s| then Walked(here)
      else if next > |s| then ReadPastEnd(here)
      else Resume(here, WalkFrom(s, next))
  }

  /** Every run in `rs` starts at an occupied slot at or after `j` and has that slot's value
      as its length. */
  predicate OccupiedStarts(s: seq<nat>, j: nat, rs: seq<Run>)
  {
    forall k :: 0 <= k < |rs| ==> j <= rs[k].start < |s| && rs[k].pages == s[rs[k].start] != 0
  }

  /** Every run the walk from `j` reports, whether it then lands on the end or reads past it,
      starts at an occupied slot at or after `j` and has that slot's value as its length. */
  lemma {:induction false} WalkReportsOccupied(s: seq<nat>, j: nat)
    ensures OccupiedStarts(s, j, WalkFrom(s, j).runs)
    decreases |s| - j
  {
    if j < |s| {
      var here: seq<Run> := if s[j] != 0 then [Run(j, s[j])] else [];
      var next := j + (if s[j] != 0 then s[j] else 1);
      assert OccupiedStarts(s, j, here);
      if next < |s| {
        WalkReportsOccupied(s, next);
        var rest := WalkFrom(s, next).runs;
        assert WalkFrom(s, j).runs == here + rest;
        forall k | 0 <= k < |here + rest|
          ensures j <= (here + rest)[k].start < |s|
          ensures (here + rest)[k].pages == s[(here + rest)[k].start] != 0
        {
          if k >= |here| {
            assert (here + rest)[k] == rest[k - |here|];
          }
        }
      }
    }
  }

  /** Freeing page 1 of the two-page run at the start of `[2, 2, 3, 3, 3]` zeroes slots 1 and 2
      (the stored length counted from the wrong slot). `debug` then prints the two-page run,
      steps over the zeroed slots, prints the three-page run and jumps past the end, where its
      next read panics. */
  lemma WalkAfterInteriorFree()
    ensures Clear([2, 2, 3, 3, 3], 1, 2) == [2, 0, 0, 3, 3]
    ensures WalkFrom([2, 0, 0, 3, 3], 0) == ReadPastEnd([Run(0, 2), Run(3, 3)])
  {
    var t: seq<nat> := [2, 0, 0, 3, 3];
    assert WalkFrom(t, 3) == ReadPastEnd([Run(3, 3)]);
    assert WalkFrom(t, 2) == ReadPastEnd([Run(3, 3)]);
  }

  /** On a tiled table `debug`'s walk lands exactly on the end and reports every live run once,
      in order. */
  lemma {:induction false} WalkReportsLiveRuns(s: seq<nat>, j: nat)
    requires TiledFrom(s, j) && j < |s|
    ensures WalkFrom(s, j) == Walked(RunsFrom(s, j))
    decreases |s| - j
  {
    var here := if s[j] != 0 then [Run(j, s[j])] else [];
    var next := j + (if s[j] != 0 then s[j] else 1);
    assert TiledFrom(s, next) && RunsFrom(s, j) == here + RunsFrom(s, next);
    if next < |s| {
      WalkReportsLiveRuns(s, next);
      assert WalkFrom(s, j) == Resume(here, WalkFrom(s, next));
    } else {
      assert RunsFrom(s, next) == [];
      assert WalkFrom(s, j) == Walked(here);
    }
  }

  /** After a live run of `n` pages is freed, a request for `n` pages that fits nowhere earlier
      gets the same run back. */
  lemma ReallocateFreedRun(s: seq<nat>, r: Run)
    requires Tiled(s) && r in LiveRuns(s)
    requires NoFitIn(Clear(s, r.start, r.pages), r.pages, 0, r.start)
    ensures ScanFrom(Clear(s, r.start, r.pages), r.pages, 0) == FoundAt(r.start)
  {
    var t := Clear(s, r.start, r.pages);
    MetRun(s, 0, r);
    assert Fits(t, r.start, r.pages);
    FirstFit(t, r.pages, r.start);
  }
}
