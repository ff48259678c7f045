/** Invocation identifiers: the native range check and schedule, the printed lists, and their compact form. */
module Invocations {
  import opened Words
  import opened Philox

  const UINT32_MAX := 0xFFFF_FFFF
  const UINT64_MAX := 0xFFFF_FFFF_FFFF_FFFF

  /** The native check, in unsigned 64-bit arithmetic. */
  function RangeValid(tensor: u64, base: u64, warmups: u64, reps: u64, step: u64): bool
  {
    if tensor > UINT32_MAX || base > UINT32_MAX || warmups > UINT64_MAX - reps then false
    else
      var total := warmups + reps;
      total != 0 && (step == 0 || total - 1 <= (UINT32_MAX - base) / step)
  }

  /** Warm-up runs come first but take the identifiers after the measured ones. */
  function Offset(warmups: u64, reps: u64, index: u64): nat
  {
    if index < warmups then (reps + index) % TWO_64 else index - warmups
  }

  /** The identifier of one execution, with 64-bit wrap-around. */
  function RunId(base: u64, warmups: u64, reps: u64, index: u64, step: u64): u64
  {
    (base + Offset(warmups, reps, index) * step) % TWO_64
  }

  /** The identifier that run `k` of the schedule should have, in unbounded arithmetic. */
  function TrueId(base: nat, k: nat, step: nat): nat { base + k * step }

  lemma TrueIdOrder(base: nat, j: nat, k: nat, step: nat)
    requires j <= k
    ensures TrueId(base, j, step) <= TrueId(base, k, step)
    ensures j < k && step >= 1 ==> TrueId(base, j, step) < TrueId(base, k, step)
  {
    MulOrder(j, k, step);
    MulOrder(k, j, step);
  }

  /** The check accepts exactly the schedules whose every identifier fits a 32-bit counter word. */
  lemma RangeValidIff(tensor: u64, base: u64, warmups: u64, reps: u64, step: u64)
    ensures RangeValid(tensor, base, warmups, reps, step) <==>
            && tensor < TWO_32 && 0 < warmups + reps < TWO_64
            && forall k: nat :: k < warmups + reps ==> TrueId(base, k, step) < TWO_32
  {
    var total := warmups + reps;
    if tensor < TWO_32 && 0 < total < TWO_64 {
      if base < TWO_32 && step > 0 {
        LastFits(base, total - 1, step);
      }
      forall k: nat | k < total
        ensures TrueId(base, k, step) <= TrueId(base, total - 1, step)
      {
        TrueIdOrder(base, k, total - 1, step);
      }
      TrueIdOrder(base, 0, total - 1, step);
      ZeroStep(base, total - 1);
      assert base >= TWO_32 ==> TrueId(base, 0, step) >= TWO_32;
      hide TrueId;
    }
  }

  lemma ZeroStep(base: nat, k: nat)
    ensures TrueId(base, k, 0) == base
  {
  }

  lemma LastFits(base: nat, last: nat, step: nat)
    requires base < TWO_32 && step > 0
    ensures last <= (UINT32_MAX - base) / step <==> TrueId(base, last, step) < TWO_32
  {
    var room := UINT32_MAX - base;
    QuotientBounds(room, step);
    MulOrder(last, room / step, step);
  }

  /** Within a valid schedule nothing wraps: measured run `i` is `base + i step`, warm-up `i` comes `reps` later. */
  lemma RunIdExact(tensor: u64, base: u64, warmups: u64, reps: u64, step: u64, index: u64)
    requires RangeValid(tensor, base, warmups, reps, step) && index < warmups + reps
    ensures Offset(warmups, reps, index) < warmups + reps
    ensures Offset(warmups, reps, index) == if index < warmups then reps + index else index - warmups
    ensures RunId(base, warmups, reps, index, step) == TrueId(base, Offset(warmups, reps, index), step) < TWO_32
  {
    RangeValidIff(tensor, base, warmups, reps, step);
    hide RangeValid;
    var k := Offset(warmups, reps, index);
    assert TrueId(base, k, step) < TWO_32;
  }

  /** With a positive step no two runs share an identifier; with step zero they all use the base. */
  lemma RunsDistinct(tensor: u64, base: u64, warmups: u64, reps: u64, step: u64, i: u64, j: u64)
    requires RangeValid(tensor, base, warmups, reps, step) && i < warmups + reps && j < warmups + reps && i != j
    ensures step >= 1 ==> RunId(base, warmups, reps, i, step) != RunId(base, warmups, reps, j, step)
    ensures step == 0 ==> RunId(base, warmups, reps, i, step) == base
  {
    RunIdExact(tensor, base, warmups, reps, step, i);
    RunIdExact(tensor, base, warmups, reps, step, j);
    hide RunId, RangeValid;
    var a, b := Offset(warmups, reps, i), Offset(warmups, reps, j);
    assert a != b;
    if a < b {
      TrueIdOrder(base, a, b, step);
    } else {
      TrueIdOrder(base, b, a, step);
    }
    ZeroStep(base, a);
  }

  /** So different runs of one schedule never draw from a common block of random words. */
  lemma RunsDrawApart(seed: u64, tensor: u64, base: u64, warmups: u64, reps: u64, step: u64, i: u64, j: u64,
                      g: u64, h: u64)
    requires RangeValid(tensor, base, warmups, reps, step) && step >= 1
    requires i < warmups + reps && j < warmups + reps && i != j
    ensures RunId(base, warmups, reps, i, step) < TWO_32 && RunId(base, warmups, reps, j, step) < TWO_32
            && tensor < TWO_32
    ensures GroupBlock(Stream(seed, tensor, RunId(base, warmups, reps, i, step)), g)
            != GroupBlock(Stream(seed, tensor, RunId(base, warmups, reps, j, step)), h)
  {
    hide GroupBlock, RunId;
    RunIdExact(tensor, base, warmups, reps, step, i);
    RunIdExact(tensor, base, warmups, reps, step, j);
    RunsDistinct(tensor, base, warmups, reps, step, i, j);
    var s := Stream(seed, tensor, RunId(base, warmups, reps, i, step));
    var t := Stream(seed, tensor, RunId(base, warmups, reps, j, step));
    if GroupBlock(s, g) == GroupBlock(t, h) {
      StreamsNeverAlias(s, g, t, h);
      assert false;
    }
  }

  // ---------- printed lists ----------

  /** `count` identifiers from execution `first` on, as the report prints them. */
  method PrintedIds(base: u64, warmups: u64, reps: u64, step: u64, count: u64, first: u64) returns (ids: seq<u64>)
    requires first + count < TWO_64
    ensures |ids| == count
    ensures forall i :: 0 <= i < count ==> ids[i] == RunId(base, warmups, reps, first + i, step)
  {
    hide RunId;
    ids := [];
    var i := 0;
    while i < count
      invariant |ids| == i <= count
      invariant forall k :: 0 <= k < i ==> ids[k] == RunId(base, warmups, reps, first + k, step)
    {
      ids := ids + [RunId(base, warmups, reps, first + i, step)];
      i := i + 1;
    }
  }

  /** The lists the driver demands for base identifier 0. */
  function ExpectedMeasured(reps: nat, step: nat): (r: seq<int>)
    ensures |r| == reps
  {
    seq(reps, i requires 0 <= i < reps => i * step)
  }

  function ExpectedWarmups(warmups: nat, reps: nat, step: nat): (r: seq<int>)
    ensures |r| == warmups
  {
    seq(warmups, i requires 0 <= i < warmups => (reps + i) * step)
  }

  /** A valid report prints exactly the lists the driver expects. */
  lemma PrintedAreExpected(warmups: u64, reps: u64, step: u64, measured: seq<u64>, warm: seq<u64>)
    requires RangeValid(0, 0, warmups, reps, step) && |measured| == reps && |warm| == warmups
    requires forall i :: 0 <= i < reps ==> measured[i] == RunId(0, warmups, reps, warmups + i, step)
    requires forall i :: 0 <= i < warmups ==> warm[i] == RunId(0, warmups, reps, 0 + i, step)
    ensures measured == ExpectedMeasured(reps, step) && warm == ExpectedWarmups(warmups, reps, step)
  {
    hide RunId;
    forall i | 0 <= i < reps
      ensures measured[i] == i * step
    {
      RunIdExact(0, 0, warmups, reps, step, warmups + i);
    }
    forall i | 0 <= i < warmups
      ensures warm[i] == (reps + i) * step
    {
      RunIdExact(0, 0, warmups, reps, step, 0 + i);
    }
    hide RangeValid;
  }

  // ---------- compact form ----------

  datatype Compact =
    | Missing
    | Empty
    | Repeated(value: int, count: nat)
    | Listed(ids: seq<int>)
    | Range(first: int, last: int, count: nat)

  predicate AllSame(ids: seq<int>) { forall i :: 0 <= i < |ids| ==> ids[i] == ids[0] }

  predicate Contiguous(ids: seq<int>) { forall i :: 0 <= i < |ids| ==> ids[i] == ids[0] + i }

  function CompactIds(ids: Option<seq<int>>): Compact
  {
    if ids.None? then Missing
    else if ids.value == [] then Empty
    else if |ids.value| > 1 && AllSame(ids.value) then Repeated(ids.value[0], |ids.value|)
    else if !Contiguous(ids.value) then Listed(ids.value)
    else Range(ids.value[0], ids.value[|ids.value| - 1], |ids.value|)
  }

  function Expand(c: Compact): Option<seq<int>>
  {
    match c
    case Missing => None
    case Empty => Some([])
    case Repeated(value, count) => Some(seq(count, _ => value))
    case Listed(ids) => Some(ids)
    case Range(first, _, count) => Some(seq(count, i => first + i))
  }

  /** The compact form loses nothing, so equal compact forms mean equal lists. */
  lemma CompactLossless(ids: Option<seq<int>>)
    ensures Expand(CompactIds(ids)) == ids
  {
    if ids.Some? {
      assert Expand(CompactIds(ids)).value == ids.value;
    }
  }
}
