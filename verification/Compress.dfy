/** The CPU compressor: one workspace reused by repeated calls, and the pipeline scale, words, header, payload. */
module Compress {
  import opened Words
  import opened Binary32
  import opened Team
  import opened MagnitudeScan
  import opened Codes
  import opened Packing
  import opened Philox
  import opened WordStreams
  import opened Codec
  import Scale
  import ScaleBounds
  import PairwiseTree
  import Encoder

  datatype Backend = Cpu | CpuAvx2 | OtherBackend

  /** Buffers kept between calls; capacities only grow. */
  class Workspace {
    var words: array?<u32>
    var wordCapacity: nat
    var partials: array?<AbsBits>
    var partialCapacity: nat

    ghost predicate Valid()
      reads this
    {
      && wordCapacity == (if words == null then 0 else words.Length)
      && partialCapacity == (if partials == null then 0 else partials.Length)
    }

    /** Enough for `count` values. */
    ghost predicate Reserved(count: nat)
      reads this
    {
      && wordCapacity >= count
      && (count > 0 ==> partialCapacity >= Pow2(Scale.Depth(count)))
    }

    constructor Init()
      ensures Valid() && wordCapacity == 0 && partialCapacity == 0 && words == null && partials == null
    {
      words, wordCapacity, partials, partialCapacity := null, 0, null, 0;
    }

    /**
     Grows the buffers for `count` values. `gotWords` and `gotPartials` say whether
     the allocator delivers; a failed second allocation keeps the first.
     */
    method Reserve(backend: Backend, threads: int, count: nat, gotWords: bool, gotPartials: bool)
      returns (status: Status)
      requires Valid() && count <= SIZE_MAX
      modifies this
      ensures Valid()
      ensures status
              == ReserveStatus(backend, threads, count, gotWords, gotPartials, old(wordCapacity), old(partialCapacity))
      ensures wordCapacity == if ReachesWords(backend, threads, count) && count > old(wordCapacity) && gotWords
                              then count else old(wordCapacity)
      ensures partialCapacity == if status == Ok && PartialCount(count) > old(partialCapacity)
                                 then PartialCount(count) else old(partialCapacity)
      ensures status == Ok ==> Reserved(count)
      ensures wordCapacity == old(wordCapacity) ==> words == old(words)
      ensures partialCapacity == old(partialCapacity) ==> partials == old(partials)
      ensures words != old(words) ==> fresh(words)
      ensures partials != old(partials) ==> fresh(partials)
    {
      hide PairwiseTree.Rev, Pow2, Scale.Depth;
      if (backend != Cpu && backend != CpuAvx2) || (backend == Cpu && threads != 0)
        || (backend == CpuAvx2 && threads < 1) {
        return ErrArgument;
      }
      if count > SIZE_MAX / 4 {
        return ErrMemory;
      }
      var partialCount := Scale.WorkspaceElements(count);
      if partialCount == SIZE_MAX || partialCount > SIZE_MAX / 4 {
        assert false; // workspace sizes of 64-bit counts stay far below the limit
      }
      if count > wordCapacity {
        if !gotWords {
          return ErrMemory;
        }
        words := new u32[count];
        wordCapacity := count;
      }
      if partialCount > partialCapacity {
        if !gotPartials {
          return ErrMemory;
        }
        partials := new AbsBits[partialCount];
        partialCapacity := partialCount;
      }
      status := Ok;
    }

    /** Releases both buffers; reserving again starts from nothing. */
    method Destroy()
      modifies this
      ensures Valid() && wordCapacity == 0 && partialCapacity == 0 && words == null && partials == null
    {
      words, wordCapacity, partials, partialCapacity := null, 0, null, 0;
    }
  }

  ghost function PartialCount(count: nat): nat { if count == 0 then 0 else Pow2(Scale.Depth(count)) }

  predicate ReachesWords(backend: Backend, threads: int, count: nat)
  {
    ((backend == Cpu && threads == 0) || (backend == CpuAvx2 && threads >= 1)) && count <= SIZE_MAX / 4
  }

  ghost function ReserveStatus(backend: Backend, threads: int, count: nat, gotWords: bool, gotPartials: bool,
                               wordCapacity: nat, partialCapacity: nat): Status
  {
    if !ReachesWords(backend, threads, count) then
      if count > SIZE_MAX / 4 && ReachesWords(backend, threads, 0) then ErrMemory else ErrArgument
    else if count > wordCapacity && !gotWords then ErrMemory
    else if PartialCount(count) > partialCapacity && !gotPartials then ErrMemory
    else Ok
  }

  // ---------- the pipeline ----------

  /** One compression request; prescribed parts replace the computed ones. */
  datatype Job = Job(bits: u8, values: Option<seq<u32>>, count: nat, seed: u64, tensor: u64, invocation: u64,
                     scale: Option<u32>, words: Option<seq<u32>>)

  ghost predicate Sized(job: Job)
  {
    && 4 * job.count < TWO_64
    && (job.values.Some? ==> |job.values.value| == job.count)
    && (job.words.Some? ==> |job.words.value| == job.count)
  }

  predicate FitsCounter(job: Job) { job.tensor < TWO_32 && job.invocation < TWO_32 }

  ghost function ScaleResult(ar: Arith, job: Job, capacity: Option<nat>): (Status, u32)
  {
    if job.scale.Some? then (Ok, job.scale.value) else Scale.Expected(ar, job.values, job.count, capacity)
  }

  ghost function WordsFor(job: Job): seq<u32>
    requires Sized(job) && (job.words.None? ==> FitsCounter(job))
  {
    if job.words.Some? then job.words.value else WordsUpTo(Stream(job.seed, job.tensor, job.invocation), job.count)
  }

  ghost function RequestFor(job: Job, scale: u32): (q: Encoder.Request)
    requires Sized(job) && (job.words.None? ==> FitsCounter(job))
  {
    Encoder.Request(job.bits, job.values, job.count, scale, Some(WordsFor(job)))
  }

  /** The status before anything is written. */
  ghost function EarlyStatus(ar: Arith, job: Job, capacity: Option<nat>): Status
  {
    if ScaleResult(ar, job, capacity).0 != Ok then ScaleResult(ar, job, capacity).0
    else if job.words.None? && !FitsCounter(job) then ErrIdOverflow
    else Ok
  }

  /**
   Status and record bytes of a call: the record is untouched until the header is
   valid, and a payload that is refused leaves only the header behind.
   */
  ghost function Compressed(ar: Arith, job: Job, capacity: Option<nat>, before: seq<u8>): (r: (Status, seq<u8>))
    requires ar.Valid() && Sized(job) && |before| >= HEADER_SIZE + PayloadSize(job.bits, job.count)
    ensures |r.1| == |before|
  {
    var scale := ScaleResult(ar, job, capacity).1;
    if EarlyStatus(ar, job, capacity) != Ok then (EarlyStatus(ar, job, capacity), before)
    else if HeaderStatus(job.bits, job.count, scale) != Ok then (HeaderStatus(job.bits, job.count, scale), before)
    else
      var q := RequestFor(job, scale);
      (Encoder.EncodeStatus(q, true),
       Header(job.bits, job.count, scale) + Encoder.After(ar, q, before[HEADER_SIZE..]))
  }

  /**
   How a call ends: with the status of the first stage that refuses it, and with the
   record as it was unless the header was due.
   */
  lemma CallEnds(ar: Arith, job: Job, capacity: Option<nat>, before: seq<u8>)
    requires ar.Valid() && Sized(job) && |before| >= HEADER_SIZE + PayloadSize(job.bits, job.count)
    ensures var (status, after) := Compressed(ar, job, capacity, before);
            var early := if job.scale.Some? || job.count == 0 then Ok
                         else if job.values.None? then ErrArgument
                         else Scale.ScaleOf(ar, job.values.value, capacity).0;
            var tooBig := job.words.None? && (job.tensor >= TWO_32 || job.invocation >= TWO_32);
            var scale := if job.scale.Some? then job.scale.value
                         else if job.count == 0 || job.values.None? then 0
                         else Scale.ScaleOf(ar, job.values.value, capacity).1;
            && (early != Ok ==> status == early)
            && (early == Ok && tooBig ==> status == ErrIdOverflow)
            && (early == Ok && !tooBig && HeaderStatus(job.bits, job.count, scale) != Ok ==>
                  status == HeaderStatus(job.bits, job.count, scale))
            && (early != Ok || tooBig || HeaderStatus(job.bits, job.count, scale) != Ok ==> after == before)
            && (early == Ok && !tooBig && HeaderStatus(job.bits, job.count, scale) == Ok ==>
                  status == Encoder.EncodeStatus(RequestFor(job, scale), true)
                  && after[..HEADER_SIZE] == Header(job.bits, job.count, scale))
  {
    hide Scale.ScaleOf, HeaderStatus, Encoder.EncodeStatus, Encoder.After, Header, WordsFor;
  }

  /** What the scheduler of a team decides in one call. */
  datatype Run = Run(team: nat, scaleOrder: seq<nat>, scaleSchedule: seq<nat>, wordSchedule: seq<nat>,
                     scanOrder: seq<nat>, encodeSchedule: seq<nat>)

  ghost predicate FairRun(run: Run, bits: u8, count: nat)
  {
    && run.team > 0
    && Arrivals(run.scaleOrder, run.team) && Arrivals(run.scanOrder, run.team)
    && Fair(run.scaleSchedule, ShareCuts(Units(count), run.team))
    && Fair(run.wordSchedule, UnitCuts(count, run.team))
    && Fair(run.encodeSchedule, Encoder.ByteCuts(bits, count, run.team))
  }

  lemma ZeroStays(ar: Arith)
    requires ar.Valid()
    ensures Scale.ZeroExact(ar)
  {
    assert Value(0) == 0.0;
    assert ar.round(Value(0)) == 0;
  }

  method ComputeScaleOn(ar: Arith, avx2: bool, run: Run, job: Job, partials: array?<AbsBits>, capacity: nat)
    returns (status: Status, scale: AbsBits)
    requires ar.Valid() && Sized(job) && Scale.Workspace(partials, capacity)
    requires avx2 ==> FairRun(run, job.bits, job.count)
    modifies partials
    ensures (status, scale) == Scale.Expected(ar, job.values, job.count, Scale.Capacity(partials, capacity))
  {
    ZeroStays(ar);
    if avx2 {
      status, scale := Scale.ComputeScaleByTeam(ar, job.values, job.count, partials, capacity,
                                                run.team, run.scaleOrder, run.scaleSchedule);
    } else {
      status, scale := Scale.ComputeScale(ar, job.values, job.count, partials, capacity);
    }
  }

  method WordsOn(avx2: bool, run: Run, bits: u8, stream: Stream, count: nat, words: array<u32>)
    requires count <= words.Length && Fits(count) && (avx2 ==> FairRun(run, bits, count))
    modifies words
    ensures words[..count] == WordsUpTo(stream, count)
  {
    if avx2 {
      WordsByTeam(stream, count, words, run.team, run.wordSchedule);
    } else {
      ghost var stores := WordsSerial(stream, count, words);
    }
  }

  method EncodeOn(ar: Arith, avx2: bool, run: Run, q: Encoder.Request, payload: array<u8>) returns (status: Status)
    requires ar.Valid() && Encoder.Sized(q, payload) && (avx2 ==> FairRun(run, q.bits, q.count))
    modifies payload
    ensures status == Encoder.EncodeStatus(q, true)
    ensures payload[..] == Encoder.After(ar, q, old(payload[..]))
  {
    if avx2 {
      status := Encoder.EncodeByTeam(ar, q, payload, run.team, run.scanOrder, run.encodeSchedule);
    } else {
      status := Encoder.EncodeScalar(ar, q, payload);
    }
  }

  /** The words of a call: the caller's, or generated into the workspace. */
  method WordsOfJob(avx2: bool, run: Run, job: Job, ws: Workspace) returns (status: Status, words: seq<u32>)
    requires ws.Valid() && Sized(job) && (job.words.None? ==> ws.wordCapacity >= job.count)
    requires avx2 ==> FairRun(run, job.bits, job.count)
    modifies ws.words
    ensures status == if job.words.None? && !FitsCounter(job) then ErrIdOverflow else Ok
    ensures status == Ok ==> words == WordsFor(job)
  {
    if job.words.Some? {
      return Ok, job.words.value;
    }
    var cell := new StreamCell();
    status := cell.Init(job.seed, job.tensor, job.invocation);
    if status != Ok {
      return status, [];
    }
    if ws.words == null {
      return Ok, [];
    }
    WordsOn(avx2, run, job.bits, cell.stream, job.count, ws.words);
    words := ws.words[..job.count];
  }

  /** Encodes behind the header: the part of the record after it is handed out and put back. */
  method EncodeBehindHeader(ar: Arith, avx2: bool, run: Run, q: Encoder.Request, record: array<u8>)
    returns (status: Status)
    requires ar.Valid() && record.Length >= HEADER_SIZE + PayloadSize(q.bits, q.count)
    requires 4 * q.count < TWO_64 && q.words.Some? && |q.words.value| == q.count
    requires q.values.Some? ==> |q.values.value| == q.count
    requires avx2 ==> FairRun(run, q.bits, q.count)
    modifies record
    ensures status == Encoder.EncodeStatus(q, true)
    ensures record[..] == old(record[..HEADER_SIZE]) + Encoder.After(ar, q, old(record[HEADER_SIZE..]))
  {
    ghost var front, back := record[..HEADER_SIZE], record[HEADER_SIZE..];
    var payload := new u8[record.Length - HEADER_SIZE](
      i requires 0 <= i < record.Length - HEADER_SIZE reads record => record[HEADER_SIZE + i]);
    assert payload[..] == back;
    hide FairRun, Encoder.EncodeStatus, Encoder.After;
    status := EncodeOn(ar, avx2, run, q, payload);
    forall i | 0 <= i < payload.Length {
      record[HEADER_SIZE + i] := payload[i];
    }
    assert record[..HEADER_SIZE] == front;
    assert record[HEADER_SIZE..] == payload[..];
    assert record[..] == record[..HEADER_SIZE] + record[HEADER_SIZE..];
  }

  /** Two buffers that are not one. */
  ghost predicate Disjoint(a: object?, b: object?) { a == null || a != b }

  /**
   The pipeline; every back end returns the same status and the same record bytes.
   Anything but the scalar back end takes the threaded stages, and a missing record
   is noticed only when its header is due.
   */
  method CompressRecord(ar: Arith, backend: Backend, job: Job, ws: Workspace, run: Run, record: array?<u8>)
    returns (status: Status)
    requires ar.Valid() && ws.Valid() && Sized(job)
    requires record != null ==> record.Length >= HEADER_SIZE + PayloadSize(job.bits, job.count)
    requires job.words.None? ==> ws.wordCapacity >= job.count
    requires backend != Cpu ==> FairRun(run, job.bits, job.count)
    requires Disjoint(record, ws.words) && Disjoint(record, ws.partials) && Disjoint(ws.words, ws.partials)
    modifies ws.words, ws.partials, record
    ensures var capacity := Scale.Capacity(ws.partials, ws.partialCapacity);
            if record == null then
              status == if EarlyStatus(ar, job, capacity) != Ok then EarlyStatus(ar, job, capacity) else ErrArgument
            else (status, record[..]) == Compressed(ar, job, capacity, old(record[..]))
  {
    hide FairRun;
    var avx2 := backend != Cpu;
    ghost var before := if record == null then [] else record[..];
    var scale: u32;
    if job.scale.Some? {
      scale := job.scale.value;
    } else {
      status, scale := ComputeScaleOn(ar, avx2, run, job, ws.partials, ws.partialCapacity);
      if status != Ok {
        return;
      }
    }
    var words;
    status, words := WordsOfJob(avx2, run, job, ws);
    if status != Ok {
      return;
    }
    assert record != null ==> record[..] == before;
    status := HeaderEncode(job.bits, job.count, scale, record);
    if status != Ok {
      return;
    }
    var q := Encoder.Request(job.bits, job.values, job.count, scale, Some(words));
    assert record[..HEADER_SIZE] == Header(job.bits, job.count, scale);
    assert record[HEADER_SIZE..] == before[HEADER_SIZE..];
    status := EncodeBehindHeader(ar, avx2, run, q, record);
  }

  // ---------- what the pipeline guarantees ----------

  /** With a scale that covers the input, scaling never exceeds the limit, so the clamp never acts. */
  lemma NeverClamps(ar: Arith, x: u32, scale: AbsBits, s: nat)
    requires ar.Valid() && IsFinite(x) && 0 < scale < INFINITY && Magnitude(x) <= scale && s <= 127
    ensures !Greater(ar.Mul(ar.Div(Magnitude(x), scale), Float(ar, s)), Float(ar, s))
  {
    DivAtMostOne(ar, Magnitude(x), scale);
    FloatExact(ar, s);
    hide Value, Float, Arith.Div, Arith.Mul;
    ShrinkingMul(ar, ar.Div(Magnitude(x), scale), Float(ar, s));
    GreaterIsPatternOrder(ar.Mul(ar.Div(Magnitude(x), scale), Float(ar, s)), Float(ar, s));
  }

  lemma DivAtMostOne(ar: Arith, m: AbsBits, scale: AbsBits)
    requires ar.Valid() && m <= scale && 0 < scale < INFINITY
    ensures ar.Div(m, scale) < INFINITY && 0.0 <= Value(ar.Div(m, scale)) <= 1.0
  {
    FloatExact(ar, 1);
    ZeroIsZero(scale);
    if m < scale {
      ValueMonotone(m, scale);
    }
    hide Value;
    QuotientAtMostOne(Value(m), Value(scale));
    var r := ar.Div(m, scale);
    assert r <= Float(ar, 1);
    if r < Float(ar, 1) {
      ValueMonotone(r, Float(ar, 1));
    }
  }

  /** The scale of every computed call keeps the encoder from clamping any value. */
  lemma ComputedScaleNeverClamps(ar: Arith, values: seq<u32>, capacity: Option<nat>, i: nat, s: nat)
    requires ar.Valid() && Scale.ScaleOf(ar, values, capacity).0 == Ok && i < |values| && s <= 127
    requires 0 < Scale.ScaleOf(ar, values, capacity).1 < INFINITY && IsFinite(values[i])
    ensures !Greater(ar.Mul(ar.Div(Magnitude(values[i]), Scale.ScaleOf(ar, values, capacity).1), Float(ar, s)),
            Float(ar, s))
  {
    hide Scale.ScaleOf;
    ScaleBounds.ScaleCoversInput(ar, values, capacity);
    NeverClamps(ar, values[i], Scale.ScaleOf(ar, values, capacity).1, s);
  }

  /** A self-contained call: known width, an input, nothing prescribed, identifiers in range, enough workspace. */
  ghost predicate Plain(job: Job, capacity: Option<nat>)
  {
    && Sized(job) && KnownWidth(job.bits) && job.values.Some? && job.scale.None? && job.words.None? && FitsCounter(job)
    && (job.count > 0 ==> capacity.Some? && capacity.value >= Pow2(Scale.Depth(job.count)))
  }

  /** A scale that is zero exactly for all-zero input passes the header's and the encoder's checks. */
  lemma ChecksPass(job: Job, scale: AbsBits)
    requires Sized(job) && KnownWidth(job.bits) && job.values.Some? && (job.words.None? ==> FitsCounter(job))
    requires scale < INFINITY && AllFinite(job.values.value) && (scale == 0 <==> MaxMagnitude(job.values.value) == 0)
    ensures HeaderStatus(job.bits, job.count, scale) == Ok
    ensures Encoder.EncodeStatus(RequestFor(job, scale), true) == Ok
  {
    hide WordsFor;
    if job.count == 0 {
      assert job.values.value == [];
    }
  }

  /** The computed scale passes every later check. */
  lemma PlainEncodes(ar: Arith, job: Job, capacity: Option<nat>)
    requires ar.Valid() && Plain(job, capacity)
    ensures var (status, scale) := ScaleResult(ar, job, capacity);
            && (status == Ok || (status == ErrNonfinite && !AllFinite(job.values.value))
                || (status == ErrScaleOverflow && AllFinite(job.values.value)))
            && (status == Ok ==>
                && AllFinite(job.values.value)
                && HeaderStatus(job.bits, job.count, scale) == Ok
                && Encoder.EncodeStatus(RequestFor(job, scale), true) == Ok)
  {
    hide Scale.Depth, WordsFor, HeaderStatus, Encoder.EncodeStatus;
    var values := job.values.value;
    if job.count == 0 {
      assert values == [];
      ChecksPass(job, 0);
    } else {
      RescaledStatus(ar, values, capacity);
      assert Scale.Expected(ar, job.values, job.count, capacity) == Scale.ScaleOf(ar, values, capacity);
      if Scale.ScaleOf(ar, values, capacity).0 == Ok {
        ZeroScaleIff(ar, values, capacity);
        ChecksPass(job, Scale.ScaleOf(ar, values, capacity).1);
      }
      hide Scale.ScaleOf;
    }
  }

  lemma ZeroScaleIff(ar: Arith, values: seq<u32>, capacity: Option<nat>)
    requires ar.Valid() && Scale.ScaleOf(ar, values, capacity).0 == Ok
    ensures Scale.ScaleOf(ar, values, capacity).1 < INFINITY
    ensures Scale.ScaleOf(ar, values, capacity).1 == 0 <==> MaxMagnitude(values) == 0
  {
    hide Scale.ScaleOf;
    ScaleBounds.ScaleCoversInput(ar, values, capacity);
    MaxDecides(values);
  }

  lemma RescaledStatus(ar: Arith, values: seq<u32>, capacity: Option<nat>)
    requires values != [] && capacity.Some? && capacity.value >= Pow2(Scale.Depth(|values|))
    ensures var status := Scale.ScaleOf(ar, values, capacity).0;
            status == if !AllFinite(values) then ErrNonfinite
                      else if Scale.ScaleOf(ar, values, capacity).0 == Ok then Ok else ErrScaleOverflow
  {
    MaxDecides(values);
    hide Scale.Total;
  }

  /** What a plain call stores when it succeeds. */
  ghost function FieldsFor(ar: Arith, job: Job, capacity: Option<nat>): Fields
    requires ar.Valid() && Plain(job, capacity) && ScaleResult(ar, job, capacity).0 == Ok
  {
    PlainEncodes(ar, job, capacity);
    var scale := ScaleResult(ar, job, capacity).1;
    Fields(job.bits, job.count, scale, Encoder.CodesFor(ar, RequestFor(job, scale)))
  }

  /**
   A plain call on finite values either overflows the scale or completes a record
   that the decoder accepts, with the count, the scale and every code it stored.
   */
  lemma PipelineRoundTrip(ar: Arith, job: Job, capacity: Option<nat>, before: seq<u8>)
    requires ar.Valid() && Plain(job, capacity) && AllFinite(job.values.value)
    requires |before| == HEADER_SIZE + PayloadSize(job.bits, job.count)
    ensures Compressed(ar, job, capacity, before).0 == Ok || Compressed(ar, job, capacity, before).0 == ErrScaleOverflow
    ensures Compressed(ar, job, capacity, before).0 == Ok ==>
              && ScaleResult(ar, job, capacity).0 == Ok
              && DecodeStatus(Compressed(ar, job, capacity, before).1, true) == Ok
              && FieldsOf(Compressed(ar, job, capacity, before).1) == FieldsFor(ar, job, capacity)
  {
    PlainEncodes(ar, job, capacity);
    var (status, scale) := ScaleResult(ar, job, capacity);
    if status == Ok {
      StoredFields(ar, job, scale, before);
      hide Scale.Expected;
    }
  }

  /** The bytes of a completed call are the record of valid fields. */
  lemma StoredFields(ar: Arith, job: Job, scale: u32, before: seq<u8>)
    requires ar.Valid() && Sized(job) && (job.words.None? ==> FitsCounter(job))
    requires |before| == HEADER_SIZE + PayloadSize(job.bits, job.count)
    requires HeaderStatus(job.bits, job.count, scale) == Ok && Encoder.EncodeStatus(RequestFor(job, scale), true) == Ok
    ensures var f := Fields(job.bits, job.count, scale, Encoder.CodesFor(ar, RequestFor(job, scale)));
            var record := Header(job.bits, job.count, scale)
              + Encoder.After(ar, RequestFor(job, scale), before[HEADER_SIZE..]);
            ValidFields(f) && record == Record(f) && DecodeStatus(record, true) == Ok && FieldsOf(record) == f
  {
    hide WordsUpTo, Header, Pack, Encoder.CodesOf;
    var q := RequestFor(job, scale);
    var f := Fields(job.bits, job.count, scale, Encoder.CodesFor(ar, q));
    assert before[HEADER_SIZE..][PayloadSize(job.bits, job.count)..] == [];
    assert Encoder.After(ar, q, before[HEADER_SIZE..]) == Pack(f.bits, f.codes);
    DecodesRecord(f);
  }

  /** Every record that a call completes, prescribed parts or not, is accepted by the decoder with its codes. */
  lemma CompletedDecodes(ar: Arith, job: Job, capacity: Option<nat>, before: seq<u8>)
    requires ar.Valid() && Sized(job) && |before| == HEADER_SIZE + PayloadSize(job.bits, job.count)
    requires Compressed(ar, job, capacity, before).0 == Ok
    ensures job.words.None? ==> FitsCounter(job)
    ensures var scale, record := ScaleResult(ar, job, capacity).1, Compressed(ar, job, capacity, before).1;
            && Encoder.EncodeStatus(RequestFor(job, scale), true) == Ok
            && DecodeStatus(record, true) == Ok
            && FieldsOf(record) == Fields(job.bits, job.count, scale, Encoder.CodesFor(ar, RequestFor(job, scale)))
  {
    hide ScaleResult, WordsFor, HeaderStatus, Encoder.EncodeStatus;
    StoredFields(ar, job, ScaleResult(ar, job, capacity).1, before);
  }
}
