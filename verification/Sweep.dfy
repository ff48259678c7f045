/** Groups of cases through the gate, warm-up, trials, statistics and claims; and the evidence flag of a sweep. */
module Sweep {
  import opened Words
  import opened Statistics
  import opened Invocations
  import opened Runner
  import opened Design
  import opened Claims
  import BenchReport

  datatype CaseStatus = Passed | Failed

  datatype Phase = GpuWarmup | CalibrationWarmup | Trial

  /** What is kept of one trial process. */
  datatype RunRecord = RunRecord(trial: nat, position: nat, measuredIds: seq<int>, warmupIds: Compact, samples: Samples,
                                 threads: Option<int>)

  function RecordOf(trial: nat, position: nat, r: Response): RunRecord
  {
    var c := if r.configuration.Some? then r.configuration.value else map[];
    RunRecord(trial, position, IdsIn(c, MeasuredField), CompactIds(Some(IdsIn(c, WarmupIdsField))), Numbers(r.samples),
              ThreadsIn(c))
  }

  /** What one process leaves: perhaps an answer, and the message if there is none or it is refused. */
  datatype Outcome = Outcome(answer: Option<Response>, error: string)

  /** The part of a case that warm-up and trials change; `gate` and `gateError` keep the gate's own verdict. */
  datatype Track = Track(status: CaseStatus, error: Option<string>, gate: Option<CaseStatus>, gateError: Option<string>,
                         phase: Option<Phase>, runs: seq<RunRecord>)

  function FailedTrack(t: Track, phase: Phase, error: string): Track
  {
    t.(status := Failed, error := Some(error), phase := Some(phase),
       gate := if t.gate.None? then Some(t.status) else t.gate,
       gateError := if t.gateError.None? then t.error else t.gateError)
  }

  /** What a passing case gains: its runs' common identifiers and threads, all samples, and the statistics. */
  datatype Summary = Summary(measuredIds: seq<int>, warmupIds: Compact, threads: Option<int>, samples: Samples,
                             stats: CaseStats)

  class Case {
    var status: CaseStatus
    var error: Option<string>
    var gate: Option<CaseStatus>
    var gateError: Option<string>
    var phase: Option<Phase>
    var warmup: nat
    var runs: seq<RunRecord>
    var summary: Option<Summary>

    ghost function View(): Track
      reads this
    {
      Track(status, error, gate, gateError, phase, runs)
    }

    /** A new record, with the verdict of the correctness gate. */
    constructor (gateVerdict: Option<string>, warmup: nat)
      ensures View() == NewTrack(gateVerdict)
      ensures this.warmup == warmup && summary == None
    {
      status := if gateVerdict.None? then Passed else Failed;
      error, gate, gateError, phase, runs, summary := gateVerdict, None, None, None, [], None;
      this.warmup := warmup;
    }

    /** Later work failed; the gate's own verdict and message are kept. */
    method FailExecution(phase: Phase, error: string)
      modifies this
      ensures View() == FailedTrack(old(View()), phase, error) && warmup == old(warmup) && summary == old(summary)
    {
      if gate.None? {
        gate := Some(status);
      }
      if this.error.Some? && gateError.None? {
        gateError := this.error;
      }
      status := Failed;
      this.phase := Some(phase);
      this.error := Some(error);
    }

    method AddRun(run: RunRecord)
      modifies this
      ensures View() == old(View()).(runs := old(runs) + [run]) && warmup == old(warmup) && summary == old(summary)
    {
      runs := runs + [run];
    }
  }

  /** The gate's message is there exactly when the gate failed. */
  function NewTrack(gateVerdict: Option<string>): Track
  {
    Track(if gateVerdict.None? then Passed else Failed, gateVerdict, None, None, None, [])
  }

  ghost predicate DistinctCases(cases: seq<Case>)
  {
    forall i, j :: 0 <= i < j < |cases| ==> cases[i] != cases[j]
  }

  ghost function Cells(cases: seq<Case>): set<Case> { set c | c in cases }

  // ---------- trials ----------

  /** Where an order runs a path. */
  function PositionOf(order: Row, p: nat): (k: nat)
    requires p in order
    ensures k < |order| && order[k] == p
  {
    if order[0] == p then 0 else 1 + PositionOf(order[1..], p)
  }

  ghost predicate InOrders(orders: seq<Row>, p: nat)
  {
    forall t :: 0 <= t < |orders| ==> p in orders[t]
  }

  /** A case after its first `n` trials: it stops at the first process that fails. */
  ghost function Progress(orders: seq<Row>, q: Request, p: nat, answer: (nat, nat) -> Outcome,
                          start: Track, n: nat): Track
    requires n <= |orders| && InOrders(orders, p)
  {
    if n == 0 then start
    else
      var before := Progress(orders, q, p, answer, start, n - 1);
      if before.status != Passed then before
      else
        match RunBench(q, answer(n - 1, p).answer)
        case None => FailedTrack(before, Trial, answer(n - 1, p).error)
        case Some(r) => before.(runs := before.runs + [RecordOf(n - 1, PositionOf(orders[n - 1], p), r)])
  }

  /** The identifiers and samples that every kept run of a request has. */
  ghost predicate RunFits(run: RunRecord, q: Request, trial: nat, position: nat)
  {
    && run.trial == trial && run.position == position
    && run.measuredIds == ExpectedMeasured(q.reps, StepOf(BoundaryOf(q)))
    && run.warmupIds == CompactIds(Some(ExpectedWarmups(q.warmups, q.reps, StepOf(BoundaryOf(q)))))
    && |run.samples| == q.reps && forall i :: 0 <= i < |run.samples| ==> run.samples[i] >= 0.0
  }

  lemma RecordFits(q: Request, r: Response, trial: nat, position: nat)
    requires Validated(q, r)
    ensures RunFits(RecordOf(trial, position, r), q, trial, position)
  {
    AcceptedIds(q, r);
    hide CompactIds, ExpectedMeasured, ExpectedWarmups, Echoes, IdsIn, ThreadsIn;
  }

  /**
   The run holds what trial `trial` answered: every sample in its place, and the
   thread count and the identifiers that the answer reports.
   */
  ghost predicate Keeps(run: RunRecord, q: Request, trial: nat, position: nat, answer: Outcome)
  {
    && RunFits(run, q, trial, position)
    && answer.answer.Some? && Validated(q, answer.answer.value)
    && var r := answer.answer.value;
       && (forall i :: 0 <= i < q.reps ==> r.samples.value.values[i] == Finite(run.samples[i]))
       && (run.threads.Some? <==> q.backend == CpuAvx2)
       && (run.threads.Some? ==> r.configuration.value[ThreadsField] == Whole(run.threads.value))
       && r.configuration.value[MeasuredField] == Ids(run.measuredIds)
  }

  lemma RecordKeeps(q: Request, answer: Outcome, trial: nat, position: nat)
    requires answer.answer.Some? && Validated(q, answer.answer.value)
    ensures Keeps(RecordOf(trial, position, answer.answer.value), q, trial, position, answer)
  {
    var r := answer.answer.value;
    RecordFits(q, r, trial, position);
    assert EchoFits(q, r.configuration.value, MeasuredField);
    if q.backend == CpuAvx2 {
      assert EchoFits(q, r.configuration.value, ThreadsField);
    }
    hide RunFits, CompactIds, ExpectedMeasured, ExpectedWarmups;
  }

  lemma ProgressStep(orders: seq<Row>, q: Request, p: nat, answer: (nat, nat) -> Outcome, start: Track, n: nat)
    requires n < |orders| && InOrders(orders, p)
    ensures var before := Progress(orders, q, p, answer, start, n);
            var now := Progress(orders, q, p, answer, start, n + 1);
            var result := RunBench(q, answer(n, p).answer);
            if before.status == Passed && result.Some? then
              now.status == Passed && now.runs == before.runs + [RecordOf(n, PositionOf(orders[n], p), result.value)]
            else
              now.status != Passed && now.runs == before.runs
  {
    hide RunBench, RecordOf, PositionOf;
  }

  /**
   A case that is still passing has one run per trial so far, in trial order, each
   with the samples that its process answered and the identifiers that its request
   demands; a case that fails stays failed.
   */
  lemma {:induction false} ProgressKept(orders: seq<Row>, q: Request, p: nat, answer: (nat, nat) -> Outcome,
                                        start: Track, n: nat)
    requires n <= |orders| && InOrders(orders, p) && start.runs == []
    ensures var now := Progress(orders, q, p, answer, start, n);
            && (now.status == Passed ==> start.status == Passed && |now.runs| == n)
            && forall t :: 0 <= t < |now.runs| ==>
                 t < n && Keeps(now.runs[t], q, t, PositionOf(orders[t], p), answer(t, p))
    decreases n
  {
    hide Keeps, RecordOf, Validated, PositionOf;
    if n != 0 {
      ProgressKept(orders, q, p, answer, start, n - 1);
      ProgressStep(orders, q, p, answer, start, n - 1);
      hide Progress;
      var before, now := Progress(orders, q, p, answer, start, n - 1), Progress(orders, q, p, answer, start, n);
      var result := RunBench(q, answer(n - 1, p).answer);
      if before.status == Passed && result.Some? {
        RecordKeeps(q, answer(n - 1, p), n - 1, PositionOf(orders[n - 1], p));
      }
      forall t | 0 <= t < |now.runs|
        ensures t < n && Keeps(now.runs[t], q, t, PositionOf(orders[t], p), answer(t, p))
      {
        if t < |before.runs| {
          assert now.runs[t] == before.runs[t];
        }
      }
    }
  }

  ghost predicate Accepts(q: Request, o: Outcome) { o.answer.Some? && Validated(q, o.answer.value) }

  /** A case is passing after its first trials exactly when it was before and every answer is accepted. */
  lemma {:induction false} ProgressPasses(orders: seq<Row>, q: Request, p: nat, answer: (nat, nat) -> Outcome,
                                          start: Track, n: nat)
    requires n <= |orders| && InOrders(orders, p)
    ensures Progress(orders, q, p, answer, start, n).status == Passed
            <==> start.status == Passed && forall t :: 0 <= t < n ==> Accepts(q, answer(t, p))
    decreases n
  {
    hide Validated, PositionOf, RecordOf;
    if n != 0 {
      ProgressPasses(orders, q, p, answer, start, n - 1);
      ProgressStep(orders, q, p, answer, start, n - 1);
      hide Progress;
      assert RunBench(q, answer(n - 1, p).answer).Some? <==> Accepts(q, answer(n - 1, p));
    }
  }

  /** The first answer that is refused stops the case: it keeps that message, the phase and the gate's own verdict. */
  lemma {:induction false} FirstRefusal(orders: seq<Row>, q: Request, p: nat, answer: (nat, nat) -> Outcome,
                                        start: Track, n: nat, t: nat)
    requires t < n <= |orders| && InOrders(orders, p) && start.status == Passed && start.runs == []
    requires !Accepts(q, answer(t, p)) && forall u :: 0 <= u < t ==> Accepts(q, answer(u, p))
    ensures var now := Progress(orders, q, p, answer, start, n);
            && now.status == Failed && now.error == Some(answer(t, p).error) && now.phase == Some(Trial)
            && now.gate == Some(if start.gate.Some? then start.gate.value else Passed) && |now.runs| == t
    decreases n
  {
    hide Validated, PositionOf, RecordOf;
    if n > t + 1 {
      FirstRefusal(orders, q, p, answer, start, n - 1, t);
    } else {
      ProgressPasses(orders, q, p, answer, start, t);
      ProgressKept(orders, q, p, answer, start, t);
      GateKept(orders, q, p, answer, start, t);
    }
  }

  /** A case that is passing still has the gate's verdict that it started with. */
  lemma {:induction false} GateKept(orders: seq<Row>, q: Request, p: nat, answer: (nat, nat) -> Outcome,
                                    start: Track, n: nat)
    requires n <= |orders| && InOrders(orders, p)
    ensures var now := Progress(orders, q, p, answer, start, n);
            now.status == Passed ==> now.gate == start.gate && now.error == start.error
    decreases n
  {
    hide Validated, PositionOf, RecordOf;
    if n != 0 {
      GateKept(orders, q, p, answer, start, n - 1);
    }
  }

  /** Trials done for path `p` when trial `t` has reached position `k`. */
  ghost function DoneTrials(order: Row, t: nat, k: nat, p: nat): (d: nat)
    requires k <= |order|
    ensures d <= t + 1
  {
    t + if p in order[..k] then 1 else 0
  }

  ghost predicate Orders(orders: seq<Row>, n: nat)
  {
    forall t :: 0 <= t < |orders| ==> Permutes(orders[t], n)
  }

  lemma InEveryOrder(orders: seq<Row>, n: nat, p: nat)
    requires Orders(orders, n) && p < n
    ensures InOrders(orders, p)
  {
    forall t | 0 <= t < |orders|
      ensures p in orders[t]
    {
      assert Permutes(orders[t], n);
    }
  }

  /** The request of a trial uses the case's own warm-up count. */
  function TrialRequest(q: Request, warmup: nat): Request { q.(warmups := warmup) }

  /** Every trial runs every path once, in its order; failed cases are skipped. */
  method RunTrials(cases: seq<Case>, requests: seq<Request>, orders: seq<Row>, answer: (nat, nat) -> Outcome)
    requires DistinctCases(cases) && |requests| == |cases| && Orders(orders, |cases|)
    requires forall p :: 0 <= p < |cases| ==> InOrders(orders, p)
    modifies Cells(cases)
    ensures forall p :: 0 <= p < |cases| ==>
              && cases[p].View()
                 == Progress(orders, TrialRequest(requests[p], old(cases[p].warmup)), p, answer,
                             old(cases[p].View()), |orders|)
              && cases[p].warmup == old(cases[p].warmup) && cases[p].summary == old(cases[p].summary)
  {
    hide Progress, Permutes, PositionOf;
    ghost var starts := seq(|cases|, p requires 0 <= p < |cases| reads Cells(cases) => cases[p].View());
    ghost var warm := seq(|cases|, p requires 0 <= p < |cases| reads Cells(cases) =>
      TrialRequest(requests[p], cases[p].warmup));
    StartOfProgress(orders, warm, answer, starts);
    for t := 0 to |orders|
      invariant forall p :: 0 <= p < |cases| ==> cases[p].View() == Progress(orders, warm[p], p, answer, starts[p], t)
      invariant forall p :: 0 <= p < |cases| ==>
                  cases[p].warmup == old(cases[p].warmup) && cases[p].summary == old(cases[p].summary)
    {
      RunOneTrial(cases, requests, orders, answer, t, starts, warm);
    }
  }

  lemma StartOfProgress(orders: seq<Row>, requests: seq<Request>, answer: (nat, nat) -> Outcome, starts: seq<Track>)
    requires |starts| == |requests|
    requires forall p :: 0 <= p < |starts| ==> InOrders(orders, p)
    ensures forall p :: 0 <= p < |starts| ==> Progress(orders, requests[p], p, answer, starts[p], 0) == starts[p]
  {
  }

  method RunOneTrial(cases: seq<Case>, requests: seq<Request>, orders: seq<Row>, answer: (nat, nat) -> Outcome,
                     t: nat, ghost starts: seq<Track>, ghost warm: seq<Request>)
    requires DistinctCases(cases) && |requests| == |cases| == |starts| == |warm| && Orders(orders, |cases|)
             && t < |orders|
    requires forall p :: 0 <= p < |cases| ==> InOrders(orders, p)
    requires forall p :: 0 <= p < |cases| ==> warm[p] == TrialRequest(requests[p], cases[p].warmup)
    requires forall p :: 0 <= p < |cases| ==> cases[p].View() == Progress(orders, warm[p], p, answer, starts[p], t)
    modifies Cells(cases)
    ensures forall p :: 0 <= p < |cases| ==> cases[p].View() == Progress(orders, warm[p], p, answer, starts[p], t + 1)
    ensures forall p :: 0 <= p < |cases| ==>
              cases[p].warmup == old(cases[p].warmup) && cases[p].summary == old(cases[p].summary)
  {
    hide Progress, PositionOf, DoneTrials, InOrders;
    var order := orders[t];
    assert Permutes(order, |cases|);
    DoneEnds(order, t);
    for k := 0 to |order|
      invariant forall p :: 0 <= p < |cases| ==>
                  cases[p].View() == Progress(orders, warm[p], p, answer, starts[p], DoneTrials(order, t, k, p))
      invariant forall p :: 0 <= p < |cases| ==>
                  cases[p].warmup == old(cases[p].warmup) && cases[p].summary == old(cases[p].summary)
    {
      var p := order[k];
      DoneStep(order, |cases|, t, k);
      label before:
      RunOneCase(cases[p], requests[p], orders, answer, t, k, p, starts[p]);
      forall i | 0 <= i < |cases|
        ensures i != p ==> cases[i].View() == old@before(cases[i].View())
        ensures i != p ==>
                  cases[i].warmup == old@before(cases[i].warmup) && cases[i].summary == old@before(cases[i].summary)
      {
        assert i != p ==> cases[i] != cases[p];
      }
    }
  }

  lemma DoneEnds(order: Row, t: nat)
    ensures forall p: nat :: DoneTrials(order, t, 0, p) == t
    ensures forall p: nat :: p in order ==> DoneTrials(order, t, |order|, p) == t + 1
  {
    assert order[..|order|] == order;
  }

  lemma DoneStep(order: Row, n: nat, t: nat, k: nat)
    requires Permutes(order, n) && k < n
    ensures DoneTrials(order, t, k, order[k]) == t && DoneTrials(order, t, k + 1, order[k]) == t + 1
    ensures forall p: nat :: p != order[k] ==> DoneTrials(order, t, k + 1, p) == DoneTrials(order, t, k, p)
  {
    assert order[..k + 1] == order[..k] + [order[k]];
    assert order[k] !in order[..k];
  }

  lemma PositionUnique(order: Row, n: nat, k: nat)
    requires Permutes(order, n) && k < n
    ensures order[k] in order && PositionOf(order, order[k]) == k
  {
  }

  method RunOneCase(c: Case, q: Request, orders: seq<Row>, answer: (nat, nat) -> Outcome, t: nat, k: nat, p: nat,
                    ghost start: Track)
    requires t < |orders| && Permutes(orders[t], |orders[t]|) && k < |orders[t]| && orders[t][k] == p
    requires InOrders(orders, p)
    requires c.View() == Progress(orders, TrialRequest(q, c.warmup), p, answer, start, t)
    modifies c
    ensures c.View() == Progress(orders, TrialRequest(q, c.warmup), p, answer, start, t + 1)
    ensures c.warmup == old(c.warmup) && c.summary == old(c.summary)
  {
    hide Validated, PositionOf, RecordOf;
    PositionUnique(orders[t], |orders[t]|, k);
    if c.status != Passed {
      return;
    }
    var result := RunBenchProcess(TrialRequest(q, c.warmup), answer(t, p).answer);
    if result.None? {
      c.FailExecution(Trial, answer(t, p).error);
      return;
    }
    c.AddRun(RecordOf(t, k, result.value));
  }

  // ---------- warm-up ----------

  /** What a calibration does to one case: a failure, or a warm-up count from the probe's median. */
  ghost function Calibrated(before: Track, warmup: nat, q: Request, seconds: real, answer: Outcome): (Track, nat)
    requires q.reps > 0
  {
    match RunBench(q, answer.answer)
    case None => (FailedTrack(before, CalibrationWarmup, answer.error), warmup)
    case Some(r) => (before, InProcessWarmups(q.warmups, seconds, Median(Numbers(r.samples))))
  }

  /** `m` repetitions of `repMs` milliseconds fill the target time. */
  predicate Covers(m: nat, seconds: real, repMs: real) { m as real * repMs >= seconds * 1000.0 }

  /**
   The warm-up count of a case that passed its calibration: the configured one when
   there is no target time or no measurable probe, otherwise the least one above it
   that covers the target at the probe's median.
   */
  ghost predicate WarmedUp(q: Request, seconds: real, probe: Outcome, w: nat)
  {
    if seconds <= 0.0 then w == q.warmups
    else
      && Accepts(q, probe) && Numbers(probe.answer.value.samples) != []
      && var ms := Median(Numbers(probe.answer.value.samples));
         && w >= q.warmups && (ms <= 0.0 ==> w == q.warmups)
         && (ms > 0.0 ==> forall m: nat :: m >= q.warmups ==> (Covers(m, seconds, ms) <==> m >= w))
  }

  lemma CalibratedCovers(before: Track, warmup: nat, q: Request, seconds: real, probe: Outcome)
    requires q.reps > 0 && before.status == Passed && seconds > 0.0
    ensures var (now, w) := Calibrated(before, warmup, q, seconds, probe);
            && (now.status == Passed <==> Accepts(q, probe))
            && (now.status == Passed ==> now == before && WarmedUp(q, seconds, probe, w))
  {
    hide Median, InProcessWarmups;
    if Accepts(q, probe) {
      EnoughSamples(q, probe.answer.value);
      hide Validated;
      var ms := Median(Numbers(probe.answer.value.samples));
      if ms > 0.0 {
        forall m: nat | m >= q.warmups
          ensures Covers(m, seconds, ms) <==> m >= InProcessWarmups(q.warmups, seconds, ms)
        {
          WarmupsCover(q.warmups, seconds, ms, m);
        }
      } else {
        NoProbe(q.warmups, seconds, ms);
      }
    }
  }

  lemma NoProbe(minimum: nat, seconds: real, ms: real)
    requires ms <= 0.0
    ensures InProcessWarmups(minimum, seconds, ms) == minimum
  {
  }

  /**
   GPU warm-up for the group, then one untimed probe per path. `gpuError` is the
   message of a GPU warm-up that fails.
   */
  method WarmUpCases(cases: seq<Case>, requests: seq<Request>, warmGpu: bool, gpuError: Option<string>, seconds: real,
                     answer: nat -> Outcome)
    requires DistinctCases(cases) && |requests| == |cases| && forall p :: 0 <= p < |cases| ==> requests[p].reps > 0
    modifies Cells(cases)
    ensures forall p :: 0 <= p < |cases| ==> cases[p].summary == old(cases[p].summary)
    ensures forall p :: 0 <= p < |cases| ==>
              (cases[p].View(), cases[p].warmup) ==
                if warmGpu && gpuError.Some? then
                  (FailedTrack(old(cases[p].View()), GpuWarmup, gpuError.value), old(cases[p].warmup))
                else if seconds <= 0.0 then (old(cases[p].View()), old(cases[p].warmup))
                else Calibrated(old(cases[p].View()), old(cases[p].warmup), requests[p], seconds, answer(p))
  {
    hide Validated, InProcessWarmups, Median;
    if warmGpu && gpuError.Some? {
      for p := 0 to |cases|
        invariant forall i :: 0 <= i < |cases| ==>
                    cases[i].summary == old(cases[i].summary) && cases[i].warmup == old(cases[i].warmup)
        invariant forall i :: 0 <= i < p ==>
                    cases[i].View() == FailedTrack(old(cases[i].View()), GpuWarmup, gpuError.value)
        invariant forall i :: p <= i < |cases| ==> cases[i].View() == old(cases[i].View())
      {
        cases[p].FailExecution(GpuWarmup, gpuError.value);
      }
      return;
    }
    if seconds > 0.0 {
      for p := 0 to |cases|
        invariant forall i :: 0 <= i < |cases| ==> cases[i].summary == old(cases[i].summary)
        invariant forall i :: 0 <= i < p ==>
                    (cases[i].View(), cases[i].warmup)
                    == Calibrated(old(cases[i].View()), old(cases[i].warmup), requests[i], seconds, answer(i))
        invariant forall i :: p <= i < |cases| ==>
                    cases[i].View() == old(cases[i].View()) && cases[i].warmup == old(cases[i].warmup)
      {
        Calibrate(cases[p], requests[p], seconds, answer(p));
      }
    }
  }

  method Calibrate(c: Case, q: Request, seconds: real, answer: Outcome)
    requires q.reps > 0
    modifies c
    ensures (c.View(), c.warmup) == Calibrated(old(c.View()), old(c.warmup), q, seconds, answer)
    ensures c.summary == old(c.summary)
  {
    hide Validated, InProcessWarmups, Median;
    var result := RunBenchProcess(q, answer.answer);
    if result.None? {
      c.FailExecution(CalibrationWarmup, answer.error);
      return;
    }
    EnoughSamples(q, result.value);
    c.warmup := InProcessWarmups(q.warmups, seconds, Median(Numbers(result.value.samples)));
  }

  lemma EnoughSamples(q: Request, r: Response)
    requires Validated(q, r) && q.reps > 0
    ensures Numbers(r.samples) != []
  {
  }

  // ---------- group statistics ----------

  datatype GroupResult = GroupOk | NoRuns | DifferentIds | DifferentThreads

  ghost predicate SameIds(runs: seq<RunRecord>)
  {
    forall i :: 0 <= i < |runs| ==> runs[i].measuredIds == runs[0].measuredIds && runs[i].warmupIds == runs[0].warmupIds
  }

  ghost predicate SameThreads(runs: seq<RunRecord>)
  {
    |runs| > 0 && runs[0].threads.Some? ==> forall i :: 0 <= i < |runs| ==> runs[i].threads == runs[0].threads
  }

  /** What the statistics step makes of one case. */
  ghost function RunsVerdict(t: Track): GroupResult
  {
    if t.status != Passed then GroupOk
    else if t.runs == [] then NoRuns
    else if !SameIds(t.runs) then DifferentIds
    else if !SameThreads(t.runs) then DifferentThreads
    else GroupOk
  }

  function SamplesOf(runs: seq<RunRecord>): (s: seq<Samples>)
    ensures |s| == |runs| && forall i :: 0 <= i < |s| ==> s[i] == runs[i].samples
  {
    seq(|runs|, i requires 0 <= i < |runs| => runs[i].samples)
  }

  ghost predicate Sampled(t: Track)
  {
    NonEmpty(SamplesOf(t.runs))
  }

  /** A failed case loses its runs; a passed one gains statistics over all of them. */
  ghost predicate Summarised(c: Case, before: Track)
    reads c
  {
    if before.status != Passed then c.View() == before.(runs := []) && c.summary == None
    else
      && c.View() == before && before.runs != [] && Sampled(before)
      && c.summary == Some(SummaryOf(before.runs))
  }

  lemma StatusKept(c: Case, before: Track)
    requires Summarised(c, before)
    ensures c.status == before.status
  {
  }

  ghost function SummaryOf(runs: seq<RunRecord>): Summary
    requires runs != [] && NonEmpty(SamplesOf(runs))
  {
    Summary(runs[0].measuredIds, runs[0].warmupIds, runs[0].threads,
            Pooled(SamplesOf(runs)), CaseStatistics(SamplesOf(runs)))
  }

  method CheckRuns(runs: seq<RunRecord>) returns (r: GroupResult)
    requires runs != []
    ensures r == if !SameIds(runs) then DifferentIds else if !SameThreads(runs) then DifferentThreads else GroupOk
  {
    var first := runs[0];
    for i := 1 to |runs|
      invariant forall j :: 0 <= j < i ==>
                  runs[j].measuredIds == first.measuredIds && runs[j].warmupIds == first.warmupIds
    {
      if runs[i].measuredIds != first.measuredIds || runs[i].warmupIds != first.warmupIds {
        assert !SameIds(runs);
        return DifferentIds;
      }
    }
    if first.threads.Some? {
      for i := 0 to |runs|
        invariant forall j :: 0 <= j < i ==> runs[j].threads == first.threads
      {
        if runs[i].threads != first.threads {
          return DifferentThreads;
        }
      }
    }
    r := GroupOk;
  }

  /** Statistics of one case, or the error that ends the sweep. */
  method Summarise(c: Case) returns (r: GroupResult)
    requires c.summary == None && Sampled(c.View())
    modifies c
    ensures r == RunsVerdict(old(c.View())) && c.warmup == old(c.warmup)
    ensures r == GroupOk ==> Summarised(c, old(c.View()))
  {
    hide CaseStatistics, SameIds, SameThreads;
    if c.status != Passed {
      c.runs := [];
      return GroupOk;
    }
    if c.runs == [] {
      return NoRuns;
    }
    r := CheckRuns(c.runs);
    if r == GroupOk {
      var first := c.runs[0];
      c.summary := Some(Summary(first.measuredIds, first.warmupIds, first.threads, Pooled(SamplesOf(c.runs)),
                                CaseStatistics(SamplesOf(c.runs))));
    }
  }

  /** All cases in turn; the first problem ends the loop. */
  method SummariseCases(cases: seq<Case>) returns (r: GroupResult)
    requires DistinctCases(cases)
    requires forall p :: 0 <= p < |cases| ==> cases[p].summary == None && Sampled(cases[p].View())
    modifies Cells(cases)
    ensures r == GroupOk <==> forall p :: 0 <= p < |cases| ==> RunsVerdict(old(cases[p].View())) == GroupOk
    ensures r != GroupOk ==> exists p :: 0 <= p < |cases| && r == RunsVerdict(old(cases[p].View()))
    ensures r == GroupOk ==> forall p :: 0 <= p < |cases| ==> Summarised(cases[p], old(cases[p].View()))
    ensures forall p :: 0 <= p < |cases| ==> cases[p].warmup == old(cases[p].warmup)
  {
    hide Summarised, RunsVerdict, Sampled;
    for p := 0 to |cases|
      invariant forall i :: 0 <= i < |cases| ==> cases[i].warmup == old(cases[i].warmup)
      invariant forall i :: 0 <= i < p ==>
                  RunsVerdict(old(cases[i].View())) == GroupOk && Summarised(cases[i], old(cases[i].View()))
      invariant forall i :: p <= i < |cases| ==>
                  cases[i].View() == old(cases[i].View()) && cases[i].summary == None && Sampled(cases[i].View())
    {
      r := Summarise(cases[p]);
      if r != GroupOk {
        return;
      }
    }
    r := GroupOk;
  }

  // ---------- what a finished group looks like ----------

  /** Accepted processes make every passing case summarisable, except for differing thread counts. */
  lemma ProgressVerdict(orders: seq<Row>, q: Request, p: nat, answer: (nat, nat) -> Outcome, start: Track)
    requires InOrders(orders, p) && start.runs == [] && q.reps > 0 && orders != []
    ensures var now := Progress(orders, q, p, answer, start, |orders|);
            && Sampled(now)
            && (RunsVerdict(now) == GroupOk || RunsVerdict(now) == DifferentThreads)
            && (!OpenThreads(q) ==> RunsVerdict(now) == GroupOk)
  {
    hide Progress, PositionOf;
    ProgressKept(orders, q, p, answer, start, |orders|);
    ProgressThreads(orders, q, p, answer, start, |orders|);
    var now := Progress(orders, q, p, answer, start, |orders|);
    forall t | 0 <= t < |now.runs|
      ensures SamplesOf(now.runs)[t] != []
    {
      assert Keeps(now.runs[t], q, t, PositionOf(orders[t], p), answer(t, p));
    }
    forall t | 0 <= t < |now.runs|
      ensures now.runs[t].measuredIds == now.runs[0].measuredIds && now.runs[t].warmupIds == now.runs[0].warmupIds
    {
      assert Keeps(now.runs[t], q, t, PositionOf(orders[t], p), answer(t, p));
      assert Keeps(now.runs[0], q, 0, PositionOf(orders[0], p), answer(0, p));
    }
  }

  ghost predicate FixedThreads(runs: seq<RunRecord>, q: Request)
  {
    forall t :: 0 <= t < |runs| ==> runs[t].threads == if q.backend != CpuAvx2 then None else q.threads
  }

  lemma {:induction false} ProgressThreads(orders: seq<Row>, q: Request, p: nat, answer: (nat, nat) -> Outcome,
                                           start: Track, n: nat)
    requires n <= |orders| && InOrders(orders, p) && start.runs == []
    ensures !OpenThreads(q) ==> FixedThreads(Progress(orders, q, p, answer, start, n).runs, q)
    decreases n
  {
    hide PositionOf, Validated, RecordOf;
    if n != 0 && (!OpenThreads(q)) {
      ProgressThreads(orders, q, p, answer, start, n - 1);
      var result := RunBench(q, answer(n - 1, p).answer);
      if result.Some? {
        ThreadsFixed(q, result.value, n - 1, PositionOf(orders[n - 1], p));
      }
    }
  }

  /** The answers of one team size per trial. */
  ghost function GrowingTeams(q: Request): (nat, nat) -> Outcome
    requires Answerable(q)
  {
    (t: nat, p: nat) => Outcome(Some(PlainAnswer(q, t + 1)), "")
  }

  lemma {:induction false} TeamsGrow(orders: seq<Row>, q: Request, p: nat, start: Track, n: nat)
    requires n <= |orders| && InOrders(orders, p) && start.runs == [] && start.status == Passed
    requires Answerable(q) && OpenThreads(q)
    ensures var now := Progress(orders, q, p, GrowingTeams(q), start, n);
            now.status == Passed && |now.runs| == n && Growing(now.runs)
    decreases n
  {
    hide PositionOf, Validated, PlainAnswer;
    if n != 0 {
      TeamsGrow(orders, q, p, start, n - 1);
      PlainAnswerFits(q, n);
      var k := PositionOf(orders[n - 1], p);
      assert RecordOf(n - 1, k, PlainAnswer(q, n)).threads == Some(n);
      hide RecordOf;
    }
  }

  ghost predicate Growing(runs: seq<RunRecord>)
  {
    forall t :: 0 <= t < |runs| ==> runs[t].threads == Some(t + 1)
  }

  /** Without an answer to accept, the first trial fails the case. */
  lemma PassingIsAnswered(orders: seq<Row>, q: Request, p: nat, answer: (nat, nat) -> Outcome, start: Track, n: nat)
    requires 0 < n <= |orders| && InOrders(orders, p) && Progress(orders, q, p, answer, start, n).status == Passed
    ensures Answerable(q)
  {
    hide Answerable, PositionOf, Validated;
    var result := RunBench(q, answer(n - 1, p).answer);
    assert result.Some?;
    AnswerableIff(q);
  }

  /**
   Exactly when the statistics step can raise on a case: it passed so far, its
   request leaves the thread count open and can be answered, and it has two trials.
   */
  lemma DisagreementIff(orders: seq<Row>, q: Request, p: nat, start: Track)
    requires InOrders(orders, p) && start.runs == [] && q.reps > 0 && orders != []
    ensures (exists answer: (nat, nat) -> Outcome :: Raises(orders, q, p, answer, start))
            <==> start.status == Passed && OpenThreads(q) && Answerable(q) && |orders| >= 2
  {
    hide Progress, RunsVerdict, Answerable;
    if start.status == Passed && OpenThreads(q) && Answerable(q) && |orders| >= 2 {
      TeamsDiffer(orders, q, p, start);
    } else {
      forall answer: (nat, nat) -> Outcome
        ensures !Raises(orders, q, p, answer, start)
      {
        NeverRaises(orders, q, p, answer, start);
      }
    }
  }

  ghost predicate Raises(orders: seq<Row>, q: Request, p: nat, answer: (nat, nat) -> Outcome, start: Track)
    requires InOrders(orders, p)
  {
    RunsVerdict(Progress(orders, q, p, answer, start, |orders|)) != GroupOk
  }

  lemma TeamsDiffer(orders: seq<Row>, q: Request, p: nat, start: Track)
    requires InOrders(orders, p) && start.runs == [] && start.status == Passed && |orders| >= 2
    requires OpenThreads(q) && Answerable(q)
    ensures Raises(orders, q, p, GrowingTeams(q), start)
  {
    TeamsGrow(orders, q, p, start, |orders|);
    hide Progress, GrowingTeams, SameIds;
    var now := Progress(orders, q, p, GrowingTeams(q), start, |orders|);
    assert now.runs[0].threads != now.runs[1].threads;
  }

  lemma NeverRaises(orders: seq<Row>, q: Request, p: nat, answer: (nat, nat) -> Outcome, start: Track)
    requires InOrders(orders, p) && start.runs == [] && q.reps > 0 && orders != []
    requires !(start.status == Passed && OpenThreads(q) && Answerable(q) && |orders| >= 2)
    ensures !Raises(orders, q, p, answer, start)
  {
    var now := Progress(orders, q, p, answer, start, |orders|);
    ProgressVerdict(orders, q, p, answer, start);
    ProgressKept(orders, q, p, answer, start, |orders|);
    if now.status == Passed {
      PassingIsAnswered(orders, q, p, answer, start, |orders|);
    }
    hide Progress, Answerable, Keeps, Sampled;
  }

  lemma ThreadsFixed(q: Request, r: Response, trial: nat, position: nat)
    requires Validated(q, r) && (!OpenThreads(q))
    ensures RecordOf(trial, position, r).threads == if q.backend != CpuAvx2 then None else q.threads
  {
    AcceptedIds(q, r);
    hide ExpectedMeasured, ExpectedWarmups, CompactIds, Numbers, Echoes, IdsIn, ThreadsIn;
  }

  /** A finished case: one run per trial with the samples of its answer, in trial order, and statistics; or neither. */
  ghost predicate Finished(c: Case, q: Request, orders: seq<Row>, p: nat, answer: (nat, nat) -> Outcome)
    requires InOrders(orders, p)
    reads c
  {
    if c.status == Passed then
      && |c.runs| == |orders| && c.runs != [] && Sampled(c.View()) && c.summary == Some(SummaryOf(c.runs))
      && forall t :: 0 <= t < |orders| ==>
           Keeps(c.runs[t], TrialRequest(q, c.warmup), t, PositionOf(orders[t], p), answer(t, p))
    else c.runs == [] && c.summary == None
  }

  lemma SummarisedFinished(c: Case, q: Request, orders: seq<Row>, p: nat, answer: (nat, nat) -> Outcome, start: Track)
    requires InOrders(orders, p) && start.runs == []
    requires Summarised(c, Progress(orders, TrialRequest(q, c.warmup), p, answer, start, |orders|))
    ensures Finished(c, q, orders, p, answer)
  {
    hide Progress, PositionOf, Keeps, CaseStatistics, Sampled;
    ProgressKept(orders, TrialRequest(q, c.warmup), p, answer, start, |orders|);
  }

  /**
   What a published case holds: every number that its trials answered, trial after
   trial; the median of them all; and the median of each trial.
   */
  lemma FinishedNumbers(c: Case, q: Request, orders: seq<Row>, p: nat, answer: (nat, nat) -> Outcome, t: nat, i: nat)
    requires InOrders(orders, p) && Finished(c, q, orders, p, answer) && c.status == Passed
    requires t < |orders| && i < q.reps
    ensures c.summary.Some? && NonEmpty(SamplesOf(c.runs))
    ensures var s, r := c.summary.value, answer(t, p).answer;
            && |s.samples| == |orders| * q.reps && PoolPlace(t, q.reps, i) < |orders| * q.reps
            && r.Some? && Validated(TrialRequest(q, c.warmup), r.value)
            && r.value.samples.value.values[i] == Finite(s.samples[PoolPlace(t, q.reps, i)])
            && s.samples != [] && s.stats.median == Median(s.samples)
            && |s.stats.medians| == |orders| && Numbers(r.value.samples) != []
            && s.stats.medians[t] == Median(Numbers(r.value.samples))
  {
    hide Median, Percentile, PositionOf, InOrders;
    forall u | 0 <= u < |orders|
      ensures |SamplesOf(c.runs)[u]| == q.reps
    {
      assert Keeps(c.runs[u], TrialRequest(q, c.warmup), u, PositionOf(orders[u], p), answer(u, p));
    }
    CaseNumbers(SamplesOf(c.runs));
    PooledAt(SamplesOf(c.runs), q.reps, t, i);
    KeptNumbers(c.runs[t], TrialRequest(q, c.warmup), t, PositionOf(orders[t], p), answer(t, p));
    hide Pooled, PoolPlace, CaseStatistics, Validated;
    assert SamplesOf(c.runs)[t] == c.runs[t].samples;
  }

  /** A kept run has exactly the numbers of its answer. */
  lemma KeptNumbers(run: RunRecord, q: Request, t: nat, position: nat, answer: Outcome)
    requires Keeps(run, q, t, position, answer)
    ensures run.samples == Numbers(answer.answer.value.samples)
  {
    var r := answer.answer.value;
    assert |run.samples| == q.reps == |r.samples.value.values|;
    forall i | 0 <= i < q.reps
      ensures run.samples[i] == Numbers(r.samples)[i]
    {
      assert r.samples.value.values[i] == Finite(run.samples[i]);
    }
  }

  // ---------- requests and the life of a group ----------

  /** What all processes of one group share. */
  datatype Settings = Settings(bits: int, count: int, seed: int, warmups: nat, reps: nat, k1: Variant)

  function BackendOf(path: Path): Backend { if path == Avx2 then CpuAvx2 else if path.IsCuda() then Cuda else Cpu }

  /** The boundary option that a path passes; host boundaries pass none. */
  function BoundaryArgument(path: Path): Option<Boundary>
  {
    match path
    case Comparator => None
    case Avx2 => None
    case Resident => Some(ResidentBoundary)
    case ResidentGraph => Some(ResidentGraphBoundary)
    case HostOrigin(_) => Some(HostOriginBoundary)
    case CpuGpuOrigin(_) => Some(GpuOriginBoundary)
    case CudaGpuOrigin(_) => Some(GpuOriginBoundary)
  }

  function RequestOf(path: Path, s: Settings): Request
  {
    Request(BackendOf(path), BoundaryArgument(path), if path.IsPinned() then Some(Pinned) else None,
            s.bits, s.count, s.seed,
            s.warmups, s.reps, s.k1, None, None, None)
  }

  /**
   Every path asks for something that can be answered and that the native program
   resolves to the same boundary; only the AVX2 path leaves the thread count open.
   */
  lemma PathsAgree(path: Path, s: Settings)
    ensures Answerable(RequestOf(path, s)) && BenchReport.SameBoundary(RequestOf(path, s))
    ensures BenchReport.Resolved(RequestOf(path, s)).Some?
    ensures BenchReport.PolicyParses(RequestOf(path, s), BenchReport.Resolved(RequestOf(path, s)).value)
    ensures OpenThreads(RequestOf(path, s)) <==> path == Avx2
  {
  }

  /** What a path asks for: its back end, boundary and policy, and the group's settings as they are. */
  lemma PathsAsk(path: Path, s: Settings)
    ensures var q := RequestOf(path, s);
            && (q.backend == Cuda <==> path.IsCuda()) && (q.backend == CpuAvx2 <==> path == Avx2)
            && (BoundaryOf(q) == HostOriginBoundary <==> path.HostOrigin?)
            && (BoundaryOf(q) == GpuOriginBoundary <==> path.CpuGpuOrigin? || path.CudaGpuOrigin?)
            && (BoundaryOf(q) == ResidentBoundary <==> path == Resident)
            && (BoundaryOf(q) == ResidentGraphBoundary <==> path == ResidentGraph)
            && (PolicyOf(q) == Pinned <==> path.IsPinned())
            && (PolicyOf(q) == NoTransfer <==> !(path.HostOrigin? || path.CpuGpuOrigin? || path.CudaGpuOrigin?))
            && q.bits == s.bits && q.count == s.count && q.seed == s.seed && q.k1 == s.k1
            && q.warmups == s.warmups && q.reps == s.reps
            && q.block.None? && q.grid.None? && q.threads.None?
  {
  }

  /** The stages that the driver expects to be timed on a path. */
  function StagesOf(path: Path, s: Settings): seq<Stage>
  {
    var q := RequestOf(path, s);
    if RequiredStages(q.backend, BoundaryOf(q)).Some? then RequiredStages(q.backend, BoundaryOf(q)).value else []
  }

  /** Every stage of `inner` is one of `outer`, which has more. */
  ghost predicate FewerStages(inner: Path, outer: Path, s: Settings)
  {
    && (forall stage :: stage in StagesOf(inner, s) ==> stage in StagesOf(outer, s))
    && exists stage :: stage in StagesOf(outer, s) && stage !in StagesOf(inner, s)
  }

  /**
   A path that is counted as part of another runs on the same back end and is timed
   on some but not all of its stages; on CUDA every path with timed stages of its
   own and the same memory that is timed on fewer of them is counted.
   */
  lemma NestedWork(outer: Path, inner: Path, s: Settings)
    ensures inner in outer.Nested() ==> BackendOf(inner) == BackendOf(outer) && FewerStages(inner, outer, s)
    ensures (&& outer.IsCuda() && inner.IsCuda() && StagesOf(inner, s) != [] && FewerStages(inner, outer, s)
             && (inner == Resident || inner.IsPinned() == outer.IsPinned())) ==>
              inner in outer.Nested()
  {
    if inner in outer.Nested() {
      var extra := if outer.HostOrigin? then H2D else D2H;
      assert extra in StagesOf(outer, s) && extra !in StagesOf(inner, s);
    }
  }

  /** The statistics that the comparison sees. */
  function StatsOf(c: Case): Option<CaseStats>
    reads c
  {
    if c.summary.Some? then Some(c.summary.value.stats) else None
  }

  ghost predicate IsGroup(group: Group, paths: seq<Path>, cases: seq<Case>)
    requires |paths| == |cases|
    reads Cells(cases)
  {
    && (forall p :: p in group <==> p in paths)
    && forall i :: 0 <= i < |paths| ==> paths[i] in group && group[paths[i]] == StatsOf(cases[i])
  }

  method CollectGroup(paths: seq<Path>, cases: seq<Case>) returns (group: Group)
    requires |paths| == |cases| && DistinctPaths(paths)
    ensures IsGroup(group, paths, cases)
  {
    group := map[];
    for i := 0 to |paths|
      invariant forall p :: p in group <==> p in paths[..i]
      invariant forall j :: 0 <= j < i ==> paths[j] in group && group[paths[j]] == StatsOf(cases[j])
    {
      group := group[paths[i] := StatsOf(cases[i])];
    }
  }

  /** The statistics of finished cases are consistent, so all claims made from them are chained. */
  lemma GroupConsistent(group: Group, paths: seq<Path>, cases: seq<Case>, requests: seq<Request>, orders: seq<Row>,
                        answer: (nat, nat) -> Outcome)
    requires |paths| == |cases| == |requests| && IsGroup(group, paths, cases)
    requires forall p :: 0 <= p < |cases| ==> InOrders(orders, p) && Finished(cases[p], requests[p], orders, p, answer)
    ensures AllConsistent(group)
  {
    hide Consistent, Keeps, CaseStatistics, InOrders;
    forall path | path in group && group[path].Some?
      ensures Consistent(group[path].value)
    {
      var i :| 0 <= i < |paths| && paths[i] == path;
      assert Finished(cases[i], requests[i], orders, i, answer);
      CaseConsistent(SamplesOf(cases[i].runs));
    }
  }

  /** The whole life of one group of cases, up to the claims attached to its paths. */
  method RunGroup(paths: seq<Path>, settings: Settings, orders: seq<Row>, gateVerdict: Option<string>,
                  warmGpu: bool, gpuError: Option<string>, seconds: real,
                  calibration: nat -> Outcome, answer: (nat, nat) -> Outcome)
    returns (cases: seq<Case>, result: GroupResult, group: Group, entries: map<Path, Entry>, vsResident: Option<Claim>)
    requires DistinctPaths(paths) && Comparator in paths && settings.reps > 0
    requires orders != [] && Orders(orders, |paths|)
    ensures |cases| == |paths| && DistinctCases(cases) && fresh(Cells(cases))
    ensures forall p :: 0 <= p < |cases| ==> InOrders(orders, p)
    ensures result == GroupOk || (result == DifferentThreads && Avx2 in paths)
    ensures result == GroupOk ==>
              && (forall p :: 0 <= p < |cases| ==> Finished(cases[p], RequestOf(paths[p], settings), orders, p, answer))
              && (gateVerdict.Some? ==> forall p :: 0 <= p < |cases| ==> cases[p].status == Failed)
    ensures result == GroupOk ==> forall p :: 0 <= p < |cases| ==>
              (cases[p].status == Passed <==>
                 Passes(RequestOf(paths[p], settings), cases[p].warmup, gateVerdict, warmGpu && gpuError.Some?, seconds,
                        calibration(p), |orders|, p, answer))
    ensures result == GroupOk ==> forall p :: 0 <= p < |cases| && cases[p].status == Passed ==>
              WarmedUp(RequestOf(paths[p], settings), seconds, calibration(p), cases[p].warmup)
    ensures result == GroupOk ==> IsGroup(group, paths, cases) && AllConsistent(group)
    ensures result == GroupOk ==> forall p :: p in paths ==>
              p in entries && entries[p] == EntryFor(group, p) && ChainedEntry(entries[p])
    ensures result == GroupOk ==>
              vsResident == ResidentClaim(group) && (vsResident.Some? ==> Chained(vsResident.value))
  {
    hide Finished, AllConsistent, EntryFor, ResidentClaim, IsGroup, RequestOf, ChainedEntry, Chained, Passes, WarmedUp;
    var requests := seq(|paths|, i requires 0 <= i < |paths| => RequestOf(paths[i], settings));
    PlainRequests(paths, settings, requests);
    cases, result := RunCases(requests, orders, gateVerdict, warmGpu, gpuError, seconds, calibration, answer);
    group, entries, vsResident := map[], map[], None;
    if result == GroupOk {
      group := CollectGroup(paths, cases);
      GroupConsistent(group, paths, cases, requests, orders, answer);
      GroupDomain(group, paths, cases);
      entries, vsResident := CompareCaseGroup(paths, group);
      forall p: Path
        ensures ChainedEntry(EntryFor(group, p))
      {
        ClaimsChained(group, p);
      }
      ClaimsChained(group, Comparator);
    }
  }

  lemma GroupDomain(group: Group, paths: seq<Path>, cases: seq<Case>)
    requires |paths| == |cases| && IsGroup(group, paths, cases)
    ensures forall p :: p in group <==> p in paths
  {
  }

  lemma PlainRequests(paths: seq<Path>, settings: Settings, requests: seq<Request>)
    requires |requests| == |paths| && settings.reps > 0
    requires forall i :: 0 <= i < |paths| ==> requests[i] == RequestOf(paths[i], settings)
    ensures forall i :: 0 <= i < |paths| ==> requests[i].reps > 0
    ensures Avx2 !in paths ==> forall i :: 0 <= i < |paths| ==> !OpenThreads(requests[i])
  {
    forall i | 0 <= i < |paths|
      ensures Avx2 !in paths ==> !OpenThreads(requests[i])
    {
      PathsAgree(paths[i], settings);
    }
  }

  /**
   When a case passes: the gate did, the GPU warmed up if it had to, the probe was
   accepted if there was one, and so was the answer of every trial.
   */
  ghost predicate Passes(q: Request, w: nat, gateVerdict: Option<string>, gpuFailed: bool, seconds: real,
                         probe: Outcome, trials: nat, p: nat, answer: (nat, nat) -> Outcome)
  {
    && gateVerdict.None? && !gpuFailed && (seconds > 0.0 ==> Accepts(q, probe))
    && forall t :: 0 <= t < trials ==> Accepts(TrialRequest(q, w), answer(t, p))
  }

  /** The group's cases from their first record to their statistics. */
  method RunCases(requests: seq<Request>, orders: seq<Row>, gateVerdict: Option<string>, warmGpu: bool,
                  gpuError: Option<string>, seconds: real, calibration: nat -> Outcome, answer: (nat, nat) -> Outcome)
    returns (cases: seq<Case>, result: GroupResult)
    requires orders != [] && Orders(orders, |requests|) && forall p :: 0 <= p < |requests| ==> requests[p].reps > 0
    ensures |cases| == |requests| && DistinctCases(cases) && fresh(Cells(cases))
    ensures forall p :: 0 <= p < |cases| ==> InOrders(orders, p)
    ensures result == GroupOk || result == DifferentThreads
    ensures (forall p :: 0 <= p < |requests| ==> !OpenThreads(requests[p])) ==> result == GroupOk
    ensures result == GroupOk ==> forall p :: 0 <= p < |cases| ==> Finished(cases[p], requests[p], orders, p, answer)
    ensures result == GroupOk ==> forall p :: 0 <= p < |cases| ==>
              && (cases[p].status == Passed <==>
                    Passes(requests[p], cases[p].warmup, gateVerdict, warmGpu && gpuError.Some?, seconds,
                           calibration(p), |orders|, p, answer))
              && (cases[p].status == Passed ==> WarmedUp(requests[p], seconds, calibration(p), cases[p].warmup))
    ensures result == GroupOk && gateVerdict.Some? ==> forall p :: 0 <= p < |cases| ==> cases[p].status == Failed
  {
    hide Progress, Finished, Summarised, RunsVerdict, Sampled, Permutes, Validated;
    forall p | 0 <= p < |requests|
      ensures InOrders(orders, p)
    {
      InEveryOrder(orders, |requests|, p);
    }
    cases := MakeCases(requests, gateVerdict);
    if gateVerdict.None? {
      result := TryCases(cases, requests, orders, warmGpu, gpuError, seconds, calibration, answer);
    } else {
      result := FinishGated(cases, requests, orders, answer);
    }
  }

  /** A case after its warm-up. */
  ghost predicate Started(now: Track, w: nat, q: Request, gpuFailed: bool, seconds: real, probe: Outcome)
  {
    && now.runs == []
    && (now.status == Passed <==> !gpuFailed && (seconds > 0.0 ==> Accepts(q, probe)))
    && (now.status == Passed ==> WarmedUp(q, seconds, probe, w))
  }

  lemma WarmUpStarts(now: Track, w: nat, q: Request, warmGpu: bool, gpuError: Option<string>, seconds: real,
                     probe: Outcome)
    requires q.reps > 0
    requires (now, w) ==
               if warmGpu && gpuError.Some? then (FailedTrack(NewTrack(None), GpuWarmup, gpuError.value), q.warmups)
               else if seconds <= 0.0 then (NewTrack(None), q.warmups)
               else Calibrated(NewTrack(None), q.warmups, q, seconds, probe)
    ensures Started(now, w, q, warmGpu && gpuError.Some?, seconds, probe)
  {
    if seconds > 0.0 {
      CalibratedCovers(NewTrack(None), q.warmups, q, seconds, probe);
    }
    hide Validated, Median;
  }

  /** Warm-up, trials and statistics of cases whose gate passed. */
  method TryCases(cases: seq<Case>, requests: seq<Request>, orders: seq<Row>, warmGpu: bool, gpuError: Option<string>,
                  seconds: real, calibration: nat -> Outcome, answer: (nat, nat) -> Outcome)
    returns (result: GroupResult)
    requires DistinctCases(cases) && |requests| == |cases| && orders != [] && Orders(orders, |cases|)
    requires forall p :: 0 <= p < |cases| ==> InOrders(orders, p) && requests[p].reps > 0
    requires forall p :: 0 <= p < |cases| ==>
               && cases[p].View() == NewTrack(None) && cases[p].warmup == requests[p].warmups
               && cases[p].summary == None
    modifies Cells(cases)
    ensures result == GroupOk || result == DifferentThreads
    ensures (forall p :: 0 <= p < |requests| ==> !OpenThreads(requests[p])) ==> result == GroupOk
    ensures result == GroupOk ==> forall p :: 0 <= p < |cases| ==> Finished(cases[p], requests[p], orders, p, answer)
    ensures result == GroupOk ==> forall p :: 0 <= p < |cases| ==>
              && (cases[p].status == Passed <==>
                    Passes(requests[p], cases[p].warmup, None, warmGpu && gpuError.Some?, seconds,
                           calibration(p), |orders|, p, answer))
              && (cases[p].status == Passed ==> WarmedUp(requests[p], seconds, calibration(p), cases[p].warmup))
  {
    hide Progress, Finished, Permutes, Accepts, WarmedUp, Calibrated, NewTrack, InOrders;
    WarmUpCases(cases, requests, warmGpu, gpuError, seconds, calibration);
    forall p | 0 <= p < |cases|
      ensures Started(cases[p].View(), cases[p].warmup, requests[p], warmGpu && gpuError.Some?, seconds, calibration(p))
    {
      WarmUpStarts(cases[p].View(), cases[p].warmup, requests[p], warmGpu, gpuError, seconds, calibration(p));
    }
    ghost var starts := seq(|cases|, p requires 0 <= p < |cases| reads Cells(cases) => cases[p].View());
    RunTrials(cases, requests, orders, answer);
    forall p | 0 <= p < |cases|
      ensures cases[p].status == Passed <==>
                starts[p].status == Passed
                && forall t :: 0 <= t < |orders| ==> Accepts(TrialRequest(requests[p], cases[p].warmup), answer(t, p))
    {
      ProgressPasses(orders, TrialRequest(requests[p], cases[p].warmup), p, answer, starts[p], |orders|);
    }
    result := FinishTried(cases, requests, orders, answer, starts);
  }

  method MakeCases(requests: seq<Request>, gateVerdict: Option<string>) returns (cases: seq<Case>)
    ensures |cases| == |requests| && DistinctCases(cases) && fresh(Cells(cases))
    ensures forall p :: 0 <= p < |cases| ==>
              && cases[p].View() == NewTrack(gateVerdict)
              && cases[p].warmup == requests[p].warmups && cases[p].summary == None
  {
    cases := [];
    for p := 0 to |requests|
      invariant |cases| == p && DistinctCases(cases) && forall i :: 0 <= i < p ==> fresh(cases[i])
      invariant forall i :: 0 <= i < p ==>
                  && cases[i].View() == NewTrack(gateVerdict)
                  && cases[i].warmup == requests[i].warmups && cases[i].summary == None
    {
      var c := new Case(gateVerdict, requests[p].warmups);
      cases := cases + [c];
    }
  }

  method FinishTried(cases: seq<Case>, requests: seq<Request>, orders: seq<Row>, answer: (nat, nat) -> Outcome,
                     ghost starts: seq<Track>)
    returns (result: GroupResult)
    requires DistinctCases(cases) && |requests| == |cases| == |starts| && orders != []
    requires forall p :: 0 <= p < |cases| ==> InOrders(orders, p) && requests[p].reps > 0
    requires forall p :: 0 <= p < |cases| ==>
               && starts[p].runs == [] && cases[p].summary == None
               && cases[p].View()
                  == Progress(orders, TrialRequest(requests[p], cases[p].warmup), p, answer, starts[p], |orders|)
    modifies Cells(cases)
    ensures result == GroupOk || result == DifferentThreads
    ensures (forall p :: 0 <= p < |requests| ==> !OpenThreads(requests[p])) ==> result == GroupOk
    ensures result == GroupOk ==> forall p :: 0 <= p < |cases| ==> Finished(cases[p], requests[p], orders, p, answer)
    ensures result == GroupOk ==> forall p :: 0 <= p < |cases| ==>
              cases[p].status == old(cases[p].status) && cases[p].warmup == old(cases[p].warmup)
  {
    hide Progress, Finished, Summarised, RunsVerdict, Sampled, Validated;
    forall p | 0 <= p < |cases|
      ensures Sampled(cases[p].View())
      ensures RunsVerdict(cases[p].View()) == GroupOk || RunsVerdict(cases[p].View()) == DifferentThreads
      ensures !OpenThreads(requests[p]) ==> RunsVerdict(cases[p].View()) == GroupOk
    {
      ProgressVerdict(orders, TrialRequest(requests[p], cases[p].warmup), p, answer, starts[p]);
    }
    label before:
    result := SummariseCases(cases);
    if result == GroupOk {
      forall p | 0 <= p < |cases|
        ensures Finished(cases[p], requests[p], orders, p, answer) && cases[p].status == old(cases[p].status)
      {
        StatusKept(cases[p], old(cases[p].View()));
        SummarisedFinished(cases[p], requests[p], orders, p, answer, starts[p]);
      }
    }
  }

  method FinishGated(cases: seq<Case>, requests: seq<Request>, orders: seq<Row>,
                     ghost answer: (nat, nat) -> Outcome)
    returns (result: GroupResult)
    requires DistinctCases(cases) && |requests| == |cases|
    requires forall p :: 0 <= p < |cases| ==> InOrders(orders, p)
    requires forall p :: 0 <= p < |cases| ==> cases[p].status == Failed && cases[p].runs == []
    requires forall p :: 0 <= p < |cases| ==> cases[p].summary == None
    modifies Cells(cases)
    ensures result == GroupOk
    ensures forall p :: 0 <= p < |cases| ==>
              cases[p].status == Failed && Finished(cases[p], requests[p], orders, p, answer)
  {
    result := SummariseCases(cases);
  }

  // ---------- evidence ----------

  /** The sweep's own reasons against being evidence, and its final flag. */
  datatype Conditions = Conditions(evidence: bool, failedListed: bool)

  method FinishManifest(cases: seq<Case>, evidence: bool) returns (conditions: Conditions, allPassed: bool)
    ensures conditions.evidence == (evidence && forall p :: 0 <= p < |cases| ==> cases[p].status == Passed)
    ensures conditions.failedListed == exists p :: 0 <= p < |cases| && cases[p].status != Passed
    ensures allPassed == !conditions.failedListed
  {
    var failed: seq<nat> := [];
    for p := 0 to |cases|
      invariant failed == [] <==> forall i :: 0 <= i < p ==> cases[i].status == Passed
    {
      if cases[p].status != Passed {
        failed := failed + [p];
      }
    }
    conditions := Conditions(evidence && failed == [], failed != []);
    allPassed := failed == [];
  }

  /** A case that can be published: every trial kept, and statistics over exactly those trials. */
  ghost predicate Complete(c: Case, orders: seq<Row>)
    reads c
  {
    && c.status == Passed && |c.runs| == |orders| && (forall t :: 0 <= t < |orders| ==> c.runs[t].trial == t)
    && c.runs != [] && Sampled(c.View()) && c.summary == Some(SummaryOf(c.runs))
  }

  ghost predicate Dropped(c: Case)
    reads c
  {
    c.status == Failed && c.runs == [] && c.summary == None
  }

  /** One input and bit width, and what the processes leave. */
  datatype Workload = Workload(settings: Settings, gateVerdict: Option<string>, gpuError: Option<string>,
                               calibration: nat -> Outcome, answer: (nat, nat) -> Outcome)

  /**
   Group `g` of a sweep stands in the case list path by path, each case finished
   with its own settings and answers.
   */
  ghost predicate GroupAt(cases: seq<Case>, g: nat, paths: seq<Path>, it: Workload, orders: seq<Row>)
    requires forall p :: 0 <= p < |paths| ==> InOrders(orders, p)
    reads cases
  {
    && (g + 1) * |paths| <= |cases|
    && forall p {:trigger paths[p]} :: 0 <= p < |paths| ==>
         && g * |paths| + p < |cases|
         && Finished(cases[g * |paths| + p], RequestOf(paths[p], it.settings), orders, p, it.answer)
  }

  lemma GroupStays(cases: seq<Case>, more: seq<Case>, g: nat, paths: seq<Path>, it: Workload, orders: seq<Row>)
    requires forall p :: 0 <= p < |paths| ==> InOrders(orders, p)
    requires GroupAt(cases, g, paths, it, orders)
    ensures GroupAt(cases + more, g, paths, it, orders)
  {
    hide Finished, InOrders, RequestOf;
  }

  lemma GroupAdded(cases: seq<Case>, more: seq<Case>, g: nat, paths: seq<Path>, it: Workload, orders: seq<Row>)
    requires forall p :: 0 <= p < |paths| ==> InOrders(orders, p)
    requires |cases| == g * |paths| && |more| == |paths|
    requires forall p :: 0 <= p < |more| ==> Finished(more[p], RequestOf(paths[p], it.settings), orders, p, it.answer)
    ensures |cases + more| == (g + 1) * |paths| && GroupAt(cases + more, g, paths, it, orders)
  {
    hide Finished, InOrders, RequestOf;
    assert (g + 1) * |paths| == g * |paths| + |paths|;
  }

  /** All groups in turn; an error in a group ends the sweep. */
  method SweepGroups(paths: seq<Path>, workloads: seq<Workload>, orders: seq<Row>, warmGpu: bool, seconds: real)
    returns (cases: seq<Case>, result: GroupResult)
    requires DistinctPaths(paths) && Comparator in paths && orders != [] && Orders(orders, |paths|)
    requires forall g :: 0 <= g < |workloads| ==> workloads[g].settings.reps > 0
    requires forall p :: 0 <= p < |paths| ==> InOrders(orders, p)
    ensures result == GroupOk || (result == DifferentThreads && Avx2 in paths)
    ensures result == GroupOk ==> |cases| == |workloads| * |paths|
    ensures result == GroupOk ==>
              forall g :: 0 <= g < |workloads| ==> GroupAt(cases, g, paths, workloads[g], orders)
    ensures result == GroupOk ==> forall i :: 0 <= i < |cases| ==> Complete(cases[i], orders) || Dropped(cases[i])
  {
    hide *;
    cases := [];
    for g := 0 to |workloads|
      invariant |cases| == g * |paths|
      invariant forall h :: 0 <= h < g ==> GroupAt(cases, h, paths, workloads[h], orders)
      invariant forall i :: 0 <= i < |cases| ==> Complete(cases[i], orders) || Dropped(cases[i])
    {
      var it := workloads[g];
      var more, group, entries, vsResident;
      more, result, group, entries, vsResident :=
        RunGroup(paths, it.settings, orders, it.gateVerdict, warmGpu, it.gpuError, seconds, it.calibration, it.answer);
      if result != GroupOk {
        return;
      }
      forall p | 0 <= p < |more|
        ensures Complete(more[p], orders) || Dropped(more[p])
      {
        FinishedSplits(more[p], RequestOf(paths[p], it.settings), orders, p, it.answer);
      }
      forall h | 0 <= h < g
        ensures GroupAt(cases + more, h, paths, workloads[h], orders)
      {
        GroupStays(cases, more, h, paths, workloads[h], orders);
      }
      GroupAdded(cases, more, g, paths, it, orders);
      cases := cases + more;
    }
    result := GroupOk;
  }

  /** The groups, then the manifest; there is none after an error. */
  method RunSweep(paths: seq<Path>, workloads: seq<Workload>, orders: seq<Row>, warmGpu: bool, seconds: real,
                  evidence: bool)
    returns (cases: seq<Case>, result: GroupResult, conditions: Conditions)
    requires DistinctPaths(paths) && Comparator in paths && orders != [] && Orders(orders, |paths|)
    requires forall g :: 0 <= g < |workloads| ==> workloads[g].settings.reps > 0
    ensures result == GroupOk || (result == DifferentThreads && Avx2 in paths)
    ensures forall p :: 0 <= p < |paths| ==> InOrders(orders, p)
    ensures result == GroupOk ==> |cases| == |workloads| * |paths|
    ensures result == GroupOk ==>
              forall g :: 0 <= g < |workloads| ==> GroupAt(cases, g, paths, workloads[g], orders)
    ensures result == GroupOk ==> forall i :: 0 <= i < |cases| ==> Complete(cases[i], orders) || Dropped(cases[i])
    ensures result == GroupOk ==>
              (conditions.evidence <==> evidence && forall i :: 0 <= i < |cases| ==> Complete(cases[i], orders))
    ensures result != GroupOk ==> !conditions.evidence
  {
    hide Sampled, CaseStatistics, Permutes, GroupAt, InOrders;
    conditions := Conditions(false, false);
    forall p | 0 <= p < |paths|
      ensures InOrders(orders, p)
    {
      InEveryOrder(orders, |paths|, p);
    }
    cases, result := SweepGroups(paths, workloads, orders, warmGpu, seconds);
    if result == GroupOk {
      var allPassed;
      conditions, allPassed := FinishManifest(cases, evidence);
    }
  }

  lemma FinishedSplits(c: Case, q: Request, orders: seq<Row>, p: nat, answer: (nat, nat) -> Outcome)
    requires InOrders(orders, p) && Finished(c, q, orders, p, answer)
    ensures Complete(c, orders) || Dropped(c)
  {
    hide Sampled, CaseStatistics, PositionOf;
    if c.status == Passed {
      forall t | 0 <= t < |orders|
        ensures c.runs[t].trial == t
      {
        assert Keeps(c.runs[t], TrialRequest(q, c.warmup), t, PositionOf(orders[t], p), answer(t, p));
      }
    }
  }
}
