/** The native side of one bench process: which requests it runs, and the report it prints. */
module BenchReport {
  import opened Words
  import opened Invocations
  import opened Runner

  // ---------- the legality table ----------

  /** One legal pair of back end and boundary. */
  datatype Row = Row(backend: Backend, boundary: Boundary, columns: seq<Stage>, capture: bool, isDefault: bool)

  const TABLE: seq<Row> := [
    Row(Cpu, HostHost, [], false, true),
    Row(Cpu, GpuOriginBoundary, [D2H, CpuStage], false, false),
    Row(CpuAvx2, HostHost, [], false, true),
    Row(Cuda, ResidentBoundary, [K1, K2, K3], false, false),
    Row(Cuda, HostOriginBoundary, [K1, K2, K3, H2D, D2H], false, true),
    Row(Cuda, ResidentGraphBoundary, [], true, false),
    Row(Cuda, GpuOriginBoundary, [K1, K2, K3, D2H], false, false)
  ]

  /** The table and the driver's list of timed stages agree on every pair. */
  function RowFor(b: Backend, boundary: Boundary): Option<Row>
  {
    match RequiredStages(b, boundary)
    case None => None
    case Some(stages) => Some(Row(b, boundary, stages, boundary == ResidentGraphBoundary, boundary == NativeDefault(b)))
  }

  /** The native default; for CUDA it is not the driver's. */
  function NativeDefault(b: Backend): Boundary { if b == Cuda then HostOriginBoundary else HostHost }

  lemma TableRows(i: nat)
    requires i < |TABLE|
    ensures RowFor(TABLE[i].backend, TABLE[i].boundary) == Some(TABLE[i])
  {
    assert |TABLE| == 7;
    assert TABLE[0] == Row(Cpu, HostHost, [], false, true);
    assert TABLE[1] == Row(Cpu, GpuOriginBoundary, [D2H, CpuStage], false, false);
    assert TABLE[2] == Row(CpuAvx2, HostHost, [], false, true);
    assert TABLE[3] == Row(Cuda, ResidentBoundary, [K1, K2, K3], false, false);
    assert TABLE[4] == Row(Cuda, HostOriginBoundary, [K1, K2, K3, H2D, D2H], false, true);
    assert TABLE[5] == Row(Cuda, ResidentGraphBoundary, [], true, false);
    assert TABLE[6] == Row(Cuda, GpuOriginBoundary, [K1, K2, K3, D2H], false, false);
  }

  function PairIndex(b: Backend, boundary: Boundary): nat
  {
    match b
    case Cpu => if boundary == HostHost then 0 else 1
    case CpuAvx2 => 2
    case Cuda =>
      match boundary
      case ResidentBoundary => 3
      case HostOriginBoundary => 4
      case ResidentGraphBoundary => 5
      case _ => 6
  }

  lemma TableComplete(b: Backend, boundary: Boundary)
    requires RowFor(b, boundary).Some?
    ensures PairIndex(b, boundary) < |TABLE|
    ensures TABLE[PairIndex(b, boundary)].backend == b && TABLE[PairIndex(b, boundary)].boundary == boundary
  {
    assert TABLE[0].backend == Cpu && TABLE[1].backend == Cpu && TABLE[2].backend == CpuAvx2;
    assert TABLE[3].backend == TABLE[4].backend == TABLE[5].backend == TABLE[6].backend == Cuda;
    assert TABLE[0].boundary == TABLE[2].boundary == HostHost
           && TABLE[1].boundary == TABLE[6].boundary == GpuOriginBoundary;
    assert TABLE[3].boundary == ResidentBoundary && TABLE[4].boundary == HostOriginBoundary;
    assert TABLE[5].boundary == ResidentGraphBoundary;
  }

  method Legality(b: Backend, boundary: Boundary) returns (row: Option<Row>)
    ensures row == RowFor(b, boundary)
  {
    hide RowFor, PairIndex;
    for i := 0 to |TABLE|
      invariant forall j :: 0 <= j < i ==> TABLE[j].backend != b || TABLE[j].boundary != boundary
    {
      if TABLE[i].backend == b && TABLE[i].boundary == boundary {
        TableRows(i);
        return Some(TABLE[i]);
      }
    }
    if RowFor(b, boundary).Some? {
      TableComplete(b, boundary);
      assert false;
    }
    row := None;
  }

  method DefaultLegality(b: Backend) returns (row: Option<Row>)
    ensures row == RowFor(b, NativeDefault(b)) && row.Some?
  {
    for i := 0 to |TABLE|
      invariant forall j :: 0 <= j < i ==> TABLE[j].backend != b || !TABLE[j].isDefault
    {
      if TABLE[i].backend == b && TABLE[i].isDefault {
        TableRows(i);
        return Some(TABLE[i]);
      }
    }
    TableComplete(b, NativeDefault(b));
    TableRows(PairIndex(b, NativeDefault(b)));
    assert false;
  }

  /** The boundary the program settles on; host-host has no name on the command line. */
  function Resolved(q: Request): Option<Row>
  {
    if q.boundary.None? then RowFor(q.backend, NativeDefault(q.backend))
    else if q.boundary.value == HostHost then None
    else RowFor(q.backend, q.boundary.value)
  }

  /** Only transfer boundaries take a policy, and `none` has no name on the command line. */
  predicate PolicyParses(q: Request, row: Row)
  {
    q.policy.Some? ==> Transfers(row.boundary) && q.policy.value != NoTransfer
  }

  method ResolveBench(q: Request) returns (row: Option<Row>, policy: Policy)
    ensures row == if Resolved(q).Some? && PolicyParses(q, Resolved(q).value) then Resolved(q) else None
    ensures row.Some? ==> policy == NativePolicy(q, row.value)
  {
    policy := NoTransfer;
    if q.boundary == Some(HostHost) || q.policy == Some(NoTransfer) {
      return None, policy;
    }
    if q.boundary.Some? {
      row := Legality(q.backend, q.boundary.value);
    } else {
      row := DefaultLegality(q.backend);
    }
    if row.None? || (q.policy.Some? && !Transfers(row.value.boundary)) {
      return None, policy;
    }
    if Transfers(row.value.boundary) {
      policy := if q.policy.Some? then q.policy.value else Pageable;
    }
  }

  function NativePolicy(q: Request, row: Row): Policy
  {
    if !Transfers(row.boundary) then NoTransfer else if q.policy.Some? then q.policy.value else Pageable
  }

  // ---------- what runs ----------

  const MAX_BLOCK := 1024
  const MAX_GRID := 65535
  const MAX_THREADS := 256

  /** An option that only CUDA takes, within its bound. */
  predicate CudaOption(b: Backend, option: Option<int>, max: int)
  {
    option.Some? ==> b == Cuda && 0 < option.value <= max
  }

  /** Requests that pass the command-line checks and the identifier check, so that the program runs them. */
  predicate Runs(q: Request)
  {
    && (q.bits == 4 || q.bits == 8) && 0 <= q.seed < TWO_64 && q.warmups < TWO_64 && 0 < q.reps < TWO_64
    && CudaOption(q.backend, q.block, MAX_BLOCK) && CudaOption(q.backend, q.grid, MAX_GRID)
    && (q.threads.Some? ==> q.backend == CpuAvx2 && 0 < q.threads.value <= MAX_THREADS)
    && Resolved(q).Some? && PolicyParses(q, Resolved(q).value)
    && RangeValid(0, 0, q.warmups, q.reps, StepOf(Resolved(q).value.boundary))
  }

  /** What a run found and measured: input size, granted team, wall times, stage times and the capture time. */
  datatype Measured = Measured(count: u64, team: nat, wall: seq<real>, stageMs: map<Stage, seq<real>>, captureMs: real)

  ghost predicate Complete(q: Request, m: Measured)
    requires Resolved(q).Some?
  {
    && |m.wall| == q.reps && m.team > 0
    && forall s :: s in Resolved(q).value.columns ==> s in m.stageMs && |m.stageMs[s]| == q.reps
  }

  function Reported(ms: seq<real>): Timings { List(seq(|ms|, i requires 0 <= i < |ms| => Finite(ms[i]))) }

  // ---------- the report ----------

  function Ints(ids: seq<u64>): (r: seq<int>)
    ensures |r| == |ids| && forall i :: 0 <= i < |r| ==> r[i] == ids[i]
  {
    seq(|ids|, i requires 0 <= i < |ids| => ids[i])
  }

  /** The value that the program prints for a field that it prints. */
  function Printed(q: Request, m: Measured, f: Field): Value
    requires Resolved(q).Some?
  {
    var row := Resolved(q).value;
    match f
    case BackendField => BackendName(q.backend)
    case BitsField => Whole(q.bits)
    case CountField => Whole(m.count)
    case SeedField => Whole(q.seed)
    case TensorField => Whole(0)
    case InvocationField => Whole(0)
    case WarmupField => Whole(q.warmups)
    case RepsField => Whole(q.reps)
    case MeasuredField => Ids(ExpectedMeasured(q.reps, StepOf(row.boundary)))
    case WarmupIdsField => Ids(ExpectedWarmups(q.warmups, q.reps, StepOf(row.boundary)))
    case BoundaryField => BoundaryName(row.boundary)
    case PolicyField => PolicyName(NativePolicy(q, row))
    case BlockField => Whole(if q.block.Some? then q.block.value else 256)
    case GridField => Whole(if q.grid.Some? then q.grid.value else 0)
    case ScaleField => Null
    case K1Field => VariantName(q.k1)
    case ThreadsField => Whole(m.team)
  }

  /** Every field of the request's back end, and no other. */
  ghost predicate Prints(q: Request, m: Measured, c: Configuration)
    requires Resolved(q).Some?
  {
    forall f: Field :: (f in c <==> Echoed(q.backend, f)) && (f in c ==> c[f] == Printed(q, m, f))
  }

  /** What the report holds. */
  ghost predicate IsReport(q: Request, m: Measured, r: Response)
    requires Resolved(q).Some?
  {
    var row := Resolved(q).value;
    && r.configuration.Some? && Prints(q, m, r.configuration.value)
    && r.samples == Some(Reported(m.wall))
    && (forall s :: s in r.stages <==> s in row.columns)
    && (forall s :: s in r.stages ==> s in m.stageMs && r.stages[s] == Reported(m.stageMs[s]))
    && r.capture == if row.capture then Some(Finite(m.captureMs)) else None
  }

  /** The report, written field by field and column by column. */
  method PrintReport(q: Request, m: Measured) returns (r: Response)
    requires Runs(q) && Complete(q, m)
    ensures IsReport(q, m, r)
  {
    hide RangeValid;
    var row := Resolved(q).value;
    var c := PrintConfiguration(q, m);
    var stages := PrintColumns(row, m);
    r := Response(Some(c), Some(Reported(m.wall)), stages, if row.capture then Some(Finite(m.captureMs)) else None);
  }

  method PrintColumns(row: Row, m: Measured) returns (stages: map<Stage, Timings>)
    requires forall s :: s in row.columns ==> s in m.stageMs
    ensures forall s :: s in stages <==> s in row.columns
    ensures forall s :: s in stages ==> s in m.stageMs && stages[s] == Reported(m.stageMs[s])
  {
    stages := map[];
    for i := 0 to |ALL_STAGES|
      invariant forall s :: s in stages <==> s in ALL_STAGES[..i] && s in row.columns
      invariant forall s :: s in stages ==> s in m.stageMs && stages[s] == Reported(m.stageMs[s])
    {
      var s := ALL_STAGES[i];
      if s in row.columns {
        stages := stages[s := Reported(m.stageMs[s])];
      }
    }
    forall s: Stage
      ensures s in ALL_STAGES[..|ALL_STAGES|]
    {
      EveryStage(s);
      assert ALL_STAGES[..|ALL_STAGES|] == ALL_STAGES;
    }
  }

  /** The two identifier lists. */
  method PrintLists(q: Request, step: nat) returns (measured: seq<int>, warm: seq<int>)
    requires step <= 1 && 0 < q.reps < TWO_64 && q.warmups < TWO_64 && RangeValid(0, 0, q.warmups, q.reps, step)
    ensures measured == ExpectedMeasured(q.reps, step) && warm == ExpectedWarmups(q.warmups, q.reps, step)
  {
    RangeValidIff(0, 0, q.warmups, q.reps, step);
    var runs := PrintedIds(0, q.warmups, q.reps, step, q.reps, q.warmups);
    var warmups := PrintedIds(0, q.warmups, q.reps, step, q.warmups, 0);
    PrintedAreExpected(q.warmups, q.reps, step, runs, warmups);
    hide RangeValid, RunId, ExpectedMeasured, ExpectedWarmups;
    measured, warm := Ints(runs), Ints(warmups);
  }

  /** The fields in front of the identifier lists. */
  method PrintWorkload(q: Request, m: Measured) returns (c: Configuration)
    requires Resolved(q).Some?
    ensures forall f: Field :: f in c <==> IsWorkload(f)
    ensures forall f: Field :: IsWorkload(f) ==> c[f] == Printed(q, m, f)
  {
    hide Resolved;
    c := map[BackendField := BackendName(q.backend), BitsField := Whole(q.bits), CountField := Whole(m.count),
             SeedField := Whole(q.seed), TensorField := Whole(0), InvocationField := Whole(0),
             WarmupField := Whole(q.warmups), RepsField := Whole(q.reps)];
  }

  predicate IsWorkload(f: Field)
  {
    match f
    case BackendField | BitsField | CountField | SeedField | TensorField | InvocationField | WarmupField | RepsField =>
      true
    case _ => false
  }

  /** The identifier lists and the fields behind them. */
  method PrintLayout(q: Request, m: Measured, front: Configuration, measured: seq<int>, warm: seq<int>)
    returns (c: Configuration)
    requires Resolved(q).Some?
    requires measured == ExpectedMeasured(q.reps, StepOf(Resolved(q).value.boundary))
    requires warm == ExpectedWarmups(q.warmups, q.reps, StepOf(Resolved(q).value.boundary))
    ensures forall f: Field :: f in c <==> f in front || IsLayout(f)
    ensures forall f: Field :: f in c ==> c[f] == if IsLayout(f) then Printed(q, m, f) else front[f]
  {
    hide ExpectedMeasured, ExpectedWarmups, Resolved, NativePolicy;
    var row := Resolved(q).value;
    c := front[MeasuredField := Ids(measured)][WarmupIdsField := Ids(warm)];
    c := c[BoundaryField := BoundaryName(row.boundary)];
    c := c[PolicyField := PolicyName(NativePolicy(q, row))];
    c := c[BlockField := Whole(if q.block.Some? then q.block.value else 256)];
    c := c[GridField := Whole(if q.grid.Some? then q.grid.value else 0)];
  }

  predicate IsLayout(f: Field)
  {
    match f
    case MeasuredField | WarmupIdsField | BoundaryField | PolicyField | BlockField | GridField => true
    case _ => false
  }

  /** The variant and the team where the back end has them, and no prescribed scale. */
  method PrintEnding(q: Request, m: Measured, front: Configuration) returns (c: Configuration)
    requires Resolved(q).Some?
    ensures forall f: Field :: f in c <==> f in front || (IsEnding(f) && Echoed(q.backend, f))
    ensures forall f: Field :: f in c && IsEnding(f) && f !in front ==> c[f] == Printed(q, m, f)
    ensures forall f: Field :: f in c && !IsEnding(f) ==> c[f] == front[f]
  {
    hide Resolved;
    c := front;
    if q.backend == Cuda {
      c := c[K1Field := VariantName(q.k1)];
    }
    if q.backend == CpuAvx2 {
      c := c[ThreadsField := Whole(m.team)];
    }
    c := c[ScaleField := Null];
  }

  predicate IsEnding(f: Field) { f == K1Field || f == ThreadsField || f == ScaleField }

  method PrintConfiguration(q: Request, m: Measured) returns (c: Configuration)
    requires Runs(q) && Complete(q, m)
    ensures Prints(q, m, c)
  {
    var front := PrintWorkload(q, m);
    var measured, warm := PrintLists(q, StepOf(Resolved(q).value.boundary));
    var middle := PrintLayout(q, m, front, measured, warm);
    c := PrintEnding(q, m, middle);
    hide Runs, Complete, Printed;
    assert forall f: Field :: (IsWorkload(f) || IsLayout(f)) == !IsEnding(f);
  }

  // ---------- native report against driver checks ----------

  ghost predicate NonNegative(ms: seq<real>) { forall i :: 0 <= i < |ms| ==> ms[i] >= 0.0 }

  /** The clock never ran backwards. */
  ghost predicate SaneClock(q: Request, m: Measured)
    requires Resolved(q).Some? && Complete(q, m)
  {
    && NonNegative(m.wall) && (forall s :: s in Resolved(q).value.columns ==> NonNegative(m.stageMs[s]))
    && (Resolved(q).value.capture ==> m.captureMs >= 0.0)
  }

  /** Both sides mean the same boundary: the driver names it, or the back end has one default. */
  predicate SameBoundary(q: Request) { q.boundary.Some? || q.backend != Cuda }

  lemma BoundariesAgree(q: Request)
    requires Resolved(q).Some? && PolicyParses(q, Resolved(q).value)
    ensures SameBoundary(q) <==> Resolved(q).value.boundary == BoundaryOf(q)
    ensures SameBoundary(q) ==> NativePolicy(q, Resolved(q).value) == PolicyOf(q) && PolicyFits(q)
  {
  }

  /**
   Exactly when the driver accepts the report of a process that ran its request:
   the boundary is named or has one default, the input has the expected size, the
   granted team is the requested one, and no time is negative.
   */
  lemma NativeAcceptedIff(q: Request, m: Measured, r: Response)
    requires Runs(q) && Complete(q, m) && IsReport(q, m, r)
    ensures Validated(q, r) <==>
            && SameBoundary(q) && m.count == q.count
            && (q.backend == CpuAvx2 && q.threads.Some? ==> m.team == q.threads.value)
            && SaneClock(q, m)
  {
    hide RangeValid;
    BoundariesAgree(q);
    var c := r.configuration.value;
    ConfigurationAgrees(q, m, c);
    if SameBoundary(q) {
      TimingsAgree(q, m, r);
    }
    hide *;
  }

  lemma ConfigurationAgrees(q: Request, m: Measured, c: Configuration)
    requires Resolved(q).Some? && PolicyParses(q, Resolved(q).value) && Prints(q, m, c) && m.team > 0
    ensures Echoes(q, c) <==>
            && SameBoundary(q) && m.count == q.count
            && (q.backend == CpuAvx2 && q.threads.Some? ==> m.team == q.threads.value)
  {
    BoundariesAgree(q);
    hide Resolved, NativePolicy, ExpectedMeasured, ExpectedWarmups, PolicyParses, BoundaryOf, PolicyOf;
    assert Echoed(q.backend, BoundaryField) && Echoed(q.backend, CountField);
    assert EchoFits(q, c, BoundaryField) <==> SameBoundary(q);
    assert EchoFits(q, c, CountField) <==> m.count == q.count;
    assert q.backend == CpuAvx2 ==>
        (EchoFits(q, c, ThreadsField) <==> (q.threads.Some? ==> m.team == q.threads.value));
  }

  lemma TimingsAgree(q: Request, m: Measured, r: Response)
    requires Resolved(q).Some? && Complete(q, m) && IsReport(q, m, r) && Resolved(q).value.boundary == BoundaryOf(q)
    ensures TimingsFit(q, r) <==> SaneClock(q, m)
  {
    hide Prints;
    ReportedGood(m.wall, q.reps);
    var row := Resolved(q).value;
    forall s | s in row.columns
      ensures GoodTimings(StageTimings(r, s), q.reps) <==> NonNegative(m.stageMs[s])
    {
      ReportedGood(m.stageMs[s], q.reps);
    }
    assert RequiredStages(q.backend, BoundaryOf(q)) == Some(row.columns);
    hide GoodTimings, NonNegative, Reported;
  }

  lemma ReportedGood(ms: seq<real>, reps: nat)
    requires |ms| == reps
    ensures GoodTimings(Some(Reported(ms)), reps) <==> NonNegative(ms)
  {
    var t := Reported(ms);
    assert forall i :: 0 <= i < reps ==> t.values[i] == Finite(ms[i]);
    if GoodTimings(Some(t), reps) {
      forall i | 0 <= i < reps
        ensures ms[i] >= 0.0
      {
        assert GoodSample(t.values[i]);
      }
    }
  }
}
