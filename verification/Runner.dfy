/** The driver's side of one bench process: what it asks for, the checks on the answer, and the warm-up count. */
module Runner {
  import opened Words
  import opened Statistics
  import opened Invocations

  datatype Backend = Cpu | CpuAvx2 | Cuda

  datatype Boundary = HostHost | HostOriginBoundary | GpuOriginBoundary | ResidentBoundary | ResidentGraphBoundary

  datatype Policy = NoTransfer | Pageable | Pinned

  datatype Variant = Reference | Optimized

  /** What the driver asks of one process; an option left out takes its default. */
  datatype Request = Request(backend: Backend, boundary: Option<Boundary>, policy: Option<Policy>,
                             bits: int, count: int,
                             seed: int, warmups: nat, reps: nat, k1: Variant, block: Option<int>, grid: Option<int>,
                             threads: Option<int>)

  function DefaultBoundary(b: Backend): Boundary { if b == Cuda then ResidentBoundary else HostHost }

  function BoundaryOf(q: Request): Boundary
  {
    if q.boundary.Some? then q.boundary.value else DefaultBoundary(q.backend)
  }

  predicate Transfers(b: Boundary) { b == HostOriginBoundary || b == GpuOriginBoundary }

  function PolicyOf(q: Request): Policy
  {
    if q.policy.Some? then q.policy.value else if Transfers(BoundaryOf(q)) then Pageable else NoTransfer
  }

  /** Transfer boundaries need a policy and no other boundary has one. */
  predicate PolicyFits(q: Request) { Transfers(BoundaryOf(q)) <==> PolicyOf(q) != NoTransfer }

  /** The identifier step of a boundary; the graph replays one invocation. */
  function StepOf(b: Boundary): nat { if b == ResidentGraphBoundary then 0 else 1 }

  // ---------- the echoed configuration ----------

  datatype Field =
    | BackendField
    | BitsField
    | CountField
    | SeedField
    | TensorField
    | InvocationField
    | WarmupField
    | RepsField
    | MeasuredField
    | WarmupIdsField
    | BoundaryField
    | PolicyField
    | BlockField
    | GridField
    | ScaleField
    | K1Field
    | ThreadsField

  /** A value in the answer; `Other` is everything that no field may hold. */
  datatype Value =
    | Whole(n: int)
    | Ids(ids: seq<int>)
    | BackendName(backend: Backend)
    | BoundaryName(boundary: Boundary)
    | PolicyName(policy: Policy)
    | VariantName(variant: Variant)
    | Null
    | Other

  type Configuration = map<Field, Value>

  const COMMON_FIELDS: seq<Field> :=
    [BackendField, BitsField, CountField, SeedField, TensorField, InvocationField, WarmupField, RepsField,
     MeasuredField,
     WarmupIdsField, BoundaryField, PolicyField, BlockField, GridField, ScaleField]

  /** The fields that an answer must echo, in the order in which they are checked. */
  function Fields(b: Backend): seq<Field>
  {
    COMMON_FIELDS + if b == Cuda then [K1Field] else if b == CpuAvx2 then [ThreadsField] else []
  }

  predicate Echoed(b: Backend, f: Field)
  {
    (f == K1Field ==> b == Cuda) && (f == ThreadsField ==> b == CpuAvx2)
  }

  lemma FieldsEchoed(b: Backend, f: Field)
    ensures f in Fields(b) <==> Echoed(b, f)
  {
    assert f in COMMON_FIELDS <==> f != K1Field && f != ThreadsField by {
      assert COMMON_FIELDS[0] == BackendField && COMMON_FIELDS[1] == BitsField && COMMON_FIELDS[2] == CountField;
      assert COMMON_FIELDS[3] == SeedField && COMMON_FIELDS[4] == TensorField && COMMON_FIELDS[5] == InvocationField;
      assert COMMON_FIELDS[6] == WarmupField && COMMON_FIELDS[7] == RepsField && COMMON_FIELDS[8] == MeasuredField;
      assert COMMON_FIELDS[9] == WarmupIdsField && COMMON_FIELDS[10] == BoundaryField
             && COMMON_FIELDS[11] == PolicyField;
      assert COMMON_FIELDS[12] == BlockField && COMMON_FIELDS[13] == GridField && COMMON_FIELDS[14] == ScaleField;
    }
  }

  /** What each field must hold; an open thread count has no demanded value. */
  function Expected(q: Request, f: Field): Value
  {
    match f
    case BackendField => BackendName(q.backend)
    case BitsField => Whole(q.bits)
    case CountField => Whole(q.count)
    case SeedField => Whole(q.seed)
    case TensorField => Whole(0)
    case InvocationField => Whole(0)
    case WarmupField => Whole(q.warmups)
    case RepsField => Whole(q.reps)
    case MeasuredField => Ids(ExpectedMeasured(q.reps, StepOf(BoundaryOf(q))))
    case WarmupIdsField => Ids(ExpectedWarmups(q.warmups, q.reps, StepOf(BoundaryOf(q))))
    case BoundaryField => BoundaryName(BoundaryOf(q))
    case PolicyField => PolicyName(PolicyOf(q))
    case BlockField => Whole(if q.block.Some? then q.block.value else 256)
    case GridField => Whole(if q.grid.Some? then q.grid.value else 0)
    case ScaleField => Null
    case K1Field => VariantName(q.k1)
    case ThreadsField => if q.threads.Some? then Whole(q.threads.value) else Null
  }

  predicate OpenThreads(q: Request) { q.backend == CpuAvx2 && q.threads.None? }

  predicate EchoFits(q: Request, c: Configuration, f: Field)
  {
    f in c && if f == ThreadsField && q.threads.None? then c[f].Whole? && c[f].n > 0 else c[f] == Expected(q, f)
  }

  /** Exactly the demanded fields are right, and fields of other back ends are missing. */
  ghost predicate Echoes(q: Request, c: Configuration)
  {
    forall f: Field :: if Echoed(q.backend, f) then EchoFits(q, c, f) else f !in c
  }

  // ---------- timings ----------

  datatype Stage = K1 | K2 | K3 | H2D | D2H | CpuStage

  /** A reported number, or something that is not a finite number. */
  datatype Sample = Finite(value: real) | NotFinite

  datatype Timings = NotAList | List(values: seq<Sample>)

  datatype Response = Response(configuration: Option<Configuration>, samples: Option<Timings>,
                               stages: map<Stage, Timings>, capture: Option<Sample>)

  const ALL_STAGES: seq<Stage> := [K1, K2, K3, H2D, D2H, CpuStage]

  lemma EveryStage(s: Stage)
    ensures s in ALL_STAGES
  {
    assert ALL_STAGES[0] == K1 && ALL_STAGES[1] == K2 && ALL_STAGES[2] == K3;
    assert ALL_STAGES[3] == H2D && ALL_STAGES[4] == D2H && ALL_STAGES[5] == CpuStage;
  }

  /** The stages timed on a back end and boundary; `None` for a pair that does not exist. */
  function RequiredStages(b: Backend, boundary: Boundary): Option<seq<Stage>>
  {
    match (b, boundary)
    case (Cuda, ResidentGraphBoundary) => Some([])
    case (Cuda, HostOriginBoundary) => Some([K1, K2, K3, H2D, D2H])
    case (Cuda, GpuOriginBoundary) => Some([K1, K2, K3, D2H])
    case (Cuda, ResidentBoundary) => Some([K1, K2, K3])
    case (Cpu, GpuOriginBoundary) => Some([D2H, CpuStage])
    case (Cpu, HostHost) => Some([])
    case (CpuAvx2, HostHost) => Some([])
    case _ => None
  }

  predicate GoodSample(s: Sample) { s.Finite? && s.value >= 0.0 }

  /** One finite, non-negative number per repetition. */
  ghost predicate GoodTimings(t: Option<Timings>, reps: nat)
  {
    && t.Some? && t.value.List? && |t.value.values| == reps
    && forall i :: 0 <= i < reps ==> GoodSample(t.value.values[i])
  }

  function StageTimings(r: Response, s: Stage): Option<Timings> { if s in r.stages then Some(r.stages[s]) else None }

  /** The timings that a request demands and no others, with a capture time exactly for the graph. */
  ghost predicate TimingsFit(q: Request, r: Response)
  {
    && GoodTimings(r.samples, q.reps)
    && RequiredStages(q.backend, BoundaryOf(q)).Some?
    && (forall s :: s in RequiredStages(q.backend, BoundaryOf(q)).value ==> GoodTimings(StageTimings(r, s), q.reps))
    && (forall s :: s in r.stages ==> s in RequiredStages(q.backend, BoundaryOf(q)).value)
    && (r.capture.Some? <==> BoundaryOf(q) == ResidentGraphBoundary)
    && (r.capture.Some? ==> GoodSample(r.capture.value))
  }

  /** An answer that fits its request. */
  ghost predicate Validated(q: Request, r: Response)
  {
    PolicyFits(q) && r.configuration.Some? && Echoes(q, r.configuration.value) && TimingsFit(q, r)
  }

  // ---------- the checks, in their order ----------

  datatype Fault = Absent | NotArray | WrongLength | BadValue(index: nat)

  datatype Check =
    | Accepted
    | BadPolicy
    | NoConfiguration
    | StrayField(field: Field)
    | WrongField(field: Field)
    | SamplesFault(fault: Fault)
    | UnknownPair
    | StageFault(stage: Stage, fault: Fault)
    | StrayStage(stage: Stage)
    | MissingCapture
    | BadCapture
    | StrayCapture

  method CheckTimings(t: Option<Timings>, reps: nat) returns (fault: Option<Fault>)
    ensures fault.None? <==> GoodTimings(t, reps)
    ensures fault.Some? && fault.value.BadValue? ==>
              && t.Some? && t.value.List? && fault.value.index < |t.value.values| == reps
              && !GoodSample(t.value.values[fault.value.index])
              && forall i :: 0 <= i < fault.value.index ==> GoodSample(t.value.values[i])
  {
    if t.None? {
      return Some(Absent);
    }
    if t.value.NotAList? {
      return Some(NotArray);
    }
    if |t.value.values| != reps {
      return Some(WrongLength);
    }
    for i := 0 to reps
      invariant forall j :: 0 <= j < i ==> GoodSample(t.value.values[j])
    {
      if !GoodSample(t.value.values[i]) {
        return Some(BadValue(i));
      }
    }
    fault := None;
  }

  /** Stray fields first, then every demanded field in order. */
  method CheckConfiguration(q: Request, c: Configuration) returns (check: Check)
    ensures check == Accepted <==> Echoes(q, c)
    ensures check == Accepted || check.StrayField? || check.WrongField?
    ensures check.StrayField? ==> check.field in c && !Echoed(q.backend, check.field)
    ensures check.WrongField? ==> Echoed(q.backend, check.field) && !EchoFits(q, c, check.field)
    ensures check.WrongField? ==> exists i :: 0 <= i < |Fields(q.backend)| && Fields(q.backend)[i] == check.field
                                              && forall j :: 0 <= j < i ==> EchoFits(q, c, Fields(q.backend)[j])
  {
    hide EchoFits, Fields;
    if q.backend != Cuda && K1Field in c {
      return StrayField(K1Field);
    }
    if q.backend != CpuAvx2 && ThreadsField in c {
      return StrayField(ThreadsField);
    }
    var fields := Fields(q.backend);
    for i := 0 to |fields|
      invariant forall j :: 0 <= j < i ==> EchoFits(q, c, fields[j])
    {
      FieldsEchoed(q.backend, fields[i]);
      if !EchoFits(q, c, fields[i]) {
        return WrongField(fields[i]);
      }
    }
    check := Accepted;
    forall f: Field
      ensures f in fields <==> Echoed(q.backend, f)
    {
      FieldsEchoed(q.backend, f);
    }
  }

  /** The demanded stages in order, then the ones that must be missing. */
  method CheckStages(r: Response, required: seq<Stage>, reps: nat) returns (check: Check)
    ensures check == Accepted <==>
            && (forall s :: s in required ==> GoodTimings(StageTimings(r, s), reps))
            && (forall s :: s in r.stages ==> s in required)
    ensures check == Accepted || check.StageFault? || check.StrayStage?
    ensures check.StageFault? ==> check.stage in required && !GoodTimings(StageTimings(r, check.stage), reps)
    ensures check.StrayStage? ==> check.stage in r.stages && check.stage !in required
  {
    hide GoodTimings;
    for i := 0 to |required|
      invariant forall j :: 0 <= j < i ==> GoodTimings(StageTimings(r, required[j]), reps)
    {
      var fault := CheckTimings(StageTimings(r, required[i]), reps);
      if fault.Some? {
        return StageFault(required[i], fault.value);
      }
    }
    for i := 0 to |ALL_STAGES|
      invariant forall j :: 0 <= j < i && ALL_STAGES[j] in r.stages ==> ALL_STAGES[j] in required
    {
      if ALL_STAGES[i] in r.stages && ALL_STAGES[i] !in required {
        return StrayStage(ALL_STAGES[i]);
      }
    }
    check := Accepted;
    forall s | s in r.stages
      ensures s in required
    {
      EveryStage(s);
    }
  }

  /** The whole validation, in its order of checks: it accepts exactly the answers that fit the request. */
  method ValidateBenchResponse(q: Request, r: Response) returns (check: Check)
    ensures check == Accepted <==> Validated(q, r)
    ensures check.StrayField? || check.WrongField? ==> r.configuration.Some? && !Echoes(q, r.configuration.value)
    ensures check.SamplesFault? || check.UnknownPair? || check.StageFault? || check.StrayStage?
            || check.MissingCapture? || check.BadCapture? || check.StrayCapture? ==>
              PolicyFits(q) && r.configuration.Some? && Echoes(q, r.configuration.value) && !TimingsFit(q, r)
  {
    hide Echoes, GoodTimings;
    if !PolicyFits(q) {
      return BadPolicy;
    }
    if r.configuration.None? {
      return NoConfiguration;
    }
    check := CheckConfiguration(q, r.configuration.value);
    if check != Accepted {
      return;
    }
    var fault := CheckTimings(r.samples, q.reps);
    if fault.Some? {
      return SamplesFault(fault.value);
    }
    var required := RequiredStages(q.backend, BoundaryOf(q));
    if required.None? {
      return UnknownPair;
    }
    check := CheckStages(r, required.value, q.reps);
    if check != Accepted {
      return;
    }
    if BoundaryOf(q) == ResidentGraphBoundary {
      if r.capture.None? {
        return MissingCapture;
      }
      if !GoodSample(r.capture.value) {
        return BadCapture;
      }
    } else if r.capture.Some? {
      return StrayCapture;
    }
  }

  /** What a process contributes: nothing when it fails or its answer is refused. */
  ghost function RunBench(q: Request, answer: Option<Response>): Option<Response>
  {
    if answer.Some? && Validated(q, answer.value) then answer else None
  }

  method RunBenchProcess(q: Request, answer: Option<Response>) returns (r: Option<Response>)
    ensures r == RunBench(q, answer)
  {
    if answer.None? {
      return None;
    }
    var check := ValidateBenchResponse(q, answer.value);
    r := if check == Accepted then answer else None;
  }

  // ---------- what accepted answers have in common ----------

  function IdsIn(c: Configuration, f: Field): seq<int> { if f in c && c[f].Ids? then c[f].ids else [] }

  function ThreadsIn(c: Configuration): Option<int>
  {
    if ThreadsField in c && c[ThreadsField].Whole? then Some(c[ThreadsField].n) else None
  }

  function Numbers(t: Option<Timings>): (r: Samples)
    ensures t.Some? && t.value.List? ==> |r| == |t.value.values|
    ensures t.Some? && t.value.List? ==>
              forall i :: 0 <= i < |r| ==> r[i] == if t.value.values[i].Finite? then t.value.values[i].value else 0.0
  {
    if t.None? || t.value.NotAList? then []
    else
      var s := t.value.values;
      seq(|s|, i requires 0 <= i < |s| => if s[i].Finite? then s[i].value else 0.0)
  }

  lemma AcceptedIds(q: Request, r: Response)
    requires Validated(q, r)
    ensures IdsIn(r.configuration.value, MeasuredField) == ExpectedMeasured(q.reps, StepOf(BoundaryOf(q)))
    ensures IdsIn(r.configuration.value, WarmupIdsField) == ExpectedWarmups(q.warmups, q.reps, StepOf(BoundaryOf(q)))
    ensures q.backend != CpuAvx2 ==> ThreadsIn(r.configuration.value) == None
    ensures q.backend == CpuAvx2 && q.threads.Some? ==> ThreadsIn(r.configuration.value) == q.threads
  {
    var c := r.configuration.value;
    hide TimingsFit, ExpectedMeasured, ExpectedWarmups;
    assert Echoed(q.backend, MeasuredField) && EchoFits(q, c, MeasuredField);
    assert Echoed(q.backend, WarmupIdsField) && EchoFits(q, c, WarmupIdsField);
    assert if q.backend == CpuAvx2 then EchoFits(q, c, ThreadsField) else !Echoed(q.backend, ThreadsField);
  }

  /** Everything that an accepted answer says about its run, field by field. */
  lemma AcceptedSays(q: Request, r: Response)
    requires Validated(q, r)
    ensures r.configuration.Some?
    ensures var c := r.configuration.value;
            && Says(c, BackendField, BackendName(q.backend)) && Says(c, BoundaryField, BoundaryName(BoundaryOf(q)))
            && Says(c, PolicyField, PolicyName(PolicyOf(q))) && Says(c, BitsField, Whole(q.bits))
            && Says(c, CountField, Whole(q.count)) && Says(c, SeedField, Whole(q.seed))
            && Says(c, TensorField, Whole(0)) && Says(c, InvocationField, Whole(0))
            && Says(c, WarmupField, Whole(q.warmups)) && Says(c, RepsField, Whole(q.reps))
            && (q.block.None? ==> Says(c, BlockField, Whole(256))) && (q.grid.None? ==> Says(c, GridField, Whole(0)))
            && (q.block.Some? ==> Says(c, BlockField, Whole(q.block.value)))
            && (q.grid.Some? ==> Says(c, GridField, Whole(q.grid.value))) && Says(c, ScaleField, Null)
            && (if q.backend == Cuda then Says(c, K1Field, VariantName(q.k1)) else K1Field !in c)
            && (q.backend != CpuAvx2 ==> ThreadsField !in c)
            && (q.backend == CpuAvx2 && q.threads.Some? ==> Says(c, ThreadsField, Whole(q.threads.value)))
            && (q.backend == CpuAvx2 && q.threads.None? ==>
                  ThreadsField in c && c[ThreadsField].Whole? && c[ThreadsField].n > 0)
  {
    hide Echoes, TimingsFit, ExpectedMeasured, ExpectedWarmups, Says, BoundaryOf, PolicyOf, PolicyFits;
    var c := r.configuration.value;
    OtherFields(q, c);
    FieldSays(q, c, BackendField);
    FieldSays(q, c, BoundaryField);
    FieldSays(q, c, PolicyField);
    FieldSays(q, c, BitsField);
    FieldSays(q, c, CountField);
    FieldSays(q, c, SeedField);
    FieldSays(q, c, TensorField);
    FieldSays(q, c, InvocationField);
    FieldSays(q, c, WarmupField);
    FieldSays(q, c, RepsField);
    FieldSays(q, c, BlockField);
    FieldSays(q, c, GridField);
    FieldSays(q, c, ScaleField);
  }

  lemma FieldSays(q: Request, c: Configuration, f: Field)
    requires Echoes(q, c) && Echoed(q.backend, f) && (f == ThreadsField ==> q.threads.Some?)
    ensures Says(c, f, Expected(q, f))
  {
    assert EchoFits(q, c, f);
    hide Expected;
  }

  /** The fields that only some back ends have. */
  lemma OtherFields(q: Request, c: Configuration)
    requires Echoes(q, c)
    ensures if q.backend == Cuda then Says(c, K1Field, VariantName(q.k1)) else K1Field !in c
    ensures q.backend != CpuAvx2 ==> ThreadsField !in c
    ensures q.backend == CpuAvx2 && q.threads.Some? ==> Says(c, ThreadsField, Whole(q.threads.value))
    ensures q.backend == CpuAvx2 && q.threads.None? ==>
              ThreadsField in c && c[ThreadsField].Whole? && c[ThreadsField].n > 0
  {
    assert Echoed(q.backend, K1Field) <==> q.backend == Cuda;
    assert Echoed(q.backend, ThreadsField) <==> q.backend == CpuAvx2;
    if q.backend == Cuda {
      FieldSays(q, c, K1Field);
    }
    if q.backend == CpuAvx2 {
      assert EchoFits(q, c, ThreadsField);
    }
  }

  predicate Says(c: Configuration, f: Field, v: Value) { f in c && c[f] == v }

  /**
   The timings of an accepted answer: one finite, non-negative time per repetition
   for the run and for every stage that its back end has at its boundary, no other
   stage, and a capture time exactly for the graph.
   */
  lemma AcceptedTimings(q: Request, r: Response, i: nat)
    requires Validated(q, r) && i < q.reps
    ensures r.samples.Some? && r.samples.value.List? && |r.samples.value.values| == q.reps
    ensures r.samples.value.values[i].Finite? && r.samples.value.values[i].value >= 0.0
    ensures forall s :: s in r.stages ==> r.stages[s].List? && |r.stages[s].values| == q.reps
                                          && r.stages[s].values[i].Finite? && r.stages[s].values[i].value >= 0.0
    ensures var cuda, b := q.backend == Cuda, BoundaryOf(q);
            && (K1 in r.stages <==> cuda && b != ResidentGraphBoundary)
            && (K2 in r.stages <==> cuda && b != ResidentGraphBoundary)
            && (K3 in r.stages <==> cuda && b != ResidentGraphBoundary)
            && (H2D in r.stages <==> cuda && b == HostOriginBoundary)
            && (D2H in r.stages <==> b == GpuOriginBoundary || (cuda && b == HostOriginBoundary))
            && (CpuStage in r.stages <==> q.backend == Cpu && b == GpuOriginBoundary)
            && (r.capture.Some? <==> b == ResidentGraphBoundary)
            && (r.capture.Some? ==> r.capture.value.Finite? && r.capture.value.value >= 0.0)
  {
    hide Echoes;
    var required := RequiredStages(q.backend, BoundaryOf(q)).value;
    forall s: Stage
      ensures s in required <==> s in r.stages
      ensures s in r.stages ==> GoodTimings(Some(r.stages[s]), q.reps)
    {
      if s in required {
        assert GoodTimings(StageTimings(r, s), q.reps);
      }
    }
  }

  /**
   The identifiers of an accepted answer: the measured runs count up from zero and
   the warm-ups go on after them, except that a graph replays run zero throughout.
   */
  lemma AcceptedRuns(q: Request, r: Response, i: nat, j: nat)
    requires Validated(q, r) && i < q.reps && j < q.warmups
    ensures var c := r.configuration.value;
            && MeasuredField in c && c[MeasuredField].Ids? && |c[MeasuredField].ids| == q.reps
            && WarmupIdsField in c && c[WarmupIdsField].Ids? && |c[WarmupIdsField].ids| == q.warmups
            && c[MeasuredField].ids[i] == (if BoundaryOf(q) == ResidentGraphBoundary then 0 else i)
            && c[WarmupIdsField].ids[j] == if BoundaryOf(q) == ResidentGraphBoundary then 0 else q.reps + j
  {
    assert EchoFits(q, r.configuration.value, MeasuredField);
    assert EchoFits(q, r.configuration.value, WarmupIdsField);
  }

  /** Any two accepted answers to one request report the same identifiers. */
  lemma AcceptedIdsAgree(q: Request, a: Response, b: Response)
    requires Validated(q, a) && Validated(q, b)
    ensures IdsIn(a.configuration.value, MeasuredField) == IdsIn(b.configuration.value, MeasuredField)
    ensures IdsIn(a.configuration.value, WarmupIdsField) == IdsIn(b.configuration.value, WarmupIdsField)
    ensures !OpenThreads(q) ==> ThreadsIn(a.configuration.value) == ThreadsIn(b.configuration.value)
  {
    AcceptedIds(q, a);
    AcceptedIds(q, b);
  }

  /** The answer that echoes a request, with all timings zero. */
  ghost function PlainAnswer(q: Request, threads: int): Response
    requires RequiredStages(q.backend, BoundaryOf(q)).Some?
  {
    var zeros := List(seq(q.reps, _ => Finite(0.0)));
    var required := RequiredStages(q.backend, BoundaryOf(q)).value;
    Response(Some(map f: Field | Echoed(q.backend, f) ::
                    if f == ThreadsField && q.threads.None? then Whole(threads) else Expected(q, f)),
             Some(zeros), map s: Stage | s in required :: zeros,
             if BoundaryOf(q) == ResidentGraphBoundary then Some(Finite(0.0)) else None)
  }

  /** A request can be answered exactly when its policy fits its boundary and its pair exists. */
  predicate Answerable(q: Request) { PolicyFits(q) && RequiredStages(q.backend, BoundaryOf(q)).Some? }

  lemma PlainAnswerFits(q: Request, threads: int)
    requires Answerable(q) && threads > 0
    ensures Validated(q, PlainAnswer(q, threads))
    ensures PlainAnswer(q, threads).configuration.Some?
    ensures OpenThreads(q) ==> ThreadsIn(PlainAnswer(q, threads).configuration.value) == Some(threads)
  {
    hide RequiredStages, Expected;
  }

  lemma AnswerableIff(q: Request)
    ensures (exists r :: Validated(q, r)) <==> Answerable(q)
  {
    if Answerable(q) {
      PlainAnswerFits(q, 1);
    }
  }

  // ---------- in-process warm-up ----------

  function Ceiling(x: real): int { -((-x).Floor) }

  /** Enough repetitions to fill the target time, never fewer than the minimum. */
  function InProcessWarmups(minimum: nat, seconds: real, repMs: real): (n: nat)
    ensures n >= minimum
  {
    if seconds <= 0.0 || repMs <= 0.0 then minimum
    else
      var n := Ceiling(seconds * 1000.0 / repMs);
      if n > minimum then n else minimum
  }

  /** The count is the least one, above the minimum, that covers the target time. */
  lemma WarmupsCover(minimum: nat, seconds: real, repMs: real, m: nat)
    requires seconds > 0.0 && repMs > 0.0 && m >= minimum
    ensures m >= InProcessWarmups(minimum, seconds, repMs) <==> m as real * repMs >= seconds * 1000.0
  {
    var x := seconds * 1000.0 / repMs;
    assert x * repMs == seconds * 1000.0;
    CeilingLeast(x, m);
    Compare3(m as real, x, repMs);
  }

  lemma CeilingLeast(x: real, m: int)
    ensures m >= Ceiling(x) <==> m as real >= x
  {
  }

  lemma Compare3(a: real, x: real, c: real)
    requires c > 0.0
    ensures a >= x <==> a * c >= x * c
  {
    assert (a - x) * c == a * c - x * c;
    if a > x {
      assert (a - x) * c > 0.0;
    } else if a < x {
      assert (x - a) * c > 0.0;
    }
  }
}
