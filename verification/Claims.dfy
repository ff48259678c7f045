/** Timed paths, boundary inversions, and the claims attached to one group of cases. */
module Claims {
  import opened Words
  import opened Statistics

  // ---------- paths ----------

  /** The timed paths; transfer boundaries come pageable or pinned. */
  datatype Path =
    | Comparator
    | Avx2
    | Resident
    | ResidentGraph
    | HostOrigin(pinned: bool)
    | CpuGpuOrigin(pinned: bool)
    | CudaGpuOrigin(pinned: bool)
  {
    predicate IsCuda() { Resident? || ResidentGraph? || HostOrigin? || CudaGpuOrigin? }

    predicate IsPinned() { (HostOrigin? || CpuGpuOrigin? || CudaGpuOrigin?) && pinned }

    /** The policy-matched path that claims are made against. */
    function Baseline(): Option<Path>
    {
      match this
      case Comparator => None
      case CudaGpuOrigin(policy) => Some(CpuGpuOrigin(policy))
      case _ => Some(Comparator)
    }

    function PageableTwin(): Path
      requires IsPinned()
    {
      match this
      case HostOrigin(_) => HostOrigin(false)
      case CpuGpuOrigin(_) => CpuGpuOrigin(false)
      case CudaGpuOrigin(_) => CudaGpuOrigin(false)
    }

    /** Paths whose measured work is part of this path's work. */
    function Nested(): seq<Path>
    {
      match this
      case CpuGpuOrigin(_) => [Comparator]
      case CudaGpuOrigin(_) => [Resident]
      case HostOrigin(policy) => [Resident, ResidentGraph, CudaGpuOrigin(policy)]
      case _ => []
    }
  }

  /** What a run asks for. */
  datatype Selection = Selection(avx2: bool, cuda: bool, gpuOrigin: bool, pageable: bool, pinned: bool,
                                 unknownBoundary: bool, unknownPolicy: bool)

  ghost predicate DistinctPaths(paths: seq<Path>)
  {
    forall i, j :: 0 <= i < j < |paths| ==> paths[i] != paths[j]
  }

  function HostPart(s: Selection): (r: seq<Path>)
    ensures DistinctPaths(r) && forall p :: p in r <==> p == Comparator || (p == Avx2 && s.avx2)
  {
    if s.avx2 then [Comparator, Avx2] else [Comparator]
  }

  function CudaPart(s: Selection): (r: seq<Path>)
    ensures DistinctPaths(r)
    ensures forall p :: p in r <==>
              s.cuda && (p == Resident || p == ResidentGraph || (p.HostOrigin? && (p.pinned ==> s.pinned)))
  {
    if !s.cuda then []
    else [Resident, ResidentGraph, HostOrigin(false)] + if s.pinned then [HostOrigin(true)] else []
  }

  function OriginPart(s: Selection): (r: seq<Path>)
    ensures DistinctPaths(r)
    ensures forall p :: p in r <==> s.gpuOrigin && (p.CpuGpuOrigin? || p.CudaGpuOrigin?) && (p.pinned ==> s.pinned)
  {
    if !s.gpuOrigin then []
    else
      [CpuGpuOrigin(false), CudaGpuOrigin(false)]
      + if s.pinned then [CpuGpuOrigin(true), CudaGpuOrigin(true)] else []
  }

  /** The paths of a valid request, in their fixed order; `None` for a request that is refused. */
  function BuildPaths(s: Selection): Option<seq<Path>>
  {
    if s.unknownBoundary || s.unknownPolicy || !s.pageable then None
    else if (s.gpuOrigin || s.pinned) && !s.cuda then None
    else Some(HostPart(s) + CudaPart(s) + OriginPart(s))
  }

  lemma JoinedDistinct(a: seq<Path>, b: seq<Path>)
    requires DistinctPaths(a) && DistinctPaths(b) && forall p :: p in a ==> p !in b
    ensures DistinctPaths(a + b)
  {
    forall i, j | 0 <= i < j < |a + b|
      ensures (a + b)[i] != (a + b)[j]
    {
      if i < |a| <= j {
        assert a[i] in a && b[j - |a|] in b;
      }
    }
  }

  /** Which paths a valid selection contains. */
  ghost predicate SelectedBy(s: Selection, p: Path)
  {
    match p
    case Comparator => true
    case Avx2 => s.avx2
    case Resident => s.cuda
    case ResidentGraph => s.cuda
    case HostOrigin(pinned) => s.cuda && (pinned ==> s.pinned)
    case CpuGpuOrigin(pinned) => s.gpuOrigin && (pinned ==> s.pinned)
    case CudaGpuOrigin(pinned) => s.gpuOrigin && (pinned ==> s.pinned)
  }

  lemma BuiltPaths(s: Selection)
    ensures BuildPaths(s).Some? <==>
              !s.unknownBoundary && !s.unknownPolicy && s.pageable && (s.gpuOrigin || s.pinned ==> s.cuda)
    ensures BuildPaths(s).Some? ==> DistinctPaths(BuildPaths(s).value)
    ensures BuildPaths(s).Some? ==> forall p :: p in BuildPaths(s).value <==> SelectedBy(s, p)
  {
    hide HostPart, CudaPart, OriginPart, DistinctPaths;
    JoinedDistinct(HostPart(s), CudaPart(s));
    JoinedDistinct(HostPart(s) + CudaPart(s), OriginPart(s));
  }

  /** Selected path sets contain every baseline, every pageable twin and the resident path they are compared with. */
  lemma BuiltPathsClosed(s: Selection)
    requires BuildPaths(s).Some?
    ensures var paths := BuildPaths(s).value;
            && Comparator in paths
            && (forall p :: p in paths && p.Baseline().Some? ==> p.Baseline().value in paths)
            && (forall p :: p in paths && p.IsPinned() ==> p.PageableTwin() in paths)
            && (forall p :: p in paths && p.IsCuda() ==> Resident in paths)
  {
    BuiltPaths(s);
    hide BuildPaths, DistinctPaths;
  }

  // ---------- inversions ----------

  /** Statistics of the selected paths; a failed case has none. */
  type Group = map<Path, Option<CaseStats>>

  function Stat(group: Group, p: Path): Option<CaseStats> { if p in group then group[p] else None }

  /** Not beaten by missing data: both sides are present and the outer path is not faster. */
  predicate Ordered(group: Group, outer: Path, inner: Path)
  {
    && Stat(group, outer).Some? && Stat(group, inner).Some?
    && Stat(group, outer).value.median >= Stat(group, inner).value.median
  }

  /** The CPU path that starts on the device must not beat the comparator it contains. */
  function CpuInversion(group: Group, pinned: bool): bool
  {
    CpuGpuOrigin(pinned) in group && !Ordered(group, CpuGpuOrigin(pinned), Comparator)
  }

  /** A selected CUDA boundary without a median, or faster than a selected path it contains. */
  ghost predicate Beats(group: Group, outer: Path)
  {
    && outer in group
    && (Stat(group, outer).None?
        || exists inner :: inner in outer.Nested() && inner in group && !Ordered(group, outer, inner))
  }

  ghost predicate CudaInversion(group: Group, pinned: bool)
  {
    Beats(group, HostOrigin(pinned)) || Beats(group, CudaGpuOrigin(pinned))
  }

  /** The two boundaries in turn, each against the paths it contains; the first violation decides. */
  method BoundaryInversion(group: Group, pinned: bool) returns (inverted: bool)
    ensures inverted == CudaInversion(group, pinned)
  {
    var boundaries := [HostOrigin(pinned), CudaGpuOrigin(pinned)];
    for b := 0 to |boundaries|
      invariant forall i :: 0 <= i < b ==> !Beats(group, boundaries[i])
    {
      var path := boundaries[b];
      if path !in group {
        continue;
      }
      if Stat(group, path).None? {
        assert Beats(group, path);
        return true;
      }
      var nested := path.Nested();
      for k := 0 to |nested|
        invariant forall i :: 0 <= i < k && nested[i] in group ==> Ordered(group, path, nested[i])
      {
        if nested[k] !in group {
          continue;
        }
        var inner := Stat(group, nested[k]);
        if inner.None? || Stat(group, path).value.median < inner.value.median {
          assert nested[k] in path.Nested() && !Ordered(group, path, nested[k]);
          assert Beats(group, path);
          return true;
        }
      }
    }
    assert !Beats(group, boundaries[0]) && !Beats(group, boundaries[1]);
    inverted := false;
  }

  ghost predicate PathInversion(group: Group, p: Path)
  {
    match p
    case Avx2 => false
    case Comparator => CpuInversion(group, false)
    case CpuGpuOrigin(pinned) => CpuInversion(group, pinned)
    case CudaGpuOrigin(pinned) => CudaInversion(group, pinned) || CpuInversion(group, pinned)
    case _ => CudaInversion(group, p.IsPinned())
  }

  // ---------- claims ----------

  datatype Claim = Claim(speedup: Speedup, inversion: bool, direction: bool, magnitude: bool, rev2: bool)

  /** The direction, magnitude and revision 2 claims of one comparison. */
  function Support(baseline: CaseStats, candidate: CaseStats, inversion: bool): Claim
  {
    var speedup := Compare(baseline, candidate);
    var direction := speedup.verdict != Inconclusive && !inversion;
    Claim(speedup, inversion, direction, direction && baseline.Stable() && candidate.Stable(),
          direction && !baseline.UnstableRev2() && !candidate.UnstableRev2())
  }

  /** What the comparison attaches to one path. */
  datatype Entry =
    | Nothing
    | Reference
    | Descriptive(speedup: Speedup, inversion: bool)
    | Claimed(claim: Claim, vsAvx2: Option<Speedup>, vsPageable: Option<Claim>, vsComparator: Option<Speedup>)

  ghost function EntryFor(group: Group, p: Path): Entry
  {
    if Stat(group, p).None? then Nothing
    else if p == Comparator then Reference
    else if Stat(group, p.Baseline().value).None? then Nothing
    else
      var stats, baseline := Stat(group, p).value, Stat(group, p.Baseline().value).value;
      var inversion := PathInversion(group, p);
      if p == Avx2 then Descriptive(Compare(baseline, stats), inversion)
      else Claimed(Support(baseline, stats, inversion),
                   if p.IsCuda() && Stat(group, Avx2).Some? then Some(Compare(Stat(group, Avx2).value, stats))
                   else None,
                   PageableClaim(group, p),
                   if p.CudaGpuOrigin? && Stat(group, Comparator).Some?
                   then Some(Compare(Stat(group, Comparator).value, stats)) else None)
  }

  /** Pinned against pageable: an inversion on either side vetoes. */
  ghost function PageableClaim(group: Group, p: Path): Option<Claim>
    requires Stat(group, p).Some?
  {
    if p.IsPinned() && Stat(group, p.PageableTwin()).Some? then
      Some(Support(Stat(group, p.PageableTwin()).value, Stat(group, p).value,
                   PathInversion(group, p) || PathInversion(group, p.PageableTwin())))
    else None
  }

  /** The graph path against the resident one. */
  ghost function ResidentClaim(group: Group): Option<Claim>
  {
    if Stat(group, Resident).Some? && Stat(group, ResidentGraph).Some? then
      Some(Support(Stat(group, Resident).value, Stat(group, ResidentGraph).value, CudaInversion(group, false)))
    else None
  }

  /** The four inversion flags, computed once for the group. */
  datatype Flags = Flags(cpuPageable: bool, cpuPinned: bool, cudaPageable: bool, cudaPinned: bool)

  ghost predicate FlagsOf(group: Group, f: Flags)
  {
    && f.cpuPageable == CpuInversion(group, false) && f.cpuPinned == CpuInversion(group, true)
    && f.cudaPageable == CudaInversion(group, false) && f.cudaPinned == CudaInversion(group, true)
  }

  function FlagFor(f: Flags, p: Path): bool
  {
    var cpu := if p.IsPinned() then f.cpuPinned else f.cpuPageable;
    var cuda := if p.IsPinned() then f.cudaPinned else f.cudaPageable;
    if p == Avx2 then false
    else if !p.IsCuda() then cpu
    else if p.CudaGpuOrigin? then cuda || cpu
    else cuda
  }

  method CompareCaseGroup(paths: seq<Path>, group: Group) returns (entries: map<Path, Entry>, vsResident: Option<Claim>)
    requires Comparator in paths && DistinctPaths(paths) && (forall p :: p in group <==> p in paths)
    ensures forall p :: p in entries <==> p in paths
    ensures forall p :: p in paths ==> entries[p] == EntryFor(group, p)
    ensures vsResident == ResidentClaim(group)
  {
    var cudaPageable := BoundaryInversion(group, false);
    var cudaPinned := BoundaryInversion(group, true);
    var flags := Flags(CpuInversion(group, false), CpuInversion(group, true), cudaPageable, cudaPinned);
    hide CudaInversion, CpuInversion;
    entries := map[];
    for i := 0 to |paths|
      invariant forall p :: p in entries <==> p in paths[..i]
      invariant forall p :: p in entries ==> entries[p] == EntryFor(group, p)
    {
      var entry := ComparePath(paths[i], group, flags);
      entries := entries[paths[i] := entry];
    }
    vsResident := None;
    if Stat(group, Resident).Some? && Stat(group, ResidentGraph).Some? {
      vsResident := Some(Support(Stat(group, Resident).value, Stat(group, ResidentGraph).value, flags.cudaPageable));
    }
  }

  method ComparePath(p: Path, group: Group, flags: Flags) returns (entry: Entry)
    requires FlagsOf(group, flags)
    ensures entry == EntryFor(group, p)
  {
    hide CudaInversion, CpuInversion, Support, Compare;
    if Stat(group, p).None? {
      return Nothing;
    }
    var stats := Stat(group, p).value;
    if p == Comparator {
      return Reference;
    }
    var inversion := FlagFor(flags, p);
    var baseStats := Stat(group, p.Baseline().value);
    if baseStats.None? {
      return Nothing;
    }
    if p == Avx2 {
      return Descriptive(Compare(baseStats.value, stats), inversion);
    }
    var claim := Support(baseStats.value, stats, inversion);
    var vsAvx2 := None;
    if p.IsCuda() && Stat(group, Avx2).Some? {
      vsAvx2 := Some(Compare(Stat(group, Avx2).value, stats));
    }
    var vsPageable := None;
    if p.IsPinned() {
      var twin := Stat(group, p.PageableTwin());
      if twin.Some? {
        vsPageable := Some(Support(twin.value, stats, inversion || FlagFor(flags, p.PageableTwin())));
      }
    }
    var vsComparator := None;
    if p.CudaGpuOrigin? && Stat(group, Comparator).Some? {
      vsComparator := Some(Compare(Stat(group, Comparator).value, stats));
    }
    entry := Claimed(claim, vsAvx2, vsPageable, vsComparator);
  }

  // ---------- the claims form a chain ----------

  ghost predicate AllConsistent(group: Group)
  {
    forall p :: p in group && group[p].Some? ==> Consistent(group[p].value)
  }

  /** Revision 2 implies magnitude, magnitude implies direction, and direction agrees with the point estimate. */
  ghost predicate Chained(c: Claim)
  {
    && (c.rev2 ==> c.magnitude) && (c.magnitude ==> c.direction)
    && (c.direction ==>
        && !c.inversion && c.speedup.point.Some?
        && (c.speedup.verdict == Faster <==> c.speedup.point.value > 1.0)
        && (c.speedup.verdict == Slower <==> c.speedup.point.value < 1.0))
  }

  lemma SupportChained(baseline: CaseStats, candidate: CaseStats, inversion: bool)
    requires Consistent(baseline) && Consistent(candidate)
    ensures Chained(Support(baseline, candidate, inversion))
  {
    PointInRange(baseline, candidate);
    hide Compare, Exceeds;
  }

  ghost predicate ChainedEntry(e: Entry)
  {
    e.Claimed? ==> Chained(e.claim) && (e.vsPageable.Some? ==> Chained(e.vsPageable.value))
  }

  /** Every claim of a group, whatever its paths, is chained. */
  lemma ClaimsChained(group: Group, p: Path)
    requires AllConsistent(group)
    ensures ChainedEntry(EntryFor(group, p))
    ensures ResidentClaim(group).Some? ==> Chained(ResidentClaim(group).value)
  {
    hide Support, Compare, Chained, CudaInversion, CpuInversion, Consistent;
    if ResidentClaim(group).Some? {
      SupportChained(group[Resident].value, group[ResidentGraph].value, CudaInversion(group, false));
    }
    if EntryFor(group, p).Claimed? {
      SupportChained(group[p.Baseline().value].value, group[p].value, PathInversion(group, p));
      if p.IsPinned() && Stat(group, p.PageableTwin()).Some? {
        SupportChained(group[p.PageableTwin()].value, group[p].value,
                       PathInversion(group, p) || PathInversion(group, p.PageableTwin()));
      }
    }
  }

  // ---------- what a claim says ----------

  /** All trials of one case beat all trials of the other. */
  ghost predicate Decided(b: CaseStats, c: CaseStats) { AllPositive(b, c) && (AllBelow(c, b) || AllBelow(b, c)) }

  /** The largest trial median is at most a quarter above the smallest. */
  predicate Tight(c: CaseStats) { c.high <= 1.25 * c.low }

  /** The same between the 90th and the 10th percentile of the trial medians. */
  predicate Narrow(c: CaseStats)
    requires c.medians != []
  {
    Percentile(c.medians, 90) <= 1.25 * Percentile(c.medians, 10)
  }

  /** The claim of `c` against `b` when `sound` says that nothing is inverted. */
  ghost predicate IsClaim(claim: Claim, b: CaseStats, c: CaseStats, sound: bool)
    requires b.medians != [] && c.medians != []
  {
    && claim.speedup == Compare(b, c)
    && (claim.direction <==> sound && Decided(b, c))
    && (claim.magnitude <==> sound && Decided(b, c) && Narrow(b) && Narrow(c))
    && (claim.rev2 <==> sound && Decided(b, c) && Tight(b) && Tight(c))
  }

  /**
   A direction is supported exactly when nothing is inverted and all trials of one
   side beat all trials of the other; magnitude and revision 2 also need both
   sides' trial medians close together.
   */
  lemma SupportMeans(b: CaseStats, c: CaseStats, inversion: bool)
    requires Consistent(b) && Consistent(c)
    ensures IsClaim(Support(b, c, inversion), b, c, !inversion)
  {
    CompareMeans(b, c);
    hide Compare, Least, Greatest, Percentile, AllPositive, AllBelow, CaseStats.Stable, CaseStats.UnstableRev2;
    if AllPositive(b, c) {
      SpreadsOfPositive(b, c);
    }
  }

  lemma SpreadsOfPositive(b: CaseStats, c: CaseStats)
    requires Consistent(b) && Consistent(c) && AllPositive(b, c)
    ensures (b.Stable() <==> Narrow(b)) && (c.Stable() <==> Narrow(c))
    ensures (!b.UnstableRev2() <==> Tight(b)) && (!c.UnstableRev2() <==> Tight(c))
  {
    PositiveSpread(b);
    PositiveSpread(c);
    hide Percentile, Least, Greatest;
  }

  lemma PositiveSpread(c: CaseStats)
    requires Consistent(c) && forall i :: 0 <= i < |c.medians| ==> c.medians[i] > 0.0
    ensures c.low > 0.0 && Percentile(c.medians, 10) > 0.0
  {
    PercentileWithin(c.medians, 10);
    hide Percentile;
  }

  /** The path that each path is claimed against: the CPU path with the same origin and policy, or the comparator. */
  function Against(p: Path): Path
  {
    match p
    case CudaGpuOrigin(pinned) => CpuGpuOrigin(pinned)
    case _ => Comparator
  }

  /** The work of `outer` contains the work of `inner`. */
  predicate Contains(outer: Path, inner: Path)
  {
    match outer
    case HostOrigin(pinned) => inner == Resident || inner == ResidentGraph || inner == CudaGpuOrigin(pinned)
    case CudaGpuOrigin(_) => inner == Resident
    case CpuGpuOrigin(_) => inner == Comparator
    case _ => false
  }

  /** The boundaries of a path's policy that its claims depend on. */
  predicate Guards(p: Path, outer: Path)
  {
    || (p.IsCuda() && (outer == HostOrigin(p.IsPinned()) || outer == CudaGpuOrigin(p.IsPinned())))
    || ((p.CpuGpuOrigin? || p.CudaGpuOrigin?) && outer == CpuGpuOrigin(p.IsPinned()))
  }

  /**
   A guarding boundary has statistics, and so has every selected path it contains,
   with a median that is not larger.
   */
  ghost predicate InOrder(group: Group, outer: Path)
  {
    outer in group ==>
      && Stat(group, outer).Some?
      && forall inner :: Contains(outer, inner) && inner in group ==>
           && Stat(group, inner).Some?
           && Stat(group, inner).value.median <= Stat(group, outer).value.median
  }

  ghost predicate GuardsInOrder(group: Group, p: Path)
  {
    forall outer :: Guards(p, outer) ==> InOrder(group, outer)
  }

  lemma BeatsIs(group: Group, outer: Path)
    requires Comparator in group
    ensures outer.IsCuda() ==> (Beats(group, outer) <==> !InOrder(group, outer))
    ensures outer.CpuGpuOrigin? ==> (CpuInversion(group, outer.pinned) <==> !InOrder(group, outer))
  {
    if outer.HostOrigin? {
      assert forall inner :: Contains(outer, inner) <==> inner in outer.Nested();
    }
  }

  /** An inversion on a claimed path is a guarding boundary out of order. */
  lemma InversionIs(group: Group, p: Path)
    requires Comparator in group && p != Comparator && p != Avx2
    ensures PathInversion(group, p) <==> !GuardsInOrder(group, p)
  {
    BeatsIs(group, HostOrigin(p.IsPinned()));
    BeatsIs(group, CudaGpuOrigin(p.IsPinned()));
    BeatsIs(group, CpuGpuOrigin(p.IsPinned()));
    hide Beats, CpuInversion, InOrder;
    assert Guards(p, CpuGpuOrigin(p.IsPinned())) <==> p.CpuGpuOrigin? || p.CudaGpuOrigin?;
    assert Guards(p, HostOrigin(p.IsPinned())) <==> p.IsCuda();
    assert Guards(p, CudaGpuOrigin(p.IsPinned())) <==> p.IsCuda();
  }

  /**
   What the group says about one path: it is claimed exactly when it and the path it
   is measured against have statistics, and its direction is supported exactly when
   all trials of one side beat all of the other and its boundaries are in order.
   */
  lemma ClaimMeans(group: Group, p: Path)
    requires AllConsistent(group) && Comparator in group && p != Comparator && p != Avx2
    ensures EntryFor(group, p).Claimed? <==> Stat(group, p).Some? && Stat(group, Against(p)).Some?
    ensures EntryFor(group, p).Claimed? ==>
              IsClaim(EntryFor(group, p).claim, Stat(group, Against(p)).value, Stat(group, p).value,
                      GuardsInOrder(group, p))
  {
    InversionIs(group, p);
    hide PathInversion, GuardsInOrder, Support, Compare, Decided, Narrow, Tight, Consistent;
    if Stat(group, p).Some? && Stat(group, Against(p)).Some? {
      SupportMeans(Stat(group, Against(p)).value, Stat(group, p).value, PathInversion(group, p));
    }
  }

  /** The CPU paths make no claim: the comparator is the reference, and the AVX2 path is described against it. */
  lemma HostMeans(group: Group)
    ensures EntryFor(group, Comparator) == if Stat(group, Comparator).Some? then Reference else Nothing
    ensures EntryFor(group, Avx2).Descriptive? <==> Stat(group, Comparator).Some? && Stat(group, Avx2).Some?
    ensures EntryFor(group, Avx2).Descriptive? ==>
              EntryFor(group, Avx2)
              == Descriptive(Compare(Stat(group, Comparator).value, Stat(group, Avx2).value), false)
  {
  }

  /** The same path without pinned memory. */
  function Unpinned(p: Path): Path
    requires p.IsPinned()
  {
    p.(pinned := false)
  }

  /**
   The further comparisons of a claimed path: with the AVX2 path for CUDA paths, with
   the comparator for the device-origin CUDA path, and with its own pageable form,
   whose boundaries must be in order as well.
   */
  lemma FurtherMeans(group: Group, p: Path)
    requires AllConsistent(group) && Comparator in group && EntryFor(group, p).Claimed?
    ensures var e, stats := EntryFor(group, p), Stat(group, p).value;
            && (e.vsAvx2.Some? <==> p.IsCuda() && Stat(group, Avx2).Some?)
            && (e.vsAvx2.Some? ==> e.vsAvx2.value == Compare(Stat(group, Avx2).value, stats))
            && (e.vsComparator.Some? <==> p.CudaGpuOrigin? && Stat(group, Comparator).Some?)
            && (e.vsComparator.Some? ==> e.vsComparator.value == Compare(Stat(group, Comparator).value, stats))
            && (e.vsPageable.Some? <==> p.IsPinned() && Stat(group, Unpinned(p)).Some?)
            && (e.vsPageable.Some? ==>
                  IsClaim(e.vsPageable.value, Stat(group, Unpinned(p)).value, stats,
                          GuardsInOrder(group, p) && GuardsInOrder(group, Unpinned(p))))
  {
    InversionIs(group, p);
    if p.IsPinned() {
      InversionIs(group, Unpinned(p));
      hide PathInversion, GuardsInOrder, Support, Compare, Decided, Narrow, Tight, Consistent;
      if Stat(group, Unpinned(p)).Some? {
        SupportMeans(Stat(group, Unpinned(p)).value, Stat(group, p).value,
                     PathInversion(group, p) || PathInversion(group, Unpinned(p)));
      }
    }
  }

  /** The graph replay is claimed against the resident path when both have statistics. */
  lemma ResidentMeans(group: Group)
    requires AllConsistent(group) && Comparator in group
    ensures ResidentClaim(group).Some? <==> Stat(group, Resident).Some? && Stat(group, ResidentGraph).Some?
    ensures ResidentClaim(group).Some? ==>
              IsClaim(ResidentClaim(group).value, Stat(group, Resident).value, Stat(group, ResidentGraph).value,
                      GuardsInOrder(group, ResidentGraph))
  {
    InversionIs(group, ResidentGraph);
    hide CudaInversion, GuardsInOrder, Support, Compare, Decided, Narrow, Tight, Consistent;
    if Stat(group, Resident).Some? && Stat(group, ResidentGraph).Some? {
      SupportMeans(Stat(group, Resident).value, Stat(group, ResidentGraph).value, CudaInversion(group, false));
    }
  }

  // ---------- claims fail closed ----------

  /** The same paths with the statistics of some of them gone. */
  ghost predicate Fewer(less: Group, group: Group)
  {
    && (forall p :: p in less <==> p in group)
    && (forall p :: p in less && less[p].Some? ==> group[p] == less[p])
  }

  lemma OrderedFewer(less: Group, group: Group, outer: Path, inner: Path)
    requires Fewer(less, group) && Ordered(less, outer, inner)
    ensures Ordered(group, outer, inner)
  {
  }

  /** Missing statistics can only add inversions. */
  lemma InversionsGrow(less: Group, group: Group, p: Path, pinned: bool)
    requires Fewer(less, group)
    ensures CpuInversion(group, pinned) ==> CpuInversion(less, pinned)
    ensures CudaInversion(group, pinned) ==> CudaInversion(less, pinned)
    ensures PathInversion(group, p) ==> PathInversion(less, p)
  {
    BeatsGrow(less, group, HostOrigin(false));
    BeatsGrow(less, group, HostOrigin(true));
    BeatsGrow(less, group, CudaGpuOrigin(false));
    BeatsGrow(less, group, CudaGpuOrigin(true));
    hide Beats;
  }

  lemma BeatsGrow(less: Group, group: Group, outer: Path)
    requires Fewer(less, group)
    ensures Beats(group, outer) ==> Beats(less, outer)
  {
    if Beats(group, outer) && Stat(group, outer).Some? && Stat(less, outer).Some? {
      var inner :| inner in outer.Nested() && inner in group && !Ordered(group, outer, inner);
      if Ordered(less, outer, inner) {
        OrderedFewer(less, group, outer, inner);
      }
      assert inner in outer.Nested() && inner in less && !Ordered(less, outer, inner);
    }
  }

  /** Every flag that is set in `c` is set in `d`. */
  ghost predicate NoStronger(c: Claim, d: Claim)
  {
    && c.speedup == d.speedup
    && (c.direction ==> d.direction) && (c.magnitude ==> d.magnitude) && (c.rev2 ==> d.rev2)
  }

  lemma SupportShrinks(baseline: CaseStats, candidate: CaseStats, more: bool, fewer: bool)
    requires fewer ==> more
    ensures NoStronger(Support(baseline, candidate, more), Support(baseline, candidate, fewer))
  {
  }

  /** Taking statistics away never makes an unsupported claim supported. */
  lemma ClaimsFailClosed(less: Group, group: Group, p: Path)
    requires Fewer(less, group)
    ensures EntryFor(less, p).Claimed? ==>
              && EntryFor(group, p).Claimed? && NoStronger(EntryFor(less, p).claim, EntryFor(group, p).claim)
              && (EntryFor(less, p).vsPageable.Some? ==>
                    && EntryFor(group, p).vsPageable.Some?
                    && NoStronger(EntryFor(less, p).vsPageable.value, EntryFor(group, p).vsPageable.value))
    ensures ResidentClaim(less).Some? ==>
              ResidentClaim(group).Some? && NoStronger(ResidentClaim(less).value, ResidentClaim(group).value)
  {
    EntryFailsClosed(less, group, p);
    InversionsGrow(less, group, p, false);
    hide Support, Compare, NoStronger, CudaInversion, CpuInversion, EntryFor;
    if ResidentClaim(less).Some? {
      SupportShrinks(less[Resident].value, less[ResidentGraph].value,
                     CudaInversion(less, false), CudaInversion(group, false));
    }
  }

  lemma EntryFailsClosed(less: Group, group: Group, p: Path)
    requires Fewer(less, group)
    ensures EntryFor(less, p).Claimed? ==>
              && EntryFor(group, p).Claimed? && NoStronger(EntryFor(less, p).claim, EntryFor(group, p).claim)
              && (EntryFor(less, p).vsPageable.Some? ==>
                    && EntryFor(group, p).vsPageable.Some?
                    && NoStronger(EntryFor(less, p).vsPageable.value, EntryFor(group, p).vsPageable.value))
  {
    InversionsGrow(less, group, p, false);
    hide Support, Compare, NoStronger, CudaInversion, CpuInversion;
    if EntryFor(less, p).Claimed? {
      SupportShrinks(less[p.Baseline().value].value, less[p].value, PathInversion(less, p), PathInversion(group, p));
      if p.IsPinned() && Stat(less, p.PageableTwin()).Some? {
        InversionsGrow(less, group, p.PageableTwin(), false);
        SupportShrinks(less[p.PageableTwin()].value, less[p].value,
                       PathInversion(less, p) || PathInversion(less, p.PageableTwin()),
                       PathInversion(group, p) || PathInversion(group, p.PageableTwin()));
      }
    }
  }

  /**
   A supported direction certifies the policy group of its path: no selected
   boundary that guards it lacks statistics or has a median below a selected path
   it contains.
   */
  lemma SupportedMeansNested(group: Group, p: Path, outer: Path, inner: Path)
    requires Guards(p, outer) && outer in group && inner in group && inner in outer.Nested()
    ensures EntryFor(group, p).Claimed? && EntryFor(group, p).claim.direction ==> Ordered(group, outer, inner)
  {
    hide Compare;
  }
}
