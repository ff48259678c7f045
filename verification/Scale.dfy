/** The max-rescaled L2 scale: scalar with an adjacent-pair tree, threaded with bit-reversed halves. */
module Scale {
  import opened Words
  import opened Binary32
  import opened Team
  import opened PairwiseTree
  import opened MagnitudeScan

  /** The square of one value's ratio to the largest magnitude. */
  function Term(ar: Arith, x: u32, maxAbs: AbsBits): AbsBits
    requires IsFinite(x) && 0 < maxAbs < INFINITY
  {
    var ratio := ar.Div(Magnitude(x), maxAbs);
    ar.Mul(ratio, ratio)
  }

  ghost predicate Ready(values: seq<u32>, maxAbs: AbsBits)
  {
    AllFinite(values) && 0 < maxAbs < INFINITY
  }

  /** The depth of the tree over one block, which is 8; kept abstract so that trees stay folded in proofs. */
  ghost function BlockDepth(): (d: nat)
    ensures Pow2(d) == BLOCK
  {
    Pow2Of32();
    var d: nat :| Pow2(d) == BLOCK;
    d
  }

  lemma BlockDepthIs(d: nat)
    requires Pow2(d) == BLOCK
    ensures d == BlockDepth()
  {
    var e := BlockDepth();
    if d < e {
      Pow2Monotone(d, e - 1);
    } else if e < d {
      Pow2Monotone(e, d - 1);
    }
  }

  /** The 256 terms of block `b`, zero past the last value. */
  ghost function BlockTerms(ar: Arith, values: seq<u32>, b: nat, maxAbs: AbsBits): (s: seq<AbsBits>)
    requires Ready(values, maxAbs)
    ensures |s| == BLOCK
  {
    seq<AbsBits>(BLOCK, (i: int) requires 0 <= i < BLOCK => TermAt(ar, values, BLOCK * b + i, maxAbs))
  }

  ghost function TermAt(ar: Arith, values: seq<u32>, i: nat, maxAbs: AbsBits): AbsBits
    requires Ready(values, maxAbs)
  {
    if i < |values| then Term(ar, values[i], maxAbs) else 0
  }

  ghost function BlockTotal(ar: Arith, values: seq<u32>, b: nat, maxAbs: AbsBits): AbsBits
    requires Ready(values, maxAbs)
  {
    Root(BlockTerms(ar, values, b, maxAbs), ar.Add)
  }

  /** Block totals in block order, zero-padded to a power of two. */
  ghost function Partials(ar: Arith, values: seq<u32>, maxAbs: AbsBits, d: nat): (s: seq<AbsBits>)
    requires Ready(values, maxAbs)
    ensures |s| == Pow2(d)
  {
    seq(Pow2(d), b requires 0 <= b < Pow2(d) => PartialAt(ar, values, b, maxAbs))
  }

  ghost function PartialAt(ar: Arith, values: seq<u32>, b: nat, maxAbs: AbsBits): AbsBits
    requires Ready(values, maxAbs)
  {
    if b < Units(|values|) then BlockTotal(ar, values, b, maxAbs) else 0
  }

  /** The least number of doublings that reaches `units`. */
  function Doublings(units: nat, d: nat): (r: nat)
    ensures r >= d && units <= Pow2(r)
    ensures r == d || Pow2(r - 1) < units
    decreases units - Pow2(d)
  {
    if units <= Pow2(d) then d else Doublings(units, d + 1)
  }

  ghost function Depth(count: nat): nat { Doublings(Units(count), 0) }

  ghost function Total(ar: Arith, values: seq<u32>, maxAbs: AbsBits): AbsBits
    requires Ready(values, maxAbs)
  {
    Root(Partials(ar, values, maxAbs, Depth(|values|)), ar.Add)
  }

  /** Status and scale of a finite non-zero input with enough workspace. */
  ghost function Rescaled(ar: Arith, values: seq<u32>, maxAbs: AbsBits): (Status, AbsBits)
    requires Ready(values, maxAbs)
  {
    var scale := ar.Mul(maxAbs, ar.Sqrt(Total(ar, values, maxAbs)));
    if scale == INFINITY then (ErrScaleOverflow, 0) else (Ok, scale)
  }

  /** What both implementations return; `capacity` is `None` for a missing workspace. */
  ghost function ScaleOf(ar: Arith, values: seq<u32>, capacity: Option<nat>): (Status, AbsBits)
  {
    if values == [] then (Ok, 0)
    else if !AllFinite(values) then (ErrNonfinite, 0)
    else if MaxMagnitude(values) == 0 then (Ok, 0)
    else if capacity.None? || capacity.value < Pow2(Depth(|values|)) then (ErrArgument, 0)
    else
      MaxDecides(values);
      Rescaled(ar, values, MaxMagnitude(values))
  }

  /** The least power of two covering the blocks; 64-bit counts never overflow it. */
  method WorkspaceElements(count: nat) returns (padded: nat)
    requires count <= SIZE_MAX
    ensures count == 0 ==> padded == 0
    ensures count > 0 ==> padded == Pow2(Depth(count)) && padded <= TWO_64 / 256
  {
    if count == 0 {
      return 0;
    }
    var units := count / BLOCK;
    if count % BLOCK != 0 {
      units := units + 1;
    }
    padded := 1;
    ghost var d := 0;
    while padded < units
      invariant padded == Pow2(d) && Doublings(units, d) == Doublings(units, 0)
      invariant d > 0 ==> Pow2(d - 1) < units
      decreases units - padded
    {
      if padded > SIZE_MAX / 2 {
        assert false; // the guard that would return SIZE_MAX never fires
      }
      padded := padded * 2;
      d := d + 1;
    }
    PowerBelow(padded, d, units);
  }

  lemma Pow2Of56()
    ensures Pow2(56) == 0x100_0000_0000_0000
  {
    Pow2Of32();
    Pow2Add(32, 24);
    Pow2Add(8, 16);
    Pow2Add(8, 8);
  }

  lemma PowerBelow(p: nat, d: nat, units: nat)
    requires p == Pow2(d) && 0 < units <= 0x100_0000_0000_0000
    requires d > 0 ==> Pow2(d - 1) < units
    ensures p <= 0x100_0000_0000_0000
  {
    Pow2Of56();
    hide Pow2;
    if d > 56 {
      Pow2Monotone(56, d - 1);
    } else {
      Pow2Monotone(d, 56);
    }
  }

  /** One block, scalar: zero-fill, square the ratios, then the adjacent-pair tree. */
  method ReduceBlock(ar: Arith, values: seq<u32>, start: nat, ghost b: nat, maxAbs: AbsBits) returns (total: AbsBits)
    requires Ready(values, maxAbs) && start == BLOCK * b < |values|
    ensures total == BlockTotal(ar, values, b, maxAbs)
  {
    var terms := new AbsBits[BLOCK](_ => 0);
    SquareRatios(ar, values, start, b, maxAbs, terms);
    AdjacentTree(terms, BlockTerms(ar, values, b, maxAbs), BlockDepth(), BLOCK, ar.Add);
    total := terms[0];
  }

  method SquareRatios(ar: Arith, values: seq<u32>, start: nat, ghost b: nat, maxAbs: AbsBits, terms: array<AbsBits>)
    requires Ready(values, maxAbs) && start == BLOCK * b < |values|
    requires terms.Length == BLOCK && forall j :: 0 <= j < BLOCK ==> terms[j] == 0
    modifies terms
    ensures Holds(terms, BlockTerms(ar, values, b, maxAbs))
  {
    var live := if |values| - start < BLOCK then |values| - start else BLOCK;
    for i := 0 to live
      invariant forall j :: 0 <= j < i ==> terms[j] == TermAt(ar, values, start + j, maxAbs)
      invariant forall j :: i <= j < BLOCK ==> terms[j] == 0
    {
      var ratio := ar.Div(Magnitude(values[start + i]), maxAbs);
      terms[i] := ar.Mul(ratio, ratio);
    }
    assert forall j :: 0 <= j < BLOCK ==> terms[j] == TermAt(ar, values, start + j, maxAbs);
  }

  ghost predicate Input(values: Option<seq<u32>>, count: nat)
  {
    count <= SIZE_MAX && (values.Some? ==> |values.value| == count)
  }

  ghost predicate Workspace(partials: array?<AbsBits>, capacity: nat)
  {
    partials != null ==> capacity <= partials.Length
  }

  ghost function Capacity(partials: array?<AbsBits>, capacity: nat): Option<nat>
  {
    if partials == null then None else Some(capacity)
  }

  /** What a call reports: a missing non-empty input is an argument error. */
  ghost function Expected(ar: Arith, values: Option<seq<u32>>, count: nat, capacity: Option<nat>): (Status, AbsBits)
  {
    if count == 0 then (Ok, 0)
    else if values.None? then (ErrArgument, 0)
    else ScaleOf(ar, values.value, capacity)
  }

  /** How many workspace slots a call overwrites: the padded block count when it gets that far, otherwise none. */
  ghost function Used(values: Option<seq<u32>>, capacity: Option<nat>): nat
  {
    if values.None? || values.value == [] || !AllFinite(values.value) || MaxMagnitude(values.value) == 0 then 0
    else if capacity.None? || capacity.value < Pow2(Depth(|values.value|)) then 0
    else Pow2(Depth(|values.value|))
  }

  /** The slots from `n` on are as they were. */
  twostate predicate KeptFrom(partials: array?<AbsBits>, n: nat)
    reads partials
  {
    partials != null ==> n <= partials.Length && partials[n..] == old(partials[n..])
  }

  /** The scalar scale, with the block totals and their tree in the caller's workspace. */
  method ComputeScale(ar: Arith, values: Option<seq<u32>>, count: nat, partials: array?<AbsBits>, capacity: nat)
    returns (status: Status, scale: AbsBits)
    requires Input(values, count) && Workspace(partials, capacity)
    modifies partials
    ensures (status, scale) == Expected(ar, values, count, Capacity(partials, capacity))
    ensures KeptFrom(partials, Used(values, Capacity(partials, capacity)))
  {
    scale := 0;
    if count != 0 && values.None? {
      return ErrArgument, 0;
    }
    if count == 0 {
      return Ok, 0;
    }
    var maxAbs;
    status, maxAbs := ScanScalar(values.value);
    if status != Ok {
      return;
    }
    ZeroIsZero(maxAbs);
    if Value(maxAbs) == 0.0 {
      return Ok, 0;
    }
    var padded := WorkspaceElements(count);
    if partials == null || capacity < padded {
      return ErrArgument, 0;
    }
    var total := SumBlocks(ar, values.value, maxAbs, partials, padded);
    var root := ar.Sqrt(total);
    var result := ar.Mul(maxAbs, root);
    if result == INFINITY {
      return ErrScaleOverflow, 0;
    }
    scale := result;
  }

  method Clear(partials: array<AbsBits>, padded: nat)
    requires padded <= partials.Length
    modifies partials
    ensures forall j :: 0 <= j < padded ==> partials[j] == 0
    ensures forall j :: padded <= j < partials.Length ==> partials[j] == old(partials[j])
  {
    for i := 0 to padded
      invariant forall j :: 0 <= j < i ==> partials[j] == 0
      invariant forall j :: i <= j < partials.Length ==> partials[j] == old(partials[j])
    {
      partials[i] := 0;
    }
  }

  method SumBlocks(ar: Arith, values: seq<u32>, maxAbs: AbsBits, partials: array<AbsBits>, padded: nat)
    returns (total: AbsBits)
    requires Ready(values, maxAbs) && padded == Pow2(Depth(|values|)) <= partials.Length
    modifies partials
    ensures total == Total(ar, values, maxAbs) && KeptFrom(partials, padded)
  {
    ghost var d := Depth(|values|);
    ghost var leaves := Partials(ar, values, maxAbs, d);
    Clear(partials, padded);
    FillPartials(ar, values, maxAbs, partials, padded, leaves);
    AdjacentTree(partials, leaves, d, padded, ar.Add);
    total := partials[0];
  }

  /** Slot `b` of `leaves` is the total of block `b`, and the slots past the last block are zero. */
  ghost predicate Padded(ar: Arith, values: seq<u32>, maxAbs: AbsBits, leaves: seq<AbsBits>)
    requires Ready(values, maxAbs)
  {
    && Units(|values|) <= |leaves|
    && (forall b: nat {:trigger IsTotal(ar, values, b, maxAbs, leaves[b])} ::
          b < Units(|values|) ==> IsTotal(ar, values, b, maxAbs, leaves[b]))
    && (forall b :: Units(|values|) <= b < |leaves| ==> leaves[b] == 0)
  }

  ghost predicate IsTotal(ar: Arith, values: seq<u32>, b: nat, maxAbs: AbsBits, total: AbsBits)
    requires Ready(values, maxAbs)
  {
    total == BlockTotal(ar, values, b, maxAbs)
  }

  method FillPartials(ar: Arith, values: seq<u32>, maxAbs: AbsBits, partials: array<AbsBits>, padded: nat,
                      ghost leaves: seq<AbsBits>)
    requires Ready(values, maxAbs) && Padded(ar, values, maxAbs, leaves) && |leaves| == padded <= partials.Length
    requires forall j :: 0 <= j < padded ==> partials[j] == 0
    modifies partials
    ensures Holds(partials, leaves) && KeptFrom(partials, padded)
  {
    var units, start := Units(|values|), 0;
    for b := 0 to units
      invariant start == BLOCK * b
      invariant forall j :: 0 <= j < b ==> partials[j] == leaves[j]
      invariant forall j :: b <= j < padded ==> partials[j] == 0
      invariant forall j :: padded <= j < partials.Length ==> partials[j] == old(partials[j])
    {
      var total := ReduceBlock(ar, values, start, b, maxAbs);
      assert IsTotal(ar, values, b, maxAbs, leaves[b]);
      partials[b] := total;
      start := start + BLOCK;
    }
  }

  /** The rounded ratio and square of a zero are zero. */
  predicate ZeroExact(ar: Arith)
  {
    ar.round(0.0) == 0
  }

  lemma ZeroTerm(ar: Arith, maxAbs: AbsBits)
    requires ZeroExact(ar) && 0 < maxAbs < INFINITY
    ensures Term(ar, 0, maxAbs) == 0
  {
    assert Value(0) == 0.0;
    ZeroIsZero(maxAbs);
    assert ar.Div(0, maxAbs) == 0;
    assert ar.Mul(0, 0) == 0;
  }

  /** One block, vector form: gather the terms bit-reversed from a zero-padded block, then add halves. */
  method BlockSum(ar: Arith, values: seq<u32>, start: nat, ghost b: nat, maxAbs: AbsBits, rev: array<nat>)
    returns (total: AbsBits)
    requires Ready(values, maxAbs) && start == BLOCK * b < |values| && ZeroExact(ar)
    requires rev.Length == BLOCK && forall j :: 0 <= j < BLOCK ==> rev[j] == Rev(j, BlockDepth())
    ensures total == BlockTotal(ar, values, b, maxAbs)
  {
    var n := |values| - start;
    var block := if n < BLOCK then values[start..] + seq(BLOCK - n, _ => 0) else values[start..start + BLOCK];
    var terms := new AbsBits[BLOCK];
    GatherTerms(ar, values, start, b, block, maxAbs, rev, terms);
    HalvesTree(terms, BlockTerms(ar, values, b, maxAbs), BlockDepth(), BLOCK, ar.Add);
    total := terms[0];
  }

  method GatherTerms(ar: Arith, ghost values: seq<u32>, ghost start: nat, ghost b: nat, block: seq<u32>,
                     maxAbs: AbsBits, rev: array<nat>, terms: array<AbsBits>)
    requires Ready(values, maxAbs) && start == BLOCK * b < |values| && ZeroExact(ar)
    requires |block| == BLOCK == terms.Length
    requires forall i :: 0 <= i < BLOCK ==> block[i] == if start + i < |values| then values[start + i] else 0
    requires rev.Length == BLOCK && forall j :: 0 <= j < BLOCK ==> rev[j] == Rev(j, BlockDepth())
    requires rev as object != terms
    modifies terms
    ensures Holds(terms, Reversed(BlockTerms(ar, values, b, maxAbs), BlockDepth()))
  {
    ZeroTerm(ar, maxAbs);
    ghost var leaves := BlockTerms(ar, values, b, maxAbs);
    for j := 0 to BLOCK
      invariant forall i :: 0 <= i < j ==> terms[i] == leaves[Rev(i, BlockDepth())]
    {
      var r := rev[j];
      assert block[r] == if start + r < |values| then values[start + r] else 0;
      var ratio := ar.Div(Magnitude(block[r]), maxAbs);
      terms[j] := ar.Mul(ratio, ratio);
      assert terms[j] == leaves[Rev(j, BlockDepth())];
    }
  }

  /** The totals of the blocks `[begin, end)`, each stored at its bit-reversed slot. */
  method BlockSumsOf(ar: Arith, values: seq<u32>, maxAbs: AbsBits, bits: nat, rev: array<nat>,
                     begin: nat, end: nat, ghost at: nat -> nat, ghost goal: seq<AbsBits>)
    returns (log: Log<AbsBits>)
    requires Ready(values, maxAbs) && ZeroExact(ar) && begin <= end <= Units(|values|)
    requires rev.Length == BLOCK && forall j :: 0 <= j < BLOCK ==> rev[j] == Rev(j, BlockDepth())
    requires Slots(ar, values, maxAbs, bits, at, goal)
    ensures Covers(log, begin, end, at, goal)
  {
    log := [];
    for b := begin to end
      invariant Covers(log, begin, b, at, goal)
    {
      var slot := ReverseBits(b, bits);
      assert BLOCK * b < |values|;
      var total := BlockSum(ar, values, b * BLOCK, b, maxAbs, rev);
      assert Slot(ar, values, maxAbs, b, bits, at(b), goal);
      CoversMore(log, begin, b, at, goal);
      log := log + [Write(slot, total)];
    }
  }

  /** Slot `a` is the reversal of `b`, and `goal` has the total of block `b` there. */
  ghost predicate Slot(ar: Arith, values: seq<u32>, maxAbs: AbsBits, b: nat, bits: nat, a: nat, goal: seq<AbsBits>)
    requires Ready(values, maxAbs)
  {
    a == Rev(b, bits) < |goal| && goal[a] == BlockTotal(ar, values, b, maxAbs)
  }

  ghost predicate Slots(ar: Arith, values: seq<u32>, maxAbs: AbsBits, bits: nat, at: nat -> nat, goal: seq<AbsBits>)
    requires Ready(values, maxAbs)
  {
    forall b: nat {:trigger Slot(ar, values, maxAbs, b, bits, at(b), goal)} ::
      b < Units(|values|) ==> Slot(ar, values, maxAbs, b, bits, at(b), goal)
  }

  lemma ShareWithin(n: nat, t: nat, team: nat)
    requires t < team
    ensures ShareBegin(n, t, team) <= ShareBegin(n, t + 1, team) <= n
  {
    var cuts := ShareCuts(n, team);
    CutsMonotone(cuts, n, t, t + 1);
  }

  /** The bit reversals of the slots of one block. */
  method ReverseTable() returns (rev: array<nat>)
    ensures fresh(rev) && rev.Length == BLOCK
    ensures forall j :: 0 <= j < BLOCK ==> rev[j] == Rev(j, BlockDepth())
  {
    var bits := 8;
    assert Pow2(bits) == BLOCK by { Pow2Of32(); }
    BlockDepthIs(bits);
    rev := FillReversals(bits);
  }

  method FillReversals(bits: nat) returns (rev: array<nat>)
    ensures fresh(rev) && rev.Length == BLOCK
    ensures forall j :: 0 <= j < BLOCK ==> rev[j] == Rev(j, bits)
  {
    rev := new nat[BLOCK];
    for i := 0 to BLOCK
      invariant forall j :: 0 <= j < i ==> rev[j] == Rev(j, bits)
    {
      var r := ReverseBits(i, bits);
      rev[i] := r;
    }
  }

  /** The exponent of a power of two, by counting doublings. */
  method ExponentOf(padded: nat, ghost d: nat) returns (bits: nat)
    requires padded == Pow2(d)
    ensures bits == d
  {
    bits := 0;
    var power := 1;
    while power < padded
      invariant power == Pow2(bits) && bits <= d
      decreases d - bits
    {
      if bits == d {
        assert false;
      }
      power := 2 * power;
      bits := bits + 1;
    }
    if bits < d {
      Pow2Monotone(bits, d - 1);
      assert false;
    }
  }

  /** The workspace a finished team must leave: reversed block totals, then whatever was there. */
  lemma GoalFits(ar: Arith, values: seq<u32>, maxAbs: AbsBits, d: nat, leaves: seq<AbsBits>,
                 goal: seq<AbsBits>, at: nat -> nat)
    requires Ready(values, maxAbs) && Padded(ar, values, maxAbs, leaves) && |leaves| == Pow2(d) <= |goal|
    requires goal[..|leaves|] == Reversed(leaves, d)
    requires forall b: nat :: at(b) == Rev(b, d)
    ensures Slots(ar, values, maxAbs, d, at, goal)
    ensures forall a :: 0 <= a < |leaves| && (forall b: nat :: b < Units(|values|) ==> at(b) != a) ==> goal[a] == 0
  {
    hide Root, Rev, Pow2;
    forall b: nat | b < Units(|values|)
      ensures Slot(ar, values, maxAbs, b, d, at(b), goal)
    {
      RevInvolution(b, d);
      assert goal[at(b)] == Reversed(leaves, d)[at(b)] == leaves[b];
      assert IsTotal(ar, values, b, maxAbs, leaves[b]);
    }
    forall a | 0 <= a < |leaves| && (forall b: nat :: b < Units(|values|) ==> at(b) != a)
      ensures goal[a] == 0
    {
      RevInvolution(a, d);
      assert at(Rev(a, d)) == a;
      assert goal[a] == Reversed(leaves, d)[a] == leaves[Rev(a, d)];
    }
  }

  /** Every thread computes its share of the block totals; any interleaving fills the workspace. */
  method SumBlocksByTeam(ar: Arith, values: seq<u32>, maxAbs: AbsBits, partials: array<AbsBits>, padded: nat,
                         team: nat, schedule: seq<nat>)
    returns (total: AbsBits)
    requires Ready(values, maxAbs) && ZeroExact(ar) && padded == Pow2(Depth(|values|)) <= partials.Length
    requires team > 0 && Fair(schedule, ShareCuts(Units(|values|), team))
    modifies partials
    ensures total == Total(ar, values, maxAbs) && KeptFrom(partials, padded)
  {
    hide Root, Rev, Pow2;
    ghost var d := Depth(|values|);
    ghost var leaves := Partials(ar, values, maxAbs, d);
    ghost var at: nat -> nat := b => Rev(b, d);
    Clear(partials, padded);
    var bits := ExponentOf(padded, d);
    var rev := ReverseTable();
    ghost var goal := Reversed(leaves, d) + partials[padded..];
    GoalFits(ar, values, maxAbs, d, leaves, goal, at);
    var logs := BlockSumsByThread(ar, values, maxAbs, bits, rev, team, at, goal);
    StoreTotals(values, partials, padded, logs, team, schedule, at, goal);
    assert Holds(partials, Reversed(leaves, d));
    HalvesTree(partials, leaves, d, padded, ar.Add);
    total := partials[0];
  }

  method StoreTotals(ghost values: seq<u32>, partials: array<AbsBits>, ghost padded: nat, logs: seq<Log<AbsBits>>,
                     ghost team: nat, schedule: seq<nat>, ghost at: nat -> nat, ghost goal: seq<AbsBits>)
    requires team > 0 && Fair(schedule, ShareCuts(Units(|values|), team))
    requires |goal| == partials.Length >= padded
    requires Shares(logs, ShareCuts(Units(|values|), team), at, goal)
    requires forall a :: 0 <= a < padded ==> partials[a] == 0
    requires forall a :: padded <= a < partials.Length ==> goal[a] == partials[a]
    requires forall a :: 0 <= a < padded && (forall b: nat :: b < Units(|values|) ==> at(b) != a) ==> goal[a] == 0
    modifies partials
    ensures partials[..] == goal
  {
    RunTeam(partials, logs, schedule, ShareCuts(Units(|values|), team), Units(|values|), at, goal);
  }

  method BlockSumsByThread(ar: Arith, values: seq<u32>, maxAbs: AbsBits, bits: nat, rev: array<nat>,
                           team: nat, ghost at: nat -> nat, ghost goal: seq<AbsBits>)
    returns (logs: seq<Log<AbsBits>>)
    requires Ready(values, maxAbs) && ZeroExact(ar) && team > 0
    requires rev.Length == BLOCK && forall j :: 0 <= j < BLOCK ==> rev[j] == Rev(j, BlockDepth())
    requires Slots(ar, values, maxAbs, bits, at, goal)
    ensures |logs| == team && Shares(logs, ShareCuts(Units(|values|), team), at, goal)
  {
    hide Root, Rev, Pow2;
    logs := [];
    ghost var cuts := ShareCuts(Units(|values|), team);
    for t := 0 to team
      invariant |logs| == t
      invariant forall i :: 0 <= i < t ==> Covers(logs[i], cuts[i], cuts[i + 1], at, goal)
    {
      var begin, end := Split(Units(|values|), t, team);
      ShareWithin(Units(|values|), t, team);
      var log := BlockSumsOf(ar, values, maxAbs, bits, rev, begin, end, at, goal);
      logs := logs + [log];
    }
  }

  /** The threaded scale returns what the scalar one returns, for every team and every interleaving. */
  method ComputeScaleByTeam(ar: Arith, values: Option<seq<u32>>, count: nat, partials: array?<AbsBits>, capacity: nat,
                            team: nat, order: seq<nat>, schedule: seq<nat>)
    returns (status: Status, scale: AbsBits)
    requires Input(values, count) && Workspace(partials, capacity) && ZeroExact(ar)
    requires Arrivals(order, team) && Fair(schedule, ShareCuts(Units(count), team))
    modifies partials
    ensures (status, scale) == Expected(ar, values, count, Capacity(partials, capacity))
    ensures KeptFrom(partials, Used(values, Capacity(partials, capacity)))
  {
    scale := 0;
    if count != 0 && values.None? {
      return ErrArgument, 0;
    }
    if count == 0 {
      return Ok, 0;
    }
    var maxBits := MaxMagnitudeBits(values.value, team, order);
    MaxDecides(values.value);
    if maxBits >= INFINITY {
      return ErrNonfinite, 0;
    }
    if maxBits == 0 {
      return Ok, 0;
    }
    var padded := WorkspaceElements(count);
    if partials == null || capacity < padded {
      return ErrArgument, 0;
    }
    var total := SumBlocksByTeam(ar, values.value, maxBits, partials, padded, team, schedule);
    var root := ar.Sqrt(total);
    var result := ar.Mul(maxBits, root);
    if result == INFINITY {
      return ErrScaleOverflow, 0;
    }
    return Ok, result;
  }
}
