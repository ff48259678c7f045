/**
 The optimized device reduction: eight leaves per lane, shuffles inside a warp,
 and wide spans above. Each shape gives the adjacent-pair tree, for any operator.
 */
module WarpTree {
  import opened Words
  import opened Binary32
  import opened Team
  import opened PairwiseTree
  import opened Scale

  const WARP := 32
  const LEAVES_PER_LANE := 8
  const TREE_SPAN := 2048

  lemma SpanFits(n: nat, w: nat, i: nat)
    requires w > 0 && i < n / w
    ensures i * w <= i * w + w <= n && (i + 1) * w == i * w + w
  {
    QuotientBounds(n, w);
    MulOrder(i + 1, n / w, w);
    Distribute(i, 1, w);
  }

  /** Run `i` of `w` adjacent items. */
  function Span<T>(s: seq<T>, w: nat, i: nat): (r: seq<T>)
    requires w > 0 && i < |s| / w
    ensures |r| == w
  {
    SpanFits(|s|, w, i);
    s[i * w..i * w + w]
  }

  /** The tree of every run. */
  function SpanRoots<T>(s: seq<T>, w: nat, add: (T, T) -> T): (r: seq<T>)
    requires w > 0
    ensures |r| == |s| / w
  {
    seq(|s| / w, i requires 0 <= i < |s| / w => Root(Span(s, w, i), add))
  }

  lemma Exact(k: nat, w: nat)
    requires w > 0
    ensures (k * w) / w == k
  {
    DivModUnique(k * w, w, k, 0);
  }

  lemma SpanOfHalves<T>(a: seq<T>, b: seq<T>, w: nat, k: nat, i: nat)
    requires w > 0 && |a| == |b| == k * w && i < k
    ensures |a| / w == |b| / w == k && |a + b| / w == 2 * k
    ensures Span(a + b, w, i) == Span(a, w, i)
    ensures Span(a + b, w, k + i) == Span(b, w, i)
  {
    Exact(k, w);
    Distribute(k, k, w);
    Exact(k + k, w);
    Distribute(k, i, w);
    SpanFits(|a|, w, i);
  }

  lemma SpanRootsSplit<T>(a: seq<T>, b: seq<T>, w: nat, k: nat, add: (T, T) -> T)
    requires w > 0 && |a| == |b| == k * w
    ensures SpanRoots(a + b, w, add) == SpanRoots(a, w, add) + SpanRoots(b, w, add)
  {
    Exact(k, w);
    Distribute(k, k, w);
    Exact(k + k, w);
    var all, two := SpanRoots(a + b, w, add), SpanRoots(a, w, add) + SpanRoots(b, w, add);
    hide Root, Span;
    forall i | 0 <= i < |all|
      ensures all[i] == two[i]
    {
      SpanOfHalves(a, b, w, k, if i < k then i else i - k);
    }
  }

  /** The tree over the trees of adjacent runs is the tree over everything. */
  lemma {:induction false} SpansCompose<T>(s: seq<T>, a: nat, b: nat, add: (T, T) -> T)
    requires |s| == Pow2(b) * Pow2(a)
    ensures |SpanRoots(s, Pow2(a), add)| == Pow2(b)
    ensures Root(SpanRoots(s, Pow2(a), add), add) == Root(s, add)
    decreases b
  {
    hide Root, SpanRoots, Pow2;
    if b == 0 {
      OneSpan(s, a, add);
    } else {
      var half := HalfLength(a, b, |s|);
      var x, y := s[..half], s[half..];
      assert s == x + y;
      SpansCompose(x, a, b - 1, add);
      SpansCompose(y, a, b - 1, add);
      SpansJoin(x, y, a, b - 1, add);
    }
  }

  lemma OneSpan<T>(s: seq<T>, a: nat, add: (T, T) -> T)
    requires |s| == Pow2(0) * Pow2(a)
    ensures |SpanRoots(s, Pow2(a), add)| == Pow2(0)
    ensures Root(SpanRoots(s, Pow2(a), add), add) == Root(s, add)
  {
    hide Root, SpanRoots;
    assert Pow2(0) == 1;
    SingleSpan(s, Pow2(a), add);
  }

  lemma HalfLength(a: nat, b: nat, n: nat) returns (half: nat)
    requires b > 0 && n == Pow2(b) * Pow2(a)
    ensures half == Pow2(b - 1) * Pow2(a) && n == half + half
  {
    half := Pow2(b - 1) * Pow2(a);
    Distribute(Pow2(b - 1), Pow2(b - 1), Pow2(a));
  }

  /** Two lists whose spans compose make one list whose spans compose. */
  lemma SpansJoin<T>(x: seq<T>, y: seq<T>, a: nat, b: nat, add: (T, T) -> T)
    requires |x| == |y| == Pow2(b) * Pow2(a)
    requires |SpanRoots(x, Pow2(a), add)| == |SpanRoots(y, Pow2(a), add)| == Pow2(b)
    requires Root(SpanRoots(x, Pow2(a), add), add) == Root(x, add)
    requires Root(SpanRoots(y, Pow2(a), add), add) == Root(y, add)
    ensures |SpanRoots(x + y, Pow2(a), add)| == Pow2(b + 1)
    ensures Root(SpanRoots(x + y, Pow2(a), add), add) == Root(x + y, add)
  {
    Pow2Add(b, a);
    assert Pow2(b + 1) == 2 * Pow2(b);
    hide Root, SpanRoots, Pow2;
    SpanRootsSplit(x, y, Pow2(a), Pow2(b), add);
    RootSplits(SpanRoots(x, Pow2(a), add), SpanRoots(y, Pow2(a), add), b, add);
    RootSplits(x, y, b + a, add);
  }

  lemma SingleSpan<T>(s: seq<T>, w: nat, add: (T, T) -> T)
    requires |s| == w > 0
    ensures |SpanRoots(s, w, add)| == 1 && Root(SpanRoots(s, w, add), add) == Root(s, add)
  {
    Exact(1, w);
    assert Span(s, w, 0) == s;
    OneLeft(SpanRoots(s, w, add), add);
    hide Root;
  }

  // ---------- one warp ----------

  /** Every lane adds the value of the lane `offset` above; past the warp it gets its own value back. */
  function ShuffledLane<T>(lanes: seq<T>, offset: nat, l: nat, add: (T, T) -> T): T
    requires l < |lanes|
  {
    add(lanes[l], if l + offset < |lanes| then lanes[l + offset] else lanes[l])
  }

  function Shuffled<T>(lanes: seq<T>, offset: nat, add: (T, T) -> T): (r: seq<T>)
    ensures |r| == |lanes| && forall l :: 0 <= l < |r| ==> r[l] == ShuffledLane(lanes, offset, l, add)
  {
    seq(|lanes|, l requires 0 <= l < |lanes| => ShuffledLane(lanes, offset, l, add))
  }

  /** Lane `q d` holds the tree of the `d` lanes from it on; what other lanes hold does not matter. */
  ghost predicate Gathered<T>(lanes: seq<T>, first: seq<T>, d: nat, add: (T, T) -> T)
    requires d > 0
  {
    && |lanes| == |first|
    && forall q: nat :: q < |first| / d ==> LaneHolds(lanes, first, d, q, add)
  }

  ghost predicate LaneHolds<T>(lanes: seq<T>, first: seq<T>, d: nat, q: nat, add: (T, T) -> T)
    requires d > 0 && |lanes| == |first| && q < |first| / d
  {
    SpanFits(|first|, d, q);
    lanes[q * d] == Root(Span(first, d, q), add)
  }

  lemma PairOfSpans<T>(first: seq<T>, k: nat, q: nat)
    requires q < |first| / Pow2(k + 1)
    ensures 2 * q + 1 < |first| / Pow2(k)
    ensures Span(first, Pow2(k + 1), q) == Span(first, Pow2(k), 2 * q) + Span(first, Pow2(k), 2 * q + 1)
    ensures q * Pow2(k + 1) == 2 * q * Pow2(k) && (2 * q + 1) * Pow2(k) == 2 * q * Pow2(k) + Pow2(k)
  {
    assert Pow2(k + 1) == 2 * Pow2(k);
    hide Pow2;
    TwoSpans(first, Pow2(k), q);
  }

  lemma TwoSpans<T>(first: seq<T>, d: nat, q: nat)
    requires d > 0 && q < |first| / (2 * d)
    ensures 2 * q + 1 < |first| / d
    ensures Span(first, 2 * d, q) == Span(first, d, 2 * q) + Span(first, d, 2 * q + 1)
    ensures q * (2 * d) == 2 * q * d && (2 * q + 1) * d == 2 * q * d + d
  {
    TwoPlaces(|first|, d, q);
    SpanFits(|first|, d, 2 * q);
    SpanFits(|first|, d, 2 * q + 1);
    SpanFits(|first|, 2 * d, q);
  }

  lemma TwoPlaces(n: nat, d: nat, q: nat)
    requires d > 0 && q < n / (2 * d)
    ensures 2 * q + 1 < n / d && q * (2 * d) == 2 * q * d && (2 * q + 1) * d == 2 * q * d + d
  {
    SpanFits(n, 2 * d, q);
    Reorder(q, d);
    Distribute(2 * q, 1, d);
    Distribute(2 * q, 2, d);
    QuotientBounds(n, d);
    MulOrder(2 * q + 2, n / d, d);
    Distribute(n / d, 1, d);
    MulOrder(2 * q + 2, n / d + 1, d);
  }

  lemma Reorder(q: nat, d: nat)
    ensures q * (2 * d) == 2 * q * d
  {
  }

  lemma ShuffleStep<T>(lanes: seq<T>, first: seq<T>, k: nat, add: (T, T) -> T)
    requires Gathered(lanes, first, Pow2(k), add)
    ensures Gathered(Shuffled(lanes, Pow2(k), add), first, Pow2(k + 1), add)
  {
    hide Shuffled, LaneHolds, Pow2;
    var next, wide := Shuffled(lanes, Pow2(k), add), Pow2(k + 1);
    forall q: nat | q < |first| / wide
      ensures LaneHolds(next, first, wide, q, add)
    {
      PairOfSpans(first, k, q);
      LaneStep(lanes, first, k, q, add);
    }
  }

  lemma LaneStep<T>(lanes: seq<T>, first: seq<T>, k: nat, q: nat, add: (T, T) -> T)
    requires |lanes| == |first| && q < |first| / Pow2(k + 1) && 2 * q + 1 < |first| / Pow2(k)
    requires LaneHolds(lanes, first, Pow2(k), 2 * q, add) && LaneHolds(lanes, first, Pow2(k), 2 * q + 1, add)
    ensures LaneHolds(Shuffled(lanes, Pow2(k), add), first, Pow2(k + 1), q, add)
  {
    hide Pow2, Span, Root, Shuffled, ShuffledLane, LaneHolds;
    PairOfSpans(first, k, q);
    LaneValue(lanes, first, Pow2(k), 2 * q, add);
    LaneValue(lanes, first, Pow2(k), 2 * q + 1, add);
    SpanFits(|first|, Pow2(k + 1), q);
    RootSplits(Span(first, Pow2(k), 2 * q), Span(first, Pow2(k), 2 * q + 1), k, add);
    ShuffledAt(lanes, Pow2(k), q * Pow2(k + 1), add);
    LaneIs(Shuffled(lanes, Pow2(k), add), first, Pow2(k + 1), q, add);
  }

  lemma ShuffledAt<T>(lanes: seq<T>, d: nat, at: nat, add: (T, T) -> T)
    requires at + d < |lanes|
    ensures Shuffled(lanes, d, add)[at] == add(lanes[at], lanes[at + d])
  {
  }

  lemma LaneValue<T>(lanes: seq<T>, first: seq<T>, d: nat, q: nat, add: (T, T) -> T)
    requires d > 0 && |lanes| == |first| && q < |first| / d && LaneHolds(lanes, first, d, q, add)
    ensures q * d < |lanes| && lanes[q * d] == Root(Span(first, d, q), add)
  {
    SpanFits(|first|, d, q);
    hide Root, Span;
  }

  lemma LaneIs<T>(lanes: seq<T>, first: seq<T>, d: nat, q: nat, add: (T, T) -> T)
    requires d > 0 && |lanes| == |first| && q < |first| / d && q * d < |lanes|
    requires lanes[q * d] == Root(Span(first, d, q), add)
    ensures LaneHolds(lanes, first, d, q, add)
  {
    hide Root, Span;
  }

  /** Shuffles with offsets 1, 2, 4, ... leave the tree of the whole warp in lane 0. */
  method WarpSum<T>(first: seq<T>, ghost m: nat, add: (T, T) -> T) returns (sum: T)
    requires |first| == Pow2(m)
    ensures sum == Root(first, add)
  {
    hide Root;
    var lanes, offset := first, 1;
    ghost var k := 0;
    LanesStart(first, add);
    while offset < |first|
      invariant k <= m && offset == Pow2(k) && Gathered(lanes, first, offset, add)
      decreases |first| - offset
    {
      assert k < m;
      ShuffleStep(lanes, first, k, add);
      lanes := Shuffled(lanes, offset, add);
      offset := offset * 2;
      k := k + 1;
      Pow2Monotone(k, m);
    }
    if k < m {
      Pow2Monotone(k + 1, m);
    }
    assert offset == |first|;
    Exact(1, offset);
    assert LaneHolds(lanes, first, offset, 0, add);
    assert Span(first, offset, 0) == first;
    sum := lanes[0];
  }

  lemma LanesStart<T>(first: seq<T>, add: (T, T) -> T)
    ensures Gathered(first, first, 1, add)
  {
    forall q: nat | q < |first| / 1
      ensures LaneHolds(first, first, 1, q, add)
    {
      assert Span(first, 1, q) == [first[q]];
    }
  }

  /** A lane adds its eight leaves as a tree of three levels. */
  function LaneSum<T>(t: seq<T>, add: (T, T) -> T): T
    requires |t| == LEAVES_PER_LANE
  {
    add(add(add(t[0], t[1]), add(t[2], t[3])), add(add(t[4], t[5]), add(t[6], t[7])))
  }

  lemma LaneSumIsRoot<T>(t: seq<T>, add: (T, T) -> T)
    requires |t| == LEAVES_PER_LANE
    ensures LaneSum(t, add) == Root(t, add)
  {
    var pairs := [add(t[0], t[1]), add(t[2], t[3]), add(t[4], t[5]), add(t[6], t[7])];
    PairLevelIs(t, pairs, add);
    var fours := [add(pairs[0], pairs[1]), add(pairs[2], pairs[3])];
    PairLevelIs(pairs, fours, add);
    var last := [add(fours[0], fours[1])];
    PairLevelIs(fours, last, add);
    RootStep(t, add);
    RootStep(pairs, add);
    RootStep(fours, add);
    OneLeft(last, add);
    hide Root, PairLevel;
  }

  /** One block on one warp: lane by lane from the values, then the shuffles. */
  method WarpBlockTotal(ar: Arith, values: seq<u32>, chunk: nat, maxAbs: AbsBits) returns (total: AbsBits)
    requires Ready(values, maxAbs) && BLOCK * chunk < |values|
    ensures total == BlockTotal(ar, values, chunk, maxAbs)
  {
    hide Root;
    ghost var terms := BlockTerms(ar, values, chunk, maxAbs);
    var lanes: seq<AbsBits> := [];
    for l := 0 to WARP
      invariant |lanes| == l && forall j :: 0 <= j < l ==> lanes[j] == Root(Span(terms, LEAVES_PER_LANE, j), ar.Add)
    {
      var t := LaneTerms(ar, values, chunk, l, maxAbs);
      LaneSumIsRoot(t, ar.Add);
      lanes := lanes + [LaneSum(t, ar.Add)];
    }
    assert lanes == SpanRoots(terms, LEAVES_PER_LANE, ar.Add);
    WarpShape();
    total := WarpSum(lanes, 5, ar.Add);
    SpansCompose(terms, 3, 5, ar.Add);
  }

  lemma WarpShape()
    ensures Pow2(3) == LEAVES_PER_LANE && Pow2(5) == WARP
  {
    assert Pow2(2) == 4;
  }

  /**
   The eight terms of a lane: loaded together when they are all there, otherwise
   one by one with zero past the last.
   */
  method LaneTerms(ar: Arith, values: seq<u32>, chunk: nat, l: nat, maxAbs: AbsBits) returns (t: seq<AbsBits>)
    requires Ready(values, maxAbs) && l < WARP
    ensures |t| == LEAVES_PER_LANE && t == Span(BlockTerms(ar, values, chunk, maxAbs), LEAVES_PER_LANE, l)
  {
    hide Term;
    var base := chunk * BLOCK + l * LEAVES_PER_LANE;
    ghost var all := BlockTerms(ar, values, chunk, maxAbs);
    assert forall k :: 0 <= k < LEAVES_PER_LANE ==>
             Span(all, LEAVES_PER_LANE, l)[k] == TermAt(ar, values, base + k, maxAbs);
    if base + LEAVES_PER_LANE <= |values| {
      t := [Term(ar, values[base], maxAbs), Term(ar, values[base + 1], maxAbs),
            Term(ar, values[base + 2], maxAbs), Term(ar, values[base + 3], maxAbs),
            Term(ar, values[base + 4], maxAbs), Term(ar, values[base + 5], maxAbs),
            Term(ar, values[base + 6], maxAbs), Term(ar, values[base + 7], maxAbs)];
    } else {
      t := [];
      for k := 0 to LEAVES_PER_LANE
        invariant |t| == k && forall j :: 0 <= j < k ==> t[j] == TermAt(ar, values, base + j, maxAbs)
      {
        t := t + [if base + k < |values| then Term(ar, values[base + k], maxAbs) else 0];
      }
    }
  }

  // ---------- wide spans ----------

  /** Level by level from one buffer into the other; the slots in front hold the current level. */
  method ReduceBuffers<T>(a: array<T>, b: array<T>, ghost leaves: seq<T>, ghost e: nat, add: (T, T) -> T)
    returns (root: T)
    requires a != b && a.Length == b.Length == |leaves| == Pow2(e) && Holds(a, leaves)
    modifies a, b
    ensures root == Root(leaves, add)
  {
    hide Root, PairLevel, Pow2;
    var source, target, width := a, b, a.Length / 2;
    ghost var level, m := leaves, e;
    while width != 0
      invariant (source == a && target == b) || (source == b && target == a)
      invariant |level| == Pow2(m) && width == |level| / 2 && Holds(source, level)
      invariant Root(level, add) == Root(leaves, add)
      decreases width
    {
      MoreLevels(m);
      NextLevel(source, target, level, width, add);
      RootStep(level, add);
      source, target := target, source;
      level, m, width := PairLevel(level, add), m - 1, width / 2;
    }
    OneLeft(level, add);
    root := source[0];
  }

  /** One run of `span` inputs, loaded and reduced. */
  method ReduceSegment<T>(input: seq<T>, ghost e: nat, span: nat, segment: nat, add: (T, T) -> T) returns (root: T)
    requires span == Pow2(e) && segment < |input| / span
    ensures root == Root(Span(input, span, segment), add)
  {
    hide Root, Pow2;
    var source := LoadSegment(input, span, segment);
    var target := LoadSegment(input, span, segment);
    root := ReduceBuffers(source, target, Span(input, span, segment), e, add);
  }

  method LoadSegment<T>(input: seq<T>, span: nat, segment: nat) returns (buffer: array<T>)
    requires span > 0 && segment < |input| / span
    ensures fresh(buffer) && buffer[..] == Span(input, span, segment)
  {
    SpanFits(|input|, span, segment);
    buffer := new T[span](k requires 0 <= k < span => input[segment * span + k]);
  }

  method NextLevel<T>(source: array<T>, target: array<T>, ghost level: seq<T>, width: nat, add: (T, T) -> T)
    requires source != target && source.Length == target.Length && width == |level| / 2 && |level| % 2 == 0
    requires Holds(source, level)
    modifies target
    ensures Holds(target, PairLevel(level, add))
  {
    for k := 0 to width
      invariant forall j :: 0 <= j < k ==> target[j] == add(level[2 * j], level[2 * j + 1])
      invariant source[..] == old(source[..])
    {
      assert source[2 * k] == level[2 * k] && source[2 * k + 1] == level[2 * k + 1];
      target[k] := add(source[2 * k], source[2 * k + 1]);
    }
    PairLevelIs(level, target[..width], add);
  }

  method ReduceTree<T>(input: seq<T>, ghost e: nat, span: nat, add: (T, T) -> T) returns (output: seq<T>)
    requires span == Pow2(e)
    ensures output == SpanRoots(input, span, add)
  {
    hide Root, Span, Pow2;
    output := [];
    for segment := 0 to |input| / span
      invariant |output| == segment && forall j :: 0 <= j < segment ==> output[j] == Root(Span(input, span, j), add)
    {
      var root := ReduceSegment(input, e, span, segment, add);
      output := output + [root];
    }
  }

  /** Launch after launch, each reducing runs of at most 2048, until one value is left. */
  method SpanTree<T>(partials: seq<T>, ghost d: nat, add: (T, T) -> T) returns (sum: T)
    requires |partials| == Pow2(d)
    ensures sum == Root(partials, add)
  {
    hide SpanRoots, Root;
    var input := partials;
    ghost var m := d;
    while |input| > 1
      invariant |input| == Pow2(m) && Root(input, add) == Root(partials, add)
      decreases |input|
    {
      var span := if |input| < TREE_SPAN then |input| else TREE_SPAN;
      ghost var e := SpanExponent(m, span);
      Pow2Add(m - e, e);
      SpansCompose(input, e, m - e, add);
      MoreLevels(e);
      ShrinksBySpan(m, e);
      input := ReduceTree(input, e, span, add);
      m := m - e;
    }
    OneLeft(input, add);
    sum := input[0];
  }

  lemma OneLeft<T>(s: seq<T>, add: (T, T) -> T)
    requires |s| == 1
    ensures Root(s, add) == s[0]
  {
  }

  lemma ShrinksBySpan(m: nat, e: nat)
    requires 0 < e <= m
    ensures Pow2(m - e) < Pow2(m)
  {
    Pow2Monotone(m - e, m - 1);
  }

  /** The exponent of a span: all of a short input, or 2048. */
  lemma SpanExponent(m: nat, span: nat) returns (e: nat)
    requires Pow2(m) > 1 && span == if Pow2(m) < TREE_SPAN then Pow2(m) else TREE_SPAN
    ensures e <= m && span == Pow2(e) && span > 1
  {
    Pow2Of11();
    hide Pow2;
    if Pow2(m) < TREE_SPAN {
      e := m;
    } else {
      e := 11;
      if m < 11 {
        Pow2Strict(m, 11);
      }
    }
  }

  lemma Pow2Of11()
    ensures Pow2(11) == TREE_SPAN
  {
    WarpShape();
    Pow2Add(5, 6);
    Pow2Add(3, 3);
  }

  lemma Pow2Strict(a: nat, b: nat)
    requires a < b
    ensures Pow2(a) < Pow2(b)
  {
    Pow2Monotone(a, b - 1);
  }

  // ---------- the whole device sum ----------

  /** Every block on a warp, zero in the padding, then the spans: the total that the scalar code computes. */
  method DeviceTotal(ar: Arith, values: seq<u32>, maxAbs: AbsBits) returns (total: AbsBits)
    requires Ready(values, maxAbs) && |values| <= SIZE_MAX && values != []
    ensures total == Total(ar, values, maxAbs)
  {
    hide BlockTotal, Root;
    var padded := WorkspaceElements(|values|);
    var units := Units(|values|);
    ghost var d := Depth(|values|);
    ghost var goal := Partials(ar, values, maxAbs, d);
    var partials: seq<AbsBits> := [];
    for chunk := 0 to padded
      invariant |partials| == chunk && forall j :: 0 <= j < chunk ==> partials[j] == goal[j]
    {
      var sum := 0;
      if chunk < units {
        sum := WarpBlockTotal(ar, values, chunk, maxAbs);
      }
      assert sum == PartialAt(ar, values, chunk, maxAbs);
      partials := partials + [sum];
    }
    assert partials == goal;
    total := SpanTree(partials, d, ar.Add);
  }
}
