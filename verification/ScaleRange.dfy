/** When a scale is refused and when it cannot overflow, for every rounding that keeps numbers and order. */
module ScaleRange {
  import opened Words
  import opened Binary32
  import opened Team
  import opened PairwiseTree
  import opened MagnitudeScan
  import opened Scale
  import opened ScaleBounds

  // ---------- powers of two as bounds ----------

  /** A rounded number stays at or below a power of two that it was not above. */
  lemma RoundedBelowPower(ar: Arith, x: real, k: nat)
    requires ar.Valid() && 0.0 <= x <= Exp2(k) && k <= 127
    ensures ar.round(x) < INFINITY && Value(ar.round(x)) <= Exp2(k)
  {
    hide Exp2;
    PowerIsDyadic(k);
    RoundExact(ar, FRACTION, k - 23);
    hide Value, Dyadic;
    var w := ar.round(Exp2(k));
    if ar.round(x) < w {
      ValueMonotone(ar.round(x), w);
    }
  }

  lemma PowerIsDyadic(k: nat)
    ensures Dyadic(FRACTION, k - 23) == Exp2(k)
  {
    hide Exp2, Pow2;
    Exp2Add(k - 23, 23);
    Exp2Nat(23);
    Pow2Of23();
  }

  /** Every number of a list is finite and at most a power of two. */
  ghost predicate AllBelow(s: seq<AbsBits>, k: nat)
  {
    forall i :: 0 <= i < |s| ==> s[i] < INFINITY && Value(s[i]) <= Exp2(k)
  }

  lemma LevelBelow(ar: Arith, s: seq<AbsBits>, k: nat)
    requires ar.Valid() && AllBelow(s, k) && k < 127
    ensures AllBelow(PairLevel(s, ar.Add), k + 1)
  {
    hide Exp2, Value;
    var next := PairLevel(s, ar.Add);
    forall i | 0 <= i < |next|
      ensures next[i] < INFINITY && Value(next[i]) <= Exp2(k + 1)
    {
      PairLevelAt(s, i, ar.Add);
      Exp2Step(k);
      RoundedBelowPower(ar, Value(s[2 * i]) + Value(s[2 * i + 1]), k + 1);
    }
  }

  /** A tree doubles the bound once a level and cannot overflow before. */
  lemma {:induction false} TreeBelow(ar: Arith, s: seq<AbsBits>, k: nat, d: nat)
    requires ar.Valid() && |s| == Pow2(d) && AllBelow(s, k) && k + d <= 127
    ensures Root<AbsBits>(s, ar.Add) < INFINITY && Value(Root<AbsBits>(s, ar.Add)) <= Exp2(k + d)
    decreases d
  {
    hide Exp2, Value, Arith.Valid;
    if d != 0 {
      MoreLevels(d);
      RootStep(s, ar.Add);
      hide PairLevel, Root;
      LevelBelow(ar, s, k);
      TreeBelow(ar, PairLevel(s, ar.Add), k + 1, d - 1);
    }
  }

  // ---------- the total and the root ----------

  lemma TermsBelowOne(ar: Arith, values: seq<u32>, b: nat, maxAbs: AbsBits)
    requires ar.Valid() && Ready(values, maxAbs) && forall i :: 0 <= i < |values| ==> Magnitude(values[i]) <= maxAbs
    ensures AllBelow(BlockTerms(ar, values, b, maxAbs), 0)
  {
    hide Exp2, Value, Term;
    ValueOfOne();
    ValueOfZero();
    PowerOfNone();
    var s := BlockTerms(ar, values, b, maxAbs);
    forall i | 0 <= i < BLOCK
      ensures s[i] < INFINITY && Value(s[i]) <= Exp2(0)
    {
      var j := BLOCK * b + i;
      assert s[i] == TermAt(ar, values, j, maxAbs);
      if j < |values| {
        TermInRange(ar, values[j], maxAbs);
        if s[i] < ONE {
          ValueMonotone(s[i], ONE);
        }
      }
    }
  }

  lemma PowerOfNone()
    ensures Exp2(0) == 1.0
  {
  }

  /** The total of any input is finite: at most `256 * 2^depth`. */
  lemma TotalBelow(ar: Arith, values: seq<u32>, maxAbs: AbsBits)
    requires ar.Valid() && Ready(values, maxAbs) && forall i :: 0 <= i < |values| ==> Magnitude(values[i]) <= maxAbs
    requires Depth(|values|) <= 56
    ensures Total(ar, values, maxAbs) < INFINITY && Value(Total(ar, values, maxAbs)) <= Exp2(8 + Depth(|values|))
  {
    hide Exp2, Value, Arith.Valid, BlockTerms, Root, Pow2, Depth;
    var d := Depth(|values|);
    var partials := Partials(ar, values, maxAbs, d);
    EightLevels();
    Exp2Nat(8);
    ValueOfZero();
    forall b | 0 <= b < |partials|
      ensures partials[b] < INFINITY && Value(partials[b]) <= Exp2(8)
    {
      TermsBelowOne(ar, values, b, maxAbs);
      TreeBelow(ar, BlockTerms(ar, values, b, maxAbs), 0, 8);
    }
    TreeBelow(ar, partials, 8, d);
  }

  lemma ValueOfZero()
    ensures Value(0) == 0.0
  {
    ZeroIsZero(0);
  }

  lemma EightLevels()
    ensures Pow2(8) == BLOCK
  {
    Pow2Of32();
  }

  /** The root is finite as well, with half the exponent. */
  lemma RootBelowPower(ar: Arith, t: AbsBits, j: nat)
    requires ar.Valid() && t < INFINITY && Value(t) <= Exp2(2 * j) && j <= 127
    ensures ar.Sqrt(t) < INFINITY && Value(ar.Sqrt(t)) <= Exp2(j)
  {
    hide Exp2, Value;
    RootIs(ar, Value(t));
    hide Arith.Valid;
    var r := ar.root(Value(t));
    SquaredPower(j);
    SquareOrder(r, Exp2(j));
    RoundedBelowPower(ar, r, j);
  }

  lemma SquaredPower(j: nat)
    ensures Exp2(j) * Exp2(j) == Exp2(2 * j)
  {
    hide Exp2;
    Exp2Add(j, j);
  }

  /** Half of the levels of the whole tree, rounded up. */
  ghost function RootLevels(count: nat): (j: nat)
    ensures 2 * j >= 8 + Depth(count)
  {
    (9 + Depth(count)) / 2
  }

  /**
   Only the last product can overflow, and not even that one unless the largest
   magnitude is within a factor `2^((9 + depth) / 2)` of the end of the range.
   */
  lemma OverflowsLast(ar: Arith, values: seq<u32>, m: AbsBits)
    requires ar.Valid() && values != [] && |values| <= SIZE_MAX && Ready(values, m)
    requires forall i :: 0 <= i < |values| ==> Magnitude(values[i]) <= m
    ensures RootLevels(|values|) <= 127
    ensures Total(ar, values, m) < INFINITY && ar.Sqrt(Total(ar, values, m)) < INFINITY
    ensures Value(m) <= Exp2(127 - RootLevels(|values|)) ==> Rescaled(ar, values, m).0 == Ok
  {
    hide Exp2, Value, Arith.Valid, Total, Depth, Times, Arith.Mul, Arith.Sqrt;
    DepthBelow(|values|);
    TotalBelow(ar, values, m);
    var j, t := RootLevels(|values|), Total(ar, values, m);
    Exp2Order(8 + Depth(|values|), 2 * j);
    RootBelowPower(ar, t, j);
    if Value(m) <= Exp2(127 - j) {
      ProductBelowPower(Value(m), Value(ar.Sqrt(t)), Exp2(127 - j), Exp2(j));
      Exp2Add(127 - j, j);
      MulIs(ar, m, ar.Sqrt(t));
      RoundedBelowPower(ar, Times(Value(m), Value(ar.Sqrt(t))), 127);
    }
  }

  lemma ProductBelowPower(a: real, b: real, p: real, q: real)
    requires 0.0 <= a <= p && 0.0 <= b <= q
    ensures 0.0 <= Times(a, b) <= p * q
  {
    MulMonotone(b, q, a);
    MulMonotone(a, p, q);
    ScaleBounds.NonNegative(a, b);
  }

  /** Which status an input gets. */
  lemma ScaleStatus(ar: Arith, values: seq<u32>, capacity: Option<nat>)
    requires ar.Valid() && |values| <= SIZE_MAX
    ensures var status, m := ScaleOf(ar, values, capacity).0, MaxMagnitude(values);
            && (status == ErrNonfinite <==> exists i :: 0 <= i < |values| && !IsFinite(values[i]))
            && (status == ErrArgument <==>
                  && (forall i :: 0 <= i < |values| ==> IsFinite(values[i]))
                  && (exists i :: 0 <= i < |values| && Magnitude(values[i]) != 0)
                  && (capacity.None? || capacity.value < Pow2(Depth(|values|))))
            && (status == ErrScaleOverflow ==>
                  m < INFINITY && RootLevels(|values|) <= 127 && Value(m) > Exp2(127 - RootLevels(|values|)))
            && (status == Ok || status == ErrNonfinite || status == ErrArgument || status == ErrScaleOverflow)
  {
    hide Exp2, Value, Depth, Pow2, Arith.Valid;
    MaxDecides(values);
    var m := MaxMagnitude(values);
    if m < INFINITY && m > 0 {
      forall i | 0 <= i < |values|
        ensures Magnitude(values[i]) <= m
      {
        MaxBounds(values, i);
      }
      OverflowsLast(ar, values, m);
    }
    hide Rescaled, RootLevels;
  }
}
