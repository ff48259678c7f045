/**
 How far the rounded scale can be from the exact Euclidean norm, and why it is
 never below the largest magnitude.
 */
module ScaleBounds {
  import opened Words
  import opened Binary32
  import opened Team
  import opened PairwiseTree
  import opened MagnitudeScan
  import opened Scale

  const ONE: AbsBits := 0x3F80_0000

  lemma ValueOfOne()
    ensures Value(ONE) == 1.0
  {
    Exp2Inverse(23);
    Exp2Nat(23);
    assert Pow2(23) == FRACTION by {
      Pow2Add(8, 15);
      Pow2Add(8, 7);
      Pow2Of32();
    }
  }

  // ---------- the scale is at least the largest magnitude ----------

  lemma AddAtLeast(ar: Arith, a: AbsBits, b: AbsBits)
    requires ar.Valid()
    ensures ar.Add(a, b) >= a && ar.Add(a, b) >= b
  {
    if a < INFINITY && b < INFINITY {
      assert ar.round(Value(a)) == a && ar.round(Value(b)) == b;
    }
  }

  lemma LevelAtLeast(ar: Arith, s: seq<AbsBits>, i: nat)
    requires ar.Valid() && |s| % 2 == 0 && i < |s|
    ensures PairLevel<AbsBits>(s, ar.Add)[i / 2] >= s[i]
  {
    hide Arith.Add, Arith.Valid, PairLevel;
    var h := i / 2;
    PairLevelAt(s, h, ar.Add);
    AddAtLeast(ar, s[2 * h], s[2 * h + 1]);
  }

  /** Adding non-negative numbers never loses the largest of them, whatever the rounding. */
  lemma {:induction false} RootAtLeast(ar: Arith, s: seq<AbsBits>, d: nat, i: nat)
    requires ar.Valid() && |s| == Pow2(d) && i < |s|
    ensures Root<AbsBits>(s, ar.Add) >= s[i]
    decreases d
  {
    hide Arith.Add, Arith.Valid, Root, PairLevel;
    if d == 0 {
      LastLevel(s, 0, ar.Add);
    } else {
      RootStep(s, ar.Add);
      LevelAtLeast(ar, s, i);
      RootAtLeast(ar, PairLevel(s, ar.Add), d - 1, i / 2);
    }
  }

  lemma LargestTerm(ar: Arith, x: u32, maxAbs: AbsBits)
    requires ar.Valid() && IsFinite(x) && 0 < maxAbs < INFINITY && Magnitude(x) == maxAbs
    ensures Term(ar, x, maxAbs) == ONE
  {
    ValueOfOne();
    ZeroIsZero(maxAbs);
    assert Value(maxAbs) / Value(maxAbs) == 1.0;
    assert ar.round(Value(ONE)) == ONE;
  }

  lemma TotalAtLeastTerm(ar: Arith, values: seq<u32>, maxAbs: AbsBits, i: nat)
    requires ar.Valid() && Ready(values, maxAbs) && i < |values|
    ensures Total(ar, values, maxAbs) >= Term(ar, values[i], maxAbs)
  {
    hide Root;
    var b, d := i / BLOCK, Depth(|values|);
    RootAtLeast(ar, BlockTerms(ar, values, b, maxAbs), BlockDepth(), i % BLOCK);
    assert BlockTerms(ar, values, b, maxAbs)[i % BLOCK] == TermAt(ar, values, i, maxAbs);
    RootAtLeast(ar, Partials(ar, values, maxAbs, d), d, b);
    assert Partials(ar, values, maxAbs, d)[b] == PartialAt(ar, values, b, maxAbs);
  }

  lemma SqrtAtLeastOne(ar: Arith, t: AbsBits)
    requires ar.Valid() && t >= ONE
    ensures ar.Sqrt(t) >= ONE
    ensures t < INFINITY ==> ar.root(Value(t)) >= 1.0
  {
    ValueOfOne();
    if t < INFINITY {
      if t > ONE {
        ValueMonotone(ONE, t);
      }
      SquareOrder(1.0, ar.root(Value(t)));
      assert ar.round(Value(ONE)) == ONE;
    }
  }

  lemma AtLeastOneTimes(m: real, r: real)
    requires m >= 0.0 && r >= 1.0
    ensures Times(m, r) >= m
  {
    MulMonotone(1.0, r, m);
  }

  lemma MulAtLeast(ar: Arith, m: AbsBits, r: AbsBits)
    requires ar.Valid() && m < INFINITY && r >= ONE
    ensures ar.Mul(m, r) >= m
  {
    ValueOfOne();
    if r < INFINITY {
      OneIsLarge(r);
      AtLeastOneTimes(Value(m), Value(r));
      assert ar.round(Value(m)) == m;
    }
  }

  /** A computed scale is never below any value's magnitude, and is zero only for all-zero input. */
  lemma ScaleCoversInput(ar: Arith, values: seq<u32>, capacity: Option<nat>)
    requires ar.Valid() && ScaleOf(ar, values, capacity).0 == Ok
    ensures ScaleOf(ar, values, capacity).1 < INFINITY
    ensures forall i :: 0 <= i < |values| ==> Magnitude(values[i]) <= ScaleOf(ar, values, capacity).1
    ensures ScaleOf(ar, values, capacity).1 == 0 <==> forall i :: 0 <= i < |values| ==> Magnitude(values[i]) == 0
  {
    var m := MaxMagnitude(values);
    MaxDecides(values);
    forall i | 0 <= i < |values|
      ensures Magnitude(values[i]) <= m
    {
      MaxBounds(values, i);
    }
    if values != [] && m != 0 {
      MaxAttained(values);
      var i :| 0 <= i < |values| && Magnitude(values[i]) == m;
      LargestTerm(ar, values[i], m);
      TotalAtLeastTerm(ar, values, m, i);
      SqrtAtLeastOne(ar, Total(ar, values, m));
      MulAtLeast(ar, m, ar.Sqrt(Total(ar, values, m)));
    }
  }

  // ---------- relative error ----------

  function PowR(x: real, k: nat): real
  {
    if k == 0 then 1.0 else x * PowR(x, k - 1)
  }

  /** A product that proofs can treat as one number. */
  ghost function Times(x: real, y: real): real { x * y }

  ghost predicate Unit(u: real) { 0.0 <= u < 1.0 }

  lemma {:induction false} PowRPositive(x: real, k: nat)
    requires x > 0.0
    ensures PowR(x, k) > 0.0
  {
    if k != 0 {
      PowRPositive(x, k - 1);
    }
  }

  lemma {:induction false} PowRAdd(x: real, a: nat, b: nat)
    ensures PowR(x, a + b) == PowR(x, a) * PowR(x, b)
  {
    if a != 0 {
      PowRAdd(x, a - 1, b);
      assert PowR(x, a + b) == x * PowR(x, a - 1 + b);
    }
  }

  lemma {:induction false} PowRMonotone(u: real, a: nat, b: nat)
    requires Unit(u) && a <= b
    ensures PowR(1.0 + u, a) <= PowR(1.0 + u, b)
    ensures PowR(1.0 - u, a) >= PowR(1.0 - u, b)
    decreases b
  {
    if a < b {
      PowRMonotone(u, a, b - 1);
      PowRPositive(1.0 + u, b - 1);
      PowRPositive(1.0 - u, b - 1);
      Stretched(PowR(1.0 + u, b - 1), u);
      Stretched(PowR(1.0 - u, b - 1), u);
    }
  }

  lemma Stretched(p: real, u: real)
    requires p >= 0.0 && Unit(u)
    ensures (1.0 - u) * p <= p <= (1.0 + u) * p
  {
  }

  lemma MulMonotone(a: real, b: real, c: real)
    requires a <= b && c >= 0.0
    ensures a * c <= b * c && c * a <= c * b
  {
  }

  /** `approx` is `exact` up to `k` relative errors of at most `u` each. */
  ghost predicate Within(approx: real, exact: real, u: real, k: nat)
  {
    exact * PowR(1.0 - u, k) <= approx <= exact * PowR(1.0 + u, k)
  }

  /** `a` is `b` after one rounding. */
  ghost predicate Rounded(a: real, b: real, u: real)
  {
    (1.0 - u) * b <= a <= (1.0 + u) * b
  }

  lemma WithinMore(approx: real, exact: real, u: real, a: nat, b: nat)
    requires Unit(u) && exact >= 0.0 && a <= b && Within(approx, exact, u, a)
    ensures Within(approx, exact, u, b)
  {
    hide PowR;
    PowRMonotone(u, a, b);
    Widen(approx, exact, PowR(1.0 - u, a), PowR(1.0 + u, a), PowR(1.0 - u, b), PowR(1.0 + u, b));
  }

  lemma Widen(approx: real, exact: real, low: real, high: real, lower: real, higher: real)
    requires exact >= 0.0 && lower <= low && high <= higher && exact * low <= approx <= exact * high
    ensures exact * lower <= approx <= exact * higher
  {
    MulMonotone(lower, low, exact);
    MulMonotone(high, higher, exact);
  }

  lemma WithinSum(a: real, x: real, b: real, y: real, u: real, k: nat)
    requires Within(a, x, u, k) && Within(b, y, u, k)
    ensures Within(a + b, x + y, u, k)
  {
    var p, q := PowR(1.0 - u, k), PowR(1.0 + u, k);
    assert (x + y) * p == x * p + y * p;
    assert (x + y) * q == x * q + y * q;
  }

  lemma WithinProduct(a: real, x: real, j: nat, b: real, y: real, k: nat, u: real)
    requires Unit(u) && a >= 0.0 && b >= 0.0 && x >= 0.0 && y >= 0.0
    requires Within(a, x, u, j) && Within(b, y, u, k)
    ensures Within(Times(a, b), Times(x, y), u, j + k)
  {
    hide PowR;
    PowRAdd(1.0 + u, j, k);
    PowRAdd(1.0 - u, j, k);
    PowRPositive(1.0 - u, j);
    PowRPositive(1.0 - u, k);
    NonNegative(x, PowR(1.0 - u, j));
    NonNegative(y, PowR(1.0 - u, k));
    ProductAbove(a, x, PowR(1.0 + u, j), b, y, PowR(1.0 + u, k));
    ProductBelow(a, x, PowR(1.0 - u, j), b, y, PowR(1.0 - u, k));
  }

  lemma NonNegative(a: real, b: real)
    requires a >= 0.0 && b >= 0.0
    ensures a * b >= 0.0
  {
  }

  lemma ProductAbove(a: real, x: real, p: real, b: real, y: real, q: real)
    requires 0.0 <= a <= x * p && 0.0 <= b <= y * q
    ensures a * b <= (x * y) * (p * q)
  {
    MulMonotone(a, x * p, b);
    MulMonotone(b, y * q, x * p);
    assert (x * p) * (y * q) == (x * y) * (p * q);
  }

  lemma ProductBelow(a: real, x: real, p: real, b: real, y: real, q: real)
    requires 0.0 <= x * p <= a && 0.0 <= y * q <= b
    ensures (x * y) * (p * q) <= a * b
  {
    MulMonotone(x * p, a, y * q);
    MulMonotone(y * q, b, a);
    assert (x * p) * (y * q) == (x * y) * (p * q);
  }

  /** One more rounding. */
  lemma WithinRounded(a: real, b: real, x: real, u: real, k: nat)
    requires Unit(u) && Rounded(a, b, u) && Within(b, x, u, k)
    ensures Within(a, x, u, k + 1)
  {
    PowRStep(1.0 + u, k);
    PowRStep(1.0 - u, k);
    hide PowR;
    FactorOnce(b, x, PowR(1.0 + u, k), 1.0 + u);
    FactorOnce(b, x, PowR(1.0 - u, k), 1.0 - u);
  }

  lemma PowRStep(x: real, k: nat)
    ensures PowR(x, k + 1) == x * PowR(x, k)
  {
  }

  lemma FactorOnce(b: real, x: real, p: real, f: real)
    requires f >= 0.0
    ensures b <= x * p ==> f * b <= x * (f * p)
    ensures b >= x * p ==> f * b >= x * (f * p)
  {
    assert x * (f * p) == f * (x * p);
    if b <= x * p {
      MulMonotone(b, x * p, f);
    } else {
      MulMonotone(x * p, b, f);
    }
  }

  /** Square roots halve the number of errors, rounded up. */
  lemma WithinRoot(r: real, s: real, u: real, j: nat, i: nat)
    requires Unit(u) && r >= 0.0 && s >= 0.0 && j <= 2 * i && Within(Times(r, r), Times(s, s), u, j)
    ensures Within(r, s, u, i)
  {
    NonNegative(s, s);
    WithinMore(Times(r, r), Times(s, s), u, j, i + i);
    PowRAdd(1.0 + u, i, i);
    PowRAdd(1.0 - u, i, i);
    PowRPositive(1.0 + u, i);
    PowRPositive(1.0 - u, i);
    hide PowR;
    RootBelow(r, s, PowR(1.0 + u, i));
    RootAbove(r, s, PowR(1.0 - u, i));
  }

  lemma RootBelow(r: real, s: real, p: real)
    requires r >= 0.0 && s >= 0.0 && p >= 0.0 && r * r <= (s * s) * (p * p)
    ensures r <= s * p
  {
    assert (s * s) * (p * p) == (s * p) * (s * p);
    NonNegative(s, p);
    SquareOrder(r, s * p);
  }

  lemma RootAbove(r: real, s: real, p: real)
    requires r >= 0.0 && s >= 0.0 && p >= 0.0 && r * r >= (s * s) * (p * p)
    ensures r >= s * p
  {
    assert (s * s) * (p * p) == (s * p) * (s * p);
    NonNegative(s, p);
    SquareOrder(s * p, r);
  }

  lemma SquareOrder(a: real, b: real)
    requires a >= 0.0 && b >= 0.0 && a * a <= b * b
    ensures a <= b
  {
    if a > b {
      assert (a - b) * (a + b) == a * a - b * b;
      Positive(a - b, a + b);
    }
  }

  lemma Positive(a: real, b: real)
    requires a > 0.0 && b > 0.0
    ensures a * b > 0.0
  {
  }

  /** `k` errors of at most `u` each, to first order. */
  function Errors(u: real, k: nat): real { k as real * u }

  lemma OneMore(u: real, k: nat)
    requires Unit(u)
    ensures Errors(u, k + 1) == Errors(u, k) + u
    ensures Errors(u, k) >= 0.0
  {
    NonNegative(k as real, u);
  }

  lemma NoErrors(u: real)
    ensures Errors(u, 0) == 0.0
  {
  }

  /** Bernoulli's inequality for both signs, and the usual closed bound. */
  lemma {:induction false} ClosedBound(u: real, k: nat)
    requires Unit(u) && Errors(u, k) < 1.0
    ensures PowR(1.0 + u, k) * (1.0 - Errors(u, k)) <= 1.0
    ensures PowR(1.0 - u, k) >= 1.0 - Errors(u, k)
    decreases k
  {
    hide Errors;
    if k == 0 {
      assert PowR(1.0 + u, 0) == 1.0;
      NoErrors(u);
    } else {
      OneMore(u, k - 1);
      ClosedBound(u, k - 1);
      ClosedStep(u, k - 1, Errors(u, k - 1));
    }
  }

  lemma ClosedStep(u: real, k: nat, h: real)
    requires Unit(u) && h >= 0.0
    requires PowR(1.0 + u, k) * (1.0 - h) <= 1.0 && PowR(1.0 - u, k) >= 1.0 - h
    ensures PowR(1.0 + u, k + 1) * (1.0 - (h + u)) <= 1.0
    ensures PowR(1.0 - u, k + 1) >= 1.0 - (h + u)
  {
    hide PowR;
    PowRPositive(1.0 + u, k);
    PowRStep(1.0 + u, k);
    PowRStep(1.0 - u, k);
    UpperStep(PowR(1.0 + u, k), u, h);
    LowerStep(PowR(1.0 - u, k), u, h);
  }

  lemma UpperStep(p: real, u: real, h: real)
    requires Unit(u) && 0.0 <= h && p > 0.0 && p * (1.0 - h) <= 1.0
    ensures ((1.0 + u) * p) * (1.0 - (h + u)) <= 1.0
  {
    assert (1.0 + u) * (1.0 - (h + u)) == 1.0 - h - u * (h + u);
    NonNegative(u, h + u);
    MulMonotone((1.0 + u) * (1.0 - (h + u)), 1.0 - h, p);
    assert ((1.0 + u) * p) * (1.0 - (h + u)) == ((1.0 + u) * (1.0 - (h + u))) * p;
  }

  lemma LowerStep(p: real, u: real, h: real)
    requires Unit(u) && 0.0 <= h && p >= 1.0 - h
    ensures (1.0 - u) * p >= 1.0 - (h + u)
  {
    MulMonotone(1.0 - h, p, 1.0 - u);
    assert (1.0 - h) * (1.0 - u) == 1.0 - (h + u) + h * u;
    NonNegative(h, u);
  }

  // ---------- sums ----------

  /** The sum of `f` over the integers from `lo` up to `hi`. */
  ghost function RealSum(f: int -> real, lo: int, hi: int): real
    decreases hi - lo
  {
    if hi <= lo then 0.0 else RealSum(f, lo, hi - 1) + f(hi - 1)
  }

  lemma {:induction false} SumSplits(f: int -> real, lo: int, mid: int, hi: int)
    requires lo <= mid <= hi
    ensures RealSum(f, lo, hi) == RealSum(f, lo, mid) + RealSum(f, mid, hi)
    decreases hi - mid
  {
    if mid < hi {
      SumSplits(f, lo, mid, hi - 1);
    }
  }

  lemma {:induction false} SumZero(f: int -> real, lo: int, hi: int)
    requires forall i :: lo <= i < hi ==> f(i) == 0.0
    ensures RealSum(f, lo, hi) == 0.0
    decreases hi - lo
  {
    if lo < hi {
      SumZero(f, lo, hi - 1);
    }
  }

  /** The exact leaves: slot `i` sums the `width` numbers from `start + width * i`. */
  ghost predicate Leaves(s: seq<real>, f: int -> real, start: int, width: nat)
  {
    forall i {:trigger s[i]} :: 0 <= i < |s| ==> s[i] == RealSum(f, start + width * i, start + width * i + width)
  }

  ghost function Plus(): (real, real) -> real { (x, y) => x + y }

  lemma PairedLeaves(s: seq<real>, f: int -> real, start: int, width: nat)
    requires |s| % 2 == 0 && Leaves(s, f, start, width)
    ensures Leaves(PairLevel(s, Plus()), f, start, 2 * width)
  {
    hide RealSum;
    var r := PairLevel(s, Plus());
    forall i | 0 <= i < |r|
      ensures r[i] == RealSum(f, start + 2 * width * i, start + 2 * width * i + 2 * width)
    {
      PairLevelAt(s, i, Plus());
      JoinedLeaves(s, f, start, width, i);
    }
  }

  lemma JoinedLeaves(s: seq<real>, f: int -> real, start: int, width: nat, i: nat)
    requires 2 * i + 1 < |s| && Leaves(s, f, start, width)
    ensures s[2 * i] + s[2 * i + 1] == RealSum(f, start + 2 * width * i, start + 2 * width * i + 2 * width)
  {
    hide RealSum;
    TwoLeaves(width, i);
    var j, a := 2 * i + 1, start + 2 * width * i;
    assert s[2 * i] == RealSum(f, a, a + width);
    assert s[j] == RealSum(f, a + width, a + 2 * width);
    SumSplits(f, a, a + width, a + 2 * width);
  }

  lemma TwoLeaves(width: nat, i: nat)
    ensures width * (2 * i) == 2 * width * i
    ensures width * (2 * i + 1) == 2 * width * i + width
  {
  }

  lemma WidthTimes(width: nat, p: nat)
    ensures 2 * width * p == width * (2 * p)
  {
  }

  /** Exact pairwise summation is summation. */
  lemma {:induction false} ExactRoot(s: seq<real>, f: int -> real, start: int, width: nat, d: nat)
    requires |s| == Pow2(d) && Leaves(s, f, start, width)
    ensures Root<real>(s, Plus()) == RealSum(f, start, start + width * |s|)
    decreases d
  {
    hide RealSum;
    if d == 0 {
      assert s[0] == RealSum(f, start + width * 0, start + width * 0 + width);
    } else {
      PairedLeaves(s, f, start, width);
      ExactRoot(PairLevel(s, Plus()), f, start, 2 * width, d - 1);
      WidthTimes(width, Pow2(d - 1));
    }
  }

  // ---------- rounded trees ----------

  /** The smallest normal number. */
  ghost function MinNormal(): (r: real)
    ensures 0.0 < r <= 1.0
  {
    ZeroIsZero(FRACTION);
    ValueOfOne();
    ValueMonotone(FRACTION, ONE);
    Value(FRACTION)
  }

  lemma NormalIsLarge(w: AbsBits)
    requires FRACTION <= w < INFINITY
    ensures Value(w) >= MinNormal()
  {
    if w > FRACTION {
      ValueMonotone(FRACTION, w);
    }
  }

  ghost predicate InRange(x: real) { x == 0.0 || x >= MinNormal() }

  /** The standard model: away from underflow and overflow a rounding errs by a factor of at most `1 ± u`. */
  ghost predicate Standard(ar: Arith, u: real)
  {
    forall x: real :: x >= MinNormal() && ar.round(x) < INFINITY ==> Rounded(Value(ar.round(x)), x, u)
  }

  /** The absolute error below the normal range: half the spacing of the subnormal numbers. */
  ghost function Step(u: real): real { Times(MinNormal(), u) }

  /** Below the normal range a rounding errs by at most `Step(u)`. */
  ghost predicate Gradual(ar: Arith, u: real)
  {
    forall x: real :: 0.0 <= x < MinNormal() && ar.round(x) < INFINITY ==> Apart(Value(ar.round(x)), x) <= Step(u)
  }

  ghost function Apart(x: real, y: real): (d: real)
    ensures d >= 0.0
  {
    if x <= y then y - x else x - y
  }

  lemma RoundNear(ar: Arith, u: real, x: real)
    requires ar.Valid() && Unit(u) && Standard(ar, u) && x >= 0.0 && InRange(x) && ar.round(x) < INFINITY
    ensures Rounded(Value(ar.round(x)), x, u)
  {
    if x == 0.0 {
      assert Value(0) == 0.0;
      assert ar.round(Value(0)) == 0;
    }
  }

  lemma BelowNormal(w: AbsBits)
    requires w < INFINITY && Value(w) < MinNormal()
    ensures w < FRACTION && Value(w) == Dyadic(w, MIN_EXPONENT)
  {
    if w >= FRACTION {
      NormalIsLarge(w);
    }
  }

  /** An addition never underflows: a sum below the normal range is exact. */
  lemma AddRounded(ar: Arith, u: real, a: AbsBits, b: AbsBits)
    requires ar.Valid() && Unit(u) && Standard(ar, u) && a < INFINITY && b < INFINITY && ar.Add(a, b) < INFINITY
    ensures Rounded(Value(ar.Add(a, b)), Value(a) + Value(b), u)
  {
    var t := Value(a) + Value(b);
    if t < MinNormal() {
      BelowNormal(a);
      BelowNormal(b);
      hide Value, MinNormal, Dyadic;
      DyadicTotal(a, b, MIN_EXPONENT);
      RoundExact(ar, a + b, MIN_EXPONENT);
      SelfRounded(t, u);
    } else {
      hide Value, MinNormal;
      assert ar.Add(a, b) == ar.round(t);
    }
  }

  lemma DyadicTotal(a: nat, b: nat, e: int)
    ensures Dyadic(a + b, e) == Dyadic(a, e) + Dyadic(b, e)
  {
  }

  lemma SelfRounded(x: real, u: real)
    requires x >= 0.0 && Unit(u)
    ensures Rounded(x, x, u)
  {
    Stretched(x, u);
  }

  lemma AddError(ar: Arith, u: real, a: AbsBits, x: real, b: AbsBits, y: real, k: nat)
    requires ar.Valid() && Unit(u) && Standard(ar, u) && x >= 0.0 && y >= 0.0
    requires a < INFINITY && b < INFINITY && ar.Add(a, b) < INFINITY
    requires Within(Value(a), x, u, k) && Within(Value(b), y, u, k)
    ensures Within(Value(ar.Add(a, b)), x + y, u, k + 1)
  {
    AddRounded(ar, u, a, b);
    hide Arith.Add, Value, Within, Rounded, Standard, Arith.Valid;
    WithinSum(Value(a), x, Value(b), y, u, k);
    WithinRounded(Value(ar.Add(a, b)), Value(a) + Value(b), x + y, u, k);
  }

  ghost predicate Close(hats: seq<AbsBits>, exact: seq<real>, u: real, k: nat)
  {
    && |hats| == |exact|
    && forall i {:trigger hats[i]} {:trigger exact[i]} :: 0 <= i < |hats| ==> CloseAt(hats[i], exact[i], u, k)
  }

  ghost predicate CloseAt(hat: AbsBits, exact: real, u: real, k: nat)
  {
    hat < INFINITY && exact >= 0.0 && Within(Value(hat), exact, u, k)
  }

  lemma LevelError(ar: Arith, u: real, hats: seq<AbsBits>, exact: seq<real>, k: nat, d: nat)
    requires ar.Valid() && Unit(u) && Standard(ar, u) && d > 0 && |hats| == Pow2(d) && Close(hats, exact, u, k)
    requires Root<AbsBits>(hats, ar.Add) < INFINITY
    ensures Close(PairLevel(hats, ar.Add), PairLevel(exact, Plus()), u, k + 1)
  {
    hide Within, Standard, Arith.Valid, Root, Value, Arith.Add;
    RootStep(hats, ar.Add);
    var next := PairLevel(hats, ar.Add);
    forall i | 0 <= i < |next|
      ensures CloseAt(next[i], PairLevel(exact, Plus())[i], u, k + 1)
    {
      PairLevelAt(hats, i, ar.Add);
      PairLevelAt(exact, i, Plus());
      RootAtLeast(ar, next, d - 1, i);
      assert CloseAt(hats[2 * i], exact[2 * i], u, k) && CloseAt(hats[2 * i + 1], exact[2 * i + 1], u, k);
      AddError(ar, u, hats[2 * i], exact[2 * i], hats[2 * i + 1], exact[2 * i + 1], k);
    }
  }

  /** The error of a tree sum grows with the depth of the tree, not with the number of terms. */
  lemma {:induction false} TreeError(ar: Arith, u: real, hats: seq<AbsBits>, exact: seq<real>, k: nat, d: nat)
    requires ar.Valid() && Unit(u) && Standard(ar, u) && |hats| == Pow2(d) && Close(hats, exact, u, k)
    requires Root<AbsBits>(hats, ar.Add) < INFINITY
    ensures CloseAt(Root<AbsBits>(hats, ar.Add), Root(exact, Plus()), u, k + d)
    decreases d
  {
    hide CloseAt, Standard, Arith.Valid, Arith.Add, Root;
    if d == 0 {
      LastLevel(hats, 0, ar.Add);
      LastLevel(exact, 0, Plus());
      assert CloseAt(hats[0], exact[0], u, k);
    } else {
      RootStep(hats, ar.Add);
      RootStep(exact, Plus());
      LevelError(ar, u, hats, exact, k, d);
      TreeError(ar, u, PairLevel(hats, ar.Add), PairLevel(exact, Plus()), k + 1, d - 1);
    }
  }

  // ---------- the whole scale ----------

  ghost function Ratio(m: AbsBits, maxAbs: AbsBits): (r: real)
    requires m < INFINITY && 0 < maxAbs < INFINITY
    ensures r >= 0.0
  {
    ZeroIsZero(maxAbs);
    Value(m) / Value(maxAbs)
  }

  /** Neither the ratio nor its square falls below the smallest normal number. */
  ghost predicate NormalTerm(ar: Arith, m: AbsBits, maxAbs: AbsBits)
    requires m < INFINITY && 0 < maxAbs < INFINITY
  {
    && InRange(Ratio(m, maxAbs))
    && (ar.Div(m, maxAbs) < INFINITY ==> InRange(Times(Value(ar.Div(m, maxAbs)), Value(ar.Div(m, maxAbs)))))
  }

  lemma RatioAtMostOne(m: AbsBits, maxAbs: AbsBits)
    requires m <= maxAbs && 0 < maxAbs < INFINITY
    ensures Ratio(m, maxAbs) <= 1.0
  {
    ZeroIsZero(maxAbs);
    if m < maxAbs {
      ValueMonotone(m, maxAbs);
    }
    QuotientAtMostOne(Value(m), Value(maxAbs));
  }

  lemma WithinOne(a: real, x: real, u: real)
    requires Rounded(a, x, u)
    ensures Within(a, x, u, 1)
  {
    PowRStep(1.0 + u, 0);
    PowRStep(1.0 - u, 0);
  }

  /** Divide and square: three roundings, the first counted twice. */
  lemma TermError(ar: Arith, u: real, x: u32, maxAbs: AbsBits)
    requires ar.Valid() && Unit(u) && Standard(ar, u) && IsFinite(x) && 0 < maxAbs < INFINITY && Magnitude(x) <= maxAbs
    requires NormalTerm(ar, Magnitude(x), maxAbs)
    ensures CloseAt(Term(ar, x, maxAbs), Times(Ratio(Magnitude(x), maxAbs), Ratio(Magnitude(x), maxAbs)), u, 3)
  {
    var m := Magnitude(x);
    RatioAtMostOne(m, maxAbs);
    RoundAtMostOne(ar, Ratio(m, maxAbs));
    TermIsSquare(ar, x, maxAbs);
    hide Times, Ratio, Term, Arith.Div, Arith.Mul, Within, Rounded, Standard, Arith.Valid, Value, MinNormal;
    RoundNear(ar, u, Ratio(m, maxAbs));
    SquareError(ar, u, Ratio(m, maxAbs), ar.Div(m, maxAbs));
  }

  lemma TermIsSquare(ar: Arith, x: u32, maxAbs: AbsBits)
    requires IsFinite(x) && 0 < maxAbs < INFINITY
    ensures ar.Div(Magnitude(x), maxAbs) == ar.round(Ratio(Magnitude(x), maxAbs))
    ensures Term(ar, x, maxAbs) == ar.Mul(ar.Div(Magnitude(x), maxAbs), ar.Div(Magnitude(x), maxAbs))
  {
  }

  lemma RoundAtMostOne(ar: Arith, x: real)
    requires ar.Valid() && 0.0 <= x <= 1.0
    ensures ar.round(x) <= ONE && Value(ar.round(x)) <= 1.0
  {
    ValueOfOne();
    assert ar.round(Value(ONE)) == ONE;
    if ar.round(x) < ONE {
      ValueMonotone(ar.round(x), ONE);
    }
  }

  lemma MulIs(ar: Arith, a: AbsBits, b: AbsBits)
    requires a < INFINITY && b < INFINITY
    ensures ar.Mul(a, b) == ar.round(Times(Value(a), Value(b)))
    ensures Times(Value(a), Value(b)) >= 0.0
  {
    NonNegative(Value(a), Value(b));
  }

  lemma SquareError(ar: Arith, u: real, q: real, r: AbsBits)
    requires ar.Valid() && Unit(u) && Standard(ar, u) && q >= 0.0 && r <= ONE && Value(r) <= 1.0
    requires Rounded(Value(r), q, u) && InRange(Times(Value(r), Value(r)))
    ensures CloseAt(ar.Mul(r, r), Times(q, q), u, 3)
  {
    MulIs(ar, r, r);
    TimesAtMostOne(Value(r));
    TimesNonNegative(q, q);
    hide Times, Within, Rounded, Standard, Arith.Valid, Arith.Mul, Value, MinNormal;
    var v := Value(r);
    WithinOne(v, q, u);
    WithinProduct(v, q, 1, v, q, 1, u);
    RoundAtMostOne(ar, Times(v, v));
    RoundNear(ar, u, Times(v, v));
    WithinRounded(Value(ar.Mul(r, r)), Times(v, v), Times(q, q), u, 2);
  }

  lemma TimesAtMostOne(v: real)
    requires 0.0 <= v <= 1.0
    ensures 0.0 <= Times(v, v) <= 1.0
  {
    NonNegative(v, v);
    NonNegative(v, 1.0 - v);
    assert v * (1.0 - v) == v - v * v;
  }

  lemma TimesNonNegative(a: real, b: real)
    requires a >= 0.0 && b >= 0.0
    ensures Times(a, b) >= 0.0
  {
    NonNegative(a, b);
  }

  // ---------- underflow ----------

  /** Roundings are small enough, and not smaller than the underflow threshold. */
  ghost predicate SmallUnit(u: real) { MinNormal() <= u <= 0.125 }

  /**
   A leaf of which the computed term is a purely relative error: the exact square
   when nothing underflows, and otherwise the computed term itself.
   */
  ghost function NearTerm(ar: Arith, x: u32, maxAbs: AbsBits): real
    requires IsFinite(x) && 0 < maxAbs < INFINITY
  {
    var q := Ratio(Magnitude(x), maxAbs);
    if NormalTerm(ar, Magnitude(x), maxAbs) || Term(ar, x, maxAbs) == INFINITY then Times(q, q)
    else Value(Term(ar, x, maxAbs))
  }

  /** The term is close to its leaf, and the leaf is within four steps of the exact square. */
  lemma LeafError(ar: Arith, u: real, x: u32, maxAbs: AbsBits)
    requires ar.Valid() && Unit(u) && SmallUnit(u) && Standard(ar, u) && Gradual(ar, u)
    requires IsFinite(x) && 0 < maxAbs < INFINITY && Magnitude(x) <= maxAbs
    ensures CloseAt(Term(ar, x, maxAbs), NearTerm(ar, x, maxAbs), u, 3)
    ensures Apart(NearTerm(ar, x, maxAbs), Times(Ratio(Magnitude(x), maxAbs), Ratio(Magnitude(x), maxAbs)))
            <= 4.0 * Step(u)
  {
    hide Times, Ratio, Term, Arith.Div, Arith.Mul, Within, Rounded, Standard, Gradual, Arith.Valid, Value, MinNormal,
      Step;
    StepPositive(u);
    if NormalTerm(ar, Magnitude(x), maxAbs) {
      TermError(ar, u, x, maxAbs);
    } else {
      TermInRange(ar, x, maxAbs);
      Unchanged(Value(Term(ar, x, maxAbs)), u);
      SmallTerm(ar, u, x, maxAbs);
    }
  }

  lemma StepPositive(u: real)
    requires SmallUnit(u)
    ensures Step(u) > 0.0
  {
    hide MinNormal, Times;
    TimesPositive(MinNormal(), u);
  }

  lemma TermInRange(ar: Arith, x: u32, maxAbs: AbsBits)
    requires ar.Valid() && IsFinite(x) && 0 < maxAbs < INFINITY && Magnitude(x) <= maxAbs
    ensures Term(ar, x, maxAbs) <= ONE
    ensures ar.Div(Magnitude(x), maxAbs) <= ONE && Value(ar.Div(Magnitude(x), maxAbs)) <= 1.0
  {
    var m := Magnitude(x);
    RatioAtMostOne(m, maxAbs);
    RoundAtMostOne(ar, Ratio(m, maxAbs));
    TermIsSquare(ar, x, maxAbs);
    hide Ratio, Term, Arith.Valid, Value, Arith.Div;
    var r := ar.Div(m, maxAbs);
    MulIs(ar, r, r);
    TimesAtMostOne(Value(r));
    hide Arith.Mul;
    RoundAtMostOne(ar, Times(Value(r), Value(r)));
  }

  lemma Unchanged(x: real, u: real)
    requires x >= 0.0 && Unit(u)
    ensures Within(x, x, u, 3)
  {
    hide PowR;
    WithinZero(x, u);
    WithinMore(x, x, u, 0, 3);
  }

  lemma WithinZero(x: real, u: real)
    ensures Within(x, x, u, 0)
  {
  }

  /** A term that underflows somewhere is within four steps of the exact square. */
  lemma SmallTerm(ar: Arith, u: real, x: u32, maxAbs: AbsBits)
    requires ar.Valid() && Unit(u) && SmallUnit(u) && Standard(ar, u) && Gradual(ar, u)
    requires IsFinite(x) && 0 < maxAbs < INFINITY && Magnitude(x) <= maxAbs
    requires !NormalTerm(ar, Magnitude(x), maxAbs)
    ensures Term(ar, x, maxAbs) < INFINITY
    ensures Apart(Value(Term(ar, x, maxAbs)), Times(Ratio(Magnitude(x), maxAbs), Ratio(Magnitude(x), maxAbs)))
            <= 4.0 * Step(u)
  {
    var q := Ratio(Magnitude(x), maxAbs);
    TermInRange(ar, x, maxAbs);
    TermIsSquare(ar, x, maxAbs);
    var r := ar.Div(Magnitude(x), maxAbs);
    MulIs(ar, r, r);
    hide Ratio, Term, Arith.Div, Arith.Mul;
    var v := Value(r);
    if !InRange(q) {
      SmallRatio(ar, u, q, r);
    } else {
      assert !InRange(Times(v, v));
      NotZeroRatio(ar, q, r);
      RoundNear(ar, u, q);
      hide Value, MinNormal, Arith.Valid, Standard, Times, Step, Rounded, Gradual;
      assert Times(v, v) < MinNormal();
      SquareDrift(MinNormal(), u, v, q);
      SquareStep(ar, u, v, r);
      ApartChain(Value(ar.round(Times(v, v))), Times(v, v), Times(q, q), Step(u), 3.0 * Step(u));
    }
  }

  lemma NotZeroRatio(ar: Arith, q: real, r: AbsBits)
    requires ar.Valid() && q >= 0.0 && r == ar.round(q) < INFINITY && InRange(q) && !InRange(Times(Value(r), Value(r)))
    ensures q >= MinNormal()
  {
    RoundZero(ar);
    assert Times(0.0, 0.0) == 0.0;
  }

  lemma RoundZero(ar: Arith)
    requires ar.Valid()
    ensures ar.round(0.0) == 0 && Value(0) == 0.0
  {
    assert Value(0) == 0.0;
  }

  lemma SquareStep(ar: Arith, u: real, v: real, r: AbsBits)
    requires Gradual(ar, u) && r < INFINITY && v == Value(r) && 0.0 <= Times(v, v) < MinNormal()
    requires ar.round(Times(v, v)) < INFINITY
    ensures Apart(Value(ar.round(Times(v, v))), Times(v, v)) <= Step(u)
  {
    hide Value, MinNormal, Times;
  }

  lemma ApartChain(x: real, y: real, z: real, a: real, b: real)
    requires Apart(x, y) <= a && Apart(y, z) <= b
    ensures Apart(x, z) <= a + b
  {
  }

  /** The square of a rounded ratio, when it is below the normal range, is near the exact square. */
  lemma SquareDrift(least: real, u: real, v: real, q: real)
    requires 0.0 < least <= u <= 0.125 && q >= 0.0 && v >= 0.0 && Rounded(v, q, u) && Times(v, v) < least
    ensures Apart(Times(v, v), Times(q, q)) <= 3.0 * Times(least, u)
  {
    var p, w := q * q, v * v;
    NonNegative(q, q);
    var e := (2.0 * u + u * u) * p;
    RelativeSquare(u, v, q, p, w, e);
    SquareBound(u, v, q, least);
    DriftBound(u, p, least, e);
    assert Apart(w, p) <= e;
    hide Apart, Rounded;
  }

  lemma RelativeSquare(u: real, v: real, q: real, p: real, w: real, e: real)
    requires 0.0 <= u <= 0.125 && q >= 0.0 && v >= 0.0 && Rounded(v, q, u)
    requires p == q * q && w == v * v && e == (2.0 * u + u * u) * p
    ensures p - e <= w <= p + e
  {
    var low, high := (1.0 - u) * q, (1.0 + u) * q;
    NonNegative(1.0 - u, q);
    MulMonotone(low, v, low);
    MulMonotone(low, v, v);
    MulMonotone(v, high, v);
    MulMonotone(v, high, high);
    NonNegative(q, q);
    LowSquare(u, q, p, e);
    HighSquare(u, q, p, e);
  }

  lemma LowSquare(u: real, q: real, p: real, e: real)
    requires u >= 0.0 && p == q * q && p >= 0.0 && e == (2.0 * u + u * u) * p
    ensures ((1.0 - u) * q) * ((1.0 - u) * q) >= p - e
  {
    NonNegative(u, u);
    NonNegative(u * u, p);
    assert ((1.0 - u) * q) * ((1.0 - u) * q) == (1.0 - 2.0 * u + u * u) * p;
    assert (1.0 - 2.0 * u + u * u) * p == p - (2.0 * u + u * u) * p + 2.0 * (u * u * p);
  }

  lemma HighSquare(u: real, q: real, p: real, e: real)
    requires p == q * q && e == (2.0 * u + u * u) * p
    ensures ((1.0 + u) * q) * ((1.0 + u) * q) == p + e
  {
    assert ((1.0 + u) * q) * ((1.0 + u) * q) == (1.0 + 2.0 * u + u * u) * p;
    assert (1.0 + 2.0 * u + u * u) * p == p + (2.0 * u + u * u) * p;
  }

  lemma SquareBound(u: real, v: real, q: real, least: real)
    requires 0.0 <= u <= 0.125 && q >= 0.0 && v >= 0.0 && Rounded(v, q, u) && v * v < least
    ensures (1.0 - u) * (1.0 - u) * (q * q) <= least
  {
    var low := (1.0 - u) * q;
    NonNegative(1.0 - u, q);
    MulMonotone(low, v, low);
    MulMonotone(low, v, v);
    assert low * low == (1.0 - u) * (1.0 - u) * (q * q);
  }

  lemma DriftBound(u: real, p: real, least: real, e: real)
    requires 0.0 <= u <= 0.125 && p >= 0.0 && (1.0 - u) * (1.0 - u) * p <= least && e == (2.0 * u + u * u) * p
    ensures e <= 3.0 * (least * u)
  {
    var c := (1.0 - u) * (1.0 - u);
    assert c == 1.0 - 2.0 * u + u * u;
    NonNegative(u, 1.0 - 7.0 * u);
    NonNegative(u, u);
    NonNegative(u * u, u);
    assert 3.0 * u * c - (2.0 * u + u * u) == u - 7.0 * (u * u) + 3.0 * (u * u * u);
    assert u * (1.0 - 7.0 * u) == u - 7.0 * (u * u);
    MulMonotone(2.0 * u + u * u, 3.0 * u * c, p);
    MulMonotone(c * p, least, 3.0 * u);
    assert 3.0 * u * c * p == 3.0 * u * (c * p);
  }

  /** A ratio below the normal range has a square below one step. */
  lemma SmallRatio(ar: Arith, u: real, q: real, r: AbsBits)
    requires ar.Valid() && SmallUnit(u) && Gradual(ar, u) && 0.0 <= q && !InRange(q) && r == ar.round(q) < INFINITY
    requires ar.round(Times(Value(r), Value(r))) < INFINITY
    ensures Apart(Value(ar.round(Times(Value(r), Value(r)))), Times(q, q)) <= 4.0 * Step(u)
  {
    var v, least := Value(r), MinNormal();
    RatioBelow(ar, q, r);
    hide Value, MinNormal, Arith.Valid, Times, Step, Gradual;
    StepPositive(u);
    TinySquares(least, u, v, q);
    SquareStep(ar, u, v, r);
    ApartChain(Value(ar.round(Times(v, v))), Times(v, v), Times(q, q), Step(u), Step(u));
  }

  lemma RatioBelow(ar: Arith, q: real, r: AbsBits)
    requires ar.Valid() && 0.0 <= q < MinNormal() && r == ar.round(q) < INFINITY
    ensures Value(r) <= MinNormal()
  {
    assert ar.round(Value(FRACTION)) == FRACTION;
    if r < FRACTION {
      ValueMonotone(r, FRACTION);
    }
  }

  lemma TinySquares(least: real, u: real, v: real, q: real)
    requires 0.0 < least <= u <= 0.125 && 0.0 <= v <= least && 0.0 <= q <= least
    ensures 0.0 <= Times(v, v) < least && Apart(Times(v, v), Times(q, q)) <= Times(least, u)
  {
    TinySquare(least, u, v);
    TinySquare(least, u, q);
  }

  lemma TinySquare(least: real, u: real, v: real)
    requires 0.0 < least <= u <= 0.125 && 0.0 <= v <= least
    ensures 0.0 <= v * v <= least * u && v * v < least
  {
    NonNegative(v, v);
    SquareBelow(v, least);
    LeastTimes(least, u);
  }

  lemma LeastTimes(least: real, u: real)
    requires 0.0 < least <= u <= 0.125
    ensures least * least <= least * u < least
  {
    NonNegative(u - least, least);
    assert (u - least) * least == least * u - least * least;
    NonNegative(0.125 - u, least);
    assert (0.125 - u) * least == 0.125 * least - least * u;
  }

  lemma SquareBelow(v: real, least: real)
    requires 0.0 <= v <= least
    ensures v * v <= least * least
  {
    MulMonotone(v, least, v);
    MulMonotone(v, least, least);
    assert least * v == v * least;
  }

  // ---------- sums of near terms ----------

  /** The exact square of ratio `i`, zero outside the input. */
  ghost function ExactTerms(values: seq<u32>, maxAbs: AbsBits): int -> real
    requires Ready(values, maxAbs)
  {
    (i: int) => if 0 <= i < |values| && IsFinite(values[i])
                then Times(Ratio(Magnitude(values[i]), maxAbs), Ratio(Magnitude(values[i]), maxAbs)) else 0.0
  }

  /** The leaves of the computed tree. */
  ghost function NearTerms(ar: Arith, values: seq<u32>, maxAbs: AbsBits): int -> real
    requires Ready(values, maxAbs)
  {
    (i: int) => if 0 <= i < |values| && IsFinite(values[i]) then NearTerm(ar, values[i], maxAbs) else 0.0
  }

  ghost function ExactBlock(f: int -> real, b: nat): (s: seq<real>)
    ensures |s| == BLOCK && Leaves(s, f, BLOCK * b, 1)
    ensures forall i :: 0 <= i < BLOCK ==> s[i] == f(BLOCK * b + i)
  {
    var s := seq(BLOCK, i requires 0 <= i < BLOCK => f(BLOCK * b + i));
    assert forall i :: 0 <= i < BLOCK ==> s[i] == RealSum(f, BLOCK * b + 1 * i, BLOCK * b + 1 * i + 1);
    s
  }

  lemma ZeroIsClose(u: real, k: nat)
    ensures CloseAt(0, 0.0, u, k)
  {
  }

  /** What the error analysis needs of the arithmetic and the input. */
  ghost predicate Analysed(ar: Arith, u: real, values: seq<u32>, maxAbs: AbsBits)
  {
    && ar.Valid() && Unit(u) && SmallUnit(u) && Standard(ar, u) && Gradual(ar, u)
    && Ready(values, maxAbs) && maxAbs == MaxMagnitude(values)
  }

  lemma TermIsClose(ar: Arith, u: real, values: seq<u32>, maxAbs: AbsBits, j: nat)
    requires Analysed(ar, u, values, maxAbs)
    ensures CloseAt(TermAt(ar, values, j, maxAbs), NearTerms(ar, values, maxAbs)(j), u, 3)
  {
    hide CloseAt, Standard, Gradual, Arith.Valid, NearTerm, Term, SmallUnit;
    if j < |values| {
      MaxBounds(values, j);
      LeafError(ar, u, values[j], maxAbs);
      assert NearTerms(ar, values, maxAbs)(j) == NearTerm(ar, values[j], maxAbs);
    } else {
      ZeroIsClose(u, 3);
      assert NearTerms(ar, values, maxAbs)(j) == 0.0;
    }
  }

  lemma BlockIsClose(ar: Arith, u: real, values: seq<u32>, maxAbs: AbsBits, b: nat)
    requires Analysed(ar, u, values, maxAbs)
    ensures Close(BlockTerms(ar, values, b, maxAbs), ExactBlock(NearTerms(ar, values, maxAbs), b), u, 3)
  {
    assert Ready(values, maxAbs);
    hide CloseAt, NearTerms, TermAt, Analysed, ExactBlock;
    var hats, exact := BlockTerms(ar, values, b, maxAbs), ExactBlock(NearTerms(ar, values, maxAbs), b);
    forall i | 0 <= i < BLOCK
      ensures CloseAt(hats[i], exact[i], u, 3)
    {
      TermIsClose(ar, u, values, maxAbs, BLOCK * b + i);
      assert hats[i] == TermAt(ar, values, BLOCK * b + i, maxAbs);
      assert exact[i] == NearTerms(ar, values, maxAbs)(BLOCK * b + i);
    }
  }

  lemma BlockError(ar: Arith, u: real, values: seq<u32>, maxAbs: AbsBits, b: nat)
    requires Analysed(ar, u, values, maxAbs) && BlockTotal(ar, values, b, maxAbs) < INFINITY
    ensures CloseAt(BlockTotal(ar, values, b, maxAbs),
                    RealSum(NearTerms(ar, values, maxAbs), BLOCK * b, BLOCK * b + BLOCK), u, 11)
  {
    hide Root, CloseAt, Close, Standard, Gradual, SmallUnit, Arith.Valid, RealSum, NearTerms, BlockTerms, ExactBlock;
    var f := NearTerms(ar, values, maxAbs);
    Pow2Of32();
    BlockDepthIs(8);
    BlockIsClose(ar, u, values, maxAbs, b);
    ExactRoot(ExactBlock(f, b), f, BLOCK * b, 1, BlockDepth());
    TreeError(ar, u, BlockTerms(ar, values, b, maxAbs), ExactBlock(f, b), 3, BlockDepth());
  }

  ghost function ExactPartials(f: int -> real, d: nat): (s: seq<real>)
    ensures |s| == Pow2(d) && Leaves(s, f, 0, BLOCK)
    ensures forall b :: 0 <= b < |s| ==> s[b] == RealSum(f, BLOCK * b, BLOCK * b + BLOCK)
  {
    seq(Pow2(d), b requires 0 <= b => RealSum(f, BLOCK * b, BLOCK * b + BLOCK))
  }

  lemma PartialsAreClose(ar: Arith, u: real, values: seq<u32>, maxAbs: AbsBits, d: nat)
    requires Analysed(ar, u, values, maxAbs) && Root<AbsBits>(Partials(ar, values, maxAbs, d), ar.Add) < INFINITY
    ensures Close(Partials(ar, values, maxAbs, d), ExactPartials(NearTerms(ar, values, maxAbs), d), u, 11)
  {
    hide Root, CloseAt, Standard, Gradual, SmallUnit, Arith.Valid, RealSum, Pow2, NearTerm;
    var f, hats := NearTerms(ar, values, maxAbs), Partials(ar, values, maxAbs, d);
    var exact := ExactPartials(f, d);
    forall b | 0 <= b < |hats|
      ensures CloseAt(hats[b], exact[b], u, 11)
    {
      RootAtLeast(ar, hats, d, b);
      assert hats[b] == PartialAt(ar, values, b, maxAbs);
      if b < Units(|values|) {
        BlockError(ar, u, values, maxAbs, b);
      } else {
        ZeroIsClose(u, 11);
        SumZero(f, BLOCK * b, BLOCK * b + BLOCK);
      }
    }
  }

  /** The rounded total is the total of the near terms up to `11 + depth` relative errors. */
  lemma TotalError(ar: Arith, u: real, values: seq<u32>, maxAbs: AbsBits)
    requires Analysed(ar, u, values, maxAbs) && Total(ar, values, maxAbs) < INFINITY
    ensures CloseAt(Total(ar, values, maxAbs), RealSum(NearTerms(ar, values, maxAbs), 0, |values|), u,
                    11 + Depth(|values|))
  {
    hide Root, CloseAt, Close, Standard, Gradual, SmallUnit, Arith.Valid, RealSum, Pow2, NearTerm;
    var f, d := NearTerms(ar, values, maxAbs), Depth(|values|);
    PartialsAreClose(ar, u, values, maxAbs, d);
    ExactRoot(ExactPartials(f, d), f, 0, BLOCK, d);
    TreeError(ar, u, Partials(ar, values, maxAbs, d), ExactPartials(f, d), 11, d);
    SumSplits(f, 0, |values|, BLOCK * Pow2(d));
    SumZero(f, |values|, BLOCK * Pow2(d));
  }

  /** Underflow moves the total by at most four steps per value. */
  lemma {:induction false} NearTotal(ar: Arith, u: real, values: seq<u32>, maxAbs: AbsBits, n: nat)
    requires Analysed(ar, u, values, maxAbs) && n <= |values|
    ensures Apart(RealSum(NearTerms(ar, values, maxAbs), 0, n), RealSum(ExactTerms(values, maxAbs), 0, n))
            <= Times(n as real, 4.0 * Step(u))
    decreases n
  {
    hide Step, NearTerm, Term, Ratio;
    if n == 0 {
      assert Times(0.0, 4.0 * Step(u)) == 0.0;
    } else {
      NearTotal(ar, u, values, maxAbs, n - 1);
      SumStep(NearTerms(ar, values, maxAbs), n - 1);
      SumStep(ExactTerms(values, maxAbs), n - 1);
      MaxBounds(values, n - 1);
      LeafError(ar, u, values[n - 1], maxAbs);
      OneMoreTimes(n - 1, 4.0 * Step(u));
      hide RealSum, CloseAt, Times;
    }
  }

  lemma OneMoreTimes(n: nat, x: real)
    ensures Times((n + 1) as real, x) == Times(n as real, x) + x
  {
  }

  ghost function Squares(values: seq<u32>): int -> real
  {
    (i: int) => if 0 <= i < |values| && IsFinite(values[i])
                then Times(Value(Magnitude(values[i])), Value(Magnitude(values[i]))) else 0.0
  }

  lemma {:induction false} SquaresRescale(values: seq<u32>, maxAbs: AbsBits, n: nat)
    requires Ready(values, maxAbs) && n <= |values|
    ensures RealSum(Squares(values), 0, n)
            == Times(Times(Value(maxAbs), Value(maxAbs)), RealSum(ExactTerms(values, maxAbs), 0, n))
    decreases n
  {
    hide Value, Ratio;
    if n != 0 {
      var m := Magnitude(values[n - 1]);
      SquaresRescale(values, maxAbs, n - 1);
      SumStep(Squares(values), n - 1);
      SumStep(ExactTerms(values, maxAbs), n - 1);
      RatioTimes(m, maxAbs);
      RescaleOne(Value(m), Value(maxAbs), Ratio(m, maxAbs), RealSum(ExactTerms(values, maxAbs), 0, n - 1));
      hide RealSum, Times;
    }
  }

  lemma SumStep(f: int -> real, n: nat)
    ensures RealSum(f, 0, n + 1) == RealSum(f, 0, n) + f(n)
  {
  }

  lemma RatioTimes(m: AbsBits, maxAbs: AbsBits)
    requires m < INFINITY && 0 < maxAbs < INFINITY
    ensures Times(Ratio(m, maxAbs), Value(maxAbs)) == Value(m)
  {
    ZeroIsZero(maxAbs);
  }

  lemma RescaleOne(a: real, b: real, q: real, rest: real)
    requires Times(q, b) == a
    ensures Times(Times(b, b), rest + Times(q, q)) == Times(Times(b, b), rest) + Times(a, a)
  {
    Regroup(q, b, a);
    assert (b * b) * (rest + q * q) == (b * b) * rest + (b * b) * (q * q);
  }

  lemma Regroup(q: real, b: real, a: real)
    requires q * b == a
    ensures (b * b) * (q * q) == a * a
  {
    assert (b * b) * (q * q) == (q * b) * (q * b);
  }

  /** A non-negative number whose square is the sum of the squared magnitudes. */
  ghost predicate IsNorm(norm: real, values: seq<u32>)
  {
    norm >= 0.0 && Times(norm, norm) == RealSum(Squares(values), 0, |values|)
  }

  lemma RescaledNorm(norm: real, b: real, sigma: real, total: real)
    requires b > 0.0 && norm >= 0.0 && sigma == norm / b
    requires Times(norm, norm) == Times(Times(b, b), total)
    ensures Times(sigma, sigma) == total && sigma >= 0.0 && Times(b, sigma) == norm
  {
    assert sigma * b == norm;
    Regroup(sigma, b, norm);
    TimesPositive(b, b);
    Cancel(Times(b, b), sigma * sigma, total, norm * norm);
  }

  lemma TimesPositive(a: real, b: real)
    requires a > 0.0 && b > 0.0
    ensures Times(a, b) > 0.0
  {
    Positive(a, b);
  }

  lemma Cancel(c: real, x: real, y: real, n: real)
    requires c != 0.0 && c * x == n && c * y == n
    ensures x == y
  {
    assert c * (x - y) == c * x - c * y;
  }

  /** `a` is `x` up to `k` relative errors and one absolute error of at most `e`. */
  ghost predicate Nearly(a: real, x: real, u: real, k: nat, e: real)
  {
    x * PowR(1.0 - u, k) - e <= a <= x * PowR(1.0 + u, k) + e
  }

  /** Root and rescale: from the total to the result. */
  lemma ResultError(ar: Arith, u: real, m: AbsBits, t: AbsBits, sigma: real, j: nat, i: nat)
    requires ar.Valid() && Unit(u) && SmallUnit(u) && Standard(ar, u) && Gradual(ar, u)
    requires 0 < m < INFINITY && ONE <= t < INFINITY && sigma >= 0.0
    requires j <= 2 * i && Within(Value(t), Times(sigma, sigma), u, j)
    requires ar.Mul(m, ar.Sqrt(t)) < INFINITY
    ensures Nearly(Value(ar.Mul(m, ar.Sqrt(t))), Times(Value(m), sigma), u, i + 2, Step(u))
  {
    RootFinite(ar, m, t);
    hide Times, Within, Rounded, Standard, Gradual, Value, MinNormal, Arith.Mul, SmallUnit, Step, Nearly, Arith.Valid,
      Arith.Sqrt;
    var w := ar.Sqrt(t);
    RootError(ar, u, t, sigma, j, i);
    TimesNonNegative(Value(m), sigma);
    TimesExact(Value(m), Value(w), sigma, u, i + 1);
    ProductError(ar, u, m, w, Times(Value(m), sigma), i + 1);
  }

  lemma RootFinite(ar: Arith, m: AbsBits, t: AbsBits)
    requires m < INFINITY && ar.Mul(m, ar.Sqrt(t)) < INFINITY
    ensures ar.Sqrt(t) < INFINITY
  {
  }

  lemma ProductError(ar: Arith, u: real, m: AbsBits, w: AbsBits, x: real, k: nat)
    requires ar.Valid() && Unit(u) && SmallUnit(u) && Standard(ar, u) && Gradual(ar, u)
    requires m < INFINITY && w < INFINITY && ar.Mul(m, w) < INFINITY && x >= 0.0
    requires Within(Times(Value(m), Value(w)), x, u, k)
    ensures Nearly(Value(ar.Mul(m, w)), x, u, k + 1, Step(u))
  {
    MulIs(ar, m, w);
    StepPositive(u);
    var p := Times(Value(m), Value(w));
    hide Arith.Mul, Times, Value, MinNormal, Step, Within, Rounded, Nearly, Arith.Valid;
    if p >= MinNormal() {
      assert Rounded(Value(ar.round(p)), p, u);
      WithinRounded(Value(ar.round(p)), p, x, u, k);
      WithinNearly(Value(ar.round(p)), x, u, k + 1, Step(u));
    } else {
      WithinMore(p, x, u, k, k + 1);
      ShiftNearly(Value(ar.round(p)), p, x, u, k + 1, Step(u));
    }
  }

  lemma WithinNearly(a: real, x: real, u: real, k: nat, e: real)
    requires Within(a, x, u, k) && e >= 0.0
    ensures Nearly(a, x, u, k, e)
  {
    hide PowR;
  }

  lemma ShiftNearly(a: real, p: real, x: real, u: real, k: nat, e: real)
    requires Within(p, x, u, k) && Apart(a, p) <= e
    ensures Nearly(a, x, u, k, e)
  {
    hide PowR;
  }

  lemma RootError(ar: Arith, u: real, t: AbsBits, sigma: real, j: nat, i: nat)
    requires ar.Valid() && Unit(u) && Standard(ar, u) && ONE <= t < INFINITY && sigma >= 0.0
    requires j <= 2 * i && Within(Value(t), Times(sigma, sigma), u, j) && ar.Sqrt(t) < INFINITY
    ensures Within(Value(ar.Sqrt(t)), sigma, u, i + 1)
  {
    RootSquared(ar, t);
    hide Times, Within, Rounded, Standard, Value, MinNormal;
    SqrtAtLeastOne(ar, t);
    hide Arith.Valid;
    WithinRoot(ar.root(Value(t)), sigma, u, j, i);
    RoundNear(ar, u, ar.root(Value(t)));
    WithinRounded(Value(ar.Sqrt(t)), ar.root(Value(t)), sigma, u, i);
  }

  lemma RootSquared(ar: Arith, t: AbsBits)
    requires ar.Valid() && t < INFINITY
    ensures Times(ar.root(Value(t)), ar.root(Value(t))) == Value(t)
  {
  }

  lemma OneIsLarge(w: AbsBits)
    requires ONE <= w < INFINITY
    ensures Value(w) >= 1.0
  {
    ValueOfOne();
    if w > ONE {
      ValueMonotone(ONE, w);
    }
  }

  lemma TimesExact(m: real, a: real, x: real, u: real, k: nat)
    requires m >= 0.0 && Within(a, x, u, k)
    ensures Within(Times(m, a), Times(m, x), u, k)
  {
    hide PowR;
    TimesBelow(m, a, x, PowR(1.0 + u, k));
    TimesAbove(m, a, x, PowR(1.0 - u, k));
  }

  lemma TimesBelow(m: real, a: real, x: real, p: real)
    requires m >= 0.0 && a <= x * p
    ensures m * a <= (m * x) * p
  {
    MulMonotone(a, x * p, m);
    assert m * (x * p) == (m * x) * p;
  }

  lemma TimesAbove(m: real, a: real, x: real, p: real)
    requires m >= 0.0 && a >= x * p
    ensures m * a >= (m * x) * p
  {
    MulMonotone(x * p, a, m);
    assert m * (x * p) == (m * x) * p;
  }

  /** The bound on the relative error that the oracle uses for `k` operations. */
  ghost function Gamma(u: real, k: nat): real
    requires Errors(u, k) < 1.0
  {
    Errors(u, k) / (1.0 - Errors(u, k))
  }

  lemma GammaIs(u: real, k: nat)
    requires Unit(u) && Errors(u, k) < 1.0
    ensures 0.0 <= Errors(u, k)
    ensures Gamma(u, k) * (1.0 - Errors(u, k)) == Errors(u, k)
  {
    NonNegative(k as real, u);
  }

  lemma GammaTimes(u: real, k: nat, x: real)
    requires Unit(u) && x >= 0.0 && Errors(u, k) < 1.0
    ensures Times(x, PowR(1.0 + u, k)) <= x + Times(Gamma(u, k), x)
    ensures Times(x, PowR(1.0 - u, k)) >= x - Times(Gamma(u, k), x)
  {
    hide PowR, Times, Gamma, Errors;
    ClosedBound(u, k);
    GammaIs(u, k);
    GammaUpper(PowR(1.0 + u, k), Errors(u, k), Gamma(u, k), x);
    GammaLower(PowR(1.0 - u, k), Errors(u, k), Gamma(u, k), x);
  }

  lemma GammaUpper(p: real, h: real, g: real, x: real)
    requires 0.0 <= h < 1.0 && x >= 0.0 && p * (1.0 - h) <= 1.0 && g * (1.0 - h) == h
    ensures Times(x, p) <= x + Times(g, x)
  {
    assert (1.0 + g) * (1.0 - h) == 1.0;
    DivideBy(p, 1.0 + g, 1.0 - h);
    MulMonotone(p, 1.0 + g, x);
  }

  lemma DivideBy(p: real, q: real, c: real)
    requires c > 0.0 && p * c <= q * c
    ensures p <= q
  {
    if p > q {
      Positive(p - q, c);
    }
  }

  lemma GammaLower(p: real, h: real, g: real, x: real)
    requires 0.0 <= h < 1.0 && x >= 0.0 && p >= 1.0 - h && g * (1.0 - h) == h
    ensures Times(x, p) >= x - Times(g, x)
  {
    assert g - h == g * h;
    if g < 0.0 {
      Positive(0.0 - g, 1.0 - h);
    }
    NonNegative(g, h);
    MulMonotone(1.0 - g, p, x);
    assert (1.0 - g) * x == x - g * x;
  }

  /** The number of operations the oracle charges. */
  function Operations(count: nat): nat
    requires count > 0
  {
    12 + BitLength((count + BLOCK - 1) / BLOCK - 1)
  }

  lemma OperationsIsDepth(count: nat)
    requires count > 0
    ensures Operations(count) == 12 + Depth(count)
  {
    var units := Units(count);
    assert (count + BLOCK - 1) / BLOCK == units;
    var l, d := BitLength(units - 1), Depth(count);
    BitLengthBounds(units - 1);
    if l < d {
      Pow2Monotone(l, d - 1);
    } else if d < l {
      Pow2Monotone(d, l - 1);
    }
  }

  // ---------- the published bound ----------

  lemma {:induction false} SumAtLeast(f: int -> real, n: nat, i: nat)
    requires i < n && forall k :: 0 <= k < n ==> f(k) >= 0.0
    ensures RealSum(f, 0, n) >= f(i)
    decreases n
  {
    SumStep(f, n - 1);
    if i < n - 1 {
      SumAtLeast(f, n - 1, i);
    } else {
      SumNonNegative(f, n - 1);
    }
  }

  lemma {:induction false} SumNonNegative(f: int -> real, n: nat)
    requires forall k :: 0 <= k < n ==> f(k) >= 0.0
    ensures RealSum(f, 0, n) >= 0.0
    decreases n
  {
    if n > 0 {
      SumStep(f, n - 1);
      SumNonNegative(f, n - 1);
    }
  }

  /** The largest value has ratio one, so the exact total is at least one. */
  lemma ExactTotalAtLeastOne(values: seq<u32>, maxAbs: AbsBits)
    requires Ready(values, maxAbs) && values != [] && maxAbs == MaxMagnitude(values)
    ensures RealSum(ExactTerms(values, maxAbs), 0, |values|) >= 1.0
  {
    MaxAttained(values);
    var i :| 0 <= i < |values| && Magnitude(values[i]) == maxAbs;
    SelfRatio(maxAbs);
    TermsNonNegative(values, maxAbs);
    hide Ratio, Times;
    assert ExactTerms(values, maxAbs)(i) == Times(Ratio(maxAbs, maxAbs), Ratio(maxAbs, maxAbs));
    SumAtLeast(ExactTerms(values, maxAbs), |values|, i);
  }

  lemma SelfRatio(maxAbs: AbsBits)
    requires 0 < maxAbs < INFINITY
    ensures Times(Ratio(maxAbs, maxAbs), Ratio(maxAbs, maxAbs)) == 1.0
  {
    ZeroIsZero(maxAbs);
    hide Value;
    SelfQuotient(Value(maxAbs));
    assert Ratio(maxAbs, maxAbs) == 1.0;
  }

  lemma SelfQuotient(v: real)
    requires v > 0.0
    ensures v / v == 1.0
  {
  }

  lemma TermsNonNegative(values: seq<u32>, maxAbs: AbsBits)
    requires Ready(values, maxAbs)
    ensures forall k :: ExactTerms(values, maxAbs)(k) >= 0.0
  {
    forall k: int
      ensures ExactTerms(values, maxAbs)(k) >= 0.0
    {
      if 0 <= k < |values| && IsFinite(values[k]) {
        TimesNonNegative(Ratio(Magnitude(values[k]), maxAbs), Ratio(Magnitude(values[k]), maxAbs));
      }
      hide Times, Ratio;
    }
  }

  /** Square roots of near numbers, when the reference is at least one. */
  lemma RootDrift(s: real, sigma: real, d: real)
    requires s >= 0.0 && sigma >= 1.0 && d >= 0.0 && Apart(Times(s, s), Times(sigma, sigma)) <= d
    ensures Apart(s, sigma) <= Times(sigma, d)
  {
    SquaresApart(if s >= sigma then s else sigma, if s >= sigma then sigma else s);
    NonNegative(sigma - 1.0, d);
    assert (sigma - 1.0) * d == sigma * d - d;
  }

  lemma SquaresApart(high: real, low: real)
    requires high >= low >= 0.0 && high >= 1.0
    ensures high - low <= high * high - low * low
  {
    NonNegative(high - low, high + low - 1.0);
    assert (high - low) * (high + low - 1.0) == high * high - low * low - (high - low);
  }

  lemma AtLeastOne(sigma: real)
    requires sigma >= 0.0 && Times(sigma, sigma) >= 1.0
    ensures sigma >= 1.0
  {
    assert (1.0 - sigma) * sigma == sigma - sigma * sigma;
    if sigma < 1.0 {
      NonNegative(1.0 - sigma, sigma);
    }
  }

  /** Relative errors, the drift of the total, and one absolute error, put together. */
  lemma Combine(a: real, x: real, norm: real, g: real, d: real, e: real)
    requires norm >= 0.0 && x >= 0.0 && 0.0 <= g <= 1.0 && d >= 0.0 && e >= 0.0
    requires x - Times(g, x) - e <= a <= x + Times(g, x) + e
    requires Apart(x, norm) <= Times(norm, d)
    ensures Apart(a, norm) <= Times(g + 2.0 * d, norm) + e
  {
    var drift := norm * d;
    NonNegative(norm, d);
    CombineAbove(x, norm, g, drift);
    CombineBelow(x, norm, g, drift);
    assert (g + 2.0 * d) * norm == g * norm + 2.0 * (norm * d);
  }

  lemma CombineAbove(x: real, norm: real, g: real, drift: real)
    requires 0.0 <= g <= 1.0 && drift >= 0.0 && x <= norm + drift
    ensures x + g * x <= norm + g * norm + 2.0 * drift
  {
    MulMonotone(x, norm + drift, g);
    NonNegative(1.0 - g, drift);
    assert (1.0 - g) * drift == drift - g * drift;
    assert (norm + drift) * g == g * norm + g * drift;
    assert x * g == g * x;
  }

  lemma CombineBelow(x: real, norm: real, g: real, drift: real)
    requires 0.0 <= g <= 1.0 && drift >= 0.0 && x >= norm - drift
    ensures x - g * x >= norm - g * norm - 2.0 * drift
  {
    MulMonotone(norm - drift, x, 1.0 - g);
    NonNegative(g, drift);
    assert (1.0 - g) * x == x - g * x;
    assert (1.0 - g) * (norm - drift) == norm - drift - g * norm + g * drift;
  }

  /** The number of relative errors that count: the square root halves those of the total. */
  ghost function Roundings(count: nat): nat { (12 + Depth(count)) / 2 + 2 }

  /** How far underflow can move the total, four steps for every value. */
  ghost function Drift(u: real, count: nat): real { Times(count as real, 4.0 * Step(u)) }

  lemma DriftNonNegative(u: real, count: nat)
    requires SmallUnit(u)
    ensures Drift(u, count) >= 0.0
  {
    StepPositive(u);
    hide Step;
    NonNegative(count as real, 4.0 * Step(u));
  }

  /**
   The computed scale of any non-zero input is the exact norm up to a relative error
   that grows with the depth of the tree, so with the logarithm of the element
   count, and what underflow adds: a drift of the total and one last step.
   */
  lemma ScaleError(ar: Arith, u: real, values: seq<u32>, capacity: Option<nat>, norm: real)
    requires ar.Valid() && Unit(u) && SmallUnit(u) && Standard(ar, u) && Gradual(ar, u)
    requires ScaleOf(ar, values, capacity).0 == Ok && AllFinite(values) && MaxMagnitude(values) > 0
    requires IsNorm(norm, values) && Errors(u, Roundings(|values|)) <= 0.5
    ensures ScaleOf(ar, values, capacity).1 < INFINITY
    ensures Apart(Value(ScaleOf(ar, values, capacity).1), norm)
            <= Times(Gamma(u, Roundings(|values|)) + 2.0 * Drift(u, |values|), norm) + Step(u)
  {
    MaxDecides(values);
    hide PowR, Arith.Valid, Standard, Gradual, SmallUnit, Gamma, Errors, RealSum, Root, Value, MinNormal, Times,
      Total, Depth, Step, Drift;
    var m := MaxMagnitude(values);
    ResultInRange(ar, values, m);
    RescaledError(ar, u, values, m, norm);
  }

  lemma RescaledError(ar: Arith, u: real, values: seq<u32>, m: AbsBits, norm: real)
    requires Analysed(ar, u, values, m) && values != [] && IsNorm(norm, values) && Errors(u, Roundings(|values|)) <= 0.5
    requires ONE <= Total(ar, values, m) < INFINITY && ar.Mul(m, ar.Sqrt(Total(ar, values, m))) < INFINITY
    ensures Apart(Value(ar.Mul(m, ar.Sqrt(Total(ar, values, m)))), norm)
            <= Times(Gamma(u, Roundings(|values|)) + 2.0 * Drift(u, |values|), norm) + Step(u)
  {
    hide Arith.Mul, Arith.Sqrt, Standard, Gradual, SmallUnit, RealSum, Value, Times, Total, Depth, Nearly, Step,
      NearTerms, MaxMagnitude, Arith.Valid, Errors, Gamma, Drift, IsNorm, Roundings, Apart;
    var s, near := NearRoot(ar, u, values, m, norm);
    ScaleNearly(ar, u, values, m, s);
    FinalBound(Value(ar.Mul(m, ar.Sqrt(Total(ar, values, m)))), near, norm, u, |values|);
  }

  lemma FinalBound(a: real, near: real, norm: real, u: real, count: nat)
    requires Unit(u) && SmallUnit(u) && Errors(u, Roundings(count)) <= 0.5 && near >= 0.0 && norm >= 0.0
    requires Nearly(a, near, u, Roundings(count), Step(u)) && Apart(near, norm) <= Times(norm, Drift(u, count))
    ensures Apart(a, norm) <= Times(Gamma(u, Roundings(count)) + 2.0 * Drift(u, count), norm) + Step(u)
  {
    hide Nearly, Gamma, Errors, Step, Drift, Roundings, Times, SmallUnit;
    var k := Roundings(count);
    NearlyGamma(a, near, u, k, Step(u));
    GammaRange(u, k);
    StepPositive(u);
    DriftNonNegative(u, count);
    Combine(a, near, norm, Gamma(u, k), Drift(u, count), Step(u));
  }

  /** The result against the root of the near total. */
  lemma ScaleNearly(ar: Arith, u: real, values: seq<u32>, m: AbsBits, s: real)
    requires Analysed(ar, u, values, m) && 0 < m && s >= 0.0
             && Times(s, s) == RealSum(NearTerms(ar, values, m), 0, |values|)
    requires ONE <= Total(ar, values, m) < INFINITY && ar.Mul(m, ar.Sqrt(Total(ar, values, m))) < INFINITY
    ensures Nearly(Value(ar.Mul(m, ar.Sqrt(Total(ar, values, m)))), Times(Value(m), s), u, Roundings(|values|), Step(u))
  {
    hide Arith.Mul, Arith.Sqrt, Standard, Gradual, SmallUnit, Within, RealSum, Value, Times, Total, Depth, Nearly,
      Step, NearTerms, MaxMagnitude, Arith.Valid;
    TotalError(ar, u, values, m);
    hide Ready;
    ResultError(ar, u, m, Total(ar, values, m), s, 11 + Depth(|values|), (12 + Depth(|values|)) / 2);
  }

  /** The root of the total of the near terms, and the norm that belongs to it. */
  lemma NearRoot(ar: Arith, u: real, values: seq<u32>, m: AbsBits, norm: real) returns (s: real, near: real)
    requires Analysed(ar, u, values, m) && values != [] && IsNorm(norm, values)
    ensures s >= 0.0 && Times(s, s) == RealSum(NearTerms(ar, values, m), 0, |values|)
    ensures near == Times(Value(m), s) >= 0.0 && norm >= 0.0
    ensures Apart(near, norm) <= Times(norm, Drift(u, |values|))
  {
    ZeroIsZero(m);
    hide Value, RealSum, Ratio, NearTerm, Standard, Gradual, Step, MinNormal;
    var exact, y := RealSum(ExactTerms(values, m), 0, |values|), RealSum(NearTerms(ar, values, m), 0, |values|);
    NearTotal(ar, u, values, m, |values|);
    NearTermsNonNegative(ar, values, m, |values|);
    ExactTotalAtLeastOne(values, m);
    SquaresRescale(values, m, |values|);
    s := ar.root(y);
    near := Times(Value(m), s);
    var sigma := norm / Value(m);
    hide Times, SmallUnit;
    assert Times(s, s) == y by { RootIs(ar, y); }
    RescaledNorm(norm, Value(m), sigma, exact);
    AtLeastOne(sigma);
    DriftNonNegative(u, |values|);
    RootDrift(s, sigma, Drift(u, |values|));
    hide Drift, Arith.Valid;
    ScaleApart(Value(m), s, sigma, norm, Drift(u, |values|));
  }

  lemma RootIs(ar: Arith, y: real)
    requires ar.Valid() && y >= 0.0
    ensures ar.root(y) >= 0.0 && Times(ar.root(y), ar.root(y)) == y
  {
  }

  lemma ScaleApart(b: real, s: real, sigma: real, norm: real, d: real)
    requires b > 0.0 && s >= 0.0 && Times(b, sigma) == norm && Apart(s, sigma) <= Times(sigma, d)
    ensures Times(b, s) >= 0.0 && Apart(Times(b, s), norm) <= Times(norm, d)
  {
    NonNegative(b, s);
    MulMonotone(s - sigma, sigma * d, b);
    MulMonotone(sigma - s, sigma * d, b);
    assert b * (s - sigma) == b * s - norm;
    assert b * (sigma - s) == norm - b * s;
    assert b * (sigma * d) == norm * d;
  }

  lemma {:induction false} NearTermsNonNegative(ar: Arith, values: seq<u32>, maxAbs: AbsBits, n: nat)
    requires Ready(values, maxAbs)
    ensures RealSum(NearTerms(ar, values, maxAbs), 0, n) >= 0.0
  {
    forall k | 0 <= k < n
      ensures NearTerms(ar, values, maxAbs)(k) >= 0.0
    {
      if k < |values| {
        TimesNonNegative(Ratio(Magnitude(values[k]), maxAbs), Ratio(Magnitude(values[k]), maxAbs));
      }
      hide Times, Ratio, Term, NormalTerm;
    }
    SumNonNegative(NearTerms(ar, values, maxAbs), n);
  }

  lemma NearlyGamma(a: real, x: real, u: real, k: nat, e: real)
    requires Unit(u) && x >= 0.0 && Errors(u, k) < 1.0 && Nearly(a, x, u, k, e)
    ensures x - Times(Gamma(u, k), x) - e <= a <= x + Times(Gamma(u, k), x) + e
  {
    NearlyIs(a, x, u, k, e);
    hide PowR, Gamma, Errors, Times, Nearly;
    GammaTimes(u, k, x);
  }

  lemma NearlyIs(a: real, x: real, u: real, k: nat, e: real)
    requires Nearly(a, x, u, k, e)
    ensures Times(x, PowR(1.0 - u, k)) - e <= a <= Times(x, PowR(1.0 + u, k)) + e
  {
    hide PowR;
  }

  lemma GammaRange(u: real, k: nat)
    requires Unit(u) && Errors(u, k) <= 0.5
    ensures 0.0 <= Gamma(u, k) <= 1.0
  {
    NonNegative(k as real, u);
    QuotientRange(Errors(u, k));
  }

  lemma QuotientRange(h: real)
    requires 0.0 <= h <= 0.5
    ensures 0.0 <= h / (1.0 - h) <= 1.0
  {
    QuotientAtMostOne(h, 1.0 - h);
    var g := h / (1.0 - h);
    assert g * (1.0 - h) == h;
    if g < 0.0 {
      Positive(0.0 - g, 1.0 - h);
    }
  }

  /** One rounding to nearest: 2^-24. */
  ghost function Roundoff(): real { Exp2(-24) }

  /** Rounding to nearest, with gradual underflow. */
  ghost predicate Nearest(ar: Arith) { ar.Valid() && Standard(ar, Roundoff()) && Gradual(ar, Roundoff()) }

  /** The oracle's relative error of the scale, underflow included. */
  ghost function Epsilon(count: nat, norm: real): real
    requires count > 0 && norm > 0.0 && Errors(Roundoff(), Operations(count)) < 1.0
  {
    Gamma(Roundoff(), Operations(count)) + (4.0 * count as real * Exp2(-149) + Exp2(-149) / (2.0 * norm))
  }

  /** The bound that the oracle publishes for the scale. */
  ghost function PublishedBound(count: nat, norm: real): real
    requires count > 0 && norm > 0.0 && Errors(Roundoff(), Operations(count)) < 1.0
  {
    norm * Epsilon(count, norm)
  }

  lemma RoundoffSmall()
    ensures Unit(Roundoff()) && SmallUnit(Roundoff()) && Roundoff() <= 1.0 / 65536.0
  {
    hide Exp2, Pow2;
    Exp2Order(-126, -24);
    Exp2Order(-24, -16);
    Exp2Inverse(16);
    Exp2Nat(16);
    Pow2Of32();
    Pow2Add(8, 8);
    LeastNormal();
  }

  lemma LeastNormal()
    ensures MinNormal() == Exp2(-126)
  {
    Exp2Add(-149, 23);
    Exp2Nat(23);
    Pow2Of23();
    hide Exp2;
    assert Value(FRACTION) == Dyadic(FRACTION, -149);
  }

  lemma Pow2Of23()
    ensures Pow2(23) == FRACTION
  {
    Pow2Of32();
    Pow2Add(8, 15);
    Pow2Add(8, 7);
  }

  /** The step is half the spacing 2^-149 of the subnormal numbers. */
  lemma StepIs()
    ensures 2.0 * Step(Roundoff()) == Exp2(-149)
  {
    hide Exp2, MinNormal, Times;
    LeastNormal();
    TimesInverse(-150, 24);
    Exp2Step(-150);
  }

  lemma TimesInverse(a: int, k: nat)
    ensures Times(Exp2(a + k), Exp2(0 - k)) == Exp2(a)
  {
    Exp2Add(a, k);
    Exp2Inverse(k);
    hide Exp2;
    StepProduct(Exp2(a), Exp2(k), Exp2(0 - k));
  }

  lemma StepProduct(a: real, b: real, c: real)
    requires c * b == 1.0
    ensures (a * b) * c == a
  {
    assert (a * b) * c == a * (c * b);
  }

  /** No 64-bit count has more than 56 levels over its blocks. */
  lemma DepthBelow(count: nat)
    requires 0 < count <= SIZE_MAX
    ensures Depth(count) <= 56
  {
    var d, units := Depth(count), Units(count);
    assert d == 0 || Pow2(d - 1) < units;
    assert units <= 0x100_0000_0000_0000;
    Pow2Of56();
    hide Pow2, Units;
    if d > 56 {
      Pow2Monotone(56, d - 1);
    }
  }

  lemma FewErrors(count: nat)
    requires 0 < count <= SIZE_MAX
    ensures Errors(Roundoff(), Operations(count)) <= 0.125 && Roundings(count) <= Operations(count)
  {
    hide Roundoff, Depth, Operations, Exp2, MinNormal;
    OperationsIsDepth(count);
    DepthBelow(count);
    RoundoffSmall();
    FewTimes(Operations(count), Roundoff());
  }

  lemma FewTimes(k: nat, u: real)
    requires k <= 68 && 0.0 <= u <= 1.0 / 65536.0
    ensures Errors(u, k) <= 0.125
  {
    var h := 1.0 / 65536.0 - u;
    NonNegative(k as real, h);
    assert k as real * h == k as real / 65536.0 - k as real * u;
  }

  lemma GammaMonotone(u: real, a: nat, b: nat)
    requires Unit(u) && a <= b && Errors(u, b) <= 0.5
    ensures Errors(u, a) <= Errors(u, b) && Gamma(u, a) <= Gamma(u, b)
  {
    NonNegative((b - a) as real, u);
    assert (b - a) as real * u == b as real * u - a as real * u;
    NonNegative(a as real, u);
    QuotientsInOrder(Errors(u, a), Errors(u, b));
  }

  lemma QuotientsInOrder(x: real, y: real)
    requires 0.0 <= x <= y <= 0.5
    ensures x / (1.0 - x) <= y / (1.0 - y)
  {
    var p, q := x / (1.0 - x), y / (1.0 - y);
    assert p * (1.0 - x) == x && q * (1.0 - y) == y;
    QuotientRange(x);
    NonNegative(p, y - x);
    assert p * (1.0 - y) == p * (1.0 - x) - p * (y - x);
    DivideBy(p, q, 1.0 - y);
  }

  /** For every non-zero input the computed scale meets the published bound. */
  lemma PublishedScaleBound(ar: Arith, values: seq<u32>, capacity: Option<nat>, norm: real)
    requires Nearest(ar) && ScaleOf(ar, values, capacity).0 == Ok && AllFinite(values) && MaxMagnitude(values) > 0
    requires |values| <= SIZE_MAX && IsNorm(norm, values)
    ensures 0 < |values| && norm > 0.0 && Errors(Roundoff(), Operations(|values|)) < 1.0
    ensures ScaleOf(ar, values, capacity).1 < INFINITY
    ensures Apart(Value(ScaleOf(ar, values, capacity).1), norm) <= PublishedBound(|values|, norm)
  {
    hide ScaleOf, MaxMagnitude, IsNorm, Value, MinNormal, Exp2, Operations, Roundings, Errors, Gamma, Step,
      Arith.Valid, Roundoff, Standard, Gradual, Drift, PublishedBound, Unit, SmallUnit, Apart;
    NormPositive(values, norm);
    FewErrors(|values|);
    RoundoffSmall();
    GammaMonotone(Roundoff(), Roundings(|values|), Operations(|values|));
    ScaleError(ar, Roundoff(), values, capacity, norm);
    WithinPublished(|values|, norm);
  }

  lemma WithinPublished(n: nat, norm: real)
    requires 0 < n <= SIZE_MAX && norm > 0.0
    ensures Errors(Roundoff(), Operations(n)) < 1.0 && Errors(Roundoff(), Roundings(n)) < 1.0
    ensures Times(Gamma(Roundoff(), Roundings(n)) + 2.0 * Drift(Roundoff(), n), norm) + Step(Roundoff())
            <= PublishedBound(n, norm)
  {
    hide MinNormal, Exp2, Operations, Roundings, Errors, Gamma, Step, Roundoff, Unit, SmallUnit, Times;
    var u := Roundoff();
    FewErrors(n);
    RoundoffSmall();
    GammaMonotone(u, Roundings(n), Operations(n));
    StepIs();
    Gather(n as real, norm, Gamma(u, Roundings(n)), Gamma(u, Operations(n)), Step(u));
  }

  lemma NormPositive(values: seq<u32>, norm: real)
    requires AllFinite(values) && MaxMagnitude(values) > 0 && IsNorm(norm, values)
    ensures values != [] && norm > 0.0
  {
    MaxDecides(values);
    var m := MaxMagnitude(values);
    ZeroIsZero(m);
    ExactTotalAtLeastOne(values, m);
    SquaresRescale(values, m, |values|);
    hide Value, RealSum, Squares, ExactTerms;
    TimesPositive(Value(m), Value(m));
    TimesPositive(Times(Value(m), Value(m)), RealSum(ExactTerms(values, m), 0, |values|));
    assert Times(norm, norm) > 0.0;
  }

  lemma Gather(n: real, norm: real, g: real, h: real, step: real)
    requires norm > 0.0 && g <= h
    ensures Times(g + 2.0 * Times(n, 4.0 * step), norm) + step
            <= norm * (h + (4.0 * n * (2.0 * step) + (2.0 * step) / (2.0 * norm)))
  {
    assert ((2.0 * step) / (2.0 * norm)) * norm == step;
    assert norm * (h + (4.0 * n * (2.0 * step) + (2.0 * step) / (2.0 * norm)))
        == norm * h + norm * (8.0 * (n * step)) + step;
    assert (g + 2.0 * (n * (4.0 * step))) * norm == g * norm + norm * (8.0 * (n * step));
    MulMonotone(g, h, norm);
  }

  /** A finite result means that no step overflowed. */
  lemma ResultInRange(ar: Arith, values: seq<u32>, maxAbs: AbsBits)
    requires ar.Valid() && Ready(values, maxAbs) && maxAbs == MaxMagnitude(values) && values != []
    requires Rescaled(ar, values, maxAbs).0 == Ok
    ensures ONE <= Total(ar, values, maxAbs) < INFINITY
    ensures Rescaled(ar, values, maxAbs).1 == ar.Mul(maxAbs, ar.Sqrt(Total(ar, values, maxAbs))) < INFINITY
  {
    MaxAttained(values);
    var i :| 0 <= i < |values| && Magnitude(values[i]) == maxAbs;
    LargestTerm(ar, values[i], maxAbs);
    TotalAtLeastTerm(ar, values, maxAbs, i);
  }
}
