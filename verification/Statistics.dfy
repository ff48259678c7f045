/** Medians, percentiles, spreads and speedups of timing samples, over real numbers. */
module Statistics {
  import opened Words
  import opened Counting

  type Samples = seq<real>

  // ---------- sorting ----------

  predicate Sorted(s: Samples)
  {
    forall i, j :: 0 <= i < j < |s| ==> s[i] <= s[j]
  }

  /** `x` put in its place. */
  function Insert(s: Samples, x: real): (r: Samples)
    requires Sorted(s)
    ensures |r| == |s| + 1 && Sorted(r)
    ensures forall i :: 0 <= i < |r| ==> r[i] == x || r[i] in s
  {
    if s == [] || s[|s| - 1] <= x then s + [x]
    else Insert(s[..|s| - 1], x) + [s[|s| - 1]]
  }

  function Sort(s: Samples): (r: Samples)
    ensures |r| == |s| && Sorted(r)
  {
    if s == [] then [] else Insert(Sort(s[..|s| - 1]), s[|s| - 1])
  }

  lemma {:induction false} InsertCount(s: Samples, x: real, hit: real -> bool)
    requires Sorted(s)
    ensures Count(Insert(s, x), hit) == Count(s, hit) + if hit(x) then 1 else 0
    decreases |s|
  {
    CountOfOne(x, hit);
    if s == [] || s[|s| - 1] <= x {
      CountAppend(s, [x], hit);
    } else {
      var n := |s| - 1;
      assert Count(s, hit) == Count(s[..n], hit) + if hit(s[n]) then 1 else 0;
      hide Count;
      InsertCount(s[..n], x, hit);
      CountAppend(Insert(s[..n], x), [s[n]], hit);
      CountOfOne(s[n], hit);
    }
  }

  lemma CountOfOne(x: real, hit: real -> bool)
    ensures Count([x], hit) == if hit(x) then 1 else 0
  {
    assert [x][..0] == [];
  }

  /** Sorting keeps how many samples satisfy any predicate, so it is a rearrangement. */
  lemma {:induction false} SortCount(s: Samples, hit: real -> bool)
    ensures Count(Sort(s), hit) == Count(s, hit)
    decreases |s|
  {
    if s != [] {
      var n := |s| - 1;
      SortCount(s[..n], hit);
      InsertCount(Sort(s[..n]), s[n], hit);
    }
  }

  ghost function Above(x: real): real -> bool { (v: real) => v > x }
  ghost function AtLeast(x: real): real -> bool { (v: real) => v >= x }

  ghost predicate Upward(hit: real -> bool)
  {
    forall a: real, b: real :: a <= b && hit(a) ==> hit(b)
  }

  /** In a sorted list a place hits exactly when enough samples do. */
  lemma {:induction false} SortedCount(t: Samples, hit: real -> bool, i: nat)
    requires Sorted(t) && Upward(hit) && i < |t|
    ensures hit(t[i]) <==> Count(t, hit) >= |t| - i
    decreases |t|
  {
    var n := |t| - 1;
    if !hit(t[n]) {
      CountNone(t, hit);
    } else if i < n {
      SortedCount(t[..n], hit, i);
    }
  }

  /** The same for the sorted form of any list. */
  lemma RankCount(s: Samples, hit: real -> bool, i: nat)
    requires Upward(hit) && i < |s|
    ensures hit(Sort(s)[i]) <==> Count(s, hit) >= |s| - i
  {
    SortedCount(Sort(s), hit, i);
    SortCount(s, hit);
  }

  lemma RankAbove(s: Samples, x: real, i: nat)
    requires i < |s|
    ensures Sort(s)[i] > x <==> Count(s, Above(x)) >= |s| - i
  {
    hide Sort, Count;
    RankCount(s, Above(x), i);
  }

  lemma RankAtLeast(s: Samples, x: real, i: nat)
    requires i < |s|
    ensures Sort(s)[i] >= x <==> Count(s, AtLeast(x)) >= |s| - i
  {
    hide Sort, Count;
    RankCount(s, AtLeast(x), i);
  }

  ghost function Below(x: real): real -> bool { (v: real) => v < x }
  ghost function AtMost(x: real): real -> bool { (v: real) => v <= x }

  /** Everything that does not hit an upward predicate. */
  lemma {:induction false} CountComplement(s: Samples, f: real -> bool, g: real -> bool)
    requires forall v: real :: f(v) != g(v)
    ensures Count(s, f) + Count(s, g) == |s|
    decreases |s|
  {
    if s != [] {
      CountComplement(s[..|s| - 1], f, g);
    }
  }

  lemma RankBelow(s: Samples, x: real, i: nat)
    requires i < |s|
    ensures Sort(s)[i] < x <==> Count(s, Below(x)) > i
  {
    RankAtLeast(s, x, i);
    CountComplement(s, AtLeast(x), Below(x));
  }

  /** `x` is the sample of rank `k`: at most `k` samples are below it, and more than `k` are not above it. */
  ghost predicate HasRank(s: Samples, k: nat, x: real)
  {
    Count(s, Below(x)) <= k < Count(s, AtMost(x))
  }

  /** Every rank belongs to exactly one number, the one that sorting puts there. */
  lemma RankIs(s: Samples, k: nat, x: real)
    requires k < |s|
    ensures HasRank(s, k, x) <==> x == Sort(s)[k]
  {
    hide Sort, Count;
    RankBelow(s, x, k);
    RankAbove(s, x, k);
    CountComplement(s, Above(x), AtMost(x));
  }

  // ---------- medians ----------

  /** The lower and the upper middle sample; they coincide for an odd number. */
  function LowMiddle(s: Samples): real
    requires s != []
  {
    Sort(s)[(|s| - 1) / 2]
  }

  function HighMiddle(s: Samples): real
    requires s != []
  {
    Sort(s)[|s| / 2]
  }

  function Median(s: Samples): real
    requires s != []
  {
    (LowMiddle(s) + HighMiddle(s)) / 2.0
  }

  function Pooled(trials: seq<Samples>): Samples
  {
    if trials == [] then [] else Pooled(trials[..|trials| - 1]) + trials[|trials| - 1]
  }

  ghost predicate NonEmpty(trials: seq<Samples>)
  {
    forall t :: 0 <= t < |trials| ==> trials[t] != []
  }

  /**
   Twice the hits of the pool outnumber it when that holds trial by trial; `extra`
   counts the trials with one to spare.
   */
  lemma {:induction false} PooledHits(trials: seq<Samples>, hit: real -> bool)
    requires forall t :: 0 <= t < |trials| ==> 2 * Count(trials[t], hit) >= |trials[t]|
    ensures 2 * Count(Pooled(trials), hit) >= |Pooled(trials)|
    decreases |trials|
  {
    if trials != [] {
      var n := |trials| - 1;
      PooledHits(trials[..n], hit);
      CountAppend(Pooled(trials[..n]), trials[n], hit);
    }
  }

  lemma {:induction false} PooledHitsMore(trials: seq<Samples>, hit: real -> bool, j: nat)
    requires j < |trials| && 2 * Count(trials[j], hit) > |trials[j]|
    requires forall t :: 0 <= t < |trials| ==> 2 * Count(trials[t], hit) >= |trials[t]|
    ensures 2 * Count(Pooled(trials), hit) > |Pooled(trials)|
    decreases |trials|
  {
    var n := |trials| - 1;
    CountAppend(Pooled(trials[..n]), trials[n], hit);
    if j < n {
      PooledHitsMore(trials[..n], hit, j);
    } else {
      PooledHits(trials[..n], hit);
    }
  }

  lemma {:induction false} PooledNonEmpty(trials: seq<Samples>)
    requires trials != [] && NonEmpty(trials)
    ensures Pooled(trials) != []
  {
    assert trials[|trials| - 1] != [];
  }

  lemma MiddleOrder(s: Samples)
    requires s != []
    ensures LowMiddle(s) <= HighMiddle(s)
  {
  }

  /** Half of the samples reach the upper middle, and more than half exceed anything below the lower one. */
  lemma TrialHalves(s: Samples, x: real, y: real)
    requires s != []
    ensures HighMiddle(s) >= y ==> 2 * Count(s, AtLeast(y)) >= |s|
    ensures HighMiddle(s) > x ==> 2 * Count(s, Above(x)) >= |s|
    ensures LowMiddle(s) > x ==> 2 * Count(s, Above(x)) > |s|
  {
    RankAtLeast(s, y, |s| / 2);
    RankAbove(s, x, |s| / 2);
    RankAbove(s, x, (|s| - 1) / 2);
  }

  lemma PoolHalves(s: Samples, x: real, y: real)
    requires s != []
    ensures 2 * Count(s, Above(x)) > |s| ==> LowMiddle(s) > x
    ensures 2 * Count(s, AtLeast(y)) >= |s| ==> HighMiddle(s) >= y
  {
    RankAbove(s, x, (|s| - 1) / 2);
    RankAtLeast(s, y, |s| / 2);
  }

  /**
   No trial median above a bound, no pooled median below it: the pool cannot be
   pulled under the smallest trial median, however long the trials are.
   */
  lemma PooledMedianAtLeast(trials: seq<Samples>, bound: real)
    requires trials != [] && NonEmpty(trials)
    requires forall t :: 0 <= t < |trials| ==> trials[t] != [] && Median(trials[t]) >= bound
    ensures Pooled(trials) != [] && Median(Pooled(trials)) >= bound
  {
    PooledNonEmpty(trials);
    hide LowMiddle, HighMiddle, Count;
    var pool := Pooled(trials);
    var x := LowMiddle(pool);
    MiddleOrder(pool);
    if x < bound {
      var y := 2.0 * bound - x;
      forall t | 0 <= t < |trials|
        ensures 2 * Count(trials[t], Above(x)) >= |trials[t]|
        ensures LowMiddle(trials[t]) > x ==> 2 * Count(trials[t], Above(x)) > |trials[t]|
        ensures LowMiddle(trials[t]) <= x ==> 2 * Count(trials[t], AtLeast(y)) >= |trials[t]|
      {
        MiddleOrder(trials[t]);
        assert Median(trials[t]) >= bound;
        TrialHalves(trials[t], x, y);
      }
      PoolHalves(pool, x, y);
      if j :| 0 <= j < |trials| && LowMiddle(trials[j]) > x {
        PooledHitsMore(trials, Above(x), j);
      } else {
        PooledHits(trials, AtLeast(y));
      }
    }
  }

  // ---------- what the median is ----------

  /** At least half of the samples reach `x` and at most half exceed it. */
  ghost predicate Middle(s: Samples, x: real)
  {
    2 * Count(s, AtLeast(x)) >= |s| && 2 * Count(s, Above(x)) <= |s|
  }

  lemma MiddleIs(s: Samples, x: real)
    requires s != []
    ensures Middle(s, x) <==> LowMiddle(s) <= x <= HighMiddle(s)
  {
    hide Sort, Count;
    RankAtLeast(s, x, |s| / 2);
    RankAbove(s, x, (|s| - 1) / 2);
  }

  /** The median is in the middle, and it is the centre of everything that is. */
  lemma MedianIsCentre(s: Samples, x: real)
    requires s != []
    ensures Middle(s, Median(s)) && (Middle(s, x) ==> Middle(s, 2.0 * Median(s) - x))
  {
    hide LowMiddle, HighMiddle, Middle;
    MiddleOrder(s);
    MiddleIs(s, Median(s));
    MiddleIs(s, x);
    MiddleIs(s, 2.0 * Median(s) - x);
  }

  /** Twice the median is the sum of the two middle samples, which are one for an odd number. */
  lemma MedianOfRanks(s: Samples, a: real, b: real)
    requires s != [] && HasRank(s, (|s| - 1) / 2, a) && HasRank(s, |s| / 2, b)
    ensures 2.0 * Median(s) == a + b
  {
    hide Sort, HasRank;
    RankIs(s, (|s| - 1) / 2, a);
    RankIs(s, |s| / 2, b);
  }

  /** Pooling is concatenation: nothing for no trial, the trial itself for one, and part after part for more. */
  lemma {:induction false} PooledJoins(a: seq<Samples>, b: seq<Samples>, s: Samples)
    ensures Pooled([]) == [] && Pooled([s]) == s && Pooled(a + b) == Pooled(a) + Pooled(b)
    decreases |b|
  {
    assert [s][..0] == [];
    if b == [] {
      assert a + b == a;
    } else {
      var n := |b| - 1;
      PooledJoins(a, b[..n], s);
      assert (a + b)[..|a + b| - 1] == a + b[..n];
    }
  }

  /** Where sample `i` of trial `t` is in the pool when every trial has `m` samples. */
  function PoolPlace(t: nat, m: nat, i: nat): nat { t * m + i }

  lemma PlaceBelow(t: nat, m: nat, i: nat, n: nat)
    requires t < n && i < m
    ensures PoolPlace(t, m, i) < n * m && t * m + m <= n * m
  {
    MulOrder(t + 1, n, m);
    assert (t + 1) * m == t * m + m;
  }

  /** Trials of one length stand in the pool one after another. */
  lemma {:induction false} PooledAt(trials: seq<Samples>, m: nat, t: nat, i: nat)
    requires t < |trials| && i < m && forall u :: 0 <= u < |trials| ==> |trials[u]| == m
    ensures |Pooled(trials)| == |trials| * m && PoolPlace(t, m, i) < |trials| * m
    ensures Pooled(trials)[PoolPlace(t, m, i)] == trials[t][i]
    decreases |trials|
  {
    var n := |trials| - 1;
    PlaceBelow(t, m, i, |trials|);
    assert (n + 1) * m == n * m + m;
    if n == 0 {
      assert Pooled(trials[..0]) == [];
    } else if t < n {
      PooledAt(trials[..n], m, t, i);
    } else {
      PooledAt(trials[..n], m, 0, 0);
    }
  }

  // ---------- the upper bound, by reflection ----------

  function Negated(s: Samples): (r: Samples)
    ensures |r| == |s| && forall i :: 0 <= i < |s| ==> r[i] == -s[i]
  {
    seq(|s|, i requires 0 <= i < |s| => -s[i])
  }

  lemma ReflectedRank(s: Samples, x: real, i: nat)
    requires i < |s|
    ensures Sort(Negated(s))[i] > x <==> -Sort(s)[|s| - 1 - i] > x
  {
    hide Sort, Count;
    RankAbove(Negated(s), x, i);
    RankBelow(s, -x, |s| - 1 - i);
    CountSame(Negated(s), Above(x), s, Below(-x));
  }

  lemma ReflectedSort(s: Samples, i: nat)
    requires i < |s|
    ensures Sort(Negated(s))[i] == -Sort(s)[|s| - 1 - i]
  {
    hide Sort;
    ReflectedRank(s, Sort(Negated(s))[i], i);
    ReflectedRank(s, -Sort(s)[|s| - 1 - i], i);
  }

  lemma ReflectedMedian(s: Samples)
    requires s != []
    ensures Median(Negated(s)) == -Median(s)
  {
    hide Sort;
    ReflectedSort(s, (|s| - 1) / 2);
    ReflectedSort(s, |s| / 2);
  }

  function NegatedAll(trials: seq<Samples>): (r: seq<Samples>)
    ensures |r| == |trials| && forall t :: 0 <= t < |trials| ==> r[t] == Negated(trials[t])
  {
    seq(|trials|, t requires 0 <= t < |trials| => Negated(trials[t]))
  }

  lemma {:induction false} PooledReflects(trials: seq<Samples>)
    ensures Pooled(NegatedAll(trials)) == Negated(Pooled(trials))
    decreases |trials|
  {
    if trials != [] {
      var n := |trials| - 1;
      PooledReflects(trials[..n]);
      assert NegatedAll(trials)[..n] == NegatedAll(trials[..n]);
    }
  }

  lemma PooledMedianAtMost(trials: seq<Samples>, bound: real)
    requires trials != [] && NonEmpty(trials)
    requires forall t :: 0 <= t < |trials| ==> trials[t] != [] && Median(trials[t]) <= bound
    ensures Pooled(trials) != [] && Median(Pooled(trials)) <= bound
  {
    PooledNonEmpty(trials);
    var negated := NegatedAll(trials);
    forall t | 0 <= t < |negated|
      ensures negated[t] != [] && Median(negated[t]) >= -bound
    {
      assert trials[t] != [];
      ReflectedMedian(trials[t]);
    }
    PooledMedianAtLeast(negated, -bound);
    PooledReflects(trials);
    ReflectedMedian(Pooled(trials));
  }

  // ---------- one case ----------

  function Medians(trials: seq<Samples>): (m: Samples)
    requires NonEmpty(trials)
    ensures |m| == |trials| && forall t :: 0 <= t < |trials| ==> trials[t] != [] && m[t] == Median(trials[t])
  {
    seq(|trials|, t requires 0 <= t < |trials| => Median(trials[t]))
  }

  function Least(s: Samples): (m: real)
    requires s != []
    ensures m in s && forall i :: 0 <= i < |s| ==> m <= s[i]
  {
    if |s| == 1 then s[0]
    else var m := Least(s[..|s| - 1]); if s[|s| - 1] < m then s[|s| - 1] else m
  }

  function Greatest(s: Samples): (m: real)
    requires s != []
    ensures m in s && forall i :: 0 <= i < |s| ==> m >= s[i]
  {
    if |s| == 1 then s[0]
    else var m := Greatest(s[..|s| - 1]); if s[|s| - 1] > m then s[|s| - 1] else m
  }

  lemma {:induction false} SortedWithin(s: Samples, i: nat)
    requires i < |s|
    ensures Least(s) <= Sort(s)[i] <= Greatest(s)
  {
    RankAtLeast(s, Least(s), i);
    CountEvery(s, AtLeast(Least(s)));
    RankAbove(s, Greatest(s), i);
    CountNone(s, Above(Greatest(s)));
  }

  /** The place of a percentile among `n` sorted samples, in hundredths of a step. */
  function PlaceOf(n: nat, percent: nat): (place: nat)
    requires n > 0 && percent <= 100
    ensures place / 100 < n
  {
    MulOrder(percent, 100, n - 1);
    assert (n - 1) * percent == percent * (n - 1);
    (n - 1) * percent
  }

  /** The `percent`-th percentile with linear interpolation between neighbours. */
  function Percentile(s: Samples, percent: nat): real
    requires s != [] && percent <= 100
  {
    var place := PlaceOf(|s|, percent);
    Between(Sort(s), place / 100, (place % 100) as real / 100.0)
  }

  /** `weight` of the way from sample `low` to the one after it. */
  function Between(t: Samples, low: nat, weight: real): real
    requires low < |t|
  {
    var next := if low + 1 < |t| then low + 1 else low;
    t[low] + weight * (t[next] - t[low])
  }

  lemma Interpolated(a: real, b: real, w: real)
    requires a <= b && 0.0 <= w <= 1.0
    ensures a <= a + w * (b - a) <= b
  {
    Product(w, b - a);
    Product(1.0 - w, b - a);
    assert (1.0 - w) * (b - a) == (b - a) - w * (b - a);
  }

  lemma Product(x: real, y: real)
    requires x >= 0.0 && y >= 0.0
    ensures x * y >= 0.0
  {
  }

  lemma BetweenWithin(t: Samples, low: nat, weight: real, a: real, b: real)
    requires low < |t| && Sorted(t) && 0.0 <= weight <= 1.0 && forall i :: 0 <= i < |t| ==> a <= t[i] <= b
    ensures a <= Between(t, low, weight) <= b
  {
    var next := if low + 1 < |t| then low + 1 else low;
    var p, q := t[low], t[next];
    Interpolated(p, q, weight);
    assert a <= p && q <= b;
    assert Between(t, low, weight) == p + weight * (q - p);
  }

  lemma PercentileWithin(s: Samples, percent: nat)
    requires s != [] && percent <= 100
    ensures Least(s) <= Percentile(s, percent) <= Greatest(s)
  {
    hide Sort, Least, Greatest, PlaceOf, Between;
    forall i | 0 <= i < |s|
      ensures Least(s) <= Sort(s)[i] <= Greatest(s)
    {
      SortedWithin(s, i);
    }
    var place := PlaceOf(|s|, percent);
    BetweenWithin(Sort(s), place / 100, (place % 100) as real / 100.0, Least(s), Greatest(s));
  }

  /**
   The percentile lies on the line between neighbouring ranks: `k` is the rank that
   `percent` of the way from the first to the last sample reaches or has passed.
   */
  lemma PercentileOfRanks(s: Samples, percent: nat, k: nat, a: real, b: real)
    requires percent <= 100 && k + 1 < |s| && 100 * k <= (|s| - 1) * percent <= 100 * (k + 1)
    requires HasRank(s, k, a) && HasRank(s, k + 1, b)
    ensures 100.0 * Percentile(s, percent)
            == (100 * (k + 1) - (|s| - 1) * percent) as real * a + ((|s| - 1) * percent - 100 * k) as real * b
  {
    hide Sort, HasRank, Between;
    RankIs(s, k, a);
    RankIs(s, k + 1, b);
    var place := PlaceOf(|s|, percent);
    hide PlaceOf;
    if place == 100 * (k + 1) {
      DivModUnique(place, 100, k + 1, 0);
      OnSample(Sort(s), k + 1);
    } else {
      DivModUnique(place, 100, k, place - 100 * k);
      OnLine(Sort(s), k, place - 100 * k);
    }
  }

  lemma OnSample(t: Samples, k: nat)
    requires k < |t|
    ensures Between(t, k, 0 as real / 100.0) == t[k]
  {
  }

  lemma OnLine(t: Samples, k: nat, w: nat)
    requires k + 1 < |t|
    ensures 100.0 * Between(t, k, w as real / 100.0) == (100 - w) as real * t[k] + w as real * t[k + 1]
  {
    var a, b, v := t[k], t[k + 1], w as real / 100.0;
    assert 100.0 * v == w as real;
    Weighted(a, b, v, w as real);
  }

  lemma Weighted(a: real, b: real, v: real, w: real)
    requires 100.0 * v == w
    ensures 100.0 * (a + v * (b - a)) == (100.0 - w) * a + w * b
  {
    assert 100.0 * (v * (b - a)) == w * (b - a);
    assert w * (b - a) == w * b - w * a;
  }

  /** A ratio that is infinite when its denominator is not positive. */
  function RatioOf(high: real, low: real): Option<real> { if low > 0.0 then Some(high / low) else None }

  const SPREAD_THRESHOLD := 1.25

  predicate Exceeds(ratio: Option<real>) { ratio.None? || ratio.value > SPREAD_THRESHOLD }

  /** Pooled statistics and the spread of the trial medians. */
  datatype CaseStats = CaseStats(median: real, medians: Samples, low: real, high: real,
                                 spread: Option<real>, spreadP90P10: Option<real>)
  {
    predicate UnstableRev2() { Exceeds(spread) }
    predicate Stable() { !Exceeds(spreadP90P10) }
  }

  function CaseStatistics(trials: seq<Samples>): CaseStats
    requires trials != [] && NonEmpty(trials)
  {
    PooledNonEmpty(trials);
    var medians := Medians(trials);
    var low, high := Least(medians), Greatest(medians);
    CaseStats(Median(Pooled(trials)), medians, low, high, RatioOf(high, low),
              RatioOf(Percentile(medians, 90), Percentile(medians, 10)))
  }

  /** What every computed case satisfies. */
  ghost predicate Consistent(c: CaseStats)
  {
    && c.medians != [] && c.low == Least(c.medians) && c.high == Greatest(c.medians)
    && c.low <= c.median <= c.high
    && (!c.UnstableRev2() ==> c.Stable())
    && (!c.UnstableRev2() <==> c.low > 0.0 && c.high <= 1.25 * c.low)
    && (c.Stable() <==> Percentile(c.medians, 10) > 0.0
                        && Percentile(c.medians, 90) <= 1.25 * Percentile(c.medians, 10))
  }

  /**
   The pooled median lies between the smallest and the largest trial median, and a
   case whose full spread is acceptable has an acceptable percentile spread.
   */
  lemma CaseConsistent(trials: seq<Samples>)
    requires trials != [] && NonEmpty(trials)
    ensures Consistent(CaseStatistics(trials))
  {
    hide Least, Greatest, Median, Percentile, Pooled;
    var medians := Medians(trials);
    PooledMedianAtLeast(trials, Least(medians));
    PooledMedianAtMost(trials, Greatest(medians));
    PercentileWithin(medians, 90);
    PercentileWithin(medians, 10);
    RatioWithin(Greatest(medians), Least(medians));
    RatioWithin(Percentile(medians, 90), Percentile(medians, 10));
    if Least(medians) > 0.0 {
      RatioShrinks(Percentile(medians, 90), Greatest(medians), Percentile(medians, 10), Least(medians));
    }
  }

  /** The numbers of a computed case, trial by trial and over the pool. */
  lemma CaseNumbers(trials: seq<Samples>)
    requires trials != [] && NonEmpty(trials)
    ensures var c := CaseStatistics(trials);
            && Pooled(trials) != [] && c.median == Median(Pooled(trials)) && |c.medians| == |trials|
            && (forall t :: 0 <= t < |trials| ==> trials[t] != [] && c.medians[t] == Median(trials[t]))
            && c.low in c.medians && c.high in c.medians
            && forall t :: 0 <= t < |trials| ==> c.low <= c.medians[t] <= c.high
  {
    hide Median, Percentile, Pooled;
    PooledNonEmpty(trials);
  }

  lemma RatioWithin(high: real, low: real)
    ensures !Exceeds(RatioOf(high, low)) <==> low > 0.0 && high <= 1.25 * low
  {
    if low > 0.0 {
      var q := high / low;
      assert q * low == high;
      if q > 1.25 {
        assert q * low > 1.25 * low;
      } else {
        assert q * low <= 1.25 * low;
      }
    }
  }

  lemma RatioShrinks(a: real, high: real, b: real, low: real)
    requires 0.0 < low <= b && low <= a <= high
    ensures a / b <= high / low
  {
    var q, r := a / b, high / low;
    assert q * b == a && r * low == high;
    if q > r {
      assert q * b >= q * low;
      assert q * low > r * low;
    }
  }

  // ---------- speedups ----------

  datatype Verdict = Faster | Slower | Inconclusive

  datatype Speedup = Speedup(point: Option<real>, low: Option<real>, high: Option<real>, verdict: Verdict)

  const NO_SPEEDUP := Speedup(None, None, None, Inconclusive)

  predicate Positive(c: CaseStats)
  {
    c.median > 0.0 && c.low > 0.0 && c.high > 0.0 && forall t :: 0 <= t < |c.medians| ==> c.medians[t] > 0.0
  }

  /** Point speedup from pooled medians, and a range in which the worst trials meet the best. */
  function Compare(baseline: CaseStats, candidate: CaseStats): Speedup
  {
    if baseline.medians == [] || candidate.medians == [] then NO_SPEEDUP
    else if !Positive(baseline) || !Positive(candidate) then NO_SPEEDUP
    else Ranged(baseline.median / candidate.median, baseline.low / candidate.high, baseline.high / candidate.low)
  }

  function Ranged(point: real, low: real, high: real): (s: Speedup)
    ensures s.point == Some(point) && s.low == Some(low) && s.high == Some(high)
  {
    Speedup(Some(point), Some(low), Some(high),
            if low > 1.0 then Faster else if high < 1.0 then Slower else Inconclusive)
  }

  lemma QuotientOrder(a: real, b: real, c: real, d: real)
    requires 0.0 < a <= b && 0.0 < d <= c
    ensures a / c <= b / d
  {
    var q, r := a / c, b / d;
    assert q * c == a && r * d == b;
    if q > r {
      assert q * c >= q * d;
      assert q * d > r * d;
    }
  }

  /** The point estimate lies inside its range, so a verdict agrees with it. */
  lemma PointInRange(baseline: CaseStats, candidate: CaseStats)
    requires Consistent(baseline) && Consistent(candidate)
    ensures var s := Compare(baseline, candidate);
            && (s.point.None? ==> s.verdict == Inconclusive)
            && (s.point.Some? ==> s.low.Some? && s.high.Some? && s.low.value <= s.point.value <= s.high.value)
            && (s.verdict == Faster ==> s.point.Some? && s.point.value > 1.0)
            && (s.verdict == Slower ==> s.point.Some? && s.point.value < 1.0)
  {
    if Compare(baseline, candidate).point.Some? {
      QuotientOrder(baseline.low, baseline.median, candidate.high, candidate.median);
      QuotientOrder(baseline.median, baseline.high, candidate.median, candidate.low);
    }
  }

  /** Every trial median of both cases is positive. */
  ghost predicate AllPositive(b: CaseStats, c: CaseStats)
  {
    (forall i :: 0 <= i < |b.medians| ==> b.medians[i] > 0.0) && forall j :: 0 <= j < |c.medians| ==> c.medians[j] > 0.0
  }

  /** Every trial median of `a` is below every trial median of `b`. */
  ghost predicate AllBelow(a: CaseStats, b: CaseStats)
  {
    forall i, j :: 0 <= i < |a.medians| && 0 <= j < |b.medians| ==> a.medians[i] < b.medians[j]
  }

  lemma PositiveIs(b: CaseStats, c: CaseStats)
    requires Consistent(b) && Consistent(c)
    ensures Positive(b) && Positive(c) <==> AllPositive(b, c)
  {
    hide Percentile;
    if AllPositive(b, c) {
      var i :| 0 <= i < |b.medians| && b.medians[i] == b.low;
      var j :| 0 <= j < |c.medians| && c.medians[j] == c.low;
      assert b.medians[0] <= b.high && c.medians[0] <= c.high;
    }
  }

  lemma BelowIs(a: CaseStats, b: CaseStats)
    requires Consistent(a) && Consistent(b)
    ensures AllBelow(a, b) <==> a.high < b.low
  {
    hide Percentile;
    if AllBelow(a, b) {
      var i :| 0 <= i < |a.medians| && a.medians[i] == a.high;
      var j :| 0 <= j < |b.medians| && b.medians[j] == b.low;
    }
  }

  lemma RatioAboveOne(a: real, b: real)
    requires b > 0.0
    ensures a / b > 1.0 <==> b < a
    ensures a / b < 1.0 <==> a < b
    ensures (a / b) * b == a
  {
    var q := a / b;
    assert q * b == a;
    assert (q - 1.0) * b == a - b;
    if q > 1.0 {
      assert (q - 1.0) * b > 0.0;
    } else if q < 1.0 {
      assert (1.0 - q) * b > 0.0;
    }
  }

  /**
   What a comparison means. It has numbers exactly when all trial medians are
   positive; the point is how many candidate medians make the baseline's; and the
   candidate is faster exactly when each of its trials beats each of the baseline's,
   slower exactly when each loses to each.
   */
  lemma CompareMeans(b: CaseStats, c: CaseStats)
    requires Consistent(b) && Consistent(c)
    ensures var s := Compare(b, c);
            && (s.point.Some? <==> AllPositive(b, c)) && (s.low.Some? <==> s.point.Some?)
            && (s.high.Some? <==> s.point.Some?)
            && (s.point.Some? ==> s.point.value * c.median == b.median)
            && (s.point.Some? ==> s.low.value * c.high == b.low && s.high.value * c.low == b.high)
            && (s.verdict == Faster <==> AllPositive(b, c) && AllBelow(c, b))
            && (s.verdict == Slower <==> AllPositive(b, c) && AllBelow(b, c))
  {
    hide Least, Greatest, Percentile, AllPositive, AllBelow;
    PositiveIs(b, c);
    BelowIs(c, b);
    BelowIs(b, c);
    if Positive(b) && Positive(c) {
      RatioAboveOne(b.low, c.high);
      RatioAboveOne(b.high, c.low);
      RatioAboveOne(b.median, c.median);
    }
  }

  lemma UnitProduct(q: real, r: real, a: real, b: real)
    requires a > 0.0 && b > 0.0 && q * b == a && r * a == b
    ensures q * r == 1.0
  {
    calc {
      (q * r - 1.0) * a;
      q * (r * a) - a;
      q * b - a;
      0.0;
    }
  }

  lemma PositiveNumbers(b: CaseStats, c: CaseStats)
    requires Consistent(b) && Consistent(c) && AllPositive(b, c)
    ensures b.median > 0.0 && b.low > 0.0 && b.high > 0.0 && c.median > 0.0 && c.low > 0.0 && c.high > 0.0
  {
    PositiveIs(b, c);
    hide Consistent;
  }

  /** Swapping the sides swaps the verdict and inverts the numbers. */
  lemma SwappedSides(a: CaseStats, b: CaseStats)
    requires Consistent(a) && Consistent(b)
    ensures Compare(a, b).verdict == Faster <==> Compare(b, a).verdict == Slower
    ensures Compare(a, b).point.Some? <==> Compare(b, a).point.Some?
    ensures Compare(a, b).point.Some? ==>
              && Compare(a, b).low.Some? && Compare(b, a).high.Some?
              && Compare(a, b).point.value * Compare(b, a).point.value == 1.0
              && Compare(a, b).low.value * Compare(b, a).high.value == 1.0
  {
    hide Consistent, Compare, AllBelow;
    CompareMeans(a, b);
    CompareMeans(b, a);
    assert AllPositive(a, b) <==> AllPositive(b, a);
    hide AllPositive;
    if Compare(a, b).point.Some? {
      PositiveNumbers(a, b);
      UnitProduct(Compare(a, b).point.value, Compare(b, a).point.value, a.median, b.median);
      UnitProduct(Compare(a, b).low.value, Compare(b, a).high.value, a.low, b.high);
    }
  }
}
