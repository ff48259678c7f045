/** What stochastic rounding does on average: sums over all 2^32 equally likely words. */
module Unbiased {
  import opened Words
  import opened Binary32
  import opened Codes
  import opened Codec

  /** The sum of `g` of the rounded magnitude over the words below `n`. */
  ghost function SumOverWords(v: real, g: int -> real, n: nat): real
    requires n <= TWO_32
  {
    if n == 0 then 0.0 else SumOverWords(v, g, n - 1) + g(MagnitudeCode(v, n - 1))
  }

  lemma ThresholdRange(v: real)
    ensures 0 <= TrueThreshold(v) < TWO_32
    ensures v == v.Floor as real ==> TrueThreshold(v) == 0
  {
  }

  lemma CodeBelow(v: real, w: u32)
    ensures MagnitudeCode(v, w) == if w < TrueThreshold(v) then v.Floor + 1 else v.Floor
  {
  }

  /** Words below the threshold round up and the others down. */
  lemma {:induction false} PartialSum(v: real, g: int -> real, n: nat)
    requires n <= TWO_32
    ensures n <= TrueThreshold(v) ==> SumOverWords(v, g, n) == n as real * g(v.Floor + 1)
    ensures n > TrueThreshold(v) ==>
              SumOverWords(v, g, n) == TrueThreshold(v) as real * g(v.Floor + 1)
                + (n - TrueThreshold(v)) as real * g(v.Floor)
  {
    ThresholdRange(v);
    hide TrueThreshold;
    if n != 0 {
      PartialSum(v, g, n - 1);
      CodeBelow(v, n - 1);
      hide MagnitudeCode;
      OneMore(n - 1, g(v.Floor + 1));
      if n - 1 >= TrueThreshold(v) {
        OneMore(n - 1 - TrueThreshold(v), g(v.Floor));
      }
    }
  }

  lemma OneMore(n: nat, x: real)
    ensures (n + 1) as real * x == n as real * x + x
    ensures 0 as real * x == 0.0
  {
  }

  /** The mean of `g` of the rounded magnitude over all words. */
  ghost function Mean(v: real, g: int -> real): real { SumOverWords(v, g, TWO_32) / 4294967296.0 }

  /** The realised probability of rounding up. */
  ghost function UpProbability(v: real): real { TrueThreshold(v) as real / 4294967296.0 }

  /** The mean is the two-level mixture, for any value attached to the levels. */
  lemma TwoLevelMean(v: real, g: int -> real)
    ensures 0.0 <= UpProbability(v) < 1.0
    ensures Mean(v, g) == (1.0 - UpProbability(v)) * g(v.Floor) + UpProbability(v) * g(v.Floor + 1)
  {
    ThresholdRange(v);
    var t := TrueThreshold(v);
    hide TrueThreshold;
    PartialSum(v, g, TWO_32);
    hide SumOverWords;
    Mixture(t, g(v.Floor + 1), g(v.Floor), SumOverWords(v, g, TWO_32));
  }

  lemma Mixture(t: nat, high: real, low: real, sum: real)
    requires t < TWO_32 && sum == t as real * high + (TWO_32 - t) as real * low
    ensures sum / 4294967296.0 == (1.0 - t as real / 4294967296.0) * low + (t as real / 4294967296.0) * high
  {
    var q := t as real / 4294967296.0;
    assert t as real == q * 4294967296.0;
    assert (TWO_32 - t) as real == 4294967296.0 - q * 4294967296.0;
    Factor(q, high, low);
  }

  lemma Factor(q: real, high: real, low: real)
    ensures (q * 4294967296.0) * high + (4294967296.0 - q * 4294967296.0) * low
            == ((1.0 - q) * low + q * high) * 4294967296.0
  {
  }

  ghost function Level(): int -> real { (k: int) => k as real }

  /**
   Summed over all words, the magnitude is `2^32 floor(v) + floor(frac(v) 2^32)`,
   so rounding is unbiased up to less than `2^-32` of a step, always downwards.
   */
  lemma Bias(v: real)
    ensures SumOverWords(v, Level(), TWO_32) == 4294967296.0 * v.Floor as real + TrueThreshold(v) as real
    ensures -1.0 / 4294967296.0 < Mean(v, Level()) - v <= 0.0
  {
    ThresholdRange(v);
    PartialSum(v, Level(), TWO_32);
    hide SumOverWords;
    var t := TrueThreshold(v);
    assert SumOverWords(v, Level(), TWO_32) == 4294967296.0 * v.Floor as real + t as real by {
      LevelSum(t, v.Floor);
    }
    assert t as real <= (v - v.Floor as real) * 4294967296.0 < t as real + 1.0;
  }

  lemma LevelSum(t: nat, k: int)
    requires t < TWO_32
    ensures t as real * (k + 1) as real + (TWO_32 - t) as real * k as real == 4294967296.0 * k as real + t as real
  {
    assert (TWO_32 - t) as real == 4294967296.0 - t as real;
    assert t as real * (k + 1) as real == t as real * k as real + t as real;
  }

  /** The bias vanishes exactly when the fraction is a multiple of `2^-32`. */
  lemma ExactlyUnbiased(v: real)
    ensures Mean(v, Level()) == v <==> (v * 4294967296.0) == (v * 4294967296.0).Floor as real
  {
    Bias(v);
    hide SumOverWords;
    IntegerShift(v * 4294967296.0, v.Floor * TWO_32);
    assert (v.Floor * TWO_32) as real == v.Floor as real * 4294967296.0;
    assert (v - v.Floor as real) * 4294967296.0 == v * 4294967296.0 - v.Floor as real * 4294967296.0;
  }

  lemma IntegerShift(x: real, n: int)
    ensures (x - n as real).Floor as real == x - n as real <==> x.Floor as real == x
  {
    var y := x - n as real;
    assert x == n as real + y;
    FloorOfSum(n, y);
    ShiftedFloor(x, y, n, x.Floor, y.Floor);
  }

  lemma ShiftedFloor(x: real, y: real, n: int, fx: int, fy: int)
    requires x == n as real + y && fx == n + fy
    ensures fy as real == y <==> fx as real == x
  {
  }

  /** Every single draw is within one step of the scaled value, and exact on whole values. */
  lemma WithinOneStep(v: real, w: u32)
    ensures -1.0 < MagnitudeCode(v, w) as real - v < 1.0
    ensures v == v.Floor as real ==> MagnitudeCode(v, w) as real == v
  {
    ThresholdRange(v);
  }

  /** The smaller of the next level and the limit. */
  function NextLevel(level: nat, s: nat): nat { if level + 1 < s then level + 1 else s }

  /** The stated expectation of one element: the two decoded levels, weighted by the realised probability. */
  ghost function Expectation(v: real, s: nat, decode: int -> real): real
    requires 0.0 <= v <= s as real
  {
    (1.0 - UpProbability(v)) * decode(v.Floor) + UpProbability(v) * decode(NextLevel(v.Floor, s))
  }

  /** The mean decoded value over all words is the stated expectation, at the limit too. */
  lemma MeanIsExpectation(v: real, s: nat, decode: int -> real)
    requires 0.0 <= v <= s as real
    ensures Mean(v, decode) == Expectation(v, s, decode)
  {
    TwoLevelMean(v, decode);
    ThresholdRange(v);
    if v.Floor >= s {
      assert v == s as real;
      assert UpProbability(v) == 0.0;
    }
  }

  /** The decoded level of one value: the decoder's number for that level with the input's sign. */
  ghost function DecodedLevel(ar: Arith, x: u32, bits: u8, scale: u32): int -> real
    requires ar.Valid() && IsFinite(scale)
  {
    (k: int) =>
      if 0 <= k <= Limit(bits) && LevelMagnitude(ar, k, Limit(bits), Magnitude(scale)) < INFINITY then
        var m := Value(LevelMagnitude(ar, k, Limit(bits), Magnitude(scale)));
        if SignBit(x) == 1 && k != 0 then 0.0 - m else m
      else 0.0
  }

  /** Whatever the word, decoding the encoder's code gives the decoded level of the rounded magnitude. */
  lemma DecodedCode(ar: Arith, x: u32, bits: u8, scale: AbsBits, w: u32)
    requires ar.Valid() && IsFinite(x) && 0 < scale < INFINITY
    ensures Scaled(ar, x, scale, Limit(bits)) < INFINITY
    ensures 0 <= Code(ar, x, scale, Limit(bits), w) <= 2 * Limit(bits)
    ensures IsFinite(DecodedPattern(ar, bits, scale, Code(ar, x, scale, Limit(bits), w)))
    ensures SignedValue(DecodedPattern(ar, bits, scale, Code(ar, x, scale, Limit(bits), w)))
            == DecodedLevel(ar, x, bits, scale)(MagnitudeCode(Value(Scaled(ar, x, scale, Limit(bits))), w))
  {
    var s := Limit(bits);
    CodeInRange(ar, x, scale, s, w);
    ScaledInRange(ar, x, scale, s);
    hide Scaled, Value;
    MagnitudeInRange(Value(Scaled(ar, x, scale, s)), s, w);
    hide MagnitudeCode;
    DecodedSigned(ar, x, bits, scale, MagnitudeCode(Value(Scaled(ar, x, scale, s)), w));
  }

  lemma DecodedSigned(ar: Arith, x: u32, bits: u8, scale: AbsBits, level: nat)
    requires ar.Valid() && scale < INFINITY && level <= Limit(bits)
    ensures 0 <= Signed(x, level) + Limit(bits) <= 2 * Limit(bits)
    ensures IsFinite(DecodedPattern(ar, bits, scale, Signed(x, level) + Limit(bits)))
    ensures SignedValue(DecodedPattern(ar, bits, scale, Signed(x, level) + Limit(bits)))
            == DecodedLevel(ar, x, bits, scale)(level)
  {
    hide SignedValue, DecodedPattern, LevelMagnitude, Arith.Valid, Value;
    DecodedIs(ar, bits, scale, level, SignBit(x) == 1);
  }

  /** Compressing and decoding one value has, over all words, exactly the stated expectation. */
  lemma DecodedMean(ar: Arith, x: u32, bits: u8, scale: AbsBits)
    requires ar.Valid() && IsFinite(x) && 0 < scale < INFINITY
    ensures Scaled(ar, x, scale, Limit(bits)) < INFINITY
    ensures 0.0 <= Value(Scaled(ar, x, scale, Limit(bits))) <= Limit(bits) as real
    ensures Mean(Value(Scaled(ar, x, scale, Limit(bits))), DecodedLevel(ar, x, bits, scale))
            == Expectation(Value(Scaled(ar, x, scale, Limit(bits))), Limit(bits), DecodedLevel(ar, x, bits, scale))
  {
    ScaledInRange(ar, x, scale, Limit(bits));
    MeanIsExpectation(Value(Scaled(ar, x, scale, Limit(bits))), Limit(bits), DecodedLevel(ar, x, bits, scale));
  }
}
