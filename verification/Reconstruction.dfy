/** How far a decoded value can be from the reference reconstruction, which uses exact arithmetic and the same words. */
module Reconstruction {
  import opened Words
  import opened Binary32
  import opened MagnitudeScan
  import opened Scale
  import opened ScaleBounds
  import opened Codes
  import opened Codec
  import opened Unbiased

  // ---------- the reference ----------

  /** The magnitude as a fraction of `b`, times the limit, in exact arithmetic. */
  ghost function RatioScaled(x: u32, b: real, s: nat): real
    requires IsFinite(x) && b > 0.0
  {
    Value(Magnitude(x)) / b * s as real
  }

  /** The reference's scaled magnitude: a fraction of the exact norm times the limit, clamped. */
  ghost function ReferenceScaled(x: u32, norm: real, s: nat): real
    requires IsFinite(x) && norm > 0.0
  {
    if RatioScaled(x, norm, s) <= s as real then RatioScaled(x, norm, s) else s as real
  }

  ghost function Fraction(level: int, s: nat): real
    requires s > 0
  {
    level as real / s as real
  }

  ghost function ReferenceLevel(level: int, s: nat, norm: real): real
    requires s > 0
  {
    Times(Fraction(level, s), norm)
  }

  /** The reference's decoded value for one word. */
  ghost function Reference(x: u32, norm: real, s: nat, w: u32): real
    requires IsFinite(x) && norm > 0.0 && s > 0
  {
    var level := MagnitudeCode(ReferenceScaled(x, norm, s), w);
    var m := ReferenceLevel(level, s, norm);
    if SignBit(x) == 1 && level != 0 then 0.0 - m else m
  }

  // ---------- one rounding, absolutely ----------

  lemma RoundApart(ar: Arith, u: real, x: real)
    requires Unit(u) && SmallUnit(u) && Standard(ar, u) && Gradual(ar, u) && x >= 0.0 && ar.round(x) < INFINITY
    ensures Apart(Value(ar.round(x)), x) <= Times(u, x) + Step(u)
  {
    hide Value, MinNormal, Step;
    StepPositive(u);
    NonNegative(u, x);
    if x >= MinNormal() {
      RoundedApart(Value(ar.round(x)), x, u);
    }
  }

  lemma RoundedApart(a: real, x: real, u: real)
    requires Rounded(a, x, u) && x >= 0.0 && u >= 0.0
    ensures Apart(a, x) <= Times(u, x)
  {
    assert (1.0 - u) * x == x - u * x && (1.0 + u) * x == x + u * x;
  }

  lemma TimesBelowFirst(u: real, x: real, y: real)
    requires u >= 0.0 && x <= y
    ensures Times(u, x) <= Times(u, y)
  {
    MulMonotone(x, y, u);
  }

  /** Rounding a number of at most `most`. */
  lemma RoundWithin(ar: Arith, u: real, x: real, most: real)
    requires Unit(u) && SmallUnit(u) && Standard(ar, u) && Gradual(ar, u) && 0.0 <= x <= most && ar.round(x) < INFINITY
    ensures Apart(Value(ar.round(x)), x) <= Times(u, most) + Step(u)
  {
    RoundApart(ar, u, x);
    hide Value, Step, Times, Standard, Gradual;
    TimesBelowFirst(u, x, most);
  }

  // ---------- the encoder's scaled value ----------

  /** What two roundings can add to the scaled value. */
  ghost function ScaledSlack(u: real, s: nat): real { Times(2.0 * u, s as real) + Times(s as real + 1.0, Step(u)) }

  /** What two roundings can add to a decoded level. */
  ghost function LevelSlack(u: real, b: real): real { Times(2.0 * u, b) + Times(Step(u), b) + Step(u) }

  /** Two roundings between the exact ratio and the scaled value. */
  lemma ScaledError(ar: Arith, u: real, x: u32, scale: AbsBits, s: nat)
    requires ar.Valid() && Unit(u) && SmallUnit(u) && Standard(ar, u) && Gradual(ar, u)
    requires IsFinite(x) && 0 < scale < INFINITY && Magnitude(x) <= scale && 0 < s <= 127
    ensures Scaled(ar, x, scale, s) < INFINITY && Value(scale) > 0.0
    ensures Apart(Value(Scaled(ar, x, scale, s)), RatioScaled(x, Value(scale), s)) <= ScaledSlack(u, s)
  {
    ZeroIsZero(scale);
    ScaledInRange(ar, x, scale, s);
    FloatExact(ar, s);
    ScaledIs(ar, x, scale, s);
    RatioAtMostOne(Magnitude(x), scale);
    var q := Ratio(Magnitude(x), scale);
    RoundAtMostOne(ar, q);
    RoundWithin(ar, u, q, 1.0);
    var r := ar.round(q);
    hide Scaled, Float, Ratio;
    MulIs(ar, r, Float(ar, s));
    var v := Value(r);
    assert Times(v, s as real) <= s as real by { TopOne(v, s as real); }
    assert Scaled(ar, x, scale, s) == ar.round(Times(v, s as real));
    RoundWithin(ar, u, Times(v, s as real), s as real);
    hide Value, Times, Step, Standard, Gradual, Arith.Valid;
    ScaleUp(v, q, u, Step(u), s as real);
    ApartChain(Value(Scaled(ar, x, scale, s)), Times(v, s as real), Times(q, s as real),
               Times(u, s as real) + Step(u), Times(s as real, Times(u, 1.0) + Step(u)));
    SumOfParts(u, Step(u), s as real);
    hide Apart;
    RatioIs(x, scale, s, q);
  }

  lemma RatioIs(x: u32, scale: AbsBits, s: nat, q: real)
    requires IsFinite(x) && 0 < scale < INFINITY && q == Ratio(Magnitude(x), scale)
    ensures Value(scale) > 0.0 && Times(q, s as real) == RatioScaled(x, Value(scale), s)
  {
    ZeroIsZero(scale);
  }

  lemma TopOne(v: real, s: real)
    requires 0.0 <= v <= 1.0 && s >= 0.0
    ensures 0.0 <= Times(v, s) <= s
  {
    NonNegative(v, s);
    NonNegative(1.0 - v, s);
    assert (1.0 - v) * s == s - v * s;
  }

  lemma ScaleUp(v: real, q: real, u: real, step: real, s: real)
    requires Apart(v, q) <= Times(u, 1.0) + step && s >= 0.0
    ensures Apart(Times(v, s), Times(q, s)) <= Times(s, Times(u, 1.0) + step)
  {
    MulMonotone(v - q, Times(u, 1.0) + step, s);
    MulMonotone(q - v, Times(u, 1.0) + step, s);
    assert (v - q) * s == v * s - q * s && (q - v) * s == q * s - v * s;
  }

  lemma SumOfParts(u: real, step: real, s: real)
    ensures (Times(u, s) + step) + Times(s, Times(u, 1.0) + step) == Times(2.0 * u, s) + Times(s + 1.0, step)
  {
    assert s * (u * 1.0 + step) == u * s + s * step;
    assert (s + 1.0) * step == s * step + step;
    assert (2.0 * u) * s == 2.0 * (u * s);
  }

  /** With a covering scale the clamp never acts. */
  lemma ScaledIs(ar: Arith, x: u32, scale: AbsBits, s: nat)
    requires ar.Valid() && IsFinite(x) && 0 < scale < INFINITY && Magnitude(x) <= scale && s <= 127
    ensures Float(ar, s) < INFINITY && Value(Float(ar, s)) == s as real
    ensures Scaled(ar, x, scale, s) == ar.Mul(ar.Div(Magnitude(x), scale), Float(ar, s))
    ensures ar.Div(Magnitude(x), scale) == ar.round(Ratio(Magnitude(x), scale)) < INFINITY
  {
    RatioAtMostOne(Magnitude(x), scale);
    RoundAtMostOne(ar, Ratio(Magnitude(x), scale));
    FloatExact(ar, s);
    var r := ar.Div(Magnitude(x), scale);
    assert r == ar.round(Ratio(Magnitude(x), scale));
    hide Value, Float, Arith.Div, Arith.Mul;
    ShrinkingMul(ar, r, Float(ar, s));
    GreaterIsPatternOrder(ar.Mul(r, Float(ar, s)), Float(ar, s));
  }

  // ---------- the decoder's level ----------

  /** Two roundings between the exact level and the decoded one. */
  lemma LevelRounding(ar: Arith, u: real, level: nat, s: nat, scale: AbsBits)
    requires ar.Valid() && Unit(u) && SmallUnit(u) && Standard(ar, u) && Gradual(ar, u)
    requires level <= s && 0 < s <= 127 && 0 < scale < INFINITY
    ensures LevelMagnitude(ar, level, s, scale) < INFINITY
    ensures Apart(Value(LevelMagnitude(ar, level, s, scale)), ReferenceLevel(level, s, Value(scale)))
            <= LevelSlack(u, Value(scale))
  {
    hide Value, Times, Step, Standard, Gradual, Arith.Valid, LevelMagnitude, Arith.Mul, SmallUnit, Fraction, Apart;
    LevelWithinScale(ar, level, s, scale);
    LevelFraction(ar, level, s);
    LevelIs(ar, level, s, scale);
    var f := Fraction(level, s);
    RoundWithin(ar, u, f, 1.0);
    var g, b := Value(ar.round(f)), Value(scale);
    MulIs(ar, ar.round(f), scale);
    TopOne(g, b);
    RoundWithin(ar, u, Times(g, b), b);
    ScaleUp(g, f, u, Step(u), b);
    ApartChain(Value(LevelMagnitude(ar, level, s, scale)), Times(g, b), Times(f, b),
               Times(u, b) + Step(u), Times(b, Times(u, 1.0) + Step(u)));
    PartsOfLevel(u, Step(u), b);
  }

  lemma PartsOfLevel(u: real, step: real, b: real)
    ensures (Times(u, b) + step) + Times(b, Times(u, 1.0) + step) == Times(2.0 * u, b) + Times(step, b) + step
  {
    assert b * (u * 1.0 + step) == u * b + step * b;
    assert (2.0 * u) * b == 2.0 * (u * b);
  }

  lemma LevelFraction(ar: Arith, level: nat, s: nat)
    requires ar.Valid() && level <= s && 0 < s <= 127
    ensures 0.0 <= Fraction(level, s) <= 1.0
    ensures ar.round(Fraction(level, s)) < INFINITY && 0.0 <= Value(ar.round(Fraction(level, s))) <= 1.0
  {
    QuotientAtMostOne(level as real, s as real);
    RoundAtMostOne(ar, level as real / s as real);
  }

  lemma LevelIs(ar: Arith, level: nat, s: nat, scale: AbsBits)
    requires ar.Valid() && level <= s && 0 < s <= 127
    ensures LevelMagnitude(ar, level, s, scale) == ar.Mul(ar.round(Fraction(level, s)), scale)
  {
    FloatExact(ar, level);
    FloatExact(ar, s);
    ZeroIsZero(Float(ar, s));
    hide Value, Arith.Mul, Float;
  }

  // ---------- against the input ----------

  /** A level within `c` of the scaled magnitude stands for a number within `c` steps of the magnitude. */
  lemma LevelDrift(level: int, v: real, a: real, s: nat, b: real, c: real)
    requires s > 0 && b > 0.0 && v == a / b * s as real && Apart(level as real, v) <= c
    ensures Apart(ReferenceLevel(level, s, b), a) <= Times(c, b / s as real)
  {
    var k := b / s as real;
    DriftTerms(level as real, v, a, s as real, b, k);
    PositiveQuotient(b, s as real);
    MulMonotone(level as real - v, c, k);
    MulMonotone(v - level as real, c, k);
    assert (level as real - v) * k == level as real * k - v * k;
    assert (v - level as real) * k == v * k - level as real * k;
  }

  lemma PositiveQuotient(b: real, s: real)
    requires b > 0.0 && s > 0.0
    ensures b / s > 0.0
  {
  }

  lemma DriftTerms(level: real, v: real, a: real, s: real, b: real, k: real)
    requires s > 0.0 && b > 0.0 && v == a / b * s && k == b / s
    ensures v * k == a && level / s * b == level * k
  {
    var r, l := a / b, level / s;
    assert r * b == a && k * s == b && l * s == level;
    assert (r * s) * k == r * (k * s);
    assert l * (k * s) == (l * s) * k;
  }

  /** The reference stays within one step of the input. */
  lemma ReferenceError(x: u32, norm: real, s: nat, w: u32)
    requires IsFinite(x) && norm > 0.0 && s > 0 && Value(Magnitude(x)) <= norm
    ensures Apart(ReferenceLevel(MagnitudeCode(ReferenceScaled(x, norm, s), w), s, norm), Value(Magnitude(x)))
            <= Times(1.0, norm / s as real)
  {
    var a := Value(Magnitude(x));
    var v := a / norm * s as real;
    QuotientAtMostOne(a, norm);
    TopOne(a / norm, s as real);
    assert ReferenceScaled(x, norm, s) == v;
    MagnitudeInRange(v, s, w);
    hide MagnitudeCode;
    LevelDrift(MagnitudeCode(v, w), v, a, s, norm, 1.0);
  }

  /** The decoded value against the input, before the sign. */
  lemma DecodedError(ar: Arith, u: real, x: u32, scale: AbsBits, s: nat, w: u32)
    requires ar.Valid() && Unit(u) && SmallUnit(u) && Standard(ar, u) && Gradual(ar, u)
    requires IsFinite(x) && 0 < scale < INFINITY && Magnitude(x) <= scale && 0 < s <= 127
    ensures Scaled(ar, x, scale, s) < INFINITY
    ensures var level := MagnitudeCode(Value(Scaled(ar, x, scale, s)), w);
            && 0 <= level <= s && LevelMagnitude(ar, level, s, scale) < INFINITY
            && Apart(Value(LevelMagnitude(ar, level, s, scale)), Value(Magnitude(x)))
               <= LevelSlack(u, Value(scale)) + Times(1.0 + ScaledSlack(u, s), Value(scale) / s as real)
  {
    hide Scaled, LevelMagnitude, Value, Standard, Gradual, Arith.Valid, SmallUnit, ReferenceLevel, ScaledSlack,
      LevelSlack, Apart, TrueThreshold, Times, RatioScaled;
    ScaledError(ar, u, x, scale, s);
    ScaledInRange(ar, x, scale, s);
    var v, a, b := Value(Scaled(ar, x, scale, s)), Value(Magnitude(x)), Value(scale);
    MagnitudeInRange(v, s, w);
    var level := MagnitudeCode(v, w);
    CodeApart(level, v);
    hide MagnitudeCode;
    LevelRounding(ar, u, level, s, scale);
    var exact := RatioScaled(x, b, s);
    ApartChain(level as real, v, exact, 1.0, ScaledSlack(u, s));
    RatioScaledIs(x, b, s);
    LevelDrift(level, exact, a, s, b, 1.0 + ScaledSlack(u, s));
    ApartChain(Value(LevelMagnitude(ar, level, s, scale)), ReferenceLevel(level, s, b), a,
               LevelSlack(u, b), Times(1.0 + ScaledSlack(u, s), b / s as real));
  }

  lemma RatioScaledIs(x: u32, b: real, s: nat)
    requires IsFinite(x) && b > 0.0
    ensures RatioScaled(x, b, s) == Value(Magnitude(x)) / b * s as real
  {
  }

  lemma CodeApart(level: int, v: real)
    requires -1.0 < level as real - v <= 1.0
    ensures Apart(level as real, v) <= 1.0
  {
  }

  // ---------- signs ----------

  /** A number with a sign that zero levels do not have. */
  ghost function WithSign(x: u32, level: int, m: real): real
  {
    if SignBit(x) == 1 && level != 0 then 0.0 - m else m
  }

  lemma SignsAgree(x: u32, j: int, d: real, k: int, r: real)
    requires d >= 0.0 && r >= 0.0 && (j == 0 ==> d == 0.0) && (k == 0 ==> r == 0.0)
    ensures Apart(WithSign(x, j, d), WithSign(x, k, r)) <= Apart(d, r)
  {
  }

  lemma ZeroLevel(ar: Arith, s: nat, scale: AbsBits)
    requires ar.Valid() && 0 < s <= 127 && scale < INFINITY
    ensures LevelMagnitude(ar, 0, s, scale) < INFINITY && Value(LevelMagnitude(ar, 0, s, scale)) == 0.0
  {
    hide LevelMagnitude, Value, Arith.Valid, Arith.Mul;
    LevelIs(ar, 0, s, scale);
    RoundZero(ar);
    assert Fraction(0, s) == 0.0;
    MulIs(ar, 0, scale);
    assert Times(0.0, Value(scale)) == 0.0;
  }

  lemma ReferenceSign(level: int, s: nat, norm: real)
    requires level >= 0 && s > 0 && norm >= 0.0
    ensures ReferenceLevel(level, s, norm) >= 0.0 && (level == 0 ==> ReferenceLevel(level, s, norm) == 0.0)
  {
    Quotients(level as real, s as real);
    TimesNonNegative(Fraction(level, s), norm);
    assert Times(0.0, norm) == 0.0;
  }

  lemma Quotients(a: real, b: real)
    requires a >= 0.0 && b > 0.0
    ensures a / b >= 0.0 && (a == 0.0 ==> a / b == 0.0)
  {
  }

  // ---------- the published bound ----------

  /** The bound that the oracle publishes for the reconstruction. */
  ghost function PublishedReconstruction(count: nat, s: nat, norm: real): real
    requires count > 0 && norm > 0.0 && s > 0 && Errors(Roundoff(), Operations(count)) < 1.0
             && Epsilon(count, norm) < 1.0
  {
    var epsilon := Epsilon(count, norm);
    norm * (2.0 / s as real + (2.0 * epsilon / (1.0 - epsilon)) + 5.0 * Roundoff())
  }

  lemma InputWithinNorm(values: seq<u32>, norm: real, i: nat)
    requires AllFinite(values) && IsNorm(norm, values) && i < |values|
    ensures Value(Magnitude(values[i])) <= norm
  {
    hide Value, RealSum, Times;
    forall k | 0 <= k < |values|
      ensures Squares(values)(k) >= 0.0
    {
      TimesNonNegative(Value(Magnitude(values[k])), Value(Magnitude(values[k])));
    }
    SumAtLeast(Squares(values), |values|, i);
    RootOrder(Value(Magnitude(values[i])), norm);
  }

  lemma RootOrder(a: real, b: real)
    requires a >= 0.0 && b >= 0.0 && Times(a, a) <= Times(b, b)
    ensures a <= b
  {
    SquareOrder(a, b);
  }

  lemma SmallestNorm(values: seq<u32>, norm: real)
    requires AllFinite(values) && MaxMagnitude(values) > 0 && IsNorm(norm, values)
    ensures norm >= Exp2(-149)
  {
    MaxDecides(values);
    MaxAttained(values);
    var i :| 0 <= i < |values| && Magnitude(values[i]) == MaxMagnitude(values);
    InputWithinNorm(values, norm, i);
    hide IsNorm, Exp2;
    SmallestValue(Magnitude(values[i]));
  }

  lemma SmallestValue(w: AbsBits)
    requires 0 < w < INFINITY
    ensures Value(w) >= Exp2(-149)
  {
    hide Exp2;
    assert Value(1) == Dyadic(1, -149) == Exp2(-149);
    if w > 1 {
      ValueMonotone(1, w);
    }
  }

  lemma CountIsSmall(count: nat)
    requires count <= SIZE_MAX
    ensures 4.0 * count as real * Exp2(-149) <= 0.125
  {
    hide Exp2, Pow2;
    Exp2Add(-149, 64);
    Exp2Nat(64);
    Exp2Order(-85, -16);
    Exp2Inverse(16);
    Exp2Nat(16);
    Pow2Of32();
    Pow2Add(8, 8);
    Pow2Add(32, 32);
    CountTimes(count as real, Pow2(64) as real, Exp2(-149));
  }

  lemma CountTimes(n: real, most: real, e: real)
    requires n <= most && e >= 0.0
    ensures n * e <= most * e && 4.0 * n * e == 4.0 * (n * e) && most * e == e * most
  {
    MulMonotone(n, most, e);
  }

  /** The relative error is below one and above what one step contributes. */
  lemma EpsilonRange(count: nat, norm: real)
    requires 0 < count <= SIZE_MAX && norm >= Exp2(-149)
    ensures norm > 0.0 && Errors(Roundoff(), Operations(count)) < 1.0
    ensures 0.0 <= Epsilon(count, norm) < 1.0 && norm * Epsilon(count, norm) >= Step(Roundoff())
  {
    hide Exp2, Operations, Roundoff, Errors, Step, Epsilon, Gamma;
    var least := Exp2(-149);
    StepIs();
    RestSmall(count);
    var rest := Gamma(Roundoff(), Operations(count)) + 4.0 * count as real * least;
    EpsilonIs(count, norm, rest);
    LastPart(norm, least, rest);
  }

  /** Everything in the relative error but its last part. */
  lemma RestSmall(count: nat)
    requires count > 0 && count <= SIZE_MAX
    ensures Exp2(-149) > 0.0 && Errors(Roundoff(), Operations(count)) < 1.0
    ensures 0.0 <= Gamma(Roundoff(), Operations(count)) + 4.0 * count as real * Exp2(-149) <= 0.375
  {
    hide Exp2, Operations, Roundoff, Errors, SmallUnit, Gamma;
    FewErrors(count);
    RoundoffSmall();
    GammaSmall(Roundoff(), Operations(count));
    CountIsSmall(count);
    NonNegative(4.0 * count as real, Exp2(-149));
  }

  lemma EpsilonIs(count: nat, norm: real, rest: real)
    requires count > 0 && norm > 0.0 && Errors(Roundoff(), Operations(count)) < 1.0
    requires rest == Gamma(Roundoff(), Operations(count)) + 4.0 * count as real * Exp2(-149)
    ensures Epsilon(count, norm) == rest + Exp2(-149) / (2.0 * norm)
  {
    hide Gamma, Exp2, Operations, Roundoff, Errors;
  }

  lemma GammaSmall(u: real, k: nat)
    requires Unit(u) && Errors(u, k) <= 0.125
    ensures 0.0 <= Gamma(u, k) <= 0.25
  {
    NonNegative(k as real, u);
    var h := Errors(u, k);
    QuotientRange(h);
    var g := h / (1.0 - h);
    assert g * (1.0 - h) == h;
    NonNegative(g, 0.125 - h);
    assert g * (0.125 - h) == 0.125 * g - g * h;
  }

  lemma LastPart(norm: real, least: real, rest: real)
    requires norm >= least > 0.0 && rest >= 0.0
    ensures 0.0 <= least / (2.0 * norm) <= 0.5
    ensures norm * (rest + least / (2.0 * norm)) >= least / 2.0
  {
    var q := least / (2.0 * norm);
    assert q * (2.0 * norm) == least;
    Quotients(least, 2.0 * norm);
    NonNegative(norm, rest);
    assert norm * (rest + q) == norm * rest + norm * q;
    assert (q - 0.5) * norm == q * norm - 0.5 * norm;
    if q > 0.5 {
      Positive(q - 0.5, norm);
    }
  }

  /** All the slack together is within the published bound. */
  lemma SlackFits(u: real, step: real, s: real, b: real, norm: real, e: real)
    requires 0.0 < step && 3.0 * step <= u <= 1.0 / 16.0 && s >= 7.0 && norm > 0.0 && b >= 0.0
    requires b <= norm + e && step <= e
    ensures (Times(2.0 * u, b) + Times(step, b) + step)
            + Times(1.0 + (Times(2.0 * u, s) + Times(s + 1.0, step)), b / s) + Times(1.0, norm / s)
            <= norm * (2.0 / s) + 5.0 * (u * norm) + 2.0 * e
  {
    var k, t := b / s, norm / s;
    assert k * s == b && t * s == norm;
    Quotients(b, s);
    hide Times;
    PlainTimes(u, step, b, t);
    UpperParts(u, step, s, b, k);
    LowerQuotient(k, b, t, norm, e, s);
    RatioOfTwo(norm, s, t);
    RateBound(u, step, b, norm, e);
  }

  lemma PlainTimes(u: real, step: real, b: real, t: real)
    ensures Times(2.0 * u, b) == 2.0 * (u * b) && Times(step, b) == step * b && Times(1.0, t) == t
  {
  }

  lemma UpperParts(u: real, step: real, s: real, b: real, k: real)
    requires k * s == b && k >= 0.0 && step >= 0.0 && s >= 1.0
    ensures Times(1.0 + (Times(2.0 * u, s) + Times(s + 1.0, step)), k) <= k + 2.0 * (u * b) + 2.0 * (step * b)
  {
    assert ((2.0 * u) * s) * k == 2.0 * (u * b);
    assert ((s + 1.0) * step) * k == step * b + step * k;
    NonNegative(k, s - 1.0);
    assert k * (s - 1.0) == b - k;
    MulMonotone(k, b, step);
    assert (1.0 + ((2.0 * u) * s + (s + 1.0) * step)) * k == k + ((2.0 * u) * s) * k + ((s + 1.0) * step) * k;
  }

  lemma LowerQuotient(k: real, b: real, t: real, norm: real, e: real, s: real)
    requires s >= 7.0 && k * s == b && t * s == norm && b <= norm + e && e >= 0.0
    ensures k <= t + e / 7.0
  {
    var f := e / 7.0;
    assert (k - t - f) * s == b - norm - f * s;
    assert f * (s - 7.0) == f * s - e;
    NonNegative(f, s - 7.0);
    if k > t + f {
      Positive(k - t - f, s);
    }
  }

  lemma RatioOfTwo(norm: real, s: real, t: real)
    requires s > 0.0 && t * s == norm
    ensures norm * (2.0 / s) == 2.0 * t
  {
    var two := 2.0 / s;
    assert two * s == 2.0;
    assert (t * s) * two == t * (two * s);
  }

  lemma RateBound(u: real, step: real, b: real, norm: real, e: real)
    requires 0.0 < step && 3.0 * step <= u <= 1.0 / 16.0 && b >= 0.0 && norm > 0.0 && b <= norm + e && e >= 0.0
    ensures 4.0 * (u * b) + 3.0 * (step * b) <= 5.0 * (u * norm) + 5.0 * e / 16.0
  {
    MulMonotone(3.0 * step, u, b);
    assert (3.0 * step) * b == 3.0 * (step * b);
    MulMonotone(b, norm + e, u);
    assert u * (norm + e) == u * norm + u * e;
    NonNegative(1.0 / 16.0 - u, e);
    assert (1.0 / 16.0 - u) * e == e / 16.0 - u * e;
  }

  lemma TwiceError(norm: real, epsilon: real, e: real)
    requires norm > 0.0 && 0.0 <= epsilon < 1.0 && e == norm * epsilon
    ensures 2.0 * e <= norm * (2.0 * epsilon / (1.0 - epsilon))
  {
    var g := 2.0 * epsilon / (1.0 - epsilon);
    assert g * (1.0 - epsilon) == 2.0 * epsilon;
    Quotients(2.0 * epsilon, 1.0 - epsilon);
    NonNegative(g, epsilon);
    assert g * epsilon == g - 2.0 * epsilon;
    MulMonotone(2.0 * epsilon, g, norm);
    assert norm * (2.0 * epsilon) == 2.0 * (norm * epsilon);
  }

  /** What one value contributes: everything that roundings, both draws and the two scales can move. */
  lemma ValueError(ar: Arith, x: u32, scale: AbsBits, norm: real, s: nat, w: u32, e: real)
    requires Nearest(ar) && IsFinite(x) && 0 < scale < INFINITY && Magnitude(x) <= scale && 7 <= s <= 127
    requires norm > 0.0 && Value(Magnitude(x)) <= norm && Value(scale) <= norm + e && Step(Roundoff()) <= e
    ensures Scaled(ar, x, scale, s) < INFINITY
    ensures var level := MagnitudeCode(Value(Scaled(ar, x, scale, s)), w);
            && 0 <= level <= s && LevelMagnitude(ar, level, s, scale) < INFINITY
            && Apart(WithSign(x, level, Value(LevelMagnitude(ar, level, s, scale))), Reference(x, norm, s, w))
               <= norm * (2.0 / s as real) + 5.0 * (Roundoff() * norm) + 2.0 * e
  {
    hide Scaled, LevelMagnitude, Value, Exp2, Standard, Gradual, Arith.Valid, SmallUnit, ReferenceLevel, ScaledSlack,
      LevelSlack, Apart, Times, RatioScaled, Roundoff, Step, MagnitudeCode, WithSign;
    var u, a, b := Roundoff(), Value(Magnitude(x)), Value(scale);
    RoundoffSmall();
    DecodedError(ar, u, x, scale, s, w);
    ReferenceError(x, norm, s, w);
    var level := MagnitudeCode(Value(Scaled(ar, x, scale, s)), w);
    var d := Value(LevelMagnitude(ar, level, s, scale));
    var wanted := MagnitudeCode(ReferenceScaled(x, norm, s), w);
    var r := ReferenceLevel(wanted, s, norm);
    ReferenceCode(x, norm, s, w);
    if level == 0 {
      ZeroLevel(ar, s, scale);
    }
    ReferenceSign(wanted, s, norm);
    SignsAgree(x, level, d, wanted, r);
    ReferenceIs(x, norm, s, w);
    var slack, drift := LevelSlack(u, b) + Times(1.0 + ScaledSlack(u, s), b / s as real), Times(1.0, norm / s as real);
    ApartSwap(r, a);
    ApartChain(d, a, r, slack, drift);
    SlackIs(u, b, norm, s, e);
    assert slack + drift <= norm * (2.0 / s as real) + 5.0 * (Roundoff() * norm) + 2.0 * e;
  }

  lemma ReferenceCode(x: u32, norm: real, s: nat, w: u32)
    requires IsFinite(x) && norm > 0.0
    ensures MagnitudeCode(ReferenceScaled(x, norm, s), w) >= 0
  {
    Quotients(Value(Magnitude(x)), norm);
    NonNegative(Value(Magnitude(x)) / norm, s as real);
    MagnitudeInRange(ReferenceScaled(x, norm, s), s, w);
  }

  lemma ReferenceIs(x: u32, norm: real, s: nat, w: u32)
    requires IsFinite(x) && norm > 0.0 && s > 0
    ensures var level := MagnitudeCode(ReferenceScaled(x, norm, s), w);
            Reference(x, norm, s, w) == WithSign(x, level, ReferenceLevel(level, s, norm))
  {
    hide MagnitudeCode, ReferenceScaled, ReferenceLevel;
  }

  lemma ApartSwap(x: real, y: real)
    ensures Apart(x, y) == Apart(y, x)
  {
  }

  lemma SlackIs(u: real, b: real, norm: real, s: nat, e: real)
    requires u == Roundoff() && 7 <= s && norm > 0.0 && b >= 0.0 && b <= norm + e && Step(u) <= e
    ensures LevelSlack(u, b) + Times(1.0 + ScaledSlack(u, s), b / s as real) + Times(1.0, norm / s as real)
            <= norm * (2.0 / s as real) + 5.0 * (u * norm) + 2.0 * e
  {
    hide Roundoff, Step, SmallUnit, Times;
    RoundoffSmall();
    StepPositive(u);
    StepSmall(u);
    SlackFits(u, Step(u), s as real, b, norm, e);
  }

  lemma StepSmall(u: real)
    requires SmallUnit(u) && u <= 1.0 / 65536.0
    ensures 3.0 * Step(u) <= u
  {
    hide MinNormal;
    NonNegative(u, u - MinNormal());
    assert u * (u - MinNormal()) == u * u - MinNormal() * u;
    NonNegative(u, 1.0 / 65536.0 - u);
    assert u * (1.0 / 65536.0 - u) == u / 65536.0 - u * u;
  }

  lemma DecodedSignIs(ar: Arith, x: u32, bits: u8, scale: AbsBits, level: nat)
    requires ar.Valid() && IsFinite(x) && scale < INFINITY && level <= Limit(bits)
    requires LevelMagnitude(ar, level, Limit(bits), scale) < INFINITY
    ensures DecodedLevel(ar, x, bits, scale)(level)
            == WithSign(x, level, Value(LevelMagnitude(ar, level, Limit(bits), scale)))
  {
    hide LevelMagnitude, Value, Arith.Valid, Limit;
    assert Magnitude(scale) == scale;
  }

  /** One value is encoded and decoded without fault, and comes back within `bound` of the reference. */
  ghost predicate Reconstructed(ar: Arith, x: u32, bits: u8, scale: AbsBits, norm: real, w: u32, bound: real)
    requires ar.Valid() && norm > 0.0
  {
    && IsFinite(x) && 0 < scale < INFINITY && Scaled(ar, x, scale, Limit(bits)) < INFINITY
    && var code := Code(ar, x, scale, Limit(bits), w);
       && 0 <= code <= 2 * Limit(bits)
       && var decoded := DecodedPattern(ar, bits, scale, code);
          IsFinite(decoded) && Apart(SignedValue(decoded), Reference(x, norm, Limit(bits), w)) <= bound
  }

  /** `ValueError` for the code that is stored and the pattern that it decodes to. */
  lemma DecodedNear(ar: Arith, x: u32, bits: u8, scale: AbsBits, norm: real, w: u32, e: real, bound: real)
    requires Nearest(ar) && IsFinite(x) && 0 < scale < INFINITY && Magnitude(x) <= scale
    requires norm > 0.0 && Value(Magnitude(x)) <= norm && Value(scale) <= norm + e && Step(Roundoff()) <= e
    requires norm * (2.0 / Limit(bits) as real) + 5.0 * (Roundoff() * norm) + 2.0 * e <= bound
    ensures Reconstructed(ar, x, bits, scale, norm, w, bound)
  {
    hide Scaled, LevelMagnitude, Value, Exp2, Standard, Gradual, Arith.Valid, SmallUnit, Apart, Roundoff, Step,
      MagnitudeCode, WithSign, Code, DecodedPattern, SignedValue, Reference, DecodedLevel;
    ValueError(ar, x, scale, norm, Limit(bits), w, e);
    DecodedCode(ar, x, bits, scale, w);
    DecodedSignIs(ar, x, bits, scale, MagnitudeCode(Value(Scaled(ar, x, scale, Limit(bits))), w));
  }

  lemma NonZeroScale(values: seq<u32>, scale: AbsBits)
    requires MaxMagnitude(values) > 0 && (scale == 0 <==> forall i :: 0 <= i < |values| ==> Magnitude(values[i]) == 0)
    ensures scale > 0
  {
    MaxDecides(values);
  }

  lemma BoundAbove(b: real, norm: real, n: nat, e: real)
    requires 0 < n <= SIZE_MAX && norm >= Exp2(-149) && norm > 0.0 && Errors(Roundoff(), Operations(n)) < 1.0
    requires e == PublishedBound(n, norm) && Apart(b, norm) <= e
    ensures b <= norm + e && Step(Roundoff()) <= e
  {
    hide Exp2, Step, Roundoff, Errors, Epsilon;
    EpsilonRange(n, norm);
  }

  lemma PublishedFits(n: nat, s: nat, norm: real, e: real)
    requires 0 < n <= SIZE_MAX && s > 0 && norm >= Exp2(-149) && norm > 0.0 && Errors(Roundoff(), Operations(n)) < 1.0
    requires e == PublishedBound(n, norm)
    ensures Epsilon(n, norm) < 1.0
    ensures norm * (2.0 / s as real) + 5.0 * (Roundoff() * norm) + 2.0 * e <= PublishedReconstruction(n, s, norm)
  {
    hide Exp2, Step, Roundoff, Errors, Epsilon;
    EpsilonRange(n, norm);
    var epsilon, two := Epsilon(n, norm), 2.0 / s as real;
    TwiceError(norm, epsilon, e);
    var g := 2.0 * epsilon / (1.0 - epsilon);
    assert norm * (two + g + 5.0 * Roundoff()) == norm * two + norm * g + 5.0 * (Roundoff() * norm);
  }

  /**
   For every non-zero input, every value and every word, what the decoder gives for
   the encoder's code is within the published bound of the reference reconstruction.
   */
  lemma ReconstructionBound(ar: Arith, values: seq<u32>, bits: u8, capacity: Option<nat>, norm: real, i: nat, w: u32)
    requires Nearest(ar) && ScaleOf(ar, values, capacity).0 == Ok && AllFinite(values) && MaxMagnitude(values) > 0
    requires |values| <= SIZE_MAX && IsNorm(norm, values) && i < |values|
    ensures norm > 0.0 && Errors(Roundoff(), Operations(|values|)) < 1.0 && Epsilon(|values|, norm) < 1.0
    ensures Reconstructed(ar, values[i], bits, ScaleOf(ar, values, capacity).1, norm, w,
                          PublishedReconstruction(|values|, Limit(bits), norm))
  {
    hide ScaleOf, IsNorm, Value, Exp2, Standard, Gradual, Roundoff, Operations, Errors, Epsilon, Step, Reconstructed,
      PublishedReconstruction, PublishedBound, Apart, MaxMagnitude, AllFinite, Limit, Arith.Valid;
    var n, s := |values|, Limit(bits);
    var scale := ScaleOf(ar, values, capacity).1;
    PublishedScaleBound(ar, values, capacity, norm);
    ScaleCoversInput(ar, values, capacity);
    NonZeroScale(values, scale);
    SmallestNorm(values, norm);
    EpsilonRange(n, norm);
    InputWithinNorm(values, norm, i);
    var e := PublishedBound(n, norm);
    BoundAbove(Value(scale), norm, n, e);
    PublishedFits(n, s, norm, e);
    DecodedNear(ar, values[i], bits, scale, norm, w, e, PublishedReconstruction(n, s, norm));
  }
}
