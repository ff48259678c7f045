/** One value's code: scale, clamp, stochastic rounding, sign and offset, in the branching and in the vector form. */
module Codes {
  import opened Words
  import opened Binary32

  const Q4_BITS := 4
  const Q8_BITS := 8

  predicate KnownWidth(bits: nat) { bits == Q4_BITS || bits == Q8_BITS }

  function Limit(bits: nat): (s: nat)
    ensures 0 < s <= 127
  {
    if bits == Q4_BITS then 7 else 127
  }

  // ---------- the integer and the fractional part of a dyadic number ----------

  function Quotient(m: nat, d: nat): nat
    requires d > 0
  {
    m / d
  }

  function IntPart(m: nat, k: nat): nat
  {
    Quotient(m, Pow2(k))
  }
  function FracPart(m: nat, k: nat): nat { m % Pow2(k) }

  lemma DyadicUnit(n: nat)
    ensures Dyadic(n, 0) == n as real
  {
  }

  lemma DyadicSum(a: nat, b: nat, e: int)
    ensures Dyadic(a + b, e) == Dyadic(a, e) + Dyadic(b, e)
  {
  }

  lemma DyadicWhole(n: nat, k: nat)
    ensures Dyadic(n * Pow2(k), 0 - k) == n as real
  {
    Exp2Inverse(k);
    Exp2Nat(k);
    hide Exp2, Pow2;
    WholeProduct(n, Pow2(k), Exp2(0 - k), Exp2(k));
  }

  lemma WholeProduct(n: nat, p: nat, x: real, y: real)
    requires x * y == 1.0 && y == p as real
    ensures (n * p) as real * x == n as real
  {
    assert (n * p) as real == n as real * p as real;
    assert (n as real * y) * x == n as real * (x * y);
  }

  lemma DyadicLess(a: nat, b: nat, e: int)
    requires a < b
    ensures Dyadic(a, e) < Dyadic(b, e)
  {
    LessTimes(a as real, b as real, Exp2(e));
  }

  lemma LessTimes(a: real, b: real, x: real)
    requires a < b && x > 0.0
    ensures a * x < b * x
  {
    assert (b - a) * x > 0.0;
  }

  /** `m / 2^k` splits into its floor and a fraction over the same power. */
  lemma SplitDyadic(m: nat, k: nat)
    ensures Dyadic(m, 0 - k) == IntPart(m, k) as real + Dyadic(FracPart(m, k), 0 - k)
    ensures 0.0 <= Dyadic(FracPart(m, k), 0 - k) < 1.0
    ensures Dyadic(m, 0 - k).Floor == IntPart(m, k)
    ensures FracPart(m, k) <= m && IntPart(m, k) <= m
  {
    hide Dyadic;
    var p := Pow2(k);
    PartsBelow(m, p);
    DyadicSum(IntPart(m, k) * p, FracPart(m, k), 0 - k);
    DyadicWhole(IntPart(m, k), k);
    DyadicLess(FracPart(m, k), p, 0 - k);
    assert 1 * p == p;
    DyadicWhole(1, k);
  }

  lemma PartsBelow(m: nat, p: nat)
    requires p > 0
    ensures m == (m / p) * p + m % p && m % p <= m && m / p <= m
  {
    QuotientBounds(m, p);
    MulOrder(1, p, m / p);
  }

  // ---------- scaling and clamping ----------

  const TWO32: AbsBits := 0x4F80_0000 // 2^32
  const TWO: AbsBits := 0x4000_0000
  const HALF: AbsBits := 0x3F00_0000

  /** The conversion of an integer to binary32. */
  function Float(ar: Arith, n: nat): AbsBits { ar.round(n as real) }

  lemma FloatExact(ar: Arith, n: nat)
    requires ar.Valid() && n < SIGNIFICAND
    ensures Float(ar, n) < INFINITY && Value(Float(ar, n)) == n as real
  {
    DyadicUnit(n);
    RoundExact(ar, n, 0);
  }

  /** `|x| / scale * s`, clamped to `s`. */
  function Scaled(ar: Arith, x: u32, scale: AbsBits, s: nat): AbsBits
    requires IsFinite(x) && 0 < scale < INFINITY
  {
    var v := ar.Mul(ar.Div(Magnitude(x), scale), Float(ar, s));
    if Greater(v, Float(ar, s)) then Float(ar, s) else v
  }

  lemma ScaledInRange(ar: Arith, x: u32, scale: AbsBits, s: nat)
    requires ar.Valid() && IsFinite(x) && 0 < scale < INFINITY && s <= 127
    ensures Scaled(ar, x, scale, s) < INFINITY && 0.0 <= Value(Scaled(ar, x, scale, s)) <= s as real
  {
    FloatExact(ar, s);
  }

  /** The significand and the negated exponent of a number small enough to scale to. */
  lemma SmallParts(v: AbsBits) returns (m: nat, k: nat)
    requires v < INFINITY && Value(v) <= 127.0
    ensures m < SIGNIFICAND && 17 <= k <= 149 && Value(v) == Dyadic(m, 0 - k)
  {
    var (a, e) := Parts(v);
    if e > -17 {
      LargeDyadic(a, e);
      assert false;
    }
    m, k := a, 0 - e;
  }

  lemma LargeDyadic(m: nat, e: int)
    requires m >= FRACTION && e > -17
    ensures Dyadic(m, e) > 127.0
  {
    Exp2Order(-16, e);
    assert Exp2(-16) * 65536.0 == 1.0 by {
      Exp2Inverse(16);
      Exp2Nat(16);
      Pow2Of16();
    }
    LessOrEqualTimes(FRACTION as real, m as real, Exp2(-16), Exp2(e));
  }

  lemma Pow2Of16()
    ensures Pow2(16) == 65536
  {
    Pow2Of32();
    Pow2Add(8, 8);
  }

  lemma LessOrEqualTimes(a: real, b: real, x: real, y: real)
    requires 0.0 <= a <= b && 0.0 < x <= y
    ensures a * x <= b * y
  {
    assert a * (y - x) >= 0.0;
    assert (b - a) * y >= 0.0;
  }

  // ---------- the reference rounding ----------

  /** `floor(p * 2^32)` of the fraction `p` of a scaled value, in real arithmetic. */
  ghost function TrueThreshold(v: real): int { ((v - v.Floor as real) * 4294967296.0).Floor }

  /** The branching form: floor, fraction, scale by 2^32, truncate. */
  function Lower(v: AbsBits): nat
    requires v < INFINITY
  {
    Value(v).Floor
  }

  function Fraction(ar: Arith, v: AbsBits): AbsBits
    requires v < INFINITY && Float(ar, Lower(v)) < INFINITY
  {
    ar.Sub(v, Float(ar, Lower(v)))
  }

  /** Truncation of a float to an integer. */
  function Truncate(v: AbsBits): nat
    requires v < INFINITY
  {
    Value(v).Floor
  }

  lemma FractionExact(ar: Arith, v: AbsBits, m: nat, k: nat)
    requires ar.Valid() && v < INFINITY && m < SIGNIFICAND && 17 <= k <= 149 && Value(v) == Dyadic(m, 0 - k)
    ensures Lower(v) == IntPart(m, k) && Float(ar, Lower(v)) < INFINITY
            && Value(Float(ar, Lower(v))) == Lower(v) as real
    ensures Fraction(ar, v) < INFINITY && Value(Fraction(ar, v)) == Dyadic(FracPart(m, k), 0 - k)
    ensures Value(v) == Lower(v) as real + Value(Fraction(ar, v))
  {
    hide Dyadic, IntPart, FracPart;
    SplitDyadic(m, k);
    FloatExact(ar, IntPart(m, k));
    RoundExact(ar, FracPart(m, k), 0 - k);
  }

  /** `p * 2^32`, the number both forms truncate. */
  function Widened(ar: Arith, p: AbsBits): AbsBits { ar.Mul(p, TWO32) }

  lemma Powers()
    ensures Value(TWO32) == 4294967296.0 == Exp2(32)
    ensures Value(TWO) == 2.0 == Exp2(1)
    ensures Value(HALF) == 0.5 == Exp2(-1)
  {
    PowerPattern(9, 32);
    PowerPattern(-22, 1);
    PowerPattern(-24, -1);
    Exp2Nat(32);
    Pow2Of32();
  }

  lemma PowerPattern(e: int, k: int)
    requires e + 23 == k && -60 <= e <= 60
    ensures Dyadic(FRACTION, e) == Exp2(k)
  {
    hide Exp2;
    Exp2Add(e, 23);
    Exp2Nat(23);
    assert Pow2(23) == FRACTION by {
      Pow2Add(8, 15);
      Pow2Add(8, 7);
      Pow2Of32();
    }
  }

  lemma DyadicScale(f: nat, e: int, n: int)
    ensures Dyadic(f, e) * Exp2(n) == Dyadic(f, e + n)
  {
    Exp2Sum(e, n);
    hide Exp2;
    Regroup(f as real, Exp2(e), Exp2(n));
  }

  lemma Regroup(a: real, b: real, c: real)
    ensures (a * b) * c == a * (b * c)
  {
  }

  lemma {:induction false} Exp2Sum(e: int, n: int)
    ensures Exp2(e + n) == Exp2(e) * Exp2(n)
  {
    hide Exp2;
    if n >= 0 {
      Exp2Add(e, n);
    } else {
      Exp2Add(e + n, 0 - n);
      Exp2Inverse(0 - n);
      Regroup(Exp2(e + n), Exp2(0 - n), Exp2(n));
    }
  }

  /** Multiplying by a power of two is exact. */
  lemma MulPower(ar: Arith, v: AbsBits, f: nat, e: int, p: AbsBits, n: int)
    requires ar.Valid() && v < INFINITY && p < INFINITY && f < SIGNIFICAND
    requires Value(v) == Dyadic(f, e) && Value(p) == Exp2(n) && MIN_EXPONENT <= e + n <= MAX_EXPONENT
    ensures ar.Mul(v, p) < INFINITY && Value(ar.Mul(v, p)) == Dyadic(f, e + n)
    ensures ar.Mul(p, v) < INFINITY && Value(ar.Mul(p, v)) == Dyadic(f, e + n)
  {
    hide Value, Dyadic;
    DyadicScale(f, e, n);
    RoundExact(ar, f, e + n);
    assert Value(p) * Value(v) == Value(v) * Value(p);
  }

  /** The branching threshold. */
  function Threshold(ar: Arith, p: AbsBits): nat
    requires Widened(ar, p) < INFINITY
  {
    Truncate(Widened(ar, p))
  }

  // ---------- the vector threshold ----------

  /** Half of the widened fraction, truncated; it fits a signed 32-bit integer. */
  function HalfThreshold(ar: Arith, t: AbsBits): nat
    requires ar.Mul(t, HALF) < INFINITY
  {
    Truncate(ar.Mul(t, HALF))
  }

  /** What the first half leaves, 0 or 1 after truncation. */
  function Leftover(ar: Arith, t: AbsBits, q: nat): AbsBits
    requires t < INFINITY && ar.Mul(TWO, Float(ar, q)) < INFINITY
  {
    ar.Sub(t, ar.Mul(TWO, Float(ar, q)))
  }

  /** The two halves lose nothing: `t` is twice the truncated half plus the leftover. */
  ghost predicate ExactHalves(ar: Arith, t: AbsBits)
    requires t < INFINITY
  {
    && ar.Mul(t, HALF) < INFINITY
    && var q := HalfThreshold(ar, t);
    && q < 0x8000_0000 && Float(ar, q) < INFINITY && Value(Float(ar, q)) == q as real
    && ar.Mul(TWO, Float(ar, q)) < INFINITY && Value(ar.Mul(TWO, Float(ar, q))) == 2.0 * q as real
    && var r := Leftover(ar, t, q);
    && r < INFINITY && Value(r) == Value(t) - 2.0 * q as real && 0.0 <= Value(r) < 2.0
  }

  lemma WidenedExact(ar: Arith, p: AbsBits, f: nat, k: nat)
    requires ar.Valid() && p < INFINITY && f < SIGNIFICAND && 17 <= k <= 149 && Value(p) == Dyadic(f, 0 - k)
    ensures Widened(ar, p) < INFINITY && Value(Widened(ar, p)) == Dyadic(f, 32 - k)
    ensures Value(Widened(ar, p)) == Value(p) * 4294967296.0
    ensures ar.Mul(Widened(ar, p), HALF) < INFINITY && Value(ar.Mul(Widened(ar, p), HALF)) == Dyadic(f, 31 - k)
  {
    hide Value, Dyadic;
    Powers();
    MulPower(ar, p, f, 0 - k, TWO32, 32);
    DyadicScale(f, 0 - k, 32);
    MulPower(ar, Widened(ar, p), f, 32 - k, HALF, -1);
  }

  /** Every float of the two-half truncation is exact, and the halves add up to the true threshold. */
  lemma TwoHalves(ar: Arith, t: AbsBits, f: nat, k: nat)
    requires ar.Valid() && t < INFINITY && f < SIGNIFICAND && 17 <= k <= 149
    requires Value(t) == Dyadic(f, 32 - k) && Value(t) < 4294967296.0
    requires ar.Mul(t, HALF) < INFINITY && Value(ar.Mul(t, HALF)) == Dyadic(f, 31 - k)
    ensures ExactHalves(ar, t)
  {
    hide Value, Dyadic;
    DyadicTwice(f, 31 - k);
    if k >= 31 {
      SmallHalves(ar, t, f, k - 31);
    } else {
      LargeHalves(ar, t, f, 31 - k);
    }
  }

  lemma DyadicTwice(f: nat, e: int)
    ensures Dyadic(f, e + 1) == 2.0 * Dyadic(f, e)
  {
    Exp2Step(e);
  }

  lemma DoubleExact(ar: Arith, w: AbsBits, f: nat, e: int)
    requires ar.Valid() && w < INFINITY && f < SIGNIFICAND && Value(w) == Dyadic(f, e)
             && MIN_EXPONENT <= e < MAX_EXPONENT
    ensures ar.Mul(TWO, w) < INFINITY && Value(ar.Mul(TWO, w)) == 2.0 * Value(w)
  {
    hide Value, Dyadic;
    Powers();
    MulPower(ar, w, f, e, TWO, 1);
    DyadicTwice(f, e);
  }

  lemma SmallHalves(ar: Arith, t: AbsBits, f: nat, j: nat)
    requires ar.Valid() && t < INFINITY && f < SIGNIFICAND && j <= 118 && Value(t) == 2.0 * Dyadic(f, 0 - j)
    requires ar.Mul(t, HALF) < INFINITY && Value(ar.Mul(t, HALF)) == Dyadic(f, 0 - j)
    ensures ExactHalves(ar, t)
  {
    hide Value, Dyadic, IntPart, FracPart;
    SplitDyadic(f, j);
    var q, rest := IntPart(f, j), FracPart(f, j);
    FloatExact(ar, q);
    DyadicUnit(q);
    DoubleExact(ar, Float(ar, q), q, 0);
    DyadicTwice(rest, 0 - j);
    RoundExact(ar, rest, 1 - j);
  }

  lemma LargeHalves(ar: Arith, t: AbsBits, f: nat, n: nat)
    requires ar.Valid() && t < INFINITY && f < SIGNIFICAND && 0 < n <= 14 && Value(t) == 2.0 * Dyadic(f, n)
    requires Value(t) < 4294967296.0
    requires ar.Mul(t, HALF) < INFINITY && Value(ar.Mul(t, HALF)) == Dyadic(f, n)
    ensures ExactHalves(ar, t)
  {
    WholeDyadic(f, n);
    hide Value, Dyadic;
    var q := f * Pow2(n);
    RoundExact(ar, f, n);
    DoubleExact(ar, Float(ar, q), f, n);
    FloatExact(ar, 0);
  }

  lemma WholeDyadic(f: nat, n: nat)
    ensures Dyadic(f, n) == (f * Pow2(n)) as real
  {
    Exp2Nat(n);
  }

  lemma FloorOfSum(n: int, x: real)
    ensures (n as real + x).Floor == n + x.Floor
  {
  }

  /** The vector threshold, with its 32-bit wrap-around. */
  function FastThreshold(ar: Arith, t: AbsBits): u32
    requires t < INFINITY && ExactHalves(ar, t)
  {
    var q := HalfThreshold(ar, t);
    Wrap(Wrap(q * 2) + Truncate(Leftover(ar, t, q)))
  }

  lemma FastThresholdIs(ar: Arith, t: AbsBits)
    requires t < INFINITY && ExactHalves(ar, t) && Value(t) < 4294967296.0
    ensures FastThreshold(ar, t) == Truncate(t)
  {
    hide Value;
    var q := HalfThreshold(ar, t);
    HalvesAdd(Value(t), q, Value(Leftover(ar, t, q)));
  }

  lemma HalvesAdd(t: real, q: nat, r: real)
    requires q < 0x8000_0000 && 0.0 <= r < 2.0 && r == t - 2.0 * q as real && t < 4294967296.0
    ensures Wrap(Wrap(q * 2) + r.Floor) == t.Floor
  {
    FloorOfSum(2 * q, r);
    assert t.Floor == 2 * q + r.Floor;
  }

  /** All that the threshold of one scaled value needs. */
  ghost predicate GoodFraction(ar: Arith, v: AbsBits)
    requires v < INFINITY
  {
    && Float(ar, Lower(v)) < INFINITY && Value(Float(ar, Lower(v))) == Lower(v) as real
    && var p := Fraction(ar, v);
    && p < INFINITY && Value(p) == Value(v) - Lower(v) as real
    && Widened(ar, p) < INFINITY && Value(Widened(ar, p)) == Value(p) * 4294967296.0
    && ExactHalves(ar, Widened(ar, p))
  }

  lemma EveryFraction(ar: Arith, v: AbsBits)
    requires ar.Valid() && v < INFINITY && Value(v) <= 127.0
    ensures GoodFraction(ar, v)
  {
    hide Value, Dyadic, ExactHalves;
    var m, k := SmallParts(v);
    FractionExact(ar, v, m, k);
    SplitDyadic(m, k);
    var p := Fraction(ar, v);
    WidenedExact(ar, p, FracPart(m, k), k);
    TwoHalves(ar, Widened(ar, p), FracPart(m, k), k);
  }

  /**
   Both truncations give `floor(p * 2^32)` of the exact fraction, which fits 32
   bits because the fraction is below one.
   */
  lemma ThresholdsAgree(ar: Arith, v: AbsBits)
    requires v < INFINITY && GoodFraction(ar, v)
    ensures Threshold(ar, Fraction(ar, v)) == TrueThreshold(Value(v)) < TWO_32
    ensures FastThreshold(ar, Widened(ar, Fraction(ar, v))) == Threshold(ar, Fraction(ar, v))
  {
    hide Value, ExactHalves;
    FastThresholdIs(ar, Widened(ar, Fraction(ar, v)));
  }

  // ---------- the code ----------

  /** The Bernoulli draw. */
  function Draw(word: u32, threshold: nat): nat { if word < threshold then 1 else 0 }

  /** The reference magnitude: the floor, or one more when the word is below the threshold. */
  ghost function MagnitudeCode(v: real, word: u32): int { v.Floor + if word < TrueThreshold(v) then 1 else 0 }

  /** The signed code; a zero magnitude has no sign. */
  function Signed(x: u32, magnitude: int): int
  {
    if SignBit(x) == 1 && magnitude != 0 then 0 - magnitude else magnitude
  }

  /** The byte stored for one value, as real-number arithmetic defines it. */
  ghost function Code(ar: Arith, x: u32, scale: AbsBits, s: nat, word: u32): int
    requires IsFinite(x) && 0 < scale < INFINITY && Scaled(ar, x, scale, s) < INFINITY
  {
    Signed(x, MagnitudeCode(Value(Scaled(ar, x, scale, s)), word)) + s
  }

  /** Rounding up never leaves the range: at the limit itself the fraction is zero. */
  lemma MagnitudeInRange(v: real, s: nat, word: u32)
    requires 0.0 <= v <= s as real
    ensures 0 <= MagnitudeCode(v, word) <= s
    ensures -1.0 < MagnitudeCode(v, word) as real - v <= 1.0
    ensures v == s as real ==> MagnitudeCode(v, word) == s
  {
  }

  lemma CodeInRange(ar: Arith, x: u32, scale: AbsBits, s: nat, word: u32)
    requires ar.Valid() && IsFinite(x) && 0 < scale < INFINITY && s <= 127
    ensures Scaled(ar, x, scale, s) < INFINITY && 0 <= Code(ar, x, scale, s, word) <= 2 * s
  {
    ScaledInRange(ar, x, scale, s);
    MagnitudeInRange(Value(Scaled(ar, x, scale, s)), s, word);
  }

  /** Floor plus draw, branching form. */
  method RoundScalar(ar: Arith, v: AbsBits, word: u32) returns (magnitude: nat)
    requires ar.Valid() && v < INFINITY && Value(v) <= 127.0
    ensures magnitude == MagnitudeCode(Value(v), word)
  {
    EveryFraction(ar, v);
    ThresholdsAgree(ar, v);
    hide Value, ExactHalves, TrueThreshold, Arith.Mul, Arith.Valid, Float;
    var lower := Float(ar, Lower(v));
    var p := ar.Sub(v, lower);
    magnitude := Truncate(lower) + Draw(word, Threshold(ar, p));
  }

  /** One value, branching form. */
  method CodeScalar(ar: Arith, x: u32, scale: AbsBits, s: nat, word: u32) returns (code: u8)
    requires ar.Valid() && IsFinite(x) && 0 < scale < INFINITY && s <= 127
    ensures Scaled(ar, x, scale, s) < INFINITY && code == Code(ar, x, scale, s, word)
  {
    hide Value, MagnitudeCode, Greater, Arith.Mul, Arith.Div, Float;
    CodeInRange(ar, x, scale, s, word);
    ScaledInRange(ar, x, scale, s);
    var v := ar.Mul(ar.Div(Magnitude(x), scale), Float(ar, s));
    if Greater(v, Float(ar, s)) {
      v := Float(ar, s);
    }
    var magnitude := RoundScalar(ar, v, word);
    var signed := Signed(x, magnitude);
    code := (signed + s) % 256;
  }

  /** The top bit of a 64-bit difference is the borrow. */
  function Borrow(word: u32, threshold: u32): nat { ((word - threshold) % TWO_64) / 0x8000_0000_0000_0000 }

  lemma BorrowIsDraw(word: u32, threshold: u32)
    ensures Borrow(word, threshold) == Draw(word, threshold)
  {
    if word < threshold {
      DivModUnique(word - threshold, TWO_64, -1, word - threshold + TWO_64);
    }
  }

  /** Complement and add one when `negative` is 1, nothing when it is 0. */
  function Negated(magnitude: u32, negative: u32): u32
  {
    Wrap(Xor32(magnitude, Wrap(0 - negative)) + negative)
  }

  lemma NegatedIs(magnitude: u32, negative: u32)
    requires negative <= 1
    ensures Negated(magnitude, negative) == if negative == 1 && magnitude != 0 then TWO_32 - magnitude else magnitude
  {
    Xor32Ones(magnitude);
    hide Xor32, Wrap;
  }

  /** The floor and the threshold of one value, vector form: truncate, widen, truncate in two halves. */
  method SplitOne(ar: Arith, x: u32, scale: AbsBits, s: nat) returns (lower: nat, threshold: u32)
    requires ar.Valid() && IsFinite(x) && 0 < scale < INFINITY && s <= 127
    ensures Scaled(ar, x, scale, s) < INFINITY
    ensures lower == Value(Scaled(ar, x, scale, s)).Floor <= s
    ensures threshold == TrueThreshold(Value(Scaled(ar, x, scale, s)))
  {
    ScaledInRange(ar, x, scale, s);
    var v := Scaled(ar, x, scale, s);
    hide Scaled;
    EveryFraction(ar, v);
    ThresholdsAgree(ar, v);
    lower := Lower(v);
    threshold := FastThreshold(ar, Widened(ar, Fraction(ar, v)));
  }

  /** Bernoulli draw, sign and offset of one value, vector form: no branches. */
  method CombineOne(word: u32, x: u32, lower: nat, threshold: u32, s: nat) returns (code: u8)
    requires lower + Draw(word, threshold) <= s <= 127
    ensures code == Signed(x, lower + Draw(word, threshold)) + s
  {
    BorrowIsDraw(word, threshold);
    hide Borrow, Wrap;
    var magnitude := Wrap(lower + Borrow(word, threshold));
    var negative := SignBit(x);
    CombineIs(magnitude, negative, s);
    code := Wrap(Negated(magnitude, negative) + s) % 256;
  }

  /** The two halves of the vector form together give the code. */
  lemma CombinedIsCode(ar: Arith, x: u32, scale: AbsBits, s: nat, word: u32)
    requires ar.Valid() && IsFinite(x) && 0 < scale < INFINITY && s <= 127
    ensures Scaled(ar, x, scale, s) < INFINITY
    ensures var v := Value(Scaled(ar, x, scale, s));
            && 0 <= TrueThreshold(v) < TWO_32 && v.Floor + Draw(word, TrueThreshold(v)) <= s
            && Code(ar, x, scale, s, word) == Signed(x, v.Floor + Draw(word, TrueThreshold(v))) + s
  {
    ScaledInRange(ar, x, scale, s);
    MagnitudeInRange(Value(Scaled(ar, x, scale, s)), s, word);
    hide Scaled, Value;
  }

  lemma CombineIs(magnitude: u32, negative: u32, s: nat)
    requires negative <= 1 && magnitude <= s <= 127
    ensures Wrap(Negated(magnitude, negative) + s) % 256
            == (if negative == 1 && magnitude != 0 then 0 - magnitude else magnitude) + s
  {
    hide Negated, Wrap;
    NegatedIs(magnitude, negative);
    var code := Wrap(Negated(magnitude, negative) + s);
    assert code == (if negative == 1 && magnitude != 0 then 0 - magnitude else magnitude) + s;
    ByteIs(code);
  }

  lemma ByteIs(b: nat)
    requires b < 256
    ensures b % 256 == b
  {
  }
}
