/**
 Binary32 numbers as bit patterns (section 3.4 of IEEE 754-2019). A magnitude is
 a non-negative pattern that is not a NaN. Arithmetic on magnitudes is the exact
 real result passed through a rounding function that stays a parameter.
 */
module Binary32 {
  import opened Words

  const FRACTION := 0x80_0000          // 2^23
  const SIGNIFICAND := 0x100_0000      // 2^24
  const INFINITY := 0x7F80_0000
  const SIGN := 0x8000_0000
  const MIN_EXPONENT := -149
  const MAX_EXPONENT := 104

  type AbsBits = w: nat | w <= 0x7F80_0000

  function SignBit(w: u32): u32 { w / SIGN }

  /** The pattern with the sign bit cleared, which is `fabsf`. */
  function Magnitude(w: u32): (m: u32)
    ensures m < SIGN
  {
    w % SIGN
  }

  predicate IsFinite(w: u32) { Magnitude(w) < INFINITY }

  /** Two to a signed power. */
  function Exp2(e: int): (r: real)
    ensures r > 0.0
    decreases if e < 0 then -e else e
  {
    if e == 0 then 1.0 else if e > 0 then 2.0 * Exp2(e - 1) else Exp2(e + 1) / 2.0
  }

  lemma Exp2Step(e: int)
    ensures Exp2(e + 1) == 2.0 * Exp2(e)
  {
  }

  lemma {:induction false} Exp2Nat(k: nat)
    ensures Exp2(k) == Pow2(k) as real
  {
    if k != 0 {
      Exp2Nat(k - 1);
    }
  }

  lemma {:induction false} Exp2Add(e: int, k: nat)
    ensures Exp2(e + k) == Exp2(e) * Exp2(k)
    decreases k
  {
    if k != 0 {
      Exp2Add(e, k - 1);
      Exp2Step(e + k - 1);
    }
  }

  lemma Exp2Inverse(k: nat)
    ensures Exp2(0 - k) * Exp2(k) == 1.0
  {
    Exp2Add(0 - k, k);
  }

  lemma {:induction false} Exp2Order(a: int, b: int)
    requires a <= b
    ensures Exp2(a) <= Exp2(b)
    decreases b - a
  {
    if a < b {
      Exp2Order(a, b - 1);
      Exp2Step(b - 1);
    }
  }

  lemma QuotientAtMostOne(a: real, b: real)
    requires 0.0 <= a <= b && b > 0.0
    ensures 0.0 <= a / b <= 1.0
  {
  }

  /** An integer significand times a power of two. */
  function Dyadic(m: nat, e: int): (r: real)
    ensures r >= 0.0
  {
    m as real * Exp2(e)
  }

  lemma DyadicShift(m: nat, e: int)
    ensures Dyadic(2 * m, e - 1) == Dyadic(m, e)
  {
    Exp2Step(e - 1);
  }

  /** The real number of a finite magnitude: subnormal below 2^23, normal above. */
  function Value(w: AbsBits): (r: real)
    requires w < INFINITY
    ensures r >= 0.0
  {
    if w < FRACTION then Dyadic(w, MIN_EXPONENT)
    else Dyadic(FRACTION + w % FRACTION, w / FRACTION - 150)
  }

  /** The significand and exponent that `Value` uses. */
  function Parts(w: AbsBits): (p: (nat, int))
    requires w < INFINITY
    ensures p.0 < SIGNIFICAND && MIN_EXPONENT <= p.1 <= MAX_EXPONENT
    ensures Value(w) == Dyadic(p.0, p.1)
  {
    if w < FRACTION then (w, MIN_EXPONENT) else (FRACTION + w % FRACTION, w / FRACTION - 150)
  }

  lemma ValueOfPacked(m: nat, e: int)
    requires FRACTION <= m < SIGNIFICAND && MIN_EXPONENT <= e <= MAX_EXPONENT
    ensures (e + 150) * FRACTION + (m - FRACTION) < INFINITY
    ensures Value((e + 150) * FRACTION + (m - FRACTION)) == Dyadic(m, e)
  {
  }

  /** Every 24-bit significand in the exponent range is some finite magnitude. */
  function Compose(m: nat, e: int): (w: AbsBits)
    requires m < SIGNIFICAND && MIN_EXPONENT <= e <= MAX_EXPONENT
    ensures w < INFINITY && Value(w) == Dyadic(m, e)
    decreases e - MIN_EXPONENT
  {
    if m >= FRACTION then
      ValueOfPacked(m, e);
      (e + 150) * FRACTION + (m - FRACTION)
    else if e == MIN_EXPONENT then m
    else
      DyadicShift(m, e);
      Compose(2 * m, e - 1)
  }

  lemma DyadicNext(m: nat, e: int)
    ensures Dyadic(m, e) < Dyadic(m + 1, e)
  {
    assert Dyadic(m + 1, e) == Dyadic(m, e) + Exp2(e);
  }

  lemma NextValue(w: AbsBits)
    requires w + 1 < INFINITY
    ensures Value(w) < Value(w + 1)
  {
    var (m, e) := Parts(w);
    DyadicNext(m, e);
    if w + 1 >= FRACTION {
      var q, f := w / FRACTION, w % FRACTION;
      if f == FRACTION - 1 {
        DivModUnique(w + 1, FRACTION, q + 1, 0);
        DyadicShift(FRACTION, e + 1);
      } else {
        DivModUnique(w + 1, FRACTION, q, f + 1);
      }
    }
  }

  /** Patterns and numbers are in the same order. */
  lemma {:induction false} ValueMonotone(a: AbsBits, b: AbsBits)
    requires a < b < INFINITY
    ensures Value(a) < Value(b)
    decreases b
  {
    NextValue(b - 1);
    if a < b - 1 {
      ValueMonotone(a, b - 1);
    }
  }

  /** The floating-point comparison `a > b`. */
  predicate Greater(a: AbsBits, b: AbsBits)
  {
    b != INFINITY && (a == INFINITY || Value(a) > Value(b))
  }

  lemma GreaterIsPatternOrder(a: AbsBits, b: AbsBits)
    ensures Greater(a, b) <==> a > b
  {
    if a < b < INFINITY {
      ValueMonotone(a, b);
    } else if b < a < INFINITY {
      ValueMonotone(b, a);
    }
  }

  lemma ZeroIsZero(w: AbsBits)
    requires w < INFINITY
    ensures Value(w) == 0.0 <==> w == 0
  {
    if w > 0 {
      ValueMonotone(0, w);
    }
  }

  /** Rounded arithmetic: `round` maps a non-negative real to a magnitude. */
  datatype Arith = Arith(round: real -> AbsBits, root: real -> real) {

    function Div(a: AbsBits, b: AbsBits): AbsBits
      requires a < INFINITY && 0 < b < INFINITY
    {
      ZeroIsZero(b);
      round(Value(a) / Value(b))
    }

    function Mul(a: AbsBits, b: AbsBits): AbsBits
    {
      if a == INFINITY || b == INFINITY then INFINITY else round(Value(a) * Value(b))
    }

    function Add(a: AbsBits, b: AbsBits): AbsBits
    {
      if a == INFINITY || b == INFINITY then INFINITY else round(Value(a) + Value(b))
    }

    /** `a - b` for `a >= b`. */
    function Sub(a: AbsBits, b: AbsBits): AbsBits
      requires a < INFINITY && b < INFINITY
    {
      round(Value(a) - Value(b))
    }

    function Sqrt(a: AbsBits): AbsBits
    {
      if a == INFINITY then INFINITY else round(root(Value(a)))
    }

    /** Rounding leaves every binary32 number alone and never reverses an order. */
    ghost predicate Valid()
    {
      && (forall w: AbsBits :: w < INFINITY ==> round(Value(w)) == w)
      && (forall x: real, y: real :: 0.0 <= x <= y ==> round(x) <= round(y))
      && (forall x: real :: x >= 0.0 ==> root(x) >= 0.0 && root(x) * root(x) == x)
    }
  }

  /** A real with a 24-bit significand survives rounding unchanged. */
  lemma RoundExact(ar: Arith, m: nat, e: int)
    requires ar.Valid() && m < SIGNIFICAND && MIN_EXPONENT <= e <= MAX_EXPONENT
    ensures ar.round(Dyadic(m, e)) < INFINITY
    ensures Value(ar.round(Dyadic(m, e))) == Dyadic(m, e)
  {
    var w := Compose(m, e);
    assert ar.round(Value(w)) == w;
  }
}
