/** Machine words, status codes and powers of two shared by every stage. */
module Words {
  const TWO_8 := 0x100
  const TWO_32 := 0x1_0000_0000
  const TWO_64 := 0x1_0000_0000_0000_0000
  const SIZE_MAX := TWO_64 - 1

  type u8 = x: nat | x < 0x100
  type u32 = x: nat | x < 0x1_0000_0000
  type u64 = x: nat | x < 0x1_0000_0000_0000_0000

  /** 32-bit wrap-around. */
  function Wrap(x: int): (r: u32)
    ensures 0 <= x < TWO_32 ==> r == x
    ensures -TWO_32 <= x < 0 ==> r == x + TWO_32
    ensures TWO_32 <= x < 2 * TWO_32 ==> r == x - TWO_32
  {
    x % TWO_32
  }

  datatype Status =
    | Ok
    | ErrArgument
    | ErrMagic
    | ErrVersion
    | ErrBitWidth
    | ErrReserved
    | ErrCount
    | ErrPayloadLength
    | ErrScale
    | ErrCode
    | ErrZeroScaleCode
    | ErrPaddingNibble
    | ErrNonfinite
    | ErrScaleOverflow
    | ErrIdOverflow
    | ErrMemory

  datatype Option<+T> = None | Some(value: T)

  function Pow2(k: nat): (r: nat)
    ensures r >= 1
  {
    if k == 0 then 1 else 2 * Pow2(k - 1)
  }

  lemma {:induction false} Pow2Add(a: nat, b: nat)
    ensures Pow2(a + b) == Pow2(a) * Pow2(b)
    decreases b
  {
    if b != 0 {
      Pow2Add(a, b - 1);
      assert Pow2(a + b) == 2 * Pow2(a + (b - 1));
    }
  }

  lemma {:induction false} Pow2Monotone(a: nat, b: nat)
    requires a <= b
    ensures Pow2(a) <= Pow2(b)
    decreases b
  {
    if a < b {
      Pow2Monotone(a, b - 1);
    }
  }

  /** Bitwise exclusive or of the low `bits` bits, least significant bit first. */
  function Xor(a: nat, b: nat, bits: nat): (r: nat)
    ensures r < Pow2(bits)
  {
    if bits == 0 then 0
    else (if a % 2 == b % 2 then 0 else 1) + 2 * Xor(a / 2, b / 2, bits - 1)
  }

  function Xor32(a: u32, b: u32): (r: u32)
  {
    Pow2Of32();
    Xor(a, b, 32)
  }

  lemma Pow2Of32()
    ensures Pow2(8) == TWO_8
    ensures Pow2(32) == TWO_32
  {
    assert Pow2(8) == 256;
    Pow2Add(8, 8);
    Pow2Add(16, 16);
  }

  /** Applying the same mask twice restores the masked bits. */
  lemma {:induction false} XorCancels(a: nat, b: nat, bits: nat)
    ensures Xor(Xor(a, b, bits), b, bits) == a % Pow2(bits)
  {
    if bits != 0 {
      XorCancels(a / 2, b / 2, bits - 1);
      var inner := Xor(a, b, bits);
      assert inner / 2 == Xor(a / 2, b / 2, bits - 1);
      ModHalves(a, bits);
    } else {
      assert a % 1 == 0;
    }
  }

  lemma ModHalves(a: nat, bits: nat)
    requires bits > 0
    ensures a % Pow2(bits) == a % 2 + 2 * ((a / 2) % Pow2(bits - 1))
  {
    var p := Pow2(bits - 1);
    var q, r := (a / 2) / p, (a / 2) % p;
    assert a == q * (2 * p) + (a % 2 + 2 * r);
    DivModUnique(a, 2 * p, q, a % 2 + 2 * r);
  }

  /** The quotient and remainder of a division are the only ones in range. */
  lemma DivModUnique(a: int, d: int, q: int, r: nat)
    requires 0 <= r < d
    requires a == q * d + r
    ensures a / d == q && a % d == r
  {
    var k := q - a / d;
    assert k * d == a % d - r;
    assert -d < k * d < d;
    ZeroMultiple(k, d);
  }

  lemma ZeroMultiple(k: int, d: int)
    requires -d < k * d < d
    ensures k == 0
  {
    assert k > 0 ==> k * d >= d;
    assert k < 0 ==> k * d <= -d;
  }

  lemma Distribute(a: int, b: int, d: int)
    ensures (a + b) * d == a * d + b * d
  {
  }

  lemma AtLeastOnce(a: nat, d: nat)
    requires a > 0
    ensures a * d >= d
  {
    Distribute(a - 1, 1, d);
  }

  lemma MulOrder(a: nat, b: nat, d: nat)
    ensures a <= b ==> a * d <= b * d
    ensures a > b ==> a * d >= b * d + d
  {
    if a > b {
      Distribute(b, a - b, d);
      AtLeastOnce(a - b, d);
    } else {
      Distribute(a, b - a, d);
    }
  }

  lemma QuotientBounds(a: nat, d: nat)
    requires d > 0
    ensures (a / d) * d <= a < (a / d) * d + d
    ensures a % d + (a / d) * d == a
  {
  }

  lemma XorCancels32(a: u32, b: u32)
    ensures Xor32(Xor32(a, b), b) == a
  {
    Pow2Of32();
    XorCancels(a, b, 32);
    assert a % TWO_32 == a;
  }

  lemma {:induction false} XorCommutes(a: nat, b: nat, bits: nat)
    ensures Xor(a, b, bits) == Xor(b, a, bits)
  {
    if bits != 0 {
      XorCommutes(a / 2, b / 2, bits - 1);
    }
  }

  /** Masking with all ones is the bitwise complement. */
  lemma {:induction false} XorOnes(a: nat, bits: nat)
    requires a < Pow2(bits)
    ensures Xor(a, Pow2(bits) - 1, bits) == Pow2(bits) - 1 - a
  {
    if bits != 0 {
      XorOnes(a / 2, bits - 1);
      assert (Pow2(bits) - 1) / 2 == Pow2(bits - 1) - 1;
      assert (Pow2(bits) - 1) % 2 == 1;
    }
  }

  lemma {:induction false} XorZero(a: nat, bits: nat)
    requires a < Pow2(bits)
    ensures Xor(a, 0, bits) == a
  {
    if bits != 0 {
      XorZero(a / 2, bits - 1);
    }
  }

  lemma Xor32Ones(a: u32)
    ensures Xor32(a, 0xFFFF_FFFF) == 0xFFFF_FFFF - a && Xor32(a, 0) == a
  {
    Pow2Of32();
    XorOnes(a, 32);
    XorZero(a, 32);
    hide Xor, Pow2;
  }
}
