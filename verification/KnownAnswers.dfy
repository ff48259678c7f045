/** Published blocks of Philox4x32-10, computed round by round. */
module KnownAnswers {
  import opened Words
  import opened Philox

  // ---------- exclusive or on bytes ----------

  lemma Halves(x: bv8)
    ensures (x >> 1) as nat == (x as nat) / 2
  {
  }

  lemma Parity(x: bv8)
    ensures (x & 1) as nat == (x as nat) % 2
  {
  }

  lemma ShiftedXor(x: bv8, y: bv8)
    ensures (x ^ y) >> 1 == (x >> 1) ^ (y >> 1)
    ensures (x ^ y) & 1 == if x & 1 == y & 1 then 0 else 1
  {
  }

  lemma BelowOne(x: bv8)
    requires x as nat < 1
    ensures x == 0
  {
  }

  lemma XorStep(a: nat, b: nat, bits: nat)
    requires bits > 0
    ensures Xor(a, b, bits) == (if a % 2 == b % 2 then 0 else 1) + 2 * Xor(a / 2, b / 2, bits - 1)
  {
  }

  lemma XorNext(a: nat, b: nat, bits: nat, half: nat, all: nat)
    requires bits > 0 && half == Xor(a / 2, b / 2, bits - 1)
    requires all == (if a % 2 == b % 2 then 0 else 1) + 2 * half
    ensures Xor(a, b, bits) == all
  {
  }

  lemma NoBits(x: bv8, y: bv8)
    requires x as nat < 1 && y as nat < 1
    ensures Xor(x as nat, y as nat, 0) == (x ^ y) as nat
  {
    BelowOne(x);
    BelowOne(y);
  }

  lemma HalfBelow(a: nat, bits: nat)
    requires bits > 0 && a < Pow2(bits)
    ensures a / 2 < Pow2(bits - 1)
  {
  }

  ghost predicate Machine(x: bv8, y: bv8, bits: nat) { Xor(x as nat, y as nat, bits) == (x ^ y) as nat }

  lemma MachineNext(x: bv8, y: bv8, bits: nat)
    requires bits > 0 && Machine(x >> 1, y >> 1, bits - 1)
    ensures Machine(x, y, bits)
  {
    hide Xor;
    HalvedXor(x, y, bits);
    LastBits(x, y);
    hide Machine;
    XorNext(x as nat, y as nat, bits, ((x >> 1) ^ (y >> 1)) as nat, (x ^ y) as nat);
    MachineIs(x, y, bits);
  }

  lemma MachineIs(x: bv8, y: bv8, bits: nat)
    requires Xor(x as nat, y as nat, bits) == (x ^ y) as nat
    ensures Machine(x, y, bits)
  {
    hide Xor;
  }

  lemma HalvedXor(x: bv8, y: bv8, bits: nat)
    requires bits > 0 && Machine(x >> 1, y >> 1, bits - 1)
    ensures Xor(x as nat / 2, y as nat / 2, bits - 1) == ((x >> 1) ^ (y >> 1)) as nat
  {
    hide Xor;
    Halves(x);
    Halves(y);
  }

  lemma ShiftBelow(x: bv8, bits: nat)
    requires bits > 0 && x as nat < Pow2(bits)
    ensures (x >> 1) as nat < Pow2(bits - 1)
  {
    HalfBelow(x as nat, bits);
    hide Pow2;
    Halves(x);
  }

  /** The recursive exclusive or is the machine's. */
  lemma {:induction false} XorOfBytes(x: bv8, y: bv8, bits: nat)
    requires x as nat < Pow2(bits) && y as nat < Pow2(bits)
    ensures Machine(x, y, bits)
    decreases bits
  {
    if bits == 0 {
      NoBits(x, y);
    } else {
      hide Machine;
      ShiftBelow(x, bits);
      ShiftBelow(y, bits);
      XorOfBytes(x >> 1, y >> 1, bits - 1);
      MachineNext(x, y, bits);
    }
  }

  lemma LastBits(x: bv8, y: bv8)
    ensures (x ^ y) as nat
            == (if x as nat % 2 == y as nat % 2 then 0 else 1) + 2 * ((x >> 1) ^ (y >> 1)) as nat
  {
    ShiftedXor(x, y);
    Halves(x ^ y);
    Parity(x ^ y);
    ParityOf(x, y);
  }

  lemma ParityOf(x: bv8, y: bv8)
    ensures x as nat % 2 == y as nat % 2 <==> x & 1 == y & 1
  {
    Parity(x);
    Parity(y);
  }

  /** Exclusive or works on low and high bits apart. */
  lemma {:induction false} XorSplits(a: nat, b: nat, x: nat, y: nat, low: nat, high: nat)
    requires a < Pow2(low) && b < Pow2(low)
    ensures Xor(a + Pow2(low) * x, b + Pow2(low) * y, low + high) == Xor(a, b, low) + Pow2(low) * Xor(x, y, high)
    decreases low
  {
    if low == 0 {
      assert Pow2(0) * x == x && Pow2(0) * y == y;
    } else {
      hide Xor, Pow2;
      EvenPart(a, x, low);
      EvenPart(b, y, low);
      XorStep(a + Pow2(low) * x, b + Pow2(low) * y, low + high);
      XorStep(a, b, low);
      Doubled(Xor(x, y, high), low);
      XorSplits(a / 2, b / 2, x, y, low - 1, high);
    }
  }

  lemma Doubled(z: nat, low: nat)
    requires low > 0
    ensures Pow2(low) * z == 2 * (Pow2(low - 1) * z)
  {
    var p := Pow2(low - 1);
    assert Pow2(low) == 2 * p;
  }

  lemma EvenPart(a: nat, x: nat, low: nat)
    requires low > 0 && a < Pow2(low)
    ensures (a + Pow2(low) * x) % 2 == a % 2 && (a + Pow2(low) * x) / 2 == a / 2 + Pow2(low - 1) * x
    ensures a / 2 < Pow2(low - 1)
  {
    HalfBelow(a, low);
    Doubled(x, low);
    hide Pow2;
  }

  // ---------- words as four bytes ----------

  /** `x` with one more byte below it. */
  function Join(a: bv8, x: nat): nat { a as nat + 0x100 * x }

  lemma JoinBelow(a: bv8, x: nat, m: nat)
    requires x < m
    ensures Join(a, x) < 0x100 * m
  {
  }

  /** A 32-bit word, most significant byte first. */
  datatype Quad = Quad(b3: bv8, b2: bv8, b1: bv8, b0: bv8)
  {
    function Number(): u32
    {
      JoinBelow(b3, 0, 1);
      JoinBelow(b2, Join(b3, 0), 0x100);
      JoinBelow(b1, Join(b2, Join(b3, 0)), 0x1_0000);
      JoinBelow(b0, Join(b1, Join(b2, Join(b3, 0))), 0x100_0000);
      Join(b0, Join(b1, Join(b2, Join(b3, 0))))
    }

    function Xor(q: Quad): Quad { Quad(b3 ^ q.b3, b2 ^ q.b2, b1 ^ q.b1, b0 ^ q.b0) }
  }

  lemma ByteFits(x: bv8)
    ensures x as nat < Pow2(8)
  {
    Pow2Of32();
  }

  /** One more byte below `bits` bits. */
  lemma XorOfJoins(a: bv8, b: bv8, x: nat, y: nat, bits: nat)
    ensures Xor(Join(a, x), Join(b, y), 8 + bits) == Join(a ^ b, Xor(x, y, bits))
  {
    hide Xor, Pow2;
    ByteFits(a);
    ByteFits(b);
    XorOfBytes(a, b, 8);
    Pow2Of32();
    XorSplits(a as nat, b as nat, x, y, 8, bits);
  }

  lemma NumberIs(q: Quad)
    ensures q.Number() == Join(q.b0, Join(q.b1, Join(q.b2, Join(q.b3, 0))))
  {
  }

  lemma NoXor()
    ensures Xor(0, 0, 0) == 0
  {
  }

  lemma XorIs(a: u32, b: u32)
    ensures Xor32(a, b) == Xor(a, b, 32)
  {
    hide Xor, Pow2;
  }

  lemma XorOfHalves(a1: bv8, a0: bv8, x: nat, b1: bv8, b0: bv8, y: nat, bits: nat)
    ensures Xor(Join(a0, Join(a1, x)), Join(b0, Join(b1, y)), 16 + bits)
            == Join(a0 ^ b0, Join(a1 ^ b1, Xor(x, y, bits)))
  {
    hide Xor, Join;
    XorOfJoins(a1, b1, x, y, bits);
    XorOfJoins(a0, b0, Join(a1, x), Join(b1, y), 8 + bits);
  }

  /** The recursive exclusive or of two words, byte by byte. */
  lemma XorOfQuads(p: Quad, q: Quad)
    ensures Xor32(p.Number(), q.Number()) == p.Xor(q).Number()
  {
    hide Xor, Xor32, Join, Pow2, Quad.Number;
    XorIs(p.Number(), q.Number());
    NumberIs(p);
    NumberIs(q);
    NumberIs(p.Xor(q));
    NoXor();
    XorOfHalves(p.b3, p.b2, 0, q.b3, q.b2, 0, 0);
    XorOfHalves(p.b1, p.b0, Join(p.b2, Join(p.b3, 0)), q.b1, q.b0, Join(q.b2, Join(q.b3, 0)), 16);
  }

  // ---------- one round on four-byte words ----------

  datatype Quads = Quads(c0: Quad, c1: Quad, c2: Quad, c3: Quad)
  {
    function Value(): Counter { Counter(c0.Number(), c1.Number(), c2.Number(), c3.Number()) }
  }

  /** The products `h1 l1` and `h0 l0` of a round's state, folded with the other words and the round key. */
  function NextQuads(at: Quads, ka: Quad, kb: Quad, h0: Quad, l0: Quad, h1: Quad, l1: Quad): Quads
  {
    Quads(h1.Xor(at.c1).Xor(ka), l1, h0.Xor(at.c3).Xor(kb), l0)
  }

  lemma SplitProduct(p: nat, high: u32, low: u32)
    requires p == TWO_32 * high + low
    ensures High(p) == high && Low(p) == low
  {
  }

  lemma Advance(c: Counter, k: Key, n: nat, at: Quads, ka: Quad, kb: Quad, h0: Quad, l0: Quad, h1: Quad, l1: Quad)
    returns (next: Quads)
    requires Rounds(c, k, n) == at.Value()
    requires ka.Number() == DirectWord(k.k0, n, W0) && kb.Number() == DirectWord(k.k1, n, W1)
    requires M0 * at.c0.Number() == TWO_32 * h0.Number() + l0.Number()
    requires M1 * at.c2.Number() == TWO_32 * h1.Number() + l1.Number()
    ensures next == NextQuads(at, ka, kb, h0, l0, h1, l1) && Rounds(c, k, n + 1) == next.Value()
  {
    hide Xor32, DirectWord, Quad.Number, Low, High, RoundKey, Quad.Xor;
    next := NextQuads(at, ka, kb, h0, l0, h1, l1);
    KeySchedule(k, n);
    SplitProduct(M0 * at.c0.Number(), h0.Number(), l0.Number());
    SplitProduct(M1 * at.c2.Number(), h1.Number(), l1.Number());
    XorOfQuads(h1, at.c1);
    XorOfQuads(h1.Xor(at.c1), ka);
    XorOfQuads(h0, at.c3);
    XorOfQuads(h0.Xor(at.c3), kb);
    assert Rounds(c, k, n + 1) == Round(at.Value(), RoundKey(k, n));
  }

  lemma NoRounds(c: Counter, k: Key)
    ensures Rounds(c, k, 0) == c
  {
  }

  lemma ToRound3(c: Counter, k: Key)
    requires k == Key(0xA409_3822, 0x299F_31D0)
    requires Rounds(c, k, 0) == Counter(0x243F_6A88, 0x85A3_08D3, 0x1319_8A2E, 0x0370_7344)
    ensures Rounds(c, k, 3) == Counter(0x9A27_DB43, 0x0524_DC72, 0xDDFB_DC94, 0x8E41_DF2E)
  {
    hide Rounds, Round, RoundKey;
    var at := Quads(Quad(0x24, 0x3F, 0x6A, 0x88), Quad(0x85, 0xA3, 0x08, 0xD3),
                    Quad(0x13, 0x19, 0x8A, 0x2E), Quad(0x03, 0x70, 0x73, 0x44));
    at := Advance(c, k, 0, at, Quad(0xA4, 0x09, 0x38, 0x22), Quad(0x29, 0x9F, 0x31, 0xD0),
                  Quad(0x1D, 0xC7, 0x81, 0xE3), Quad(0xB3, 0x7E, 0x02, 0x18),
                  Quad(0x0F, 0x57, 0x47, 0xF5), Quad(0xAD, 0x2D, 0x4B, 0xA2));
    at := Advance(c, k, 1, at, Quad(0x42, 0x40, 0xB1, 0xDB), Quad(0xE5, 0x06, 0xE0, 0x55),
                  Quad(0x26, 0x9A, 0xCF, 0x93), Quad(0xDD, 0xDB, 0x12, 0x4C),
                  Quad(0x2C, 0x4D, 0xCE, 0x23), Quad(0x20, 0xF4, 0xF8, 0x71));
    at := Advance(c, k, 2, at, Quad(0xE0, 0x78, 0x2B, 0x94), Quad(0xA0, 0x6E, 0x8E, 0xDA),
                  Quad(0xA0, 0x4E, 0x40, 0x02), Quad(0x8E, 0x41, 0xDF, 0x2E),
                  Quad(0x5A, 0xAB, 0x08, 0xA6), Quad(0x05, 0x24, 0xDC, 0x72));
  }

  lemma ToRound6(c: Counter, k: Key)
    requires k == Key(0xA409_3822, 0x299F_31D0)
    requires Rounds(c, k, 3) == Counter(0x9A27_DB43, 0x0524_DC72, 0xDDFB_DC94, 0x8E41_DF2E)
    ensures Rounds(c, k, 6) == Counter(0xD0BE_47EE, 0x222F_0768, 0x43E1_D190, 0xE100_1694)
  {
    hide Rounds, Round, RoundKey;
    var at := Quads(Quad(0x9A, 0x27, 0xDB, 0x43), Quad(0x05, 0x24, 0xDC, 0x72),
                    Quad(0xDD, 0xFB, 0xDC, 0x94), Quad(0x8E, 0x41, 0xDF, 0x2E));
    at := Advance(c, k, 3, at, Quad(0x7E, 0xAF, 0xA5, 0x4D), Quad(0x5B, 0xD6, 0x3D, 0x5F),
                  Quad(0x7E, 0xA5, 0x8B, 0x56), Quad(0x24, 0xAC, 0x33, 0xB9),
                  Quad(0xB2, 0x4C, 0x2B, 0xA3), Quad(0xD0, 0x6D, 0x7A, 0x4C));
    at := Advance(c, k, 4, at, Quad(0x1C, 0xE7, 0x1F, 0x06), Quad(0x17, 0x3D, 0xEB, 0xE4),
                  Quad(0xA5, 0xC5, 0x72, 0x85), Quad(0xA9, 0xFC, 0xAC, 0x94),
                  Quad(0x89, 0x81, 0x65, 0xD6), Quad(0x13, 0x1E, 0x37, 0x41));
    at := Advance(c, k, 5, at, Quad(0xBB, 0x1E, 0x98, 0xBF), Quad(0xD2, 0xA5, 0x9A, 0x69),
                  Quad(0x38, 0xB8, 0xE7, 0x6D), Quad(0xE1, 0x00, 0x16, 0x94),
                  Quad(0x78, 0xBE, 0xE8, 0x10), Quad(0x22, 0x2F, 0x07, 0x68));
  }

  lemma ToRound8(c: Counter, k: Key)
    requires k == Key(0xA409_3822, 0x299F_31D0)
    requires Rounds(c, k, 6) == Counter(0xD0BE_47EE, 0x222F_0768, 0x43E1_D190, 0xE100_1694)
    ensures Rounds(c, k, 8) == Counter(0x734D_1A7D, 0x3162_FF36, 0xBFD3_C78A, 0x9E5C_404E)
  {
    hide Rounds, Round, RoundKey;
    var at := Quads(Quad(0xD0, 0xBE, 0x47, 0xEE), Quad(0x22, 0x2F, 0x07, 0x68),
                    Quad(0x43, 0xE1, 0xD1, 0x90), Quad(0xE1, 0x00, 0x16, 0x94));
    at := Advance(c, k, 6, at, Quad(0x59, 0x56, 0x12, 0x78), Quad(0x8E, 0x0D, 0x48, 0xEE),
                  Quad(0xAB, 0x7E, 0x3C, 0xC0), Quad(0xB6, 0xB5, 0x24, 0x2A),
                  Quad(0x36, 0x85, 0xDF, 0xAA), Quad(0x19, 0x0A, 0x87, 0xF0));
    at := Advance(c, k, 7, at, Quad(0xF7, 0x8D, 0x8C, 0x31), Quad(0x49, 0x74, 0xF7, 0x73),
                  Quad(0x40, 0x12, 0x14, 0xD3), Quad(0x9E, 0x5C, 0x40, 0x4E),
                  Quad(0x9D, 0xCA, 0x11, 0xBC), Quad(0x31, 0x62, 0xFF, 0x36));
  }

  lemma ToRound10(c: Counter, k: Key)
    requires k == Key(0xA409_3822, 0x299F_31D0)
    requires Rounds(c, k, 8) == Counter(0x734D_1A7D, 0x3162_FF36, 0xBFD3_C78A, 0x9E5C_404E)
    ensures Rounds(c, k, 10) == Counter(0xD16C_FE09, 0x94FD_CCEB, 0x5001_E420, 0x2412_6EA1)
  {
    hide Rounds, Round, RoundKey;
    var at := Quads(Quad(0x73, 0x4D, 0x1A, 0x7D), Quad(0x31, 0x62, 0xFF, 0x36),
                    Quad(0xBF, 0xD3, 0xC7, 0x8A), Quad(0x9E, 0x5C, 0x40, 0x4E));
    at := Advance(c, k, 8, at, Quad(0x95, 0xC5, 0x05, 0xEA), Quad(0x04, 0xDC, 0xA5, 0xF8),
                  Quad(0x5E, 0xB9, 0xC9, 0x3B), Quad(0xA3, 0xC1, 0xB9, 0x87),
                  Quad(0x9A, 0x13, 0x65, 0x67), Quad(0x7F, 0x0B, 0xD1, 0xE6));
    at := Advance(c, k, 9, at, Quad(0x33, 0xFC, 0x7F, 0xA3), Quad(0xC0, 0x44, 0x54, 0x7D),
                  Quad(0x33, 0x84, 0x09, 0xDA), Quad(0x24, 0x12, 0x6E, 0xA1),
                  Quad(0x9D, 0x9B, 0x50, 0x4C), Quad(0x94, 0xFD, 0xCC, 0xEB));
  }

  /** The published block for the digits of pi as counter and key. */
  lemma DigitsOfPi()
    ensures Block(Counter(0x243F_6A88, 0x85A3_08D3, 0x1319_8A2E, 0x0370_7344), Key(0xA409_3822, 0x299F_31D0))
            == Counter(0xD16C_FE09, 0x94FD_CCEB, 0x5001_E420, 0x2412_6EA1)
  {
    hide Rounds;
    var c, k := Counter(0x243F_6A88, 0x85A3_08D3, 0x1319_8A2E, 0x0370_7344), Key(0xA409_3822, 0x299F_31D0);
    NoRounds(c, k);
    ToRound3(c, k);
    ToRound6(c, k);
    ToRound8(c, k);
    ToRound10(c, k);
  }
}
