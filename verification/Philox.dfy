/**
 Philox4x32-10: ten keyed rounds on a 128-bit counter of four 32-bit words, and
 the map from streams and groups to keys and counters.
 */
module Philox {
  import opened Words

  const M0 := 0xD251_1F53
  const M1 := 0xCD9E_8D57
  const W0 := 0x9E37_79B9
  const W1 := 0xBB67_AE85
  const ROUNDS := 10

  datatype Counter = Counter(c0: u32, c1: u32, c2: u32, c3: u32)
  datatype Key = Key(k0: u32, k1: u32)

  function Low(x: nat): u32 { x % TWO_32 }
  function High(x: nat): nat { x / TWO_32 }

  function HighProduct(m: u32, c: u32): (h: u32)
  {
    ProductHigh(m, c);
    High(m * c)
  }

  lemma ProductHigh(m: u32, c: u32)
    ensures High(m * c) < TWO_32
  {
    ProductBelow(m, c);
  }

  lemma ProductBelow(m: nat, c: nat)
    requires m < TWO_32 && c < TWO_32
    ensures m * c < TWO_32 * TWO_32
  {
    MulStrict(m, c, TWO_32);
  }

  lemma MulStrict(m: nat, c: nat, b: nat)
    requires m < b && c < b
    ensures m * c < b * b
  {
    assert m * c <= m * b;
    assert m * b < b * b;
  }

  /** One round: two products, their low halves moved aside, their high halves mixed with the key. */
  function Round(c: Counter, k: Key): Counter
  {
    Counter(Xor32(Xor32(HighProduct(M1, c.c2), c.c1), k.k0), Low(M1 * c.c2),
            Xor32(Xor32(HighProduct(M0, c.c0), c.c3), k.k1), Low(M0 * c.c0))
  }

  /** The key of round `r`, as the stepwise schedule produces it. */
  function RoundKey(k: Key, r: nat): Key
  {
    if r == 0 then k
    else var p := RoundKey(k, r - 1); Key(Low(p.k0 + W0), Low(p.k1 + W1))
  }

  function Rounds(c: Counter, k: Key, n: nat): Counter
  {
    if n == 0 then c else Round(Rounds(c, k, n - 1), RoundKey(k, n - 1))
  }

  function Block(c: Counter, k: Key): Counter { Rounds(c, k, ROUNDS) }

  /** The oracle's loop: a round, then a key bump after every round but the last. */
  method PhiloxLoop(counter: Counter, key: Key) returns (c: Counter)
    ensures c == Block(counter, key)
  {
    hide Round;
    c := counter;
    var k := key;
    for r := 0 to ROUNDS
      invariant c == Rounds(counter, key, r) && k == RoundKey(key, if r < ROUNDS then r else ROUNDS - 1)
    {
      c := Round(c, k);
      if r != ROUNDS - 1 {
        k := Key(Low(k.k0 + W0), Low(k.k1 + W1));
      }
    }
  }

  // ---------- every round is a bijection ----------

  // The multiplicative inverses of M0 and M1 modulo 2^32.
  const INVERSE0 := 0x991A_7CDB
  const INVERSE1 := 0x6D7C_AE67

  function RoundBack(c: Counter, k: Key): Counter
  {
    var c0, c2 := Low(c.c3 * INVERSE0), Low(c.c1 * INVERSE1);
    Counter(c0, Xor32(Xor32(c.c0, k.k0), HighProduct(M1, c2)), c2, Xor32(Xor32(c.c2, k.k1), HighProduct(M0, c0)))
  }

  function RoundsBack(c: Counter, k: Key, n: nat): Counter
    decreases n
  {
    if n == 0 then c else RoundsBack(RoundBack(c, RoundKey(k, n - 1)), k, n - 1)
  }

  lemma OddInverse(m: u32, inverse: u32, x: u32)
    requires (m * inverse) % TWO_32 == 1
    ensures Low(Low(m * x) * inverse) == x
  {
    var q, j := (m * x) / TWO_32, (m * inverse) / TWO_32;
    assert Low(m * x) == m * x - TWO_32 * q;
    assert m * inverse == 1 + TWO_32 * j;
    InverseProduct(m, inverse, x, q, j, TWO_32);
    DivModUnique(Low(m * x) * inverse, TWO_32, x * j - q * inverse, x);
  }

  lemma InverseProduct(m: int, inverse: int, x: int, q: int, j: int, p: int)
    requires m * inverse == 1 + p * j
    ensures (m * x - p * q) * inverse == (x * j - q * inverse) * p + x
  {
    calc {
      (m * x - p * q) * inverse;
      (m * inverse) * x - (p * q) * inverse;
      (1 + p * j) * x - (p * q) * inverse;
    }
  }

  /** A mixed word gives back the word that was mixed in. */
  lemma UnmixWord(high: u32, c: u32, k: u32)
    ensures Xor32(Xor32(Xor32(Xor32(high, c), k), k), high) == c
  {
    XorCancels32(Xor32(high, c), k);
    XorCommutes(high, c, 32);
    XorCancels32(c, high);
  }

  lemma MixWord(high: u32, r: u32, k: u32)
    ensures Xor32(Xor32(high, Xor32(Xor32(r, k), high)), k) == r
  {
    XorCommutes(high, Xor32(Xor32(r, k), high), 32);
    XorCancels32(Xor32(r, k), high);
    XorCancels32(r, k);
  }

  lemma InverseConstants()
    ensures (M0 * INVERSE0) % TWO_32 == 1 && (M1 * INVERSE1) % TWO_32 == 1
    ensures (INVERSE0 * M0) % TWO_32 == 1 && (INVERSE1 * M1) % TWO_32 == 1
  {
  }

  lemma RoundUndone(c: Counter, k: Key)
    ensures RoundBack(Round(c, k), k) == c
  {
    hide Xor32;
    InverseConstants();
    OddInverse(M0, INVERSE0, c.c0);
    OddInverse(M1, INVERSE1, c.c2);
    UnmixWord(HighProduct(M1, c.c2), c.c1, k.k0);
    UnmixWord(HighProduct(M0, c.c0), c.c3, k.k1);
  }

  lemma RoundRedone(c: Counter, k: Key)
    ensures Round(RoundBack(c, k), k) == c
  {
    hide Xor32;
    InverseConstants();
    OddInverse(INVERSE0, M0, c.c3);
    OddInverse(INVERSE1, M1, c.c1);
    var b := RoundBack(c, k);
    MixWord(HighProduct(M1, b.c2), c.c0, k.k0);
    MixWord(HighProduct(M0, b.c0), c.c2, k.k1);
    Swap(M0, b.c0);
    Swap(M1, b.c2);
  }

  lemma Swap(a: int, b: int)
    ensures a * b == b * a
  {
  }

  /** Any number of rounds is a bijection on counters, for every key. */
  lemma {:induction false} RoundsBijective(c: Counter, k: Key, n: nat)
    ensures RoundsBack(Rounds(c, k, n), k, n) == c
    ensures Rounds(RoundsBack(c, k, n), k, n) == c
    decreases n
  {
    hide Round, RoundBack, RoundKey;
    if n != 0 {
      RoundUndone(Rounds(c, k, n - 1), RoundKey(k, n - 1));
      RoundsBijective(c, k, n - 1);
      var b := RoundBack(c, RoundKey(k, n - 1));
      RoundsBijective(b, k, n - 1);
      RoundRedone(c, RoundKey(k, n - 1));
    }
  }

  lemma BlockInjective(c: Counter, d: Counter, k: Key)
    ensures Block(c, k) == Block(d, k) ==> c == d
  {
    RoundsInjective(c, d, k, ROUNDS);
  }

  lemma RoundsInjective(c: Counter, d: Counter, k: Key, n: nat)
    ensures Rounds(c, k, n) == Rounds(d, k, n) ==> c == d
  {
    RoundsBijective(c, k, n);
    RoundsBijective(d, k, n);
  }

  /** The direct key of round `r`, `k + r·W`, is the key after `r` bumps. */
  function DirectWord(k: u32, r: nat, w: nat): u32 { Low(k + Low(r * w)) }

  lemma {:induction false} KeySchedule(k: Key, r: nat)
    ensures RoundKey(k, r) == Key(DirectWord(k.k0, r, W0), DirectWord(k.k1, r, W1))
  {
    hide Low, DirectWord;
    if r == 0 {
      DirectStart(k.k0, W0);
      DirectStart(k.k1, W1);
    } else {
      KeySchedule(k, r - 1);
      BumpOnce(k.k0, r - 1, W0);
      BumpOnce(k.k1, r - 1, W1);
    }
  }

  lemma DirectStart(k: u32, w: nat)
    ensures DirectWord(k, 0, w) == k
  {
    assert 0 * w == 0;
  }

  lemma BumpOnce(k: u32, r: nat, w: nat)
    ensures Low(DirectWord(k, r, w) + w) == DirectWord(k, r + 1, w)
  {
    hide Low;
    NextMultiple(r, w);
    BumpSum(k, r * w, w);
  }

  lemma NextMultiple(r: nat, w: nat)
    ensures (r + 1) * w == r * w + w
  {
  }

  lemma BumpSum(k: nat, p: nat, w: nat)
    ensures Low(Low(k + Low(p)) + w) == Low(k + Low(p + w))
  {
    hide Low;
    LowOfSum(k, p);
    LowOfSum(w, k + p);
    LowOfSum(k, p + w);
    assert w + (k + p) == k + (p + w);
  }

  lemma LowOfSum(a: nat, b: nat)
    ensures Low(a + Low(b)) == Low(a + b)
  {
  }

  // ---------- streams ----------

  /** One random stream per seed, tensor and invocation. */
  datatype Stream = Stream(seed: u64, tensor: u32, invocation: u32)

  function StreamKey(s: Stream): Key { Key(Low(s.seed), High(s.seed)) }

  function StreamCounter(s: Stream, group: u64): Counter
  {
    Counter(Low(group), High(group), s.tensor, s.invocation)
  }

  function GroupBlock(s: Stream, group: u64): Counter { Block(StreamCounter(s, group), StreamKey(s)) }

  const TWO_96 := 0x1_0000_0000_0000_0000_0000_0000

  /** A counter as one 128-bit number, least significant word first. */
  function CounterNumber(c: Counter): nat { c.c0 + TWO_32 * c.c1 + TWO_64 * c.c2 + TWO_96 * c.c3 }

  function KeyNumber(k: Key): nat { k.k0 + TWO_32 * k.k1 }

  /**
   The block of a group is the block of the 128-bit number that holds group, tensor
   and invocation, keyed by the seed.
   */
  lemma BlockOfNumber(s: Stream, group: u64, c: Counter, k: Key)
    requires CounterNumber(c) == group + TWO_64 * s.tensor + TWO_96 * s.invocation && KeyNumber(k) == s.seed
    ensures GroupBlock(s, group) == Block(c, k)
  {
    hide Block;
    DivModUnique(s.seed, TWO_32, k.k1, k.k0);
    DivModUnique(CounterNumber(c), TWO_96, c.c3, c.c0 + TWO_32 * c.c1 + TWO_64 * c.c2);
    DivModUnique(CounterNumber(c), TWO_96, s.invocation, group + TWO_64 * s.tensor);
    DivModUnique(group + TWO_64 * s.tensor, TWO_64, c.c2, c.c0 + TWO_32 * c.c1);
    DivModUnique(group + TWO_64 * s.tensor, TWO_64, s.tensor, group);
    DivModUnique(group, TWO_32, c.c1, c.c0);
  }

  /** The caller's stream record; identifiers arrive as 64-bit values. */
  class StreamCell {
    var stream: Stream

    constructor ()
      ensures stream == Stream(0, 0, 0)
    {
      stream := Stream(0, 0, 0);
    }

    /** Identifiers that do not fit a counter word are rejected and nothing is stored. */
    method Init(seed: u64, tensor: u64, invocation: u64) returns (status: Status)
      modifies this
      ensures status == if tensor < TWO_32 && invocation < TWO_32 then Ok else ErrIdOverflow
      ensures stream == if status == Ok then Stream(seed, tensor, invocation) else old(stream)
    {
      if tensor > 0xFFFF_FFFF || invocation > 0xFFFF_FFFF {
        return ErrIdOverflow;
      }
      stream := Stream(seed, tensor, invocation);
      status := Ok;
    }
  }

  /** Within one seed, different (group, tensor, invocation) triples give different four-word blocks. */
  lemma StreamsNeverAlias(s: Stream, g: u64, t: Stream, h: u64)
    requires s.seed == t.seed
    ensures GroupBlock(s, g) == GroupBlock(t, h) ==> s == t && g == h
  {
    BlockInjective(StreamCounter(s, g), StreamCounter(t, h), StreamKey(s));
    hide Block;
    assert g == TWO_32 * High(g) + Low(g) && h == TWO_32 * High(h) + Low(h);
  }
}
