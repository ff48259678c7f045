/**
 Fixed-order summation trees over an arbitrary carrier and an arbitrary binary
 operator. Nothing is assumed about the operator, so equal trees mean that the
 same operands meet at every node in the same order.
 */
module PairwiseTree {
  import opened Words

  /** One level of the reference tree: each even slot plus the odd slot after it. */
  function PairLevel<T>(work: seq<T>, add: (T, T) -> T): (r: seq<T>)
    ensures |r| == |work| / 2
  {
    if |work| < 2 then []
    else
      var n := |work| / 2 - 1;
      PairLevel(work[..2 * n], add) + [add(work[2 * n], work[2 * n + 1])]
  }

  lemma {:induction false} PairLevelAt<T>(work: seq<T>, i: nat, add: (T, T) -> T)
    requires i < |work| / 2
    ensures PairLevel(work, add)[i] == add(work[2 * i], work[2 * i + 1])
  {
    var n := |work| / 2 - 1;
    if i < n {
      PairLevelAt(work[..2 * n], i, add);
    }
  }

  /** A list with the right pair at every index is the next level. */
  lemma PairLevelIs<T>(work: seq<T>, r: seq<T>, add: (T, T) -> T)
    requires |r| == |work| / 2
    requires forall i :: 0 <= i < |r| ==> r[i] == add(work[2 * i], work[2 * i + 1])
    ensures r == PairLevel(work, add)
  {
    forall i | 0 <= i < |r|
      ensures r[i] == PairLevel(work, add)[i]
    {
      PairLevelAt(work, i, add);
    }
  }

  /** The root of the adjacent-pair tree: halve the list until one value is left. */
  function Root<T>(s: seq<T>, add: (T, T) -> T): T
    requires |s| > 0
    decreases |s|
  {
    if |s| == 1 then s[0] else Root(PairLevel(s, add), add)
  }

  lemma {:induction false} PairLevelSplits<T>(a: seq<T>, b: seq<T>, add: (T, T) -> T)
    requires |a| % 2 == 0 && |b| % 2 == 0
    ensures PairLevel(a + b, add) == PairLevel(a, add) + PairLevel(b, add)
  {
    var r := PairLevel(a, add) + PairLevel(b, add);
    forall i | 0 <= i < |r|
      ensures r[i] == add((a + b)[2 * i], (a + b)[2 * i + 1])
    {
      if i < |a| / 2 {
        PairLevelAt(a, i, add);
      } else {
        PairLevelAt(b, i - |a| / 2, add);
      }
    }
    PairLevelIs(a + b, r, add);
  }

  /** Over a power of two, the root joins the roots of the two halves: the tree is balanced. */
  lemma {:induction false} RootSplits<T>(a: seq<T>, b: seq<T>, d: nat, add: (T, T) -> T)
    requires |a| == |b| == Pow2(d)
    ensures Root(a + b, add) == add(Root(a, add), Root(b, add))
    decreases d
  {
    if d == 0 {
      PairLevelIs(a + b, [add(a[0], b[0])], add);
    } else {
      PairLevelSplits(a, b, add);
      RootSplits(PairLevel(a, add), PairLevel(b, add), d - 1, add);
    }
  }

  /** The first slots of the array hold `live`. */
  ghost predicate Holds<T>(terms: array<T>, live: seq<T>)
    reads terms
  {
    |live| <= terms.Length && terms[..|live|] == live
  }

  /** One level in place: a slot is overwritten only after both of its readers. */
  method AddPairs<T>(terms: array<T>, ghost live: seq<T>, stride: nat, add: (T, T) -> T)
    requires 2 * stride == |live| && Holds(terms, live)
    modifies terms
    ensures Holds(terms, PairLevel(live, add))
    ensures forall j :: stride <= j < terms.Length ==> terms[j] == old(terms[j])
  {
    for i := 0 to stride
      invariant forall j :: 0 <= j < i ==> terms[j] == add(live[2 * j], live[2 * j + 1])
      invariant forall j :: i <= j < terms.Length ==> terms[j] == old(terms[j])
    {
      assert terms[2 * i] == live[2 * i] && terms[2 * i + 1] == live[2 * i + 1];
      terms[i] := add(terms[2 * i], terms[2 * i + 1]);
    }
    PairLevelIs(live, terms[..stride], add);
  }

  /** Adjacent-pair reduction in place, over the first `n` slots. */
  method AdjacentTree<T>(terms: array<T>, ghost leaves: seq<T>, ghost d: nat, n: nat, add: (T, T) -> T)
    requires n == Pow2(d) == |leaves| && Holds(terms, leaves)
    modifies terms
    ensures terms[0] == Root(leaves, add)
    ensures forall j :: n <= j < terms.Length ==> terms[j] == old(terms[j])
  {
    hide Root;
    ghost var level, m := leaves, d;
    var stride := n / 2;
    while stride != 0
      invariant |level| == Pow2(m) <= n && Root(level, add) == Root(leaves, add)
      invariant stride == |level| / 2
      invariant Holds(terms, level)
      invariant forall j :: n <= j < terms.Length ==> terms[j] == old(terms[j])
      decreases stride
    {
      MoreLevels(m);
      RootStep(level, add);
      AddPairs(terms, level, stride, add);
      level, m := PairLevel(level, add), m - 1;
      stride := stride / 2;
    }
    LastLevel(level, m, add);
  }

  lemma LastLevel<T>(level: seq<T>, m: nat, add: (T, T) -> T)
    requires |level| == Pow2(m) < 2
    ensures m == 0 && Reversed(level, m) == level && Root(level, add) == level[0]
  {
    assert m == 0;
    assert Reversed(level, 0) == level;
  }

  lemma RootStep<T>(level: seq<T>, add: (T, T) -> T)
    requires |level| > 1
    ensures Root(PairLevel(level, add), add) == Root(level, add)
  {
  }

  lemma MoreLevels(m: nat)
    requires Pow2(m) > 1
    ensures m > 0 && Pow2(m) == 2 * Pow2(m - 1)
  {
  }

  /** `x` shifted right by `i` bits. */
  function Shr(x: nat, i: nat): nat
  {
    if i == 0 then x else Shr(x, i - 1) / 2
  }

  /** The low `bits` bits of `x` in reverse order. */
  function Rev(x: nat, bits: nat): (r: nat)
    ensures r < Pow2(bits)
  {
    if bits == 0 then 0 else 2 * Rev(x, bits - 1) + Shr(x, bits - 1) % 2
  }

  method ReverseBits(x: nat, bits: nat) returns (r: nat)
    ensures r == Rev(x, bits)
  {
    r := 0;
    var rest := x;
    for i := 0 to bits
      invariant r == Rev(x, i)
      invariant rest == Shr(x, i)
    {
      r := 2 * r + rest % 2;
      rest := rest / 2;
    }
  }

  lemma {:induction false} ShrBelow(x: nat, i: nat, m: nat)
    requires i <= m && x < Pow2(m)
    ensures Shr(x, i) < Pow2(m - i)
    decreases i
  {
    if i != 0 {
      ShrBelow(x, i - 1, m);
    }
  }

  lemma {:induction false} ShrOfHigh(x: nat, i: nat, m: nat)
    requires i <= m
    ensures Shr(x + Pow2(m), i) == Shr(x, i) + Pow2(m - i)
    decreases i
  {
    if i != 0 {
      ShrOfHigh(x, i - 1, m);
    }
  }

  /** Bits above the reversed ones do not matter. */
  lemma {:induction false} RevIgnoresHigh(x: nat, high: nat, bits: nat)
    requires bits <= high
    ensures Rev(x + Pow2(high), bits) == Rev(x, bits)
    decreases bits
  {
    if bits != 0 {
      RevIgnoresHigh(x, high, bits - 1);
      ShrOfHigh(x, bits - 1, high);
      assert Pow2(high - (bits - 1)) == 2 * Pow2(high - bits);
    }
  }

  lemma RevStep(x: nat, b: nat)
    ensures Rev(x, b + 1) == 2 * Rev(x, b) + Shr(x, b) % 2
  {
  }

  /** Slot `j` and slot `j + half` hold an even leaf and the odd leaf after it. */
  lemma RevOfHalves(j: nat, bits: nat)
    requires bits > 0 && j < Pow2(bits - 1)
    ensures Rev(j, bits) == 2 * Rev(j, bits - 1)
    ensures Rev(j + Pow2(bits - 1), bits) == 2 * Rev(j, bits - 1) + 1
  {
    var b := bits - 1;
    assert Shr(j, b) == 0 by { ShrBelow(j, b, b); }
    assert Shr(j + Pow2(b), b) == 1 by { ShrBelow(j, b, b); ShrOfHigh(j, b, b); }
    RevIgnoresHigh(j, b, b);
    RevStep(j, b);
    RevStep(j + Pow2(b), b);
  }

  lemma {:induction false} ShrOfDouble(y: nat, t: nat, i: nat)
    requires t < 2
    ensures Shr(2 * y + t, i + 1) == Shr(y, i)
  {
    if i != 0 {
      ShrOfDouble(y, t, i - 1);
    } else {
      assert Shr(2 * y + t, 1) == Shr(2 * y + t, 0) / 2;
    }
  }

  lemma {:induction false} RevOfDouble(y: nat, t: nat, bits: nat)
    requires t < 2
    ensures Rev(2 * y + t, bits + 1) == t * Pow2(bits) + Rev(y, bits)
    decreases bits
  {
    if bits == 0 {
      assert Rev(2 * y + t, 1) == 2 * Rev(2 * y + t, 0) + Shr(2 * y + t, 0) % 2;
    } else {
      RevOfDouble(y, t, bits - 1);
      ShrOfDouble(y, t, bits - 1);
    }
  }

  /** Bit reversal undoes itself, so it permutes the slots. */
  lemma {:induction false} RevInvolution(x: nat, bits: nat)
    requires x < Pow2(bits)
    ensures Rev(Rev(x, bits), bits) == x
  {
    if bits != 0 {
      var p := Pow2(bits - 1);
      var top := if x < p then 0 else 1;
      var low := if x < p then x else x - p;
      RevInvolution(low, bits - 1);
      RevOfHalves(low, bits);
      RevOfDouble(Rev(low, bits - 1), top, bits - 1);
      hide Rev;
      assert Rev(x, bits) == 2 * Rev(low, bits - 1) + top;
    }
  }

  /** The leaves in bit-reversed storage order. */
  function Reversed<T>(s: seq<T>, d: nat): (r: seq<T>)
    requires |s| == Pow2(d)
    ensures |r| == |s|
  {
    seq(|s|, j requires 0 <= j < |s| => s[Rev(j, d)])
  }

  method AddHalves<T>(terms: array<T>, ghost live: seq<T>, half: nat, add: (T, T) -> T)
    requires 2 * half == |live| && Holds(terms, live)
    modifies terms
    ensures Holds(terms, Halved(live, add))
    ensures forall j :: half <= j < terms.Length ==> terms[j] == old(terms[j])
  {
    for j := 0 to half
      invariant forall i :: 0 <= i < j ==> terms[i] == add(live[i], live[i + half])
      invariant forall i :: j <= i < terms.Length ==> terms[i] == old(terms[i])
    {
      assert terms[j] == live[j] && terms[j + half] == live[j + half];
      terms[j] := add(terms[j], terms[j + half]);
    }
    assert terms[..half] == Halved(live, add);
  }

  /**
   Adding halves of bit-reversed storage computes the adjacent-pair tree: after
   every level the live slots are that level of the tree, itself bit-reversed.
   */
  method HalvesTree<T>(terms: array<T>, ghost leaves: seq<T>, ghost d: nat, n: nat, add: (T, T) -> T)
    requires n == Pow2(d) == |leaves| && Holds(terms, Reversed(leaves, d))
    modifies terms
    ensures terms[0] == Root(leaves, add)
    ensures forall j :: n <= j < terms.Length ==> terms[j] == old(terms[j])
  {
    hide Root, PairLevel, Halved, Reversed, Pow2;
    ghost var level, m := leaves, d;
    var half := n / 2;
    while half != 0
      invariant 0 < |level| == Pow2(m) <= n && Root(level, add) == Root(leaves, add)
      invariant half == |level| / 2
      invariant Holds(terms, Reversed(level, m))
      invariant forall j :: n <= j < terms.Length ==> terms[j] == old(terms[j])
      decreases half
    {
      NextHalves(level, m, add);
      AddHalves(terms, Reversed(level, m), half, add);
      level, m := PairLevel(level, add), m - 1;
      half := half / 2;
    }
    LastLevel(level, m, add);
  }

  lemma NextHalves<T>(level: seq<T>, m: nat, add: (T, T) -> T)
    requires |level| == Pow2(m) && |level| / 2 != 0
    ensures m > 0 && |level| == 2 * (|level| / 2) && |PairLevel(level, add)| == |level| / 2 == Pow2(m - 1)
    ensures Root(PairLevel(level, add), add) == Root(level, add)
    ensures Halved(Reversed(level, m), add) == Reversed(PairLevel(level, add), m - 1)
  {
    hide Root, PairLevel, Halved, Reversed;
    MoreLevels(m);
    RootStep(level, add);
    HalvesStep(level, m, add);
  }

  function Halved<T>(work: seq<T>, add: (T, T) -> T): (r: seq<T>)
    ensures |r| == |work| / 2
  {
    seq(|work| / 2, j requires 0 <= j < |work| / 2 => add(work[j], work[j + |work| / 2]))
  }

  lemma HalvesStep<T>(level: seq<T>, m: nat, add: (T, T) -> T)
    requires m > 0 && |level| == Pow2(m)
    ensures Halved(Reversed(level, m), add) == Reversed(PairLevel(level, add), m - 1)
  {
    var lhs, rhs := Halved(Reversed(level, m), add), Reversed(PairLevel(level, add), m - 1);
    assert |lhs| == |rhs|;
    forall j | 0 <= j < |lhs|
      ensures lhs[j] == rhs[j]
    {
      HalvesMeet(level, m, j, add);
    }
  }

  /** The two halves of reversed storage meet exactly where adjacent slots of plain storage do. */
  lemma HalvesMeet<T>(level: seq<T>, m: nat, j: nat, add: (T, T) -> T)
    requires m > 0 && |level| == Pow2(m) && j < |level| / 2
    ensures PairLevel(level, add)[Rev(j, m - 1)] == add(level[Rev(j, m)], level[Rev(j + |level| / 2, m)])
  {
    var half, r := Pow2(m - 1), Rev(j, m - 1);
    assert |level| / 2 == half;
    RevOfHalves(j, m);
    PairLevelAt(level, r, add);
  }

  function BitLength(n: nat): nat
  {
    if n == 0 then 0 else 1 + BitLength(n / 2)
  }

  lemma {:induction false} BitLengthBounds(n: nat)
    ensures n < Pow2(BitLength(n))
    ensures n > 0 ==> BitLength(n) > 0 && Pow2(BitLength(n) - 1) <= n
  {
    if n > 1 {
      BitLengthBounds(n / 2);
    }
  }

  /** The levels over `count` values; an empty list gets two zero leaves, as the bit length of -1 is 1. */
  function OracleDepth(count: nat): nat { if count == 0 then 1 else BitLength(count - 1) }

  /** The least power of two that holds a non-empty list. */
  lemma OracleDepthLeast(count: nat)
    ensures count <= Pow2(OracleDepth(count))
    ensures count > 1 ==> OracleDepth(count) > 0 && Pow2(OracleDepth(count) - 1) < count
  {
    if count > 0 {
      BitLengthBounds(count - 1);
    }
  }

  function ZeroPadded<T>(values: seq<T>, n: nat, zero: T): (r: seq<T>)
    requires |values| <= n
    ensures |r| == n && forall i :: 0 <= i < n ==> r[i] == if i < |values| then values[i] else zero
  {
    seq(n, i requires 0 <= i < n => if i < |values| then values[i] else zero)
  }

  /** The oracle zero-pads to a power of two, then shrinks the work list level by level until one value is left. */
  method OracleSum<T>(values: seq<T>, zero: T, add: (T, T) -> T) returns (total: T)
    ensures |values| <= Pow2(OracleDepth(|values|))
    ensures total == Root(ZeroPadded(values, Pow2(OracleDepth(|values|)), zero), add)
  {
    OracleDepthLeast(|values|);
    var work := ZeroPadded(values, Pow2(OracleDepth(|values|)), zero);
    ghost var leaves := work;
    while |work| > 1
      invariant |work| > 0 && Root(work, add) == Root(leaves, add)
      decreases |work|
    {
      work := PairLevel(work, add);
    }
    total := work[0];
  }
}
