/** Trial orders: Williams balanced rows and all permutations, with the balance that each design promises. */
module Design {
  import opened Words
  import opened Counting

  type Row = seq<nat>

  // ---------- balance ----------

  /** Position `k` of a row holds `x`. */
  ghost function At(k: nat, x: nat): Row -> bool { (row: Row) => k < |row| && row[k] == x }

  /** `b` comes right after `a`, which is at position `k`. */
  ghost function Follows(k: nat, a: nat, b: nat): Row -> bool
  {
    (row: Row) => k + 1 < |row| && row[k] == a && row[k + 1] == b
  }

  ghost function FollowCount(rows: seq<Row>, a: nat, b: nat): nat -> nat { (k: nat) => Count(rows, Follows(k, a, b)) }

  /** How often `b` runs right after `a`, over all rows and positions. */
  ghost function Adjacencies(rows: seq<Row>, a: nat, b: nat, n: nat): nat
    requires n > 0
  {
    Sum(FollowCount(rows, a, b), n - 1)
  }

  /** Every path of `0..n` occurs in the row exactly once. */
  ghost predicate Permutes(row: Row, n: nat)
  {
    && |row| == n && (forall k :: 0 <= k < n ==> row[k] < n)
    && (forall x: nat :: x < n ==> x in row)
    && (forall j, k :: 0 <= j < k < n ==> row[j] != row[k])
  }

  /** Permutations in which every path holds every position `p` times and follows every other path `c` times. */
  ghost predicate Balanced(rows: seq<Row>, n: nat, p: nat, c: nat)
    requires n > 0
  {
    && (forall r :: 0 <= r < |rows| ==> Permutes(rows[r], n))
    && (forall k: nat, x: nat :: k < n && x < n ==> Count(rows, At(k, x)) == p)
    && (forall a: nat, b: nat :: a < n && b < n && a != b ==> Adjacencies(rows, a, b, n) == c)
  }

  // ---------- Williams rows ----------

  /** Entry `k` of the first row: 0, 1, n-1, 2, n-2, ... */
  function First(n: nat, k: nat): (x: nat)
    requires k < n
    ensures x < n
  {
    if k == 0 then 0 else if k % 2 == 1 then (k + 1) / 2 else n - k / 2
  }

  /** Where the first row has `x`. */
  function Place(n: nat, x: nat): (k: nat)
    requires x < n
    ensures k < n && First(n, k) == x
  {
    if x == 0 then 0 else if 2 * x <= n then 2 * x - 1 else 2 * (n - x)
  }

  lemma PlaceOfFirst(n: nat, k: nat)
    requires k < n
    ensures Place(n, First(n, k)) == k
  {
  }

  function Rotated(n: nat, i: nat): (row: Row)
    requires i < n
    ensures |row| == n && forall k :: 0 <= k < n ==> row[k] == (First(n, k) + i) % n < n
  {
    seq(n, k requires 0 <= k < n => (First(n, k) + i) % n)
  }

  function Reverse(row: Row): (r: Row)
    ensures |r| == |row| && forall k :: 0 <= k < |r| ==> r[k] == row[|row| - 1 - k]
  {
    seq(|row|, k requires 0 <= k < |row| => row[|row| - 1 - k])
  }

  function Rotations(n: nat): (rows: seq<Row>)
    ensures |rows| == n && forall i :: 0 <= i < n ==> rows[i] == Rotated(n, i)
  {
    seq(n, i requires 0 <= i < n => Rotated(n, i))
  }

  function Reversals(n: nat): (rows: seq<Row>)
    ensures |rows| == n && forall i :: 0 <= i < n ==> rows[i] == Reverse(Rotated(n, i))
  {
    seq(n, i requires 0 <= i < n => Reverse(Rotated(n, i)))
  }

  function Williams(n: nat): seq<Row>
  {
    if n % 2 == 1 then Rotations(n) + Reversals(n) else Rotations(n)
  }

  /** The first row: the low end and the high end in turn, until it is full. */
  method FirstRow(n: nat) returns (first: seq<int>)
    ensures n > 0 ==> |first| == n && forall k :: 0 <= k < n ==> first[k] == First(n, k)
  {
    first := [0];
    var low, high := 1, n - 1;
    while |first| < n
      invariant n > 0 ==> 1 <= |first| <= n
      invariant n > 0 ==> forall k :: 0 <= k < |first| ==> first[k] == First(n, k)
      invariant |first| < n ==> |first| % 2 == 1 && low == (|first| + 1) / 2 && high == n - (|first| + 1) / 2
      decreases n - |first|
    {
      first := first + [low];
      low := low + 1;
      if |first| < n {
        first := first + [high];
        high := high - 1;
      }
    }
  }

  method RotateRow(n: nat, first: seq<int>, i: nat) returns (row: Row)
    requires i < n == |first| && forall k :: 0 <= k < n ==> first[k] == First(n, k)
    ensures row == Rotated(n, i)
  {
    row := [];
    for k := 0 to n
      invariant |row| == k && forall j :: 0 <= j < k ==> row[j] == Rotated(n, i)[j]
    {
      row := row + [(first[k] + i) % n];
    }
  }

  /** The rows: rotations of the first row, and for an odd number of paths their reversals too. */
  method WilliamsRows(n: nat) returns (rows: seq<Row>)
    ensures rows == Williams(n)
  {
    var first := FirstRow(n);
    rows := [];
    for i := 0 to n
      invariant |rows| == i && forall j :: 0 <= j < i ==> rows[j] == Rotated(n, j)
    {
      var row := RotateRow(n, first, i);
      rows := rows + [row];
    }
    if n % 2 == 1 {
      var reversed: seq<Row> := [];
      for i := 0 to n
        invariant |reversed| == i && forall j :: 0 <= j < i ==> reversed[j] == Reverse(Rotated(n, j))
      {
        reversed := reversed + [Reverse(rows[i])];
      }
      rows := rows + reversed;
    }
  }

  // ---------- why they balance ----------

  /** The rotation that brings `f` to `x`. */
  function Turn(n: nat, f: nat, x: nat): (i: nat)
    requires f < n && x < n
    ensures i < n && (f + i) % n == x
  {
    if x >= f then x - f else
      DivModUnique(x + n, n, 1, x);
      x + n - f
  }

  lemma TurnUnique(n: nat, f: nat, x: nat, i: nat)
    requires f < n && x < n && i < n
    ensures (f + i) % n == x <==> i == Turn(n, f, x)
  {
    if f + i >= n {
      DivModUnique(f + i, n, 1, f + i - n);
    }
  }

  lemma RotatedPermutes(n: nat, i: nat)
    requires i < n
    ensures Permutes(Rotated(n, i), n)
  {
    var row := Rotated(n, i);
    forall x: nat | x < n
      ensures x in row
    {
      var f := Turn(n, i, x);
      assert row[Place(n, f)] == (f + i) % n;
      assert f + i == i + f;
    }
    forall j, k | 0 <= j < k < n
      ensures row[j] != row[k]
    {
      TurnUnique(n, i, row[j], First(n, j));
      TurnUnique(n, i, row[j], First(n, k));
      PlaceOfFirst(n, j);
      PlaceOfFirst(n, k);
      assert First(n, j) + i == i + First(n, j) && First(n, k) + i == i + First(n, k);
    }
  }

  lemma ReversePermutes(row: Row, n: nat)
    requires Permutes(row, n)
    ensures Permutes(Reverse(row), n)
  {
    forall x: nat | x < n
      ensures x in Reverse(row)
    {
      assert x in row;
      var k :| 0 <= k < |row| && row[k] == x;
      assert Reverse(row)[n - 1 - k] == x;
    }
  }

  /** Every position of the rotations sees every path once. */
  lemma RotationPositions(n: nat, k: nat, x: nat)
    requires k < n && x < n
    ensures Count(Rotations(n), At(k, x)) == 1
  {
    forall i | 0 <= i < n
      ensures At(k, x)(Rotations(n)[i]) <==> i == Turn(n, First(n, k), x)
    {
      TurnUnique(n, First(n, k), x, i);
    }
    CountOne(Rotations(n), At(k, x), Turn(n, First(n, k), x));
  }

  lemma ReversalPositions(n: nat, k: nat, x: nat)
    requires k < n && x < n
    ensures Count(Reversals(n), At(k, x)) == 1
  {
    hide Count, Rotated;
    RotationPositions(n, n - 1 - k, x);
    CountSame(Reversals(n), At(k, x), Rotations(n), At(n - 1 - k, x));
  }

  /** The step from entry `k` of the first row to the next one, modulo `n`: 1, n-2, 3, n-4, ... */
  function Step(n: nat, k: nat): (d: nat)
    requires k + 1 < n
    ensures 0 < d < n
  {
    if k % 2 == 0 then k + 1 else n - (k + 1)
  }

  lemma StepIs(n: nat, k: nat)
    requires k + 1 < n
    ensures Turn(n, First(n, k), First(n, k + 1)) == Step(n, k)
  {
  }

  /** From `a` to `b` around the circle. */
  lemma FollowsRotated(n: nat, i: nat, k: nat, a: nat, b: nat)
    requires i < n && k + 1 < n && a < n && b < n
    ensures Follows(k, a, b)(Rotated(n, i)) <==> i == Turn(n, First(n, k), a) && Step(n, k) == Turn(n, a, b)
  {
    TurnUnique(n, First(n, k), a, i);
    TurnUnique(n, First(n, k + 1), b, i);
    StepIs(n, k);
    hide First;
    TurnsMatch(n, First(n, k), First(n, k + 1), a, b);
    hide Turn, Step;
  }

  /** Two turns agree exactly when their targets are as far apart as their sources. */
  lemma TurnsMatch(n: nat, f: nat, g: nat, a: nat, b: nat)
    requires f < n && g < n && a < n && b < n
    ensures Turn(n, f, a) == Turn(n, g, b) <==> Turn(n, f, g) == Turn(n, a, b)
  {
  }

  /** One rotation puts `b` after `a` at position `k`, when the first row's step there is the step from `a` to `b`. */
  lemma RotationFollows(n: nat, k: nat, a: nat, b: nat)
    requires k + 1 < n && a < n && b < n
    ensures Count(Rotations(n), Follows(k, a, b)) == if Step(n, k) == Turn(n, a, b) then 1 else 0
  {
    forall i | 0 <= i < n
      ensures Follows(k, a, b)(Rotations(n)[i]) <==> i == Turn(n, First(n, k), a) && Step(n, k) == Turn(n, a, b)
    {
      FollowsRotated(n, i, k, a, b);
    }
    if Step(n, k) == Turn(n, a, b) {
      CountOne(Rotations(n), Follows(k, a, b), Turn(n, First(n, k), a));
    } else {
      CountNone(Rotations(n), Follows(k, a, b));
    }
  }

  lemma ReversalFollows(n: nat, k: nat, a: nat, b: nat)
    requires k + 1 < n && a < n && b < n
    ensures Count(Reversals(n), Follows(k, a, b)) == if Step(n, n - 2 - k) == Turn(n, b, a) then 1 else 0
  {
    hide Count, Rotated;
    RotationFollows(n, n - 2 - k, b, a);
    CountSame(Reversals(n), Follows(k, a, b), Rotations(n), Follows(n - 2 - k, b, a));
  }

  /** For even `n` every step occurs once in the first row. */
  function StepPlace(n: nat, d: nat): (k: nat)
    requires 0 < d < n && n % 2 == 0
    ensures k + 1 < n && Step(n, k) == d
  {
    if d % 2 == 1 then d - 1 else n - d - 1
  }

  lemma EvenSteps(n: nat, k: nat, d: nat)
    requires n % 2 == 0 && k + 1 < n && 0 < d < n
    ensures Step(n, k) == d <==> k == StepPlace(n, d)
  {
  }

  /** Going there and back makes a full circle. */
  lemma TurnAround(n: nat, a: nat, b: nat)
    requires a < n && b < n && a != b
    ensures 0 < Turn(n, a, b) < n && Turn(n, b, a) == n - Turn(n, a, b)
  {
  }

  lemma EvenAdjacencies(n: nat, a: nat, b: nat)
    requires n % 2 == 0 && a < n && b < n && a != b
    ensures Adjacencies(Rotations(n), a, b, n) == 1
  {
    hide Count, Sum, Follows, Turn, Step;
    TurnAround(n, a, b);
    var d := Turn(n, a, b);
    forall k: nat | k < n - 1
      ensures FollowCount(Rotations(n), a, b)(k) == if k == StepPlace(n, d) then 1 else 0
    {
      RotationFollows(n, k, a, b);
      EvenSteps(n, k, d);
    }
    SumOne(FollowCount(Rotations(n), a, b), n - 1, StepPlace(n, d));
  }

  /** For odd `n` every odd step occurs twice in the first row, and no even step does. */
  lemma OddSteps(n: nat, k: nat, d: nat)
    requires n % 2 == 1 && k + 1 < n && 0 < d < n
    ensures Step(n, k) == d <==> d % 2 == 1 && (k == d - 1 || k == n - d - 1)
    ensures d - 1 != n - d - 1
  {
  }

  lemma OddSum(n: nat, d: nat, f: nat -> nat)
    requires n % 2 == 1 && 0 < d < n
    requires forall k: nat :: k < n - 1 ==> f(k) == if d % 2 == 1 && (k == d - 1 || k == n - d - 1) then 1 else 0
    ensures Sum(f, n - 1) == if d % 2 == 1 then 2 else 0
  {
    hide Sum;
    if d % 2 == 0 {
      SumZero(f, n - 1);
    } else if d - 1 < n - d - 1 {
      SumTwo(f, n - 1, d - 1, n - d - 1);
    } else {
      SumTwo(f, n - 1, n - d - 1, d - 1);
    }
  }

  lemma OddRotations(n: nat, a: nat, b: nat)
    requires n % 2 == 1 && a < n && b < n && a != b
    ensures Adjacencies(Rotations(n), a, b, n) == if Turn(n, a, b) % 2 == 1 then 2 else 0
  {
    hide Count, Sum, Follows, Turn, Step;
    TurnAround(n, a, b);
    var d, f := Turn(n, a, b), FollowCount(Rotations(n), a, b);
    forall k: nat | k < n - 1
      ensures f(k) == if d % 2 == 1 && (k == d - 1 || k == n - d - 1) then 1 else 0
    {
      RotationFollows(n, k, a, b);
      OddSteps(n, k, d);
    }
    OddSum(n, d, f);
  }

  lemma OddReversals(n: nat, a: nat, b: nat)
    requires n % 2 == 1 && a < n && b < n && a != b
    ensures Adjacencies(Reversals(n), a, b, n) == if Turn(n, a, b) % 2 == 0 then 2 else 0
  {
    hide Count, Sum, Follows, Turn, Step;
    TurnAround(n, a, b);
    var d, f := Turn(n, b, a), FollowCount(Reversals(n), a, b);
    forall k: nat | k < n - 1
      ensures f(k) == if d % 2 == 1 && (k == d - 1 || k == n - d - 1) then 1 else 0
    {
      ReversalFollows(n, k, a, b);
      OddSteps(n, n - 2 - k, d);
    }
    OddSum(n, d, f);
    assert d % 2 == 1 <==> (n - d) % 2 == 0 by {
      OtherParity(n, d);
    }
  }

  lemma OtherParity(n: nat, d: nat)
    requires n % 2 == 1 && d <= n
    ensures d % 2 == 1 <==> (n - d) % 2 == 0
  {
  }

  /** Counts over two lists together add up. */
  lemma AdjacenciesAppend(x: seq<Row>, y: seq<Row>, a: nat, b: nat, n: nat)
    requires n > 0
    ensures Adjacencies(x + y, a, b, n) == Adjacencies(x, a, b, n) + Adjacencies(y, a, b, n)
  {
    forall k: nat | k < n - 1
      ensures FollowCount(x + y, a, b)(k) == FollowCount(x, a, b)(k) + FollowCount(y, a, b)(k)
    {
      CountAppend(x, y, Follows(k, a, b));
    }
    SumPlus(FollowCount(x, a, b), FollowCount(y, a, b), FollowCount(x + y, a, b), n - 1);
  }

  function Copies(n: nat): nat { if n % 2 == 1 then 2 else 1 }

  /**
   The Williams rows are balanced: every path holds every position once and
   follows every other path once, or twice each when the number of paths is odd.
   */
  lemma WilliamsBalanced(n: nat)
    requires n > 0
    ensures |Williams(n)| == n * Copies(n) && Balanced(Williams(n), n, Copies(n), Copies(n))
  {
    hide Count, At, Adjacencies, Permutes, Rotations, Reversals;
    forall r | 0 <= r < |Williams(n)|
      ensures Permutes(Williams(n)[r], n)
    {
      WilliamsPermute(n, r);
    }
    forall k: nat, x: nat | k < n && x < n
      ensures Count(Williams(n), At(k, x)) == Copies(n)
    {
      WilliamsPositions(n, k, x);
    }
    forall a: nat, b: nat | a < n && b < n && a != b
      ensures Adjacencies(Williams(n), a, b, n) == Copies(n)
    {
      WilliamsAdjacencies(n, a, b);
    }
  }

  lemma WilliamsPermute(n: nat, r: nat)
    requires n > 0 && r < |Williams(n)|
    ensures Permutes(Williams(n)[r], n)
  {
    hide Rotated, Permutes;
    RotatedPermutes(n, if r < n then r else r - n);
    if r >= n {
      ReversePermutes(Rotated(n, r - n), n);
    }
  }

  lemma WilliamsPositions(n: nat, k: nat, x: nat)
    requires k < n && x < n
    ensures Count(Williams(n), At(k, x)) == Copies(n)
  {
    hide At, Count;
    RotationPositions(n, k, x);
    ReversalPositions(n, k, x);
    CountAppend(Rotations(n), Reversals(n), At(k, x));
  }

  lemma WilliamsAdjacencies(n: nat, a: nat, b: nat)
    requires a < n && b < n && a != b
    ensures Adjacencies(Williams(n), a, b, n) == Copies(n)
  {
    hide Adjacencies;
    if n % 2 == 0 {
      EvenAdjacencies(n, a, b);
    } else {
      OddRotations(n, a, b);
      OddReversals(n, a, b);
      AdjacenciesAppend(Rotations(n), Reversals(n), a, b, n);
    }
  }

  // ---------- whole multiples of a design ----------

  /** `trials` orders that cycle through the rows. */
  function Cycled(rows: seq<Row>, trials: nat): (orders: seq<Row>)
    requires |rows| > 0
    ensures |orders| == trials && forall t :: 0 <= t < trials ==> orders[t] == rows[t % |rows|]
  {
    seq(trials, t requires 0 <= t < trials => rows[t % |rows|])
  }

  lemma CycledMore(rows: seq<Row>, m: nat)
    requires |rows| > 0
    ensures Cycled(rows, m * |rows| + |rows|) == Cycled(rows, m * |rows|) + rows
  {
    var d := |rows|;
    forall t | 0 <= t < m * d + d
      ensures Cycled(rows, m * d + d)[t] == (Cycled(rows, m * d) + rows)[t]
    {
      if t >= m * d {
        DivModUnique(t, d, m, t - m * d);
      }
    }
  }

  lemma {:induction false} CycledCount(rows: seq<Row>, m: nat, hit: Row -> bool)
    requires |rows| > 0
    ensures Count(Cycled(rows, m * |rows|), hit) == m * Count(rows, hit)
    decreases m
  {
    if m == 0 {
      CountNone(Cycled(rows, 0), hit);
    } else {
      hide Count, Cycled;
      CycledCount(rows, m - 1, hit);
      CycledAgain(rows, m - 1, hit);
      Distribute(m - 1, 1, Count(rows, hit));
    }
  }

  lemma CycledAgain(rows: seq<Row>, m: nat, hit: Row -> bool)
    requires |rows| > 0
    ensures Count(Cycled(rows, (m + 1) * |rows|), hit) == Count(Cycled(rows, m * |rows|), hit) + Count(rows, hit)
  {
    hide Count, Cycled;
    Distribute(m, 1, |rows|);
    CycledMore(rows, m);
    CountAppend(Cycled(rows, m * |rows|), rows, hit);
  }

  lemma CycledPermutes(rows: seq<Row>, n: nat, trials: nat)
    requires |rows| > 0 && forall r :: 0 <= r < |rows| ==> Permutes(rows[r], n)
    ensures forall t :: 0 <= t < trials ==> Permutes(Cycled(rows, trials)[t], n)
  {
    hide Permutes;
  }

  /** Repeating a balanced design a whole number of times keeps the balance. */
  lemma CycledBalanced(rows: seq<Row>, n: nat, p: nat, c: nat, m: nat)
    requires n > 0 && |rows| > 0 && Balanced(rows, n, p, c)
    ensures Balanced(Cycled(rows, m * |rows|), n, m * p, m * c)
  {
    hide Count, Sum, Follows, At, Cycled;
    var orders := Cycled(rows, m * |rows|);
    CycledPermutes(rows, n, m * |rows|);
    forall k: nat, x: nat | k < n && x < n
      ensures Count(orders, At(k, x)) == m * p
    {
      CycledCount(rows, m, At(k, x));
    }
    forall a: nat, b: nat | a < n && b < n && a != b
      ensures Adjacencies(orders, a, b, n) == m * c
    {
      forall k: nat | k < n - 1
        ensures FollowCount(orders, a, b)(k) == m * FollowCount(rows, a, b)(k)
      {
        CycledCount(rows, m, Follows(k, a, b));
      }
      SumTimes(FollowCount(rows, a, b), FollowCount(orders, a, b), n - 1, m);
      assert Adjacencies(rows, a, b, n) == c;
    }
  }
}
