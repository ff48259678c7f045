/** All orderings of a few paths, and the trial orders of either design. */
module TrialOrders {
  import opened Words
  import opened Counting
  import opened Design

  // ---------- all permutations ----------

  function Factorial(n: nat): (f: nat)
    ensures f > 0
  {
    if n == 0 then 1 else n * Factorial(n - 1)
  }

  function Without(items: Row, i: nat): (r: Row)
    requires i < |items|
    ensures |r| == |items| - 1
  {
    items[..i] + items[i + 1..]
  }

  function Prefixed(y: nat, rows: seq<Row>): (r: seq<Row>)
    ensures |r| == |rows| && forall i :: 0 <= i < |r| ==> r[i] == [y] + rows[i]
  {
    seq(|rows|, i requires 0 <= i < |rows| => [y] + rows[i])
  }

  /** All orderings of the items, in the order of their positions. */
  function Permutations(items: Row): seq<Row>
    decreases |items|, |items| + 1
  {
    if items == [] then [[]] else StartingBelow(items, |items|)
  }

  /** The orderings that start with one of the first `m` items. */
  function StartingBelow(items: Row, m: nat): seq<Row>
    requires 0 < |items| && m <= |items|
    decreases |items|, m
  {
    if m == 0 then []
    else StartingBelow(items, m - 1) + Prefixed(items[m - 1], Permutations(Without(items, m - 1)))
  }

  function Identity(n: nat): (r: Row)
    ensures |r| == n && forall k :: 0 <= k < n ==> r[k] == k
  {
    seq(n, k requires 0 <= k < n => k)
  }

  ghost predicate Distinct(items: Row)
  {
    forall i, j :: 0 <= i < j < |items| ==> items[i] != items[j]
  }

  /** The row holds the same distinct items. */
  ghost predicate Arranges(row: Row, items: Row)
  {
    |row| == |items| && Distinct(row) && forall x: nat :: x in row <==> x in items
  }

  lemma WithoutOne(items: Row, i: nat)
    requires Distinct(items) && i < |items|
    ensures Distinct(Without(items, i))
    ensures forall x: nat :: x in Without(items, i) <==> x in items && x != items[i]
  {
    forall x: nat | x in items && x != items[i]
      ensures x in Without(items, i)
    {
      var j :| 0 <= j < |items| && items[j] == x;
      assert Without(items, i)[if j < i then j else j - 1] == x;
    }
  }

  lemma PrefixArranges(items: Row, i: nat, row: Row)
    requires Distinct(items) && i < |items| && Arranges(row, Without(items, i))
    ensures Arranges([items[i]] + row, items)
  {
    WithoutOne(items, i);
    var r := [items[i]] + row;
    forall j, k | 0 <= j < k < |r|
      ensures r[j] != r[k]
    {
      if j == 0 {
        assert r[k] in row;
      }
    }
  }

  /** Every listed row is an ordering of the items. */
  lemma {:induction false} AllArrange(items: Row, r: nat)
    requires Distinct(items) && r < |Permutations(items)|
    ensures Arranges(Permutations(items)[r], items)
    decreases |items|, |items| + 1
  {
    if items != [] {
      StartsArrange(items, |items|, r);
    }
  }

  lemma {:induction false} StartsArrange(items: Row, m: nat, r: nat)
    requires Distinct(items) && 0 < |items| && m <= |items| && r < |StartingBelow(items, m)|
    ensures Arranges(StartingBelow(items, m)[r], items)
    decreases |items|, m
  {
    var before := StartingBelow(items, m - 1);
    if r < |before| {
      StartsArrange(items, m - 1, r);
    } else {
      WithoutOne(items, m - 1);
      AllArrange(Without(items, m - 1), r - |before|);
      PrefixArranges(items, m - 1, Permutations(Without(items, m - 1))[r - |before|]);
    }
  }

  lemma {:induction false} PermutationCount(items: Row)
    ensures |Permutations(items)| == Factorial(|items|)
    decreases |items|, |items| + 1
  {
    if items != [] {
      StartingCount(items, |items|);
    }
  }

  lemma {:induction false} StartingCount(items: Row, m: nat)
    requires 0 < |items| && m <= |items|
    ensures |StartingBelow(items, m)| == m * Factorial(|items| - 1)
    decreases |items|, m
  {
    if m != 0 {
      StartingCount(items, m - 1);
      PermutationCount(Without(items, m - 1));
      Distribute(m - 1, 1, Factorial(|items| - 1));
    }
  }

  /** The orderings that start with item `i`. */
  ghost function Block(items: Row, i: nat): seq<Row>
    requires i < |items|
  {
    Prefixed(items[i], Permutations(Without(items, i)))
  }

  ghost function BlockCount(items: Row, hit: Row -> bool): nat -> nat
  {
    (i: nat) => if i < |items| then Count(Block(items, i), hit) else 0
  }

  /** Hits are counted block by block. */
  lemma {:induction false} CountBlocks(items: Row, m: nat, hit: Row -> bool)
    requires 0 < |items| && m <= |items|
    ensures Count(StartingBelow(items, m), hit) == Sum(BlockCount(items, hit), m)
    decreases m
  {
    hide Permutations, Prefixed;
    if m != 0 {
      CountBlocks(items, m - 1, hit);
      CountAppend(StartingBelow(items, m - 1), Block(items, m - 1), hit);
    }
  }

  lemma CountAll(items: Row, hit: Row -> bool)
    requires 0 < |items|
    ensures Count(Permutations(items), hit) == Sum(BlockCount(items, hit), |items|)
  {
    CountBlocks(items, |items|, hit);
  }

  lemma BlockAtFirst(items: Row, i: nat, x: nat)
    requires i < |items|
    ensures Count(Block(items, i), At(0, x)) == if items[i] == x then Factorial(|items| - 1) else 0
  {
    PermutationCount(Without(items, i));
    hide Permutations;
    if items[i] == x {
      CountEvery(Block(items, i), At(0, x));
    } else {
      CountNone(Block(items, i), At(0, x));
    }
  }

  lemma BlockAtLater(items: Row, i: nat, k: nat, x: nat)
    requires i < |items| && k > 0
    ensures Count(Block(items, i), At(k, x)) == Count(Permutations(Without(items, i)), At(k - 1, x))
  {
    hide Permutations, Count;
    CountSame(Block(items, i), At(k, x), Permutations(Without(items, i)), At(k - 1, x));
  }

  lemma AbsentItem(items: Row, k: nat, x: nat)
    requires Distinct(items) && x !in items
    ensures Count(Permutations(items), At(k, x)) == 0
  {
    forall r | 0 <= r < |Permutations(items)|
      ensures !At(k, x)(Permutations(items)[r])
    {
      AllArrange(items, r);
    }
    hide Permutations, Count;
    CountNone(Permutations(items), At(k, x));
  }

  /** Every item holds every position in `(n - 1)!` orderings. */
  lemma {:induction false} PositionCount(items: Row, k: nat, x: nat)
    requires Distinct(items) && k < |items| && x in items
    ensures Count(Permutations(items), At(k, x)) == Factorial(|items| - 1)
    decreases k
  {
    hide Permutations, Count, Sum;
    var n, j :| n == |items| && 0 <= j < n && items[j] == x;
    CountAll(items, At(k, x));
    var f := BlockCount(items, At(k, x));
    if k == 0 {
      forall i: nat | i < n
        ensures f(i) == if i == j then Factorial(n - 1) else 0
      {
        BlockAtFirst(items, i, x);
      }
      SumOnly(f, n, j, Factorial(n - 1));
    } else {
      forall i: nat | i < n
        ensures f(i) == if i == j then 0 else Factorial(n - 2)
      {
        BlockAtLater(items, i, k, x);
        WithoutOne(items, i);
        if i == j {
          AbsentItem(Without(items, i), k - 1, x);
        } else {
          PositionCount(Without(items, i), k - 1, x);
        }
      }
      SumExcept(f, n, j, Factorial(n - 2));
    }
  }

  lemma BlockFollowsFirst(items: Row, i: nat, a: nat, b: nat)
    requires i < |items|
    ensures Count(Block(items, i), Follows(0, a, b))
            == if items[i] == a then Count(Permutations(Without(items, i)), At(0, b)) else 0
  {
    hide Permutations, Count;
    if items[i] == a {
      CountSame(Block(items, i), Follows(0, a, b), Permutations(Without(items, i)), At(0, b));
    } else {
      CountNone(Block(items, i), Follows(0, a, b));
    }
  }

  lemma BlockFollowsLater(items: Row, i: nat, k: nat, a: nat, b: nat)
    requires i < |items| && k > 0
    ensures Count(Block(items, i), Follows(k, a, b)) == Count(Permutations(Without(items, i)), Follows(k - 1, a, b))
  {
    hide Permutations, Count;
    CountSame(Block(items, i), Follows(k, a, b), Permutations(Without(items, i)), Follows(k - 1, a, b));
  }

  lemma AbsentPair(items: Row, k: nat, a: nat, b: nat)
    requires Distinct(items) && (a !in items || b !in items)
    ensures Count(Permutations(items), Follows(k, a, b)) == 0
  {
    forall r | 0 <= r < |Permutations(items)|
      ensures !Follows(k, a, b)(Permutations(items)[r])
    {
      AllArrange(items, r);
    }
    hide Permutations, Count;
    CountNone(Permutations(items), Follows(k, a, b));
  }

  /** Every ordered pair of items is adjacent at every position in `(n - 2)!` orderings. */
  lemma {:induction false} PairCount(items: Row, k: nat, a: nat, b: nat)
    requires Distinct(items) && k + 1 < |items| && a in items && b in items && a != b
    ensures Count(Permutations(items), Follows(k, a, b)) == Factorial(|items| - 2)
    decreases k
  {
    hide Permutations, Count, Sum;
    var n := |items|;
    var i0 :| 0 <= i0 < n && items[i0] == a;
    var j0 :| 0 <= j0 < n && items[j0] == b;
    CountAll(items, Follows(k, a, b));
    var f := BlockCount(items, Follows(k, a, b));
    if k == 0 {
      forall i: nat | i < n
        ensures f(i) == if i == i0 then Factorial(n - 2) else 0
      {
        BlockFollowsFirst(items, i, a, b);
        if i == i0 {
          WithoutOne(items, i);
          PositionCount(Without(items, i), 0, b);
        }
      }
      SumOnly(f, n, i0, Factorial(n - 2));
    } else {
      forall i: nat | i < n
        ensures f(i) == if i == i0 || i == j0 then 0 else Factorial(n - 3)
      {
        BlockFollowsLater(items, i, k, a, b);
        WithoutOne(items, i);
        if i == i0 || i == j0 {
          AbsentPair(Without(items, i), k - 1, a, b);
        } else {
          PairCount(Without(items, i), k - 1, a, b);
        }
      }
      SumExceptTwo(f, n, i0, j0, Factorial(n - 3));
    }
  }

  lemma ArrangesIdentity(row: Row, n: nat)
    requires Arranges(row, Identity(n))
    ensures Permutes(row, n)
  {
    forall k | 0 <= k < n
      ensures row[k] < n
    {
      assert row[k] in Identity(n);
    }
    forall x: nat | x < n
      ensures x in row
    {
      assert Identity(n)[x] == x;
    }
  }

  /** All orderings together are balanced. */
  lemma PermutationsBalanced(n: nat)
    requires n > 0
    ensures Balanced(Permutations(Identity(n)), n, Factorial(n - 1), Factorial(n - 1))
  {
    hide Permutations, Count, Sum, Permutes, Follows, At, Factorial;
    var items := Identity(n);
    forall r | 0 <= r < |Permutations(items)|
      ensures Permutes(Permutations(items)[r], n)
    {
      AllArrange(items, r);
      ArrangesIdentity(Permutations(items)[r], n);
    }
    forall k: nat, x: nat | k < n && x < n
      ensures Count(Permutations(items), At(k, x)) == Factorial(n - 1)
    {
      assert items[x] == x;
      PositionCount(items, k, x);
    }
    forall a: nat, b: nat | a < n && b < n && a != b
      ensures Adjacencies(Permutations(items), a, b, n) == Factorial(n - 1)
    {
      assert items[a] == a && items[b] == b;
      var f := FollowCount(Permutations(items), a, b);
      forall k: nat | k < n - 1
        ensures f(k) == Factorial(n - 2)
      {
        PairCount(items, k, a, b);
      }
      SumConstant(f, n - 1, Factorial(n - 2));
      FactorialStep(n - 1);
    }
  }

  lemma FactorialStep(n: nat)
    requires n > 0
    ensures Factorial(n) == n * Factorial(n - 1)
  {
  }

  // ---------- the orders of a run ----------

  const MAX_PERMUTATION_PATHS := 4

  predicate UsesPermutations(n: nat) { n <= MAX_PERMUTATION_PATHS }

  /** The rows of one design. */
  function DesignRows(n: nat): seq<Row>
  {
    if UsesPermutations(n) then Permutations(Identity(n)) else Williams(n)
  }

  lemma DesignNonEmpty(n: nat)
    ensures |DesignRows(n)| > 0
  {
    hide Permutations;
    PermutationCount(Identity(n));
    if !UsesPermutations(n) {
      WilliamsBalanced(n);
    }
  }

  /** Up to four paths all orderings are run, beyond that a Williams design: `n` rows for even `n`, `2 n` for odd. */
  lemma ChosenDesign(n: nat)
    ensures |DesignRows(n)| == if n <= 4 then Factorial(n) else if n % 2 == 0 then n else 2 * n
  {
    hide Permutations, Williams, Factorial;
    PermutationCount(Identity(n));
    if n > 4 {
      WilliamsBalanced(n);
    }
  }

  /** Trial orders, or `None` when a Williams design would be cut short. */
  method MakeTrialOrders(n: nat, trials: nat) returns (orders: Option<seq<Row>>)
    ensures |DesignRows(n)| > 0
    ensures orders == if UsesPermutations(n) || trials % |DesignRows(n)| == 0
                      then Some(Cycled(DesignRows(n), trials)) else None
  {
    DesignNonEmpty(n);
    var rows: seq<Row>;
    if UsesPermutations(n) {
      rows := Permutations(Identity(n));
    } else {
      rows := WilliamsRows(n);
      if trials % |rows| != 0 {
        return None;
      }
    }
    orders := Some(Cycled(rows, trials));
  }

  /** How often one design puts every path in every position, which is also how often it repeats every adjacency. */
  function PerDesign(n: nat): nat
    requires n > 0
  {
    if UsesPermutations(n) then Factorial(n - 1) else Copies(n)
  }

  lemma DesignBalanced(n: nat)
    requires n > 0
    ensures |DesignRows(n)| > 0 && Balanced(DesignRows(n), n, PerDesign(n), PerDesign(n))
  {
    hide Permutations, Williams, Factorial, Balanced;
    DesignNonEmpty(n);
    if UsesPermutations(n) {
      PermutationsBalanced(n);
    } else {
      WilliamsBalanced(n);
    }
  }

  /** `m` whole designs balance every position and every adjacency. */
  ghost predicate BalancedMultiple(rows: seq<Row>, n: nat, per: nat, m: nat)
    requires n > 0
  {
    |rows| > 0 && Balanced(Cycled(rows, m * |rows|), n, m * per, m * per)
  }

  /** A whole number of designs is balanced, for either design. */
  lemma TrialsBalanced(n: nat, m: nat)
    requires n > 0
    ensures BalancedMultiple(DesignRows(n), n, PerDesign(n), m)
  {
    hide DesignRows, PerDesign, Balanced, Cycled;
    DesignBalanced(n);
    CycledBalanced(DesignRows(n), n, PerDesign(n), PerDesign(n), m);
  }

  /** Every order is a permutation of the paths, for any number of trials. */
  lemma OrdersPermute(n: nat, trials: nat)
    requires n > 0
    ensures |DesignRows(n)| > 0
    ensures forall t :: 0 <= t < trials ==> Permutes(Cycled(DesignRows(n), trials)[t], n)
  {
    hide DesignRows, PerDesign, Permutes, Adjacencies, Count;
    DesignBalanced(n);
    CycledPermutes(DesignRows(n), n, trials);
  }
}
