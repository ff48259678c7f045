/** How many rows of a list satisfy a predicate, and how to sum such counts. */
module Counting {

  ghost function Count<T>(rows: seq<T>, hit: T -> bool): (c: nat)
    ensures c <= |rows|
  {
    if rows == [] then 0
    else Count(rows[..|rows| - 1], hit) + if hit(rows[|rows| - 1]) then 1 else 0
  }

  lemma {:induction false} CountAppend<T>(a: seq<T>, b: seq<T>, hit: T -> bool)
    ensures Count(a + b, hit) == Count(a, hit) + Count(b, hit)
    decreases |b|
  {
    if b == [] {
      assert a + b == a;
    } else {
      CountAppend(a, b[..|b| - 1], hit);
      assert (a + b)[..|a + b| - 1] == a + b[..|b| - 1];
    }
  }

  /** Lists whose rows answer alike have the same count. */
  lemma {:induction false} CountSame<T, U>(a: seq<T>, f: T -> bool, b: seq<U>, g: U -> bool)
    requires |a| == |b| && forall i :: 0 <= i < |a| ==> f(a[i]) == g(b[i])
    ensures Count(a, f) == Count(b, g)
    decreases |a|
  {
    if a != [] {
      var n := |a| - 1;
      assert f(a[n]) == g(b[n]);
      CountSame(a[..n], f, b[..n], g);
    }
  }

  lemma {:induction false} CountNone<T>(rows: seq<T>, hit: T -> bool)
    requires forall i :: 0 <= i < |rows| ==> !hit(rows[i])
    ensures Count(rows, hit) == 0
    decreases |rows|
  {
    if rows != [] {
      CountNone(rows[..|rows| - 1], hit);
    }
  }

  lemma {:induction false} CountEvery<T>(rows: seq<T>, hit: T -> bool)
    requires forall i :: 0 <= i < |rows| ==> hit(rows[i])
    ensures Count(rows, hit) == |rows|
    decreases |rows|
  {
    if rows != [] {
      CountEvery(rows[..|rows| - 1], hit);
    }
  }

  /** A single hit counts one. */
  lemma {:induction false} CountOne<T>(rows: seq<T>, hit: T -> bool, j: nat)
    requires j < |rows| && forall i :: 0 <= i < |rows| ==> (hit(rows[i]) <==> i == j)
    ensures Count(rows, hit) == 1
    decreases |rows|
  {
    var n := |rows| - 1;
    assert hit(rows[n]) <==> n == j;
    if j == n {
      CountNone(rows[..n], hit);
    } else {
      CountOne(rows[..n], hit, j);
    }
  }

  /** Some row hits exactly when the count is positive. */
  lemma {:induction false} CountPositive<T>(rows: seq<T>, hit: T -> bool, j: nat)
    requires j < |rows| && hit(rows[j])
    ensures Count(rows, hit) > 0
    decreases |rows|
  {
    if j < |rows| - 1 {
      CountPositive(rows[..|rows| - 1], hit, j);
    }
  }

  ghost function Sum(f: nat -> nat, n: nat): nat
  {
    if n == 0 then 0 else Sum(f, n - 1) + f(n - 1)
  }

  lemma {:induction false} SumSame(f: nat -> nat, g: nat -> nat, n: nat)
    requires forall k: nat :: k < n ==> f(k) == g(k)
    ensures Sum(f, n) == Sum(g, n)
  {
    if n != 0 {
      SumSame(f, g, n - 1);
    }
  }

  lemma {:induction false} SumZero(f: nat -> nat, n: nat)
    requires forall k: nat :: k < n ==> f(k) == 0
    ensures Sum(f, n) == 0
  {
    if n != 0 {
      SumZero(f, n - 1);
    }
  }

  lemma {:induction false} SumOne(f: nat -> nat, n: nat, j: nat)
    requires j < n && forall k: nat :: k < n ==> f(k) == if k == j then 1 else 0
    ensures Sum(f, n) == 1
  {
    if j == n - 1 {
      SumZero(f, n - 1);
    } else {
      SumOne(f, n - 1, j);
    }
  }

  lemma {:induction false} SumTwo(f: nat -> nat, n: nat, i: nat, j: nat)
    requires i < j < n && forall k: nat :: k < n ==> f(k) == if k == i || k == j then 1 else 0
    ensures Sum(f, n) == 2
  {
    if j == n - 1 {
      SumOne(f, n - 1, i);
    } else {
      SumTwo(f, n - 1, i, j);
    }
  }

  /** The same amount `n` times. */
  lemma {:induction false} SumConstant(f: nat -> nat, n: nat, c: nat)
    requires forall k: nat :: k < n ==> f(k) == c
    ensures Sum(f, n) == n * c
  {
    if n != 0 {
      SumConstant(f, n - 1, c);
      assert (n - 1) * c + c == n * c;
    }
  }

  lemma {:induction false} SumPlus(f: nat -> nat, g: nat -> nat, h: nat -> nat, n: nat)
    requires forall k: nat :: k < n ==> h(k) == f(k) + g(k)
    ensures Sum(h, n) == Sum(f, n) + Sum(g, n)
  {
    if n != 0 {
      SumPlus(f, g, h, n - 1);
    }
  }

  lemma {:induction false} SumTimes(f: nat -> nat, g: nat -> nat, n: nat, m: nat)
    requires forall k: nat :: k < n ==> g(k) == m * f(k)
    ensures Sum(g, n) == m * Sum(f, n)
  {
    if n != 0 {
      SumTimes(f, g, n - 1, m);
      assert m * (Sum(f, n - 1) + f(n - 1)) == m * Sum(f, n - 1) + m * f(n - 1);
    }
  }

  /** The same amount everywhere except nothing at one place. */
  lemma {:induction false} SumExcept(f: nat -> nat, n: nat, j: nat, c: nat)
    requires j < n && forall k: nat :: k < n ==> f(k) == if k == j then 0 else c
    ensures Sum(f, n) == (n - 1) * c
  {
    if j == n - 1 {
      SumConstant(f, n - 1, c);
    } else {
      SumExcept(f, n - 1, j, c);
      assert (n - 2) * c + c == (n - 1) * c;
    }
  }

  /** A single non-zero term. */
  lemma {:induction false} SumOnly(f: nat -> nat, n: nat, j: nat, c: nat)
    requires j < n && forall k: nat :: k < n ==> f(k) == if k == j then c else 0
    ensures Sum(f, n) == c
  {
    if j == n - 1 {
      SumZero(f, n - 1);
    } else {
      SumOnly(f, n - 1, j, c);
    }
  }

  /** The same amount everywhere except nothing at two places. */
  lemma {:induction false} SumExceptTwo(f: nat -> nat, n: nat, i: nat, j: nat, c: nat)
    requires i < n && j < n && i != j && forall k: nat :: k < n ==> f(k) == if k == i || k == j then 0 else c
    ensures Sum(f, n) == (n - 2) * c
  {
    if i == n - 1 {
      SumExcept(f, n - 1, j, c);
    } else if j == n - 1 {
      SumExcept(f, n - 1, i, c);
    } else {
      SumExceptTwo(f, n - 1, i, j, c);
      assert (n - 3) * c + c == (n - 2) * c;
    }
  }
}
