/** The permutation design lists every ordering of the paths exactly once, in lexicographic order. */
module Orderings {
  import opened Design
  import opened TrialOrders

  /** Lexicographic order on rows. */
  predicate Before(a: Row, b: Row)
  {
    |a| > 0 && |b| > 0 && (a[0] < b[0] || (a[0] == b[0] && Before(a[1..], b[1..])))
  }

  lemma {:induction false} BeforeIsStrict(a: Row)
    ensures !Before(a, a)
  {
    if a != [] {
      BeforeIsStrict(a[1..]);
    }
  }

  ghost predicate Increasing(items: Row)
  {
    forall i, j :: 0 <= i < j < |items| ==> items[i] < items[j]
  }

  lemma WithoutIncreasing(items: Row, i: nat)
    requires Increasing(items) && i < |items|
    ensures Increasing(Without(items, i))
  {
  }

  /** A listed row starts with one of the items that its list allows. */
  lemma {:induction false} StartsWith(items: Row, m: nat, r: nat)
    requires 0 < |items| && m <= |items| && r < |StartingBelow(items, m)|
    ensures |StartingBelow(items, m)[r]| > 0
    ensures exists k :: 0 <= k < m && StartingBelow(items, m)[r][0] == items[k]
    decreases m
  {
    var before := StartingBelow(items, m - 1);
    if r < |before| {
      StartsWith(items, m - 1, r);
    } else {
      assert StartingBelow(items, m)[r][0] == items[m - 1];
    }
  }

  lemma {:induction false} StartsInOrder(items: Row, m: nat, i: nat, j: nat)
    requires Increasing(items) && 0 < |items| && m <= |items| && i < j < |StartingBelow(items, m)|
    ensures Before(StartingBelow(items, m)[i], StartingBelow(items, m)[j])
    decreases |items|, m
  {
    var before, rest := StartingBelow(items, m - 1), Permutations(Without(items, m - 1));
    if j < |before| {
      StartsInOrder(items, m - 1, i, j);
    } else if i < |before| {
      StartsWith(items, m - 1, i);
    } else {
      WithoutIncreasing(items, m - 1);
      InOrder(Without(items, m - 1), i - |before|, j - |before|);
      var a, b := rest[i - |before|], rest[j - |before|];
      assert ([items[m - 1]] + a)[1..] == a && ([items[m - 1]] + b)[1..] == b;
    }
  }

  lemma {:induction false} InOrder(items: Row, i: nat, j: nat)
    requires Increasing(items) && i < j < |Permutations(items)|
    ensures Before(Permutations(items)[i], Permutations(items)[j])
    decreases |items|, |items| + 1
  {
    StartsInOrder(items, |items|, i, j);
  }

  /** The place of the `k`-th block among the rows that start with one of the first `m` items. */
  lemma {:induction false} BlockListed(items: Row, m: nat, k: nat, rest: Row)
    requires k < m <= |items| && rest in Permutations(Without(items, k))
    ensures [items[k]] + rest in StartingBelow(items, m)
    decreases m
  {
    if k < m - 1 {
      BlockListed(items, m - 1, k, rest);
    } else {
      var rows := Permutations(Without(items, k));
      var r :| 0 <= r < |rows| && rows[r] == rest;
      assert Prefixed(items[k], rows)[r] == [items[k]] + rest;
    }
  }

  lemma TailArranges(items: Row, k: nat, row: Row)
    requires Distinct(items) && k < |items| && Arranges(row, items) && row[0] == items[k]
    ensures Arranges(row[1..], Without(items, k))
  {
    WithoutOne(items, k);
    assert row == [row[0]] + row[1..];
  }

  /** Every ordering is listed. */
  lemma {:induction false} Listed(items: Row, row: Row)
    requires Distinct(items) && Arranges(row, items)
    ensures row in Permutations(items)
    decreases |items|
  {
    if items != [] {
      assert row[0] in items;
      var k :| 0 <= k < |items| && items[k] == row[0];
      TailArranges(items, k, row);
      WithoutOne(items, k);
      Listed(Without(items, k), row[1..]);
      BlockListed(items, |items|, k, row[1..]);
      assert row == [items[k]] + row[1..];
    }
  }

  /** The rows are the orderings of the paths, each at exactly one place, in lexicographic order. */
  lemma EveryOrderOnce(n: nat)
    ensures forall row: Row :: row in Permutations(Identity(n)) <==> Permutes(row, n)
    ensures forall i, j :: 0 <= i < j < |Permutations(Identity(n))| ==>
              Before(Permutations(Identity(n))[i], Permutations(Identity(n))[j])
    ensures forall i, j :: 0 <= i < j < |Permutations(Identity(n))| ==>
              Permutations(Identity(n))[i] != Permutations(Identity(n))[j]
  {
    var items := Identity(n);
    forall row: Row
      ensures row in Permutations(items) <==> Permutes(row, n)
    {
      if Permutes(row, n) {
        forall x: nat
          ensures x in row <==> x in items
        {
          assert x < n ==> items[x] == x;
        }
        Listed(items, row);
      }
      if row in Permutations(items) {
        var r :| 0 <= r < |Permutations(items)| && Permutations(items)[r] == row;
        AllArrange(items, r);
        ArrangesIdentity(row, n);
      }
    }
    forall i, j | 0 <= i < j < |Permutations(items)|
      ensures Before(Permutations(items)[i], Permutations(items)[j]) && Permutations(items)[i] != Permutations(items)[j]
    {
      InOrder(items, i, j);
      BeforeIsStrict(Permutations(items)[i]);
    }
  }
}
