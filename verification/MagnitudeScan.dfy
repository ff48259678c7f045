/** The finiteness and largest-magnitude scans, scalar and by a team. */
module MagnitudeScan {
  import opened Words
  import opened Binary32
  import opened Team

  function Larger(a: nat, b: nat): nat { if a > b then a else b }

  /** The largest sign-cleared pattern; 0 for no values. */
  function MaxMagnitude(values: seq<u32>): (m: u32)
    ensures m < SIGN
  {
    if values == [] then 0
    else Larger(MaxMagnitude(values[..|values| - 1]), Magnitude(values[|values| - 1]))
  }

  ghost predicate AllFinite(values: seq<u32>)
  {
    forall i :: 0 <= i < |values| ==> IsFinite(values[i])
  }

  ghost predicate Attained(values: seq<u32>, m: nat)
  {
    exists i :: 0 <= i < |values| && Magnitude(values[i]) == m
  }

  lemma {:induction false} MaxBounds(values: seq<u32>, i: nat)
    requires i < |values|
    ensures Magnitude(values[i]) <= MaxMagnitude(values)
  {
    if i < |values| - 1 {
      MaxBounds(values[..|values| - 1], i);
    }
  }

  lemma {:induction false} MaxAttained(values: seq<u32>)
    requires values != []
    ensures Attained(values, MaxMagnitude(values))
  {
    var n := |values| - 1;
    assert Attained(values, Magnitude(values[n]));
    if n == 0 {
      assert MaxMagnitude(values[..0]) == 0;
    } else if MaxMagnitude(values) != Magnitude(values[n]) {
      MaxAttained(values[..n]);
      var i :| 0 <= i < n && Magnitude(values[..n][i]) == MaxMagnitude(values);
      assert values[i] == values[..n][i];
    }
  }

  /** An attained bound (or 0) is the largest magnitude. */
  lemma MaxUnique(values: seq<u32>, m: nat)
    requires forall i :: 0 <= i < |values| ==> Magnitude(values[i]) <= m
    requires m == 0 || Attained(values, m)
    ensures m == MaxMagnitude(values)
  {
    if Attained(values, m) {
      var i :| 0 <= i < |values| && Magnitude(values[i]) == m;
      MaxBounds(values, i);
    }
    if values != [] {
      MaxAttained(values);
    }
  }

  /**
   The largest pattern decides both questions: it reaches the infinity pattern
   exactly when some value is not finite, and is zero exactly when every value
   is a zero of either sign.
   */
  lemma MaxDecides(values: seq<u32>)
    ensures MaxMagnitude(values) < INFINITY <==> AllFinite(values)
    ensures MaxMagnitude(values) == 0 <==> forall i :: 0 <= i < |values| ==> Magnitude(values[i]) == 0
    ensures AllFinite(values) ==> forall i :: 0 <= i < |values| ==>
              Value(Magnitude(values[i])) <= Value(MaxMagnitude(values))
  {
    forall i | 0 <= i < |values|
      ensures Magnitude(values[i]) <= MaxMagnitude(values)
      ensures MaxMagnitude(values) < INFINITY ==> Value(Magnitude(values[i])) <= Value(MaxMagnitude(values))
    {
      MaxBounds(values, i);
      if Magnitude(values[i]) < MaxMagnitude(values) < INFINITY {
        ValueMonotone(Magnitude(values[i]), MaxMagnitude(values));
      }
    }
    if values != [] {
      MaxAttained(values);
    }
  }

  /** Single pass with floating-point comparisons, leaving at the first non-finite value. */
  method ScanScalar(values: seq<u32>) returns (status: Status, maxAbs: AbsBits)
    ensures status == if AllFinite(values) then Ok else ErrNonfinite
    ensures status == Ok ==> maxAbs == MaxMagnitude(values) < INFINITY
  {
    maxAbs := 0;
    for i := 0 to |values|
      invariant AllFinite(values[..i])
      invariant maxAbs == MaxMagnitude(values[..i]) < INFINITY
    {
      if !IsFinite(values[i]) {
        return ErrNonfinite, maxAbs;
      }
      assert values[..i + 1][..i] == values[..i];
      var m := Magnitude(values[i]);
      GreaterIsPatternOrder(m, maxAbs);
      if Greater(m, maxAbs) {
        maxAbs := m;
      }
    }
    assert values[..|values|] == values;
    status := Ok;
  }

  /** The encoder's scalar scan: validate everything, then look for a non-zero value. */
  method ScanForEncode(values: seq<u32>) returns (status: Status, hasNonzero: bool)
    ensures status == if AllFinite(values) then Ok else ErrNonfinite
    ensures status == Ok ==> hasNonzero == (MaxMagnitude(values) != 0)
  {
    hasNonzero := false;
    for i := 0 to |values|
      invariant AllFinite(values[..i])
    {
      if !IsFinite(values[i]) {
        return ErrNonfinite, false;
      }
    }
    MaxDecides(values);
    for i := 0 to |values|
      invariant forall j :: 0 <= j < i ==> Magnitude(values[j]) == 0
    {
      ZeroIsZero(Magnitude(values[i]));
      if Value(Magnitude(values[i])) != 0.0 {
        return Ok, true;
      }
    }
    status := Ok;
  }

  /** Every thread enters the critical section once, in some order. */
  ghost predicate Arrivals(order: seq<nat>, team: nat)
  {
    && team > 0 && |order| == team
    && (forall s :: 0 <= s < |order| ==> order[s] < team)
    && (forall t :: 0 <= t < team ==> t in order)
  }

  ghost predicate Bounded(values: seq<u32>, lo: nat, hi: nat, m: nat)
  {
    forall i :: lo <= i < hi && i < |values| ==> Magnitude(values[i]) <= m
  }

  /** One thread's private maximum over its share. */
  method LocalMax(values: seq<u32>, thread: nat, team: nat) returns (local: u32)
    requires thread < team
    ensures Bounded(values, UnitCut(|values|, thread, team), UnitCut(|values|, thread + 1, team), local)
    ensures local == 0 || Attained(values, local)
  {
    local := 0;
    var i, end := UnitRange(|values|, thread, team);
    ghost var begin := i;
    while i < end
      invariant begin <= i
      invariant Bounded(values, begin, i, local)
      invariant local == 0 || Attained(values, local)
    {
      var m := Magnitude(values[i]);
      if m > local {
        local := m;
      }
      i := i + 1;
    }
  }

  /** The team's maximum does not depend on the team size or on the order of arrival. */
  method MaxMagnitudeBits(values: seq<u32>, team: nat, order: seq<nat>) returns (result: u32)
    requires Arrivals(order, team)
    ensures result == MaxMagnitude(values)
  {
    result := 0;
    ghost var cuts := UnitCuts(|values|, team);
    for s := 0 to |order|
      invariant forall r :: 0 <= r < s ==> Bounded(values, cuts[order[r]], cuts[order[r] + 1], result)
      invariant result == 0 || Attained(values, result)
    {
      var local := LocalMax(values, order[s], team);
      if local > result {
        result := local;
      }
    }
    SharesBound(values, cuts, order, team, result);
    MaxUnique(values, result);
  }

  lemma SharesBound(values: seq<u32>, cuts: seq<nat>, order: seq<nat>, team: nat, m: nat)
    requires Arrivals(order, team) && |cuts| == team + 1 && Cuts(cuts, |values|)
    requires forall r :: 0 <= r < team ==> Bounded(values, cuts[order[r]], cuts[order[r] + 1], m)
    ensures forall i :: 0 <= i < |values| ==> Magnitude(values[i]) <= m
  {
    forall i | 0 <= i < |values|
      ensures Magnitude(values[i]) <= m
    {
      var t := Owner(cuts, |values|, i, team);
      assert t in order;
      var s :| 0 <= s < |order| && order[s] == t;
    }
  }

  /** The encoder's threaded scan. */
  method ScanForEncodeByTeam(values: seq<u32>, team: nat, order: seq<nat>) returns (status: Status, hasNonzero: bool)
    requires Arrivals(order, team)
    ensures status == if AllFinite(values) then Ok else ErrNonfinite
    ensures status == Ok ==> hasNonzero == (MaxMagnitude(values) != 0)
  {
    var maxBits := MaxMagnitudeBits(values, team, order);
    MaxDecides(values);
    if maxBits >= INFINITY {
      return ErrNonfinite, false;
    }
    return Ok, maxBits != 0;
  }
}
