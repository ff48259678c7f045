/**
 A parallel region is a team of threads. Each thread owns a contiguous share of
 the work and performs a fixed list of stores; the region may run the stores of
 different threads in any order that keeps each thread's own order.
 */
module Team {
  const BLOCK := 256

  /** First item of thread `t`; thread `t` owns the items up to the next thread's first. */
  function ShareBegin(n: nat, t: nat, team: nat): nat
    requires team > 0
  {
    t * (n / team) + if t < n % team then t else n % team
  }

  method Split(n: nat, thread: nat, team: nat) returns (begin: nat, end: nat)
    requires thread < team
    ensures begin == ShareBegin(n, thread, team)
    ensures end == ShareBegin(n, thread + 1, team)
    ensures end - begin == n / team || end - begin == n / team + 1
  {
    var base, extra := n / team, n % team;
    begin := thread * base + if thread < extra then thread else extra;
    end := begin + base + if thread < extra then 1 else 0;
    ShareStep(n, thread, team);
  }

  lemma ShareStep(n: nat, t: nat, team: nat)
    requires team > 0
    ensures ShareBegin(n, t + 1, team) == ShareBegin(n, t, team) + n / team + if t < n % team then 1 else 0
  {
    assert (t + 1) * (n / team) == t * (n / team) + n / team;
  }

  /** Boundaries of consecutive shares of `[0, n)`. */
  ghost predicate Cuts(cuts: seq<nat>, n: nat)
  {
    && |cuts| > 1 && cuts[0] == 0 && cuts[|cuts| - 1] == n
    && forall t :: 0 <= t < |cuts| - 1 ==> cuts[t] <= cuts[t + 1]
  }

  lemma {:induction false} CutsMonotone(cuts: seq<nat>, n: nat, s: nat, t: nat)
    requires Cuts(cuts, n) && s <= t < |cuts|
    ensures cuts[s] <= cuts[t] <= n
    decreases |cuts| - s
  {
    if s < t {
      CutsMonotone(cuts, n, s + 1, t);
    } else if t + 1 < |cuts| {
      CutsMonotone(cuts, n, t + 1, |cuts| - 1);
    }
  }

  /** The thread whose share holds item `i`, looking at the first `t` threads. */
  ghost function Owner(cuts: seq<nat>, n: nat, i: nat, t: nat): (owner: nat)
    requires Cuts(cuts, n) && 0 < t < |cuts| && i < cuts[t]
    ensures owner < t && cuts[owner] <= i < cuts[owner + 1]
  {
    if cuts[t - 1] <= i then t - 1 else Owner(cuts, n, i, t - 1)
  }

  ghost function ShareCuts(n: nat, team: nat): (cuts: seq<nat>)
    requires team > 0
    ensures |cuts| == team + 1
    ensures forall t :: 0 <= t <= team ==> cuts[t] == ShareBegin(n, t, team)
    ensures Cuts(cuts, n)
  {
    ShareEnds(n, team);
    var cuts := seq(team + 1, t requires 0 <= t => ShareBegin(n, t, team));
    assert forall t :: 0 <= t < team ==> cuts[t] <= cuts[t + 1] by {
      forall t | 0 <= t < team
        ensures cuts[t] <= cuts[t + 1]
      {
        ShareMonotone(n, t, team);
      }
    }
    cuts
  }

  lemma ShareEnds(n: nat, team: nat)
    requires team > 0
    ensures ShareBegin(n, 0, team) == 0
    ensures ShareBegin(n, team, team) == n
  {
    assert team * (n / team) + n % team == n;
  }

  /** Whole 256-element units covering `count` elements. */
  function Units(count: nat): nat
  {
    count / BLOCK + if count % BLOCK != 0 then 1 else 0
  }

  /** Element range of whole units; an idle thread may get `begin > end`, an empty range. */
  method UnitRange(count: nat, thread: nat, team: nat) returns (begin: nat, end: nat)
    requires thread < team
    ensures begin == BLOCK * ShareBegin(Units(count), thread, team)
    ensures end == UnitCut(count, thread + 1, team)
    ensures begin < count ==> begin == UnitCut(count, thread, team)
    ensures begin >= count ==> end <= begin
  {
    begin, end := Split(Units(count), thread, team);
    begin := begin * BLOCK;
    end := end * BLOCK;
    if end > count {
      end := count;
    }
  }

  /** Element boundary in front of thread `t`: whole units, capped at the element count. */
  function UnitCut(count: nat, t: nat, team: nat): (cut: nat)
    requires team > 0
    ensures cut <= count
    ensures cut == count || cut % BLOCK == 0
  {
    Capped(count, ShareBegin(Units(count), t, team))
  }

  function Capped(count: nat, unit: nat): (cut: nat)
    ensures cut <= count
    ensures cut == count || cut % BLOCK == 0
  {
    if BLOCK * unit > count then count else BLOCK * unit
  }

  lemma CappedMonotone(count: nat, a: nat, b: nat)
    requires a <= b
    ensures Capped(count, a) <= Capped(count, b)
  {
  }

  lemma ShareMonotone(n: nat, t: nat, team: nat)
    requires team > 0
    ensures ShareBegin(n, t, team) <= ShareBegin(n, t + 1, team)
  {
    ShareStep(n, t, team);
  }

  ghost function UnitCuts(count: nat, team: nat): (cuts: seq<nat>)
    requires team > 0
    ensures |cuts| == team + 1
    ensures forall t :: 0 <= t <= team ==> cuts[t] == UnitCut(count, t, team)
    ensures Cuts(cuts, count)
  {
    UnitEnds(count, team);
    var cuts := seq(team + 1, t requires 0 <= t => UnitCut(count, t, team));
    assert forall t :: 0 <= t < team ==> cuts[t] <= cuts[t + 1] by {
      forall t | 0 <= t < team
        ensures cuts[t] <= cuts[t + 1]
      {
        UnitStep(count, t, team);
      }
    }
    cuts
  }

  lemma UnitStep(count: nat, t: nat, team: nat)
    requires team > 0
    ensures UnitCut(count, t, team) <= UnitCut(count, t + 1, team)
  {
    ShareMonotone(Units(count), t, team);
    CappedMonotone(count, ShareBegin(Units(count), t, team), ShareBegin(Units(count), t + 1, team));
  }

  lemma UnitEnds(count: nat, team: nat)
    requires team > 0
    ensures UnitCut(count, 0, team) == 0
    ensures UnitCut(count, team, team) == count
  {
    ShareEnds(Units(count), team);
  }

  datatype Write<T> = Write(addr: nat, value: T)

  type Log<T> = seq<Write<T>>

  /** How often thread `t` is picked. */
  function Picks(schedule: seq<nat>, t: nat): nat
  {
    if schedule == [] then 0
    else Picks(schedule[..|schedule| - 1], t) + if schedule[|schedule| - 1] == t then 1 else 0
  }

  lemma {:induction false} PicksPrefix(schedule: seq<nat>, n: nat, t: nat)
    requires n <= |schedule|
    ensures Picks(schedule[..n], t) <= Picks(schedule, t)
    decreases |schedule| - n
  {
    if n < |schedule| {
      assert schedule[..n + 1][..n] == schedule[..n];
      PicksPrefix(schedule, n + 1, t);
    } else {
      assert schedule[..n] == schedule;
    }
  }

  /** A schedule that lets every thread finish: one pick per store. */
  ghost predicate Finishes<T>(schedule: seq<nat>, logs: seq<Log<T>>)
  {
    && (forall s :: 0 <= s < |schedule| ==> schedule[s] < |logs|)
    && (forall t :: 0 <= t < |logs| ==> Picks(schedule, t) == |logs[t]|)
  }

  /** Every store writes the value that `goal` has at its address. */
  ghost predicate Agrees<T>(logs: seq<Log<T>>, goal: seq<T>)
  {
    forall t, k :: 0 <= t < |logs| && 0 <= k < |logs[t]|
      ==> logs[t][k].addr < |goal| && logs[t][k].value == goal[logs[t][k].addr]
  }

  ghost predicate Touched<T>(logs: seq<Log<T>>, a: nat)
  {
    exists t, k :: 0 <= t < |logs| && 0 <= k < |logs[t]| && logs[t][k].addr == a
  }

  /** Runs the stores of a team in the order the schedule picks the threads. */
  method Replay<T>(mem: array<T>, logs: seq<Log<T>>, schedule: seq<nat>, ghost goal: seq<T>)
    requires |goal| == mem.Length && Agrees(logs, goal) && Finishes(schedule, logs)
    modifies mem
    ensures forall t, k :: 0 <= t < |logs| && 0 <= k < |logs[t]| ==> mem[logs[t][k].addr] == logs[t][k].value
    ensures forall a :: 0 <= a < mem.Length && !Touched(logs, a) ==> mem[a] == old(mem[a])
  {
    var pc := seq(|logs|, _ => 0);
    for s := 0 to |schedule|
      invariant |pc| == |logs|
      invariant forall t :: 0 <= t < |logs| ==> pc[t] == Picks(schedule[..s], t) <= |logs[t]|
      invariant forall t, k :: 0 <= t < |logs| && 0 <= k < pc[t] ==> mem[logs[t][k].addr] == logs[t][k].value
      invariant forall a :: 0 <= a < mem.Length && !Touched(logs, a) ==> mem[a] == old(mem[a])
    {
      var t := schedule[s];
      PicksStep(schedule, s);
      var w := logs[t][pc[t]];
      assert Touched(logs, w.addr);
      mem[w.addr] := w.value;
      pc := pc[t := pc[t] + 1];
    }
    assert schedule[..|schedule|] == schedule;
  }

  lemma PicksStep(schedule: seq<nat>, s: nat)
    requires s < |schedule|
    ensures forall t: nat :: Picks(schedule[..s + 1], t) == Picks(schedule[..s], t) + if schedule[s] == t then 1 else 0
    ensures forall t: nat :: Picks(schedule[..s + 1], t) <= Picks(schedule, t)
  {
    assert schedule[..s + 1][..s] == schedule[..s];
    forall t: nat
      ensures Picks(schedule[..s + 1], t) <= Picks(schedule, t)
    {
      PicksPrefix(schedule, s + 1, t);
    }
  }

  /** Items stored at their own index. */
  function Same(): nat -> nat { i => i }

  /** The stores of the items `[lo, hi)` in order; item `i` goes to address `at(i)`. */
  ghost predicate Covers<T>(log: Log<T>, lo: nat, hi: nat, at: nat -> nat, goal: seq<T>)
  {
    && lo <= hi && |log| == hi - lo
    && forall k :: 0 <= k < |log| ==> Stores(log[k], at(lo + k), goal)
  }

  ghost predicate Stores<T>(w: Write<T>, a: nat, goal: seq<T>)
  {
    w.addr == a < |goal| && w.value == goal[a]
  }

  lemma CoversMore<T>(log: Log<T>, lo: nat, hi: nat, at: nat -> nat, goal: seq<T>)
    requires Covers(log, lo, hi, at, goal) && at(hi) < |goal|
    ensures Covers(log + [Write(at(hi), goal[at(hi)])], lo, hi + 1, at, goal)
  {
    var more := log + [Write(at(hi), goal[at(hi)])];
    forall k | 0 <= k < |more|
      ensures Stores(more[k], at(lo + k), goal)
    {
      if k < |log| {
        assert more[k] == log[k];
      } else {
        assert lo + k == hi;
      }
    }
  }

  /** A schedule that picks every thread once per item of its share. */
  ghost predicate Fair(schedule: seq<nat>, cuts: seq<nat>)
  {
    && |cuts| > 0
    && (forall s :: 0 <= s < |schedule| ==> schedule[s] < |cuts| - 1)
    && (forall t :: 0 <= t < |cuts| - 1 ==> cuts[t] + Picks(schedule, t) == cuts[t + 1])
  }

  /** One log per share. */
  ghost predicate Shares<T>(logs: seq<Log<T>>, cuts: seq<nat>, at: nat -> nat, goal: seq<T>)
  {
    |cuts| == |logs| + 1 && forall t :: 0 <= t < |logs| ==> Covers(logs[t], cuts[t], cuts[t + 1], at, goal)
  }

  /** Every item is stored by exactly one thread at exactly one of its steps. */
  lemma ExactlyOnce<T>(logs: seq<Log<T>>, cuts: seq<nat>, at: nat -> nat, goal: seq<T>, n: nat, i: nat)
    requires Cuts(cuts, n) && Shares(logs, cuts, at, goal) && i < n
    requires forall x: nat, y: nat :: x < n && y < n && at(x) == at(y) ==> x == y
    ensures exists t, k :: 0 <= t < |logs| && 0 <= k < |logs[t]| && logs[t][k].addr == at(i)
    ensures forall t, k, t', k' ::
              && 0 <= t < |logs| && 0 <= k < |logs[t]| && logs[t][k].addr == at(i)
              && 0 <= t' < |logs| && 0 <= k' < |logs[t']| && logs[t'][k'].addr == at(i)
              ==> t == t' && k == k'
  {
    var o := Owner(cuts, n, i, |cuts| - 1);
    assert logs[o][i - cuts[o]].addr == at(i);
    forall t, k | 0 <= t < |logs| && 0 <= k < |logs[t]| && logs[t][k].addr == at(i)
      ensures t == o && k == i - cuts[o]
    {
      CutsMonotone(cuts, n, t + 1, |cuts| - 1);
      assert cuts[t] + k == i;
      if t < o {
        CutsMonotone(cuts, n, t + 1, o);
      } else if o < t {
        CutsMonotone(cuts, n, o + 1, t);
      }
    }
  }

  lemma SharesAgree<T>(logs: seq<Log<T>>, cuts: seq<nat>, at: nat -> nat, goal: seq<T>)
    requires Shares(logs, cuts, at, goal)
    ensures Agrees(logs, goal)
  {
    forall t, k | 0 <= t < |logs| && 0 <= k < |logs[t]|
      ensures logs[t][k].addr < |goal| && logs[t][k].value == goal[logs[t][k].addr]
    {
      assert Covers(logs[t], cuts[t], cuts[t + 1], at, goal);
    }
  }

  /**
   Any interleaving of a team's stores leaves the goal value at every item's
   address and leaves every other address alone.
   */
  method RunTeam<T>(mem: array<T>, logs: seq<Log<T>>, schedule: seq<nat>,
                    ghost cuts: seq<nat>, ghost n: nat, ghost at: nat -> nat, ghost goal: seq<T>)
    requires |goal| == mem.Length && Cuts(cuts, n) && Shares(logs, cuts, at, goal)
    requires Fair(schedule, cuts)
    requires forall a :: 0 <= a < mem.Length && (forall i: nat :: i < n ==> at(i) != a) ==> goal[a] == mem[a]
    modifies mem
    ensures mem[..] == goal
  {
    SharesAgree(logs, cuts, at, goal);
    forall t | 0 <= t < |logs|
      ensures Picks(schedule, t) == |logs[t]|
    {
      assert Covers(logs[t], cuts[t], cuts[t + 1], at, goal);
    }
    Replay(mem, logs, schedule, goal);
    forall a | 0 <= a < mem.Length
      ensures mem[a] == goal[a]
    {
      if Touched(logs, a) {
        var t, k :| 0 <= t < |logs| && 0 <= k < |logs[t]| && logs[t][k].addr == a;
        assert mem[a] == logs[t][k].value;
      } else {
        forall i: nat | i < n
          ensures at(i) != a
        {
          var o := Owner(cuts, n, i, |cuts| - 1);
          assert logs[o][i - cuts[o]].addr == at(i);
        }
      }
    }
  }
}
