/** The write-once snapshot protocol: any number of runs race for one name, step by step. */
module Snapshots {
  /** One file, marked with the run that wrote it. */
  datatype File = File(run: nat, data: nat)

  /** A directory, or nothing under that name. */
  datatype Directory = Absent | Present(files: seq<File>)

  // ---------- one run on its own ----------

  datatype Result = Done | Dirty | FinalExists | PartialExists | AlreadyCommitted | PartialMissing

  /** The two names a snapshot can have on disk. */
  class Disk {
    var final: Directory
    var partial: Directory

    constructor (final: Directory, partial: Directory)
      ensures this.final == final && this.partial == partial
    {
      this.final, this.partial := final, partial;
    }

    /** Refuses a dirty tree unless it is allowed, then any name that is taken. */
    method Check(dirty: bool, allowDirty: bool) returns (r: Result)
      ensures r == if dirty && !allowDirty then Dirty
                   else if final.Present? then FinalExists
                   else if partial.Present? then PartialExists
                   else Done
    {
      if dirty && !allowDirty {
        return Dirty;
      }
      if final.Present? {
        return FinalExists;
      }
      if partial.Present? {
        return PartialExists;
      }
      r := Done;
    }

    /** Applies the checks, then reserves an empty partial directory. */
    method Create(dirty: bool, allowDirty: bool) returns (r: Result, snapshot: Snapshot?)
      modifies this
      ensures final == old(final)
      ensures r == Done <==> (!dirty || allowDirty) && old(final) == Absent && old(partial) == Absent
      ensures r == Done ==> partial == Present([]) && snapshot != null && fresh(snapshot)
                            && snapshot.disk == this && !snapshot.committed
      ensures r != Done ==> partial == old(partial) && snapshot == null
    {
      r := Check(dirty, allowDirty);
      if r != Done {
        return r, null;
      }
      partial := Present([]);
      snapshot := new Snapshot(this);
    }
  }

  class Snapshot {
    const disk: Disk
    var committed: bool

    constructor (disk: Disk)
      ensures this.disk == disk && !committed
    {
      this.disk, committed := disk, false;
    }

    /** Publishes the partial directory once, never over an existing snapshot. */
    method Commit() returns (r: Result)
      modifies this, disk
      ensures r == if old(committed) then AlreadyCommitted
                   else if old(disk.final).Present? then FinalExists
                   else if old(disk.partial) == Absent then PartialMissing
                   else Done
      ensures committed == (old(committed) || r == Done)
      ensures disk.final == if r == Done then old(disk.partial) else old(disk.final)
      ensures disk.partial == if r == Done then Absent else old(disk.partial)
    {
      if committed {
        return AlreadyCommitted;
      }
      if disk.final.Present? {
        return FinalExists;
      }
      if disk.partial == Absent {
        return PartialMissing;
      }
      disk.final := disk.partial;
      disk.partial := Absent;
      committed := true;
      r := Done;
    }
  }

  // ---------- many runs, one step at a time ----------

  /** How far a run has come. */
  datatype Stage =
    | Starting
    | SawNoFinal       // the first existence check passed
    | SawNeither       // both existence checks passed
    | Owning           // the partial directory was created by this run
    | SawCommitClear   // the existence check inside commit passed
    | Published
    | Refused
    | Crashed

  predicate Live(s: Stage) { s == Owning || s == SawCommitClear }

  datatype State = State(final: Directory, partial: Directory, stages: map<nat, Stage>)

  function StageOf(s: State, run: nat): Stage { if run in s.stages then s.stages[run] else Starting }

  /** Nothing under this name yet; whatever earlier runs left behind is reached by their own steps. */
  predicate Initial(s: State)
  {
    s.final == Absent && s.partial == Absent && s.stages == map[]
  }

  /** One atomic step of one run: the next call it makes, one more file, or a crash. */
  datatype Event = Advance(run: nat) | WriteFile(run: nat, data: nat) | Crash(run: nat)

  function Moved(s: State, run: nat, stage: Stage): State { s.(stages := s.stages[run := stage]) }

  /**
   What a step does. Renaming is taken at its worst: it would overwrite a final
   directory if one were there.
   */
  function Next(s: State, e: Event): State
  {
    match e
    case Crash(run) =>
      if StageOf(s, run) == Published then s else Moved(s, run, Crashed)
    case WriteFile(run, data) =>
      if StageOf(s, run) == Owning && s.partial.Present?
      then s.(partial := Present(s.partial.files + [File(run, data)])) else s
    case Advance(run) =>
      match StageOf(s, run)
      case Starting => Moved(s, run, if s.final.Present? then Refused else SawNoFinal)
      case SawNoFinal => Moved(s, run, if s.partial.Present? then Refused else SawNeither)
      case SawNeither =>
        if s.partial.Present? then Moved(s, run, Refused)
        else Moved(s, run, Owning).(partial := Present([]))
      case Owning => Moved(s, run, if s.final.Present? then Refused else SawCommitClear)
      case SawCommitClear => Moved(s, run, Published).(final := s.partial, partial := Absent)
      case _ => s
  }

  function Exec(s: State, events: seq<Event>): State
  {
    if events == [] then s else Next(Exec(s, events[..|events| - 1]), events[|events| - 1])
  }

  lemma {:induction false} ExecAppend(s: State, a: seq<Event>, b: seq<Event>)
    ensures Exec(s, a + b) == Exec(Exec(s, a), b)
    decreases |b|
  {
    if b == [] {
      assert a + b == a;
    } else {
      assert (a + b)[..|a + b| - 1] == a + b[..|b| - 1];
      ExecAppend(s, a, b[..|b| - 1]);
    }
  }

  ghost predicate WrittenBy(d: Directory, run: nat)
  {
    d.Present? ==> forall k :: 0 <= k < |d.files| ==> d.files[k].run == run
  }

  /** At most one run owns the partial directory, and everything in it is its own. */
  ghost predicate OneOwner(s: State)
  {
    && (forall r: nat, q: nat :: Live(StageOf(s, r)) && Live(StageOf(s, q)) ==> r == q)
    && (forall r: nat :: Live(StageOf(s, r)) ==> s.partial.Present? && WrittenBy(s.partial, r))
  }

  /** A run about to rename finds no final directory. */
  ghost predicate ClearToRename(s: State)
  {
    forall r: nat :: StageOf(s, r) == SawCommitClear ==> s.final == Absent
  }

  /** The final directory is the work of the one run that published. */
  ghost predicate OnePublisher(s: State)
  {
    && (s.final.Present? <==> exists r: nat :: StageOf(s, r) == Published)
    && (forall r: nat, q: nat :: StageOf(s, r) == Published && StageOf(s, q) == Published ==> r == q)
    && (forall r: nat :: StageOf(s, r) == Published ==> WrittenBy(s.final, r))
  }

  /** What every interleaving keeps. */
  ghost predicate Safe(s: State)
  {
    OneOwner(s) && ClearToRename(s) && OnePublisher(s)
  }

  lemma OthersStay(s: State, e: Event, r: nat)
    ensures r != e.run ==> StageOf(Next(s, e), r) == StageOf(s, r)
  {
  }

  lemma StepKeepsOwner(s: State, e: Event)
    requires Safe(s)
    ensures OneOwner(Next(s, e))
  {
    var t := Next(s, e);
    forall r: nat | Live(StageOf(t, r))
      ensures t.partial.Present? && WrittenBy(t.partial, r)
      ensures forall q: nat :: Live(StageOf(t, q)) ==> r == q
    {
      OthersStay(s, e, r);
      assert Live(StageOf(s, r)) || (r == e.run && StageOf(s, r) == SawNeither && s.partial == Absent);
      forall q: nat | Live(StageOf(t, q))
        ensures r == q
      {
        OthersStay(s, e, q);
        assert Live(StageOf(s, q)) || (q == e.run && StageOf(s, q) == SawNeither && s.partial == Absent);
      }
    }
  }

  lemma StepKeepsClear(s: State, e: Event)
    requires Safe(s)
    ensures ClearToRename(Next(s, e))
  {
    var t := Next(s, e);
    forall r: nat | StageOf(t, r) == SawCommitClear
      ensures t.final == Absent
    {
      OthersStay(s, e, r);
      if StageOf(s, e.run) == SawCommitClear && e.Advance? {
        assert Live(StageOf(s, r)) && Live(StageOf(s, e.run));
      }
    }
  }

  lemma StepKeepsPublisher(s: State, e: Event)
    requires Safe(s)
    ensures OnePublisher(Next(s, e))
    ensures s.final.Present? ==> Next(s, e).final == s.final
  {
    var t := Next(s, e);
    if e.Advance? && StageOf(s, e.run) == SawCommitClear {
      assert StageOf(t, e.run) == Published;
      forall r: nat | StageOf(t, r) == Published
        ensures r == e.run
      {
        OthersStay(s, e, r);
        assert StageOf(s, r) == Published ==> s.final.Present?;
      }
    } else {
      forall r: nat
        ensures StageOf(t, r) == Published <==> StageOf(s, r) == Published
      {
        OthersStay(s, e, r);
      }
      assert t.final == s.final;
    }
  }

  lemma StepKeepsSafe(s: State, e: Event)
    requires Safe(s)
    ensures Safe(Next(s, e))
    ensures s.final.Present? ==> Next(s, e).final == s.final
  {
    StepKeepsOwner(s, e);
    StepKeepsClear(s, e);
    StepKeepsPublisher(s, e);
    hide *;
  }

  /** Every state that any interleaving of any number of runs can reach is safe. */
  lemma {:induction false} ReachableSafe(s: State, events: seq<Event>)
    requires Initial(s)
    ensures Safe(Exec(s, events))
    decreases |events|
  {
    if events == [] {
      assert Safe(s);
    } else {
      ReachableSafe(s, events[..|events| - 1]);
      StepKeepsSafe(Exec(s, events[..|events| - 1]), events[|events| - 1]);
    }
  }

  /** A published snapshot never changes again, whatever happens afterwards. */
  lemma {:induction false} FinalIsForever(s: State, before: seq<Event>, after: seq<Event>)
    requires Initial(s) && Exec(s, before).final.Present?
    ensures Exec(s, before + after).final == Exec(s, before).final
    decreases |after|
  {
    if after == [] {
      assert before + after == before;
    } else {
      var n := |after| - 1;
      FinalIsForever(s, before, after[..n]);
      ReachableSafe(s, before + after[..n]);
      StepKeepsSafe(Exec(s, before + after[..n]), after[n]);
      assert (before + after)[..|before + after| - 1] == before + after[..n];
    }
  }

  /** No run owns the partial directory and none can get it: the name is stuck. */
  ghost predicate Abandoned(s: State)
  {
    s.partial.Present? && forall r: nat :: !Live(StageOf(s, r))
  }

  lemma StepKeepsAbandoned(s: State, e: Event)
    requires Abandoned(s)
    ensures Abandoned(Next(s, e)) && Next(s, e).partial == s.partial && Next(s, e).final == s.final
  {
    var t := Next(s, e);
    forall r: nat
      ensures !Live(StageOf(t, r))
    {
      assert !Live(StageOf(s, r));
    }
  }

  lemma {:induction false} AbandonedForever(b: State, after: seq<Event>)
    requires Abandoned(b)
    ensures Abandoned(Exec(b, after)) && Exec(b, after).partial == b.partial && Exec(b, after).final == b.final
    decreases |after|
  {
    if after != [] {
      AbandonedForever(b, after[..|after| - 1]);
      StepKeepsAbandoned(Exec(b, after[..|after| - 1]), after[|after| - 1]);
    }
  }

  /** A run that crashes while it owns the partial directory blocks the name for good: nothing is published later. */
  lemma CrashBlocksName(s: State, before: seq<Event>, run: nat, after: seq<Event>)
    requires Initial(s) && Live(StageOf(Exec(s, before), run))
    ensures var crashed := Exec(s, before + [Crash(run)]);
            Abandoned(Exec(crashed, after)) && Exec(crashed, after).final == crashed.final == Exec(s, before).final
            && Exec(crashed, after).partial == Exec(s, before).partial
  {
    ExecAppend(s, before, [Crash(run)]);
    var b := Exec(s, before);
    var crashed := Exec(s, before + [Crash(run)]);
    assert Exec(b, [Crash(run)]) == Next(b, Crash(run)) by {
      assert [Crash(run)][..0] == [];
    }
    ReachableSafe(s, before);
    forall r: nat
      ensures !Live(StageOf(crashed, r))
    {
      assert Live(StageOf(b, r)) ==> r == run;
    }
    AbandonedForever(crashed, after);
  }

  /** The state after the first run published while the second held stale checks and then reserved. */
  function StaleState(): State
  {
    State(Present([]), Present([]), map[0 := Published, 1 := Owning])
  }

  /**
   The checks before the reservation are not enough by themselves: a run whose
   checks went through before another run published can still become the owner of
   a new partial directory. Only the check inside commit stops it.
   */
  lemma StaleCheckCanOwn(s: State)
    requires Initial(s)
    ensures Exec(s, [Advance(0), Advance(0), Advance(1), Advance(1), Advance(0), Advance(0), Advance(0), Advance(1)])
            == StaleState()
    ensures StageOf(StaleState(), 1) == Owning && StaleState().final.Present?
  {
    var a, b := Advance(0), Advance(1);
    BothChecked(s);
    FirstPublishes(BothCheckedState());
    hide *;
    ExecAppend(s, [a, a, b, b], [a, a, a, b]);
    assert [a, a, b, b, a, a, a, b] == [a, a, b, b] + [a, a, a, b];
  }

  function BothCheckedState(): State { State(Absent, Absent, map[0 := SawNeither, 1 := SawNeither]) }

  lemma BothChecked(s: State)
    requires Initial(s)
    ensures Exec(s, [Advance(0), Advance(0), Advance(1), Advance(1)]) == BothCheckedState()
  {
    var a, b := Advance(0), Advance(1);
    ExecTwo(s, a, a);
    var t := State(Absent, Absent, map[0 := SawNeither]);
    assert Exec(s, [a, a]) == t;
    ExecTwo(t, b, b);
    hide Exec;
    ExecAppend(s, [a, a], [b, b]);
    assert [a, a, b, b] == [a, a] + [b, b];
  }

  lemma FirstPublishes(s: State)
    requires s == BothCheckedState()
    ensures Exec(s, [Advance(0), Advance(0), Advance(0), Advance(1)]) == StaleState()
  {
    var a, b := Advance(0), Advance(1);
    ExecTwo(s, a, a);
    var t := State(Absent, Present([]), map[0 := SawCommitClear, 1 := SawNeither]);
    assert Exec(s, [a, a]) == t;
    ExecTwo(t, a, b);
    hide Exec;
    ExecAppend(s, [a, a], [a, b]);
    assert [a, a, a, b] == [a, a] + [a, b];
  }

  /** Such a late owner is refused at its commit and leaves the published snapshot alone. */
  lemma LateOwnerRefused(s: State, before: seq<Event>, run: nat)
    requires Initial(s) && Exec(s, before).final.Present? && Live(StageOf(Exec(s, before), run))
    ensures StageOf(Exec(s, before), run) == Owning
    ensures StageOf(Next(Exec(s, before), Advance(run)), run) == Refused
    ensures Next(Exec(s, before), Advance(run)).final == Exec(s, before).final
  {
    ReachableSafe(s, before);
  }

  /** Beside a published snapshot: the run owns already, or it holds passed checks and the partial name is free. */
  predicate LateOwner(s: State, run: nat)
  {
    StageOf(s, run) == Owning || (s.partial == Absent && StageOf(s, run) in {SawNoFinal, SawNeither})
  }

  lemma StepKeepsShut(s: State, e: Event, run: nat)
    requires Safe(s) && s.final.Present? && !LateOwner(s, run)
    ensures !LateOwner(Next(s, e), run)
  {
    assert StageOf(s, e.run) != SawCommitClear;
    OthersStay(s, e, run);
  }

  lemma {:induction false} StaysShut(s: State, before: seq<Event>, run: nat, after: seq<Event>)
    requires Initial(s) && Exec(s, before).final.Present? && !LateOwner(Exec(s, before), run)
    ensures !LateOwner(Exec(Exec(s, before), after), run)
    decreases |after|
  {
    if after != [] {
      var n := |after| - 1;
      StaysShut(s, before, run, after[..n]);
      FinalIsForever(s, before, after[..n]);
      ExecAppend(s, before, after[..n]);
      ReachableSafe(s, before + after[..n]);
      StepKeepsShut(Exec(s, before + after[..n]), after[n], run);
    }
  }

  /**
   Exactly when a run can come to own a partial directory beside a published
   snapshot. `StaleCheckCanOwn` is one history in which it does.
   */
  lemma LateOwnerIff(s: State, before: seq<Event>, run: nat)
    requires Initial(s) && Exec(s, before).final.Present?
    ensures (exists after :: StageOf(Exec(Exec(s, before), after), run) == Owning) <==> LateOwner(Exec(s, before), run)
  {
    var b := Exec(s, before);
    if LateOwner(b, run) {
      OwnsSoon(b, run);
    } else {
      forall after: seq<Event>
        ensures StageOf(Exec(b, after), run) != Owning
      {
        StaysShut(s, before, run, after);
      }
    }
  }

  lemma OwnsSoon(b: State, run: nat)
    requires LateOwner(b, run)
    ensures exists after :: StageOf(Exec(b, after), run) == Owning
  {
    var a := Advance(run);
    ExecOne(b, a);
    ExecTwo(b, a, a);
    var after := if StageOf(b, run) == Owning then [] else if StageOf(b, run) == SawNeither then [a] else [a, a];
    assert StageOf(Exec(b, after), run) == Owning;
  }

  // ---------- exactly when a name can still be published ----------

  /** A run number that has not been used. */
  ghost function Unused(used: set<nat>): (bound: nat)
    ensures forall r :: r in used ==> r < bound
  {
    if used == {} then 0
    else
      var r :| r in used;
      var rest := Unused(used - {r});
      assert used == (used - {r}) + {r};
      if r < rest then rest else r + 1
  }

  /** A live run only has to look again and rename. */
  lemma OwnerPublishes(b: State, run: nat) returns (after: seq<Event>)
    requires Safe(b) && b.final == Absent && Live(StageOf(b, run))
    ensures Exec(b, after).final.Present?
  {
    var a := Advance(run);
    ExecOne(b, a);
    ExecTwo(b, a, a);
    after := if StageOf(b, run) == Owning then [a, a] else [a];
  }

  /** With both names free a run that has not started yet can reserve. */
  lemma NewcomerOwns(b: State)
    requires b.final == Absent && b.partial == Absent
    ensures var a := Advance(Unused(b.stages.Keys));
            Exec(b, [a, a] + [a]).final == Absent && Live(StageOf(Exec(b, [a, a] + [a]), a.run))
  {
    var a := Advance(Unused(b.stages.Keys));
    assert StageOf(b, a.run) == Starting;
    ExecTwo(b, a, a);
    ExecAppend(b, [a, a], [a]);
    ExecOne(Exec(b, [a, a]), a);
  }

  /** An unpublished name can still be published exactly when it is not stuck with an ownerless partial directory. */
  lemma PublishableIff(s: State, before: seq<Event>)
    requires Initial(s) && Exec(s, before).final == Absent
    ensures (exists after :: Exec(Exec(s, before), after).final.Present?) <==> !Abandoned(Exec(s, before))
  {
    var b := Exec(s, before);
    ReachableSafe(s, before);
    if Abandoned(b) {
      forall after: seq<Event>
        ensures Exec(b, after).final == Absent
      {
        AbandonedForever(b, after);
      }
    } else if run: nat :| Live(StageOf(b, run)) {
      var after := OwnerPublishes(b, run);
    } else {
      var after := NewcomerPublishes(s, before);
    }
  }

  lemma NewcomerPublishes(s: State, before: seq<Event>) returns (after: seq<Event>)
    requires Initial(s) && Exec(s, before).final == Absent && Exec(s, before).partial == Absent
    ensures Exec(Exec(s, before), after).final.Present?
  {
    var b := Exec(s, before);
    var a := Advance(Unused(b.stages.Keys));
    NewcomerOwns(b);
    hide *;
    var first := [a, a] + [a];
    ExecAppend(s, before, first);
    ReachableSafe(s, before + first);
    var last := OwnerPublishes(Exec(b, first), a.run);
    ExecAppend(b, first, last);
    after := first + last;
  }

  // ---------- a run that nobody disturbs ----------

  function Writes(run: nat, data: seq<nat>): (w: seq<Event>)
    ensures |w| == |data|
  {
    seq(|data|, k requires 0 <= k < |data| => WriteFile(run, data[k]))
  }

  function FilesOf(run: nat, data: seq<nat>): (f: seq<File>)
    ensures |f| == |data|
  {
    seq(|data|, k requires 0 <= k < |data| => File(run, data[k]))
  }

  lemma {:induction false} WritesAccumulate(s: State, run: nat, data: seq<nat>)
    requires StageOf(s, run) == Owning && s.partial == Present([])
    ensures Exec(s, Writes(run, data)) == s.(partial := Present(FilesOf(run, data)))
    decreases |data|
  {
    if data == [] {
      assert FilesOf(run, data) == [];
    } else {
      var n := |data| - 1;
      WritesAccumulate(s, run, data[..n]);
      assert Writes(run, data)[..n] == Writes(run, data[..n]);
      assert FilesOf(run, data) == FilesOf(run, data[..n]) + [File(run, data[n])];
    }
  }

  /** Left alone, a run publishes exactly the files it wrote, in order, and leaves no partial directory. */
  lemma AloneSucceeds(s: State, run: nat, data: seq<nat>)
    requires Initial(s)
    ensures var a := Advance(run);
            Exec(s, [a, a] + [a] + Writes(run, data) + [a, a])
            == State(Present(FilesOf(run, data)), Absent, map[run := Published])
  {
    var a := Advance(run);
    hide FilesOf, Writes;
    ExecTwo(s, a, a);
    var s2 := Next(Next(s, a), a);
    ExecAppend(s, [a, a], [a]);
    ExecOne(s2, a);
    var s3 := Next(s2, a);
    assert s3 == State(Absent, Present([]), map[run := Owning]);
    ExecAppend(s, [a, a] + [a], Writes(run, data));
    WritesAccumulate(s3, run, data);
    var s4 := s3.(partial := Present(FilesOf(run, data)));
    ExecAppend(s, [a, a] + [a] + Writes(run, data), [a, a]);
    ExecTwo(s4, a, a);
  }

  lemma ExecOne(s: State, a: Event)
    ensures Exec(s, [a]) == Next(s, a)
  {
    assert [a][..0] == [];
  }

  lemma ExecTwo(s: State, a: Event, b: Event)
    ensures Exec(s, [a, b]) == Next(Next(s, a), b)
  {
    ExecOne(s, a);
    assert [a, b][..1] == [a];
  }
}
