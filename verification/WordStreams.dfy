/** The random word array, generated serially, by a team in chunks, and by a grid-stride kernel. */
module WordStreams {
  import opened Words
  import opened Team
  import opened Philox

  const LANES := 4
  const CHUNK := 64

  /** 4-byte words that fit in memory. */
  predicate Fits(n: nat) { 4 * n < TWO_64 }

  function Lane(c: Counter, lane: nat): u32
  {
    if lane == 0 then c.c0 else if lane == 1 then c.c1 else if lane == 2 then c.c2 else c.c3
  }

  /** Word `i` depends only on the stream and on `i`. */
  function Word(s: Stream, i: u64): u32
  {
    Lane(GroupBlock(s, i / LANES), i % LANES)
  }

  function WordsUpTo(s: Stream, n: nat): (r: seq<u32>)
    requires n <= TWO_64
    ensures |r| == n && forall i :: 0 <= i < n ==> r[i] == Word(s, i)
  {
    seq(n, i requires 0 <= i < n => Word(s, i))
  }

  /**
   Word `i` is word `i mod 4` of the block whose 128-bit counter is `i div 4` and the
   two identifiers above it, and whose 64-bit key is the seed.
   */
  lemma WordOfNumber(s: Stream, n: nat, i: nat, c: Counter, k: Key)
    requires i < n <= TWO_64
    requires CounterNumber(c) == i / 4 + TWO_64 * s.tensor + TWO_96 * s.invocation && KeyNumber(k) == s.seed
    ensures var b := Block(c, k);
            WordsUpTo(s, n)[i] == [b.c0, b.c1, b.c2, b.c3][i % 4]
  {
    hide Block, GroupBlock, CounterNumber, KeyNumber;
    BlockOfNumber(s, i / 4, c, k);
  }

  // ---------- serial ----------

  lemma WordOf(s: Stream, g: nat, lane: nat)
    requires lane < LANES && LANES * g + lane < TWO_64
    ensures Word(s, LANES * g + lane) == Lane(GroupBlock(s, g), lane)
  {
    hide GroupBlock;
    assert (4 * g + lane) / 4 == g && (4 * g + lane) % 4 == lane;
  }

  /** `stores` lists the indices that are written, in order. */
  method WordsSerial(s: Stream, n: nat, out: array<u32>) returns (ghost stores: seq<nat>)
    requires n <= out.Length && n < TWO_64
    modifies out
    ensures out[..] == WordsUpTo(s, n) + old(out[n..])
    ensures |stores| == n && forall i :: 0 <= i < n ==> stores[i] == i
  {
    stores := [];
    hide Rounds, Word, WordsUpTo;
    var key := StreamKey(s);
    var i := 0;
    ghost var g := 0;
    while i < n
      invariant i <= n && (i == n || i == LANES * g)
      invariant |stores| == i && forall j :: 0 <= j < i ==> stores[j] == j
      invariant forall j :: 0 <= j < i ==> out[j] == Word(s, j)
      invariant forall j :: i <= j < out.Length ==> out[j] == old(out[j])
    {
      assert i / LANES == g;
      var r := Rounds(StreamCounter(s, i / LANES), key, ROUNDS);
      GroupWords(s, g, r);
      out[i] := r.c0;
      stores := stores + [i];
      i := i + 1;
      if i < n {
        out[i] := r.c1;
        stores := stores + [i];
        i := i + 1;
      }
      if i < n {
        out[i] := r.c2;
        stores := stores + [i];
        i := i + 1;
      }
      if i < n {
        out[i] := r.c3;
        stores := stores + [i];
        i := i + 1;
      }
      g := g + 1;
    }
  }

  /** The four words of a group, in order. */
  lemma GroupWords(s: Stream, g: nat, r: Counter)
    requires LANES * g < TWO_64 && r == Rounds(StreamCounter(s, g), StreamKey(s), ROUNDS)
    ensures Word(s, LANES * g) == r.c0
    ensures LANES * g + 1 < TWO_64 ==> Word(s, LANES * g + 1) == r.c1
    ensures LANES * g + 2 < TWO_64 ==> Word(s, LANES * g + 2) == r.c2
    ensures LANES * g + 3 < TWO_64 ==> Word(s, LANES * g + 3) == r.c3
  {
    hide Rounds, Word;
    WordOf(s, g, 0);
    if LANES * g + 1 < TWO_64 { WordOf(s, g, 1); }
    if LANES * g + 2 < TWO_64 { WordOf(s, g, 2); }
    if LANES * g + 3 < TWO_64 { WordOf(s, g, 3); }
  }

  // ---------- one chunk: a lane per group ----------

  /** The four lane arrays of a chunk. */
  datatype Lanes = Lanes(c0: array<u32>, c1: array<u32>, c2: array<u32>, c3: array<u32>)

  ghost predicate Distinct(l: Lanes)
  {
    && l.c0.Length == l.c1.Length == l.c2.Length == l.c3.Length == CHUNK
    && l.c0 != l.c1 && l.c0 != l.c2 && l.c0 != l.c3 && l.c1 != l.c2 && l.c1 != l.c3 && l.c2 != l.c3
  }

  ghost function At(l: Lanes, j: nat): Counter
    requires Distinct(l) && j < CHUNK
    reads l.c0, l.c1, l.c2, l.c3
  {
    Counter(l.c0[j], l.c1[j], l.c2[j], l.c3[j])
  }

  /** Lanes `[from, to)` are `r` rounds into their group's block. */
  ghost predicate Advanced(l: Lanes, s: Stream, first: nat, from: nat, to: nat, r: nat)
    requires Distinct(l) && to <= CHUNK && first + CHUNK <= TWO_64
    reads l.c0, l.c1, l.c2, l.c3
  {
    forall j {:trigger At(l, j)} :: from <= j < to ==> At(l, j) == Rounds(StreamCounter(s, first + j), StreamKey(s), r)
  }

  method LoadCounters(s: Stream, first: nat, l: Lanes)
    requires Distinct(l) && first + CHUNK <= TWO_64
    modifies l.c0, l.c1, l.c2, l.c3
    ensures Advanced(l, s, first, 0, CHUNK, 0)
  {
    for j := 0 to CHUNK
      invariant Advanced(l, s, first, 0, j, 0)
    {
      label start:
      var group := first + j;
      l.c0[j] := Low(group);
      l.c1[j] := High(group);
      l.c2[j] := s.tensor;
      l.c3[j] := s.invocation;
      assert At(l, j) == Rounds(StreamCounter(s, first + j), StreamKey(s), 0);
      assert forall k {:trigger At(l, k)} :: 0 <= k < CHUNK && k != j ==> At(l, k) == old@start(At(l, k));
    }
  }

  /** One round on every lane, with the direct round key. */
  method RoundOnLanes(ghost s: Stream, ghost first: nat, l: Lanes, ghost r: nat, ka: u32, kb: u32)
    requires Distinct(l) && first + CHUNK <= TWO_64 && Advanced(l, s, first, 0, CHUNK, r)
    requires Key(ka, kb) == RoundKey(StreamKey(s), r)
    modifies l.c0, l.c1, l.c2, l.c3
    ensures Advanced(l, s, first, 0, CHUNK, r + 1)
  {
    hide Xor32, RoundKey;
    for j := 0 to CHUNK
      invariant Advanced(l, s, first, 0, j, r + 1)
      invariant Advanced(l, s, first, j, CHUNK, r)
    {
      ghost var before := At(l, j);
      label start:
      var p0, p1 := M0 * l.c0[j], M1 * l.c2[j];
      ProductHigh(M0, l.c0[j]);
      ProductHigh(M1, l.c2[j]);
      var n0 := Xor32(Xor32(High(p1), l.c1[j]), ka);
      var n2 := Xor32(Xor32(High(p0), l.c3[j]), kb);
      l.c1[j] := Low(p1);
      l.c3[j] := Low(p0);
      l.c0[j] := n0;
      l.c2[j] := n2;
      assert At(l, j) == Round(before, Key(ka, kb));
      assert Rounds(StreamCounter(s, first + j), StreamKey(s), r + 1) == Round(before, Key(ka, kb));
      assert forall k {:trigger At(l, k)} :: 0 <= k < CHUNK && k != j ==> At(l, k) == old@start(At(l, k));
    }
  }

  /** The chunk's words, group by group. */
  method Interleave(s: Stream, first: nat, l: Lanes, out: array<u32>)
    requires Distinct(l) && first + CHUNK <= TWO_64 / LANES && Advanced(l, s, first, 0, CHUNK, ROUNDS)
    requires out.Length == LANES * CHUNK && out != l.c0 && out != l.c1 && out != l.c2 && out != l.c3
    modifies out
    ensures forall k :: 0 <= k < LANES * CHUNK ==> out[k] == Word(s, LANES * first + k)
  {
    hide Rounds, Word;
    for j := 0 to CHUNK
      invariant forall k :: 0 <= k < LANES * j ==> out[k] == Word(s, LANES * first + k)
    {
      out[LANES * j] := l.c0[j];
      out[LANES * j + 1] := l.c1[j];
      out[LANES * j + 2] := l.c2[j];
      out[LANES * j + 3] := l.c3[j];
      GroupWords(s, first + j, At(l, j));
    }
  }

  /** Ten rounds for 64 consecutive groups, a lane each. */
  method PhiloxChunk(s: Stream, first: nat) returns (out: array<u32>)
    requires first + CHUNK <= TWO_64 / LANES
    ensures fresh(out) && out.Length == LANES * CHUNK
    ensures forall k :: 0 <= k < LANES * CHUNK ==> out[k] == Word(s, LANES * first + k)
  {
    hide Rounds, Word, RoundKey;
    var c0, c1, c2, c3 := new u32[CHUNK], new u32[CHUNK], new u32[CHUNK], new u32[CHUNK];
    var l := Lanes(c0, c1, c2, c3);
    LoadCounters(s, first, l);
    var key := StreamKey(s);
    for r := 0 to ROUNDS
      invariant Advanced(l, s, first, 0, CHUNK, r)
    {
      KeySchedule(key, r);
      var ka, kb := Low(key.k0 + Low(r * W0)), Low(key.k1 + Low(r * W1));
      RoundOnLanes(s, first, l, r, ka, kb);
    }
    out := new u32[LANES * CHUNK];
    Interleave(s, first, l, out);
  }

  // ---------- the team ----------

  /** The chunk boundary in front of chunk `c`, capped at the word count. */
  function ChunkCut(n: nat, c: nat): nat { Capped(n, c) }

  /** The stores of one chunk: all of it in place, or the live part of a buffer. */
  method StoreChunk(s: Stream, n: nat, c: nat, before: Log<u32>, ghost lo: nat, ghost at: nat -> nat,
                    ghost goal: seq<u32>)
    returns (log: Log<u32>)
    requires Fits(n) && n <= |goal| && BLOCK * c < n
    requires forall i :: 0 <= i < n ==> at(i) == i && goal[i] == Word(s, i)
    requires Covers(before, lo, ChunkCut(n, c), at, goal)
    ensures Covers(log, lo, ChunkCut(n, c + 1), at, goal)
  {
    hide Word, Covers;
    log := before;
    var firstWord := c * BLOCK;
    var buffer := PhiloxChunk(s, c * CHUNK);
    var chunk := buffer[..];
    var live := if firstWord + BLOCK <= n then BLOCK else n - firstWord;
    assert forall k :: 0 <= k < live ==> chunk[k] == goal[firstWord + k] by {
      forall k | 0 <= k < live
        ensures chunk[k] == goal[firstWord + k]
      {
        assert chunk[k] == Word(s, LANES * (c * CHUNK) + k);
      }
    }
    for k := 0 to live
      invariant Covers(log, lo, firstWord + k, at, goal)
    {
      assert at(firstWord + k) == firstWord + k && goal[firstWord + k] == Word(s, firstWord + k);
      ghost var hi := firstWord + k;
      CoversMore(log, lo, hi, at, goal);
      log := log + [Write(firstWord + k, chunk[k])];
    }
  }

  /** One thread's chunks, in order. */
  method WordsOfThread(s: Stream, n: nat, thread: nat, team: nat, ghost at: nat -> nat, ghost goal: seq<u32>)
    returns (log: Log<u32>)
    requires thread < team && Fits(n) && |goal| >= n
    requires forall i :: 0 <= i < n ==> at(i) == i && goal[i] == Word(s, i)
    ensures Covers(log, UnitCut(n, thread, team), UnitCut(n, thread + 1, team), at, goal)
  {
    hide Word;
    log := [];
    var begin, end := Split(Units(n), thread, team);
    ghost var lo := UnitCut(n, thread, team);
    UnitsCover(n, thread, team);
    for c := begin to end
      invariant Covers(log, lo, ChunkCut(n, c), at, goal)
    {
      log := StoreChunk(s, n, c, log, lo, at, goal);
    }
  }

  /** Whole chunks below a share's end start inside the array. */
  lemma UnitsCover(n: nat, t: nat, team: nat)
    requires t < team
    ensures ShareBegin(Units(n), t, team) <= ShareBegin(Units(n), t + 1, team) <= Units(n)
    ensures forall c: nat :: c < Units(n) ==> BLOCK * c < n
  {
    var cuts := ShareCuts(Units(n), team);
    CutsMonotone(cuts, Units(n), t, t + 1);
  }

  method WordLogs(s: Stream, n: nat, team: nat, ghost goal: seq<u32>) returns (logs: seq<Log<u32>>)
    requires Fits(n) && team > 0 && n <= |goal|
    requires forall i :: 0 <= i < n ==> goal[i] == Word(s, i)
    ensures Shares(logs, UnitCuts(n, team), Same(), goal)
  {
    hide Word, Covers, UnitCut;
    logs := [];
    ghost var cuts := UnitCuts(n, team);
    for t := 0 to team
      invariant |logs| == t
      invariant forall i :: 0 <= i < t ==> Covers(logs[i], cuts[i], cuts[i + 1], Same(), goal)
    {
      var log := WordsOfThread(s, n, t, team, Same(), goal);
      logs := logs + [log];
    }
  }

  /** Any team and any interleaving writes the serial words, each once, and nothing past them. */
  method WordsByTeam(s: Stream, n: nat, out: array<u32>, team: nat, schedule: seq<nat>)
    requires n <= out.Length && Fits(n) && team > 0 && Fair(schedule, UnitCuts(n, team))
    modifies out
    ensures out[..] == WordsUpTo(s, n) + old(out[n..])
  {
    hide Word, UnitCut, Fair, Shares, Cuts;
    ghost var goal := WordsUpTo(s, n) + out[n..];
    var logs := WordLogs(s, n, team, goal);
    assert forall a :: 0 <= a < out.Length && (forall i: nat :: i < n ==> Same()(i) != a) ==> goal[a] == out[a] by {
      forall a | 0 <= a < out.Length && (forall i: nat :: i < n ==> Same()(i) != a)
        ensures goal[a] == out[a]
      {
        assert Same()(a) == a;
      }
    }
    RunTeam(out, logs, schedule, UnitCuts(n, team), n, Same(), goal);
  }

  // ---------- grid-stride ----------

  /** The item a grid thread visits at its step `k`. */
  function Stop(t: nat, k: nat, stride: nat): nat { t + k * stride }

  /** How many items below `n` the thread visits. */
  function Visits(n: nat, t: nat, stride: nat): nat
    requires stride > 0
  {
    if t < n then (n - 1 - t) / stride + 1 else 0
  }

  lemma StopNext(t: nat, k: nat, stride: nat)
    ensures Stop(t, k + 1, stride) == Stop(t, k, stride) + stride
    ensures Stop(t, 0, stride) == t
  {
  }

  lemma VisitsAll(n: nat, t: nat, stride: nat, k: nat)
    requires stride > 0
    ensures Stop(t, k, stride) < n <==> k < Visits(n, t, stride)
  {
    if t < n {
      var q := (n - 1 - t) / stride;
      QuotientBounds(n - 1 - t, stride);
      MulOrder(k, q, stride);
    }
  }

  /** Every index below `n` is stored by exactly one grid thread at exactly one of its steps. */
  lemma GridOnce(n: nat, stride: nat, i: nat)
    requires stride > 0 && i < n
    ensures i % stride < stride && i / stride < Visits(n, i % stride, stride)
    ensures Stop(i % stride, i / stride, stride) == i
    ensures forall t: nat, k: nat :: t < stride && Stop(t, k, stride) == i ==> t == i % stride && k == i / stride
  {
    hide Visits;
    QuotientBounds(i, stride);
    VisitsAll(n, i % stride, stride, i / stride);
    forall t: nat, k: nat | t < stride && Stop(t, k, stride) == i
      ensures t == i % stride && k == i / stride
    {
      DivModUnique(i, stride, k, t);
    }
  }

  ghost predicate GridFair(schedule: seq<nat>, n: nat, stride: nat)
    requires stride > 0
  {
    && (forall k :: 0 <= k < |schedule| ==> schedule[k] < stride)
    && (forall t: nat :: t < stride ==> Picks(schedule, t) == Visits(n, t, stride))
  }

  /** The stores of one grid thread. */
  ghost predicate Strided<T>(log: Log<T>, n: nat, t: nat, stride: nat, goal: seq<T>)
    requires stride > 0
  {
    |log| == Visits(n, t, stride) && StridedPrefix(log, n, t, stride, goal)
  }

  ghost predicate StridedPrefix<T>(log: Log<T>, n: nat, t: nat, stride: nat, goal: seq<T>)
  {
    && n <= |goal|
    && forall k :: 0 <= k < |log| ==> Stop(t, k, stride) < n && Stores(log[k], Stop(t, k, stride), goal)
  }

  method WordsOfGridThread(s: Stream, n: nat, t: nat, stride: nat, ghost goal: seq<u32>) returns (log: Log<u32>)
    requires 0 < stride <= MAX_STRIDE && t < stride && Fits(n) && n <= |goal|
    requires forall i :: 0 <= i < n ==> goal[i] == Word(s, i)
    ensures Strided(log, n, t, stride, goal)
  {
    hide Rounds, Word, Visits, Stop;
    log := [];
    var key := StreamKey(s);
    var i := t;
    StopNext(t, 0, stride);
    while i < n
      invariant i == Stop(t, |log|, stride)
      invariant StridedPrefix(log, n, t, stride, goal)
      decreases n + stride - i
    {
      var r := Rounds(StreamCounter(s, i / LANES), key, ROUNDS);
      WordOf(s, i / LANES, i % LANES);
      StopNext(t, |log|, stride);
      log := log + [Write(i, Lane(r, i % LANES))];
      i := (i + stride) % TWO_64;
    }
    StopsHere(n, t, stride, |log|);
  }

  lemma StopsHere(n: nat, t: nat, stride: nat, k: nat)
    requires stride > 0 && Stop(t, k, stride) >= n && (k > 0 ==> Stop(t, k - 1, stride) < n)
    ensures k == Visits(n, t, stride)
  {
    hide Visits;
    VisitsAll(n, t, stride, k);
    if k > 0 {
      VisitsAll(n, t, stride, k - 1);
    }
  }

  // The largest launch a device accepts: 2^31 - 1 blocks of 1024 threads.
  const MAX_STRIDE := 0x7FFF_FFFF * 1024

  /** Any interleaving of a grid's threads leaves the goal in `[0, n)` and nothing else changed. */
  method RunGrid<T>(mem: array<T>, logs: seq<Log<T>>, schedule: seq<nat>, ghost n: nat, ghost goal: seq<T>)
    requires |logs| > 0 && |goal| == mem.Length && n <= mem.Length && GridFair(schedule, n, |logs|)
    requires forall t :: 0 <= t < |logs| ==> Strided(logs[t], n, t, |logs|, goal)
    requires forall a :: n <= a < mem.Length ==> goal[a] == mem[a]
    modifies mem
    ensures mem[..] == goal
  {
    hide Visits, Stop;
    GridAgrees(logs, schedule, n, goal);
    Replay(mem, logs, schedule, goal);
    forall a | 0 <= a < mem.Length
      ensures mem[a] == goal[a]
    {
      if a < n {
        GridOnce(n, |logs|, a);
        var t, k := a % |logs|, a / |logs|;
        assert Strided(logs[t], n, t, |logs|, goal);
        assert logs[t][k].addr == a;
      } else {
        assert !Touched(logs, a) by {
          forall t, k | 0 <= t < |logs| && 0 <= k < |logs[t]|
            ensures logs[t][k].addr != a
          {
            assert Strided(logs[t], n, t, |logs|, goal);
          }
        }
      }
    }
  }

  lemma GridAgrees<T>(logs: seq<Log<T>>, schedule: seq<nat>, n: nat, goal: seq<T>)
    requires |logs| > 0 && GridFair(schedule, n, |logs|)
    requires forall t :: 0 <= t < |logs| ==> Strided(logs[t], n, t, |logs|, goal)
    ensures Agrees(logs, goal) && Finishes(schedule, logs)
  {
    hide Visits, Stop;
    forall t, k | 0 <= t < |logs| && 0 <= k < |logs[t]|
      ensures logs[t][k].addr < |goal| && logs[t][k].value == goal[logs[t][k].addr]
    {
      assert Strided(logs[t], n, t, |logs|, goal);
    }
    forall t | 0 <= t < |logs|
      ensures Picks(schedule, t) == |logs[t]|
    {
      assert Strided(logs[t], n, t, |logs|, goal);
    }
  }

  /** The launch geometry does not matter: every grid writes the serial words. */
  method WordsByGrid(s: Stream, n: nat, out: array<u32>, block: nat, grid: nat, schedule: seq<nat>)
    requires n <= out.Length && Fits(n) && 0 < block * grid <= MAX_STRIDE && GridFair(schedule, n, block * grid)
    modifies out
    ensures out[..] == WordsUpTo(s, n) + old(out[n..])
  {
    hide Word, Visits, Stop, GridFair;
    var stride := block * grid;
    ghost var goal := WordsUpTo(s, n) + out[n..];
    var logs: seq<Log<u32>> := [];
    for t := 0 to stride
      invariant |logs| == t && out[..] == old(out[..])
      invariant forall i :: 0 <= i < t ==> Strided(logs[i], n, i, stride, goal)
    {
      var log := WordsOfGridThread(s, n, t, stride, goal);
      logs := logs + [log];
    }
    RunGrid(out, logs, schedule, n, goal);
  }

  /** The grid chosen for `work` items: enough blocks, capped at the launch limit. */
  function AutomaticGrid(work: nat, block: nat): nat
    requires block > 0
  {
    var blocks := work / block + if work % block != 0 then 1 else 0;
    if blocks < 65535 then blocks else 65535
  }

  lemma AutomaticGridCovers(work: nat, block: nat)
    requires 0 < block <= 1024 && work > 0
    ensures 0 < AutomaticGrid(work, block) <= 65535
    ensures 0 < block * AutomaticGrid(work, block) <= MAX_STRIDE
    ensures AutomaticGrid(work, block) < 65535 ==> block * AutomaticGrid(work, block) >= work
    ensures block * (AutomaticGrid(work, block) - 1) < work
  {
    QuotientBounds(work, block);
    var g := AutomaticGrid(work, block);
    MulOrder(g, 65535, block);
    MulOrder(1, g, block);
    if work / block == 0 {
      assert work % block != 0;
    }
  }

  function LaunchGrid(n: nat, block: nat, grid: int): int
    requires block > 0
  {
    if grid <= 0 then AutomaticGrid(n, block) else grid
  }

  const CUDA_SUCCESS := 0
  const CUDA_ERROR_INVALID_VALUE := 1

  /** What the device answers to the allocation, the launch and the copy back. */
  datatype Device = Device(alloc: int, launch: int, copy: int)

  /** The first call that fails decides. */
  function FirstError(d: Device): int
  {
    if d.alloc != CUDA_SUCCESS then d.alloc else if d.launch != CUDA_SUCCESS then d.launch else d.copy
  }

  /** A launch that the device accepts is within its limits and runs to completion. */
  ghost predicate Launches(d: Device, n: nat, block: int, grid: int, schedule: seq<nat>)
    requires block > 0
  {
    d.alloc == d.launch == CUDA_SUCCESS ==>
      && block <= 1024 && grid <= 0x7FFF_FFFF && LaunchGrid(n, block, grid) > 0
      && GridFair(schedule, n, block * LaunchGrid(n, block, grid))
  }

  /**
   The launch wrapper: a bad block size is refused, no words need no launch, no grid
   means the automatic one, and a failing device call ends it with nothing copied.
   */
  method WordsCuda(s: Stream, n: nat, out: array<u32>, block: int, grid: int, d: Device, schedule: seq<nat>)
    returns (status: int)
    requires n <= out.Length && Fits(n)
    requires block > 0 && n > 0 ==> Launches(d, n, block, grid, schedule)
    modifies out
    ensures status == if block <= 0 then CUDA_ERROR_INVALID_VALUE else if n == 0 then CUDA_SUCCESS else FirstError(d)
    ensures out[..] == if status == CUDA_SUCCESS then WordsUpTo(s, n) + old(out[n..]) else old(out[..])
  {
    if block <= 0 {
      return CUDA_ERROR_INVALID_VALUE;
    }
    if n == 0 {
      return CUDA_SUCCESS;
    }
    var g := LaunchGrid(n, block, grid);
    if d.alloc != CUDA_SUCCESS {
      return d.alloc;
    }
    var words := new u32[n];
    if d.launch != CUDA_SUCCESS {
      return d.launch;
    }
    assert block * g >= 1 && block * g <= MAX_STRIDE by {
      MulOrder(1, g, block);
      MulOrder(g, 0x7FFF_FFFF, block);
    }
    WordsByGrid(s, n, words, block, g, schedule);
    if d.copy != CUDA_SUCCESS {
      return d.copy;
    }
    forall i | 0 <= i < n {
      out[i] := words[i];
    }
    status := CUDA_SUCCESS;
  }

  // ---------- the oracle's array expression ----------

  function Flat(blocks: seq<Counter>): (r: seq<u32>)
    ensures |r| == LANES * |blocks|
  {
    if blocks == [] then []
    else
      var last := blocks[|blocks| - 1];
      Flat(blocks[..|blocks| - 1]) + [last.c0, last.c1, last.c2, last.c3]
  }

  lemma {:induction false} FlatAt(blocks: seq<Counter>, i: nat)
    requires i < LANES * |blocks|
    ensures Flat(blocks)[i] == Lane(blocks[i / LANES], i % LANES)
  {
    var n := |blocks| - 1;
    if i < LANES * n {
      FlatAt(blocks[..n], i);
    }
  }

  function OracleWords(s: Stream, count: nat): (r: seq<u32>)
    requires count < TWO_64
    ensures |r| == count
  {
    var groups := (count + 3) / LANES;
    Flat(seq(groups, g requires 0 <= g < groups => GroupBlock(s, g)))[..count]
  }

  lemma OracleAgrees(s: Stream, count: nat)
    requires count < TWO_64
    ensures OracleWords(s, count) == WordsUpTo(s, count)
  {
    hide GroupBlock, Flat;
    var groups := (count + 3) / LANES;
    var blocks := seq(groups, g requires 0 <= g < groups => GroupBlock(s, g));
    forall i | 0 <= i < count
      ensures OracleWords(s, count)[i] == Word(s, i)
    {
      FlatAt(blocks, i);
    }
  }
}
