/** Bernoulli draws from words and binary32 probabilities in [0, 1], on the host and by a grid. */
module Bernoulli {
  import opened Words
  import opened Binary32
  import opened Codes
  import opened Team
  import opened WordStreams

  /** A probability the draw is specified for. */
  ghost predicate Probability(p: AbsBits) { p < INFINITY && Value(p) <= 1.0 }

  /** `floor(p * 2^32)` in real arithmetic; it reaches 2^32 at `p = 1`. */
  ghost function RealThreshold(p: AbsBits): int
    requires Probability(p)
  {
    (Value(p) * 4294967296.0).Floor
  }

  /** Scaling by 2^32 is exact, so the computed threshold is the real one, and it needs 33 bits only at 1. */
  lemma ThresholdIs(ar: Arith, p: AbsBits)
    requires ar.Valid() && Probability(p)
    ensures Widened(ar, p) < INFINITY && Threshold(ar, p) == RealThreshold(p) <= TWO_32
    ensures Threshold(ar, p) == TWO_32 <==> Value(p) == 1.0
  {
    hide Value;
    var m, k := SmallParts(p);
    WidenedExact(ar, p, m, k);
  }

  /** The draws of a whole launch. */
  ghost function Draws(words: seq<u32>, p: seq<AbsBits>): (d: seq<u8>)
    requires |words| == |p| && forall i :: 0 <= i < |p| ==> Probability(p[i])
    ensures |d| == |words| && forall i :: 0 <= i < |d| ==> d[i] == if words[i] < RealThreshold(p[i]) then 1 else 0
  {
    seq(|words|, i requires 0 <= i < |words| => if words[i] < RealThreshold(p[i]) then 1 else 0)
  }

  method DrawOne(ar: Arith, word: u32, p: AbsBits) returns (hit: u8)
    requires ar.Valid() && Probability(p)
    ensures hit == if word < RealThreshold(p) then 1 else 0
  {
    ThresholdIs(ar, p);
    hide RealThreshold, Threshold;
    hit := Draw(word, Threshold(ar, p));
  }

  /** The host loop. */
  method DrawSerial(ar: Arith, words: seq<u32>, p: seq<AbsBits>) returns (out: seq<u8>)
    requires ar.Valid() && |words| == |p| && forall i :: 0 <= i < |p| ==> Probability(p[i])
    ensures out == Draws(words, p)
    ensures |out| == |words|
    ensures forall i :: 0 <= i < |words| ==> out[i] == if words[i] < RealThreshold(p[i]) then 1 else 0
  {
    hide RealThreshold;
    out := [];
    for i := 0 to |words|
      invariant out == Draws(words, p)[..i]
    {
      var hit := DrawOne(ar, words[i], p[i]);
      out := out + [hit];
    }
  }

  /** The stores of one grid thread. */
  method DrawsOfGridThread(ar: Arith, words: seq<u32>, p: seq<AbsBits>, t: nat, stride: nat, ghost goal: seq<u8>)
    returns (log: Log<u8>)
    requires ar.Valid() && |words| == |p| && forall i :: 0 <= i < |p| ==> Probability(p[i])
    requires 0 < stride <= MAX_STRIDE && t < stride && Fits(|words|) && |words| <= |goal|
    requires goal[..|words|] == Draws(words, p)
    ensures Strided(log, |words|, t, stride, goal)
  {
    hide RealThreshold, Visits, Stop;
    log := [];
    var i := t;
    StopNext(t, 0, stride);
    while i < |words|
      invariant i == Stop(t, |log|, stride)
      invariant StridedPrefix(log, |words|, t, stride, goal)
      decreases |words| + stride - i
    {
      var hit := DrawOne(ar, words[i], p[i]);
      assert hit == goal[..|words|][i];
      StopNext(t, |log|, stride);
      log := log + [Write(i, hit)];
      i := (i + stride) % TWO_64;
    }
    StopsHere(|words|, t, stride, |log|);
  }

  /** Every launch geometry and every interleaving leaves the same draws and touches nothing past them. */
  method DrawByGrid(ar: Arith, words: seq<u32>, p: seq<AbsBits>, out: array<u8>, block: nat, grid: nat,
                    schedule: seq<nat>)
    requires ar.Valid() && |words| == |p| && forall i :: 0 <= i < |p| ==> Probability(p[i])
    requires |words| <= out.Length && Fits(|words|)
    requires 0 < block * grid <= MAX_STRIDE && GridFair(schedule, |words|, block * grid)
    modifies out
    ensures out[..] == Draws(words, p) + old(out[|words|..])
    ensures forall i :: 0 <= i < |words| ==> out[i] == if words[i] < RealThreshold(p[i]) then 1 else 0
  {
    hide RealThreshold, Visits, Stop, GridFair;
    var stride, n := block * grid, |words|;
    ghost var goal := Draws(words, p) + out[n..];
    assert goal[..n] == Draws(words, p);
    var logs: seq<Log<u8>> := [];
    for t := 0 to stride
      invariant |logs| == t && out[..] == old(out[..])
      invariant forall i :: 0 <= i < t ==> Strided(logs[i], n, i, stride, goal)
    {
      var log := DrawsOfGridThread(ar, words, p, t, stride, goal);
      logs := logs + [log];
    }
    RunGrid(out, logs, schedule, n, goal);
  }

  /** How many of the words below `n` draw a one. */
  ghost function Hits(threshold: nat, n: nat): (h: nat)
    requires n <= TWO_32
  {
    if n == 0 then 0 else Hits(threshold, n - 1) + Draw(n - 1, threshold)
  }

  lemma {:induction false} HitsBelow(threshold: nat, n: nat)
    requires n <= TWO_32
    ensures Hits(threshold, n) == if n < threshold then n else threshold
  {
    if n > 0 {
      HitsBelow(threshold, n - 1);
    }
  }

  /** Over all words the draw is one with probability `floor(p * 2^32) / 2^32`: never at 0, always at 1. */
  lemma ExactProbability(ar: Arith, p: AbsBits)
    requires ar.Valid() && Probability(p)
    ensures Widened(ar, p) < INFINITY && Hits(Threshold(ar, p), TWO_32) == RealThreshold(p)
    ensures Value(p) == 0.0 ==> Hits(Threshold(ar, p), TWO_32) == 0
    ensures Value(p) == 1.0 <==> Hits(Threshold(ar, p), TWO_32) == TWO_32
  {
    hide Value, Hits;
    ThresholdIs(ar, p);
    HitsBelow(Threshold(ar, p), TWO_32);
  }
}
