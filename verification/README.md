# Verified model of the stochastic quantizer

The repository quantizes arrays of binary32 numbers to signed 4-bit or 8-bit codes with
stochastic rounding. It does so three times: as scalar C, as threaded and vectorised C,
and as a NumPy oracle. A Python driver measures these back ends under balanced designs
and turns timings into claims. This project models the core of both halves in Dafny and
proves what they promise.

How the parts are modelled:

- **Numbers.** A float is its 32-bit pattern. `Binary32.Value` gives the real number of a
  finite pattern, and arithmetic on magnitudes is the exact real result passed through a
  rounding function that is a parameter (`Arith`). Its `Valid` says only that rounding
  fixes every binary32 number and never reverses an order, so results about scales, words
  and codes hold for every rounding mode. The decoder is the exception: it divides and
  multiplies signed floats, and the model applies the sign to the rounded magnitude, so
  results about decoded values need a rounding that is symmetric about zero, as rounding
  to nearest is. The equality of the summation trees needs nothing at all: it is proved for
  an arbitrary binary operator over an arbitrary type. The error bounds add the standard
  relative-error model with gradual underflow.
- **Threads.** A parallel region is a list of stores per thread, and the region performs
  them in any order that a schedule picks (`Team.RunTeam`, `WordStreams.RunGrid`). A
  critical section is an arbitrary order of arrivals. Every result about a team quantifies
  over the team size and over all schedules.
- **In-place code.** C buffers are arrays that methods overwrite. Workspaces, stream
  records, case records, snapshots and the disk are classes. Every such method is proved
  against a specification function of the old contents, and says what it leaves alone.
- **Snapshots.** One run is a class with two checks and a rename. Many runs are a state
  machine whose steps are the single file-system calls, interleaved in any order, with
  crashes between any two of them.

Module by module: `Words`, `Binary32` (numbers); `Team` (threads); `MagnitudeScan`,
`PairwiseTree`, `Scale`, `WarpTree`, `ScaleBounds`, `ScaleRange` (the scale); `Philox`,
`WordStreams`, `Bernoulli`, `KnownAnswers` (random words); `Codes`, `Packing`,
`Encoder`, `Unbiased` (rounding and payload); `ByteOrder`, `Codec`, `Compress`,
`Reconstruction`, `EndToEnd` (records and the pipeline); `Counting`, `Design`,
`TrialOrders`, `Orderings` (balanced designs); `Statistics`, `Claims` (timing claims);
`Snapshots`, `Invocations`, `Runner`, `BenchReport`, `Sweep` (the life of a run).

The main results are these.

- The threaded scale, words and payload equal the scalar ones for every input, team size and interleaving, and the warp and span form of the device sum is the same tree for any operator.
- The scale and the reconstruction meet the oracle's two published bounds, underflow included, and the scale never falls below an input, so the encoder never clamps with it.
- Ten Philox rounds are a bijection on counters, so streams never alias; where the identifiers stand in the counter is stated as one 128-bit number, and the rounds give a published block.
- The two-half truncation and the borrow-bit and xor tricks are exact.
- The mean over all words is the stated two-level expectation, with a bias in (-2^-32, 0].
- Records and fields determine each other, and every completed record decodes to its codes: code i is value i rounded by word i, and decoded value i meets the published bound.
- Williams rows and all permutations are balanced for every number of paths, and the permutations list every ordering once.
- The median and the percentiles are what counting ranks says, the pooled median lies between the trial medians, a verdict means that all trials of one side beat all of the other, and claims form a chain and fail closed.
- Under every interleaving a snapshot name has at most one live owner and a published snapshot never changes; exactly when a name is stuck, and when a run can still own it beside a published snapshot, is decided.
- The driver's validator accepts exactly the answers that fit the request, and exactly which native reports those are is decided.
- A passing case has exactly one run per trial with the samples that the trial answered, a sweep is evidence only if every case is complete, and every claim of a finished group is chained.

## What the code does and its words do not say

- `native/quantizer.c:57-59` guards the doubling loop against overflow, and `:95-97` and
  `:102-104` report the guard as a memory error. No 64-bit count reaches the guard:
  `Scale.WorkspaceElements` proves the result is at most 2^56, so these branches are dead.
- The mean of the rounded magnitude is exact only when the fraction is a multiple of
  2^-32 (`Unbiased.ExactlyUnbiased`); otherwise it is below the input by less than 2^-32.
- `src/stoquant/snapshot_store.py:80` says both gates apply before reserving. The gates are
  separate calls, so a run with stale checks can still reserve a new partial directory
  after another run has published; `Snapshots.StaleCheckCanOwn` is one such interleaving.
  Beside a published snapshot a run can come to own the partial directory exactly when it
  owns it already, or when the partial name is free and it is past its check of the final
  name (`Snapshots.LateOwnerIff`). Only the check inside `commit` stops it
  (`Snapshots.LateOwnerRefused`).
- A crash of the owner blocks the name for good (`Snapshots.CrashBlocksName`). An
  unpublished name can still be published exactly when it does not hold a partial
  directory without a live owner (`Snapshots.PublishableIff`).
- `src/stoquant/sweep.py:616-623` raises when trials disagree on identifiers. After response
  validation that cannot happen (`Sweep.ProgressVerdict`). The thread-count error at
  `:624-626` can happen: some answers of the processes raise it exactly when the case
  starts passing, runs at least two trials, and its request can be answered and leaves the
  AVX2 thread count open (`Sweep.DisagreementIff`). The driver passes no `--threads`
  (`src/stoquant/design.py:70-75`), so the request of the AVX2 path always leaves it open
  and no other path's does (`Sweep.PathsAgree`): `Sweep.RunGroup` rules the error out only
  for groups without that path.
- The driver's and the native program's default boundaries for CUDA differ
  (`src/stoquant/runner.py:270`, `native/cli.c:75-83`). The report of a CUDA request that
  names no boundary is always refused (`BenchReport.NativeAcceptedIff`); every path of the
  driver that needs CUDA names one (`Sweep.PathsAgree`).
- `src/stoquant/oracle.py:352-353` charges twelve operations and the depth of the tree. The
  root halves the errors of the total, so about half of them are enough
  (`ScaleBounds.ScaleError`).

## Model

| member | source | states |
|---|---|---|
| `Team.Split` | native/quantizer_avx2.c:30-36 | shares are consecutive and their sizes differ by at most one |
| `Team.UnitRange` | native/quantizer_avx2.c:40-50 | a thread gets whole 256-value units up to the next thread's first, and an idle thread an empty range even when its begin lies past its end |
| `Team.ShareEnds` | native/quantizer_avx2.c:30-36 | the shares of a team start at 0 and end at the item count, so they cover everything |
| `Team.UnitEnds` | native/quantizer_avx2.c:40-50 | the unit ranges start at 0 and end at the element count |
| `Team.ExactlyOnce` | native/quantizer_avx2.c:245-248 | each item is stored by exactly one thread at exactly one of its steps |
| `Team.Replay` | native/quantizer_avx2.c:239-249 | any interleaving of agreeing stores ends with every stored value in place and every other address untouched |
| `Team.RunTeam` | native/quantizer_avx2.c:428-435 | any interleaving of a team's stores leaves exactly the goal contents, inside and outside the items |
| `MagnitudeScan.MaxDecides` | native/quantizer_avx2.c:100-103 | the largest masked pattern is below the infinity pattern iff all values are finite, is 0 iff all are zero, and orders values as real numbers |
| `MagnitudeScan.MaxUnique` | native/quantizer_avx2.c:102-127 | an attained bound is the maximum, so partition and order cannot matter |
| `MagnitudeScan.ScanScalar` | native/quantizer.c:79-92 | the comparing scan fails iff some value is not finite and otherwise finds the pattern maximum |
| `MagnitudeScan.ScanForEncode` | native/quantizer.c:157-175 | status and non-zero flag of the two scalar passes, through the pattern maximum |
| `MagnitudeScan.LocalMax` | native/quantizer_avx2.c:113-118 | a thread's maximum bounds its share and is 0 or attained |
| `MagnitudeScan.MaxMagnitudeBits` | native/quantizer_avx2.c:102-127 | for every team size and order of arrival the result is the pattern maximum of the whole input |
| `MagnitudeScan.ScanForEncodeByTeam` | native/quantizer_avx2.c:129-138 | the same status and flag as the scalar scan, for every team and order |
| `PairwiseTree.RootSplits` | native/quantizer.c:38-42 | the level-by-level adjacent tree is the recursive tree over the two halves, for any operator |
| `PairwiseTree.AdjacentTree` | native/quantizer.c:113-119 | reducing pairs in place leaves the tree's root in slot 0 and nothing changed past the tree, for any operator |
| `PairwiseTree.ReverseBits` | native/quantizer_avx2.c:52-61 | the shifting loop reverses the low bits |
| `PairwiseTree.RevInvolution` | native/quantizer_avx2.c:52-61 | reversing twice gives the index back, so reversal permutes the slots |
| `PairwiseTree.HalvesMeet` | native/quantizer_avx2.c:140-144 | slot j and slot j + half of reversed storage hold exactly the two operands of an adjacent pair |
| `PairwiseTree.HalvesStep` | native/quantizer_avx2.c:158-165 | adding halves of reversed storage is one adjacent level in reversed storage |
| `PairwiseTree.HalvesTree` | native/quantizer_avx2.c:167-173 | the halves tree over reversed leaves gives the adjacent tree's root, for any operator |
| `PairwiseTree.OracleSum` | src/stoquant/oracle.py:124-131 | for a list of any length the oracle zero-pads to a power of two and its shrinking work list gives the root over the padded list |
| `PairwiseTree.OracleDepthLeast` | src/stoquant/oracle.py:125-126 | the bit length picks the least power of two that holds a non-empty list |
| `Scale.WorkspaceElements` | native/quantizer.c:46-63 | the least power of two covering the 256-value blocks, at most 2^56, with the overflow guard never taken |
| `Scale.ReduceBlock` | native/quantizer.c:22-44 | a scalar block yields the tree of its squared ratios, zero past the last value |
| `Scale.BlockSum` | native/quantizer_avx2.c:175-189 | a vector block with its zero-padded tail yields the same total, given 0/m = 0 and 0·0 = 0 |
| `Scale.GoalFits` | native/quantizer_avx2.c:245-248 | block totals stored at reversed slots are the reversed padded totals, zero in the slots nobody writes |
| `Scale.ComputeScale` | native/quantizer.c:65-130 | status and scale of the scalar call for every input, missing buffer and workspace size, and the workspace kept past the padded slots |
| `Scale.ComputeScaleByTeam` | native/quantizer_avx2.c:191-261 | the same status and scale as the scalar call, for every team, order of arrival and interleaving, and the workspace kept past the padded slots |
| `WarpTree.SpansCompose` | native/quantizer_cuda.cu:337-345 | the tree over the trees of adjacent runs is the tree over everything, for any operator and any two powers of two |
| `WarpTree.ShuffleStep` | native/quantizer_cuda.cu:469-473 | if every lane at a multiple of d holds the tree of lanes l .. l+d-1, then after the shuffle by d every lane at a multiple of 2d holds that of lanes l .. l+2d-1, whatever the other lanes hold |
| `WarpTree.WarpSum` | native/quantizer_cuda.cu:469-476 | the shuffles leave the tree of the whole warp in lane 0, for any operator |
| `WarpTree.LaneSumIsRoot` | native/quantizer_cuda.cu:466-467 | the bracketed sum of eight leaves is their adjacent tree |
| `WarpTree.WarpBlockTotal` | native/quantizer_cuda.cu:446-476 | one warp gives the scalar total of its 256-value block, with a ragged last block padded by zeros |
| `WarpTree.ReduceSegment` | native/quantizer_cuda.cu:489-510 | the two swapped buffers reduce one run of inputs to its tree |
| `WarpTree.SpanTree` | native/quantizer_cuda.cu:642-660 | the launches over runs of at most 2048 end in the tree of all partial sums, for any operator |
| `WarpTree.DeviceTotal` | native/quantizer_cuda.cu:637-662 | the device sum is the total that the scalar code computes |
| `ScaleBounds.RootAtLeast` | native/quantizer.c:113-119 | a rounded tree of non-negative terms is at least each of its leaves |
| `ScaleBounds.ScaleCoversInput` | native/quantizer.c:90-127 | under any monotone rounding a computed scale is at least every magnitude, and is zero iff all values are zero |
| `ScaleRange.TreeBelow` | native/quantizer.c:113-119 | a tree over numbers up to 2^k ends at most at 2^(k + depth) under any rounding, so it cannot overflow before |
| `ScaleRange.OverflowsLast` | native/quantizer.c:120-127 | neither total nor root overflows, and the last product only if the largest magnitude exceeds 2^(127 - j), where j is half of 8 + depth rounded up |
| `ScaleRange.ScaleStatus` | native/quantizer.c:71-127 | which status an input gets: not finite, workspace missing or short for a non-zero input, overflow only for such large magnitudes, otherwise success |
| `ScaleBounds.ExactRoot` | native/quantizer.c:113-119 | with exact addition the tree is the sum, whatever its shape |
| `ScaleBounds.TreeError` | native/quantizer.c:38-42 | one tree multiplies in at most depth-many rounding errors, not count-many |
| `ScaleBounds.TotalError` | native/quantizer.c:110-119 | the rounded total is, up to 11 + depth relative errors, the sum of leaves that underflow moves by at most four steps each |
| `ScaleBounds.ClosedBound` | src/stoquant/oracle.py:354-355 | (1+u)^k and (1-u)^k stay within the closed k·u/(1-k·u) form |
| `ScaleBounds.OperationsIsDepth` | src/stoquant/oracle.py:352-353 | the oracle's bit-length formula is twelve plus the depth of the block tree |
| `ScaleBounds.LeafError` | native/quantizer.c:22-36 | a squared ratio is within three relative errors of a leaf, and the leaf within four underflow steps of the exact square |
| `ScaleBounds.ScaleError` | src/stoquant/oracle.py:341-357 | for every non-zero input, underflow included, the computed scale is within (g + 2d)·norm + step of the Euclidean norm, where g is k·u/(1-k·u) for k = (12 + depth)/2 + 2 with k·u at most a half, and d is four steps for every value |
| `ScaleBounds.PublishedScaleBound` | src/stoquant/oracle.py:341-357 | under rounding to nearest every non-zero input of 64-bit length meets the oracle's scale bound with both its underflow terms |
| `Reconstruction.ReferenceError` | src/stoquant/oracle.py:279-287 | the reference decodes to within one step of the magnitude, for every word |
| `Reconstruction.DecodedError` | native/quantizer.c:265-276 | scaling, rounding and decoding a value give it back within one step plus what two roundings of the scaled value and two of the level can add |
| `Reconstruction.ReconstructionBound` | src/stoquant/oracle.py:358-361 | for every non-zero input, value and word the decoded code is within the oracle's reconstruction bound of the reference |
| `Philox.PhiloxLoop` | src/stoquant/oracle.py:65-82 | the loop that bumps the key after every round but the last gives the ten-round block |
| `Philox.RoundUndone` | src/stoquant/oracle.py:66-77 | one round can be undone from its key |
| `Philox.RoundsBijective` | src/stoquant/oracle.py:65-80 | any number of rounds is a bijection on counters for every key, with an explicit inverse |
| `Philox.BlockInjective` | src/stoquant/oracle.py:65-82 | equal blocks under one key come from equal counters |
| `Philox.KeySchedule` | native/quantizer_avx2.c:280-282 | the direct key k + r·W of the vector form is the stepwise bumped key |
| `KnownAnswers.DigitsOfPi` | tests/test_oracle.py:21-38 | the block for the digits of pi is the published one, computed through all ten rounds |
| `KnownAnswers.XorOfQuads` | native/quantizer_avx2.c:286-293 | the recursive exclusive or is the byte-wise machine one |
| `Philox.StreamCell.Init` | native/sq_rng.h:52-66 | identifiers that do not fit 32 bits are refused and nothing is stored; others are stored whole |
| `Philox.BlockOfNumber` | native/sq_rng.h:68-84 | the block of a group is that of the 128-bit number group + 2^64·tensor + 2^96·invocation under the 64-bit key seed |
| `Philox.StreamsNeverAlias` | native/sq_rng.h:68-84 | within one seed, different (group, tensor, invocation) triples give different blocks |
| `WordStreams.WordsSerial` | native/rng_cpu.c:3-25 | word i is lane i mod 4 of block i div 4, the stores visit each index below n once and in order, and nothing past n changes |
| `WordStreams.WordOfNumber` | native/sq_rng.h:75-84 | word i is word i mod 4 of the block whose 128-bit counter is i div 4 + 2^64·tensor + 2^96·invocation and whose key is the seed |
| `WordStreams.RoundOnLanes` | native/quantizer_avx2.c:280-295 | one in-place round advances all 64 lanes by one Philox round |
| `WordStreams.PhiloxChunk` | native/quantizer_avx2.c:264-304 | a chunk holds the 256 words of its 64 groups, interleaved in order |
| `WordStreams.WordsByTeam` | native/quantizer_avx2.c:306-330 | for every team and interleaving the words are the serial ones and nothing past n changes |
| `WordStreams.GridOnce` | native/rng_cuda.cu:29-34 | each index below n is visited by exactly one grid thread at exactly one of its steps |
| `WordStreams.RunGrid` | native/rng_cuda.cu:26-34 | any interleaving of a grid's threads leaves the goal below n and nothing else changed |
| `WordStreams.WordsByGrid` | native/rng_cuda.cu:22-35 | every launch geometry writes the serial words |
| `WordStreams.AutomaticGridCovers` | native/quantizer_cuda.h:12-18 | the chosen grid is launchable, covers the work unless it was capped, and has no block too many |
| `WordStreams.WordsCuda` | native/rng_cuda.cu:76-98 | a bad block size is refused, no words need no launch, a device failure is returned as it is, and every other launch writes the serial words |
| `WordStreams.OracleAgrees` | src/stoquant/oracle.py:96-113 | the flattened block array cut to the count is the serial word list |
| `Bernoulli.ThresholdIs` | native/sq_rng.h:86-92 | the threshold is floor(p·2^32) exactly, and reaches 2^32 only at p = 1 |
| `Bernoulli.DrawSerial` | native/sq_rng.h:94-96 | draw i is one iff word i is below floor(p·2^32) for probability i |
| `Bernoulli.DrawByGrid` | native/rng_cuda.cu:37-46 | every launch geometry and interleaving writes the serial draws, word i against probability i, and nothing past them |
| `Bernoulli.ExactProbability` | native/sq_rng.h:86-96 | over all words exactly floor(p·2^32) draw one: none at p = 0, all at p = 1 and only there |
| `Codes.ScaledInRange` | native/quantizer.c:266-273 | the clamped value is finite and lies in [0, s] |
| `Codes.SplitDyadic` | native/quantizer.c:274-275 | floor and remainder of a dyadic number, with the remainder over the same power |
| `Codes.FractionExact` | native/quantizer.c:274-275 | float floor and subtraction are exact on every scaled value |
| `Codes.TwoHalves` | native/quantizer_avx2.c:332-352 | every intermediate of the two-half truncation is exactly representable and the halves lose nothing |
| `Codes.ThresholdsAgree` | native/quantizer_avx2.c:332-352 | branching and two-half thresholds are both floor(p·2^32) and fit 32 bits |
| `Codes.EveryFraction` | native/quantizer_avx2.c:347-352 | the conditions of that agreement hold for every scaled value |
| `Codes.MagnitudeInRange` | native/quantizer.c:271-276 | rounding stays in [0, s], within one step of the value, and is exact at the limit |
| `Codes.CodeInRange` | native/quantizer.c:276-279 | a stored code lies in [0, 2s] |
| `Codes.RoundScalar` | native/quantizer.c:274-276 | float floor plus Bernoulli draw is the rounding that real arithmetic defines |
| `Codes.CodeScalar` | native/quantizer.c:265-279 | the branching form stores the code that real arithmetic defines |
| `Codes.BorrowIsDraw` | native/quantizer_avx2.c:366-367 | the top bit of the 64-bit difference is the Bernoulli draw |
| `Codes.NegatedIs` | native/quantizer_avx2.c:356-371 | complement-and-add negates a magnitude when asked, and zero stays zero |
| `Codes.SplitOne` | native/quantizer_avx2.c:342-353 | truncations give the floor and the exact threshold of one value |
| `Codes.CombineOne` | native/quantizer_avx2.c:365-372 | the branch-free form gives the signed offset code |
| `Codes.CombinedIsCode` | native/quantizer_avx2.c:337-373 | floor, threshold and combination together give the reference code |
| `Packing.UnpackPack` | native/codec.c:119-122 | unpacking undoes packing, and a packed payload's padding nibble is zero |
| `Packing.PackUnpack` | native/codec.c:110-118 | packing undoes unpacking exactly when the padding nibble is zero |
| `Encoder.AcceptedMeans` | native/quantizer.c:191-224 | acceptance in one sentence: known width, buffers present, finite non-negative scale, finite values, and zero scale iff no non-zero value |
| `Encoder.EncodeRefusals` | native/quantizer.c:177-224 | which refusal a call gets: width, missing buffer, scale, or a value that is not finite, in the order of the checks |
| `Encoder.PackedCentres` | native/quantizer.c:225-238 | the fill bytes of a zero scale are the packed centre code, including the odd last nibble |
| `Encoder.Prologue` | native/quantizer.c:177-242 | status, skip flag and limit of the shared checks with either scan, and the buffer unchanged unless the zero-scale payload is due |
| `Encoder.EncodeBytes` | native/quantizer.c:263-280 | 8-bit payload byte i is code i, and bytes past the payload are untouched |
| `Encoder.EncodeNibbles` | native/quantizer.c:281-329 | the pairwise loop and the odd last code give the packing of all codes, and bytes past the payload are untouched |
| `Encoder.EncodeScalar` | native/quantizer.c:244-331 | status and whole buffer after a scalar call, for every request; code i of a success is the floor of scaled value i, one more iff word i is below its threshold, with the sign of value i |
| `Encoder.EveryCodeRounded` | native/quantizer.c:264-329 | in the buffer that a success leaves, code i is value i rounded by word i, or the limit under a zero scale |
| `Encoder.SplitScaled` | native/quantizer_avx2.c:337-354 | the floor and the exact threshold of up to a block of values |
| `Encoder.CombineCodes` | native/quantizer_avx2.c:358-373 | the codes of a block, equal to the scalar codes, each from its own floor, threshold, word and sign |
| `Encoder.PackNibbles` | native/quantizer_avx2.c:375-386 | the nibble loop packs codes, with a lone last code in the low half |
| `Encoder.BlockPacks` | native/quantizer_avx2.c:403-407 | packing a block on its own gives its slice of the whole packing |
| `Encoder.EncodeRange` | native/quantizer_avx2.c:388-409 | one thread stores exactly the payload bytes of its values, once each |
| `Encoder.IdleThread` | native/quantizer_avx2.c:432-434 | a thread whose begin is not below its end owns nothing |
| `Encoder.EncodeByTeam` | native/quantizer_avx2.c:411-437 | the scalar status and the scalar buffer, with code i from value i and word i, for every team, order of arrival and interleaving |
| `ByteOrder.LoadStore32` | native/byteorder.h:8-18 | loading a stored 32-bit word gives it back |
| `ByteOrder.StoreLoad32` | native/byteorder.h:8-18 | storing a loaded 32-bit word gives its bytes back |
| `ByteOrder.LoadStore64` | native/byteorder.h:20-28 | loading a stored 64-bit word gives it back |
| `ByteOrder.StoreLoad64` | native/byteorder.h:20-28 | storing a loaded 64-bit word gives its bytes back |
| `ByteOrder.LoadedNumber` | native/byteorder.h:8-28 | four or eight bytes load as the number they stand for, least significant byte first |
| `ByteOrder.StoreArray` | native/byteorder.h:47-55 | writes the bytes of all words in order and leaves the rest of the buffer |
| `ByteOrder.LoadArray` | native/byteorder.h:30-45 | reads all words in order and leaves the rest of the buffer |
| `ByteOrder.ArrayRoundTrip` | native/byteorder.h:38-55 | reading back a stored array gives the same words |
| `ByteOrder.BytesRoundTrip` | native/byteorder.h:38-55 | storing the words that were read gives the same bytes |
| `Codec.HeaderEncode` | native/codec.c:10-36 | the 20 header bytes and nothing else, or an error status and nothing written |
| `Codec.HeaderRefusals` | native/codec.c:14-25 | which fields a header is refused for |
| `Codec.RecordLayout` | native/codec.c:27-35 | where a record keeps magic, version, width, zeros, count and scale, least significant byte first, and where it keeps each code |
| `Codec.DecodesRecord` | native/codec.c:38-140 | the record of any valid fields is accepted and gives those fields back |
| `Codec.AcceptedIsRecord` | native/codec.c:47-134 | an accepted record is byte for byte the record of its own fields |
| `Codec.AcceptedIff` | native/codec.c:47-134 | a byte string is accepted iff it is the record of some valid fields |
| `Codec.FirstFaultOk` | native/codec.c:95-135 | no fault is reported iff every code is in range and, under a zero scale, is the centre code |
| `Codec.DecodeRefusals` | native/codec.c:47-118 | which refusal a record gets before its codes are looked at: that of the first check it fails |
| `Codec.FirstBadCode` | native/codec.c:95-135 | the first bad code is refused as out of range or as not central under a zero scale |
| `Codec.DecodeRecord` | native/codec.c:38-140 | the status in the decoder's order of checks, missing output included, and on success the count and every decoded value |
| `Codec.LevelWithinScale` | native/codec.c:107-108 | a decoded level never exceeds the scale |
| `Codec.DecodedIs` | native/codec.c:107-108 | a decoded value is the level's magnitude with the sign of the code, and finite |
| `Unbiased.TwoLevelMean` | native/sq_rng.h:86-96 | over all 2^32 words any function of the code averages to its two neighbours, weighted by the realised probability |
| `Unbiased.Bias` | native/quantizer.c:274-276 | the word sum is 2^32·floor(a) + floor(frac(a)·2^32), so the bias lies in (-2^-32, 0] |
| `Unbiased.ExactlyUnbiased` | native/quantizer.c:274-276 | the bias is zero iff a·2^32 is an integer |
| `Unbiased.WithinOneStep` | native/quantizer.c:274-276 | every single draw is within one step, and exact on whole values |
| `Unbiased.MeanIsExpectation` | src/stoquant/unbiasedness.py:165-181 | the mean decoded value is the stated expectation, at the limit too |
| `Unbiased.DecodedCode` | src/stoquant/unbiasedness.py:159-162 | decoding the encoder's code gives the decoded level of the rounded magnitude, whatever the word |
| `Unbiased.DecodedMean` | src/stoquant/unbiasedness.py:165-181 | compressing and decoding one value averages exactly to the stated expectation |
| `Compress.Workspace.Init` | native/cpu_compress.c:9-13 | an empty workspace |
| `Compress.Workspace.Reserve` | native/cpu_compress.c:15-56 | status in the order of the checks, capacities that only grow, and a partial failure that keeps what was reserved |
| `Compress.Workspace.Destroy` | native/cpu_compress.c:58-65 | both buffers gone and capacities zero, so reserving starts afresh |
| `Compress.WordsOfJob` | native/cpu_compress.c:125-131 | prescribed words, or the stream's words unless an identifier overflows |
| `Compress.CompressRecord` | native/cpu_compress.c:99-140 | status and whole record after a call with any arguments, a missing record and unknown back ends included, the same for both back ends and every schedule |
| `Compress.CallEnds` | native/cpu_compress.c:115-139 | a call ends with the status of the first stage that refuses it, and the record is untouched unless the header was due |
| `Compress.NeverClamps` | native/quantizer.c:266-273 | a scale that covers a value never needs the clamp |
| `Compress.ComputedScaleNeverClamps` | native/cpu_compress.c:115-124 | encoding with a computed scale never clamps any value |
| `Compress.PlainEncodes` | native/cpu_compress.c:115-139 | a call with nothing prescribed and enough workspace ends in success, a non-finite input or scale overflow |
| `Compress.PipelineRoundTrip` | native/cpu_compress.c:99-140 | on finite input it ends in success or scale overflow, and a success decodes to its count, scale and codes |
| `Compress.CompletedDecodes` | native/cpu_compress.c:99-140 | every completed record, prescribed parts or not, is accepted and gives its codes back |
| `EndToEnd.CompletedRounds` | native/cpu_compress.c:115-139 | every completed record holds value i rounded by the caller's word i, or by word i of the stream of the call's own identifiers |
| `EndToEnd.DecodedBound` | src/stoquant/oracle.py:341-361 | decoded value i of any record completed with a computed scale is within the published bound of the reference reconstruction of value i from word i |
| `EndToEnd.ZerosDecode` | src/stoquant/oracle.py:276-277 | a record of all-zero input decodes to zeros |
| `Design.FirstRow` | src/stoquant/design.py:199-206 | the two moving ends fill the zig-zag first row |
| `Design.WilliamsRows` | src/stoquant/design.py:197-210 | rotations of the first row, then for an odd count the reversals |
| `Design.WilliamsBalanced` | src/stoquant/design.py:197-210 | for every n ≥ 1 the rows are permutations, each path holds each position equally often, and each ordered pair is adjacent once (even n) or twice (odd n) |
| `Design.CycledBalanced` | src/stoquant/design.py:235 | a whole multiple of a balanced design is balanced |
| `TrialOrders.PositionCount` | src/stoquant/design.py:227 | over all orderings each path holds each position (n-1)! times |
| `TrialOrders.PairCount` | src/stoquant/design.py:227 | over all orderings each ordered pair is adjacent at each position (n-2)! times |
| `TrialOrders.PermutationsBalanced` | src/stoquant/design.py:226-228 | all orderings together are balanced |
| `Orderings.EveryOrderOnce` | src/stoquant/design.py:33-35 | the rows are exactly the orderings of the paths, each at one place, in lexicographic order |
| `TrialOrders.ChosenDesign` | src/stoquant/design.py:220-229 | up to four paths the design has n! rows, beyond that n for even n and 2n for odd n |
| `TrialOrders.MakeTrialOrders` | src/stoquant/design.py:220-235 | the design's rows in rotation, refused iff a Williams design would be cut short |
| `TrialOrders.TrialsBalanced` | src/stoquant/design.py:220-235 | every whole number of designs is balanced, for either design |
| `TrialOrders.OrdersPermute` | src/stoquant/design.py:220-235 | every order runs every path exactly once, for any number of trials |
| `Statistics.SortCount` | src/stoquant/stats.py:71-86 | sorting keeps how many samples satisfy any predicate |
| `Statistics.RankIs` | src/stoquant/stats.py:71-86 | a number has rank k by counting iff sorting puts it at place k |
| `Statistics.MedianIsCentre` | src/stoquant/stats.py:78 | at least half of the samples reach the median and at most half exceed it, and it is the centre of all numbers with that property |
| `Statistics.MedianOfRanks` | src/stoquant/stats.py:78 | twice the median is the sum of the samples of the two middle ranks |
| `Statistics.PooledJoins` | src/stoquant/stats.py:91 | pooling is concatenation |
| `Statistics.PooledMedianAtLeast` | src/stoquant/stats.py:89-95 | the pooled median is no less than any lower bound of the trial medians, for trials of any lengths |
| `Statistics.PooledMedianAtMost` | src/stoquant/stats.py:89-95 | the pooled median is no more than any upper bound of the trial medians |
| `Statistics.PercentileWithin` | src/stoquant/stats.py:96-98 | a linear percentile lies between the least and the greatest sample |
| `Statistics.PercentileOfRanks` | src/stoquant/stats.py:96-98 | a percentile lies on the straight line between the samples of the two neighbouring ranks |
| `Statistics.CaseNumbers` | src/stoquant/stats.py:89-106 | the numbers of a case: the median of the pool, the median of every trial, and the least and greatest of those |
| `Statistics.CaseConsistent` | src/stoquant/stats.py:89-106 | every computed case has its pooled median between its extreme trial medians, its spread flags mean a factor of at most 1.25 between the extremes or the percentiles, and the first implies the second |
| `Statistics.CompareMeans` | src/stoquant/stats.py:129-189 | there are numbers iff all trial medians are positive; point times candidate median is baseline median; faster iff every candidate trial is below every baseline trial, slower iff every one is above |
| `Statistics.PointInRange` | src/stoquant/stats.py:171-189 | the point speedup lies in its range, so faster means above 1 and slower below 1 |
| `Statistics.SwappedSides` | src/stoquant/stats.py:129-189 | swapping the sides swaps the verdict and inverts point and range |
| `Claims.BuiltPaths` | src/stoquant/design.py:158-190 | which requests are refused, and exactly which distinct paths the others select |
| `Claims.BuiltPathsClosed` | src/stoquant/design.py:77-103 | a selected set contains every baseline and pageable twin of its paths |
| `Claims.BoundaryInversion` | src/stoquant/stats.py:353-380 | true iff a selected boundary lacks a median, or a selected path it contains lacks one or is slower |
| `Claims.ComparePath` | src/stoquant/stats.py:271-339 | what one path gets: nothing, a reference row, a descriptive row, or a claim with its optional extras |
| `Claims.CompareCaseGroup` | src/stoquant/stats.py:228-350 | every path's entry and the graph-against-resident claim, as functions of the group alone |
| `Claims.SupportMeans` | src/stoquant/stats.py:192-203 | direction iff nothing is inverted and all trials of one side beat all of the other; magnitude and revision 2 iff also both spreads are within 1.25 |
| `Claims.ClaimMeans` | src/stoquant/stats.py:292-311 | a path is claimed iff it and the path it is measured against have statistics, and which of its claims hold, in terms of trial medians and of boundaries in order |
| `Claims.FurtherMeans` | src/stoquant/stats.py:312-339 | the comparisons with the AVX2 path, the comparator and the pageable form: when there are any, and between which two sides |
| `Claims.ResidentMeans` | src/stoquant/stats.py:341-350 | the graph replay is claimed against the resident path |
| `Claims.HostMeans` | src/stoquant/stats.py:275-309 | the comparator is the reference and the AVX2 path is described against it |
| `Claims.InversionIs` | src/stoquant/stats.py:239-269 | a claimed path is inverted iff one of its guarding boundaries lacks statistics or is faster than a selected path it contains |
| `Claims.ClaimsChained` | src/stoquant/stats.py:192-203 | for every claim of a group of consistent statistics revision 2 implies magnitude, magnitude implies direction, and direction agrees with the point estimate |
| `Claims.InversionsGrow` | src/stoquant/stats.py:239-269 | missing statistics can only add inversions |
| `Claims.ClaimsFailClosed` | src/stoquant/stats.py:228-350 | turning statistics into missing ones never makes an unsupported claim supported, for any path set |
| `Claims.SupportedMeansNested` | src/stoquant/stats.py:353-380 | a supported direction certifies that no selected boundary of its policy, CUDA or CPU gpu-origin, beats a selected path it contains |
| `Snapshots.Disk.Check` | src/stoquant/snapshot_store.py:63-74 | the refusals in order: dirty, final taken, partial taken |
| `Snapshots.Disk.Create` | src/stoquant/snapshot_store.py:77-85 | reserves an empty partial directory iff the tree is allowed and both names are free, and touches nothing otherwise |
| `Snapshots.Snapshot.Commit` | src/stoquant/snapshot_store.py:52-60 | publishes once and never over an existing snapshot; every failure leaves the disk alone |
| `Snapshots.StepKeepsSafe` | src/stoquant/snapshot_store.py:52-85 | every step of every run keeps one owner, a clear name before a rename, and one publisher |
| `Snapshots.ReachableSafe` | src/stoquant/snapshot_store.py:52-85 | every interleaving of any number of runs and crashes is safe: at most one live owner, and the final directory is one run's work |
| `Snapshots.FinalIsForever` | src/stoquant/snapshot_store.py:52-60 | a published snapshot never changes again |
| `Snapshots.CrashBlocksName` | src/stoquant/snapshot_store.py:72-74 | after its owner crashes a name never publishes and the partial directory stays as it was, whatever follows |
| `Snapshots.StaleCheckCanOwn` | src/stoquant/snapshot_store.py:77-85 | a concrete interleaving in which stale checks lead to owning a partial directory beside a published final one |
| `Snapshots.LateOwnerIff` | src/stoquant/snapshot_store.py:77-85 | beside a published snapshot a run can come to own the partial directory iff it does already, or the partial name is free and its check of the final name has passed |
| `Snapshots.PublishableIff` | src/stoquant/snapshot_store.py:52-85 | an unpublished name can still be published iff its partial directory has a live owner or is absent |
| `Snapshots.LateOwnerRefused` | src/stoquant/snapshot_store.py:56-57 | such an owner is refused at its commit and the published snapshot stays |
| `Snapshots.AloneSucceeds` | src/stoquant/snapshot_store.py:52-85 | an undisturbed run publishes exactly its files, in order |
| `Invocations.RangeValidIff` | native/run_invocation.h:6-22 | the 64-bit check accepts iff the run count fits, is positive, and every identifier of the schedule fits 32 bits |
| `Invocations.RunIdExact` | native/run_invocation.h:24-31 | within an accepted schedule nothing wraps: measured run i has base + i·step, warm-up i comes after all measured ones |
| `Invocations.RunsDistinct` | native/run_invocation.h:24-31 | with a positive step all runs differ; with step 0 all use the base |
| `Invocations.RunsDrawApart` | native/run_invocation.h:24-31 | different runs of a stepping schedule never share a block of random words |
| `Invocations.PrintedIds` | native/bench_report.c:54-68 | the printed list holds the identifiers of consecutive executions |
| `Invocations.PrintedAreExpected` | src/stoquant/runner.py:293-294 | both printed lists of a valid schedule are the lists the driver demands |
| `Invocations.CompactLossless` | src/stoquant/sweep.py:133-144 | the compact form determines the list, so comparing compact forms compares lists |
| `Runner.CheckTimings` | src/stoquant/runner.py:309-334 | no fault iff the list is there, has one entry per repetition and all are finite and non-negative; a bad value is the first one |
| `Runner.CheckConfiguration` | src/stoquant/runner.py:337-352 | accepts iff every demanded field is right and no field of another back end is there; a wrong field is the first one in order |
| `Runner.CheckStages` | src/stoquant/runner.py:423-430 | accepts iff the demanded stages are all good and there are no others |
| `Runner.ValidateBenchResponse` | src/stoquant/runner.py:376-451 | the checks in their order accept exactly the answers that fit the request, and a timing fault is reported only when the configuration is right |
| `Runner.AnswerableIff` | src/stoquant/runner.py:355-373 | some answer is accepted iff the policy fits the boundary and the back end has the boundary |
| `Runner.AcceptedIdsAgree` | src/stoquant/runner.py:337-352 | any two accepted answers to one request report the same identifiers, and the same thread count unless it was left open |
| `Runner.AcceptedSays` | src/stoquant/runner.py:284-306 | what every field of an accepted answer holds |
| `Runner.AcceptedTimings` | src/stoquant/runner.py:423-449 | which stages and which capture time an accepted answer has, and that all its times are finite and not negative |
| `Runner.AcceptedRuns` | src/stoquant/runner.py:283-294 | the measured runs of an accepted answer are 0, 1, 2, …, the warm-ups follow, and a graph replays 0 throughout |
| `BenchReport.Legality` | native/cli.c:262-272 | the table search finds the one row of a legal pair and nothing for the others |
| `BenchReport.DefaultLegality` | native/cli.c:274-283 | every back end has exactly one default row |
| `BenchReport.ResolveBench` | native/cli.c:456-478 | which requests resolve, and to which boundary and policy |
| `BenchReport.PrintReport` | native/bench_report.c:70-116 | the report holds every field of the back end with its value, one list per timed stage, and a capture time exactly for the graph |
| `BenchReport.BoundariesAgree` | src/stoquant/runner.py:267-281 | driver and program mean the same boundary iff the request names one or is not for CUDA, and then the same policy |
| `BenchReport.NativeAcceptedIff` | src/stoquant/runner.py:376-451 | the driver accepts the report of a request that the program runs iff both mean one boundary, the input has the requested size, the team is the requested one, and no time is negative |
| `Runner.WarmupsCover` | src/stoquant/runner.py:454-458 | the count is the least one above the minimum that covers the target time |
| `Sweep.Case.constructor` | src/stoquant/sweep.py:425-484 | a new record with the gate's verdict, no runs and no statistics |
| `Sweep.Case.FailExecution` | src/stoquant/sweep.py:313-321 | later work fails the case with its own message and keeps the gate's verdict and message the first time |
| `Sweep.WarmUpCases` | src/stoquant/sweep.py:487-549 | a failed GPU warm-up fails every case; otherwise each case gets its probe's failure or its warm-up count |
| `Sweep.CalibratedCovers` | src/stoquant/sweep.py:515-549 | a calibrated case passes iff the probe is accepted, and its warm-up count is the least one that covers the target at the probe's median |
| `Sweep.ProgressKept` | src/stoquant/sweep.py:552-605 | a case still passing has one run per trial in trial order with every sample of its answer in its place and the demanded identifiers, and a failed one stays failed |
| `Sweep.ProgressPasses` | src/stoquant/sweep.py:564-585 | a case passes its trials iff it passed before and every answer is accepted |
| `Sweep.FirstRefusal` | src/stoquant/sweep.py:583-585 | the first refused answer stops a case, with its message and with the gate's verdict kept |
| `Sweep.RunTrials` | src/stoquant/sweep.py:552-605 | every case ends as its own trials alone determine, whatever the orders interleave |
| `Sweep.CheckRuns` | src/stoquant/sweep.py:614-626 | which disagreement between runs is reported, if any |
| `Sweep.Summarise` | src/stoquant/sweep.py:610-632 | a failed case loses its runs, and a passing one gains the common identifiers and threads, all samples in trial order and the statistics over them |
| `Sweep.FinishedNumbers` | src/stoquant/sweep.py:627-632 | a published case holds the numbers of all its answers, trial after trial, the median of them all and the median of each trial |
| `Sweep.ProgressVerdict` | src/stoquant/sweep.py:614-626 | after validated trials only an open thread count can make runs disagree |
| `Sweep.DisagreementIff` | src/stoquant/sweep.py:614-626 | some answers make the statistics step raise iff the case starts passing, runs at least two trials, and its request can be answered and leaves the thread count open |
| `Sweep.PathsAgree` | src/stoquant/design.py:70-75 | every path's request can be answered, means the same boundary on both sides, and leaves the thread count open iff it is the AVX2 path |
| `Sweep.PathsAsk` | src/stoquant/design.py:62-75 | what each path asks for: back end, boundary, policy, and the settings as they are |
| `Sweep.NestedWork` | src/stoquant/design.py:90-103 | a nested path runs on the same back end and is timed on some but not all stages of the outer one; on CUDA, with stages and memory alike, also conversely |
| `Sweep.RunCases` | src/stoquant/sweep.py:255-268 | every case ends with all trials, their samples and statistics or with neither, passes iff gate, warm-up and all its answers do, and the identifier error is unreachable |
| `Sweep.CollectGroup` | src/stoquant/sweep.py:634-635 | the comparison sees the statistics of the passing cases and nothing of the others |
| `Sweep.GroupConsistent` | src/stoquant/stats.py:89-106 | the statistics of a finished group are consistent |
| `Sweep.RunGroup` | src/stoquant/sweep.py:240-268 | every case ends with all trials, their samples and statistics or with neither, and passes iff gate, warm-up and answers do; only the AVX2 path can end it with an error; the entries are those of the comparison, and every claim among them is chained |
| `Sweep.FinishManifest` | src/stoquant/sweep.py:751-759 | the evidence flag survives iff no case failed, and a failure is listed iff there is one |
| `Sweep.RunSweep` | src/stoquant/sweep.py:223-311 | every group stands in the case list path by path, finished with its own settings and answers, and the manifest says evidence iff it was asked for and every case of every group is complete |

## Left out

- native/quantizer_cuda.cu: the optimized sum is modelled (`WarpTree`), with warps, segments and shuffles in sequence; the max scan, the reference K1 kernels, K2, K3, the early zero of a skipped sum and the launches are not part of this model.
- Random123: the round is taken from the oracle and from the vector chunk, which agree.
- Floating-point details: NaN payloads never matter, since the scans refuse them; the model's arithmetic covers non-negative magnitudes. The encoder works on magnitudes and sign bits itself; the decoder (`native/codec.c:108`, `:132`) divides and multiplies signed floats, which the model matches for a rounding symmetric about zero.
- Reconstruction.ReconstructionBound: the reference of `src/stoquant/oracle.py:262-290` is taken over real numbers, so its own binary64 roundings are not counted.
- Unbiased.DecodedMean: states the mean over all equally likely words; that Philox words are distributed that way is not provable and not claimed.
- WordStreams.WordsCuda: whether the device fails is a parameter; the copies to and from the device are not modelled.
- WordStreams.WordsByTeam: assumes that the words fit in memory (4·n below 2^64), as the buffer the caller passes does.
- Scale.ComputeScale: a missing result argument and the allocating wrapper (`native/quantizer.c:132-155`) are left out; the wrapper only adds an allocation failure.
- Compress.CompressRecord: the payload part of the record is handed to the encoder as a copy and put back, since an array cannot be passed from the middle.
- Compress.Workspace.Reserve: whether each allocation succeeds is a parameter; the old contents of a grown buffer are not tracked, as no caller reads them.
- Memory model: stores of different threads interleave one at a time, and the end of a region is a barrier; the source's regions write disjoint places.
- Statistics.CaseConsistent: samples are real numbers, so ratios are exact; mean, standard deviation and quartiles are left out because nothing depends on them.
- Statistics.PointInRange: the bootstrap interval is left out, as it depends on a NumPy generator; `case_order` and input generation are left out for the same reason.
- Claims.CompareCaseGroup: entries are values attached to paths instead of keys added to shared dictionaries, which loses only the merging of keys.
- Snapshots.ReachableSafe: renaming is taken at its worst, as overwriting; a run's own order of calls is kept. Derived outputs, registration and progress files are left out.
- Runner.ValidateBenchResponse: a request has typed options, so scanning option strings is left out; a field holds a number, a list of numbers, a name, nothing or something else, which is what the checks of JSON types distinguish, and error messages are the reported check.
- BenchReport.NativeAcceptedIff: measured times are taken as printed, that is, already rounded to the printed digits; the printed header and payload sizes are left out, as the driver's checks ignore them.
- Sweep.RunGroup: processes answer arbitrarily, as parameters; GPU state, file output and summary rows are left out.
- Sweep.Summarise: stage medians are left out, because nothing depends on them.
- Sweep.RunSweep: the order of the case list is not modelled, as sorting does not change its members.
- Command line, tables, report, plots, publication, host probing, provenance, builds, monitoring and notification: input, output and rendering.
