/** From the input of one call to the values that decoding its record gives. */
module EndToEnd {
  import opened Words
  import opened Binary32
  import opened MagnitudeScan
  import opened Codes
  import opened Packing
  import opened Codec
  import opened Philox
  import opened WordStreams
  import opened Compress
  import opened ScaleBounds
  import opened Reconstruction
  import Encoder
  import Scale

  /**
   The record's payload holds value `i` rounded by its own word, the caller's or the
   stream's, under the stored scale.
   */
  ghost predicate RecordRounds(ar: Arith, job: Job, record: seq<u8>, i: nat)
    requires Compress.Sized(job) && (job.words.None? ==> FitsCounter(job))
  {
    && PrefixStatus(record) == Ok
    && var words := if job.words.Some? then job.words.value
                    else WordsUpTo(Stream(job.seed, job.tensor, job.invocation), job.count);
       Encoder.RoundedByWord(ar, Encoder.Request(job.bits, job.values, job.count, HeaderScale(record), Some(words)),
                             record[HEADER_SIZE..], i)
  }

  lemma StoredCode(ar: Arith, job: Job, scale: u32, before: seq<u8>, i: nat)
    requires ar.Valid() && Compress.Sized(job) && (job.words.None? ==> FitsCounter(job)) && i < job.count
    requires |before| == HEADER_SIZE + PayloadSize(job.bits, job.count)
    requires HeaderStatus(job.bits, job.count, scale) == Ok && Encoder.EncodeStatus(RequestFor(job, scale), true) == Ok
    ensures var record := Header(job.bits, job.count, scale)
              + Encoder.After(ar, RequestFor(job, scale), before[HEADER_SIZE..]);
            RecordRounds(ar, job, record, i)
  {
    hide Encoder.EncodeStatus, Encoder.RoundedByWord, Encoder.After, HeaderStatus, WordsUpTo, PrefixStatus, Header;
    StoredFields(ar, job, scale, before);
    var rest := Encoder.After(ar, RequestFor(job, scale), before[HEADER_SIZE..]);
    HeaderFields(job.bits, job.count, scale, rest);
    Encoder.EveryCodeRounded(ar, RequestFor(job, scale), before[HEADER_SIZE..], i);
  }

  /** Every completed record, prescribed parts or not, holds every value rounded by its own word. */
  lemma CompletedRounds(ar: Arith, job: Job, capacity: Option<nat>, before: seq<u8>, i: nat)
    requires ar.Valid() && Compress.Sized(job) && |before| == HEADER_SIZE + PayloadSize(job.bits, job.count)
    requires Compressed(ar, job, capacity, before).0 == Ok && i < job.count
    ensures job.words.None? ==> FitsCounter(job)
    ensures RecordRounds(ar, job, Compressed(ar, job, capacity, before).1, i)
  {
    hide Encoder.EncodeStatus, Encoder.After, HeaderStatus, ScaleResult, WordsFor, Header, RecordRounds;
    StoredCode(ar, job, ScaleResult(ar, job, capacity).1, before, i);
  }

  /** Value `i` of the decoded record, with its sign, is within `bound` of `reference`. */
  ghost predicate DecodesWithin(ar: Arith, record: seq<u8>, i: nat, reference: real, bound: real)
    requires ar.Valid()
  {
    && DecodeStatus(record, true) == Ok
    && var f := FieldsOf(record);
       && i < |f.codes| && IsFinite(f.scale) && CodesInRange(f.bits, f.codes)
       && var decoded := DecodedValues(ar, f)[i];
          IsFinite(decoded) && Apart(SignedValue(decoded), reference) <= bound
  }

  /**
   Whatever record a call with a computed scale completes for a non-zero input, its
   decoded value `i` is within the published bound of the reference reconstruction
   of value `i` from the same word.
   */
  lemma DecodedBound(ar: Arith, job: Job, capacity: Option<nat>, before: seq<u8>, norm: real, i: nat)
    requires Nearest(ar) && Compress.Sized(job) && |before| == HEADER_SIZE + PayloadSize(job.bits, job.count)
    requires Compressed(ar, job, capacity, before).0 == Ok && job.scale.None? && i < job.count
    requires job.values.Some? && MaxMagnitude(job.values.value) > 0 && IsNorm(norm, job.values.value)
    ensures (job.words.None? ==> FitsCounter(job)) && AllFinite(job.values.value) && norm > 0.0
    ensures Errors(Roundoff(), Operations(job.count)) < 1.0 && Epsilon(job.count, norm) < 1.0
    ensures var words := if job.words.Some? then job.words.value
                         else WordsUpTo(Stream(job.seed, job.tensor, job.invocation), job.count);
            DecodesWithin(ar, Compressed(ar, job, capacity, before).1, i,
                          Reference(job.values.value[i], norm, Limit(job.bits), words[i]),
                          PublishedReconstruction(job.count, Limit(job.bits), norm))
  {
    hide Encoder.EncodeStatus, HeaderStatus, Compressed, WordsUpTo, DecodeStatus, MaxMagnitude, IsNorm, Standard,
      Gradual, Arith.Valid, Errors, Epsilon, Reference, PublishedReconstruction, Reconstructed, DecodesWithin,
      Operations;
    CompletedDecodes(ar, job, capacity, before);
    ComputedStatus(ar, job, capacity, before);
    var values, scale := job.values.value, Scale.ScaleOf(ar, job.values.value, capacity).1;
    var w := WordsFor(job)[i];
    ReconstructionBound(ar, values, job.bits, capacity, norm, i, w);
    var bound := PublishedReconstruction(job.count, Limit(job.bits), norm);
    RecordWithin(ar, job, Compressed(ar, job, capacity, before).1, scale, norm, i, bound);
  }

  /** A completed call computed its scale from finite values. */
  lemma ComputedStatus(ar: Arith, job: Job, capacity: Option<nat>, before: seq<u8>)
    requires ar.Valid() && Compress.Sized(job) && |before| == HEADER_SIZE + PayloadSize(job.bits, job.count)
    requires Compressed(ar, job, capacity, before).0 == Ok && job.scale.None? && job.values.Some? && job.count > 0
    ensures Scale.ScaleOf(ar, job.values.value, capacity).0 == Ok && AllFinite(job.values.value)
    ensures ScaleResult(ar, job, capacity).1 == Scale.ScaleOf(ar, job.values.value, capacity).1
  {
    hide Encoder.EncodeStatus, HeaderStatus, Scale.Rescaled, WordsFor;
  }

  lemma RecordWithin(ar: Arith, job: Job, record: seq<u8>, scale: AbsBits, norm: real, i: nat, bound: real)
    requires ar.Valid() && Compress.Sized(job) && (job.words.None? ==> FitsCounter(job)) && job.values.Some?
    requires i < job.count && norm > 0.0 && DecodeStatus(record, true) == Ok
    requires Encoder.EncodeStatus(RequestFor(job, scale), true) == Ok
    requires FieldsOf(record) == Fields(job.bits, job.count, scale, Encoder.CodesFor(ar, RequestFor(job, scale)))
    requires Reconstructed(ar, job.values.value[i], job.bits, scale, norm, WordsFor(job)[i], bound)
    ensures IsFinite(job.values.value[i])
    ensures DecodesWithin(ar, record, i, Reference(job.values.value[i], norm, Limit(job.bits), WordsFor(job)[i]), bound)
  {
    hide Code, Scaled, DecodedPattern, SignedValue, Reference, FirstFault, WordsUpTo, Arith.Valid, Limit, AllFinite,
      MaxMagnitude, Apart;
    assert FieldsOf(record).codes[i] == Code(ar, job.values.value[i], scale, Limit(job.bits), WordsFor(job)[i]);
  }

  /** A record of all-zero input decodes to zeros, as the reference does. */
  lemma ZerosDecode(ar: Arith, job: Job, capacity: Option<nat>, before: seq<u8>, i: nat)
    requires ar.Valid() && Compress.Sized(job) && |before| == HEADER_SIZE + PayloadSize(job.bits, job.count)
    requires Compressed(ar, job, capacity, before).0 == Ok && i < job.count
    requires job.values.Some? && MaxMagnitude(job.values.value) == 0
    ensures DecodesWithin(ar, Compressed(ar, job, capacity, before).1, i, 0.0, 0.0)
  {
    hide Compressed, WordsUpTo, MaxMagnitude, Arith.Valid, ScaleResult, DecodedPattern, SignedValue, Encoder.AllCodes,
      LevelMagnitude, FirstFault, HeaderStatus;
    CompletedDecodes(ar, job, capacity, before);
    var scale := ScaleResult(ar, job, capacity).1;
    Encoder.AcceptedMeans(RequestFor(job, scale), true);
    ZeroInput(job.values.value);
    hide Encoder.EncodeStatus;
    DecodedIs(ar, job.bits, scale, 0, false);
    ZeroLevel(ar, Limit(job.bits), 0);
  }

  lemma ZeroInput(values: seq<u32>)
    requires MaxMagnitude(values) == 0
    ensures forall i :: 0 <= i < |values| ==> Magnitude(values[i]) == 0
  {
    MaxDecides(values);
  }
}
