/** The payload encoder: shared checks, the scalar loops, and the team that encodes whole 256-value blocks. */
module Encoder {
  import opened Words
  import opened Binary32
  import opened Team
  import opened MagnitudeScan
  import opened Codes
  import opened Packing

  /** One call's inputs; a missing buffer is null in the source. */
  datatype Request = Request(bits: u8, values: Option<seq<u32>>, count: nat, scale: u32, words: Option<seq<u32>>)

  /** Buffers that are present hold the promised number of elements. */
  ghost predicate Sized(q: Request, payload: array?<u8>)
  {
    && 4 * q.count < TWO_64
    && (q.values.Some? ==> |q.values.value| == q.count)
    && (q.words.Some? ==> |q.words.value| == q.count)
    && (payload != null ==> payload.Length >= PayloadSize(q.bits, q.count))
  }

  predicate IsZero(scale: u32) { Magnitude(scale) == 0 }

  /** `scale < 0`; minus zero is not negative. */
  predicate IsNegative(scale: u32) { SignBit(scale) == 1 && Magnitude(scale) != 0 }

  predicate Missing(q: Request, hasPayload: bool) { q.count != 0 && (q.values.None? || q.words.None? || !hasPayload) }

  /** The status of a call, in the order of the checks. */
  ghost function EncodeStatus(q: Request, hasPayload: bool): Status
  {
    if !KnownWidth(q.bits) then ErrBitWidth
    else if Missing(q, hasPayload) then ErrArgument
    else if !IsFinite(q.scale) || IsNegative(q.scale) || (q.count == 0 && !IsZero(q.scale)) then ErrScale
    else if q.count == 0 then Ok
    else if !AllFinite(q.values.value) then ErrNonfinite
    else if IsZero(q.scale) != (MaxMagnitude(q.values.value) == 0) then ErrScale
    else Ok
  }

  ghost predicate Accepted(q: Request, hasPayload: bool) { EncodeStatus(q, hasPayload) == Ok }

  /** What acceptance means: zero scale exactly for an input without a non-zero value. */
  lemma AcceptedMeans(q: Request, hasPayload: bool)
    requires q.values.Some? ==> |q.values.value| == q.count
    ensures Accepted(q, hasPayload) <==>
            && KnownWidth(q.bits) && !Missing(q, hasPayload) && IsFinite(q.scale) && !IsNegative(q.scale)
            && (q.count == 0 ==> IsZero(q.scale))
            && (q.count > 0 ==> AllFinite(q.values.value))
            && (q.count > 0 ==>
                  (IsZero(q.scale) <==> forall i :: 0 <= i < q.count ==> Magnitude(q.values.value[i]) == 0))
  {
    if q.values.Some? {
      MaxDecides(q.values.value);
    }
  }

  /**
   The conditions that a call is refused for, in order: known width, buffers there,
   a finite scale that is not negative, and a zero scale for no values.
   */
  ghost predicate EncodeReaches(q: Request, hasPayload: bool, k: nat)
  {
    && (k >= 1 ==> q.bits == 4 || q.bits == 8)
    && (k >= 2 ==> q.count == 0 || (q.values.Some? && q.words.Some? && hasPayload))
    && (k >= 3 ==> Magnitude(q.scale) < INFINITY && (SignBit(q.scale) == 0 || Magnitude(q.scale) == 0))
    && (k >= 4 ==> q.count == 0 ==> Magnitude(q.scale) == 0)
  }

  /** Which refusal a call gets: the status of the first condition it fails. */
  lemma EncodeRefusals(q: Request, hasPayload: bool)
    requires q.values.Some? ==> |q.values.value| == q.count
    ensures var status, reached := EncodeStatus(q, hasPayload), EncodeReaches(q, hasPayload, 4) && q.count > 0;
            && (status == ErrBitWidth <==> !EncodeReaches(q, hasPayload, 1))
            && (status == ErrArgument <==> EncodeReaches(q, hasPayload, 1) && !EncodeReaches(q, hasPayload, 2))
            && (status == ErrNonfinite <==> reached && exists i :: 0 <= i < q.count && !IsFinite(q.values.value[i]))
            && (status == ErrScale <==>
                  || (EncodeReaches(q, hasPayload, 2) && !EncodeReaches(q, hasPayload, 4))
                  || (&& reached && (forall i :: 0 <= i < q.count ==> IsFinite(q.values.value[i]))
                      && (Magnitude(q.scale) == 0
                          <==> exists i :: 0 <= i < q.count && Magnitude(q.values.value[i]) != 0)))
            && (status == Ok || status == ErrBitWidth || status == ErrArgument || status == ErrScale
                || status == ErrNonfinite)
  {
    if q.values.Some? {
      MaxDecides(q.values.value);
    }
    hide MaxMagnitude;
  }

  ghost predicate Live(ar: Arith, values: seq<u32>, scale: AbsBits, words: seq<u32>)
  {
    ar.Valid() && AllFinite(values) && 0 < scale < INFINITY && |words| == |values|
  }

  ghost function CodeOf(ar: Arith, values: seq<u32>, scale: AbsBits, s: nat, words: seq<u32>, i: nat): (c: u8)
    requires Live(ar, values, scale, words) && i < |values| && s <= 127
    ensures c <= 2 * s
  {
    CodeInRange(ar, values[i], scale, s, words[i]);
    Code(ar, values[i], scale, s, words[i])
  }

  ghost function CodesOf(ar: Arith, values: seq<u32>, scale: AbsBits, s: nat, words: seq<u32>): (c: seq<u8>)
    requires Live(ar, values, scale, words) && s <= 127
    ensures |c| == |values|
    ensures forall i :: 0 <= i < |c| ==> c[i] == CodeOf(ar, values, scale, s, words, i)
  {
    seq(|values|, i requires 0 <= i < |values| => CodeOf(ar, values, scale, s, words, i))
  }

  /** The codes of an accepted call: the centre code everywhere when the scale is zero. */
  ghost function CodesFor(ar: Arith, q: Request): (c: seq<u8>)
    requires ar.Valid() && (q.values.Some? ==> |q.values.value| == q.count)
             && (q.words.Some? ==> |q.words.value| == q.count)
    requires Accepted(q, true)
    ensures |c| == q.count && forall i :: 0 <= i < |c| ==> c[i] <= 2 * Limit(q.bits)
  {
    if q.count == 0 then []
    else if IsZero(q.scale) then seq(q.count, _ => Limit(q.bits))
    else CodesOf(ar, q.values.value, q.scale, Limit(q.bits), q.words.value)
  }

  /** The payload bytes of an accepted call. */
  ghost function PayloadFor(ar: Arith, q: Request): (p: seq<u8>)
    requires ar.Valid() && (q.values.Some? ==> |q.values.value| == q.count)
             && (q.words.Some? ==> |q.words.value| == q.count)
    requires Accepted(q, true)
    ensures |p| == PayloadSize(q.bits, q.count)
  {
    Pack(q.bits, CodesFor(ar, q))
  }

  // ---------- shared checks ----------

  /** Which input scan the caller passes in. */
  datatype Scan = Scalar | ByTeam(team: nat, order: seq<nat>)

  ghost predicate ValidScan(scan: Scan) { scan.ByTeam? ==> Arrivals(scan.order, scan.team) }

  method RunScan(scan: Scan, values: seq<u32>) returns (status: Status, hasNonzero: bool)
    requires ValidScan(scan)
    ensures status == if AllFinite(values) then Ok else ErrNonfinite
    ensures status == Ok ==> hasNonzero == (MaxMagnitude(values) != 0)
  {
    match scan
    case Scalar => status, hasNonzero := ScanForEncode(values);
    case ByTeam(team, order) => status, hasNonzero := ScanForEncodeByTeam(values, team, order);
  }

  ghost function Centres(count: nat, s: u8): (c: seq<u8>)
    ensures |c| == count
  {
    seq(count, _ => s)
  }

  lemma PackedCentres(bits: nat, count: nat, i: nat)
    requires KnownWidth(bits) && i < PayloadSize(bits, count)
    ensures Pack(bits, Centres(count, Limit(bits)))[i]
            == if bits == Q8_BITS then 127 else if 2 * i + 1 < count then 7 + 16 * 7 else 7
  {
    if bits == Q4_BITS {
      assert Pack(bits, Centres(count, Limit(bits)))[i] == PairByte(Centres(count, Limit(bits)), i);
    }
  }

  /** The payload of a zero scale: the centre code in every place. */
  method FillCentre(bits: u8, count: nat, payload: array<u8>)
    requires KnownWidth(bits) && PayloadSize(bits, count) <= payload.Length
    modifies payload
    ensures payload[..] == Pack(bits, Centres(count, Limit(bits))) + old(payload[PayloadSize(bits, count)..])
  {
    hide Pack;
    var s := Limit(bits);
    ghost var goal := Pack(bits, Centres(count, s));
    var pairs := if bits == Q8_BITS then count else count / 2;
    var full: u8 := if bits == Q8_BITS then s else s % 16 + 16 * (s % 16);
    for i := 0 to pairs
      invariant forall j :: 0 <= j < i ==> payload[j] == goal[j]
      invariant forall j :: i <= j < payload.Length ==> payload[j] == old(payload[j])
    {
      PackedCentres(bits, count, i);
      payload[i] := full;
    }
    if bits != Q8_BITS && count % 2 == 1 {
      PackedCentres(bits, count, pairs);
      payload[pairs] := s % 16;
    }
    assert payload[..] == goal + old(payload[PayloadSize(bits, count)..]);
  }

  method Prologue(q: Request, payload: array?<u8>, scan: Scan) returns (status: Status, skip: bool, limit: nat)
    requires Sized(q, payload) && ValidScan(scan)
    modifies payload
    ensures status == EncodeStatus(q, payload != null)
    ensures status == Ok ==> limit == Limit(q.bits) && skip == (q.count == 0 || IsZero(q.scale))
    ensures payload != null && status == Ok && q.count != 0 && skip ==>
              payload[..] == Pack(q.bits, Centres(q.count, Limit(q.bits)))
                + old(payload[PayloadSize(q.bits, q.count)..])
    ensures payload != null && !(status == Ok && q.count != 0 && skip) ==> payload[..] == old(payload[..])
  {
    skip, limit := false, 0;
    if q.bits != Q4_BITS && q.bits != Q8_BITS {
      return ErrBitWidth, skip, limit;
    }
    limit := Limit(q.bits);
    if q.count != 0 && (q.values.None? || q.words.None? || payload == null) {
      return ErrArgument, skip, limit;
    }
    if !IsFinite(q.scale) || IsNegative(q.scale) {
      return ErrScale, skip, limit;
    }
    if q.count == 0 && !IsZero(q.scale) {
      return ErrScale, skip, limit;
    }
    if q.count == 0 {
      return Ok, true, limit;
    }
    var hasNonzero;
    status, hasNonzero := RunScan(scan, q.values.value);
    if status != Ok {
      return;
    }
    if !hasNonzero && !IsZero(q.scale) {
      return ErrScale, skip, limit;
    }
    if IsZero(q.scale) {
      if hasNonzero {
        return ErrScale, skip, limit;
      }
      FillCentre(q.bits, q.count, payload);
      skip := true;
    }
    status := Ok;
  }

  // ---------- scalar ----------

  /** The inputs of the loops behind an accepted call with a non-zero scale. */
  ghost predicate Ready(ar: Arith, q: Request)
  {
    && KnownWidth(q.bits) && q.values.Some? && q.words.Some? && |q.values.value| == q.count
    && q.scale < INFINITY && Live(ar, q.values.value, q.scale, q.words.value)
  }

  ghost function AllCodes(ar: Arith, q: Request): (c: seq<u8>)
    requires Ready(ar, q)
    ensures |c| == q.count
  {
    CodesOf(ar, q.values.value, q.scale, Limit(q.bits), q.words.value)
  }

  ghost function Goal(ar: Arith, q: Request): (p: seq<u8>)
    requires Ready(ar, q)
    ensures |p| == PayloadSize(q.bits, q.count)
  {
    Pack(q.bits, AllCodes(ar, q))
  }

  method CodeOfValue(ar: Arith, q: Request, i: nat) returns (c: u8)
    requires Ready(ar, q) && i < q.count
    ensures c == AllCodes(ar, q)[i]
  {
    c := CodeScalar(ar, q.values.value[i], q.scale, Limit(q.bits), q.words.value[i]);
  }

  lemma GoalByte(ar: Arith, q: Request, i: nat)
    requires Ready(ar, q) && i < PayloadSize(q.bits, q.count)
    ensures var codes := AllCodes(ar, q);
            Goal(ar, q)[i] == if q.bits == Q4_BITS then PairByte(codes, i) else codes[i]
  {
  }

  lemma GoalPair(ar: Arith, q: Request, i: nat)
    requires Ready(ar, q) && q.bits == Q4_BITS && i < PayloadSize(q.bits, q.count)
    ensures 2 * i < q.count
    ensures Goal(ar, q)[i]
            == TwoNibbles(AllCodes(ar, q)[2 * i], if 2 * i + 1 < q.count then AllCodes(ar, q)[2 * i + 1] else 0)
  {
    GoalByte(ar, q, i);
  }

  /** One byte per value. */
  method EncodeBytes(ar: Arith, q: Request, payload: array<u8>)
    requires Ready(ar, q) && q.bits == Q8_BITS && PayloadSize(q.bits, q.count) <= payload.Length
    modifies payload
    ensures payload[..] == Goal(ar, q) + old(payload[PayloadSize(q.bits, q.count)..])
  {
    hide Goal, AllCodes, Ready;
    ghost var goal := Goal(ar, q);
    for i := 0 to q.count
      invariant forall j :: 0 <= j < i ==> payload[j] == goal[j]
      invariant forall j :: i <= j < payload.Length ==> payload[j] == old(payload[j])
    {
      GoalByte(ar, q, i);
      var c := CodeOfValue(ar, q, i);
      payload[i] := c;
    }
    assert payload[..] == goal + old(payload[PayloadSize(q.bits, q.count)..]);
  }

  /** The byte of one pair. */
  method EncodePair(ar: Arith, q: Request, i: nat) returns (b: u8)
    requires Ready(ar, q) && q.bits == Q4_BITS && i < PayloadSize(q.bits, q.count)
    ensures b == Goal(ar, q)[i]
  {
    hide AllCodes, Ready, TwoNibbles, PairByte;
    GoalPair(ar, q, i);
    hide Goal;
    var c0 := CodeOfValue(ar, q, 2 * i);
    if 2 * i + 1 < q.count {
      var c1 := CodeOfValue(ar, q, 2 * i + 1);
      b := TwoNibbles(c0, c1);
    } else {
      b := TwoNibbles(c0, 0);
    }
  }

  /** Whole pairs, then the last code of an odd count alone in its byte. */
  method EncodeNibbles(ar: Arith, q: Request, payload: array<u8>)
    requires Ready(ar, q) && q.bits == Q4_BITS && PayloadSize(q.bits, q.count) <= payload.Length
    modifies payload
    ensures payload[..] == Goal(ar, q) + old(payload[PayloadSize(q.bits, q.count)..])
  {
    hide Goal, AllCodes, Ready;
    ghost var goal := Goal(ar, q);
    var pairs := q.count / 2;
    for i := 0 to pairs
      invariant forall j :: 0 <= j < i ==> payload[j] == goal[j]
      invariant forall j :: i <= j < payload.Length ==> payload[j] == old(payload[j])
    {
      var b := EncodePair(ar, q, i);
      payload[i] := b;
    }
    if q.count % 2 == 1 {
      var b := EncodePair(ar, q, pairs);
      payload[pairs] := b;
    }
    assert payload[..] == goal + old(payload[PayloadSize(q.bits, q.count)..]);
  }

  /** What a call leaves in the buffer: the payload in front when it succeeds, nothing changed otherwise. */
  ghost function After(ar: Arith, q: Request, before: seq<u8>): (after: seq<u8>)
    requires ar.Valid() && (q.values.Some? ==> |q.values.value| == q.count)
             && (q.words.Some? ==> |q.words.value| == q.count)
    requires |before| >= PayloadSize(q.bits, q.count)
  {
    if Accepted(q, true) then PayloadFor(ar, q) + before[PayloadSize(q.bits, q.count)..] else before
  }

  lemma AcceptedIsReady(ar: Arith, q: Request)
    requires ar.Valid() && (q.values.Some? ==> |q.values.value| == q.count)
             && (q.words.Some? ==> |q.words.value| == q.count)
    requires Accepted(q, true) && q.count != 0 && !IsZero(q.scale)
    ensures Ready(ar, q) && PayloadFor(ar, q) == Goal(ar, q)
  {
  }

  lemma SkippedPayload(ar: Arith, q: Request)
    requires ar.Valid() && (q.values.Some? ==> |q.values.value| == q.count)
             && (q.words.Some? ==> |q.words.value| == q.count)
    requires Accepted(q, true) && (q.count == 0 || IsZero(q.scale))
    ensures PayloadFor(ar, q) == Pack(q.bits, Centres(q.count, Limit(q.bits)))
  {
    assert CodesFor(ar, q) == Centres(q.count, Limit(q.bits));
  }

  /**
   Code `i` of a payload is value `i` rounded by word `i`: the floor of the scaled
   magnitude, one more when the word is below the threshold, with the value's sign
   and offset by the limit. A zero scale stores the limit alone.
   */
  ghost predicate RoundedByWord(ar: Arith, q: Request, payload: seq<u8>, i: nat)
  {
    && q.values.Some? && q.words.Some? && i < |q.values.value| && i < |q.words.value|
    && i < (if q.bits == Q4_BITS then 2 * |payload| else |payload|)
    && var x, word, s := q.values.value[i], q.words.value[i], if q.bits == Q4_BITS then 7 else 127;
       if IsZero(q.scale) then CodeAt(q.bits, payload, i) == s
       else
         && IsFinite(x) && q.scale < INFINITY && Scaled(ar, x, q.scale, s) < INFINITY
         && var v := Value(Scaled(ar, x, q.scale, s));
            var level := v.Floor + if word < TrueThreshold(v) then 1 else 0;
            CodeAt(q.bits, payload, i) == s + if SignBit(x) == 1 then 0 - level else level
  }

  /** What an accepted call leaves behind holds every value rounded by its own word. */
  lemma EveryCodeRounded(ar: Arith, q: Request, before: seq<u8>, i: nat)
    requires ar.Valid() && (q.values.Some? ==> |q.values.value| == q.count)
             && (q.words.Some? ==> |q.words.value| == q.count)
    requires Accepted(q, true) && |before| >= PayloadSize(q.bits, q.count) && i < q.count
    ensures RoundedByWord(ar, q, After(ar, q, before), i)
  {
    hide Scaled, Value, TrueThreshold, Pack, MaxMagnitude;
    var codes, after := CodesFor(ar, q), After(ar, q, before);
    PackedCode(q.bits, codes, i);
    CodeInFront(q.bits, Pack(q.bits, codes), before[PayloadSize(q.bits, q.count)..], q.count, i);
    if !IsZero(q.scale) {
      AcceptedIsReady(ar, q);
      ScaledInRange(ar, q.values.value[i], q.scale, Limit(q.bits));
    }
  }

  lemma CodeInFront(bits: nat, payload: seq<u8>, rest: seq<u8>, count: nat, i: nat)
    requires |payload| == PayloadSize(bits, count) && i < count
    ensures CodeAt(bits, payload + rest, i) == CodeAt(bits, payload, i)
  {
  }

  /** The scalar encoder. */
  method EncodeScalar(ar: Arith, q: Request, payload: array?<u8>) returns (status: Status)
    requires ar.Valid() && Sized(q, payload)
    modifies payload
    ensures status == EncodeStatus(q, payload != null)
    ensures payload != null ==> payload[..] == After(ar, q, old(payload[..]))
    ensures payload != null && status == Ok ==> forall i :: 0 <= i < q.count ==> RoundedByWord(ar, q, payload[..], i)
  {
    if payload != null && Accepted(q, true) {
      forall i | 0 <= i < q.count
        ensures RoundedByWord(ar, q, After(ar, q, payload[..]), i)
      {
        EveryCodeRounded(ar, q, payload[..], i);
      }
    }
    hide RoundedByWord;
    var skip, limit;
    status, skip, limit := Prologue(q, payload, Scalar);
    if status != Ok {
      return;
    }
    if skip {
      if payload != null {
        SkippedPayload(ar, q);
        assert q.count == 0 ==> PayloadFor(ar, q) == [];
      }
      return;
    }
    AcceptedIsReady(ar, q);
    if q.bits == Q8_BITS {
      EncodeBytes(ar, q, payload);
    } else {
      EncodeNibbles(ar, q, payload);
    }
  }

  // ---------- the team ----------

  /** First payload byte of the value at a boundary of whole blocks. */
  function ByteCut(bits: nat, cut: nat): nat { PayloadSize(bits, cut) }

  /** The floors and thresholds of one block. */
  method SplitScaled(ar: Arith, q: Request, base: nat, n: nat) returns (lower: array<nat>, threshold: array<u32>)
    requires Ready(ar, q) && base + n <= q.count && n <= BLOCK
    ensures lower.Length == threshold.Length == BLOCK
    ensures forall k :: 0 <= k < n ==> SplitAt(ar, q, base + k, lower[k], threshold[k])
  {
    hide Ready;
    lower, threshold := new nat[BLOCK], new u32[BLOCK];
    for k := 0 to n
      invariant forall j :: 0 <= j < k ==> SplitAt(ar, q, base + j, lower[j], threshold[j])
    {
      var l, t := SplitValue(ar, q, base + k);
      lower[k], threshold[k] := l, t;
    }
  }

  /** The floor of scaled value `i` and the exact threshold of its fraction. */
  ghost predicate SplitAt(ar: Arith, q: Request, i: nat, lower: nat, threshold: u32)
    requires Ready(ar, q) && i < q.count
  {
    ScaledInRange(ar, q.values.value[i], q.scale, Limit(q.bits));
    var v := Value(Scaled(ar, q.values.value[i], q.scale, Limit(q.bits)));
    lower == v.Floor && threshold == TrueThreshold(v)
  }

  method SplitValue(ar: Arith, q: Request, i: nat) returns (lower: nat, threshold: u32)
    requires Ready(ar, q) && i < q.count
    ensures SplitAt(ar, q, i, lower, threshold)
  {
    lower, threshold := SplitOne(ar, q.values.value[i], q.scale, Limit(q.bits));
    hide Scaled, Code, TrueThreshold, Value;
  }

  /** The codes of one block from its floors and thresholds. */
  method CombineCodes(ar: Arith, q: Request, base: nat, n: nat, lower: array<nat>, threshold: array<u32>)
    returns (codes: seq<u8>)
    requires Ready(ar, q) && base + n <= q.count && n <= lower.Length == threshold.Length
    requires forall k :: 0 <= k < n ==> SplitAt(ar, q, base + k, lower[k], threshold[k])
    ensures codes == AllCodes(ar, q)[base..base + n]
    ensures forall k :: 0 <= k < n ==> CombinedAt(q, base + k, lower[k], threshold[k], codes[k])
  {
    hide AllCodes, SplitAt, Arith.Valid, Live, CombinedAt;
    ghost var all := AllCodes(ar, q);
    codes := [];
    for k := 0 to n
      invariant |codes| == k && forall j :: 0 <= j < k ==> codes[j] == all[base + j]
      invariant forall j :: 0 <= j < k ==> CombinedAt(q, base + j, lower[j], threshold[j], codes[j])
    {
      var c := CombineValue(ar, q, base + k, lower[k], threshold[k]);
      codes := codes + [c];
    }
  }

  /** Value `i`'s code from its own floor, threshold, word and sign. */
  ghost predicate CombinedAt(q: Request, i: nat, lower: nat, threshold: u32, code: u8)
  {
    && q.values.Some? && q.words.Some? && i < |q.values.value| && i < |q.words.value|
    && var level := lower + if q.words.value[i] < threshold then 1 else 0;
       code == Limit(q.bits) + if SignBit(q.values.value[i]) == 1 then 0 - level else level
  }

  method CombineValue(ar: Arith, q: Request, i: nat, lower: nat, threshold: u32) returns (c: u8)
    requires Ready(ar, q) && i < q.count && SplitAt(ar, q, i, lower, threshold)
    ensures c == AllCodes(ar, q)[i] && CombinedAt(q, i, lower, threshold, c)
  {
    CombinedIsCode(ar, q.values.value[i], q.scale, Limit(q.bits), q.words.value[i]);
    hide Scaled, Code, TrueThreshold, Value, Draw, Signed;
    c := CombineOne(q.words.value[i], q.values.value[i], lower, threshold, Limit(q.bits));
  }

  method BlockCodes(ar: Arith, q: Request, base: nat, n: nat) returns (codes: seq<u8>)
    requires Ready(ar, q) && base + n <= q.count && n <= BLOCK
    ensures codes == AllCodes(ar, q)[base..base + n]
  {
    hide AllCodes;
    var lower, threshold := SplitScaled(ar, q, base, n);
    codes := CombineCodes(ar, q, base, n, lower, threshold);
  }

  /** The bytes of one block: its codes, or their nibbles packed on their own. */
  method BlockBytes(ar: Arith, q: Request, base: nat, n: nat) returns (bytes: seq<u8>)
    requires Ready(ar, q) && base + n <= q.count && n <= BLOCK && base % BLOCK == 0
             && (n % 2 == 1 ==> base + n == q.count)
    ensures ByteCut(q.bits, base) + |bytes| == ByteCut(q.bits, base + n)
    ensures bytes == Goal(ar, q)[ByteCut(q.bits, base)..ByteCut(q.bits, base + n)]
  {
    hide AllCodes;
    var codes := BlockCodes(ar, q, base, n);
    if q.bits == Q8_BITS {
      bytes := codes;
    } else {
      bytes := PackNibbles(codes);
      BlockPacks(AllCodes(ar, q), base, n);
    }
  }

  method PackNibbles(codes: seq<u8>) returns (bytes: seq<u8>)
    ensures bytes == Pack(Q4_BITS, codes)
  {
    bytes := [];
    var pairs := |codes| / 2;
    for k := 0 to pairs
      invariant |bytes| == k
      invariant forall j :: 0 <= j < k ==> bytes[j] == PairByte(codes, j)
    {
      bytes := bytes + [TwoNibbles(codes[2 * k], codes[2 * k + 1])];
    }
    if |codes| % 2 == 1 {
      bytes := bytes + [TwoNibbles(codes[|codes| - 1], 0)];
    }
  }

  /** Packing a block on its own gives its part of the whole packing, because blocks start at even values. */
  lemma BlockPacks(codes: seq<u8>, base: nat, n: nat)
    requires base + n <= |codes| && base % BLOCK == 0 && (n % 2 == 1 ==> base + n == |codes|)
    ensures PayloadSize(Q4_BITS, base) + PayloadSize(Q4_BITS, n) == PayloadSize(Q4_BITS, base + n)
    ensures PayloadSize(Q4_BITS, base + n) <= PayloadSize(Q4_BITS, |codes|)
    ensures Pack(Q4_BITS, codes[base..base + n])
            == Pack(Q4_BITS, codes)[PayloadSize(Q4_BITS, base)..PayloadSize(Q4_BITS, base + n)]
  {
    hide PairByte, Pack;
    BlockSizes(base, n, |codes|);
    var part, whole, start := Pack(Q4_BITS, codes[base..base + n]), Pack(Q4_BITS, codes), PayloadSize(Q4_BITS, base);
    forall k | 0 <= k < |part|
      ensures part[k] == whole[start + k]
    {
      BlockByte(codes, base, n, k);
    }
    hide PayloadSize;
  }

  lemma BlockByte(codes: seq<u8>, base: nat, n: nat, k: nat)
    requires base + n <= |codes| && base % BLOCK == 0 && (n % 2 == 1 ==> base + n == |codes|)
    requires k < PayloadSize(Q4_BITS, n)
    ensures PayloadSize(Q4_BITS, base) + k < PayloadSize(Q4_BITS, |codes|)
    ensures Pack(Q4_BITS, codes[base..base + n])[k] == Pack(Q4_BITS, codes)[PayloadSize(Q4_BITS, base) + k]
  {
    hide PairByte, Pack;
    BlockSizes(base, n, |codes|);
    PackAt(codes[base..base + n], k);
    PackAt(codes, base / 2 + k);
    SamePair(codes, base, n, k);
  }

  lemma BlockSizes(base: nat, n: nat, count: nat)
    requires base + n <= count && base % BLOCK == 0
    ensures PayloadSize(Q4_BITS, base) == base / 2
    ensures PayloadSize(Q4_BITS, base) + PayloadSize(Q4_BITS, n) == PayloadSize(Q4_BITS, base + n)
    ensures PayloadSize(Q4_BITS, base + n) <= PayloadSize(Q4_BITS, count)
  {
    EvenBase(base / BLOCK * 128, n, count);
  }

  lemma EvenBase(h: nat, n: nat, count: nat)
    requires 2 * h + n <= count
    ensures (2 * h) / 2 == h && (2 * h) % 2 == 0
    ensures (2 * h + n) / 2 == h + n / 2 && (2 * h + n) % 2 == n % 2
    ensures (2 * h + n) / 2 + (2 * h + n) % 2 <= count / 2 + count % 2
  {
  }

  lemma SamePair(codes: seq<u8>, base: nat, n: nat, k: nat)
    requires base + n <= |codes| && base % 2 == 0 && (n % 2 == 1 ==> base + n == |codes|) && 2 * k < n
    ensures PairByte(codes[base..base + n], k) == PairByte(codes, base / 2 + k)
  {
    hide TwoNibbles;
    var part, i := codes[base..base + n], base / 2 + k;
    assert 2 * i == base + 2 * k && part[2 * k] == codes[2 * i];
    if 2 * k + 1 < n {
      assert part[2 * k + 1] == codes[2 * i + 1];
    }
  }

  /** The goal of a team: the payload in front, the rest of the buffer as it was. */
  ghost predicate PayloadGoal(ar: Arith, q: Request, goal: seq<u8>)
    requires Ready(ar, q)
  {
    |goal| >= PayloadSize(q.bits, q.count) && goal[..PayloadSize(q.bits, q.count)] == Goal(ar, q)
  }

  method LogBytes(before: Log<u8>, ghost lo: nat, from: nat, bytes: seq<u8>, ghost goal: seq<u8>) returns (log: Log<u8>)
    requires Covers(before, lo, from, Same(), goal)
    requires from + |bytes| <= |goal| && goal[from..from + |bytes|] == bytes
    ensures Covers(log, lo, from + |bytes|, Same(), goal)
  {
    hide Covers;
    log := before;
    for k := 0 to |bytes|
      invariant Covers(log, lo, from + k, Same(), goal)
    {
      CoversMore(log, lo, from + k, Same(), goal);
      assert bytes[k] == goal[from + k];
      log := log + [Write(from + k, bytes[k])];
    }
  }

  lemma GoalPart(ar: Arith, q: Request, goal: seq<u8>, a: nat, b: nat)
    requires Ready(ar, q) && PayloadGoal(ar, q, goal) && a <= b <= PayloadSize(q.bits, q.count)
    ensures goal[a..b] == Goal(ar, q)[a..b]
  {
    SliceOfPrefix(goal, PayloadSize(q.bits, q.count), a, b);
    hide Goal, Ready, PayloadSize;
  }

  lemma SliceOfPrefix<T>(s: seq<T>, n: nat, a: nat, b: nat)
    requires a <= b <= n <= |s|
    ensures s[..n][a..b] == s[a..b]
  {
  }

  lemma CutWithin(bits: nat, a: nat, b: nat)
    requires a <= b
    ensures ByteCut(bits, a) <= ByteCut(bits, b)
  {
  }

  /** One thread's values, 256 at a time. */
  method EncodeRange(ar: Arith, q: Request, begin: nat, end: nat, ghost goal: seq<u8>) returns (log: Log<u8>)
    requires Ready(ar, q) && PayloadGoal(ar, q, goal)
    requires begin <= end <= q.count && begin % BLOCK == 0 && (end % BLOCK == 0 || end == q.count)
    ensures Covers(log, ByteCut(q.bits, begin), ByteCut(q.bits, end), Same(), goal)
  {
    hide Covers, Ready, Goal, ByteCut, PayloadGoal;
    log := [];
    EmptyCover(ByteCut(q.bits, begin), goal);
    var base := begin;
    while base < end
      invariant begin <= base <= end && (base % BLOCK == 0 || base == end)
      invariant Covers(log, ByteCut(q.bits, begin), ByteCut(q.bits, base), Same(), goal)
    {
      var n := if end - base < BLOCK then end - base else BLOCK;
      BlockEnds(base, n, end, q.count);
      var bytes := BlockBytes(ar, q, base, n);
      log := AppendBlock(ar, q, log, ByteCut(q.bits, begin), base, n, bytes, goal);
      base := base + n;
    }
  }

  method AppendBlock(ghost ar: Arith, q: Request, before: Log<u8>, ghost lo: nat, base: nat, n: nat, bytes: seq<u8>,
                     ghost goal: seq<u8>)
    returns (log: Log<u8>)
    requires Ready(ar, q) && PayloadGoal(ar, q, goal) && base + n <= q.count
    requires Covers(before, lo, ByteCut(q.bits, base), Same(), goal)
    requires ByteCut(q.bits, base) + |bytes| == ByteCut(q.bits, base + n)
    requires bytes == Goal(ar, q)[ByteCut(q.bits, base)..ByteCut(q.bits, base + n)]
    ensures Covers(log, lo, ByteCut(q.bits, base + n), Same(), goal)
  {
    hide Covers, Ready, Goal;
    CutWithin(q.bits, base + n, q.count);
    GoalPart(ar, q, goal, ByteCut(q.bits, base), ByteCut(q.bits, base + n));
    log := LogBytes(before, lo, ByteCut(q.bits, base), bytes, goal);
  }

  lemma EmptyCover(lo: nat, goal: seq<u8>)
    ensures Covers([], lo, lo, Same(), goal)
  {
  }

  lemma BlockEnds(base: nat, n: nat, end: nat, count: nat)
    requires base < end <= count && base % BLOCK == 0 && (end % BLOCK == 0 || end == count)
    requires n == if end - base < BLOCK then end - base else BLOCK
    ensures 0 < n <= BLOCK && base + n <= end && ((base + n) % BLOCK == 0 || base + n == end)
    ensures n % 2 == 1 ==> base + n == count
  {
    if end - base < BLOCK && end % BLOCK == 0 {
      DivModUnique(end, BLOCK, base / BLOCK, end - base);
    }
  }

  ghost function ByteCuts(bits: nat, count: nat, team: nat): (cuts: seq<nat>)
    requires team > 0
    ensures |cuts| == team + 1
    ensures forall t :: 0 <= t <= team ==> cuts[t] == ByteCut(bits, UnitCut(count, t, team))
    ensures Cuts(cuts, PayloadSize(bits, count))
  {
    var units := UnitCuts(count, team);
    var cuts := seq(team + 1, t requires 0 <= t <= team => ByteCut(bits, units[t]));
    assert forall t :: 0 <= t < team ==> cuts[t] <= cuts[t + 1] by {
      forall t | 0 <= t < team
        ensures cuts[t] <= cuts[t + 1]
      {
        CutWithin(bits, units[t], units[t + 1]);
      }
    }
    cuts
  }

  /** One thread: its whole blocks, or nothing when there are fewer blocks than threads. */
  method EncodeThread(ar: Arith, q: Request, thread: nat, team: nat, ghost goal: seq<u8>) returns (log: Log<u8>)
    requires Ready(ar, q) && PayloadGoal(ar, q, goal) && thread < team
    ensures Covers(log, ByteCut(q.bits, UnitCut(q.count, thread, team)),
            ByteCut(q.bits, UnitCut(q.count, thread + 1, team)),
                   Same(), goal)
  {
    hide Covers, Ready, Goal, ByteCut, PayloadGoal;
    var begin, end := UnitRange(q.count, thread, team);
    UnitStep(q.count, thread, team);
    if begin < end {
      log := EncodeRange(ar, q, begin, end, goal);
    } else {
      IdleThread(q.count, begin, end, thread, team);
      log := [];
      EmptyCover(ByteCut(q.bits, UnitCut(q.count, thread, team)), goal);
    }
  }

  lemma IdleThread(count: nat, begin: nat, end: nat, thread: nat, team: nat)
    requires thread < team && begin >= end
    requires begin == BLOCK * ShareBegin(Units(count), thread, team) && end == UnitCut(count, thread + 1, team)
    ensures UnitCut(count, thread, team) == UnitCut(count, thread + 1, team)
  {
    UnitStep(count, thread, team);
  }

  method EncodeLogs(ar: Arith, q: Request, team: nat, ghost goal: seq<u8>) returns (logs: seq<Log<u8>>)
    requires Ready(ar, q) && PayloadGoal(ar, q, goal) && team > 0
    ensures Shares(logs, ByteCuts(q.bits, q.count, team), Same(), goal)
  {
    hide Covers, Ready, Goal, ByteCut, PayloadGoal;
    logs := [];
    ghost var cuts := ByteCuts(q.bits, q.count, team);
    for t := 0 to team
      invariant |logs| == t
      invariant forall i :: 0 <= i < t ==> Covers(logs[i], cuts[i], cuts[i + 1], Same(), goal)
    {
      var log := EncodeThread(ar, q, t, team, goal);
      logs := logs + [log];
    }
  }

  method EncodeTeamLoops(ar: Arith, q: Request, payload: array<u8>, team: nat, schedule: seq<nat>)
    requires Ready(ar, q) && PayloadSize(q.bits, q.count) <= payload.Length
    requires team > 0 && Fair(schedule, ByteCuts(q.bits, q.count, team))
    modifies payload
    ensures payload[..] == Goal(ar, q) + old(payload[PayloadSize(q.bits, q.count)..])
  {
    hide Ready, Goal, Fair, Shares, Cuts;
    var size := PayloadSize(q.bits, q.count);
    ghost var goal := Goal(ar, q) + payload[size..];
    assert goal[..size] == Goal(ar, q);
    var logs := EncodeLogs(ar, q, team, goal);
    OutsideItems(payload, size, goal);
    RunTeam(payload, logs, schedule, ByteCuts(q.bits, q.count, team), size, Same(), goal);
  }

  lemma OutsideItems(mem: array<u8>, n: nat, goal: seq<u8>)
    requires n <= mem.Length == |goal| && goal[n..] == mem[n..]
    ensures forall a :: 0 <= a < mem.Length && (forall i: nat :: i < n ==> Same()(i) != a) ==> goal[a] == mem[a]
  {
    forall a | 0 <= a < mem.Length && (forall i: nat :: i < n ==> Same()(i) != a)
      ensures goal[a] == mem[a]
    {
      assert Same()(a) == a;
      assert goal[a] == goal[n..][a - n] && mem[a] == mem[n..][a - n];
    }
  }

  /**
   The threaded encoder: same status and same buffer as `EncodeScalar`, for every
   team size, every order of arrival in the scan and every interleaving of the
   threads' stores.
   */
  method EncodeByTeam(ar: Arith, q: Request, payload: array?<u8>, team: nat, order: seq<nat>, schedule: seq<nat>)
    returns (status: Status)
    requires ar.Valid() && Sized(q, payload)
    requires Arrivals(order, team) && Fair(schedule, ByteCuts(q.bits, q.count, team))
    modifies payload
    ensures status == EncodeStatus(q, payload != null)
    ensures payload != null ==> payload[..] == After(ar, q, old(payload[..]))
    ensures payload != null && status == Ok ==> forall i :: 0 <= i < q.count ==> RoundedByWord(ar, q, payload[..], i)
  {
    if payload != null && Accepted(q, true) {
      forall i | 0 <= i < q.count
        ensures RoundedByWord(ar, q, After(ar, q, payload[..]), i)
      {
        EveryCodeRounded(ar, q, payload[..], i);
      }
    }
    hide RoundedByWord;
    var skip, limit;
    status, skip, limit := Prologue(q, payload, ByTeam(team, order));
    if status != Ok {
      return;
    }
    if skip {
      if payload != null {
        SkippedPayload(ar, q);
        assert q.count == 0 ==> PayloadFor(ar, q) == [];
      }
      return;
    }
    AcceptedIsReady(ar, q);
    EncodeTeamLoops(ar, q, payload, team, schedule);
  }
}
