/** Records: a 20-byte header and a payload of codes, written field by field and read back with every check. */
module Codec {
  import opened Words
  import opened ByteOrder
  import opened Binary32
  import opened Codes
  import opened Packing
  import opened Encoder

  // ---------- the header ----------

  const HEADER_SIZE := 20
  const MAGIC: seq<u8> := [0x4D, 0x53, 0x51, 0x31]

  function Header(bits: u8, count: u64, scale: u32): (h: seq<u8>)
    ensures |h| == HEADER_SIZE
  {
    MAGIC + [1, bits, 0, 0] + StoreU64(count) + StoreU32(scale)
  }

  function HeaderStatus(bits: u8, count: u64, scale: u32): Status
  {
    if !KnownWidth(bits) then ErrBitWidth
    else if !IsFinite(scale) || IsNegative(scale) || (count == 0 && !IsZero(scale)) then ErrScale
    else Ok
  }

  /** Which fields a header is refused for. */
  lemma HeaderRefusals(bits: u8, count: u64, scale: u32)
    ensures var status := HeaderStatus(bits, count, scale);
            && (status == ErrBitWidth <==> bits != 4 && bits != 8)
            && (status == ErrScale <==>
                  && (bits == 4 || bits == 8)
                  && (|| Magnitude(scale) >= INFINITY || (SignBit(scale) == 1 && Magnitude(scale) != 0)
                      || (count == 0 && Magnitude(scale) != 0)))
            && (status == Ok || status == ErrBitWidth || status == ErrScale)
  {
  }

  /** Writes the header in front of the record; nothing is written unless the fields are valid. */
  method HeaderEncode(bits: u8, count: u64, scale: u32, record: array?<u8>) returns (status: Status)
    requires record != null ==> record.Length >= HEADER_SIZE
    modifies record
    ensures status == if record == null then ErrArgument else HeaderStatus(bits, count, scale)
    ensures record != null ==>
              record[..]
              == if status == Ok then Header(bits, count, scale) + old(record[HEADER_SIZE..]) else old(record[..])
  {
    if record == null {
      return ErrArgument;
    }
    if bits != Q4_BITS && bits != Q8_BITS {
      return ErrBitWidth;
    }
    if !IsFinite(scale) || IsNegative(scale) {
      return ErrScale;
    }
    if count == 0 && !IsZero(scale) {
      return ErrScale;
    }
    StoreHeader(record, bits, count, scale);
    status := Ok;
  }

  method StoreHeader(record: array<u8>, bits: u8, count: u64, scale: u32)
    requires record.Length >= HEADER_SIZE
    modifies record
    ensures record[..] == Header(bits, count, scale) + old(record[HEADER_SIZE..])
  {
    hide StoreU32, StoreU64;
    ghost var before := record[..];
    assert before == [] + before[0..];
    StoreNext(record, before, [], MAGIC);
    StoreNext(record, before, MAGIC, [1, bits, 0, 0]);
    StoreNext(record, before, MAGIC + [1, bits, 0, 0], StoreU64(count));
    StoreNext(record, before, MAGIC + [1, bits, 0, 0] + StoreU64(count), StoreU32(scale));
  }

  /** Stores the next field right after the finished front. */
  method StoreNext(record: array<u8>, ghost before: seq<u8>, done: seq<u8>, bytes: seq<u8>)
    requires |done| + |bytes| <= record.Length == |before| && record[..] == done + before[|done|..]
    modifies record
    ensures record[..] == done + bytes + before[|done + bytes|..]
  {
    ghost var now := record[..];
    StoreBytes(record, |done|, bytes);
    Written(before, done, bytes, now);
  }

  /** Bytes written right after a finished front extend it. */
  lemma Written(before: seq<u8>, done: seq<u8>, bytes: seq<u8>, now: seq<u8>)
    requires |done| + |bytes| <= |before| && now == done + before[|done|..]
    ensures now[..|done|] + bytes + now[|done| + |bytes|..] == done + bytes + before[|done| + |bytes|..]
  {
  }

  // ---------- records ----------

  /** What a record stores. */
  datatype Fields = Fields(bits: u8, count: nat, scale: u32, codes: seq<u8>)

  const MAX_COUNT := SIZE_MAX / 4

  predicate GoodCode(bits: u8, scale: u32, code: u8)
  {
    code <= 2 * Limit(bits) && (IsZero(scale) ==> code == Limit(bits))
  }

  ghost predicate ValidFields(f: Fields)
  {
    && |f.codes| == f.count <= MAX_COUNT
    && HeaderStatus(f.bits, f.count, f.scale) == Ok
    && forall i :: 0 <= i < f.count ==> GoodCode(f.bits, f.scale, f.codes[i])
  }

  ghost function Record(f: Fields): seq<u8>
    requires ValidFields(f)
  {
    Header(f.bits, f.count, f.scale) + Pack(f.bits, f.codes)
  }

  function HeaderCount(record: seq<u8>): u64
    requires |record| >= HEADER_SIZE
  {
    LoadU64(record[8..16])
  }

  function HeaderScale(record: seq<u8>): u32
    requires |record| >= HEADER_SIZE
  {
    LoadU32(record[16..20])
  }

  /** The checks up to the payload, in the decoder's order. */
  function PrefixStatus(record: seq<u8>): Status
  {
    if |record| < HEADER_SIZE then ErrPayloadLength
    else if record[..4] != MAGIC then ErrMagic
    else if record[4] != 1 then ErrVersion
    else if !KnownWidth(record[5]) then ErrBitWidth
    else if record[6] != 0 || record[7] != 0 then ErrReserved
    else if HeaderCount(record) > MAX_COUNT then ErrCount
    else if |record| != HEADER_SIZE + PayloadSize(record[5], HeaderCount(record)) then ErrPayloadLength
    else if HeaderStatus(record[5], HeaderCount(record), HeaderScale(record)) != Ok then ErrScale
    else Ok
  }

  function Fault(bits: u8, scale: u32, code: u8): Status
  {
    if code > 2 * Limit(bits) then ErrCode
    else if IsZero(scale) && code != Limit(bits) then ErrZeroScaleCode
    else Ok
  }

  /** The verdict of the first bad code, or `Ok`. */
  function FirstFault(bits: u8, scale: u32, codes: seq<u8>): Status
  {
    if codes == [] then Ok
    else if Fault(bits, scale, codes[0]) != Ok then Fault(bits, scale, codes[0])
    else FirstFault(bits, scale, codes[1..])
  }

  ghost function FieldsOf(record: seq<u8>): Fields
    requires PrefixStatus(record) == Ok
  {
    Fields(record[5], HeaderCount(record), HeaderScale(record),
           Unpack(record[5], record[HEADER_SIZE..], HeaderCount(record)))
  }

  ghost function DecodeStatus(record: seq<u8>, hasMemory: bool): Status
  {
    if PrefixStatus(record) != Ok then PrefixStatus(record)
    else if HeaderCount(record) != 0 && !hasMemory then ErrMemory
    else if !PaddingClear(record[5], record[HEADER_SIZE..], HeaderCount(record)) then ErrPaddingNibble
    else FirstFault(record[5], HeaderScale(record), FieldsOf(record).codes)
  }

  lemma {:induction false} FirstFaultOk(bits: u8, scale: u32, codes: seq<u8>)
    ensures FirstFault(bits, scale, codes) == Ok <==> forall i :: 0 <= i < |codes| ==> GoodCode(bits, scale, codes[i])
  {
    if codes != [] {
      FirstFaultOk(bits, scale, codes[1..]);
      if FirstFault(bits, scale, codes) == Ok {
        forall i | 0 <= i < |codes|
          ensures GoodCode(bits, scale, codes[i])
        {
          if i > 0 {
            assert codes[i] == codes[1..][i - 1];
          }
        }
      }
    }
  }

  lemma {:induction false} FirstFaultAt(bits: u8, scale: u32, codes: seq<u8>, i: nat)
    requires i < |codes| && FirstFault(bits, scale, codes[..i]) == Ok
    ensures Fault(bits, scale, codes[i]) != Ok ==> FirstFault(bits, scale, codes) == Fault(bits, scale, codes[i])
    ensures Fault(bits, scale, codes[i]) == Ok ==> FirstFault(bits, scale, codes[..i + 1]) == Ok
  {
    if i == 0 {
      assert codes[..1][1..] == [];
    } else {
      assert codes[..i][1..] == codes[1..][..i - 1];
      assert codes[..i + 1][1..] == codes[1..][..i];
      FirstFaultAt(bits, scale, codes[1..], i - 1);
    }
  }

  lemma HeaderFields(bits: u8, count: u64, scale: u32, rest: seq<u8>)
    ensures var r := Header(bits, count, scale) + rest;
            && r[..4] == MAGIC && r[4] == 1 && r[5] == bits && r[6] == 0 && r[7] == 0
            && HeaderCount(r) == count && HeaderScale(r) == scale && r[HEADER_SIZE..] == rest
  {
    hide StoreU32, StoreU64, LoadU32, LoadU64;
    var r := Header(bits, count, scale) + rest;
    assert r[8..16] == StoreU64(count) && r[16..20] == StoreU32(scale);
    LoadStore64(count);
    LoadStore32(scale);
  }

  /** Every record of valid fields is accepted and its fields are recovered. */
  lemma DecodesRecord(f: Fields)
    requires ValidFields(f)
    ensures DecodeStatus(Record(f), true) == Ok && FieldsOf(Record(f)) == f
  {
    hide Header, HeaderCount, HeaderScale, Pack, Unpack, FirstFault;
    HeaderFields(f.bits, f.count, f.scale, Pack(f.bits, f.codes));
    UnpackPack(f.bits, f.codes);
    FirstFaultOk(f.bits, f.scale, f.codes);
  }

  /** Every accepted record is the record of its own fields, so acceptance allows no second spelling. */
  lemma AcceptedIsRecord(record: seq<u8>)
    requires DecodeStatus(record, true) == Ok
    ensures ValidFields(FieldsOf(record)) && Record(FieldsOf(record)) == record
  {
    hide FirstFault, Pack, Unpack, StoreU32, StoreU64, LoadU32, LoadU64;
    var f := FieldsOf(record);
    FirstFaultOk(f.bits, f.scale, f.codes);
    PackUnpack(f.bits, record[HEADER_SIZE..], f.count);
    StoreLoad64(record[8..16]);
    StoreLoad32(record[16..20]);
    assert record == record[..4] + record[4..8] + record[8..16] + record[16..20] + record[HEADER_SIZE..];
    assert record[4..8] == [1, f.bits, 0, 0];
  }

  /** Acceptance in one sentence. */
  lemma AcceptedIff(record: seq<u8>)
    ensures DecodeStatus(record, true) == Ok <==> exists f :: ValidFields(f) && Record(f) == record
  {
    if DecodeStatus(record, true) == Ok {
      AcceptedIsRecord(record);
    }
    if exists f :: ValidFields(f) && Record(f) == record {
      var f :| ValidFields(f) && Record(f) == record;
      DecodesRecord(f);
    }
  }

  /**
   Where a record keeps what: the magic, the version, the width, two zero bytes, the
   count and the scale with their least significant bytes first, then one code a
   byte, or two with the even one in the low half.
   */
  lemma RecordLayout(f: Fields)
    requires ValidFields(f)
    ensures var r := Record(f);
            && |r| == 20 + (if f.bits == 4 then f.count / 2 + f.count % 2 else f.count)
            && r[0] == 0x4D && r[1] == 0x53 && r[2] == 0x51 && r[3] == 0x31
            && r[4] == 1 && r[5] == f.bits && r[6] == 0 && r[7] == 0
            && f.count == Number(r[8..16]) && f.scale == Number(r[16..20])
            && (f.bits == 8 ==> forall i :: 0 <= i < f.count ==> r[20 + i] == f.codes[i])
            && (f.bits == 4 ==> forall i :: 0 <= i < f.count ==>
                  r[20 + i / 2] / (if i % 2 == 0 then 1 else 16) % 16 == f.codes[i])
  {
    hide StoreU32, StoreU64, LoadU32, LoadU64, Pack, Number;
    var r := Record(f);
    HeaderFields(f.bits, f.count, f.scale, Pack(f.bits, f.codes));
    LoadedNumber(r[8..16]);
    LoadedNumber(r[16..20]);
    forall i | 0 <= i < f.count
      ensures f.bits == 8 ==> r[20 + i] == f.codes[i]
      ensures f.bits == 4 ==> r[20 + i / 2] / (if i % 2 == 0 then 1 else 16) % 16 == f.codes[i]
    {
      PackedAt(f.bits, f.codes, i);
    }
  }

  lemma PackedAt(bits: nat, codes: seq<u8>, i: nat)
    requires KnownWidth(bits) && i < |codes| && forall k :: 0 <= k < |codes| ==> codes[k] <= 2 * Limit(bits)
    ensures bits == 8 ==> Pack(bits, codes)[i] == codes[i]
    ensures bits == 4 ==> i / 2 < |Pack(bits, codes)|
    ensures bits == 4 ==> Pack(bits, codes)[i / 2] / (if i % 2 == 0 then 1 else 16) % 16 == codes[i]
  {
    if bits == 4 {
      PackedCode(bits, codes, i);
    }
  }

  /** The record passes the first `k` checks of the decoder. */
  ghost predicate Reaches(record: seq<u8>, k: nat)
  {
    && (k >= 1 ==> |record| >= 20)
    && (k >= 2 ==> record[..4] == [0x4D, 0x53, 0x51, 0x31])
    && (k >= 3 ==> record[4] == 1)
    && (k >= 4 ==> record[5] == 4 || record[5] == 8)
    && (k >= 5 ==> record[6] == 0 && record[7] == 0)
    && (k >= 6 ==> Number(record[8..16]) <= (TWO_64 - 1) / 4)
    && (k >= 7 ==> |record| == 20 + var n := Number(record[8..16]); if record[5] == 4 then (n + 1) / 2 else n)
    && (k >= 8 ==> var scale := LoadU32(record[16..20]);
                   && Magnitude(scale) < INFINITY && (SignBit(scale) == 0 || Magnitude(scale) == 0)
                   && (Number(record[8..16]) == 0 ==> Magnitude(scale) == 0))
  }

  /** Which refusal a record gets before its codes are looked at: the status of the first check it fails. */
  lemma DecodeRefusals(record: seq<u8>, hasMemory: bool)
    ensures var status := DecodeStatus(record, hasMemory);
            && (!Reaches(record, 1) || (Reaches(record, 6) && !Reaches(record, 7)) ==> status == ErrPayloadLength)
            && (Reaches(record, 1) && !Reaches(record, 2) ==> status == ErrMagic)
            && (Reaches(record, 2) && !Reaches(record, 3) ==> status == ErrVersion)
            && (Reaches(record, 3) && !Reaches(record, 4) ==> status == ErrBitWidth)
            && (Reaches(record, 4) && !Reaches(record, 5) ==> status == ErrReserved)
            && (Reaches(record, 5) && !Reaches(record, 6) ==> status == ErrCount)
            && (Reaches(record, 7) && !Reaches(record, 8) ==> status == ErrScale)
            && (Reaches(record, 8) && |record| > 20 && !hasMemory ==> status == ErrMemory)
            && (Reaches(record, 8) && hasMemory && record[5] == 4 && record[8] % 2 == 1 ==>
                  record[|record| - 1] / 16 != 0 ==> status == ErrPaddingNibble)
            && (Reaches(record, 8) <==> PrefixStatus(record) == Ok)
  {
    hide LoadU32, LoadU64, Number, FirstFault, FieldsOf;
    if |record| >= 20 {
      LoadedNumber(record[8..16]);
      OddNumber(record[8..16]);
    }
  }

  lemma OddNumber(b: seq<u8>)
    requires b != []
    ensures Number(b) % 2 == b[0] % 2
  {
    var rest := Number(b[1..]);
    assert Number(b) == (b[0] as nat) + 2 * (128 * rest);
  }

  /** The first bad code decides between the two refusals that a code can cause. */
  lemma {:induction false} FirstBadCode(bits: u8, scale: u32, codes: seq<u8>, i: nat)
    requires i < |codes| && !GoodCode(bits, scale, codes[i])
    requires forall j :: 0 <= j < i ==> GoodCode(bits, scale, codes[j])
    ensures FirstFault(bits, scale, codes)
            == if codes[i] > (if bits == 4 then 14 else 254) then ErrCode else ErrZeroScaleCode
    decreases i
  {
    if i > 0 {
      assert GoodCode(bits, scale, codes[0]);
      forall j | 0 <= j < i - 1
        ensures GoodCode(bits, scale, codes[1..][j])
      {
        assert GoodCode(bits, scale, codes[j + 1]);
      }
      FirstBadCode(bits, scale, codes[1..], i - 1);
    }
  }

  // ---------- the decoder ----------

  /** The magnitude that decodes a level. */
  function LevelMagnitude(ar: Arith, level: nat, s: nat, scale: AbsBits): AbsBits
    requires ar.Valid() && level <= s && 0 < s <= 127
  {
    FloatExact(ar, level);
    FloatExact(ar, s);
    ZeroIsZero(Float(ar, s));
    ar.Mul(ar.Div(Float(ar, level), Float(ar, s)), scale)
  }

  /** The decoded number of one code: a fraction of the limit times the scale, with the code's sign. */
  function DecodedPattern(ar: Arith, bits: u8, scale: u32, code: u8): u32
    requires ar.Valid() && IsFinite(scale) && code <= 2 * Limit(bits)
  {
    var signed := code - Limit(bits);
    if signed < 0 then SIGN + LevelMagnitude(ar, 0 - signed, Limit(bits), Magnitude(scale))
    else LevelMagnitude(ar, signed, Limit(bits), Magnitude(scale))
  }

  /** The real number of a finite pattern, with its sign. */
  ghost function SignedValue(p: u32): real
    requires IsFinite(p)
  {
    if SignBit(p) == 1 then 0.0 - Value(Magnitude(p)) else Value(Magnitude(p))
  }

  lemma ShrinkingProduct(a: real, b: real)
    requires 0.0 <= a <= 1.0 && b >= 0.0
    ensures 0.0 <= a * b <= b
  {
  }

  lemma FractionAtMostOne(ar: Arith, level: nat, s: nat)
    requires ar.Valid() && level <= s && 0 < s <= 127
    ensures 0 < Float(ar, s) < INFINITY && Float(ar, level) < INFINITY
    ensures ar.Div(Float(ar, level), Float(ar, s)) < INFINITY
    ensures 0.0 <= Value(ar.Div(Float(ar, level), Float(ar, s))) <= 1.0
  {
    FloatExact(ar, level);
    FloatExact(ar, s);
    FloatExact(ar, 1);
    ZeroIsZero(Float(ar, s));
    hide Value;
    QuotientAtMostOne(level as real, s as real);
    var r := ar.Div(Float(ar, level), Float(ar, s));
    assert r <= Float(ar, 1);
    if r < Float(ar, 1) {
      ValueMonotone(r, Float(ar, 1));
    }
  }

  lemma ShrinkingMul(ar: Arith, r: AbsBits, scale: AbsBits)
    requires ar.Valid() && r < INFINITY && Value(r) <= 1.0 && scale < INFINITY
    ensures ar.Mul(r, scale) <= scale
  {
    ShrinkingProduct(Value(r), Value(scale));
    assert ar.round(Value(scale)) == scale;
    hide Value;
  }

  /** A decoded level never exceeds the scale. */
  lemma LevelWithinScale(ar: Arith, level: nat, s: nat, scale: AbsBits)
    requires ar.Valid() && level <= s && 0 < s <= 127 && scale < INFINITY
    ensures LevelMagnitude(ar, level, s, scale) <= scale
  {
    hide Value, Float, Arith.Mul, Arith.Div;
    FractionAtMostOne(ar, level, s);
    ShrinkingMul(ar, ar.Div(Float(ar, level), Float(ar, s)), scale);
  }

  /** The stored code of a signed level: offset by the limit. */
  function CodeOf(bits: u8, level: nat, negative: bool): (code: u8)
    requires level <= Limit(bits)
    ensures code <= 2 * Limit(bits)
  {
    (if negative then 0 - level else level) + Limit(bits)
  }

  /** Decoding gives back the sign and at most the scale: the level's magnitude with the code's sign. */
  lemma DecodedIs(ar: Arith, bits: u8, scale: u32, level: nat, negative: bool)
    requires ar.Valid() && IsFinite(scale) && level <= Limit(bits)
    ensures LevelMagnitude(ar, level, Limit(bits), Magnitude(scale)) <= Magnitude(scale)
    ensures var pattern := DecodedPattern(ar, bits, scale, CodeOf(bits, level, negative));
            var size := Value(LevelMagnitude(ar, level, Limit(bits), Magnitude(scale)));
            IsFinite(pattern) && SignedValue(pattern) == if negative && level != 0 then 0.0 - size else size
  {
    hide Value, LevelMagnitude, Arith.Valid, DecodedPattern, SignedValue;
    LevelWithinScale(ar, level, Limit(bits), Magnitude(scale));
    SignedPattern(LevelMagnitude(ar, level, Limit(bits), Magnitude(scale)));
    CodedPattern(ar, bits, scale, level, negative);
    hide Limit, Magnitude, IsFinite, CodeOf;
  }

  lemma CodedPattern(ar: Arith, bits: u8, scale: u32, level: nat, negative: bool)
    requires ar.Valid() && IsFinite(scale) && level <= Limit(bits)
    ensures DecodedPattern(ar, bits, scale, CodeOf(bits, level, negative))
            == (if negative && level != 0 then SIGN else 0) + LevelMagnitude(ar, level, Limit(bits), Magnitude(scale))
  {
    hide LevelMagnitude, Arith.Valid, Magnitude, IsFinite;
  }

  lemma SignedPattern(m: AbsBits)
    requires m < INFINITY
    ensures IsFinite(m) && SignedValue(m) == Value(m)
    ensures IsFinite(SIGN + m) && SignedValue(SIGN + m) == 0.0 - Value(m)
  {
    hide Value;
    assert SignBit(m) == 0 && Magnitude(m) == m;
    assert SignBit(SIGN + m) == 1 && Magnitude(SIGN + m) == m;
  }

  ghost predicate CodesInRange(bits: u8, codes: seq<u8>)
  {
    forall i :: 0 <= i < |codes| ==> codes[i] <= 2 * Limit(bits)
  }

  ghost function DecodedValues(ar: Arith, f: Fields): (v: seq<u32>)
    requires ar.Valid() && IsFinite(f.scale) && CodesInRange(f.bits, f.codes)
    ensures |v| == |f.codes|
    ensures forall i :: 0 <= i < |v| ==> v[i] == DecodedPattern(ar, f.bits, f.scale, f.codes[i])
  {
    seq(|f.codes|, i requires 0 <= i < |f.codes| => DecodedPattern(ar, f.bits, f.scale, f.codes[i]))
  }

  /**
   The validating decoder; `hasOutputs` says whether both result arguments are there
   and `hasMemory` whether the buffer for the values could be had.
   */
  method DecodeRecord(ar: Arith, record: Option<seq<u8>>, size: nat, hasOutputs: bool, hasMemory: bool)
    returns (status: Status, values: seq<u32>, count: nat)
    requires ar.Valid() && (record.Some? ==> |record.value| == size)
    ensures status == if !hasOutputs || (record.None? && size != 0) then ErrArgument
                      else if size == 0 then ErrPayloadLength
                      else DecodeStatus(record.value, hasMemory)
    ensures status == Ok ==>
              && count == FieldsOf(record.value).count
              && CodesInRange(FieldsOf(record.value).bits, FieldsOf(record.value).codes)
              && values == DecodedValues(ar, FieldsOf(record.value))
    ensures status != Ok ==> values == [] && count == 0
  {
    values, count := [], 0;
    if !hasOutputs || (record.None? && size != 0) {
      return ErrArgument, [], 0;
    }
    if size < HEADER_SIZE {
      return ErrPayloadLength, [], 0;
    }
    var r := record.value;
    if r[..4] != MAGIC {
      return ErrMagic, [], 0;
    }
    if r[4] != 1 {
      return ErrVersion, [], 0;
    }
    var bits := r[5];
    if bits != Q4_BITS && bits != Q8_BITS {
      return ErrBitWidth, [], 0;
    }
    if r[6] != 0 || r[7] != 0 {
      return ErrReserved, [], 0;
    }
    var count64 := LoadU64(r[8..16]);
    if count64 > SIZE_MAX - HEADER_SIZE || count64 > SIZE_MAX / 4 {
      return ErrCount, [], 0;
    }
    var length := if bits == Q4_BITS then (count64 + 1) / 2 else count64;
    if size != HEADER_SIZE + length {
      return ErrPayloadLength, [], 0;
    }
    var scale := LoadU32(r[16..20]);
    if !IsFinite(scale) || IsNegative(scale) || (count64 == 0 && !IsZero(scale)) {
      return ErrScale, [], 0;
    }
    if count64 != 0 && !hasMemory {
      return ErrMemory, [], 0;
    }
    hide LoadU64, LoadU32;
    var payload := r[HEADER_SIZE..];
    if bits == Q4_BITS && count64 % 2 == 1 && payload[count64 / 2] / 16 != 0 {
      return ErrPaddingNibble, [], 0;
    }
    status, values := DecodeCodes(ar, bits, scale, payload, count64);
    count := if status == Ok then count64 else 0;
  }

  /** The payload loop: checks each code, then converts it; the first bad code ends it. */
  method DecodeCodes(ar: Arith, bits: u8, scale: u32, payload: seq<u8>, n: nat)
    returns (status: Status, values: seq<u32>)
    requires ar.Valid() && IsFinite(scale) && |payload| == PayloadSize(bits, n)
    ensures status == FirstFault(bits, scale, Unpack(bits, payload, n))
    ensures status == Ok ==> CodesInRange(bits, Unpack(bits, payload, n))
    ensures status == Ok ==> values == DecodedValues(ar, Fields(bits, n, scale, Unpack(bits, payload, n)))
    ensures status != Ok ==> values == []
  {
    hide FirstFault, DecodedPattern, Arith.Valid;
    ghost var codes := Unpack(bits, payload, n);
    values := [];
    FirstFaultOk(bits, scale, codes[..0]);
    for i := 0 to n
      invariant FirstFault(bits, scale, codes[..i]) == Ok
      invariant |values| == i && CodesInRange(bits, codes[..i])
      invariant forall j :: 0 <= j < i ==> codes[j] <= 2 * Limit(bits)
      invariant forall j :: 0 <= j < i ==> values[j] == DecodedPattern(ar, bits, scale, codes[j])
    {
      var code := CodeAt(bits, payload, i);
      FirstFaultAt(bits, scale, codes, i);
      if code > 2 * Limit(bits) {
        return ErrCode, [];
      }
      if IsZero(scale) && code != Limit(bits) {
        return ErrZeroScaleCode, [];
      }
      values := values + [DecodedPattern(ar, bits, scale, code)];
    }
    assert codes[..n] == codes;
    status := Ok;
  }
}
