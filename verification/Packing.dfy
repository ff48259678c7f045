/** Payload bytes of a code sequence: one code a byte, or two 4-bit codes a byte with a zero padding nibble. */
module Packing {
  import opened Words
  import opened Codes

  function PayloadSize(bits: nat, count: nat): nat
  {
    if bits == Q4_BITS then count / 2 + count % 2 else count
  }

  /** Two 4-bit codes in one byte, the first in the low half. */
  function TwoNibbles(low: u8, high: u8): u8 { low % 16 + 16 * (high % 16) }

  /** The byte that holds code `2 i` and, when there is one, code `2 i + 1`. */
  function PairByte(codes: seq<u8>, i: nat): (b: u8)
    requires 2 * i < |codes|
  {
    TwoNibbles(codes[2 * i], if 2 * i + 1 < |codes| then codes[2 * i + 1] else 0)
  }

  function Pack(bits: nat, codes: seq<u8>): (r: seq<u8>)
    ensures |r| == PayloadSize(bits, |codes|)
  {
    if bits == Q4_BITS then
      seq(PayloadSize(bits, |codes|), i requires 0 <= i < PayloadSize(bits, |codes|) => PairByte(codes, i))
    else codes
  }

  lemma PackAt(codes: seq<u8>, k: nat)
    requires 2 * k < |codes|
    ensures k < PayloadSize(Q4_BITS, |codes|) && Pack(Q4_BITS, codes)[k] == PairByte(codes, k)
  {
  }

  /** Code `i` of a payload. */
  function CodeAt(bits: nat, payload: seq<u8>, i: nat): u8
    requires i < if bits == Q4_BITS then 2 * |payload| else |payload|
  {
    if bits != Q4_BITS then payload[i]
    else if i % 2 == 0 then payload[i / 2] % 16 else payload[i / 2] / 16
  }

  function Unpack(bits: nat, payload: seq<u8>, count: nat): (r: seq<u8>)
    requires |payload| == PayloadSize(bits, count)
    ensures |r| == count
  {
    seq(count, i requires 0 <= i < count => CodeAt(bits, payload, i))
  }

  predicate PaddingClear(bits: nat, payload: seq<u8>, count: nat)
    requires |payload| == PayloadSize(bits, count)
  {
    bits == Q4_BITS && count % 2 == 1 ==> payload[count / 2] / 16 == 0
  }

  lemma PackedCode(bits: nat, codes: seq<u8>, i: nat)
    requires i < |codes| && (bits == Q4_BITS ==> forall k :: 0 <= k < |codes| ==> codes[k] < 16)
    ensures CodeAt(bits, Pack(bits, codes), i) == codes[i]
  {
    if bits == Q4_BITS {
      PackAt(codes, i / 2);
      hide Pack;
      NibbleOfPair(codes, i);
    }
  }

  lemma NibbleOfPair(codes: seq<u8>, i: nat)
    requires i < |codes| && forall k :: 0 <= k < |codes| ==> codes[k] < 16
    ensures if i % 2 == 0 then PairByte(codes, i / 2) % 16 == codes[i] else PairByte(codes, i / 2) / 16 == codes[i]
  {
    var k := i / 2;
    NibblesBack(codes[2 * k], if 2 * k + 1 < |codes| then codes[2 * k + 1] else 0);
    hide TwoNibbles;
    assert i == 2 * k || i == 2 * k + 1;
  }

  lemma NibblesBack(low: u8, high: u8)
    requires low < 16 && high < 16
    ensures TwoNibbles(low, high) % 16 == low && TwoNibbles(low, high) / 16 == high
  {
  }

  /** Unpacking undoes packing, and the padding nibble is clear. */
  lemma UnpackPack(bits: nat, codes: seq<u8>)
    requires bits == Q4_BITS ==> forall k :: 0 <= k < |codes| ==> codes[k] < 16
    ensures Unpack(bits, Pack(bits, codes), |codes|) == codes
    ensures PaddingClear(bits, Pack(bits, codes), |codes|)
  {
    hide Pack, CodeAt;
    forall i | 0 <= i < |codes|
      ensures Unpack(bits, Pack(bits, codes), |codes|)[i] == codes[i]
    {
      PackedCode(bits, codes, i);
    }
    LastPadding(bits, codes);
  }

  lemma LastPadding(bits: nat, codes: seq<u8>)
    ensures PaddingClear(bits, Pack(bits, codes), |codes|)
  {
    if bits == Q4_BITS && |codes| % 2 == 1 {
      assert Pack(bits, codes)[|codes| / 2] == PairByte(codes, |codes| / 2);
    }
  }

  /** Packing undoes unpacking exactly when the padding nibble is clear. */
  lemma PackUnpack(bits: nat, payload: seq<u8>, count: nat)
    requires |payload| == PayloadSize(bits, count)
    ensures Pack(bits, Unpack(bits, payload, count)) == payload <==> PaddingClear(bits, payload, count)
  {
    var codes := Unpack(bits, payload, count);
    if PaddingClear(bits, payload, count) {
      forall i | 0 <= i < |payload|
        ensures Pack(bits, codes)[i] == payload[i]
      {
        RepackedByte(bits, payload, count, i);
      }
    } else {
      RepackedTail(payload, count);
    }
  }

  lemma RepackedByte(bits: nat, payload: seq<u8>, count: nat, i: nat)
    requires |payload| == PayloadSize(bits, count) && PaddingClear(bits, payload, count) && i < |payload|
    ensures Pack(bits, Unpack(bits, payload, count))[i] == payload[i]
  {
    var codes := Unpack(bits, payload, count);
    if bits == Q4_BITS {
      TwoCodes(payload, count, i);
      assert Pack(bits, codes)[i] == PairByte(codes, i);
      hide Pack, Unpack, CodeAt;
      Nibbles(payload[i]);
    }
  }

  lemma Nibbles(b: u8)
    ensures b == b % 16 + 16 * (b / 16) && (b % 16) % 16 == b % 16 && (b / 16) % 16 == b / 16
  {
  }

  lemma TwoCodes(payload: seq<u8>, count: nat, i: nat)
    requires |payload| == PayloadSize(Q4_BITS, count) && i < |payload|
    ensures Unpack(Q4_BITS, payload, count)[2 * i] == payload[i] % 16
    ensures 2 * i + 1 < count ==> Unpack(Q4_BITS, payload, count)[2 * i + 1] == payload[i] / 16
  {
    assert (2 * i) / 2 == i && (2 * i + 1) / 2 == i;
  }

  lemma RepackedTail(payload: seq<u8>, count: nat)
    requires |payload| == PayloadSize(Q4_BITS, count) && count % 2 == 1
    ensures Pack(Q4_BITS, Unpack(Q4_BITS, payload, count))[count / 2] < 16
  {
  }
}
