/** Little-endian words in byte buffers, one at a time and as whole arrays. */
module ByteOrder {
  import opened Words

  function StoreU32(v: u32): (b: seq<u8>)
    ensures |b| == 4
  {
    [v % 256, v / 0x100 % 256, v / 0x1_0000 % 256, v / 0x100_0000]
  }

  function LoadU32(b: seq<u8>): u32
    requires |b| == 4
  {
    var b0: nat, b1: nat, b2: nat, b3: nat := b[0], b[1], b[2], b[3];
    b0 + 0x100 * b1 + 0x1_0000 * b2 + 0x100_0000 * b3
  }

  function StoreU64(v: u64): (b: seq<u8>)
    ensures |b| == 8
  {
    StoreU32(v % TWO_32) + StoreU32(v / TWO_32)
  }

  function LoadU64(b: seq<u8>): u64
    requires |b| == 8
  {
    LoadU32(b[..4]) + TWO_32 * LoadU32(b[4..])
  }

  /** The number that bytes stand for, least significant first. */
  function Number(b: seq<u8>): nat
  {
    if b == [] then 0 else (b[0] as nat) + 0x100 * Number(b[1..])
  }

  lemma NumberFrom(s: seq<u8>, k: nat)
    requires k < |s|
    ensures Number(s[k..]) == (s[k] as nat) + 0x100 * Number(s[k + 1..])
  {
    assert s[k..][1..] == s[k + 1..];
  }

  lemma NumberOfFour(b: seq<u8>)
    requires |b| == 4
    ensures LoadU32(b) == Number(b)
  {
    NumberJoins(b, []);
    assert b + [] == b;
  }

  lemma NumberJoins(a: seq<u8>, b: seq<u8>)
    requires |a| == 4
    ensures Number(a + b) == LoadU32(a) + TWO_32 * Number(b)
  {
    var s := a + b;
    NumberFrom(s, 0);
    NumberFrom(s, 1);
    NumberFrom(s, 2);
    NumberFrom(s, 3);
    assert s[0..] == s && s[4..] == b;
  }

  /** Loading reads the number that the bytes stand for, so the order of storing is fixed too. */
  lemma LoadedNumber(b: seq<u8>)
    ensures |b| == 4 ==> LoadU32(b) == Number(b)
    ensures |b| == 8 ==> LoadU64(b) == Number(b)
  {
    if |b| == 4 {
      NumberOfFour(b);
    } else if |b| == 8 {
      hide LoadU32, Number;
      NumberOfFour(b[4..]);
      NumberJoins(b[..4], b[4..]);
      assert b == b[..4] + b[4..];
    }
  }

  lemma LoadStore32(v: u32)
    ensures LoadU32(StoreU32(v)) == v
  {
    var x, y, z := v / 0x100, v / 0x100 / 0x100, v / 0x100 / 0x100 / 0x100;
    DivModUnique(v, 0x1_0000, y, v % 0x100 + 0x100 * (x % 0x100));
    DivModUnique(v, 0x100_0000, z, v % 0x100 + 0x100 * (x % 0x100) + 0x1_0000 * (y % 0x100));
  }

  lemma StoreLoad32(b: seq<u8>)
    requires |b| == 4
    ensures StoreU32(LoadU32(b)) == b
  {
    var b0: nat, b1: nat, b2: nat, b3: nat := b[0], b[1], b[2], b[3];
    var v, r1, r2 := LoadU32(b), b1 + 0x100 * b2 + 0x1_0000 * b3, b2 + 0x100 * b3;
    DivModUnique(v, 0x100, r1, b0);
    DivModUnique(r1, 0x100, r2, b1);
    DivModUnique(r2, 0x100, b3, b2);
    DivModUnique(v, 0x1_0000, r2, b0 + 0x100 * b1);
    DivModUnique(v, 0x100_0000, b3, b0 + 0x100 * b1 + 0x1_0000 * b2);
  }

  lemma LoadStore64(v: u64)
    ensures LoadU64(StoreU64(v)) == v
  {
    hide StoreU32, LoadU32;
    LoadStore32(v % TWO_32);
    LoadStore32(v / TWO_32);
    assert StoreU64(v)[..4] == StoreU32(v % TWO_32) && StoreU64(v)[4..] == StoreU32(v / TWO_32);
  }

  lemma StoreLoad64(b: seq<u8>)
    requires |b| == 8
    ensures StoreU64(LoadU64(b)) == b
  {
    hide StoreU32, LoadU32;
    StoreLoad32(b[..4]);
    StoreLoad32(b[4..]);
    DivModUnique(LoadU64(b), TWO_32, LoadU32(b[4..]), LoadU32(b[..4]));
    assert b == b[..4] + b[4..];
  }

  // ---------- buffers ----------

  method StoreBytes(out: array<u8>, at: nat, bytes: seq<u8>)
    requires at + |bytes| <= out.Length
    modifies out
    ensures out[..] == old(out[..at]) + bytes + old(out[at + |bytes|..])
  {
    for i := 0 to |bytes|
      invariant forall j :: 0 <= j < i ==> out[at + j] == bytes[j]
      invariant forall j :: 0 <= j < out.Length && !(at <= j < at + i) ==> out[j] == old(out[j])
    {
      out[at + i] := bytes[i];
    }
    assert forall j :: at <= j < at + |bytes| ==> out[j] == bytes[j - at] by {
      forall j | at <= j < at + |bytes|
        ensures out[j] == bytes[j - at]
      {
        assert out[at + (j - at)] == bytes[j - at];
      }
    }
  }

  /** The bytes of a word array. */
  function ArrayBytes(values: seq<u32>): (b: seq<u8>)
    ensures |b| == 4 * |values|
    ensures forall i :: 0 <= i < |values| ==> b[4 * i..4 * i + 4] == StoreU32(values[i])
  {
    if values == [] then [] else
      var front := ArrayBytes(values[..|values| - 1]);
      ArrayFront(front, values);
      front + StoreU32(values[|values| - 1])
  }

  lemma ArrayFront(front: seq<u8>, values: seq<u32>)
    requires values != [] && |front| == 4 * (|values| - 1)
    requires forall i :: 0 <= i < |values| - 1 ==> front[4 * i..4 * i + 4] == StoreU32(values[i])
    ensures var all := front + StoreU32(values[|values| - 1]);
            forall i :: 0 <= i < |values| ==> all[4 * i..4 * i + 4] == StoreU32(values[i])
  {
    hide StoreU32;
    var all := front + StoreU32(values[|values| - 1]);
    forall i | 0 <= i < |values|
      ensures all[4 * i..4 * i + 4] == StoreU32(values[i])
    {
      if i < |values| - 1 {
        assert all[4 * i..4 * i + 4] == front[4 * i..4 * i + 4];
      }
    }
  }

  /** The words of a byte array. */
  function ArrayWords(bytes: seq<u8>, count: nat): (w: seq<u32>)
    requires |bytes| == 4 * count
    ensures |w| == count && forall i :: 0 <= i < count ==> w[i] == LoadU32(bytes[4 * i..4 * i + 4])
  {
    seq(count, i requires 0 <= i < count => LoadU32(bytes[4 * i..4 * i + 4]))
  }

  /** Writes the words of `values` in order. */
  method StoreArray(bytes: array<u8>, values: seq<u32>)
    requires bytes.Length >= 4 * |values|
    modifies bytes
    ensures bytes[..] == ArrayBytes(values) + old(bytes[4 * |values|..])
  {
    hide StoreU32;
    for i := 0 to |values|
      invariant bytes[..] == ArrayBytes(values[..i]) + old(bytes[4 * i..])
    {
      assert values[..i + 1][..i] == values[..i];
      StoreBytes(bytes, 4 * i, StoreU32(values[i]));
    }
    assert values[..|values|] == values;
  }

  /** Reads `count` words into `out`. */
  method LoadArray(out: array<u32>, bytes: seq<u8>, count: nat)
    requires |bytes| == 4 * count && out.Length >= count
    modifies out
    ensures out[..] == ArrayWords(bytes, count) + old(out[count..])
  {
    hide LoadU32;
    ghost var words := ArrayWords(bytes, count);
    for i := 0 to count
      invariant forall j :: 0 <= j < i ==> out[j] == words[j]
      invariant forall j :: i <= j < out.Length ==> out[j] == old(out[j])
    {
      out[i] := LoadU32(bytes[4 * i..4 * i + 4]);
      assert out[i] == words[i];
    }
  }

  /** Reading back a stored array gives the same words. */
  lemma ArrayRoundTrip(values: seq<u32>)
    ensures ArrayWords(ArrayBytes(values), |values|) == values
  {
    hide StoreU32, LoadU32, ArrayBytes;
    forall i | 0 <= i < |values|
      ensures ArrayWords(ArrayBytes(values), |values|)[i] == values[i]
    {
      LoadStore32(values[i]);
    }
  }

  /** Storing the words that were read gives the same bytes. */
  lemma BytesRoundTrip(bytes: seq<u8>, count: nat)
    requires |bytes| == 4 * count
    ensures ArrayBytes(ArrayWords(bytes, count)) == bytes
  {
    hide StoreU32, LoadU32, ArrayBytes;
    var words := ArrayWords(bytes, count);
    forall k | 0 <= k < |bytes|
      ensures ArrayBytes(words)[k] == bytes[k]
    {
      var i, r := k / 4, k % 4;
      StoreLoad32(bytes[4 * i..4 * i + 4]);
      assert ArrayBytes(words)[4 * i..4 * i + 4] == StoreU32(words[i]);
      assert ArrayBytes(words)[k] == ArrayBytes(words)[4 * i..4 * i + 4][r];
      assert bytes[k] == bytes[4 * i..4 * i + 4][r];
    }
  }
}
