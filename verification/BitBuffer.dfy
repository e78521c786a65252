/**
 * The bit-at-a-time buffer of bit_buffer.hpp: octets in memory and the index of the next bit, at which numbers are read
 * and written most significant bit first.
 */
module BitBuffer {
  import opened Octets
  import opened Words
  import opened Bits

  class BitBuffer {
    const data: array<Octet>
    var index: nat

    constructor (data: array<Octet>)
      ensures this.data == data && index == 0
    {
      this.data, index := data, 0;
    }

    /** Every bit of the buffer, whether written or not. */
    ghost function Memory(): (m: seq<bool>)
      reads data
      ensures |m| == 8 * data.Length
    {
      OctetBits(data[..])
    }

    method Write(bit: bool)
      requires index < 8 * data.Length
      modifies this, data
      ensures index == old(index) + 1 && Memory() == old(Memory())[old(index) := bit]
    {
      hide BitsOf, OctetBits;
      var octetIndex, bitIndex := index / 8, index % 8;
      WithBitBits(data[octetIndex], 7 - bitIndex, bit);
      ghost var was := data[..];
      data[octetIndex] := WithBit(data[octetIndex], 7 - bitIndex, bit);
      index := index + 1;
      assert data[..] == was[octetIndex := data[octetIndex]];
      OctetReplaced(was, octetIndex, data[octetIndex], bitIndex, bit);
    }

    method Read() returns (bit: nat)
      requires index < 8 * data.Length
      modifies this
      ensures index == old(index) + 1
      ensures bit == if Memory()[old(index)] then 1 else 0
    {
      hide OctetBits;
      var octetIndex, bitIndex := index / 8, index % 8;
      index := index + 1;
      OctetBitAt(data[..], octetIndex, bitIndex);
      BitAt(data[octetIndex], 8, bitIndex);
      bit := Shr(data[octetIndex], 7 - bitIndex) % 2;
    }

    /** writeBits of an integer given by its 64-bit pattern. */
    method WriteBits(value: U64, len: nat)
      requires len <= 64 && index + len <= 8 * data.Length
      modifies this, data
      ensures index == old(index) + len
      ensures Memory() == old(Memory())[..old(index)] + BitsOf(value, len) + old(Memory())[index..]
    {
      hide BitsOf, OctetBits;
      if len == 0 {
        assert BitsOf(value, 0) == [];
        return;
      }
      var i := 0;
      while i < len
        invariant 0 <= i <= len && index == old(index) + i
        invariant Memory() == old(Memory())[..old(index)] + BitsOf(value, len)[..i] + old(Memory())[index..]
      {
        BitAt(value, len, i);
        Write(Shr(value, len - 1 - i) % 2 == 1);
        i := i + 1;
      }
    }

    method ReadBits(len: nat) returns (value: nat)
      requires 0 < len < 32 && index + len <= 8 * data.Length
      modifies this
      ensures index == old(index) + len
      ensures value == ValueOf(Memory()[old(index)..index])
    {
      hide BitsOf, OctetBits;
      value := 0;
      var left := len;
      while left > 0
        invariant 0 <= left <= len && index == old(index) + len - left
        invariant Memory() == old(Memory())
        invariant value == ValueOf(Memory()[old(index)..index])
      {
        left := left - 1;
        var bit := Read();
        ghost var b := Memory()[old(index)..index];
        assert b[..|b| - 1] == Memory()[old(index)..index - 1];
        value := value * 2 + bit;
      }
    }
  }

  lemma OctetReplaced(s: seq<Octet>, k: nat, o: Octet, i: nat, bit: bool)
    requires k < |s| && i < 8 && BitsOf(o, 8) == BitsOf(s[k], 8)[i := bit]
    ensures OctetBits(s[k := o]) == OctetBits(s)[8 * k + i := bit]
  {
    hide BitsOf, OctetBits;
    var a, c := s[..k], s[k + 1..];
    Around(a, s[k], c);
    Around(a, o, c);
    assert s == a + [s[k]] + c && s[k := o] == a + [o] + c;
    var x, y, z := OctetBits(a), BitsOf(s[k], 8), OctetBits(c);
    assert (x + y + z)[8 * k + i := bit] == x + y[i := bit] + z;
  }

  lemma Around(a: seq<Octet>, o: Octet, c: seq<Octet>)
    ensures OctetBits(a + [o] + c) == OctetBits(a) + BitsOf(o, 8) + OctetBits(c)
  {
    hide BitsOf, OctetBits;
    OctetBitsConcat(a, [o]);
    OctetBitsConcat(a + [o], c);
    OctetBitsOne(o);
  }
}
