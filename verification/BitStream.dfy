/** Lists of fields through the packed writer, the packed reader and the bit-at-a-time buffer. */
module BitStream {
  import opened Octets
  import opened Words
  import opened Bits
  import opened BitOut
  import opened BitIn
  import opened BitBuffer

  /** One call of asn_put_few_bits. */
  datatype Field = Field(value: U32, width: nat)
  {
    predicate Valid() {
      width <= 31
    }

    function Bits(): (b: seq<bool>)
      ensures |b| == width
    {
      BitsOf(value, width)
    }

    /** What is left of the value in that many bits. */
    function Masked(): nat {
      LowBits(value, width)
    }
  }

  predicate AllValid(fields: seq<Field>) {
    forall i :: 0 <= i < |fields| ==> fields[i].Valid()
  }

  function FieldBits(fields: seq<Field>): seq<bool> {
    if |fields| == 0 then [] else fields[0].Bits() + FieldBits(fields[1..])
  }

  /** The fields, filled up with zeros to a whole octet. */
  function Packed(fields: seq<Field>): seq<bool> {
    FieldBits(fields) + Zeros(Padding(|FieldBits(fields)|))
  }

  lemma NextField(fields: seq<Field>, i: nat)
    requires i < |fields|
    ensures FieldBits(fields[i..]) == fields[i].Bits() + FieldBits(fields[i + 1..])
  {
    assert fields[i..][1..] == fields[i + 1..];
  }

  lemma Regroup(a: seq<bool>, b: seq<bool>, c: seq<bool>)
    ensures a + (b + c) == a + b + c
    ensures (b + c)[..|b|] == b && (b + c)[|b|..] == c
  {
  }

  /** Any fields, put one after the other, append their masked values most significant bit first. */
  method PutFields(po: BitOut, fields: seq<Field>) returns (ok: bool)
    requires po.Valid() && AllValid(fields)
    modifies po, po.tmpspace
    ensures po.Valid()
    ensures ok ==> po.Written() == old(po.Written()) + FieldBits(fields)
    ensures !po.sinkFails ==> ok
  {
    hide BitsOf, OctetBits, FieldBits, po.Written;
    ghost var start := po.Written();
    var i := 0;
    assert fields[0..] == fields;
    while i < |fields|
      invariant 0 <= i <= |fields| && po.Valid()
      invariant po.Written() + FieldBits(fields[i..]) == start + FieldBits(fields)
    {
      NextField(fields, i);
      Regroup(po.Written(), fields[i].Bits(), FieldBits(fields[i + 1..]));
      ok := po.PutFewBits(fields[i].value, fields[i].width);
      if !ok {
        return;
      }
      i := i + 1;
    }
    NoFields(fields[i..]);
    ok := true;
  }

  lemma NoFields(fields: seq<Field>)
    requires |fields| == 0
    ensures FieldBits(fields) == []
  {
  }

  /** Reading the same widths gives every value modulo 2 to its width, however the bits arrive. */
  method GetFields(pd: BitIn, fields: seq<Field>, ghost rest: seq<bool>) returns (values: seq<int>)
    requires pd.Valid() && AllValid(fields) && pd.Left() == FieldBits(fields) + rest
    modifies pd
    ensures pd.Valid() && pd.Left() == rest
    ensures |values| == |fields| && forall i :: 0 <= i < |fields| ==> values[i] == fields[i].Masked()
  {
    hide BitsOf, OctetBits, FieldBits, LowBits, ValueOf, AllBits, pd.Left;
    values := [];
    var i := 0;
    assert fields[0..] == fields;
    while i < |fields|
      invariant 0 <= i <= |fields| && pd.Valid() && |values| == i
      invariant pd.Left() == FieldBits(fields[i..]) + rest
      invariant forall k :: 0 <= k < i ==> values[k] == fields[k].Masked()
    {
      var f := fields[i];
      NextField(fields, i);
      Regroup(f.Bits(), FieldBits(fields[i + 1..]), rest);
      Regroup(pd.Left(), f.Bits(), FieldBits(fields[i + 1..]) + rest);
      LowBitsValue(f.value, f.width);
      var value := pd.GetFewBits(f.width);
      values := values + [value];
      i := i + 1;
    }
    NoFields(fields[i..]);
  }

  /** The packed writer, from an empty structure to the final flush. */
  method Pack(fields: seq<Field>) returns (octets: seq<Octet>)
    requires AllValid(fields)
    ensures OctetBits(octets) == Packed(fields)
  {
    hide BitsOf, OctetBits, FieldBits, Zeros, Padding;
    var po := new BitOut(false);
    var ok := PutFields(po, fields);
    assert [] + FieldBits(fields) == FieldBits(fields);
    ok := po.AlignedFlush();
    octets := po.out;
  }

  /** The same fields written bit by bit into a cleared buffer. */
  method PutPlain(bb: BitBuffer, fields: seq<Field>)
    requires AllValid(fields) && bb.index + |FieldBits(fields)| <= 8 * bb.data.Length
    modifies bb, bb.data
    ensures bb.index == old(bb.index) + |FieldBits(fields)|
    ensures bb.Memory() == old(bb.Memory())[..old(bb.index)] + FieldBits(fields) + old(bb.Memory())[bb.index..]
  {
    hide BitsOf, OctetBits, FieldBits, bb.Memory;
    ghost var front, start := old(bb.Memory())[..bb.index], bb.index;
    var i := 0;
    assert fields[0..] == fields;
    ghost var done: seq<bool> := [];
    Around(old(bb.Memory()), bb.index, []);
    while i < |fields|
      invariant 0 <= i <= |fields| && bb.index == start + |done|
      invariant done + FieldBits(fields[i..]) == FieldBits(fields)
      invariant bb.Memory() == front + done + old(bb.Memory())[bb.index..]
    {
      var f := fields[i];
      NextField(fields, i);
      Regroup(done, f.Bits(), FieldBits(fields[i + 1..]));
      Behind(front + done, old(bb.Memory())[bb.index..], f.width);
      bb.WriteBits(f.value, f.width);
      done := done + f.Bits();
      i := i + 1;
    }
    NoFields(fields[i..]);
  }

  lemma Around(m: seq<bool>, i: nat, none: seq<bool>)
    requires i <= |m| && |none| == 0
    ensures m == m[..i] + none + m[i..]
  {
  }

  lemma Behind(a: seq<bool>, b: seq<bool>, n: nat)
    requires n <= |b|
    ensures (a + b)[..|a|] == a && (a + b)[|a| + n..] == b[n..]
  {
  }

  method TotalWidth(fields: seq<Field>) returns (total: nat)
    ensures total == |FieldBits(fields)|
  {
    hide BitsOf, FieldBits;
    total := 0;
    assert fields[0..] == fields;
    for i := 0 to |fields|
      invariant total + |FieldBits(fields[i..])| == |FieldBits(fields)|
    {
      NextField(fields, i);
      total := total + fields[i].width;
    }
    NoFields(fields[|fields|..]);
  }

  /** The bit-at-a-time writer over a cleared buffer of just the octets needed. */
  method PutPlainAll(fields: seq<Field>) returns (octets: seq<Octet>)
    requires AllValid(fields)
    ensures OctetBits(octets) == Packed(fields)
  {
    hide BitsOf, OctetBits, FieldBits, Zeros, Padding, Packed;
    var total := TotalWidth(fields);
    var data := new Octet[(total + 7) / 8](_ => 0);
    var bb := new BitBuffer(data);
    ClearedOctets(data[..]);
    PutPlain(bb, fields);
    FilledUp(fields, data.Length);
    octets := data[..];
  }

  lemma FilledUp(fields: seq<Field>, k: nat)
    requires k == (|FieldBits(fields)| + 7) / 8
    ensures |FieldBits(fields)| <= 8 * k
    ensures var z := Zeros(8 * k); z[..0] + FieldBits(fields) + z[|FieldBits(fields)|..] == Packed(fields)
  {
    hide BitsOf, FieldBits;
    assert Padding(|FieldBits(fields)|) == 8 * k - |FieldBits(fields)|;
  }

  lemma {:induction false} ClearedOctets(s: seq<Octet>)
    requires forall i :: 0 <= i < |s| ==> s[i] == 0
    ensures OctetBits(s) == Zeros(8 * |s|)
  {
    hide BitsOf;
    if |s| > 0 {
      ClearedOctets(s[..|s| - 1]);
      BitsOfZero(8);
    }
  }

  /** The packed writer refines the bit-at-a-time one: for all fields, the same octets. */
  method PackedRefinesPlain(fields: seq<Field>) returns (packed: seq<Octet>, plain: seq<Octet>)
    requires AllValid(fields)
    ensures packed == plain && OctetBits(packed) == Packed(fields)
  {
    hide OctetBits, Packed;
    packed := Pack(fields);
    plain := PutPlainAll(fields);
    OctetBitsInjective(packed, plain);
  }

  /**
   * What the packed writer put comes back from the packed reader, whichever stretches its octets arrive in:
   * `first` and `later` are any segments whose bits follow each other like those of the octets written.
   */
  method RoundTrip(fields: seq<Field>, first: Segment, later: seq<Segment>) returns (values: seq<int>)
    requires AllValid(fields) && first.Valid() && (forall i :: 0 <= i < |later| ==> later[i].Valid())
    requires first.Bits() + AllBits(later) == Packed(fields)
    ensures |values| == |fields| && forall i :: 0 <= i < |fields| ==> values[i] == fields[i].Masked()
  {
    hide BitsOf, OctetBits, FieldBits, LowBits, AllBits, Zeros;
    var pd := new BitIn(first, true, later);
    values := GetFields(pd, fields, Zeros(Padding(|FieldBits(fields)|)));
  }

  /** One packed read agrees with the same read bit by bit, at every bit offset. */
  method ReadersAgree(octets: seq<Octet>, offset: nat, n: nat) returns (packed: int, plain: int)
    requires 0 < n <= 31 && offset + n <= 8 * |octets|
    ensures packed == plain == ValueOf(OctetBits(octets)[offset..offset + n])
  {
    hide BitsOf, OctetBits, ValueOf;
    var pd := new BitIn(Segment(octets, offset, 8 * |octets|), false, []);
    ghost var b := OctetBits(octets);
    assert b[offset..8 * |octets|] + [] == b[offset..];
    assert b[offset..][..n] == b[offset..offset + n];
    packed := pd.GetFewBits(n);
    var data := new Octet[|octets|](i requires 0 <= i < |octets| => octets[i]);
    assert data[..] == octets;
    var bb := new BitBuffer(data);
    bb.index := offset;
    plain := bb.ReadBits(n);
  }

  /** A run of bits of any length, put into an empty structure and flushed. */
  method PackMany(src: seq<Octet>, count: nat) returns (octets: seq<Octet>)
    requires count <= 8 * |src|
    ensures OctetBits(octets) == OctetBits(src)[..count] + Zeros(Padding(count))
  {
    hide BitsOf, OctetBits, Zeros, Padding;
    var po := new BitOut(false);
    var ok := po.PutManyBits(src, count);
    assert [] + OctetBits(src)[..count] == OctetBits(src)[..count];
    ok := po.AlignedFlush();
    octets := po.out;
  }

  /** The first bits of some octets, read at once. */
  method UnpackMany(octets: seq<Octet>, count: nat, alright: bool, ghost z: seq<bool>) returns (dst: array<Octet>)
    requires count + |z| == 8 * |octets|
    ensures dst.Length == (count + 7) / 8 && OctetBits(dst[..]) == Aligned(OctetBits(octets)[..count], alright)
  {
    hide BitsOf, OctetBits, Aligned, Zeros, Padding;
    var pd := new BitIn(Segment(octets, 0, 8 * |octets|), false, []);
    WholeSegment(OctetBits(octets));
    dst := new Octet[(count + 7) / 8];
    var ok := pd.GetManyBits(dst, alright, count);
    assert dst[..(count + 7) / 8] == dst[..];
  }

  /** A run of bits of any length, put and flushed, comes back brought to whole octets on the side asked for. */
  method ManyBitsBack(src: seq<Octet>, count: nat, alright: bool) returns (dst: array<Octet>)
    requires count <= 8 * |src|
    ensures dst.Length == (count + 7) / 8 && OctetBits(dst[..]) == Aligned(OctetBits(src)[..count], alright)
  {
    hide BitsOf, OctetBits, Aligned, Zeros, Padding;
    var octets := PackMany(src, count);
    dst := UnpackMany(octets, count, alright, Zeros(Padding(count)));
    assert (OctetBits(src)[..count] + Zeros(Padding(count)))[..count] == OctetBits(src)[..count];
  }

  lemma WholeSegment(b: seq<bool>)
    ensures b[0..|b|] + [] == b
  {
  }
}
