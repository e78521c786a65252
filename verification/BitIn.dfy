/**
 * The packed bit reader, asn_bit_data_t of asn_bit_data.c: a cursor over octets with a bit offset, from which up to 31
 * bits at a time are taken, and which goes on in the next segment when it is used up. The bits left to read are its value.
 */
module BitIn {
  import opened Octets
  import opened Words
  import opened Bits

  /** What one refill brings: octets, and the stretch of their bits that counts. */
  datatype Segment = Segment(octets: seq<Octet>, nboff: nat, nbits: nat)
  {
    predicate Valid() {
      nboff <= nbits <= 8 * |octets|
    }

    function Bits(): seq<bool>
      requires Valid()
    {
      OctetBits(octets)[nboff..nbits]
    }
  }

  function AllBits(segments: seq<Segment>): seq<bool>
    requires forall i :: 0 <= i < |segments| ==> segments[i].Valid()
  {
    if |segments| == 0 then [] else segments[0].Bits() + AllBits(segments[1..])
  }

  /** The same bit of an octet. */
  predicate SameBit(a: nat, b: nat) {
    a % 8 == b % 8
  }

  /** Segments that go on, within their octets, at the bit position where the one before has ended. */
  predicate SegmentsInStep(segments: seq<Segment>, end: nat) {
    segments == [] || (SameBit(segments[0].nboff, end) && SegmentsInStep(segments[1..], segments[0].nbits))
  }

  /** asn_bit_data_t: `base` is how far `buffer` has moved in its octets; `segments` are what refill has to offer. */
  class BitIn {
    var octets: seq<Octet>
    var base: nat
    var nboff: nat
    var nbits: nat
    var moved: int
    const hasRefill: bool
    var segments: seq<Segment>

    ghost predicate Valid()
      reads this`octets, this`base, this`nboff, this`nbits, this`segments
    {
      && base <= |octets|
      && nboff <= nbits <= 8 * (|octets| - base)
      && (forall i :: 0 <= i < |segments| ==> segments[i].Valid())
      && (!hasRefill ==> segments == [])
    }

    /** The bits left in this stretch. */
    ghost function Here(): (b: seq<bool>)
      reads this`octets, this`base, this`nboff, this`nbits, this`segments
      requires Valid()
      ensures |b| == nbits - nboff
    {
      OctetBits(octets[base..])[nboff..nbits]
    }

    /** The bits left, through all refills. */
    ghost function Left(): seq<bool>
      reads this`octets, this`base, this`nboff, this`nbits, this`segments
      requires Valid()
    {
      Here() + AllBits(segments)
    }

    /** Bit positions within octets are not disturbed by refills. */
    ghost predicate InStep()
      reads this`nbits, this`segments
    {
      SegmentsInStep(segments, nbits)
    }

    constructor (first: Segment, hasRefill: bool, segments: seq<Segment>)
      requires first.Valid() && (forall i :: 0 <= i < |segments| ==> segments[i].Valid())
      requires !hasRefill ==> segments == []
      ensures Valid() && Left() == first.Bits() + AllBits(segments) && Here() == first.Bits()
      ensures this.hasRefill == hasRefill && this.segments == segments && nboff == first.nboff && nbits == first.nbits
    {
      octets, base, nboff, nbits, moved := first.octets, 0, first.nboff, first.nbits, 0;
      this.hasRefill, this.segments := hasRefill, segments;
      new;
      assert first.octets[0..] == first.octets;
    }

    /** asn_bit_data_t tpd = *pd. */
    constructor Copy(pd: BitIn)
      requires pd.Valid()
      ensures Valid() && octets == pd.octets && base == pd.base && nboff == pd.nboff && nbits == pd.nbits
      ensures segments == pd.segments && hasRefill == pd.hasRefill && moved == pd.moved
    {
      octets, base, nboff, nbits, moved := pd.octets, pd.base, pd.nboff, pd.nbits, pd.moved;
      hasRefill, segments := pd.hasRefill, pd.segments;
    }

    /** asn_get_undo: the position goes back, unless it is not that far. */
    method Undo(n: nat)
      requires Valid()
      modifies this`nboff, this`moved
      ensures Valid()
      ensures n <= old(nboff) ==> Here() == OctetBits(octets[base..])[old(nboff) - n..old(nboff)] + old(Here())
      ensures nboff == if old(nboff) < n then old(nboff) else old(nboff) - n
      ensures moved == if old(nboff) < n then old(moved) else old(moved) - n
    {
      if nboff < n {
      } else {
        nboff := nboff - n;
        moved := moved - n;
      }
    }

    /** pd->refill: false when there is nothing more. */
    method Refill() returns (ok: bool)
      requires Valid()
      modifies this`octets, this`base, this`nboff, this`nbits, this`segments
      ensures Valid() && ok == (old(segments) != [])
      ensures ok ==> segments == old(segments)[1..] && Left() == AllBits(old(segments))
      ensures ok ==> nboff == old(segments)[0].nboff && nbits == old(segments)[0].nbits
      ensures !ok ==> Left() == old(Left()) && segments == old(segments)
    {
      if segments == [] {
        return false;
      }
      var s := segments[0];
      octets, base, nboff, nbits, segments := s.octets, 0, s.nboff, s.nbits, segments[1..];
      assert octets[0..] == octets;
      ok := true;
    }

    /** Normalize position indicator. */
    method Normalize()
      requires Valid()
      modifies this`base, this`nboff, this`nbits
      ensures Valid() && nboff < 8 && Here() == old(Here())
      ensures nboff == old(nboff) % 8 && nbits % 8 == old(nbits) % 8
    {
      hide OctetBits, BitsOf;
      if nboff >= 8 {
        var whole := nboff / 8;
        ghost var rest := octets[base..];
        OctetBitsConcat(rest[..whole], rest[whole..]);
        assert rest == rest[..whole] + rest[whole..];
        assert rest[whole..] == octets[base + whole..];
        ghost var x, y := OctetBits(rest[..whole]), OctetBits(rest[whole..]);
        assert (x + y)[nboff..nbits] == y[nboff - 8 * whole..nbits - 8 * whole];
        base := base + whole;
        nbits := nbits - 8 * whole;
        nboff := nboff % 8;
      }
    }

    /** Extract specified number of bits from at most four octets. */
    method Extract(n: nat) returns (accum: nat)
      requires Valid() && nboff < 8 && n <= nbits - nboff && nboff + n <= 31
      ensures LowBits(accum, n) == ValueOf(Here()[..n])
    {
      hide OctetBits, BitsOf, LowBits, ValueOf, Shr, Radix256;
      var buf: seq<int> := octets[base..];
      var off := nboff + n;
      assert Here()[..n] == OctetBits(octets[base..])[nboff..off];
      if n == 0 {
        NoBits();
        return 0;
      }
      Extracted(octets[base..], (off + 7) / 8, nboff, n);
      FirstOctets(octets[base..], (off + 7) / 8);
      if off <= 8 {
        accum := Shr(buf[0], 8 - off);
      } else if off <= 16 {
        accum := Shr(buf[0] * 256 + buf[1], 16 - off);
      } else if off <= 24 {
        accum := Shr(buf[0] * 0x1_0000 + buf[1] * 256 + buf[2], 24 - off);
      } else {
        accum := Shr(buf[0] * 0x100_0000 + buf[1] * 0x1_0000 + buf[2] * 256 + buf[3], 32 - off);
      }
    }

    /** asn_get_few_bits: 0 to 31 bits as a number, or -1. */
    method GetFewBits(n: int) returns (r: int)
      requires Valid()
      modifies this
      ensures Valid()
      ensures !(0 <= n <= 31) ==> r == -1 && Left() == old(Left())
      ensures 0 <= n <= 31 && n <= |old(Left())| ==>
        r == ValueOf(old(Left())[..n]) && Left() == old(Left())[n..]
      ensures 0 <= n <= 31 && n <= |old(Here())| ==>
        && r == ValueOf(old(Here())[..n]) && Here() == old(Here())[n..]
        && segments == old(segments) && SameBit(nboff, old(nboff) + n)
      ensures 0 <= n <= 31 && n > |old(Left())| ==> r == -1
      ensures old(InStep()) && 0 <= n <= 31 && n <= |old(Left())| ==>
        InStep() && SameBit(nboff, old(nboff) + n)
      decreases |segments|, n, 3
    {
      hide OctetBits, BitsOf, LowBits, ValueOf, AllBits, SegmentsInStep, SameBit;
      if n < 0 {
        return -1;
      }
      var nleft := nbits - nboff;
      if n > nleft {
        if !hasRefill || n > 31 {
          NoSegments();
          return -1;
        }
        r := GetAcross(n);
      } else {
        FrontOf(Here(), AllBits(segments), n);
        ghost var end := nbits;
        r := GetHere(n);
        StillInStep(segments, nbits, end);
      }
    }

    /** The bits asked for are all there before the next refill. */
    method GetHere(n: nat) returns (r: int)
      requires Valid() && n <= |Here()|
      modifies this`base, this`nboff, this`nbits, this`moved
      ensures Valid() && SameBit(nboff, old(nboff) + if n <= 31 then n else 0) && SameBit(nbits, old(nbits))
      ensures n > 31 ==> r == -1 && Here() == old(Here())
      ensures n <= 31 ==> r == ValueOf(old(Here())[..n]) && Here() == old(Here())[n..]
      decreases |segments|, n, 2
    {
      hide OctetBits, BitsOf, LowBits, ValueOf, AllBits, Here;
      SameOffset(nboff, n);
      Normalize();
      moved := moved + n;
      if nboff + n <= 31 {
        var accum := Extract(n);
        Advance(n);
        r := LowBits(accum, n);
      } else if n <= 31 {
        r := GetSpanning(n);
      } else {
        AdvanceAndUndo(n);
        r := -1;
      }
    }

    /** More than 31 bits are too many. */
    method AdvanceAndUndo(n: nat)
      requires Valid() && n <= |Here()|
      modifies this`nboff, this`moved
      ensures Valid() && nboff == old(nboff) && Here() == old(Here())
    {
      hide OctetBits, BitsOf;
      nboff := nboff + n;
      Undo(n);
    }

    method Advance(n: nat)
      requires Valid() && n <= |Here()|
      modifies this`nboff
      ensures Valid() && nboff == old(nboff) + n && Here() == old(Here())[n..]
    {
      hide OctetBits, BitsOf;
      ghost var here := Here();
      nboff := nboff + n;
      assert Here() == here[n..];
    }

    /** Up to 31 bits that do not fit 31 with the offset: read on a copy from before the advance. */
    method GetSpanning(n: nat) returns (r: int)
      requires Valid() && nboff < 8 && 31 - nboff < n <= 31 && n <= |Here()|
      modifies this`nboff
      ensures Valid() && nboff == old(nboff) + n
      ensures r == ValueOf(old(Here())[..n]) && Here() == old(Here())[n..]
      decreases |segments|, n, 1
    {
      hide OctetBits, BitsOf, LowBits, ValueOf, AllBits;
      ghost var here := Here();
      Advance(n);
      var tpd := new BitIn.Copy(this);
      tpd.Undo(n);
      assert tpd.Here() == here;
      r := tpd.GetTwice(n);
    }

    /** More than 31 bits with the offset: two reads, on a copy. */
    method GetTwice(n: nat) returns (r: int)
      requires Valid() && 24 < n <= 31 && n <= |Here()|
      modifies this
      ensures r == ValueOf(old(Here())[..n])
      decreases |segments|, n, 0
    {
      hide OctetBits, BitsOf, LowBits, ValueOf, AllBits;
      ghost var here := Here();
      var a := GetFewBits(n - 24);
      var b := GetFewBits(24);
      r := Combined(here, n, a, b);
    }

    /** The bits before a refill, and the rest from behind it. */
    method GetAcross(n: nat) returns (r: int)
      requires Valid() && hasRefill && n <= 31 && n > |Here()|
      modifies this
      ensures Valid()
      ensures n <= |old(Left())| ==> r == ValueOf(old(Left())[..n]) && Left() == old(Left())[n..]
      ensures n > |old(Left())| ==> r == -1
      ensures old(InStep()) && n <= |old(Left())| ==> InStep() && SameBit(nboff, old(nboff) + n)
      decreases |segments|, n, 1
    {
      hide OctetBits, BitsOf, LowBits, ValueOf, AllBits, SegmentsInStep, SameBit;
      var nleft := nbits - nboff;
      ghost var here, later := Here(), AllBits(segments);
      var tail := GetFewBits(nleft);
      assert here[..nleft] == here;
      assert Left() == later;
      NextInStep(segments, nbits);
      ghost var end := nbits;
      var more := Refill();
      if !more {
        NoSegments();
        return -1;
      }
      var rest := n - nleft;
      var head := GetFewBits(rest);
      if head == -1 {
        assert |here + later| == |here| + |later|;
        return -1;
      }
      ValueConcat(here, later[..rest]);
      assert (here + later)[..n] == here + later[..rest];
      assert (here + later)[n..] == later[rest..];
      if old(InStep()) {
        AcrossInStep(old(nboff), nleft, end, old(segments)[0].nboff, rest, nboff);
      }
      r := Shl(tail, rest) + head;
    }

    /** One to four octets' worth of bits into dst from p on, zero-filled behind the last one. */
    method GetOctets(dst: array<Octet>, p: nat, n: nat) returns (ok: bool)
      requires Valid() && 0 < n <= 24 && p + (n + 7) / 8 <= dst.Length
      modifies this, dst
      ensures Valid() && ok == (n <= |old(Left())|)
      ensures ok ==> Left() == old(Left())[n..]
      ensures ok ==> OctetBits(dst[p..p + (n + 7) / 8]) == old(Left())[..n] + Zeros(Padding(n))
      ensures forall k :: 0 <= k < dst.Length && !(p <= k < p + (n + 7) / 8) ==> dst[k] == old(dst[k])
    {
      hide OctetBits, BitsOf, LowBits, ValueOf, AllBits, Shl, Left, Here, WordOctets, Zeros, Padding, SameBit;
      ghost var b := Left();
      var value := GetFewBits(n);
      if value < 0 {
        return false;
      }
      FilledOctets(n);
      var m: nat, word: nat := n, value;
      if n % 8 > 0 {
        word := Shl(word, 8 - n % 8);
        m := m + (8 - n % 8);
      } else {
        ShlNothing(word);
      }
      WordOf(b[..n], value, Padding(n), word, m / 8);
      PutWord(dst, p, word, m);
      ok := true;
    }

    /**
     * asn_get_many_bits: octets into dst, zero-filled behind the last bit, or in front of the first one
     * when they are to be right-aligned; false for a return value of -1.
     */
    method GetManyBits(dst: array<Octet>, alright: bool, count: nat) returns (ok: bool)
      requires Valid() && (count + 7) / 8 <= dst.Length
      modifies this, dst
      ensures Valid() && ok == (count <= |old(Left())|)
      ensures ok ==> Left() == old(Left())[count..]
      ensures ok ==> OctetBits(dst[..(count + 7) / 8]) == Aligned(old(Left())[..count], alright)
    {
      hide OctetBits, BitsOf, LowBits, ValueOf, AllBits, Zeros, Aligned, Left, Here, Padding;
      ghost var all := Left();
      if alright && count % 8 > 0 {
        FewAndWhole(count);
        ok := GetRightAligned(dst, count % 8, count / 8, all);
        if ok {
          AlignedRight(all[..count]);
        }
      } else {
        NoOctets(dst[..0], all);
        ok := GetRest(dst, 0, count, [], all, 0);
        if ok {
          AlignedLeft(all[..count], alright);
        }
      }
    }

    /** Right alignment of the first few bits, which k whole octets follow. */
    method GetRightAligned(dst: array<Octet>, few: nat, k: nat, ghost all: seq<bool>) returns (ok: bool)
      requires Valid() && 0 < few < 8 && k + 1 <= dst.Length && Left() == all
      modifies this, dst
      ensures Valid() && ok == (few + 8 * k <= |all|)
      ensures ok ==> Left() == all[few + 8 * k..]
      ensures ok ==> OctetBits(dst[..k + 1]) == Zeros(8 - few) + all[..few + 8 * k]
    {
      hide OctetBits, BitsOf, LowBits, ValueOf, AllBits, Zeros, Left, Here, Padding;
      var value := GetFewBits(few);
      if value < 0 {
        return false;
      }
      RightAligned(all[..few], 8 - few);
      dst[0] := value;
      OctetBitsOne(value);
      assert dst[..1] == [dst[0]];
      OnlyWhole(k);
      ok := GetRest(dst, 1, 8 * k, Zeros(8 - few), all, few);
      if ok {
        NoPadding(Zeros(8 - few) + all[..few + 8 * k], 8 * k);
      }
    }

    /** 24 bits at a time, and then what is left. */
    method GetRest(dst: array<Octet>, start: nat, rest: nat, ghost lead: seq<bool>, ghost all: seq<bool>, ghost at: nat)
        returns (ok: bool)
      requires Valid() && start + (rest + 7) / 8 <= dst.Length
      requires at <= |all| && Left() == all[at..] && OctetBits(dst[..start]) == lead + all[..at]
      modifies this, dst
      ensures Valid() && ok == (at + rest <= |all|)
      ensures ok ==> Left() == all[at + rest..]
      ensures ok ==> OctetBits(dst[..start + (rest + 7) / 8]) == lead + all[..at + rest] + Zeros(Padding(rest))
    {
      hide OctetBits, BitsOf, LowBits, ValueOf, AllBits, Zeros, Padding, Left, Here;
      var p, n: nat := start, rest;
      ghost var done, k: nat := at, 0;
      while n >= 24
        invariant Valid() && n == rest - 24 * k && p == start + 3 * k && done == at + 24 * k
        invariant done <= |all| && Left() == all[done..]
        invariant OctetBits(dst[..p]) == lead + all[..done]
      {
        ThreeOctets(n, k);
        ok := GetMore(dst, p, 24, lead, all, done);
        if !ok {
          return;
        }
        NoPadding(lead + all[..done + 24], 24);
        p, n, done, k := p + 3, n - 24, done + 24, k + 1;
      }
      ThreeOctets(n, k);
      SamePadding(n, rest);
      if n > 0 {
        ok := GetMore(dst, p, n, lead, all, done);
      } else {
        NoPadding(lead + all[..done], rest);
        ok := true;
      }
    }

    /** Octets behind those that are there already. */
    method GetMore(dst: array<Octet>, p: nat, n: nat, ghost lead: seq<bool>, ghost all: seq<bool>, ghost at: nat)
        returns (ok: bool)
      requires Valid() && 0 < n <= 24 && p + (n + 7) / 8 <= dst.Length
      requires at <= |all| && Left() == all[at..] && OctetBits(dst[..p]) == lead + all[..at]
      modifies this, dst
      ensures Valid() && ok == (at + n <= |all|)
      ensures ok ==> Left() == all[at + n..]
      ensures ok ==> OctetBits(dst[..p + (n + 7) / 8]) == lead + all[..at + n] + Zeros(Padding(n))
    {
      hide OctetBits, BitsOf, LowBits, ValueOf, AllBits;
      ghost var was := dst[..p];
      ok := GetOctets(dst, p, n);
      if ok {
        OctetBitsConcat(was, dst[p..p + (n + 7) / 8]);
        assert dst[..p + (n + 7) / 8] == was + dst[p..p + (n + 7) / 8];
        Extends(lead, all, at, n, Zeros(Padding(n)));
      }
    }
  }

  /** The one to three low octets of a word, from p on. */
  method PutWord(dst: array<Octet>, p: nat, word: nat, m: nat)
    requires m in {8, 16, 24} && p + m / 8 <= dst.Length
    modifies dst
    ensures dst[p..p + m / 8] == WordOctets(word, m / 8)
    ensures forall k :: 0 <= k < dst.Length && !(p <= k < p + m / 8) ==> dst[k] == old(dst[k])
  {
    hide WordOctets, Shr;
    var q := p;
    if m > 16 {
      dst[q] := Shr(word, 16) % 256;
      q := q + 1;
    }
    if m > 8 {
      dst[q] := Shr(word, 8) % 256;
      q := q + 1;
    }
    dst[q] := word % 256;
    WordIs(dst[p..p + m / 8], word);
  }

  lemma StillInStep(segments: seq<Segment>, a: nat, b: nat)
    requires SameBit(a, b)
    ensures SegmentsInStep(segments, a) == SegmentsInStep(segments, b)
  {
  }

  lemma NextInStep(segments: seq<Segment>, end: nat)
    ensures SegmentsInStep(segments, end) && segments != [] ==>
      SameBit(segments[0].nboff, end) && SegmentsInStep(segments[1..], segments[0].nbits)
  {
  }

  /** Before the refill, behind it, and at the end. */
  lemma AcrossInStep(start: nat, nleft: nat, end: nat, first: nat, rest: nat, nboff: nat)
    requires SameBit(end, start + nleft) && SameBit(first, end) && SameBit(nboff, first + rest)
    ensures SameBit(nboff, start + (nleft + rest))
  {
    var k, m := (start + nleft - end) / 8, (first - end) / 8;
    assert first + rest == start + nleft + rest + 8 * (m - k);
  }

  lemma SameOffset(nboff: nat, n: nat)
    ensures (nboff % 8 + n) % 8 == (nboff + n) % 8 && nboff % 8 % 8 == nboff % 8
  {
  }

  lemma Extends(lead: seq<bool>, all: seq<bool>, at: nat, n: nat, z: seq<bool>)
    requires at + n <= |all|
    ensures lead + all[..at] + (all[at..][..n] + z) == lead + all[..at + n] + z
    ensures all[at..][n..] == all[at + n..]
  {
  }

  /** Bits brought to whole octets: filled up in front, or behind. */
  function Aligned(b: seq<bool>, alright: bool): seq<bool> {
    if alright then Zeros(Padding(|b|)) + b else b + Zeros(Padding(|b|))
  }

  lemma AlignedRight(b: seq<bool>)
    ensures Zeros(Padding(|b|)) + b == Aligned(b, true)
  {
  }

  lemma AlignedLeft(b: seq<bool>, alright: bool)
    requires !alright || |b| % 8 == 0
    ensures [] + b + Zeros(Padding(|b|)) == Aligned(b, alright)
  {
    assert [] + b == b;
    if alright {
      NoPadding(b, |b|);
      assert Zeros(Padding(|b|)) + b == b;
    }
  }

  lemma FewAndWhole(count: nat)
    requires count % 8 > 0
    ensures count / 8 + 1 == (count + 7) / 8 && count % 8 + 8 * (count / 8) == count
    ensures Padding(count) == 8 - count % 8
  {
  }

  lemma ThreeOctets(n: nat, k: nat)
    ensures (n + 24 * k + 7) / 8 == (n + 7) / 8 + 3 * k && (n + 24 * k) % 8 == n % 8
  {
  }

  lemma FilledOctets(n: nat)
    requires 0 < n <= 24
    ensures Padding(n) == if n % 8 > 0 then 8 - n % 8 else 0
    ensures n + Padding(n) in {8, 16, 24} && (n + Padding(n)) / 8 == (n + 7) / 8
    ensures n + Padding(n) == 8 * ((n + Padding(n)) / 8)
  {
  }

  lemma OnlyWhole(k: nat)
    ensures (8 * k + 7) / 8 == k && 8 * k % 8 == 0
  {
  }

  lemma NoPadding(b: seq<bool>, n: nat)
    requires n % 8 == 0
    ensures b + Zeros(Padding(n)) == b
  {
  }

  lemma SamePadding(m: nat, n: nat)
    requires m % 8 == n % 8
    ensures Padding(m) == Padding(n)
  {
  }

  lemma NoOctets(s: seq<Octet>, all: seq<bool>)
    requires |s| == 0
    ensures OctetBits(s) == [] + all[..0] && all[0..] == all
  {
  }

  lemma ShlNothing(v: nat)
    ensures Shl(v, 0) == v
  {
  }

  /** A number shifted left spells its bits and zeros. */
  lemma WordOf(b: seq<bool>, value: nat, spare: nat, word: nat, k: nat)
    requires value == ValueOf(b) && word == Shl(value, spare) && |b| + spare == 8 * k
    ensures OctetBits(WordOctets(word, k)) == b + Zeros(spare)
  {
    hide OctetBits, BitsOf, ValueOf, Shl;
    WordBits(word, k);
    BitsShifted(value, |b|, spare);
    BitsOfValue(b);
  }

  lemma WordIs(s: seq<Octet>, word: nat)
    requires 0 < |s| <= 3 && s[|s| - 1] == word % 256
    requires |s| > 1 ==> s[|s| - 2] == Shr(word, 8) % 256
    requires |s| > 2 ==> s[|s| - 3] == Shr(word, 16) % 256
    ensures s == WordOctets(word, |s|)
  {
    hide Shr;
    forall i | 0 <= i < |s|
      ensures s[i] == WordOctets(word, |s|)[i]
    {
      WordOctetAt(word, |s|, i);
    }
    assert Shr(word, 0) == word by { ShrNothing(word); }
  }

  /** Fewer than eight bits, read as a number, are an octet with zeros in front. */
  lemma RightAligned(b: seq<bool>, pad: nat)
    requires |b| + pad == 8
    ensures ValueOf(b) < 256 && BitsOf(ValueOf(b), 8) == Zeros(pad) + b
  {
    hide BitsOf, ValueOf;
    BitsSplit(ValueOf(b), pad, |b|);
    ValueFits(b);
    BitsOfZero(pad);
    BitsOfValue(b);
    ShrAdd(ValueOf(b), |b|, pad);
    ShrZero(pad);
    Shr8(ValueOf(b));
  }

  lemma NoSegments()
    ensures AllBits([]) == []
  {
  }

  lemma FrontOf(a: seq<bool>, b: seq<bool>, n: nat)
    requires n <= |a|
    ensures (a + b)[..n] == a[..n] && (a + b)[n..] == a[n..] + b
  {
  }

  lemma FirstOctets(s: seq<Octet>, k: nat)
    requires 0 < k <= 4 && k <= |s|
    ensures Radix256(s, 0, k) ==
      if k == 1 then s[0] as int
      else if k == 2 then s[0] as int * 256 + s[1]
      else if k == 3 then s[0] as int * 0x1_0000 + s[1] as int * 256 + s[2]
      else s[0] as int * 0x100_0000 + s[1] as int * 0x1_0000 + s[2] as int * 256 + s[3]
  {
    assert Radix256(s, 0, 1) == s[0];
    if k > 1 {
      assert Radix256(s, 0, 2) == Radix256(s, 0, 1) * 256 + s[1];
    }
    if k > 2 {
      assert Radix256(s, 0, 3) == Radix256(s, 0, 2) * 256 + s[2];
    }
  }

  lemma NoBits()
    ensures LowBits(0, 0) == ValueOf([])
  {
  }

  /** accum = a << 24 | b, masked. */
  method Combined(ghost here: seq<bool>, n: nat, a: int, b: int) returns (r: nat)
    requires 24 <= n <= |here|
    requires a == ValueOf(here[..n - 24]) && b == ValueOf(here[n - 24..][..24])
    ensures r == ValueOf(here[..n])
  {
    hide ValueOf, LowBits;
    ValueConcat(here[..n - 24], here[n - 24..][..24]);
    assert here[..n - 24] + here[n - 24..][..24] == here[..n];
    LowBitsOfValue(here[..n]);
    r := LowBits(Shl(a, 24) + b, n);
  }
}
