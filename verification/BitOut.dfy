/**
 * The packed bit writer, asn_bit_outp_t of asn_bit_data.c: up to 31 bits at a time go behind those in a scratch area of
 * 32 octets, which is flushed through a callback when it may not take another word. The bits written so far are its value.
 */
module BitOut {
  import opened Octets
  import opened Words
  import opened Bits

  const SCRATCH := 32

  /**
   * What a word put behind the first nboff bits of an octet leaves in memory: the octet keeps its meaningful
   * bits (the mask), the word fills up the rest of it and the octets that follow.
   */
  predicate Holds(buf: seq<Octet>, o: Octet, nboff: nat, w: nat)
    requires nboff < 8 && |buf| > 0
  {
    && buf[0] == Shl(Shr(o, 8 - nboff), 8 - nboff) + Shr(w, 8 * (|buf| - 1))
    && forall i :: 1 <= i < |buf| ==> buf[i] == Shr(w, 8 * (|buf| - 1 - i)) % 256
  }

  lemma HoldsOne(buf: seq<Octet>, o: Octet, nboff: nat, w: nat)
    requires nboff < 8 && |buf| == 1 && buf[0] == Shl(Shr(o, 8 - nboff), 8 - nboff) + w
    ensures Holds(buf, o, nboff, w)
  {
    hide Shr, Shl;
    ShrNothing(w);
  }

  lemma HoldsTwo(buf: seq<Octet>, o: Octet, nboff: nat, w: nat)
    requires nboff < 8 && |buf| == 2 && buf[0] == Shl(Shr(o, 8 - nboff), 8 - nboff) + Shr(w, 8) && buf[1] == w % 256
    ensures Holds(buf, o, nboff, w)
  {
    hide Shr, Shl;
    ShrNothing(w);
  }

  lemma HoldsThree(buf: seq<Octet>, o: Octet, nboff: nat, w: nat)
    requires nboff < 8 && |buf| == 3 && buf[0] == Shl(Shr(o, 8 - nboff), 8 - nboff) + Shr(w, 16)
    requires buf[1] == Shr(w, 8) % 256 && buf[2] == w % 256
    ensures Holds(buf, o, nboff, w)
  {
    hide Shr, Shl;
    ShrNothing(w);
  }

  lemma HoldsFour(buf: seq<Octet>, o: Octet, nboff: nat, w: nat)
    requires nboff < 8 && |buf| == 4 && buf[0] == Shl(Shr(o, 8 - nboff), 8 - nboff) + Shr(w, 24)
    requires buf[1] == Shr(w, 16) % 256 && buf[2] == Shr(w, 8) % 256 && buf[3] == w % 256
    ensures Holds(buf, o, nboff, w)
  {
    hide Shr, Shl;
    ShrNothing(w);
  }

  /** What such octets hold, as one number. */
  lemma HoldsWord(buf: seq<Octet>, o: Octet, nboff: nat, w: nat)
    requires nboff < 8 && |buf| > 0 && Holds(buf, o, nboff, w)
    ensures buf == WordOctets(Shl(Shr(o, 8 - nboff), 8 * |buf| - nboff) + w, |buf|)
  {
    hide Shr, Shl, WordOctets;
    var k, p := |buf|, Shr(o, 8 - nboff);
    var word := Shl(p, 8 * k - nboff) + w;
    forall i | 0 <= i < k
      ensures buf[i] == WordOctets(word, k)[i]
    {
      WordOctetAt(word, k, i);
      if i == 0 {
        ShlAdd(p, 8 - nboff, 8 * (k - 1));
        ShrPlus(Shl(p, 8 - nboff), w, 8 * (k - 1));
      } else {
        OctetBelow(p, w, 8 * k - nboff, 8 * (k - 1 - i));
      }
    }
  }

  /** The bits of an octet's front and a value behind it, spelled as one number. */
  lemma WordHolds(o: Octet, nboff: nat, v: nat, obits: nat, spare: nat)
    requires nboff <= 8 && Shr(v, obits) == 0
    ensures BitsOf(Shl(Shr(o, 8 - nboff), obits + spare) + Shl(v, spare), nboff + (obits + spare))
         == BitsOf(o, 8)[..nboff] + (BitsOf(v, obits) + Zeros(spare))
  {
    hide BitsOf, Shr, Shl;
    var w, p := Shl(v, spare), Shr(o, 8 - nboff);
    ShiftedFits(v, obits, spare);
    BitsJoin(p, w, nboff, obits + spare);
    BitsShifted(v, obits, spare);
    BitsSplit(o, nboff, 8 - nboff);
    assert BitsOf(o, 8)[..nboff] == BitsOf(p, nboff);
  }

  /** The bits such octets hold: the meaningful ones, then those of the value. */
  lemma HoldsBits(buf: seq<Octet>, o: Octet, nboff: nat, v: nat, obits: nat, spare: nat)
    requires nboff < 8 && |buf| > 0 && nboff + (obits + spare) == 8 * |buf| && Shr(v, obits) == 0
    requires Holds(buf, o, nboff, Shl(v, spare))
    ensures OctetBits(buf)[..nboff + obits] == BitsOf(o, 8)[..nboff] + BitsOf(v, obits)
  {
    hide BitsOf, OctetBits, Holds, Shr, Shl, WordOctets;
    HoldsWord(buf, o, nboff, Shl(v, spare));
    WordHolds(o, nboff, v, obits, spare);
    assert 8 * |buf| - nboff == obits + spare;
    WordBits(Shl(Shr(o, 8 - nboff), obits + spare) + Shl(v, spare), |buf|);
    FrontOf(BitsOf(o, 8)[..nboff], BitsOf(v, obits), Zeros(spare));
  }

  lemma FrontOf(a: seq<bool>, b: seq<bool>, c: seq<bool>)
    ensures (a + (b + c))[..|a| + |b|] == a + b
  {
  }

  /** Whole octets count as written wherever the position indicator stands. */
  lemma NormalizedBits(head: seq<Octet>, rest: seq<Octet>, whole: nat, nboff: nat)
    requires 8 * whole <= nboff <= 8 * |rest|
    ensures OctetBits(head) + OctetBits(rest)[..nboff]
         == OctetBits(head + rest[..whole]) + OctetBits(rest[whole..])[..nboff - 8 * whole]
  {
    hide BitsOf, OctetBits;
    var x, y := OctetBits(rest[..whole]), OctetBits(rest[whole..]);
    OctetBitsConcat(rest[..whole], rest[whole..]);
    assert rest[..whole] + rest[whole..] == rest;
    OctetBitsConcat(head, rest[..whole]);
    assert (x + y)[..nboff] == x + y[..nboff - 8 * whole];
    assert OctetBits(head) + (x + y[..nboff - 8 * whole]) == OctetBits(head) + x + y[..nboff - 8 * whole];
  }

  lemma ShiftedFits(v: nat, m: nat, n: nat)
    requires Shr(v, m) == 0
    ensures Shr(Shl(v, n), m + n) == 0
  {
    ShrZero(n);
    ShlPlus(v, 0, n);
    ShrAdd(Shl(v, n), n, m);
  }

  /** asn_bit_outp_t: `base` is buffer - tmpspace, `out` what went through the output callback. */
  class BitOut {
    const tmpspace: array<Octet>
    var base: nat
    var nboff: nat
    var nbits: nat
    var flushed: nat
    var out: seq<Octet>
    /** Whether the output callback reports failure. */
    const sinkFails: bool

    ghost predicate Valid()
      reads this, tmpspace
    {
      && tmpspace.Length == SCRATCH
      && nboff <= nbits
      && (8 * base + nbits == 8 * SCRATCH || (base == 0 && nbits == 0))
      && flushed == |out|
    }

    /** Every bit put so far. */
    ghost function Written(): (b: seq<bool>)
      reads this, tmpspace
      requires Valid()
      ensures |b| == 8 * (|out| + base) + nboff
    {
      OctetBits(out + tmpspace[..base]) + OctetBits(tmpspace[base..])[..nboff]
    }

    /** A zeroed structure: the scratch area is only taken up by the first bits put. */
    constructor (sinkFails: bool)
      ensures Valid() && Written() == [] && out == [] && fresh(tmpspace) && this.sinkFails == sinkFails
    {
      this.sinkFails := sinkFails;
      tmpspace := new Octet[SCRATCH];
      base, nboff, nbits, flushed, out := 0, 0, 0, 0, [];
    }

    /** Normalize position indicator. */
    method Normalize()
      requires Valid()
      modifies this`base, this`nboff, this`nbits
      ensures Valid() && nboff < 8 && Written() == old(Written())
      ensures nboff == old(nboff) % 8
    {
      hide OctetBits, BitsOf;
      if nboff >= 8 {
        var whole := nboff / 8;
        ghost var rest := tmpspace[base..];
        NormalizedBits(out + tmpspace[..base], rest, whole, nboff);
        assert rest[whole..] == tmpspace[base + whole..];
        assert out + tmpspace[..base] + rest[..whole] == out + tmpspace[..base + whole];
        base := base + whole;
        nbits := nbits - 8 * whole;
        nboff := nboff % 8;
      }
    }

    /** Flush whole-bytes output. */
    method Flush()
      requires Valid() && nboff < 8
      modifies this`base, this`nbits, this`flushed, this`out, tmpspace
      ensures Valid() && nbits == 8 * SCRATCH && base == 0 && Written() == old(Written())
    {
      hide OctetBits, BitsOf;
      ghost var rest := tmpspace[base..];
      out := out + tmpspace[..base];
      flushed := flushed + base;
      if nboff > 0 {
        FirstBits(rest, nboff);
        tmpspace[0] := tmpspace[base];
        FirstBits(tmpspace[..], nboff);
      }
      base := 0;
      nbits := 8 * SCRATCH;
      assert out + tmpspace[..0] == out && tmpspace[0..] == tmpspace[..];
    }

    /** buf[0] & omsk. */
    function Kept(): nat
      reads this, tmpspace
      requires tmpspace.Length == SCRATCH && base < SCRATCH && nboff < 8
    {
      Shl(Shr(tmpspace[base], 8 - nboff), 8 - nboff)
    }

    /** The bits in memory from base on, once k octets hold a value behind the meaningful bits. */
    lemma Stored(head: seq<Octet>, was: seq<Octet>, now: seq<Octet>, k: nat, n: nat, v: nat, obits: nat)
      requires 0 < k <= |was| == |now| && n < 8 && n + obits <= 8 * k && Shr(v, obits) == 0
      requires Holds(now[..k], was[0], n, Shl(v, 8 * k - n - obits))
      ensures OctetBits(head) + OctetBits(now)[..n + obits]
           == OctetBits(head) + OctetBits(was)[..n] + BitsOf(v, obits)
    {
      hide BitsOf, OctetBits, Holds, Shr, Shl;
      HoldsBits(now[..k], was[0], n, v, obits, 8 * k - n - obits);
      FirstBits(was, n);
      OctetBitsConcat(now[..k], now[k..]);
      assert now[..k] + now[k..] == now;
      assert (OctetBits(now[..k]) + OctetBits(now[k..]))[..n + obits] == OctetBits(now[..k])[..n + obits];
    }

    /** Store a masked value of at most 31 bits, offset included, in the one to four octets it touches. */
    method Store(v: nat, obits: nat)
      requires Valid() && nboff < 8 && 0 < obits && nboff + obits <= 31 && nboff + obits <= nbits
      requires Shr(v, obits) == 0
      modifies this`nboff, tmpspace
      ensures Valid() && Written() == old(Written()) + BitsOf(v, obits)
    {
      hide BitsOf, OctetBits, Shr, Shl, Holds;
      var off := nboff + obits;
      ghost var n, was := nboff, tmpspace[base..];
      ghost var k := (off + 7) / 8;
      Spread(v, obits, off);
      nboff := off;
      ghost var now := tmpspace[base..];
      assert now[..k] == tmpspace[base..base + k];
      Stored(out + tmpspace[..base], was, now, k, n, v, obits);
    }

    /** The octets touched: the meaningful bits of the first one are kept. */
    method Spread(v: nat, obits: nat, off: nat)
      requires Valid() && nboff < 8 && 0 < obits && off == nboff + obits <= 31 && off <= nbits
      requires Shr(v, obits) == 0
      modifies tmpspace
      ensures Valid() && tmpspace[..base] == old(tmpspace[..base])
      ensures var k := (off + 7) / 8;
              && base + k <= tmpspace.Length
              && Holds(tmpspace[base..base + k], old(tmpspace[base]), nboff, Shl(v, 8 * k - nboff - obits))
    {
      hide BitsOf, OctetBits, Shr, Shl, Holds;
      KeptFits(tmpspace[base], nboff, v, obits, (off + 7) / 8);
      if off <= 8 {
        ShrNothing(Shl(v, 8 - off));
        SpreadOne(Shl(v, 8 - off));
      } else if off <= 16 {
        SpreadTwo(Shl(v, 16 - off));
      } else if off <= 24 {
        SpreadThree(Shl(v, 24 - off));
      } else {
        SpreadFour(Shl(v, 32 - off));
      }
    }

    /** A word that stays within the first octet, */
    method SpreadOne(w: nat)
      requires Valid() && nboff < 8 && base + 1 <= SCRATCH && Kept() + Shr(w, 0) < 256
      modifies tmpspace
      ensures Valid() && tmpspace[..base] == old(tmpspace[..base])
      ensures Holds(tmpspace[base..base + 1], old(tmpspace[base]), nboff, w)
    {
      hide BitsOf, OctetBits, Shr, Shl, Holds;
      ghost var o := tmpspace[base];
      ShrNothing(w);
      tmpspace[base] := Kept() + w;
      HoldsOne(tmpspace[base..base + 1], o, nboff, w);
    }

    /** within two octets, */
    method SpreadTwo(w: nat)
      requires Valid() && nboff < 8 && base + 2 <= SCRATCH && Kept() + Shr(w, 8) < 256
      modifies tmpspace
      ensures Valid() && tmpspace[..base] == old(tmpspace[..base])
      ensures Holds(tmpspace[base..base + 2], old(tmpspace[base]), nboff, w)
    {
      hide BitsOf, OctetBits, Shr, Shl, Holds;
      ghost var o := tmpspace[base];
      tmpspace[base] := Kept() + Shr(w, 8);
      tmpspace[base + 1] := w % 256;
      HoldsTwo(tmpspace[base..base + 2], o, nboff, w);
    }

    /** three octets, */
    method SpreadThree(w: nat)
      requires Valid() && nboff < 8 && base + 3 <= SCRATCH && Kept() + Shr(w, 16) < 256
      modifies tmpspace
      ensures Valid() && tmpspace[..base] == old(tmpspace[..base])
      ensures Holds(tmpspace[base..base + 3], old(tmpspace[base]), nboff, w)
    {
      hide BitsOf, OctetBits, Shr, Shl, Holds;
      ghost var o := tmpspace[base];
      tmpspace[base] := Kept() + Shr(w, 16);
      tmpspace[base + 1] := Shr(w, 8) % 256;
      tmpspace[base + 2] := w % 256;
      HoldsThree(tmpspace[base..base + 3], o, nboff, w);
    }

    /** and four octets. */
    method SpreadFour(w: nat)
      requires Valid() && nboff < 8 && base + 4 <= SCRATCH && Kept() + Shr(w, 24) < 256
      modifies tmpspace
      ensures Valid() && tmpspace[..base] == old(tmpspace[..base])
      ensures Holds(tmpspace[base..base + 4], old(tmpspace[base]), nboff, w)
    {
      hide BitsOf, OctetBits, Shr, Shl, Holds;
      ghost var o := tmpspace[base];
      tmpspace[base] := Kept() + Shr(w, 24);
      tmpspace[base + 1] := Shr(w, 16) % 256;
      tmpspace[base + 2] := Shr(w, 8) % 256;
      tmpspace[base + 3] := w % 256;
      HoldsFour(tmpspace[base..base + 4], o, nboff, w);
    }

    /** asn_put_few_bits: 0 to 31 bits; true for a return value of 0. */
    method PutFewBits(bits: nat, obits: int) returns (ok: bool)
      requires Valid()
      modifies this`base, this`nboff, this`nbits, this`flushed, this`out, tmpspace
      ensures Valid()
      ensures !(0 <= obits <= 31) ==> !ok && Written() == old(Written())
      ensures ok ==> 0 <= obits <= 31 && Written() == old(Written()) + BitsOf(bits, obits)
      ensures 0 <= obits <= 31 && !sinkFails ==> ok
      decreases obits
    {
      hide BitsOf, OctetBits;
      if obits <= 0 || obits >= 32 {
        assert obits == 0 ==> BitsOf(bits, 0) == [];
        return obits == 0;
      }
      Normalize();
      if nboff + obits > nbits {
        if sinkFails {
          return false;
        }
        Flush();
      }
      var off := nboff + obits;
      var v := LowBits(bits, obits);
      LowBitsKept(bits, obits);
      if off <= 31 {
        Store(v, obits);
      } else {
        BitsSplit(v, 24, obits - 24);
        ok := PutFewBits(Shr(v, obits - 24), 24);
        if !ok {
          return false;
        }
        ok := PutFewBits(v, obits - 24);
        if !ok {
          return false;
        }
      }
      ok := true;
    }

    /** Clear the unused bits of the last octet. */
    method ClearUnused(unused: nat)
      requires Valid() && unused == Padding(nboff)
      modifies tmpspace
      ensures Valid() && tmpspace[..base] == old(tmpspace[..base])
      ensures OctetBits(tmpspace[base..][..(nboff + 7) / 8]) == OctetBits(old(tmpspace[base..]))[..nboff] + Zeros(unused)
    {
      hide BitsOf, OctetBits, Shr, Shl;
      ghost var was := tmpspace[base..];
      if unused > 0 {
        var last := base + nboff / 8;
        ClearedBits(tmpspace[last], unused);
        ClearedTail(was, nboff, unused);
        tmpspace[last] := Shl(Shr(tmpspace[last], unused), unused);
        assert tmpspace[base..][..(nboff + 7) / 8]
            == was[..nboff / 8] + [Shl(Shr(was[nboff / 8], unused), unused)];
      } else {
        WholeOctets(was, nboff / 8);
      }
    }

    /** asn_put_aligned_flush: everything goes out, filled up with zeros to a whole octet. */
    method AlignedFlush() returns (ok: bool)
      requires Valid()
      modifies this`base, this`nboff, this`nbits, this`flushed, this`out, tmpspace
      ensures Valid() && ok == !sinkFails
      ensures ok ==> OctetBits(out) == old(Written()) + Zeros(Padding(|old(Written())|))
      ensures ok ==> Written() == OctetBits(out)
      ensures !ok ==> Written() == old(Written())
    {
      hide BitsOf, OctetBits;
      var unused := (8 - nboff % 8) % 8;
      var complete := base + (nboff + 7) / 8;
      ghost var head, was := out + tmpspace[..base], tmpspace[base..];
      PaddingIs(|head|, nboff);
      ClearUnused(unused);
      ghost var now := tmpspace[base..];
      if sinkFails {
        FlushedKeeps(was, now, nboff, unused);
        return false;
      }
      ghost var tail := now[..(nboff + 7) / 8];
      OctetBitsConcat(head, tail);
      assert out + tmpspace[..complete] == head + tail;
      out := out + tmpspace[..complete];
      flushed := flushed + complete;
      base, nboff, nbits := 0, 0, 8 * SCRATCH;
      assert out + tmpspace[..0] == out;
      ok := true;
    }

    /** asn_put_many_bits: the first bits of src. */
    method PutManyBits(src: seq<Octet>, count: nat) returns (ok: bool)
      requires Valid() && count <= 8 * |src|
      modifies this`base, this`nboff, this`nbits, this`flushed, this`out, tmpspace
      ensures Valid()
      ensures ok ==> Written() == old(Written()) + OctetBits(src)[..count]
      ensures !sinkFails ==> ok
    {
      hide BitsOf, OctetBits, Shr, Radix256;
      var left, p: nat := count, 0;
      while left > 0
        invariant Valid() && left <= count && count - left == 8 * p
        invariant 8 * p <= count <= 8 * |src|
        invariant Written() == old(Written()) + OctetBits(src)[..8 * p]
      {
        ghost var before := OctetBits(src)[..8 * p];
        if left >= 24 {
          var value := Octets3(src, p);
          RadixBits(src, p, p + 3);
          MoreBits(src, p, 3, 24);
          assert OctetBits(src[p..p + 3])[..24] == OctetBits(src[p..p + 3]);
          ok := PutFewBits(value, 24);
          if !ok {
            return;
          }
          p := p + 3;
          left := left - 24;
        } else {
          var value := LastOctets(src, p, left);
          MoreBits(src, p, (left + 7) / 8, left);
          ok := PutFewBits(value, left);
          return;
        }
      }
      ok := true;
    }
  }

  /** (src[0] << 16) | (src[1] << 8) | src[2]. */
  method Octets3(src: seq<Octet>, p: nat) returns (value: nat)
    requires p + 3 <= |src|
    ensures value == Radix256(src, p, p + 3)
  {
    value := (src[p] as int * 256 + src[p + 1]) * 256 + src[p + 2];
    assert Radix256(src, p, p + 1) == src[p];
  }

  /** The last, incomplete group: right-aligned. */
  method LastOctets(src: seq<Octet>, p: nat, n: nat) returns (value: nat)
    requires 0 < n < 24 && 8 * p + n <= 8 * |src|
    ensures var k := (n + 7) / 8;
            p + k <= |src| && BitsOf(value, n) == OctetBits(src[p..p + k])[..n]
  {
    hide BitsOf, OctetBits, Shr;
    ghost var k := (n + 7) / 8;
    value := src[p];
    assert Radix256(src, p, p + 1) == src[p];
    if n > 8 {
      value := value * 256 + src[p + 1];
    }
    if n > 16 {
      value := value * 256 + src[p + 2];
    }
    assert value == Radix256(src, p, p + k);
    RadixFront(src, p, k, n);
    if n % 8 > 0 {
      value := Shr(value, 8 - n % 8);
    } else {
      ShrNothing(value);
    }
  }

  lemma MoreBits(src: seq<Octet>, p: nat, k: nat, n: nat)
    requires p + k <= |src| && n <= 8 * k
    ensures OctetBits(src)[..8 * p] + OctetBits(src[p..p + k])[..n] == OctetBits(src)[..8 * p + n]
  {
    hide BitsOf, OctetBits;
    var x, y, z := OctetBits(src[..p]), OctetBits(src[p..p + k]), OctetBits(src[p + k..]);
    ThreeParts(src, p, k);
    TakeThrough(x, y, z, 8 * p, n);
  }

  lemma ThreeParts(s: seq<Octet>, p: nat, k: nat)
    requires p + k <= |s|
    ensures OctetBits(s) == OctetBits(s[..p]) + OctetBits(s[p..p + k]) + OctetBits(s[p + k..])
    ensures |OctetBits(s[..p])| == 8 * p && |OctetBits(s[p..p + k])| == 8 * k
  {
    hide BitsOf, OctetBits;
    var a, b, c := s[..p], s[p..p + k], s[p + k..];
    OctetBitsConcat(a, b);
    OctetBitsConcat(a + b, c);
    assert s == a + b + c;
  }

  lemma TakeThrough(a: seq<bool>, b: seq<bool>, c: seq<bool>, m: nat, n: nat)
    requires m == |a| && n <= |b|
    ensures (a + b + c)[..m] == a && (a + b + c)[..m + n] == a + b[..n]
  {
  }

  lemma WholeOctets(s: seq<Octet>, k: nat)
    requires k <= |s|
    ensures OctetBits(s[..k]) == OctetBits(s)[..8 * k] + Zeros(0)
  {
    hide BitsOf, OctetBits;
    assert s == s[..k] + s[k..];
    OctetBitsConcat(s[..k], s[k..]);
  }

  lemma PaddingIs(k: nat, n: nat)
    ensures Padding(8 * k + n) == Padding(n) == (8 - n % 8) % 8
  {
  }

  /** Clearing the unused bits of the last octet makes the octets spell the bits and a zero filling. */
  lemma ClearedTail(was: seq<Octet>, n: nat, unused: nat)
    requires n / 8 < |was| && 0 < unused == 8 - n % 8 && n % 8 > 0
    requires Shl(Shr(was[n / 8], unused), unused) < 256
    requires BitsOf(Shl(Shr(was[n / 8], unused), unused), 8) == BitsOf(was[n / 8], 8)[..8 - unused] + Zeros(unused)
    ensures OctetBits(was[..n / 8] + [Shl(Shr(was[n / 8], unused), unused)]) == OctetBits(was)[..n] + Zeros(unused)
  {
    hide BitsOf, OctetBits, Shr, Shl;
    var q := n / 8;
    var cleared: Octet := Shl(Shr(was[q], unused), unused);
    OctetBitsConcat(was[..q], [cleared]);
    OctetBitsOne(cleared);
    assert was == was[..q] + was[q..];
    OctetBitsConcat(was[..q], was[q..]);
    FirstBits(was[q..], n % 8);
    var x, y := OctetBits(was[..q]), OctetBits(was[q..]);
    assert (x + y)[..n] == x + y[..n % 8];
    var z := BitsOf(was[q], 8)[..n % 8];
    assert x + (z + Zeros(unused)) == x + z + Zeros(unused);
  }

  /** Clearing unused bits takes nothing from what is written. */
  lemma FlushedKeeps(was: seq<Octet>, now: seq<Octet>, n: nat, unused: nat)
    requires n <= 8 * |was| && |now| == |was|
    requires OctetBits(now[..(n + 7) / 8]) == OctetBits(was)[..n] + Zeros(unused)
    ensures OctetBits(now)[..n] == OctetBits(was)[..n]
  {
    hide BitsOf, OctetBits;
    var k := (n + 7) / 8;
    assert now == now[..k] + now[k..];
    OctetBitsConcat(now[..k], now[k..]);
    var b := OctetBits(was)[..n];
    assert (b + Zeros(unused) + OctetBits(now[k..]))[..n] == b;
  }

  /** What is kept of an octet and the front of the word fit the octet together. */
  lemma KeptFits(o: Octet, n: nat, v: nat, obits: nat, k: nat)
    requires n < 8 && k > 0 && n + obits <= 8 * k && Shr(v, obits) == 0
    ensures Shl(Shr(o, 8 - n), 8 - n) + Shr(Shl(v, 8 * k - n - obits), 8 * (k - 1)) < 256
  {
    hide Shr, Shl;
    var p, w := Shr(o, 8 - n), Shl(v, 8 * k - n - obits);
    var x := Shr(w, 8 * (k - 1));
    ShiftedFits(v, obits, 8 * k - n - obits);
    ShrAdd(w, 8 * (k - 1), 8 - n);
    ShlPlus(p, x, 8 - n);
    var y := Shl(p, 8 - n) + x;
    ShrAdd(y, 8 - n, n);
    ShrAdd(o, 8 - n, n);
    Shr8(y);
    Shr8(o);
  }
}
