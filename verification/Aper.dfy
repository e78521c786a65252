/** The aligned PER form of constrained integers: INTEGER.c, per_support.c, X.691 (2002) 10.5.7 and 12.2. */
module Aper {
  import opened Octets
  import opened Words
  import opened Bits
  import opened BitOut
  import opened BitIn
  import opened Integer

  /** asn_per_constraint_t of a value; flags as booleans. */
  datatype Constraint = Constraint(
    semi: bool, constrained: bool, extensible: bool, rangeBits: int, lower: I64, upper: I64)
  {
    /** What the constraint compiler emits, for ranges of at most 63 bits. */
    predicate Valid(unsigned: bool) {
      && (rangeBits < 0 || (constrained && !semi && rangeBits <= 63 && 0 <= upper - lower
          && Shr(upper - lower, rangeBits) == 0))
      && (unsigned ==> lower >= 0)
    }

    predicate Root(value: int) {
      if semi then value >= lower else rangeBits >= 0 ==> lower <= value <= upper
    }
  }

  /** How many octets a number of that many bits takes. */
  function RangeOctets(rangeBits: nat): nat {
    rangeBits / 8 + if rangeBits % 8 > 0 then 1 else 0
  }

  /** The least width, from i up, in which that many different lengths can be told apart. */
  function PrefixWidth(octets: nat, i: nat): nat
    requires octets <= 8 && i <= 3
    decreases 3 - i
  {
    if Shl(1, i) >= octets then i else if i == 3 then 3 else PrefixWidth(octets, i + 1)
  }

  /** The index of the first octet of v, from the j-th down, that is not zero; the last one is always kept. */
  function TopOctet(v: nat, j: nat): nat {
    if j == 0 || Shr(v, 8 * j) != 0 then j else TopOctet(v, j - 1)
  }

  /** A whole number in a range of that many bits, written from bit offset `at` on. */
  function Constrained(v: nat, rangeBits: nat, at: nat): seq<bool>
    requires rangeBits <= 63
  {
    if rangeBits < 8 then
      BitsOf(v, rangeBits)
    else if rangeBits <= 16 then
      Zeros(Padding(at)) + BitsOf(v, if rangeBits == 8 then 8 else 16)
    else
      var i := PrefixWidth(RangeOctets(rangeBits), 1);
      var j := TopOctet(v, 7);
      BitsOf(j, i) + Zeros(Padding(at + i)) + BitsOf(v, 8 * (j + 1))
  }

  datatype Decoding =
    | Decoded(value: int, used: nat)
    | Starved
    | Failed
    | Overflowed   // the sources' signed arithmetic leaves its range here

  /** value + lb, in signed arithmetic. */
  function Rebased(v: nat, lower: I64, used: nat): Decoding {
    if v < TWO_TO_63 && v + lower < TWO_TO_63 then Decoded(v + lower, used) else Overflowed
  }

  /** What decoding makes of any bits read from bit offset `at` on. */
  function Decode(b: seq<bool>, rangeBits: nat, lower: I64, at: nat): Decoding
    requires rangeBits <= 63
  {
    if rangeBits <= 16 then
      var pad := if rangeBits < 8 then 0 else Padding(at);
      var n := if rangeBits <= 8 then rangeBits else 16;
      if pad > |b| then Failed
      else if pad + n > |b| then Starved
      else Rebased(ValueOf(b[pad..][..n]), lower, pad + n)
    else
      var i := PrefixWidth(RangeOctets(rangeBits), 1);
      if i > |b| then Failed
      else Behind(i, Long(b[i..], Padding(at + i), ValueOf(b[..i]) + 1, lower))
  }

  /** Zeros up to the octet boundary, then that many octets. */
  function Long(b: seq<bool>, pad: nat, length: nat, lower: I64): Decoding {
    if pad > |b| || ValueOf(b[..pad]) != 0 then Failed
    else if 8 * length > |b[pad..]| then Failed
    else Rebased(ValueOf(b[pad..][..8 * length]), lower, pad + 8 * length)
  }

  function Behind(n: nat, d: Decoding): Decoding {
    match d
    case Decoded(value, used) => Decoded(value, n + used)
    case _ => d
  }

  lemma {:induction false} PrefixHolds(octets: nat, i: nat)
    requires octets <= 8 && 1 <= i <= 3
    ensures var w := PrefixWidth(octets, i); i <= w <= 3 && octets <= Shl(1, w)
    decreases 3 - i
  {
    if Shl(1, i) < octets && i < 3 {
      PrefixHolds(octets, i + 1);
    }
  }

  lemma {:induction false} ShrMore(v: nat, m: nat, n: nat)
    requires m <= n && Shr(v, m) == 0
    ensures Shr(v, n) == 0
  {
    ShrAdd(v, m, n - m);
    ShrZero(n - m);
  }

  /** A number below 2^bits takes no more octets than the range does, and its octets hold all of it. */
  lemma {:induction false} TopOctetFits(v: nat, bits: nat, j: nat)
    requires Shr(v, bits) == 0 && bits <= 8 * (j + 1)
    ensures Shr(v, 8 * (TopOctet(v, j) + 1)) == 0
    ensures bits > 0 ==> TopOctet(v, j) < RangeOctets(bits)
  {
    ShrMore(v, bits, 8 * (j + 1));
    TopOctetHolds(v, j);
    if bits > 0 {
      TopOctetBelow(v, bits, j);
    }
  }

  lemma {:induction false} TopOctetHolds(v: nat, j: nat)
    requires Shr(v, 8 * (j + 1)) == 0
    ensures Shr(v, 8 * (TopOctet(v, j) + 1)) == 0
  {
    if j > 0 && Shr(v, 8 * j) == 0 {
      TopOctetHolds(v, j - 1);
    }
  }

  lemma {:induction false} TopOctetBelow(v: nat, bits: nat, j: nat)
    requires Shr(v, bits) == 0 && bits > 0
    ensures TopOctet(v, j) < RangeOctets(bits)
  {
    if 8 * j >= bits {
      ShrMore(v, bits, 8 * j);
      if j > 0 {
        TopOctetBelow(v, bits, j - 1);
      }
    } else {
      TopOctetAtMost(v, j);
    }
  }

  lemma {:induction false} TopOctetAtMost(v: nat, j: nat)
    ensures TopOctet(v, j) <= j
  {
    if j > 0 {
      TopOctetAtMost(v, j - 1);
    }
  }

  /** The number of octets less one fits the width of the length prefix. */
  lemma PrefixTakesLength(v: nat, rangeBits: nat)
    requires 16 < rangeBits <= 63 && Shr(v, rangeBits) == 0
    ensures var i := PrefixWidth(RangeOctets(rangeBits), 1);
            1 <= i <= 3 && Shr(TopOctet(v, 7), i) == 0 && Shr(v, 8 * (TopOctet(v, 7) + 1)) == 0
  {
    TopOctetFits(v, rangeBits, 7);
    PrefixHolds(RangeOctets(rangeBits), 1);
    Below(TopOctet(v, 7), PrefixWidth(RangeOctets(rangeBits), 1));
  }

  lemma {:induction false} Below(x: nat, n: nat)
    ensures x < Shl(1, n) ==> Shr(x, n) == 0
  {
    if n > 0 {
      ShlOnce(1, n - 1);
      Below(x / 2, n - 1);
    }
  }

  lemma Above(v: nat, n: nat)
    requires Shr(v, n) == 0 && n <= 63
    ensures v < TWO_TO_63
  {
    ShrMore(v, n, 63);
    BelowShl(v, 63);
    Shl8(1);
    ShlAdd(1, 8, 55);
    Shl8(0x100);
    ShlAdd(0x100, 8, 47);
    Shl8(0x1_0000);
    ShlAdd(0x1_0000, 8, 39);
    Shl8(0x100_0000);
    ShlAdd(0x100_0000, 8, 31);
    Shl8(0x1_0000_0000);
    ShlAdd(0x1_0000_0000, 8, 23);
    Shl8(0x100_0000_0000);
    ShlAdd(0x100_0000_0000, 8, 15);
    Shl8(0x1_0000_0000_0000);
    ShlAdd(0x1_0000_0000_0000, 8, 7);
    Shl8(0x100_0000_0000_0000);
    ShlOnce(0x100_0000_0000_0000, 7);
  }

  lemma {:induction false} BelowShl(x: nat, n: nat)
    requires Shr(x, n) == 0
    ensures x < Shl(1, n)
  {
    if n > 0 {
      ShlOnce(1, n - 1);
      BelowShl(x / 2, n - 1);
    }
  }

  lemma {:induction false} ZerosValue(n: nat)
    ensures ValueOf(Zeros(n)) == 0
  {
    if n > 0 {
      ZerosValue(n - 1);
      assert Zeros(n)[..n - 1] == Zeros(n - 1);
    }
  }

  lemma Parts(a: seq<bool>, b: seq<bool>, c: seq<bool>, rest: seq<bool>)
    ensures var s := a + b + c + rest;
            && s[..|a|] == a && s[|a|..][..|b|] == b && s[|a|..][|b|..][..|c|] == c
            && s[|a|..][|b|..] == c + rest
  {
  }

  /**
   * Every in-root value comes back from what was written for it, from the same bit offset on, and decoding stops
   * at the bit where encoding stopped.
   */
  lemma RoundTrip(value: int, ct: Constraint, unsigned: bool, at: nat, rest: seq<bool>)
    requires ct.Valid(unsigned) && ct.rangeBits >= 0 && ct.lower <= value <= ct.upper
    ensures var b := Constrained(value - ct.lower, ct.rangeBits, at);
            Decode(b + rest, ct.rangeBits, ct.lower, at) == Decoded(value, |b|)
  {
    hide BitsOf, ValueOf, Zeros, Padding, PrefixWidth, TopOctet, Shl;
    var v, n := value - ct.lower, ct.rangeBits;
    InRange(v, ct.upper - ct.lower, n);
    Above(v, n);
    if n <= 16 {
      var pad := if n < 8 then 0 else Padding(at);
      var k := if n <= 8 then n else 16;
      ShrMore(v, n, k);
      ValueOfBits(v, k);
      AfterZeros(pad, BitsOf(v, k), rest);
    } else {
      PrefixTakesLength(v, n);
      var i, j := PrefixWidth(RangeOctets(n), 1), TopOctet(v, 7);
      ValueOfBits(j, i);
      ValueOfBits(v, 8 * (j + 1));
      ZerosValue(Padding(at + i));
      Parts(BitsOf(j, i), Zeros(Padding(at + i)), BitsOf(v, 8 * (j + 1)), rest);
    }
  }

  lemma AfterZeros(pad: nat, c: seq<bool>, rest: seq<bool>)
    ensures (Zeros(pad) + c + rest)[pad..][..|c|] == c
    ensures pad == 0 ==> Zeros(pad) + c == c
  {
  }

  lemma {:induction false} InRange(v: nat, top: nat, n: nat)
    requires v <= top && Shr(top, n) == 0
    ensures Shr(v, n) == 0
  {
    if n > 0 {
      InRange(v / 2, top / 2, n - 1);
    }
  }

  /** aper_put_align: zeros up to the next whole octet. */
  method PutAlign(po: BitOut) returns (ok: bool)
    requires po.Valid()
    modifies po, po.tmpspace
    ensures po.Valid() && (!po.sinkFails ==> ok)
    ensures ok ==> po.Written() == old(po.Written()) + Zeros(Padding(|old(po.Written())|))
  {
    hide BitsOf, OctetBits, po.Written, Padding, Zeros;
    PaddingIs(|po.out| + po.base, po.nboff);
    if po.nboff % 8 != 0 {
      BitsOfZero(8 - po.nboff % 8);
      ok := po.PutFewBits(0, 8 - po.nboff % 8);
    } else {
      ok := true;
    }
  }

  /** aper_get_align: the number the skipped bits spell, 0 if there are none, or -1. */
  method GetAlign(pd: BitIn, ghost at: nat) returns (r: int)
    requires pd.Valid() && SameBit(pd.nboff, at)
    modifies pd
    ensures pd.Valid()
    ensures Padding(at) > |old(pd.Left())| ==> r == -1
    ensures Padding(at) <= |old(pd.Left())| ==>
      && r == ValueOf(old(pd.Left())[..Padding(at)]) && pd.Left() == old(pd.Left())[Padding(at)..]
      && (old(pd.InStep()) ==> pd.InStep() && SameBit(pd.nboff, 0))
  {
    hide BitsOf, OctetBits, ValueOf, Padding, pd.Left, pd.Here, pd.InStep, SameBit;
    ghost var start, b, inStep := pd.nboff, pd.Left(), pd.InStep();
    var unread := pd.nboff % 8;
    if unread != 0 {
      Complement(start, at);
      r := pd.GetFewBits(8 - unread);
      if inStep && Padding(at) <= |b| {
        AlignedNow(start, pd.nboff);
      }
    } else {
      NothingToSkip(start, at, pd.Left());
      r := 0;
    }
  }

  lemma Complement(nboff: nat, at: nat)
    requires SameBit(nboff, at) && nboff % 8 != 0
    ensures Padding(at) == 8 - nboff % 8
  {
  }

  lemma AlignedNow(start: nat, nboff: nat)
    requires SameBit(nboff, start + (8 - start % 8))
    ensures SameBit(nboff, 0)
  {
    assert start + (8 - start % 8) == 8 * (start / 8 + 1);
  }

  lemma NothingToSkip(nboff: nat, at: nat, b: seq<bool>)
    requires SameBit(nboff, at) && nboff % 8 == 0
    ensures Padding(at) == 0 == ValueOf(b[..0]) && b[0..] == b && SameBit(nboff, 0)
  {
  }

  /** Positions that agree before some bits agree behind them. */
  lemma Onwards(nboff: nat, at: nat, n: nat, now: nat)
    requires SameBit(nboff, at) && SameBit(now, nboff + n)
    ensures SameBit(now, at + n)
  {
    assert nboff + n == at + n + 8 * ((nboff - at) / 8);
  }

  /** How many bits the length prefix takes. */
  method CountPrefix(rangeBits: nat) returns (i: nat)
    requires rangeBits <= 63
    ensures i == PrefixWidth(RangeOctets(rangeBits), 1)
  {
    var octets := rangeBits / 8 + if rangeBits % 8 > 0 then 1 else 0;
    i := 1;
    while true
      invariant 1 <= i <= 3 && PrefixWidth(octets, i) == PrefixWidth(octets, 1)
      decreases 3 - i
    {
      var upper := Shl(1, i);
      if upper >= octets {
        break;
      }
      i := i + 1;
    }
  }

  /** The index of the highest octet that is not zero. */
  method FindTop(v: nat) returns (j: nat)
    requires v < TWO_TO_63
    ensures j == TopOctet(v, 7)
  {
    j := 7;
    while j != 0
      invariant j <= 7 && TopOctet(v, j) == TopOctet(v, 7)
    {
      if Shr(v, 8 * j) != 0 {
        break;
      }
      j := j - 1;
    }
  }

  /** The octets of v from the j-th down. */
  method PutOctets(po: BitOut, v: nat, j: nat) returns (ok: bool)
    requires po.Valid()
    modifies po, po.tmpspace
    ensures po.Valid() && (!po.sinkFails ==> ok)
    ensures ok ==> po.Written() == old(po.Written()) + BitsOf(v, 8 * (j + 1))
  {
    hide BitsOf, OctetBits, Shr, po.Written;
    ghost var start := po.Written();
    var i := 0;
    while i <= j
      invariant 0 <= i <= j + 1 && po.Valid()
      invariant po.Written() == start + BitsOf(Shr(v, 8 * (j + 1 - i)), 8 * i)
    {
      ghost var w := Shr(v, 8 * (j - i));
      ok := po.PutFewBits(Shr(v, 8 * (j - i)) % 256, 8);
      if !ok {
        return;
      }
      OctetOfLow(w);
      BitsSplit(w, 8 * i, 8);
      ShrAdd(v, 8 * (j - i), 8);
      Assoc(start, BitsOf(Shr(w, 8), 8 * i), BitsOf(w, 8));
      i := i + 1;
    }
    ShrNothing(v);
    ok := true;
  }

  /** Sections 10.5.6 and 10.5.7: a whole number in a range. */
  method PutConstrained(po: BitOut, v: nat, rangeBits: nat) returns (ok: bool)
    requires po.Valid() && rangeBits <= 63 && Shr(v, rangeBits) == 0
    modifies po, po.tmpspace
    ensures po.Valid() && (!po.sinkFails ==> ok)
    ensures ok ==> po.Written() == old(po.Written()) + Constrained(v, rangeBits, |old(po.Written())|)
  {
    hide BitsOf, OctetBits, Shr, Zeros, Padding, TopOctet, PrefixWidth;
    ghost var start := po.Written();
    if rangeBits < 8 {
      ok := po.PutFewBits(v, rangeBits);
    } else if rangeBits <= 16 {
      ok := PutAlign(po);
      if !ok {
        return;
      }
      ok := po.PutFewBits(v, if rangeBits == 8 then 8 else 16);
      Assoc(start, Zeros(Padding(|start|)), BitsOf(v, if rangeBits == 8 then 8 else 16));
    } else {
      Above(v, rangeBits);
      var i := CountPrefix(rangeBits);
      var j := FindTop(v);
      PrefixTakesLength(v, rangeBits);
      ok := po.PutFewBits(j, i);
      if !ok {
        return;
      }
      ok := PutAlign(po);
      if !ok {
        return;
      }
      ok := PutOctets(po, v, j);
      Assoc4(start, BitsOf(j, i), Zeros(Padding(|start| + i)), BitsOf(v, 8 * (j + 1)));
    }
  }

  lemma Assoc4(a: seq<bool>, b: seq<bool>, c: seq<bool>, d: seq<bool>)
    ensures a + b + c + d == a + (b + c + d)
  {
  }

  /** The octets of a whole number, most significant first. */
  method GetNumber(pd: BitIn, length: nat) returns (ok: bool, value: nat)
    requires pd.Valid() && pd.InStep()
    modifies pd
    ensures pd.Valid() && ok == (8 * length <= |old(pd.Left())|)
    ensures ok ==> value == ValueOf(old(pd.Left())[..8 * length]) && pd.Left() == old(pd.Left())[8 * length..]
  {
    hide BitsOf, OctetBits, ValueOf, Shl, pd.Left, pd.InStep, SameBit;
    ghost var b := pd.Left();
    var left := length;
    value := 0;
    NothingRead(b, 8 * length);
    while left > 0
      invariant 0 <= left <= length && pd.Valid() && pd.InStep()
      invariant 8 * (length - left) <= |b| && pd.Left() == b[8 * (length - left)..]
      invariant value == Shl(ValueOf(b[..8 * (length - left)]), 8 * left)
    {
      ghost var done := 8 * (length - left);
      left := left - 1;
      var buf := pd.GetFewBits(8);
      if buf < 0 {
        return false, 0;
      }
      NextOctet(b, done, buf, left);
      value := value + Shl(buf, 8 * left);
    }
    ShlNothing(ValueOf(b[..8 * length]));
    ok := true;
  }

  lemma NothingRead(b: seq<bool>, n: nat)
    ensures Shl(ValueOf(b[..0]), n) == 0 && b[0..] == b
  {
    BelowZero(n);
  }

  lemma {:induction false} BelowZero(n: nat)
    ensures Shl(0, n) == 0
  {
    if n > 0 {
      BelowZero(n - 1);
    }
  }

  lemma {:induction false} ShlSum(a: nat, b: nat, n: nat)
    ensures Shl(a + b, n) == Shl(a, n) + Shl(b, n)
  {
    if n > 0 {
      ShlOnce(a + b, n - 1);
      ShlOnce(a, n - 1);
      ShlOnce(b, n - 1);
      ShlSum(a, b, n - 1);
    }
  }

  lemma NextOctet(b: seq<bool>, done: nat, buf: nat, left: nat)
    requires done + 8 <= |b| && buf == ValueOf(b[done..][..8])
    ensures Shl(ValueOf(b[..done]), 8 * (left + 1)) + Shl(buf, 8 * left) == Shl(ValueOf(b[..done + 8]), 8 * left)
    ensures b[done..][8..] == b[done + 8..]
  {
    hide ValueOf, Shl;
    assert b[..done + 8] == b[..done] + b[done..][..8];
    ValueConcat(b[..done], b[done..][..8]);
    ShlAdd(ValueOf(b[..done]), 8, 8 * left);
    ShlSum(Shl(ValueOf(b[..done]), 8), buf, 8 * left);
  }

  /** value += ct->lower_bound, and the store into the INTEGER. */
  method Rebase(st: INTEGER, v: nat, lower: I64, unsigned: bool, wide: bool) returns (ok: bool)
    requires unsigned ==> lower >= 0
    modifies st
    ensures ok == (v < TWO_TO_63 && v + lower < TWO_TO_63)
    ensures ok ==> st.buf == Minimal(v + lower)
    ensures !ok ==> st.buf == old(st.buf)
  {
    hide Minimal;
    if v >= TWO_TO_63 || v + lower >= TWO_TO_63 {
      return false;
    }
    if unsigned && wide {
      st.FromUmax(v + lower);
    } else if unsigned {
      st.FromUlong(v + lower);
    } else {
      st.FromImax(v + lower);
    }
    ok := true;
  }

  /** asn_dec_rval_t codes, and the signed overflow on the way to one. */
  datatype Code = CodeOk | CodeWantMore | CodeFail | CodeOverflow

  /** A decoder call returned and left behind what Decode says of the bits it had. */
  ghost predicate Reports(o: Code, d: Decoding, b: seq<bool>, rest: seq<bool>, buf: seq<Octet>) {
    match d
    case Decoded(value, used) => o == CodeOk && used <= |b| && rest == b[used..] && buf == Minimal(value)
    case Starved => o == CodeWantMore
    case Failed => o == CodeFail
    case Overflowed => o == CodeOverflow
  }

  /** The constrained branch of INTEGER_decode_aper, behind the extension bit. */
  method GetConstrained(pd: BitIn, st: INTEGER, rangeBits: nat, lower: I64, unsigned: bool, ghost at: nat)
      returns (o: Code)
    requires pd.Valid() && pd.InStep() && SameBit(pd.nboff, at)
    requires rangeBits <= 63 && (unsigned ==> lower >= 0)
    modifies pd, st
    ensures pd.Valid()
    ensures Reports(o, Decode(old(pd.Left()), rangeBits, lower, at), old(pd.Left()), pd.Left(), st.buf)
  {
    if rangeBits > 16 {
      o := GetLong(pd, st, rangeBits, lower, unsigned, at);
    } else {
      o := GetShort(pd, st, rangeBits, lower, unsigned, at);
    }
  }

  /** Ranges of at most 16 bits. */
  method GetShort(pd: BitIn, st: INTEGER, rangeBits: nat, lower: I64, unsigned: bool, ghost at: nat)
      returns (o: Code)
    requires pd.Valid() && pd.InStep() && SameBit(pd.nboff, at)
    requires rangeBits <= 16 && (unsigned ==> lower >= 0)
    modifies pd, st
    ensures pd.Valid()
    ensures Reports(o, Decode(old(pd.Left()), rangeBits, lower, at), old(pd.Left()), pd.Left(), st.buf)
  {
    hide BitsOf, OctetBits, ValueOf, Minimal, pd.Left, pd.InStep, SameBit, Padding;
    ghost var b := pd.Left();
    ghost var pad := if rangeBits < 8 then 0 else Padding(at);
    if rangeBits >= 8 {
      var skipped := GetAlign(pd, at);
      if skipped < 0 {
        return CodeFail;
      }
    }
    assert rangeBits < 8 ==> b[0..] == b;
    var n := if rangeBits <= 8 then rangeBits else 16;
    var value := pd.GetFewBits(n);
    if value < 0 {
      return CodeWantMore;
    }
    var ok := Rebase(st, value, lower, unsigned, false);
    o := if ok then CodeOk else CodeOverflow;
  }

  /** Ranges of more than 16 bits: a length, then as many octets. */
  method GetLong(pd: BitIn, st: INTEGER, rangeBits: nat, lower: I64, unsigned: bool, ghost at: nat)
      returns (o: Code)
    requires pd.Valid() && pd.InStep() && SameBit(pd.nboff, at)
    requires 16 < rangeBits <= 63 && (unsigned ==> lower >= 0)
    modifies pd, st
    ensures pd.Valid()
    ensures Reports(o, Decode(old(pd.Left()), rangeBits, lower, at), old(pd.Left()), pd.Left(), st.buf)
  {
    hide BitsOf, OctetBits, ValueOf, Minimal, Padding, PrefixWidth, RangeOctets, Long, Decode;
    hide pd.Left, pd.Here, pd.InStep, SameBit;
    ghost var b := pd.Left();
    var i := CountPrefix(rangeBits);
    DecodeLong(b, rangeBits, lower, at, i);
    ghost var start := pd.nboff;
    var length := pd.GetFewBits(i);
    if length < 0 {
      return CodeFail;
    }
    Onwards(start, at, i, pd.nboff);
    ghost var d := Long(b[i..], Padding(at + i), ValueOf(b[..i]) + 1, lower);
    o := GetLongBody(pd, st, length + 1, lower, unsigned, at + i);
  }

  lemma DecodeLong(b: seq<bool>, rangeBits: nat, lower: I64, at: nat, i: nat)
    requires 16 < rangeBits <= 63 && i == PrefixWidth(RangeOctets(rangeBits), 1)
    ensures 1 <= i <= 3
    ensures Decode(b, rangeBits, lower, at)
         == if i > |b| then Failed else Behind(i, Long(b[i..], Padding(at + i), ValueOf(b[..i]) + 1, lower))
  {
    hide ValueOf, Padding, PrefixWidth, Long;
    PrefixHolds(RangeOctets(rangeBits), 1);
  }

  method GetLongBody(pd: BitIn, st: INTEGER, length: nat, lower: I64, unsigned: bool, ghost at: nat)
      returns (o: Code)
    requires pd.Valid() && pd.InStep() && SameBit(pd.nboff, at) && (unsigned ==> lower >= 0)
    modifies pd, st
    ensures pd.Valid()
    ensures Reports(o, Long(old(pd.Left()), Padding(at), length, lower), old(pd.Left()), pd.Left(), st.buf)
  {
    hide BitsOf, OctetBits, ValueOf, Minimal, pd.Left, pd.InStep, SameBit, Padding;
    ghost var b := pd.Left();
    var skipped := GetAlign(pd, at);
    if skipped != 0 {
      return CodeFail;
    }
    var ok, value := GetNumber(pd, length);
    if !ok {
      return CodeFail;
    }
    ok := Rebase(st, value, lower, unsigned, true);
    o := if ok then CodeOk else CodeOverflow;
  }

  datatype Encoding =
    | Encoded
    | EncodeFailed
    | GeneralForm   // sections 12.2.3 and 12.2.4 follow, which are not part of this model

  /** The number the encoder takes from contents octets: unsigned if the type is. */
  function Taken(buf: seq<Octet>, unsigned: bool): int {
    if unsigned then Unsigned(buf) else Value(buf)
  }

  /** Which way the encoder goes. */
  function EncodeWay(buf: seq<Octet>, ct: Constraint, unsigned: bool): Encoding {
    var x := Taken(buf, unsigned);
    if buf == [] || !(if unsigned then x < TWO_TO_64 else -TWO_TO_63 <= x < TWO_TO_63) then EncodeFailed
    else if !ct.Root(x) then if ct.extensible then GeneralForm else EncodeFailed
    else if ct.rangeBits >= 0 then Encoded
    else if ct.lower != 0 then EncodeFailed
    else GeneralForm
  }

  function ExtensionBit(ct: Constraint, outside: bool): seq<bool> {
    if ct.extensible then [outside] else []
  }

  method PutExtension(po: BitOut, ct: Constraint, outside: bool) returns (ok: bool)
    requires po.Valid()
    modifies po, po.tmpspace
    ensures po.Valid() && (!po.sinkFails ==> ok)
    ensures ok ==> po.Written() == old(po.Written()) + ExtensionBit(ct, outside)
  {
    hide BitsOf, OctetBits, po.Written;
    ghost var start := po.Written();
    if ct.extensible {
      OneBit(outside);
      ok := po.PutFewBits(if outside then 1 else 0, 1);
    } else {
      assert start + [] == start;
      ok := true;
    }
  }

  /** INTEGER_encode_aper, up to the general form; without a constraint that form is all there is. */
  method Encode(st: INTEGER, given: Option<Constraint>, unsigned: bool, po: BitOut) returns (o: Encoding)
    requires po.Valid() && (given.Some? ==> given.value.Valid(unsigned))
    modifies po, po.tmpspace
    ensures po.Valid()
    ensures given.None? ==>
      o == (if st.buf == [] then EncodeFailed else GeneralForm) && po.Written() == old(po.Written())
    ensures given.Some? ==>
      && (!po.sinkFails || o != EncodeFailed ==> o == EncodeWay(st.buf, given.value, unsigned))
      && Put(o, old(po.Written()), po.Written(), given.value, Taken(st.buf, unsigned))
  {
    match given
    case None => return if st.buf == [] then EncodeFailed else GeneralForm;
    case Some(ct) => o := EncodeUnder(st, ct, unsigned, po);
  }

  /** What an encoder call adds to the bits before: the whole form, or the extension bit of the general one. */
  ghost predicate Put(o: Encoding, before: seq<bool>, after: seq<bool>, ct: Constraint, x: int) {
    match o
    case Encoded =>
      && ct.lower <= x <= ct.upper && 0 <= ct.rangeBits <= 63
      && after == before + ExtensionBit(ct, false)
                  + Constrained(x - ct.lower, ct.rangeBits, |before| + |ExtensionBit(ct, false)|)
    case EncodeFailed => true
    case GeneralForm => after == before + ExtensionBit(ct, !ct.Root(x))
  }

  /** INTEGER_encode_aper under a constraint, up to the general form. */
  method EncodeUnder(st: INTEGER, ct: Constraint, unsigned: bool, po: BitOut) returns (o: Encoding)
    requires po.Valid() && ct.Valid(unsigned)
    modifies po, po.tmpspace
    ensures po.Valid()
    ensures !po.sinkFails || o != EncodeFailed ==> o == EncodeWay(st.buf, ct, unsigned)
    ensures Put(o, old(po.Written()), po.Written(), ct, Taken(st.buf, unsigned))
  {
    hide BitsOf, OctetBits, Constrained, Minimal, Value, Unsigned, po.Written;
    if st.buf == [] {
      return EncodeFailed;
    }
    var ok, value: int;
    if unsigned {
      ok, value := st.ToUmax();
    } else {
      ok, value := st.ToImax();
    }
    if !ok {
      return EncodeFailed;
    }
    var inext := if ct.semi then value < ct.lower else ct.rangeBits >= 0 && (value < ct.lower || value > ct.upper);
    if inext && !ct.extensible {
      return EncodeFailed;
    }
    ok := PutExtension(po, ct, inext);
    if !ok {
      return EncodeFailed;
    }
    if inext {
      return GeneralForm;
    }
    if ct.rangeBits >= 0 {
      InRange(value - ct.lower, ct.upper - ct.lower, ct.rangeBits);
      ok := PutConstrained(po, value - ct.lower, ct.rangeBits);
      return if ok then Encoded else EncodeFailed;
    }
    return if ct.lower != 0 then EncodeFailed else GeneralForm;
  }

  /** The extension bit: 0 also if the type has none, -1 if it is missing. */
  method GetExtension(pd: BitIn, ct: Constraint, ghost at: nat) returns (inext: int)
    requires pd.Valid() && pd.InStep() && SameBit(pd.nboff, at)
    modifies pd
    ensures pd.Valid()
    ensures inext == if !ct.extensible then 0 else if old(pd.Left()) == [] then -1 else if old(pd.Left())[0] then 1 else 0
    ensures var skip := |ExtensionBit(ct, false)|;
            inext >= 0 ==>
              && skip <= |old(pd.Left())| && pd.Left() == old(pd.Left())[skip..]
              && pd.InStep() && SameBit(pd.nboff, at + skip)
  {
    hide BitsOf, OctetBits, pd.Left, pd.InStep, SameBit, ValueOf;
    ghost var b := pd.Left();
    if ct.extensible {
      ghost var start := pd.nboff;
      inext := pd.GetFewBits(1);
      if b != [] {
        FirstBit(b);
        Onwards(start, at, 1, pd.nboff);
      }
    } else {
      assert b[0..] == b;
      inext := 0;
    }
  }

  /** What the decoder makes of the bits b, rest being those it leaves. */
  ghost predicate Told(b: seq<bool>, rest: seq<bool>, ct: Constraint, at: nat, general: bool, o: Code, buf: seq<Octet>)
    requires ct.rangeBits <= 63
  {
    if ct.extensible && b == [] then
      !general && o == CodeWantMore
    else if (ct.extensible && b[0]) || !(ct.semi || ct.constrained || ct.extensible) then
      general
    else if ct.rangeBits < 0 then
      !general && o == CodeFail
    else
      var skip := |ExtensionBit(ct, false)|;
      !general && Reports(o, Decode(b[skip..], ct.rangeBits, ct.lower, at + skip), b[skip..], rest, buf)
  }

  /** INTEGER_decode_aper, up to the general form; without a constraint that form is all there is. */
  method DecodeInto(st: INTEGER, given: Option<Constraint>, unsigned: bool, pd: BitIn, ghost at: nat)
      returns (general: bool, o: Code)
    requires pd.Valid() && pd.InStep() && SameBit(pd.nboff, at) && (given.Some? ==> given.value.Valid(unsigned))
    modifies pd, st
    ensures pd.Valid()
    ensures given.None? ==> general && st.buf == [] && pd.Left() == old(pd.Left())
    ensures given.Some? ==> Told(old(pd.Left()), pd.Left(), given.value, at, general, o, st.buf)
  {
    match given
    case None =>
      st.buf := [];
      return true, CodeOk;
    case Some(ct) =>
      general, o := DecodeUnder(st, ct, unsigned, pd, at);
  }

  /** INTEGER_decode_aper under a constraint, up to the general form. */
  method DecodeUnder(st: INTEGER, ct: Constraint, unsigned: bool, pd: BitIn, ghost at: nat)
      returns (general: bool, o: Code)
    requires pd.Valid() && pd.InStep() && SameBit(pd.nboff, at) && ct.Valid(unsigned)
    modifies pd, st
    ensures pd.Valid()
    ensures Told(old(pd.Left()), pd.Left(), ct, at, general, o, st.buf)
  {
    hide BitsOf, OctetBits, Decode, Minimal, pd.Left, pd.InStep, SameBit, Reports, ValueOf;
    var inext := GetExtension(pd, ct, at);
    if inext < 0 {
      return false, CodeWantMore;
    }
    if inext != 0 {
      return true, CodeOk;
    }
    st.buf := [];
    if !(ct.semi || ct.constrained || ct.extensible) {
      return true, CodeOk;
    }
    if ct.rangeBits < 0 {
      return false, CodeFail;
    }
    general := false;
    o := GetConstrained(pd, st, ct.rangeBits, ct.lower, unsigned, at + |ExtensionBit(ct, false)|);
  }

  lemma FirstBit(b: seq<bool>)
    requires |b| > 0
    ensures ValueOf(b[..1]) == if b[0] then 1 else 0
  {
    assert b[..1] == [b[0]] && b[..1][..0] == [];
  }

  /**
   * Whatever was written before, an in-root INTEGER that is encoded, flushed and decoded from the same bit offset
   * is stored in its canonical form.
   */
  method Transfer(st: INTEGER, ct: Constraint, unsigned: bool, po: BitOut, into: INTEGER) returns (o: Code)
    requires po.Valid() && !po.sinkFails && ct.Valid(unsigned) && into != st
    requires EncodeWay(st.buf, ct, unsigned) == Encoded
    modifies po, po.tmpspace, into
    ensures o == CodeOk && into.buf == Minimal(Taken(st.buf, unsigned))
  {
    hide BitsOf, OctetBits, Constrained, Decode, Minimal, Value, Unsigned, po.Written, Zeros, Padding;
    var at := 8 * (|po.out| + po.base) + po.nboff;
    ghost var lead := po.Written();
    ghost var x := Taken(st.buf, unsigned);
    var done := EncodeUnder(st, ct, unsigned, po);
    ghost var ext := ExtensionBit(ct, false);
    ghost var body := Constrained(x - ct.lower, ct.rangeBits, at + |ext|);
    ghost var tail := Zeros(Padding(|po.Written()|));
    var ok := po.AlignedFlush();
    Sliced(lead, ext, body, tail);
    var pd := new BitIn(Segment(po.out, at, 8 * |po.out|), false, []);
    OneStretch(pd, at);
    RoundTrip(x, ct, unsigned, at + |ext|, tail);
    var general;
    general, o := DecodeUnder(into, ct, unsigned, pd, at);
  }

  /** A reader over a single stretch. */
  lemma OneStretch(pd: BitIn, at: nat)
    requires pd.Valid() && pd.segments == [] && pd.nboff == at
    ensures pd.Left() == pd.Here() && pd.InStep() && SameBit(pd.nboff, at)
  {
    hide OctetBits, BitsOf;
    assert pd.Here() + [] == pd.Here();
  }

  lemma Sliced(lead: seq<bool>, ext: seq<bool>, body: seq<bool>, tail: seq<bool>)
    ensures var s := lead + ext + body + tail;
            && s[|lead|..|s|] == ext + (body + tail) && (ext + (body + tail))[|ext|..] == body + tail
  {
  }

  /** The length prefix is no wider than it has to be for the octets of the range: X.691 10.5.7 and 12.2.6. */
  lemma PrefixLeast(rangeBits: nat)
    requires 16 < rangeBits <= 63
    ensures var w, octets := PrefixWidth(RangeOctets(rangeBits), 1), (rangeBits + 7) / 8;
            && 1 <= w && octets <= Shl(1, w) && (forall less :: 1 <= less < w ==> Shl(1, less) < octets)
            && w == if rangeBits <= 32 then 2 else 3
  {
    assert Shl(1, 1) == 2 && Shl(1, 2) == 4 && Shl(1, 3) == 8;
    PrefixHolds(RangeOctets(rangeBits), 1);
  }

  /** So is the number: its first octet is zero only if it is the only one. */
  lemma {:induction false} TopOctetLeast(v: nat, j: nat)
    ensures var top := TopOctet(v, j); top <= j && (top > 0 ==> Shr(v, 8 * top) > 0)
  {
    if j > 0 && Shr(v, 8 * j) == 0 {
      TopOctetLeast(v, j - 1);
    }
  }

  lemma PaddingAligns(n: nat)
    ensures Padding(n) < 8 && (n + Padding(n)) % 8 == 0
  {
  }

  /** A value of RAN-UE-NGAP-ID, 0 .. 4294967295: two bits for the length, zeros up to the next octet, four octets. */
  lemma RanUeNgapIdExample()
    ensures Constrained(0x12345678, 32, 0) == OctetBits([0xC0, 0x12, 0x34, 0x56, 0x78])
    ensures Decode(OctetBits([0xC0, 0x12, 0x34, 0x56, 0x78]), 32, 0, 0) == Decoded(0x12345678, 40)
  {
    hide BitsOf, OctetBits, PrefixWidth, Shr;
    var octets: seq<Octet> := [0x12, 0x34, 0x56, 0x78];
    PrefixLeast(32);
    FourOctets(octets);
    ThreeBitsShort();
    OctetBitsConcat([0xC0], octets);
    assert [0xC0] + octets == [0xC0, 0x12, 0x34, 0x56, 0x78];
    var ct := Constraint(false, true, false, 32, 0, 0xFFFF_FFFF);
    assert ct.Valid(true) by {
      AllOnes();
    }
    RoundTrip(0x12345678, ct, true, 0, []);
    assert Constrained(0x12345678, 32, 0) + [] == Constrained(0x12345678, 32, 0);
  }

  lemma AllOnes()
    ensures Shr(0xFFFF_FFFF, 32) == 0
  {
    Shr8(0xFFFF_FFFF);
    ShrAdd(0xFFFF_FFFF, 8, 24);
    Shr8(0xFF_FFFF);
    ShrAdd(0xFF_FFFF, 8, 16);
    Shr8(0xFFFF);
    ShrAdd(0xFFFF, 8, 8);
    Shr8(0xFF);
  }

  lemma FourOctets(octets: seq<Octet>)
    requires octets == [0x12, 0x34, 0x56, 0x78]
    ensures BitsOf(0x12345678, 32) == OctetBits(octets) && TopOctet(0x12345678, 7) == 3
  {
    hide BitsOf, OctetBits, TopOctet;
    assert Radix256(octets, 0, 0) == 0;
    assert Radix256(octets, 0, 2) == 0x1234;
    assert Radix256(octets, 0, 4) == 0x12345678;
    RadixBits(octets, 0, 4);
    assert octets[0..4] == octets;
    TopIsThree();
  }

  lemma TopIsThree()
    ensures TopOctet(0x12345678, 7) == 3
  {
    hide Shr;
    Shr8(0x12345678);
    Shr8(0x123456);
    Shr8(0x1234);
    ShrAdd(0x12345678, 8, 8);
    ShrAdd(0x12345678, 16, 8);
    Shr8(0x12);
    ShrAdd(0x12345678, 24, 8);
    ShrMore(0x12345678, 32, 40);
    ShrMore(0x12345678, 32, 48);
    ShrMore(0x12345678, 32, 56);
    assert TopOctet(0x12345678, 5) == TopOctet(0x12345678, 3);
  }

  lemma ThreeBitsShort()
    ensures OctetBits([0xC0]) == BitsOf(3, 2) + Zeros(Padding(2))
  {
    OctetBitsOne(0xC0);
    hide OctetBits;
    assert Shl(3, 6) == 0xC0;
    BitsShifted(3, 2, 6);
  }

  /** Encoded are exactly the values within the bounds of a constraint with a range, whatever else it says. */
  lemma WaysExact(buf: seq<Octet>, ct: Constraint, unsigned: bool)
    requires ct.Valid(unsigned)
    ensures var x, way := Taken(buf, unsigned), EncodeWay(buf, ct, unsigned);
            var fits := if unsigned then x < 0x1_0000_0000_0000_0000
                        else -0x8000_0000_0000_0000 <= x < 0x8000_0000_0000_0000;
            var outside := if ct.rangeBits >= 0 then x < ct.lower || x > ct.upper else ct.semi && x < ct.lower;
            && (way == Encoded <==> buf != [] && ct.rangeBits >= 0 && ct.lower <= x <= ct.upper)
            && (way == GeneralForm <==>
                  buf != [] && fits && if outside then ct.extensible else ct.rangeBits < 0 && ct.lower == 0)
    ensures Taken(buf, unsigned) == if unsigned then Radix256(buf, 0, |buf|) else Value(buf)
  {
  }

  /** What few bits decode to: a number and its base, too little for the number, too little to align. */
  lemma ShortExamples()
    ensures Decode([true, false, true], 3, 10, 5) == Decoded(15, 3)
    ensures Decode([true, false], 3, 10, 5) == Starved
    ensures Decode([true, false], 8, 0, 5) == Failed && Decode([true, false], 8, 0, 6) == Starved
    ensures Decode([true], 17, 0, 0) == Failed
    ensures Constrained(5, 3, 6) == [true, false, true]
  {
    assert ValueOf([true, false, true][0..][..3]) == 5 by {
      assert [true, false, true][0..][..3] == [true, false, true];
      assert ValueOf([true]) == 1 && ValueOf([true, false]) == 2;
      assert [true, false, true][..2] == [true, false] && [true, false][..1] == [true];
    }
    assert Padding(5) == 3 && Padding(6) == 2;
    assert BitsOf(1, 1) == [true] && BitsOf(2, 2) == [true, false];
    PrefixLeast(17);
  }

  /** A number that the base brings to 2^63 overflows: it must not be taken for a negative one. */
  lemma RebasedExample()
    ensures Rebased(0x7FFF_FFFF_FFFF_FFFE, 1, 66) == Decoded(0x7FFF_FFFF_FFFF_FFFF, 66)
    ensures Rebased(0x7FFF_FFFF_FFFF_FFFF, 1, 66) == Overflowed && Rebased(0x8000_0000_0000_0000, -1, 66) == Overflowed
    ensures Rebased(3, -5, 3) == Decoded(-2, 3)
  {
  }
}
