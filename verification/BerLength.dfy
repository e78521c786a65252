/** Length octets: ber_tlv_length.c, X.690 section 8.1.3. */
module BerLength {
  import opened Octets
  import opened Words
  import opened BerTag

  /** RSSIZE_MAX of asn_system.h, with a 64-bit size_t. */
  const RSSIZE_MAX := 0x3FFF_FFFF_FFFF_FFFF

  /** The indefinite form, as a length. */
  const INDEFINITE: int := -1

  function Min(a: int, b: int): int {
    if a < b then a else b
  }

  function Max(a: int, b: int): int {
    if a < b then b else a
  }

  /** What ber_fetch_length reports; -1 stands for the indefinite form. */
  function FetchedLength(constructed: bool, s: seq<Octet>): Fetch<int> {
    if |s| == 0 then
      More
    else if s[0] < 0x80 then
      Got(s[0], 1)
    else if constructed && s[0] == 0x80 then
      Got(INDEFINITE, 1)
    else if s[0] == 0xFF then
      Bad
    else
      var n := s[0] - 0x80;
      var present := Min(n, |s| - 1);
      if present > 0 && Radix256(s, 1, present) >= 0x80_0000_0000_0000 then Bad
      else if present < n then More
      else if Radix256(s, 1, n + 1) > RSSIZE_MAX then Bad
      else Got(Radix256(s, 1, n + 1), n + 1)
  }

  method FetchLength(constructed: bool, s: seq<Octet>) returns (r: Fetch<int>)
    ensures r == FetchedLength(constructed, s)
  {
    if |s| == 0 {
      return More;
    }
    var oct: int := s[0];
    if oct < 0x80 {
      return Got(oct, 1);
    }
    if constructed && oct == 0x80 {
      return Got(INDEFINITE, 1);
    }
    if oct == 0xFF {
      return Bad;
    }
    oct := oct - 0x80;
    var len: I64 := 0;
    var skipped := 1;
    while oct > 0 && skipped < |s|
      invariant 0 <= oct <= s[0] - 0x80
      invariant skipped == s[0] - 0x80 - oct + 1 <= |s|
      invariant len == Radix256(s, 1, skipped)
      invariant skipped > 1 ==> Radix256(s, 1, skipped - 1) < 0x80_0000_0000_0000
      decreases oct
    {
      skipped := skipped + 1;
      if len < 0x80_0000_0000_0000 {
        len := len * 256 + s[skipped - 1];
      } else {
        RadixMonotone(s, 1, skipped - 1, Min(s[0] - 0x80, |s| - 1));
        return Bad;
      }
      oct := oct - 1;
    }
    if oct == 0 {
      if len > RSSIZE_MAX {
        return Bad;
      }
      return Got(len, skipped);
    }
    return More;
  }

  /** Length octets that ber_fetch_length accepts. */
  predicate IsLength(constructed: bool, l: seq<Octet>) {
    && |l| > 0
    && if l[0] < 0x80 || (constructed && l[0] == 0x80) then |l| == 1
       else l[0] != 0xFF && |l| == l[0] - 0x80 + 1 && Radix256(l, 1, |l|) <= RSSIZE_MAX
  }

  function LengthOf(constructed: bool, l: seq<Octet>): (v: int)
    requires IsLength(constructed, l)
    ensures -1 <= v <= RSSIZE_MAX
    ensures v == -1 <==> constructed && l[0] == 0x80
  {
    if l[0] < 0x80 then l[0]
    else if constructed && l[0] == 0x80 then -1
    else Radix256(l, 1, |l|)
  }

  /** Accepted length octets are read back exactly, whatever follows them: the guard is loose enough. */
  lemma FetchReadsLength(constructed: bool, l: seq<Octet>, rest: seq<Octet>)
    requires IsLength(constructed, l)
    ensures FetchedLength(constructed, l + rest) == Got(LengthOf(constructed, l), |l|)
  {
    var s := l + rest;
    if |l| > 1 {
      RadixMoved(l, 1, |l|, s, 1);
      assert Radix256(s, 1, |l|) == Radix256(s, 1, |l| - 1) * 256 + s[|l| - 1];
    }
  }

  /** Conversely, whatever ber_fetch_length accepts is length octets: the guard is tight enough. */
  lemma FetchedIsLength(constructed: bool, s: seq<Octet>)
    requires FetchedLength(constructed, s).Got?
    ensures var r := FetchedLength(constructed, s);
            r.used <= |s| && IsLength(constructed, s[..r.used]) && LengthOf(constructed, s[..r.used]) == r.value
  {
    var n := FetchedLength(constructed, s).used;
    RadixMoved(s, 1, n, s[..n], 1);
  }

  /** A length fetched, or refused, stays so when octets arrive behind it. */
  lemma FetchLengthStable(constructed: bool, s: seq<Octet>, t: seq<Octet>)
    requires !FetchedLength(constructed, s).More?
    ensures FetchedLength(constructed, s + t) == FetchedLength(constructed, s)
  {
    var r := FetchedLength(constructed, s);
    if r.Got? {
      FetchedIsLength(constructed, s);
      FetchReadsLength(constructed, s[..r.used], s[r.used..] + t);
      assert s + t == s[..r.used] + (s[r.used..] + t);
    } else if s[0] != 0xFF {
      RefusalStable(s, t, Min(s[0] - 0x80, |s| - 1), Min(s[0] - 0x80, |s + t| - 1));
    }
  }

  lemma RefusalStable(s: seq<Octet>, t: seq<Octet>, present: nat, now: nat)
    requires present <= now < |s + t| && present < |s|
    ensures Radix256(s, 1, Max(present, 1)) <= Radix256(s + t, 1, Max(now, 1))
    ensures Radix256(s, 1, present + 1) <= Radix256(s + t, 1, now + 1)
  {
    RadixExtended(s, t, Max(present, 1), Max(now, 1));
    RadixExtended(s, t, present + 1, now + 1);
  }

  lemma RadixExtended(s: seq<Octet>, t: seq<Octet>, j: nat, k: nat)
    requires 1 <= j <= |s| && j <= k <= |s + t|
    ensures Radix256(s, 1, j) <= Radix256(s + t, 1, k)
  {
    RadixMoved(s, 1, j, s + t, 1);
    RadixMonotone(s + t, 1, j, k);
  }

  /** Length octets cut short are never refused: the fetch asks for more. */
  lemma CutLengthWantsMore(constructed: bool, l: seq<Octet>, k: nat)
    requires IsLength(constructed, l) && k < |l|
    ensures FetchedLength(constructed, l[..k]) == More
  {
    if 1 < k {
      RadixMoved(l, 1, k - 1, l[..k], 1);
      RadixMonotone(l, 1, k - 1, |l| - 1);
    }
  }

  /** The octets der_tlv_length_serialize writes; a negative length is cast to one octet. */
  function SerializedLength(len: I64): seq<Octet> {
    if len <= 127 then [len % 256] else
    LengthTakesEight(len);
    [0x80 + |Digits256(len)|] + Digits256(len)
  }

  lemma ShiftedOctet(v: nat, i: nat)
    ensures Shr(v, i + 8) == Shr(v, i) / 256
  {
    ShrAdd(v, i, 8);
    Shr8(Shr(v, i));
  }

  lemma {:induction false} DigitsAtMost(v: nat, n: nat)
    requires Shr(v, 8 * n) == 0
    ensures |Digits256(v)| <= n
    decreases n
  {
    if v > 0 && n > 0 {
      ShrAdd(v, 8, 8 * (n - 1));
      Shr8(v);
      DigitsAtMost(v / 256, n - 1);
    }
  }

  lemma LengthTakesEight(len: nat)
    requires len < TWO_TO_64
    ensures |Digits256(len)| <= 8
  {
    assert Shr(len, 0) == len;
    ShiftedOctet(len, 0);
    ShiftedOctet(len, 8);
    ShiftedOctet(len, 16);
    ShiftedOctet(len, 24);
    ShiftedOctet(len, 32);
    ShiftedOctet(len, 40);
    ShiftedOctet(len, 48);
    ShiftedOctet(len, 56);
    DigitsAtMost(len, 8);
  }

  /** Fetching is inverse to serialising on 0..RSSIZE_MAX, and refuses everything longer. */
  lemma FetchSerializedLength(constructed: bool, len: I64, rest: seq<Octet>)
    requires 0 <= len
    ensures FetchedLength(constructed, SerializedLength(len) + rest)
         == if len <= RSSIZE_MAX then Got(len, |SerializedLength(len)|) else Bad
  {
    if len > 127 {
      var d := Digits256(len);
      var s := SerializedLength(len) + rest;
      LengthTakesEight(len);
      Digits256Value(len);
      RadixMoved(d, 0, |d|, s, 1);
      assert Radix256(s, 1, |d| + 1) == Radix256(s, 1, |d|) * 256 + s[|d|];
    }
  }

  lemma {:induction false} Digits256Shortest(s: seq<Octet>, i: nat, j: nat)
    requires i <= j <= |s|
    ensures |Digits256(Radix256(s, i, j))| <= j - i
  {
    if i < j {
      Digits256Shortest(s, i, j - 1);
    }
  }

  /** No definite length octets for the same length are shorter than the serialised ones (X.690 10.1). */
  lemma SerializedLengthShortest(constructed: bool, l: seq<Octet>)
    requires IsLength(constructed, l) && LengthOf(constructed, l) >= 0
    ensures |SerializedLength(LengthOf(constructed, l))| <= |l|
  {
    if LengthOf(constructed, l) > 127 {
      Digits256Shortest(l, 1, |l|);
    }
  }

  lemma {:induction false} DigitAt(v: nat, k: nat)
    requires k < |Digits256(v)|
    ensures Digits256(v)[k] == Shr(v, 8 * (|Digits256(v)| - 1 - k)) % 256
  {
    hide Shr;
    var n := |Digits256(v)|;
    ShrNothing(v);
    if k < n - 1 {
      DigitAt(v / 256, k);
      ShrAdd(v, 8, 8 * (n - 2 - k));
      Shr8(v);
    }
  }

  /** How many octets after the first: the counting loop of der_tlv_length_serialize. */
  method CountOctets(len: I64) returns (size: nat)
    requires 0 < len
    ensures size == |Digits256(len)| <= 8
  {
    size := 1;
    var i := 8;
    LengthTakesEight(len);
    Shr8(len);
    while i < 64
      invariant i == 8 * size && 8 <= i <= 64
      invariant |Digits256(len)| == size + |Digits256(Shr(len, i))|
    {
      ShiftedOctet(len, i);
      if Shr(len, i) != 0 {
        size := size + 1;
      } else {
        break;
      }
      i := i + 8;
    }
  }

  /** der_tlv_length_serialize into a buffer of buf.Length octets; returns the size needed. */
  method SerializeLength(len: I64, buf: array<Octet>) returns (required: nat)
    modifies buf
    ensures required == |SerializedLength(len)|
    ensures required <= buf.Length ==> buf[..required] == SerializedLength(len)
    ensures forall k :: 0 <= k < buf.Length && (required <= buf.Length ==> required <= k) ==> buf[k] == old(buf[k])
  {
    if len <= 127 {
      if buf.Length > 0 {
        buf[0] := len % 256;
      }
      return 1;
    }
    var size := CountOctets(len);
    if buf.Length <= size {
      return size + 1;
    }
    buf[0] := 0x80 + size;
    var i := 8 * (size - 1);
    var p := 1;
    while p <= size
      invariant 1 <= p <= size + 1
      invariant i == 8 * (size - p)
      invariant buf[0] == 0x80 + size
      invariant forall k :: 1 <= k < p ==> buf[k] == Digits256(len)[k - 1]
      invariant forall k :: p <= k < buf.Length ==> buf[k] == old(buf[k])
    {
      DigitAt(len, p - 1);
      buf[p] := Shr(len, i) % 256;
      i := i - 8;
      p := p + 1;
    }
    return size + 1;
  }

  /** Lengths as they stand in encodings, and the largest one. */
  lemma LengthExamples()
    ensures FetchedLength(false, [0x7F]) == Got(127, 1) && FetchedLength(false, [0x81, 0xC8]) == Got(200, 2)
    ensures FetchedLength(true, [0x80]) == Got(-1, 1) && FetchedLength(false, [0x80]) == Got(0, 1)
    ensures FetchedLength(true, [0xFF]) == Bad && FetchedLength(false, [0x82, 1]) == More
    ensures SerializedLength(200) == [0x81, 0xC8] && SerializedLength(127) == [0x7F] && SerializedLength(-1) == [0xFF]
    ensures RSSIZE_MAX == 4611686018427387903
  {
    assert Radix256([0x81, 0xC8], 1, 1) == 0 && Radix256([0x81, 0xC8], 1, 2) == 0xC8;
    assert Radix256([0x82, 1], 1, 1) == 0;
    assert Digits256(0) == [] && Digits256(200) == [200];
  }
}
