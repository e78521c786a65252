/** Identifier octets: ber_tlv_tag.c, X.690 section 8.1.2. */
module BerTag {
  import opened Octets
  import opened Words

  /** BER_TLV_CONSTRUCTED: bit 6 of the first identifier octet. */
  predicate IsConstructed(o: Octet) {
    o / 32 % 2 == 1
  }

  /** The first index from i on whose octet has no continuation bit, or the end. */
  function RunEnd(s: seq<Octet>, i: nat): (n: nat)
    requires i <= |s|
    ensures i <= n <= |s|
    decreases |s| - i
  {
    if i == |s| || s[i] < 128 then i else RunEnd(s, i + 1)
  }

  lemma {:induction false} RunEndIs(s: seq<Octet>, i: nat, n: nat)
    requires i <= n <= |s|
    requires AllContinue(s, i, n) && (n < |s| ==> s[n] < 128)
    ensures RunEnd(s, i) == n
    decreases n - i
  {
    if i < n {
      RunEndIs(s, i + 1, n);
    }
  }

  lemma {:induction false} RunEndAtLeast(s: seq<Octet>, i: nat, n: nat)
    requires i <= n <= |s| && AllContinue(s, i, n)
    ensures n <= RunEnd(s, i)
    decreases n - i
  {
    if i < n {
      RunEndAtLeast(s, i + 1, n);
    }
  }

  lemma {:induction false} RunEndStops(s: seq<Octet>, i: nat)
    requires i <= |s|
    ensures AllContinue(s, i, RunEnd(s, i))
    ensures RunEnd(s, i) < |s| ==> s[RunEnd(s, i)] < 128
    decreases |s| - i
  {
    if i < |s| && s[i] >= 128 {
      RunEndStops(s, i + 1);
    }
  }

  /** What ber_fetch_tag reports: the class in the two low bits, the number above it. */
  function FetchedTag(s: seq<Octet>): Fetch<nat> {
    if |s| == 0 then
      More
    else if s[0] % 32 != 31 then
      Got(s[0] % 32 * 4 + s[0] / 64, 1)
    else
      var n := RunEnd(s, 1);
      if Radix128(s, 1, n) >= 0x80_0000 then Bad
      else if n == |s| then More
      else Got(Radix128(s, 1, n + 1) * 4 + s[0] / 64, n + 1)
  }

  method FetchTag(s: seq<Octet>) returns (r: Fetch<nat>)
    ensures r == FetchedTag(s)
  {
    if |s| == 0 {
      return More;
    }
    var val: U32 := s[0] % 32;
    var tclass := s[0] / 64;
    if val != 0x1F {
      return Got(val * 4 + tclass, 1);
    }
    val := 0;
    var skipped := 2;
    while skipped <= |s|
      invariant 2 <= skipped <= |s| + 1
      invariant AllContinue(s, 1, skipped - 1)
      invariant val == Radix128(s, 1, skipped - 1) < 0x80_0000
    {
      var oct := s[skipped - 1];
      if oct >= 0x80 {
        val := val * 128 + oct % 128;
        if val >= 0x80_0000 {
          RunEndAtLeast(s, 1, skipped);
          RadixMonotone(s, 1, skipped, RunEnd(s, 1));
          return Bad;
        }
      } else {
        RunEndIs(s, 1, skipped - 1);
        val := val * 128 + oct;
        return Got(val * 4 + tclass, skipped);
      }
      skipped := skipped + 1;
    }
    RunEndIs(s, 1, |s|);
    return More;
  }

  /** Identifier octets ber_fetch_tag accepts: one octet, or groups that leave room in 32 bits. */
  predicate IsIdentifier(id: seq<Octet>) {
    && |id| > 0
    && if id[0] % 32 != 31 then |id| == 1
       else |id| > 1 && IsContinued(id, 1, |id|) && Radix128(id, 1, |id| - 1) < 0x80_0000
  }

  function TagOf(id: seq<Octet>): U32
    requires IsIdentifier(id)
  {
    if |id| == 1 then id[0] % 32 * 4 + id[0] / 64 else Radix128(id, 1, |id|) * 4 + id[0] / 64
  }

  /** Accepted identifier octets are read back exactly, whatever follows them. */
  lemma FetchReadsIdentifier(id: seq<Octet>, rest: seq<Octet>)
    requires IsIdentifier(id)
    ensures FetchedTag(id + rest) == Got(TagOf(id), |id|)
  {
    var s := id + rest;
    if |id| > 1 {
      RunEndIs(s, 1, |id| - 1);
      RadixMoved(id, 1, |id| - 1, s, 1);
    }
  }

  /** Conversely, whatever ber_fetch_tag accepts is identifier octets. */
  lemma FetchedIsIdentifier(s: seq<Octet>)
    requires FetchedTag(s).Got?
    ensures var n := FetchedTag(s).used;
            n <= |s| && IsIdentifier(s[..n]) && TagOf(s[..n]) == FetchedTag(s).value
  {
    var n := FetchedTag(s).used;
    if s[0] % 32 == 31 {
      RunEndStops(s, 1);
      RadixMoved(s, 1, n - 1, s[..n], 1);
    }
  }

  /** A tag fetched, or refused, stays so when octets arrive behind it. */
  lemma FetchTagStable(s: seq<Octet>, t: seq<Octet>)
    requires !FetchedTag(s).More?
    ensures FetchedTag(s + t) == FetchedTag(s)
  {
    var r := FetchedTag(s);
    if r.Got? {
      FetchedIsIdentifier(s);
      FetchReadsIdentifier(s[..r.used], s[r.used..] + t);
      assert s + t == s[..r.used] + (s[r.used..] + t);
    } else {
      var n := RunEnd(s, 1);
      RunEndStops(s, 1);
      RunEndAtLeast(s + t, 1, n);
      RadixMoved(s, 1, n, s + t, 1);
      RadixMonotone(s + t, 1, n, RunEnd(s + t, 1));
    }
  }

  /** Identifier octets cut short are never refused: the fetch asks for more. */
  lemma CutIdentifierWantsMore(id: seq<Octet>, k: nat)
    requires IsIdentifier(id) && k < |id|
    ensures FetchedTag(id[..k]) == More
  {
    if 0 < k {
      RunEndIs(id[..k], 1, k);
      RadixMoved(id, 1, k, id[..k], 1);
      RadixMonotone(id, 1, k, |id| - 1);
    }
  }

  /** The identifier octets ber_tlv_tag_serialize writes for a primitive encoding. */
  function SerializedTag(tag: U32): seq<Octet> {
    var (tclass, tval) := (tag % 4, tag / 4);
    if tval <= 30 then [tclass * 64 + tval] else [tclass * 64 + 0x1F] + Groups128(tval)
  }

  lemma SerializedTagIsIdentifier(tag: U32)
    ensures IsIdentifier(SerializedTag(tag)) && TagOf(SerializedTag(tag)) == tag
  {
    if tag / 4 > 30 {
      LongTagIsIdentifier(tag % 4, tag / 4);
    }
  }

  lemma LongTagIsIdentifier(tclass: nat, tval: nat)
    requires tclass < 4 && 30 < tval < 0x4000_0000
    ensures var id := [tclass * 64 + 0x1F] + Groups128(tval);
            IsIdentifier(id) && TagOf(id) == tval * 4 + tclass
  {
    Groups128Value(tval);
    var escape := tclass * 64 + 0x1F;
    assert escape % 32 == 31 && escape / 64 == tclass;
    GroupsBehindEscape(escape, Groups128(tval));
  }

  /** Groups behind a first octet that announces them. */
  lemma GroupsBehindEscape(escape: Octet, g: seq<Octet>)
    requires escape % 32 == 31 && IsContinued(g, 0, |g|) && Radix128(g, 0, |g|) < 0x4000_0000
    ensures var id := [escape] + g;
            IsIdentifier(id) && TagOf(id) == Radix128(g, 0, |g|) * 4 + escape / 64
  {
    var id := [escape] + g;
    RadixMoved(g, 0, |g|, id, 1);
    assert Radix128(id, 1, |id|) == Radix128(id, 1, |id| - 1) * 128 + id[|id| - 1] % 128;
  }

  /** Fetching is inverse to serialising, for all 2^32 tag words and any octets behind. */
  lemma FetchSerializedTag(tag: U32, rest: seq<Octet>)
    ensures FetchedTag(SerializedTag(tag) + rest) == Got(tag, |SerializedTag(tag)|)
  {
    SerializedTagIsIdentifier(tag);
    FetchReadsIdentifier(SerializedTag(tag), rest);
  }

  /** No identifier octets for the same tag are shorter than the serialised ones (X.690 8.1.2.4.2 c). */
  lemma SerializedTagShortest(id: seq<Octet>)
    requires IsIdentifier(id)
    ensures |SerializedTag(TagOf(id))| <= |id|
  {
    if |id| > 1 {
      hide Radix128, ContinuedGroups;
      ContinuedGroupsShortest(id, 1, |id| - 1);
      TagQuotient(id);
    }
  }

  /** The number above its last group, and the class. */
  lemma TagQuotient(id: seq<Octet>)
    requires IsIdentifier(id) && |id| > 1
    ensures TagOf(id) / 4 / 128 == Radix128(id, 1, |id| - 1) && TagOf(id) % 4 == id[0] / 64
  {
    var high, low := Radix128(id, 1, |id| - 1), id[|id| - 1];
    assert TagOf(id) == (high * 128 + low) * 4 + id[0] / 64;
  }

  /** An octet of the shortest spelling, as a shift of the whole. */
  lemma {:induction false} ContinuedGroupAt(v: nat, k: nat)
    requires k < |ContinuedGroups(v)|
    ensures ContinuedGroups(v)[k] == 128 + Shr(v, 7 * (|ContinuedGroups(v)| - 1 - k)) % 128
  {
    var n := |ContinuedGroups(v)|;
    if k < n - 1 {
      ContinuedGroupAt(v / 128, k);
      ShrAdd(v, 7, 7 * (n - 2 - k));
      Shr7(v);
    }
  }

  lemma ShiftedGroup(v: nat, i: nat)
    ensures Shr(v, i + 7) == Shr(v, i) / 128
  {
    ShrAdd(v, i, 7);
    Shr7(Shr(v, i));
  }

  lemma ThirtyBitsShiftedOut(v: nat)
    requires v < 0x4000_0000
    ensures Shr(v, 35) == 0
  {
    assert Shr(v, 0) == v;
    ShiftedGroup(v, 0);
    ShiftedGroup(v, 7);
    ShiftedGroup(v, 14);
    ShiftedGroup(v, 21);
    ShiftedGroup(v, 28);
  }

  /** How many groups after the first octet: the counting loop of ber_tlv_tag_serialize. */
  method CountGroups(tval: nat) returns (groups: nat)
    requires tval < 0x4000_0000
    ensures groups == |Groups128(tval)|
  {
    groups := 1;
    var i := 7;
    Shr7(tval);
    while i < 32
      invariant i == 7 * groups && 7 <= i <= 35
      invariant |Groups128(tval)| == groups + |ContinuedGroups(Shr(tval, i))|
    {
      ShiftedGroup(tval, i);
      if Shr(tval, i) != 0 {
        groups := groups + 1;
      } else {
        break;
      }
      i := i + 7;
    }
    ThirtyBitsShiftedOut(tval);
  }

  /** ber_tlv_tag_serialize into a buffer of buf.Length octets; returns the size needed. */
  method SerializeTag(tag: U32, buf: array<Octet>) returns (required: nat)
    modifies buf
    ensures required == |SerializedTag(tag)|
    ensures required <= buf.Length ==> buf[..required] == SerializedTag(tag)
    ensures forall k :: 0 <= k < buf.Length && (if required <= buf.Length then required <= k else 1 <= k)
              ==> buf[k] == old(buf[k])
  {
    var tclass, tval := tag % 4, tag / 4;
    if tval <= 30 {
      if buf.Length > 0 {
        buf[0] := tclass * 64 + tval;
      }
      return 1;
    } else if buf.Length > 0 {
      buf[0] := tclass * 64 + 0x1F;
    }
    var groups := CountGroups(tval);
    if buf.Length < groups + 1 {
      return groups + 1;
    }
    var i := 7 * (groups - 1);
    var p := 1;
    while p < groups
      invariant 1 <= p <= groups
      invariant i == 7 * (groups - p)
      invariant buf[0] == tclass * 64 + 0x1F
      invariant forall k :: 1 <= k < p ==> buf[k] == Groups128(tval)[k - 1]
      invariant forall k :: p <= k < buf.Length ==> buf[k] == old(buf[k])
    {
      ContinuedGroupAt(tval / 128, p - 1);
      ShrAdd(tval, 7, i - 7);
      Shr7(tval);
      buf[p] := 0x80 + Shr(tval, i) % 128;
      i := i - 7;
      p := p + 1;
    }
    buf[p] := tval % 128;
    return groups + 1;
  }

  /** Tags as they stand in encodings: class in the two low bits, number above. */
  lemma TagExamples()
    ensures FetchedTag([4]) == Got(16, 1) && FetchedTag([0x30]) == Got(64, 1) && FetchedTag([0xA0]) == Got(2, 1)
    ensures FetchedTag([0x7F, 0x81, 0x04]) == Got(132 * 4 + 1, 3) && FetchedTag([0x7F, 0x81]) == More
    ensures SerializedTag(132 * 4 + 1) == [0x5F, 0x81, 0x04] && SerializedTag(16) == [4]
    ensures IsConstructed(0x30) && !IsConstructed(4) && IsConstructed(0xA0) && !IsConstructed(0x80)
  {
    hide Radix128, ContinuedGroups;
    LongTagExample();
    SerializedExample();
  }

  lemma LongTagExample()
    ensures FetchedTag([0x7F, 0x81, 0x04]) == Got(132 * 4 + 1, 3) && FetchedTag([0x7F, 0x81]) == More
  {
    hide Radix128;
    RadixBehind([0x7F], 0x81);
    RadixBehind([0x7F, 0x81], 0x04);
    NoGroups([0x7F]);
    assert [0x7F] + [0x81] == [0x7F, 0x81] && [0x7F, 0x81] + [0x04] == [0x7F, 0x81, 0x04];
    RunEndIs([0x7F, 0x81, 0x04], 1, 2);
    RunEndIs([0x7F, 0x81], 1, 2);
  }

  lemma NoGroups(s: seq<Octet>)
    requires |s| == 1
    ensures Radix128(s, 1, 1) == 0
  {
  }

  lemma SerializedExample()
    ensures SerializedTag(132 * 4 + 1) == [0x5F, 0x81, 0x04] && SerializedTag(16) == [4]
  {
    assert ContinuedGroups(0) == [] && ContinuedGroups(1) == [0x81];
  }
}
