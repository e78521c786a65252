/**
 * OBJECT IDENTIFIER (OBJECT_IDENTIFIER.c, X.690 section 8.19): arcs, subidentifiers in octets, and dotted text, with the
 * conversions between any two of them.
 */
module ObjectIdentifier {
  import opened Octets
  import opened Words
  import opened Text
  import opened Decimal

  type Arc = U32

  const ARC_MAX := TWO_TO_32 - 1

  function Consed<T>(head: T, tail: Option<seq<T>>): Option<seq<T>> {
    if tail.None? then None else Some([head] + tail.value)
  }

  /** Where the subidentifier at i ends: behind the first octet without continuation bit. */
  function ArcEnd(s: seq<Octet>, i: nat): (e: Option<nat>)
    requires i <= |s|
    ensures e.Some? ==> i < e.value <= |s| && IsContinued(s, i, e.value)
    ensures e.None? ==> AllContinue(s, i, |s|)
    decreases |s| - i
  {
    if i == |s| then None else if s[i] < 128 then Some(i + 1) else ArcEnd(s, i + 1)
  }

  lemma {:induction false} ArcEndIs(s: seq<Octet>, i: nat, e: nat)
    requires i < e <= |s| && IsContinued(s, i, e)
    ensures ArcEnd(s, i) == Some(e)
    decreases e - i
  {
    if i + 1 < e {
      ArcEndIs(s, i + 1, e);
    }
  }

  /** OBJECT_IDENTIFIER_get_single_arc: the 32-bit accumulator drops what is shifted out of it. */
  method GetSingleArc(s: seq<Octet>, at: nat) returns (r: Fetch<Arc>)
    requires at <= |s|
    ensures at == |s| ==> r == More
    ensures at < |s| ==>
      match ArcEnd(s, at)
      case None => r == Bad
      case Some(e) => r == Got(Radix128(s, at, e) % TWO_TO_32, e - at)
  {
    if at == |s| {
      return More;
    }
    var accum, b := 0, at;
    while b < |s|
      invariant at <= b <= |s| && AllContinue(s, at, b) && ArcEnd(s, at) == ArcEnd(s, b)
      invariant accum == Radix128(s, at, b) % TWO_TO_32
    {
      ShiftIn(Radix128(s, at, b), accum, s[b]);
      accum := (accum * 128 + s[b] % 128) % TWO_TO_32;
      if s[b] < 128 {
        return Got(accum, 1 + (b - at));
      }
      b := b + 1;
    }
    r := Bad;
  }

  lemma ShiftIn(v: nat, low: nat, o: Octet)
    requires low == v % TWO_TO_32
    ensures (low * 128 + o % 128) % TWO_TO_32 == (v * 128 + o % 128) % TWO_TO_32
  {
    var q := v / TWO_TO_32;
    Multiple(low * 128 + o % 128, q * 128);
    assert v * 128 + o % 128 == low * 128 + o % 128 + q * 128 * TWO_TO_32;
  }

  lemma Multiple(x: nat, q: nat)
    ensures (x + q * TWO_TO_32) % TWO_TO_32 == x % TWO_TO_32
  {
    assert x + q * TWO_TO_32 == (x / TWO_TO_32 + q) * TWO_TO_32 + x % TWO_TO_32;
  }

  /** The subidentifiers that octets from i on spell, as unbounded numbers; none if the last one is cut. */
  function SubIds(s: seq<Octet>, i: nat): Option<seq<nat>>
    requires i <= |s|
    decreases |s| - i
  {
    if i == |s| then Some([])
    else
      match ArcEnd(s, i)
      case None => None
      case Some(e) => Consed(Radix128(s, i, e), SubIds(s, e))
  }

  function Low32(ids: seq<nat>): (arcs: seq<Arc>)
    ensures |arcs| == |ids|
  {
    seq(|ids|, i requires 0 <= i < |ids| => ids[i] % TWO_TO_32)
  }

  /** The first subidentifier holds the first two arcs. */
  function Split(v: Arc): (arcs: seq<Arc>)
    ensures |arcs| == 2
  {
    if v >= 80 then [2, v - 80] else if v >= 40 then [1, v - 40] else [0, v]
  }

  /** The arcs the source makes of contents octets. */
  function Arcs(s: seq<Octet>): Option<seq<Arc>> {
    match SubIds(s, 0)
    case None => None
    case Some(ids) => if ids == [] then None else Some(Split(ids[0] % TWO_TO_32) + Low32(ids[1..]))
  }

  /** What set_arcs takes: X.690 8.19.4. */
  predicate Accepted(arcs: seq<Arc>) {
    && |arcs| >= 2
    && if arcs[0] <= 1 then arcs[1] < 40 else arcs[0] == 2 && arcs[1] <= ARC_MAX - 80
  }

  function Joined(arcs: seq<Arc>): (v: Arc)
    requires Accepted(arcs)
  {
    arcs[0] * 40 + arcs[1]
  }

  function AllGroups(ids: seq<nat>): seq<Octet> {
    if ids == [] then [] else Groups128(ids[0]) + AllGroups(ids[1..])
  }

  /** The contents octets of arcs. */
  function Contents(arcs: seq<Arc>): seq<Octet>
    requires Accepted(arcs)
  {
    AllGroups([Joined(arcs)] + arcs[2..])
  }

  /** Subidentifiers come back from their octets, whatever their size. */
  lemma {:induction false} GroupsRead(lead: seq<Octet>, ids: seq<nat>)
    ensures SubIds(lead + AllGroups(ids), |lead|) == Some(ids)
    decreases |ids|
  {
    var s := lead + AllGroups(ids);
    if ids == [] {
      assert s == lead;
    } else {
      var g := Groups128(ids[0]);
      Groups128Value(ids[0]);
      GroupInPlace(lead, g, AllGroups(ids[1..]));
      assert s == lead + g + AllGroups(ids[1..]);
      ArcEndIs(s, |lead|, |lead + g|);
      GroupsRead(lead + g, ids[1..]);
      assert ids == [ids[0]] + ids[1..];
    }
  }

  lemma GroupInPlace(lead: seq<Octet>, g: seq<Octet>, rest: seq<Octet>)
    requires IsContinued(g, 0, |g|)
    ensures var s := lead + g + rest;
            && IsContinued(s, |lead|, |lead| + |g|)
            && Radix128(s, |lead|, |lead| + |g|) == Radix128(g, 0, |g|)
  {
    var s := lead + g + rest;
    RadixMoved(g, 0, |g|, s, |lead|);
    forall k | |lead| <= k < |lead| + |g| - 1
      ensures s[k] >= 128
    {
      assert s[k] == g[k - |lead|];
    }
    assert s[|lead| + |g| - 1] == g[|g| - 1];
  }

  /** Accepted arcs come back from their contents octets. */
  lemma ArcsOfContents(arcs: seq<Arc>)
    requires Accepted(arcs)
    ensures Arcs(Contents(arcs)) == Some(arcs)
  {
    hide AllGroups, SubIds;
    var ids: seq<nat> := [Joined(arcs)] + arcs[2..];
    GroupsRead([], ids);
    assert [] + AllGroups(ids) == Contents(arcs);
    assert ids[1..] == arcs[2..];
    assert Low32(ids[1..]) == arcs[2..];
    assert Split(Joined(arcs)) == arcs[..2];
    assert arcs == arcs[..2] + arcs[2..];
  }

  /** A subidentifier starts at k, when one does at i. */
  predicate StartsAt(s: seq<Octet>, i: nat, k: nat)
    requires i <= k < |s|
  {
    k == i || s[k - 1] < 128
  }

  /** No subidentifier from i on starts with 0x80: X.690 8.19.2. */
  predicate Unpadded(s: seq<Octet>, i: nat)
    requires i <= |s|
  {
    forall k :: i <= k < |s| && StartsAt(s, i, k) ==> s[k] != 128
  }

  lemma {:induction false} ContinuedUnpadded(s: seq<Octet>, i: nat, j: nat)
    requires i < j <= |s| && AllContinue(s, i, j) && s[i] != 128
    ensures Radix128(s, i, j) > 0 && s[i..j] == ContinuedGroups(Radix128(s, i, j))
  {
    if i + 1 < j {
      hide ContinuedGroups, Radix128;
      ContinuedUnpadded(s, i, j - 1);
      OneGroupMore(s, i, j);
      assert s[i..j] == s[i..j - 1] + [s[j - 1]];
      GroupBehind(Radix128(s, i, j - 1), s[j - 1]);
    } else {
      OnlyGroup(s, i);
    }
  }

  lemma OnlyGroup(s: seq<Octet>, i: nat)
    requires i < |s| && s[i] > 128
    ensures Radix128(s, i, i + 1) > 0 && s[i..i + 1] == ContinuedGroups(Radix128(s, i, i + 1))
  {
    assert Radix128(s, i, i) == 0;
    assert ContinuedGroups(0) == [];
  }

  lemma OneGroupMore(s: seq<Octet>, i: nat, j: nat)
    requires i < j <= |s|
    ensures Radix128(s, i, j) == Radix128(s, i, j - 1) * 128 + s[j - 1] % 128
  {
  }

  lemma GroupBehind(v: nat, o: Octet)
    requires v > 0 && o >= 128
    ensures ContinuedGroups(v * 128 + o % 128) == ContinuedGroups(v) + [o]
  {
    var w := v * 128 + o % 128;
    assert w / 128 == v && w % 128 == o - 128;
  }

  lemma {:induction false} GroupsUnpadded(v: nat)
    requires v > 0
    ensures ContinuedGroups(v) != [] && ContinuedGroups(v)[0] != 128
  {
    if v >= 128 {
      GroupsUnpadded(v / 128);
    } else {
      assert ContinuedGroups(0) == [];
    }
  }

  /** The shortest groups are the ones without padding. */
  lemma GroupExact(s: seq<Octet>, i: nat, e: nat)
    requires i < e <= |s| && IsContinued(s, i, e)
    ensures s[i..e] == Groups128(Radix128(s, i, e)) <==> s[i] != 128
  {
    hide Radix128, ContinuedGroups, Groups128;
    var v := Radix128(s, i, e);
    LastGroup(s, i, e);
    if e == i + 1 {
      NothingContinued(s, i);
    } else if s[i] != 128 {
      ContinuedUnpadded(s, i, e - 1);
    } else if s[i..e] == Groups128(v) {
      GroupsLead(v, s[i..e]);
    }
  }

  lemma LastGroup(s: seq<Octet>, i: nat, e: nat)
    requires i < e <= |s| && s[e - 1] < 128
    ensures s[i..e] == s[i..e - 1] + [s[e - 1]]
    ensures Groups128(Radix128(s, i, e)) == ContinuedGroups(Radix128(s, i, e - 1)) + [s[e - 1]]
  {
    hide ContinuedGroups;
    assert Radix128(s, i, e) / 128 == Radix128(s, i, e - 1) && Radix128(s, i, e) % 128 == s[e - 1];
  }

  lemma NothingContinued(s: seq<Octet>, i: nat)
    requires i <= |s|
    ensures ContinuedGroups(Radix128(s, i, i)) == [] == s[i..i]
  {
  }

  lemma GroupsLead(v: nat, g: seq<Octet>)
    requires |g| > 1 && g == Groups128(v)
    ensures g[0] != 128
  {
    hide ContinuedGroups;
    if v / 128 == 0 {
      NothingContinued([], 0);
    }
    GroupsUnpadded(v / 128);
  }

  /** Octets are the groups of their subidentifiers just if none of these is padded. */
  lemma {:induction false} AllGroupsExact(s: seq<Octet>, i: nat)
    requires i <= |s| && SubIds(s, i).Some?
    ensures s[i..] == AllGroups(SubIds(s, i).value) <==> Unpadded(s, i)
    decreases |s| - i
  {
    hide Radix128, Groups128;
    SubIdsAt(s, i);
    if i < |s| {
      var e := ArcEnd(s, i).value;
      var g, rest := Groups128(Radix128(s, i, e)), AllGroups(SubIds(s, e).value);
      AllGroupsExact(s, e);
      GroupExact(s, i, e);
      FirstOfGroups(Radix128(s, i, e), SubIds(s, e).value);
      if s[i..] == g + rest {
        SameFirstGroup(s, i, Radix128(s, i, e), rest);
      } else {
        assert s[i..] == s[i..e] + s[e..];
      }
    }
  }

  lemma FirstOfGroups(id: nat, ids: seq<nat>)
    ensures AllGroups([id] + ids) == Groups128(id) + AllGroups(ids)
  {
    assert ([id] + ids)[1..] == ids;
  }

  lemma SameFirstGroup(s: seq<Octet>, i: nat, v: nat, rest: seq<Octet>)
    requires i < |s| && s[i..] == Groups128(v) + rest
    ensures ArcEnd(s, i) == Some(i + |Groups128(v)|)
    ensures s[i..i + |Groups128(v)|] == Groups128(v) && s[i + |Groups128(v)|..] == rest
  {
    hide Radix128;
    var g := Groups128(v);
    Groups128Value(v);
    GroupInPlace(s[..i], g, rest);
    assert s == s[..i] + g + rest;
    ArcEndIs(s, i, i + |g|);
  }

  lemma Low32Kept(ids: seq<nat>)
    ensures Low32(ids) == ids <==> forall i :: 0 <= i < |ids| ==> ids[i] <= ARC_MAX
  {
    if Low32(ids) == ids {
      assert forall i :: 0 <= i < |ids| ==> ids[i] == Low32(ids)[i];
    }
  }

  /** What is told of some octets, put back: set_arcs takes it, and makes of it the low 32 bits of each subidentifier. */
  lemma RetoldContents(s: seq<Octet>)
    requires Arcs(s).Some?
    ensures Accepted(Arcs(s).value) && Contents(Arcs(s).value) == AllGroups(Low32(SubIds(s, 0).value))
  {
    hide SubIds, AllGroups;
    var ids, arcs := SubIds(s, 0).value, Arcs(s).value;
    assert arcs[..2] == Split(ids[0] % TWO_TO_32) && arcs[2..] == Low32(ids[1..]);
    assert [Joined(arcs)] + arcs[2..] == Low32(ids);
  }

  /**
   * Octets to arcs and back: the same octets come out if and only if no subidentifier is padded and all of them fit
   * 32 bits. Larger ones lose their high bits without an error.
   */
  lemma RetoldExact(s: seq<Octet>)
    requires Arcs(s).Some?
    ensures Accepted(Arcs(s).value)
    ensures var ids := SubIds(s, 0).value;
            Contents(Arcs(s).value) == s <==> Unpadded(s, 0) && forall i :: 0 <= i < |ids| ==> ids[i] <= ARC_MAX
  {
    hide SubIds, AllGroups, Contents, Arcs, Unpadded, Low32;
    ArcsHaveIds(s);
    var ids := SubIds(s, 0).value;
    RetoldContents(s);
    AllGroupsExact(s, 0);
    assert s[0..] == s;
    Low32Kept(ids);
    GroupsRead([], Low32(ids));
    assert [] + AllGroups(Low32(ids)) == AllGroups(Low32(ids));
  }

  /** The arc 2^32 under 1.2 is told as 0, without an error. */
  lemma RetoldExample()
    ensures var s := [0x2A, 0x90, 0x80, 0x80, 0x80, 0x00];
            && SubIds(s, 0) == Some([42, TWO_TO_32]) && Arcs(s) == Some([1, 2, 0])
            && Accepted([1, 2, 0]) && Contents([1, 2, 0]) == [0x2A, 0x00]
  {
    var s: seq<Octet> := [0x2A, 0x90, 0x80, 0x80, 0x80, 0x00];
    SubIdsExample(s);
    var ids: seq<nat> := [42, TWO_TO_32];
    assert ids[1..] == [TWO_TO_32] && Low32(ids[1..]) == [0];
    assert Split(42) + [0] == [1, 2, 0];
    ContentsExample();
  }

  lemma SubIdsExample(s: seq<Octet>)
    requires s == [0x2A, 0x90, 0x80, 0x80, 0x80, 0x00]
    ensures SubIds(s, 0) == Some([42, TWO_TO_32])
  {
    hide Radix128, ArcEnd, SubIds;
    ArcEndIs(s, 0, 1);
    ArcEndIs(s, 1, 6);
    SubIdsAt(s, 0);
    SubIdsAt(s, 1);
    SubIdsAt(s, 6);
    RadixExample(s);
    assert [TWO_TO_32] + [] == [TWO_TO_32] && [42] + [TWO_TO_32] == [42, TWO_TO_32];
  }

  lemma RadixExample(s: seq<Octet>)
    requires s == [0x2A, 0x90, 0x80, 0x80, 0x80, 0x00]
    ensures Radix128(s, 0, 1) == 42 && Radix128(s, 1, 6) == TWO_TO_32
  {
    assert Radix128(s, 0, 0) == 0 && Radix128(s, 1, 1) == 0;
    assert Radix128(s, 1, 3) == 0x10 * 128;
    assert Radix128(s, 1, 5) == 0x10 * 128 * 128 * 128;
  }

  lemma ContentsExample()
    ensures Accepted([1, 2, 0]) && Contents([1, 2, 0]) == [0x2A, 0x00]
  {
    hide Groups128, AllGroups;
    var ids: seq<nat> := [42, 0];
    assert [42] + [1, 2, 0][2..] == ids && [42] + [0] == ids && [0] + [] == [0];
    FirstOfGroups(42, [0]);
    FirstOfGroups(0, []);
    SmallGroup(42);
    SmallGroup(0);
    NoneOfGroups();
    assert [0x2A] + ([0x00] + []) == [0x2A, 0x00];
  }

  lemma SmallGroup(v: nat)
    requires v < 128
    ensures Groups128(v) == [v]
  {
    assert ContinuedGroups(0) == [];
  }

  lemma NoneOfGroups()
    ensures AllGroups([]) == []
  {
  }

  lemma ArcsHaveIds(s: seq<Octet>)
    requires Arcs(s).Some?
    ensures SubIds(s, 0).Some?
  {
  }

  /** OBJECT_IDENTIFIER_set_single_arc: -1 if there is not enough room. */
  method SetSingleArc(arcbuf: array<Octet>, bp: nat, room: nat, value: Arc) returns (wrote: int)
    requires bp + room <= arcbuf.Length
    modifies arcbuf
    ensures |Groups128(value)| > room ==> wrote == -1 && arcbuf[..] == old(arcbuf[..])
    ensures |Groups128(value)| <= room ==>
      && wrote == |Groups128(value)| && arcbuf[bp..bp + wrote] == Groups128(value)
      && arcbuf[..bp] == old(arcbuf[..bp])
  {
    var scratch := new Octet[5];
    GroupsAtMost5(value);
    var b := FillScratch(scratch, value);
    var length := 5 - b;
    if length > room {
      return -1;
    }
    forall k | 0 <= k < length {
      arcbuf[bp + k] := scratch[b + k];
    }
    assert arcbuf[bp..bp + length] == scratch[b..];
    wrote := length;
  }

  /** From the last octet backwards: 7 bits at a time. */
  method FillScratch(scratch: array<Octet>, arc: Arc) returns (b: nat)
    requires scratch.Length == 5
    modifies scratch
    ensures b < 5 && scratch[b..] == Groups128(arc)
  {
    hide ContinuedGroups;
    var value: nat := arc;
    b := 4;
    GroupsAtMost5(arc);
    scratch[b] := value % 128;
    value := value / 128;
    ghost var tail := [scratch[4]];
    NoGroups(value, tail);
    while value != 0
      invariant b < 5 && scratch[b..] == tail && ContinuedGroups(value) + tail == Groups128(arc)
      decreases value
    {
      NextGroup(value, tail);
      assert b > 0;
      b := b - 1;
      scratch[b] := 128 + value % 128;
      value := value / 128;
      tail := [scratch[b]] + tail;
    }
    NoGroups(value, tail);
  }

  lemma NoGroups(v: nat, tail: seq<Octet>)
    ensures v == 0 ==> ContinuedGroups(v) + tail == tail
  {
  }

  lemma NextGroup(v: nat, tail: seq<Octet>)
    requires v > 0
    ensures ContinuedGroups(v) + tail == ContinuedGroups(v / 128) + ([128 + v % 128] + tail)
  {
  }

  class OBJECT_IDENTIFIER {
    var buf: seq<Octet>

    constructor (buf: seq<Octet>)
      ensures this.buf == buf
    {
      this.buf := buf;
    }

    /** OBJECT_IDENTIFIER_set_arcs: five octets for every arc are room enough. */
    method SetArcs(arcs: seq<Arc>) returns (ok: bool)
      modifies this
      ensures ok <==> Accepted(arcs)
      ensures buf == if ok then Contents(arcs) else old(buf)
    {
      hide AllGroups, Groups128;
      if |arcs| < 2 {
        return false;
      }
      var arc0, arc1 := arcs[0], arcs[1];
      if arc0 <= 1 {
        if arc1 >= 40 {
          return false;
        }
      } else if arc0 == 2 {
        if arc1 > ARC_MAX - 80 {
          return false;
        }
      } else {
        return false;
      }
      ghost var ids := [Joined(arcs)] + arcs[2..];
      var size := 5 * |arcs|;
      var data := new Octet[size + 1];
      GroupsAtMost5(arc0 * 40 + arc1);
      var wrote := SetSingleArc(data, 0, size, arc0 * 40 + arc1);
      var bp: nat := wrote;
      size := size - wrote;
      FirstGroup(ids);
      assert data[..bp] == data[0..bp];
      var i := 2;
      while i < |arcs|
        invariant 2 <= i <= |arcs| && size >= 0 && bp + size + 1 == data.Length && size >= 5 * (|arcs| - i)
        invariant data[..bp] == AllGroups(ids[..i - 1])
      {
        GroupsAtMost5(arcs[i]);
        MoreGroups(ids, i - 1);
        ghost var was := data[..bp];
        wrote := SetSingleArc(data, bp, size, arcs[i]);
        assert data[..bp + wrote] == was + data[bp..bp + wrote];
        bp := bp + wrote;
        size := size - wrote;
        i := i + 1;
      }
      assert ids[..|arcs| - 1] == ids;
      buf := data[..bp];
      ok := true;
    }

    /** OBJECT_IDENTIFIER_get_arcs: the true count, and as many of the arcs as there are slots. */
    method GetArcs(arcs: array<Arc>) returns (count: int)
      modifies arcs
      ensures Arcs(buf).None? ==> count == -1
      ensures Arcs(buf).Some? ==>
        && count == |Arcs(buf).value|
        && forall k :: 0 <= k < arcs.Length ==> arcs[k] == if k < count then Arcs(buf).value[k] else old(arcs[k])
    {
      hide Radix128;
      var first := GetSingleArc(buf, 0);
      if !first.Got? {
        return -1;
      }
      var off := first.used;
      var pair := Split(first.value);
      if arcs.Length >= 2 {
        arcs[1] := pair[1];
      }
      if arcs.Length >= 1 {
        arcs[0] := pair[0];
      }
      count := GetMoreArcs(buf, off, arcs, pair);
    }
  }

  lemma FirstGroup(ids: seq<nat>)
    requires |ids| > 0
    ensures AllGroups(ids[..1]) == Groups128(ids[0])
  {
    assert ids[..1][1..] == [];
  }

  lemma {:induction false} MoreGroups(ids: seq<nat>, i: nat)
    requires i < |ids|
    ensures AllGroups(ids[..i + 1]) == AllGroups(ids[..i]) + Groups128(ids[i])
    decreases i
  {
    if i > 0 {
      var rest := ids[1..];
      MoreGroups(rest, i - 1);
      assert ids[..i + 1][1..] == rest[..i] && ids[..i][1..] == rest[..i - 1];
      assert rest[i - 1] == ids[i];
    } else {
      FirstGroup(ids);
    }
  }

  /** The arcs behind the first two. */
  method GetMoreArcs(buf: seq<Octet>, start: nat, arcs: array<Arc>, lead: seq<Arc>) returns (count: int)
    requires start <= |buf|
    modifies arcs
    ensures SubIds(buf, start).None? ==> count == -1
    ensures SubIds(buf, start).Some? ==>
      var all := lead + Low32(SubIds(buf, start).value);
      && count == |all|
      && forall k :: 0 <= k < arcs.Length ==> arcs[k] == if |lead| <= k < count then all[k] else old(arcs[k])
  {
    hide Radix128, SubIds, ArcEnd;
    var off, n := start, |lead|;
    ghost var was := arcs[..];
    ghost var seen: seq<nat> := [];
    PrependedNothing(seen, SubIds(buf, start));
    while true
      invariant start <= off <= |buf| && n == |lead| + |seen|
      invariant SubIds(buf, start) == Prepended(seen, SubIds(buf, off))
      invariant forall k :: 0 <= k < arcs.Length ==>
        arcs[k] == if |lead| <= k < n then seen[k - |lead|] % TWO_TO_32 else was[k]
      decreases |buf| - off
    {
      SubIdsAt(buf, off);
      var r := GetSingleArc(buf, off);
      if r.Bad? {
        return -1;
      }
      if r.More? {
        break;
      }
      ghost var id := Radix128(buf, off, off + r.used);
      PrependedMore(seen, id, SubIds(buf, off + r.used));
      seen := seen + [id];
      off := off + r.used;
      if n < arcs.Length {
        arcs[n] := r.value;
      }
      n := n + 1;
    }
    assert seen + [] == seen;
    count := n;
  }

  lemma SubIdsAt(s: seq<Octet>, i: nat)
    requires i <= |s|
    ensures i == |s| ==> SubIds(s, i) == Some([])
    ensures i < |s| && ArcEnd(s, i).None? ==> SubIds(s, i) == None
    ensures i < |s| && ArcEnd(s, i).Some? ==>
      SubIds(s, i) == Consed(Radix128(s, i, ArcEnd(s, i).value), SubIds(s, ArcEnd(s, i).value))
  {
  }

  function Prepended<T>(front: seq<T>, rest: Option<seq<T>>): Option<seq<T>> {
    if rest.None? then None else Some(front + rest.value)
  }

  lemma PrependedNothing<T>(none: seq<T>, rest: Option<seq<T>>)
    requires |none| == 0
    ensures Prepended(none, rest) == rest
  {
    if rest.Some? {
      assert none + rest.value == rest.value;
    }
  }

  lemma PrependedMore<T>(front: seq<T>, x: T, rest: Option<seq<T>>)
    ensures Prepended(front, Consed(x, rest)) == Prepended(front + [x], rest)
  {
    if rest.Some? {
      assert front + ([x] + rest.value) == front + [x] + rest.value;
    }
  }

  /** What stands behind the first arc in dotted text. */
  function DottedTail(arcs: seq<Arc>): string {
    if arcs == [] then "" else "." + DigitsOf(arcs[0]) + DottedTail(arcs[1..])
  }

  function Dotted(arcs: seq<Arc>): string
    requires arcs != []
  {
    DigitsOf(arcs[0]) + DottedTail(arcs[1..])
  }

  lemma {:induction false} DigitsAtMost(n: nat, k: nat)
    requires n < Pow10(k) && k > 0
    ensures |DigitsOf(n)| <= k
  {
    if n >= 10 {
      DigitsAtMost(n / 10, k - 1);
    }
  }

  function Pow10(k: nat): nat {
    if k == 0 then 1 else 10 * Pow10(k - 1)
  }

  lemma ArcDigits(v: Arc)
    ensures |DigitsOf(v)| <= 10
  {
    assert Pow10(5) == 100000;
    DigitsAtMost(v, 10);
  }

  /** OBJECT_IDENTIFIER__dump_body: every piece fits a scratch area of 32 characters. */
  method DumpBody(buf: seq<Octet>) returns (ok: bool, text: string)
    ensures ok <==> Arcs(buf).Some?
    ensures ok ==> text == Dotted(Arcs(buf).value)
  {
    hide Radix128, DigitsOf;
    text := "";
    var first := GetSingleArc(buf, 0);
    if !first.Got? {
      return false, text;
    }
    var pair := Split(first.value);
    ArcDigits(pair[0]);
    ArcDigits(pair[1]);
    var piece := DigitsOf(pair[0]) + "." + DigitsOf(pair[1]);
    if |piece| >= 32 {
      return false, text;
    }
    text := piece;
    var off := first.used;
    ghost var all := SubIds(buf, off);
    while true
      invariant off <= |buf| && SubIds(buf, off).Some? == all.Some?
      invariant all.Some? ==>
        text + DottedTail(Low32(SubIds(buf, off).value)) == piece + DottedTail(Low32(all.value))
      decreases |buf| - off
    {
      var r := GetSingleArc(buf, off);
      if r.Bad? {
        return false, text;
      }
      if r.More? {
        break;
      }
      ArcDigits(r.value);
      var more := "." + DigitsOf(r.value);
      if |more| >= 32 {
        return false, text;
      }
      if all.Some? {
        NextDotted(text, SubIds(buf, off).value);
      }
      text := text + more;
      off := off + r.used;
    }
    if all.Some? {
      TwoDotted(pair, Low32(all.value));
    }
    ok := true;
  }

  lemma NextDotted(text: string, ids: seq<nat>)
    requires ids != []
    ensures text + DottedTail(Low32(ids))
         == text + ("." + DigitsOf(ids[0] % TWO_TO_32)) + DottedTail(Low32(ids[1..]))
  {
    hide DigitsOf;
    assert Low32(ids)[1..] == Low32(ids[1..]);
  }

  lemma TwoDotted(pair: seq<Arc>, rest: seq<Arc>)
    requires |pair| == 2
    ensures DigitsOf(pair[0]) + "." + DigitsOf(pair[1]) + DottedTail(rest) == Dotted(pair + rest)
  {
    hide DigitsOf;
    assert (pair + rest)[1..] == [pair[1]] + rest;
    assert ([pair[1]] + rest)[1..] == rest;
  }

  /** The arcs of dotted text, from a digit on, and from behind one. */
  function ParsedAt(s: string, i: nat): Option<seq<Arc>>
    requires i <= |s|
    decreases |s| - i, 0
  {
    if i == |s| || !IsDigit(s[i]) then None
    else
      var e := DigitsEnd(s, i);
      if Number(s, i, e) > ARC_MAX then None else Consed(Number(s, i, e), ParsedBehind(s, e))
  }

  function ParsedBehind(s: string, e: nat): Option<seq<Arc>>
    requires e <= |s|
    decreases |s| - e, 1
  {
    if e < |s| && s[e] == '.' then ParsedAt(s, e + 1)
    else if AllSpace(s, e, |s|) then Some([])
    else None
  }

  /** White space, arcs with dots between them, white space; or white space alone, for no arcs. */
  function Parsed(s: string): Option<seq<Arc>> {
    if AllSpace(s, 0, |s|) then Some([]) else ParsedAt(s, SpacesEnd(s, 0))
  }

  /** Where reading stops: in front of what cannot be read, an arc beyond 32 bits included. */
  function StopAt(s: string, i: nat): (e: nat)
    requires i <= |s|
    ensures i <= e <= |s|
    decreases |s| - i, 0
  {
    if i == |s| || !IsDigit(s[i]) || Number(s, i, DigitsEnd(s, i)) > ARC_MAX then i
    else StopBehind(s, DigitsEnd(s, i))
  }

  function StopBehind(s: string, e: nat): (end: nat)
    requires e <= |s|
    ensures e <= end <= |s|
    decreases |s| - e, 1
  {
    if e < |s| && s[e] == '.' then StopAt(s, e + 1) else SpacesEnd(s, e)
  }

  function Stop(s: string): (e: nat)
    ensures e <= |s|
  {
    StopAt(s, SpacesEnd(s, 0))
  }

  /** Text is accepted if and only if reading stops at its end and not behind a dot. */
  lemma StopExact(s: string)
    ensures Parsed(s).Some? <==> Stop(s) == |s| && (s == "" || s[|s| - 1] != '.')
  {
    var i := SpacesEnd(s, 0);
    if i < |s| {
      StopAtExact(s, i);
    }
  }

  lemma {:induction false} StopAtExact(s: string, i: nat)
    requires i <= |s| && (i == |s| ==> s != "" && s[i - 1] == '.')
    ensures ParsedAt(s, i).Some? <==> StopAt(s, i) == |s| && s[|s| - 1] != '.'
    decreases |s| - i
  {
    hide Number, DigitsEnd;
    if i < |s| && IsDigit(s[i]) {
      var e := DigitsEnd(s, i);
      if e < |s| && s[e] == '.' {
        StopAtExact(s, e + 1);
      } else {
        var last := s[|s| - 1];
        assert SpacesEnd(s, e) == |s| ==> IsDigit(last) || IsSpace(last);
      }
    }
  }

  /** The digits at i, looked at from there. */
  lemma SuffixDigits(s: string, i: nat)
    requires i < |s| && IsDigit(s[i])
    ensures var t := s[i..];
            && Start(t) == 0 && i + DigitsEnd(t, 0) == DigitsEnd(s, i) > i
            && Magnitude(t) == Number(s, i, DigitsEnd(s, i))
  {
    hide Number, DigitsEnd;
    var t, e := s[i..], DigitsEnd(s, i);
    NumberMoved(s, i, e, t, 0);
  }

  /** _OID_CAPTURE_ARC: the arc, and where its text ends; none if it exceeds 32 bits. */
  method CaptureArc(s: string, at: nat) returns (arc: Option<Arc>, end: nat)
    requires at < |s| && IsDigit(s[at])
    ensures end <= |s|
    ensures Number(s, at, DigitsEnd(s, at)) > ARC_MAX ==> arc == None
    ensures Number(s, at, DigitsEnd(s, at)) <= ARC_MAX ==>
      arc == Some(Number(s, at, DigitsEnd(s, at))) && end == DigitsEnd(s, at) > at
  {
    hide Number, DigitsEnd;
    SuffixDigits(s, at);
    var code, endp, value := StrToUmax(s[at..]);
    if code in {ExtraData, Complete} && value <= ARC_MAX {
      return Some(value), at + endp;
    }
    return None, at;
  }

  datatype State = LeadSpace | TailSpace | AfterValue | WaitDigits

  /** Where the parser stops if it goes on from lp. */
  ghost function StopFrom(s: string, state: State, lp: nat): nat
    requires lp <= |s|
  {
    match state
    case LeadSpace => StopAt(s, SpacesEnd(s, lp))
    case WaitDigits => StopAt(s, lp)
    case AfterValue => StopBehind(s, lp)
    case TailSpace => SpacesEnd(s, lp)
  }

  /** What the parser knows at lp: the arcs read, and what the rest of the text may add to them. */
  ghost predicate ReadUpTo(s: string, state: State, lp: nat, seen: seq<Arc>) {
    && lp <= |s| && Stop(s) == StopFrom(s, state, lp)
    && match state
       case LeadSpace => AllSpace(s, 0, lp) && seen == []
       case WaitDigits => !AllSpace(s, 0, |s|) && Parsed(s) == Prepended(seen, ParsedAt(s, lp))
       case AfterValue => !AllSpace(s, 0, |s|) && seen != [] && Parsed(s) == Prepended(seen, ParsedBehind(s, lp))
       case TailSpace =>
         && !AllSpace(s, 0, |s|) && seen != []
         && Parsed(s) == Prepended(seen, if AllSpace(s, lp, |s|) then Some([]) else None)
  }

  /** White space: only where a number is not due. */
  lemma ReadSpace(s: string, state: State, lp: nat, seen: seq<Arc>)
    requires ReadUpTo(s, state, lp, seen) && lp < |s| && IsSpace(s[lp])
    ensures state == WaitDigits ==> Parsed(s).None? && Stop(s) == lp
    ensures state != WaitDigits ==>
      ReadUpTo(s, if state == AfterValue then TailSpace else state, lp + 1, seen)
  {
  }

  /** A dot: only behind a number. */
  lemma ReadDot(s: string, state: State, lp: nat, seen: seq<Arc>)
    requires ReadUpTo(s, state, lp, seen) && lp < |s| && s[lp] == '.'
    ensures state != AfterValue ==> Parsed(s).None? && Stop(s) == lp
    ensures state == AfterValue ==> ReadUpTo(s, WaitDigits, lp + 1, seen)
  {
    if state == LeadSpace {
      SpacesRun(s, 0, lp);
    }
  }

  /** A digit: only where a number is due, and then all of the number. */
  lemma ReadDigit(s: string, state: State, lp: nat, seen: seq<Arc>)
    requires ReadUpTo(s, state, lp, seen) && lp < |s| && IsDigit(s[lp])
    ensures state in {TailSpace, AfterValue} ==> Parsed(s).None? && Stop(s) == lp
    ensures state !in {TailSpace, AfterValue} ==>
      var e := DigitsEnd(s, lp);
      var v := Number(s, lp, e);
      if v > ARC_MAX then Parsed(s).None? && Stop(s) == lp else ReadUpTo(s, AfterValue, e, seen + [v])
  {
    hide Number, DigitsEnd;
    if state in {LeadSpace, WaitDigits} {
      if state == LeadSpace {
        SpacesRun(s, 0, lp);
        PrependedNothing(seen, ParsedAt(s, lp));
      }
      var e := DigitsEnd(s, lp);
      if Number(s, lp, e) <= ARC_MAX {
        PrependedMore(seen, Number(s, lp, e), ParsedBehind(s, e));
      }
    }
  }

  lemma ReadOther(s: string, state: State, lp: nat, seen: seq<Arc>)
    requires ReadUpTo(s, state, lp, seen) && lp < |s| && !IsDigit(s[lp]) && s[lp] != '.' && !IsSpace(s[lp])
    ensures Parsed(s).None? && Stop(s) == lp
  {
    if state == LeadSpace {
      SpacesRun(s, 0, lp);
    }
  }

  lemma ReadAll(s: string, state: State, seen: seq<Arc>)
    requires ReadUpTo(s, state, |s|, seen)
    ensures Parsed(s) == if state == WaitDigits then None else Some(seen)
    ensures Stop(s) == |s|
  {
    assert seen + [] == seen;
  }

  /** OBJECT_IDENTIFIER_parse_arcs: the true count, as many arcs as there are slots, and where it stopped. */
  method ParseArcs(s: string, arcs: array<Arc>) returns (count: int, end: nat)
    modifies arcs
    ensures Parsed(s).None? ==> count == -1
    ensures Parsed(s).Some? ==>
      && count == |Parsed(s).value|
      && forall k :: 0 <= k < arcs.Length && k < count ==> arcs[k] == Parsed(s).value[k]
    ensures end == Stop(s)
  {
    hide ReadUpTo, Parsed, Stop, Number, DigitsEnd;
    var state, n, lp: nat := LeadSpace, 0, 0;
    ghost var seen: seq<Arc> := [];
    ReadNothing(s);
    while lp < |s|
      invariant ReadUpTo(s, state, lp, seen) && n == |seen| && lp <= |s|
      invariant forall k :: 0 <= k < arcs.Length && k < n ==> arcs[k] == seen[k]
      decreases |s| - lp
    {
      var c := s[lp];
      if IsSpace(c) {
        ReadSpace(s, state, lp, seen);
        if state == WaitDigits {
          return -1, lp;
        }
        state := if state == AfterValue then TailSpace else state;
        lp := lp + 1;
      } else if c == '.' {
        ReadDot(s, state, lp, seen);
        if state != AfterValue {
          return -1, lp;
        }
        state, lp := WaitDigits, lp + 1;
      } else if IsDigit(c) {
        ReadDigit(s, state, lp, seen);
        if state in {TailSpace, AfterValue} {
          return -1, lp;
        }
        var arc, behind := CaptureArc(s, lp);
        if arc.None? {
          return -1, lp;
        }
        if n < arcs.Length {
          arcs[n] := arc.value;
        }
        seen := seen + [arc.value];
        n, state, lp := n + 1, AfterValue, behind;
      } else {
        ReadOther(s, state, lp, seen);
        return -1, lp;
      }
    }
    ReadAll(s, state, seen);
    return if state == WaitDigits then -1 else n, lp;
  }

  lemma ReadNothing(s: string)
    ensures ReadUpTo(s, LeadSpace, 0, [])
  {
  }

  /** OBJECT_IDENTIFIER__xer_body_decode: ten slots first, then as many as there are arcs. */
  method BodyDecode(st: OBJECT_IDENTIFIER, chunk: string) returns (code: Body)
    modifies st
    ensures code == match Parsed(chunk)
      case None => BrokenEncoding
      case Some(arcs) => if arcs == [] then NotBodyIgnore else if Accepted(arcs) then Consumed else SystemFailure
    ensures st.buf == if code == Consumed then Contents(Parsed(chunk).value) else old(st.buf)
  {
    hide Parsed, Stop, AllGroups;
    var arcs := new Arc[10];
    var count, _ := ParseArcs(chunk, arcs);
    if count < 0 {
      return BrokenEncoding;
    }
    if count == 0 {
      return NotBodyIgnore;
    }
    if count > 10 {
      arcs := new Arc[count];
      var again, _ := ParseArcs(chunk, arcs);
      if again != count {
        return SystemFailure;
      }
    }
    assert arcs[..count] == Parsed(chunk).value;
    var ok := st.SetArcs(arcs[..count]);
    return if ok then Consumed else SystemFailure;
  }

  /** Dotted text parses to its arcs. */
  lemma {:induction false} DottedParses(lead: string, arcs: seq<Arc>)
    requires arcs != []
    ensures ParsedAt(lead + Dotted(arcs), |lead|) == Some(arcs)
    decreases |arcs|
  {
    hide DigitsOf, Number, DigitsEnd;
    var s, d := lead + Dotted(arcs), DigitsOf(arcs[0]);
    var tail := DottedTail(arcs[1..]);
    assert s == lead + d + tail;
    ArcInPlace(lead, arcs[0], tail);
    assert arcs == [arcs[0]] + arcs[1..];
    if arcs[1..] != [] {
      assert tail == "." + Dotted(arcs[1..]);
      DottedParses(lead + d + ".", arcs[1..]);
      assert s == lead + d + "." + Dotted(arcs[1..]);
    } else {
      assert |s| == |lead + d|;
    }
  }

  lemma TailStarts(arcs: seq<Arc>)
    ensures var tail := DottedTail(arcs); tail == "" || tail[0] == '.'
  {
  }

  lemma ArcInPlace(lead: string, arc: Arc, tail: string)
    requires tail == "" || tail[0] == '.'
    ensures var s, d := lead + DigitsOf(arc) + tail, DigitsOf(arc);
            && IsDigit(s[|lead|]) && DigitsEnd(s, |lead|) == |lead + d| && Number(s, |lead|, |lead + d|) == arc
  {
    hide Number, DigitsEnd, DigitsOf;
    var s, d := lead + DigitsOf(arc) + tail, DigitsOf(arc);
    DigitsOfSpells(arc);
    NumberMoved(d, 0, |d|, s, |lead|);
    RunIsMaximal(s, |lead|, |lead + d|);
  }

  /** The text of any arcs parses to the same arcs. */
  lemma ParsedDotted(arcs: seq<Arc>)
    requires arcs != []
    ensures Parsed(Dotted(arcs)) == Some(arcs)
  {
    hide DigitsOf, Number, DigitsEnd, DottedTail, ParsedAt;
    var s := Dotted(arcs);
    DottedParses("", arcs);
    TailStarts(arcs[1..]);
    assert "" + s == s;
    ArcInPlace("", arcs[0], DottedTail(arcs[1..]));
    assert s == "" + DigitsOf(arcs[0]) + DottedTail(arcs[1..]);
    SpacesRun(s, 0, 0);
  }

  /** Three ways: arcs to octets, octets to arcs and to text, text to arcs and to the same octets. */
  method ThreeWay(arcs: seq<Arc>, st: OBJECT_IDENTIFIER, into: OBJECT_IDENTIFIER) returns (back: array<Arc>, text: string)
    requires Accepted(arcs) && into != st
    modifies st, into
    ensures fresh(back) && back[..] == arcs && Parsed(text) == Some(arcs)
    ensures st.buf == into.buf == Contents(arcs)
  {
    hide Contents, Parsed, Dotted, SubIds;
    var ok := st.SetArcs(arcs);
    ArcsOfContents(arcs);
    back := new Arc[|arcs|];
    var count := st.GetArcs(back);
    ok, text := DumpBody(st.buf);
    ParsedDotted(arcs);
    var code := BodyDecode(into, text);
  }

  /** iso(1) member-body(2) us(840). */
  lemma DottedExample()
    ensures Accepted([1, 2, 840]) && Contents([1, 2, 840]) == [0x2A, 0x86, 0x48]
    ensures Dotted([1, 2, 840]) == "1.2.840"
  {
    hide AllGroups;
    var ids: seq<nat> := [42, 840];
    assert [42] + [1, 2, 840][2..] == ids && [42] + [840] == ids && [840] + [] == [840];
    FirstOfGroups(42, [840]);
    FirstOfGroups(840, []);
    SmallGroup(42);
    TwoGroups();
    NoneOfGroups();
    assert [0x2A] + ([0x86, 0x48] + []) == [0x2A, 0x86, 0x48];
    DottedText();
  }

  lemma TwoGroups()
    ensures Groups128(840) == [0x86, 0x48]
  {
    assert ContinuedGroups(6) == [0x86] by {
      assert ContinuedGroups(0) == [];
    }
  }

  lemma DottedText()
    ensures Dotted([1, 2, 840]) == "1.2.840"
  {
    assert [1, 2, 840][1..] == [2, 840] && [2, 840][1..] == [840] && [840][1..] == [];
    assert DigitsOf(1) == "1" && DigitsOf(2) == "2";
    assert DigitsOf(8) == "8" && DigitsOf(84) == "84" && DigitsOf(840) == "840";
    assert DottedTail([]) == "" && DottedTail([840]) == ".840" && DottedTail([2, 840]) == ".2.840";
  }

  /** The first subidentifier holds two arcs, 80 and more of it behind a 2. */
  lemma SplitExamples()
    ensures Split(39) == [0, 39] && Split(40) == [1, 0] && Split(79) == [1, 39]
    ensures Split(80) == [2, 0] && Split(85) == [2, 5]
    ensures Accepted([2, 5]) && Joined([2, 5]) == 85 && Accepted([1, 39]) && !Accepted([1, 40]) && !Accepted([3, 0])
  {
  }
}
