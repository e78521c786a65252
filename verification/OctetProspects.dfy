/** Which inputs that want more can still be completed, and how. */
module OctetProspects {
  import opened Octets
  import opened Words
  import opened BerTag
  import opened BerLength
  import opened BerTree
  import opened BerDecoder
  import opened OctetMachine
  import opened OctetFragments
  import opened OctetTrees
  import opened OctetAccepts
  import opened OctetNesting
  import opened OctetWants
  import opened HeaderProspects

  /** The tag wanted inside a frame at a level; None for any. */
  function Wanted(d: Descriptor, level: nat): (w: Option<nat>)
    ensures forall t :: d.AllowsAt(level, t) <==> Matches(w, t)
  {
    if |d.allTags| == 0 then None else Some(d.allTags[Min(level, |d.allTags| - 1)])
  }

  /** The size of the shortest segment inside a frame at a level, if there are any. */
  function Shortest(d: Descriptor, level: nat): (n: Option<nat>)
    ensures n.Some? ==> n.value >= 2
  {
    match Wanted(d, level)
    case None => Some(2)
    case Some(tag) => if tag < TWO_TO_32 then Some(|SerializedTag(tag)| + 1) else None
  }

  lemma ShortestIs(d: Descriptor, level: nat, t: Tlv)
    requires IsSegment(d, t, level + 1) && d.AllowsAt(level, TagOf(t.id))
    ensures Shortest(d, level).Some? && Shortest(d, level).value <= |Encode(t)|
  {
    hide IsSegment, SerializedTag, TagOf, IsIdentifier, Contents;
    SegmentHeader(d, t, level + 1);
    SerializedTagShortest(t.id);
  }

  /** Some segments are none at all, or at least as long as the shortest. */
  lemma {:induction false} ShortestOfAll(d: Descriptor, level: nat, ts: seq<Tlv>)
    requires AreSegments(d, ts, level)
    ensures Reaches(|EncodeAll(ts)|, 0, Shortest(d, level))
    decreases |ts|
  {
    hide IsSegment, Encode, Shortest;
    if ts != [] {
      ShortestIs(d, level, ts[0]);
    }
  }

  /** n is g, or more by at least x if that is possible at all. */
  predicate Reaches(n: int, g: nat, x: Option<nat>) {
    n == g || (x.Some? && n >= g + x.value)
  }

  function Least(x: Option<nat>, y: Option<nat>): Option<nat> {
    if x.None? then y else if y.None? || x.value <= y.value then x else y
  }

  /** Length octets for no contents, n of them behind the first. */
  function NoLength(constructed: bool, n: nat): (l: seq<Octet>)
    requires n <= 126
    ensures |l| == n + 1
  {
    if constructed && n == 0 then [0] else [0x80 + n] + Repeated(0, n)
  }

  lemma NoLengthIs(constructed: bool, n: nat)
    requires n <= 126
    ensures IsLength(constructed, NoLength(constructed, n)) && LengthOf(constructed, NoLength(constructed, n)) == 0
  {
    ZerosSpellZero(NoLength(constructed, n), n + 1);
  }

  lemma {:induction false} ZerosSpellZero(s: seq<Octet>, j: nat)
    requires 1 <= j <= |s| && forall i :: 1 <= i < j ==> s[i] == 0
    ensures Radix256(s, 1, j) == 0
  {
    if j > 1 {
      ZerosSpellZero(s, j - 1);
    }
  }

  /** A TLV with these identifier octets and no contents, n octets longer than it has to be. */
  function EmptyTlv(id: seq<Octet>, n: nat): Tlv
    requires IsIdentifier(id) && n <= 126
  {
    if IsConstructed(id[0]) then Definite(id, NoLength(true, n), []) else Leaf(id, NoLength(false, n), [])
  }

  lemma EmptyIsSegment(d: Descriptor, id: seq<Octet>, n: nat, level: nat)
    requires IsIdentifier(id) && n <= 126
    ensures var t := EmptyTlv(id, n);
            && IsSegment(d, t, level) && t.id == id && |Encode(t)| == |id| + 1 + n && id <= Encode(t)
            && Flatten(t) == [] && (forall size :: LeavesFit(size, t))
    ensures !OpensWithZeros(Encode(EmptyTlv(id, n)))
  {
    hide IsLength;
    NoLengthIs(IsConstructed(id[0]), n);
    var l := NoLength(IsConstructed(id[0]), n);
    assert EncodeAll([]) == [];
    assert Body(EmptyTlv(id, n)) == l;
    if |id| == 1 {
      assert (id + l)[1] == l[0];
    }
  }

  /** The shortest identifier octets of a constructed segment at a level. */
  function ShortestId(d: Descriptor, level: nat): (id: seq<Octet>)
    requires Shortest(d, level).Some?
    ensures |id| == Shortest(d, level).value - 1
  {
    match Wanted(d, level)
    case None => [0x24]
    case Some(tag) => [SerializedTag(tag)[0] + 32] + SerializedTag(tag)[1..]
  }

  lemma ShortestIdIs(d: Descriptor, level: nat)
    requires Shortest(d, level).Some?
    ensures var id := ShortestId(d, level);
            IsIdentifier(id) && IsConstructed(id[0]) && d.AllowsAt(level, TagOf(id)) && |id| <= 6
  {
    match Wanted(d, level)
    case None =>
    case Some(tag) => ConstructedTag(tag);
  }

  /** A tag spelled in constructed form. */
  lemma ConstructedTag(tag: U32)
    ensures |SerializedTag(tag)| <= 6 && SerializedTag(tag)[0] + 32 < 256
    ensures var id := [SerializedTag(tag)[0] + 32] + SerializedTag(tag)[1..];
            IsIdentifier(id) && IsConstructed(id[0]) && TagOf(id) == tag
  {
    hide Radix128, Groups128;
    var tclass, tval := tag % 4, tag / 4;
    var first := SerializedTag(tag)[0];
    FirstOctet(tclass, if tval <= 30 then tval else 31);
    if tval > 30 {
      GroupsAtMost5(tval);
      Groups128Value(tval);
      GroupsBehindEscape(first + 32, Groups128(tval));
      assert SerializedTag(tag)[1..] == Groups128(tval);
    }
  }

  lemma FirstOctet(tclass: nat, low: nat)
    requires tclass < 4 && low < 32
    ensures var o := tclass * 64 + low + 32;
            o < 256 && o % 32 == low && o / 64 == tclass && o / 32 % 2 == 1
  {
  }

  /** Empty segments that take n octets at a level. */
  function Filler(d: Descriptor, level: nat, n: nat): seq<Tlv>
    requires Reaches(n, 0, Shortest(d, level))
    decreases n
  {
    if n == 0 then [] else
    ShortestIdIs(d, level);
    var least := Shortest(d, level).value;
    if n - least <= 126 then [EmptyTlv(ShortestId(d, level), n - least)]
    else [EmptyTlv(ShortestId(d, level), 0)] + Filler(d, level, n - least)
  }

  /** Segments that may stand inside any frame at a level, with n octets and no contents. */
  ghost predicate Fills(d: Descriptor, level: nat, ts: seq<Tlv>, n: nat) {
    && AreSegments(d, ts, level) && NoneIsEndOfContents(ts)
    && |EncodeAll(ts)| == n && FlattenAll(ts) == [] && (forall size :: AllLeavesFit(size, ts))
  }

  lemma {:induction false} FillerFills(d: Descriptor, level: nat, n: nat)
    requires Reaches(n, 0, Shortest(d, level))
    ensures Fills(d, level, Filler(d, level, n), n)
    decreases n
  {
    hide IsSegment, IsIdentifier, Encode, EmptyTlv, ShortestId, NoLength;
    if n > 0 {
      ShortestIdIs(d, level);
      var least := Shortest(d, level).value;
      var id := ShortestId(d, level);
      if n - least <= 126 {
        EmptyIsSegment(d, id, n - least, level + 1);
        assert Fills(d, level, [], 0);
        assert Filler(d, level, n) == [EmptyTlv(id, n - least)] + [];
        FillsOne(d, level, EmptyTlv(id, n - least), [], 0);
      } else {
        EmptyIsSegment(d, id, 0, level + 1);
        FillerFills(d, level, n - least);
        FillsOne(d, level, EmptyTlv(id, 0), Filler(d, level, n - least), n - least);
      }
    }
  }

  lemma FillsOne(d: Descriptor, level: nat, t: Tlv, ts: seq<Tlv>, n: nat)
    requires IsSegment(d, t, level + 1) && d.AllowsAt(level, TagOf(t.id)) && !OpensWithZeros(Encode(t))
    requires Flatten(t) == [] && (forall size :: LeavesFit(size, t)) && Fills(d, level, ts, n)
    ensures Fills(d, level, [t] + ts, |Encode(t)| + n)
  {
    hide IsSegment, Encode;
    var all := [t] + ts;
    assert all[0] == t && all[1..] == ts;
    AllButFirst(t, ts);
    EncodedFirst(all);
    forall size: nat
      ensures AllLeavesFit(size, all)
    {
      assert LeavesFit(size, t) && AllLeavesFit(size + |Flatten(t)|, ts);
    }
  }

  /**
   * The frames of a stack can be completed, with what is still to come inside the frame on top measuring g octets or at
   * least x more. An indefinite frame needs two octets more, and is free to take more segments; a definite one has to
   * come out even, where the indefinite frames open directly inside it help.
   */
  predicate Closable(d: Descriptor, stack: seq<Frame>, g: nat, x: Option<nat>)
    decreases |stack|
  {
    |stack| == 0 || (
      var k := |stack| - 1;
      var f, y := stack[k], Least(x, Shortest(d, k));
      if f.wantNulls then Closable(d, stack[..k], f.got + g + 2, y)
      else f.left >= 0 && Reaches(f.left, g, y) && Closable(d, stack[..k], f.got + f.left, None))
  }

  lemma ClosableOn(d: Descriptor, stack: seq<Frame>, f: Frame, g: nat, x: Option<nat>)
    ensures Closable(d, stack + [f], g, x)
       <==> var y := Least(x, Shortest(d, |stack|));
            if f.wantNulls then Closable(d, stack, f.got + g + 2, y)
            else f.left >= 0 && Reaches(f.left, g, y) && Closable(d, stack, f.got + f.left, None)
  {
    assert (stack + [f])[..|stack|] == stack;
  }

  /** Where segments complete the frames, the walk down the stack says so. */
  lemma {:induction false} ClosesClosable(
      d: Descriptor, stack: seq<Frame>, pending: seq<seq<Tlv>>, n: nat, g: nat, x: Option<nat>)
    requires |pending| == |stack| && Closes(d, stack, pending, n) && Reaches(n, g, x)
    ensures Closable(d, stack, g, x)
    decreases |stack|
  {
    hide AreSegments, NoneIsEndOfContents, EncodeAll, Shortest;
    if |stack| > 0 {
      var k := |stack| - 1;
      var f, ts := stack[k], pending[k];
      ShortestOfAll(d, k, ts);
      var y := Least(x, Shortest(d, k));
      if f.wantNulls {
        ClosesClosable(d, stack[..k], pending[..k], Size(f, ts, n), f.got + g + 2, y);
      } else {
        ClosesClosable(d, stack[..k], pending[..k], Size(f, ts, n), f.got + f.left, None);
      }
    }
  }

  /** Nothing pending but empty segments. */
  ghost predicate AllEmpty(pending: seq<seq<Tlv>>) {
    Leaves(pending) == [] && forall size: nat :: PendingFits(size, pending)
  }

  lemma AllEmptyOn(pending: seq<seq<Tlv>>, ts: seq<Tlv>)
    requires AllEmpty(pending) && FlattenAll(ts) == [] && (forall size: nat :: AllLeavesFit(size, ts))
    ensures AllEmpty(pending + [ts])
  {
    TailsTop([], Frame(0, 0, false), [], []);
    assert (pending + [ts])[..|pending|] == pending;
    forall size: nat
      ensures PendingFits(size, pending + [ts])
    {
      PendingFitsTop(size, pending, ts);
    }
  }

  /** What lies below a frame leaves it the room that it needs. */
  lemma RoomBelow(d: Descriptor, stack: seq<Frame>, pending: seq<seq<Tlv>>, f: Frame, n: nat)
    requires |pending| == |stack| && Closes(d, stack, pending, n) && Nested(stack + [f])
    ensures f.wantNulls ==> f.left == -1 || f.left >= n - f.got
  {
    NestedBelow(stack, f);
  }

  /** Of h octets in a frame, those still to come inside it and empty segments for the rest. */
  lemma FillUp(d: Descriptor, level: nat, h: nat, g: nat, x: Option<nat>) returns (n: nat, ts: seq<Tlv>)
    requires Reaches(h, g, Least(x, Shortest(d, level)))
    ensures n <= h && Reaches(n, g, x) && Fills(d, level, ts, h - n)
  {
    hide Shortest, Fills;
    n := if Reaches(h, g, x) then h else g;
    FillerFills(d, level, h - n);
    ts := Filler(d, level, h - n);
  }

  lemma TopFills(d: Descriptor, stack: seq<Frame>, f: Frame, pending: seq<seq<Tlv>>, ts: seq<Tlv>, h: nat, n: nat)
    requires |pending| == |stack| && AllEmpty(pending) && n <= h && Fills(d, |stack|, ts, h - n)
    requires Closes(d, stack, pending, f.got + h + if f.wantNulls then 2 else 0)
    requires if f.wantNulls then f.left == -1 || f.left >= h + 2 else f.left == h
    ensures Closes(d, stack + [f], pending + [ts], n) && AllEmpty(pending + [ts])
  {
    hide Closes, AllEmpty, AreSegments, NoneIsEndOfContents;
    ClosesOn(d, stack, f, pending, ts, n);
    AllEmptyOn(pending, ts);
  }

  /** And conversely: empty segments, chosen from the definite frames upwards, complete them. */
  lemma {:induction false} ClosableCloses(d: Descriptor, stack: seq<Frame>, g: nat, x: Option<nat>)
      returns (n: nat, pending: seq<seq<Tlv>>)
    requires Nested(stack) && Closable(d, stack, g, x)
    ensures Reaches(n, g, x) && |pending| == |stack| && Closes(d, stack, pending, n) && AllEmpty(pending)
    decreases |stack|
  {
    hide Shortest, Closes, Nested, Fills, AllEmpty;
    if |stack| == 0 {
      n, pending := g, [];
      NothingCloses(d, stack, pending, n);
    } else {
      var k := |stack| - 1;
      var below, f, y := stack[..k], stack[k], Least(x, Shortest(d, k));
      assert stack == below + [f];
      NestedBelow(below, f);
      var m, h, rest, ts;
      if f.wantNulls {
        m, rest := ClosableCloses(d, below, f.got + g + 2, y);
        h := m - f.got - 2;
        RoomBelow(d, below, rest, f, m);
      } else {
        m, rest := ClosableCloses(d, below, f.got + f.left, None);
        h := f.left;
      }
      n, ts := FillUp(d, k, h, g, x);
      TopFills(d, below, f, rest, ts, h, n);
      pending := rest + [ts];
    }
  }

  lemma NothingCloses(d: Descriptor, stack: seq<Frame>, pending: seq<seq<Tlv>>, n: nat)
    requires stack == [] && pending == []
    ensures Closes(d, stack, pending, n) && AllEmpty(pending)
  {
  }

  /** Segments and end-of-contents octets that complete the frame on top empty it. */
  lemma TailRun(d: Descriptor, c: Config, ts: seq<Tlv>, rest: seq<Octet>)
    requires c.Valid() && c.phase == Expecting && |c.stack| > 0
    requires ClosesTop(d, c.Top(), ts, |c.stack| - 1, 0) && AllLeavesFit(|c.buf|, ts)
    ensures var below := c.(stack := c.stack[..|c.stack| - 1]);
            var done := Emptied(below, Size(c.Top(), ts, 0), FlattenAll(ts));
            && done.Valid()
            && Run(d, c, Tail(c.Top(), ts) + rest).code == Run(d, done, rest).code
  {
    hide Run, Moved, EncodeAll, FlattenAll, AllLeavesFit, AreSegments, NoneIsEndOfContents;
    var k, f := |c.stack| - 1, c.Top();
    var below := c.stack[..k];
    var more := (if f.wantNulls then END_OF_CONTENTS else []) + rest;
    SegmentsRun(d, c, ts, more);
    assert Tail(f, ts) + rest == EncodeAll(ts) + more;
    var full := Absorbed(c, |EncodeAll(ts)|, FlattenAll(ts));
    assert full.stack[..k] == below && c.stack == below + [f];
    if f.wantNulls {
      EndOfContentsEmpties(d, c.(stack := below), full, Size(f, ts, 0), FlattenAll(ts), rest);
    } else {
      assert more == rest;
      assert full == Emptied(c.(stack := below), Size(f, ts, 0), FlattenAll(ts));
    }
  }

  lemma ClosesAbsorbed(d: Descriptor, c: Config, g: nat, b: seq<Octet>, pending: seq<seq<Tlv>>)
    requires c.Valid() && |c.stack| > 0 && |pending| == |c.stack| && Closes(d, c.stack, pending, g)
    ensures HasRoom(c, g) && Closes(d, Absorbed(c, g, b).stack, pending, 0)
    ensures Tails(Absorbed(c, g, b).stack, pending) == Tails(c.stack, pending)
  {
    hide Closes, Tails, AreSegments, NoneIsEndOfContents, EncodeAll;
    var k := |c.stack| - 1;
    var below, f, rest, ts := c.stack[..k], c.Top(), pending[..k], pending[k];
    var after := Absorbed(c, g, b).Top();
    assert c.stack == below + [f] && pending == rest + [ts] && Absorbed(c, g, b).stack == below + [after];
    ClosesOn(d, below, f, rest, ts, g);
    ClosesOn(d, below, after, rest, ts, 0);
    TailsTop(below, f, rest, ts);
    TailsTop(below, after, rest, ts);
    assert Size(f, ts, g) == Size(after, ts, 0);
  }

  /** Whatever completes the frames and fits the buffer is accepted. */
  lemma {:induction false} TailsRun(d: Descriptor, c: Config, pending: seq<seq<Tlv>>, rest: seq<Octet>)
    requires c.Valid() && c.phase == Expecting && |c.stack| > 0 && |pending| == |c.stack|
    requires Closes(d, c.stack, pending, 0) && PendingFits(|c.buf|, pending)
    ensures Run(d, c, Tails(c.stack, pending) + rest).code == RC_OK
    decreases |c.stack|, 0
  {
    hide Run, Closes, Tails, Size, Tail, ClosesTop, PendingFits, Emptied;
    var k := |c.stack| - 1;
    var stack, f, later, ts := c.stack[..k], c.Top(), pending[..k], pending[k];
    assert c.stack == stack + [f] && pending == later + [ts];
    ClosesOn(d, stack, f, later, ts, 0);
    TailsTop(stack, f, later, ts);
    PendingFitsTop(|c.buf|, later, ts);
    var more := Tails(stack, later) + rest;
    assert Tails(c.stack, pending) + rest == Tail(f, ts) + more;
    TailRun(d, c, ts, more);
    EmptiedRun(d, c.(stack := stack), Size(f, ts, 0), FlattenAll(ts), later, rest);
  }

  /** With a frame of g octets finished on top of them. */
  lemma {:induction false} EmptiedRun(
      d: Descriptor, c: Config, g: nat, b: seq<Octet>, pending: seq<seq<Tlv>>, rest: seq<Octet>)
    requires c.Valid() && c.phase == Expecting && |pending| == |c.stack|
    requires Closes(d, c.stack, pending, g) && PendingFits(|c.buf| + |b|, pending)
    ensures Emptied(c, g, b).Valid() && Run(d, Emptied(c, g, b), Tails(c.stack, pending) + rest).code == RC_OK
    decreases |c.stack|, 1
  {
    hide Run, Closes, Tails, PendingFits, Absorbed, Emptied;
    if |c.stack| == 0 {
      LastPopRun(d, c, g, b, Tails(c.stack, pending) + rest);
    } else {
      ClosesAbsorbed(d, c, g, b, pending);
      PopRun(d, c, g, b, Tails(c.stack, pending) + rest);
      AbsorbedShape(c, g, b);
      TailsRun(d, Absorbed(c, g, b), pending, rest);
    }
  }

  lemma AbsorbedShape(c: Config, g: nat, b: seq<Octet>)
    requires |c.stack| > 0
    ensures var a := Absorbed(c, g, b); |a.stack| == |c.stack| && a.phase == c.phase && a.buf == c.buf + b
  {
  }

  /** What is accepted with frames open is exactly what completes them and fits the buffer, with anything behind. */
  lemma TailsExact(d: Descriptor, c: Config, s: seq<Octet>)
    requires c.Valid() && c.phase == Expecting && |c.stack| > 0
    ensures Run(d, c, s).code == RC_OK
       <==> exists pending :: |pending| == |c.stack| && Closes(d, c.stack, pending, 0)
                              && PendingFits(|c.buf|, pending) && Tails(c.stack, pending) <= s
  {
    hide Run, Closes, Tails, PendingFits;
    if Run(d, c, s).code == RC_OK {
      var pending := Accepts(d, c, s);
    }
    forall pending: seq<seq<Tlv>> | |pending| == |c.stack| && Closes(d, c.stack, pending, 0)
                     && PendingFits(|c.buf|, pending) && Tails(c.stack, pending) <= s
      ensures Run(d, c, s).code == RC_OK
    {
      var front := Tails(c.stack, pending);
      TailsRun(d, c, pending, s[|front|..]);
      assert s == front + s[|front|..];
    }
  }

  /** Contents of a definite length at a level, behind `size` octets in the buffer. */
  predicate HasContents(d: Descriptor, size: nat, level: nat, constructed: bool, len: nat) {
    if constructed then Reaches(len, 0, Shortest(d, level)) else len == 0 || AppendFits(size + len)
  }

  /**
   * With `kept` of a header there, the segment it begins, and others behind it, may take n octets: any number from the
   * least one on, unless there are length octets already, which bind it.
   */
  predicate Measures(d: Descriptor, want: Option<nat>, size: nat, level: nat, kept: seq<Octet>, n: nat)
    requires kept != []
  {
    match FetchedTag(kept)
    case More => TagRest(kept, want).Some? && n >= |kept| + |TagRest(kept, want).value| + 1
    case Bad => false
    case Got(tag, tl) =>
      Matches(want, tag) &&
      (FetchedIsIdentifier(kept);
       if tl == |kept| then n >= |kept| + 1
       else n >= HeaderSize(kept, tl) && LengthLeads(d, size, level, kept, tl, n - HeaderSize(kept, tl)))
  }

  /** The size of a header with a long length. */
  function HeaderSize(kept: seq<Octet>, tl: nat): nat
    requires tl < |kept|
  {
    tl + 1 + if kept[tl] > 0x80 then kept[tl] - 0x80 else 0
  }

  /** The length octets can become those of this length, and there can be contents for it. */
  predicate LengthLeads(d: Descriptor, size: nat, level: nat, kept: seq<Octet>, tl: nat, len: nat)
    requires tl < |kept|
  {
    CanBecome(kept[tl..], len) && HasContents(d, size, level, IsConstructed(kept[0]), len)
  }

  lemma ContentsAre(d: Descriptor, size: nat, level: nat, t: Tlv)
    requires IsSegment(d, t, level) && LeavesFit(size, t) && !t.Indefinite?
    ensures HasContents(d, size, level, IsConstructed(t.id[0]), |Contents(t)|)
  {
    hide Shortest, AreSegments, EncodeAll;
    if t.Definite? {
      ShortestOfAll(d, level, t.items);
    }
  }

  /** A segment that begins with kept measures up. */
  lemma SegmentMeasures(
      d: Descriptor, want: Option<nat>, size: nat, level: nat, kept: seq<Octet>, t: Tlv, rest: seq<Octet>)
    requires IsSegment(d, t, level) && Matches(want, TagOf(t.id)) && LeavesFit(size, t)
    requires kept != [] && HeaderIn(kept).More? && kept <= Encode(t) + rest
    ensures Measures(d, want, size, level, kept, |Encode(t)|)
  {
    hide IsSegment, Encode, Contents, LengthOctets, FetchedTag, FetchedLength, HeaderIn, TagRest, LeavesFit, HasContents,
         CanBecome;
    SegmentHeader(d, t, level);
    var id, l := t.id, LengthOctets(t);
    var h := id + l;
    BreaksOff(kept, id, l, Contents(t) + rest);
    assert kept == h[..|kept|];
    if |kept| < |id| {
      assert kept == id[..|kept|];
      CutIdentifierWantsMore(id, |kept|);
      TagRestLeast(kept, id, want);
    } else {
      var some := kept[|id|..];
      assert kept == id + some && some == l[..|some|];
      FetchReadsIdentifier(id, some);
      if some != [] {
        BecomesLength(IsConstructed(id[0]), some, l);
        ContentsAre(d, size, level, t);
      }
    }
  }

  /** Part of a header is less than all of it. */
  lemma BreaksOff(kept: seq<Octet>, id: seq<Octet>, l: seq<Octet>, rest: seq<Octet>)
    requires IsIdentifier(id) && IsLength(IsConstructed(id[0]), l)
    requires HeaderIn(kept).More? && kept <= id + l + rest
    ensures |kept| < |id + l| && kept <= id + l
  {
    hide HeaderIn, IsIdentifier, IsLength, TagOf, LengthOf;
    if |kept| >= |id + l| {
      var more := kept[|id + l|..];
      assert kept == id + l + more;
      HeaderInReads(id, l, more);
      assert false;
    }
  }

  /** A segment with these identifier and length octets. */
  lemma BuiltSegment(d: Descriptor, size: nat, level: nat, id: seq<Octet>, l: seq<Octet>, len: nat) returns (t: Tlv)
    requires IsIdentifier(id) && IsLength(IsConstructed(id[0]), l) && LengthOf(IsConstructed(id[0]), l) == len
    requires HasContents(d, size, level, IsConstructed(id[0]), len)
    ensures IsSegment(d, t, level) && t.id == id && LeavesFit(size, t)
    ensures id + l <= Encode(t) && |Encode(t)| == |id| + |l| + len
  {
    hide IsLength, LengthOf, Shortest, AppendFits, Encode;
    if IsConstructed(id[0]) {
      FillerFills(d, level, len);
      t := Definite(id, l, Filler(d, level, len));
      assert Contents(t) == EncodeAll(t.items);
    } else {
      t := Leaf(id, l, Repeated(0, len));
    }
    SegmentHeader(d, t, level);
    assert LengthOctets(t) == l && |Contents(t)| == len;
  }

  /** A segment that begins with kept, and room for others behind it: none, or enough for any. */
  lemma MeasuredSegment(d: Descriptor, want: Option<nat>, size: nat, level: nat, kept: seq<Octet>, n: nat)
      returns (t: Tlv)
    requires kept != [] && HeaderIn(kept).More? && Measures(d, want, size, level, kept, n)
    ensures IsSegment(d, t, level) && Matches(want, TagOf(t.id)) && LeavesFit(size, t)
    ensures kept <= Encode(t) && !OpensWithZeros(Encode(t))
    ensures |Encode(t)| == n || |Encode(t)| + 127 <= n
  {
    hide FetchedTag, FetchedLength, IsSegment, Encode, TagRest, HasContents, CanBecome, IsIdentifier, EmptyTlv, LeavesFit;
    if FetchedTag(kept).More? {
      TagRestIs(kept, want);
      t := RoundedUp(d, kept + TagRest(kept, want).value, level, n);
    } else {
      FetchedIsIdentifier(kept);
      var tl := FetchedTag(kept).used;
      var id := kept[..tl];
      if tl == |kept| {
        assert id == kept;
        t := RoundedUp(d, id, level, n);
      } else {
        t := LongSegment(d, size, level, kept, tl, n - HeaderSize(kept, tl));
      }
    }
  }

  lemma RoundedUp(d: Descriptor, id: seq<Octet>, level: nat, n: nat) returns (t: Tlv)
    requires IsIdentifier(id) && n >= |id| + 1
    ensures IsSegment(d, t, level) && t.id == id && id <= Encode(t) && !OpensWithZeros(Encode(t))
    ensures forall size: nat :: LeavesFit(size, t)
    ensures |Encode(t)| == n || |Encode(t)| + 127 <= n
  {
    hide IsIdentifier, IsSegment, Encode, EmptyTlv, LeavesFit;
    var more := n - |id| - 1;
    t := EmptyTlv(id, if more <= 126 then more else 0);
    EmptyIsSegment(d, id, if more <= 126 then more else 0, level);
  }

  lemma LongSegment(d: Descriptor, size: nat, level: nat, kept: seq<Octet>, tl: nat, len: nat) returns (t: Tlv)
    requires tl < |kept| && FetchedTag(kept).Got? && FetchedTag(kept).used == tl
    requires LengthLeads(d, size, level, kept, tl, len)
    ensures IsSegment(d, t, level) && t.id == kept[..tl] && IsIdentifier(t.id) && LeavesFit(size, t)
    ensures kept <= Encode(t) && !OpensWithZeros(Encode(t)) && |Encode(t)| == HeaderSize(kept, tl) + len
  {
    hide FetchedTag, FetchedLength, IsSegment, Encode, HasContents, IsIdentifier, LeavesFit;
    FetchedIsIdentifier(kept);
    LongTagOpens(kept, tl);
    var id, l := kept[..tl], kept[tl..];
    var rest := LowOctets(len, l[0] - 0x80 - (|l| - 1));
    CanBecomeIs(IsConstructed(id[0]), l, len);
    t := BuiltSegment(d, size, level, id, l + rest, len);
    assert kept == id + l && kept + rest == id + (l + rest);
  }

  /** With less inside the frame on top, by as much as another segment may take, the frames can be completed too. */
  lemma ClosableShorter(d: Descriptor, stack: seq<Frame>, n: nat, m: nat)
    requires |stack| > 0 && Nested(stack) && Closable(d, stack, n, None)
    requires Reaches(n, m, Shortest(d, |stack| - 1))
    ensures Closable(d, stack, m, None)
  {
    hide Shortest, Closes, Nested;
    var k := |stack| - 1;
    var h, pending := ClosableCloses(d, stack, n, None);
    ClosesClosable(d, stack, pending, n, m, Shortest(d, k));
    assert Least(Shortest(d, k), Shortest(d, k)) == Least(None, Shortest(d, k));
  }

  /** From a number on, whatever is between. */
  lemma ClosableFrom(d: Descriptor, stack: seq<Frame>, m: nat)
    requires Nested(stack)
    ensures Closable(d, stack, m, Some(1)) <==> exists n :: n >= m && Closable(d, stack, n, None)
  {
    hide Closable, Closes, Nested;
    if Closable(d, stack, m, Some(1)) {
      var n, pending := ClosableCloses(d, stack, m, Some(1));
      ClosesClosable(d, stack, pending, n, n, None);
      assert n >= m && Closable(d, stack, n, None);
    }
    forall n | n >= m && Closable(d, stack, n, None)
      ensures Closable(d, stack, m, Some(1))
    {
      var h, pending := ClosableCloses(d, stack, n, None);
      ClosesClosable(d, stack, pending, n, m, Some(1));
    }
  }

  /** A segment in front of what completes the frames around it. */
  lemma SegmentFirst(d: Descriptor, c: Config, t: Tlv, pending: seq<seq<Tlv>>) returns (all: seq<seq<Tlv>>)
    requires |c.stack| > 0 && IsSegment(d, t, |c.stack|) && d.AllowsAt(|c.stack| - 1, TagOf(t.id))
    requires LeavesFit(|c.buf|, t) && !OpensWithZeros(Encode(t))
    requires |pending| == |c.stack| && Closes(d, c.stack, pending, |Encode(t)|) && AllEmpty(pending)
    ensures |all| == |c.stack| && Closes(d, c.stack, all, 0) && PendingFits(|c.buf|, all)
    ensures Encode(t) <= Tails(c.stack, all)
  {
    hide Closes, Tails, Encode, Flatten, IsSegment, LeavesFit, PendingFits;
    var k := |c.stack| - 1;
    var stack, f, rest, ts := c.stack[..k], c.Top(), pending[..k], pending[k];
    var row := [t] + ts;
    assert c.stack == stack + [f] && pending == rest + [ts] && row[0] == t && row[1..] == ts;
    all := rest + [row];
    ClosesOn(d, stack, f, rest, ts, |Encode(t)|);
    ClosesOn(d, stack, f, rest, row, 0);
    TailsTop(stack, f, rest, row);
    AllButFirst(t, ts);
    PendingFitsTop(|c.buf| + |Flatten(t)|, rest, ts);
    PendingFitsTop(|c.buf|, rest, row);
    assert Tail(f, row) == Encode(t) + Tail(f, ts);
    assert Size(f, row, 0) == Size(f, ts, |Encode(t)|);
  }

  /** How much inside the frame on top brings out even the definite frame it lies in, if there is one. */
  function Even(stack: seq<Frame>): Option<int>
    decreases |stack|
  {
    if |stack| == 0 then None else
    var k := |stack| - 1;
    if !stack[k].wantNulls then Some(stack[k].left) else
    match Even(stack[..k])
    case None => None
    case Some(n) => Some(n - stack[k].got - 2)
  }

  /** Less will do, unless it comes out even. */
  lemma {:induction false} ClosableLess(d: Descriptor, stack: seq<Frame>, n: nat, m: nat, x: Option<nat>)
    requires m <= n && Closable(d, stack, n, x)
    ensures Closable(d, stack, m, x) || Even(stack) == Some(n)
    decreases |stack|
  {
    if |stack| > 0 {
      var k := |stack| - 1;
      var f, y := stack[k], Least(x, Shortest(d, k));
      if f.wantNulls {
        ClosableLess(d, stack[..k], f.got + n + 2, f.got + m + 2, y);
      }
    }
  }

  /** The least length from len on that APPEND takes behind `size` octets. */
  function NextFit(size: nat, len: nat): nat {
    if len == 0 || AppendFits(size + len) then len else (size + len) / TWO_TO_32 * TWO_TO_32 + TWO_TO_32 - size
  }

  lemma NextFitIs(size: nat, len: nat, n: nat)
    requires len <= n && (n == 0 || AppendFits(size + n))
    ensures len <= NextFit(size, len) <= n && (NextFit(size, len) == 0 || AppendFits(size + NextFit(size, len)))
  {
    if NextFit(size, len) != len {
      var q := (size + len) / TWO_TO_32;
      assert AsInt32((q + 1) * TWO_TO_32) == 0;
      QuotientGrows(size + len, size + n);
      assert (size + n) / TWO_TO_32 >= q + 1;
    }
  }

  lemma QuotientGrows(x: nat, y: nat)
    requires x <= y
    ensures !AppendFits(x) && AppendFits(y) ==> x / TWO_TO_32 < y / TWO_TO_32
  {
    assert x == x / TWO_TO_32 * TWO_TO_32 + x % TWO_TO_32 && y == y / TWO_TO_32 * TWO_TO_32 + y % TWO_TO_32;
  }

  /** The least length that the octets can become and for which there can be contents, if there is any. */
  function FirstLength(size: nat, kept: seq<Octet>, tl: nat): nat
    requires tl < |kept|
  {
    var least := LeastLength(kept[tl..]);
    if IsConstructed(kept[0]) then least else NextFit(size, least)
  }

  lemma FirstLengthIs(d: Descriptor, size: nat, level: nat, kept: seq<Octet>, tl: nat, len: nat)
    requires tl < |kept| && LengthLeads(d, size, level, kept, tl, len) && |kept| - tl - 1 + 0x80 < kept[tl]
    ensures FirstLength(size, kept, tl) <= len && LengthLeads(d, size, level, kept, tl, FirstLength(size, kept, tl))
  {
    hide CanBecome, NextFit, LeastLength, AppendFits, Shortest;
    var l := kept[tl..];
    LeastLengthIs(l, len, FirstLength(size, kept, tl));
    if !IsConstructed(kept[0]) {
      NextFitIs(size, LeastLength(l), len);
    } else if Shortest(d, level).Some? {
      ShortestIdIs(d, level);
    }
  }

  /** With this length the frames can be completed. */
  predicate LengthHopeful(d: Descriptor, c: Config, kept: seq<Octet>, tl: nat, len: nat)
    requires tl < |kept|
  {
    && LengthLeads(d, |c.buf|, |c.stack|, kept, tl, len)
    && Closable(d, c.stack, HeaderSize(kept, tl) + len, None)
  }

  /** If any length will do, the first one does, or the one that comes out even. */
  lemma TwoLengths(d: Descriptor, c: Config, kept: seq<Octet>, tl: nat, len: nat)
    requires tl < |kept| && |kept| - tl - 1 + 0x80 < kept[tl] && LengthHopeful(d, c, kept, tl, len)
    ensures LengthHopeful(d, c, kept, tl, FirstLength(|c.buf|, kept, tl))
            || Even(c.stack) == Some(HeaderSize(kept, tl) + len)
  {
    hide LengthLeads, Closable, Even, FirstLength;
    var first := FirstLength(|c.buf|, kept, tl);
    FirstLengthIs(d, |c.buf|, |c.stack|, kept, tl, len);
    ClosableLess(d, c.stack, HeaderSize(kept, tl) + len, HeaderSize(kept, tl) + first, None);
  }

  /**
   * There is hope for a frame that waits, with `kept` of a header there: the frames can be completed around the segment
   * it begins, or around the end of the contents.
   */
  predicate Hopeful(d: Descriptor, c: Config, kept: seq<Octet>)
    requires |c.stack| > 0
  {
    var k := |c.stack| - 1;
    if kept == [] then Closable(d, c.stack, 0, None) else
    HasRoom(c, |kept|) && (
      || (kept == [0] && c.Top().wantNulls && Closable(d, c.stack[..k], c.Top().got + 2, None))
      || match FetchedTag(kept)
         case Bad => false
         case More =>
           var rest := TagRest(kept, Wanted(d, k));
           rest.Some? && Closable(d, c.stack, |kept| + |rest.value| + 1, Some(1))
         case Got(tag, tl) =>
           d.AllowsAt(k, tag) &&
           (FetchedIsIdentifier(kept);
            if tl == |kept| then Closable(d, c.stack, tl + 1, Some(1))
            else
              || LengthHopeful(d, c, kept, tl, FirstLength(|c.buf|, kept, tl))
              || (Even(c.stack).Some? && Even(c.stack).value >= HeaderSize(kept, tl)
                  && LengthHopeful(d, c, kept, tl, Even(c.stack).value - HeaderSize(kept, tl)))))
  }

  lemma HopefulMeasures(d: Descriptor, c: Config, kept: seq<Octet>)
    requires |c.stack| > 0 && Nested(c.stack) && kept != [] && HeaderIn(kept).More?
    ensures Hopeful(d, c, kept) <==> (HasRoom(c, |kept|) && (
      || (kept == [0] && c.Top().wantNulls && Closable(d, c.stack[..|c.stack| - 1], c.Top().got + 2, None))
      || exists n: nat ::
           Measures(d, Wanted(d, |c.stack| - 1), |c.buf|, |c.stack|, kept, n) && Closable(d, c.stack, n, None)))
  {
    hide Closable, Nested, FetchedTag, FetchedLength, TagRest, LengthLeads, Wanted, Even, FirstLength;
    var k := |c.stack| - 1;
    match FetchedTag(kept)
    case Bad =>
    case More =>
      var rest := TagRest(kept, Wanted(d, k));
      if rest.Some? {
        ClosableFrom(d, c.stack, |kept| + |rest.value| + 1);
      }
    case Got(tag, tl) =>
      FetchedIsIdentifier(kept);
      ClosableFrom(d, c.stack, tl + 1);
      if tl < |kept| && d.AllowsAt(k, tag) {
        LongLength(IsConstructed(kept[0]), kept[tl..]);
        LengthMeasures(d, c, kept, tl);
      }
  }

  /** With length octets there, the numbers of octets are those of the lengths. */
  lemma LengthMeasures(d: Descriptor, c: Config, kept: seq<Octet>, tl: nat)
    requires tl < |kept| && FetchedTag(kept).Got? && FetchedTag(kept).used == tl && |c.stack| > 0
    requires |kept| - tl - 1 + 0x80 < kept[tl] && Matches(Wanted(d, |c.stack| - 1), FetchedTag(kept).value)
    ensures LengthHopeful(d, c, kept, tl, FirstLength(|c.buf|, kept, tl))
            || (Even(c.stack).Some? && Even(c.stack).value >= HeaderSize(kept, tl)
                && LengthHopeful(d, c, kept, tl, Even(c.stack).value - HeaderSize(kept, tl)))
       <==> exists n: nat ::
              Measures(d, Wanted(d, |c.stack| - 1), |c.buf|, |c.stack|, kept, n) && Closable(d, c.stack, n, None)
  {
    hide Closable, FetchedTag, FetchedLength, TagRest, LengthLeads, Wanted, Even, FirstLength, HeaderSize;
    var h, first := HeaderSize(kept, tl), FirstLength(|c.buf|, kept, tl);
    if LengthHopeful(d, c, kept, tl, first) {
      LengthMeasured(d, c, kept, tl, first);
    } else if Even(c.stack).Some? && Even(c.stack).value >= h {
      LengthMeasured(d, c, kept, tl, Even(c.stack).value - h);
    }
    forall n: nat | Measures(d, Wanted(d, |c.stack| - 1), |c.buf|, |c.stack|, kept, n) && Closable(d, c.stack, n, None)
      ensures LengthHopeful(d, c, kept, tl, first) || Even(c.stack) == Some(n)
      ensures n >= h && LengthHopeful(d, c, kept, tl, n - h)
    {
      TwoLengths(d, c, kept, tl, n - h);
    }
  }

  lemma LengthMeasured(d: Descriptor, c: Config, kept: seq<Octet>, tl: nat, len: nat)
    requires tl < |kept| && FetchedTag(kept).Got? && FetchedTag(kept).used == tl && |c.stack| > 0
    requires Matches(Wanted(d, |c.stack| - 1), FetchedTag(kept).value)
    ensures LengthHopeful(d, c, kept, tl, len) ==>
      var n := HeaderSize(kept, tl) + len;
      Measures(d, Wanted(d, |c.stack| - 1), |c.buf|, |c.stack|, kept, n) && Closable(d, c.stack, n, None)
  {
    hide Closable, FetchedTag, LengthLeads, Wanted, HeaderSize;
  }

  /** What is accepted from a frame that waits takes a segment first, or ends the contents. */
  lemma HopeFollows(d: Descriptor, c: Config, kept: seq<Octet>, t: seq<Octet>)
    requires Waits(c) && Nested(c.stack) && HeaderIn(Visible(c, kept)).More?
    ensures Run(d, c, kept + t).code == RC_OK ==> Hopeful(d, c, kept)
  {
    hide Run, Moved, HeaderIn, Closes, Closable, Nested, Hopeful, Completes, HasRoom;
    if Run(d, c, kept + t).code == RC_OK {
      RoomForKept(d, c, kept, t);
      if kept == [] {
        var pending := Accepts(d, c, kept + t);
        CompletesCloses(d, c, kept + t, pending, [], []);
        ClosesClosable(d, c.stack, pending, 0, 0, None);
        HopefulNothing(d, c);
      } else {
        GoesOn(d, c, kept + t);
        var m := Moved(d, c, kept + t);
        if m.n == 2 && |m.next.stack| == |c.stack| {
          ContentsEnd(d, c, kept, t);
        } else {
          SegmentFollows(d, c, kept, t);
        }
      }
    }
  }

  lemma HopefulNothing(d: Descriptor, c: Config)
    requires |c.stack| > 0
    ensures Hopeful(d, c, []) <==> Closable(d, c.stack, 0, None)
  {
  }

  lemma CompletesCloses(d: Descriptor, c: Config, s: seq<Octet>, pending: seq<seq<Tlv>>, front: seq<Octet>, b: seq<Octet>)
    requires c.Valid() && Completes(d, c, s, pending, front, b)
    ensures |pending| == |c.stack| && Closes(d, c.stack, pending, |front|) && front <= s
  {
    hide Run, Closes, Tails, Leaves, PendingFits;
    var n := Run(d, c, s).consumed;
    assert s == s[..n] + s[n..];
    assert s == front + (Tails(c.stack, pending) + s[n..]);
  }

  lemma RoomForKept(d: Descriptor, c: Config, kept: seq<Octet>, t: seq<Octet>)
    requires Waits(c) && HeaderIn(Visible(c, kept)).More? && Run(d, c, kept + t).code == RC_OK
    ensures HasRoom(c, |kept|) && Visible(c, kept) == kept
  {
    hide Run, HeaderIn;
    if !HasRoom(c, |kept|) {
      assert Visible(c, kept + t) == Visible(c, kept);
      WaitingRun(d, c, kept + t);
      assert false;
    }
  }

  lemma ContentsEnd(d: Descriptor, c: Config, kept: seq<Octet>, t: seq<Octet>)
    requires Waits(c) && Nested(c.stack) && HeaderIn(kept).More? && kept != [] && HasRoom(c, |kept|)
    requires Run(d, c, kept + t).code == RC_OK
    requires var m := Moved(d, c, kept + t); m.Go? && m.n == 2 && |m.next.stack| == |c.stack|
    ensures Hopeful(d, c, kept)
  {
    hide Run, Moved, HeaderIn, Closes, Closable, Nested, Completes;
    var s, below := kept + t, c.stack[..|c.stack| - 1];
    EndOfContentsMoves(d, c, s);
    GoesOn(d, c, s);
    var next := Moved(d, c, s).next;
    assert s[0] == 0 && s[1] == 0 && kept[0] == 0;
    ZerosAreHeader(kept);
    assert kept == [0];
    var later := Accepts(d, next, s[2..]);
    CompletesCloses(d, next, s[2..], later, [], []);
    ClosesClosable(d, next.stack, later, 0, 0, None);
    assert next.stack == below + [Frame(0, c.Top().got + 2, false)];
    ClosableOn(d, below, Frame(0, c.Top().got + 2, false), 0, None);
  }

  lemma ZerosAreHeader(s: seq<Octet>)
    ensures |s| >= 2 && s[0] == 0 && s[1] == 0 ==> HeaderIn(s).Got?
  {
    if |s| >= 2 && s[0] == 0 && s[1] == 0 {
      assert FetchedTag(s) == Got(0, 1);
      assert FetchedLength(IsConstructed(s[0]), s[1..]) == Got(0, 1);
    }
  }

  lemma SegmentFollows(d: Descriptor, c: Config, kept: seq<Octet>, t: seq<Octet>)
    requires Waits(c) && Nested(c.stack) && HeaderIn(kept).More? && kept != [] && HasRoom(c, |kept|)
    requires Run(d, c, kept + t).code == RC_OK
    requires var m := Moved(d, c, kept + t); m.Go? && !(m.n == 2 && |m.next.stack| == |c.stack|)
    ensures Hopeful(d, c, kept)
  {
    hide Run, Moved, HeaderIn, Closes, Closable, Nested, Completes, Encode, Flatten, IsSegment, Measures, Hopeful, HasRoom,
         LeavesFit;
    var s := kept + t;
    ExpectPushes(d, c, s);
    var first, pending := AcceptsSegment(d, c, s);
    var n := |Encode(first)|;
    CompletesCloses(d, c, s, pending, Encode(first), Flatten(first));
    ClosesClosable(d, c.stack, pending, n, n, None);
    assert s == Encode(first) + s[n..];
    SegmentMeasures(d, Wanted(d, |c.stack| - 1), |c.buf|, |c.stack|, kept, first, s[n..]);
    HopefulMeasures(d, c, kept);
  }

  lemma KeptVisible(d: Descriptor, c: Config, kept: seq<Octet>)
    requires Waits(c) && Hopeful(d, c, kept)
    ensures Visible(c, kept) == kept && HasRoom(c, |kept|)
  {
  }

  /** The end-of-contents octets, of which one is there, and empty segments in the frames below. */
  lemma EndFulfils(d: Descriptor, c: Config) returns (all: seq<seq<Tlv>>)
    requires Waits(c) && Nested(c.stack) && c.Top().wantNulls
    requires Closable(d, c.stack[..|c.stack| - 1], c.Top().got + 2, None)
    ensures |all| == |c.stack| && Closes(d, c.stack, all, 0) && AllEmpty(all) && [0] <= Tails(c.stack, all)
  {
    hide Closes, Closable, Nested, Tails, AllEmpty;
    var below, f := c.stack[..|c.stack| - 1], c.Top();
    assert c.stack == below + [f];
    NestedBelow(below, f);
    var n, rest := ClosableCloses(d, below, f.got + 2, None);
    RoomBelow(d, below, rest, f, n);
    TopFills(d, below, f, rest, [], 0, 0);
    all := rest + [[]];
    TailsTop(below, f, rest, []);
    assert Tail(f, []) == END_OF_CONTENTS;
  }

  /** A segment that begins with kept, and empty segments in the frames around it. */
  lemma SegmentFulfils(d: Descriptor, c: Config, kept: seq<Octet>, n: nat) returns (all: seq<seq<Tlv>>)
    requires Waits(c) && Nested(c.stack) && HeaderIn(kept).More? && kept != []
    requires Measures(d, Wanted(d, |c.stack| - 1), |c.buf|, |c.stack|, kept, n) && Closable(d, c.stack, n, None)
    ensures |all| == |c.stack| && Closes(d, c.stack, all, 0) && PendingFits(|c.buf|, all) && kept <= Tails(c.stack, all)
  {
    hide Closes, Closable, Nested, Tails, AllEmpty, Measures, Encode, IsSegment, LeavesFit, PendingFits, HeaderIn;
    var k := |c.stack| - 1;
    var t := MeasuredSegment(d, Wanted(d, k), |c.buf|, k + 1, kept, n);
    var m := |Encode(t)|;
    ShortestIs(d, k, t);
    ShortestIdIs(d, k);
    ClosableShorter(d, c.stack, n, m);
    var h, pending := ClosableCloses(d, c.stack, m, None);
    all := SegmentFirst(d, c, t, pending);
  }

  /** Where there is hope, empty segments fulfil it. */
  lemma HopeFulfilled(d: Descriptor, c: Config, kept: seq<Octet>) returns (t: seq<Octet>)
    requires Waits(c) && Nested(c.stack) && HeaderIn(Visible(c, kept)).More? && Hopeful(d, c, kept)
    ensures Run(d, c, kept + t).code == RC_OK
  {
    hide Run, HeaderIn, Closes, Closable, Nested, Hopeful, Tails, Measures, PendingFits, HasRoom;
    var all: seq<seq<Tlv>>;
    KeptVisible(d, c, kept);
    if kept == [] {
      HopefulNothing(d, c);
      var n;
      n, all := ClosableCloses(d, c.stack, 0, None);
    } else {
      HopefulMeasures(d, c, kept);
      if kept == [0] && c.Top().wantNulls && Closable(d, c.stack[..|c.stack| - 1], c.Top().got + 2, None) {
        all := EndFulfils(d, c);
      } else {
        var n: nat :|
          Measures(d, Wanted(d, |c.stack| - 1), |c.buf|, |c.stack|, kept, n) && Closable(d, c.stack, n, None);
        all := SegmentFulfils(d, c, kept, n);
      }
    }
    TailsRun(d, c, all, []);
    t := Tails(c.stack, all)[|kept|..];
    assert kept + t == Tails(c.stack, all) + [];
  }

  /** A frame that waits can be completed if and only if there is hope for it. */
  lemma HopefulExact(d: Descriptor, c: Config, kept: seq<Octet>)
    requires Waits(c) && Nested(c.stack) && HeaderIn(Visible(c, kept)).More?
    ensures Hopeful(d, c, kept) <==> exists t :: Run(d, c, kept + t).code == RC_OK
  {
    hide Run, HeaderIn, Hopeful, Nested;
    if Hopeful(d, c, kept) {
      var t := HopeFulfilled(d, c, kept);
    }
    forall t | Run(d, c, kept + t).code == RC_OK
      ensures Hopeful(d, c, kept)
    {
      HopeFollows(d, c, kept, t);
    }
  }

  /** A leaf that is being filled can be completed if APPEND takes all of it and the frames around it can. */
  lemma FillingExact(d: Descriptor, c: Config)
    requires c.Valid() && Nested(c.stack) && c.phase == Filling && !c.Top().wantNulls && c.Top().left > 0
    ensures AppendFits(|c.buf| + c.Top().left)
            && Closable(d, c.stack[..|c.stack| - 1], c.Top().got + c.Top().left, None)
       <==> exists t :: Run(d, c, t).code == RC_OK
  {
    hide Run, AppendFits, Closable, Nested, Closes, PendingFits;
    var below, f := c.stack[..|c.stack| - 1], c.Top();
    assert c.stack == below + [f];
    NestedBelow(below, f);
    if AppendFits(|c.buf| + f.left) && Closable(d, below, f.got + f.left, None) {
      var n, pending := ClosableCloses(d, below, f.got + f.left, None);
      var content := Repeated(0, f.left);
      var t := content + (Tails(below, pending) + []);
      var around := c.(phase := Expecting, stack := below);
      LeafRun(d, around, f.got, content, Tails(below, pending) + []);
      EmptiedRun(d, around, f.got + f.left, content, pending, []);
      assert Run(d, c, t).code == RC_OK;
    }
    forall t | Run(d, c, t).code == RC_OK
      ensures AppendFits(|c.buf| + f.left) && Closable(d, below, f.got + f.left, None)
    {
      FilledFollows(d, c, below, t);
    }
  }

  lemma FilledFollows(d: Descriptor, c: Config, below: seq<Frame>, t: seq<Octet>)
    requires c.Valid() && c.phase == Filling && !c.Top().wantNulls && c.Top().left > 0 && c.stack == below + [c.Top()]
    requires Run(d, c, t).code == RC_OK
    ensures AppendFits(|c.buf| + c.Top().left) && Closable(d, below, c.Top().got + c.Top().left, None)
  {
    hide Run, AppendFits, Closable, Closes, Completes;
    GoesOn(d, c, t);
    var f, m := c.Top(), Moved(d, c, t);
    var done := Frame(0, f.got + f.left, false);
    assert m.next.stack == below + [done];
    var pending := Accepts(d, m.next, t[m.n..]);
    CompletesCloses(d, m.next, t[m.n..], pending, [], []);
    ClosesClosable(d, m.next.stack, pending, 0, 0, None);
    ClosableOn(d, below, done, 0, None);
  }

  lemma PrimitiveExact(d: Descriptor, c: Config)
    requires c.Valid() && c.phase == Primitive && c.left > 0
    ensures AppendFits(|c.buf| + c.left) <==> exists t :: Run(d, c, t).code == RC_OK
  {
    hide Run, AppendFits;
    if AppendFits(|c.buf| + c.left) {
      PrimitiveRun(d, c, Repeated(0, c.left), []);
    }
    forall t | Run(d, c, t).code == RC_OK
      ensures AppendFits(|c.buf| + c.left)
    {
      GoesOn(d, c, t);
    }
  }

  /** The tag wanted of the outermost TLV. */
  function Outermost(d: Descriptor): (w: Option<nat>)
    ensures forall t :: d.Takes(t) <==> Matches(w, t)
  {
    if d.implicit then None else Some(d.tag)
  }

  /** There is hope at the beginning, with `kept` of the first header there. */
  predicate FirstHopeful(d: Descriptor, kept: seq<Octet>) {
    if kept == [] then d.implicit || d.tag < TWO_TO_32 else
    match FetchedTag(kept)
    case Bad => false
    case More => TagRest(kept, Outermost(d)).Some?
    case Got(tag, tl) =>
      FetchedIsIdentifier(kept);
      d.Takes(tag) && (tl == |kept| || LengthLeads(d, 0, 0, kept, tl, FirstLength(0, kept, tl)))
  }

  lemma FirstMeasures(d: Descriptor, kept: seq<Octet>)
    requires kept != [] && HeaderIn(kept).More?
    ensures FirstHopeful(d, kept) <==> exists n: nat :: Measures(d, Outermost(d), 0, 0, kept, n)
  {
    hide FetchedTag, FetchedLength, TagRest, LengthLeads, Outermost, FirstLength, HeaderSize;
    match FetchedTag(kept)
    case Bad =>
    case More =>
      var rest := TagRest(kept, Outermost(d));
      assert rest.Some? ==> Measures(d, Outermost(d), 0, 0, kept, |kept| + |rest.value| + 1);
    case Got(tag, tl) =>
      FetchedIsIdentifier(kept);
      if tl == |kept| {
        assert d.Takes(tag) ==> Measures(d, Outermost(d), 0, 0, kept, tl + 1);
      } else {
        LongLength(IsConstructed(kept[0]), kept[tl..]);
        var h, first := HeaderSize(kept, tl), FirstLength(0, kept, tl);
        if d.Takes(tag) && LengthLeads(d, 0, 0, kept, tl, first) {
          assert Measures(d, Outermost(d), 0, 0, kept, h + first);
        }
        forall n: nat | Measures(d, Outermost(d), 0, 0, kept, n)
          ensures LengthLeads(d, 0, 0, kept, tl, first)
        {
          FirstLengthIs(d, 0, 0, kept, tl, n - h);
        }
      }
  }

  /** An input that breaks off in its first header can go on to an OCTET STRING if and only if there is hope. */
  lemma FirstExact(d: Descriptor, kept: seq<Octet>)
    requires HeaderIn(kept).More?
    ensures FirstHopeful(d, kept) <==> exists t :: Run(d, INITIAL, kept + t).code == RC_OK
  {
    hide Run, HeaderIn, FirstHopeful, Measures, IsSegment, Encode, LeavesFit, Flatten, Outermost;
    if FirstHopeful(d, kept) {
      var t := FirstFulfilled(d, kept);
      DecodeFlattens(d, t, []);
      assert kept + Encode(t)[|kept|..] == Encode(t) + [];
    }
    forall t | Run(d, INITIAL, kept + t).code == RC_OK
      ensures FirstHopeful(d, kept)
    {
      var s := kept + t;
      var first := DecodedIsOctetString(d, s);
      var n := |Encode(first)|;
      SegmentHeader(d, first, 0);
      if kept == [] {
        NothingYet(d, TagOf(first.id));
      } else {
        assert s == Encode(first) + s[n..];
        SegmentMeasures(d, Outermost(d), 0, 0, kept, first, s[n..]);
        FirstMeasures(d, kept);
      }
    }
  }

  lemma NothingYet(d: Descriptor, tag: U32)
    requires d.Takes(tag)
    ensures FirstHopeful(d, [])
  {
  }

  lemma FirstFulfilled(d: Descriptor, kept: seq<Octet>) returns (t: Tlv)
    requires HeaderIn(kept).More? && FirstHopeful(d, kept)
    ensures IsOctetString(d, t) && LeavesFit(0, t) && kept <= Encode(t)
  {
    hide HeaderIn, Measures, IsSegment, Encode, LeavesFit, IsIdentifier, EmptyTlv;
    if kept == [] {
      var tag := if d.implicit then 16 else d.tag;
      ConstructedTag(tag);
      var id := [SerializedTag(tag)[0] + 32] + SerializedTag(tag)[1..];
      t := EmptyTlv(id, 0);
      EmptyIsSegment(d, id, 0, 0);
    } else {
      FirstMeasures(d, kept);
      var n: nat :| Measures(d, Outermost(d), 0, 0, kept, n);
      t := MeasuredSegment(d, Outermost(d), 0, 0, kept, n);
    }
  }

  /** Whether the next call can still end well, told from the context and the octets that were not consumed. */
  predicate Completable(d: Descriptor, c: Config, kept: seq<Octet>)
    requires c.Valid()
  {
    match c.phase
    case CheckingTags => FirstHopeful(d, kept)
    case Expecting => |c.stack| > 0 && Hopeful(d, c, kept)
    case Filling =>
      && AppendFits(|c.buf| + c.Top().left)
      && Closable(d, c.stack[..|c.stack| - 1], c.Top().got + c.Top().left, None)
    case Primitive => AppendFits(|c.buf| + c.left)
    case Finished => true
  }

  lemma RestingWaits(d: Descriptor, c: Config, kept: seq<Octet>)
    requires Resting(d, c, kept)
    ensures c.Valid() && Nested(c.stack) && c.phase != Finished
    ensures c.phase == CheckingTags ==> c == INITIAL && HeaderIn(kept).More?
    ensures c.phase == Expecting ==> Waits(c) && HeaderIn(Visible(c, kept)).More?
    ensures c.phase == Filling ==> kept == [] && c.Top().left > 0 && !c.Top().wantNulls
    ensures c.phase == Primitive ==> kept == [] && c.left > 0
  {
    hide Nested, HeaderIn, CheckedTags, Popped, Entered, AppendFits;
    if c.phase == CheckingTags {
      CheckedSingle(d, kept);
      StarvedHeader(d, kept);
    }
    if c.phase == Expecting {
      ExpectWaits(d, c, kept);
    }
  }

  lemma ExpectWaits(d: Descriptor, c: Config, kept: seq<Octet>)
    requires c.Valid() && c.phase == Expecting && |c.stack| > 0 && Expect(d, c, kept) == Stop(RC_WMORE, 0, c)
    ensures Waits(c) && HeaderIn(Visible(c, kept)).More?
  {
    hide HeaderIn;
  }

  lemma StarvedHeader(d: Descriptor, s: seq<Octet>)
    ensures CheckedTags(d.Expects(), s, 0).Starved? ==> HeaderIn(s).More?
  {
    hide CheckedTags, FetchedTag, FetchedLength;
    CheckedSingle(d, s);
  }

  /** Where the decoder rests, exactly the states that are completable can go on to RC_OK. */
  lemma CompletableExact(d: Descriptor, c: Config, kept: seq<Octet>)
    requires Resting(d, c, kept)
    ensures c.Valid() && (Completable(d, c, kept) <==> exists t :: Run(d, c, kept + t).code == RC_OK)
  {
    hide Run, Moved, HeaderIn, Nested, Closable, Hopeful, FirstHopeful, AppendFits;
    RestingWaits(d, c, kept);
    match c.phase
    case CheckingTags => FirstExact(d, kept);
    case Expecting => HopefulExact(d, c, kept);
    case Filling =>
      FillingExact(d, c);
      NothingKept(d, c);
    case Primitive =>
      PrimitiveExact(d, c);
      NothingKept(d, c);
  }

  lemma NothingKept(d: Descriptor, c: Config)
    requires c.Valid()
    ensures (exists t :: Run(d, c, t).code == RC_OK) <==> (exists t :: Run(d, c, [] + t).code == RC_OK)
  {
    hide Run;
    forall t: seq<Octet>
      ensures [] + t == t
    {
    }
    if t :| Run(d, c, t).code == RC_OK {
      assert Run(d, c, [] + t).code == RC_OK;
    }
  }

  /**
   * So wherever a call wants more: the input is the beginning of one that ends well, in one call or resumed, if and only
   * if the context and the octets that were not consumed say so.
   */
  lemma ProspectsExact(d: Descriptor, s: seq<Octet>)
    requires Run(d, INITIAL, s).code == RC_WMORE
    ensures var r := Run(d, INITIAL, s);
            && (Completable(d, r.config, s[r.consumed..]) <==> exists t :: Run(d, INITIAL, s + t).code == RC_OK)
            && (forall t :: Run(d, INITIAL, s + t).code == RC_OK
                            <==> Run(d, r.config, s[r.consumed..] + t).code == RC_OK)
  {
    hide Run, Completable, Resting;
    NoFrames([]);
    RunRests(d, INITIAL, s);
    var r := Run(d, INITIAL, s);
    CompletableExact(d, r.config, s[r.consumed..]);
    forall t
      ensures Run(d, INITIAL, s + t).code == RC_OK <==> Run(d, r.config, s[r.consumed..] + t).code == RC_OK
    {
      RunAlike(d, INITIAL, s, t);
    }
  }

  /**
   * An input that can be refused but not completed: the outer length leaves one octet behind the end-of-contents
   * octets, which is too little for a segment.
   */
  lemma HopelessExample()
    ensures var d, s := Descriptor(16, [16], false), [0x24, 5] + ([0x24, 0x80] + []);
            var r := Run(d, INITIAL, s);
            && r == Outcome(RC_WMORE, 4, Config(Expecting, 5, [Frame(5, 2, false), Frame(3, 2, true)], []))
            && !Completable(d, r.config, []) && Run(d, r.config, [4, 0xFF]).code == RC_FAIL
  {
    hide Run;
    var d := Descriptor(16, [16], false);
    var stack := [Frame(5, 2, false), Frame(3, 2, true)];
    var c := Config(Expecting, 5, stack, []);
    IndefiniteFrame(d, 5, []);
    TooShortForHeader(Visible(c, []));
    WaitingRun(d, c, []);
    RefusedSoon(d, c);
    assert Shortest(d, 0) == Shortest(d, 1) == Some(2) by {
      assert SerializedTag(16) == [4];
    }
    ClosableOn(d, stack[..1], Frame(3, 2, true), 0, None);
    ClosableOn(d, [], Frame(5, 2, false), 4, Some(2));
    assert stack == stack[..1] + [Frame(3, 2, true)] && stack[..1] == [] + [Frame(5, 2, false)];
  }
}
