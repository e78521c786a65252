/** The decoder on well-formed input: constructed OCTET STRINGs are flattened, X.690 section 8.7. */
module OctetTrees {
  import opened Octets
  import opened BerTag
  import opened BerLength
  import opened BerTree
  import opened BerDecoder
  import opened OctetMachine
  import opened OctetFragments

  /** A TLV whose own frame is at this level: leaves are primitive, the rest constructed of allowed segments. */
  predicate IsSegment(d: Descriptor, t: Tlv, level: nat)
    decreases t
  {
    match t
    case Leaf(id, len, content) =>
      Announces(id, len, |content|) && !IsConstructed(id[0])
    case Definite(id, len, items) =>
      Announces(id, len, |EncodeAll(items)|) && IsConstructed(id[0]) && AreSegments(d, items, level)
    case Indefinite(id, items) =>
      IsIdentifier(id) && IsConstructed(id[0]) && AreSegments(d, items, level) && NoneIsEndOfContents(items)
  }

  /** What may stand inside a frame at this level. */
  predicate AreSegments(d: Descriptor, ts: seq<Tlv>, level: nat)
    decreases ts
  {
    ts == [] || (
      && IsSegment(d, ts[0], level + 1) && d.AllowsAt(level, TagOf(ts[0].id))
      && AreSegments(d, ts[1..], level))
  }

  /** An encoding of an OCTET STRING with this descriptor, in any of the forms BER permits. */
  predicate IsOctetString(d: Descriptor, t: Tlv) {
    IsSegment(d, t, 0) && d.Takes(TagOf(t.id))
  }

  /** The octets of the leaves, in order. */
  function Flatten(t: Tlv): seq<Octet>
    decreases t
  {
    match t
    case Leaf(_, _, content) => content
    case Definite(_, _, items) => FlattenAll(items)
    case Indefinite(_, items) => FlattenAll(items)
  }

  function FlattenAll(ts: seq<Tlv>): seq<Octet>
    decreases ts
  {
    if ts == [] then [] else Flatten(ts[0]) + FlattenAll(ts[1..])
  }

  /** APPEND takes the leaves in turn, behind `size` octets; an empty one it is not asked for. */
  predicate LeavesFit(size: nat, t: Tlv)
    decreases t
  {
    match t
    case Leaf(_, _, content) => content == [] || AppendFits(size + |content|)
    case Definite(_, _, items) => AllLeavesFit(size, items)
    case Indefinite(_, items) => AllLeavesFit(size, items)
  }

  predicate AllLeavesFit(size: nat, ts: seq<Tlv>)
    decreases ts
  {
    ts == [] || (LeavesFit(size, ts[0]) && AllLeavesFit(size + |Flatten(ts[0])|, ts[1..]))
  }

  /** Up to 2^30 octets all do. */
  lemma {:induction false} FewLeavesFit(size: nat, t: Tlv)
    requires size + |Flatten(t)| < CAPACITY
    ensures LeavesFit(size, t)
    decreases t
  {
    match t
    case Leaf(_, _, content) => SmallFits(size + |content|);
    case Definite(_, _, items) => FewOfAllFit(size, items);
    case Indefinite(_, items) => FewOfAllFit(size, items);
  }

  lemma {:induction false} FewOfAllFit(size: nat, ts: seq<Tlv>)
    requires size + |FlattenAll(ts)| < CAPACITY
    ensures AllLeavesFit(size, ts)
    decreases ts
  {
    if ts != [] {
      FewLeavesFit(size, ts[0]);
      FewOfAllFit(size + |Flatten(ts[0])|, ts[1..]);
    }
  }

  lemma {:induction false} SegmentSizes(d: Descriptor, t: Tlv, level: nat)
    requires IsSegment(d, t, level)
    ensures IsIdentifier(t.id) && |t.id| > 0 && |Encode(t)| >= |Flatten(t)| + 2
    decreases t
  {
    match t
    case Leaf(_, _, _) =>
    case Definite(_, _, items) => SegmentsSizes(d, items, level);
    case Indefinite(_, items) => SegmentsSizes(d, items, level);
  }

  lemma {:induction false} SegmentsSizes(d: Descriptor, ts: seq<Tlv>, level: nat)
    requires AreSegments(d, ts, level)
    ensures |EncodeAll(ts)| >= |FlattenAll(ts)|
    decreases ts
  {
    if ts != [] {
      SegmentSizes(d, ts[0], level + 1);
      SegmentsSizes(d, ts[1..], level);
    }
  }

  /** Segments are well-formed TLVs, so ber_skip_length skips them too. */
  lemma {:induction false} SegmentWellFormed(d: Descriptor, t: Tlv, level: nat)
    requires IsSegment(d, t, level)
    ensures WellFormed(t)
    decreases t
  {
    match t
    case Leaf(_, _, _) =>
    case Definite(_, _, items) => SegmentsWellFormed(d, items, level);
    case Indefinite(_, items) => SegmentsWellFormed(d, items, level);
  }

  lemma {:induction false} SegmentsWellFormed(d: Descriptor, ts: seq<Tlv>, level: nat)
    requires AreSegments(d, ts, level)
    ensures AllWellFormed(ts)
    decreases ts
  {
    if ts != [] {
      SegmentWellFormed(d, ts[0], level + 1);
      SegmentsWellFormed(d, ts[1..], level);
    }
  }

  /** The frame on top can take n more octets. */
  predicate HasRoom(c: Config, n: nat)
    requires |c.stack| > 0
  {
    c.Top().left == -1 || c.Top().left >= n
  }

  /** The configuration after a segment of n octets has been taken in, with b its contents. */
  function Absorbed(c: Config, n: nat, b: seq<Octet>): Config
    requires |c.stack| > 0
  {
    var top := c.Top();
    c.WithTop(Frame(if top.left == -1 then -1 else top.left - n, top.got + n, top.wantNulls)).(buf := c.buf + b)
  }

  /** The header of a segment becomes a frame. */
  lemma HeaderMove(d: Descriptor, c: Config, id: seq<Octet>, l: seq<Octet>, rest: seq<Octet>)
    requires c.Valid() && c.phase == Expecting
    requires IsIdentifier(id) && IsLength(IsConstructed(id[0]), l)
    requires |c.stack| > 0 ==>
      && HasRoom(c, |id| + |l|)
      && d.AllowsAt(|c.stack| - 1, TagOf(id))
      && (c.Top().wantNulls ==> !OpensWithZeros(id + l))
    requires Pushed(c, |id| + |l|, LengthOf(IsConstructed(id[0]), l)).Got?
    ensures Moved(d, c, id + l + rest)
         == Go(|id| + |l|, c.(phase := if IsConstructed(id[0]) then Expecting else Filling,
                              stack := c.stack + [Pushed(c, |id| + |l|, LengthOf(IsConstructed(id[0]), l)).value]))
  {
    hide HeaderIn, Pushed, Popped, LengthOf, TagOf;
    var view := Visible(c, id + l + rest);
    var more := view[|id| + |l|..];
    assert view == id + l + more;
    HeaderInReads(id, l, more);
    assert view[0] == id[0] == (id + l)[0] && view[1] == (id + l)[1];
  }

  lemma HeaderInReads(id: seq<Octet>, l: seq<Octet>, more: seq<Octet>)
    requires IsIdentifier(id) && IsLength(IsConstructed(id[0]), l)
    ensures HeaderIn(id + l + more) == Got((TagOf(id), LengthOf(IsConstructed(id[0]), l)), |id| + |l|)
  {
    hide FetchedTag, FetchedLength, RunEnd, LengthOf, TagOf;
    var view := id + l + more;
    assert view == id + (l + more);
    FetchReadsIdentifier(id, l + more);
    assert view[|id|..] == l + more;
    FetchReadsLength(IsConstructed(id[0]), l, more);
  }

  /** The end-of-contents octets empty the frame. */
  lemma EndOfContentsMove(d: Descriptor, c: Config, rest: seq<Octet>)
    requires c.Valid() && c.phase == Expecting && |c.stack| > 0
    requires c.Top().wantNulls && HasRoom(c, 2)
    ensures Moved(d, c, END_OF_CONTENTS + rest) == Go(2, c.WithTop(Frame(0, c.Top().got + 2, false)))
  {
    var view := Visible(c, END_OF_CONTENTS + rest);
    assert view[0] == 0 && view[1] == 0;
    assert FetchedTag(view) == Got(0, 1);
    assert FetchedLength(IsConstructed(view[0]), view[1..]) == Got(0, 1);
  }

  /** The configuration with a frame for a segment of g octets on top, nothing left to wait for. */
  function Emptied(c: Config, g: nat, b: seq<Octet>): Config {
    c.(stack := c.stack + [Frame(0, g, false)], buf := c.buf + b)
  }

  lemma PopRun(d: Descriptor, c: Config, g: nat, b: seq<Octet>, rest: seq<Octet>)
    requires c.Valid() && c.phase == Expecting && |c.stack| > 0 && HasRoom(c, g)
    ensures Emptied(c, g, b).Valid() && Absorbed(c, g, b).Valid()
    ensures Run(d, Emptied(c, g, b), rest) == Run(d, Absorbed(c, g, b), rest)
  {
    hide Run;
    var e := Emptied(c, g, b);
    assert e.stack[..|c.stack| - 1] == c.stack[..|c.stack| - 1];
    assert Moved(d, e, rest) == Go(0, Absorbed(c, g, b));
    RunGoes(d, e, rest, 0, Absorbed(c, g, b), rest);
  }

  /** A leaf's contents, once its frame stands. */
  lemma LeafRun(d: Descriptor, c: Config, header: nat, content: seq<Octet>, rest: seq<Octet>)
    requires c.Valid() && c.phase == Expecting && (content == [] || AppendFits(|c.buf| + |content|))
    ensures var top := Frame(|content|, header, false);
            var filling := c.(phase := Filling, stack := c.stack + [top]);
            && filling.Valid() && Emptied(c, header + |content|, content).Valid()
            && Run(d, filling, content + rest)
            == Later(|content|, Run(d, Emptied(c, header + |content|, content), rest))
  {
    hide Run, AppendFits;
    var filling := c.(phase := Filling, stack := c.stack + [Frame(|content|, header, false)]);
    assert (content + rest)[..|content|] == content;
    assert filling.stack[..|c.stack|] == c.stack;
    assert Moved(d, filling, content + rest) == Go(|content|, Emptied(c, header + |content|, content));
    RunGoes(d, filling, content + rest, |content|, Emptied(c, header + |content|, content), rest);
  }

  /** The length octets in front of what a segment holds. */
  function LengthOctets(t: Tlv): seq<Octet> {
    if t.Indefinite? then INDEFINITE_LENGTH else t.len
  }

  /** What a segment holds behind its header. */
  function Contents(t: Tlv): seq<Octet> {
    match t
    case Leaf(_, _, content) => content
    case Definite(_, _, items) => EncodeAll(items)
    case Indefinite(_, items) => EncodeAll(items) + END_OF_CONTENTS
  }

  /** A segment within the frame on top of c. */
  predicate Takes(d: Descriptor, c: Config, t: Tlv) {
    && c.Valid() && c.phase == Expecting && LeavesFit(|c.buf|, t)
    && |c.stack| > 0 && HasRoom(c, |Encode(t)|)
    && IsSegment(d, t, |c.stack|) && d.AllowsAt(|c.stack| - 1, TagOf(t.id))
    && (c.Top().wantNulls ==> !OpensWithZeros(Encode(t)))
  }

  /** Segments within the frame on top of c. */
  predicate TakesAll(d: Descriptor, c: Config, ts: seq<Tlv>) {
    && c.Valid() && c.phase == Expecting && AllLeavesFit(|c.buf|, ts)
    && |c.stack| > 0 && HasRoom(c, |EncodeAll(ts)|)
    && AreSegments(d, ts, |c.stack| - 1)
    && (c.Top().wantNulls ==> NoneIsEndOfContents(ts))
  }

  /** The frame of a segment whose parent frame is on top of c, once its header is read. */
  function FrameFor(c: Config, t: Tlv): Frame {
    var header := |t.id| + |LengthOctets(t)|;
    if t.Indefinite? then
      Frame(if |c.stack| == 0 || c.Top().left == -1 then -1 else c.Top().left - header, header, true)
    else
      Frame(|Contents(t)|, header, false)
  }

  lemma SegmentHeader(d: Descriptor, t: Tlv, level: nat)
    requires IsSegment(d, t, level)
    ensures IsIdentifier(t.id) && IsLength(IsConstructed(t.id[0]), LengthOctets(t))
    ensures LengthOf(IsConstructed(t.id[0]), LengthOctets(t)) == if t.Indefinite? then INDEFINITE else |Contents(t)|
    ensures t.Leaf? <==> !IsConstructed(t.id[0])
    ensures Encode(t) == t.id + LengthOctets(t) + Contents(t)
    ensures |t.id| > 0 && |LengthOctets(t)| > 0
  {
    hide AreSegments, NoneIsEndOfContents, EncodeAll;
    match t
    case Leaf(_, _, _) =>
    case Definite(_, _, _) =>
    case Indefinite(_, items) =>
      assert Encode(t) == t.id + (INDEFINITE_LENGTH + EncodeAll(items) + END_OF_CONTENTS);
  }

  lemma PushedFor(d: Descriptor, c: Config, t: Tlv)
    requires c.Valid() && IsSegment(d, t, |c.stack|)
    requires |c.stack| > 0 ==> HasRoom(c, |Encode(t)|)
    ensures IsIdentifier(t.id) && IsLength(IsConstructed(t.id[0]), LengthOctets(t))
    ensures Pushed(c, |t.id| + |LengthOctets(t)|, LengthOf(IsConstructed(t.id[0]), LengthOctets(t)))
         == Got(FrameFor(c, t), |t.id| + |LengthOctets(t)|)
  {
    hide IsSegment, Encode, Contents, LengthOctets;
    SegmentHeader(d, t, |c.stack|);
  }

  lemma HeaderRun(d: Descriptor, c: Config, t: Tlv, rest: seq<Octet>)
    requires c.Valid() && c.phase == Expecting && IsSegment(d, t, |c.stack|)
    requires |c.stack| > 0 ==> Takes(d, c, t)
    ensures var header := |t.id| + |LengthOctets(t)|;
            var next := c.(phase := if t.Leaf? then Filling else Expecting, stack := c.stack + [FrameFor(c, t)]);
            && next.Valid()
            && Run(d, c, Encode(t) + rest) == Later(header, Run(d, next, Contents(t) + rest))
  {
    hide Run, IsSegment, Encode, Contents, LengthOctets, Pushed, FrameFor, Moved;
    SegmentHeader(d, t, |c.stack|);
    PushedFor(d, c, t);
    var id, l, more := t.id, LengthOctets(t), Contents(t) + rest;
    assert Encode(t) + rest == id + l + more;
    HeaderMove(d, c, id, l, more);
    var next := c.(phase := if t.Leaf? then Filling else Expecting, stack := c.stack + [FrameFor(c, t)]);
    RunGoes(d, c, id + l + more, |id| + |l|, next, more);
  }

  lemma TakesFirst(d: Descriptor, c: Config, ts: seq<Tlv>)
    requires TakesAll(d, c, ts) && ts != []
    ensures Takes(d, c, ts[0])
    ensures Absorbed(c, |Encode(ts[0])|, Flatten(ts[0])).Valid()
    ensures TakesAll(d, Absorbed(c, |Encode(ts[0])|, Flatten(ts[0])), ts[1..])
  {
    var t, next := ts[0], Absorbed(c, |Encode(ts[0])|, Flatten(ts[0]));
    SegmentSizes(d, t, |c.stack|);
    assert forall i :: 0 <= i < |ts| - 1 ==> ts[1..][i] == ts[i + 1];
    assert next.stack[..|c.stack| - 1] == c.stack[..|c.stack| - 1];
  }

  lemma AbsorbedTwice(c: Config, m: nat, a: seq<Octet>, n: nat, b: seq<Octet>)
    requires |c.stack| > 0 && HasRoom(c, m + n)
    ensures Absorbed(Absorbed(c, m, a), n, b) == Absorbed(c, m + n, a + b)
  {
    var k := |c.stack| - 1;
    assert Absorbed(c, m, a).stack[..k] == c.stack[..k];
    assert c.buf + a + b == c.buf + (a + b);
  }

  /** Segments are taken into the frame on top, one after the other. */
  lemma {:induction false} SegmentsRun(d: Descriptor, c: Config, ts: seq<Tlv>, rest: seq<Octet>)
    requires TakesAll(d, c, ts)
    ensures Absorbed(c, |EncodeAll(ts)|, FlattenAll(ts)).Valid()
    ensures Run(d, c, EncodeAll(ts) + rest)
         == Later(|EncodeAll(ts)|, Run(d, Absorbed(c, |EncodeAll(ts)|, FlattenAll(ts)), rest))
    decreases ts, 0
  {
    hide Run, Absorbed, Encode, Flatten, EncodeAll, FlattenAll, Takes, TakesAll, HasRoom, AreSegments;
    if ts == [] {
      AbsorbedNothing(d, c);
      assert [] + rest == rest;
    } else {
      var t, tail := ts[0], ts[1..];
      var more := EncodeAll(tail) + rest;
      TakesFirst(d, c, ts);
      SegmentRun(d, c, t, more);
      SegmentsRun(d, Absorbed(c, |Encode(t)|, Flatten(t)), tail, rest);
      EncodedFirst(ts);
      RoomFor(d, c, ts);
      AbsorbedTwice(c, |Encode(t)|, Flatten(t), |EncodeAll(tail)|, FlattenAll(tail));
      assert EncodeAll(ts) + rest == Encode(t) + more;
    }
  }

  lemma EncodedFirst(ts: seq<Tlv>)
    requires ts != []
    ensures EncodeAll(ts) == Encode(ts[0]) + EncodeAll(ts[1..])
    ensures FlattenAll(ts) == Flatten(ts[0]) + FlattenAll(ts[1..])
  {
  }

  lemma RoomFor(d: Descriptor, c: Config, ts: seq<Tlv>)
    requires TakesAll(d, c, ts)
    ensures |c.stack| > 0 && HasRoom(c, |EncodeAll(ts)|)
  {
  }

  lemma AbsorbedNothing(d: Descriptor, c: Config)
    requires TakesAll(d, c, [])
    ensures c.Valid() && Absorbed(c, 0, []) == c
    ensures EncodeAll([]) == [] && FlattenAll([]) == []
  {
  }

  /** A segment is taken into the frame on top: its size in `got`, its leaves in the buffer. */
  lemma {:induction false} SegmentRun(d: Descriptor, c: Config, t: Tlv, rest: seq<Octet>)
    requires Takes(d, c, t)
    ensures Absorbed(c, |Encode(t)|, Flatten(t)).Valid()
    ensures Run(d, c, Encode(t) + rest)
         == Later(|Encode(t)|, Run(d, Absorbed(c, |Encode(t)|, Flatten(t)), rest))
    decreases t, 2
  {
    hide Run, Absorbed, Flatten, Encode, Contents, LengthOctets, IsSegment;
    HeaderRun(d, c, t, rest);
    SegmentHeader(d, t, |c.stack|);
    ContentsRun(d, c, t, rest);
    PopRun(d, c, |Encode(t)|, Flatten(t), rest);
  }

  /** Behind its header, a segment empties its frame, whether or not that frame has a parent. */
  lemma {:induction false} ContentsRun(d: Descriptor, c: Config, t: Tlv, rest: seq<Octet>)
    requires c.Valid() && c.phase == Expecting && IsSegment(d, t, |c.stack|)
    requires LeavesFit(|c.buf|, t) && (|c.stack| > 0 ==> HasRoom(c, |Encode(t)|))
    ensures var open := c.(phase := if t.Leaf? then Filling else Expecting, stack := c.stack + [FrameFor(c, t)]);
            && open.Valid() && Emptied(c, |Encode(t)|, Flatten(t)).Valid()
            && Run(d, open, Contents(t) + rest)
            == Later(|Contents(t)|, Run(d, Emptied(c, |Encode(t)|, Flatten(t)), rest))
    decreases t, 1
  {
    hide Run, Absorbed, Emptied, FrameFor, TakesAll, IsSegment, EncodeAll, FlattenAll, Encode, HasRoom;
    if t.Leaf? {
      LeafContentsRun(d, c, t, rest);
    } else {
      var open := c.(stack := c.stack + [FrameFor(c, t)]);
      var more := if t.Indefinite? then END_OF_CONTENTS + rest else rest;
      OpenTakes(d, c, t);
      OpenValid(d, open, t.items);
      SegmentsRun(d, open, t.items, more);
      assert Contents(t) + rest == EncodeAll(t.items) + more;
      if t.Indefinite? {
        EndOfContentsRun(d, c, t, rest);
      } else {
        DefiniteEmptied(d, c, t);
      }
    }
  }

  lemma LeafContentsRun(d: Descriptor, c: Config, t: Tlv, rest: seq<Octet>)
    requires c.Valid() && c.phase == Expecting && IsSegment(d, t, |c.stack|) && t.Leaf? && LeavesFit(|c.buf|, t)
    ensures var open := c.(phase := Filling, stack := c.stack + [FrameFor(c, t)]);
            && open.Valid() && Emptied(c, |Encode(t)|, Flatten(t)).Valid()
            && Run(d, open, Contents(t) + rest)
            == Later(|Contents(t)|, Run(d, Emptied(c, |Encode(t)|, Flatten(t)), rest))
  {
    hide Run, Emptied, IsSegment, AppendFits;
    SegmentHeader(d, t, |c.stack|);
    LeafRun(d, c, |t.id| + |t.len|, t.content, rest);
  }

  lemma OpenValid(d: Descriptor, c: Config, ts: seq<Tlv>)
    requires TakesAll(d, c, ts)
    ensures c.Valid()
  {
  }

  lemma DefiniteEmptied(d: Descriptor, c: Config, t: Tlv)
    requires c.Valid() && IsSegment(d, t, |c.stack|) && t.Definite?
    ensures Emptied(c, |Encode(t)|, Flatten(t)).Valid()
    ensures var open := c.(stack := c.stack + [FrameFor(c, t)]);
            Absorbed(open, |EncodeAll(t.items)|, FlattenAll(t.items)) == Emptied(c, |Encode(t)|, Flatten(t))
  {
    hide Absorbed, IsSegment, EncodeAll;
    SegmentHeader(d, t, |c.stack|);
    OpenAbsorbed(c, t);
  }

  lemma OpenTakes(d: Descriptor, c: Config, t: Tlv)
    requires c.Valid() && c.phase == Expecting && IsSegment(d, t, |c.stack|) && !t.Leaf?
    requires LeavesFit(|c.buf|, t) && (|c.stack| > 0 ==> HasRoom(c, |Encode(t)|))
    ensures TakesAll(d, c.(stack := c.stack + [FrameFor(c, t)]), t.items)
  {
    hide AreSegments, NoneIsEndOfContents;
    SegmentHeader(d, t, |c.stack|);
  }

  lemma OpenAbsorbed(c: Config, t: Tlv)
    requires !t.Leaf?
    ensures var open := c.(stack := c.stack + [FrameFor(c, t)]);
            var n := |EncodeAll(t.items)|;
            var header := |t.id| + |LengthOctets(t)|;
            var left := if FrameFor(c, t).left == -1 then -1 else FrameFor(c, t).left - n;
            var stack := c.stack + [Frame(left, header + n, t.Indefinite?)];
            Absorbed(open, n, FlattenAll(t.items)) == c.(stack := stack, buf := c.buf + FlattenAll(t.items))
  {
    var open := c.(stack := c.stack + [FrameFor(c, t)]);
    assert open.stack[..|c.stack|] == c.stack;
  }

  lemma EndOfContentsRun(d: Descriptor, c: Config, t: Tlv, rest: seq<Octet>)
    requires c.Valid() && c.phase == Expecting && IsSegment(d, t, |c.stack|) && t.Indefinite?
    requires |c.stack| > 0 ==> HasRoom(c, |Encode(t)|)
    ensures (var open := c.(stack := c.stack + [FrameFor(c, t)]);
             var full := Absorbed(open, |EncodeAll(t.items)|, FlattenAll(t.items));
             && full.Valid() && Emptied(c, |Encode(t)|, Flatten(t)).Valid()
             && Run(d, full, END_OF_CONTENTS + rest) == Later(2, Run(d, Emptied(c, |Encode(t)|, Flatten(t)), rest)))
  {
    hide Run, Moved, Absorbed, Encode, Contents, IsSegment, EncodeAll;
    SegmentHeader(d, t, |c.stack|);
    OpenAbsorbed(c, t);
    IndefiniteSize(t);
    var full := Absorbed(c.(stack := c.stack + [FrameFor(c, t)]), |EncodeAll(t.items)|, FlattenAll(t.items));
    EndOfContentsEmpties(d, c, full, |Encode(t)|, Flatten(t), rest);
  }

  lemma IndefiniteSize(t: Tlv)
    requires t.Indefinite?
    ensures |Encode(t)| == |t.id| + |LengthOctets(t)| + |EncodeAll(t.items)| + 2
    ensures Flatten(t) == FlattenAll(t.items)
  {
  }

  lemma EndOfContentsEmpties(d: Descriptor, c: Config, full: Config, g: nat, b: seq<Octet>, rest: seq<Octet>)
    requires c.Valid() && c.phase == Expecting && g >= 2
    requires |full.stack| > 0 && full.stack == c.stack + [Frame(full.Top().left, g - 2, true)]
    requires full == c.(stack := full.stack, buf := c.buf + b)
    requires full.Top().left == -1 || full.Top().left >= 2
    ensures full.Valid() && Emptied(c, g, b).Valid()
    ensures Run(d, full, END_OF_CONTENTS + rest) == Later(2, Run(d, Emptied(c, g, b), rest))
  {
    hide Run, Moved;
    EndOfContentsMove(d, full, rest);
    assert full.stack[..|c.stack|] == c.stack;
    assert (END_OF_CONTENTS + rest)[2..] == rest;
    RunGoes(d, full, END_OF_CONTENTS + rest, 2, Emptied(c, g, b), rest);
  }

  /** Decoding flattens: the whole encoding is consumed and the octets are the leaves' in order. */
  lemma DecodeFlattens(d: Descriptor, t: Tlv, rest: seq<Octet>)
    requires IsOctetString(d, t) && LeavesFit(0, t)
    ensures var r := Run(d, INITIAL, Encode(t) + rest);
            && r.code == RC_OK && r.consumed == |Encode(t)| && r.config.buf == Flatten(t)
  {
    hide Run, Moved, IsSegment, Encode;
    SegmentHeader(d, t, 0);
    var s := Encode(t) + rest;
    FirstMove(d, t, rest);
    var len := if t.Indefinite? then INDEFINITE else |Contents(t)|;
    if t.Leaf? {
      var next := INITIAL.(phase := Primitive, left := len);
      RunGoes(d, INITIAL, s, |t.id| + |LengthOctets(t)|, next, Contents(t) + rest);
      SmallFits(0);
      PrimitiveRun(d, next, t.content, rest);
    } else {
      var next := INITIAL.(phase := Expecting, left := len);
      RunGoes(d, INITIAL, s, 0, next, s);
      HeaderRun(d, next, t, rest);
      ContentsRun(d, next, t, rest);
      LastPopRun(d, next, |Encode(t)|, Flatten(t), rest);
    }
  }

  /** The tags are checked; a primitive header is consumed, a constructed one read again as a frame. */
  lemma FirstMove(d: Descriptor, t: Tlv, rest: seq<Octet>)
    requires IsOctetString(d, t)
    ensures Moved(d, INITIAL, Encode(t) + rest)
         == if t.Leaf? then Go(|t.id| + |LengthOctets(t)|, INITIAL.(phase := Primitive, left := |Contents(t)|))
            else Go(0, INITIAL.(phase := Expecting, left := if t.Indefinite? then INDEFINITE else |Contents(t)|))
  {
    hide FetchedTag, FetchedLength, RunEnd, CheckedTags, IsSegment, Encode, Contents, LengthOctets;
    SegmentHeader(d, t, 0);
    var s := Encode(t) + rest;
    CheckedSingle(d, s);
    var more := LengthOctets(t) + (Contents(t) + rest);
    assert s == t.id + more;
    FetchReadsIdentifier(t.id, more);
    assert s[|t.id|..] == more;
    FetchReadsLength(IsConstructed(t.id[0]), LengthOctets(t), Contents(t) + rest);
  }

  lemma PrimitiveRun(d: Descriptor, c: Config, content: seq<Octet>, rest: seq<Octet>)
    requires c.Valid() && c.phase == Primitive && c.left == |content| && AppendFits(|c.buf| + |content|)
    ensures Run(d, c, content + rest)
         == Outcome(RC_OK, |content|, c.(phase := Finished, left := 0, buf := c.buf + content))
  {
    hide AppendFits;
    var next := c.(phase := Finished, left := 0, buf := c.buf + content);
    assert (content + rest)[..|content|] == content;
    assert Moved(d, c, content + rest) == Go(|content|, next);
    RunGoes(d, c, content + rest, |content|, next, rest);
  }

  lemma LastPopRun(d: Descriptor, c: Config, g: nat, b: seq<Octet>, rest: seq<Octet>)
    requires c.Valid() && c.phase == Expecting && c.stack == []
    ensures Emptied(c, g, b).Valid()
    ensures Run(d, Emptied(c, g, b), rest)
         == Outcome(RC_OK, 0, c.(phase := Finished, buf := c.buf + b))
  {
    var next := c.(phase := Finished, buf := c.buf + b);
    assert Moved(d, Emptied(c, g, b), rest) == Go(0, next);
    RunGoes(d, Emptied(c, g, b), rest, 0, next, rest);
  }

  /** Cut anywhere, the encoding makes the decoder ask for more. */
  lemma CutWantsMore(d: Descriptor, t: Tlv, k: nat)
    requires IsOctetString(d, t) && |Flatten(t)| < CAPACITY && k < |Encode(t)|
    ensures Run(d, INITIAL, Encode(t)[..k]).code == RC_WMORE
  {
    hide Run, IsOctetString, Encode, Flatten, Asked;
    var s := Encode(t);
    FewLeavesFit(0, t);
    DecodeFlattens(d, t, []);
    assert s[..k] + s[k..] == s == s + [];
    AskedIsContents(d, INITIAL, s);
    RunSplits(d, INITIAL, s[..k], s[k..]);
  }

  /**
   * In any pieces, with anything behind: every call before the one that brings the last octet wants
   * more, and together they decode the whole.
   */
  lemma FragmentsDecode(d: Descriptor, t: Tlv, pieces: seq<seq<Octet>>, rest: seq<Octet>)
    requires IsOctetString(d, t) && |pieces| > 0 && Concat(pieces) == Encode(t) + rest
    requires |Flatten(t)| < CAPACITY
    ensures forall k :: 0 < k <= |pieces| && |Concat(pieces[..k])| < |Encode(t)| ==>
      Feed(d, INITIAL, [], pieces[..k]).code == RC_WMORE
    ensures var r := Feed(d, INITIAL, [], pieces);
            && r.code == RC_OK && r.consumed == |Encode(t)| && r.config.buf == Flatten(t)
  {
    hide Run, IsOctetString, Encode, Concat, Feed, Flatten;
    assert [] + Concat(pieces) == Encode(t) + rest;
    FewLeavesFit(0, t);
    DecodeFlattens(d, t, rest);
    FragmentsOfContents(d, INITIAL, [], pieces);
    forall k | 0 < k <= |pieces| && |Concat(pieces[..k])| < |Encode(t)|
      ensures Feed(d, INITIAL, [], pieces[..k]).code == RC_WMORE
    {
      FirstPieces(d, t, pieces, rest, k);
    }
  }

  lemma FirstPieces(d: Descriptor, t: Tlv, pieces: seq<seq<Octet>>, rest: seq<Octet>, k: nat)
    requires IsOctetString(d, t) && Concat(pieces) == Encode(t) + rest && |Flatten(t)| < CAPACITY
    requires 0 < k <= |pieces| && |Concat(pieces[..k])| < |Encode(t)|
    ensures Feed(d, INITIAL, [], pieces[..k]).code == RC_WMORE
  {
    hide Run, IsOctetString, Encode, Concat, Feed, Flatten, Asked;
    ConcatFront(pieces, k);
    var front := Concat(pieces[..k]);
    assert front == Encode(t)[..|front|] && [] + front == front;
    CutWantsMore(d, t, |front|);
    AskedInPrefix(d, t, front);
    FragmentationInvariance(d, INITIAL, [], pieces[..k]);
  }

  /** Part of an encoding asks for no more than all of it. */
  lemma AskedInPrefix(d: Descriptor, t: Tlv, front: seq<Octet>)
    requires IsOctetString(d, t) && |Flatten(t)| < CAPACITY && front <= Encode(t) && |front| < |Encode(t)|
    ensures Asked(d, INITIAL, front) < CAPACITY
  {
    hide Run, IsOctetString, Encode, Flatten, Asked;
    var s := Encode(t);
    CutWantsMore(d, t, |front|);
    assert front == s[..|front|];
    FewLeavesFit(0, t);
    DecodeFlattens(d, t, []);
    assert front + s[|front|..] == s == s + [];
    AskedIsContents(d, INITIAL, s);
    AskedGrows(d, INITIAL, front, s[|front|..]);
  }
}
