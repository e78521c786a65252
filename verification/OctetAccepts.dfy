/** What the decoder accepts: nothing but encodings of OCTET STRINGs. */
module OctetAccepts {
  import opened Octets
  import opened Words
  import opened BerTag
  import opened BerLength
  import opened BerTree
  import opened BerDecoder
  import opened OctetMachine
  import opened OctetFragments
  import opened OctetTrees

  /** What completes a frame: more segments, and the end-of-contents octets if it wants them. */
  function Tail(f: Frame, ts: seq<Tlv>): seq<Octet> {
    EncodeAll(ts) + if f.wantNulls then END_OF_CONTENTS else []
  }

  /** What completes a stack of frames, from the top down; pending[i] is for stack[i]. */
  function Tails(stack: seq<Frame>, pending: seq<seq<Tlv>>): seq<Octet>
    requires |stack| == |pending|
  {
    if |stack| == 0 then [] else
    var k := |stack| - 1;
    Tail(stack[k], pending[k]) + Tails(stack[..k], pending[..k])
  }

  function Leaves(pending: seq<seq<Tlv>>): seq<Octet> {
    if |pending| == 0 then [] else
    var k := |pending| - 1;
    FlattenAll(pending[k]) + Leaves(pending[..k])
  }

  /** APPEND takes the leaves of what is pending, behind `size` octets. */
  predicate PendingFits(size: nat, pending: seq<seq<Tlv>>)
    decreases |pending|
  {
    |pending| == 0 || (
      var k := |pending| - 1;
      AllLeavesFit(size, pending[k]) && PendingFits(size + |FlattenAll(pending[k])|, pending[..k]))
  }

  lemma PendingFitsTop(size: nat, pending: seq<seq<Tlv>>, ts: seq<Tlv>)
    ensures PendingFits(size, pending + [ts])
       <==> AllLeavesFit(size, ts) && PendingFits(size + |FlattenAll(ts)|, pending)
  {
    assert (pending + [ts])[..|pending|] == pending;
  }

  /**
   * Each frame is completed by its pending segments, with the child that is now open counting for g
   * octets: what a frame has left covers them exactly, and what it got in the end counts for its parent.
   */
  predicate Closes(d: Descriptor, stack: seq<Frame>, pending: seq<seq<Tlv>>, g: nat)
    requires |stack| == |pending|
  {
    |stack| == 0 || (
      var k := |stack| - 1;
      ClosesTop(d, stack[k], pending[k], k, g) && Closes(d, stack[..k], pending[..k], Size(stack[k], pending[k], g)))
  }

  predicate ClosesTop(d: Descriptor, f: Frame, ts: seq<Tlv>, level: nat, g: nat) {
    && AreSegments(d, ts, level)
    && (f.wantNulls ==> NoneIsEndOfContents(ts) && (f.left == -1 || f.left >= g + |EncodeAll(ts)| + 2))
    && (!f.wantNulls ==> f.left == g + |EncodeAll(ts)|)
  }

  /** The octets of a frame's whole TLV. */
  function Size(f: Frame, ts: seq<Tlv>, g: nat): nat {
    f.got + g + |Tail(f, ts)|
  }

  lemma NothingPending(d: Descriptor, ts: seq<Tlv>, level: nat)
    requires AreSegments(d, ts, level) && |EncodeAll(ts)| == 0
    ensures ts == []
  {
    if ts != [] {
      SegmentSizes(d, ts[0], level + 1);
    }
  }

  lemma TailsTop(stack: seq<Frame>, f: Frame, pending: seq<seq<Tlv>>, ts: seq<Tlv>)
    requires |stack| == |pending|
    ensures Tails(stack + [f], pending + [ts]) == Tail(f, ts) + Tails(stack, pending)
    ensures Leaves(pending + [ts]) == FlattenAll(ts) + Leaves(pending)
  {
    assert (stack + [f])[..|stack|] == stack && (pending + [ts])[..|stack|] == pending;
  }

  lemma ClosesOn(d: Descriptor, stack: seq<Frame>, f: Frame, pending: seq<seq<Tlv>>, ts: seq<Tlv>, g: nat)
    requires |stack| == |pending|
    ensures Closes(d, stack + [f], pending + [ts], g)
       <==> ClosesTop(d, f, ts, |stack|, g) && Closes(d, stack, pending, Size(f, ts, g))
  {
    assert (stack + [f])[..|stack|] == stack && (pending + [ts])[..|stack|] == pending;
  }

  /** Popping a finished frame is counting it for its parent. */
  lemma ClosesPop(d: Descriptor, stack: seq<Frame>, prev: Frame, top: Frame, pending: seq<seq<Tlv>>, ts: seq<Tlv>)
    requires |stack| == |pending| && top.left == 0 && !top.wantNulls
    requires prev.left >= -1 && (prev.left != -1 ==> prev.left >= top.got) && (prev.left == -1 ==> prev.wantNulls)
    requires var after := Frame(if prev.left == -1 then -1 else prev.left - top.got, prev.got + top.got, prev.wantNulls);
             Closes(d, stack + [after], pending + [ts], 0)
    ensures Closes(d, stack + [prev] + [top], pending + [ts] + [[]], 0)
  {
    hide Closes;
    var after := Frame(if prev.left == -1 then -1 else prev.left - top.got, prev.got + top.got, prev.wantNulls);
    ClosesOn(d, stack, after, pending, ts, 0);
    ClosesOn(d, stack, prev, pending, ts, top.got);
    ClosesOn(d, stack + [prev], top, pending + [ts], [], 0);
    assert Size(prev, ts, top.got) == Size(after, ts, 0);
  }

  /** Where a run that ends well goes from here. */
  lemma GoesOn(d: Descriptor, c: Config, s: seq<Octet>)
    requires c.Valid() && Run(d, c, s).code == RC_OK && c.phase != Finished
    ensures var m := Moved(d, c, s);
            && m.Go? && m.n <= |s| && m.next.Valid()
            && Run(d, c, s) == Later(m.n, Run(d, m.next, s[m.n..]))
            && (m.n == 0 ==> Rank(m.next.phase) < Rank(c.phase)
                             || (m.next.phase == c.phase && |m.next.stack| < |c.stack|))
  {
    hide Run, CheckFirst, Expect;
    MovedBounds(d, c, s);
    RunMoves(d, c, s);
    if c.phase == Expecting {
      ExpectBounds(d, c, s);
    }
    if c.phase == CheckingTags && CheckFirst(d, c, s).Stop? {
      CheckFirstCodes(d, c, s);
    }
  }

  /** The header a frame was pushed for. */
  datatype Pushing = Pushing(id: seq<Octet>, len: seq<Octet>, f: Frame)
  {
    predicate Valid() {
      && IsIdentifier(id) && IsLength(IsConstructed(id[0]), len)
      && f.got == |id| + |len|
      && f.wantNulls == (LengthOf(IsConstructed(id[0]), len) == INDEFINITE)
      && (!f.wantNulls ==> f.left == LengthOf(IsConstructed(id[0]), len))
      && (f.wantNulls ==> len == INDEFINITE_LENGTH)
    }
  }

  /** Reading a header that is not the end-of-contents octets. */
  lemma PushMove(d: Descriptor, c: Config, s: seq<Octet>) returns (p: Pushing)
    requires c.Valid() && c.phase == Expecting && Moved(d, c, s).Go?
    requires Moved(d, c, s).n > 0 && |Moved(d, c, s).next.stack| > |c.stack|
    ensures p.Valid() && |p.id| + |p.len| <= |s| && s[..|p.id| + |p.len|] == p.id + p.len
    ensures Moved(d, c, s) == Go(|p.id| + |p.len|,
              c.(phase := if IsConstructed(p.id[0]) then Expecting else Filling, stack := c.stack + [p.f]))
    ensures FetchedTag(Visible(c, s)) == Got(TagOf(p.id), |p.id|)
    ensures |c.stack| > 0 ==>
      && d.AllowsAt(|c.stack| - 1, TagOf(p.id))
      && (c.Top().wantNulls ==> !OpensWithZeros(p.id + p.len))
      && (c.Top().left != -1 ==> p.f.left <= c.Top().left - p.f.got && p.f.got <= c.Top().left)
  {
    hide FetchedTag, FetchedLength, RunEnd, IsIdentifier, IsLength, TagOf, LengthOf, Visible;
    var view := Visible(c, s);
    VisiblePrefix(c, s);
    FetchedIsIdentifier(view);
    var tl := FetchedTag(view).used;
    FetchedIsLength(IsConstructed(view[0]), view[tl..]);
    LengthForm(IsConstructed(view[0]), view[tl..]);
    var ll := FetchedLength(IsConstructed(view[0]), view[tl..]).used;
    p := Pushing(view[..tl], view[tl..][..ll], Moved(d, c, s).next.Top());
    IndefiniteOctets(IsConstructed(view[0]), p.len);
    assert s[..tl + ll] == view[..tl + ll] == p.id + p.len;
    assert (p.id + p.len)[0] == view[0] && (p.id + p.len)[1] == view[1];
  }

  lemma VisiblePrefix(c: Config, s: seq<Octet>)
    requires c.Valid()
    ensures Visible(c, s) <= s
  {
  }

  lemma IndefiniteOctets(constructed: bool, l: seq<Octet>)
    requires IsLength(constructed, l)
    ensures LengthOf(constructed, l) == INDEFINITE ==> l == INDEFINITE_LENGTH
  {
  }

  /** What a run that ends well from c consumed and appended, in terms of what it took to complete the stack. */
  predicate Completes(d: Descriptor, c: Config, s: seq<Octet>, pending: seq<seq<Tlv>>, front: seq<Octet>, b: seq<Octet>)
    requires c.Valid()
  {
    && |pending| == |c.stack|
    && Closes(d, c.stack, pending, |front|)
    && Run(d, c, s).consumed == |front| + |Tails(c.stack, pending)|
    && s[..Run(d, c, s).consumed] == front + Tails(c.stack, pending)
    && Run(d, c, s).config.buf == c.buf + b + Leaves(pending)
    && PendingFits(|c.buf| + |b|, pending)
  }

  lemma LastPopAccepts(d: Descriptor, c: Config, s: seq<Octet>) returns (pending: seq<seq<Tlv>>)
    requires c.Valid() && c.phase == Expecting && |c.stack| == 1
    requires c.Top().left <= 0 && !c.Top().wantNulls
    ensures Completes(d, c, s, pending, [], [])
  {
    hide Run;
    var next := c.(phase := Finished, stack := []);
    RunMoves(d, c, s);
    RunMoves(d, next, s[0..]);
    pending := [[]];
    TailsTop([], c.Top(), [], []);
    ClosesOn(d, [], c.Top(), [], [], 0);
    assert [] + [c.Top()] == c.stack;
  }

  lemma PopMoves(d: Descriptor, c: Config, s: seq<Octet>)
    requires c.Valid() && c.phase == Expecting && |c.stack| > 1
    requires c.Top().left <= 0 && !c.Top().wantNulls && Moved(d, c, s).Go?
    ensures c.Top().left == 0
    ensures var k := |c.stack| - 1;
            var prev, got := c.stack[k - 1], c.Top().got;
            var left := if prev.left == -1 then -1 else prev.left - got;
            && (prev.left != -1 ==> prev.left >= got)
            && Moved(d, c, s) == Go(0, c.(stack := c.stack[..k - 1] + [Frame(left, prev.got + got, prev.wantNulls)]))
  {
  }

  lemma PopAccepts(d: Descriptor, c: Config, s: seq<Octet>, later: seq<seq<Tlv>>) returns (pending: seq<seq<Tlv>>)
    requires c.Valid() && c.phase == Expecting && |c.stack| > 1
    requires c.Top().left <= 0 && !c.Top().wantNulls && Moved(d, c, s).Go?
    requires Moved(d, c, s).next.Valid()
    requires Run(d, c, s) == Later(0, Run(d, Moved(d, c, s).next, s[0..]))
    requires Completes(d, Moved(d, c, s).next, s[0..], later, [], [])
    ensures Completes(d, c, s, pending, [], [])
  {
    hide Run, Moved, Closes, Tails, Leaves;
    PopMoves(d, c, s);
    var next := Moved(d, c, s).next;
    var k := |c.stack| - 1;
    var below, prev, top := c.stack[..k - 1], c.stack[k - 1], c.Top();
    var rest, ts := later[..k - 1], later[k - 1];
    pending := rest + [ts] + [[]];
    assert c.stack == below + [prev] + [top];
    assert next.stack == below + [next.Top()] && later == rest + [ts];
    ClosesPop(d, below, prev, top, rest, ts);
    TailsTop(below, next.Top(), rest, ts);
    TailsTop(below, prev, rest, ts);
    TailsTop(below + [prev], top, rest + [ts], []);
    PendingFitsTop(|c.buf|, rest + [ts], []);
    assert s[0..] == s;
  }

  lemma EndOfContentsMoves(d: Descriptor, c: Config, s: seq<Octet>)
    requires c.Valid() && c.phase == Expecting && |c.stack| > 0 && Moved(d, c, s).Go?
    requires !(c.Top().left <= 0 && !c.Top().wantNulls)
    requires Moved(d, c, s).n == 2 && |Moved(d, c, s).next.stack| == |c.stack|
    ensures c.Top().wantNulls && HasRoom(c, 2) && |s| >= 2 && s[..2] == END_OF_CONTENTS
    ensures Moved(d, c, s).next == c.WithTop(Frame(0, c.Top().got + 2, false))
  {
    hide HeaderIn;
  }

  lemma EndOfContentsAccepts(d: Descriptor, c: Config, s: seq<Octet>, later: seq<seq<Tlv>>)
      returns (pending: seq<seq<Tlv>>)
    requires c.Valid() && c.phase == Expecting && |c.stack| > 0 && Moved(d, c, s).Go?
    requires !(c.Top().left <= 0 && !c.Top().wantNulls)
    requires Moved(d, c, s).n == 2 <= |s| && |Moved(d, c, s).next.stack| == |c.stack|
    requires Moved(d, c, s).next.Valid()
    requires Run(d, c, s) == Later(2, Run(d, Moved(d, c, s).next, s[2..]))
    requires Completes(d, Moved(d, c, s).next, s[2..], later, [], [])
    ensures Completes(d, c, s, pending, [], [])
  {
    hide Run, Moved, Closes, Tails, Leaves;
    EndOfContentsMoves(d, c, s);
    var next := Moved(d, c, s).next;
    var k := |c.stack| - 1;
    var below, top, rest, ts := c.stack[..k], c.Top(), later[..k], later[k];
    assert c.stack == below + [top] && next.stack == below + [next.Top()] && later == rest + [ts];
    ClosesOn(d, below, next.Top(), rest, ts, 0);
    NothingPending(d, ts, k);
    ClosesOn(d, below, top, rest, ts, 0);
    TailsTop(below, next.Top(), rest, ts);
    TailsTop(below, top, rest, ts);
    assert Tail(top, []) == END_OF_CONTENTS && Tail(next.Top(), []) == [];
    pending := later;
  }

  /** A step that neither pops nor ends contents pushes. */
  lemma ExpectPushes(d: Descriptor, c: Config, s: seq<Octet>)
    requires c.Valid() && c.phase == Expecting && |c.stack| > 0 && Moved(d, c, s).Go?
    requires !(c.Top().left <= 0 && !c.Top().wantNulls)
    requires !(Moved(d, c, s).n == 2 && |Moved(d, c, s).next.stack| == |c.stack|)
    ensures Moved(d, c, s).n > 0 && |Moved(d, c, s).next.stack| > |c.stack|
  {
    hide HeaderIn;
  }

  /** A segment taken in first is one more segment pending before. */
  lemma SegmentAccepts(d: Descriptor, c: Config, s: seq<Octet>, t: Tlv, below: seq<seq<Tlv>>)
      returns (pending: seq<seq<Tlv>>)
    requires c.Valid() && |c.stack| > 0 && IsSegment(d, t, |c.stack|)
    requires Completes(d, c, s, below, Encode(t), Flatten(t))
    requires d.AllowsAt(|c.stack| - 1, TagOf(t.id)) && (c.Top().wantNulls ==> !OpensWithZeros(Encode(t)))
    requires LeavesFit(|c.buf|, t)
    ensures Completes(d, c, s, pending, [], [])
  {
    hide Run, Closes, Tails, Leaves, Encode, Flatten, IsSegment, LeavesFit, PendingFits;
    var k := |c.stack| - 1;
    var stack, f, rest, ts := c.stack[..k], c.Top(), below[..k], below[k];
    var all := [t] + ts;
    assert c.stack == stack + [f] && below == rest + [ts];
    assert all[1..] == ts;
    ClosesOn(d, stack, f, rest, ts, |Encode(t)|);
    ClosesOn(d, stack, f, rest, all, 0);
    TailsTop(stack, f, rest, ts);
    TailsTop(stack, f, rest, all);
    pending := rest + [all];
    assert Tail(f, all) == Encode(t) + Tail(f, ts);
    assert Size(f, all, 0) == Size(f, ts, |Encode(t)|);
    AllButFirst(t, ts);
    PendingFitsTop(|c.buf| + |Flatten(t)|, rest, ts);
    PendingFitsTop(|c.buf|, rest, all);
    assert c.buf + Flatten(t) + (FlattenAll(ts) + Leaves(rest)) == c.buf + (Flatten(t) + FlattenAll(ts) + Leaves(rest));
  }

  lemma AllButFirst(t: Tlv, ts: seq<Tlv>)
    ensures NoneIsEndOfContents([t] + ts) <==> !OpensWithZeros(Encode(t)) && NoneIsEndOfContents(ts)
    ensures FlattenAll([t] + ts) == Flatten(t) + FlattenAll(ts)
  {
    hide Encode;
    assert ([t] + ts)[1..] == ts && ([t] + ts)[0] == t;
    assert forall i :: 0 <= i < |ts| ==> ts[i] == ([t] + ts)[i + 1];
  }

  lemma SegmentFor(d: Descriptor, p: Pushing, ts: seq<Tlv>, level: nat) returns (t: Tlv)
    requires p.Valid() && IsConstructed(p.id[0]) && ClosesTop(d, p.f, ts, level, 0)
    ensures IsSegment(d, t, level) && t.id == p.id && LengthOctets(t) == p.len
    ensures Encode(t) == p.id + p.len + Tail(p.f, ts) && Flatten(t) == FlattenAll(ts)
    ensures forall size :: LeavesFit(size, t) == AllLeavesFit(size, ts)
    ensures Size(p.f, ts, 0) == |Encode(t)|
  {
    t := if p.f.wantNulls then Indefinite(p.id, ts) else Definite(p.id, p.len, ts);
    assert Encode(t) == p.id + p.len + Tail(p.f, ts);
  }

  lemma ConstructedAccepts(d: Descriptor, c: Config, s: seq<Octet>, p: Pushing, later: seq<seq<Tlv>>)
      returns (t: Tlv, pending: seq<seq<Tlv>>)
    requires c.Valid() && p.Valid() && IsConstructed(p.id[0])
    requires |p.id| + |p.len| <= |s| && s[..|p.id| + |p.len|] == p.id + p.len
    requires c.(stack := c.stack + [p.f]).Valid()
    requires var header, next := |p.id| + |p.len|, c.(stack := c.stack + [p.f]);
             && Run(d, c, s) == Later(header, Run(d, next, s[header..]))
             && Completes(d, next, s[header..], later, [], [])
    ensures IsSegment(d, t, |c.stack|) && t.id == p.id && Completes(d, c, s, pending, Encode(t), Flatten(t))
    ensures LengthOctets(t) == p.len && LeavesFit(|c.buf|, t)
  {
    hide Run, Completes, Closes, Tails, Leaves, IsSegment, Encode, Flatten, ClosesTop, Tail, Size, IsIdentifier, IsLength;
    var header := |p.id| + |p.len|;
    var next := c.(stack := c.stack + [p.f]);
    var ts;
    pending, ts := TopCompleted(d, next, c.stack, p.f, s[header..], later);
    t := SegmentFor(d, p, ts, |c.stack|);
    Folds(d, c, next, s, header, pending, p.id + p.len, Tail(p.f, ts), FlattenAll(ts));
  }

  /** What completes a stack, the top frame apart from the others. */
  lemma TopCompleted(d: Descriptor, c: Config, stack: seq<Frame>, f: Frame, s: seq<Octet>, later: seq<seq<Tlv>>)
      returns (pending: seq<seq<Tlv>>, ts: seq<Tlv>)
    requires c.Valid() && c.stack == stack + [f] && Completes(d, c, s, later, [], [])
    ensures |pending| == |stack| && ClosesTop(d, f, ts, |stack|, 0) && Closes(d, stack, pending, Size(f, ts, 0))
    ensures Run(d, c, s).consumed == |Tail(f, ts) + Tails(stack, pending)|
    ensures s[..Run(d, c, s).consumed] == Tail(f, ts) + Tails(stack, pending)
    ensures Run(d, c, s).config.buf == c.buf + (FlattenAll(ts) + Leaves(pending))
    ensures AllLeavesFit(|c.buf|, ts) && PendingFits(|c.buf| + |FlattenAll(ts)|, pending)
  {
    hide Run, Closes, Tails, Leaves, ClosesTop, Tail, Size, PendingFits;
    var k := |stack|;
    pending, ts := later[..k], later[k];
    assert later == pending + [ts];
    ClosesOn(d, stack, f, pending, ts, 0);
    TailsTop(stack, f, pending, ts);
    PendingFitsTop(|c.buf|, pending, ts);
  }

  /** A stretch of the input and what completes a frame behind it are what completes the stack below, and a TLV in front. */
  lemma Folds(d: Descriptor, c: Config, next: Config, s: seq<Octet>, n: nat, pending: seq<seq<Tlv>>,
              head: seq<Octet>, tail: seq<Octet>, b: seq<Octet>)
    requires c.Valid() && next.Valid() && |pending| == |c.stack| && n <= |s| && s[..n] == head && next.buf == c.buf
    requires Run(d, c, s) == Later(n, Run(d, next, s[n..]))
    requires Closes(d, c.stack, pending, |head + tail|)
    requires Run(d, next, s[n..]).consumed == |tail + Tails(c.stack, pending)|
    requires s[n..][..Run(d, next, s[n..]).consumed] == tail + Tails(c.stack, pending)
    requires Run(d, next, s[n..]).config.buf == c.buf + (b + Leaves(pending))
    requires PendingFits(|c.buf| + |b|, pending)
    ensures Completes(d, c, s, pending, head + tail, b)
  {
    hide Run, Closes, Tails, Leaves;
    var m, tails := Run(d, next, s[n..]).consumed, Tails(c.stack, pending);
    assert head + (tail + tails) == head + tail + tails;
    assert c.buf + (b + Leaves(pending)) == c.buf + b + Leaves(pending);
  }

  /** A leaf, once its frame is pushed, is filled in one step if the run ends well. */
  lemma FillMoves(d: Descriptor, c: Config, s: seq<Octet>, p: Pushing)
    requires c.Valid() && c.phase == Expecting && p.Valid() && !IsConstructed(p.id[0])
    requires |p.id| + |p.len| <= |s|
    requires c.(phase := Filling, stack := c.stack + [p.f]).Valid()
    requires var header, filling := |p.id| + |p.len|, c.(phase := Filling, stack := c.stack + [p.f]);
             && Run(d, c, s) == Later(header, Run(d, filling, s[header..]))
             && Run(d, c, s).code == RC_OK
    ensures p.f.left >= 0 && |p.id| + |p.len| + p.f.left <= |s|
    ensures var header := |p.id| + |p.len|;
            var content := s[header..][..p.f.left];
            && (content == [] || AppendFits(|c.buf| + |content|))
            && Emptied(c, header + p.f.left, content).Valid()
            && Run(d, c, s)
            == Later(header + p.f.left, Run(d, Emptied(c, header + p.f.left, content), s[header..][p.f.left..]))
  {
    hide Run, AppendFits;
    var header, filling := |p.id| + |p.len|, c.(phase := Filling, stack := c.stack + [p.f]);
    GoesOn(d, filling, s[header..]);
    assert filling.stack[..|c.stack|] == c.stack;
    var m := Moved(d, filling, s[header..]);
    assert m.next == Emptied(c, header + p.f.left, s[header..][..p.f.left]);
  }

  lemma LeafAccepts(d: Descriptor, c: Config, s: seq<Octet>, p: Pushing, content: seq<Octet>, rest: seq<Octet>,
                    n: nat, done: Config, later: seq<seq<Tlv>>)
      returns (t: Tlv, pending: seq<seq<Tlv>>)
    requires c.Valid() && p.Valid() && !IsConstructed(p.id[0]) && p.f.left == |content|
    requires content == [] || AppendFits(|c.buf| + |content|)
    requires s == p.id + p.len + content + rest && n == |p.id| + |p.len| + |content|
    requires done == Emptied(c, n, content) && done.Valid()
    requires Run(d, c, s) == Later(n, Run(d, done, rest)) && Completes(d, done, rest, later, [], [])
    ensures IsSegment(d, t, |c.stack|) && t.id == p.id && Completes(d, c, s, pending, Encode(t), Flatten(t))
    ensures LengthOctets(t) == p.len && LeavesFit(|c.buf|, t)
  {
    hide Run, Closes, Tails, Leaves;
    var k := |c.stack|;
    pending := later[..k];
    var ts := later[k];
    assert later == pending + [ts];
    ClosesOn(d, c.stack, done.Top(), pending, ts, 0);
    NothingPending(d, ts, k);
    TailsTop(c.stack, done.Top(), pending, ts);
    t := Leaf(p.id, p.len, content);
    assert Encode(t) == p.id + p.len + content;
    assert s[..n] == Encode(t) && s[n..] == rest;
    PendingFitsTop(|done.buf|, pending, ts);
    assert PendingFits(|c.buf| + |content|, pending);
    assert s[..n + Run(d, done, rest).consumed] == Encode(t) + Tails(c.stack, pending);
    assert Run(d, c, s).config.buf == c.buf + content + Leaves(pending);
  }

  /** A run that ends well with frames on the stack takes in exactly what completes them. */
  lemma {:induction false} Accepts(d: Descriptor, c: Config, s: seq<Octet>) returns (pending: seq<seq<Tlv>>)
    requires c.Valid() && c.phase == Expecting && |c.stack| > 0 && Run(d, c, s).code == RC_OK
    ensures Completes(d, c, s, pending, [], [])
    decreases |s|, |c.stack|, 1
  {
    hide Run, Moved, Closes, Completes;
    GoesOn(d, c, s);
    var k := |c.stack| - 1;
    var f := c.Top();
    if f.left <= 0 && !f.wantNulls {
      if k == 0 {
        pending := LastPopAccepts(d, c, s);
      } else {
        PopMoves(d, c, s);
        var next := Moved(d, c, s).next;
        var later := Accepts(d, next, s[0..]);
        pending := PopAccepts(d, c, s, later);
      }
    } else if Moved(d, c, s).n == 2 && |Moved(d, c, s).next.stack| == |c.stack| {
      EndOfContentsMoves(d, c, s);
      var later := Accepts(d, Moved(d, c, s).next, s[2..]);
      pending := EndOfContentsAccepts(d, c, s, later);
    } else {
      ExpectPushes(d, c, s);
      var t, below := AcceptsSegment(d, c, s);
      pending := SegmentAccepts(d, c, s, t, below);
    }
  }

  /** A run that ends well and pushes a frame takes in a segment first. */
  lemma {:induction false} AcceptsSegment(d: Descriptor, c: Config, s: seq<Octet>)
      returns (t: Tlv, pending: seq<seq<Tlv>>)
    requires c.Valid() && c.phase == Expecting && Run(d, c, s).code == RC_OK
    requires Moved(d, c, s).Go? && Moved(d, c, s).n > 0 && |Moved(d, c, s).next.stack| > |c.stack|
    ensures IsSegment(d, t, |c.stack|) && Completes(d, c, s, pending, Encode(t), Flatten(t))
    ensures LeavesFit(|c.buf|, t)
    ensures FetchedTag(Visible(c, s)).Got? && FetchedTag(Visible(c, s)).value == TagOf(t.id)
    ensures |c.stack| > 0 ==>
      d.AllowsAt(|c.stack| - 1, TagOf(t.id)) && (c.Top().wantNulls ==> !OpensWithZeros(Encode(t)))
    decreases |s|, |c.stack|, 0
  {
    hide Run, Moved, Closes, Completes, IsSegment, LeavesFit, Encode, Flatten, IsIdentifier, IsLength, TagOf;
    hide LengthOctets, Contents, AppendFits;
    GoesOn(d, c, s);
    var p := PushMove(d, c, s);
    var header := p.id + p.len;
    var next := Moved(d, c, s).next;
    if IsConstructed(p.id[0]) {
      var later := Accepts(d, next, s[|header|..]);
      t, pending := ConstructedAccepts(d, c, s, p, later);
    } else {
      FillMoves(d, c, s, p);
      var content, rest := s[|header|..][..p.f.left], s[|header|..][p.f.left..];
      assert s == p.id + p.len + content + rest;
      var n := |header| + p.f.left;
      var done := Emptied(c, n, content);
      var later := Accepts(d, done, rest);
      t, pending := LeafAccepts(d, c, s, p, content, rest, n, done, later);
    }
    if |c.stack| > 0 && c.Top().wantNulls {
      SegmentHeader(d, t, |c.stack|);
    }
  }

  /** The first step of a run that gets anywhere checks the tag. */
  lemma FirstHeader(d: Descriptor, s: seq<Octet>) returns (id: seq<Octet>, l: seq<Octet>)
    requires Moved(d, INITIAL, s).Go?
    ensures IsIdentifier(id) && IsLength(IsConstructed(id[0]), l)
    ensures FetchedTag(s) == Got(TagOf(id), |id|) && d.Takes(TagOf(id))
    ensures |id| + |l| <= |s| && s[..|id| + |l|] == id + l
    ensures Moved(d, INITIAL, s)
         == if IsConstructed(id[0]) then
              Go(0, INITIAL.(phase := Expecting, left := LengthOf(IsConstructed(id[0]), l)))
            else
              Go(|id| + |l|, INITIAL.(phase := Primitive, left := LengthOf(IsConstructed(id[0]), l)))
  {
    hide CheckedTags, FetchedTag, FetchedLength, RunEnd, IsIdentifier, IsLength, TagOf, LengthOf;
    CheckedSingle(d, s);
    FetchedIsIdentifier(s);
    var tl := FetchedTag(s).used;
    FetchedIsLength(IsConstructed(s[0]), s[tl..]);
    id, l := s[..tl], s[tl..][..FetchedLength(IsConstructed(s[0]), s[tl..]).used];
    assert id[0] == s[0];
  }

  lemma PrimitiveAccepts(d: Descriptor, s: seq<Octet>, id: seq<Octet>, l: seq<Octet>) returns (t: Tlv)
    requires IsIdentifier(id) && IsLength(IsConstructed(id[0]), l) && d.Takes(TagOf(id)) && !IsConstructed(id[0])
    requires |id| + |l| <= |s| && s[..|id| + |l|] == id + l
    requires var c := INITIAL.(phase := Primitive, left := LengthOf(false, l));
             && Run(d, INITIAL, s) == Later(|id| + |l|, Run(d, c, s[|id| + |l|..]))
             && Run(d, INITIAL, s).code == RC_OK
    ensures IsOctetString(d, t) && LeavesFit(0, t) && Run(d, INITIAL, s).consumed == |Encode(t)|
    ensures s[..|Encode(t)|] == Encode(t) && Run(d, INITIAL, s).config.buf == Flatten(t)
  {
    hide Run, AppendFits, IsIdentifier, IsLength, TagOf, LengthOf;
    var n := LengthOf(false, l);
    var c, rest := INITIAL.(phase := Primitive, left := n), s[|id| + |l|..];
    GoesOn(d, c, rest);
    var m := Moved(d, c, rest);
    RunMoves(d, m.next, rest[m.n..]);
    t := Leaf(id, l, rest[..n]);
    assert Encode(t) == id + l + rest[..n];
    assert s[..|id| + |l| + n] == id + l + rest[..n];
  }

  lemma RootPushes(d: Descriptor, c: Config, s: seq<Octet>)
    requires c.Valid() && c.phase == Expecting && c.stack == [] && Moved(d, c, s).Go?
    ensures Moved(d, c, s).n > 0 && |Moved(d, c, s).next.stack| > 0
  {
    hide HeaderIn;
  }

  /** Whatever is decoded is an encoding of an OCTET STRING, consumed to its end and flattened. */
  lemma DecodedIsOctetString(d: Descriptor, s: seq<Octet>) returns (t: Tlv)
    requires Run(d, INITIAL, s).code == RC_OK
    ensures IsOctetString(d, t) && LeavesFit(0, t) && Run(d, INITIAL, s).consumed == |Encode(t)|
    ensures s[..|Encode(t)|] == Encode(t) && Run(d, INITIAL, s).config.buf == Flatten(t)
  {
    hide Run, Moved, FetchedTag, IsSegment, Encode, Flatten;
    GoesOn(d, INITIAL, s);
    var id, l := FirstHeader(d, s);
    if !IsConstructed(id[0]) {
      t := PrimitiveAccepts(d, s, id, l);
    } else {
      var c := Moved(d, INITIAL, s).next;
      assert s[0..] == s && Visible(c, s) == s;
      GoesOn(d, c, s);
      RootPushes(d, c, s);
      var pending;
      t, pending := AcceptsSegment(d, c, s);
    }
  }

  /** t is the encoding that opens s. */
  predicate IsDecodedBy(d: Descriptor, s: seq<Octet>, t: Tlv, n: nat, octets: seq<Octet>) {
    IsOctetString(d, t) && n <= |s| && s[..n] == Encode(t) && octets == Flatten(t)
  }

  /**
   * OCTET_STRING_decode_ber succeeds exactly on the encodings of OCTET STRINGs whose leaves APPEND takes, with exactly
   * their octets.
   */
  lemma DecodeExact(d: Descriptor, s: seq<Octet>, n: nat, octets: seq<Octet>)
    ensures (var r := Run(d, INITIAL, s); r.code == RC_OK && r.consumed == n && r.config.buf == octets)
       <==> exists t :: IsDecodedBy(d, s, t, n, octets) && LeavesFit(0, t)
  {
    hide Run, IsOctetString, Encode, Flatten, LeavesFit;
    var r := Run(d, INITIAL, s);
    if r.code == RC_OK && r.consumed == n && r.config.buf == octets {
      var t := DecodedIsOctetString(d, s);
      assert IsDecodedBy(d, s, t, n, octets);
    }
    forall t | IsDecodedBy(d, s, t, n, octets) && LeavesFit(0, t)
      ensures r.code == RC_OK && r.consumed == n && r.config.buf == octets
    {
      assert s == Encode(t) + s[n..];
      DecodeFlattens(d, t, s[n..]);
    }
  }

  /** Of contents below 2^30 octets it takes all leaves. */
  lemma DecodeSmallExact(d: Descriptor, s: seq<Octet>, n: nat, octets: seq<Octet>)
    requires |octets| < CAPACITY
    ensures (var r := Run(d, INITIAL, s); r.code == RC_OK && r.consumed == n && r.config.buf == octets)
       <==> exists t :: IsDecodedBy(d, s, t, n, octets)
  {
    hide Run, IsOctetString, Encode, Flatten, LeavesFit;
    DecodeExact(d, s, n, octets);
    forall t | IsDecodedBy(d, s, t, n, octets)
      ensures LeavesFit(0, t)
    {
      FewLeavesFit(0, t);
    }
  }

  /** Of inputs below 2^32 octets none decodes to 2^30 octets or more. */
  lemma DecodedExactly(d: Descriptor, s: seq<Octet>, n: nat, octets: seq<Octet>)
    requires |s| < TWO_TO_32
    ensures (var r := Run(d, INITIAL, s); r.code == RC_OK && r.consumed == n && r.config.buf == octets)
       <==> |octets| < CAPACITY && exists t :: IsDecodedBy(d, s, t, n, octets)
  {
    hide Run, Asked, IsDecodedBy;
    RunRefused(d, INITIAL, s);
    if Run(d, INITIAL, s).code == RC_OK {
      AskedIsContents(d, INITIAL, s);
    }
    if |octets| < CAPACITY {
      DecodeSmallExact(d, s, n, octets);
    }
  }
}
