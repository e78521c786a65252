/** How the frames of the decoder nest, in every state that it reaches. */
module OctetNesting {
  import opened Octets
  import opened Words
  import opened BerTag
  import opened BerLength
  import opened BerDecoder
  import opened OctetMachine
  import opened OctetFragments

  /** Frames as the decoder nests them: an indefinite one has all the room of the frame around it, none has more. */
  predicate Nested(stack: seq<Frame>) {
    forall i :: 0 <= i < |stack| ==> Within(RoomAt(stack, i), stack[i])
  }

  /** The room that the frame below leaves to a frame. */
  function RoomAt(stack: seq<Frame>, i: nat): int
    requires i <= |stack|
  {
    if i == 0 then -1 else stack[i - 1].left
  }

  predicate Within(room: int, f: Frame) {
    if room == -1 then f.left == -1 <==> f.wantNulls
    else f.left >= 0 && f.left + f.got <= room && (f.wantNulls ==> f.left + f.got == room)
  }

  lemma NestedBelow(stack: seq<Frame>, f: Frame)
    ensures Nested(stack + [f]) <==> Nested(stack) && Within(RoomAt(stack, |stack|), f)
  {
    hide Within;
    var all := stack + [f];
    assert all[|stack|] == f;
    assert forall i :: 0 <= i <= |stack| ==> RoomAt(all, i) == RoomAt(stack, i);
    if Nested(all) {
      forall i | 0 <= i < |stack|
        ensures Within(RoomAt(stack, i), stack[i])
      {
        assert Within(RoomAt(all, i), all[i]);
      }
    }
  }

  /** What holds of the context at the beginning and after every step. */
  predicate Kept(c: Config) {
    && c.Valid() && Nested(c.stack)
    && (c.phase == Filling ==> !c.Top().wantNulls)
    && (c.phase == CheckingTags ==> c == INITIAL)
  }

  lemma PoppedKeeps(c: Config)
    requires Kept(c) && c.phase == Expecting && |c.stack| > 0 && c.Top().left == 0 && !c.Top().wantNulls
    ensures Popped(c).Go? && Kept(Popped(c).next)
    ensures Popped(c).next.phase == Expecting ==> |Popped(c).next.stack| > 0
  {
    hide Nested;
    var k := |c.stack|;
    var top := c.Top();
    assert c.stack == c.stack[..k - 1] + [top];
    NestedBelow(c.stack[..k - 1], top);
    if k == 1 {
      NoFrames([]);
    } else {
      var below, prev := c.stack[..k - 2], c.stack[k - 2];
      assert c.stack[..k - 1] == below + [prev];
      NestedBelow(below, prev);
      var after := Frame(if prev.left == -1 then -1 else prev.left - top.got, prev.got + top.got, prev.wantNulls);
      NestedBelow(below, after);
      assert Within(prev.left, top);
      assert Popped(c).next.stack == below + [after];
    }
  }

  lemma NoFrames(stack: seq<Frame>)
    requires stack == []
    ensures Nested(stack)
  {
  }

  /** The top frame replaced by one within the same room. */
  lemma ReplacedKeeps(c: Config, f: Frame)
    requires c.Valid() && Nested(c.stack) && |c.stack| > 0
    requires Within(RoomAt(c.stack, |c.stack| - 1), f)
    ensures Nested(c.WithTop(f).stack)
  {
    hide Nested, Within;
    var below := c.stack[..|c.stack| - 1];
    assert c.stack == below + [c.Top()];
    NestedBelow(below, c.Top());
    NestedBelow(below, f);
  }

  lemma EnteredKeeps(d: Descriptor, c: Config, s: seq<Octet>, tag: nat, header: nat, len: int)
    requires Kept(c) && c.phase == Expecting && HeaderIn(Visible(c, s)) == Got((tag, len), header)
    ensures 2 <= |Visible(c, s)| && len >= -1
    ensures Kept(Entered(d, c, Visible(c, s), tag, header, len).next)
    ensures var m := Entered(d, c, Visible(c, s), tag, header, len);
            m.Go? ==> |m.next.stack| > 0 && m.next.phase in {Expecting, Filling}
  {
    hide HeaderIn, Nested;
    var view := Visible(c, s);
    var m := Entered(d, c, view, tag, header, len);
    if m.Go? && |c.stack| > 0 && c.Top().wantNulls && view[0] == 0 && view[1] == 0 {
      TopWithin(c);
      assert c.Top().left == -1 || c.Top().left >= 2;
      ReplacedKeeps(c, Frame(0, c.Top().got + 2, false));
    } else if m.Go? {
      NestedBelow(c.stack, m.next.Top());
    }
  }

  lemma TopWithin(c: Config)
    requires Nested(c.stack) && |c.stack| > 0
    ensures Within(RoomAt(c.stack, |c.stack| - 1), c.Top())
  {
  }

  /** Every step keeps it. */
  lemma MovedKeeps(d: Descriptor, c: Config, s: seq<Octet>)
    requires Kept(c)
    ensures Kept(Moved(d, c, s).next)
  {
    hide Nested, HeaderIn, CheckedTags, Popped, Entered, AppendFits;
    match c.phase
    case CheckingTags =>
      CheckFirstBounds(d, c, s);
      NoFrames([]);
    case Expecting =>
      if |c.stack| > 0 && c.Top().left <= 0 && !c.Top().wantNulls {
        TopWithin(c);
        PoppedKeeps(c);
      } else if HeaderIn(Visible(c, s)).Got? {
        var ((tag, len), header) := (HeaderIn(Visible(c, s)).value, HeaderIn(Visible(c, s)).used);
        EnteredKeeps(d, c, s, tag, header, len);
      }
    case Filling =>
      TopWithin(c);
      var len := Min(|s|, c.Top().left);
      ReplacedKeeps(c, Frame(c.Top().left - len, c.Top().got + len, c.Top().wantNulls));
    case Primitive =>
    case Finished =>
  }

  /** So popping a frame, which may fail if the frame around it is too small, does not. */
  lemma PopNeverFails(d: Descriptor, c: Config, s: seq<Octet>)
    requires Kept(c) && c.phase == Expecting && |c.stack| > 0 && c.Top().left <= 0 && !c.Top().wantNulls
    ensures Moved(d, c, s).Go?
  {
    hide Nested, Popped;
    TopWithin(c);
    PoppedKeeps(c);
  }

  /** Between two calls the decoder stands where it stopped: it has not been told what it needs next. */
  predicate Resting(d: Descriptor, c: Config, kept: seq<Octet>) {
    Kept(c) && Moved(d, c, kept) == Stop(RC_WMORE, 0, c) && (c.phase == Expecting ==> |c.stack| > 0)
  }

  /** The first header has been checked before it is read as a frame. */
  predicate Ready(c: Config, s: seq<Octet>) {
    Kept(c) && (c.phase == Expecting && c.stack == [] ==> HeaderIn(s).Got?)
  }

  lemma MovedReady(d: Descriptor, c: Config, s: seq<Octet>)
    requires Ready(c, s) && Moved(d, c, s).Go?
    ensures var m := Moved(d, c, s); m.n <= |s| && Ready(m.next, s[m.n..])
  {
    hide Nested, Kept, HeaderIn, Entered, Popped, AppendFits, CheckedTags;
    MovedKeeps(d, c, s);
    ValidKept(c);
    MovedBounds(d, c, s);
    match c.phase
    case CheckingTags =>
      CheckedSingle(d, s);
      CheckedHeader(d, s);
      assert s[0..] == s;
    case Expecting => ExpectLeavesFrames(d, c, s);
    case _ =>
  }

  lemma ValidKept(c: Config)
    requires Kept(c)
    ensures c.Valid() && (c.phase == CheckingTags ==> c == INITIAL)
  {
  }

  lemma CheckedHeader(d: Descriptor, s: seq<Octet>)
    ensures CheckedTags(d.Expects(), s, 0).Accepted? ==> HeaderIn(s).Got?
  {
    hide CheckedTags, FetchedTag, FetchedLength;
    CheckedSingle(d, s);
  }

  lemma ExpectLeavesFrames(d: Descriptor, c: Config, s: seq<Octet>)
    requires Kept(c) && c.phase == Expecting && Expect(d, c, s).Go?
    ensures Expect(d, c, s).next.phase == Expecting ==> |Expect(d, c, s).next.stack| > 0
  {
    hide HeaderIn, Nested;
  }

  /** Where a call that wants more comes to rest. */
  lemma {:induction false} RunRests(d: Descriptor, c: Config, s: seq<Octet>)
    requires Ready(c, s) && Run(d, c, s).code == RC_WMORE
    ensures var r := Run(d, c, s); Resting(d, r.config, s[r.consumed..])
    decreases |s|, Rank(c.phase), |c.stack|
  {
    hide Moved, Ready, Kept;
    ReadyKept(c, s);
    MovedBounds(d, c, s);
    var m := Moved(d, c, s);
    if m.Go? {
      MovedReady(d, c, s);
      RunRests(d, m.next, s[m.n..]);
      var r := Run(d, m.next, s[m.n..]);
      assert s[m.n..][r.consumed..] == s[m.n + r.consumed..];
    } else {
      StepRests(d, c, s);
    }
  }

  lemma ReadyKept(c: Config, s: seq<Octet>)
    requires Ready(c, s)
    ensures Kept(c) && c.Valid()
  {
  }

  lemma StepRests(d: Descriptor, c: Config, s: seq<Octet>)
    requires Ready(c, s) && Moved(d, c, s).Stop? && Moved(d, c, s).code == RC_WMORE
    ensures var m := Moved(d, c, s); m.n <= |s| && Resting(d, m.next, s[m.n..])
  {
    hide Nested, HeaderIn, CheckedTags, Popped, Entered, AppendFits;
    MovedKeeps(d, c, s);
    MovedBounds(d, c, s);
    match c.phase
    case CheckingTags =>
      CheckFirstBounds(d, c, s);
      assert s[0..] == s;
    case Expecting =>
      ExpectBounds(d, c, s);
      assert s[0..] == s;
      if c.stack == [] {
        NoFrameNoWant(d, c, s);
      }
    case Filling => FillRests(d, c, s);
    case Primitive => FillRests(d, c, s);
    case Finished =>
  }

  lemma FillRests(d: Descriptor, c: Config, s: seq<Octet>)
    requires c.Valid() && c.phase in {Filling, Primitive} && Moved(d, c, s).Stop? && Moved(d, c, s).code == RC_WMORE
    ensures var m := Moved(d, c, s);
            m.next.Valid() && s[m.n..] == [] && Moved(d, m.next, []) == Stop(RC_WMORE, 0, m.next)
  {
    hide AppendFits;
    var next := Moved(d, c, s).next;
    assert next.buf + [] == next.buf;
    if c.phase == Filling {
      var top := next.Top();
      assert next.stack == next.stack[..|next.stack| - 1] + [top];
      assert Frame(top.left - 0, top.got + 0, top.wantNulls) == top;
    }
  }

  lemma NoFrameNoWant(d: Descriptor, c: Config, s: seq<Octet>)
    requires c.Valid() && c.phase == Expecting && c.stack == [] && HeaderIn(s).Got?
    ensures Expect(d, c, s).Stop? ==> Expect(d, c, s).code == RC_FAIL
  {
    hide HeaderIn;
    assert Visible(c, s) == s;
  }
}
