/** Fragmentation: OCTET_STRING_decode_ber does not care where its input is cut. */
module OctetFragments {
  import opened Octets
  import opened Words
  import opened BerTag
  import opened BerLength
  import opened BerDecoder
  import opened OctetMachine

  /** Sizes below which APPEND never refuses. */
  const CAPACITY := 0x4000_0000

  lemma SmallFits(size: nat)
    requires size < CAPACITY
    ensures AppendFits(size)
  {
  }

  lemma CheckFirstStable(d: Descriptor, c: Config, s: seq<Octet>, t: seq<Octet>)
    requires c.Valid() && c.phase == CheckingTags
    requires !(CheckFirst(d, c, s).Stop? && CheckFirst(d, c, s).code == RC_WMORE)
    ensures CheckFirst(d, c, s + t) == CheckFirst(d, c, s)
  {
    hide FetchedTag, FetchedLength, RunEnd, CheckedTags;
    CheckedSingle(d, s);
    CheckedSingle(d, s + t);
    FetchTagStable(s, t);
    if FetchedTag(s).Got? {
      FetchedIsIdentifier(s);
      var tl := FetchedTag(s).used;
      assert (s + t)[tl..] == s[tl..] + t;
      if d.Takes(FetchedTag(s).value) {
        FetchLengthStable(IsConstructed(s[0]), s[tl..], t);
      }
    }
  }

  /** The decoder only ever sees more of the same. */
  lemma VisibleGrows(c: Config, s: seq<Octet>, t: seq<Octet>) returns (more: seq<Octet>)
    requires c.Valid()
    ensures Visible(c, s + t) == Visible(c, s) + more
  {
    var k := |Visible(c, s)|;
    more := Visible(c, s + t)[k..];
  }

  lemma ExpectStable(d: Descriptor, c: Config, s: seq<Octet>, t: seq<Octet>)
    requires c.Valid() && c.phase == Expecting
    requires !(Expect(d, c, s).Stop? && Expect(d, c, s).code == RC_WMORE)
    ensures Expect(d, c, s + t) == Expect(d, c, s)
  {
    hide HeaderIn, Visible, Popped, Pushed;
    if !(|c.stack| > 0 && c.Top().left <= 0 && !c.Top().wantNulls) {
      var view := Visible(c, s);
      var more := VisibleGrows(c, s, t);
      HeaderStable(view, more);
    }
  }

  /** The size a step asks APPEND for, or the size there is if it asks for nothing. */
  function StepAsks(c: Config, s: seq<Octet>): nat
    requires c.Valid()
  {
    match c.phase
    case Filling => |c.buf| + Min(|s|, c.Top().left)
    case Primitive => |c.buf| + Min(|s|, c.left)
    case _ => |c.buf|
  }

  /** The largest size a run asks APPEND for, which is that of its last step. */
  function Asked(d: Descriptor, c: Config, s: seq<Octet>): nat
    requires c.Valid()
    decreases |s|, Rank(c.phase), |c.stack|
  {
    MovedBounds(d, c, s);
    match Moved(d, c, s)
    case Stop(_, _, _) => StepAsks(c, s)
    case Go(n, next) => Asked(d, next, s[n..])
  }

  /** A step leaves the size it has asked for, unless it fails. */
  lemma StepLeaves(d: Descriptor, c: Config, s: seq<Octet>)
    requires c.Valid()
    ensures var m := Moved(d, c, s);
            && |c.buf| <= StepAsks(c, s) <= |c.buf| + |s|
            && (!(m.Stop? && m.code == RC_FAIL) ==> |m.next.buf| == StepAsks(c, s))
            && (m.Go? ==> |m.next.buf| + (|s| - m.n) <= |c.buf| + |s|)
  {
    hide CheckFirst, Expect, AppendFits;
    MovedBounds(d, c, s);
    match c.phase
    case CheckingTags => CheckFirstKeeps(d, c, s); CheckFirstBounds(d, c, s);
    case Expecting => ExpectKeeps(d, c, s); ExpectBounds(d, c, s);
    case _ =>
  }

  lemma {:induction false} AskedBounds(d: Descriptor, c: Config, s: seq<Octet>)
    requires c.Valid()
    ensures StepAsks(c, s) <= Asked(d, c, s) <= |c.buf| + |s|
    decreases |s|, Rank(c.phase), |c.stack|
  {
    hide Moved;
    MovedBounds(d, c, s);
    StepLeaves(d, c, s);
    var m := Moved(d, c, s);
    if m.Go? {
      AskedBounds(d, m.next, s[m.n..]);
      StepLeaves(d, m.next, s[m.n..]);
    }
  }

  /** A run that does not fail has asked for the contents it ends with. */
  lemma {:induction false} AskedIsContents(d: Descriptor, c: Config, s: seq<Octet>)
    requires c.Valid() && Run(d, c, s).code != RC_FAIL
    ensures Asked(d, c, s) == |Run(d, c, s).config.buf|
    decreases |s|, Rank(c.phase), |c.stack|
  {
    hide Moved;
    MovedBounds(d, c, s);
    StepLeaves(d, c, s);
    var m := Moved(d, c, s);
    if m.Go? {
      AskedIsContents(d, m.next, s[m.n..]);
    }
  }

  /** A step that does not want more is the same with more input. */
  lemma MovedStable(d: Descriptor, c: Config, s: seq<Octet>, t: seq<Octet>)
    requires c.Valid() && StepAsks(c, s + t) < CAPACITY
    requires !(Moved(d, c, s).Stop? && Moved(d, c, s).code == RC_WMORE)
    ensures Moved(d, c, s + t) == Moved(d, c, s)
  {
    hide CheckFirst, Expect, AppendFits;
    match c.phase
    case CheckingTags => CheckFirstStable(d, c, s, t);
    case Expecting => ExpectStable(d, c, s, t);
    case Filling =>
      var len := Min(|s|, c.Top().left);
      SmallFits(|c.buf| + len);
      assert (s + t)[..len] == s[..len];
    case Primitive =>
      var len := Min(|s|, c.left);
      SmallFits(|c.buf| + len);
      assert (s + t)[..len] == s[..len];
    case Finished =>
  }

  function Resumed(n: nat, m: Move): Move {
    if m.Go? then Go(n + m.n, m.next) else Stop(m.code, n + m.n, m.next)
  }

  /** Appending a fragment and then the next one appends both. */
  lemma FillTwice(c: Config, s: seq<Octet>, t: seq<Octet>)
    requires c.Valid() && c.phase == Filling && |c.buf| + Min(|s + t|, c.Top().left) < CAPACITY
    requires |s| < c.Top().left
    ensures var m := Fill(c, s);
            && m == Stop(RC_WMORE, |s|, m.next) && m.next.Valid() && m.next.phase == Filling
            && Fill(c, s + t) == Resumed(|s|, Fill(m.next, t))
  {
    hide AppendFits;
    var top := c.Top();
    var len := Min(|s + t|, top.left);
    SmallFits(|c.buf| + |s|);
    SmallFits(|c.buf| + len);
    var next := Fill(c, s).next;
    assert next.stack[..|c.stack| - 1] == c.stack[..|c.stack| - 1];
  }

  lemma FillPrimitiveTwice(c: Config, s: seq<Octet>, t: seq<Octet>)
    requires c.Valid() && c.phase == Primitive && |c.buf| + Min(|s + t|, c.left) < CAPACITY
    requires |s| < c.left
    ensures var m := FillPrimitive(c, s);
            && m == Stop(RC_WMORE, |s|, m.next) && m.next.Valid() && m.next.phase == Primitive
            && FillPrimitive(c, s + t) == Resumed(|s|, FillPrimitive(m.next, t))
  {
    hide AppendFits;
    var len := Min(|s + t|, c.left);
    SmallFits(|c.buf| + |s|);
    SmallFits(|c.buf| + len);
  }

  /** A step that wants more has taken all it could, and resumes where it stopped. */
  lemma MovedResumes(d: Descriptor, c: Config, s: seq<Octet>, t: seq<Octet>)
    requires c.Valid() && StepAsks(c, s + t) < CAPACITY
    requires Moved(d, c, s).Stop? && Moved(d, c, s).code == RC_WMORE
    ensures var m := Moved(d, c, s);
            && m.n <= |s| && m.next.Valid()
            && Moved(d, c, s + t) == Resumed(m.n, Moved(d, m.next, s[m.n..] + t))
            && StepAsks(c, s + t) == StepAsks(m.next, s[m.n..] + t)
  {
    hide CheckFirst, Expect, Fill, FillPrimitive;
    StepAsksOn(d, c, s, t);
    match c.phase
    case CheckingTags =>
      CheckFirstBounds(d, c, s);
      assert s[0..] == s;
    case Expecting =>
      ExpectBounds(d, c, s);
      assert s[0..] == s;
    case Filling =>
      FillStops(c, s);
      FillTwice(c, s, t);
      assert s[|s|..] + t == t;
    case Primitive =>
      FillStops(c, s);
      FillPrimitiveTwice(c, s, t);
      assert s[|s|..] + t == t;
    case Finished =>
  }

  lemma FillStops(c: Config, s: seq<Octet>)
    requires c.Valid()
    ensures c.phase == Filling && Fill(c, s).Stop? && Fill(c, s).code == RC_WMORE ==> |s| < c.Top().left
    ensures c.phase == Primitive && FillPrimitive(c, s).Stop? && FillPrimitive(c, s).code == RC_WMORE ==> |s| < c.left
  {
  }

  /** A call on s, and if it wants more, a second one on what it left and t. */
  function RunTwice(d: Descriptor, c: Config, s: seq<Octet>, t: seq<Octet>): Outcome
    requires c.Valid()
  {
    var r := Run(d, c, s);
    if r.code == RC_WMORE then Later(r.consumed, Run(d, r.config, s[r.consumed..] + t)) else r
  }

  /**
   * A call that wants more, and the call after it on what was left and what arrived, are one call - if that one
   * call does not ask APPEND for 2^30 octets. Failing calls are included.
   */
  lemma {:induction false} RunSplits(d: Descriptor, c: Config, s: seq<Octet>, t: seq<Octet>)
    requires c.Valid() && Asked(d, c, s + t) < CAPACITY
    ensures Run(d, c, s + t) == RunTwice(d, c, s, t)
    ensures var r := Run(d, c, s);
            r.code == RC_WMORE ==> Asked(d, r.config, s[r.consumed..] + t) == Asked(d, c, s + t)
    decreases |s|, Rank(c.phase), |c.stack|
  {
    hide Moved, StepAsks;
    var m := Moved(d, c, s);
    MovedBounds(d, c, s);
    AskedBounds(d, c, s + t);
    if m.Stop? && m.code == RC_WMORE {
      MovedResumes(d, c, s, t);
      RunResumes(d, c, m.next, s + t, m.n, s[m.n..] + t);
    } else {
      MovedStable(d, c, s, t);
      if m.Go? {
        assert (s + t)[m.n..] == s[m.n..] + t;
        RunSplits(d, m.next, s[m.n..], t);
        var r := Run(d, m.next, s[m.n..]);
        assert s[m.n..][r.consumed..] == s[m.n + r.consumed..];
      }
    }
  }

  /** More input does not ask for less. */
  lemma AskedGrows(d: Descriptor, c: Config, s: seq<Octet>, t: seq<Octet>)
    requires c.Valid() && Asked(d, c, s + t) < CAPACITY && Run(d, c, s).code == RC_WMORE
    ensures Asked(d, c, s) <= Asked(d, c, s + t)
  {
    hide Run, Asked;
    var r := Run(d, c, s);
    RunSplits(d, c, s, t);
    AskedIsContents(d, c, s);
    AskedBounds(d, r.config, s[r.consumed..] + t);
    StepLeaves(d, r.config, s[r.consumed..] + t);
  }

  lemma RunResumes(d: Descriptor, c: Config, next: Config, s: seq<Octet>, n: nat, t: seq<Octet>)
    requires c.Valid() && next.Valid() && n <= |s| && t == s[n..]
    requires Moved(d, c, s) == Resumed(n, Moved(d, next, t)) && StepAsks(c, s) == StepAsks(next, t)
    ensures Run(d, c, s) == Later(n, Run(d, next, t)) && Asked(d, c, s) == Asked(d, next, t)
  {
    hide Moved, Run, StepAsks;
    MovedBounds(d, next, t);
    var m := Moved(d, next, t);
    assert s[n + m.n..] == t[m.n..];
    RunMoves(d, c, s);
    RunMoves(d, next, t);
  }

  /**
   * A sequence of calls: each gets the octets the one before did not consume, and a new piece.
   * It ends with the pieces, or at the first call that does not want more.
   */
  function Feed(d: Descriptor, c: Config, kept: seq<Octet>, pieces: seq<seq<Octet>>): Outcome
    requires c.Valid() && |pieces| > 0
    decreases |pieces|
  {
    var s := kept + pieces[0];
    var r := Run(d, c, s);
    if r.code != RC_WMORE || |pieces| == 1 then r
    else Later(r.consumed, Feed(d, r.config, s[r.consumed..], pieces[1..]))
  }

  lemma FeedFirst(d: Descriptor, c: Config, kept: seq<Octet>, pieces: seq<seq<Octet>>)
    requires c.Valid() && |pieces| > 0
    ensures var s := kept + pieces[0];
            var r := Run(d, c, s);
            Feed(d, c, kept, pieces)
            == if r.code != RC_WMORE || |pieces| == 1 then r
               else Later(r.consumed, Feed(d, r.config, s[r.consumed..], pieces[1..]))
  {
    hide Run;
  }

  /**
   * Fed in any pieces, the decoder ends exactly as it does on the whole: code, count, octets and context - if on the
   * whole it does not ask APPEND for 2^30 octets.
   */
  lemma {:induction false} FragmentationInvariance(d: Descriptor, c: Config, kept: seq<Octet>, pieces: seq<seq<Octet>>)
    requires c.Valid() && |pieces| > 0 && Asked(d, c, kept + Concat(pieces)) < CAPACITY
    ensures Feed(d, c, kept, pieces) == Run(d, c, kept + Concat(pieces))
    decreases |pieces|
  {
    hide Run, Asked;
    var s, rest := kept + pieces[0], Concat(pieces[1..]);
    assert kept + Concat(pieces) == s + rest;
    RunSplits(d, c, s, rest);
    var r := Run(d, c, s);
    if |pieces| == 1 {
      assert s + rest == s;
    } else if r.code == RC_WMORE {
      FragmentationInvariance(d, r.config, s[r.consumed..], pieces[1..]);
    }
  }

  /** On the whole, contents below 2^30 octets are enough for that if the decoder does not fail. */
  lemma FragmentsOfContents(d: Descriptor, c: Config, kept: seq<Octet>, pieces: seq<seq<Octet>>)
    requires c.Valid() && |pieces| > 0
    requires var r := Run(d, c, kept + Concat(pieces)); r.code != RC_FAIL && |r.config.buf| < CAPACITY
    ensures Feed(d, c, kept, pieces) == Run(d, c, kept + Concat(pieces))
  {
    hide Run, Asked, Feed;
    AskedIsContents(d, c, kept + Concat(pieces));
    FragmentationInvariance(d, c, kept, pieces);
  }

  /** And so is an input below 2^30 octets, whether it fails or not. */
  lemma FragmentsOfInput(d: Descriptor, c: Config, kept: seq<Octet>, pieces: seq<seq<Octet>>)
    requires c.Valid() && |pieces| > 0 && |c.buf| + |kept| + |Concat(pieces)| < CAPACITY
    ensures Feed(d, c, kept, pieces) == Run(d, c, kept + Concat(pieces))
  {
    hide Run, Asked, Feed;
    AskedBounds(d, c, kept + Concat(pieces));
    FragmentationInvariance(d, c, kept, pieces);
  }

  /** Sizes from 2^30 up, as long as they fit 32 bits, are refused. */
  lemma LargeRefused(size: nat)
    requires size < TWO_TO_32
    ensures AppendFits(size) <==> size < CAPACITY
  {
  }

  lemma StepRefused(d: Descriptor, c: Config, s: seq<Octet>)
    requires c.Valid() && |c.buf| < CAPACITY && |c.buf| + |s| < TWO_TO_32
    ensures var m := Moved(d, c, s);
            && (StepAsks(c, s) >= CAPACITY ==> m.Stop? && m.code == RC_FAIL)
            && (m.Go? ==> |m.next.buf| < CAPACITY && |m.next.buf| + |s[m.n..]| < TWO_TO_32)
  {
    hide Moved, AppendFits;
    MovedBounds(d, c, s);
    StepLeaves(d, c, s);
    if StepAsks(c, s) >= CAPACITY {
      LargeRefused(StepAsks(c, s));
      AskedTooMuch(d, c, s);
    }
  }

  lemma AskedTooMuch(d: Descriptor, c: Config, s: seq<Octet>)
    requires c.Valid() && |c.buf| < StepAsks(c, s) && !AppendFits(StepAsks(c, s))
    ensures Moved(d, c, s).Stop? && Moved(d, c, s).code == RC_FAIL
  {
    hide AppendFits, CheckFirst, Expect;
  }

  /** Asking for 2^30 octets or more fails. */
  lemma {:induction false} RunRefused(d: Descriptor, c: Config, s: seq<Octet>)
    requires c.Valid() && |c.buf| < CAPACITY && |c.buf| + |s| < TWO_TO_32
    ensures Asked(d, c, s) >= CAPACITY ==> Run(d, c, s).code == RC_FAIL
    decreases |s|, Rank(c.phase), |c.stack|
  {
    hide Moved, StepAsks;
    MovedBounds(d, c, s);
    StepRefused(d, c, s);
    var m := Moved(d, c, s);
    if m.Go? {
      RunRefused(d, m.next, s[m.n..]);
    }
  }

  /** What a step asks for in two fragments, it asks for in the end. */
  lemma StepAsksOn(d: Descriptor, c: Config, s: seq<Octet>, t: seq<Octet>)
    requires c.Valid()
    ensures var m := Moved(d, c, s);
            && (m.Stop? && m.code == RC_WMORE ==> m.n <= |s| && m.next.Valid()
                                                  && StepAsks(m.next, s[m.n..] + t) == StepAsks(c, s + t))
            && (m.Go? && c.phase in {Filling, Primitive} ==> StepAsks(c, s) == StepAsks(c, s + t))
  {
    hide CheckFirst, Expect, AppendFits;
    MovedBounds(d, c, s);
    match c.phase
    case CheckingTags => CheckFirstBounds(d, c, s);
    case Expecting => ExpectBounds(d, c, s);
    case Filling =>
    case Primitive =>
    case Finished =>
  }

  /** Cut once, the code is the same whatever the decoder asks for. */
  lemma {:induction false} SplitsCode(d: Descriptor, c: Config, s: seq<Octet>, t: seq<Octet>)
    requires c.Valid() && |c.buf| < CAPACITY && |c.buf| + |s| + |t| < TWO_TO_32
    ensures RunTwice(d, c, s, t).code == Run(d, c, s + t).code
    decreases |s|, Rank(c.phase), |c.stack|
  {
    hide Moved, StepAsks, Asked;
    var m := Moved(d, c, s);
    MovedBounds(d, c, s);
    if Asked(d, c, s + t) < CAPACITY {
      RunSplits(d, c, s, t);
    } else {
      RunRefused(d, c, s + t);
      StepAsksOn(d, c, s, t);
      StepRefused(d, c, s);
      if m.Stop? && m.code == RC_WMORE {
        SecondRefused(d, c, s, t);
      } else if m.Go? {
        GoesAlike(d, c, s, t);
        assert (s + t)[m.n..] == s[m.n..] + t;
        SplitsCode(d, m.next, s[m.n..], t);
        var r := Run(d, m.next, s[m.n..]);
        assert s[m.n..][r.consumed..] == s[m.n + r.consumed..];
      } else {
        StopsAlike(d, c, s, t);
      }
    }
  }

  lemma SecondRefused(d: Descriptor, c: Config, s: seq<Octet>, t: seq<Octet>)
    requires c.Valid() && |c.buf| < CAPACITY && |c.buf| + |s| + |t| < TWO_TO_32 && Asked(d, c, s + t) >= CAPACITY
    requires Moved(d, c, s).Stop? && Moved(d, c, s).code == RC_WMORE
    ensures var m := Moved(d, c, s);
            m.n <= |s| && m.next.Valid() && Run(d, m.next, s[m.n..] + t).code == RC_FAIL
  {
    hide Moved, StepAsks, Asked, Run;
    var m := Moved(d, c, s);
    MovedBounds(d, c, s);
    StepLeaves(d, c, s);
    StepRefused(d, c, s);
    StepAsksOn(d, c, s, t);
    if StepAsks(c, s + t) < CAPACITY {
      MovedResumes(d, c, s, t);
      RunResumes(d, c, m.next, s + t, m.n, s[m.n..] + t);
      RunRefused(d, c, s + t);
    } else {
      StepRefused(d, m.next, s[m.n..] + t);
      RunMoves(d, m.next, s[m.n..] + t);
    }
  }

  lemma GoesAlike(d: Descriptor, c: Config, s: seq<Octet>, t: seq<Octet>)
    requires c.Valid() && |c.buf| < CAPACITY && |c.buf| + |s| + |t| < TWO_TO_32 && Moved(d, c, s).Go?
    ensures Moved(d, c, s + t) == Moved(d, c, s)
  {
    hide Moved, Asked;
    StepAsksOn(d, c, s, t);
    StepRefused(d, c, s);
    MovedStable(d, c, s, t);
  }

  lemma StopsAlike(d: Descriptor, c: Config, s: seq<Octet>, t: seq<Octet>)
    requires c.Valid() && |c.buf| < CAPACITY && Asked(d, c, s + t) >= CAPACITY
    requires Moved(d, c, s).Stop? && Moved(d, c, s).code != RC_WMORE
    ensures Moved(d, c, s).code == RC_FAIL
  {
    hide CheckFirst, Expect, AppendFits;
    match c.phase
    case CheckingTags => CheckFirstCodes(d, c, s);
    case Expecting => ExpectBounds(d, c, s);
    case _ =>
  }

  lemma CheckFirstCodes(d: Descriptor, c: Config, s: seq<Octet>)
    requires c.Valid() && c.phase == CheckingTags && CheckFirst(d, c, s).Stop?
    ensures CheckFirst(d, c, s).code != RC_OK
  {
    hide CheckedTags;
  }

  /** In any pieces, the code is that of the whole, whatever the decoder asks for. */
  lemma {:induction false} FragmentsKeepCode(d: Descriptor, c: Config, kept: seq<Octet>, pieces: seq<seq<Octet>>)
    requires c.Valid() && |pieces| > 0
    requires |c.buf| < CAPACITY && |c.buf| + |kept| + |Concat(pieces)| < TWO_TO_32
    ensures Feed(d, c, kept, pieces).code == Run(d, c, kept + Concat(pieces)).code
    decreases |pieces|
  {
    hide Run, Asked;
    var s, rest := kept + pieces[0], Concat(pieces[1..]);
    assert kept + Concat(pieces) == s + rest;
    SplitsCode(d, c, s, rest);
    var r := Run(d, c, s);
    if |pieces| == 1 {
      assert s + rest == s;
    } else if r.code == RC_WMORE {
      RunRefused(d, c, s);
      AskedIsContents(d, c, s);
      FragmentsKeepCode(d, r.config, s[r.consumed..], pieces[1..]);
    }
  }

  /** A step that goes on goes on alike with more input. */
  lemma GoStable(d: Descriptor, c: Config, s: seq<Octet>, t: seq<Octet>)
    requires c.Valid() && Moved(d, c, s).Go?
    ensures Moved(d, c, s + t) == Moved(d, c, s)
  {
    hide CheckFirst, Expect, AppendFits;
    match c.phase
    case CheckingTags => CheckFirstStable(d, c, s, t);
    case Expecting => ExpectStable(d, c, s, t);
    case Filling => assert (s + t)[..c.Top().left] == s[..c.Top().left];
    case Primitive => assert (s + t)[..c.left] == s[..c.left];
    case Finished =>
  }

  /** The same, or both failures. */
  predicate Alike(x: Move, y: Move) {
    x == y || (x.Stop? && y.Stop? && x.code == y.code == RC_FAIL)
  }

  predicate EndAlike(x: Outcome, y: Outcome) {
    x == y || x.code == y.code == RC_FAIL
  }

  /** Whatever APPEND is asked for: the second fragment is refused where both are, or appended behind the first. */
  lemma FillAlike(c: Config, s: seq<Octet>, t: seq<Octet>)
    requires c.Valid() && c.phase == Filling && Fill(c, s).Stop? && Fill(c, s).code == RC_WMORE
    ensures var m := Fill(c, s);
            && m.n == |s| && m.next.Valid() && m.next.phase == Filling
            && Alike(Fill(c, s + t), Resumed(|s|, Fill(m.next, t)))
  {
    hide AppendFits;
    var len, next := Min(|s + t|, c.Top().left), Fill(c, s).next;
    assert next.stack[..|c.stack| - 1] == c.stack[..|c.stack| - 1];
    TakenTwice(c.buf, s, t, len);
    if t == [] {
      assert s + t == s;
    }
  }

  lemma FillPrimitiveAlike(c: Config, s: seq<Octet>, t: seq<Octet>)
    requires c.Valid() && c.phase == Primitive && FillPrimitive(c, s).Stop? && FillPrimitive(c, s).code == RC_WMORE
    ensures var m := FillPrimitive(c, s);
            && m.n == |s| && m.next.Valid() && m.next.phase == Primitive
            && Alike(FillPrimitive(c, s + t), Resumed(|s|, FillPrimitive(m.next, t)))
  {
    hide AppendFits;
    if s == [] {
      assert s + t == t;
    } else if t == [] {
      assert s + t == s;
    } else {
      TakenTwice(c.buf, s, t, Min(|s + t|, c.left));
    }
  }

  lemma TakenTwice(b: seq<Octet>, s: seq<Octet>, t: seq<Octet>, len: nat)
    requires |s| <= len <= |s| + |t|
    ensures b + (s + t)[..len] == b + s + t[..len - |s|] && s[..|s|] == s
  {
  }

  lemma MovedAlike(d: Descriptor, c: Config, s: seq<Octet>, t: seq<Octet>)
    requires c.Valid() && Moved(d, c, s).Stop? && Moved(d, c, s).code == RC_WMORE
    ensures var m := Moved(d, c, s);
            && m.n <= |s| && m.next.Valid()
            && Alike(Moved(d, c, s + t), Resumed(m.n, Moved(d, m.next, s[m.n..] + t)))
  {
    hide CheckFirst, Expect, Fill, FillPrimitive;
    match c.phase
    case CheckingTags =>
      CheckFirstBounds(d, c, s);
      assert s[0..] == s;
    case Expecting =>
      ExpectBounds(d, c, s);
      assert s[0..] == s;
    case Filling =>
      FillAlike(c, s, t);
      assert s[|s|..] + t == t;
    case Primitive =>
      FillPrimitiveAlike(c, s, t);
      assert s[|s|..] + t == t;
    case Finished =>
  }

  lemma StopStable(d: Descriptor, c: Config, s: seq<Octet>, t: seq<Octet>)
    requires c.Valid() && Moved(d, c, s).Stop? && Moved(d, c, s).code == RC_OK
    ensures Moved(d, c, s + t) == Moved(d, c, s)
  {
    hide CheckFirst, Expect, AppendFits;
    match c.phase
    case CheckingTags => CheckFirstCodes(d, c, s);
    case Expecting => ExpectBounds(d, c, s);
    case _ =>
  }

  lemma ResumedAlike(d: Descriptor, c: Config, s: seq<Octet>, t: seq<Octet>)
    requires c.Valid() && Moved(d, c, s).Stop? && Moved(d, c, s).code == RC_WMORE
    ensures EndAlike(Run(d, c, s + t), RunTwice(d, c, s, t))
  {
    hide Moved, Run;
    var m := Moved(d, c, s);
    MovedAlike(d, c, s, t);
    var whole, rest := s + t, s[m.n..] + t;
    MovedBounds(d, m.next, rest);
    RunMoves(d, c, s);
    RunMoves(d, c, whole);
    RunMoves(d, m.next, rest);
    var second := Moved(d, m.next, rest);
    assert whole[m.n + second.n..] == rest[second.n..];
  }

  /** Two calls are one, whatever APPEND is asked for, if the first does not fail; at most both ways fail. */
  lemma {:induction false} RunAlike(d: Descriptor, c: Config, s: seq<Octet>, t: seq<Octet>)
    requires c.Valid() && Run(d, c, s).code != RC_FAIL
    ensures EndAlike(Run(d, c, s + t), RunTwice(d, c, s, t))
    decreases |s|, Rank(c.phase), |c.stack|
  {
    hide Moved;
    var m := Moved(d, c, s);
    MovedBounds(d, c, s);
    if m.Go? {
      GoStable(d, c, s, t);
      assert (s + t)[m.n..] == s[m.n..] + t;
      RunAlike(d, m.next, s[m.n..], t);
      var r := Run(d, m.next, s[m.n..]);
      assert s[m.n..][r.consumed..] == s[m.n + r.consumed..];
    } else if m.code == RC_WMORE {
      ResumedAlike(d, c, s, t);
    } else {
      StopStable(d, c, s, t);
    }
  }

  /** Any pieces of any size end as the whole does, unless a call fails. */
  lemma {:induction false} FragmentsAlike(d: Descriptor, c: Config, kept: seq<Octet>, pieces: seq<seq<Octet>>)
    requires c.Valid() && |pieces| > 0
    ensures Feed(d, c, kept, pieces).code == RC_FAIL || Feed(d, c, kept, pieces) == Run(d, c, kept + Concat(pieces))
    decreases |pieces|
  {
    hide Run;
    var s, rest := kept + pieces[0], Concat(pieces[1..]);
    assert kept + Concat(pieces) == s + rest;
    var r := Run(d, c, s);
    if r.code != RC_FAIL {
      RunAlike(d, c, s, rest);
      if |pieces| == 1 {
        assert s + rest == s;
      } else if r.code == RC_WMORE {
        FragmentsAlike(d, r.config, s[r.consumed..], pieces[1..]);
      }
    }
  }
}
