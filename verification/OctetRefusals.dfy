/** Which refusals are final, and what the int casts of APPEND let pass. */
module OctetRefusals {
  import opened Octets
  import opened Words
  import opened BerTag
  import opened BerLength
  import opened BerDecoder
  import opened OctetMachine
  import opened OctetFragments
  import opened OctetNesting
  import opened OctetTrees
  import opened OctetWants

  /** Where a run fails: the state and the octets in front of it, which are the same whatever is behind them. */
  lemma {:induction false} FailsAt(d: Descriptor, c: Config, s: seq<Octet>) returns (at: Config, n: nat)
    requires Kept(c) && |c.buf| < CAPACITY && |c.buf| + |s| < TWO_TO_32 && Run(d, c, s).code == RC_FAIL
    ensures Kept(at) && n <= |s| && |at.buf| < CAPACITY && |at.buf| + |s[n..]| < TWO_TO_32
    ensures Moved(d, at, s[n..]).Stop? && Moved(d, at, s[n..]).code == RC_FAIL
    ensures Asked(d, c, s) == StepAsks(at, s[n..]) && Run(d, c, s).config == Moved(d, at, s[n..]).next
    ensures forall t :: Run(d, c, s + t) == Later(n, Run(d, at, s[n..] + t))
    decreases |s|, Rank(c.phase), |c.stack|
  {
    hide Moved, StepAsks, Kept;
    ValidKept(c);
    MovedBounds(d, c, s);
    var m := Moved(d, c, s);
    if m.Stop? {
      at, n := c, 0;
      assert s[0..] == s;
    } else {
      MovedKeeps(d, c, s);
      StepRefused(d, c, s);
      var k;
      at, k := FailsAt(d, m.next, s[m.n..]);
      n := m.n + k;
      ValidKept(at);
      assert s[m.n..][k..] == s[n..];
      forall t
        ensures Run(d, c, s + t) == Later(n, Run(d, at, s[n..] + t))
      {
        GoStable(d, c, s, t);
        assert (s + t)[m.n..] == s[m.n..] + t;
      }
    }
  }

  /** The size the contents will have when what is announced has been appended. */
  function Announced(c: Config): int
    requires c.Valid()
  {
    match c.phase
    case Filling => |c.buf| + c.Top().left
    case Primitive => |c.buf| + c.left
    case _ => |c.buf|
  }

  /** A refusal that is not one of APPEND's is one whatever follows. */
  lemma RefusedAnyway(d: Descriptor, c: Config, s: seq<Octet>, t: seq<Octet>)
    requires Kept(c) && c.phase !in {Filling, Primitive} && Moved(d, c, s).Stop? && Moved(d, c, s).code == RC_FAIL
    ensures Run(d, c, s + t).code == RC_FAIL && StepAsks(c, s) == |c.buf|
  {
    hide CheckFirst, Expect, Nested, Run;
    RunMoves(d, c, s + t);
    match c.phase
    case CheckingTags => CheckFirstStable(d, c, s, t);
    case Expecting => ExpectStable(d, c, s, t);
    case Finished =>
  }

  /** One of APPEND's is, if what is announced fits 32 bits. */
  lemma AppendRefused(d: Descriptor, c: Config, s: seq<Octet>, t: seq<Octet>)
    requires Kept(c) && c.phase in {Filling, Primitive} && |c.buf| < CAPACITY && |c.buf| + |s| < TWO_TO_32
    requires Moved(d, c, s).Stop? && Moved(d, c, s).code == RC_FAIL
    ensures StepAsks(c, s) >= CAPACITY && Moved(d, c, s).next == c
    ensures Announced(c) < TWO_TO_32 ==> Run(d, c, s + t).code == RC_FAIL
  {
    hide AppendFits, Nested, Run;
    LargeRefused(StepAsks(c, s));
    if Announced(c) < TWO_TO_32 {
      LargeRefused(StepAsks(c, s + t));
      RunMoves(d, c, s + t);
    }
  }

  /** If not, the octets up to 2^32 are taken in. */
  lemma AppendWraps(d: Descriptor, c: Config, s: seq<Octet>) returns (t: seq<Octet>)
    requires Kept(c) && c.phase in {Filling, Primitive} && |c.buf| + |s| < TWO_TO_32 <= Announced(c)
    ensures Run(d, c, s + t).code != RC_FAIL
  {
    hide AppendFits, Nested, Run;
    t := Repeated(0, TWO_TO_32 - |c.buf| - |s|);
    var whole := s + t;
    WrappedFits();
    RunMoves(d, c, whole);
    var m := Moved(d, c, whole);
    if m.Go? {
      MovedKeeps(d, c, whole);
      assert whole[m.n..] == [];
      NothingRefused(d, m.next);
    }
  }

  lemma WrappedFits()
    ensures AppendFits(TWO_TO_32)
  {
  }

  /** No input, no refusal: frames are popped, or more is wanted. */
  lemma {:induction false} NothingRefused(d: Descriptor, c: Config)
    requires Kept(c) && c.phase in {Expecting, Finished}
    ensures Run(d, c, []).code != RC_FAIL
    decreases |c.stack|
  {
    hide HeaderIn, Nested, Run;
    RunMoves(d, c, []);
    if c.phase == Expecting {
      if |c.stack| > 0 && c.Top().left <= 0 && !c.Top().wantNulls {
        PopNeverFails(d, c, []);
        MovedKeeps(d, c, []);
        ExpectKeeps(d, c, []);
        ExpectBounds(d, c, []);
        PoppedOnce(d, c);
        NothingRefused(d, Moved(d, c, []).next);
      } else {
        assert Visible(c, []) == [];
        TooShortForHeader([]);
      }
    }
  }

  lemma PoppedOnce(d: Descriptor, c: Config)
    requires Kept(c) && c.phase == Expecting && |c.stack| > 0 && c.Top().left <= 0 && !c.Top().wantNulls
    requires Moved(d, c, []).Go?
    ensures var m := Moved(d, c, []); m.n == 0 && m.next.phase in {Expecting, Finished} && |m.next.stack| < |c.stack|
  {
  }

  /**
   * A refusal is final if and only if it was not for the size of the contents, or what is announced fits 32 bits: 2^32
   * octets in one piece are 0 as an int, and pass.
   */
  lemma RefusedExact(d: Descriptor, s: seq<Octet>)
    requires |s| < TWO_TO_32 && Run(d, INITIAL, s).code == RC_FAIL
    ensures (forall t :: Run(d, INITIAL, s + t).code == RC_FAIL)
       <==> Asked(d, INITIAL, s) < CAPACITY || Announced(Run(d, INITIAL, s).config) < TWO_TO_32
  {
    hide Run, Moved, StepAsks, Asked, Kept, Announced;
    StartsKept();
    var at, n := FailsAt(d, INITIAL, s);
    ValidKept(at);
    if at.phase in {Filling, Primitive} {
      AppendRefused(d, at, s[n..], []);
      if Announced(at) >= TWO_TO_32 {
        var t := AppendWraps(d, at, s[n..]);
        assert Run(d, INITIAL, s + t).code != RC_FAIL;
      }
    } else {
      RefusedAnyway(d, at, s[n..], []);
    }
    forall t | Asked(d, INITIAL, s) < CAPACITY || Announced(Run(d, INITIAL, s).config) < TWO_TO_32
      ensures Run(d, INITIAL, s + t).code == RC_FAIL
    {
      if at.phase in {Filling, Primitive} {
        AppendRefused(d, at, s[n..], t);
      } else {
        RefusedAnyway(d, at, s[n..], t);
      }
    }
  }

  lemma StartsKept()
    ensures Kept(INITIAL)
  {
  }

  /** Up to 2^32 octets in all, every refusal is final. */
  lemma RefusedForGood(d: Descriptor, s: seq<Octet>, t: seq<Octet>)
    requires |s| + |t| < TWO_TO_32 && Run(d, INITIAL, s).code == RC_FAIL
    ensures Run(d, INITIAL, s + t).code == RC_FAIL
  {
    hide Run;
    SplitsCode(d, INITIAL, s, t);
  }

  /** 2^32 octets: the first 2^30 of them are refused, and calls piece by piece end there; at once they are decoded. */
  lemma WrapExample()
    ensures var d, header := Descriptor(16, [16], false), [4, 0x85, 1, 0, 0, 0, 0];
            var pieces := [header + Repeated(0, CAPACITY), Repeated(0, TWO_TO_32 - CAPACITY)];
            && Run(d, INITIAL, pieces[0]).code == RC_FAIL && Feed(d, INITIAL, [], pieces).code == RC_FAIL
            && Run(d, INITIAL, pieces[0] + pieces[1]).code == RC_OK
  {
    hide Run, Repeated, AppendFits;
    var d, header: seq<Octet> := Descriptor(16, [16], false), [4, 0x85, 1, 0, 0, 0, 0];
    var c := INITIAL.(phase := Primitive, left := TWO_TO_32);
    var some, others := Repeated(0, CAPACITY), Repeated(0, TWO_TO_32 - CAPACITY);
    var all := some + others;
    LongHeader(d, some);
    LargeRefused(CAPACITY);
    RunMoves(d, c, some);
    FeedFirst(d, INITIAL, [], [header + some, others]);
    assert [] + (header + some) == header + some;
    LongHeader(d, all);
    WrappedFits();
    PrimitiveRun(d, c, all, []);
    assert all + [] == all && header + some + others == header + all;
  }

  lemma LongHeader(d: Descriptor, rest: seq<Octet>)
    requires d == Descriptor(16, [16], false)
    ensures Run(d, INITIAL, [4, 0x85, 1, 0, 0, 0, 0] + rest)
         == Later(7, Run(d, INITIAL.(phase := Primitive, left := TWO_TO_32), rest))
  {
    hide Run, CheckedTags;
    var l: seq<Octet> := [0x85, 1, 0, 0, 0, 0];
    var s := [4] + l + rest;
    assert s == [4, 0x85, 1, 0, 0, 0, 0] + rest;
    CheckedSingle(d, s);
    assert FetchedTag(s) == Got(16, 1);
    assert s[1..] == l + rest;
    assert Radix256(l, 1, 2) == 1;
    assert Radix256(l, 1, 4) == 0x1_0000;
    assert Radix256(l, 1, 6) == TWO_TO_32;
    FetchReadsLength(false, l, rest);
    RunGoes(d, INITIAL, s, 7, INITIAL.(phase := Primitive, left := TWO_TO_32), rest);
  }
}
