/** Headers cut short, and frames that want more for ever. */
module OctetWants {
  import opened Octets
  import opened Words
  import opened BerTag
  import opened BerLength
  import opened BerTree
  import opened BerDecoder
  import opened OctetMachine
  import opened OctetFragments
  import opened OctetTrees

  /** From here on ber_fetch_length takes no more length octets. */
  const LENGTH_GUARD := 0x80_0000_0000_0000

  /**
   * The least number of octets that complete a long length or overflow it, with the first p of its n octets present
   * and spelling v: the largest ones overflow soonest.
   */
  function MissingLength(v: nat, p: nat, n: nat): (m: nat)
    requires p < n
    ensures 1 <= m <= n - p
    decreases n - p
  {
    if p + 1 == n || v >= LENGTH_GUARD then 1 else 1 + MissingLength(v * 256 + 255, p + 1, n)
  }

  /** The least number of octets that decide a header, of which s is there. */
  function Missing(s: seq<Octet>): nat {
    if s == [] then 2 else
    match FetchedTag(s)
    case More => if Radix128(s, 1, |s|) >= 0x1_0000 then 1 else 2
    case Bad => 0
    case Got(_, tl) =>
      FetchedIsIdentifier(s);
      var l := s[tl..];
      if l == [] then 1
      else if l[0] > 0x80 && |l| - 1 < l[0] - 0x80 then MissingLength(Radix256(l, 1, |l|), |l| - 1, l[0] - 0x80)
      else 0
  }

  /** Fewer octets than that neither complete the length nor reach the guard. */
  lemma {:induction false} LengthWaits(l: seq<Octet>, t: seq<Octet>, v: nat, n: nat)
    requires 1 <= |l| <= n && Radix256(l, 1, |l|) <= v && |t| < MissingLength(v, |l| - 1, n)
    ensures |l + t| <= n && (t != [] ==> Radix256(l + t, 1, |l + t| - 1) < LENGTH_GUARD)
    decreases |t|
  {
    hide Radix256;
    if t != [] {
      var longer := l + [t[0]];
      assert longer + t[1..] == l + t;
      RadixBehind(l, t[0]);
      LengthWaits(longer, t[1..], v * 256 + 255, n);
      assert |t| == 1 ==> l + t == longer;
    }
  }

  /** As many complete it, or reach the guard if all but the last are 0xFF. */
  lemma {:induction false} LengthEnds(l: seq<Octet>, o: Octet, n: nat)
    requires 1 <= |l| <= n
    ensures var m := MissingLength(Radix256(l, 1, |l|), |l| - 1, n);
            var s := l + Repeated(0xFF, m - 1) + [o];
            |s| <= n + 1 && (|s| == n + 1 || Radix256(s, 1, |s| - 1) >= LENGTH_GUARD)
    decreases n - |l|
  {
    hide Radix256;
    var m := MissingLength(Radix256(l, 1, |l|), |l| - 1, n);
    var s := l + Repeated(0xFF, m - 1) + [o];
    if m == 1 {
      assert s == l + [o];
      RadixBehind(l, o);
    } else {
      var longer := l + [0xFF];
      RadixBehind(l, 0xFF);
      LengthEnds(longer, o, n);
      assert s == longer + Repeated(0xFF, m - 2) + [o];
    }
  }

  /** A length that wants more is a long one. */
  lemma LongLength(constructed: bool, l: seq<Octet>)
    requires l != [] && FetchedLength(constructed, l).More?
    ensures 0x80 < l[0] < 0xFF && |l| - 1 < l[0] - 0x80
    ensures |l| > 1 ==> Radix256(l, 1, |l| - 1) < LENGTH_GUARD
  {
  }

  lemma LengthStillWants(constructed: bool, l: seq<Octet>, t: seq<Octet>)
    requires l != [] && FetchedLength(constructed, l).More?
    requires |t| < MissingLength(Radix256(l, 1, |l|), |l| - 1, l[0] - 0x80)
    ensures FetchedLength(constructed, l + t).More?
  {
    LongLength(constructed, l);
    LengthWaits(l, t, Radix256(l, 1, |l|), l[0] - 0x80);
    if t == [] {
      assert l + t == l;
    }
  }

  lemma LastLengthOctet(constructed: bool, w: seq<Octet>, o: Octet)
    requires w != [] && 0x80 < w[0] < 0xFF && |w| <= w[0] - 0x80
    requires |w| == w[0] - 0x80 || Radix256(w, 1, |w|) >= LENGTH_GUARD
    ensures FetchedLength(constructed, w + [o])
         == (var v := Radix256(w, 1, |w|) * 256 + o;
             if Radix256(w, 1, |w|) >= LENGTH_GUARD || v > RSSIZE_MAX then Bad else Got(v, |w| + 1))
  {
    hide Radix256;
    RadixBehind(w, o);
  }

  /** Decided: refused, or complete with a number of which the last octet is free. */
  lemma LengthDecided(constructed: bool, l: seq<Octet>)
    requires l != [] && FetchedLength(constructed, l).More?
    ensures 0x80 < l[0] && |l| - 1 < l[0] - 0x80
    ensures var w := l + Repeated(0xFF, MissingLength(Radix256(l, 1, |l|), |l| - 1, l[0] - 0x80) - 1);
            var r := FetchedLength(constructed, w + [0xFF]);
            r.Bad? || (r.Got? && r.value >= 255 && r.used == |w| + 1
                       && FetchedLength(constructed, w + [0]) == Got(r.value - 255, r.used))
  {
    hide FetchedLength, MissingLength, Radix256;
    LongLength(constructed, l);
    var n := l[0] - 0x80;
    var w := l + Repeated(0xFF, MissingLength(Radix256(l, 1, |l|), |l| - 1, n) - 1);
    LengthEnds(l, 0, n);
    RadixBehind(w, 0);
    LastLengthOctet(constructed, w, 0xFF);
    LastLengthOctet(constructed, w, 0);
  }

  lemma TagStillWants(s: seq<Octet>, o: Octet)
    requires s != [] && FetchedTag(s).More? && Radix128(s, 1, |s|) < 0x1_0000
    ensures HeaderIn(s + [o]).More?
  {
    hide Radix128;
    var t := s + [o];
    RunEndStops(s, 1);
    RunEndIs(t, 1, if o < 128 then |s| else |t|);
    RadixBehind(s, o);
    if o < 128 {
      assert FetchedTag(t).Got? && t[|t|..] == [];
    }
  }

  /** Fewer octets than are missing do not decide a header. */
  lemma HeaderStillWants(s: seq<Octet>, t: seq<Octet>)
    requires HeaderIn(s).More? && |t| < Missing(s)
    ensures HeaderIn(s + t).More?
  {
    hide FetchedTag, FetchedLength, Radix128, RunEnd, MissingLength;
    assert s + [] == s;
    if s == [] {
      TooShortForHeader(s + t);
    } else if FetchedTag(s).More? {
      if t != [] {
        assert t == [t[0]];
        TagStillWants(s, t[0]);
      }
    } else {
      FetchTagStable(s, t);
      FetchedIsIdentifier(s);
      var tl := FetchedTag(s).used;
      assert (s + t)[tl..] == s[tl..] + t;
      if s[tl..] != [] {
        LengthStillWants(IsConstructed(s[0]), s[tl..], t);
      } else {
        assert s[tl..] + t == [];
      }
    }
  }

  /** One octet is not a header yet. */
  lemma TooShortForHeader(view: seq<Octet>)
    requires |view| <= 1
    ensures HeaderIn(view) == More
  {
    if |view| == 1 {
      assert FetchedLength(IsConstructed(view[0]), []) == More;
      assert view[1..] == [];
    }
  }

  /** All of the missing octets but the last one, so that a last one of 0xFF decides. */
  function Deciding(s: seq<Octet>): (w: seq<Octet>)
    ensures |w| == Max(Missing(s) - 1, 0)
  {
    if s == [] then [4]
    else if FetchedTag(s).More? then Repeated(0, Max(Missing(s) - 1, 0))
    else Repeated(0xFF, Max(Missing(s) - 1, 0))
  }

  /** Refused, or read with a length of which the last octet is free. */
  predicate Decides(s: seq<Octet>, w: seq<Octet>) {
    var r := HeaderIn(s + w + [0xFF]);
    r.Bad? || (
      && r.Got? && r.used == |s + w| + 1 && r.value.1 >= 255
      && HeaderIn(s + w + [0]) == Got((r.value.0, r.value.1 - 255), r.used)
      && |s| >= 2 && !OpensWithZeros(s))
  }

  lemma TagDecided(s: seq<Octet>)
    requires s != [] && FetchedTag(s).More?
    ensures HeaderIn(s + Deciding(s) + [0xFF]).Bad?
  {
    hide Radix128;
    RunEndStops(s, 1);
    var t := s + Deciding(s) + [0xFF];
    if Missing(s) == 1 {
      assert t == s + [0xFF];
      RunEndIs(t, 1, |t|);
      RadixBehind(s, 0xFF);
    } else {
      assert t == s + [0] + [0xFF];
      ShortTagDecided(s);
    }
  }

  lemma ShortTagDecided(s: seq<Octet>)
    requires s != [] && FetchedTag(s).More?
    ensures HeaderIn(s + [0] + [0xFF]).Bad?
  {
    hide Radix128, RunEnd;
    RunEndStops(s, 1);
    var id := s + [0];
    RunEndIs(id, 1, |s|);
    RadixBehind(s, 0);
    FetchTagStable(id, [0xFF]);
    assert (id + [0xFF])[|id|..] == [0xFF];
  }

  /** As many octets as are missing can decide a header. */
  lemma HeaderDecided(s: seq<Octet>)
    requires HeaderIn(s).More?
    ensures Missing(s) > 0 && Decides(s, Deciding(s))
  {
    hide FetchedTag, FetchedLength, Radix128, Radix256, RunEnd, MissingLength, Repeated;
    if s == [] {
      EmptyDecided();
    } else if FetchedTag(s).More? {
      TagDecided(s);
    } else {
      FetchedIsIdentifier(s);
      var tl := FetchedTag(s).used;
      var l, w := s[tl..], Deciding(s);
      FetchTagStable(s, w + [0xFF]);
      FetchTagStable(s, w + [0]);
      assert s + w + [0xFF] == s + (w + [0xFF]) && s + w + [0] == s + (w + [0]);
      assert (s + w + [0xFF])[tl..] == l + w + [0xFF] && (s + w + [0])[tl..] == l + w + [0];
      if l != [] {
        LengthDecided(IsConstructed(s[0]), l);
        LongTagOpens(s, tl);
      } else {
        assert l + w + [0xFF] == [0xFF];
        RefusedLength(IsConstructed(s[0]));
      }
    }
  }

  lemma RefusedLength(constructed: bool)
    ensures FetchedLength(constructed, [0xFF]).Bad?
  {
  }

  lemma EmptyDecided()
    ensures Missing([]) == 2 && Deciding([]) == [4] && HeaderIn([] + [4] + [0xFF]).Bad?
  {
    var s: seq<Octet> := [4, 0xFF];
    assert [] + [4] + [0xFF] == s;
    assert FetchedTag(s) == Got(16, 1);
    assert s[1..] == [0xFF];
  }

  lemma LongTagOpens(s: seq<Octet>, tl: nat)
    requires FetchedTag(s).Got? && FetchedTag(s).used == tl < |s| && s[tl] > 0
    ensures |s| >= 2 && !OpensWithZeros(s)
  {
  }

  /** The frame on top is not finished: it waits for a header or for its end-of-contents octets. */
  predicate Waits(c: Config) {
    c.Valid() && c.phase == Expecting && |c.stack| > 0 && (c.Top().left > 0 || c.Top().wantNulls)
  }

  lemma WaitingRun(d: Descriptor, c: Config, s: seq<Octet>)
    requires Waits(c)
    ensures HeaderIn(Visible(c, s)).More? ==> Run(d, c, s) == Outcome(RC_WMORE, 0, c)
    ensures HeaderIn(Visible(c, s)).Bad? ==> Run(d, c, s) == Outcome(RC_FAIL, 0, c)
  {
    hide HeaderIn, Popped, Entered;
    RunMoves(d, c, s);
  }

  /** Where two octets have room, two are enough for a refusal. */
  lemma RefusedSoon(d: Descriptor, c: Config)
    requires Waits(c) && HasRoom(c, 2)
    ensures Run(d, c, [4, 0xFF]).code == RC_FAIL
  {
    hide Run, HeaderIn;
    EmptyDecided();
    assert [] + [4] + [0xFF] == [4, 0xFF];
    assert Visible(c, [4, 0xFF]) == [4, 0xFF];
    WaitingRun(d, c, [4, 0xFF]);
  }

  /** A frame that has been filled is counted for the frame that waits, and two octets are enough again. */
  lemma RefusedBehind(d: Descriptor, c: Config, header: nat, len: nat)
    requires Waits(c) && HasRoom(c, header + len + 2)
    ensures (var filling := c.(phase := Filling, stack := c.stack + [Frame(len, header, false)]);
             filling.Valid() && Run(d, filling, Repeated(0, len) + [4, 0xFF]).code == RC_FAIL)
  {
    hide Run, AppendFits, Repeated, Absorbed;
    var filling := c.(phase := Filling, stack := c.stack + [Frame(len, header, false)]);
    var content, rest: seq<Octet> := Repeated(0, len), [4, 0xFF];
    if content == [] || AppendFits(|c.buf| + len) {
      LeafRun(d, c, header, content, rest);
      PopRun(d, c, header + len, content, rest);
      AbsorbedWaits(c, header + len, content);
      RefusedSoon(d, Absorbed(c, header + len, content));
    } else {
      RunMoves(d, filling, content + rest);
    }
  }

  lemma AbsorbedWaits(c: Config, n: nat, b: seq<Octet>)
    requires Waits(c) && HasRoom(c, n + 2)
    ensures Waits(Absorbed(c, n, b)) && HasRoom(Absorbed(c, n, b), 2)
  {
  }

  /** A header that is read, but not as the end of the contents, is refused or becomes a frame. */
  lemma ReadHeader(d: Descriptor, c: Config, h: seq<Octet>, more: seq<Octet>)
    requires Waits(c) && HasRoom(c, |h|) && |h| >= 2 && !OpensWithZeros(h)
    requires HeaderIn(h).Got? && HeaderIn(h).used == |h| && HeaderIn(h).value.1 >= 0
    ensures var len := HeaderIn(h).value.1;
            var next := c.(phase := if IsConstructed(h[0]) then Expecting else Filling,
                           stack := c.stack + [Frame(len, |h|, false)]);
            if d.AllowsAt(|c.stack| - 1, HeaderIn(h).value.0) && HasRoom(c, |h| + len) then
              next.Valid() && Run(d, c, h + more) == Later(|h|, Run(d, next, more))
            else Run(d, c, h + more).code == RC_FAIL
  {
    hide Run, HeaderIn;
    var view := Visible(c, h + more);
    var behind := view[|h|..];
    assert view == h + behind;
    HeaderStable(h, behind);
    RunMoves(d, c, h + more);
    assert (h + more)[|h|..] == more;
  }

  /** Where the missing octets have room, the frame does not want more for ever. */
  lemma RefusedSomehow(d: Descriptor, c: Config, kept: seq<Octet>) returns (t: seq<Octet>)
    requires Waits(c) && HeaderIn(Visible(c, kept)).More? && HasRoom(c, |kept| + Missing(kept))
    ensures Run(d, c, kept + t).code != RC_WMORE
  {
    hide Run, HeaderIn, Missing, Deciding;
    assert Visible(c, kept) == kept;
    HeaderDecided(kept);
    var w := kept + Deciding(kept);
    var last := HeaderIn(w + [0xFF]);
    t := Deciding(kept) + [0xFF];
    assert kept + t == w + [0xFF];
    if last.Bad? {
      assert Visible(c, w + [0xFF]) == w + [0xFF];
      WaitingRun(d, c, w + [0xFF]);
    } else {
      t := RefusedWhenRead(d, c, kept, Deciding(kept));
    }
  }

  lemma RefusedWhenRead(d: Descriptor, c: Config, kept: seq<Octet>, w: seq<Octet>) returns (t: seq<Octet>)
    requires Waits(c) && HasRoom(c, |kept + w| + 1) && Decides(kept, w) && HeaderIn(kept + w + [0xFF]).Got?
    ensures Run(d, c, kept + t).code == RC_FAIL
  {
    hide Run, HeaderIn, Repeated;
    var high, low := kept + w + [0xFF], kept + w + [0];
    var len := HeaderIn(high).value.1;
    ReadHeader(d, c, high, [4, 0xFF]);
    ReadHeader(d, c, low, Repeated(0, len - 255) + [4, 0xFF]);
    if !(d.AllowsAt(|c.stack| - 1, HeaderIn(high).value.0) && HasRoom(c, |high| + len)) || IsConstructed(kept[0]) {
      t := w + [0xFF] + [4, 0xFF];
      assert kept + t == high + [4, 0xFF];
      if d.AllowsAt(|c.stack| - 1, HeaderIn(high).value.0) && HasRoom(c, |high| + len) {
        RefusedSoon(d, c.(stack := c.stack + [Frame(len, |high|, false)]));
      }
    } else {
      t := w + [0] + (Repeated(0, len - 255) + [4, 0xFF]);
      assert kept + t == low + (Repeated(0, len - 255) + [4, 0xFF]);
      RefusedBehind(d, c, |low|, len - 255);
    }
  }

  /**
   * A frame that waits, with some octets of a header kept, wants more for ever if and only if it has no room for as
   * many octets as can decide the header.
   */
  lemma WantsForEverExact(d: Descriptor, c: Config, kept: seq<Octet>)
    requires Waits(c) && HeaderIn(Visible(c, kept)).More?
    ensures (forall t :: Run(d, c, kept + t).code == RC_WMORE)
       <==> c.Top().left != -1 && c.Top().left < |kept| + Missing(kept)
  {
    hide Run, HeaderIn, Missing;
    if HasRoom(c, |kept| + Missing(kept)) {
      var t := RefusedSomehow(d, c, kept);
    } else {
      forall t
        ensures Run(d, c, kept + t).code == RC_WMORE
      {
        StillWants(d, c, kept, t);
      }
    }
  }

  lemma StillWants(d: Descriptor, c: Config, kept: seq<Octet>, t: seq<Octet>)
    requires Waits(c) && HeaderIn(Visible(c, kept)).More? && !HasRoom(c, |kept| + Missing(kept))
    ensures Run(d, c, kept + t).code == RC_WMORE
  {
    hide Run, HeaderIn, Missing;
    var view := Visible(c, kept + t);
    if |kept| <= c.Top().left {
      HeaderStillWants(kept, view[|kept|..]);
      assert Visible(c, kept) == kept && view == kept + view[|kept|..];
    } else {
      assert view == Visible(c, kept);
    }
    WaitingRun(d, c, kept + t);
  }

  /** Two headers and an empty segment, and the states they lead to. */
  lemma FirstFrame(d: Descriptor, n: Octet, rest: seq<Octet>)
    requires d == Descriptor(16, [16], false) && n < 0x80
    ensures var c := Config(Expecting, n, [Frame(n, 2, false)], []);
            c.Valid() && Run(d, INITIAL, [0x24, n] + rest) == Later(2, Run(d, c, rest))
  {
    hide Run, Moved;
    var c0 := INITIAL.(phase := Expecting, left := n as int);
    OuterTag(d, n, rest);
    RunGoes(d, INITIAL, [0x24, n] + rest, 0, c0, [0x24, n] + rest);
    HeaderOf(d, c0, 0x24, n, rest);
    RunGoes(d, c0, [0x24, n] + rest, 2, c0.(stack := [Frame(n, 2, false)]), rest);
  }

  lemma IndefiniteFrame(d: Descriptor, n: Octet, rest: seq<Octet>)
    requires d == Descriptor(16, [16], false) && 2 <= n < 0x80
    ensures var c := Config(Expecting, n, [Frame(n, 2, false), Frame(n - 2, 2, true)], []);
            c.Valid() && Run(d, INITIAL, [0x24, n] + ([0x24, 0x80] + rest)) == Later(4, Run(d, c, rest))
  {
    hide Run, Moved;
    var c1 := Config(Expecting, n, [Frame(n, 2, false)], []);
    FirstFrame(d, n, [0x24, 0x80] + rest);
    HeaderOf(d, c1, 0x24, 0x80, rest);
    assert c1.stack + [Frame(n - 2, 2, true)] == [Frame(n, 2, false), Frame(n - 2, 2, true)];
    RunGoes(d, c1, [0x24, 0x80] + rest, 2, c1.(stack := [Frame(n, 2, false), Frame(n - 2, 2, true)]), rest);
  }

  /**
   * So wanting more does not mean that more can help: an indefinite length inside a definite one that is used up
   * leaves no room for its end-of-contents octets.
   */
  lemma WantsInVain(rest: seq<Octet>)
    ensures var d := Descriptor(16, [16], false);
            Run(d, INITIAL, [0x24, 4] + ([0x24, 0x80] + ([4, 0] + rest))).code == RC_WMORE
  {
    hide Run, Moved;
    var d := Descriptor(16, [16], false);
    var c := Config(Expecting, 4, [Frame(4, 2, false), Frame(2, 2, true)], []);
    IndefiniteFrame(d, 4, [4, 0] + rest);
    HeaderOf(d, c, 4, 0, rest);
    EmptyLeaf(d, c, rest);
    RunGoes(d, c, [4, 0] + rest, 2, c.(phase := Filling, stack := c.stack + [Frame(0, 2, false)]), rest);
    var full := Absorbed(c, 2, []);
    WantsForEverExact(d, full, []);
    assert [] + rest == rest;
  }

  /** Nor does it where part of a header is there: identifier octets that go on leave no room for the length. */
  lemma WantsInVainMidTag(rest: seq<Octet>)
    ensures var d := Descriptor(16, [16], false);
            Run(d, INITIAL, [0x24, 2] + ([0x1F, 0x81] + rest)).code == RC_WMORE
  {
    hide Run;
    var d := Descriptor(16, [16], false);
    var c := Config(Expecting, 2, [Frame(2, 2, false)], []);
    var kept: seq<Octet> := [0x1F, 0x81];
    FirstFrame(d, 2, kept + rest);
    assert Radix128(kept, 1, 1) == 0;
    assert FetchedTag(kept) == More && Missing(kept) == 2;
    WantsForEverExact(d, c, kept);
  }

  lemma OuterTag(d: Descriptor, n: Octet, rest: seq<Octet>)
    requires d == Descriptor(16, [16], false) && n < 0x80
    ensures Moved(d, INITIAL, [0x24, n] + rest) == Go(0, INITIAL.(phase := Expecting, left := n as int))
  {
    hide CheckedTags;
    var s: seq<Octet> := [0x24, n] + rest;
    CheckedSingle(d, s);
    assert FetchedTag(s) == Got(16, 1);
    assert FetchedLength(true, s[1..]) == Got(n, 1);
  }

  /** A header of two octets. */
  lemma HeaderOf(d: Descriptor, c: Config, o: Octet, l: Octet, rest: seq<Octet>)
    requires d == Descriptor(16, [16], false) && c.Valid() && c.phase == Expecting
    requires o in {4, 0x24} && (l < 0x80 || (l == 0x80 && o == 0x24))
    requires |c.stack| > 0 ==> c.Top().left == -1 || c.Top().left >= 2
    requires Pushed(c, 2, if l == 0x80 then -1 else l).Got?
    ensures Moved(d, c, [o, l] + rest)
         == Go(2, c.(phase := if o == 4 then Filling else Expecting,
                     stack := c.stack + [Pushed(c, 2, if l == 0x80 then -1 else l).value]))
  {
    hide Pushed;
    assert IsIdentifier([o]) && TagOf([o]) == 16;
    assert IsLength(IsConstructed(o), [l]) && LengthOf(IsConstructed(o), [l]) == if l == 0x80 then -1 else l;
    assert [o] + [l] == [o, l];
    HeaderMove(d, c, [o], [l], rest);
  }

  /** An empty leaf is filled at once and counted for its parent. */
  lemma EmptyLeaf(d: Descriptor, c: Config, rest: seq<Octet>)
    requires c.Valid() && c.phase == Expecting && |c.stack| > 0 && HasRoom(c, 2) && c.buf == []
    ensures var filling := c.(phase := Filling, stack := c.stack + [Frame(0, 2, false)]);
            && filling.Valid() && Absorbed(c, 2, []).Valid()
            && Run(d, filling, rest) == Run(d, Absorbed(c, 2, []), rest)
  {
    hide Run, Absorbed, Emptied;
    assert [] + rest == rest;
    LeafRun(d, c, 2, [], rest);
    PopRun(d, c, 2, [], rest);
  }
}
