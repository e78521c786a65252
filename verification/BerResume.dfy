/** Tag checks over several calls: what ber_check_tags saves in `step`, and what it forgets. */
module BerResume {
  import opened Octets
  import opened BerTag
  import opened BerLength
  import opened BerDecoder

  /** What an outer length lets the loop see. */
  function Seen(a: seq<Octet>, limit: int): seq<Octet> {
    if 0 <= limit < |a| then a[..limit] else a
  }

  lemma CheckedHeaderStable(e: Expected, s: seq<Octet>, t: seq<Octet>, step: nat)
    requires !FetchedHeader(e, s, step).More?
    ensures FetchedHeader(e, s + t, step) == FetchedHeader(e, s, step)
  {
    hide FetchedTag, FetchedLength, HeaderIn;
    FetchTagStable(s, t);
    if FetchedTag(s).Got? {
      FetchedIsIdentifier(s);
      if !HeaderIn(s).More? {
        HeaderStable(s, t);
      }
    }
  }

  /** A header in view is the same header with more input, whatever the outer length lets see. */
  lemma HeaderInSight(e: Expected, a: seq<Octet>, t: seq<Octet>, limit: int, step: nat)
    requires FetchedHeader(e, Seen(a, limit), step).Got?
    ensures FetchedHeader(e, Seen(a + t, limit), step) == FetchedHeader(e, Seen(a, limit), step)
    ensures FetchedHeader(e, a, step) == FetchedHeader(e, Seen(a, limit), step)
  {
    hide FetchedHeader;
    var v := Seen(a, limit);
    var more := Seen(a + t, limit)[|v|..];
    CheckedHeaderStable(e, v, more, step);
    assert v + more == Seen(a + t, limit);
    CheckedHeaderStable(e, v, a[|v|..], step);
    assert v + a[|v|..] == a;
  }

  /** The view inside a header that agrees with the outer length is what its own length lets see. */
  lemma InnerIsSeen(a: seq<Octet>, h: Header, limit: int, nulls: nat)
    requires h.size <= |Seen(a, limit)| && h.length >= -1 && limit >= -1 && LengthAgrees(h, limit, nulls)
    ensures Inner(Seen(a, limit), h) == Seen(a[h.size..], h.length)
  {
  }

  /** The length announced by the header in front of step k, reading one header after the other. */
  function Announced(e: Expected, s: seq<Octet>, step: nat, k: nat): int
    decreases k - step
  {
    match FetchedHeader(e, s, step)
    case Got(h, size) => if k <= step + 1 then h.length else Announced(e, s[size..], step + 1, k)
    case _ => INDEFINITE
  }

  /**
   * A call that wants more has passed some headers. With more input the one call would pass them too, and go on with
   * what they have left behind: the limit and the count of end-of-contents, which the next call does not know.
   */
  lemma {:induction false} Passed(
      e: Expected, a: seq<Octet>, t: seq<Octet>, step: nat, limit: int, nulls: nat, consumed: nat)
      returns (left: int, seen: nat)
    requires e.hasContext && e.TagNo(step) < |e.tags| && limit >= -1
    requires CheckedChain(e, Seen(a, limit), step, limit, nulls, consumed).Starved?
    ensures var r := CheckedChain(e, Seen(a, limit), step, limit, nulls, consumed);
            && r.step >= step && e.TagNo(r.step) < |e.tags|
            && left >= -1 && consumed <= r.consumed <= consumed + |a|
            && CheckedChain(e, Seen(a + t, limit), step, limit, nulls, consumed)
            == CheckedChain(e, Seen(a[r.consumed - consumed..] + t, left), r.step, left, seen, r.consumed)
            && (r.step == step ==> left == limit && seen == nulls && r.consumed == consumed)
            && (r.step > step ==> left == Announced(e, a, step, r.step) && (left == INDEFINITE <==> seen > 0))
    decreases |e.tags| - e.TagNo(step)
  {
    hide FetchedHeader, Seen, CheckedChain;
    var r := CheckedChain(e, Seen(a, limit), step, limit, nulls, consumed);
    ChainWants(e, Seen(a, limit), step, limit, nulls, consumed);
    match FetchedHeader(e, Seen(a, limit), step)
    case More =>
      left, seen := limit, nulls;
      assert a[0..] + t == a + t;
    case Got(h, size) =>
      SeenIsShorter(a, limit);
      HeaderInSight(e, a, t, limit, step);
      PassOne(e, a, step, limit, nulls, consumed);
      PassOne(e, a + t, step, limit, nulls, consumed);
      Rest(a, t, size, r.consumed - consumed);
      left, seen := Passed(e, a[size..], t, step + 1, h.length, Counted(h, nulls), consumed + size);
  }

  function Counted(h: Header, nulls: nat): nat {
    if h.length == INDEFINITE then nulls + 1 else nulls
  }

  /** A call that wants more lacks a header, or has passed one. */
  lemma ChainWants(e: Expected, s: seq<Octet>, step: nat, limit: int, nulls: nat, consumed: nat)
    requires e.hasContext && e.TagNo(step) < |e.tags| && CheckedChain(e, s, step, limit, nulls, consumed).Starved?
    ensures var x, r := FetchedHeader(e, s, step), CheckedChain(e, s, step, limit, nulls, consumed);
            && !x.Bad?
            && (x.More? ==> r == Starved(consumed, step))
            && (x.Got? ==> LengthAgrees(x.value, limit, nulls) && e.TagNo(step) + 1 < |e.tags|
                           && consumed + x.used <= r.consumed <= consumed + |s| && r.step > step)
  {
    hide FetchedHeader, Inner;
    ChainStarved(e, s, step, limit, nulls, consumed);
    match FetchedHeader(e, s, step)
    case Got(h, size) =>
      if LengthAgrees(h, limit, nulls) && e.TagNo(step) + 1 < |e.tags| {
        ChainStarved(e, Inner(s, h), step + 1, h.length, Counted(h, nulls), consumed + size);
        ChainAdvances(e, Inner(s, h), step + 1, h.length, Counted(h, nulls), consumed + size);
      }
    case _ =>
  }

  lemma {:induction false} ChainAdvances(e: Expected, s: seq<Octet>, step: nat, limit: int, nulls: nat, consumed: nat)
    requires e.hasContext && e.TagNo(step) < |e.tags|
    ensures var r := CheckedChain(e, s, step, limit, nulls, consumed); r.Starved? ==> r.consumed >= consumed
    decreases |e.tags| - e.TagNo(step)
  {
    hide FetchedHeader, Inner;
    match FetchedHeader(e, s, step)
    case Got(h, size) =>
      if LengthAgrees(h, limit, nulls) && e.TagNo(step) + 1 < |e.tags| {
        ChainAdvances(e, Inner(s, h), step + 1, h.length, Counted(h, nulls), consumed + size);
      }
    case _ =>
  }

  /** One header passed, whatever the outer length lets see. */
  lemma PassOne(e: Expected, a: seq<Octet>, step: nat, limit: int, nulls: nat, consumed: nat)
    requires e.TagNo(step) + 1 < |e.tags| && limit >= -1 && FetchedHeader(e, Seen(a, limit), step).Got?
    requires LengthAgrees(FetchedHeader(e, Seen(a, limit), step).value, limit, nulls)
    ensures var h := FetchedHeader(e, Seen(a, limit), step).value;
            && h.size <= |a|
            && CheckedChain(e, Seen(a, limit), step, limit, nulls, consumed)
            == CheckedChain(e, Seen(a[h.size..], h.length), step + 1, h.length, Counted(h, nulls), consumed + h.size)
  {
    hide FetchedHeader, Seen, Inner;
    SeenIsShorter(a, limit);
    InnerIsSeen(a, FetchedHeader(e, Seen(a, limit), step).value, limit, nulls);
  }

  lemma Rest(a: seq<Octet>, t: seq<Octet>, m: nat, n: nat)
    requires m <= n <= |a|
    ensures (a + t)[m..] == a[m..] + t && a[m..][n - m..] == a[n..]
  {
  }

  lemma SeenIsShorter(a: seq<Octet>, limit: int)
    ensures |Seen(a, limit)| <= |a| && Seen(a, limit) <= a
  {
  }

  /** The rest of a chain on its own, and behind headers that have left a limit or a count. */
  lemma RestAgrees(e: Expected, a: seq<Octet>, k: nat, limit: int, nulls: nat, n: nat)
    requires e.TagNo(k) < |e.tags| && limit >= -1 && (limit == INDEFINITE <==> nulls > 0)
    requires CheckedChain(e, a, k, -1, 0, 0).Accepted?
    ensures FetchedHeader(e, a, k).Got?
    ensures var r := CheckedChain(e, a, k, -1, 0, 0);
            var next := FetchedHeader(e, a, k).value;
            CheckedChain(e, Seen(a, limit), k, limit, nulls, n) == r.(consumed := n + r.consumed)
            <==> limit != INDEFINITE && next.length != INDEFINITE && limit == next.size + next.length
  {
    hide FetchedHeader, CheckedChain, Seen, IsChain, Accepting, Bytes;
    var hs := AcceptedIsChain(e, a, k, -1, 0, 0);
    FirstHeaderIs(e, hs, a, k);
    var next := FetchedHeader(e, a, k).value;
    if limit != INDEFINITE && next.length != INDEFINITE && limit == next.size + next.length {
      ChainHead(e, hs, k);
      NestedFits(hs);
      SeenTakes(a, Bytes(hs), limit);
      ChainAccepted(e, hs, Seen(a, limit), k, limit, nulls, n);
      DefiniteAlike(e, hs, k, nulls, n);
    } else if CheckedChain(e, Seen(a, limit), k, limit, nulls, n).Accepted? {
      var others := AcceptedIsChain(e, Seen(a, limit), k, limit, nulls, n);
      SeenIsShorter(a, limit);
      FirstHeaderIs(e, others, a, k);
      CountsDiffer(e, hs, others, k, nulls, n);
    }
  }

  lemma SeenTakes(a: seq<Octet>, b: seq<Octet>, limit: int)
    requires b <= a && |b| <= limit
    ensures b <= Seen(a, limit)
  {
  }

  /** The first header of a chain is the one that is fetched. */
  lemma FirstHeaderIs(e: Expected, hs: seq<Tl>, a: seq<Octet>, k: nat)
    requires IsChain(e, hs, k) && Bytes(hs) <= a
    ensures hs != [] && hs[0].Valid()
    ensures FetchedHeader(e, a, k)
         == Got(Header(hs[0].Size(), hs[0].Length(), IsConstructed(hs[0].id[0])), hs[0].Size())
  {
    hide FetchedHeader, IsChain, Bytes;
    ChainHead(e, hs, k);
    var h := hs[0];
    BytesCons(h, hs[1..]);
    assert hs == [h] + hs[1..];
    var rest := a[h.Size()..];
    assert h.id + h.len + Bytes(hs[1..]) <= a;
    assert a == h.id + h.len + rest;
    HeaderRead(e, h, rest, k);
  }

  /** With definite lengths only the number of octets in front differs. */
  lemma DefiniteAlike(e: Expected, hs: seq<Tl>, k: nat, nulls: nat, n: nat)
    requires IsChain(e, hs, k) && hs[0].Length() != INDEFINITE
    ensures (forall i :: 0 <= i < |hs| ==> hs[i].Valid()) && hs != []
    ensures Accepting(hs, k, nulls, n) == Accepting(hs, k, 0, 0).(consumed := n + Accepting(hs, k, 0, 0).consumed)
  {
    hide Bytes;
    ChainHead(e, hs, k);
    assert hs[|hs| - 1].Length() != INDEFINITE;
  }

  /** With indefinite ones the count of end-of-contents differs. */
  lemma CountsDiffer(e: Expected, hs: seq<Tl>, others: seq<Tl>, k: nat, nulls: nat, n: nat)
    requires IsChain(e, hs, k) && IsChain(e, others, k) && nulls > 0
    requires hs[0].Length() == INDEFINITE && others[0].Length() == INDEFINITE
    ensures (forall i :: 0 <= i < |hs| ==> hs[i].Valid()) && (forall i :: 0 <= i < |others| ==> others[i].Valid())
    ensures Accepting(hs, k, 0, 0).lastLength != Accepting(others, k, nulls, n).lastLength
  {
    hide Bytes;
    assert AllIndefinite(hs) && AllIndefinite(others);
  }

  /**
   * A call that wants more and a later call that accepts the rest: one call on everything says the same if and only if
   * no header had been passed, or the last one passed and the first one of the rest are definite and the former covers
   * the latter exactly. Otherwise the later call accepts what one call refuses, or counts other end-of-contents.
   */
  lemma ResumedExact(e: Expected, s: seq<Octet>, t: seq<Octet>, step: nat)
    requires e.hasContext && e.Callable(step) && CheckedTags(e, s, step).Starved?
    requires var r := CheckedTags(e, s, step); CheckedTags(e, s[r.consumed..] + t, r.step).Accepted?
    ensures var r := CheckedTags(e, s, step);
            var rest := CheckedTags(e, s[r.consumed..] + t, r.step);
            && FetchedHeader(e, s[r.consumed..] + t, r.step).Got?
            && var outer, next := Announced(e, s, step, r.step), FetchedHeader(e, s[r.consumed..] + t, r.step).value;
               CheckedTags(e, s + t, step) == rest.(consumed := r.consumed + rest.consumed)
               <==> r.step == step
                    || (outer != INDEFINITE && next.length != INDEFINITE && outer == next.size + next.length)
  {
    hide FetchedHeader, CheckedChain, Seen;
    var r := CheckedTags(e, s, step);
    var full := s[r.consumed..] + t;
    if e.IsAny(step) {
      assert full == s + t;
    } else {
      NoLimit(s);
      NoLimit(s + t);
      NoLimit(full);
      var left, seen := Passed(e, s, t, step, -1, 0, 0);
      if r.step == step {
        assert full == s + t;
        HeaderOfAccepted(e, full, step);
      } else {
        RestAgrees(e, full, r.step, left, seen, r.consumed);
      }
    }
  }

  /** What one call accepts, the later call accepts too, so the theorem above tells what becomes of it. */
  lemma AcceptedResumes(e: Expected, s: seq<Octet>, t: seq<Octet>, step: nat)
    requires e.hasContext && e.Callable(step) && CheckedTags(e, s, step).Starved?
    requires CheckedTags(e, s + t, step).Accepted?
    ensures var r := CheckedTags(e, s, step); CheckedTags(e, s[r.consumed..] + t, r.step).Accepted?
  {
    hide FetchedHeader, CheckedChain, Seen, IsChain, Accepting, Bytes;
    var r := CheckedTags(e, s, step);
    var full := s[r.consumed..] + t;
    if e.IsAny(step) {
      assert full == s + t;
    } else {
      NoLimit(s);
      NoLimit(s + t);
      var left, seen := Passed(e, s, t, step, -1, 0, 0);
      var hs := AcceptedIsChain(e, Seen(full, left), r.step, left, seen, r.consumed);
      SeenIsShorter(full, left);
      ChainAccepted(e, hs, full, r.step, -1, 0, 0);
      AcceptingAccepts(e, hs, r.step);
    }
  }

  lemma AcceptingAccepts(e: Expected, hs: seq<Tl>, k: nat)
    requires IsChain(e, hs, k)
    ensures hs != [] && (forall i :: 0 <= i < |hs| ==> hs[i].Valid()) && Accepting(hs, k, 0, 0).Accepted?
  {
  }

  lemma HeaderOfAccepted(e: Expected, s: seq<Octet>, step: nat)
    requires e.TagNo(step) < |e.tags| && CheckedChain(e, s, step, -1, 0, 0).Accepted?
    ensures FetchedHeader(e, s, step).Got?
  {
    hide FetchedHeader;
  }

  lemma NoLimit(a: seq<Octet>)
    ensures Seen(a, -1) == a
  {
  }

  /** One call refuses what two calls accept: the outer length says 5, the header inside it says 3. */
  lemma OuterLengthForgotten()
    ensures var e := Expected([2, 16], 0, -1, true);
            && CheckedTags(e, [0xA0, 5] + [4, 1, 7], 0).Refused?
            && CheckedTags(e, [0xA0, 5], 0) == Starved(2, 1)
            && CheckedTags(e, [] + [4, 1, 7], 1) == Accepted(2, 2, 1, false)
  {
    hide FetchedHeader;
    var e := Expected([2, 16], 0, -1, true);
    OuterHeader(e, [4, 1, 7]);
    OuterHeader(e, []);
    InnerHeader(e);
    assert [0xA0, 5] + [] == [0xA0, 5] && [] + [4, 1, 7] == [4, 1, 7];
    assert ([0xA0, 5] + [4, 1, 7])[2..] == [4, 1, 7] && [0xA0, 5][2..] == [];
  }

  lemma OuterHeader(e: Expected, rest: seq<Octet>)
    requires e == Expected([2, 16], 0, -1, true)
    ensures FetchedHeader(e, [0xA0, 5] + rest, 0) == Got(Header(2, 5, true), 2)
  {
    hide FetchedHeader;
    var outer := Tl([0xA0], [5]);
    assert outer.Fits(e, 0) && outer.Length() == 5;
    assert outer.id + outer.len == [0xA0, 5];
    HeaderRead(e, outer, rest, 0);
  }

  lemma InnerHeader(e: Expected)
    requires e == Expected([2, 16], 0, -1, true)
    ensures FetchedHeader(e, [4, 1, 7], 1) == Got(Header(2, 1, false), 2) && FetchedHeader(e, [], 1) == More
  {
    var inner := Tl([4], [1]);
    assert inner.Fits(e, 1) && inner.Length() == 1;
    assert inner.id + inner.len + [7] == [4, 1, 7];
    HeaderRead(e, inner, [7], 1);
  }
}
