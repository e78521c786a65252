/** Chains of explicit tags: ber_check_tags of ber_decoder.c, X.690 section 8.14. */
module BerDecoder {
  import opened Octets
  import opened BerTag
  import opened BerLength

  /** `step` is what the decoder's context remembers; `consumed` is what the caller is told. */
  datatype Checked =
    | Accepted(consumed: nat, step: nat, lastLength: int, constructed: bool)   // RC_OK
    | Starved(consumed: nat, step: nat)                                       // RC_WMORE
    | Refused(consumed: nat, step: nat)                                       // RC_FAIL

  /** tag_mode is 0 for all tags, -1 when the first tag is replaced, 1 when one stands in front of them. */
  datatype Expected = Expected(tags: seq<nat>, tagMode: int, lastForm: int, hasContext: bool)
  {
    /** Where in `tags` the loop stands at a given step. */
    function TagNo(step: nat): int {
      step + if tagMode == 1 then -1 else 0
    }

    /** Whether the tag itself is accepted at a step: the outermost one is not known under a tag mode. */
    predicate TagMatches(step: nat, tag: nat) {
      (tagMode != 0 && step == 0) || (0 <= TagNo(step) < |tags| && tag == tags[TagNo(step)])
    }

    /** Whether the primitive or constructed form is accepted at a step. */
    predicate FormMatches(step: nat, constructed: bool) {
      if TagNo(step) < |tags| - 1 then constructed
      else lastForm == -1 || lastForm == (if constructed then 1 else 0)
    }

    /** An untagged ANY is reached when no tags are left. */
    predicate IsAny(step: nat) {
      tagMode == 0 && TagNo(step) == |tags|
    }

    /** "At least one loop", except for ANY. */
    predicate Callable(step: nat) {
      IsAny(step) || TagNo(step) < |tags|
    }

    function Starve(consumed: nat, step: nat): Checked {
      Starved(if hasContext then consumed else 0, step)
    }

    function Refuse(consumed: nat, step: nat): Checked {
      Refused(if hasContext then consumed else 0, step)
    }
  }

  /** The tag and the length of a header, and how many octets it takes. */
  function HeaderIn(view: seq<Octet>): (r: Fetch<(nat, int)>)
    ensures r.Got? ==> 2 <= r.used <= |view| && r.value.1 >= (if IsConstructed(view[0]) then -1 else 0)
  {
    match FetchedTag(view)
    case More => More
    case Bad => Bad
    case Got(tag, tl) =>
      FetchedIsIdentifier(view);
      match FetchedLength(IsConstructed(view[0]), view[tl..])
      case More => More
      case Bad => Bad
      case Got(len, ll) =>
        FetchedIsLength(IsConstructed(view[0]), view[tl..]);
        LengthForm(IsConstructed(view[0]), view[tl..]);
        Got((tag, len), tl + ll)
  }

  lemma LengthForm(constructed: bool, s: seq<Octet>)
    requires FetchedLength(constructed, s).Got?
    ensures FetchedLength(constructed, s).value >= if constructed then -1 else 0
  {
    FetchedIsLength(constructed, s);
  }

  /** A header decided stays so when octets arrive behind it. */
  lemma HeaderStable(view: seq<Octet>, more: seq<Octet>)
    requires !HeaderIn(view).More?
    ensures HeaderIn(view + more) == HeaderIn(view)
  {
    hide FetchedTag, FetchedLength, RunEnd;
    FetchTagStable(view, more);
    if FetchedTag(view).Got? {
      FetchedIsIdentifier(view);
      var tl := FetchedTag(view).used;
      assert (view + more)[tl..] == view[tl..] + more;
      FetchLengthStable(IsConstructed(view[0]), view[tl..], more);
    }
  }

  /** One header, checked against its step: more data, a refusal, or its size, length and form. */
  datatype Header = Header(size: nat, length: int, constructed: bool)

  function FetchedHeader(e: Expected, s: seq<Octet>, step: nat): (r: Fetch<Header>)
    ensures r.Got? ==> r.used == r.value.size <= |s| && r.value.length >= -1
  {
    match FetchedTag(s)
    case More => More
    case Bad => Bad
    case Got(tag, _) =>
      FetchedIsIdentifier(s);
      var constructed := IsConstructed(s[0]);
      if !e.IsAny(step) && !(e.TagMatches(step, tag) && e.FormMatches(step, constructed)) then Bad else
      match HeaderIn(s)
      case More => More
      case Bad => Bad
      case Got((_, len), size) => Got(Header(size, len, constructed), size)
  }

  /** Indefinite and definite lengths do not mix, and a definite one fits its outer length exactly. */
  predicate LengthAgrees(h: Header, limit: int, nulls: nat) {
    if h.length == INDEFINITE then limit == -1
    else nulls == 0 && (limit == -1 || limit == h.length + h.size)
  }

  /** What is left to see of a frame inside a header. */
  function Inner(s: seq<Octet>, h: Header): seq<Octet>
    requires h.size <= |s| && h.length >= -1
  {
    var rest := s[h.size..];
    if h.length != INDEFINITE && |rest| > h.length then rest[..h.length] else rest
  }

  /** The length reported: how many end-of-contents are expected, as a negative, or the innermost length. */
  function LastLength(nulls: nat, length: int): int {
    if nulls > 0 then 0 - nulls else length
  }

  /** The loop of ber_check_tags from one tag on. */
  function CheckedChain(e: Expected, s: seq<Octet>, step: nat, limit: int, nulls: nat, consumed: nat): Checked
    requires e.TagNo(step) < |e.tags|
    decreases |e.tags| - e.TagNo(step)
  {
    match FetchedHeader(e, s, step)
    case More => e.Starve(consumed, step)
    case Bad => e.Refuse(consumed, step)
    case Got(h, size) =>
      if !LengthAgrees(h, limit, nulls) then
        e.Refuse(consumed, step)
      else
        var nulls' := if h.length == INDEFINITE then nulls + 1 else nulls;
        if e.TagNo(step) + 1 == |e.tags| then
          Accepted(consumed + size, step + 1, LastLength(nulls', h.length), h.constructed)
        else
          CheckedChain(e, Inner(s, h), step + 1, h.length, nulls', consumed + size)
  }

  function CheckedTags(e: Expected, s: seq<Octet>, step: nat): (r: Checked)
    requires e.Callable(step)
    ensures r.Starved? ==> r.step >= step && e.Callable(r.step) && r.consumed <= |s|
  {
    if e.IsAny(step) then
      match FetchedHeader(e, s, step)
      case More => e.Starve(0, step)
      case Bad => e.Refuse(0, step)
      case Got(h, size) => Accepted(size, step, h.length, h.constructed)
    else
      ChainStarved(e, s, step, -1, 0, 0);
      CheckedChain(e, s, step, -1, 0, 0)
  }

  /** Where a call that wants more stands. */
  lemma {:induction false} ChainStarved(e: Expected, s: seq<Octet>, step: nat, limit: int, nulls: nat, consumed: nat)
    requires e.TagNo(step) < |e.tags|
    ensures var r := CheckedChain(e, s, step, limit, nulls, consumed);
            r.Starved? ==> r.step >= step && e.TagNo(r.step) < |e.tags| && r.consumed <= consumed + |s|
    decreases |e.tags| - e.TagNo(step)
  {
    hide FetchedHeader, Inner;
    match FetchedHeader(e, s, step)
    case Got(h, size) =>
      InnerIsShorter(s, h);
      if LengthAgrees(h, limit, nulls) && e.TagNo(step) + 1 < |e.tags| {
        var nulls' := if h.length == INDEFINITE then nulls + 1 else nulls;
        ChainStarved(e, Inner(s, h), step + 1, h.length, nulls', consumed + size);
      }
    case _ =>
  }

  lemma InnerIsShorter(s: seq<Octet>, h: Header)
    requires h.size <= |s| && h.length >= -1
    ensures |Inner(s, h)| + h.size <= |s|
  {
  }

  method FetchHeader(e: Expected, s: seq<Octet>, step: nat) returns (r: Fetch<Header>)
    ensures r == FetchedHeader(e, s, step)
  {
    var tag := FetchTag(s);
    if !tag.Got? {
      return if tag.More? then More else Bad;
    }
    FetchedIsIdentifier(s);
    var constructed := IsConstructed(s[0]);
    if !e.IsAny(step) {
      if !e.TagMatches(step, tag.value) {
        return Bad;
      }
      if !e.FormMatches(step, constructed) {
        return Bad;
      }
    }
    var length := FetchLength(constructed, s[tag.used..]);
    if !length.Got? {
      return if length.More? then More else Bad;
    }
    FetchedIsLength(constructed, s[tag.used..]);
    var size := tag.used + length.used;
    return Got(Header(size, length.value, constructed), size);
  }

  method CheckTags(e: Expected, s: seq<Octet>, start: nat) returns (r: Checked)
    requires e.Callable(start)
    ensures r == CheckedTags(e, s, start)
  {
    if e.IsAny(start) {
      var any := FetchHeader(e, s, start);
      match any
      case More => return e.Starve(0, start);
      case Bad => return e.Refuse(0, start);
      case Got(h, size) => return Accepted(size, start, h.length, h.constructed);
    }
    r := CheckChain(e, s, start);
  }

  /** The loop over the tags. */
  method CheckChain(e: Expected, s: seq<Octet>, start: nat) returns (r: Checked)
    requires e.TagNo(start) < |e.tags|
    ensures r == CheckedChain(e, s, start, -1, 0, 0)
  {
    hide FetchedHeader;
    var view, limit := s, -1;
    var step: nat, nulls: nat, consumed: nat := start, 0, 0;
    while true
      invariant e.TagNo(step) < |e.tags|
      invariant CheckedChain(e, s, start, -1, 0, 0) == CheckedChain(e, view, step, limit, nulls, consumed)
      decreases |e.tags| - e.TagNo(step)
    {
      ghost var before := view;
      var header := FetchHeader(e, view, step);
      if !header.Got? {
        return if header.More? then e.Starve(consumed, step) else e.Refuse(consumed, step);
      }
      var h := header.value;
      if h.length == INDEFINITE {
        if limit != -1 {
          return e.Refuse(consumed, step);
        }
        nulls := nulls + 1;
        view := view[h.size..];
      } else {
        if nulls > 0 {
          return e.Refuse(consumed, step);
        }
        if limit == -1 {
          limit := h.length + h.size;
        } else if limit != h.length + h.size {
          return e.Refuse(consumed, step);
        }
        view := view[h.size..];
        limit := limit - h.size;
        if |view| > limit {
          view := view[..limit];
        }
      }
      assert view == Inner(before, h) && limit == h.length;
      consumed := consumed + h.size;
      if e.TagNo(step + 1) == |e.tags| {
        return Accepted(consumed, step + 1, LastLength(nulls, h.length), h.constructed);
      }
      step := step + 1;
    }
  }

  /** Identifier and length octets as they stand in the encoding. */
  datatype Tl = Tl(id: seq<Octet>, len: seq<Octet>)
  {
    predicate Valid() {
      IsIdentifier(id) && IsLength(IsConstructed(id[0]), len)
    }

    function Size(): nat {
      |id| + |len|
    }

    function Length(): int
      requires Valid()
    {
      LengthOf(IsConstructed(id[0]), len)
    }

    predicate Fits(e: Expected, step: nat) {
      Valid() && e.TagMatches(step, TagOf(id)) && e.FormMatches(step, IsConstructed(id[0]))
    }
  }

  function Bytes(hs: seq<Tl>): seq<Octet> {
    if hs == [] then [] else hs[0].id + hs[0].len + Bytes(hs[1..])
  }

  predicate AllFit(e: Expected, hs: seq<Tl>, step: nat) {
    forall k :: 0 <= k < |hs| ==> hs[k].Fits(e, step + k)
  }

  predicate AllIndefinite(hs: seq<Tl>)
    requires forall k :: 0 <= k < |hs| ==> hs[k].Valid()
  {
    forall k :: 0 <= k < |hs| ==> hs[k].Length() == INDEFINITE
  }

  /** Each definite length covers exactly the next header and what that one announces. */
  predicate AllNested(hs: seq<Tl>)
    requires forall k :: 0 <= k < |hs| ==> hs[k].Valid()
  {
    && (forall k :: 0 <= k < |hs| ==> hs[k].Length() != INDEFINITE)
    && (forall k :: 0 < k < |hs| ==> hs[k - 1].Length() == hs[k].Size() + hs[k].Length())
  }

  /** The tags in order, every outer one constructed, the last one in the form asked for. */
  predicate IsChain(e: Expected, hs: seq<Tl>, step: nat) {
    && |hs| > 0 && e.TagNo(step) + |hs| == |e.tags|
    && AllFit(e, hs, step)
    && (AllIndefinite(hs) || AllNested(hs))
  }

  /** What accepting a chain reports. */
  function Accepting(hs: seq<Tl>, step: nat, nulls: nat, consumed: nat): Checked
    requires |hs| > 0 && forall k :: 0 <= k < |hs| ==> hs[k].Valid()
  {
    var last := hs[|hs| - 1];
    Accepted(consumed + |Bytes(hs)|, step + |hs|,
             if last.Length() == INDEFINITE then 0 - nulls - |hs| else last.Length(),
             IsConstructed(last.id[0]))
  }

  lemma HeaderRead(e: Expected, h: Tl, rest: seq<Octet>, step: nat)
    requires h.Fits(e, step)
    ensures FetchedHeader(e, h.id + h.len + rest, step)
         == Got(Header(h.Size(), h.Length(), IsConstructed(h.id[0])), h.Size())
  {
    hide RunEnd, FetchedTag, FetchedLength;
    var s := h.id + h.len + rest;
    assert s == h.id + (h.len + rest);
    FetchReadsIdentifier(h.id, h.len + rest);
    assert s[|h.id|..] == h.len + rest;
    FetchReadsLength(IsConstructed(h.id[0]), h.len, rest);
  }

  lemma HeaderIsTl(e: Expected, s: seq<Octet>, step: nat) returns (h: Tl)
    requires FetchedHeader(e, s, step).Got? && !e.IsAny(step)
    ensures h.Fits(e, step)
    ensures FetchedHeader(e, s, step).value == Header(h.Size(), h.Length(), IsConstructed(h.id[0]))
    ensures h.id + h.len == s[..h.Size()]
  {
    hide RunEnd, FetchedTag, FetchedLength;
    FetchedIsIdentifier(s);
    var tl := FetchedTag(s).used;
    FetchedIsLength(IsConstructed(s[0]), s[tl..]);
    var ll := FetchedLength(IsConstructed(s[0]), s[tl..]).used;
    h := Tl(s[..tl], s[tl..][..ll]);
  }

  /** A chain nested in definite lengths does not outgrow its outermost length. */
  lemma {:induction false} NestedFits(hs: seq<Tl>)
    requires |hs| > 0 && (forall k :: 0 <= k < |hs| ==> hs[k].Valid()) && AllNested(hs)
    ensures |Bytes(hs)| <= hs[0].Size() + hs[0].Length()
  {
    if |hs| > 1 {
      NestedFits(hs[1..]);
    }
  }

  /** What a header must agree with: the limit left by the outer lengths. */
  predicate Admits(h: Tl, limit: int, nulls: nat)
    requires h.Valid()
  {
    LengthAgrees(Header(h.Size(), h.Length(), IsConstructed(h.id[0])), limit, nulls)
  }

  function Nulls(h: Tl, nulls: nat): nat
    requires h.Valid()
  {
    if h.Length() == INDEFINITE then nulls + 1 else nulls
  }

  /** A chain of more than one header is its first header on top of a chain. */
  lemma ChainSplit(e: Expected, h: Tl, tail: seq<Tl>, step: nat, limit: int, nulls: nat, consumed: nat)
    requires tail != [] && h.Valid() && Admits(h, limit, nulls)
    ensures IsChain(e, [h] + tail, step)
       <==> h.Fits(e, step) && IsChain(e, tail, step + 1) && Admits(tail[0], h.Length(), Nulls(h, nulls))
    ensures IsChain(e, tail, step + 1) && Admits(tail[0], h.Length(), Nulls(h, nulls)) ==>
      Accepting([h] + tail, step, nulls, consumed)
        == Accepting(tail, step + 1, Nulls(h, nulls), consumed + h.Size())
  {
    if IsChain(e, [h] + tail, step) {
      ChainSplitForward(e, h, tail, step, limit, nulls);
    }
    if IsChain(e, tail, step + 1) && Admits(tail[0], h.Length(), Nulls(h, nulls)) {
      if h.Fits(e, step) {
        ChainSplitBackward(e, h, tail, step, limit, nulls);
      }
      BytesCons(h, tail);
    }
  }

  lemma BytesCons(h: Tl, tail: seq<Tl>)
    ensures Bytes([h] + tail) == h.id + h.len + Bytes(tail)
  {
    assert ([h] + tail)[1..] == tail;
  }

  lemma ChainSplitForward(e: Expected, h: Tl, tail: seq<Tl>, step: nat, limit: int, nulls: nat)
    requires tail != [] && h.Valid() && Admits(h, limit, nulls)
    requires IsChain(e, [h] + tail, step)
    ensures h.Fits(e, step) && IsChain(e, tail, step + 1) && Admits(tail[0], h.Length(), Nulls(h, nulls))
  {
    var hs := [h] + tail;
    assert hs[0] == h && hs[1] == tail[0];
    assert forall k :: 0 <= k < |tail| ==> tail[k] == hs[k + 1];
    assert AllFit(e, tail, step + 1);
    if AllIndefinite(hs) {
      assert AllIndefinite(tail);
    } else {
      assert AllNested(tail);
    }
  }

  lemma ChainSplitBackward(e: Expected, h: Tl, tail: seq<Tl>, step: nat, limit: int, nulls: nat)
    requires tail != [] && h.Valid() && Admits(h, limit, nulls)
    requires h.Fits(e, step) && IsChain(e, tail, step + 1) && Admits(tail[0], h.Length(), Nulls(h, nulls))
    ensures IsChain(e, [h] + tail, step)
  {
    var hs := [h] + tail;
    assert forall k :: 0 < k < |hs| ==> hs[k] == tail[k - 1];
    assert AllFit(e, hs, step);
    if AllIndefinite(tail) {
      assert AllIndefinite(hs);
    } else {
      assert AllNested(hs);
    }
  }

  /** One turn of the loop, when it accepts the header. */
  lemma ChainTurn(e: Expected, h: Tl, s: seq<Octet>, step: nat, limit: int, nulls: nat, consumed: nat)
    requires e.TagNo(step) < |e.tags| && h.Fits(e, step) && h.id + h.len <= s && Admits(h, limit, nulls)
    ensures FetchedHeader(e, s, step) == Got(Header(h.Size(), h.Length(), IsConstructed(h.id[0])), h.Size())
    ensures CheckedChain(e, s, step, limit, nulls, consumed)
         == if e.TagNo(step) + 1 == |e.tags| then
              Accepted(consumed + h.Size(), step + 1, LastLength(Nulls(h, nulls), h.Length()), IsConstructed(h.id[0]))
            else
              CheckedChain(e, Inner(s, Header(h.Size(), h.Length(), IsConstructed(h.id[0]))),
                           step + 1, h.Length(), Nulls(h, nulls), consumed + h.Size())
  {
    hide FetchedHeader;
    var rest := s[h.Size()..];
    assert s == h.id + h.len + rest;
    HeaderRead(e, h, rest, step);
  }

  lemma {:induction false} ChainAccepted(
      e: Expected, hs: seq<Tl>, s: seq<Octet>, step: nat, limit: int, nulls: nat, consumed: nat)
    requires IsChain(e, hs, step) && Bytes(hs) <= s && Admits(hs[0], limit, nulls)
    ensures CheckedChain(e, s, step, limit, nulls, consumed) == Accepting(hs, step, nulls, consumed)
    decreases |hs|
  {
    hide FetchedHeader, CheckedChain, Inner, IsChain, Accepting, Bytes, AllNested;
    ChainHead(e, hs, step);
    var h, tail := hs[0], hs[1..];
    assert hs == [h] + tail;
    BytesCons(h, tail);
    ChainTurn(e, h, s, step, limit, nulls, consumed);
    if tail == [] {
      assert hs == [h];
      LastLink(e, h, step, nulls, consumed);
    } else {
      ChainSplit(e, h, tail, step, limit, nulls, consumed);
      ChainHead(e, tail, step + 1);
      InnerKeeps(h, tail, s);
      ChainAccepted(e, tail, Inner(s, Header(h.Size(), h.Length(), IsConstructed(h.id[0]))),
                    step + 1, h.Length(), Nulls(h, nulls), consumed + h.Size());
    }
  }

  lemma ChainHead(e: Expected, hs: seq<Tl>, step: nat)
    requires IsChain(e, hs, step)
    ensures hs != [] && hs[0].Fits(e, step) && (forall k :: 0 <= k < |hs| ==> hs[k].Valid())
    ensures e.TagNo(step) + |hs| == |e.tags|
    ensures hs[0].Length() != INDEFINITE ==> AllNested(hs)
  {
  }

  /** Cutting the view to the announced length keeps every header nested in it. */
  lemma InnerKeeps(h: Tl, tail: seq<Tl>, s: seq<Octet>)
    requires h.Valid() && tail != [] && (forall k :: 0 <= k < |tail| ==> tail[k].Valid())
    requires h.id + h.len + Bytes(tail) <= s
    requires h.Length() != INDEFINITE ==> AllNested(tail) && h.Length() == tail[0].Size() + tail[0].Length()
    ensures Bytes(tail) <= Inner(s, Header(h.Size(), h.Length(), IsConstructed(h.id[0])))
  {
    hide FetchedHeader, Bytes;
    var b := Bytes(tail);
    PrefixDropped(h.id + h.len, b, s);
    if h.Length() != INDEFINITE {
      NestedFits(tail);
      PrefixTaken(b, s[h.Size()..], h.Length());
    }
  }

  lemma PrefixDropped(a: seq<Octet>, b: seq<Octet>, s: seq<Octet>)
    requires a + b <= s
    ensures b <= s[|a|..]
  {
    assert b == (a + b)[|a|..];
  }

  lemma PrefixTaken(b: seq<Octet>, s: seq<Octet>, n: nat)
    requires b <= s && |b| <= n
    ensures n < |s| ==> b <= s[..n]
  {
  }

  lemma {:induction false} AcceptedIsChain(
      e: Expected, s: seq<Octet>, step: nat, limit: int, nulls: nat, consumed: nat) returns (hs: seq<Tl>)
    requires e.TagNo(step) < |e.tags|
    requires CheckedChain(e, s, step, limit, nulls, consumed).Accepted?
    ensures IsChain(e, hs, step) && Bytes(hs) <= s && Admits(hs[0], limit, nulls)
    ensures CheckedChain(e, s, step, limit, nulls, consumed) == Accepting(hs, step, nulls, consumed)
    decreases |e.tags| - e.TagNo(step)
  {
    hide FetchedHeader, IsChain, Accepting, Inner, Bytes;
    var h := HeaderIsTl(e, s, step);
    ChainTurn(e, h, s, step, limit, nulls, consumed);
    if e.TagNo(step) + 1 == |e.tags| {
      hs := [h];
      LastLink(e, h, step, nulls, consumed);
    } else {
      var view := Inner(s, Header(h.Size(), h.Length(), IsConstructed(h.id[0])));
      var tail := AcceptedIsChain(e, view, step + 1, h.Length(), Nulls(h, nulls), consumed + h.Size());
      ChainHead(e, tail, step + 1);
      ChainSplit(e, h, tail, step, limit, nulls, consumed);
      hs := [h] + tail;
      BytesCons(h, tail);
      InnerOpens(h.id + h.len, Bytes(tail), s, Header(h.Size(), h.Length(), IsConstructed(h.id[0])));
    }
  }

  lemma InnerOpens(a: seq<Octet>, b: seq<Octet>, s: seq<Octet>, h: Header)
    requires a <= s && h.size == |a| && h.length >= -1 && b <= Inner(s, h)
    ensures a + b <= s
  {
    assert b <= s[|a|..];
    assert s == a + s[|a|..];
  }

  lemma LastLink(e: Expected, h: Tl, step: nat, nulls: nat, consumed: nat)
    requires h.Fits(e, step) && e.TagNo(step) + 1 == |e.tags| && (h.Length() != INDEFINITE ==> nulls == 0)
    ensures IsChain(e, [h], step) && Bytes([h]) == h.id + h.len
    ensures Accepting([h], step, nulls, consumed)
         == Accepted(consumed + h.Size(), step + 1, LastLength(Nulls(h, nulls), h.Length()), IsConstructed(h.id[0]))
  {
    BytesCons(h, []);
    assert [h] + [] == [h];
  }

  /** ber_check_tags accepts a chain of tags exactly when it is one, and consumes exactly its headers. */
  lemma CheckTagsExact(e: Expected, s: seq<Octet>, step: nat, r: Checked)
    requires e.TagNo(step) < |e.tags| && r.Accepted?
    ensures CheckedTags(e, s, step) == r
       <==> exists hs :: IsChain(e, hs, step) && Bytes(hs) <= s && r == Accepting(hs, step, 0, 0)
  {
    if CheckedTags(e, s, step) == r {
      var hs := AcceptedIsChain(e, s, step, -1, 0, 0);
    }
    forall hs | IsChain(e, hs, step) && Bytes(hs) <= s && r == Accepting(hs, step, 0, 0)
      ensures CheckedTags(e, s, step) == r
    {
      ChainAccepted(e, hs, s, step, -1, 0, 0);
    }
  }

  /**
   * What makes a chain, on the octets: the tags are those of the descriptor, but for the first one under a tag mode;
   * bit 6 is set in every outer header, and in the last one as it is asked for, if it is.
   */
  lemma ChainSpelled(e: Expected, hs: seq<Tl>, step: nat)
    ensures IsChain(e, hs, step) <==>
      (&& hs != [] && step + |hs| == |e.tags| + (if e.tagMode == 1 then 1 else 0)
       && (forall k :: 0 <= k < |hs| ==> hs[k].Valid())
       && (forall k :: 0 <= k < |hs| && (e.tagMode == 0 || step + k > 0) ==>
             var n := if e.tagMode == 1 then step + k - 1 else step + k;
             0 <= n < |e.tags| && TagOf(hs[k].id) == e.tags[n])
       && (forall k :: 0 <= k < |hs| - 1 ==> hs[k].id[0] / 32 % 2 == 1)
       && (e.lastForm == -1 || hs[|hs| - 1].id[0] / 32 % 2 == e.lastForm)
       && ((forall k :: 0 <= k < |hs| ==> hs[k].Length() == -1)
           || ((forall k :: 0 <= k < |hs| ==> hs[k].Length() >= 0)
               && (forall k :: 0 < k < |hs| ==>
                     hs[k - 1].Length() == |hs[k].id| + |hs[k].len| + hs[k].Length()))))
  {
    hide IsIdentifier, IsLength, TagOf, LengthOf;
    if hs != [] && step + |hs| == |e.tags| + (if e.tagMode == 1 then 1 else 0) {
      FitsSpelled(e, hs, step);
    }
  }

  lemma FitsSpelled(e: Expected, hs: seq<Tl>, step: nat)
    requires hs != [] && step + |hs| == |e.tags| + (if e.tagMode == 1 then 1 else 0)
    ensures AllFit(e, hs, step) <==>
      (&& (forall k :: 0 <= k < |hs| ==> hs[k].Valid())
       && (forall k :: 0 <= k < |hs| && (e.tagMode == 0 || step + k > 0) ==>
             var n := if e.tagMode == 1 then step + k - 1 else step + k;
             0 <= n < |e.tags| && TagOf(hs[k].id) == e.tags[n])
       && (forall k :: 0 <= k < |hs| - 1 ==> hs[k].id[0] / 32 % 2 == 1)
       && (e.lastForm == -1 || hs[|hs| - 1].id[0] / 32 % 2 == e.lastForm))
  {
    hide IsIdentifier, IsLength, TagOf;
    if AllFit(e, hs, step) {
      assert hs[|hs| - 1].Fits(e, step + |hs| - 1);
    }
  }

  /** `02 01 05` is an INTEGER asked for in primitive form, and `30 00` a SEQUENCE in constructed form; not otherwise. */
  lemma FormExamples()
    ensures CheckedTags(Expected([8], 0, 0, true), [2, 1, 5], 0) == Accepted(2, 1, 1, false)
    ensures CheckedTags(Expected([8], 0, 1, true), [2, 1, 5], 0) == Refused(0, 0)
    ensures CheckedTags(Expected([64], 0, 1, true), [0x30, 0], 0) == Accepted(2, 1, 0, true)
    ensures CheckedTags(Expected([64], 0, 0, true), [0x30, 0], 0) == Refused(0, 0)
  {
    assert FetchedTag([2, 1, 5]) == Got(8, 1) && [2, 1, 5][1..] == [1, 5];
    assert FetchedTag([0x30, 0]) == Got(64, 1) && [0x30, 0][1..] == [0];
  }

  /** An untagged ANY takes any header, and reports it. */
  lemma AnyExact(e: Expected, s: seq<Octet>)
    requires e.tagMode == 0
    ensures e.Callable(|e.tags|)
    ensures CheckedTags(e, s, |e.tags|) == match HeaderIn(s)
      case More => Starved(0, |e.tags|)
      case Bad => Refused(0, |e.tags|)
      case Got((_, len), size) => Accepted(size, |e.tags|, len, IsConstructed(s[0]))
  {
    hide FetchedTag, FetchedLength;
  }

  /** An explicit tag of indefinite length passed. */
  lemma IndefiniteTag(e: Expected, rest: seq<Octet>)
    requires e.tags == [2, 16] && e.tagMode == 0 && e.lastForm == -1
    ensures CheckedTags(e, [0xA0, 0x80] + rest, 0) == CheckedChain(e, rest, 1, -1, 1, 2)
  {
    hide FetchedHeader;
    var h := Tl([0xA0], [0x80]);
    assert h.Fits(e, 0) && h.Length() == INDEFINITE;
    assert h.id + h.len + rest == [0xA0, 0x80] + rest;
    HeaderRead(e, h, rest, 0);
    assert ([0xA0, 0x80] + rest)[2..] == rest;
  }

  /** What comes behind it: another one, another tag, nothing. */
  lemma BehindTag(e: Expected)
    requires e.tags == [2, 16] && e.tagMode == 0 && e.lastForm == -1
    ensures CheckedChain(e, [0x24, 0x80], 1, -1, 1, 2) == Accepted(4, 2, -2, true)
    ensures CheckedChain(e, [5], 1, -1, 1, 2) == e.Refuse(2, 1) && CheckedChain(e, [], 1, -1, 1, 2) == e.Starve(2, 1)
  {
    var h := Tl([0x24], [0x80]);
    assert h.Fits(e, 1) && h.Length() == INDEFINITE;
    assert h.id + h.len + [] == [0x24, 0x80];
    HeaderRead(e, h, [], 1);
    assert FetchedTag([5]) == Got(20, 1);
  }

  /** Two explicit tags of indefinite length; and what is told with and without a context to tell it from. */
  lemma NullsExamples()
    ensures CheckedTags(Expected([2, 16], 0, -1, true), [0xA0, 0x80] + [0x24, 0x80], 0) == Accepted(4, 2, -2, true)
    ensures CheckedTags(Expected([2, 16], 0, -1, true), [0xA0, 0x80] + [5], 0) == Refused(2, 1)
    ensures CheckedTags(Expected([2, 16], 0, -1, false), [0xA0, 0x80] + [5], 0) == Refused(0, 1)
    ensures CheckedTags(Expected([2, 16], 0, -1, true), [0xA0, 0x80] + [], 0) == Starved(2, 1)
    ensures CheckedTags(Expected([2, 16], 0, -1, false), [0xA0, 0x80] + [], 0) == Starved(0, 1)
  {
    hide CheckedChain, CheckedTags;
    var two, blind := Expected([2, 16], 0, -1, true), Expected([2, 16], 0, -1, false);
    BehindTag(two);
    BehindTag(blind);
    IndefiniteTag(two, [0x24, 0x80]);
    IndefiniteTag(two, [5]);
    IndefiniteTag(two, []);
    IndefiniteTag(blind, [5]);
    IndefiniteTag(blind, []);
  }

  /** One more tag in front under tag mode 1, another one in place of the first under -1. */
  lemma ModeExamples()
    ensures CheckedTags(Expected([16], 1, -1, true), [0x24, 3, 4, 1, 7], 0) == Accepted(4, 2, 1, false)
    ensures CheckedTags(Expected([16], -1, -1, true), [0x82, 1, 7], 0) == Accepted(2, 1, 1, false)
  {
    FrontExample();
    PlaceExample();
  }

  lemma FrontExample()
    ensures CheckedTags(Expected([16], 1, -1, true), [0x24, 3, 4, 1, 7], 0) == Accepted(4, 2, 1, false)
  {
    hide FetchedHeader, CheckedChain;
    var e, s := Expected([16], 1, -1, true), [0x24, 3, 4, 1, 7];
    var front, last := Tl([0x24], [3]), Tl([4], [1]);
    assert front.Length() == 3 && last.Length() == 1;
    assert s == [0x24, 3] + [4, 1, 7] && [4, 1, 7] == [4, 1] + [7];
    ChainTurn(e, front, s, 0, -1, 0, 0);
    assert Inner(s, Header(2, 3, true)) == [4, 1, 7];
    ChainTurn(e, last, [4, 1, 7], 1, 3, 0, 2);
  }

  lemma PlaceExample()
    ensures CheckedTags(Expected([16], -1, -1, true), [0x82, 1, 7], 0) == Accepted(2, 1, 1, false)
  {
    hide FetchedHeader, CheckedChain;
    var e, other := Expected([16], -1, -1, true), Tl([0x82], [1]);
    assert other.Length() == 1 && [0x82, 1, 7] == [0x82, 1] + [7];
    ChainTurn(e, other, [0x82, 1, 7], 0, -1, 0, 0);
  }
}
