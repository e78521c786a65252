/** Skipping over a TLV: ber_skip_length of ber_tlv_length.c. */
module BerSkip {
  import opened Octets
  import opened BerTag
  import opened BerLength
  import opened BerTree

  function Shifted(n: nat, r: Fetch<()>): Fetch<()> {
    if r.Got? then Got((), n + r.used) else r
  }

  /** What ber_skip_length reports of a buffer positioned over L: the size of L and V together. */
  function SkippedLength(constructed: bool, s: seq<Octet>): (r: Fetch<()>)
    ensures r.Got? ==> 0 < r.used <= |s|
    decreases |s|, 2
  {
    match FetchedLength(constructed, s)
    case More => More
    case Bad => Bad
    case Got(vlen, ll) =>
      if vlen >= 0 then
        if ll + vlen > |s| then More else Got((), ll + vlen)
      else
        Shifted(ll, SkippedContents(s[ll..]))
  }

  /** One TLV within the indefinite form; the value tells whether it was the end-of-contents octets. */
  function SkippedItem(c: seq<Octet>): (r: Fetch<bool>)
    ensures r.Got? ==> 2 <= r.used <= |c|
    decreases |c|, 0
  {
    match FetchedTag(c)
    case More => More
    case Bad => Bad
    case Got(_, tl) =>
      FetchedIsIdentifier(c);
      match SkippedLength(IsConstructed(c[0]), c[tl..])
      case More => More
      case Bad => Bad
      case Got(_, ll) => Got(OpensWithZeros(c), tl + ll)
  }

  /** What it reports of the contents of the indefinite form, through the end-of-contents octets. */
  function SkippedContents(c: seq<Octet>): (r: Fetch<()>)
    ensures r.Got? ==> 2 <= r.used <= |c|
    decreases |c|, 1
  {
    match SkippedItem(c)
    case More => More
    case Bad => Bad
    case Got(last, n) => if last then Got((), n) else Shifted(n, SkippedContents(c[n..]))
  }

  method SkipLength(constructed: bool, s: seq<Octet>) returns (r: Fetch<()>)
    ensures r == SkippedLength(constructed, s)
    decreases |s|, 1
  {
    var l := FetchLength(constructed, s);
    match l
    case More => return More;
    case Bad => return Bad;
    case Got(vlen, used) =>
      if vlen >= 0 {
        return if used + vlen > |s| then More else Got((), used + vlen);
      }
      var skip := used;
      while true
        invariant 0 < skip <= |s|
        invariant SkippedLength(constructed, s) == Shifted(skip, SkippedContents(s[skip..]))
        decreases |s| - skip
      {
        ghost var c := s[skip..];
        var item := SkipItem(s[skip..]);
        match item
        case More => return More;
        case Bad => return Bad;
        case Got(last, n) =>
          skip := skip + n;
          if last {
            return Got((), skip);
          }
          assert s[skip..] == c[n..];
      }
  }

  /** The body of the loop of ber_skip_length. */
  method SkipItem(c: seq<Octet>) returns (r: Fetch<bool>)
    ensures r == SkippedItem(c)
    decreases |c|, 0
  {
    var tag := FetchTag(c);
    match tag
    case More => return More;
    case Bad => return Bad;
    case Got(_, tl) =>
      FetchedIsIdentifier(c);
      var body := SkipLength(IsConstructed(c[0]), c[tl..]);
      match body
      case More => return More;
      case Bad => return Bad;
      case Got(_, ll) => return Got(c[0] == 0 && c[1] == 0, tl + ll);
  }

  /** A size, or an error, once reported stays so when octets arrive behind. */
  lemma {:induction false} SkipStable(constructed: bool, s: seq<Octet>, t: seq<Octet>)
    requires !SkippedLength(constructed, s).More?
    ensures SkippedLength(constructed, s + t) == SkippedLength(constructed, s)
    decreases |s|, 2
  {
    var l := FetchedLength(constructed, s);
    FetchLengthStable(constructed, s, t);
    if l.Got? && l.value < 0 {
      assert (s + t)[l.used..] == s[l.used..] + t;
      SkipContentsStable(s[l.used..], t);
    }
  }

  lemma {:induction false} SkipItemStable(c: seq<Octet>, t: seq<Octet>)
    requires !SkippedItem(c).More?
    ensures SkippedItem(c + t) == SkippedItem(c)
    decreases |c|, 0
  {
    var tag := FetchedTag(c);
    FetchTagStable(c, t);
    if tag.Got? {
      FetchedIsIdentifier(c);
      assert (c + t)[tag.used..] == c[tag.used..] + t;
      SkipStable(IsConstructed(c[0]), c[tag.used..], t);
    }
  }

  lemma {:induction false} SkipContentsStable(c: seq<Octet>, t: seq<Octet>)
    requires !SkippedContents(c).More?
    ensures SkippedContents(c + t) == SkippedContents(c)
    decreases |c|, 1
  {
    var item := SkippedItem(c);
    SkipItemStable(c, t);
    if item.Got? && !item.value {
      assert (c + t)[item.used..] == c[item.used..] + t;
      SkipContentsStable(c[item.used..], t);
    }
  }

  /** Every well-formed tree is skipped exactly, whatever follows it. */
  lemma {:induction false} SkipTree(t: Tlv, rest: seq<Octet>)
    requires WellFormed(t)
    ensures SkippedLength(IsConstructed(t.id[0]), Body(t) + rest) == Got((), |Body(t)|)
    decreases t, 1
  {
    match t
    case Leaf(id, len, content) =>
      FetchReadsLength(IsConstructed(id[0]), len, content + rest);
      assert Body(t) + rest == len + (content + rest);
    case Definite(id, len, items) =>
      FetchReadsLength(IsConstructed(id[0]), len, EncodeAll(items) + rest);
      assert Body(t) + rest == len + (EncodeAll(items) + rest);
    case Indefinite(id, items) =>
      var c := EncodeAll(items) + END_OF_CONTENTS + rest;
      FetchReadsLength(true, INDEFINITE_LENGTH, c);
      assert Body(t) + rest == INDEFINITE_LENGTH + c;
      SkipItems(items, rest);
  }

  lemma {:induction false} SkipItems(items: seq<Tlv>, rest: seq<Octet>)
    requires AllWellFormed(items) && NoneIsEndOfContents(items)
    ensures SkippedContents(EncodeAll(items) + END_OF_CONTENTS + rest) == Got((), |EncodeAll(items)| + 2)
    decreases items, 0
  {
    if items == [] {
      SkipEndOfContents(rest);
      assert EncodeAll(items) + END_OF_CONTENTS + rest == END_OF_CONTENTS + rest;
    } else {
      var t, more := items[0], EncodeAll(items[1..]);
      var tail := more + END_OF_CONTENTS + rest;
      SkipTree(t, tail);
      SkipOneItem(t, tail);
      SkipItems(items[1..], rest);
      assert Encode(t) + more + END_OF_CONTENTS + rest == Encode(t) + tail;
    }
  }

  lemma SkipEndOfContents(rest: seq<Octet>)
    ensures SkippedContents(END_OF_CONTENTS + rest) == Got((), 2)
  {
    EndOfContentsItem(END_OF_CONTENTS + rest);
  }

  lemma EndOfContentsItem(c: seq<Octet>)
    requires OpensWithZeros(c)
    ensures SkippedItem(c) == Got(true, 2) && c[..2] == END_OF_CONTENTS
  {
    assert FetchedTag(c) == Got(0, 1);
    assert c[1..][0] == 0;
  }

  lemma SkipOneItem(t: Tlv, tail: seq<Octet>)
    requires IsIdentifier(t.id)
    requires SkippedLength(IsConstructed(t.id[0]), Body(t) + tail) == Got((), |Body(t)|)
    ensures SkippedItem(Encode(t) + tail) == Got(OpensWithZeros(Encode(t)), |Encode(t)|)
  {
    var c := Encode(t) + tail;
    assert c == t.id + (Body(t) + tail);
    FetchReadsIdentifier(t.id, Body(t) + tail);
    assert c[|t.id|..] == Body(t) + tail;
  }

  /** Conversely, whatever is skipped is the L and V of a well-formed tree. */
  lemma {:induction false} SkippedIsTree(id: seq<Octet>, s: seq<Octet>) returns (t: Tlv)
    requires IsIdentifier(id)
    requires SkippedLength(IsConstructed(id[0]), s).Got?
    ensures WellFormed(t) && t.id == id
    ensures Body(t) == s[..SkippedLength(IsConstructed(id[0]), s).used]
    decreases |s|, 2
  {
    var constructed := IsConstructed(id[0]);
    var l := FetchedLength(constructed, s);
    FetchedIsLength(constructed, s);
    if l.value >= 0 {
      t := Leaf(id, s[..l.used], s[l.used..l.used + l.value]);
    } else {
      var items := SkippedIsItems(s[l.used..]);
      t := Indefinite(id, items);
      assert s[..1] == INDEFINITE_LENGTH;
      Joined(s, 1, SkippedContents(s[1..]).used);
    }
  }

  lemma {:induction false} SkippedItemIsTree(c: seq<Octet>) returns (t: Tlv)
    requires SkippedItem(c).Got?
    ensures WellFormed(t) && Encode(t) == c[..SkippedItem(c).used]
    decreases |c|, 0
  {
    var tl := FetchedTag(c).used;
    FetchedIsIdentifier(c);
    t := SkippedIsTree(c[..tl], c[tl..]);
    Joined(c, tl, |Body(t)|);
  }

  lemma {:induction false} SkippedIsItems(c: seq<Octet>) returns (items: seq<Tlv>)
    requires SkippedContents(c).Got?
    ensures AllWellFormed(items) && NoneIsEndOfContents(items)
    ensures EncodeAll(items) + END_OF_CONTENTS == c[..SkippedContents(c).used]
    decreases |c|, 1
  {
    var n := SkippedItem(c).used;
    if SkippedItem(c).value {
      items := [];
      EndOfContentsItem(c);
      assert EncodeAll(items) + END_OF_CONTENTS == END_OF_CONTENTS;
    } else {
      var t := SkippedItemIsTree(c);
      var tail := SkippedIsItems(c[n..]);
      items := [t] + tail;
      Consed(t, tail);
      Joined(c, n, SkippedContents(c[n..]).used);
      assert EncodeAll(items) + END_OF_CONTENTS == Encode(t) + (EncodeAll(tail) + END_OF_CONTENTS);
    }
  }

  lemma Joined(c: seq<Octet>, m: nat, n: nat)
    requires m + n <= |c|
    ensures c[..m] + c[m..][..n] == c[..m + n]
  {
  }

  /** The tree t, behind its identifier octets, opens s and is n octets long. */
  predicate Opens(t: Tlv, id: seq<Octet>, s: seq<Octet>, n: nat) {
    WellFormed(t) && t.id == id && n <= |s| && Body(t) == s[..n]
  }

  /** ber_skip_length succeeds exactly on the trees, and with exactly their size. */
  lemma SkipExact(id: seq<Octet>, s: seq<Octet>, n: nat)
    requires IsIdentifier(id)
    ensures SkippedLength(IsConstructed(id[0]), s) == Got((), n) <==> exists t :: Opens(t, id, s, n)
  {
    if SkippedLength(IsConstructed(id[0]), s) == Got((), n) {
      var t := SkippedIsTree(id, s);
      assert Opens(t, id, s, n);
    }
    forall t | Opens(t, id, s, n)
      ensures SkippedLength(IsConstructed(id[0]), s) == Got((), n)
    {
      SkipTree(t, s[n..]);
      assert s[..n] + s[n..] == s;
    }
  }

  /** An indefinite length with one segment inside, and a definite one. */
  lemma SkipExamples()
    ensures SkippedLength(true, [0x80, 4, 1, 7, 0, 0]) == Got((), 6)
    ensures SkippedLength(false, [2, 7, 7, 7]) == Got((), 3) && SkippedLength(false, [2, 7]) == More
  {
    var leaf := Leaf([4], [1], [7]);
    var t := Indefinite([0x24], [leaf]);
    assert Radix256([2], 1, 1) == 0;
    assert EncodeAll([]) == [] && EncodeAll([leaf]) == [4, 1, 7];
    assert Body(t) == [0x80, 4, 1, 7, 0, 0];
    SkipTree(t, []);
    assert Body(t) + [] == Body(t);
  }
}
