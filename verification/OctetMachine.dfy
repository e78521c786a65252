/** What OCTET_STRING_decode_ber computes (OCTET_STRING.c): a resumable machine with a stack of expectations. */
module OctetMachine {
  import opened Octets
  import opened Words
  import opened BerTag
  import opened BerLength
  import opened BerDecoder

  /** `struct _stack_el`; its cont_level is the position in the stack. want_nulls is only ever 0 or 1. */
  datatype Frame = Frame(left: int, got: nat, wantNulls: bool)

  /** ctx->phase, 0 to 4. */
  datatype Phase = CheckingTags | Expecting | Filling | Primitive | Finished

  /** The octets so far, and what the context carries from one call to the next. */
  datatype Config = Config(phase: Phase, left: int, stack: seq<Frame>, buf: seq<Octet>)
  {
    predicate Valid() {
      && (forall i :: 0 <= i < |stack| ==> stack[i].left >= -1 && (stack[i].left == -1 ==> stack[i].wantNulls))
      && (phase == Filling ==> |stack| > 0 && Top().left >= 0)
      && (phase == Primitive ==> left >= 0)
    }

    function Top(): Frame
      requires |stack| > 0
    {
      stack[|stack| - 1]
    }

    function WithTop(f: Frame): Config
      requires |stack| > 0
    {
      this.(stack := stack[..|stack| - 1] + [f])
    }
  }

  const INITIAL := Config(CheckingTags, 0, [], [])

  /**
   * asn_TYPE_descriptor_t as far as the decoder looks: one outermost tag, and all_tags; with the tag_mode of the call,
   * -1 if another tag stands implicitly in place of the outermost one, or else 0.
   */
  datatype Descriptor = Descriptor(tag: nat, allTags: seq<nat>, implicit: bool)
  {
    function Expects(): Expected {
      Expected([tag], if implicit then -1 else 0, -1, true)
    }

    /** Whether the outermost TLV may have this tag. */
    predicate Takes(t: nat) {
      implicit || t == tag
    }

    /** Whether a TLV with this tag may stand inside the frame at a level. */
    predicate AllowsAt(level: nat, t: nat) {
      |allTags| == 0 || t == allTags[Min(level, |allTags| - 1)]
    }
  }

  datatype Code = RC_OK | RC_WMORE | RC_FAIL

  /** One step: octets consumed and the next configuration, or the end of the call. */
  datatype Move = Go(n: nat, next: Config) | Stop(code: Code, n: nat, next: Config)

  datatype Outcome = Outcome(code: Code, consumed: nat, config: Config)

  /** APPEND refuses what overflows an `int` size, or an `int` power of two above it. */
  predicate AppendFits(size: nat) {
    AsInt32(size) >= 0 && !(0x4000_0000 <= size < 0x8000_0000)
  }

  /** How much of the input the current frame lets the decoder look at. */
  function Visible(c: Config, s: seq<Octet>): seq<Octet>
    requires c.Valid()
  {
    if |c.stack| == 0 || c.Top().left == -1 || c.Top().left >= |s| then s else s[..c.Top().left]
  }

  /** The frame on top has nothing to wait for: hand what it got to its parent. */
  function Popped(c: Config): Move
    requires c.Valid() && |c.stack| > 0
  {
    var k := |c.stack|;
    if k == 1 then
      Go(0, c.(phase := Finished, stack := []))
    else
      var prev, top := c.stack[k - 2], c.Top();
      if prev.left != -1 && prev.left < top.got then
        Stop(RC_FAIL, 0, c)
      else
        var left := if prev.left == -1 then -1 else prev.left - top.got;
        Go(0, c.(stack := c.stack[..k - 2] + [Frame(left, prev.got + top.got, prev.wantNulls)]))
  }

  /** The frame for a TLV of this length behind a header, unless its parent frame is too small. */
  function Pushed(c: Config, header: nat, len: int): (f: Fetch<Frame>)
    requires c.Valid() && len >= -1
    ensures !f.More? && (f.Got? ==> f.used == header)
    ensures f.Got? ==> f.value.left >= -1 && (f.value.left == -1 ==> f.value.wantNulls)
    ensures f.Got? && len >= 0 ==> f.value == Frame(len, header, false)
  {
    if |c.stack| > 0 && c.Top().left != -1 then
      if c.Top().left < header + Max(len, 0) then Bad
      else Got(Frame(if len == INDEFINITE then c.Top().left - header else len, header, len == INDEFINITE), header)
    else
      Got(Frame(len, header, len == INDEFINITE), header)
  }

  /** What a header in view leads to: the end of the contents, a new frame, or a failure. */
  function Entered(d: Descriptor, c: Config, view: seq<Octet>, tag: nat, header: nat, len: int): Move
    requires c.Valid() && |view| >= 2 && len >= -1
  {
    if |c.stack| > 0 && c.Top().wantNulls && view[0] == 0 && view[1] == 0 then
      Go(2, c.WithTop(Frame(0, c.Top().got + 2, false)))
    else if |c.stack| > 0 && !d.AllowsAt(|c.stack| - 1, tag) then
      Stop(RC_FAIL, 0, c)
    else
      match Pushed(c, header, len)
      case Bad => Stop(RC_FAIL, 0, c)
      case Got(f, n) =>
        Go(n, c.(phase := if IsConstructed(view[0]) then Expecting else Filling, stack := c.stack + [f]))
  }

  function Expect(d: Descriptor, c: Config, s: seq<Octet>): Move
    requires c.Valid() && c.phase == Expecting
  {
    if |c.stack| > 0 && c.Top().left <= 0 && !c.Top().wantNulls then Popped(c) else
    var view := Visible(c, s);
    match HeaderIn(view)
    case More => Stop(RC_WMORE, 0, c)
    case Bad => Stop(RC_FAIL, 0, c)
    case Got((tag, len), header) => Entered(d, c, view, tag, header, len)
  }

  function Fill(c: Config, s: seq<Octet>): Move
    requires c.Valid() && c.phase == Filling
  {
    var top := c.Top();
    var len := Min(|s|, top.left);
    if len > 0 && !AppendFits(|c.buf| + len) then
      Stop(RC_FAIL, 0, c)
    else
      var next := c.WithTop(Frame(top.left - len, top.got + len, top.wantNulls)).(buf := c.buf + s[..len]);
      if top.left > len then Stop(RC_WMORE, len, next) else Go(len, next.(phase := Expecting))
  }

  function FillPrimitive(c: Config, s: seq<Octet>): Move
    requires c.Valid() && c.phase == Primitive
  {
    var len := Min(|s|, c.left);
    if |s| == 0 && c.left > 0 then
      Stop(RC_WMORE, 0, c)
    else if !AppendFits(|c.buf| + len) then
      Stop(RC_FAIL, 0, c)
    else
      var next := c.(left := c.left - len, buf := c.buf + s[..len]);
      if c.left > len then Stop(RC_WMORE, len, next) else Go(len, next.(phase := Finished))
  }

  function CheckFirst(d: Descriptor, c: Config, s: seq<Octet>): Move
    requires c.Valid() && c.phase == CheckingTags
  {
    match CheckedTags(d.Expects(), s, 0)
    case Starved(n, _) => Stop(RC_WMORE, n, c)
    case Refused(n, _) => Stop(RC_FAIL, n, c)
    case Accepted(n, _, len, constructed) =>
      if constructed then Go(0, c.(phase := Expecting, left := len, stack := []))
      else Go(n, c.(phase := Primitive, left := len))
  }

  function Moved(d: Descriptor, c: Config, s: seq<Octet>): Move
    requires c.Valid()
  {
    match c.phase
    case CheckingTags => CheckFirst(d, c, s)
    case Expecting => Expect(d, c, s)
    case Filling => Fill(c, s)
    case Primitive => FillPrimitive(c, s)
    case Finished => Stop(RC_OK, 0, c)
  }

  function Rank(p: Phase): nat {
    match p
    case CheckingTags => 4
    case Primitive => 3
    case Filling => 2
    case Expecting => 1
    case Finished => 0
  }

  /** A single tag: one header, checked. */
  lemma CheckedSingle(d: Descriptor, s: seq<Octet>)
    ensures CheckedTags(d.Expects(), s, 0) ==
      match FetchedTag(s)
      case More => Starved(0, 0)
      case Bad => Refused(0, 0)
      case Got(tag, tl) =>
        (FetchedIsIdentifier(s);
         if !d.Takes(tag) then Refused(0, 0) else
         match FetchedLength(IsConstructed(s[0]), s[tl..])
         case More => Starved(0, 0)
         case Bad => Refused(0, 0)
         case Got(len, ll) => Accepted(tl + ll, 1, len, IsConstructed(s[0])))
  {
    var e := d.Expects();
    assert !e.IsAny(0) && e.TagNo(0) + 1 == |e.tags|;
  }

  lemma CheckFirstBounds(d: Descriptor, c: Config, s: seq<Octet>)
    requires c.Valid() && c.phase == CheckingTags
    ensures var m := CheckFirst(d, c, s); m.n <= |s| && m.next.Valid()
    ensures CheckFirst(d, c, s).Stop? ==> CheckFirst(d, c, s).n == 0 && CheckFirst(d, c, s).next == c
    ensures CheckFirst(d, c, s).Go? ==> CheckFirst(d, c, s).next.phase in {Expecting, Primitive}
  {
    hide CheckedTags, FetchedTag, FetchedLength, RunEnd;
    CheckedSingle(d, s);
    if FetchedTag(s).Got? {
      FetchedIsIdentifier(s);
      var tl := FetchedTag(s).used;
      if FetchedLength(IsConstructed(s[0]), s[tl..]).Got? {
        FetchedIsLength(IsConstructed(s[0]), s[tl..]);
        LengthForm(IsConstructed(s[0]), s[tl..]);
      }
    }
  }

  lemma ExpectBounds(d: Descriptor, c: Config, s: seq<Octet>)
    requires c.Valid() && c.phase == Expecting
    ensures var m := Expect(d, c, s);
            && m.n <= |s| && m.next.Valid()
            && (m.Stop? ==> m.n == 0 && m.next == c && m.code != RC_OK)
            && (m.Go? && m.n == 0 ==> Rank(m.next.phase) <= Rank(Expecting) && |m.next.stack| < |c.stack|)
  {
    hide HeaderIn;
    assert |Visible(c, s)| <= |s|;
  }

  /** Steps stay within the input and the invariant, and make progress. */
  lemma MovedBounds(d: Descriptor, c: Config, s: seq<Octet>)
    requires c.Valid()
    ensures var m := Moved(d, c, s);
            && m.n <= |s| && m.next.Valid()
            && |m.next.buf| <= |c.buf| + m.n
            && (m.Go? && m.n == 0 ==>
                  Rank(m.next.phase) < Rank(c.phase)
                  || (m.next.phase == c.phase && |m.next.stack| < |c.stack|))
  {
    hide CheckFirst, Expect;
    match c.phase
    case CheckingTags => CheckFirstBounds(d, c, s); CheckFirstKeeps(d, c, s);
    case Expecting => ExpectBounds(d, c, s); ExpectKeeps(d, c, s);
    case Filling =>
    case Primitive =>
    case Finished =>
  }

  lemma CheckFirstKeeps(d: Descriptor, c: Config, s: seq<Octet>)
    requires c.Valid() && c.phase == CheckingTags
    ensures CheckFirst(d, c, s).next.buf == c.buf
  {
  }

  lemma ExpectKeeps(d: Descriptor, c: Config, s: seq<Octet>)
    requires c.Valid() && c.phase == Expecting
    ensures Expect(d, c, s).next.buf == c.buf
    ensures Expect(d, c, s).next.phase in {Expecting, Filling, Finished}
  {
    hide HeaderIn;
  }

  function Later(n: nat, r: Outcome): Outcome {
    r.(consumed := n + r.consumed)
  }

  /** A call of the decoder: steps until it stops. */
  function Run(d: Descriptor, c: Config, s: seq<Octet>): (r: Outcome)
    requires c.Valid()
    ensures r.consumed <= |s| && r.config.Valid()
    ensures |r.config.buf| <= |c.buf| + r.consumed
    decreases |s|, Rank(c.phase), |c.stack|
  {
    MovedBounds(d, c, s);
    match Moved(d, c, s)
    case Stop(code, n, next) => Outcome(code, n, next)
    case Go(n, next) => Later(n, Run(d, next, s[n..]))
  }

  lemma RunMoves(d: Descriptor, c: Config, s: seq<Octet>)
    requires c.Valid()
    ensures var m := Moved(d, c, s);
            && m.n <= |s| && m.next.Valid()
            && Run(d, c, s) == if m.Stop? then Outcome(m.code, m.n, m.next) else Later(m.n, Run(d, m.next, s[m.n..]))
  {
    hide Moved;
    MovedBounds(d, c, s);
  }

  lemma RunGoes(d: Descriptor, c: Config, s: seq<Octet>, n: nat, next: Config, rest: seq<Octet>)
    requires c.Valid() && Moved(d, c, s) == Go(n, next) && n <= |s| && s[n..] == rest
    ensures next.Valid() && Run(d, c, s) == Later(n, Run(d, next, rest))
  {
    hide Moved;
    MovedBounds(d, c, s);
  }

  /** Which tags may stand inside a frame: any if all_tags has none, else the one at its level or, deeper, the last one. */
  lemma AllowsExact(d: Descriptor, level: nat, t: nat)
    ensures d.AllowsAt(level, t) <==>
      || d.allTags == []
      || (level < |d.allTags| && d.allTags[level] == t)
      || (0 < |d.allTags| <= level && d.allTags[|d.allTags| - 1] == t)
  {
  }
}
