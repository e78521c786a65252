/** OCTET_STRING_decode_ber as it runs: an octet string with its parsing context, changed in place. */
module OctetString {
  import opened Octets
  import opened Words
  import opened BerTag
  import opened BerLength
  import opened BerDecoder
  import opened OctetMachine
  import opened BerTree
  import opened OctetFragments
  import opened OctetTrees

  /** `struct _stack_el`, linked to its neighbours by its position. */
  datatype Element = Element(left: int, got: nat, contLevel: nat, wantNulls: nat, tag: nat)

  function Abstract(els: seq<Element>): (fs: seq<Frame>)
    ensures |fs| == |els|
  {
    seq(|els|, i requires 0 <= i < |els| => Frame(els[i].left, els[i].got, els[i].wantNulls > 0))
  }

  /** 16 doubled any number of times: what APPEND allocates. */
  predicate IsCapacity(n: nat) {
    n == 16 || (n > 16 && n % 2 == 0 && IsCapacity(n / 2))
  }

  /** Capacities lie at least a factor of two apart. */
  lemma {:induction false} CapacityGap(n: nat, p: nat)
    requires IsCapacity(n) && IsCapacity(p)
    ensures n <= p || n >= 2 * p
    decreases n
  {
    if n > 16 && p > 16 {
      CapacityGap(n / 2, p / 2);
    }
  }

  lemma CapacityTimes16(n: nat)
    requires IsCapacity(n)
    ensures IsCapacity(n * 16)
  {
    hide IsCapacity;
    CapacityDoubled(n);
    CapacityDoubled(n * 2);
    CapacityDoubled(n * 4);
    CapacityDoubled(n * 8);
  }

  lemma LargeCapacities()
    ensures IsCapacity(0x4000_0000) && IsCapacity(0x8000_0000) && IsCapacity(0x1_0000_0000)
  {
    CapacityTimes16(0x10);
    CapacityTimes16(0x100);
    CapacityTimes16(0x1000);
    CapacityTimes16(0x1_0000);
    CapacityTimes16(0x10_0000);
    CapacityTimes16(0x100_0000);
    assert IsCapacity(0x2000_0000);
  }

  /** A capacity that does not fit 32 bits has its low 32 bits clear. */
  lemma {:induction false} HugeCapacity(n: nat)
    requires IsCapacity(n) && n >= TWO_TO_32
    ensures n % TWO_TO_32 == 0
  {
    if n > TWO_TO_32 {
      LargeCapacities();
      CapacityGap(n, TWO_TO_32);
      HugeCapacity(n / 2);
    }
  }

  /** The first capacity above a size is negative as an int exactly on [2^30, 2^31). */
  lemma CapacityForSize(es: nat, ns: nat)
    requires AsInt32(es) >= 0 && IsCapacity(ns) && ns > es && (ns == 16 || ns / 2 <= es)
    ensures AsInt32(ns) < 0 <==> 0x4000_0000 <= es < 0x8000_0000
    ensures es < 0x4000_0000 ==> ns <= 0x4000_0000
    ensures AsInt32(ns) == if es < 0x4000_0000 then ns else if es < 0x8000_0000 then -0x8000_0000 else 0
  {
    LargeCapacities();
    CapacityGap(ns, 0x4000_0000);
    CapacityGap(ns, 0x8000_0000);
    CapacityGap(ns, TWO_TO_32);
    hide IsCapacity;
    if ns >= TWO_TO_32 {
      HugeCapacity(ns);
    } else {
      assert ns % TWO_TO_32 == ns;
    }
  }

  /** The configuration with octets appended and counted in the frame on top. */
  function Filled(c: Config, data: seq<Octet>): Config
    requires |c.stack| > 0
  {
    var f := c.Top();
    c.WithTop(Frame(f.left - |data|, f.got + |data|, f.wantNulls)).(buf := c.buf + data)
  }

  lemma FilledTop(c: Config, now: Config, data: seq<Octet>)
    requires |c.stack| > 0
    requires now == c.(buf := c.buf + data)
                     .WithTop(Frame(c.Top().left - |data|, c.Top().got + |data|, c.Top().wantNulls))
    ensures now == Filled(c, data)
  {
  }

  /** The machine's step in phase 2, in these terms. */
  lemma FillIs(c: Config, s: seq<Octet>)
    requires c.Valid() && c.phase == Filling
    ensures var len := Min(|s|, c.Top().left);
            && (len > 0 && !AppendFits(|c.buf| + len) ==> Fill(c, s) == Stop(RC_FAIL, 0, c))
            && (len == 0 || AppendFits(|c.buf| + len) ==>
                 (var next := if len == 0 then c else Filled(c, s[..len]);
                  Fill(c, s) == if c.Top().left > len then Stop(RC_WMORE, len, next)
                                else Go(len, next.(phase := Expecting))))
  {
    var len := Min(|s|, c.Top().left);
    if len == 0 {
      assert s[..0] == [] && c.buf + [] == c.buf;
      assert c.stack[..|c.stack| - 1] + [c.Top()] == c.stack;
    }
  }

  /** How a step of the decoder went: on, after n octets, or out of the call. */
  datatype Step = Went(n: nat) | Ended(code: Code, n: nat)

  /** A step agrees with the machine's; after a failure only the octets so far still mean anything. */
  ghost predicate Agrees(step: Step, m: Move, now: Config) {
    match m
    case Go(n, next) => step == Went(n) && now == next
    case Stop(code, n, next) =>
      step == Ended(code, n) && now.buf == next.buf && (code != RC_FAIL ==> now == next)
  }

  /** Replacing an element and cutting the stack above it is replacing the frame and cutting above it. */
  lemma AbstractReplaced(els: seq<Element>, n: nat, k: nat, e: Element)
    requires k < n <= |els|
    ensures Abstract(els[k := e][..k + 1])
         == Abstract(els[..n])[..k] + [Frame(e.left, e.got, e.wantNulls > 0)]
  {
  }

  class OctetString {
    var buf: array<Octet>
    var size: nat
    var phase: Phase
    var left: int
    var context: nat
    var frames: seq<Element>
    /** How many frames are in use; stck->cur_ptr is the last of them, those above wait for reuse. */
    var cur: nat

    ghost predicate Valid()
      reads this, buf
    {
      && size <= buf.Length
      && (context == 0 || (IsCapacity(context) && context <= buf.Length && context <= 0x4000_0000))
      && cur <= |frames|
      && (forall i :: 0 <= i < |frames| ==> frames[i].contLevel == i)
      && (forall i :: 0 <= i < cur ==> frames[i].wantNulls <= 1)
      && (phase == Expecting && cur == 0 ==> frames == [])
      && Context().Valid()
    }

    /** The configuration of the machine that this object stands for. */
    ghost function Context(): Config
      reads this, buf
      requires size <= buf.Length && cur <= |frames|
    {
      Config(phase, left, Abstract(frames[..cur]), buf[..size])
    }

    /** CALLOC of the structure. */
    constructor ()
      ensures Valid() && fresh(buf) && Context() == INITIAL
    {
      buf, size, phase, left, context, frames, cur := new Octet[0], 0, CheckingTags, 0, 0, [], 0;
      new;
      assert buf[..0] == [];
    }

    /** The REALLOC of the APPEND macro. */
    method Grow(ns: nat)
      requires size < ns
      modifies this`buf
      ensures fresh(buf) && buf.Length == ns && buf[..size] == old(buf[..])[..size]
      requires size <= buf.Length
    {
      var grown := new Octet[ns];
      forall i | 0 <= i < size {
        grown[i] := buf[i];
      }
      buf := grown;
    }

    /** The APPEND macro. */
    method Append(data: seq<Octet>) returns (ok: bool)
      requires Valid()
      modifies this`buf, this`size, this`context, buf
      ensures Valid() && (buf == old(buf) || fresh(buf))
      ensures ok == AppendFits(old(size) + |data|)
      ensures buf[..size] == if ok then old(buf[..size]) + data else old(buf[..size])
      ensures ok ==> size < buf.Length && buf[size] == 0
    {
      hide IsCapacity, Abstract;
      var ns := context;
      var es := size + |data|;
      if AsInt32(es) < 0 {
        return false;
      }
      if ns <= es {
        ns := NextCapacity(ns, es);
        CapacityForSize(es, ns);
        if AsInt32(ns) < 0 {
          return false;
        }
        Grow(ns);
        context := AsInt32(ns);
      } else {
      }
      Store(data);
      ok := true;
    }

    /** The memcpy and the terminator of the APPEND macro. */
    method Store(data: seq<Octet>)
      requires size + |data| < buf.Length
      modifies this`size, buf
      ensures size == old(size) + |data| && buf[..size] == old(buf[..size]) + data && buf[size] == 0
    {
      forall i | 0 <= i < |data| {
        buf[size + i] := data[i];
      }
      size := size + |data|;
      buf[size] := 0;
    }

    /** OS__add_stack_el: the frame above the current one, reused if there is one, with its header counted. */
    method AddFrame(left: int, wantNulls: nat, header: nat, tag: nat)
      requires cur <= |frames| && (forall i :: 0 <= i < |frames| ==> frames[i].contLevel == i)
      requires (cur == 0 ==> frames == []) && wantNulls <= 1
      requires forall i :: 0 <= i < cur ==> frames[i].wantNulls <= 1
      modifies this`frames, this`cur
      ensures cur == old(cur) + 1 <= |frames| && (forall i :: 0 <= i < |frames| ==> frames[i].contLevel == i)
      ensures forall i :: 0 <= i < cur ==> frames[i].wantNulls <= 1
      ensures Abstract(frames[..cur]) == old(Abstract(frames[..cur])) + [Frame(left, header, wantNulls > 0)]
    {
      if cur > 0 && cur < |frames| {
        frames := frames[cur := Element(left, header, frames[cur].contLevel, wantNulls, tag)];
      } else {
        var level := if frames == [] then 0 else frames[|frames| - 1].contLevel + 1;
        frames := frames + [Element(left, header, level, wantNulls, tag)];
      }
      cur := cur + 1;
    }

    /** Phase 0. */
    method CheckFirstTag(d: Descriptor, s: seq<Octet>) returns (step: Step)
      requires Valid() && phase == CheckingTags
      modifies this`phase, this`left, this`frames, this`cur
      ensures Valid() && Agrees(step, Moved(d, old(Context()), s), Context())
    {
      hide CheckedTags;
      CheckFirstBounds(d, Context(), s);
      var checked := CheckTags(d.Expects(), s, 0);
      match checked
      case Starved(n, _) => step := Ended(RC_WMORE, n);
      case Refused(n, _) => step := Ended(RC_FAIL, n);
      case Accepted(n, _, len, constructed) =>
        left := len;
        if constructed {
          frames, cur, phase := [], 0, Expecting;
          step := Went(0);
        } else {
          phase := Primitive;
          step := Went(n);
        }
    }

    /** Phase 1, nothing left to wait for: account for the frame in the one below. */
    method Pop() returns (step: Step)
      requires Valid() && phase == Expecting && cur > 0
      requires frames[cur - 1].left <= 0 && frames[cur - 1].wantNulls == 0
      modifies this`phase, this`frames, this`cur
      ensures Valid() && Agrees(step, Popped(old(Context())), Context())
    {
      var sel := frames[cur - 1];
      if cur == 1 {
        cur, phase := 0, Finished;
        return Went(0);
      }
      var prev := frames[cur - 2];
      if prev.left != -1 {
        if prev.left < sel.got {
          return Ended(RC_FAIL, 0);
        }
        prev := prev.(left := prev.left - sel.got);
      }
      prev := prev.(got := prev.got + sel.got);
      AbstractReplaced(frames, cur, cur - 2, prev);
      frames := frames[cur - 2 := prev];
      cur := cur - 1;
      return Went(0);
    }

    /** What the current frame lets the decoder look at. */
    method View(s: seq<Octet>) returns (view: seq<Octet>)
      requires Valid()
      ensures view == Visible(Context(), s) && |view| <= |s|
      ensures cur > 0 ==> frames[cur - 1].left == -1 || frames[cur - 1].left >= |view|
    {
      view := s;
      if cur > 0 && 0 <= frames[cur - 1].left < |s| {
        view := s[..frames[cur - 1].left];
      }
    }

    /** Phase 1: one turn of the loop that fills the stack with expectations. */
    method ExpectOne(d: Descriptor, s: seq<Octet>) returns (step: Step)
      requires Valid() && phase == Expecting
      modifies this`phase, this`frames, this`cur
      ensures Valid() && Agrees(step, Moved(d, old(Context()), s), Context())
    {
      hide HeaderIn, Entered, Popped, Visible, IsCapacity, Abstract;
      if cur > 0 {
        TopFrame();
      }
      if cur > 0 && frames[cur - 1].left <= 0 && frames[cur - 1].wantNulls == 0 {
        step := Pop();
        return;
      }
      var view := View(s);
      var header := ReadHeader(view);
      match header
      case More => step := Ended(RC_WMORE, 0);
      case Bad => step := Ended(RC_FAIL, 0);
      case Got((tag, len), size) => step := Enter(d, view, tag, size, len);
    }

    /** Phase 1, with a header in view. */
    method Enter(d: Descriptor, view: seq<Octet>, tag: nat, header: nat, len: int) returns (step: Step)
      requires Valid() && phase == Expecting
      requires |view| >= 2 && len >= (if IsConstructed(view[0]) then -1 else 0)
      requires cur > 0 ==> frames[cur - 1].left == -1 || frames[cur - 1].left >= 2
      modifies this`phase, this`frames, this`cur
      ensures Valid() && Agrees(step, Entered(d, old(Context()), view, tag, header, len), Context())
    {
      hide Pushed, IsCapacity;
      if cur > 0 && frames[cur - 1].wantNulls > 0 && view[0] == 0 && view[1] == 0 {
        EatEndOfContents();
        return Went(2);
      }
      if cur > 0 && !d.AllowsAt(frames[cur - 1].contLevel, tag) {
        return Ended(RC_FAIL, 0);
      }
      step := Push(tag, header, len, IsConstructed(view[0]));
    }

    /** Two zero octets where the frame wants them. */
    method EatEndOfContents()
      requires Valid() && phase == Expecting && cur > 0 && frames[cur - 1].wantNulls > 0
      requires frames[cur - 1].left == -1 || frames[cur - 1].left >= 2
      modifies this`frames
      ensures Valid()
      ensures Context() == old(Context()).WithTop(Frame(0, old(Context()).Top().got + 2, false))
    {
      var sel := frames[cur - 1];
      sel := sel.(got := sel.got + 2);
      if sel.left != -1 {
        sel := sel.(left := sel.left - 2);
      }
      sel := sel.(wantNulls := sel.wantNulls - 1);
      if sel.wantNulls == 0 {
        sel := sel.(left := 0);
      }
      AbstractReplaced(frames, cur, cur - 1, sel);
      frames := frames[cur - 1 := sel];
    }

    /** A new expectation, if the frame around it is big enough for it. */
    method Push(tag: nat, header: nat, len: int, constructed: bool) returns (step: Step)
      requires Valid() && phase == Expecting && len >= -1 && (len == -1 ==> constructed)
      modifies this`phase, this`frames, this`cur
      ensures Valid()
      ensures match Pushed(old(Context()), header, len)
              case Bad => step == Ended(RC_FAIL, 0) && Context() == old(Context())
              case Got(f, _) =>
                && step == Went(header)
                && Context() == old(Context()).(phase := if constructed then Expecting else Filling,
                                                stack := old(Context()).stack + [f])
    {
      hide Abstract, IsCapacity;
      if cur > 0 {
        TopFrame();
      }
      var wantNulls, left := if len == -1 then 1 else 0, len;
      if cur > 0 && frames[cur - 1].left != -1 {
        // The parent is consulted before the frame is added: after a failure the stack is only freed.
        if frames[cur - 1].left < header + (if len == -1 then 0 else len) {
          return Ended(RC_FAIL, 0);
        }
        if len == -1 {
          left := frames[cur - 1].left - header;
        }
      }
      AddFrame(left, wantNulls, header, tag);
      phase := if constructed then Expecting else Filling;
      step := Went(header);
    }

    lemma TopFrame()
      requires Valid() && cur > 0
      ensures Context().Top() == Frame(frames[cur - 1].left, frames[cur - 1].got, frames[cur - 1].wantNulls > 0)
    {
    }

    /** Octets of contents taken by the frame on top. */
    method CountIn(len: nat)
      requires Valid() && phase == Filling && len <= frames[cur - 1].left
      modifies this`frames
      ensures Valid() && frames[cur - 1].left == old(frames[cur - 1].left) - len
      ensures var c := old(Context());
              Context() == c.WithTop(Frame(c.Top().left - len, c.Top().got + len, c.Top().wantNulls))
    {
      hide IsCapacity;
      var sel := frames[cur - 1];
      sel := sel.(left := sel.left - len, got := sel.got + len);
      AbstractReplaced(frames, cur, cur - 1, sel);
      frames := frames[cur - 1 := sel];
    }

    /** Contents for the frame on top, appended and counted. */
    method TakeIn(data: seq<Octet>) returns (ok: bool)
      requires Valid() && phase == Filling && 0 < |data| <= frames[cur - 1].left
      modifies this, buf
      ensures Valid() && (buf == old(buf) || fresh(buf))
      ensures ok == AppendFits(old(size) + |data|)
      ensures Context() == if ok then Filled(old(Context()), data) else old(Context())
    {
      hide AppendFits, IsCapacity, Abstract, Filled;
      TopFrame();
      ghost var c := Context();
      ok := Append(data);
      if ok {
        TopFrame();
        CountIn(|data|);
        FilledTop(c, Context(), data);
      }
    }

    /** Phase 2: as much as there is of the contents of a leaf. */
    method FillFrame(d: Descriptor, s: seq<Octet>) returns (step: Step)
      requires Valid() && phase == Filling
      modifies this, buf
      ensures Valid() && (buf == old(buf) || fresh(buf))
      ensures Agrees(step, Moved(d, old(Context()), s), Context())
    {
      hide AppendFits, IsCapacity, Abstract;
      TopFrame();
      FillIs(Context(), s);
      var len := if |s| < frames[cur - 1].left then |s| else frames[cur - 1].left;
      if len > 0 {
        var ok := TakeIn(s[..len]);
        if !ok {
          return Ended(RC_FAIL, 0);
        }
        TopFrame();
      }
      if frames[cur - 1].left > 0 {
        return Ended(RC_WMORE, len);
      }
      phase := Expecting;
      step := Went(len);
    }

    /** Phase 3: the primitive form, without a stack. */
    method FillAll(d: Descriptor, s: seq<Octet>) returns (step: Step)
      requires Valid() && phase == Primitive
      modifies this, buf
      ensures Valid() && (buf == old(buf) || fresh(buf))
      ensures Agrees(step, Moved(d, old(Context()), s), Context())
    {
      hide AppendFits, IsCapacity;
      if |s| < left {
        if |s| == 0 {
          return Ended(RC_WMORE, 0);
        }
        var ok := Append(s);
        if !ok {
          return Ended(RC_FAIL, 0);
        }
        left := left - |s|;
        return Ended(RC_WMORE, |s|);
      }
      var len := left;
      var ok := Append(s[..len]);
      if !ok {
        return Ended(RC_FAIL, 0);
      }
      left, phase := 0, Finished;
      step := Went(len);
    }

    /** OCTET_STRING_decode_ber: one call. */
    method Decode(d: Descriptor, input: seq<Octet>) returns (code: Code, consumed: nat)
      requires Valid()
      modifies this, buf
      ensures Valid() && (buf == old(buf) || fresh(buf))
      ensures var r := Run(d, old(Context()), input);
              && code == r.code && consumed == r.consumed && buf[..size] == r.config.buf
              && (code != RC_FAIL ==> Context() == r.config)
    {
      hide Run, Moved;
      consumed := 0;
      assert input[0..] == input;
      while true
        invariant Valid() && (buf == old(buf) || fresh(buf))
        invariant consumed <= |input|
        invariant Run(d, old(Context()), input) == Later(consumed, Run(d, Context(), input[consumed..]))
        decreases |input| - consumed, Rank(phase), cur
      {
        var s := input[consumed..];
        ghost var c := Context();
        MovedBounds(d, c, s);
        RunMoves(d, c, s);
        var step := Turn(d, s);
        match step
        case Went(n) =>
          consumed := consumed + n;
          assert input[consumed..] == s[n..];
        case Ended(last, n) =>
          return last, consumed + n;
      }
    }

    /**
     * Calls of the decoder, one for every piece as long as it wants more; each is given what the one before did not
     * consume. What is told in the end is what is told of the whole.
     */
    method DecodePieces(d: Descriptor, pieces: seq<seq<Octet>>) returns (code: Code, consumed: nat)
      requires Valid() && |pieces| > 0
      modifies this, buf
      ensures Valid() && (buf == old(buf) || fresh(buf))
      ensures var r := Feed(d, old(Context()), [], pieces);
              && code == r.code && consumed == r.consumed && buf[..size] == r.config.buf
              && (code != RC_FAIL ==> Context() == r.config)
    {
      hide Run, Feed;
      var kept, i: nat := [], 0;
      consumed := 0;
      ghost var whole := Feed(d, Context(), [], pieces);
      assert pieces[0..] == pieces;
      while true
        invariant Valid() && (buf == old(buf) || fresh(buf)) && i < |pieces|
        invariant whole == Later(consumed, Feed(d, Context(), kept, pieces[i..]))
        decreases |pieces| - i
      {
        FeedFirst(d, Context(), kept, pieces[i..]);
        assert pieces[i..][1..] == pieces[i + 1..] && pieces[i..][0] == pieces[i];
        var s := kept + pieces[i];
        var n;
        code, n := Decode(d, s);
        consumed := consumed + n;
        i := i + 1;
        if code != RC_WMORE || i == |pieces| {
          return;
        }
        kept := s[n..];
      }
    }

    /** An OCTET STRING of contents below 2^30 octets, in any form and in any pieces, is decoded to its leaves in order. */
    method DecodeFragments(d: Descriptor, pieces: seq<seq<Octet>>, ghost t: Tlv, ghost rest: seq<Octet>)
        returns (code: Code, consumed: nat)
      requires Valid() && Context() == INITIAL && |pieces| > 0
      requires IsOctetString(d, t) && |Flatten(t)| < CAPACITY && Concat(pieces) == Encode(t) + rest
      modifies this, buf
      ensures Valid() && code == RC_OK && consumed == |Encode(t)| && buf[..size] == Flatten(t)
    {
      hide IsOctetString, Feed, Encode, Flatten, Concat;
      FragmentsDecode(d, t, pieces, rest);
      code, consumed := DecodePieces(d, pieces);
    }

    /** The phase that is due. */
    method Turn(d: Descriptor, s: seq<Octet>) returns (step: Step)
      requires Valid()
      modifies this, buf
      ensures Valid() && (buf == old(buf) || fresh(buf))
      ensures Agrees(step, Moved(d, old(Context()), s), Context())
    {
      match phase
      case CheckingTags => step := CheckFirstTag(d, s);
      case Expecting => step := ExpectOne(d, s);
      case Filling => step := FillFrame(d, s);
      case Primitive => step := FillAll(d, s);
      case Finished => step := Ended(RC_OK, 0);
    }
  }

  /** A tag and a length. */
  method ReadHeader(view: seq<Octet>) returns (r: Fetch<(nat, int)>)
    ensures r == HeaderIn(view)
  {
    hide FetchedTag, FetchedLength, RunEnd;
    var tag := FetchTag(view);
    if !tag.Got? {
      return if tag.More? then More else Bad;
    }
    FetchedIsIdentifier(view);
    var length := FetchLength(IsConstructed(view[0]), view[tag.used..]);
    if !length.Got? {
      return if length.More? then More else Bad;
    }
    return Got((tag.value, length.value), tag.used + length.used);
  }

  /** The doubling loop of APPEND. */
  method NextCapacity(had: nat, es: nat) returns (ns: nat)
    requires had <= es && (had == 0 || IsCapacity(had))
    ensures IsCapacity(ns) && ns > es && (ns == 16 || ns / 2 <= es)
  {
    hide IsCapacity;
    ns := 16;
    CapacityDoubled(16);
    if had > 0 {
      CapacityDoubled(had);
      ns := had * 2;
    }
    while ns <= es
      invariant IsCapacity(ns) && (ns == 16 || ns / 2 <= es)
      decreases es - ns
    {
      CapacityDoubled(ns);
      ns := ns * 2;
    }
  }

  lemma CapacityDoubled(n: nat)
    requires n == 16 || IsCapacity(n)
    ensures IsCapacity(n) && IsCapacity(n * 2) && n * 2 / 2 == n && n > 0
  {
  }
}
