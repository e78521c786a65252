/**
 * Octets and bits as XER text (OCTET_STRING.c, BIT_STRING.c): binary digits and pairs of hexadecimal digits, in one line
 * or laid out in several, and back, in chunks.
 */
module XerText {
  import opened Octets
  import opened Words
  import opened Bits
  import opened BitBuffer
  import opened BitString
  import opened Text
  import opened IntegerText

  /** The white space these converters ignore. */
  predicate IsGap(c: char) {
    IsSpace(c) || c == 12 as char
  }

  predicate IsBinary(c: char) {
    c == '0' || c == '1'
  }

  predicate BinaryText(t: string) {
    forall i :: 0 <= i < |t| ==> IsGap(t[i]) || IsBinary(t[i])
  }

  /** The bits that a text spells, white space aside. */
  function TextBits(t: string): (b: seq<bool>)
    ensures |b| <= |t|
  {
    if t == "" then []
    else
      var front, c := TextBits(t[..|t| - 1]), t[|t| - 1];
      if IsBinary(c) then front + [c == '1'] else front
  }

  lemma {:induction false} TextBitsConcat(s: string, t: string)
    ensures TextBits(s + t) == TextBits(s) + TextBits(t)
  {
    if t == "" {
      assert s + t == s;
    } else {
      var k := |t| - 1;
      TextBitsConcat(s, t[..k]);
      assert (s + t)[..|s| + k] == s + t[..k];
    }
  }

  function BitChars(b: seq<bool>): (t: string)
    ensures |t| == |b| && BinaryText(t)
  {
    if b == [] then "" else BitChars(b[..|b| - 1]) + [if b[|b| - 1] then '1' else '0']
  }

  lemma {:induction false} BitCharsSpell(b: seq<bool>)
    ensures TextBits(BitChars(b)) == b
  {
    if b != [] {
      var front := BitChars(b[..|b| - 1]);
      BitCharsSpell(b[..|b| - 1]);
      assert BitChars(b)[..|front|] == front;
    }
  }

  /** ASN__TEXT_INDENT. */
  function Indent(level: int): (t: string)
    ensures forall i :: 0 <= i < |t| ==> IsSpace(t[i])
  {
    "\n" + seq(if level < 0 then 0 else 4 * level, _ => ' ')
  }

  lemma {:induction false} GapsSpellNothing(t: string)
    requires forall i :: 0 <= i < |t| ==> IsSpace(t[i])
    ensures TextBits(t) == [] && BinaryText(t)
  {
    if t != "" {
      GapsSpellNothing(t[..|t| - 1]);
    }
  }

  /** More text behind text. */
  lemma MoreText(t: string, more: string, b: seq<bool>, c: seq<bool>)
    requires BinaryText(t) && BinaryText(more) && TextBits(t) == b && TextBits(more) == c
    ensures BinaryText(t + more) && TextBits(t + more) == b + c
  {
    TextBitsConcat(t, more);
  }

  lemma NoText(t: string, gaps: string)
    requires BinaryText(t) && forall i :: 0 <= i < |gaps| ==> IsSpace(gaps[i])
    ensures BinaryText(t + gaps) && TextBits(t + gaps) == TextBits(t)
  {
    GapsSpellNothing(gaps);
    MoreText(t, gaps, TextBits(t), []);
    assert TextBits(t) + [] == TextBits(t);
  }

  lemma {:induction false} BitCharsConcat(a: seq<bool>, b: seq<bool>)
    ensures BitChars(a + b) == BitChars(a) + BitChars(b)
  {
    if b == [] {
      assert a + b == a;
    } else {
      BitCharsConcat(a, b[..|b| - 1]);
      assert (a + b)[..|a + b| - 1] == a + b[..|b| - 1];
    }
  }

  lemma {:induction false} BitCharAt(b: seq<bool>, k: nat)
    requires k < |b|
    ensures BitChars(b)[k] == if b[k] then '1' else '0'
  {
    if k < |b| - 1 {
      BitCharAt(b[..|b| - 1], k);
    }
  }

  /** The digits of the octets before k, with a line break in front of every eighth octet. */
  function BitLines(buf: seq<Octet>, ilevel: int, k: nat): string
    requires k <= |buf|
  {
    if k == 0 then "" else
    BitLines(buf, ilevel, k - 1) + (if (k - 1) % 8 == 0 then Indent(ilevel) else "") + BitChars(BitsOf(buf[k - 1], 8))
  }

  /** The used digits of the last octet, and the line break behind everything. */
  function LastLine(st: BitString, ilevel: int): string
    requires st.Valid()
  {
    (if st.buf == [] then "" else BitChars(BitsOf(st.buf[|st.buf| - 1], 8)[..8 - st.unused])) + Indent(ilevel - 1)
  }

  /** Lines of eight octets. */
  function LinesOfEight(st: BitString, ilevel: int): string
    requires st.Valid()
  {
    var e := if st.buf == [] then 0 else |st.buf| - 1;
    BitLines(st.buf, ilevel, e) + (if e % 8 == 0 then Indent(ilevel) else "") + LastLine(st, ilevel)
  }

  /** The last octet begins a line, behind others. */
  predicate BeginsLine(st: BitString) {
    |st.buf| > 1 && (|st.buf| - 1) % 8 == 0
  }

  /** Lines as they are written: the break in front of a last octet that begins a line overtakes the line before. */
  function WrittenLines(st: BitString, ilevel: int): string
    requires st.Valid()
  {
    if !BeginsLine(st) then LinesOfEight(st, ilevel) else
    var e := |st.buf| - 1;
    BitLines(st.buf, ilevel, e - 8) + Indent(ilevel) + Indent(ilevel)
    + BitChars(OctetBits(st.buf[e - 8..e])) + LastLine(st, ilevel)
  }

  /** BIT_STRING_encode_xer: all bits but the unused ones, in lines if the form is not canonical. */
  method EncodeBits(st: BitString, canonical: bool, ilevel: int) returns (text: string)
    requires st.Valid()
    ensures canonical ==>
      |text| == |st.Bits()| && forall k :: 0 <= k < |text| ==> text[k] == if st.Bits()[k] then '1' else '0'
    ensures !canonical ==> text == WrittenLines(st, ilevel)
    ensures BinaryText(text) && TextBits(text) == st.Bits()
  {
    hide BitsOf, OctetBits, TextBits, BinaryText, BitChars, Indent, BitLines, WrittenLines, OnLine;
    text := "";
    var scratch := "";
    var buf, end := 0, |st.buf| - 1;
    ghost var line: nat := 0;
    NoOctetsYet(st.buf, 0, ilevel);
    while buf < end
      invariant 0 <= buf <= |st.buf| && (|st.buf| > 0 ==> buf <= end) && |scratch| <= 126 && line <= buf
      invariant canonical ==> text + scratch == BitChars(OctetBits(st.buf[..buf]))
      invariant !canonical && buf == 0 ==> text == scratch == ""
      invariant !canonical && buf > 0 ==> line < buf && OnLine(st.buf, ilevel, line, buf, text, scratch)
    {
      var v := st.buf[buf];
      var nline := !canonical && buf % 8 == 0;
      if nline {
        NewLine(st.buf, ilevel, line, buf, text, scratch);
      } else if !canonical {
        RoomOnLine(st.buf, ilevel, line, buf, text, scratch);
      }
      if |scratch| >= 118 || nline {
        text := text + scratch;
        scratch := "";
        if nline {
          text := text + Indent(ilevel);
          line := buf;
        }
        assert text + scratch == text;
      }
      NextPlain(st.buf, 0, buf);
      OctetChars(v);
      if !canonical {
        SameLine(st.buf, ilevel, line, buf, text, scratch);
      }
      ghost var was := text + scratch;
      scratch := scratch + (BitChars(BitsOf(v / 16, 4)) + BitChars(BitsOf(v % 16, 4)));
      assert text + scratch == was + BitChars(BitsOf(v, 8));
      buf := buf + 1;
    }
    if !canonical && buf > 0 {
      LastOnLine(st.buf, ilevel, line, buf, text, scratch);
    }
    if !canonical && buf % 8 == 0 {
      text := text + Indent(ilevel);
    }
    text := text + scratch;
    ghost var most := text;
    if buf == end {
      var last := DumpLast(st.buf[buf], st.unused);
      text := text + last;
    }
    if !canonical {
      text := text + Indent(ilevel - 1);
      WrittenAre(st, ilevel, line, most, text, scratch);
      WrittenSpell(st, ilevel);
    } else {
      PlainIs(st, most, text);
    }
  }

  lemma NoOctetsYet(s: seq<Octet>, k: nat, ilevel: int)
    requires k <= |s|
    ensures BitLines(s, ilevel, 0) == "" && BitChars(OctetBits(s[..0])) == "" && BitChars(OctetBits(s[k..k])) == ""
    ensures "" + "" == ""
  {
  }

  /** Where the encoder stands in its lines: `line` is the octet at which the last one begins. */
  predicate OnLine(buf: seq<Octet>, ilevel: int, line: nat, k: nat, text: string, scratch: string) {
    && line <= k <= |buf| && line % 8 == 0 && k - line <= 8
    && |scratch| == 8 * (k - line) && scratch == BitChars(OctetBits(buf[line..k]))
    && text == BitLines(buf, ilevel, line) + Indent(ilevel)
  }

  lemma NewLine(buf: seq<Octet>, ilevel: int, line: nat, k: nat, text: string, scratch: string)
    requires k % 8 == 0 && k < |buf|
    requires if k == 0 then text == scratch == "" else line < k && OnLine(buf, ilevel, line, k, text, scratch)
    ensures OnLine(buf, ilevel, k, k, text + scratch + Indent(ilevel), "")
  {
    hide BitsOf, BitChars, Indent, OctetBits, BitLines;
    NoOctetsYet(buf, k, ilevel);
    if k > 0 {
      LineIsFull(buf, ilevel, line, k);
    }
  }

  lemma RoomOnLine(buf: seq<Octet>, ilevel: int, line: nat, k: nat, text: string, scratch: string)
    requires k % 8 != 0 && OnLine(buf, ilevel, line, k, text, scratch)
    ensures |scratch| < 64 && k - line < 8
  {
    hide BitsOf, BitChars, Indent, OctetBits, BitLines;
  }

  lemma SameLine(buf: seq<Octet>, ilevel: int, line: nat, k: nat, text: string, scratch: string)
    requires k < |buf| && OnLine(buf, ilevel, line, k, text, scratch) && k - line < 8
    ensures |BitChars(BitsOf(buf[k], 8))| == 8 && |scratch| < 64
    ensures OnLine(buf, ilevel, line, k + 1, text, scratch + BitChars(BitsOf(buf[k], 8)))
  {
    hide BitsOf, BitChars, Indent, OctetBits, BitLines;
    NextPlain(buf, line, k);
  }

  lemma LastOnLine(buf: seq<Octet>, ilevel: int, line: nat, k: nat, text: string, scratch: string)
    requires OnLine(buf, ilevel, line, k, text, scratch)
    ensures k <= |buf| && text == BitLines(buf, ilevel, line) + Indent(ilevel)
    ensures line % 8 == 0 && line <= k && k - line <= 8 && scratch == BitChars(OctetBits(buf[line..k]))
  {
    hide BitsOf, BitChars, Indent, OctetBits, BitLines;
  }

  /** The digits of some octets of a line. */
  lemma {:induction false} SomeOfLine(buf: seq<Octet>, ilevel: int, line: nat, k: nat)
    requires line < k <= |buf| && line % 8 == 0 && k - line <= 8
    ensures BitLines(buf, ilevel, k) == BitLines(buf, ilevel, line) + Indent(ilevel) + BitChars(OctetBits(buf[line..k]))
    decreases k
  {
    hide BitsOf, BitChars, Indent, OctetBits;
    NoOctetsYet(buf, line, ilevel);
    NextPlain(buf, line, k - 1);
    if k - 1 == line {
      assert BitChars(OctetBits(buf[line..k])) == BitChars(BitsOf(buf[line], 8));
    } else {
      SomeOfLine(buf, ilevel, line, k - 1);
      assert (k - 1) % 8 != 0;
      assert BitLines(buf, ilevel, k) == BitLines(buf, ilevel, k - 1) + "" + BitChars(BitsOf(buf[k - 1], 8));
    }
  }

  lemma LineIsFull(buf: seq<Octet>, ilevel: int, line: nat, k: nat)
    requires line < k <= |buf| && line % 8 == k % 8 == 0 && k - line <= 8
    ensures BitLines(buf, ilevel, k) == BitLines(buf, ilevel, line) + Indent(ilevel) + BitChars(OctetBits(buf[line..k]))
  {
    SomeOfLine(buf, ilevel, line, k);
  }

  /** The digits of one more octet. */
  lemma NextPlain(s: seq<Octet>, i: nat, k: nat)
    requires i <= k < |s|
    ensures |BitChars(BitsOf(s[k], 8))| == 8
    ensures BitChars(OctetBits(s[i..k + 1])) == BitChars(OctetBits(s[i..k])) + BitChars(BitsOf(s[k], 8))
    ensures s[0..k] == s[..k] && s[0..k + 1] == s[..k + 1]
  {
    hide BitsOf, BitChars;
    assert s[i..k + 1][..k - i] == s[i..k];
    BitCharsConcat(OctetBits(s[i..k]), BitsOf(s[k], 8));
  }

  lemma PlainIs(st: BitString, most: string, text: string)
    requires st.Valid()
    requires if st.buf == [] then text == most == BitChars(OctetBits(st.buf)) else
      var e := |st.buf| - 1;
      most == BitChars(OctetBits(st.buf[..e])) && text == most + BitChars(BitsOf(st.buf[e], 8)[..8 - st.unused])
    ensures text == BitChars(st.Bits()) && |text| == |st.Bits()| && BinaryText(text) && TextBits(text) == st.Bits()
    ensures forall k :: 0 <= k < |text| ==> text[k] == if st.Bits()[k] then '1' else '0'
  {
    hide BitsOf, OctetBits, BitChars, TextBits;
    UsedBits(st);
    if st.buf != [] {
      var e := |st.buf| - 1;
      BitCharsConcat(OctetBits(st.buf[..e]), BitsOf(st.buf[e], 8)[..8 - st.unused]);
    }
    BitCharsSpell(st.Bits());
    forall k | 0 <= k < |text|
      ensures text[k] == if st.Bits()[k] then '1' else '0'
    {
      BitCharAt(st.Bits(), k);
    }
  }

  /** The bits of all octets but the last, and those of the last that are used. */
  lemma UsedBits(st: BitString)
    requires st.Valid()
    ensures st.Bits() == if st.buf == [] then OctetBits(st.buf) else
      OctetBits(st.buf[..|st.buf| - 1]) + BitsOf(st.buf[|st.buf| - 1], 8)[..8 - st.unused]
  {
    hide BitsOf, OctetBits;
    if st.buf == [] {
      NoBits(st);
    } else {
      LastBits(st, |st.buf| - 1);
    }
  }

  lemma WrittenAre(st: BitString, ilevel: int, line: nat, most: string, text: string, scratch: string)
    requires st.Valid()
    requires var e := if st.buf == [] then 0 else |st.buf| - 1;
             if e == 0 then most == Indent(ilevel) else
             && line < e
             && (e % 8 == 0 ==> most == BitLines(st.buf, ilevel, line) + Indent(ilevel) + Indent(ilevel) + scratch)
             && (e % 8 != 0 ==> most == BitLines(st.buf, ilevel, line) + Indent(ilevel) + scratch)
             && line % 8 == 0 && e - line <= 8 && scratch == BitChars(OctetBits(st.buf[line..e]))
    requires text == most + (if st.buf == [] then "" else BitChars(BitsOf(st.buf[|st.buf| - 1], 8)[..8 - st.unused]))
                     + Indent(ilevel - 1)
    ensures text == WrittenLines(st, ilevel)
  {
    hide BitsOf, OctetBits, BitChars, Indent, BitLines;
    NoOctetsYet(st.buf, 0, ilevel);
    if |st.buf| > 1 {
      var e := |st.buf| - 1;
      SomeOfLine(st.buf, ilevel, line, e);
      FullLine(line, e);
      if e % 8 == 0 {
        assert text == BitLines(st.buf, ilevel, e - 8) + Indent(ilevel) + Indent(ilevel) + scratch + LastLine(st, ilevel);
      } else {
        assert text == BitLines(st.buf, ilevel, e) + "" + LastLine(st, ilevel);
      }
    } else {
      assert text == "" + Indent(ilevel) + LastLine(st, ilevel);
    }
  }

  lemma FullLine(line: nat, e: nat)
    requires line < e && line % 8 == 0 && e - line <= 8
    ensures e % 8 == 0 ==> line == e - 8
  {
  }

  lemma {:induction false} BitLinesSpell(buf: seq<Octet>, ilevel: int, k: nat)
    requires k <= |buf|
    ensures BinaryText(BitLines(buf, ilevel, k)) && TextBits(BitLines(buf, ilevel, k)) == OctetBits(buf[..k])
  {
    hide BitsOf, OctetBits, BitChars, TextBits, BinaryText, Indent;
    NothingSpelled(buf);
    if k > 0 {
      var front, last := BitLines(buf, ilevel, k - 1), BitsOf(buf[k - 1], 8);
      BitLinesSpell(buf, ilevel, k - 1);
      NextOctetBits(buf, k - 1);
      BitCharsSpell(last);
      NoText(front, Indent(ilevel));
      NoText(front, "");
      var gap := if (k - 1) % 8 == 0 then Indent(ilevel) else "";
      MoreText(front + gap, BitChars(last), OctetBits(buf[..k - 1]), last);
    }
  }

  /** With or without a gap, and with a line break behind the last octet. */
  lemma LastLineSpells(st: BitString, ilevel: int, most: string, b: seq<bool>)
    requires st.Valid() && BinaryText(most) && TextBits(most) == b
    requires b == if st.buf == [] then OctetBits(st.buf) else OctetBits(st.buf[..|st.buf| - 1])
    ensures BinaryText(most + LastLine(st, ilevel)) && TextBits(most + LastLine(st, ilevel)) == st.Bits()
  {
    hide BitsOf, OctetBits, BitChars, TextBits, BinaryText, Indent;
    UsedBits(st);
    var all := most;
    if st.buf != [] {
      var last := BitsOf(st.buf[|st.buf| - 1], 8)[..8 - st.unused];
      BitCharsSpell(last);
      MoreText(most, BitChars(last), b, last);
      all := most + BitChars(last);
    }
    NoText(all, Indent(ilevel - 1));
    assert most + LastLine(st, ilevel) == all + Indent(ilevel - 1);
  }

  /** In both layouts the text spells the used bits. */
  lemma WrittenSpell(st: BitString, ilevel: int)
    requires st.Valid()
    ensures BinaryText(WrittenLines(st, ilevel)) && TextBits(WrittenLines(st, ilevel)) == st.Bits()
  {
    hide BitsOf, OctetBits, BitChars, TextBits, BinaryText, Indent, BitLines, LastLine;
    var e := if st.buf == [] then 0 else |st.buf| - 1;
    var gap := Indent(ilevel);
    if BeginsLine(st) {
      var front, line := BitLines(st.buf, ilevel, e - 8), OctetBits(st.buf[e - 8..e]);
      BitLinesSpell(st.buf, ilevel, e - 8);
      NoText(front, gap);
      NoText(front + gap, gap);
      BitCharsSpell(line);
      MoreText(front + gap + gap, BitChars(line), OctetBits(st.buf[..e - 8]), line);
      OctetBitsConcat(st.buf[..e - 8], st.buf[e - 8..e]);
      assert st.buf[..e] == st.buf[..e - 8] + st.buf[e - 8..e];
      LastLineSpells(st, ilevel, front + gap + gap + BitChars(line), OctetBits(st.buf[..e]));
    } else {
      var front := BitLines(st.buf, ilevel, e);
      BitLinesSpell(st.buf, ilevel, e);
      NoText(front, gap);
      NoText(front, "");
      assert st.buf == [] ==> st.buf[..e] == st.buf;
      LastLineSpells(st, ilevel, front + if e % 8 == 0 then gap else "", OctetBits(st.buf[..e]));
    }
  }

  /** The lines come out right if and only if no last octet begins one behind others. */
  lemma WrittenExact(st: BitString, ilevel: int)
    requires st.Valid()
    ensures WrittenLines(st, ilevel) == LinesOfEight(st, ilevel) <==> !BeginsLine(st)
  {
    hide BitsOf, OctetBits, BitLines, LastLine, BitChars, Indent;
    if BeginsLine(st) {
      var e := |st.buf| - 1;
      var front, line := BitLines(st.buf, ilevel, e - 8) + Indent(ilevel), BitChars(OctetBits(st.buf[e - 8..e]));
      SomeOfLine(st.buf, ilevel, e - 8, e);
      LineHasDigits(st.buf, e);
      IndentIs(ilevel);
      assert Indent(ilevel)[0] == '\n';
      OrderShows(front, Indent(ilevel), line, LastLine(st, ilevel));
    }
  }

  lemma OrderShows(front: string, gap: string, line: string, last: string)
    requires gap != "" && line != "" && gap[0] != line[0]
    ensures front + gap + line + last != front + line + gap + last
  {
    assert (front + gap + line + last)[|front|] == gap[0];
    assert (front + line + gap + last)[|front|] == line[0];
  }

  lemma LineHasDigits(buf: seq<Octet>, e: nat)
    requires 8 <= e <= |buf|
    ensures var line := BitChars(OctetBits(buf[e - 8..e])); line != "" && line[0] != '\n'
  {
    hide BitsOf;
    BitCharAt(OctetBits(buf[e - 8..e]), 0);
  }

  lemma NothingSpelled(s: seq<Octet>)
    ensures BinaryText("") && TextBits("") == OctetBits(s[..0])
  {
  }

  /** The patterns of the two halves of an octet. */
  lemma OctetChars(v: Octet)
    ensures var t := BitChars(BitsOf(v / 16, 4)) + BitChars(BitsOf(v % 16, 4));
            |t| == 8 && t == BitChars(BitsOf(v, 8))
  {
    hide BitsOf, BitChars;
    BitCharsConcat(BitsOf(v / 16, 4), BitsOf(v % 16, 4));
    Halves(v);
  }

  lemma Halves(v: Octet)
    ensures BitsOf(v, 8) == BitsOf(v / 16, 4) + BitsOf(v % 16, 4)
  {
    BitsSplit(v, 4, 4);
    Shr4(v);
    assert Shl(1, 4) == 16 && Shl(v / 16, 4) == v / 16 * 16;
    BitsOfLow(v, 4, v % 16, v / 16);
  }

  lemma NextOctetBits(s: seq<Octet>, k: nat)
    requires k < |s|
    ensures OctetBits(s[..k + 1]) == OctetBits(s[..k]) + BitsOf(s[k], 8)
  {
    hide BitsOf;
    assert s[..k + 1][..k] == s[..k];
  }

  /** The bits of the last octet that are used. */
  lemma LastBits(st: BitString, k: nat)
    requires st.Valid() && |st.buf| == k + 1
    ensures st.Bits() == OctetBits(st.buf[..k]) + BitsOf(st.buf[k], 8)[..8 - st.unused]
  {
    hide BitsOf, OctetBits;
    NextOctetBits(st.buf, k);
    assert st.buf[..k + 1] == st.buf;
  }

  lemma NoBits(st: BitString)
    requires st.Valid() && st.buf == []
    ensures st.Bits() == OctetBits(st.buf)
  {
    hide BitsOf;
  }

  /** The last octet, bit by bit from the highest. */
  method DumpLast(v: Octet, ubits: nat) returns (t: string)
    requires ubits <= 7
    ensures t == BitChars(BitsOf(v, 8)[..8 - ubits])
  {
    hide BitsOf;
    t := "";
    var i := 7;
    while i >= ubits
      invariant ubits - 1 <= i <= 7 && t == BitChars(BitsOf(v, 8)[..7 - i])
    {
      BitAt(v, 8, 7 - i);
      ghost var b := BitsOf(v, 8)[..8 - i];
      assert b[..7 - i] == BitsOf(v, 8)[..7 - i];
      t := t + [if Shr(v, i) % 2 == 1 then '1' else '0'];
      i := i - 1;
    }
  }

  /** BIT_STRING_t, as a conversion that comes in chunks goes on filling it. */
  class BitStringText {
    var buf: seq<Octet>
    var unused: nat

    ghost predicate Valid()
      reads this
    {
      BitString(buf, unused).Valid() && BitString(buf, unused).Clear()
    }

    ghost function Bits(): seq<bool>
      reads this
      requires Valid()
    {
      BitString(buf, unused).Bits()
    }

    constructor ()
      ensures Valid() && Bits() == [] && buf == []
    {
      hide BitsOf, OctetBits, Zeros;
      buf, unused := [], 0;
      new;
      NothingYet();
    }

    /**
     * OCTET_STRING__convert_binary: -1 on a character that is neither 0, 1 nor white space, and then the contents
     * are in no definite state. Behind the contents the area holds the zero that ended the last conversion.
     */
    method Convert(chunk: string) returns (r: int)
      requires Valid()
      modifies this
      ensures BinaryText(chunk) ==> r == |chunk| && Valid() && Bits() == old(Bits()) + TextBits(chunk)
      ensures !BinaryText(chunk) ==> r == -1
    {
      hide BitsOf, OctetBits, TextBits, BinaryText;
      var was := buf;
      var a := new Octet[|was| + (|chunk| + 7) / 8 + 1](k requires 0 <= k => if k < |was| then was[k] else 0);
      ghost var b := Bits();
      var p, left := Resume(a, buf, unused);
      assert a[..p + 1] == (buf + [0])[..p + 1];
      ResumeBits(buf, unused, p, left);
      var ok;
      ok, p, left := TakeBits(a, p, left, chunk, b);
      if !ok {
        unused := if left == 8 then 0 else left;
        return -1;
      }
      FinishBits(a[..], p, left, b + TextBits(chunk));
      if left == 8 {
        buf, unused := a[..p], 0;
      } else {
        buf, unused := a[..p + 1], left;
      }
      r := |chunk|;
    }
  }

  /** The series of zeros and ones, behind the bits that are there. */
  method TakeBits(a: array<Octet>, start: nat, unused: nat, chunk: string, ghost b: seq<bool>)
      returns (ok: bool, p: nat, left: nat)
    requires start < a.Length && unused <= 8 && OctetBits(a[..start + 1]) == b + Zeros(unused)
    requires |b| + |chunk| <= 8 * a.Length
    modifies a
    ensures ok <==> BinaryText(chunk)
    ensures p < a.Length && left <= 8
    ensures ok ==> OctetBits(a[..p + 1]) == b + TextBits(chunk) + Zeros(left)
  {
    hide BitsOf, OctetBits, TextBits, BinaryText, Zeros;
    p, left := start, unused;
    NoChars(chunk[..0], b);
    ghost var seen := b;
    var at := 0;
    while at < |chunk|
      invariant 0 <= at <= |chunk| && left <= 8 && p < a.Length
      invariant BinaryText(chunk[..at]) && seen == b + TextBits(chunk[..at]) && |seen| <= |b| + at
      invariant OctetBits(a[..p + 1]) == seen + Zeros(left)
    {
      var ch := chunk[at];
      NextChar(chunk, at);
      if IsBinary(ch) {
        Assoc(b, TextBits(chunk[..at]), [ch == '1']);
        p, left := PutBit(a, p, left, ch == '1', seen);
        seen := seen + [ch == '1'];
      } else if !IsGap(ch) {
        NotBinary(chunk, at);
        return false, p, left;
      } else {
      }
      at := at + 1;
    }
    assert chunk[..at] == chunk;
    ok := true;
  }

  lemma NothingYet()
    ensures BitString([], 0).Valid() && BitString([], 0).Clear() && BitString([], 0).Bits() == []
  {
  }

  /** Where the next bit goes: into the last octet if it has unused bits, or else behind it. */
  method Resume(a: array<Octet>, buf: seq<Octet>, unused: nat) returns (p: nat, left: nat)
    requires BitString(buf, unused).Valid() && a.Length > |buf|
    ensures p == (if unused > 0 then |buf| - 1 else |buf|) && left == if unused > 0 then unused else 8
  {
    p, left := |buf|, unused % 8;
    if left == 0 {
      left := 8;
    } else if |buf| > 0 {
      p := p - 1;
    }
  }

  lemma ResumeBits(buf: seq<Octet>, unused: nat, p: nat, left: nat)
    requires BitString(buf, unused).Valid() && BitString(buf, unused).Clear()
    requires p == (if unused > 0 then |buf| - 1 else |buf|) && left == if unused > 0 then unused else 8
    ensures OctetBits((buf + [0])[..p + 1]) == BitString(buf, unused).Bits() + Zeros(left)
  {
    hide BitsOf, OctetBits;
    if unused > 0 {
      assert (buf + [0])[..p + 1] == buf;
    } else {
      assert (buf + [0])[..p + 1] == buf + [0];
      OctetBitsConcat(buf, [0]);
      OctetBitsOne(0);
      BitsOfZero(8);
      assert OctetBits(buf)[..8 * |buf|] == OctetBits(buf);
    }
  }

  lemma NoChars(none: string, b: seq<bool>)
    requires none == ""
    ensures BinaryText(none) && b == b + TextBits(none)
  {
  }

  lemma NextChar(chunk: string, at: nat)
    requires at < |chunk|
    ensures TextBits(chunk[..at + 1]) == TextBits(chunk[..at]) + if IsBinary(chunk[at]) then [chunk[at] == '1'] else []
    ensures BinaryText(chunk[..at + 1]) <==> BinaryText(chunk[..at]) && (IsGap(chunk[at]) || IsBinary(chunk[at]))
  {
    var t := chunk[..at + 1];
    assert t[..at] == chunk[..at] && t[at] == chunk[at];
    if BinaryText(t) {
      assert forall i :: 0 <= i < at ==> chunk[..at][i] == t[i];
    }
  }

  lemma NotBinary(chunk: string, at: nat)
    requires at < |chunk| && !IsGap(chunk[at]) && !IsBinary(chunk[at])
    ensures !BinaryText(chunk)
  {
  }

  /** One bit more: a full octet is followed by a cleared one. */
  method PutBit(a: array<Octet>, at: nat, unused: nat, bit: bool, ghost seen: seq<bool>) returns (p: nat, left: nat)
    requires at < a.Length && unused <= 8 && (unused == 0 ==> at + 1 < a.Length)
    requires OctetBits(a[..at + 1]) == seen + Zeros(unused)
    modifies a
    ensures at <= p <= at + 1 && p < a.Length && left <= 7
    ensures OctetBits(a[..p + 1]) == seen + [bit] + Zeros(left)
  {
    hide BitsOf, OctetBits, Zeros, WithBit;
    p, left := at, unused;
    if left == 0 {
      p := p + 1;
      ghost var was := a[..p];
      a[p] := 0;
      assert a[..p + 1] == was + [0];
      ClearedOctet(was, seen);
      left := 7;
    } else {
      left := left - 1;
    }
    ghost var whole := a[..p + 1];
    SetBit(whole, seen, left, bit);
    if bit {
      a[p] := WithBit(a[p], left, true);
      assert a[..p + 1] == whole[p := a[p]];
    }
  }

  lemma ClearedOctet(s: seq<Octet>, seen: seq<bool>)
    requires OctetBits(s) == seen + Zeros(0)
    ensures OctetBits(s + [0]) == seen + Zeros(8)
  {
    hide BitsOf, OctetBits;
    OctetBitsConcat(s, [0]);
    OctetBitsOne(0);
    BitsOfZero(8);
    assert seen + Zeros(0) == seen;
  }

  /** Setting the first of the zeros in the last octet. */
  lemma SetBit(s: seq<Octet>, seen: seq<bool>, left: nat, bit: bool)
    requires s != [] && left <= 7 && OctetBits(s) == seen + Zeros(left + 1)
    ensures WithBit(s[|s| - 1], left, true) < 256
    ensures OctetBits(if bit then s[|s| - 1 := WithBit(s[|s| - 1], left, true)] else s) == seen + [bit] + Zeros(left)
  {
    hide BitsOf, OctetBits, WithBit;
    var k := |s| - 1;
    WithBitBits(s[k], left, true);
    if bit {
      OctetReplaced(s, k, WithBit(s[k], left, true), 7 - left, true);
      assert (seen + Zeros(left + 1))[|seen| := true] == seen + [true] + Zeros(left);
    } else {
      assert seen + Zeros(left + 1) == seen + [false] + Zeros(left);
    }
  }

  lemma FinishBits(a: seq<Octet>, p: nat, left: nat, seen: seq<bool>)
    requires p < |a| && left <= 8 && OctetBits(a[..p + 1]) == seen + Zeros(left)
    ensures left < 8 ==> var st := BitString(a[..p + 1], left); st.Valid() && st.Clear() && st.Bits() == seen
    ensures left == 8 ==> var st := BitString(a[..p], 0); st.Valid() && st.Clear() && st.Bits() == seen
  {
    hide BitsOf, OctetBits;
    if left == 8 {
      NextOctetBits(a, p);
      SameEnds(OctetBits(a[..p]), BitsOf(a[p], 8), seen, Zeros(8));
      assert seen[..|seen|] == seen;
    }
  }

  /** Chunks: however the text is cut, the bits are those of the whole. */
  method ConvertChunks(st: BitStringText, chunks: seq<string>) returns (ok: bool)
    requires st.Valid()
    modifies st
    ensures ok <==> forall i :: 0 <= i < |chunks| ==> BinaryText(chunks[i])
    ensures ok ==> st.Valid() && st.Bits() == old(st.Bits()) + TextBits(Concat(chunks))
  {
    hide TextBits, BinaryText, Concat, st.Bits, st.Valid;
    var i := 0;
    ghost var b := st.Bits();
    NoChunks(chunks[..0], b);
    while i < |chunks|
      invariant 0 <= i <= |chunks| && st.Valid() && forall k :: 0 <= k < i ==> BinaryText(chunks[k])
      invariant st.Bits() == b + TextBits(Concat(chunks[..i]))
    {
      var r := st.Convert(chunks[i]);
      if r < 0 {
        return false;
      }
      ConcatMore(chunks, i);
      TextBitsConcat(Concat(chunks[..i]), chunks[i]);
      Assoc(b, TextBits(Concat(chunks[..i])), TextBits(chunks[i]));
      i := i + 1;
    }
    assert chunks[..i] == chunks;
    ok := true;
  }

  lemma NoChunks(none: seq<string>, b: seq<bool>)
    requires none == []
    ensures b + TextBits(Concat(none)) == b
  {
  }

  /** Bits say all about a bit string that is clear behind them. */
  lemma SameBits(x: BitString, y: BitString)
    requires x.Valid() && y.Valid() && x.Clear() && y.Clear() && x.Bits() == y.Bits()
    ensures x == y
  {
    hide BitsOf, OctetBits;
    assert OctetBits(x.buf) == x.Bits() + Zeros(x.unused);
    assert OctetBits(y.buf) == y.Bits() + Zeros(y.unused);
    OctetBitsInjective(x.buf, y.buf);
  }

  /** A bit string comes back from its text, canonical or indented, with its unused bits cleared. */
  method EncodedBack(st: BitString, canonical: bool, ilevel: int) returns (into: BitStringText, r: int)
    requires st.Valid()
    ensures r >= 0 && into.Valid() && into.Bits() == st.Bits()
    ensures st.Clear() ==> BitString(into.buf, into.unused) == st
  {
    hide BitsOf, OctetBits, TextBits, BinaryText;
    var text := EncodeBits(st, canonical, ilevel);
    into := new BitStringText();
    r := into.Convert(text);
    assert [] + TextBits(text) == TextBits(text);
    if st.Clear() {
      SameBits(BitString(into.buf, into.unused), st);
    }
  }

  predicate HexText(t: string) {
    forall i :: 0 <= i < |t| ==> IsGap(t[i]) || IsHexDigit(t[i])
  }

  type Nibble = x: int | 0 <= x < 16

  /** The hexadecimal digits of a text, white space aside. */
  function Nibbles(t: string): (n: seq<Nibble>)
    ensures |n| <= |t|
  {
    if t == "" then []
    else
      var front, c := Nibbles(t[..|t| - 1]), t[|t| - 1];
      if IsHexDigit(c) then front + [HexValue(c)] else front
  }

  /** Octets of two digits each; the last one stands alone if their number is odd. */
  function Paired(n: seq<Nibble>): (s: seq<Octet>)
    ensures |s| == (|n| + 1) / 2
  {
    if |n| == 0 then []
    else if |n| == 1 then [HexOctet(n[0], 0)]
    else [HexOctet(n[0], n[1])] + Paired(n[2..])
  }

  function HexOctet(high: Nibble, low: Nibble): Octet {
    high as int * 16 + low as int
  }

  lemma {:induction false} NibblesConcat(s: string, t: string)
    ensures Nibbles(s + t) == Nibbles(s) + Nibbles(t)
  {
    if t == "" {
      assert s + t == s;
    } else {
      var k := |t| - 1;
      NibblesConcat(s, t[..k]);
      assert (s + t)[..|s| + k] == s + t[..k];
    }
  }

  lemma NextNibble(chunk: string, at: nat)
    requires at < |chunk|
    ensures Nibbles(chunk[..at + 1]) == Nibbles(chunk[..at]) + if IsHexDigit(chunk[at]) then [HexValue(chunk[at])] else []
    ensures HexText(chunk[..at + 1]) <==> HexText(chunk[..at]) && (IsGap(chunk[at]) || IsHexDigit(chunk[at]))
  {
    var t := chunk[..at + 1];
    assert t[..at] == chunk[..at] && t[at] == chunk[at];
    if HexText(t) {
      assert forall i :: 0 <= i < at ==> chunk[..at][i] == t[i];
    }
  }

  lemma NotHexText(chunk: string, at: nat)
    requires at < |chunk| && !IsGap(chunk[at]) && !IsHexDigit(chunk[at])
    ensures !HexText(chunk)
  {
  }

  lemma {:induction false} PairedConcat(n: seq<Nibble>, m: seq<Nibble>)
    requires |n| % 2 == 0
    ensures Paired(n + m) == Paired(n) + Paired(m)
  {
    if n == [] {
      assert n + m == m;
    } else {
      PairedConcat(n[2..], m);
      assert (n + m)[2..] == n[2..] + m;
    }
  }

  lemma PairedMore(n: seq<Nibble>, high: Nibble, low: Nibble)
    requires |n| % 2 == 0
    ensures Paired(n + [high]) == Paired(n) + [HexOctet(high, 0)]
    ensures Paired(n + [high] + [low]) == Paired(n) + [HexOctet(high, low)]
  {
    hide Paired;
    PairOf(high, low);
    PairedConcat(n, [high]);
    PairedConcat(n, [high, low]);
    assert n + [high] + [low] == n + [high, low];
  }

  lemma PairOf(high: Nibble, low: Nibble)
    ensures Paired([high]) == [HexOctet(high, 0)] && Paired([high, low]) == [HexOctet(high, low)]
  {
    var two := [high, low];
    assert Paired(two[2..]) == [];
  }

  /**
   * OCTET_STRING__convert_hexadecimal: how many characters of the chunk are done with; -1 on a character that is
   * neither a digit nor white space. A digit left over is half an octet if `more` is set, and is otherwise not
   * done with.
   */
  method ConvertHex(contents: seq<Octet>, chunk: string, more: bool) returns (r: int, octets: seq<Octet>)
    ensures r >= -1 && (r == -1 <==> !HexText(chunk))
    ensures r == -1 ==> octets == contents
    ensures r >= 0 && (more || |Nibbles(chunk)| % 2 == 0) ==> r == |chunk| && octets == contents + Paired(Nibbles(chunk))
    ensures r >= 0 && !more && |Nibbles(chunk)| % 2 == 1 ==>
      && r < |chunk| && |Nibbles(chunk[..r])| == |Nibbles(chunk)| - 1
      && octets == contents + Paired(Nibbles(chunk[..r]))
  {
    hide Nibbles, HexText, Paired, IsHexDigit, HexValue, IsGap, HexOctet;
    var a := new Octet[|contents| + (|chunk| + 1) / 2 + 1](k requires 0 <= k => if k < |contents| then contents[k] else 0);
    var buf, stop, p, half := |contents|, 0, 0, false;
    var high: Nibble := 0;
    ghost var n: seq<Nibble> := [];
    NoNibbles(chunk[..0], contents);
    assert a[..buf] == contents;
    while p < |chunk|
      invariant 0 <= stop <= p <= |chunk| && HexText(chunk[..p]) && (half ==> stop < p)
      invariant |n| % 2 == 0 && |n| <= p && (half ==> |n| < p) && n == Nibbles(chunk[..stop])
      invariant Nibbles(chunk[..p]) == n + (if half then [high] else [])
      invariant buf == |contents| + |n| / 2 && a[..buf] == contents + Paired(n)
    {
      var ch := chunk[p];
      NextNibble(chunk, p);
      if IsHexDigit(ch) {
        if half {
          ghost var was := a[..buf];
          PairedMore(n, high, HexValue(ch));
          a[buf] := HexOctet(high, HexValue(ch));
          assert a[..buf + 1] == was + [HexOctet(high, HexValue(ch))];
          n := n + [high] + [HexValue(ch)];
          half, buf, stop := false, buf + 1, p + 1;
        } else {
          half, high := true, HexValue(ch);
        }
      } else if !IsGap(ch) {
        NotHexText(chunk, p);
        return -1, contents;
      }
      p := p + 1;
    }
    assert chunk[..p] == chunk;
    if half {
      PairedMore(n, high, 0);
      if more {
        ghost var was := a[..buf];
        a[buf] := HexOctet(high, 0);
        assert a[..buf + 1] == was + [HexOctet(high, 0)];
        assert was + [HexOctet(high, 0)] == contents + (Paired(n) + [HexOctet(high, 0)]);
        buf, stop := buf + 1, p;
      }
    } else {
      assert n + [] == n;
      stop := p;
    }
    return stop, a[..buf];
  }

  lemma NoNibbles(none: string, contents: seq<Octet>)
    requires none == ""
    ensures Nibbles(none) == [] && HexText(none) && contents == contents + Paired([])
  {
  }

  /** What is not done with is read again in front of the next chunk: the octets are those of the whole text. */
  lemma HexResumes(chunk: string, r: nat, next: string)
    requires r <= |chunk| && |Nibbles(chunk[..r])| % 2 == 0
    ensures Paired(Nibbles(chunk[..r])) + Paired(Nibbles(chunk[r..] + next)) == Paired(Nibbles(chunk + next))
  {
    hide Nibbles, Paired;
    NibblesConcat(chunk[..r], chunk[r..] + next);
    PairedConcat(Nibbles(chunk[..r]), Nibbles(chunk[r..] + next));
    assert chunk[..r] + (chunk[r..] + next) == chunk + next;
  }

  /**
   * Chunks of hexadecimal text: each call is given what the one before was not done with. However the text is cut, the
   * octets are those of the whole, and a digit left over at the very end is half of one more octet.
   */
  method ConvertHexChunks(contents: seq<Octet>, chunks: seq<string>) returns (ok: bool, octets: seq<Octet>)
    requires |chunks| > 0
    ensures ok <==> HexText(Concat(chunks))
    ensures ok ==> octets == contents + Paired(Nibbles(Concat(chunks)))
  {
    hide Nibbles, HexText, Paired, Concat;
    octets := contents;
    var kept, i, r := "", 0, 0;
    ghost var done := "";
    NoHexChunks(chunks[..0], contents);
    while i < |chunks| - 1
      invariant 0 <= i < |chunks| && HexText(Concat(chunks[..i])) && done + kept == Concat(chunks[..i])
      invariant |Nibbles(done)| % 2 == 0 && octets == contents + Paired(Nibbles(done))
    {
      ghost var text := kept + chunks[i];
      HexMore(chunks, i, done, kept);
      r, octets := ConvertHex(octets, kept + chunks[i], false);
      if r < 0 {
        return false, octets;
      }
      HexDone(contents, done, text, r);
      done := done + text[..r];
      kept := (kept + chunks[i])[r..];
      i := i + 1;
    }
    HexMore(chunks, i, done, kept);
    HexDone(contents, done, kept + chunks[i], |kept + chunks[i]|);
    assert chunks[..i + 1] == chunks;
    r, octets := ConvertHex(octets, kept + chunks[i], true);
    ok := r >= 0;
  }

  lemma NoHexChunks(none: seq<string>, contents: seq<Octet>)
    requires none == []
    ensures HexText(Concat(none)) && "" + "" == Concat(none) && Nibbles("") == []
    ensures contents == contents + Paired(Nibbles(""))
  {
  }

  /** The text up to the next chunk, with its front done. */
  lemma HexMore(chunks: seq<string>, i: nat, done: string, kept: string)
    requires i < |chunks| && done + kept == Concat(chunks[..i]) && HexText(Concat(chunks[..i]))
    ensures done + (kept + chunks[i]) == Concat(chunks[..i + 1])
    ensures HexText(kept + chunks[i]) <==> HexText(Concat(chunks[..i + 1]))
    ensures HexText(Concat(chunks)) ==> HexText(Concat(chunks[..i + 1]))
  {
    hide HexText, Concat;
    ConcatMore(chunks, i);
    TextAssoc(done, kept, chunks[i]);
    HexTextParts(done, kept);
    HexTextParts(done, kept + chunks[i]);
    ConcatFront(chunks, i + 1);
    HexTextFront(Concat(chunks[..i + 1]), Concat(chunks));
  }

  lemma HexTextFront(s: string, t: string)
    requires |s| <= |t| && s == t[..|s|]
    ensures HexText(t) ==> HexText(s)
  {
    assert t == s + t[|s|..];
    HexTextParts(s, t[|s|..]);
  }

  lemma HexTextParts(s: string, t: string)
    ensures HexText(s + t) <==> HexText(s) && HexText(t)
  {
    if HexText(s + t) {
      assert forall i :: 0 <= i < |s| ==> s[i] == (s + t)[i];
      assert forall i :: 0 <= i < |t| ==> t[i] == (s + t)[|s| + i];
    }
  }

  /** An even number of digits done, and more behind it. */
  lemma HexDone(contents: seq<Octet>, done: string, text: string, r: nat)
    requires r <= |text| && |Nibbles(done)| % 2 == 0
    ensures contents + Paired(Nibbles(done)) + Paired(Nibbles(text[..r])) == contents + Paired(Nibbles(done + text[..r]))
    ensures |Nibbles(done + text[..r])| == |Nibbles(done)| + |Nibbles(text[..r])|
    ensures r == |text| ==> text[..r] == text
    ensures done + text == done + text[..r] + text[r..]
  {
    hide Nibbles, Paired;
    NibblesConcat(done, text[..r]);
    PairedConcat(Nibbles(done), Nibbles(text[..r]));
  }

  /** Two digits for every octet. */
  function OctetNibbles(s: seq<Octet>): (n: seq<Nibble>)
    ensures |n| == 2 * |s|
  {
    if s == [] then [] else OctetNibbles(s[..|s| - 1]) + [s[|s| - 1] / 16, s[|s| - 1] % 16]
  }

  lemma {:induction false} PairedNibbles(s: seq<Octet>)
    ensures Paired(OctetNibbles(s)) == s
  {
    if s != [] {
      var front, o := s[..|s| - 1], s[|s| - 1];
      PairedNibbles(front);
      PairedMore(OctetNibbles(front), o / 16, o % 16);
      assert OctetNibbles(s) == OctetNibbles(front) + [o / 16] + [o % 16];
      assert s == front + [o];
    }
  }

  /** A text that spells the digits of some octets, and possibly white space. */
  predicate Spells(t: string, s: seq<Octet>) {
    HexText(t) && Nibbles(t) == OctetNibbles(s)
  }

  lemma MoreHex(t: string, s: seq<Octet>, k: nat, more: string)
    requires k < |s| && Spells(t, s[..k]) && more in {HexPair(s[k]), HexPair(s[k]) + " "}
    ensures Spells(t + more, s[..k + 1])
  {
    hide IsHexDigit, HexValue;
    var o := s[k];
    assert s[..k + 1][..k] == s[..k];
    NibblesConcat(t, more);
    TwoNibbles(HexPair(o));
    assert HexText(t + more);
  }

  lemma TwoNibbles(two: string)
    requires |two| == 2 && IsHexDigit(two[0]) && IsHexDigit(two[1])
    ensures Nibbles(two) == Nibbles(two + " ") == [HexValue(two[0]), HexValue(two[1])]
    ensures HexText(two) && HexText(two + " ")
  {
    assert two[..1][..0] == "" && Nibbles(two[..1]) == [HexValue(two[0])];
    assert (two + " ")[..2] == two;
  }

  lemma {:induction false} GapsInHex(t: string)
    requires forall i :: 0 <= i < |t| ==> IsSpace(t[i])
    ensures Nibbles(t) == []
  {
    if t != "" {
      GapsInHex(t[..|t| - 1]);
    }
  }

  lemma HexGap(t: string, gaps: string, s: seq<Octet>)
    requires Spells(t, s) && forall i :: 0 <= i < |gaps| ==> IsSpace(gaps[i])
    ensures Spells(t + gaps, s)
  {
    NibblesConcat(t, gaps);
    GapsInHex(gaps);
    assert Nibbles(t) + [] == Nibbles(t);
  }

  /** The digits of h2c. */
  const HEX_DIGITS := "0123456789ABCDEF"

  /** Nothing but two digits for every octet, the higher one first. */
  predicate IsPlainHex(t: string, s: seq<Octet>) {
    && |t| == 2 * |s|
    && (forall k :: 0 <= k < |s| ==> t[2 * k] == HEX_DIGITS[s[k] / 16] && t[2 * k + 1] == HEX_DIGITS[s[k] % 16])
  }

  lemma PairsAreDigits(o: Octet)
    ensures HexPair(o) == [HEX_DIGITS[o / 16], HEX_DIGITS[o % 16]]
  {
    HexDigitsAre(o / 16);
    HexDigitsAre(o % 16);
  }

  lemma MorePlainHex(t: string, s: seq<Octet>, k: nat)
    requires k < |s| && IsPlainHex(t, s[..k])
    ensures IsPlainHex(t + HexPair(s[k]), s[..k + 1])
  {
    PairsAreDigits(s[k]);
    hide HexPair;
    assert forall i :: 0 <= i < k ==> s[..k + 1][i] == s[..k][i];
  }

  lemma {:induction false} PlainHexSpells(t: string, s: seq<Octet>)
    requires IsPlainHex(t, s)
    ensures Spells(t, s)
    decreases |s|
  {
    hide HexPair, Spells, HEX_DIGITS;
    if s == [] {
      NothingInHex(s);
      assert t == "" + "";
    } else {
      var k := |s| - 1;
      var front := t[..2 * k];
      assert IsPlainHex(front, s[..k]);
      PlainHexSpells(front, s[..k]);
      PairsAreDigits(s[k]);
      assert t == front + HexPair(s[k]);
      MoreHex(front, s, k, HexPair(s[k]));
      assert s[..k + 1] == s;
    }
  }

  /** The first k octets, with a space between any two and, of more than sixteen, a break before each sixteenth. */
  function HexLines(s: seq<Octet>, ilevel: int, k: nat): string
    requires k <= |s|
  {
    if k == 0 then "" else
    HexLines(s, ilevel, k - 1) + (if k > 1 then " " else "")
    + (if (k - 1) % 16 == 0 && |s| > 16 then Indent(ilevel) else "") + HexPair(s[k - 1])
  }

  /** All octets, and a last break if there were any. */
  function LinesOfSixteen(s: seq<Octet>, ilevel: int): string {
    HexLines(s, ilevel, |s|) + if |s| > 16 then Indent(ilevel - 1) else ""
  }

  lemma {:induction false} HexLinesSpell(s: seq<Octet>, ilevel: int, k: nat)
    requires k <= |s|
    ensures Spells(HexLines(s, ilevel, k), s[..k])
  {
    hide HexPair, Spells, Indent;
    if k == 0 {
      NothingInHex(s[..0]);
      assert HexLines(s, ilevel, 0) == "" + "";
    } else {
      HexLinesSpell(s, ilevel, k - 1);
      var front := HexLines(s, ilevel, k - 1);
      var space := if k > 1 then " " else "";
      var gap := if (k - 1) % 16 == 0 && |s| > 16 then Indent(ilevel) else "";
      HexGap(front, space, s[..k - 1]);
      HexGap(front + space, gap, s[..k - 1]);
      MoreHex(front + space + gap, s, k - 1, HexPair(s[k - 1]));
    }
  }

  lemma LinesSpell(s: seq<Octet>, ilevel: int)
    ensures Spells(LinesOfSixteen(s, ilevel), s)
  {
    hide HexPair, Spells, Indent, HexLines;
    HexLinesSpell(s, ilevel, |s|);
    assert s[..|s|] == s;
    HexGap(HexLines(s, ilevel, |s|), if |s| > 16 then Indent(ilevel - 1) else "", s);
  }

  /** OCTET_STRING_encode_xer: two digits for every octet, in lines of sixteen if the form is not canonical. */
  method EncodeHex(contents: seq<Octet>, canonical: bool, ilevel: int) returns (text: string)
    ensures canonical ==> IsPlainHex(text, contents)
    ensures !canonical ==> text == LinesOfSixteen(contents, ilevel)
    ensures Spells(text, contents)
  {
    hide Spells, IsPlainHex, LinesOfSixteen;
    if canonical {
      text := EncodeHexPlain(contents);
      PlainHexSpells(text, contents);
    } else {
      text := EncodeHexLines(contents, ilevel);
      LinesSpell(contents, ilevel);
    }
  }

  /** Through a scratch area of 52 characters. */
  method EncodeHexPlain(contents: seq<Octet>) returns (text: string)
    ensures IsPlainHex(text, contents)
  {
    hide HexPair, IsPlainHex;
    text := "";
    var scratch, buf := "", 0;
    NoPlainHex(contents[..0]);
    while buf < |contents|
      invariant 0 <= buf <= |contents| && |scratch| <= 51 && IsPlainHex(text + scratch, contents[..buf])
    {
      if |scratch| >= 50 {
        text := text + scratch;
        scratch := "";
        assert text + scratch == text;
      }
      MorePlainHex(text + scratch, contents, buf);
      TextAssoc(text, scratch, HexPair(contents[buf]));
      scratch := scratch + HexPair(contents[buf]);
      buf := buf + 1;
    }
    assert contents[..buf] == contents;
    text := text + scratch;
  }

  lemma NoPlainHex(none: seq<Octet>)
    requires none == []
    ensures IsPlainHex("" + "", none)
  {
  }

  /** A line break in front of every sixteen octets if there are more than sixteen, and no space at the very end. */
  method EncodeHexLines(contents: seq<Octet>, ilevel: int) returns (text: string)
    ensures text == LinesOfSixteen(contents, ilevel)
  {
    hide HexPair, Indent, HexLines;
    text := "";
    var scratch, i: nat := "", 0;
    ghost var lines: nat, inLine: nat := 0, 0;
    NoHexLines(contents, ilevel);
    while i < |contents|
      invariant 0 <= i <= |contents|
      invariant text + scratch == HexLines(contents, ilevel, i) + if i > 0 then " " else ""
      invariant i == 16 * lines + inLine && inLine <= 16 && (i > 0 ==> inLine > 0)
      invariant |scratch| == 3 * inLine && (i > 0 ==> scratch[|scratch| - 1] == ' ')
    {
      ghost var gap := "";
      if i % 16 == 0 && (i > 0 || |contents| > 16) {
        gap := Indent(ilevel);
        text := text + scratch + Indent(ilevel);
        scratch := "";
        lines, inLine := i / 16, 0;
      }
      assert text + scratch == HexLines(contents, ilevel, i) + (if i > 0 then " " else "") + gap;
      var piece := HexPair(contents[i]) + " ";
      NextHexLines(contents, ilevel, i, gap);
      TextAssoc(text, scratch, piece);
      scratch := scratch + piece;
      i, inLine := i + 1, inLine + 1;
    }
    if scratch != "" {
      ghost var all := text + scratch;
      text := text + scratch[..|scratch| - 1];
      assert text == all[..|all| - 1] == HexLines(contents, ilevel, i);
      if |contents| > 16 {
        text := text + Indent(ilevel - 1);
      }
    }
  }

  lemma NoHexLines(s: seq<Octet>, ilevel: int)
    ensures HexLines(s, ilevel, 0) == ""
  {
  }

  lemma NextHexLines(s: seq<Octet>, ilevel: int, k: nat, gap: string)
    requires k < |s| && gap == if k % 16 == 0 && |s| > 16 then Indent(ilevel) else ""
    ensures HexLines(s, ilevel, k) + (if k > 0 then " " else "") + gap + (HexPair(s[k]) + " ")
         == HexLines(s, ilevel, k + 1) + " "
  {
    hide HexPair, Indent;
  }

  lemma TextAssoc(a: string, b: string, c: string)
    ensures a + b + c == a + (b + c)
  {
  }

  lemma NothingInHex(none: seq<Octet>)
    requires none == []
    ensures Spells("" + "", none)
  {
  }

  /** Octets come back from their text, canonical or indented, whatever more may be said to follow. */
  method HexBack(contents: seq<Octet>, canonical: bool, ilevel: int, more: bool) returns (octets: seq<Octet>)
    ensures octets == contents
  {
    hide Nibbles, HexText, Paired, OctetNibbles;
    var text := EncodeHex(contents, canonical, ilevel);
    PairedNibbles(contents);
    var r;
    r, octets := ConvertHex([], text, more);
    assert [] + contents == contents;
  }

  /** A break is a line end and four spaces for every level above 0. */
  lemma IndentIs(level: int)
    ensures var t := Indent(level);
            && |t| == 1 + 4 * (if level > 0 then level else 0) && t[0] == 10 as char
            && forall i :: 1 <= i < |t| ==> t[i] == 32 as char
  {
  }

  /** How long the lines of eight octets are: eight digits for every octet, and a break for every eight begun. */
  lemma {:induction false} BitLinesSize(buf: seq<Octet>, ilevel: int, k: nat)
    requires k <= |buf|
    ensures |BitLines(buf, ilevel, k)| == 8 * k + (k + 7) / 8 * |Indent(ilevel)|
  {
    hide BitsOf, BitChars, Indent;
    if k > 0 {
      BitLinesSize(buf, ilevel, k - 1);
      NextPlain(buf, k - 1, k - 1);
      BreaksBefore(k, 8, |Indent(ilevel)|);
    }
  }

  lemma BreaksBefore(k: nat, n: nat, size: nat)
    requires k > 0 && n in {8, 16}
    ensures (k + n - 1) / n * size == (k + n - 2) / n * size + if (k - 1) % n == 0 then size else 0
  {
    var q := (k + n - 2) / n;
    assert (k + n - 1) / n == q + if (k - 1) % n == 0 then 1 else 0;
    assert (q + 1) * size == q * size + size;
  }

  /** How many characters stand in front of the digits of the k-th octet. */
  function HexOffset(s: seq<Octet>, ilevel: int, k: nat): nat {
    3 * k + if |s| > 16 then (k + 16) / 16 * |Indent(ilevel)| else 0
  }

  lemma {:induction false} HexLinesSize(s: seq<Octet>, ilevel: int, k: nat)
    requires k < |s|
    ensures |HexLines(s, ilevel, k + 1)| == HexOffset(s, ilevel, k) + 2
  {
    hide HexPair, Indent;
    if k > 0 {
      HexLinesSize(s, ilevel, k - 1);
    } else {
      NoHexLines(s, ilevel);
    }
    BreaksBefore(k + 1, 16, |Indent(ilevel)|);
  }

  lemma {:induction false} HexLinesFront(s: seq<Octet>, ilevel: int, k: nat, n: nat)
    requires k <= n <= |s|
    ensures HexLines(s, ilevel, k) <= HexLines(s, ilevel, n)
    decreases n
  {
    hide HexPair, Indent;
    if k < n {
      HexLinesFront(s, ilevel, k, n - 1);
    }
  }

  /** Every octet stands at its place in the lines, with one space or a space and a break in front of it. */
  lemma HexLinesPlace(s: seq<Octet>, ilevel: int, k: nat)
    requires k < |s|
    ensures var t, p, gap := LinesOfSixteen(s, ilevel), HexOffset(s, ilevel, k), |Indent(ilevel)|;
            && p + 2 <= |t| && t[p] == HEX_DIGITS[s[k] / 16] && t[p + 1] == HEX_DIGITS[s[k] % 16]
            && (|s| > 16 && k % 16 == 0 ==> p >= gap && t[p - gap..p] == Indent(ilevel))
            && (k % 16 != 0 || (0 < k && |s| <= 16) ==> p > 0 && t[p - 1] == ' ')
  {
    hide HexPair, Indent, HexOffset, HexLines;
    var t, gap := LinesOfSixteen(s, ilevel), if k % 16 == 0 && |s| > 16 then Indent(ilevel) else "";
    HexLinesSize(s, ilevel, k);
    HexLinesFront(s, ilevel, k + 1, |s|);
    NextHexLines(s, ilevel, k, gap);
    PairsAreDigits(s[k]);
    var front := HexLines(s, ilevel, k) + if k > 0 then " " else "";
    var here := HexLines(s, ilevel, k + 1);
    assert (here + " ")[..|here|] == here;
    assert (front + gap + (HexPair(s[k]) + " "))[..|here|] == front + gap + HexPair(s[k]);
    Behind(t, front, gap, HexPair(s[k]));
  }

  /** The parts of a text that begins with these. */
  lemma Behind(t: string, front: string, gap: string, pair: string)
    requires front + gap + pair <= t && |pair| == 2
    ensures var p := |front + gap|;
            p + 2 <= |t| && t[p] == pair[0] && t[p + 1] == pair[1] && t[|front|..p] == gap
    ensures gap == "" && front != "" ==> t[|front| - 1] == front[|front| - 1]
  {
    var head := front + gap + pair;
    assert forall i :: 0 <= i < |head| ==> t[i] == head[i];
  }

  /** The text of all octets, in lines, ends with the last digits or with a break one level up. */
  lemma LinesSize(s: seq<Octet>, ilevel: int)
    ensures |LinesOfSixteen(s, ilevel)|
         == if s == [] then 0 else HexOffset(s, ilevel, |s| - 1) + 2 + if |s| > 16 then |Indent(ilevel - 1)| else 0
  {
    hide HexPair, Indent;
    if s != [] {
      HexLinesSize(s, ilevel, |s| - 1);
    }
  }

  /** Texts as they stand in a document. */
  lemma LayoutExamples()
    ensures IsPlainHex("1234", [0x12, 0x34]) && LinesOfSixteen([0x12, 0x34], 1) == "12 34"
    ensures BitChars(OctetBits([0xA5])) == "10100101"
    ensures LinesOfEight(BitString([0xA5], 0), 1) == "\n    10100101\n" == WrittenLines(BitString([0xA5], 0), 1)
    ensures WrittenLines(BitString([0xA5, 0xC0], 6), 1) == "\n    1010010111\n"
    ensures WrittenLines(BitString([], 0), 1) == "\n    \n"
  {
    HexExample();
    BitsExample();
    LinesExample();
  }

  lemma HexExample()
    ensures IsPlainHex("1234", [0x12, 0x34]) && LinesOfSixteen([0x12, 0x34], 1) == "12 34"
  {
    var s: seq<Octet> := [0x12, 0x34];
    PairsAreDigits(0x12);
    PairsAreDigits(0x34);
    assert HexLines(s, 1, 1) == HexPair(0x12);
    assert HexLines(s, 1, 2) == HexPair(0x12) + " " + HexPair(0x34);
  }

  /** The patterns of half octets, the highest bit first. */
  lemma HalfBits(v: nat)
    requires v < 16
    ensures BitsOf(v, 4) == [v / 8 % 2 == 1, v / 4 % 2 == 1, v / 2 % 2 == 1, v % 2 == 1]
  {
    var a, b, c := v / 2, v / 4, v / 8;
    assert a / 2 == b && b / 2 == c;
    assert BitsOf(c, 1) == [c % 2 == 1];
    assert BitsOf(b, 2) == BitsOf(c, 1) + [b % 2 == 1];
    assert BitsOf(a, 3) == BitsOf(b, 2) + [a % 2 == 1];
    assert BitsOf(v, 4) == BitsOf(a, 3) + [v % 2 == 1];
  }

  lemma BitsExample()
    ensures BitsOf(0xC0, 8)[..2] == [true, true] && BitChars([true, true]) == "11"
    ensures BitChars(OctetBits([0xA5])) == BitChars(BitsOf(0xA5, 8)) == "10100101"
  {
    hide BitsOf, BitChars;
    HalfBits(0xA);
    HalfBits(5);
    HalfBits(0xC);
    Halves(0xA5);
    Halves(0xC0);
    OctetBitsOne(0xA5);
    SpelledOut(BitsOf(0xA5, 8), "10100101");
    SpelledOut([true, true], "11");
  }

  lemma SpelledOut(b: seq<bool>, t: string)
    requires |t| == |b| && forall k :: 0 <= k < |t| ==> t[k] == if b[k] then '1' else '0'
    ensures BitChars(b) == t
  {
    forall k | 0 <= k < |t|
      ensures BitChars(b)[k] == t[k]
    {
      BitCharAt(b, k);
    }
  }

  lemma LinesExample()
    ensures LinesOfEight(BitString([0xA5], 0), 1) == "\n    10100101\n" == WrittenLines(BitString([0xA5], 0), 1)
    ensures WrittenLines(BitString([0xA5, 0xC0], 6), 1) == "\n    1010010111\n"
    ensures WrittenLines(BitString([], 0), 1) == "\n    \n"
  {
    hide BitsOf, BitChars, OctetBits, BitLines, Indent;
    BitsExample();
    ShortIndents();
    assert BitsOf(0xA5, 8)[..8 - 0] == BitsOf(0xA5, 8);
    NoOctetsYet([0xA5], 0, 1);
    NoOctetsYet([0xA5, 0xC0], 0, 1);
    NoOctetsYet([], 0, 1);
    FirstLine([0xA5, 0xC0], 1);
    assert "\n    " + "10100101" + "" + ("11" + "\n") == "\n    1010010111\n";
    assert "" + "\n    " + ("10100101" + "\n") == "\n    10100101\n";
  }

  lemma ShortIndents()
    ensures Indent(1) == "\n    " && Indent(0) == "\n"
  {
  }

  lemma FirstLine(buf: seq<Octet>, ilevel: int)
    requires buf != []
    ensures BitLines(buf, ilevel, 1) == Indent(ilevel) + BitChars(BitsOf(buf[0], 8))
  {
    hide BitsOf, BitChars, Indent;
    assert BitLines(buf, ilevel, 0) == "";
  }

  /** Nine octets: the break for the ninth stands in front of the first. */
  lemma OvertakenExample()
    ensures var st := BitString(Repeated(0, 9), 0);
            && st.Valid() && BeginsLine(st) && WrittenLines(st, 1)[..10] == "\n    \n    "
            && WrittenLines(st, 1) != LinesOfEight(st, 1)
  {
    hide BitsOf, BitChars, OctetBits, LastLine;
    var st := BitString(Repeated(0, 9), 0);
    WrittenExact(st, 1);
    assert Indent(1) == "\n    ";
    assert BitLines(st.buf, 1, 0) == "";
    assert WrittenLines(st, 1) == "" + Indent(1) + Indent(1) + BitChars(OctetBits(st.buf[0..8])) + LastLine(st, 1);
  }

  /** The white space between digits, in code points. */
  lemma GapsAre(c: char)
    ensures IsGap(c) <==> c as int in {0x09, 0x0A, 0x0C, 0x0D, 0x20}
    ensures IsBinary(c) <==> c as int in {0x30, 0x31}
  {
  }

  /** A digit left over is the high half of one more octet. */
  lemma PairedExamples()
    ensures TextBits("1 0") == [true, false] && Nibbles("1 f") == [1, 15]
    ensures Paired([1, 15]) == [0x1F] && Paired([1, 15, 10]) == [0x1F, 0xA0]
  {
    assert "1 0"[..2] == "1 " && "1 "[..1] == "1" && "1"[..0] == "";
    assert TextBits("1") == [true] && TextBits("1 ") == [true];
    assert "1 f"[..2] == "1 ";
    assert Nibbles("1") == [1] && Nibbles("1 ") == [1];
    assert [1 as Nibble, 15 as Nibble][2..] == [] && [1 as Nibble, 15 as Nibble, 10 as Nibble][2..] == [10 as Nibble];
  }
}
