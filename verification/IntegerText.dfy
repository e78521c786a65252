/** INTEGER as text: INTEGER__dump and INTEGER__xer_body_decode of INTEGER.c. */
module IntegerText {
  import opened Octets
  import opened Words
  import opened Integer
  import opened Text
  import opened Decimal
  import opened Enumeration

  predicate IsHexLetter(c: char) {
    'A' <= c <= 'F' || 'a' <= c <= 'f'
  }

  predicate IsHexDigit(c: char) {
    IsDigit(c) || IsHexLetter(c)
  }

  function HexValue(c: char): (v: nat)
    requires IsHexDigit(c)
    ensures v < 16
  {
    if IsDigit(c) then Digit(c)
    else if c < 'a' then c as int - 'A' as int + 10
    else c as int - 'a' as int + 10
  }

  predicate IsSign(c: char) {
    c == '-' || c == '+'
  }

  /** Where the digits of a number at a start: behind a sign, if there is one. */
  function DigitsStart(s: string, a: nat): nat {
    if a < |s| && IsSign(s[a]) then a + 1 else a
  }

  /** White space, an optional sign, one or more decimal digits, white space. */
  predicate DecimalForm(s: string) {
    var b := DigitsStart(s, SpacesEnd(s, 0));
    b < |s| && IsDigit(s[b]) && AllSpace(s, DigitsEnd(s, b), |s|)
  }

  /** The sign and the digits. */
  function DecimalPart(s: string): (t: string)
    requires DecimalForm(s)
    ensures t != ""
  {
    var a := SpacesEnd(s, 0);
    s[a..DigitsEnd(s, DigitsStart(s, a))]
  }

  /** From a on, pairs of hexadecimal digits that spell the octets; colons behind the first m of them. */
  predicate Pairs(s: string, a: nat, octets: seq<Octet>, m: nat) {
    && (forall k :: 0 <= k < |octets| ==>
          && a + 3 * k + 1 < |s| && IsHexDigit(s[a + 3 * k]) && IsHexDigit(s[a + 3 * k + 1])
          && octets[k] == 16 * HexValue(s[a + 3 * k]) + HexValue(s[a + 3 * k + 1]))
    && (forall k :: 0 <= k < m ==> a + 3 * k + 2 < |s| && s[a + 3 * k + 2] == ':')
  }

  /** White space, one or more octets in hexadecimal with colons between them, white space. */
  predicate HexForm(s: string, octets: seq<Octet>) {
    var a, n := SpacesEnd(s, 0), |octets|;
    n > 0 && a + 3 * n - 1 <= |s| && Pairs(s, a, octets, n - 1) && AllSpace(s, a + 3 * n - 1, |s|)
  }

  lemma HexFormUnique(s: string, x: seq<Octet>, y: seq<Octet>)
    requires HexForm(s, x) && HexForm(s, y)
    ensures x == y
  {
    HexFormNotShorter(s, x, y);
    HexFormNotShorter(s, y, x);
  }

  lemma HexFormNotShorter(s: string, x: seq<Octet>, y: seq<Octet>)
    requires HexForm(s, x) && HexForm(s, y)
    ensures |x| >= |y|
  {
    ColonBehind(s, SpacesEnd(s, 0), y, |y| - 1, |x| - 1);
    SpaceBehind(s, x);
  }

  lemma ColonBehind(s: string, a: nat, octets: seq<Octet>, m: nat, k: nat)
    requires Pairs(s, a, octets, m)
    ensures k < m ==> a + 3 * k + 2 < |s| && s[a + 3 * (k + 1) - 1] == ':'
  {
  }

  lemma SpaceBehind(s: string, x: seq<Octet>)
    requires HexForm(s, x)
    ensures var p := SpacesEnd(s, 0) + 3 * |x| - 1; p < |s| ==> IsSpace(s[p])
  {
  }

  /** A tag with the name of an enumerated value, as the decoder looks for it: the name from the second character on. */
  predicate EnumForm(specs: Specs, s: string, k: nat) {
    Tagged(s) && k < |specs.value2enum| && Tells(s, specs.value2enum[k].name)
  }

  predicate Tagged(s: string) {
    var a := SpacesEnd(s, 0);
    a < |s| && s[a] == '<'
  }

  lemma OnlyOne(specs: Specs, s: string, i: nat, j: nat)
    requires specs.Valid() && EnumForm(specs, s, i) && EnumForm(specs, s, j)
    ensures i == j
  {
    TellsOne(specs, s, i, j);
  }

  datatype State =
    | LeadSpace | SkipSpHex | WaitDigits | Digits | DigitsTrailSpace
    | HexDigit1 | HexDigit2 | HexDigitsTrailSpace | HexColon

  /** What the parser does at a character; Stop is the state of unexpected characters. */
  datatype Action =
    | Goto(state: State)
    | Mark(state: State)   // and the number starts here
    | EndDigits            // trailing space, and the digits end here
    | High                 // first digit of an octet
    | Low                  // second digit of an octet
    | Restart              // re-evaluate as hex form
    | Lookup               // a tag, which may tell an enumerated value
    | Broken
    | Stop

  /** The two nested switches. */
  function Next(state: State, c: char): Action {
    if IsSpace(c) then
      match state
      case LeadSpace => Goto(state)
      case DigitsTrailSpace => Goto(state)
      case HexDigitsTrailSpace => Goto(state)
      case SkipSpHex => Goto(state)
      case Digits => EndDigits
      case HexColon => Goto(HexDigitsTrailSpace)
      case _ => Stop
    else if IsSign(c) then
      if state == LeadSpace then Mark(WaitDigits) else Stop
    else if IsDigit(c) then
      match state
      case Digits => Goto(Digits)
      case SkipSpHex => High
      case HexDigit1 => High
      case HexDigit2 => Low
      case HexColon => Broken
      case LeadSpace => Mark(Digits)
      case WaitDigits => Goto(Digits)
      case _ => Stop
    else if c == '<' then
      if state == LeadSpace then Lookup else Broken
    else if c == ':' then
      if state == HexColon then Goto(HexDigit1) else if state == Digits then Restart else Stop
    else if IsHexLetter(c) then
      match state
      case SkipSpHex => High
      case LeadSpace => High
      case HexDigit1 => High
      case HexDigit2 => Low
      case Digits => Restart
      case _ => Stop
    else
      Stop
  }

  /** States in which the text may still turn out decimal. */
  predicate MayBeDecimal(state: State) {
    state in {LeadSpace, WaitDigits, Digits, DigitsTrailSpace}
  }

  /**
   * What has been read when the parser stands at lp: `from` is where the number starts, `end` where its digits end,
   * `octets` what is in the buffer, and `high` the first digit of the next octet.
   */
  predicate ReadUpTo(s: string, state: State, lp: nat, from: nat, end: nat, octets: seq<Octet>, high: nat) {
    var n := |octets|;
    && lp <= |s|
    && (MayBeDecimal(state) ==> octets == [])
    && (!MayBeDecimal(state) ==> !DecimalForm(s))
    && (state != LeadSpace ==> !Tagged(s))
    && (state !in {LeadSpace, SkipSpHex} ==> from < lp && AllSpace(s, 0, from) && !IsSpace(s[from]))
    && match state
       case LeadSpace => AllSpace(s, 0, lp)
       case SkipSpHex => AllSpace(s, 0, lp) && octets == [] && !AllSpace(s, 0, |s|)
       case WaitDigits => IsSign(s[from]) && lp == from + 1
       case Digits => DigitsStart(s, from) < lp && AllDigits(s, DigitsStart(s, from), lp)
       case DigitsTrailSpace =>
         && DigitsStart(s, from) < end < lp && AllDigits(s, DigitsStart(s, from), end) && AllSpace(s, end, lp)
       case HexDigit1 => n > 0 && lp == from + 3 * n && Pairs(s, from, octets, n)
       case HexDigit2 =>
         && lp == from + 3 * n + 1 && Pairs(s, from, octets, n)
         && IsHexDigit(s[lp - 1]) && high == 16 * HexValue(s[lp - 1])
       case HexColon => n > 0 && lp == from + 3 * n - 1 && Pairs(s, from, octets, n - 1)
       case HexDigitsTrailSpace =>
         && n > 0 && from + 3 * n - 1 < lp && Pairs(s, from, octets, n - 1) && AllSpace(s, from + 3 * n - 1, lp)
  }

  /** Digits followed by neither a digit nor white space: not decimal. */
  lemma NotDecimalHere(s: string, from: nat, lp: nat)
    requires from < lp < |s| && AllSpace(s, 0, from) && !IsSpace(s[from])
    requires DigitsStart(s, from) <= lp && AllDigits(s, DigitsStart(s, from), lp)
    requires !IsDigit(s[lp]) && !IsSpace(s[lp])
    ensures !DecimalForm(s)
  {
    SpacesRun(s, 0, from);
    RunIsMaximal(s, DigitsStart(s, from), lp);
  }

  /** One more octet. */
  lemma MorePairs(s: string, from: nat, octets: seq<Octet>, high: nat, lp: nat)
    requires Pairs(s, from, octets, |octets|) && lp == from + 3 * |octets| + 1 && lp < |s|
    requires IsHexDigit(s[lp - 1]) && high == 16 * HexValue(s[lp - 1]) && IsHexDigit(s[lp])
    ensures high + HexValue(s[lp]) < 256
    ensures Pairs(s, from, octets + [high + HexValue(s[lp])], |octets|)
  {
  }

  lemma MoreColons(s: string, from: nat, octets: seq<Octet>, lp: nat)
    requires |octets| > 0 && Pairs(s, from, octets, |octets| - 1) && lp == from + 3 * |octets| - 1
    requires lp < |s| && s[lp] == ':'
    ensures Pairs(s, from, octets, |octets|)
  {
  }

  lemma HexStart(s: string, from: nat)
    requires from < |s| && AllSpace(s, 0, from) && IsHexLetter(s[from])
    ensures !DecimalForm(s)
  {
    SpacesRun(s, 0, from);
  }

  lemma NoPairs(s: string, from: nat)
    ensures Pairs(s, from, [], 0)
  {
  }

  /** A character that the decimal form does not have in its place. */
  lemma NotDecimal(s: string, state: State, lp: nat, from: nat, end: nat, octets: seq<Octet>, high: nat)
    requires ReadUpTo(s, state, lp, from, end, octets, high) && lp < |s| && Next(state, s[lp]) in {Lookup, Broken, Stop}
    ensures !DecimalForm(s)
  {
    match state
    case LeadSpace => SpacesRun(s, 0, lp);
    case WaitDigits => SpacesRun(s, 0, from);
    case Digits => NotDecimalHere(s, from, lp);
    case DigitsTrailSpace =>
      SpacesRun(s, 0, from);
      RunIsMaximal(s, DigitsStart(s, from), end);
    case _ =>
  }

  /** Whatever stands behind the first pairs and colons is a further pair or white space. */
  lemma HexContinues(s: string, x: seq<Octet>, octets: seq<Octet>)
    requires HexForm(s, x) && Pairs(s, SpacesEnd(s, 0), octets, |octets|)
    ensures var p := SpacesEnd(s, 0) + 3 * |octets|;
            |x| > |octets| && p + 1 < |s| && IsHexDigit(s[p]) && IsHexDigit(s[p + 1])
  {
    assert |x| > 0;
    hide HexForm, Pairs;
    ColonBehind(s, SpacesEnd(s, 0), octets, |octets|, |x| - 1);
    SpaceBehind(s, x);
    if |x| > |octets| {
      PairAt(s, x, |octets|);
    }
  }

  lemma HexEnds(s: string, x: seq<Octet>, octets: seq<Octet>)
    requires |octets| > 0 && HexForm(s, x) && Pairs(s, SpacesEnd(s, 0), octets, |octets| - 1)
    ensures |x| >= |octets|
  {
    ColonBehind(s, SpacesEnd(s, 0), octets, |octets| - 1, |x| - 1);
    SpaceBehind(s, x);
  }

  lemma PairAt(s: string, x: seq<Octet>, k: nat)
    requires HexForm(s, x) && k < |x|
    ensures var p := SpacesEnd(s, 0) + 3 * k; p + 1 < |s| && IsHexDigit(s[p]) && IsHexDigit(s[p + 1])
  {
  }

  lemma AfterPairs(s: string, x: seq<Octet>, n: nat)
    requires HexForm(s, x) && n > 0
    ensures var p := SpacesEnd(s, 0) + 3 * n - 1;
            && (|x| > n ==> p < |s| && s[p] == ':')
            && (|x| == n ==> p <= |s| && AllSpace(s, p, |s|))
  {
    ColonBehind(s, SpacesEnd(s, 0), x, |x| - 1, n - 1);
  }

  /** Every character of the form. */
  lemma HexChars(s: string, x: seq<Octet>, p: nat)
    requires HexForm(s, x) && SpacesEnd(s, 0) <= p < |s|
    ensures IsHexDigit(s[p]) || s[p] == ':' || IsSpace(s[p])
  {
    assert |x| > 0;
    hide HexForm, Pairs, IsHexDigit, IsSpace;
    var k := (p - SpacesEnd(s, 0)) / 3;
    if k < |x| {
      PairAt(s, x, k);
      AfterPairs(s, x, k + 1);
    } else {
      AfterPairs(s, x, |x|);
    }
  }

  /** The characters a state does not expect. */
  lemma Unexpected(state: State, c: char)
    requires Next(state, c) in {Lookup, Broken, Stop}
    ensures state in {LeadSpace, SkipSpHex, HexDigit1, HexDigit2, Digits} ==> !IsHexDigit(c)
    ensures state in {Digits, HexColon} ==> c != ':'
    ensures state in {LeadSpace, SkipSpHex, Digits, DigitsTrailSpace, HexColon, HexDigitsTrailSpace} ==> !IsSpace(c)
  {
  }

  /** A character that the hexadecimal form does not have in its place. */
  lemma NotHex(s: string, state: State, lp: nat, from: nat, end: nat, octets: seq<Octet>, high: nat, x: seq<Octet>)
    requires ReadUpTo(s, state, lp, from, end, octets, high) && lp < |s| && Next(state, s[lp]) in {Lookup, Broken, Stop}
    ensures !HexForm(s, x)
  {
    Unexpected(state, s[lp]);
    hide Next, HexForm, DecimalForm, Tagged;
    if HexForm(s, x) {
      SpacesRun(s, 0, if state in {LeadSpace, SkipSpHex} then lp else from);
      PairAt(s, x, 0);
      match state
      case LeadSpace =>
      case SkipSpHex =>
      case WaitDigits =>
      case Digits => HexChars(s, x, lp);
      case DigitsTrailSpace => NotHexBehindDigits(s, lp, from, end, x);
      case HexDigit1 => HexContinues(s, x, octets);
      case HexDigit2 => HexContinues(s, x, octets);
      case HexColon => NotHexBehindPairs(s, lp, octets, x);
      case HexDigitsTrailSpace => NotHexBehindPairs(s, lp, octets, x);
    }
  }

  lemma NotHexBehindPairs(s: string, lp: nat, octets: seq<Octet>, x: seq<Octet>)
    requires |octets| > 0 && Pairs(s, SpacesEnd(s, 0), octets, |octets| - 1)
    requires var p := SpacesEnd(s, 0) + 3 * |octets| - 1;
             p <= lp < |s| && AllSpace(s, p, lp) && !IsSpace(s[lp]) && s[p] != ':'
    ensures !HexForm(s, x)
  {
    hide HexForm, Pairs;
    if HexForm(s, x) {
      HexEnds(s, x, octets);
      AfterPairs(s, x, |octets|);
    }
  }

  lemma NotHexBehindDigits(s: string, lp: nat, from: nat, end: nat, x: seq<Octet>)
    requires from < end < lp < |s| && from == SpacesEnd(s, 0) && !IsSpace(s[lp])
    requires DigitsStart(s, from) < end && AllDigits(s, DigitsStart(s, from), end) && AllSpace(s, end, lp)
    ensures !HexForm(s, x)
  {
    if HexForm(s, x) {
      PairAt(s, x, 0);
      ColonBehind(s, from, x, |x| - 1, 0);
    }
  }

  /** Each action keeps what is known of the text read. */
  lemma GotoKeeps(s: string, state: State, lp: nat, from: nat, end: nat, octets: seq<Octet>, high: nat)
    requires ReadUpTo(s, state, lp, from, end, octets, high) && lp < |s| && Next(state, s[lp]).Goto?
    ensures ReadUpTo(s, Next(state, s[lp]).state, lp + 1, from, end, octets, high)
  {
    hide DecimalForm;
    if state == HexColon && s[lp] == ':' {
      MoreColons(s, from, octets, lp);
    }
  }

  lemma MarkKeeps(s: string, state: State, lp: nat, end: nat, octets: seq<Octet>, high: nat)
    requires ReadUpTo(s, state, lp, lp, end, octets, high) && lp < |s| && Next(state, s[lp]).Mark?
    ensures ReadUpTo(s, Next(state, s[lp]).state, lp + 1, lp, end, octets, high)
  {
    hide DecimalForm;
    SpacesRun(s, 0, lp);
  }

  lemma EndDigitsKeeps(s: string, state: State, lp: nat, from: nat, end: nat, octets: seq<Octet>, high: nat)
    requires ReadUpTo(s, state, lp, from, end, octets, high) && lp < |s| && Next(state, s[lp]).EndDigits?
    ensures ReadUpTo(s, DigitsTrailSpace, lp + 1, from, lp, octets, high)
  {
    hide DecimalForm;
  }

  /** From is where the octets start: here, if this is the first digit of the first one. */
  lemma HighKeeps(s: string, state: State, lp: nat, from: nat, end: nat, octets: seq<Octet>, high: nat)
    requires ReadUpTo(s, state, lp, from, end, octets, high) && lp < |s| && Next(state, s[lp]).High?
    ensures IsHexDigit(s[lp])
    ensures ReadUpTo(s, HexDigit2, lp + 1, if octets == [] then lp else from, end, octets, 16 * HexValue(s[lp]))
  {
    if state == LeadSpace {
      HexStart(s, lp);
      SpacesRun(s, 0, lp);
    }
    hide DecimalForm;
    if octets == [] {
      NoPairs(s, lp);
    }
  }

  lemma LowKeeps(s: string, state: State, lp: nat, from: nat, end: nat, octets: seq<Octet>, high: nat)
    requires ReadUpTo(s, state, lp, from, end, octets, high) && lp < |s| && Next(state, s[lp]).Low?
    ensures IsHexDigit(s[lp]) && high + HexValue(s[lp]) < 256 && 3 * |octets| + 1 < |s|
    ensures ReadUpTo(s, HexColon, lp + 1, from, end, octets + [high + HexValue(s[lp])], high)
  {
    hide DecimalForm, Pairs;
    MorePairs(s, from, octets, high, lp);
  }

  lemma RestartKeeps(s: string, state: State, lp: nat, from: nat, end: nat, octets: seq<Octet>, high: nat)
    requires ReadUpTo(s, state, lp, from, end, octets, high) && lp < |s| && Next(state, s[lp]).Restart?
    ensures ReadUpTo(s, SkipSpHex, 0, from, end, octets, high)
  {
    NotDecimalHere(s, from, lp);
  }

  /** Only a parser that has not gone over to hex can restart, and restarting goes over to it. */
  lemma RestartsOnce(state: State, c: char)
    ensures Next(state, c).Restart? ==> MayBeDecimal(state)
    ensures Next(state, c).Goto? ==> MayBeDecimal(Next(state, c).state) == MayBeDecimal(state)
    ensures Next(state, c).Mark? ==> MayBeDecimal(Next(state, c).state) && state == LeadSpace
    ensures Next(state, c).EndDigits? ==> MayBeDecimal(state)
  {
  }

  /** What asn_strtoimax_lim has to say of the sign and the digits. */
  function DecimalOutcome(t: string): Body
    requires t != ""
  {
    if RunsOver(t) then ArithmeticUndefined else if Magnitude(t) > Limit(t) then DecoderLimit else Consumed
  }

  function SignedNumber(t: string): int
    requires t != ""
  {
    if t[0] == '-' then 0 - Magnitude(t) else Magnitude(t)
  }

  /** The sign and digits are nothing else. */
  lemma DecimalEnds(s: string, from: nat, end: nat)
    requires from < end <= |s| && AllSpace(s, 0, from) && !IsSpace(s[from])
    requires DigitsStart(s, from) < end && AllDigits(s, DigitsStart(s, from), end) && AllSpace(s, end, |s|)
    ensures DecimalForm(s) && DecimalPart(s) == s[from..end]
    ensures var t := s[from..end]; Start(t) < |t| && DigitsEnd(t, Start(t)) == |t|
  {
    SpacesRun(s, 0, from);
    RunIsMaximal(s, DigitsStart(s, from), end);
    var t := s[from..end];
    RunIsMaximal(t, Start(t), |t|);
  }

  /** Nothing is missing at the end of the text, or neither form fits. */
  lemma EndsUnfinished(s: string, state: State, from: nat, end: nat, octets: seq<Octet>, high: nat, x: seq<Octet>)
    requires ReadUpTo(s, state, |s|, from, end, octets, high)
    requires state in {SkipSpHex, LeadSpace, WaitDigits, HexDigit1, HexDigit2}
    ensures !DecimalForm(s) && !HexForm(s, x)
  {
    SpacesRun(s, 0, if state in {LeadSpace, SkipSpHex} then |s| else from);
    hide Tagged;
    if HexForm(s, x) {
      PairAt(s, x, 0);
      if state in {HexDigit1, HexDigit2} {
        HexContinues(s, x, octets);
      }
    }
  }

  lemma HexEnd(s: string, state: State, from: nat, end: nat, octets: seq<Octet>, high: nat)
    requires ReadUpTo(s, state, |s|, from, end, octets, high) && state in {HexColon, HexDigitsTrailSpace}
    ensures !DecimalForm(s) && HexForm(s, octets)
  {
    SpacesRun(s, 0, from);
  }

  /**
   * INTEGER__xer_body_decode: exactly the decimal form, the hexadecimal form and the tags that tell an enumerated
   * value are consumed, the decimal one up to the limits of intmax_t.
   */
  method BodyDecode(st: INTEGER, specs: Specs, chunk: string) returns (code: Body)
    requires specs.Valid()
    modifies st
    ensures code == NotBodyIgnore <==> AllSpace(chunk, 0, |chunk|)
    ensures DecimalForm(chunk) ==>
      && code == DecimalOutcome(DecimalPart(chunk))
      && (code == Consumed ==> st.buf == Minimal(SignedNumber(DecimalPart(chunk))))
    ensures forall k: nat :: EnumForm(specs, chunk, k) ==>
      code == Consumed && st.buf == Minimal(specs.value2enum[k].value)
    ensures !DecimalForm(chunk) && code == Consumed ==>
      HexForm(chunk, st.buf) || exists k: nat :: EnumForm(specs, chunk, k)
    ensures !DecimalForm(chunk) && code != Consumed ==> code in {BrokenEncoding, NotBodyIgnore}
    ensures !DecimalForm(chunk) && code != Consumed ==> forall x :: !HexForm(chunk, x)
  {
    hide DecimalForm, HexForm, AllDigits, Pairs, Minimal, DigitsEnd, DigitsStart, DecimalPart, Tells, Tagged;
    var data, size := new Octet[|chunk| / 3 + 2], 0;
    var state := LeadSpace;
    var lp: nat, start: nat, stop: nat, high: nat := 0, 0, 0, 0;
    var unexpected := false;
    ghost var from: nat := 0;
    assert data[..0] == [];
    while lp < |chunk| && !unexpected
      invariant 0 <= size < data.Length && lp <= |chunk|
      invariant MayBeDecimal(state) ==> from == start
      invariant ReadUpTo(chunk, state, lp, from, stop, data[..size], high)
      invariant unexpected ==> lp < |chunk| && Next(state, chunk[lp]).Stop?
      decreases !unexpected, MayBeDecimal(state), |chunk| - lp
    {
      hide ReadUpTo, Next;
      ghost var octets := data[..size];
      var lv := chunk[lp];
      var action := Next(state, lv);
      RestartsOnce(state, lv);
      match action {
        case Goto(next) =>
          GotoKeeps(chunk, state, lp, from, stop, octets, high);
          state := next;
        case Mark(next) =>
          MarkAnywhere(chunk, state, lp, from, stop, octets, high);
          MarkKeeps(chunk, state, lp, stop, octets, high);
          start, from, state := lp, lp, next;
        case EndDigits =>
          EndDigitsKeeps(chunk, state, lp, from, stop, octets, high);
          stop, state := lp, DigitsTrailSpace;
        case High =>
          HighKeeps(chunk, state, lp, from, stop, octets, high);
          from := if size == 0 then lp else from;
          high, state := 16 * HexValue(lv), HexDigit2;
        case Low =>
          LowKeeps(chunk, state, lp, from, stop, octets, high);
          data[size] := high + HexValue(lv);
          size, state := size + 1, HexColon;
          assert data[..size] == octets + [high + HexValue(lv)];
        case Restart =>
          RestartKeeps(chunk, state, lp, from, stop, octets, high);
          state, lp := SkipSpHex, 0;
          continue;
        case Lookup =>
          Refused(chunk, state, lp, from, stop, octets, high);
          var at := MapEnum2Value(specs, chunk);
          if at.None? {
            return BrokenEncoding;
          }
          assert EnumForm(specs, chunk, at.value);
          forall k: nat | EnumForm(specs, chunk, k)
            ensures k == at.value
          {
            OnlyOne(specs, chunk, at.value, k);
          }
          st.FromImax(specs.value2enum[at.value].value);
          return Consumed;
        case Broken =>
          Refused(chunk, state, lp, from, stop, octets, high);
          return BrokenEncoding;
        case Stop =>
          unexpected := true;
          continue;
      }
      lp := lp + 1;
    }
    code := Finish(st, chunk, state, unexpected, lp, start, stop, from, data[..size], high);
  }

  lemma MarkAnywhere(s: string, state: State, lp: nat, from: nat, end: nat, octets: seq<Octet>, high: nat)
    requires ReadUpTo(s, state, lp, from, end, octets, high) && lp < |s| && Next(state, s[lp]).Mark?
    ensures ReadUpTo(s, state, lp, lp, end, octets, high)
  {
  }

  /** The text up to an unexpected character is not all there is. */
  lemma Refused(s: string, state: State, lp: nat, from: nat, end: nat, octets: seq<Octet>, high: nat)
    requires ReadUpTo(s, state, lp, from, end, octets, high) && lp < |s| && Next(state, s[lp]) in {Lookup, Broken, Stop}
    ensures !DecimalForm(s) && !AllSpace(s, 0, |s|) && (Tagged(s) <==> Next(state, s[lp]).Lookup?)
    ensures forall x :: !HexForm(s, x)
  {
    NotDecimal(s, state, lp, from, end, octets, high);
    forall x
      ensures !HexForm(s, x)
    {
      NotHex(s, state, lp, from, end, octets, high, x);
    }
    hide DecimalForm, HexForm, Pairs;
    if state in {LeadSpace, SkipSpHex} {
      Unexpected(state, s[lp]);
      SpacesRun(s, 0, lp);
    }
  }

  /** The switch behind the loop. */
  method Finish(st: INTEGER, chunk: string, state: State, unexpected: bool, ghost lp: nat, start: nat, stop: nat,
                ghost from: nat, octets: seq<Octet>, ghost high: nat) returns (code: Body)
    requires ReadUpTo(chunk, state, lp, from, stop, octets, high) && (MayBeDecimal(state) ==> from == start)
    requires if unexpected then lp < |chunk| && Next(state, chunk[lp]).Stop? else lp == |chunk|
    modifies st
    ensures !Tagged(chunk)
    ensures code == NotBodyIgnore <==> AllSpace(chunk, 0, |chunk|)
    ensures DecimalForm(chunk) ==>
      && code == DecimalOutcome(DecimalPart(chunk))
      && (code == Consumed ==> st.buf == Minimal(SignedNumber(DecimalPart(chunk))))
    ensures !DecimalForm(chunk) && code == Consumed ==> HexForm(chunk, st.buf)
    ensures !DecimalForm(chunk) && code != Consumed ==> code in {BrokenEncoding, NotBodyIgnore}
    ensures !DecimalForm(chunk) && code != Consumed ==> forall x :: !HexForm(chunk, x)
  {
    hide DecimalForm, HexForm, Pairs, Tagged, Minimal, DigitsEnd, DecimalPart;
    if unexpected {
      Refused(chunk, state, lp, from, stop, octets, high);
      return BrokenEncoding;
    }
    match state {
      case Digits =>
        code := FinishDecimal(st, chunk, start, |chunk|);
      case DigitsTrailSpace =>
        code := FinishDecimal(st, chunk, start, stop);
      case HexColon =>
        HexEnd(chunk, state, from, stop, octets, high);
        st.buf := octets;
        code := Consumed;
      case HexDigitsTrailSpace =>
        HexEnd(chunk, state, from, stop, octets, high);
        st.buf := octets;
        code := Consumed;
      case LeadSpace =>
        Unfinished(chunk, state, from, stop, octets, high);
        code := NotBodyIgnore;
      case _ =>
        Unfinished(chunk, state, from, stop, octets, high);
        code := BrokenEncoding;
    }
  }

  lemma Unfinished(s: string, state: State, from: nat, end: nat, octets: seq<Octet>, high: nat)
    requires ReadUpTo(s, state, |s|, from, end, octets, high)
    requires state in {SkipSpHex, LeadSpace, WaitDigits, HexDigit1, HexDigit2}
    ensures !DecimalForm(s) && !Tagged(s) && forall x :: !HexForm(s, x)
  {
    forall x
      ensures !HexForm(s, x)
    {
      EndsUnfinished(s, state, from, end, octets, high, x);
    }
    EndsUnfinished(s, state, from, end, octets, high, []);
    if state == LeadSpace {
      SpacesRun(s, 0, |s|);
    }
  }

  method FinishDecimal(st: INTEGER, chunk: string, start: nat, end: nat) returns (code: Body)
    requires start < end <= |chunk| && AllSpace(chunk, 0, start) && !IsSpace(chunk[start])
    requires DigitsStart(chunk, start) < end && AllDigits(chunk, DigitsStart(chunk, start), end)
    requires AllSpace(chunk, end, |chunk|)
    modifies st
    ensures DecimalForm(chunk) && code == DecimalOutcome(DecimalPart(chunk)) && !AllSpace(chunk, 0, |chunk|)
    ensures code == Consumed ==> st.buf == Minimal(SignedNumber(DecimalPart(chunk)))
  {
    hide DecimalForm, Minimal, DigitsEnd, DecimalPart, RunsOver;
    DecimalEnds(chunk, start, end);
    var result, at, value := StrToImax(chunk[start..end]);
    if result == Undefined {
      return ArithmeticUndefined;
    }
    if result == ErrorRange {
      return DecoderLimit;
    }
    st.FromImax(value);
    code := Consumed;
  }

  function Printed(v: int): (t: string)
    ensures t != ""
  {
    if v < 0 then "-" + DigitsOf(-v) else DigitsOf(v)
  }

  /** h2c. */
  function HexChar(d: nat): (c: char)
    requires d < 16
    ensures IsHexDigit(c) && HexValue(c) == d
  {
    if d < 10 then DigitChar(d) else (d - 10 + 'A' as int) as char
  }

  /** The digits are worth their place, capital letters or not. */
  lemma HexDigitsAre(d: nat)
    requires d < 16
    ensures HexChar(d) == "0123456789ABCDEF"[d]
    ensures IsHexDigit("0123456789ABCDEF"[d]) && HexValue("0123456789ABCDEF"[d]) == d
    ensures IsHexDigit("0123456789abcdef"[d]) && HexValue("0123456789abcdef"[d]) == d
  {
    if d < 10 {
      DigitsAre(d);
    }
  }

  lemma HexDigitExact(c: char)
    ensures IsHexDigit(c) <==> c in "0123456789ABCDEFabcdef"
  {
    if IsHexDigit(c) {
      var d := HexValue(c);
      HexDigitsAre(d);
      assert c == "0123456789ABCDEF"[d] || c == "0123456789abcdef"[d];
    }
  }

  function HexPair(o: Octet): (t: string)
    ensures |t| == 2 && IsHexDigit(t[0]) && IsHexDigit(t[1])
    ensures HexValue(t[0]) == o / 16 && HexValue(t[1]) == o % 16
  {
    [HexChar(o / 16), HexChar(o % 16)]
  }

  /** The long xx:yy:zz format, with the last colon still there. */
  function HexPairs(octets: seq<Octet>): (t: string)
    ensures |t| == 3 * |octets|
  {
    if octets == [] then "" else HexPairs(octets[..|octets| - 1]) + HexPair(octets[|octets| - 1]) + ":"
  }

  /** Whether the number is one of intmax_t, or of uintmax_t if the type is unsigned. */
  predicate IsSmall(buf: seq<Octet>, unsigned: bool) {
    if unsigned then Integer.Unsigned(buf) < TWO_TO_64 else -TWO_TO_63 <= Value(buf) < TWO_TO_63
  }

  function Dumped(buf: seq<Octet>, unsigned: bool): string {
    if IsSmall(buf, unsigned) then Printed(if unsigned then Integer.Unsigned(buf) else Value(buf))
    else if buf == [] then ""
    else HexPairs(buf)[..3 * |buf| - 1]
  }

  /** The place of the value in the tables, unless the type is unsigned and the value too large for them. */
  function Known(buf: seq<Octet>, specs: Specs): (at: Option<nat>)
    ensures at.Some? ==> at.value < |specs.value2enum|
  {
    if !IsSmall(buf, specs.unsigned) then None
    else if !specs.unsigned then PlaceOf(specs, Value(buf))
    else if Integer.Unsigned(buf) < TWO_TO_63 then PlaceOf(specs, Integer.Unsigned(buf))
    else None
  }

  /** What INTEGER__dump has to say: the name or the number, or nothing where only names are allowed. */
  function Told(buf: seq<Octet>, specs: Specs, plain: bool): Option<string> {
    match Known(buf, specs)
    case Some(k) =>
      var e := specs.value2enum[k];
      Some(if plain then Printed(e.value) + " (" + e.name + ")" else "<" + e.name + "/>")
    case None => if !plain && specs.strict then None else Some(Dumped(buf, specs.unsigned))
  }

  /** INTEGER__dump: the pieces that go through the callback, put together, and their length; or -1. */
  method Dump(st: INTEGER, specs: Specs, plain: bool) returns (text: string, wrote: int)
    requires specs.Valid()
    ensures match Told(st.buf, specs, plain)
      case None => wrote == -1
      case Some(t) => text == t && wrote == |t|
  {
    hide Printed, Minimal, Value, PlaceOf;
    var ok, value: int;
    if specs.unsigned {
      ok, value := st.ToUmax();
    } else {
      ok, value := st.ToImax();
    }
    if ok {
      var el := None;
      if value < TWO_TO_63 {
        el := MapValue2Enum(specs, value);
      }
      if el.Some? {
        var name := specs.value2enum[el.value].name;
        text := if plain then Printed(value) + " (" + name + ")" else "<" + name + "/>";
      } else if !plain && specs.strict {
        return "", -1;
      } else {
        text := Printed(value);
      }
      return text, |text|;
    } else if !plain && specs.strict {
      return "", -1;
    }
    NoOctetsAreSmall(specs.unsigned);
    text, wrote := DumpHex(st.buf);
  }

  lemma NoOctetsAreSmall(unsigned: bool)
    ensures IsSmall([], unsigned)
  {
    assert Integer.Unsigned([]) == 0;
  }

  /** Through a scratch area of 32 characters that is flushed when it may not take another octet. */
  method DumpHex(buf: seq<Octet>) returns (text: string, wrote: nat)
    requires buf != []
    ensures text == HexPairs(buf)[..3 * |buf| - 1] && wrote == |text|
  {
    hide HexPairs, HexPair;
    var scratch := new char[32];
    var p, at := 0, 0;
    text, wrote := "", 0;
    NothingDumped(buf[..0]);
    while at < |buf|
      invariant 0 <= at <= |buf| && 0 <= p <= 30 && (at > 0 ==> p > 0)
      invariant text + scratch[..p] == HexPairs(buf[..at]) && wrote == |text|
    {
      if p >= 28 {
        text := text + scratch[..p];
        wrote := wrote + p;
        p := 0;
        assert text + scratch[..0] == text;
      }
      ghost var head := scratch[..p];
      scratch[p] := HexChar(buf[at] / 16);
      scratch[p + 1] := HexChar(buf[at] % 16);
      scratch[p + 2] := ':';
      p := p + 3;
      assert scratch[..p] == head + [HexChar(buf[at] / 16), HexChar(buf[at] % 16), ':'];
      MoreDumped(buf, at, text, head);
      at := at + 1;
    }
    assert buf[..at] == buf;
    text, wrote := text + scratch[..p - 1], wrote + p - 1;
    assert text == HexPairs(buf)[..3 * |buf| - 1];
  }

  lemma NothingDumped(none: seq<Octet>)
    requires none == []
    ensures HexPairs(none) == ""
  {
  }

  lemma MoreDumped(buf: seq<Octet>, at: nat, text: string, head: string)
    requires at < |buf| && text + head == HexPairs(buf[..at])
    ensures text + (head + [HexChar(buf[at] / 16), HexChar(buf[at] % 16), ':']) == HexPairs(buf[..at + 1])
  {
    assert buf[..at + 1][..at] == buf[..at];
  }

  lemma PrintedShape(v: int)
    ensures var t := Printed(v);
            var b := if v < 0 then 1 else 0;
            && (t[0] == '-' <==> v < 0) && !IsSpace(t[0]) && b == Start(t) == DigitsStart(t, 0) < |t|
            && AllDigits(t, b, |t|) && Number(t, b, |t|) == if v < 0 then 0 - v else v
  {
    hide Number, DigitsOf;
    var t := Printed(v);
    var b := if v < 0 then 1 else 0;
    var d := DigitsOf(if v < 0 then -v else v);
    DigitsOfSpells(if v < 0 then -v else v);
    NumberMoved(d, 0, |d|, t, b);
    assert IsDigit(t[b]);
  }

  /** Printed numbers are in decimal form, and parse to themselves if they are small enough. */
  lemma PrintedParses(v: int)
    ensures var t := Printed(v);
      && DecimalForm(t) && DecimalPart(t) == t && SignedNumber(t) == v
      && (Magnitude(t) > Limit(t) <==> !(-TWO_TO_63 <= v < TWO_TO_63))
      && (RunsOver(t) ==> Magnitude(t) > Limit(t))
  {
    hide Number, Printed, DecimalForm, DecimalPart, RunsOver, DigitsEnd;
    var t := Printed(v);
    PrintedShape(v);
    DecimalEnds(t, 0, |t|);
    assert t[0..|t|] == t;
    if RunsOver(t) {
      RunsOverIsOutOfRange(t);
    }
  }

  lemma {:induction false} HexPairsSpell(octets: seq<Octet>)
    ensures Pairs(HexPairs(octets), 0, octets, |octets|)
  {
    hide Pairs;
    if octets == [] {
      NoPairs("", 0);
    } else {
      var front, o := octets[..|octets| - 1], octets[|octets| - 1];
      HexPairsSpell(front);
      PairsSnoc(HexPairs(front), front, o);
      assert octets == front + [o];
    }
  }

  lemma PairsSnoc(s: string, octets: seq<Octet>, o: Octet)
    requires |s| == 3 * |octets| && Pairs(s, 0, octets, |octets|)
    ensures Pairs(s + HexPair(o) + ":", 0, octets + [o], |octets| + 1)
  {
    var t, n := s + HexPair(o) + ":", |octets|;
    forall k | 0 <= k <= n
      ensures IsHexDigit(t[3 * k]) && IsHexDigit(t[3 * k + 1]) && t[3 * k + 2] == ':'
      ensures (octets + [o])[k] == 16 * HexValue(t[3 * k]) + HexValue(t[3 * k + 1])
    {
      if k < n {
        assert IsHexDigit(s[0 + 3 * k]) && s[0 + 3 * k + 2] == ':';
      }
    }
  }

  /** Octets in hexadecimal are in hexadecimal form; two or more are not in decimal form. */
  lemma HexParses(octets: seq<Octet>)
    requires |octets| > 1
    ensures var t := HexPairs(octets)[..3 * |octets| - 1]; HexForm(t, octets) && !DecimalForm(t)
  {
    hide HexPairs, Pairs, DecimalForm, HexForm;
    var t := HexPairs(octets)[..3 * |octets| - 1];
    HexPairsSpell(octets);
    PairsCut(HexPairs(octets), octets);
    SpacesRun(t, 0, 0);
    WholeHexForm(t, octets);
    ColonSomewhere(t);
  }

  lemma WholeHexForm(t: string, octets: seq<Octet>)
    requires |octets| > 0 && |t| == 3 * |octets| - 1 && Pairs(t, 0, octets, |octets| - 1) && SpacesEnd(t, 0) == 0
    ensures HexForm(t, octets)
  {
    hide Pairs;
  }

  lemma PairsCut(s: string, octets: seq<Octet>)
    requires |octets| > 1 && |s| == 3 * |octets| && Pairs(s, 0, octets, |octets|)
    ensures var t := s[..3 * |octets| - 1];
      Pairs(t, 0, octets, |octets| - 1) && IsHexDigit(t[0]) && t[2] == ':'
  {
    var t := s[..3 * |octets| - 1];
    assert s[0 + 3 * 0 + 2] == ':' && IsHexDigit(s[0 + 3 * 0]);
  }

  lemma ColonSomewhere(t: string)
    requires |t| > 2 && t[2] == ':' && IsHexDigit(t[0]) && SpacesEnd(t, 0) == 0
    ensures !DecimalForm(t)
  {
    NotDigitsBehind(t, DigitsStart(t, 0), 2);
  }

  lemma NotDigitsBehind(t: string, b: nat, p: nat)
    requires b <= p < |t| && !IsDigit(t[p])
    ensures DigitsEnd(t, b) <= p
  {
  }

  /** Octets whose number is not small are more than eight. */
  lemma LargeIsLong(buf: seq<Octet>, unsigned: bool)
    requires !IsSmall(buf, unsigned)
    ensures |buf| > 8
  {
    assert Integer.Unsigned([]) == 0;
    if 0 < |buf| <= 8 {
      TwosFits(buf, 0, |buf|);
      RadixFits(buf, 0, |buf|);
      HalfGrows(|buf|, 8);
      Half8();
    }
  }

  /**
   * What is printed of a canonical INTEGER parses to the same octets: always if the type is signed, and if it is
   * unsigned, unless the number is at least 2^63 or negative but small.
   */
  lemma DumpParses(buf: seq<Octet>, unsigned: bool)
    requires IsMinimal(buf)
    ensures var t := Dumped(buf, unsigned);
      && (IsSmall(buf, unsigned) <==> DecimalForm(t))
      && (DecimalForm(t) ==>
           (DecimalOutcome(DecimalPart(t)) == Consumed && Minimal(SignedNumber(DecimalPart(t))) == buf
            <==> !unsigned || (0 <= Value(buf) < TWO_TO_63)))
      && (!DecimalForm(t) ==> HexForm(t, buf))
  {
    hide DecimalForm, DecimalPart, HexForm, Minimal, Twos, Unsigned, Printed, HexPairs;
    if IsSmall(buf, unsigned) {
      var v := if unsigned then Integer.Unsigned(buf) else Value(buf);
      PrintedParses(v);
      MinimalSpells(v);
      MinimalSpells(Value(buf));
      MinimalUnique(Minimal(Value(buf)), buf);
      UnsignedIsValue(buf);
      SignOctet(buf, |buf|);
    } else {
      LargeIsLong(buf, unsigned);
      HexParses(buf);
    }
  }

  /** 2^63 of an unsigned type is printed, and then goes over the parser's limit. */
  lemma DumpExample()
    ensures var buf := [0, 0x80, 0, 0, 0, 0, 0, 0, 0];
            && IsMinimal(buf) && Value(buf) == Integer.Unsigned(buf) == TWO_TO_63
            && var t := Dumped(buf, true);
               DecimalForm(t) && DecimalOutcome(DecimalPart(t)) == DecoderLimit
  {
    hide DecimalForm, DecimalPart, Printed, RunsOver;
    var buf: seq<Octet> := [0, 0x80, 0, 0, 0, 0, 0, 0, 0];
    TwoTo63(buf);
    UnsignedIsValue(buf);
    PrintedParses(TWO_TO_63);
    PrintedShape(TWO_TO_63);
    NoTurn(Printed(TWO_TO_63));
  }

  lemma TwoTo63(buf: seq<Octet>)
    requires buf == [0, 0x80, 0, 0, 0, 0, 0, 0, 0]
    ensures Integer.Unsigned(buf) == TWO_TO_63
  {
    assert Radix256(buf, 0, 0) == 0 && Radix256(buf, 0, 1) == 0;
    assert Radix256(buf, 0, 2) == 0x80;
    assert Radix256(buf, 0, 4) == 0x80_0000;
    assert Radix256(buf, 0, 6) == 0x80_0000_0000;
    assert Radix256(buf, 0, 8) == 0x80_0000_0000_0000;
  }

  lemma NoTurn(t: string)
    requires t != "" && t[0] != '-'
    ensures !RunsOver(t)
  {
  }

  /** A name in a tag is in the form of its value. */
  lemma NameParses(specs: Specs, k: nat)
    requires specs.Valid() && k < |specs.value2enum|
    ensures EnumForm(specs, "<" + specs.value2enum[k].name + "/>", k)
  {
    var name := specs.value2enum[k].name;
    var s := "<" + name + "/>";
    SpacesRun(s, 0, 0);
    assert s[1..1 + |name|] == name;
    TellsExact(s, name);
  }

  /** Exactly: an opening bracket at the very beginning, the name and an end of it; what follows does not matter. */
  lemma EnumFormExact(specs: Specs, s: string, k: nat)
    requires specs.Valid() && k < |specs.value2enum|
    ensures EnumForm(specs, s, k) <==>
      var name := specs.value2enum[k].name;
      var e := 1 + |name|;
      && e < |s| && s[..e] == "<" + name
      && (EndsName(s[e]) || (s[e] == NUL && exists j :: e < j < |s| && EndsName(s[j])))
  {
    var name := specs.value2enum[k].name;
    var e := 1 + |name|;
    if s != "" {
      TellsExact(s, name);
    }
    if e < |s| && s[1..e] == name {
      assert s[1] == name[0];
      assert s[..e] == [s[0]] + name;
      if s[0] == '<' {
        SpacesRun(s, 0, 0);
      }
    }
  }

  /** Unlike a number, a name may not have white space in front of it. */
  lemma SpaceInFront(specs: Specs, s: string, k: nat)
    requires specs.Valid() && k < |specs.value2enum| && s != "" && IsSpace(s[0])
    ensures !EnumForm(specs, s, k)
  {
    EnumFormExact(specs, s, k);
  }

  lemma SpaceInFrontExample()
    ensures var specs := Specs([Entry(0, "a")], [0], true, false);
            EnumForm(specs, "<a/>", 0) && !EnumForm(specs, " <a/>", 0) && DecimalForm(" 0")
  {
    var specs := Specs([Entry(0, "a")], [0], true, false);
    assert specs.value2enum[0].name == "a" && specs.enum2value[0] == 0;
    NameParses(specs, 0);
    assert "<" + "a" + "/>" == "<a/>";
    SpaceInFront(specs, " <a/>", 0);
    SpacesRun(" 0", 0, 1);
    RunIsMaximal(" 0", 1, 2);
  }

  /** Numbers are not tagged. */
  lemma UntaggedForms(s: string, x: seq<Octet>)
    ensures DecimalForm(s) || HexForm(s, x) ==> !Tagged(s)
  {
    if HexForm(s, x) {
      PairAt(s, x, 0);
    }
  }

  /**
   * In XER any canonical INTEGER comes back from its text, by name or by number and of any length, if the type is
   * signed or the value in 0 .. 2^63 - 1. There is no text if and only if it has no name and the type is strict.
   */
  method PrintedBack(st: INTEGER, specs: Specs, into: INTEGER) returns (wrote: int, code: Body)
    requires specs.Valid() && IsMinimal(st.buf) && into != st
    requires !specs.unsigned || 0 <= Value(st.buf) < TWO_TO_63
    modifies into
    ensures wrote == -1 <==> specs.strict && PlaceOf(specs, Value(st.buf)).None?
    ensures wrote != -1 ==> code == Consumed && into.buf == st.buf
  {
    hide DecimalForm, DecimalPart, HexForm, Minimal, Value, Dumped, PlaceOf, Tagged, IsSmall, Tells;
    var text;
    text, wrote := Dump(st, specs, false);
    KnownIs(st.buf, specs);
    if wrote == -1 {
      return wrote, NotBodyIgnore;
    }
    DumpParses(st.buf, specs.unsigned);
    code := BodyDecode(into, specs, text);
    match Known(st.buf, specs)
    case Some(k) =>
      NameParses(specs, k);
      MinimalSpells(Value(st.buf));
      MinimalUnique(Minimal(Value(st.buf)), st.buf);
    case None =>
      UntaggedForms(text, st.buf);
      if !DecimalForm(text) {
        HexFormUnique(text, into.buf, st.buf);
      }
  }

  /** Where the value has a place, it is known, unless it is not small. */
  lemma KnownIs(buf: seq<Octet>, specs: Specs)
    requires specs.Valid() && IsMinimal(buf) && (!specs.unsigned || 0 <= Value(buf) < TWO_TO_63)
    ensures Known(buf, specs) == PlaceOf(specs, Value(buf))
  {
    hide PlaceOf, Twos, Unsigned;
    UnsignedIsValue(buf);
    SignOctet(buf, |buf|);
    var at := PlaceOf(specs, Value(buf));
    if at.Some? {
      var e := specs.value2enum[at.value];
      assert e.value == Value(buf);
    }
  }

  /** Only the number 0 is printed with a zero in front. */
  lemma PrintedLeads(v: int)
    ensures var t := Printed(v);
            var digits := if v < 0 then t[1..] else t;
            && (v < 0 ==> t[0] == '-') && digits != "" && (digits[0] == '0' <==> v == 0)
  {
    hide DigitsOf;
    DigitsLead(if v < 0 then -v else v);
  }

  /** What is said of 1 and 2 where 1 has a name: in brackets for people, in a tag for XER, and strictly not at all. */
  lemma ToldExamples()
    ensures var specs := Specs([Entry(1, "nr")], [0], true, false);
            && Told([1], specs, true) == Some("1 (nr)") && Told([1], specs, false) == Some("<nr/>")
            && Told([2], specs, true) == Some("2") && Told([2], specs, false) == None
            && Told([2], specs.(strict := false), false) == Some("2")
    ensures Printed(-120) == "-120" && Printed(0) == "0"
  {
    hide Twos, Unsigned;
    var specs := Specs([Entry(1, "nr")], [0], true, false);
    OneOctet([1]);
    OneOctet([2]);
    assert PlaceFrom(specs.value2enum, 2, 1) == None;
    assert DigitsOf(1) == "1" && DigitsOf(2) == "2" && DigitsOf(12) == "12" && DigitsOf(120) == "120";
    assert "1" + " (" + "nr" + ")" == "1 (nr)" && "<" + "nr" + "/>" == "<nr/>";
  }

  lemma OneOctet(buf: seq<Octet>)
    requires |buf| == 1 && buf[0] < 128
    ensures Value(buf) == buf[0]
  {
  }

  /** Texts in either form, and in neither. */
  lemma FormExamples()
    ensures DecimalForm(" -12 ") && DecimalPart(" -12 ") == "-12" && SignedNumber("-12") == -12
    ensures HexForm(" 0A:ff", [0x0A, 0xFF]) && !DecimalForm("0A:ff")
  {
    DecimalExample();
    HexFormExample();
  }

  lemma DecimalExample()
    ensures DecimalForm(" -12 ") && DecimalPart(" -12 ") == "-12" && SignedNumber("-12") == -12
  {
    hide Number;
    var s := " -12 ";
    SpacesRun(s, 0, 1);
    RunIsMaximal(s, 2, 4);
    assert s[1..4] == "-12";
    TextNumbers();
  }

  lemma HexFormExample()
    ensures HexForm(" 0A:ff", [0x0A, 0xFF]) && !DecimalForm("0A:ff")
  {
    SpacesRun(" 0A:ff", 0, 1);
    SpacesRun("0A:ff", 0, 0);
    RunIsMaximal("0A:ff", 0, 1);
  }
}
