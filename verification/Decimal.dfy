/** Decimal text: asn_strtoimax_lim and asn_strtoumax_lim of INTEGER.c. */
module Decimal {
  import opened Words
  import opened Text

  /** asn_strtox_result_e; Undefined is signed overflow, which C leaves undefined. */
  datatype Code = ErrorRange | ErrorInval | ExpectMore | ExtraData | Complete | Undefined

  /** Where the digits start: behind a sign. */
  function Start(s: string): nat
    requires s != ""
  {
    if s[0] == '-' || s[0] == '+' then 1 else 0
  }

  /** The digits, as a number. */
  function Magnitude(s: string): nat
    requires s != ""
  {
    Number(s, Start(s), DigitsEnd(s, Start(s)))
  }

  /** The last digit that still fits stands before `end`, and the one at `end` goes over the limit. */
  predicate StopsAt(s: string, end: nat, limit: nat)
    requires s != ""
  {
    && Start(s) <= end < DigitsEnd(s, Start(s))
    && Number(s, Start(s), end) <= limit < Number(s, Start(s), end + 1)
  }

  const UMAX_BOUNDARY := 0x1999_9999_9999_9999

  lemma NothingRead(s: string, i: nat)
    requires i <= |s|
    ensures Number(s, i, i) == 0
  {
  }

  /** The number of the digits up to here, and of all of them. */
  lemma OneMoreDigit(s: string, i: nat, j: nat)
    requires i <= j < |s| && AllDigits(s, i, j) && IsDigit(s[j])
    ensures AllDigits(s, i, j + 1) && Number(s, i, j + 1) == 10 * Number(s, i, j) + Digit(s[j])
    ensures Number(s, i, j + 1) <= Number(s, i, DigitsEnd(s, i)) && j < DigitsEnd(s, i)
  {
    NumberGrows(s, i, j + 1, DigitsEnd(s, j + 1));
    RunIsMaximal(s, i, DigitsEnd(s, j + 1));
  }

  /** asn_strtoumax_lim: the exact number, or a range error just if it exceeds 2^64 - 1. */
  method StrToUmax(s: string) returns (code: Code, end: nat, value: U64)
    ensures s == "" || s[0] == '-' ==> code == ErrorInval && end == |s|
    ensures s == "+" ==> code == ExpectMore && end == 1
    ensures s != "" && s[0] != '-' && s != "+" ==>
      && (code == ErrorRange <==> Magnitude(s) >= TWO_TO_64)
      && (code == ErrorRange ==> StopsAt(s, end, TWO_TO_64 - 1))
      && (code != ErrorRange ==> value == Magnitude(s) && end == DigitsEnd(s, Start(s))
                                 && code == if end < |s| then ExtraData else Complete)
  {
    hide Number, DigitsEnd;
    code, end, value := ErrorInval, |s|, 0;
    if |s| == 0 || s[0] == '-' {
      return;
    }
    var str := 0;
    if s[0] == '+' {
      str := 1;
      if str >= |s| {
        assert s == "+";
        return ExpectMore, str, 0;
      }
    }
    ghost var start := str;
    NothingRead(s, start);
    while str < |s|
      invariant start <= str <= |s| && (forall k :: start <= k < str ==> IsDigit(s[k]))
      invariant value == Number(s, start, str)
    {
      if !IsDigit(s[str]) {
        RunIsMaximal(s, start, str);
        return ExtraData, str, value;
      }
      var d := Digit(s[str]);
      OneMoreDigit(s, start, str);
      if value < UMAX_BOUNDARY {
        value := value * 10 + d;
      } else if value == UMAX_BOUNDARY {
        if d <= 5 {
          value := value * 10 + d;
        } else {
          return ErrorRange, str, value;
        }
      } else {
        return ErrorRange, str, value;
      }
      str := str + 1;
    }
    RunIsMaximal(s, start, str);
    return Complete, str, value;
  }

  const IMAX_BOUNDARY := 922337203685477580

  /** The largest magnitude a signed number with that sign has. */
  function Limit(s: string): nat
    requires s != ""
  {
    if s[0] == '-' then TWO_TO_63 else TWO_TO_63 - 1
  }

  /** The last decade before -2^63, where the sign is turned around. */
  predicate Turned(n: nat) {
    10 * IMAX_BOUNDARY <= n <= TWO_TO_63
  }

  /** Some digits behind the sign, but fewer than e - start of them, spell a number of the last decade. */
  predicate TurnsBefore(s: string, start: nat, e: nat)
    requires start <= e <= |s| && AllDigits(s, start, e)
  {
    exists k :: start <= k < e && Turned(Number(s, start, k))
  }

  /**
   * Behind a minus sign, digits that already spell a number of the last decade before -2^63 are followed by one
   * more: the step that has turned the sign around multiplies the negative number by ten.
   */
  predicate RunsOver(s: string)
    requires s != ""
  {
    s[0] == '-' && TurnsBefore(s, 1, DigitsEnd(s, 1))
  }

  /** Over the limit without having turned: no turn comes any more. */
  lemma NeverTurns(s: string, start: nat, j: nat, e: nat)
    requires start <= j <= e <= |s| && AllDigits(s, start, e)
    requires !TurnsBefore(s, start, j) && Number(s, start, j) > TWO_TO_63
    ensures !TurnsBefore(s, start, e)
  {
    forall k | j <= k < e
      ensures !Turned(Number(s, start, k))
    {
      NumberGrows(s, start, j, k);
    }
  }

  lemma NextDigit(s: string, i: nat, j: nat)
    requires i <= j < |s| && AllDigits(s, i, j + 1)
    ensures Number(s, i, j + 1) == 10 * Number(s, i, j) + Digit(s[j])
    ensures TurnsBefore(s, i, j + 1) == (TurnsBefore(s, i, j) || Turned(Number(s, i, j)))
  {
    if TurnsBefore(s, i, j + 1) {
      var k :| i <= k < j + 1 && Turned(Number(s, i, k));
    }
  }

  lemma TurnsAt(s: string, i: nat, j: nat, e: nat)
    requires i <= j < e <= |s| && AllDigits(s, i, e) && Turned(Number(s, i, j))
    ensures TurnsBefore(s, i, e)
  {
  }

  /**
   * asn_strtoimax_lim: the exact number, or a range error just if it is not one of intmax_t - except for the
   * texts that run over, on all of which, and on no others, its arithmetic overflows.
   */
  method StrToImax(s: string) returns (code: Code, end: nat, value: I64)
    ensures s == "" ==> code == ErrorInval && end == |s|
    ensures s == "-" || s == "+" ==> code == ExpectMore && end == 1
    ensures s != "" && s != "-" && s != "+" ==>
      && (code == Undefined <==> RunsOver(s))
      && (code == ErrorRange <==> !RunsOver(s) && Magnitude(s) > Limit(s))
      && (code == ErrorRange ==> StopsAt(s, end, Limit(s)))
      && (code !in {Undefined, ErrorRange} ==>
            && value == (if s[0] == '-' then 0 - Magnitude(s) else Magnitude(s))
            && end == DigitsEnd(s, Start(s)) && code == if end < |s| then ExtraData else Complete)
  {
    code, end, value := ErrorInval, |s|, 0;
    if |s| == 0 {
      return;
    }
    var sign, lastDigitMax, str := 1, 7, 0;
    if s[0] == '-' || s[0] == '+' {
      if s[0] == '-' {
        lastDigitMax, sign := lastDigitMax + 1, -1;
      }
      str := 1;
      if str >= |s| {
        assert s == "-" || s == "+";
        return ExpectMore, str, 0;
      }
    }
    code, end, value := ScanSigned(s, str, sign, lastDigitMax);
  }

  /** One more digit: on, or over the limit, or past the turn. */
  method Accumulate(value: I64, sign: int, d: nat, lastDigitMax: int, ghost n: nat, ghost negative: bool)
      returns (step: Code, v: I64, s: int)
    requires d < 10 && n <= (if negative then TWO_TO_63 else TWO_TO_63 - 1)
    requires lastDigitMax == (if negative then 8 else 7) && (sign == 1 || sign == -1)
    requires (sign == 1 <==> !negative || Turned(n)) && value == if negative && sign == 1 then 0 - n else n
    ensures step in {Complete, ErrorRange, Undefined}
    ensures step == Undefined <==> negative && Turned(n)
    ensures step == ErrorRange <==>
      !(negative && Turned(n)) && 10 * n + d > if negative then TWO_TO_63 else TWO_TO_63 - 1
    ensures step == Complete ==>
      && (s == 1 || s == -1) && (s == 1 <==> !negative || Turned(10 * n + d))
      && v == if negative && s == 1 then 0 - (10 * n + d) else 10 * n + d
  {
    step, v, s := Complete, value, sign;
    if value < IMAX_BOUNDARY {
      if value * 10 + d < -TWO_TO_63 {
        return Undefined, value, sign;
      }
      v := value * 10 + d;
    } else if value == IMAX_BOUNDARY {
      if d <= lastDigitMax {
        if sign > 0 {
          v := value * 10 + d;
        } else {
          s := 1;
          v := -value * 10 - d;
        }
      } else {
        return ErrorRange, value, sign;
      }
    } else {
      return ErrorRange, value, sign;
    }
  }

  /** The digits behind the sign. */
  method ScanSigned(s: string, start: nat, signed: int, lastDigitMax: int) returns (code: Code, end: nat, value: I64)
    requires s != "" && start == Start(s)
    requires if s[0] == '-' then signed == -1 && lastDigitMax == 8 else signed == 1 && lastDigitMax == 7
    ensures code == Undefined <==> RunsOver(s)
    ensures code == ErrorRange <==> !RunsOver(s) && Magnitude(s) > Limit(s)
    ensures code == ErrorRange ==> StopsAt(s, end, Limit(s))
    ensures code !in {Undefined, ErrorRange} ==>
      && value == (if s[0] == '-' then 0 - Magnitude(s) else Magnitude(s))
      && end == DigitsEnd(s, Start(s)) && code == if end < |s| then ExtraData else Complete
  {
    var str, sign := start, signed;
    value := 0;
    ghost var e := DigitsEnd(s, start);
    ghost var n: nat, negative := 0, s[0] == '-';
    while str < |s|
      invariant start <= str <= e <= |s| && (sign == -1 || sign == 1)
      invariant n == Number(s, start, str) && n <= if negative then TWO_TO_63 else TWO_TO_63 - 1
      invariant negative ==> !TurnsBefore(s, start, str)
      invariant sign == 1 <==> !negative || Turned(n)
      invariant value == if negative && sign == 1 then 0 - n else n
    {
      hide Number, DigitsEnd, TurnsBefore, AllDigits, RunsOver, Magnitude, IsDigit, Digit, Turned;
      Means(s);
      if !IsDigit(s[str]) {
        RunIsMaximal(s, start, str);
        return ExtraData, str, sign * value;
      }
      var d := Digit(s[str]);
      MoreDigits(s, start, str);
      NextDigit(s, start, str);
      NumberGrows(s, start, str + 1, e);
      var step;
      step, value, sign := Accumulate(value, sign, d, lastDigitMax, n, negative);
      n := 10 * n + d;
      if step == Undefined {
        TurnsAt(s, start, str, e);
        return Undefined, str, 0;
      }
      if step == ErrorRange {
        if negative {
          NeverTurns(s, start, str + 1, e);
        }
        return ErrorRange, str, 0;
      }
      str := str + 1;
    }
    hide Number, DigitsEnd, TurnsBefore, AllDigits, RunsOver, Magnitude;
    Means(s);
    RunIsMaximal(s, start, str);
    return Complete, str, sign * value;
  }

  lemma Means(s: string)
    requires s != ""
    ensures var e := DigitsEnd(s, Start(s));
            && RunsOver(s) == (s[0] == '-' && TurnsBefore(s, 1, e))
            && Magnitude(s) == Number(s, Start(s), e)
  {
  }

  /** A digit at the end of some digits belongs to their run. */
  lemma MoreDigits(s: string, start: nat, str: nat)
    requires start <= str < |s| && str <= DigitsEnd(s, start) && IsDigit(s[str])
    ensures str < DigitsEnd(s, start)
    ensures AllDigits(s, start, str) && AllDigits(s, start, str + 1) && AllDigits(s, start, DigitsEnd(s, start))
  {
  }

  /** The shortest such texts, as -92233720368547758000: nothing but a legal number and one more digit. */
  lemma RunsOverExample()
    ensures RunsOver("-" + DigitsOf(9223372036854775800) + "0")
  {
    hide Number, DigitsOf;
    var d := DigitsOf(9223372036854775800);
    var s := "-" + d + "0";
    DigitsOfSpells(9223372036854775800);
    NumberMoved(d, 0, |d|, s, 1);
    RunIsMaximal(s, 1, |s|);
    TurnsAt(s, 1, 1 + |d|, |s|);
  }

  /** A text that runs over is out of range: what it lacks is the range error. */
  lemma RunsOverIsOutOfRange(s: string)
    requires s != "" && RunsOver(s)
    ensures Magnitude(s) > Limit(s)
  {
    var k :| 1 <= k < DigitsEnd(s, 1) && Turned(Number(s, 1, k));
    NumberGrows(s, 1, k + 1, DigitsEnd(s, 1));
  }

  /** Texts and their numbers. */
  method ScanExamples() returns (i: I64, u: U64)
    ensures i == -12 && u == 1234567890
  {
    TextNumbers();
    hide Number, DigitsEnd;
    var code, end;
    code, end, i := StrToImax("-12");
    code, end, u := StrToUmax("1234567890");
  }

  lemma TextNumbers()
    ensures DigitsEnd("-12", 1) == 3 && Number("-12", 1, 3) == 12 && !RunsOver("-12")
    ensures DigitsEnd("1234567890", 0) == 10 && Number("1234567890", 0, 10) == 1234567890
  {
    hide Number;
    RunIsMaximal("-12", 1, 3);
    RunIsMaximal("1234567890", 0, 10);
    SmallNumber();
    LongNumber("1234567890");
  }

  lemma SmallNumber()
    ensures Number("-12", 1, 3) == 12 && !TurnsBefore("-12", 1, 3)
  {
    var s := "-12";
    assert Number(s, 1, 1) == 0 && Number(s, 1, 2) == 1;
  }

  lemma LongNumber(s: string)
    requires s == "1234567890"
    ensures AllDigits(s, 0, 10) && Number(s, 0, 10) == 1234567890
  {
    assert Number(s, 0, 0) == 0;
    assert Number(s, 0, 2) == 12;
    assert Number(s, 0, 4) == 1234;
    assert Number(s, 0, 6) == 123456;
    assert Number(s, 0, 8) == 12345678;
  }
}
