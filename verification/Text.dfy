/**
 * Characters, and what the parsers of numbers share: runs of decimal digits and where they end, the number they spell
 * and how it is printed, runs of white space. The answers of the body decoders, `enum xer_pbd_rval`, are here too, with
 * one more for arithmetic that C leaves undefined.
 */
module Text {
  predicate IsDigit(c: char) {
    '0' <= c <= '9'
  }

  function Digit(c: char): (d: nat)
    requires IsDigit(c)
    ensures d < 10
  {
    c as int - '0' as int
  }

  /** The end of the longest run of digits from i on. */
  function DigitsEnd(s: string, i: nat): (e: nat)
    requires i <= |s|
    ensures i <= e <= |s|
    ensures forall k :: i <= k < e ==> IsDigit(s[k])
    ensures e < |s| ==> !IsDigit(s[e])
    decreases |s| - i
  {
    if i < |s| && IsDigit(s[i]) then DigitsEnd(s, i + 1) else i
  }

  /** The number spelled by the digits s[i], ..., s[j - 1]. */
  function Number(s: string, i: nat, j: nat): nat
    requires i <= j <= |s| && forall k :: i <= k < j ==> IsDigit(s[k])
  {
    if i == j then 0 else 10 * Number(s, i, j - 1) + Digit(s[j - 1])
  }

  lemma {:induction false} NumberGrows(s: string, i: nat, j: nat, k: nat)
    requires i <= j <= k <= |s| && forall m :: i <= m < k ==> IsDigit(s[m])
    ensures Number(s, i, j) <= Number(s, i, k)
  {
    if j < k {
      NumberGrows(s, i, j, k - 1);
    }
  }

  lemma {:induction false} RunIsMaximal(s: string, i: nat, e: nat)
    requires i <= e <= |s| && (forall k :: i <= k < e ==> IsDigit(s[k])) && (e < |s| ==> !IsDigit(s[e]))
    ensures e == DigitsEnd(s, i)
    decreases e - i
  {
    if i < e {
      RunIsMaximal(s, i + 1, e);
    }
  }

  predicate AllDigits(s: string, i: nat, j: nat)
    requires i <= j <= |s|
  {
    forall k :: i <= k < j ==> IsDigit(s[k])
  }

  predicate IsSpace(c: char) {
    c in {'\t', '\n', '\r', ' '}
  }

  predicate AllSpace(s: string, i: nat, j: nat)
    requires i <= j <= |s|
  {
    forall k :: i <= k < j ==> IsSpace(s[k])
  }

  /** Where the white space from i on ends. */
  function SpacesEnd(s: string, i: nat): (e: nat)
    requires i <= |s|
    ensures i <= e <= |s| && AllSpace(s, i, e) && (e < |s| ==> !IsSpace(s[e]))
    decreases |s| - i
  {
    if i < |s| && IsSpace(s[i]) then SpacesEnd(s, i + 1) else i
  }

  lemma {:induction false} SpacesRun(s: string, i: nat, e: nat)
    requires i <= e <= |s| && AllSpace(s, i, e) && (e < |s| ==> !IsSpace(s[e]))
    ensures e == SpacesEnd(s, i)
    decreases e - i
  {
    if i < e {
      SpacesRun(s, i + 1, e);
    }
  }

  function DigitChar(d: nat): (c: char)
    requires d < 10
    ensures IsDigit(c) && Digit(c) == d
  {
    (d + '0' as int) as char
  }

  /** A digit is worth its place. */
  lemma DigitsAre(d: nat)
    requires d < 10
    ensures DigitChar(d) == "0123456789"[d] && IsDigit("0123456789"[d]) && Digit("0123456789"[d]) == d
  {
  }

  lemma CharactersAre(c: char)
    ensures IsDigit(c) <==> c in "0123456789"
    ensures IsSpace(c) <==> c as int in {0x09, 0x0A, 0x0D, 0x20}
  {
    if IsDigit(c) {
      assert c == "0123456789"[Digit(c)];
    }
  }

  /** What printf makes of a number that is not negative. */
  function DigitsOf(n: nat): (t: string)
    ensures t != ""
  {
    if n < 10 then [DigitChar(n)] else DigitsOf(n / 10) + [DigitChar(n % 10)]
  }

  lemma {:induction false} DigitsOfSpells(n: nat)
    ensures var t := DigitsOf(n); AllDigits(t, 0, |t|) && Number(t, 0, |t|) == n
    decreases n
  {
    if n >= 10 {
      DigitsOfSpells(n / 10);
      var head := DigitsOf(n / 10);
      NumberMoved(head, 0, |head|, head + [DigitChar(n % 10)], 0);
    } else {
      assert Number([DigitChar(n)], 0, 0) == 0;
    }
  }

  /** No zeros in front, but for the number 0 itself. */
  lemma {:induction false} DigitsLead(n: nat)
    ensures DigitsOf(n)[0] == '0' <==> n == 0
    ensures n < 10 ==> |DigitsOf(n)| == 1
    decreases n
  {
    if n >= 10 {
      DigitsLead(n / 10);
    }
  }

  lemma {:induction false} NumberMoved(s: string, i: nat, j: nat, t: string, k: nat)
    requires i <= j <= |s| && k + (j - i) <= |t| && AllDigits(s, i, j)
    requires forall m :: i <= m < j ==> s[m] == t[m - i + k]
    ensures AllDigits(t, k, k + (j - i)) && Number(t, k, k + (j - i)) == Number(s, i, j)
  {
    forall m | k <= m < k + (j - i)
      ensures IsDigit(t[m])
    {
      assert s[m - k + i] == t[m];
    }
    if i < j {
      NumberMoved(s, i, j - 1, t, k);
    }
  }

  /** xer_pbd_rval, and the signed overflow on the way to one. */
  datatype Body = Consumed | BrokenEncoding | NotBodyIgnore | DecoderLimit | SystemFailure | ArithmeticUndefined
}
