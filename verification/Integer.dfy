/** INTEGER contents octets: INTEGER.c, canonical form, conversions and comparison. */
module Integer {
  import opened Octets
  import opened Words
  import opened Bits

  /** The two's complement number spelled by s[i], ..., s[j - 1]: X.690 8.3.3. */
  function Twos(s: seq<Octet>, i: nat, j: nat): int
    requires i < j <= |s|
  {
    if j == i + 1 then Signed(s[i]) else Twos(s, i, j - 1) * 256 + s[j - 1]
  }

  function Signed(o: Octet): int {
    if o < 128 then o else o - 256
  }

  /** The value of contents octets; the sources take no octets for zero. */
  function Value(s: seq<Octet>): int {
    if s == [] then 0 else Twos(s, 0, |s|)
  }

  /** X.690 8.3.2: the first octet and bit 8 of the second are all ones, or all zero. */
  predicate Superfluous(s: seq<Octet>, i: nat)
    requires i + 1 < |s|
  {
    (s[i] == 0 && s[i + 1] < 128) || (s[i] == 255 && s[i + 1] >= 128)
  }

  predicate IsMinimal(s: seq<Octet>) {
    |s| > 0 && (|s| > 1 ==> !Superfluous(s, 0))
  }

  /** Half the number of values that n octets tell apart. */
  function Half(n: nat): nat
    requires n > 0
  {
    if n == 1 then 128 else 256 * Half(n - 1)
  }

  /** v has a two's complement spelling in n octets. */
  predicate Fits(v: int, n: nat)
    requires n > 0
  {
    0 - Half(n) <= v < Half(n)
  }

  lemma {:induction false} HalfGrows(m: nat, n: nat)
    requires 0 < m <= n
    ensures Half(m) <= Half(n)
  {
    if m < n {
      HalfGrows(m, n - 1);
    }
  }

  lemma Half8()
    ensures Half(8) == TWO_TO_63
  {
    assert Half(4) == 0x8000_0000;
    assert Half(6) == 0x8000_0000_0000;
  }

  lemma {:induction false} TwosFits(s: seq<Octet>, i: nat, j: nat)
    requires i < j <= |s|
    ensures Fits(Twos(s, i, j), j - i)
  {
    if i + 1 < j {
      TwosFits(s, i, j - 1);
    }
  }

  /** A superfluous octet can be dropped: the value stays. */
  lemma {:induction false} DropSuperfluous(s: seq<Octet>, i: nat, j: nat)
    requires i + 1 < j <= |s| && Superfluous(s, i)
    ensures Twos(s, i, j) == Twos(s, i + 1, j)
  {
    if i + 2 < j {
      DropSuperfluous(s, i, j - 1);
    } else {
      assert Twos(s, i, i + 1) == Signed(s[i]);
    }
  }

  /** No other octet can: the value needs them all. */
  lemma {:induction false} NeedsAll(s: seq<Octet>, i: nat, j: nat)
    requires i + 1 < j <= |s| && !Superfluous(s, i)
    ensures !Fits(Twos(s, i, j), j - i - 1)
  {
    if i + 2 < j {
      NeedsAll(s, i, j - 1);
    } else {
      assert Twos(s, i, i + 1) == Signed(s[i]);
    }
  }

  lemma {:induction false} TwosMoved(s: seq<Octet>, i: nat, j: nat, t: seq<Octet>, k: nat)
    requires i < j <= |s| && k + (j - i) <= |t|
    requires forall m :: i <= m < j ==> s[m] == t[m - i + k]
    ensures Twos(s, i, j) == Twos(t, k, k + (j - i))
  {
    if i + 1 < j {
      TwosMoved(s, i, j - 1, t, k);
    }
  }

  /** Octets of the same number that spell the same value are the same. */
  lemma {:induction false} TwosInjective(s: seq<Octet>, t: seq<Octet>, j: nat)
    requires 0 < j <= |s| && j <= |t| && Twos(s, 0, j) == Twos(t, 0, j)
    ensures s[..j] == t[..j]
  {
    if j > 1 {
      TwosInjective(s, t, j - 1);
      assert s[..j] == s[..j - 1] + [s[j - 1]] && t[..j] == t[..j - 1] + [t[j - 1]];
    }
  }

  /** Minimal octets are the only minimal ones with their value. */
  lemma MinimalUnique(s: seq<Octet>, t: seq<Octet>)
    requires IsMinimal(s) && IsMinimal(t) && Value(s) == Value(t)
    ensures s == t
  {
    MinimalShortest(s, t);
    MinimalShortest(t, s);
    TwosInjective(s, t, |s|);
    assert s[..|s|] == s && t[..|t|] == t;
  }

  /** No octets with the same value are fewer. */
  lemma MinimalShortest(s: seq<Octet>, t: seq<Octet>)
    requires IsMinimal(s) && t != [] && Value(s) == Value(t)
    ensures |s| <= |t|
  {
    if |t| < |s| {
      NeedsAll(s, 0, |s|);
      TwosFits(t, 0, |t|);
      HalfGrows(|t|, |s| - 1);
    }
  }

  /** The minimal octets of v. */
  function Minimal(v: int): (s: seq<Octet>)
    decreases if v < 0 then -v else v
  {
    if -128 <= v < 128 then [v % 256] else Minimal(v / 256) + [v % 256]
  }

  lemma {:induction false} MinimalSpells(v: int)
    ensures var s := Minimal(v); IsMinimal(s) && Value(s) == v
    decreases if v < 0 then -v else v
  {
    if !(-128 <= v < 128) {
      var head := Minimal(v / 256);
      MinimalSpells(v / 256);
      MinimalMore(head, v);
    }
  }

  lemma MinimalMore(head: seq<Octet>, v: int)
    requires IsMinimal(head) && Value(head) == v / 256 && !(-128 <= v < 128)
    ensures IsMinimal(head + [v % 256]) && Value(head + [v % 256]) == v
  {
    TwosMoved(head, 0, |head|, head + [v % 256], 0);
  }

  lemma {:induction false} LowOctetsSpell(v: int, k: nat)
    requires k > 0 && Fits(v, k)
    ensures Twos(LowOctets(v, k), 0, k) == v
    decreases k
  {
    if k > 1 {
      LowOctetsSpell(v / 256, k - 1);
      TwosMoved(LowOctets(v / 256, k - 1), 0, k - 1, LowOctets(v, k), 0);
    } else {
      assert LowOctets(v / 256, 0) == [];
    }
  }

  /** How many leading octets are superfluous. */
  method CountSuperfluous(buf: seq<Octet>) returns (shift: nat)
    requires buf != []
    ensures shift < |buf| && buf[shift..] == Minimal(Value(buf))
  {
    shift := 0;
    while shift < |buf| - 1
      invariant 0 <= shift < |buf| && Twos(buf, shift, |buf|) == Value(buf)
    {
      if buf[shift] == 0 {
        if buf[shift + 1] >= 128 {
          break;
        }
      } else if buf[shift] == 255 {
        if buf[shift + 1] < 128 {
          break;
        }
      } else {
        break;
      }
      DropSuperfluous(buf, shift, |buf|);
      shift := shift + 1;
    }
    TailIsMinimal(buf, shift);
  }

  lemma TailIsMinimal(buf: seq<Octet>, shift: nat)
    requires shift < |buf| && (shift + 1 < |buf| ==> !Superfluous(buf, shift))
    ensures buf[shift..] == Minimal(Twos(buf, shift, |buf|))
  {
    TwosMoved(buf, shift, |buf|, buf[shift..], 0);
    var v := Twos(buf, shift, |buf|);
    MinimalSpells(v);
    MinimalUnique(buf[shift..], Minimal(v));
  }

  /** asn__integer_convert: sign-extend and shift in, modulo 2^64. */
  method Convert(buf: seq<Octet>, start: nat) returns (value: I64)
    requires start < |buf| <= start + 8
    ensures value == Twos(buf, start, |buf|)
  {
    var word: U64 := if buf[start] >= 128 then TWO_TO_64 - 1 else 0;
    ghost var v: int := if buf[start] >= 128 then -1 else 0;
    var b := start;
    while b < |buf|
      invariant start <= b <= |buf| && word == v % TWO_TO_64
      invariant v == if b > start then Twos(buf, start, b) else if buf[start] >= 128 then -1 else 0
    {
      hide Twos;
      TwosNext(buf, start, b);
      ShiftIn(v, word, buf[b]);
      word := (word * 256 + buf[b]) % TWO_TO_64;
      v := v * 256 + buf[b];
      b := b + 1;
    }
    TwosWord(buf, start, word);
    value := AsInt64(word);
  }

  lemma TwosWord(buf: seq<Octet>, start: nat, word: U64)
    requires start < |buf| <= start + 8 && word == Twos(buf, start, |buf|) % TWO_TO_64
    ensures AsInt64(word) == Twos(buf, start, |buf|)
  {
    TwosFits(buf, start, |buf|);
    HalfGrows(|buf| - start, 8);
    Half8();
  }

  lemma TwosNext(s: seq<Octet>, i: nat, j: nat)
    requires i <= j < |s|
    ensures Twos(s, i, j + 1)
         == 256 * (if j > i then Twos(s, i, j) else if s[i] >= 128 then -1 else 0) + s[j]
  {
  }

  lemma ShiftIn(v: int, word: int, o: Octet)
    requires word == v % TWO_TO_64
    ensures (word * 256 + o) % TWO_TO_64 == (v * 256 + o) % TWO_TO_64
  {
    var q := v / TWO_TO_64;
    assert v * 256 + o == (word * 256 + o) + q * 256 * TWO_TO_64;
    Multiple(word * 256 + o, q * 256);
  }

  lemma Multiple(x: int, q: int)
    ensures (x + q * TWO_TO_64) % TWO_TO_64 == x % TWO_TO_64
  {
    var d := x / TWO_TO_64;
    assert x + q * TWO_TO_64 == (d + q) * TWO_TO_64 + x % TWO_TO_64;
  }

  /** The octets read as an unsigned number. */
  function Unsigned(s: seq<Octet>): nat {
    Radix256(s, 0, |s|)
  }

  /** The unsigned reading is the value just if the first octet does not say negative. */
  lemma UnsignedIsValue(s: seq<Octet>)
    ensures Unsigned(s) == Value(s) <==> s == [] || s[0] < 128
  {
    if s != [] {
      UnsignedLead(s, |s|);
    }
  }

  lemma {:induction false} UnsignedLead(s: seq<Octet>, j: nat)
    requires 0 < j <= |s|
    ensures s[0] < 128 ==> Radix256(s, 0, j) == Twos(s, 0, j)
    ensures s[0] >= 128 ==> Radix256(s, 0, j) > Twos(s, 0, j)
  {
    if j > 1 {
      UnsignedLead(s, j - 1);
    } else {
      assert Radix256(s, 0, 0) == 0;
    }
  }

  lemma {:induction false} RadixFits(s: seq<Octet>, i: nat, j: nat)
    requires i < j <= |s|
    ensures Radix256(s, i, j) < 2 * Half(j - i)
  {
    if i + 1 < j {
      RadixFits(s, i, j - 1);
    } else {
      assert Radix256(s, i, i) == 0;
    }
  }

  lemma {:induction false} LeadingZeros(s: seq<Octet>, i: nat, j: nat)
    requires i <= j <= |s| && forall k :: 0 <= k < i ==> s[k] == 0
    ensures Radix256(s, 0, j) == Radix256(s, i, j)
  {
    if i < j {
      LeadingZeros(s, i, j - 1);
    } else if j > 0 {
      LeadingZeros(s, i - 1, j - 1);
      assert Radix256(s, i - 1, j - 1) == 0;
    }
  }

  lemma {:induction false} LeadingOctet(s: seq<Octet>, i: nat, j: nat)
    requires i < j <= |s| && s[i] > 0
    ensures 256 * Radix256(s, i, j) >= 2 * Half(j - i)
  {
    if i + 1 < j {
      LeadingOctet(s, i, j - 1);
    } else {
      assert Radix256(s, i, i) == 0;
    }
  }

  /** INTEGER_t: the contents octets of an INTEGER. */
  class INTEGER {
    var buf: seq<Octet>

    constructor (buf: seq<Octet>)
      ensures this.buf == buf
    {
      this.buf := buf;
    }

    /** INTEGER_encode_der: the contents octets sent are the minimal ones with the same value. */
    method DerContents() returns (octets: seq<Octet>)
      ensures buf != [] ==> octets == Minimal(Value(buf))
      ensures buf == [] ==> octets == []
    {
      if buf == [] {
        return [];
      }
      var shift := CountSuperfluous(buf);
      octets := buf[shift..];
    }

    /** asn_imax2INTEGER, asn_int642INTEGER and asn_long2INTEGER. */
    method FromImax(value: I64)
      modifies this
      ensures buf == Minimal(value)
    {
      var memory := LowOctets(value, 8);
      Half8();
      LowOctetsSpell(value, 8);
      var p := CountSuperfluous(memory);
      buf := [];
      ghost var start := p;
      while p < 8
        invariant start <= p <= 8 && buf == memory[start..p]
      {
        assert memory[start..p + 1] == memory[start..p] + [memory[p]];
        buf := buf + [memory[p]];
        p := p + 1;
      }
    }

    /** asn_umax2INTEGER and asn_uint642INTEGER. */
    method FromUmax(value: U64)
      modifies this
      ensures buf == Minimal(value)
    {
      if value < TWO_TO_63 {
        FromImax(value);
        return;
      }
      buf := [0];
      var b, shr := 1, 56;
      while b < 9
        invariant 1 <= b <= 9 && shr == 8 * (8 - b) && |buf| == b && buf[0] == 0
        invariant forall k :: 1 <= k < b ==> buf[k] == WordOctets(value, 8)[k - 1]
      {
        WordOctetAt(value, 8, b - 1);
        buf := buf + [Shr(value, shr) % 256];
        b, shr := b + 1, shr - 8;
      }
      BigIsMinimal(buf, value);
    }

    /** asn_ulong2INTEGER goes through the signed converter. */
    method FromUlong(value: U64)
      modifies this
      ensures buf == Minimal(AsInt64(value))
    {
      FromImax(AsInt64(value));
    }

    /** asn_INTEGER2imax and asn_INTEGER2long: fails just if the value is not one of intmax_t. */
    method ToImax() returns (ok: bool, value: I64)
      ensures ok <==> -TWO_TO_63 <= Value(buf) < TWO_TO_63
      ensures ok ==> value == Value(buf)
    {
      var b := 0;
      if |buf| > 8 {
        b := CountSuperfluous(buf);
        MinimalSpells(Value(buf));
        TwosMoved(buf, b, |buf|, buf[b..], 0);
        if |buf| - b > 8 {
          NeedsAll(buf, b, |buf|);
          HalfGrows(8, |buf| - b - 1);
          Half8();
          return false, 0;
        }
      }
      if b == |buf| {
        return true, 0;
      }
      TwosFits(buf, b, |buf|);
      HalfGrows(|buf| - b, 8);
      Half8();
      value := Convert(buf, b);
      ok := true;
    }

    /** asn_INTEGER2umax and asn_INTEGER2ulong: fails just if the unsigned reading does not fit. */
    method ToUmax() returns (ok: bool, value: U64)
      ensures ok <==> Unsigned(buf) < TWO_TO_64
      ensures ok ==> value == Unsigned(buf)
    {
      hide Radix256;
      var b := 0;
      while |buf| - b > 8
        invariant 0 <= b <= |buf| && (b > 0 ==> |buf| - b >= 8)
        invariant forall k :: 0 <= k < b ==> buf[k] == 0
      {
        if buf[b] != 0 {
          TooBig(buf, b);
          return false, 0;
        }
        b := b + 1;
      }
      LeadingZeros(buf, b, |buf|);
      UmaxFits(buf, b);
      value := 0;
      ghost var start := b;
      NoDigits(buf, b);
      while b < |buf|
        invariant start <= b <= |buf| && value == Radix256(buf, start, b)
      {
        RadixMonotone(buf, start, b + 1, |buf|);
        NextDigit(buf, start, b);
        value := (value * 256) % TWO_TO_64 + buf[b];
        b := b + 1;
      }
      ok := true;
    }
  }

  lemma NoDigits(s: seq<Octet>, i: nat)
    requires i <= |s|
    ensures Radix256(s, i, i) == 0
  {
  }

  lemma NextDigit(s: seq<Octet>, i: nat, j: nat)
    requires i <= j < |s|
    ensures Radix256(s, i, j + 1) == Radix256(s, i, j) * 256 + s[j]
  {
  }

  /** A non-zero octet in front of eight others. */
  lemma TooBig(s: seq<Octet>, b: nat)
    requires b + 8 < |s| && s[b] != 0 && forall k :: 0 <= k < b ==> s[k] == 0
    ensures Unsigned(s) >= TWO_TO_64
  {
    LeadingZeros(s, b, |s|);
    LeadingOctet(s, b, |s|);
    HalfGrows(9, |s| - b);
    Half8();
  }

  lemma UmaxFits(s: seq<Octet>, b: nat)
    requires b <= |s| <= b + 8
    ensures Radix256(s, b, |s|) < TWO_TO_64
  {
    if b < |s| {
      RadixFits(s, b, |s|);
      HalfGrows(|s| - b, 8);
      Half8();
    }
  }

  lemma {:induction false} WordSpells(v: nat, k: nat)
    requires k > 0 && v < 2 * Half(k)
    ensures Radix256(WordOctets(v, k), 0, k) == v
    decreases k
  {
    if k > 1 {
      Shr8(v);
      WordSpells(v / 256, k - 1);
      RadixMoved(WordOctets(v / 256, k - 1), 0, k - 1, WordOctets(v, k), 0);
    } else {
      assert WordOctets(v / 256, 0) == [];
      assert Radix256(WordOctets(v, 1), 0, 0) == 0;
    }
  }

  lemma BigIsMinimal(buf: seq<Octet>, value: U64)
    requires value >= TWO_TO_63 && |buf| == 9 && buf[0] == 0
    requires forall k :: 1 <= k < 9 ==> buf[k] == WordOctets(value, 8)[k - 1]
    ensures buf == Minimal(value)
  {
    hide WordOctets, Twos, Half;
    BigSpells(buf, value);
    Half8();
    if buf[1] < 128 {
      DropSuperfluous(buf, 0, 9);
      TwosFits(buf, 1, 9);
    }
    MinimalSpells(value);
    MinimalUnique(buf, Minimal(value));
  }

  lemma BigSpells(buf: seq<Octet>, value: U64)
    requires |buf| == 9 && buf[0] == 0
    requires forall k :: 1 <= k < 9 ==> buf[k] == WordOctets(value, 8)[k - 1]
    ensures Twos(buf, 0, 9) == value
  {
    hide WordOctets, Twos, Half, Radix256;
    Half8();
    WordSpells(value, 8);
    RadixMoved(WordOctets(value, 8), 0, 8, buf, 1);
    LeadingZeros(buf, 1, 9);
    UnsignedLead(buf, 9);
  }

  /** What the signed converter makes of an unsigned long is its value just below 2^63. */
  lemma UlongKept(value: U64)
    ensures Value(Minimal(AsInt64(value))) == value <==> value < TWO_TO_63
  {
    MinimalSpells(AsInt64(value));
  }

  /** Every intmax_t comes back, and so does every uintmax_t. */
  method ConvertedBack(st: INTEGER, signed: I64, unsigned: U64) returns (i: I64, u: U64)
    modifies st
    ensures i == signed && u == unsigned && st.buf == Minimal(unsigned)
  {
    var ok;
    st.FromImax(signed);
    MinimalSpells(signed);
    ok, i := st.ToImax();
    st.FromUmax(unsigned);
    MinimalSpells(unsigned);
    MinimalSign(unsigned);
    UnsignedIsValue(st.buf);
    ok, u := st.ToUmax();
  }

  /** The first octet says whether the value is negative. */
  lemma {:induction false} SignOctet(s: seq<Octet>, j: nat)
    requires 0 < j <= |s|
    ensures Twos(s, 0, j) < 0 <==> s[0] >= 128
  {
    if j > 1 {
      SignOctet(s, j - 1);
    }
  }

  lemma MinimalSign(v: int)
    ensures Minimal(v)[0] >= 128 <==> v < 0
  {
    MinimalSpells(v);
    SignOctet(Minimal(v), |Minimal(v)|);
  }

  /**
   * INTEGER_compare, up to the magnitude of the result. With no octets in a and some in b the source reads
   * an octet that is not there.
   */
  function Compare(a: seq<Octet>, b: seq<Octet>): int
    requires a == [] ==> b == []
  {
    if b == [] then
      if a == [] then 0 else if a[0] >= 128 then -1 else 1
    else
      var signA := if a[0] >= 128 then -1 else 1;
      var signB := if b[0] >= 128 then -1 else 1;
      if signA < signB then -1
      else if signA > signB then 1
      else if |a| < |b| then -1 * signA
      else if |a| > |b| then 1 * signB
      else signA * Memcmp(a, b)
  }

  /** memcmp orders octets like the numbers they spell. */
  lemma {:induction false} MemcmpNumeric(a: seq<Octet>, b: seq<Octet>, i: nat)
    requires |a| == |b| && i <= |a| && a[..i] == b[..i]
    ensures Memcmp(a[i..], b[i..]) < 0 <==> Unsigned(a) < Unsigned(b)
    ensures Memcmp(a[i..], b[i..]) > 0 <==> Unsigned(a) > Unsigned(b)
    decreases |a| - i
  {
    if i == |a| {
      assert a[..i] == a && b[..i] == b;
    } else if a[i] == b[i] {
      MemcmpNumeric(a, b, i + 1);
      assert a[i..][1..] == a[i + 1..] && b[i..][1..] == b[i + 1..];
    } else if a[i] < b[i] {
      FirstDifference(a, b, i, |a|);
    } else {
      FirstDifference(b, a, i, |a|);
    }
  }

  lemma {:induction false} FirstDifference(a: seq<Octet>, b: seq<Octet>, i: nat, j: nat)
    requires i < j <= |a| && j <= |b| && a[..i] == b[..i] && a[i] < b[i]
    ensures Radix256(a, 0, j) < Radix256(b, 0, j)
  {
    if i + 1 < j {
      FirstDifference(a, b, i, j - 1);
    } else {
      RadixMoved(a[..i], 0, i, a, 0);
      RadixMoved(b[..i], 0, i, b, 0);
    }
  }

  /** A total order on non-empty contents octets, minimal or not: antisymmetric, and zero only on equal octets. */
  lemma CompareAntisymmetric(a: seq<Octet>, b: seq<Octet>)
    requires a != [] && b != []
    ensures Compare(a, b) == 0 - Compare(b, a)
    ensures Compare(a, b) == 0 <==> a == b
  {
    if |a| == |b| {
      MemcmpOrder(a, b);
    }
  }

  /** A total order: transitive. */
  lemma CompareTransitive(a: seq<Octet>, b: seq<Octet>, c: seq<Octet>)
    requires a != [] && b != [] && c != [] && Compare(a, b) <= 0 && Compare(b, c) <= 0
    ensures Compare(a, c) <= 0
  {
    if |a| == |b| == |c| {
      MemcmpOrder(a, b);
      MemcmpOrder(b, c);
      MemcmpOrder(a, c);
      if a[0] < 128 && c[0] < 128 && b[0] < 128 {
        MemcmpTransitive(a, b, c);
      } else if a[0] >= 128 && b[0] >= 128 && c[0] >= 128 {
        MemcmpTransitive(c, b, a);
      }
    }
  }

  function Sign(x: int): int {
    if x < 0 then -1 else if x > 0 then 1 else 0
  }

  /** Two negatives with equally many, different octets: what comparing their octets gets the wrong way round. */
  predicate EqualLengthNegatives(a: seq<Octet>, b: seq<Octet>)
    requires a != [] && b != []
  {
    a[0] >= 128 && b[0] >= 128 && |a| == |b| && a != b
  }

  /** The value of negative octets, against their unsigned reading. */
  lemma {:induction false} NegativeOffset(s: seq<Octet>, j: nat)
    requires 0 < j <= |s| && s[0] >= 128
    ensures Twos(s, 0, j) == Radix256(s, 0, j) - 2 * Half(j)
  {
    if j > 1 {
      NegativeOffset(s, j - 1);
    } else {
      assert Radix256(s, 0, 0) == 0;
    }
  }

  /**
   * On canonical INTEGERs the comparison is the numeric one just if they are not different negatives of equal
   * length; on those it is reversed.
   */
  lemma CompareExact(a: seq<Octet>, b: seq<Octet>)
    requires IsMinimal(a) && IsMinimal(b)
    ensures Compare(a, b) == Sign(Value(a) - Value(b)) <==> !EqualLengthNegatives(a, b)
    ensures EqualLengthNegatives(a, b) ==> Compare(a, b) == 0 - Sign(Value(a) - Value(b)) != 0
  {
    SignOctet(a, |a|);
    SignOctet(b, |b|);
    if |a| == |b| {
      MemcmpOrder(a, b);
      MemcmpNumeric(a, b, 0);
      assert a[0..] == a && b[0..] == b;
      if a[0] >= 128 && b[0] >= 128 {
        NegativeOffset(a, |a|);
        NegativeOffset(b, |b|);
      } else if a[0] < 128 && b[0] < 128 {
        UnsignedLead(a, |a|);
        UnsignedLead(b, |b|);
      }
    } else if |a| < |b| {
      Longer(a, b);
    } else {
      Longer(b, a);
    }
  }

  /** Of two canonical INTEGERs of one sign the longer is the farther from zero. */
  lemma Longer(a: seq<Octet>, b: seq<Octet>)
    requires IsMinimal(a) && IsMinimal(b) && |a| < |b|
    ensures Value(b) < 0 ==> Value(b) < Value(a)
    ensures Value(b) >= 0 ==> Value(a) < Value(b)
  {
    NeedsAll(b, 0, |b|);
    TwosFits(a, 0, |a|);
    HalfGrows(|a|, |b| - 1);
  }

  /** -128 and -127: the smaller one is told to be the larger. */
  lemma CompareExample()
    ensures IsMinimal([0x80]) && IsMinimal([0x81]) && Compare([0x80], [0x81]) == 1
    ensures Value([0x80]) == -128 < Value([0x81]) == -127
  {
    assert Memcmp([0x80], [0x81]) == -1;
  }

  /** 2^63, an unsigned long, comes out as -2^63. */
  lemma UlongExample()
    ensures Value(Minimal(AsInt64(TWO_TO_63))) == -TWO_TO_63
  {
    MinimalSpells(AsInt64(TWO_TO_63));
  }
}
