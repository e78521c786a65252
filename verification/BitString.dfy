/** BIT STRING (BIT_STRING.c; X.680 section 22.7): the octets without trailing zeros, and the order that looks past them. */
module BitString {
  import opened Octets
  import opened Words
  import opened Bits

  /** BIT_STRING_t. */
  datatype BitString = BitString(buf: seq<Octet>, unused: nat)
  {
    predicate Valid() {
      unused <= 7 && (buf == [] ==> unused == 0)
    }

    function Bits(): seq<bool>
      requires Valid()
    {
      OctetBits(buf)[..8 * |buf| - unused]
    }

    /** The last octet holds the last one bit, and the bits below it are unused. */
    predicate Compact() {
      Valid() && (buf != [] ==> buf[|buf| - 1] != 0 && unused == TrailingZeros(buf[|buf| - 1]))
    }

    /** The unused bits of the last octet are zero. */
    predicate Clear()
      requires Valid()
    {
      OctetBits(buf)[8 * |buf| - unused..] == Zeros(unused)
    }
  }

  /** The bits without trailing zeros. */
  function Stripped(b: seq<bool>): seq<bool> {
    if b == [] || b[|b| - 1] then b else Stripped(b[..|b| - 1])
  }

  lemma {:induction false} StrippedZeros(b: seq<bool>, n: nat)
    ensures Stripped(b + Zeros(n)) == Stripped(b)
  {
    if n > 0 {
      StrippedZeros(b, n - 1);
      assert (b + Zeros(n))[..|b| + n - 1] == b + Zeros(n - 1);
    } else {
      assert b + Zeros(0) == b;
    }
  }

  lemma {:induction false} StrippedIs(b: seq<bool>)
    ensures |Stripped(b)| <= |b| && b == Stripped(b) + Zeros(|b| - |Stripped(b)|)
    ensures Stripped(b) != [] ==> Stripped(b)[|Stripped(b)| - 1]
  {
    if b != [] && !b[|b| - 1] {
      StrippedIs(b[..|b| - 1]);
    }
  }

  /** Equal up to zeros at the end of the longer one. */
  predicate SameButZeros(x: seq<bool>, y: seq<bool>) {
    if |x| <= |y| then y == x + Zeros(|y| - |x|) else x == y + Zeros(|x| - |y|)
  }

  lemma StrippedEqual(x: seq<bool>, y: seq<bool>)
    ensures Stripped(x) == Stripped(y) <==> SameButZeros(x, y)
  {
    hide Stripped, Zeros;
    StrippedIs(x);
    StrippedIs(y);
    if |x| <= |y| {
      StrippedZeros(x, |y| - |x|);
      MoreZeros(Stripped(x), |x| - |Stripped(x)|, |y| - |x|);
    } else {
      StrippedZeros(y, |x| - |y|);
      MoreZeros(Stripped(y), |y| - |Stripped(y)|, |x| - |y|);
    }
  }

  lemma MoreZeros(b: seq<bool>, m: nat, n: nat)
    ensures b + Zeros(m) + Zeros(n) == b + Zeros(m + n)
  {
  }

  /** Lexicographic comparison, a proper prefix being the smaller one. */
  function Lex(x: seq<bool>, y: seq<bool>): int {
    if x == [] then if y == [] then 0 else -1
    else if y == [] then 1
    else if x[0] == y[0] then Lex(x[1..], y[1..])
    else if y[0] then -1
    else 1
  }

  lemma {:induction false} LexOrder(x: seq<bool>, y: seq<bool>)
    ensures Lex(x, y) == 0 - Lex(y, x) && (Lex(x, y) == 0 <==> x == y)
    ensures -1 <= Lex(x, y) <= 1
  {
    if x != [] && y != [] && x[0] == y[0] {
      LexOrder(x[1..], y[1..]);
      assert x == [x[0]] + x[1..] && y == [y[0]] + y[1..];
    }
  }

  lemma {:induction false} LexTransitive(x: seq<bool>, y: seq<bool>, z: seq<bool>)
    requires Lex(x, y) <= 0 && Lex(y, z) <= 0
    ensures Lex(x, z) <= 0
  {
    if x != [] && y != [] && z != [] && x[0] == y[0] == z[0] {
      LexTransitive(x[1..], y[1..], z[1..]);
    }
  }

  /** Equally many bits in front decide, or else the rest does. */
  lemma {:induction false} LexConcat(a: seq<bool>, b: seq<bool>, c: seq<bool>, d: seq<bool>)
    requires |a| == |c|
    ensures Lex(a + b, c + d) == if a == c then Lex(b, d) else Lex(a, c)
  {
    if a == [] {
      assert a + b == b && c + d == d;
    } else {
      LexConcat(a[1..], b, c[1..], d);
      assert (a + b)[1..] == a[1..] + b && (c + d)[1..] == c[1..] + d;
      assert a == [a[0]] + a[1..] && c == [c[0]] + c[1..];
    }
  }

  lemma {:induction false} LexBits(v: nat, w: nat, n: nat)
    requires Shr(v, n) == 0 && Shr(w, n) == 0
    ensures Lex(BitsOf(v, n), BitsOf(w, n)) == if v < w then -1 else if v > w then 1 else 0
  {
    if n > 0 {
      LexBits(v / 2, w / 2, n - 1);
      LexOrder(BitsOf(v / 2, n - 1), BitsOf(w / 2, n - 1));
      LexConcat(BitsOf(v / 2, n - 1), [v % 2 == 1], BitsOf(w / 2, n - 1), [w % 2 == 1]);
      assert [v % 2 == 1][1..] == [] && [w % 2 == 1][1..] == [];
    }
  }

  /** Octets compare like their bits. */
  lemma {:induction false} LexOctets(s: seq<Octet>, t: seq<Octet>)
    requires |s| == |t|
    ensures Lex(OctetBits(s), OctetBits(t)) == Memcmp(s, t)
  {
    hide BitsOf;
    if s != [] {
      LexOctets(s[1..], t[1..]);
      Front(s);
      Front(t);
      LexConcat(BitsOf(s[0], 8), OctetBits(s[1..]), BitsOf(t[0], 8), OctetBits(t[1..]));
      OctetFits(s[0]);
      OctetFits(t[0]);
      LexBits(s[0], t[0], 8);
      if BitsOf(s[0], 8) == BitsOf(t[0], 8) {
        OctetInjective(s[0], t[0]);
      }
    }
  }

  lemma Front(s: seq<Octet>)
    requires s != []
    ensures OctetBits(s) == BitsOf(s[0], 8) + OctetBits(s[1..])
  {
    hide BitsOf, OctetBits;
    OctetBitsConcat([s[0]], s[1..]);
    OctetBitsOne(s[0]);
    assert s == [s[0]] + s[1..];
  }

  /** Of equally many bits, the trailing zeros do not matter. */
  lemma {:induction false} LexStripped(x: seq<bool>, y: seq<bool>)
    requires |x| == |y|
    ensures Lex(Stripped(x), Stripped(y)) == Lex(x, y)
  {
    StrippedIs(x);
    StrippedIs(y);
    var p, q := Stripped(x), Stripped(y);
    LexPadded(p, q, |x| - |p|, |y| - |q|);
  }

  /** Padding with zeros keeps the order of bits that end in a one. */
  lemma {:induction false} LexPadded(p: seq<bool>, q: seq<bool>, m: nat, n: nat)
    requires (p != [] ==> p[|p| - 1]) && (q != [] ==> q[|q| - 1]) && |p| + m == |q| + n
    ensures Lex(p, q) == Lex(p + Zeros(m), q + Zeros(n))
  {
    if p == [] {
      assert p + Zeros(m) == Zeros(m);
      LexAgainstZeros(q, n, m);
      LexOrder(p + Zeros(m), q + Zeros(n));
    } else if q == [] {
      assert q + Zeros(n) == Zeros(n);
      LexAgainstZeros(p, m, n);
    } else if p[0] == q[0] {
      LexPadded(p[1..], q[1..], m, n);
      assert (p + Zeros(m))[1..] == p[1..] + Zeros(m) && (q + Zeros(n))[1..] == q[1..] + Zeros(n);
    }
  }

  lemma {:induction false} LexAgainstZeros(p: seq<bool>, m: nat, n: nat)
    requires (p != [] ==> p[|p| - 1]) && |p| + m == n
    ensures Lex(p + Zeros(m), Zeros(n)) == if p == [] then 0 else 1
    decreases |p|
  {
    if p == [] {
      LexOrder(Zeros(n), Zeros(n));
      assert p + Zeros(m) == Zeros(n);
    } else if !p[0] {
      LexAgainstZeros(p[1..], m, n - 1);
      assert (p + Zeros(m))[1..] == p[1..] + Zeros(m) && Zeros(n)[1..] == Zeros(n - 1);
    }
  }

  /** `a & b` on numbers that are not negative. */
  function And(a: nat, b: nat): nat {
    if a == 0 || b == 0 then 0 else 2 * And(a / 2, b / 2) + (if a % 2 == 1 && b % 2 == 1 then 1 else 0)
  }

  /** How many zeros a number other than 0 ends in. */
  function TrailingZeros(v: nat): nat
    requires v > 0
  {
    if v % 2 == 1 then 0 else 1 + TrailingZeros(v / 2)
  }

  lemma {:induction false} TrailingZerosAre(v: nat, n: nat)
    requires v > 0 && Shr(v, n) == 0
    ensures TrailingZeros(v) < n
    ensures BitsOf(v, n) == BitsOf(Shr(v, TrailingZeros(v) + 1), n - 1 - TrailingZeros(v)) + [true] + Zeros(TrailingZeros(v))
  {
    if v % 2 == 1 {
      assert n > 0 && Shr(v, 1) == Shr(v / 2, 0) == v / 2;
      assert BitsOf(v, n) + Zeros(0) == BitsOf(v, n);
    } else {
      TrailingZerosAre(v / 2, n - 1);
      var head := BitsOf(Shr(v, TrailingZeros(v) + 1), n - 1 - TrailingZeros(v)) + [true];
      var t := TrailingZeros(v / 2);
      assert head + Zeros(t) + [false] == head + Zeros(t + 1);
    }
  }

  /** A number below 2^n and its complement have no bit in common. */
  lemma {:induction false} AndComplement(v: nat, n: nat)
    requires Shr(v, n) == 0
    ensures v < Shl(1, n) && And(v, Shl(1, n) - 1 - v) == 0
  {
    if n > 0 {
      ShlOnce(1, n - 1);
      AndComplement(v / 2, n - 1);
    }
  }

  /** The lowest set bit: v & -v, in n bits. */
  lemma {:induction false} AndNegated(v: nat, n: nat)
    requires v > 0 && Shr(v, n) == 0
    ensures v < Shl(1, n) && And(v, Shl(1, n) - v) == Shl(1, TrailingZeros(v))
  {
    ShlOnce(1, n - 1);
    if v % 2 == 1 {
      AndComplement(v / 2, n - 1);
    } else {
      AndNegated(v / 2, n - 1);
      ShlOnce(1, TrailingZeros(v / 2));
    }
  }

  /** How many bits below the lowest set bit, by three masks. */
  method LowestSetBit(v: Octet) returns (unused: nat)
    requires v != 0
    ensures unused == TrailingZeros(v) <= 7
  {
    hide And, Shl, Shr, TrailingZeros, BitsOf;
    OctetFits(v);
    AndNegated(v, 8);
    Shl8(1);
    TrailingZerosAre(v, 8);
    var low := And(v, (256 - v) % 256);
    unused := MaskedPosition(low, TrailingZeros(v));
  }

  method MaskedPosition(low: nat, ghost j: nat) returns (unused: nat)
    requires j <= 7 && low == Shl(1, j)
    ensures unused == j
  {
    hide And, Shl;
    PowersMasked(j);
    unused := 7;
    if And(low, 0x0F) != 0 {
      unused := unused - 4;
    }
    if And(low, 0x33) != 0 {
      unused := unused - 2;
    }
    if And(low, 0x55) != 0 {
      unused := unused - 1;
    }
  }

  lemma PowersMasked(j: nat)
    requires j <= 7
    ensures And(Shl(1, j), 0x0F) != 0 <==> j < 4
    ensures And(Shl(1, j), 0x33) != 0 <==> j % 4 < 2
    ensures And(Shl(1, j), 0x55) != 0 <==> j % 2 == 0
  {
    SingleBit(0x0F, j);
    SingleBit(0x33, j);
    SingleBit(0x55, j);
    hide And, Shl;
    MaskBits(j);
  }

  lemma MaskBits(j: nat)
    requires j <= 7
    ensures Shr(0x0F, j) % 2 == (if j < 4 then 1 else 0)
    ensures Shr(0x33, j) % 2 == (if j % 4 < 2 then 1 else 0)
    ensures Shr(0x55, j) % 2 == (if j % 2 == 0 then 1 else 0)
  {
    if j == 0 {
      assert Shr(0x0F, 0) == 15 && Shr(0x33, 0) == 51 && Shr(0x55, 0) == 85;
    } else if j == 1 {
      assert Shr(0x0F, 1) == 7 && Shr(0x33, 1) == 25 && Shr(0x55, 1) == 42;
    } else if j == 2 {
      assert Shr(0x0F, 2) == 3 && Shr(0x33, 2) == 12 && Shr(0x55, 2) == 21;
    } else if j == 3 {
      assert Shr(0x0F, 3) == 1 && Shr(0x33, 3) == 6 && Shr(0x55, 3) == 10;
    } else if j == 4 {
      assert Shr(0x0F, 4) == 0 && Shr(0x33, 4) == 3 && Shr(0x55, 4) == 5;
    } else if j == 5 {
      assert Shr(0x0F, 5) == 0 && Shr(0x33, 5) == 1 && Shr(0x55, 5) == 2;
    } else if j == 6 {
      assert Shr(0x0F, 6) == 0 && Shr(0x33, 6) == 0 && Shr(0x55, 6) == 1;
    } else if j == 7 {
      assert Shr(0x0F, 7) == 0 && Shr(0x33, 7) == 0 && Shr(0x55, 7) == 0;
    }
  }

  lemma {:induction false} SingleBit(m: nat, j: nat)
    ensures And(Shl(1, j), m) != 0 <==> Shr(m, j) % 2 == 1
    decreases j
  {
    if j > 0 {
      ShlOnce(1, j - 1);
      SingleBit(m / 2, j - 1);
    }
  }

  function ZeroOctets(n: nat): (s: seq<Octet>)
    ensures |s| == n
  {
    seq(n, _ => 0)
  }

  lemma {:induction false} ZeroOctetBits(n: nat)
    ensures OctetBits(ZeroOctets(n)) == Zeros(8 * n)
  {
    hide BitsOf;
    if n > 0 {
      ZeroOctetBits(n - 1);
      BitsOfZero(8);
      assert ZeroOctets(n)[..n - 1] == ZeroOctets(n - 1);
    }
  }

  /** The bits of octets that end in one with a given lowest set bit. */
  lemma LastOctet(s: seq<Octet>)
    requires s != [] && s[|s| - 1] != 0
    ensures TrailingZeros(s[|s| - 1]) < 8
    ensures Stripped(OctetBits(s)) == OctetBits(s)[..8 * |s| - TrailingZeros(s[|s| - 1])]
  {
    hide BitsOf, TrailingZeros, Stripped, Zeros, OctetBits, Shr;
    var o := s[|s| - 1];
    Back(s);
    OctetFits(o);
    TrailingZerosAre(o, 8);
    OneAndZeros(OctetBits(s[..|s| - 1]), BitsOf(Shr(o, TrailingZeros(o) + 1), 7 - TrailingZeros(o)), TrailingZeros(o));
  }

  lemma Back(s: seq<Octet>)
    requires s != []
    ensures OctetBits(s) == OctetBits(s[..|s| - 1]) + BitsOf(s[|s| - 1], 8)
  {
    hide BitsOf;
  }

  lemma OneAndZeros(a: seq<bool>, b: seq<bool>, n: nat)
    ensures var s := a + (b + [true] + Zeros(n)); Stripped(s) == s[..|a| + |b| + 1]
  {
    StrippedZeros(a + b + [true], n);
    assert a + (b + [true] + Zeros(n)) == a + b + [true] + Zeros(n);
  }

  /** BIT_STRING__compactify: the octets up to the last one bit, and no others. */
  method Compactify(st: BitString) returns (tmp: BitString)
    requires st.Valid()
    ensures tmp.Compact() && tmp.buf <= st.buf && tmp.Bits() == Stripped(OctetBits(st.buf))
    ensures Stripped(OctetBits(tmp.buf)) == Stripped(OctetBits(st.buf))
  {
    hide BitsOf, OctetBits, TrailingZeros;
    if st.buf == [] {
      return st;
    }
    var b := |st.buf| - 1;
    assert st.buf[..b + 1] == st.buf;
    while b > 0 && st.buf[b] == 0
      invariant 0 <= b < |st.buf|
      invariant Stripped(OctetBits(st.buf[..b + 1])) == Stripped(OctetBits(st.buf))
    {
      DropZeroOctet(st.buf, b);
      b := b - 1;
    }
    if st.buf[b] != 0 {
      LastOctet(st.buf[..b + 1]);
      var unused := LowestSetBit(st.buf[b]);
      tmp := BitString(st.buf[..b + 1], unused);
    } else {
      DropZeroOctet(st.buf, b);
      tmp := BitString(st.buf[..b], 0);
    }
  }

  lemma DropZeroOctet(s: seq<Octet>, b: nat)
    requires b < |s| && s[b] == 0
    ensures Stripped(OctetBits(s[..b])) == Stripped(OctetBits(s[..b + 1]))
  {
    hide BitsOf;
    BitsOfZero(8);
    assert s[..b + 1][..b] == s[..b];
    StrippedZeros(OctetBits(s[..b]), 8);
  }

  lemma {:induction false} MemcmpConcat(a: seq<Octet>, b: seq<Octet>, c: seq<Octet>, d: seq<Octet>)
    requires |a| == |c| && |b| == |d|
    ensures Memcmp(a + b, c + d) == if Memcmp(a, c) != 0 then Memcmp(a, c) else Memcmp(b, d)
  {
    if a == [] {
      assert a + b == b && c + d == d;
    } else {
      MemcmpConcat(a[1..], b, c[1..], d);
      assert (a + b)[1..] == a[1..] + b && (c + d)[1..] == c[1..] + d;
    }
  }

  lemma {:induction false} ZerosBelow(d: seq<Octet>)
    requires d != [] && d[|d| - 1] != 0
    ensures Memcmp(ZeroOctets(|d|), d) == -1
  {
    if |d| > 1 && d[0] == 0 {
      ZerosBelow(d[1..]);
      assert ZeroOctets(|d|)[1..] == ZeroOctets(|d| - 1);
    }
  }

  predicate IsCompact(s: seq<Octet>) {
    s != [] ==> s[|s| - 1] != 0
  }

  /** Octets that end in ones compare, as bits, by their common prefix and then by their lengths. */
  lemma CompactLex(p: seq<Octet>, q: seq<Octet>)
    requires IsCompact(p) && IsCompact(q) && |p| <= |q|
    ensures Lex(Stripped(OctetBits(p)), Stripped(OctetBits(q)))
         == var c := Memcmp(p, q[..|p|]); if c != 0 then c else if |p| < |q| then -1 else 0
  {
    hide BitsOf, OctetBits, Lex, Stripped, Memcmp;
    var k := |q| - |p|;
    var padded := p + ZeroOctets(k);
    OctetBitsConcat(p, ZeroOctets(k));
    ZeroOctetBits(k);
    StrippedZeros(OctetBits(p), 8 * k);
    LexOctets(padded, q);
    LexStripped(OctetBits(padded), OctetBits(q));
    assert q == q[..|p|] + q[|p|..];
    MemcmpConcat(p, ZeroOctets(k), q[..|p|], q[|p|..]);
    if k > 0 {
      ZerosBelow(q[|p|..]);
    } else {
      MemcmpOrder(ZeroOctets(k), q[|p|..]);
      assert ZeroOctets(k) == q[|p|..];
    }
  }

  /** Unused bits that are zero do not count. */
  lemma ClearUnused(st: BitString)
    requires st.Valid() && st.Clear()
    ensures Stripped(OctetBits(st.buf)) == Stripped(st.Bits())
  {
    hide BitsOf, OctetBits;
    assert OctetBits(st.buf) == st.Bits() + Zeros(st.unused);
    StrippedZeros(st.Bits(), st.unused);
  }

  /** Compact bit strings end in a one, and what they do not use is zero. */
  lemma CompactBits(st: BitString)
    requires st.Compact()
    ensures st.Bits() == Stripped(st.Bits()) && st.Clear()
  {
    hide BitsOf, TrailingZeros, OctetBits;
    if st.buf == [] {
    } else {
      LastOctet(st.buf);
      StrippedIs(OctetBits(st.buf));
    }
  }

  /** No bit string that differs from a compact one in trailing zeros only takes fewer octets. */
  lemma CompactShortest(compact: BitString, other: BitString)
    requires compact.Compact() && other.Valid() && SameButZeros(compact.Bits(), other.Bits())
    ensures |compact.buf| <= |other.buf|
  {
    hide BitsOf, TrailingZeros, OctetBits;
    CompactBits(compact);
    StrippedEqual(compact.Bits(), other.Bits());
    StrippedIs(other.Bits());
  }

  /** Compact bit strings that differ in trailing zeros only are the same. */
  lemma CompactUnique(x: BitString, y: BitString)
    requires x.Compact() && y.Compact() && SameButZeros(x.Bits(), y.Bits())
    ensures x == y
  {
    hide BitsOf, TrailingZeros, OctetBits, SameButZeros;
    CompactBits(x);
    CompactBits(y);
    StrippedEqual(x.Bits(), y.Bits());
    CompactShortest(x, y);
    CompactShortest(y, x) by { SameIsSymmetric(x.Bits(), y.Bits()); }
    assert OctetBits(x.buf) == x.Bits() + Zeros(x.unused);
    assert OctetBits(y.buf) == y.Bits() + Zeros(y.unused);
    OctetBitsInjective(x.buf, y.buf);
  }

  lemma SameIsSymmetric(x: seq<bool>, y: seq<bool>)
    requires SameButZeros(x, y)
    ensures SameButZeros(y, x)
  {
  }

  /**
   * BIT_STRING_compare, up to the magnitude of the result: the lexicographic order of the bits without trailing
   * zeros. Bits called unused count too if they are not zero.
   */
  method Compare(a: BitString, b: BitString) returns (ret: int)
    requires a.Valid() && b.Valid()
    ensures ret == Lex(Stripped(OctetBits(a.buf)), Stripped(OctetBits(b.buf)))
    ensures a.Clear() && b.Clear() ==>
      && ret == Lex(Stripped(a.Bits()), Stripped(b.Bits()))
      && (ret == 0 <==> SameButZeros(a.Bits(), b.Bits()))
  {
    hide BitsOf, OctetBits, Lex, Stripped, TrailingZeros, SameButZeros, Memcmp;
    var ca := Compactify(a);
    var cb := Compactify(b);
    var common := if |ca.buf| <= |cb.buf| then |ca.buf| else |cb.buf|;
    ret := Memcmp(ca.buf[..common], cb.buf[..common]);
    CompactCompared(ca, cb, common);
    if ret == 0 {
      if |ca.buf| < |cb.buf| {
        ret := -1;
      } else if |ca.buf| > |cb.buf| {
        ret := 1;
      } else if ca.unused > cb.unused {
        ret := -1;
      } else if ca.unused < cb.unused {
        ret := 1;
      } else {
        ret := 0;
      }
    }
    if a.Clear() && b.Clear() {
      ClearUnused(a);
      ClearUnused(b);
      StrippedEqual(a.Bits(), b.Bits());
      LexOrder(Stripped(a.Bits()), Stripped(b.Bits()));
    }
  }

  /** What the common prefix, the lengths and the unused bits of compact bit strings say about their bits. */
  lemma CompactCompared(x: BitString, y: BitString, common: nat)
    requires x.Compact() && y.Compact() && common == if |x.buf| <= |y.buf| then |x.buf| else |y.buf|
    ensures Lex(Stripped(OctetBits(x.buf)), Stripped(OctetBits(y.buf)))
         == var c := Memcmp(x.buf[..common], y.buf[..common]);
            if c != 0 then c else if |x.buf| < |y.buf| then -1 else if |x.buf| > |y.buf| then 1 else 0
    ensures |x.buf| == |y.buf| && Memcmp(x.buf[..common], y.buf[..common]) == 0 ==> x.unused == y.unused
  {
    hide BitsOf, OctetBits, Lex, Stripped, TrailingZeros, Memcmp;
    var p, q := x.buf[..common], y.buf[..common];
    MemcmpOrder(p, q);
    LexOrder(Stripped(OctetBits(x.buf)), Stripped(OctetBits(y.buf)));
    if |x.buf| <= |y.buf| {
      assert p == x.buf;
      CompactLex(x.buf, y.buf);
    } else {
      assert q == y.buf;
      CompactLex(y.buf, x.buf);
    }
    if |x.buf| == |y.buf| {
      assert p == x.buf && q == y.buf;
    }
  }

  /** A bit string is below another if it ends first, or has a 0 where the other has its first different bit. */
  lemma {:induction false} LexDiffer(x: seq<bool>, y: seq<bool>, i: nat)
    requires i <= |x| && i <= |y| && x[..i] == y[..i]
    ensures i == |x| < |y| || (i < |x| && i < |y| && !x[i] && y[i]) ==> Lex(x, y) == -1
    ensures i == |y| < |x| || (i < |x| && i < |y| && x[i] && !y[i]) ==> Lex(x, y) == 1
    decreases i
  {
    if i > 0 {
      assert x[0] == x[..i][0] == y[..i][0] == y[0];
      assert x[1..][..i - 1] == x[..i][1..] && y[1..][..i - 1] == y[..i][1..];
      LexDiffer(x[1..], y[1..], i - 1);
    }
  }
}
