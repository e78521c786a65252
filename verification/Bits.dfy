/**
 * Bit sequences, most significant bit first: those of a number in a given width, those of octets, and the numbers they
 * spell; how shifting, masking and cutting a number into octets acts on its bits; and the zeros that pad a sequence of
 * bits to whole octets. The bit streams, the bit buffer and the bit strings are all stated in these terms.
 */
module Bits {
  import opened Octets
  import opened Words

  /** The low n bits of v. */
  function BitsOf(v: nat, n: nat): (b: seq<bool>)
    ensures |b| == n
    decreases n
  {
    if n == 0 then [] else BitsOf(v / 2, n - 1) + [v % 2 == 1]
  }

  /** The number the bits spell. */
  function ValueOf(b: seq<bool>): nat {
    if |b| == 0 then 0 else ValueOf(b[..|b| - 1]) * 2 + if b[|b| - 1] then 1 else 0
  }

  function OctetBits(s: seq<Octet>): (b: seq<bool>)
    ensures |b| == 8 * |s|
  {
    if |s| == 0 then [] else OctetBits(s[..|s| - 1]) + BitsOf(s[|s| - 1], 8)
  }

  function Zeros(n: nat): (b: seq<bool>)
    ensures |b| == n
  {
    seq(n, _ => false)
  }

  lemma {:induction false} BitsOfValue(b: seq<bool>)
    ensures BitsOf(ValueOf(b), |b|) == b
  {
    if |b| > 0 {
      BitsOfValue(b[..|b| - 1]);
    }
  }

  /** Reading back n bits of v gives v if v has no more than n bits. */
  lemma {:induction false} ValueOfBits(v: nat, n: nat)
    requires Shr(v, n) == 0
    ensures ValueOf(BitsOf(v, n)) == v
    decreases n
  {
    if n > 0 {
      ValueOfBits(v / 2, n - 1);
      assert BitsOf(v, n)[..n - 1] == BitsOf(v / 2, n - 1);
    }
  }

  lemma {:induction false} ValueFits(b: seq<bool>)
    ensures Shr(ValueOf(b), |b|) == 0
  {
    if |b| > 0 {
      ValueFits(b[..|b| - 1]);
      assert ValueOf(b) / 2 == ValueOf(b[..|b| - 1]);
    }
  }

  /** The bits of v above its low n bits, and the low n bits. */
  lemma {:induction false} BitsSplit(v: nat, m: nat, n: nat)
    ensures BitsOf(v, m + n) == BitsOf(Shr(v, n), m) + BitsOf(v, n)
    decreases n
  {
    if n > 0 {
      BitsSplit(v / 2, m, n - 1);
      var head, mid := BitsOf(Shr(v, n), m), BitsOf(v / 2, n - 1);
      assert head + mid + [v % 2 == 1] == head + (mid + [v % 2 == 1]);
    } else {
      assert BitsOf(v, 0) == [];
    }
  }

  lemma {:induction false} BitsOfZero(n: nat)
    ensures BitsOf(0, n) == Zeros(n)
  {
    if n > 0 {
      BitsOfZero(n - 1);
    }
  }

  /** Bits shifted left over low bits that fit below them. */
  lemma {:induction false} ShlPlus(p: nat, x: nat, m: nat)
    requires Shr(x, m) == 0
    ensures Shr(Shl(p, m) + x, m) == p
    ensures BitsOf(Shl(p, m) + x, m) == BitsOf(x, m)
    decreases m
  {
    if m > 0 {
      ShlOnce(p, m - 1);
      ShlPlus(p, x / 2, m - 1);
      assert (Shl(p, m) + x) / 2 == Shl(p, m - 1) + x / 2;
    }
  }

  lemma BitsJoin(p: nat, x: nat, n: nat, m: nat)
    requires Shr(x, m) == 0
    ensures BitsOf(Shl(p, m) + x, n + m) == BitsOf(p, n) + BitsOf(x, m)
  {
    ShlPlus(p, x, m);
    BitsSplit(Shl(p, m) + x, n, m);
  }

  lemma {:induction false} ShrZero(n: nat)
    ensures Shr(0, n) == 0
  {
    if n > 0 {
      ShrZero(n - 1);
    }
  }

  lemma BitsShifted(v: nat, n: nat, m: nat)
    ensures BitsOf(Shl(v, m), n + m) == BitsOf(v, n) + Zeros(m)
  {
    ShrZero(m);
    BitsJoin(v, 0, n, m);
    BitsOfZero(m);
  }

  /** Only the low n bits count. */
  lemma {:induction false} BitsOfLow(v: nat, n: nat, w: nat, k: nat)
    requires v == w + Shl(k, n)
    ensures BitsOf(v, n) == BitsOf(w, n)
    decreases n
  {
    if n > 0 {
      ShlOnce(k, n - 1);
      BitsOfLow(v / 2, n - 1, w / 2, k);
    }
  }

  lemma OctetOfLow(v: nat)
    ensures BitsOf(v % 256, 8) == BitsOf(v, 8)
  {
    Shl8(v / 256);
    BitsOfLow(v, 8, v % 256, v / 256);
  }

  lemma Assoc(a: seq<bool>, b: seq<bool>, c: seq<bool>)
    ensures a + b + c == a + (b + c)
  {
  }

  lemma {:induction false} OctetBitsConcat(s: seq<Octet>, t: seq<Octet>)
    ensures OctetBits(s + t) == OctetBits(s) + OctetBits(t)
  {
    hide BitsOf;
    if |t| == 0 {
      assert s + t == s;
    } else {
      var k := |t| - 1;
      OctetBitsConcat(s, t[..k]);
      assert (s + t)[..|s| + k] == s + t[..k];
      Assoc(OctetBits(s), OctetBits(t[..k]), BitsOf(t[k], 8));
    }
  }

  lemma OctetBitsOne(o: Octet)
    ensures OctetBits([o]) == BitsOf(o, 8)
  {
    hide BitsOf;
    assert [o][..0] == [];
  }

  /** Octets are told apart by their bits. */
  lemma {:induction false} OctetBitsInjective(s: seq<Octet>, t: seq<Octet>)
    requires OctetBits(s) == OctetBits(t)
    ensures s == t
  {
    hide BitsOf;
    if |s| > 0 {
      var k := |s| - 1;
      assert |t| == |s|;
      SameEnds(OctetBits(s[..k]), BitsOf(s[k], 8), OctetBits(t[..k]), BitsOf(t[k], 8));
      OctetBitsInjective(s[..k], t[..k]);
      OctetInjective(s[k], t[k]);
      assert s == s[..k] + [s[k]] && t == t[..k] + [t[k]];
    }
  }

  lemma SameEnds(a: seq<bool>, b: seq<bool>, c: seq<bool>, d: seq<bool>)
    requires a + b == c + d && |a| == |c|
    ensures a == c && b == d
  {
    assert a == (a + b)[..|a|] && b == (a + b)[|a|..];
    assert c == (c + d)[..|c|] && d == (c + d)[|c|..];
  }

  lemma OctetInjective(a: Octet, b: Octet)
    requires BitsOf(a, 8) == BitsOf(b, 8)
    ensures a == b
  {
    hide BitsOf;
    OctetFits(a);
    OctetFits(b);
    ValueOfBits(a, 8);
    ValueOfBits(b, 8);
  }

  lemma OctetFits(o: Octet)
    ensures Shr(o, 8) == 0
  {
    Shr8(o);
  }

  /** The bits that start in the first octet. */
  lemma FirstBits(s: seq<Octet>, n: nat)
    requires |s| > 0 && n <= 8
    ensures OctetBits(s)[..n] == BitsOf(s[0], 8)[..n]
  {
    hide BitsOf, OctetBits;
    assert s == [s[0]] + s[1..];
    OctetBitsConcat([s[0]], s[1..]);
    OctetBitsOne(s[0]);
  }

  lemma {:induction false} ShrPlus(q: nat, w: nat, m: nat)
    ensures Shr(Shl(q, m) + w, m) == q + Shr(w, m)
    decreases m
  {
    if m > 0 {
      ShlOnce(q, m - 1);
      ShrPlus(q, w / 2, m - 1);
      assert (Shl(q, m) + w) / 2 == Shl(q, m - 1) + w / 2;
    }
  }

  lemma {:induction false} ShlAdd(v: nat, m: nat, n: nat)
    ensures Shl(v, m + n) == Shl(Shl(v, m), n)
    decreases m
  {
    if m > 0 {
      ShlAdd(v * 2, m - 1, n);
    }
  }

  lemma Shl8(v: nat)
    ensures Shl(v, 8) == v * 256
  {
    assert Shl(v, 4) == v * 16;
    assert Shl(v * 16, 4) == v * 256;
    ShlAdd(v, 4, 4);
  }

  /** The k low octets of a word, most significant first. */
  function WordOctets(w: nat, k: nat): (s: seq<Octet>)
    ensures |s| == k
  {
    if k == 0 then [] else WordOctets(Shr(w, 8), k - 1) + [w % 256]
  }

  lemma {:induction false} WordBits(w: nat, k: nat)
    ensures OctetBits(WordOctets(w, k)) == BitsOf(w, 8 * k)
  {
    hide BitsOf;
    if k == 0 {
      assert BitsOf(w, 0) == [];
    } else {
      WordBits(Shr(w, 8), k - 1);
      BitsSplit(w, 8 * (k - 1), 8);
      OctetOfLow(w);
      var head := WordOctets(Shr(w, 8), k - 1);
      assert (head + [w % 256])[..k - 1] == head;
    }
  }

  /** The octet at index i of a word, as a shift. */
  lemma {:induction false} WordOctetAt(w: nat, k: nat, i: nat)
    requires i < k
    ensures WordOctets(w, k)[i] == Shr(w, 8 * (k - 1 - i)) % 256
  {
    if i < k - 1 {
      WordOctetAt(Shr(w, 8), k - 1, i);
      ShrAdd(w, 8, 8 * (k - 2 - i));
    }
  }

  /** A word put over the low octets of a longer one does not disturb them. */
  lemma OctetBelow(q: nat, w: nat, m: nat, n: nat)
    requires m >= n + 8
    ensures Shr(Shl(q, m) + w, n) % 256 == Shr(w, n) % 256
  {
    hide Shl, Shr;
    ShlAdd(q, m - n, n);
    ShrPlus(Shl(q, m - n), w, n);
    ShlAdd(q, m - n - 8, 8);
    Shl8(Shl(q, m - n - 8));
    LowOctet(Shl(q, m - n - 8), Shr(w, n));
  }

  lemma LowOctet(high: nat, low: nat)
    ensures (256 * high + low) % 256 == low % 256
  {
  }

  /** `v & ((1 << n) - 1)`. */
  function LowBits(v: nat, n: nat): nat
    decreases n
  {
    if n == 0 then 0 else LowBits(v / 2, n - 1) * 2 + v % 2
  }

  lemma {:induction false} LowBitsKept(v: nat, n: nat)
    ensures Shr(LowBits(v, n), n) == 0 && BitsOf(LowBits(v, n), n) == BitsOf(v, n)
    decreases n
  {
    if n > 0 {
      LowBitsKept(v / 2, n - 1);
      assert LowBits(v, n) / 2 == LowBits(v / 2, n - 1) && LowBits(v, n) % 2 == v % 2;
    }
  }

  lemma {:induction false} LowBitsValue(v: nat, n: nat)
    ensures LowBits(v, n) == ValueOf(BitsOf(v, n))
    decreases n
  {
    if n > 0 {
      LowBitsValue(v / 2, n - 1);
      assert BitsOf(v, n)[..n - 1] == BitsOf(v / 2, n - 1);
    }
  }

  /** Octets, read as one number, have the octets' bits. */
  lemma {:induction false} RadixBits(s: seq<Octet>, i: nat, j: nat)
    requires i <= j <= |s|
    ensures BitsOf(Radix256(s, i, j), 8 * (j - i)) == OctetBits(s[i..j])
  {
    hide BitsOf;
    if i == j {
      assert BitsOf(0, 0) == [];
    } else {
      var v := Radix256(s, i, j);
      RadixBits(s, i, j - 1);
      BitsSplit(v, 8 * (j - 1 - i), 8);
      Shr8(v);
      OctetOfLow(v);
      assert v / 256 == Radix256(s, i, j - 1) && v % 256 == s[j - 1];
      assert s[i..j][..j - 1 - i] == s[i..j - 1];
    }
  }

  /** The first n bits of k octets, as a number: the whole shifted right. */
  lemma RadixFront(s: seq<Octet>, i: nat, k: nat, n: nat)
    requires i + k <= |s| && n <= 8 * k
    ensures BitsOf(Shr(Radix256(s, i, i + k), 8 * k - n), n) == OctetBits(s[i..i + k])[..n]
  {
    hide BitsOf, OctetBits;
    var v := Radix256(s, i, i + k);
    RadixBits(s, i, i + k);
    BitsSplit(v, n, 8 * k - n);
    assert n + (8 * k - n) == 8 * (i + k - i);
  }

  /** How many bits are missing to a whole octet. */
  function Padding(n: nat): nat {
    (8 - n % 8) % 8
  }

  /** `o & (~0 << n)`: an octet with its n low bits cleared. */
  lemma ClearedBits(o: Octet, n: nat)
    requires n <= 8
    ensures Shl(Shr(o, n), n) < 256
    ensures BitsOf(Shl(Shr(o, n), n), 8) == BitsOf(o, 8)[..8 - n] + Zeros(n)
  {
    hide BitsOf, Shr, Shl;
    var p := Shr(o, n);
    BitsShifted(p, 8 - n, n);
    BitsSplit(o, 8 - n, n);
    ShrZero(n);
    ShlPlus(p, 0, n);
    ShrAdd(Shl(p, n), n, 8 - n);
    ShrAdd(o, n, 8 - n);
    Shr8(Shl(p, n));
    Shr8(o);
  }

  lemma {:induction false} ValueConcat(a: seq<bool>, b: seq<bool>)
    ensures ValueOf(a + b) == Shl(ValueOf(a), |b|) + ValueOf(b)
  {
    if |b| == 0 {
      assert a + b == a;
    } else {
      var k := |b| - 1;
      ValueConcat(a, b[..k]);
      ShlOnce(ValueOf(a), k);
      assert (a + b)[..|a| + k] == a + b[..k];
    }
  }

  lemma LowBitsOfValue(b: seq<bool>)
    ensures LowBits(ValueOf(b), |b|) == ValueOf(b)
  {
    LowBitsValue(ValueOf(b), |b|);
    BitsOfValue(b);
  }

  /** Bits from the middle of the first k octets: shift the octets right, and mask. */
  lemma Extracted(s: seq<Octet>, k: nat, i: nat, n: nat)
    requires k <= |s| && i + n <= 8 * k
    ensures LowBits(Shr(Radix256(s, 0, k), 8 * k - i - n), n) == ValueOf(OctetBits(s)[i..i + n])
  {
    hide BitsOf, OctetBits, Radix256, Shr, LowBits, ValueOf;
    var accum := Shr(Radix256(s, 0, k), 8 * k - i - n);
    RadixFront(s, 0, k, i + n);
    BitsSplit(accum, i, n);
    LowBitsValue(accum, n);
    assert s == s[0..k] + s[k..];
    OctetBitsConcat(s[0..k], s[k..]);
    FrontMiddle(OctetBits(s[0..k]), OctetBits(s[k..]), BitsOf(Shr(accum, n), i), BitsOf(accum, n));
  }

  lemma FrontMiddle(a: seq<bool>, b: seq<bool>, x: seq<bool>, y: seq<bool>)
    requires |x| + |y| <= |a| && a[..|x| + |y|] == x + y
    ensures (a + b)[|x|..|x| + |y|] == y
  {
    assert (a + b)[|x|..|x| + |y|] == a[..|x| + |y|][|x|..];
  }

  /** A bit, as the source reads it. */
  lemma {:induction false} BitAt(v: nat, n: nat, i: nat)
    requires i < n
    ensures BitsOf(v, n)[i] == (Shr(v, n - 1 - i) % 2 == 1)
    decreases n
  {
    if i < n - 1 {
      BitAt(v / 2, n - 1, i);
    }
  }

  /** A bit of some octets. */
  lemma OctetBitAt(s: seq<Octet>, k: nat, i: nat)
    requires k < |s| && i < 8
    ensures OctetBits(s)[8 * k + i] == BitsOf(s[k], 8)[i]
  {
    hide BitsOf, OctetBits;
    assert s == s[..k] + s[k..];
    OctetBitsConcat(s[..k], s[k..]);
    FirstBits(s[k..], 8);
    assert OctetBits(s[k..])[..8][i] == OctetBits(s[k..])[i];
  }

  /** std::bitset::set: bit j of an octet, counted from the least significant. */
  function WithBit(o: nat, j: nat, bit: bool): nat {
    Shl(Shl(Shr(o, j + 1), 1) + (if bit then 1 else 0), j) + LowBits(o, j)
  }

  lemma WithBitBits(o: Octet, j: nat, bit: bool)
    requires j < 8
    ensures WithBit(o, j, bit) < 256
    ensures BitsOf(WithBit(o, j, bit), 8) == BitsOf(o, 8)[7 - j := bit]
  {
    hide BitsOf, Shr, Shl, LowBits;
    var high := Shr(o, j + 1);
    var mid := Shl(high, 1) + if bit then 1 else 0;
    OneBit(bit);
    BitsJoin(high, if bit then 1 else 0, 7 - j, 1);
    LowBitsKept(o, j);
    BitsJoin(mid, LowBits(o, j), 8 - j, j);
    BitsSplit(o, 7 - j, j + 1);
    BitsSplit(o, 8 - j, j);
    Replaced(BitsOf(high, 7 - j), bit, BitsOf(o, j), BitsOf(o, 8), BitsOf(o, j + 1), BitsOf(Shr(o, j), 8 - j));
    WithBitFits(o, j, bit);
  }

  lemma OneBit(bit: bool)
    ensures var b := if bit then 1 else 0; Shr(b, 1) == 0 && BitsOf(b, 1) == [bit]
  {
    var b := if bit then 1 else 0;
    assert BitsOf(b / 2, 0) == [];
  }

  lemma Replaced(a: seq<bool>, bit: bool, c: seq<bool>, whole: seq<bool>, ac: seq<bool>, ab: seq<bool>)
    requires whole == a + ac && |ac| == |c| + 1 && whole == ab + c
    ensures a + [bit] + c == whole[|a| := bit]
  {
  }

  lemma WithBitFits(o: Octet, j: nat, bit: bool)
    requires j < 8
    ensures WithBit(o, j, bit) < 256
  {
    hide Shr, Shl, LowBits;
    var high := Shr(o, j + 1);
    var b := if bit then 1 else 0;
    var mid := Shl(high, 1) + b;
    OneBit(bit);
    ShlPlus(high, b, 1);
    LowBitsKept(o, j);
    ShlPlus(mid, LowBits(o, j), j);
    var v := WithBit(o, j, bit);
    ShrAdd(v, j, 1);
    ShrAdd(v, j + 1, 7 - j);
    ShrAdd(o, j + 1, 7 - j);
    Shr8(v);
    Shr8(o);
  }
}
