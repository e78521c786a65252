/**
 * Octets, and the big-endian numbers that stretches of them spell: in radix 128 with a continuation bit, as identifiers
 * and object identifiers have them, and in radix 256, as lengths and integers do. Their shortest spellings, and the
 * order of memcmp.
 */
module Octets {
  type Octet = x: int | 0 <= x < 256

  /** The outcome of fetching a value from the front of a buffer, in the {0, -1, >0} convention. */
  datatype Fetch<+T> =
    | More                         // 0: more data expected
    | Bad                          // -1: fatal error
    | Got(value: T, used: nat)     // >0: octets used

  datatype Option<+T> = None | Some(value: T)

  /** The number spelled by the 7 low bits of s[i], ..., s[j - 1], most significant first. */
  function Radix128(s: seq<Octet>, i: nat, j: nat): nat
    requires i <= j <= |s|
  {
    if i == j then 0 else Radix128(s, i, j - 1) * 128 + s[j - 1] % 128
  }

  /** The number spelled by s[i], ..., s[j - 1], most significant first. */
  function Radix256(s: seq<Octet>, i: nat, j: nat): nat
    requires i <= j <= |s|
  {
    if i == j then 0 else Radix256(s, i, j - 1) * 256 + s[j - 1]
  }

  /** s[i], ..., s[j - 1] all have the high (continuation) bit set. */
  predicate AllContinue(s: seq<Octet>, i: nat, j: nat)
    requires i <= j <= |s|
  {
    forall k :: i <= k < j ==> s[k] >= 128
  }

  /** s[i], ..., s[j - 1] end at the first octet whose high bit is clear: X.690 8.1.2.4.2 and 8.19.2. */
  predicate IsContinued(s: seq<Octet>, i: nat, j: nat)
    requires i <= j <= |s|
  {
    i < j && AllContinue(s, i, j - 1) && s[j - 1] < 128
  }

  /** The same octets found at other indices spell the same numbers. */
  lemma {:induction false} RadixMoved(s: seq<Octet>, i: nat, j: nat, t: seq<Octet>, k: nat)
    requires i <= j <= |s| && k + (j - i) <= |t|
    requires forall m :: i <= m < j ==> s[m] == t[m - i + k]
    ensures Radix128(s, i, j) == Radix128(t, k, k + (j - i))
    ensures Radix256(s, i, j) == Radix256(t, k, k + (j - i))
  {
    if i < j {
      RadixMoved(s, i, j - 1, t, k);
    }
  }

  lemma {:induction false} RadixMonotone(s: seq<Octet>, i: nat, j: nat, k: nat)
    requires i <= j <= k <= |s|
    ensures Radix128(s, i, j) <= Radix128(s, i, k)
    ensures Radix256(s, i, j) <= Radix256(s, i, k)
  {
    if j < k {
      RadixMonotone(s, i, j, k - 1);
    }
  }

  /** One more octet behind the first. */
  lemma RadixBehind(s: seq<Octet>, o: Octet)
    requires s != []
    ensures Radix128(s + [o], 1, |s|) == Radix128(s, 1, |s|) && Radix256(s + [o], 1, |s|) == Radix256(s, 1, |s|)
    ensures Radix128(s + [o], 1, |s| + 1) == Radix128(s, 1, |s|) * 128 + o % 128
    ensures Radix256(s + [o], 1, |s| + 1) == Radix256(s, 1, |s|) * 256 + o
  {
    RadixMoved(s, 1, |s|, s + [o], 1);
  }

  /** Radix 128 groups of v, all with the continuation bit set, none of them a leading zero. */
  function ContinuedGroups(v: nat): seq<Octet> {
    if v == 0 then [] else ContinuedGroups(v / 128) + [128 + v % 128]
  }

  /** The shortest radix 128 spelling of v. */
  function Groups128(v: nat): seq<Octet> {
    ContinuedGroups(v / 128) + [v % 128]
  }

  lemma {:induction false} ContinuedGroupsContinue(v: nat)
    ensures AllContinue(ContinuedGroups(v), 0, |ContinuedGroups(v)|)
  {
    if v > 0 {
      ContinuedGroupsContinue(v / 128);
    }
  }

  lemma {:induction false} ContinuedGroupsValue(v: nat)
    ensures Radix128(ContinuedGroups(v), 0, |ContinuedGroups(v)|) == v
  {
    if v > 0 {
      ContinuedGroupsValue(v / 128);
      GroupOf(v);
      Radix128Snoc(ContinuedGroups(v / 128), 128 + v % 128);
    }
  }

  lemma GroupOf(v: nat)
    ensures v / 128 * 128 + (128 + v % 128) % 128 == v
  {
    assert (128 + v % 128) % 128 == v % 128;
  }

  lemma Radix128Snoc(s: seq<Octet>, o: Octet)
    ensures Radix128(s + [o], 0, |s| + 1) == Radix128(s, 0, |s|) * 128 + o % 128
  {
    RadixMoved(s, 0, |s|, s + [o], 0);
  }

  lemma Groups128Value(v: nat)
    ensures var g := Groups128(v); IsContinued(g, 0, |g|) && Radix128(g, 0, |g|) == v
  {
    var high, low := v / 128, v % 128;
    ContinuedGroupsContinue(high);
    ContinuedGroupsValue(high);
    Radix128Close(ContinuedGroups(high), high, low);
  }

  lemma Radix128Close(head: seq<Octet>, high: nat, low: Octet)
    requires AllContinue(head, 0, |head|) && Radix128(head, 0, |head|) == high && low < 128
    ensures var g := head + [low]; IsContinued(g, 0, |g|) && Radix128(g, 0, |g|) == high * 128 + low
  {
    Radix128Snoc(head, low);
  }

  /** No radix 128 spelling of a number has fewer groups. */
  lemma {:induction false} ContinuedGroupsShortest(s: seq<Octet>, i: nat, j: nat)
    requires i <= j <= |s|
    ensures |ContinuedGroups(Radix128(s, i, j))| <= j - i
  {
    if i < j {
      ContinuedGroupsShortest(s, i, j - 1);
    }
  }

  function Pow128(k: nat): nat {
    if k == 0 then 1 else 128 * Pow128(k - 1)
  }

  lemma {:induction false} ContinuedGroupsLength(v: nat, k: nat)
    requires v < Pow128(k)
    ensures |ContinuedGroups(v)| <= k
  {
    if v > 0 && k > 0 {
      ContinuedGroupsLength(v / 128, k - 1);
    }
  }

  /** 32 bits take no more than five groups. */
  lemma GroupsAtMost5(v: nat)
    requires v < 0x1_0000_0000
    ensures 1 <= |Groups128(v)| <= 5
  {
    ContinuedGroupsLength(v / 128, 4);
  }

  /** The k low octets of a number, most significant first, as a C integer of k octets has them in memory. */
  function LowOctets(v: int, k: nat): (s: seq<Octet>)
    ensures |s| == k
    decreases k
  {
    if k == 0 then [] else LowOctets(v / 256, k - 1) + [v % 256]
  }

  /** The shortest radix 256 spelling of v; nothing for 0. */
  function Digits256(v: nat): seq<Octet> {
    if v == 0 then [] else Digits256(v / 256) + [v % 256]
  }

  lemma {:induction false} Digits256Value(v: nat)
    ensures var d := Digits256(v); Radix256(d, 0, |d|) == v
    ensures v > 0 ==> Digits256(v) != [] && Digits256(v)[0] != 0
  {
    if v > 0 {
      var head := Digits256(v / 256);
      Digits256Value(v / 256);
      RadixMoved(head, 0, |head|, Digits256(v), 0);
    }
  }

  /** memcmp over equally many octets: the sign of the first difference. */
  function Memcmp(a: seq<Octet>, b: seq<Octet>): int
    requires |a| == |b|
  {
    if a == [] then 0
    else if a[0] < b[0] then -1
    else if a[0] > b[0] then 1
    else Memcmp(a[1..], b[1..])
  }

  lemma {:induction false} MemcmpOrder(a: seq<Octet>, b: seq<Octet>)
    requires |a| == |b|
    ensures -1 <= Memcmp(a, b) <= 1 && (Memcmp(a, b) == 0 <==> a == b)
    ensures Memcmp(b, a) == 0 - Memcmp(a, b)
  {
    if a != [] {
      MemcmpOrder(a[1..], b[1..]);
      assert a == [a[0]] + a[1..] && b == [b[0]] + b[1..];
    }
  }

  lemma {:induction false} MemcmpTransitive(a: seq<Octet>, b: seq<Octet>, c: seq<Octet>)
    requires |a| == |b| == |c| && Memcmp(a, b) <= 0 && Memcmp(b, c) <= 0
    ensures Memcmp(a, c) <= 0
  {
    if a != [] && a[0] == b[0] == c[0] {
      MemcmpTransitive(a[1..], b[1..], c[1..]);
    }
  }

  /** The same octet n times. */
  function Repeated(o: Octet, n: nat): (s: seq<Octet>)
    ensures |s| == n && forall i :: 0 <= i < n ==> s[i] == o
  {
    seq(n, i => o)
  }

  /** Pieces, one after the other. */
  function Concat<T>(pieces: seq<seq<T>>): seq<T> {
    if pieces == [] then [] else pieces[0] + Concat(pieces[1..])
  }

  lemma {:induction false} ConcatMore<T>(pieces: seq<seq<T>>, k: nat)
    requires k < |pieces|
    ensures Concat(pieces[..k + 1]) == Concat(pieces[..k]) + pieces[k]
    decreases k
  {
    if k > 0 {
      var rest := pieces[1..];
      ConcatMore(rest, k - 1);
      assert pieces[..k + 1][1..] == rest[..k] && pieces[..k][1..] == rest[..k - 1];
    } else {
      assert pieces[..1][1..] == [];
    }
  }

  lemma {:induction false} ConcatFront<T>(pieces: seq<seq<T>>, k: nat)
    requires k <= |pieces|
    ensures |Concat(pieces[..k])| <= |Concat(pieces)|
    ensures Concat(pieces[..k]) == Concat(pieces)[..|Concat(pieces[..k])|]
    decreases |pieces| - k
  {
    if k < |pieces| {
      ConcatMore(pieces, k);
      ConcatFront(pieces, k + 1);
    } else {
      assert pieces[..k] == pieces;
    }
  }
}
