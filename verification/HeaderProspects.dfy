/** How header octets that break off can go on. */
module HeaderProspects {
  import opened Octets
  import opened Words
  import opened BerTag
  import opened BerLength

  predicate Matches(want: Option<nat>, tag: nat) {
    want.None? || tag == want.value
  }

  /** The fewest groups that lead from the number v on to n. */
  function GroupsBetween(v: nat, n: nat): Option<seq<Octet>>
    decreases n
  {
    if n == v then Some([])
    else if n < v then None
    else
      match GroupsBetween(v, n / 128)
      case None => None
      case Some(w) => Some(w + [128 + n % 128])
  }

  lemma {:induction false} GroupsBetweenLeast(s: seq<Octet>, i: nat, j: nat)
    requires 1 <= i <= j <= |s|
    ensures var w := GroupsBetween(Radix128(s, 1, i), Radix128(s, 1, j)); w.Some? && |w.value| <= j - i
    decreases j
  {
    if i < j && Radix128(s, 1, i) != Radix128(s, 1, j) {
      RadixMonotone(s, 1, i, j);
      GroupsBetweenLeast(s, i, j - 1);
      assert Radix128(s, 1, j) / 128 == Radix128(s, 1, j - 1);
    }
  }

  lemma {:induction false} GroupsBetweenSpell(s: seq<Octet>, n: nat)
    requires s != [] && AllContinue(s, 1, |s|) && GroupsBetween(Radix128(s, 1, |s|), n).Some?
    ensures var id := s + GroupsBetween(Radix128(s, 1, |s|), n).value;
            AllContinue(id, 1, |id|) && Radix128(id, 1, |id|) == n
    decreases n
  {
    hide Radix128;
    var v := Radix128(s, 1, |s|);
    var w := GroupsBetween(v, n).value;
    if n == v {
      assert s + w == s;
    } else {
      GroupsBetweenSpell(s, n / 128);
      var head := s + GroupsBetween(v, n / 128).value;
      assert s + w == head + [128 + n % 128];
      RadixBehind(head, 128 + n % 128);
      GroupOf(n);
    }
  }

  /** The fewest octets that complete identifier octets to those of a wanted tag. */
  function TagRest(kept: seq<Octet>, want: Option<nat>): Option<seq<Octet>>
    requires kept != []
  {
    match want
    case None => Some([0])
    case Some(tag) =>
      if tag >= TWO_TO_32 || tag % 4 != kept[0] / 64 then None else
      match GroupsBetween(Radix128(kept, 1, |kept|), tag / 4 / 128)
      case None => None
      case Some(w) => Some(w + [tag / 4 % 128])
  }

  lemma TagRestIs(kept: seq<Octet>, want: Option<nat>)
    requires kept != [] && FetchedTag(kept).More? && TagRest(kept, want).Some?
    ensures var id := kept + TagRest(kept, want).value; IsIdentifier(id) && Matches(want, TagOf(id))
  {
    hide Radix128, GroupsBetween;
    UnfinishedTag(kept);
    var rest := TagRest(kept, want).value;
    var high, last := rest[..|rest| - 1], rest[|rest| - 1];
    match want
    case None =>
      assert kept + rest == kept + [0];
      ClosedTag(kept, 0);
    case Some(tag) =>
      GroupsBetweenSpell(kept, tag / 4 / 128);
      assert rest == high + [last] && kept + rest == kept + high + [last];
      ClosedTag(kept + high, last);
      TagParts(tag);
  }

  lemma TagParts(tag: nat)
    ensures (tag / 4 / 128 * 128 + tag / 4 % 128) * 4 + tag % 4 == tag
  {
  }

  lemma UnfinishedTag(kept: seq<Octet>)
    requires kept != [] && FetchedTag(kept).More?
    ensures kept[0] % 32 == 31 && AllContinue(kept, 1, |kept|) && Radix128(kept, 1, |kept|) < 0x80_0000
  {
    RunEndStops(kept, 1);
  }

  /** A last group behind those that continue. */
  lemma ClosedTag(head: seq<Octet>, last: Octet)
    requires head != [] && head[0] % 32 == 31 && AllContinue(head, 1, |head|) && last < 128
    requires Radix128(head, 1, |head|) < 0x80_0000
    ensures IsIdentifier(head + [last])
    ensures TagOf(head + [last]) == (Radix128(head, 1, |head|) * 128 + last) * 4 + head[0] / 64
  {
    hide Radix128;
    RadixBehind(head, last);
  }

  lemma TagRestLeast(kept: seq<Octet>, id: seq<Octet>, want: Option<nat>)
    requires kept != [] && FetchedTag(kept).More? && IsIdentifier(id) && kept < id && Matches(want, TagOf(id))
    ensures TagRest(kept, want).Some? && |kept| + |TagRest(kept, want).value| <= |id|
  {
    hide Radix128, GroupsBetween;
    UnfinishedTag(kept);
    if want.Some? {
      var n := |id| - 1;
      GroupsBetweenLeast(id, |kept|, n);
      RadixMoved(kept, 1, |kept|, id, 1);
      TagQuotient(id);
    }
  }

  /** What is left of a number without its k low octets. */
  function HighPart(n: nat, k: nat): nat {
    if k == 0 then n else HighPart(n / 256, k - 1)
  }

  lemma {:induction false} LowOctetsSpell(s: seq<Octet>, n: nat, k: nat)
    requires s != [] && Radix256(s, 1, |s|) == HighPart(n, k)
    ensures Radix256(s + LowOctets(n, k), 1, |s| + k) == n
    decreases k
  {
    if k == 0 {
      assert s + [] == s;
    } else {
      LowOctetsSpell(s, n / 256, k - 1);
      var head := s + LowOctets(n / 256, k - 1);
      assert s + LowOctets(n, k) == head + [n % 256];
      RadixBehind(head, n % 256);
    }
  }

  lemma {:induction false} HighPartIs(s: seq<Octet>, i: nat, j: nat)
    requires 1 <= i <= j <= |s|
    ensures HighPart(Radix256(s, 1, j), j - i) == Radix256(s, 1, i)
    decreases j
  {
    if i < j {
      HighPartIs(s, i, j - 1);
      assert Radix256(s, 1, j) / 256 == Radix256(s, 1, j - 1);
    }
  }

  /** The octets of a long length can become those of this number: it begins with what they spell. */
  predicate CanBecome(l: seq<Octet>, len: nat) {
    && l != [] && 0x80 < l[0] < 0xFF && |l| - 1 <= l[0] - 0x80
    && len <= RSSIZE_MAX && HighPart(len, l[0] - 0x80 - (|l| - 1)) == Radix256(l, 1, |l|)
  }

  lemma CanBecomeIs(constructed: bool, l: seq<Octet>, len: nat)
    requires CanBecome(l, len)
    ensures var all := l + LowOctets(len, l[0] - 0x80 - (|l| - 1));
            IsLength(constructed, all) && LengthOf(constructed, all) == len && |all| == 1 + l[0] - 0x80
  {
    LowOctetsSpell(l, len, l[0] - 0x80 - (|l| - 1));
  }

  lemma BecomesLength(constructed: bool, l: seq<Octet>, all: seq<Octet>)
    requires l != [] && l < all && IsLength(constructed, all)
    ensures LengthOf(constructed, all) >= 0 && CanBecome(l, LengthOf(constructed, all)) && |all| == 1 + l[0] - 0x80
  {
    hide Radix256, HighPart;
    HighPartIs(all, |l|, |all|);
    RadixMoved(l, 1, |l|, all, 1);
  }

  /** The least number with this high part. */
  function Lowest(v: nat, k: nat): nat {
    if k == 0 then v else Lowest(v, k - 1) * 256
  }

  lemma {:induction false} LowestIs(v: nat, k: nat, n: nat)
    ensures HighPart(Lowest(v, k), k) == v
    ensures HighPart(n, k) == v ==> Lowest(v, k) <= n
    decreases k
  {
    if k > 0 {
      LowestIs(v, k - 1, n / 256);
    }
  }

  lemma {:induction false} HighPartMonotone(m: nat, n: nat, k: nat)
    requires m <= n
    ensures HighPart(m, k) <= HighPart(n, k)
    decreases k
  {
    if k > 0 {
      HighPartMonotone(m / 256, n / 256, k - 1);
    }
  }

  /** The least length that octets can become: zeros for those that are missing. */
  function LeastLength(l: seq<Octet>): nat {
    if l == [] then 0 else Lowest(Radix256(l, 1, |l|), if l[0] - 0x80 >= |l| - 1 then l[0] - 0x80 - (|l| - 1) else 0)
  }

  lemma LeastLengthIs(l: seq<Octet>, len: nat, between: nat)
    requires CanBecome(l, len)
    ensures LeastLength(l) <= len && (LeastLength(l) <= between <= len ==> CanBecome(l, between))
    ensures |l| - 1 < l[0] - 0x80 ==> LeastLength(l) == 0 || LeastLength(l) >= 256
  {
    var v, k := Radix256(l, 1, |l|), l[0] - 0x80 - (|l| - 1);
    LowestIs(v, k, len);
    if LeastLength(l) <= between <= len {
      HighPartMonotone(LeastLength(l), between, k);
      HighPartMonotone(between, len, k);
    }
  }
}
