/** Enumerated values, found by number and by name in the two sorted tables of a type (INTEGER.c). */
module Enumeration {
  import opened Octets
  import opened Words
  import opened Text

  /** asn_INTEGER_enum_map_t; enum_len is the length of the name. */
  datatype Entry = Entry(value: I64, name: string)

  /** asn_INTEGER_specifics_t; no specifics at all are the same as empty tables. */
  datatype Specs = Specs(value2enum: seq<Entry>, enum2value: seq<nat>, strict: bool, unsigned: bool)
  {
    /** The tables as the compiler emits them: the first sorted by value, the second a permutation that sorts by name. */
    ghost predicate Valid() {
      && (forall i, j :: 0 <= i < j < |value2enum| ==> value2enum[i].value < value2enum[j].value)
      && (forall i :: 0 <= i < |value2enum| ==> IsName(value2enum[i].name))
      && |enum2value| == |value2enum|
      && (forall i :: 0 <= i < |enum2value| ==> enum2value[i] < |value2enum|)
      && (forall i :: 0 <= i < |value2enum| ==> i in enum2value)
      && (forall i, j :: 0 <= i < j < |enum2value| ==> NameOrder(NameAt(i), NameAt(j)) < 0)
    }

    function NameAt(i: nat): string {
      if i < |enum2value| && enum2value[i] < |value2enum| then value2enum[enum2value[i]].name else ""
    }

    /** INTEGER__compar_value2enum and INTEGER__compar_enum2value for a key, at each place of their table. */
    function ByValue(key: int): nat -> int {
      (i: nat) => if i < |value2enum| then key - value2enum[i].value else -1
    }

    function ByName(key: string): nat -> int {
      (i: nat) => NameOrder(key, NameAt(i))
    }
  }

  const NUL: char := 0 as char

  /** An identifier of ASN.1, X.680 section 12.3. */
  predicate IsName(s: string) {
    s != "" && forall i :: 0 <= i < |s| ==> IsDigit(s[i]) || 'A' <= s[i] <= 'Z' || 'a' <= s[i] <= 'z' || s[i] == '-'
  }

  /** The order of a key and a name that ends where C strings end: at the first difference, or where the name ends. */
  function NameOrder(key: string, name: string): int {
    if key == "" then (if name == "" then 0 else -1)
    else if name == "" then key[0] as int
    else if key[0] != name[0] then key[0] as int - name[0] as int
    else NameOrder(key[1..], name[1..])
  }

  /** INTEGER__compar_enum2value. */
  method CompareNames(key: string, name: string) returns (r: int)
    ensures r == NameOrder(key, name)
  {
    var at := 0;
    while at < |key|
      invariant at <= |key| && at <= |name| && NameOrder(key, name) == NameOrder(key[at..], name[at..])
    {
      var c := if at < |name| then name[at] else NUL;
      if at == |name| || key[at] != c {
        return key[at] as int - c as int;
      }
      assert key[at..][1..] == key[at + 1..] && name[at..][1..] == name[at + 1..];
      at := at + 1;
    }
    return if at < |name| then -1 else 0;
  }

  /** Keys that compare equal: the name itself, or the name, a 0 character and anything. */
  lemma {:induction false} EqualNames(key: string, name: string)
    requires NUL !in name
    ensures NameOrder(key, name) == 0 <==> name <= key && (|key| > |name| ==> key[|name|] == NUL)
    decreases |key|
  {
    if key != "" && name != "" && key[0] == name[0] {
      EqualNames(key[1..], name[1..]);
      assert key == [key[0]] + key[1..] && name == [name[0]] + name[1..];
      assert name <= key <==> name[1..] <= key[1..];
    }
  }

  /** Up to the first difference, at i. */
  predicate DifferAt(a: string, b: string, i: nat) {
    && i <= |a| && i <= |b| && a[..i] == b[..i]
    && (i == |a| < |b| || i == |b| < |a| || (i < |a| && i < |b| && a[i] != b[i]))
  }

  /** The order of the characters at the first difference, where the end of either counts for 0. */
  lemma {:induction false} NamesDiffer(key: string, name: string, i: nat)
    requires NUL !in key && NUL !in name && DifferAt(key, name, i)
    ensures NameOrder(key, name) < 0 <==> i == |key| || (i < |name| && key[i] as int < name[i] as int)
    ensures NameOrder(key, name) > 0 <==> i == |name| || (i < |key| && key[i] as int > name[i] as int)
    decreases i
  {
    if i > 0 {
      assert key[0] == key[..i][0] == name[..i][0] == name[0];
      assert key[1..][..i - 1] == key[..i][1..] && name[1..][..i - 1] == name[..i][1..];
      NamesDiffer(key[1..], name[1..], i - 1);
    }
  }

  /** A key not below the greater of two names is above the smaller one. */
  lemma {:induction false} NamesInOrder(key: string, a: string, b: string)
    requires NUL !in a && NUL !in b && NameOrder(a, b) < 0 && NameOrder(key, b) >= 0
    ensures NameOrder(key, a) > 0
    decreases |key|
  {
    if a != "" && a[0] == b[0] && key[0] == b[0] {
      NamesInOrder(key[1..], a[1..], b[1..]);
    }
  }

  /** What bsearch wants of a comparison: places below the key, then at most one that is equal, then those above. */
  predicate Sorted(count: nat, compar: nat -> int) {
    forall i: nat, j: nat :: i < j < count && compar(j) >= 0 ==> compar(i) > 0
  }

  /** bsearch of the C library. */
  method Bsearch(count: nat, compar: nat -> int) returns (at: Option<nat>)
    requires Sorted(count, compar)
    ensures at.Some? ==> at.value < count && compar(at.value) == 0
    ensures at.None? ==> forall i: nat :: i < count ==> compar(i) != 0
  {
    var low: nat, high: nat := 0, count;
    while low < high
      invariant low <= high <= count
      invariant forall i: nat :: i < low ==> compar(i) > 0
      invariant forall i: nat :: high <= i < count ==> compar(i) < 0
    {
      var mid := (low + high) / 2;
      var sign := compar(mid);
      if sign == 0 {
        return Some(mid);
      } else if sign < 0 {
        high := mid;
      } else {
        low := mid + 1;
      }
    }
    return None;
  }

  /** INTEGER_map_value2enum: the place of a value, if it has one. */
  method MapValue2Enum(specs: Specs, value: I64) returns (at: Option<nat>)
    requires specs.Valid()
    ensures at == PlaceOf(specs, value)
  {
    at := Bsearch(|specs.value2enum|, specs.ByValue(value));
    if at.Some? {
    } else {
      forall k | 0 <= k < |specs.value2enum|
        ensures specs.value2enum[k].value != value
      {
        assert specs.ByValue(value)(k) != 0;
      }
    }
  }

  /** The place of a value. */
  function PlaceOf(specs: Specs, value: int): (at: Option<nat>)
    ensures at.Some? ==> at.value < |specs.value2enum| && specs.value2enum[at.value].value == value
    ensures at.None? ==> forall k :: 0 <= k < |specs.value2enum| ==> specs.value2enum[k].value != value
  {
    PlaceFrom(specs.value2enum, value, 0)
  }

  function PlaceFrom(entries: seq<Entry>, value: int, i: nat): (at: Option<nat>)
    requires i <= |entries|
    ensures at.Some? ==> i <= at.value < |entries| && entries[at.value].value == value
    ensures at.None? ==> forall k :: i <= k < |entries| ==> entries[k].value != value
    decreases |entries| - i
  {
    if i == |entries| then None else if entries[i].value == value then Some(i) else PlaceFrom(entries, value, i + 1)
  }

  predicate EndsName(c: char) {
    c in {'\t', '\n', 11 as char, 12 as char, '\r', ' ', '/', '>'}
  }

  /** Where a name in a tag ends. */
  function NameEnd(s: string, i: nat): (e: nat)
    requires i <= |s|
    ensures i <= e <= |s| && (forall k :: i <= k < e ==> !EndsName(s[k])) && (e < |s| ==> EndsName(s[e]))
    decreases |s| - i
  {
    if i < |s| && !EndsName(s[i]) then NameEnd(s, i + 1) else i
  }

  /** Behind its first character, whatever that is, the text has this name and an end of it. */
  predicate Tells(s: string, name: string) {
    s != "" && NameEnd(s, 1) < |s| && NameOrder(s[1..NameEnd(s, 1)], name) == 0
  }

  /** INTEGER_map_enum2value: the place of the name in a tag, if it has one. */
  method MapEnum2Value(specs: Specs, s: string) returns (at: Option<nat>)
    requires specs.Valid() && s != ""
    ensures at.Some? ==> at.value < |specs.value2enum| && Tells(s, specs.value2enum[at.value].name)
    ensures at.None? ==> forall k :: 0 <= k < |specs.value2enum| ==> !Tells(s, specs.value2enum[k].name)
  {
    if |specs.value2enum| == 0 {
      return None;
    }
    var lp := 1;
    while lp < |s| && !EndsName(s[lp])
      invariant 1 <= lp <= |s| && NameEnd(s, lp) == NameEnd(s, 1)
    {
      lp := lp + 1;
    }
    if lp == |s| {
      return None;
    }
    var key := s[1..lp];
    NamesSorted(specs, key);
    var found := Bsearch(|specs.enum2value|, specs.ByName(key));
    if found.Some? {
      return Some(specs.enum2value[found.value]);
    }
    forall k | 0 <= k < |specs.value2enum|
      ensures !Tells(s, specs.value2enum[k].name)
    {
      var i := ByNameAt(specs, k);
      assert specs.ByName(key)(i) != 0;
    }
    return None;
  }

  ghost function ByNameAt(specs: Specs, k: nat): (i: nat)
    requires specs.Valid() && k < |specs.value2enum|
    ensures i < |specs.enum2value| && specs.enum2value[i] == k
  {
    assert k in specs.enum2value;
    var i :| 0 <= i < |specs.enum2value| && specs.enum2value[i] == k;
    i
  }

  lemma NamesSorted(specs: Specs, key: string)
    requires specs.Valid()
    ensures Sorted(|specs.enum2value|, specs.ByName(key))
  {
    var compar := specs.ByName(key);
    forall i: nat, j: nat | i < j < |specs.enum2value| && compar(j) >= 0
      ensures compar(i) > 0
    {
      NamesInOrder(key, specs.NameAt(i), specs.NameAt(j));
    }
  }

  /** A text tells one name at most. */
  lemma TellsOne(specs: Specs, s: string, i: nat, j: nat)
    requires specs.Valid() && i < |specs.value2enum| && j < |specs.value2enum|
    requires Tells(s, specs.value2enum[i].name) && Tells(s, specs.value2enum[j].name)
    ensures i == j
  {
    var a, b := ByNameAt(specs, i), ByNameAt(specs, j);
    NamesSorted(specs, s[1..NameEnd(s, 1)]);
    var compar := specs.ByName(s[1..NameEnd(s, 1)]);
    assert compar(a) == 0 && compar(b) == 0;
  }

  /** That is: the name, and behind it an end of the name, or a 0 character and such an end anywhere. */
  lemma TellsExact(s: string, name: string)
    requires s != "" && IsName(name)
    ensures Tells(s, name) <==>
      var e := 1 + |name|;
      && e < |s| && s[1..e] == name
      && (EndsName(s[e]) || (s[e] == NUL && exists k :: e < k < |s| && EndsName(s[k])))
  {
    var e, end := 1 + |name|, NameEnd(s, 1);
    var key := s[1..end];
    EqualNames(key, name);
    if e < |s| && s[1..e] == name {
      assert forall k :: 1 <= k < e ==> s[k] == name[k - 1];
      assert end >= e;
      if EndsName(s[e]) {
        assert end == e;
      } else {
        assert end > e && key[|name|] == s[e] && name <= key;
      }
    }
    if name <= key {
      assert e <= end && s[1..e] == name;
    }
  }

  /** White space, a slash and a closing bracket. */
  lemma NameEndsAt(c: char)
    ensures EndsName(c) <==> c as int in {0x09, 0x0A, 0x0B, 0x0C, 0x0D, 0x20, 0x2F, 0x3E}
  {
  }
}
