/** Trees of TLVs in any encoding BER permits: non-minimal tags and lengths, definite or indefinite form. */
module BerTree {
  import opened Octets
  import opened BerTag
  import opened BerLength

  /** `id` and `len` are the identifier and length octets as they stand in the encoding. */
  datatype Tlv =
    | Leaf(id: seq<Octet>, len: seq<Octet>, content: seq<Octet>)
    | Definite(id: seq<Octet>, len: seq<Octet>, items: seq<Tlv>)
    | Indefinite(id: seq<Octet>, items: seq<Tlv>)

  const END_OF_CONTENTS: seq<Octet> := [0, 0]
  const INDEFINITE_LENGTH: seq<Octet> := [0x80]

  /** Everything behind the identifier octets. */
  function Body(t: Tlv): seq<Octet>
    decreases t, 0
  {
    match t
    case Leaf(_, len, content) => len + content
    case Definite(_, len, items) => len + EncodeAll(items)
    case Indefinite(_, items) => INDEFINITE_LENGTH + EncodeAll(items) + END_OF_CONTENTS
  }

  function Encode(t: Tlv): seq<Octet>
    decreases t, 1
  {
    t.id + Body(t)
  }

  function EncodeAll(ts: seq<Tlv>): seq<Octet>
    decreases ts
  {
    if ts == [] then [] else Encode(ts[0]) + EncodeAll(ts[1..])
  }

  /** Identifier octets followed by definite length octets that announce n octets of contents. */
  predicate Announces(id: seq<Octet>, len: seq<Octet>, n: nat) {
    && IsIdentifier(id)
    && IsLength(IsConstructed(id[0]), len)
    && LengthOf(IsConstructed(id[0]), len) == n
  }

  /** Two zero octets in front: universal tag 0 with no contents, X.690 8.1.5. */
  predicate OpensWithZeros(c: seq<Octet>) {
    |c| >= 2 && c[0] == 0 && c[1] == 0
  }

  predicate WellFormed(t: Tlv)
    decreases t
  {
    match t
    case Leaf(id, len, content) =>
      Announces(id, len, |content|)
    case Definite(id, len, items) =>
      Announces(id, len, |EncodeAll(items)|) && AllWellFormed(items)
    case Indefinite(id, items) =>
      IsIdentifier(id) && IsConstructed(id[0]) && AllWellFormed(items)
        && NoneIsEndOfContents(items)
  }

  predicate NoneIsEndOfContents(ts: seq<Tlv>) {
    forall i :: 0 <= i < |ts| ==> !OpensWithZeros(Encode(ts[i]))
  }

  predicate AllWellFormed(ts: seq<Tlv>)
    decreases ts
  {
    ts == [] || (WellFormed(ts[0]) && AllWellFormed(ts[1..]))
  }

  lemma Consed(t: Tlv, ts: seq<Tlv>)
    ensures EncodeAll([t] + ts) == Encode(t) + EncodeAll(ts)
    ensures AllWellFormed([t] + ts) <==> WellFormed(t) && AllWellFormed(ts)
  {
    assert ([t] + ts)[1..] == ts;
  }
}
