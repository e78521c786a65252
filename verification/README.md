# Verified model of the ASN.1 codec runtime of UERANSIM

The runtime under `worker2/UERANSIM/src/asn/asn1c` reads and writes BER/DER, aligned PER and XER. This project models
its self-contained core in Dafny, function by function with the loops, buffers and state machines the C code has, and
proves what X.690, X.691 and X.680 want of it.

## Layers

* **Octets and bits.** `Octets` and `Bits` define the numbers that octets spell in radix 128 and 256 and the bits they
  hold, most significant first; `Words` the C integer widths and shifts. Everything above is stated in these terms.
* **Bit stream.** `BitOut` and `BitIn` are the packed writer (scratch area of 32 octets, flushed through a callback)
  and reader (cursor, refills from further segments). `BitBuffer` is the bit-at-a-time buffer. `BitStream` runs lists of
  fields through all of them: the packed pair round-trips over every segmentation, and refines the plain one.
* **BER framing.** `BerTag` and `BerLength` are the tag and length codecs. `BerTree` defines TLV trees; `BerSkip` proves
  the recursive skipper exact on them, in both directions. `BerDecoder` does the same for chains of explicit tags, and
  `BerResume` says when checking them over two calls agrees with one.
* **OCTET STRING.** `OctetMachine` specifies the resumable decoder as a step machine with an explicit stack. The class
  in `OctetString` has the C structure (buffer, size, phase, left, frames) and computes what the machine does.
  `OctetFragments` proves that fragmentation does not matter, `OctetTrees` that decoding flattens, `OctetAccepts` that
  nothing else is accepted. What bounds these results is the APPEND macro, which takes contents below 2^30 octets, and
  beyond 2^32 what its int casts let pass; headers and what stands behind the string are of any length. `OctetNesting`
  has the invariant of the stack. `OctetRefusals` says which refusals are final, `OctetWants` where more is wanted for
  ever, and `OctetProspects`, with `HeaderProspects`, which inputs that want more can still be completed.
* **INTEGER.** `Integer` has canonical octets, 64-bit conversions and comparison; `Decimal` the decimal scanners;
  `IntegerText` printing and parsing, with the tables of `Enumeration`; `Aper` the constrained form of aligned PER.
  `Text` holds what the text modules share.
* **OBJECT IDENTIFIER and BIT STRING.** `ObjectIdentifier` converts between arcs, octets and dotted text. `BitString`
  compares modulo trailing zeros. `XerText` has the hexadecimal and binary text forms.
* **Output.** `Sink` has the growing and the fixed output buffer.

A C function that works in place is a method; the function it is proved against carries the theorems. Return codes are
datatypes, as `More`, `Bad` and `Got` for 0, -1 and a count.

## What turned out different from what one would expect

Each of these comes with the exact condition for it and with an input on which it happens.

* `ber_check_tags` saves its step between calls, but not the length and the end-of-contents counted so far. With two
  or more outermost tags a fragmented input may be accepted that is refused in one piece, or leave another count
  (`BerResume.ResumedExact`, `BerResume.OuterLengthForgotten`).
* RC_WMORE of `OCTET_STRING_decode_ber` is not a promise. A frame may want more for ever (`OctetWants.WantsForEverExact`,
  `OctetWants.WantsInVain`, `OctetWants.WantsInVainMidTag`), and an input may be beyond completion without that
  (`OctetProspects.ProspectsExact`, `OctetProspects.HopelessExample`).
* RC_FAIL is not final where 2^32 octets or more are announced, as APPEND casts sizes to int
  (`OctetRefusals.RefusedExact`, `OctetRefusals.WrapExample`).
* `asn_strtoimax_lim` overflows signed arithmetic on exactly the texts described by `Decimal.RunsOver`: a minus sign,
  digits that already spell a number of the last decade before -2^63, and one more digit (`Decimal.StrToImax`,
  `Decimal.RunsOverExample`).
* `INTEGER_compare` orders different negatives of equal length the wrong way round, and only those
  (`Integer.CompareExact`, `Integer.CompareExample`). It is a total order all the same.
* `asn_ulong2INTEGER` keeps values below 2^63 only (`Integer.UlongKept`, `Integer.UlongExample`).
* `OBJECT_IDENTIFIER_get_single_arc` cannot report overflow: ASN_OID_ARC_MAX is the largest value of its accumulator.
  Larger subidentifiers are read modulo 2^32 (`ObjectIdentifier.RetoldExact`, `ObjectIdentifier.RetoldExample`).
* An INTEGER of an unsigned type does not survive printing and parsing if it is in 2^63 .. 2^64 - 1, or negative in at
  most eight octets (`IntegerText.DumpParses`, `IntegerText.DumpExample`).
* An enumerated value in XER may not have white space in front of its tag, as numbers may: the name is looked for
  behind the first character of the chunk (`IntegerText.EnumFormExact`, `IntegerText.SpaceInFrontExample`).
* `BIT_STRING_encode_xer` misplaces a line break if the last octet begins a line behind others: it stands in front of
  the eight octets before (`XerText.WrittenExact`, `XerText.OvertakenExample`).

The comparison of bits_unused at the end of `BIT_STRING_compare` never decides anything (`BitString.CompactCompared`).

## Model

| member | source | states |
|---|---|---|
| `BerTag.FetchTag` | worker2/UERANSIM/src/asn/asn1c/ber_tlv_tag.c:9-58 | the fetching loop returns 0, -1 or a count and a tag exactly as the specification `FetchedTag` says, with no access behind the buffer |
| `BerTag.FetchReadsIdentifier` | worker2/UERANSIM/src/asn/asn1c/ber_tlv_tag.c:9-58 | identifier octets that are accepted are read back exactly, whatever follows them |
| `BerTag.FetchedIsIdentifier` | worker2/UERANSIM/src/asn/asn1c/ber_tlv_tag.c:9-58 | whatever is accepted is one octet, or 0x1F and continued base-128 groups below the overflow guard at 23 bits |
| `BerTag.FetchTagStable` | worker2/UERANSIM/src/asn/asn1c/ber_tlv_tag.c:9-58 | an answer other than "more" stays the same when octets are appended |
| `BerTag.CutIdentifierWantsMore` | worker2/UERANSIM/src/asn/asn1c/ber_tlv_tag.c:9-58 | every strict prefix of identifier octets gives 0, never an error |
| `BerTag.SerializeTag` | worker2/UERANSIM/src/asn/asn1c/ber_tlv_tag.c:103-143 | the counting loop and the downward shifts write `SerializedTag` if it fits, always return the size needed, and leave the rest of the buffer alone |
| `BerTag.FetchSerializedTag` | worker2/UERANSIM/src/asn/asn1c/ber_tlv_tag.c:9-143 | fetching inverts serialising for all 2^32 tag words and any suffix |
| `BerTag.SerializedTagShortest` | worker2/UERANSIM/src/asn/asn1c/ber_tlv_tag.c:103-143 | no accepted identifier octets for the same tag are shorter |
| `BerTag.TagExamples` | worker2/UERANSIM/src/asn/asn1c/ber_tlv_tag.c:9-143 | identifier octets of one and of more octets, with the tags they stand for |
| `BerLength.FetchLength` | worker2/UERANSIM/src/asn/asn1c/ber_tlv_length.c:9-65 | the length loop with its overflow guard at 55 bits returns exactly what `FetchedLength` says |
| `BerLength.FetchReadsLength` | worker2/UERANSIM/src/asn/asn1c/ber_tlv_length.c:9-65 | length octets up to RSSIZE_MAX, short, long or indefinite, are read back exactly whatever follows |
| `BerLength.FetchedIsLength` | worker2/UERANSIM/src/asn/asn1c/ber_tlv_length.c:9-65 | whatever is accepted is length octets of one of the three forms, with a value of at most RSSIZE_MAX |
| `BerLength.FetchLengthStable` | worker2/UERANSIM/src/asn/asn1c/ber_tlv_length.c:9-65 | an answer other than "more" stays the same when octets are appended |
| `BerLength.CutLengthWantsMore` | worker2/UERANSIM/src/asn/asn1c/ber_tlv_length.c:9-65 | every strict prefix of length octets gives 0, never an error |
| `BerLength.SerializeLength` | worker2/UERANSIM/src/asn/asn1c/ber_tlv_length.c:131-167 | the shifting loops write `SerializedLength` if it fits and return the size needed |
| `BerLength.FetchSerializedLength` | worker2/UERANSIM/src/asn/asn1c/ber_tlv_length.c:9-167 | fetching inverts serialising for all lengths up to RSSIZE_MAX and any suffix, and refuses every longer one |
| `BerLength.SerializedLengthShortest` | worker2/UERANSIM/src/asn/asn1c/ber_tlv_length.c:131-167 | no definite length octets for the same length are shorter |
| `BerLength.LengthExamples` | worker2/UERANSIM/src/asn/asn1c/ber_tlv_length.c:9-167 | lengths of all three forms, and what is refused; RSSIZE_MAX is 2^62 - 1 |
| `BerSkip.SkipLength` | worker2/UERANSIM/src/asn/asn1c/ber_tlv_length.c:67-129 | the recursive skipper terminates with the remaining size as measure and returns what `SkippedLength` says, never more than it was given |
| `BerSkip.SkipStable` | worker2/UERANSIM/src/asn/asn1c/ber_tlv_length.c:67-129 | a positive or -1 result is unchanged when octets are appended |
| `BerSkip.SkipTree` | worker2/UERANSIM/src/asn/asn1c/ber_tlv_length.c:67-129 | for every well-formed tree, lengths nested definite or indefinite in any way, the result is the size of L and V, whatever follows |
| `BerSkip.SkippedIsTree` | worker2/UERANSIM/src/asn/asn1c/ber_tlv_length.c:67-129 | conversely, octets that are skipped are L and V of some well-formed tree |
| `BerSkip.SkipExact` | worker2/UERANSIM/src/asn/asn1c/ber_tlv_length.c:67-129 | exact acceptance: a count is returned if and only if that many octets are L and V of a well-formed tree |
| `BerSkip.SkipExamples` | worker2/UERANSIM/src/asn/asn1c/ber_tlv_length.c:67-129 | `80 04 01 07 00 00` of a constructed encoding and `02 07 07` of a primitive one are skipped |
| `BerDecoder.CheckTags` | worker2/UERANSIM/src/asn/asn1c/ber_decoder.c:64-283 | the loop over limit_len, step, expect_00_terminators, ptr and size computes `CheckedTags` for any tag mode, last form and starting step |
| `BerDecoder.ChainAccepted` | worker2/UERANSIM/src/asn/asn1c/ber_decoder.c:64-283 | every chain of headers that nests is accepted; exactly the headers are consumed and the innermost length is reported |
| `BerDecoder.AcceptedIsChain` | worker2/UERANSIM/src/asn/asn1c/ber_decoder.c:64-283 | what is accepted is such a chain |
| `BerDecoder.CheckTagsExact` | worker2/UERANSIM/src/asn/asn1c/ber_decoder.c:64-283 | RC_OK if and only if the buffer opens with a chain in which tags match in order, outer tags are constructed, the last one has the form asked for, and lengths are all indefinite or each covers exactly the next header and its contents |
| `BerDecoder.ChainSpelled` | worker2/UERANSIM/src/asn/asn1c/ber_decoder.c:150-201 | such a chain, on the octets: every tag the one of the descriptor at its place, but for the first one under a tag mode; bit 6 of the first octet set in every outer header, and in the last one equal to last_tag_form unless that is -1; the lengths all indefinite or each that of the next header and its contents |
| `BerDecoder.FormExamples` | worker2/UERANSIM/src/asn/asn1c/ber_decoder.c:190-201 | `02 01 05` is accepted in primitive form and refused in constructed form, `30 00` the other way round |
| `BerDecoder.ModeExamples` | worker2/UERANSIM/src/asn/asn1c/ber_decoder.c:150-180 | a tag in front of the descriptor's and one in place of it |
| `BerDecoder.NullsExamples` | worker2/UERANSIM/src/asn/asn1c/ber_decoder.c:190-283 | two tags of indefinite length report -2; what is told to have been consumed with and without a context |
| `BerDecoder.AnyExact` | worker2/UERANSIM/src/asn/asn1c/ber_decoder.c:64-283 | an untagged ANY takes any header and reports its size, length and form |
| `BerResume.ResumedExact` | worker2/UERANSIM/src/asn/asn1c/ber_decoder.c:64-283 | a call that wants more after some headers, and the next call from the saved step that accepts the rest, say what one call on everything says, if and only if no header was passed or the last header passed and the next one are definite and the former's length is exactly the latter's header and contents |
| `BerResume.AcceptedResumes` | worker2/UERANSIM/src/asn/asn1c/ber_decoder.c:64-283 | whatever one call accepts, a call that wants more and the one after it accept too, so the condition above decides when two calls tell the same |
| `BerResume.OuterLengthForgotten` | worker2/UERANSIM/src/asn/asn1c/ber_decoder.c:64-283 | `A0 05 04 01 07` is refused in one call and accepted in two: limit_len is not saved |
| `OctetString.OctetString.Append` | worker2/UERANSIM/src/asn/asn1c/OCTET_STRING.c:95-119 | the doubling APPEND macro adds the octets, or fails just when the new size or the doubled capacity is negative as an int |
| `OctetString.OctetString.AddFrame` | worker2/UERANSIM/src/asn/asn1c/OCTET_STRING.c:144-173 | a stack element is added behind the current one, fresh or reused, and starts with nothing left, got or wanted |
| `OctetString.OctetString.Pop` | worker2/UERANSIM/src/asn/asn1c/OCTET_STRING.c:270-287 | phase 1 pops a frame that is done and hands the octets it got on to its parent's left and got |
| `OctetString.OctetString.Push` | worker2/UERANSIM/src/asn/asn1c/OCTET_STRING.c:289-416 | a segment's header opens a frame with the octets it may take, if its tag and length fit the frame around it |
| `OctetString.OctetString.FillFrame` | worker2/UERANSIM/src/asn/asn1c/OCTET_STRING.c:427-463 | phase 2 takes in what there is of a leaf, and wants more if that is not all |
| `OctetMachine.AllowsExact` | worker2/UERANSIM/src/asn/asn1c/OCTET_STRING.c:320-345 | which tags may stand inside a frame: any, or the one of all_tags at its level, the last one for deeper levels |
| `OctetString.OctetString.Decode` | worker2/UERANSIM/src/asn/asn1c/OCTET_STRING.c:183-533 | one call of the resumable decoder, over buf, size, phase, left and the stack of frames, is `Run` of the machine on the saved context, for either tag mode and any tags |
| `OctetString.OctetString.DecodePieces` | worker2/UERANSIM/src/asn/asn1c/OCTET_STRING.c:183-533 | calls on successive pieces, each given what the one before left, end as `Feed` says: code, count, octets and, unless it failed, context |
| `OctetString.OctetString.DecodeFragments` | worker2/UERANSIM/src/asn/asn1c/OCTET_STRING.c:183-533 | an object fed an encoding in any pieces, with anything behind, holds the leaves in order, if they are below 2^30 octets |
| `OctetFragments.RunSplits` | worker2/UERANSIM/src/asn/asn1c/OCTET_STRING.c:183-533 | a run over s + t is the run over s, continued from the saved context over what it left and t, failing runs included, if the run over s + t does not ask APPEND for 2^30 octets or more |
| `OctetFragments.FragmentationInvariance` | worker2/UERANSIM/src/asn/asn1c/OCTET_STRING.c:183-533 | fed in any pieces from any context, each call getting what the last one did not consume and more, the decoder ends with the code, consumed count, octets and context of one call on the whole, if that call does not ask APPEND for 2^30 octets or more; failing calls included |
| `OctetFragments.FragmentsOfContents` | worker2/UERANSIM/src/asn/asn1c/OCTET_STRING.c:183-533 | so for every input on which one call does not fail and leaves contents below 2^30 octets, however long the input |
| `OctetFragments.FragmentsOfInput` | worker2/UERANSIM/src/asn/asn1c/OCTET_STRING.c:183-533 | and for every input that is itself below 2^30 octets, failing or not |
| `OctetFragments.RunRefused` | worker2/UERANSIM/src/asn/asn1c/OCTET_STRING.c:95-119 | for inputs below 2^32 octets, a run that asks APPEND for 2^30 octets or more fails |
| `OctetFragments.FragmentsKeepCode` | worker2/UERANSIM/src/asn/asn1c/OCTET_STRING.c:183-533 | for inputs below 2^32 octets the code is that of one call on the whole in any pieces, whatever APPEND is asked for |
| `OctetFragments.FragmentsAlike` | worker2/UERANSIM/src/asn/asn1c/OCTET_STRING.c:183-533 | for inputs of any size in any pieces: if no call fails, they end as one call on the whole does, code, count, octets and context |
| `OctetTrees.SegmentWellFormed` | worker2/UERANSIM/src/asn/asn1c/OCTET_STRING.c:289-416 | every OCTET STRING encoding is a well-formed TLV tree, so the skipper's results hold of it |
| `OctetTrees.DecodeFlattens` | worker2/UERANSIM/src/asn/asn1c/OCTET_STRING.c:144-533 | for every nesting of segments of mixed definite and indefinite lengths, with anything behind, the result is the leaves in order and the consumed count is the size of the whole TLV, if APPEND takes the leaves one after the other |
| `OctetTrees.FewLeavesFit` | worker2/UERANSIM/src/asn/asn1c/OCTET_STRING.c:95-119 | as it does whenever they are below 2^30 octets together |
| `OctetTrees.CutWantsMore` | worker2/UERANSIM/src/asn/asn1c/OCTET_STRING.c:183-533 | cut anywhere, an encoding of contents below 2^30 octets gives RC_WMORE |
| `OctetTrees.FragmentsDecode` | worker2/UERANSIM/src/asn/asn1c/OCTET_STRING.c:183-533 | in any pieces, every call before the one that brings the last octet gives RC_WMORE, and the last one the flattened octets and the full count, if the contents are below 2^30 octets |
| `OctetAccepts.DecodedIsOctetString` | worker2/UERANSIM/src/asn/asn1c/OCTET_STRING.c:183-533 | whatever is decoded is the encoding of an OCTET STRING, consumed to its end and flattened, with leaves that APPEND takes |
| `OctetAccepts.DecodeExact` | worker2/UERANSIM/src/asn/asn1c/OCTET_STRING.c:183-533 | for any input and any contents: success with n octets consumed and these contents, if and only if the first n octets encode an OCTET STRING with these contents whose leaves APPEND takes one after the other |
| `OctetAccepts.DecodeSmallExact` | worker2/UERANSIM/src/asn/asn1c/OCTET_STRING.c:183-533 | for contents below 2^30 octets the leaves do not matter |
| `OctetAccepts.DecodedExactly` | worker2/UERANSIM/src/asn/asn1c/OCTET_STRING.c:95-533 | for inputs below 2^32 octets the bound is part of the answer: success if and only if the contents are below 2^30 octets and the first n octets encode them |
| `OctetNesting.MovedKeeps` | worker2/UERANSIM/src/asn/asn1c/OCTET_STRING.c:183-533 | every step keeps the frames nested: an indefinite one has all the room of the frame around it, no frame has more |
| `OctetNesting.PopNeverFails` | worker2/UERANSIM/src/asn/asn1c/OCTET_STRING.c:270-287 | so the check that a popped frame fits the one below never fails |
| `OctetRefusals.RefusedForGood` | worker2/UERANSIM/src/asn/asn1c/OCTET_STRING.c:183-533 | up to 2^32 octets in all, RC_FAIL is final: no octets behind a refused input make it acceptable |
| `OctetRefusals.RefusedExact` | worker2/UERANSIM/src/asn/asn1c/OCTET_STRING.c:95-119 | an input below 2^32 octets that is refused is refused with anything behind, if and only if it was not for the size of the contents, or what was announced where it failed is below 2^32 |
| `OctetRefusals.WrapExample` | worker2/UERANSIM/src/asn/asn1c/OCTET_STRING.c:95-119 | 2^30 octets of an announced 2^32 are refused, as are the pieces one after the other, and all 2^32 at once are decoded: (int)_es is 0 |
| `OctetWants.HeaderStillWants` | worker2/UERANSIM/src/asn/asn1c/ber_tlv_length.c:9-65 | fewer octets than `Missing` says leave a header that breaks off undecided |
| `OctetWants.HeaderDecided` | worker2/UERANSIM/src/asn/asn1c/ber_tlv_length.c:9-65 | and as many can decide it, from the two guards of the tag and length loops |
| `OctetWants.WantsForEverExact` | worker2/UERANSIM/src/asn/asn1c/OCTET_STRING.c:289-330 | a frame that waits, with any octets of a header kept, gives RC_WMORE on all further inputs, if and only if it has a length and less room than what is kept and missing |
| `OctetWants.WantsInVain` | worker2/UERANSIM/src/asn/asn1c/OCTET_STRING.c:289-330 | `24 04 24 80 04 00` wants more whatever follows |
| `OctetWants.WantsInVainMidTag` | worker2/UERANSIM/src/asn/asn1c/OCTET_STRING.c:289-330 | `24 02 1F 81` wants more whatever follows |
| `HeaderProspects.TagRestIs` | worker2/UERANSIM/src/asn/asn1c/ber_tlv_tag.c:9-58 | identifier octets that break off, completed by `TagRest`, are those of the tag wanted |
| `HeaderProspects.TagRestLeast` | worker2/UERANSIM/src/asn/asn1c/ber_tlv_tag.c:9-58 | and no completion to that tag is shorter, nor is there any where `TagRest` has none |
| `OctetProspects.TailsExact` | worker2/UERANSIM/src/asn/asn1c/OCTET_STRING.c:183-533 | from any state with frames open, success if and only if the input begins with segments and end-of-contents octets that complete every frame exactly and fit the buffer |
| `OctetProspects.HopefulExact` | worker2/UERANSIM/src/asn/asn1c/OCTET_STRING.c:183-533 | a frame that waits, with any octets of a header kept, can be completed by some input, if and only if a walk down the stack finds the room of each definite frame used up or large enough for the shortest segment allowed in it or in the indefinite frames directly inside it |
| `OctetProspects.FirstExact` | worker2/UERANSIM/src/asn/asn1c/OCTET_STRING.c:200-265 | the same for an input that breaks off in its first header: the tag can still become the one wanted, and the length one for which there can be contents |
| `OctetProspects.ProspectsExact` | worker2/UERANSIM/src/asn/asn1c/OCTET_STRING.c:183-533 | so after every call that gives RC_WMORE, the input is the beginning of one that gives RC_OK, in one call or resumed, if and only if `Completable` says so of the saved context and the octets not consumed |
| `OctetProspects.HopelessExample` | worker2/UERANSIM/src/asn/asn1c/OCTET_STRING.c:183-533 | `24 05 24 80` gives RC_WMORE, can be refused, and cannot be completed |
| `BitOut.BitOut.Flush` | worker2/UERANSIM/src/asn/asn1c/asn_bit_data.c:220-237 | what does not fit any more is handed to the callback and the partial octet moves to the front, with nothing of what was written lost |
| `BitOut.BitOut.Store` | worker2/UERANSIM/src/asn/asn1c/asn_bit_data.c:239-269 | masking and shifting into one to four octets appends the value's bits behind those already in the first octet, the cases of one, two, three and four octets alike |
| `BitOut.BitOut.PutFewBits` | worker2/UERANSIM/src/asn/asn1c/asn_bit_data.c:191-277 | 0 to 31 bits of the value are appended most significant bit first, across normalisation, flushes and the split into 24 bits and the rest; any other width is refused |
| `BitOut.BitOut.PutManyBits` | worker2/UERANSIM/src/asn/asn1c/asn_bit_data.c:283-311 | the first bits of a run of octets are appended |
| `BitOut.BitOut.AlignedFlush` | worker2/UERANSIM/src/asn/asn1c/asn_bit_data.c:313-332 | all that was written goes out, zero-padded to an octet |
| `BitIn.BitIn.Undo` | worker2/UERANSIM/src/asn/asn1c/asn_bit_data.c:49-57 | the last n bits are in front again, if there are as many in the segment; the position is not touched otherwise |
| `BitIn.BitIn.Extract` | worker2/UERANSIM/src/asn/asn1c/asn_bit_data.c:97-111 | shifting and masking up to four octets yields the bits asked for as a number |
| `BitIn.BitIn.GetFewBits` | worker2/UERANSIM/src/asn/asn1c/asn_bit_data.c:62-142 | 0 to 31 bits come back as their number and are consumed, across segment boundaries and the split beyond 31 bits with the offset; -1 exactly if there are fewer, or the width is out of range |
| `BitIn.BitIn.GetManyBits` | worker2/UERANSIM/src/asn/asn1c/asn_bit_data.c:147-186 | a run of bits of any length arrives in octets, zero-filled behind or, right-aligned, in front; it fails exactly if there are fewer bits |
| `BitStream.PutFields` | worker2/UERANSIM/src/asn/asn1c/asn_bit_data.c:191-277 | any list of fields appends the concatenation of their masked values |
| `BitStream.RoundTrip` | worker2/UERANSIM/src/asn/asn1c/asn_bit_data.c:62-332 | fields written and flushed come back as their values modulo 2^width, over any segmentation of the octets |
| `BitStream.ManyBitsBack` | worker2/UERANSIM/src/asn/asn1c/asn_bit_data.c:147-332 | a run of bits of any length comes back aligned as asked for |
| `BitStream.PackedRefinesPlain` | worker2/UERANSIM/src/utils/bit_buffer.hpp:74-106 | for all fields the packed writer's octets are those of the bit-at-a-time writer |
| `BitStream.ReadersAgree` | worker2/UERANSIM/src/utils/bit_buffer.hpp:38-58 | the packed reader and the bit-at-a-time reader agree at every bit offset and width |
| `BitBuffer.BitBuffer.Write` | worker2/UERANSIM/src/utils/bit_buffer.hpp:74-84 | one bit of the memory is set, and the index moves by one |
| `BitBuffer.BitBuffer.WriteBits` | worker2/UERANSIM/src/utils/bit_buffer.hpp:86-106 | the bits of the value replace those at the index and nothing else |
| `BitBuffer.BitBuffer.ReadBits` | worker2/UERANSIM/src/utils/bit_buffer.hpp:46-58 | the number spelled by the bits at the index |
| `Aper.PutAlign` | worker2/UERANSIM/src/asn/asn1c/per_support.c:390-398 | zeros up to the next whole octet |
| `Aper.GetAlign` | worker2/UERANSIM/src/asn/asn1c/per_support.c:297-305 | the bits up to the next whole octet of the segment are skipped, across a refill too, and the number they spell is returned, or -1 if there are fewer |
| `Aper.PrefixTakesLength` | worker2/UERANSIM/src/asn/asn1c/INTEGER.c:1052-1069 | the number of octets less one fits the width of the length prefix computed from range_bits, and the octets hold all of the value |
| `Aper.PrefixLeast` | worker2/UERANSIM/src/asn/asn1c/INTEGER.c:1052-1060 | and no smaller width, from 1 up, tells as many lengths apart as the range has octets: two bits for ranges of 17 to 32 bits, three above |
| `Aper.TopOctetLeast` | worker2/UERANSIM/src/asn/asn1c/INTEGER.c:1061-1069 | the first octet written is zero only if it is the only one |
| `Aper.RanUeNgapIdExample` | worker2/UERANSIM/src/asn/asn1c/INTEGER.c:861-1083 | 0x12345678 in a range of 32 bits is `C0 12 34 56 78`, in both directions |
| `Aper.WaysExact` | worker2/UERANSIM/src/asn/asn1c/INTEGER.c:959-1050 | encoded are exactly the values within the bounds of a constraint with a range; the general form is taken for others of extensible constraints, and for all without a range and a lower bound |
| `Aper.ShortExamples` | worker2/UERANSIM/src/asn/asn1c/INTEGER.c:860-920 | what three bits decode to, and which code is told where there are too few |
| `Aper.RebasedExample` | worker2/UERANSIM/src/asn/asn1c/INTEGER.c:800-920 | a number that its base brings to 2^63 overflows |
| `Aper.RoundTrip` | worker2/UERANSIM/src/asn/asn1c/INTEGER.c:860-1083 | for every in-root value and range of up to 63 bits, decoding what was written, from the same bit offset and with anything behind, gives the value and stops where encoding stopped |
| `Aper.Encode` | worker2/UERANSIM/src/asn/asn1c/INTEGER.c:959-1088 | exactly which values are encoded, refused or left to the general form (`Aper.WaysExact`), and the bits written for them, extension bit included, with the length prefix of `Aper.PrefixLeast`; without a constraint only the general form is left |
| `Aper.DecodeInto` | worker2/UERANSIM/src/asn/asn1c/INTEGER.c:808-920 | what any bits decode to, over any refills in step, malformed, short and overflowing ones included, and the canonical octets stored; without a constraint only the general form is left |
| `Aper.Transfer` | worker2/UERANSIM/src/asn/asn1c/INTEGER.c:808-1088 | behind anything already written, an INTEGER encoded, flushed and decoded into another one arrives in canonical form |
| `Integer.CountSuperfluous` | worker2/UERANSIM/src/asn/asn1c/INTEGER.c:77-115 | the octets left behind the superfluous leading ones are the minimal ones with the same two's complement value |
| `Integer.MinimalUnique` | worker2/UERANSIM/src/asn/asn1c/INTEGER.c:82-103 | minimal octets with the same value are the same |
| `Integer.MinimalShortest` | worker2/UERANSIM/src/asn/asn1c/INTEGER.c:82-103 | no other octets with the same value are fewer |
| `Integer.MinimalSpells` | worker2/UERANSIM/src/asn/asn1c/INTEGER.c:82-103 | every number has minimal octets |
| `Integer.INTEGER.DerContents` | worker2/UERANSIM/src/asn/asn1c/INTEGER.c:62-122 | DER contents octets are the minimal ones |
| `Integer.Convert` | worker2/UERANSIM/src/asn/asn1c/INTEGER.c:1105-1122 | sign extension and shifting modulo 2^64 give the two's complement value of up to eight octets |
| `Integer.INTEGER.ToImax` | worker2/UERANSIM/src/asn/asn1c/INTEGER.c:1125-1174 | fails if and only if the value of octets of any length is not one of int64, and otherwise gives it |
| `Integer.INTEGER.ToUmax` | worker2/UERANSIM/src/asn/asn1c/INTEGER.c:1176-1207 | fails if and only if the unsigned reading does not fit 64 bits, and otherwise gives it |
| `Integer.UnsignedIsValue` | worker2/UERANSIM/src/asn/asn1c/INTEGER.c:1176-1207 | the unsigned reading is the value if and only if the first octet does not say negative |
| `Integer.INTEGER.FromImax` | worker2/UERANSIM/src/asn/asn1c/INTEGER.c:1235-1288 | the octets stored are the minimal ones, for all of int64 |
| `Integer.INTEGER.FromUmax` | worker2/UERANSIM/src/asn/asn1c/INTEGER.c:1209-1233 | the octets stored are the minimal ones, for all of uint64, with the extra zero octet from 2^63 on |
| `Integer.ConvertedBack` | worker2/UERANSIM/src/asn/asn1c/INTEGER.c:1125-1288 | every int64 and every uint64 comes back |
| `Integer.UlongKept` | worker2/UERANSIM/src/asn/asn1c/INTEGER.c:1325-1328 | through the signed converter an unsigned long keeps its value if and only if it is below 2^63 |
| `Integer.UlongExample` | worker2/UERANSIM/src/asn/asn1c/INTEGER.c:1325-1328 | 2^63 becomes -2^63 |
| `Integer.CompareAntisymmetric` | worker2/UERANSIM/src/asn/asn1c/INTEGER.c:1599-1640 | antisymmetric, and zero only on equal octets |
| `Integer.CompareTransitive` | worker2/UERANSIM/src/asn/asn1c/INTEGER.c:1599-1640 | transitive |
| `Integer.CompareExact` | worker2/UERANSIM/src/asn/asn1c/INTEGER.c:1599-1640 | on canonical octets the comparison is numeric if and only if they are not different negatives of equal length, on which it is reversed |
| `Integer.CompareExample` | worker2/UERANSIM/src/asn/asn1c/INTEGER.c:1599-1640 | -128 and -127 are in the wrong order |
| `Text.DigitsAre` | worker2/UERANSIM/src/asn/asn1c/INTEGER.c:1446 | the digits 0 to 9 are worth their place, read or printed |
| `Text.CharactersAre` | worker2/UERANSIM/src/asn/asn1c/OBJECT_IDENTIFIER.c:490-515 | the digits and the white space, in code points |
| `Text.DigitsLead` | worker2/UERANSIM/src/asn/asn1c/INTEGER.c:170-175 | no number but 0 is printed with a zero in front |
| `Decimal.StrToUmax` | worker2/UERANSIM/src/asn/asn1c/INTEGER.c:1485-1537 | the exact number of the longest run of digits and where it ends, or a range error if and only if it exceeds 2^64 - 1, at the first digit that does |
| `Decimal.StrToImax` | worker2/UERANSIM/src/asn/asn1c/INTEGER.c:1417-1478 | the same for signed text, except that the arithmetic overflows on exactly the texts that run over |
| `Decimal.ScanExamples` | worker2/UERANSIM/src/asn/asn1c/INTEGER.c:1417-1537 | -12 and 1234567890 are the numbers of their texts |
| `Decimal.RunsOverExample` | worker2/UERANSIM/src/asn/asn1c/INTEGER.c:1448-1456 | a text on which the signed arithmetic overflows |
| `Decimal.RunsOverIsOutOfRange` | worker2/UERANSIM/src/asn/asn1c/INTEGER.c:1448-1456 | each such text is out of range, so what is missed is the range error |
| `Enumeration.CompareNames` | worker2/UERANSIM/src/asn/asn1c/INTEGER.c:230-247 | the comparison of a key that ends by length with a name that ends with a 0 character computes `NameOrder` |
| `Enumeration.EqualNames` | worker2/UERANSIM/src/asn/asn1c/INTEGER.c:230-247 | it is 0 if and only if the key is the name, or the name, a 0 character and anything |
| `Enumeration.NamesDiffer` | worker2/UERANSIM/src/asn/asn1c/INTEGER.c:230-247 | otherwise the characters at the first difference decide, the end counting for 0 |
| `Enumeration.NamesInOrder` | worker2/UERANSIM/src/asn/asn1c/INTEGER.c:230-247 | every key meets a sorted table as a binary search wants it: what is not below the greater of two names is above the smaller |
| `Enumeration.MapValue2Enum` | worker2/UERANSIM/src/asn/asn1c/INTEGER.c:288-305 | the entry of a value, if and only if there is one |
| `Enumeration.MapEnum2Value` | worker2/UERANSIM/src/asn/asn1c/INTEGER.c:249-286 | the entry whose name the text tells behind its first character, through the permutation that sorts by name, if and only if there is one |
| `Enumeration.TellsExact` | worker2/UERANSIM/src/asn/asn1c/INTEGER.c:249-286 | a text tells a name if and only if it has it behind its first character, with white space, a slash or a closing bracket behind it, or a 0 character and one of these further on |
| `Enumeration.NameEndsAt` | worker2/UERANSIM/src/asn/asn1c/INTEGER.c:258-270 | the characters that end a name, in code points |
| `IntegerText.HexDigitsAre` | worker2/UERANSIM/src/asn/asn1c/INTEGER.c:180-203 | so are those of h2c, and when read in capital and small letters |
| `IntegerText.ToldExamples` | worker2/UERANSIM/src/asn/asn1c/INTEGER.c:131-180 | a name behind its number for people, in a tag for XER; a number without a name, strictly or not |
| `IntegerText.Dump` | worker2/UERANSIM/src/asn/asn1c/INTEGER.c:131-203 | what is printed through the scratch area and its length: the name of an enumerated value, in a tag or in brackets behind its number, the number in decimal, or colon-separated hexadecimal; -1 exactly in XER for a value without a name in a strict type |
| `IntegerText.BodyDecode` | worker2/UERANSIM/src/asn/asn1c/INTEGER.c:324-558 | the state machine, with its one restart, accepts exactly the decimal form within int64, the hexadecimal form and the tags of enumerated values, stores their octets, stays within the buffer of chunk_size / 3 + 2, and says which code it returns for everything else |
| `IntegerText.FormExamples` | worker2/UERANSIM/src/asn/asn1c/INTEGER.c:356-500 | a decimal text, a hexadecimal one, and what they stand for |
| `IntegerText.EnumFormExact` | worker2/UERANSIM/src/asn/asn1c/INTEGER.c:426-441 | a tag is accepted if and only if the bracket is the very first character, then comes the name of an entry and then an end of it, whatever follows |
| `IntegerText.SpaceInFront` | worker2/UERANSIM/src/asn/asn1c/INTEGER.c:262-274 | with white space in front no tag is accepted |
| `IntegerText.SpaceInFrontExample` | worker2/UERANSIM/src/asn/asn1c/INTEGER.c:262-274 | a tag that is accepted, the same one with a space in front that is not, and a number with a space in front that is |
| `IntegerText.DumpParses` | worker2/UERANSIM/src/asn/asn1c/INTEGER.c:131-558 | of a canonical INTEGER of any length what is printed parses to the same octets; for unsigned types if and only if the number is not small or is in 0 .. 2^63 - 1 |
| `IntegerText.DumpExample` | worker2/UERANSIM/src/asn/asn1c/INTEGER.c:131-558 | 2^63 of an unsigned type is printed in decimal and gives the decoder's limit when parsed |
| `IntegerText.PrintedBack` | worker2/UERANSIM/src/asn/asn1c/INTEGER.c:131-558 | in XER a canonical INTEGER, enumerated or not, of a signed type or in 0 .. 2^63 - 1, printed and parsed into another one, arrives unchanged, and is not printed if and only if the type is strict and has no name for it |
| `ObjectIdentifier.GetSingleArc` | worker2/UERANSIM/src/asn/asn1c/OBJECT_IDENTIFIER.c:108-135 | the subidentifier modulo 2^32 and its size; -1 if no octet ends it: the range check behind it cannot fail |
| `ObjectIdentifier.SetSingleArc` | worker2/UERANSIM/src/asn/asn1c/OBJECT_IDENTIFIER.c:343-373 | the base-128 groups of an arc, at most five, or -1 if there is not enough room |
| `ObjectIdentifier.OBJECT_IDENTIFIER.SetArcs` | worker2/UERANSIM/src/asn/asn1c/OBJECT_IDENTIFIER.c:375-461 | succeeds if and only if X.690 8.19.4 allows the arcs; five octets for every arc are room enough; the contents are those groups |
| `ObjectIdentifier.OBJECT_IDENTIFIER.GetArcs` | worker2/UERANSIM/src/asn/asn1c/OBJECT_IDENTIFIER.c:284-337 | the true count, and as many arcs as there are slots, the other slots untouched |
| `ObjectIdentifier.GroupsRead` | worker2/UERANSIM/src/asn/asn1c/OBJECT_IDENTIFIER.c:86-135 | subidentifiers come back from their octets, whatever their size |
| `ObjectIdentifier.ArcsOfContents` | worker2/UERANSIM/src/asn/asn1c/OBJECT_IDENTIFIER.c:86-461 | accepted arcs come back from their contents octets |
| `ObjectIdentifier.RetoldContents` | worker2/UERANSIM/src/asn/asn1c/OBJECT_IDENTIFIER.c:86-461 | the arcs told of any octets are accepted, and stand for the low 32 bits of each subidentifier |
| `ObjectIdentifier.RetoldExact` | worker2/UERANSIM/src/asn/asn1c/OBJECT_IDENTIFIER.c:86-461 | octets to arcs and back gives the same octets if and only if no subidentifier is padded and all fit 32 bits |
| `ObjectIdentifier.SplitExamples` | worker2/UERANSIM/src/asn/asn1c/OBJECT_IDENTIFIER.c:375-461 | how the first subidentifier holds two arcs, at the limits |
| `ObjectIdentifier.RetoldExample` | worker2/UERANSIM/src/asn/asn1c/OBJECT_IDENTIFIER.c:86-135 | `2A 90 80 80 80 00`, whose second subidentifier is 2^32, is told as 1.2.0 and comes back as `2A 00` |
| `ObjectIdentifier.DumpBody` | worker2/UERANSIM/src/asn/asn1c/OBJECT_IDENTIFIER.c:137-187 | the dotted text of the arcs; no piece overflows the scratch area |
| `ObjectIdentifier.ParseArcs` | worker2/UERANSIM/src/asn/asn1c/OBJECT_IDENTIFIER.c:463-581 | the state machine computes the grammar `Parsed`: white space, arcs below 2^32 with dots between them, white space; -1 on anything else; the true count whatever the slots; and where it stopped |
| `ObjectIdentifier.StopExact` | worker2/UERANSIM/src/asn/asn1c/OBJECT_IDENTIFIER.c:463-581 | text is accepted if and only if the parser stops at its end and the last character is not a dot |
| `ObjectIdentifier.ParsedDotted` | worker2/UERANSIM/src/asn/asn1c/OBJECT_IDENTIFIER.c:137-581 | dotted text parses to the arcs it was made of |
| `ObjectIdentifier.DottedExample` | worker2/UERANSIM/src/asn/asn1c/OBJECT_IDENTIFIER.c:137-461 | 1.2.840 is that text and the octets `2A 86 48` |
| `ObjectIdentifier.BodyDecode` | worker2/UERANSIM/src/asn/asn1c/OBJECT_IDENTIFIER.c:189-229 | text to contents octets, with ten slots first and then enough; which code for which text |
| `ObjectIdentifier.ThreeWay` | worker2/UERANSIM/src/asn/asn1c/OBJECT_IDENTIFIER.c:86-581 | arcs to octets, octets to arcs and to text, text to arcs and to the same octets |
| `BitString.LowestSetBit` | worker2/UERANSIM/src/asn/asn1c/BIT_STRING.c:240-246 | v & -v and three masks count the bits below the lowest one |
| `BitString.Compactify` | worker2/UERANSIM/src/asn/asn1c/BIT_STRING.c:216-259 | the octets up to the last one bit, holding the bits without trailing zeros |
| `BitString.CompactShortest` | worker2/UERANSIM/src/asn/asn1c/BIT_STRING.c:216-259 | no bit string that differs in trailing zeros only takes fewer octets |
| `BitString.CompactUnique` | worker2/UERANSIM/src/asn/asn1c/BIT_STRING.c:216-259 | compact bit strings that differ in trailing zeros only are the same |
| `BitString.Compare` | worker2/UERANSIM/src/asn/asn1c/BIT_STRING.c:261-305 | the lexicographic order of the bits without trailing zeros; 0 if and only if two bit strings with clear unused bits differ in trailing zeros only |
| `BitString.LexOrder` | worker2/UERANSIM/src/asn/asn1c/BIT_STRING.c:257-305 | that order is antisymmetric and zero only on equal bits |
| `BitString.LexTransitive` | worker2/UERANSIM/src/asn/asn1c/BIT_STRING.c:257-305 | and transitive |
| `BitString.LexDiffer` | worker2/UERANSIM/src/asn/asn1c/BIT_STRING.c:257-305 | the first different bit decides, 0 below 1 and the end below both |
| `XerText.EncodeBits` | worker2/UERANSIM/src/asn/asn1c/BIT_STRING.c:95-151 | the text spells exactly the used bits; in canonical form it is a digit for each and nothing else, otherwise the lines of `WrittenLines` |
| `XerText.WrittenExact` | worker2/UERANSIM/src/asn/asn1c/BIT_STRING.c:119-137 | these are lines of eight octets, if and only if the last octet does not begin a line behind others |
| `XerText.OvertakenExample` | worker2/UERANSIM/src/asn/asn1c/BIT_STRING.c:119-137 | of nine octets, the break for the ninth stands in front of the first |
| `XerText.LayoutExamples` | worker2/UERANSIM/src/asn/asn1c/BIT_STRING.c:95-151 | texts of one and two octets and of none, binary and hexadecimal, as they stand in a document |
| `XerText.BitStringText.Convert` | worker2/UERANSIM/src/asn/asn1c/OCTET_STRING.c:874-930 | text of zeros, ones and white space appends its bits; anything else is refused |
| `XerText.ConvertChunks` | worker2/UERANSIM/src/asn/asn1c/OCTET_STRING.c:874-930 | in any chunks the bits are those of the whole text |
| `XerText.EncodedBack` | worker2/UERANSIM/src/asn/asn1c/OCTET_STRING.c:874-930 | a bit string comes back from its text with its unused bits cleared |
| `XerText.EncodeHex` | worker2/UERANSIM/src/asn/asn1c/OCTET_STRING.c:600-657 | the text spells two digits for every octet; in canonical form characters 2k and 2k + 1 are the digits of octet k and there are no others, otherwise the text is that of `LinesOfSixteen` |
| `XerText.HexLinesPlace` | worker2/UERANSIM/src/asn/asn1c/OCTET_STRING.c:633-651 | in which every octet stands at its place, behind one space or, if there are more than sixteen, behind a break for each sixteenth |
| `XerText.ConvertHex` | worker2/UERANSIM/src/asn/asn1c/OCTET_STRING.c:797-871 | pairs of digits become octets; the count is the part of the text that is done with; anything but digits and white space is refused |
| `XerText.HexResumes` | worker2/UERANSIM/src/asn/asn1c/OCTET_STRING.c:797-871 | text not done with, read again in front of the next chunk, gives the octets of the whole |
| `XerText.ConvertHexChunks` | worker2/UERANSIM/src/asn/asn1c/OCTET_STRING.c:797-871 | in any chunks, each call given what the one before was not done with, the octets are those of the whole, and a digit left over is half of one more octet |
| `XerText.PairedExamples` | worker2/UERANSIM/src/asn/asn1c/OCTET_STRING.c:797-930 | two texts and their digits, an even and an odd number of them and their octets |
| `XerText.HexBack` | worker2/UERANSIM/src/asn/asn1c/OCTET_STRING.c:600-871 | octets come back from their text |
| `Sink.DynamicBuffer.Put` | worker2/UERANSIM/src/asn/asn1c/asn_application.c:83-114 | all pieces in order with room for one more octet, or counting alone once an allocation has failed |
| `Sink.ToNewBuffer` | worker2/UERANSIM/src/asn/asn1c/asn_application.c:189-221 | after any pieces the buffer holds their concatenation and the terminator fits |
| `Sink.OverrunBuffer.Put` | worker2/UERANSIM/src/asn/asn1c/asn_application.c:57-75 | the true total, and exactly the pieces before the first one that did not fit |
| `Sink.FittingIs` | worker2/UERANSIM/src/asn/asn1c/asn_application.c:57-75 | those pieces fit the buffer, and the next one does not |

## Left out

- BerDecoder.CheckTags: does not model the C stack-depth check, its optional outputs, or a null context; the step in and out are its parameters and results.
- OctetString.OctetString.Decode: a descriptor with one outermost tag, as those of the runtime's string types, and tag_mode 0 or -1; the context of a second outermost tag (tag_mode 1) is `BerDecoder` and `BerResume` without the string behind it. The subvariants for BIT STRING (an octet of unused bits) and ANY, and allocation failure, are not modelled.
- OctetString.OctetString.Decode: after a failure the frames left on the stack are not specified, only the octets so far. The check for TLV sizes that wrap cannot be reached with lengths up to RSSIZE_MAX and is left out.
- OctetFragments.FragmentsKeepCode: for inputs of 2^32 octets and more see `OctetFragments.FragmentsAlike`; where a call fails there and the whole does not, as in `OctetRefusals.WrapExample`, the codes differ.
- BerSkip.SkipLength: does not model the C stack-depth check.
- BitOut.BitOut.PutFewBits: whether the callback fails is fixed for the whole life of the writer; what is written after a failure is not specified.
- BitBuffer.BitBuffer.WriteBits: takes the 64-bit pattern of the value; `peek`, which uses another bit order, `seek` and `octetAlign` are not modelled.
- Aper.Encode: constraints with ranges of at most 63 bits as the compiler emits them, and no negative lower bound for unsigned types; the general form of sections 12.2.3 and 12.2.4 of X.691, which other branches lead to, is not modelled.
- Aper.DecodeInto: where the reader goes on in a further segment, that one starts at the same bit of an octet at which the last one ended: alignment is by the position within a segment.
- Integer.Compare: not defined where the first INTEGER has no octets and the second has some: the source reads an octet that is not there. Null arguments are not modelled, and results stand for their sign.
- Decimal.StrToImax: gives no result where C leaves the arithmetic undefined.
- IntegerText.BodyDecode: the octets in the buffer after a failure are not specified.
- IntegerText.Dump: the callback does not fail.
- Enumeration.MapEnum2Value: the tables are as the compiler emits them, sorted and without duplicates; `bsearch` is the usual bisection.
- XerText.BitStringText.Convert: the contents after a refusal are not specified.
- XerText.EncodeBits: the sixteen four-digit patterns are taken to be the bits of their index; the callback does not fail.
- C integers have the widths of LP64: 32-bit int, 64-bit long and size_t. Sizes do not overflow size_t.
- Allocation succeeds, except in Sink; errno, debug output and 0-terminators that nothing reads are not modelled.
- The PER forms of the string types, their fragmentation, general PER lengths, open types and unaligned PER.
- The XER tokenizer, the UTF-8 and PrintableString text forms, printing, constraint checks and random filling.
- The SEQUENCE, SET and CHOICE codecs, ANY, NativeEnumerated, REAL and the time types.
- The other parts of the repository: UERANSIM tasks, sockets and NAS helpers, free5GC, the web console and the scripts.
